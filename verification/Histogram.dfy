/** The histogram object: its counters in one flat array, counting by value or
    by bucket, copying, and the nested traversal that dumps it. */
module Histogram {
  import opened Wrappers
  import opened HistogramIndex
  import opened HistogramAxis

  type int32 = x: int | -0x8000_0000 <= x < 0x8000_0000

  /** What a traversal reports, in order. */
  datatype Visit = Enter(level: nat) | Value(value: nat) | Leave(level: nat)

  /** The histogram as nested rows. */
  datatype Table = Cell(value: nat) | Row(cells: seq<Table>)

  // ---------- the table that a traversal spells out ----------

  ghost predicate Fits(axes: seq<nat>, data: seq<nat>, start: nat) {
    (start + 1) * Size(axes) <= |data|
  }

  lemma SubBlockFits(axes: seq<nat>, data: seq<nat>, start: nat, i: nat)
    requires axes != [] && Fits(axes, data, start) && i < axes[0]
    ensures Fits(axes[1..], data, start * axes[0] + i)
  {
    var rest := Size(axes[1..]);
    MulMonotone(start * axes[0] + i + 1, (start + 1) * axes[0], rest);
    assert (start + 1) * axes[0] == start * axes[0] + axes[0];
    assert (start + 1) * axes[0] * rest == (start + 1) * (axes[0] * rest);
  }

  /** Block number `start` of the size that `axes` spans, as nested rows. */
  ghost function Block(axes: seq<nat>, data: seq<nat>, start: nat): Table
    requires Fits(axes, data, start)
    decreases |axes|
  {
    if axes == [] then Cell(data[start])
    else Row(seq(axes[0], i requires 0 <= i < axes[0] =>
                            SubBlockFits(axes, data, start, i);
                            Block(axes[1..], data, start * axes[0] + i)))
  }

  ghost function At(t: Table, path: seq<nat>): Option<nat>
    decreases |path|
  {
    match t
    case Cell(v) => if path == [] then Some(v) else None
    case Row(cells) => if path != [] && path[0] < |cells| then At(cells[path[0]], path[1..]) else None
  }

  ghost function Spell(t: Table, level: nat): seq<Visit> {
    match t
    case Cell(v) => [Value(v)]
    case Row(cells) => [Enter(level)] + SpellAll(cells, level + 1) + [Leave(level)]
  }

  ghost function SpellAll(ts: seq<Table>, level: nat): seq<Visit> {
    if ts == [] then [] else Spell(ts[0], level) + SpellAll(ts[1..], level)
  }

  ghost function Values(trace: seq<Visit>): seq<nat> {
    if trace == [] then []
    else Reported(trace[0]) + Values(trace[1..])
  }

  ghost function Reported(v: Visit): seq<nat> {
    if v.Value? then [v.value] else []
  }

  lemma {:induction false} SpellAllAppend(ts: seq<Table>, t: Table, level: nat)
    ensures SpellAll(ts + [t], level) == SpellAll(ts, level) + Spell(t, level)
  {
    if ts == [] {
      assert [] + [t] == [t] && [t][1..] == [];
    } else {
      SpellAllAppend(ts[1..], t, level);
      assert (ts + [t])[0] == ts[0] && (ts + [t])[1..] == ts[1..] + [t];
      Associative(Spell(ts[0], level), SpellAll(ts[1..], level), Spell(t, level));
    }
  }

  lemma {:induction false} ValuesAppend(a: seq<Visit>, b: seq<Visit>)
    ensures Values(a + b) == Values(a) + Values(b)
  {
    if a == [] {
      assert a + b == b;
    } else {
      ValuesAppend(a[1..], b);
      assert (a + b)[0] == a[0] && (a + b)[1..] == a[1..] + b;
      Associative(Reported(a[0]), Values(a[1..]), Values(b));
    }
  }

  lemma ValuesBetween(level: nat, body: seq<Visit>)
    ensures Values([Enter(level)] + body + [Leave(level)]) == Values(body)
  {
    ValuesAppend([Enter(level)] + body, [Leave(level)]);
    ValuesAppend([Enter(level)], body);
    assert [Enter(level)][1..] == [] && [Leave(level)][1..] == [];
    assert Values([Enter(level)]) == [] && Values([Leave(level)]) == [];
  }

  /** The leaf at a path of buckets is the cell that the path indexes. */
  lemma {:induction false} LeafIsCell(axes: seq<nat>, data: seq<nat>, start: nat, b: seq<nat>)
    requires Fits(axes, data, start) && InShape(axes, b)
    ensures Index(axes, start, b) < |data|
    ensures At(Block(axes, data, start), b) == Some(data[Index(axes, start, b)])
    decreases |axes|
  {
    if axes != [] {
      SubBlockFits(axes, data, start, b[0]);
      assert InShape(axes[1..], b[1..]);
      assert axes[0] * start == start * axes[0];
      LeafIsCell(axes[1..], data, start * axes[0] + b[0], b[1..]);
    }
  }

  /** Where the first `n` rows of a block end. */
  lemma RowBounds(axes: seq<nat>, start: nat, n: nat, limit: nat)
    requires axes != [] && n <= axes[0] && (start + 1) * Size(axes) <= limit
    ensures (start * axes[0] + n) * Size(axes[1..]) == start * Size(axes) + n * Size(axes[1..])
    ensures start * Size(axes) + n * Size(axes[1..]) <= start * Size(axes) + Size(axes) <= limit
  {
    Regroup(axes[0], start, n, Size(axes[1..]));
    assert axes[0] * start == start * axes[0];
    MulMonotone(n, axes[0], Size(axes[1..]));
    assert (start + 1) * Size(axes) == start * Size(axes) + Size(axes);
  }

  /** A trace reports `len` cells from cell `from` on, each once, in order. */
  ghost predicate Reports(trace: seq<Visit>, data: seq<nat>, from: int, len: int) {
    0 <= from && 0 <= len && from + len <= |data| && Values(trace) == data[from..from + len]
  }

  /** A traversal reports every cell of its block once, in order. */
  lemma {:induction false} TraversalInOrder(axes: seq<nat>, data: seq<nat>, start: nat, level: nat)
    requires Fits(axes, data, start)
    ensures Reports(Spell(Block(axes, data, start), level), data, start * Size(axes), Size(axes))
    decreases |axes|, 2
  {
    if axes == [] {
      assert [Value(data[start])][1..] == [];
      assert data[start..start + 1] == [data[start]];
    } else {
      var row := Block(axes, data, start).cells;
      RowsInOrder(axes, data, start, level + 1, axes[0]);
      assert row[..axes[0]] == row;
      ValuesBetween(level, SpellAll(row, level + 1));
    }
  }

  lemma {:induction false} RowsInOrder(axes: seq<nat>, data: seq<nat>, start: nat, level: nat, n: nat)
    requires axes != [] && Fits(axes, data, start) && n <= axes[0]
    ensures Reports(SpellAll(Block(axes, data, start).cells[..n], level), data, start * Size(axes), n * Size(axes[1..]))
    decreases |axes|, 1, n
  {
    var row, low, more := Block(axes, data, start).cells, start * Size(axes), Size(axes[1..]);
    if n == 0 {
      RowBounds(axes, start, 0, |data|);
      NoRows(row, level, data, low);
    } else {
      RowsInOrder(axes, data, start, level, n - 1);
      LastRow(axes, data, start, level, n);
      AppendRow(row, level, n, data, low, (n - 1) * more, more);
      OneMore(n, more);
    }
  }

  lemma NoRows(row: seq<Table>, level: nat, data: seq<nat>, low: int)
    requires 0 <= low <= |data|
    ensures Reports(SpellAll(row[..0], level), data, low, 0)
  {
  }

  lemma {:induction false} LastRow(axes: seq<nat>, data: seq<nat>, start: nat, level: nat, n: nat)
    requires axes != [] && Fits(axes, data, start) && 0 < n <= axes[0]
    ensures Reports(Spell(Block(axes, data, start).cells[n - 1], level), data,
                    start * Size(axes) + (n - 1) * Size(axes[1..]), Size(axes[1..]))
    decreases |axes|, 0
  {
    RowBounds(axes, start, n - 1, |data|);
    SubBlockFits(axes, data, start, n - 1);
    TraversalInOrder(axes[1..], data, start * axes[0] + (n - 1), level);
  }

  lemma AppendRow(row: seq<Table>, level: nat, n: nat, data: seq<nat>, low: int, done: int, more: int)
    requires 0 < n <= |row| && Reports(SpellAll(row[..n - 1], level), data, low, done)
    requires Reports(Spell(row[n - 1], level), data, low + done, more)
    ensures Reports(SpellAll(row[..n], level), data, low, done + more)
  {
    assert row[..n] == row[..n - 1] + [row[n - 1]];
    SpellAllAppend(row[..n - 1], row[n - 1], level);
    ValuesAppend(SpellAll(row[..n - 1], level), Spell(row[n - 1], level));
    assert data[low..low + done] + data[low + done..low + done + more] == data[low..low + done + more];
  }

  lemma OneMore(n: int, d: int)
    ensures (n - 1) * d + d == n * d
  {
  }

  // ---------- brackets ----------

  /** Reads a trace at nesting level `at`: a level is entered from just outside it
      and left from just inside it, and values come at level `leaf` only. The
      level at the end, if the trace obeys. */
  ghost function Level(trace: seq<Visit>, at: nat, leaf: nat): Option<nat> {
    if trace == [] then Some(at)
    else match trace[0]
      case Enter(l) => if l == at then Level(trace[1..], at + 1, leaf) else None
      case Leave(l) => if at > 0 && l == at - 1 then Level(trace[1..], at - 1, leaf) else None
      case Value(_) => if at == leaf then Level(trace[1..], at, leaf) else None
  }

  lemma {:induction false} LevelAppend(a: seq<Visit>, b: seq<Visit>, at: nat, mid: nat, leaf: nat)
    requires Level(a, at, leaf) == Some(mid)
    ensures Level(a + b, at, leaf) == Level(b, mid, leaf)
  {
    if a == [] {
      assert a + b == b;
    } else {
      assert (a + b)[0] == a[0] && (a + b)[1..] == a[1..] + b;
      match a[0]
      case Enter(_) => LevelAppend(a[1..], b, at + 1, mid, leaf);
      case Leave(_) => LevelAppend(a[1..], b, at - 1, mid, leaf);
      case Value(_) => LevelAppend(a[1..], b, at, mid, leaf);
    }
  }

  lemma LevelOne(v: Visit, at: nat, leaf: nat)
    ensures v == Enter(at) ==> Level([v], at, leaf) == Some(at + 1)
    ensures at > 0 && v == Leave(at - 1) ==> Level([v], at, leaf) == Some(at - 1)
    ensures v.Value? && at == leaf ==> Level([v], at, leaf) == Some(at)
  {
    assert [v][1..] == [];
  }

  /** The brackets of a traversal match, each axis at its own level, and every
      value is inside one bracket of every axis. */
  lemma {:induction false} TraversalNests(axes: seq<nat>, data: seq<nat>, start: nat, level: nat)
    requires Fits(axes, data, start)
    ensures Level(Spell(Block(axes, data, start), level), level, level + |axes|) == Some(level)
    decreases |axes|, 1
  {
    if axes == [] {
      LevelOne(Value(data[start]), level, level);
    } else {
      var row, leaf := Block(axes, data, start).cells, level + |axes|;
      var body := SpellAll(row, level + 1);
      RowsNest(axes, data, start, level + 1, axes[0]);
      assert row[..axes[0]] == row;
      LevelOne(Enter(level), level, leaf);
      LevelOne(Leave(level), level + 1, leaf);
      LevelAppend([Enter(level)], body, level, level + 1, leaf);
      LevelAppend([Enter(level)] + body, [Leave(level)], level, level + 1, leaf);
    }
  }

  lemma {:induction false} RowsNest(axes: seq<nat>, data: seq<nat>, start: nat, level: nat, n: nat)
    requires axes != [] && Fits(axes, data, start) && n <= axes[0]
    ensures Level(SpellAll(Block(axes, data, start).cells[..n], level), level, level + |axes| - 1) == Some(level)
    decreases |axes|, 0, n
  {
    if n > 0 {
      var row, leaf := Block(axes, data, start).cells, level + |axes| - 1;
      RowsNest(axes, data, start, level, n - 1);
      SubBlockFits(axes, data, start, n - 1);
      TraversalNests(axes[1..], data, start * axes[0] + (n - 1), level);
      assert row[..n] == row[..n - 1] + [row[n - 1]];
      SpellAllAppend(row[..n - 1], row[n - 1], level);
      LevelAppend(SpellAll(row[..n - 1], level), Spell(row[n - 1], level), level, level, leaf);
    }
  }

  // ---------- the object ----------

  function Buckets(axes: seq<Axis>): seq<nat> {
    seq(|axes|, i requires 0 <= i < |axes| => axes[i].buckets)
  }

  ghost predicate Quantizes(axes: seq<Axis>, values: seq<int>, b: seq<nat>) {
    |b| == |values| == |axes| && forall i | 0 <= i < |b| :: InBucket(axes[i], values[i], b[i])
  }

  class PerfHistogram {
    const axes: seq<Axis>
    var raw: array<nat>
    /** The bucket tuples counted since the counters were set to zero. */
    ghost var events: seq<seq<nat>>

    ghost predicate Shaped()
      reads this
    {
      && (forall i | 0 <= i < |axes| :: axes[i].Ok())
      && raw.Length == Size(Buckets(axes))
    }

    /** Every 64-bit counter holds the number of events in its bucket tuple. */
    ghost predicate Counted()
      reads this, raw
    {
      && Shaped()
      && (forall e | e in events :: InShape(Buckets(axes), e))
      && (forall k | 0 <= k < raw.Length :: raw[k] == Count(events, Digits(Buckets(axes), k)) % TWO_64)
    }

    /** Allocates the counters but does not set them. */
    constructor (configuration: seq<Axis>)
      requires forall i | 0 <= i < |configuration| :: configuration[i].Ok()
      ensures Shaped() && axes == configuration && fresh(raw)
    {
      axes := configuration;
      new;
      var size := GetRawSize(Buckets(axes));
      raw := new nat[size];
    }

    constructor Copy(other: PerfHistogram)
      requires other.Shaped()
      ensures Shaped() && axes == other.axes && fresh(raw)
      ensures raw[..] == other.raw[..] && events == other.events
      ensures other.Counted() ==> Counted()
    {
      axes, events := other.axes, other.events;
      new;
      var size := GetRawSize(Buckets(axes));
      raw := new nat[size];
      var i := 0;
      while i < size
        invariant 0 <= i <= size == raw.Length == other.raw.Length
        invariant fresh(raw) && raw[..i] == other.raw[..i]
        invariant events == other.events && other.raw[..] == old(other.raw[..])
      {
        raw[i] := other.raw[i];
        i := i + 1;
      }
      assert raw[..] == raw[..size] && other.raw[..] == other.raw[..size];
      assert forall k | 0 <= k < size :: raw[k] == raw[..][k] == other.raw[k];
    }

    static method GetRawSize(shape: seq<nat>) returns (size: nat)
      ensures size == Size(shape)
    {
      size := 1;
      for i := 0 to |shape|
        invariant size * Size(shape[i..]) == Size(shape)
      {
        assert shape[i..][1..] == shape[i + 1..];
        assert size * (shape[i] * Size(shape[i + 1..])) == size * shape[i] * Size(shape[i + 1..]);
        size := size * shape[i];
      }
    }

    method Reset()
      requires Shaped()
      modifies this, raw
      ensures Counted() && events == [] && raw == old(raw)
    {
      events := [];
      var i := raw.Length - 1;
      while i >= 0
        invariant -1 <= i < raw.Length && raw == old(raw) && events == []
        invariant forall k | i < k < raw.Length :: raw[k] == 0
        decreases i
      {
        raw[i] := 0;
        i := i - 1;
      }
    }

    /** Count one event in cell Index(b). */
    method Bump(b: seq<nat>)
      requires Counted() && InShape(Buckets(axes), b)
      modifies this`events, raw
      ensures Counted() && events == old(events) + [b]
    {
      var shape := Buckets(axes);
      IndexInRange(shape, b);
      var index := Index(shape, 0, b);
      raw[index] := (raw[index] + 1) % TWO_64;
      events := events + [b];
      forall k | 0 <= k < raw.Length
        ensures raw[k] == Count(events, Digits(shape, k)) % TWO_64
      {
        CountAppendAt(shape, old(events), b, k);
        WrapStep(Count(old(events), Digits(shape, k)));
      }
    }

    /** The assertions on each bucket, axis by axis. */
    method CheckBuckets(b: seq<int>) returns (ok: bool)
      requires |b| == |axes|
      ensures ok <==> forall i | 0 <= i < |b| :: 0 <= b[i] < axes[i].buckets
    {
      for i := 0 to |b|
        invariant forall k | 0 <= k < i :: 0 <= b[k] < axes[k].buckets
      {
        if b[i] < 0 || b[i] >= axes[i].buckets {
          return false;
        }
      }
      return true;
    }

    /** A bucket outside its axis stops the program before anything is counted. */
    method IncBucket(b: seq<int>) returns (ok: bool)
      requires Counted() && |b| == |axes|
      modifies this`events, raw
      ensures Counted()
      ensures ok <==> forall i | 0 <= i < |b| :: 0 <= b[i] < axes[i].buckets
      ensures events == if ok then old(events) + [b] else old(events)
    {
      ok := CheckBuckets(b);
      if ok {
        Bump(b);
      }
    }

    method Quantize(values: seq<int>) returns (b: Option<seq<nat>>)
      requires Shaped() && |values| == |axes|
      ensures b.Some? <==> forall i | 0 <= i < |axes| :: Quantizable(axes[i], values[i])
      ensures b.Some? ==> Quantizes(axes, values, b.value) && InShape(Buckets(axes), b.value)
    {
      var tuple := [];
      for i := 0 to |axes|
        invariant |tuple| == i
        invariant forall k | 0 <= k < i :: Quantizable(axes[k], values[k]) && InBucket(axes[k], values[k], tuple[k])
      {
        var bucket := GetBucketForAxis(values[i], axes[i]);
        if bucket.None? {
          return None;
        }
        tuple := tuple + [bucket.value];
      }
      return Some(tuple);
    }

    /** Quantize a value on each axis and count the tuple of buckets; nothing is
        counted when quantizing leaves 64 bits. */
    method Inc(values: seq<int>) returns (ok: bool, ghost b: seq<nat>)
      requires Counted() && |values| == |axes|
      modifies this`events, raw
      ensures ok <==> forall i | 0 <= i < |axes| :: Quantizable(axes[i], values[i])
      ensures Counted() && events == if ok then old(events) + [b] else old(events)
      ensures ok ==> Quantizes(axes, values, b)
      ensures ok ==> |b| == |axes| && forall i | 0 <= i < |axes| :: InBucket(axes[i], values[i], b[i])
      ensures !ok ==> raw[..] == old(raw[..])
    {
      var tuple := Quantize(values);
      ok, b := tuple.Some?, [];
      if ok {
        Bump(tuple.value);
        b := tuple.value;
      }
    }

    method ReadBucket(b: seq<int>) returns (r: Option<nat>)
      requires Counted() && |b| == |axes|
      ensures r.Some? <==> forall i | 0 <= i < |b| :: 0 <= b[i] < axes[i].buckets
      ensures r.Some? ==> r.value == Count(events, b) % TWO_64
    {
      var ok := CheckBuckets(b);
      if ok {
        var tuple: seq<nat> := b;
        var shape := Buckets(axes);
        IndexInRange(shape, tuple);
        DigitsOfIndex(shape, tuple);
        r := Some(raw[Index(shape, 0, tuple)]);
      } else {
        r := None;
      }
    }

    ghost function CellAt(b: seq<nat>): nat
      reads this, raw
      requires Counted() && InShape(Buckets(axes), b)
    {
      IndexInRange(Buckets(axes), b);
      raw[Index(Buckets(axes), 0, b)]
    }

    lemma CellIsCount(b: seq<nat>)
      requires Counted() && |events| < TWO_64 && InShape(Buckets(axes), b)
      ensures CellAt(b) == Count(events, b)
    {
      IndexInRange(Buckets(axes), b);
      DigitsOfIndex(Buckets(axes), b);
      CountAtMost(events, b);
    }

    /** While fewer than 2^64 events were counted, a cell is the exact number of
        its events, and summing the cells along axis `d` gives the number of
        events whose other buckets are `b`. */
    lemma SumAlongAxis(d: nat, b: seq<nat>, cells: nat -> int)
      requires Counted() && |events| < TWO_64
      requires d < |axes| && InShape(Without(Buckets(axes), d), b)
      requires forall j: nat | j < axes[d].buckets ::
                 InShape(Buckets(axes), With(b, d, j)) && cells(j) == CellAt(With(b, d, j))
      ensures forall e | e in events :: d < |e|
      ensures Sum(axes[d].buckets, cells) == Count(Project(events, d), b)
    {
      var shape := Buckets(axes);
      forall j: nat | j < axes[d].buckets
        ensures SlotCount(events, b, d)(j) == cells(j)
      {
        CellIsCount(With(b, d, j));
      }
      SumEqual(axes[d].buckets, cells, SlotCount(events, b, d));
      SumOutAxis(shape, events, d, b);
    }

    /** All cells together give the number of events. */
    lemma CellsTotal(cells: nat -> int)
      requires Counted() && |events| < TWO_64
      requires forall k: nat | k < raw.Length :: cells(k) == raw[k]
      ensures Sum(raw.Length, cells) == |events|
    {
      var shape := Buckets(axes);
      forall k: nat | k < raw.Length
        ensures CellCount(shape, events)(k) == cells(k)
      {
        CountAtMost(events, Digits(shape, k));
      }
      SumEqual(raw.Length, cells, CellCount(shape, events));
      CellsSumToEvents(shape, events);
    }

    /** Report block `startIndex` of the axes from `level` on. The 32-bit block
        number never overflows while there are fewer than 2^31 counters. */
    method VisitValues(level: nat, startIndex: int32) returns (trace: seq<Visit>)
      requires Shaped() && raw.Length < 0x8000_0000 && level <= |axes|
      requires 0 <= startIndex && Fits(Buckets(axes)[level..], raw[..], startIndex)
      ensures trace == Spell(Block(Buckets(axes)[level..], raw[..], startIndex), level)
      decreases |axes| - level
    {
      ghost var rest := Buckets(axes)[level..];
      if level == |axes| {
        return [Value(raw[startIndex])];
      }
      ghost var row := Block(rest, raw[..], startIndex).cells;
      assert rest[1..] == Buckets(axes)[level + 1..];
      trace := [Enter(level)];
      var buckets := axes[level].buckets;
      BlockNumberFits(rest, raw[..], startIndex, 0);
      var block: int32 := startIndex * buckets;
      var i := 0;
      while i < buckets
        invariant 0 <= i <= buckets && block == startIndex * buckets + i
        invariant trace == [Enter(level)] + SpellAll(row[..i], level + 1)
      {
        SubBlockFits(rest, raw[..], startIndex, i);
        var sub := VisitValues(level + 1, block);
        assert row[..i + 1] == row[..i] + [row[i]];
        SpellAllAppend(row[..i], row[i], level + 1);
        trace := trace + sub;
        BlockNumberFits(rest, raw[..], startIndex, i + 1);
        i, block := i + 1, block + 1;
      }
      assert row[..buckets] == row;
      trace := trace + [Leave(level)];
    }

    /** The whole dump: the nested rows of all counters. */
    method DumpValues() returns (trace: seq<Visit>)
      requires Shaped() && raw.Length < 0x8000_0000
      ensures Fits(Buckets(axes), raw[..], 0)
      ensures trace == Spell(Block(Buckets(axes), raw[..], 0), 0)
      ensures Values(trace) == raw[..] && Level(trace, 0, |axes|) == Some(0)
    {
      assert Buckets(axes)[0..] == Buckets(axes);
      trace := VisitValues(0, 0);
      TraversalInOrder(Buckets(axes), raw[..], 0, 0);
      TraversalNests(Buckets(axes), raw[..], 0, 0);
      assert raw[..][0..raw.Length] == raw[..];
    }
  }

  lemma WrapStep(c: nat)
    ensures (c % TWO_64 + 1) % TWO_64 == (c + 1) % TWO_64
  {
  }

  lemma CountAppendAt(shape: seq<nat>, events: seq<seq<nat>>, b: seq<nat>, k: nat)
    requires Shape(shape) && InShape(shape, b) && k < Size(shape)
    ensures Count(events + [b], Digits(shape, k))
            == Count(events, Digits(shape, k)) + if k == Index(shape, 0, b) then 1 else 0
  {
    CountAppend(events, b, Digits(shape, k));
    DigitsOfIndex(shape, b);
    IndexOfDigits(shape, k);
  }

  /** Block numbers along a row stay within the number of counters. */
  lemma BlockNumberFits(axes: seq<nat>, data: seq<nat>, start: nat, i: nat)
    requires axes != [] && Shape(axes) && Fits(axes, data, start) && i <= axes[0]
    ensures 0 <= start * axes[0] + i <= |data|
  {
    RowBounds(axes, start, i, |data|);
    SizePositive(axes[1..]);
    AtMostProduct(start, axes[0], i, Size(axes[1..]));
  }

  lemma AtMostProduct(m: nat, n: nat, i: nat, d: nat)
    requires d > 0
    ensures 0 <= m * n + i <= (m * n + i) * d
  {
    var x := m * n + i;
    assert x * d == x + x * (d - 1);
  }
}
