/** Threads that increment the histogram's atomic counters while another
    thread copies them cell by cell. */
module HistogramThreads {
  import opened HistogramAxis

  type word = x: nat | x < TWO_64

  /** One atomic access: add one to a cell, or copy the next cell. */
  datatype Access = Bump(cell: nat) | CopyNext

  datatype Memory = Memory(cells: seq<word>, copy: seq<word>)

  ghost predicate Possible(size: nat, a: Access) {
    a.Bump? ==> a.cell < size
  }

  function Plus(x: nat, n: nat): word {
    (x + n) % TWO_64
  }

  lemma PlusPlus(x: nat, m: nat, n: nat)
    ensures Plus(Plus(x, m), n) == Plus(x, m + n)
  {
    assert x + m == TWO_64 * ((x + m) / TWO_64) + (x + m) % TWO_64;
  }

  function Perform(m: Memory, a: Access): (n: Memory)
    requires Possible(|m.cells|, a)
    ensures |n.cells| == |m.cells|
  {
    match a
    case Bump(k) => m.(cells := m.cells[k := Plus(m.cells[k], 1)])
    case CopyNext => if |m.copy| < |m.cells| then m.(copy := m.copy + [m.cells[|m.copy|]]) else m
  }

  function Execute(m: Memory, schedule: seq<Access>): (n: Memory)
    requires forall a | a in schedule :: Possible(|m.cells|, a)
    ensures |n.cells| == |m.cells|
    decreases |schedule|
  {
    if schedule == [] then m
    else
      assert schedule[0] in schedule;
      Execute(Perform(m, schedule[0]), schedule[1..])
  }

  function Times(schedule: seq<Access>, a: Access): nat {
    if schedule == [] then 0 else (if schedule[0] == a then 1 else 0) + Times(schedule[1..], a)
  }

  /** Counters depend only on how often each was bumped, not on the order, also
      when they wrap around. */
  lemma {:induction false} ExecuteCounts(m: Memory, schedule: seq<Access>, k: nat)
    requires forall a | a in schedule :: Possible(|m.cells|, a)
    requires k < |m.cells|
    ensures Execute(m, schedule).cells[k] == Plus(m.cells[k], Times(schedule, Bump(k)))
    decreases |schedule|
  {
    if schedule != [] {
      assert schedule[0] in schedule;
      ExecuteCounts(Perform(m, schedule[0]), schedule[1..], k);
      PlusPlus(m.cells[k], 1, Times(schedule[1..], Bump(k)));
    }
  }

  // ---------- interleavings ----------

  /** `merged` runs every thread's program in that thread's order. */
  ghost predicate Interleaves(threads: seq<seq<Access>>, merged: seq<Access>)
    decreases |merged|
  {
    if merged == [] then forall i | 0 <= i < |threads| :: threads[i] == []
    else exists i | 0 <= i < |threads| ::
        threads[i] != [] && threads[i][0] == merged[0]
        && Interleaves(threads[i := threads[i][1..]], merged[1..])
  }

  /** The threads one after the other. */
  function Sequential(threads: seq<seq<Access>>): seq<Access> {
    if threads == [] then [] else threads[0] + Sequential(threads[1..])
  }

  lemma {:induction false} TimesAppend(a: seq<Access>, b: seq<Access>, x: Access)
    ensures Times(a + b, x) == Times(a, x) + Times(b, x)
  {
    if a == [] {
      assert a + b == b;
    } else {
      TimesAppend(a[1..], b, x);
      assert (a + b)[1..] == a[1..] + b;
    }
  }

  lemma {:induction false} SequentialOfEmpty(threads: seq<seq<Access>>)
    requires forall i | 0 <= i < |threads| :: threads[i] == []
    ensures Sequential(threads) == []
  {
    if threads != [] {
      SequentialOfEmpty(threads[1..]);
    }
  }

  lemma {:induction false} AdvanceThread(threads: seq<seq<Access>>, i: nat, x: Access)
    requires i < |threads| && threads[i] != []
    ensures Times(Sequential(threads), x)
            == Times([threads[i][0]], x) + Times(Sequential(threads[i := threads[i][1..]]), x)
    decreases |threads|
  {
    var next := threads[i := threads[i][1..]];
    TimesAppend(threads[0], Sequential(threads[1..]), x);
    TimesAppend(next[0], Sequential(next[1..]), x);
    if i == 0 {
      assert next[1..] == threads[1..];
      assert threads[0] == [threads[0][0]] + threads[0][1..];
      TimesAppend([threads[0][0]], threads[0][1..], x);
    } else {
      assert next[1..] == threads[1..][i - 1 := threads[i][1..]] && next[0] == threads[0];
      AdvanceThread(threads[1..], i - 1, x);
    }
  }

  lemma {:induction false} InterleavingCounts(threads: seq<seq<Access>>, merged: seq<Access>, x: Access)
    requires Interleaves(threads, merged)
    ensures Times(merged, x) == Times(Sequential(threads), x)
    decreases |merged|
  {
    if merged == [] {
      SequentialOfEmpty(threads);
    } else {
      var i :| 0 <= i < |threads| && threads[i] != [] && threads[i][0] == merged[0]
               && Interleaves(threads[i := threads[i][1..]], merged[1..]);
      InterleavingCounts(threads[i := threads[i][1..]], merged[1..], x);
      AdvanceThread(threads, i, x);
      assert [merged[0]][1..] == [];
    }
  }

  lemma {:induction false} TimesPositive(schedule: seq<Access>, x: Access)
    ensures x in schedule <==> Times(schedule, x) > 0
  {
    if schedule != [] {
      TimesPositive(schedule[1..], x);
    }
  }

  lemma SequentialPossible(size: nat, threads: seq<seq<Access>>, merged: seq<Access>)
    requires Interleaves(threads, merged)
    requires forall a | a in merged :: Possible(size, a)
    ensures forall a | a in Sequential(threads) :: Possible(size, a)
  {
    forall a | a in Sequential(threads)
      ensures Possible(size, a)
    {
      InterleavingCounts(threads, merged, a);
      TimesPositive(merged, a);
      TimesPositive(Sequential(threads), a);
    }
  }

  /** Every interleaving of the threads leaves the counters that running them
      one after the other leaves. */
  lemma InterleavingIsSequential(m: Memory, threads: seq<seq<Access>>, merged: seq<Access>)
    requires Interleaves(threads, merged)
    requires forall a | a in merged :: Possible(|m.cells|, a)
    ensures forall a | a in Sequential(threads) :: Possible(|m.cells|, a)
    ensures Execute(m, merged).cells == Execute(m, Sequential(threads)).cells
  {
    SequentialPossible(|m.cells|, threads, merged);
    forall k: nat | k < |m.cells|
      ensures Execute(m, merged).cells[k] == Execute(m, Sequential(threads)).cells[k]
    {
      ExecuteCounts(m, merged, k);
      ExecuteCounts(m, Sequential(threads), k);
      InterleavingCounts(threads, merged, Bump(k));
    }
  }

  // ---------- copying meanwhile ----------

  /** The bumps of cell `k` before the access that copies it, when `copied`
      cells have been copied already. */
  function BumpsBeforeCopy(schedule: seq<Access>, copied: nat, k: nat): nat
    requires copied <= k
    decreases |schedule|
  {
    if schedule == [] then 0
    else match schedule[0]
      case Bump(j) => (if j == k then 1 else 0) + BumpsBeforeCopy(schedule[1..], copied, k)
      case CopyNext => if copied == k then 0 else BumpsBeforeCopy(schedule[1..], copied + 1, k)
  }

  lemma {:induction false} BumpsBeforeCopyAtMost(schedule: seq<Access>, copied: nat, k: nat)
    requires copied <= k
    ensures BumpsBeforeCopy(schedule, copied, k) <= Times(schedule, Bump(k))
    decreases |schedule|
  {
    if schedule != [] {
      match schedule[0]
      case Bump(j) => BumpsBeforeCopyAtMost(schedule[1..], copied, k);
      case CopyNext => if copied != k { BumpsBeforeCopyAtMost(schedule[1..], copied + 1, k); }
    }
  }

  lemma {:induction false} CopiedCell(m: Memory, schedule: seq<Access>, k: nat)
    requires forall a | a in schedule :: Possible(|m.cells|, a)
    requires |m.copy| <= |m.cells| && k < |Execute(m, schedule).copy|
    ensures |Execute(m, schedule).copy| <= |m.cells|
    ensures Execute(m, schedule).copy[k] ==
            if k < |m.copy| then m.copy[k] else Plus(m.cells[k], BumpsBeforeCopy(schedule, |m.copy|, k))
    decreases |schedule|
  {
    if schedule != [] {
      assert schedule[0] in schedule;
      CopiedCell(Perform(m, schedule[0]), schedule[1..], k);
      if schedule[0] == Bump(k) && k >= |m.copy| {
        PlusPlus(m.cells[k], 1, BumpsBeforeCopy(schedule[1..], |m.copy|, k));
      }
    }
  }

  /** A copy taken while other threads count has in every cell a value that the
      cell took between the beginning and the end. If the cell does not wrap
      around meanwhile, that is a number between its first and its last value. */
  lemma CopyIsBetween(cells: seq<word>, schedule: seq<Access>, k: nat) returns (n: nat)
    requires forall a | a in schedule :: Possible(|cells|, a)
    requires k < |Execute(Memory(cells, []), schedule).copy|
    ensures k < |cells| && n <= Times(schedule, Bump(k))
    ensures Execute(Memory(cells, []), schedule).copy[k] == Plus(cells[k], n)
    ensures Execute(Memory(cells, []), schedule).cells[k] == Plus(cells[k], Times(schedule, Bump(k)))
    ensures cells[k] + Times(schedule, Bump(k)) < TWO_64 ==>
              cells[k] <= Execute(Memory(cells, []), schedule).copy[k] <= Execute(Memory(cells, []), schedule).cells[k]
  {
    n := BumpsBeforeCopy(schedule, 0, k);
    CopiedCell(Memory(cells, []), schedule, k);
    ExecuteCounts(Memory(cells, []), schedule, k);
    BumpsBeforeCopyAtMost(schedule, 0, k);
  }
}
