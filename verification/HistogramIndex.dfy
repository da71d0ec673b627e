/** The arithmetic of the multi-dimensional histogram: the mixed-radix index
    of a tuple of buckets, its inverse, and what counting events in tuples
    means under projection. */
module HistogramIndex {

  /** The number of buckets on each axis, all positive. */
  ghost predicate Shape(axes: seq<nat>) {
    forall i | 0 <= i < |axes| :: axes[i] > 0
  }

  ghost predicate InShape(axes: seq<nat>, b: seq<nat>) {
    |b| == |axes| && forall i | 0 <= i < |b| :: b[i] < axes[i]
  }

  function Size(axes: seq<nat>): nat {
    if axes == [] then 1 else axes[0] * Size(axes[1..])
  }

  /** The cell of a tuple of buckets, accumulated from `start` axis by axis. */
  function Index(axes: seq<nat>, start: nat, b: seq<nat>): nat
    requires |axes| == |b|
    decreases |axes|
  {
    if axes == [] then start else Index(axes[1..], axes[0] * start + b[0], b[1..])
  }

  /** The tuple of buckets that belongs to a cell. */
  function Digits(axes: seq<nat>, k: nat): seq<nat>
    requires Shape(axes)
    decreases |axes|
  {
    if axes == [] then []
    else
      SizePositive(axes[1..]);
      [k / Size(axes[1..])] + Digits(axes[1..], k % Size(axes[1..]))
  }

  lemma {:induction false} SizePositive(axes: seq<nat>)
    requires Shape(axes)
    ensures Size(axes) > 0
    decreases |axes|
  {
    if axes != [] {
      SizePositive(axes[1..]);
      MulPositive(axes[0], Size(axes[1..]));
    }
  }

  lemma MulPositive(x: nat, y: nat)
    requires x > 0 && y > 0
    ensures x * y > 0
  {
  }

  lemma MulMonotone(x: int, y: int, d: nat)
    requires x <= y
    ensures x * d <= y * d
  {
  }

  lemma Regroup(a: int, s: int, b: int, r: int)
    ensures (a * s + b) * r == s * (a * r) + b * r
  {
    assert (a * s + b) * r == (a * s) * r + b * r;
    assert (a * s) * r == (s * a) * r == s * (a * r);
  }

  lemma {:induction false} IndexFrom(axes: seq<nat>, start: nat, b: seq<nat>)
    requires |axes| == |b|
    ensures Index(axes, start, b) == start * Size(axes) + Index(axes, 0, b)
    decreases |axes|
  {
    if axes != [] {
      IndexFrom(axes[1..], axes[0] * start + b[0], b[1..]);
      IndexFrom(axes[1..], axes[0] * 0 + b[0], b[1..]);
      Regroup(axes[0], start, b[0], Size(axes[1..]));
      Regroup(axes[0], 0, b[0], Size(axes[1..]));
    }
  }

  lemma {:induction false} IndexInRange(axes: seq<nat>, b: seq<nat>)
    requires InShape(axes, b)
    ensures Index(axes, 0, b) < Size(axes)
    decreases |axes|
  {
    if axes != [] {
      var rest := Size(axes[1..]);
      assert InShape(axes[1..], b[1..]);
      IndexInRange(axes[1..], b[1..]);
      IndexFrom(axes[1..], axes[0] * 0 + b[0], b[1..]);
      Regroup(axes[0], 0, b[0], rest);
      MulMonotone(b[0] + 1, axes[0], rest);
      Regroup(1, b[0], 1, rest);
    }
  }

  lemma NoSmallMultiple(x: int, d: int)
    requires -d < x * d < d
    ensures x == 0
  {
    if x >= 1 {
      MulMonotone(1, x, d);
    } else if x <= -1 {
      MulMonotone(x, -1, d);
    }
  }

  /** Quotient and remainder are determined by the sum they make. */
  lemma DivModUnique(n: nat, q: nat, r: nat, d: nat)
    requires r < d && n == q * d + r
    ensures n / d == q && n % d == r
  {
    assert n == n / d * d + n % d;
    assert (n / d - q) * d == n / d * d - q * d;
    NoSmallMultiple(n / d - q, d);
  }

  /** Distinct tuples have distinct cells: the tuple can be read back. */
  lemma {:induction false} DigitsOfIndex(axes: seq<nat>, b: seq<nat>)
    requires Shape(axes) && InShape(axes, b)
    ensures Digits(axes, Index(axes, 0, b)) == b
    decreases |axes|
  {
    if axes != [] {
      assert InShape(axes[1..], b[1..]);
      DigitsOfIndex(axes[1..], b[1..]);
      IndexInRange(axes[1..], b[1..]);
      IndexFrom(axes[1..], axes[0] * 0 + b[0], b[1..]);
      DivModUnique(Index(axes, 0, b), b[0], Index(axes[1..], 0, b[1..]), Size(axes[1..]));
    }
  }

  /** Every cell belongs to a tuple. */
  lemma {:induction false} IndexOfDigits(axes: seq<nat>, k: nat)
    requires Shape(axes) && k < Size(axes)
    ensures InShape(axes, Digits(axes, k)) && Index(axes, 0, Digits(axes, k)) == k
    decreases |axes|
  {
    if axes != [] {
      var rest := Size(axes[1..]);
      SizePositive(axes[1..]);
      IndexOfDigits(axes[1..], k % rest);
      var b := Digits(axes, k);
      assert b[1..] == Digits(axes[1..], k % rest);
      IndexFrom(axes[1..], axes[0] * 0 + b[0], b[1..]);
      QuotientBelow(k, axes[0], rest);
    }
  }

  /** Tuples compare like numbers: by their first difference. */
  predicate Less(b: seq<nat>, c: seq<nat>)
    requires |b| == |c|
  {
    b != [] && (b[0] < c[0] || (b[0] == c[0] && Less(b[1..], c[1..])))
  }

  /** Cells are laid out in the order of their tuples, the last axis running
      fastest. */
  lemma {:induction false} IndexInOrder(axes: seq<nat>, b: seq<nat>, c: seq<nat>)
    requires InShape(axes, b) && InShape(axes, c) && Less(b, c)
    ensures Index(axes, 0, b) < Index(axes, 0, c)
    decreases |axes|
  {
    var rest := Size(axes[1..]);
    assert InShape(axes[1..], b[1..]) && InShape(axes[1..], c[1..]);
    IndexFrom(axes[1..], axes[0] * 0 + b[0], b[1..]);
    IndexFrom(axes[1..], axes[0] * 0 + c[0], c[1..]);
    if b[0] < c[0] {
      IndexInRange(axes[1..], b[1..]);
      MulMonotone(b[0] + 1, c[0], rest);
      Regroup(1, b[0], 1, rest);
    } else {
      IndexInOrder(axes[1..], b[1..], c[1..]);
    }
  }

  lemma QuotientBelow(k: nat, a: nat, d: nat)
    requires d > 0 && k < a * d
    ensures k / d < a && k == k / d * d + k % d
  {
    if k / d >= a {
      MulMonotone(a, k / d, d);
    }
  }

  // ---------- counting ----------

  function Count(events: seq<seq<nat>>, b: seq<nat>): nat {
    if events == [] then 0 else (if events[0] == b then 1 else 0) + Count(events[1..], b)
  }

  lemma {:induction false} CountAppend(events: seq<seq<nat>>, e: seq<nat>, b: seq<nat>)
    ensures Count(events + [e], b) == Count(events, b) + if e == b then 1 else 0
  {
    if events == [] {
      assert [] + [e] == [e] && [e][1..] == [];
    } else {
      CountAppend(events[1..], e, b);
      assert (events + [e])[1..] == events[1..] + [e];
    }
  }

  lemma {:induction false} CountAtMost(events: seq<seq<nat>>, b: seq<nat>)
    ensures Count(events, b) <= |events|
  {
    if events != [] {
      CountAtMost(events[1..], b);
    }
  }

  ghost function Sum(n: nat, f: nat -> int): int {
    if n == 0 then 0 else Sum(n - 1, f) + f(n - 1)
  }

  lemma {:induction false} SumZero(n: nat, f: nat -> int)
    requires forall k: nat | k < n :: f(k) == 0
    ensures Sum(n, f) == 0
  {
    if n > 0 {
      SumZero(n - 1, f);
    }
  }

  /** Raising one term by one raises the sum by one; raising none leaves it. */
  lemma {:induction false} SumBump(n: nat, f: nat -> int, g: nat -> int, j: nat)
    requires forall k: nat | k < n :: g(k) == f(k) + if k == j then 1 else 0
    ensures Sum(n, g) == Sum(n, f) + if j < n then 1 else 0
  {
    if n > 0 {
      SumBump(n - 1, f, g, j);
    }
  }

  lemma {:induction false} SumEqual(n: nat, f: nat -> int, g: nat -> int)
    requires forall k: nat | k < n :: g(k) == f(k)
    ensures Sum(n, g) == Sum(n, f)
  {
    if n > 0 {
      SumEqual(n - 1, f, g);
    }
  }

  ghost function CellCount(axes: seq<nat>, events: seq<seq<nat>>): nat -> int
    requires Shape(axes)
  {
    (k: nat) => Count(events, Digits(axes, k))
  }

  /** Summed over all cells, the counts give the number of events. */
  lemma {:induction false} CellsSumToEvents(axes: seq<nat>, events: seq<seq<nat>>)
    requires Shape(axes) && forall e | e in events :: InShape(axes, e)
    ensures Sum(Size(axes), CellCount(axes, events)) == |events|
  {
    if events == [] {
      SumZero(Size(axes), CellCount(axes, events));
    } else {
      var e := events[0];
      assert e in events;
      CellsSumToEvents(axes, events[1..]);
      IndexInRange(axes, e);
      forall k: nat | k < Size(axes)
        ensures (Digits(axes, k) == e) == (k == Index(axes, 0, e))
      {
        DigitsOfIndex(axes, e);
        IndexOfDigits(axes, k);
      }
      SumBump(Size(axes), CellCount(axes, events[1..]), CellCount(axes, events), Index(axes, 0, e));
    }
  }

  // ---------- projection ----------

  function Without<T>(s: seq<T>, d: nat): seq<T>
    requires d < |s|
  {
    s[..d] + s[d + 1..]
  }

  function With<T>(s: seq<T>, d: nat, x: T): seq<T>
    requires d <= |s|
  {
    s[..d] + [x] + s[d..]
  }

  function Project(events: seq<seq<nat>>, d: nat): seq<seq<nat>>
    requires forall e | e in events :: d < |e|
  {
    if events == [] then [] else [Without(events[0], d)] + Project(events[1..], d)
  }

  lemma WithWithout<T>(e: seq<T>, b: seq<T>, d: nat, x: T)
    requires d < |e| && |e| == |b| + 1
    ensures e == With(b, d, x) <==> e[d] == x && Without(e, d) == b
  {
    if e == With(b, d, x) {
      assert Without(e, d) == b;
    }
    if e[d] == x && Without(e, d) == b {
      assert e == With(b, d, x);
    }
  }

  ghost function SlotCount(events: seq<seq<nat>>, b: seq<nat>, d: nat): nat -> int
    requires d <= |b|
  {
    (j: nat) => Count(events, With(b, d, j))
  }

  lemma SlotCountStep(events: seq<seq<nat>>, b: seq<nat>, d: nat, j: nat)
    requires events != [] && d < |events[0]| == |b| + 1
    ensures SlotCount(events, b, d)(j) == SlotCount(events[1..], b, d)(j)
            + if events[0][d] == j && Without(events[0], d) == b then 1 else 0
  {
    WithWithout(events[0], b, d, j);
  }

  /** Summing out axis `d` gives the histogram of the events projected onto
      the other axes. */
  lemma {:induction false} SumOutAxis(axes: seq<nat>, events: seq<seq<nat>>, d: nat, b: seq<nat>)
    requires d < |axes| && |b| + 1 == |axes|
    requires forall e | e in events :: InShape(axes, e)
    ensures forall e | e in events :: d < |e|
    ensures Sum(axes[d], SlotCount(events, b, d)) == Count(Project(events, d), b)
  {
    if events == [] {
      SumZero(axes[d], SlotCount(events, b, d));
    } else {
      var e, rest := events[0], events[1..];
      assert InShape(axes, e);
      SumOutAxis(axes, rest, d, b);
      var f, g := SlotCount(rest, b, d), SlotCount(events, b, d);
      forall j: nat
        ensures g(j) == f(j) + if e[d] == j && Without(e, d) == b then 1 else 0
      {
        SlotCountStep(events, b, d, j);
      }
      if Without(e, d) == b {
        SumBump(axes[d], f, g, e[d]);
      } else {
        SumEqual(axes[d], f, g);
      }
      ProjectStep(events, d);
    }
  }

  lemma ProjectStep(events: seq<seq<nat>>, d: nat)
    requires events != [] && forall e | e in events :: d < |e|
    ensures Project(events, d)[0] == Without(events[0], d)
    ensures Project(events, d)[1..] == Project(events[1..], d)
  {
  }
}
