/** Writing an OSD's CRUSH location, a list of (type, name) pairs, into a
    caller's buffer as consecutive NUL-terminated strings. */
module CrushLocation {
  import opened Wrappers

  const ENOTCONN: int := 107
  const EINVAL: int := 22
  const ERANGE: int := 34
  const NUL: char := '\0'

  datatype Pair = Pair(kind: string, name: string)

  // ---------- the format ----------

  /** The bytes that the first `n` pairs need. */
  function Total(loc: seq<Pair>, n: nat): nat
    requires n <= |loc|
  {
    if n == 0 then 0 else Total(loc, n - 1) + |loc[n - 1].kind| + |loc[n - 1].name| + 2
  }

  function EncodePair(p: Pair): string {
    p.kind + [NUL] + p.name + [NUL]
  }

  /** The first `n` pairs as bytes. */
  function Encode(loc: seq<Pair>, n: nat): (s: string)
    requires n <= |loc|
    ensures |s| == Total(loc, n)
  {
    if n == 0 then "" else Encode(loc, n - 1) + EncodePair(loc[n - 1])
  }

  predicate NulFree(loc: seq<Pair>) {
    forall i | 0 <= i < |loc| :: NUL !in loc[i].kind && NUL !in loc[i].name
  }

  /** A C string: up to its first NUL. */
  function CString(s: string): (r: string)
    ensures |r| <= |s|
  {
    if s == "" || s[0] == NUL then "" else [s[0]] + CString(s[1..])
  }

  lemma {:induction false} CStringMeaning(s: string)
    ensures CString(s) <= s && NUL !in CString(s)
    ensures |CString(s)| < |s| ==> s[|CString(s)|] == NUL
  {
    if s != "" && s[0] != NUL {
      CStringMeaning(s[1..]);
    }
  }

  /** Read pairs of C strings until the bytes run out. */
  function Decode(s: string): seq<Pair>
    decreases |s|
  {
    if s == "" then []
    else
      var kind := CString(s);
      if |kind| == |s| then [Pair(kind, "")]
      else
        var rest := s[|kind| + 1..];
        var name := CString(rest);
        if |name| == |rest| then [Pair(kind, name)]
        else [Pair(kind, name)] + Decode(rest[|name| + 1..])
  }

  lemma {:induction false} CStringOf(s: string, tail: string)
    requires NUL !in s
    ensures CString(s + [NUL] + tail) == s
  {
    if s == "" {
      assert s + [NUL] + tail == [NUL] + tail;
    } else {
      CStringOf(s[1..], tail);
      assert (s + [NUL] + tail)[1..] == s[1..] + [NUL] + tail;
      assert s == [s[0]] + s[1..];
    }
  }

  lemma CStringWhole(s: string)
    requires NUL !in s
    ensures CString(s) == s
  {
    CStringMeaning(s);
    assert |CString(s)| < |s| ==> NUL in s;
  }

  lemma {:induction false} EncodeFront(loc: seq<Pair>, n: nat)
    requires 0 < n <= |loc|
    ensures Encode(loc, n) == EncodePair(loc[0]) + Encode(loc[1..], n - 1)
  {
    if n == 1 {
      assert Encode(loc, 1) == "" + EncodePair(loc[0]) == EncodePair(loc[0]) + "";
    } else {
      EncodeFront(loc, n - 1);
      Associative(EncodePair(loc[0]), Encode(loc[1..], n - 2), EncodePair(loc[n - 1]));
    }
  }

  lemma DecodePair(p: Pair, tail: string)
    requires NUL !in p.kind && NUL !in p.name
    ensures Decode(EncodePair(p) + tail) == [p] + Decode(tail)
  {
    var rest := p.name + [NUL] + tail;
    var s := p.kind + [NUL] + rest;
    assert EncodePair(p) + tail == s;
    CStringOf(p.kind, rest);
    assert s[|p.kind| + 1..] == rest;
    CStringOf(p.name, tail);
    assert rest[|p.name| + 1..] == tail;
  }

  lemma Uncons(loc: seq<Pair>)
    requires loc != [] && NulFree(loc)
    ensures loc == [loc[0]] + loc[1..] && NulFree(loc[1..])
    ensures NUL !in loc[0].kind && NUL !in loc[0].name
  {
  }

  /** Splitting the bytes at NULs gives the pairs back. */
  lemma {:induction false} DecodeEncode(loc: seq<Pair>)
    requires NulFree(loc)
    ensures Decode(Encode(loc, |loc|)) == loc
    decreases |loc|
  {
    if loc != [] {
      Uncons(loc);
      var p, rest := loc[0], loc[1..];
      var tail := Encode(rest, |rest|);
      DecodeEncode(rest);
      DecodePair(p, tail);
      EncodeFront(loc, |loc|);
    }
  }

  /** Where each pair is: its type, a NUL, its name and a NUL, behind all pairs
      before it. */
  lemma {:induction false} EncodeLayout(loc: seq<Pair>, n: nat, i: nat, k: nat)
    requires i < n <= |loc| && k < |loc[i].kind| + |loc[i].name| + 2
    ensures Total(loc, i) + k < |Encode(loc, n)|
    ensures Encode(loc, n)[Total(loc, i) + k] ==
            if k < |loc[i].kind| then loc[i].kind[k]
            else if k == |loc[i].kind| || k == |loc[i].kind| + 1 + |loc[i].name| then '\0'
            else loc[i].name[k - |loc[i].kind| - 1]
    decreases n
  {
    if i < n - 1 {
      EncodeLayout(loc, n - 1, i, k);
    }
  }

  // ---------- the call ----------

  const TWO_31: int := 0x8000_0000

  /** A size returned as a 32-bit int: its low 32 bits, read as signed. */
  function ToInt(n: nat): (r: int)
    ensures -TWO_31 <= r < TWO_31 && (r - n) % (2 * TWO_31) == 0
    ensures r == n <==> n < TWO_31
  {
    var low := n % (2 * TWO_31);
    if low < TWO_31 then low else low - 2 * TWO_31
  }

  /** strcpy to an offset: the C string and its terminator, nothing else. */
  method Strcpy(path: array<char>, at: nat, s: string)
    requires at + |CString(s)| + 1 <= path.Length
    modifies path
    ensures forall i | 0 <= i < |CString(s)| :: path[at + i] == CString(s)[i]
    ensures path[at + |CString(s)|] == NUL
    ensures forall i | 0 <= i < path.Length && !(at <= i <= at + |CString(s)|) :: path[i] == old(path[i])
  {
    CStringMeaning(s);
    var i := 0;
    while i < |s| && s[i] != NUL
      invariant 0 <= i <= |CString(s)|
      invariant forall k | 0 <= k < i :: path[at + k] == CString(s)[k]
      invariant forall k | 0 <= k < path.Length && !(at <= k < at + i) :: path[k] == old(path[k])
    {
      CStringGoesOn(s, i);
      path[at + i] := s[i];
      i := i + 1;
    }
    path[at + i] := NUL;
  }

  lemma CStringGoesOn(s: string, i: nat)
    requires i < |s| && i <= |CString(s)| && s[i] != NUL
    ensures i < |CString(s)| && CString(s)[i] == s[i]
  {
    CStringMeaning(s);
  }

  /** Both strings of a pair; their sizes, not their C lengths, move the offset. */
  method WritePair(path: array<char>, at: nat, p: Pair)
    requires at + |p.kind| + |p.name| + 2 <= path.Length
    modifies path
    ensures forall i | 0 <= i < path.Length && !(at <= i < at + |p.kind| + |p.name| + 2) :: path[i] == old(path[i])
    ensures NUL !in p.kind && NUL !in p.name ==>
              forall i | at <= i < at + |p.kind| + |p.name| + 2 :: path[i] == EncodePair(p)[i - at]
  {
    Strcpy(path, at, p.kind);
    ghost var middle := path[..];
    Strcpy(path, at + |p.kind| + 1, p.name);
    if NUL !in p.kind && NUL !in p.name {
      CStringWhole(p.kind);
      CStringWhole(p.name);
      forall i | at <= i < at + |p.kind| + |p.name| + 2
        ensures path[i] == EncodePair(p)[i - at]
      {
        if i <= at + |p.kind| {
          assert path[i] == middle[i];
          assert i < at + |p.kind| ==> middle[at + (i - at)] == p.kind[i - at];
        } else if i < at + |p.kind| + 1 + |p.name| {
          assert path[at + |p.kind| + 1 + (i - at - |p.kind| - 1)] == p.name[i - at - |p.kind| - 1];
        }
      }
    }
  }

  /** A buffer that held `before` now begins with the first `m` pairs. */
  ghost predicate Holds(now: string, before: string, loc: seq<Pair>, m: nat) {
    && m <= |loc| && |now| == |before| && Total(loc, m) <= |now|
    && (forall k | Total(loc, m) <= k < |now| :: now[k] == before[k])
    && (NulFree(loc) ==> forall k | 0 <= k < Total(loc, m) :: now[k] == Encode(loc, m)[k])
  }

  method WriteNext(path: array<char>, cur: nat, loc: seq<Pair>, i: nat, ghost before: string)
    requires i < |loc| && Holds(path[..], before, loc, i) && cur == Total(loc, i)
    requires Total(loc, i + 1) <= path.Length
    modifies path
    ensures Holds(path[..], before, loc, i + 1)
  {
    ghost var now := path[..];
    WritePair(path, cur, loc[i]);
    forall k | 0 <= k < path.Length
      ensures Total(loc, i + 1) <= k ==> path[k] == before[k]
      ensures NulFree(loc) && k < Total(loc, i + 1) ==> path[k] == Encode(loc, i + 1)[k]
    {
      if k < cur || Total(loc, i + 1) <= k {
        assert path[k] == now[k];
      }
    }
  }

  /** Write pairs as long as all so far fit into `len`; add up what all need. */
  method Pack(path: array?<char>, len: nat, loc: seq<Pair>) returns (needed: nat, ghost m: nat)
    requires path != null ==> len <= path.Length
    modifies path
    ensures needed == Total(loc, |loc|)
    ensures m <= |loc| && Total(loc, m) <= len && (m < |loc| ==> Total(loc, m + 1) > len)
    ensures needed <= len ==> m == |loc|
    ensures path != null ==> Holds(path[..], old(path[..]), loc, m)
  {
    needed, m := 0, 0;
    var cur := 0;
    ghost var before := if path == null then "" else path[..];
    for i := 0 to |loc|
      invariant needed == Total(loc, i) && m <= i && cur == Total(loc, m) <= len
      invariant if m < i then Total(loc, m + 1) > len && needed > len else needed == cur
      invariant path != null ==> Holds(path[..], before, loc, m)
    {
      needed := needed + |loc[i].kind| + |loc[i].name| + 2;
      if needed <= len {
        if path != null {
          WriteNext(path, cur, loc, i, before);
        }
        cur := cur + |loc[i].kind| + 1;
        cur := cur + |loc[i].name| + 1;
        m := i + 1;
      }
    }
  }

  /** For any pairs and any buffer: the code that is returned, and what the
      buffer then holds. Nothing at or past `len` is ever written. */
  method GetOsdCrushLocation(mounted: bool, path: array?<char>, len: nat, lookup: int, loc: seq<Pair>)
    returns (ret: int)
    requires path != null ==> len <= path.Length
    modifies path
    ensures ret == if !mounted then -ENOTCONN
                   else if path == null && len > 0 then -EINVAL
                   else if lookup != 0 then lookup
                   else if len > 0 && Total(loc, |loc|) > len then -ERANGE
                   else ToInt(Total(loc, |loc|))
    ensures path != null ==> forall k | len <= k < path.Length :: path[k] == old(path[k])
    ensures path != null && mounted && lookup == 0 && Total(loc, |loc|) <= len && NulFree(loc) ==>
              path[..Total(loc, |loc|)] == Encode(loc, |loc|) && Decode(path[..Total(loc, |loc|)]) == loc
  {
    if !mounted {
      return -ENOTCONN;
    }
    if path == null && len > 0 {
      return -EINVAL;
    }
    if lookup != 0 {
      return lookup;
    }
    ghost var m;
    var needed;
    needed, m := Pack(path, len, loc);
    if path != null && needed <= len && NulFree(loc) {
      assert path[..needed] == Encode(loc, |loc|);
      DecodeEncode(loc);
    }
    if len == 0 {
      return ToInt(needed);
    }
    if needed > len {
      return -ERANGE;
    }
    return ToInt(needed);
  }
}
