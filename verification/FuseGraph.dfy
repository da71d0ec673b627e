/** The directory graph that the FUSE tracer caches: named edges from a
    directory's inode number to a child's inode number, walks along names,
    and the chain of first parents that path building climbs. */
module FuseGraph {
  import opened Wrappers

  type Ino = nat
  const ROOT: Ino := 1

  /** One directory entry: the key of `dentries` on the parent side and of
      `parents` on the child side. */
  datatype Slot = Slot(dir: Ino, name: string)

  type Edges = map<Slot, Ino>

  // ---------- walks ----------

  /** Resolve a list of names from a directory. */
  function Walk(e: Edges, from: Ino, names: seq<string>): Option<Ino>
    decreases |names|
  {
    if names == [] then Some(from)
    else if Slot(from, names[0]) !in e then None
    else Walk(e, e[Slot(from, names[0])], names[1..])
  }

  ghost predicate Reaches(e: Edges, x: Ino, y: Ino) {
    exists names :: Walk(e, x, names) == Some(y)
  }

  lemma {:induction false} WalkAppend(e: Edges, x: Ino, names: seq<string>, y: Ino, n: string)
    requires Walk(e, x, names) == Some(y)
    ensures Walk(e, x, names + [n]) == if Slot(y, n) in e then Some(e[Slot(y, n)]) else None
    decreases |names|
  {
    if names == [] {
      assert [n][1..] == [];
    } else {
      WalkAppend(e, e[Slot(x, names[0])], names[1..], y, n);
      assert (names + [n])[1..] == names[1..] + [n];
    }
  }

  // ---------- acyclicity ----------

  ghost predicate Ranked(e: Edges, rank: Ino -> nat) {
    forall s | s in e :: rank(s.dir) < rank(e[s])
  }

  ghost predicate Acyclic(e: Edges) {
    exists rank: Ino -> nat :: Ranked(e, rank)
  }

  lemma {:induction false} WalkClimbsRank(e: Edges, rank: Ino -> nat, x: Ino, names: seq<string>, y: Ino)
    requires Ranked(e, rank)
    requires Walk(e, x, names) == Some(y)
    ensures rank(x) + |names| <= rank(y)
    decreases |names|
  {
    if names != [] {
      var s := Slot(x, names[0]);
      assert s in e && rank(s.dir) < rank(e[s]);
      WalkClimbsRank(e, rank, e[s], names[1..], y);
    }
  }

  /** In an acyclic graph no walk comes back to where it started. */
  lemma NoWalkReturns(e: Edges, x: Ino, names: seq<string>)
    requires Acyclic(e)
    requires Walk(e, x, names) == Some(x)
    ensures names == []
  {
    var rank: Ino -> nat :| Ranked(e, rank);
    WalkClimbsRank(e, rank, x, names, x);
  }

  lemma SubgraphAcyclic(e: Edges, f: Edges)
    requires Acyclic(e)
    requires forall s | s in f :: s in e && f[s] == e[s]
    ensures Acyclic(f)
  {
    var rank: Ino -> nat :| Ranked(e, rank);
    assert Ranked(f, rank);
  }

  ghost function Lift(e: Edges, rank: Ino -> nat, c: Ino, lift: nat): Ino -> nat {
    x => rank(x) + if Reaches(e, c, x) then lift else 0
  }

  /** Everything below `c` is lifted above `p`, which `c` does not reach. */
  lemma AddEdgeRanked(e: Edges, rank: Ino -> nat, s: Slot, c: Ino)
    requires Ranked(e, rank)
    requires !Reaches(e, c, s.dir)
    ensures Ranked(e[s := c], Lift(e, rank, c, rank(s.dir) + 1))
  {
    var lifted := Lift(e, rank, c, rank(s.dir) + 1);
    forall t | t in e[s := c]
      ensures lifted(t.dir) < lifted(e[s := c][t])
    {
      if t == s {
        assert Walk(e, c, []) == Some(c);
        assert Reaches(e, c, c);
      } else if Reaches(e, c, t.dir) {
        var names :| Walk(e, c, names) == Some(t.dir);
        WalkAppend(e, c, names, t.dir, t.name);
        assert Slot(t.dir, t.name) == t;
        assert Reaches(e, c, e[t]);
      }
    }
  }

  /** A walk from `x` to `s.dir`, where `x` lies at or below `c`, survives
      pointing the slot `s` at `c` and dropping a slot that led to `c`. */
  lemma {:induction false} WalkAvoids(e: Edges, f: Edges, rank: Ino -> nat, c: Ino, s: Slot, dropped: set<Slot>,
                                      x: Ino, names: seq<string>) returns (kept: seq<string>)
    requires Ranked(e, rank)
    requires rank(c) <= rank(x)
    requires forall d | d in dropped :: d in e ==> e[d] == c
    requires forall t | t in e && t != s && t !in dropped :: t in f && f[t] == e[t]
    requires Walk(e, x, names) == Some(s.dir)
    ensures Walk(f, x, kept) == Some(s.dir)
    decreases |names|
  {
    if x == s.dir {
      return [];
    }
    var t := Slot(x, names[0]);
    assert t in e && rank(t.dir) < rank(e[t]);
    var rest := WalkAvoids(e, f, rank, c, s, dropped, e[t], names[1..]);
    kept := [names[0]] + rest;
    assert kept[1..] == rest;
  }

  /** Pointing a slot at `c` while dropping `dropped` (slots that led to `c`)
      keeps the graph acyclic exactly when `c` does not reach the slot's directory. */
  lemma MoveAcyclicIff(e: Edges, s: Slot, c: Ino, dropped: set<Slot>)
    requires Acyclic(e)
    requires s !in dropped
    requires forall d | d in dropped :: d in e ==> e[d] == c
    ensures Acyclic(e[s := c] - dropped) <==> !Reaches(e, c, s.dir)
  {
    var f := e[s := c] - dropped;
    var rank: Ino -> nat :| Ranked(e, rank);
    if Reaches(e, c, s.dir) {
      var names :| Walk(e, c, names) == Some(s.dir);
      var kept := WalkAvoids(e, f, rank, c, s, dropped, c, names);
      if Acyclic(f) {
        var around := [s.name] + kept;
        assert around[1..] == kept;
        assert Slot(s.dir, s.name) == s;
        assert Walk(f, s.dir, around) == Some(s.dir);
        NoWalkReturns(f, s.dir, around);
        assert false;
      }
    } else {
      AddEdgeRanked(e, rank, s, c);
      SubgraphAcyclic(e[s := c], f);
    }
  }

  /** The graph with every edge into or out of `i` cut. */
  function Isolate(e: Edges, i: Ino): (f: Edges)
    ensures forall s :: s in f <==> s in e && s.dir != i && e[s] != i
    ensures forall s | s in f :: f[s] == e[s]
  {
    map s | s in e && s.dir != i && e[s] != i :: e[s]
  }

  /** An isolated node reaches only itself. */
  lemma IsolatedReaches(e: Edges, i: Ino, y: Ino)
    requires forall s | s in e :: s.dir != i
    ensures Reaches(e, i, y) <==> i == y
  {
    assert Walk(e, i, []) == Some(i);
    if Reaches(e, i, y) {
      var names :| Walk(e, i, names) == Some(y);
    }
  }

  // ---------- the order of `parents` and its first key ----------

  predicate NameLess(a: string, b: string) {
    |b| > 0 && (|a| == 0 || a[0] < b[0] || (a[0] == b[0] && NameLess(a[1..], b[1..])))
  }

  /** The order of a map keyed by (name, parent number). */
  predicate SlotLess(a: Slot, b: Slot) {
    NameLess(a.name, b.name) || (a.name == b.name && a.dir < b.dir)
  }

  lemma {:induction false} NameOrder(a: string, b: string)
    ensures NameLess(a, b) || a == b || NameLess(b, a)
    ensures !(NameLess(a, b) && NameLess(b, a))
    ensures !NameLess(a, a)
  {
    if |a| > 0 && |b| > 0 {
      NameOrder(a[1..], b[1..]);
      if a[1..] == b[1..] && a[0] == b[0] {
        assert a == [a[0]] + a[1..] == b;
      }
    }
    if |a| > 0 {
      NameOrder(a[1..], a[1..]);
    }
  }

  lemma {:induction false} NameTransitive(a: string, b: string, c: string)
    requires NameLess(a, b) && NameLess(b, c)
    ensures NameLess(a, c)
  {
    if |a| > 0 && a[0] == b[0] == c[0] {
      NameTransitive(a[1..], b[1..], c[1..]);
    }
  }

  /** Names are ordered by the first character in which they differ, and a
      proper prefix comes before its extensions. */
  lemma {:induction false} NameLessAt(a: string, b: string)
    ensures NameLess(a, b) <==>
            exists i | 0 <= i <= |a| && i < |b| :: a[..i] == b[..i] && (i == |a| || a[i] < b[i])
  {
    if NameLess(a, b) {
      if a == "" || a[0] < b[0] {
        assert a[..0] == b[..0];
      } else {
        NameLessAt(a[1..], b[1..]);
        var i :| 0 <= i <= |a[1..]| && i < |b[1..]| && a[1..][..i] == b[1..][..i]
                 && (i == |a[1..]| || a[1..][i] < b[1..][i]);
        assert a[..i + 1] == [a[0]] + a[1..][..i] && b[..i + 1] == [b[0]] + b[1..][..i];
      }
    } else if exists i | 0 <= i <= |a| && i < |b| :: a[..i] == b[..i] && (i == |a| || a[i] < b[i]) {
      var i :| 0 <= i <= |a| && i < |b| && a[..i] == b[..i] && (i == |a| || a[i] < b[i]);
      assert i > 0 ==> a[..i][0] == b[..i][0];
      assert i > 0 ==> a[1..][..i - 1] == a[..i][1..] && b[1..][..i - 1] == b[..i][1..];
      NameLessAt(a[1..], b[1..]);
    }
  }

  /** The first parent has the least name; among entries of that name, the least
      directory number. */
  lemma FirstIsLeast(keys: set<Slot>, k: Slot, j: Slot)
    requires IsFirst(keys, k) && j in keys
    ensures !NameLess(j.name, k.name) && (j.name == k.name ==> k.dir <= j.dir)
  {
    NameOrder(j.name, k.name);
  }

  predicate IsFirst(keys: set<Slot>, k: Slot) {
    k in keys && forall j | j in keys :: j == k || SlotLess(k, j)
  }

  lemma SlotTransitive(a: Slot, b: Slot, c: Slot)
    requires SlotLess(a, b) && SlotLess(b, c)
    ensures SlotLess(a, c)
  {
    if NameLess(a.name, b.name) && NameLess(b.name, c.name) {
      NameTransitive(a.name, b.name, c.name);
    }
  }

  lemma {:induction false} FirstExists(keys: set<Slot>) returns (k: Slot)
    requires keys != {}
    ensures IsFirst(keys, k)
  {
    var x :| x in keys;
    var rest := keys - {x};
    if rest == {} {
      assert keys == rest + {x};
      return x;
    }
    var m := FirstExists(rest);
    NameOrder(x.name, m.name);
    if SlotLess(x, m) {
      k := x;
      forall j | j in keys && j != x
        ensures SlotLess(x, j)
      {
        assert j in rest;
        if j != m {
          SlotTransitive(x, m, j);
        }
      }
    } else {
      k := m;
      assert SlotLess(m, x);
    }
  }

  lemma FirstUnique(keys: set<Slot>, k: Slot, m: Slot)
    requires IsFirst(keys, k) && IsFirst(keys, m)
    ensures k == m
  {
    NameOrder(k.name, m.name);
    NameOrder(k.name, k.name);
  }

  // ---------- the first-parent chain ----------

  function ParentSlots(e: Edges, i: Ino): set<Slot> {
    set s | s in e && e[s] == i
  }

  /** `chain` climbs from `i` through first parents until it stands at the
      parentless `top`. */
  ghost predicate Climbs(e: Edges, i: Ino, chain: seq<Slot>, top: Ino)
    decreases |chain|
  {
    if chain == [] then i == top && ParentSlots(e, i) == {}
    else IsFirst(ParentSlots(e, i), chain[0]) && Climbs(e, chain[0].dir, chain[1..], top)
  }

  function NamesDown(chain: seq<Slot>): seq<string> {
    if chain == [] then [] else NamesDown(chain[1..]) + [chain[0].name]
  }

  lemma {:induction false} ClimbUnique(e: Edges, i: Ino, c1: seq<Slot>, t1: Ino, c2: seq<Slot>, t2: Ino)
    requires Climbs(e, i, c1, t1) && Climbs(e, i, c2, t2)
    ensures c1 == c2 && t1 == t2
    decreases |c1|
  {
    if c1 != [] && c2 != [] {
      FirstUnique(ParentSlots(e, i), c1[0], c2[0]);
      ClimbUnique(e, c1[0].dir, c1[1..], t1, c2[1..], t2);
      assert c1 == [c1[0]] + c1[1..] && c2 == [c2[0]] + c2[1..];
    }
  }

  lemma {:induction false} ClimbExists(e: Edges, rank: Ino -> nat, i: Ino) returns (chain: seq<Slot>, top: Ino)
    requires Ranked(e, rank)
    ensures Climbs(e, i, chain, top)
    decreases rank(i)
  {
    if ParentSlots(e, i) == {} {
      return [], i;
    }
    var k := FirstExists(ParentSlots(e, i));
    var rest, t := ClimbExists(e, rank, k.dir);
    chain, top := [k] + rest, t;
    assert chain[1..] == rest;
  }

  /** Walking back down the names that a climb collected ends where the climb began. */
  lemma {:induction false} ClimbWalksBack(e: Edges, i: Ino, chain: seq<Slot>, top: Ino)
    requires Climbs(e, i, chain, top)
    ensures Walk(e, top, NamesDown(chain)) == Some(i)
    decreases |chain|
  {
    if chain != [] {
      ClimbWalksBack(e, chain[0].dir, chain[1..], top);
      WalkAppend(e, top, NamesDown(chain[1..]), chain[0].dir, chain[0].name);
      assert Slot(chain[0].dir, chain[0].name) == chain[0];
    }
  }

  /** The first-parent chain ends at the root: the condition for a path to exist. */
  ghost predicate HasPath(e: Edges, i: Ino) {
    exists chain :: Climbs(e, i, chain, ROOT)
  }

  // ---------- the text of a path ----------

  /** The text that path building appends for a list of names. */
  function Render(names: seq<string>): string {
    if names == [] then "" else Render(names[..|names| - 1]) + "/" + names[|names| - 1]
  }

  /** The text of a list of names: a slash before each of them. */
  lemma {:induction false} RenderSplit(a: seq<string>, b: seq<string>)
    ensures Render(a + b) == Render(a) + Render(b)
    decreases |b|
  {
    if b == [] {
      assert a + b == a;
    } else {
      var c, n := b[..|b| - 1], b[|b| - 1];
      RenderSplit(a, c);
      assert (a + b)[..|a + b| - 1] == a + c && (a + b)[|a + b| - 1] == n;
      Associative(Render(a), Render(c), "/");
      Associative(Render(a), Render(c) + "/", n);
    }
  }

  lemma RenderOne(n: string)
    ensures Render([n]) == "/" + n && Render([]) == ""
  {
    assert [n][..0] == [] && "" + "/" == "/";
  }

  /** Appending one more name to a path text. */
  lemma RenderAppend(prefix: string, names: seq<string>, name: string)
    ensures prefix + Render(names) + "/" + name == prefix + Render(names + [name])
  {
    assert (names + [name])[..|names|] == names;
    assert prefix + Render(names) + "/" + name == prefix + (Render(names) + "/" + name);
  }

  lemma LastSlash(a: string, x: string, b: string, y: string)
    requires '/' !in x && '/' !in y && a + "/" + x == b + "/" + y
    ensures a == b && x == y
  {
    var w := a + "/" + x;
    assert w[|a|] == '/' && w[|b|] == '/';
    assert forall i | |a| < i < |w| :: w[i] == x[i - |a| - 1];
    assert forall i | |b| < i < |w| :: w[i] == y[i - |b| - 1];
    assert a == w[..|a|] && b == w[..|b|] && x == w[|a| + 1..] && y == w[|b| + 1..];
  }

  lemma {:induction false} RenderInjective(m: seq<string>, n: seq<string>)
    requires forall i | 0 <= i < |m| :: '/' !in m[i]
    requires forall i | 0 <= i < |n| :: '/' !in n[i]
    requires Render(m) == Render(n)
    ensures m == n
  {
    if m != [] && n != [] {
      var m', n' := m[..|m| - 1], n[..|n| - 1];
      LastSlash(Render(m'), m[|m| - 1], Render(n'), n[|n| - 1]);
      RenderInjective(m', n');
      assert m == m' + [m[|m| - 1]] && n == n' + [n[|n| - 1]];
    }
  }

  lemma {:induction false} NamesDownFromEdges(e: Edges, i: Ino, chain: seq<Slot>, top: Ino)
    requires Climbs(e, i, chain, top)
    requires forall s | s in e :: '/' !in s.name
    ensures forall k | 0 <= k < |NamesDown(chain)| :: '/' !in NamesDown(chain)[k]
    decreases |chain|
  {
    if chain != [] {
      NamesDownFromEdges(e, chain[0].dir, chain[1..], top);
    }
  }

  /** Two inodes that get the same path text are the same inode, as long as no
      name holds a slash. */
  lemma PathsDistinct(e: Edges, i: Ino, ci: seq<Slot>, j: Ino, cj: seq<Slot>)
    requires forall s | s in e :: '/' !in s.name
    requires Climbs(e, i, ci, ROOT) && Climbs(e, j, cj, ROOT)
    requires Render(NamesDown(ci)) == Render(NamesDown(cj))
    ensures i == j
  {
    NamesDownFromEdges(e, i, ci, ROOT);
    NamesDownFromEdges(e, j, cj, ROOT);
    RenderInjective(NamesDown(ci), NamesDown(cj));
    ClimbWalksBack(e, i, ci, ROOT);
    ClimbWalksBack(e, j, cj, ROOT);
  }

  lemma HasPathReaches(e: Edges, i: Ino)
    requires HasPath(e, i)
    ensures Reaches(e, ROOT, i)
  {
    var chain :| Climbs(e, i, chain, ROOT);
    ClimbWalksBack(e, i, chain, ROOT);
  }

  /** `path` is `base` followed by the names of the first-parent chain of `i`,
      from the root down. */
  ghost predicate Spells(e: Edges, base: string, i: Ino, path: string) {
    exists chain :: Climbs(e, i, chain, ROOT) && path == base + "/" + Render(NamesDown(chain))
  }

  lemma HasPathTop(e: Edges, i: Ino)
    requires ParentSlots(e, i) == {}
    ensures HasPath(e, i) <==> i == ROOT
    ensures i == ROOT ==> forall base: string :: Spells(e, base, i, base + "/")
  {
    if i == ROOT {
      assert Climbs(e, i, [], ROOT);
      forall base: string
        ensures Spells(e, base, i, base + "/")
      {
        assert base + "/" + "" == base + "/";
      }
    }
  }

  lemma HasPathStep(e: Edges, i: Ino, first: Slot)
    requires IsFirst(ParentSlots(e, i), first)
    ensures HasPath(e, i) <==> HasPath(e, first.dir)
  {
    if HasPath(e, i) {
      var chain :| Climbs(e, i, chain, ROOT);
      FirstUnique(ParentSlots(e, i), chain[0], first);
      assert Climbs(e, first.dir, chain[1..], ROOT);
    } else if HasPath(e, first.dir) {
      var chain :| Climbs(e, first.dir, chain, ROOT);
      assert ([first] + chain)[1..] == chain && Climbs(e, i, [first] + chain, ROOT);
    }
  }

  lemma SpellsStep(e: Edges, base: string, i: Ino, first: Slot, path: string)
    requires IsFirst(ParentSlots(e, i), first) && Spells(e, base, first.dir, path)
    ensures Spells(e, base, i, path + "/" + first.name)
  {
    var chain :| Climbs(e, first.dir, chain, ROOT) && path == base + "/" + Render(NamesDown(chain));
    RenderAppend(base + "/", NamesDown(chain), first.name);
    assert ([first] + chain)[1..] == chain && Climbs(e, i, [first] + chain, ROOT);
  }
}
