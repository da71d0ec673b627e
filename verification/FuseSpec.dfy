/** What each FUSE request does to the tracer's cache, as a state machine over
    inode numbers, and what every run of it keeps. System calls appear as the
    results they returned. */
module FuseSpec {
  import opened Wrappers
  import opened FuseGraph

  datatype Node = Node(ref: int, fds: set<int>)

  /** `nulls` are the numbers that the table maps to a null pointer. */
  datatype State = State(nodes: map<Ino, Node>, edges: Edges, nulls: set<Ino>)

  /** One request, with what the backing file system answered.
      `perm` is the permission test, `stat` the inode number that lstat found,
      `made` the number of the entry just made (`None`: refused), `ok` the
      outcome of the system call. */
  datatype Request =
    | Lookup(dir: Ino, name: string, perm: bool, stat: Option<Ino>)
    | Forget(ino: Ino, count: nat)
    | Make(dir: Ino, name: string, made: Option<Ino>, handle: Option<int>)
    | Link(ino: Ino, dir: Ino, name: string, ok: bool)
    | Unlink(dir: Ino, name: string, perm: bool, paranoia: int, ok: bool)
    | Rmdir(dir: Ino, name: string, ok: bool)
    | Rename(dir: Ino, name: string, newdir: Ino, newname: string, ok: bool)
    | Open(ino: Ino, handle: Option<int>)
    | Release(ino: Ino, fd: int)

  const INITIAL: State := State(map[ROOT := Node(1, {})], map[], {})

  function Fds(handle: Option<int>): set<int> {
    if handle.Some? then {handle.value} else {}
  }

  /** Remove an inode: its node and every edge that touches it. */
  function Drop(s: State, i: Ino): State {
    s.(nodes := s.nodes - {i}, edges := Isolate(s.edges, i))
  }

  function Held(s: State, i: Ino): State
    requires i in s.nodes
  {
    s.(nodes := s.nodes[i := s.nodes[i].(ref := s.nodes[i].ref + 1)])
  }

  /** Give `i` the single entry `slot` and no descriptors, keeping its
      references if the number is already cached. */
  function Added(s: State, slot: Slot, i: Ino): State {
    var ref := if i in s.nodes then s.nodes[i].ref else 0;
    State(s.nodes[i := Node(ref, {})], Isolate(s.edges, i)[slot := i], s.nulls - {i})
  }

  /** Reply to the kernel with a new entry: one more reference, and only the
      descriptors `fds`. */
  function Entered(s: State, slot: Slot, i: Ino, fds: set<int>): State {
    var t := Added(s, slot, i);
    t.(nodes := t.nodes[i := Node(t.nodes[i].ref + 1, fds)])
  }

  /** A lookup that misses installs a fresh inode under `i`, whatever was there. */
  function Missed(s: State, slot: Slot, i: Ino): State {
    State(s.nodes[i := Node(1, {})], s.edges[slot := i], s.nulls - {i})
  }

  /** `i` is not cached, or an inode other than the root holds it and no edge
      touches it. */
  predicate SpareIn(numbers: set<Ino>, e: Edges, i: Ino) {
    i in numbers ==> i != ROOT && forall t | t in e :: t.dir != i && e[t] != i
  }

  /** The request names cached inodes; a forget may name any number. */
  predicate Named(s: State, r: Request) {
    match r
    case Forget(_, _) => true
    case Link(i, d, _, _) => i in s.nodes && d in s.nodes
    case Rename(d, _, nd, _, _) => d in s.nodes && nd in s.nodes
    case Open(i, _) => i in s.nodes
    case Release(i, _) => i in s.nodes
    case _ => r.dir in s.nodes
  }

  /** A cached entry still has its number; an entry not cached has a spare
      number, and not its directory's. */
  ghost predicate Honest(s: State, r: Request) {
    match r
    case Lookup(d, n, perm, Some(i)) =>
      perm && HasPath(s.edges, d) ==>
        if Slot(d, n) in s.edges then i == s.edges[Slot(d, n)] else SpareIn(s.nodes.Keys, s.edges, i) && i != d
    case _ => true
  }

  /** A new entry's number has a null pointer in the table, which the program
      dereferences: it ends there. */
  ghost predicate Crashes(s: State, r: Request) {
    r.Make? && r.made.Some? && HasPath(s.edges, r.dir) && r.made.value in s.nulls
  }

  /** A lookup installs a fresh inode under a number that is cached. */
  ghost predicate Overwrites(s: State, r: Request) {
    && r.Lookup? && r.perm && HasPath(s.edges, r.dir) && r.stat.Some?
    && Slot(r.dir, r.name) !in s.edges && r.stat.value in s.nodes
  }

  ghost function Apply(s: State, r: Request): State
    requires Closed(s) && Named(s, r)
  {
    match r
    case Lookup(d, n, perm, stat) =>
      var slot := Slot(d, n);
      if !perm || !HasPath(s.edges, d) || stat.None? then s
      else if slot in s.edges then Held(s, s.edges[slot])
      else Missed(s, slot, stat.value)
    case Forget(i, count) =>
      if i == ROOT then s
      else if i !in s.nodes then s.(nulls := s.nulls + {i})
      else if s.nodes[i].ref - count <= 0 then Drop(s, i)
      else s.(nodes := s.nodes[i := s.nodes[i].(ref := s.nodes[i].ref - count)])
    case Make(d, n, made, handle) =>
      if made.None? || !HasPath(s.edges, d) then s
      else Entered(s, Slot(d, n), made.value, Fds(handle))
    case Link(i, d, n, ok) =>
      if ok && HasPath(s.edges, i) && HasPath(s.edges, d)
      then Held(s, i).(edges := s.edges[Slot(d, n) := i])
      else s
    case Unlink(d, n, perm, paranoia, ok) =>
      if perm && HasPath(s.edges, d) then Unlinked(Guarded(s, Slot(d, n), paranoia), Slot(d, n), ok) else s
    case Rmdir(d, n, ok) =>
      Unlinked(s, Slot(d, n), ok && HasPath(s.edges, d))
    case Rename(d, n, nd, nn, ok) =>
      if ok && HasPath(s.edges, d) && HasPath(s.edges, nd) && Slot(d, n) in s.edges
      then s.(edges := s.edges[Slot(nd, nn) := s.edges[Slot(d, n)]] - {Slot(d, n)})
      else s
    case Open(i, handle) =>
      if HasPath(s.edges, i) then s.(nodes := s.nodes[i := s.nodes[i].(fds := s.nodes[i].fds + Fds(handle))]) else s
    case Release(i, fd) =>
      s.(nodes := s.nodes[i := s.nodes[i].(fds := s.nodes[i].fds - {fd})])
  }

  /** Unlink opens a descriptor first, so that later getattrs still work. */
  function Guarded(s: State, slot: Slot, paranoia: int): State
    requires Closed(s)
  {
    if slot in s.edges && s.nodes[s.edges[slot]].fds == {} && paranoia > 0
    then s.(nodes := s.nodes[s.edges[slot] := s.nodes[s.edges[slot]].(fds := {paranoia})])
    else s
  }

  function Unlinked(s: State, slot: Slot, ok: bool): State {
    if ok then s.(edges := s.edges - {slot}) else s
  }

  /** The inode number carried by the entry reply, if the request gets one. */
  ghost function Reply(s: State, r: Request): Option<Ino> {
    match r
    case Lookup(d, _, perm, stat) => if perm && HasPath(s.edges, d) then stat else None
    case Make(d, _, made, _) => if HasPath(s.edges, d) then made else None
    case Link(i, d, _, ok) => if ok && HasPath(s.edges, i) && HasPath(s.edges, d) then Some(i) else None
    case _ => None
  }

  // ---------- the invariant ----------

  /** Every edge joins cached inodes, and no cached number is null. */
  ghost predicate Closed(s: State) {
    && ROOT in s.nodes && s.nulls !! s.nodes.Keys
    && forall t | t in s.edges :: t.dir in s.nodes && s.edges[t] in s.nodes
  }

  /** Besides, nothing is the parent of the root and no walk comes back. */
  ghost predicate Inv(s: State) {
    && Closed(s)
    && (forall t | t in s.edges :: s.edges[t] != ROOT)
    && Acyclic(s.edges)
  }

  /** What the backing file system guarantees: a new entry is neither the root
      nor its own directory, and nothing is moved or linked below itself. */
  ghost predicate Safe(s: State, r: Request) {
    match r
    case Make(d, _, made, _) =>
      made.Some? && HasPath(s.edges, d) ==> made.value != ROOT && made.value != d
    case Link(i, d, _, ok) =>
      ok && HasPath(s.edges, i) && HasPath(s.edges, d) ==> !Reaches(s.edges, i, d)
    case Rename(d, n, nd, nn, ok) =>
      ok && HasPath(s.edges, d) && HasPath(s.edges, nd) && Slot(d, n) in s.edges && Slot(d, n) != Slot(nd, nn)
      ==> !Reaches(s.edges, s.edges[Slot(d, n)], nd)
    case _ => true
  }

  lemma EnteredKeepsInv(s: State, slot: Slot, i: Ino, fds: set<int>)
    requires Inv(s) && slot.dir in s.nodes
    ensures Inv(Entered(s, slot, i, fds)) <==> i != ROOT && i != slot.dir
  {
    var cut := Isolate(s.edges, i);
    SubgraphAcyclic(s.edges, cut);
    IsolatedReaches(cut, i, slot.dir);
    MoveAcyclicIff(cut, slot, i, {});
    assert cut[slot := i] - {} == cut[slot := i];
    assert slot in cut[slot := i];
  }

  lemma MissedKeepsInv(s: State, slot: Slot, i: Ino)
    requires Inv(s) && slot.dir in s.nodes && SpareIn(s.nodes.Keys, s.edges, i)
    ensures Inv(Missed(s, slot, i)) <==> i != ROOT && i != slot.dir
  {
    var e, m := Entered(s, slot, i, {}), Missed(s, slot, i);
    EnteredKeepsInv(s, slot, i, {});
    assert Isolate(s.edges, i) == s.edges;
    assert m.edges == e.edges && m.nodes.Keys == e.nodes.Keys;
  }

  lemma LinkKeepsInv(s: State, r: Request)
    requires Inv(s) && r.Link? && Named(s, r)
    ensures Inv(Apply(s, r)) <==> Safe(s, r)
  {
    var slot := Slot(r.dir, r.name);
    if r.ok && HasPath(s.edges, r.ino) && HasPath(s.edges, r.dir) {
      HasPathReaches(s.edges, r.dir);
      MoveAcyclicIff(s.edges, slot, r.ino, {});
      assert s.edges[slot := r.ino] - {} == s.edges[slot := r.ino];
      assert slot.dir == r.dir;
    }
  }

  lemma RenameKeepsInv(s: State, r: Request)
    requires Inv(s) && r.Rename? && Named(s, r)
    ensures Inv(Apply(s, r)) <==> Safe(s, r)
  {
    var from, to := Slot(r.dir, r.name), Slot(r.newdir, r.newname);
    if r.ok && HasPath(s.edges, r.dir) && HasPath(s.edges, r.newdir) && from in s.edges {
      if from == to {
        SubgraphAcyclic(s.edges, Apply(s, r).edges);
      } else {
        MoveAcyclicIff(s.edges, to, s.edges[from], {from});
        assert to.dir == r.newdir;
      }
    }
  }

  lemma CutKeepsInv(s: State, t: State)
    requires Inv(s) && Closed(t)
    requires forall x | x in t.edges :: x in s.edges && t.edges[x] == s.edges[x]
    ensures Inv(t)
  {
    SubgraphAcyclic(s.edges, t.edges);
  }

  /** Every request keeps the invariant, exactly when the backing file system
      kept its side: nothing else about the request matters. */
  lemma StepKeepsInvIff(s: State, r: Request)
    requires Inv(s) && Named(s, r) && Honest(s, r)
    ensures Inv(Apply(s, r)) <==> Safe(s, r)
  {
    match r
    case Lookup(d, n, perm, stat) =>
      if perm && HasPath(s.edges, d) && stat.Some? && Slot(d, n) !in s.edges {
        MissedKeepsInv(s, Slot(d, n), stat.value);
      } else {
        CutKeepsInv(s, Apply(s, r));
      }
    case Make(d, n, made, handle) =>
      if made.Some? && HasPath(s.edges, d) {
        EnteredKeepsInv(s, Slot(d, n), made.value, Fds(handle));
      }
    case Link(_, _, _, _) => LinkKeepsInv(s, r);
    case Rename(_, _, _, _, _) => RenameKeepsInv(s, r);
    case _ => CutKeepsInv(s, Apply(s, r));
  }

  // ---------- runs ----------

  ghost predicate Legal(s: State, r: Request)
  {
    Named(s, r) && Honest(s, r) && Safe(s, r)
  }

  /** A run of requests from `s`, each legal where it arrives, as far as the
      program gets. */
  ghost predicate LegalRun(s: State, rs: seq<Request>)
    requires Inv(s)
    decreases |rs|
  {
    rs != [] ==>
      && Legal(s, rs[0])
      && (!Crashes(s, rs[0]) ==> (StepKeepsInvIff(s, rs[0]); LegalRun(Apply(s, rs[0]), rs[1..])))
  }

  /** Nothing is left to do, or nothing more is done. */
  ghost predicate Over(s: State, rs: seq<Request>) {
    rs == [] || Crashes(s, rs[0])
  }

  ghost function Run(s: State, rs: seq<Request>): (t: State)
    requires Inv(s) && LegalRun(s, rs)
    ensures Inv(t)
    decreases |rs|
  {
    if Over(s, rs) then s
    else
      StepKeepsInvIff(s, rs[0]);
      Run(Apply(s, rs[0]), rs[1..])
  }

  /** The program gets through the whole run. */
  ghost predicate CrashFree(s: State, rs: seq<Request>)
    requires Inv(s) && LegalRun(s, rs)
    decreases |rs|
  {
    rs != [] ==>
      && !Crashes(s, rs[0])
      && (StepKeepsInvIff(s, rs[0]); CrashFree(Apply(s, rs[0]), rs[1..]))
  }

  lemma InitialInv()
    ensures Inv(INITIAL)
  {
    assert Ranked(INITIAL.edges, (i: Ino) => 0);
  }

  // ---------- reference counts ----------

  /** The change one request makes to the kernel's count of replies minus
      forgotten lookups for `i`. */
  ghost function Delta(s: State, r: Request, i: Ino): int {
    (if Reply(s, r) == Some(i) then 1 else 0) - (if r.Forget? && r.ino == i then r.count else 0)
  }

  ghost function Balance(s: State, rs: seq<Request>, i: Ino): int
    requires Inv(s) && LegalRun(s, rs)
    decreases |rs|
  {
    if Over(s, rs) then 0
    else
      StepKeepsInvIff(s, rs[0]);
      Delta(s, rs[0], i) + Balance(Apply(s, rs[0]), rs[1..], i)
  }

  ghost function After(held: Ino -> int, s: State, r: Request): Ino -> int {
    (i: Ino) => held(i) + Delta(s, r, i)
  }

  /** A forget that is not ignored takes no more than the kernel holds. */
  ghost predicate ForgetsHeld(r: Request, held: Ino -> int) {
    r.Forget? && r.ino != ROOT ==> r.count <= held(r.ino)
  }

  /** At every point the kernel forgets no more than it still holds, and no
      lookup overwrites a cached inode; `held` gives the kernel's count per
      number at the start. */
  ghost predicate Affordable(s: State, rs: seq<Request>, held: Ino -> int)
    requires Inv(s) && LegalRun(s, rs)
    decreases |rs|
  {
    !Over(s, rs) ==>
      && ForgetsHeld(rs[0], held) && !Overwrites(s, rs[0])
      && (StepKeepsInvIff(s, rs[0]); Affordable(Apply(s, rs[0]), rs[1..], After(held, s, rs[0])))
  }

  /** The cache's counts are the kernel's: positive on exactly the cached numbers. */
  ghost predicate Counts(s: State, held: Ino -> int) {
    forall i: Ino | i != ROOT ::
      if i in s.nodes then s.nodes[i].ref == held(i) > 0 else held(i) == 0
  }

  /** A step keeps the counts, exactly when it does not overwrite a cached inode. */
  lemma StepCounts(s: State, r: Request, held: Ino -> int)
    requires Inv(s) && Legal(s, r) && Counts(s, held) && ForgetsHeld(r, held)
    ensures Counts(Apply(s, r), After(held, s, r)) <==> !Overwrites(s, r)
  {
    if Overwrites(s, r) {
      var i := r.stat.value;
      assert s.nodes[i].ref == held(i) > 0;
      assert Apply(s, r).nodes[i].ref == 1 && After(held, s, r)(i) == held(i) + 1;
    }
  }

  lemma {:induction false} RunCounts(s: State, rs: seq<Request>, held: Ino -> int)
    requires Inv(s) && LegalRun(s, rs) && Counts(s, held) && Affordable(s, rs, held)
    ensures Counts(Run(s, rs), (i: Ino) => held(i) + Balance(s, rs, i))
    decreases |rs|
  {
    if !Over(s, rs) {
      StepKeepsInvIff(s, rs[0]);
      StepCounts(s, rs[0], held);
      RunCounts(Apply(s, rs[0]), rs[1..], After(held, s, rs[0]));
    }
  }

  ghost predicate MountedRun(rs: seq<Request>) {
    InitialInv();
    LegalRun(INITIAL, rs) && Affordable(INITIAL, rs, (i: Ino) => 0)
  }

  /** Over every run from the mount in which the kernel never forgets more than
      it holds and no lookup overwrites a cached inode, an inode other than the root is cached exactly while entry
      replies outnumber forgotten lookups for its number, and `ref` is the
      difference. So it leaves the cache at the forget that reaches zero. */
  lemma RefIsOutstandingReplies(rs: seq<Request>, i: Ino)
    requires MountedRun(rs) && i != ROOT
    ensures Inv(INITIAL)
    ensures 0 <= Balance(INITIAL, rs, i)
    ensures i in Run(INITIAL, rs).nodes <==> Balance(INITIAL, rs, i) > 0
    ensures i in Run(INITIAL, rs).nodes ==> Run(INITIAL, rs).nodes[i].ref == Balance(INITIAL, rs, i)
  {
    InitialInv();
    RunCounts(INITIAL, rs, (i: Ino) => 0);
    var t := Run(INITIAL, rs);
    assert if i in t.nodes then t.nodes[i].ref == Balance(INITIAL, rs, i) > 0 else Balance(INITIAL, rs, i) == 0;
  }

  /** In every state a run can reach, each inode has a first-parent chain, and
      only one, no walk of names returns to its start, and when the chain ends at the
      root its names lead from the root to that very inode. */
  lemma ReachablePaths(rs: seq<Request>, i: Ino)
    requires Inv(INITIAL) && LegalRun(INITIAL, rs)
    ensures exists chain, top :: Climbs(Run(INITIAL, rs).edges, i, chain, top)
    ensures forall c1, t1, c2, t2 ::
              Climbs(Run(INITIAL, rs).edges, i, c1, t1) && Climbs(Run(INITIAL, rs).edges, i, c2, t2) ==>
                c1 == c2 && t1 == t2
    ensures forall names :: Walk(Run(INITIAL, rs).edges, i, names) == Some(i) ==> names == []
    ensures HasPath(Run(INITIAL, rs).edges, i) <==>
            exists chain :: Climbs(Run(INITIAL, rs).edges, i, chain, ROOT)
                            && Walk(Run(INITIAL, rs).edges, ROOT, NamesDown(chain)) == Some(i)
  {
    var e := Run(INITIAL, rs).edges;
    var rank: Ino -> nat :| Ranked(e, rank);
    var chain, top := ClimbExists(e, rank, i);
    forall c1, t1, c2, t2 | Climbs(e, i, c1, t1) && Climbs(e, i, c2, t2)
      ensures c1 == c2 && t1 == t2
    {
      ClimbUnique(e, i, c1, t1, c2, t2);
    }
    forall names | Walk(e, i, names) == Some(i)
      ensures names == []
    {
      NoWalkReturns(e, i, names);
    }
    if HasPath(e, i) {
      var c :| Climbs(e, i, c, ROOT);
      ClimbWalksBack(e, i, c, ROOT);
    }
  }

  // ---------- null pointers ----------

  /** The table holds no null pointer at any point of the run. */
  ghost predicate NullFree(s: State, rs: seq<Request>)
    requires Inv(s) && LegalRun(s, rs)
    decreases |rs|
  {
    && s.nulls == {}
    && (!Over(s, rs) ==> (StepKeepsInvIff(s, rs[0]); NullFree(Apply(s, rs[0]), rs[1..])))
  }

  /** The request forgets a number other than the root's that is not cached. */
  predicate Stray(s: State, r: Request) {
    r.Forget? && r.ino != ROOT && r.ino !in s.nodes
  }

  ghost predicate NoStray(s: State, rs: seq<Request>)
    requires Inv(s) && LegalRun(s, rs)
    decreases |rs|
  {
    !Over(s, rs) ==>
      && !Stray(s, rs[0])
      && (StepKeepsInvIff(s, rs[0]); NoStray(Apply(s, rs[0]), rs[1..]))
  }

  lemma StepNulls(s: State, r: Request)
    requires Inv(s) && Named(s, r) && s.nulls == {}
    ensures Apply(s, r).nulls == {} <==> !Stray(s, r)
  {
    if Stray(s, r) {
      assert r.ino in Apply(s, r).nulls;
    }
  }

  /** From a table without null pointers there is none at any point of a run,
      exactly when no forget of the run is stray; and without null pointers the
      program gets through. */
  lemma {:induction false} NullFreeIff(s: State, rs: seq<Request>)
    requires Inv(s) && LegalRun(s, rs) && s.nulls == {}
    ensures NullFree(s, rs) <==> NoStray(s, rs)
    ensures NullFree(s, rs) ==> CrashFree(s, rs)
    decreases |rs|
  {
    if !Over(s, rs) {
      StepKeepsInvIff(s, rs[0]);
      StepNulls(s, rs[0]);
      if !Stray(s, rs[0]) {
        NullFreeIff(Apply(s, rs[0]), rs[1..]);
      }
    }
  }

  /** Every forget that is not ignored takes at least one lookup back. */
  predicate Positive(rs: seq<Request>) {
    forall i | 0 <= i < |rs| :: rs[i].Forget? && rs[i].ino != ROOT ==> rs[i].count > 0
  }

  lemma {:induction false} AffordableNoStray(s: State, rs: seq<Request>, held: Ino -> int)
    requires Inv(s) && LegalRun(s, rs) && Counts(s, held) && Affordable(s, rs, held) && Positive(rs)
    ensures NoStray(s, rs)
    decreases |rs|
  {
    if !Over(s, rs) {
      StepKeepsInvIff(s, rs[0]);
      StepCounts(s, rs[0], held);
      assert forall i | 0 <= i < |rs[1..]| :: rs[1..][i] == rs[i + 1];
      AffordableNoStray(Apply(s, rs[0]), rs[1..], After(held, s, rs[0]));
    }
  }

  /** Over every run from the mount in which the kernel takes back only lookups
      it holds and no lookup overwrites a cached inode, the table never holds a
      null pointer and the program gets through. */
  lemma MountedRunNeverCrashes(rs: seq<Request>)
    requires MountedRun(rs) && Positive(rs)
    ensures Inv(INITIAL) && NullFree(INITIAL, rs) && CrashFree(INITIAL, rs)
  {
    InitialInv();
    AffordableNoStray(INITIAL, rs, (i: Ino) => 0);
    NullFreeIff(INITIAL, rs);
  }

  // ---------- inputs on which lookup goes wrong ----------

  const FIRST_LINK := Lookup(ROOT, "a", true, Some(2))
  const SECOND_LINK := Lookup(ROOT, "b", true, Some(2))
  const UNLINK := Unlink(ROOT, "a", true, 0, true)
  const FORGET := Forget(2, 1)
  const REMAKE := Make(ROOT, "c", Some(2), None)

  const LINKED := State(map[ROOT := Node(1, {}), 2 := Node(1, {})], map[Slot(ROOT, "a") := 2], {})
  const UNLINKED := State(map[ROOT := Node(1, {}), 2 := Node(1, {})], map[], {})
  const RELINKED := State(map[ROOT := Node(1, {}), 2 := Node(1, {})], map[Slot(ROOT, "b") := 2], {})

  /** From a state where nothing is the parent of the root. */
  lemma RootHasPath(s: State)
    requires forall t | t in s.edges :: s.edges[t] != ROOT
    ensures HasPath(s.edges, ROOT)
  {
    assert ParentSlots(s.edges, ROOT) == {};
    HasPathTop(s.edges, ROOT);
  }

  lemma FirstLookup()
    ensures Inv(INITIAL) && Legal(INITIAL, FIRST_LINK) && Apply(INITIAL, FIRST_LINK) == LINKED && Inv(LINKED)
    ensures Reply(INITIAL, FIRST_LINK) == Some(2)
  {
    InitialInv();
    RootHasPath(INITIAL);
    StepKeepsInvIff(INITIAL, FIRST_LINK);
  }

  /** Two names of one file, looked up one after the other: the second lookup
      misses on a number that carries an edge. */
  lemma SecondHardLink()
    ensures Inv(INITIAL) && Legal(INITIAL, FIRST_LINK)
    ensures Overwrites(Apply(INITIAL, FIRST_LINK), SECOND_LINK)
    ensures var s := Apply(INITIAL, FIRST_LINK);
            Inv(s) && Named(s, SECOND_LINK) && !SpareIn(s.nodes.Keys, s.edges, 2)
  {
    FirstLookup();
    RootHasPath(LINKED);
  }

  lemma UnlinkFirst()
    ensures Inv(LINKED) && Legal(LINKED, UNLINK) && Apply(LINKED, UNLINK) == UNLINKED && Inv(UNLINKED)
  {
    FirstLookup();
    RootHasPath(LINKED);
    StepKeepsInvIff(LINKED, UNLINK);
  }

  lemma SecondLookup()
    ensures Inv(UNLINKED) && Legal(UNLINKED, SECOND_LINK) && Overwrites(UNLINKED, SECOND_LINK)
    ensures Apply(UNLINKED, SECOND_LINK) == RELINKED && Inv(RELINKED)
    ensures Reply(UNLINKED, SECOND_LINK) == Some(2)
  {
    UnlinkFirst();
    RootHasPath(UNLINKED);
    StepKeepsInvIff(UNLINKED, SECOND_LINK);
  }

  /** One more request in front of a run. */
  lemma Prepend(s: State, r: Request, t: State, rs: seq<Request>, i: Ino)
    requires Inv(s) && Legal(s, r) && !Crashes(s, r) && Apply(s, r) == t && Inv(t) && LegalRun(t, rs)
    ensures LegalRun(s, [r] + rs) && Run(s, [r] + rs) == Run(t, rs)
    ensures Balance(s, [r] + rs, i) == Delta(s, r, i) + Balance(t, rs, i)
  {
    assert ([r] + rs)[0] == r && ([r] + rs)[1..] == rs;
  }

  /** A name of a file is looked up and unlinked, and another name of the same
      file is looked up. */
  const TWO_LOOKUPS := [FIRST_LINK, UNLINK, SECOND_LINK]

  lemma AfterTwoLookups(rest: seq<Request>)
    requires Inv(RELINKED) && LegalRun(RELINKED, rest)
    ensures Inv(INITIAL) && LegalRun(INITIAL, TWO_LOOKUPS + rest)
    ensures Run(INITIAL, TWO_LOOKUPS + rest) == Run(RELINKED, rest)
    ensures Balance(INITIAL, TWO_LOOKUPS + rest, 2) == 2 + Balance(RELINKED, rest, 2)
  {
    FirstLookup();
    UnlinkFirst();
    SecondLookup();
    var r1 := [SECOND_LINK] + rest;
    var r2 := [UNLINK] + r1;
    Prepend(UNLINKED, SECOND_LINK, RELINKED, rest, 2);
    Prepend(LINKED, UNLINK, UNLINKED, r1, 2);
    Prepend(INITIAL, FIRST_LINK, LINKED, r2, 2);
    assert TWO_LOOKUPS + rest == [FIRST_LINK] + r2;
  }

  /** Every request is legal, the second lookup installs an inode over a cached
      one, the kernel then holds two lookups, and the cache counts one. */
  lemma SpareOverwritten()
    ensures Inv(INITIAL) && LegalRun(INITIAL, TWO_LOOKUPS)
    ensures Inv(UNLINKED) && Legal(UNLINKED, SECOND_LINK) && Overwrites(UNLINKED, SECOND_LINK)
    ensures Run(INITIAL, TWO_LOOKUPS) == RELINKED == Apply(UNLINKED, SECOND_LINK)
    ensures Balance(INITIAL, TWO_LOOKUPS, 2) == 2 && RELINKED.nodes[2].ref == 1
  {
    SecondLookup();
    AfterTwoLookups([]);
    assert TWO_LOOKUPS + [] == TWO_LOOKUPS;
  }

  lemma ForgetBoth()
    ensures Inv(RELINKED) && LegalRun(RELINKED, [FORGET, FORGET])
    ensures Run(RELINKED, [FORGET, FORGET]) == INITIAL.(nulls := {2})
    ensures Balance(RELINKED, [FORGET, FORGET], 2) == -2
  {
    SecondLookup();
    InitialInv();
    var nulled := INITIAL.(nulls := {2});
    assert Apply(RELINKED, FORGET) == INITIAL && Apply(INITIAL, FORGET) == nulled;
    StepKeepsInvIff(INITIAL, FORGET);
    Prepend(INITIAL, FORGET, nulled, [], 2);
    Prepend(RELINKED, FORGET, INITIAL, [FORGET], 2);
    assert [FORGET] + [] == [FORGET] && [FORGET] + [FORGET] == [FORGET, FORGET];
  }

  /** The kernel takes both lookups back, no more than it holds, and that leaves
      a null pointer: making a file with that number crashes. */
  lemma ForgottenNumber()
    ensures Inv(INITIAL) && LegalRun(INITIAL, TWO_LOOKUPS + [FORGET, FORGET])
    ensures Balance(INITIAL, TWO_LOOKUPS + [FORGET, FORGET], 2) == 0
    ensures var t := Run(INITIAL, TWO_LOOKUPS + [FORGET, FORGET]);
            t.nulls == {2} && Legal(t, REMAKE) && Crashes(t, REMAKE)
  {
    ForgetBoth();
    AfterTwoLookups([FORGET, FORGET]);
    RootHasPath(INITIAL.(nulls := {2}));
  }
}
