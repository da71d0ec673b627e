/** What names mean in the tracer's cache: what each request does to the name
    of every entry and to every descriptor, and that what is cached agrees with
    the backing file system over whole runs. */
module FuseNames {
  import opened Wrappers
  import opened FuseGraph
  import opened FuseSpec

  // ---------- one name ----------

  lemma OneName(e: Edges, d: Ino, n: string)
    ensures Walk(e, d, [n]) == if Slot(d, n) in e then Some(e[Slot(d, n)]) else None
  {
    assert [n][1..] == [];
  }

  /** The inodes that are cut off lose their entries and their names; every other
      name but the new one resolves as before. */
  lemma CutNames(e: Edges, i: Ino, d: Ino, n: string)
    ensures Walk(Isolate(e, i), d, [n]) == if d == i || Walk(e, d, [n]) == Some(i) then None else Walk(e, d, [n])
  {
    OneName(e, d, n);
    OneName(Isolate(e, i), d, n);
  }

  /** A lookup that misses gives the name the number that was found; nothing
      else changes its meaning, and no other lookup changes any. */
  lemma LookupNames(s: State, r: Request, d: Ino, n: string)
    requires Closed(s) && Named(s, r) && r.Lookup?
    ensures Walk(Apply(s, r).edges, d, [n]) ==
            if d == r.dir && n == r.name && Walk(s.edges, d, [n]).None? && r.perm && HasPath(s.edges, r.dir)
            then r.stat
            else Walk(s.edges, d, [n])
  {
    OneName(s.edges, d, n);
    OneName(Apply(s, r).edges, d, n);
  }

  /** Forgetting the last reference takes away the names of the inode and of
      everything in it, and no other name. */
  lemma ForgetNames(s: State, r: Request, d: Ino, n: string)
    requires Closed(s) && r.Forget?
    ensures Walk(Apply(s, r).edges, d, [n]) ==
            if r.ino != ROOT && r.ino in s.nodes && s.nodes[r.ino].ref <= r.count
               && (d == r.ino || Walk(s.edges, d, [n]) == Some(r.ino))
            then None
            else Walk(s.edges, d, [n])
  {
    CutNames(s.edges, r.ino, d, n);
  }

  /** A new entry has the number made; the other names of that number, and the
      names in it, are gone; the rest is as it was. */
  lemma MakeNames(s: State, r: Request, d: Ino, n: string)
    requires Closed(s) && Named(s, r) && r.Make?
    ensures r.made.None? || !HasPath(s.edges, r.dir) ==> Apply(s, r) == s
    ensures r.made.Some? && HasPath(s.edges, r.dir) ==>
              Walk(Apply(s, r).edges, d, [n]) ==
              if d == r.dir && n == r.name then r.made
              else if d == r.made.value || Walk(s.edges, d, [n]) == r.made then None
              else Walk(s.edges, d, [n])
  {
    OneName(s.edges, d, n);
    OneName(Apply(s, r).edges, d, n);
  }

  lemma LinkNames(s: State, r: Request, d: Ino, n: string)
    requires Closed(s) && Named(s, r) && r.Link?
    ensures Walk(Apply(s, r).edges, d, [n]) ==
            if r.ok && HasPath(s.edges, r.ino) && HasPath(s.edges, r.dir) && d == r.dir && n == r.name
            then Some(r.ino)
            else Walk(s.edges, d, [n])
  {
    OneName(s.edges, d, n);
    OneName(Apply(s, r).edges, d, n);
  }

  lemma RemovalNames(s: State, r: Request, d: Ino, n: string)
    requires Closed(s) && Named(s, r) && (r.Unlink? || r.Rmdir?)
    ensures Walk(Apply(s, r).edges, d, [n]) ==
            if r.ok && (r.Unlink? ==> r.perm) && HasPath(s.edges, r.dir) && d == r.dir && n == r.name
            then None
            else Walk(s.edges, d, [n])
  {
    OneName(s.edges, d, n);
    OneName(Apply(s, r).edges, d, n);
  }

  ghost predicate Moves(s: State, r: Request)
    requires r.Rename?
  {
    r.ok && HasPath(s.edges, r.dir) && HasPath(s.edges, r.newdir) && Walk(s.edges, r.dir, [r.name]).Some?
  }

  /** A rename takes effect on a cached entry only. Then the old name means
      nothing any more, the new name means what the old one did, and every
      other name what it did. A slot renamed onto itself is dropped. */
  lemma RenameNames(s: State, r: Request, d: Ino, n: string)
    requires Closed(s) && Named(s, r) && r.Rename?
    ensures !Moves(s, r) ==> Apply(s, r) == s
    ensures Moves(s, r) ==>
              Walk(Apply(s, r).edges, d, [n]) ==
              if d == r.dir && n == r.name then None
              else if d == r.newdir && n == r.newname then Walk(s.edges, r.dir, [r.name])
              else Walk(s.edges, d, [n])
  {
    OneName(s.edges, r.dir, r.name);
    OneName(s.edges, d, n);
    OneName(Apply(s, r).edges, d, n);
  }

  lemma OtherNames(s: State, r: Request)
    requires Closed(s) && Named(s, r) && (r.Open? || r.Release?)
    ensures Apply(s, r).edges == s.edges && Apply(s, r).nodes.Keys == s.nodes.Keys
  {
  }

  /** Whoever is replied an entry finds the replied number under its name. */
  lemma ReplyIsNamed(s: State, r: Request)
    requires Inv(s) && Legal(s, r) && !Crashes(s, r) && Reply(s, r).Some?
    ensures Walk(Apply(s, r).edges, r.dir, [r.name]) == Reply(s, r) && Reply(s, r).value in Apply(s, r).nodes
  {
    OneName(Apply(s, r).edges, r.dir, r.name);
  }

  // ---------- descriptors ----------

  ghost predicate Has(s: State, i: Ino, fd: int) {
    i in s.nodes && fd in s.nodes[i].fds
  }

  /** The request puts `fd` on `i`: an open, a create, or the descriptor that an
      unlink opens on an inode that has none. */
  ghost predicate Opens(s: State, r: Request, i: Ino, fd: int) {
    || (r.Open? && r.ino == i && r.handle == Some(fd) && HasPath(s.edges, i))
    || (r.Make? && r.made == Some(i) && r.handle == Some(fd) && HasPath(s.edges, r.dir))
    || (r.Unlink? && r.perm && HasPath(s.edges, r.dir) && Walk(s.edges, r.dir, [r.name]) == Some(i)
        && i in s.nodes && s.nodes[i].fds == {} && r.paranoia == fd > 0)
  }

  /** The request takes `fd` from `i`: its release, or anything that makes the
      number a new inode or none. */
  ghost predicate Closes(s: State, r: Request, i: Ino, fd: int) {
    || (r.Release? && r.ino == i && r.fd == fd)
    || (r.Forget? && r.ino == i != ROOT && i in s.nodes && s.nodes[i].ref <= r.count)
    || (r.Make? && r.made == Some(i) && HasPath(s.edges, r.dir))
    || (r.Lookup? && r.stat == Some(i) && r.perm && HasPath(s.edges, r.dir) && Walk(s.edges, r.dir, [r.name]).None?)
  }

  lemma DescriptorStep(s: State, r: Request, i: Ino, fd: int)
    requires Closed(s) && Named(s, r)
    ensures Has(Apply(s, r), i, fd) <==> (Has(s, i, fd) && !Closes(s, r, i, fd)) || Opens(s, r, i, fd)
  {
    if r.Unlink? || r.Lookup? {
      OneName(s.edges, r.dir, r.name);
    }
  }

  // ---------- the backing file system ----------

  /** All entries of all directories of the backing file system. */
  type Disk = map<Slot, Ino>

  ghost predicate Tree(disk: Disk) {
    Acyclic(disk) && forall t | t in disk :: disk[t] != ROOT
  }

  predicate Unused(disk: Disk, i: Ino) {
    i != ROOT && forall t | t in disk :: t.dir != i && disk[t] != i
  }

  /** The answers are those of the file system: a stat finds the entry's number,
      what is made is new unless it was there, what is removed or moved was there,
      and nothing is linked or moved below itself. */
  ghost predicate Answers(disk: Disk, s: State, r: Request) {
    match r
    case Lookup(d, n, perm, stat) => perm && HasPath(s.edges, d) ==> stat == Walk(disk, d, [n])
    case Make(d, n, Some(i), _) =>
      HasPath(s.edges, d) ==> if Slot(d, n) in disk then disk[Slot(d, n)] == i else Unused(disk, i) && i != d
    case Link(i, d, n, ok) =>
      ok && HasPath(s.edges, i) && HasPath(s.edges, d) ==> Slot(d, n) !in disk && !Reaches(disk, i, d)
    case Unlink(d, n, perm, _, ok) => ok && perm && HasPath(s.edges, d) ==> Slot(d, n) in disk
    case Rmdir(d, n, ok) => ok && HasPath(s.edges, d) ==> Slot(d, n) in disk
    case Rename(d, n, nd, nn, ok) =>
      ok && HasPath(s.edges, d) && HasPath(s.edges, nd) ==>
        Slot(d, n) in disk && (Slot(d, n) != Slot(nd, nn) ==> !Reaches(disk, disk[Slot(d, n)], nd))
    case _ => true
  }

  /** The file system after the request. Renaming a name of a file to another
      name of the same file does nothing. */
  ghost function Changed(disk: Disk, s: State, r: Request): Disk {
    match r
    case Make(d, n, Some(i), _) => if HasPath(s.edges, d) then disk[Slot(d, n) := i] else disk
    case Link(i, d, n, ok) =>
      if ok && HasPath(s.edges, i) && HasPath(s.edges, d) then disk[Slot(d, n) := i] else disk
    case Unlink(d, n, perm, _, ok) => if ok && perm && HasPath(s.edges, d) then disk - {Slot(d, n)} else disk
    case Rmdir(d, n, ok) => if ok && HasPath(s.edges, d) then disk - {Slot(d, n)} else disk
    case Rename(d, n, nd, nn, ok) =>
      if ok && HasPath(s.edges, d) && HasPath(s.edges, nd) && Walk(disk, d, [n]) != Walk(disk, nd, [nn])
         && Slot(d, n) in disk
      then disk[Slot(nd, nn) := disk[Slot(d, n)]] - {Slot(d, n)}
      else disk
    case _ => disk
  }

  /** Every cached entry is an entry of the file system. */
  ghost predicate Coherent(disk: Disk, s: State) {
    forall t | t in s.edges :: t in disk && disk[t] == s.edges[t]
  }

  /** A rename whose source is not cached leaves the entry it replaced cached. */
  ghost predicate Stales(disk: Disk, s: State, r: Request) {
    && r.Rename? && r.ok && HasPath(s.edges, r.dir) && HasPath(s.edges, r.newdir)
    && Walk(s.edges, r.dir, [r.name]).None? && Walk(s.edges, r.newdir, [r.newname]).Some?
    && Walk(disk, r.dir, [r.name]) != Walk(disk, r.newdir, [r.newname])
  }

  /** A request keeps the cache coherent, exactly when it does not rename an
      uncached entry over a cached one. */
  lemma StepCoherentIff(disk: Disk, s: State, r: Request)
    requires Closed(s) && Named(s, r) && Coherent(disk, s) && Answers(disk, s, r)
    ensures Coherent(Changed(disk, s, r), Apply(s, r)) <==> !Stales(disk, s, r)
  {
    match r
    case Lookup(d, n, _, _) =>
      OneName(disk, d, n);
    case Rename(d, n, nd, nn, _) =>
      OneName(disk, d, n);
      OneName(disk, nd, nn);
      OneName(s.edges, d, n);
      OneName(s.edges, nd, nn);
      if Stales(disk, s, r) {
        var to := Slot(nd, nn);
        assert to in Apply(s, r).edges && Changed(disk, s, r)[to] != Apply(s, r).edges[to];
      }
    case _ =>
  }

  /** Walks of the cache are walks of the file system. */
  lemma {:induction false} WalkOnDisk(disk: Disk, s: State, x: Ino, names: seq<string>)
    requires Coherent(disk, s) && Walk(s.edges, x, names).Some?
    ensures Walk(disk, x, names) == Walk(s.edges, x, names)
    decreases |names|
  {
    if names != [] {
      assert Slot(x, names[0]) in s.edges;
      WalkOnDisk(disk, s, s.edges[Slot(x, names[0])], names[1..]);
    }
  }

  /** The path that is built for an inode leads to it in the file system. */
  lemma PathOnDisk(disk: Disk, s: State, i: Ino, chain: seq<Slot>)
    requires Coherent(disk, s) && Climbs(s.edges, i, chain, ROOT)
    ensures Walk(disk, ROOT, NamesDown(chain)) == Some(i)
  {
    ClimbWalksBack(s.edges, i, chain, ROOT);
    WalkOnDisk(disk, s, ROOT, NamesDown(chain));
  }

  lemma ReachesOnDisk(disk: Disk, s: State, x: Ino, y: Ino)
    requires Coherent(disk, s) && Reaches(s.edges, x, y)
    ensures Reaches(disk, x, y)
  {
    var names :| Walk(s.edges, x, names) == Some(y);
    WalkOnDisk(disk, s, x, names);
  }

  /** What the cache needs of its answers follows from the file system being a
      tree, but for a miss on the number of an inode that is cached elsewhere. */
  lemma AnswersAreSafe(disk: Disk, s: State, r: Request)
    requires Inv(s) && Named(s, r) && Tree(disk) && Coherent(disk, s) && Answers(disk, s, r)
    ensures Safe(s, r)
    ensures Honest(s, r) <==>
            (r.Lookup? && r.perm && HasPath(s.edges, r.dir) && r.stat.Some? && Walk(s.edges, r.dir, [r.name]).None? ==>
               SpareIn(s.nodes.Keys, s.edges, r.stat.value))
  {
    match r
    case Lookup(d, n, _, stat) =>
      OneName(disk, d, n);
      OneName(s.edges, d, n);
      if stat.Some? && Slot(d, n) in disk {
        NotItself(disk, Slot(d, n));
      }
    case Make(d, n, Some(i), _) =>
      if Slot(d, n) in disk {
        NotItself(disk, Slot(d, n));
      }
    case Link(i, d, _, _) =>
      if Reaches(s.edges, i, d) {
        ReachesOnDisk(disk, s, i, d);
      }
    case Rename(d, n, nd, _, _) =>
      if Slot(d, n) in s.edges && Reaches(s.edges, s.edges[Slot(d, n)], nd) {
        ReachesOnDisk(disk, s, s.edges[Slot(d, n)], nd);
      }
    case _ =>
  }

  lemma NotItself(disk: Disk, t: Slot)
    requires Tree(disk) && t in disk
    ensures disk[t] != t.dir
  {
    var rank: Ino -> nat :| Ranked(disk, rank);
    assert rank(t.dir) < rank(disk[t]);
  }

  // ---------- whole runs ----------

  lemma TreeKept(disk: Disk, s: State, r: Request)
    requires Inv(s) && Named(s, r) && Tree(disk) && Coherent(disk, s) && Answers(disk, s, r)
    ensures Tree(Changed(disk, s, r))
  {
    match r
    case Make(d, n, Some(i), _) =>
      if HasPath(s.edges, d) && Slot(d, n) !in disk {
        IsolatedReaches(disk, i, d);
        Joined(disk, Slot(d, n), i);
      } else {
        assert Changed(disk, s, r) == disk;
      }
    case Link(i, d, n, ok) =>
      if ok && HasPath(s.edges, i) && HasPath(s.edges, d) {
        HasPathReaches(s.edges, d);
        ReachesOnDisk(disk, s, ROOT, d);
        Joined(disk, Slot(d, n), i);
      }
    case Rename(d, n, nd, nn, _) =>
      if Changed(disk, s, r) != disk {
        MoveAcyclicIff(disk, Slot(nd, nn), disk[Slot(d, n)], {Slot(d, n)});
      }
    case _ => SubgraphAcyclic(disk, Changed(disk, s, r));
  }

  lemma Joined(disk: Disk, t: Slot, i: Ino)
    requires Tree(disk) && i != ROOT && !Reaches(disk, i, t.dir)
    ensures Tree(disk[t := i])
  {
    MoveAcyclicIff(disk, t, i, {});
    assert disk[t := i] - {} == disk[t := i];
  }

  /** A run whose answers are the file system's. No lookup misses on the number
      of an inode that is cached elsewhere, and no uncached entry is renamed
      over a cached one. */
  ghost predicate BackedRun(disk: Disk, s: State, rs: seq<Request>)
    requires Inv(s) && Tree(disk) && Coherent(disk, s)
    decreases |rs|
  {
    rs != [] ==>
      var r := rs[0];
      && Named(s, r) && Answers(disk, s, r) && Honest(s, r) && !Stales(disk, s, r)
      && (!Crashes(s, r) ==>
            (StepBacked(disk, s, r); BackedRun(Changed(disk, s, r), Apply(s, r), rs[1..])))
  }

  lemma StepBacked(disk: Disk, s: State, r: Request)
    requires Inv(s) && Tree(disk) && Coherent(disk, s)
    requires Named(s, r) && Answers(disk, s, r) && Honest(s, r) && !Stales(disk, s, r)
    ensures Legal(s, r) && Inv(Apply(s, r))
    ensures Tree(Changed(disk, s, r)) && Coherent(Changed(disk, s, r), Apply(s, r))
  {
    AnswersAreSafe(disk, s, r);
    StepKeepsInvIff(s, r);
    TreeKept(disk, s, r);
    StepCoherentIff(disk, s, r);
  }

  ghost function DiskAfter(disk: Disk, s: State, rs: seq<Request>): Disk
    requires Inv(s) && Tree(disk) && Coherent(disk, s) && BackedRun(disk, s, rs)
    decreases |rs|
  {
    if Over(s, rs) then disk
    else
      StepBacked(disk, s, rs[0]);
      DiskAfter(Changed(disk, s, rs[0]), Apply(s, rs[0]), rs[1..])
  }

  /** Such a run is legal, and at its end, hence at every point, every cached
      entry is an entry of the file system. */
  lemma {:induction false} BackedRunCoherent(disk: Disk, s: State, rs: seq<Request>)
    requires Inv(s) && Tree(disk) && Coherent(disk, s) && BackedRun(disk, s, rs)
    ensures LegalRun(s, rs) && Coherent(DiskAfter(disk, s, rs), Run(s, rs))
    decreases |rs|
  {
    if rs != [] {
      StepBacked(disk, s, rs[0]);
      if !Crashes(s, rs[0]) {
        BackedRunCoherent(Changed(disk, s, rs[0]), Apply(s, rs[0]), rs[1..]);
      }
    }
  }

  /** From the mount on, over every such run and for every inode: the names that
      path building collects lead from the root to that inode in the file
      system. */
  lemma PathsAreRight(disk: Disk, rs: seq<Request>, i: Ino, chain: seq<Slot>)
    requires Inv(INITIAL) && Tree(disk) && BackedRun(disk, INITIAL, rs) && LegalRun(INITIAL, rs)
    requires Climbs(Run(INITIAL, rs).edges, i, chain, ROOT)
    ensures Walk(DiskAfter(disk, INITIAL, rs), ROOT, NamesDown(chain)) == Some(i)
  {
    BackedRunCoherent(disk, INITIAL, rs);
    PathOnDisk(DiskAfter(disk, INITIAL, rs), Run(INITIAL, rs), i, chain);
  }

  /** An uncached entry renamed over a cached one, from the mount: the replaced
      number stays cached under the name. */
  lemma StaleEntry()
    ensures Inv(INITIAL) && Inv(LINKED) && Legal(INITIAL, FIRST_LINK) && Apply(INITIAL, FIRST_LINK) == LINKED
    ensures var disk := map[Slot(ROOT, "a") := 2, Slot(ROOT, "b") := 3];
            var r := Rename(ROOT, "b", ROOT, "a", true);
            && Tree(disk) && Coherent(disk, LINKED) && Legal(LINKED, r) && Answers(disk, LINKED, r)
            && Stales(disk, LINKED, r) && !Coherent(Changed(disk, LINKED, r), Apply(LINKED, r))
  {
    var disk := map[Slot(ROOT, "a") := 2, Slot(ROOT, "b") := 3];
    var r := Rename(ROOT, "b", ROOT, "a", true);
    FirstLookup();
    RootHasPath(LINKED);
    assert Ranked(disk, (i: Ino) => i);
    OneName(disk, ROOT, "a");
    OneName(disk, ROOT, "b");
    OneName(LINKED.edges, ROOT, "a");
    OneName(LINKED.edges, ROOT, "b");
    IsolatedReaches(disk, 3, ROOT);
    StepCoherentIff(disk, LINKED, r);
  }
}
