/** The tracer's cache as it sits in memory: inode objects that point at each
    other through `dentries` and `parents`, and the global table of numbers.
    Every handler is proved against the state machine of FuseSpec. */
module FuseCache {
  import opened Wrappers
  import opened FuseGraph
  import opened FuseSpec

  class Inode {
    var ino: Ino
    var ref: int
    var fds: set<int>
    var parents: map<Slot, Inode>
    var dentries: map<string, Inode>

    constructor (number: Ino)
      ensures ino == number && ref == 0 && fds == {} && parents == map[] && dentries == map[]
    {
      ino, ref, fds, parents, dentries := number, 0, {}, map[], map[];
    }
  }

  class Cache {
    const basedir: string
    var root: Inode
    /** The table: the numbers with an inode, and those with a null pointer. */
    var inodeMap: map<Ino, Inode>
    var nulls: set<Ino>
    /** The edges that the two mirrored maps encode. */
    ghost var edges: Edges
    /** Every inode allocated so far. */
    ghost var heap: set<Inode>

    /** The table maps each number to the inode that carries it, and every
        edge joins two numbers in the table. */
    ghost predicate Table(e: Edges)
      reads this`root, this`inodeMap, this`heap, heap`ino
    {
      && ROOT in inodeMap && inodeMap[ROOT] == root
      && (forall i {:trigger inodeMap[i]} | i in inodeMap :: inodeMap[i] in heap && inodeMap[i].ino == i)
      && (forall s {:trigger e[s]} | s in e :: s.dir in inodeMap && e[s] in inodeMap)
    }

    ghost predicate Listed(e: Edges, s: Slot)
      reads this`root, this`inodeMap, this`heap, heap`ino, heap`dentries
      requires Table(e) && s in e
    {
      s.name in inodeMap[s.dir].dentries && inodeMap[s.dir].dentries[s.name] == inodeMap[e[s]]
    }

    ghost predicate BackLinked(e: Edges, s: Slot)
      reads this`root, this`inodeMap, this`heap, heap`ino, heap`parents
      requires Table(e) && s in e
    {
      s in inodeMap[e[s]].parents && inodeMap[e[s]].parents[s] == inodeMap[s.dir]
    }

    /** `dentries` holds exactly the edges `e`. */
    ghost predicate Forward(e: Edges)
      reads this`root, this`inodeMap, this`heap, heap`ino, heap`dentries
      requires Table(e)
    {
      && (forall s {:trigger Listed(e, s)} | s in e :: Listed(e, s))
      && (forall i, n {:trigger n in inodeMap[i].dentries} | i in inodeMap && n in inodeMap[i].dentries ::
            Slot(i, n) in e)
    }

    /** `parents` holds exactly the edges `e`, reversed. */
    ghost predicate Backward(e: Edges)
      reads this`root, this`inodeMap, this`heap, heap`ino, heap`parents
      requires Table(e)
    {
      && (forall s {:trigger BackLinked(e, s)} | s in e :: BackLinked(e, s))
      && (forall i, s {:trigger s in inodeMap[i].parents} | i in inodeMap && s in inodeMap[i].parents ::
            s in e && e[s] == i)
    }

    /** Both directions of every edge are stored, on the inodes that the table
        holds under those numbers, and nothing else is stored. */
    ghost predicate Valid()
      reads this, heap
    {
      Table(edges) && Forward(edges) && Backward(edges)
    }

    ghost predicate Owns(node: Inode)
      reads this, node
    {
      node.ino in inodeMap && inodeMap[node.ino] == node
    }

    ghost function View(): State
      reads this, heap
      requires Table(edges)
    {
      State(map i | i in inodeMap :: Node(inodeMap[i].ref, inodeMap[i].fds), edges, nulls)
    }

    constructor (dir: string)
      ensures Valid() && View() == INITIAL && basedir == dir
      ensures fresh(heap)
    {
      basedir := dir;
      root := new Inode(ROOT);
      edges, nulls := map[], {};
      heap := {root};
      new;
      inodeMap := map[ROOT := root];
      root.ref := 1;
    }

    ghost predicate Tabled(node: Inode)
      reads this`inodeMap
    {
      exists i | i in inodeMap :: inodeMap[i] == node
    }

    static ghost predicate PointsAt(node: Inode, s: Slot, target: Inode)
      reads node`dentries, node`parents
    {
      || (s.name in node.dentries && node.dentries[s.name] == target)
      || (s in node.parents && node.parents[s] == target)
    }

    // ---------- the primitives ----------

    method EraseDentry(pin: Inode, dname: string, ghost e: Edges)
      requires Table(e) && Forward(e) && Owns(pin)
      modifies pin`dentries
      ensures Table(e - {Slot(pin.ino, dname)}) && Forward(e - {Slot(pin.ino, dname)})
    {
      pin.dentries := pin.dentries - {dname};
      ghost var f := e - {Slot(pin.ino, dname)};
      assert Table(f) by {
        assert forall s | s in f :: f[s] == e[s];
      }
      forall s | s in f
        ensures Listed(f, s)
      {
        assert old(Listed(e, s));
      }
    }

    method EraseParent(node: Inode, slot: Slot, ghost e: Edges)
      requires Table(e) && Backward(e) && Owns(node)
      requires slot in e && e[slot] == node.ino
      modifies node`parents
      ensures Table(e - {slot}) && Backward(e - {slot})
    {
      node.parents := node.parents - {slot};
      ghost var f := e - {slot};
      assert Table(f) by {
        assert forall s | s in f :: f[s] == e[s];
      }
      forall s | s in f
        ensures BackLinked(f, s)
      {
        assert old(BackLinked(e, s));
      }
    }

    /** The first write of a new entry. If `ok`, `dentries` held exactly `e`. */
    method PutDentry(pin: Inode, dname: string, node: Inode, ghost ok: bool, ghost e: Edges)
      requires ok ==> Table(e) && Forward(e) && Owns(pin) && Owns(node)
      modifies pin`dentries
      ensures pin.dentries == old(pin.dentries)[dname := node]
      ensures ok ==> Table(e[Slot(pin.ino, dname) := node.ino]) && Forward(e[Slot(pin.ino, dname) := node.ino])
    {
      pin.dentries := pin.dentries[dname := node];
      if ok {
        ghost var f := e[Slot(pin.ino, dname) := node.ino];
        assert Table(f) by {
          assert forall s | s in f && s != Slot(pin.ino, dname) :: f[s] == e[s];
        }
        forall s | s in f
          ensures Listed(f, s)
        {
          assert s != Slot(pin.ino, dname) ==> old(Listed(e, s));
        }
      }
    }

    /** The second write. If `ok`, `parents` held exactly `e`. */
    method PutParent(node: Inode, slot: Slot, pin: Inode, ghost ok: bool, ghost e: Edges)
      requires ok ==> Table(e) && Backward(e) && Owns(pin) && Owns(node) && slot !in e && slot.dir == pin.ino
      modifies node`parents
      ensures node.parents == old(node.parents)[slot := pin]
      ensures ok ==> Table(e[slot := node.ino]) && Backward(e[slot := node.ino])
    {
      node.parents := node.parents[slot := pin];
      if ok {
        ghost var f := e[slot := node.ino];
        assert Table(f) by {
          assert forall s | s in f && s != slot :: f[s] == e[s];
        }
        forall s | s in f
          ensures BackLinked(f, s)
        {
          assert s != slot ==> old(BackLinked(e, s));
        }
      }
    }

    method RemoveDentry(pin: Inode, dname: string)
      requires Valid() && Owns(pin) && dname in pin.dentries
      modifies pin`dentries, heap`parents, this`edges
      ensures Valid()
      ensures edges == old(edges) - {Slot(pin.ino, dname)}
    {
      var node, slot := pin.dentries[dname], Slot(pin.ino, dname);
      ghost var e := edges;
      assert slot in e && Listed(e, slot) && node == inodeMap[e[slot]];
      EraseDentry(pin, dname, e);
      EraseParent(node, slot, e);
      edges := e - {slot};
    }

    method AddDentry(parent: Inode, dname: string, node: Inode)
      requires Valid() && Owns(parent) && Owns(node)
      modifies parent`dentries, heap`parents, this`edges
      ensures Valid()
      ensures edges == old(edges)[Slot(parent.ino, dname) := node.ino]
    {
      if dname in parent.dentries {
        RemoveDentry(parent, dname);
      }
      InsertDentry(parent, dname, node, true);
    }

    /** Both writes of a new entry. If `ok`, the maps were mirrored before, and
        are afterwards. */
    method InsertDentry(parent: Inode, dname: string, node: Inode, ghost ok: bool)
      requires ok ==> Valid() && Owns(parent) && Owns(node)
      requires dname !in parent.dentries
      modifies parent`dentries, node`parents, this`edges
      ensures parent.dentries == old(parent.dentries)[dname := node]
      ensures node.parents == old(node.parents)[Slot(parent.ino, dname) := parent]
      ensures ok ==> Valid() && edges == old(edges)[Slot(parent.ino, dname) := node.ino]
    {
      ghost var e := edges;
      var slot := Slot(parent.ino, dname);
      assert ok && slot in e ==> Listed(e, slot);
      PutDentry(parent, dname, node, ok, e);
      PutParent(node, slot, parent, ok, e);
      edges := e[slot := node.ino];
    }

    /** Remove the entry behind the first key of `parents`. */
    method PopParent(node: Inode) returns (ghost first: Slot)
      requires Valid() && Owns(node) && node.parents != map[]
      modifies heap`parents, heap`dentries, this`edges
      ensures Valid()
      ensures first in old(edges) && old(edges)[first] == node.ino
      ensures edges == old(edges) - {first}
    {
      var key: Slot := FirstParent(node);
      var parent, dname := node.parents[key], key.name;
      assert BackLinked(edges, key) && Listed(edges, key);
      RemoveDentry(parent, dname);
      first := key;
    }

    /** Remove every entry that names `node`. */
    method CutParents(node: Inode)
      requires Valid() && Owns(node)
      modifies heap`parents, heap`dentries, this`edges
      ensures Valid()
      ensures edges == map s | s in old(edges) && old(edges)[s] != node.ino :: old(edges)[s]
    {
      while node.parents != map[]
        invariant Valid() && Owns(node)
        invariant forall s | s in edges :: s in old(edges) && edges[s] == old(edges)[s]
        invariant forall s | s in old(edges) && old(edges)[s] != node.ino :: s in edges
        decreases |edges|
      {
        ghost var first := PopParent(node);
      }
      forall s | s in edges
        ensures edges[s] != node.ino
      {
        assert BackLinked(edges, s);
      }
    }

    /** Remove the entries of `node` itself. */
    method CutChildren(node: Inode)
      requires Valid() && Owns(node)
      modifies heap`parents, node`dentries, this`edges
      ensures Valid()
      ensures edges == map s | s in old(edges) && s.dir != node.ino :: old(edges)[s]
    {
      while node.dentries != map[]
        invariant Valid() && Owns(node)
        invariant forall s | s in edges :: s in old(edges) && edges[s] == old(edges)[s]
        invariant forall s | s in old(edges) && s.dir != node.ino :: s in edges
        decreases |edges|
      {
        var dname :| dname in node.dentries;
        assert Slot(node.ino, dname) in edges;
        RemoveDentry(node, dname);
      }
      forall s | s in edges
        ensures s.dir != node.ino
      {
        assert Listed(edges, s);
      }
    }

    /** Cut the inode out: its parents, then its children, then its descriptors. */
    method UnlinkInode(node: Inode)
      requires Valid() && Owns(node)
      modifies heap`parents, heap`dentries, node`fds, this`edges
      ensures Valid()
      ensures edges == Isolate(old(edges), node.ino)
      ensures node.fds == {}
    {
      CutParents(node);
      CutChildren(node);
      CloseFds(node);
    }

    method CloseFds(node: Inode)
      modifies node`fds
      ensures node.fds == {}
    {
      var open := node.fds;
      while open != {}
        invariant node.fds == open
        decreases |open|
      {
        var fd := AnyOf(open);
        open := open - {fd};
        node.fds := open;
      }
    }

    method AnyOf<T>(fds: set<T>) returns (fd: T)
      requires fds != {}
      ensures fd in fds
    {
      fd :| fd in fds;
    }

    /** The first key of `parents`. */
    method FirstParent(node: Inode) returns (k: Slot)
      requires node.parents != map[]
      ensures k in node.parents && IsFirst(node.parents.Keys, k)
    {
      ghost var first := FirstExists(node.parents.Keys);
      assert first in node.parents;
      k :| k in node.parents.Keys && IsFirst(node.parents.Keys, k);
    }

    method RemoveInode(node: Inode)
      requires Valid() && Owns(node) && node.ino != ROOT
      modifies heap`parents, heap`dentries, node`fds, this`edges, this`inodeMap
      ensures Valid()
      ensures View() == Drop(old(View()), node.ino)
    {
      UnlinkInode(node);
      label Cut:
      inodeMap := inodeMap - {node.ino};
      assert Table(edges);
      forall s | s in edges
        ensures Listed(edges, s) && BackLinked(edges, s)
      {
        assert old@Cut(Listed(edges, s)) && old@Cut(BackLinked(edges, s));
      }
    }

    // ---------- paths ----------

    /** Build the path of `node` by climbing first parents. It fails exactly
        when the chain ends at a parentless inode other than the root. */
    method MakeInodePath(node: Inode, ghost rank: Ino -> nat) returns (ok: bool, buf: string)
      requires Valid() && Owns(node) && Ranked(edges, rank)
      ensures ok <==> HasPath(edges, node.ino)
      ensures ok ==> Spells(edges, basedir, node.ino, buf)
      decreases rank(node.ino)
    {
      ParentKeys(node);
      if node.parents != map[] {
        var first := FirstParent(node);
        assert BackLinked(edges, first);
        ok, buf := MakeInodePath(node.parents[first], rank);
        HasPathStep(edges, node.ino, first);
        if ok {
          SpellsStep(edges, basedir, node.ino, first, buf);
          buf := buf + "/" + first.name;
        }
      } else {
        ok := node == root;
        buf := if ok then basedir + "/" else "";
        HasPathTop(edges, node.ino);
      }
    }

    lemma ParentKeys(node: Inode)
      requires Valid() && Owns(node)
      ensures node.parents.Keys == ParentSlots(edges, node.ino)
    {
      forall s | s in ParentSlots(edges, node.ino)
        ensures s in node.parents
      {
        assert BackLinked(edges, s);
      }
    }

    /** The path of an entry `name` below `node`. */
    method EntryPath(node: Inode, name: string) returns (ok: bool, path: string)
      requires Valid() && Owns(node) && Acyclic(edges)
      ensures ok <==> HasPath(edges, node.ino)
      ensures ok ==> exists names :: Walk(edges, ROOT, names) == Some(node.ino)
                                     && path == basedir + "/" + Render(names + [name])
    {
      ghost var rank: Ino -> nat :| Ranked(edges, rank);
      ok, path := MakeInodePath(node, rank);
      if ok {
        ghost var chain :| Climbs(edges, node.ino, chain, ROOT) && path == basedir + "/" + Render(NamesDown(chain));
        RenderAppend(basedir + "/", NamesDown(chain), name);
        path := path + "/" + name;
        ClimbWalksBack(edges, node.ino, chain, ROOT);
      }
    }

    // ---------- new entries ----------

    ghost predicate Spare(number: Ino)
      reads this
    {
      SpareIn(inodeMap.Keys, edges, number)
    }

    /** Put a new inode into the table under `number`, whatever was there. */
    method Allocate(number: Ino) returns (node: Inode)
      requires Valid()
      modifies this`inodeMap, this`nulls, this`heap
      ensures fresh(node) && node.ino == number && node.ref == 0 && node.fds == {}
      ensures node.parents == map[] && node.dentries == map[] && nulls == old(nulls) - {number}
      ensures inodeMap == old(inodeMap)[number := node] && heap == old(heap) + {node}
      ensures number in old(inodeMap) ==> !Tabled(old(inodeMap)[number])
      ensures old(Spare(number)) ==> Valid()
      ensures old(Spare(number)) ==> View() == State(old(View()).nodes[number := Node(0, {})], edges, nulls)
    {
      node := new Inode(number);
      inodeMap, nulls := inodeMap[number := node], nulls - {number};
      heap := heap + {node};
      if old(Spare(number)) {
        assert Table(edges);
        forall s | s in edges
          ensures Listed(edges, s) && BackLinked(edges, s)
        {
          assert old(Listed(edges, s)) && old(BackLinked(edges, s));
        }
      }
    }

    /** Cut a cached inode out so that its number can be entered again. */
    method Reuse(node: Inode)
      requires Valid() && Owns(node)
      modifies this`edges, heap`parents, heap`dentries, node`fds
      ensures Valid()
      ensures node.ino in old(View()).nodes
      ensures View() == State(old(View()).nodes[node.ino := Node(node.ref, {})], Isolate(old(edges), node.ino), nulls)
    {
      UnlinkInode(node);
    }

    method Fresh(number: Ino) returns (node: Inode)
      requires Valid() && number !in inodeMap && number !in nulls
      modifies this`inodeMap, this`nulls, this`heap
      ensures Valid() && Owns(node) && node.ino == number
      ensures inodeMap == old(inodeMap)[number := node] && heap == old(heap) + {node} && fresh(node)
      ensures View() == State(old(View()).nodes[number := Node(0, {})], Isolate(old(edges), number), old(nulls))
    {
      node := Allocate(number);
      assert Isolate(edges, number) == edges;
    }

    method Attach(parent: Inode, dname: string, node: Inode)
      requires Valid() && Owns(parent) && Owns(node)
      modifies parent`dentries, heap`parents, this`edges
      ensures Valid()
      ensures View() == old(View()).(edges := old(edges)[Slot(parent.ino, dname) := node.ino])
    {
      AddDentry(parent, dname, node);
    }

    method Enter(parent: Inode, name: string, number: Ino) returns (node: Inode)
      requires Valid() && Owns(parent) && number !in nulls
      modifies this`inodeMap, this`nulls, this`heap, this`edges, heap`parents, heap`dentries, heap`fds
      ensures Valid() && Owns(node) && node.ino == number
      ensures old(heap) <= heap && fresh(heap - old(heap))
      ensures View() == Added(old(View()), Slot(parent.ino, name), number)
    {
      if number in inodeMap {
        node := inodeMap[number];
        Reuse(node);
      } else {
        node := Fresh(number);
      }
      Attach(parent, name, node);
    }

    /** Enter `number` under `parent`, reusing the inode that the table has for it.
        If that is a null pointer, nothing is returned: the program ends. */
    method AddInode(parent: Inode, name: string, number: Ino) returns (node: Option<Inode>)
      requires Valid() && Owns(parent)
      modifies this`inodeMap, this`nulls, this`heap, this`edges, heap`parents, heap`dentries, heap`fds
      ensures node.Some? <==> number !in old(nulls)
      ensures Valid() && old(heap) <= heap && fresh(heap - old(heap))
      ensures node.Some? ==> Owns(node.value) && node.value.ino == number
      ensures View() == if node.Some? then Added(old(View()), Slot(parent.ino, name), number) else old(View())
    {
      if number in nulls {
        return None;
      }
      var entered := Enter(parent, name, number);
      node := Some(entered);
    }

    /** Some edge relation is stored in both directions on the table's inodes. */
    ghost predicate Mirrored()
      reads this`root, this`inodeMap, this`heap, heap`ino, heap`dentries, heap`parents
    {
      exists e: Edges :: Table(e) && Forward(e) && Backward(e)
    }

    lemma PointerOutUnmirrors(node: Inode, s: Slot, lost: Inode)
      requires Tabled(node) && PointsAt(node, s, lost) && !Tabled(lost)
      ensures !Mirrored()
    {
      var i :| i in inodeMap && inodeMap[i] == node;
      forall e: Edges | Table(e)
        ensures !(Forward(e) && Backward(e))
      {
        if s.name in node.dentries && node.dentries[s.name] == lost {
          assert Slot(i, s.name) in e ==> !Listed(e, Slot(i, s.name));
        } else {
          assert s in e && e[s] == i ==> !BackLinked(e, s);
        }
      }
    }

    /** The other end of an edge at a number that is not spare. */
    lemma Neighbour(number: Ino) returns (other: Inode, s: Slot)
      requires Valid() && Acyclic(edges) && number in inodeMap && number != ROOT && !Spare(number)
      ensures Owns(other) && other.ino != number && PointsAt(other, s, inodeMap[number])
    {
      s :| s in edges && (s.dir == number || edges[s] == number);
      var rank: Ino -> nat :| Ranked(edges, rank);
      assert Listed(edges, s) && BackLinked(edges, s) && rank(s.dir) < rank(edges[s]);
      other := if s.dir == number then inodeMap[edges[s]] else inodeMap[s.dir];
    }

    /** Install a fresh inode under `number` and enter it under `parent`. If `ok`,
        nothing that the maps mirror is overwritten. */
    method Install(parent: Inode, name: string, number: Ino, ghost ok: bool) returns (node: Inode)
      requires Valid() && Owns(parent) && name !in parent.dentries
      requires ok ==> Spare(number) && number != parent.ino
      modifies this`inodeMap, this`nulls, this`heap, this`edges, parent`dentries
      ensures fresh(node) && node.ino == number && node.ref == 0 && node.fds == {}
      ensures node.parents == map[Slot(parent.ino, name) := parent]
      ensures inodeMap == old(inodeMap)[number := node] && heap == old(heap) + {node}
      ensures parent.dentries == old(parent.dentries)[name := node]
      ensures number in old(inodeMap) ==> !Tabled(old(inodeMap)[number])
      ensures ok ==> Valid() && View() == State(old(View()).nodes[number := Node(0, {})],
                                                old(edges)[Slot(parent.ino, name) := number], old(nulls) - {number})
    {
      node := Allocate(number);
      ghost var nodes := if ok then View().nodes else map[];
      InsertDentry(parent, name, node, ok);
      assert ok ==> View().nodes == nodes;
    }

    /** A lookup that misses installs a fresh inode without asking whether the
        number is cached. The two maps stay mirrored exactly when the number is
        spare and not the directory's own. */
    method LookupMiss(parent: Inode, name: string, number: Ino) returns (node: Inode)
      requires Valid() && Owns(parent) && name !in parent.dentries && Acyclic(edges)
      modifies this`inodeMap, this`nulls, this`heap, this`edges, parent`dentries
      ensures Mirrored() <==> old(Spare(number)) && number != parent.ino
      ensures fresh(node) && node.ino == number && node.ref == 0 && node.fds == {}
      ensures inodeMap == old(inodeMap)[number := node] && heap == old(heap) + {node}
      ensures Mirrored() ==>
                Valid() && View() == State(old(View()).nodes[number := Node(0, {})],
                                           old(edges)[Slot(parent.ino, name) := number], old(nulls) - {number})
    {
      ghost var ok := Spare(number) && number != parent.ino;
      ghost var lost, other, s := parent, parent, Slot(parent.ino, name);
      if !ok && number != ROOT && number != parent.ino {
        lost := inodeMap[number];
        other, s := Neighbour(number);
      }
      node := Install(parent, name, number, ok);
      if ok {
        assert Mirrored();
      } else if number == ROOT {
        assert forall e: Edges :: !Table(e);
      } else {
        if number == parent.ino {
          other := node;
        }
        assert inodeMap[other.ino] == other && PointsAt(other, s, lost);
        PointerOutUnmirrors(other, s, lost);
      }
    }

    // ---------- the handlers ----------

    ghost predicate Ready()
      reads this, heap
    {
      Valid() && Inv(View())
    }

    method SetNode(node: Inode, ref: int, fds: set<int>)
      requires Valid() && Owns(node)
      modifies node`ref, node`fds
      ensures Valid() && node.ref == ref && node.fds == fds
      ensures View() == old(View()).(nodes := old(View()).nodes[node.ino := Node(ref, fds)])
    {
      node.ref, node.fds := ref, fds;
    }

    /** Does path building succeed for the inode under `i`? */
    method Resolves(i: Ino) returns (ok: bool)
      requires Ready() && i in inodeMap
      ensures ok <==> HasPath(View().edges, i)
      ensures View() == old(View())
    {
      var path;
      ok, path := EntryPath(inodeMap[i], "");
    }

    /** One more reference. If `ok`, the maps are mirrored. */
    method Reference(node: Inode, ghost ok: bool)
      requires ok ==> Valid() && Owns(node)
      modifies node`ref
      ensures node.ref == old(node.ref) + 1 && Mirrored() == old(Mirrored())
      ensures ok ==> Valid() && node.ino in old(View()).nodes && View() == Held(old(View()), node.ino)
    {
      node.ref := node.ref + 1;
    }

    static lemma UpdateTwice(nodes: map<Ino, Node>, i: Ino, a: Node, b: Node)
      ensures nodes[i := a][i := b] == nodes[i := b]
    {
    }

    method CacheMiss(parent: Inode, name: string, number: Ino)
      requires Valid() && Owns(parent) && Slot(parent.ino, name) !in edges && Acyclic(edges)
      modifies this`inodeMap, this`nulls, this`heap, this`edges, parent`dentries
      ensures fresh(heap - old(heap))
      ensures Mirrored() <==> old(Spare(number)) && number != parent.ino
      ensures Mirrored() ==> Valid() && View() == Missed(old(View()), Slot(parent.ino, name), number)
    {
      ghost var nodes := View().nodes;
      ghost var ok := Spare(number) && number != parent.ino;
      var node := LookupMiss(parent, name, number);
      Reference(node, ok);
      UpdateTwice(nodes, number, Node(0, {}), Node(1, {}));
    }

    /** A cached entry is stat'ed again, which overwrites the number it carries. */
    method CacheHit(node: Inode, number: Ino)
      requires Valid() && Owns(node)
      modifies node`ino, node`ref
      ensures Mirrored() <==> number == old(node.ino)
      ensures Mirrored() ==> Valid() && number in old(View()).nodes && View() == Held(old(View()), number)
    {
      ghost var i := node.ino;
      ghost var ok := number == i;
      assert inodeMap[i] == node;
      node.ino := number;
      Reference(node, ok);
      if !ok {
        assert forall e: Edges :: !Table(e);
      }
    }

    method CacheMade(pin: Inode, name: string, number: Ino, fds: set<int>) returns (alive: bool)
      requires Valid() && Owns(pin)
      modifies this`inodeMap, this`nulls, this`heap, this`edges, heap`parents, heap`dentries, heap`fds, heap`ref
      ensures alive <==> number !in old(nulls)
      ensures Valid() && fresh(heap - old(heap))
      ensures View() == if alive then Entered(old(View()), Slot(pin.ino, name), number, fds) else old(View())
    {
      var node := AddInode(pin, name, number);
      alive := node.Some?;
      if alive {
        SetNode(node.value, node.value.ref + 1, fds);
      }
    }

    method CacheLink(newpin: Inode, newname: string, node: Inode)
      requires Valid() && Owns(newpin) && Owns(node)
      modifies newpin`dentries, heap`parents, this`edges, node`ref, node`fds
      ensures Valid()
      ensures node.ino in old(View()).nodes
      ensures View() == Held(old(View()), node.ino).(edges := old(edges)[Slot(newpin.ino, newname) := node.ino])
    {
      Attach(newpin, newname, node);
      SetNode(node, node.ref + 1, node.fds);
    }

    method CacheUnlink(pin: Inode, name: string)
      requires Valid() && Owns(pin)
      modifies pin`dentries, heap`parents, this`edges
      ensures Valid()
      ensures View() == old(View()).(edges := old(edges) - {Slot(pin.ino, name)})
    {
      assert Slot(pin.ino, name) in edges ==> Listed(edges, Slot(pin.ino, name));
      if name in pin.dentries {
        RemoveDentry(pin, name);
      }
    }

    method CacheGuard(pin: Inode, name: string, paranoia: int)
      requires Ready() && Owns(pin)
      modifies heap`ref, heap`fds
      ensures Valid()
      ensures View() == Guarded(old(View()), Slot(pin.ino, name), paranoia)
    {
      assert Slot(pin.ino, name) in edges ==> Listed(edges, Slot(pin.ino, name));
      if name in pin.dentries && pin.dentries[name].fds == {} && paranoia > 0 {
        var node := pin.dentries[name];
        SetNode(node, node.ref, {paranoia});
      }
    }

    method CacheRename(pin: Inode, name: string, newpin: Inode, newname: string)
      requires Valid() && Owns(pin) && Owns(newpin) && name in pin.dentries
      modifies heap`dentries, heap`parents, this`edges
      ensures Valid()
      ensures Slot(pin.ino, name) in old(edges)
      ensures View() == old(View()).(edges :=
                old(edges)[Slot(newpin.ino, newname) := old(edges)[Slot(pin.ino, name)]] - {Slot(pin.ino, name)})
    {
      assert Listed(edges, Slot(pin.ino, name));
      AddDentry(newpin, newname, pin.dentries[name]);
      assert Listed(edges, Slot(pin.ino, name));
      RemoveDentry(pin, name);
    }

    /** A lookup has the prescribed effect, and the maps stay mirrored, exactly
        when the backing file system answered honestly. */
    method HandleLookup(dir: Ino, name: string, perm: bool, stat: Option<Ino>) returns (reply: Option<Ino>)
      requires Ready() && Named(View(), Lookup(dir, name, perm, stat))
      modifies this, heap
      ensures fresh(heap - old(heap))
      ensures Mirrored() <==> Honest(old(View()), Lookup(dir, name, perm, stat))
      ensures Mirrored() ==> Valid() && View() == Apply(old(View()), Lookup(dir, name, perm, stat))
      ensures reply == Reply(old(View()), Lookup(dir, name, perm, stat))
    {
      if !perm {
        return None;
      }
      var parent := inodeMap[dir];
      var ok := Resolves(dir);
      if !ok || stat.None? {
        return None;
      }
      assert Slot(dir, name) in edges ==> Listed(edges, Slot(dir, name));
      if name in parent.dentries {
        CacheHit(parent.dentries[name], stat.value);
      } else {
        CacheMiss(parent, name, stat.value);
      }
      reply := stat;
    }

    method HandleForget(i: Ino, count: nat)
      requires Ready()
      modifies this, heap
      ensures Valid() && heap == old(heap)
      ensures View() == Apply(old(View()), Forget(i, count))
    {
      if i != ROOT && i !in inodeMap {
        nulls := nulls + {i};
      } else if i != ROOT {
        var node := inodeMap[i];
        SetNode(node, node.ref - count, node.fds);
        if node.ref <= 0 {
          RemoveInode(node);
        }
      }
    }

    /** mknod, mkdir and symlink (no handle), and create (the handle it opened). */
    method HandleMake(dir: Ino, name: string, made: Option<Ino>, handle: Option<int>)
      returns (alive: bool, reply: Option<Ino>)
      requires Ready() && Named(View(), Make(dir, name, made, handle))
      modifies this, heap
      ensures Valid() && fresh(heap - old(heap))
      ensures alive <==> !Crashes(old(View()), Make(dir, name, made, handle))
      ensures View() == if alive then Apply(old(View()), Make(dir, name, made, handle)) else old(View())
      ensures alive ==> reply == Reply(old(View()), Make(dir, name, made, handle))
    {
      var ok := Resolves(dir);
      if !ok || made.None? {
        return true, None;
      }
      alive := CacheMade(inodeMap[dir], name, made.value, Fds(handle));
      reply := made;
    }

    method HandleLink(i: Ino, newdir: Ino, newname: string, ok: bool) returns (reply: Option<Ino>)
      requires Ready() && Named(View(), Link(i, newdir, newname, ok))
      modifies this, heap
      ensures Valid() && heap == old(heap)
      ensures View() == Apply(old(View()), Link(i, newdir, newname, ok))
      ensures reply == Reply(old(View()), Link(i, newdir, newname, ok))
    {
      var found := Resolves(i);
      var newfound := Resolves(newdir);
      if !found || !newfound || !ok {
        return None;
      }
      CacheLink(inodeMap[newdir], newname, inodeMap[i]);
      reply := Some(i);
    }

    method HandleUnlink(dir: Ino, name: string, perm: bool, paranoia: int, ok: bool)
      requires Ready() && Named(View(), Unlink(dir, name, perm, paranoia, ok))
      modifies this, heap
      ensures Valid() && heap == old(heap)
      ensures View() == Apply(old(View()), Unlink(dir, name, perm, paranoia, ok))
    {
      var pin := inodeMap[dir];
      var found := Resolves(dir);
      if found && perm {
        CacheGuard(pin, name, paranoia);
        if ok {
          CacheUnlink(pin, name);
        }
      }
    }

    method HandleRmdir(dir: Ino, name: string, ok: bool)
      requires Ready() && Named(View(), Rmdir(dir, name, ok))
      modifies this, heap
      ensures Valid() && heap == old(heap)
      ensures View() == Apply(old(View()), Rmdir(dir, name, ok))
    {
      var found := Resolves(dir);
      if found && ok {
        CacheUnlink(inodeMap[dir], name);
      }
    }

    method HandleRename(dir: Ino, name: string, newdir: Ino, newname: string, ok: bool)
      requires Ready() && Named(View(), Rename(dir, name, newdir, newname, ok))
      modifies this, heap
      ensures Valid() && heap == old(heap)
      ensures View() == Apply(old(View()), Rename(dir, name, newdir, newname, ok))
    {
      var pin := inodeMap[dir];
      var found := Resolves(dir);
      var newfound := Resolves(newdir);
      assert Slot(dir, name) in edges ==> Listed(edges, Slot(dir, name));
      if found && newfound && ok && name in pin.dentries {
        CacheRename(pin, name, inodeMap[newdir], newname);
      }
    }

    method HandleOpen(i: Ino, handle: Option<int>)
      requires Ready() && Named(View(), Open(i, handle))
      modifies this, heap
      ensures Valid() && heap == old(heap)
      ensures View() == Apply(old(View()), Open(i, handle))
    {
      var node := inodeMap[i];
      var found := Resolves(i);
      if found {
        SetNode(node, node.ref, node.fds + Fds(handle));
      }
    }

    method HandleRelease(i: Ino, fd: int)
      requires Ready() && Named(View(), Release(i, fd))
      modifies this, heap
      ensures Valid() && heap == old(heap)
      ensures View() == Apply(old(View()), Release(i, fd))
    {
      var node := inodeMap[i];
      SetNode(node, node.ref, node.fds - {fd});
    }

    /** One request. The mirrored maps survive it exactly when the backing file
        system answered honestly, whether or not it behaved safely, and the
        program does exactly when it does not meet a null pointer. */
    method Handle(r: Request) returns (alive: bool, reply: Option<Ino>)
      requires Ready() && Named(View(), r)
      modifies this, heap
      ensures fresh(heap - old(heap))
      ensures alive <==> !Crashes(old(View()), r)
      ensures Mirrored() <==> Honest(old(View()), r)
      ensures Mirrored() ==> Valid() && View() == if alive then Apply(old(View()), r) else old(View())
      ensures alive ==> reply == Reply(old(View()), r)
    {
      alive := true;
      reply := None;
      match r {
        case Lookup(d, n, perm, stat) => reply := HandleLookup(d, n, perm, stat);
        case Forget(i, count) => HandleForget(i, count);
        case Make(d, n, made, handle) => alive, reply := HandleMake(d, n, made, handle);
        case Link(i, d, n, ok) => reply := HandleLink(i, d, n, ok);
        case Unlink(d, n, perm, paranoia, ok) => HandleUnlink(d, n, perm, paranoia, ok);
        case Rmdir(d, n, ok) => HandleRmdir(d, n, ok);
        case Rename(d, n, nd, nn, ok) => HandleRename(d, n, nd, nn, ok);
        case Open(i, handle) => HandleOpen(i, handle);
        case Release(i, fd) => HandleRelease(i, fd);
      }
    }

    /** The session loop over any legal run of requests: in memory the two maps
        stay mirrored, the cache is in the state that the run prescribes, and
        the program gets through exactly when no request meets a null pointer. */
    method Serve(rs: seq<Request>) returns (alive: bool)
      requires Ready() && LegalRun(View(), rs)
      modifies this, heap
      ensures Ready() && fresh(heap - old(heap))
      ensures View() == Run(old(View()), rs)
      ensures alive <==> CrashFree(old(View()), rs)
    {
      alive := true;
      var k := 0;
      while k < |rs|
        invariant 0 <= k <= |rs|
        invariant Ready() && fresh(heap - old(heap))
        invariant LegalRun(View(), rs[k..])
        invariant Run(View(), rs[k..]) == Run(old(View()), rs)
        invariant CrashFree(View(), rs[k..]) == CrashFree(old(View()), rs)
      {
        ghost var s := View();
        assert rs[k..][0] == rs[k] && rs[k..][1..] == rs[k + 1..];
        StepKeepsInvIff(s, rs[k]);
        var reply;
        alive, reply := Handle(rs[k]);
        if !alive {
          return;
        }
        k := k + 1;
      }
    }
  }
}
