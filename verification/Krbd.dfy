/** Waiting for the kernel to announce a mapped RBD image: first its device on
    the rbd bus, then the block device with the same numbers. */
module Krbd {
  import opened Wrappers

  datatype Spec = Spec(pool: string, nspace: string, image: string, snap: string)

  const SNAP_HEAD_NAME: string := "-"
  const ADD: string := "add"
  const RBD: string := "rbd"
  const BLOCK: string := "block"

  function MakeSpec(pool: string, nspace: string, image: string, snap: string): Spec {
    Spec(pool, nspace, image, if snap != "" then snap else SNAP_HEAD_NAME)
  }

  /** A device as udev reports it: its action and subsystem, the attributes
      that sysfs may or may not have, its numbers and its names. */
  datatype Device = Device(action: string, subsystem: string,
                           pool: Option<string>, poolNs: Option<string>,
                           image: Option<string>, currentSnap: Option<string>,
                           major: string, minor: Option<string>,
                           propMajor: string, propMinor: string,
                           sysname: string, devnode: string)

  function SpecFromDev(dev: Device): (r: Option<Spec>)
    ensures r.None? <==> dev.pool.None? || dev.image.None? || dev.currentSnap.None?
    ensures r.Some? ==> r.value.snap != ""
  {
    if dev.pool.None? || dev.image.None? || dev.currentSnap.None? then None
    else Some(MakeSpec(dev.pool.value, if dev.poolNs.Some? then dev.poolNs.value else "",
                       dev.image.value, dev.currentSnap.value))
  }

  /** The head is shown as an empty snapshot name or as a dash. */
  predicate SameSnap(a: string, b: string) {
    a == b || (a in {"", SNAP_HEAD_NAME} && b in {"", SNAP_HEAD_NAME})
  }

  /** A device carries a spec exactly when its attributes are the spec's. */
  lemma SpecMatches(dev: Device, pool: string, nspace: string, image: string, snap: string)
    ensures SpecFromDev(dev) == Some(MakeSpec(pool, nspace, image, snap)) <==>
            && dev.pool == Some(pool) && dev.image == Some(image)
            && (dev.poolNs == Some(nspace) || (dev.poolNs.None? && nspace == ""))
            && dev.currentSnap.Some? && SameSnap(dev.currentSnap.value, snap)
  {
  }

  function KernelName(id: string): string {
    "/dev/rbd" + id
  }

  /** One turn of the loop: poll fails, nothing arrives, or a device arrives
      with a reference that the caller owns. */
  datatype Turn = PollError | Nothing | Received(dev: Device)

  predicate IsAdd(t: Turn) {
    t.Received? && t.dev.action == ADD
  }

  /** The image's device on the rbd bus. */
  predicate IsBus(t: Turn, spec: Spec) {
    IsAdd(t) && t.dev.subsystem == RBD && SpecFromDev(t.dev) == Some(spec)
  }

  predicate IsBlockAdd(t: Turn) {
    IsAdd(t) && t.dev.subsystem == BLOCK
  }

  /** A block device with the numbers of `bus`; the minor number counts only if
      the bus device shows one. */
  predicate SameNumbers(t: Turn, bus: Device)
    requires t.Received?
  {
    t.dev.propMajor == bus.major && (bus.minor.None? || t.dev.propMinor == bus.minor.value)
  }

  predicate IsBlock(t: Turn, bus: Device) {
    IsBlockAdd(t) && SameNumbers(t, bus)
  }

  datatype Outcome = Named(name: string) | Failed | Aborted | Waiting

  /** `b` is the first turn with the image's bus device. */
  ghost predicate FirstBus(turns: seq<Turn>, spec: Spec, b: nat) {
    b < |turns| && IsBus(turns[b], spec) && forall i | 0 <= i < b :: !IsBus(turns[i], spec)
  }

  /** The first `n` polls succeed. */
  ghost predicate Undisturbed(turns: seq<Turn>, n: nat) {
    n <= |turns| && forall i | 0 <= i < n :: !turns[i].PollError?
  }

  ghost predicate Before(turns: seq<Turn>, spec: Spec, n: nat) {
    n <= |turns| && forall i | 0 <= i < n :: !IsBus(turns[i], spec)
  }

  ghost predicate Matches(turns: seq<Turn>, spec: Spec, haveMinor: bool, b: nat, k: nat) {
    && FirstBus(turns, spec, b) && b < k < |turns|
    && IsBlock(turns[k], turns[b].dev)
    && (forall i | b < i < k :: !IsBlock(turns[i], turns[b].dev))
    && Undisturbed(turns, k + 1)
    && turns[b].dev.minor.Some? == haveMinor
    && turns[k].dev.devnode == KernelName(turns[b].dev.sysname)
  }

  /** What is looked for on the bus, in the attributes of the device. */
  lemma BusMeaning(t: Turn, pool: string, nspace: string, image: string, snap: string)
    ensures IsBus(t, MakeSpec(pool, nspace, image, snap)) <==>
            && t.Received? && t.dev.action == "add" && t.dev.subsystem == "rbd"
            && t.dev.pool == Some(pool) && t.dev.image == Some(image)
            && (t.dev.poolNs == Some(nspace) || (t.dev.poolNs.None? && nspace == ""))
            && t.dev.currentSnap.Some?
            && (t.dev.currentSnap.value == snap || {t.dev.currentSnap.value, snap} == {"", "-"})
  {
    if t.Received? {
      SpecMatches(t.dev, pool, nspace, image, snap);
      if t.dev.currentSnap.Some? {
        var shown := t.dev.currentSnap.value;
        assert {shown, snap} == {"", "-"} <==> (shown == "" && snap == "-") || (shown == "-" && snap == "") by {
          if {shown, snap} == {"", "-"} {
            assert "" in {shown, snap} && "-" in {shown, snap} && "" != "-";
          }
        }
      }
    }
  }

  lemma BlockMeaning(t: Turn, bus: Device)
    ensures IsBlock(t, bus) <==>
            && t.Received? && t.dev.action == "add" && t.dev.subsystem == "block"
            && t.dev.propMajor == bus.major && (bus.minor == Some(t.dev.propMinor) || bus.minor.None?)
  {
  }

  /** A match in full: the first bus device of the image, then the first block device
      with its numbers, no error so far, a minor number shown exactly when one is
      expected, and the name that the kernel gives. */
  lemma MatchMeaning(turns: seq<Turn>, spec: Spec, haveMinor: bool, b: nat, k: nat)
    ensures Matches(turns, spec, haveMinor, b, k) <==>
            && b < k < |turns| && (forall i | 0 <= i <= k :: turns[i] != PollError)
            && IsBus(turns[b], spec) && (forall i | 0 <= i < b :: !IsBus(turns[i], spec))
            && IsBlock(turns[k], turns[b].dev) && (forall i | b < i < k :: !IsBlock(turns[i], turns[b].dev))
            && (haveMinor <==> turns[b].dev.minor.Some?)
            && turns[k].dev.devnode == "/dev/rbd" + turns[b].dev.sysname
  {
  }

  /** The references still held after `n` turns: only the bus device's. */
  ghost predicate Released(turns: seq<Turn>, unrefs: seq<nat>, n: nat, kept: Option<nat>) {
    && |unrefs| == |turns| && n <= |turns|
    && forall i | 0 <= i < |turns| ::
         unrefs[i] == if i < n && turns[i].Received? && kept != Some(i) then 1 else 0
  }

  function Unref(unrefs: seq<nat>, i: nat): seq<nat>
    requires i < |unrefs|
  {
    unrefs[i := unrefs[i] + 1]
  }

  /** What the first `n` turns have shown, none of them completing a match. */
  ghost predicate Scanned(turns: seq<Turn>, spec: Spec, haveMinor: bool, n: nat, bus: Option<nat>) {
    && Undisturbed(turns, n)
    && match bus
       case None => Before(turns, spec, n)
       case Some(b) =>
         && b < n && FirstBus(turns, spec, b)
         && (forall i | b < i < n :: !IsBlock(turns[i], turns[b].dev))
         && (turns[b].dev.minor.Some? != haveMinor ==> forall i | b < i < n :: !IsBlockAdd(turns[i]))
  }

  lemma MatchComesLater(turns: seq<Turn>, spec: Spec, haveMinor: bool, n: nat, bus: Option<nat>)
    requires Scanned(turns, spec, haveMinor, n, bus)
    ensures forall b: nat, k: nat | Matches(turns, spec, haveMinor, b, k) ::
              n <= k && (bus.Some? ==> b == bus.value)
  {
  }

  lemma ScanOn(turns: seq<Turn>, spec: Spec, haveMinor: bool, n: nat, bus: Option<nat>)
    requires Scanned(turns, spec, haveMinor, n, bus) && n < |turns| && !turns[n].PollError?
    requires match bus
             case None => !IsBus(turns[n], spec)
             case Some(b) => !IsBlock(turns[n], turns[b].dev)
                             && (turns[b].dev.minor.Some? != haveMinor ==> !IsBlockAdd(turns[n]))
    ensures Scanned(turns, spec, haveMinor, n + 1, bus)
  {
  }

  lemma ReleaseOne(turns: seq<Turn>, unrefs: seq<nat>, n: nat, bus: Option<nat>)
    requires Released(turns, unrefs, n, bus) && n < |turns| && turns[n].Received? && bus != Some(n)
    ensures Released(turns, Unref(unrefs, n), n + 1, bus)
  {
  }

  lemma ReleaseBus(turns: seq<Turn>, unrefs: seq<nat>, n: nat, b: nat)
    requires Released(turns, unrefs, n, Some(b)) && b < n && turns[b].Received?
    ensures Released(turns, Unref(unrefs, b), n, None)
  {
  }

  datatype Decision = Skip | TakeBus | Match | Abort

  /** What to do with a device that was received, given the bus device found. */
  method Consider(t: Turn, bus: Option<Device>, spec: Spec, haveMinor: bool) returns (d: Decision)
    requires t.Received?
    ensures d.TakeBus? <==> bus.None? && IsBus(t, spec)
    ensures d.Match? <==> bus.Some? && bus.value.minor.Some? == haveMinor && IsBlock(t, bus.value)
                          && t.dev.devnode == KernelName(bus.value.sysname)
    ensures d.Abort? <==> bus.Some? && IsBlockAdd(t) &&
                          (|| bus.value.minor.Some? != haveMinor
                           || (IsBlock(t, bus.value) && t.dev.devnode != KernelName(bus.value.sysname)))
  {
    var dev := t.dev;
    if dev.action != ADD {
      return Skip;
    }
    if bus.None? {
      if dev.subsystem == RBD {
        var current := SpecFromDev(dev);
        if current.Some? && current.value == spec {
          return TakeBus;
        }
      }
    } else if dev.subsystem == BLOCK {
      if bus.value.minor.None? == haveMinor {
        return Abort;
      }
      if dev.propMajor == bus.value.major && (bus.value.minor.None? || dev.propMinor == bus.value.minor.value) {
        return if dev.devnode == KernelName(bus.value.sysname) then Match else Abort;
      }
    }
    return Skip;
  }

  /** Names the image exactly when its bus device and then a block device with
      its numbers appear, before any error; then every device received by then
      has been unreferenced exactly once and no other was touched. A poll error
      after the bus device was found returns without releasing that device. */
  method WaitForUdevAdd(turns: seq<Turn>, spec: Spec, haveMinor: bool)
    returns (r: Outcome, unrefs: seq<nat>, stop: nat, bus: Option<nat>)
    ensures r.Named? ==> bus.Some? && Matches(turns, spec, haveMinor, bus.value, stop)
                         && r.name == "/dev/rbd" + turns[bus.value].dev.sysname == turns[stop].dev.devnode
    ensures r.Named? ==> Released(turns, unrefs, stop + 1, None)
    ensures |unrefs| == |turns| && forall i | 0 <= i < |turns| ::
              unrefs[i] == if turns[i].Received? && (if r.Named? then i <= stop else i < stop && bus != Some(i))
                           then 1 else 0
    ensures forall b: nat, k: nat | Matches(turns, spec, haveMinor, b, k) :: r.Named? && stop == k
    ensures !r.Named? ==> Scanned(turns, spec, haveMinor, stop, bus) && Released(turns, unrefs, stop, bus)
    ensures r.Failed? ==> stop < |turns| && turns[stop].PollError?
    ensures r.Waiting? ==> stop == |turns|
    ensures r.Aborted? ==>
              && stop < |turns| && IsBlockAdd(turns[stop]) && bus.Some?
              && var dev := turns[bus.value].dev;
                 || dev.minor.Some? != haveMinor
                 || (IsBlock(turns[stop], dev) && turns[stop].dev.devnode != KernelName(dev.sysname))
  {
    unrefs := seq(|turns|, i => 0);
    bus := None;
    stop := 0;
    while stop < |turns|
      invariant Scanned(turns, spec, haveMinor, stop, bus) && Released(turns, unrefs, stop, bus)
    {
      MatchComesLater(turns, spec, haveMinor, stop, bus);
      if turns[stop].PollError? {
        r := Failed;
        return;
      }
      if turns[stop].Nothing? {
        ScanOn(turns, spec, haveMinor, stop, bus);
        stop := stop + 1;
        continue;
      }
      var busDev := if bus.Some? then Some(turns[bus.value].dev) else None;
      var decision := Consider(turns[stop], busDev, spec, haveMinor);
      match decision {
        case TakeBus =>
          bus := Some(stop);
          stop := stop + 1;
          continue;
        case Abort =>
          r := Aborted;
          return;
        case Match =>
          ReleaseOne(turns, unrefs, stop, bus);
          unrefs := Unref(unrefs, stop);
          ReleaseBus(turns, unrefs, stop + 1, bus.value);
          unrefs := Unref(unrefs, bus.value);
          r := Named(KernelName(busDev.value.sysname));
          return;
        case Skip =>
      }
      ScanOn(turns, spec, haveMinor, stop, bus);
      ReleaseOne(turns, unrefs, stop, bus);
      unrefs := Unref(unrefs, stop);
      stop := stop + 1;
    }
    MatchComesLater(turns, spec, haveMinor, stop, bus);
    r := Waiting;
  }
}
