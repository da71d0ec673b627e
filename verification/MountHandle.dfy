/** The libcephfs mount handle: which of its three objects it owns, in what
    order it tears them down, and what each call of the interface keeps.
    Failures inside the objects arrive as the codes they returned. */
module MountHandle {
  import opened Wrappers

  const ENOTCONN: int := 107
  const EISCONN: int := 106
  const MON_MAP_BUILD: int := 1000
  const MESSENGER_START: int := 1003

  datatype Kind = Client | MonClient | Messenger

  datatype Object = Object(kind: Kind, id: nat)

  /** What happens to the objects, in order. */
  datatype Event =
    | Make(o: Object) | Delete(o: Object)
    | ClientInited | ClientMounted | ClientAborted | ClientUnmounted | ClientShutdown
    | MessengerShutdown | MessengerWait

  // ---------- what a log tells ----------

  ghost function Times(log: seq<Event>, e: Event): nat {
    if log == [] then 0 else Times(log[..|log| - 1], e) + if log[|log| - 1] == e then 1 else 0
  }

  /** How many objects were made. */
  ghost function Makes(log: seq<Event>): nat {
    if log == [] then 0 else Makes(log[..|log| - 1]) + if log[|log| - 1].Make? then 1 else 0
  }

  /** Replaying the client's events: is it initialised, is it mounted? */
  ghost function Replay(log: seq<Event>): (bool, bool) {
    if log == [] then (false, false) else Next(Replay(log[..|log| - 1]), log[|log| - 1])
  }

  ghost function Next(phase: (bool, bool), e: Event): (bool, bool) {
    match e
    case ClientInited => (true, phase.1)
    case ClientShutdown => (false, phase.1)
    case ClientMounted => (phase.0, true)
    case ClientAborted => (phase.0, false)
    case ClientUnmounted => (phase.0, false)
    case _ => phase
  }

  predicate TearsMessenger(e: Event) {
    e.MessengerShutdown? || e.MessengerWait? || (e.Delete? && e.o.kind.Messenger?)
  }

  predicate MadeLast(log: seq<Event>, kind: Kind) {
    log != [] && log[|log| - 1].Make? && log[|log| - 1].o.kind == kind
  }

  predicate DeletedLast(log: seq<Event>, kind: Kind) {
    log != [] && log[|log| - 1].Delete? && log[|log| - 1].o.kind == kind
  }

  predicate StoppedLast(log: seq<Event>) {
    |log| >= 2 && log[|log| - 2] == MessengerShutdown && log[|log| - 1] == MessengerWait
  }

  /** When an event may follow a log. Objects are made in the order monitor
      client, messenger, client, and a client is initialised right after it was
      made. A messenger is stopped, waited for and deleted at once, only while the
      handle's client is neither initialised nor mounted; a client is deleted
      right after its messenger and its monitor client. Only what is mounted is
      unmounted or aborted, and a client is shut down after its mount ended. */
  ghost predicate Allowed(log: seq<Event>, e: Event) {
    && (TearsMessenger(e) ==> Replay(log) == (false, false))
    && match e
       case Make(o) =>
         && (o.kind.Messenger? ==> MadeLast(log, MonClient))
         && (o.kind.Client? ==> MadeLast(log, Messenger))
       case Delete(o) =>
         && (o.kind.Messenger? ==> StoppedLast(log))
         && (o.kind.Client? ==> DeletedLast(log, MonClient) && DeletedLast(log[..|log| - 1], Messenger))
       case ClientInited => MadeLast(log, Client)
       case ClientMounted => Replay(log) == (true, false)
       case ClientAborted => Replay(log) == (true, true)
       case ClientUnmounted => Replay(log) == (true, true)
       case ClientShutdown => Replay(log) == (true, false)
       case MessengerShutdown => true
       case MessengerWait => log != [] && log[|log| - 1] == MessengerShutdown
  }

  ghost predicate Orderly(log: seq<Event>) {
    log != [] ==> Orderly(log[..|log| - 1]) && Allowed(log[..|log| - 1], log[|log| - 1])
  }

  lemma {:induction false} OrderlyAt(log: seq<Event>, i: nat)
    requires Orderly(log) && i < |log|
    ensures Allowed(log[..i], log[i])
  {
    if i < |log| - 1 {
      OrderlyAt(log[..|log| - 1], i);
      assert log[..|log| - 1][..i] == log[..i];
    }
  }

  /** Every deletion of a messenger comes directly after its shutdown and the wait
      for it. */
  ghost predicate Stopped(log: seq<Event>) {
    forall i | 0 <= i < |log| && log[i].Delete? && log[i].o.kind == Messenger ::
      i >= 2 && log[i - 2] == MessengerShutdown && log[i - 1] == MessengerWait
  }

  lemma OrderlyStops(log: seq<Event>)
    requires Orderly(log)
    ensures Stopped(log)
  {
    forall i | 0 <= i < |log| && log[i].Delete? && log[i].o.kind == Messenger
      ensures i >= 2 && log[i - 2] == MessengerShutdown && log[i - 1] == MessengerWait
    {
      OrderlyAt(log, i);
    }
  }

  /** Every mount is ended once, by an abort or by an unmount, but for the one
      that lasts. */
  lemma {:induction false} MountsEnd(log: seq<Event>)
    requires Orderly(log)
    ensures Times(log, ClientMounted) ==
            Times(log, ClientAborted) + Times(log, ClientUnmounted) + if Replay(log).1 then 1 else 0
  {
    if log != [] {
      MountsEnd(log[..|log| - 1]);
    }
  }

  /** How often a client was mounted, and how often aborted. */
  ghost function Tally(log: seq<Event>): (nat, nat) {
    (Times(log, ClientMounted), Times(log, ClientAborted))
  }

  /** The objects in `held` were made once and not deleted, every other object
      was deleted as often as it was made, and `next` is a new identity. */
  ghost predicate Ledger(log: seq<Event>, next: nat, held: set<Object>) {
    forall o: Object {:trigger Balanced(log, next, held, o)} :: Balanced(log, next, held, o)
  }

  ghost predicate Balanced(log: seq<Event>, next: nat, held: set<Object>, o: Object) {
    && Times(log, Make(o)) == Times(log, Delete(o)) + (if o in held then 1 else 0)
    && Times(log, Make(o)) <= (if o.id < next then 1 else 0)
  }

  ghost predicate Freed(log: seq<Event>, o: Object) {
    Times(log, Make(o)) == Times(log, Delete(o)) <= 1
  }

  ghost predicate Leaked(log: seq<Event>, o: Object) {
    Times(log, Make(o)) == 1 && Times(log, Delete(o)) == 0
  }

  lemma Append(log: seq<Event>, e: Event)
    ensures Replay(log + [e]) == Next(Replay(log), e)
    ensures Orderly(log) && Allowed(log, e) ==> Orderly(log + [e])
    ensures Tally(log + [e]) == (Tally(log).0 + (if e == ClientMounted then 1 else 0),
                                 Tally(log).1 + (if e == ClientAborted then 1 else 0))
    ensures forall x: Event :: Times(log + [e], x) == Times(log, x) + if e == x then 1 else 0
    ensures Makes(log + [e]) == Makes(log) + if e.Make? then 1 else 0
  {
    assert (log + [e])[..|log|] == log;
  }

  lemma LedgerMake(log: seq<Event>, next: nat, held: set<Object>, kind: Kind)
    requires Ledger(log, next, held)
    ensures Object(kind, next) !in held
    ensures Ledger(log + [Make(Object(kind, next))], next + 1, held + {Object(kind, next)})
  {
    var made := Object(kind, next);
    var after, more, limit := log + [Make(made)], held + {made}, next + 1;
    Append(log, Make(made));
    assert Balanced(log, next, held, made);
    forall o: Object
      ensures Balanced(after, limit, more, o)
    {
      assert Balanced(log, next, held, o);
    }
  }

  lemma LedgerDelete(log: seq<Event>, next: nat, held: set<Object>, gone: Object)
    requires Ledger(log, next, held) && gone in held
    ensures Ledger(log + [Delete(gone)], next, held - {gone})
  {
    Append(log, Delete(gone));
    forall o: Object
      ensures Balanced(log + [Delete(gone)], next, held - {gone}, o)
    {
      assert Balanced(log, next, held, o);
    }
  }

  lemma LedgerNote(log: seq<Event>, next: nat, held: set<Object>, e: Event)
    requires Ledger(log, next, held) && !e.Make? && !e.Delete?
    ensures Ledger(log + [e], next, held)
  {
    Append(log, e);
    forall o: Object
      ensures Balanced(log + [e], next, held, o)
    {
      assert Balanced(log, next, held, o);
    }
  }

  /** The codes that the pieces of initialisation return. */
  datatype InitCodes = InitCodes(bootstrap: int, build: int, start: int, init: int) {
    function Ret(): int {
      if bootstrap < 0 then bootstrap
      else if build < 0 then -MON_MAP_BUILD
      else if start != 0 then -MESSENGER_START
      else init
    }

    /** How many objects initialisation makes. */
    function Objects(): nat {
      if bootstrap < 0 then 0 else if build < 0 then 1 else 3
    }
  }

  // ---------- the calls as a protocol ----------

  datatype Call =
    | CallInit(codes: InitCodes)
    | CallMount(codes: InitCodes, mount: int)
    | CallUnmount | CallAbort
    | CallReclaim(codes: InitCodes, reclaim: int)

  datatype Phase = Phase(inited: bool, mounted: bool)

  const NEW_HANDLE := Phase(false, false)

  function Inited(p: Phase, codes: InitCodes): Phase {
    if codes.bootstrap < 0 then p else if codes.Ret() == 0 then Phase(true, p.mounted) else NEW_HANDLE
  }

  function Ready(p: Phase, codes: InitCodes): Phase {
    if p.inited then p else Inited(p, codes)
  }

  /** The phase that a call leads to. */
  function After(p: Phase, call: Call): Phase {
    match call
    case CallInit(codes) => Inited(p, codes)
    case CallMount(codes, mount) =>
      if p.mounted || !Ready(p, codes).inited then Ready(p, codes) else Phase(mount == 0, mount == 0)
    case CallUnmount => if p.mounted then NEW_HANDLE else p
    case CallAbort => p.(mounted := false)
    case CallReclaim(codes, _) => Ready(p, codes)
  }

  /** The code that a call returns. */
  function Code(p: Phase, call: Call): int {
    match call
    case CallInit(codes) => codes.Ret()
    case CallMount(codes, mount) =>
      if p.mounted then -EISCONN else if !p.inited && codes.Ret() != 0 then codes.Ret() else mount
    case CallUnmount => if p.mounted then 0 else -ENOTCONN
    case CallAbort => 0
    case CallReclaim(codes, reclaim) => if !p.inited && codes.Ret() != 0 then codes.Ret() else reclaim
  }

  /** How many objects a call makes. */
  function MadeBy(p: Phase, call: Call): nat {
    match call
    case CallInit(codes) => codes.Objects()
    case CallMount(codes, _) => if p.inited then 0 else codes.Objects()
    case CallReclaim(codes, _) => if p.inited then 0 else codes.Objects()
    case _ => 0
  }

  /** A call that makes new objects for a handle that has its own. */
  predicate Overwrites(p: Phase, call: Call) {
    call.CallInit? && p.inited && call.codes.bootstrap >= 0
  }

  /** The phase of a handle after the first `n` calls. */
  function PhaseAt(calls: seq<Call>, n: nat): Phase
    requires n <= |calls|
  {
    if n == 0 then NEW_HANDLE else After(PhaseAt(calls, n - 1), calls[n - 1])
  }

  /** What the first `n` calls return. */
  function Codes(calls: seq<Call>, n: nat): seq<int>
    requires n <= |calls|
  {
    if n == 0 then [] else Codes(calls, n - 1) + [Code(PhaseAt(calls, n - 1), calls[n - 1])]
  }

  /** How many objects the first `n` calls make. */
  function Made(calls: seq<Call>, n: nat): nat
    requires n <= |calls|
  {
    if n == 0 then 0 else Made(calls, n - 1) + MadeBy(PhaseAt(calls, n - 1), calls[n - 1])
  }

  /** How many of the first `n` calls mounted, and how many aborted a mount. */
  function Tallied(calls: seq<Call>, n: nat): (nat, nat)
    requires n <= |calls|
  {
    if n == 0 then (0, 0)
    else
      var before, p, call := Tallied(calls, n - 1), PhaseAt(calls, n - 1), calls[n - 1];
      (before.0 + (if call.CallMount? && Code(p, call) == 0 then 1 else 0),
       before.1 + (if call.CallAbort? && p.mounted then 1 else 0))
  }

  /** One of the first `n` calls overwrites. */
  predicate Reinits(calls: seq<Call>, n: nat)
    requires n <= |calls|
  {
    n > 0 && (Reinits(calls, n - 1) || Overwrites(PhaseAt(calls, n - 1), calls[n - 1]))
  }

  /** A call that ends a mount: an unmount, an abort, or an initialisation that
      fails past its bootstrap. */
  predicate Ends(call: Call) {
    call.CallUnmount? || call.CallAbort?
    || (call.CallInit? && call.codes.bootstrap >= 0 && call.codes.Ret() != 0)
  }

  /** The mount at `k` succeeded, and nothing up to `n` ended it. */
  ghost predicate MountHolds(calls: seq<Call>, k: nat, n: nat)
    requires k < n <= |calls|
  {
    && calls[k].CallMount? && Code(PhaseAt(calls, k), calls[k]) == 0
    && forall j | k < j < n :: !Ends(calls[j])
  }

  lemma {:induction false} MountedIsInited(calls: seq<Call>, n: nat)
    requires n <= |calls|
    ensures PhaseAt(calls, n).mounted ==> PhaseAt(calls, n).inited
  {
    if n > 0 {
      MountedIsInited(calls, n - 1);
    }
  }

  /** Over every run of calls: a handle is mounted exactly when some mount
      returned success and no later call ended it. */
  lemma {:induction false} MountedSince(calls: seq<Call>, n: nat)
    requires n <= |calls|
    ensures PhaseAt(calls, n).mounted <==> exists k | 0 <= k < n :: MountHolds(calls, k, n)
  {
    if n > 0 {
      MountedIsInited(calls, n - 1);
      MountedSince(calls, n - 1);
      if PhaseAt(calls, n).mounted {
        if PhaseAt(calls, n - 1).mounted {
          var k :| 0 <= k < n - 1 && MountHolds(calls, k, n - 1);
          assert MountHolds(calls, k, n);
        } else {
          assert MountHolds(calls, n - 1, n);
        }
      } else if exists k | 0 <= k < n :: MountHolds(calls, k, n) {
        var k :| 0 <= k < n && MountHolds(calls, k, n);
        assert k < n - 1 ==> MountHolds(calls, k, n - 1);
      }
    }
  }

  /** A call that initialises the handle: an initialisation that succeeds, or a
      mount or a reclaim that succeeds with the one it needs. */
  predicate Starts(p: Phase, call: Call) {
    match call
    case CallInit(codes) => codes.Ret() == 0
    case CallMount(codes, mount) => !p.inited && !p.mounted && codes.Ret() == 0 && mount == 0
    case CallReclaim(codes, _) => !p.inited && codes.Ret() == 0
    case _ => false
  }

  /** A call that shuts the handle down: the end of a mount, a mount that fails,
      or an initialisation that fails past its bootstrap. */
  predicate Stops(p: Phase, call: Call) {
    match call
    case CallInit(codes) => codes.bootstrap >= 0 && codes.Ret() != 0
    case CallMount(_, mount) => p.inited && !p.mounted && mount != 0
    case CallUnmount => p.mounted
    case _ => false
  }

  predicate StartsAt(calls: seq<Call>, k: nat)
    requires k < |calls|
  {
    Starts(PhaseAt(calls, k), calls[k])
  }

  predicate StopsAt(calls: seq<Call>, k: nat)
    requires k < |calls|
  {
    Stops(PhaseAt(calls, k), calls[k])
  }

  /** The handle was initialised at `k`, and nothing up to `n` shut it down. */
  ghost predicate InitHolds(calls: seq<Call>, k: nat, n: nat)
    requires k < n <= |calls|
  {
    StartsAt(calls, k) && forall j | k < j < n :: !StopsAt(calls, j)
  }

  lemma InitStep(calls: seq<Call>, n: nat)
    requires n < |calls|
    ensures PhaseAt(calls, n + 1).inited <==>
            StartsAt(calls, n) || (PhaseAt(calls, n).inited && !StopsAt(calls, n))
  {
    MountedIsInited(calls, n);
  }

  lemma InitHeld(calls: seq<Call>, k: nat, n: nat)
    requires k < n < |calls|
    ensures InitHolds(calls, k, n + 1) <==> InitHolds(calls, k, n) && !StopsAt(calls, n)
  {
  }

  /** Over every run of calls: a handle is initialised exactly when some call
      initialised it and no later call shut it down. */
  lemma {:induction false} InitedSince(calls: seq<Call>, n: nat)
    requires n <= |calls|
    ensures PhaseAt(calls, n).inited <==> exists k | 0 <= k < n :: InitHolds(calls, k, n)
  {
    if n > 0 {
      var m := n - 1;
      InitedSince(calls, m);
      InitStep(calls, m);
      if StartsAt(calls, m) {
        assert InitHolds(calls, m, n);
      } else if PhaseAt(calls, n).inited {
        var k :| 0 <= k < m && InitHolds(calls, k, m);
        InitHeld(calls, k, m);
      } else if exists k | 0 <= k < n :: InitHolds(calls, k, n) {
        var k :| 0 <= k < n && InitHolds(calls, k, n);
        InitHeld(calls, k, m);
      }
    }
  }

  function Owned(kind: Kind, p: Option<nat>): set<Object> {
    if p.Some? then {Object(kind, p.value)} else {}
  }

  class MountInfo {
    var mounted: bool
    var inited: bool
    var client: Option<nat>
    var monclient: Option<nat>
    var messenger: Option<nat>
    /** A supply of object identities. */
    var next: nat
    ghost var log: seq<Event>
    /** Objects that nothing points to any more. */
    ghost var lost: set<Object>

    ghost function Held(): set<Object>
      reads this`client, this`monclient, this`messenger
    {
      Owned(Client, client) + Owned(MonClient, monclient) + Owned(Messenger, messenger)
    }

    ghost function State(): Phase
      reads this`inited, this`mounted
    {
      Phase(inited, mounted)
    }

    ghost predicate Books()
      reads this
    {
      Held() !! lost && Ledger(log, next, Held() + lost) && Makes(log) == next && Orderly(log)
    }

    /** A mounted client is initialised, an initialised handle has all three
        objects, and the log agrees with the fields. */
    ghost predicate Valid()
      reads this
    {
      && (mounted ==> inited)
      && (inited ==> client.Some? && monclient.Some? && messenger.Some?)
      && Books() && Replay(log) == (inited, mounted)
    }

    /** Between calls, a handle that is not initialised holds nothing. */
    ghost predicate Settled()
      reads this
    {
      Valid() && (!inited ==> Held() == {})
    }

    constructor ()
      ensures Settled() && !mounted && !inited && log == [] && lost == {} && next == 0
    {
      mounted, inited, client, monclient, messenger := false, false, None, None, None;
      next, log, lost := 0, [], {};
    }

    // ---------- single events ----------

    ghost method Note(e: Event)
      requires Books() && !e.Make? && !e.Delete?
      requires Allowed(log, e)
      modifies this`log
      ensures Books() && log == old(log) + [e] && Replay(log) == Next(Replay(old(log)), e)
      ensures Tally(log) == (Tally(old(log)).0 + (if e == ClientMounted then 1 else 0),
                             Tally(old(log)).1 + (if e == ClientAborted then 1 else 0))
    {
      Append(log, e);
      LedgerNote(log, next, Held() + lost, e);
      log := log + [e];
    }

    /** A new object; whatever pointer it overwrites is lost. */
    method New(kind: Kind) returns (id: nat)
      requires Books() && Allowed(log, Make(Object(kind, next)))
      modifies this`log, this`next
      ensures id == old(next) && next == id + 1 && Object(kind, id) !in Held() + lost
      ensures log == old(log) + [Make(Object(kind, id))] && Replay(log) == Replay(old(log)) && Orderly(log)
      ensures Makes(log) == next && Tally(log) == Tally(old(log))
      ensures Ledger(log, next, Held() + lost + {Object(kind, id)})
    {
      id := next;
      Append(log, Make(Object(kind, id)));
      LedgerMake(log, next, Held() + lost, kind);
      log := log + [Make(Object(kind, id))];
      next := next + 1;
    }

    ghost method NoteDelete(o: Object)
      requires Books() && o in Held() && Allowed(log, Delete(o))
      modifies this`log
      ensures log == old(log) + [Delete(o)] && Replay(log) == Replay(old(log)) && Orderly(log)
      ensures Makes(log) == next && Tally(log) == Tally(old(log))
      ensures Ledger(log, next, Held() - {o} + lost)
    {
      Append(log, Delete(o));
      LedgerDelete(log, next, Held() + lost, o);
      assert Held() + lost - {o} == Held() - {o} + lost;
      log := log + [Delete(o)];
    }

    method DeleteMessenger()
      requires Valid() && !inited
      modifies this`messenger, this`log
      ensures Valid() && messenger.None? && old(log) <= log && Tally(log) == Tally(old(log))
      ensures old(messenger).Some? ==> DeletedLast(log, Messenger)
    {
      if messenger.Some? {
        Note(MessengerShutdown);
        Note(MessengerWait);
        NoteDelete(Object(Messenger, messenger.value));
        ghost var rest := Held() - {Object(Messenger, messenger.value)};
        messenger := None;
        assert Held() == rest;
      }
    }

    method DeleteMonClient()
      requires Valid() && !inited
      modifies this`monclient, this`log
      ensures Valid() && monclient.None? && old(log) <= log && Tally(log) == Tally(old(log))
      ensures old(monclient).Some? ==> DeletedLast(log, MonClient) && log[..|log| - 1] == old(log)
    {
      if monclient.Some? {
        NoteDelete(Object(MonClient, monclient.value));
        ghost var rest := Held() - {Object(MonClient, monclient.value)};
        monclient := None;
        assert Held() == rest;
      }
    }

    method DeleteClient()
      requires Valid() && !inited
      requires client.Some? ==> DeletedLast(log, MonClient) && DeletedLast(log[..|log| - 1], Messenger)
      modifies this`client, this`log
      ensures Valid() && client.None? && old(log) <= log && Tally(log) == Tally(old(log))
    {
      if client.Some? {
        NoteDelete(Object(Client, client.value));
        ghost var rest := Held() - {Object(Client, client.value)};
        client := None;
        assert Held() == rest;
      }
    }

    method LeaveClient()
      requires Valid()
      modifies this`mounted, this`inited, this`log
      ensures Valid() && !mounted && !inited && old(log) <= log && Tally(log) == Tally(old(log))
    {
      if mounted {
        Note(ClientUnmounted);
        mounted := false;
      }
      if inited {
        Note(ClientShutdown);
        inited := false;
      }
    }

    // ---------- the operations ----------

    /** A client has the messenger and the monitor client it was made with. */
    ghost predicate Complete()
      reads this
    {
      client.Some? ==> messenger.Some? && monclient.Some?
    }

    method Shutdown()
      requires Valid() && Complete()
      modifies this
      ensures Settled() && !mounted && !inited && Held() == {}
      ensures lost == old(lost) && next == old(next) && old(log) <= log && Tally(log) == Tally(old(log))
    {
      LeaveClient();
      DeleteMessenger();
      DeleteMonClient();
      DeleteClient();
    }

    method MakeMonClient()
      requires Valid()
      modifies this`monclient, this`log, this`next, this`lost
      ensures Valid() && monclient.Some? && old(log) <= log && MadeLast(log, MonClient) && Tally(log) == Tally(old(log))
      ensures lost == old(lost) + Owned(MonClient, old(monclient)) && next == old(next) + 1
    {
      var id := New(MonClient);
      ghost var all := Held() + lost + {Object(MonClient, id)};
      lost := lost + Owned(MonClient, monclient);
      monclient := Some(id);
      assert Held() + lost == all;
    }

    method MakeMessenger()
      requires Valid() && MadeLast(log, MonClient)
      modifies this`messenger, this`log, this`next, this`lost
      ensures Valid() && messenger.Some? && old(log) <= log && MadeLast(log, Messenger) && Tally(log) == Tally(old(log))
      ensures lost == old(lost) + Owned(Messenger, old(messenger)) && next == old(next) + 1
    {
      var id := New(Messenger);
      ghost var all := Held() + lost + {Object(Messenger, id)};
      lost := lost + Owned(Messenger, messenger);
      messenger := Some(id);
      assert Held() + lost == all;
    }

    method MakeClient()
      requires Valid() && MadeLast(log, Messenger)
      modifies this`client, this`log, this`next, this`lost
      ensures Valid() && client.Some? && old(log) <= log && MadeLast(log, Client) && Tally(log) == Tally(old(log))
      ensures lost == old(lost) + Owned(Client, old(client)) && next == old(next) + 1
    {
      var id := New(Client);
      ghost var all := Held() + lost + {Object(Client, id)};
      lost := lost + Owned(Client, client);
      client := Some(id);
      assert Held() + lost == all;
    }

    /** The three objects, one after the other, as far as the codes allow. */
    method Construct(codes: InitCodes) returns (ret: int)
      requires Settled()
      modifies this`client, this`monclient, this`messenger, this`next, this`log, this`lost
      ensures Valid() && Complete() && old(log) <= log && old(lost) <= lost && Tally(log) == Tally(old(log))
      ensures lost == old(lost) <==> !inited
      ensures next == old(next) + if codes.build < 0 then 1 else 3
      ensures ret == if codes.build < 0 then -MON_MAP_BUILD
                     else if codes.start != 0 then -MESSENGER_START
                     else codes.init
      ensures ret == 0 ==> client.Some? && monclient.Some? && messenger.Some? && MadeLast(log, Client)
    {
      assert inited ==> Object(MonClient, monclient.value) in Held();
      MakeMonClient();
      if codes.build < 0 {
        return -MON_MAP_BUILD;
      }
      MakeMessenger();
      MakeClient();
      if codes.start != 0 {
        return -MESSENGER_START;
      }
      return codes.init;
    }

    /** Objects are lost exactly when a handle that is already initialised gets
        past the bootstrap. A failure leaves the handle empty. */
    method Init(codes: InitCodes) returns (ret: int)
      requires Settled()
      modifies this
      ensures Settled() && old(log) <= log && old(lost) <= lost && Tally(log) == Tally(old(log))
      ensures lost == old(lost) <==> !(old(inited) && codes.bootstrap >= 0)
      ensures next == old(next) + codes.Objects()
      ensures ret == codes.Ret()
      ensures ret == if codes.bootstrap < 0 then codes.bootstrap
                     else if codes.build < 0 then -MON_MAP_BUILD
                     else if codes.start != 0 then -MESSENGER_START
                     else codes.init
      ensures State() == Inited(old(State()), codes)
      ensures ret != 0 && codes.bootstrap >= 0 ==> Held() == {}
      ensures codes.bootstrap < 0 ==> Held() == old(Held()) && log == old(log)
    {
      if codes.bootstrap < 0 {
        return codes.bootstrap;
      }
      ret := Construct(codes);
      if ret == 0 {
        Note(ClientInited);
        inited := true;
      } else {
        Shutdown();
      }
    }

    method Mount(codes: InitCodes, mount: int) returns (ret: int)
      requires Settled()
      modifies this
      ensures Settled() && lost == old(lost) && old(log) <= log
      ensures ret == if old(mounted) then -EISCONN
                     else if !old(inited) && codes.Ret() != 0 then codes.Ret()
                     else mount
      ensures State() == After(old(State()), CallMount(codes, mount))
      ensures next == old(next) + MadeBy(old(State()), CallMount(codes, mount))
      ensures Tally(log) == (Tally(old(log)).0 + (if ret == 0 then 1 else 0), Tally(old(log)).1)
      ensures old(mounted) ==> log == old(log)
      ensures !mounted && !(!old(inited) && codes.bootstrap < 0) ==> Held() == {}
    {
      if mounted {
        return -EISCONN;
      }
      if !inited {
        ret := Init(codes);
        if ret != 0 {
          return;
        }
      }
      ret := mount;
      if ret != 0 {
        Shutdown();
      } else {
        Note(ClientMounted);
        mounted := true;
      }
    }

    method Unmount() returns (ret: int)
      requires Settled()
      modifies this
      ensures Settled() && lost == old(lost) && old(log) <= log && !mounted
      ensures State() == After(old(State()), CallUnmount) && next == old(next) && Tally(log) == Tally(old(log))
      ensures ret == if old(mounted) then 0 else -ENOTCONN
      ensures old(mounted) ==> Held() == {}
    {
      if !mounted {
        return -ENOTCONN;
      }
      Shutdown();
      return 0;
    }

    method AbortConn() returns (ret: int)
      requires Settled()
      modifies this`mounted, this`log
      ensures Settled() && old(log) <= log && !mounted && ret == 0
      ensures Tally(log) == (Tally(old(log)).0, Tally(old(log)).1 + (if old(mounted) then 1 else 0))
    {
      if mounted {
        Note(ClientAborted);
        mounted := false;
      }
      return 0;
    }

    method StartReclaim(codes: InitCodes, reclaim: int) returns (ret: int)
      requires Settled()
      modifies this
      ensures Settled() && lost == old(lost) && old(log) <= log && mounted == old(mounted)
      ensures Tally(log) == Tally(old(log))
      ensures State() == Ready(old(State()), codes)
      ensures next == old(next) + if old(inited) then 0 else codes.Objects()
      ensures ret == if !old(inited) && codes.Ret() != 0 then codes.Ret() else reclaim
    {
      if !inited {
        ret := Init(codes);
        if ret != 0 {
          return;
        }
      }
      ret := reclaim;
    }

    /** Any call follows the protocol. */
    method Perform(call: Call) returns (ret: int)
      requires Settled()
      modifies this
      ensures Settled() && old(lost) <= lost
      ensures State() == After(old(State()), call) && ret == Code(old(State()), call)
      ensures lost == old(lost) <==> !Overwrites(old(State()), call)
      ensures next == old(next) + MadeBy(old(State()), call)
      ensures Tally(log) == (Tally(old(log)).0 + (if call.CallMount? && ret == 0 then 1 else 0),
                             Tally(old(log)).1 + (if call.CallAbort? && old(mounted) then 1 else 0))
    {
      match call {
        case CallInit(codes) => ret := Init(codes);
        case CallMount(codes, mount) => ret := Mount(codes, mount);
        case CallUnmount => ret := Unmount();
        case CallAbort => ret := AbortConn();
        case CallReclaim(codes, reclaim) => ret := StartReclaim(codes, reclaim);
      }
    }

    /** Deleting the handle deletes exactly the objects it held: every object
        ever made has then been deleted exactly once, unless it was lost. */
    method Destroy()
      requires Settled()
      modifies this
      ensures Settled() && Held() == {} && lost == old(lost) && next == old(next) && old(log) <= log
      ensures !mounted && Tally(log) == Tally(old(log))
      ensures forall o: Object :: if o in lost then Leaked(log, o) else Freed(log, o)
    {
      Shutdown();
      assert Held() + lost == lost;
      forall o: Object
        ensures if o in lost then Leaked(log, o) else Freed(log, o)
      {
        assert Balanced(log, next, Held() + lost, o);
      }
    }

    method Release() returns (ret: int)
      requires Settled()
      modifies this
      ensures ret == if old(mounted) then -EISCONN else 0
      ensures Settled() && lost == old(lost) && old(log) <= log
      ensures ret == 0 ==> forall o: Object :: if o in lost then Leaked(log, o) else Freed(log, o)
    {
      if mounted {
        return -EISCONN;
      }
      Destroy();
      return 0;
    }
  }

  // ---------- runs ----------

  /** A new handle, and calls on it one after the other. */
  method PerformAll(calls: seq<Call>) returns (handle: MountInfo, codes: seq<int>)
    ensures fresh(handle) && handle.Settled() && handle.State() == PhaseAt(calls, |calls|)
    ensures codes == Codes(calls, |calls|)
    ensures handle.lost == {} <==> !Reinits(calls, |calls|)
    ensures handle.next == Made(calls, |calls|) && Tally(handle.log) == Tallied(calls, |calls|)
  {
    handle := new MountInfo();
    codes := [];
    for n := 0 to |calls|
      invariant fresh(handle) && handle.Settled() && handle.State() == PhaseAt(calls, n)
      invariant codes == Codes(calls, n)
      invariant handle.lost == {} <==> !Reinits(calls, n)
      invariant handle.next == Made(calls, n) && Tally(handle.log) == Tallied(calls, n)
    {
      var ret := handle.Perform(calls[n]);
      codes := codes + [ret];
    }
  }

  /** Any calls, whatever fails inside them, and then ceph_shutdown. Each call
      returns the code of its phase. If no call overwrites, every object made
      has been deleted exactly once; otherwise some object never is. Every event
      came in its order, so that no messenger was torn down while the handle's
      client was initialised or mounted, or deleted before it had stopped. Every
      successful mount was ended once: by an abort for each abort of a mounted
      handle, and else by an unmount. */
  method Lifetime(calls: seq<Call>) returns (codes: seq<int>, ghost log: seq<Event>)
    ensures codes == Codes(calls, |calls|)
    ensures Orderly(log) && Makes(log) == Made(calls, |calls|)
    ensures Stopped(log) && Tally(log) == Tallied(calls, |calls|)
    ensures Times(log, ClientUnmounted) == Times(log, ClientMounted) - Times(log, ClientAborted)
    ensures if Reinits(calls, |calls|) then exists o: Object :: Leaked(log, o)
            else forall o: Object :: Freed(log, o)
  {
    var handle;
    handle, codes := PerformAll(calls);
    handle.Shutdown();
    handle.Destroy();
    log := handle.log;
    OrderlyStops(log);
    MountsEnd(log);
    if handle.lost != {} {
      ghost var o :| o in handle.lost;
      assert Leaked(log, o);
    }
  }
}
