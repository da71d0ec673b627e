/** The daemon watchdog: at every poll it notes which daemons have failed and
    since when, and it barks once one has been failing for too long. */
module Watchdog {

  /** A daemon object, under the name that its role and id make; `key` tells
      objects with the same name apart. */
  datatype Daemon = Daemon(name: string, key: nat)

  datatype Poll = Poll(now: real, failing: seq<Daemon>, thrasherFailed: bool)

  datatype Entry = Entry(daemon: Daemon, since: real)

  datatype Outcome = Finished | Barked(at: nat) | Crashed(at: nat)

  predicate Named(failing: seq<Daemon>, name: string) {
    exists i | 0 <= i < |failing| :: failing[i].name == name
  }

  // ---------- the reference: unbroken runs of failing polls ----------

  /** The first poll of the unbroken failing run that poll `k` belongs to. */
  function RunStart(polls: seq<Poll>, k: nat, name: string): (j: nat)
    requires k < |polls| && Named(polls[k].failing, name)
    ensures j <= k && forall i | j <= i <= k :: Named(polls[i].failing, name)
    ensures j > 0 ==> !Named(polls[j - 1].failing, name)
  {
    if k > 0 && Named(polls[k - 1].failing, name) then RunStart(polls, k - 1, name) else k
  }

  function FirstNamed(failing: seq<Daemon>, name: string): (d: Daemon)
    requires Named(failing, name)
    ensures d in failing && d.name == name
  {
    if failing[0].name == name then failing[0]
    else
      assert Named(failing[1..], name) by {
        var i :| 0 <= i < |failing| && failing[i].name == name;
        assert failing[1..][i - 1] == failing[i];
      }
      FirstNamed(failing[1..], name)
  }

  /** It is the first of its name. */
  lemma {:induction false} FirstNamedIsFirst(failing: seq<Daemon>, name: string, i: nat)
    requires i < |failing| && failing[i].name == name && forall j | 0 <= j < i :: failing[j].name != name
    ensures Named(failing, name) && FirstNamed(failing, name) == failing[i]
  {
    if i > 0 {
      FirstNamedIsFirst(failing[1..], name, i - 1);
    }
  }

  /** Who began the run, and when. */
  function Since(polls: seq<Poll>, k: nat, name: string): Entry
    requires k < |polls| && Named(polls[k].failing, name)
  {
    var j := RunStart(polls, k, name);
    assert Named(polls[j].failing, name);
    Entry(FirstNamed(polls[j].failing, name), polls[j].now)
  }

  /** `tracked` holds exactly the daemons failing at poll `k`, each with the
      beginning of its run. */
  ghost predicate Tracks(polls: seq<Poll>, k: nat, tracked: map<string, Entry>)
    requires k < |polls|
  {
    forall name: string ::
      && (name in tracked <==> Named(polls[k].failing, name))
      && (name in tracked ==> tracked[name] == Since(polls, k, name))
  }

  /** What is tracked when poll `k` begins. */
  ghost predicate Prior(polls: seq<Poll>, k: nat, tracked: map<string, Entry>)
    requires k <= |polls|
  {
    if k == 0 then tracked == map[] else Tracks(polls, k - 1, tracked)
  }

  /** Each failing daemon is the object that began its run. */
  ghost predicate SameObjects(polls: seq<Poll>, k: nat)
    requires k < |polls|
  {
    forall i | 0 <= i < |polls[k].failing| ::
      polls[k].failing[i] == Since(polls, k, polls[k].failing[i].name).daemon
  }

  /** Some daemon has been failing without a break for more than `timeout`, or
      a thrasher has failed. */
  ghost predicate ShouldBark(polls: seq<Poll>, k: nat, timeout: real)
    requires k < |polls|
  {
    || polls[k].thrasherFailed
    || exists i | 0 <= i < |polls[k].failing| ::
         polls[k].now - Since(polls, k, polls[k].failing[i].name).since > timeout
  }

  /** A daemon of this name was failing at every poll from `j` to `k`. */
  ghost predicate FailedSince(polls: seq<Poll>, j: nat, k: nat, name: string)
    requires j <= k < |polls|
  {
    forall i | j <= i <= k :: Named(polls[i].failing, name)
  }

  lemma {:induction false} RunStartIsEarliest(polls: seq<Poll>, j: nat, k: nat, name: string)
    requires j <= k < |polls| && FailedSince(polls, j, k, name)
    ensures Named(polls[k].failing, name) && RunStart(polls, k, name) <= j
    decreases k
  {
    assert Named(polls[k].failing, name);
    if j < k {
      assert Named(polls[k - 1].failing, name);
      RunStartIsEarliest(polls, j, k - 1, name);
    }
  }

  /** While the clock does not run backwards, the watchdog should bark at a poll
      exactly when a thrasher has failed, or some name was failing at every poll
      since one that lies more than `timeout` back. */
  lemma BarkMeaning(polls: seq<Poll>, k: nat, timeout: real)
    requires k < |polls| && forall i, j | 0 <= i <= j < |polls| :: polls[i].now <= polls[j].now
    ensures ShouldBark(polls, k, timeout) <==>
            || polls[k].thrasherFailed
            || exists name: string, j: nat | j <= k ::
                 FailedSince(polls, j, k, name) && polls[k].now - polls[j].now > timeout
  {
    if exists name: string, j: nat | j <= k :: FailedSince(polls, j, k, name) && polls[k].now - polls[j].now > timeout {
      var name: string, j: nat :| j <= k && FailedSince(polls, j, k, name) && polls[k].now - polls[j].now > timeout;
      RunStartIsEarliest(polls, j, k, name);
      var i :| 0 <= i < |polls[k].failing| && polls[k].failing[i].name == name;
      assert polls[k].now - Since(polls, k, polls[k].failing[i].name).since > timeout;
    } else if ShouldBark(polls, k, timeout) && !polls[k].thrasherFailed {
      var i :| 0 <= i < |polls[k].failing| && polls[k].now - Since(polls, k, polls[k].failing[i].name).since > timeout;
      var name := polls[k].failing[i].name;
      assert FailedSince(polls, RunStart(polls, k, name), k, name);
    }
  }

  /** A poll that the watchdog goes past. */
  ghost predicate Quiet(polls: seq<Poll>, k: nat, timeout: real)
    requires k < |polls|
  {
    SameObjects(polls, k) && !ShouldBark(polls, k, timeout)
  }

  // ---------- one poll ----------

  /** setdefault for every failing daemon in turn. */
  function Note(tracked: map<string, Entry>, failing: seq<Daemon>, now: real): map<string, Entry> {
    if failing == [] then tracked
    else
      var m, d := Note(tracked, failing[..|failing| - 1], now), failing[|failing| - 1];
      if d.name in m then m else m[d.name := Entry(d, now)]
  }

  lemma NamedAppend(front: seq<Daemon>, d: Daemon, name: string)
    ensures Named(front + [d], name) <==> Named(front, name) || d.name == name
  {
    var all := front + [d];
    if Named(all, name) {
      var i :| 0 <= i < |all| && all[i].name == name;
      assert i < |front| ==> front[i].name == name;
    }
    if Named(front, name) {
      var i :| 0 <= i < |front| && front[i].name == name;
      assert all[i].name == name;
    }
    assert all[|front|] == d;
  }

  /** Notes keep what was there, and give every other failing name to the first
      daemon that has it. */
  lemma {:induction false} NoteEntry(tracked: map<string, Entry>, failing: seq<Daemon>, now: real, name: string)
    ensures name in Note(tracked, failing, now) <==> name in tracked || Named(failing, name)
    ensures name in tracked ==> Note(tracked, failing, now)[name] == tracked[name]
    ensures Named(failing, name) && name !in tracked ==>
              Note(tracked, failing, now)[name] == Entry(FirstNamed(failing, name), now)
  {
    if failing != [] {
      var front, d := failing[..|failing| - 1], failing[|failing| - 1];
      NoteEntry(tracked, front, now, name);
      assert failing == front + [d];
      NamedAppend(front, d, name);
      if name !in tracked {
        if Named(front, name) {
          FirstNamedAppend(front, d, name);
        } else if d.name == name {
          FirstNamedLast(front, d);
        }
      }
    }
  }

  lemma {:induction false} FirstNamedAppend(failing: seq<Daemon>, d: Daemon, name: string)
    requires exists i | 0 <= i < |failing| :: failing[i].name == name
    ensures exists i | 0 <= i < |failing + [d]| :: (failing + [d])[i].name == name
    ensures FirstNamed(failing + [d], name) == FirstNamed(failing, name)
    decreases |failing|
  {
    var i :| 0 <= i < |failing| && failing[i].name == name;
    assert (failing + [d])[i].name == name;
    if failing[0].name != name {
      assert failing[1..][i - 1] == failing[i];
      assert (failing + [d])[1..] == failing[1..] + [d];
      FirstNamedAppend(failing[1..], d, name);
    }
  }

  lemma {:induction false} FirstNamedLast(front: seq<Daemon>, d: Daemon)
    requires forall i | 0 <= i < |front| :: front[i].name != d.name
    ensures exists i | 0 <= i < |front + [d]| :: (front + [d])[i].name == d.name
    ensures FirstNamed(front + [d], d.name) == d
    decreases |front|
  {
    assert (front + [d])[|front|].name == d.name;
    if front != [] {
      assert (front + [d])[1..] == front[1..] + [d];
      FirstNamedLast(front[1..], d);
    }
  }

  /** After noting poll `k`, a failing daemon's entry is the beginning of its run. */
  lemma NoteIsSince(polls: seq<Poll>, k: nat, tracked: map<string, Entry>, name: string)
    requires k < |polls| && Named(polls[k].failing, name)
    requires Prior(polls, k, tracked)
    ensures name in Note(tracked, polls[k].failing, polls[k].now)
    ensures Note(tracked, polls[k].failing, polls[k].now)[name] == Since(polls, k, name)
  {
    NoteEntry(tracked, polls[k].failing, polls[k].now, name);
    if k > 0 {
      assert name in tracked <==> Named(polls[k - 1].failing, name);
    }
  }

  method NoteFailures(before: map<string, Entry>, failing: seq<Daemon>, now: real, timeout: real)
    returns (tracked: map<string, Entry>, late: bool, crashed: bool)
    ensures !crashed ==> tracked == Note(before, failing, now)
    ensures forall i | 0 <= i < |failing| :: failing[i].name in Note(before, failing, now)
    ensures crashed <==> exists i | 0 <= i < |failing| ::
              Note(before, failing, now)[failing[i].name].daemon != failing[i]
    ensures !crashed ==> (late <==> exists i | 0 <= i < |failing| ::
                                      now - Note(before, failing, now)[failing[i].name].since > timeout)
  {
    ghost var whole := Note(before, failing, now);
    forall i | 0 <= i < |failing|
      ensures failing[i].name in whole
    {
      NoteEntry(before, failing, now, failing[i].name);
    }
    tracked, late, crashed := before, false, false;
    for i := 0 to |failing|
      invariant tracked == Note(before, failing[..i], now)
      invariant forall n | 0 <= n < i :: whole[failing[n].name].daemon == failing[n]
      invariant late <==> exists n | 0 <= n < i :: now - whole[failing[n].name].since > timeout
    {
      var daemon := failing[i];
      assert failing[..i + 1][..i] == failing[..i];
      if daemon.name !in tracked {
        tracked := tracked[daemon.name := Entry(daemon, now)];
      }
      NotePrefix(before, failing, now, i + 1, daemon.name);
      assert tracked[daemon.name] == whole[daemon.name];
      if tracked[daemon.name].daemon != daemon {
        crashed := true;
        return;
      }
      if now - tracked[daemon.name].since > timeout {
        late := true;
      }
    }
    assert failing[..|failing|] == failing;
  }

  lemma {:induction false} NotePrefix(before: map<string, Entry>, failing: seq<Daemon>, now: real, n: nat, name: string)
    requires n <= |failing| && name in Note(before, failing[..n], now)
    ensures name in Note(before, failing, now)
    ensures Note(before, failing, now)[name] == Note(before, failing[..n], now)[name]
    decreases |failing| - n
  {
    if n == |failing| {
      assert failing[..n] == failing;
    } else {
      assert failing[..n + 1][..n] == failing[..n];
      NotePrefix(before, failing, now, n + 1, name);
    }
  }

  /** Drop what is no longer failing. */
  function Restored(tracked: map<string, Entry>, p: Poll): map<string, Entry> {
    map name | name in tracked && Named(p.failing, name) :: tracked[name]
  }

  lemma RestoredTracks(polls: seq<Poll>, k: nat, before: map<string, Entry>)
    requires k < |polls|
    requires Prior(polls, k, before)
    ensures Tracks(polls, k, Restored(Note(before, polls[k].failing, polls[k].now), polls[k]))
  {
    var noted := Note(before, polls[k].failing, polls[k].now);
    forall name: string
      ensures name in Restored(noted, polls[k]) <==> Named(polls[k].failing, name)
      ensures name in Restored(noted, polls[k]) ==> Restored(noted, polls[k])[name] == Since(polls, k, name)
    {
      if Named(polls[k].failing, name) {
        NoteIsSince(polls, k, before, name);
      }
    }
  }

  lemma VerdictsAgree(polls: seq<Poll>, k: nat, before: map<string, Entry>)
    requires k < |polls|
    requires Prior(polls, k, before)
    ensures forall i | 0 <= i < |polls[k].failing| ::
              && Named(polls[k].failing, polls[k].failing[i].name)
              && polls[k].failing[i].name in Note(before, polls[k].failing, polls[k].now)
              && Note(before, polls[k].failing, polls[k].now)[polls[k].failing[i].name]
                 == Since(polls, k, polls[k].failing[i].name)
  {
    forall i | 0 <= i < |polls[k].failing|
      ensures Named(polls[k].failing, polls[k].failing[i].name)
      ensures polls[k].failing[i].name in Note(before, polls[k].failing, polls[k].now)
      ensures Note(before, polls[k].failing, polls[k].now)[polls[k].failing[i].name]
              == Since(polls, k, polls[k].failing[i].name)
    {
      NoteIsSince(polls, k, before, polls[k].failing[i].name);
    }
  }

  method PollOnce(polls: seq<Poll>, k: nat, before: map<string, Entry>, timeout: real)
    returns (tracked: map<string, Entry>, bark: bool, crashed: bool)
    requires k < |polls| && Prior(polls, k, before)
    ensures crashed <==> !SameObjects(polls, k)
    ensures !crashed ==> Tracks(polls, k, tracked) && (bark <==> ShouldBark(polls, k, timeout))
  {
    VerdictsAgree(polls, k, before);
    RestoredTracks(polls, k, before);
    tracked, bark, crashed := NoteFailures(before, polls[k].failing, polls[k].now, timeout);
    if crashed {
      return;
    }
    tracked := Restored(tracked, polls[k]);
    if polls[k].thrasherFailed {
      bark := true;
    }
  }

  /** Watch any sequence of polls. Until it ends, the watchdog tracks exactly
      the daemons failing at the last poll, each with the time of the first
      poll of its unbroken failing run. It barks at the first poll at which one
      of these runs is older than the timeout or a thrasher has failed, and it
      dies without barking at a poll where a name belongs to another object. */
  method Watch(polls: seq<Poll>, timeout: real) returns (r: Outcome, tracked: map<string, Entry>)
    ensures r.Finished? ==> Prior(polls, |polls|, tracked)
    ensures var n := if r.Finished? then |polls| else r.at;
            n <= |polls| && forall k | 0 <= k < n :: Quiet(polls, k, timeout)
    ensures r.Barked? ==> r.at < |polls| && SameObjects(polls, r.at) && ShouldBark(polls, r.at, timeout)
    ensures r.Crashed? ==> r.at < |polls| && !SameObjects(polls, r.at)
  {
    tracked := map[];
    var k := 0;
    while k < |polls|
      invariant k <= |polls| && Prior(polls, k, tracked)
      invariant forall i | 0 <= i < k :: Quiet(polls, i, timeout)
    {
      var bark, crashed;
      tracked, bark, crashed := PollOnce(polls, k, tracked, timeout);
      if crashed {
        return Crashed(k), tracked;
      }
      if bark {
        return Barked(k), tracked;
      }
      k := k + 1;
    }
    return Finished, tracked;
  }
}
