/** The OSD thrasher: four lists of OSD numbers that it moves numbers between,
    its weighted choice of what to do next, and its recovery loops. Remote
    commands succeed; random choices are arbitrary. */
module Thrasher {
  import opened Wrappers

  // ---------- the weighted choice ----------

  datatype Action =
    | OutOsd | KillOsd | InOsd | ReviveOsd
    | PrimaryAffinity | Reweight | GrowPool | ShrinkPool | FixPgpNum
    | TestPoolMinSize | TestBackfillFull
    | ClusterFull | PgUpmap | PgUpmapItems | ForceCancelRecovery
    | InjectPause(key: string, long: bool)

  datatype Choice = Choice(action: Action, weight: real)

  ghost predicate NonNegative(actions: seq<Choice>) {
    forall i | 0 <= i < |actions| :: actions[i].weight >= 0.0
  }

  /** The weight of the first `n` choices. */
  function Before(actions: seq<Choice>, n: nat): real
    requires n <= |actions|
  {
    if n == 0 then 0.0 else Before(actions, n - 1) + actions[n - 1].weight
  }

  lemma {:induction false} BeforeGrows(actions: seq<Choice>, m: nat, n: nat)
    requires NonNegative(actions) && m <= n <= |actions|
    ensures Before(actions, m) <= Before(actions, n)
    decreases n
  {
    if m < n {
      BeforeGrows(actions, m, n - 1);
    }
  }

  /** The draw falls into the interval of choice `k`. */
  ghost predicate Draws(actions: seq<Choice>, draw: real, k: nat) {
    k < |actions| && Before(actions, k) <= draw < Before(actions, k + 1)
  }

  lemma DrawsOne(actions: seq<Choice>, draw: real, k: nat, j: nat)
    requires NonNegative(actions) && Draws(actions, draw, k) && Draws(actions, draw, j)
    ensures k == j && actions[k].weight > 0.0
  {
    if k < j {
      BeforeGrows(actions, k + 1, j);
    } else if j < k {
      BeforeGrows(actions, j + 1, k);
    }
  }

  /** Take weights off the draw until it falls below one. For a draw from zero
      up, that is the choice whose interval holds it, and there is none exactly
      when the draw is not below the total. */
  method Pick(actions: seq<Choice>, draw: real) returns (action: Option<Action>, ghost k: nat)
    requires NonNegative(actions) && draw >= 0.0
    ensures action.None? <==> draw >= Before(actions, |actions|)
    ensures action.Some? ==> Draws(actions, draw, k) && action.value == actions[k].action
    ensures action.Some? ==> actions[k].weight > 0.0
  {
    var val := draw;
    k := 0;
    for i := 0 to |actions|
      invariant val == draw - Before(actions, i) && val >= 0.0
    {
      if val < actions[i].weight {
        k := i;
        BeforeGrows(actions, i + 1, |actions|);
        return Some(actions[i].action), i;
      }
      val := val - actions[i].weight;
    }
    return None, 0;
  }

  // ---------- the lists ----------

  /** Weights as configured, after the defaults; a `chanceDown` given as a whole
      number is a percentage and has been divided by one hundred. */
  datatype Config = Config(minIn: int, minOut: int, minLive: int, minDead: int,
                           chanceDown: real, primaryAffinity: bool, reweight: real,
                           grow: real, shrink: real, fixPgp: real, minSize: real, backfillFull: real,
                           clusterFull: real, upmap: real, forceRecovery: real,
                           pauseShort: real, pauseLong: real)
  {
    ghost predicate NonNegative() {
      && reweight >= 0.0 && grow >= 0.0 && shrink >= 0.0 && fixPgp >= 0.0
      && minSize >= 0.0 && backfillFull >= 0.0 && pauseShort >= 0.0 && pauseLong >= 0.0
    }
  }

  datatype Lists = Lists(ins: seq<int>, outs: seq<int>, live: seq<int>, dead: seq<int>)

  /** The two populations: what is in or out, and what is live or dead. */
  ghost function Populations(l: Lists): (multiset<int>, multiset<int>) {
    (multiset(l.ins) + multiset(l.outs), multiset(l.live) + multiset(l.dead))
  }

  lemma SameSizes(a: Lists, b: Lists)
    requires Populations(a) == Populations(b)
    ensures |a.ins| + |a.outs| == |b.ins| + |b.outs| && |a.live| + |a.dead| == |b.live| + |b.dead|
  {
    assert |multiset(a.ins) + multiset(a.outs)| == |multiset(b.ins) + multiset(b.outs)|;
    assert |multiset(a.live) + multiset(a.dead)| == |multiset(b.live) + multiset(b.dead)|;
  }

  function Remove(s: seq<int>, x: int): (r: seq<int>)
    requires x in s
    ensures multiset(r) == multiset(s) - multiset{x}
    ensures |r| == |s| - 1
  {
    if s[0] == x then
      assert s == [x] + s[1..];
      s[1..]
    else
      assert s == [s[0]] + s[1..];
      [s[0]] + Remove(s[1..], x)
  }

  lemma Moved(a: seq<int>, b: seq<int>, x: int)
    requires x in a
    ensures multiset(Remove(a, x)) + multiset(b + [x]) == multiset(a) + multiset(b)
  {
    assert multiset(b + [x]) == multiset(b) + multiset{x};
  }

  // ---------- what each action does ----------

  function Outed(l: Lists, x: int): Lists
    requires x in l.ins
  {
    l.(ins := Remove(l.ins, x), outs := l.outs + [x])
  }

  function Killed(l: Lists, x: int, markOut: bool): Lists
    requires x in l.live
  {
    var k := l.(live := Remove(l.live, x), dead := l.dead + [x]);
    if markOut && x in l.ins then Outed(k, x) else k
  }

  function Revived(l: Lists, x: int): Lists
    requires x in l.dead
  {
    l.(dead := Remove(l.dead, x), live := l.live + [x])
  }

  /** A dead OSD is revived and stays out; a live one is marked in. */
  function Inned(l: Lists, x: int): Lists
    requires x in l.outs
  {
    if x in l.dead then Revived(l, x) else l.(outs := Remove(l.outs, x), ins := l.ins + [x])
  }

  lemma OutedConserves(l: Lists, x: int)
    requires x in l.ins
    ensures Populations(Outed(l, x)) == Populations(l)
  {
    Moved(l.ins, l.outs, x);
  }

  lemma KilledConserves(l: Lists, x: int, markOut: bool)
    requires x in l.live
    ensures Populations(Killed(l, x, markOut)) == Populations(l)
  {
    Moved(l.live, l.dead, x);
    if markOut && x in l.ins {
      OutedConserves(l.(live := Remove(l.live, x), dead := l.dead + [x]), x);
    }
  }

  lemma RevivedConserves(l: Lists, x: int)
    requires x in l.dead
    ensures Populations(Revived(l, x)) == Populations(l)
  {
    Moved(l.dead, l.live, x);
    assert multiset(l.live + [x]) + multiset(Remove(l.dead, x)) == multiset(l.live) + multiset(l.dead);
  }

  lemma InnedConserves(l: Lists, x: int)
    requires x in l.outs
    ensures Populations(Inned(l, x)) == Populations(l)
  {
    if x in l.dead {
      RevivedConserves(l, x);
    } else {
      Moved(l.outs, l.ins, x);
      assert multiset(l.ins + [x]) + multiset(Remove(l.outs, x)) == multiset(l.ins) + multiset(l.outs);
    }
  }

  /** The action ends in an exception: it chooses from an empty list, or it is
      the minimum-size test, which calls its logger with two arguments.
      `single` is the coin of the reweighting. */
  predicate Fails(action: Action, l: Lists, single: bool) {
    match action
    case OutOsd => l.ins == []
    case KillOsd => l.live == []
    case InOsd => l.outs == []
    case ReviveOsd => l.dead == []
    case PrimaryAffinity => l.ins == []
    case Reweight => single && l.ins == []
    case TestPoolMinSize => true
    case InjectPause(_, _) => l.live == []
    case _ => false
  }

  /** An action that ends normally can turn `a` into `b`. */
  ghost predicate Does(action: Action, a: Lists, b: Lists) {
    match action
    case OutOsd => exists x | x in a.ins :: b == Outed(a, x)
    case KillOsd => exists x | x in a.live :: b == Killed(a, x, false)
    case InOsd => exists x | x in a.outs :: b == Inned(a, x)
    case ReviveOsd => exists x | x in a.dead :: b == Revived(a, x)
    case _ => b == a
  }

  lemma DoesConserves(action: Action, a: Lists, b: Lists)
    requires Does(action, a, b)
    ensures Populations(b) == Populations(a)
  {
    match action
    case OutOsd =>
      var x :| x in a.ins && b == Outed(a, x);
      OutedConserves(a, x);
    case KillOsd =>
      var x :| x in a.live && b == Killed(a, x, false);
      KilledConserves(a, x, false);
    case InOsd =>
      var x :| x in a.outs && b == Inned(a, x);
      InnedConserves(a, x);
    case ReviveOsd =>
      var x :| x in a.dead && b == Revived(a, x);
      RevivedConserves(a, x);
    case _ =>
  }

  // ---------- the floors ----------

  ghost predicate Floors(config: Config, l: Lists) {
    |l.ins| >= config.minIn && |l.live| >= config.minLive
  }

  /** Neither list fell, except to its floor at most. */
  ghost predicate Above(config: Config, a: Lists, b: Lists) {
    && (|b.ins| >= |a.ins| || |b.ins| >= config.minIn)
    && (|b.live| >= |a.live| || |b.live| >= config.minLive)
  }

  /** The action is offered only while its list is longer than its bound. */
  predicate Offered(config: Config, action: Action, l: Lists) {
    && (action.OutOsd? ==> |l.ins| > config.minIn)
    && (action.KillOsd? ==> |l.live| > config.minLive)
    && (action.InOsd? ==> |l.outs| > config.minOut)
    && (action.ReviveOsd? ==> |l.dead| > config.minDead)
  }

  lemma DoesKeepsFloors(config: Config, action: Action, a: Lists, b: Lists)
    requires Does(action, a, b) && Offered(config, action, a)
    ensures Above(config, a, b)
  {
  }

  // ---------- what is offered ----------

  function When(b: bool, action: Action, weight: real): seq<Choice> {
    if b then [Choice(action, weight)] else []
  }

  /** What moves an OSD, as far as the floors and ceilings allow. */
  function Moves(config: Config, l: Lists): seq<Choice> {
    When(|l.ins| > config.minIn, OutOsd, 1.0)
    + When(|l.live| > config.minLive && config.chanceDown > 0.0, KillOsd, config.chanceDown)
    + When(|l.outs| > config.minOut, InOsd, 1.7)
    + When(|l.dead| > config.minDead, ReviveOsd, 1.0)
  }

  function Fixed(config: Config): seq<Choice> {
    [Choice(Reweight, config.reweight), Choice(GrowPool, config.grow), Choice(ShrinkPool, config.shrink),
     Choice(FixPgpNum, config.fixPgp), Choice(TestPoolMinSize, config.minSize),
     Choice(TestBackfillFull, config.backfillFull)]
  }

  /** One setting weighs both kinds of upmap. */
  function Optional(config: Config): seq<Choice> {
    When(config.clusterFull > 0.0, ClusterFull, config.clusterFull)
    + When(config.upmap > 0.0, PgUpmap, config.upmap)
    + When(config.upmap > 0.0, PgUpmapItems, config.upmap)
    + When(config.forceRecovery > 0.0, ForceCancelRecovery, config.forceRecovery)
  }

  function Disturbances(config: Config): seq<Choice> {
    When(config.primaryAffinity, PrimaryAffinity, 1.0) + Fixed(config) + Optional(config)
  }

  /** Two pauses for each of two keys. The key is read when the action runs, and
      by then the loop over the keys has left the second one in it. */
  function Pauses(config: Config): seq<Choice> {
    [Choice(InjectPause(STALL, false), config.pauseShort), Choice(InjectPause(STALL, true), config.pauseLong),
     Choice(InjectPause(STALL, false), config.pauseShort), Choice(InjectPause(STALL, true), config.pauseLong)]
  }

  const STALL: string := "filestore_inject_stall"

  function Actions(config: Config, l: Lists): seq<Choice> {
    Moves(config, l) + Disturbances(config) + Pauses(config)
  }

  function Total(actions: seq<Choice>): real {
    Before(actions, |actions|)
  }

  /** What an offered choice tells about the lists and its weight. */
  ghost predicate Sensible(config: Config, l: Lists, c: Choice) {
    && c.weight >= 0.0 && Offered(config, c.action, l)
    && (c.action.PrimaryAffinity? ==> config.primaryAffinity)
    && (c.action.Reweight? ==> c.weight == config.reweight)
    && (c.action.TestPoolMinSize? ==> c.weight == config.minSize)
    && (c.action.InjectPause? ==> c.weight == config.pauseShort || c.weight == config.pauseLong)
  }

  lemma MovesSensible(config: Config, l: Lists, c: Choice)
    requires c in Moves(config, l)
    ensures Sensible(config, l, c)
  {
  }

  lemma OptionalSensible(config: Config, l: Lists, c: Choice)
    requires c in Optional(config)
    ensures Sensible(config, l, c)
  {
  }

  lemma FixedSensible(config: Config, l: Lists, c: Choice)
    requires config.NonNegative() && c in Fixed(config)
    ensures Sensible(config, l, c)
  {
  }

  lemma DisturbancesSensible(config: Config, l: Lists, c: Choice)
    requires config.NonNegative() && c in Disturbances(config)
    ensures Sensible(config, l, c)
  {
    if c in Fixed(config) {
      FixedSensible(config, l, c);
    } else if c in Optional(config) {
      OptionalSensible(config, l, c);
    }
  }

  lemma PausesSensible(config: Config, l: Lists, c: Choice)
    requires config.NonNegative() && c in Pauses(config)
    ensures Sensible(config, l, c)
  {
  }

  lemma ActionSensible(config: Config, l: Lists, i: nat)
    requires config.NonNegative() && i < |Actions(config, l)|
    ensures Sensible(config, l, Actions(config, l)[i])
  {
    var moves, more, pauses := Moves(config, l), Disturbances(config), Pauses(config);
    var c := (moves + more + pauses)[i];
    if i < |moves| {
      assert c == moves[i];
      MovesSensible(config, l, c);
    } else if i < |moves| + |more| {
      assert c == more[i - |moves|];
      DisturbancesSensible(config, l, c);
    } else {
      assert c == pauses[i - |moves| - |more|];
      PausesSensible(config, l, c);
    }
  }

  lemma ActionsNonNegative(config: Config, l: Lists)
    requires config.NonNegative()
    ensures NonNegative(Actions(config, l))
  {
    forall i | 0 <= i < |Actions(config, l)|
      ensures Actions(config, l)[i].weight >= 0.0
    {
      ActionSensible(config, l, i);
    }
  }

  // ---------- the weights ----------

  /** The total weight of an action among the choices. */
  function WeightOf(actions: seq<Choice>, action: Action): real {
    if actions == [] then 0.0
    else (if actions[0].action == action then actions[0].weight else 0.0) + WeightOf(actions[1..], action)
  }

  lemma {:induction false} WeightAppend(a: seq<Choice>, b: seq<Choice>, action: Action)
    ensures WeightOf(a + b, action) == WeightOf(a, action) + WeightOf(b, action)
  {
    if a == [] {
      assert a + b == b;
    } else {
      WeightAppend(a[1..], b, action);
      assert (a + b)[0] == a[0] && (a + b)[1..] == a[1..] + b;
    }
  }

  lemma WeightWhen(b: bool, offered: Action, weight: real, action: Action)
    ensures WeightOf(When(b, offered, weight), action) == if b && offered == action then weight else 0.0
  {
    assert [Choice(offered, weight)][1..] == [];
  }

  lemma MoveWeights(config: Config, l: Lists, action: Action)
    ensures WeightOf(Moves(config, l), action) ==
            match action
            case OutOsd => if |l.ins| > config.minIn then 1.0 else 0.0
            case KillOsd => if |l.live| > config.minLive && config.chanceDown > 0.0 then config.chanceDown else 0.0
            case InOsd => if |l.outs| > config.minOut then 1.7 else 0.0
            case ReviveOsd => if |l.dead| > config.minDead then 1.0 else 0.0
            case _ => 0.0
  {
    var outs := When(|l.ins| > config.minIn, OutOsd, 1.0);
    var kills := When(|l.live| > config.minLive && config.chanceDown > 0.0, KillOsd, config.chanceDown);
    var ins := When(|l.outs| > config.minOut, InOsd, 1.7);
    var revives := When(|l.dead| > config.minDead, ReviveOsd, 1.0);
    WeightAppend(outs + kills + ins, revives, action);
    WeightAppend(outs + kills, ins, action);
    WeightAppend(outs, kills, action);
    WeightWhen(|l.ins| > config.minIn, OutOsd, 1.0, action);
    WeightWhen(|l.live| > config.minLive && config.chanceDown > 0.0, KillOsd, config.chanceDown, action);
    WeightWhen(|l.outs| > config.minOut, InOsd, 1.7, action);
    WeightWhen(|l.dead| > config.minDead, ReviveOsd, 1.0, action);
  }

  lemma WeightCons(c: Choice, rest: seq<Choice>, action: Action)
    ensures WeightOf([c] + rest, action) == (if c.action == action then c.weight else 0.0) + WeightOf(rest, action)
  {
    assert ([c] + rest)[1..] == rest;
  }

  lemma FixedWeights(config: Config, action: Action)
    ensures WeightOf(Fixed(config), action) ==
            match action
            case Reweight => config.reweight
            case GrowPool => config.grow
            case ShrinkPool => config.shrink
            case FixPgpNum => config.fixPgp
            case TestPoolMinSize => config.minSize
            case TestBackfillFull => config.backfillFull
            case _ => 0.0
  {
    var c := Fixed(config);
    var r5 := [c[5]] + [];
    var r4 := [c[4]] + r5;
    var r3 := [c[3]] + r4;
    var r2 := [c[2]] + r3;
    var r1 := [c[1]] + r2;
    WeightCons(c[5], [], action);
    WeightCons(c[4], r5, action);
    WeightCons(c[3], r4, action);
    WeightCons(c[2], r3, action);
    WeightCons(c[1], r2, action);
    WeightCons(c[0], r1, action);
    assert c == [c[0]] + r1;
  }

  lemma OptionalWeights(config: Config, action: Action)
    ensures WeightOf(Optional(config), action) ==
            match action
            case ClusterFull => if config.clusterFull > 0.0 then config.clusterFull else 0.0
            case PgUpmap => if config.upmap > 0.0 then config.upmap else 0.0
            case PgUpmapItems => if config.upmap > 0.0 then config.upmap else 0.0
            case ForceCancelRecovery => if config.forceRecovery > 0.0 then config.forceRecovery else 0.0
            case _ => 0.0
  {
    var full := When(config.clusterFull > 0.0, ClusterFull, config.clusterFull);
    var upmap := When(config.upmap > 0.0, PgUpmap, config.upmap);
    var items := When(config.upmap > 0.0, PgUpmapItems, config.upmap);
    var force := When(config.forceRecovery > 0.0, ForceCancelRecovery, config.forceRecovery);
    WeightAppend(full + upmap + items, force, action);
    WeightAppend(full + upmap, items, action);
    WeightAppend(full, upmap, action);
    WeightWhen(config.clusterFull > 0.0, ClusterFull, config.clusterFull, action);
    WeightWhen(config.upmap > 0.0, PgUpmap, config.upmap, action);
    WeightWhen(config.upmap > 0.0, PgUpmapItems, config.upmap, action);
    WeightWhen(config.forceRecovery > 0.0, ForceCancelRecovery, config.forceRecovery, action);
  }

  lemma PauseWeights(config: Config, action: Action)
    ensures WeightOf(Pauses(config), action) ==
            match action
            case InjectPause(key, long) =>
              if key != "filestore_inject_stall" then 0.0
              else if long then 2.0 * config.pauseLong else 2.0 * config.pauseShort
            case _ => 0.0
  {
    var c := Pauses(config);
    var r3 := [c[3]] + [];
    var r2 := [c[2]] + r3;
    var r1 := [c[1]] + r2;
    WeightCons(c[3], [], action);
    WeightCons(c[2], r3, action);
    WeightCons(c[1], r2, action);
    WeightCons(c[0], r1, action);
    assert c == [c[0]] + r1;
  }

  /** What each action weighs in a state: its share of the draws. */
  lemma ActionWeights(config: Config, l: Lists, action: Action)
    ensures WeightOf(Actions(config, l), action) ==
            WeightOf(Moves(config, l), action) + WeightOf(Fixed(config), action) + WeightOf(Optional(config), action)
            + WeightOf(Pauses(config), action)
            + if action.PrimaryAffinity? && config.primaryAffinity then 1.0 else 0.0
  {
    var primary := When(config.primaryAffinity, PrimaryAffinity, 1.0);
    WeightAppend(Moves(config, l) + Disturbances(config), Pauses(config), action);
    WeightAppend(Moves(config, l), Disturbances(config), action);
    WeightAppend(primary + Fixed(config), Optional(config), action);
    WeightAppend(primary, Fixed(config), action);
    WeightWhen(config.primaryAffinity, PrimaryAffinity, 1.0, action);
  }

  /** The draw selects this action. */
  ghost predicate Selects(config: Config, l: Lists, draw: real, action: Action) {
    exists k: nat :: Draws(Actions(config, l), draw, k) && Actions(config, l)[k].action == action
  }

  lemma SelectedOffered(config: Config, l: Lists, draw: real, action: Action)
    requires config.NonNegative() && Selects(config, l, draw, action)
    ensures Offered(config, action, l)
  {
    var k: nat :| Draws(Actions(config, l), draw, k) && Actions(config, l)[k].action == action;
    ActionSensible(config, l, k);
  }

  // ---------- a round ----------

  /** One round of the loop: whether it cleans up first, whether it then tests a
      map discontinuity, the random fraction of the total weight, and the coin
      of the reweighting. */
  datatype Turn = Turn(clean: bool, discontinuity: bool, fraction: real, single: bool)

  /** Dead OSDs were revived until at most `maxDead` were left. */
  ghost predicate RevivedTo(a: Lists, b: Lists, maxDead: nat) {
    && b.ins == a.ins && b.outs == a.outs && a.live <= b.live && Populations(b) == Populations(a)
    && |b.dead| == if |a.dead| > maxDead then maxDead else |a.dead|
  }

  /** OSDs were marked in, or revived first, until one more than the minimum was
      in; none of those marked in is dead. */
  ghost predicate SpareIn(config: Config, a: Lists, b: Lists) {
    && a.ins <= b.ins && a.live <= b.live && Populations(b) == Populations(a)
    && (forall k | |a.ins| <= k < |b.ins| :: b.ins[k] !in b.dead)
    && |b.ins| == if |a.ins| > config.minIn then |a.ins| else config.minIn + 1
  }

  lemma NewlyInNotDead(l: Lists, x: int, n: nat)
    requires x in l.outs && forall k | n <= k < |l.ins| :: l.ins[k] !in l.dead
    ensures forall k | n <= k < |Inned(l, x).ins| :: Inned(l, x).ins[k] !in Inned(l, x).dead
  {
    var b := Inned(l, x);
    forall y | y in b.dead
      ensures y in l.dead
    {
      assert y in multiset(b.dead) && y in multiset(l.dead);
    }
  }

  /** If every OSD that was out is live or dead, those marked in are live. */
  lemma NewlyInIsLive(config: Config, a: Lists, b: Lists, k: nat)
    requires SpareIn(config, a, b) && |a.ins| <= k < |b.ins|
    requires forall x | x in a.ins + a.outs :: x in a.live + a.dead
    ensures b.ins[k] in b.live
  {
    var x := b.ins[k];
    assert x in multiset(b.ins) + multiset(b.outs);
    assert x in multiset(a.ins) + multiset(a.outs);
    assert x in a.ins + a.outs;
    assert x in multiset(a.live) + multiset(a.dead);
    assert x in multiset(b.live) + multiset(b.dead);
  }

  ghost predicate OneRevived(a: Lists, b: Lists) {
    exists x | x in a.dead :: b == Revived(a, x)
  }

  /** One was killed and marked out, and one was revived. */
  ghost predicate KilledAndRevived(a: Lists, b: Lists) {
    exists x | x in a.live :: OneRevived(Killed(a, x, true), b)
  }

  ghost predicate Discontinued(config: Config, a: Lists, b: Lists) {
    exists s :: SpareIn(config, a, s) && KilledAndRevived(s, b)
  }

  /** The discontinuity test comes up after the clean-up. */
  predicate Tests(turn: Turn, maxDead: nat, a: Lists) {
    turn.clean && turn.discontinuity && |a.live| + (if |a.dead| > maxDead then |a.dead| - maxDead else 0) > 5
  }

  /** The test comes up on a cluster with no more OSDs than the minimum. */
  predicate Stuck(config: Config, turn: Turn, maxDead: nat, a: Lists) {
    Tests(turn, maxDead, a) && |a.ins| + |a.outs| <= config.minIn
  }

  /** The test comes up exactly when it is asked for and more than five are live
      once the clean-up is done. */
  lemma TestsAfterCleanup(turn: Turn, maxDead: nat, a: Lists, b: Lists)
    requires RevivedTo(a, b, maxDead)
    ensures Tests(turn, maxDead, a) <==> turn.clean && turn.discontinuity && |b.live| > 5
  {
    SameSizes(a, b);
  }

  /** What a round does before it chooses an action. */
  ghost predicate Prepares(config: Config, turn: Turn, maxDead: nat, a: Lists, b: Lists) {
    if !turn.clean then b == a
    else if !Tests(turn, maxDead, a) then RevivedTo(a, b, maxDead)
    else exists m :: RevivedTo(a, m, maxDead) && Discontinued(config, m, b)
  }

  /** uniform(0, total), from a random fraction. */
  function Uniform(fraction: real, total: real): real {
    fraction * total
  }

  function Draw(config: Config, turn: Turn, l: Lists): real {
    Uniform(turn.fraction, Total(Actions(config, l)))
  }

  /** A round that ends normally can turn `a` into `b`: the action that its draw
      selects took place. */
  ghost predicate Completes(config: Config, turn: Turn, maxDead: nat, a: Lists, b: Lists) {
    exists r :: Prepares(config, turn, maxDead, a, r) && ActionDone(config, turn, r, b)
  }

  ghost predicate ActionDone(config: Config, turn: Turn, r: Lists, b: Lists) {
    exists action ::
      Selects(config, r, Draw(config, turn, r), action) && !Fails(action, r, turn.single) && Does(action, r, b)
  }

  /** A round can end in an exception: its test is stuck, nothing is selected,
      or the selected action fails. */
  ghost predicate Breaks(config: Config, turn: Turn, maxDead: nat, a: Lists) {
    || Stuck(config, turn, maxDead, a)
    || exists r :: Prepares(config, turn, maxDead, a, r) && ActionBreaks(config, turn, r)
  }

  ghost predicate ActionBreaks(config: Config, turn: Turn, r: Lists) {
    || Draw(config, turn, r) >= Total(Actions(config, r))
    || exists action :: Selects(config, r, Draw(config, turn, r), action) && Fails(action, r, turn.single)
  }

  /** What a completed round was: the clean-up, and then the action that the draw
      selected, which did not fail and had its effect. */
  lemma CompletedRound(config: Config, turn: Turn, maxDead: nat, a: Lists, b: Lists) returns (r: Lists, action: Action)
    requires Completes(config, turn, maxDead, a, b)
    ensures Prepares(config, turn, maxDead, a, r)
    ensures Selects(config, r, Uniform(turn.fraction, Total(Actions(config, r))), action)
    ensures !Fails(action, r, turn.single) && Does(action, r, b)
  {
    r :| Prepares(config, turn, maxDead, a, r) && ActionDone(config, turn, r, b);
    action :| Selects(config, r, Draw(config, turn, r), action) && !Fails(action, r, turn.single) && Does(action, r, b);
  }

  /** Which action is selected: the one in whose interval the draw lies, when the
      weights are laid side by side. */
  lemma SelectedInterval(config: Config, l: Lists, draw: real, action: Action) returns (k: nat)
    requires Selects(config, l, draw, action)
    ensures k < |Actions(config, l)| && Actions(config, l)[k].action == action
    ensures Before(Actions(config, l), k) <= draw < Before(Actions(config, l), k) + Actions(config, l)[k].weight
  {
    k :| Draws(Actions(config, l), draw, k) && Actions(config, l)[k].action == action;
  }

  lemma DiscontinuedKeeps(config: Config, a: Lists, b: Lists)
    requires Discontinued(config, a, b)
    ensures Populations(b) == Populations(a)
    ensures |b.ins| >= config.minIn && |b.live| >= |a.live|
  {
    var s :| SpareIn(config, a, s) && KilledAndRevived(s, b);
    var x :| x in s.live && OneRevived(Killed(s, x, true), b);
    var y :| y in Killed(s, x, true).dead && b == Revived(Killed(s, x, true), y);
    KilledConserves(s, x, true);
    RevivedConserves(Killed(s, x, true), y);
  }

  lemma PreparesKeeps(config: Config, turn: Turn, maxDead: nat, a: Lists, b: Lists)
    requires Prepares(config, turn, maxDead, a, b)
    ensures Populations(b) == Populations(a) && Above(config, a, b)
  {
    if Tests(turn, maxDead, a) {
      var m :| RevivedTo(a, m, maxDead) && Discontinued(config, m, b);
      DiscontinuedKeeps(config, m, b);
    }
  }

  lemma CompletesKeeps(config: Config, turn: Turn, maxDead: nat, a: Lists, b: Lists)
    requires config.NonNegative() && Completes(config, turn, maxDead, a, b)
    ensures Populations(b) == Populations(a) && Above(config, a, b)
  {
    var r :| Prepares(config, turn, maxDead, a, r) && ActionDone(config, turn, r, b);
    var action :| Selects(config, r, Draw(config, turn, r), action) && Does(action, r, b);
    PreparesKeeps(config, turn, maxDead, a, r);
    SelectedOffered(config, r, Draw(config, turn, r), action);
    DoesConserves(action, r, b);
    DoesKeepsFloors(config, action, r, b);
  }

  // ---------- a whole run ----------

  /** The populations are the same, and neither list fell below its floor. */
  ghost predicate Keeps(config: Config, a: Lists, b: Lists) {
    Populations(b) == Populations(a) && Above(config, a, b)
  }

  /** `history` is a run of rounds: each entry turns into the next. */
  ghost predicate Follows(config: Config, turns: seq<Turn>, maxDead: nat, history: seq<Lists>) {
    && 0 < |history| <= |turns| + 1
    && forall i | 0 <= i < |history| - 1 :: Completes(config, turns[i], maxDead, history[i], history[i + 1])
  }

  /** Every state of every run has the two populations of its first state, and
      neither floor is ever broken. */
  lemma {:induction false} RunKeeps(config: Config, turns: seq<Turn>, maxDead: nat, history: seq<Lists>, n: nat)
    requires config.NonNegative() && Follows(config, turns, maxDead, history) && n < |history|
    ensures Keeps(config, history[0], history[n])
    ensures Floors(config, history[0]) ==> Floors(config, history[n])
  {
    if n > 0 {
      RunKeeps(config, turns, maxDead, history, n - 1);
      assert Completes(config, turns[n - 1], maxDead, history[n - 1], history[n - 1 + 1]);
      CompletesKeeps(config, turns[n - 1], maxDead, history[n - 1], history[n]);
    }
  }

  lemma RunKeepsAll(config: Config, turns: seq<Turn>, maxDead: nat, history: seq<Lists>)
    requires config.NonNegative() && Follows(config, turns, maxDead, history)
    ensures forall i | 0 <= i < |history| :: Keeps(config, history[0], history[i])
  {
    forall i | 0 <= i < |history|
      ensures Keeps(config, history[0], history[i])
    {
      RunKeeps(config, turns, maxDead, history, i);
    }
  }

  // ---------- when a run completes ----------

  /** Everything that is offered can be carried out above the floors. */
  ghost predicate Sound(config: Config) {
    && config.NonNegative() && config.minSize == 0.0
    && config.minIn >= 0 && config.minLive >= 0 && config.minOut >= 0 && config.minDead >= 0
    && (config.minIn > 0 || (!config.primaryAffinity && config.reweight == 0.0))
    && (config.minLive > 0 || (config.pauseShort == 0.0 && config.pauseLong == 0.0))
  }

  /** There are OSDs to spare, so that something is always offered. */
  ghost predicate Roomy(config: Config, l: Lists) {
    && |l.ins| + |l.outs| > config.minIn
    && (|l.ins| + |l.outs| > config.minIn + config.minOut || Total(Disturbances(config) + Pauses(config)) > 0.0)
  }

  lemma {:induction false} PositiveWeight(actions: seq<Choice>, n: nat) returns (i: nat)
    requires n <= |actions| && Before(actions, n) > 0.0
    ensures i < n && actions[i].weight > 0.0
  {
    if actions[n - 1].weight > 0.0 {
      return n - 1;
    }
    i := PositiveWeight(actions, n - 1);
  }

  lemma PositiveTotal(actions: seq<Choice>, i: nat)
    requires NonNegative(actions) && i < |actions| && actions[i].weight > 0.0
    ensures Total(actions) > 0.0
  {
    BeforeGrows(actions, 0, i);
    BeforeGrows(actions, i + 1, |actions|);
  }

  lemma MoveOffered(config: Config, l: Lists) returns (i: nat)
    requires |l.ins| > config.minIn || |l.outs| > config.minOut
    ensures i < |Moves(config, l)| && Moves(config, l)[i].weight > 0.0
  {
    var outs := When(|l.ins| > config.minIn, OutOsd, 1.0);
    var kills := When(|l.live| > config.minLive && config.chanceDown > 0.0, KillOsd, config.chanceDown);
    i := if |l.ins| > config.minIn then 0 else |outs| + |kills|;
  }

  lemma PartPositive(a: seq<Choice>, b: seq<Choice>, i: nat)
    requires NonNegative(a + b) && i < |a + b| && (a + b)[i].weight > 0.0
    ensures Total(a + b) > 0.0
  {
    PositiveTotal(a + b, i);
  }

  lemma SomethingOffered(config: Config, l: Lists)
    requires Sound(config) && Roomy(config, l)
    ensures Total(Actions(config, l)) > 0.0
  {
    ActionsNonNegative(config, l);
    var moves, always := Moves(config, l), Disturbances(config) + Pauses(config);
    Associative(moves, Disturbances(config), Pauses(config));
    if |l.ins| > config.minIn || |l.outs| > config.minOut {
      var i := MoveOffered(config, l);
      PartPositive(moves, always, i);
    } else {
      var i := PositiveWeight(always, |always|);
      PartPositive(moves, always, |moves| + i);
    }
  }

  lemma OfferedWorks(config: Config, l: Lists, i: nat, single: bool)
    requires Sound(config) && Floors(config, l)
    requires i < |Actions(config, l)| && Actions(config, l)[i].weight > 0.0
    ensures !Fails(Actions(config, l)[i].action, l, single)
  {
    ActionSensible(config, l, i);
  }

  lemma UniformBelow(fraction: real, total: real)
    requires 0.0 <= fraction < 1.0 && total > 0.0
    ensures Uniform(fraction, total) < total
  {
    assert (1.0 - fraction) * total > 0.0;
  }

  lemma ActionWorks(config: Config, turn: Turn, r: Lists)
    requires Sound(config) && Floors(config, r) && Roomy(config, r) && 0.0 <= turn.fraction < 1.0
    ensures !ActionBreaks(config, turn, r)
  {
    SomethingOffered(config, r);
    UniformBelow(turn.fraction, Total(Actions(config, r)));
    var draw := Draw(config, turn, r);
    forall action | Selects(config, r, draw, action)
      ensures !Fails(action, r, turn.single)
    {
      var k: nat :| Draws(Actions(config, r), draw, k) && Actions(config, r)[k].action == action;
      ActionsNonNegative(config, r);
      DrawsOne(Actions(config, r), draw, k, k);
      OfferedWorks(config, r, k, turn.single);
    }
  }

  /** With sound settings, enough OSDs and a fraction below one, no round can
      end in an exception, whatever is chosen in it. */
  lemma NeverBreaks(config: Config, turn: Turn, maxDead: nat, a: Lists)
    requires Sound(config) && Floors(config, a) && Roomy(config, a) && 0.0 <= turn.fraction < 1.0
    ensures !Breaks(config, turn, maxDead, a)
  {
    forall r | Prepares(config, turn, maxDead, a, r)
      ensures !ActionBreaks(config, turn, r)
    {
      PreparesKeeps(config, turn, maxDead, a, r);
      SameSizes(a, r);
      ActionWorks(config, turn, r);
    }
  }

  lemma StaysRoomy(config: Config, a: Lists, b: Lists)
    requires Keeps(config, a, b) && Floors(config, a) && Roomy(config, a)
    ensures Floors(config, b) && Roomy(config, b)
  {
    SameSizes(a, b);
  }

  lemma DrawNonNegative(config: Config, turn: Turn, l: Lists)
    requires config.NonNegative() && turn.fraction >= 0.0
    ensures Draw(config, turn, l) >= 0.0
  {
    ActionsNonNegative(config, l);
    BeforeGrows(Actions(config, l), 0, |Actions(config, l)|);
  }

  // ---------- when a round can break ----------

  /** Some choice of positive weight fails, for the worse side of the coin. */
  ghost predicate Exposed(config: Config, l: Lists) {
    exists k | 0 <= k < |Actions(config, l)| ::
      Actions(config, l)[k].weight > 0.0 && Fails(Actions(config, l)[k].action, l, true)
  }

  /** A turn without a clean-up, whose draw is the lower end of choice `k`. */
  function Aimed(config: Config, l: Lists, k: nat): Turn
    requires k <= |Actions(config, l)| && Total(Actions(config, l)) > 0.0
  {
    Turn(false, false, Before(Actions(config, l), k) / Total(Actions(config, l)), true)
  }

  lemma Quotient(x: real, total: real)
    requires 0.0 <= x < total
    ensures 0.0 <= x / total < 1.0 && Uniform(x / total, total) == x
  {
  }

  lemma AimedSelects(config: Config, l: Lists, k: nat)
    requires config.NonNegative() && k < |Actions(config, l)| && Actions(config, l)[k].weight > 0.0
    ensures Total(Actions(config, l)) > 0.0 && 0.0 <= Aimed(config, l, k).fraction < 1.0
    ensures Selects(config, l, Draw(config, Aimed(config, l, k), l), Actions(config, l)[k].action)
  {
    var actions := Actions(config, l);
    ActionsNonNegative(config, l);
    PositiveTotal(actions, k);
    BeforeGrows(actions, 0, k);
    BeforeGrows(actions, k + 1, |actions|);
    Quotient(Before(actions, k), Total(actions));
    assert Draws(actions, Draw(config, Aimed(config, l, k), l), k);
  }

  /** For any lists: some turn with a fraction below one can fail at its action,
      exactly when nothing of positive weight is offered or something of
      positive weight fails. */
  lemma ActionBreaksIff(config: Config, l: Lists)
    requires config.NonNegative()
    ensures (exists turn: Turn :: 0.0 <= turn.fraction < 1.0 && ActionBreaks(config, turn, l)) <==>
            Total(Actions(config, l)) == 0.0 || Exposed(config, l)
  {
    var actions := Actions(config, l);
    ActionsNonNegative(config, l);
    BeforeGrows(actions, 0, |actions|);
    if Total(actions) == 0.0 {
      assert ActionBreaks(config, Turn(false, false, 0.0, true), l);
    } else if Exposed(config, l) {
      var k :| 0 <= k < |actions| && actions[k].weight > 0.0 && Fails(actions[k].action, l, true);
      AimedSelects(config, l, k);
      assert ActionBreaks(config, Aimed(config, l, k), l);
    } else {
      forall turn: Turn | 0.0 <= turn.fraction < 1.0
        ensures !ActionBreaks(config, turn, l)
      {
        UnexposedWorks(config, turn, l);
      }
    }
  }

  lemma UnexposedWorks(config: Config, turn: Turn, l: Lists)
    requires config.NonNegative() && 0.0 <= turn.fraction < 1.0
    requires Total(Actions(config, l)) > 0.0 && !Exposed(config, l)
    ensures !ActionBreaks(config, turn, l)
  {
    var actions, draw := Actions(config, l), Draw(config, turn, l);
    ActionsNonNegative(config, l);
    UniformBelow(turn.fraction, Total(actions));
    forall action | Selects(config, l, draw, action)
      ensures !Fails(action, l, turn.single)
    {
      var k: nat :| Draws(actions, draw, k) && actions[k].action == action;
      DrawsOne(actions, draw, k, k);
    }
  }

  /** With a positive weight for the minimum-size test, or when nothing of
      positive weight is offered, a round can break from any lists. */
  lemma UnsoundBreaks(config: Config, maxDead: nat, l: Lists)
    requires config.NonNegative() && (config.minSize > 0.0 || Total(Actions(config, l)) == 0.0)
    ensures exists turn: Turn :: 0.0 <= turn.fraction < 1.0 && Breaks(config, turn, maxDead, l)
  {
    if config.minSize > 0.0 {
      var k := MinSizeAt(config, l);
      AimedSelects(config, l, k);
      var turn := Aimed(config, l, k);
      assert Prepares(config, turn, maxDead, l, l) && ActionBreaks(config, turn, l);
    } else {
      var turn := Turn(false, false, 0.0, true);
      assert Prepares(config, turn, maxDead, l, l) && ActionBreaks(config, turn, l);
    }
  }

  lemma MinSizeAt(config: Config, l: Lists) returns (k: nat)
    ensures k < |Actions(config, l)| && Actions(config, l)[k] == Choice(TestPoolMinSize, config.minSize)
  {
    var front := Moves(config, l) + When(config.primaryAffinity, PrimaryAffinity, 1.0);
    k := |front| + 4;
  }

  // ---------- the thrasher ----------

  /** random.choice: any element. */
  method AnyOf(s: seq<int>) returns (x: int)
    requires s != []
    ensures x in s
  {
    var i :| 0 <= i < |s|;
    x := s[i];
  }

  class Thrasher {
    const config: Config
    var inOsds: seq<int>
    var outOsds: seq<int>
    var liveOsds: seq<int>
    var deadOsds: seq<int>

    constructor (config: Config, ins: seq<int>, outs: seq<int>, live: seq<int>, dead: seq<int>)
      ensures this.config == config && View() == Lists(ins, outs, live, dead)
    {
      this.config := config;
      inOsds, outOsds, liveOsds, deadOsds := ins, outs, live, dead;
    }

    function View(): Lists
      reads this
    {
      Lists(inOsds, outOsds, liveOsds, deadOsds)
    }

    method OutOsd(osd: int)
      requires osd in inOsds
      modifies this`inOsds, this`outOsds
      ensures View() == Outed(old(View()), osd) && Populations(View()) == Populations(old(View()))
      ensures inOsds == Remove(old(inOsds), osd) && outOsds == old(outOsds) + [osd]
    {
      OutedConserves(View(), osd);
      inOsds := Remove(inOsds, osd);
      outOsds := outOsds + [osd];
    }

    method KillOsd(osd: int, markOut: bool)
      requires osd in liveOsds
      modifies this
      ensures View() == Killed(old(View()), osd, markOut) && Populations(View()) == Populations(old(View()))
      ensures liveOsds == Remove(old(liveOsds), osd) && deadOsds == old(deadOsds) + [osd]
      ensures if markOut && osd in old(inOsds)
              then inOsds == Remove(old(inOsds), osd) && outOsds == old(outOsds) + [osd]
              else inOsds == old(inOsds) && outOsds == old(outOsds)
    {
      KilledConserves(View(), osd, markOut);
      liveOsds := Remove(liveOsds, osd);
      deadOsds := deadOsds + [osd];
      if markOut && osd in inOsds {
        OutOsd(osd);
      }
    }

    method ReviveOsd(osd: int)
      requires osd in deadOsds
      modifies this`liveOsds, this`deadOsds
      ensures View() == Revived(old(View()), osd) && Populations(View()) == Populations(old(View()))
      ensures deadOsds == Remove(old(deadOsds), osd) && liveOsds == old(liveOsds) + [osd]
    {
      RevivedConserves(View(), osd);
      deadOsds := Remove(deadOsds, osd);
      liveOsds := liveOsds + [osd];
    }

    /** A dead OSD is revived and stays out, a live one is marked in; either way
        one fewer is dead or out. */
    method InOsd(osd: int)
      requires osd in outOsds
      modifies this
      ensures View() == Inned(old(View()), osd) && Populations(View()) == Populations(old(View()))
      ensures if osd in old(deadOsds)
              then deadOsds == Remove(old(deadOsds), osd) && liveOsds == old(liveOsds) + [osd]
                   && inOsds == old(inOsds) && outOsds == old(outOsds)
              else outOsds == Remove(old(outOsds), osd) && inOsds == old(inOsds) + [osd]
                   && liveOsds == old(liveOsds) && deadOsds == old(deadOsds)
      ensures |deadOsds| + |outOsds| == old(|deadOsds| + |outOsds|) - 1
    {
      InnedConserves(View(), osd);
      if osd in deadOsds {
        ReviveOsd(osd);
        return;
      }
      outOsds := Remove(outOsds, osd);
      inOsds := inOsds + [osd];
    }

    method ReviveDownTo(maxDead: nat)
      modifies this`liveOsds, this`deadOsds
      ensures RevivedTo(old(View()), View(), maxDead)
    {
      while |deadOsds| > maxDead
        invariant old(liveOsds) <= liveOsds && Populations(View()) == Populations(old(View()))
        invariant |deadOsds| <= |old(deadOsds)| && (|deadOsds| < maxDead ==> deadOsds == old(deadOsds))
        decreases |deadOsds|
      {
        var osd := AnyOf(deadOsds);
        ReviveOsd(osd);
      }
    }

    /** Everything ends up live and in, whatever is chosen on the way. */
    method AllUp()
      modifies this
      ensures deadOsds == [] && outOsds == []
      ensures multiset(liveOsds) == old(multiset(liveOsds) + multiset(deadOsds))
      ensures multiset(inOsds) == old(multiset(inOsds) + multiset(outOsds))
      ensures Populations(View()) == Populations(old(View()))
    {
      ReviveDownTo(0);
      assert deadOsds == [];
      while |outOsds| > 0
        invariant deadOsds == [] && Populations(View()) == Populations(old(View()))
        decreases |outOsds|
      {
        var osd := AnyOf(outOsds);
        InOsd(osd);
      }
      assert outOsds == [];
    }

    /** Mark OSDs in until there is one more than the minimum. It stops, and
        choosing from an empty list never ends it early, exactly when the
        cluster has more OSDs than the minimum. */
    method InUntilSpare() returns (ok: bool)
      modifies this
      ensures ok <==> old(|inOsds| + |outOsds|) > config.minIn
      ensures ok ==> SpareIn(config, old(View()), View())
      ensures Populations(View()) == Populations(old(View()))
    {
      while |inOsds| < config.minIn + 1
        invariant |inOsds| + |outOsds| == old(|inOsds| + |outOsds|)
        invariant old(inOsds) <= inOsds && old(liveOsds) <= liveOsds
        invariant forall k | |old(inOsds)| <= k < |inOsds| :: inOsds[k] !in deadOsds
        invariant inOsds == old(inOsds) || |inOsds| <= config.minIn + 1
        invariant Populations(View()) == Populations(old(View()))
        decreases |deadOsds| + |outOsds|
      {
        if outOsds == [] {
          return false;
        }
        var osd := AnyOf(outOsds);
        NewlyInNotDead(View(), osd, |old(inOsds)|);
        InOsd(osd);
      }
      return true;
    }

    /** The test gets past its first loop exactly when the cluster has more OSDs
        than the minimum. */
    method TestMapDiscontinuity() returns (ok: bool, ghost spare: Lists, ghost victim: int, ghost back: int)
      requires liveOsds != []
      modifies this
      ensures ok <==> old(|inOsds| + |outOsds|) > config.minIn
      ensures ok ==> Discontinued(config, old(View()), View())
      ensures ok ==> SpareIn(config, old(View()), spare) && victim in spare.live && back in spare.dead + [victim]
      ensures ok ==> liveOsds == Remove(spare.live, victim) + [back] && deadOsds == Remove(spare.dead + [victim], back)
      ensures ok ==> if victim in spare.ins
                     then inOsds == Remove(spare.ins, victim) && outOsds == spare.outs + [victim]
                     else inOsds == spare.ins && outOsds == spare.outs
      ensures Populations(View()) == Populations(old(View()))
    {
      ok := InUntilSpare();
      spare, victim, back := View(), 0, 0;
      if !ok {
        return;
      }
      var osd := AnyOf(liveOsds);
      KillOsd(osd, true);
      var revived := AnyOf(deadOsds);
      ReviveOsd(revived);
      victim, back := osd, revived;
      assert OneRevived(Killed(spare, osd, true), View());
      assert KilledAndRevived(spare, View());
    }

    /** The action that the draw selects, if the draw is below the total. */
    method ChooseAction(draw: real) returns (action: Option<Action>)
      requires config.NonNegative() && draw >= 0.0
      ensures action.None? <==> draw >= Total(Actions(config, View()))
      ensures action.Some? ==> Selects(config, View(), draw, action.value)
      ensures action.Some? ==> Offered(config, action.value, View())
    {
      ActionsNonNegative(config, View());
      ghost var k;
      action, k := Pick(Actions(config, View()), draw);
      if action.Some? {
        SelectedOffered(config, View(), draw, action.value);
      }
    }

    /** Carry an action out; false when it ends in an exception. `osd` is the
        number that was moved. */
    method Perform(action: Action, single: bool) returns (ok: bool, ghost osd: int)
      modifies this
      ensures ok <==> !Fails(action, old(View()), single)
      ensures ok ==> Does(action, old(View()), View())
      ensures ok && action.OutOsd? ==> osd in old(inOsds) && View() == Outed(old(View()), osd)
      ensures ok && action.KillOsd? ==> osd in old(liveOsds) && View() == Killed(old(View()), osd, false)
      ensures ok && action.InOsd? ==> osd in old(outOsds) && View() == Inned(old(View()), osd)
      ensures ok && action.ReviveOsd? ==> osd in old(deadOsds) && View() == Revived(old(View()), osd)
      ensures !ok && !action.TestPoolMinSize? ==> View() == old(View())
      ensures !ok && action.TestPoolMinSize? ==> deadOsds == [] && outOsds == []
      ensures Populations(View()) == Populations(old(View()))
    {
      ok, osd := true, 0;
      match action {
        case OutOsd =>
          if inOsds == [] {
            return false, 0;
          }
          var x := AnyOf(inOsds);
          OutOsd(x);
          osd := x;
        case KillOsd =>
          if liveOsds == [] {
            return false, 0;
          }
          var x := AnyOf(liveOsds);
          KillOsd(x, false);
          osd := x;
        case InOsd =>
          if outOsds == [] {
            return false, 0;
          }
          var x := AnyOf(outOsds);
          InOsd(x);
          osd := x;
        case ReviveOsd =>
          if deadOsds == [] {
            return false, 0;
          }
          var x := AnyOf(deadOsds);
          ReviveOsd(x);
          osd := x;
        case PrimaryAffinity =>
          if inOsds == [] {
            return false, 0;
          }
        case Reweight =>
          if single && inOsds == [] {
            return false, 0;
          }
        case InjectPause(_, _) =>
          if liveOsds == [] {
            return false, 0;
          }
        case TestPoolMinSize =>
          AllUp();
          ok := false;
        case _ =>
      }
    }

    /** The clean-up of a round; false when its test is stuck. */
    method Prepare(turn: Turn, maxDead: nat) returns (ok: bool)
      modifies this
      ensures ok <==> !Stuck(config, turn, maxDead, old(View()))
      ensures ok ==> Prepares(config, turn, maxDead, old(View()), View())
      ensures ok && !turn.clean ==> View() == old(View())
      ensures ok && turn.clean && !Tests(turn, maxDead, old(View())) ==> RevivedTo(old(View()), View(), maxDead)
      ensures ok && Tests(turn, maxDead, old(View())) ==>
                exists m :: RevivedTo(old(View()), m, maxDead) && Discontinued(config, m, View())
      ensures Populations(View()) == Populations(old(View()))
    {
      ok := true;
      if turn.clean {
        ReviveDownTo(maxDead);
        SameSizes(old(View()), View());
        if turn.discontinuity && |liveOsds| > 5 {
          ghost var spare, victim, back;
          ok, spare, victim, back := TestMapDiscontinuity();
        }
      }
    }

    /** Choose an action and carry it out. */
    method Act(turn: Turn) returns (ok: bool)
      requires config.NonNegative() && turn.fraction >= 0.0
      modifies this
      ensures ok ==> ActionDone(config, turn, old(View()), View())
      ensures !ok ==> ActionBreaks(config, turn, old(View()))
      ensures Populations(View()) == Populations(old(View()))
    {
      var draw := Draw(config, turn, View());
      DrawNonNegative(config, turn, View());
      var action := ChooseAction(draw);
      if action.None? {
        return false;
      }
      ghost var osd;
      ok, osd := Perform(action.value, turn.single);
    }

    /** One round of the thrashing loop. */
    method Round(turn: Turn, maxDead: nat) returns (ok: bool)
      requires config.NonNegative() && turn.fraction >= 0.0
      modifies this
      ensures ok ==> Completes(config, turn, maxDead, old(View()), View())
      ensures !ok ==> Breaks(config, turn, maxDead, old(View()))
      ensures Populations(View()) == Populations(old(View()))
    {
      ok := Prepare(turn, maxDead);
      if ok {
        ok := Act(turn);
      }
    }

    /** The rounds of the loop, up to the first that breaks. */
    method Rounds(turns: seq<Turn>, maxDead: nat) returns (ok: bool, ghost history: seq<Lists>)
      requires config.NonNegative()
      requires forall i | 0 <= i < |turns| :: turns[i].fraction >= 0.0
      modifies this
      ensures Follows(config, turns, maxDead, history) && history[0] == old(View())
      ensures ok ==> |history| == |turns| + 1 && history[|turns|] == View()
      ensures !ok ==> |history| <= |turns| && Breaks(config, turns[|history| - 1], maxDead, history[|history| - 1])
      ensures Populations(View()) == Populations(old(View()))
    {
      history := [View()];
      for n := 0 to |turns|
        invariant |history| == n + 1 && history[0] == old(View()) && history[n] == View()
        invariant Follows(config, turns, maxDead, history)
        invariant Populations(View()) == Populations(old(View()))
      {
        ok := Round(turns[n], maxDead);
        if !ok {
          return;
        }
        history := history + [View()];
      }
      ok := true;
    }

    /** The whole thrashing loop, for any rounds. `history` has the lists at the
        start and after every completed round. A run ends early exactly when
        nothing is live at the start or a round broke. A completed run ends
        with all OSDs up and in. With sound settings, enough OSDs and fractions
        below one, every run completes. */
    method DoThrash(turns: seq<Turn>, maxDead: nat) returns (ok: bool, ghost history: seq<Lists>)
      requires config.NonNegative()
      requires forall i | 0 <= i < |turns| :: turns[i].fraction >= 0.0
      modifies this
      ensures Follows(config, turns, maxDead, history) && history[0] == old(View())
      ensures ok ==> |history| == |turns| + 1 && deadOsds == [] && outOsds == []
      ensures !ok && old(liveOsds) != [] ==>
                |history| <= |turns| && Breaks(config, turns[|history| - 1], maxDead, history[|history| - 1])
      ensures old(liveOsds) == [] ==> !ok && View() == old(View())
      ensures forall i | 0 <= i < |history| :: Keeps(config, history[0], history[i])
      ensures Populations(View()) == Populations(old(View()))
      ensures Sound(config) && Floors(config, old(View())) && Roomy(config, old(View())) && old(liveOsds) != [] ==>
                (forall i | 0 <= i < |turns| :: turns[i].fraction < 1.0) ==> ok
    {
      history := [View()];
      if liveOsds == [] {
        return false, history;
      }
      ok, history := Rounds(turns, maxDead);
      RunKeepsAll(config, turns, maxDead, history);
      if ok {
        AllUp();
        AllUp();
      } else if Sound(config) && Floors(config, history[0]) && Roomy(config, history[0]) {
        StaysRoomy(config, history[0], history[|history| - 1]);
        if turns[|history| - 1].fraction < 1.0 {
          NeverBreaks(config, turns[|history| - 1], maxDead, history[|history| - 1]);
        }
      }
    }
  }
}
