/** How often the databases are probed. Persisted times have whole seconds, the clock does not. */
module Spacing {
  import opened Conditions
  import opened Model
  import opened Cluster
  import Ownership

  predicate Stamped(s: State) {
    s.config.Some? && Exists(s.config.value.status.conditions, NbLeaderFound)
  }

  function Stamp(s: State): int
    requires s.config.Some?
  {
    Lookup(s.config.value.status.conditions, NbLeaderFound).transition
  }

  /** The step is a health check whose result was persisted. */
  ghost predicate Checks(op: Operator, s: State, a: Action) {
    a.HealthPass? && Next(op, s, a) != s
  }

  /** The Configuration outlives the run. */
  ghost predicate Survives(op: Operator, s: State, actions: seq<Action>)
    decreases |actions|
  {
    s.config.Some? && (actions == [] || Survives(op, Next(op, s, actions[0]), actions[1..]))
  }

  /** The clock readings of the persisted checks of a run, in order. */
  ghost function CheckTimes(op: Operator, s: State, actions: seq<Action>): seq<int>
    decreases |actions|
  {
    if actions == [] then []
    else (if Checks(op, s, actions[0]) then [s.clock] else []) + CheckTimes(op, Next(op, s, actions[0]), actions[1..])
  }

  /** A configuration pass never restamps the leader condition once it exists. */
  lemma ReconcilingKeepsStamp(c: ConfigObj, found: seq<string>, now: int)
    requires Exists(c.status.conditions, NbLeaderFound)
    ensures var cs := ReconciledStatus(c, found, now).conditions;
            Exists(cs, NbLeaderFound) && Lookup(cs, NbLeaderFound) == Lookup(c.status.conditions, NbLeaderFound)
  {
    hide Set, Lookup, Exists, IndexOf, InitConditions;
    var cs := InitConditions(c.status.conditions, BASELINE, c.generation, now);
    InitMeaning(c.status.conditions, BASELINE, c.generation, now, NbLeaderFound);
    LookupAfterSet(cs, WaitingCondition(c.generation, now), NbLeaderFound);
    LookupAfterSet(cs, FoundCondition(Addresses.Sort(found), c.generation, now), NbLeaderFound);
  }

  /** Only a persisted check moves the stamp, and then to the current second. */
  lemma StampMoves(op: Operator, s: State, a: Action)
    requires Stamped(s) && Next(op, s, a).config.Some?
    ensures var s' := Next(op, s, a);
            && Stamped(s')
            && (if Checks(op, s, a) then Stamp(s') == s.clock / SECOND && (Stamp(s) + op.interval) * SECOND < s.clock
                else Stamp(s') == Stamp(s))
  {
    hide ConfigurationPlan, NodePlan, HealthPlan, HealthConditions, Take, PerformAll, Lookup, Exists;
    var c := s.config.value;
    match a
    case ConfigurationPass(listing, order, cut) =>
      if IsListing(listing, s.nodes) && IsOrder(order) {
        ConfigurationKeepsStamp(op, s, listing, order, cut);
      }
    case NodePass(name, cut) => Ownership.NodeEffect(s, name, cut);
    case HealthPass(answers, cut) =>
      HealthEffect(op, s, answers, cut);
      CheckStamps(c, answers, s.clock / SECOND);
    case _ =>
  }

  lemma CheckStamps(c: ConfigObj, answers: HealthAnswers, now: int)
    ensures var checked := HealthConditions(c.status.conditions, c.generation, answers, now);
            Exists(checked, NbLeaderFound) && Lookup(checked, NbLeaderFound).transition == now
  {
    hide HealthConditions, Lookup, Exists;
    HealthMeaning(c.status.conditions, c.generation, answers, now, NbLeaderFound);
  }

  lemma ConfigurationKeepsStamp(op: Operator, s: State, listing: seq<string>, order: seq<Kind>, cut: nat)
    requires Stamped(s)
    ensures var s' := PerformAll(s, Take(ConfigurationPlan(op, s, listing, order), cut));
            s'.config.Some? ==> Stamped(s') && Stamp(s') == Stamp(s)
  {
    hide ConfigurationPlan, Take, PerformAll, SweepCount, ApplyAll, ApplyPlan, ReconciledStatus, Lookup, Exists;
    var c := s.config.value;
    if c.deleting {
      DeletionEffect(op, s, listing, order, cut);
    } else if !c.finalizer {
      FinalizerPass(op, s, listing, order, cut);
    } else {
      var done := ReconcilingPass(op, s, listing, order, cut);
      var found := FoundAddresses(listing, s.nodes, c.spec);
      if found.Some? {
        ReconcilingKeepsStamp(c, found.value, s.clock / SECOND);
      }
    }
  }

  /** With a stamp in place, the i-th later check happens more than i + 1 intervals after it. */
  lemma {:induction false} ChecksAfterStamp(op: Operator, s: State, actions: seq<Action>, i: nat)
    requires Survives(op, s, actions) && Stamped(s) && op.interval >= 0
    requires i < |CheckTimes(op, s, actions)|
    ensures CheckTimes(op, s, actions)[i] > (Stamp(s) + (i + 1) * op.interval) * SECOND
    decreases |actions|
  {
    hide Next, Lookup;
    var a := actions[0];
    var s' := Next(op, s, a);
    StampMoves(op, s, a);
    if !Checks(op, s, a) {
      ChecksAfterStamp(op, s', actions[1..], i);
    } else if i > 0 {
      ChecksAfterStamp(op, s', actions[1..], i - 1);
      Accumulate(Stamp(s), Stamp(s'), s.clock, op.interval, i);
    }
  }

  lemma Accumulate(stamp: int, next: int, clock: int, interval: int, i: nat)
    requires next == clock / SECOND && (stamp + interval) * SECOND < clock
    ensures (next + i * interval) * SECOND >= (stamp + (i + 1) * interval) * SECOND
  {
    assert next >= stamp + interval;
    assert (i + 1) * interval == i * interval + interval;
  }

  /** Spacing over any run that the Configuration survives: after the first of its persisted
      checks, the j-th later one comes more than j intervals minus one second afterwards. The
      second is the one that storing the time in whole seconds costs. */
  lemma {:induction false} ChecksAreSpaced(op: Operator, s: State, actions: seq<Action>, j: nat)
    requires Survives(op, s, actions) && op.interval >= 0
    requires 0 < j < |CheckTimes(op, s, actions)|
    ensures var times := CheckTimes(op, s, actions);
            times[j] - times[0] > (j * op.interval - 1) * SECOND
    decreases |actions|
  {
    hide Lookup, Exists, HealthConditions;
    var a := actions[0];
    var s' := Next(op, s, a);
    if Checks(op, s, a) {
      HealthEffect(op, s, a.answers, a.cut);
      HealthMeaning(s.config.value.status.conditions, s.config.value.generation, a.answers, s.clock / SECOND,
                    NbLeaderFound);
      ChecksAfterStamp(op, s', actions[1..], j - 1);
    } else {
      ChecksAreSpaced(op, s', actions[1..], j);
    }
  }

  /** The lost second is real: the next permitted check is always more than a full interval
      away exactly when the stamped check fell on a whole second. */
  lemma FullIntervalIff(cs: seq<Condition>, interval: int, clock: int)
    requires Lookup(cs, NbLeaderFound).transition == clock / SECOND
    ensures (forall later: int :: CheckNeeded(cs, interval, later) ==> later - clock > interval * SECOND) <==>
              clock % SECOND == 0
  {
    hide Lookup;
    var stamp := clock / SECOND;
    var soonest := (stamp + interval) * SECOND + 1;
    assert CheckNeeded(cs, interval, soonest);
    assert soonest - clock == interval * SECOND + 1 - clock % SECOND;
  }
}
