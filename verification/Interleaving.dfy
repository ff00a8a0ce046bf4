/** The three controllers at API-call granularity. Each reads a snapshot, works on a private
    copy, and later sends a status patch computed against that snapshot, with no lock: any
    number of other writes may land in between. Listings, clock readings and probe results are
    arbitrary, since they may be taken at any time between the read and the write. */
module Interleaving {
  import opened MergePatch
  import opened Addresses
  import opened Conditions
  import opened Model

  /** A pass between its read and its write; `generation` is the object's when it was read. */
  datatype Flight = Flight(generation: nat, base: Status, modified: Status)

  datatype State = State(
    config: ConfigObj,
    configuration: Option<Flight>,
    node: Option<Flight>,
    health: Option<Flight>)

  datatype Action =
    | ConfigurationRead(found: seq<string>, now: int)
    | ConfigurationWrite
    | ConfigurationAbort
    | NodeRead(address: string)
    | NodeWrite
    | NodeAbort
    | HealthRead(answers: HealthAnswers, now: int)
    | HealthWrite
    | HealthAbort
    | AddFinalizer
    | EditSpec(spec: Spec)
    | RequestDeletion
    | DropFinalizer
    | Recreate(uid: nat, spec: Spec)

  function Landed(c: ConfigObj, f: Flight): ConfigObj {
    c.(status := PatchStatus(c.status, f.base, f.modified))
  }

  /** One step; an action whose guard fails changes nothing. Only the configuration controller
      removes the object's finalizer, in a pass of its own, and it has a single worker. A new
      object can appear under the name only once deletion was requested and the finalizer is gone. */
  function Next(s: State, a: Action): State {
    var c := s.config;
    match a
    case ConfigurationRead(found, now) =>
      if c.deleting || !c.finalizer || s.configuration.Some? then s
      else s.(configuration := Some(Flight(c.generation, c.status, ReconciledStatus(c, found, now))))
    case ConfigurationWrite =>
      if s.configuration.None? then s
      else s.(config := Landed(c, s.configuration.value), configuration := None)
    case ConfigurationAbort => s.(configuration := None)
    case NodeRead(address) =>
      if c.deleting || address !in c.status.addresses || s.node.Some? then s
      else
        var less := RemoveFirst(c.status.addresses, address);
        s.(node := Some(Flight(c.generation, c.status, c.status.(addresses := less))))
    case NodeWrite =>
      if s.node.None? then s
      else s.(config := Landed(c, s.node.value), node := None)
    case NodeAbort => s.(node := None)
    case HealthRead(answers, now) =>
      if c.deleting || c.status.phase != Deployed || s.health.Some? then s
      else
        var checked := HealthConditions(c.status.conditions, c.generation, answers, now);
        s.(health := Some(Flight(c.generation, c.status, c.status.(conditions := checked))))
    case HealthWrite =>
      if s.health.None? then s
      else s.(config := Landed(c, s.health.value), health := None)
    case HealthAbort => s.(health := None)
    case AddFinalizer => if c.deleting then s else s.(config := c.(finalizer := true))
    case EditSpec(spec) => s.(config := c.(spec := spec, generation := c.generation + 1))
    case RequestDeletion => if c.deleting then s else s.(config := c.(deleting := true, generation := c.generation + 1))
    case DropFinalizer =>
      if !c.deleting || s.configuration.Some? then s else s.(config := c.(finalizer := false))
    case Recreate(uid, spec) =>
      if !c.deleting || c.finalizer then s
      else s.(config := ConfigObj(uid, 1, spec, false, false, false, EMPTY_STATUS))
  }

  function Start(uid: nat, spec: Spec): State {
    State(ConfigObj(uid, 1, spec, false, false, false, EMPTY_STATUS), None, None, None)
  }

  function Run(s: State, actions: seq<Action>): State
    decreases |actions|
  {
    if actions == [] then s else Run(Next(s, actions[0]), actions[1..])
  }

  // ----- invariant -----

  ghost predicate Shape(cs: seq<Condition>) {
    cs == [] || Types(cs) == BASELINE
  }

  ghost predicate Good(s: Status) {
    && Shape(s.conditions)
    && Sorted(s.addresses)
    && s.phase != Deploying
    && (s.phase == Deployed ==> s.conditions != [])
  }

  ghost predicate NotNewer(cs: seq<Condition>, generation: nat) {
    forall c <- cs :: c.observedGeneration <= generation
  }

  ghost predicate Inv(s: State) {
    && Good(s.config.status)
    && (s.configuration.Some? ==>
          var Flight(_, base, modified) := s.configuration.value;
          && s.config.finalizer
          && Good(base) && Good(modified) && modified.conditions != []
          && (modified.phase == base.phase || modified.phase == Deployed)
          && (base.conditions != [] ==> s.config.status.conditions != []))
    && (s.node.Some? ==>
          var Flight(_, base, modified) := s.node.value;
          modified == base.(addresses := modified.addresses) && Sorted(modified.addresses))
    && (s.health.Some? ==>
          var Flight(_, base, modified) := s.health.value;
          && modified == base.(conditions := modified.conditions)
          && Types(modified.conditions) == BASELINE)
  }

  // ----- what the local computations keep -----

  lemma SetKeepsShape(cs: seq<Condition>, e: Condition, generation: nat)
    requires Types(cs) == BASELINE && e.ctype in BASELINE
    ensures Types(Set(cs, e)) == BASELINE
    ensures NotNewer(cs, generation) && e.observedGeneration <= generation ==> NotNewer(Set(cs, e), generation)
  {
    ExistsIsMembership(cs, e.ctype);
    SetKeepsPositions(cs, e);
  }

  lemma {:induction false} InitNotNewer(cs: seq<Condition>, types: seq<ConditionType>, generation: nat, now: int)
    requires NotNewer(cs, generation)
    ensures NotNewer(InitConditions(cs, types, generation, now), generation)
    decreases types
  {
    if types != [] {
      var next := if Exists(cs, types[0]) then cs else Set(cs, UnknownCondition(types[0], generation, now));
      InitNotNewer(next, types[1..], generation, now);
    }
  }

  lemma InitShapes(cs: seq<Condition>, generation: nat, now: int)
    requires Shape(cs)
    ensures Types(InitConditions(cs, BASELINE, generation, now)) == BASELINE
  {
    if cs == [] {
      InitFromEmpty(generation, now);
    } else {
      forall t | t in BASELINE ensures Exists(cs, t) {
        ExistsIsMembership(cs, t);
      }
      InitCompletes(cs, generation, now);
    }
  }

  lemma ReconciledIsGood(c: ConfigObj, found: seq<string>, now: int)
    requires Good(c.status)
    ensures var m := ReconciledStatus(c, found, now);
            && Good(m) && m.conditions != []
            && (m.phase == c.status.phase || m.phase == Deployed)
            && (NotNewer(c.status.conditions, c.generation) ==> NotNewer(m.conditions, c.generation))
  {
    hide InitConditions, Sort, Set, Lookup, IndexOf, Exists;
    InitShapes(c.status.conditions, c.generation, now);
    SortMeaning(found);
    SortMeaning(c.status.addresses);
    var cs := InitConditions(c.status.conditions, BASELINE, c.generation, now);
    SetKeepsShape(cs, WaitingCondition(c.generation, now), c.generation);
    SetKeepsShape(cs, FoundCondition(Sort(found), c.generation, now), c.generation);
    if NotNewer(c.status.conditions, c.generation) {
      InitNotNewer(c.status.conditions, BASELINE, c.generation, now);
    }
    assert |Types(cs)| == 5;
  }

  lemma HealthKeepsShape(cs: seq<Condition>, generation: nat, a: HealthAnswers, now: int)
    requires Types(cs) == BASELINE
    ensures Types(HealthConditions(cs, generation, a, now)) == BASELINE
    ensures NotNewer(cs, generation) ==> NotNewer(HealthConditions(cs, generation, a, now), generation)
  {
    hide Set, Types, NotNewer;
    var e1 := LeaderCondition(NbLeaderFound, a.nbPods, NO_NB_LEADER, generation, now);
    var e2 := LeaderCondition(SbLeaderFound, a.sbPods, NO_SB_LEADER, generation, now);
    var e3 := DbCondition(NbDbHealth, OnOnlyLeader(a.nbProbePods, a.nbExec), generation, now);
    var e4 := DbCondition(SbDbHealth, OnOnlyLeader(a.sbProbePods, a.sbExec), generation, now);
    SetKeepsShape(cs, e1, generation);
    var c2 := Set(Set(cs, e1), e2);
    SetKeepsShape(Set(cs, e1), e2, generation);
    SetKeepsShape(c2, e3, generation);
    var c3 := if a.nbPods == [] then c2 else Set(c2, e3);
    SetKeepsShape(c3, e4, generation);
  }

  lemma NextKeepsInv(s: State, a: Action)
    requires Inv(s)
    ensures Inv(Next(s, a))
  {
    hide InitConditions, Sort, Set, Lookup, ReconciledStatus, HealthConditions, RemoveFirst, IndexOf, Exists;
    match a
    case ConfigurationRead(found, now) => ReconciledIsGood(s.config, found, now);
    case NodeRead(address) => RemoveFirstMeaning(s.config.status.addresses, address);
    case HealthRead(answers, now) =>
      if s.config.status.phase == Deployed {
        HealthKeepsShape(s.config.status.conditions, s.config.generation, answers, now);
      }
    case HealthWrite => assert |BASELINE| == 5;
    case _ =>
  }

  lemma {:induction false} RunKeepsInv(s: State, actions: seq<Action>)
    requires Inv(s)
    ensures Inv(Run(s, actions))
    decreases |actions|
  {
    if actions != [] {
      NextKeepsInv(s, actions[0]);
      RunKeepsInv(Next(s, actions[0]), actions[1..]);
    }
  }

  // ----- theorems over every interleaving -----

  /** In every reachable state the stored addresses are sorted, the condition list is empty or
      exactly the five types in order, and the phase is empty or Deployed. */
  lemma ReachableStatus(uid: nat, spec: Spec, actions: seq<Action>)
    ensures var s := Run(Start(uid, spec), actions);
            && Sorted(s.config.status.addresses)
            && (s.config.status.conditions == [] || Types(s.config.status.conditions) == BASELINE)
            && s.config.status.phase in {NoPhase, Deployed}
  {
    RunKeepsInv(Start(uid, spec), actions);
  }

  /** Who may change what, after any run and for any next step: health checks touch only
      conditions, node deletions only addresses, and the phase moves only to Deployed, only by
      the configuration controller. */
  lemma FieldIsolation(uid: nat, spec: Spec, actions: seq<Action>, a: Action)
    requires !a.Recreate?
    ensures var s := Run(Start(uid, spec), actions);
            var before, after := s.config.status, Next(s, a).config.status;
            && (after.addresses != before.addresses ==> a.ConfigurationWrite? || a.NodeWrite?)
            && (after.conditions != before.conditions ==> a.ConfigurationWrite? || a.HealthWrite?)
            && (after.phase != before.phase ==> a.ConfigurationWrite? && after.phase == Deployed)
            && (before.phase == Deployed ==> after.phase == Deployed)
  {
    hide Run, InitConditions, Sort, Set, ReconciledStatus, HealthConditions, RemoveFirst, Types;
    RunKeepsInv(Start(uid, spec), actions);
  }

  lemma {:induction false} RunAppend(s: State, actions: seq<Action>, a: Action)
    ensures Run(s, actions + [a]) == Next(Run(s, actions), a)
    decreases |actions|
  {
    if actions != [] {
      assert (actions + [a])[1..] == actions[1..] + [a];
      RunAppend(Next(s, actions[0]), actions[1..], a);
    } else {
      assert ([a])[1..] == [];
    }
  }

  /** A pass over one node publishes its address and deploys. */
  lemma DeployOne(c: ConfigObj, address: string, now: int)
    requires c.status.phase != Deploying
    ensures ReconciledStatus(c, [address], now).addresses == [address]
    ensures ReconciledStatus(c, [address], now).phase == Deployed
  {
    hide InitConditions, Sort, Set, Lookup, IndexOf, Exists;
    SortOfSorted([address]);
    SortOfPermutation([address], c.status.addresses);
  }

  // ----- observed generations -----

  /** What holds of generations as long as the bound has not been broken: every pass in flight
      stamps the generation it read, and a configuration pass read one of this very object. */
  ghost predicate GenerationsFit(s: State) {
    && NotNewer(s.config.status.conditions, s.config.generation)
    && (s.configuration.Some? ==>
          && s.configuration.value.generation <= s.config.generation
          && NotNewer(s.configuration.value.modified.conditions, s.configuration.value.generation))
    && (s.health.Some? ==>
          && NotNewer(s.health.value.modified.conditions, s.health.value.generation)
          && Restamped(s.health.value.modified.conditions, s.health.value.generation))
  }

  /** Some entry carries exactly this generation. */
  ghost predicate Restamped(cs: seq<Condition>, generation: nat) {
    exists c <- cs :: c.observedGeneration == generation
  }

  /** A check always restamps, whatever it finds. */
  lemma CheckRestamps(cs: seq<Condition>, generation: nat, a: HealthAnswers, now: int)
    ensures Restamped(HealthConditions(cs, generation, a, now), generation)
  {
    hide Set, Lookup, Exists, IndexOf;
    HealthMeaning(cs, generation, a, now, NbLeaderFound);
    var r := HealthConditions(cs, generation, a, now);
    assert Lookup(r, NbLeaderFound) in r by { LookedUpIsIn(r, NbLeaderFound); }
  }

  lemma LookedUpIsIn(cs: seq<Condition>, t: ConditionType)
    requires Exists(cs, t)
    ensures Lookup(cs, t) in cs
  {
  }

  /** A health check computed on a snapshot and landing on any newer or recreated object: if it
      changed the conditions, the result respects the object's generation exactly when the
      snapshot's generation is not above it. */
  lemma HealthWriteKeepsGenerations(current: ConfigObj, generation: nat, base: Status, a: HealthAnswers, now: int)
    requires NotNewer(current.status.conditions, current.generation) && NotNewer(base.conditions, generation)
    requires Types(base.conditions) == BASELINE
    ensures var modified := base.(conditions := HealthConditions(base.conditions, generation, a, now));
            modified.conditions != base.conditions ==>
              (NotNewer(PatchStatus(current.status, base, modified).conditions, current.generation)
               <==> generation <= current.generation)
  {
    hide HealthConditions, Types;
    HealthKeepsShape(base.conditions, generation, a, now);
    CheckRestamps(base.conditions, generation, a, now);
  }

  /** The guard of a write, checkable from snapshot and object: a health check that changed
      something must not have read a generation above the object's. */
  predicate Guarded(s: State, a: Action) {
    a.HealthWrite? && s.health.Some? && s.health.value.modified.conditions != s.health.value.base.conditions ==>
      s.health.value.generation <= s.config.generation
  }

  lemma NextGenerations(s: State, a: Action)
    requires Inv(s) && GenerationsFit(s)
    ensures if Guarded(s, a) then GenerationsFit(Next(s, a))
            else !NotNewer(Next(s, a).config.status.conditions, Next(s, a).config.generation)
  {
    hide InitConditions, Sort, Set, Lookup, ReconciledStatus, HealthConditions, RemoveFirst, IndexOf, Exists, Types;
    match a
    case ConfigurationRead(found, now) => ReconciledIsGood(s.config, found, now);
    case HealthRead(answers, now) =>
      if s.config.status.phase == Deployed {
        assert Types(s.config.status.conditions) == BASELINE;
        HealthKeepsShape(s.config.status.conditions, s.config.generation, answers, now);
        CheckRestamps(s.config.status.conditions, s.config.generation, answers, now);
      }
    case _ =>
  }

  /** The bound holds in the state and after every step of the run. */
  ghost predicate AlwaysBounded(s: State, actions: seq<Action>)
    decreases |actions|
  {
    && NotNewer(s.config.status.conditions, s.config.generation)
    && (actions != [] ==> AlwaysBounded(Next(s, actions[0]), actions[1..]))
  }

  /** Every step of the run meets its guard. */
  ghost predicate AlwaysGuarded(s: State, actions: seq<Action>)
    decreases |actions|
  {
    actions != [] ==> Guarded(s, actions[0]) && AlwaysGuarded(Next(s, actions[0]), actions[1..])
  }

  lemma {:induction false} BoundedIffGuarded(s: State, actions: seq<Action>)
    requires Inv(s) && GenerationsFit(s)
    ensures AlwaysBounded(s, actions) <==> AlwaysGuarded(s, actions)
    decreases |actions|
  {
    hide Next, Inv, NotNewer;
    assert NotNewer(s.config.status.conditions, s.config.generation);
    if actions != [] {
      NextKeepsInv(s, actions[0]);
      NextGenerations(s, actions[0]);
      if Guarded(s, actions[0]) {
        BoundedIffGuarded(Next(s, actions[0]), actions[1..]);
      } else {
        assert !AlwaysBounded(Next(s, actions[0]), actions[1..]);
      }
    }
  }

  /** Over every interleaving: throughout a run no condition reports a generation above the
      object's if and only if every health check that lands with a change had read a generation
      that the object still, or again, has reached. */
  lemma GenerationBound(uid: nat, spec: Spec, actions: seq<Action>)
    ensures AlwaysBounded(Start(uid, spec), actions) <==> AlwaysGuarded(Start(uid, spec), actions)
  {
    BoundedIffGuarded(Start(uid, spec), actions);
  }

  /** A check reads a deployed object; the object is deleted in order and recreated; the check lands. */
  function StaleCheck(uid: nat, spec: Spec): seq<Action> {
    [HealthRead(HealthAnswers([], [], [], [], ExecFailed(""), ExecFailed("")), 5), RequestDeletion, DropFinalizer,
     Recreate(uid + 1, spec)]
  }

  lemma StaleCheckLands(s: State, uid: nat, spec: Spec) returns (landed: State)
    requires s.config.status.phase == Deployed && !s.config.deleting && s.configuration.None? && s.health.None?
    requires Lookup(s.config.status.conditions, SbLeaderFound).transition == 0
    ensures landed == Next(Run(s, StaleCheck(uid, spec)), HealthWrite)
    ensures landed.config.generation == 1 && Restamped(landed.config.status.conditions, s.config.generation)
  {
    hide Set, Lookup, IndexOf, Exists, HealthConditions, Run;
    var cs, answers := s.config.status.conditions, StaleCheck(uid, spec)[0].answers;
    var recreated := PlayFour(s, StaleCheck(uid, spec));
    landed := Next(recreated, HealthWrite);
    var e := HealthStamps(cs, s.config.generation, answers, 5);
    assert landed.config.status.conditions == HealthConditions(cs, s.config.generation, answers, 5);
  }

  /** The guard can fail: a health check that read the old object at generation 2 lands on its
      successor at generation 1. */
  lemma GenerationBoundCanFail(uid: nat, spec: Spec)
    ensures exists actions :: var s := Run(Start(uid, spec), actions);
                              !NotNewer(s.config.status.conditions, s.config.generation)
  {
    hide InitConditions, Sort, Set, Lookup, IndexOf, Exists, ReconciledStatus, Run, StaleCheck;
    var s0, first := Start(uid, spec),
                       [AddFinalizer, EditSpec(spec), ConfigurationRead(["10.0.0.1"], 0), ConfigurationWrite];
    var read := Next(Next(s0, AddFinalizer), EditSpec(spec)).config;
    var deployed := PlayFour(s0, first);
    DeployOne(read, "10.0.0.1", 0);
    FreshStamp(read, "10.0.0.1");
    assert deployed.config == read.(status := ReconciledStatus(read, ["10.0.0.1"], 0));
    var landed := StaleCheckLands(deployed, uid, spec);
    RunConcat(s0, first, StaleCheck(uid, spec));
    RunAppend(s0, first + StaleCheck(uid, spec), HealthWrite);
    assert landed == Run(s0, first + StaleCheck(uid, spec) + [HealthWrite]);
  }

  lemma {:induction false} RunConcat(s: State, a: seq<Action>, b: seq<Action>)
    ensures Run(s, a + b) == Run(Run(s, a), b)
    decreases |a|
  {
    if a == [] {
      assert a + b == b;
    } else {
      assert (a + b)[1..] == a[1..] + b;
      RunConcat(Next(s, a[0]), a[1..], b);
    }
  }

  /** Every entry of a first pass is stamped with that pass's time. */
  lemma FreshStamp(c: ConfigObj, address: string)
    requires c.status == EMPTY_STATUS
    ensures Lookup(ReconciledStatus(c, [address], 0).conditions, SbLeaderFound).transition == 0
  {
    hide Sort, Set, InitConditions, Lookup, IndexOf, Exists;
    var cs := InitConditions([], BASELINE, c.generation, 0);
    InitMeaning([], BASELINE, c.generation, 0, SbLeaderFound);
    assert !Exists([], SbLeaderFound) by { LookupReadsMap([], SbLeaderFound); }
    assert BASELINE[2] == SbLeaderFound;
    LookupAfterSet(cs, FoundCondition(Sort([address]), c.generation, 0), SbLeaderFound);
  }

  /** A check without leaders stamps the southbound leader condition with its own time. */
  lemma HealthStamps(cs: seq<Condition>, generation: nat, a: HealthAnswers, now: int) returns (e: Condition)
    requires a.nbPods == a.sbPods == []
    ensures e in HealthConditions(cs, generation, a, now) && e.observedGeneration == generation
    ensures Lookup(HealthConditions(cs, generation, a, now), SbLeaderFound) == e && e.transition == now
  {
    var c1 := Set(cs, LeaderCondition(NbLeaderFound, [], NO_NB_LEADER, generation, now));
    e := LeaderCondition(SbLeaderFound, [], NO_SB_LEADER, generation, now);
    LookupAfterSet(c1, e, SbLeaderFound);
  }

  /** The state after four actions, spelled out. */
  lemma PlayFour(s: State, actions: seq<Action>) returns (end: State)
    requires |actions| == 4
    ensures end == Run(s, actions)
    ensures end == Next(Next(Next(Next(s, actions[0]), actions[1]), actions[2]), actions[3])
  {
    hide Next;
    end := Run(s, actions);
    RunAppend(s, [], actions[0]);
    RunAppend(s, actions[..1], actions[1]);
    RunAppend(s, actions[..2], actions[2]);
    RunAppend(s, actions[..3], actions[3]);
    assert actions[..1] == [] + [actions[0]] && actions[..2] == actions[..1] + [actions[1]];
    assert actions[..3] == actions[..2] + [actions[2]] && actions == actions[..3] + [actions[3]];
  }

  /** A node deletion's stale write keeps every other published address exactly when its
      snapshot already had all of them; what was published in between is lost. */
  lemma NodeWriteKeepsOthers(current: Status, base: Status, address: string)
    requires address in base.addresses
    ensures var after := PatchStatus(current, base, base.(addresses := RemoveFirst(base.addresses, address)));
            (forall x <- current.addresses :: x != address ==> x in after.addresses)
            <==> (forall x <- current.addresses :: x != address ==> x in base.addresses)
  {
    RemoveFirstMeaning(base.addresses, address);
    assert address in multiset(base.addresses);
    assert multiset(RemoveFirst(base.addresses, address)) != multiset(base.addresses);
  }

  /** Such a loss is reachable: a newly published address disappears again. */
  lemma LostUpdate(uid: nat, spec: Spec)
    ensures exists actions :: var s := Run(Start(uid, spec), actions);
              && s.node.Some? && "10.0.0.2" in s.config.status.addresses
              && "10.0.0.2" !in Next(s, NodeWrite).config.status.addresses
              && "10.0.0.1" in s.node.value.base.addresses
              && s.node.value.modified.addresses == RemoveFirst(s.node.value.base.addresses, "10.0.0.1")
  {
    hide InitConditions, Sort, Set, Lookup, ReconciledStatus, HealthConditions, Types, Run;
    var one, two := "10.0.0.1", "10.0.0.2";
    var s0, first := Start(uid, spec), [AddFinalizer, ConfigurationRead([one], 0), ConfigurationWrite, NodeRead(one)];
    var s4 := PlayFour(s0, first);
    DeployOne(Next(s0, AddFinalizer).config, one, 0);
    DeployOne(s4.config, two, 1);
    assert one[7] != two[7];
    RemoveFirstAt([one], one, 0);
    RunAppend(s0, first, ConfigurationRead([two], 1));
    RunAppend(s0, first + [ConfigurationRead([two], 1)], ConfigurationWrite);
    var s := Run(s0, first + [ConfigurationRead([two], 1)] + [ConfigurationWrite]);
    assert s.config.status.addresses == [two];
    assert s.node.value.modified.addresses == [];
    assert Next(s, NodeWrite).config.status.addresses == [];
  }
}
