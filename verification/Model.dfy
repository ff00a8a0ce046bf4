/** The Configuration object as the API server stores it, and what one reconcile pass of
    each controller computes from a snapshot of it. */
module Model {
  import opened Text
  import opened Addresses
  import opened Conditions

  datatype Phase = NoPhase | Deploying | Deployed

  datatype Status = Status(addresses: seq<string>, conditions: seq<Condition>, phase: Phase)

  /** `other` stands for every spec field except the master label. */
  datatype Spec = Spec(masterNodesLabel: string, other: string)

  datatype ConfigObj = ConfigObj(
    uid: nat,
    generation: nat,
    spec: Spec,
    finalizer: bool,
    foreignFinalizer: bool,
    deleting: bool,
    status: Status)

  const EMPTY_STATUS := Status([], [], NoPhase)

  const BASELINE := [WaitingForMatchingNodes, NbLeaderFound, SbLeaderFound, NbDbHealth, SbDbHealth]

  // ----- configuration controller -----

  function UnknownCondition(t: ConditionType, generation: nat, now: int): Condition {
    Condition(t, IsUnknown, "Unknown", "ConditionUnknown", now, generation)
  }

  /** Adds the missing types, in order. */
  function InitConditions(cs: seq<Condition>, types: seq<ConditionType>, generation: nat, now: int): seq<Condition>
    decreases |types|, generation
  {
    if types == [] then cs
    else
      var next := if Exists(cs, types[0]) then cs else Set(cs, UnknownCondition(types[0], generation, now));
      InitConditions(next, types[1..], generation, now)
  }

  function WaitingCondition(generation: nat, now: int): Condition {
    Condition(WaitingForMatchingNodes, IsTrue, "Waiting for matching nodes", "NodesNotFound", now, generation)
  }

  function FoundCondition(addresses: seq<string>, generation: nat, now: int): Condition {
    Condition(WaitingForMatchingNodes, IsFalse, "found nodes " + Join(addresses, ','), "NodesFound", now, generation)
  }

  /** `found` are the addresses of the matching nodes in listing order. The comparison sorts
      both lists in place, so the sorted list is stored even when nothing else changes. */
  function FindMasterNodes(s: Status, generation: nat, found: seq<string>, now: int): Status {
    if found == [] && Lookup(s.conditions, WaitingForMatchingNodes).status != IsTrue then
      s.(conditions := Set(s.conditions, WaitingCondition(generation, now)))
    else if multiset(found) != multiset(s.addresses) then
      s.(conditions := Set(s.conditions, FoundCondition(Sort(found), generation, now)), addresses := Sort(found))
    else
      s.(addresses := Sort(s.addresses))
  }

  /** The status before objects are applied. */
  function PreparedStatus(c: ConfigObj, found: seq<string>, now: int): Status {
    var cs := InitConditions(c.status.conditions, BASELINE, c.generation, now);
    FindMasterNodes(c.status.(conditions := cs), c.generation, found, now)
  }

  predicate Applies(s: Status) {
    s.addresses != [] && s.phase != Deploying
  }

  /** The status a pass with no failing call ends with. */
  function ReconciledStatus(c: ConfigObj, found: seq<string>, now: int): Status {
    var s := PreparedStatus(c, found, now);
    if Applies(s) then s.(phase := Deployed) else s
  }

  // ----- health-check controller -----

  const SECOND := 1_000_000_000

  datatype ExecResult = ExecOk(output: string) | ExecFailed(output: string)

  /** The pods are listed four times: for either leader, and again by either probe, which looks
      for the southbound leader both times. */
  datatype HealthAnswers = HealthAnswers(
    nbPods: seq<string>,
    sbPods: seq<string>,
    nbProbePods: seq<string>,
    sbProbePods: seq<string>,
    nbExec: ExecResult,
    sbExec: ExecResult)

  /** The remote command runs only when exactly one leader pod carries the label. */
  function OnOnlyLeader(pods: seq<string>, result: ExecResult): ExecResult {
    if |pods| == 1 then result else ExecFailed("")
  }

  const NO_NB_LEADER := "no pods matching northbound leader label requirements found"
  const NO_SB_LEADER := "no pods matching southbound leader label requirements found"

  function LeaderCondition(t: ConditionType, pods: seq<string>, missing: string, generation: nat, now: int): Condition {
    if pods == [] then
      Condition(t, IsFalse, missing, "LeaderNotFound", now, generation)
    else
      Condition(t, IsTrue, "northbound leader found " + pods[0], "LeaderFound", now, generation)
  }

  function DbCondition(t: ConditionType, r: ExecResult, generation: nat, now: int): Condition {
    Condition(t, if r.ExecOk? then IsTrue else IsFalse, r.output, "DBHealth", now, generation)
  }

  /** Both database probes run on the southbound leader they find themselves. */
  function HealthConditions(cs: seq<Condition>, generation: nat, a: HealthAnswers, now: int): seq<Condition> {
    var c1 := Set(cs, LeaderCondition(NbLeaderFound, a.nbPods, NO_NB_LEADER, generation, now));
    var c2 := Set(c1, LeaderCondition(SbLeaderFound, a.sbPods, NO_SB_LEADER, generation, now));
    var c3 := if a.nbPods == [] then c2
              else Set(c2, DbCondition(NbDbHealth, OnOnlyLeader(a.nbProbePods, a.nbExec), generation, now));
    if a.sbPods == [] then c3
    else Set(c3, DbCondition(SbDbHealth, OnOnlyLeader(a.sbProbePods, a.sbExec), generation, now))
  }

  /** `clock` is in nanoseconds, `interval` in seconds. */
  predicate CheckNeeded(cs: seq<Condition>, interval: int, clock: int) {
    (Lookup(cs, NbLeaderFound).transition + interval) * SECOND < clock
  }

  // ----- status patches -----

  /** The merge patch from `base` to `modified`, applied to `current`: every status member
      that the pass left alone keeps its current value, every other one is replaced whole. */
  function PatchStatus(current: Status, base: Status, modified: Status): Status {
    Status(
      if base.addresses == modified.addresses then current.addresses else modified.addresses,
      if base.conditions == modified.conditions then current.conditions else modified.conditions,
      if base.phase == modified.phase then current.phase else modified.phase)
  }

  // ----- facts about one pass -----

  ghost predicate Complete(cs: seq<Condition>) {
    forall t <- BASELINE :: Exists(cs, t)
  }

  /** Initialisation adds every missing type, changes no existing entry, and is the identity
      exactly on complete lists. */
  lemma {:induction false} InitMeaning(cs: seq<Condition>, types: seq<ConditionType>, generation: nat, now: int,
                                       t: ConditionType)
    ensures var r := InitConditions(cs, types, generation, now);
            && (Exists(r, t) <==> Exists(cs, t) || t in types)
            && (Exists(cs, t) || t !in types ==> Lookup(r, t) == Lookup(cs, t))
            && (!Exists(cs, t) && t in types ==>
                  Lookup(r, t) == Condition(t, IsUnknown, "Unknown", "ConditionUnknown", now, generation))
            && ((forall u <- types :: Exists(cs, u)) ==> r == cs)
    decreases types
  {
    if types != [] {
      var next := if Exists(cs, types[0]) then cs else Set(cs, UnknownCondition(types[0], generation, now));
      if !Exists(cs, types[0]) {
        LookupAfterSet(cs, UnknownCondition(types[0], generation, now), t);
      }
      InitMeaning(next, types[1..], generation, now, t);
    }
  }

  lemma InitCompletes(cs: seq<Condition>, generation: nat, now: int)
    ensures var r := InitConditions(cs, BASELINE, generation, now);
            && Complete(r) && (Complete(cs) <==> r == cs)
            && (Lookup(r, WaitingForMatchingNodes).status == IsTrue <==>
                Lookup(cs, WaitingForMatchingNodes).status == IsTrue)
  {
    forall t | t in BASELINE ensures Exists(InitConditions(cs, BASELINE, generation, now), t) {
      InitMeaning(cs, BASELINE, generation, now, t);
    }
    InitMeaning(cs, BASELINE, generation, now, WaitingForMatchingNodes);
    assert WaitingForMatchingNodes in BASELINE;
  }

  /** Starting from nothing, initialisation produces the five types in their fixed order. */
  lemma InitFromEmpty(generation: nat, now: int)
    ensures Types(InitConditions([], BASELINE, generation, now)) == BASELINE
  {
    assert BASELINE[0..] == BASELINE;
    InitPrefix(0, generation, now);
  }

  lemma InitPrefix(n: nat, generation: nat, now: int)
    requires n <= 5
    ensures Types(InitConditions(seq(n, i requires 0 <= i < n => UnknownCondition(BASELINE[i], generation, now)),
                                 BASELINE[n..], generation, now)) == BASELINE
    decreases 5 - n
  {
    var sofar := seq(n, i requires 0 <= i < n => UnknownCondition(BASELINE[i], generation, now));
    if n < 5 {
      hide Set, Exists;
      PrefixStep(n, generation, now);
      assert BASELINE[n..][0] == BASELINE[n] && BASELINE[n..][1..] == BASELINE[n + 1..];
      InitPrefix(n + 1, generation, now);
    }
  }

  lemma PrefixStep(n: nat, generation: nat, now: int)
    requires n < 5
    ensures var sofar := seq(n, i requires 0 <= i < n => UnknownCondition(BASELINE[i], generation, now));
            && !Exists(sofar, BASELINE[n])
            && Set(sofar, UnknownCondition(BASELINE[n], generation, now))
               == seq(n + 1, i requires 0 <= i < n + 1 => UnknownCondition(BASELINE[i], generation, now))
  {
    var sofar := seq(n, i requires 0 <= i < n => UnknownCondition(BASELINE[i], generation, now));
    assert forall j :: 0 <= j < n ==> sofar[j].ctype == BASELINE[j] != BASELINE[n];
  }

  /** The order in which the API server lists the nodes does not matter: not for the stored
      list, not for the condition message. */
  lemma ListingOrderIrrelevant(s: Status, generation: nat, found: seq<string>, permuted: seq<string>, now: int)
    requires multiset(found) == multiset(permuted)
    ensures FindMasterNodes(s, generation, found, now) == FindMasterNodes(s, generation, permuted, now)
  {
    SortOfPermutation(found, permuted);
    assert |multiset(found)| == |found| && |multiset(permuted)| == |permuted|;
  }

  /** What a health check reports, type by type, stamped with its time and the object's generation.
      The northbound database counts as healthy only if a northbound leader exists and the probe, on
      the only southbound leader it finds, succeeds; without a leader pod the previous verdict stands;
      no other condition is touched. */
  lemma HealthMeaning(cs: seq<Condition>, generation: nat, a: HealthAnswers, now: int, t: ConditionType)
    ensures var before, after := Lookup(cs, t), Lookup(HealthConditions(cs, generation, a, now), t);
            after == match t
              case NbLeaderFound =>
                if a.nbPods == []
                then Condition(t, IsFalse, "no pods matching northbound leader label requirements found",
                               "LeaderNotFound", now, generation)
                else Condition(t, IsTrue, "northbound leader found " + a.nbPods[0], "LeaderFound", now, generation)
              case SbLeaderFound =>
                if a.sbPods == []
                then Condition(t, IsFalse, "no pods matching southbound leader label requirements found",
                               "LeaderNotFound", now, generation)
                else Condition(t, IsTrue, "northbound leader found " + a.sbPods[0], "LeaderFound", now, generation)
              case NbDbHealth =>
                if a.nbPods == [] then before
                else if |a.nbProbePods| == 1 && a.nbExec.ExecOk?
                then Condition(t, IsTrue, a.nbExec.output, "DBHealth", now, generation)
                else Condition(t, IsFalse, if |a.nbProbePods| == 1 then a.nbExec.output
                               else "", "DBHealth", now, generation)
              case SbDbHealth =>
                if a.sbPods == [] then before
                else if |a.sbProbePods| == 1 && a.sbExec.ExecOk?
                then Condition(t, IsTrue, a.sbExec.output, "DBHealth", now, generation)
                else Condition(t, IsFalse, if |a.sbProbePods| == 1 then a.sbExec.output
                               else "", "DBHealth", now, generation)
              case _ => before
    ensures Exists(cs, t) || t == NbLeaderFound ==> Exists(HealthConditions(cs, generation, a, now), t)
  {
    hide Set, Lookup, Exists, IndexOf;
    var e1 := LeaderCondition(NbLeaderFound, a.nbPods, NO_NB_LEADER, generation, now);
    var e2 := LeaderCondition(SbLeaderFound, a.sbPods, NO_SB_LEADER, generation, now);
    var e3 := DbCondition(NbDbHealth, OnOnlyLeader(a.nbProbePods, a.nbExec), generation, now);
    var e4 := DbCondition(SbDbHealth, OnOnlyLeader(a.sbProbePods, a.sbExec), generation, now);
    var c1 := Set(cs, e1);
    var c2 := Set(c1, e2);
    var c3 := if a.nbPods == [] then c2 else Set(c2, e3);
    forall u: ConditionType
      ensures Lookup(HealthConditions(cs, generation, a, now), u) ==
              if u == SbDbHealth && a.sbPods != [] then e4 else if u == NbDbHealth && a.nbPods != [] then e3
              else if u == SbLeaderFound then e2 else if u == NbLeaderFound then e1 else Lookup(cs, u)
      ensures Exists(cs, u) || u == NbLeaderFound ==> Exists(HealthConditions(cs, generation, a, now), u)
    {
      LookupAfterSet(cs, e1, u);
      LookupAfterSet(c1, e2, u);
      LookupAfterSet(c2, e3, u);
      LookupAfterSet(c3, e4, u);
    }
  }
}
