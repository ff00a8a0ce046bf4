/** What a pass achieves when no call fails, in terms of the states before and after it. */
module WholePass {
  import opened MergePatch
  import opened Text
  import opened Addresses
  import opened Conditions
  import opened Model
  import opened Selector
  import opened Cluster
  import opened ApplyOrder
  import Convergence
  import Listing
  import Ownership
  import Settling
  import Teardown

  // ----- configuration passes over a live object -----

  /** The first pass takes hold of the Configuration and does nothing else. */
  lemma FirstPass(op: Operator, s: State, a: Action)
    requires s.config.Some? && !s.config.value.deleting && !s.config.value.finalizer && Settling.Completes(op, s, a)
    ensures Next(op, s, a) == s.(config := Some(s.config.value.(finalizer := true)))
  {
    TakeEnds([AddConfigFinalizer], a.cut);
    PerformOne(s, AddConfigFinalizer);
  }

  /** With a master label that does not parse, a pass stops behind the owner namespace. */
  lemma UnparsedPass(op: Operator, s: State, a: Action)
    requires Reconciles(s) && ParseSelector(s.config.value.spec.masterNodesLabel).None? && Settling.Completes(op, s, a)
    ensures Next(op, s, a) == s.(ownerNamespace := Next(op, s, a).ownerNamespace, nextUid := Next(op, s, a).nextUid)
    ensures Next(op, s, a).ownerNamespace.Some?
  {
    NamespacePrefix(s, a.cut);
  }

  /** Every complete pass whose stored addresses are not empty, with no deployment under way, leaves
      the rendering for exactly those addresses in the store, whether the phase moved or not: every
      rendered key holds its expected value, every other key is as it was. Otherwise no object is
      touched. */
  lemma PassApplies(op: Operator, s: State, a: Action, k: Key)
    requires Reconciles(s) && Settling.Completes(op, s, a)
    requires FoundAddresses(a.listing, s.nodes, s.config.value.spec).Some?
    ensures var c, s' := s.config.value, Next(op, s, a);
            && s'.config.Some? && s'.ownerNamespace.Some?
            && (s.ownerNamespace.Some? ==> s'.ownerNamespace == s.ownerNamespace)
            && var after := s'.config.value.status;
            var e := Expected(op, c.spec, after.addresses, c.uid, s'.ownerNamespace.value, k);
            if after.addresses != [] && c.status.phase != Deploying then
              && after.phase == Deployed
              && (if e.Some? then k in s'.objects && s'.objects[k] == e.value else SameAt(s.objects, s'.objects, k))
            else after.phase == c.status.phase && SameAt(s.objects, s'.objects, k)
  {
    hide PreparedStatus, ApplyAll, ApplyPlan, Expected, FoundAddresses, PerformAll, Take, ConfigurationPlan;
    var c, plan := s.config.value, ConfigurationPlan(op, s, a.listing, a.order);
    var found := FoundAddresses(a.listing, s.nodes, c.spec).value;
    var applies := ApplyPlan(op, s, c, found, a.order);
    WholeState(op, s, a, found);
    Ownership.CompleteApplication(op, s, c, found, a.order);
    AppliesIff(c, found, s.clock / SECOND);
    if !Applies(PreparedStatus(c, found, s.clock / SECOND)) {
      NothingApplied(op, s, c, found, a.order);
    }
  }

  /** The key has the same value, or is in neither. */
  predicate SameAt(before: map<Key, Managed>, after: map<Key, Managed>, k: Key) {
    (k in after <==> k in before) && (k in before ==> after[k] == before[k])
  }

  lemma FoundIsSome(s: State, listing: seq<string>)
    requires s.config.Some?
    ensures FoundAddresses(listing, s.nodes, s.config.value.spec).Some? <==>
              ParseSelector(s.config.value.spec.masterNodesLabel).Some?
  {
  }

  lemma WholeState(op: Operator, s: State, a: Action, found: seq<string>)
    requires Reconciles(s) && Settling.Completes(op, s, a)
    requires FoundAddresses(a.listing, s.nodes, s.config.value.spec) == Some(found)
    ensures var c := s.config.value;
            Next(op, s, a) == Applied(op, s, c, found, a.order, |ApplyPlan(op, s, c, found, a.order)|)
                              .(config := Some(c.(status := ReconciledStatus(c, found, s.clock / SECOND))))
  {
    hide ReconciledStatus, ApplyPlan, FoundAddresses, PerformAll, Take, ConfigurationPlan, PatchPlan;
    var c, plan := s.config.value, ConfigurationPlan(op, s, a.listing, a.order);
    var applies := ApplyPlan(op, s, c, found, a.order);
    PassStages(op, s, a.listing, a.order, |applies| + 1);
    TakeEnds(plan, a.cut);
    TakeEnds(plan, |NamespaceWrites(s)| + |applies| + 1);
    PatchIsShort(s, c, found);
  }

  lemma AppliesIff(c: ConfigObj, found: seq<string>, now: int)
    ensures var prepared := PreparedStatus(c, found, now);
            && (Applies(prepared) <==> prepared.addresses != [] && c.status.phase != Deploying)
            && prepared.phase == c.status.phase
  {
    hide PreparedStatus;
    Convergence.Prepared(c, found, now);
  }

  lemma NothingApplied(op: Operator, s: State, c: ConfigObj, found: seq<string>, order: seq<Kind>)
    requires !Applies(PreparedStatus(c, found, s.clock / SECOND))
    ensures Applied(op, s, c, found, order, |ApplyPlan(op, s, c, found, order)|).objects == s.objects
  {
    hide PreparedStatus;
  }

  /** Some selected node has this internal address. */
  ghost predicate SelectedAddress(s: State, spec: Spec, address: string) {
    && address != ""
    && exists n <- s.nodes :: SelectedBy(spec, s.nodes[n]) && NodeInternalIP(s.nodes[n].addresses) == address
  }

  /** The found addresses are those of the selected nodes, no fewer and no others. */
  lemma FoundAreSelected(s: State, listing: seq<string>, address: string)
    requires s.config.Some? && IsListing(listing, s.nodes)
    requires ParseSelector(s.config.value.spec.masterNodesLabel).Some?
    ensures address in FoundAddresses(listing, s.nodes, s.config.value.spec).value <==>
              SelectedAddress(s, s.config.value.spec, address)
  {
    hide NodeInternalIP, Selects, ParseSelector, Matching, AddressesOf, NodeList;
    var selector := ParseSelector(s.config.value.spec.masterNodesLabel).value;
    Listing.FoundIff(listing, s.nodes, selector, address);
    forall n ensures n in listing <==> n in s.nodes {
      assert n in multiset(listing) <==> n in multiset(s.nodes.Keys);
    }
  }

  /** What a complete pass stores: if a selected node has an address, or the Configuration was already
      waiting for one, the sorted addresses of exactly the selected nodes; otherwise the old list. */
  lemma PassPublishes(op: Operator, s: State, a: Action, address: string)
    requires Reconciles(s) && Settling.Completes(op, s, a)
    requires ParseSelector(s.config.value.spec.masterNodesLabel).Some?
    ensures var c, s' := s.config.value, Next(op, s, a);
            && s'.config.Some?
            && var after := s'.config.value.status.addresses;
            if (exists x :: SelectedAddress(s, c.spec, x))
               || Lookup(c.status.conditions, WaitingForMatchingNodes).status == IsTrue
            then Sorted(after) && (address in after <==> SelectedAddress(s, c.spec, address))
            else after == c.status.addresses
  {
    hide PreparedStatus, ApplyAll, ApplyPlan, FoundAddresses, ParseSelector, PerformAll, Take, ConfigurationPlan, Sort,
         Lookup, SelectedAddress, Complete;
    var c := s.config.value;
    FoundIsSome(s, a.listing);
    var found := FoundAddresses(a.listing, s.nodes, c.spec).value;
    WholeState(op, s, a, found);
    Convergence.Prepared(c, found, s.clock / SECOND);
    SortMeaning(found);
    assert forall x :: x in Sort(found) <==> x in multiset(Sort(found));
    forall x ensures x in found <==> SelectedAddress(s, c.spec, x) {
      FoundAreSelected(s, a.listing, x);
    }
    if found != [] {
      assert found[0] in found;
    }
  }

  /** What a complete pass does to each condition, in full: a missing one appears as Unknown, the
      waiting condition follows the comparison, and every other entry stays. */
  lemma PassConditions(op: Operator, s: State, a: Action, t: ConditionType)
    requires Reconciles(s) && Settling.Completes(op, s, a)
    requires FoundAddresses(a.listing, s.nodes, s.config.value.spec).Some?
    ensures var c, s', now := s.config.value, Next(op, s, a), s.clock / SECOND;
            var found := FoundAddresses(a.listing, s.nodes, c.spec).value;
            && s'.config.Some?
            && var before, after := c.status.conditions, s'.config.value.status.conditions;
            Lookup(after, t) ==
              if t == WaitingForMatchingNodes && found == [] && Lookup(before, t).status != IsTrue then
                Condition(t, IsTrue, "Waiting for matching nodes", "NodesNotFound", now, c.generation)
              else if t == WaitingForMatchingNodes && multiset(found) != multiset(c.status.addresses) then
                Condition(t, IsFalse, "found nodes " + Join(s'.config.value.status.addresses, ','), "NodesFound", now,
                          c.generation)
              else if Exists(before, t) || t.OtherType? then Lookup(before, t)
              else Condition(t, IsUnknown, "Unknown", "ConditionUnknown", now, c.generation)
  {
    hide ApplyAll, ApplyPlan, FoundAddresses, PerformAll, Take, ConfigurationPlan, Sort, Lookup, Exists, Set,
         InitConditions, IndexOf;
    var c, now := s.config.value, s.clock / SECOND;
    var found := FoundAddresses(a.listing, s.nodes, c.spec).value;
    WholeState(op, s, a, found);
    InitMeaning(c.status.conditions, BASELINE, c.generation, now, t);
    EveryTypeIsBaseline(t);
    InitCompletes(c.status.conditions, c.generation, now);
    var cs := InitConditions(c.status.conditions, BASELINE, c.generation, now);
    LookupAfterSet(cs, WaitingCondition(c.generation, now), t);
    LookupAfterSet(cs, FoundCondition(Sort(found), c.generation, now), t);
  }

  lemma EveryTypeIsBaseline(t: ConditionType)
    ensures t in BASELINE <==> !t.OtherType?
  {
    match t
    case WaitingForMatchingNodes => assert BASELINE[0] == t;
    case NbLeaderFound => assert BASELINE[1] == t;
    case SbLeaderFound => assert BASELINE[2] == t;
    case NbDbHealth => assert BASELINE[3] == t;
    case SbDbHealth => assert BASELINE[4] == t;
    case OtherType(_) =>
  }

  // ----- configuration passes over an object under deletion -----

  /** A complete pass that is not blocked leaves every instance of every rendered definition under
      deletion, and drops none of them itself. */
  lemma PassSweeps(op: Operator, s: State, a: Action, crd: Crd)
    requires s.config.Some? && s.config.value.deleting && Settling.Completes(op, s, a)
    requires !Blocked(s, Targets(op.crds(s.config.value.spec)))
    requires crd in op.crds(s.config.value.spec) && crd.versions != []
    ensures var s' := Next(op, s, a);
            Teardown.AllDeleting(Listed(s', crd.name)) && |Listed(s', crd.name)| == |Listed(s, crd.name)|
  {
    hide PerformAll, SweepWrites, Blocked, Targets, Take, TeardownWrites, SweepCount;
    var c := s.config.value;
    var targets := Targets(op.crds(c.spec));
    var sweep, plan := SweepWrites(s, targets), ConfigurationPlan(op, s, a.listing, a.order);
    var swept := PerformAll(s, sweep);
    Ownership.TargetsCover(op.crds(c.spec), crd);
    Teardown.SweepMarksEverything(s, targets, TargetOf(crd));
    SweepOnlyDeletes(s, targets);
    DeletesFrame(s, sweep);
    TakeEnds(plan, a.cut);
    var rest := if SweepCount(s.instances, targets) > 0 then [] else TeardownWrites(s, c, a.listing);
    PerformAppend(s, sweep, rest);
    EmptyRun(swept);
    Teardown.TeardownKeepsInstances(swept, s, c, a.listing);
  }

  // ----- node and health-check passes -----

  /** A node pass that gets to write holds the live node. */
  lemma PassHolds(op: Operator, s: State, name: string, cut: nat)
    requires name in s.nodes && !s.nodes[name].deleting && s.config.Some? && !s.config.value.deleting && cut > 0
    ensures Next(op, s, NodePass(name, cut)) == s.(nodes := s.nodes[name := s.nodes[name].(finalizer := true)])
  {
    hide Perform;
    var n := s.nodes[name];
    TakeEnds(NodePlan(s, name), cut);
    EmptyRun(s);
    PerformOne(s, AddNodeFinalizer(name));
    assert Perform(s, AddNodeFinalizer(name)) == s.(nodes := s.nodes[name := n.(finalizer := true)]) by {
      HoldsOne(s, name);
    }
    assert n.finalizer ==> s.nodes[name := n.(finalizer := true)] == s.nodes;
  }

  lemma HoldsOne(s: State, name: string)
    requires name in s.nodes
    ensures Perform(s, AddNodeFinalizer(name)) == s.(nodes := s.nodes[name := s.nodes[name].(finalizer := true)])
  {
  }

  /** What a check with these answers says about condition `t`, stamped with time and generation. */
  predicate Reported(before: Condition, stored: Condition, t: ConditionType, a: HealthAnswers, now: int,
                     generation: nat) {
    match t
    case NbLeaderFound =>
      stored.status == (if a.nbPods == [] then IsFalse else IsTrue) && Stamped(stored, now, generation)
    case SbLeaderFound =>
      stored.status == (if a.sbPods == [] then IsFalse else IsTrue) && Stamped(stored, now, generation)
    case NbDbHealth =>
      if a.nbPods == [] then stored == before
      else (stored.status == if |a.nbProbePods| == 1 && a.nbExec.ExecOk? then IsTrue else IsFalse)
           && Stamped(stored, now, generation)
    case SbDbHealth =>
      if a.sbPods == [] then stored == before
      else (stored.status == if |a.sbProbePods| == 1 && a.sbExec.ExecOk? then IsTrue else IsFalse)
           && Stamped(stored, now, generation)
    case _ => stored == before
  }

  /** Carries this time and this generation. */
  predicate Stamped(c: Condition, now: int, generation: nat) {
    c.transition == now && c.observedGeneration == generation
  }

  lemma CheckReports(cs: seq<Condition>, generation: nat, a: HealthAnswers, now: int, t: ConditionType)
    ensures Reported(Lookup(cs, t), Lookup(HealthConditions(cs, generation, a, now), t), t, a, now, generation)
  {
    hide HealthConditions, Lookup;
    HealthMeaning(cs, generation, a, now, t);
  }

  /** A health check of a deployed Configuration that gets to write, when the leader stamp is more than
      the interval old, stores every verdict with its stamp, whatever was found; before that, nothing. */
  lemma PassStoresVerdicts(op: Operator, s: State, answers: HealthAnswers, cut: nat, t: ConditionType)
    requires s.config.Some? && !s.config.value.deleting && s.config.value.status.phase == Deployed && cut > 0
    ensures var c, s' := s.config.value, Next(op, s, HealthPass(answers, cut));
            var before := c.status.conditions;
            if (Lookup(before, NbLeaderFound).transition + op.interval) * SECOND >= s.clock then s' == s
            else
              && s'.config.Some? && s' == s.(config := s'.config)
              && var after := s'.config.value.status.conditions;
              && s'.config.value == c.(status := c.status.(conditions := after))
              && Reported(Lookup(before, t), Lookup(after, t), t, answers, s.clock / SECOND, c.generation)
  {
    hide Reported, HealthConditions, Lookup;
    var c, now := s.config.value, s.clock / SECOND;
    CheckReports(c.status.conditions, c.generation, answers, now, t);
    CheckLands(op, s, answers, cut);
  }

  lemma CheckLands(op: Operator, s: State, answers: HealthAnswers, cut: nat)
    requires s.config.Some? && !s.config.value.deleting && s.config.value.status.phase == Deployed && cut > 0
    ensures var c := s.config.value;
            var checked := HealthConditions(c.status.conditions, c.generation, answers, s.clock / SECOND);
            PerformAll(s, Take(HealthPlan(op, s, answers), cut)) ==
              if (Lookup(c.status.conditions, NbLeaderFound).transition + op.interval) * SECOND >= s.clock then s
              else s.(config := Some(c.(status := c.status.(conditions := checked))))
  {
    hide HealthConditions, Lookup, PerformAll, Take;
    var c, plan := s.config.value, HealthPlan(op, s, answers);
    TakeEnds(plan, cut);
    EmptyRun(s);
    if plan != [] {
      PerformOne(s, plan[0]);
      assert plan == [plan[0]];
      OwnPatch(c.status, plan[0].modified);
    }
  }
}
