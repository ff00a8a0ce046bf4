/** Convergence over runs of the machine: configuration passes cut anywhere, health checks, node
    passes, ticks and outside edits, as long as no node comes or goes. */
module Settling {
  import opened MergePatch
  import opened Addresses
  import opened Conditions
  import opened Model
  import opened Selector
  import opened Cluster
  import opened Convergence
  import Listing

  /** A live Configuration over live nodes, and the addresses a pass would find there. */
  ghost predicate Stable(s: State, listing: seq<string>, found: seq<string>) {
    && s.config.Some? && !s.config.value.deleting
    && (forall name <- s.nodes :: !s.nodes[name].deleting)
    && IsListing(listing, s.nodes)
    && FoundAddresses(listing, s.nodes, s.config.value.spec) == Some(found)
  }

  /** No node joins or is deleted, and the Configuration is not deleted. */
  predicate Quiet(a: Action) {
    !a.RequestDeletion? && !a.JoinNode? && !a.RequestNodeDeletion?
  }

  /** A configuration pass in which every call succeeds. */
  ghost predicate Completes(op: Operator, s: State, a: Action) {
    && a.ConfigurationPass? && IsListing(a.listing, s.nodes) && IsOrder(a.order)
    && a.cut >= |ConfigurationPlan(op, s, a.listing, a.order)|
  }

  /** A configuration pass that changes the Configuration. */
  ghost predicate Writes(op: Operator, s: State, a: Action) {
    a.ConfigurationPass? && Next(op, s, a).config != s.config
  }

  ghost function Completed(op: Operator, s: State, actions: seq<Action>): nat
    decreases |actions|
  {
    if actions == [] then 0
    else (if Completes(op, s, actions[0]) then 1 else 0) + Completed(op, Next(op, s, actions[0]), actions[1..])
  }

  ghost function Written(op: Operator, s: State, actions: seq<Action>): nat
    decreases |actions|
  {
    if actions == [] then 0
    else (if Writes(op, s, actions[0]) then 1 else 0) + Written(op, Next(op, s, actions[0]), actions[1..])
  }

  /** Same nodes up to their finalizers. */
  ghost predicate SameNodes(a: map<string, Node>, b: map<string, Node>) {
    a.Keys == b.Keys && forall n <- a ::
      a[n].(finalizer := b[n].finalizer, foreignFinalizer := b[n].foreignFinalizer) == b[n]
  }

  lemma {:induction false} FoundIgnoresFinalizers(listing: seq<string>, a: map<string, Node>, b: map<string, Node>,
                                                  selector: map<string, string>)
    requires SameNodes(a, b)
    ensures Listing.Found(listing, a, selector) == Listing.Found(listing, b, selector)
  {
    hide Selects, NodeInternalIP;
    if listing != [] {
      var name, rest := listing[0], listing[1..];
      assert listing == [name] + rest && [name][1..] == [];
      hide Listing.Found;
      Listing.FoundAppend([name], rest, a, selector);
      Listing.FoundAppend([name], rest, b, selector);
      FoundIgnoresFinalizers(rest, a, b, selector);
      OneNode(name, a, b, selector);
    }
  }

  lemma OneNode(name: string, a: map<string, Node>, b: map<string, Node>, selector: map<string, string>)
    requires SameNodes(a, b)
    ensures Listing.Found([name], a, selector) == Listing.Found([name], b, selector)
  {
    hide Selects, NodeInternalIP;
    assert [name][1..] == [] && NodeList([], a) == [] && NodeList([], b) == [];
    if name in a {
      assert NodeList([name], a) == [a[name]] && NodeList([name], b) == [b[name]];
      assert [a[name]][1..] == [] && [b[name]][1..] == [];
      assert a[name].labels == b[name].labels && a[name].addresses == b[name].addresses;
    }
  }

  lemma StaysStable(s: State, s': State, listing: seq<string>, found: seq<string>)
    requires Stable(s, listing, found) && SameNodes(s.nodes, s'.nodes)
    requires s'.config.Some? && !s'.config.value.deleting
    requires s'.config.value.spec.masterNodesLabel == s.config.value.spec.masterNodesLabel
    ensures Stable(s', listing, found)
  {
    FoundIgnoresFinalizers(listing, s.nodes, s'.nodes, ParseSelector(s.config.value.spec.masterNodesLabel).value);
  }

  /** A pass over a live Configuration, wherever it stops, leaves the object alone or does all of
      what the pass function says; a complete one does the latter. */
  lemma PassOutcome(op: Operator, s: State, listing: seq<string>, found: seq<string>, a: Action)
    requires Stable(s, listing, found) && a.ConfigurationPass?
    ensures var s', whole := Next(op, s, a), Pass(s.config.value, found, s.clock / SECOND);
            && s'.nodes == s.nodes && (s'.config == s.config || s'.config == Some(whole))
            && (Completes(op, s, a) ==> s'.config == Some(whole))
  {
    hide FoundAddresses, Take, PerformAll, ReconciledStatus, ApplyPlan, ApplyAll, ConfigurationPlan;
    if IsListing(a.listing, s.nodes) && IsOrder(a.order) {
      var c, plan := s.config.value, ConfigurationPlan(op, s, a.listing, a.order);
      SameAddresses(s, listing, found, a.listing);
      var here := FoundAddresses(a.listing, s.nodes, c.spec).value;
      PassListingOrder(c, found, here, s.clock / SECOND);
      if a.cut >= |plan| {
        TakeEnds(plan, a.cut);
        TakeEnds(plan, |plan|);
        Listing.CompletePass(op, s, a.listing, a.order);
      } else if c.finalizer {
        var done := ReconcilingPass(op, s, a.listing, a.order, a.cut);
      } else {
        FinalizerPass(op, s, a.listing, a.order, a.cut);
      }
    }
  }

  lemma SameAddresses(s: State, listing: seq<string>, found: seq<string>, other: seq<string>)
    requires Stable(s, listing, found) && IsListing(other, s.nodes)
    ensures var here := FoundAddresses(other, s.nodes, s.config.value.spec);
            here.Some? && multiset(found) == multiset(here.value)
  {
    Listing.FoundPermutes(listing, other, s.nodes, ParseSelector(s.config.value.spec.masterNodesLabel).value);
  }

  /** A health check neither clears nor sets the waiting condition, and takes no condition away. */
  lemma HealthKeepsRank(c: ConfigObj, answers: HealthAnswers, found: seq<string>, now: int)
    ensures var checked := c.status.(conditions := HealthConditions(c.status.conditions, c.generation, answers, now));
            Tracks(c.status, checked, found) && StatusRank(checked, found) <= StatusRank(c.status, found)
  {
    hide HealthConditions, Lookup, Exists, Sort;
    forall t: ConditionType
      ensures Exists(c.status.conditions, t) ==>
                Exists(HealthConditions(c.status.conditions, c.generation, answers, now), t)
    {
      HealthMeaning(c.status.conditions, c.generation, answers, now, t);
    }
    HealthMeaning(c.status.conditions, c.generation, answers, now, WaitingForMatchingNodes);
  }

  /** One step: no action raises the rank, a writing pass lowers it, and a complete pass writes
      exactly when the rank is not zero. */
  lemma NextSettles(op: Operator, s: State, listing: seq<string>, found: seq<string>, a: Action)
    requires Stable(s, listing, found) && Quiet(a)
    ensures var s' := Next(op, s, a);
            && Stable(s', listing, found)
            && Tracks(s.config.value.status, s'.config.value.status, found)
            && Rank(s'.config.value, found) + (if Writes(op, s, a) then 1 else 0) <= Rank(s.config.value, found)
            && (Completes(op, s, a) ==> (Writes(op, s, a) <==> Rank(s.config.value, found) > 0))
  {
    hide ConfigurationPlan, NodePlan, HealthPlan, Take, PerformAll, StatusRank, Waiting, FoundAddresses,
         HealthConditions, CheckNeeded,
         Pass, IsListing, IsOrder;
    var s', c := Next(op, s, a), s.config.value;
    match a
    case ConfigurationPass(_, _, _) =>
      PassOutcome(op, s, listing, found, a);
      PassTracks(c, found, s.clock / SECOND);
      PassLowersRank(c, found, s.clock / SECOND);
      PassKeepsSpec(c, found, s.clock / SECOND);
      StaysStable(s, s', listing, found);
    case NodePass(name, cut) =>
      NodeSettles(op, s, name, cut);
      StaysStable(s, s', listing, found);
    case HealthPass(answers, cut) =>
      HealthEffect(op, s, answers, cut);
      HealthKeepsRank(c, answers, found, s.clock / SECOND);
      StaysStable(s, s', listing, found);
    case _ =>
      EnvironmentKeepsNodes(op, s, a);
      EnvironmentKeepsStatus(op, s, a);
      StaysStable(s, s', listing, found);
  }

  lemma PassKeepsSpec(c: ConfigObj, found: seq<string>, now: int)
    ensures Pass(c, found, now).spec == c.spec && Pass(c, found, now).deleting == c.deleting
  {
  }

  lemma NodeSettles(op: Operator, s: State, name: string, cut: nat)
    requires forall n <- s.nodes :: !s.nodes[n].deleting
    ensures var s' := Next(op, s, NodePass(name, cut));
            s'.config == s.config && SameNodes(s.nodes, s'.nodes)
  {
    if name in s.nodes && s.config.Some? && !s.config.value.deleting {
      LiveNodePass(s, name, cut);
    } else {
      assert Take(NodePlan(s, name), cut) == [];
    }
  }

  lemma EnvironmentKeepsNodes(op: Operator, s: State, a: Action)
    requires Quiet(a) && !a.ConfigurationPass? && !a.NodePass? && !a.HealthPass?
    requires forall n <- s.nodes :: !s.nodes[n].deleting
    ensures SameNodes(s.nodes, Next(op, s, a).nodes)
  {
    hide MayJoin, MayJoinNode, Live, Reap;
    if a.SetNodeForeignFinalizer? && a.name in s.nodes {
      assert !s.nodes[a.name].deleting;
    }
  }

  lemma EnvironmentKeepsStatus(op: Operator, s: State, a: Action)
    requires Quiet(a) && !a.ConfigurationPass? && !a.NodePass? && !a.HealthPass?
    requires s.config.Some? && !s.config.value.deleting
    ensures var s' := Next(op, s, a);
            && s'.config.Some? && !s'.config.value.deleting
            && s'.config.value.status == s.config.value.status && s'.config.value.finalizer == s.config.value.finalizer
            && s'.config.value.spec.masterNodesLabel == s.config.value.spec.masterNodesLabel
  {
    hide MayJoin, MayJoinNode, Live, WithNode;
  }

  /** Every run in which the nodes stay: at most `Rank` configuration passes write, whatever else
      happens in between. Once as many passes have completed, no later one writes, and the
      Configuration stores the sorted matching addresses: without matching nodes it is waiting;
      with matching nodes its phase is Deployed unless it arrived in the Deploying phase, and it is
      waiting exactly when it was to begin with and the stored addresses already matched. */
  lemma RunSettles(op: Operator, s: State, listing: seq<string>, found: seq<string>, actions: seq<Action>)
    requires Stable(s, listing, found) && forall a <- actions :: Quiet(a)
    ensures var c, end := s.config.value, Run(op, s, actions);
            && Stable(end, listing, found)
            && Written(op, s, actions) + Rank(end.config.value, found) <= Rank(c, found) <= 4
            && (Completed(op, s, actions) >= Rank(c, found) ==>
                  var c' := end.config.value;
                  && Rank(c', found) == 0
                  && c'.finalizer && c'.status.addresses == Sort(found) && Complete(c'.status.conditions)
                  && (found == [] ==> Waiting(c'.status.conditions))
                  && (found != [] ==>
                        && c'.status.phase == (if c.status.phase == Deploying then Deploying else Deployed)
                        && (Waiting(c'.status.conditions)
                            <==> Waiting(c.status.conditions) && multiset(c.status.addresses) == multiset(found))))
  {
    hide Sort, Waiting, Complete, Stable, Run, Next;
    RankFalls(op, s, listing, found, actions);
    SortMeaning(found);
  }

  lemma {:induction false} RankFalls(op: Operator, s: State, listing: seq<string>, found: seq<string>,
                                     actions: seq<Action>)
    requires Stable(s, listing, found) && forall a <- actions :: Quiet(a)
    ensures var c, end := s.config.value, Run(op, s, actions);
            && Stable(end, listing, found)
            && Tracks(c.status, end.config.value.status, found)
            && Written(op, s, actions) + Rank(end.config.value, found) <= Rank(c, found)
            && (Rank(end.config.value, found) == 0 ||
                Completed(op, s, actions) + Rank(end.config.value, found) <= Rank(c, found))
    decreases |actions|
  {
    hide Next, Rank, Writes, Completes, FoundAddresses, Waiting;
    if actions != [] {
      assert actions[0] in actions;
      NextSettles(op, s, listing, found, actions[0]);
      RankFalls(op, Next(op, s, actions[0]), listing, found, actions[1..]);
    }
  }
}
