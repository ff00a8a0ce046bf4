/** Release safety: the node controller never lets a labelled node go while its address is
    still a member of a database, over every run and wherever passes stop. */
module Release {
  import opened MergePatch
  import opened Addresses
  import opened Conditions
  import opened Model
  import opened Selector
  import opened Cluster
  import Convergence

  /** The node matches the master label of the current Configuration. */
  predicate Labelled(s: State, node: Node) {
    s.config.Some? && SelectedBy(s.config.value.spec, node)
  }

  /** No overlooked node is a database member. */
  ghost predicate MembersPublished(s: State) {
    forall name <- s.nodes :: Overlooked(s, s.nodes[name]) ==> !Member(s, s.nodes[name])
  }

  lemma {:induction false} ListedIsFound(listing: seq<string>, nodes: map<string, Node>, selector: map<string, string>,
                                         name: string)
    requires name in listing && name in nodes
    requires Selects(selector, nodes[name].labels) && NodeInternalIP(nodes[name].addresses) != ""
    ensures NodeInternalIP(nodes[name].addresses) in AddressesOf(Matching(NodeList(listing, nodes), selector))
    decreases |listing|
  {
    var first := if listing[0] in nodes then [nodes[listing[0]]] else [];
    MatchingAppend(first, NodeList(listing[1..], nodes), selector);
    AddressesOfAppend(Matching(first, selector), Matching(NodeList(listing[1..], nodes), selector));
    if listing[0] == name {
      assert first[1..] == [];
      assert AddressesOf(Matching(first, selector)) == [NodeInternalIP(nodes[name].addresses)];
    } else {
      ListedIsFound(listing[1..], nodes, selector, name);
    }
  }

  lemma {:induction false} MatchingAppend(a: seq<Node>, b: seq<Node>, selector: map<string, string>)
    ensures Matching(a + b, selector) == Matching(a, selector) + Matching(b, selector)
  {
    if a == [] {
      assert a + b == b;
    } else {
      assert (a + b)[1..] == a[1..] + b;
      MatchingAppend(a[1..], b, selector);
    }
  }

  /** A pass publishes every address it found, or keeps what was published if it found none. */
  lemma ReconciledPublishes(c: ConfigObj, found: seq<string>, now: int)
    ensures forall x <- found :: x in ReconciledStatus(c, found, now).addresses
  {
    hide PreparedStatus, Sort, Complete, Lookup;
    Convergence.Prepared(c, found, now);
    SortMeaning(found);
    forall x | x in found ensures x in ReconciledStatus(c, found, now).addresses {
      assert x in multiset(Sort(found));
    }
  }

  lemma ConfigurationPassPublishes(op: Operator, s: State, listing: seq<string>, order: seq<Kind>, cut: nat)
    requires MembersPublished(s) && IsListing(listing, s.nodes)
    ensures MembersPublished(PerformAll(s, Take(ConfigurationPlan(op, s, listing, order), cut)))
  {
    if s.config.Some? {
      hide ConfigurationPlan, Take, PerformAll, SweepCount, NodeInternalIP, Selects, ParseSelector;
      if s.config.value.deleting {
        DeletionEffect(op, s, listing, order, cut);
      } else if !s.config.value.finalizer {
        FinalizerPass(op, s, listing, order, cut);
      } else {
        ReconcilingPassPublishes(op, s, listing, order, cut);
      }
    }
  }

  lemma ReconcilingPassPublishes(op: Operator, s: State, listing: seq<string>, order: seq<Kind>, cut: nat)
    requires MembersPublished(s) && IsListing(listing, s.nodes) && Reconciles(s)
    ensures MembersPublished(PerformAll(s, Take(ConfigurationPlan(op, s, listing, order), cut)))
  {
    hide ConfigurationPlan, Take, PerformAll, ApplyPlan, ReconciledStatus, NodeInternalIP, Selects, ParseSelector,
         ApplyAll;
    var c, s' := s.config.value, PerformAll(s, Take(ConfigurationPlan(op, s, listing, order), cut));
    var done := ReconcilingPass(op, s, listing, order, cut);
    var found := FoundAddresses(listing, s.nodes, c.spec);
    if found.Some? && s'.config != s.config {
      ReconciledPublishes(c, found.value, s.clock / SECOND);
      forall name | name in s.nodes && Labelled(s, s.nodes[name]) && NodeInternalIP(s.nodes[name].addresses) != ""
        ensures NodeInternalIP(s.nodes[name].addresses) in s'.config.value.status.addresses
      {
        assert name in multiset(s.nodes.Keys);
        assert name in multiset(listing);
        ListedIsFound(listing, s.nodes, ParseSelector(c.spec.masterNodesLabel).value, name);
      }
    }
  }

  /** Where a node-deletion pass can stop. */
  lemma NodeDeletionPass(s: State, name: string, cut: nat)
    requires name in s.nodes && s.nodes[name].deleting && s.config.Some? && !s.config.value.deleting
    requires NodeInternalIP(s.nodes[name].addresses) != ""
    ensures var node, c, s' := s.nodes[name], s.config.value, PerformAll(s, Take(NodePlan(s, name), cut));
            var address := NodeInternalIP(node.addresses);
            var released := WithNode(s.nodes, name, node.(finalizer := false));
            if address in c.status.addresses then
              var kicked := s.(nb := s.nb - {address}, sb := s.sb - {address});
              var unpublished := kicked.(config := Some(Unpublished(c, address)));
              || s' == s || s' == s.(nb := s.nb - {address}) || s' == kicked || s' == unpublished
              || (node.finalizer && s' == unpublished.(nodes := released))
            else s' == s || (node.finalizer && s' == s.(nodes := released))
  {
    hide NodeInternalIP, RemoveFirst;
    var node, c := s.nodes[name], s.config.value;
    var address := NodeInternalIP(node.addresses);
    var cleanup, drop := CentralCleanup(c.status, address), if node.finalizer then [DropNodeFinalizer(name)] else [];
    assert NodePlan(s, name) == cleanup + drop;
    if address in c.status.addresses {
      PublishedDeletion(s, name, c, address, cut);
    } else {
      PerformOne(s, DropNodeFinalizer(name));
      assert cleanup + drop == drop;
      assert Take(drop, cut) == [] || Take(drop, cut) == drop;
    }
  }

  /** The status after one copy of the address was unpublished. */
  function Unpublished(c: ConfigObj, address: string): ConfigObj {
    c.(status := c.status.(addresses := RemoveFirst(c.status.addresses, address)))
  }

  lemma PublishedDeletion(s: State, name: string, c: ConfigObj, address: string, cut: nat)
    requires name in s.nodes && s.config == Some(c) && address in c.status.addresses
    ensures var node := s.nodes[name];
            var drop := if node.finalizer then [DropNodeFinalizer(name)] else [];
            var s' := PerformAll(s, Take(CentralCleanup(c.status, address) + drop, cut));
            var kicked := s.(nb := s.nb - {address}, sb := s.sb - {address});
            var unpublished := kicked.(config := Some(Unpublished(c, address)));
            || s' == s || s' == s.(nb := s.nb - {address}) || s' == kicked || s' == unpublished
            || (node.finalizer && s' == unpublished.(nodes := WithNode(s.nodes, name, node.(finalizer := false))))
  {
    hide RemoveFirst, WithNode, PerformAll, Take, CentralCleanup;
    var drop := if s.nodes[name].finalizer then [DropNodeFinalizer(name)] else [];
    var cleanup := CentralCleanup(c.status, address);
    CleanupEffect(s, c, address, cut);
    CleanupEffect(s, c, address, 3);
    TakeEnds(cleanup, 3);
    PerformPrefix(s, cleanup, drop, cut);
    if cut > 3 {
      TakeEnds(drop, cut - 3);
      var s3 := PerformAll(s, cleanup);
      EmptyRun(s3);
      PerformOne(s3, DropNodeFinalizer(name));
    }
  }

  lemma CleanupEffect(s: State, c: ConfigObj, address: string, cut: nat)
    requires s.config == Some(c) && address in c.status.addresses
    ensures var s' := PerformAll(s, Take(CentralCleanup(c.status, address), cut));
            var kicked := s.(nb := s.nb - {address}, sb := s.sb - {address});
            && |CentralCleanup(c.status, address)| == 3
            && s' == if cut == 0 then s else if cut == 1 then s.(nb := s.nb - {address}) else if cut == 2 then kicked
                     else kicked.(config := Some(Unpublished(c, address)))
  {
    hide RemoveFirst, PerformAll, Take;
    CentralPrefix(s, c.status, address, cut);
    OwnPatch(c.status, Unpublished(c, address).status);
  }

  lemma CentralPrefix(s: State, status: Status, address: string, cut: nat)
    requires address in status.addresses
    ensures var less := RemoveFirst(status.addresses, address);
            var s1 := Perform(s, KickNb(address));
            var s2 := Perform(s1, KickSb(address));
            var s3 := Perform(s2, PatchConfigStatus(status, status.(addresses := less)));
            PerformAll(s, Take(CentralCleanup(status, address), cut)) ==
              if cut == 0 then s else if cut == 1 then s1 else if cut == 2 then s2 else s3
  {
    var ws := CentralCleanup(status, address);
    if cut == 1 {
      PerformOne(s, ws[0]);
      assert Take(ws, 1) == [ws[0]];
    } else if cut == 2 {
      PerformAppend(s, [ws[0]], [ws[1]]);
      PerformOne(s, ws[0]);
      PerformOne(Perform(s, ws[0]), ws[1]);
      assert Take(ws, 2) == [ws[0]] + [ws[1]];
    } else if cut > 2 {
      PerformAppend(s, [ws[0]], [ws[1], ws[2]]);
      PerformAppend(Perform(s, ws[0]), [ws[1]], [ws[2]]);
      PerformOne(s, ws[0]);
      PerformOne(Perform(s, ws[0]), ws[1]);
      PerformOne(Perform(Perform(s, ws[0]), ws[1]), ws[2]);
      assert Take(ws, cut) == [ws[0]] + [ws[1], ws[2]] && [ws[1], ws[2]] == [ws[1]] + [ws[2]];
    }
  }

  lemma NodePassPublishes(s: State, name: string, cut: nat)
    requires MembersPublished(s)
    ensures MembersPublished(PerformAll(s, Take(NodePlan(s, name), cut)))
  {
    hide NodeInternalIP, Selects, ParseSelector, RemoveFirst, MembersPublished, Member, Take, PerformAll;
    var s' := PerformAll(s, Take(NodePlan(s, name), cut));
    if name !in s.nodes || s.config.None? || s.config.value.deleting
       || (s.nodes[name].deleting && NodeInternalIP(s.nodes[name].addresses) == "") {
      TakeEnds([], cut);
      EmptyRun(s);
    } else if !s.nodes[name].deleting {
      hide NodePlan;
      LiveNodePass(s, name, cut);
      NodeEventPublishes(s, s', name, s.nodes[name].(finalizer := true));
    } else {
      hide NodePlan;
      NodeDeletionPass(s, name, cut);
      var cleaned := s'.(nodes := s.nodes);
      CleanupPublishes(s, cleaned, NodeInternalIP(s.nodes[name].addresses));
      NodeEventPublishes(cleaned, s', name, s.nodes[name].(finalizer := false));
    }
  }

  /** An address may be unpublished once it is in neither database. */
  lemma CleanupPublishes(s: State, s': State, address: string)
    requires MembersPublished(s) && s.config.Some?
    requires var kicked := s.(nb := s.nb - {address}, sb := s.sb - {address});
             var unpublished := kicked.(config := Some(Unpublished(s.config.value, address)));
             s' in {s, s.(nb := s.nb - {address}), kicked, unpublished}
    ensures MembersPublished(s')
  {
    hide NodeInternalIP, Selects, ParseSelector, RemoveFirst;
    RemoveFirstMeaning(s.config.value.status.addresses, address);
  }

  lemma NextPublishes(op: Operator, s: State, a: Action)
    requires MembersPublished(s)
    ensures MembersPublished(Next(op, s, a))
  {
    hide NodeInternalIP, Selects, ParseSelector, ConfigurationPlan, NodePlan, HealthPlan, HealthConditions, CheckNeeded,
         Take, PerformAll;
    match a
    case ConfigurationPass(listing, order, cut) =>
      if IsListing(listing, s.nodes) && IsOrder(order) {
        ConfigurationPassPublishes(op, s, listing, order, cut);
      }
    case NodePass(name, cut) => NodePassPublishes(s, name, cut);
    case HealthPass(answers, cut) => HealthEffect(op, s, answers, cut);
    case _ => EnvironmentPublishes(op, s, a);
  }

  lemma EnvironmentPublishes(op: Operator, s: State, a: Action)
    requires MembersPublished(s) && !a.ConfigurationPass? && !a.NodePass? && !a.HealthPass?
    ensures MembersPublished(Next(op, s, a))
  {
    var s' := Next(op, s, a);
    hide MembersPublished, MayCreate, NodeInternalIP, Selects, ParseSelector;
    match a
    case JoinNode(name, node) =>
      if MayJoinNode(s, name, node) { NodeEventPublishes(s, s', name, Joined(node)); }
    case RequestNodeDeletion(name) =>
      if name in s.nodes { NodeEventPublishes(s, s', name, s.nodes[name].(deleting := true)); }
    case SetNodeForeignFinalizer(name, present) =>
      if name in s.nodes { NodeEventPublishes(s, s', name, s.nodes[name].(foreignFinalizer := present)); }
    case JoinNb(address) => MemberPublishes(s, s', address);
    case JoinSb(address) => MemberPublishes(s, s', address);
    case _ => OthersPublish(op, s, a);
  }

  lemma MemberPublishes(s: State, s': State, address: string)
    requires MembersPublished(s)
    requires s' == s || (s' == s.(nb := s'.nb, sb := s'.sb) && s'.nb + s'.sb == s.nb + s.sb + {address} &&
                         MayJoin(s, address))
    ensures MembersPublished(s')
  {
    hide NodeInternalIP, Selects, ParseSelector;
  }

  lemma OthersPublish(op: Operator, s: State, a: Action)
    requires MembersPublished(s) && !a.ConfigurationPass? && !a.NodePass? && !a.HealthPass?
    requires !a.JoinNode? && !a.RequestNodeDeletion? && !a.SetNodeForeignFinalizer? && !a.JoinNb? && !a.JoinSb?
    ensures MembersPublished(Next(op, s, a))
  {
    hide NodeInternalIP, Selects, ParseSelector, MayJoin, MayJoinNode, WithNode, Live;
  }

  /** Another node, or the same one in another state, keeps the invariant unless it is itself an
      overlooked member. */
  lemma NodeEventPublishes(s: State, s': State, name: string, node: Node)
    requires MembersPublished(s)
    requires Overlooked(s, node) ==> !Member(s, node) || (name in s.nodes && Overlooked(s, s.nodes[name]))
    requires name in s.nodes ==> s.nodes[name].addresses == node.addresses
    requires s' == s.(nodes := s'.nodes) && (s'.nodes == s.nodes || s'.nodes == WithNode(s.nodes, name, node))
    ensures MembersPublished(s')
  {
    hide NodeInternalIP, Selects, ParseSelector;
  }

  lemma {:induction false} RunPublishes(op: Operator, s: State, actions: seq<Action>)
    requires MembersPublished(s)
    ensures MembersPublished(Run(op, s, actions))
    decreases |actions|
  {
    if actions != [] {
      NextPublishes(op, s, actions[0]);
      RunPublishes(op, Next(op, s, actions[0]), actions[1..]);
    }
  }

  /** Whether a labelled node's finalizer goes away (or the node with it). */
  predicate Releases(s: State, s': State, name: string) {
    && name in s.nodes && s.nodes[name].finalizer
    && (name in s'.nodes ==> !s'.nodes[name].finalizer)
  }

  /** If this step releases a labelled node, it is that node's own deletion pass and the node's
      address is then in neither database, or it is the sweep over all nodes at the end of a
      Configuration whose finalizer is already gone. */
  ghost predicate SafeStep(op: Operator, s: State, a: Action, name: string) {
    var s' := Next(op, s, a);
    Releases(s, s', name) && Labelled(s, s.nodes[name]) ==>
      || (&& a.NodePass? && a.name == name && s.nodes[name].deleting
          && NodeInternalIP(s.nodes[name].addresses) != ""
          && !Member(s', s.nodes[name]))
      || (a.ConfigurationPass? && s.config.value.deleting && !s.config.value.finalizer)
  }

  /** Every step of every run from here is safe. */
  ghost predicate AlwaysSafe(op: Operator, s: State) {
    forall actions: seq<Action>, a: Action, name: string :: SafeStep(op, Run(op, s, actions), a, name)
  }

  /** After any run from a state without Configuration, whatever is left in the databases, no step
      releases a labelled node whose address is still a member. */
  lemma ReleaseSafety(op: Operator, start: State, actions: seq<Action>, a: Action, name: string)
    requires start.config.None?
    ensures SafeStep(op, Run(op, start, actions), a, name)
  {
    hide SafeStep, Run;
    RunPublishes(op, start, actions);
    ReleasingStep(op, Run(op, start, actions), a, name);
  }

  /** Exactly the states from which every run is safe: those without an overlooked member. */
  lemma SafeIff(op: Operator, s: State)
    ensures AlwaysSafe(op, s) <==> MembersPublished(s)
  {
    hide SafeStep, Run, Overlooked, Member;
    if MembersPublished(s) {
      forall actions: seq<Action>, a: Action, name: string ensures SafeStep(op, Run(op, s, actions), a, name) {
        RunPublishes(op, s, actions);
        ReleasingStep(op, Run(op, s, actions), a, name);
      }
    } else {
      var name :| name in s.nodes && Overlooked(s, s.nodes[name]) && Member(s, s.nodes[name]);
      var actions := OverlookedIsReleased(op, s, name);
    }
  }

  /** How an overlooked member gets away: the operator takes hold of the node if it had not yet, the
      node's deletion is requested, and its deletion pass skips the databases. */
  lemma OverlookedIsReleased(op: Operator, s: State, name: string) returns (actions: seq<Action>)
    requires name in s.nodes && Overlooked(s, s.nodes[name]) && Member(s, s.nodes[name])
    ensures !SafeStep(op, Run(op, s, actions), NodePass(name, 1), name)
  {
    hide NodeInternalIP, Selects, ParseSelector, NodePlan, PerformAll, Take;
    var ask := RequestNodeDeletion(name);
    var held := if s.nodes[name].finalizer then s else Next(op, s, NodePass(name, 1));
    actions := if s.nodes[name].finalizer then [ask] else [NodePass(name, 1), ask];
    assert Run(op, s, actions) == Next(op, held, ask) by {
      hide Next;
      assert [ask][1..] == [] && [NodePass(name, 1), ask][1..] == [ask];
      assert Run(op, Next(op, held, ask), []) == Next(op, held, ask) && Run(op, held, [ask]) == Next(op, held, ask);
    }
    if !s.nodes[name].finalizer {
      TakesHold(s, name);
    }
    var asked := Next(op, held, ask);
    DropsAtOnce(asked, name);
    var end := Next(op, asked, NodePass(name, 1));
    assert asked.nodes[name].finalizer && Labelled(asked, asked.nodes[name]);
    assert Releases(asked, end, name);
    assert Member(end, asked.nodes[name]);
  }

  lemma TakesHold(s: State, name: string)
    requires name in s.nodes && !s.nodes[name].deleting && !s.nodes[name].finalizer
    requires s.config.Some? && !s.config.value.deleting
    ensures PerformAll(s, Take(NodePlan(s, name), 1)) == Perform(s, AddNodeFinalizer(name))
  {
    assert NodePlan(s, name) == [AddNodeFinalizer(name)];
    TakeEnds([AddNodeFinalizer(name)], 1);
    PerformOne(s, AddNodeFinalizer(name));
  }

  /** An address that is not published keeps the deletion pass away from the databases. */
  lemma DropsAtOnce(s: State, name: string)
    requires name in s.nodes && s.nodes[name].deleting && s.nodes[name].finalizer
    requires s.config.Some? && !s.config.value.deleting
    requires NodeInternalIP(s.nodes[name].addresses) != ""
    requires NodeInternalIP(s.nodes[name].addresses) !in s.config.value.status.addresses
    ensures PerformAll(s, Take(NodePlan(s, name), 1)) == Perform(s, DropNodeFinalizer(name))
  {
    assert NodePlan(s, name) == [DropNodeFinalizer(name)];
    TakeEnds([DropNodeFinalizer(name)], 1);
    PerformOne(s, DropNodeFinalizer(name));
  }

  /** The guards of the environment are the weakest: from a safe state, the effect they guard keeps
      every run safe if and only if the guard holds. */
  lemma GuardsAreExact(op: Operator, s: State, address: string, name: string, node: Node, spec: Spec)
    requires AlwaysSafe(op, s)
    ensures AlwaysSafe(op, s.(nb := s.nb + {address})) <==> MayJoin(s, address)
    ensures AlwaysSafe(op, s.(sb := s.sb + {address})) <==> MayJoin(s, address)
    ensures name !in s.nodes ==> (AlwaysSafe(op, s.(nodes := s.nodes[name := Joined(node)])) <==>
                                  MayJoinNode(s, name, node))
    ensures s.config.None? ==> (AlwaysSafe(op, Created(s, spec)) <==> MayCreate(s, spec))
  {
    hide AlwaysSafe, NodeInternalIP, Selects, ParseSelector;
    SafeIff(op, s);
    SafeIff(op, s.(nb := s.nb + {address}));
    SafeIff(op, s.(sb := s.sb + {address}));
    SafeIff(op, s.(nodes := s.nodes[name := Joined(node)]));
    SafeIff(op, Created(s, spec));
    if name !in s.nodes {
      JoiningPublishes(s, name, Joined(node));
    }
  }

  lemma JoiningPublishes(s: State, name: string, node: Node)
    requires MembersPublished(s) && name !in s.nodes
    ensures MembersPublished(s.(nodes := s.nodes[name := node])) <==> !(Overlooked(s, node) && Member(s, node))
  {
    hide NodeInternalIP, Selects, ParseSelector;
    var s' := s.(nodes := s.nodes[name := node]);
    assert s'.nodes[name] == node && name in s'.nodes;
    assert forall n :: n in s.nodes ==> s'.nodes[n] == s.nodes[n];
  }

  lemma ReleasingStep(op: Operator, s: State, a: Action, name: string)
    requires MembersPublished(s)
    ensures SafeStep(op, s, a, name)
  {
    hide NodeInternalIP, Selects, ParseSelector, ConfigurationPlan, HealthPlan, HealthConditions, CheckNeeded, Take,
         PerformAll;
    if Releases(s, Next(op, s, a), name) && Labelled(s, s.nodes[name]) {
      match a
      case ConfigurationPass(listing, order, cut) => ConfigurationPassReleases(op, s, listing, order, cut, name);
      case NodePass(n, cut) => NodePassReleases(op, s, n, cut, name);
      case HealthPass(answers, cut) => HealthEffect(op, s, answers, cut);
      case _ =>
    }
  }

  lemma ConfigurationPassReleases(op: Operator, s: State, listing: seq<string>, order: seq<Kind>, cut: nat,
                                  name: string)
    requires s.config.Some? && Releases(s, Next(op, s, ConfigurationPass(listing, order, cut)), name)
    ensures s.config.value.deleting && !s.config.value.finalizer
  {
    hide NodeInternalIP, ConfigurationPlan, Take, PerformAll, ApplyAll, ApplyPlan, ReconciledStatus, SweepCount;
    if s.config.value.deleting {
      DeletionEffect(op, s, listing, order, cut);
    } else if s.config.value.finalizer {
      var done := ReconcilingPass(op, s, listing, order, cut);
    } else {
      FinalizerPass(op, s, listing, order, cut);
    }
  }

  lemma NodePassReleases(op: Operator, s: State, n: string, cut: nat, name: string)
    requires MembersPublished(s) && Releases(s, Next(op, s, NodePass(n, cut)), name) && Labelled(s, s.nodes[name])
    ensures && n == name && s.nodes[name].deleting && NodeInternalIP(s.nodes[name].addresses) != ""
            && !Member(Next(op, s, NodePass(n, cut)), s.nodes[name])
  {
    hide NodeInternalIP, Selects, ParseSelector, RemoveFirst;
    if n in s.nodes && !s.config.value.deleting {
      if !s.nodes[n].deleting {
        LiveNodePass(s, n, cut);
      } else if NodeInternalIP(s.nodes[n].addresses) != "" {
        hide NodePlan, Take, PerformAll;
        NodeDeletionPass(s, n, cut);
      }
    }
  }

  /** A deletion pass cut anywhere and then repeated in full ends with the same databases and nodes
      as one that was never cut. */
  lemma CompleteDeletion(s: State, name: string, cut: nat)
    requires name in s.nodes && s.nodes[name].deleting && s.nodes[name].finalizer
    requires s.config.Some? && !s.config.value.deleting && NodeInternalIP(s.nodes[name].addresses) != ""
    ensures var once := PerformAll(s, Take(NodePlan(s, name), cut));
            var twice := PerformAll(once, NodePlan(once, name));
            var whole := PerformAll(s, NodePlan(s, name));
            && twice.nb == whole.nb && twice.sb == whole.sb && twice.nodes == whole.nodes
            && (name in whole.nodes ==> !whole.nodes[name].finalizer)
  {
    hide NodeInternalIP, RemoveFirst;
    NodeDeletionPass(s, name, cut);
    WholeDeletion(s, name);
    var once := PerformAll(s, Take(NodePlan(s, name), cut));
    if name in once.nodes && once.nodes[name].finalizer {
      WholeDeletion(once, name);
    } else if name in once.nodes {
      NodeDeletionPass(once, name, |NodePlan(once, name)|);
      assert Take(NodePlan(once, name), |NodePlan(once, name)|) == NodePlan(once, name);
    }
  }

  /** What a whole deletion pass does, in full. */
  lemma WholeDeletion(s: State, name: string)
    requires name in s.nodes && s.nodes[name].deleting && s.nodes[name].finalizer
    requires s.config.Some? && !s.config.value.deleting && NodeInternalIP(s.nodes[name].addresses) != ""
    ensures var whole, address := PerformAll(s, NodePlan(s, name)), NodeInternalIP(s.nodes[name].addresses);
            && whole.nodes == WithNode(s.nodes, name, s.nodes[name].(finalizer := false))
            && whole.nb == (if address in s.config.value.status.addresses then s.nb - {address} else s.nb)
            && whole.sb == (if address in s.config.value.status.addresses then s.sb - {address} else s.sb)
            && whole.config == (if address in s.config.value.status.addresses
                                then Some(Unpublished(s.config.value, address)) else s.config)
  {
    hide NodeInternalIP, RemoveFirst;
    var plan := NodePlan(s, name);
    var cleanup := CentralCleanup(s.config.value.status, NodeInternalIP(s.nodes[name].addresses));
    PerformAppend(s, cleanup, [DropNodeFinalizer(name)]);
    if cleanup != [] {
      CleanupEffect(s, s.config.value, NodeInternalIP(s.nodes[name].addresses), 3);
      assert Take(cleanup, 3) == cleanup;
    }
    PerformOne(PerformAll(s, cleanup), DropNodeFinalizer(name));
  }
}
