/** The order in which the API server lists nodes, and repeated complete passes of the machine. */
module Listing {
  import opened MergePatch
  import opened Addresses
  import opened Model
  import opened Selector
  import opened Cluster
  import Convergence
  import Release

  function Found(listing: seq<string>, nodes: map<string, Node>, selector: map<string, string>): seq<string> {
    AddressesOf(Matching(NodeList(listing, nodes), selector))
  }

  lemma {:induction false} NodeListAppend(a: seq<string>, b: seq<string>, nodes: map<string, Node>)
    ensures NodeList(a + b, nodes) == NodeList(a, nodes) + NodeList(b, nodes)
    decreases |a|
  {
    if a == [] {
      assert a + b == b;
    } else {
      assert (a + b)[1..] == a[1..] + b;
      NodeListAppend(a[1..], b, nodes);
    }
  }

  lemma FoundAppend(a: seq<string>, b: seq<string>, nodes: map<string, Node>, selector: map<string, string>)
    ensures Found(a + b, nodes, selector) == Found(a, nodes, selector) + Found(b, nodes, selector)
  {
    NodeListAppend(a, b, nodes);
    Release.MatchingAppend(NodeList(a, nodes), NodeList(b, nodes), selector);
    AddressesOfAppend(Matching(NodeList(a, nodes), selector), Matching(NodeList(b, nodes), selector));
  }

  /** An address is found exactly if a listed, selected node has it. */
  lemma {:induction false} FoundIff(listing: seq<string>, nodes: map<string, Node>, selector: map<string, string>,
                                    address: string)
    ensures address in Found(listing, nodes, selector) <==>
              address != "" &&
              exists n <- listing :: n in nodes && Selects(selector, nodes[n].labels)
                                     && NodeInternalIP(nodes[n].addresses) == address
    decreases |listing|
  {
    hide Selects, NodeInternalIP, Found;
    if listing == [] {
      NothingFound(nodes, selector);
    } else {
      var name, rest := listing[0], listing[1..];
      assert listing == [name] + rest;
      FoundAppend([name], rest, nodes, selector);
      FoundIff(rest, nodes, selector, address);
      FoundOne(name, nodes, selector);
      assert forall n :: n in listing <==> n == name || n in rest;
    }
  }

  lemma NothingFound(nodes: map<string, Node>, selector: map<string, string>)
    ensures Found([], nodes, selector) == []
  {
  }

  lemma FoundOne(name: string, nodes: map<string, Node>, selector: map<string, string>)
    ensures Found([name], nodes, selector) ==
            if name in nodes && Selects(selector, nodes[name].labels) && NodeInternalIP(nodes[name].addresses) != ""
            then [NodeInternalIP(nodes[name].addresses)] else []
  {
    hide Selects, NodeInternalIP;
    assert [name][1..] == [] && NodeList([], nodes) == [];
    if name in nodes {
      var one := nodes[name];
      assert NodeList([name], nodes) == [one] && [one][1..] == [];
      assert Matching([one], selector) == if Selects(selector, one.labels) then [one] else [];
      assert AddressesOf([]) == [];
    }
  }

  lemma FoundMoves(x: string, p: seq<string>, q: seq<string>, nodes: map<string, Node>, selector: map<string, string>)
    ensures multiset(Found(p + ([x] + q), nodes, selector)) == multiset(Found([x] + (p + q), nodes, selector))
  {
    hide Found;
    FoundAppend(p, [x] + q, nodes, selector);
    FoundAppend([x], q, nodes, selector);
    FoundAppend([x], p + q, nodes, selector);
    FoundAppend(p, q, nodes, selector);
  }

  /** Two listings of the same nodes find the same addresses with the same multiplicities. */
  lemma {:induction false} FoundPermutes(a: seq<string>, b: seq<string>, nodes: map<string, Node>,
                                       selector: map<string, string>)
    requires multiset(a) == multiset(b)
    ensures multiset(Found(a, nodes, selector)) == multiset(Found(b, nodes, selector))
    decreases |a|
  {
    hide Found;
    if a == [] {
      assert |multiset(b)| == 0;
    } else {
      var i, rest := SplitAt(a, b);
      FoundPermutes(a[1..], rest, nodes, selector);
      FoundMoves(a[0], b[..i], b[i + 1..], nodes, selector);
      FoundAppend([a[0]], a[1..], nodes, selector);
      FoundAppend([a[0]], rest, nodes, selector);
    }
  }

  /** The head of one arrangement, found in another. */
  lemma SplitAt(a: seq<string>, b: seq<string>) returns (i: nat, rest: seq<string>)
    requires a != [] && multiset(a) == multiset(b)
    ensures i < |b| && rest == b[..i] + b[i + 1..] && multiset(a[1..]) == multiset(rest)
    ensures a == [a[0]] + a[1..] && b == b[..i] + ([a[0]] + b[i + 1..])
  {
    assert a[0] in multiset(b);
    i :| 0 <= i < |b| && b[i] == a[0];
    rest := b[..i] + b[i + 1..];
    assert a == [a[0]] + a[1..] && b == b[..i] + ([a[0]] + b[i + 1..]);
    CutOut(b, i);
    TailMultiset(a);
  }

  /** A reconciling pass plans the same writes, objects and patch alike, for every listing order. */
  lemma PlanIgnoresListing(op: Operator, s: State, a: seq<string>, b: seq<string>, order: seq<Kind>)
    requires Reconciles(s) && IsListing(a, s.nodes) && IsListing(b, s.nodes)
    ensures ConfigurationPlan(op, s, a, order) == ConfigurationPlan(op, s, b, order)
  {
    hide ApplyWrites, InitConditions, FindMasterNodes, Matching, NodeList, AddressesOf;
    var c := s.config.value;
    var selector := ParseSelector(c.spec.masterNodesLabel);
    if selector.Some? {
      FoundPermutes(a, b, s.nodes, selector.value);
      var cs := InitConditions(c.status.conditions, BASELINE, c.generation, s.clock / SECOND);
      ListingOrderIrrelevant(c.status.(conditions := cs), c.generation, Found(a, s.nodes, selector.value),
                             Found(b, s.nodes, selector.value), s.clock / SECOND);
    }
  }

  /** A complete pass of the machine does to a live Configuration what the pass function says, so
      the convergence theorem is about the machine. */
  lemma CompletePass(op: Operator, s: State, listing: seq<string>, order: seq<Kind>)
    requires s.config.Some? && !s.config.value.deleting && IsListing(listing, s.nodes) && IsOrder(order)
    requires FoundAddresses(listing, s.nodes, s.config.value.spec).Some?
    ensures var s' := Next(op, s, ConfigurationPass(listing, order, |ConfigurationPlan(op, s, listing, order)|));
            var found := FoundAddresses(listing, s.nodes, s.config.value.spec).value;
            && s'.config == Some(Convergence.Pass(s.config.value, found, s.clock / SECOND))
            && s'.nodes == s.nodes
  {
    hide FoundAddresses, Take, PerformAll, ReconciledStatus, ApplyPlan, PatchPlan, ApplyAll;
    var c, plan := s.config.value, ConfigurationPlan(op, s, listing, order);
    if c.finalizer {
      var found := FoundAddresses(listing, s.nodes, c.spec).value;
      var applies := ApplyPlan(op, s, c, found, order);
      PassStages(op, s, listing, order, |applies| + 1);
      TakeEnds(plan, |plan|);
      TakeEnds(plan, |NamespaceWrites(s)| + |applies| + 1);
      PatchIsShort(s, c, found);
    } else {
      TakeEnds(plan, 1);
      PerformOne(s, AddConfigFinalizer);
    }
  }
}
