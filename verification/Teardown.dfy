/** What the sweep and the teardown of a deletion achieve when nothing fails, and what they do not. */
module Teardown {
  import opened MergePatch
  import opened Model
  import opened Selector
  import opened Cluster
  import ConfigurationController
  import Release

  /** Every listed instance is being deleted. */
  ghost predicate AllDeleting(list: seq<Instance>) {
    forall i <- list :: i.deleting
  }

  /** Deletions only ever mark: nothing already marked is revived. */
  lemma {:induction false} MarksStay(s: State, ws: seq<Write>, crd: string, i: nat)
    requires OnlyDeletes(ws) && crd in s.instances && i < |s.instances[crd]|
    ensures var after := PerformAll(s, ws).instances;
            && crd in after && |after[crd]| == |s.instances[crd]|
            && after[crd][i].name == s.instances[crd][i].name
            && (s.instances[crd][i].deleting || DeleteInstance(crd, s.instances[crd][i].name) in ws <==>
                after[crd][i].deleting)
    decreases |ws|
  {
    if ws != [] {
      assert ws[0] in ws;
      assert forall w :: w in ws <==> w == ws[0] || w in ws[1..];
      MarksStay(Perform(s, ws[0]), ws[1..], crd, i);
    }
  }

  lemma {:induction false} DeletesEach(crd: string, list: seq<Instance>, i: nat)
    requires i < |list| && !list[i].deleting
    ensures DeleteInstance(crd, list[i].name) in DeletesOf(crd, list)
  {
    if i > 0 {
      DeletesEach(crd, list[1..], i - 1);
    }
  }

  /** A sweep that gets through leaves every instance it listed under deletion, so the next one
      only waits for them to disappear. */
  lemma {:induction false} SweepMarksEverything(s: State, targets: seq<Target>, t: Target)
    requires t in targets && !Blocked(s, targets)
    ensures AllDeleting(Listed(PerformAll(s, SweepWrites(s, targets)), t.crd))
    decreases |targets|
  {
    var rest, listed := targets[1..], Listed(s, targets[0].crd);
    var deletes := DeletesOf(targets[0].crd, listed);
    var s1 := PerformAll(s, deletes);
    DeletesOfOnlyDelete(targets[0].crd, listed);
    DeletesFrame(s, deletes);
    PerformAppend(s, deletes, SweepWrites(s1, rest));
    SweepOnlyDeletes(s1, rest);
    DeletesFrame(s1, SweepWrites(s1, rest));
    if t in rest {
      SweepMarksEverything(s1, rest, t);
    } else if t.crd in s.instances {
      var after := PerformAll(s1, SweepWrites(s1, rest)).instances[t.crd];
      forall i | 0 <= i < |after| ensures after[i].deleting {
        MarksStay(s, deletes, t.crd, i);
        if !listed[i].deleting { DeletesEach(t.crd, listed, i); }
        MarksStay(s1, SweepWrites(s1, rest), t.crd, i);
      }
    }
  }

  /** Every definition has one scope. */
  ghost predicate OneScope(targets: seq<Target>) {
    forall t, u :: t in targets && u in targets && t.crd == u.crd ==> t == u
  }

  /** Exactly when a sweep gets through: no namespaced definition holds an instance that is not
      already under deletion. As long as one does, no pass marks it and none gets further. */
  lemma {:induction false} SweepCompletesIff(s: State, targets: seq<Target>)
    requires OneScope(targets)
    ensures !Blocked(s, targets) <==> forall t <- targets :: t.namespaced ==> AllDeleting(Listed(s, t.crd))
    decreases |targets|
  {
    if targets != [] {
      var t, rest := targets[0], targets[1..];
      assert forall u :: u in targets <==> u == t || u in rest;
      if Rejects(s, t) {
        assert t in targets && !AllDeleting(Listed(s, t.crd));
      } else {
        var deletes := DeletesOf(t.crd, Listed(s, t.crd));
        var s1 := PerformAll(s, deletes);
        DeletesOfOnlyDelete(t.crd, Listed(s, t.crd));
        DeletesFrame(s, deletes);
        SweepCompletesIff(s1, rest);
        forall u | u in rest && u.namespaced ensures AllDeleting(Listed(s1, u.crd)) <==> AllDeleting(Listed(s, u.crd)) {
          OtherListsStay(s, t, u);
        }
      }
    }
  }

  /** The deletions for one target mark no namespaced instance of another. */
  lemma OtherListsStay(s: State, t: Target, u: Target)
    requires !Rejects(s, t) && u.namespaced && (u.crd == t.crd ==> u == t)
    ensures AllDeleting(Listed(PerformAll(s, DeletesOf(t.crd, Listed(s, t.crd))), u.crd)) <==>
              AllDeleting(Listed(s, u.crd))
  {
    var deletes := DeletesOf(t.crd, Listed(s, t.crd));
    var s1 := PerformAll(s, deletes);
    DeletesOfOnlyDelete(t.crd, Listed(s, t.crd));
    DeletesFrame(s, deletes);
    if u == t {
      NothingDeleted(t.crd, Listed(s, t.crd));
    } else if u.crd in s.instances {
      forall i | 0 <= i < |s.instances[u.crd]|
        ensures s1.instances[u.crd][i].deleting <==> s.instances[u.crd][i].deleting
      {
        MarksStay(s, deletes, u.crd, i);
        var w := DeleteInstance(u.crd, s.instances[u.crd][i].name);
        if w in deletes {
          DeletesNameTheirCrd(t.crd, Listed(s, t.crd), w);
        }
      }
      forall i | 0 <= i < |s.instances[u.crd]|
        ensures s1.instances[u.crd][i] in s1.instances[u.crd] && s.instances[u.crd][i] in s.instances[u.crd]
      {
      }
    }
  }

  lemma {:induction false} DeletesNameTheirCrd(crd: string, list: seq<Instance>, w: Write)
    requires w in DeletesOf(crd, list)
    ensures w.DeleteInstance? && w.crd == crd
  {
    if list != [] && w in DeletesOf(crd, list[1..]) {
      DeletesNameTheirCrd(crd, list[1..], w);
    }
  }

  /** A blocked pass, wherever it stops, only marks instances: the owner namespace, the finalizer
      and the nodes stay. */
  lemma BlockedPassKeeps(op: Operator, s: State, listing: seq<string>, order: seq<Kind>, cut: nat)
    requires s.config.Some? && s.config.value.deleting && Blocked(s, Targets(op.crds(s.config.value.spec)))
    ensures var s' := Next(op, s, ConfigurationPass(listing, order, cut)); s' == s.(instances := s'.instances)
  {
    hide PerformAll, ConfigurationPlan, Take, SweepCount, Blocked, Targets;
    BlockedCounts(s, Targets(op.crds(s.config.value.spec)));
    DeletionEffect(op, s, listing, order, cut);
  }

  // ----- the sweep while instances come and go -----

  ghost function Names(list: seq<Instance>): set<string> {
    set i <- list :: i.name
  }

  /** No definition holds an instance in `after` that it did not hold in `before`. */
  ghost predicate NothingNew(before: State, after: State) {
    forall crd :: Names(Listed(after, crd)) <= Names(Listed(before, crd))
  }

  lemma HeadIsNamed(list: seq<Instance>)
    ensures list != [] ==> list[0].name in Names(list)
  {
  }

  /** From call `from` on, no version of any of the definitions holds an instance. */
  ghost predicate EmptyFrom(history: nat -> State, from: nat, crds: seq<Crd>) {
    forall crd <- crds, i: nat | from <= i :: crd.versions != [] ==> Listed(history(i), crd.name) == []
  }

  /** Deletion at API-call granularity: call number `i` meets the state `history(i)`, in which
      instances have come and gone since call `i - 1`, and `fails(i)` says whether it fails. If no
      instance is created once deletion was requested, then at the call that drops the finalizer,
      and ever after, no instance of any rendered definition is left. */
  method DeleteUnderInterference(history: nat -> State, fails: nat -> bool, crds: seq<Crd>)
    returns (result: ConfigurationController.SweepResult, dropped: bool, calls: nat)
    requires forall i: nat :: NothingNew(history(i), history(i + 1))
    ensures dropped ==> result.Clean? && calls > 0 && !fails(calls - 1) && EmptyFrom(history, calls - 1, crds)
    ensures result.Clean? && !dropped ==> calls > 0 && fails(calls - 1)
  {
    result, calls := SweepUnderInterference(history, fails, crds);
    dropped := false;
    if result.Clean? {
      calls := calls + 1;
      if !fails(calls - 1) && history(calls - 1).ownerNamespace.Some? {
        calls := calls + 1;
      }
      if !fails(calls - 1) {
        calls := calls + 1;
        dropped := !fails(calls - 1);
      }
    }
  }

  /** The nested sweep under such interference: when it reports nothing, nothing is left for good. */
  method SweepUnderInterference(history: nat -> State, fails: nat -> bool, crds: seq<Crd>)
    returns (result: ConfigurationController.SweepResult, calls: nat)
    requires forall i: nat :: NothingNew(history(i), history(i + 1))
    ensures result.Clean? ==> EmptyFrom(history, calls, crds)
    ensures result.Remaining? ==> result.objectCount > 0
    ensures result.Rejected? ==> exists crd <- crds :: crd.namespaced
    ensures result.CallFailed? ==> calls > 0 && fails(calls - 1)
  {
    hide Listed, NothingNew;
    calls := 0;
    var objectCount := 0;
    var i := 0;
    while i < |crds|
      invariant 0 <= i <= |crds| && objectCount >= 0
      invariant objectCount == 0 ==> EmptyFrom(history, calls, crds[..i])
    {
      var j := 0;
      while j < |crds[i].versions|
        invariant 0 <= j <= |crds[i].versions| && objectCount >= 0
        invariant objectCount == 0 ==> EmptyFrom(history, calls, crds[..i])
        invariant objectCount == 0 && j > 0 ==> EmptyFrom(history, calls, [crds[i]])
      {
        var listedAt := calls;
        var items := Listed(history(listedAt), crds[i].name);
        calls := calls + 1;
        if fails(listedAt) {
          return ConfigurationController.CallFailed, calls;
        }
        objectCount := objectCount + |items|;
        var rejected;
        var ok;
        ok, rejected, calls := DeletesUnderInterference(crds[i], items, fails, calls);
        if !ok {
          return if rejected then ConfigurationController.Rejected else ConfigurationController.CallFailed, calls;
        }
        if items == [] {
          EmptyForever(history, listedAt, crds[i]);
        }
        j := j + 1;
      }
      assert crds[..i + 1] == crds[..i] + [crds[i]];
      i := i + 1;
    }
    assert crds[..i] == crds;
    result := if objectCount > 0 then ConfigurationController.Remaining(objectCount) else ConfigurationController.Clean;
  }

  /** The deletions behind one listing; a namespaced instance cannot be deleted this way. */
  method DeletesUnderInterference(crd: Crd, items: seq<Instance>, fails: nat -> bool, start: nat)
    returns (ok: bool, rejected: bool, calls: nat)
    ensures calls >= start && (items == [] ==> ok && calls == start)
    ensures rejected ==> !ok && crd.namespaced
    ensures !ok && !rejected ==> calls > 0 && fails(calls - 1)
  {
    calls := start;
    var n := 0;
    while n < |items|
      invariant 0 <= n <= |items| && calls >= start
      invariant n == 0 ==> calls == start
    {
      if !items[n].deleting {
        calls := calls + 1;
        if fails(calls - 1) || crd.namespaced {
          return false, !fails(calls - 1), calls;
        }
      }
      n := n + 1;
    }
    ok, rejected := true, false;
  }

  lemma EmptyForever(history: nat -> State, start: nat, crd: Crd)
    requires forall i: nat :: NothingNew(history(i), history(i + 1))
    requires Listed(history(start), crd.name) == []
    ensures EmptyFrom(history, start, [crd])
  {
    hide Listed, NothingNew;
    forall i: nat | start <= i ensures Listed(history(i), crd.name) == [] {
      StillEmpty(history, start, i, crd.name);
    }
  }

  lemma {:induction false} StillEmpty(history: nat -> State, start: nat, i: nat, name: string)
    requires forall j: nat :: NothingNew(history(j), history(j + 1))
    requires start <= i && Listed(history(start), name) == []
    ensures Listed(history(i), name) == []
    decreases i
  {
    hide Listed, NothingNew;
    if start < i {
      StillEmpty(history, start, i - 1, name);
      EmptyStaysEmpty(history(i - 1), history(i - 1 + 1));
    }
  }

  lemma EmptyStaysEmpty(before: State, after: State)
    requires NothingNew(before, after)
    ensures forall crd :: Listed(before, crd) == [] ==> Listed(after, crd) == []
  {
    hide Listed;
    forall crd | Listed(before, crd) == [] ensures Listed(after, crd) == [] {
      HeadIsNamed(Listed(after, crd));
    }
  }

  lemma {:induction false} ReleaseEffect(s: State, ws: seq<Write>, n: string)
    requires OnlyReleases(ws)
    ensures var after := PerformAll(s, ws).nodes;
            n in after ==> n in s.nodes && (after[n].finalizer <==> s.nodes[n].finalizer && DropNodeFinalizer(n) !in ws)
    decreases |ws|
  {
    if ws != [] {
      assert ws[0] in ws;
      assert forall w :: w in ws <==> w == ws[0] || w in ws[1..];
      ReleaseEffect(Perform(s, ws[0]), ws[1..], n);
    }
  }

  lemma {:induction false} ReleasesListed(listing: seq<string>, nodes: map<string, Node>, n: string)
    requires n in listing && n in nodes && nodes[n].finalizer
    ensures DropNodeFinalizer(n) in NodeReleases(listing, nodes)
  {
    if listing[0] != n {
      ReleasesListed(listing[1..], nodes, n);
    }
  }

  /** A complete deletion pass behind a clean sweep releases the nodes exactly when the
      Configuration's own finalizer was already gone. Normally it is not: the pass drops it, the
      Configuration disappears, and every node keeps its finalizer. */
  lemma NodesReleasedOrLeft(op: Operator, s: State, listing: seq<string>, order: seq<Kind>)
    requires s.config.Some? && s.config.value.deleting && IsListing(listing, s.nodes) && IsOrder(order)
    requires SweepCount(s.instances, Targets(op.crds(s.config.value.spec))) == 0
    ensures var c, plan := s.config.value, ConfigurationPlan(op, s, listing, order);
            var s' := Next(op, s, ConfigurationPass(listing, order, |plan|));
            && s'.ownerNamespace.None?
            && (c.finalizer ==> s'.nodes == s.nodes && s'.config == Reap(c.(finalizer := false)))
            && (!c.finalizer ==> forall n <- s'.nodes :: !s'.nodes[n].finalizer)
  {
    hide SweepWrites, SweepCount, Targets, PerformAll, Take, TeardownWrites;
    var c, plan := s.config.value, ConfigurationPlan(op, s, listing, order);
    var sweep := SweepWrites(s, Targets(op.crds(c.spec)));
    SweepOnlyDeletes(s, Targets(op.crds(c.spec)));
    DeletesFrame(s, sweep);
    TakeEnds(plan, |plan|);
    PerformAppend(s, sweep, TeardownWrites(s, c, listing));
    TearsDown(PerformAll(s, sweep), s, c, listing);
  }

  /** What the nodes left behind mean for the next Configuration. The last pass leaves every node
      its finalizer and every database member in place; a Configuration created right after it is
      safe in every run if and only if it selects none of the surviving members. */
  lemma RecreationSafeIff(op: Operator, s: State, listing: seq<string>, order: seq<Kind>, spec: Spec)
    requires s.config.Some? && s.config.value.deleting
    requires s.config.value.finalizer && !s.config.value.foreignFinalizer
    requires SweepCount(s.instances, Targets(op.crds(s.config.value.spec))) == 0
    requires IsListing(listing, s.nodes) && IsOrder(order)
    ensures var plan := ConfigurationPlan(op, s, listing, order);
            var gone := Next(op, s, ConfigurationPass(listing, order, |plan|));
            && gone.config.None? && gone.nodes == s.nodes && gone.nb == s.nb && gone.sb == s.sb
            && (Release.AlwaysSafe(op, Created(gone, spec)) <==>
                forall n <- s.nodes ::
                  var node := s.nodes[n];
                  SelectedBy(spec, node) && (node.finalizer || !node.deleting) && NodeInternalIP(node.addresses) != ""
                  ==> !Member(s, node))
  {
    hide ConfigurationPlan, Take, PerformAll, SweepCount, Targets, NodeInternalIP, SelectedBy, IsListing, IsOrder,
         Release.AlwaysSafe;
    var plan := ConfigurationPlan(op, s, listing, order);
    NodesReleasedOrLeft(op, s, listing, order);
    DeletionEffect(op, s, listing, order, |plan|);
    Release.SafeIff(op, Created(Next(op, s, ConfigurationPass(listing, order, |plan|)), spec));
  }

  lemma TeardownKeepsInstances(s: State, before: State, c: ConfigObj, listing: seq<string>)
    requires s == before.(instances := s.instances) && s.config == Some(c) && c.deleting
    ensures PerformAll(s, TeardownWrites(before, c, listing)).instances == s.instances
  {
    hide PerformAll, Take, TeardownWrites;
    var all := TeardownWrites(s, c, listing);
    assert TeardownWrites(before, c, listing) == all by {
      ConfigurationController.TeardownIgnoresInstances(before, s, c, listing);
    }
    TakeEnds(all, |all|);
    Cluster.Teardown(s, c, listing, |all|);
  }

  lemma TearsDown(s: State, before: State, c: ConfigObj, listing: seq<string>)
    requires s == before.(instances := s.instances) && s.config == Some(c) && IsListing(listing, s.nodes)
    ensures var s' := PerformAll(s, TeardownWrites(before, c, listing));
            && s'.ownerNamespace.None?
            && (c.finalizer ==> s'.nodes == s.nodes && s'.config == Reap(c.(finalizer := false)))
            && (!c.finalizer ==> forall n <- s'.nodes :: !s'.nodes[n].finalizer)
  {
    var ns := if s.ownerNamespace.Some? then [DeleteOwnerNamespace] else [];
    var releases := NodeReleases(listing, s.nodes);
    var s1 := s.(ownerNamespace := None);
    PerformOne(s, DeleteOwnerNamespace);
    assert PerformAll(s, ns) == s1;
    if c.finalizer {
      PerformAppend(s, ns, [DropConfigFinalizer]);
      PerformOne(s1, DropConfigFinalizer);
    } else {
      PerformAppend(s, ns, releases);
      NodeReleasesOnlyRelease(listing, s.nodes);
      ReleasesFrame(s1, releases);
      var s' := PerformAll(s1, releases);
      forall n | n in s'.nodes ensures !s'.nodes[n].finalizer {
        ReleaseEffect(s1, releases, n);
        if s.nodes[n].finalizer {
          assert n in multiset(s.nodes.Keys);
          assert n in multiset(listing);
          ReleasesListed(listing, s.nodes, n);
        }
      }
    }
  }
}
