/** The configuration controller's Reconcile, step by step over a server whose calls may fail.
    Every execution is a configuration pass of the machine in `Cluster`. */
module ConfigurationController {
  import opened MergePatch
  import opened Model
  import opened Selector
  import opened Cluster
  import opened Api
  import opened ConfigurationTypes
  import opened Addresses
  import opened Conditions
  import Convergence

  // ----- finding nodes -----

  method InternalIPOf(addresses: seq<NodeAddress>) returns (address: string)
    ensures address == NodeInternalIP(addresses)
  {
    var i := 0;
    while i < |addresses|
      invariant 0 <= i <= |addresses|
      invariant NodeInternalIP(addresses) == NodeInternalIP(addresses[i..])
    {
      if addresses[i].InternalIP? {
        return addresses[i].address;
      }
      i := i + 1;
    }
    return "";
  }

  /** The addresses of the listed nodes, collected into a fresh slice. */
  method CollectAddresses(items: seq<Node>) returns (found: array<string>, n: nat)
    ensures fresh(found) && n <= found.Length && found[..n] == AddressesOf(items)
  {
    found, n := new string[|items|](_ => ""), 0;
    var i := 0;
    while i < |items|
      invariant 0 <= n <= i <= |items| && found.Length == |items|
      invariant found[..n] == AddressesOf(items[..i])
    {
      var address := InternalIPOf(items[i].addresses);
      AddressesOfAppend(items[..i], [items[i]]);
      assert items[..i + 1] == items[..i] + [items[i]];
      assert [items[i]][1..] == [] && AddressesOf([]) == [];
      if |address| > 0 {
        found[n] := address;
        n := n + 1;
      }
      i := i + 1;
    }
    assert items[..i] == items;
  }

  // ----- applying objects -----

  ghost function Enumerate(kinds: set<Kind>): (order: seq<Kind>)
    ensures multiset(order) == multiset(kinds)
  {
    if kinds == {} then []
    else
      var k :| k in kinds;
      assert kinds == {k} + (kinds - {k});
      [k] + Enumerate(kinds - {k})
  }

  lemma {:induction false} ApplyWritesAppend(op: Operator, spec: Spec, addresses: seq<string>, a: seq<Kind>,
                                             b: seq<Kind>, configUid: nat, namespaceUid: nat)
    ensures ApplyWrites(op, spec, addresses, a + b, configUid, namespaceUid) ==
            ApplyWrites(op, spec, addresses, a, configUid, namespaceUid) +
              ApplyWrites(op, spec, addresses, b, configUid, namespaceUid)
    decreases |a|
  {
    if a == [] {
      assert a + b == b;
    } else {
      assert (a + b)[1..] == a[1..] + b;
      ApplyWritesAppend(op, spec, addresses, a[1..], b, configUid, namespaceUid);
    }
  }

  lemma PerformSnoc(s: State, ws: seq<Write>, w: Write)
    ensures PerformAll(s, ws + [w]) == Perform(PerformAll(s, ws), w)
  {
    PerformAppend(s, ws, [w]);
    PerformOne(PerformAll(s, ws), w);
  }

  /** Applies every rendered object; the map of object types yields its keys in arbitrary order. */
  method ApplyObjects(api: ApiServer, op: Operator, spec: Spec, addresses: seq<string>, configUid: nat,
                      namespaceUid: nat)
    returns (ok: bool, ghost order: seq<Kind>, ghost done: nat)
    modifies api
    ensures IsOrder(order)
    ensures var all := ApplyWrites(op, spec, addresses, order, configUid, namespaceUid);
            && done <= |all| && (ok ==> done == |all|)
            && api.state == PerformAll(old(api.state), Take(all, done))
    ensures !ok ==> api.budget == 0
  {
    hide PerformAll, Perform, KindWrites, Enumerate, Take, ApplyWrites, IsOrder, Remain;
    ghost var s0 := api.state;
    StartRemain(op, spec, addresses, configUid, namespaceUid);
    var remaining := KINDS;
    order := [];
    EmptyRun(s0);
    while remaining != {}
      invariant Remain(order, remaining)
      invariant api.state == PerformAll(s0, ApplyWrites(op, spec, addresses, order, configUid, namespaceUid))
      decreases |remaining|
    {
      var kind :| kind in remaining;
      TakeKind(order, remaining, kind);
      remaining := remaining - {kind};
      ghost var earlier := ApplyWrites(op, spec, addresses, order, configUid, namespaceUid);
      ghost var rest := order + [kind] + Enumerate(remaining);
      var n;
      ok, n := ApplyKind(api, op.render(spec, addresses, kind), kind, OwnerOf(op, kind, configUid, namespaceUid), s0,
                         earlier);
      ghost var these := KindWrites(op.render(spec, addresses, kind), kind, OwnerOf(op, kind, configUid, namespaceUid));
      OneKind(op, spec, addresses, order, kind, configUid, namespaceUid);
      if !ok {
        done := |earlier| + n;
        StopsWithin(op, spec, addresses, order, kind, Enumerate(remaining), n, configUid, namespaceUid);
        order := rest;
        return;
      }
      assert these[..n] == these;
      order := order + [kind];
    }
    NoneRemain(order);
    ok, done := true, |ApplyWrites(op, spec, addresses, order, configUid, namespaceUid)|;
    TakeEnds(ApplyWrites(op, spec, addresses, order, configUid, namespaceUid), done);
  }

  /** Every type is either done or remaining. */
  ghost predicate Remain(order: seq<Kind>, remaining: set<Kind>) {
    multiset(order) + multiset(remaining) == multiset(KINDS)
  }

  lemma StartRemain(op: Operator, spec: Spec, addresses: seq<string>, configUid: nat, namespaceUid: nat)
    ensures Remain([], KINDS) && ApplyWrites(op, spec, addresses, [], configUid, namespaceUid) == []
  {
  }

  lemma TakeKind(order: seq<Kind>, remaining: set<Kind>, kind: Kind)
    requires Remain(order, remaining) && kind in remaining
    ensures Remain(order + [kind], remaining - {kind})
    ensures IsOrder(order + [kind] + Enumerate(remaining - {kind}))
  {
    hide Enumerate;
    assert multiset(remaining) == multiset{kind} + multiset(remaining - {kind});
  }

  lemma NoneRemain(order: seq<Kind>)
    ensures Remain(order, {}) ==> IsOrder(order)
  {
  }

  /** Stopping after `n` objects of one type. */
  lemma StopsWithin(op: Operator, spec: Spec, addresses: seq<string>, order: seq<Kind>, kind: Kind, later: seq<Kind>,
                    n: nat, configUid: nat, namespaceUid: nat)
    requires n <= |op.render(spec, addresses, kind)|
    ensures var earlier := ApplyWrites(op, spec, addresses, order, configUid, namespaceUid);
            var owner := OwnerOf(op, kind, configUid, namespaceUid);
            var these := KindWrites(op.render(spec, addresses, kind), kind, owner);
            var all := ApplyWrites(op, spec, addresses, order + [kind] + later, configUid, namespaceUid);
            |earlier| + n <= |all| && Take(all, |earlier| + n) == earlier + these[..n]
  {
    hide ApplyWrites, KindWrites;
    OneKind(op, spec, addresses, order, kind, configUid, namespaceUid);
    ApplyWritesAppend(op, spec, addresses, order + [kind], later, configUid, namespaceUid);
  }

  lemma OneKind(op: Operator, spec: Spec, addresses: seq<string>, order: seq<Kind>, kind: Kind, configUid: nat,
                namespaceUid: nat)
    ensures ApplyWrites(op, spec, addresses, order + [kind], configUid, namespaceUid) ==
            ApplyWrites(op, spec, addresses, order, configUid, namespaceUid)
            + KindWrites(op.render(spec, addresses, kind), kind, OwnerOf(op, kind, configUid, namespaceUid))
  {
    ApplyWritesAppend(op, spec, addresses, order, [kind], configUid, namespaceUid);
    assert [kind][1..] == [];
  }

  /** Applies the objects of one type in rendering order. */
  method ApplyKind(api: ApiServer, objs: seq<Rendered>, kind: Kind, owner: Owner, ghost s0: State,
                   ghost earlier: seq<Write>)
    returns (ok: bool, n: nat)
    requires api.state == PerformAll(s0, earlier)
    modifies api
    ensures n <= |objs| && (ok ==> n == |objs|) && (!ok ==> api.budget == 0)
    ensures api.state == PerformAll(s0, earlier + KindWrites(objs, kind, owner)[..n])
  {
    hide PerformAll, Perform;
    ghost var these := KindWrites(objs, kind, owner);
    n := 0;
    assert earlier + these[..0] == earlier;
    while n < |objs|
      invariant 0 <= n <= |objs|
      invariant api.state == PerformAll(s0, earlier + these[..n])
    {
      var w := Apply(Key(kind, objs[n].namespace, objs[n].name), Managed(objs[n].content, owner));
      PerformSnoc(s0, earlier + these[..n], w);
      assert earlier + these[..n + 1] == earlier + these[..n] + [w];
      ok := api.Write(w);
      if !ok {
        return;
      }
      n := n + 1;
    }
    ok := true;
  }

  // ----- deletion -----

  /** A blocked sweep stays blocked; otherwise it goes on from the state it left. */
  lemma {:induction false} SweepAppend(s: State, a: seq<Target>, b: seq<Target>)
    ensures var s1 := PerformAll(s, SweepWrites(s, a));
            && SweepWrites(s, a + b) == SweepWrites(s, a) + (if Blocked(s, a) then [] else SweepWrites(s1, b))
            && (Blocked(s, a + b) <==> Blocked(s, a) || Blocked(s1, b))
    decreases |a|
  {
    hide PerformAll, Listed, DeletesOf, Rejects;
    EmptyRun(s);
    if a == [] {
      assert a + b == b;
    } else {
      assert (a + b)[1..] == a[1..] + b && (a + b)[0] == a[0];
      if !Rejects(s, a[0]) {
        var deletes := DeletesOf(a[0].crd, Listed(s, a[0].crd));
        var s1 := PerformAll(s, deletes);
        SweepAppend(s1, a[1..], b);
        PerformAppend(s, deletes, SweepWrites(s1, a[1..]));
      }
    }
  }

  lemma {:induction false} CountAppend(instances: map<string, seq<Instance>>, a: seq<Target>, b: seq<Target>)
    ensures SweepCount(instances, a + b) == SweepCount(instances, a) + SweepCount(instances, b)
    decreases |a|
  {
    if a == [] {
      assert a + b == b;
    } else {
      assert (a + b)[1..] == a[1..] + b;
      CountAppend(instances, a[1..], b);
    }
  }

  lemma {:induction false} TargetsAppend(a: seq<Crd>, b: seq<Crd>)
    ensures Targets(a + b) == Targets(a) + Targets(b)
    decreases |a|
  {
    if a == [] {
      assert a + b == b;
    } else {
      assert (a + b)[1..] == a[1..] + b;
      TargetsAppend(a[1..], b);
    }
  }

  lemma {:induction false} DeletesAppend(crd: string, a: seq<Instance>, b: seq<Instance>)
    ensures DeletesOf(crd, a + b) == DeletesOf(crd, a) + DeletesOf(crd, b)
    decreases |a|
  {
    if a == [] {
      assert a + b == b;
    } else {
      assert (a + b)[1..] == a[1..] + b;
      DeletesAppend(crd, a[1..], b);
    }
  }

  /** The part of the sweep done so far, at a listing boundary. */
  ghost predicate Swept(s0: State, s: State, targets: seq<Target>, count: int) {
    && s == PerformAll(s0, SweepWrites(s0, targets)) && !Blocked(s0, targets)
    && count == SweepCount(s0.instances, targets)
  }

  /** One listing: count it, then delete what is not yet being deleted. */
  method SweepVersion(api: ApiServer, target: Target, objectCount: int, ghost s0: State, ghost targets: seq<Target>)
    returns (ok: bool, rejected: bool, count: int, ghost done: nat)
    requires Swept(s0, api.state, targets, objectCount)
    modifies api
    ensures done <= |SweepWrites(s0, targets + [target])|
    ensures api.state == PerformAll(s0, Take(SweepWrites(s0, targets + [target]), done))
    ensures ok ==> Swept(s0, api.state, targets + [target], count) && done == |SweepWrites(s0, targets + [target])|
    ensures !ok && rejected ==> Blocked(s0, targets + [target]) && done == |SweepWrites(s0, targets + [target])|
    ensures !ok && !rejected ==> api.budget == 0
  {
    hide PerformAll, SweepCount, Perform, SweepWrites, Blocked, Take, Rejects, DeletesOf;
    count, rejected := objectCount, false;
    ghost var s1 := api.state;
    ghost var earlier, all := SweepWrites(s0, targets), SweepWrites(s0, targets + [target]);
    OneListing(s0, targets, target, s1);
    PartialListing(s0, targets, target, s1, 0);
    done := |earlier|;
    ok := api.Call();
    if !ok {
      return;
    }
    if target.crd !in api.state.instances {
      assert Listed(s1, target.crd) == [];
      TakeEnds(all, |all|);
      return;
    }
    var items := api.state.instances[target.crd];
    count := count + |items|;
    var n;
    ok, rejected, n := DeleteItems(api, target, items, s0, earlier);
    PartialListing(s0, targets, target, s1, n);
    done := |earlier| + |DeletesOf(target.crd, items[..n])|;
    TakeEnds(all, |all|);
  }

  /** How far one listing got after its first `n` instances. */
  lemma PartialListing(s0: State, targets: seq<Target>, target: Target, s1: State, n: nat)
    requires s1 == PerformAll(s0, SweepWrites(s0, targets)) && !Blocked(s0, targets)
    requires n <= |Listed(s1, target.crd)|
    requires target.namespaced ==> forall i <- Listed(s1, target.crd)[..n] :: i.deleting
    ensures var items, earlier := Listed(s1, target.crd), SweepWrites(s0, targets);
            var all := SweepWrites(s0, targets + [target]);
            var part := DeletesOf(target.crd, items[..n]);
            && |earlier| + |part| <= |all| && Take(all, |earlier| + |part|) == earlier + part
            && (n == 0 ==> part == [] && Take(all, |earlier|) == earlier)
            && (n == |items| ==> |earlier| + |part| == |all| && !Rejects(s1, target))
            && (target.namespaced && n < |items| && !items[n].deleting ==>
                Rejects(s1, target) && |earlier| + |part| == |all|)
  {
    hide PerformAll, SweepCount, SweepWrites, Blocked, DeletesOf;
    var items := Listed(s1, target.crd);
    OneListing(s0, targets, target, s1);
    PartialDeletes(target.crd, items, n);
    if n == |items| {
      assert items[..n] == items;
    } else if target.namespaced && !items[n].deleting {
      assert items[n] in items;
    }
    if target.namespaced {
      NothingDeleted(target.crd, items[..n]);
    }
  }

  lemma PartialDeletes(crd: string, items: seq<Instance>, n: nat)
    requires n <= |items|
    ensures var part, all := DeletesOf(crd, items[..n]), DeletesOf(crd, items);
            && |part| <= |all| && all[..|part|] == part
            && (n == 0 ==> part == []) && (n == |items| ==> part == all)
  {
    DeletesAppend(crd, items[..n], items[n..]);
    assert items == items[..n] + items[n..];
    if n == |items| {
      assert items[..n] == items;
    }
  }

  /** Deletes the listed instances that are not yet being deleted. Deletions carry no namespace, so
      the server rejects one of a namespaced instance. */
  method DeleteItems(api: ApiServer, target: Target, items: seq<Instance>, ghost s0: State, ghost earlier: seq<Write>)
    returns (ok: bool, rejected: bool, n: nat)
    requires api.state == PerformAll(s0, earlier)
    modifies api
    ensures n <= |items| && (ok ==> n == |items|) && (!ok && !rejected ==> api.budget == 0)
    ensures rejected ==> !ok && target.namespaced && n < |items| && !items[n].deleting
    ensures target.namespaced ==> forall i <- items[..n] :: i.deleting
    ensures api.state == PerformAll(s0, earlier + DeletesOf(target.crd, items[..n]))
  {
    hide PerformAll, Perform;
    n, rejected := 0, false;
    assert items[..0] == [] && earlier + [] == earlier;
    while n < |items|
      invariant 0 <= n <= |items|
      invariant target.namespaced ==> forall i <- items[..n] :: i.deleting
      invariant api.state == PerformAll(s0, earlier + DeletesOf(target.crd, items[..n]))
    {
      assert items[..n + 1] == items[..n] + [items[n]] && [items[n]][1..] == [];
      DeletesAppend(target.crd, items[..n], [items[n]]);
      if items[n].deleting {
        assert DeletesOf(target.crd, items[..n + 1]) == DeletesOf(target.crd, items[..n]);
      } else if target.namespaced {
        rejected := api.Call();
        return false, rejected, n;
      } else {
        var w := DeleteInstance(target.crd, items[n].name);
        PerformSnoc(s0, earlier + DeletesOf(target.crd, items[..n]), w);
        assert earlier + DeletesOf(target.crd, items[..n + 1]) == earlier + DeletesOf(target.crd, items[..n]) + [w];
        ok := api.Write(w);
        if !ok {
          return;
        }
      }
      n := n + 1;
    }
    ok := true;
  }

  lemma OneListing(s0: State, targets: seq<Target>, target: Target, s1: State)
    requires s1 == PerformAll(s0, SweepWrites(s0, targets)) && !Blocked(s0, targets)
    ensures s1.instances.Keys == s0.instances.Keys
    ensures SweepWrites(s0, targets + [target]) ==
            SweepWrites(s0, targets) + if Rejects(s1, target) then [] else DeletesOf(target.crd, Listed(s1, target.crd))
    ensures Blocked(s0, targets + [target]) <==> Rejects(s1, target)
    ensures SweepCount(s0.instances, targets + [target]) == SweepCount(s0.instances, targets) + |Listed(s1, target.crd)|
  {
    SweepOnlyDeletes(s0, targets);
    DeletesFrame(s0, SweepWrites(s0, targets));
    SweepAppend(s0, targets, [target]);
    CountAppend(s0.instances, targets, [target]);
    SingleTarget(s1, target);
  }

  lemma SingleTarget(s: State, target: Target)
    ensures SweepWrites(s, [target]) == if Rejects(s, target) then [] else DeletesOf(target.crd, Listed(s, target.crd))
    ensures Blocked(s, [target]) <==> Rejects(s, target)
    ensures SweepCount(s.instances, [target]) == |Listed(s, target.crd)|
  {
    var deletes := DeletesOf(target.crd, Listed(s, target.crd));
    assert [target][1..] == [] && deletes + [] == deletes;
    assert SweepWrites(PerformAll(s, deletes), []) == [];
  }

  datatype SweepResult = Clean | Remaining(objectCount: int) | Rejected | CallFailed

  /** The nested sweep: lists every version of every definition, deletes what it finds, and fails
      as long as anything was found. If it gets through, its counter is exactly the sum of all
      listings; it cannot get through while a namespaced definition holds an unmarked instance. */
  method EnsureCRDObjectCleanup(api: ApiServer, crds: seq<Crd>) returns (result: SweepResult, ghost done: nat)
    modifies api
    ensures var s0, targets := old(api.state), Targets(crds);
            var all, total := SweepWrites(s0, targets), SweepCount(s0.instances, targets);
            && done <= |all| && api.state == PerformAll(s0, Take(all, done))
            && (result.Clean? ==> done == |all| && !Blocked(s0, targets) && total == 0)
            && (result.Remaining? ==> done == |all| && !Blocked(s0, targets) && result.objectCount == total > 0)
            && (result.Rejected? ==> done == |all| && Blocked(s0, targets))
            && (result.CallFailed? ==> api.budget == 0)
  {
    hide PerformAll, SweepCount, SweepWrites, Blocked;
    ghost var s0 := api.state;
    ghost var finished := [];
    var objectCount := 0;
    EmptySweep(s0);
    var i := 0;
    while i < |crds|
      invariant 0 <= i <= |crds| && finished == Targets(crds[..i])
      invariant Swept(s0, api.state, finished, objectCount)
    {
      var j := 0;
      ghost var before, target := finished, TargetOf(crds[i]);
      assert crds[..i + 1] == crds[..i] + [crds[i]] && crds == crds[..i] + crds[i..] && [crds[i]][1..] == [];
      TargetsAppend(crds[..i], [crds[i]]);
      TargetsAppend(crds[..i], crds[i..]);
      while j < |crds[i].versions|
        invariant 0 <= j <= |crds[i].versions|
        invariant finished == before + seq(j, _ => target)
        invariant Swept(s0, api.state, finished, objectCount)
      {
        ghost var next := finished + [target];
        assert next == before + seq(j + 1, _ => target);
        var ok, rejected, count;
        ok, rejected, count, done := SweepVersion(api, TargetOf(crds[i]), objectCount, s0, finished);
        if !ok {
          ghost var later := seq(|crds[i].versions| - (j + 1), _ => target) + Targets(crds[i..][1..]);
          assert Targets(crds) == next + later;
          SweepAppend(s0, next, later);
          assert Take(SweepWrites(s0, Targets(crds)), done) == Take(SweepWrites(s0, next), done);
          return if rejected then Rejected else CallFailed, done;
        }
        objectCount, finished := count, next;
        j := j + 1;
      }
      i := i + 1;
    }
    assert crds[..i] == crds;
    done := |SweepWrites(s0, Targets(crds))|;
    TakeEnds(SweepWrites(s0, Targets(crds)), done);
    result := if objectCount > 0 then Remaining(objectCount) else Clean;
  }

  lemma EmptySweep(s: State)
    ensures Swept(s, s, [], 0)
  {
  }

  /** Releases every node that still carries the node finalizer. */
  method ReleaseNodes(api: ApiServer, listing: seq<string>) returns (ok: bool, ghost done: nat)
    modifies api
    ensures var s0 := old(api.state);
            var all := NodeReleases(listing, s0.nodes);
            && done <= |all| && (ok ==> done == |all|) && (!ok ==> api.budget == 0)
            && api.state == PerformAll(s0, Take(all, done))
  {
    hide PerformAll, Perform;
    ghost var s0 := api.state;
    done := 0;
    EmptyRun(s0);
    ok := api.Call();
    if !ok {
      return;
    }
    var nodes := api.state.nodes;
    var i := 0;
    assert listing[..0] == [];
    while i < |listing|
      invariant 0 <= i <= |listing|
      invariant done == |NodeReleases(listing[..i], nodes)|
      invariant api.state == PerformAll(s0, NodeReleases(listing[..i], nodes))
    {
      assert listing[..i + 1] == listing[..i] + [listing[i]] && [listing[i]][1..] == [];
      assert listing == listing[..i] + listing[i..];
      ReleasesAppend(listing[..i], [listing[i]], nodes);
      ReleasesAppend(listing[..i], listing[i..], nodes);
      if listing[i] in nodes && nodes[listing[i]].finalizer {
        assert NodeReleases(listing[..i + 1], nodes) ==
                 NodeReleases(listing[..i], nodes) + [DropNodeFinalizer(listing[i])];
        PerformSnoc(s0, NodeReleases(listing[..i], nodes), DropNodeFinalizer(listing[i]));
        ok := api.Write(DropNodeFinalizer(listing[i]));
        if !ok {
          assert Take(NodeReleases(listing, nodes), done) == NodeReleases(listing[..i], nodes);
          return;
        }
        done := done + 1;
      } else {
        assert NodeReleases(listing[..i + 1], nodes) == NodeReleases(listing[..i], nodes);
      }
      i := i + 1;
    }
    assert listing[..i] == listing;
    TakeEnds(NodeReleases(listing, nodes), done);
  }

  lemma {:induction false} ReleasesAppend(a: seq<string>, b: seq<string>, nodes: map<string, Node>)
    ensures NodeReleases(a + b, nodes) == NodeReleases(a, nodes) + NodeReleases(b, nodes)
    decreases |a|
  {
    if a == [] {
      assert a + b == b;
    } else {
      assert (a + b)[1..] == a[1..] + b;
      ReleasesAppend(a[1..], b, nodes);
    }
  }

  /** After a clean sweep: the owner namespace, then the finalizer or the nodes. */
  method TearDown(api: ApiServer, c: ConfigObj, listing: seq<string>) returns (ok: bool, ghost done: nat)
    requires api.state.config == Some(c)
    modifies api
    ensures var s0 := old(api.state);
            var all := TeardownWrites(s0, c, listing);
            && done <= |all| && (ok ==> done == |all|) && (!ok ==> api.budget == 0)
            && api.state == PerformAll(s0, Take(all, done))
  {
    hide PerformAll;
    ghost var s0 := api.state;
    ghost var ns := if s0.ownerNamespace.Some? then [DeleteOwnerNamespace] else [];
    ghost var all := TeardownWrites(s0, c, listing);
    done := 0;
    EmptyRun(s0);
    ok := api.Call();
    if !ok {
      return;
    }
    if api.state.ownerNamespace.Some? {
      PerformOne(s0, DeleteOwnerNamespace);
      ok := api.Write(DeleteOwnerNamespace);
      if !ok {
        return;
      }
    }
    ghost var s1 := api.state;
    assert s1 == PerformAll(s0, ns);
    done := |ns|;
    assert Take(all, done) == ns;
    if c.finalizer {
      PerformSnoc(s0, ns, DropConfigFinalizer);
      ok := api.Write(DropConfigFinalizer);
      if ok {
        done := done + 1;
        TakeEnds(all, done);
      }
      return;
    }
    ghost var released;
    ok, released := ReleaseNodes(api, listing);
    PerformPrefix(s0, ns, NodeReleases(listing, s0.nodes), |ns| + released);
    TakeEnds(NodeReleases(listing, s0.nodes), 0);
    EmptyRun(s1);
    done := |ns| + released;
  }

  /** Triggered once deletion was requested: sweep first, and tear down only behind a clean sweep. */
  method DeleteClusterScopedReference(api: ApiServer, op: Operator, c: ConfigObj, listing: seq<string>)
    returns (ok: bool, ghost done: nat)
    requires api.state.config == Some(c) && c.deleting
    modifies api
    ensures var s0 := old(api.state);
            var all := DeletionPlan(op, s0, c, listing);
            && done <= |all| && (ok ==> done == |all|)
            && api.state == PerformAll(s0, Take(all, done))
            && (api.budget > 0 ==> done == |all| && (ok <==> SweepCount(s0.instances, Targets(op.crds(c.spec))) == 0))
            && (ok ==> SweepCount(s0.instances, Targets(op.crds(c.spec))) == 0)
  {
    hide PerformAll, SweepWrites, SweepCount, TeardownWrites, Blocked, Targets;
    ghost var s0 := api.state;
    var result;
    result, done := EnsureCRDObjectCleanup(api, op.crds(c.spec));
    ghost var sweep := SweepWrites(s0, Targets(op.crds(c.spec)));
    SweepOnlyDeletes(s0, Targets(op.crds(c.spec)));
    ghost var rest := if SweepCount(s0.instances, Targets(op.crds(c.spec))) > 0 then []
                        else TeardownWrites(s0, c, listing);
    PerformPrefix(s0, sweep, rest, done);
    if !result.Clean? {
      if result.Rejected? { BlockedCounts(s0, Targets(op.crds(c.spec))); }
      return false, done;
    }
    ghost var s1 := api.state;
    TakeEnds(sweep, done);
    DeletesFrame(s0, sweep);
    assert TeardownWrites(s1, c, listing) == TeardownWrites(s0, c, listing) by {
      TeardownIgnoresInstances(s0, s1, c, listing);
    }
    ghost var torn;
    ok, torn := TearDown(api, c, listing);
    PerformPrefix(s0, sweep, rest, |sweep| + torn);
    TakeEnds(rest, 0);
    EmptyRun(s1);
    done := |sweep| + torn;
  }

  lemma TeardownIgnoresInstances(s0: State, s1: State, c: ConfigObj, listing: seq<string>)
    requires s1 == s0.(instances := s1.instances)
    ensures TeardownWrites(s1, c, listing) == TeardownWrites(s0, c, listing)
  {
  }

  // ----- reconcile -----

  /** There is something to deploy: no deployment is under way, and a node matches, or addresses are
      kept because the Configuration is not yet waiting for nodes. */
  predicate Deploys(c: ConfigObj, found: seq<string>) {
    && c.status.phase != Deploying
    && (found != [] || (c.status.addresses != [] &&
                        Lookup(c.status.conditions, WaitingForMatchingNodes).status != IsTrue))
  }

  lemma DeploysIff(c: ConfigObj, found: seq<string>, now: int)
    ensures Deploys(c, found) <==> Applies(PreparedStatus(c, found, now))
  {
    hide PreparedStatus, Sort, Lookup, Complete;
    Convergence.Prepared(c, found, now);
    SortMeaning(found);
  }

  /** Cut there, the pass has performed its whole plan. */
  predicate Whole(op: Operator, s: State, listing: seq<string>, order: seq<Kind>, cut: nat) {
    cut >= |ConfigurationPlan(op, s, listing, order)|
  }

  /** A deployment is due and the webhook certificate is missing. */
  predicate LacksCert(s: State, listing: seq<string>, hasCaCert: bool) {
    && Reconciles(s) && !hasCaCert
    && var found := FoundAddresses(listing, s.nodes, s.config.value.spec);
       found.Some? && Deploys(s.config.value, found.value)
  }

  /** What a reconcile reports as an error although no call fails: instances are left to delete, the
      master label does not parse, or the certificate is missing. */
  predicate Refuses(op: Operator, s: State, listing: seq<string>, hasCaCert: bool) {
    && s.config.Some?
    && var c := s.config.value;
    if c.deleting then SweepCount(s.instances, Targets(op.crds(c.spec))) > 0
    else c.finalizer && (ParseSelector(c.spec.masterNodesLabel).None? || LacksCert(s, listing, hasCaCert))
  }

  /** One reconcile of the Configuration. `listing` is the order in which the server lists nodes,
      `hasCaCert` whether the webhook secret holds a certificate. Whatever fails, and wherever, the
      server ends in a state of the machine's configuration pass. If no call fails, it has performed
      its whole plan and reports exactly the errors above; where only the certificate is missing, it
      has not gone beyond the owner namespace. */
  method Reconcile(api: ApiServer, op: Operator, listing: seq<string>, hasCaCert: bool)
    returns (ok: bool, ghost order: seq<Kind>, ghost cut: nat)
    requires IsListing(listing, api.state.nodes)
    modifies api
    ensures IsOrder(order)
    ensures api.state == Next(op, old(api.state), ConfigurationPass(listing, order, cut))
    ensures ok ==> Whole(op, old(api.state), listing, order, cut) && !Refuses(op, old(api.state), listing, hasCaCert)
    ensures api.budget > 0 && !ok ==> Refuses(op, old(api.state), listing, hasCaCert)
    ensures api.budget > 0 && !LacksCert(old(api.state), listing, hasCaCert) ==>
              Whole(op, old(api.state), listing, order, cut)
    ensures LacksCert(old(api.state), listing, hasCaCert) ==> cut <= |NamespaceWrites(old(api.state))|
  {
    hide PerformAll, ReconciledStatus, ApplyPlan, DeletionPlan, FoundAddresses;
    ghost var s0 := api.state;
    order, cut := Enumerate(KINDS), 0;
    EmptyRun(s0);
    ok := api.Call();
    if !ok || api.state.config.None? {
      return;
    }
    var stored := api.state.config.value;
    if stored.deleting {
      ok, cut := DeleteClusterScopedReference(api, op, stored, listing);
      return;
    }
    if !stored.finalizer {
      PerformOne(s0, AddConfigFinalizer);
      ok := api.Write(AddConfigFinalizer);
      cut := if ok then 1 else 0;
      TakeEnds([AddConfigFinalizer], cut);
      return;
    }
    ok, order, cut := ReconcileLive(api, op, stored, listing, hasCaCert);
  }

  /** Lists the selected nodes and stores their addresses in the private copy; fails on a label that
      does not parse. */
  method FindMasterNodes(api: ApiServer, spec: Spec, config: Configuration, listing: seq<string>, now: int)
    returns (ok: bool)
    requires config.Valid()
    modifies api`budget, config`conditions, config`addresses, config`addressCount, config.addresses
    ensures config.Valid() && (config.addresses == old(config.addresses) || fresh(config.addresses))
    ensures var found := FoundAddresses(listing, api.state.nodes, spec);
            && (ok ==> found.Some? && config.StatusValue() ==
                       Model.FindMasterNodes(old(config.StatusValue()), config.generation, found.value, now))
            && (!ok ==> api.budget == 0 || found.None?)
            && (found.None? <==> ParseSelector(spec.masterNodesLabel).None?)
  {
    hide Model.FindMasterNodes, AddressesOf, ParseSelector, Matching, NodeList;
    var selector := ParseSelector(spec.masterNodesLabel);
    if selector.None? {
      return false;
    }
    ok := api.Call();
    if !ok {
      return;
    }
    var found, n := CollectAddresses(Matching(NodeList(listing, api.state.nodes), selector.value));
    config.FindMasterNodes(found, n, now);
  }

  /** Applies everything unless there is nobody to deploy to or a deployment is under way. */
  method ApplyObject(api: ApiServer, op: Operator, stored: ConfigObj, config: Configuration, hasCaCert: bool)
    returns (ok: bool, ghost order: seq<Kind>, ghost done: nat)
    requires config.Valid() && api.state.ownerNamespace.Some?
    modifies api, config`phase
    ensures IsOrder(order) && config.Valid()
    ensures var prepared, s0 := old(config.StatusValue()), old(api.state);
            var all := if Applies(prepared)
                       then ApplyWrites(op, stored.spec, prepared.addresses, order, stored.uid, s0.ownerNamespace.value)
                       else [];
            && done <= |all| && (ok ==> done == |all|)
            && api.state == PerformAll(s0, Take(all, done))
            && (ok ==> config.StatusValue() == if Applies(prepared) then prepared.(phase := Deployed) else prepared)
            && (api.budget > 0 ==> (ok <==> hasCaCert || !Applies(prepared)))
            && (ok ==> hasCaCert || !Applies(prepared))
            && (!hasCaCert ==> done == 0)
  {
    hide PerformAll, ApplyWrites;
    order, done, ok := Enumerate(KINDS), 0, true;
    EmptyRun(api.state);
    if config.addressCount == 0 || config.phase == Deploying {
      return;
    }
    ok := api.Call();
    if ok { ok := api.Call(); }
    if !ok || !hasCaCert {
      ok := false;
      return;
    }
    var addresses := config.addresses[..config.addressCount];
    ok, order, done := ApplyObjects(api, op, stored.spec, addresses, stored.uid, api.state.ownerNamespace.value);
    if ok {
      config.phase := Deployed;
    }
  }

  /** The steps of a reconcile over a live Configuration that holds its finalizer. */
  method ReconcileLive(api: ApiServer, op: Operator, stored: ConfigObj, listing: seq<string>, hasCaCert: bool)
    returns (ok: bool, ghost order: seq<Kind>, ghost cut: nat)
    requires Reconciles(api.state) && api.state.config.value == stored
    modifies api
    ensures IsOrder(order)
    ensures api.state == PerformAll(old(api.state), Take(ConfigurationPlan(op, old(api.state), listing, order), cut))
    ensures ok ==> Whole(op, old(api.state), listing, order, cut) && !Refuses(op, old(api.state), listing, hasCaCert)
    ensures api.budget > 0 && !ok ==> Refuses(op, old(api.state), listing, hasCaCert)
    ensures api.budget > 0 && !LacksCert(old(api.state), listing, hasCaCert) ==>
              Whole(op, old(api.state), listing, order, cut)
    ensures LacksCert(old(api.state), listing, hasCaCert) ==> cut <= |NamespaceWrites(old(api.state))|
  {
    hide PerformAll, FoundAddresses, ApplyWrites, ApplyPlan, PatchPlan, Model.FindMasterNodes, InitConditions,
         ParseSelector, Matching, NodeList, AddressesOf, ConfigurationPlan, Take, IsOrder, Enumerate, Refuses,
         LacksCert, Applies, ReconciledStatus, PreparedStatus, Perform, KindWrites, NamespaceWrites, Deploys;
    ghost var s0 := api.state;
    LiveErrors(op, s0, listing, hasCaCert);
    var now := api.state.clock / SECOND;
    order, cut := Enumerate(KINDS), 0;
    KindsInOrder();
    EmptyRun(s0);
    TakeEnds(ConfigurationPlan(op, s0, listing, order), 0);
    var config := new Configuration.DeepCopy(stored);
    config.InitializeConditions(now);
    ok := EnsureOwnerNamespace(api);
    if !ok {
      return;
    }
    NamespaceStage(op, s0, listing, order);
    cut := |NamespaceWrites(s0)|;
    ok := FindMasterNodes(api, stored.spec, config, listing, now);
    if !ok {
      return;
    }
    ghost var found, prepared := FoundAddresses(listing, s0.nodes, stored.spec).value, config.StatusValue();
    assert prepared == PreparedStatus(stored, found, now) by { PreparedIs(stored, found, now); }
    ghost var done;
    ok, order, done := ApplyObject(api, op, stored, config, hasCaCert);
    ApplyPlanIs(op, s0, stored, found, order);
    ApplyStage(op, s0, listing, order, found, done);
    cut := |NamespaceWrites(s0)| + done;
    if !ok {
      return;
    }
    var result := Status(config.addresses[..config.addressCount], config.conditions, config.phase);
    assert result == config.StatusValue();
    assert result == ReconciledStatus(stored, found, now) by { ReconciledIs(stored, found, now); }
    FinalStage(op, s0, listing, order, found);
    ok := PatchIfChanged(api, stored, result);
    if ok {
      cut := |ConfigurationPlan(op, s0, listing, order)|;
    }
  }

  /** The closing patch, sent only if the status changed. */
  method PatchIfChanged(api: ApiServer, stored: ConfigObj, result: Status) returns (ok: bool)
    modifies api
    ensures api.state == if ok && result != stored.status
                         then Perform(old(api.state), PatchConfigStatus(stored.status, result)) else old(api.state)
    ensures !ok ==> api.budget == 0
  {
    ok := true;
    if stored.status != result {
      ok := api.Write(PatchConfigStatus(stored.status, result));
    }
  }

  lemma PreparedIs(c: ConfigObj, found: seq<string>, now: int)
    ensures var cs := InitConditions(c.status.conditions, BASELINE, c.generation, now);
            PreparedStatus(c, found, now) ==
              Model.FindMasterNodes(c.status.(conditions := cs), c.generation, found, now)
  {
  }

  lemma ReconciledIs(c: ConfigObj, found: seq<string>, now: int)
    ensures var prepared := PreparedStatus(c, found, now);
            ReconciledStatus(c, found, now) == if Applies(prepared) then prepared.(phase := Deployed) else prepared
  {
  }

  lemma LiveErrors(op: Operator, s: State, listing: seq<string>, hasCaCert: bool)
    requires Reconciles(s)
    ensures var c := s.config.value;
            var found := FoundAddresses(listing, s.nodes, c.spec);
            && (LacksCert(s, listing, hasCaCert) <==>
                !hasCaCert && found.Some? && Applies(PreparedStatus(c, found.value, s.clock / SECOND)))
            && (Refuses(op, s, listing, hasCaCert) <==>
                ParseSelector(c.spec.masterNodesLabel).None? || LacksCert(s, listing, hasCaCert))
  {
    hide PreparedStatus, Applies, FoundAddresses, ParseSelector, Deploys;
    var found := FoundAddresses(listing, s.nodes, s.config.value.spec);
    if found.Some? {
      DeploysIff(s.config.value, found.value, s.clock / SECOND);
    }
  }

  lemma KindsInOrder()
    ensures IsOrder(Enumerate(KINDS))
  {
  }

  /** Creates the owner namespace if it does not exist. */
  method EnsureOwnerNamespace(api: ApiServer) returns (ok: bool)
    modifies api
    ensures api.state == if ok then WithNamespace(old(api.state)) else old(api.state)
    ensures !ok ==> api.budget == 0
  {
    ok := api.Call();
    if ok && api.state.ownerNamespace.None? {
      ok := api.Write(CreateOwnerNamespace);
    }
  }

  lemma NamespaceStage(op: Operator, s: State, listing: seq<string>, order: seq<Kind>)
    requires Reconciles(s)
    ensures PerformAll(s, Take(ConfigurationPlan(op, s, listing, order), |NamespaceWrites(s)|)) == WithNamespace(s)
    ensures FoundAddresses(listing, s.nodes, s.config.value.spec).None? ==>
              |ConfigurationPlan(op, s, listing, order)| == |NamespaceWrites(s)|
  {
    hide FoundAddresses, ApplyPlan, PatchPlan, PerformAll;
    NamespacePrefix(s, |NamespaceWrites(s)|);
    TakeEnds(NamespaceWrites(s), |NamespaceWrites(s)|);
    var plan := ConfigurationPlan(op, s, listing, order);
    assert Take(plan, |NamespaceWrites(s)|) == NamespaceWrites(s);
  }

  lemma ApplyPlanIs(op: Operator, s: State, c: ConfigObj, found: seq<string>, order: seq<Kind>)
    ensures var prepared := PreparedStatus(c, found, s.clock / SECOND);
            ApplyPlan(op, s, c, found, order) ==
            if Applies(prepared)
            then ApplyWrites(op, c.spec, prepared.addresses, order, c.uid, WithNamespace(s).ownerNamespace.value)
            else []
  {
  }

  /** The state after `done` of the applications. */
  lemma ApplyStage(op: Operator, s: State, listing: seq<string>, order: seq<Kind>, found: seq<string>, done: nat)
    requires Reconciles(s) && FoundAddresses(listing, s.nodes, s.config.value.spec) == Some(found)
    requires done <= |ApplyPlan(op, s, s.config.value, found, order)|
    ensures var c := s.config.value;
            PerformAll(s, Take(ConfigurationPlan(op, s, listing, order), |NamespaceWrites(s)| + done)) ==
            PerformAll(WithNamespace(s), Take(ApplyPlan(op, s, c, found, order), done))
  {
    hide FoundAddresses, PreparedStatus, ApplyWrites, PerformAll, ApplyAll, ReconciledStatus, ConfigurationPlan;
    PassStages(op, s, listing, order, done);
    AppliedPrefix(op, s, s.config.value, found, order, done);
  }

  /** From all applications made, the closing patch completes the plan. */
  lemma FinalStage(op: Operator, s: State, listing: seq<string>, order: seq<Kind>, found: seq<string>)
    requires Reconciles(s) && FoundAddresses(listing, s.nodes, s.config.value.spec) == Some(found)
    ensures var c, plan := s.config.value, ConfigurationPlan(op, s, listing, order);
            var before := PerformAll(s, Take(plan, |NamespaceWrites(s)| + |ApplyPlan(op, s, c, found, order)|));
            var reconciled := ReconciledStatus(c, found, s.clock / SECOND);
            && PerformAll(s, Take(plan, |plan|)) ==
               (if reconciled == c.status then before else Perform(before, PatchConfigStatus(c.status, reconciled)))
            && before.config == Some(c)
  {
    hide FoundAddresses, ReconciledStatus, ApplyPlan, PerformAll, ApplyAll, ConfigurationPlan, NamespaceWrites, Take;
    var c, plan := s.config.value, ConfigurationPlan(op, s, listing, order);
    var applies, patch := ApplyPlan(op, s, c, found, order), PatchPlan(s, c, found);
    var first := NamespaceWrites(s) + applies;
    PassStages(op, s, listing, order, |applies|);
    PlanShape(op, s, listing, order, found);
    TakeEnds(plan, |plan|);
    TakeAppend(first, patch, |first|);
    TakeEnds(first, |first|);
    PerformAppend(s, first, patch);
    if patch == [] {
      assert first + patch == first;
    } else {
      PerformOne(PerformAll(s, first), patch[0]);
    }
  }

  lemma PlanShape(op: Operator, s: State, listing: seq<string>, order: seq<Kind>, found: seq<string>)
    requires Reconciles(s) && FoundAddresses(listing, s.nodes, s.config.value.spec) == Some(found)
    ensures var c := s.config.value;
            ConfigurationPlan(op, s, listing, order)
            == NamespaceWrites(s) + ApplyPlan(op, s, c, found, order) + PatchPlan(s, c, found)
  {
  }
}
