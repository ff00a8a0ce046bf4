/** Who owns what the operator applied, what is left after deletion, and what the Deployed
    phase and the removal of the finalizer vouch for. */
module Ownership {
  import opened MergePatch
  import opened Addresses
  import opened Model
  import opened Selector
  import opened Cluster
  import opened ApplyOrder
  import Release
  import Convergence

  // ----- steps, seen from the object store -----

  /** A node pass changes neither the objects nor the namespace, and of the Configuration at
      most the addresses. */
  lemma NodeEffect(s: State, name: string, cut: nat)
    ensures var s' := PerformAll(s, Take(NodePlan(s, name), cut));
            && s' == s.(nb := s'.nb, sb := s'.sb, nodes := s'.nodes, config := s'.config)
            && (s'.config == s.config
                || (s.config.Some? && exists addresses ::
                      s'.config == Some(s.config.value.(status := s.config.value.status.(addresses := addresses)))))
  {
    hide NodeInternalIP, RemoveFirst, WithNode;
    var s' := PerformAll(s, Take(NodePlan(s, name), cut));
    if name in s.nodes && s.config.Some? && !s.config.value.deleting {
      if !s.nodes[name].deleting {
        LiveNodePass(s, name, cut);
      } else if NodeInternalIP(s.nodes[name].addresses) != "" {
        hide NodePlan, Take, PerformAll;
        Release.NodeDeletionPass(s, name, cut);
        var less := RemoveFirst(s.config.value.status.addresses, NodeInternalIP(s.nodes[name].addresses));
        assert s'.config == s.config ||
                 s'.config == Some(s.config.value.(status := s.config.value.status.(addresses := less)));
      }
    }
  }

  // ----- ownership and garbage collection -----

  /** Whether the API server lets such an object have such an owner: the Configuration is namespaced
      and cannot own what is not. */
  predicate OwnerFits(op: Operator, kind: Kind, owner: Owner) {
    if op.namespaced(kind) then owner.ConfigurationOwner? else owner.NamespaceOwner?
  }

  /** Every object is owned by a Configuration or by an owner namespace, as its type demands, and
      the owner namespace exists only under a Configuration that holds its finalizer. */
  ghost predicate Owned(op: Operator, s: State) {
    && (s.config.Some? ==> s.config.value.uid < s.nextUid)
    && (s.ownerNamespace.Some? ==> s.ownerNamespace.value < s.nextUid && s.config.Some? && s.config.value.finalizer)
    && forall k <- s.objects :: OwnerFits(op, k.kind, s.objects[k].owner) && s.objects[k].owner.uid < s.nextUid
  }

  lemma AppliedOwners(op: Operator, s: State, c: ConfigObj, found: seq<string>, order: seq<Kind>, done: nat, k: Key)
    ensures var before, after := s.objects, Applied(op, s, c, found, order, done).objects;
            && (k in before ==> k in after)
            && (k in after ==> || (k in before && after[k] == before[k])
                               || after[k].owner == OwnerOf(op, k.kind, c.uid, NamespaceUid(s)))
  {
    hide PreparedStatus, ApplyAll, ApplyWrites, Expected;
    var prepared := PreparedStatus(c, found, s.clock / SECOND);
    var all := ApplyWrites(op, c.spec, prepared.addresses, order, c.uid, NamespaceUid(s));
    WritesArePartial(op, c.spec, prepared.addresses, order, c.uid, NamespaceUid(s));
    PartialApply(op, c.spec, prepared.addresses, c.uid, NamespaceUid(s), s.objects,
                 Take(ApplyPlan(op, s, c, found, order), done), k);
  }

  lemma ReconcilingPassOwns(op: Operator, s: State, listing: seq<string>, order: seq<Kind>, cut: nat)
    requires Owned(op, s) && Reconciles(s)
    ensures Owned(op, PerformAll(s, Take(ConfigurationPlan(op, s, listing, order), cut)))
  {
    hide ConfigurationPlan, Take, PerformAll, ApplyPlan, ApplyAll, ReconciledStatus, FoundAddresses;
    var c, s' := s.config.value, PerformAll(s, Take(ConfigurationPlan(op, s, listing, order), cut));
    var done := ReconcilingPass(op, s, listing, order, cut);
    var found := FoundAddresses(listing, s.nodes, c.spec);
    if found.Some? && s' != s {
      forall k | k in s'.objects
        ensures OwnerFits(op, k.kind, s'.objects[k].owner) && s'.objects[k].owner.uid < s'.nextUid
      {
        AppliedOwners(op, s, c, found.value, order, done, k);
      }
    }
  }

  lemma NextOwns(op: Operator, s: State, a: Action)
    requires Owned(op, s)
    ensures Owned(op, Next(op, s, a))
  {
    hide ConfigurationPlan, NodePlan, HealthPlan, HealthConditions, CheckNeeded, Take, PerformAll, SweepCount, ApplyAll,
         ReconciledStatus;
    match a
    case ConfigurationPass(listing, order, cut) =>
      if s.config.None? {
        NoConfiguration(op, s, listing, order, cut);
      } else if s.config.value.deleting {
        DeletionEffect(op, s, listing, order, cut);
      } else if !s.config.value.finalizer {
        FinalizerPass(op, s, listing, order, cut);
      } else {
        ReconcilingPassOwns(op, s, listing, order, cut);
      }
    case NodePass(name, cut) => NodeEffect(s, name, cut);
    case HealthPass(answers, cut) => HealthEffect(op, s, answers, cut);
    case _ =>
  }

  lemma NoConfiguration(op: Operator, s: State, listing: seq<string>, order: seq<Kind>, cut: nat)
    requires s.config.None?
    ensures PerformAll(s, Take(ConfigurationPlan(op, s, listing, order), cut)) == s
  {
  }

  lemma {:induction false} RunOwns(op: Operator, s: State, actions: seq<Action>)
    requires Owned(op, s)
    ensures Owned(op, Run(op, s, actions))
    decreases |actions|
  {
    if actions != [] {
      NextOwns(op, s, actions[0]);
      RunOwns(op, Next(op, s, actions[0]), actions[1..]);
    }
  }

  /** The garbage collector has nothing left to do. */
  ghost predicate CollectorDone(s: State) {
    forall k <- s.objects :: Live(s, s.objects[k].owner)
  }

  /** After any run: once the Configuration is gone, its owner namespace is gone too, every
      object ever applied has a dead owner, and the collector's fixpoint is empty. */
  lemma NothingLeftBehind(op: Operator, start: State, actions: seq<Action>)
    requires Fresh(start)
    ensures var s := Run(op, start, actions);
            s.config.None? ==>
              && s.ownerNamespace.None?
              && (forall k <- s.objects :: !Live(s, s.objects[k].owner))
              && (CollectorDone(s) ==> s.objects == map[])
  {
    RunOwns(op, start, actions);
  }

  /** A new Configuration never adopts an old object by accident of its identity. */
  lemma OldObjectsStayDead(op: Operator, start: State, actions: seq<Action>, spec: Spec)
    requires Fresh(start)
    ensures var s := Run(op, start, actions);
            var s' := Next(op, s, CreateConfiguration(spec));
            s.config.None? ==> forall k <- s'.objects :: !Live(s', s'.objects[k].owner)
  {
    RunOwns(op, start, actions);
  }

  /** Nothing comes back: without a new Configuration, no later pass applies an object or
      recreates the namespace. */
  lemma {:induction false} NothingComesBack(op: Operator, s: State, actions: seq<Action>)
    requires s.config.None? && s.ownerNamespace.None?
    requires forall a <- actions :: !a.CreateConfiguration?
    ensures var s' := Run(op, s, actions);
            s'.config.None? && s'.ownerNamespace.None? && s'.objects.Keys <= s.objects.Keys
    decreases |actions|
  {
    if actions != [] {
      var a := actions[0];
      assert a in actions;
      NextWithoutConfiguration(op, s, a);
      NothingComesBack(op, Next(op, s, a), actions[1..]);
    }
  }

  lemma NextWithoutConfiguration(op: Operator, s: State, a: Action)
    requires s.config.None? && s.ownerNamespace.None? && !a.CreateConfiguration?
    ensures var s' := Next(op, s, a);
            s'.config.None? && s'.ownerNamespace.None? && s'.objects.Keys <= s.objects.Keys
  {
    hide NodePlan, HealthPlan, CheckNeeded, HealthConditions;
    match a
    case ConfigurationPass(listing, order, cut) => NoConfiguration(op, s, listing, order, cut);
    case NodePass(name, cut) => NodeEffect(s, name, cut);
    case HealthPass(answers, cut) => HealthEffect(op, s, answers, cut);
    case _ =>
  }

  // ----- deletion ordering -----

  /** The counter is zero exactly when every listing of the sweep was empty or not served. */
  lemma {:induction false} SweepCountZero(instances: map<string, seq<Instance>>, targets: seq<Target>)
    ensures SweepCount(instances, targets) == 0 <==>
              forall t <- targets :: t.crd in instances ==> instances[t.crd] == []
  {
    if targets != [] {
      SweepCountZero(instances, targets[1..]);
      assert targets[0] in targets;
      assert forall t :: t in targets <==> t == targets[0] || t in targets[1..];
    }
  }

  lemma {:induction false} TargetsCover(crds: seq<Crd>, crd: Crd)
    requires crd in crds && crd.versions != []
    ensures TargetOf(crd) in Targets(crds)
  {
    if crds[0] == crd {
      assert Targets(crds)[0] == TargetOf(crd);
    } else {
      TargetsCover(crds[1..], crd);
    }
  }

  /** A sweep that counted nothing saw no instance of any definition. */
  lemma CleanSweep(instances: map<string, seq<Instance>>, crds: seq<Crd>)
    ensures SweepCount(instances, Targets(crds)) == 0 ==>
              forall crd <- crds :: crd.versions != [] && crd.name in instances ==> instances[crd.name] == []
  {
    SweepCountZero(instances, Targets(crds));
    forall crd | crd in crds && crd.versions != [] ensures TargetOf(crd) in Targets(crds) {
      TargetsCover(crds, crd);
    }
  }

  /** Outside interference aside, the owner namespace goes and the finalizer is dropped only in a
      pass over a Configuration under deletion whose sweep saw no instance of any version of any
      rendered definition, and the finalizer only after the namespace. */
  lemma DeletionOrdering(op: Operator, s: State, a: Action)
    ensures var s' := Next(op, s, a);
            var dropped := s.config.Some? && s.config.value.finalizer &&
                             (s'.config.None? || !s'.config.value.finalizer);
            && (dropped || (s.ownerNamespace.Some? && s'.ownerNamespace.None? && !a.RemoveOwnerNamespace?) ==>
                  && a.ConfigurationPass? && s.config.Some? && s.config.value.deleting
                  && forall crd <- op.crds(s.config.value.spec) ::
                       crd.versions != [] && crd.name in s.instances ==> s.instances[crd.name] == [])
            && (dropped ==> s'.ownerNamespace.None?)
  {
    hide ConfigurationPlan, NodePlan, HealthPlan, HealthConditions, CheckNeeded, Take, PerformAll, ApplyAll,
         ReconciledStatus, SweepCount, Targets, FoundAddresses, ApplyPlan;
    match a
    case ConfigurationPass(listing, order, cut) =>
      if s.config.None? {
        NoConfiguration(op, s, listing, order, cut);
      } else if s.config.value.deleting {
        DeletionEffect(op, s, listing, order, cut);
        CleanSweep(s.instances, op.crds(s.config.value.spec));
      } else if !s.config.value.finalizer {
        FinalizerPass(op, s, listing, order, cut);
      } else {
        var done := ReconcilingPass(op, s, listing, order, cut);
      }
    case NodePass(name, cut) => NodeEffect(s, name, cut);
    case HealthPass(answers, cut) => HealthEffect(op, s, answers, cut);
    case _ =>
  }

  // ----- what Deployed vouches for -----

  lemma {:induction false} ExpectedOwner(objs: seq<Rendered>, kind: Kind, owner: Owner, k: Key)
    ensures k in KindMap(objs, kind, owner) ==> KindMap(objs, kind, owner)[k].owner == owner
    decreases |objs|
  {
    if objs != [] {
      ExpectedOwner(objs[..|objs| - 1], kind, owner, k);
    }
  }

  /** If a configuration pass sets the phase, it has written the expected value of every key of
      the rendering for the non-empty addresses it stores; otherwise the phase is untouched. */
  lemma PhaseMeansApplied(op: Operator, s: State, a: Action)
    requires s.config.Some? && Next(op, s, a).config.Some?
    requires Next(op, s, a).config.value.status.phase != s.config.value.status.phase
    ensures var s' := Next(op, s, a);
            && a.ConfigurationPass? && Reconciles(s) && a.cut >= |ConfigurationPlan(op, s, a.listing, a.order)|
            && s'.config.value.status.phase == Deployed && s'.config.value.status.addresses != []
            && s'.ownerNamespace == Some(NamespaceUid(s))
            && forall k: Key ::
                 var e := Expected(op, s.config.value.spec, s'.config.value.status.addresses, s.config.value.uid,
                                   NamespaceUid(s), k);
                 if e.Some? then k in s'.objects && s'.objects[k] == e.value
                 else (k in s'.objects <==> k in s.objects) && (k in s.objects ==> s'.objects[k] == s.objects[k])
  {
    hide ConfigurationPlan, NodePlan, HealthPlan, HealthConditions, CheckNeeded, Take, PerformAll, SweepCount, Expected,
         NamespaceUid;
    match a
    case ConfigurationPass(listing, order, cut) =>
      if s.config.value.deleting {
        DeletionEffect(op, s, listing, order, cut);
      } else if !s.config.value.finalizer {
        FinalizerPass(op, s, listing, order, cut);
      } else {
        ReconcilingPassApplies(op, s, listing, order, cut);
      }
    case NodePass(name, cut) => NodeEffect(s, name, cut);
    case HealthPass(answers, cut) => HealthEffect(op, s, answers, cut);
    case _ =>
  }

  lemma ReconcilingPassApplies(op: Operator, s: State, listing: seq<string>, order: seq<Kind>, cut: nat)
    requires Reconciles(s) && IsOrder(order)
    ensures var c, s' := s.config.value, PerformAll(s, Take(ConfigurationPlan(op, s, listing, order), cut));
            s'.config.Some? && s'.config.value.status.phase != c.status.phase ==>
              && cut >= |ConfigurationPlan(op, s, listing, order)|
              && s'.config.value.status.phase == Deployed && s'.config.value.status.addresses != []
              && s'.ownerNamespace == Some(NamespaceUid(s))
              && forall k: Key ::
                   var e := Expected(op, c.spec, s'.config.value.status.addresses, c.uid, NamespaceUid(s), k);
                   if e.Some? then k in s'.objects && s'.objects[k] == e.value
                   else (k in s'.objects <==> k in s.objects) && (k in s.objects ==> s'.objects[k] == s.objects[k])
  {
    hide ConfigurationPlan, Take, PerformAll, ApplyAll, ApplyPlan, PreparedStatus, Expected, FoundAddresses;
    var c, s' := s.config.value, PerformAll(s, Take(ConfigurationPlan(op, s, listing, order), cut));
    var done := ReconcilingPass(op, s, listing, order, cut);
    var found := FoundAddresses(listing, s.nodes, c.spec);
    if found.Some? && s'.config != s.config {
      CompleteApplication(op, s, c, found.value, order);
    }
  }

  /** All applications of a pass, made from any store. */
  lemma CompleteApplication(op: Operator, s: State, c: ConfigObj, found: seq<string>, order: seq<Kind>)
    requires IsOrder(order)
    ensures var prepared := PreparedStatus(c, found, s.clock / SECOND);
            var after := Applied(op, s, c, found, order, |ApplyPlan(op, s, c, found, order)|).objects;
            && prepared.phase == c.status.phase
            && (Applies(prepared) ==> forall k: Key ::
                 var e := Expected(op, c.spec, prepared.addresses, c.uid, NamespaceUid(s), k);
                 if e.Some? then k in after && after[k] == e.value
                 else (k in after <==> k in s.objects) && (k in after ==> after[k] == s.objects[k]))
  {
    hide PreparedStatus, ApplyAll, ApplyWrites, Expected;
    Convergence.Prepared(c, found, s.clock / SECOND);
    var prepared := PreparedStatus(c, found, s.clock / SECOND);
    var plan := ApplyPlan(op, s, c, found, order);
    TakeEnds(plan, |plan|);
    OrderIsDistinct(order);
    if Applies(prepared) {
      forall k: Key
        ensures var after := ApplyAll(s.objects, plan);
                var e := Expected(op, c.spec, prepared.addresses, c.uid, NamespaceUid(s), k);
                if e.Some? then k in after && after[k] == e.value
                else (k in after <==> k in s.objects) && (k in after ==> after[k] == s.objects[k])
      {
        ApplyMeaning(op, c.spec, prepared.addresses, c.uid, NamespaceUid(s), s.objects, order, k);
      }
    }
  }

  /** A pass that is aborted before its patch leaves the persisted status untouched. */
  lemma AbortLeavesStatus(op: Operator, s: State, listing: seq<string>, order: seq<Kind>, cut: nat)
    requires s.config.Some? && !s.config.value.deleting && cut < |ConfigurationPlan(op, s, listing, order)|
    ensures var s' := Next(op, s, ConfigurationPass(listing, order, cut));
            s'.config.Some? && s'.config.value.status == s.config.value.status
  {
    hide Take, PerformAll, ApplyAll, ApplyPlan, ReconciledStatus;
    if s.config.value.finalizer {
      hide ConfigurationPlan;
      var done := ReconcilingPass(op, s, listing, order, cut);
    } else {
      FinalizerPass(op, s, listing, order, cut);
    }
  }

  lemma ExpectedIsLive(op: Operator, s: State, spec: Spec, addresses: seq<string>, configUid: nat, namespaceUid: nat,
                       k: Key)
    requires s.config.Some? && s.config.value.uid == configUid && s.ownerNamespace == Some(namespaceUid)
    requires Expected(op, spec, addresses, configUid, namespaceUid, k).Some?
    ensures Live(s, Expected(op, spec, addresses, configUid, namespaceUid, k).value.owner)
  {
    ExpectedOwner(op.render(spec, addresses, k.kind), k.kind, OwnerOf(op, k.kind, configUid, namespaceUid), k);
  }

  /** The step from `s` to `s'` is a pass over one Configuration that stored a non-empty address
      list and wrote, for the spec of that moment, the expected value of every rendered key. */
  ghost predicate AppliesEverything(op: Operator, s: State, a: Action, s': State) {
    && a.ConfigurationPass? && Reconciles(s) && s'.config.Some?
    && s'.config.value.uid == s.config.value.uid && s'.config.value.spec == s.config.value.spec
    && s'.config.value.status.phase == Deployed && s'.config.value.status.addresses != []
    && s'.ownerNamespace == Some(NamespaceUid(s))
    && forall k: Key ::
         var e := Expected(op, s.config.value.spec, s'.config.value.status.addresses, s.config.value.uid,
                           NamespaceUid(s), k);
         e.Some? ==> k in s'.objects && s'.objects[k] == e.value
  }

  /** Action `i` of the run was such a pass, over the Configuration with this identity. */
  ghost predicate AppliedAt(op: Operator, start: State, actions: seq<Action>, i: nat, uid: nat)
    requires i < |actions|
  {
    var s := Run(op, start, actions[..i]);
    AppliesEverything(op, s, actions[i], Next(op, s, actions[i])) && s.config.value.uid == uid
  }

  lemma {:induction false} RunAppend(op: Operator, s: State, actions: seq<Action>, a: Action)
    ensures Run(op, s, actions + [a]) == Next(op, Run(op, s, actions), a)
    decreases |actions|
  {
    hide Next;
    if actions != [] {
      assert (actions + [a])[1..] == actions[1..] + [a];
      RunAppend(op, Next(op, s, actions[0]), actions[1..], a);
    } else {
      assert [a][1..] == [] && Run(op, Next(op, s, a), []) == Next(op, s, a);
    }
  }

  /** A step keeps the identity of a Configuration that survives it, and a new one starts without
      a phase. */
  lemma IdentityStays(op: Operator, s: State, a: Action)
    requires Next(op, s, a).config.Some?
    ensures s.config.None? ==> Next(op, s, a).config.value.status.phase == NoPhase
    ensures s.config.Some? ==> Next(op, s, a).config.value.uid == s.config.value.uid
    ensures s.config.Some? && a.ConfigurationPass? ==> Next(op, s, a).config.value.spec == s.config.value.spec
  {
    hide ConfigurationPlan, NodePlan, HealthPlan, HealthConditions, CheckNeeded, Take, PerformAll;
    match a
    case ConfigurationPass(listing, order, cut) => PassKeepsIdentity(op, s, listing, order, cut);
    case NodePass(name, cut) => NodeEffect(s, name, cut);
    case HealthPass(answers, cut) => HealthEffect(op, s, answers, cut);
    case _ =>
  }

  lemma PassKeepsIdentity(op: Operator, s: State, listing: seq<string>, order: seq<Kind>, cut: nat)
    ensures var s' := Next(op, s, ConfigurationPass(listing, order, cut));
            s'.config.Some? ==>
              s.config.Some? && s'.config.value.uid == s.config.value.uid && s'.config.value.spec == s.config.value.spec
  {
    hide ConfigurationPlan, Take, PerformAll, SweepCount, ApplyAll, ReconciledStatus, ApplyPlan, IsListing, IsOrder;
    if s.config.None? {
      NoConfiguration(op, s, listing, order, cut);
    } else if s.config.value.deleting {
      DeletionEffect(op, s, listing, order, cut);
    } else if !s.config.value.finalizer {
      FinalizerPass(op, s, listing, order, cut);
    } else {
      var done := ReconcilingPass(op, s, listing, order, cut);
    }
  }

  /** In every run, a Configuration that reads Deployed had an earlier pass of its own, under the
      same identity, that stored a non-empty address list and applied every object rendered from
      it, whatever happened to objects, namespace or status since. */
  lemma {:induction false} DeployedMeansApplied(op: Operator, start: State, actions: seq<Action>)
    requires Fresh(start)
    ensures var s := Run(op, start, actions);
            s.config.Some? && s.config.value.status.phase == Deployed ==>
              exists i: nat :: i < |actions| && AppliedAt(op, start, actions, i, s.config.value.uid)
    decreases |actions|
  {
    hide Next, Run, AppliesEverything;
    if actions == [] {
      assert Run(op, start, []) == start by { EmptyRunIsStart(op, start); }
    } else {
      var n := |actions| - 1;
      var earlier, a := actions[..n], actions[n];
      var before := Run(op, start, earlier);
      DeployedMeansApplied(op, start, earlier);
      assert actions == earlier + [a];
      RunAppend(op, start, earlier, a);
      var s := Next(op, before, a);
      if s.config.Some? && s.config.value.status.phase == Deployed {
        IdentityStays(op, before, a);
        if before.config.value.status.phase == Deployed {
          var i: nat :| i < n && AppliedAt(op, start, earlier, i, before.config.value.uid);
          assert actions[..i] == earlier[..i];
          assert AppliedAt(op, start, actions, i, s.config.value.uid);
        } else {
          PhaseStep(op, before, a);
          assert AppliedAt(op, start, actions, n, s.config.value.uid);
        }
      }
    }
  }

  lemma EmptyRunIsStart(op: Operator, s: State)
    ensures Run(op, s, []) == s
  {
  }

  lemma PhaseStep(op: Operator, s: State, a: Action)
    requires s.config.Some? && Next(op, s, a).config.Some?
    requires Next(op, s, a).config.value.status.phase != s.config.value.status.phase
    ensures AppliesEverything(op, s, a, Next(op, s, a))
  {
    hide Next, Expected, NamespaceUid;
    PhaseMeansApplied(op, s, a);
    IdentityStays(op, s, a);
  }

  /** The Configuration stays and is not deleted, and no outsider removes this object or the
      owner namespace. */
  ghost predicate Undisturbed(op: Operator, s: State, actions: seq<Action>, k: Key)
    decreases |actions|
  {
    && s.config.Some? && !s.config.value.deleting
    && (actions != [] ==>
          && actions[0] != RemoveObject(k) && actions[0] != RemoveOwnerNamespace
          && Undisturbed(op, Next(op, s, actions[0]), actions[1..], k))
  }

  lemma NextKeepsLive(op: Operator, s: State, a: Action, k: Key)
    requires k in s.objects && Live(s, s.objects[k].owner)
    requires s.config.Some? && !s.config.value.deleting && Next(op, s, a).config.Some?
    requires a != RemoveObject(k) && a != RemoveOwnerNamespace
    ensures var s' := Next(op, s, a);
            k in s'.objects && Live(s', s'.objects[k].owner)
  {
    hide ConfigurationPlan, NodePlan, HealthPlan, HealthConditions, CheckNeeded, Take, PerformAll, ApplyAll,
         ReconciledStatus;
    match a
    case ConfigurationPass(listing, order, cut) => PassKeepsLive(op, s, listing, order, cut, k);
    case NodePass(name, cut) => NodeEffect(s, name, cut);
    case HealthPass(answers, cut) => HealthEffect(op, s, answers, cut);
    case _ =>
  }

  lemma PassKeepsLive(op: Operator, s: State, listing: seq<string>, order: seq<Kind>, cut: nat, k: Key)
    requires k in s.objects && Live(s, s.objects[k].owner)
    requires s.config.Some? && !s.config.value.deleting
    ensures var s' := Next(op, s, ConfigurationPass(listing, order, cut));
            s'.config.Some? ==> k in s'.objects && Live(s', s'.objects[k].owner)
  {
    hide ConfigurationPlan, Take, PerformAll, ApplyAll, ReconciledStatus, IsListing, IsOrder, FoundAddresses, ApplyPlan;
    if s.config.value.finalizer {
      var done := ReconcilingPass(op, s, listing, order, cut);
      var found := FoundAddresses(listing, s.nodes, s.config.value.spec);
      if found.Some? {
        AppliedOwners(op, s, s.config.value, found.value, order, done, k);
      }
    } else {
      FinalizerPass(op, s, listing, order, cut);
    }
  }

  lemma {:induction false} LiveObjectStays(op: Operator, s: State, actions: seq<Action>, k: Key)
    requires k in s.objects && Live(s, s.objects[k].owner) && Undisturbed(op, s, actions, k)
    ensures var end := Run(op, s, actions);
            k in end.objects && Live(end, end.objects[k].owner)
    decreases |actions|
  {
    hide Next;
    if actions != [] {
      assert Next(op, s, actions[0]).config.Some? by {
        assert Undisturbed(op, Next(op, s, actions[0]), actions[1..], k);
      }
      NextKeepsLive(op, s, actions[0], k);
      LiveObjectStays(op, Next(op, s, actions[0]), actions[1..], k);
    }
  }

  /** What such a pass applied is still there, with an owner the collector will not touch, after
      any further run in which no outsider removes it and the Configuration is not deleted. */
  lemma AppliedStaysPresent(op: Operator, s: State, a: Action, actions: seq<Action>, k: Key)
    requires AppliesEverything(op, s, a, Next(op, s, a)) && Undisturbed(op, Next(op, s, a), actions, k)
    requires Expected(op, s.config.value.spec, Next(op, s, a).config.value.status.addresses, s.config.value.uid,
                      NamespaceUid(s), k).Some?
    ensures var end := Run(op, Next(op, s, a), actions);
            k in end.objects && Live(end, end.objects[k].owner)
  {
    hide Next, Run, NamespaceUid;
    var s' := Next(op, s, a);
    ExpectedIsLive(op, s', s.config.value.spec, s'.config.value.status.addresses, s.config.value.uid, NamespaceUid(s),
                   k);
    LiveObjectStays(op, s', actions, k);
  }
}
