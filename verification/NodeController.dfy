/** The node controller's Reconcile over a server whose calls may fail. Every execution is a node
    pass of the machine in `Cluster`. */
module NodeController {
  import opened MergePatch
  import opened Addresses
  import opened Model
  import opened Selector
  import opened Cluster
  import opened Api
  import opened ConfigurationTypes
  import opened ConfigurationController
  import Release

  /** Runs a cleanup script on the leader pod: only if exactly one pod carries the label. `leaders`
      is how many do. */
  method ExecuteOnLeader(api: ApiServer, leaders: nat, script: Write) returns (ok: bool)
    modifies api
    ensures ok ==> leaders == 1 && api.state == Perform(old(api.state), script)
    ensures !ok ==> api.state == old(api.state) && (api.budget == 0 || leaders != 1)
    ensures old(api.budget) >= 2 ==> (ok <==> leaders == 1) && api.budget >= old(api.budget) - 2
  {
    ok := api.Call();
    if !ok || leaders == 0 || leaders > 1 {
      return false;
    }
    ok := api.Write(script);
  }

  /** What one reconcile does when no call fails, without a Configuration or while it is being deleted:
      nothing. Otherwise a live node is held; a terminating one is kicked from both databases and
      unpublished if its address was published, and let go. Each database is touched only through its
      own only leader, and a missing one stops the reconcile there; an unpublished node is let go only
      with exactly one southbound leader, where the chassis is cleaned up. */
  ghost predicate Handled(s: State, s': State, ok: bool, name: string, nbLeaders: nat, sbLeaders: nat) {
    if name !in s.nodes || s.config.None? || s.config.value.deleting then ok && s' == s
    else
      var node, c := s.nodes[name], s.config.value;
      var address := NodeInternalIP(node.addresses);
      if !node.deleting then ok && s' == s.(nodes := s.nodes[name := node.(finalizer := true)])
      else if address == "" then !ok && s' == s
      else if address !in c.status.addresses then
        ok && s' == if sbLeaders == 1 then s.(nodes := LetGo(s.nodes, name)) else s
      else if nbLeaders != 1 then !ok && s' == s
      else if sbLeaders != 1 then !ok && s' == s.(nb := s.nb - {address})
      else
        var less := c.(status := c.status.(addresses := RemoveFirst(c.status.addresses, address)));
        ok && s' == s.(nb := s.nb - {address}, sb := s.sb - {address}, config := Some(less),
                       nodes := LetGo(s.nodes, name))
  }

  /** A node under deletion disappears with its last finalizer. */
  function LetGo(nodes: map<string, Node>, name: string): map<string, Node>
    requires name in nodes
  {
    if !nodes[name].finalizer then nodes
    else if nodes[name].foreignFinalizer then nodes[name := nodes[name].(finalizer := false)]
    else nodes - {name}
  }

  /** One reconcile of a node. The server ends in a state of the machine's node pass, and the node
      is released only by a pass that ran its whole plan. Ten calls are always enough; if none fails,
      the node has been handled. */
  method Reconcile(api: ApiServer, name: string, nbLeaders: nat, sbLeaders: nat) returns (ok: bool, ghost cut: nat)
    modifies api
    ensures api.state == PerformAll(old(api.state), Take(NodePlan(old(api.state), name), cut))
    ensures Release.Releases(old(api.state), api.state, name) ==> cut >= |NodePlan(old(api.state), name)|
    ensures api.budget > 0 ==> Handled(old(api.state), api.state, ok, name, nbLeaders, sbLeaders)
    ensures old(api.budget) > 10 ==> api.budget > 0
    ensures nbLeaders != 1 ==> api.state.nb == old(api.state.nb)
    ensures sbLeaders != 1 ==> api.state.sb == old(api.state.sb)
  {
    hide PerformAll, Take, WithNode, NodeInternalIP, Perform, CentralCleanup;
    ghost var s0 := api.state;
    cut := 0;
    EmptyRun(s0);
    TakeEnds(NodePlan(s0, name), 0);
    ok := api.Call();
    if !ok || name !in api.state.nodes {
      return;
    }
    var node := api.state.nodes[name];
    ok := api.Call();
    if !ok || api.state.config.None? || api.state.config.value.deleting {
      return;
    }
    var stored := api.state.config.value;
    if !node.deleting {
      HoldsNode(s0, name);
      if !node.finalizer {
        PerformOne(s0, AddNodeFinalizer(name));
        TakeEnds(NodePlan(s0, name), 1);
        ok := api.Write(AddNodeFinalizer(name));
        cut := if ok then 1 else 0;
      }
      return;
    }
    ok, cut := ReconcileNodeDeletion(api, stored, name, node, nbLeaders, sbLeaders);
  }

  /** Removes a terminating node from the databases, unpublishes it, and lets it go. */
  method ReconcileNodeDeletion(api: ApiServer, stored: ConfigObj, name: string, node: Node, nbLeaders: nat,
                               sbLeaders: nat)
    returns (ok: bool, ghost cut: nat)
    requires name in api.state.nodes && api.state.nodes[name] == node && node.deleting
    requires api.state.config == Some(stored) && !stored.deleting
    modifies api
    ensures api.state == PerformAll(old(api.state), Take(NodePlan(old(api.state), name), cut))
    ensures api.state.nodes != old(api.state.nodes) ==> cut >= |NodePlan(old(api.state), name)|
    ensures api.budget > 0 ==> Handled(old(api.state), api.state, ok, name, nbLeaders, sbLeaders)
    ensures old(api.budget) > 8 ==> api.budget > 0
    ensures nbLeaders != 1 ==> api.state.nb == old(api.state.nb)
    ensures sbLeaders != 1 ==> api.state.sb == old(api.state.sb)
  {
    hide PerformAll, Take, WithNode, NodeInternalIP, CentralCleanup, NodePlan;
    ghost var s0 := api.state;
    ghost var plan := NodePlan(s0, name);
    cut := 0;
    EmptyRun(s0);
    TakeEnds(plan, 0);
    var nodeIP := InternalIPOf(node.addresses);
    if |nodeIP| == 0 {
      return false, 0;
    }
    ghost var cleanup := CentralCleanup(stored.status, nodeIP);
    if node.finalizer { LetsNodeGo(s0, name); }
    DeletionPlanIs(s0, name, stored, node);
    if nodeIP in stored.status.addresses {
      ok, cut := CleanCentral(api, stored, nodeIP, nbLeaders, sbLeaders);
      PerformPrefix(s0, cleanup, if node.finalizer then [DropNodeFinalizer(name)] else [], cut);
      Release.CleanupEffect(s0, stored, nodeIP, cut);
      if !ok {
        return;
      }
      TakeEnds(cleanup, cut);
    }
    cut := |cleanup|;
    ghost var s1 := api.state;
    assert s1 == PerformAll(s0, cleanup) by { PrefixIsWhole(s0, cleanup); }
    PerformPrefix(s0, cleanup, if node.finalizer then [DropNodeFinalizer(name)] else [], cut);
    TakeEnds(cleanup, cut);
    // a failing chassis cleanup ends the pass without an error
    var chassis := api.Call();
    if chassis && sbLeaders == 1 {
      chassis := api.Call();
    }
    if !chassis || sbLeaders != 1 {
      return true, cut;
    }
    ok := true;
    if node.finalizer {
      ok := api.Write(DropNodeFinalizer(name));
      if ok {
        PerformPrefix(s0, cleanup, [DropNodeFinalizer(name)], cut + 1);
        TakeEnds([DropNodeFinalizer(name)], 1);
        PerformOne(s1, DropNodeFinalizer(name));
        cut := cut + 1;
      }
    }
  }

  lemma HoldsNode(s: State, name: string)
    requires name in s.nodes
    ensures var held := s.(nodes := s.nodes[name := s.nodes[name].(finalizer := true)]);
            Perform(s, AddNodeFinalizer(name)) == held && (s.nodes[name].finalizer ==> s == held)
  {
    assert s.nodes[name].finalizer ==> s.nodes[name := s.nodes[name].(finalizer := true)] == s.nodes;
  }

  lemma LetsNodeGo(s: State, name: string)
    requires name in s.nodes && s.nodes[name].deleting && s.nodes[name].finalizer
    ensures WithNode(s.nodes, name, s.nodes[name].(finalizer := false)) == LetGo(s.nodes, name)
  {
  }

  lemma PrefixIsWhole(s: State, ws: seq<Write>)
    ensures PerformAll(s, Take(ws, |ws|)) == PerformAll(s, ws)
    ensures ws == [] ==> PerformAll(s, ws) == s
  {
    TakeEnds(ws, |ws|);
  }

  lemma DeletionPlanIs(s: State, name: string, stored: ConfigObj, node: Node)
    requires name in s.nodes && s.nodes[name] == node && node.deleting && s.config == Some(stored) && !stored.deleting
    requires NodeInternalIP(node.addresses) != ""
    ensures var cleanup := CentralCleanup(stored.status, NodeInternalIP(node.addresses));
            && NodePlan(s, name) == cleanup + (if node.finalizer then [DropNodeFinalizer(name)] else [])
            && |NodePlan(s, name)| == |cleanup| + (if node.finalizer then 1 else 0)
            && (NodeInternalIP(node.addresses) !in stored.status.addresses ==> cleanup == [])
  {
  }

  /** Kick from the northbound, then the southbound database, then shift the address out of the
      private copy's slice and patch the status with the difference. */
  method CleanCentral(api: ApiServer, stored: ConfigObj, nodeIP: string, nbLeaders: nat, sbLeaders: nat)
    returns (ok: bool, ghost cut: nat)
    requires api.state.config == Some(stored) && nodeIP in stored.status.addresses
    modifies api
    ensures cut <= 3 && (ok ==> cut == 3) && |CentralCleanup(stored.status, nodeIP)| == 3
    ensures api.state == PerformAll(old(api.state), Take(CentralCleanup(stored.status, nodeIP), cut))
    ensures api.state.nodes == old(api.state.nodes)
    ensures !ok ==> api.budget == 0 || nbLeaders != 1 || sbLeaders != 1
    ensures ok ==> nbLeaders == 1 && sbLeaders == 1
    ensures api.budget > 0 && nbLeaders != 1 ==> cut == 0
    ensures api.budget > 0 && nbLeaders == 1 && sbLeaders != 1 ==> cut == 1
    ensures old(api.budget) > 5 ==> api.budget >= old(api.budget) - 5
    ensures nbLeaders != 1 ==> api.state.nb == old(api.state.nb)
    ensures sbLeaders != 1 ==> api.state.sb == old(api.state.sb)
  {
    hide PerformAll, Take, RemoveFirst;
    ghost var s0 := api.state;
    cut := 0;
    Release.CentralPrefix(s0, stored.status, nodeIP, 0);
    Release.CentralPrefix(s0, stored.status, nodeIP, 1);
    Release.CentralPrefix(s0, stored.status, nodeIP, 2);
    Release.CentralPrefix(s0, stored.status, nodeIP, 3);
    ok := ExecuteOnLeader(api, nbLeaders, KickNb(nodeIP));
    if !ok {
      return;
    }
    cut := 1;
    ok := ExecuteOnLeader(api, sbLeaders, KickSb(nodeIP));
    if !ok {
      return;
    }
    cut := 2;
    var base, modified := Unpublish(stored, nodeIP);
    ok := api.Write(PatchConfigStatus(base, modified));
    if ok {
      cut := 3;
    }
  }

  /** Shifts the address out of the private copy's slice; the patch base has its own backing
      array, which the shift cannot reach. */
  method Unpublish(stored: ConfigObj, nodeIP: string) returns (base: Status, modified: Status)
    ensures base == stored.status
    ensures modified == stored.status.(addresses := RemoveFirst(stored.status.addresses, nodeIP))
  {
    hide RemoveFirst;
    var config := new Configuration.DeepCopy(stored);
    var configObj := new Configuration.DeepCopy(stored);
    config.addressCount := RemoveElement(config.addresses, config.addressCount, nodeIP);
    base := Status(configObj.addresses[..configObj.addressCount], configObj.conditions, configObj.phase);
    modified := Status(config.addresses[..config.addressCount], config.conditions, config.phase);
  }
}
