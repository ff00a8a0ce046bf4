/** The whole operator at pass granularity. A pass reads the cluster and plans a sequence of
    writes; an API or exec call that fails ends the pass, so a pass performs some prefix of its
    plan. Between passes anything may happen: users, the kubelet, the databases and the garbage
    collector are actions of the same machine. */
module Cluster {
  import opened MergePatch
  import opened Addresses
  import opened Model
  import opened Selector

  /** The object types the operator renders. */
  datatype Kind =
    | CustomResourceDefinition | Secret | ServiceAccount | RoleBinding | ClusterRole | Role
    | ClusterRoleBinding | ConfigMap | Deployment | DaemonSet | Service | ValidatingWebhook

  const KINDS := {CustomResourceDefinition, Secret, ServiceAccount, RoleBinding, ClusterRole, Role,
                  ClusterRoleBinding, ConfigMap, Deployment, DaemonSet, Service, ValidatingWebhook}

  datatype Key = Key(kind: Kind, namespace: string, name: string)

  datatype Rendered = Rendered(namespace: string, name: string, content: string)

  datatype Owner = ConfigurationOwner(uid: nat) | NamespaceOwner(uid: nat)

  datatype Managed = Managed(content: string, owner: Owner)

  datatype Crd = Crd(name: string, namespaced: bool, versions: seq<string>)

  datatype Instance = Instance(name: string, deleting: bool)

  /** What is fixed for a run: the templates as deterministic functions, the API server's answer to
      which object types are namespaced, and the health-check interval in seconds. */
  datatype Operator = Operator(
    render: (Spec, seq<string>, Kind) -> seq<Rendered>,
    crds: Spec -> seq<Crd>,
    namespaced: Kind -> bool,
    interval: int)

  /** `nb` and `sb` are the members of the northbound and southbound databases, `instances` the
      custom resources per definition (absent: not served), `clock` is in nanoseconds. */
  datatype State = State(
    clock: int,
    config: Option<ConfigObj>,
    nextUid: nat,
    ownerNamespace: Option<nat>,
    nodes: map<string, Node>,
    nb: set<string>,
    sb: set<string>,
    objects: map<Key, Managed>,
    instances: map<string, seq<Instance>>)

  // ----- writes -----

  datatype Write =
    | AddConfigFinalizer
    | DropConfigFinalizer
    | CreateOwnerNamespace
    | DeleteOwnerNamespace
    | Apply(key: Key, managed: Managed)
    | PatchConfigStatus(base: Status, modified: Status)
    | DeleteInstance(crd: string, name: string)
    | AddNodeFinalizer(node: string)
    | DropNodeFinalizer(node: string)
    | KickNb(address: string)
    | KickSb(address: string)

  /** An object whose deletion was requested goes away with its last finalizer. */
  function Reap(c: ConfigObj): Option<ConfigObj> {
    if c.deleting && !c.finalizer && !c.foreignFinalizer then None else Some(c)
  }

  function WithNode(nodes: map<string, Node>, name: string, n: Node): map<string, Node> {
    if n.deleting && !n.finalizer && !n.foreignFinalizer then nodes - {name} else nodes[name := n]
  }

  function MarkDeleted(list: seq<Instance>, name: string): seq<Instance> {
    seq(|list|, i requires 0 <= i < |list| => if list[i].name == name then list[i].(deleting := true) else list[i])
  }

  function Perform(s: State, w: Write): State {
    match w
    case AddConfigFinalizer => if s.config.None? then s else s.(config := Some(s.config.value.(finalizer := true)))
    case DropConfigFinalizer => if s.config.None? then s else s.(config := Reap(s.config.value.(finalizer := false)))
    case CreateOwnerNamespace =>
      if s.ownerNamespace.Some? then s else s.(ownerNamespace := Some(s.nextUid), nextUid := s.nextUid + 1)
    case DeleteOwnerNamespace => s.(ownerNamespace := None)
    case Apply(key, managed) => s.(objects := s.objects[key := managed])
    case PatchConfigStatus(base, modified) =>
      if s.config.None? then s
      else s.(config := Some(s.config.value.(status := PatchStatus(s.config.value.status, base, modified))))
    case DeleteInstance(crd, name) =>
      if crd !in s.instances then s
      else s.(instances := s.instances[crd := MarkDeleted(s.instances[crd], name)])
    case AddNodeFinalizer(node) =>
      if node !in s.nodes then s else s.(nodes := s.nodes[node := s.nodes[node].(finalizer := true)])
    case DropNodeFinalizer(node) =>
      if node !in s.nodes then s else s.(nodes := WithNode(s.nodes, node, s.nodes[node].(finalizer := false)))
    case KickNb(address) => s.(nb := s.nb - {address})
    case KickSb(address) => s.(sb := s.sb - {address})
  }

  function PerformAll(s: State, ws: seq<Write>): State
    decreases |ws|
  {
    if ws == [] then s else PerformAll(Perform(s, ws[0]), ws[1..])
  }

  // ----- configuration controller -----

  function NodeList(listing: seq<string>, nodes: map<string, Node>): seq<Node> {
    if listing == [] then []
    else (if listing[0] in nodes then [nodes[listing[0]]] else []) + NodeList(listing[1..], nodes)
  }

  /** The addresses of the selected nodes in listing order; none if the label does not parse. */
  function FoundAddresses(listing: seq<string>, nodes: map<string, Node>, spec: Spec): Option<seq<string>> {
    var selector := ParseSelector(spec.masterNodesLabel);
    if selector.None? then None else Some(AddressesOf(Matching(NodeList(listing, nodes), selector.value)))
  }

  function OwnerOf(op: Operator, kind: Kind, configUid: nat, namespaceUid: nat): Owner {
    if op.namespaced(kind) then ConfigurationOwner(configUid) else NamespaceOwner(namespaceUid)
  }

  function KindWrites(objs: seq<Rendered>, kind: Kind, owner: Owner): (ws: seq<Write>)
    ensures |ws| == |objs|
  {
    seq(|objs|, i requires 0 <= i < |objs| =>
      Apply(Key(kind, objs[i].namespace, objs[i].name), Managed(objs[i].content, owner)))
  }

  /** Every rendered object of every type, in the order in which the map of types is iterated. */
  function ApplyWrites(op: Operator, spec: Spec, addresses: seq<string>, order: seq<Kind>, configUid: nat,
                       namespaceUid: nat): seq<Write> {
    if order == [] then []
    else
      KindWrites(op.render(spec, addresses, order[0]), order[0], OwnerOf(op, order[0], configUid, namespaceUid))
      + ApplyWrites(op, spec, addresses, order[1..], configUid, namespaceUid)
  }

  function NamespaceUid(s: State): nat {
    if s.ownerNamespace.Some? then s.ownerNamespace.value else s.nextUid
  }

  function NamespaceWrites(s: State): seq<Write> {
    if s.ownerNamespace.None? then [CreateOwnerNamespace] else []
  }

  /** The applications of a pass over `found`, and its closing status patch. */
  function ApplyPlan(op: Operator, s: State, c: ConfigObj, found: seq<string>, order: seq<Kind>): seq<Write> {
    var prepared := PreparedStatus(c, found, s.clock / SECOND);
    if Applies(prepared) then ApplyWrites(op, c.spec, prepared.addresses, order, c.uid, NamespaceUid(s)) else []
  }

  function PatchPlan(s: State, c: ConfigObj, found: seq<string>): seq<Write> {
    var reconciled := ReconciledStatus(c, found, s.clock / SECOND);
    if reconciled == c.status then [] else [PatchConfigStatus(c.status, reconciled)]
  }

  datatype Target = Target(crd: string, namespaced: bool)

  function TargetOf(crd: Crd): Target {
    Target(crd.name, crd.namespaced)
  }

  /** One target per version of every definition: what the nested sweep lists, in order. */
  function Targets(crds: seq<Crd>): seq<Target> {
    if crds == [] then []
    else seq(|crds[0].versions|, i => TargetOf(crds[0])) + Targets(crds[1..])
  }

  function DeletesOf(crd: string, list: seq<Instance>): seq<Write> {
    if list == [] then []
    else (if list[0].deleting then [] else [DeleteInstance(crd, list[0].name)]) + DeletesOf(crd, list[1..])
  }

  function Listed(s: State, crd: string): seq<Instance> {
    if crd in s.instances then s.instances[crd] else []
  }

  /** Deletions are sent without a namespace, so for a namespaced definition the server rejects the
      first one, and the sweep ends there. */
  predicate Rejects(s: State, t: Target) {
    t.namespaced && exists i <- Listed(s, t.crd) :: !i.deleting
  }

  /** The deletions of the sweep; a definition's later versions list what the earlier ones left. */
  function SweepWrites(s: State, targets: seq<Target>): seq<Write>
    decreases |targets|
  {
    if targets == [] || Rejects(s, targets[0]) then []
    else
      var deletes := DeletesOf(targets[0].crd, Listed(s, targets[0].crd));
      deletes + SweepWrites(PerformAll(s, deletes), targets[1..])
  }

  /** Whether the sweep runs into a rejected deletion. */
  predicate Blocked(s: State, targets: seq<Target>)
    decreases |targets|
  {
    targets != [] &&
    (|| Rejects(s, targets[0])
     || Blocked(PerformAll(s, DeletesOf(targets[0].crd, Listed(s, targets[0].crd))), targets[1..]))
  }

  /** The sweep's counter if it gets through: the sum of all listings. */
  function SweepCount(instances: map<string, seq<Instance>>, targets: seq<Target>): nat {
    if targets == [] then 0
    else
      (if targets[0].crd in instances then |instances[targets[0].crd]| else 0) + SweepCount(instances, targets[1..])
  }

  function NodeReleases(listing: seq<string>, nodes: map<string, Node>): seq<Write> {
    if listing == [] then []
    else
      (if listing[0] in nodes && nodes[listing[0]].finalizer then [DropNodeFinalizer(listing[0])] else [])
      + NodeReleases(listing[1..], nodes)
  }

  /** After a sweep that counted nothing: the owner namespace, then the finalizer; the node
      finalizers only when the Configuration's own finalizer was already gone. */
  function TeardownWrites(s: State, c: ConfigObj, listing: seq<string>): seq<Write> {
    (if s.ownerNamespace.Some? then [DeleteOwnerNamespace] else [])
    + (if c.finalizer then [DropConfigFinalizer] else NodeReleases(listing, s.nodes))
  }

  function DeletionPlan(op: Operator, s: State, c: ConfigObj, listing: seq<string>): seq<Write> {
    var targets := Targets(op.crds(c.spec));
    SweepWrites(s, targets)
    + if SweepCount(s.instances, targets) > 0 then [] else TeardownWrites(s, c, listing)
  }

  function ConfigurationPlan(op: Operator, s: State, listing: seq<string>, order: seq<Kind>): seq<Write> {
    if s.config.None? then []
    else
      var c := s.config.value;
      if c.deleting then DeletionPlan(op, s, c, listing)
      else if !c.finalizer then [AddConfigFinalizer]
      else
        var found := FoundAddresses(listing, s.nodes, c.spec);
        if found.None? then NamespaceWrites(s)
        else NamespaceWrites(s) + ApplyPlan(op, s, c, found.value, order) + PatchPlan(s, c, found.value)
  }

  // ----- node controller -----

  /** Kick the address from both databases, then unpublish it. */
  function CentralCleanup(status: Status, address: string): seq<Write> {
    if address !in status.addresses then []
    else [KickNb(address), KickSb(address),
          PatchConfigStatus(status, status.(addresses := RemoveFirst(status.addresses, address)))]
  }

  function NodePlan(s: State, name: string): seq<Write> {
    if name !in s.nodes || s.config.None? || s.config.value.deleting then []
    else
      var node, c := s.nodes[name], s.config.value;
      var address := NodeInternalIP(node.addresses);
      if !node.deleting then (if node.finalizer then [] else [AddNodeFinalizer(name)])
      else if address == "" then []
      else CentralCleanup(c.status, address) + (if node.finalizer then [DropNodeFinalizer(name)] else [])
  }

  // ----- health-check controller -----

  function HealthPlan(op: Operator, s: State, answers: HealthAnswers): seq<Write> {
    if s.config.None? || s.config.value.deleting || s.config.value.status.phase != Deployed then []
    else
      var c := s.config.value;
      if !CheckNeeded(c.status.conditions, op.interval, s.clock) then []
      else
        var checked := HealthConditions(c.status.conditions, c.generation, answers, s.clock / SECOND);
        if checked == c.status.conditions then [] else [PatchConfigStatus(c.status, c.status.(conditions := checked))]
  }

  // ----- the machine -----

  datatype Action =
    | ConfigurationPass(listing: seq<string>, order: seq<Kind>, cut: nat)
    | NodePass(name: string, cut: nat)
    | HealthPass(answers: HealthAnswers, cut: nat)
    | Tick(elapsed: nat)
    | CreateConfiguration(spec: Spec)
    | EditSpec(other: string)
    | RequestDeletion
    | SetForeignFinalizer(present: bool)
    | JoinNode(name: string, node: Node)
    | RequestNodeDeletion(name: string)
    | SetNodeForeignFinalizer(name: string, present: bool)
    | JoinNb(address: string)
    | JoinSb(address: string)
    | SetInstances(crd: string, list: seq<Instance>)
    | EditObject(key: Key, content: string)
    | RemoveObject(key: Key)
    | RemoveOwnerNamespace
    | CollectGarbage(key: Key)

  ghost predicate IsListing(listing: seq<string>, nodes: map<string, Node>) {
    multiset(listing) == multiset(nodes.Keys)
  }

  ghost predicate IsOrder(order: seq<Kind>) {
    multiset(order) == multiset(KINDS)
  }

  predicate Live(s: State, owner: Owner) {
    match owner
    case ConfigurationOwner(uid) => s.config.Some? && s.config.value.uid == uid
    case NamespaceOwner(uid) => s.ownerNamespace == Some(uid)
  }

  function Take(plan: seq<Write>, cut: nat): seq<Write> {
    if cut <= |plan| then plan[..cut] else plan
  }

  /** The node matches the master label. */
  predicate SelectedBy(spec: Spec, node: Node) {
    && ParseSelector(spec.masterNodesLabel).Some?
    && Selects(ParseSelector(spec.masterNodesLabel).value, node.labels)
  }

  /** The node's address is in one of the databases. */
  predicate Member(s: State, node: Node) {
    NodeInternalIP(node.addresses) in s.nb + s.sb
  }

  /** A selected node that the operator holds, or will hold, and whose deletion would not make it
      look at the databases, because the node's address is not published. */
  predicate Overlooked(s: State, node: Node) {
    && s.config.Some? && !s.config.value.deleting && SelectedBy(s.config.value.spec, node)
    && (node.finalizer || !node.deleting)
    && NodeInternalIP(node.addresses) != ""
    && NodeInternalIP(node.addresses) !in s.config.value.status.addresses
  }

  predicate MayJoin(s: State, address: string) {
    forall n <- s.nodes :: Overlooked(s, s.nodes[n]) ==> NodeInternalIP(s.nodes[n].addresses) != address
  }

  predicate MayJoinNode(s: State, name: string, node: Node) {
    name !in s.nodes && !(Overlooked(s, Joined(node)) && Member(s, node))
  }

  function Joined(node: Node): Node {
    node.(finalizer := false, deleting := false)
  }

  predicate MayCreate(s: State, spec: Spec) {
    s.config.None? && forall n <- s.nodes :: !(Overlooked(Created(s, spec), s.nodes[n]) && Member(s, s.nodes[n]))
  }

  function Created(s: State, spec: Spec): State {
    s.(config := Some(ConfigObj(s.nextUid, 1, spec, false, false, false, EMPTY_STATUS)), nextUid := s.nextUid + 1)
  }

  /** One step; an action whose guard fails changes nothing. Assumptions on the environment are
      in the guards: labels and addresses of a node and the master label are fixed, nobody else
      removes the operator's finalizers, and no database member, node or Configuration appears if
      that makes an overlooked node a member; `Release.GuardsAreExact` shows that none of the last
      three can be weaker. Outsiders may edit or remove applied objects and the owner namespace.
      The API server raises the generation when it accepts a spec or a deletion. */
  ghost function Next(op: Operator, s: State, a: Action): State {
    match a
    case ConfigurationPass(listing, order, cut) =>
      if !IsListing(listing, s.nodes) || !IsOrder(order) then s
      else PerformAll(s, Take(ConfigurationPlan(op, s, listing, order), cut))
    case NodePass(name, cut) => PerformAll(s, Take(NodePlan(s, name), cut))
    case HealthPass(answers, cut) => PerformAll(s, Take(HealthPlan(op, s, answers), cut))
    case Tick(elapsed) => s.(clock := s.clock + elapsed)
    case CreateConfiguration(spec) =>
      if MayCreate(s, spec) then Created(s, spec) else s
    case EditSpec(other) =>
      if s.config.None? then s
      else
        var c := s.config.value;
        s.(config := Some(c.(spec := c.spec.(other := other), generation := c.generation + 1)))
    case RequestDeletion =>
      if s.config.None? || s.config.value.deleting then s
      else
        var c := s.config.value;
        s.(config := Reap(c.(deleting := true, generation := c.generation + 1)))
    case SetForeignFinalizer(present) =>
      if s.config.None? then s else s.(config := Reap(s.config.value.(foreignFinalizer := present)))
    case JoinNode(name, node) =>
      if MayJoinNode(s, name, node) then s.(nodes := s.nodes[name := Joined(node)]) else s
    case RequestNodeDeletion(name) =>
      if name !in s.nodes then s else s.(nodes := WithNode(s.nodes, name, s.nodes[name].(deleting := true)))
    case SetNodeForeignFinalizer(name, present) =>
      if name !in s.nodes then s else s.(nodes := WithNode(s.nodes, name, s.nodes[name].(foreignFinalizer := present)))
    case JoinNb(address) => if MayJoin(s, address) then s.(nb := s.nb + {address}) else s
    case JoinSb(address) => if MayJoin(s, address) then s.(sb := s.sb + {address}) else s
    case SetInstances(crd, list) => s.(instances := s.instances[crd := list])
    case EditObject(key, content) =>
      if key !in s.objects then s else s.(objects := s.objects[key := s.objects[key].(content := content)])
    case RemoveObject(key) => s.(objects := s.objects - {key})
    case RemoveOwnerNamespace => s.(ownerNamespace := None)
    case CollectGarbage(key) =>
      if key in s.objects && !Live(s, s.objects[key].owner) then s.(objects := s.objects - {key}) else s
  }

  ghost function Run(op: Operator, s: State, actions: seq<Action>): State
    decreases |actions|
  {
    if actions == [] then s else Run(op, Next(op, s, actions[0]), actions[1..])
  }

  /** A cluster before the first Configuration. */
  predicate Fresh(s: State) {
    s.config.None? && s.ownerNamespace.None? && s.objects == map[]
  }

  // ----- plans and their prefixes -----

  lemma {:induction false} PerformAppend(s: State, a: seq<Write>, b: seq<Write>)
    ensures PerformAll(s, a + b) == PerformAll(PerformAll(s, a), b)
    decreases |a|
  {
    if a == [] {
      assert a + b == b;
    } else {
      assert (a + b)[1..] == a[1..] + b;
      PerformAppend(Perform(s, a[0]), a[1..], b);
    }
  }

  lemma PerformOne(s: State, w: Write)
    ensures PerformAll(s, [w]) == Perform(s, w)
  {
    assert [w][1..] == [];
  }

  /** A prefix of `a + b` is a prefix of `a`, or all of `a` and a prefix of `b`. */
  lemma TakeAppend(a: seq<Write>, b: seq<Write>, cut: nat)
    ensures cut <= |a| ==> Take(a + b, cut) == Take(a, cut)
    ensures cut >= |a| ==> Take(a + b, cut) == a + Take(b, cut - |a|)
  {
  }

  /** Stopping inside `a + b`: somewhere in `a`, or after all of `a` and somewhere in `b`. */
  lemma PerformPrefix(s: State, a: seq<Write>, b: seq<Write>, cut: nat)
    ensures PerformAll(s, Take(a + b, cut)) ==
              if cut <= |a| then PerformAll(s, Take(a, cut))
              else PerformAll(PerformAll(s, a), Take(b, cut - |a|))
  {
    TakeAppend(a, b, cut);
    if cut > |a| {
      PerformAppend(s, a, Take(b, cut - |a|));
    }
  }

  lemma TakeEnds(a: seq<Write>, cut: nat)
    ensures cut == 0 ==> Take(a, cut) == []
    ensures cut >= |a| ==> Take(a, cut) == a
  {
  }

  ghost predicate OnlyApplies(ws: seq<Write>) {
    forall w <- ws :: w.Apply?
  }

  function ApplyAll(objects: map<Key, Managed>, ws: seq<Write>): map<Key, Managed>
    decreases |ws|
  {
    if ws == [] then objects
    else ApplyAll(if ws[0].Apply? then objects[ws[0].key := ws[0].managed] else objects, ws[1..])
  }

  /** Applications touch nothing but the object store. */
  lemma {:induction false} AppliesFrame(s: State, ws: seq<Write>)
    requires OnlyApplies(ws)
    ensures PerformAll(s, ws) == s.(objects := ApplyAll(s.objects, ws))
    decreases |ws|
  {
    if ws != [] {
      AppliesFrame(Perform(s, ws[0]), ws[1..]);
    }
  }

  lemma {:induction false} ApplyWritesOnlyApply(op: Operator, spec: Spec, addresses: seq<string>, order: seq<Kind>,
                                                configUid: nat, namespaceUid: nat)
    ensures OnlyApplies(ApplyWrites(op, spec, addresses, order, configUid, namespaceUid))
  {
    if order != [] {
      ApplyWritesOnlyApply(op, spec, addresses, order[1..], configUid, namespaceUid);
    }
  }

  ghost predicate OnlyDeletes(ws: seq<Write>) {
    forall w <- ws :: w.DeleteInstance?
  }

  /** Sweep deletions touch nothing but instances, and never change how many there are. */
  lemma {:induction false} DeletesFrame(s: State, ws: seq<Write>)
    requires OnlyDeletes(ws)
    ensures PerformAll(s, ws) == s.(instances := PerformAll(s, ws).instances)
    ensures PerformAll(s, ws).instances.Keys == s.instances.Keys
    ensures forall crd <- s.instances :: |PerformAll(s, ws).instances[crd]| == |s.instances[crd]|
    decreases |ws|
  {
    if ws != [] {
      assert ws[0] in ws;
      var s1 := Perform(s, ws[0]);
      DeletesFrame(s1, ws[1..]);
      assert s1 == s.(instances := s1.instances);
    }
  }

  lemma {:induction false} DeletesOfOnlyDelete(crd: string, list: seq<Instance>)
    ensures OnlyDeletes(DeletesOf(crd, list))
  {
    if list != [] {
      DeletesOfOnlyDelete(crd, list[1..]);
    }
  }

  lemma {:induction false} NothingDeleted(crd: string, items: seq<Instance>)
    requires forall i <- items :: i.deleting
    ensures DeletesOf(crd, items) == []
  {
    if items != [] {
      assert items[0] in items;
      NothingDeleted(crd, items[1..]);
    }
  }

  lemma {:induction false} SweepOnlyDeletes(s: State, targets: seq<Target>)
    ensures OnlyDeletes(SweepWrites(s, targets))
    decreases |targets|
  {
    if targets != [] && !Rejects(s, targets[0]) {
      var deletes := DeletesOf(targets[0].crd, Listed(s, targets[0].crd));
      DeletesOfOnlyDelete(targets[0].crd, Listed(s, targets[0].crd));
      SweepOnlyDeletes(PerformAll(s, deletes), targets[1..]);
    }
  }

  /** A blocked sweep has listed something. */
  lemma {:induction false} BlockedCounts(s: State, targets: seq<Target>)
    requires Blocked(s, targets)
    ensures SweepCount(s.instances, targets) > 0
    decreases |targets|
  {
    if !Rejects(s, targets[0]) {
      var deletes := DeletesOf(targets[0].crd, Listed(s, targets[0].crd));
      DeletesOfOnlyDelete(targets[0].crd, Listed(s, targets[0].crd));
      DeletesFrame(s, deletes);
      BlockedCounts(PerformAll(s, deletes), targets[1..]);
      SameCount(s.instances, PerformAll(s, deletes).instances, targets[1..]);
    }
  }

  lemma {:induction false} SameCount(a: map<string, seq<Instance>>, b: map<string, seq<Instance>>, targets: seq<Target>)
    requires a.Keys == b.Keys && forall crd <- a :: |a[crd]| == |b[crd]|
    ensures SweepCount(a, targets) == SweepCount(b, targets)
  {
    if targets != [] {
      SameCount(a, b, targets[1..]);
    }
  }

  ghost predicate OnlyReleases(ws: seq<Write>) {
    forall w <- ws :: w.DropNodeFinalizer?
  }

  lemma {:induction false} ReleasesFrame(s: State, ws: seq<Write>)
    requires OnlyReleases(ws)
    ensures PerformAll(s, ws) == s.(nodes := PerformAll(s, ws).nodes)
    ensures PerformAll(s, ws).nodes.Keys <= s.nodes.Keys
    ensures forall n <- PerformAll(s, ws).nodes ::
              PerformAll(s, ws).nodes[n].(finalizer := s.nodes[n].finalizer) == s.nodes[n]
    decreases |ws|
  {
    if ws != [] {
      assert ws[0] in ws;
      var s1 := Perform(s, ws[0]);
      ReleasesFrame(s1, ws[1..]);
      assert s1 == s.(nodes := s1.nodes);
    }
  }

  lemma {:induction false} NodeReleasesOnlyRelease(listing: seq<string>, nodes: map<string, Node>)
    ensures OnlyReleases(NodeReleases(listing, nodes))
  {
    if listing != [] {
      NodeReleasesOnlyRelease(listing[1..], nodes);
    }
  }

  // ----- what a configuration pass can leave behind -----

  function WithNamespace(s: State): State {
    if s.ownerNamespace.Some? then s else s.(ownerNamespace := Some(s.nextUid), nextUid := s.nextUid + 1)
  }

  /** The state of a reconciling pass stopped before its patch, after `done` of its applications. */
  function Applied(op: Operator, s: State, c: ConfigObj, found: seq<string>, order: seq<Kind>, done: nat): State {
    var s1 := WithNamespace(s);
    s1.(objects := ApplyAll(s1.objects, Take(ApplyPlan(op, s, c, found, order), done)))
  }

  predicate Reconciles(s: State) {
    s.config.Some? && !s.config.value.deleting && s.config.value.finalizer
  }

  /** The states a reconciling pass goes through: after the namespace and `done` applications, and
      after the whole plan. */
  lemma PassStages(op: Operator, s: State, listing: seq<string>, order: seq<Kind>, done: nat)
    requires Reconciles(s)
    requires FoundAddresses(listing, s.nodes, s.config.value.spec).Some?
    ensures var c, plan := s.config.value, ConfigurationPlan(op, s, listing, order);
            var found := FoundAddresses(listing, s.nodes, c.spec).value;
            var applies := ApplyPlan(op, s, c, found, order);
            && |plan| == |NamespaceWrites(s)| + |applies| + |PatchPlan(s, c, found)|
            && (done <= |applies| ==>
                  PerformAll(s, Take(plan, |NamespaceWrites(s)| + done)) == Applied(op, s, c, found, order, done))
            && var reconciled := ReconciledStatus(c, found, s.clock / SECOND);
            var finished := Applied(op, s, c, found, order, |applies|).(config := Some(c.(status := reconciled)));
            (done > |applies| ==> PerformAll(s, Take(plan, |NamespaceWrites(s)| + done)) == finished)
  {
    hide ReconciledStatus, PreparedStatus, ApplyWrites, FoundAddresses, ApplyAll, Take, PerformAll;
    var c, ns := s.config.value, NamespaceWrites(s);
    var found := FoundAddresses(listing, s.nodes, c.spec).value;
    var applies, patch := ApplyPlan(op, s, c, found, order), PatchPlan(s, c, found);
    assert ns + applies + patch == ns + (applies + patch);
    PerformPrefix(s, ns, applies + patch, |ns| + done);
    NamespacePrefix(s, |ns|);
    TakeEnds(ns, |ns|);
    TakeEnds(applies, 0);
    TakeEnds(applies, |applies|);
    EmptyRun(WithNamespace(s));
    PerformPrefix(WithNamespace(s), applies, patch, done);
    AppliedPrefix(op, s, c, found, order, if done <= |applies| then done else |applies|);
    if done > |applies| {
      PatchEffect(s, Applied(op, s, c, found, order, |applies|), c, found, done - |applies|);
    }
  }

  /** A reconciling pass, wherever it stops: nothing happened; or the owner namespace exists and
      some of the applications were made, with the Configuration untouched; or everything was
      applied and the status written. */
  lemma ReconcilingPass(op: Operator, s: State, listing: seq<string>, order: seq<Kind>, cut: nat) returns (done: nat)
    requires Reconciles(s)
    ensures var c, s' := s.config.value, PerformAll(s, Take(ConfigurationPlan(op, s, listing, order), cut));
            var found := FoundAddresses(listing, s.nodes, c.spec);
            if found.None? then s' == s || s' == WithNamespace(s)
            else
              || s' == s
              || s' == Applied(op, s, c, found.value, order, done)
              || (&& cut >= |ConfigurationPlan(op, s, listing, order)|
                  && done == |ApplyPlan(op, s, c, found.value, order)|
                  && s' == Applied(op, s, c, found.value, order, done)
                           .(config := Some(c.(status := ReconciledStatus(c, found.value, s.clock / SECOND)))))
  {
    hide ReconciledStatus, PreparedStatus, ApplyWrites, FoundAddresses, ApplyAll, Take, PerformAll, ApplyPlan,
         PatchPlan;
    var c, ns := s.config.value, NamespaceWrites(s);
    var found := FoundAddresses(listing, s.nodes, c.spec);
    done := 0;
    NamespacePrefix(s, cut);
    EmptyRun(s);
    TakeEnds(ConfigurationPlan(op, s, listing, order), cut);
    if found.Some? && cut >= |ns| {
      var applies := ApplyPlan(op, s, c, found.value, order);
      assert |PatchPlan(s, c, found.value)| <= 1 by { PatchIsShort(s, c, found.value); }
      PassStages(op, s, listing, order, cut - |ns|);
      done := if cut - |ns| <= |applies| then cut - |ns| else |applies|;
    }
  }

  lemma PatchIsShort(s: State, c: ConfigObj, found: seq<string>)
    ensures |PatchPlan(s, c, found)| <= 1
  {
  }

  lemma EmptyRun(s: State)
    ensures PerformAll(s, []) == s
  {
  }

  lemma AppliedPrefix(op: Operator, s: State, c: ConfigObj, found: seq<string>, order: seq<Kind>, done: nat)
    ensures PerformAll(WithNamespace(s), Take(ApplyPlan(op, s, c, found, order), done)) ==
              Applied(op, s, c, found, order, done)
  {
    hide PerformAll, ApplyAll, ApplyWrites, PreparedStatus;
    var prepared := PreparedStatus(c, found, s.clock / SECOND);
    ApplyWritesOnlyApply(op, c.spec, prepared.addresses, order, c.uid, NamespaceUid(s));
    AppliesFrame(WithNamespace(s), Take(ApplyPlan(op, s, c, found, order), done));
  }

  lemma PatchEffect(s: State, applied: State, c: ConfigObj, found: seq<string>, cut: nat)
    requires applied.config == Some(c) && cut > 0
    ensures PerformAll(applied, Take(PatchPlan(s, c, found), cut)) ==
            applied.(config := Some(c.(status := ReconciledStatus(c, found, s.clock / SECOND))))
  {
    hide ReconciledStatus;
    var reconciled, patch := ReconciledStatus(c, found, s.clock / SECOND), PatchPlan(s, c, found);
    TakeEnds(patch, cut);
    OwnPatch(c.status, reconciled);
    if patch == [] {
      assert c.(status := reconciled) == c;
      assert applied.(config := Some(c)) == applied;
    } else {
      PerformOne(applied, patch[0]);
    }
  }

  /** A patch against the current status writes the modified status. */
  lemma OwnPatch(base: Status, modified: Status)
    ensures PatchStatus(base, base, modified) == modified
  {
    assert modified == Status(modified.addresses, modified.conditions, modified.phase);
  }

  lemma NamespacePrefix(s: State, cut: nat)
    ensures PerformAll(s, Take(NamespaceWrites(s), cut)) in {s, WithNamespace(s)}
    ensures cut >= |NamespaceWrites(s)| ==> PerformAll(s, Take(NamespaceWrites(s), cut)) == WithNamespace(s)
  {
    PerformOne(s, CreateOwnerNamespace);
  }

  /** A deletion pass, wherever it stops: only instances were marked; or the sweep counted
      nothing and the teardown began. */
  lemma DeletionPass(op: Operator, s: State, listing: seq<string>, order: seq<Kind>, cut: nat) returns (swept: State)
    requires s.config.Some? && s.config.value.deleting
    ensures var c, s' := s.config.value, PerformAll(s, Take(ConfigurationPlan(op, s, listing, order), cut));
            && swept == s.(instances := swept.instances)
            && (|| s' == swept
                || (&& SweepCount(s.instances, Targets(op.crds(c.spec))) == 0
                    && exists k: nat :: s' == PerformAll(swept, Take(TeardownWrites(s, c, listing), k))))
  {
    hide SweepWrites, SweepCount, TeardownWrites, Targets;
    var c := s.config.value;
    var targets := Targets(op.crds(c.spec));
    var sweep := SweepWrites(s, targets);
    SweepOnlyDeletes(s, targets);
    var rest := if SweepCount(s.instances, targets) > 0 then [] else TeardownWrites(s, c, listing);
    TakeAppend(sweep, rest, cut);
    var n := if cut <= |sweep| then cut else |sweep|;
    DeletesFrame(s, sweep[..n]);
    swept := PerformAll(s, sweep[..n]);
    if cut > |sweep| {
      PerformAppend(s, sweep, Take(rest, cut - |sweep|));
      assert sweep[..n] == sweep;
      if rest == [] {
        assert Take(rest, cut - |sweep|) == [];
      }
    }
  }

  /** How far the teardown can get: the owner namespace always goes before the finalizer, and
      node finalizers are touched only when the Configuration's own was already gone. */
  lemma Teardown(s: State, c: ConfigObj, listing: seq<string>, k: nat)
    requires s.config == Some(c) && c.deleting
    ensures var s' := PerformAll(s, Take(TeardownWrites(s, c, listing), k));
            || s' == s
            || s' == s.(ownerNamespace := None)
            || (c.finalizer && s' == s.(ownerNamespace := None, config := Reap(c.(finalizer := false))))
            || (&& !c.finalizer && s' == s.(ownerNamespace := None, nodes := s'.nodes)
                && s'.nodes.Keys <= s.nodes.Keys
                && forall n <- s'.nodes :: s'.nodes[n].(finalizer := s.nodes[n].finalizer) == s.nodes[n])
  {
    var ns := if s.ownerNamespace.Some? then [DeleteOwnerNamespace] else [];
    var last := if c.finalizer then [DropConfigFinalizer] else NodeReleases(listing, s.nodes);
    TakeAppend(ns, last, k);
    PerformOne(s, DeleteOwnerNamespace);
    var s1 := s.(ownerNamespace := None);
    if k > |ns| {
      PerformAppend(s, ns, Take(last, k - |ns|));
      assert PerformAll(s, ns) == s1;
      if c.finalizer {
        PerformOne(s1, DropConfigFinalizer);
        assert Take(last, k - |ns|) == [DropConfigFinalizer];
      } else {
        NodeReleasesOnlyRelease(listing, s.nodes);
        assert OnlyReleases(Take(last, k - |ns|));
        ReleasesFrame(s1, Take(last, k - |ns|));
      }
    } else {
      assert Take(ns, k) == [] || Take(ns, k) == ns;
    }
  }

  /** What a deletion pass can change: it marks instances, and only after a sweep that counted
      nothing does it remove the owner namespace, then the finalizer, or release nodes. */
  lemma DeletionEffect(op: Operator, s: State, listing: seq<string>, order: seq<Kind>, cut: nat)
    requires s.config.Some? && s.config.value.deleting
    ensures var c, s' := s.config.value, PerformAll(s, Take(ConfigurationPlan(op, s, listing, order), cut));
            && s' == s.(instances := s'.instances, ownerNamespace := s'.ownerNamespace, config := s'.config,
                        nodes := s'.nodes)
            && (s'.ownerNamespace == s.ownerNamespace || s'.ownerNamespace.None?)
            && (|| s'.config == s.config
                || (c.finalizer && s'.config == Reap(c.(finalizer := false)) && s'.ownerNamespace.None?))
            && s'.nodes.Keys <= s.nodes.Keys
            && (forall n <- s'.nodes :: s'.nodes[n].(finalizer := s.nodes[n].finalizer) == s.nodes[n])
            && (c.finalizer ==> s'.nodes == s.nodes)
            && (s'.ownerNamespace != s.ownerNamespace || s'.config != s.config || s'.nodes != s.nodes
                ==> SweepCount(s.instances, Targets(op.crds(c.spec))) == 0)
  {
    hide ConfigurationPlan, SweepCount, Targets, PerformAll, Take;
    var c, s' := s.config.value, PerformAll(s, Take(ConfigurationPlan(op, s, listing, order), cut));
    var swept := DeletionPass(op, s, listing, order, cut);
    if s' != swept {
      var k: nat :| s' == PerformAll(swept, Take(TeardownWrites(s, c, listing), k));
      assert TeardownWrites(swept, c, listing) == TeardownWrites(s, c, listing);
      Teardown(swept, c, listing, k);
    }
  }

  /** A pass that finds no finalizer on a live Configuration only adds it. */
  lemma FinalizerPass(op: Operator, s: State, listing: seq<string>, order: seq<Kind>, cut: nat)
    requires s.config.Some? && !s.config.value.deleting && !s.config.value.finalizer
    ensures var s' := PerformAll(s, Take(ConfigurationPlan(op, s, listing, order), cut));
            s' == s || s' == s.(config := Some(s.config.value.(finalizer := true)))
  {
    PerformOne(s, AddConfigFinalizer);
    assert Take([AddConfigFinalizer], cut) == [] || Take([AddConfigFinalizer], cut) == [AddConfigFinalizer];
  }

  /** A health-check pass that writes replaces the conditions and nothing else. */
  lemma HealthEffect(op: Operator, s: State, answers: HealthAnswers, cut: nat)
    ensures var s' := PerformAll(s, Take(HealthPlan(op, s, answers), cut));
            || s' == s
            || (&& s.config.Some? && !s.config.value.deleting && s.config.value.status.phase == Deployed
                && CheckNeeded(s.config.value.status.conditions, op.interval, s.clock)
                && var c := s.config.value;
                s' == s.(config := Some(c.(status := c.status.(conditions :=
                           HealthConditions(c.status.conditions, c.generation, answers, s.clock / SECOND))))))
  {
    hide CheckNeeded, HealthConditions;
    var plan := HealthPlan(op, s, answers);
    assert |plan| <= 1;
    assert Take(plan, cut) == [] || Take(plan, cut) == plan;
    if plan != [] {
      PerformOne(s, plan[0]);
      assert plan == [plan[0]];
      OwnPatch(s.config.value.status, plan[0].modified);
    }
  }

  /** A node pass over a live node only adds its finalizer. */
  lemma LiveNodePass(s: State, name: string, cut: nat)
    requires name in s.nodes && !s.nodes[name].deleting
    ensures var s' := PerformAll(s, Take(NodePlan(s, name), cut));
            s' == s || s' == s.(nodes := s.nodes[name := s.nodes[name].(finalizer := true)])
  {
    PerformOne(s, AddNodeFinalizer(name));
    var plan := NodePlan(s, name);
    assert Take(plan, cut) == [] || Take(plan, cut) == [AddNodeFinalizer(name)];
  }
}
