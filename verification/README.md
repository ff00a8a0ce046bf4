# A verified model of the kubeovn-operator reconcile protocol

Three controllers of the operator (configuration, node, health check) share one `Configuration`
object, the cluster's nodes, the northbound and southbound OVN databases, an owner namespace and
the objects they apply. They read snapshots, work on private copies and write back JSON merge
patches without any lock, and every call may fail. This project models that protocol and proves
what every run of it keeps. `dafny verify dfyconfig.toml` checks everything.

## How the model is built

**Kernels on values.** `Text` (Go's string order, `strings.Split`/`Join`), `Addresses` (sorting,
comparing and shrinking address slices in place on their backing arrays), `MergePatch` (RFC 7396,
applying and computing patches), `Conditions` (the condition list and the map it stands for),
`Selector` (the master label as selector and as affinity), `Model` (the stored object and what a
pass of each controller computes from it), `StatusPatch` (the field-wise patch of a status is the
RFC 7396 patch of its JSON).

**API-call granularity.** `Interleaving` is a state machine in which every controller has a
snapshot in flight and writes its patch at any later time, over whatever the object has become.
An action whose guard fails changes nothing, so *every run* is *every sequence of actions*.

**Pass granularity.** `Cluster` is the whole operator: a pass plans a sequence of writes from the
state it reads, and a failing call cuts the sequence short, so a pass performs some prefix of its
plan. That prefix also covers a call that took effect although its reply was lost. Users, node
deletion, database membership, instances, outside edits and the garbage collector are actions of
the same machine. `ApplyOrder`, `Listing`, `Release`, `Ownership`, `Teardown` and `Spacing` prove
what its runs keep; `WholePass` says what a pass with no failing call
achieves, `Convergence` that such passes reach a fixpoint, `Settling` that every run over unchanging
nodes does.

**Imperative controllers.** `ConfigurationTypes.Configuration` is the in-memory object with its
slice and condition list; `ConfigurationController`, `NodeController` and `HealthController` are
the three `Reconcile` methods with their loops, in-place updates and early returns over a server
whose calls fail after an arbitrary budget (`Api`). Each is proved to end in a state of the
machine's pass, so the theorems about runs are about these methods, and to do its whole job and
report exactly the source's errors when no call fails. `Bootstrap` holds the bounded
create-with-retry loop.

## Assumptions on the environment

They are the guards of `Cluster.Next` and `Interleaving.Next`:

- a node's labels and addresses and the Configuration's master label do not change during a run;
- no database member, node or Configuration appears if that turns a node into an overlooked member:
  one that the live Configuration selects, that the operator holds or will hold, whose address is
  in a database and is not published (`Release.GuardsAreExact`: each of these three guards is the
  weakest under which no run releases a member). Any other address or node may join at any time,
  and a Configuration may be created over entries that departed or unselected nodes left behind;
- outsiders may edit or remove applied objects and the owner namespace at any time, but do not
  change an object's owner or add objects of their own; what a claim needs beyond that is in its
  hypotheses (`Ownership.Undisturbed`);
- a kick that succeeds removes exactly the given address (no member's address matches another's
  search pattern), and nobody else removes the operator's finalizers;
- each controller has one worker, so the configuration controller, the only one to drop the
  Configuration's finalizer, never has the object replaced under its own pass;
- every definition has one scope, and the server rejects the deletion of a namespaced object that
  names no namespace;
- rendering is a deterministic function of spec, addresses and type; version and webhook
  certificate are part of that function;
- which object types are namespaced is the API server's answer, an arbitrary function of the type;
- how YAML reads an unquoted scalar is an arbitrary function (`Selector.PlainScalar`); a quoted
  one reads as itself.

Times in conditions are whole seconds, as the API server stores them; the clock runs in
nanoseconds. When only the fraction of a second differs, the Go code sends a patch that is empty;
the model sends none.

## Where the code differs from its documentation

- The health check runs both database probes on the southbound leader, also the northbound one
  (`Model.HealthMeaning`), although the northbound leader was looked up
  (internal/controller/healthcheck_controller.go:118).
- Two persisted health checks can be closer than the configured interval by up to a second,
  because the stamp is truncated to seconds (`Spacing.FullIntervalIff` says exactly when).
- The node finalizers are meant to be removed when a Configuration is deleted; the pass that drops
  the Configuration's finalizer returns before that loop, so they normally stay
  (`Teardown.NodesReleasedOrLeft`).
- The sweep deletes through an empty namespace, and one rendered definition is namespaced
  (internal/templates/customresourcedefinitions.go:2678). An unmarked instance of it stops every
  sweep, so the Configuration cannot go away until someone else deletes that instance
  (`Teardown.SweepCompletesIff`, `Teardown.BlockedPassKeeps`).
- Since those nodes keep their finalizers and the databases their members, the next Configuration
  can release a member if it selects one (`Teardown.RecreationSafeIff` says exactly when).
- The waiting condition can stay true although nodes match again (`Convergence.Converges` gives
  the exact condition, `Convergence.WaitingCanOutliveMatch` a run).
- Not every accepted master label yields an affinity that agrees with node selection:
  `Selector.SelectorAgreement` gives the exact condition in terms of what YAML makes of the
  unquoted key, and `Selector.BooleanKeyDisagrees` a legal key on which they part.
- A status patch computed from a stale snapshot can drop an address published in between
  (`Interleaving.LostUpdate`), and a health check in flight over a deletion and recreation can
  leave a condition with a generation the new object never had (`Interleaving.GenerationBound`
  says exactly when, `Interleaving.GenerationBoundCanFail` gives a run).
- `OrderedObjectList` is a Go map: its order is arbitrary, and `ApplyOrder.RestartAnywhere` shows
  that this does not matter.

## Model

| member | source | states |
|---|---|---|
| Release.ReleaseSafety | internal/controller/node_controller.go:95-151 | after any run from a cluster without Configuration, whatever its databases hold, a step that releases a labelled node is that node's own deletion pass and its address is then in neither database, or it is the final sweep of a Configuration without finalizer |
| Release.SafeIff | internal/controller/node_controller.go:95-151 | exactly when every step of every run from a state is safe in this sense: no overlooked node is a member |
| Release.GuardsAreExact | internal/controller/node_controller.go:104-126 | from a safe state, a new member, node or Configuration leaves every run safe if and only if its guard holds |
| Release.ReleasingStep | internal/controller/node_controller.go:118-126 | the step itself: given that no overlooked node is a member, whoever releases a labelled node leaves its address in neither database, or is that final sweep |
| Release.RunPublishes | internal/controller/configuration_controller.go:266-301 | in every run, under a live Configuration, every selected node that the operator holds or will hold and whose address is in a database has that address published |
| Release.ReconciledPublishes | internal/controller/configuration_controller.go:279-299 | a pass publishes every address it found |
| Release.NodeDeletionPass | internal/controller/node_controller.go:95-128 | the exact states in which a node-deletion pass can stop: kicked from one or both databases, unpublished, released |
| Release.CompleteDeletion | internal/controller/node_controller.go:95-128 | retrying after an interruption anywhere ends with the same databases and nodes as an uninterrupted pass |
| Release.WholeDeletion | internal/controller/node_controller.go:104-126 | a whole pass kicks a published address from both databases, unpublishes one copy and drops the finalizer |
| WholePass.PassApplies | internal/controller/configuration_controller.go:147-203 | a complete pass that ends with stored addresses, no deployment under way, leaves every key rendered for those addresses at its expected value and every other key as it was, whether or not the phase moved; otherwise it touches no object |
| WholePass.PassPublishes | internal/controller/configuration_controller.go:266-301 | a complete pass stores the sorted addresses of exactly the selected nodes, or keeps the list if there are none and it was not yet waiting |
| WholePass.PassConditions | internal/controller/configuration_controller.go:289-325 | every condition after a complete pass, in full: status, message, reason, time and generation |
| WholePass.FirstPass | internal/controller/configuration_controller.go:116-120 | the first complete pass adds the finalizer and does nothing else |
| WholePass.UnparsedPass | internal/controller/configuration_controller.go:268-271 | with an unparsable label a complete pass stops behind the owner namespace |
| WholePass.PassSweeps | internal/controller/configuration_controller.go:349-359 | a complete deletion pass that is not blocked leaves every instance of every rendered definition under deletion |
| WholePass.PassHolds | internal/controller/node_controller.go:70-76 | a node pass that gets to write puts the finalizer on the live node |
| WholePass.PassStoresVerdicts | internal/controller/healthcheck_controller.go:71-76 | a health check that is due and gets to write stores every verdict with time and generation, whatever was found; one that is not due changes nothing |
| Convergence.Converges | internal/controller/configuration_controller.go:98-135 | from any state exactly the first `Rank` (at most four) passes write; the fixpoint stores the sorted matching addresses, waits without nodes, and is Deployed with nodes unless it arrived Deploying |
| Convergence.PassLowersRank | internal/controller/configuration_controller.go:116-134 | the rank is zero exactly at fixpoints, and a writing pass lowers it by one |
| Convergence.Prepared | internal/controller/configuration_controller.go:266-325 | what initialisation and node comparison do to conditions, addresses and phase, case by case |
| Convergence.WaitingCanOutliveMatch | internal/controller/configuration_controller.go:289-300 | a run after which nodes match and the waiting condition is true for good |
| Settling.RunSettles | internal/controller/configuration_controller.go:98-135 | over every run in which the nodes stay, with passes cut anywhere, health checks, node passes, ticks and outside edits in between: at most `Rank` passes write, and once that many have completed the Configuration is the fixpoint described above |
| Settling.NextSettles | internal/controller/healthcheck_controller.go:71-76 | no step raises the rank, a writing pass lowers it, a complete pass writes exactly when it is not zero |
| Listing.CompletePass | internal/controller/configuration_controller.go:98-135 | an uninterrupted pass of the machine is the pass of the convergence theorem |
| Listing.FoundIff | internal/controller/configuration_controller.go:274-285 | an address is found exactly if a listed, selected node has it as its internal address |
| Listing.PlanIgnoresListing | internal/controller/configuration_controller.go:274-299 | the writes of a pass do not depend on the order in which nodes are listed |
| Model.ListingOrderIrrelevant | internal/controller/configuration_controller.go:279-299 | permuting the listing changes neither the stored addresses nor the condition message |
| Interleaving.FieldIsolation | internal/controller/healthcheck_controller.go:71-76 | in every interleaving health checks change only conditions, node deletions only addresses, and the phase moves only to Deployed, only by the configuration controller, and never leaves it |
| Interleaving.ReachableStatus | internal/controller/configuration_controller.go:304-325 | in every interleaving the addresses are sorted, the condition list is empty or the five types in order, and the phase is empty or Deployed |
| Interleaving.GenerationBound | api/v1/configuration_types.go:406-425 | over every interleaving no condition is ever newer than the object if and only if every health check that lands with a change had read a generation the object has reached |
| Interleaving.HealthWriteKeepsGenerations | internal/controller/healthcheck_controller.go:71-76 | a changed, possibly stale health check landing on any object keeps the bound exactly when the generation it read is not above the object's |
| Interleaving.NextKeepsInv | internal/controller/node_controller.go:111-115 | the inductive step over every read, write and abort, for stale snapshots too |
| Interleaving.GenerationBoundCanFail | api/v1/configuration_types.go:406-425 | a run in which a health check outlives an orderly deletion and recreation and leaves a condition newer than the object |
| Interleaving.NodeWriteKeepsOthers | internal/controller/node_controller.go:111-115 | a stale node patch keeps every other published address exactly when its snapshot already had them all |
| Interleaving.LostUpdate | internal/controller/node_controller.go:111-115 | such a loss is reachable, which is why release safety is stated for atomic passes |
| StatusPatch.PatchIsMergePatch | internal/controller/configuration_controller.go:134 | for every base, modification and newer current status, the field-wise patch is the RFC 7396 merge patch of the JSON encodings |
| MergePatch.UntouchedPath | internal/controller/healthcheck_controller.go:71-73 | a path on which base and modified agree keeps the current document's value, whatever that is |
| MergePatch.DiffRoundTrip | internal/controller/configuration_controller.go:119 | applying the difference to its own base gives the modified document |
| MergePatch.EmptyDiff | internal/controller/configuration_controller.go:130-134 | an empty patch means that the documents agree |
| MergePatch.DiffOfEqual | internal/controller/configuration_controller.go:130-134 | an unchanged document has an empty patch |
| Ownership.DeletionOrdering | internal/controller/configuration_controller.go:349-384 | the finalizer goes, and no outsider apart the owner namespace too, only in a pass over a Configuration under deletion whose sweep saw no instance of any rendered definition, the finalizer only behind the namespace |
| Ownership.SweepCountZero | internal/controller/configuration_controller.go:454-473 | the sweep's counter is zero exactly when every listing was empty or not served |
| Teardown.DeleteUnderInterference | internal/controller/configuration_controller.go:349-384 | with instances coming and going between any two calls: if none is created, then at the call that drops the finalizer, and ever after, no instance of a rendered definition is left |
| Teardown.SweepUnderInterference | internal/controller/configuration_controller.go:421-474 | the nested sweep in that setting: if it reports nothing, nothing is left from then on; it is rejected only if a definition is namespaced |
| Ownership.NothingLeftBehind | internal/controller/configuration_controller.go:376-384 | after any run, once the Configuration is gone so is the owner namespace, every applied object has a dead owner, and the collector's fixpoint is empty |
| Ownership.RunOwns | internal/controller/configuration_controller.go:184-199 | in every run, and whichever types the API server calls namespaced, each object is owned as its scope demands, and the owner namespace exists only under a Configuration with its finalizer |
| Ownership.NothingComesBack | internal/controller/configuration_controller.go:110-128 | after the final deletion pass no pass applies an object or recreates the namespace |
| Ownership.OldObjectsStayDead | internal/controller/configuration_controller.go:184-194 | a new Configuration does not own what an earlier one left |
| Ownership.DeployedMeansApplied | internal/controller/configuration_controller.go:122-134 | in every run from a fresh cluster, a Configuration that reads Deployed had an earlier pass of its own in that run that stored non-empty addresses and wrote the expected value of every key rendered from its spec and those addresses |
| Ownership.AppliedStaysPresent | internal/controller/configuration_controller.go:184-203 | what such a pass applied stays in place with a live owner through any further run in which nobody outside removes it or the namespace and the Configuration is not deleted |
| Ownership.PhaseMeansApplied | internal/controller/configuration_controller.go:147-203 | the step that sets the phase is a complete pass that wrote the expected value of every rendered key, for the non-empty addresses it stores, and touched no other key |
| Ownership.AbortLeavesStatus | internal/controller/configuration_controller.go:124-134 | a pass aborted before its patch leaves the persisted status untouched |
| Teardown.NodesReleasedOrLeft | internal/controller/configuration_controller.go:381-403 | a complete teardown releases the nodes exactly when the Configuration's finalizer was already gone; otherwise every node keeps its finalizer |
| Teardown.SweepMarksEverything | internal/controller/configuration_controller.go:454-463 | after a sweep that gets through every listed instance is being deleted |
| Teardown.SweepCompletesIff | internal/controller/configuration_controller.go:440-463 | a sweep gets through exactly when no namespaced definition holds an instance not yet under deletion |
| Teardown.BlockedPassKeeps | internal/controller/configuration_controller.go:349-359 | a pass whose sweep is rejected marks instances at most: namespace, finalizer and nodes stay |
| Teardown.RecreationSafeIff | internal/controller/configuration_controller.go:381-403 | the last pass leaves nodes and databases as they are, and a Configuration created after it is safe in every run if and only if it selects no surviving member |
| ApplyOrder.RestartAnywhere | internal/controller/configuration_controller.go:173-200 | after an attempt in one type order stopped anywhere, a complete application in any other order leaves the same object store |
| ApplyOrder.ApplyMeaning | internal/controller/configuration_controller.go:173-200 | a complete application writes the expected value at every rendered key and leaves all others alone, in any order |
| Spacing.ChecksAreSpaced | internal/controller/healthcheck_controller.go:81-101 | in any run the Configuration survives, the j-th persisted check after another comes more than j intervals minus one second later |
| Spacing.StampMoves | internal/controller/healthcheck_controller.go:140-143 | only a persisted check moves the leader stamp, to the current second, and only after the interval |
| Spacing.FullIntervalIff | internal/controller/healthcheck_controller.go:140-143 | the next permitted check is always more than a full interval away exactly when the stamped one fell on a whole second |
| Model.HealthMeaning | internal/controller/healthcheck_controller.go:96-135 | the whole condition a check leaves for each type: verdict, message, reason, time and generation, each probe on the only southbound leader its own listing shows |
| Model.InitMeaning | internal/controller/configuration_controller.go:304-325 | initialisation adds every missing type as Unknown, spelled out, keeps every other entry, and is the identity on complete lists |
| Model.InitFromEmpty | internal/controller/configuration_controller.go:304-325 | from nothing it produces the five types in their fixed order |
| Addresses.AddressArrayEqual | internal/controller/configuration_controller.go:415-419 | true exactly when both slices hold the same addresses with the same multiplicities; leaves each the sorted permutation of itself |
| Addresses.SortInPlace | internal/controller/configuration_controller.go:416-417 | sorts the used part of the backing array and nothing else |
| Addresses.SortMeaning | internal/controller/configuration_controller.go:416-417 | the stored arrangement is sorted and has the same elements |
| Text.LeqMeaning | internal/controller/configuration_controller.go:416-417 | the order behind the sort is dictionary order: a prefix first, otherwise the first difference decides |
| Addresses.SortedUnique | internal/controller/configuration_controller.go:415-419 | a multiset has one sorted arrangement, so any correct sort stores the same list |
| Addresses.RemoveElement | internal/controller/node_controller.go:187-194 | shifts out the first match in the backing array; the slots past the new length keep their contents |
| Addresses.RemoveFirstMeaning | internal/controller/node_controller.go:187-194 | removal takes one copy of the element and nothing else, and keeps the list sorted |
| Conditions.SetUpdatesMap | api/v1/configuration_types.go:406-425 | setting a condition is a map update |
| Conditions.SetAllUpdatesMap | api/v1/configuration_types.go:406-425 | any sequence of sets equals the same sequence of map updates and keeps types unique |
| Conditions.SetKeepsPositions | api/v1/configuration_types.go:406-425 | every other entry keeps its position and value; a new type goes to the end |
| Conditions.LookupReadsMap | api/v1/configuration_types.go:442-458 | lookup and existence read the map; a missing type reads as the zero condition |
| ConfigurationTypes.Configuration.SetCondition | api/v1/configuration_types.go:406-425 | the loop over the list performs exactly that set |
| ConfigurationTypes.Configuration.LookupCondition | api/v1/configuration_types.go:442-449 | the loop returns the first entry of the type, or the zero condition |
| ConfigurationTypes.Configuration.ConditionExists | api/v1/configuration_types.go:451-458 | the loop finds whether the type occurs |
| ConfigurationTypes.Configuration.ConditionTrue | api/v1/configuration_types.go:427-430 | whether the looked-up condition is true |
| ConfigurationTypes.Configuration.InitializeConditions | internal/controller/configuration_controller.go:304-325 | the five steps are the initialisation the lemmas speak about |
| ConfigurationTypes.Configuration.FindMasterNodes | internal/controller/configuration_controller.go:289-300 | the in-place comparison and the aliased store have the effect the lemmas speak about |
| ConfigurationTypes.Configuration.DeepCopy | internal/controller/configuration_controller.go:110 | the copy has the stored status and its own backing array |
| ConfigurationController.Reconcile | internal/controller/configuration_controller.go:98-135 | wherever a call fails, the server ends in a state of the machine's configuration pass; if none fails, the whole plan was performed, or nothing beyond the namespace where only the certificate is missing, and an error is reported exactly for remaining instances, an unparsable label or a missing certificate |
| ConfigurationController.DeploysIff | internal/controller/configuration_controller.go:147-155 | a pass goes on to apply exactly if no deployment is under way and a node matches, or addresses are kept |
| ConfigurationController.ReconcileLive | internal/controller/configuration_controller.go:122-134 | the four steps and the closing patch over a live Configuration |
| ConfigurationController.ApplyObject | internal/controller/configuration_controller.go:147-203 | applies every rendered object, in an arbitrary order of types, unless nobody is there to deploy to or a deployment is under way |
| ConfigurationController.ApplyObjects | internal/controller/configuration_controller.go:173-200 | iterating the map of types in arbitrary order performs a prefix of the application in some order of all types |
| ConfigurationController.EnsureOwnerNamespace | internal/controller/configuration_controller.go:330-345 | creates the owner namespace if it is missing |
| ConfigurationController.EnsureCRDObjectCleanup | internal/controller/configuration_controller.go:421-474 | if the nested sweep gets through, its counter is exactly the sum of all listings and it succeeds only if that sum is zero; it gets through only in a state that does not block it, and is rejected only in one that does |
| ConfigurationController.DeleteClusterScopedReference | internal/controller/configuration_controller.go:349-404 | sweeps first and tears down only behind a clean sweep |
| ConfigurationController.TearDown | internal/controller/configuration_controller.go:361-403 | namespace, then finalizer, or the nodes if the finalizer was gone |
| ConfigurationController.ReleaseNodes | internal/controller/configuration_controller.go:386-403 | drops the finalizer of every listed node that has it |
| ConfigurationController.CollectAddresses | internal/controller/configuration_controller.go:279-285 | collects the non-empty internal addresses in listing order |
| Selector.FirstInternalAddress | internal/controller/configuration_controller.go:406-413 | a node's address is that of its first internal entry, or empty if it has none |
| ConfigurationController.InternalIPOf | internal/controller/configuration_controller.go:406-413 | the first internal address, or the empty string |
| NodeController.Reconcile | internal/controller/node_controller.go:47-84 | wherever a call fails, the server ends in a state of the machine's node pass; if none fails, a live node is held, and a terminating one is kicked, unpublished and let go as its leaders allow, with the whole state and the reported error given case by case; without its only leader a database is never touched |
| NodeController.ReconcileNodeDeletion | internal/controller/node_controller.go:95-128 | databases first, then the status, then the finalizer, with a failing chassis cleanup ending the pass silently |
| NodeController.CleanCentral | internal/controller/node_controller.go:104-116 | kicks northbound, then southbound, then patches the status with exactly the removal |
| NodeController.Unpublish | internal/controller/node_controller.go:111-112 | the slice shift yields exactly the removal and leaves the patch base, which has its own backing array, untouched |
| NodeController.ExecuteOnLeader | internal/controller/node_controller.go:197-212 | a script runs only if exactly one pod carries the leader label |
| HealthController.Reconcile | internal/controller/healthcheck_controller.go:42-78 | it fails only if a call does, and then changes nothing; otherwise a due check of a deployed Configuration is stored and nothing else changes |
| HealthController.ReconcileOVNDBHealth | internal/controller/healthcheck_controller.go:81-137 | the step-by-step check sets exactly the conditions the lemmas speak about, or none if no check is due |
| HealthController.CheckNeeded | internal/controller/healthcheck_controller.go:140-143 | whether the interval has passed since the leader condition was stamped |
| Selector.SelectorMeaning | internal/controller/configuration_controller.go:268-274 | a label is accepted exactly if it is empty or every piece holds one '='; a node is selected exactly if its labels map the trimmed key of every piece to the trimmed value, the last one for a repeated key |
| Selector.TrimMeaning | internal/controller/configuration_controller.go:268 | trimming takes all white space off both ends and nothing else |
| Selector.AffinityMeaning | internal/render/render.go:241-260 | for every label and decoder, the exact label maps the affinity admits: the decoded key with the rest of the label as value, or the key alone if nothing follows |
| Selector.SelectorAgreement | internal/render/render.go:234-269 | among accepted labels and for every YAML decoder, the affinity admits exactly the selected nodes if and only if the label is empty or one pair with a non-empty, unpadded value and a key that YAML reads as that key |
| Selector.BooleanKeyDisagrees | internal/render/render.go:249-253 | a decoder that reads a plain `on` as a boolean makes `on=x` disagree |
| Selector.FirstEqualsSplit | internal/render/render.go:241-246 | the key holds no '=', and key, '=' and value spell the label |
| Selector.ReplicasMatchAdmitted | internal/render/render.go:143-145 | for such a label the replica count is the number of schedulable nodes with an internal address |
| Selector.NodeIpsRoundTrip | internal/render/render.go:125-148 | the replica count is the number of addresses and the user id follows the IPSec switch; splitting NODE_IPS on commas gives back the stored list exactly when the list is non-empty and comma-free |
| Text.SplitJoinRoundTrip | internal/render/render.go:56 | splitting a joined list gives the list back exactly when it is non-empty and separator-free |
| Text.JoinSplitRoundTrip | internal/render/render.go:241-246 | joining the pieces of any string gives the string back |
| Bootstrap.CreateConfigurationWithRetry | internal/bootstrap/configuration.go:138-163 | at most six attempts, none of which alters an existing spec; done exactly when the last attempt ended well; gives up only after six failures and 31 to 34.1 seconds of waiting |
| Bootstrap.AtMostOneSuccess | internal/bootstrap/configuration.go:146-162 | at most one attempt succeeds, and only the last one can |
| Bootstrap.FirstSpecStays | internal/bootstrap/configuration.go:55-67 | if users never edit or delete it, the first spec ever stored stays |
| Bootstrap.LoadAndApplyDefaultConfiguration | internal/bootstrap/configuration.go:55-134 | runs the whole retry loop on the parsed spec exactly if no Configuration was found and the ConfigMap holds one, and otherwise attempts nothing; only a failing first read is an error |

## Left out

- Release.ReleaseSafety: stated for atomic passes, because at API-call granularity its invariant does not hold: concurrent whole-array writes can lose a published address (`Interleaving.LostUpdate`); whether a member is ever released that way is not stated.
- Template text, CRD schemas, RBAC manifests, the Helm chart and kustomize files: data without behaviour.
- The SSL secret, whose content is random; the rest of rendering is an arbitrary deterministic function.
- The template function `include` (looks up a value computed beforehand), the defaulting webhook (fills zero resource quantities with constants) and the generated deep copies: each does one thing without state, and no property of a run depends on it.
- Kubernetes client, cache, watches and requeueing: when a pass runs is arbitrary in the model.
- Validation of label keys and values inside the selector parser: it only rejects more labels.
- The NotFound-or-not distinction of the node controller's first read: any other error there goes on with an empty node whose patch fails, which the model treats as the failing read.
- Remote execution and the cleanup scripts: a kick either fails or removes the address; the chassis cleanup has no modelled effect, and nothing is claimed about the chassis row.
- Two-phase deletion of the owner namespace and of instances: deletion of the namespace takes effect at once, a deleted instance stays marked until the environment removes it.
- `Configuration.status.managedObjects`, which no code writes.
- Events and log lines.
