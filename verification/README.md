# MultiNic operator: a verified model

MultiNic is a Kubernetes operator. For every `OpenstackConfig` object (a "CR") it asks OpenStack for the
servers, the subnet and the ports the spec names, and writes them to a MySQL database in one transaction.
A second controller keeps the database and the controller running. This project models the logic of both
in Dafny and proves what a maintainer relies on: no orphan rows, all-or-nothing passes, foreign keys that
always hold, changes that are never lost in scheduled mode, a bounded rate, exactly one result per request,
caches that answer from their history, and convergence of the managed objects.

## How it is organised

| file | content |
|---|---|
| `Tables.dfy` | the four tables as maps, the SQL statements with UNIQUE keys, foreign keys and `ON DUPLICATE KEY UPDATE` |
| `Rows.dfy` | from OpenStack's answers to rows: target servers, subnet, port of each address |
| `Arguments.dfy` | the loops that build the flat argument arrays, and how the driver binds them |
| `Transaction.dfy` | the transaction as a function and what a committed one leaves behind |
| `Columns.dfy` | column by column, what a committed pass has written |
| `CommitCondition.dfy` | exactly when it commits, renames included |
| `Stability.dfy` | independence of the map iteration order; repetition of a pass |
| `Trigger.dfy` | hash step, trigger policy and interval parsing over runs of passes |
| `Reconciler.dfy` | the database object and the pass as methods with injected failures, proved equal to the pass function |
| `Outcomes.dfy` | outcome, status, delay and tables of a pass, read off its environment |
| `Runs.dfy` | runs of the one controller over many CRs: no change lost, how often a CR is applied, CRs that block each other |
| `World.dfy` | users and controller interleaved step by step; no orphan rows |
| `Projection.dfy` | the step-by-step system as a run of whole visits |
| `Progress.dfy` | how the controller settles an object from any reachable state |
| `Timer.dfy` | the timer predicate and the spacing of the events it admits |
| `ClientPool.dfy`, `HttpClient.dfy`, `TokenBucket.dfy`, `BatchRunner.dfy`, `Caches.dfy` | the concurrency toolkit as interleaved atomic steps with inductive invariants; the caches also as classes over a history of Sets |
| `Operator.dfy` | the operator's get, create or update with partial drift checks, as a class over the live objects |
| `Uncomment.dfy` | the text transformation `UncommentCode` |
| `Common.dfy` | Option, Result, units of time and one fact about sequences |

Code that changes state step by step is modelled by classes and loops and proved equal to a specification
function of the old state; the properties are then lemmas about that function. Failures are inputs: every
statement, API call and commit has a flag for "fails", and a hash write or a commit may also take effect
although its answer is an error. Times are integers passed in; durations are in nanoseconds. Tables are keyed
by their UNIQUE column (`port_id`, `subnet_id`, `attached_node_id`, the CR key); the second UNIQUE key of
`node_table` is part of its type.

## Where the code does less than it seems to

- The spec hash is stored before the apply (openstackconfig_controller.go:1418-1427, against the commit at
  line 774). A failed apply is retried in mode "scheduled" only: `Trigger.RetriedIffScheduled`.
- "immediate" and "webhook" fall into the default branch and act like "manual" (lines 1527-1533).
- A VM recreated under its old name keeps its old `attached_node_id`; a pass with an interface for it fails its
  foreign key and rolls back: `Transaction.RecreatedVmNeverCommits`.
- A VM that is renamed while another CR owns a row under its old name blocks every pass that has it, and two CRs
  that share it block each other: `CommitCondition.RenamedVmNeverCommits`, `Runs.SharedRenameBlocksBoth`. The
  exact condition for a commit is `CommitCondition.PassCommitsIff`.
- A port that another CR owns keeps owner and subnet, but its MAC, node and `netplan_success` are overwritten:
  `Transaction.CommittedPass`.
- Repeating a pass is not always without effect: `Stability.RepeatChangesNothingIffSettled`, with the concrete
  case `Stability.RepeatCanChangeNodes`.
- The timer predicate falls back to one minute, the reconciler to five (lines 1645 and 1525).
- The branch for a missing subnet at lines 596-606 is never reached: a subnet that is not found is an error.
- A cache Get that deletes an expired entry deletes by key and can remove a newer entry that another goroutine
  has stored in between: `Caches.ConcurrentSetCanBeLost`, with the exact condition in
  `Caches.KeyAnswersFromHistoryIff`. Hits are right, as of their load, under every interleaving.
- The ticker's channel holds one tick and the goroutine may hold another between receiving it and offering its
  token, so a late goroutine can add tokens in quick succession. A window can grant its backlog, up to capacity + 2,
  and W / tick + 1 tokens; capacity + W / tick + 1 holds exactly when bucket, hand and ticker channel hold no more
  than the capacity: `TokenBucket.CapacityBoundIff`, `TokenBucket.DefaultLimiterReaches203`. A closed stop channel
  does not change this until the goroutine has seen it.
- A Service of type LoadBalancer, or NodePort without a number, is rewritten by every operator pass once the API
  server has chosen a node port, because that port counts as drift: `Operator.SecondPassIsQuietIffSettled`.
- The drift check cannot see that a live object has no containers: `Operator.OnePassConverges`.
- `UncommentCode` drops a newline at the end of its target and a carriage return before a newline or at the end:
  `Uncomment.ScannerRestoresIff`.

## Model

| member | source | states |
|---|---|---|
| `World.NoOrphanRowsEver` | MultiNic/internal/controller/openstackconfig_controller.go:105-162 | In every state reachable by any mix of user steps (create, edit, delete, at any moment of a pass), controller steps, failures and crashes: every `multi_interface` and `cr_state` row is owned by an existing object that carries the finalizer, all foreign keys hold, and status "Completed" stands only on incarnations for which a transaction took effect |
| `World.GoneObjectsLeaveNothing` | MultiNic/internal/controller/openstackconfig_controller.go:356-361 | A key without an object has no interface row and no stored hash, in every reachable state |
| `World.EditedMeanwhile` | MultiNic/internal/controller/openstackconfig_controller.go:356-361 | When a user edits an object in the middle of a pass over it, the pass writes neither status nor finalizer |
| `World.CompletedIsWritten` | MultiNic/internal/controller/openstackconfig_controller.go:787-797 | A status write that goes through says "Completed"; another changes no object |
| `World.UserStepsTakeEffect` | MultiNic/internal/controller/openstackconfig_controller.go:123-139 | Created, edited and deleted objects are what the users asked for, deletion waiting for finalizers |
| `World.EveryRunKeepsInv` | MultiNic/internal/controller/openstackconfig_controller.go:103-162 | The inductive invariant behind both: while a pass runs on an object it read with the finalizer, that same incarnation stays; after the deletion transaction its rows are gone until the finalizer is |
| `World.StepKeepsInv` | MultiNic/internal/controller/openstackconfig_controller.go:130-151 | Each single step, failed or not, keeps that invariant |
| `Progress.ControllerSettles` | MultiNic/internal/controller/openstackconfig_controller.go:105-162 | From every reachable state, any seven or more controller steps on a key whose own writes succeed settle its object, whatever OpenStack answers and however the apply fails: a deleted object has no row and is gone unless another finalizer holds it; any other carries the finalizer and its spec is the stored one |
| `Progress.StepComesNearer` | MultiNic/internal/controller/openstackconfig_controller.go:105-162 | Each such step decreases the number of steps that remain, or keeps the object settled |
| `Progress.DriveIsRun` | MultiNic/internal/controller/openstackconfig_controller.go:105-162 | Driving the controller step by step continues the run of the system |
| `Progress.DeletionIsAlwaysHeld` | MultiNic/internal/controller/openstackconfig_controller.go:356-361 | In every reachable state an object under deletion is held by some finalizer |
| `Projection.StepsAreVisits` | MultiNic/internal/controller/openstackconfig_controller.go:105-162 | For every run of the system, with edits, failures and crashes anywhere, the tables are those of a run of whole visits, so the theorems about runs hold for it |
| `Projection.StepIsVisit` | MultiNic/internal/controller/openstackconfig_controller.go:105-162 | Each step adds a visit, completes the one under way, or leaves the tables alone; a pass cut off after its hash step counts as one without OpenStack |
| `Projection.StepwisePassIsPass` | MultiNic/internal/controller/openstackconfig_controller.go:105-162 | When nobody interferes, the steps over a live object with the finalizer are the pass: its tables, its persisted status, and nothing else of the object changes |
| `World.HandleGoesOn` | MultiNic/internal/controller/openstackconfig_controller.go:373-412 | The step after Get is the hash step, and goes on to the apply exactly when the policy attempts it |
| `World.ApplyMoves` | MultiNic/internal/controller/openstackconfig_controller.go:608-797 | The apply moves the tables as the pass says; the status is due exactly after a reported commit |
| `Runs.NoScheduledChangeIsLost` | MultiNic/internal/controller/openstackconfig_controller.go:373-412 | Over any run of passes over any CRs and deletions of other CRs: once a pass has got past its hash step, every later scheduled pass, with no other spec seen in between, that gets past its own goes on to OpenStack, whatever failed before and whatever `immediateOnCRChange` says; when it commits, the owned rows are those of the current spec |
| `Runs.HashSurvives` | MultiNic/internal/controller/openstackconfig_controller.go:1407-1432 | While a CR is not deleted and its passes see the same spec, neither those passes nor any visit to another CR change its stored hash, whatever fails |
| `Reconciler.PassIsAllOrNothing` | MultiNic/internal/controller/openstackconfig_controller.go:608-797 | Whichever statement fails or panics, the tables equal those after the hash step or the complete change; "Completed" is persisted only over the complete change |
| `Outcomes.OutcomeOfPass` | MultiNic/internal/controller/openstackconfig_controller.go:368-806 | Which outcome a pass has, each as an if and only if over hash faults, read configuration, clients, listing, subnets, statement faults and commit |
| `Outcomes.StatusOfPass` | MultiNic/internal/controller/openstackconfig_controller.go:456-606 | "Completed" is persisted exactly after a reported commit with a successful status write; "Error" exactly when the pass goes on, the write succeeds, and the network client failed or all answered and no listed server is named in the spec |
| `Outcomes.TablesOfPass` | MultiNic/internal/controller/openstackconfig_controller.go:608-778 | The tables are those of the transaction exactly when all statements run and the commit takes effect, answered or not; else those of the hash step |
| `Outcomes.RequeueOfPass` | MultiNic/internal/controller/openstackconfig_controller.go:373-806 | The requeue delay of every outcome in nanoseconds, in terms of the configuration that was read; it is positive |
| `Reconciler.DeletionIsAllOrNothing` | MultiNic/internal/controller/openstackconfig_controller.go:316-349 | Whichever statement fails, the deletion removes all rows of the CR and nothing else, or nothing at all |
| `Reconciler.PassKeepsForeignKeys` | MultiNic/internal/controller/openstackconfig_controller.go:608-778 | No pass, with any data and any failure, breaks a foreign key |
| `Reconciler.CommittedRowsMatchSpec` | MultiNic/internal/controller/openstackconfig_controller.go:622-797 | After a committed pass the CR owns exactly the rows its spec asks for, minus ports of other CRs, and the spec is the stored one |
| `Reconciler.PassKeepsHash` | MultiNic/internal/controller/openstackconfig_controller.go:1418-1427 | Past the hash step the spec is stored, whether or not the apply then fails |
| `Reconciler.ReconcileNormal` | MultiNic/internal/controller/openstackconfig_controller.go:368-806 | The imperative pass ends in the tables, outcome and persisted status of the pass function on the old tables, for every combination of failures |
| `Reconciler.RunTransaction` | MultiNic/internal/controller/openstackconfig_controller.go:608-778 | The transaction with its deferred rollback: the tables move to the complete change or stay, and the connection has no open transaction afterwards |
| `Reconciler.TryTransaction` | MultiNic/internal/controller/openstackconfig_controller.go:609-778 | Statement by statement, from the flat argument arrays to the commit, the result is the transaction function of the old tables |
| `Reconciler.Observe` | MultiNic/internal/controller/openstackconfig_controller.go:456-606 | Clients, servers and subnet: which obstacle stops the pass before its transaction, and otherwise the chosen servers and subnet |
| `Reconciler.ApplyConfig` | MultiNic/internal/controller/openstackconfig_controller.go:438-805 | From the OpenStack clients to the persisted status |
| `Reconciler.DeleteRows` | MultiNic/internal/controller/openstackconfig_controller.go:316-349 | The deletion transaction, any statement failing |
| `Reconciler.Database.HasChanged` | MultiNic/internal/controller/openstackconfig_controller.go:1376-1435 | The hash step: stored hash and answer, including a failed query, a failed write, and a write whose answer is lost |
| `Reconciler.Database.ExecUpsertNodes` | MultiNic/internal/controller/openstackconfig_controller.go:668-683 | Binding the flat node arguments and running the batch: a failed statement changes nothing |
| `Reconciler.Database.ExecUpsertInterfaces` | MultiNic/internal/controller/openstackconfig_controller.go:755-771 | The same for the interface batch |
| `Reconciler.Database.Commit` | MultiNic/internal/controller/openstackconfig_controller.go:773-778 | The working copy becomes the tables, or is dropped; an answer may be lost after taking effect |
| `Transaction.CommittedPass` | MultiNic/internal/controller/openstackconfig_controller.go:622-771 | For any earlier tables: the CR owns exactly its desired ports minus those of other CRs; every owned row carries the last batch row of its port; other CRs keep exactly their ports, owners, subnet_ids and creation times, and a port named by the batch takes its other columns from the last row; the subnet row holds the columns of the change and keeps its creation time |
| `Columns.CommittedColumns` | MultiNic/internal/controller/openstackconfig_controller.go:622-771 | Column by column, what a committed pass has written: the subnet row; every node row (stamped active with the time of the pass or untouched, creation times kept, every target reaching a row, others kept); every own row from the last batch row of its port; every foreign row kept, or overwritten but for owner, subnet and creation time |
| `Columns.NodeBatchColumns` | MultiNic/internal/controller/openstackconfig_controller.go:669-677 | The node part, for any batch with one status and one pair of times |
| `Columns.NodeRowsOfTargets` | MultiNic/internal/controller/openstackconfig_controller.go:658-665 | The node batch has one row per target, in order, with its id and name, active |
| `Transaction.ApplyInClosedForm` | MultiNic/internal/controller/openstackconfig_controller.go:622-771 | A committed transaction as one merge of the foreign rows with the batch |
| `Transaction.InterfaceBatch` | MultiNic/internal/controller/openstackconfig_controller.go:755-766 | The batched upsert commits if and only if every row's node id and name exist, and then equals that merge |
| `Transaction.LastRowIsLast` | MultiNic/internal/controller/openstackconfig_controller.go:757-761 | The row that decides a repeated port is the last one in batch order |
| `Transaction.AgreeingPassCommits` | MultiNic/internal/controller/openstackconfig_controller.go:638-682 | When ids and names of the targets agree one-to-one with each other and with `node_table`, no UNIQUE or FOREIGN KEY constraint is violated, and all foreign keys hold afterwards |
| `Transaction.AgreeingNodesCommit` | MultiNic/internal/controller/openstackconfig_controller.go:1000-1008 | The node part of it: after the batch every target stands under its id with its name |
| `CommitCondition.PassCommitsIff` | MultiNic/internal/controller/openstackconfig_controller.go:638-769 | The exact commit condition for any tables and any server list, renames and repeated ids or names included: every row for a node known under another name finds its new name free at its turn and its old name not referenced by a row of another CR, and every interface's node id and name are in the table once the batch is through; all of it read off the batch and the earlier tables |
| `CommitCondition.NodeBatchIff` | MultiNic/internal/controller/openstackconfig_controller.go:669-677 | The node batch part: it succeeds if and only if each of its renames passes, and then leaves exactly the id and name pairs that the batch and the earlier table determine |
| `CommitCondition.PassCommitsIffNoStaleName` | MultiNic/internal/controller/openstackconfig_controller.go:669-674 | In particular, without renames: the pass commits if and only if no interface belongs to a VM whose name `node_table` holds under another id |
| `CommitCondition.RenamedVmNeverCommits` | MultiNic/internal/controller/openstackconfig_controller.go:669-674 | A VM renamed while another CR owns a row under its old name: a pass with that VM never commits, whatever else is in tables and batch (the foreign key restricts the update) |
| `CommitCondition.ReferencedNameStays` | MultiNic/internal/controller/openstackconfig_controller.go:1023-1026 | A node whose name an interface row refers to keeps it through any batch that succeeds |
| `CommitCondition.LandedUnderItsName` | MultiNic/internal/controller/openstackconfig_controller.go:669-674 | When equal ids carry equal names, a target whose id is in the table in the end stands there under its own name |
| `Runs.SharedRenameBlocksBoth` | MultiNic/internal/controller/openstackconfig_controller.go:622-769 | Two CRs share a VM and the VM is renamed: over any run that follows, with any other CRs, no pass of either commits or changes more than its stored hash, until one is deleted, drops the VM or loses its row |
| `Runs.AppliesAreAttempts` | MultiNic/internal/controller/openstackconfig_controller.go:373-412 | Over any run of visits, the passes of a CR that go on to OpenStack are exactly the attempts of the trigger policy on the hash table |
| `Runs.AppliesAreChanges` | MultiNic/internal/controller/openstackconfig_controller.go:373-412 | So outside scheduled mode a CR is applied once for first sight and once for every recorded change, whatever other CRs do in between |
| `Runs.PolicyDecides` | MultiNic/internal/controller/openstackconfig_controller.go:405-412 | A pass ends in the hash error or the skip if and only if the policy makes no attempt |
| `Runs.PolicyRecords` | MultiNic/internal/controller/openstackconfig_controller.go:1376-1435 | The stored hash after a pass is that of its hash step |
| `Transaction.RecreatedVmNeverCommits` | MultiNic/internal/controller/openstackconfig_controller.go:1002-1025 | A VM recreated under its old name with a new id keeps the old id in `node_table`, so a pass with an interface for it never commits |
| `Transaction.ApplyKeepsForeignKeys` | MultiNic/internal/controller/openstackconfig_controller.go:1009-1027 | A committed transaction keeps every foreign key of every CR, for any data |
| `Tables.UpsertNodeKeepsForeignKeys` | MultiNic/internal/controller/openstackconfig_controller.go:669-674 | One node upsert, by id or by name, leaves every interface reference in place |
| `Tables.UpsertNodesKeepsForeignKeys` | MultiNic/internal/controller/openstackconfig_controller.go:669-682 | The whole node batch does |
| `Tables.NodeBatchTouchesNodesOnly` | MultiNic/internal/controller/openstackconfig_controller.go:669-676 | The node batch changes `node_table` and nothing else |
| `Tables.UpsertInterfacesKeepsForeignKeys` | MultiNic/internal/controller/openstackconfig_controller.go:756-769 | So does the interface batch |
| `Stability.VisitingOrderDoesNotMatter` | MultiNic/internal/controller/openstackconfig_controller.go:701-750 | When equal ports of one VM carry equal MACs, tables or error of the transaction do not depend on the order in which the address map is iterated |
| `Stability.RepeatChangesNothingIffSettled` | MultiNic/internal/controller/openstackconfig_controller.go:622-771 | Repeating a pass on its own result commits and changes only `modified_at` if and only if every target already finds its id with its name, or its unknown id finds its name; a server may be listed twice under one name |
| `Stability.RepeatWithoutRenamesChangesNothing` | MultiNic/internal/controller/openstackconfig_controller.go:622-771 | So it does after every committed pass without renames |
| `Stability.AgreeingRepeatChangesNothing` | MultiNic/internal/controller/openstackconfig_controller.go:622-771 | And whenever ids and names agree with `node_table` beforehand, where the first pass commits too |
| `Stability.RepeatCanChangeNodes` | MultiNic/internal/controller/openstackconfig_controller.go:669-674 | A concrete batch with a rename whose repetition adds a node |
| `Stability.LaterIsTheLaterPass` | MultiNic/internal/controller/openstackconfig_controller.go:635-665 | The repeated pass differs from the first in its modification time only |
| `Arguments.BuildNodeBatch` | MultiNic/internal/controller/openstackconfig_controller.go:658-665 | The node loop's flat array holds five values per placeholder and binds to one row per target VM, in order |
| `Arguments.BuildInterfaceBatch` | MultiNic/internal/controller/openstackconfig_controller.go:685-752 | The interface loops' flat array holds eleven values per placeholder and binds to the desired rows, in order; they panic exactly when an address type is not a string |
| `Arguments.AppendServer` | MultiNic/internal/controller/openstackconfig_controller.go:701-750 | One server: its address lists in visiting order |
| `Arguments.AppendAddresses` | MultiNic/internal/controller/openstackconfig_controller.go:703-749 | One address list |
| `Arguments.AppendAddress` | MultiNic/internal/controller/openstackconfig_controller.go:704-748 | One address appends its row's values or nothing |
| `Arguments.Inspect` | MultiNic/internal/controller/openstackconfig_controller.go:706-736 | Skipped, panicking or contributing, branch by branch |
| `Arguments.ResolvePort` | MultiNic/internal/controller/openstackconfig_controller.go:716-736 | The address's own port, else the one found by MAC, else none |
| `Arguments.BindOneMoreNode` | MultiNic/internal/controller/openstackconfig_controller.go:663-664 | One more group of five values is exactly one more row |
| `Arguments.BindOneMoreInterface` | MultiNic/internal/controller/openstackconfig_controller.go:739-742 | One more group of eleven values is exactly one more row |
| `Arguments.NodeArgumentCount` | MultiNic/internal/controller/openstackconfig_controller.go:659-664 | Whatever binds to n placeholders has 5n values and n rows |
| `Arguments.ValuesFollowColumns` | MultiNic/internal/controller/openstackconfig_controller.go:740-757 | The values of a row stand in the order of the column list of their statement |
| `Arguments.InterfaceArgumentCount` | MultiNic/internal/controller/openstackconfig_controller.go:686-742 | Whatever binds to n placeholders has 11n values and n rows |
| `Rows.SelectTargets` | MultiNic/internal/controller/openstackconfig_controller.go:560-572 | The set built from the names and the server loop select the target list |
| `Rows.TargetsAreTheNamedServers` | MultiNic/internal/controller/openstackconfig_controller.go:567-572 | A server is a target if and only if it is listed and named in the spec |
| `Rows.FindSubnet` | MultiNic/internal/controller/openstackconfig_controller.go:849-971 | Over attempts and networks, with anything unreadable skipped: the first visible subnet of the wanted name, or none |
| `Rows.SearchListings` | MultiNic/internal/controller/openstackconfig_controller.go:903-964 | The network loop of one attempt, unreadable networks skipped |
| `Rows.SearchSubnets` | MultiNic/internal/controller/openstackconfig_controller.go:947-963 | The loop over one network's subnets returns the first of the name |
| `Rows.FirstNamed` | MultiNic/internal/controller/openstackconfig_controller.go:948-962 | Found: the first of that name, none before it; not found: none anywhere |
| `Rows.MatchPort` | MultiNic/internal/controller/openstackconfig_controller.go:1317-1337 | The port loop returns the first port with a fixed IP in the subnet |
| `Rows.PortInSubnet` | MultiNic/internal/controller/openstackconfig_controller.go:1318-1334 | That port is in the subnet and no earlier one is |
| `Rows.AddressRowsMember` | MultiNic/internal/controller/openstackconfig_controller.go:703-748 | A row comes from a server's addresses if and only if one of them contributes its port and MAC |
| `Rows.ServerRowsIff` | MultiNic/internal/controller/openstackconfig_controller.go:701-748 | Said of the addresses alone: a row of a server exists if and only if one of its addresses has type "fixed", the row's MAC, and the row's port, named or found as the first port of an answered query in the subnet; the row is active, not applied, and carries server, owner, subnet and times |
| `Rows.DesiredRowsIff` | MultiNic/internal/controller/openstackconfig_controller.go:690-752 | The same for all targets of a pass |
| `Rows.BuildPanicsIff` | MultiNic/internal/controller/openstackconfig_controller.go:706-710 | Building panics if and only if some address has a MAC that is not null and a type that is neither null nor a string |
| `Rows.PortOfIsResolved` | MultiNic/internal/controller/openstackconfig_controller.go:716-736 | The port rule in terms of the address and its query |
| `Rows.DesiredRowsInOrder` | MultiNic/internal/controller/openstackconfig_controller.go:690-752 | Rows come server by server, in order |
| `Rows.TargetsInOrder` | MultiNic/internal/controller/openstackconfig_controller.go:567-572 | Targets keep the order and repetitions of the list |
| `Rows.VisibleMember` | MultiNic/internal/controller/openstackconfig_controller.go:852-964 | A subnet is visible exactly when some attempt lists the networks and reads one that has it |
| `Rows.VisibleInOrder` | MultiNic/internal/controller/openstackconfig_controller.go:852-964 | Earlier attempts come first |
| `Rows.DesiredRowsMember` | MultiNic/internal/controller/openstackconfig_controller.go:690-752 | Every row of the batch belongs to a target server and carries the pass's owner, subnet and times |
| `Trigger.RetriedIffScheduled` | MultiNic/internal/controller/openstackconfig_controller.go:1479-1535 | After a pass has recorded a spec, a later pass over the same spec reaches the apply if and only if its hash step succeeds and its mode is "scheduled": there a failed apply is retried, elsewhere never |
| `Trigger.ScheduledSkipIsPostponed` | MultiNic/internal/controller/openstackconfig_controller.go:1498-1513 | A change skipped in scheduled mode is applied by the next scheduled pass that sees it |
| `Trigger.ManualAppliesOncePerChange` | MultiNic/internal/controller/openstackconfig_controller.go:1376-1435 | Outside scheduled mode, over one CR's lifetime: applies plus lost hash answers equal one for first sight plus adjacent recorded specs that differ |
| `Trigger.ManualAppliesEqualChanges` | MultiNic/internal/controller/openstackconfig_controller.go:1488-1534 | Without lost answers the applies are exactly the changes |
| `Trigger.HashStaysWhileSpecStays` | MultiNic/internal/controller/openstackconfig_controller.go:1407-1432 | While the spec stays, so does the stored hash, whatever fails |
| `Trigger.ShouldReconcile` | MultiNic/internal/controller/openstackconfig_controller.go:1479-1535 | Every skipped pass asks to be requeued after at least a minute |
| `Trigger.PolicyIs` | MultiNic/internal/controller/openstackconfig_controller.go:1479-1535 | When a pass goes on, for every mode, and how long a skipped one waits |
| `Trigger.NextIntervalIs` | MultiNic/internal/controller/openstackconfig_controller.go:1538-1553 | How long a pass that went on waits, for every mode |
| `Trigger.ConfigDefaults` | MultiNic/internal/controller/openstackconfig_controller.go:388-396 | Fallback to manual, defaults without an operator, the first operator otherwise |
| `Trigger.HashStepIs` | MultiNic/internal/controller/openstackconfig_controller.go:1376-1435 | When the hash step answers, what it answers, and what is stored afterwards |
| `Trigger.ScheduledPeriod` | MultiNic/internal/controller/openstackconfig_controller.go:1498-1545 | In scheduled mode running and waiting passes use one period, clamped to a minute or five minutes by default |
| `Trigger.NextInterval` | MultiNic/internal/controller/openstackconfig_controller.go:1538-1553 | Every requeue delay is at least a minute |
| `Trigger.ParseInterval` | MultiNic/internal/controller/openstackconfig_controller.go:1556-1573 | Zero exactly for an unset or malformed interval, otherwise at least a minute |
| `Timer.TimerBasedPredicate.ShouldReconcileBasedOnTimer` | MultiNic/internal/controller/openstackconfig_controller.go:1612-1658 | Which event is admitted, and the new map of last admissions |
| `Timer.TimerBasedPredicate.Update` | MultiNic/internal/controller/openstackconfig_controller.go:1597-1605 | A new generation always passes and leaves the timer alone |
| `Timer.AdmissionsSpan` | MultiNic/internal/controller/openstackconfig_controller.go:1633-1654 | n + 1 timer-gated admissions of one object span at least n * d, for any run with events of other objects in between and intervals of at least d at each admission |
| `Timer.AdmissionsSpanMinutes` | MultiNic/internal/controller/openstackconfig_controller.go:1643-1651 | At least n minutes, however the interval is edited during the run |
| `Timer.GatedIff` | MultiNic/internal/controller/openstackconfig_controller.go:1633-1654 | A timer-gated event is admitted, and recorded, if and only if it is the object's first or its configured interval has gone by since the object's last admission |
| `Timer.UngatedIff` | MultiNic/internal/controller/openstackconfig_controller.go:1612-1631 | Which events are gated; of the others, unreadable configuration and unknown modes admit, the named modes refuse, and none touches the timer |
| `Timer.OtherKeysStay` | MultiNic/internal/controller/openstackconfig_controller.go:1634-1651 | An event leaves the admissions of other objects alone |
| `Timer.TimerIntervalIs` | MultiNic/internal/controller/openstackconfig_controller.go:1685-1700 | The interval: a minute when unset, malformed or shorter |
| `Timer.AdmissionsAreSpaced` | MultiNic/internal/controller/openstackconfig_controller.go:1648-1651 | Neighbouring admissions are at least the later one's interval apart |
| `Timer.StampIsLastAdmission` | MultiNic/internal/controller/openstackconfig_controller.go:1635-1651 | The stored time is that of the object's last admission |
| `Timer.KeyInjective` | MultiNic/internal/controller/openstackconfig_controller.go:1634 | Different objects have different timer keys |
| `ClientPool.PoolIsConserved` | MultiNic/internal/controller/openstackconfig_performance_optimized.go:256-294 | For every interleaving of Get and Put of held clients: created <= maxSize, idle + held = created, no client in two places, no Put discards |
| `ClientPool.HandedOutClientsAreFree` | MultiNic/internal/controller/openstackconfig_performance_optimized.go:265-285 | A Get never hands out a client that somebody holds, be it idle, waited for or newly made |
| `ClientPool.IdleClientIsTaken` | MultiNic/internal/controller/openstackconfig_performance_optimized.go:266-268 | A Get with an idle client takes the oldest at once |
| `ClientPool.WaitingGetLocks` | MultiNic/internal/controller/openstackconfig_performance_optimized.go:270-271 | A waiting Get takes the mutex exactly when it is free |
| `ClientPool.SizeDecides` | MultiNic/internal/controller/openstackconfig_performance_optimized.go:273-283 | Below the maximum it creates, at the maximum it waits |
| `ClientPool.FactoryErrorEndsGet` | MultiNic/internal/controller/openstackconfig_performance_optimized.go:274-277 | A factory error ends the Get, frees the mutex and counts nothing |
| `ClientPool.NewClientIsHandedOut` | MultiNic/internal/controller/openstackconfig_performance_optimized.go:274-279 | A new client is counted once and handed out |
| `ClientPool.PutMakesIdle` | MultiNic/internal/controller/openstackconfig_performance_optimized.go:288-294 | A Put makes a held client the newest idle one |
| `ClientPool.BlockedGetCanBeServed` | MultiNic/internal/controller/openstackconfig_performance_optimized.go:282-294 | With maxSize > 0 a Get blocked while holding the mutex coexists with a holder, and that holder's lock-free Put lets it return |
| `ClientPool.EmptyPoolNeverServes` | MultiNic/internal/controller/openstackconfig_performance_optimized.go:273-283 | With maxSize 0 such a Get never returns |
| `ClientPool.StepKeepsInv` | MultiNic/internal/controller/openstackconfig_performance_optimized.go:265-294 | The inductive invariant over every atomic step |
| `HttpClient.OneClientForAll` | MultiNic/internal/controller/openstackconfig_controller.go:264-282 | Under every interleaving of any number of callers at most one client is built and all callers, early or late, return it |
| `HttpClient.FieldIsStable` | MultiNic/internal/controller/openstackconfig_controller.go:276-281 | Once set, the field never changes |
| `HttpClient.SomeCallerCanAdvance` | MultiNic/internal/controller/openstackconfig_controller.go:264-282 | No deadlock: while there are callers one can make a step |
| `HttpClient.AdvanceComesNearer` | MultiNic/internal/controller/openstackconfig_controller.go:264-282 | Every step made brings the caller nearer to its return |
| `HttpClient.ReturnsTheField` | MultiNic/internal/controller/openstackconfig_controller.go:266-281 | A returning call hands over the field |
| `TokenBucket.BucketLaw` | MultiNic/internal/controller/openstackconfig_performance_optimized.go:203-248 | In every run: granted + level + dropped = capacity + tokens offered, and level <= capacity |
| `TokenBucket.TokensAreConserved` | MultiNic/internal/controller/openstackconfig_performance_optimized.go:222-247 | The same from any starting level |
| `TokenBucket.TicksAreConserved` | MultiNic/internal/controller/openstackconfig_performance_optimized.go:232-247 | Every tick is granted, lost by the full ticker channel, dropped by the full bucket, or still in the backlog of bucket, goroutine and ticker channel |
| `TokenBucket.WindowBound` | MultiNic/internal/controller/openstackconfig_performance_optimized.go:206 | A window of length W grants at most capacity + W / tick + 1 tokens when tokens are offered a tick apart, tick being the integer quotient interval / capacity |
| `TokenBucket.WindowBoundIff` | MultiNic/internal/controller/openstackconfig_performance_optimized.go:232-247 | The exact bound with a regular ticker and a goroutine that may be late between any two channel operations: for any bound from the capacity up, the windows of any width after a run grant at most bound + W / tick + 1 if and only if the goroutine has returned or the backlog after the run is at most the bound |
| `TokenBucket.CapacityBoundIff` | MultiNic/internal/controller/openstackconfig_performance_optimized.go:232-247 | In particular capacity + W / tick + 1 holds if and only if the goroutine has returned or bucket, hand and ticker channel together hold no more than the capacity |
| `TokenBucket.BacklogIsReached` | MultiNic/internal/controller/openstackconfig_performance_optimized.go:232-247 | Until the goroutine returns, after every run and for every width there is a window that grants exactly the backlog + W / tick + 1 |
| `TokenBucket.WindowBoundByBacklog` | MultiNic/internal/controller/openstackconfig_performance_optimized.go:232-247 | No window grants more than the backlog at its start + W / tick + 1, so never more than capacity + W / tick + 3 |
| `TokenBucket.WindowGrants` | MultiNic/internal/controller/openstackconfig_performance_optimized.go:222-247 | The grants of any stretch of a run are bounded by capacity plus the tokens offered in it, and by the backlog at its start plus its ticks |
| `TokenBucket.DefaultLimiter` | MultiNic/internal/controller/openstackconfig_performance_optimized.go:86 | The limiter of 100 per second never grants more than 203 in any second, and no more than 201 unless bucket, hand and ticker channel hold more than 100 when the second starts |
| `TokenBucket.DefaultLimiterReaches203` | MultiNic/internal/controller/openstackconfig_performance_optimized.go:86 | 203 are reached: the goroutine takes a tick and is delayed while the next one fires |
| `TokenBucket.StopEndsTheGoroutine` | MultiNic/internal/controller/openstackconfig_performance_optimized.go:244-253 | After Stop the goroutine can always return, having offered the token in its hand |
| `BatchRunner.ExactlyOneResultPerRequest` | MultiNic/internal/controller/openstackconfig_performance_optimized.go:314-349 | For every schedule and cancellation point: when the channel is closed the results carry exactly the multiset of request ids |
| `BatchRunner.NeverTwoResults` | MultiNic/internal/controller/openstackconfig_performance_optimized.go:324-341 | At no time has a request two results |
| `BatchRunner.AtMostTenAtOnce` | MultiNic/internal/controller/openstackconfig_performance_optimized.go:316-336 | Never more than ten requests run at once |
| `BatchRunner.ClosedMeansAllSent` | MultiNic/internal/controller/openstackconfig_performance_optimized.go:345-348 | Results is closed only after the last send; every goroutine is finished |
| `BatchRunner.ProgressDecreasesMeasure` | MultiNic/internal/controller/openstackconfig_performance_optimized.go:318-348 | Every step but a refill tick, or another user taking a token, decreases a measure; those leave it unchanged |
| `BatchRunner.BoundedSteps` | MultiNic/internal/controller/openstackconfig_performance_optimized.go:318-348 | So n requests take at most 8n + 3 goroutine steps |
| `BatchRunner.NeverStuck` | MultiNic/internal/controller/openstackconfig_performance_optimized.go:318-348 | Until the channel is closed some goroutine can move, at the latest after the next refill, and at once after a cancellation |
| `BatchRunner.TokensAreSpent` | MultiNic/internal/controller/openstackconfig_performance_optimized.go:324-330 | In every run: tokens left + requests that passed the limiter + tokens taken by others = starting tokens + refills |
| `BatchRunner.RequestsAreRateLimited` | MultiNic/internal/controller/openstackconfig_performance_optimized.go:323-336 | So no more requests start than there were tokens at the start and refills since |
| `BatchRunner.StartedHavePassed` | MultiNic/internal/controller/openstackconfig_performance_optimized.go:324-336 | Every request that starts has passed the limiter |
| `BatchRunner.NothingWithoutTokens` | MultiNic/internal/controller/openstackconfig_performance_optimized.go:324-330 | Without a token, a refill or a cancellation no request gets past the limiter |
| `Caches.RunsAnswerFromHistory` | MultiNic/internal/controller/openstackconfig_performance_optimized.go:149-200 | For any run of Sets, Gets and sweeps at nondecreasing times, without a harmful late delete: later Gets answer exactly what the latest unexpired Set says |
| `Caches.KeyAnswersFromHistoryIff` | MultiNic/internal/controller/openstackconfig_performance_optimized.go:149-200 | For every run at nondecreasing times, late deletes included, and every key: later Gets answer from the history if and only if the latest Set was not removed by a late delete before its expiry, or has expired by now |
| `Caches.EveryRunKeepsKeyInv` | MultiNic/internal/controller/openstackconfig_performance_optimized.go:149-200 | What is stored for a key is its latest Set or nothing, in every run |
| `Caches.HitsAreAlwaysRight` | MultiNic/internal/controller/openstackconfig_performance_optimized.go:149-200 | Under every interleaving a hit is, as of its load, the latest Set of its key and has not expired |
| `Caches.LateDeleteAgreesIffHarmless` | MultiNic/internal/controller/openstackconfig_performance_optimized.go:181-189 | A delete by key that comes after a concurrent Set keeps the answers right if and only if the entry it removes is itself expired |
| `Caches.ConcurrentSetCanBeLost` | MultiNic/internal/controller/openstackconfig_performance_optimized.go:150-160 | A concrete interleaving in which a live Set is lost |
| `Caches.SetAgrees` | MultiNic/internal/controller/openstackconfig_performance_optimized.go:194-200 | A Set keeps stored entries and history in agreement |
| `Caches.CleanupAgrees` | MultiNic/internal/types/optimization.go:79-109 | Delete-on-read and sweeps never change a later answer |
| `Caches.SweepDropsExpired` | MultiNic/internal/types/optimization.go:95-109 | After a sweep nothing past its expiry is stored and the rest is as it was |
| `Caches.GetDropsExpired` | MultiNic/internal/types/optimization.go:79-92 | A Get removes the entry of its key exactly from its expiry on, and no other |
| `Caches.AnsweredUntilExpiry` | MultiNic/internal/types/optimization.go:68-92 | A Set is answered until its expiry and not from then on |
| `Caches.TokenCache.SetToken` | MultiNic/internal/controller/openstackconfig_performance_optimized.go:166-172 | The token is kept for its lifetime less five minutes |
| `Caches.TokenCache.GetToken` | MultiNic/internal/controller/openstackconfig_performance_optimized.go:149-163 | The answer of the history; a hit has more than five minutes of real lifetime left |
| `Caches.NetworkCache.SetNetwork` | MultiNic/internal/controller/openstackconfig_performance_optimized.go:194-200 | The entry is kept for the cache's lifetime |
| `Caches.NetworkCache.GetNetwork` | MultiNic/internal/controller/openstackconfig_performance_optimized.go:182-191 | The answer of the history |
| `Caches.SimpleMemoryCache.Set` | MultiNic/internal/types/optimization.go:68-76 | The entry is kept for the TTL, its access count starts at zero |
| `Caches.SimpleMemoryCache.Get` | MultiNic/internal/types/optimization.go:79-92 | The answer of the history; a hit adds one access |
| `Caches.SimpleMemoryCache.Cleanup` | MultiNic/internal/types/optimization.go:95-109 | One tick drops exactly the entries past their expiry, in any range order |
| `Operator.OnePassConverges` | MultiNic/internal/controller/multinicoperator_controller.go:271-389 | From any cluster state one failure-free pass makes StatefulSet and Deployment agree in replicas and image, except exactly when a live object without containers had the right replicas, and makes the Service agree in type and ports |
| `Operator.SecondPassIsQuietIffSettled` | MultiNic/internal/controller/multinicoperator_controller.go:437-464 | A second pass on the undisturbed cluster writes no spec if and only if the Service is to be ClusterIP or NodePort with an explicit number, or was live as desired from the start, as a LoadBalancer stored without node ports is |
| `Operator.WorkloadConverges` | MultiNic/internal/controller/multinicoperator_controller.go:392-435 | Per workload: when one pass reaches the desired fields, what it does to the uncompared rest, and that the next pass is quiet |
| `Operator.ServiceConverges` | MultiNic/internal/controller/multinicoperator_controller.go:330-348 | Per Service: agreement after one pass, quiet or endlessly rewriting afterwards, cluster IP kept |
| `Operator.DisabledDatabaseIsLeftAlone` | MultiNic/internal/controller/multinicoperator_controller.go:155-177 | With the database disabled StatefulSet and Service are never touched |
| `Operator.DisabledDatabaseConverges` | MultiNic/internal/controller/multinicoperator_controller.go:179-192 | The Deployment then converges on its own and the second pass writes nothing |
| `Operator.WorkloadDriftIff` | MultiNic/internal/controller/multinicoperator_controller.go:392-435 | Which drift the check sees |
| `Operator.WorkloadPassIs` | MultiNic/internal/controller/multinicoperator_controller.go:280-302 | A workload is written exactly when it is missing or drifted and no call fails; which calls count |
| `Operator.ServicePassIs` | MultiNic/internal/controller/multinicoperator_controller.go:310-349 | The same for the Service, with its cluster IP |
| `Operator.FailureEndsPass` | MultiNic/internal/controller/multinicoperator_controller.go:155-192 | The first failed call ends the pass and what comes after it is left alone |
| `Operator.ReadyIff` | MultiNic/internal/controller/multinicoperator_controller.go:224-257 | When a component is ready, and the reason otherwise |
| `Operator.AllReadyIff` | MultiNic/internal/controller/multinicoperator_controller.go:151-210 | All components are reported ready exactly after a successful pass over live objects that are |
| `Operator.Cluster.ReconcileDatabase` | MultiNic/internal/controller/multinicoperator_controller.go:271-352 | Live objects, spec writes and success, any of the calls failing |
| `Operator.Cluster.ReconcileController` | MultiNic/internal/controller/multinicoperator_controller.go:355-389 | The same for the Deployment; nothing else is touched |
| `Operator.Cluster.ReconcileComponents` | MultiNic/internal/controller/multinicoperator_controller.go:151-210 | Both in order, stopping at the first failure, with one status per component reached |
| `Operator.CompareServices` | MultiNic/internal/controller/multinicoperator_controller.go:438-464 | The comparison loop answers true exactly when type, number of ports or some port differs |
| `Operator.AllComponentsReady` | MultiNic/internal/controller/multinicoperator_controller.go:261-268 | True exactly when there is a component and all are ready |
| `Operator.BuildConditions` | MultiNic/internal/controller/multinicoperator_controller.go:525-558 | The overall condition is true exactly when all components are ready; one condition per component follows, in order |
| `Operator.DesiredService` | MultiNic/internal/controller/multinicoperator_helpers.go:251-317 | The configured type when valid, else ClusterIP; one port with the configured number or 3306 to target 3306; a node port exactly for type NodePort with a number |
| `Operator.DesiredStatefulSet` | MultiNic/internal/controller/multinicoperator_helpers.go:70-102 | One replica and a non-empty image, the configured one if given |
| `Operator.DesiredDeployment` | MultiNic/internal/controller/multinicoperator_helpers.go:328-375 | At least one replica and a non-empty image, the configured ones if given |
| `Uncomment.UncommentRestores` | MultiNic/test/utils/utils.go:206-254 | Commenting a block line by line and uncommenting it restores the text, everything around it unchanged |
| `Uncomment.UncommentCode` | MultiNic/test/utils/utils.go:206-254 | Error, untouched file, or the first occurrence replaced by its trimmed lines and nothing else changed |
| `Uncomment.PrefixIsTrimmedOnce` | MultiNic/test/utils/utils.go:231 | The prefix goes once from a line that has it; any other line is kept |
| `Uncomment.OtherLinesAreKept` | MultiNic/test/utils/utils.go:230-241 | A block of lines without the prefix is written as the scanner reads it |
| `Uncomment.TrimLines` | MultiNic/test/utils/utils.go:226-241 | The scanner loop writes the trimmed lines with newlines between them |
| `Uncomment.Index` | MultiNic/test/utils/utils.go:215-218 | The first occurrence, or none |
| `Uncomment.ScanJoined` | MultiNic/test/utils/utils.go:226-235 | The scanner splits a block of plain lines into exactly its lines |
| `Uncomment.ScannerRestoresIff` | MultiNic/test/utils/utils.go:226-241 | Splitting the target and joining it again gives it back if and only if it neither ends in a newline nor has a carriage return at its end or directly before a newline |
| `Uncomment.FinalNewlineIsLost` | MultiNic/test/utils/utils.go:226-241 | For every non-empty target: a further newline adds no line, except an empty one after another newline |

## Left out

- HTTP, JSON, authentication and TLS: server, subnet and port answers are arbitrary inputs that may fail; an address list or address of the wrong JSON type, which panics, is not representable, an address type of the wrong type is.
- The MySQL driver, connections, pings and reconnection: an operation without a connection is a failed operation.
- Auto-increment ids, `deleted_at`, `last_updated`, column lengths, NULL node columns and case-insensitive collation: keys are compared exactly.
- SHA-256 and JSON in `calculateCRHash`: the nine fields stand for the hash, so the hash is taken to be injective.
- `time.ParseDuration`: an interval is unset, malformed or a number of nanoseconds.
- Status messages, `VMNetworkInfos` and metrics: no decision depends on them.
- The number of OpenStack retries and their sleeps: the list of attempts has any length.
- Create and Delete events of the timer predicate: they always pass.
- Delays of the ticker itself: its ticks are at least a tick apart. A grant is the moment an Acquire receives its token, not the moment it returns.
- Leader election, a second reconciler and stale caches: one reconciler runs one pass at a time, as `MaxConcurrentReconciles` 1 sets it.
- Removal of the controller's finalizer by somebody else.
- Panics inside a batched request or inside the pool's factory, and a reader that abandons the result channel.
- The pool's factory returns a client it has not returned before.
- Pod template details beyond replicas and images: one uncompared field stands for them; selector and labels of the Service are not modelled.
- Readiness answers other than missing, not ready, partly ready and ready, and the operator's phase and requeue selection: single branches.
- Protection labels, the webhook, `SimpleRetry`, `SimpleMetrics`, the HTTP client pool of the types package, endpoint normalisation and defaults from the environment: each settled by one branch or a short loop.
- File access and the scanner's limit on line length in `UncommentCode`: the text before and after is modelled.
