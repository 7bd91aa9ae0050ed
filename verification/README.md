# WCN: a verified model of the replicated store and its migrations

WCN is a last-writer-wins key/value store. A coordinator sends each operation to
the five replicas of its shard and answers by majority. The operators that hold
a shard can change while the store is serving traffic: a contract starts a
migration, writes are shadowed to the new replica set, and every operator new to
a shard pulls it from the operator it replaces.

This project models the code that has to fit together for that to be safe, and
proves what it promises. Time, clocks, the order in which responses arrive,
disk failures and hash values are parameters of the model and are arbitrary
unless a lemma says otherwise. `dafny verify dfyconfig.toml` checks everything.

| module | what it models |
|---|---|
| `Context` | merge operands, record contexts, the loops of the RocksDB merge operator |
| `Import`, `Export` | streaming a shard out of one database and into another |
| `Keys`, `Scan` | key encoding, prefix iteration, map pages and cursors, cardinality |
| `Sharding` | positions, shards, rendezvous selection of replicas |
| `ReplicaSets` | who pulls from whom when a replica set changes |
| `NodeOperators`, `ClusterView` | operator slots, event replay, versions and time windows |
| `ViewEvents` | why a view refuses an event, what an event changes |
| `SmartContract`, `Transactions`, `Replay` | the contract as a state machine, what it accepts and changes, snapshots against replay |
| `UpdateTask` | the task that replays events and reads the contract again when that fails |
| `Database` | what operations do to the records of a replica, and what reads reply |
| `Quorums`, `Reconciliation`, `ReadRepair`, `Coordinator` | a replicated operation from requests to answer and repairs |
| `MapPaging`, `PagingInputs` | following the cursors of reconciled pages, and stores on which that goes wrong |
| `MigrationSafety`, `MigrationSetting` | writes and pulls during a migration, over whole runs |
| `Throttle` | the credit account of a bandwidth limited stream |
| `Bytes`, `Sets`, `Filters`, `Storage`, `Wrappers` | shared definitions |

The main results:

- `MigrationSafety.NoAcknowledgedWriteLost`: over every run of writes, clock
  ticks, validations, executions, retried and interrupted pulls, an acknowledged
  write is stored at its version or later by a majority of the new replicas once
  the pulls are done. It needs no bound on clock skew, only that an accepted
  operation executes within the leeway of two seconds.
- `UpdateTask.NodeAlwaysTracks`: under every schedule of transactions, late
  deliveries, refused events and reads that fail or come late, a node's view is
  one of the contract state of the view's own version.
- `Replay.ReplayAgreesExactly`: for every run of contract transactions, when a
  node can replay it, and when it then agrees with one that reads the contract.
- `Transactions.AcceptedExactly` with `Transactions.EffectsExactly`: which
  transactions the contract accepts, and all that each of them changes.
- `Coordinator.ExecuteCallback` with `Coordinator.AnswersAgree`: answer and
  repairs depend on what the replicas replied and not on the order.
- `Context.ReplicasConverge` and `Context.EarlyFoldingInvisible`: replicas end in
  the same record whatever the order, repetition and early folding of writes.
- `MapPaging.FollowingEnds` with `MapPaging.EndOfScan`: the cursors of reconciled
  pages always come to an end, within one page more than there are fields. If the
  last page announces no more, every entry that all replicas hold alike was
  returned, however their other entries cut the pages; otherwise no entry had a
  majority.
- `Scan.PagingIsComplete`, `Export.ExportCoversOnce`, `Import.PullsMayBeRetried`,
  `Sharding.New`, `ReplicaSets.QuorumTransfers`.

Where the code does less than its documentation says, the model follows the code:

- The contract accepts the start of maintenance during a migration
  (contracts/src/Cluster.sol:269-286), against the documented rule
  (crates/cluster/src/smart_contract/mod.rs:146-155). Every node refuses that
  event (`Replay.MaintenanceDuringMigration`), reads the contract again and goes
  on with migration and maintenance at once. The same happens when the owner ends
  a maintenance that is not there.
- An address the contract has no index for reads as slot 0, and a free slot has
  address 0. With slot 0 free the owner can therefore update or remove the
  operator 0; the contract emits an event that every node refuses
  (`Replay.AddressZeroIsRefused`). `Replay.Replayable` names all transactions
  whose event can be replayed.
- The contract can be deployed with operators that no node can read back, such
  as two with one address or one with address 0 (`Replay.DeployedExact`).
- A migration that starts in the second of an abort and then completes reads as
  aborted in a snapshot (crates/cluster/src/smart_contract/evm.rs:495-497).
  `Replay.SecondOfAnAbort` reaches such a state from every idle one, and
  `Replay.ReplayAgreesExactly` shows that it is the only disagreement.
- A stale `Set` folded with a fresh `SetExp` resurrects the stale value
  (`Context.StaleSetResurrected`). `Context.PairFoldExact` gives the exact
  condition under which folding two operands early is invisible.
- A deletion mark expires by the clock of the replica that stores it, so records
  converge up to the expiry of a record without payload.
- Pages are reconciled in the order of raw fields, but scanned in the order of
  encoded ones, where the encoded lengths are compared first (`Keys.FieldOrder`,
  `Keys.RawOrderDiffers`). `MapPaging.NothingRepeatedExactly` says when following
  the cursor of a reconciled page returns an entry of that page again, and
  `PagingInputs.RepeatedEntry` gives replicas on which it does.
- A reconciled page may be empty and announce more, which leaves a client without
  a cursor: exactly when a majority has more and no entry has a majority
  (`MapPaging.EmptyPageEndsPaging`, with replicas in `PagingInputs.EmptyAnswer`).
  An entry that only three replicas hold can be skipped, because one of them cuts
  its page before it (`PagingInputs.SkippedEntry`).
- `NodeOperators::set` panics when the slot is more than one past the end
  (crates/cluster/src/node_operators.rs:182). Events of the contract never ask
  for that, because it fills the first free slot (`Replay.FollowsStep`).
- Writes with the limiter switched off still spend credits, and a failed write
  is charged for its whole buffer (`Throttle.WriteDebtExactly`).
- A scan with a count of 0 returns one entry.

## Model

| member | source | states |
|---|---|---|
| `Context.PartialMerge` | crates/rocks/src/db/compaction/merge.rs:121-139 | the fold over the operands that decode, an error when none does |
| `Context.FullMerge` | crates/rocks/src/db/compaction/merge.rs:141-162 | decodable operands applied one by one to the stored or empty record, an error exactly when the stored record does not decode |
| `Context.PairFoldExact` | crates/rocks/src/db/context.rs:145-194 | folding two operands first gives the same record as applying both, if and only if a condition on the record and the operands holds |
| `Context.StaleSetResurrected` | crates/rocks/src/db/context.rs:171-171 | a record and two operands for which early folding brings a stale value back |
| `Context.GroupFoldInvisible` | crates/rocks/src/db/context.rs:145-194 | any nesting of early folds of writes acts on any record as the writes one by one |
| `Context.EarlyFoldingInvisible` | crates/rocks/src/db/context.rs:254-286 | any grouping of any list of Set and Del operands leaves the record of applying them one by one |
| `Context.RisingFoldInvisible` | crates/rocks/src/db/context.rs:254-286 | with SetExp as well, the same up to the expiry of a record without payload, when timestamps rise from above the record's |
| `Context.SameRecordReadsAlike` | crates/rocks/src/db/context.rs:222-239 | records that differ only in the expiry of a deletion mark cannot be told apart by a reader |
| `Context.ApplyAllIsJoin` | crates/rocks/src/db/context.rs:254-286 | writes in any order leave the record itself when nothing is newer, else a newest write |
| `Context.OrdersConverge` | crates/rocks/src/db/context.rs:149-157 | the same writes in two orders and with repetitions leave the same record |
| `Context.ReplicasConverge` | crates/rocks/src/db/context.rs:258-285 | two replicas with the same base, given the same writes in any order, repetition and grouping, hold the same record, which is the join |
| `Context.ReplicasEqual` | crates/rocks/src/db/context.rs:258-285 | with the very same writes, one per timestamp, their contexts are equal |
| `Import.RocksBackend.ImportAll` | crates/rocks/src/db/migration.rs:52-99 | succeeds only on exactly n good frames followed by Done(n), and on these unless the disk fails; names the error otherwise, and commits all records, or the full batches of 1024 before the failure, all of them unless the disk failed |
| `Import.EndingExact` | crates/rocks/src/db/migration.rs:57-95 | each outcome of an import holds exactly for one kind of first item that is not a record |
| `Import.ImportIsJoin` | crates/rocks/src/db/context.rs:288-297 | an import leaves each key with the newer of source and destination, the destination on ties, a deletion mark for another day, and other keys as they were |
| `Import.OneRetryIsSafe` | crates/rocks/src/db/migration.rs:52-99 | a partial attempt from an earlier export, then a complete import, is one clean import up to the expiry of deletion marks |
| `Import.RetriesAreSafe` | crates/rocks/src/db/migration.rs:52-99 | the same for any number of failed attempts |
| `Import.LaterExportSupersedes` | crates/rocks/src/db/migration.rs:102-146 | records read from a source before operands of any kind reach it are superseded by those read afterwards |
| `Import.PullsMayBeRetried` | crates/rocks/src/db/migration.rs:52-99 | failed pulls at any points of the source's log of operands of any kind, then a complete one, leave what the last one alone would, up to the expiry of deletion marks |
| `Export.BoundsSelectPositions` | crates/rocks/src/db/types/common.rs:53-63 | the byte bounds of a scan select exactly the positions of the range, also at the last position |
| `Export.ScanIsRange` | crates/rocks/src/db/types/common.rs:53-63 | a scan by position returns the records of the range in order |
| `Export.Export` | crates/rocks/src/db/migration.rs:102-146 | streams the strings of the range, then its map entries, then their number |
| `Export.ExportCoversOnce` | crates/rocks/src/db/migration.rs:116-140 | exporting all 65536 shards one after the other yields every record once |
| `Export.ExportedColumnIsJoined` | crates/rocks/src/db/migration.rs:52-146 | importing all exported shards joins every record into the destination |
| `Keys.KeyRoundTrip` | crates/rocks/src/db/schema/keys.rs:22-70 | decoding an encoded key gives it back if and only if its data is shorter than 2^32 bytes |
| `Keys.DecodedKeyEncodes` | crates/rocks/src/db/schema/keys.rs:22-70 | whatever decodes is the encoding of what it decodes to |
| `Keys.TruncatedKey` | crates/rocks/src/db/schema/keys.rs:115-152 | a key that was cut off has no size, with the error that says why, and is its own iteration prefix |
| `Keys.PrefixFree` | crates/rocks/src/db/schema/keys.rs:22-45 | no encoded key is a prefix of another |
| `Keys.ExtKeyParts` | crates/rocks/src/db/schema/keys.rs:115-152 | the size of a key is read back from its header whatever field follows, the key splits there, and the prefix RocksDB sees is the map key |
| `Keys.FieldRoundTrip` | crates/rocks/src/db/cf.rs:91-106 | decoding an encoded field gives it back |
| `Keys.FieldTruncated` | crates/rocks/src/db/cf.rs:91-106 | a field that was cut off does not decode, and bytes behind a field are ignored |
| `Keys.FieldOrder` | crates/rocks/src/db/cf.rs:91-106 | encoded fields are ordered as the raw ones when they are of one length, and else by the encodings of their lengths alone |
| `Keys.RawOrderDiffers` | crates/replication/src/coordinator/reconciliation.rs:102-102 | two fields whose raw order is the opposite of the order they are scanned in |
| `Keys.ExtKeyRoundTrip` | crates/rocks/src/db/cf.rs:91-130 | an extended key decodes to its key and its field |
| `Keys.ExtKeyOrder` | crates/rocks/src/db/cf.rs:91-106 | rows of one map are ordered by encoded field |
| `Scan.IterationStaysInKey` | crates/rocks/src/db.rs:159-180 | prefix iteration yields exactly the rows of its own map from the seek key on |
| `Scan.SeekContinues` | crates/rocks/src/db/types/common/iterators.rs:214-266 | seeking to a cursor and skipping it continues strictly behind it |
| `Scan.Scan` | crates/rocks/src/db/types/common/iterators.rs:214-266 | a page is the first fields behind the cursor with a payload that has not expired, as many as asked for and at least one, with has_next exactly when more are left |
| `Scan.Hcard` | crates/rocks/src/db/types/map.rs:288-310 | the number of fields of the map with a payload that has not expired |
| `Scan.NextPageContinues` | crates/storage_api/src/lib.rs:369-376 | a page has a cursor exactly when more is left, which leads to what the page left out, and to less than before |
| `Scan.FollowYieldsRest` | crates/rocks/src/db/types/common/iterators.rs:214-266 | following cursors from any cursor returns every live field behind it once, in order |
| `Scan.PagingIsComplete` | crates/rocks/src/db/types/common/iterators.rs:214-266 | following cursors from the start returns once each field of that map with a payload that has not expired, none of another map, as many as the cardinality |
| `Sharding.FromKey` | crates/sharding/src/lib.rs:18-23 | the shard is the position divided by 2^48 |
| `Sharding.RangesPartition` | crates/sharding/src/lib.rs:18-33 | a position lies in the range of a shard exactly when it belongs to that shard |
| `Sharding.OrderedPrefix` | crates/sharding/src/lib.rs:61-113 | any queue in priority order starts with the nodes least by hash, then by node |
| `Sharding.SelectedAreLeast` | crates/sharding/src/lib.rs:83-106 | a selected node has a lower hash than any other, or the same hash and a lower number |
| `Sharding.FillReplicaSet` | crates/sharding/src/lib.rs:91-106 | the cursor loop takes the first nodes that the strategy accepts, whatever state it keeps, or fails when it accepts too few |
| `Sharding.New` | crates/sharding/src/lib.rs:61-113 | every shard gets the first candidates of its strategy by priority, whatever the order and repetition of nodes, with the two errors exactly when there are too few nodes, or too few candidates for some shard |
| `Sharding.StatelessSelects` | crates/sharding/src/lib.rs:133-155 | for a strategy without state, such as the default one, these are the nodes of highest priority among those it accepts |
| `Sharding.SelectionIsStable` | crates/sharding/src/lib.rs:61-113 | a node selected among more nodes is selected among fewer that include it |
| `Sharding.DisruptionIsBounded` | crates/sharding/src/lib.rs:61-113 | adding or removing k nodes changes at most k replicas of a shard |
| `ReplicaSets.ReplicaSetDifference` | crates/migration/src/manager/mod.rs:410-423 | the operators of one set missing from the other, in order |
| `ReplicaSets.AddedMatchesRemoved` | crates/migration/src/manager/mod.rs:225-245 | as many operators are added as removed, so the source of a pull is always in range |
| `ReplicaSets.PullSource` | crates/migration/src/manager/mod.rs:223-245 | a pull happens exactly for added operators, from the removed operator at the same position |
| `ReplicaSets.HeirPullsFrom` | crates/migration/src/manager/mod.rs:225-245 | every removed operator is pulled from by its one heir |
| `ReplicaSets.QuorumTransfers` | crates/migration/src/manager/mod.rs:225-245 | the pairing is a bijection from old to new replicas, so a majority goes to a majority |
| `ReplicaSets.MajoritiesIntersect` | crates/replication/src/coordinator/mod.rs:31-32 | two majorities of one replica set share an operator |
| `NodeOperators.PutKeepsInverse` | crates/cluster/src/node_operators.rs:177-200 | setting a slot keeps ids and slots mutually inverse, if and only if the id is not in another slot |
| `NodeOperators.NodeOperators.Set` | crates/cluster/src/node_operators.rs:177-191 | the slot and the index after setting or freeing a slot, and that it panics exactly more than one past the end |
| `NodeOperators.NodeOperators.FromSlots` | crates/cluster/src/node_operators.rs:46-75 | builds inverse maps exactly from the right number of slots with distinct operators, and names the count or the operator that is there twice |
| `NodeOperators.NodeOperators.Expand` | crates/cluster/src/node_operators.rs:193-200 | the slots grow by free ones until they include the slot |
| `ClusterView.View.StartMigration` | crates/cluster/src/view.rs:369-397 | takes full effect or none, as the specification of the event says |
| `ClusterView.View.CompletePull` | crates/cluster/src/view.rs:399-410 | takes the operator off the pulling ones, or changes nothing |
| `ClusterView.View.CompleteMigration` | crates/cluster/src/view.rs:412-425 | makes the new keyspace the current one when the last operator is done, or changes nothing |
| `ClusterView.View.AbortMigration` | crates/cluster/src/view.rs:427-437 | restores the version, or changes nothing |
| `ClusterView.View.Apply` | crates/cluster/src/view.rs:273-304 | an event with the next cluster version takes full effect or none, any other is refused |
| `ViewEvents.RefusalsExact` | crates/cluster/src/view.rs:273-304 | every event is refused for the first reason against it, told from the slots and the state of the view, and taken in exactly when there is none |
| `ViewEvents.EffectsExact` | crates/cluster/src/view.rs:369-560 | an event that is taken in changes what it names, each setting in its own field, and nothing else |
| `ViewEvents.VersionsInOrder` | crates/cluster/src/view.rs:279-304 | only the event of the next version is taken in, and it becomes the version of the view |
| `ClusterView.VersionsAgree` | crates/cluster/src/view.rs:183-230 | in every view, a replica accepts the version a coordinator picks when their clocks are within the configured skew |
| `ClusterView.AcceptedMayBeSent` | crates/cluster/src/view.rs:206-230 | in every view, a replica accepts no other version than a coordinator may have sent with a clock within the skew, the last instant of a transition included |
| `ClusterView.OneVersionOutsideTransitions` | crates/cluster/src/view.rs:206-230 | without a transition in reach of the skew, and after a completed migration, a replica accepts one version only |
| `ClusterView.VersionsAgreeExactly` | crates/cluster/src/settings.rs:73-86 | during a transition that holds for all clocks within a skew if and only if the skew is at most the configured one |
| `ClusterView.PullGateIsSafe` | crates/cluster/src/view.rs:206-240 | once a replica serves pulls it refuses the old version for good, and accepted each old operation at least the leeway earlier |
| `ClusterView.PullsNeedTheNewVersion` | crates/cluster/src/view.rs:234-240 | data goes only to operators whose clock shows the new version, from the propagation, the skew and two seconds after the start on |
| `ClusterView.LeewayIsExact` | crates/cluster/src/migration.rs:25-25 | an old operation that runs for a given time always ends before any pull if and only if that time is less than the leeway |
| `ClusterView.NewVersionIsShadowed` | crates/cluster/src/view.rs:160-168 | an operation tagged with the new version is shadowed |
| `ClusterView.PrimaryReplicaSet` | crates/cluster/src/view.rs:47-54 | five different operators of the current keyspace, in occupied slots when the keyspace is valid |
| `ClusterView.SecondaryReplicaSet` | crates/cluster/src/view.rs:56-72 | exists exactly once a migration in progress has propagated, and is five different operators of the new keyspace |
| `ClusterView.ReplicasOfTheKeyspace` | crates/cluster/src/view.rs:47-72 | both replica sets are those that a keyspace built from the operators with the default strategy has for the shard of the key |
| `SmartContract.FirstFree` | contracts/src/Cluster.sol:221-235 | the first free slot, and none only when every slot from there on is occupied |
| `SmartContract.Trim` | contracts/src/Cluster.sol:347-356 | a prefix of the slots with the same occupied ones, empty or ending in an occupied slot |
| `SmartContract.LookupExact` | contracts/src/Cluster.sol:187-195 | the index lookup finds every operator in its slot, address 0 in slot 0 when that is free, and nobody else |
| `Transactions.AcceptedExactly` | contracts/src/Cluster.sol:158-292 | each call is accepted exactly for the senders and in the states that its checks name, told from the operators in the slots |
| `Transactions.EffectsExactly` | contracts/src/Cluster.sol:158-292 | an accepted call changes what it names and nothing else, and its event says so |
| `Transactions.UnreadableExactly` | crates/cluster/src/view.rs:308-366 | any contract state, sound or not, is unreadable exactly when it has a reason, and the error is one that it has |
| `Replay.StepSound` | contracts/src/Cluster.sol:158-296 | every accepted transaction, of any kind, keeps slots and indexes inverse, keyspaces served by occupied slots, and migration times in order |
| `Replay.RunSound` | contracts/src/Cluster.sol:158-296 | after any run the state is sound, and the committed keyspace version counts the completed migrations |
| `Replay.SnapshotExact` | crates/cluster/src/view.rs:308-366 | reading a sound state fails exactly when settings, a strategy or a timestamp in it does not decode, and otherwise mirrors it, each setting in its own field and keyspaces chosen by version parity |
| `Replay.FollowsStep` | crates/cluster/src/view.rs:369-498 | a tracking view replays the event of a transaction exactly when that is replayable, never panics, and then mirrors the new state |
| `Replay.ReplayStepExact` | crates/cluster/src/smart_contract/evm.rs:489-503 | after one transaction the view tracks the new state, and a snapshot tells it apart exactly after completing a migration that started in the second of an abort, until the next migration |
| `Replay.ReplayAgreesExactly` | crates/cluster/src/view.rs:273-366 | replaying a run succeeds if and only if each of its transactions is replayable, and then agrees with a snapshot if and only if the last completed migration did not start in the second of an abort |
| `Replay.SecondOfAnAbort` | crates/cluster/src/smart_contract/evm.rs:495-497 | from every idle state a run nodes can replay leads to a disagreement of replay and snapshot |
| `Replay.AddressZeroIsRefused` | contracts/src/Cluster.sol:237-266 | with slot 0 free the contract accepts updating and removing operator 0, and every node refuses the events |
| `Replay.MaintenanceDuringMigration` | contracts/src/Cluster.sol:269-286 | the contract accepts maintenance during a migration and every node refuses its event |
| `Replay.ViewInvariantsHold` | crates/cluster/src/view.rs:369-489 | after any replayable run: version accounting, no maintenance during migration, pulling operators a non-empty subset of the new keyspace, inverse maps, only occupied slots in keyspaces |
| `Replay.DeployedExact` | contracts/src/Cluster.sol:120-146 | a deployment is accepted exactly for 5 to 256 operators with data of a length in range, which then serve in order from the first slots; it is sound exactly when operators differ and none has address 0, and readable exactly when its settings decode as well |
| `UpdateTask.TryFromSc` | crates/cluster/src/view.rs:308-366 | builds the view the snapshot specifies, or fails as it does |
| `UpdateTask.Task.ApplyEvent` | crates/cluster/src/task.rs:103-113 | takes an event in, or refuses it and leaves the view alone |
| `UpdateTask.Task.ApplyEvents` | crates/cluster/src/task.rs:91-116 | the view is the replay of the events before the first one refused, or of all |
| `UpdateTask.Task.UpdateView` | crates/cluster/src/task.rs:76-88 | keeps a view of the current version, else replaces it by a snapshot, else keeps it and fails |
| `UpdateTask.ReadDecidesVersion` | crates/cluster/src/task.rs:63-88 | a read subscribes a node at the version that was read, or leaves its view alone |
| `UpdateTask.EventDecidesVersion` | crates/cluster/src/task.rs:90-116 | an event moves a node on by one version, or ends its subscription and leaves its view alone |
| `UpdateTask.NodeAlwaysTracks` | crates/cluster/src/task.rs:52-116 | under every schedule of transactions, deliveries and late or failing reads, the view tracks the contract state of its own version |
| `UpdateTask.CaughtUpNodeAgrees` | crates/cluster/src/task.rs:52-116 | a node with nothing left in its stream agrees with a new snapshot; only a migration that started in the second of an abort and completed may differ, and then nothing else does |
| `UpdateTask.ReadingCatchesUp` | crates/cluster/src/task.rs:63-88 | whatever happened before, reading the contract brings a node up to date in that sense exactly when the contract decodes |
| `Quorums.ReceiveResponse` | crates/replication/src/coordinator/mod.rs:304-317 | a response goes to the slot that holds it or else to the first free one |
| `Quorums.BufferNeverOverflows` | crates/replication/src/coordinator/mod.rs:300-317 | with at most ten operators contacted a new response always finds a slot |
| `Quorums.ContactedOnce` | crates/replication/src/coordinator/mod.rs:142-164 | an operator in both replica sets is asked once, and at most ten are asked |
| `Quorums.Quorum.ResponseReceived` | crates/replication/src/coordinator/mod.rs:343-356 | the tally after one more response of a replica, unchanged for other operators |
| `Quorums.TallyStep` | crates/replication/src/coordinator/mod.rs:343-356 | counts and per-replica responses stay exact, and a quorum once reached never moves |
| `Quorums.MajorityUnique` | crates/replication/src/coordinator/mod.rs:351-353 | a replica set cannot have two majority responses |
| `Quorums.DecidedIsOutcome` | crates/replication/src/coordinator/mod.rs:172-194 | a decision after any part of the responses, or none after all of them, is right for all of them |
| `Quorums.Collect` | crates/replication/src/coordinator/mod.rs:166-194 | the loop stops with the decision of the responses it took, and goes on to the last one without a decision |
| `Quorums.OutcomeUnique` | crates/replication/src/coordinator/mod.rs:185-193 | the replies determine at most one outcome |
| `Reconciliation.WeightIsReported` | crates/replication/src/coordinator/reconciliation.rs:61-94 | sums over distinct responses by weight are sums over the replicas |
| `Reconciliation.ReconcileMapPage` | crates/replication/src/coordinator/reconciliation.rs:57-105 | a page exactly when pages weigh a majority; it holds exactly the entries of majority weight, once, ascending |
| `Reconciliation.ReconcileMapCardinality` | crates/replication/src/coordinator/reconciliation.rs:107-132 | a cardinality exactly when cardinalities weigh a majority; a majority is at or below it, none strictly below |
| `Reconciliation.Reconcile` | crates/replication/src/coordinator/reconciliation.rs:8-50 | map scans and cardinalities are reconciled, nothing else |
| `Reconciliation.PageIsMajority` | crates/replication/src/coordinator/reconciliation.rs:57-105 | from pages without repeated fields: exactly the entries of at least three replicas, strictly ascending |
| `Reconciliation.MedianWithinCorrect` | crates/replication/src/coordinator/reconciliation.rs:107-132 | with at most two wrong replies of five, the cardinality lies between two correct ones |
| `Reconciliation.MedianUnique` | crates/replication/src/coordinator/reconciliation.rs:107-132 | the replies determine one such cardinality |
| `ReadRepair.New` | crates/replication/src/coordinator/read_repair.rs:26-62 | a repair exists exactly for a repairable read with an Ok quorum, with the dissenting replicas of the quorum in its slots |
| `ReadRepair.InitialTargetsDissent` | crates/replication/src/coordinator/read_repair.rs:42-61 | those slots hold exactly the replicas heard so far that replied Ok with another output, each once |
| `ReadRepair.Repair.CheckResponse` | crates/replication/src/coordinator/read_repair.rs:64-80 | a late dissenter goes to the first free slot, other responses change nothing |
| `ReadRepair.FewDissenters` | crates/replication/src/coordinator/read_repair.rs:11-12 | two slots are always enough |
| `ReadRepair.CheckedLists` | crates/replication/src/coordinator/read_repair.rs:64-80 | a late response keeps the targets exact |
| `Coordinator.Gather` | crates/replication/src/coordinator/mod.rs:122-194 | requests and response loop end with the outcome that all replies determine |
| `Coordinator.AnswerFrom` | crates/replication/src/coordinator/mod.rs:196-220 | the agreed response, else the reconciled one for reads, else an internal error |
| `Coordinator.CompleteReplication` | crates/replication/src/coordinator/mod.rs:226-239 | after the late responses the targets are exactly the dissenting primary replicas |
| `Coordinator.RepairFrom` | crates/replication/src/coordinator/read_repair.rs:82-98 | the repair write goes to exactly the dissenters of an Ok read quorum |
| `Coordinator.ExecuteCallback` | crates/replication/src/coordinator/mod.rs:101-244 | answer and repairs are what the replies determine, for any arrival order |
| `Coordinator.AnswersAgree` | crates/replication/src/coordinator/mod.rs:166-220 | any two arrival orders give the same answer and repairs, reconciled reads included |
| `Database.WritesAreWhatChanges` | crates/storage_api/src/operation.rs:140-155 | exactly the operations that count as writes can change a database |
| `Database.NewerWriteIsRead` | crates/db/src/server.rs:57-210 | a newer write is what both kinds of reads reply from then on: a record until it expires, nothing after a deletion, the stored payload until its new expiration |
| `Database.StaleWriteIsNotRead` | crates/rocks/src/db/context.rs:258-270 | a write that is not newer changes no reply |
| `Database.OtherRecordsAreKept` | crates/db/src/server.rs:57-210 | a write changes no reply about another key, another field, or the string under the key of a map |
| `Database.DeletionStaysForADay` | crates/rocks/src/db/context.rs:130-143 | a deletion leaves its version behind for a day |
| `Database.StoredIsRead` | crates/rocks/src/db/context.rs:222-250 | a stored payload is read until it expires, at the version it was last updated or else created with |
| `Coordinator.FallbackExact` | crates/replication/src/coordinator/mod.rs:199-220 | without agreement a scan or a cardinality is answered exactly when three replicas replied with one, anything else is an internal error |
| `Coordinator.RepairsExact` | crates/replication/src/coordinator/read_repair.rs:101-217 | repairs go to exactly the replicas that replied Ok with something else than the agreed record of a Get or HGet, and write that record where it was read |
| `Coordinator.AcknowledgedByMajorities` | crates/replication/src/coordinator/mod.rs:138-193 | an Ok answer to any operation that can change a replica is one that a majority of each replica set gave, the secondary one included |
| `Coordinator.RepairNeverRegresses` | crates/replication/src/coordinator/read_repair.rs:137-217 | for reads of keys and of fields: a replica that answered ends at the quorum's version or later whatever it merged before the repair, a record still behind becomes the quorum's, nothing else changes |
| `MapPaging.NextPageStarts` | crates/storage_api/src/lib.rs:369-376 | the next page of a replica is taken from exactly the fields stored behind the cursor |
| `MapPaging.NothingRepeatedExactly` | crates/replication/src/coordinator/reconciliation.rs:102-104 | following the cursor of a reconciled page repeats none of its entries if and only if the cursor is the last one in stored order |
| `MapPaging.OneLengthIsOrdered` | crates/replication/src/coordinator/reconciliation.rs:102-104 | that holds for fields of one length |
| `MapPaging.CursorExact` | crates/storage_api/src/lib.rs:369-376 | a page has a cursor exactly when it announces more behind some entries, and it is their last field in raw order |
| `PagingInputs.RepeatedEntry` | crates/replication/src/coordinator/reconciliation.rs:102-104 | five replicas whose answer to a scan is a page with a cursor behind which every replica returns an entry of that page again |
| `MapPaging.AnswerIsMajority` | crates/replication/src/coordinator/mod.rs:166-220 | agreed or reconciled, the answer to a scan holds the entries of a majority, and announces more if and only if a majority does |
| `MapPaging.EmptyPageEndsPaging` | crates/replication/src/coordinator/reconciliation.rs:57-105 | an answer announces more without a cursor to go on from, if and only if a majority has more and no entry has a majority |
| `PagingInputs.EmptyAnswer` | crates/replication/src/coordinator/reconciliation.rs:57-105 | five replicas with such an answer |
| `MapPaging.CommonEntriesAreReturned` | crates/storage_api/src/lib.rs:369-376 | following the cursors to a page that announces no more returns every entry that all replicas hold alike |
| `MapPaging.CursorAdvances` | crates/storage_api/src/lib.rs:369-376 | the cursor of a reconciled page is stored behind the one it was asked for with, and leaves fewer fields |
| `MapPaging.FollowingEnds` | crates/storage_api/src/lib.rs:369-376 | a scan has at most one page more than the replicas have fields |
| `MapPaging.EndOfScan` | crates/storage_api/src/lib.rs:369-376 | without a cursor to go on from, a scan has returned every entry that all replicas hold alike, or ended because a majority had more and no entry a majority |
| `MapPaging.ScanCanBeFinished` | crates/replication/src/coordinator/mod.rs:166-220 | every scan, however far it has come, has answers that lead to such an end |
| `PagingInputs.SkippedEntry` | crates/replication/src/coordinator/reconciliation.rs:57-105 | an entry that three replicas hold alike is neither in the page nor behind its cursor on any replica |
| `MigrationSafety.GateClosesOldWrites` | crates/cluster/src/view.rs:206-240 | no old-version write is executed by an operator that serves pulls |
| `MigrationSafety.KeepsInvariant` | crates/migration/src/manager/mod.rs:223-256 | every step of writes and pulls keeps the invariant |
| `MigrationSafety.KeepsFaithful` | crates/rocks/src/db/context.rs:254-297 | while only whole records are written, what any store holds under a timestamp is what was written under it |
| `MigrationSafety.NoAcknowledgedWriteLost` | crates/replication/src/coordinator/mod.rs:125-194 | after any run with all pulls of a shard done, a majority of its new replicas holds each acknowledged Set, Del or SetExp at its version or later |
| `MigrationSafety.NoAcknowledgedContentLost` | crates/replication/src/coordinator/mod.rs:125-194 | with Set and Del only, those of them at exactly that version hold what was written |
| `MigrationSafety.ReadsSeeAcknowledgedWrites` | crates/replication/src/coordinator/mod.rs:125-194 | every majority a later read hears from includes such a replica |
| `MigrationSetting.RoutingMatches` | crates/replication/src/coordinator/mod.rs:122-140 | coordinators route writes to the replica sets the migration is about |
| `MigrationSetting.AnswerIsAcknowledgement` | crates/replication/src/coordinator/mod.rs:138-193 | an Ok answer to any operation that can change a replica is an acknowledgement, when replicas answer Ok only after executing |
| `MigrationSetting.WritesAreRequests` | crates/db/src/server.rs:57-210 | every operation that can change a replica is a write of the migration with the same operand at every clock |
| `MigrationSetting.ExportIsComplete` | crates/rocks/src/db/migration.rs:102-146 | the records streamed for a shard are the source's records of that shard, all of them |
| `MigrationSetting.StreamIsComplete` | crates/rocks/src/db/migration.rs:52-146 | an importer accepts such a stream to its end and receives a complete export |
| `MigrationSetting.MangledStreamRefused` | crates/rocks/src/db/migration.rs:52-146 | a stream of a shard that lost records, repeats some, or ends early is never accepted |
| `MigrationSetting.WrongNumberRefused` | crates/rocks/src/db/migration.rs:52-99 | records in another number than the shard has, followed by its count, are never accepted |
| `Throttle.Throttled.PollReserve` | crates/rpc/src/transport.rs:231-272 | when a reservation blocks, what it grants, and how many bytes it allows, never more than asked |
| `Throttle.Throttled.Spend` | crates/rpc/src/transport.rs:276-281 | spending saturates at the least balance |
| `Throttle.Throttled.PollWrite` | crates/rpc/src/transport/write.rs:15-36 | the inner stream gets exactly the reserved prefix, and what it wrote is charged, a failure for the whole buffer |
| `Throttle.Throttled.PollRead` | crates/rpc/src/transport/read.rs:15-48 | the inner stream gets at most one second of bandwidth, and what it read is charged |
| `Throttle.WritesConserve` | crates/rpc/src/transport/write.rs:20-35 | over any run, bytes written plus balance is credits granted, and the balance never goes below zero |
| `Throttle.WriteDebtExactly` | crates/rpc/src/transport/write.rs:30-33 | a write leaves a debt exactly when it fails on more than was reserved, or outspends the balance with the limiter off |
| `Throttle.ReadsConserve` | crates/rpc/src/transport/read.rs:22-47 | over any run the balance stays within one second of bandwidth below zero, so reads never exceed credits by more |

## Left out

- QUIC, TLS, RPC plumbing, connection filters and client authorisation: I/O over libraries outside the repository.
- RocksDB internals and the compaction filter, which drops records without payload at once: the store is a sorted map, and compaction is not part of any run.
- Encryption, hashing, and serde and postcard codecs other than keys and fields: hashes are arbitrary functions, values are decoded already or fail to decode.
- The EVM provider and its bindings, and ownership transfers: the contract is modelled from its own source, and its owner never changes.
- Replay.DeployedExact: takes the contract's minimum of operators as 5, like all of the model, because the client always sets that (crates/cluster/src/smart_contract/evm.rs:447-455).
- `SetVal` operands, beyond `Context.PairFoldExact`: the database server does not issue them, and they break the merge law.
- The states of the migration manager between tasks, and what happens to reads while views differ: no claim of linearizability is made.
- Overflow of 64-bit counters and versions, and buffers longer than `isize::MAX`, which Rust does not allow.
- Scan.Hcard: assumes a map key shorter than 2^32 bytes and rows that decode, like Scan.Scan.
- Scan.Scan: assumes a map key shorter than 2^32 bytes, beyond which the key encoding truncates the length, and rows that decode.
- Retrying an operation on another node of the same operator: each operator has one reply.
- Scan errors: RocksDB iterator errors are dropped by the code, and rows that do not decode are not part of the model of a column.
- MigrationSafety.NoAcknowledgedWriteLost: assumes one clock per operator, a view that stays in the migration, and execution within the leeway.
- MapPaging.FollowingEnds: takes replicas like MapPaging.CommonEntriesAreReturned.
- MapPaging.EndOfScan: takes replicas like MapPaging.CommonEntriesAreReturned.
- MapPaging.CommonEntriesAreReturned: takes replicas that all reply with a page and do not change between the pages of a scan.
- Reconciliation.ReconcileMapPage: leaves the order of entries with equal fields open, because the source sorts them unstably from a hash map.
- Command line tools, metrics, logging, configuration, load balancing and the load simulator.
