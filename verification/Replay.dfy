/** Replaying contract events against reading the contract state: when the two views agree. */
module Replay {
  import opened Wrappers
  import opened Bytes
  import opened NodeOperators
  import opened ClusterView
  import opened SmartContract

  // ---------------------------------------------------------------------
  // What every run of the contract keeps
  // ---------------------------------------------------------------------

  function Primary(c: Contract): Keyspace
    requires |c.keyspaces| == 2 && (InProgress(c) ==> c.keyspaceVersion > 0)
  {
    c.keyspaces[CommittedVersion(c.keyspaceVersion, InProgress(c)) % 2]
  }

  function Secondary(c: Contract): Keyspace
    requires |c.keyspaces| == 2
  {
    c.keyspaces[c.keyspaceVersion % 2]
  }

  /** A keyspace of enough operators, all of them in occupied slots. */
  predicate Served(k: Keyspace, slots: Slots) {
    MIN_OPERATORS <= |k.operators| && Validates(k, slots)
  }

  /** What every state of the contract satisfies, whatever transactions led to it. */
  ghost predicate Sound(c: Contract) {
    && |c.slots| == MAX_OPERATORS && |c.keyspaces| == 2
    && Inverse(c.slots, c.indexes) && NoZeroIds(c.slots) && c.owner != 0
    && c.migration.startedAt <= c.blockTime && c.migration.abortedAt <= c.blockTime
    && (InProgress(c) ==>
          && c.keyspaceVersion > 0
          && c.migration.abortedAt <= c.migration.startedAt
          && c.migration.pulling <= Secondary(c).operators
          && Served(Secondary(c), c.slots))
    && Served(Primary(c), c.slots)
  }

  /** The settings, strategies and timestamps of the contract can be decoded. */
  ghost predicate Decodes(c: Contract)
    requires Sound(c)
  {
    && c.settings.extra.Some?
    && c.migration.startedAt <= MAX_TIMESTAMP
    && (AbortedAt(c.migration).Some? ==> c.migration.abortedAt <= MAX_TIMESTAMP)
    && Primary(c).replicationStrategy == 0
    && (InProgress(c) ==> Secondary(c).replicationStrategy == 0)
  }

  /** A keyspace does not mind a change of a slot it does not use. */
  lemma StillServed(k: Keyspace, slots: Slots, slots': Slots, idx: Idx)
    requires Served(k, slots) && (idx !in k.operators || At(slots', idx).Some?)
    requires forall i: Idx :: i != idx ==> At(slots', i) == At(slots, i)
    ensures Served(k, slots')
  {
  }

  lemma SlotStepSound(c: Contract, c': Contract, idx: Idx)
    requires Sound(c) && |c'.slots| == MAX_OPERATORS
    requires c' == c.(slots := c'.slots, indexes := c'.indexes, version := c'.version, blockTime := c'.blockTime)
    requires c.blockTime <= c'.blockTime && Inverse(c'.slots, c'.indexes) && NoZeroIds(c'.slots)
    requires forall i: Idx :: i != idx ==> At(c'.slots, i) == At(c.slots, i)
    requires At(c'.slots, idx).Some? || (idx !in Primary(c).operators && (InProgress(c) ==> idx !in Secondary(c).operators))
    ensures Sound(c')
  {
    StillServed(Primary(c), c.slots, c'.slots, idx);
    if InProgress(c) {
      StillServed(Secondary(c), c.slots, c'.slots, idx);
    }
  }

  lemma AddKeepsInverse(slots: Slots, indexes: map<Id, Idx>, idx: Idx, operator: NodeOperator)
    requires |slots| == MAX_OPERATORS && Inverse(slots, indexes) && NoZeroIds(slots)
    requires slots[idx].None? && operator.id !in indexes && operator.id != 0
    ensures Inverse(slots[idx := Some(operator)], indexes[operator.id := idx]) && NoZeroIds(slots[idx := Some(operator)])
  {
    PutKeepsInverse(slots, indexes, idx, Some(operator));
  }

  lemma AddSound(c: Contract, tx: Tx)
    requires Sound(c) && Step(c, tx).Some? && tx.call.AddNodeOperator?
    ensures Sound(Step(c, tx).value.0) && tx.call.operator.id !in c.indexes
  {
    var free, operator := FirstFree(c.slots, 0).value, tx.call.operator;
    AddKeepsInverse(c.slots, c.indexes, free, operator);
    SlotStepSound(c, Step(c, tx).value.0, free);
  }

  lemma UpdateSound(c: Contract, tx: Tx)
    requires Sound(c) && Step(c, tx).Some? && tx.call.UpdateNodeOperatorData?
    ensures Sound(Step(c, tx).value.0)
  {
    LookupExact(c.slots, c.indexes, tx.call.id);
    var idx := Lookup(c.slots, c.indexes, tx.call.id).value;
    SlotStepSound(c, Step(c, tx).value.0, idx);
  }

  lemma RemoveSound(c: Contract, tx: Tx)
    requires Sound(c) && Step(c, tx).Some? && tx.call.RemoveNodeOperator?
    ensures Sound(Step(c, tx).value.0)
  {
    LookupExact(c.slots, c.indexes, tx.call.id);
    var idx := Lookup(c.slots, c.indexes, tx.call.id).value;
    assert InProgress(c) ==> Primary(c) == c.keyspaces[(c.keyspaceVersion + 1) % 2];
    SlotStepSound(c, Step(c, tx).value.0, idx);
  }

  lemma MigrationSound(c: Contract, tx: Tx)
    requires Sound(c) && Step(c, tx).Some?
    requires tx.call.StartMigration? || tx.call.CompleteMigration? || tx.call.AbortMigration?
    ensures Sound(Step(c, tx).value.0)
    ensures
      var c' := Step(c, tx).value.0;
      Primary(c') == if InProgress(c) && tx.call.CompleteMigration? && !InProgress(c') then Secondary(c) else Primary(c)
  {
    var c' := Step(c, tx).value.0;
    if tx.call.StartMigration? {
      assert forall idx :: idx in Occupied(c.slots) ==> At(c.slots, idx).Some?;
      assert tx.call.newKeyspace.operators != {};
    }
  }

  /** Every transaction the contract accepts keeps its state sound. */
  lemma StepSound(c: Contract, tx: Tx)
    requires Sound(c) && Step(c, tx).Some?
    ensures Sound(Step(c, tx).value.0)
  {
    match tx.call
    case AddNodeOperator(_) => AddSound(c, tx);
    case UpdateNodeOperatorData(_, _) => UpdateSound(c, tx);
    case RemoveNodeOperator(_) => RemoveSound(c, tx);
    case SetMaintenance(_) =>
    case UpdateSettings(_) =>
    case _ => MigrationSound(c, tx);
  }

  /** The transactions that write only what can be decoded. */
  predicate TxDecodes(tx: Tx) {
    match tx.call
    case StartMigration(newKeyspace) => newKeyspace.replicationStrategy == 0 && tx.at <= MAX_TIMESTAMP
    case AbortMigration(_) => tx.at <= MAX_TIMESTAMP
    case UpdateSettings(settings) => settings.extra.Some?
    case _ => true
  }

  lemma StepDecodes(c: Contract, tx: Tx)
    requires Sound(c) && Decodes(c) && Step(c, tx).Some? && Sound(Step(c, tx).value.0)
    ensures Decodes(Step(c, tx).value.0) <==> TxDecodes(tx)
  {
    if tx.call.StartMigration? || tx.call.CompleteMigration? || tx.call.AbortMigration? {
      MigrationSound(c, tx);
    }
  }

  // ---------------------------------------------------------------------
  // Views of a contract state
  // ---------------------------------------------------------------------

  function Timestamp(ts: nat): Instant {
    ts * SECOND
  }

  function SnapshotState(c: Contract): MigrationState
    requires |c.keyspaces| == 2
  {
    if AbortedAt(c.migration).Some? then Aborted(Timestamp(c.migration.abortedAt))
    else if InProgress(c) then Started(Secondary(c), c.migration.pulling)
    else Completed
  }

  /** `v` is the contract state, but for the owner and the state of the migration. */
  ghost predicate Mirrors(v: ViewState, c: Contract)
    requires Sound(c)
  {
    && SameSlots(v.slots, c.slots)
    && v.idToIdx == c.indexes
    && c.settings.extra.Some?
    && v.settings.maxOperatorDataBytes == c.settings.maxOperatorDataBytes
    && v.settings.eventPropagationLatency == c.settings.extra.value.eventPropagationLatency
    && v.settings.clockSkew == c.settings.extra.value.clockSkew
    && v.keyspace == Primary(c)
    && v.keyspaceVersion == c.keyspaceVersion
    && v.migration.id == c.migration.id
    && v.migration.startedAt == Timestamp(c.migration.startedAt)
    && v.maintenance == c.maintenance
    && v.clusterVersion == c.version
  }

  /**
   A view of the state `c`, which may remember as completed a migration that
   started in the second of an abort and so reads as aborted.
   */
  ghost predicate Tracks(v: ViewState, c: Contract)
    requires Sound(c)
  {
    && Decodes(c) && Mirrors(v, c)
    && (|| v.migration.state == SnapshotState(c)
        || (!InProgress(c) && c.migration.startedAt == c.migration.abortedAt && v.migration.state.Completed?))
  }

  /** Equal views, up to free slots at the end and the owner, which no event carries. */
  predicate Agree(a: ViewState, b: ViewState) {
    SameSlots(a.slots, b.slots) && a.(slots := b.slots, owner := b.owner) == b
  }

  lemma {:induction false} BoundedSize(s: set<Idx>, n: nat)
    requires forall i :: i in s ==> i < n
    ensures |s| <= n
  {
    if n == 0 {
      assert s == {};
    } else {
      var last: Idx := if n <= 256 then n - 1 else 255;
      BoundedSize(s - {last}, n - 1);
      if last in s {
        assert s == (s - {last}) + {last};
      } else {
        assert s == s - {last};
      }
    }
  }

  /** The slots a snapshot reads are those of the contract, and enough of them. */
  lemma SnapshotSlots(c: Contract)
    requires Sound(c)
    ensures
      var slots := Readable(Trim(c.slots));
      && slots == Trim(c.slots) && SameSlots(slots, c.slots) && DistinctIds(slots)
      && MIN_OPERATORS <= |slots| && IndexSlots(slots) == c.indexes
  {
    var slots := Trim(c.slots);
    forall i | 0 <= i < |slots| ensures slots[i] == c.slots[i] {
      assert At(c.slots, i) == slots[i];
    }
    forall idx | idx in Primary(c).operators ensures idx < |slots| {
      assert At(slots, idx) == c.slots[idx];
    }
    BoundedSize(Primary(c).operators, |slots|);
    InverseUnique(slots, c.slots, IndexSlots(slots), c.indexes);
  }

  lemma SnapshotKeyspaces(c: Contract)
    requires Sound(c)
    ensures
      var committed := CommittedVersion(c.keyspaceVersion, InProgress(c));
      && c.keyspaces[committed % 2] == Primary(c)
      && (InProgress(c) ==> c.keyspaces[(committed + 1) % 2] == Secondary(c))
  {
  }

  lemma ServedIsKeyspace(k: Keyspace, slots: Slots)
    requires Served(k, slots)
    ensures IsKeyspace(k) <==> k.replicationStrategy == 0
  {
    BoundedSize(k.operators, MAX_OPERATORS);
  }

  lemma SnapshotMigration(c: Contract)
    requires Sound(c)
    ensures
      var committed := CommittedVersion(c.keyspaceVersion, InProgress(c));
      var r := MigrationFromSc(c.migration, c.keyspaces[(committed + 1) % 2]);
      && (r.Ok? <==>
          && c.migration.startedAt <= MAX_TIMESTAMP
          && (AbortedAt(c.migration).Some? ==> c.migration.abortedAt <= MAX_TIMESTAMP)
          && (InProgress(c) ==> Secondary(c).replicationStrategy == 0))
      && (r.Ok? ==> r.value == Migration(c.migration.id, Timestamp(c.migration.startedAt), SnapshotState(c)))
  {
    SnapshotKeyspaces(c);
    if InProgress(c) {
      ServedIsKeyspace(Secondary(c), c.slots);
    }
  }

  /** A snapshot of a state any run leads to fails exactly when something in it does not decode. */
  lemma SnapshotExact(c: Contract)
    requires Sound(c)
    ensures Snapshot(c).Ok? <==> Decodes(c)
    ensures Snapshot(c).Ok? ==> Mirrors(Snapshot(c).value, c) && Snapshot(c).value.migration.state == SnapshotState(c)
    ensures Snapshot(c).Ok? ==> Snapshot(c).value.owner == c.owner
  {
    SnapshotSlots(c);
    SnapshotKeyspaces(c);
    SnapshotMigration(c);
    ServedIsKeyspace(Primary(c), c.slots);
    assert Validates(Primary(c), Trim(c.slots));
    assert InProgress(c) ==> Validates(Secondary(c), Trim(c.slots));
  }

  lemma SameSlotsVia(a: Slots, b: Slots, c: Slots)
    requires SameSlots(a, c) && SameSlots(b, c)
    ensures SameSlots(a, b)
  {
    forall i | 0 <= i < |a| ensures At(b, i) == a[i] {
      assert At(c, i) == a[i];
    }
    forall i | 0 <= i < |b| ensures At(a, i) == b[i] {
      assert At(c, i) == b[i];
    }
  }

  /** Views of one contract state agree but for the migration. */
  lemma MirrorsAgree(v: ViewState, w: ViewState, c: Contract)
    requires Sound(c) && Mirrors(v, c) && Mirrors(w, c)
    ensures Agree(v.(migration := w.migration), w)
  {
    SameSlotsVia(v.slots, w.slots, c.slots);
  }

  /** A tracking view agrees with a snapshot exactly when it remembers the migration as the snapshot reads it. */
  lemma TracksAgree(v: ViewState, c: Contract)
    requires Sound(c) && Tracks(v, c)
    ensures Snapshot(c).Ok? && (Agree(v, Snapshot(c).value) <==> v.migration.state == SnapshotState(c))
  {
    SnapshotExact(c);
    SameSlotsVia(v.slots, Snapshot(c).value.slots, c.slots);
  }

  lemma AgreementTracks(v: ViewState, c: Contract)
    requires Sound(c) && Snapshot(c).Ok? && Agree(v, Snapshot(c).value)
    ensures Tracks(v, c) && v.migration.state == SnapshotState(c)
  {
    SnapshotExact(c);
    SameSlotsBack(v.slots, Snapshot(c).value.slots, c.slots);
  }

  lemma SameSlotsBack(a: Slots, b: Slots, c: Slots)
    requires SameSlots(a, b) && SameSlots(b, c)
    ensures SameSlots(a, c)
  {
    forall i | 0 <= i < |a| ensures At(c, i) == a[i] {
      assert At(b, i) == a[i];
    }
    forall i | 0 <= i < |c| ensures At(a, i) == c[i] {
      assert At(b, i) == c[i];
    }
  }

  // ---------------------------------------------------------------------
  // One transaction
  // ---------------------------------------------------------------------

  /** The transactions whose event a node can replay. */
  predicate Replayable(c: Contract, tx: Tx) {
    && TxDecodes(tx)
    && match tx.call
       case SetMaintenance(active) => if active then !InProgress(c) else c.maintenance.Some?
       case UpdateNodeOperatorData(id, _) => id != 0
       case RemoveNodeOperator(id) => id != 0
       case _ => true
  }

  /** How a replaying node remembers the migration after an event. */
  function ReplayedState(state: MigrationState, c': Contract, change: Change): MigrationState
    requires |c'.keyspaces| == 2
  {
    if change.MigrationCompleted? then Completed
    else if change.MigrationStarted? || change.MigrationDataPullCompleted? || change.MigrationAborted? then SnapshotState(c')
    else state
  }

  /** A replaying node follows this step, exactly when it can. */
  ghost predicate Follows(v: ViewState, c: Contract, tx: Tx)
    requires Sound(c) && Step(c, tx).Some? && Sound(Step(c, tx).value.0)
  {
    var (c', e) := Step(c, tx).value;
    var r := ApplyEvent(v, e);
    && (r.Ok? <==> Replayable(c, tx))
    && r != Err(Panicked)
    && (r.Ok? ==> Mirrors(r.value, c') && r.value.migration.state == ReplayedState(v.migration.state, c', e.change))
  }

  lemma FollowsStart(v: ViewState, c: Contract, tx: Tx)
    requires Sound(c) && Tracks(v, c) && Step(c, tx).Some? && tx.call.StartMigration? && Sound(Step(c, tx).value.0)
    ensures Follows(v, c, tx)
  {
    var k := tx.call.newKeyspace;
    MigrationSound(c, tx);
    forall idx | idx in k.operators ensures At(v.slots, idx).Some? && At(c.slots, idx).Some? {
      assert idx in Occupied(c.slots);
      assert At(v.slots, idx) == c.slots[idx];
    }
    assert k.operators != {};
    ServedIsKeyspace(k, c.slots);
  }

  /** What a pulling operator's completion does to a view. */
  lemma NodeCompletes(v: ViewState, operatorId: Id)
    requires v.migration.IsInProgress() && operatorId in v.idToIdx && v.migration.IsPulling(v.idToIdx[operatorId])
    ensures
      var pulling := v.migration.state.pullingOperators - {v.idToIdx[operatorId]};
      if pulling == {} then
        Applied(v, MigrationCompleted(v.migration.id, operatorId)) ==
        Ok(v.(keyspace := v.migration.state.keyspace, migration := v.migration.(state := Completed)))
      else
        Applied(v, MigrationDataPullCompleted(v.migration.id, operatorId)) ==
        Ok(v.(migration := v.migration.(state := Started(v.migration.state.keyspace, pulling))))
  {
    var idx, pulling := v.idToIdx[operatorId], v.migration.state.pullingOperators;
    assert pulling == (pulling - {idx}) + {idx};
  }

  lemma FollowsComplete(v: ViewState, c: Contract, tx: Tx)
    requires Sound(c) && Tracks(v, c) && Step(c, tx).Some? && tx.call.CompleteMigration? && Sound(Step(c, tx).value.0)
    ensures Follows(v, c, tx)
  {
    LookupExact(c.slots, c.indexes, tx.sender);
    MigrationSound(c, tx);
    NodeCompletes(v, tx.sender);
  }

  lemma FollowsAbort(v: ViewState, c: Contract, tx: Tx)
    requires Sound(c) && Tracks(v, c) && Step(c, tx).Some? && tx.call.AbortMigration? && Sound(Step(c, tx).value.0)
    ensures Follows(v, c, tx)
  {
    MigrationSound(c, tx);
  }

  /** Writing the same slot on both sides keeps them equal. */
  lemma FollowsSlot(v: Slots, c: Slots, idx: Idx, slot: Option<NodeOperator>)
    requires SameSlots(v, c) && idx <= |v| && idx < |c|
    ensures SameSlots(Put(v, idx, slot), c[idx := slot])
  {
    var put, c' := Put(v, idx, slot), c[idx := slot];
    forall i: nat | i < |c'| ensures At(put, i) == c'[i] {
      assert At(v, i) == c[i];
    }
    forall i | 0 <= i < |put| ensures At(c', i) == put[i] {
      if i != idx {
        assert At(c, i) == At(v, i);
      }
    }
  }

  lemma FollowsAdd(v: ViewState, c: Contract, tx: Tx)
    requires Sound(c) && Tracks(v, c) && Step(c, tx).Some? && tx.call.AddNodeOperator? && Sound(Step(c, tx).value.0)
    ensures Follows(v, c, tx)
  {
    var idx := FirstFree(c.slots, 0).value;
    AddSound(c, tx);
    assert At(v.slots, idx) == c.slots[idx];
    assert idx <= |v.slots| by {
      if idx > 0 {
        assert At(v.slots, idx - 1) == c.slots[idx - 1];
      }
    }
    FollowsSlot(v.slots, c.slots, idx, Some(tx.call.operator));
    assert Primary(Step(c, tx).value.0) == Primary(c);
  }

  /** A slot the contract finds for an operator is the one the view has for it. */
  lemma SlotOfOperator(v: ViewState, c: Contract, id: Id)
    requires Sound(c) && Mirrors(v, c)
    ensures id in v.idToIdx ==>
              && Lookup(c.slots, c.indexes, id) == Some(v.idToIdx[id])
              && v.idToIdx[id] < |v.slots| && v.slots[v.idToIdx[id]] == c.slots[v.idToIdx[id]]
              && v.slots[v.idToIdx[id]].Some? && v.slots[v.idToIdx[id]].value.id == id
    ensures id !in v.idToIdx && Lookup(c.slots, c.indexes, id).Some? ==>
              id == 0 && Lookup(c.slots, c.indexes, id).value == 0 && c.slots[0].None?
    ensures 0 !in v.idToIdx
  {
    LookupExact(c.slots, c.indexes, id);
    if id in v.idToIdx {
      assert At(v.slots, v.idToIdx[id]) == c.slots[v.idToIdx[id]];
    }
  }

  lemma FollowsUpdate(v: ViewState, c: Contract, tx: Tx)
    requires Sound(c) && Tracks(v, c) && Step(c, tx).Some? && tx.call.UpdateNodeOperatorData? && Sound(Step(c, tx).value.0)
    ensures Follows(v, c, tx)
  {
    var id := tx.call.id;
    SlotOfOperator(v, c, id);
    if id in v.idToIdx {
      var idx, slot := v.idToIdx[id], Some(NodeOperator(id, tx.call.data));
      FollowsSlot(v.slots, c.slots, idx, slot);
      assert Reindex(v.slots, v.idToIdx, idx, slot) == v.idToIdx;
    }
    assert Primary(Step(c, tx).value.0) == Primary(c);
  }

  lemma FollowsRemove(v: ViewState, c: Contract, tx: Tx)
    requires Sound(c) && Tracks(v, c) && Step(c, tx).Some? && tx.call.RemoveNodeOperator? && Sound(Step(c, tx).value.0)
    ensures Follows(v, c, tx)
  {
    var id := tx.call.id;
    SlotOfOperator(v, c, id);
    if id in v.idToIdx {
      FollowsSlot(v.slots, c.slots, v.idToIdx[id], None);
      assert Reindex(v.slots, v.idToIdx, v.idToIdx[id], None) == v.idToIdx - {id};
    }
    assert Primary(Step(c, tx).value.0) == Primary(c);
  }

  lemma FollowsMaintenance(v: ViewState, c: Contract, tx: Tx)
    requires Sound(c) && Tracks(v, c) && Step(c, tx).Some? && tx.call.SetMaintenance? && Sound(Step(c, tx).value.0)
    ensures Follows(v, c, tx)
  {
    assert Primary(Step(c, tx).value.0) == Primary(c);
  }

  lemma FollowsSettings(v: ViewState, c: Contract, tx: Tx)
    requires Sound(c) && Tracks(v, c) && Step(c, tx).Some? && tx.call.UpdateSettings? && Sound(Step(c, tx).value.0)
    ensures Follows(v, c, tx)
  {
    assert Primary(Step(c, tx).value.0) == Primary(c);
  }

  /** A tracking view replays the next event exactly when that can be replayed, and then mirrors the new state. */
  lemma FollowsStep(v: ViewState, c: Contract, tx: Tx)
    requires Sound(c) && Tracks(v, c) && Step(c, tx).Some?
    ensures Sound(Step(c, tx).value.0) && Follows(v, c, tx)
  {
    StepSound(c, tx);
    match tx.call
    case StartMigration(_) => FollowsStart(v, c, tx);
    case CompleteMigration(_) => FollowsComplete(v, c, tx);
    case AbortMigration(_) => FollowsAbort(v, c, tx);
    case AddNodeOperator(_) => FollowsAdd(v, c, tx);
    case UpdateNodeOperatorData(_, _) => FollowsUpdate(v, c, tx);
    case RemoveNodeOperator(_) => FollowsRemove(v, c, tx);
    case SetMaintenance(_) => FollowsMaintenance(v, c, tx);
    case UpdateSettings(_) => FollowsSettings(v, c, tx);
  }

  /** The contract emits an event for address 0 whenever slot 0 is free, and no node can replay it. */
  lemma AddressZeroIsRefused(v: ViewState, c: Contract, at: nat, data: seq<byte>)
    requires Sound(c) && Tracks(v, c) && c.slots[0].None? && c.blockTime <= at
    ensures DataAccepted(c, data) ==>
              var update := Step(c, Tx(c.owner, at, UpdateNodeOperatorData(0, data)));
              update.Some? && ApplyEvent(v, update.value.1) == Err(OperatorNotFound(0))
    ensures |Occupied(c.slots)| > MIN_OPERATORS ==>
              var removal := Step(c, Tx(c.owner, at, RemoveNodeOperator(0)));
              removal.Some? && ApplyEvent(v, removal.value.1) == Err(OperatorNotFound(0))
  {
    SlotOfOperator(v, c, 0);
    assert 0 !in Primary(c).operators && (InProgress(c) ==> 0 !in Secondary(c).operators);
    assert InProgress(c) ==> Primary(c) == c.keyspaces[(c.keyspaceVersion + 1) % 2];
  }

  /** The contract lets the owner start maintenance during a migration, which no node can replay. */
  lemma MaintenanceDuringMigration(v: ViewState, c: Contract, at: nat)
    requires Sound(c) && Tracks(v, c) && InProgress(c) && c.maintenance.None? && c.blockTime <= at
    ensures
      var step := Step(c, Tx(c.owner, at, SetMaintenance(true)));
      step.Some? && ApplyEvent(v, step.value.1) == Err(MigrationInProgress(v.migration.id))
  {
  }

  /** Whether a replaying view, told apart from a snapshot or not before, is told apart after an event. */
  predicate MisreadAfter(misread: bool, c: Contract, change: Change) {
    if change.MigrationCompleted? then c.migration.startedAt == c.migration.abortedAt
    else if change.MigrationStarted? || change.MigrationDataPullCompleted? || change.MigrationAborted? then false
    else misread
  }

  predicate OfMigration(change: Change) {
    change.MigrationStarted? || change.MigrationDataPullCompleted? || change.MigrationCompleted? || change.MigrationAborted?
  }

  lemma OtherStep(c: Contract, tx: Tx)
    requires |c.slots| == MAX_OPERATORS && |c.keyspaces| == 2 && Step(c, tx).Some?
    requires !(tx.call.StartMigration? || tx.call.CompleteMigration? || tx.call.AbortMigration?)
    ensures
      var (c', e) := Step(c, tx).value;
      && !OfMigration(e.change)
      && c'.migration == c.migration && c'.keyspaces == c.keyspaces && c'.keyspaceVersion == c.keyspaceVersion
  {
  }

  lemma MigrationStep(c: Contract, tx: Tx)
    requires Sound(c) && Step(c, tx).Some?
    requires tx.call.StartMigration? || tx.call.CompleteMigration? || tx.call.AbortMigration?
    ensures
      var (c', e) := Step(c, tx).value;
      && OfMigration(e.change)
      && (e.change.MigrationCompleted? ==>
            !InProgress(c') && (SnapshotState(c') == Completed <==> c.migration.startedAt != c.migration.abortedAt))
  {
  }

  /** What a replaying view remembers of the migration, and when a snapshot tells it apart. */
  lemma StateStep(v: ViewState, c: Contract, tx: Tx)
    requires Sound(c) && Tracks(v, c) && Step(c, tx).Some?
    ensures
      var (c', e) := Step(c, tx).value;
      var state := ReplayedState(v.migration.state, c', e.change);
      && (|| state == SnapshotState(c')
          || (!InProgress(c') && c'.migration.startedAt == c'.migration.abortedAt && state.Completed?))
      && (state != SnapshotState(c') <==> MisreadAfter(v.migration.state != SnapshotState(c), c, e.change))
  {
    if tx.call.StartMigration? || tx.call.CompleteMigration? || tx.call.AbortMigration? {
      MigrationStep(c, tx);
    } else {
      OtherStep(c, tx);
    }
  }

  /**
   A tracking view replays the next event exactly when the transaction is
   replayable, and then tracks the new state. It is told apart from a new
   snapshot after completing a migration that started in the second of an
   abort, which the snapshot takes for aborted, until the next migration.
   */
  lemma ReplayStepExact(v: ViewState, c: Contract, tx: Tx)
    requires Sound(c) && Tracks(v, c) && Step(c, tx).Some?
    ensures
      var (c', e) := Step(c, tx).value;
      var r := ApplyEvent(v, e);
      && Sound(c')
      && (r.Ok? <==> Replayable(c, tx))
      && (r.Ok? ==>
            && Tracks(r.value, c') && Snapshot(c').Ok?
            && (Agree(r.value, Snapshot(c').value) <==>
                !MisreadAfter(v.migration.state != SnapshotState(c), c, e.change)))
  {
    FollowsStep(v, c, tx);
    StateStep(v, c, tx);
    StepDecodes(c, tx);
    var (c', e) := Step(c, tx).value;
    var r := ApplyEvent(v, e);
    if r.Ok? {
      TracksAgree(r.value, c');
    }
  }

  // ---------------------------------------------------------------------
  // Whole runs
  // ---------------------------------------------------------------------

  /** The state after accepted transactions, and the events they emitted; `None` when one reverts. */
  function Execute(c: Contract, txs: seq<Tx>): (r: Option<(Contract, seq<Event>)>)
    requires |c.slots| == MAX_OPERATORS && |c.keyspaces| == 2
    ensures r.Some? ==> |r.value.0.slots| == MAX_OPERATORS && |r.value.0.keyspaces| == 2
    decreases |txs|
  {
    if txs == [] then Some((c, []))
    else match Execute(c, txs[..|txs| - 1])
      case None => None
      case Some((c', events)) =>
        match Step(c', txs[|txs| - 1])
        case None => None
        case Some((c'', e)) => Some((c'', events + [e]))
  }

  /** Every transaction of the run is one whose event a node can replay. */
  predicate AllReplayable(c: Contract, txs: seq<Tx>)
    requires |c.slots| == MAX_OPERATORS && |c.keyspaces| == 2
    decreases |txs|
  {
    txs == [] ||
    (AllReplayable(c, txs[..|txs| - 1]) &&
     match Execute(c, txs[..|txs| - 1])
     case None => false
     case Some((c', _)) => Replayable(c', txs[|txs| - 1]))
  }

  function ReplayAll(v: ViewState, events: seq<Event>): Result<ViewState, Error>
    decreases |events|
  {
    if events == [] then Ok(v)
    else match ReplayAll(v, events[..|events| - 1])
      case Err(e) => Err(e)
      case Ok(v') => ApplyEvent(v', events[|events| - 1])
  }

  function Completions(events: seq<Event>): nat
    decreases |events|
  {
    if events == [] then 0
    else Completions(events[..|events| - 1]) + if events[|events| - 1].change.MigrationCompleted? then 1 else 0
  }

  /** The last that happened to any migration is that one was completed. */
  predicate CompletedLast(events: seq<Event>)
    decreases |events|
  {
    if events == [] then false
    else
      var change := events[|events| - 1].change;
      if change.MigrationCompleted? then true
      else if change.MigrationStarted? || change.MigrationDataPullCompleted? || change.MigrationAborted? then false
      else CompletedLast(events[..|events| - 1])
  }

  function Committed(c: Contract): nat
    requires InProgress(c) ==> c.keyspaceVersion > 0
  {
    CommittedVersion(c.keyspaceVersion, InProgress(c))
  }

  lemma StepCommits(c: Contract, tx: Tx)
    requires Sound(c) && Step(c, tx).Some? && Sound(Step(c, tx).value.0)
    ensures
      var (c', e) := Step(c, tx).value;
      Committed(c') == Committed(c) + if e.change.MigrationCompleted? then 1 else 0
  {
  }

  /** Every run keeps the contract sound, and its committed version counts the completed migrations. */
  lemma {:induction false} RunSound(c: Contract, txs: seq<Tx>)
    requires Sound(c) && Execute(c, txs).Some?
    ensures
      var (c', events) := Execute(c, txs).value;
      Sound(c') && Committed(c') == Committed(c) + Completions(events)
    decreases |txs|
  {
    if txs != [] {
      var last := |txs| - 1;
      RunSound(c, txs[..last]);
      var (c', events) := Execute(c, txs[..last]).value;
      StepSound(c', txs[last]);
      StepCommits(c', txs[last]);
      assert Execute(c, txs).value.1[..|events|] == events;
    }
  }

  lemma MisreadStep(c: Contract, tx: Tx, misread: bool, events: seq<Event>)
    requires |c.slots| == MAX_OPERATORS && |c.keyspaces| == 2 && Step(c, tx).Some?
    requires misread <==> CompletedLast(events) && c.migration.startedAt == c.migration.abortedAt
    ensures
      var (c', e) := Step(c, tx).value;
      MisreadAfter(misread, c, e.change) <==>
      CompletedLast(events + [e]) && c'.migration.startedAt == c'.migration.abortedAt
  {
    assert (events + [Step(c, tx).value.1])[..|events|] == events;
  }

  /** The view `r` tracks `c`, and is told apart from a snapshot exactly by a completion in the second of an abort. */
  ghost predicate Replayed(r: ViewState, c: Contract, events: seq<Event>) {
    && Sound(c) && Tracks(r, c)
    && (r.migration.state == SnapshotState(c) <==>
        !(CompletedLast(events) && c.migration.startedAt == c.migration.abortedAt))
  }

  lemma ReplayedStep(v: ViewState, c: Contract, tx: Tx, events: seq<Event>)
    requires Replayed(v, c, events) && Step(c, tx).Some?
    ensures
      var (c', e) := Step(c, tx).value;
      var r := ApplyEvent(v, e);
      && (r.Ok? <==> Replayable(c, tx))
      && (r.Ok? ==> Replayed(r.value, c', events + [e]))
  {
    ReplayStepExact(v, c, tx);
    MisreadStep(c, tx, v.migration.state != SnapshotState(c), events);
    var (c', e) := Step(c, tx).value;
    if ApplyEvent(v, e).Ok? {
      TracksAgree(ApplyEvent(v, e).value, c');
    }
  }

  lemma {:induction false} ReplayExact(v: ViewState, c: Contract, txs: seq<Tx>)
    requires Replayed(v, c, []) && Execute(c, txs).Some?
    ensures
      var (c', events) := Execute(c, txs).value;
      var r := ReplayAll(v, events);
      && (r.Ok? <==> AllReplayable(c, txs))
      && (r.Ok? ==> Replayed(r.value, c', events))
    decreases |txs|
  {
    if txs != [] {
      var last := |txs| - 1;
      ReplayExact(v, c, txs[..last]);
      var c', events := Execute(c, txs[..last]).value.0, Execute(c, txs[..last]).value.1;
      var e := Step(c', txs[last]).value.1;
      assert (events + [e])[..|events|] == events;
      if ReplayAll(v, events).Ok? {
        ReplayedStep(ReplayAll(v, events).value, c', txs[last], events);
      }
    }
  }

  /**
   A node that starts in agreement with the contract can replay all events of a
   run exactly when each can be replayed. Its view then agrees with a snapshot,
   unless the last completed migration started in the second of an abort and
   none has started since.
   */
  lemma ReplayAgreesExactly(v: ViewState, c: Contract, txs: seq<Tx>)
    requires Sound(c) && Snapshot(c).Ok? && Agree(v, Snapshot(c).value) && Execute(c, txs).Some?
    ensures
      var (c', events) := Execute(c, txs).value;
      var r := ReplayAll(v, events);
      && (r.Ok? <==> AllReplayable(c, txs))
      && (r.Ok? ==>
            && Snapshot(c').Ok?
            && (Agree(r.value, Snapshot(c').value) <==>
                !(CompletedLast(events) && c'.migration.startedAt == c'.migration.abortedAt)))
  {
    AgreementTracks(v, c);
    ReplayExact(v, c, txs);
    var (c', events) := Execute(c, txs).value;
    var r := ReplayAll(v, events);
    if r.Ok? {
      TracksAgree(r.value, c');
    }
  }

  // ---------------------------------------------------------------------
  // The second of an abort
  // ---------------------------------------------------------------------

  /** The run `txs`, which a node can replay, leads from `c` to `c'`. */
  ghost predicate Reaches(c: Contract, txs: seq<Tx>, c': Contract) {
    && Sound(c) && Sound(c')
    && AllReplayable(c, txs)
    && Execute(c, txs).Some? && Execute(c, txs).value.0 == c'
  }

  lemma ReachesStep(c: Contract, txs: seq<Tx>, c': Contract, tx: Tx)
    requires Reaches(c, txs, c') && Step(c', tx).Some? && Replayable(c', tx)
    ensures Reaches(c, txs + [tx], Step(c', tx).value.0)
    ensures Execute(c, txs + [tx]).value.1 == Execute(c, txs).value.1 + [Step(c', tx).value.1]
  {
    assert (txs + [tx])[..|txs|] == txs;
    StepSound(c', tx);
  }

  /** Every migration in progress can be completed, by each of its operators in turn. */
  lemma {:induction false} Drained(c: Contract, txs: seq<Tx>, c': Contract) returns (all: seq<Tx>, done: Contract)
    requires Reaches(c, txs, c') && InProgress(c')
    ensures Reaches(c, all, done) && !InProgress(done) && CompletedLast(Execute(c, all).value.1)
    ensures done.migration.startedAt == c'.migration.startedAt && done.migration.abortedAt == c'.migration.abortedAt
    decreases |c'.migration.pulling|
  {
    var idx :| idx in c'.migration.pulling;
    assert At(c'.slots, idx).Some?;
    var tx := Tx(c'.slots[idx].value.id, c'.blockTime, CompleteMigration(c'.migration.id));
    LookupExact(c'.slots, c'.indexes, tx.sender);
    ReachesStep(c, txs, c', tx);
    var next := Step(c', tx).value.0;
    assert next.migration.pulling == c'.migration.pulling - {idx};
    if InProgress(next) {
      all, done := Drained(c, txs + [tx], next);
    } else {
      all, done := txs + [tx], next;
    }
  }

  /**
   From every idle state: a migration aborted in the second it started, started
   again in that second and completed, leaves nodes that replayed it and nodes
   that read the contract in disagreement.
   */
  lemma SecondOfAnAbort(v: ViewState, c: Contract, k: Keyspace, at: nat) returns (txs: seq<Tx>)
    requires Sound(c) && Snapshot(c).Ok? && Agree(v, Snapshot(c).value)
    requires !InProgress(c) && c.maintenance.None? && c.blockTime <= at <= MAX_TIMESTAMP
    requires k.replicationStrategy == 0 && MIN_OPERATORS <= |k.operators| && k.operators <= Occupied(c.slots) && k != Primary(c)
    ensures Execute(c, txs).Some? && AllReplayable(c, txs)
    ensures
      var (c', events) := Execute(c, txs).value;
      var r := ReplayAll(v, events);
      r.Ok? && Snapshot(c').Ok? && !Agree(r.value, Snapshot(c').value)
  {
    assert Reaches(c, [], c);
    var again := Restarted(c, k, at);
    var done;
    txs, done := Drained(c, again.0, again.1);
    ReplayAgreesExactly(v, c, txs);
  }

  /** Starting, aborting and starting a migration again, all in one second. */
  lemma Restarted(c: Contract, k: Keyspace, at: nat) returns (r: (seq<Tx>, Contract))
    requires Reaches(c, [], c) && !InProgress(c) && c.maintenance.None? && c.blockTime <= at <= MAX_TIMESTAMP
    requires k.replicationStrategy == 0 && MIN_OPERATORS <= |k.operators| && k.operators <= Occupied(c.slots) && k != Primary(c)
    ensures Reaches(c, r.0, r.1) && InProgress(r.1)
    ensures r.1.migration.startedAt == r.1.migration.abortedAt == at
  {
    var start := Tx(c.owner, at, StartMigration(k));
    assert k.operators != {};
    ReachesStep(c, [], c, start);
    MigrationSound(c, start);
    var c1 := Step(c, start).value.0;
    var c2, txs := AbortedRun(c, [] + [start], c1, at);
    ReachesStep(c, txs, c2, start);
    r := (txs + [start], Step(c2, start).value.0);
  }

  lemma AbortedRun(c: Contract, txs: seq<Tx>, c1: Contract, at: nat) returns (c2: Contract, txs': seq<Tx>)
    requires Reaches(c, txs, c1) && InProgress(c1) && c1.blockTime <= at <= MAX_TIMESTAMP
    ensures Reaches(c, txs', c2) && !InProgress(c2) && Primary(c2) == Primary(c1)
    ensures c2 == c1.(migration := c2.migration, keyspaceVersion := c2.keyspaceVersion, version := c2.version, blockTime := at)
    ensures c2.migration.abortedAt == at
  {
    var abort := Tx(c1.owner, at, AbortMigration(c1.migration.id));
    ReachesStep(c, txs, c1, abort);
    MigrationSound(c1, abort);
    c2, txs' := Step(c1, abort).value.0, txs + [abort];
  }

  // ---------------------------------------------------------------------
  // What holds of every replayed view
  // ---------------------------------------------------------------------

  predicate Exclusive(c: Contract) {
    !(InProgress(c) && c.maintenance.Some?)
  }

  lemma {:induction false} RunExclusive(c: Contract, txs: seq<Tx>)
    requires Sound(c) && Exclusive(c) && Execute(c, txs).Some? && AllReplayable(c, txs)
    ensures Exclusive(Execute(c, txs).value.0)
    decreases |txs|
  {
    if txs != [] {
      RunExclusive(c, txs[..|txs| - 1]);
    }
  }

  ghost predicate ViewInvariant(v: ViewState, committed: nat) {
    && v.keyspaceVersion == committed + (if v.migration.IsInProgress() then 1 else 0)
    && !(v.migration.IsInProgress() && v.maintenance.Some?)
    && (v.migration.IsInProgress() ==>
          && v.migration.state.pullingOperators != {}
          && v.migration.state.pullingOperators <= v.migration.state.keyspace.operators
          && IsKeyspace(v.migration.state.keyspace) && Validates(v.migration.state.keyspace, v.slots))
    && IsKeyspace(v.keyspace) && Validates(v.keyspace, v.slots)
    && Inverse(v.slots, v.idToIdx)
  }

  lemma TracksInvariant(v: ViewState, c: Contract)
    requires Sound(c) && Tracks(v, c) && Exclusive(c)
    ensures ViewInvariant(v, Committed(c))
  {
    ServedIsKeyspace(Primary(c), c.slots);
    if InProgress(c) {
      ServedIsKeyspace(Secondary(c), c.slots);
    }
    forall idx: Idx | At(c.slots, idx).Some? ensures At(v.slots, idx).Some? {
      assert At(v.slots, idx) == c.slots[idx];
    }
    assert Inverse(v.slots, v.idToIdx) by {
      forall id | id in v.idToIdx ensures At(v.slots, v.idToIdx[id]) == c.slots[v.idToIdx[id]] {
        assert At(v.slots, v.idToIdx[id]) == c.slots[v.idToIdx[id]];
      }
    }
  }

  /** Along every run a node can replay, from a state without migration and maintenance at once. */
  lemma ViewInvariantsHold(v: ViewState, c: Contract, txs: seq<Tx>)
    requires Sound(c) && Snapshot(c).Ok? && Agree(v, Snapshot(c).value) && Exclusive(c)
    requires Execute(c, txs).Some? && AllReplayable(c, txs)
    ensures
      var (_, events) := Execute(c, txs).value;
      var r := ReplayAll(v, events);
      r.Ok? && ViewInvariant(r.value, Committed(c) + Completions(events))
  {
    AgreementTracks(v, c);
    ReplayExact(v, c, txs);
    RunSound(c, txs);
    RunExclusive(c, txs);
    var (c', events) := Execute(c, txs).value;
    TracksInvariant(ReplayAll(v, events).value, c');
  }

  // ---------------------------------------------------------------------
  // Deployment
  // ---------------------------------------------------------------------

  function FirstIndexes(n: nat): (r: set<Idx>)
    requires n <= MAX_OPERATORS
    ensures |r| == n
    ensures forall idx: Idx :: idx in r <==> idx < n
  {
    if n == 0 then {} else FirstIndexes(n - 1) + {n - 1}
  }

  /** The contract as set up by `owner`. */
  function Initial(owner: Id, settings: ScSettings, operators: seq<NodeOperator>, at: nat): Contract
    requires |operators| <= MAX_OPERATORS
  {
    var slots :=
      seq(MAX_OPERATORS, i requires 0 <= i < MAX_OPERATORS => if i < |operators| then Some(operators[i]) else None);
    Contract(owner, settings, slots, IndexSlots(slots),
             [Keyspace(FirstIndexes(|operators|), 0), Keyspace({}, 0)],
             0, ScMigration(0, 0, 0, {}), None, 1, at)
  }

  /** The operators are in the first slots in order, all of them serve, and nothing has happened yet. */
  predicate SetUp(c: Contract, owner: Id, settings: ScSettings, operators: seq<NodeOperator>, at: nat) {
    && c.owner == owner && c.settings == settings && c.version == 1 && c.blockTime == at
    && |c.slots| == MAX_OPERATORS && |c.keyspaces| == 2
    && (forall idx: Idx :: At(c.slots, idx) == if idx < |operators| then Some(operators[idx]) else None)
    && !InProgress(c) && c.keyspaceVersion == 0 && c.maintenance.None? && c.migration.id == 0
    && (forall idx: Idx :: idx in Primary(c).operators <==> idx < |operators|) && Primary(c).replicationStrategy == 0
  }

  /** Sets up the contract, or reverts. */
  function Deploy(owner: Id, settings: ScSettings, operators: seq<NodeOperator>, at: nat): Option<Contract> {
    if |operators| > MAX_OPERATORS || |operators| < MIN_OPERATORS || owner == 0 then None
    else
      var c := Initial(owner, settings, operators, at);
      if forall i :: 0 <= i < |operators| ==> DataAccepted(c, operators[i].data) then Some(c) else None
  }

  predicate WellChosen(operators: seq<NodeOperator>) {
    && (forall i :: 0 <= i < |operators| ==> operators[i].id != 0)
    && (forall i, j :: 0 <= i < j < |operators| ==> operators[i].id != operators[j].id)
  }

  lemma DeployedSlots(slots: Slots, operators: seq<NodeOperator>)
    requires MIN_OPERATORS <= |operators| <= MAX_OPERATORS == |slots|
    requires forall i :: 0 <= i < |slots| ==> slots[i] == if i < |operators| then Some(operators[i]) else None
    ensures |Trim(slots)| == |operators|
    ensures DistinctIds(slots) && NoZeroIds(slots) <==> WellChosen(operators)
  {
    var trimmed := Trim(slots);
    assert At(trimmed, |operators| - 1) == slots[|operators| - 1];
    assert trimmed[|trimmed| - 1] == slots[|trimmed| - 1];
    if WellChosen(operators) {
      assert DistinctIds(slots);
    } else if i :| 0 <= i < |operators| && operators[i].id == 0 {
      assert slots[i].value.id == 0;
    } else {
      var i, j :| 0 <= i < j < |operators| && operators[i].id == operators[j].id;
      assert slots[i].value.id == slots[j].value.id;
    }
  }

  lemma BadSlotsRead(slots: Slots, operators: seq<NodeOperator>)
    requires MIN_OPERATORS <= |operators| <= MAX_OPERATORS == |slots| && !WellChosen(operators)
    requires forall i :: 0 <= i < |slots| ==> slots[i] == if i < |operators| then Some(operators[i]) else None
    ensures !DistinctIds(Readable(Trim(slots))) ||
            exists i: Idx :: i < |operators| && At(Readable(Trim(slots)), i).None?
  {
    DeployedSlots(slots, operators);
    var read := Readable(Trim(slots));
    forall i | 0 <= i < |operators| ensures read[i] == if operators[i].id == 0 then None else Some(operators[i]) {
      assert At(slots, i) == Trim(slots)[i];
    }
    if i :| 0 <= i < |operators| && operators[i].id == 0 {
      assert At(read, i).None?;
    } else {
      var i, j :| 0 <= i < j < |operators| && operators[i].id == operators[j].id;
      assert read[i].value.id == read[j].value.id;
    }
  }

  lemma SnapshotNeeds(c: Contract)
    requires |c.slots| == MAX_OPERATORS && |c.keyspaces| == 2 && !InProgress(c) && Snapshot(c).Ok?
    ensures DistinctIds(Readable(Trim(c.slots))) && Validates(c.keyspaces[c.keyspaceVersion % 2], Readable(Trim(c.slots)))
  {
  }

  lemma DeployedSound(owner: Id, settings: ScSettings, operators: seq<NodeOperator>, at: nat)
    requires MIN_OPERATORS <= |operators| <= MAX_OPERATORS && owner != 0 && WellChosen(operators)
    ensures Sound(Initial(owner, settings, operators, at))
    ensures Decodes(Initial(owner, settings, operators, at)) <==> settings.extra.Some?
  {
    DeployedSlots(Initial(owner, settings, operators, at).slots, operators);
  }

  lemma DeployedUnsound(owner: Id, settings: ScSettings, operators: seq<NodeOperator>, at: nat)
    requires MIN_OPERATORS <= |operators| <= MAX_OPERATORS && !WellChosen(operators)
    ensures !Sound(Initial(owner, settings, operators, at)) && Snapshot(Initial(owner, settings, operators, at)).Err?
  {
    var c := Initial(owner, settings, operators, at);
    DeployedSlots(c.slots, operators);
    BadSlotsRead(c.slots, operators);
    assert Inverse(c.slots, c.indexes) ==> DistinctIds(c.slots);
    if Snapshot(c).Ok? {
      SnapshotNeeds(c);
    }
  }

  lemma InitialIsSetUp(owner: Id, settings: ScSettings, operators: seq<NodeOperator>, at: nat)
    requires |operators| <= MAX_OPERATORS
    ensures SetUp(Initial(owner, settings, operators, at), owner, settings, operators, at)
  {
  }

  /**
   A deployment is accepted for the right number of operators, each with data of a
   length in range. Nodes can read it if moreover the operators differ, none has
   address 0, and the settings decode.
   */
  lemma DeployedExact(owner: Id, settings: ScSettings, operators: seq<NodeOperator>, at: nat)
    ensures
      var c := Deploy(owner, settings, operators, at);
      && (c.Some? <==>
            && owner != 0 && MIN_OPERATORS <= |operators| <= MAX_OPERATORS
            && forall i :: 0 <= i < |operators| ==> 0 < |operators[i].data| <= settings.maxOperatorDataBytes)
      && (c.Some? ==>
            && SetUp(c.value, owner, settings, operators, at)
            && (Sound(c.value) <==> WellChosen(operators))
            && (Snapshot(c.value).Ok? <==> WellChosen(operators) && settings.extra.Some?))
  {
    if Deploy(owner, settings, operators, at).Some? {
      InitialIsSetUp(owner, settings, operators, at);
      if WellChosen(operators) {
        DeployedSound(owner, settings, operators, at);
        SnapshotExact(Initial(owner, settings, operators, at));
      } else {
        DeployedUnsound(owner, settings, operators, at);
      }
    }
  }
}
