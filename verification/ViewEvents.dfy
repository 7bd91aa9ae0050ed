/** Why a view refuses an event, and what an event that it takes in changes. */
module ViewEvents {
  import opened Wrappers
  import opened NodeOperators
  import opened ReplicaSets
  import opened ClusterView

  predicate Knows(v: ViewState, id: Id) {
    exists idx: Idx :: HasId(v.slots, idx, id)
  }

  /** An event about an operator that pulls has this reason to be refused. */
  ghost predicate PullRefused(v: ViewState, migrationId: nat, operatorId: Id, e: Error) {
    match e
    case OperatorNotFound(id) => id == operatorId && !Knows(v, id)
    case NoMigration => !v.migration.IsInProgress()
    case WrongMigrationId => v.migration.IsInProgress() && migrationId != v.migration.id
    case NotPulling(idx) => HasId(v.slots, idx, operatorId) && !v.migration.IsPulling(idx)
    case _ => false
  }

  /** The event has this reason to be refused. */
  ghost predicate Refused(v: ViewState, change: Change, e: Error) {
    match change
    case MigrationStarted(_, k, at) =>
      (match e
       case MigrationInProgress(id) => v.migration.IsInProgress() && id == v.migration.id
       case MaintenanceInProgress(slot) => v.maintenance == Some(slot)
       case InvalidKeyspace => k.replicationStrategy != 0 || |k.operators| < 5 || |k.operators| > 256
       case KeyspaceUnknownOperator => exists idx :: idx in k.operators && At(v.slots, idx).None?
       case SameKeyspace => k == v.keyspace
       case InvalidTimestamp(ts) => ts == at && at > MAX_TIMESTAMP
       case _ => false)
    case MigrationDataPullCompleted(id, operatorId) => PullRefused(v, id, operatorId, e)
    case MigrationCompleted(id, operatorId) =>
      || PullRefused(v, id, operatorId, e)
      || (e.WrongPullingOperatorsCount? && v.migration.IsInProgress() && |v.migration.state.pullingOperators| != 1)
    case MigrationAborted(id, at) =>
      (match e
       case NoMigration => !v.migration.IsInProgress()
       case WrongMigrationId => v.migration.IsInProgress() && id != v.migration.id
       case InvalidTimestamp(ts) => ts == at && at > MAX_TIMESTAMP
       case Panicked => v.keyspaceVersion == 0
       case _ => false)
    case MaintenanceStarted(_) =>
      (match e
       case MigrationInProgress(id) => v.migration.IsInProgress() && id == v.migration.id
       case MaintenanceInProgress(slot) => v.maintenance == Some(slot)
       case _ => false)
    case MaintenanceFinished => e.NoMaintenance? && v.maintenance.None?
    case NodeOperatorAdded(idx, operator) =>
      (match e
       case OperatorAlreadyExists(id) => id == operator.id && Knows(v, id)
       case OperatorSlotOccupied(i) => i == idx && At(v.slots, idx).Some?
       case Panicked => |v.slots| < idx
       case _ => false)
    case NodeOperatorUpdated(operator) => e == OperatorNotFound(operator.id) && !Knows(v, operator.id)
    case NodeOperatorRemoved(id) => e == OperatorNotFound(id) && !Knows(v, id)
    case SettingsUpdated(settings) => e.InvalidSettings? && settings.extra.None?
  }

  /** The order in which reasons are looked for. */
  function Rank(e: Error): nat {
    match e
    case OperatorNotFound(_) => 0
    case OperatorAlreadyExists(_) => 0
    case OperatorSlotOccupied(_) => 1
    case MigrationInProgress(_) => 1
    case NoMigration => 1
    case MaintenanceInProgress(_) => 2
    case WrongMigrationId => 2
    case InvalidKeyspace => 3
    case NotPulling(_) => 3
    case KeyspaceUnknownOperator => 4
    case WrongPullingOperatorsCount => 4
    case SameKeyspace => 5
    case InvalidTimestamp(_) => 6
    case _ => 7
  }

  lemma KnownByIndex(v: ViewState, id: Id)
    requires Inverse(v.slots, v.idToIdx)
    ensures id in v.idToIdx <==> Knows(v, id)
    ensures forall idx: Idx :: HasId(v.slots, idx, id) ==> id in v.idToIdx && v.idToIdx[id] == idx
  {
    if id in v.idToIdx {
      assert HasId(v.slots, v.idToIdx[id], id);
    }
  }

  ghost predicate RefusedFirst(v: ViewState, change: Change) {
    match Applied(v, change)
    case Ok(_) => forall e :: !Refused(v, change, e)
    case Err(e) => Refused(v, change, e) && forall other :: Refused(v, change, other) ==> Rank(e) <= Rank(other)
  }

  lemma PullRefusals(v: ViewState, change: Change)
    requires Inverse(v.slots, v.idToIdx) && (change.MigrationDataPullCompleted? || change.MigrationCompleted?)
    ensures RefusedFirst(v, change)
  {
    KnownByIndex(v, change.operatorId);
  }

  lemma OperatorRefusals(v: ViewState, change: Change)
    requires Inverse(v.slots, v.idToIdx) && |v.slots| <= MAX_OPERATORS
    requires change.NodeOperatorAdded? || change.NodeOperatorUpdated? || change.NodeOperatorRemoved?
    ensures RefusedFirst(v, change)
  {
    match change
    case NodeOperatorAdded(_, operator) => KnownByIndex(v, operator.id);
    case NodeOperatorUpdated(operator) => KnownByIndex(v, operator.id);
    case NodeOperatorRemoved(id) => KnownByIndex(v, id);
  }

  /** An event is refused for the first reason there is, and taken in when there is none. */
  lemma RefusalsExact(v: ViewState, change: Change)
    requires Inverse(v.slots, v.idToIdx) && |v.slots| <= MAX_OPERATORS
    ensures RefusedFirst(v, change)
  {
    match change
    case MigrationDataPullCompleted(_, _) => PullRefusals(v, change);
    case MigrationCompleted(_, _) => PullRefusals(v, change);
    case NodeOperatorAdded(_, _) => OperatorRefusals(v, change);
    case NodeOperatorUpdated(_) => OperatorRefusals(v, change);
    case NodeOperatorRemoved(_) => OperatorRefusals(v, change);
    case _ =>
  }

  /** Every slot but one is as it was, and that one holds `slot`. */
  predicate OneSlotChanged(v: ViewState, v': ViewState, idx: Idx, slot: Option<NodeOperator>) {
    At(v'.slots, idx) == slot && forall i: Idx :: i != idx ==> At(v'.slots, i) == At(v.slots, i)
  }

  /** What the event says has happened. */
  ghost predicate TakenIn(v: ViewState, change: Change, v': ViewState) {
    && v'.owner == v.owner && v'.clusterVersion == v.clusterVersion
    && (v'.settings == v.settings || change.SettingsUpdated?)
    && (v'.maintenance == v.maintenance || change.MaintenanceStarted? || change.MaintenanceFinished?)
    && ((v'.slots == v.slots && v'.idToIdx == v.idToIdx) ||
        change.NodeOperatorAdded? || change.NodeOperatorUpdated? || change.NodeOperatorRemoved?)
    && (v'.keyspace == v.keyspace || change.MigrationCompleted?)
    && (v'.keyspaceVersion == v.keyspaceVersion || change.MigrationStarted? || change.MigrationAborted?)
    && match change
       case MigrationStarted(id, k, at) =>
         && v'.migration == Migration(id, at * SECOND, Started(k, k.operators))
         && v'.keyspaceVersion == v.keyspaceVersion + 1
       case MigrationDataPullCompleted(_, operatorId) =>
         && v'.migration.id == v.migration.id && v'.migration.startedAt == v.migration.startedAt
         && v.migration.IsInProgress() && v'.migration.IsInProgress()
         && v'.migration.state.keyspace == v.migration.state.keyspace
         && exists idx: Idx :: && HasId(v.slots, idx, operatorId) && v.migration.IsPulling(idx)
                               && v'.migration.state.pullingOperators == v.migration.state.pullingOperators - {idx}
       case MigrationCompleted(_, operatorId) =>
         && v.migration.IsInProgress() && v'.keyspace == v.migration.state.keyspace
         && v'.migration == v.migration.(state := Completed)
         && exists idx: Idx :: HasId(v.slots, idx, operatorId) && v.migration.state.pullingOperators == {idx}
       case MigrationAborted(_, at) =>
         && v'.migration == v.migration.(state := Aborted(at * SECOND))
         && v'.keyspaceVersion == v.keyspaceVersion - 1
       case MaintenanceStarted(slot) => v'.maintenance == Some(slot) && v'.migration == v.migration
       case MaintenanceFinished => v'.maintenance == None && v'.migration == v.migration
       case NodeOperatorAdded(idx, operator) =>
         At(v.slots, idx).None? && OneSlotChanged(v, v', idx, Some(operator)) && v'.migration == v.migration
       case NodeOperatorUpdated(operator) =>
         && v'.migration == v.migration
         && exists idx: Idx :: HasId(v.slots, idx, operator.id) && OneSlotChanged(v, v', idx, Some(operator))
       case NodeOperatorRemoved(id) =>
         && v'.migration == v.migration
         && exists idx: Idx :: HasId(v.slots, idx, id) && OneSlotChanged(v, v', idx, None)
       case SettingsUpdated(sc) =>
         && sc.extra.Some? && v'.migration == v.migration
         && v'.settings.maxOperatorDataBytes == sc.maxOperatorDataBytes
         && v'.settings.eventPropagationLatency == sc.extra.value.eventPropagationLatency
         && v'.settings.clockSkew == sc.extra.value.clockSkew
  }

  lemma OnePulling(s: set<Idx>, idx: Idx)
    requires idx in s && |s| == 1
    ensures s == {idx}
  {
    assert |s - {idx}| == 0;
  }

  /** An event that is taken in changes what it names and nothing else. */
  lemma EffectsExact(v: ViewState, change: Change)
    requires Inverse(v.slots, v.idToIdx) && |v.slots| <= MAX_OPERATORS && Applied(v, change).Ok?
    ensures TakenIn(v, change, Applied(v, change).value)
    ensures Inverse(Applied(v, change).value.slots, Applied(v, change).value.idToIdx)
  {
    match change
    case MigrationDataPullCompleted(_, id) => assert HasId(v.slots, v.idToIdx[id], id);
    case MigrationCompleted(_, id) =>
      assert HasId(v.slots, v.idToIdx[id], id);
      OnePulling(v.migration.state.pullingOperators, v.idToIdx[id]);
    case NodeOperatorAdded(idx, operator) => SlotEffect(v, idx, Some(operator));
    case NodeOperatorUpdated(operator) => SlotEffect(v, v.idToIdx[operator.id], Some(operator));
    case NodeOperatorRemoved(id) => SlotEffect(v, v.idToIdx[id], None);
    case _ =>
  }

  lemma SlotEffect(v: ViewState, idx: Idx, slot: Option<NodeOperator>)
    requires Inverse(v.slots, v.idToIdx) && |v.slots| <= MAX_OPERATORS
    requires SetSlot(v, idx, slot).Ok?
    requires slot.Some? ==> forall i: Idx :: i != idx ==> !HasId(v.slots, i, slot.value.id)
    ensures OneSlotChanged(v, SetSlot(v, idx, slot).value, idx, slot)
    ensures Inverse(SetSlot(v, idx, slot).value.slots, SetSlot(v, idx, slot).value.idToIdx)
  {
    PutKeepsInverse(v.slots, v.idToIdx, idx, slot);
    if slot.Some? && slot.value.id in v.idToIdx {
      assert HasId(v.slots, v.idToIdx[slot.value.id], slot.value.id);
    }
  }

  /** Only the event of the next version is taken in, and it becomes the version of the view. */
  lemma VersionsInOrder(v: ViewState, event: Event)
    ensures ApplyEvent(v, event).Ok? ==>
              && event.clusterVersion == v.clusterVersion + 1 && Applied(v, event.change).Ok?
              && ApplyEvent(v, event).value == Applied(v, event.change).value.(clusterVersion := event.clusterVersion)
    ensures event.clusterVersion != v.clusterVersion + 1 ==>
              ApplyEvent(v, event) == Err(ClusterVersionNotMonotonic(v.clusterVersion, event.clusterVersion))
    ensures event.clusterVersion == v.clusterVersion + 1 && Applied(v, event.change).Err? ==>
              ApplyEvent(v, event) == Err(Applied(v, event.change).error)
  {
  }
}
