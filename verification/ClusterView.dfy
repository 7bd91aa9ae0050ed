/** A node's view of the cluster: how contract events change it, and the time windows it derives. */
module ClusterView {
  import opened Wrappers
  import opened NodeOperators
  import opened Sharding
  import opened ReplicaSets

  /** Time in nanoseconds. */
  type Instant = int
  type Duration = nat
  const SECOND: Duration := 1_000_000_000

  /** Extra time before data pulls are served, for storage operations still in flight. */
  const PULL_DATA_LEEWAY_TIME: Duration := 2 * SECOND

  /** Last Unix second a timestamp can represent. */
  const MAX_TIMESTAMP: nat := 253_402_300_799

  datatype Settings = Settings(maxOperatorDataBytes: nat, eventPropagationLatency: Duration, clockSkew: Duration) {
    function EventPropagationTime(emittedAt: Instant): Instant {
      emittedAt + eventPropagationLatency
    }

    predicate HasEventPropagated(emittedAt: Instant, now: Instant) {
      EventPropagationTime(emittedAt) <= now
    }
  }

  datatype Extra = Extra(eventPropagationLatency: Duration, clockSkew: Duration)

  /** On-chain settings; the extra part is `None` when its bytes do not decode. */
  datatype ScSettings = ScSettings(maxOperatorDataBytes: nat, extra: Option<Extra>)

  function ParseSettings(sc: ScSettings): Result<Settings, Error> {
    match sc.extra
    case None => Err(InvalidSettings)
    case Some(extra) => Ok(Settings(sc.maxOperatorDataBytes, extra.eventPropagationLatency, extra.clockSkew))
  }

  datatype Keyspace = Keyspace(operators: set<Idx>, replicationStrategy: nat)

  datatype MigrationState =
    | Started(keyspace: Keyspace, pullingOperators: set<Idx>)
    | Aborted(at: Instant)
    | Completed

  datatype Migration = Migration(id: nat, startedAt: Instant, state: MigrationState) {
    predicate IsInProgress() {
      state.Started?
    }

    predicate IsPulling(idx: Idx) {
      state.Started? && idx in state.pullingOperators
    }

    function PullingCount(): nat {
      if state.Started? then |state.pullingOperators| else 0
    }
  }

  datatype ViewState = ViewState(
    slots: Slots,
    idToIdx: map<Id, Idx>,
    owner: Id,
    settings: Settings,
    keyspace: Keyspace,
    keyspaceVersion: nat,
    migration: Migration,
    maintenance: Option<Id>,
    clusterVersion: nat)

  datatype Change =
    | MigrationStarted(migrationId: nat, newKeyspace: Keyspace, at: nat)
    | MigrationDataPullCompleted(migrationId: nat, operatorId: Id)
    | MigrationCompleted(migrationId: nat, operatorId: Id)
    | MigrationAborted(migrationId: nat, at: nat)
    | MaintenanceStarted(slot: Id)
    | MaintenanceFinished
    | NodeOperatorAdded(idx: Idx, operator: NodeOperator)
    | NodeOperatorUpdated(operator: NodeOperator)
    | NodeOperatorRemoved(id: Id)
    | SettingsUpdated(settings: ScSettings)

  datatype Event = Event(change: Change, clusterVersion: nat)

  datatype Error =
    | ClusterVersionNotMonotonic(current: nat, next: nat)
    | MigrationInProgress(id: nat)
    | MaintenanceInProgress(slot: Id)
    | NoMigration
    | NoMaintenance
    | WrongMigrationId
    | SameKeyspace
    | KeyspaceUnknownOperator
    | NotPulling(idx: Idx)
    | WrongPullingOperatorsCount
    | OperatorNotFound(id: Id)
    | OperatorAlreadyExists(id: Id)
    | OperatorSlotOccupied(idx: Idx)
    | InvalidSettings
    | InvalidKeyspace
    | InvalidTimestamp(ts: nat)
    | InvalidKeyspaceVersion
    | NodeOperatorsCreation
    | Panicked

  // ---------------------------------------------------------------------
  // Conversions and checks
  // ---------------------------------------------------------------------

  function ParseTimestamp(ts: nat): Result<Instant, Error> {
    if ts <= MAX_TIMESTAMP then Ok(ts * SECOND) else Err(InvalidTimestamp(ts))
  }

  /** A keyspace needs a known strategy and enough operators. */
  predicate IsKeyspace(k: Keyspace) {
    k.replicationStrategy == 0 && RF <= |k.operators| <= MAX_OPERATORS
  }

  predicate Validates(k: Keyspace, slots: Slots) {
    forall idx :: idx in k.operators ==> At(slots, idx).Some?
  }

  // ---------------------------------------------------------------------
  // Applying events
  // ---------------------------------------------------------------------

  function RequireMigration(v: ViewState, id: nat): Result<(), Error> {
    if !v.migration.IsInProgress() then Err(NoMigration)
    else if id != v.migration.id then Err(WrongMigrationId)
    else Ok(())
  }

  /** The pulling operator an event names, once all checks on it passed. */
  function RequirePulling(v: ViewState, migrationId: nat, operatorId: Id): Result<Idx, Error> {
    if operatorId !in v.idToIdx then Err(OperatorNotFound(operatorId))
    else match RequireMigration(v, migrationId)
      case Err(e) => Err(e)
      case Ok(_) =>
        var idx := v.idToIdx[operatorId];
        if v.migration.IsPulling(idx) then Ok(idx) else Err(NotPulling(idx))
  }

  function SetSlot(v: ViewState, idx: Idx, slot: Option<NodeOperator>): Result<ViewState, Error> {
    if |v.slots| < idx then Err(Panicked)
    else Ok(v.(slots := Put(v.slots, idx, slot), idToIdx := Reindex(v.slots, v.idToIdx, idx, slot)))
  }

  function Applied(v: ViewState, change: Change): Result<ViewState, Error> {
    match change
    case MigrationStarted(id, newKeyspace, at) =>
      if v.migration.IsInProgress() then Err(MigrationInProgress(v.migration.id))
      else if v.maintenance.Some? then Err(MaintenanceInProgress(v.maintenance.value))
      else if !IsKeyspace(newKeyspace) then Err(InvalidKeyspace)
      else if !Validates(newKeyspace, v.slots) then Err(KeyspaceUnknownOperator)
      else if v.keyspace == newKeyspace then Err(SameKeyspace)
      else (match ParseTimestamp(at)
        case Err(e) => Err(e)
        case Ok(startedAt) =>
          Ok(v.(migration := Migration(id, startedAt, Started(newKeyspace, newKeyspace.operators)),
                keyspaceVersion := v.keyspaceVersion + 1)))
    case MigrationDataPullCompleted(id, operatorId) =>
      (match RequirePulling(v, id, operatorId)
       case Err(e) => Err(e)
       case Ok(idx) =>
         var state := v.migration.state;
         Ok(v.(migration := v.migration.(state := state.(pullingOperators := state.pullingOperators - {idx})))))
    case MigrationCompleted(id, operatorId) =>
      (match RequirePulling(v, id, operatorId)
       case Err(e) => Err(e)
       case Ok(_) =>
         if v.migration.PullingCount() != 1 then Err(WrongPullingOperatorsCount)
         else Ok(v.(keyspace := v.migration.state.keyspace, migration := v.migration.(state := Completed))))
    case MigrationAborted(id, at) =>
      (match RequireMigration(v, id)
       case Err(e) => Err(e)
       case Ok(_) =>
         match ParseTimestamp(at)
         case Err(e) => Err(e)
         case Ok(abortedAt) =>
           if v.keyspaceVersion == 0 then Err(Panicked)
           else Ok(v.(migration := v.migration.(state := Aborted(abortedAt)), keyspaceVersion := v.keyspaceVersion - 1)))
    case MaintenanceStarted(slot) =>
      if v.migration.IsInProgress() then Err(MigrationInProgress(v.migration.id))
      else if v.maintenance.Some? then Err(MaintenanceInProgress(v.maintenance.value))
      else Ok(v.(maintenance := Some(slot)))
    case MaintenanceFinished =>
      if v.maintenance.None? then Err(NoMaintenance) else Ok(v.(maintenance := None))
    case NodeOperatorAdded(idx, operator) =>
      if operator.id in v.idToIdx then Err(OperatorAlreadyExists(operator.id))
      else if At(v.slots, idx).Some? then Err(OperatorSlotOccupied(idx))
      else SetSlot(v, idx, Some(operator))
    case NodeOperatorUpdated(operator) =>
      if operator.id !in v.idToIdx then Err(OperatorNotFound(operator.id))
      else SetSlot(v, v.idToIdx[operator.id], Some(operator))
    case NodeOperatorRemoved(id) =>
      if id !in v.idToIdx then Err(OperatorNotFound(id))
      else SetSlot(v, v.idToIdx[id], None)
    case SettingsUpdated(settings) =>
      (match ParseSettings(settings)
       case Err(e) => Err(e)
       case Ok(parsed) => Ok(v.(settings := parsed)))
  }

  /** Replaying one event: only the very next cluster version is accepted. */
  function ApplyEvent(v: ViewState, event: Event): Result<ViewState, Error> {
    if event.clusterVersion != v.clusterVersion + 1 then
      Err(ClusterVersionNotMonotonic(v.clusterVersion, event.clusterVersion))
    else match Applied(v, event.change)
      case Err(e) => Err(e)
      case Ok(v') => Ok(v'.(clusterVersion := event.clusterVersion))
  }

  /** The view a node keeps and updates in place as events arrive. */
  class View {
    const operators: NodeOperators
    var owner: Id
    var settings: Settings
    var keyspace: Keyspace
    var keyspaceVersion: nat
    var migration: Migration
    var maintenance: Option<Id>
    var clusterVersion: nat

    constructor (state: ViewState, operators: NodeOperators)
      requires operators.slots == state.slots && operators.idToIdx == state.idToIdx
      ensures this.operators == operators && State() == state
    {
      this.operators := operators;
      owner, settings, keyspace, keyspaceVersion := state.owner, state.settings, state.keyspace, state.keyspaceVersion;
      migration, maintenance, clusterVersion := state.migration, state.maintenance, state.clusterVersion;
    }

    ghost function State(): ViewState
      reads this, operators
    {
      ViewState(operators.slots, operators.idToIdx, owner, settings, keyspace, keyspaceVersion, migration, maintenance, clusterVersion)
    }

    function CheckMigration(id: nat): (r: Result<(), Error>)
      reads this, operators
      ensures r == RequireMigration(State(), id)
    {
      if !migration.IsInProgress() then Err(NoMigration)
      else if id != migration.id then Err(WrongMigrationId)
      else Ok(())
    }

    function CheckPulling(migrationId: nat, operatorId: Id): (r: Result<Idx, Error>)
      reads this, operators
      ensures r == RequirePulling(State(), migrationId, operatorId)
    {
      match operators.GetIdx(operatorId)
      case None => Err(OperatorNotFound(operatorId))
      case Some(idx) =>
        match CheckMigration(migrationId)
        case Err(e) => Err(e)
        case Ok(_) => if migration.IsPulling(idx) then Ok(idx) else Err(NotPulling(idx))
    }

    /** Stops the checks of a starting migration or maintenance. */
    function CheckIdle(): (r: Result<(), Error>)
      reads this
      ensures r.Ok? <==> !migration.IsInProgress() && maintenance.None?
      ensures r.Err? ==> r.error == if migration.IsInProgress() then MigrationInProgress(migration.id)
                                    else MaintenanceInProgress(maintenance.value)
    {
      if migration.IsInProgress() then Err(MigrationInProgress(migration.id))
      else if maintenance.Some? then Err(MaintenanceInProgress(maintenance.value))
      else Ok(())
    }

    method StartMigration(id: nat, newKeyspace: Keyspace, at: nat) returns (r: Result<(), Error>)
      modifies this
      ensures Outcome(old(State()), MigrationStarted(id, newKeyspace, at), r, State())
    {
      if CheckIdle().Err? {
        return CheckIdle();
      }
      if !IsKeyspace(newKeyspace) {
        return Err(InvalidKeyspace);
      }
      if exists idx :: idx in newKeyspace.operators && operators.GetByIdx(idx).None? {
        return Err(KeyspaceUnknownOperator);
      }
      if keyspace == newKeyspace {
        return Err(SameKeyspace);
      }
      var startedAt := ParseTimestamp(at);
      if startedAt.Err? {
        return Err(startedAt.error);
      }
      migration := Migration(id, startedAt.value, Started(newKeyspace, newKeyspace.operators));
      keyspaceVersion := keyspaceVersion + 1;
      return Ok(());
    }

    method CompletePull(id: nat, operatorId: Id) returns (r: Result<(), Error>)
      modifies this
      ensures Outcome(old(State()), MigrationDataPullCompleted(id, operatorId), r, State())
    {
      var idx := CheckPulling(id, operatorId);
      if idx.Err? {
        return Err(idx.error);
      }
      var state := migration.state;
      migration := migration.(state := state.(pullingOperators := state.pullingOperators - {idx.value}));
      return Ok(());
    }

    method CompleteMigration(id: nat, operatorId: Id) returns (r: Result<(), Error>)
      modifies this
      ensures Outcome(old(State()), MigrationCompleted(id, operatorId), r, State())
    {
      var idx := CheckPulling(id, operatorId);
      if idx.Err? {
        return Err(idx.error);
      }
      if migration.PullingCount() != 1 {
        return Err(WrongPullingOperatorsCount);
      }
      keyspace := migration.state.keyspace;
      migration := migration.(state := Completed);
      return Ok(());
    }

    method AbortMigration(id: nat, at: nat) returns (r: Result<(), Error>)
      modifies this
      ensures Outcome(old(State()), MigrationAborted(id, at), r, State())
    {
      if CheckMigration(id).Err? {
        return CheckMigration(id);
      }
      var abortedAt := ParseTimestamp(at);
      if abortedAt.Err? {
        return Err(abortedAt.error);
      }
      if keyspaceVersion == 0 {
        return Err(Panicked);
      }
      migration := migration.(state := Aborted(abortedAt.value));
      keyspaceVersion := keyspaceVersion - 1;
      return Ok(());
    }

    method SetOperator(idx: Idx, slot: Option<NodeOperator>) returns (r: Result<(), Error>)
      modifies operators
      ensures match SetSlot(old(State()), idx, slot)
              case Ok(v) => r.Ok? && State() == v
              case Err(e) => r == Err(e) && State() == old(State())
    {
      if |operators.slots| < idx {
        return Err(Panicked);
      }
      var panicked := operators.Set(idx, slot);
      return Ok(());
    }

    method AddOperator(idx: Idx, operator: NodeOperator) returns (r: Result<(), Error>)
      modifies operators
      ensures Outcome(old(State()), NodeOperatorAdded(idx, operator), r, State())
    {
      if operators.GetIdx(operator.id).Some? {
        return Err(OperatorAlreadyExists(operator.id));
      }
      if operators.GetByIdx(idx).Some? {
        return Err(OperatorSlotOccupied(idx));
      }
      r := SetOperator(idx, Some(operator));
    }

    /** Applies the next event, or leaves the view as it was. */
    method Apply(event: Event) returns (r: Result<(), Error>)
      modifies this, operators
      ensures match ApplyEvent(old(State()), event)
              case Ok(v) => r.Ok? && State() == v
              case Err(e) => r == Err(e) && State() == old(State())
    {
      if event.clusterVersion != clusterVersion + 1 {
        return Err(ClusterVersionNotMonotonic(clusterVersion, event.clusterVersion));
      }
      match event.change {
        case MigrationStarted(id, newKeyspace, at) => r := StartMigration(id, newKeyspace, at);
        case MigrationDataPullCompleted(id, operatorId) => r := CompletePull(id, operatorId);
        case MigrationCompleted(id, operatorId) => r := CompleteMigration(id, operatorId);
        case MigrationAborted(id, at) => r := AbortMigration(id, at);
        case MaintenanceStarted(slot) =>
          r := CheckIdle();
          if r.Ok? {
            maintenance := Some(slot);
          }
        case MaintenanceFinished =>
          if maintenance.None? {
            r := Err(NoMaintenance);
          } else {
            maintenance := None;
            r := Ok(());
          }
        case NodeOperatorAdded(idx, operator) => r := AddOperator(idx, operator);
        case NodeOperatorUpdated(operator) =>
          var idx := operators.GetIdx(operator.id);
          if idx.None? {
            r := Err(OperatorNotFound(operator.id));
          } else {
            r := SetOperator(idx.value, Some(operator));
          }
        case NodeOperatorRemoved(id) =>
          var idx := operators.GetIdx(id);
          if idx.None? {
            r := Err(OperatorNotFound(id));
          } else {
            r := SetOperator(idx.value, None);
          }
        case SettingsUpdated(settings') =>
          var parsed := ParseSettings(settings');
          if parsed.Err? {
            r := Err(parsed.error);
          } else {
            settings := parsed.value;
            r := Ok(());
          }
      }
      if r.Ok? {
        clusterVersion := event.clusterVersion;
      }
    }
  }

  /** A change either takes full effect or none. */
  ghost predicate Outcome(before: ViewState, change: Change, r: Result<(), Error>, after: ViewState) {
    match Applied(before, change)
    case Ok(v) => r.Ok? && after == v
    case Err(e) => r == Err(e) && after == before
  }

  // ---------------------------------------------------------------------
  // Time windows
  // ---------------------------------------------------------------------

  /** Whether writes also go to the keyspace being migrated to. */
  predicate IsShadowing(v: ViewState, now: Instant) {
    v.migration.IsInProgress() && v.settings.HasEventPropagated(v.migration.startedAt, now)
  }

  function DataPullScheduledAfter(v: ViewState): Option<Instant> {
    if v.migration.IsInProgress() then
      Some(v.migration.startedAt + v.settings.eventPropagationLatency + v.settings.clockSkew + PULL_DATA_LEEWAY_TIME)
    else None
  }

  /** The keyspace version a coordinator attaches to operations. */
  function KeyspaceVersion(v: ViewState, now: Instant): int {
    match v.migration.state
    case Started(_, _) =>
      if v.settings.HasEventPropagated(v.migration.startedAt, now) then v.keyspaceVersion else v.keyspaceVersion - 1
    case Aborted(at) =>
      if v.settings.HasEventPropagated(at, now) then v.keyspaceVersion else v.keyspaceVersion + 1
    case Completed => v.keyspaceVersion
  }

  /** The keyspace versions a replica accepts on storage operations. */
  predicate ValidateStorageOperation(v: ViewState, version: int, now: Instant) {
    var ver := v.keyspaceVersion;
    if v.migration.state.Completed? then version == ver
    else
      var previous := if v.migration.state.Started? then ver - 1 else ver + 1;
      var transition := v.settings.EventPropagationTime(
        if v.migration.state.Started? then v.migration.startedAt else v.migration.state.at);
      if now < transition - v.settings.clockSkew then version == previous
      else if now <= transition + v.settings.clockSkew then version == previous || version == ver
      else version == ver
  }

  /** A replica still takes operations under the version before the migration. */
  predicate AcceptsPrevious(v: ViewState, now: Instant) {
    ValidateStorageOperation(v, v.keyspaceVersion - 1, now)
  }

  predicate ValidateDataPull(v: ViewState, version: int, now: Instant) {
    var scheduled := DataPullScheduledAfter(v);
    scheduled.Some? && now >= scheduled.value && v.keyspaceVersion == version
  }

  predicate WithinSkew(a: Instant, b: Instant, skew: Duration) {
    a - b <= skew && b - a <= skew
  }

  /** A replica accepts whatever version a coordinator sends, if their clocks are within the configured skew. */
  lemma VersionsAgree(v: ViewState, coordinator: Instant, replica: Instant)
    requires WithinSkew(coordinator, replica, v.settings.clockSkew)
    ensures ValidateStorageOperation(v, KeyspaceVersion(v, coordinator), replica)
  {
  }

  /**
   A replica accepts nothing else than some coordinator may have sent with a clock
   within the skew; the last instant of a transition counts as within it.
   */
  lemma AcceptedMayBeSent(v: ViewState, version: int, replica: Instant)
    requires ValidateStorageOperation(v, version, replica)
    ensures exists coordinator :: && WithinSkew(coordinator, replica, v.settings.clockSkew + 1)
                                  && version == KeyspaceVersion(v, coordinator)
  {
    var skew := v.settings.clockSkew + 1;
    assert WithinSkew(replica - skew, replica, skew) && WithinSkew(replica + skew, replica, skew);
    assert version == KeyspaceVersion(v, replica - skew) || version == KeyspaceVersion(v, replica + skew);
  }

  /** Without a transition in reach of the skew, a replica accepts the one version that every coordinator sends. */
  lemma OneVersionOutsideTransitions(v: ViewState, version: int, replica: Instant)
    requires KeyspaceVersion(v, replica - v.settings.clockSkew - 1) ==
             KeyspaceVersion(v, replica + v.settings.clockSkew + 1)
    ensures ValidateStorageOperation(v, version, replica) <==> version == KeyspaceVersion(v, replica)
    ensures v.migration.state.Completed? ==> KeyspaceVersion(v, replica) == v.keyspaceVersion
  {
  }

  /** The configured skew is exactly what a transition tolerates. */
  lemma VersionsAgreeExactly(v: ViewState, skew: Duration)
    requires !v.migration.state.Completed?
    ensures (forall coordinator, replica :: WithinSkew(coordinator, replica, skew) ==>
               ValidateStorageOperation(v, KeyspaceVersion(v, coordinator), replica))
        <==> skew <= v.settings.clockSkew
  {
    if skew > v.settings.clockSkew {
      var transition := v.settings.EventPropagationTime(
        if v.migration.state.Started? then v.migration.startedAt else v.migration.state.at);
      assert WithinSkew(transition, transition - skew, skew);
      assert !ValidateStorageOperation(v, KeyspaceVersion(v, transition), transition - skew);
    } else {
      forall coordinator, replica | WithinSkew(coordinator, replica, skew)
        ensures ValidateStorageOperation(v, KeyspaceVersion(v, coordinator), replica)
      {
        VersionsAgree(v, coordinator, replica);
      }
    }
  }

  /**
   Once a replica serves pulls it refuses the old version for good, and every
   operation it accepted under the old version was accepted a full leeway before.
   */
  lemma PullGateIsSafe(v: ViewState, pull: Instant, op: Instant)
    requires ValidateDataPull(v, v.keyspaceVersion, pull)
    ensures op >= pull ==> !AcceptsPrevious(v, op)
    ensures AcceptsPrevious(v, op) ==> op + PULL_DATA_LEEWAY_TIME <= pull
  {
  }

  /** Data goes only to operators whose clock shows the new version, from a fixed time on the clock of the source. */
  lemma PullsNeedTheNewVersion(v: ViewState, puller: Instant, source: Instant)
    ensures ValidateDataPull(v, KeyspaceVersion(v, puller), source) ==> IsShadowing(v, puller)
    ensures IsShadowing(v, puller) ==>
              (ValidateDataPull(v, KeyspaceVersion(v, puller), source) <==>
               v.migration.startedAt + v.settings.eventPropagationLatency + v.settings.clockSkew + 2 * SECOND <= source)
  {
  }

  /** The leeway is exactly how long an operation under the old version may run without missing a pull. */
  lemma LeewayIsExact(v: ViewState, duration: Duration)
    requires v.migration.IsInProgress()
    ensures (forall op, pull :: AcceptsPrevious(v, op) && ValidateDataPull(v, v.keyspaceVersion, pull) ==> op + duration < pull)
        <==> duration < PULL_DATA_LEEWAY_TIME
  {
    var last := v.settings.EventPropagationTime(v.migration.startedAt) + v.settings.clockSkew;
    assert AcceptsPrevious(v, last) && ValidateDataPull(v, v.keyspaceVersion, last + PULL_DATA_LEEWAY_TIME);
  }

  /** An operation sent under the new version is shadowed from then on. */
  lemma NewVersionIsShadowed(v: ViewState, tagged: Instant, routed: Instant)
    requires v.migration.IsInProgress() && tagged <= routed
    ensures KeyspaceVersion(v, tagged) == v.keyspaceVersion ==> IsShadowing(v, routed)
  {
  }

  // ---------------------------------------------------------------------
  // Replica sets
  // ---------------------------------------------------------------------

  ghost function ShardReplicas(hash: Hash, k: Keyspace, shard: ShardId): (r: seq<Idx>)
    requires RF <= |k.operators|
    ensures IsReplicaSet(r) && forall idx :: idx in r ==> idx in k.operators
  {
    var chosen := Select(hash, shard, k.operators, RF);
    seq(RF, i requires 0 <= i < RF => chosen[i])
  }

  ghost function PrimaryReplicaSet(hash: Hash, v: ViewState, key: Position): (r: seq<Idx>)
    requires RF <= |v.keyspace.operators|
    ensures IsReplicaSet(r) && forall idx :: idx in r ==> idx in v.keyspace.operators
    ensures Validates(v.keyspace, v.slots) ==> forall idx :: idx in r ==> At(v.slots, idx).Some?
  {
    ShardReplicas(hash, v.keyspace, FromKey(key))
  }

  ghost function SecondaryReplicaSet(hash: Hash, v: ViewState, key: Position, now: Instant): (r: Option<seq<Idx>>)
    requires v.migration.IsInProgress() ==> RF <= |v.migration.state.keyspace.operators|
    ensures r.Some? <==> v.migration.IsInProgress() && v.settings.HasEventPropagated(v.migration.startedAt, now)
    ensures r.Some? ==> IsReplicaSet(r.value) && forall idx :: idx in r.value ==> idx in v.migration.state.keyspace.operators
  {
    if IsShadowing(v, now) then Some(ShardReplicas(hash, v.migration.state.keyspace, FromKey(key))) else None
  }

  /**
   Operations go to the replicas that a keyspace built from these operators, with the
   default strategy, has for the shard of their key.
   */
  lemma ReplicasOfTheKeyspace(hash: Hash, v: ViewState, shards: seq<seq<Node>>, strategies: nat -> Strategy,
                              key: Position, now: Instant)
    requires RF <= |v.keyspace.operators|
    requires v.migration.IsInProgress() ==> RF <= |v.migration.state.keyspace.operators|
    requires |shards| == SHARDS && forall s :: Stateless(strategies(s), _ => true)
    ensures
      var shard := FromKey(key);
      && (Fillable(hash, SHARDS, v.keyspace.operators, RF, strategies) &&
          ReplicasSelected(hash, shards, v.keyspace.operators, RF, strategies) ==>
            PrimaryReplicaSet(hash, v, key) == shards[shard])
      && (IsShadowing(v, now) && Fillable(hash, SHARDS, v.migration.state.keyspace.operators, RF, strategies) &&
          ReplicasSelected(hash, shards, v.migration.state.keyspace.operators, RF, strategies) ==>
            SecondaryReplicaSet(hash, v, key, now) == Some(shards[shard]))
  {
    ShardIsSelected(hash, v.keyspace, FromKey(key), strategies(FromKey(key)));
    if IsShadowing(v, now) {
      ShardIsSelected(hash, v.migration.state.keyspace, FromKey(key), strategies(FromKey(key)));
    }
  }

  lemma ShardIsSelected(hash: Hash, k: Keyspace, shard: ShardId, suitable: Strategy)
    requires RF <= |k.operators| && Stateless(suitable, _ => true)
    ensures RF <= |Candidates(hash, shard, k.operators, suitable)|
    ensures ShardReplicas(hash, k, shard) == Candidates(hash, shard, k.operators, suitable)[..RF]
  {
    StatelessSelects(hash, shard, k.operators, RF, suitable, _ => true);
    assert Suitable(k.operators, _ => true) == k.operators;
  }
}
