/** The contract that owns the cluster state: its transactions, its events, and the snapshot a node starts from. */
module SmartContract {
  import opened Wrappers
  import opened Bytes
  import opened NodeOperators
  import opened ClusterView

  datatype ScMigration = ScMigration(id: nat, startedAt: nat, abortedAt: nat, pulling: set<Idx>)

  /** Contract storage, and the timestamp of the latest block. An address without an index reads as slot 0. */
  datatype Contract = Contract(
    owner: Id,
    settings: ScSettings,
    slots: Slots,
    indexes: map<Id, Idx>,
    keyspaces: seq<Keyspace>,
    keyspaceVersion: nat,
    migration: ScMigration,
    maintenance: Option<Id>,
    version: nat,
    blockTime: nat)

  datatype Call =
    | StartMigration(newKeyspace: Keyspace)
    | CompleteMigration(id: nat)
    | AbortMigration(id: nat)
    | AddNodeOperator(operator: NodeOperator)
    | UpdateNodeOperatorData(id: Id, data: seq<byte>)
    | RemoveNodeOperator(id: Id)
    | SetMaintenance(active: bool)
    | UpdateSettings(settings: ScSettings)

  /** A call by `sender` in a block with timestamp `at`. */
  datatype Tx = Tx(sender: Id, at: nat, call: Call)

  function Occupied(slots: Slots): set<Idx> {
    set i: Idx | i < |slots| && slots[i].Some?
  }

  /** The address kept in a slot; that of a free slot is 0. */
  function AddressAt(slots: Slots, idx: Idx): Id {
    if At(slots, idx).Some? then At(slots, idx).value.id else 0
  }

  /** The index the contract keeps for an address, 0 when it keeps none. */
  function SlotIndex(indexes: map<Id, Idx>, id: Id): Idx {
    if id in indexes then indexes[id] else 0
  }

  /** The slot the contract takes for that of `id`, if its address matches. */
  function Lookup(slots: Slots, indexes: map<Id, Idx>, id: Id): Option<Idx> {
    var idx := SlotIndex(indexes, id);
    if AddressAt(slots, idx) == id then Some(idx) else None
  }

  predicate NoZeroIds(slots: Slots) {
    forall i :: 0 <= i < |slots| && slots[i].Some? ==> slots[i].value.id != 0
  }

  /** Every operator is found in its slot, and address 0 in slot 0 when that is free. */
  lemma LookupExact(slots: Slots, indexes: map<Id, Idx>, id: Id)
    requires Inverse(slots, indexes) && NoZeroIds(slots)
    ensures Lookup(slots, indexes, id) ==
            if id in indexes then Some(indexes[id])
            else if id == 0 && At(slots, 0).None? then Some(0)
            else None
  {
  }

  function FirstFree(slots: Slots, from: nat): (r: Option<Idx>)
    requires from <= |slots| == MAX_OPERATORS
    ensures r.Some? ==> from <= r.value && slots[r.value].None? &&
                        forall i :: from <= i < r.value ==> slots[i].Some?
    ensures r.None? ==> forall i :: from <= i < |slots| ==> slots[i].Some?
    decreases |slots| - from
  {
    if from == |slots| then None
    else if slots[from].None? then Some(from)
    else FirstFree(slots, from + 1)
  }

  predicate DataAccepted(c: Contract, data: seq<byte>) {
    0 < |data| <= c.settings.maxOperatorDataBytes
  }

  /** One more event, in the block of the transaction. */
  function Emit(c: Contract, at: nat, change: Change): (Contract, Event) {
    (c.(version := c.version + 1, blockTime := at), Event(change, c.version + 1))
  }

  /** What a transaction does; `None` when it reverts. */
  function Step(c: Contract, tx: Tx): (r: Option<(Contract, Event)>)
    requires |c.slots| == MAX_OPERATORS && |c.keyspaces| == 2
    ensures r.Some? ==>
              && |r.value.0.slots| == MAX_OPERATORS && |r.value.0.keyspaces| == 2
              && r.value.0.version == r.value.1.clusterVersion == c.version + 1
  {
    if tx.at < c.blockTime || tx.sender == 0 then None
    else match tx.call
      case StartMigration(newKeyspace) =>
        if tx.sender != c.owner || c.maintenance.Some? || c.migration.pulling != {} then None
        else if |newKeyspace.operators| < MIN_OPERATORS || !(newKeyspace.operators <= Occupied(c.slots)) then None
        else if c.keyspaces[c.keyspaceVersion % 2] == newKeyspace then None
        else
          var id := c.migration.id + 1;
          var version := c.keyspaceVersion + 1;
          Some(Emit(c.(migration := ScMigration(id, tx.at, c.migration.abortedAt, newKeyspace.operators),
                       keyspaceVersion := version,
                       keyspaces := c.keyspaces[version % 2 := newKeyspace]),
                    tx.at, MigrationStarted(id, newKeyspace, tx.at)))
      case CompleteMigration(id) =>
        var slot := Lookup(c.slots, c.indexes, tx.sender);
        if c.migration.pulling == {} || id != c.migration.id || slot.None? || slot.value !in c.migration.pulling then None
        else
          var pulling := c.migration.pulling - {slot.value};
          Some(Emit(c.(migration := c.migration.(pulling := pulling)), tx.at,
                    if pulling == {} then MigrationCompleted(id, tx.sender)
                    else MigrationDataPullCompleted(id, tx.sender)))
      case AbortMigration(id) =>
        if tx.sender != c.owner || c.migration.pulling == {} || id != c.migration.id || c.keyspaceVersion == 0 then None
        else
          Some(Emit(c.(migration := c.migration.(abortedAt := tx.at, pulling := {}),
                       keyspaceVersion := c.keyspaceVersion - 1),
                    tx.at, MigrationAborted(id, tx.at)))
      case AddNodeOperator(operator) =>
        var free := FirstFree(c.slots, 0);
        if tx.sender != c.owner || free.None? || operator.id == 0 then None
        else if SlotIndex(c.indexes, operator.id) != 0 || AddressAt(c.slots, 0) == operator.id then None
        else if !DataAccepted(c, operator.data) then None
        else
          Some(Emit(c.(slots := c.slots[free.value := Some(operator)], indexes := c.indexes[operator.id := free.value]),
                    tx.at, NodeOperatorAdded(free.value, operator)))
      case UpdateNodeOperatorData(id, data) =>
        var slot := Lookup(c.slots, c.indexes, id);
        if (tx.sender != id && tx.sender != c.owner) || !DataAccepted(c, data) || slot.None? then None
        else
          var operator := NodeOperator(id, data);
          Some(Emit(if At(c.slots, slot.value).Some? then c.(slots := c.slots[slot.value := Some(operator)]) else c,
                    tx.at, NodeOperatorUpdated(operator)))
      case RemoveNodeOperator(id) =>
        var slot := Lookup(c.slots, c.indexes, id);
        if tx.sender != c.owner || slot.None? || |Occupied(c.slots)| <= MIN_OPERATORS then None
        else if slot.value in c.keyspaces[c.keyspaceVersion % 2].operators then None
        else if c.migration.pulling != {} && slot.value in c.keyspaces[(c.keyspaceVersion + 1) % 2].operators then None
        else
          Some(Emit(c.(slots := c.slots[slot.value := None], indexes := c.indexes - {id}), tx.at, NodeOperatorRemoved(id)))
      case SetMaintenance(active) =>
        if tx.sender != c.owner && Lookup(c.slots, c.indexes, tx.sender).None? then None
        else if active then
          if c.maintenance.Some? then None
          else Some(Emit(c.(maintenance := Some(tx.sender)), tx.at, MaintenanceStarted(tx.sender)))
        else if c.maintenance != Some(tx.sender) && tx.sender != c.owner then None
        else Some(Emit(c.(maintenance := None), tx.at, MaintenanceFinished))
      case UpdateSettings(settings) =>
        if tx.sender != c.owner || |Occupied(c.slots)| < MIN_OPERATORS then None
        else Some(Emit(c.(settings := settings), tx.at, SettingsUpdated(settings)))
  }

  // ---------------------------------------------------------------------
  // The snapshot a node starts from
  // ---------------------------------------------------------------------

  /** Slots up to the highest occupied one. */
  function Trim(slots: Slots): (r: Slots)
    ensures r <= slots && SameSlots(r, slots)
    ensures r != [] ==> r[|r| - 1].Some?
  {
    if slots != [] && slots[|slots| - 1].None? then Trim(slots[..|slots| - 1]) else slots
  }

  /** An operator with address 0 reads as a free slot. */
  function Readable(slots: Slots): (r: Slots)
    ensures |r| == |slots|
    ensures NoZeroIds(slots) ==> r == slots
  {
    seq(|slots|, i requires 0 <= i < |slots| =>
      if slots[i].Some? && slots[i].value.id == 0 then None else slots[i])
  }

  /** The index built while reading slots in order. */
  function IndexSlots(slots: Slots): (m: map<Id, Idx>)
    requires |slots| <= MAX_OPERATORS
    ensures DistinctIds(slots) ==> Inverse(slots, m)
  {
    if slots == [] then map[]
    else
      var last := |slots| - 1;
      var rest := IndexSlots(slots[..last]);
      if slots[last].Some? then rest[slots[last].value.id := last] else rest
  }

  function InProgress(c: Contract): bool {
    c.migration.pulling != {}
  }

  /** An abort no later migration has overwritten, as far as timestamps tell. */
  function AbortedAt(m: ScMigration): Option<nat> {
    if m.abortedAt >= m.startedAt && m.pulling == {} then Some(m.abortedAt) else None
  }

  function StateFromSc(m: ScMigration, keyspace: Keyspace): Result<MigrationState, Error> {
    match AbortedAt(m)
    case Some(abortedAt) =>
      (match ParseTimestamp(abortedAt)
       case Err(e) => Err(e)
       case Ok(at) => Ok(Aborted(at)))
    case None =>
      if m.pulling == {} then Ok(Completed)
      else if !IsKeyspace(keyspace) then Err(InvalidKeyspace)
      else Ok(Started(keyspace, m.pulling))
  }

  function MigrationFromSc(m: ScMigration, keyspace: Keyspace): Result<Migration, Error> {
    match StateFromSc(m, keyspace)
    case Err(e) => Err(e)
    case Ok(state) =>
      match ParseTimestamp(m.startedAt)
      case Err(e) => Err(e)
      case Ok(startedAt) => Ok(Migration(m.id, startedAt, state))
  }

  /** What a node reads besides the operators: settings, the primary keyspace by version parity, and the migration. */
  function ReadState(c: Contract, slots: Slots): Result<(Settings, Keyspace, Migration), Error>
    requires |c.keyspaces| == 2
  {
    if ParseSettings(c.settings).Err? then Err(InvalidSettings)
    else if InProgress(c) && c.keyspaceVersion == 0 then Err(InvalidKeyspaceVersion)
    else
      var committed := CommittedVersion(c.keyspaceVersion, InProgress(c));
      var primary, secondary := c.keyspaces[committed % 2], c.keyspaces[(committed + 1) % 2];
      if !IsKeyspace(primary) then Err(InvalidKeyspace)
      else if !Validates(primary, slots) then Err(KeyspaceUnknownOperator)
      else match MigrationFromSc(c.migration, secondary)
        case Err(e) => Err(e)
        case Ok(migration) =>
          if migration.IsInProgress() && !Validates(secondary, slots) then Err(KeyspaceUnknownOperator)
          else Ok((ParseSettings(c.settings).value, primary, migration))
  }

  /** The view a node builds from the contract state. */
  function Snapshot(c: Contract): Result<ViewState, Error>
    requires |c.slots| == MAX_OPERATORS && |c.keyspaces| == 2
  {
    var slots := Readable(Trim(c.slots));
    if |slots| < MIN_OPERATORS || !DistinctIds(slots) then Err(NodeOperatorsCreation)
    else match ReadState(c, slots)
      case Err(e) => Err(e)
      case Ok((settings, primary, migration)) =>
        Ok(ViewState(slots, IndexSlots(slots), c.owner, settings, primary, c.keyspaceVersion, migration, c.maintenance,
                     c.version))
  }

  /** The version of the keyspace data is committed to, behind one that is being migrated to. */
  function CommittedVersion(version: nat, inProgress: bool): nat
    requires inProgress ==> version > 0
  {
    if inProgress then version - 1 else version
  }
}
