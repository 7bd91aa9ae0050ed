/** What the contract accepts and what it then changes, told from the operators in its slots. */
module Transactions {
  import opened Wrappers
  import opened Bytes
  import opened NodeOperators
  import opened ClusterView
  import opened SmartContract
  import opened Replay

  predicate Holds(c: Contract, idx: Idx, id: Id) {
    HasId(c.slots, idx, id)
  }

  predicate IsMember(c: Contract, id: Id) {
    exists idx: Idx :: Holds(c, idx, id)
  }

  predicate HasFreeSlot(c: Contract) {
    exists idx: Idx :: At(c.slots, idx).None?
  }

  /** The address 0 is found in a free slot 0. */
  predicate ReadsAsZero(c: Contract, id: Id) {
    id == 0 && At(c.slots, 0).None?
  }

  /** The operator serves the current keyspace or the one that is being migrated to. */
  predicate IsServing(c: Contract, idx: Idx)
    requires |c.keyspaces| == 2 && (InProgress(c) ==> c.keyspaceVersion > 0)
  {
    idx in Primary(c).operators || (InProgress(c) && idx in Secondary(c).operators)
  }

  ghost predicate Allowed(c: Contract, tx: Tx)
    requires Sound(c)
  {
    var byOwner := tx.sender == c.owner;
    match tx.call
    case StartMigration(k) =>
      && byOwner && !InProgress(c) && c.maintenance.None?
      && |k.operators| >= 5 && (forall idx :: idx in k.operators ==> At(c.slots, idx).Some?) && k != Primary(c)
    case CompleteMigration(id) =>
      id == c.migration.id && exists idx: Idx :: Holds(c, idx, tx.sender) && idx in c.migration.pulling
    case AbortMigration(id) => byOwner && InProgress(c) && id == c.migration.id
    case AddNodeOperator(operator) =>
      && byOwner && HasFreeSlot(c) && operator.id != 0 && !IsMember(c, operator.id)
      && 0 < |operator.data| <= c.settings.maxOperatorDataBytes
    case UpdateNodeOperatorData(id, data) =>
      && (byOwner || tx.sender == id) && (IsMember(c, id) || ReadsAsZero(c, id))
      && 0 < |data| <= c.settings.maxOperatorDataBytes
    case RemoveNodeOperator(id) =>
      && byOwner && |Occupied(c.slots)| > 5
      && (ReadsAsZero(c, id) || exists idx: Idx :: Holds(c, idx, id) && !IsServing(c, idx))
    case SetMaintenance(active) =>
      && (byOwner || IsMember(c, tx.sender))
      && if active then c.maintenance.None? else byOwner || c.maintenance == Some(tx.sender)
    case UpdateSettings(_) => byOwner
  }

  lemma OperatorsFit(c: Contract)
    requires Sound(c)
    ensures |Occupied(c.slots)| >= MIN_OPERATORS
  {
    var operators := Primary(c).operators;
    assert operators <= Occupied(c.slots);
    assert Occupied(c.slots) == operators + (Occupied(c.slots) - operators);
  }

  /** The contract's lookup finds the slot of a member, and slot 0 for address 0 when it is free. */
  lemma LookupFinds(c: Contract, id: Id)
    requires Sound(c)
    ensures Lookup(c.slots, c.indexes, id).None? <==> !IsMember(c, id) && !ReadsAsZero(c, id)
    ensures forall idx: Idx :: Holds(c, idx, id) ==> Lookup(c.slots, c.indexes, id) == Some(idx)
    ensures ReadsAsZero(c, id) ==> Lookup(c.slots, c.indexes, id) == Some(0) && !IsMember(c, id)
  {
    if id in c.indexes {
      assert Holds(c, c.indexes[id], id);
    }
  }

  lemma FreeSlots(c: Contract)
    requires Sound(c)
    ensures FirstFree(c.slots, 0).Some? <==> HasFreeSlot(c)
  {
    if FirstFree(c.slots, 0).Some? {
      assert At(c.slots, FirstFree(c.slots, 0).value).None?;
    }
  }

  /** A transaction is accepted exactly when its sender may call and the call fits the state. */
  lemma AcceptedExactly(c: Contract, tx: Tx)
    requires Sound(c)
    ensures Step(c, tx).Some? <==> c.blockTime <= tx.at && tx.sender != 0 && Allowed(c, tx)
  {
    LookupFinds(c, tx.sender);
    match tx.call
    case StartMigration(k) => StartAllowed(c, k);
    case CompleteMigration(_) =>
    case AbortMigration(_) =>
    case AddNodeOperator(operator) =>
      FreeSlots(c);
      AddAllowed(c, operator.id);
    case UpdateNodeOperatorData(id, _) => LookupFinds(c, id);
    case RemoveNodeOperator(id) =>
      LookupFinds(c, id);
      RemoveAllowed(c, id);
    case SetMaintenance(_) =>
    case UpdateSettings(_) => OperatorsFit(c);
  }

  lemma StartAllowed(c: Contract, k: Keyspace)
    requires Sound(c)
    ensures k.operators <= Occupied(c.slots) <==> forall idx :: idx in k.operators ==> At(c.slots, idx).Some?
  {
  }

  lemma AddAllowed(c: Contract, id: Id)
    requires Sound(c)
    ensures id != 0 ==> (SlotIndex(c.indexes, id) != 0 || AddressAt(c.slots, 0) == id <==> IsMember(c, id))
  {
    if id in c.indexes {
      assert Holds(c, c.indexes[id], id);
    }
    if AddressAt(c.slots, 0) == id && id != 0 {
      assert Holds(c, 0, id);
    }
  }

  lemma RemoveAllowed(c: Contract, id: Id)
    requires Sound(c)
    ensures
      var slot := Lookup(c.slots, c.indexes, id);
      slot.Some? ==>
        && (IsServing(c, slot.value) <==>
            || slot.value in c.keyspaces[c.keyspaceVersion % 2].operators
            || (c.migration.pulling != {} && slot.value in c.keyspaces[(c.keyspaceVersion + 1) % 2].operators))
        && (ReadsAsZero(c, id) ==> !IsServing(c, slot.value))
  {
    LookupFinds(c, id);
    assert (c.keyspaceVersion + 1) % 2 == 1 - c.keyspaceVersion % 2;
    assert InProgress(c) ==> (c.keyspaceVersion - 1) % 2 == 1 - c.keyspaceVersion % 2;
  }

  // ---------------------------------------------------------------------
  // Effects
  // ---------------------------------------------------------------------

  predicate SameOperators(c: Contract, c': Contract) {
    c'.slots == c.slots && c'.indexes == c.indexes
  }

  predicate SameMigration(c: Contract, c': Contract) {
    c'.migration == c.migration && c'.keyspaces == c.keyspaces && c'.keyspaceVersion == c.keyspaceVersion
  }

  /** Every slot but one is as it was, and that one holds `slot`. */
  predicate OneSlotChanged(c: Contract, c': Contract, idx: Idx, slot: Option<NodeOperator>) {
    && |c'.slots| == |c.slots| && At(c'.slots, idx) == slot
    && forall i: Idx :: i != idx ==> At(c'.slots, i) == At(c.slots, i)
  }

  ghost predicate Effect(c: Contract, tx: Tx, c': Contract, change: Change)
    requires Sound(c) && Sound(c')
  {
    && c'.owner == c.owner && c'.blockTime == tx.at
    && (tx.call.UpdateSettings? || c'.settings == c.settings)
    && (tx.call.SetMaintenance? || c'.maintenance == c.maintenance)
    && match tx.call
       case StartMigration(k) =>
         && SameOperators(c, c') && Primary(c') == Primary(c) && Secondary(c') == k
         && c'.keyspaceVersion == c.keyspaceVersion + 1
         && c'.migration == ScMigration(c.migration.id + 1, tx.at, c.migration.abortedAt, k.operators)
         && change == MigrationStarted(c'.migration.id, k, tx.at)
       case CompleteMigration(id) =>
         && SameOperators(c, c') && c'.keyspaceVersion == c.keyspaceVersion && Secondary(c') == Secondary(c)
         && c'.migration.id == c.migration.id && c'.migration.startedAt == c.migration.startedAt
         && c'.migration.abortedAt == c.migration.abortedAt
         && (forall idx: Idx :: Holds(c, idx, tx.sender) ==> c'.migration.pulling == c.migration.pulling - {idx})
         && (InProgress(c') ==> Primary(c') == Primary(c) && change == MigrationDataPullCompleted(id, tx.sender))
         && (!InProgress(c') ==> Primary(c') == Secondary(c) && change == MigrationCompleted(id, tx.sender))
       case AbortMigration(id) =>
         && SameOperators(c, c') && c'.keyspaceVersion == c.keyspaceVersion - 1 && Primary(c') == Primary(c)
         && c'.migration == ScMigration(c.migration.id, c.migration.startedAt, tx.at, {})
         && change == MigrationAborted(id, tx.at)
       case AddNodeOperator(operator) =>
         && SameMigration(c, c')
         && exists idx: Idx ::
              && At(c.slots, idx).None? && (forall i: Idx :: i < idx ==> At(c.slots, i).Some?)
              && OneSlotChanged(c, c', idx, Some(operator)) && change == NodeOperatorAdded(idx, operator)
       case UpdateNodeOperatorData(id, data) =>
         && SameMigration(c, c') && change == NodeOperatorUpdated(NodeOperator(id, data))
         && (forall idx: Idx :: Holds(c, idx, id) ==> OneSlotChanged(c, c', idx, Some(NodeOperator(id, data))))
         && (ReadsAsZero(c, id) ==> SameOperators(c, c'))
       case RemoveNodeOperator(id) =>
         && SameMigration(c, c') && change == NodeOperatorRemoved(id)
         && (forall idx: Idx :: Holds(c, idx, id) ==> OneSlotChanged(c, c', idx, None))
         && (ReadsAsZero(c, id) ==> SameOperators(c, c'))
       case SetMaintenance(active) =>
         && SameOperators(c, c') && SameMigration(c, c')
         && c'.maintenance == (if active then Some(tx.sender) else None)
         && change == (if active then MaintenanceStarted(tx.sender) else MaintenanceFinished)
       case UpdateSettings(settings) =>
         && SameOperators(c, c') && SameMigration(c, c')
         && c'.settings == settings && change == SettingsUpdated(settings)
  }

  lemma Parity(n: nat)
    ensures (n + 1) % 2 == 1 - n % 2
    ensures n > 0 ==> (n - 1) % 2 == 1 - n % 2
  {
  }

  lemma MigrationEffect(c: Contract, tx: Tx)
    requires Sound(c) && Step(c, tx).Some?
    requires tx.call.StartMigration? || tx.call.CompleteMigration? || tx.call.AbortMigration?
    ensures
      var (c', e) := Step(c, tx).value;
      Sound(c') && Effect(c, tx, c', e.change)
  {
    StepSound(c, tx);
    Parity(c.keyspaceVersion);
    LookupFinds(c, tx.sender);
  }

  lemma UpdateEffect(c: Contract, tx: Tx, id: Id)
    requires Sound(c) && Step(c, tx).Some? && tx.call.UpdateNodeOperatorData? && tx.call.id == id
    ensures
      var (c', e) := Step(c, tx).value;
      Sound(c') && Effect(c, tx, c', e.change)
  {
    StepSound(c, tx);
    LookupFinds(c, id);
  }

  lemma AddEffect(c: Contract, tx: Tx)
    requires Sound(c) && Step(c, tx).Some? && tx.call.AddNodeOperator?
    ensures
      var (c', e) := Step(c, tx).value;
      Sound(c') && Effect(c, tx, c', e.change)
  {
    StepSound(c, tx);
    var idx := FirstFree(c.slots, 0).value;
    var (c', e) := Step(c, tx).value;
    assert OneSlotChanged(c, c', idx, Some(tx.call.operator));
  }

  lemma RemoveEffect(c: Contract, tx: Tx, id: Id)
    requires Sound(c) && Step(c, tx).Some? && tx.call == RemoveNodeOperator(id)
    ensures
      var (c', e) := Step(c, tx).value;
      Sound(c') && Effect(c, tx, c', e.change)
  {
    StepSound(c, tx);
    LookupFinds(c, id);
    if ReadsAsZero(c, id) {
      assert id !in c.indexes;
      assert c.indexes - {id} == c.indexes && c.slots[0 := None] == c.slots;
    }
  }

  /** An accepted transaction changes what it names and nothing else, and its event says so. */
  lemma EffectsExactly(c: Contract, tx: Tx)
    requires Sound(c) && Step(c, tx).Some?
    ensures
      var (c', e) := Step(c, tx).value;
      Sound(c') && Effect(c, tx, c', e.change)
  {
    match tx.call
    case StartMigration(_) => MigrationEffect(c, tx);
    case CompleteMigration(_) => MigrationEffect(c, tx);
    case AbortMigration(_) => MigrationEffect(c, tx);
    case AddNodeOperator(_) => AddEffect(c, tx);
    case UpdateNodeOperatorData(id, _) => UpdateEffect(c, tx, id);
    case RemoveNodeOperator(id) => RemoveEffect(c, tx, id);
    case SetMaintenance(_) => StepSound(c, tx);
    case UpdateSettings(_) => StepSound(c, tx);
  }

  // ---------------------------------------------------------------------
  // Reading the contract
  // ---------------------------------------------------------------------

  /** The keyspace data is served from, in any state. */
  function Current(c: Contract): Keyspace
    requires |c.keyspaces| == 2
  {
    if InProgress(c) then c.keyspaces[(c.keyspaceVersion + 1) % 2] else c.keyspaces[c.keyspaceVersion % 2]
  }

  predicate BadKeyspace(k: Keyspace) {
    k.replicationStrategy != 0 || |k.operators| < 5 || |k.operators| > 256
  }

  /** The keyspace names a slot that is free or reads as free. */
  predicate NamesNobody(c: Contract, k: Keyspace) {
    exists idx :: idx in k.operators && (At(c.slots, idx).None? || At(c.slots, idx).value.id == 0)
  }

  /** The contract has this reason not to be readable. */
  ghost predicate Unreadable(c: Contract, e: ClusterView.Error)
    requires |c.slots| == MAX_OPERATORS && |c.keyspaces| == 2
  {
    match e
    case NodeOperatorsCreation =>
      || (forall idx: Idx :: idx >= 4 ==> At(c.slots, idx).None?)
      || (exists i: Idx, j: Idx, id: Id :: i < j && id != 0 && Holds(c, i, id) && Holds(c, j, id))
    case InvalidSettings => c.settings.extra.None?
    case InvalidKeyspaceVersion => InProgress(c) && c.keyspaceVersion == 0
    case InvalidKeyspace => BadKeyspace(Current(c)) || (InProgress(c) && BadKeyspace(Secondary(c)))
    case KeyspaceUnknownOperator => NamesNobody(c, Current(c)) || (InProgress(c) && NamesNobody(c, Secondary(c)))
    case InvalidTimestamp(ts) =>
      && ts > MAX_TIMESTAMP
      && (ts == c.migration.startedAt ||
          (ts == c.migration.abortedAt && !InProgress(c) && c.migration.startedAt <= c.migration.abortedAt))
    case _ => false
  }

  lemma ReadableSlots(c: Contract, k: Keyspace)
    requires |c.slots| == MAX_OPERATORS
    ensures Validates(k, Readable(Trim(c.slots))) <==> !NamesNobody(c, k)
  {
    var slots := Readable(Trim(c.slots));
    forall idx: Idx ensures At(slots, idx).Some? <==> At(c.slots, idx).Some? && At(c.slots, idx).value.id != 0 {
      assert At(Trim(c.slots), idx) == At(c.slots, idx);
    }
  }

  lemma ReadableOperators(c: Contract)
    requires |c.slots| == MAX_OPERATORS
    ensures
      var slots := Readable(Trim(c.slots));
      && (|slots| < MIN_OPERATORS <==> forall idx: Idx :: idx >= 4 ==> At(c.slots, idx).None?)
      && (DistinctIds(slots) <==>
          !exists i: Idx, j: Idx, id: Id :: i < j && id != 0 && Holds(c, i, id) && Holds(c, j, id))
  {
    var trimmed, slots := Trim(c.slots), Readable(Trim(c.slots));
    forall idx: Idx ensures At(trimmed, idx) == At(c.slots, idx) {
      assert At(c.slots, idx) == c.slots[idx];
    }
    if |trimmed| >= MIN_OPERATORS {
      assert At(c.slots, |trimmed| - 1).Some?;
    }
    forall i: Idx, j: Idx, id: Id | i < j && id != 0 && Holds(c, i, id) && Holds(c, j, id) ensures !DistinctIds(slots) {
      assert At(trimmed, i) == At(c.slots, i) && At(trimmed, j) == At(c.slots, j);
      assert slots[i].value.id == slots[j].value.id;
    }
    if !DistinctIds(slots) {
      var i, j :| 0 <= i < j < |slots| && slots[i].Some? && slots[j].Some? && slots[i].value.id == slots[j].value.id;
      assert Holds(c, i, slots[i].value.id) && Holds(c, j, slots[i].value.id);
    }
  }

  lemma StateReadable(c: Contract, slots: Slots)
    requires |c.slots| == MAX_OPERATORS && |c.keyspaces| == 2
    requires Validates(Current(c), slots) <==> !NamesNobody(c, Current(c))
    requires Validates(Secondary(c), slots) <==> !NamesNobody(c, Secondary(c))
    ensures match ReadState(c, slots)
            case Ok(_) => forall e :: Unreadable(c, e) ==> e.NodeOperatorsCreation?
            case Err(e) => Unreadable(c, e)
  {
    Parity(c.keyspaceVersion);
  }

  /** The contract cannot be read for a reason that it has, and only then. */
  lemma UnreadableExactly(c: Contract)
    requires |c.slots| == MAX_OPERATORS && |c.keyspaces| == 2
    ensures match Snapshot(c)
            case Ok(_) => forall e :: !Unreadable(c, e)
            case Err(e) => Unreadable(c, e)
  {
    ReadableOperators(c);
    ReadableSlots(c, Current(c));
    ReadableSlots(c, Secondary(c));
    StateReadable(c, Readable(Trim(c.slots)));
  }
}
