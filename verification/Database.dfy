/** The database behind a replica: what executing an operation does to its records, and what reads reply. */
module Database {
  import opened Wrappers
  import opened Bytes
  import opened Storage
  import Context

  /** Where a record is kept: under a key, or under a field of a map. */
  datatype Address = StringAt(key: seq<byte>) | FieldAt(key: seq<byte>, field: Field)

  type Records = map<Address, Context.DataContext>

  function ContextAt(records: Records, a: Address): Context.DataContext {
    if a in records then records[a] else Context.EMPTY
  }

  function MergedAt(records: Records, a: Address, op: Context.MergeOp): Records {
    records[a := ContextAt(records, a).Merge(op)]
  }

  /** Whatever else is merged, in order. */
  function Merged(records: Records, writes: seq<(Address, Context.MergeOp)>): Records
    decreases writes
  {
    if writes == [] then records else Merged(MergedAt(records, writes[0].0, writes[0].1), writes[1..])
  }

  predicate ReadsOneRecord(operation: Operation) {
    operation.Get? || operation.GetExp? || operation.HGet? || operation.HGetExp?
  }

  /** The field an operation on one record is about, `None` for one on a string. */
  function FieldOf(operation: Operation): Option<Field> {
    match operation
    case HGet(_, field) => Some(field)
    case HSet(_, entry) => Some(entry.field)
    case HDel(_, field, _) => Some(field)
    case HGetExp(_, field) => Some(field)
    case HSetExp(_, field, _, _) => Some(field)
    case _ => None
  }

  function AddressOf(operation: Operation): Address {
    match FieldOf(operation)
    case None => StringAt(operation.key)
    case Some(field) => FieldAt(operation.key, field)
  }

  function SetOperand(record: Record): Context.MergeOp {
    Context.MergeOp(Context.Set(record.value, record.expiration), record.version)
  }

  /** What an operation merges into its record, `now` being the clock of the database. */
  function OperandOf(operation: Operation, now: Context.Secs): Option<Context.MergeOp> {
    match operation
    case Set(_, record) => Some(SetOperand(record))
    case HSet(_, entry) => Some(SetOperand(entry.record))
    case Del(_, version) => Some(Context.Deletion(version, now))
    case HDel(_, _, version) => Some(Context.Deletion(version, now))
    case SetExp(_, expiration, version) => Some(Context.MergeOp(Context.SetExp(expiration), version))
    case HSetExp(_, _, expiration, version) => Some(Context.MergeOp(Context.SetExp(expiration), version))
    case _ => None
  }

  function Executed(records: Records, operation: Operation, now: Context.Secs): Records {
    match OperandOf(operation, now)
    case None => records
    case Some(op) => MergedAt(records, AddressOf(operation), op)
  }

  /** The record read from a stored context. */
  function ReadRecord(ctx: Context.DataContext, now: Context.Secs): Option<Record> {
    match ctx.IntoPayload(now)
    case None => None
    case Some(value) => Some(Record(value, ctx.expires, ctx.Version()))
  }

  /** An expired record, or one without payload, has no expiration. */
  function ReadExpiration(ctx: Context.DataContext, now: Context.Secs): Option<Context.Secs> {
    if ctx.Expired(now) || ctx.payload.None? then None else Some(ctx.expires)
  }

  function Replied(records: Records, operation: Operation, now: Context.Secs): Output
    requires ReadsOneRecord(operation)
  {
    var ctx := ContextAt(records, AddressOf(operation));
    if operation.Get? || operation.HGet? then RecordOutput(ReadRecord(ctx, now))
    else ExpirationOutput(ReadExpiration(ctx, now))
  }

  // ---------------------------------------------------------------------
  // Writes and reads
  // ---------------------------------------------------------------------

  /** Some database is changed by the operation. */
  ghost predicate CanChange(operation: Operation) {
    exists records: Records, now: Context.Secs :: Executed(records, operation, now) != records
  }

  /** Exactly the operations that count as writes can change a database. */
  lemma WritesAreWhatChanges(operation: Operation)
    ensures operation.IsWrite() <==> CanChange(operation)
  {
    if operation.IsWrite() {
      assert AddressOf(operation) in Executed(map[], operation, 0);
    }
  }

  /** A record that is not there is expired, is older than any write, and reads as nothing. */
  lemma AbsentIsNotRead(records: Records, read: Operation, now: Context.Secs)
    requires ReadsOneRecord(read) && AddressOf(read) !in records
    ensures ContextAt(records, AddressOf(read)).Expired(now) && ContextAt(records, AddressOf(read)).Version() == 0
    ensures Replied(records, read, now) ==
            if read.Get? || read.HGet? then RecordOutput(None) else ExpirationOutput(None)
  {
  }

  /** What is stored is read until it expires, at the time it was last updated or else created. */
  lemma StoredIsRead(value: Context.Value, expires: Context.Secs, updated: Option<Context.Micros>,
                     created: Context.Micros, now: Context.Secs)
    ensures
      var version := if updated.Some? then updated.value else created;
      && ReadRecord(Context.DataContext(Some(value), expires, updated, created), now) ==
         (if now < expires then Some(Record(value, expires, version)) else None)
      && ReadRecord(Context.DataContext(None, expires, updated, created), now) == None
  {
  }

  /** Both reads of a record reply with `expected`. */
  predicate Reads(records: Records, get: Operation, getExp: Operation, now: Context.Secs, expected: Option<Record>)
    requires (get.Get? && getExp.GetExp?) || (get.HGet? && getExp.HGetExp?)
  {
    && Replied(records, get, now) == RecordOutput(expected)
    && Replied(records, getExp, now) ==
       ExpirationOutput(if expected.Some? then Some(expected.value.expiration) else None)
  }

  function VersionOf(operation: Operation): Context.Micros
    requires operation.IsWrite()
  {
    match operation
    case Set(_, record) => record.version
    case HSet(_, entry) => entry.record.version
    case _ => operation.version
  }

  /** What a reader sees at `later` of a record last written with a payload. */
  function SeenUntil(payload: Option<Context.Value>, expiration: Context.Secs, version: Context.Micros,
                     later: Context.Secs): Option<Record>
  {
    if payload.Some? && later < expiration then Some(Record(payload.value, expiration, version)) else None
  }

  /**
   A newer write is what is read from then on: a record until it expires, nothing
   after a deletion, and the same payload until its new expiration.
   */
  lemma NewerWriteIsRead(records: Records, write: Operation, now: Context.Secs, later: Context.Secs)
    requires write.IsWrite() && ContextAt(records, AddressOf(write)).Version() < VersionOf(write)
    ensures
      var after, stored := Executed(records, write, now), ContextAt(records, AddressOf(write)).payload;
      match write
      case Set(key, r) => Reads(after, Get(key), GetExp(key), later, if later < r.expiration then Some(r) else None)
      case HSet(key, MapEntry(field, r)) =>
        Reads(after, HGet(key, field), HGetExp(key, field), later, if later < r.expiration then Some(r) else None)
      case Del(key, _) => Reads(after, Get(key), GetExp(key), later, None)
      case HDel(key, field, _) => Reads(after, HGet(key, field), HGetExp(key, field), later, None)
      case SetExp(key, expiration, version) =>
        Reads(after, Get(key), GetExp(key), later, SeenUntil(stored, expiration, version, later))
      case HSetExp(key, field, expiration, version) =>
        Reads(after, HGet(key, field), HGetExp(key, field), later, SeenUntil(stored, expiration, version, later))
      case _ => true
  {
  }

  /** A write that is not newer changes no reply. */
  lemma StaleWriteIsNotRead(records: Records, write: Operation, now: Context.Secs, read: Operation, later: Context.Secs)
    requires write.IsWrite() && VersionOf(write) <= ContextAt(records, AddressOf(write)).Version()
    requires ReadsOneRecord(read)
    ensures Replied(Executed(records, write, now), read, later) == Replied(records, read, later)
  {
  }

  /** A write changes no reply about another key, another field, or the string under the key of a map. */
  lemma OtherRecordsAreKept(records: Records, write: Operation, now: Context.Secs, read: Operation, later: Context.Secs)
    requires write.IsWrite() && ReadsOneRecord(read)
    requires write.key != read.key || FieldOf(write) != FieldOf(read)
    ensures Replied(Executed(records, write, now), read, later) == Replied(records, read, later)
  {
  }

  /** A deletion leaves a mark for a day, which keeps older writes out. */
  lemma DeletionStaysForADay(records: Records, deletion: Operation, now: Context.Secs, later: Context.Secs)
    requires deletion.Del? || deletion.HDel?
    requires ContextAt(records, AddressOf(deletion)).Version() < deletion.version
    ensures
      var mark := ContextAt(Executed(records, deletion, now), AddressOf(deletion));
      mark.Version() == deletion.version && (mark.Expired(later) <==> now + 24 * 60 * 60 <= later)
  {
  }
}
