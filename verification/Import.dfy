/**
 Importing a stream of exported records into a database: the batching loop, the
 join of two stores it computes, and why a pull may be retried.
 */
module Import {
  import opened Wrappers
  import opened Bytes
  import opened Context

  /** Key-value pairs written to the database in one batch. */
  const IMPORTER_BATCH_SIZE: nat := 1024

  datatype ColumnFamily = GenericString | GenericMap
  datatype Key = Key(cf: ColumnFamily, bytes: seq<byte>)
  type Store = map<Key, DataContext>

  /** The record under a key; an absent key reads as the empty context. */
  function Get(store: Store, key: Key): DataContext {
    if key in store then store[key] else EMPTY
  }

  datatype Write = Write(key: Key, op: MergeOp)

  function MergeAt(store: Store, w: Write): Store {
    store[w.key := Get(store, w.key).Merge(w.op)]
  }

  /** A write batch, applied in order. */
  function Commit(store: Store, batch: seq<Write>): Store
    decreases batch
  {
    if batch == [] then store else Commit(MergeAt(store, batch[0]), batch[1..])
  }

  /** One exported record; the value is `None` when its bytes do not decode. */
  datatype Frame = Frame(key: Key, value: Option<DataContext>)

  datatype ExportItem = Exported(frame: Result<Frame, ()>) | Done(count: nat)

  /** What the stream yields: an item, or a transport error. */
  type StreamItem = Result<ExportItem, ()>

  datatype ImportError =
    | StreamErrored
    | ExporterErrored
    | CountMismatch(announced: nat, processed: nat)
    | BadValue
    | DoneMissing
    | Backend

  predicate IsRecord(item: StreamItem) {
    item.Ok? && item.value.Exported? && item.value.frame.Ok? && item.value.frame.value.value.Some?
  }

  /** A record as exported, with the time the importer reads its own clock. */
  datatype Record = Record(key: Key, ctx: DataContext, at: Secs) {
    function ToWrite(): Write {
      Write(key, ctx.ToMergeOp(at))
    }
  }

  /** The records a stream opens with, up to the first item that is not one. */
  function Leading(data: seq<StreamItem>, clock: nat -> Secs, from: nat): (rs: seq<Record>)
    ensures |rs| <= |data|
    ensures forall i :: 0 <= i < |rs| ==> IsRecord(data[i])
    ensures |rs| < |data| ==> !IsRecord(data[|rs|])
  {
    if data == [] || !IsRecord(data[0]) then []
    else
      var frame := data[0].value.frame.value;
      [Record(frame.key, frame.value.value, clock(from))] + Leading(data[1..], clock, from + 1)
  }

  function Writes(records: seq<Record>): (ws: seq<Write>)
    ensures |ws| == |records|
  {
    seq(|records|, i requires 0 <= i < |records| => records[i].ToWrite())
  }

  /** Why the import ends after `n` records, when every batch reaches the disk. */
  function Ending(data: seq<StreamItem>, n: nat): Result<(), ImportError>
    requires n <= |data|
    requires n < |data| ==> !IsRecord(data[n])
  {
    if n == |data| then Err(DoneMissing)
    else match data[n]
      case Err(_) => Err(StreamErrored)
      case Ok(Done(count)) => if count == n then Ok(()) else Err(CountMismatch(count, n))
      case Ok(Exported(frame)) => if frame.Err? then Err(ExporterErrored) else Err(BadValue)
  }

  /** A stream of as many records as its count says, before anything else. */
  ghost predicate Accepted(data: seq<StreamItem>) {
    exists n: nat :: n < |data| && data[n] == Ok(Done(n)) && forall i :: 0 <= i < n ==> IsRecord(data[i])
  }

  /** Each way to end, by the first item that is not a record. */
  lemma EndingExact(data: seq<StreamItem>, n: nat)
    requires n <= |data| && (n < |data| ==> !IsRecord(data[n])) && forall i :: 0 <= i < n ==> IsRecord(data[i])
    ensures
      var end := Ending(data, n);
      && (end.Ok? <==> Accepted(data))
      && (end == Err(DoneMissing) <==> n == |data|)
      && (end == Err(StreamErrored) <==> n < |data| && data[n].Err?)
      && (end == Err(ExporterErrored) <==>
            n < |data| && data[n].Ok? && data[n].value.Exported? && data[n].value.frame.Err?)
      && (end == Err(BadValue) <==>
            n < |data| && data[n].Ok? && data[n].value.Exported? && data[n].value.frame.Ok?)
      && (forall announced, processed :: end == Err(CountMismatch(announced, processed)) <==>
            n < |data| && data[n] == Ok(Done(announced)) && processed == n && announced != n)
  {
    if Accepted(data) {
      var m: nat :| m < |data| && data[m] == Ok(Done(m)) && forall i :: 0 <= i < m ==> IsRecord(data[i]);
      assert m == n;
    }
  }

  /** One of the full batches, or the last one if the import gets to it, does not reach the disk. */
  ghost predicate DiskFails(disk: nat -> bool, full: nat, toTheEnd: bool) {
    (exists j :: 0 <= j < full && !disk(j)) || (toTheEnd && !disk(full))
  }

  lemma {:induction false} CommitConcat(store: Store, a: seq<Write>, b: seq<Write>)
    ensures Commit(store, a + b) == Commit(Commit(store, a), b)
    decreases a
  {
    if a == [] {
      assert a + b == b;
    } else {
      assert (a + b)[1..] == a[1..] + b;
      CommitConcat(MergeAt(store, a[0]), a[1..], b);
    }
  }

  lemma {:induction false} LeadingAt(data: seq<StreamItem>, clock: nat -> Secs, from: nat, i: nat)
    requires i < |Leading(data, clock, from)|
    ensures IsRecord(data[i])
    ensures Leading(data, clock, from)[i] ==
            Record(data[i].value.frame.value.key, data[i].value.frame.value.value.value, clock(from + i))
  {
    if i > 0 {
      LeadingAt(data[1..], clock, from + 1, i - 1);
    }
  }

  lemma {:induction false} LeadingLength(data: seq<StreamItem>, clock: nat -> Secs, from: nat, n: nat)
    requires n <= |data| && (forall i :: 0 <= i < n ==> IsRecord(data[i]))
    ensures n <= |Leading(data, clock, from)|
  {
  }

  class RocksBackend {
    var store: Store

    /** Commits an atomic batch; `reachable` says whether the disk accepts it. */
    method WriteBatch(batch: seq<Write>, reachable: bool) returns (r: Result<(), ImportError>)
      modifies this
      ensures r == if reachable then Ok(()) else Err(Backend)
      ensures store == if reachable then Commit(old(store), batch) else old(store)
    {
      if !reachable {
        return Err(Backend);
      }
      store := Commit(store, batch);
      return Ok(());
    }

    /**
     Imports a stream. `clock(i)` is the local time when record `i` is decoded
     and `disk(j)` says whether the `j`-th batch write succeeds. `flushed` counts
     the full batches written before the end.
     */
    method ImportAll(data: seq<StreamItem>, clock: nat -> Secs, disk: nat -> bool)
      returns (r: Result<(), ImportError>, flushed: nat)
      modifies this
      ensures
        var n := |Leading(data, clock, 0)|;
        r == if DiskFails(disk, n / IMPORTER_BATCH_SIZE, Ending(data, n).Ok?) then Err(Backend) else Ending(data, n)
      ensures r.Ok? ==> Accepted(data)
      ensures Accepted(data) && (forall j :: disk(j)) ==> r.Ok?
      ensures flushed * IMPORTER_BATCH_SIZE <= |Leading(data, clock, 0)|
      ensures r.Err? && r.error != Backend ==> flushed == |Leading(data, clock, 0)| / 1024
      ensures
        var records := Leading(data, clock, 0);
        store == Commit(old(store), Writes(if r.Ok? then records else records[..flushed * IMPORTER_BATCH_SIZE]))
    {
      ghost var records := Leading(data, clock, 0);
      var total, processed: nat := 0, 0;
      var batch: seq<Write> := [];
      flushed := 0;
      assert Writes(records[..0]) == [];
      while total < |data|
        invariant total <= |records|
        invariant total == flushed * IMPORTER_BATCH_SIZE + processed && processed < IMPORTER_BATCH_SIZE
        invariant batch == Writes(records[flushed * IMPORTER_BATCH_SIZE..total])
        invariant store == Commit(old(store), Writes(records[..flushed * IMPORTER_BATCH_SIZE]))
        invariant forall j :: 0 <= j < flushed ==> disk(j)
        decreases |data| - total
      {
        if !IsRecord(data[total]) {
          LeadingStops(data, clock, disk, total, flushed, processed);
        }
        if data[total].Err? {
          return Err(StreamErrored), flushed;
        }
        match data[total].value {
          case Done(count) =>
            if count != total {
              return Err(CountMismatch(count, total)), flushed;
            }
            assert records[..total] == records;
            BatchCompletes(old(store), records, flushed * IMPORTER_BATCH_SIZE, total);
            r := WriteBatch(batch, disk(flushed));
            return;
          case Exported(res) =>
            if res.Err? {
              return Err(ExporterErrored), flushed;
            }
            if res.value.value.None? {
              return Err(BadValue), flushed;
            }
            NextRecord(data, clock, flushed * IMPORTER_BATCH_SIZE, total);
            FlushFits(|records|, total, flushed, processed);
            batch := batch + [Write(res.value.key, res.value.value.value.ToMergeOp(clock(total)))];
            total, processed := total + 1, processed + 1;
            if processed >= IMPORTER_BATCH_SIZE {
              BatchCompletes(old(store), records, flushed * IMPORTER_BATCH_SIZE, total);
              var written := WriteBatch(batch, disk(flushed));
              if written.Err? {
                return Err(Backend), flushed;
              }
              flushed, processed, batch := flushed + 1, 0, [];
            }
        }
      }
      LeadingStops(data, clock, disk, total, flushed, processed);
      return Err(DoneMissing), flushed;
    }
  }

  /** The loop stops where the leading records do. */
  lemma LeadingStops(data: seq<StreamItem>, clock: nat -> Secs, disk: nat -> bool, n: nat, flushed: nat, processed: nat)
    requires n <= |Leading(data, clock, 0)| && n <= |data| && (n < |data| ==> !IsRecord(data[n]))
    requires n == flushed * IMPORTER_BATCH_SIZE + processed && processed < IMPORTER_BATCH_SIZE
    requires forall j :: 0 <= j < flushed ==> disk(j)
    ensures |Leading(data, clock, 0)| == n && n / IMPORTER_BATCH_SIZE == flushed
    ensures DiskFails(disk, flushed, Ending(data, n).Ok?) <==> Ending(data, n).Ok? && !disk(flushed)
    ensures Ending(data, n).Ok? <==> Accepted(data)
  {
    EndingExact(data, n);
  }

  lemma FlushFits(records: nat, n: nat, flushed: nat, processed: nat)
    requires n < records && n == flushed * IMPORTER_BATCH_SIZE + processed && processed < IMPORTER_BATCH_SIZE
    ensures processed + 1 == IMPORTER_BATCH_SIZE ==> flushed < records / IMPORTER_BATCH_SIZE
  {
  }

  lemma BatchCompletes(store: Store, records: seq<Record>, i: nat, j: nat)
    requires i <= j <= |records|
    ensures Commit(Commit(store, Writes(records[..i])), Writes(records[i..j])) == Commit(store, Writes(records[..j]))
  {
    assert Writes(records[..j]) == Writes(records[..i]) + Writes(records[i..j]);
    CommitConcat(store, Writes(records[..i]), Writes(records[i..j]));
  }

  lemma NextRecord(data: seq<StreamItem>, clock: nat -> Secs, from: nat, n: nat)
    requires from <= n < |data| && n <= |Leading(data, clock, 0)| && IsRecord(data[n])
    ensures n < |Leading(data, clock, 0)|
    ensures
      var frame := data[n].value.frame.value;
      Writes(Leading(data, clock, 0)[from..n + 1]) ==
      Writes(Leading(data, clock, 0)[from..n]) + [Write(frame.key, frame.value.value.ToMergeOp(clock(n)))]
  {
    LeadingLength(data, clock, 0, n + 1);
    LeadingAt(data, clock, 0, n);
  }

  // ---------------------------------------------------------------------
  // Import as a join
  // ---------------------------------------------------------------------

  function OpsAt(batch: seq<Write>, key: Key): seq<MergeOp> {
    if batch == [] then []
    else (if batch[0].key == key then [batch[0].op] else []) + OpsAt(batch[1..], key)
  }

  lemma {:induction false} CommitAt(store: Store, batch: seq<Write>, key: Key)
    ensures Get(Commit(store, batch), key) == ApplyAll(Get(store, key), OpsAt(batch, key))
    ensures key in Commit(store, batch) <==> key in store || OpsAt(batch, key) != []
    decreases batch
  {
    if batch != [] {
      CommitAt(MergeAt(store, batch[0]), batch[1..], key);
      ApplyAllConcat(Get(store, key), if batch[0].key == key then [batch[0].op] else [], OpsAt(batch[1..], key));
    }
  }

  predicate DistinctKeys(records: seq<Record>) {
    forall i, j :: 0 <= i < j < |records| ==> records[i].key != records[j].key
  }

  lemma {:induction false} OpsAtDistinct(records: seq<Record>, key: Key)
    requires DistinctKeys(records)
    ensures (forall i :: 0 <= i < |records| ==> records[i].key != key) ==> OpsAt(Writes(records), key) == []
    ensures forall i :: 0 <= i < |records| && records[i].key == key ==>
              OpsAt(Writes(records), key) == [records[i].ToWrite().op]
  {
    if records != [] {
      assert Writes(records)[1..] == Writes(records[1..]);
      OpsAtDistinct(records[1..], key);
      assert forall i :: 0 < i < |records| ==> records[i] == records[1..][i - 1];
    }
  }

  /** `r` is the newer of `ours` and `theirs`, `ours` on a tie. */
  predicate IsNewer(ours: DataContext, theirs: DataContext, r: DataContext) {
    if theirs.Version() <= ours.Version() then r == ours
    else
      && r.payload == theirs.payload
      && r.Version() == theirs.Version()
      && (theirs.payload.Some? ==> r.expires == theirs.expires)
  }

  /** A complete import leaves every key with the newer record of the two stores, and deletion marks for another day. */
  lemma ImportIsJoin(ours: Store, records: seq<Record>, key: Key)
    requires DistinctKeys(records)
    ensures
      var after := Commit(ours, Writes(records));
      && (forall i :: 0 <= i < |records| && records[i].key == key ==>
            && key in after && IsNewer(Get(ours, key), records[i].ctx, after[key])
            && (Get(ours, key).Version() < records[i].ctx.Version() && records[i].ctx.payload.None? ==>
                  after[key].expires == records[i].at + 24 * 60 * 60))
      && ((forall i :: 0 <= i < |records| ==> records[i].key != key) ==>
            Get(after, key) == Get(ours, key) && (key in after <==> key in ours))
  {
    CommitAt(ours, Writes(records), key);
    OpsAtDistinct(records, key);
    if i :| 0 <= i < |records| && records[i].key == key {
      ApplyAllOne(Get(ours, key), records[i].ToWrite().op);
    }
  }

  lemma ApplyAllOne(ctx: DataContext, op: MergeOp)
    ensures ApplyAll(ctx, [op]) == ctx.Merge(op)
  {
  }

  // ---------------------------------------------------------------------
  // Retries
  // ---------------------------------------------------------------------

  /** What a sequence of failed attempts leaves behind: each wrote some of its records. */
  function AfterAttempts(store: Store, attempts: seq<seq<Record>>): Store
    decreases attempts
  {
    if attempts == [] then store
    else AfterAttempts(Commit(store, Writes(attempts[0])), attempts[1..])
  }

  /** The source only moved forward between an earlier export and the last one. */
  predicate Superseded(earlier: Record, records: seq<Record>) {
    exists i :: 0 <= i < |records| && records[i].key == earlier.key &&
      (|| earlier.ctx.Version() < records[i].ctx.Version()
       || (earlier.ctx.Version() == records[i].ctx.Version() &&
           earlier.ctx.payload == records[i].ctx.payload &&
           (earlier.ctx.payload.Some? ==> earlier.ctx.expires == records[i].ctx.expires)))
  }

  lemma {:induction false} Absorbed(ctx: DataContext, ops: seq<MergeOp>, last: MergeOp)
    requires IsWrite(last) && AllWrites(ops)
    requires forall op :: op in ops ==> op.timestamp < last.timestamp || EraseOp(op) == EraseOp(last)
    ensures SameRecord(ApplyAll(ctx, ops).Merge(last), ctx.Merge(last))
    decreases ops
  {
    if ops != [] {
      Absorbed(ctx.Merge(ops[0]), ops[1..], last);
    }
  }

  lemma {:induction false} OpsAtMember(records: seq<Record>, key: Key)
    ensures forall op :: op in OpsAt(Writes(records), key) ==>
              exists i :: 0 <= i < |records| && records[i].key == key && op == records[i].ToWrite().op
  {
    if records != [] {
      assert Writes(records)[1..] == Writes(records[1..]);
      OpsAtMember(records[1..], key);
      forall op | op in OpsAt(Writes(records), key)
        ensures exists i :: 0 <= i < |records| && records[i].key == key && op == records[i].ToWrite().op
      {
        if op in OpsAt(Writes(records[1..]), key) {
          var i :| 0 <= i < |records[1..]| && records[1..][i].key == key && op == records[1..][i].ToWrite().op;
          assert records[i + 1] == records[1..][i];
        } else {
          assert op == records[0].ToWrite().op;
        }
      }
    }
  }

  /** Completing after one earlier, partial attempt is the same as completing at once. */
  lemma OneRetryIsSafe(store: Store, attempt: seq<Record>, records: seq<Record>, key: Key)
    requires DistinctKeys(records)
    requires forall r :: r in attempt ==> Superseded(r, records)
    ensures
      var clean := Commit(store, Writes(records));
      var retried := Commit(Commit(store, Writes(attempt)), Writes(records));
      && (key in retried <==> key in clean)
      && SameRecord(Get(retried, key), Get(clean, key))
  {
    var before, ops := OpsAt(Writes(attempt), key), OpsAt(Writes(records), key);
    CommitAt(store, Writes(attempt), key);
    CommitAt(Commit(store, Writes(attempt)), Writes(records), key);
    CommitAt(store, Writes(records), key);
    OpsAtDistinct(records, key);
    OpsAtMember(attempt, key);
    assert before != [] ==> exists i :: 0 <= i < |records| && records[i].key == key by {
      if before != [] {
        assert before[0] in before;
        var j :| 0 <= j < |attempt| && attempt[j].key == key && before[0] == attempt[j].ToWrite().op;
        assert Superseded(attempt[j], records);
      }
    }
    if i :| 0 <= i < |records| && records[i].key == key {
      var last := records[i].ToWrite().op;
      forall op | op in before
        ensures IsWrite(op) && (op.timestamp < last.timestamp || EraseOp(op) == EraseOp(last))
      {
        var j :| 0 <= j < |attempt| && attempt[j].key == key && op == attempt[j].ToWrite().op;
        assert Superseded(attempt[j], records);
      }
      Absorbed(Get(store, key), before, last);
      ApplyAllOne(Get(store, key), last);
      ApplyAllOne(ApplyAll(Get(store, key), before), last);
    }
  }

  /**
   Any number of failed attempts, each leaving some prefix of an earlier export,
   followed by a complete import, gives what one clean import gives.
   */
  lemma {:induction false} RetriesAreSafe(store: Store, attempts: seq<seq<Record>>, records: seq<Record>, key: Key)
    requires DistinctKeys(records)
    requires forall a, r :: a in attempts && r in a ==> Superseded(r, records)
    ensures
      var clean := Commit(store, Writes(records));
      var retried := Commit(AfterAttempts(store, attempts), Writes(records));
      && (key in retried <==> key in clean)
      && SameRecord(Get(retried, key), Get(clean, key))
    decreases attempts
  {
    if attempts != [] {
      RetriesAreSafe(Commit(store, Writes(attempts[0])), attempts[1..], records, key);
      OneRetryIsSafe(store, attempts[0], records, key);
    }
  }

  // ---------------------------------------------------------------------
  // Retries from a source that is being written to
  // ---------------------------------------------------------------------

  /** Operands of any kind leave a record as it was or make it newer. */
  lemma {:induction false} OpsMoveForward(ctx: DataContext, ops: seq<MergeOp>)
    ensures var after := ApplyAll(ctx, ops); ctx == after || ctx.Version() < after.Version()
    decreases |ops|
  {
    if ops != [] {
      OpsMoveForward(ctx.Merge(ops[0]), ops[1..]);
    }
  }

  lemma WritesMoveForward(store: Store, batch: seq<Write>, key: Key)
    ensures
      var before, after := Get(store, key), Get(Commit(store, batch), key);
      before == after || before.Version() < after.Version()
  {
    CommitAt(store, batch, key);
    OpsMoveForward(Get(store, key), OpsAt(batch, key));
  }

  /** `records` are records of the store, possibly not all of them. */
  predicate TakenFrom(records: seq<Record>, store: Store) {
    forall r :: r in records ==> r.key in store && r.ctx == store[r.key]
  }

  /** `records` has the record of every key the attempts have read. */
  predicate Rereads(records: seq<Record>, store: Store, attempt: seq<Record>) {
    forall r :: r in attempt ==> HasRecord(records, r.key, Get(store, r.key))
  }

  predicate HasRecord(records: seq<Record>, key: Key, ctx: DataContext) {
    exists i :: 0 <= i < |records| && records[i].key == key && records[i].ctx == ctx
  }

  /** What was exported before some writes is superseded by what is exported after them. */
  lemma LaterExportSupersedes(store: Store, batch: seq<Write>, attempt: seq<Record>, records: seq<Record>)
    requires TakenFrom(attempt, store) && Rereads(records, Commit(store, batch), attempt)
    ensures forall r :: r in attempt ==> Superseded(r, records)
  {
    forall r | r in attempt ensures Superseded(r, records) {
      WritesMoveForward(store, batch, r.key);
      assert HasRecord(records, r.key, Get(Commit(store, batch), r.key));
      var i :| 0 <= i < |records| && records[i].key == r.key && records[i].ctx == Get(Commit(store, batch), r.key);
    }
  }

  /**
   Attempts may read the source at any points of its log of writes, in any
   order, and write any part of what they read: once an import of a later
   export completes, the destination is as after that import alone.
   */
  lemma PullsMayBeRetried(store: Store, source: Store, log: seq<Write>, cuts: seq<nat>, attempts: seq<seq<Record>>,
                          records: seq<Record>, key: Key)
    requires |cuts| == |attempts| && DistinctKeys(records)
    requires forall i :: 0 <= i < |cuts| ==> cuts[i] <= |log| && TakenFrom(attempts[i], Commit(source, log[..cuts[i]]))
    requires forall i :: 0 <= i < |attempts| ==> Rereads(records, Commit(source, log), attempts[i])
    ensures
      var clean := Commit(store, Writes(records));
      var retried := Commit(AfterAttempts(store, attempts), Writes(records));
      && (key in retried <==> key in clean)
      && SameRecord(Get(retried, key), Get(clean, key))
  {
    forall a, r | a in attempts && r in a ensures Superseded(r, records) {
      var i :| 0 <= i < |attempts| && attempts[i] == a;
      var past, since := log[..cuts[i]], log[cuts[i]..];
      assert log == past + since;
      CommitConcat(source, past, since);
      LaterExportSupersedes(Commit(source, past), since, a, records);
    }
    RetriesAreSafe(store, attempts, records, key);
  }
}
