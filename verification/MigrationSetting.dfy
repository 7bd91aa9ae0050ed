/** How a cluster view, its coordinators and its exports provide what a safe migration relies on. */
module MigrationSetting {
  import opened Wrappers
  import opened Sets
  import opened Sharding
  import opened MigrationSafety
  import Context
  import Import
  import Export
  import Storage
  import Quorums
  import Coordinator
  import Database
  import RS = ReplicaSets
  import CV = ClusterView

  // ---------------------------------------------------------------------
  // Replica sets from the view
  // ---------------------------------------------------------------------

  function ShardOf(key: Import.Key): ShardId {
    if |key.bytes| < 8 then 0 else FromKey(Export.Entry(key.bytes, Context.EMPTY).Position())
  }

  /** The migration a view in progress describes. */
  ghost function FromView(hash: Hash, v: CV.ViewState,
                          payload: (Import.Key, Context.Micros) -> Option<Context.Value>): (c: Config)
    requires v.migration.IsInProgress()
    requires RS.RF <= |v.keyspace.operators| && RS.RF <= |v.migration.state.keyspace.operators|
    ensures c.Valid()
  {
    Config(v,
           (s: ShardId) => CV.ShardReplicas(hash, v.keyspace, s),
           (s: ShardId) => CV.ShardReplicas(hash, v.migration.state.keyspace, s),
           (key: Import.Key) => ShardOf(key),
           payload)
  }

  /** Coordinators route a write to the replica sets the migration is about. */
  lemma RoutingMatches(hash: Hash, v: CV.ViewState, payload: (Import.Key, Context.Micros) -> Option<Context.Value>,
                       key: Import.Key, position: Position, routed: CV.Instant)
    requires v.migration.IsInProgress()
    requires RS.RF <= |v.keyspace.operators| && RS.RF <= |v.migration.state.keyspace.operators|
    requires |key.bytes| >= 8 && position == Export.Entry(key.bytes, Context.EMPTY).Position()
    ensures
      var c := FromView(hash, v, payload);
      && CV.PrimaryReplicaSet(hash, v, position) == c.before(c.shardOf(key))
      && CV.SecondaryReplicaSet(hash, v, position, routed) ==
         if CV.IsShadowing(v, routed) then Some(c.after(c.shardOf(key))) else None
  {
  }

  // ---------------------------------------------------------------------
  // Acknowledgements from the coordinator
  // ---------------------------------------------------------------------

  /** When a coordinator answers Ok to a write and replicas answer Ok only after executing it, the write is acknowledged. */
  lemma AnswerIsAcknowledgement(c: Config, s: Cluster, i: nat, operation: Storage.Operation,
                                replies: map<RS.Operator, Storage.Response>, answer: Storage.Response)
    requires i < |s.requests| && Database.CanChange(operation) && answer.Ok?
    requires forall o :: o in c.before(c.shardOf(s.requests[i].key)) ==> o in replies
    requires Coordinator.IsAnswer(operation, c.before(c.shardOf(s.requests[i].key)),
                                  if s.requests[i].shadowed then Some(c.after(c.shardOf(s.requests[i].key))) else None,
                                  replies, answer)
    requires forall o :: o in replies && replies[o].Ok? ==> (o, i) in s.executed
    ensures Acknowledged(c, s, i)
  {
    var shard := c.shardOf(s.requests[i].key);
    Coordinator.AcknowledgedByMajorities(operation, c.before(shard),
      if s.requests[i].shadowed then Some(c.after(shard)) else None, replies, answer);
    SubsetSize(Quorums.Voters(c.before(shard), replies.Keys, replies, answer), Executors(s, c.before(shard), i));
    if s.requests[i].shadowed {
      SubsetSize(Quorums.Voters(c.after(shard), replies.Keys, replies, answer), Executors(s, c.after(shard), i));
    }
  }

  /** Whatever can change a replica is a write of the migration, with the same operand at every clock. */
  lemma WritesAreRequests(operation: Storage.Operation, key: Import.Key, version: int, shadowed: bool)
    requires Database.CanChange(operation)
    ensures
      exists r: Request ::
        && r.key == key && r.version == version && r.shadowed == shadowed
        && forall now :: Some(r.Operand(now)) == Database.OperandOf(operation, now)
  {
    Database.WritesAreWhatChanges(operation);
    var kind :=
      match operation
      case Set(_, record) => Put(record.value, record.expiration)
      case HSet(_, entry) => Put(entry.record.value, entry.record.expiration)
      case SetExp(_, expiration, _) => Touch(expiration)
      case HSetExp(_, _, expiration, _) => Touch(expiration)
      case _ => Remove;
    var r := Request(key, kind, Database.VersionOf(operation), version, shadowed);
    assert forall now :: Some(r.Operand(now)) == Database.OperandOf(operation, now);
  }

  // ---------------------------------------------------------------------
  // Complete exports from the source's columns
  // ---------------------------------------------------------------------

  /** `column` is the part of the store kept in one column family, as its iterator sees it. */
  ghost predicate IsColumn(store: Import.Store, cf: Import.ColumnFamily, column: seq<Export.Entry>) {
    && Export.Sorted(column)
    && (forall i :: 0 <= i < |column| ==>
          Import.Key(cf, column[i].key) in store && store[Import.Key(cf, column[i].key)] == column[i].ctx)
    && (forall key :: key in store && key.cf == cf ==> Export.Entry(key.bytes, store[key]) in column)
  }

  lemma InShard(column: seq<Export.Entry>, shard: ShardId, e: Export.Entry)
    requires Export.Sorted(column)
    ensures e in Export.InRange(column, KeyRange(shard)) <==>
            e in column && |e.key| >= 8 && FromKey(e.Position()) == shard
  {
  }

  /** The records of the part of a column that belongs to a shard. */
  function ColumnRecords(cf: Import.ColumnFamily, column: seq<Export.Entry>, shard: ShardId,
                         clock: nat -> Context.Secs): seq<Import.Record> {
    Export.Records(cf, Export.InRange(column, KeyRange(shard)), clock)
  }

  lemma ColumnHas(store: Import.Store, column: seq<Export.Entry>, shard: ShardId, clock: nat -> Context.Secs,
                  key: Import.Key)
    returns (k: nat)
    requires IsColumn(store, key.cf, column) && key in store && ShardOf(key) == shard
    ensures
      var records := ColumnRecords(key.cf, column, shard, clock);
      k < |records| && records[k].key == key && records[k].ctx == store[key]
  {
    var e := Export.Entry(key.bytes, store[key]);
    assert e in column;
    InShard(column, shard, e);
    k :| 0 <= k < |Export.InRange(column, KeyRange(shard))| && Export.InRange(column, KeyRange(shard))[k] == e;
  }

  lemma ColumnHasOnly(store: Import.Store, cf: Import.ColumnFamily, column: seq<Export.Entry>, shard: ShardId,
                      clock: nat -> Context.Secs, k: nat)
    requires IsColumn(store, cf, column) && k < |ColumnRecords(cf, column, shard, clock)|
    ensures
      var record := ColumnRecords(cf, column, shard, clock)[k];
      record.key in store && record.ctx == store[record.key]
  {
    var e := Export.InRange(column, KeyRange(shard))[k];
    InShard(column, shard, e);
    var i :| 0 <= i < |column| && column[i] == e;
  }

  /** The records a shard is exported as, strings before map entries. */
  function ShardRecords(strings: seq<Export.Entry>, maps: seq<Export.Entry>, shard: ShardId,
                        clock: nat -> Context.Secs): seq<Import.Record> {
    ColumnRecords(Import.GenericString, strings, shard, clock) + ColumnRecords(Import.GenericMap, maps, shard, clock)
  }

  /** What a source streams for a shard is a complete export of it. */
  lemma ExportIsComplete(c: Config, store: Import.Store, strings: seq<Export.Entry>, maps: seq<Export.Entry>,
                         shard: ShardId,
                         clock: nat -> Context.Secs)
    requires IsColumn(store, Import.GenericString, strings) && IsColumn(store, Import.GenericMap, maps)
    requires forall key :: c.shardOf(key) == ShardOf(key)
    ensures IsExport(c, ShardRecords(strings, maps, shard, clock), store, shard)
  {
    forall key | key in store && c.shardOf(key) == shard
      ensures Exported(ShardRecords(strings, maps, shard, clock), store, key)
    {
      ShardHas(store, strings, maps, shard, clock, key);
    }
    forall k: nat | k < |ShardRecords(strings, maps, shard, clock)|
      ensures
        var record := ShardRecords(strings, maps, shard, clock)[k];
        record.key in store && record.ctx == store[record.key]
    {
      ShardHasOnly(store, strings, maps, shard, clock, k);
    }
  }

  lemma ShardHas(store: Import.Store, strings: seq<Export.Entry>, maps: seq<Export.Entry>, shard: ShardId,
                 clock: nat -> Context.Secs, key: Import.Key)
    requires IsColumn(store, Import.GenericString, strings) && IsColumn(store, Import.GenericMap, maps)
    requires key in store && ShardOf(key) == shard
    ensures Exported(ShardRecords(strings, maps, shard, clock), store, key)
  {
    var first := ColumnRecords(Import.GenericString, strings, shard, clock);
    var second := ColumnRecords(Import.GenericMap, maps, shard, clock);
    if key.cf == Import.GenericString {
      var k := ColumnHas(store, strings, shard, clock, key);
      ExportedFirst(store, key, first, second, k);
    } else {
      var k := ColumnHas(store, maps, shard, clock, key);
      ExportedSecond(store, key, first, second, k);
    }
  }

  lemma ExportedFirst(store: Import.Store, key: Import.Key, first: seq<Import.Record>, second: seq<Import.Record>,
                      k: nat)
    requires key in store && k < |first| && first[k].key == key && first[k].ctx == store[key]
    ensures Exported(first + second, store, key)
  {
    assert (first + second)[k] == first[k];
  }

  lemma ExportedSecond(store: Import.Store, key: Import.Key, first: seq<Import.Record>, second: seq<Import.Record>,
                       k: nat)
    requires key in store && k < |second| && second[k].key == key && second[k].ctx == store[key]
    ensures Exported(first + second, store, key)
  {
    assert (first + second)[|first| + k] == second[k];
  }

  lemma ShardHasOnly(store: Import.Store, strings: seq<Export.Entry>, maps: seq<Export.Entry>, shard: ShardId,
                     clock: nat -> Context.Secs, k: nat)
    requires IsColumn(store, Import.GenericString, strings) && IsColumn(store, Import.GenericMap, maps)
    requires k < |ShardRecords(strings, maps, shard, clock)|
    ensures
      var record := ShardRecords(strings, maps, shard, clock)[k];
      record.key in store && record.ctx == store[record.key]
  {
    var first := ColumnRecords(Import.GenericString, strings, shard, clock);
    if k < |first| {
      ColumnHasOnly(store, Import.GenericString, strings, shard, clock, k);
    } else {
      ColumnHasOnly(store, Import.GenericMap, maps, shard, clock, k - |first|);
    }
  }

  /** What an importer receives when nothing goes wrong on the way. */
  function Delivered(items: seq<Import.ExportItem>): seq<Import.StreamItem> {
    seq(|items|, i requires 0 <= i < |items| => Ok(items[i]))
  }

  function ShardStream(strings: seq<Export.Entry>, maps: seq<Export.Entry>, shard: ShardId): seq<Import.StreamItem> {
    var s, m := Export.InRange(strings, KeyRange(shard)), Export.InRange(maps, KeyRange(shard));
    Delivered(Export.Frames(Import.GenericString, s) + Export.Frames(Import.GenericMap, m) + [Import.Done(|s| + |m|)])
  }

  lemma StreamItems(strings: seq<Export.Entry>, maps: seq<Export.Entry>, shard: ShardId, clock: nat -> Context.Secs,
                    i: nat)
    requires i < |ShardRecords(strings, maps, shard, clock)|
    ensures
      var data, record := ShardStream(strings, maps, shard), ShardRecords(strings, maps, shard, clock)[i];
      i < |data| && data[i] == Ok(Import.Exported(Ok(Import.Frame(record.key, Some(record.ctx)))))
  {
  }

  /** The importer finds as many records as were exported, and the count that follows them agrees. */
  lemma StreamLength(strings: seq<Export.Entry>, maps: seq<Export.Entry>, shard: ShardId, clock: nat -> Context.Secs)
    ensures
      var data, n := ShardStream(strings, maps, shard), |ShardRecords(strings, maps, shard, clock)|;
      |Import.Leading(data, clock, 0)| == n && |data| == n + 1 && data[n] == Ok(Import.Done(n))
  {
    var data, n := ShardStream(strings, maps, shard), |ShardRecords(strings, maps, shard, clock)|;
    forall i: nat | i < n ensures Import.IsRecord(data[i]) {
      StreamItems(strings, maps, shard, clock, i);
    }
    Import.LeadingLength(data, clock, 0, n);
    assert !Import.IsRecord(data[n]);
  }

  lemma SameContent(c: Config, a: seq<Import.Record>, b: seq<Import.Record>, store: Import.Store, shard: ShardId)
    requires IsExport(c, a, store, shard) && |a| == |b|
    requires forall i :: 0 <= i < |a| ==> a[i].key == b[i].key && a[i].ctx == b[i].ctx
    ensures IsExport(c, b, store, shard)
  {
  }

  /** The stream a source sends is accepted to its end, and brings a complete export of the shard. */
  lemma StreamIsComplete(c: Config, store: Import.Store, strings: seq<Export.Entry>, maps: seq<Export.Entry>,
                         shard: ShardId,
                         clock: nat -> Context.Secs)
    requires IsColumn(store, Import.GenericString, strings) && IsColumn(store, Import.GenericMap, maps)
    requires forall key :: c.shardOf(key) == ShardOf(key)
    ensures
      var data := ShardStream(strings, maps, shard);
      var records := Import.Leading(data, clock, 0);
      Import.Ending(data, |records|) == Ok(()) && IsExport(c, records, store, shard)
  {
    var data, sent := ShardStream(strings, maps, shard), ShardRecords(strings, maps, shard, clock);
    var records := Import.Leading(data, clock, 0);
    StreamLength(strings, maps, shard, clock);
    ExportIsComplete(c, store, strings, maps, shard, clock);
    forall i | 0 <= i < |sent| ensures sent[i].key == records[i].key && sent[i].ctx == records[i].ctx {
      StreamItems(strings, maps, shard, clock, i);
      Import.LeadingAt(data, clock, 0, i);
    }
    SameContent(c, sent, records, store, shard);
  }

  /** Records in another number than the shard has, followed by its count, are not accepted. */
  lemma WrongNumberRefused(strings: seq<Export.Entry>, maps: seq<Export.Entry>, shard: ShardId,
                           got: seq<Import.StreamItem>)
    requires forall i :: 0 <= i < |got| ==> Import.IsRecord(got[i])
    requires |got| != |ShardStream(strings, maps, shard)| - 1
    ensures
      var stream := ShardStream(strings, maps, shard);
      !Import.Accepted(got + [stream[|stream| - 1]])
  {
    var stream := ShardStream(strings, maps, shard);
    var data := got + [stream[|stream| - 1]];
    StreamLength(strings, maps, shard, (i: nat) => 0);
    Import.EndingExact(data, |got|);
  }

  lemma StreamOfRecords(strings: seq<Export.Entry>, maps: seq<Export.Entry>, shard: ShardId)
    ensures
      var stream := ShardStream(strings, maps, shard);
      stream != [] && forall i :: 0 <= i < |stream| - 1 ==> Import.IsRecord(stream[i])
  {
    StreamLength(strings, maps, shard, (i: nat) => 0);
  }

  /** A stream that lost one record or more, or has one twice, or ends early, is never accepted. */
  lemma MangledStreamRefused(strings: seq<Export.Entry>, maps: seq<Export.Entry>, shard: ShardId, i: nat, j: nat)
    requires i < j < |ShardStream(strings, maps, shard)|
    ensures
      var stream := ShardStream(strings, maps, shard);
      && !Import.Accepted(stream[..i] + stream[j..])
      && !Import.Accepted(stream[..j] + stream[i..])
      && !Import.Accepted(stream[..j])
  {
    var stream := ShardStream(strings, maps, shard);
    var last := |stream| - 1;
    StreamOfRecords(strings, maps, shard);
    assert stream[..i] + stream[j..] == stream[..i] + stream[j..last] + [stream[last]];
    WrongNumberRefused(strings, maps, shard, stream[..i] + stream[j..last]);
    assert stream[..j] + stream[i..] == stream[..j] + stream[i..last] + [stream[last]];
    WrongNumberRefused(strings, maps, shard, stream[..j] + stream[i..last]);
    Import.EndingExact(stream[..j], j);
  }
}
