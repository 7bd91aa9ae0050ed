/** Writes and shard transfers during one migration: no acknowledged write is lost. */
module MigrationSafety {
  import opened Wrappers
  import opened Context
  import opened Import
  import opened Sharding
  import opened Sets
  import RS = ReplicaSets
  import CV = ClusterView

  type Operator = RS.Operator

  /**
   What does not change while the migration is in progress: the view everyone
   holds, the replica sets of each shard before and after, the shard of each key,
   and what was written under each timestamp.
   */
  datatype Config = Config(
    view: CV.ViewState,
    before: ShardId -> seq<Operator>,
    after: ShardId -> seq<Operator>,
    shardOf: Key -> ShardId,
    payload: (Key, Micros) -> Option<Value>)
  {
    ghost predicate Valid() {
      && view.migration.IsInProgress()
      && forall s: ShardId :: RS.IsReplicaSet(before(s)) && RS.IsReplicaSet(after(s))
    }

    /** `o` is new to the shard, so it has to pull it. */
    predicate IsAdded(o: Operator, s: ShardId) {
      o in after(s) && o !in before(s)
    }

    function SourceOf(o: Operator, s: ShardId): Operator
      requires Valid() && IsAdded(o, s)
    {
      RS.Source(before(s), after(s), o)
    }
  }

  datatype WriteKind = Put(value: Value, expiration: Secs) | Remove | Touch(expiration: Secs)

  /** A write on its way to the replicas. */
  datatype Request = Request(key: Key, kind: WriteKind, timestamp: Micros, version: int, shadowed: bool) {
    /** What a replica merges, `now` being its clock. */
    function Operand(now: Secs): MergeOp {
      match kind
      case Put(value, expiration) => MergeOp(Set(value, expiration), timestamp)
      case Remove => Deletion(timestamp, now)
      case Touch(expiration) => MergeOp(SetExp(expiration), timestamp)
    }

    function Payload(): Option<Value> {
      if kind.Put? then Some(kind.value) else None
    }
  }

  /** An export being read by the operator that pulls it. */
  datatype Stream = Stream(records: seq<Record>, done: nat)

  datatype Cluster = Cluster(
    clocks: map<Operator, CV.Instant>,
    stores: map<Operator, Store>,
    requests: seq<Request>,
    accepted: map<(Operator, nat), CV.Instant>,
    executed: set<(Operator, nat)>,
    streams: map<(Operator, ShardId), Stream>,
    finished: set<(Operator, ShardId)>)

  datatype Action =
    | Tick(o: Operator, to: CV.Instant)
    | Issue(request: Request, tagged: CV.Instant, routed: CV.Instant)
    | Validate(o: Operator, i: nat)
    | Execute(o: Operator, i: nat, now: Secs)
    | Apply(o: Operator, write: Write)
    | Open(o: Operator, shard: ShardId, records: seq<Record>)
    | ImportBatch(o: Operator, shard: ShardId, n: nat)
    | Finish(o: Operator, shard: ShardId)

  ghost predicate Exported(records: seq<Record>, store: Store, key: Key) {
    key in store && exists k :: 0 <= k < |records| && records[k].key == key && records[k].ctx == store[key]
  }

  /** `records` is a complete export of the shard. */
  ghost predicate IsExport(c: Config, records: seq<Record>, store: Store, shard: ShardId) {
    && (forall key :: key in store && c.shardOf(key) == shard ==> Exported(records, store, key))
    && (forall k :: 0 <= k < |records| ==> records[k].key in store && records[k].ctx == store[records[k].key])
  }

  predicate Receives(c: Config, r: Request, o: Operator) {
    o in c.before(c.shardOf(r.key)) || (r.shadowed && o in c.after(c.shardOf(r.key)))
  }

  predicate IsKnown(s: Cluster, o: Operator) {
    o in s.clocks && o in s.stores
  }

  /** An operand that writes what is written under its timestamp everywhere. */
  predicate Genuine(c: Config, key: Key, op: MergeOp) {
    IsWrite(op) && c.payload(key, op.timestamp) == if op.kind.Set? then Some(op.kind.value) else None
  }

  ghost predicate Enabled(c: Config, s: Cluster, a: Action)
    requires c.Valid()
  {
    match a
    case Tick(o, to) => IsKnown(s, o) && s.clocks[o] <= to
    case Issue(r, tagged, routed) =>
      && tagged <= routed
      && r.version == CV.KeyspaceVersion(c.view, tagged)
      && (r.shadowed <==> CV.IsShadowing(c.view, routed))
    case Validate(o, i) =>
      && IsKnown(s, o) && i < |s.requests| && (o, i) !in s.accepted
      && Receives(c, s.requests[i], o)
      && CV.ValidateStorageOperation(c.view, s.requests[i].version, s.clocks[o])
    case Execute(o, i, _) =>
      && IsKnown(s, o) && i < |s.requests| && (o, i) in s.accepted
      && s.clocks[o] < s.accepted[(o, i)] + CV.PULL_DATA_LEEWAY_TIME
    case Apply(o, w) => IsKnown(s, o)
    case Open(o, shard, records) =>
      && IsKnown(s, o) && c.IsAdded(o, shard) && IsKnown(s, c.SourceOf(o, shard))
      && CV.ValidateDataPull(c.view, CV.KeyspaceVersion(c.view, s.clocks[o]), s.clocks[c.SourceOf(o, shard)])
      && IsExport(c, records, s.stores[c.SourceOf(o, shard)], shard)
    case ImportBatch(o, shard, n) =>
      && IsKnown(s, o) && (o, shard) in s.streams
      && s.streams[(o, shard)].done + n <= |s.streams[(o, shard)].records|
    case Finish(o, shard) =>
      && (o, shard) in s.streams
      && s.streams[(o, shard)].done == |s.streams[(o, shard)].records|
  }

  ghost function Next(c: Config, s: Cluster, a: Action): Cluster
    requires c.Valid() && Enabled(c, s, a)
  {
    match a
    case Tick(o, to) => s.(clocks := s.clocks[o := to])
    case Issue(r, _, _) => s.(requests := s.requests + [r])
    case Validate(o, i) => s.(accepted := s.accepted[(o, i) := s.clocks[o]])
    case Execute(o, i, now) =>
      s.(stores := s.stores[o := MergeAt(s.stores[o], Write(s.requests[i].key, s.requests[i].Operand(now)))],
         executed := s.executed + {(o, i)})
    case Apply(o, w) => s.(stores := s.stores[o := MergeAt(s.stores[o], w)])
    case Open(o, shard, records) => s.(streams := s.streams[(o, shard) := Stream(records, 0)])
    case ImportBatch(o, shard, n) =>
      var st := s.streams[(o, shard)];
      s.(stores := s.stores[o := Commit(s.stores[o], Writes(st.records[st.done..st.done + n]))],
         streams := s.streams[(o, shard) := st.(done := st.done + n)])
    case Finish(o, shard) => s.(finished := s.finished + {(o, shard)})
  }

  // ---------------------------------------------------------------------
  // The invariant
  // ---------------------------------------------------------------------

  predicate StoreHas(store: Store, key: Key, timestamp: Micros) {
    key in store && timestamp <= store[key].Version()
  }

  /** `o` stores the write or a later one for its key. */
  predicate Covered(s: Cluster, o: Operator, i: nat)
    requires i < |s.requests|
  {
    o in s.stores && StoreHas(s.stores[o], s.requests[i].key, s.requests[i].timestamp)
  }

  /** The operator's clock has passed the time from which it serves pulls. */
  predicate PastGate(c: Config, s: Cluster, o: Operator) {
    o in s.clocks && CV.ValidateDataPull(c.view, c.view.keyspaceVersion, s.clocks[o])
  }

  /** Request `i` was only sent to the old replicas of the shard, and `o` executed it. */
  predicate OldWrite(c: Config, s: Cluster, o: Operator, i: nat, shard: ShardId) {
    i < |s.requests| && (o, i) in s.executed && !s.requests[i].shadowed && c.shardOf(s.requests[i].key) == shard
  }

  ghost predicate RequestsInv(c: Config, s: Cluster) {
    forall i :: 0 <= i < |s.requests| && !s.requests[i].shadowed ==> s.requests[i].version == c.view.keyspaceVersion - 1
  }

  ghost predicate AcceptedInv(c: Config, s: Cluster) {
    forall o, i :: (o, i) in s.accepted ==>
      i < |s.requests| && CV.ValidateStorageOperation(c.view, s.requests[i].version, s.accepted[(o, i)])
  }

  ghost predicate ExecutedInv(s: Cluster) {
    forall o, i :: (o, i) in s.executed ==> i < |s.requests| && Covered(s, o, i)
  }

  ghost predicate StreamHas(st: Stream, key: Key, timestamp: Micros) {
    exists k :: 0 <= k < |st.records| && st.records[k].key == key && timestamp <= st.records[k].ctx.Version()
  }

  /** The stream carries every old write its source executed. */
  ghost predicate StreamComplete(c: Config, s: Cluster, o: Operator, shard: ShardId)
    requires c.Valid() && (o, shard) in s.streams && c.IsAdded(o, shard)
  {
    forall i: nat :: OldWrite(c, s, c.SourceOf(o, shard), i, shard) ==>
      StreamHas(s.streams[(o, shard)], s.requests[i].key, s.requests[i].timestamp)
  }

  ghost predicate StreamImported(s: Cluster, o: Operator, shard: ShardId)
    requires (o, shard) in s.streams && o in s.stores
  {
    var st := s.streams[(o, shard)];
    && st.done <= |st.records|
    && forall k :: 0 <= k < st.done ==> StoreHas(s.stores[o], st.records[k].key, st.records[k].ctx.Version())
  }

  ghost predicate StreamsInv(c: Config, s: Cluster)
    requires c.Valid()
  {
    forall o, shard :: (o, shard) in s.streams ==>
      && c.IsAdded(o, shard) && o in s.stores
      && PastGate(c, s, c.SourceOf(o, shard))
      && StreamComplete(c, s, o, shard)
      && StreamImported(s, o, shard)
  }

  /** A finished pull brought over every old write its source executed. */
  ghost predicate FinishedInv(c: Config, s: Cluster)
    requires c.Valid()
  {
    forall o, shard :: (o, shard) in s.finished ==>
      && c.IsAdded(o, shard)
      && PastGate(c, s, c.SourceOf(o, shard))
      && forall i: nat :: OldWrite(c, s, c.SourceOf(o, shard), i, shard) ==> Covered(s, o, i)
  }

  ghost predicate Invariant(c: Config, s: Cluster)
    requires c.Valid()
  {
    && RequestsInv(c, s)
    && AcceptedInv(c, s)
    && ExecutedInv(s)
    && StreamsInv(c, s)
    && FinishedInv(c, s)
  }

  // ---------------------------------------------------------------------
  // Nothing ever goes back
  // ---------------------------------------------------------------------

  /** Clocks, logs and stored versions only move forward. */
  ghost predicate Forward(s: Cluster, s': Cluster) {
    && s.requests <= s'.requests
    && (forall o :: o in s.clocks ==> o in s'.clocks && s.clocks[o] <= s'.clocks[o])
    && (forall o :: o in s.stores ==> o in s'.stores)
    && (forall o, key :: o in s.stores && key in s.stores[o] ==> StoreHas(s'.stores[o], key, s.stores[o][key].Version()))
  }

  lemma {:induction false} CommitForward(store: Store, batch: seq<Write>, key: Key)
    ensures key in store ==> StoreHas(Commit(store, batch), key, store[key].Version())
    ensures forall w :: w in batch && w.key == key ==> StoreHas(Commit(store, batch), key, w.op.timestamp)
    decreases batch
  {
    if batch != [] {
      CommitForward(MergeAt(store, batch[0]), batch[1..], key);
      assert batch == [batch[0]] + batch[1..];
    }
  }

  lemma NextForward(c: Config, s: Cluster, a: Action)
    requires c.Valid() && Enabled(c, s, a)
    ensures Forward(s, Next(c, s, a))
  {
    if a.ImportBatch? {
      var st := s.streams[(a.o, a.shard)];
      forall key | key in s.stores[a.o] ensures StoreHas(Next(c, s, a).stores[a.o], key, s.stores[a.o][key].Version()) {
        CommitForward(s.stores[a.o], Writes(st.records[st.done..st.done + a.n]), key);
      }
    }
  }

  lemma StaysCovered(s: Cluster, s': Cluster, o: Operator, i: nat)
    requires Forward(s, s') && i < |s.requests| && Covered(s, o, i)
    ensures Covered(s', o, i)
  {
  }

  lemma StaysPastGate(c: Config, s: Cluster, s': Cluster, o: Operator)
    requires Forward(s, s') && PastGate(c, s, o)
    ensures PastGate(c, s', o)
  {
  }

  /** No write under the old version is executed once the operator serves pulls. */
  lemma GateClosesOldWrites(c: Config, s: Cluster, o: Operator, i: nat)
    requires c.Valid() && RequestsInv(c, s) && AcceptedInv(c, s)
    requires (o, i) in s.accepted && !s.requests[i].shadowed && o in s.clocks
    requires s.clocks[o] < s.accepted[(o, i)] + CV.PULL_DATA_LEEWAY_TIME
    ensures !PastGate(c, s, o)
  {
  }

  // ---------------------------------------------------------------------
  // Every step keeps the invariant
  // ---------------------------------------------------------------------

  lemma KeepsRequests(c: Config, s: Cluster, a: Action)
    requires c.Valid() && RequestsInv(c, s) && Enabled(c, s, a)
    ensures RequestsInv(c, Next(c, s, a))
  {
    if a.Issue? {
      CV.NewVersionIsShadowed(c.view, a.tagged, a.routed);
    }
  }

  lemma KeepsAccepted(c: Config, s: Cluster, a: Action)
    requires c.Valid() && AcceptedInv(c, s) && Enabled(c, s, a)
    ensures AcceptedInv(c, Next(c, s, a))
  {
  }

  lemma KeepsExecuted(c: Config, s: Cluster, a: Action)
    requires c.Valid() && ExecutedInv(s) && Enabled(c, s, a)
    ensures ExecutedInv(Next(c, s, a))
  {
    NextForward(c, s, a);
    var s' := Next(c, s, a);
    forall o, i | (o, i) in s'.executed ensures i < |s'.requests| && Covered(s', o, i) {
      if (o, i) in s.executed {
        StaysCovered(s, s', o, i);
      }
    }
  }

  /** An old write an operator has executed by the time it serves pulls was executed before. */
  lemma OldWritesSettled(c: Config, s: Cluster, a: Action, o: Operator, i: nat, shard: ShardId)
    requires c.Valid() && RequestsInv(c, s) && AcceptedInv(c, s) && ExecutedInv(s) && Enabled(c, s, a)
    requires PastGate(c, s, o) && OldWrite(c, Next(c, s, a), o, i, shard)
    ensures OldWrite(c, s, o, i, shard)
  {
  }

  lemma OpensComplete(c: Config, s: Cluster, a: Action)
    requires c.Valid() && ExecutedInv(s) && Enabled(c, s, a) && a.Open?
    ensures StreamComplete(c, Next(c, s, a), a.o, a.shard)
  {
  }

  lemma StaysComplete(c: Config, s: Cluster, a: Action, o: Operator, shard: ShardId)
    requires c.Valid() && Enabled(c, s, a) && RequestsInv(c, s) && AcceptedInv(c, s) && ExecutedInv(s)
    requires (o, shard) in s.streams && c.IsAdded(o, shard) && StreamComplete(c, s, o, shard)
    requires PastGate(c, s, c.SourceOf(o, shard))
    requires !(a.Open? && a.o == o && a.shard == shard)
    ensures StreamComplete(c, Next(c, s, a), o, shard)
  {
    var s', source := Next(c, s, a), c.SourceOf(o, shard);
    NextForward(c, s, a);
    forall i: nat | OldWrite(c, s', source, i, shard)
      ensures StreamHas(s'.streams[(o, shard)], s'.requests[i].key, s'.requests[i].timestamp)
    {
      OldWritesSettled(c, s, a, source, i, shard);
      assert s'.requests[i] == s.requests[i];
      assert StreamHas(s.streams[(o, shard)], s.requests[i].key, s.requests[i].timestamp);
    }
  }

  lemma BatchImported(s: Cluster, s': Cluster, o: Operator, shard: ShardId, n: nat)
    requires (o, shard) in s.streams && o in s.stores && StreamImported(s, o, shard)
    requires s.streams[(o, shard)].done + n <= |s.streams[(o, shard)].records|
    requires Forward(s, s')
    requires
      var st := s.streams[(o, shard)];
      && (o, shard) in s'.streams && s'.streams[(o, shard)] == st.(done := st.done + n)
      && s'.stores[o] == Commit(s.stores[o], Writes(st.records[st.done..st.done + n]))
    ensures StreamImported(s', o, shard)
  {
    var st := s.streams[(o, shard)];
    var batch := st.records[st.done..st.done + n];
    forall k | 0 <= k < st.done + n ensures StoreHas(s'.stores[o], st.records[k].key, st.records[k].ctx.Version()) {
      if k < st.done {
        assert StoreHas(s.stores[o], st.records[k].key, st.records[k].ctx.Version());
      } else {
        CommitForward(s.stores[o], Writes(batch), st.records[k].key);
        assert batch[k - st.done] == st.records[k];
        assert Writes(batch)[k - st.done] == batch[k - st.done].ToWrite();
        assert st.records[k].ToWrite() in Writes(batch);
      }
    }
  }

  lemma StaysImported(c: Config, s: Cluster, a: Action, o: Operator, shard: ShardId)
    requires c.Valid() && Enabled(c, s, a)
    requires (o, shard) in s.streams && o in s.stores && StreamImported(s, o, shard)
    requires !(a.Open? && a.o == o && a.shard == shard)
    ensures StreamImported(Next(c, s, a), o, shard)
  {
    var s' := Next(c, s, a);
    NextForward(c, s, a);
    if a.ImportBatch? && a.o == o && a.shard == shard {
      BatchImported(s, s', o, shard, a.n);
    } else {
      var st := s.streams[(o, shard)];
      forall k | 0 <= k < st.done ensures StoreHas(s'.stores[o], st.records[k].key, st.records[k].ctx.Version()) {
        assert StoreHas(s.stores[o], st.records[k].key, st.records[k].ctx.Version());
      }
    }
  }

  lemma KeepsStreams(c: Config, s: Cluster, a: Action)
    requires c.Valid() && Invariant(c, s) && Enabled(c, s, a)
    ensures StreamsInv(c, Next(c, s, a))
  {
    var s' := Next(c, s, a);
    NextForward(c, s, a);
    forall o, shard | (o, shard) in s'.streams
      ensures c.IsAdded(o, shard) && o in s'.stores
      ensures PastGate(c, s', c.SourceOf(o, shard)) && StreamComplete(c, s', o, shard) && StreamImported(s', o, shard)
    {
      if a.Open? && a.o == o && a.shard == shard {
        OpensComplete(c, s, a);
      } else {
        assert (o, shard) in s.streams;
        StaysPastGate(c, s, s', c.SourceOf(o, shard));
        StaysComplete(c, s, a, o, shard);
        StaysImported(c, s, a, o, shard);
      }
    }
  }

  lemma FinishedCovers(c: Config, s: Cluster, o: Operator, shard: ShardId, i: nat)
    requires c.Valid() && StreamsInv(c, s) && (o, shard) in s.streams
    requires s.streams[(o, shard)].done == |s.streams[(o, shard)].records|
    requires OldWrite(c, s, c.SourceOf(o, shard), i, shard)
    ensures Covered(s, o, i)
  {
  }

  lemma KeepsFinished(c: Config, s: Cluster, a: Action)
    requires c.Valid() && Invariant(c, s) && Enabled(c, s, a)
    ensures FinishedInv(c, Next(c, s, a))
  {
    var s' := Next(c, s, a);
    NextForward(c, s, a);
    forall o, shard | (o, shard) in s'.finished
      ensures c.IsAdded(o, shard) && PastGate(c, s', c.SourceOf(o, shard))
      ensures forall i: nat :: OldWrite(c, s', c.SourceOf(o, shard), i, shard) ==> Covered(s', o, i)
    {
      var source := c.SourceOf(o, shard);
      assert PastGate(c, s, source);
      StaysPastGate(c, s, s', source);
      forall i: nat | OldWrite(c, s', source, i, shard) ensures Covered(s', o, i) {
        OldWritesSettled(c, s, a, source, i, shard);
        if (o, shard) !in s.finished {
          FinishedCovers(c, s, o, shard, i);
        }
        StaysCovered(s, s', o, i);
      }
    }
  }

  lemma KeepsInvariant(c: Config, s: Cluster, a: Action)
    requires c.Valid() && Invariant(c, s) && Enabled(c, s, a)
    ensures Invariant(c, Next(c, s, a))
  {
    KeepsRequests(c, s, a);
    KeepsAccepted(c, s, a);
    KeepsExecuted(c, s, a);
    KeepsStreams(c, s, a);
    KeepsFinished(c, s, a);
  }

  // ---------------------------------------------------------------------
  // What is stored under a timestamp is what was written under it
  // ---------------------------------------------------------------------

  /** Version 0 is the record before any write. */
  predicate FaithfulRecord(c: Config, key: Key, ctx: DataContext) {
    ctx.Version() > 0 ==> ctx.payload == c.payload(key, ctx.Version())
  }

  ghost predicate FaithfulStore(c: Config, store: Store) {
    forall key :: key in store ==> FaithfulRecord(c, key, store[key])
  }

  ghost predicate FaithfulStream(c: Config, st: Stream) {
    forall k :: 0 <= k < |st.records| ==> FaithfulRecord(c, st.records[k].key, st.records[k].ctx)
  }

  /** A write of a whole record, the one that is known under its timestamp. */
  predicate Plain(c: Config, r: Request) {
    !r.kind.Touch? && c.payload(r.key, r.timestamp) == r.Payload()
  }

  /** The action writes whole records only, one content per key and timestamp. */
  predicate WritesPlainly(c: Config, a: Action) {
    match a
    case Issue(r, _, _) => Plain(c, r)
    case Apply(_, w) => Genuine(c, w.key, w.op)
    case _ => true
  }

  ghost predicate Faithful(c: Config, s: Cluster) {
    && (forall i :: 0 <= i < |s.requests| ==> Plain(c, s.requests[i]))
    && (forall o :: o in s.stores ==> FaithfulStore(c, s.stores[o]))
    && (forall p :: p in s.streams ==> FaithfulStream(c, s.streams[p]))
  }

  lemma MergeFaithful(c: Config, store: Store, w: Write)
    requires FaithfulStore(c, store) && (w.op.timestamp > 0 ==> Genuine(c, w.key, w.op))
    ensures FaithfulStore(c, MergeAt(store, w))
  {
  }

  lemma {:induction false} CommitFaithful(c: Config, store: Store, batch: seq<Write>)
    requires FaithfulStore(c, store)
    requires forall w :: w in batch && w.op.timestamp > 0 ==> Genuine(c, w.key, w.op)
    ensures FaithfulStore(c, Commit(store, batch))
    decreases batch
  {
    if batch != [] {
      assert batch[0] in batch;
      MergeFaithful(c, store, batch[0]);
      CommitFaithful(c, MergeAt(store, batch[0]), batch[1..]);
    }
  }

  lemma ImportFaithful(c: Config, store: Store, records: seq<Record>)
    requires FaithfulStore(c, store)
    requires forall k :: 0 <= k < |records| ==> FaithfulRecord(c, records[k].key, records[k].ctx)
    ensures FaithfulStore(c, Commit(store, Writes(records)))
  {
    forall w | w in Writes(records) && w.op.timestamp > 0 ensures Genuine(c, w.key, w.op) {
      var k :| 0 <= k < |records| && Writes(records)[k] == w;
      assert FaithfulRecord(c, records[k].key, records[k].ctx);
    }
    CommitFaithful(c, store, Writes(records));
  }

  lemma KeepsFaithful(c: Config, s: Cluster, a: Action)
    requires c.Valid() && Faithful(c, s) && Enabled(c, s, a) && WritesPlainly(c, a)
    ensures Faithful(c, Next(c, s, a))
  {
    match a
    case Execute(o, i, now) =>
      MergeFaithful(c, s.stores[o], Write(s.requests[i].key, s.requests[i].Operand(now)));
    case Apply(o, w) =>
      MergeFaithful(c, s.stores[o], w);
    case Open(o, shard, records) =>
      assert FaithfulStore(c, s.stores[c.SourceOf(o, shard)]);
    case ImportBatch(o, shard, n) =>
      var st := s.streams[(o, shard)];
      assert FaithfulStream(c, st);
      ImportFaithful(c, s.stores[o], st.records[st.done..st.done + n]);
    case _ =>
  }

  // ---------------------------------------------------------------------
  // Whole runs
  // ---------------------------------------------------------------------

  /** No pull has begun. Writes may be at any stage, as long as what was executed is stored. */
  ghost predicate Initial(c: Config, s: Cluster) {
    && s.streams == map[] && s.finished == {}
    && RequestsInv(c, s) && AcceptedInv(c, s) && ExecutedInv(s)
  }

  ghost predicate Runs(c: Config, s: Cluster, actions: seq<Action>)
    requires c.Valid()
    decreases actions
  {
    actions == [] || (Enabled(c, s, actions[0]) && Runs(c, Next(c, s, actions[0]), actions[1..]))
  }

  ghost function End(c: Config, s: Cluster, actions: seq<Action>): Cluster
    requires c.Valid() && Runs(c, s, actions)
    decreases actions
  {
    if actions == [] then s else End(c, Next(c, s, actions[0]), actions[1..])
  }

  lemma {:induction false} RunKeepsInvariant(c: Config, s: Cluster, actions: seq<Action>)
    requires c.Valid() && Runs(c, s, actions) && Invariant(c, s)
    ensures Invariant(c, End(c, s, actions))
    decreases actions
  {
    if actions != [] {
      KeepsInvariant(c, s, actions[0]);
      RunKeepsInvariant(c, Next(c, s, actions[0]), actions[1..]);
    }
  }

  lemma {:induction false} RunKeepsFaithful(c: Config, s: Cluster, actions: seq<Action>)
    requires c.Valid() && Runs(c, s, actions) && Faithful(c, s) && forall a :: a in actions ==> WritesPlainly(c, a)
    ensures Faithful(c, End(c, s, actions))
    decreases actions
  {
    if actions != [] {
      KeepsFaithful(c, s, actions[0]);
      RunKeepsFaithful(c, Next(c, s, actions[0]), actions[1..]);
    }
  }

  function Executors(s: Cluster, replicas: seq<Operator>, i: nat): set<Operator> {
    set o | o in replicas && (o, i) in s.executed
  }

  /** Enough replicas executed the write for a coordinator to acknowledge it. */
  predicate Acknowledged(c: Config, s: Cluster, i: nat)
    requires i < |s.requests|
  {
    var shard := c.shardOf(s.requests[i].key);
    && |Executors(s, c.before(shard), i)| >= RS.MAJORITY
    && (s.requests[i].shadowed ==> |Executors(s, c.after(shard), i)| >= RS.MAJORITY)
  }

  ghost predicate PullsDone(c: Config, s: Cluster, shard: ShardId) {
    forall o: Operator :: c.IsAdded(o, shard) ==> (o, shard) in s.finished
  }

  /** `o` stores exactly what was written, or something written later. */
  predicate Keeps(s: Cluster, o: Operator, i: nat)
    requires i < |s.requests|
  {
    var r := s.requests[i];
    && o in s.stores && r.key in s.stores[o]
    && var ctx := s.stores[o][r.key];
       r.timestamp < ctx.Version() || (r.timestamp == ctx.Version() && (r.timestamp > 0 ==> ctx.payload == r.Payload()))
  }

  function Keepers(c: Config, s: Cluster, i: nat): set<Operator>
    requires i < |s.requests|
  {
    set o | o in c.after(c.shardOf(s.requests[i].key)) && Keeps(s, o, i)
  }

  /** The new replicas that store the write or a later one for its key. */
  function Holders(c: Config, s: Cluster, i: nat): set<Operator>
    requires i < |s.requests|
  {
    set o | o in c.after(c.shardOf(s.requests[i].key)) && Covered(s, o, i)
  }

  lemma CoveredKeeps(c: Config, s: Cluster, o: Operator, i: nat)
    requires Faithful(c, s) && i < |s.requests| && Covered(s, o, i)
    ensures Keeps(s, o, i)
  {
    assert FaithfulStore(c, s.stores[o]);
  }

  lemma HeirHolds(c: Config, s: Cluster, i: nat, o: Operator)
    requires c.Valid() && Invariant(c, s) && i < |s.requests| && !s.requests[i].shadowed
    requires o in c.before(c.shardOf(s.requests[i].key)) && (o, i) in s.executed
    requires PullsDone(c, s, c.shardOf(s.requests[i].key))
    ensures
      var shard := c.shardOf(s.requests[i].key);
      RS.Heir(c.before(shard), c.after(shard), o) in Holders(c, s, i)
  {
    var shard := c.shardOf(s.requests[i].key);
    var heir := RS.Heir(c.before(shard), c.after(shard), o);
    if o !in c.after(shard) {
      RS.HeirPullsFrom(c.before(shard), c.after(shard), o);
      assert c.IsAdded(heir, shard) && c.SourceOf(heir, shard) == o;
      assert OldWrite(c, s, o, i, shard);
    }
  }

  lemma AcknowledgedIsHeld(c: Config, s: Cluster, i: nat)
    requires c.Valid() && Invariant(c, s)
    requires i < |s.requests| && Acknowledged(c, s, i) && PullsDone(c, s, c.shardOf(s.requests[i].key))
    ensures |Holders(c, s, i)| >= RS.MAJORITY
  {
    var shard := c.shardOf(s.requests[i].key);
    if s.requests[i].shadowed {
      SubsetSize(Executors(s, c.after(shard), i), Holders(c, s, i));
    } else {
      var executors := Executors(s, c.before(shard), i);
      assert executors <= Members(c.before(shard));
      RS.QuorumTransfers(c.before(shard), c.after(shard), executors);
      var heirs := RS.Heirs(c.before(shard), c.after(shard), executors);
      forall h | h in heirs ensures h in Holders(c, s, i) {
        var o :| o in executors && RS.Heir(c.before(shard), c.after(shard), o) == h;
        HeirHolds(c, s, i, o);
      }
      SubsetSize(heirs, Holders(c, s, i));
    }
  }

  /** The run ends with write `i` acknowledged and with every pull of its shard finished. */
  ghost predicate EndsSettled(c: Config, s: Cluster, actions: seq<Action>, i: nat)
    requires c.Valid()
  {
    && Initial(c, s) && Runs(c, s, actions)
    && i < |End(c, s, actions).requests|
    && Acknowledged(c, End(c, s, actions), i)
    && PullsDone(c, End(c, s, actions), c.shardOf(End(c, s, actions).requests[i].key))
  }

  /**
   After any run in which every pull of the shard has finished, each write that
   was acknowledged, under the old version or the new, is stored at its version
   or a later one by a majority of the shard's new replicas.
   */
  lemma NoAcknowledgedWriteLost(c: Config, s: Cluster, actions: seq<Action>, i: nat)
    requires c.Valid() && EndsSettled(c, s, actions, i)
    ensures |Holders(c, End(c, s, actions), i)| >= RS.MAJORITY
  {
    RunKeepsInvariant(c, s, actions);
    AcknowledgedIsHeld(c, End(c, s, actions), i);
  }

  /** When only whole records are written, a replica at the version of the write stores what was written. */
  lemma NoAcknowledgedContentLost(c: Config, s: Cluster, actions: seq<Action>, i: nat)
    requires c.Valid() && EndsSettled(c, s, actions, i)
    requires Faithful(c, s) && forall a :: a in actions ==> WritesPlainly(c, a)
    ensures |Keepers(c, End(c, s, actions), i)| >= RS.MAJORITY
  {
    NoAcknowledgedWriteLost(c, s, actions, i);
    RunKeepsFaithful(c, s, actions);
    var e := End(c, s, actions);
    forall o | o in Holders(c, e, i) ensures o in Keepers(c, e, i) {
      CoveredKeeps(c, e, o, i);
    }
    SubsetSize(Holders(c, e, i), Keepers(c, e, i));
  }

  /** Any majority of the new replicas a later read hears from includes one that holds the write. */
  lemma ReadsSeeAcknowledgedWrites(c: Config, s: Cluster, actions: seq<Action>, i: nat, quorum: set<Operator>)
    requires c.Valid() && EndsSettled(c, s, actions, i)
    requires quorum <= Members(c.after(c.shardOf(End(c, s, actions).requests[i].key))) && |quorum| >= RS.MAJORITY
    ensures exists o :: o in quorum && Covered(End(c, s, actions), o, i)
  {
    NoAcknowledgedWriteLost(c, s, actions, i);
    var e := End(c, s, actions);
    RS.MajoritiesIntersect(c.after(c.shardOf(e.requests[i].key)), Holders(c, e, i), quorum);
  }
}
