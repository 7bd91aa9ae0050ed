/** A column family in key order, and the stream of records a shard is exported as. */
module Export {
  import opened Wrappers
  import opened Bytes
  import opened Filters
  import opened Context
  import opened Sharding
  import Import

  datatype Entry = Entry(key: seq<byte>, ctx: DataContext) {
    /** The position every key opens with. */
    function Position(): Position
      requires |key| >= 8
    {
      PowersOf256();
      FromBe(key[..8])
    }
  }

  /** The entries of a column family as an iterator sees them: by key, without repetition. */
  predicate Sorted(column: seq<Entry>) {
    && (forall i :: 0 <= i < |column| ==> |column[i].key| >= 8)
    && (forall i, j :: 0 <= i < j < |column| ==> Less(column[i].key, column[j].key))
  }

  /** Lower bound inclusive, upper bound exclusive, either may be absent. */
  predicate Within(key: seq<byte>, left: Option<seq<byte>>, right: Option<seq<byte>>) {
    && (left.Some? ==> LessEq(left.value, key))
    && (right.Some? ==> Less(key, right.value))
  }

  function PositionBytes(p: Option<Position>): Option<seq<byte>> {
    PowersOf256();
    if p.None? then None else Some(ToBe(p.value, 8))
  }

  function ScanByPosition(column: seq<Entry>, left: Option<Position>, right: Option<Position>): seq<Entry> {
    Filter(column, (e: Entry) => Within(e.key, PositionBytes(left), PositionBytes(right)))
  }

  function CheckedSucc(p: Position): Option<Position> {
    if p == MAX_POSITION then None else Some(p + 1)
  }

  function Frames(cf: Import.ColumnFamily, entries: seq<Entry>): seq<Import.ExportItem> {
    seq(|entries|, i requires 0 <= i < |entries| => ToFrame(cf, entries[i]))
  }

  /** The entries of a column that belong to a range of positions. */
  function InRange(column: seq<Entry>, range: RangeInclusive): seq<Entry> {
    Filter(column, (e: Entry) => IsWithin(e, range))
  }

  /** The byte bounds of a scan select exactly the positions of the range. */
  lemma BoundsSelectPositions(key: seq<byte>, range: RangeInclusive)
    requires |key| >= 8
    ensures Within(key, PositionBytes(Some(range.start)), PositionBytes(CheckedSucc(range.end)))
        <==> range.Contains(Entry(key, EMPTY).Position())
  {
    PositionAtLeast(key, range.start);
    if range.end < MAX_POSITION {
      PositionAtLeast(key, range.end + 1);
      NotLess(key, PositionBytes(Some(range.end + 1)).value);
    }
  }

  /** A key is at or above the bytes of a position when its own position is. */
  lemma PositionAtLeast(key: seq<byte>, p: Position)
    requires |key| >= 8
    ensures LessEq(PositionBytes(Some(p)).value, key) <==> p <= Entry(key, EMPTY).Position()
  {
    PowersOf256();
    var q, bytes := FromBe(key[..8]), ToBe(p, 8);
    BeInverse(key[..8]);
    BeOrder(p, q, 8);
    BeRoundTrip(p, 8);
    assert key == key[..8] + key[8..] && bytes + [] == bytes;
    LessEqualLength(bytes, key[..8], [], key[8..]);
  }

  lemma ScanIsRange(column: seq<Entry>, range: RangeInclusive)
    requires Sorted(column)
    ensures ScanByPosition(column, Some(range.start), CheckedSucc(range.end)) == InRange(column, range)
  {
    var p := (e: Entry) => Within(e.key, PositionBytes(Some(range.start)), PositionBytes(CheckedSucc(range.end)));
    var q := (e: Entry) => IsWithin(e, range);
    forall e | e in column ensures p(e) == q(e) {
      BoundsSelectPositions(e.key, range);
    }
    FilterAgrees(column, p, q);
  }

  function ToFrame(cf: Import.ColumnFamily, e: Entry): Import.ExportItem {
    Import.Exported(Ok(Import.Frame(Import.Key(cf, e.key), Some(e.ctx))))
  }

  /** Streams the entries of one column, appending to what was streamed before. */
  method YieldAll(cf: Import.ColumnFamily, iter: seq<Entry>, before: seq<Import.ExportItem>)
    returns (items: seq<Import.ExportItem>, processed: nat)
    ensures items == before + Frames(cf, iter)
    ensures processed == |iter|
  {
    items, processed := before, 0;
    for i := 0 to |iter|
      invariant processed == i
      invariant items == before + Frames(cf, iter[..i])
    {
      assert Frames(cf, iter[..i + 1]) == Frames(cf, iter[..i]) + [ToFrame(cf, iter[i])];
      items := items + [ToFrame(cf, iter[i])];
      processed := processed + 1;
    }
    assert iter[..|iter|] == iter;
  }

  /** Streams the records of a range: strings, then map entries, then the count. */
  method Export(strings: seq<Entry>, maps: seq<Entry>, range: RangeInclusive) returns (items: seq<Import.ExportItem>)
    requires Sorted(strings) && Sorted(maps)
    ensures
      var s, m := InRange(strings, range), InRange(maps, range);
      items == Frames(Import.GenericString, s) + Frames(Import.GenericMap, m) + [Import.Done(|s| + |m|)]
  {
    var start, end := Some(range.start), CheckedSucc(range.end);
    ScanIsRange(strings, range);
    ScanIsRange(maps, range);
    var n, m;
    items, n := YieldAll(Import.GenericString, ScanByPosition(strings, start, end), []);
    items, m := YieldAll(Import.GenericMap, ScanByPosition(maps, start, end), items);
    items := items + [Import.Done(n + m)];
  }

  // ---------------------------------------------------------------------
  // Exporting every shard
  // ---------------------------------------------------------------------

  function ExportShards(column: seq<Entry>, n: nat): seq<Entry>
    requires n <= SHARDS
  {
    if n == 0 then [] else ExportShards(column, n - 1) + InRange(column, KeyRange(n - 1))
  }

  function Below(column: seq<Entry>, n: nat): seq<Entry> {
    Filter(column, (e: Entry) => IsBelow(e, n))
  }

  lemma PositionsAscend(a: Entry, b: Entry)
    requires |a.key| >= 8 && |b.key| >= 8 && Less(a.key, b.key)
    ensures a.Position() <= b.Position()
  {
    assert a.key == a.key[..8] + a.key[8..] && b.key == b.key[..8] + b.key[8..];
    LessEqualLength(a.key[..8], b.key[..8], a.key[8..], b.key[8..]);
    PowersOf256();
    BeInverse(a.key[..8]);
    BeInverse(b.key[..8]);
    BeOrder(a.Position(), b.Position(), 8);
  }

  predicate IsBelow(e: Entry, n: nat) {
    |e.key| >= 8 && FromKey(e.Position()) < n
  }

  predicate IsWithin(e: Entry, range: RangeInclusive) {
    |e.key| >= 8 && range.Contains(e.Position())
  }

  lemma {:induction false} ShardsPrecede(column: seq<Entry>, s: ShardId)
    requires Sorted(column)
    ensures Precede(column, (e: Entry) => IsBelow(e, s), (e: Entry) => IsWithin(e, KeyRange(s)))
  {
    if column != [] {
      ShardsPrecede(column[1..], s);
      if IsWithin(column[0], KeyRange(s)) {
        RangesPartition(column[0].Position(), s);
        forall x | x in column[1..] ensures !IsBelow(x, s) {
          PositionsAscend(column[0], x);
        }
      }
    }
  }

  lemma OneMoreShard(column: seq<Entry>, s: ShardId)
    requires Sorted(column)
    ensures Below(column, s + 1) == Below(column, s) + InRange(column, KeyRange(s))
  {
    forall e | e in column
      ensures (IsBelow(e, s + 1) <==> IsBelow(e, s) || IsWithin(e, KeyRange(s))) && !(IsBelow(e, s) && IsWithin(e, KeyRange(s)))
    {
      RangesPartition(e.Position(), s);
    }
    ShardsPrecede(column, s);
    FilterSplit(column, (e: Entry) => IsBelow(e, s + 1), (e: Entry) => IsBelow(e, s), (e: Entry) => IsWithin(e, KeyRange(s)));
  }

  lemma {:induction false} ShardsBelow(column: seq<Entry>, n: nat)
    requires Sorted(column) && n <= SHARDS
    ensures ExportShards(column, n) == Below(column, n)
  {
    if n == 0 {
      FilterNone(column, (e: Entry) => IsBelow(e, 0));
    } else {
      ShardsBelow(column, n - 1);
      OneMoreShard(column, n - 1);
    }
  }

  /** Exporting all shards one after the other yields the whole column: every record once, in order. */
  lemma ExportCoversOnce(column: seq<Entry>)
    requires Sorted(column)
    ensures ExportShards(column, SHARDS) == column
  {
    ShardsBelow(column, SHARDS);
    FilterAll(column, (e: Entry) => IsBelow(e, SHARDS));
  }

  // ---------------------------------------------------------------------
  // Export, then import
  // ---------------------------------------------------------------------

  function Records(cf: Import.ColumnFamily, entries: seq<Entry>, clock: nat -> Secs): seq<Import.Record> {
    seq(|entries|, i requires 0 <= i < |entries| => Import.Record(Import.Key(cf, entries[i].key), entries[i].ctx, clock(i)))
  }

  /** Importing a column exported in full joins it into the destination, key by key. */
  lemma ExportedColumnIsJoined(column: seq<Entry>, cf: Import.ColumnFamily, clock: nat -> Secs, ours: Import.Store,
                               i: nat)
    requires Sorted(column) && i < |column|
    ensures
      var key := Import.Key(cf, column[i].key);
      var after := Import.Commit(ours, Import.Writes(Records(cf, ExportShards(column, SHARDS), clock)));
      key in after && Import.IsNewer(Import.Get(ours, key), column[i].ctx, after[key])
  {
    ExportCoversOnce(column);
    var records := Records(cf, column, clock);
    forall i, j | 0 <= i < j < |records| ensures records[i].key != records[j].key {
      assert Less(column[i].key, column[j].key);
      LessIrreflexive(column[i].key);
    }
    assert records[i].key == Import.Key(cf, column[i].key);
    Import.ImportIsJoin(ours, records, Import.Key(cf, column[i].key));
  }
}
