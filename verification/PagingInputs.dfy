/** Stores of five replicas whose reconciled pages end early, lead back, or skip an entry. */
module PagingInputs {
  import opened Wrappers
  import opened Bytes
  import opened Sets
  import opened Filters
  import opened ReplicaSets
  import opened Storage
  import opened MapPaging
  import Context
  import Keys
  import Scan
  import Quorums
  import Reconciliation
  import Coordinator
  import Database

  const FIVE: seq<Operator> := [0, 1, 2, 3, 4]

  predicate StoredAscending(fields: seq<Field>) {
    forall i, j :: 0 <= i < j < |fields| ==> StoredBefore(fields[i], fields[j])
  }

  /** The map key, and the record under each of its fields. */
  datatype Content = Content(key: Keys.GenericKey, ctx: Context.DataContext, now: Context.Secs) {
    predicate Valid() {
      |key.data| < Keys.U32 && ctx.IntoPayload(now).Some?
    }

    function TheRecord(): Record
      requires Valid()
    {
      Database.ReadRecord(ctx, now).value
    }

    function Entries(fields: seq<Field>): (entries: seq<MapEntry>)
      requires Valid()
      ensures |entries| == |fields| && forall i :: 0 <= i < |fields| ==> entries[i] == MapEntry(fields[i], TheRecord())
    {
      seq(|fields|, i requires 0 <= i < |fields| => MapEntry(fields[i], TheRecord()))
    }

    /** A column with these fields of the map. */
    function Rows(fields: seq<Field>): (rows: seq<Scan.Row>)
      ensures |rows| == |fields|
      ensures forall i :: 0 <= i < |fields| ==> rows[i] == Scan.Row(key, fields[i], Keys.ExtKey(key, fields[i]), ctx)
    {
      seq(|fields|, i requires 0 <= i < |fields| => Scan.Row(key, fields[i], Keys.ExtKey(key, fields[i]), ctx))
    }

    /** Five replicas, each with its own fields. */
    function TheScan(fields: seq<seq<Field>>, count: nat): MapScan
      requires |fields| == RF
    {
      MapScan(FIVE, map o: nat | o < RF :: Rows(fields[o]), key, count, now)
    }
  }

  /** What a first page of `count` shows of the fields. */
  function Shown(fields: seq<Field>, count: nat): seq<Field> {
    if |fields| <= count then fields else fields[..count]
  }

  lemma RowsAreColumn(c: Content, fields: seq<Field>)
    requires c.Valid() && StoredAscending(fields)
    ensures Scan.IsMapColumn(c.Rows(fields)) && Scan.Fields(c.Rows(fields), c.key, c.now) == c.Rows(fields)
  {
    var rows := c.Rows(fields);
    forall i, j | 0 <= i < j < |rows| ensures Less(rows[i].bytes, rows[j].bytes) {
      Keys.ExtKeyOrder(c.key, fields[i], fields[j]);
    }
    FilterAll(rows, (r: Scan.Row) => r.key == c.key);
    FilterAll(rows, (r: Scan.Row) => r.ctx.IntoPayload(c.now).Some?);
  }

  lemma FirstPage(c: Content, fields: seq<Field>, count: nat)
    requires c.Valid() && StoredAscending(fields) && count > 0
    ensures ReplicaPage(c.Rows(fields), c.key, count, None, c.now) ==
            MapPage(c.Entries(Shown(fields, count)), |fields| > count)
  {
    RowsAreColumn(c, fields);
    RestIsLive(c.Rows(fields), c.key, None, c.now);
    var page := ReplicaPage(c.Rows(fields), c.key, count, None, c.now);
    assert page.entries == c.Entries(Shown(fields, count));
  }

  lemma ScanIsValid(c: Content, fields: seq<seq<Field>>, count: nat)
    requires c.Valid() && |fields| == RF && count > 0 && forall o :: 0 <= o < RF ==> StoredAscending(fields[o])
    ensures c.TheScan(fields, count).Valid()
    ensures
      var replies := c.TheScan(fields, count).Replies(None);
      && AllPages(FIVE, replies) && replies.Keys == Members(FIVE)
      && forall o: nat :: o < RF ==>
           && o in replies
           && replies[o] == Ok(PageOutput(MapPage(c.Entries(Shown(fields[o], count)), |fields[o]| > count)))
  {
    var m := c.TheScan(fields, count);
    assert m.stores.Keys == Members(FIVE);
    forall o: nat | o < RF
      ensures Scan.IsMapColumn(m.stores[o])
      ensures m.PageAt(o, None) == MapPage(c.Entries(Shown(fields[o], count)), |fields[o]| > count)
    {
      RowsAreColumn(c, fields[o]);
      FirstPage(c, fields[o], count);
    }
    RepliesArePages(m, None);
  }

  /** The replicas whose first page shows the field. */
  function Showing(fields: seq<seq<Field>>, count: nat, field: Field): set<Operator>
    requires |fields| == RF
  {
    set o: nat | o < RF && field in Shown(fields[o], count)
  }

  function WithMore(fields: seq<seq<Field>>, count: nat): set<Operator>
    requires |fields| == RF
  {
    set o: nat | o < RF && |fields[o]| > count
  }

  lemma ReportersAreShowing(c: Content, fields: seq<seq<Field>>, count: nat, e: MapEntry)
    requires c.Valid() && |fields| == RF && count > 0 && forall o :: 0 <= o < RF ==> StoredAscending(fields[o])
    requires forall o :: o in FIVE ==> o in c.TheScan(fields, count).Replies(None)
    ensures Reconciliation.Reporters(FIVE, c.TheScan(fields, count).Replies(None), e) ==
            if e.record == c.TheRecord() then Showing(fields, count, e.field) else {}
  {
    ScanIsValid(c, fields, count);
    var replies := c.TheScan(fields, count).Replies(None);
    forall o: nat | o < RF
      ensures e in Reconciliation.EntriesOf(replies[o]) <==>
              e.record == c.TheRecord() && e.field in Shown(fields[o], count)
    {
      EntryShown(c, Shown(fields[o], count), e);
    }
  }

  lemma EntryShown(c: Content, fields: seq<Field>, e: MapEntry)
    requires c.Valid()
    ensures e in c.Entries(fields) <==> e.record == c.TheRecord() && e.field in fields
  {
    if e.record == c.TheRecord() && e.field in fields {
      var i :| 0 <= i < |fields| && fields[i] == e.field;
      assert c.Entries(fields)[i] == e;
    }
  }

  lemma EntriesDiffer(c: Content, a: seq<Field>, b: seq<Field>)
    requires c.Valid() && a != b
    ensures c.Entries(a) != c.Entries(b)
  {
    if |a| == |b| {
      var i :| 0 <= i < |a| && a[i] != b[i];
      assert c.Entries(a)[i] != c.Entries(b)[i];
    }
  }

  /** Five columns of which no two show the same first page. */
  predicate NoTwoAlike(fields: seq<seq<Field>>, count: nat) {
    && |fields| == RF && count > 0 && (forall o :: 0 <= o < RF ==> StoredAscending(fields[o]))
    && forall o, p :: 0 <= o < p < RF ==>
         Shown(fields[o], count) != Shown(fields[p], count) || (|fields[o]| > count) != (|fields[p]| > count)
  }

  lemma NoAgreement(c: Content, fields: seq<seq<Field>>, count: nat)
    requires c.Valid() && NoTwoAlike(fields, count)
    ensures Quorums.IsOutcome(None, FIVE, None, c.TheScan(fields, count).Replies(None))
  {
    ScanIsValid(c, fields, count);
    var replies := c.TheScan(fields, count).Replies(None);
    forall o: nat, p: nat | o < p < RF ensures replies[o] != replies[p] {
      if Shown(fields[o], count) != Shown(fields[p], count) {
        EntriesDiffer(c, Shown(fields[o], count), Shown(fields[p], count));
      }
    }
    DifferentReplies(FIVE, replies);
  }

  /** The fields that a majority shows, and whether a majority has more. */
  ghost predicate ShownByMajority(fields: seq<seq<Field>>, count: nat, majority: seq<Field>, more: bool)
    requires |fields| == RF
  {
    && (forall field :: field in majority <==> |Showing(fields, count, field)| >= MAJORITY)
    && (more <==> |WithMore(fields, count)| >= MAJORITY)
  }

  lemma MoreIsWithMore(c: Content, fields: seq<seq<Field>>, count: nat)
    requires c.Valid() && NoTwoAlike(fields, count) && AllPages(FIVE, c.TheScan(fields, count).Replies(None))
    ensures Reconciliation.Supporters(FIVE, c.TheScan(fields, count).Replies(None), Reconciliation.HasNext()) ==
            WithMore(fields, count)
  {
    ScanIsValid(c, fields, count);
  }

  lemma ShownIsMajority(c: Content, fields: seq<seq<Field>>, count: nat, majority: seq<Field>, more: bool)
    requires c.Valid() && NoTwoAlike(fields, count) && ShownByMajority(fields, count, majority, more)
    requires AllPages(FIVE, c.TheScan(fields, count).Replies(None))
    ensures IsMajorityOf(MapPage(c.Entries(majority), more), FIVE, c.TheScan(fields, count).Replies(None))
  {
    var replies := c.TheScan(fields, count).Replies(None);
    forall e ensures e in c.Entries(majority) <==> |Reconciliation.Reporters(FIVE, replies, e)| >= MAJORITY {
      ReportersAreShowing(c, fields, count, e);
      EntryShown(c, majority, e);
    }
    MoreIsWithMore(c, fields, count);
  }

  lemma EntriesAscend(c: Content, fields: seq<Field>)
    requires c.Valid() && forall i, j :: 0 <= i < j < |fields| ==> Less(fields[i], fields[j])
    ensures Reconciliation.Ascending(c.Entries(fields)) && Reconciliation.NoRepeats(c.Entries(fields))
  {
    forall i, j | 0 <= i < j < |fields| ensures fields[i] != fields[j] {
      LessIrreflexive(fields[i]);
    }
  }

  /** The answer to the first scan is what a majority shows. */
  lemma FirstAnswer(c: Content, fields: seq<seq<Field>>, count: nat, majority: seq<Field>, more: bool)
    requires c.Valid() && NoTwoAlike(fields, count) && ShownByMajority(fields, count, majority, more)
    requires forall i, j :: 0 <= i < j < |majority| ==> Less(majority[i], majority[j])
    ensures FirstPageIs(c.TheScan(fields, count), MapPage(c.Entries(majority), more))
  {
    ScanIsValid(c, fields, count);
    NoAgreement(c, fields, count);
    ShownIsMajority(c, fields, count, majority, more);
    EntriesAscend(c, majority);
    var m := c.TheScan(fields, count);
    MajorityIsAnswer(m.Request(None), FIVE, None, m.Replies(None), MapPage(c.Entries(majority), more));
  }

  ghost predicate FirstPageIs(m: MapScan, page: MapPage) {
    m.Valid() && PageFollows(m, [page], 0)
  }

  ghost predicate HeldBy(m: MapScan, holders: set<Operator>, e: MapEntry) {
    forall o :: o in holders ==> o in m.stores && m.Holds(o, e)
  }

  /** No replica returns the field behind the cursor. */
  ghost predicate Passed(m: MapScan, cursor: Field, field: Field) {
    forall o :: o in m.stores ==> !Repeats(m.stores[o], m.key, m.now, cursor, field)
  }

  /** Every replica returns the field behind the cursor. */
  ghost predicate Returns(m: MapScan, cursor: Field, field: Field) {
    forall o :: o in m.stores ==> Repeats(m.stores[o], m.key, m.now, cursor, field)
  }

  lemma RowHeld(c: Content, fields: seq<Field>, field: Field)
    requires c.Valid() && StoredAscending(fields) && field in fields
    ensures HasField(c.Rows(fields), c.key, c.now, field)
    ensures exists r :: && r in Scan.Fields(c.Rows(fields), c.key, c.now) && r.ctx.IntoPayload(c.now).Some?
                        && EntryOf(r, c.now) == MapEntry(field, c.TheRecord())
  {
    RowsAreColumn(c, fields);
    var i :| 0 <= i < |fields| && fields[i] == field;
    assert c.Rows(fields)[i] in Scan.Fields(c.Rows(fields), c.key, c.now);
    assert EntryOf(c.Rows(fields)[i], c.now) == MapEntry(field, c.TheRecord());
  }

  /** A replica that has a field returns it behind the cursor exactly when it is stored there. */
  lemma ReturnedBehind(c: Content, fields: seq<Field>, cursor: Field, field: Field)
    requires c.Valid() && StoredAscending(fields)
    ensures Repeats(c.Rows(fields), c.key, c.now, cursor, field) <==> field in fields && StoredBefore(cursor, field)
  {
    RowsAreColumn(c, fields);
    if field in fields {
      RowHeld(c, fields, field);
      RepeatsExactly(c.Rows(fields), c.key, c.now, cursor, field);
    }
  }

  lemma AllReturn(c: Content, fields: seq<seq<Field>>, count: nat, cursor: Field, field: Field)
    requires c.Valid() && NoTwoAlike(fields, count) && StoredBefore(cursor, field)
    requires forall o :: 0 <= o < RF ==> field in fields[o]
    ensures Returns(c.TheScan(fields, count), cursor, field)
  {
    forall o: nat | o < RF ensures Repeats(c.Rows(fields[o]), c.key, c.now, cursor, field) {
      ReturnedBehind(c, fields[o], cursor, field);
    }
  }

  lemma NoneReturns(c: Content, fields: seq<seq<Field>>, count: nat, cursor: Field, field: Field)
    requires c.Valid() && NoTwoAlike(fields, count) && !StoredBefore(cursor, field)
    ensures Passed(c.TheScan(fields, count), cursor, field)
  {
    forall o: nat | o < RF ensures !Repeats(c.Rows(fields[o]), c.key, c.now, cursor, field) {
      ReturnedBehind(c, fields[o], cursor, field);
    }
  }

  lemma HoldersOf(c: Content, fields: seq<seq<Field>>, count: nat, holders: set<Operator>, field: Field)
    requires c.Valid() && NoTwoAlike(fields, count) && forall o :: o in holders ==> o < RF && field in fields[o]
    ensures HeldBy(c.TheScan(fields, count), holders, MapEntry(field, c.TheRecord()))
  {
    var m := c.TheScan(fields, count);
    forall o | o in holders ensures o in m.stores && m.Holds(o, MapEntry(field, c.TheRecord())) {
      RowHeld(c, fields[o], field);
    }
  }

  lemma ByteOrder(a: byte, b: byte)
    ensures Less([a], [b]) <==> a < b
    ensures StoredBefore([a], [b]) <==> a < b
  {
    Keys.FieldOrder([a], [b]);
  }

  lemma ByteFieldsAscend(fields: seq<Field>)
    requires forall i :: 0 <= i < |fields| ==> |fields[i]| == 1
    requires forall i, j :: 0 <= i < j < |fields| ==> fields[i][0] < fields[j][0]
    ensures StoredAscending(fields)
  {
    forall i, j | 0 <= i < j < |fields| ensures StoredBefore(fields[i], fields[j]) {
      assert fields[i] == [fields[i][0]] && fields[j] == [fields[j][0]];
      ByteOrder(fields[i][0], fields[j][0]);
    }
  }

  // ---------------------------------------------------------------------
  // An empty page that announces more
  // ---------------------------------------------------------------------

  /** Every replica starts with a field of its own. */
  function OwnFields(): (fields: seq<seq<Field>>)
    ensures |fields| == RF && forall o: byte :: o < RF ==> fields[o] == [[o], [9]]
  {
    seq(RF, o requires 0 <= o < RF => [[o], [9]])
  }

  lemma OwnFieldShown(o: byte)
    requires o < RF
    ensures Shown(OwnFields()[o], 1) == [[o]] && StoredAscending(OwnFields()[o])
  {
    ByteFieldsAscend([[o], [9]]);
  }

  lemma OwnFieldsDiffer()
    ensures NoTwoAlike(OwnFields(), 1)
  {
    forall o: byte | o < RF ensures Shown(OwnFields()[o], 1) == [[o]] && StoredAscending(OwnFields()[o]) {
      OwnFieldShown(o);
    }
    forall o, p | 0 <= o < p < RF ensures Shown(OwnFields()[o], 1) != Shown(OwnFields()[p], 1) {
      assert [[o as byte]][0][0] != [[p as byte]][0][0];
    }
  }

  lemma OwnFieldsHaveNoMajority()
    ensures ShownByMajority(OwnFields(), 1, [], true)
  {
    forall field ensures |Showing(OwnFields(), 1, field)| <= 1 {
      forall o: byte | o < RF ensures Shown(OwnFields()[o], 1) == [[o]] {
        OwnFieldShown(o);
      }
      var owner: nat := if field == [] then 0 else field[0];
      SubsetSize(Showing(OwnFields(), 1, field), {owner});
    }
    assert WithMore(OwnFields(), 1) == {0, 1, 2, 3, 4};
  }

  /** The answer to a scan by one is an empty page with more to come: the client has no cursor to go on from. */
  lemma EmptyAnswer(c: Content)
    requires c.Valid()
    ensures
      var m, page := c.TheScan(OwnFields(), 1), MapPage([], true);
      FirstPageIs(m, page) && NextCursor(page) == None
  {
    OwnFieldsDiffer();
    OwnFieldsHaveNoMajority();
    FirstAnswer(c, OwnFields(), 1, [], true);
    assert c.Entries([]) == [];
  }

  // ---------------------------------------------------------------------
  // A cursor that leads back
  // ---------------------------------------------------------------------

  /** "b", stored before the longer "aa", then a field of the replica's own, then one that is left for the next page. */
  function MixedLengths(): (fields: seq<seq<Field>>)
    ensures |fields| == RF && forall o: byte :: o < RF ==> fields[o] == [[98], [97, 97], [99, o], [100, 0]]
  {
    seq(RF, o requires 0 <= o < RF => [[98], [97, 97], [99, o], [100, 0]])
  }

  lemma PairOrder(a: byte, x: byte, b: byte, y: byte)
    requires a < b
    ensures StoredBefore([a, x], [b, y])
  {
    Keys.FieldOrder([a, x], [b, y]);
  }

  lemma ShorterFirst(a: byte, b: byte, y: byte)
    ensures StoredBefore([a], [b, y])
  {
    Keys.FieldOrder([a], [b, y]);
  }

  lemma MixedLengthsShown(o: byte)
    requires o < RF
    ensures Shown(MixedLengths()[o], 3) == [[98], [97, 97], [99, o]] && StoredAscending(MixedLengths()[o])
  {
    ShorterFirst(98, 97, 97);
    ShorterFirst(98, 99, o);
    ShorterFirst(98, 100, 0);
    PairOrder(97, 97, 99, o);
    PairOrder(97, 97, 100, 0);
    PairOrder(99, o, 100, 0);
  }

  lemma MixedLengthsDiffer()
    ensures NoTwoAlike(MixedLengths(), 3)
  {
    forall o: byte | o < RF
      ensures StoredAscending(MixedLengths()[o]) && Shown(MixedLengths()[o], 3) == [[98], [97, 97], [99, o]]
    {
      MixedLengthsShown(o);
    }
    forall o, p | 0 <= o < p < RF ensures Shown(MixedLengths()[o], 3) != Shown(MixedLengths()[p], 3) {
      var a: byte, b: byte := o, p;
      assert [[98], [97, 97], [99, a]][2][1] != [[98], [97, 97], [99, b]][2][1];
    }
  }

  lemma MixedLengthsMajority()
    ensures ShownByMajority(MixedLengths(), 3, [[97, 97], [98]], true)
  {
    forall field: Field ensures field in [[97, 97], [98]] <==> |Showing(MixedLengths(), 3, field)| >= MAJORITY {
      forall o: byte | o < RF ensures Shown(MixedLengths()[o], 3) == [[98], [97, 97], [99, o]] {
        MixedLengthsShown(o);
      }
      var showing := Showing(MixedLengths(), 3, field);
      if field in [[97, 97], [98]] {
        assert showing == {0, 1, 2, 3, 4};
      } else {
        var owner: nat := if |field| == 2 then field[1] else 0;
        SubsetSize(showing, {owner});
      }
    }
    assert WithMore(MixedLengths(), 3) == {0, 1, 2, 3, 4};
  }

  /** The answer to a scan by three is "aa" and "b", and every replica returns "aa" again behind the cursor "b". */
  lemma RepeatedEntry(c: Content)
    requires c.Valid()
    ensures
      var m, page := c.TheScan(MixedLengths(), 3), MapPage(c.Entries([[97, 97], [98]]), true);
      && FirstPageIs(m, page) && NextCursor(page) == Some([98])
      && page.entries[0].field == [97, 97] && Returns(m, [98], [97, 97])
  {
    MixedLengthsDiffer();
    MixedLengthsMajority();
    Keys.RawOrderDiffers();
    FirstAnswer(c, MixedLengths(), 3, [[97, 97], [98]], true);
    AllReturn(c, MixedLengths(), 3, [98], [97, 97]);
  }

  // ---------------------------------------------------------------------
  // An entry of a majority that is skipped
  // ---------------------------------------------------------------------

  /** Field 3 is on the first three replicas, and cut off the page of the third one by its fields 1 and 2. */
  const UNEVEN: seq<seq<Field>> := [[[3], [4], [5]], [[3], [4]], [[1], [2], [3]], [[4], [5], [6]], [[4]]]

  lemma UnevenShown()
    ensures Shown(UNEVEN[0], 2) == [[3], [4]] && Shown(UNEVEN[1], 2) == [[3], [4]] && Shown(UNEVEN[2], 2) == [[1], [2]]
    ensures Shown(UNEVEN[3], 2) == [[4], [5]] && Shown(UNEVEN[4], 2) == [[4]]
  {
  }

  lemma UnevenAscend(o: nat)
    requires o < RF
    ensures StoredAscending(UNEVEN[o])
  {
    ByteFieldsAscend(UNEVEN[o]);
  }

  lemma UnevenDiffer()
    ensures NoTwoAlike(UNEVEN, 2)
  {
    forall o: nat | o < RF ensures StoredAscending(UNEVEN[o]) {
      UnevenAscend(o);
    }
    UnevenShown();
    assert [4] != [5] && [3] != [4] && [1] != [3] && [1] != [4];
  }

  lemma UnevenCount(showing: set<Operator>, field: Field)
    requires forall o :: o in showing ==> o < RF
    requires (0 in showing <==> field == [3] || field == [4]) && (1 in showing <==> field == [3] || field == [4])
    requires (2 in showing <==> field == [1] || field == [2]) && (3 in showing <==> field == [4] || field == [5])
    requires 4 in showing <==> field == [4]
    ensures field == [4] <==> |showing| >= MAJORITY
  {
    if field == [4] {
      SubsetSize({0, 1, 3}, showing);
    } else if field == [3] {
      SubsetSize(showing, {0, 1});
    } else {
      SubsetSize(showing, {2, 3});
    }
  }

  lemma UnevenShowing(field: Field)
    ensures field == [4] <==> |Showing(UNEVEN, 2, field)| >= MAJORITY
  {
    UnevenShown();
    UnevenCount(Showing(UNEVEN, 2, field), field);
  }

  lemma UnevenMajority()
    ensures ShownByMajority(UNEVEN, 2, [[4]], true)
  {
    forall field: Field ensures field in [[4]] <==> |Showing(UNEVEN, 2, field)| >= MAJORITY {
      UnevenShowing(field);
    }
    assert WithMore(UNEVEN, 2) == {0, 2, 3};
  }

  /** A field that is neither the only one of the page nor stored behind it is not returned any more. */
  lemma Skips(c: Content, fields: seq<seq<Field>>, count: nat, last: Field, holders: set<Operator>, field: Field)
    requires c.Valid() && NoTwoAlike(fields, count) && ShownByMajority(fields, count, [last], true)
    requires field != last && !StoredBefore(last, field)
    requires forall o :: o in holders ==> o < RF && field in fields[o]
    ensures
      var m, page, e := c.TheScan(fields, count), MapPage(c.Entries([last]), true), MapEntry(field, c.TheRecord());
      && FirstPageIs(m, page) && NextCursor(page) == Some(last)
      && HeldBy(m, holders, e) && e !in page.entries && Passed(m, last, field)
  {
    FirstAnswer(c, fields, count, [last], true);
    EntryShown(c, [last], MapEntry(field, c.TheRecord()));
    HoldersOf(c, fields, count, holders, field);
    NoneReturns(c, fields, count, last, field);
  }

  /**
   A scan by two answers with field 4 and more to come, so that field 3, which three replicas hold
   alike, is neither in the page nor returned by any replica behind its cursor.
   */
  lemma SkippedEntry(c: Content)
    requires c.Valid()
    ensures
      var m, page, e := c.TheScan(UNEVEN, 2), MapPage(c.Entries([[4]]), true), MapEntry([3], c.TheRecord());
      && FirstPageIs(m, page) && NextCursor(page) == Some([4])
      && HeldBy(m, {0, 1, 2}, e) && e !in page.entries && Passed(m, [4], [3])
  {
    UnevenDiffer();
    UnevenMajority();
    ByteOrder(4, 3);
    Skips(c, UNEVEN, 2, [4], {0, 1, 2}, [3]);
  }
}
