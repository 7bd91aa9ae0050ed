/** Paging through a map by way of a coordinator, whose reconciled pages are in raw field order. */
module MapPaging {
  import opened Wrappers
  import opened Bytes
  import opened Sets
  import opened ReplicaSets
  import opened Storage
  import Context
  import Keys
  import Scan
  import Quorums
  import Reconciliation
  import Coordinator
  import Database

  /** The cursor a client goes on from: the last entry of the page, when more is announced. */
  function NextCursor(page: MapPage): Option<Field> {
    if page.hasNext && page.entries != [] then Some(page.entries[|page.entries| - 1].field) else None
  }

  /** There is a cursor exactly when more is announced behind some entries, and it is the last field in raw order. */
  lemma CursorExact(page: MapPage)
    requires Reconciliation.Ascending(page.entries)
    ensures NextCursor(page).Some? <==> page.hasNext && page.entries != []
    ensures NextCursor(page).Some? ==>
              && (exists e :: e in page.entries && e.field == NextCursor(page).value)
              && (forall e :: e in page.entries ==> LessEq(e.field, NextCursor(page).value))
  {
    if NextCursor(page).Some? {
      var last := |page.entries| - 1;
      assert page.entries[last] in page.entries;
      forall e | e in page.entries ensures LessEq(e.field, NextCursor(page).value) {
        var i :| 0 <= i < |page.entries| && page.entries[i] == e;
        assert i < last ==> LessEq(e.field, page.entries[last].field);
      }
    }
  }

  /** Stored order of two fields. */
  predicate StoredBefore(a: Field, b: Field) {
    Less(Keys.Serialize(a), Keys.Serialize(b))
  }

  /** The next page of a replica is taken from exactly the fields stored behind the cursor. */
  lemma NextPageStarts(rows: seq<Scan.Row>, key: Keys.GenericKey, cursor: Field, now: Context.Secs, r: Scan.Row)
    requires Scan.IsMapColumn(rows) && r in Scan.Fields(rows, key, now)
    ensures r in Scan.Rest(rows, key, Some(cursor), now) <==> StoredBefore(cursor, r.field)
  {
    assert Scan.Decodes(r) && r.key == key;
    Keys.ExtKeyOrder(key, cursor, r.field);
  }

  /** No entry of the page is stored behind its cursor. */
  predicate CursorIsStoredLast(page: MapPage)
    requires NextCursor(page).Some?
  {
    forall e :: e in page.entries ==> !StoredBefore(NextCursor(page).value, e.field)
  }

  /** The replica still has every entry of the page. */
  ghost predicate HasAll(rows: seq<Scan.Row>, key: Keys.GenericKey, now: Context.Secs, page: MapPage) {
    forall e :: e in page.entries ==> HasField(rows, key, now, e.field)
  }

  ghost predicate HasField(rows: seq<Scan.Row>, key: Keys.GenericKey, now: Context.Secs, field: Field) {
    exists r :: r in Scan.Fields(rows, key, now) && r.field == field
  }

  /** The replica returns the field again behind the cursor. */
  ghost predicate Repeats(rows: seq<Scan.Row>, key: Keys.GenericKey, now: Context.Secs, cursor: Field, field: Field) {
    exists r :: r in Scan.Rest(rows, key, Some(cursor), now) && r.field == field
  }

  lemma RepeatsExactly(rows: seq<Scan.Row>, key: Keys.GenericKey, now: Context.Secs, cursor: Field, field: Field)
    requires Scan.IsMapColumn(rows) && HasField(rows, key, now, field)
    ensures Repeats(rows, key, now, cursor, field) <==> StoredBefore(cursor, field)
  {
    var r :| r in Scan.Fields(rows, key, now) && r.field == field;
    NextPageStarts(rows, key, cursor, now, r);
    if r' :| r' in Scan.Rest(rows, key, Some(cursor), now) && r'.field == field {
      NextPageStarts(rows, key, cursor, now, r');
    }
  }

  /** Following the cursor returns no entry of the page again, exactly when the cursor is the last in stored order. */
  lemma NothingRepeatedExactly(rows: seq<Scan.Row>, key: Keys.GenericKey, now: Context.Secs, page: MapPage)
    requires Scan.IsMapColumn(rows) && NextCursor(page).Some? && HasAll(rows, key, now, page)
    ensures (forall e :: e in page.entries ==> !Repeats(rows, key, now, NextCursor(page).value, e.field))
        <==> CursorIsStoredLast(page)
  {
    forall e | e in page.entries
      ensures Repeats(rows, key, now, NextCursor(page).value, e.field) <==>
              StoredBefore(NextCursor(page).value, e.field)
    {
      assert HasField(rows, key, now, e.field);
      RepeatsExactly(rows, key, now, NextCursor(page).value, e.field);
    }
  }

  /** In a page of fields of one length the cursor is the last in stored order. */
  lemma OneLengthIsOrdered(page: MapPage)
    requires NextCursor(page).Some? && Reconciliation.Ascending(page.entries)
    requires forall e :: e in page.entries ==> |e.field| == |NextCursor(page).value|
    ensures CursorIsStoredLast(page)
  {
    var cursor := NextCursor(page).value;
    forall e | e in page.entries ensures !StoredBefore(cursor, e.field) {
      var i :| 0 <= i < |page.entries| && page.entries[i] == e;
      assert i < |page.entries| - 1 ==> LessEq(e.field, cursor);
      Keys.FieldOrder(cursor, e.field);
      NotLess(cursor, e.field);
    }
  }

  // ---------------------------------------------------------------------
  // Answers to a scan
  // ---------------------------------------------------------------------

  /** Every replica replied with a page without repeated fields. */
  ghost predicate AllPages(replicas: seq<Operator>, replies: map<Operator, Response>) {
    forall o :: o in replicas ==>
      && o in replies && replies[o].Ok? && replies[o].value.PageOutput?
      && Reconciliation.UniqueFields(replies[o].value.page.entries)
  }

  /** The page holds the entries of a majority, and announces more when a majority does. */
  ghost predicate IsMajorityOf(page: MapPage, replicas: seq<Operator>, replies: map<Operator, Response>)
    requires forall o :: o in replicas ==> o in replies
  {
    && (forall e :: e in page.entries <==> |Reconciliation.Reporters(replicas, replies, e)| >= MAJORITY)
    && (page.hasNext <==> |Reconciliation.Supporters(replicas, replies, Reconciliation.HasNext())| >= MAJORITY)
  }

  /** A response of three replicas says of entries what three replicas say. */
  lemma AgreedIsMajority(replicas: seq<Operator>, replies: map<Operator, Response>, r: Response)
    requires IsReplicaSet(replicas) && AllPages(replicas, replies) && Quorums.Agreed(replicas, replies, r)
    ensures r.Ok? && r.value.PageOutput? && IsMajorityOf(r.value.page, replicas, replies)
  {
    var voters := Quorums.Voters(replicas, replies.Keys, replies, r);
    assert voters != {};
    var voter :| voter in voters;
    forall e ensures e in r.value.page.entries <==> |Reconciliation.Reporters(replicas, replies, e)| >= MAJORITY {
      var reporters := Reconciliation.Reporters(replicas, replies, e);
      if e in r.value.page.entries {
        SubsetSize(voters, reporters);
      } else if |reporters| >= MAJORITY {
        var o := Reconciliation.SharedMember(replicas, voters, reporters);
      }
    }
    var more := Reconciliation.Supporters(replicas, replies, Reconciliation.HasNext());
    if r.value.page.hasNext {
      SubsetSize(voters, more);
    } else if |more| >= MAJORITY {
      var o := Reconciliation.SharedMember(replicas, voters, more);
    }
  }

  lemma PagesCounted(replicas: seq<Operator>, replies: map<Operator, Response>)
    requires IsReplicaSet(replicas) && AllPages(replicas, replies)
    ensures Reconciliation.Reported(replicas, replies, Reconciliation.IsPage()) == RF
    ensures Reconciliation.Reported(replicas, replies, Reconciliation.HasNext()) ==
            |Reconciliation.Supporters(replicas, replies, Reconciliation.HasNext())|
  {
    Reconciliation.ReportedIsCount(replicas, replies, Reconciliation.IsPage());
    Reconciliation.ReportedIsCount(replicas, replies, Reconciliation.HasNext());
    assert Reconciliation.Supporters(replicas, replies, Reconciliation.IsPage()) == Members(replicas);
    DistinctSize(replicas);
  }

  /** Agreed or reconciled, the answer to a scan is a page of what the majority reports. */
  lemma AnswerIsMajority(operation: Operation, replicas: seq<Operator>, secondary: Option<seq<Operator>>,
                         replies: map<Operator, Response>, answer: Response)
    requires operation.HScan? && IsReplicaSet(replicas) && AllPages(replicas, replies)
    requires Coordinator.IsAnswer(operation, replicas, secondary, replies, answer)
    ensures answer.Ok? && answer.value.PageOutput? && IsMajorityOf(answer.value.page, replicas, replies)
  {
    if Quorums.IsOutcome(Some(answer), replicas, None, replies) {
      AgreedIsMajority(replicas, replies, answer);
    } else {
      PagesCounted(replicas, replies);
      var next := Reconciliation.Reported(replicas, replies, Reconciliation.HasNext());
      Reconciliation.PageIsMajority(answer.value.page, replicas, replies, next);
    }
  }

  lemma DifferentReplies(replicas: seq<Operator>, replies: map<Operator, Response>)
    requires replies.Keys == Members(replicas)
    requires forall o, p :: o in replicas && p in replicas && o != p ==> replies[o] != replies[p]
    ensures Quorums.IsOutcome(None, replicas, None, replies)
  {
    forall o | o in replies ensures !Quorums.AgreedByAll(replicas, None, replies, replies[o]) {
      assert Quorums.Voters(replicas, replies.Keys, replies, replies[o]) == {o};
    }
  }

  /** When no two replicas reply alike, the answer is the majority's page in raw order. */
  lemma MajorityIsAnswer(operation: Operation, replicas: seq<Operator>, secondary: Option<seq<Operator>>,
                         replies: map<Operator, Response>, page: MapPage)
    requires operation.HScan? && IsReplicaSet(replicas) && AllPages(replicas, replies)
    requires Quorums.IsOutcome(None, replicas, None, replies)
    requires Reconciliation.Ascending(page.entries) && Reconciliation.NoRepeats(page.entries)
    requires IsMajorityOf(page, replicas, replies)
    ensures Coordinator.IsAnswer(operation, replicas, secondary, replies, Ok(PageOutput(page)))
  {
    PagesCounted(replicas, replies);
    forall e
      ensures e in page.entries <==> Reconciliation.ReportedEntry(replicas, replies)(e) >= MAJORITY
    {
      Reconciliation.EntrySupport(replicas, replies, e);
    }
  }

  /** A scan ends although more was announced, exactly when a majority has more and no entry has a majority. */
  lemma EmptyPageEndsPaging(operation: Operation, replicas: seq<Operator>, secondary: Option<seq<Operator>>,
                            replies: map<Operator, Response>, answer: Response)
    requires operation.HScan? && IsReplicaSet(replicas) && AllPages(replicas, replies)
    requires Coordinator.IsAnswer(operation, replicas, secondary, replies, answer)
    ensures answer.Ok? && answer.value.PageOutput?
    ensures answer.value.page.hasNext && NextCursor(answer.value.page) == None
        <==> && |Reconciliation.Supporters(replicas, replies, Reconciliation.HasNext())| >= MAJORITY
             && forall e :: |Reconciliation.Reporters(replicas, replies, e)| < MAJORITY
  {
    AnswerIsMajority(operation, replicas, secondary, replies, answer);
    var entries := answer.value.page.entries;
    if entries != [] {
      Reconciliation.HasMember(entries);
    }
  }

  // ---------------------------------------------------------------------
  // Replicas that are scanned
  // ---------------------------------------------------------------------

  function EntryOf(r: Scan.Row, now: Context.Secs): MapEntry
    requires r.ctx.IntoPayload(now).Some?
  {
    MapEntry(r.field, Database.ReadRecord(r.ctx, now).value)
  }

  predicate AllLive(rows: seq<Scan.Row>, now: Context.Secs) {
    forall i :: 0 <= i < |rows| ==> rows[i].ctx.IntoPayload(now).Some?
  }

  function EntriesOfRows(rows: seq<Scan.Row>, now: Context.Secs): (entries: seq<MapEntry>)
    requires AllLive(rows, now)
    ensures |entries| == |rows| && forall i :: 0 <= i < |rows| ==> entries[i] == EntryOf(rows[i], now)
  {
    seq(|rows|, i requires 0 <= i < |rows| => EntryOf(rows[i], now))
  }

  lemma RestIsLive(rows: seq<Scan.Row>, key: Keys.GenericKey, cursor: Option<Field>, now: Context.Secs)
    ensures AllLive(Scan.Rest(rows, key, cursor, now), now)
  {
    var rest := Scan.Rest(rows, key, cursor, now);
    forall i | 0 <= i < |rest| ensures rest[i].ctx.IntoPayload(now).Some? {
      assert rest[i] in rest;
    }
  }

  /** What a replica replies to a scan. */
  function ReplicaPage(rows: seq<Scan.Row>, key: Keys.GenericKey, count: nat, cursor: Option<Field>,
                       now: Context.Secs): MapPage
  {
    RestIsLive(rows, key, cursor, now);
    var page := Scan.PageOf(Scan.Rest(rows, key, cursor, now), count);
    MapPage(EntriesOfRows(page.items, now), page.hasNext)
  }

  /** A scan of one map on replicas that do not change meanwhile. */
  datatype MapScan = MapScan(
    replicas: seq<Operator>,
    stores: map<Operator, seq<Scan.Row>>,
    key: Keys.GenericKey,
    count: nat,
    now: Context.Secs)
  {
    ghost predicate Valid() {
      && IsReplicaSet(replicas) && stores.Keys == Members(replicas)
      && forall o :: o in stores ==> Scan.IsMapColumn(stores[o])
    }

    function PageAt(o: Operator, cursor: Option<Field>): MapPage
      requires o in stores
    {
      ReplicaPage(stores[o], key, count, cursor, now)
    }

    function Replies(cursor: Option<Field>): map<Operator, Response> {
      map o | o in stores :: Ok(PageOutput(PageAt(o, cursor)))
    }

    function Request(cursor: Option<Field>): Operation {
      HScan(key.data, count, cursor)
    }

    /** The replica has the live entry. */
    ghost predicate Holds(o: Operator, e: MapEntry)
      requires o in stores
    {
      exists r :: r in Scan.Fields(stores[o], key, now) && r.ctx.IntoPayload(now).Some? && EntryOf(r, now) == e
    }

    ghost predicate HeldByAll(e: MapEntry) {
      forall o :: o in stores ==> Holds(o, e)
    }
  }

  /** The entry is still to come. */
  predicate Ahead(cursor: Option<Field>, field: Field) {
    cursor.None? || StoredBefore(cursor.value, field)
  }

  lemma RestOrdered(rows: seq<Scan.Row>, key: Keys.GenericKey, cursor: Option<Field>, now: Context.Secs)
    requires Scan.IsMapColumn(rows)
    ensures
      var rest := Scan.Rest(rows, key, cursor, now);
      Scan.Ordered(rest) && forall r :: r in rest ==> Scan.Decodes(r) && r.key == key
  {
    Scan.FieldsOrdered(rows, key, now);
    if cursor.Some? {
      var seek := Keys.ExtKey(key, cursor.value);
      Scan.FilterKeepsOrder(Scan.Fields(rows, key, now), (r: Scan.Row) => Less(seek, r.bytes));
    }
  }

  /** Rows of one map are stored in the order of their fields. */
  lemma RowsByField(rest: seq<Scan.Row>, key: Keys.GenericKey, i: nat, j: nat)
    requires Scan.Ordered(rest) && (forall r :: r in rest ==> Scan.Decodes(r) && r.key == key)
    requires i < j < |rest|
    ensures StoredBefore(rest[i].field, rest[j].field) && rest[i].field != rest[j].field
  {
    assert rest[i] in rest && rest[j] in rest;
    Keys.ExtKeyOrder(key, rest[i].field, rest[j].field);
    LessIrreflexive(rest[i].bytes);
  }

  lemma PageIsUnique(rows: seq<Scan.Row>, key: Keys.GenericKey, count: nat, cursor: Option<Field>, now: Context.Secs)
    requires Scan.IsMapColumn(rows)
    ensures Reconciliation.UniqueFields(ReplicaPage(rows, key, count, cursor, now).entries)
  {
    RestOrdered(rows, key, cursor, now);
    RestIsLive(rows, key, cursor, now);
    var rest := Scan.Rest(rows, key, cursor, now);
    var entries := ReplicaPage(rows, key, count, cursor, now).entries;
    forall i, j | 0 <= i < j < |entries| ensures entries[i].field != entries[j].field {
      RowsByField(rest, key, i, j);
    }
  }

  /** A page holds every live field behind the cursor up to each of its entries, and all of them when it is the last. */
  lemma PageIsPrefix(rows: seq<Scan.Row>, key: Keys.GenericKey, count: nat, cursor: Option<Field>, now: Context.Secs,
                     r: Scan.Row)
    requires Scan.IsMapColumn(rows) && r in Scan.Fields(rows, key, now) && r.ctx.IntoPayload(now).Some?
    requires Ahead(cursor, r.field)
    ensures
      var page := ReplicaPage(rows, key, count, cursor, now);
      && (!page.hasNext ==> EntryOf(r, now) in page.entries)
      && (forall e :: e in page.entries && (e.field == r.field || StoredBefore(r.field, e.field)) ==>
            EntryOf(r, now) in page.entries)
  {
    var rest, page := Scan.Rest(rows, key, cursor, now), ReplicaPage(rows, key, count, cursor, now);
    RestOrdered(rows, key, cursor, now);
    RestIsLive(rows, key, cursor, now);
    if cursor.Some? {
      NextPageStarts(rows, key, cursor.value, now, r);
    }
    assert r in rest;
    var i :| 0 <= i < |rest| && rest[i] == r;
    if i < |page.entries| {
      assert page.entries[i] == EntryOf(r, now);
    } else {
      forall e | e in page.entries ensures e.field != r.field && !StoredBefore(r.field, e.field) {
        var j :| 0 <= j < |page.entries| && page.entries[j] == e;
        RowsByField(rest, key, j, i);
        NotLess(Keys.Serialize(r.field), Keys.Serialize(e.field));
      }
    }
  }

  lemma RepliesArePages(m: MapScan, cursor: Option<Field>)
    requires m.Valid()
    ensures AllPages(m.replicas, m.Replies(cursor))
    ensures m.Replies(cursor).Keys == Members(m.replicas)
  {
    forall o | o in m.replicas ensures o in m.stores {
      assert o in Members(m.replicas);
    }
    forall o | o in m.stores ensures Reconciliation.UniqueFields(m.PageAt(o, cursor).entries) {
      PageIsUnique(m.stores[o], m.key, m.count, cursor, m.now);
    }
  }

  /** The page has the entry if it has anything at or behind it, or if it is the last one. */
  predicate ReportsInOrder(page: MapPage, e: MapEntry) {
    && (!page.hasNext ==> e in page.entries)
    && (forall f :: f in page.entries && (f.field == e.field || StoredBefore(e.field, f.field)) ==> e in page.entries)
  }

  ghost predicate AllReportInOrder(replicas: seq<Operator>, replies: map<Operator, Response>, e: MapEntry) {
    AllPages(replicas, replies) && forall o :: o in replicas ==> ReportsInOrder(replies[o].value.page, e)
  }

  /** Whoever reports an entry reports the one stored before it. */
  lemma ReportedTogether(replicas: seq<Operator>, replies: map<Operator, Response>, e: MapEntry, f: MapEntry)
    requires AllReportInOrder(replicas, replies, e) && (f.field == e.field || StoredBefore(e.field, f.field))
    ensures |Reconciliation.Reporters(replicas, replies, f)| <= |Reconciliation.Reporters(replicas, replies, e)|
  {
    SubsetSize(Reconciliation.Reporters(replicas, replies, f), Reconciliation.Reporters(replicas, replies, e));
  }

  /** When no majority has more, a majority reports the entry. */
  lemma ReportedAtLast(replicas: seq<Operator>, replies: map<Operator, Response>, e: MapEntry)
    requires IsReplicaSet(replicas) && AllReportInOrder(replicas, replies, e)
    requires |Reconciliation.Supporters(replicas, replies, Reconciliation.HasNext())| < MAJORITY
    ensures |Reconciliation.Reporters(replicas, replies, e)| >= MAJORITY
  {
    var all, more := Members(replicas), Reconciliation.Supporters(replicas, replies, Reconciliation.HasNext());
    var reporters := Reconciliation.Reporters(replicas, replies, e);
    DistinctSize(replicas);
    ComplementSize(all, more);
    forall o | o in all - more ensures o in reporters {
      assert o in replicas && ReportsInOrder(replies[o].value.page, e);
    }
    SubsetSize(all - more, reporters);
  }

  lemma StoredOrderIsTotal(a: Field, b: Field)
    ensures a == b || StoredBefore(a, b) || StoredBefore(b, a)
  {
    LessTotal(Keys.Serialize(a), Keys.Serialize(b));
    Keys.FieldRoundTrip(a);
    Keys.FieldRoundTrip(b);
  }

  /** An entry that all replicas report in order is returned by a page, or is still ahead of its cursor. */
  lemma OrderedEntryNotSkipped(replicas: seq<Operator>, replies: map<Operator, Response>, page: MapPage, e: MapEntry)
    requires IsReplicaSet(replicas) && AllReportInOrder(replicas, replies, e) && IsMajorityOf(page, replicas, replies)
    ensures e in page.entries || (page.hasNext && Ahead(NextCursor(page), e.field))
  {
    if !page.hasNext {
      ReportedAtLast(replicas, replies, e);
    } else if NextCursor(page).Some? {
      var f := page.entries[|page.entries| - 1];
      assert f in page.entries;
      StoredOrderIsTotal(e.field, f.field);
      if !StoredBefore(f.field, e.field) {
        ReportedTogether(replicas, replies, e, f);
      }
    }
  }

  lemma ReplicaReports(m: MapScan, cursor: Option<Field>, o: Operator, e: MapEntry)
    requires m.Valid() && o in m.stores && m.Holds(o, e) && Ahead(cursor, e.field)
    ensures ReportsInOrder(m.PageAt(o, cursor), e)
  {
    var r :| r in Scan.Fields(m.stores[o], m.key, m.now) && r.ctx.IntoPayload(m.now).Some? && EntryOf(r, m.now) == e;
    PageIsPrefix(m.stores[o], m.key, m.count, cursor, m.now, r);
  }

  /** Replicas that hold an entry report it in order, whatever else they hold. */
  lemma HoldersReport(m: MapScan, cursor: Option<Field>, e: MapEntry)
    requires m.Valid() && m.HeldByAll(e) && Ahead(cursor, e.field)
    ensures AllReportInOrder(m.replicas, m.Replies(cursor), e)
  {
    RepliesArePages(m, cursor);
    forall o | o in m.replicas ensures ReportsInOrder(m.Replies(cursor)[o].value.page, e) {
      assert o in Members(m.replicas);
      ReplicaReports(m, cursor, o, e);
    }
  }

  // ---------------------------------------------------------------------
  // Following the cursors
  // ---------------------------------------------------------------------

  function CursorAt(pages: seq<MapPage>, i: nat): Option<Field>
    requires i <= |pages|
  {
    if i == 0 then None else NextCursor(pages[i - 1])
  }

  /** Page `i` answers a scan from the cursor of the page before it. */
  ghost predicate PageFollows(m: MapScan, pages: seq<MapPage>, i: nat)
    requires m.Valid()
  {
    && i < |pages| && (i > 0 ==> CursorAt(pages, i).Some?)
    && AllPages(m.replicas, m.Replies(CursorAt(pages, i)))
    && Coordinator.IsAnswer(m.Request(CursorAt(pages, i)), m.replicas, None, m.Replies(CursorAt(pages, i)),
                            Ok(PageOutput(pages[i])))
  }

  /** What is ahead when a page is asked for is in it, or still ahead. */
  predicate Keeps(pages: seq<MapPage>, e: MapEntry, i: nat) {
    i < |pages| &&
    (Ahead(CursorAt(pages, i), e.field) ==>
       e in pages[i].entries || (pages[i].hasNext && Ahead(NextCursor(pages[i]), e.field)))
  }

  lemma {:induction false} AheadUntilReturned(pages: seq<MapPage>, e: MapEntry, n: nat)
    requires n <= |pages| && forall i: nat :: i < n ==> Keeps(pages, e, i)
    ensures (exists i :: 0 <= i < n && e in pages[i].entries) ||
            (Ahead(CursorAt(pages, n), e.field) && (n > 0 ==> pages[n - 1].hasNext))
    decreases n
  {
    if n > 0 {
      AheadUntilReturned(pages, e, n - 1);
      assert Keeps(pages, e, n - 1);
    }
  }

  lemma PageKeeps(m: MapScan, pages: seq<MapPage>, e: MapEntry, i: nat)
    requires m.Valid() && m.HeldByAll(e) && PageFollows(m, pages, i)
    ensures Keeps(pages, e, i)
  {
    var cursor := CursorAt(pages, i);
    if Ahead(cursor, e.field) {
      AnswerIsMajority(m.Request(cursor), m.replicas, None, m.Replies(cursor), Ok(PageOutput(pages[i])));
      HoldersReport(m, cursor, e);
      OrderedEntryNotSkipped(m.replicas, m.Replies(cursor), pages[i], e);
    }
  }

  /**
   Following the cursors until a page announces no more returns every entry that
   all replicas hold alike, however their other entries cut the pages.
   */
  lemma CommonEntriesAreReturned(m: MapScan, pages: seq<MapPage>, e: MapEntry)
    requires m.Valid() && m.HeldByAll(e) && pages != [] && !pages[|pages| - 1].hasNext
    requires forall i: nat :: i < |pages| ==> PageFollows(m, pages, i)
    ensures exists i :: 0 <= i < |pages| && e in pages[i].entries
  {
    forall i: nat | i < |pages| ensures Keeps(pages, e, i) {
      assert PageFollows(m, pages, i);
      PageKeeps(m, pages, e, i);
    }
    AheadUntilReturned(pages, e, |pages|);
  }

  // ---------------------------------------------------------------------
  // The end of a scan
  // ---------------------------------------------------------------------

  ghost predicate IsRun(m: MapScan, pages: seq<MapPage>) {
    m.Valid() && forall i: nat :: i < |pages| ==> PageFollows(m, pages, i)
  }

  /** Fields that some replica has behind the cursor. */
  ghost function Left(m: MapScan, cursor: Option<Field>): set<Field> {
    set o, r | o in m.stores && r in Scan.Fields(m.stores[o], m.key, m.now) && Ahead(cursor, r.field) :: r.field
  }

  lemma ReportedIsLeft(m: MapScan, cursor: Option<Field>, o: Operator, e: MapEntry)
    requires m.Valid() && o in m.stores && e in m.PageAt(o, cursor).entries
    ensures e.field in Left(m, cursor)
  {
    RestIsLive(m.stores[o], m.key, cursor, m.now);
    var rest, entries := Scan.Rest(m.stores[o], m.key, cursor, m.now), m.PageAt(o, cursor).entries;
    var i :| 0 <= i < |entries| && entries[i] == e;
    var r := rest[i];
    assert r in rest && r.field == e.field;
    if cursor.Some? {
      NextPageStarts(m.stores[o], m.key, cursor.value, m.now, r);
    }
  }

  /** The entries of a page are fields that were left. */
  lemma ReturnedWasLeft(m: MapScan, pages: seq<MapPage>, i: nat, e: MapEntry)
    requires m.Valid() && PageFollows(m, pages, i) && e in pages[i].entries
    ensures e.field in Left(m, CursorAt(pages, i))
  {
    var cursor := CursorAt(pages, i);
    AnswerIsMajority(m.Request(cursor), m.replicas, None, m.Replies(cursor), Ok(PageOutput(pages[i])));
    var reporters := Reconciliation.Reporters(m.replicas, m.Replies(cursor), e);
    assert reporters != {};
    var o :| o in reporters;
    ReportedIsLeft(m, cursor, o, e);
  }

  lemma AheadOfBoth(cursor: Option<Field>, next: Field, field: Field)
    requires Ahead(cursor, next) && StoredBefore(next, field)
    ensures Ahead(cursor, field)
  {
    if cursor.Some? {
      LessTransitive(Keys.Serialize(cursor.value), Keys.Serialize(next), Keys.Serialize(field));
    }
  }

  lemma ProperSubsetSize<T>(a: set<T>, b: set<T>)
    requires a < b
    ensures |a| < |b|
  {
    assert b == a + (b - a);
  }

  /** Going on from a field that was left leaves fewer. */
  lemma LeavesFewer(m: MapScan, cursor: Option<Field>, next: Field)
    requires next in Left(m, cursor)
    ensures Ahead(cursor, next) && |Left(m, Some(next))| < |Left(m, cursor)|
  {
    forall field | field in Left(m, Some(next)) ensures field in Left(m, cursor) && field != next {
      var o, r :| && o in m.stores && r in Scan.Fields(m.stores[o], m.key, m.now)
                  && Ahead(Some(next), r.field) && r.field == field;
      AheadOfBoth(cursor, next, field);
      LessIrreflexive(Keys.Serialize(next));
    }
    ProperSubsetSize(Left(m, Some(next)), Left(m, cursor));
  }

  lemma CursorEntry(page: MapPage) returns (e: MapEntry)
    requires NextCursor(page).Some?
    ensures e in page.entries && NextCursor(page) == Some(e.field)
  {
    e := page.entries[|page.entries| - 1];
  }

  lemma CursorWasLeft(m: MapScan, pages: seq<MapPage>, i: nat)
    requires m.Valid() && PageFollows(m, pages, i) && CursorAt(pages, i + 1).Some?
    ensures CursorAt(pages, i + 1).value in Left(m, CursorAt(pages, i))
  {
    var e := CursorEntry(pages[i]);
    ReturnedWasLeft(m, pages, i, e);
  }

  /** Every cursor is stored behind the one before it, and leaves fewer fields. */
  lemma CursorAdvances(m: MapScan, pages: seq<MapPage>, i: nat)
    requires m.Valid() && PageFollows(m, pages, i) && CursorAt(pages, i + 1).Some?
    ensures Ahead(CursorAt(pages, i), CursorAt(pages, i + 1).value)
    ensures |Left(m, CursorAt(pages, i + 1))| < |Left(m, CursorAt(pages, i))|
  {
    CursorWasLeft(m, pages, i);
    LeavesFewer(m, CursorAt(pages, i), CursorAt(pages, i + 1).value);
    assert CursorAt(pages, i + 1) == Some(CursorAt(pages, i + 1).value);
  }

  lemma {:induction false} LeftShrinks(m: MapScan, pages: seq<MapPage>, n: nat)
    requires IsRun(m, pages) && n <= |pages| && (n > 0 ==> CursorAt(pages, n).Some?)
    ensures |Left(m, CursorAt(pages, n))| + n <= |Left(m, None)|
    decreases n
  {
    if n > 0 {
      assert PageFollows(m, pages, n - 1);
      LeftShrinks(m, pages, n - 1);
      CursorAdvances(m, pages, n - 1);
    }
  }

  /** Following cursors ends: a scan has at most one page more than there are fields. */
  lemma FollowingEnds(m: MapScan, pages: seq<MapPage>)
    requires IsRun(m, pages)
    ensures |pages| <= |Left(m, None)| + 1
  {
    if pages != [] {
      assert PageFollows(m, pages, |pages| - 1);
      LeftShrinks(m, pages, |pages| - 1);
    }
  }

  /** The scan ended although more was announced, because no entry had a majority. */
  ghost predicate DeadEnd(m: MapScan, cursor: Option<Field>, page: MapPage)
    requires forall o :: o in m.replicas ==> o in m.Replies(cursor)
  {
    && page == MapPage([], true)
    && |Reconciliation.Supporters(m.replicas, m.Replies(cursor), Reconciliation.HasNext())| >= MAJORITY
    && forall e :: |Reconciliation.Reporters(m.replicas, m.Replies(cursor), e)| < MAJORITY
  }

  ghost predicate Returned(pages: seq<MapPage>, e: MapEntry) {
    exists i :: 0 <= i < |pages| && e in pages[i].entries
  }

  /** A scan without a cursor to go on from has returned every common entry, or is in a dead end. */
  lemma EndOfScan(m: MapScan, pages: seq<MapPage>)
    requires IsRun(m, pages) && pages != [] && NextCursor(pages[|pages| - 1]) == None
    ensures
      var last, cursor := |pages| - 1, CursorAt(pages, |pages| - 1);
      && PageFollows(m, pages, last)
      && if pages[last].hasNext then DeadEnd(m, cursor, pages[last])
         else forall e :: m.HeldByAll(e) ==> Returned(pages, e)
  {
    var page, cursor := pages[|pages| - 1], CursorAt(pages, |pages| - 1);
    assert PageFollows(m, pages, |pages| - 1);
    if page.hasNext {
      EmptyPageEndsPaging(m.Request(cursor), m.replicas, None, m.Replies(cursor), Ok(PageOutput(page)));
    } else {
      forall e | m.HeldByAll(e) ensures Returned(pages, e) {
        CommonEntriesAreReturned(m, pages, e);
      }
    }
  }

  // ---------------------------------------------------------------------
  // Every scan can be followed to its end
  // ---------------------------------------------------------------------

  lemma {:induction false} SortedEntries(s: set<MapEntry>) returns (entries: seq<MapEntry>)
    ensures Reconciliation.Ascending(entries) && Reconciliation.NoRepeats(entries)
    ensures forall e :: e in entries <==> e in s
    decreases s
  {
    if s == {} {
      entries := [];
    } else {
      var e :| e in s;
      var others := SortedEntries(s - {e});
      entries := Reconciliation.Insert(others, e);
    }
  }

  /** What the majority reports, in raw order. */
  lemma MajorityPage(replicas: seq<Operator>, replies: map<Operator, Response>) returns (page: MapPage)
    requires AllPages(replicas, replies)
    ensures Reconciliation.Ascending(page.entries) && Reconciliation.NoRepeats(page.entries)
    ensures IsMajorityOf(page, replicas, replies)
  {
    var s := set o, e | o in replicas && e in replies[o].value.page.entries
                        && |Reconciliation.Reporters(replicas, replies, e)| >= MAJORITY :: e;
    var entries := SortedEntries(s);
    page := MapPage(entries, |Reconciliation.Supporters(replicas, replies, Reconciliation.HasNext())| >= MAJORITY);
    forall e ensures e in entries <==> |Reconciliation.Reporters(replicas, replies, e)| >= MAJORITY {
      var reporters := Reconciliation.Reporters(replicas, replies, e);
      if |reporters| >= MAJORITY {
        assert reporters != {};
        var o :| o in reporters;
        assert o in replicas && e in replies[o].value.page.entries;
      }
    }
  }

  /** Replicas that reply with pages always give an answer. */
  lemma AnswerExists(operation: Operation, replicas: seq<Operator>, replies: map<Operator, Response>)
    returns (page: MapPage)
    requires operation.HScan? && IsReplicaSet(replicas) && AllPages(replicas, replies)
    requires replies.Keys == Members(replicas)
    ensures Coordinator.IsAnswer(operation, replicas, None, replies, Ok(PageOutput(page)))
  {
    if o :| o in replies && Quorums.AgreedByAll(replicas, None, replies, replies[o]) {
      assert o in Members(replicas);
      page := replies[o].value.page;
    } else {
      page := MajorityPage(replicas, replies);
      MajorityIsAnswer(operation, replicas, None, replies, page);
    }
  }

  lemma NextPageExists(m: MapScan, pages: seq<MapPage>) returns (page: MapPage)
    requires IsRun(m, pages) && (pages != [] ==> CursorAt(pages, |pages|).Some?)
    ensures IsRun(m, pages + [page])
  {
    var cursor := CursorAt(pages, |pages|);
    RepliesArePages(m, cursor);
    page := AnswerExists(m.Request(cursor), m.replicas, m.Replies(cursor));
    forall i: nat | i < |pages| + 1 ensures PageFollows(m, pages + [page], i) {
      assert CursorAt(pages + [page], i) == CursorAt(pages, i);
      if i < |pages| {
        assert PageFollows(m, pages, i);
      }
    }
  }

  /** Any scan, however far it has come, goes on to a page without a cursor. */
  lemma {:induction false} ScanCanBeFinished(m: MapScan, pages: seq<MapPage>) returns (all: seq<MapPage>)
    requires IsRun(m, pages)
    ensures IsRun(m, all) && pages <= all && all != [] && NextCursor(all[|all| - 1]) == None
    decreases |Left(m, None)| + 1 - |pages|
  {
    FollowingEnds(m, pages);
    if pages != [] && NextCursor(pages[|pages| - 1]) == None {
      all := pages;
    } else {
      var page := NextPageExists(m, pages);
      FollowingEnds(m, pages + [page]);
      all := ScanCanBeFinished(m, pages + [page]);
    }
  }
}
