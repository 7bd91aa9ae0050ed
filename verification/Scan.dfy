/** Reading the fields of a map: prefix iteration, pages and cursors, cardinality. */
module Scan {
  import opened Wrappers
  import opened Bytes
  import opened Filters
  import opened Context
  import opened Keys

  /** An entry of the map column, with the map key and the field its bytes decode to. */
  datatype Row = Row(key: GenericKey, field: seq<byte>, bytes: seq<byte>, ctx: DataContext)

  predicate Decodes(r: Row) {
    |r.key.data| < U32 && r.bytes == ExtKey(r.key, r.field)
  }

  predicate Ordered(rows: seq<Row>) {
    forall i, j :: 0 <= i < j < |rows| ==> Less(rows[i].bytes, rows[j].bytes)
  }

  /** The map column as an iterator sees it: by key, without repetition. */
  predicate IsMapColumn(rows: seq<Row>) {
    Ordered(rows) && forall r :: r in rows ==> Decodes(r)
  }

  function Own(rows: seq<Row>, key: GenericKey): seq<Row> {
    Filter(rows, (r: Row) => r.key == key)
  }

  /** Rows a reader sees: neither expired nor without payload. */
  predicate IsLive(ctx: DataContext, now: Secs) {
    ctx.payload.Some? && now < ctx.expires
  }

  function Live(rows: seq<Row>, now: Secs): seq<Row> {
    Filter(rows, (r: Row) => r.ctx.IntoPayload(now).Some?)
  }

  /** Rows stored strictly past a key. */
  function After(rows: seq<Row>, seek: seq<byte>): seq<Row> {
    Filter(rows, (r: Row) => Less(seek, r.bytes))
  }

  lemma {:induction false} FilterKeepsOrder(rows: seq<Row>, keep: Row -> bool)
    requires Ordered(rows)
    ensures Ordered(Filter(rows, keep))
  {
    if rows != [] {
      FilterKeepsOrder(rows[1..], keep);
      forall r | r in Filter(rows[1..], keep) ensures Less(rows[0].bytes, r.bytes) {
        assert r in rows[1..];
      }
    }
  }

  // ---------------------------------------------------------------------
  // RocksDB prefix iteration
  // ---------------------------------------------------------------------

  function DropBelow(rows: seq<Row>, seek: seq<byte>): seq<Row> {
    if rows != [] && Less(rows[0].bytes, seek) then DropBelow(rows[1..], seek) else rows
  }

  function TakeWhilePrefix(rows: seq<Row>, prefix: seq<byte>): seq<Row> {
    if rows != [] && DynamicPrefix(rows[0].bytes) == prefix
    then [rows[0]] + TakeWhilePrefix(rows[1..], prefix)
    else []
  }

  /** Rows from the seek key on, for as long as they share its prefix. */
  function PrefixIterator(rows: seq<Row>, seek: seq<byte>): seq<Row> {
    TakeWhilePrefix(DropBelow(rows, seek), DynamicPrefix(seek))
  }

  /** A string past one with the prefix, and without it, is past all of them. */
  lemma {:induction false} PastPrefix(p: seq<byte>, h: seq<byte>, y: seq<byte>, z: seq<byte>)
    requires !(p <= h) && LessEq(p + z, h)
    ensures Less(p + y, h)
  {
    if h[0] == p[0] {
      assert (p + z)[1..] == p[1..] + z && (p + y)[1..] == p[1..] + y;
      TailNotPrefix(p, h);
      PastPrefix(p[1..], h[1..], y, z);
    }
  }

  lemma TailNotPrefix(p: seq<byte>, h: seq<byte>)
    requires p != [] && h != [] && p[0] == h[0] && !(p <= h)
    ensures !(p[1..] <= h[1..])
  {
  }

  /** Which rows belong to `key` shows in their bytes: they start with `p`. */
  predicate Marks(p: seq<byte>, key: GenericKey, rows: seq<Row>) {
    forall r :: r in rows ==>
      && (r.key == key <==> p <= r.bytes)
      && (r.key == key <==> DynamicPrefix(r.bytes) == p)
  }

  lemma KeysMark(rows: seq<Row>, key: GenericKey)
    requires |key.data| < U32 && forall r :: r in rows ==> Decodes(r)
    ensures Marks(ToBytes(key), key, rows)
  {
    var p := ToBytes(key);
    forall r | r in rows
      ensures r.key == key <==> p <= r.bytes
      ensures r.key == key <==> DynamicPrefix(r.bytes) == p
    {
      ExtKeyParts(r.key, r.field);
      if p <= r.bytes {
        assert ToBytes(r.key) + Serialize(r.field) == p + r.bytes[|p|..];
        PrefixFree(r.key, key, Serialize(r.field), r.bytes[|p|..]);
      }
      assert DynamicPrefix(r.bytes) == p ==> p <= r.bytes;
    }
  }

  lemma AllAtLeast(rows: seq<Row>, seek: seq<byte>)
    requires Ordered(rows) && rows != [] && !Less(rows[0].bytes, seek)
    ensures forall r :: r in rows ==> LessEq(seek, r.bytes)
  {
    LessTotal(seek, rows[0].bytes);
    forall r | r in rows ensures LessEq(seek, r.bytes) {
      if r != rows[0] && seek != rows[0].bytes {
        LessTransitive(seek, rows[0].bytes, r.bytes);
      }
    }
  }

  lemma {:induction false} PrefixRun(rows: seq<Row>, p: seq<byte>, key: GenericKey, z: seq<byte>)
    requires Ordered(rows) && Marks(p, key, rows)
    requires forall r :: r in rows ==> LessEq(p + z, r.bytes)
    ensures TakeWhilePrefix(rows, p) == Own(rows, key)
  {
    if rows != [] {
      var head, tail := rows[0], rows[1..];
      if head.key == key {
        PrefixRun(tail, p, key, z);
      } else {
        forall r | r in tail ensures r.key != key {
          if p <= r.bytes {
            assert r.bytes == p + r.bytes[|p|..];
            PastPrefix(p, head.bytes, r.bytes[|p|..], z);
            NotLess(head.bytes, r.bytes);
          }
        }
        FilterNone(rows, (r: Row) => r.key == key);
      }
    }
  }

  /** Iterating from a key or one of its fields visits that key's rows and no others. */
  lemma {:induction false} IterationStaysInKey(rows: seq<Row>, p: seq<byte>, key: GenericKey, z: seq<byte>)
    requires Ordered(rows) && Marks(p, key, rows)
    ensures TakeWhilePrefix(DropBelow(rows, p + z), p) == DropBelow(Own(rows, key), p + z)
  {
    var seek, own := p + z, Own(rows, key);
    if rows != [] {
      if Less(rows[0].bytes, seek) {
        IterationStaysInKey(rows[1..], p, key, z);
        assert own == if rows[0].key == key then [rows[0]] + Own(rows[1..], key) else Own(rows[1..], key);
        assert rows[0].key == key ==> own[1..] == Own(rows[1..], key);
      } else {
        AllAtLeast(rows, seek);
        PrefixRun(rows, p, key, z);
        assert DropBelow(own, seek) == own by {
          if own != [] {
            assert own[0] in rows;
            NotLess(own[0].bytes, seek);
          }
        }
      }
    }
  }

  function SkipCursor(rows: seq<Row>, cursor: seq<byte>): seq<Row> {
    if rows != [] && rows[0].field == cursor then rows[1..] else rows
  }

  /** Seeking to a cursor and skipping it, if still there, continues right after it. */
  lemma {:induction false} SeekContinues(own: seq<Row>, seek: seq<byte>, cursor: seq<byte>, now: Secs)
    requires Ordered(own) && forall r :: r in own ==> (r.field == cursor <==> r.bytes == seek)
    ensures SkipCursor(Live(DropBelow(own, seek), now), cursor) == After(Live(own, now), seek)
  {
    if own != [] {
      var head, tail := own[0], own[1..];
      assert Live(own, now) == (if head.ctx.IntoPayload(now).Some? then [head] else []) + Live(tail, now);
      if Less(head.bytes, seek) {
        SeekContinues(tail, seek, cursor, now);
        NotLess(seek, head.bytes);
        assert Live(own, now) == Live(tail, now) || Live(own, now)[1..] == Live(tail, now);
      } else {
        AllAtLeast(own, seek);
        forall r | r in tail ensures Less(seek, r.bytes) && r.field != cursor {
          assert LessEq(seek, head.bytes) && Less(head.bytes, r.bytes);
          if seek != head.bytes {
            LessTransitive(seek, head.bytes, r.bytes);
          }
          LessIrreflexive(seek);
        }
        LessIrreflexive(seek);
        FilterAll(Live(tail, now), (r: Row) => Less(seek, r.bytes));
        assert Live(own, now) == Live(tail, now) || Live(own, now)[1..] == Live(tail, now);
      }
    }
  }

  // ---------------------------------------------------------------------
  // Pages
  // ---------------------------------------------------------------------

  datatype Page = Page(items: seq<Row>, hasNext: bool)

  /** Every live row of a map, in stored order. */
  function Fields(rows: seq<Row>, key: GenericKey, now: Secs): seq<Row> {
    Live(Own(rows, key), now)
  }

  function Rest(rows: seq<Row>, key: GenericKey, cursor: Option<seq<byte>>, now: Secs): seq<Row> {
    var fields := Fields(rows, key, now);
    if cursor.None? then fields else After(fields, ExtKey(key, cursor.value))
  }

  /** A page asked for with size 0 still carries one record. */
  function PageSize(count: nat): nat {
    if count == 0 then 1 else count
  }

  function PageOf(rest: seq<Row>, count: nat): Page {
    if |rest| <= PageSize(count) then Page(rest, false) else Page(rest[..PageSize(count)], true)
  }

  lemma NothingBelowKey(own: seq<Row>, key: GenericKey)
    requires forall r :: r in own ==> Decodes(r) && r.key == key
    ensures DropBelow(own, ToBytes(key)) == own
  {
    if own != [] {
      LessSamePrefix(ToBytes(key), Serialize(own[0].field), []);
      assert ToBytes(key) + [] == ToBytes(key);
    }
  }

  lemma FieldsNameRows(own: seq<Row>, key: GenericKey, cursor: seq<byte>)
    requires forall r :: r in own ==> Decodes(r) && r.key == key
    ensures forall r :: r in own ==> (r.field == cursor <==> r.bytes == ExtKey(key, cursor))
  {
    forall r | r in own && r.bytes == ExtKey(key, cursor) ensures r.field == cursor {
      ExtKeyParts(key, cursor);
      ExtKeyParts(key, r.field);
      FieldRoundTrip(cursor);
      FieldRoundTrip(r.field);
    }
  }

  /** The live rows an iterator yields when positioned for a page. */
  method LiveFrom(rows: seq<Row>, key: GenericKey, cursor: Option<seq<byte>>, now: Secs) returns (iter: seq<Row>)
    requires IsMapColumn(rows) && |key.data| < U32
    ensures (if cursor.Some? then SkipCursor(iter, cursor.value) else iter) == Rest(rows, key, cursor, now)
  {
    KeysMark(rows, key);
    FilterKeepsOrder(rows, (r: Row) => r.key == key);
    if cursor.Some? {
      var seek := ExtKeyFromSlice(key, Serialize(cursor.value));
      ExtKeyParts(key, cursor.value);
      IterationStaysInKey(rows, ToBytes(key), key, Serialize(cursor.value));
      FieldsNameRows(Own(rows, key), key, cursor.value);
      SeekContinues(Own(rows, key), seek, cursor.value, now);
      iter := Live(PrefixIterator(rows, seek), now);
    } else {
      ExtKeyParts(key, []);
      IterationStaysInKey(rows, ToBytes(key), key, []);
      assert ToBytes(key) + [] == ToBytes(key);
      NothingBelowKey(Own(rows, key), key);
      iter := Live(PrefixIterator(rows, ToBytes(key)), now);
    }
  }

  /** Collects a page from a positioned iterator, peeking one record ahead. */
  method TakePage(iter: seq<Row>, from: nat, count: nat) returns (page: Page)
    requires from <= |iter|
    ensures page == PageOf(iter[from..], count)
  {
    var items, hasNext, next := [], false, from;
    while next < |iter|
      invariant from <= next <= |iter|
      invariant items == iter[from..next] && |items| < PageSize(count)
    {
      items := items + [iter[next]];
      next := next + 1;
      if |items| >= count {
        hasNext := next < |iter|;
        break;
      }
    }
    assert items == iter[from..][..|items|];
    return Page(items, hasNext);
  }

  lemma {:induction false} OrderedSize(rows: seq<Row>)
    requires Ordered(rows)
    ensures |set r | r in rows| == |rows|
  {
    if rows != [] {
      OrderedSize(rows[1..]);
      LessIrreflexive(rows[0].bytes);
      assert (set r | r in rows) == {rows[0]} + set r | r in rows[1..];
    }
  }

  lemma FieldsCounted(rows: seq<Row>, key: GenericKey, now: Secs)
    requires IsMapColumn(rows)
    ensures |Fields(rows, key, now)| == |set r | r in rows && r.key == key && IsLive(r.ctx, now)|
  {
    FieldsOrdered(rows, key, now);
    OrderedSize(Fields(rows, key, now));
    assert (set r | r in Fields(rows, key, now)) == set r | r in rows && r.key == key && IsLive(r.ctx, now);
  }

  /** What a row must be to be returned by a page behind a cursor. */
  predicate Returnable(r: Row, key: GenericKey, cursor: Option<seq<byte>>, now: Secs) {
    && r.key == key && IsLive(r.ctx, now)
    && (cursor.Some? ==> Less(ExtKey(key, cursor.value), r.bytes))
  }

  lemma RestExact(rows: seq<Row>, key: GenericKey, cursor: Option<seq<byte>>, now: Secs)
    requires IsMapColumn(rows)
    ensures Ordered(Rest(rows, key, cursor, now))
    ensures forall r :: r in Rest(rows, key, cursor, now) <==> r in rows && Returnable(r, key, cursor, now)
  {
    FieldsOrdered(rows, key, now);
    if cursor.Some? {
      FilterKeepsOrder(Fields(rows, key, now), (r: Row) => Less(ExtKey(key, cursor.value), r.bytes));
    }
  }

  lemma LeftOut(rest: seq<Row>, n: nat)
    requires Ordered(rest) && n < |rest|
    ensures rest[n] !in rest[..n]
    ensures forall r, p :: r in rest && r !in rest[..n] && p in rest[..n] ==> Less(p.bytes, r.bytes)
  {
    forall p | p in rest[..n] ensures Less(p.bytes, rest[n].bytes) {
      var i :| 0 <= i < n && rest[i] == p;
    }
    LessIrreflexive(rest[n].bytes);
    forall r, p | r in rest && r !in rest[..n] && p in rest[..n] ensures Less(p.bytes, r.bytes) {
      var i, j :| 0 <= i < |rest| && rest[i] == r && 0 <= j < n && rest[j] == p;
      assert i >= n;
    }
  }

  /**
   A page of what is left: in order, as many as asked for if more follow and all of
   them otherwise, and nothing stored behind a row that is left out.
   */
  predicate IsPageOf(page: Page, rest: seq<Row>, count: nat) {
    && Ordered(page.items) && (forall r :: r in page.items ==> r in rest)
    && (page.hasNext <==> exists r :: r in rest && r !in page.items)
    && (page.hasNext ==> |page.items| == if count == 0 then 1 else count)
    && (forall r, p :: r in rest && r !in page.items && p in page.items ==> Less(p.bytes, r.bytes))
  }

  lemma PageOfExact(rest: seq<Row>, count: nat)
    requires Ordered(rest)
    ensures IsPageOf(PageOf(rest, count), rest, count)
  {
    var page := PageOf(rest, count);
    if page.hasNext {
      LeftOut(rest, |page.items|);
      assert rest[|page.items|] in rest;
    }
  }

  /** One page: the first live rows of the map past the cursor, and whether more follow. */
  method Scan(rows: seq<Row>, key: GenericKey, count: nat, cursor: Option<seq<byte>>, now: Secs) returns (page: Page)
    requires IsMapColumn(rows) && |key.data| < U32
    ensures page == PageOf(Rest(rows, key, cursor, now), count)
    ensures IsPageOf(page, Rest(rows, key, cursor, now), count)
    ensures forall r :: r in Rest(rows, key, cursor, now) <==> r in rows && Returnable(r, key, cursor, now)
  {
    RestExact(rows, key, cursor, now);
    PageOfExact(Rest(rows, key, cursor, now), count);
    var iter := LiveFrom(rows, key, cursor, now);
    var sameCursor := cursor.Some? && |iter| > 0 && iter[0].field == cursor.value;
    page := TakePage(iter, if sameCursor then 1 else 0, count);
  }

  /** The number of live fields of a map. */
  method Hcard(rows: seq<Row>, key: GenericKey, now: Secs) returns (count: nat)
    requires IsMapColumn(rows) && |key.data| < U32
    ensures count == |Fields(rows, key, now)| == |set r | r in rows && r.key == key && IsLive(r.ctx, now)|
  {
    KeysMark(rows, key);
    ExtKeyParts(key, []);
    IterationStaysInKey(rows, ToBytes(key), key, []);
    assert ToBytes(key) + [] == ToBytes(key);
    NothingBelowKey(Own(rows, key), key);
    FieldsCounted(rows, key, now);
    count := CountLive(PrefixIterator(rows, ToBytes(key)), now);
  }

  method CountLive(iter: seq<Row>, now: Secs) returns (count: nat)
    ensures count == |Live(iter, now)|
  {
    count := 0;
    for i := 0 to |iter|
      invariant count + |Live(iter[i..], now)| == |Live(iter, now)|
    {
      assert iter[i..][1..] == iter[i + 1..];
      if iter[i].ctx.IntoPayload(now).Some? {
        count := count + 1;
      }
    }
  }

  // ---------------------------------------------------------------------
  // Following cursors
  // ---------------------------------------------------------------------

  /** The cursor of the next page: the last field of this one. */
  function NextPageCursor(page: Page): Option<seq<byte>> {
    if page.hasNext && page.items != [] then Some(page.items[|page.items| - 1].field) else None
  }

  lemma {:induction false} AfterElement(rows: seq<Row>, i: nat)
    requires Ordered(rows) && i < |rows|
    ensures After(rows, rows[i].bytes) == rows[i + 1..]
  {
    var seek, rest := rows[i].bytes, rows[1..];
    if i == 0 {
      LessIrreflexive(seek);
      forall r | r in rest ensures Less(seek, r.bytes) {
        var k :| 0 <= k < |rest| && rest[k] == r;
        assert r == rows[k + 1];
      }
      FilterAll(rest, (r: Row) => Less(seek, r.bytes));
    } else {
      assert Less(rows[0].bytes, seek) && rest[i - 1] == rows[i];
      NotLess(seek, rows[0].bytes);
      AfterElement(rest, i - 1);
      assert rest[i..] == rows[i + 1..];
    }
  }

  lemma {:induction false} AfterIsSuffix(rows: seq<Row>, seek: seq<byte>) returns (from: nat)
    requires Ordered(rows)
    ensures from <= |rows| && After(rows, seek) == rows[from..]
    decreases rows
  {
    if rows == [] {
      from := 0;
    } else if Less(seek, rows[0].bytes) {
      forall r | r in rows ensures Less(seek, r.bytes) {
        if r != rows[0] {
          LessTransitive(seek, rows[0].bytes, r.bytes);
        }
      }
      FilterAll(rows, (r: Row) => Less(seek, r.bytes));
      from := 0;
    } else {
      from := AfterIsSuffix(rows[1..], seek);
      from := from + 1;
    }
  }

  lemma FieldsOrdered(rows: seq<Row>, key: GenericKey, now: Secs)
    requires IsMapColumn(rows)
    ensures Ordered(Fields(rows, key, now))
    ensures forall r :: r in Fields(rows, key, now) ==> Decodes(r) && r.key == key
  {
    FilterKeepsOrder(rows, (r: Row) => r.key == key);
    FilterKeepsOrder(Own(rows, key), (r: Row) => r.ctx.IntoPayload(now).Some?);
  }

  /** Turning a page moves strictly forward and loses nothing. */
  lemma NextPageContinues(rows: seq<Row>, key: GenericKey, count: nat, cursor: Option<seq<byte>>, now: Secs)
    requires IsMapColumn(rows)
    ensures
      var rest := Rest(rows, key, cursor, now);
      var page := PageOf(rest, count);
      && (NextPageCursor(page).Some? <==> page.hasNext)
      && (page.hasNext ==>
            && |Rest(rows, key, NextPageCursor(page), now)| < |rest|
            && page.items + Rest(rows, key, NextPageCursor(page), now) == rest)
  {
    var from := RestIsSuffix(rows, key, cursor, now);
    FieldsOrdered(rows, key, now);
    PageTurns(Fields(rows, key, now), key, from, count);
  }

  lemma RestIsSuffix(rows: seq<Row>, key: GenericKey, cursor: Option<seq<byte>>, now: Secs) returns (from: nat)
    requires IsMapColumn(rows)
    ensures from <= |Fields(rows, key, now)| && Rest(rows, key, cursor, now) == Fields(rows, key, now)[from..]
  {
    from := 0;
    if cursor.Some? {
      FieldsOrdered(rows, key, now);
      from := AfterIsSuffix(Fields(rows, key, now), ExtKey(key, cursor.value));
    }
  }

  /** A page and the rows behind its last one are the rows it was taken from. */
  lemma PageCut(fields: seq<Row>, from: nat, count: nat, at: nat)
    requires from <= |fields| && at == from + PageSize(count) - 1 && at + 1 < |fields|
    ensures
      var page := PageOf(fields[from..], count);
      && page.hasNext && NextPageCursor(page) == Some(fields[at].field)
      && page.items + fields[at + 1..] == fields[from..]
  {
    var rest, size := fields[from..], PageSize(count);
    assert rest[size..] == fields[at + 1..] && rest[..size][size - 1] == fields[at];
  }

  lemma CursorOf(fields: seq<Row>, key: GenericKey, at: nat)
    requires at < |fields| && forall r :: r in fields ==> Decodes(r) && r.key == key
    ensures ExtKey(key, fields[at].field) == fields[at].bytes
  {
    assert fields[at] in fields;
  }

  lemma PageTurns(fields: seq<Row>, key: GenericKey, from: nat, count: nat)
    requires Ordered(fields) && from <= |fields|
    requires forall r :: r in fields ==> Decodes(r) && r.key == key
    ensures
      var page := PageOf(fields[from..], count);
      page.hasNext ==>
        && NextPageCursor(page).Some?
        && var next := After(fields, ExtKey(key, NextPageCursor(page).value));
           |next| < |fields| - from && page.items + next == fields[from..]
  {
    var at := from + PageSize(count) - 1;
    if at + 1 < |fields| {
      PageCut(fields, from, count, at);
      CursorOf(fields, key, at);
      AfterElement(fields, at);
    }
  }

  /** All rows obtained by following cursors until no page announces another. */
  function Follow(rows: seq<Row>, key: GenericKey, count: nat, cursor: Option<seq<byte>>, now: Secs): seq<Row>
    requires IsMapColumn(rows)
    decreases |Rest(rows, key, cursor, now)|
  {
    var page := PageOf(Rest(rows, key, cursor, now), count);
    NextPageContinues(rows, key, count, cursor, now);
    if page.hasNext then page.items + Follow(rows, key, count, NextPageCursor(page), now) else page.items
  }

  lemma {:induction false} FollowYieldsRest(rows: seq<Row>, key: GenericKey, count: nat, cursor: Option<seq<byte>>,
                                            now: Secs)
    requires IsMapColumn(rows)
    ensures Follow(rows, key, count, cursor, now) == Rest(rows, key, cursor, now)
    decreases |Rest(rows, key, cursor, now)|
  {
    var page := PageOf(Rest(rows, key, cursor, now), count);
    NextPageContinues(rows, key, count, cursor, now);
    if page.hasNext {
      FollowYieldsRest(rows, key, count, NextPageCursor(page), now);
    }
  }

  /**
   Whatever the page size, following cursors ends and returns every live field
   of the map exactly once, in stored order, and nothing of any other map.
   */
  lemma PagingIsComplete(rows: seq<Row>, key: GenericKey, count: nat, now: Secs)
    requires IsMapColumn(rows)
    ensures
      var all := Follow(rows, key, count, None, now);
      && |all| == |Fields(rows, key, now)|
      && Ordered(all)
      && (forall r :: r in all <==> r in rows && r.key == key && IsLive(r.ctx, now))
  {
    FollowYieldsRest(rows, key, count, None, now);
    FieldsOrdered(rows, key, now);
  }
}
