/**
 Last-writer-wins records: the merge operands a storage write turns into, the
 record context they are merged into, and the folds RocksDB runs over them.
 */
module Context {
  import opened Wrappers
  import opened Bytes

  type Value = seq<byte>

  /** Unix time in seconds and in microseconds. */
  type Secs = nat
  type Micros = nat

  /** How long a deletion mark stays in the database. */
  const LINGER_SECS: Secs := 24 * 60 * 60

  datatype Kind =
    | Set(value: Value, expiration: Secs)
    | SetVal(value: Value)
    | SetExp(expiration: Secs)
    | Del(expiration: Secs)

  datatype MergeOp = MergeOp(kind: Kind, timestamp: Micros) {
    /** Folds a later operand into this one, before any record is involved. */
    function Merge(input: MergeOp): MergeOp {
      if input.timestamp <= timestamp then
        this
      else
        var k :=
          match (kind, input.kind)
          case (_, Set(_, _)) => input.kind
          case (_, Del(_)) => input.kind
          case (SetVal(_), SetVal(_)) => input.kind
          case (SetExp(_), SetExp(_)) => input.kind
          case (Set(_, expiration), SetVal(value)) => Set(value, expiration)
          case (Set(value, _), SetExp(expiration)) => Set(value, expiration)
          case (SetVal(value), SetExp(expiration)) => Set(value, expiration)
          case (SetExp(expiration), SetVal(value)) => Set(value, expiration)
          case (Del(_), _) => kind;
        MergeOp(k, input.timestamp)
    }
  }

  /** The operand a deletion turns into on a replica whose clock shows `now`. */
  function Deletion(timestamp: Micros, now: Secs): MergeOp {
    MergeOp(Del(now + LINGER_SECS), timestamp)
  }

  datatype DataContext = DataContext(
    payload: Option<Value>,
    expires: Secs,
    updated: Option<Micros>,
    created: Micros)
  {
    function Version(): Micros {
      if updated.Some? then updated.value else created
    }

    predicate Expired(now: Secs) {
      expires <= now
    }

    function IntoPayload(now: Secs): Option<Value> {
      if Expired(now) then None else payload
    }

    /** Applies an operand to the stored record. */
    function Merge(op: MergeOp): DataContext {
      if op.timestamp <= Version() then
        this
      else
        var next :=
          match op.kind
          case Set(value, expiration) => this.(payload := Some(value), expires := expiration)
          case SetVal(value) => this.(payload := Some(value))
          case SetExp(expiration) => this.(expires := expiration)
          case Del(expiration) => this.(payload := None, expires := expiration);
        next.(updated := Some(op.timestamp))
    }

    /** The operand that re-creates this record elsewhere, as the importer writes it. */
    function ToMergeOp(now: Secs): MergeOp {
      match payload
      case Some(value) => MergeOp(Set(value, expires), Version())
      case None => Deletion(Version(), now)
    }
  }

  /** The context a record starts from when the key has no stored value. */
  const EMPTY: DataContext := DataContext(None, 0, None, 0)

  /** Operands applied to a record one by one, in arrival order. */
  function ApplyAll(ctx: DataContext, ops: seq<MergeOp>): DataContext
    decreases ops
  {
    if ops == [] then ctx else ApplyAll(ctx.Merge(ops[0]), ops[1..])
  }

  /** Operands folded into the first one, in arrival order. */
  function FoldAll(first: MergeOp, rest: seq<MergeOp>): MergeOp
    decreases rest
  {
    if rest == [] then first else FoldAll(first.Merge(rest[0]), rest[1..])
  }

  // ---------------------------------------------------------------------
  // The merge operator's loops over encoded operands.
  // An operand that fails to decode is `None`; both loops skip it.
  // ---------------------------------------------------------------------

  datatype MergeError = Undecodable

  function Decoded(input: seq<Option<MergeOp>>): (ops: seq<MergeOp>)
    ensures |ops| <= |input|
  {
    if input == [] then []
    else if input[0].Some? then [input[0].value] + Decoded(input[1..])
    else Decoded(input[1..])
  }

  lemma {:induction false} DecodedSnoc(input: seq<Option<MergeOp>>, last: Option<MergeOp>)
    ensures Decoded(input + [last]) == Decoded(input) + if last.Some? then [last.value] else []
  {
    if input == [] {
      assert input + [last] == [last];
    } else {
      assert (input + [last])[1..] == input[1..] + [last];
      DecodedSnoc(input[1..], last);
    }
  }

  lemma {:induction false} ApplyAllConcat(ctx: DataContext, a: seq<MergeOp>, b: seq<MergeOp>)
    ensures ApplyAll(ctx, a + b) == ApplyAll(ApplyAll(ctx, a), b)
    decreases a
  {
    if a == [] {
      assert a + b == b;
    } else {
      assert (a + b)[1..] == a[1..] + b;
      ApplyAllConcat(ctx.Merge(a[0]), a[1..], b);
    }
  }

  lemma {:induction false} FoldAllSnoc(first: MergeOp, rest: seq<MergeOp>, last: MergeOp)
    ensures FoldAll(first, rest + [last]) == FoldAll(first, rest).Merge(last)
    decreases rest
  {
    if rest == [] {
      assert rest + [last] == [last];
    } else {
      assert (rest + [last])[1..] == rest[1..] + [last];
      FoldAllSnoc(first.Merge(rest[0]), rest[1..], last);
    }
  }

  /** Folds operands with no record at hand; fails when no operand decodes. */
  method PartialMerge(input: seq<Option<MergeOp>>) returns (r: Result<MergeOp, MergeError>)
    ensures r == if Decoded(input) == [] then Err(Undecodable)
                 else Ok(FoldAll(Decoded(input)[0], Decoded(input)[1..]))
  {
    var i := 0;
    while i < |input| && input[i].None?
      invariant 0 <= i <= |input|
      invariant Decoded(input[..i]) == []
    {
      assert input[..i + 1] == input[..i] + [input[i]];
      DecodedSnoc(input[..i], input[i]);
      i := i + 1;
    }
    if i == |input| {
      assert input[..i] == input;
      return Err(Undecodable);
    }
    var output := input[i].value;
    assert input[..i + 1] == input[..i] + [input[i]];
    DecodedSnoc(input[..i], input[i]);
    i := i + 1;
    while i < |input|
      invariant 0 < i <= |input|
      invariant Decoded(input[..i]) != []
      invariant output == FoldAll(Decoded(input[..i])[0], Decoded(input[..i])[1..])
    {
      ghost var before := Decoded(input[..i]);
      assert input[..i + 1] == input[..i] + [input[i]];
      DecodedSnoc(input[..i], input[i]);
      if input[i].Some? {
        FoldAllSnoc(before[0], before[1..], input[i].value);
        assert Decoded(input[..i + 1])[1..] == before[1..] + [input[i].value];
        assert Decoded(input[..i + 1])[0] == before[0];
        output := output.Merge(input[i].value);
      } else {
        assert Decoded(input[..i + 1]) == before;
      }
      i := i + 1;
    }
    assert input[..i] == input;
    return Ok(output);
  }

  /**
   Applies operands to the stored record. `existing` is `None` when the key is
   absent and `Some(None)` when the stored bytes do not decode.
   */
  method FullMerge(existing: Option<Option<DataContext>>, input: seq<Option<MergeOp>>)
    returns (r: Result<DataContext, MergeError>)
    ensures r.Err? <==> existing == Some(None)
    ensures r.Ok? ==> r.value == ApplyAll(if existing.None? then EMPTY else existing.value.value, Decoded(input))
  {
    var output := EMPTY;
    match existing {
      case None =>
      case Some(None) => return Err(Undecodable);
      case Some(Some(ctx)) => output := ctx;
    }
    ghost var base := output;
    for i := 0 to |input|
      invariant output == ApplyAll(base, Decoded(input[..i]))
    {
      ghost var before := Decoded(input[..i]);
      assert input[..i + 1] == input[..i] + [input[i]];
      DecodedSnoc(input[..i], input[i]);
      if input[i].Some? {
        ApplyAllConcat(base, before, [input[i].value]);
        output := output.Merge(input[i].value);
      } else {
        assert before + [] == before;
      }
    }
    assert input[..|input|] == input;
    return Ok(output);
  }

  // ---------------------------------------------------------------------
  // Early folding
  // ---------------------------------------------------------------------

  /**
   Any way RocksDB may have combined operands so far: every partial merge folds
   the result of earlier ones, left operand first.
   */
  datatype Grouping = Single(op: MergeOp) | Folded(earlier: Grouping, later: Grouping) {
    function Operand(): MergeOp {
      match this
      case Single(op) => op
      case Folded(earlier, later) => earlier.Operand().Merge(later.Operand())
    }

    function Operands(): (ops: seq<MergeOp>)
      ensures ops != []
    {
      match this
      case Single(op) => [op]
      case Folded(earlier, later) => earlier.Operands() + later.Operands()
    }
  }

  /** The operands of a list of groups, in order, as they were written. */
  function Written(groups: seq<Grouping>): seq<MergeOp> {
    if groups == [] then [] else groups[0].Operands() + Written(groups[1..])
  }

  /** The operands a full merge sees once every group has been folded. */
  function Visible(groups: seq<Grouping>): seq<MergeOp> {
    seq(|groups|, i requires 0 <= i < |groups| => groups[i].Operand())
  }

  predicate IsWrite(op: MergeOp) {
    op.kind.Set? || op.kind.Del?
  }

  predicate AllWrites(ops: seq<MergeOp>) {
    forall op :: op in ops ==> IsWrite(op)
  }

  predicate NoSetVal(ops: seq<MergeOp>) {
    forall op :: op in ops ==> !op.kind.SetVal?
  }

  /**
   When folding `b` into `a` first gives `ctx` the same record as applying `a`
   and then `b`: decidable from the record and the two operands alone.
   */
  predicate FoldSafe(ctx: DataContext, a: MergeOp, b: MergeOp) {
    || b.timestamp <= a.timestamp
    || b.timestamp <= ctx.Version()
    || IsWrite(b)
    || (b.kind.SetVal? &&
        match a.kind
        case SetVal(_) => true
        case Set(_, expiration) => ctx.Version() < a.timestamp || expiration == ctx.expires
        case SetExp(expiration) => ctx.Version() < a.timestamp || expiration == ctx.expires
        case Del(_) => false)
    || (b.kind.SetExp? &&
        match a.kind
        case SetExp(_) => true
        case Set(value, _) => ctx.Version() < a.timestamp || ctx.payload == Some(value)
        case SetVal(value) => ctx.Version() < a.timestamp || ctx.payload == Some(value)
        case Del(expiration) =>
          && expiration == b.kind.expiration
          && (ctx.Version() < a.timestamp || ctx.payload == None))
  }

  lemma PairFoldExact(ctx: DataContext, a: MergeOp, b: MergeOp)
    ensures ctx.Merge(a.Merge(b)) == ctx.Merge(a).Merge(b) <==> FoldSafe(ctx, a, b)
  {
  }

  /** A stale `Set` folded with a fresh `SetExp` resurrects the stale value. */
  lemma StaleSetResurrected()
    ensures
      var ctx := DataContext(Some([7]), 100, Some(10), 0);
      var stale, later := MergeOp(Set([9], 50), 5), MergeOp(SetExp(200), 20);
      && ctx.Merge(stale).Merge(later).payload == Some([7])
      && ctx.Merge(stale.Merge(later)).payload == Some([9])
  {
  }

  lemma {:induction false} GroupFoldInvisible(ctx: DataContext, g: Grouping)
    requires AllWrites(g.Operands())
    ensures IsWrite(g.Operand())
    ensures ctx.Merge(g.Operand()) == ApplyAll(ctx, g.Operands())
    decreases g
  {
    match g
    case Single(op) =>
      assert g.Operands() == [op];
      assert [op][1..] == [];
    case Folded(earlier, later) =>
      GroupFoldInvisible(ctx, earlier);
      GroupFoldInvisible(ctx.Merge(earlier.Operand()), later);
      PairFoldExact(ctx, earlier.Operand(), later.Operand());
      ApplyAllConcat(ctx, earlier.Operands(), later.Operands());
  }

  /**
   For writes (`Set` and `Del`), a full merge gives the same record however
   operands were grouped and folded before it.
   */
  lemma {:induction false} EarlyFoldingInvisible(ctx: DataContext, groups: seq<Grouping>)
    requires AllWrites(Written(groups))
    ensures ApplyAll(ctx, Visible(groups)) == ApplyAll(ctx, Written(groups))
    decreases groups
  {
    if groups != [] {
      GroupFoldInvisible(ctx, groups[0]);
      ApplyAllConcat(ctx, groups[0].Operands(), Written(groups[1..]));
      EarlyFoldingInvisible(ctx.Merge(groups[0].Operand()), groups[1..]);
      assert Visible(groups)[1..] == Visible(groups[1..]);
    }
  }

  // ---------------------------------------------------------------------
  // Records up to the expiry of a payload-less context
  // ---------------------------------------------------------------------

  /** Forgets the expiry of a deletion mark, which each replica takes from its own clock. */
  function EraseOp(op: MergeOp): MergeOp {
    if op.kind.Del? then op.(kind := Del(0)) else op
  }

  function Erase(ctx: DataContext): DataContext {
    if ctx.payload.None? then ctx.(expires := 0) else ctx
  }

  function EraseOps(ops: seq<MergeOp>): seq<MergeOp> {
    seq(|ops|, i requires 0 <= i < |ops| => EraseOp(ops[i]))
  }

  /** Two records no reader can tell apart. */
  predicate SameRecord(a: DataContext, b: DataContext) {
    Erase(a) == Erase(b)
  }

  lemma SameRecordReadsAlike(a: DataContext, b: DataContext, now: Secs)
    requires SameRecord(a, b)
    ensures a.IntoPayload(now) == b.IntoPayload(now) && a.Version() == b.Version()
  {
  }

  /** Erased operands act alike on erased records. */
  lemma {:induction false} SameRecordApplyAll(a: DataContext, b: DataContext, ops: seq<MergeOp>, ops': seq<MergeOp>)
    requires SameRecord(a, b) && NoSetVal(ops) && EraseOps(ops) == EraseOps(ops')
    ensures SameRecord(ApplyAll(a, ops), ApplyAll(b, ops'))
    decreases ops
  {
    assert |ops| == |EraseOps(ops)| == |EraseOps(ops')| == |ops'|;
    if ops != [] {
      assert EraseOp(ops[0]) == EraseOps(ops)[0] == EraseOps(ops')[0] == EraseOp(ops'[0]);
      assert EraseOps(ops)[1..] == EraseOps(ops[1..]) && EraseOps(ops')[1..] == EraseOps(ops'[1..]);
      SameRecordApplyAll(a.Merge(ops[0]), b.Merge(ops'[0]), ops[1..], ops'[1..]);
    }
  }

  /** Timestamps that only grow, starting above `floor`. */
  predicate Rising(floor: Micros, ops: seq<MergeOp>) {
    && (forall i :: 0 <= i < |ops| ==> floor < ops[i].timestamp)
    && (forall i, j :: 0 <= i < j < |ops| ==> ops[i].timestamp < ops[j].timestamp)
  }

  lemma RisingSplit(floor: Micros, a: seq<MergeOp>, b: seq<MergeOp>)
    requires a != [] && NoSetVal(a + b) && Rising(floor, a + b)
    ensures NoSetVal(a) && NoSetVal(b)
    ensures Rising(floor, a) && Rising(a[|a| - 1].timestamp, b)
  {
    var ops := a + b;
    assert forall i :: 0 <= i < |a| ==> a[i] == ops[i];
    assert forall i :: 0 <= i < |b| ==> b[i] == ops[|a| + i];
  }

  lemma {:induction false} RisingGroupFold(ctx: DataContext, g: Grouping)
    requires NoSetVal(g.Operands()) && Rising(ctx.Version(), g.Operands())
    ensures !g.Operand().kind.SetVal?
    ensures g.Operand().timestamp == g.Operands()[|g.Operands()| - 1].timestamp
    ensures SameRecord(ctx.Merge(g.Operand()), ApplyAll(ctx, g.Operands()))
    decreases g
  {
    match g
    case Single(op) =>
      assert g.Operands() == [op];
      assert [op][1..] == [];
    case Folded(earlier, later) =>
      var a, b := earlier.Operands(), later.Operands();
      RisingSplit(ctx.Version(), a, b);
      RisingGroupFold(ctx, earlier);
      RisingGroupFold(ctx.Merge(earlier.Operand()), later);
      FoldedRecord(ctx, earlier.Operand(), later.Operand(), a, b);
  }

  lemma FoldedRecord(ctx: DataContext, x: MergeOp, y: MergeOp, a: seq<MergeOp>, b: seq<MergeOp>)
    requires ctx.Version() < x.timestamp < y.timestamp && !x.kind.SetVal? && !y.kind.SetVal? && NoSetVal(b)
    requires SameRecord(ctx.Merge(x), ApplyAll(ctx, a))
    requires SameRecord(ctx.Merge(x).Merge(y), ApplyAll(ctx.Merge(x), b))
    ensures SameRecord(ctx.Merge(x.Merge(y)), ApplyAll(ctx, a + b))
    ensures x.Merge(y).timestamp == y.timestamp && !x.Merge(y).kind.SetVal?
  {
    RisingPair(ctx, x, y);
    ApplyAllConcat(ctx, a, b);
    SameRecordApplyAll(ctx.Merge(x), ApplyAll(ctx, a), b, b);
  }

  lemma RisingPair(ctx: DataContext, a: MergeOp, b: MergeOp)
    requires ctx.Version() < a.timestamp < b.timestamp
    requires !a.kind.SetVal? && !b.kind.SetVal?
    ensures SameRecord(ctx.Merge(a.Merge(b)), ctx.Merge(a).Merge(b))
  {
  }

  /**
   With `SetExp` operands present, folding is still invisible to readers when
   every operand is newer than the record and than the operands before it.
   */
  lemma {:induction false} RisingFoldInvisible(ctx: DataContext, groups: seq<Grouping>)
    requires NoSetVal(Written(groups)) && Rising(ctx.Version(), Written(groups))
    ensures SameRecord(ApplyAll(ctx, Visible(groups)), ApplyAll(ctx, Written(groups)))
    decreases groups
  {
    if groups != [] {
      var a, b := groups[0].Operands(), Written(groups[1..]);
      RisingSplit(ctx.Version(), a, b);
      RisingGroupFold(ctx, groups[0]);
      var mid := ctx.Merge(groups[0].Operand());
      RisingFoldInvisible(mid, groups[1..]);
      ApplyAllConcat(ctx, a, b);
      SameRecordApplyAll(mid, ApplyAll(ctx, a), b, b);
      assert Visible(groups)[1..] == Visible(groups[1..]);
    }
  }

  // ---------------------------------------------------------------------
  // Convergence
  // ---------------------------------------------------------------------

  /** The record a write leaves behind when it wins over `base`. */
  function Winner(base: DataContext, op: MergeOp): DataContext
    requires IsWrite(op)
  {
    DataContext(if op.kind.Set? then Some(op.kind.value) else None,
                op.kind.expiration, Some(op.timestamp), base.created)
  }

  predicate IsLatest(op: MergeOp, ops: seq<MergeOp>) {
    op in ops && forall other :: other in ops ==> other.timestamp <= op.timestamp
  }

  /**
   What any arrival order, repetition and grouping must end in: the record
   itself when nothing is newer, and otherwise a newest write.
   */
  ghost predicate IsJoin(base: DataContext, ops: seq<MergeOp>, r: DataContext) {
    if forall op :: op in ops ==> op.timestamp <= base.Version() then
      r == base
    else
      exists op :: IsLatest(op, ops) && base.Version() < op.timestamp && IsWrite(op) && r == Winner(base, op)
  }

  lemma JoinStep(base: DataContext, head: MergeOp, tail: seq<MergeOp>, r: DataContext)
    requires IsWrite(head) && IsJoin(base.Merge(head), tail, r)
    ensures IsJoin(base, [head] + tail, r)
  {
  }

  lemma {:induction false} ApplyAllIsJoin(base: DataContext, ops: seq<MergeOp>)
    requires AllWrites(ops)
    ensures IsJoin(base, ops, ApplyAll(base, ops))
    decreases ops
  {
    if ops != [] {
      assert ops == [ops[0]] + ops[1..];
      ApplyAllIsJoin(base.Merge(ops[0]), ops[1..]);
      JoinStep(base, ops[0], ops[1..], ApplyAll(base, ops));
    }
  }

  /** One timestamp names one operand, up to the expiry of a deletion mark. */
  predicate Consistent(ops: seq<MergeOp>) {
    forall a, b :: a in ops && b in ops && a.timestamp == b.timestamp ==> EraseOp(a) == EraseOp(b)
  }

  predicate SameOperands(a: seq<MergeOp>, b: seq<MergeOp>) {
    && (forall op :: op in a ==> op in b)
    && (forall op :: op in b ==> op in a)
  }

  lemma Counterpart(op: MergeOp, a: seq<MergeOp>, b: seq<MergeOp>) returns (twin: MergeOp)
    requires op in a && SameOperands(EraseOps(a), EraseOps(b))
    ensures twin in b && EraseOp(twin) == EraseOp(op)
  {
    var i :| 0 <= i < |a| && a[i] == op;
    assert EraseOps(a)[i] in EraseOps(a);
    var j :| 0 <= j < |b| && EraseOps(b)[j] == EraseOp(op);
    twin := b[j];
  }

  lemma OrdersConverge(base: DataContext, a: seq<MergeOp>, b: seq<MergeOp>)
    requires AllWrites(a) && AllWrites(b)
    requires Consistent(a + b) && SameOperands(EraseOps(a), EraseOps(b))
    ensures SameRecord(ApplyAll(base, a), ApplyAll(base, b))
  {
    ApplyAllIsJoin(base, a);
    ApplyAllIsJoin(base, b);
    JoinsAgree(base, a, b, ApplyAll(base, a), ApplyAll(base, b));
  }

  lemma JoinsAgree(base: DataContext, a: seq<MergeOp>, b: seq<MergeOp>, r: DataContext, s: DataContext)
    requires Consistent(a + b) && SameOperands(EraseOps(a), EraseOps(b))
    requires IsJoin(base, a, r) && IsJoin(base, b, s)
    ensures SameRecord(r, s)
  {
    if x :| x in a && base.Version() < x.timestamp {
      var last :| IsLatest(last, a) && IsWrite(last) && r == Winner(base, last);
      var twin := Counterpart(last, a, b);
      assert twin in b && base.Version() < twin.timestamp;
      var last' :| IsLatest(last', b) && IsWrite(last') && s == Winner(base, last');
      var twin' := Counterpart(last', b, a);
      assert last in a + b && last' in a + b;
    } else {
      forall y | y in b ensures y.timestamp <= base.Version() {
        var twin := Counterpart(y, b, a);
      }
    }
  }

  /**
   Two replicas that start from the same record and receive the same writes, in
   any order, with repetitions and under any grouping, hold the same record:
   the one they started from, or the newest write.
   */
  lemma ReplicasConverge(base: DataContext, left: seq<Grouping>, right: seq<Grouping>)
    requires AllWrites(Written(left)) && AllWrites(Written(right))
    requires Consistent(Written(left) + Written(right))
    requires SameOperands(EraseOps(Written(left)), EraseOps(Written(right)))
    ensures SameRecord(ApplyAll(base, Visible(left)), ApplyAll(base, Visible(right)))
    ensures IsJoin(base, Written(left), ApplyAll(base, Visible(left)))
  {
    EarlyFoldingInvisible(base, left);
    EarlyFoldingInvisible(base, right);
    OrdersConverge(base, Written(left), Written(right));
    ApplyAllIsJoin(base, Written(left));
  }

  /** With the very same writes and one write per timestamp, two replicas hold equal contexts. */
  lemma ReplicasEqual(base: DataContext, left: seq<Grouping>, right: seq<Grouping>)
    requires AllWrites(Written(left)) && AllWrites(Written(right)) && SameOperands(Written(left), Written(right))
    requires forall a, b :: a in Written(left) && b in Written(left) && a.timestamp == b.timestamp ==> a == b
    ensures ApplyAll(base, Visible(left)) == ApplyAll(base, Visible(right))
  {
    EarlyFoldingInvisible(base, left);
    EarlyFoldingInvisible(base, right);
    ApplyAllIsJoin(base, Written(left));
    ApplyAllIsJoin(base, Written(right));
  }
}
