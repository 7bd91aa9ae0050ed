/** What a coordinator answers to a map read whose replicas do not agree. */
module Reconciliation {
  import opened Wrappers
  import opened Sets
  import opened Bytes
  import opened ReplicaSets
  import opened Storage

  // ---------------------------------------------------------------------
  // Weighted sums over the distinct responses
  // ---------------------------------------------------------------------

  /** The sum of `f` over the responses, each counted as often as replicas gave it. */
  function Weight(responses: seq<Option<Response>>, weights: seq<nat>, f: Response -> nat): nat
    requires |responses| == |weights|
    decreases |responses|
  {
    if responses == [] then 0
    else
      var last := |responses| - 1;
      Weight(responses[..last], weights[..last], f) +
      if responses[last].Some? then weights[last] * f(responses[last].value) else 0
  }

  /** The sum of `f` over what each replica replied. */
  function Reported(replicas: seq<Operator>, replies: map<Operator, Response>, f: Response -> nat): nat
    requires forall o :: o in replicas ==> o in replies
    decreases |replicas|
  {
    if replicas == [] then 0
    else
      var last := |replicas| - 1;
      Reported(replicas[..last], replies, f) + f(replies[replicas[last]])
  }

  function Count(replicas: seq<Operator>, replies: map<Operator, Response>, r: Response): nat
    requires forall o :: o in replicas ==> o in replies
    decreases |replicas|
  {
    if replicas == [] then 0
    else
      var last := |replicas| - 1;
      Count(replicas[..last], replies, r) + if replies[replicas[last]] == r then 1 else 0
  }

  /** How many replicas gave the response in each slot. */
  function Weights(responses: seq<Option<Response>>, replicas: seq<Operator>,
                   replies: map<Operator, Response>): (w: seq<nat>)
    requires forall o :: o in replicas ==> o in replies
    ensures |w| == |responses|
  {
    seq(|responses|, i requires 0 <= i < |responses| =>
      if responses[i].Some? then Count(replicas, replies, responses[i].value) else 0)
  }

  lemma {:induction false} WeightZero(responses: seq<Option<Response>>, weights: seq<nat>, f: Response -> nat)
    requires |responses| == |weights| && forall i :: 0 <= i < |weights| ==> weights[i] == 0
    ensures Weight(responses, weights, f) == 0
    decreases |responses|
  {
    if responses != [] {
      var last := |responses| - 1;
      WeightZero(responses[..last], weights[..last], f);
      assert weights[last] == 0;
    }
  }

  lemma {:induction false} WeightBump(responses: seq<Option<Response>>, before: seq<nat>, after: seq<nat>, j: nat,
                                      f: Response -> nat)
    requires |responses| == |before| == |after| && j < |responses| && responses[j].Some?
    requires after == before[j := before[j] + 1]
    ensures Weight(responses, after, f) == Weight(responses, before, f) + f(responses[j].value)
    decreases |responses|
  {
    var last := |responses| - 1;
    if j == last {
      assert after[..last] == before[..last];
      var x := f(responses[j].value);
      assert (before[j] + 1) * x == before[j] * x + x;
    } else {
      WeightBump(responses[..last], before[..last], after[..last], j, f);
    }
  }

  predicate AllDifferent(responses: seq<Option<Response>>) {
    forall i, j :: 0 <= i < j < |responses| && responses[i].Some? ==> responses[i] != responses[j]
  }

  /** Summing over the distinct responses by weight is summing over the replicas. */
  lemma {:induction false} WeightIsReported(responses: seq<Option<Response>>, replicas: seq<Operator>,
                                            replies: map<Operator, Response>, f: Response -> nat)
    requires AllDifferent(responses)
    requires forall o :: o in replicas ==> o in replies && Some(replies[o]) in responses
    ensures Weight(responses, Weights(responses, replicas, replies), f) == Reported(replicas, replies, f)
    decreases |replicas|
  {
    if replicas == [] {
      WeightZero(responses, Weights(responses, replicas, replies), f);
    } else {
      var last := |replicas| - 1;
      var fewer, r := replicas[..last], replies[replicas[last]];
      WeightIsReported(responses, fewer, replies, f);
      assert replicas[last] in replicas;
      var j :| 0 <= j < |responses| && responses[j] == Some(r);
      var before, after := Weights(responses, fewer, replies), Weights(responses, replicas, replies);
      assert after == before[j := before[j] + 1];
      WeightBump(responses, before, after, j, f);
    }
  }

  // ---------------------------------------------------------------------
  // Map pages
  // ---------------------------------------------------------------------

  function EntriesOf(r: Response): seq<MapEntry> {
    if r.Ok? && r.value.PageOutput? then r.value.page.entries else []
  }

  function IsPage(): Response -> nat {
    (r: Response) => if r.Ok? && r.value.PageOutput? then 1 else 0
  }

  function HasNext(): Response -> nat {
    (r: Response) => if r.Ok? && r.value.PageOutput? && r.value.page.hasNext then 1 else 0
  }

  function Occurrences(e: MapEntry): Response -> nat {
    r => multiset(EntriesOf(r))[e]
  }

  function At(counters: map<MapEntry, nat>, e: MapEntry): nat {
    if e in counters then counters[e] else 0
  }

  predicate Ascending(entries: seq<MapEntry>) {
    forall i, j :: 0 <= i < j < |entries| ==> LessEq(entries[i].field, entries[j].field)
  }

  predicate NoRepeats(entries: seq<MapEntry>) {
    forall i, j :: 0 <= i < j < |entries| ==> entries[i] != entries[j]
  }

  /** `e` put behind the entries whose field is at most its own. */
  function Insert(entries: seq<MapEntry>, e: MapEntry): (r: seq<MapEntry>)
    requires Ascending(entries)
    ensures Ascending(r)
    ensures forall x :: x in r <==> x in entries || x == e
    ensures NoRepeats(entries) && e !in entries ==> NoRepeats(r)
    decreases |entries|
  {
    var last := |entries| - 1;
    if entries == [] then [e]
    else if LessEq(entries[last].field, e.field) then
      AppendKeeps(entries, e);
      entries + [e]
    else
      var r := Insert(entries[..last], e);
      InsertBefore(entries, r, e);
      r + [entries[last]]
  }

  lemma AppendKeeps(entries: seq<MapEntry>, e: MapEntry)
    requires Ascending(entries) && entries != [] && LessEq(entries[|entries| - 1].field, e.field)
    ensures Ascending(entries + [e])
    ensures NoRepeats(entries) && e !in entries ==> NoRepeats(entries + [e])
  {
    forall i | 0 <= i < |entries| ensures LessEq(entries[i].field, e.field) {
      if i < |entries| - 1 && entries[i].field != entries[|entries| - 1].field && entries[|entries| - 1].field != e.field {
        LessTransitive(entries[i].field, entries[|entries| - 1].field, e.field);
      }
    }
  }

  lemma InsertBefore(entries: seq<MapEntry>, r: seq<MapEntry>, e: MapEntry)
    requires entries != [] && Ascending(entries) && !LessEq(entries[|entries| - 1].field, e.field)
    requires Ascending(r) && forall x :: x in r <==> x in entries[..|entries| - 1] || x == e
    requires NoRepeats(entries[..|entries| - 1]) && e !in entries[..|entries| - 1] ==> NoRepeats(r)
    ensures Ascending(r + [entries[|entries| - 1]])
    ensures forall x :: x in r + [entries[|entries| - 1]] <==> x in entries || x == e
    ensures NoRepeats(entries) && e !in entries ==> NoRepeats(r + [entries[|entries| - 1]])
  {
    var last := entries[|entries| - 1];
    LessTotal(e.field, last.field);
    forall i | 0 <= i < |r| ensures LessEq(r[i].field, last.field) {
      assert r[i] in r;
    }
    assert entries == entries[..|entries| - 1] + [last];
    if NoRepeats(entries) && e !in entries {
      forall i | 0 <= i < |r| ensures r[i] != last {
        assert r[i] in r;
      }
    }
  }

  method AddEntries(counters: map<MapEntry, nat>, entries: seq<MapEntry>,
                    weight: nat) returns (sums: map<MapEntry, nat>)
    ensures forall e :: At(sums, e) == At(counters, e) + weight * multiset(entries)[e]
  {
    sums := counters;
    for j := 0 to |entries|
      invariant forall e :: At(sums, e) == At(counters, e) + weight * multiset(entries[..j])[e]
    {
      assert entries[..j + 1] == entries[..j] + [entries[j]];
      ghost var m := multiset(entries[..j])[entries[j]];
      assert weight * (m + 1) == weight * m + weight;
      sums := sums[entries[j] := At(sums, entries[j]) + weight];
    }
    assert entries[..|entries|] == entries;
  }

  lemma WeightSnoc(responses: seq<Option<Response>>, weights: seq<nat>, i: nat, f: Response -> nat)
    requires |responses| == |weights| && i < |responses|
    ensures Weight(responses[..i + 1], weights[..i + 1], f) ==
            Weight(responses[..i], weights[..i], f) + if responses[i].Some? then weights[i] * f(responses[i].value) else 0
  {
    assert responses[..i + 1][..i] == responses[..i] && weights[..i + 1][..i] == weights[..i];
  }

  /** Counts how often the replicas reported each entry. */
  method CountEntries(responses: seq<Option<Response>>, weights: seq<nat>) returns (counters: map<MapEntry, nat>)
    requires |responses| == |weights|
    ensures forall e :: At(counters, e) == Weight(responses, weights, Occurrences(e))
  {
    counters := map[];
    for i := 0 to |responses|
      invariant forall e :: At(counters, e) == Weight(responses[..i], weights[..i], Occurrences(e))
    {
      ghost var base := counters;
      if responses[i].Some? {
        counters := AddEntries(counters, EntriesOf(responses[i].value), weights[i]);
      }
      forall e ensures At(counters, e) == Weight(responses[..i + 1], weights[..i + 1], Occurrences(e)) {
        WeightSnoc(responses, weights, i, Occurrences(e));
        assert At(base, e) == Weight(responses[..i], weights[..i], Occurrences(e));
      }
    }
    assert responses[..|responses|] == responses && weights[..|weights|] == weights;
  }

  /** The page holds each entry with enough support once, in field order. */
  ghost predicate IsMajorityPage(page: MapPage, support: MapEntry -> nat, next: nat) {
    && Ascending(page.entries) && NoRepeats(page.entries)
    && (forall e :: e in page.entries <==> support(e) >= MAJORITY)
    && (page.hasNext <==> next >= MAJORITY)
  }

  ghost function WeightOf(responses: seq<Option<Response>>, weights: seq<nat>): MapEntry -> nat
    requires |responses| == |weights|
  {
    e => Weight(responses, weights, Occurrences(e))
  }

  method ReconcileMapPage(responses: seq<Option<Response>>, weights: seq<nat>) returns (page: Option<MapPage>)
    requires |responses| == |weights|
    ensures page.Some? <==> Weight(responses, weights, IsPage()) >= MAJORITY
    ensures page.Some? ==>
              IsMajorityPage(page.value, WeightOf(responses, weights), Weight(responses, weights, HasNext()))
  {
    if Weight(responses, weights, IsPage()) < MAJORITY {
      return None;
    }
    var hasNext := Weight(responses, weights, HasNext()) >= MAJORITY;
    var counters := CountEntries(responses, weights);
    var entries: seq<MapEntry> := [];
    var rest := counters.Keys;
    while rest != {}
      invariant rest <= counters.Keys
      invariant Ascending(entries) && NoRepeats(entries)
      invariant forall e :: e in entries <==> e in counters && e !in rest && counters[e] >= MAJORITY
    {
      var e :| e in rest;
      if counters[e] >= MAJORITY {
        entries := Insert(entries, e);
      }
      rest := rest - {e};
    }
    forall e ensures e in entries <==> WeightOf(responses, weights)(e) >= MAJORITY {
      assert At(counters, e) == Weight(responses, weights, Occurrences(e));
    }
    return Some(MapPage(entries, hasNext));
  }

  // ---------------------------------------------------------------------
  // Map cardinalities
  // ---------------------------------------------------------------------

  /** 1 for a cardinality that satisfies `p`, 0 for any other response. */
  function IsCardinality(p: nat -> bool): Response -> nat {
    (r: Response) => if r.Ok? && r.value.CardinalityOutput? && p(r.value.cardinality) then 1 else 0
  }

  function Any(): nat -> bool {
    _ => true
  }

  function AtMost(c: nat): nat -> bool {
    k => k <= c
  }

  function Below(c: nat): nat -> bool {
    k => k < c
  }

  type Card = (nat, nat)

  /** The reported cardinalities, each with the number of replicas behind it. */
  function Cards(responses: seq<Option<Response>>, weights: seq<nat>): seq<Card>
    requires |responses| == |weights|
    decreases |responses|
  {
    if responses == [] then []
    else
      var last := |responses| - 1;
      Cards(responses[..last], weights[..last]) +
      if responses[last].Some? && IsCardinality(Any())(responses[last].value) == 1
      then [(responses[last].value.value.cardinality, weights[last])] else []
  }

  function CardWeight(cards: seq<Card>, p: nat -> bool): nat
    decreases |cards|
  {
    if cards == [] then 0
    else
      var last := |cards| - 1;
      CardWeight(cards[..last], p) + if p(cards[last].0) then cards[last].1 else 0
  }

  lemma {:induction false} CardWeightIsWeight(responses: seq<Option<Response>>, weights: seq<nat>, p: nat -> bool)
    requires |responses| == |weights|
    ensures CardWeight(Cards(responses, weights), p) == Weight(responses, weights, IsCardinality(p))
    decreases |responses|
  {
    if responses != [] {
      var last := |responses| - 1;
      CardWeightIsWeight(responses[..last], weights[..last], p);
      var before := Cards(responses[..last], weights[..last]);
      if responses[last].Some? && IsCardinality(Any())(responses[last].value) == 1 {
        assert Cards(responses, weights)[..|before|] == before;
      } else {
        assert Cards(responses, weights) == before;
      }
    }
  }

  predicate Precedes(a: Card, b: Card) {
    a.0 < b.0 || (a.0 == b.0 && a.1 <= b.1)
  }

  predicate Sorted(cards: seq<Card>) {
    forall i, j :: 0 <= i < j < |cards| ==> Precedes(cards[i], cards[j])
  }

  function InsertCard(cards: seq<Card>, x: Card): (r: seq<Card>)
    requires Sorted(cards)
    ensures Sorted(r)
    ensures forall y :: y in r ==> y in cards || y == x
    decreases |cards|
  {
    var last := |cards| - 1;
    if cards == [] || Precedes(cards[last], x) then
      cards + [x]
    else
      var r := InsertCard(cards[..last], x);
      assert forall i :: 0 <= i < |r| ==> r[i] in r;
      r + [cards[last]]
  }

  lemma {:induction false} InsertCardWeight(cards: seq<Card>, x: Card, p: nat -> bool)
    requires Sorted(cards)
    ensures CardWeight(InsertCard(cards, x), p) == CardWeight(cards, p) + if p(x.0) then x.1 else 0
    decreases |cards|
  {
    var last := |cards| - 1;
    if cards == [] || Precedes(cards[last], x) {
      assert (cards + [x])[..|cards|] == cards;
    } else {
      InsertCardWeight(cards[..last], x, p);
      var r := InsertCard(cards[..last], x);
      assert (r + [cards[last]])[..|r|] == r;
    }
  }

  method SortCards(cards: seq<Card>) returns (sorted: seq<Card>)
    ensures Sorted(sorted) && forall p :: CardWeight(sorted, p) == CardWeight(cards, p)
  {
    sorted := [];
    for i := 0 to |cards|
      invariant Sorted(sorted) && forall p :: CardWeight(sorted, p) == CardWeight(cards[..i], p)
    {
      forall p ensures CardWeight(InsertCard(sorted, cards[i]), p) == CardWeight(cards[..i + 1], p) {
        InsertCardWeight(sorted, cards[i], p);
        assert cards[..i + 1][..i] == cards[..i];
      }
      sorted := InsertCard(sorted, cards[i]);
    }
    assert cards[..|cards|] == cards;
  }

  /** In sorted order, the cards before one weigh at least as much as all smaller cards. */
  lemma {:induction false} SortedPrefixWeight(cards: seq<Card>, i: nat, c: nat)
    requires Sorted(cards) && i < |cards| && c == cards[i].0
    ensures CardWeight(cards, Below(c)) <= CardWeight(cards[..i], Any())
    ensures CardWeight(cards[..i + 1], Any()) <= CardWeight(cards, AtMost(c))
    decreases |cards|
  {
    var last := |cards| - 1;
    if i == last {
      assert cards[..i + 1] == cards;
      forall j | 0 <= j < last ensures cards[j].0 <= c {
        assert Precedes(cards[j], cards[last]);
      }
      WeightMonotone(cards, Any(), AtMost(c));
      WeightMonotone(cards[..last], Below(c), Any());
    } else {
      assert Precedes(cards[i], cards[last]);
      assert cards[..last][..i] == cards[..i] && cards[..last][..i + 1] == cards[..i + 1];
      SortedPrefixWeight(cards[..last], i, c);
    }
  }

  lemma {:induction false} WeightMonotone(cards: seq<Card>, p: nat -> bool, q: nat -> bool)
    requires forall i :: 0 <= i < |cards| && p(cards[i].0) ==> q(cards[i].0)
    ensures CardWeight(cards, p) <= CardWeight(cards, q)
    decreases |cards|
  {
    if cards != [] {
      var last := |cards| - 1;
      assert p(cards[last].0) ==> q(cards[last].0);
      WeightMonotone(cards[..last], p, q);
    }
  }

  /** `c` has a majority at or below it and none strictly below. */
  ghost predicate IsMedian(c: nat, weight: (nat -> bool) -> nat) {
    weight(AtMost(c)) >= MAJORITY && weight(Below(c)) < MAJORITY
  }

  ghost function CardinalityWeight(responses: seq<Option<Response>>, weights: seq<nat>): (nat -> bool) -> nat
    requires |responses| == |weights|
  {
    (p: nat -> bool) => Weight(responses, weights, IsCardinality(p))
  }

  method ReconcileMapCardinality(responses: seq<Option<Response>>, weights: seq<nat>) returns (card: Option<nat>)
    requires |responses| == |weights|
    ensures card.Some? <==> Weight(responses, weights, IsCardinality(Any())) >= MAJORITY
    ensures card.Some? ==> IsMedian(card.value, CardinalityWeight(responses, weights))
  {
    var cards := SortCards(Cards(responses, weights));
    forall p ensures CardWeight(cards, p) == Weight(responses, weights, IsCardinality(p)) {
      CardWeightIsWeight(responses, weights, p);
    }
    var total := 0;
    for i := 0 to |cards|
      invariant total == CardWeight(cards[..i], Any()) && total < MAJORITY
    {
      assert cards[..i + 1][..i] == cards[..i];
      total := total + cards[i].1;
      if total >= MAJORITY {
        SortedPrefixWeight(cards, i, cards[i].0);
        WeightMonotone(cards, AtMost(cards[i].0), Any());
        return Some(cards[i].0);
      }
    }
    assert cards[..|cards|] == cards;
    return None;
  }

  ghost predicate IsReconciled(operation: Operation, responses: seq<Option<Response>>, weights: seq<nat>,
                               output: Option<Output>)
    requires |responses| == |weights|
  {
    match operation
    case HScan(_, _, _) =>
      && (output.Some? <==> Weight(responses, weights, IsPage()) >= MAJORITY)
      && (output.Some? ==>
            && output.value.PageOutput?
            && IsMajorityPage(output.value.page, WeightOf(responses, weights), Weight(responses, weights, HasNext())))
    case HCard(_) =>
      && (output.Some? <==> Weight(responses, weights, IsCardinality(Any())) >= MAJORITY)
      && (output.Some? ==>
            && output.value.CardinalityOutput?
            && IsMedian(output.value.cardinality, CardinalityWeight(responses, weights)))
    case _ => output == None
  }

  /** Only map scans and map cardinalities are reconciled. */
  method Reconcile(operation: Operation, responses: seq<Option<Response>>,
                   weights: seq<nat>) returns (output: Option<Output>)
    requires |responses| == |weights|
    ensures IsReconciled(operation, responses, weights, output)
  {
    match operation {
      case HScan(_, _, _) =>
        var page := ReconcileMapPage(responses, weights);
        return if page.Some? then Some(PageOutput(page.value)) else None;
      case HCard(_) =>
        var card := ReconcileMapCardinality(responses, weights);
        return if card.Some? then Some(CardinalityOutput(card.value)) else None;
      case _ =>
        return None;
    }
  }

  // ---------------------------------------------------------------------
  // What reconciliation means for the replicas
  // ---------------------------------------------------------------------

  /** The replicas for whose reply `f` is positive. */
  function Supporters(replicas: seq<Operator>, replies: map<Operator, Response>, f: Response -> nat): set<Operator>
    requires forall o :: o in replicas ==> o in replies
  {
    set o | o in replicas && f(replies[o]) > 0
  }

  /** One more replica adds itself to the supporters, if it is one. */
  lemma SupportersStep(replicas: seq<Operator>, o: Operator, replies: map<Operator, Response>, f: Response -> nat)
    requires o in replies && o !in replicas && forall p :: p in replicas ==> p in replies
    ensures
      var before := Supporters(replicas, replies, f);
      && o !in before
      && (forall p :: p in replicas + [o] ==> p in replies)
      && Supporters(replicas + [o], replies, f) == before + if f(replies[o]) > 0 then {o} else {}
  {
  }

  lemma {:induction false} ReportedIsCount(replicas: seq<Operator>, replies: map<Operator, Response>, f: Response -> nat)
    requires Distinct(replicas) && forall o :: o in replicas ==> o in replies && f(replies[o]) <= 1
    ensures Reported(replicas, replies, f) == |Supporters(replicas, replies, f)|
    decreases |replicas|
  {
    if replicas == [] {
      assert Supporters(replicas, replies, f) == {};
    } else {
      var last := |replicas| - 1;
      assert replicas == replicas[..last] + [replicas[last]];
      ReportedIsCount(replicas[..last], replies, f);
      SupportersStep(replicas[..last], replicas[last], replies, f);
    }
  }

  lemma SharedMember(replicas: seq<Operator>, a: set<Operator>, b: set<Operator>) returns (o: Operator)
    requires IsReplicaSet(replicas) && a <= Members(replicas) && b <= Members(replicas)
    requires |a| >= MAJORITY && |b| >= MAJORITY
    ensures o in a && o in b
  {
    MajoritiesIntersect(replicas, a, b);
    o :| o in a && o in b;
  }

  predicate UniqueFields(entries: seq<MapEntry>) {
    forall i, j :: 0 <= i < j < |entries| ==> entries[i].field != entries[j].field
  }

  lemma {:induction false} UniqueOccurrence(entries: seq<MapEntry>, e: MapEntry)
    requires UniqueFields(entries)
    ensures multiset(entries)[e] == if e in entries then 1 else 0
    decreases |entries|
  {
    if entries != [] {
      var last := |entries| - 1;
      UniqueOccurrence(entries[..last], e);
      assert entries == entries[..last] + [entries[last]];
    }
  }

  ghost function ReportedEntry(replicas: seq<Operator>, replies: map<Operator, Response>): MapEntry -> nat
    requires forall o :: o in replicas ==> o in replies
  {
    e => Reported(replicas, replies, Occurrences(e))
  }

  /** The replicas whose page contains `e`. */
  function Reporters(replicas: seq<Operator>, replies: map<Operator, Response>, e: MapEntry): set<Operator>
    requires forall o :: o in replicas ==> o in replies
  {
    set o | o in replicas && e in EntriesOf(replies[o])
  }

  lemma EntrySupport(replicas: seq<Operator>, replies: map<Operator, Response>, e: MapEntry)
    requires Distinct(replicas)
    requires forall o :: o in replicas ==> o in replies && UniqueFields(EntriesOf(replies[o]))
    ensures Reported(replicas, replies, Occurrences(e)) == |Reporters(replicas, replies, e)|
  {
    forall o | o in replicas
      ensures Occurrences(e)(replies[o]) == if e in EntriesOf(replies[o]) then 1 else 0
    {
      UniqueOccurrence(EntriesOf(replies[o]), e);
    }
    ReportedIsCount(replicas, replies, Occurrences(e));
    assert Supporters(replicas, replies, Occurrences(e)) == Reporters(replicas, replies, e);
  }

  /** From pages without repeated fields comes a page of exactly the majority's entries, strictly ascending. */
  lemma PageIsMajority(page: MapPage, replicas: seq<Operator>, replies: map<Operator, Response>, next: nat)
    requires IsReplicaSet(replicas)
    requires forall o :: o in replicas ==> o in replies && UniqueFields(EntriesOf(replies[o]))
    requires IsMajorityPage(page, ReportedEntry(replicas, replies), next)
    ensures forall e :: e in page.entries <==> |Reporters(replicas, replies, e)| >= MAJORITY
    ensures StrictlyAscending(page.entries)
  {
    forall e ensures e in page.entries <==> |Reporters(replicas, replies, e)| >= MAJORITY {
      EntrySupport(replicas, replies, e);
      assert ReportedEntry(replicas, replies)(e) == Reported(replicas, replies, Occurrences(e));
    }
    forall i, j | 0 <= i < j < |page.entries| ensures page.entries[i].field != page.entries[j].field {
      var a, b := page.entries[i], page.entries[j];
      assert a in page.entries && b in page.entries && a != b;
      var o := SharedMember(replicas, Reporters(replicas, replies, a), Reporters(replicas, replies, b));
    }
  }

  ghost function ReportedCardinality(replicas: seq<Operator>, replies: map<Operator, Response>): (nat -> bool) -> nat
    requires forall o :: o in replicas ==> o in replies
  {
    (p: nat -> bool) => Reported(replicas, replies, IsCardinality(p))
  }

  lemma CardinalitySupport(replicas: seq<Operator>, replies: map<Operator, Response>, p: nat -> bool)
    requires Distinct(replicas) && forall o :: o in replicas ==> o in replies
    ensures ReportedCardinality(replicas, replies)(p) == |Supporters(replicas, replies, IsCardinality(p))|
  {
    ReportedIsCount(replicas, replies, IsCardinality(p));
  }

  lemma Outsider(a: set<Operator>, b: set<Operator>) returns (o: Operator)
    requires |a| > |b|
    ensures o in a && o !in b
  {
    assert a == (a - b) + (a * b) && b == (a * b) + (b - a);
    o :| o in a - b;
  }

  /** With a majority of correct replies, the reconciled cardinality lies between two correct ones. */
  lemma MedianWithinCorrect(c: nat, replicas: seq<Operator>, replies: map<Operator, Response>, correct: set<Operator>)
    returns (low: Operator, high: Operator)
    requires IsReplicaSet(replicas) && forall o :: o in replicas ==> o in replies
    requires IsMedian(c, ReportedCardinality(replicas, replies))
    requires correct <= Members(replicas) && |correct| >= MAJORITY
    requires forall o :: o in correct ==> replies[o].Ok? && replies[o].value.CardinalityOutput?
    ensures low in correct && replies[low].value.cardinality <= c
    ensures high in correct && c <= replies[high].value.cardinality
  {
    CardinalitySupport(replicas, replies, AtMost(c));
    CardinalitySupport(replicas, replies, Below(c));
    low := SharedMember(replicas, Supporters(replicas, replies, IsCardinality(AtMost(c))), correct);
    high := Outsider(correct, Supporters(replicas, replies, IsCardinality(Below(c))));
    assert high in replicas;
  }

  /** A map read has one median cardinality. */
  lemma MedianUnique(c: nat, d: nat, replicas: seq<Operator>, replies: map<Operator, Response>)
    requires Distinct(replicas) && forall o :: o in replicas ==> o in replies
    requires IsMedian(c, ReportedCardinality(replicas, replies)) && IsMedian(d, ReportedCardinality(replicas, replies))
    ensures c == d
  {
    MedianAtMost(c, d, replicas, replies);
    MedianAtMost(d, c, replicas, replies);
  }

  lemma MedianAtMost(c: nat, d: nat, replicas: seq<Operator>, replies: map<Operator, Response>)
    requires Distinct(replicas) && forall o :: o in replicas ==> o in replies
    requires IsMedian(c, ReportedCardinality(replicas, replies)) && IsMedian(d, ReportedCardinality(replicas, replies))
    ensures d <= c
  {
    CardinalitySupport(replicas, replies, AtMost(c));
    CardinalitySupport(replicas, replies, Below(d));
    var o := Outsider(Supporters(replicas, replies, IsCardinality(AtMost(c))), Supporters(replicas, replies, IsCardinality(Below(d))));
  }

  predicate StrictlyAscending(entries: seq<MapEntry>) {
    forall i, j :: 0 <= i < j < |entries| ==> Less(entries[i].field, entries[j].field)
  }

  lemma LeastIsFirst(a: seq<MapEntry>, b: seq<MapEntry>)
    requires StrictlyAscending(a) && StrictlyAscending(b) && a != [] && b != []
    requires forall e :: e in a <==> e in b
    ensures a[0] == b[0]
  {
    assert a[0] in b && b[0] in a;
    var i :| 0 <= i < |b| && b[i] == a[0];
    var j :| 0 <= j < |a| && a[j] == b[0];
    if i > 0 && j > 0 {
      LessTransitive(a[0].field, b[0].field, a[0].field);
      LessIrreflexive(a[0].field);
    }
  }

  /** Strictly ascending pages with the same entries are the same page. */
  lemma {:induction false} AscendingUnique(a: seq<MapEntry>, b: seq<MapEntry>)
    requires StrictlyAscending(a) && StrictlyAscending(b)
    requires forall e :: e in a <==> e in b
    ensures a == b
  {
    if a != [] && b != [] {
      LeastIsFirst(a, b);
      TailsMatch(a, b);
      AscendingUnique(a[1..], b[1..]);
      assert a == [a[0]] + a[1..] && b == [b[0]] + b[1..];
    } else if a != [] {
      HasMember(a);
    } else if b != [] {
      HasMember(b);
    }
  }

  lemma HasMember(s: seq<MapEntry>)
    requires s != []
    ensures exists e :: e in s
  {
    assert s[0] in s;
  }

  lemma TailsMatch(a: seq<MapEntry>, b: seq<MapEntry>)
    requires StrictlyAscending(a) && StrictlyAscending(b) && a != [] && b != [] && a[0] == b[0]
    requires forall e :: e in a <==> e in b
    ensures forall e :: e in a[1..] <==> e in b[1..]
  {
    LessIrreflexive(a[0].field);
    forall e ensures e in a[1..] <==> e in a && e != a[0] {
      TailMember(a, e);
    }
    forall e ensures e in b[1..] <==> e in b && e != b[0] {
      TailMember(b, e);
    }
  }

  lemma TailMember(s: seq<MapEntry>, e: MapEntry)
    requires StrictlyAscending(s) && s != [] && !Less(s[0].field, s[0].field)
    ensures e in s[1..] <==> e in s && e != s[0]
  {
  }
}
