/** Collecting replica responses: the deduplicating buffer, the majority count and the response loop. */
module Quorums {
  import opened Wrappers
  import opened Sets
  import opened ReplicaSets

  /** Room for a different response from every contacted operator. */
  const BUFFER_SIZE: nat := RF * 2

  /** The replicas heard so far that gave the response `r`. */
  function Voters<R(==)>(replicas: seq<Operator>, heard: set<Operator>, replies: map<Operator, R>,
                         r: R): set<Operator> {
    set o | o in heard && o in replicas && o in replies && replies[o] == r
  }

  /** `r` is the response of a majority of `replicas`. */
  predicate Agreed<R(==)>(replicas: seq<Operator>, replies: map<Operator, R>, r: R) {
    |Voters(replicas, replies.Keys, replies, r)| >= MAJORITY
  }

  predicate AgreedByAll<R(==)>(primary: seq<Operator>, secondary: Option<seq<Operator>>, replies: map<Operator, R>,
                               r: R) {
    Agreed(primary, replies, r) && (secondary.Some? ==> Agreed(secondary.value, replies, r))
  }

  /** What a coordinator should answer, told from the replies alone and not from their order. */
  predicate IsOutcome<R(==)>(answer: Option<R>, primary: seq<Operator>, secondary: Option<seq<Operator>>,
                             replies: map<Operator, R>)
  {
    match answer
    case Some(r) => AgreedByAll(primary, secondary, replies, r)
    case None => forall o :: o in replies ==> !AgreedByAll(primary, secondary, replies, replies[o])
  }

  /** A replica set cannot have two majority responses. */
  lemma MajorityUnique<R>(replicas: seq<Operator>, heard: set<Operator>, replies: map<Operator, R>, r: R, s: R)
    requires IsReplicaSet(replicas) && r != s
    ensures |Voters(replicas, heard, replies, r)| + |Voters(replicas, heard, replies, s)| <= RF
  {
    var a, b := Voters(replicas, heard, replies, r), Voters(replicas, heard, replies, s);
    DistinctSize(replicas);
    SubsetSize(a + b, Members(replicas));
    assert a !! b;
  }

  lemma AgreedIsReply<R>(replicas: seq<Operator>, replies: map<Operator, R>, r: R)
    requires Agreed(replicas, replies, r)
    ensures exists o :: o in replies && replies[o] == r
  {
  }

  /** An agreed answer rules out that there is none. */
  lemma AgreedExcludesNone<R>(r: R, primary: seq<Operator>, secondary: Option<seq<Operator>>, replies: map<Operator, R>)
    requires IsOutcome(Some(r), primary, secondary, replies)
    ensures !IsOutcome(None, primary, secondary, replies)
  {
  }

  /** At most one answer is right, so whatever returns a right answer is independent of the order. */
  lemma OutcomeUnique<R>(a: Option<R>, b: Option<R>, primary: seq<Operator>, secondary: Option<seq<Operator>>,
                         replies: map<Operator, R>)
    requires IsReplicaSet(primary)
    requires IsOutcome(a, primary, secondary, replies) && IsOutcome(b, primary, secondary, replies)
    ensures a == b
  {
    if a.Some? {
      AgreedIsReply(primary, replies, a.value);
    }
    if b.Some? {
      AgreedIsReply(primary, replies, b.value);
    }
    if a.Some? && b.Some? && a != b {
      MajorityUnique(primary, replies.Keys, replies, a.value, b.value);
    }
  }

  // ---------------------------------------------------------------------
  // The response buffer
  // ---------------------------------------------------------------------

  /** The first `n` slots hold different responses, the others none. */
  predicate IsBuffer<R(==)>(buf: seq<Option<R>>, n: nat) {
    && |buf| == BUFFER_SIZE && n <= BUFFER_SIZE
    && (forall i :: 0 <= i < n ==> buf[i].Some?)
    && (forall i :: n <= i < BUFFER_SIZE ==> buf[i].None?)
    && (forall i, j :: 0 <= i < j < n ==> buf[i] != buf[j])
  }

  /** Where a response goes: the slot that already holds it, or else the first free one. */
  predicate IsSlot<R(==)>(buf: seq<Option<R>>, r: R, idx: nat) {
    && idx < |buf|
    && buf[idx] in {None, Some(r)}
    && forall i :: 0 <= i < idx ==> buf[i].Some? && buf[i] != Some(r)
  }

  /** The slot of a response, or the buffer's size when it is full of other responses. */
  function Slot<R(==)>(buf: seq<Option<R>>, r: R): (idx: nat)
    ensures if idx < |buf| then IsSlot(buf, r, idx) else idx == |buf| && None !in buf && Some(r) !in buf
  {
    if buf == [] || buf[0] in {None, Some(r)} then 0 else 1 + Slot(buf[1..], r)
  }

  lemma SlotUnique<R>(buf: seq<Option<R>>, r: R, idx: nat)
    requires IsSlot(buf, r, idx)
    ensures Slot(buf, r) == idx
  {
  }

  /** Stores `response` unless it is there already; `None` where the source panics. */
  method ReceiveResponse<R(==)>(buf: array<Option<R>>, response: R) returns (idx: Option<nat>)
    modifies buf
    ensures idx.None? ==> None !in old(buf[..]) && Some(response) !in old(buf[..]) && buf[..] == old(buf[..])
    ensures idx.Some? ==>
              && IsSlot(old(buf[..]), response, idx.value)
              && buf[..] == old(buf[..])[idx.value := Some(response)]
  {
    for i := 0 to buf.Length
      invariant buf[..] == old(buf[..])
      invariant forall k :: 0 <= k < i ==> buf[k].Some? && buf[k] != Some(response)
    {
      if buf[i] == Some(response) {
        assert forall k :: 0 <= k < i ==> buf[..][k] == buf[k];
        return Some(i);
      }
      if buf[i].None? {
        assert forall k :: 0 <= k < i ==> buf[..][k] == buf[k];
        buf[i] := Some(response);
        return Some(i);
      }
    }
    return None;
  }

  /** The buffer holds exactly the responses of the operators heard so far. */
  ghost predicate Holds<R>(buf: seq<Option<R>>, n: nat, heard: set<Operator>, replies: map<Operator, R>) {
    && IsBuffer(buf, n)
    && n <= |heard|
    && heard <= replies.Keys
    && (forall o :: o in heard ==> Some(replies[o]) in buf[..n])
  }

  /** With at most ten operators to hear from, a new response always finds a slot. */
  lemma BufferNeverOverflows<R>(buf: seq<Option<R>>, n: nat, heard: set<Operator>, replies: map<Operator, R>,
                                o: Operator)
    requires Holds(buf, n, heard, replies) && o in replies && o !in heard
    requires |replies.Keys| <= BUFFER_SIZE
    ensures n < BUFFER_SIZE && buf[n].None?
  {
    SubsetSize(heard + {o}, replies.Keys);
  }

  lemma SlotIndex<R>(buf: seq<Option<R>>, n: nat, r: R, idx: nat)
    requires IsBuffer(buf, n) && idx < BUFFER_SIZE && buf[idx] in {None, Some(r)}
    requires forall i :: 0 <= i < idx ==> buf[i].Some? && buf[i] != Some(r)
    ensures idx <= n && (idx < n ==> buf[idx] == Some(r))
  {
    assert n < BUFFER_SIZE ==> buf[n].None?;
  }

  lemma BufferGrows<R>(buf: seq<Option<R>>, n: nat, r: R)
    requires IsBuffer(buf, n) && n < BUFFER_SIZE && Some(r) !in buf[..n]
    ensures IsBuffer(buf[n := Some(r)], n + 1)
  {
  }

  lemma BufferStep<R>(buf: seq<Option<R>>, n: nat, heard: set<Operator>, replies: map<Operator, R>, o: Operator,
                      idx: nat)
    requires Holds(buf, n, heard, replies) && o in replies && o !in heard
    requires idx < BUFFER_SIZE && idx <= n
    requires idx < n ==> buf[idx] == Some(replies[o])
    requires forall i :: 0 <= i < idx ==> buf[i] != Some(replies[o])
    ensures Holds(buf[idx := Some(replies[o])], if idx == n then n + 1 else n, heard + {o}, replies)
  {
    var r := Some(replies[o]);
    if idx < n {
      assert buf[idx := r] == buf;
      assert buf[..n][idx] == r;
    } else {
      BufferGrows(buf, n, replies[o]);
      assert buf[n := r][..n + 1] == buf[..n] + [r];
    }
  }

  // ---------------------------------------------------------------------
  // The majority count of one replica set
  // ---------------------------------------------------------------------

  datatype Tally = Tally(
    replicaSet: seq<Operator>,
    responseIdx: Option<nat>,
    replicaResponses: seq<Option<nat>>,
    replicasPerResponse: seq<nat>)

  predicate WellFormed(t: Tally) {
    && IsReplicaSet(t.replicaSet)
    && |t.replicaResponses| == RF
    && |t.replicasPerResponse| == BUFFER_SIZE
  }

  function NewTally(replicas: seq<Operator>): Tally {
    Tally(replicas, None, seq(RF, _ => None), seq(BUFFER_SIZE, _ => 0))
  }

  /** The tally once `operator` has given the response in slot `idx`. */
  function Counted(t: Tally, operator: Operator, idx: nat): Tally
    requires WellFormed(t) && idx < BUFFER_SIZE
  {
    if operator !in t.replicaSet then t
    else
      var count := t.replicasPerResponse[idx] + 1;
      Tally(t.replicaSet,
            if count >= MAJORITY then Some(idx) else t.responseIdx,
            t.replicaResponses[IndexOf(t.replicaSet, operator) := Some(idx)],
            t.replicasPerResponse[idx := count])
  }

  class Quorum {
    const replicaSet: seq<Operator>
    var responseIdx: Option<nat>
    const replicaResponses: array<Option<nat>>
    const replicasPerResponse: array<nat>

    ghost function Value(): Tally
      reads this, replicaResponses, replicasPerResponse
    {
      Tally(replicaSet, responseIdx, replicaResponses[..], replicasPerResponse[..])
    }

    constructor (replicas: seq<Operator>)
      requires IsReplicaSet(replicas)
      ensures fresh(replicaResponses) && fresh(replicasPerResponse)
      ensures WellFormed(Value()) && Value() == NewTally(replicas)
    {
      replicaSet := replicas;
      responseIdx := None;
      replicaResponses := new Option<nat>[RF](_ => None);
      replicasPerResponse := new nat[BUFFER_SIZE](_ => 0);
    }

    method ResponseReceived(operator: Operator, idx: nat) returns (quorumIdx: Option<nat>)
      requires WellFormed(Value()) && idx < BUFFER_SIZE
      modifies `responseIdx, replicaResponses, replicasPerResponse
      ensures WellFormed(Value()) && Value() == Counted(old(Value()), operator, idx)
      ensures quorumIdx == responseIdx
    {
      if operator !in replicaSet {
        return responseIdx;
      }
      var replicaIdx := IndexOf(replicaSet, operator);
      replicaResponses[replicaIdx] := Some(idx);
      replicasPerResponse[idx] := replicasPerResponse[idx] + 1;
      if replicasPerResponse[idx] >= MAJORITY {
        responseIdx := Some(idx);
      }
      return responseIdx;
    }
  }

  ghost predicate CountsExact<R>(t: Tally, buf: seq<Option<R>>, n: nat, heard: set<Operator>, replies: map<Operator, R>)
    requires WellFormed(t) && IsBuffer(buf, n)
  {
    && (forall i :: 0 <= i < n ==>
          t.replicasPerResponse[i] == |Voters(t.replicaSet, heard, replies, buf[i].value)|)
    && (forall i :: n <= i < BUFFER_SIZE ==> t.replicasPerResponse[i] == 0)
  }

  ghost predicate ResponsesExact<R>(t: Tally, buf: seq<Option<R>>, n: nat, heard: set<Operator>,
                                    replies: map<Operator, R>)
    requires WellFormed(t) && IsBuffer(buf, n) && heard <= replies.Keys
  {
    forall k :: 0 <= k < RF ==> ResponseExact(t.replicaSet[k], t.replicaResponses[k], buf, n, heard, replies)
  }

  ghost predicate ResponseExact<R>(replica: Operator, response: Option<nat>, buf: seq<Option<R>>, n: nat,
                                   heard: set<Operator>, replies: map<Operator, R>)
    requires IsBuffer(buf, n) && heard <= replies.Keys
  {
    if replica in heard
    then response.Some? && response.value < n && buf[response.value] == Some(replies[replica])
    else response.None?
  }

  ghost predicate IndexExact(t: Tally, n: nat)
    requires WellFormed(t) && n <= BUFFER_SIZE
  {
    match t.responseIdx
    case Some(i) => i < n && t.replicasPerResponse[i] >= MAJORITY
    case None => forall i :: 0 <= i < n ==> t.replicasPerResponse[i] < MAJORITY
  }

  /** The tally counts exactly the replicas heard so far, by response. */
  ghost predicate Tallies<R>(t: Tally, buf: seq<Option<R>>, n: nat, heard: set<Operator>, replies: map<Operator, R>) {
    && WellFormed(t)
    && Holds(buf, n, heard, replies)
    && CountsExact(t, buf, n, heard, replies)
    && ResponsesExact(t, buf, n, heard, replies)
    && IndexExact(t, n)
  }

  lemma VotersStep<R>(replicas: seq<Operator>, heard: set<Operator>, replies: map<Operator, R>, o: Operator, r: R)
    requires o in replies && o !in heard
    ensures |Voters(replicas, heard + {o}, replies, r)| ==
            |Voters(replicas, heard, replies, r)| + if o in replicas && replies[o] == r then 1 else 0
  {
    var before, after := Voters(replicas, heard, replies, r), Voters(replicas, heard + {o}, replies, r);
    if o in replicas && replies[o] == r {
      assert after == before + {o};
    } else {
      assert after == before;
    }
  }

  lemma CountsStep<R>(t: Tally, buf: seq<Option<R>>, n: nat, heard: set<Operator>, replies: map<Operator, R>,
                      o: Operator, idx: nat, i: nat)
    requires Tallies(t, buf, n, heard, replies) && o in replies && o !in heard
    requires idx < BUFFER_SIZE && idx <= n && i < (if idx == n then n + 1 else n)
    requires idx < n ==> buf[idx] == Some(replies[o])
    requires forall k :: 0 <= k < idx ==> buf[k] != Some(replies[o])
    requires Holds(buf[idx := Some(replies[o])], if idx == n then n + 1 else n, heard + {o}, replies)
    ensures Counted(t, o, idx).replicasPerResponse[i] ==
            |Voters(t.replicaSet, heard + {o}, replies, buf[idx := Some(replies[o])][i].value)|
  {
    var r := buf[idx := Some(replies[o])][i].value;
    VotersStep(t.replicaSet, heard, replies, o, r);
    if i == n {
      assert Voters(t.replicaSet, heard, replies, r) == {} by {
        forall p | p in heard ensures replies[p] != r {
          assert Some(replies[p]) in buf[..n];
        }
      }
    }
  }

  /** A response never moves a quorum that has been reached. */
  lemma QuorumStays<R>(t: Tally, buf: seq<Option<R>>, n: nat, heard: set<Operator>, replies: map<Operator, R>,
                       o: Operator, idx: nat)
    requires Tallies(t, buf, n, heard, replies) && o in replies && o !in heard
    requires idx < BUFFER_SIZE && idx <= n && t.responseIdx.Some?
    requires idx < n ==> buf[idx] == Some(replies[o])
    requires forall k :: 0 <= k < idx ==> buf[k] != Some(replies[o])
    requires Holds(buf[idx := Some(replies[o])], if idx == n then n + 1 else n, heard + {o}, replies)
    ensures Counted(t, o, idx).responseIdx == t.responseIdx
  {
    var i := t.responseIdx.value;
    if i != idx {
      CountsStep(t, buf, n, heard, replies, o, idx, i);
      CountsStep(t, buf, n, heard, replies, o, idx, idx);
      MajorityUnique(t.replicaSet, heard + {o}, replies, buf[i].value, replies[o]);
    }
  }

  lemma CountsStepAll<R>(t: Tally, buf: seq<Option<R>>, n: nat, heard: set<Operator>, replies: map<Operator, R>,
                         o: Operator, idx: nat)
    requires Tallies(t, buf, n, heard, replies) && o in replies && o !in heard
    requires idx < BUFFER_SIZE && idx <= n
    requires idx < n ==> buf[idx] == Some(replies[o])
    requires forall k :: 0 <= k < idx ==> buf[k] != Some(replies[o])
    requires Holds(buf[idx := Some(replies[o])], if idx == n then n + 1 else n, heard + {o}, replies)
    ensures CountsExact(Counted(t, o, idx), buf[idx := Some(replies[o])], if idx == n then n + 1 else n, heard + {o}, replies)
  {
    var t', buf', n' := Counted(t, o, idx), buf[idx := Some(replies[o])], if idx == n then n + 1 else n;
    forall i | 0 <= i < n'
      ensures t'.replicasPerResponse[i] == |Voters(t'.replicaSet, heard + {o}, replies, buf'[i].value)|
    {
      CountsStep(t, buf, n, heard, replies, o, idx, i);
    }
  }

  lemma ResponsesStepAll<R>(t: Tally, buf: seq<Option<R>>, n: nat, heard: set<Operator>, replies: map<Operator, R>,
                            o: Operator, idx: nat)
    requires Tallies(t, buf, n, heard, replies) && o in replies && o !in heard
    requires idx < BUFFER_SIZE && idx <= n
    requires idx < n ==> buf[idx] == Some(replies[o])
    requires Holds(buf[idx := Some(replies[o])], if idx == n then n + 1 else n, heard + {o}, replies)
    ensures ResponsesExact(Counted(t, o, idx), buf[idx := Some(replies[o])], if idx == n then n + 1 else n, heard + {o}, replies)
  {
    var t', buf', n' := Counted(t, o, idx), buf[idx := Some(replies[o])], if idx == n then n + 1 else n;
    forall k | 0 <= k < RF
      ensures ResponseExact(t'.replicaSet[k], t'.replicaResponses[k], buf', n', heard + {o}, replies)
    {
      assert ResponseExact(t.replicaSet[k], t.replicaResponses[k], buf, n, heard, replies);
      assert o in t.replicaSet ==> (k == IndexOf(t.replicaSet, o) <==> t.replicaSet[k] == o);
    }
  }

  lemma IndexStep(t: Tally, n: nat, o: Operator, idx: nat)
    requires WellFormed(t) && idx <= n <= BUFFER_SIZE && idx < BUFFER_SIZE && IndexExact(t, n)
    requires forall i :: n <= i < BUFFER_SIZE ==> t.replicasPerResponse[i] == 0
    ensures IndexExact(Counted(t, o, idx), if idx == n then n + 1 else n)
  {
  }

  /** Counting a response keeps the tally exact, and a quorum once reached stays. */
  lemma TallyStep<R>(t: Tally, buf: seq<Option<R>>, n: nat, heard: set<Operator>, replies: map<Operator, R>,
                     o: Operator, idx: nat)
    requires Tallies(t, buf, n, heard, replies) && o in replies && o !in heard
    requires idx < BUFFER_SIZE && buf[idx] in {None, Some(replies[o])}
    requires forall i :: 0 <= i < idx ==> buf[i].Some? && buf[i] != Some(replies[o])
    ensures idx <= n
    ensures Tallies(Counted(t, o, idx), buf[idx := Some(replies[o])], if idx == n then n + 1 else n, heard + {o}, replies)
    ensures t.responseIdx.Some? ==> Counted(t, o, idx).responseIdx == t.responseIdx
  {
    SlotIndex(buf, n, replies[o], idx);
    BufferStep(buf, n, heard, replies, o, idx);
    CountsStepAll(t, buf, n, heard, replies, o, idx);
    ResponsesStepAll(t, buf, n, heard, replies, o, idx);
    if t.responseIdx.Some? {
      QuorumStays(t, buf, n, heard, replies, o, idx);
    }
    IndexStep(t, n, o, idx);
  }

  /** A quorum among the operators heard so far is a quorum among all of them. */
  lemma QuorumIsAgreed<R>(t: Tally, buf: seq<Option<R>>, n: nat, heard: set<Operator>, replies: map<Operator, R>)
    requires Tallies(t, buf, n, heard, replies) && t.responseIdx.Some?
    ensures buf[t.responseIdx.value].Some? && Agreed(t.replicaSet, replies, buf[t.responseIdx.value].value)
  {
    var r := buf[t.responseIdx.value].value;
    SubsetSize(Voters(t.replicaSet, heard, replies, r), Voters(t.replicaSet, replies.Keys, replies, r));
  }

  // ---------------------------------------------------------------------
  // The response loop
  // ---------------------------------------------------------------------

  function Contacted(primary: seq<Operator>, secondary: Option<seq<Operator>>): seq<Operator> {
    primary + if secondary.Some? then Without(secondary.value, primary) else []
  }

  /** An operator in both replica sets is asked once, and no more than ten are asked. */
  lemma ContactedOnce(primary: seq<Operator>, secondary: Option<seq<Operator>>)
    requires IsReplicaSet(primary) && (secondary.Some? ==> IsReplicaSet(secondary.value))
    ensures Distinct(Contacted(primary, secondary)) && |Contacted(primary, secondary)| <= BUFFER_SIZE
    ensures Members(Contacted(primary, secondary)) ==
            Members(primary) + if secondary.Some? then Members(secondary.value) else {}
  {
    if secondary.Some? {
      AtMostAll(secondary.value, primary);
      DisjointConcat(primary, Without(secondary.value, primary));
    } else {
      assert primary + [] == primary;
    }
  }

  lemma AtMostAll(a: seq<Operator>, b: seq<Operator>)
    requires Distinct(a)
    ensures |Without(a, b)| <= |a|
  {
  }

  lemma DisjointConcat(a: seq<Operator>, b: seq<Operator>)
    requires Distinct(a) && Distinct(b) && forall o :: o in b ==> o !in a
    ensures Distinct(a + b) && Members(a + b) == Members(a) + Members(b)
  {
    forall i, j | 0 <= i < j < |a + b| ensures (a + b)[i] != (a + b)[j] {
      if j >= |a| {
        assert (a + b)[j] == b[j - |a|] && b[j - |a|] in b;
      }
    }
  }

  /** The operators of `order` are the contacted ones, each once, in any order. */
  ghost predicate IsArrival<R>(order: seq<Operator>, primary: seq<Operator>, secondary: Option<seq<Operator>>,
                               replies: map<Operator, R>)
  {
    && Distinct(order)
    && Members(order) == replies.Keys == Members(Contacted(primary, secondary))
  }

  lemma HeardStep(order: seq<Operator>, i: nat)
    requires Distinct(order) && i < |order|
    ensures order[i] !in Members(order[..i]) && Members(order[..i + 1]) == Members(order[..i]) + {order[i]}
  {
  }

  /** The decision the loop takes after a response; the outer `None` is to go on. */
  function Decision(primary: Option<nat>, secondary: Option<nat>, shadowed: bool): Option<Option<nat>> {
    match primary
    case None => None
    case Some(a) =>
      if !shadowed then Some(Some(a))
      else match secondary
        case None => None
        case Some(b) => Some(if a == b then Some(a) else None)
  }

  /** Whatever the loop decides after any number of responses is right for all of them. */
  lemma DecisionIsOutcome<R>(p: Tally, s: Option<Tally>, buf: seq<Option<R>>, n: nat, heard: set<Operator>,
                             replies: map<Operator, R>)
    requires Tallies(p, buf, n, heard, replies)
    requires s.Some? ==> Tallies(s.value, buf, n, heard, replies)
    requires Decision(p.responseIdx, if s.Some? then s.value.responseIdx else None, s.Some?).Some?
    ensures
      var idx := Decision(p.responseIdx, if s.Some? then s.value.responseIdx else None, s.Some?).value;
      IsOutcome(if idx.Some? then buf[idx.value] else None, p.replicaSet,
                if s.Some? then Some(s.value.replicaSet) else None, replies)
  {
    QuorumIsAgreed(p, buf, n, heard, replies);
    if s.Some? {
      QuorumIsAgreed(s.value, buf, n, heard, replies);
      var a, b := buf[p.responseIdx.value].value, buf[s.value.responseIdx.value].value;
      if p.responseIdx != s.value.responseIdx {
        forall o | o in replies
          ensures !AgreedByAll(p.replicaSet, Some(s.value.replicaSet), replies, replies[o])
        {
          if replies[o] != a {
            MajorityUnique(p.replicaSet, replies.Keys, replies, a, replies[o]);
          } else {
            MajorityUnique(s.value.replicaSet, replies.Keys, replies, b, replies[o]);
          }
        }
      }
    }
  }

  /** With every response in and no decision taken, no answer is agreed. */
  lemma ExhaustionIsOutcome<R>(p: Tally, s: Option<Tally>, buf: seq<Option<R>>, n: nat, replies: map<Operator, R>)
    requires Tallies(p, buf, n, replies.Keys, replies)
    requires s.Some? ==> Tallies(s.value, buf, n, replies.Keys, replies)
    requires Decision(p.responseIdx, if s.Some? then s.value.responseIdx else None, s.Some?).None?
    ensures IsOutcome(None, p.replicaSet, if s.Some? then Some(s.value.replicaSet) else None, replies)
  {
  }

  ghost predicate AllTally<R>(p: Tally, s: Option<Tally>, buf: seq<Option<R>>, n: nat, heard: set<Operator>,
                              replies: map<Operator, R>) {
    Tallies(p, buf, n, heard, replies) && (s.Some? ==> Tallies(s.value, buf, n, heard, replies))
  }

  /** The response buffer with the tallies of the primary and, for shadowed writes, the secondary replica set. */
  datatype Collected<R> = Collected(buf: seq<Option<R>>, primary: Tally, secondary: Option<Tally>) {
    predicate Valid() {
      && |buf| == BUFFER_SIZE && WellFormed(primary)
      && (secondary.Some? ==> WellFormed(secondary.value))
    }

    /** The replica sets being counted. */
    function Sets(): (seq<Operator>, Option<seq<Operator>>) {
      (primary.replicaSet, if secondary.Some? then Some(secondary.value.replicaSet) else None)
    }
  }

  ghost predicate Exact<R>(c: Collected<R>, n: nat, heard: set<Operator>, replies: map<Operator, R>) {
    && c.Valid()
    && AllTally(c.primary, c.secondary, c.buf, n, heard, replies)
  }

  function Take<R(==)>(c: Collected<R>, o: Operator, r: R): (c': Collected<R>)
    requires c.Valid()
    ensures c'.Valid() && c'.Sets() == c.Sets()
  {
    var idx := Slot(c.buf, r);
    if idx == BUFFER_SIZE then c
    else Collected(c.buf[idx := Some(r)], Counted(c.primary, o, idx),
                   if c.secondary.Some? then Some(Counted(c.secondary.value, o, idx)) else None)
  }

  /** What has been collected once the operators of `order` have responded. */
  function After<R(==)>(c: Collected<R>, order: seq<Operator>, replies: map<Operator, R>): (c': Collected<R>)
    requires c.Valid() && forall o :: o in order ==> o in replies
    ensures c'.Valid() && c'.Sets() == c.Sets()
    decreases |order|
  {
    if order == [] then c
    else
      var last := |order| - 1;
      Take(After(c, order[..last], replies), order[last], replies[order[last]])
  }

  lemma TakeExact<R>(c: Collected<R>, n: nat, heard: set<Operator>, replies: map<Operator, R>,
                     o: Operator) returns (n': nat)
    requires Exact(c, n, heard, replies)
    requires o in replies && o !in heard && |replies.Keys| <= BUFFER_SIZE
    ensures Exact(Take(c, o, replies[o]), n', heard + {o}, replies)
    ensures Slot(c.buf, replies[o]) < BUFFER_SIZE
    ensures c.primary.responseIdx.Some? ==> Take(c, o, replies[o]).primary.responseIdx == c.primary.responseIdx
    ensures c.secondary.Some? && c.secondary.value.responseIdx.Some? ==>
              Take(c, o, replies[o]).secondary.value.responseIdx == c.secondary.value.responseIdx
  {
    BufferNeverOverflows(c.buf, n, heard, replies, o);
    var idx := Slot(c.buf, replies[o]);
    n' := if idx == n then n + 1 else n;
    TallyStep(c.primary, c.buf, n, heard, replies, o, idx);
    if c.secondary.Some? {
      TallyStep(c.secondary.value, c.buf, n, heard, replies, o, idx);
    }
  }

  function Start<R(==)>(primary: seq<Operator>, secondary: Option<seq<Operator>>): (c: Collected<R>)
    requires IsReplicaSet(primary) && (secondary.Some? ==> IsReplicaSet(secondary.value))
    ensures c.Valid() && c.Sets() == (primary, secondary)
  {
    Collected(seq(BUFFER_SIZE, _ => None), NewTally(primary),
              if secondary.Some? then Some(NewTally(secondary.value)) else None)
  }

  ghost predicate ArrivesOnce<R>(order: seq<Operator>, replies: map<Operator, R>) {
    Distinct(order) && Members(order) <= replies.Keys && |replies.Keys| <= BUFFER_SIZE
  }

  lemma StartExact<R>(primary: seq<Operator>, secondary: Option<seq<Operator>>, replies: map<Operator, R>)
    requires IsReplicaSet(primary) && (secondary.Some? ==> IsReplicaSet(secondary.value))
    ensures Exact(Start(primary, secondary), 0, {}, replies)
  {
  }

  /** What holds at the start and is kept by every response holds after any of them, in any order. */
  lemma {:induction false} AfterKeeps<R(!new)>(holds: (Collected<R>, set<Operator>) -> bool, c: Collected<R>,
                                               order: seq<Operator>,
                                               replies: map<Operator, R>)
    requires c.Valid() && Distinct(order) && forall o :: o in order ==> o in replies
    requires holds(c, {})
    requires forall c, heard, o :: holds(c, heard) && c.Valid() && o in replies && o !in heard ==>
               holds(Take(c, o, replies[o]), heard + {o})
    ensures holds(After(c, order, replies), Members(order))
    decreases |order|
  {
    if order == [] {
      assert Members(order) == {};
    } else {
      var last := |order| - 1;
      HeardStep(order, last);
      assert order[..last + 1] == order;
      AfterKeeps(holds, c, order[..last], replies);
    }
  }

  ghost function ExactFor<R>(replies: map<Operator, R>): (Collected<R>, set<Operator>) -> bool {
    (c, heard) => exists n: nat :: Exact(c, n, heard, replies)
  }

  lemma ExactStep<R>(c: Collected<R>, heard: set<Operator>, o: Operator, replies: map<Operator, R>)
    requires ExactFor(replies)(c, heard) && c.Valid() && o in replies && o !in heard && |replies.Keys| <= BUFFER_SIZE
    ensures ExactFor(replies)(Take(c, o, replies[o]), heard + {o})
  {
    var n: nat :| Exact(c, n, heard, replies);
    var n' := TakeExact(c, n, heard, replies, o);
  }

  /** Every tally stays exact through any number of responses in any order. */
  lemma AfterExact<R(!new)>(primary: seq<Operator>, secondary: Option<seq<Operator>>, order: seq<Operator>,
                            replies: map<Operator, R>)
    returns (n: nat)
    requires IsReplicaSet(primary) && (secondary.Some? ==> IsReplicaSet(secondary.value))
    requires ArrivesOnce(order, replies)
    ensures Exact(After(Start(primary, secondary), order, replies), n, Members(order), replies)
  {
    forall o | o in order ensures o in replies {
      assert o in Members(order);
    }
    assert ExactFor(replies)(Start(primary, secondary), {}) by {
      StartExact(primary, secondary, replies);
    }
    forall c: Collected<R>, heard, o | ExactFor(replies)(c, heard) && c.Valid() && o in replies && o !in heard
      ensures ExactFor(replies)(Take(c, o, replies[o]), heard + {o})
    {
      ExactStep(c, heard, o, replies);
    }
    AfterKeeps(ExactFor(replies), Start(primary, secondary), order, replies);
    n :| Exact(After(Start(primary, secondary), order, replies), n, Members(order), replies);
  }

  // ---------------------------------------------------------------------
  // The loop over the live objects
  // ---------------------------------------------------------------------

  ghost function Footprint(q: Quorum?): set<object> {
    if q == null then {} else {q, q.replicaResponses, q.replicasPerResponse}
  }

  ghost function State<R>(responses: array<Option<R>>, primary: Quorum, secondary: Quorum?): Collected<R>
    reads responses, primary, primary.replicaResponses, primary.replicasPerResponse,
          secondary, if secondary != null then {secondary.replicaResponses, secondary.replicasPerResponse} else {}
  {
    Collected(responses[..], primary.Value(), if secondary == null then None else Some(secondary.Value()))
  }

  function DecisionOf<R>(c: Collected<R>): Option<Option<nat>> {
    Decision(c.primary.responseIdx, if c.secondary.Some? then c.secondary.value.responseIdx else None, c.secondary.Some?)
  }

  function Answer<R>(c: Collected<R>, idx: Option<nat>): Option<R>
    requires c.Valid()
  {
    if idx.Some? && idx.value < BUFFER_SIZE then c.buf[idx.value] else None
  }

  lemma EarlyIsOutcome<R>(c: Collected<R>, n: nat, heard: set<Operator>, replies: map<Operator, R>)
    requires Exact(c, n, heard, replies) && DecisionOf(c).Some?
    ensures IsOutcome(Answer(c, DecisionOf(c).value), c.Sets().0, c.Sets().1, replies)
  {
    DecisionIsOutcome(c.primary, c.secondary, c.buf, n, heard, replies);
  }

  lemma LastIsOutcome<R>(c: Collected<R>, n: nat, replies: map<Operator, R>)
    requires Exact(c, n, replies.Keys, replies) && DecisionOf(c).None?
    ensures IsOutcome(None, c.Sets().0, c.Sets().1, replies)
  {
    ExhaustionIsOutcome(c.primary, c.secondary, c.buf, n, replies);
  }

  /** A decision taken after some of the responses, or after all of them, is right for all of them. */
  lemma DecidedIsOutcome<R(!new)>(primary: seq<Operator>, secondary: Option<seq<Operator>>, order: seq<Operator>,
                                  received: nat, replies: map<Operator, R>)
    requires IsReplicaSet(primary) && (secondary.Some? ==> IsReplicaSet(secondary.value))
    requires ArrivesOnce(order, replies) && Members(order) == replies.Keys && received <= |order|
    ensures
      var c := After(Start(primary, secondary), order[..received], replies);
      && (DecisionOf(c).Some? ==> IsOutcome(Answer(c, DecisionOf(c).value), primary, secondary, replies))
      && (DecisionOf(c).None? && received == |order| ==> IsOutcome(None, primary, secondary, replies))
  {
    var c := After(Start(primary, secondary), order[..received], replies);
    assert Members(order[..received]) <= Members(order);
    var n := AfterExact(primary, secondary, order[..received], replies);
    if DecisionOf(c).Some? {
      EarlyIsOutcome(c, n, Members(order[..received]), replies);
    } else if received == |order| {
      assert order[..received] == order;
      LastIsOutcome(c, n, replies);
    }
  }

  lemma ResponseFinds<R(!new)>(primary: seq<Operator>, secondary: Option<seq<Operator>>, order: seq<Operator>,
                               received: nat,
                         replies: map<Operator, R>)
    requires IsReplicaSet(primary) && (secondary.Some? ==> IsReplicaSet(secondary.value))
    requires ArrivesOnce(order, replies) && received < |order| && order[received] in replies
    requires forall o :: o in order[..received] ==> o in replies
    ensures Slot(After(Start(primary, secondary), order[..received], replies).buf, replies[order[received]]) < BUFFER_SIZE
  {
    assert Members(order[..received]) <= Members(order);
    HeardStep(order, received);
    var n := AfterExact(primary, secondary, order[..received], replies);
    var n' := TakeExact(After(Start(primary, secondary), order[..received], replies), n, Members(order[..received]), replies, order[received]);
  }

  /** One response taken in by the buffer and by every tally; `stored` is false where the source panics. */
  method Receive<R(==)>(primary: Quorum, secondary: Quorum?, responses: array<Option<R>>, o: Operator, response: R,
                        ghost c: Collected<R>)
    returns (stored: bool, decision: Option<Option<nat>>)
    requires Footprint(primary) !! Footprint(secondary) !! {responses as object}
    requires c.Valid() && State(responses, primary, secondary) == c
    modifies Footprint(primary), Footprint(secondary), responses
    ensures stored <==> Slot(c.buf, response) < BUFFER_SIZE
    ensures State(responses, primary, secondary) == Take(c, o, response)
    ensures stored ==> decision == DecisionOf(Take(c, o, response))
  {
    decision := None;
    var idx := ReceiveResponse(responses, response);
    stored := idx.Some?;
    if stored {
      SlotUnique(c.buf, response, idx.value);
      var primaryIdx := primary.ResponseReceived(o, idx.value);
      var secondaryIdx := None;
      if secondary != null {
        secondaryIdx := secondary.ResponseReceived(o, idx.value);
      }
      decision := Decision(primaryIdx, secondaryIdx, secondary != null);
    }
  }

  lemma AfterNext<R>(c: Collected<R>, order: seq<Operator>, i: nat, replies: map<Operator, R>)
    requires c.Valid() && i < |order| && forall o :: o in order ==> o in replies
    ensures After(c, order[..i + 1], replies) == Take(After(c, order[..i], replies), order[i], replies[order[i]])
  {
    assert order[..i + 1][..i] == order[..i] && order[..i + 1][i] == order[i];
  }

  /**
   The response loop: takes responses in `order` until the tallies settle the
   answer, or until there are none left.
   */
  method Collect<R(==,!new)>(primary: Quorum, secondary: Quorum?, responses: array<Option<R>>,
                        order: seq<Operator>, replies: map<Operator, R>)
    returns (idx: Option<nat>, received: nat)
    requires Footprint(primary) !! Footprint(secondary) !! {responses as object}
    requires IsReplicaSet(primary.replicaSet) && (secondary != null ==> IsReplicaSet(secondary.replicaSet))
    requires State(responses, primary, secondary) ==
             Start(primary.replicaSet, if secondary != null then Some(secondary.replicaSet) else None)
    requires ArrivesOnce(order, replies) && Members(order) == replies.Keys
    modifies Footprint(primary), Footprint(secondary), responses
    ensures received <= |order| && forall o :: o in order[..received] ==> o in replies
    ensures State(responses, primary, secondary) ==
            After(old(State(responses, primary, secondary)), order[..received], replies)
    ensures match DecisionOf(State(responses, primary, secondary))
            case Some(decided) => idx == decided
            case None => idx == None && received == |order|
  {
    ghost var first, second := primary.replicaSet, if secondary != null then Some(secondary.replicaSet) else None;
    ghost var start := Start(first, second);
    ghost var c := start;
    forall o | o in order ensures o in replies {
      assert o in Members(order);
    }
    received := 0;
    while received < |order|
      invariant received <= |order|
      invariant c.Valid() && State(responses, primary, secondary) == c
      invariant c == After(start, order[..received], replies)
      invariant DecisionOf(c).None?
    {
      var o := order[received];
      ResponseFinds(first, second, order, received, replies);
      AfterNext(start, order, received, replies);
      var stored, decision := Receive(primary, secondary, responses, o, replies[o], c);
      assert stored;
      c := Take(c, o, replies[o]);
      received := received + 1;
      if decision.Some? {
        return decision.value, received;
      }
    }
    return None, received;
  }
}
