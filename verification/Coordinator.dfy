/** A replicated operation from the requests to its answer and its repairs. */
module Coordinator {
  import opened Wrappers
  import opened Sets
  import opened Bytes
  import opened ReplicaSets
  import opened Quorums
  import opened Storage
  import opened Database
  import Context
  import Reconciliation
  import ReadRepair

  const INTERNAL_ERROR: Response := Err(Error(Internal, None))

  /** Only writes are shadowed to the replica set of the next keyspace. */
  function Shadow(operation: Operation, secondary: Option<seq<Operator>>): Option<seq<Operator>> {
    if operation.IsWrite() then secondary else None
  }

  // ---------------------------------------------------------------------
  // The weights of reconciliation are counts of replicas
  // ---------------------------------------------------------------------

  lemma {:induction false} CountIsVoters(replicas: seq<Operator>, replies: map<Operator, Response>, r: Response)
    requires Distinct(replicas) && forall o :: o in replicas ==> o in replies
    ensures Reconciliation.Count(replicas, replies, r) == |Voters(replicas, replies.Keys, replies, r)|
    decreases |replicas|
  {
    if replicas == [] {
      assert Voters(replicas, replies.Keys, replies, r) == {};
    } else {
      var last := |replicas| - 1;
      CountIsVoters(replicas[..last], replies, r);
      assert replicas == replicas[..last] + [replicas[last]];
      var fewer := Voters(replicas[..last], replies.Keys, replies, r);
      assert Voters(replicas, replies.Keys, replies, r) ==
             fewer + if replies[replicas[last]] == r then {replicas[last]} else {};
    }
  }

  lemma TallyWeights(t: Tally, buf: seq<Option<Response>>, n: nat, replies: map<Operator, Response>)
    requires Tallies(t, buf, n, replies.Keys, replies) && replies.Keys == Members(t.replicaSet)
    ensures n <= RF
    ensures t.replicasPerResponse[..RF] == Reconciliation.Weights(buf[..RF], t.replicaSet, replies)
  {
    DistinctSize(t.replicaSet);
    forall i | 0 <= i < RF
      ensures t.replicasPerResponse[i] == Reconciliation.Weights(buf[..RF], t.replicaSet, replies)[i]
    {
      if i < n {
        CountIsVoters(t.replicaSet, replies, buf[i].value);
      }
    }
  }

  /** Sums by weight over the first slots are sums over the replicas. */
  ghost predicate SameSums(responses: seq<Option<Response>>, weights: seq<nat>, replicas: seq<Operator>,
                           replies: map<Operator, Response>) {
    && |responses| == |weights| && (forall o :: o in replicas ==> o in replies)
    && forall f: Response -> nat ::
         Reconciliation.Weight(responses, weights, f) == Reconciliation.Reported(replicas, replies, f)
  }

  lemma WeightedSums(t: Tally, buf: seq<Option<Response>>, n: nat, replies: map<Operator, Response>)
    requires Tallies(t, buf, n, replies.Keys, replies) && replies.Keys == Members(t.replicaSet)
    ensures SameSums(buf[..RF], t.replicasPerResponse[..RF], t.replicaSet, replies)
  {
    TallyWeights(t, buf, n, replies);
    forall o | o in t.replicaSet ensures o in replies && Some(replies[o]) in buf[..RF] {
      assert o in Members(t.replicaSet);
      assert Some(replies[o]) in buf[..n];
    }
    forall f: Response -> nat
      ensures Reconciliation.Weight(buf[..RF], t.replicasPerResponse[..RF], f) ==
              Reconciliation.Reported(t.replicaSet, replies, f)
    {
      Reconciliation.WeightIsReported(buf[..RF], t.replicaSet, replies, f);
    }
  }

  // ---------------------------------------------------------------------
  // The answer
  // ---------------------------------------------------------------------

  /** The answer when no response has the majority it needs. */
  ghost predicate IsFallback(operation: Operation, replicas: seq<Operator>, replies: map<Operator, Response>,
                             answer: Response)
    requires forall o :: o in replicas ==> o in replies
  {
    if operation.HScan? && Reconciliation.Reported(replicas, replies, Reconciliation.IsPage()) >= MAJORITY then
      && answer.Ok? && answer.value.PageOutput?
      && Reconciliation.IsMajorityPage(answer.value.page, Reconciliation.ReportedEntry(replicas, replies),
                                       Reconciliation.Reported(replicas, replies, Reconciliation.HasNext()))
    else if operation.HCard? &&
            Reconciliation.Reported(replicas, replies, Reconciliation.IsCardinality(Reconciliation.Any())) >= MAJORITY then
      && answer.Ok? && answer.value.CardinalityOutput?
      && Reconciliation.IsMedian(answer.value.cardinality, Reconciliation.ReportedCardinality(replicas, replies))
    else
      answer == INTERNAL_ERROR
  }

  ghost predicate IsAnswer(operation: Operation, primary: seq<Operator>, secondary: Option<seq<Operator>>,
                           replies: map<Operator, Response>, answer: Response)
    requires forall o :: o in primary ==> o in replies
  {
    || IsOutcome(Some(answer), primary, Shadow(operation, secondary), replies)
    || (IsOutcome(None, primary, Shadow(operation, secondary), replies) &&
        IsFallback(operation, primary, replies, answer))
  }

  /** Reconciling the buffer by weight is reconciling the replies. */
  lemma ReconciledIsFallback(operation: Operation, responses: seq<Option<Response>>, weights: seq<nat>,
                             replicas: seq<Operator>, replies: map<Operator, Response>, output: Option<Output>)
    requires SameSums(responses, weights, replicas, replies)
    requires Reconciliation.IsReconciled(operation, responses, weights, output)
    ensures IsFallback(operation, replicas, replies, if output.Some? then Ok(output.value) else INTERNAL_ERROR)
  {
  }

  lemma FinalTally(primary: seq<Operator>, secondary: Option<seq<Operator>>, order: seq<Operator>, received: nat,
                   replies: map<Operator, Response>)
    returns (n: nat)
    requires IsReplicaSet(primary) && (secondary.Some? ==> IsReplicaSet(secondary.value))
    requires ArrivesOnce(order, replies) && received <= |order|
    requires forall o :: o in order[..received] ==> o in replies
    ensures
      var t := After(Start(primary, secondary), order[..received], replies);
      Tallies(t.primary, t.buf, n, Members(order[..received]), replies) && ReadRepair.InRange(t.primary)
  {
    assert Members(order[..received]) <= Members(order);
    n := AfterExact(primary, secondary, order[..received], replies);
    var t := After(Start(primary, secondary), order[..received], replies).primary;
    forall k | 0 <= k < RF && t.replicaResponses[k].Some? ensures t.replicaResponses[k].value < BUFFER_SIZE {
      assert ResponseExact(t.replicaSet[k], t.replicaResponses[k], After(Start(primary, secondary), order[..received], replies).buf,
                           n, Members(order[..received]), replies);
    }
  }

  /** Takes in the responses that were not needed for the answer, to repair their replicas too. */
  method CompleteReplication(repair: ReadRepair.Repair, primary: seq<Operator>, order: seq<Operator>, received: nat,
                             replies: map<Operator, Response>)
    requires IsReplicaSet(primary) && Distinct(order) && received <= |order|
    requires Members(order) == replies.Keys == Members(primary)
    requires Agreed(primary, replies, Ok(repair.output))
    requires Members(order[..received]) <= replies.Keys
    requires ReadRepair.Lists(repair.targets[..],
                              ReadRepair.Dissenters(primary, Members(order[..received]), replies, repair.output))
    modifies repair.targets
    ensures ReadRepair.Lists(repair.targets[..], ReadRepair.Dissenters(primary, replies.Keys, replies, repair.output))
  {
    var i := received;
    while i < |order|
      invariant received <= i <= |order|
      invariant Members(order[..i]) <= Members(order)
      invariant ReadRepair.Lists(repair.targets[..],
                                 ReadRepair.Dissenters(primary, Members(order[..i]), replies, repair.output))
    {
      HeardStep(order, i);
      var o := order[i];
      assert o in Members(order) && o in Members(primary);
      ReadRepair.CheckedLists(repair.targets[..], primary, Members(order[..i]), o, replies, repair.output);
      repair.CheckResponse(o, replies[o]);
      i := i + 1;
    }
    assert order[..i] == order;
  }

  /** Sends the repair, if there is one, to every target. */
  method RepairsOf(repair: ReadRepair.Repair) returns (repairs: map<Operator, Operation>)
    ensures repairs == match ReadRepair.RepairOperation(repair.operation, repair.output)
                       case Some(op) => map o | o in ReadRepair.Names(repair.targets[..]) :: op
                       case None => map[]
  {
    match ReadRepair.RepairOperation(repair.operation, repair.output) {
      case Some(op) => return map o | o in ReadRepair.Names(repair.targets[..]) :: op;
      case None => return map[];
    }
  }

  /** The repairs that should follow an answer, told from the replies alone. */
  function Repairs(operation: Operation, primary: seq<Operator>, replies: map<Operator, Response>,
                   answer: Response): map<Operator, Operation> {
    if ReadRepair.IsRepairable(operation) && answer.Ok? && Agreed(primary, replies, answer) &&
       ReadRepair.RepairOperation(operation, answer.value).Some?
    then map o | o in ReadRepair.Dissenters(primary, replies.Keys, replies, answer.value) ::
           ReadRepair.RepairOperation(operation, answer.value).value
    else map[]
  }

  /** What is known once the response loop ends with `idx` after `received` responses. */
  ghost predicate Ended(primary: seq<Operator>, shadow: Option<seq<Operator>>, order: seq<Operator>, received: nat,
                        replies: map<Operator, Response>, c: Collected<Response>, idx: Option<nat>)
  {
    && IsReplicaSet(primary) && (shadow.Some? ==> IsReplicaSet(shadow.value))
    && ArrivesOnce(order, replies) && Members(order) == replies.Keys == Members(Contacted(primary, shadow))
    && received <= |order| && (forall o :: o in order[..received] ==> o in replies)
    && c == After(Start(primary, shadow), order[..received], replies)
    && (match DecisionOf(c)
        case Some(decided) => idx == decided
        case None => idx == None && received == |order|)
    && IsOutcome(Answer(c, idx), primary, shadow, replies)
  }

  lemma ArrivalIsOnce(order: seq<Operator>, primary: seq<Operator>, shadow: Option<seq<Operator>>,
                      replies: map<Operator, Response>)
    requires IsReplicaSet(primary) && (shadow.Some? ==> IsReplicaSet(shadow.value))
    requires IsArrival(order, primary, shadow, replies)
    ensures ArrivesOnce(order, replies)
  {
    ContactedOnce(primary, shadow);
    DistinctSize(Contacted(primary, shadow));
  }

  method Prepare(primary: seq<Operator>, shadow: Option<seq<Operator>>)
    returns (quorum: Quorum, secondaryQuorum: Quorum?, responses: array<Option<Response>>)
    requires IsReplicaSet(primary) && (shadow.Some? ==> IsReplicaSet(shadow.value))
    ensures fresh(Footprint(quorum)) && fresh(Footprint(secondaryQuorum)) && fresh(responses)
    ensures Footprint(quorum) !! Footprint(secondaryQuorum) !! {responses as object}
    ensures quorum.replicaSet == primary
    ensures (if secondaryQuorum != null then Some(secondaryQuorum.replicaSet) else None) == shadow
    ensures State(responses, quorum, secondaryQuorum) == Start(primary, shadow)
  {
    quorum := new Quorum(primary);
    secondaryQuorum := null;
    if shadow.Some? {
      secondaryQuorum := new Quorum(shadow.value);
    }
    responses := new Option<Response>[BUFFER_SIZE](_ => None);
  }

  /** Sends the requests out and runs the response loop. */
  method Gather(primary: seq<Operator>, shadow: Option<seq<Operator>>, order: seq<Operator>,
                replies: map<Operator, Response>)
    returns (idx: Option<nat>, quorum: Quorum, responses: array<Option<Response>>, received: nat, ghost c: Collected<Response>)
    requires IsReplicaSet(primary) && (shadow.Some? ==> IsReplicaSet(shadow.value))
    requires IsArrival(order, primary, shadow, replies)
    ensures fresh(quorum) && fresh(responses) && fresh(quorum.replicaResponses) && fresh(quorum.replicasPerResponse)
    ensures quorum.Value() == c.primary && responses[..] == c.buf
    ensures Ended(primary, shadow, order, received, replies, c, idx)
    ensures c.Valid() && ReadRepair.InRange(c.primary)
  {
    ArrivalIsOnce(order, primary, shadow, replies);
    var secondaryQuorum;
    quorum, secondaryQuorum, responses := Prepare(primary, shadow);
    idx, received := Collect(quorum, secondaryQuorum, responses, order, replies);
    c := State(responses, quorum, secondaryQuorum);
    DecidedIsOutcome(primary, shadow, order, received, replies);
    DecidedAnswer(primary, shadow, order, received, replies, c, idx);
  }

  lemma DecidedAnswer(primary: seq<Operator>, shadow: Option<seq<Operator>>, order: seq<Operator>, received: nat,
                      replies: map<Operator, Response>, c: Collected<Response>, idx: Option<nat>)
    requires Ended(primary, shadow, order, received, replies, c, idx)
    ensures c.Valid() && ReadRepair.InRange(c.primary)
    ensures idx.Some? ==>
              && idx == c.primary.responseIdx && idx.value < BUFFER_SIZE && c.buf[idx.value].Some?
              && IsOutcome(Some(c.buf[idx.value].value), primary, shadow, replies)
    ensures shadow.None? ==> idx == c.primary.responseIdx
  {
    var n := FinalTally(primary, shadow, order, received, replies);
    if c.primary.responseIdx.Some? {
      QuorumIsAgreed(c.primary, c.buf, n, Members(order[..received]), replies);
    }
  }

  lemma FallbackAnswer(operation: Operation, primary: seq<Operator>, order: seq<Operator>,
                       replies: map<Operator, Response>,
                       c: Collected<Response>, output: Option<Output>)
    requires IsReplicaSet(primary) && ArrivesOnce(order, replies) && Members(order) == replies.Keys == Members(primary)
    requires (forall o :: o in order ==> o in replies) && (forall o :: o in primary ==> o in replies)
    requires c == After(Start(primary, None), order, replies)
    requires Reconciliation.IsReconciled(operation, c.buf[..RF], c.primary.replicasPerResponse[..RF], output)
    ensures IsFallback(operation, primary, replies, if output.Some? then Ok(output.value) else INTERNAL_ERROR)
  {
    var n := AfterExact(primary, None, order, replies);
    WeightedSums(c.primary, c.buf, n, replies);
    ReconciledIsFallback(operation, c.buf[..RF], c.primary.replicasPerResponse[..RF], primary, replies, output);
  }

  lemma EveryReplyHeard(primary: seq<Operator>, order: seq<Operator>, received: nat, replies: map<Operator, Response>,
                        c: Collected<Response>)
    requires Ended(primary, None, order, received, replies, c, None) && c.primary.responseIdx.None?
    ensures Members(order) == replies.Keys == Members(primary)
    ensures forall o :: o in order ==> o in replies
    ensures c == After(Start(primary, None), order, replies)
  {
    assert order[..|order|] == order;
    assert Contacted(primary, None) == primary;
  }

  /** The targets scheduled when the loop ends are the dissenters among the replicas heard so far. */
  lemma InitialRepair(primary: seq<Operator>, order: seq<Operator>, received: nat, replies: map<Operator, Response>,
                      c: Collected<Response>, idx: Option<nat>)
    requires Ended(primary, None, order, received, replies, c, idx)
    requires c.Valid() && ReadRepair.InRange(c.primary) && ReadRepair.QuorumOutput(c.primary, c.buf).Some?
    ensures
      var output := ReadRepair.QuorumOutput(c.primary, c.buf).value;
      && Members(order) == replies.Keys == Members(primary)
      && Members(order[..received]) <= replies.Keys
      && Agreed(primary, replies, Ok(output))
      && (idx.Some? && idx.value < BUFFER_SIZE ==> c.buf[idx.value] == Some(Ok(output)))
      && ReadRepair.Lists(ReadRepair.InitialTargets(c.primary, c.buf, RF),
                          ReadRepair.Dissenters(primary, Members(order[..received]), replies, output))
  {
    assert Contacted(primary, None) == primary;
    var n := FinalTally(primary, None, order, received, replies);
    ReadRepair.InitialTargetsDissent(c.primary, c.buf, n, Members(order[..received]), replies);
  }

  method AnswerFrom(operation: Operation, idx: Option<nat>, quorum: Quorum, responses: array<Option<Response>>,
                    ghost primary: seq<Operator>, ghost secondary: Option<seq<Operator>>, ghost order: seq<Operator>,
                    ghost received: nat, ghost replies: map<Operator, Response>, ghost c: Collected<Response>)
    returns (answer: Response)
    requires Ended(primary, Shadow(operation, secondary), order, received, replies, c, idx)
    requires c.Valid() && quorum.Value() == c.primary && responses[..] == c.buf
    requires forall o :: o in primary ==> o in replies
    ensures IsAnswer(operation, primary, secondary, replies, answer)
    ensures idx.Some? ==> idx.value < BUFFER_SIZE && c.buf[idx.value] == Some(answer)
  {
    DecidedAnswer(primary, Shadow(operation, secondary), order, received, replies, c, idx);
    if idx.Some? {
      answer := responses[idx.value].value;
    } else if operation.IsWrite() {
      answer := INTERNAL_ERROR;
    } else {
      var output := Reconciliation.Reconcile(operation, responses[..RF], quorum.replicasPerResponse[..RF]);
      EveryReplyHeard(primary, order, received, replies, c);
      FallbackAnswer(operation, primary, order, replies, c, output);
      answer := if output.Some? then Ok(output.value) else INTERNAL_ERROR;
    }
  }

  /** Without a quorum of the primary replicas, no answer is one to repair from. */
  lemma NothingToRepair(operation: Operation, primary: seq<Operator>, order: seq<Operator>, received: nat,
                        replies: map<Operator, Response>, c: Collected<Response>, idx: Option<nat>, answer: Response)
    requires Ended(primary, None, order, received, replies, c, idx)
    requires c.Valid() && ReadRepair.InRange(c.primary)
    requires ReadRepair.QuorumOutput(c.primary, c.buf).None?
    requires idx.Some? ==> idx.value < BUFFER_SIZE && c.buf[idx.value] == Some(answer)
    ensures Repairs(operation, primary, replies, answer) == map[]
  {
  }

  method RepairFrom(operation: Operation, answer: Response, idx: Option<nat>, quorum: Quorum,
                    responses: array<Option<Response>>,
                    primary: seq<Operator>, ghost secondary: Option<seq<Operator>>, order: seq<Operator>, received: nat,
                    replies: map<Operator, Response>, ghost c: Collected<Response>)
    returns (repairs: map<Operator, Operation>)
    requires Ended(primary, Shadow(operation, secondary), order, received, replies, c, idx)
    requires c.Valid() && ReadRepair.InRange(c.primary) && quorum.Value() == c.primary && responses[..] == c.buf
    requires idx.Some? ==> idx.value < BUFFER_SIZE && c.buf[idx.value] == Some(answer)
    ensures repairs == Repairs(operation, primary, replies, answer)
  {
    var repair := ReadRepair.New(operation, responses, quorum);
    if repair == null {
      if ReadRepair.IsRepairable(operation) {
        NothingToRepair(operation, primary, order, received, replies, c, idx, answer);
      }
      return map[];
    }
    InitialRepair(primary, order, received, replies, c, idx);
    CompleteReplication(repair, primary, order, received, replies);
    repairs := RepairsOf(repair);
    assert answer == Ok(repair.output) by {
      DecidedAnswer(primary, None, order, received, replies, c, idx);
    }
    TargetsAreRepairs(operation, primary, replies, repair.output, repair.targets[..]);
  }

  lemma TargetsAreRepairs(operation: Operation, primary: seq<Operator>, replies: map<Operator, Response>,
                          output: Output,
                          targets: ReadRepair.Targets)
    requires ReadRepair.IsRepairable(operation) && Agreed(primary, replies, Ok(output))
    requires ReadRepair.Lists(targets, ReadRepair.Dissenters(primary, replies.Keys, replies, output))
    ensures Repairs(operation, primary, replies, Ok(output)) ==
            match ReadRepair.RepairOperation(operation, output)
            case Some(op) => map o | o in ReadRepair.Names(targets) :: op
            case None => map[]
  {
  }

  /**
   Executes an operation on the replicas of its key. The answer and the repairs
   are functions of what the operators replied, not of the order in which they did.
   */
  method ExecuteCallback(operation: Operation, primary: seq<Operator>, secondary: Option<seq<Operator>>,
                         order: seq<Operator>, replies: map<Operator, Response>)
    returns (answer: Response, repairs: map<Operator, Operation>)
    requires IsReplicaSet(primary) && (secondary.Some? ==> IsReplicaSet(secondary.value))
    requires IsArrival(order, primary, Shadow(operation, secondary), replies)
    requires forall o :: o in primary ==> o in replies
    ensures IsAnswer(operation, primary, secondary, replies, answer)
    ensures repairs == Repairs(operation, primary, replies, answer)
  {
    var idx, quorum, responses, received, c := Gather(primary, Shadow(operation, secondary), order, replies);
    answer := AnswerFrom(operation, idx, quorum, responses, primary, secondary, order, received, replies, c);
    repairs := RepairFrom(operation, answer, idx, quorum, responses, primary, secondary, order, received, replies, c);
  }

  // ---------------------------------------------------------------------
  // Confluence
  // ---------------------------------------------------------------------

  lemma FallbacksAgree(operation: Operation, replicas: seq<Operator>, replies: map<Operator, Response>, a: Response,
                       b: Response)
    requires IsReplicaSet(replicas) && forall o :: o in replicas ==> o in replies
    requires operation.HScan? ==>
               forall o :: o in replicas ==> Reconciliation.UniqueFields(Reconciliation.EntriesOf(replies[o]))
    requires IsFallback(operation, replicas, replies, a) && IsFallback(operation, replicas, replies, b)
    ensures a == b
  {
    if operation.HScan? && Reconciliation.Reported(replicas, replies, Reconciliation.IsPage()) >= MAJORITY {
      var next := Reconciliation.Reported(replicas, replies, Reconciliation.HasNext());
      Reconciliation.PageIsMajority(a.value.page, replicas, replies, next);
      Reconciliation.PageIsMajority(b.value.page, replicas, replies, next);
      Reconciliation.AscendingUnique(a.value.page.entries, b.value.page.entries);
    } else if operation.HCard? &&
              Reconciliation.Reported(replicas, replies, Reconciliation.IsCardinality(Reconciliation.Any())) >= MAJORITY {
      Reconciliation.MedianUnique(a.value.cardinality, b.value.cardinality, replicas, replies);
    }
  }

  /** Any two arrival orders of the same replies give the same answer and the same repairs. */
  lemma AnswersAgree(operation: Operation, primary: seq<Operator>, secondary: Option<seq<Operator>>,
                     replies: map<Operator, Response>, a: Response, b: Response)
    requires IsReplicaSet(primary) && forall o :: o in primary ==> o in replies
    requires operation.HScan? ==>
               forall o :: o in primary ==> Reconciliation.UniqueFields(Reconciliation.EntriesOf(replies[o]))
    requires IsAnswer(operation, primary, secondary, replies, a) && IsAnswer(operation, primary, secondary, replies, b)
    ensures a == b && Repairs(operation, primary, replies, a) == Repairs(operation, primary, replies, b)
  {
    var shadow := Shadow(operation, secondary);
    if IsOutcome(Some(a), primary, shadow, replies) {
      AgreedExcludesNone(a, primary, shadow, replies);
      OutcomeUnique(Some(a), Some(b), primary, shadow, replies);
    } else {
      if IsOutcome(Some(b), primary, shadow, replies) {
        AgreedExcludesNone(b, primary, shadow, replies);
      } else {
        FallbacksAgree(operation, primary, replies, a, b);
      }
    }
  }

  /** The replicas that replied with a page, or with a cardinality. */
  function PageReplies(replicas: seq<Operator>, replies: map<Operator, Response>): set<Operator> {
    set o | o in replicas && o in replies && replies[o].Ok? && replies[o].value.PageOutput?
  }

  function CardinalityReplies(replicas: seq<Operator>, replies: map<Operator, Response>): set<Operator> {
    set o | o in replicas && o in replies && replies[o].Ok? && replies[o].value.CardinalityOutput?
  }

  /** Without agreement only a scan or a cardinality can be answered, if three replicas replied with one. */
  lemma FallbackExact(operation: Operation, replicas: seq<Operator>, replies: map<Operator, Response>, answer: Response)
    requires IsReplicaSet(replicas) && forall o :: o in replicas ==> o in replies
    requires IsFallback(operation, replicas, replies, answer)
    ensures answer.Ok? ==> operation.HScan? || operation.HCard?
    ensures operation.HScan? ==> (answer.Ok? <==> |PageReplies(replicas, replies)| >= MAJORITY)
    ensures operation.HScan? && answer.Ok? ==> answer.value.PageOutput?
    ensures operation.HCard? ==> (answer.Ok? <==> |CardinalityReplies(replicas, replies)| >= MAJORITY)
    ensures operation.HCard? && answer.Ok? ==> answer.value.CardinalityOutput?
    ensures answer.Err? ==> answer.error == Error(Internal, None)
  {
    Reconciliation.ReportedIsCount(replicas, replies, Reconciliation.IsPage());
    Reconciliation.ReportedIsCount(replicas, replies, Reconciliation.IsCardinality(Reconciliation.Any()));
    assert Reconciliation.Supporters(replicas, replies, Reconciliation.IsPage()) == PageReplies(replicas, replies);
    assert Reconciliation.Supporters(replicas, replies, Reconciliation.IsCardinality(Reconciliation.Any())) ==
           CardinalityReplies(replicas, replies);
  }

  /**
   Repairs go to exactly the replicas that replied Ok with something else than an
   agreed record, and write that record where it was read.
   */
  lemma RepairsExact(operation: Operation, primary: seq<Operator>, replies: map<Operator, Response>, answer: Response,
                     o: Operator)
    requires forall p :: p in primary ==> p in replies
    ensures
      var repairs := Repairs(operation, primary, replies, answer);
      && (o in repairs <==>
            && (operation.Get? || operation.HGet?)
            && answer.Ok? && answer.value.RecordOutput? && answer.value.record.Some?
            && |Voters(primary, replies.Keys, replies, answer)| >= MAJORITY
            && o in primary && replies[o].Ok? && replies[o] != answer)
      && (o in repairs ==>
            repairs[o] == if operation.Get? then Operation.Set(operation.key, answer.value.record.value)
                          else Operation.HSet(operation.key, MapEntry(operation.field, answer.value.record.value)))
  {
  }

  /** Whatever can change a replica is only acknowledged by a majority of each replica set. */
  lemma AcknowledgedByMajorities(operation: Operation, primary: seq<Operator>, secondary: Option<seq<Operator>>,
                                 replies: map<Operator, Response>, answer: Response)
    requires forall o :: o in primary ==> o in replies
    requires CanChange(operation) && IsAnswer(operation, primary, secondary, replies, answer) && answer.Ok?
    ensures |Voters(primary, replies.Keys, replies, answer)| >= MAJORITY
    ensures secondary.Some? ==> |Voters(secondary.value, replies.Keys, replies, answer)| >= MAJORITY
  {
    WritesAreWhatChanges(operation);
  }

  // ---------------------------------------------------------------------
  // What a repair does to the replicas
  // ---------------------------------------------------------------------

  predicate HoldsRecord(ctx: Context.DataContext, record: Record) {
    ctx.payload == Some(record.value) && ctx.expires == record.expiration && ctx.Version() == record.version
  }

  lemma {:induction false} MergedVersion(records: Records, writes: seq<(Address, Context.MergeOp)>, a: Address)
    ensures ContextAt(records, a).Version() <= ContextAt(Merged(records, writes), a).Version()
    decreases writes
  {
    if writes != [] {
      MergedVersion(MergedAt(records, writes[0].0, writes[0].1), writes[1..], a);
    }
  }

  /** A repair writes the quorum's record where the read looked, and nowhere else. */
  lemma RepairWrites(operation: Operation, record: Record, records: Records, now: Context.Secs)
    requires operation.Get? || operation.HGet?
    ensures
      var w := ReadRepair.RepairOperation(operation, RecordOutput(Some(record)));
      w.Some? && Executed(records, w.value, now) == MergedAt(records, AddressOf(operation), SetOperand(record))
  {
  }

  /**
   A replica that answered Ok ends with the quorum's record or a later one,
   whatever it merged between its answer and the repair: a record still behind
   becomes the quorum's, any other is left alone, and no other record changes.
   */
  lemma RepairNeverRegresses(operation: Operation, primary: seq<Operator>, replies: map<Operator, Response>,
                             replicas: map<Operator, Records>, clock: Operator -> Context.Secs, record: Record,
                             o: Operator, between: seq<(Address, Context.MergeOp)>, now: Context.Secs)
    requires operation.Get? || operation.HGet?
    requires forall p :: p in primary ==> p in replicas && p in replies
    requires forall p :: p in primary && replies[p].Ok? ==>
               replies[p].value == Replied(replicas[p], operation, clock(p))
    requires Agreed(primary, replies, Ok(RecordOutput(Some(record))))
    requires o in primary && replies[o].Ok?
    ensures
      var a := AddressOf(operation);
      var repairs := Repairs(operation, primary, replies, Ok(RecordOutput(Some(record))));
      var met := Merged(replicas[o], between);
      var after := if o in repairs then Executed(met, repairs[o], now) else met;
      && (ContextAt(replicas[o], a).Version() < record.version ==> o in repairs)
      && (if o in repairs && ContextAt(met, a).Version() < record.version then HoldsRecord(ContextAt(after, a), record)
          else ContextAt(after, a) == ContextAt(met, a))
      && record.version <= ContextAt(after, a).Version()
      && ContextAt(met, a).Version() <= ContextAt(after, a).Version()
      && (forall b :: b != a ==> ContextAt(after, b) == ContextAt(met, b))
  {
    RepairWrites(operation, record, Merged(replicas[o], between), now);
    MergedVersion(replicas[o], between, AddressOf(operation));
    if replies[o] == Ok(RecordOutput(Some(record))) {
      assert ContextAt(replicas[o], AddressOf(operation)).Version() == record.version;
    }
  }
}
