/** Bringing replicas that disagreed with a read quorum back in line. */
module ReadRepair {
  import opened Wrappers
  import opened Sets
  import opened ReplicaSets
  import opened Quorums
  import opened Storage

  const MAX_TARGETS: nat := RF - MAJORITY

  const NO_TARGETS: seq<Option<Operator>> := [None, None]

  predicate IsRepairable(operation: Operation) {
    operation.Get? || operation.HGet?
  }

  /** The write that gives a replica the record a read quorum returned. */
  function RepairOperation(operation: Operation, output: Output): Option<Operation> {
    match (operation, output)
    case (Get(key), RecordOutput(Some(record))) => Some(Operation.Set(key, record))
    case (HGet(key, field), RecordOutput(Some(record))) => Some(Operation.HSet(key, MapEntry(field, record)))
    case _ => None
  }

  /** The replicas heard so far that replied with a different output. */
  function Dissenters(replicas: seq<Operator>, heard: set<Operator>, replies: map<Operator, Response>,
                      output: Output): set<Operator>
    requires heard <= replies.Keys
  {
    set o | o in heard && o in replicas && replies[o].Ok? && replies[o].value != output
  }

  /** A quorum of five leaves room for two dissenters. */
  lemma FewDissenters(replicas: seq<Operator>, heard: set<Operator>, replies: map<Operator, Response>, output: Output)
    requires IsReplicaSet(replicas) && heard <= replies.Keys && Agreed(replicas, replies, Ok(output))
    ensures |Dissenters(replicas, heard, replies, output)| <= MAX_TARGETS
  {
    var agreeing := Voters(replicas, replies.Keys, replies, Ok(output));
    var dissenting := Dissenters(replicas, heard, replies, output);
    DistinctSize(replicas);
    SubsetSize(agreeing + dissenting, Members(replicas));
    assert agreeing !! dissenting;
  }

  type Targets = seq<Option<Operator>>

  function Names(targets: Targets): set<Operator> {
    if targets == [] then {} else (if targets[0].Some? then {targets[0].value} else {}) + Names(targets[1..])
  }

  function Filled(targets: Targets): (n: nat)
    ensures n <= |targets|
  {
    if targets == [] then 0 else (if targets[0].Some? then 1 else 0) + Filled(targets[1..])
  }

  /** The slots hold exactly the operators of `s`, each once. */
  predicate Lists(targets: Targets, s: set<Operator>) {
    |targets| == MAX_TARGETS && Names(targets) == s && Filled(targets) == |s|
  }

  /** The slots once `operator` has been put into the first free one, if any. */
  function Scheduled(targets: Targets, operator: Operator): (r: Targets)
    ensures |r| == |targets|
  {
    if targets == [] then []
    else if targets[0].None? then [Some(operator)] + targets[1..]
    else [targets[0]] + Scheduled(targets[1..], operator)
  }

  lemma {:induction false} ScheduledAt(targets: Targets, i: nat, operator: Operator)
    requires i <= |targets| && (forall k :: 0 <= k < i ==> targets[k].Some?) && (i < |targets| ==> targets[i].None?)
    ensures Scheduled(targets, operator) == if i < |targets| then targets[i := Some(operator)] else targets
  {
    if i > 0 {
      ScheduledAt(targets[1..], i - 1, operator);
      assert targets == [targets[0]] + targets[1..];
    }
  }

  lemma {:induction false} ScheduledNames(targets: Targets, o: Operator)
    requires Filled(targets) < |targets|
    ensures Names(Scheduled(targets, o)) == Names(targets) + {o}
    ensures Filled(Scheduled(targets, o)) == Filled(targets) + 1
  {
    if targets[0].None? {
      assert Scheduled(targets, o)[1..] == targets[1..];
    } else {
      ScheduledNames(targets[1..], o);
      assert Scheduled(targets, o)[1..] == Scheduled(targets[1..], o);
    }
  }

  /** Another dissenter finds a free slot, as long as there are no more than two. */
  lemma ScheduledLists(targets: Targets, s: set<Operator>, o: Operator)
    requires Lists(targets, s) && o !in s && |s + {o}| <= MAX_TARGETS
    ensures Lists(Scheduled(targets, o), s + {o})
  {
    ScheduledNames(targets, o);
  }

  function Checked(targets: Targets, operator: Operator, response: Response, output: Output): Targets {
    if response.Ok? && response.value != output then Scheduled(targets, operator) else targets
  }

  /** A late response keeps the targets exact. */
  lemma CheckedLists(targets: Targets, replicas: seq<Operator>, heard: set<Operator>, o: Operator,
                     replies: map<Operator, Response>, output: Output)
    requires IsReplicaSet(replicas) && heard <= replies.Keys && o in replies && o !in heard && o in replicas
    requires Agreed(replicas, replies, Ok(output))
    requires Lists(targets, Dissenters(replicas, heard, replies, output))
    ensures Lists(Checked(targets, o, replies[o], output), Dissenters(replicas, heard + {o}, replies, output))
  {
    var before, after := Dissenters(replicas, heard, replies, output), Dissenters(replicas, heard + {o}, replies, output);
    if replies[o].Ok? && replies[o].value != output {
      assert after == before + {o};
      FewDissenters(replicas, heard + {o}, replies, output);
      ScheduledLists(targets, before, o);
    } else {
      assert after == before;
    }
  }

  class Repair {
    const operation: Operation
    const output: Output
    const targets: array<Option<Operator>>

    constructor (operation: Operation, output: Output)
      ensures this.operation == operation && this.output == output
      ensures fresh(targets) && targets[..] == NO_TARGETS
    {
      this.operation := operation;
      this.output := output;
      targets := new Option<Operator>[MAX_TARGETS](_ => None);
    }

    method Schedule(operator: Operator)
      modifies targets
      ensures targets[..] == Scheduled(old(targets[..]), operator)
    {
      var i := 0;
      while i < targets.Length && targets[i].Some?
        invariant 0 <= i <= targets.Length && forall k :: 0 <= k < i ==> targets[k].Some?
      {
        i := i + 1;
      }
      ScheduledAt(targets[..], i, operator);
      if i < targets.Length {
        targets[i] := Some(operator);
      }
    }

    method CheckResponse(operator: Operator, response: Response)
      modifies targets
      ensures targets[..] == Checked(old(targets[..]), operator, response, output)
    {
      if response.Ok? && response.value != output {
        Schedule(operator);
      }
    }
  }

  /** The tally only points at slots of the buffer. */
  predicate InRange(t: Tally) {
    && WellFormed(t)
    && (t.responseIdx.Some? ==> t.responseIdx.value < BUFFER_SIZE)
    && forall k :: 0 <= k < RF && t.replicaResponses[k].Some? ==> t.replicaResponses[k].value < BUFFER_SIZE
  }

  /** Replica `k` replied with an output other than the quorum's. */
  predicate Differs(t: Tally, buf: seq<Option<Response>>, k: nat)
    requires InRange(t) && |buf| == BUFFER_SIZE && k < RF
  {
    && t.replicaResponses[k].Some?
    && t.replicaResponses[k] != t.responseIdx
    && buf[t.replicaResponses[k].value].Some?
    && buf[t.replicaResponses[k].value].value.Ok?
  }

  /** The slots once the first `k` replicas of the quorum have been looked at. */
  function InitialTargets(t: Tally, buf: seq<Option<Response>>, k: nat): Targets
    requires InRange(t) && |buf| == BUFFER_SIZE && k <= RF
  {
    if k == 0 then NO_TARGETS
    else
      var earlier := InitialTargets(t, buf, k - 1);
      if Differs(t, buf, k - 1) then Scheduled(earlier, t.replicaSet[k - 1]) else earlier
  }

  function QuorumOutput(t: Tally, buf: seq<Option<Response>>): Option<Output>
    requires InRange(t) && |buf| == BUFFER_SIZE
  {
    if t.responseIdx.Some? && buf[t.responseIdx.value].Some? && buf[t.responseIdx.value].value.Ok?
    then Some(buf[t.responseIdx.value].value.value) else None
  }

  /** Schedules a repair of the replicas that have already replied differently; `null` when there is nothing to repair from. */
  method New(operation: Operation, responses: array<Option<Response>>, quorum: Quorum) returns (repair: Repair?)
    requires InRange(quorum.Value()) && responses.Length == BUFFER_SIZE
    ensures repair != null <==> IsRepairable(operation) && QuorumOutput(quorum.Value(), responses[..]).Some?
    ensures repair != null ==>
            && fresh(repair) && fresh(repair.targets)
            && repair.operation == operation
            && Some(repair.output) == QuorumOutput(quorum.Value(), responses[..])
            && repair.targets[..] == InitialTargets(quorum.Value(), responses[..], RF)
  {
    if !IsRepairable(operation) || quorum.responseIdx.None? {
      return null;
    }
    var response := responses[quorum.responseIdx.value];
    if response.None? || response.value.Err? {
      return null;
    }
    repair := new Repair(operation, response.value.value);
    for k := 0 to RF
      invariant repair.targets[..] == InitialTargets(quorum.Value(), responses[..], k)
    {
      var idx := quorum.replicaResponses[k];
      if idx.Some? && idx != quorum.responseIdx && responses[idx.value].Some? && responses[idx.value].value.Ok? {
        repair.Schedule(quorum.replicaSet[k]);
      }
    }
  }

  ghost function HeardIn(replicas: seq<Operator>, k: nat, heard: set<Operator>): set<Operator>
    requires k <= |replicas|
  {
    heard * Members(replicas[..k])
  }

  lemma DiffersIsDissent(t: Tally, buf: seq<Option<Response>>, n: nat, heard: set<Operator>,
                         replies: map<Operator, Response>, k: nat)
    requires Tallies(t, buf, n, heard, replies) && k < RF && InRange(t) && QuorumOutput(t, buf).Some?
    ensures Differs(t, buf, k) <==>
            t.replicaSet[k] in heard && replies[t.replicaSet[k]].Ok? && replies[t.replicaSet[k]].value != QuorumOutput(t, buf).value
  {
  }

  lemma DissentersStep(replicas: seq<Operator>, heard: set<Operator>, replies: map<Operator, Response>, k: nat,
                       output: Output)
    requires IsReplicaSet(replicas) && heard <= replies.Keys && k < RF
    ensures
      var before := Dissenters(replicas, HeardIn(replicas, k, heard), replies, output);
      && replicas[k] !in before
      && Dissenters(replicas, HeardIn(replicas, k + 1, heard), replies, output) == before +
         if replicas[k] in heard && replies[replicas[k]].Ok? && replies[replicas[k]].value != output then {replicas[k]} else {}
  {
  }

  /** The initial targets are exactly the dissenters heard so far. */
  lemma {:induction false} InitialTargetsExact(t: Tally, buf: seq<Option<Response>>, n: nat, heard: set<Operator>,
                                               replies: map<Operator, Response>, k: nat)
    requires Tallies(t, buf, n, heard, replies) && k <= RF && InRange(t) && QuorumOutput(t, buf).Some?
    ensures Lists(InitialTargets(t, buf, k),
                  Dissenters(t.replicaSet, HeardIn(t.replicaSet, k, heard), replies, QuorumOutput(t, buf).value))
    decreases k
  {
    var output := QuorumOutput(t, buf).value;
    if k == 0 {
      assert Dissenters(t.replicaSet, HeardIn(t.replicaSet, 0, heard), replies, output) == {};
      assert NO_TARGETS[1..][1..] == [];
    } else {
      InitialTargetsExact(t, buf, n, heard, replies, k - 1);
      QuorumIsAgreed(t, buf, n, heard, replies);
      FewDissenters(t.replicaSet, HeardIn(t.replicaSet, k, heard), replies, output);
      DissentersStep(t.replicaSet, heard, replies, k - 1, output);
      DiffersIsDissent(t, buf, n, heard, replies, k - 1);
      if Differs(t, buf, k - 1) {
        ScheduledLists(InitialTargets(t, buf, k - 1),
                       Dissenters(t.replicaSet, HeardIn(t.replicaSet, k - 1, heard), replies, output), t.replicaSet[k - 1]);
      }
    }
  }

  lemma InitialTargetsDissent(t: Tally, buf: seq<Option<Response>>, n: nat, heard: set<Operator>,
                              replies: map<Operator, Response>)
    requires Tallies(t, buf, n, heard, replies) && InRange(t) && QuorumOutput(t, buf).Some?
    ensures Agreed(t.replicaSet, replies, Ok(QuorumOutput(t, buf).value))
    ensures Lists(InitialTargets(t, buf, RF), Dissenters(t.replicaSet, heard, replies, QuorumOutput(t, buf).value))
  {
    QuorumIsAgreed(t, buf, n, heard, replies);
    InitialTargetsExact(t, buf, n, heard, replies, RF);
    assert t.replicaSet[..RF] == t.replicaSet;
    var output := QuorumOutput(t, buf).value;
    assert Dissenters(t.replicaSet, HeardIn(t.replicaSet, RF, heard), replies, output)
        == Dissenters(t.replicaSet, heard, replies, output);
  }
}
