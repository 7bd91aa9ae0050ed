/** Splitting the space of `u64` positions into shards and choosing their replicas. */
module Sharding {
  import opened Wrappers
  import opened Bytes
  import opened Sets

  const MAX_POSITION: nat := 0xFFFF_FFFF_FFFF_FFFF
  const SHARDS: nat := 0x1_0000

  type Position = p: nat | p <= MAX_POSITION
  type ShardId = s: nat | s < SHARDS

  // ---------------------------------------------------------------------
  // Shard identifiers
  // ---------------------------------------------------------------------

  /** The shard of a position: its two most significant bytes. */
  function FromKey(key: Position): (s: ShardId)
    ensures s == key / 0x1_0000_0000_0000
  {
    PowersOf256();
    BeTruncate(key, 8, 6);
    SixBytes(key);
    FromBe(ToBe(key, 8)[..2])
  }

  lemma SixBytes(n: nat)
    ensures DivPow(n, 6) == n / 0x1_0000_0000_0000
  {
  }

  datatype RangeInclusive = RangeInclusive(start: Position, end: Position) {
    predicate Contains(key: Position) {
      start <= key <= end
    }
  }

  function KeyRange(s: ShardId): (r: RangeInclusive) {
    RangeInclusive(
      s * 0x1_0000_0000_0000,
      if s == 0xFFFF then MAX_POSITION else (s + 1) * 0x1_0000_0000_0000 - 1)
  }

  /** The ranges of all shards partition the positions, each going to its own shard. */
  lemma RangesPartition(key: Position, s: ShardId)
    ensures KeyRange(s).Contains(key) <==> FromKey(key) == s
  {
  }

  // ---------------------------------------------------------------------
  // Rendezvous selection
  // ---------------------------------------------------------------------

  type Node = nat
  type Hash = (Node, nat) -> nat

  /** Priority of nodes for a shard: by hash, ties by the node itself. */
  predicate Before(hash: Hash, shard: nat, a: Node, b: Node) {
    hash(a, shard) < hash(b, shard) || (hash(a, shard) == hash(b, shard) && a < b)
  }

  ghost predicate IsFirst(hash: Hash, shard: nat, nodes: set<Node>, first: Node) {
    first in nodes && forall n :: n in nodes && n != first ==> Before(hash, shard, first, n)
  }

  lemma {:induction false} FirstExists(hash: Hash, shard: nat, nodes: set<Node>) returns (first: Node)
    requires nodes != {}
    ensures IsFirst(hash, shard, nodes, first)
    decreases |nodes|
  {
    first :| first in nodes;
    if nodes != {first} {
      var other := FirstExists(hash, shard, nodes - {first});
      assert forall n :: n in nodes ==> n == first || n in nodes - {first};
      first := if Before(hash, shard, first, other) then first else other;
    }
  }

  /** The `rf` nodes of highest priority, in priority order. */
  ghost function Select(hash: Hash, shard: nat, nodes: set<Node>, rf: nat): (replicas: seq<Node>)
    requires rf <= |nodes|
    ensures |replicas| == rf
    ensures forall i :: 0 <= i < rf ==> replicas[i] in nodes
    ensures forall i, j :: 0 <= i < j < rf ==> Before(hash, shard, replicas[i], replicas[j])
    ensures forall n, i :: n in nodes && n !in replicas && 0 <= i < rf ==> Before(hash, shard, replicas[i], n)
    decreases rf
  {
    if rf == 0 then []
    else
      assert exists n :: IsFirst(hash, shard, nodes, n) by { var n := FirstExists(hash, shard, nodes); }
      var first :| IsFirst(hash, shard, nodes, first);
      [first] + Select(hash, shard, nodes - {first}, rf - 1)
  }

  lemma SelectFirst(hash: Hash, shard: nat, nodes: set<Node>, rf: nat, first: Node)
    requires 0 < rf <= |nodes| && IsFirst(hash, shard, nodes, first)
    ensures Select(hash, shard, nodes, rf) == [first] + Select(hash, shard, nodes - {first}, rf - 1)
  {
  }

  predicate InPriorityOrder(hash: Hash, shard: nat, queue: seq<Node>) {
    forall i, j :: 0 <= i < j < |queue| ==> Before(hash, shard, queue[i], queue[j])
  }

  lemma QueueIsDistinct(hash: Hash, shard: nat, queue: seq<Node>)
    requires InPriorityOrder(hash, shard, queue)
    ensures Distinct(queue)
  {
  }

  lemma HeadIsFirst(hash: Hash, shard: nat, queue: seq<Node>)
    requires InPriorityOrder(hash, shard, queue) && queue != []
    ensures IsFirst(hash, shard, Members(queue), queue[0])
    ensures Members(queue[1..]) == Members(queue) - {queue[0]}
  {
  }

  lemma PrefixStep(queue: seq<Node>, rf: nat)
    requires 0 < rf <= |queue|
    ensures queue[..rf] == [queue[0]] + queue[1..][..rf - 1]
  {
  }

  /** Whoever is selected has a lower hash than whoever is not, or the same hash and a lower number. */
  lemma SelectedAreLeast(hash: Hash, shard: nat, nodes: set<Node>, rf: nat, n: Node, other: Node)
    requires rf <= |nodes| && n in Select(hash, shard, nodes, rf)
    requires other in nodes && other !in Select(hash, shard, nodes, rf)
    ensures hash(n, shard) <= hash(other, shard)
    ensures hash(n, shard) == hash(other, shard) ==> n < other
  {
    var i :| 0 <= i < rf && Select(hash, shard, nodes, rf)[i] == n;
    assert Before(hash, shard, Select(hash, shard, nodes, rf)[i], other);
  }

  /** Any ordering of the nodes by priority starts with the selected replicas. */
  lemma {:induction false} OrderedPrefix(hash: Hash, shard: nat, queue: seq<Node>, rf: nat)
    requires InPriorityOrder(hash, shard, queue) && rf <= |queue|
    ensures |Members(queue)| == |queue|
    ensures queue[..rf] == Select(hash, shard, Members(queue), rf)
    decreases rf
  {
    QueueIsDistinct(hash, shard, queue);
    DistinctSize(queue);
    if rf > 0 {
      HeadIsFirst(hash, shard, queue);
      OrderedPrefix(hash, shard, queue[1..], rf - 1);
      SelectFirst(hash, shard, Members(queue), rf, queue[0]);
      PrefixStep(queue, rf);
    }
  }

  /** A replica chosen among more nodes is still chosen among fewer that include it. */
  lemma SelectionIsStable(hash: Hash, shard: nat, few: set<Node>, many: set<Node>, rf: nat, n: Node)
    requires few <= many && rf <= |few| && rf <= |many|
    requires n in few && n in Select(hash, shard, many, rf)
    ensures n in Select(hash, shard, few, rf)
  {
  }

  /** Adding or removing `k` nodes changes at most `k` replicas of a shard. */
  lemma DisruptionIsBounded(hash: Hash, shard: nat, few: set<Node>, many: set<Node>, rf: nat)
    requires few <= many && rf <= |few| && rf <= |many|
    ensures
      var chosen, wider := Members(Select(hash, shard, few, rf)), Members(Select(hash, shard, many, rf));
      && |chosen - wider| <= |many - few|
      && |wider - chosen| <= |many - few|
  {
    var chosen, wider := Members(Select(hash, shard, few, rf)), Members(Select(hash, shard, many, rf));
    DistinctSize(Select(hash, shard, few, rf));
    DistinctSize(Select(hash, shard, many, rf));
    forall n | n in wider && n in few ensures n in chosen {
      SelectionIsStable(hash, shard, few, many, rf, n);
    }
    SubsetSize(wider - chosen, many - few);
    DifferencesMatch(chosen, wider);
  }

  // ---------------------------------------------------------------------
  // Building a keyspace
  // ---------------------------------------------------------------------

  datatype Error = InvalidNodesCount(rf: nat) | IncompleteReplicaSet

  datatype Keyspace = Keyspace(nodesCount: nat, shards: seq<seq<Node>>)

  /** Puts a node into its place in a queue ordered by priority. */
  function Insert(hash: Hash, shard: nat, n: Node, queue: seq<Node>): (r: seq<Node>)
    requires InPriorityOrder(hash, shard, queue) && n !in queue
    ensures InPriorityOrder(hash, shard, r)
    ensures Members(r) == Members(queue) + {n}
  {
    if queue == [] || Before(hash, shard, n, queue[0]) then
      [n] + queue
    else
      var rest := Insert(hash, shard, n, queue[1..]);
      assert forall m :: m in rest ==> Before(hash, shard, queue[0], m) by {
        forall m | m in rest ensures Before(hash, shard, queue[0], m) {
          assert m in Members(rest);
        }
      }
      assert Members(queue) == {queue[0]} + Members(queue[1..]);
      [queue[0]] + rest
  }

  /** The queue scored for a shard and sorted by score, then node. */
  function Sort(hash: Hash, shard: nat, queue: seq<Node>): (r: seq<Node>)
    requires Distinct(queue)
    ensures InPriorityOrder(hash, shard, r)
    ensures Members(r) == Members(queue) && Distinct(r)
  {
    if queue == [] then []
    else
      var rest := Sort(hash, shard, queue[1..]);
      assert queue[0] !in Members(queue[1..]);
      assert Members(queue) == {queue[0]} + Members(queue[1..]);
      Insert(hash, shard, queue[0], rest)
  }

  /** Drops repeated nodes, as collecting into a set does. */
  method Collect(nodes: seq<Node>) returns (unique: seq<Node>)
    ensures Members(unique) == Members(nodes) && Distinct(unique)
  {
    unique := [];
    for i := 0 to |nodes|
      invariant Members(unique) == Members(nodes[..i]) && Distinct(unique)
    {
      assert Members(nodes[..i + 1]) == Members(nodes[..i]) + {nodes[i]};
      if nodes[i] !in unique {
        assert Members(unique + [nodes[i]]) == Members(unique) + {nodes[i]};
        unique := unique + [nodes[i]];
      } else {
        assert nodes[i] in Members(unique);
      }
    }
    assert nodes[..|nodes|] == nodes;
  }

  /**
   A replication strategy: whether a node is suitable, given the nodes it was
   asked about before. Its state is a function of these.
   */
  type Strategy = (seq<Node>, Node) -> bool

  /** The suitable nodes of an order, for a strategy that was asked about others before. */
  function Picked(asked: seq<Node>, order: seq<Node>, suitable: Strategy): seq<Node>
    decreases |order|
  {
    if order == [] then []
    else (if suitable(asked, order[0]) then [order[0]] else []) + Picked(asked + [order[0]], order[1..], suitable)
  }

  lemma {:induction false} PickedConcat(asked: seq<Node>, a: seq<Node>, b: seq<Node>, suitable: Strategy)
    ensures Picked(asked, a + b, suitable) == Picked(asked, a, suitable) + Picked(asked + a, b, suitable)
    decreases |a|
  {
    if a == [] {
      assert a + b == b && asked + a == asked;
    } else {
      var head, tail, now := if suitable(asked, a[0]) then [a[0]] else [], a[1..], asked + [a[0]];
      PickedConcat(now, tail, b, suitable);
      assert (a + b)[1..] == tail + b && (a + b)[0] == a[0] && now + tail == asked + a;
      calc {
        Picked(asked, a + b, suitable);
        head + Picked(now, tail + b, suitable);
        head + (Picked(now, tail, suitable) + Picked(now + tail, b, suitable));
        (head + Picked(now, tail, suitable)) + Picked(now + tail, b, suitable);
        Picked(asked, a, suitable) + Picked(asked + a, b, suitable);
      }
    }
  }

  lemma {:induction false} PickedAreAmong(asked: seq<Node>, order: seq<Node>, suitable: Strategy)
    ensures forall n :: n in Picked(asked, order, suitable) ==> n in order
    decreases |order|
  {
    if order != [] {
      PickedAreAmong(asked + [order[0]], order[1..], suitable);
    }
  }

  lemma {:induction false} PickedIsOrdered(hash: Hash, shard: nat, asked: seq<Node>, order: seq<Node>,
                                           suitable: Strategy)
    requires InPriorityOrder(hash, shard, order)
    ensures InPriorityOrder(hash, shard, Picked(asked, order, suitable))
    decreases |order|
  {
    if order != [] {
      PickedIsOrdered(hash, shard, asked + [order[0]], order[1..], suitable);
      PickedAreAmong(asked + [order[0]], order[1..], suitable);
      var rest := Picked(asked + [order[0]], order[1..], suitable);
      forall n | n in rest ensures Before(hash, shard, order[0], n) {
        assert n in order[1..];
      }
    }
  }

  lemma PickedSnoc(queue: seq<Node>, cursor: nat, suitable: Strategy)
    requires cursor < |queue|
    ensures Picked([], queue[..cursor + 1], suitable) ==
            Picked([], queue[..cursor], suitable) +
            if suitable(queue[..cursor], queue[cursor]) then [queue[cursor]] else []
  {
    assert queue[..cursor + 1] == queue[..cursor] + [queue[cursor]] && [] + queue[..cursor] == queue[..cursor];
    PickedConcat([], queue[..cursor], [queue[cursor]], suitable);
  }

  lemma PickedPrefix(queue: seq<Node>, cursor: nat, suitable: Strategy)
    requires cursor <= |queue|
    ensures Picked([], queue[..cursor], suitable) <= Picked([], queue, suitable)
  {
    assert queue == queue[..cursor] + queue[cursor..];
    PickedConcat([], queue[..cursor], queue[cursor..], suitable);
  }

  /** The nodes that a strategy accepts when it is asked about all of them by priority. */
  ghost function Candidates(hash: Hash, shard: nat, nodes: set<Node>, suitable: Strategy): (candidates: seq<Node>)
    ensures InPriorityOrder(hash, shard, candidates) && Distinct(candidates) && Members(candidates) <= nodes
  {
    var order := Select(hash, shard, nodes, |nodes|);
    PickedIsOrdered(hash, shard, [], order, suitable);
    PickedAreAmong([], order, suitable);
    QueueIsDistinct(hash, shard, Picked([], order, suitable));
    Picked([], order, suitable)
  }

  lemma OrderIsSelection(hash: Hash, shard: nat, queue: seq<Node>)
    requires InPriorityOrder(hash, shard, queue)
    ensures |Members(queue)| == |queue| && Select(hash, shard, Members(queue), |queue|) == queue
  {
    OrderedPrefix(hash, shard, queue, |queue|);
    assert queue[..|queue|] == queue;
  }

  /** Walks a sorted queue with a cursor, taking suitable nodes until the set is full. */
  method FillReplicaSet(queue: seq<Node>, rf: nat, suitable: Strategy) returns (r: Result<seq<Node>, Error>)
    ensures
      var picked := Picked([], queue, suitable);
      r == if rf <= |picked| then Ok(picked[..rf]) else Err(IncompleteReplicaSet)
  {
    var replicas := [];
    var cursor := 0;
    while |replicas| < rf
      invariant cursor <= |queue|
      invariant |replicas| <= rf
      invariant replicas == Picked([], queue[..cursor], suitable)
      decreases rf - |replicas|, |queue| - cursor
    {
      if cursor == |queue| {
        assert queue[..cursor] == queue;
        return Err(IncompleteReplicaSet);
      }
      var node := queue[cursor];
      PickedSnoc(queue, cursor, suitable);
      if suitable(queue[..cursor], node) {
        replicas := replicas + [node];
      }
      cursor := cursor + 1;
    }
    PickedPrefix(queue, cursor, suitable);
    assert Picked([], queue, suitable)[..rf] == replicas;
    return Ok(replicas);
  }

  /** Rescores and sorts the queue for a shard, then fills the shard's replica set. */
  method FillShard(hash: Hash, shard: nat, queue: seq<Node>, rf: nat, suitable: Strategy)
    returns (sorted: seq<Node>, r: Result<seq<Node>, Error>)
    requires Distinct(queue)
    ensures Distinct(sorted) && Members(sorted) == Members(queue)
    ensures
      var candidates := Candidates(hash, shard, Members(queue), suitable);
      r == if rf <= |candidates| then Ok(candidates[..rf]) else Err(IncompleteReplicaSet)
  {
    sorted := Sort(hash, shard, queue);
    OrderIsSelection(hash, shard, sorted);
    r := FillReplicaSet(sorted, rf, suitable);
  }

  /** The first `shards` shards have enough candidates. */
  ghost predicate Fillable(hash: Hash, shards: nat, nodes: set<Node>, rf: nat, strategies: nat -> Strategy) {
    forall s: nat :: s < shards ==> rf <= |Candidates(hash, s, nodes, strategies(s))|
  }

  ghost predicate ReplicasSelected(hash: Hash, shards: seq<seq<Node>>, nodes: set<Node>, rf: nat,
                                   strategies: nat -> Strategy)
    requires Fillable(hash, |shards|, nodes, rf, strategies)
  {
    forall s: nat :: s < |shards| ==> shards[s] == Candidates(hash, s, nodes, strategies(s))[..rf]
  }

  lemma OneMoreSelected(hash: Hash, shards: seq<seq<Node>>, nodes: set<Node>, rf: nat, strategies: nat -> Strategy,
                        replicas: seq<Node>)
    requires Fillable(hash, |shards|, nodes, rf, strategies) && ReplicasSelected(hash, shards, nodes, rf, strategies)
    requires rf <= |Candidates(hash, |shards|, nodes, strategies(|shards|))|
    requires replicas == Candidates(hash, |shards|, nodes, strategies(|shards|))[..rf]
    ensures Fillable(hash, |shards| + 1, nodes, rf, strategies)
    ensures ReplicasSelected(hash, shards + [replicas], nodes, rf, strategies)
  {
  }

  /**
   Builds the replica sets of every shard. `strategies` is the replication
   strategy built for each shard.
   */
  method New(nodes: seq<Node>, hash: Hash, rf: nat, strategies: nat -> Strategy) returns (r: Result<Keyspace, Error>)
    requires rf > 0
    ensures
      var all := Members(nodes);
      if |all| < rf then r == Err(InvalidNodesCount(rf))
      else if !Fillable(hash, SHARDS, all, rf, strategies) then r == Err(IncompleteReplicaSet)
      else
        && r.Ok? && r.value.nodesCount == |all| && |r.value.shards| == SHARDS
        && ReplicasSelected(hash, r.value.shards, all, rf, strategies)
  {
    var queue := Collect(nodes);
    DistinctSize(queue);
    if |queue| < rf {
      return Err(InvalidNodesCount(rf));
    }
    var nodesCount := |queue|;
    var shards: seq<seq<Node>> := [];
    while |shards| < SHARDS
      invariant |shards| <= SHARDS
      invariant Distinct(queue) && Members(queue) == Members(nodes)
      invariant Fillable(hash, |shards|, Members(nodes), rf, strategies)
      invariant ReplicasSelected(hash, shards, Members(nodes), rf, strategies)
    {
      var filled;
      queue, filled := FillShard(hash, |shards|, queue, rf, strategies(|shards|));
      if filled.Err? {
        return Err(IncompleteReplicaSet);
      }
      OneMoreSelected(hash, shards, Members(nodes), rf, strategies, filled.value);
      shards := shards + [filled.value];
    }
    return Ok(Keyspace(nodesCount, shards));
  }

  // ---------------------------------------------------------------------
  // Strategies without state
  // ---------------------------------------------------------------------

  ghost predicate Stateless(suitable: Strategy, accepts: Node -> bool) {
    forall asked, n :: suitable(asked, n) == accepts(n)
  }

  function Suitable(nodes: set<Node>, accepts: Node -> bool): set<Node> {
    set n | n in nodes && accepts(n)
  }

  lemma {:induction false} PickedSuitable(asked: seq<Node>, order: seq<Node>, suitable: Strategy, accepts: Node -> bool)
    requires Stateless(suitable, accepts)
    ensures Members(Picked(asked, order, suitable)) == Suitable(Members(order), accepts)
    decreases |order|
  {
    if order != [] {
      var rest := Picked(asked + [order[0]], order[1..], suitable);
      PickedSuitable(asked + [order[0]], order[1..], suitable, accepts);
      assert Members(order) == {order[0]} + Members(order[1..]);
      assert Members(Picked(asked, order, suitable)) == Members(rest) + if accepts(order[0]) then {order[0]} else {};
    }
  }

  lemma SelectsAll(hash: Hash, shard: nat, nodes: set<Node>)
    ensures Members(Select(hash, shard, nodes, |nodes|)) == nodes
  {
    var order := Select(hash, shard, nodes, |nodes|);
    QueueIsDistinct(hash, shard, order);
    DistinctSize(order);
    ComplementSize(nodes, Members(order));
  }

  /**
   A strategy without state fills replica sets with the highest priorities among
   the nodes it accepts. The default strategy accepts every node.
   */
  lemma StatelessSelects(hash: Hash, shard: nat, nodes: set<Node>, rf: nat, suitable: Strategy, accepts: Node -> bool)
    requires Stateless(suitable, accepts)
    ensures
      var candidates, usable := Candidates(hash, shard, nodes, suitable), Suitable(nodes, accepts);
      |candidates| == |usable| && (rf <= |usable| ==> candidates[..rf] == Select(hash, shard, usable, rf))
  {
    SelectsAll(hash, shard, nodes);
    PickedSuitable([], Select(hash, shard, nodes, |nodes|), suitable, accepts);
    var candidates := Candidates(hash, shard, nodes, suitable);
    DistinctSize(candidates);
    if rf <= |candidates| {
      OrderedPrefix(hash, shard, candidates, rf);
    }
  }
}
