/** The task that keeps a node's view up to date: replaying events, and reading the contract again when that fails. */
module UpdateTask {
  import opened Wrappers
  import opened NodeOperators
  import opened ClusterView
  import opened SmartContract
  import opened Replay

  /** The view a node holds, the next event of its stream, and whether it has a stream. */
  datatype Node = Node(view: ViewState, next: nat, subscribed: bool)

  /** Takes an event from the stream; a refused one ends the subscription. */
  function Delivered(n: Node, e: Event): Node {
    match ApplyEvent(n.view, e)
    case Ok(v) => Node(v, n.next + 1, true)
    case Err(_) => n.(subscribed := false)
  }

  /** Subscribes from event `from` on, then reads the contract; a failure leaves the node without a stream. */
  function Refetched(n: Node, c: Contract, from: nat): Node
    requires |c.slots| == MAX_OPERATORS && |c.keyspaces| == 2
  {
    if n.view.clusterVersion == c.version then Node(n.view, from, true)
    else match Snapshot(c)
      case Ok(v) => Node(v, from, true)
      case Err(_) => n.(subscribed := false)
  }

  // ---------------------------------------------------------------------
  // The task itself
  // ---------------------------------------------------------------------

  method ReadOperators(slots: Slots) returns (r: Result<NodeOperators, Error>)
    requires |slots| <= MAX_OPERATORS
    ensures if |slots| < MIN_OPERATORS || !DistinctIds(slots) then r == Err(NodeOperatorsCreation)
            else r.Ok? && fresh(r.value) && r.value.slots == slots && r.value.idToIdx == IndexSlots(slots)
  {
    var created := NodeOperators.FromSlots(slots);
    if created.Err? {
      return Err(NodeOperatorsCreation);
    }
    InverseUnique(slots, slots, created.value.idToIdx, IndexSlots(slots));
    return Ok(created.value);
  }

  /** Builds a view from the contract state. */
  method TryFromSc(c: Contract) returns (r: Result<View, Error>)
    requires |c.slots| == MAX_OPERATORS && |c.keyspaces| == 2
    ensures match Snapshot(c)
            case Ok(v) => r.Ok? && fresh(r.value) && fresh(r.value.operators) && r.value.State() == v
            case Err(e) => r == Err(e)
  {
    var slots := Readable(Trim(c.slots));
    var operators := ReadOperators(slots);
    if operators.Err? {
      return Err(operators.error);
    }
    var state := ReadState(c, slots);
    if state.Err? {
      return Err(state.error);
    }
    var (settings, primary, migration) := state.value;
    var view := new View(
      ViewState(slots, operators.value.idToIdx, c.owner, settings, primary, c.keyspaceVersion, migration, c.maintenance,
                c.version),
      operators.value);
    return Ok(view);
  }

  class Task {
    var view: View
    var next: nat
    var subscribed: bool

    constructor (view: View)
      ensures this.view == view && next == 0 && subscribed
    {
      this.view := view;
      next := 0;
      subscribed := true;
    }

    ghost function Value(): Node
      reads this, view, view.operators
    {
      Node(view.State(), next, subscribed)
    }

    method ApplyEvent(e: Event)
      modifies this`next, this`subscribed, view, view.operators
      ensures Value() == Delivered(old(Value()), e)
    {
      var r := view.Apply(e);
      if r.Ok? {
        next, subscribed := next + 1, true;
      } else {
        subscribed := false;
      }
    }

    /** Applies events until the stream ends or one is refused. */
    method ApplyEvents(events: seq<Event>) returns (applied: nat)
      requires subscribed
      modifies this`next, this`subscribed, view, view.operators
      ensures applied <= |events|
      ensures ReplayAll(old(view.State()), events[..applied]) == Ok(view.State())
      ensures if applied == |events| then subscribed
              else !subscribed && ClusterView.ApplyEvent(view.State(), events[applied]).Err?
      ensures next == old(next) + applied
    {
      applied := 0;
      while applied < |events|
        invariant applied <= |events| && subscribed
        invariant ReplayAll(old(view.State()), events[..applied]) == Ok(view.State())
        invariant next == old(next) + applied
      {
        assert events[..applied + 1][..applied] == events[..applied];
        ApplyEvent(events[applied]);
        if !subscribed {
          return;
        }
        applied := applied + 1;
      }
    }

    /** Subscribes and reads the whole state again. */
    method UpdateView(c: Contract, from: nat)
      requires |c.slots| == MAX_OPERATORS && |c.keyspaces| == 2
      modifies this
      ensures Value() == Refetched(old(Value()), c, from)
      ensures view == old(view) || (fresh(view) && fresh(view.operators))
    {
      if view.clusterVersion == c.version {
        next, subscribed := from, true;
        return;
      }
      var r := TryFromSc(c);
      if r.Ok? {
        view, next, subscribed := r.value, from, true;
      } else {
        subscribed := false;
      }
    }
  }

  // ---------------------------------------------------------------------
  // Every schedule of transactions, deliveries and reads
  // ---------------------------------------------------------------------

  /** The states the contract went through, the events between them, and one node. */
  datatype World = World(states: seq<Contract>, events: seq<Event>, node: Node)

  datatype Move =
    | Transact(tx: Tx)
    | Deliver
    | Refetch(from: nat, at: nat)

  /** The state `i` transactions after the first. */
  ghost predicate StateAt(states: seq<Contract>, i: nat) {
    i < |states| && Sound(states[i]) && states[i].version == states[0].version + i
  }

  ghost predicate StepAt(states: seq<Contract>, events: seq<Event>, i: nat) {
    && i < |events| && i + 1 < |states| && StateAt(states, i)
    && exists tx :: Step(states[i], tx) == Some((states[i + 1], events[i]))
  }

  ghost predicate States(states: seq<Contract>) {
    |states| > 0 && forall i: nat :: i < |states| ==> StateAt(states, i)
  }

  ghost predicate History(states: seq<Contract>, events: seq<Event>) {
    && |states| == |events| + 1 && States(states)
    && forall i: nat :: i < |events| ==> StepAt(states, events, i)
  }

  /**
   A node may subscribe and read at any time; by the time it is done the
   contract may have moved on, both from what it subscribed to and from what it read.
   */
  ghost predicate Possible(w: World, m: Move)
    requires History(w.states, w.events)
  {
    match m
    case Transact(tx) => StateAt(w.states, |w.events|) && Step(w.states[|w.events|], tx).Some?
    case Deliver => w.node.subscribed && w.node.next < |w.events|
    case Refetch(from, at) => from <= at <= |w.events| && StateAt(w.states, at)
  }

  ghost function After(w: World, m: Move): World
    requires History(w.states, w.events) && Possible(w, m)
  {
    match m
    case Transact(tx) =>
      var (c, e) := Step(w.states[|w.events|], tx).value;
      w.(states := w.states + [c], events := w.events + [e])
    case Deliver => w.(node := Delivered(w.node, w.events[w.node.next]))
    case Refetch(from, at) => w.(node := Refetched(w.node, w.states[at], from))
  }

  /** The view is one of the contract state of its own version, and no stream is ahead of it. */
  ghost predicate Current(node: Node, states: seq<Contract>) {
    && |states| > 0 && node.view.clusterVersion >= states[0].version
    && var k: nat := node.view.clusterVersion - states[0].version;
       && StateAt(states, k)
       && Tracks(node.view, states[k])
       && (node.subscribed ==> node.next <= k)
  }

  ghost predicate Invariant(w: World) {
    History(w.states, w.events) && Current(w.node, w.states)
  }

  lemma HistoryGrows(states: seq<Contract>, events: seq<Event>, tx: Tx)
    requires History(states, events) && StateAt(states, |events|) && Step(states[|events|], tx).Some?
    ensures
      var (c, e) := Step(states[|events|], tx).value;
      History(states + [c], events + [e])
  {
    StepSound(states[|events|], tx);
    var c, e := Step(states[|events|], tx).value.0, Step(states[|events|], tx).value.1;
    forall i: nat | i < |states| + 1 ensures StateAt(states + [c], i) {
      assert i < |states| ==> StateAt(states, i);
    }
    forall i: nat | i < |events| + 1 ensures StepAt(states + [c], events + [e], i) {
      assert i < |events| ==> StepAt(states, events, i);
    }
  }

  lemma TransactKeeps(w: World, tx: Tx)
    requires Invariant(w) && Possible(w, Transact(tx))
    ensures Invariant(After(w, Transact(tx)))
  {
    HistoryGrows(w.states, w.events, tx);
  }

  /** An event is taken in or refused, and a view that takes it in tracks the state it led to. */
  lemma DeliveredTracks(n: Node, states: seq<Contract>, events: seq<Event>, i: nat, n': Node)
    requires StepAt(states, events, i) && StateAt(states, i + 1) && n' == Delivered(n, events[i])
    requires n.view.clusterVersion == states[i].version ==> Tracks(n.view, states[i])
    ensures if n'.subscribed then Tracks(n'.view, states[i + 1]) && n'.next == n.next + 1 else n'.view == n.view
  {
    var tx :| Step(states[i], tx) == Some((states[i + 1], events[i]));
    if n.view.clusterVersion == states[i].version {
      ReplayStepExact(n.view, states[i], tx);
    }
  }

  lemma CurrentAt(n: Node, states: seq<Contract>, at: nat)
    requires Current(n, states) && StateAt(states, at)
    ensures n.view.clusterVersion == states[at].version ==> Tracks(n.view, states[at])
  {
  }

  lemma NodeStep(n: Node, n': Node, states: seq<Contract>, k: nat)
    requires Current(n, states) && StateAt(states, k)
    requires (n'.view == n.view && !n'.subscribed) || (n'.next <= k && Tracks(n'.view, states[k]))
    ensures Current(n', states)
  {
  }

  lemma DeliverKeeps(w: World)
    requires Invariant(w) && Possible(w, Deliver)
    ensures Invariant(After(w, Deliver))
  {
    var k, n' := w.node.next, After(w, Deliver).node;
    assert StepAt(w.states, w.events, k) && StateAt(w.states, k + 1);
    CurrentAt(w.node, w.states, k);
    DeliveredTracks(w.node, w.states, w.events, k, n');
    NodeStep(w.node, n', w.states, k + 1);
  }

  /** A read succeeds exactly when the contract decodes, and then tracks it. */
  lemma RefetchedTracks(n: Node, c: Contract, from: nat)
    requires Sound(c) && (n.view.clusterVersion == c.version ==> Tracks(n.view, c))
    ensures
      var n' := Refetched(n, c, from);
      && (n'.subscribed <==> Decodes(c))
      && if n'.subscribed then Tracks(n'.view, c) && n'.next == from else n' == n.(subscribed := false)
  {
    SnapshotExact(c);
  }

  lemma RefetchKeeps(w: World, from: nat, at: nat)
    requires Invariant(w) && Possible(w, Refetch(from, at))
    ensures Invariant(After(w, Refetch(from, at)))
  {
    CurrentAt(w.node, w.states, at);
    RefetchedTracks(w.node, w.states[at], from);
    NodeStep(w.node, Refetched(w.node, w.states[at], from), w.states, at);
  }

  /** The world after a schedule; `None` when a move of it is not possible. */
  ghost function Play(w: World, moves: seq<Move>): Option<World>
    decreases |moves|
  {
    if moves == [] then Some(w)
    else match Play(w, moves[..|moves| - 1])
      case None => None
      case Some(w') =>
        if History(w'.states, w'.events) && Possible(w', moves[|moves| - 1]) then Some(After(w', moves[|moves| - 1])) else None
  }

  /** A node that starts from a contract state it read. */
  ghost predicate Joined(w: World) {
    && |w.states| == 1 && w.events == [] && StateAt(w.states, 0)
    && Tracks(w.node.view, w.states[0]) && w.node.next == 0
  }

  /**
   Under every schedule of transactions, late deliveries, refused events, and
   reads that fail or come late, the node's view is one of the contract state
   of the view's own version.
   */
  lemma {:induction false} NodeAlwaysTracks(w: World, moves: seq<Move>)
    requires Joined(w) && Play(w, moves).Some?
    ensures Invariant(Play(w, moves).value)
    decreases |moves|
  {
    if moves != [] {
      NodeAlwaysTracks(w, moves[..|moves| - 1]);
      var w' := Play(w, moves[..|moves| - 1]).value;
      match moves[|moves| - 1]
      case Transact(tx) => TransactKeeps(w', tx);
      case Deliver => DeliverKeeps(w');
      case Refetch(from, at) => RefetchKeeps(w', from, at);
    }
  }

  /** A read leaves a subscribed node at the version that was read, and an unreadable contract leaves its view alone. */
  lemma ReadDecidesVersion(n: Node, c: Contract, from: nat)
    requires |c.slots| == MAX_OPERATORS && |c.keyspaces| == 2
    ensures
      var n' := Refetched(n, c, from);
      && (n'.subscribed <==> n.view.clusterVersion == c.version || Snapshot(c).Ok?)
      && (n'.subscribed ==> n'.view.clusterVersion == c.version && n'.next == from)
      && (!n'.subscribed || n.view.clusterVersion == c.version ==> n'.view == n.view)
  {
  }

  /** An event moves a node one version on, or ends its subscription and leaves its view alone. */
  lemma EventDecidesVersion(n: Node, e: Event)
    ensures
      var n' := Delivered(n, e);
      if n'.subscribed then
        n'.view.clusterVersion == n.view.clusterVersion + 1 == e.clusterVersion && n'.next == n.next + 1
      else n'.view == n.view && n'.next == n.next
  {
  }

  /** The view agrees with a snapshot, or only remembers as completed a migration started in the second of an abort. */
  ghost predicate AgreeButForAbort(v: ViewState, c: Contract)
    requires Sound(c)
  {
    && Snapshot(c).Ok?
    && (|| Agree(v, Snapshot(c).value)
        || (&& !InProgress(c) && c.migration.startedAt == c.migration.abortedAt
            && v.migration.state.Completed?
            && Agree(v.(migration := Snapshot(c).value.migration), Snapshot(c).value)))
  }

  lemma TrackingAgrees(v: ViewState, c: Contract)
    requires Sound(c) && Tracks(v, c)
    ensures AgreeButForAbort(v, c)
  {
    TracksAgree(v, c);
    SnapshotExact(c);
    MirrorsAgree(v, Snapshot(c).value, c);
  }

  /** A node with a stream and nothing left to deliver is up to date. */
  lemma CaughtUpNodeAgrees(w: World, moves: seq<Move>, w': World)
    requires Joined(w) && Play(w, moves) == Some(w')
    requires w'.node.subscribed && w'.node.next == |w'.events|
    ensures |w'.states| == |w'.events| + 1 && Sound(w'.states[|w'.events|])
    ensures AgreeButForAbort(w'.node.view, w'.states[|w'.events|])
  {
    NodeAlwaysTracks(w, moves);
    assert StateAt(w'.states, |w'.events|);
    CurrentAt(w'.node, w'.states, |w'.events|);
    TrackingAgrees(w'.node.view, w'.states[|w'.events|]);
  }

  /** Whatever happened before, reading the contract brings a node up to date exactly when the contract decodes. */
  lemma ReadingCatchesUp(w: World, moves: seq<Move>, w': World)
    requires Joined(w) && Play(w, moves) == Some(w')
    ensures |w'.states| == |w'.events| + 1 && Sound(w'.states[|w'.events|])
    ensures
      var c := w'.states[|w'.events|];
      var node := Refetched(w'.node, c, |w'.events|);
      && (node.subscribed <==> Decodes(c))
      && (node.subscribed ==> AgreeButForAbort(node.view, c))
  {
    NodeAlwaysTracks(w, moves);
    assert StateAt(w'.states, |w'.events|);
    var c := w'.states[|w'.events|];
    CurrentAt(w'.node, w'.states, |w'.events|);
    RefetchedTracks(w'.node, c, |w'.events|);
    var node := Refetched(w'.node, c, |w'.events|);
    if node.subscribed {
      TrackingAgrees(node.view, c);
    }
  }
}
