/** Replica sets before and after a migration, and which operator pulls a shard from which. */
module ReplicaSets {
  import opened Wrappers
  import opened Sets

  /** Number of operators in a replica set, and how many of them form a majority. */
  const RF: nat := 5
  const MAJORITY: nat := RF / 2 + 1

  type Operator = nat

  predicate IsReplicaSet(s: seq<Operator>) {
    |s| == RF && Distinct(s)
  }

  /** The operators of `a` that are not in `b`, in the order of `a`. */
  function Without(a: seq<Operator>, b: seq<Operator>): (r: seq<Operator>)
    ensures forall o :: o in r <==> o in a && o !in b
    ensures Distinct(a) ==> Distinct(r)
  {
    if a == [] then []
    else (if a[0] in b then [] else [a[0]]) + Without(a[1..], b)
  }

  lemma {:induction false} WithoutSnoc(a: seq<Operator>, o: Operator, b: seq<Operator>)
    ensures Without(a + [o], b) == Without(a, b) + if o in b then [] else [o]
  {
    if a == [] {
      assert a + [o] == [o];
    } else {
      assert (a + [o])[1..] == a[1..] + [o];
      WithoutSnoc(a[1..], o, b);
    }
  }

  method ReplicaSetDifference(a: seq<Operator>, b: seq<Operator>) returns (diff: seq<Operator>)
    ensures diff == Without(a, b)
  {
    diff := [];
    for i := 0 to |a|
      invariant diff == Without(a[..i], b)
    {
      assert a[..i + 1] == a[..i] + [a[i]];
      WithoutSnoc(a[..i], a[i], b);
      if a[i] !in b {
        diff := diff + [a[i]];
      }
    }
    assert a[..|a|] == a;
  }

  /** A migration adds to a shard as many operators as it removes. */
  lemma AddedMatchesRemoved(before: seq<Operator>, after: seq<Operator>)
    requires IsReplicaSet(before) && IsReplicaSet(after)
    ensures |Without(after, before)| == |Without(before, after)|
  {
    DistinctSize(before);
    DistinctSize(after);
    WithoutSize(after, before);
    WithoutSize(before, after);
    DifferencesMatch(Members(before), Members(after));
  }

  lemma WithoutSize(a: seq<Operator>, b: seq<Operator>)
    requires Distinct(a)
    ensures |Without(a, b)| == |Members(a) - Members(b)|
  {
    DistinctSize(Without(a, b));
    assert Members(Without(a, b)) == Members(a) - Members(b);
  }

  function IndexOf(s: seq<Operator>, o: Operator): (i: nat)
    requires o in s
    ensures i < |s| && s[i] == o
  {
    if s[0] == o then 0 else 1 + IndexOf(s[1..], o)
  }

  /**
   The operator a newly added replica pulls a shard from: the removed operator
   at its own position. `None` when `self` is not being added to the shard.
   */
  method PullSource(before: seq<Operator>, after: seq<Operator>, self: Operator) returns (source: Option<Operator>)
    requires IsReplicaSet(before) && IsReplicaSet(after)
    ensures source.Some? <==> self in after && self !in before
    ensures source.Some? ==> source.value == Source(before, after, self)
  {
    var added := ReplicaSetDifference(after, before);
    var idx := 0;
    while idx < |added| && added[idx] != self
      invariant idx <= |added| && forall j :: 0 <= j < idx ==> added[j] != self
    {
      idx := idx + 1;
    }
    if idx == |added| {
      return None;
    }
    var removed := ReplicaSetDifference(before, after);
    AddedMatchesRemoved(before, after);
    assert IndexOf(added, self) == idx;
    return Some(removed[idx]);
  }

  function Source(before: seq<Operator>, after: seq<Operator>, self: Operator): (source: Operator)
    requires IsReplicaSet(before) && IsReplicaSet(after) && self in after && self !in before
    ensures source in before && source !in after
  {
    AddedMatchesRemoved(before, after);
    Without(before, after)[IndexOf(Without(after, before), self)]
  }

  /** Where an old replica's data ends up: with itself if it stays, else with its successor. */
  function Heir(before: seq<Operator>, after: seq<Operator>, o: Operator): (heir: Operator)
    requires IsReplicaSet(before) && IsReplicaSet(after) && o in before
    ensures heir in after
  {
    AddedMatchesRemoved(before, after);
    if o in after then o else Without(after, before)[IndexOf(Without(before, after), o)]
  }

  /** A removed operator's heir is the one that pulls from it. */
  lemma HeirPullsFrom(before: seq<Operator>, after: seq<Operator>, o: Operator)
    requires IsReplicaSet(before) && IsReplicaSet(after) && o in before && o !in after
    ensures Heir(before, after, o) !in before && Source(before, after, Heir(before, after, o)) == o
  {
    AddedMatchesRemoved(before, after);
    IndexOfUnique(Without(after, before), IndexOf(Without(before, after), o));
  }

  lemma {:induction false} IndexOfUnique(s: seq<Operator>, i: nat)
    requires Distinct(s) && i < |s|
    ensures IndexOf(s, s[i]) == i
  {
  }

  lemma HeirInjective(before: seq<Operator>, after: seq<Operator>, a: Operator, b: Operator)
    requires IsReplicaSet(before) && IsReplicaSet(after) && a in before && b in before && a != b
    ensures Heir(before, after, a) != Heir(before, after, b)
  {
    if a !in after {
      HeirPullsFrom(before, after, a);
    }
    if b !in after {
      HeirPullsFrom(before, after, b);
    }
  }

  function Heirs(before: seq<Operator>, after: seq<Operator>, holders: set<Operator>): (r: set<Operator>)
    requires IsReplicaSet(before) && IsReplicaSet(after) && holders <= Members(before)
    ensures r <= Members(after)
  {
    set o | o in holders :: Heir(before, after, o)
  }

  lemma {:induction false} HeirsSize(before: seq<Operator>, after: seq<Operator>, holders: set<Operator>)
    requires IsReplicaSet(before) && IsReplicaSet(after) && holders <= Members(before)
    ensures |Heirs(before, after, holders)| == |holders|
  {
    if holders != {} {
      var o :| o in holders;
      var rest := holders - {o};
      HeirsSize(before, after, rest);
      assert Heirs(before, after, holders) == Heirs(before, after, rest) + {Heir(before, after, o)};
      forall p | p in rest ensures Heir(before, after, p) != Heir(before, after, o) {
        HeirInjective(before, after, p, o);
      }
    }
  }

  /**
   The pairing is a bijection from the old replicas onto the new ones, so
   whatever a majority of the old set holds, a majority of the new set receives.
   */
  lemma QuorumTransfers(before: seq<Operator>, after: seq<Operator>, holders: set<Operator>)
    requires IsReplicaSet(before) && IsReplicaSet(after) && holders <= Members(before)
    ensures Heirs(before, after, Members(before)) == Members(after)
    ensures |Heirs(before, after, holders)| == |holders|
    ensures |holders| >= MAJORITY ==> |Heirs(before, after, holders)| >= MAJORITY
  {
    HeirsSize(before, after, Members(before));
    HeirsSize(before, after, holders);
    DistinctSize(before);
    DistinctSize(after);
    SubsetOfSameSize(Heirs(before, after, Members(before)), Members(after));
  }

  lemma SubsetOfSameSize(a: set<Operator>, b: set<Operator>)
    requires a <= b && |a| == |b|
    ensures a == b
  {
    assert b == a + (b - a);
    assert |b| == |a| + |b - a|;
  }

  /** Two majorities of one replica set share an operator. */
  lemma MajoritiesIntersect(s: seq<Operator>, a: set<Operator>, b: set<Operator>)
    requires IsReplicaSet(s) && a <= Members(s) && b <= Members(s)
    requires |a| >= MAJORITY && |b| >= MAJORITY
    ensures exists o :: o in a && o in b
  {
    DistinctSize(s);
    assert |a + b| + |a * b| == |a| + |b|;
    assert Members(s) == (a + b) + (Members(s) - (a + b));
    var o :| o in a * b;
  }
}
