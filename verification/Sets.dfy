/** Nodes and operators, both known by number, as sequences and as sets. */
module Sets {
  function Members(s: seq<nat>): set<nat> {
    set n | n in s
  }

  predicate Distinct(s: seq<nat>) {
    forall i, j :: 0 <= i < j < |s| ==> s[i] != s[j]
  }

  lemma {:induction false} DistinctSize(s: seq<nat>)
    requires Distinct(s)
    ensures |Members(s)| == |s|
  {
    if s != [] {
      DistinctSize(s[1..]);
      assert Members(s) == {s[0]} + Members(s[1..]);
    }
  }

  lemma SubsetSize(a: set<nat>, b: set<nat>)
    requires a <= b
    ensures |a| <= |b|
  {
    assert b == a + (b - a);
  }

  lemma DifferencesMatch(a: set<nat>, b: set<nat>)
    requires |a| == |b|
    ensures |a - b| == |b - a|
  {
  }

  lemma ComplementSize(all: set<nat>, part: set<nat>)
    requires part <= all
    ensures |all - part| == |all| - |part|
  {
    assert all == part + (all - part);
  }
}
