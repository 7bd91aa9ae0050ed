/** Keeping the elements of a sequence that satisfy a condition, in their order. */
module Filters {
  function Filter<T(!new)>(s: seq<T>, keep: T -> bool): (kept: seq<T>)
    ensures forall x :: x in kept <==> x in s && keep(x)
  {
    if s == [] then []
    else (if keep(s[0]) then [s[0]] else []) + Filter(s[1..], keep)
  }

  lemma {:induction false} FilterAll<T(!new)>(s: seq<T>, keep: T -> bool)
    requires forall x :: x in s ==> keep(x)
    ensures Filter(s, keep) == s
  {
    if s != [] {
      FilterAll(s[1..], keep);
    }
  }

  lemma {:induction false} FilterNone<T(!new)>(s: seq<T>, keep: T -> bool)
    requires forall x :: x in s ==> !keep(x)
    ensures Filter(s, keep) == []
  {
    if s != [] {
      FilterNone(s[1..], keep);
    }
  }

  lemma {:induction false} FilterAgrees<T(!new)>(s: seq<T>, p: T -> bool, q: T -> bool)
    requires forall x :: x in s ==> p(x) == q(x)
    ensures Filter(s, p) == Filter(s, q)
  {
    if s != [] {
      FilterAgrees(s[1..], p, q);
    }
  }

  /** No element of the first kind comes behind one of the second. */
  ghost predicate Precede<T(!new)>(s: seq<T>, first: T -> bool, second: T -> bool) {
    s == [] || ((second(s[0]) ==> forall x :: x in s[1..] ==> !first(x)) && Precede(s[1..], first, second))
  }

  /** Filtering for either of two kinds, when all of the one come before all of the other. */
  lemma {:induction false} FilterSplit<T(!new)>(s: seq<T>, both: T -> bool, first: T -> bool, second: T -> bool)
    requires forall x :: x in s ==> (both(x) <==> first(x) || second(x)) && !(first(x) && second(x))
    requires Precede(s, first, second)
    ensures Filter(s, both) == Filter(s, first) + Filter(s, second)
  {
    if s != [] {
      var head, rest := s[0], s[1..];
      assert head in s && forall x :: x in rest ==> x in s;
      FilterSplit(rest, both, first, second);
      FilterHead(s, both);
      FilterHead(s, first);
      FilterHead(s, second);
      if first(head) {
        Regroup(head, Filter(rest, first), Filter(rest, second));
      } else if second(head) {
        FilterNone(rest, first);
      }
    }
  }

  lemma FilterHead<T(!new)>(s: seq<T>, keep: T -> bool)
    requires s != []
    ensures Filter(s, keep) == if keep(s[0]) then [s[0]] + Filter(s[1..], keep) else Filter(s[1..], keep)
  {
  }

  lemma Regroup<T>(x: T, a: seq<T>, b: seq<T>)
    ensures [x] + (a + b) == ([x] + a) + b
  {
  }
}
