/** Generic facts about sequences shared by every script: order-preserving
    filtering (the model of a Python list comprehension with an `if`),
    subsequences, distinctness and element sets. */
module Seqs {

  function Last<T>(s: seq<T>): T
    requires |s| > 0
  {
    s[|s| - 1]
  }

  function DropLast<T>(s: seq<T>): seq<T>
    requires |s| > 0
  {
    s[..|s| - 1]
  }

  /** `xs` is obtained from `ys` by deleting elements, the rest keeping their order.
      Matching greedily from the back is complete for this relation. */
  predicate IsSubsequence<T(==)>(xs: seq<T>, ys: seq<T>)
    decreases |ys|
  {
    if xs == [] then true
    else if ys == [] then false
    else if Last(xs) == Last(ys) then IsSubsequence(DropLast(xs), DropLast(ys))
    else IsSubsequence(xs, DropLast(ys))
  }

  /** `[x for x in s if p(x)]`: the elements of `s` satisfying `p`, in their order,
      each with its full multiplicity, and nothing else (`FilterMembers`,
      `FilterIsSubsequence`, `FilterCounts`). */
  function Filter<T(!new)>(p: T -> bool, s: seq<T>): (r: seq<T>)
    ensures |r| <= |s|
    decreases |s|
  {
    if s == [] then []
    else if p(Last(s)) then Filter(p, DropLast(s)) + [Last(s)]
    else Filter(p, DropLast(s))
  }

  /** An element is kept exactly when it is in the input and passes the test. */
  lemma {:induction false} FilterMembers<T(!new)>(p: T -> bool, s: seq<T>)
    ensures forall x :: x in Filter(p, s) <==> x in s && p(x)
    decreases |s|
  {
    if s != [] {
      FilterMembers(p, DropLast(s));
      assert s == DropLast(s) + [Last(s)];
    }
  }

  /** The kept elements keep their relative order. */
  lemma {:induction false} FilterIsSubsequence<T(!new)>(p: T -> bool, s: seq<T>)
    ensures IsSubsequence(Filter(p, s), s)
    decreases |s|
  {
    if s != [] {
      var r := Filter(p, DropLast(s));
      FilterIsSubsequence(p, DropLast(s));
      if p(Last(s)) {
        assert DropLast(r + [Last(s)]) == r;
      } else if r != [] {
        FilterMembers(p, DropLast(s));
        assert Last(r) in r;
        assert Last(r) != Last(s);
      }
    }
  }

  /** The filter keeps every copy of an element that passes and no copy of one that fails. */
  lemma {:induction false} FilterCounts<T(!new)>(p: T -> bool, s: seq<T>)
    ensures forall x :: multiset(Filter(p, s))[x] == if p(x) then multiset(s)[x] else 0
    decreases |s|
  {
    if s != [] {
      var t, y := DropLast(s), Last(s);
      FilterCounts(p, t);
      assert s == t + [y];
      assert Filter(p, s) == Filter(p, t) + (if p(y) then [y] else []);
    }
  }

  /** Filtering a sequence all of whose elements pass leaves it unchanged. */
  lemma {:induction false} FilterKeepsAll<T(!new)>(p: T -> bool, s: seq<T>)
    requires forall x :: x in s ==> p(x)
    ensures Filter(p, s) == s
    decreases |s|
  {
    if s != [] {
      var t := DropLast(s);
      assert s == t + [Last(s)];
      assert forall x :: x in t ==> p(x) by {
        forall x | x in t ensures p(x) {
          var i :| 0 <= i < |t| && t[i] == x;
          assert s[i] == x;
        }
      }
      FilterKeepsAll(p, t);
    }
  }

  /** Filtering by a predicate no element satisfies gives the empty sequence. */
  lemma {:induction false} FilterDropsAll<T(!new)>(p: T -> bool, s: seq<T>)
    requires forall x :: x in s ==> !p(x)
    ensures Filter(p, s) == []
    decreases |s|
  {
    if s != [] {
      var t := DropLast(s);
      assert s == t + [Last(s)];
      assert forall x :: x in t ==> x in s;
      FilterDropsAll(p, t);
    }
  }

  /** Filtering distributes over concatenation. */
  lemma {:induction false} FilterAppend<T(!new)>(p: T -> bool, a: seq<T>, b: seq<T>)
    ensures Filter(p, a + b) == Filter(p, a) + Filter(p, b)
    decreases |b|
  {
    if b == [] {
      assert a + b == a;
    } else {
      var b', x := DropLast(b), Last(b);
      FilterAppend(p, a, b');
      assert a + b != [] && DropLast(a + b) == a + b' && Last(a + b) == x;
      assert Filter(p, a + b) == Filter(p, a + b') + (if p(x) then [x] else []);
      assert Filter(p, b) == Filter(p, b') + (if p(x) then [x] else []);
    }
  }

  /** No element occurs twice. */
  predicate Distinct<T(==)>(s: seq<T>)
  {
    forall i, j :: 0 <= i < j < |s| ==> s[i] != s[j]
  }

  /** The set of the elements of `s` (Python `set(s)`). */
  function Elements<T>(s: seq<T>): set<T>
  {
    set x | x in s
  }

  /** Distinctness is exactly "every element is counted at most once". */
  lemma {:induction false} DistinctIffCountsAtMostOne<T>(s: seq<T>)
    ensures Distinct(s) <==> forall x :: multiset(s)[x] <= 1
    decreases |s|
  {
    if s != [] {
      var t, y := DropLast(s), Last(s);
      assert s == t + [y];
      DistinctIffCountsAtMostOne(t);
      assert forall x :: multiset(s)[x] == multiset(t)[x] + (if x == y then 1 else 0);
      if Distinct(s) {
        assert Distinct(t) by {
          forall i, j | 0 <= i < j < |t| ensures t[i] != t[j] {
            assert s[i] == t[i] && s[j] == t[j];
          }
        }
      }
      if forall x :: multiset(s)[x] <= 1 {
        assert forall x :: multiset(t)[x] <= 1 by {
          forall x ensures multiset(t)[x] <= 1 {
            assert multiset(t)[x] <= multiset(s)[x];
          }
        }
        assert y !in t by {
          assert multiset(t)[y] + 1 == multiset(s)[y];
        }
        forall i, j | 0 <= i < j < |s| ensures s[i] != s[j] {
          if j < |t| {
            assert s[i] == t[i] && s[j] == t[j];
          } else {
            assert s[i] == t[i] && t[i] in t;
          }
        }
      }
    }
  }

  /** A sequence has at least as many positions as distinct elements,
      and exactly as many when no element repeats. */
  lemma {:induction false} ElementsCard<T>(s: seq<T>)
    ensures |Elements(s)| <= |s|
    ensures Distinct(s) ==> |Elements(s)| == |s|
    decreases |s|
  {
    if s != [] {
      var t, y := DropLast(s), Last(s);
      assert s == t + [y];
      ElementsCard(t);
      assert Elements(s) == Elements(t) + {y};
      if Distinct(s) {
        assert Distinct(t) by {
          forall i, j | 0 <= i < j < |t| ensures t[i] != t[j] {
            assert s[i] == t[i] && s[j] == t[j];
          }
        }
      }
    }
  }
}
