/**
 * Sequence helpers shared by the query code: filtering, order-preserving subsequences,
 * first matches, and Hibernate's uniqueResult.
 */
module Collections {
  import opened Wrappers

  /** The elements of `s` that satisfy `p`, in their original order. */
  function Filter<T(!new)>(s: seq<T>, p: T -> bool): (r: seq<T>)
    ensures |r| <= |s|
    ensures forall x :: x in r <==> x in s && p(x)
  {
    if s == [] then [] else (if p(s[0]) then [s[0]] else []) + Filter(s[1..], p)
  }

  /** `r` can be obtained from `s` by deleting elements (the order is kept). */
  predicate IsSubsequence<T(==)>(r: seq<T>, s: seq<T>)
    decreases |s|
  {
    r == [] || (s != [] && ((r[0] == s[0] && IsSubsequence(r[1..], s[1..])) || IsSubsequence(r, s[1..])))
  }

  lemma {:induction false} FilterIsSubsequence<T(!new)>(s: seq<T>, p: T -> bool)
    ensures IsSubsequence(Filter(s, p), s)
    decreases |s|
  {
    if s != [] {
      FilterIsSubsequence(s[1..], p);
      var r := Filter(s, p);
      if p(s[0]) {
        assert r[0] == s[0] && r[1..] == Filter(s[1..], p);
      } else {
        assert r == Filter(s[1..], p);
      }
    }
  }

  ghost predicate NoneMatch<T>(s: seq<T>, p: T -> bool) {
    forall i :: 0 <= i < |s| ==> !p(s[i])
  }

  ghost predicate ExactlyOne<T>(s: seq<T>, p: T -> bool) {
    exists i :: 0 <= i < |s| && p(s[i]) && forall j :: 0 <= j < |s| && p(s[j]) ==> j == i
  }

  lemma FilterEmptyIff<T(!new)>(s: seq<T>, p: T -> bool)
    ensures Filter(s, p) == [] <==> NoneMatch(s, p)
  {
    if Filter(s, p) != [] {
      assert Filter(s, p)[0] in Filter(s, p);
    }
  }

  /** A filter has exactly one element iff exactly one position of the input matches. */
  lemma {:induction false} FilterLengthOneIff<T(!new)>(s: seq<T>, p: T -> bool)
    ensures |Filter(s, p)| == 1 <==> ExactlyOne(s, p)
    decreases |s|
  {
    if s != [] {
      var t := s[1..];
      FilterLengthOneIff(t, p);
      FilterEmptyIff(t, p);
      if p(s[0]) {
        assert Filter(s, p) == [s[0]] + Filter(t, p);
        ExactlyOneMatchingHead(s, p);
      } else {
        assert Filter(s, p) == Filter(t, p);
        ExactlyOneSkippingHead(s, p);
      }
    }
  }

  /** When the head matches, it is the only match iff nothing in the tail matches. */
  lemma ExactlyOneMatchingHead<T>(s: seq<T>, p: T -> bool)
    requires s != [] && p(s[0])
    ensures ExactlyOne(s, p) <==> NoneMatch(s[1..], p)
  {
    var t := s[1..];
    if NoneMatch(t, p) {
      forall j | 0 < j < |s| ensures !p(s[j]) {
        assert t[j - 1] == s[j];
      }
    }
    if ExactlyOne(s, p) {
      forall k | 0 <= k < |t| ensures !p(t[k]) {
        assert s[k + 1] == t[k];
      }
    }
  }

  /** When the head does not match, exactly one element matches iff exactly one in the tail does. */
  lemma ExactlyOneSkippingHead<T>(s: seq<T>, p: T -> bool)
    requires s != [] && !p(s[0])
    ensures ExactlyOne(s, p) <==> ExactlyOne(s[1..], p)
  {
    var t := s[1..];
    if ExactlyOne(s, p) {
      var i :| 0 <= i < |s| && p(s[i]) && forall j :: 0 <= j < |s| && p(s[j]) ==> j == i;
      assert i > 0 && t[i - 1] == s[i];
      forall j | 0 <= j < |t| && p(t[j]) ensures j == i - 1 {
        assert s[j + 1] == t[j];
      }
    }
    if ExactlyOne(t, p) {
      var i :| 0 <= i < |t| && p(t[i]) && forall j :: 0 <= j < |t| && p(t[j]) ==> j == i;
      assert s[i + 1] == t[i];
      forall j | 0 <= j < |s| && p(s[j]) ensures j == i + 1 {
        assert j > 0 && t[j - 1] == s[j];
      }
    }
  }

  /** When exactly position `i` matches, the filter is that one element. */
  lemma FilterOfExactlyOneAt<T(!new)>(s: seq<T>, p: T -> bool, i: nat)
    requires i < |s| && p(s[i])
    requires forall j :: 0 <= j < |s| && p(s[j]) ==> j == i
    ensures Filter(s, p) == [s[i]]
  {
    FilterLengthOneIff(s, p);
    var r := Filter(s, p);
    assert r[0] in s && p(r[0]);
    var k :| 0 <= k < |s| && s[k] == r[0];
  }

  /** Filtering keeps every matching element as often as it occurs, and drops the rest. */
  lemma {:induction false} FilterMultiplicity<T(!new)>(s: seq<T>, p: T -> bool, x: T)
    ensures multiset(Filter(s, p))[x] == if p(x) then multiset(s)[x] else 0
    decreases |s|
  {
    if s != [] {
      FilterMultiplicity(s[1..], p, x);
      assert s == [s[0]] + s[1..];
      assert multiset(s) == multiset{s[0]} + multiset(s[1..]);
    }
  }

  /** Filtering a sequence extended at the end: the loop that appends each match as it goes. */
  lemma {:induction false} FilterAppend<T(!new)>(s: seq<T>, x: T, p: T -> bool)
    ensures Filter(s + [x], p) == Filter(s, p) + (if p(x) then [x] else [])
    decreases |s|
  {
    var tail := if p(x) then [x] else [];
    if s == [] {
      assert [x][1..] == [];
      assert Filter([x], p) == tail + Filter([], p);
    } else {
      var t := s + [x];
      var head := if p(s[0]) then [s[0]] else [];
      assert t[0] == s[0] && t[1..] == s[1..] + [x];
      FilterAppend(s[1..], x, p);
      calc {
        Filter(t, p);
        head + Filter(t[1..], p);
        head + (Filter(s[1..], p) + tail);
        (head + Filter(s[1..], p)) + tail;
        Filter(s, p) + tail;
      }
    }
  }

  /** A predicate that holds throughout keeps everything. */
  lemma {:induction false} FilterKeepsAll<T(!new)>(s: seq<T>, p: T -> bool)
    requires forall i :: 0 <= i < |s| ==> p(s[i])
    ensures Filter(s, p) == s
    decreases |s|
  {
    if s != [] {
      FilterKeepsAll(s[1..], p);
      assert s == [s[0]] + s[1..];
    }
  }

  /** Two predicates that agree on every element of `s` filter it alike. */
  lemma {:induction false} FilterSameOn<T(!new)>(s: seq<T>, p: T -> bool, q: T -> bool)
    requires forall i :: 0 <= i < |s| ==> p(s[i]) == q(s[i])
    ensures Filter(s, p) == Filter(s, q)
    decreases |s|
  {
    if s != [] {
      FilterSameOn(s[1..], p, q);
    }
  }

  /** Index of the first element satisfying `p`. */
  function FirstIndex<T>(s: seq<T>, p: T -> bool): (r: Option<nat>)
    ensures r.Some? ==> r.value < |s| && p(s[r.value]) && forall j :: 0 <= j < r.value ==> !p(s[j])
    ensures r.None? ==> forall j :: 0 <= j < |s| ==> !p(s[j])
  {
    if s == [] then None
    else if p(s[0]) then Some(0)
    else match FirstIndex(s[1..], p)
      case None => None
      case Some(k) => Some(k + 1)
  }

  /** The head of a non-empty filter is the element at the first matching position. */
  lemma {:induction false} FilterHeadIsFirstMatch<T(!new)>(s: seq<T>, p: T -> bool)
    requires Filter(s, p) != []
    ensures FirstIndex(s, p).Some? && Filter(s, p)[0] == s[FirstIndex(s, p).value]
    decreases |s|
  {
    if !p(s[0]) {
      FilterHeadIsFirstMatch(s[1..], p);
    }
  }

  /** What Hibernate's uniqueResult makes of a list of matching rows. */
  datatype Lookup<T> = Absent | Unique(value: T) | NonUnique

  function UniqueResult<T>(matches: seq<T>): (r: Lookup<T>) {
    if |matches| == 0 then Absent
    else if |matches| == 1 then Unique(matches[0])
    else NonUnique
  }

  /** The unique-result lookup over `s` by `p`, characterised without Filter. */
  lemma UniqueLookupIff<T(!new)>(s: seq<T>, p: T -> bool)
    ensures UniqueResult(Filter(s, p)) == Absent <==> NoneMatch(s, p)
    ensures UniqueResult(Filter(s, p)).Unique? <==> ExactlyOne(s, p)
    ensures UniqueResult(Filter(s, p)).Unique? ==>
              var x := UniqueResult(Filter(s, p)).value; x in s && p(x)
  {
    FilterEmptyIff(s, p);
    FilterLengthOneIff(s, p);
    if |Filter(s, p)| == 1 {
      assert Filter(s, p)[0] in Filter(s, p);
    }
  }

}
