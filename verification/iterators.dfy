/** The few iterator helpers the overlay relies on, over finite sequences:
    filtering, taking the first match, and the "single or null" reduction. */
module Iterators {
  import opened Wrappers

  /** The elements of `s` satisfying `p`, in their original order. */
  function Filter<T(==,!new)>(s: seq<T>, p: T -> bool): (r: seq<T>)
    ensures |r| <= |s|
    ensures forall x :: x in r <==> x in s && p(x)
    ensures forall i :: 0 <= i < |r| ==> p(r[i])
  {
    if |s| == 0 then []
    else if p(s[0]) then [s[0]] + Filter(s[1..], p)
    else Filter(s[1..], p)
  }

  /** The position of the first element of `s` satisfying `p`, or `|s|` when none does. */
  function FirstIndex<T>(s: seq<T>, p: T -> bool): (i: nat)
    ensures i <= |s|
    ensures forall j :: 0 <= j < i ==> !p(s[j])
    ensures i < |s| ==> p(s[i])
  {
    if |s| == 0 then 0
    else if p(s[0]) then 0
    else 1 + FirstIndex(s[1..], p)
  }

  /** The first element of `s` satisfying `p`, if any. */
  function FirstMatch<T(==,!new)>(s: seq<T>, p: T -> bool): (r: Option<T>)
    ensures r.None? <==> forall x :: x in s ==> !p(x)
    ensures r.Some? ==> r.value in s && p(r.value)
    ensures r.Some? ==> exists i :: 0 <= i < |s| && s[i] == r.value && forall j :: 0 <= j < i ==> !p(s[j])
  {
    var i := FirstIndex(s, p);
    if i < |s| then Some(s[i]) else None
  }

  /** Whether `s` holds more than one element: the failure of `SingleOrNull`. */
  datatype Cardinality = MoreThanOne

  /** The only element of `s`, or none when `s` is empty; more than one element is an error. */
  function SingleOrNull<T>(s: seq<T>): (r: Result<Option<T>, Cardinality>)
    ensures r.Failure? <==> |s| > 1
    ensures r == Success(None) <==> |s| == 0
    ensures r.Success? && r.value.Some? ==> s == [r.value.value]
  {
    if |s| == 0 then Success(None)
    else if |s| == 1 then Success(Some(s[0]))
    else Failure(MoreThanOne)
  }

  /** The first match skips a leading element that does not match. */
  lemma FirstMatchSkip<T(!new)>(s: seq<T>, p: T -> bool)
    requires |s| > 0 && !p(s[0])
    ensures FirstMatch(s, p) == FirstMatch(s[1..], p)
  {
    assert FirstIndex(s, p) == 1 + FirstIndex(s[1..], p);
  }

  /** Filtering by a weaker predicate first does not change which element matches first. */
  lemma {:induction false} FirstMatchOfFilter<T(!new)>(s: seq<T>, p: T -> bool, q: T -> bool)
    requires forall x :: p(x) ==> q(x)
    ensures FirstMatch(Filter(s, q), p) == FirstMatch(s, p)
  {
    if |s| > 0 {
      var rest := Filter(s[1..], q);
      FirstMatchOfFilter(s[1..], p, q);
      if p(s[0]) {
        assert Filter(s, q) == [s[0]] + rest;
        assert FirstIndex(s, p) == 0;
        assert FirstIndex([s[0]] + rest, p) == 0;
      } else if q(s[0]) {
        assert Filter(s, q) == [s[0]] + rest;
        assert ([s[0]] + rest)[1..] == rest;
        FirstMatchSkip([s[0]] + rest, p);
        FirstMatchSkip(s, p);
      } else {
        assert Filter(s, q) == rest;
        FirstMatchSkip(s, p);
      }
    }
  }

  /** Filtering by a weaker predicate before a stronger one changes nothing. */
  lemma {:induction false} FilterNarrowing<T(!new)>(s: seq<T>, p: T -> bool, q: T -> bool)
    requires forall x :: p(x) ==> q(x)
    ensures Filter(Filter(s, q), p) == Filter(s, p)
  {
    if |s| > 0 {
      FilterNarrowing(s[1..], p, q);
      if q(s[0]) {
        assert Filter(s, q) == [s[0]] + Filter(s[1..], q);
        assert ([s[0]] + Filter(s[1..], q))[1..] == Filter(s[1..], q);
      }
    }
  }

  /** Filtering keeps nothing when no element satisfies the predicate. */
  lemma {:induction false} FilterNone<T(!new)>(s: seq<T>, p: T -> bool)
    requires forall x :: x in s ==> !p(x)
    ensures Filter(s, p) == []
  {
    if |s| > 0 {
      assert s[0] in s;
      FilterNone(s[1..], p);
    }
  }

  /** Filtering a concatenation filters each part. */
  lemma {:induction false} FilterConcat<T(!new)>(a: seq<T>, b: seq<T>, p: T -> bool)
    ensures Filter(a + b, p) == Filter(a, p) + Filter(b, p)
  {
    if |a| > 0 {
      assert (a + b)[1..] == a[1..] + b;
      FilterConcat(a[1..], b, p);
    } else {
      assert a + b == b;
    }
  }

  /** When at most one element satisfies `p`, filtering keeps exactly the first match. */
  lemma {:induction false} FilterAtMostOne<T(!new)>(s: seq<T>, p: T -> bool)
    requires forall i, j :: 0 <= i < j < |s| ==> !(p(s[i]) && p(s[j]))
    ensures Filter(s, p) == (if FirstMatch(s, p).Some? then [FirstMatch(s, p).value] else [])
  {
    if |s| > 0 {
      FilterAtMostOne(s[1..], p);
      if p(s[0]) {
        assert forall x :: x in s[1..] ==> !p(x) by {
          forall x | x in s[1..] ensures !p(x) {
            var k :| 0 <= k < |s[1..]| && s[1..][k] == x;
            assert s[k + 1] == x;
          }
        }
      }
    }
  }
}
