/** Small shared vocabulary: optional values, results of calls that can raise,
    the "no element occurs twice" predicate used for paths and digests, and
    the "keeps the order of" relation between a filtered list and its source. */
module Common {

  datatype Option<+T> = None | Some(value: T)

  /** The outcome of a call that either returns a value or raises an error. */
  datatype Result<+T, +E> = Success(value: T) | Failure(error: E)

  /** No element occurs more than once in `s`. */
  ghost predicate Distinct<T(!new)>(s: seq<T>) {
    forall x :: multiset(s)[x] <= 1
  }

  /** A sequence without repeats has as many elements as its set of elements. */
  lemma {:induction false} DistinctCardinality<T(!new)>(s: seq<T>)
    requires Distinct(s)
    ensures |set x | x in s| == |s|
  {
    if s != [] {
      assert s == [s[0]] + s[1..];
      assert multiset(s) == multiset{s[0]} + multiset(s[1..]);
      assert s[0] !in s[1..] by {
        assert multiset(s)[s[0]] == 1 + multiset(s[1..])[s[0]];
      }
      assert Distinct(s[1..]) by {
        forall x ensures multiset(s[1..])[x] <= 1 {
          assert multiset(s)[x] <= 1;
        }
      }
      DistinctCardinality(s[1..]);
      assert (set x | x in s) == {s[0]} + (set x | x in s[1..]);
    }
  }

  /** Fewer occurrences of everything keep a sequence free of repeats. */
  lemma DistinctSub<T(!new)>(a: seq<T>, b: seq<T>)
    requires Distinct(b) && multiset(a) <= multiset(b)
    ensures Distinct(a)
  {
    forall x ensures multiset(a)[x] <= 1 {
      assert multiset(a)[x] <= multiset(b)[x];
    }
  }

  /** In a sequence without repeats, the last element does not occur before. */
  lemma DistinctSnoc<T(!new)>(s: seq<T>, x: T)
    requires Distinct(s + [x])
    ensures Distinct(s) && x !in s
  {
    assert multiset(s + [x]) == multiset(s) + multiset{x};
    DistinctSub(s, s + [x]);
    assert multiset(s + [x])[x] == multiset(s)[x] + 1;
  }

  lemma ConcatAssoc<T>(a: seq<T>, b: seq<T>, c: seq<T>)
    ensures (a + b) + c == a + (b + c)
  {
  }

  /** `x` occurs in `s` before some occurrence of `y`. */
  ghost predicate Precedes<T>(s: seq<T>, x: T, y: T) {
    exists a, b :: 0 <= a < b < |s| && s[a] == x && s[b] == y
  }

  /** Every two members of `r` occur in `s` in the same order. */
  ghost predicate InOrder<T>(r: seq<T>, s: seq<T>) {
    forall i, j :: 0 <= i < j < |r| ==> Precedes(s, r[i], r[j])
  }

  /** Dropping the head of `s` keeps the order of what was kept from its tail. */
  lemma InOrderSkip<T>(s: seq<T>, rest: seq<T>)
    requires s != [] && InOrder(rest, s[1..])
    ensures InOrder(rest, s)
  {
    forall i, j | 0 <= i < j < |rest|
      ensures Precedes(s, rest[i], rest[j])
    {
      assert Precedes(s[1..], rest[i], rest[j]);
      var a, b :| 0 <= a < b < |s[1..]| && s[1..][a] == rest[i] && s[1..][b] == rest[j];
      assert s[a + 1] == rest[i] && s[b + 1] == rest[j];
    }
  }

  /** Keeping the head of `s` in front of what was kept from its tail keeps the order. */
  lemma InOrderTake<T>(s: seq<T>, rest: seq<T>)
    requires s != [] && InOrder(rest, s[1..])
    requires forall x :: x in rest ==> x in s[1..]
    ensures InOrder([s[0]] + rest, s)
  {
    var r := [s[0]] + rest;
    InOrderSkip(s, rest);
    forall i, j | 0 <= i < j < |r|
      ensures Precedes(s, r[i], r[j])
    {
      if i == 0 {
        assert r[j] == rest[j - 1] && rest[j - 1] in s[1..];
        var b :| 0 <= b < |s[1..]| && s[1..][b] == r[j];
        assert s[0] == r[0] && s[b + 1] == r[j];
      } else {
        assert r[i] == rest[i - 1] && r[j] == rest[j - 1];
        assert Precedes(s, rest[i - 1], rest[j - 1]);
      }
    }
  }
}
