/** Kotlin's `filter` on lists, and the two removals the store builds on
    it: dropping every copy of a value (`filter { it != x }`) and dropping
    the first copy only (`MutableList.remove(x)`). */
module Sequences {

  /** `filter(keep)`: the elements that `keep` accepts, in their order. */
  function Filter<T>(s: seq<T>, keep: T -> bool): seq<T>
  {
    if s == [] then [] else (if keep(s[0]) then [s[0]] else []) + Filter(s[1..], keep)
  }

  /** Every accepted element stays exactly as often as it occurred; every
      rejected one goes. */
  lemma {:induction false} FilterCount<T>(s: seq<T>, keep: T -> bool, x: T)
    ensures multiset(Filter(s, keep))[x] == if keep(x) then multiset(s)[x] else 0
    ensures x in Filter(s, keep) <==> x in s && keep(x)
  {
    if s != [] {
      FilterCount(s[1..], keep, x);
      assert s == [s[0]] + s[1..];
    }
  }

  /** A filter never lengthens a list. */
  lemma {:induction false} FilterLength<T>(s: seq<T>, keep: T -> bool)
    ensures |Filter(s, keep)| <= |s|
  {
    if s != [] {
      FilterLength(s[1..], keep);
    }
  }

  /** Filtering distributes over concatenation, so the kept elements keep
      their relative order. */
  lemma {:induction false} FilterAppend<T>(a: seq<T>, b: seq<T>, keep: T -> bool)
    ensures Filter(a + b, keep) == Filter(a, keep) + Filter(b, keep)
  {
    if a == [] {
      assert a + b == b;
    } else {
      var head := if keep(a[0]) then [a[0]] else [];
      assert (a + b)[0] == a[0];
      assert (a + b)[1..] == a[1..] + b;
      FilterAppend(a[1..], b, keep);
      calc {
        Filter(a + b, keep);
        head + Filter(a[1..] + b, keep);
        head + (Filter(a[1..], keep) + Filter(b, keep));
        (head + Filter(a[1..], keep)) + Filter(b, keep);
        Filter(a, keep) + Filter(b, keep);
      }
    }
  }

  /** A filter that accepts every element changes nothing. */
  lemma {:induction false} FilterAll<T>(s: seq<T>, keep: T -> bool)
    requires forall x :: x in s ==> keep(x)
    ensures Filter(s, keep) == s
  {
    if s != [] {
      assert s[0] in s;
      FilterAll(s[1..], keep);
      assert s == [s[0]] + s[1..];
    }
  }

  /** Filtering twice is filtering once. */
  lemma {:induction false} FilterIdempotent<T>(s: seq<T>, keep: T -> bool)
    ensures Filter(Filter(s, keep), keep) == Filter(s, keep)
  {
    forall x | x in Filter(s, keep) ensures keep(x) {
      FilterCount(s, keep, x);
    }
    FilterAll(Filter(s, keep), keep);
  }

  /** The test of `filter { it != x }`. */
  function Differs<T(==)>(x: T): T -> bool
  {
    y => y != x
  }

  /** s without any element equal to x, the others kept in their order. */
  function RemoveAll<T(==)>(s: seq<T>, x: T): seq<T>
  {
    Filter(s, Differs(x))
  }

  /** Every copy of x goes, every other element stays as often as it was. */
  lemma {:induction false} RemoveAllCounts<T>(s: seq<T>, x: T)
    ensures x !in RemoveAll(s, x)
    ensures multiset(RemoveAll(s, x)) == multiset(s)[x := 0]
  {
    if s != [] {
      RemoveAllCounts(s[1..], x);
      assert s == [s[0]] + s[1..];
      assert RemoveAll(s, x) == (if s[0] != x then [s[0]] else []) + RemoveAll(s[1..], x);
    }
  }

  /** s without its first element equal to x; s itself when x does not occur. */
  function RemoveFirst<T(==)>(s: seq<T>, x: T): seq<T>
  {
    if s == [] then []
    else if s[0] == x then s[1..]
    else [s[0]] + RemoveFirst(s[1..], x)
  }

  /** Exactly one copy of x goes when there is one; nothing changes otherwise. */
  lemma {:induction false} RemoveFirstCounts<T>(s: seq<T>, x: T)
    ensures x in s ==> multiset(RemoveFirst(s, x)) == multiset(s) - multiset{x} && |RemoveFirst(s, x)| == |s| - 1
    ensures x !in s ==> RemoveFirst(s, x) == s
  {
    if s != [] {
      RemoveFirstCounts(s[1..], x);
      assert s == [s[0]] + s[1..];
    }
  }

  /** Whatever the first-occurrence removal leaves of x, removing every copy
      afterwards gives the same list as removing every copy at once. */
  lemma {:induction false} RemoveAllAfterRemoveFirst<T>(s: seq<T>, x: T)
    ensures RemoveAll(RemoveFirst(s, x), x) == RemoveAll(s, x)
  {
    if s != [] && s[0] != x {
      var rest := RemoveFirst(s[1..], x);
      RemoveAllAfterRemoveFirst(s[1..], x);
      assert ([s[0]] + rest)[0] == s[0];
      assert ([s[0]] + rest)[1..] == rest;
    }
  }

  /** When x occurs at most once, removing the first copy removes them all. */
  lemma {:induction false} RemoveFirstOfSingle<T>(s: seq<T>, x: T)
    requires multiset(s)[x] <= 1
    ensures RemoveFirst(s, x) == RemoveAll(s, x)
  {
    if s != [] {
      assert s == [s[0]] + s[1..];
      if s[0] == x {
        assert x !in multiset(s[1..]);
        FilterAll(s[1..], Differs(x));
      } else {
        var rest := RemoveFirst(s[1..], x);
        RemoveFirstOfSingle(s[1..], x);
        assert ([s[0]] + rest)[0] == s[0];
        assert ([s[0]] + rest)[1..] == rest;
      }
    }
  }
}
