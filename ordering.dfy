/** Stable sorting by a key, as Kotlin's `sortedBy` does it, and the string
    order the report sorts surnames by. */
module Ordering {
  import opened Sequences

  /** le is reflexive, total and transitive: an order on keys that may tie. */
  ghost predicate TotalPreorder<K(!new)>(le: (K, K) -> bool) {
    && (forall a :: le(a, a))
    && (forall a, b :: le(a, b) || le(b, a))
    && (forall a, b, c :: le(a, b) && le(b, c) ==> le(a, c))
  }

  /** The keys of s never go down. */
  ghost predicate SortedBy<T, K>(s: seq<T>, key: T -> K, le: (K, K) -> bool) {
    forall i, j :: 0 <= i < j < |s| ==> le(key(s[i]), key(s[j]))
  }

  /** x placed in front of the first element whose key it does not exceed. */
  function InsertBy<T, K>(x: T, s: seq<T>, key: T -> K, le: (K, K) -> bool): seq<T>
  {
    if s == [] then [x]
    else if le(key(x), key(s[0])) then [x] + s
    else [s[0]] + InsertBy(x, s[1..], key, le)
  }

  /** Insertion sort: the list ordered by key, ties left in input order. */
  function SortBy<T, K>(s: seq<T>, key: T -> K, le: (K, K) -> bool): seq<T>
  {
    if s == [] then [] else InsertBy(s[0], SortBy(s[1..], key, le), key, le)
  }

  /** Inserting adds exactly x. */
  lemma {:induction false} InsertByPermutes<T, K>(x: T, s: seq<T>, key: T -> K, le: (K, K) -> bool)
    ensures |InsertBy(x, s, key, le)| == |s| + 1
    ensures multiset(InsertBy(x, s, key, le)) == multiset(s) + multiset{x}
  {
    if s != [] && !le(key(x), key(s[0])) {
      InsertByPermutes(x, s[1..], key, le);
      assert s == [s[0]] + s[1..];
    }
  }

  /** Sorting neither loses nor adds an element. */
  lemma {:induction false} SortByPermutes<T, K>(s: seq<T>, key: T -> K, le: (K, K) -> bool)
    ensures |SortBy(s, key, le)| == |s|
    ensures multiset(SortBy(s, key, le)) == multiset(s)
  {
    if s != [] {
      SortByPermutes(s[1..], key, le);
      InsertByPermutes(s[0], SortBy(s[1..], key, le), key, le);
      assert s == [s[0]] + s[1..];
    }
  }

  /** The test "has key k". */
  function HasKey<T, K(==)>(key: T -> K, k: K): T -> bool
  {
    x => key(x) == k
  }

  /** The elements of s whose key is k, in order. */
  function KeyFilter<T, K(==)>(s: seq<T>, key: T -> K, k: K): seq<T>
  {
    Filter(s, HasKey(key, k))
  }

  /** Inserting into a non-empty list puts either x or the old head first. */
  lemma InsertByHead<T, K>(x: T, s: seq<T>, key: T -> K, le: (K, K) -> bool)
    requires s != []
    ensures InsertBy(x, s, key, le)[0] == x || InsertBy(x, s, key, le)[0] == s[0]
  {
  }

  lemma {:induction false} InsertBySorted<T, K(!new)>(x: T, s: seq<T>, key: T -> K, le: (K, K) -> bool)
    requires TotalPreorder(le)
    requires SortedBy(s, key, le)
    ensures SortedBy(InsertBy(x, s, key, le), key, le)
  {
    if s == [] {
    } else if le(key(x), key(s[0])) {
      var r := [x] + s;
      forall i, j | 0 <= i < j < |r| ensures le(key(r[i]), key(r[j])) {
        if i == 0 {
          assert r[j] == s[j - 1];
          if j > 1 {
            assert le(key(s[0]), key(s[j - 1]));
          }
        } else {
          assert r[i] == s[i - 1] && r[j] == s[j - 1];
        }
      }
    } else {
      var tail := s[1..];
      assert SortedBy(tail, key, le) by {
        forall i, j | 0 <= i < j < |tail| ensures le(key(tail[i]), key(tail[j])) {
          assert tail[i] == s[i + 1] && tail[j] == s[j + 1];
        }
      }
      var rest := InsertBy(x, tail, key, le);
      InsertBySorted(x, tail, key, le);
      assert le(key(s[0]), key(x));
      assert le(key(s[0]), key(rest[0])) by {
        if tail != [] {
          InsertByHead(x, tail, key, le);
          assert tail[0] == s[1];
        }
      }
      var r := [s[0]] + rest;
      forall i, j | 0 <= i < j < |r| ensures le(key(r[i]), key(r[j])) {
        assert r[j] == rest[j - 1];
        if i > 0 {
          assert r[i] == rest[i - 1];
        } else if j > 1 {
          assert le(key(rest[0]), key(rest[j - 1]));
        }
      }
    }
  }

  /** The result of sorting is ordered by key. */
  lemma {:induction false} SortBySorted<T, K(!new)>(s: seq<T>, key: T -> K, le: (K, K) -> bool)
    requires TotalPreorder(le)
    ensures SortedBy(SortBy(s, key, le), key, le)
  {
    if s != [] {
      SortBySorted(s[1..], key, le);
      InsertBySorted(s[0], SortBy(s[1..], key, le), key, le);
    }
  }

  /** Inserting x adds x to its own key's run and nowhere else; it lands in
      front of every element with the same key. */
  lemma {:induction false} InsertByKeyFilter<T, K(!new)>(x: T, s: seq<T>, key: T -> K, le: (K, K) -> bool, k: K)
    requires forall a :: le(a, a)
    ensures KeyFilter(InsertBy(x, s, key, le), key, k) == (if key(x) == k then [x] else []) + KeyFilter(s, key, k)
  {
    var hx := if key(x) == k then [x] else [];
    if s == [] {
      assert [x][1..] == [];
    } else if le(key(x), key(s[0])) {
      assert ([x] + s)[0] == x;
      assert ([x] + s)[1..] == s;
    } else {
      var h0 := if key(s[0]) == k then [s[0]] else [];
      assert key(s[0]) != key(x) by {
        assert le(key(x), key(x));
      }
      var rest := InsertBy(x, s[1..], key, le);
      assert ([s[0]] + rest)[0] == s[0];
      assert ([s[0]] + rest)[1..] == rest;
      InsertByKeyFilter(x, s[1..], key, le, k);
      assert h0 == [] || hx == [];
      calc {
        KeyFilter(InsertBy(x, s, key, le), key, k);
        KeyFilter([s[0]] + rest, key, k);
        h0 + KeyFilter(rest, key, k);
        h0 + (hx + KeyFilter(s[1..], key, k));
        hx + (h0 + KeyFilter(s[1..], key, k));
        hx + KeyFilter(s, key, k);
      }
    }
  }

  /** Sorting is stable: for every key, the elements with that key appear in
      the order they had in the input. */
  lemma {:induction false} SortByStable<T, K(!new)>(s: seq<T>, key: T -> K, le: (K, K) -> bool, k: K)
    requires forall a :: le(a, a)
    ensures KeyFilter(SortBy(s, key, le), key, k) == KeyFilter(s, key, k)
  {
    if s != [] {
      SortByStable(s[1..], key, le, k);
      InsertByKeyFilter(s[0], SortBy(s[1..], key, le), key, le, k);
    }
  }

  /** Lexicographic order on strings, a proper prefix first: the order of
      Kotlin's String.compareTo. */
  function LexLe(a: string, b: string): bool
  {
    if a == [] then true
    else if b == [] then false
    else if a[0] != b[0] then a[0] < b[0]
    else LexLe(a[1..], b[1..])
  }

  lemma {:induction false} LexLeReflexive(a: string)
    ensures LexLe(a, a)
  {
    if a != [] {
      LexLeReflexive(a[1..]);
    }
  }

  lemma {:induction false} LexLeTotal(a: string, b: string)
    ensures LexLe(a, b) || LexLe(b, a)
  {
    if a != [] && b != [] && a[0] == b[0] {
      LexLeTotal(a[1..], b[1..]);
    }
  }

  lemma {:induction false} LexLeTransitive(a: string, b: string, c: string)
    requires LexLe(a, b) && LexLe(b, c)
    ensures LexLe(a, c)
  {
    if a != [] && b != [] && c != [] && a[0] == b[0] && b[0] == c[0] {
      LexLeTransitive(a[1..], b[1..], c[1..]);
    }
  }

  /** Two surnames that sort both ways are the same surname. */
  lemma {:induction false} LexLeAntisymmetric(a: string, b: string)
    requires LexLe(a, b) && LexLe(b, a)
    ensures a == b
  {
    if a != [] && b != [] {
      LexLeAntisymmetric(a[1..], b[1..]);
      assert a == [a[0]] + a[1..] && b == [b[0]] + b[1..];
    }
  }

  lemma LexLeTotalPreorder()
    ensures TotalPreorder(LexLe)
  {
    forall a ensures LexLe(a, a) {
      LexLeReflexive(a);
    }
    forall a, b ensures LexLe(a, b) || LexLe(b, a) {
      LexLeTotal(a, b);
    }
    forall a, b, c | LexLe(a, b) && LexLe(b, c) ensures LexLe(a, c) {
      LexLeTransitive(a, b, c);
    }
  }
}
