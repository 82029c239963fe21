/** A stable sort by key, the model of `Array.prototype.sort` with a
    comparator: an element goes before a later one unless the comparator
    says the later one is strictly smaller. */
module Sorting {

  /** Inserts `x` in front of the first element it may precede, so that `x`
      stays ahead of every element with an equal key. */
  function Insert<T, K>(x: T, t: seq<T>, key: T -> K, le: (K, K) -> bool): seq<T>
    decreases |t|
  {
    if |t| == 0 then [x]
    else if le(key(x), key(t[0])) then [x] + t
    else [t[0]] + Insert(x, t[1..], key, le)
  }

  /** Insertion sort from the back. */
  function Sort<T, K>(s: seq<T>, key: T -> K, le: (K, K) -> bool): seq<T>
    decreases |s|
  {
    if |s| == 0 then []
    else Insert(s[0], Sort(s[1..], key, le), key, le)
  }

  lemma {:induction false} InsertPermutation<T, K>(x: T, t: seq<T>, key: T -> K, le: (K, K) -> bool)
    ensures multiset(Insert(x, t, key, le)) == multiset(t) + multiset{x}
    decreases |t|
  {
    if |t| > 0 && !le(key(x), key(t[0])) {
      InsertPermutation(x, t[1..], key, le);
      assert t == [t[0]] + t[1..];
    }
  }

  /** The sort only rearranges: the result is a permutation of `s`. */
  lemma {:induction false} SortPermutation<T, K>(s: seq<T>, key: T -> K, le: (K, K) -> bool)
    ensures multiset(Sort(s, key, le)) == multiset(s)
    decreases |s|
  {
    if |s| > 0 {
      SortPermutation(s[1..], key, le);
      InsertPermutation(s[0], Sort(s[1..], key, le), key, le);
      assert s == [s[0]] + s[1..];
    }
  }

  ghost predicate SortedBy<T, K>(t: seq<T>, key: T -> K, le: (K, K) -> bool) {
    forall i, j :: 0 <= i < j < |t| ==> le(key(t[i]), key(t[j]))
  }

  /** `le` restricted to the keys of the elements of `s` is total and transitive. */
  ghost predicate TotalPreorderOn<T, K>(s: seq<T>, key: T -> K, le: (K, K) -> bool) {
    && (forall x, y :: x in s && y in s ==> le(key(x), key(y)) || le(key(y), key(x)))
    && (forall x, y, z :: x in s && y in s && z in s && le(key(x), key(y)) && le(key(y), key(z)) ==>
          le(key(x), key(z)))
  }

  /** Two elements of `s` whose keys precede each other have the same key. */
  ghost predicate AntisymmetricOn<T, K>(s: seq<T>, key: T -> K, le: (K, K) -> bool) {
    forall x, y :: x in s && y in s && le(key(x), key(y)) && le(key(y), key(x)) ==> key(x) == key(y)
  }

  ghost predicate ReflexiveOn<T, K>(s: seq<T>, key: T -> K, le: (K, K) -> bool) {
    forall x :: x in s ==> le(key(x), key(x))
  }

  /** The elements of `t` with key `k`, in order. */
  function WithKey<T, K(==)>(t: seq<T>, key: T -> K, k: K): seq<T>
    decreases |t|
  {
    if |t| == 0 then []
    else (if key(t[0]) == k then [t[0]] else []) + WithKey(t[1..], key, k)
  }

  /** Elements of `Insert(x, t)` are `x` or elements of `t`. */
  lemma InsertMember<T, K>(x: T, t: seq<T>, key: T -> K, le: (K, K) -> bool, y: T)
    requires y in Insert(x, t, key, le)
    ensures y == x || y in t
  {
    InsertPermutation(x, t, key, le);
    assert y in multiset(Insert(x, t, key, le));
  }

  lemma InsertSortedFront<T, K>(x: T, t: seq<T>, key: T -> K, le: (K, K) -> bool)
    requires |t| > 0 && le(key(x), key(t[0]))
    requires SortedBy(t, key, le)
    requires TotalPreorderOn([x] + t, key, le)
    ensures SortedBy([x] + t, key, le)
  {
    var all := [x] + t;
    var r := [x] + t;
    forall i, j | 0 <= i < j < |r|
      ensures le(key(r[i]), key(r[j]))
    {
      if i == 0 && j > 1 {
        assert r[0] == x && r[1] == t[0] && r[j] == t[j - 1];
        assert le(key(t[0]), key(t[j - 1]));
        assert x in all && t[0] in all && t[j - 1] in all;
      }
    }
  }

  lemma InsertSortedLater<T, K>(x: T, t: seq<T>, key: T -> K, le: (K, K) -> bool)
    requires |t| > 0 && !le(key(x), key(t[0]))
    requires SortedBy(t, key, le)
    requires SortedBy(Insert(x, t[1..], key, le), key, le)
    requires TotalPreorderOn([x] + t, key, le)
    ensures SortedBy([t[0]] + Insert(x, t[1..], key, le), key, le)
  {
    var all := [x] + t;
    var rest := Insert(x, t[1..], key, le);
    assert x in all && t[0] in all;
    assert le(key(t[0]), key(x));
    var r := [t[0]] + rest;
    forall i, j | 0 <= i < j < |r|
      ensures le(key(r[i]), key(r[j]))
    {
      if i == 0 {
        var y := rest[j - 1];
        InsertMember(x, t[1..], key, le, y);
        if y != x {
          var q :| 0 <= q < |t[1..]| && t[1..][q] == y;
          assert t[q + 1] == y;
        }
      } else {
        assert r[i] == rest[i - 1] && r[j] == rest[j - 1];
      }
    }
  }

  lemma {:induction false} InsertSorted<T, K>(x: T, t: seq<T>, key: T -> K, le: (K, K) -> bool)
    requires SortedBy(t, key, le)
    requires TotalPreorderOn([x] + t, key, le)
    ensures SortedBy(Insert(x, t, key, le), key, le)
    decreases |t|
  {
    if |t| == 0 {
    } else if le(key(x), key(t[0])) {
      InsertSortedFront(x, t, key, le);
    } else {
      assert SortedBy(t[1..], key, le);
      assert forall y :: y in [x] + t[1..] ==> y in [x] + t;
      InsertSorted(x, t[1..], key, le);
      InsertSortedLater(x, t, key, le);
    }
  }

  /** When the comparator is a total preorder on the input's keys, the
      result is ordered by it. */
  lemma {:induction false} SortSorted<T, K>(s: seq<T>, key: T -> K, le: (K, K) -> bool)
    requires TotalPreorderOn(s, key, le)
    ensures SortedBy(Sort(s, key, le), key, le)
    decreases |s|
  {
    if |s| > 0 {
      assert forall y :: y in s[1..] ==> y in s;
      SortSorted(s[1..], key, le);
      var t := Sort(s[1..], key, le);
      SortPermutation(s[1..], key, le);
      forall y | y in [s[0]] + t
        ensures y in s
      {
        if y != s[0] {
          assert y in multiset(t);
        }
      }
      InsertSorted(s[0], t, key, le);
    }
  }

  lemma WithKeyCons<T, K>(y: T, u: seq<T>, key: T -> K, k: K)
    ensures WithKey([y] + u, key, k) == (if key(y) == k then [y] else []) + WithKey(u, key, k)
  {
    assert ([y] + u)[0] == y && ([y] + u)[1..] == u;
  }

  lemma InsertWithKeyLater<T, K>(x: T, t: seq<T>, key: T -> K, le: (K, K) -> bool, k: K)
    requires |t| > 0 && le(key(x), key(x)) && !le(key(x), key(t[0]))
    requires WithKey(Insert(x, t[1..], key, le), key, k) == (if key(x) == k then [x] else []) + WithKey(t[1..], key, k)
    ensures WithKey(Insert(x, t, key, le), key, k) == (if key(x) == k then [x] else []) + WithKey(t, key, k)
  {
    var rest := Insert(x, t[1..], key, le);
    var w := WithKey(t[1..], key, k);
    assert Insert(x, t, key, le) == [t[0]] + rest;
    WithKeyCons(t[0], rest, key, k);
    WithKeyCons(t[0], t[1..], key, k);
    assert t == [t[0]] + t[1..];
    if key(t[0]) == k {
      assert key(x) != k;
      assert [] + w == w;
    } else {
      assert [] + WithKey(rest, key, k) == WithKey(rest, key, k);
      assert [] + w == w;
    }
  }

  lemma {:induction false} InsertWithKey<T, K>(x: T, t: seq<T>, key: T -> K, le: (K, K) -> bool, k: K)
    requires le(key(x), key(x))
    ensures WithKey(Insert(x, t, key, le), key, k) == (if key(x) == k then [x] else []) + WithKey(t, key, k)
    decreases |t|
  {
    if |t| == 0 || le(key(x), key(t[0])) {
      WithKeyCons(x, t, key, k);
    } else {
      InsertWithKey(x, t[1..], key, le, k);
      InsertWithKeyLater(x, t, key, le, k);
    }
  }

  /** Stability: the elements sharing any key keep their input order. */
  lemma {:induction false} SortStable<T, K>(s: seq<T>, key: T -> K, le: (K, K) -> bool, k: K)
    requires ReflexiveOn(s, key, le)
    ensures WithKey(Sort(s, key, le), key, k) == WithKey(s, key, k)
    decreases |s|
  {
    if |s| > 0 {
      assert s[0] in s;
      assert forall y :: y in s[1..] ==> y in s;
      SortStable(s[1..], key, le, k);
      InsertWithKey(s[0], Sort(s[1..], key, le), key, le, k);
    }
  }

  lemma {:induction false} WithKeyWitness<T, K>(t: seq<T>, key: T -> K, k: K) returns (j: nat)
    requires WithKey(t, key, k) != []
    ensures j < |t| && key(t[j]) == k
    decreases |t|
  {
    if key(t[0]) == k {
      j := 0;
    } else {
      var j' := WithKeyWitness(t[1..], key, k);
      j := j' + 1;
    }
  }

  lemma WithKeyHead<T, K>(t: seq<T>, key: T -> K)
    ensures |t| > 0 ==> WithKey(t, key, key(t[0])) != []
  {
  }

  lemma WithKeyTail<T, K>(t: seq<T>, key: T -> K, k: K)
    requires |t| > 0
    ensures WithKey(t[1..], key, k) == if key(t[0]) == k then WithKey(t, key, k)[1..] else WithKey(t, key, k)
  {
  }

  /** Two non-empty sequences sorted by an antisymmetric `le` that agree on
      every key's elements start with the same element. */
  lemma SameHead<T, K>(t: seq<T>, u: seq<T>, key: T -> K, le: (K, K) -> bool)
    requires |t| > 0 && |u| > 0
    requires SortedBy(t, key, le) && SortedBy(u, key, le)
    requires AntisymmetricOn(t + u, key, le)
    requires forall k :: WithKey(t, key, k) == WithKey(u, key, k)
    ensures t[0] == u[0]
  {
    var k1, k2 := key(t[0]), key(u[0]);
    WithKeyHead(t, key);
    WithKeyHead(u, key);
    assert WithKey(t, key, k1) == WithKey(u, key, k1);
    assert WithKey(t, key, k2) == WithKey(u, key, k2);
    var j := WithKeyWitness(u, key, k1);
    var i := WithKeyWitness(t, key, k2);
    assert t[0] in t + u && u[0] in t + u;
    if i > 0 && j > 0 {
      assert le(key(u[0]), key(u[j]));
      assert le(key(t[0]), key(t[i]));
    }
    assert k1 == k2;
    assert WithKey(t, key, k1)[0] == t[0];
    assert WithKey(u, key, k1)[0] == u[0];
  }

  lemma BothEmptyOrNot<T, K>(t: seq<T>, u: seq<T>, key: T -> K)
    requires forall k :: WithKey(t, key, k) == WithKey(u, key, k)
    ensures |t| == 0 <==> |u| == 0
  {
    WithKeyHead(t, key);
    WithKeyHead(u, key);
    if |t| > 0 {
      assert WithKey(t, key, key(t[0])) == WithKey(u, key, key(t[0]));
    }
    if |u| > 0 {
      assert WithKey(t, key, key(u[0])) == WithKey(u, key, key(u[0]));
    }
  }

  lemma SortedTail<T, K>(t: seq<T>, key: T -> K, le: (K, K) -> bool)
    requires |t| > 0 && SortedBy(t, key, le)
    ensures SortedBy(t[1..], key, le)
  {
    forall i, j | 0 <= i < j < |t[1..]|
      ensures le(key(t[1..][i]), key(t[1..][j]))
    {
      assert t[1..][i] == t[i + 1] && t[1..][j] == t[j + 1];
    }
  }

  lemma AntisymmetricTails<T, K>(t: seq<T>, u: seq<T>, key: T -> K, le: (K, K) -> bool)
    requires |t| > 0 && |u| > 0
    requires AntisymmetricOn(t + u, key, le)
    ensures AntisymmetricOn(t[1..] + u[1..], key, le)
  {
    forall y | y in t[1..] + u[1..]
      ensures y in t + u
    {
      if y in t[1..] {
        var q :| 0 <= q < |t[1..]| && t[1..][q] == y;
        assert (t + u)[q + 1] == y;
      } else {
        var q :| 0 <= q < |u[1..]| && u[1..][q] == y;
        assert (t + u)[|t| + q + 1] == y;
      }
    }
  }

  lemma TailsAgree<T, K>(t: seq<T>, u: seq<T>, key: T -> K)
    requires |t| > 0 && |u| > 0 && t[0] == u[0]
    requires forall k :: WithKey(t, key, k) == WithKey(u, key, k)
    ensures forall k :: WithKey(t[1..], key, k) == WithKey(u[1..], key, k)
  {
    forall k
      ensures WithKey(t[1..], key, k) == WithKey(u[1..], key, k)
    {
      WithKeyTail(t, key, k);
      WithKeyTail(u, key, k);
    }
  }

  /** A stable ordering is unique: two sequences ordered by an antisymmetric
      `le` that agree on the order within every key are equal. So any stable
      sort, whatever its algorithm, agrees with `Sort`. */
  lemma {:induction false} StableOrderUnique<T, K>(t: seq<T>, u: seq<T>, key: T -> K, le: (K, K) -> bool)
    requires SortedBy(t, key, le) && SortedBy(u, key, le)
    requires AntisymmetricOn(t + u, key, le)
    requires forall k :: WithKey(t, key, k) == WithKey(u, key, k)
    ensures t == u
    decreases |t|
  {
    BothEmptyOrNot(t, u, key);
    if |t| > 0 {
      SameHead(t, u, key, le);
      SortedTail(t, key, le);
      SortedTail(u, key, le);
      AntisymmetricTails(t, u, key, le);
      TailsAgree(t, u, key);
      StableOrderUnique(t[1..], u[1..], key, le);
      assert t == [t[0]] + t[1..] && u == [u[0]] + u[1..];
    }
  }
}
