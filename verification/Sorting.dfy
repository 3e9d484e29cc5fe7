/** Sorting by a text key with an algorithm that may be unstable. */
module Sorting {
  import opened Basics

  /** The order of Go strings. */
  predicate Less(a: Bytes, b: Bytes) {
    b != [] && (a == [] || a[0] < b[0] || (a[0] == b[0] && Less(a[1..], b[1..])))
  }

  lemma {:induction false} LessTotal(a: Bytes, b: Bytes)
    ensures a == b || Less(a, b) || Less(b, a)
    ensures !(Less(a, b) && Less(b, a)) && !Less(a, a)
    decreases |a|
  {
    if a != [] && b != [] {
      LessTotal(a[1..], b[1..]);
      assert a == [a[0]] + a[1..] && b == [b[0]] + b[1..];
    }
    if a != [] {
      LessTotal(a[1..], a[1..]);
    }
  }

  /** What a sort by key may return: the same elements, no inversion. Elements with equal keys come
      in any order. */
  ghost predicate IsSortOf<T>(key: T -> Bytes, sorted: seq<T>, s: seq<T>) {
    && multiset(sorted) == multiset(s)
    && forall i, j :: 0 <= i < j < |sorted| ==> !Less(key(sorted[j]), key(sorted[i]))
  }

  ghost predicate DistinctKeys<T>(key: T -> Bytes, s: seq<T>) {
    forall i, j :: 0 <= i < j < |s| ==> key(s[i]) != key(s[j])
  }

  ghost predicate SameElements<T(!new)>(a: seq<T>, b: seq<T>) {
    forall x :: x in a <==> x in b
  }

  ghost predicate StrictlySorted<T>(key: T -> Bytes, s: seq<T>) {
    forall i, j :: 0 <= i < j < |s| ==> Less(key(s[i]), key(s[j]))
  }

  lemma {:induction false} DistinctKeysOnce<T>(key: T -> Bytes, s: seq<T>, x: T)
    requires DistinctKeys(key, s)
    ensures multiset(s)[x] <= 1
  {
    if s != [] {
      DistinctKeysOnce(key, s[1..], x);
      assert s == [s[0]] + s[1..];
      assert x == s[0] ==> x !in s[1..];
    }
  }

  /** Where keys are distinct the result of a sort is strictly sorted. */
  lemma SortIsStrict<T(!new)>(key: T -> Bytes, sorted: seq<T>, s: seq<T>)
    requires IsSortOf(key, sorted, s) && DistinctKeys(key, s)
    ensures StrictlySorted(key, sorted) && SameElements(sorted, s)
  {
    assert forall x :: x in sorted <==> x in multiset(sorted);
    assert forall x :: x in s <==> x in multiset(s);
    forall i, j | 0 <= i < j < |sorted| ensures Less(key(sorted[i]), key(sorted[j])) {
      LessTotal(key(sorted[i]), key(sorted[j]));
      if key(sorted[i]) == key(sorted[j]) {
        SameKeySameElement(key, s, sorted[i], sorted[j]);
        DistinctKeysOnce(key, s, sorted[i]);
        TwoPlaces(sorted, i, j);
        assert false;
      }
    }
  }

  lemma SameKeySameElement<T>(key: T -> Bytes, s: seq<T>, x: T, y: T)
    requires DistinctKeys(key, s) && x in s && y in s && key(x) == key(y)
    ensures x == y
  {
    var i :| 0 <= i < |s| && s[i] == x;
    var j :| 0 <= j < |s| && s[j] == y;
  }

  lemma TwoPlaces<T>(s: seq<T>, i: nat, j: nat)
    requires i < j < |s| && s[i] == s[j]
    ensures multiset(s)[s[i]] >= 2
  {
    assert s == s[..j] + [s[j]] + s[j + 1..];
    assert s[i] in s[..j];
    assert multiset(s) == multiset(s[..j]) + multiset{s[j]} + multiset(s[j + 1..]);
  }

  /** There is only one strictly sorted arrangement of a set of elements. */
  lemma {:induction false} StrictlySortedUnique<T(!new)>(key: T -> Bytes, a: seq<T>, b: seq<T>)
    requires StrictlySorted(key, a) && StrictlySorted(key, b) && SameElements(a, b)
    ensures a == b
  {
    assert b != [] ==> b[0] in b && b[0] in a;
    if a != [] {
      assert a[0] in a && a[0] in b && b[0] in b && b[0] in a;
      var j :| 0 <= j < |b| && b[j] == a[0];
      var i :| 0 <= i < |a| && a[i] == b[0];
      LessTotal(key(a[0]), key(b[0]));
      assert i == 0 && j == 0;
      forall x ensures x in a[1..] <==> x in b[1..] {
        NotAgain(key, a, x);
        NotAgain(key, b, x);
      }
      StrictlySortedUnique(key, a[1..], b[1..]);
      assert a == [a[0]] + a[1..] && b == [b[0]] + b[1..];
    }
  }

  lemma NotAgain<T>(key: T -> Bytes, s: seq<T>, x: T)
    requires StrictlySorted(key, s) && s != []
    ensures x in s[1..] <==> x in s && x != s[0]
  {
    LessTotal(key(s[0]), key(s[0]));
    assert s == [s[0]] + s[1..];
    assert forall k :: 0 <= k < |s[1..]| ==> s[1..][k] == s[k + 1] && Less(key(s[0]), key(s[k + 1]));
  }

  /* When the result of a sort is determined */

  /** Elements with equal keys are equal. */
  ghost predicate TiesEqual<T(!new)>(key: T -> Bytes, s: seq<T>) {
    forall x, y :: x in s && y in s && key(x) == key(y) ==> x == y
  }

  lemma SameMembers<T(!new)>(a: seq<T>, b: seq<T>)
    requires multiset(a) == multiset(b)
    ensures SameElements(a, b) && |a| == |b|
  {
    assert forall x :: x in a <==> x in multiset(a);
    assert forall x :: x in b <==> x in multiset(b);
    assert |multiset(a)| == |a| && |multiset(b)| == |b|;
  }

  lemma {:induction false} SortedUnique<T(!new)>(key: T -> Bytes, a: seq<T>, b: seq<T>)
    requires IsSortOf(key, a, b) && IsSortOf(key, b, b) && TiesEqual(key, a)
    ensures a == b
  {
    SameMembers(a, b);
    if a != [] {
      SameFirst(key, a, b);
      SameRest(a, b);
      assert forall x :: x in a[1..] ==> x in a;
      SortedUnique(key, a[1..], b[1..]);
      assert a == [a[0]] + a[1..] && b == [b[0]] + b[1..];
    }
  }

  lemma SameFirst<T(!new)>(key: T -> Bytes, a: seq<T>, b: seq<T>)
    requires IsSortOf(key, a, b) && IsSortOf(key, b, b) && TiesEqual(key, a) && a != [] && b != []
    ensures a[0] == b[0]
  {
    SameMembers(a, b);
    assert a[0] in b && b[0] in a;
    LessTotal(key(a[0]), key(b[0]));
  }

  lemma SameRest<T>(a: seq<T>, b: seq<T>)
    requires multiset(a) == multiset(b) && a != [] && b != [] && a[0] == b[0]
    ensures multiset(a[1..]) == multiset(b[1..])
  {
    assert a == [a[0]] + a[1..] && b == [b[0]] + b[1..];
    assert multiset(a[1..]) == multiset(a) - multiset{a[0]};
    assert multiset(b[1..]) == multiset(b) - multiset{b[0]};
  }

  lemma SwapTie<T(!new)>(key: T -> Bytes, s: seq<T>, sorted: seq<T>, i: nat, j: nat)
    requires IsSortOf(key, sorted, s) && i < j < |sorted| && key(sorted[i]) == key(sorted[j])
    ensures IsSortOf(key, sorted[i := sorted[j]][j := sorted[i]], s)
  {
    var other := sorted[i := sorted[j]][j := sorted[i]];
    assert forall k :: 0 <= k < |sorted| ==> key(other[k]) == key(sorted[k]);
    assert multiset(other) == multiset(sorted);
  }

  /** All sorts of a list give one result if and only if elements with equal keys are equal. */
  lemma SortDetermined<T(!new)>(key: T -> Bytes, s: seq<T>, sorted: seq<T>)
    requires IsSortOf(key, sorted, s)
    ensures (forall other :: IsSortOf(key, other, s) ==> other == sorted) <==> TiesEqual(key, s)
  {
    SameMembers(sorted, s);
    if TiesEqual(key, s) {
      forall other | IsSortOf(key, other, s) ensures other == sorted {
        SameMembers(other, s);
        SortedUnique(key, other, sorted);
      }
    } else {
      var x, y :| x in s && y in s && key(x) == key(y) && x != y;
      assert x in sorted && y in sorted;
      var i :| 0 <= i < |sorted| && sorted[i] == x;
      var j :| 0 <= j < |sorted| && sorted[j] == y;
      var a, b := if i < j then i else j, if i < j then j else i;
      SwapTie(key, s, sorted, a, b);
      assert sorted[a := sorted[b]][b := sorted[a]][a] != sorted[a];
    }
  }

  /* Permutations */

  ghost function Looked<S(!new), T>(m: map<S, T>, ks: seq<S>): (es: seq<T>)
    requires forall k <- ks :: k in m
    ensures |es| == |ks| && forall i :: 0 <= i < |ks| ==> es[i] == m[ks[i]]
  {
    if ks == [] then [] else [m[ks[0]]] + Looked(m, ks[1..])
  }

  lemma LookedConcat<S(!new), T>(m: map<S, T>, a: seq<S>, b: seq<S>)
    requires (forall k <- a :: k in m) && forall k <- b :: k in m
    ensures forall k <- a + b :: k in m
    ensures Looked(m, a + b) == Looked(m, a) + Looked(m, b)
  {
  }

  lemma LookedMoved<S(!new), T>(m: map<S, T>, a: seq<S>, x: S, b: seq<S>)
    requires x in m && (forall k <- a :: k in m) && forall k <- b :: k in m
    ensures multiset(Looked(m, a + ([x] + b))) == multiset{m[x]} + multiset(Looked(m, a + b))
  {
    LookedConcat(m, a, [x] + b);
    LookedConcat(m, [x], b);
    LookedConcat(m, a, b);
    assert Looked(m, [x]) == [m[x]];
  }

  lemma Extracted<S>(x: S, a: seq<S>, b: seq<S>) returns (b1: seq<S>, b2: seq<S>)
    requires multiset([x] + a) == multiset(b)
    ensures b == b1 + ([x] + b2) && multiset(a) == multiset(b1 + b2)
  {
    assert x in multiset([x] + a) && x in b;
    var j :| 0 <= j < |b| && b[j] == x;
    b1, b2 := b[..j], b[j + 1..];
    assert b == b1 + ([x] + b2);
    WithoutOne(x, [], a);
    WithoutOne(x, b1, b2);
    assert [] + ([x] + a) == [x] + a && [] + a == a;
  }

  lemma WithoutOne<S>(x: S, b1: seq<S>, b2: seq<S>)
    ensures multiset(b1 + b2) == multiset(b1 + ([x] + b2)) - multiset{x}
  {
  }

  lemma {:induction false} LookedPermuted<S(!new), T>(m: map<S, T>, a: seq<S>, b: seq<S>)
    requires multiset(a) == multiset(b) && (forall k <- a :: k in m) && forall k <- b :: k in m
    ensures multiset(Looked(m, a)) == multiset(Looked(m, b))
  {
    if a == [] {
      SameMembers(a, b);
    } else {
      assert a == [a[0]] + a[1..];
      var b1, b2 := Extracted(a[0], a[1..], b);
      assert forall k <- b1 + b2 :: k in b;
      LookedPermuted(m, a[1..], b1 + b2);
      LookedMoved(m, [], a[0], a[1..]);
      LookedMoved(m, b1, a[0], b2);
      assert [] + ([a[0]] + a[1..]) == a && [] + a[1..] == a[1..];
    }
  }

  /* The order itself */

  /** Strings are ordered by their first different byte, and a prefix comes before what it begins. */
  lemma {:induction false} LessExact(a: Bytes, b: Bytes)
    ensures Less(a, b) <==>
              exists k: nat :: k < |b| && k <= |a| && a[..k] == b[..k] && (k == |a| || a[k] < b[k])
    decreases |a|
  {
    var zero: nat := 0;
    if Less(a, b) {
      if a == [] || a[0] < b[0] {
        assert a[..zero] == b[..zero];
      } else {
        LessExact(a[1..], b[1..]);
        var k: nat :| k < |b[1..]| && k <= |a[1..]| && a[1..][..k] == b[1..][..k]
                      && (k == |a[1..]| || a[1..][k] < b[1..][k]);
        var n: nat := k + 1;
        assert a[..n] == [a[0]] + a[1..][..k] && b[..n] == [b[0]] + b[1..][..k];
      }
    }
    if exists k: nat :: k < |b| && k <= |a| && a[..k] == b[..k] && (k == |a| || a[k] < b[k]) {
      var k: nat :| k < |b| && k <= |a| && a[..k] == b[..k] && (k == |a| || a[k] < b[k]);
      if k > 0 {
        assert a[..k][0] == b[..k][0];
        var n: nat := k - 1;
        assert a[1..][..n] == a[..k][1..] && b[1..][..n] == b[..k][1..];
        LessExact(a[1..], b[1..]);
      }
    }
  }
}
