/** Joined texts: what they tell about their parts, and sorted entries that read the same. */
module Joining {
  import opened Basics
  import opened Sorting
  import opened Printing

  /* Joined texts */

  /** What joining puts behind a first text. */
  function After(parts: seq<Bytes>): Bytes {
    if parts == [] then [] else SEPARATOR + parts[0] + After(parts[1..])
  }

  function Before(parts: seq<Bytes>): Bytes {
    if parts == [] then [] else JoinTexts(parts) + SEPARATOR
  }

  lemma {:induction false} JoinHead(parts: seq<Bytes>)
    requires parts != []
    ensures JoinTexts(parts) == parts[0] + After(parts[1..])
  {
    if |parts| == 1 {
      assert parts[0] + [] == parts[0];
    } else {
      JoinHead(parts[1..]);
      AssociateFour(parts[0], SEPARATOR, parts[1], After(parts[1..][1..]));
    }
  }

  lemma AssociateFour(a: Bytes, b: Bytes, c: Bytes, d: Bytes)
    ensures a + b + (c + d) == a + (b + c + d)
  {
  }

  lemma {:induction false} AfterConcat(a: seq<Bytes>, b: seq<Bytes>)
    ensures After(a + b) == After(a) + After(b)
  {
    if a == [] {
      assert a + b == b;
    } else {
      assert (a + b)[1..] == a[1..] + b;
      AfterConcat(a[1..], b);
      ConcatAssociative(SEPARATOR + a[0], After(a[1..]), After(b));
    }
  }

  lemma JoinConcat(a: seq<Bytes>, b: seq<Bytes>)
    requires a != []
    ensures JoinTexts(a + b) == JoinTexts(a) + After(b)
  {
    JoinHead(a);
    JoinHead(a + b);
    assert (a + b)[1..] == a[1..] + b;
    AfterConcat(a[1..], b);
    ConcatAssociative(a[0], After(a[1..]), After(b));
  }

  lemma AfterIs(parts: seq<Bytes>)
    requires parts != []
    ensures After(parts) == SEPARATOR + JoinTexts(parts)
  {
    JoinHead(parts);
    ConcatAssociative(SEPARATOR, parts[0], After(parts[1..]));
  }

  lemma JoinParts(a: seq<Bytes>, mid: seq<Bytes>, b: seq<Bytes>)
    requires mid != []
    ensures JoinTexts(a + mid + b) == Before(a) + JoinTexts(mid) + After(b)
  {
    JoinConcat(a + mid, b);
    if a == [] {
      assert a + mid == mid && [] + JoinTexts(mid) == JoinTexts(mid);
    } else {
      JoinConcat(a, mid);
      AfterIs(mid);
      ConcatAssociative(JoinTexts(a), SEPARATOR, JoinTexts(mid));
    }
  }

  lemma Cancel(a: Bytes, x: Bytes, y: Bytes, b: Bytes)
    requires a + x + b == a + y + b
    ensures x == y
  {
    var s, t := a + x + b, a + y + b;
    assert x == s[|a|..|s| - |b|] && y == t[|a|..|t| - |b|];
  }

  /** In a joined text a part may be replaced by one that joins to the same text, and by no other. */
  lemma JoinReplaced(a: seq<Bytes>, x: seq<Bytes>, y: seq<Bytes>, b: seq<Bytes>)
    requires x != [] && y != []
    ensures JoinTexts(a + x + b) == JoinTexts(a + y + b) <==> JoinTexts(x) == JoinTexts(y)
  {
    JoinParts(a, x, b);
    JoinParts(a, y, b);
    if JoinTexts(a + x + b) == JoinTexts(a + y + b) {
      Cancel(Before(a), JoinTexts(x), JoinTexts(y), After(b));
    }
  }

  lemma LineReplaced(a: seq<Entry>, x: seq<Entry>, y: seq<Entry>, b: seq<Entry>)
    requires x != [] && y != []
    ensures Line(a + x + b) == Line(a + y + b) <==> Line(x) == Line(y)
  {
    assert EntryTexts(a + x + b) == EntryTexts(a) + EntryTexts(x) + EntryTexts(b);
    assert EntryTexts(a + y + b) == EntryTexts(a) + EntryTexts(y) + EntryTexts(b);
    JoinReplaced(EntryTexts(a), EntryTexts(x), EntryTexts(y), EntryTexts(b));
  }

  lemma LineOne(a: Entry)
    ensures Line([a]) == EntryText(a)
  {
    assert EntryTexts([a]) == [EntryText(a)];
  }

  lemma LineTwo(a: Entry, b: Entry)
    ensures Line([a, b]) == EntryText(a) + SEPARATOR + EntryText(b)
  {
    assert EntryTexts([a, b]) == [EntryText(a), EntryText(b)];
    JoinTwo(EntryText(a), EntryText(b));
  }

  lemma JoinTwo(x: Bytes, y: Bytes)
    ensures JoinTexts([x, y]) == x + SEPARATOR + y
  {
    assert [x, y][1..] == [y];
    assert JoinTexts([y]) == y;
  }

  /* Sorted entries */

  /** Two entries that read the same in either order. */
  predicate Interchange(a: Entry, b: Entry) {
    EntryText(a) + SEPARATOR + EntryText(b) == EntryText(b) + SEPARATOR + EntryText(a)
  }

  ghost predicate TiesInterchange(es: seq<Entry>) {
    forall x, y :: x in es && y in es && x.ks == y.ks ==> Interchange(x, y)
  }

  lemma {:induction false} MoveFront(pre: seq<Entry>, a: Entry, post: seq<Entry>)
    requires forall x <- pre :: Interchange(x, a)
    ensures Line(pre + [a] + post) == Line([a] + pre + post)
  {
    if pre == [] {
      assert pre + [a] + post == [a] + pre + post;
    } else {
      var init, last := pre[..|pre| - 1], pre[|pre| - 1];
      assert pre == init + [last] && last in pre;
      LineTwo(last, a);
      LineTwo(a, last);
      LineReplaced(init, [last, a], [a, last], post);
      MoveFront(init, a, [last] + post);
      assert pre + [a] + post == init + [last, a] + post;
      assert init + [a] + ([last] + post) == init + [a, last] + post;
      assert [a] + init + ([last] + post) == [a] + pre + post;
    }
  }

  lemma LineCons(a: Entry, s: seq<Entry>, t: seq<Entry>)
    requires |s| == |t| && Line(s) == Line(t)
    ensures Line([a] + s) == Line([a] + t)
  {
    if s != [] {
      LineReplaced([a], s, t, []);
      assert [a] + s + [] == [a] + s && [a] + t + [] == [a] + t;
    }
  }

  lemma SortedRest(s: seq<Entry>, a: Entry, b1: seq<Entry>, b2: seq<Entry>)
    requires IsSortOf(EntryKey, s, s) && s == b1 + ([a] + b2)
    ensures IsSortOf(EntryKey, b1 + b2, b1 + b2)
  {
    var t := b1 + b2;
    assert forall i :: 0 <= i < |t| ==> t[i] == s[if i < |b1| then i else i + 1];
  }

  lemma FirstOfSort(s1: seq<Entry>, s2: seq<Entry>, a: Entry, b1: seq<Entry>, b2: seq<Entry>)
    requires IsSortOf(EntryKey, s1, s2) && IsSortOf(EntryKey, s2, s2)
    requires s1 != [] && a == s1[0] && s2 == b1 + ([a] + b2)
    ensures forall x <- b1 :: x in s1 && x.ks == a.ks
  {
    SameMembers(s1, s2);
    assert s2[|b1|] == a;
    forall x <- b1 ensures x in s1 && x.ks == a.ks {
      var i :| 0 <= i < |b1| && b1[i] == x;
      assert s2[i] == x && x in s2;
      LessTotal(x.ks, a.ks);
    }
  }

  /** One step: the first of one sort is moved to the front of the other. */
  lemma SortStep(s1: seq<Entry>, s2: seq<Entry>) returns (rest2: seq<Entry>)
    requires IsSortOf(EntryKey, s1, s2) && IsSortOf(EntryKey, s2, s2) && TiesInterchange(s1) && s1 != []
    ensures Line(s2) == Line([s1[0]] + rest2)
    ensures multiset(s1[1..]) == multiset(rest2) && IsSortOf(EntryKey, rest2, rest2)
  {
    var a := s1[0];
    assert s1 == [a] + s1[1..];
    var b1, b2 := Extracted(a, s1[1..], s2);
    rest2 := b1 + b2;
    MovedToFront(s1, s2, a, b1, b2);
    SortedRest(s2, a, b1, b2);
  }

  lemma MovedToFront(s1: seq<Entry>, s2: seq<Entry>, a: Entry, b1: seq<Entry>, b2: seq<Entry>)
    requires IsSortOf(EntryKey, s1, s2) && IsSortOf(EntryKey, s2, s2) && TiesInterchange(s1)
    requires s1 != [] && a == s1[0] && s2 == b1 + ([a] + b2)
    ensures Line(s2) == Line([a] + (b1 + b2))
  {
    FirstOfSort(s1, s2, a, b1, b2);
    assert a in s1;
    MoveFront(b1, a, b2);
    assert s2 == b1 + [a] + b2 && [a] + b1 + b2 == [a] + (b1 + b2);
  }

  lemma SortedTail(s: seq<Entry>)
    requires IsSortOf(EntryKey, s, s) && TiesInterchange(s) && s != []
    ensures IsSortOf(EntryKey, s[1..], s[1..]) && TiesInterchange(s[1..])
  {
    assert forall x <- s[1..] :: x in s;
  }

  /** All sorts of a list of entries read the same if entries with equal keys interchange. */
  lemma {:induction false} SortedLines(s1: seq<Entry>, s2: seq<Entry>)
    requires IsSortOf(EntryKey, s1, s2) && IsSortOf(EntryKey, s2, s2) && TiesInterchange(s1)
    ensures Line(s1) == Line(s2)
  {
    SameMembers(s1, s2);
    if s1 != [] {
      var rest2 := SortStep(s1, s2);
      SortedTail(s1);
      SameMembers(s1[1..], rest2);
      SortedLines(s1[1..], rest2);
      LineCons(s1[0], s1[1..], rest2);
      assert s1 == [s1[0]] + s1[1..];
    }
  }

  lemma SameKeysSorted(s: seq<Entry>, t: seq<Entry>)
    requires IsSortOf(EntryKey, s, s) && multiset(t) == multiset(s) && |t| == |s|
    requires forall k :: 0 <= k < |s| ==> t[k].ks == s[k].ks
    ensures IsSortOf(EntryKey, t, s)
  {
  }

  lemma EqualBetween(s: seq<Entry>, i: nat, j: nat)
    requires IsSortOf(EntryKey, s, s) && i < j < |s| && s[i].ks == s[j].ks
    ensures forall k :: i <= k <= j ==> s[k].ks == s[i].ks
  {
    forall k | i <= k <= j ensures s[k].ks == s[i].ks {
      LessTotal(s[k].ks, s[i].ks);
    }
  }

  lemma SidePermuted(a: seq<Entry>, x: Entry, mid: seq<Entry>, y: Entry, b: seq<Entry>)
    ensures multiset(a + [x, y] + (mid + b)) == multiset(a + [x] + mid + [y] + b)
    ensures multiset(a + [y, x] + (mid + b)) == multiset(a + [x] + mid + [y] + b)
  {
    assert [x, y] == [x] + [y] && [y, x] == [y] + [x];
  }

  lemma SideKeys(a: seq<Entry>, x: Entry, mid: seq<Entry>, y: Entry, b: seq<Entry>)
    requires x.ks == y.ks && forall z <- mid :: z.ks == x.ks
    ensures var s, t, u := a + [x] + mid + [y] + b, a + [x, y] + (mid + b), a + [y, x] + (mid + b);
            |t| == |u| == |s| && forall k :: 0 <= k < |s| ==> t[k].ks == u[k].ks == s[k].ks
  {
    var s, t, u := a + [x] + mid + [y] + b, a + [x, y] + (mid + b), a + [y, x] + (mid + b);
    forall k | 0 <= k < |s| ensures t[k].ks == u[k].ks == s[k].ks {
      if |a| <= k < |a| + |mid| + 2 {
        assert s[k] == x || s[k] == y || s[k] in mid;
        assert t[k] == x || t[k] == y || t[k] in mid;
        assert u[k] == x || u[k] == y || u[k] in mid;
      }
    }
  }

  /** Two entries with equal keys may stand side by side, in either order. */
  lemma SideBySide(s: seq<Entry>, i: nat, j: nat)
    requires IsSortOf(EntryKey, s, s) && i < j < |s| && s[i].ks == s[j].ks
    ensures IsSortOf(EntryKey, s[..i] + [s[i], s[j]] + (s[i + 1..j] + s[j + 1..]), s)
    ensures IsSortOf(EntryKey, s[..i] + [s[j], s[i]] + (s[i + 1..j] + s[j + 1..]), s)
  {
    var a, mid, b := s[..i], s[i + 1..j], s[j + 1..];
    EqualBetween(s, i, j);
    assert s == a + [s[i]] + mid + [s[j]] + b;
    SidePermuted(a, s[i], mid, s[j], b);
    SideKeys(a, s[i], mid, s[j], b);
    SameKeysSorted(s, a + [s[i], s[j]] + (mid + b));
    SameKeysSorted(s, a + [s[j], s[i]] + (mid + b));
  }
}
