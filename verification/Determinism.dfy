/** When the printed form of a value is the same in every run: an exact condition, and what it means
    for the values that are printed. */
module Determinism {
  import opened Basics
  import opened CborValue
  import opened Sorting
  import opened Printing
  import opened Joining

  /* Runs put together from other runs */

  /** A place in a run. */
  datatype Place = Place(p: Printer, path: seq<nat>)

  /** Under `pre` the run `q` does what another run does under the path of `at`. */
  ghost predicate Follows(q: Printer, pre: seq<nat>, at: Place) {
    && (forall rest, m :: q.order(pre + rest, m) == at.p.order(at.path + rest, m))
    && forall rest, s :: q.sort(pre + rest, s) == at.p.sort(at.path + rest, s)
  }

  /** Two runs of the program. */
  ghost predicate TwoRuns(p: Printer, q: Printer) {
    ValidPrinter(p) && ValidPrinter(q) && SameProgram(p, q)
  }

  lemma {:induction false} FormatFollows(q: Printer, pre: seq<nat>, at: Place, v: Value, rest: seq<nat>)
    requires TwoRuns(at.p, q) && Follows(q, pre, at)
    ensures Format(q, v, pre + rest) == Format(at.p, v, at.path + rest)
    decreases v, 1, 0
  {
    match v
    case VMap(m) =>
      var ks := q.order(pre + rest, m);
      assert Lists(ks, m) && ks == at.p.order(at.path + rest, m);
      ListsLength(ks, m);
      EntriesFollow(q, pre, at, v, ks, rest);
    case VArr(xs) =>
      AllFollow(q, pre, at, xs, rest);
    case _ =>
  }

  lemma {:induction false} AllFollow(q: Printer, pre: seq<nat>, at: Place, xs: seq<Value>, rest: seq<nat>)
    requires TwoRuns(at.p, q) && Follows(q, pre, at)
    ensures FormatAll(q, xs, pre + rest) == FormatAll(at.p, xs, at.path + rest)
    decreases xs, 0, 0
  {
    if xs != [] {
      FormatFollows(q, pre, at, xs[0], rest + [|xs|]);
      ConcatAssociative(pre, rest, [|xs|]);
      ConcatAssociative(at.path, rest, [|xs|]);
      AllFollow(q, pre, at, xs[1..], rest);
    }
  }

  lemma {:induction false} EntriesFollow(
    q: Printer, pre: seq<nat>, at: Place, v: Value, ks: seq<Key>, rest: seq<nat>)
    requires TwoRuns(at.p, q) && Follows(q, pre, at) && v.VMap? && forall k <- ks :: k in v.m
    ensures FormatEntries(q, v, ks, pre + rest) == FormatEntries(at.p, v, ks, at.path + rest)
    decreases v, 0, |ks|
  {
    if ks != [] {
      FormatFollows(q, pre, at, v.m[ks[0]], rest + [|ks|]);
      ConcatAssociative(pre, rest, [|ks|]);
      ConcatAssociative(at.path, rest, [|ks|]);
      EntriesFollow(q, pre, at, v, ks[1..], rest);
    }
  }

  /** For the `n`th child of a container: what prints it. */
  type Family = nat -> Place

  ghost predicate ValidFamily(p: Printer, family: Family) {
    forall n :: TwoRuns(p, family(n).p)
  }

  /** The run `q` leaves the children of a container to the family. */
  ghost predicate Hosts(p: Printer, q: Printer, family: Family) {
    TwoRuns(p, q) && ValidFamily(p, family) && forall n: nat :: Follows(q, [n], family(n))
  }

  /** The text of the `n`th child. */
  ghost function FamilyText(p: Printer, family: Family, n: nat, v: Value): Bytes
    requires ValidPrinter(p) && ValidFamily(p, family)
  {
    assert TwoRuns(p, family(n).p);
    Format(family(n).p, v, family(n).path)
  }

  /** The texts of the elements; children are counted from the end, as `FormatAll` does. */
  ghost function FamilyTexts(p: Printer, family: Family, xs: seq<Value>): (parts: seq<Bytes>)
    requires ValidPrinter(p) && ValidFamily(p, family)
    ensures |parts| == |xs|
    ensures forall i :: 0 <= i < |xs| ==> parts[i] == FamilyText(p, family, |xs| - i, xs[i])
  {
    seq(|xs|, i requires 0 <= i < |xs| => FamilyText(p, family, |xs| - i, xs[i]))
  }

  ghost function FamilyEntries(p: Printer, family: Family, m: map<Key, Value>, ks: seq<Key>): (es: seq<Entry>)
    requires ValidPrinter(p) && ValidFamily(p, family) && forall k <- ks :: k in m
    ensures |es| == |ks|
    ensures forall i :: 0 <= i < |ks| ==>
              es[i] == Entry(KeyText(p, ks[i]), FamilyText(p, family, |ks| - i, m[ks[i]]))
  {
    seq(|ks|, i requires 0 <= i < |ks| => Entry(KeyText(p, ks[i]), FamilyText(p, family, |ks| - i, m[ks[i]])))
  }

  lemma ChildText(p: Printer, q: Printer, family: Family, n: nat, v: Value)
    requires Hosts(p, q, family)
    ensures Format(q, v, [] + [n]) == FamilyText(p, family, n, v)
  {
    assert TwoRuns(p, family(n).p) && Follows(q, [n], family(n));
    FormatFollows(q, [n], family(n), v, []);
    assert [n] + [] == [] + [n] && family(n).path + [] == family(n).path;
  }

  lemma {:induction false} HostedAll(p: Printer, q: Printer, family: Family, xs: seq<Value>)
    requires Hosts(p, q, family)
    ensures FormatAll(q, xs, []) == FamilyTexts(p, family, xs)
  {
    if xs != [] {
      ChildText(p, q, family, |xs|, xs[0]);
      HostedAll(p, q, family, xs[1..]);
      assert FamilyTexts(p, family, xs)[1..] == FamilyTexts(p, family, xs[1..]);
    }
  }

  lemma FamilyEntriesSplit(p: Printer, family: Family, m: map<Key, Value>, ks: seq<Key>)
    requires ValidPrinter(p) && ValidFamily(p, family) && ks != [] && forall k <- ks :: k in m
    ensures FamilyEntries(p, family, m, ks)
            == [Entry(KeyText(p, ks[0]), FamilyText(p, family, |ks|, m[ks[0]]))] + FamilyEntries(p, family, m, ks[1..])
  {
  }

  lemma SameKeyText(p: Printer, q: Printer, k: Key)
    requires SameProgram(p, q)
    ensures KeyText(q, k) == KeyText(p, k)
  {
  }

  lemma {:induction false} HostedEntries(p: Printer, q: Printer, family: Family, v: Value, ks: seq<Key>)
    requires Hosts(p, q, family) && v.VMap? && forall k <- ks :: k in v.m
    ensures FormatEntries(q, v, ks, []) == FamilyEntries(p, family, v.m, ks)
  {
    if ks != [] {
      ChildText(p, q, family, |ks|, v.m[ks[0]]);
      HostedEntries(p, q, family, v, ks[1..]);
      FamilyEntriesSplit(p, family, v.m, ks);
      SameKeyText(p, q, ks[0]);
    }
  }

  /** What the outermost container does: the order of the map `m`, the sorted form of `es`. */
  datatype Top = Top(m: map<Key, Value>, ks: seq<Key>, es: seq<Entry>, sorted: seq<Entry>)

  ghost predicate ValidTop(top: Top) {
    Lists(top.ks, top.m) && IsSortOf(EntryKey, top.sorted, top.es)
  }

  /** The run that does `top` for the outermost container and leaves the children to the family. */
  ghost function Assembled(p: Printer, top: Top, family: Family): Printer {
    p.(order := (path, m) =>
         if path != [] then family(path[0]).p.order(family(path[0]).path + path[1..], m)
         else if m == top.m then top.ks else p.order([], m),
       sort := (path, s) =>
         if path != [] then family(path[0]).p.sort(family(path[0]).path + path[1..], s)
         else if s == top.es then top.sorted else p.sort([], s))
  }

  lemma AssembledHosts(p: Printer, top: Top, family: Family)
    requires ValidPrinter(p) && ValidTop(top) && ValidFamily(p, family)
    ensures Hosts(p, Assembled(p, top, family), family)
  {
    var q := Assembled(p, top, family);
    forall path, m ensures Lists(q.order(path, m), m) {
      if path != [] {
        assert TwoRuns(p, family(path[0]).p);
      }
    }
    forall path, s ensures IsSortOf(EntryKey, q.sort(path, s), s) {
      if path != [] {
        assert TwoRuns(p, family(path[0]).p);
      }
    }
    forall n: nat ensures Follows(q, [n], family(n)) {
      assert forall rest: seq<nat> :: ([n] + rest)[1..] == rest;
    }
  }

  lemma TopText(q: Printer, m: map<Key, Value>, es: seq<Entry>)
    requires ValidPrinter(q) && Lists(q.order([], m), m) && FormatEntries(q, VMap(m), q.order([], m), []) == es
    ensures Format(q, VMap(m), []) == MapText(q.sort([], es))
  {
  }

  /** Any order of the keys, any text the children can have, and any sort come together in one run. */
  lemma AssembledMap(p: Printer, family: Family, m: map<Key, Value>, ks: seq<Key>, sorted: seq<Entry>)
    requires ValidPrinter(p) && ValidFamily(p, family) && Lists(ks, m)
    requires IsSortOf(EntryKey, sorted, FamilyEntries(p, family, m, ks))
    ensures exists q :: TwoRuns(p, q) && Format(q, VMap(m), []) == MapText(sorted)
  {
    var es := FamilyEntries(p, family, m, ks);
    var q := Assembled(p, Top(m, ks, es, sorted), family);
    AssembledHosts(p, Top(m, ks, es, sorted), family);
    HostedEntries(p, q, family, VMap(m), ks);
    assert q.order([], m) == ks && q.sort([], es) == sorted;
    TopText(q, m, es);
  }

  lemma AssembledArray(p: Printer, family: Family, xs: seq<Value>)
    requires ValidPrinter(p) && ValidFamily(p, family)
    ensures exists q :: TwoRuns(p, q) && Format(q, VArr(xs), []) == ArrayText(FamilyTexts(p, family, xs))
  {
    var top := Top(map[], [], [], []);
    var q := Assembled(p, top, family);
    AssembledHosts(p, top, family);
    HostedAll(p, q, family, xs);
    assert Format(q, VArr(xs), []) == ArrayText(FamilyTexts(p, family, xs));
  }

  /* The exact condition */

  /** Every run prints the text that `p` prints. */
  ghost predicate Determined(p: Printer, v: Value)
    requires ValidPrinter(p)
  {
    forall q, path :: TwoRuns(p, q) ==> Format(q, v, path) == Format(p, v, [])
  }

  /** The entry of a key, as the run `p` prints it. */
  ghost function EntryOf(p: Printer, m: map<Key, Value>, k: Key): Entry
    requires ValidPrinter(p) && k in m
  {
    Entry(KeyText(p, k), Format(p, m[k], []))
  }

  /** In every map, at any depth, the entries of keys that print alike interchange. */
  ghost predicate Settled(p: Printer, v: Value)
    requires ValidPrinter(p)
  {
    match v
    case VMap(m) =>
      && (forall k <- m :: Settled(p, m[k]))
      && forall k1, k2 :: k1 in m && k2 in m && KeyText(p, k1) == KeyText(p, k2) ==>
           Interchange(EntryOf(p, m, k1), EntryOf(p, m, k2))
    case VArr(xs) => forall x <- xs :: Settled(p, x)
    case _ => true
  }

  /* Settled values have one text */

  lemma ListsPermuted(ks1: seq<Key>, ks2: seq<Key>, m: map<Key, Value>)
    requires Lists(ks1, m) && Lists(ks2, m)
    ensures multiset(ks1) == multiset(ks2)
  {
    forall k ensures multiset(ks1)[k] == multiset(ks2)[k] {
      DistinctOnce(ks1, k);
      DistinctOnce(ks2, k);
    }
  }

  lemma {:induction false} DistinctOnce(ks: seq<Key>, k: Key)
    requires forall i, j :: 0 <= i < j < |ks| ==> ks[i] != ks[j]
    ensures multiset(ks)[k] == if k in ks then 1 else 0
  {
    if ks != [] {
      DistinctOnce(ks[1..], k);
      assert ks == [ks[0]] + ks[1..];
    }
  }

  ghost function EntryMap(p: Printer, m: map<Key, Value>): map<Key, Entry>
    requires ValidPrinter(p)
  {
    map k <- m :: EntryOf(p, m, k)
  }

  /** Every run prints the same entries. */
  lemma {:induction false} EntriesAgree(p: Printer, q: Printer, v: Value, ks: seq<Key>, path: seq<nat>)
    requires TwoRuns(p, q) && v.VMap? && Settled(p, v) && forall k <- ks :: k in v.m
    ensures FormatEntries(q, v, ks, path) == Looked(EntryMap(p, v.m), ks)
    decreases v, 0, |ks|
  {
    if ks != [] {
      SettledText(p, q, v.m[ks[0]], path + [|ks|]);
      EntriesAgree(p, q, v, ks[1..], path);
    }
  }

  lemma {:induction false} ElementsAgree(p: Printer, q: Printer, xs: seq<Value>, path1: seq<nat>, path2: seq<nat>)
    requires TwoRuns(p, q) && forall x <- xs :: Settled(p, x)
    ensures FormatAll(q, xs, path1) == FormatAll(p, xs, path2)
    decreases xs, 0, 0
  {
    if xs != [] {
      SettledText(p, q, xs[0], path1 + [|xs|]);
      SettledText(p, p, xs[0], path2 + [|xs|]);
      ElementsAgree(p, q, xs[1..], path1, path2);
    }
  }

  lemma {:induction false} SettledText(p: Printer, q: Printer, v: Value, path: seq<nat>)
    requires TwoRuns(p, q) && Settled(p, v)
    ensures Format(q, v, path) == Format(p, v, [])
    decreases v, 1, 0
  {
    match v
    case VMap(m) =>
      SettledMapText(p, q, v, path);
    case VArr(xs) =>
      ElementsAgree(p, q, xs, path, []);
    case _ =>
  }

  lemma {:induction false} SettledMapText(p: Printer, q: Printer, v: Value, path: seq<nat>)
    requires TwoRuns(p, q) && v.VMap? && Settled(p, v)
    ensures Format(q, v, path) == Format(p, v, [])
    decreases v, 0, |v.m| + 1
  {
    var ks1, ks2 := p.order([], v.m), q.order(path, v.m);
    assert Lists(ks1, v.m) && Lists(ks2, v.m);
    ListsLength(ks1, v.m);
    ListsLength(ks2, v.m);
    EntriesAgree(p, p, v, ks1, []);
    EntriesAgree(p, q, v, ks2, path);
    ListsPermuted(ks1, ks2, v.m);
    LookedPermuted(EntryMap(p, v.m), ks1, ks2);
    var es1, es2 := FormatEntries(p, v, ks1, []), FormatEntries(q, v, ks2, path);
    assert IsSortOf(EntryKey, p.sort([], es1), es1) && IsSortOf(EntryKey, q.sort(path, es2), es2);
    EntryTies(p, v, ks1);
    SortsAgree(es1, p.sort([], es1), q.sort(path, es2));
  }

  lemma EntryTies(p: Printer, v: Value, ks: seq<Key>)
    requires ValidPrinter(p) && v.VMap? && Settled(p, v) && forall k <- ks :: k in v.m
    ensures TiesInterchange(Looked(EntryMap(p, v.m), ks))
  {
    var es := Looked(EntryMap(p, v.m), ks);
    forall x, y | x in es && y in es && x.ks == y.ks ensures Interchange(x, y) {
      var i :| 0 <= i < |es| && es[i] == x;
      var j :| 0 <= j < |es| && es[j] == y;
      assert ks[i] in v.m && ks[j] in v.m;
    }
  }

  lemma SortsAgree(es: seq<Entry>, s1: seq<Entry>, s2: seq<Entry>)
    requires IsSortOf(EntryKey, s1, es) && IsSortOf(EntryKey, s2, es) && TiesInterchange(es)
    ensures Line(s1) == Line(s2)
  {
    SameMembers(s1, es);
    SortedLines(s1, s2);
  }

  /* A value with one text is settled */

  /** One child is printed at another place, all others as `p` prints them. */
  ghost function Single(p: Printer, n: nat, at: Place): Family {
    i => if i == n then at else Place(p, [])
  }

  lemma TwoTexts(p: Printer, xs: seq<Value>, j: nat, q: Printer, path: seq<nat>)
    returns (own: Family, other: Family, parts: seq<Bytes>)
    requires TwoRuns(p, q) && j < |xs|
    ensures ValidFamily(p, own) && ValidFamily(p, other)
    ensures |parts| == |xs| && parts == FamilyTexts(p, own, xs) && parts[j] == Format(p, xs[j], [])
    ensures FamilyTexts(p, other, xs) == parts[j := Format(q, xs[j], path)]
  {
    own, other := Single(p, |xs| - j, Place(p, [])), Single(p, |xs| - j, Place(q, path));
    parts := FamilyTexts(p, own, xs);
  }

  lemma ArrayChild(p: Printer, xs: seq<Value>, j: nat, q: Printer, path: seq<nat>)
    requires TwoRuns(p, q) && j < |xs| && Determined(p, VArr(xs))
    ensures Format(q, xs[j], path) == Format(p, xs[j], [])
  {
    var own, other, a := TwoTexts(p, xs, j, q, path);
    AssembledArray(p, own, xs);
    AssembledArray(p, other, xs);
    OnePartReplaced(a, j, Format(q, xs[j], path));
  }

  lemma OnePartReplaced(a: seq<Bytes>, j: nat, x: Bytes)
    requires j < |a|
    ensures ArrayText(a) == ArrayText(a[j := x]) ==> a[j] == x
  {
    SameArrayText(a, a[j := x]);
    assert a == a[..j] + [a[j]] + a[j + 1..] && a[j := x] == a[..j] + [x] + a[j + 1..];
    JoinReplaced(a[..j], [a[j]], [x], a[j + 1..]);
  }

  lemma SameArrayText(a: seq<Bytes>, b: seq<Bytes>)
    ensures ArrayText(a) == ArrayText(b) ==> JoinTexts(a) == JoinTexts(b)
  {
    if ArrayText(a) == ArrayText(b) {
      Cancel(Ascii("["), JoinTexts(a), JoinTexts(b), Ascii("]"));
    }
  }

  lemma SameMapText(a: seq<Entry>, b: seq<Entry>)
    ensures MapText(a) == MapText(b) ==> Line(a) == Line(b)
  {
    if MapText(a) == MapText(b) {
      Cancel(Ascii("{"), Line(a), Line(b), Ascii("}"));
    }
  }

  /** All sorts of all entries that the children can have read the same, if the map has one text. */
  lemma MapLines(p: Printer, m: map<Key, Value>, ks: seq<Key>, f1: Family, f2: Family, s1: seq<Entry>, s2: seq<Entry>)
    requires ValidPrinter(p) && Determined(p, VMap(m)) && Lists(ks, m) && ValidFamily(p, f1) && ValidFamily(p, f2)
    requires IsSortOf(EntryKey, s1, FamilyEntries(p, f1, m, ks))
    requires IsSortOf(EntryKey, s2, FamilyEntries(p, f2, m, ks))
    ensures Line(s1) == Line(s2)
  {
    AssembledMap(p, f1, m, ks, s1);
    AssembledMap(p, f2, m, ks, s2);
    SameMapText(s1, s2);
  }

  lemma SortReplaced(es: seq<Entry>, sorted: seq<Entry>, i: nat, j: nat, e: Entry)
    requires IsSortOf(EntryKey, sorted, es) && i < |sorted| && j < |es| && sorted[i] == es[j] && e.ks == es[j].ks
    ensures IsSortOf(EntryKey, sorted[i := e], es[j := e])
  {
    assert multiset(sorted[i := e]) == multiset(sorted) - multiset{sorted[i]} + multiset{e};
    assert multiset(es[j := e]) == multiset(es) - multiset{es[j]} + multiset{e};
  }

  /** The entries of a map, all children printed as `p` prints them. */
  lemma OwnEntry(p: Printer, m: map<Key, Value>, ks: seq<Key>, n: nat, k: Key) returns (j: nat)
    requires ValidPrinter(p) && Lists(ks, m) && k in m
    ensures j < |ks| && ks[j] == k && ValidFamily(p, Single(p, n, Place(p, [])))
    ensures FamilyEntries(p, Single(p, n, Place(p, [])), m, ks)[j] == EntryOf(p, m, k)
  {
    assert k in ks;
    j :| 0 <= j < |ks| && ks[j] == k;
  }

  lemma TwoEntries(p: Printer, m: map<Key, Value>, ks: seq<Key>, j: nat, q: Printer, path: seq<nat>)
    returns (own: Family, other: Family, es: seq<Entry>)
    requires TwoRuns(p, q) && Lists(ks, m) && j < |ks|
    ensures ks[j] in m && ValidFamily(p, own) && ValidFamily(p, other)
    ensures |es| == |ks| && es == FamilyEntries(p, own, m, ks) && es[j] == EntryOf(p, m, ks[j])
    ensures FamilyEntries(p, other, m, ks) == es[j := Entry(KeyText(p, ks[j]), Format(q, m[ks[j]], path))]
  {
    assert ks[j] in ks;
    own, other := Single(p, |ks| - j, Place(p, [])), Single(p, |ks| - j, Place(q, path));
    es := FamilyEntries(p, own, m, ks);
  }

  lemma PlaceInSort(p: Printer, es: seq<Entry>, j: nat) returns (sorted: seq<Entry>, i: nat)
    requires ValidPrinter(p) && j < |es|
    ensures IsSortOf(EntryKey, sorted, es) && i < |sorted| && sorted[i] == es[j]
  {
    sorted := p.sort([], es);
    assert IsSortOf(EntryKey, sorted, es);
    SameMembers(sorted, es);
    assert es[j] in sorted;
    i :| 0 <= i < |sorted| && sorted[i] == es[j];
  }

  lemma MapChild(p: Printer, m: map<Key, Value>, k: Key, q: Printer, path: seq<nat>)
    requires TwoRuns(p, q) && k in m && Determined(p, VMap(m))
    ensures Format(q, m[k], path) == Format(p, m[k], [])
  {
    var ks, e := p.order([], m), Entry(KeyText(p, k), Format(q, m[k], path));
    assert Lists(ks, m);
    var j := OwnEntry(p, m, ks, 0, k);
    var own, other, es := TwoEntries(p, m, ks, j, q, path);
    var sorted, i := PlaceInSort(p, es, j);
    SortReplaced(es, sorted, i, j, e);
    MapLines(p, m, ks, own, other, sorted, sorted[i := e]);
    OneReplaced(sorted, i, e);
  }

  lemma OneReplaced(s: seq<Entry>, i: nat, e: Entry)
    requires i < |s| && e.ks == s[i].ks && Line(s) == Line(s[i := e])
    ensures e == s[i]
  {
    assert s == s[..i] + [s[i]] + s[i + 1..] && s[i := e] == s[..i] + [e] + s[i + 1..];
    LineReplaced(s[..i], [s[i]], [e], s[i + 1..]);
    LineOne(s[i]);
    LineOne(e);
    assert s[i].ks + Ascii(": ") + s[i].vs + [] == EntryText(s[i]);
    assert e.ks + Ascii(": ") + e.vs + [] == EntryText(e);
    Cancel(e.ks + Ascii(": "), s[i].vs, e.vs, []);
  }

  lemma MapTies(p: Printer, m: map<Key, Value>, k1: Key, k2: Key)
    requires ValidPrinter(p) && Determined(p, VMap(m))
    requires k1 in m && k2 in m && KeyText(p, k1) == KeyText(p, k2)
    ensures Interchange(EntryOf(p, m, k1), EntryOf(p, m, k2))
  {
    var ks, own := p.order([], m), Single(p, 0, Place(p, []));
    assert Lists(ks, m);
    var n1 := OwnEntry(p, m, ks, 0, k1);
    var n2 := OwnEntry(p, m, ks, 0, k2);
    var sorted, i := PlaceInSort(p, FamilyEntries(p, own, m, ks), n1);
    SameMembers(sorted, FamilyEntries(p, own, m, ks));
    assert EntryOf(p, m, k2) in sorted;
    var j :| 0 <= j < |sorted| && sorted[j] == EntryOf(p, m, k2);
    if i < j {
      TiesSwap(p, m, ks, own, sorted, i, j);
    } else if j < i {
      TiesSwap(p, m, ks, own, sorted, j, i);
    }
  }

  lemma TiesSwap(p: Printer, m: map<Key, Value>, ks: seq<Key>, own: Family, s: seq<Entry>, i: nat, j: nat)
    requires ValidPrinter(p) && Determined(p, VMap(m)) && Lists(ks, m) && ValidFamily(p, own)
    requires IsSortOf(EntryKey, s, FamilyEntries(p, own, m, ks)) && i < j < |s| && s[i].ks == s[j].ks
    ensures Interchange(s[i], s[j])
  {
    SideBySide(s, i, j);
    var a, b := s[..i], s[i + 1..j] + s[j + 1..];
    MapLines(p, m, ks, own, own, a + [s[i], s[j]] + b, a + [s[j], s[i]] + b);
    LineReplaced(a, [s[i], s[j]], [s[j], s[i]], b);
    LineTwo(s[i], s[j]);
    LineTwo(s[j], s[i]);
  }

  lemma {:induction false} DeterminedSettled(p: Printer, v: Value)
    requires ValidPrinter(p) && Determined(p, v)
    ensures Settled(p, v)
  {
    match v
    case VMap(m) =>
      forall k <- m ensures Settled(p, m[k]) {
        forall q, path | TwoRuns(p, q) ensures Format(q, m[k], path) == Format(p, m[k], []) {
          MapChild(p, m, k, q, path);
        }
        DeterminedSettled(p, m[k]);
      }
      forall k1, k2 | k1 in m && k2 in m && KeyText(p, k1) == KeyText(p, k2)
        ensures Interchange(EntryOf(p, m, k1), EntryOf(p, m, k2))
      {
        MapTies(p, m, k1, k2);
      }
    case VArr(xs) =>
      forall x <- xs ensures Settled(p, x) {
        var j :| 0 <= j < |xs| && xs[j] == x;
        forall q, path | TwoRuns(p, q) ensures Format(q, x, path) == Format(p, x, []) {
          ArrayChild(p, xs, j, q, path);
        }
        DeterminedSettled(p, x);
      }
    case _ =>
  }

  /** All runs print one text for a value, in whatever order they walk its maps and however they sort,
      if and only if in each of its maps the entries of keys that print alike interchange. */
  lemma FormatDeterministic(p: Printer, v: Value)
    requires ValidPrinter(p)
    ensures Determined(p, v) <==> Settled(p, v)
  {
    if Settled(p, v) {
      forall q, path | TwoRuns(p, q) ensures Format(q, v, path) == Format(p, v, []) {
        SettledText(p, q, v, path);
      }
    }
    if Determined(p, v) {
      DeterminedSettled(p, v);
    }
  }

  /* What the condition means */

  /** No map, at any depth, has the same number as a key twice, or a key of the unusual kinds. */
  ghost predicate Usual(v: Value) {
    match v
    case VMap(m) => InjectiveNorm(m) && forall k <- m :: UsualKey(k) && Usual(m[k])
    case VArr(xs) => forall x <- xs :: Usual(x)
    case _ => true
  }

  lemma {:induction false} UsualSettled(p: Printer, v: Value)
    requires ValidPrinter(p) && Usual(v)
    ensures Settled(p, v)
  {
    match v
    case VMap(m) =>
      forall k1, k2 | k1 in m && k2 in m && KeyText(p, k1) == KeyText(p, k2) ensures k1 == k2 {
        KeyTextsExact(p, k1, k2);
      }
      forall k <- m ensures Settled(p, m[k]) {
        UsualSettled(p, m[k]);
      }
    case VArr(xs) =>
      forall x <- xs ensures Settled(p, x) {
        UsualSettled(p, x);
      }
    case _ =>
  }

  /** Integers, strings, booleans and null as keys: the text is the same in every run. */
  lemma UsualDeterministic(p: Printer, v: Value)
    requires ValidPrinter(p) && Usual(v)
    ensures Determined(p, v)
  {
    UsualSettled(p, v);
    FormatDeterministic(p, v);
  }

  /** Two keys that print alike and whose entries do not interchange: some run prints another text,
      whatever else is in the map. */
  lemma AlikeKeysUnordered(p: Printer, m: map<Key, Value>, k1: Key, k2: Key)
    requires ValidPrinter(p) && k1 in m && k2 in m && KeyText(p, k1) == KeyText(p, k2)
    requires !Interchange(EntryOf(p, m, k1), EntryOf(p, m, k2))
    ensures exists q, path :: TwoRuns(p, q) && Format(q, VMap(m), path) != Format(p, VMap(m), [])
  {
    FormatDeterministic(p, VMap(m));
  }

  /** Values that differ from the first byte on do not interchange. */
  lemma StartsDiffer(a: Entry, b: Entry)
    requires a.ks == b.ks && a.vs != [] && b.vs != [] && a.vs[0] != b.vs[0]
    ensures !Interchange(a, b)
  {
    var x, y := EntryText(a) + SEPARATOR + EntryText(b), EntryText(b) + SEPARATOR + EntryText(a);
    assert x[|a.ks| + 2] == EntryText(a)[|a.ks| + 2] == a.vs[0];
    assert y[|b.ks| + 2] == EntryText(b)[|b.ks| + 2] == b.vs[0];
  }

  lemma PlainPair(m: map<Key, Value>, k1: Key, k2: Key)
    requires m.Keys == {k1, k2} && KeyFits(k1) && KeyFits(k2) && NormKey(k1) == k1 && NormKey(k2) == k2
    requires Plain(m[k1]) && Plain(m[k2])
    ensures Plain(VMap(m))
  {
    assert |m| == |m.Keys| <= 2;
  }

  lemma FiveTexts(p: Printer)
    ensures KeyText(p, KUint(5)) == KeyText(p, KInt(5)) == KeyText(p, KBytes([0x35])) == [0x35]
    ensures Text(p, VNull) != [] && Text(p, VNull)[0] == 'n' as int
    ensures Text(p, VBool(true)) != [] && Text(p, VBool(true))[0] == 't' as int
  {
  }

  /** The number 5, under the integer type of either decoder, and the byte string "5" as keys of one
      map: the text is open. Decoding can return such a map. */
  lemma DecodedMapUnordered(p: Printer, m: map<Key, Value>, five: Key)
    requires ValidPrinter(p) && five in {KUint(5), KInt(5)} && five in m && KBytes([0x35]) in m
    requires m[five] == VNull && m[KBytes([0x35])] == VBool(true)
    ensures exists q, path :: TwoRuns(p, q) && Format(q, VMap(m), path) != Format(p, VMap(m), [])
    ensures m.Keys == {KUint(5), KBytes([0x35])} ==> Plain(VMap(m))
  {
    FiveTexts(p);
    StartsDiffer(EntryOf(p, m, five), EntryOf(p, m, KBytes([0x35])));
    AlikeKeysUnordered(p, m, five, KBytes([0x35]));
    if m.Keys == {KUint(5), KBytes([0x35])} {
      PlainPair(m, KUint(5), KBytes([0x35]));
    }
  }
}
