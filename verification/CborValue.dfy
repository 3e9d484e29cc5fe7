/** The generic decode of CBOR items to Go values and the encoder back to items.
    A decoded map is a Go map, so an encoder walks it in an order nobody controls:
    every encoding below takes that order as a parameter. */
module CborValue {
  import opened Basics
  import opened CborSyntax
  import opened Floats
  import opened Utf8

  /** The Go values a decoded map can be keyed by. `KUint` is uint64 and `KInt` is int64:
      the same number under the two types is two different keys. */
  datatype Key =
    | KUint(n: nat)
    | KInt(i: int)
    | KBytes(b: Bytes)
    | KText(s: Bytes)
    | KBool(v: bool)
    | KNull
    | KSimple(simple: nat)

  datatype Value =
    | VUint(n: nat)
    | VInt(i: int)
    | VBytes(b: Bytes)
    | VText(s: Bytes)
    | VBool(v: bool)
    | VNull
    | VSimple(simple: nat)
    | VFloat(bits: nat)
    | VArr(xs: seq<Value>)
    | VMap(m: map<Key, Value>)
    | VTag(tag: nat, content: Value)

  const MAX_INT64: int := 0x7fff_ffff_ffff_ffff
  const MIN_INT64: int := -0x8000_0000_0000_0000

  /** Times and big integers, which are outside the model. */
  const BUILTIN_TAGS: set<nat> := {0, 1, 2, 3}

  /** The tag that says only "this is CBOR"; a decoder drops it. */
  const SELF_DESCRIBED: nat := 55799

  /* Decoding */

  function AsKey(v: Value): Option<Key> {
    match v
    case VUint(n) => Some(KUint(n))
    case VInt(i) => if MIN_INT64 <= i then Some(KInt(i)) else None
    case VBytes(b) => Some(KBytes(b))
    case VText(s) => Some(KText(s))
    case VBool(b) => Some(KBool(b))
    case VNull => Some(KNull)
    case VSimple(n) => Some(KSimple(n))
    case _ => None
  }

  function Chunks(ts: seq<Item>): Bytes {
    if ts == [] then [] else (if ts[0].Str? then ts[0].data else []) + Chunks(ts[1..])
  }

  function StringValue(major: int, data: Bytes): Value {
    if major == 2 then VBytes(data) else VText(data)
  }

  /** Booleans, null and undefined, floats, and the numbered simple values. */
  function SimpleValue(h: Head): Option<Value> {
    if h.width == 0 && h.arg in {20, 21} then Some(VBool(h.arg == 21))
    else if IsNull(Leaf(h)) then Some(VNull)
    else if FloatHead(h) then Some(VFloat(ReadFloat(h)))
    else if IsSimple(h.arg) then Some(VSimple(h.arg))
    else None
  }

  predicate IsSimple(n: nat) {
    n < 20 || 32 <= n < 256
  }

  predicate IsSelfDescribed(t: Item) {
    t.Node? && t.h.major == 6 && t.h.arg == SELF_DESCRIBED
  }

  function ToValue(t: Item): Option<Value>
    decreases t, 1
  {
    match t
    case Leaf(h) =>
      if h.major == 0 then Some(VUint(h.arg))
      else if h.major == 1 then Some(VInt(-1 - h.arg))
      else if h.major == 7 then SimpleValue(h)
      else None
    case Str(h, data) =>
      if h.major == 3 && !ValidUtf8(data) then None else Some(StringValue(h.major, data))
    case Node(h, kids) =>
      if h.major == 6 then
        if |kids| != 1 || h.arg in BUILTIN_TAGS then None
        else if h.arg == SELF_DESCRIBED then ToValue(kids[0])
        else if IsSelfDescribed(kids[0]) then None
        else
          match ToValue(kids[0])
          case None => None
          case Some(v) => Some(VTag(h.arg, v))
      else Container(h.major, kids)
    case Indef(major, kids) =>
      if major == 2 || (major == 3 && forall k <- kids :: k.Str? && ValidUtf8(k.data)) then
        Some(StringValue(major, Chunks(kids)))
      else if major == 3 then None
      else Container(major, kids)
  }

  function Container(major: int, kids: seq<Item>): Option<Value>
    decreases kids, 1
  {
    if major == 4 then
      match ToValues(kids)
      case None => None
      case Some(xs) => Some(VArr(xs))
    else
      match ToMap(kids)
      case None => None
      case Some(m) => Some(VMap(m))
  }

  function ToValues(ts: seq<Item>): (r: Option<seq<Value>>)
    ensures r.Some? ==> |r.value| == |ts|
    decreases ts, 0
  {
    if ts == [] then Some([]) else
    match ToValue(ts[0])
    case None => None
    case Some(v) =>
      match ToValues(ts[1..])
      case None => None
      case Some(vs) => Some([v] + vs)
  }

  /** Keys and values alternate; of two entries with one key the later one stays. */
  function ToMap(ts: seq<Item>): (r: Option<map<Key, Value>>)
    ensures r.Some? ==> 2 * |r.value| <= |ts|
    decreases ts, 0
  {
    if |ts| < 2 then Some(map[]) else
    match ToValue(ts[0])
    case None => None
    case Some(kv) =>
      match (AsKey(kv), ToValue(ts[1]), ToMap(ts[2..]))
      case (Some(k), Some(v), Some(m)) => Some(if k in m then m else m[k := v])
      case _ => None
  }

  predicate IsNull(t: Item) {
    t.Leaf? && t.h.major == 7 && t.h.width == 0 && t.h.arg in {22, 23}
  }

  /** Decoding into a concrete Go type looks through every tag but the built-in ones. */
  function StripTags(t: Item): Option<Item> {
    match t
    case Node(h, kids) =>
      if h.major == 6 then
        if |kids| == 1 && h.arg !in BUILTIN_TAGS then StripTags(kids[0]) else None
      else Some(t)
    case _ => Some(t)
  }

  /** The elements of an array (major type 4) or the keys and values of a map (5), of either length
      form; a null instead is told apart. */
  function Elements(major: int, t: Item): Option<Option<seq<Item>>> {
    match StripTags(t)
    case None => None
    case Some(core) =>
      if IsNull(core) then Some(None)
      else if (core.Node? && core.h.major == major) || (core.Indef? && core.major == major) then Some(Some(core.kids))
      else None
  }

  /** The same for a Go slice or map, which a null leaves empty. */
  function ItemsOf(major: int, t: Item): Option<seq<Item>> {
    match Elements(major, t)
    case None => None
    case Some(None) => Some([])
    case Some(Some(ts)) => Some(ts)
  }

  lemma {:induction false} StripTagsWf(t: Item)
    requires Wf(t) && StripTags(t).Some?
    ensures Wf(StripTags(t).value) && |Unparse(StripTags(t).value)| <= |Unparse(t)|
  {
    if t.Node? && t.h.major == 6 {
      assert UnparseAll(t.kids) == Unparse(t.kids[0]) + UnparseAll(t.kids[1..]);
      StripTagsWf(t.kids[0]);
    }
  }

  lemma ElementsWf(major: int, t: Item, ts: seq<Item>)
    requires Wf(t) && Elements(major, t) == Some(Some(ts))
    ensures AllWf(ts) && |UnparseAll(ts)| <= |Unparse(t)|
  {
    StripTagsWf(t);
  }

  lemma ItemsOfWf(major: int, t: Item)
    requires Wf(t) && ItemsOf(major, t).Some?
    ensures AllWf(ItemsOf(major, t).value)
  {
    if Elements(major, t).value.Some? {
      ElementsWf(major, t, ItemsOf(major, t).value);
    }
  }

  /* Encoding */

  /** The order in which an encoder meets the keys of the map it finds at `path`. Two equal
      maps at different places may be walked differently. */
  type Order = (seq<nat>, map<Key, Value>) -> seq<Key>

  ghost predicate Lists(ks: seq<Key>, m: map<Key, Value>) {
    && (forall i, j :: 0 <= i < j < |ks| ==> ks[i] != ks[j])
    && (forall k :: k in ks <==> k in m)
  }

  ghost predicate ValidOrder(ord: Order) {
    forall path, m :: Lists(ord(path, m), m)
  }

  function ShortHead(major: int, n: nat): (h: Head)
    requires 0 <= major <= 7 && n < MAX_LEN
    ensures ValidHead(h) && h.major == major && h.arg == n
    ensures n < 24 ==> h.width == 0
  {
    Pow256Widths();
    var width :=
      if n < 24 then 0 else if n < 0x100 then 1 else if n < 0x1_0000 then 2 else if n < 0x1_0000_0000 then 4 else 8;
    Head(major, width, n)
  }

  predicate KeyFits(k: Key) {
    match k
    case KUint(n) => n < MAX_LEN
    case KInt(i) => MIN_INT64 <= i <= MAX_INT64
    case KBytes(b) => |b| < MAX_LEN
    case KText(s) => |s| < MAX_LEN && ValidUtf8(s)
    case KSimple(n) => IsSimple(n)
    case _ => true
  }

  /** The key a decoder returns for an encoded `k`: it never makes a non-negative int64. */
  function NormKey(k: Key): Key {
    match k
    case KInt(i) => if i >= 0 then KUint(i) else k
    case _ => k
  }

  /** Values in the form the decoder returns them. */
  predicate Plain(v: Value) {
    match v
    case VUint(n) => n < MAX_LEN
    case VInt(i) => 0 <= -1 - i < MAX_LEN
    case VBytes(b) => |b| < MAX_LEN
    case VText(s) => |s| < MAX_LEN && ValidUtf8(s)
    case VSimple(n) => IsSimple(n)
    case VFloat(bits) => IsFloat(bits)
    case VArr(xs) => |xs| < MAX_LEN && forall x <- xs :: Plain(x)
    case VMap(m) => |m| < MAX_LEN && forall k <- m :: KeyFits(k) && NormKey(k) == k && Plain(m[k])
    case VTag(n, c) => n < MAX_LEN && n !in BUILTIN_TAGS && n != SELF_DESCRIBED && Plain(c)
    case _ => true
  }

  function EncodeKey(k: Key): (t: Item)
    requires KeyFits(k)
    ensures Wf(t)
    ensures ToValue(t).Some? && AsKey(ToValue(t).value) == Some(NormKey(k))
  {
    match k
    case KUint(n) => Leaf(ShortHead(0, n))
    case KInt(i) => if i >= 0 then Leaf(ShortHead(0, i)) else Leaf(ShortHead(1, -1 - i))
    case KBytes(b) => Str(ShortHead(2, |b|), b)
    case KText(s) => Str(ShortHead(3, |s|), s)
    case KBool(b) => Leaf(ShortHead(7, if b then 21 else 20))
    case KNull => NULL
    case KSimple(n) => Leaf(ShortHead(7, n))
  }

  const NULL: Item := Leaf(Head(7, 0, 22))

  ghost predicate PairsFit(v: Value, ks: seq<Key>) {
    v.VMap? && forall k <- ks :: k in v.m && KeyFits(k) && Plain(v.m[k])
  }

  function Encode(v: Value, ord: Order, path: seq<nat>): (t: Item)
    requires Plain(v) && ValidOrder(ord)
    decreases v, 1, 0
  {
    match v
    case VUint(n) => Leaf(ShortHead(0, n))
    case VInt(i) => Leaf(ShortHead(1, -1 - i))
    case VBytes(b) => Str(ShortHead(2, |b|), b)
    case VText(s) => Str(ShortHead(3, |s|), s)
    case VBool(b) => Leaf(ShortHead(7, if b then 21 else 20))
    case VNull => NULL
    case VSimple(n) => Leaf(ShortHead(7, n))
    case VFloat(bits) => Leaf(WriteFloat(bits))
    case VArr(xs) => Node(ShortHead(4, |xs|), EncodeAll(xs, ord, path))
    case VMap(m) => Node(ShortHead(5, |m|), EncodePairs(v, ord(path, m), ord, path))
    case VTag(n, c) => Node(ShortHead(6, n), [Encode(c, ord, path + [0])])
  }

  function EncodeAll(xs: seq<Value>, ord: Order, path: seq<nat>): (ts: seq<Item>)
    requires (forall x <- xs :: Plain(x)) && ValidOrder(ord)
    ensures |ts| == |xs|
    decreases xs, 0, 0
  {
    if xs == [] then [] else [Encode(xs[0], ord, path + [|xs|])] + EncodeAll(xs[1..], ord, path)
  }

  function EncodePairs(v: Value, ks: seq<Key>, ord: Order, path: seq<nat>): (ts: seq<Item>)
    requires PairsFit(v, ks) && ValidOrder(ord)
    ensures |ts| == 2 * |ks|
    decreases v, 0, |ks|
  {
    if ks == [] then [] else
    [EncodeKey(ks[0]), Encode(v.m[ks[0]], ord, path + [|ks|])] + EncodePairs(v, ks[1..], ord, path)
  }

  /* The round trip */

  function Renamed(m: map<Key, Value>, ks: seq<Key>): map<Key, Value>
    requires forall k <- ks :: k in m
  {
    if ks == [] then map[] else Renamed(m, ks[1..])[NormKey(ks[0]) := m[ks[0]]]
  }

  ghost predicate InjectiveNorm(m: map<Key, Value>) {
    forall k1, k2 :: k1 in m && k2 in m && NormKey(k1) == NormKey(k2) ==> k1 == k2
  }

  lemma {:induction false} RenamedEntries(m: map<Key, Value>, ks: seq<Key>)
    requires forall k <- ks :: k in m
    requires InjectiveNorm(m)
    ensures forall k <- ks :: NormKey(k) in Renamed(m, ks) && Renamed(m, ks)[NormKey(k)] == m[k]
    ensures forall n <- Renamed(m, ks) :: exists k <- ks :: NormKey(k) == n
  {
    if ks != [] {
      RenamedEntries(m, ks[1..]);
      forall n <- Renamed(m, ks) ensures exists k <- ks :: NormKey(k) == n {
        if n != NormKey(ks[0]) {
          assert n in Renamed(m, ks[1..]);
          var k :| k in ks[1..] && NormKey(k) == n;
          assert k in ks;
        } else {
          assert ks[0] in ks;
        }
      }
    }
  }

  lemma RenamedNormal(m: map<Key, Value>, ks: seq<Key>)
    requires Lists(ks, m) && forall k <- m :: NormKey(k) == k
    ensures InjectiveNorm(m) && Renamed(m, ks) == m
  {
    RenamedEntries(m, ks);
    assert forall k :: k in Renamed(m, ks) <==> k in m;
  }

  lemma ListsLength(ks: seq<Key>, m: map<Key, Value>)
    requires Lists(ks, m)
    ensures |ks| == |m|
  {
    DistinctLength(ks);
    assert (set k <- ks) == m.Keys;
  }

  lemma {:induction false} DistinctLength(ks: seq<Key>)
    requires forall i, j :: 0 <= i < j < |ks| ==> ks[i] != ks[j]
    ensures |(set k <- ks)| == |ks|
  {
    if ks != [] {
      DistinctLength(ks[1..]);
      assert (set k <- ks) == (set k <- ks[1..]) + {ks[0]};
    }
  }

  /** Decoding an encoding returns the value, whatever the order of its maps. */
  lemma {:induction false} DecodeEncode(v: Value, ord: Order, path: seq<nat>)
    requires Plain(v) && ValidOrder(ord)
    ensures Wf(Encode(v, ord, path))
    ensures ToValue(Encode(v, ord, path)) == Some(v)
    decreases v, 1, 0
  {
    match v
    case VArr(xs) =>
      DecodeEncodeAll(xs, ord, path);
    case VMap(m) =>
      DecodeEncodeMap(v, ord, path);
    case VTag(n, c) =>
      DecodeEncode(c, ord, path + [0]);
    case _ =>
      DecodeEncodeScalar(v, ord, path);
  }

  lemma DecodeEncodeScalar(v: Value, ord: Order, path: seq<nat>)
    requires Plain(v) && ValidOrder(ord) && !v.VArr? && !v.VMap? && !v.VTag?
    ensures Wf(Encode(v, ord, path))
    ensures ToValue(Encode(v, ord, path)) == Some(v)
  {
  }

  lemma {:induction false} DecodeEncodeMap(v: Value, ord: Order, path: seq<nat>)
    requires v.VMap? && Plain(v) && ValidOrder(ord)
    ensures Wf(Encode(v, ord, path))
    ensures ToValue(Encode(v, ord, path)) == Some(v)
    decreases v, 0, |v.m| + 1
  {
    var ks := ord(path, v.m);
    assert Lists(ks, v.m);
    ListsLength(ks, v.m);
    RenamedNormal(v.m, ks);
    DecodeEncodePairs(v, ks, ord, path);
    assert Encode(v, ord, path) == Node(ShortHead(5, |v.m|), EncodePairs(v, ks, ord, path));
  }

  lemma {:induction false} DecodeEncodeAll(xs: seq<Value>, ord: Order, path: seq<nat>)
    requires (forall x <- xs :: Plain(x)) && ValidOrder(ord)
    ensures AllWf(EncodeAll(xs, ord, path))
    ensures ToValues(EncodeAll(xs, ord, path)) == Some(xs)
    decreases xs, 0, 0
  {
    if xs != [] {
      DecodeEncode(xs[0], ord, path + [|xs|]);
      DecodeEncodeAll(xs[1..], ord, path);
      assert xs == [xs[0]] + xs[1..];
      assert EncodeAll(xs, ord, path)[1..] == EncodeAll(xs[1..], ord, path);
    }
  }

  lemma {:induction false} DecodeEncodePairs(v: Value, ks: seq<Key>, ord: Order, path: seq<nat>)
    requires PairsFit(v, ks) && ValidOrder(ord)
    requires forall i, j :: 0 <= i < j < |ks| ==> ks[i] != ks[j]
    requires InjectiveNorm(v.m)
    ensures AllWf(EncodePairs(v, ks, ord, path))
    ensures ToMap(EncodePairs(v, ks, ord, path)) == Some(Renamed(v.m, ks))
    decreases v, 0, |ks|
  {
    if ks != [] {
      DecodeEncode(v.m[ks[0]], ord, path + [|ks|]);
      DecodeEncodePairs(v, ks[1..], ord, path);
      NotRenamedYet(v.m, ks);
      ToMapCons(EncodeKey(ks[0]), Encode(v.m[ks[0]], ord, path + [|ks|]), EncodePairs(v, ks[1..], ord, path),
                NormKey(ks[0]), v.m[ks[0]], Renamed(v.m, ks[1..]));
    }
  }

  lemma ToMapCons(kt: Item, vt: Item, ts: seq<Item>, k: Key, v: Value, m: map<Key, Value>)
    requires ToValue(kt).Some? && AsKey(ToValue(kt).value) == Some(k) && ToValue(vt) == Some(v)
    requires ToMap(ts) == Some(m) && k !in m
    ensures ToMap([kt, vt] + ts) == Some(m[k := v])
  {
    assert ([kt, vt] + ts)[2..] == ts;
  }

  lemma NotRenamedYet(m: map<Key, Value>, ks: seq<Key>)
    requires ks != [] && (forall k <- ks :: k in m) && InjectiveNorm(m)
    requires forall i, j :: 0 <= i < j < |ks| ==> ks[i] != ks[j]
    ensures NormKey(ks[0]) !in Renamed(m, ks[1..])
  {
    RenamedEntries(m, ks[1..]);
    forall k <- ks[1..] ensures NormKey(k) != NormKey(ks[0]) {
      assert k in ks && ks[0] in ks && k != ks[0];
    }
  }

  /* What the decoder returns is plain */

  lemma {:induction false} ChunksPlain(ts: seq<Item>)
    requires AllWf(ts)
    ensures |Chunks(ts)| <= |UnparseAll(ts)|
    ensures (forall t <- ts :: t.Str? && ValidUtf8(t.data)) ==> ValidUtf8(Chunks(ts))
  {
    if ts != [] {
      ChunksPlain(ts[1..]);
      if forall t <- ts :: t.Str? && ValidUtf8(t.data) {
        ValidUtf8Concat(ts[0].data, Chunks(ts[1..]));
      }
    }
  }

  lemma ArgumentFits(h: Head)
    requires ValidHead(h)
    ensures h.arg < MAX_LEN && (h.width <= 1 ==> h.arg < 256)
  {
    Pow256Widths();
  }

  lemma DecodedLeafPlain(h: Head)
    requires ValidHead(h) && ValidLeaf(h)
    ensures ToValue(Leaf(h)).Some? ==> Plain(ToValue(Leaf(h)).value)
  {
    ArgumentFits(h);
  }

  lemma DecodedStringPlain(t: Item)
    requires Wf(t) && |Unparse(t)| < MAX_LEN && (t.Str? || (t.Indef? && t.major <= 3))
    ensures ToValue(t).Some? ==> Plain(ToValue(t).value)
  {
    if t.Indef? {
      ChunksPlain(t.kids);
    }
  }

  lemma DecodedTagPlain(h: Head, kids: seq<Item>)
    requires Wf(Node(h, kids)) && h.major == 6 && (ToValue(kids[0]).Some? ==> Plain(ToValue(kids[0]).value))
    ensures ToValue(Node(h, kids)).Some? ==> Plain(ToValue(Node(h, kids)).value)
  {
    ArgumentFits(h);
  }

  lemma {:induction false} DecodedIsPlain(t: Item)
    requires Wf(t) && |Unparse(t)| < MAX_LEN
    ensures ToValue(t).Some? ==> Plain(ToValue(t).value)
    decreases t, 1
  {
    match t
    case Leaf(h) =>
      DecodedLeafPlain(h);
    case Str(_, _) =>
      DecodedStringPlain(t);
    case Node(h, kids) =>
      if h.major == 6 {
        assert UnparseAll(kids) == Unparse(kids[0]) + UnparseAll(kids[1..]);
        DecodedIsPlain(kids[0]);
        DecodedTagPlain(h, kids);
      } else {
        DecodedContainerPlain(h.major, kids);
      }
    case Indef(major, kids) =>
      if major <= 3 {
        DecodedStringPlain(t);
      } else {
        DecodedContainerPlain(major, kids);
      }
  }

  lemma {:induction false} DecodedContainerPlain(major: int, kids: seq<Item>)
    requires AllWf(kids) && |UnparseAll(kids)| < MAX_LEN
    ensures Container(major, kids).Some? ==> Plain(Container(major, kids).value)
    decreases kids, 1
  {
    if major == 4 {
      DecodedAllPlain(kids);
    } else {
      DecodedMapPlain(kids);
    }
  }

  lemma {:induction false} DecodedAllPlain(ts: seq<Item>)
    requires AllWf(ts) && |UnparseAll(ts)| < MAX_LEN
    ensures ToValues(ts).Some? ==> forall v <- ToValues(ts).value :: Plain(v)
    decreases ts, 0
  {
    if ts != [] {
      DecodedIsPlain(ts[0]);
      DecodedAllPlain(ts[1..]);
    }
  }

  lemma PlainKey(v: Value)
    requires Plain(v) && AsKey(v).Some?
    ensures KeyFits(AsKey(v).value) && NormKey(AsKey(v).value) == AsKey(v).value
  {
  }

  lemma PlainAdded(m: map<Key, Value>, k: Key, v: Value)
    requires Plain(VMap(m)) && |m| + 1 < MAX_LEN && KeyFits(k) && NormKey(k) == k && Plain(v)
    ensures Plain(VMap(m[k := v]))
  {
    assert m[k := v].Keys == m.Keys + {k};
  }

  lemma {:induction false} DecodedMapPlain(ts: seq<Item>)
    requires AllWf(ts) && |UnparseAll(ts)| < MAX_LEN
    ensures ToMap(ts).Some? ==> Plain(VMap(ToMap(ts).value))
    decreases ts, 0
  {
    if |ts| >= 2 {
      assert UnparseAll(ts) == Unparse(ts[0]) + (Unparse(ts[1]) + UnparseAll(ts[1..][1..]));
      assert ts[1..][1..] == ts[2..];
      DecodedIsPlain(ts[0]);
      DecodedIsPlain(ts[1]);
      DecodedMapPlain(ts[2..]);
      if ToMap(ts).Some? {
        PlainKey(ToValue(ts[0]).value);
        PlainAdded(ToMap(ts[2..]).value, AsKey(ToValue(ts[0]).value).value, ToValue(ts[1]).value);
      }
    }
  }

  /* What the bytes mean */

  /** The value of a whole message. */
  function DecodeValue(data: Bytes): Option<Value> {
    match ParseWhole(data)
    case None => None
    case Some(t) => ToValue(t)
  }

  lemma DecodeItem(t: Item)
    requires Wf(t)
    ensures DecodeValue(Unparse(t)) == ToValue(t)
  {
    ParseWholeExact(Unparse(t), t);
  }

  /** Major types 0 and 1 are the numbers n and -1-n, in whatever width they are written. */
  lemma DecodeNumber(width: int, n: nat)
    requires ValidHead(Head(0, width, n))
    ensures DecodeValue(HeadBytes(Head(0, width, n))) == Some(VUint(n))
    ensures DecodeValue(HeadBytes(Head(1, width, n))) == Some(VInt(-1 - n))
  {
    DecodeItem(Leaf(Head(0, width, n)));
    DecodeItem(Leaf(Head(1, width, n)));
  }

  /** Major types 2 and 3 are byte and text strings; text must be UTF-8. */
  lemma DecodeString(width: int, s: Bytes)
    requires ValidHead(Head(2, width, |s|))
    ensures DecodeValue(HeadBytes(Head(2, width, |s|)) + s) == Some(VBytes(s))
    ensures DecodeValue(HeadBytes(Head(3, width, |s|)) + s) == if ValidUtf8(s) then Some(VText(s)) else None
  {
    DecodeItem(Str(Head(2, width, |s|), s));
    DecodeItem(Str(Head(3, width, |s|), s));
  }

  /** The chunks of an indefinite string are put together in order; each chunk of a text is a text. */
  lemma {:induction false} DecodeChunks(major: int, t: Item, more: seq<Item>)
    requires 2 <= major <= 3 && t.Str? && t.h.major == major && (forall k <- more :: k.Str? && k.h.major == major)
    requires Wf(t) && AllWf(more)
    ensures Chunks([t] + more) == t.data + Chunks(more) && Chunks([]) == []
    ensures DecodeValue([0x20 * major + 31] + UnparseAll([t] + more) + [0xff])
            == if major == 2 then Some(VBytes(Chunks([t] + more)))
               else if forall k <- [t] + more :: ValidUtf8(k.data) then Some(VText(Chunks([t] + more))) else None
  {
    var kids := [t] + more;
    assert kids[1..] == more;
    forall k <- kids ensures k.Str? && k.h.major == major && Wf(k) {
      assert k == t || k in more;
    }
    DecodeItem(Indef(major, kids));
  }

  /** Major type 4 is an array, with its length or up to a break. */
  lemma DecodeArrayBytes(width: int, ts: seq<Item>, xs: seq<Value>)
    requires ValidHead(Head(4, width, |ts|)) && AllWf(ts) && |xs| == |ts|
    requires forall i :: 0 <= i < |ts| ==> ToValue(ts[i]) == Some(xs[i])
    ensures DecodeValue(HeadBytes(Head(4, width, |ts|)) + UnparseAll(ts)) == Some(VArr(xs))
    ensures DecodeValue([0x9f] + UnparseAll(ts) + [0xff]) == Some(VArr(xs))
  {
    ValuesOf(ts, xs);
    DecodeItem(Node(Head(4, width, |ts|), ts));
    DecodeItem(Indef(4, ts));
  }

  lemma {:induction false} ValuesOf(ts: seq<Item>, xs: seq<Value>)
    requires |xs| == |ts| && forall i :: 0 <= i < |ts| ==> ToValue(ts[i]) == Some(xs[i])
    ensures ToValues(ts) == Some(xs)
  {
    if ts != [] {
      ValuesOf(ts[1..], xs[1..]);
      assert xs == [xs[0]] + xs[1..];
    }
  }

  /** Major type 5 is a map, keys and values in turn; of two entries with one key the later one counts. */
  lemma DecodeMapBytes(width: int, ts: seq<Item>, m: map<Key, Value>)
    requires |ts| % 2 == 0 && ValidHead(Head(5, width, |ts| / 2)) && AllWf(ts) && ToMap(ts) == Some(m)
    ensures DecodeValue(HeadBytes(Head(5, width, |ts| / 2)) + UnparseAll(ts)) == Some(VMap(m))
    ensures DecodeValue([0xbf] + UnparseAll(ts) + [0xff]) == Some(VMap(m))
  {
    DecodeItem(Node(Head(5, width, |ts| / 2), ts));
    DecodeItem(Indef(5, ts));
  }

  /** One more entry at the front counts unless a later one has its key. */
  lemma MapEntry(kt: Item, vt: Item, ts: seq<Item>, k: Key, v: Value, m: map<Key, Value>)
    requires ToValue(kt).Some? && AsKey(ToValue(kt).value) == Some(k) && ToValue(vt) == Some(v) && ToMap(ts) == Some(m)
    ensures ToMap([kt, vt] + ts) == Some(if k in m then m else m[k := v])
  {
    assert ([kt, vt] + ts)[2..] == ts;
  }

  /** Major type 6 is a tag on a value. */
  lemma DecodeTagBytes(width: int, n: nat, t: Item)
    requires ValidHead(Head(6, width, n)) && Wf(t) && ToValue(t).Some? && !IsSelfDescribed(t)
    ensures n >= 4 && n != 55799 ==>
              DecodeValue(HeadBytes(Head(6, width, n)) + Unparse(t)) == Some(VTag(n, ToValue(t).value))
    ensures n == 55799 ==> DecodeValue(HeadBytes(Head(6, width, n)) + Unparse(t)) == ToValue(t)
  {
    DecodeItem(Node(Head(6, width, n), [t]));
    UnparseOne(t);
  }

  /** Major type 7: false, true, null, undefined, and numbered simple values. */
  lemma DecodeSimple(n: nat)
    requires n < 24
    ensures DecodeValue([0xe0 + n])
            == if n == 20 then Some(VBool(false)) else if n == 21 then Some(VBool(true))
               else if n >= 22 then Some(VNull) else Some(VSimple(n))
  {
    HeadLayout(Head(7, 0, n));
    DecodeItem(Leaf(Head(7, 0, n)));
  }

  lemma DecodeLongSimple(n: nat)
    requires 32 <= n < 256
    ensures DecodeValue([0xf8, n]) == Some(VSimple(n))
  {
    LongHead(7, n);
    assert SimpleValue(Head(7, 1, n)) == Some(VSimple(n));
    DecodeItem(Leaf(Head(7, 1, n)));
  }

  /** Floats in all three widths. */
  lemma DecodeFloat(width: int, n: nat)
    requires width in {2, 4, 8} && ValidHead(Head(7, width, n))
    ensures DecodeValue(HeadBytes(Head(7, width, n))) == Some(VFloat(ReadFloat(Head(7, width, n))))
  {
    DecodeItem(Leaf(Head(7, width, n)));
  }

  /** An encoder uses the shortest head there is for a number. */
  lemma ShortestHead(h: Head)
    requires ValidHead(h)
    ensures ShortHead(h.major, h.arg).width <= h.width
  {
    HeadRange(h);
  }

  /** Keys are what they are as values; arrays, maps, tags and floats are no keys. */
  lemma KeysOfValues(v: Value)
    ensures v.VUint? ==> AsKey(v) == Some(KUint(v.n))
    ensures v.VInt? ==> AsKey(v) == if v.i >= -0x8000_0000_0000_0000 then Some(KInt(v.i)) else None
    ensures v.VBytes? ==> AsKey(v) == Some(KBytes(v.b))
    ensures v.VText? ==> AsKey(v) == Some(KText(v.s))
    ensures v.VBool? ==> AsKey(v) == Some(KBool(v.v))
    ensures v.VNull? ==> AsKey(v) == Some(KNull)
    ensures v.VSimple? ==> AsKey(v) == Some(KSimple(v.simple))
    ensures v.VArr? || v.VMap? || v.VTag? || v.VFloat? ==> AsKey(v) == None
  {
  }

  /** Where a slice, struct or Go map is asked for: an array or map of either length form, or a null;
      tags are looked through, but for those of times and big integers. */
  lemma ElementsExact(h: Head, ts: seq<Item>, t: Item, major: int)
    requires 4 <= major <= 5
    ensures h.major == major ==> Elements(major, Node(h, ts)) == Some(Some(ts))
    ensures Elements(major, Indef(major, ts)) == Some(Some(ts))
    ensures Elements(major, Leaf(Head(7, 0, 22))) == Some(None) && Elements(major, Leaf(Head(7, 0, 23))) == Some(None)
    ensures h.major == 6 && h.arg >= 4 ==> Elements(major, Node(h, [t])) == Elements(major, t)
    ensures h.major == 6 && h.arg < 4 ==> Elements(major, Node(h, [t])) == None
    ensures h.major != 6 && h.major != major ==> Elements(major, Node(h, ts)) == None
  {
  }
}
