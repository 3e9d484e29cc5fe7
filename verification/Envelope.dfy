/** COSE_Sign1 envelopes kept as raw items (section 4.2 of RFC 9052): the statement
    digest and the rewriting of the unprotected `receipts` header. */
module Envelope {
  import opened Basics
  import opened CborSyntax
  import opened CborValue
  import opened MerkleTree

  const RECEIPTS: int := 394
  const SIGN1_TAG_BYTE: Byte := 0xd2

  /** A raw message that was never filled encodes like a null, so it is modelled as one. */
  datatype RawSign1 = RawSign1(protected: Item, unprotected: Option<map<Key, Value>>, payload: Item, signature: Item)

  predicate ValidSign1(msg: RawSign1) {
    Wf(msg.protected) && Wf(msg.payload) && Wf(msg.signature)
  }

  /* Decoding */

  /** Decoding into a Go map; null and undefined give the nil map. */
  function DecodeMap(t: Item): Option<Option<map<Key, Value>>> {
    match Elements(5, t)
    case None => None
    case Some(None) => Some(None)
    case Some(Some(ts)) =>
      match ToMap(ts)
      case None => None
      case Some(m) => Some(Some(m))
  }

  /** Decoding into the struct: a four-element array, or a null that leaves the struct as it was. */
  function DecodeFields(data: Bytes): Option<RawSign1> {
    match ParseWhole(data)
    case None => None
    case Some(t) =>
      match Elements(4, t)
      case None => None
      case Some(None) => Some(RawSign1(NULL, None, NULL, NULL))
      case Some(Some(kids)) => DecodeArray(kids)
  }

  function DecodeArray(kids: seq<Item>): Option<RawSign1> {
    if |kids| != 4 then None else
    match DecodeMap(kids[1])
    case None => None
    case Some(u) => Some(RawSign1(kids[0], u, kids[2], kids[3]))
  }

  function DecodeSign1(data: Bytes): Option<(RawSign1, bool)> {
    var hadTag := |data| > 0 && data[0] == SIGN1_TAG_BYTE;
    match DecodeFields(data)
    case None => None
    case Some(msg) => Some((msg, hadTag))
  }

  lemma DecodedMapFits(t: Item, u: map<Key, Value>)
    requires Wf(t) && |Unparse(t)| < MAX_LEN && DecodeMap(t) == Some(Some(u))
    ensures Plain(VMap(u)) && |u| + 1 < MAX_LEN
  {
    var ts := Elements(5, t).value.value;
    ElementsWf(5, t, ts);
    DecodedMapPlain(ts);
  }

  lemma UnparseAllSecond(ts: seq<Item>)
    requires AllWf(ts) && |ts| >= 2
    ensures |Unparse(ts[1])| <= |UnparseAll(ts)|
  {
    assert UnparseAll(ts[1..]) == Unparse(ts[1]) + UnparseAll(ts[1..][1..]);
  }

  predicate FieldsValid(msg: RawSign1) {
    && ValidSign1(msg)
    && (msg.unprotected.Some? ==> Plain(VMap(msg.unprotected.value)) && |msg.unprotected.value| + 1 < MAX_LEN)
  }

  lemma DecodedArrayValid(kids: seq<Item>)
    requires AllWf(kids) && |UnparseAll(kids)| < MAX_LEN && DecodeArray(kids).Some?
    ensures FieldsValid(DecodeArray(kids).value)
  {
    UnparseAllSecond(kids);
    var u := DecodeMap(kids[1]).value;
    if u.Some? {
      DecodedMapFits(kids[1], u.value);
    }
  }

  lemma DecodedFieldsValid(data: Bytes)
    requires |data| < MAX_LEN && DecodeFields(data).Some?
    ensures FieldsValid(DecodeFields(data).value)
  {
    var t := ParseWhole(data).value;
    ParseWholeExact(data, t);
    if Elements(4, t).value.Some? {
      ElementsWf(4, t, Elements(4, t).value.value);
      DecodedArrayValid(Elements(4, t).value.value);
    }
  }

  /* Encoding */

  /** What the encoder demands of a header map: it fits, and no two keys become one on the wire. */
  ghost predicate EncodableMap(u: map<Key, Value>) {
    && |u| < MAX_LEN
    && InjectiveNorm(u)
    && forall k <- u :: KeyFits(k) && Plain(u[k])
  }

  function EncodeMap(u: Option<map<Key, Value>>, ord: Order): (t: Item)
    requires (u.Some? ==> EncodableMap(u.value)) && ValidOrder(ord)
    ensures Wf(t)
  {
    match u
    case None => NULL
    case Some(m) =>
      var ks := ord([], m);
      assert Lists(ks, m);
      ListsLength(ks, m);
      DecodeEncodePairs(VMap(m), ks, ord, []);
      Item.Node(ShortHead(5, |m|), EncodePairs(VMap(m), ks, ord, []))
  }

  function SignItem(msg: RawSign1, ord: Order): (t: Item)
    requires ValidSign1(msg) && (msg.unprotected.Some? ==> EncodableMap(msg.unprotected.value)) && ValidOrder(ord)
    ensures Wf(t)
  {
    Item.Node(Head(4, 0, 4), [msg.protected, EncodeMap(msg.unprotected, ord), msg.payload, msg.signature])
  }

  function Tagged(t: Item): (r: Item)
    requires Wf(t)
    ensures Wf(r)
  {
    Item.Node(Head(6, 0, 18), [t])
  }

  lemma UnparseTagged(t: Item)
    requires Wf(t)
    ensures Unparse(Tagged(t)) == [SIGN1_TAG_BYTE] + Unparse(t)
  {
    assert UnparseAll([t]) == Unparse(t) + UnparseAll([t][1..]);
  }

  function EncodeSign1(msg: RawSign1, tagged: bool, ord: Order): Bytes
    requires ValidSign1(msg) && (msg.unprotected.Some? ==> EncodableMap(msg.unprotected.value)) && ValidOrder(ord)
  {
    if tagged then Unparse(Tagged(SignItem(msg, ord))) else Unparse(SignItem(msg, ord))
  }

  /** The map a decoder makes of an encoded `u`: non-negative int64 keys come back as uint64. */
  ghost function OnTheWire(u: map<Key, Value>): map<Key, Value>
    requires InjectiveNorm(u)
  {
    map k | k in u.Keys :: NormKey(k) := u[k]
  }

  lemma RenamedIsOnTheWire(u: map<Key, Value>, ks: seq<Key>)
    requires InjectiveNorm(u) && Lists(ks, u)
    ensures Renamed(u, ks) == OnTheWire(u)
  {
    RenamedEntries(u, ks);
    var m, w := Renamed(u, ks), OnTheWire(u);
    forall n ensures n in m <==> n in w {
      if n in m {
        var k :| k in ks && NormKey(k) == n;
        assert k in u;
      }
      if n in w {
        var k :| k in u && NormKey(k) == n;
        assert k in ks;
      }
    }
    forall n | n in w ensures m[n] == w[n] {
      var k :| k in u && NormKey(k) == n;
      assert k in ks;
    }
  }

  lemma DecodeMapNode(h: Head, kids: seq<Item>, m: map<Key, Value>)
    requires h.major == 5 && ToMap(kids) == Some(m)
    ensures DecodeMap(Item.Node(h, kids)) == Some(Some(m))
  {
  }

  lemma PairsDecode(u: map<Key, Value>, ks: seq<Key>, ord: Order)
    requires EncodableMap(u) && ValidOrder(ord) && Lists(ks, u)
    ensures ToMap(EncodePairs(VMap(u), ks, ord, [])) == Some(OnTheWire(u))
  {
    DecodeEncodePairs(VMap(u), ks, ord, []);
    RenamedIsOnTheWire(u, ks);
  }

  lemma DecodeEncodedMap(u: map<Key, Value>, ord: Order)
    requires EncodableMap(u) && ValidOrder(ord)
    ensures DecodeMap(EncodeMap(Some(u), ord)) == Some(Some(OnTheWire(u)))
  {
    var ks := ord([], u);
    assert Lists(ks, u);
    PairsDecode(u, ks, ord);
    DecodeMapNode(ShortHead(5, |u|), EncodePairs(VMap(u), ks, ord, []), OnTheWire(u));
  }

  lemma FirstByte(msg: RawSign1, tagged: bool, ord: Order)
    requires ValidSign1(msg) && (msg.unprotected.Some? ==> EncodableMap(msg.unprotected.value)) && ValidOrder(ord)
    ensures EncodeSign1(msg, tagged, ord) != []
    ensures EncodeSign1(msg, tagged, ord)[0] == SIGN1_TAG_BYTE <==> tagged
  {
    var t := SignItem(msg, ord);
    UnparseTagged(t);
    assert HeadBytes(t.h)[0] == 0x84;
  }

  lemma ParsedSign1(msg: RawSign1, tagged: bool, ord: Order) returns (whole: Item)
    requires ValidSign1(msg) && (msg.unprotected.Some? ==> EncodableMap(msg.unprotected.value)) && ValidOrder(ord)
    ensures ParseWhole(EncodeSign1(msg, tagged, ord)) == Some(whole)
    ensures StripTags(whole) == Some(SignItem(msg, ord))
  {
    var t := SignItem(msg, ord);
    whole := if tagged then Tagged(t) else t;
    ParseWholeExact(EncodeSign1(msg, tagged, ord), whole);
  }

  lemma DecodeFieldsNode(data: Bytes, whole: Item, h: Head, kids: seq<Item>, u: Option<map<Key, Value>>)
    requires ParseWhole(data) == Some(whole) && StripTags(whole) == Some(Item.Node(h, kids))
    requires h.major == 4 && |kids| == 4 && DecodeMap(kids[1]) == Some(u)
    ensures DecodeFields(data) == Some(RawSign1(kids[0], u, kids[2], kids[3]))
  {
  }

  /** An encoded envelope decodes to the same raw items, the same map and the same tag flag,
      whatever order the encoder walked the maps in. */
  lemma DecodeEncodeSign1(msg: RawSign1, tagged: bool, ord: Order)
    requires ValidSign1(msg) && msg.unprotected.Some? && EncodableMap(msg.unprotected.value) && ValidOrder(ord)
    ensures DecodeSign1(EncodeSign1(msg, tagged, ord))
            == Some((msg.(unprotected := Some(OnTheWire(msg.unprotected.value))), tagged))
  {
    var t := SignItem(msg, ord);
    FirstByte(msg, tagged, ord);
    var whole := ParsedSign1(msg, tagged, ord);
    DecodeEncodedMap(msg.unprotected.value, ord);
    DecodeFieldsNode(EncodeSign1(msg, tagged, ord), whole, t.h, t.kids, Some(OnTheWire(msg.unprotected.value)));
  }

  /* The statement digest */

  /** The bytes hashed for a statement: the tagged envelope with an empty unprotected map. */
  function StatementPreimage(msg: RawSign1): Bytes
    requires ValidSign1(msg)
  {
    [0xd2, 0x84] + (Unparse(msg.protected) + ([0xa0] + (Unparse(msg.payload) + Unparse(msg.signature))))
  }

  ghost function StatementHash(H: Hash, envelope: Bytes): (d: Option<Digest>)
    requires |envelope| < MAX_LEN
    ensures d.Some? <==> DecodeFields(envelope).Some?
  {
    match DecodeFields(envelope)
    case None => None
    case Some(msg) =>
      DecodedFieldsValid(envelope);
      Some(H(StatementPreimage(msg)))
  }

  lemma SignItemBytes(msg: RawSign1, ord: Order)
    requires ValidSign1(msg) && (msg.unprotected.Some? ==> EncodableMap(msg.unprotected.value)) && ValidOrder(ord)
    ensures Unparse(SignItem(msg, ord))
            == [0x84] + (Unparse(msg.protected)
                         + (Unparse(EncodeMap(msg.unprotected, ord)) + (Unparse(msg.payload) + Unparse(msg.signature))))
  {
    var kids := SignItem(msg, ord).kids;
    UnparseKids(kids);
    UnparseShortNode(4, 4, kids);
  }

  lemma StrippedEncoding(msg: RawSign1, ord: Order)
    requires ValidSign1(msg) && msg.unprotected == Some(map[]) && ValidOrder(ord)
    ensures Unparse(Tagged(SignItem(msg, ord))) == StatementPreimage(msg)
  {
    EmptyMapBytes(ord);
    SignItemBytes(msg, ord);
    UnparseTagged(SignItem(msg, ord));
    var rest := Unparse(msg.protected) + ([0xa0] + (Unparse(msg.payload) + Unparse(msg.signature)));
    assert [0xd2] + ([0x84] + rest) == [0xd2, 0x84] + rest;
  }

  lemma EmptyMapBytes(ord: Order)
    requires ValidOrder(ord) && EncodableMap(map[])
    ensures Unparse(EncodeMap(Some(map[]), ord)) == [0xa0]
  {
    var empty: map<Key, Value> := map[];
    ListsLength(ord([], empty), empty);
    assert HeadBytes(Head(5, 0, 0)) == [0xa0];
  }

  lemma UnparseKids(kids: seq<Item>)
    requires AllWf(kids) && |kids| == 4
    ensures UnparseAll(kids) == Unparse(kids[0]) + (Unparse(kids[1]) + (Unparse(kids[2]) + Unparse(kids[3])))
  {
    var k1, k2, k3 := kids[1..], kids[1..][1..], kids[1..][1..][1..];
    assert UnparseAll(k1) == Unparse(kids[1]) + UnparseAll(k2);
    assert UnparseAll(k2) == Unparse(kids[2]) + UnparseAll(k3);
    assert UnparseAll(k3) == Unparse(kids[3]) + UnparseAll(k3[1..]);
  }

  /** Decodes, empties the unprotected map in place, encodes, tags and hashes. */
  method ComputeStatementHash(H: Hash, envelope: Bytes, canonical: Order) returns (r: Result<Digest>)
    requires |envelope| < MAX_LEN && ValidOrder(canonical)
    ensures r == match StatementHash(H, envelope)
                 case Some(d) => Ok(d)
                 case None => Error
  {
    var decoded := DecodeFields(envelope);
    if decoded.None? { return Error; }
    DecodedFieldsValid(envelope);
    var arr := decoded.value;
    arr := arr.(unprotected := Some(map[]));
    var body := SignItem(arr, canonical);
    StrippedEncoding(arr, canonical);
    r := Ok(H(Unparse(Tagged(body))));
  }

  lemma ThreeItems(a: RawSign1, b: RawSign1, separator: Bytes)
    requires ValidSign1(a) && ValidSign1(b)
    requires Unparse(a.protected) + (separator + (Unparse(a.payload) + Unparse(a.signature)))
          == Unparse(b.protected) + (separator + (Unparse(b.payload) + Unparse(b.signature)))
    ensures a.protected == b.protected && a.payload == b.payload && a.signature == b.signature
  {
    var tailA, tailB := Unparse(a.payload) + Unparse(a.signature), Unparse(b.payload) + Unparse(b.signature);
    PrefixFree(a.protected, b.protected, separator + tailA, separator + tailB);
    assert tailA == (separator + tailA)[|separator|..] == (separator + tailB)[|separator|..] == tailB;
    PrefixFree(a.payload, b.payload, Unparse(a.signature), Unparse(b.signature));
    assert Unparse(a.signature) + [] == Unparse(b.signature) + [];
    PrefixFree(a.signature, b.signature, [], []);
  }

  /** The digest input determines the three raw items, and they determine it. */
  lemma StatementPreimageInjective(a: RawSign1, b: RawSign1)
    requires ValidSign1(a) && ValidSign1(b)
    ensures StatementPreimage(a) == StatementPreimage(b)
            <==> a.protected == b.protected && a.payload == b.payload && a.signature == b.signature
  {
    if StatementPreimage(a) == StatementPreimage(b) {
      assert StatementPreimage(a)[2..] == StatementPreimage(b)[2..];
      ThreeItems(a, b, [0xa0]);
    }
  }

  /* Receipts */

  /** Looks under both integer types; a nil result means that there is no such header. */
  function ExtractReceipts(data: Bytes): Result<Option<seq<Value>>> {
    match DecodeSign1(data)
    case None => Error
    case Some((msg, _)) =>
      var u := if msg.unprotected.Some? then msg.unprotected.value else map[];
      if KInt(RECEIPTS) in u then AsReceipts(u[KInt(RECEIPTS)])
      else if KUint(RECEIPTS) in u then AsReceipts(u[KUint(RECEIPTS)])
      else Ok(None)
  }

  function AsReceipts(v: Value): Result<Option<seq<Value>>> {
    if v.VArr? then Ok(Some(v.xs)) else Error
  }

  /** How a `[]interface{}` is stored; the nil slice is encoded as null. */
  function ReceiptsValue(receipts: Option<seq<Value>>): Value {
    match receipts
    case None => VNull
    case Some(xs) => VArr(xs)
  }

  ghost predicate EncodableReceipts(receipts: Option<seq<Value>>) {
    Plain(ReceiptsValue(receipts))
  }

  /** The unprotected map after a rewrite, as the next decoder sees it. */
  function WithReceipts(u: map<Key, Value>, receipts: Option<seq<Value>>): map<Key, Value> {
    (u - {KInt(RECEIPTS), KUint(RECEIPTS)})[KUint(RECEIPTS) := ReceiptsValue(receipts)]
  }

  /** The unprotected map as the program leaves it for the encoder. */
  function Written(u: map<Key, Value>, receipts: Option<seq<Value>>): map<Key, Value> {
    (u - {KInt(RECEIPTS), KUint(RECEIPTS)})[KInt(RECEIPTS) := ReceiptsValue(receipts)]
  }

  lemma PlainEntries(u: map<Key, Value>)
    requires Plain(VMap(u))
    ensures forall k <- u :: KeyFits(k) && NormKey(k) == k && Plain(u[k])
  {
  }

  lemma RewrittenMap(u: map<Key, Value>, receipts: Option<seq<Value>>)
    requires (forall k <- u :: KeyFits(k) && NormKey(k) == k && Plain(u[k])) && |u| + 1 < MAX_LEN
    requires EncodableReceipts(receipts)
    ensures EncodableMap(Written(u, receipts)) && OnTheWire(Written(u, receipts)) == WithReceipts(u, receipts)
  {
    OnTheWireOfRewrite(u - {KInt(RECEIPTS), KUint(RECEIPTS)}, ReceiptsValue(receipts));
    WrittenFits(u, receipts);
  }

  lemma WrittenFits(u: map<Key, Value>, receipts: Option<seq<Value>>)
    requires forall k <- u :: KeyFits(k) && Plain(u[k])
    requires EncodableReceipts(receipts)
    ensures |Written(u, receipts)| <= |u| + 1
    ensures forall k <- Written(u, receipts) :: KeyFits(k) && Plain(Written(u, receipts)[k])
  {
    var base := u - {KInt(RECEIPTS), KUint(RECEIPTS)};
    var u' := Written(u, receipts);
    assert u'.Keys == base.Keys + {KInt(RECEIPTS)};
    SubsetLength(base.Keys, u.Keys);
    assert KeyFits(KInt(RECEIPTS));
  }

  lemma OnTheWireOfRewrite(base: map<Key, Value>, v: Value)
    requires forall k <- base :: NormKey(k) == k && k != KUint(RECEIPTS)
    ensures InjectiveNorm(base[KInt(RECEIPTS) := v])
    ensures OnTheWire(base[KInt(RECEIPTS) := v]) == base[KUint(RECEIPTS) := v]
  {
    var u' := base[KInt(RECEIPTS) := v];
    var w, w' := OnTheWire(u'), base[KUint(RECEIPTS) := v];
    assert NormKey(KInt(RECEIPTS)) == KUint(RECEIPTS);
    forall n ensures n in w <==> n in w' {
      if n in base {
        assert n in u' && NormKey(n) == n;
      } else if n == KUint(RECEIPTS) {
        assert KInt(RECEIPTS) in u';
      }
    }
    forall n | n in w ensures w[n] == w'[n] {
      var k :| k in u' && NormKey(k) == n;
    }
  }

  lemma SubsetLength<T>(a: set<T>, b: set<T>)
    requires a <= b
    ensures |a| <= |b|
  {
    assert b == a + (b - a);
    assert |b| == |a| + |b - a|;
  }

  lemma RewrittenEncoding(msg: RawSign1, tagged: bool, receipts: Option<seq<Value>>, ord: Order)
    requires FieldsValid(msg) && msg.unprotected.Some? && EncodableReceipts(receipts) && ValidOrder(ord)
    ensures EncodableMap(Written(msg.unprotected.value, receipts))
    ensures DecodeSign1(EncodeSign1(msg.(unprotected := Some(Written(msg.unprotected.value, receipts))), tagged, ord))
            == Some((msg.(unprotected := Some(WithReceipts(msg.unprotected.value, receipts))), tagged))
  {
    PlainEntries(msg.unprotected.value);
    RewrittenMap(msg.unprotected.value, receipts);
    DecodeEncodeSign1(msg.(unprotected := Some(Written(msg.unprotected.value, receipts))), tagged, ord);
  }

  /** Rewrites the receipts header. The output decodes to the same three raw items and tag flag,
      every other header entry is untouched, and any earlier receipts are gone. A null
      unprotected header decodes to a nil map, which Go refuses to write to. */
  method ReplaceReceipts(data: Bytes, receipts: Option<seq<Value>>, ord: Order) returns (r: Result<Bytes>)
    requires |data| < MAX_LEN && EncodableReceipts(receipts) && ValidOrder(ord)
    ensures r.Error? <==> DecodeSign1(data).None?
    ensures r.Panic? <==> DecodeSign1(data).Some? && DecodeSign1(data).value.0.unprotected.None?
    ensures r.Ok? ==> Rewritten(data, receipts, r.value)
  {
    var decoded := DecodeSign1(data);
    if decoded.None? { return Error; }
    var (msg, hadTag) := decoded.value;
    DecodedFieldsValid(data);
    if msg.unprotected.None? { return Panic; }
    var unprotected := msg.unprotected.value;
    unprotected := unprotected - {KInt(RECEIPTS)};
    unprotected := unprotected - {KUint(RECEIPTS)};
    unprotected := unprotected[KInt(RECEIPTS) := ReceiptsValue(receipts)];
    assert unprotected == Written(msg.unprotected.value, receipts);
    RewrittenEncoding(msg, hadTag, receipts, ord);
    msg := msg.(unprotected := Some(unprotected));
    var body := SignItem(msg, ord);
    if hadTag {
      return Ok(Unparse(Tagged(body)));
    }
    r := Ok(Unparse(body));
  }

  /** The smallest envelope with a null header: the decoder takes it, the rewrite panics. */
  lemma NullHeaderDecodes()
    ensures var decoded := DecodeSign1([0x84, 0x40, 0xf6, 0x40, 0x40]);
            decoded.Some? && decoded.value.0.unprotected.None?
  {
    var empty := Item.Str(Head(2, 0, 0), []);
    var kids := [empty, NULL, empty, empty];
    var t := Item.Node(Head(4, 0, 4), kids);
    UnparseKids(kids);
    assert HeadBytes(t.h) == [0x84] && HeadBytes(empty.h) == [0x40] && HeadBytes(NULL.h) == [0xf6];
    ParseWholeExact([0x84, 0x40, 0xf6, 0x40, 0x40], t);
    DecodeFieldsNode([0x84, 0x40, 0xf6, 0x40, 0x40], t, t.h, kids, None);
  }

  /** `out` is `data` with its receipts header set to `receipts` and nothing else changed. */
  ghost predicate Rewritten(data: Bytes, receipts: Option<seq<Value>>, out: Bytes) {
    && DecodeSign1(data).Some?
    && DecodeSign1(data).value.0.unprotected.Some?
    && var (msg, hadTag) := DecodeSign1(data).value;
       DecodeSign1(out) == Some((msg.(unprotected := Some(WithReceipts(msg.unprotected.value, receipts))), hadTag))
  }

  /** What was written is what is read back, except that a nil slice, written as null, is not an array. */
  lemma ExtractAfterReplace(data: Bytes, receipts: Option<seq<Value>>, out: Bytes)
    requires Rewritten(data, receipts, out)
    ensures ExtractReceipts(out) == Ok(receipts) <==> receipts.Some?
    ensures receipts.None? ==> ExtractReceipts(out) == Error
  {
    var u := DecodeSign1(data).value.0.unprotected.value;
    assert KInt(RECEIPTS) !in WithReceipts(u, receipts);
    assert KUint(RECEIPTS) in WithReceipts(u, receipts);
  }

  /** Receipts taken from another envelope can always be written. */
  lemma DonorReceiptsEncodable(donor: Bytes)
    requires |donor| < MAX_LEN && ExtractReceipts(donor).Ok? && ExtractReceipts(donor).value.Some?
    ensures EncodableReceipts(ExtractReceipts(donor).value)
  {
    DecodedFieldsValid(donor);
    PlainEntries(DecodeSign1(donor).value.0.unprotected.value);
  }

  /** A second rewrite overrides the first entirely. */
  lemma ReplaceTwice(data: Bytes, first: Option<seq<Value>>, second: Option<seq<Value>>, mid: Bytes, out: Bytes)
    requires Rewritten(data, first, mid) && Rewritten(mid, second, out)
    ensures Rewritten(data, second, out)
  {
    WithReceiptsTwice(DecodeSign1(data).value.0.unprotected.value, first, second);
  }

  lemma WithReceiptsTwice(u: map<Key, Value>, first: Option<seq<Value>>, second: Option<seq<Value>>)
    ensures WithReceipts(WithReceipts(u, first), second) == WithReceipts(u, second)
  {
  }

  /** Rewriting the receipts never changes the digest the receipts are checked against. */
  lemma DigestInvariant(H: Hash, data: Bytes, receipts: Option<seq<Value>>, out: Bytes)
    requires |data| < MAX_LEN && |out| < MAX_LEN
    requires Rewritten(data, receipts, out)
    ensures StatementHash(H, out) == StatementHash(H, data) && StatementHash(H, data).Some?
  {
    DecodedFieldsValid(data);
    DecodedFieldsValid(out);
  }

  /* The bytes themselves */

  /** An envelope byte by byte: protected header, unprotected header, payload and signature in that
      order. Its digest is that of the same bytes, tagged, with an empty map for the second. */
  lemma EnvelopeBytes(H: Hash, items: seq<Item>, u: Option<map<Key, Value>>, tagged: bool, data: Bytes)
    requires |items| == 4 && AllWf(items) && DecodeMap(items[1]) == Some(u) && |data| < MAX_LEN
    requires var body := [0x84] + (Unparse(items[0]) + (Unparse(items[1]) + (Unparse(items[2]) + Unparse(items[3]))));
             data == if tagged then [0xd2] + body else body
    ensures DecodeSign1(data) == Some((RawSign1(items[0], u, items[2], items[3]), tagged))
    ensures StatementHash(H, data)
            == Some(H([0xd2, 0x84] + (Unparse(items[0]) + ([0xa0] + (Unparse(items[2]) + Unparse(items[3]))))))
  {
    var t := Item.Node(Head(4, 0, 4), items);
    UnparseKids(items);
    UnparseShortNode(4, 4, items);
    if tagged {
      UnparseTagged(t);
      ParseWholeExact(data, Tagged(t));
      DecodeFieldsNode(data, Tagged(t), t.h, items, u);
    } else {
      ParseWholeExact(data, t);
      DecodeFieldsNode(data, t, t.h, items, u);
    }
  }

  /** After a rewrite label 394 holds the receipts, and every other entry is what it was; so are the tag
      and the three other items. */
  lemma RewrittenEntries(data: Bytes, xs: seq<Value>, out: Bytes)
    requires |data| < MAX_LEN && Rewritten(data, Some(xs), out)
    ensures out != [] && data != [] && (out[0] == 0xd2 <==> data[0] == 0xd2)
    ensures var a, b := DecodeSign1(data).value.0, DecodeSign1(out).value.0;
            && b.protected == a.protected && b.payload == a.payload && b.signature == a.signature
            && a.unprotected.Some? && b.unprotected.Some?
    ensures var u, w := DecodeSign1(data).value.0.unprotected.value, DecodeSign1(out).value.0.unprotected.value;
            && KUint(394) in w && w[KUint(394)] == VArr(xs)
            && (forall k :: k != KUint(394) ==> (k in w <==> k in u))
            && forall k :: k != KUint(394) && k in u ==> w[k] == u[k]
  {
    DecodedFieldsValid(data);
    PlainEntries(DecodeSign1(data).value.0.unprotected.value);
  }

  /** The receipts of an envelope are the array under label 394; without the label there are none. */
  lemma ExtractReceiptsExact(data: Bytes, u: map<Key, Value>)
    requires |data| < MAX_LEN && DecodeSign1(data).Some? && DecodeSign1(data).value.0.unprotected == Some(u)
    ensures ExtractReceipts(data)
            == if KUint(394) !in u then Ok(None)
               else if u[KUint(394)].VArr? then Ok(Some(u[KUint(394)].xs)) else Error
  {
    DecodedFieldsValid(data);
    PlainEntries(u);
  }

  /** What is decoded as an envelope: one message that is null or an array of exactly four items, the
      second of which is a map or null. */
  lemma DecodeFieldsExact(data: Bytes)
    ensures DecodeFields(data).Some? <==>
              && ParseWhole(data).Some?
              && Elements(4, ParseWhole(data).value).Some?
              && var kids := Elements(4, ParseWhole(data).value).value;
                 kids.None? || (|kids.value| == 4 && DecodeMap(kids.value[1]).Some?)
  {
  }

  lemma DecodeMapExact(t: Item, m: map<Key, Value>)
    ensures DecodeMap(t) == Some(Some(m)) <==>
              Elements(5, t).Some? && Elements(5, t).value.Some? && ToMap(Elements(5, t).value.value) == Some(m)
    ensures DecodeMap(t) == Some(None) <==> Elements(5, t) == Some(None)
  {
  }
}
