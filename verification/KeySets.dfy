/** COSE Key Sets (section 7 of RFC 9052) and Transparency Trust Lists: parsing to maps,
    encoding from lists, and what survives the way through both. */
module KeySets {
  import opened Basics
  import opened CborSyntax
  import opened CborValue
  import opened Utf8
  import opened PublicKeys
  import CcfProof

  const LEDGER_ENTRY_KEYS: int := 1

  /** What the COSE library makes of one raw key. */
  datatype KeyDecode = Malformed | Decoded(id: Bytes, pk: Option<PublicKey>)

  /** The foreign parts: single keys, and the `Equal` method of public keys. */
  datatype KeyCodec = KeyCodec(
    decode: Item -> KeyDecode,
    encode: (Bytes, PublicKey) -> Option<Item>,
    equal: (PublicKey, PublicKey) -> bool)

  datatype KidKey = KidKey(kid: Bytes, key: PublicKey)

  type KeyMap = map<Bytes, PublicKey>

  ghost predicate EqualIsEquivalence(codec: KeyCodec) {
    && (forall a :: codec.equal(a, a))
    && (forall a, b :: codec.equal(a, b) ==> codec.equal(b, a))
    && (forall a, b, c :: codec.equal(a, b) && codec.equal(b, c) ==> codec.equal(a, c))
  }

  /* Raw arrays and maps */

  function RawArray(data: Bytes): Option<seq<Item>> {
    match ParseWhole(data)
    case None => None
    case Some(t) => ItemsOf(4, t)
  }

  /* Parsing a key set */

  /** The key ID and key of an element, unless the element must be ignored. */
  function Usable(codec: KeyCodec, raw: Item): Option<KidKey> {
    match codec.decode(raw)
    case Malformed => None
    case Decoded(id, pk) => if id == [] || pk.None? then None else Some(KidKey(id, pk.value))
  }

  /** A key that conflicts with what its key ID already stands for is ignored, an equal one replaces it. */
  function Claim(codec: KeyCodec, keys: KeyMap, k: KidKey): KeyMap {
    if k.kid in keys && !codec.equal(keys[k.kid], k.key) then keys else keys[k.kid := k.key]
  }

  /** The keys gathered from a sequence of elements. */
  function Gather(codec: KeyCodec, raws: seq<Item>): KeyMap {
    if raws == [] then map[] else
    var keys := Gather(codec, raws[..|raws| - 1]);
    match Usable(codec, raws[|raws| - 1])
    case None => keys
    case Some(k) => Claim(codec, keys, k)
  }

  /** The result of parsing, for a sequence of elements. */
  function KeySetOf(codec: KeyCodec, raws: Option<seq<Item>>): Option<KeyMap> {
    if raws.None? || Gather(codec, raws.value) == map[] then None else Some(Gather(codec, raws.value))
  }

  /** Returns the map, or nothing together with a non-nil error. */
  method ParseKeySetAsMap(codec: KeyCodec, data: Bytes) returns (r: Option<KeyMap>, err: bool)
    ensures r == KeySetOf(codec, RawArray(data))
    ensures err <==> r.None?
  {
    var decoded := RawArray(data);
    if decoded.None? { return None, true; }
    var rawKeys := decoded.value;
    if |rawKeys| == 0 { return None, true; }
    var lastKeyError := false;
    var keys: KeyMap := map[];
    for i := 0 to |rawKeys|
      invariant keys == Gather(codec, rawKeys[..i])
      invariant i > 0 && keys == map[] ==> lastKeyError
    {
      var raw := rawKeys[i];
      assert rawKeys[..i + 1][..i] == rawKeys[..i];
      var k := codec.decode(raw);
      if k.Malformed? {
        lastKeyError := true;
        continue;
      }
      var kid := k.id;
      if kid == [] {
        lastKeyError := true;
        continue;
      }
      if k.pk.None? {
        lastKeyError := true;
        continue;
      }
      var pk := k.pk.value;
      if kid in keys {
        if !codec.equal(keys[kid], pk) {
          continue;
        }
      }
      keys := keys[kid := pk];
    }
    assert rawKeys[..|rawKeys|] == rawKeys;
    if |keys| == 0 {
      return None, lastKeyError;
    }
    r, err := Some(keys), false;
  }

  /** The key of the first usable element with a key ID. */
  function FirstUsable(codec: KeyCodec, raws: seq<Item>, kid: Bytes): Option<PublicKey> {
    if raws == [] then None
    else
      match Usable(codec, raws[0])
      case Some(k) => if k.kid == kid then Some(k.key) else FirstUsable(codec, raws[1..], kid)
      case None => FirstUsable(codec, raws[1..], kid)
  }

  lemma {:induction false} FirstUsableConcat(codec: KeyCodec, a: seq<Item>, b: seq<Item>, kid: Bytes)
    ensures FirstUsable(codec, a + b, kid) ==
            if FirstUsable(codec, a, kid).Some? then FirstUsable(codec, a, kid) else FirstUsable(codec, b, kid)
  {
    if a == [] {
      assert a + b == b;
    } else {
      assert (a + b)[1..] == a[1..] + b;
      FirstUsableConcat(codec, a[1..], b, kid);
    }
  }

  /** Parsing refines "the first usable element of a key ID wins". */
  lemma {:induction false} GatherIsFirstUsable(codec: KeyCodec, raws: seq<Item>, kid: Bytes)
    requires EqualIsEquivalence(codec)
    ensures kid in Gather(codec, raws) <==> FirstUsable(codec, raws, kid).Some?
    ensures kid in Gather(codec, raws) ==> codec.equal(FirstUsable(codec, raws, kid).value, Gather(codec, raws)[kid])
  {
    if raws != [] {
      var init, last := raws[..|raws| - 1], raws[|raws| - 1];
      assert raws == init + [last];
      GatherIsFirstUsable(codec, init, kid);
      FirstUsableConcat(codec, init, [last], kid);
    }
  }

  /** An element with no usable key, or whose key ID was claimed before it. */
  predicate Irrelevant(codec: KeyCodec, before: seq<Item>, x: Item) {
    Usable(codec, x).None? || FirstUsable(codec, before, Usable(codec, x).value.kid).Some?
  }

  ghost predicate EqualMaps(codec: KeyCodec, a: KeyMap, b: KeyMap) {
    a.Keys == b.Keys && forall kid <- a :: codec.equal(a[kid], b[kid])
  }

  /** Unusable, repeated and conflicting later elements may be put in or taken out anywhere: the
      result has the same key IDs and Equal keys. */
  lemma IrrelevantElements(codec: KeyCodec, before: seq<Item>, x: Item, after: seq<Item>)
    requires EqualIsEquivalence(codec) && Irrelevant(codec, before, x)
    ensures EqualMaps(codec, Gather(codec, before + [x] + after), Gather(codec, before + after))
    ensures KeySetOf(codec, Some(before + [x] + after)).Some? <==> KeySetOf(codec, Some(before + after)).Some?
  {
    var m1, m2 := Gather(codec, before + [x] + after), Gather(codec, before + after);
    forall kid ensures kid in m1 <==> kid in m2
               ensures kid in m1 ==> codec.equal(m1[kid], m2[kid])
    {
      FirstUsableConcat(codec, before + [x], after, kid);
      FirstUsableConcat(codec, before, [x], kid);
      FirstUsableConcat(codec, before, after, kid);
      GatherIsFirstUsable(codec, before + [x] + after, kid);
      GatherIsFirstUsable(codec, before + after, kid);
    }
    assert m1.Keys == m2.Keys;
    assert m1 == map[] <==> m1.Keys == {};
    assert m2 == map[] <==> m2.Keys == {};
  }

  /* Parsing a trust list */

  /** A map key decoded into a Go string; a null leaves it empty. */
  function TextKey(t: Item): Option<Bytes> {
    match StripTags(t)
    case None => None
    case Some(core) =>
      if IsNull(core) then Some([]) else
      match ToValue(core)
      case Some(VText(s)) => Some(s)
      case _ => None
  }

  /** Entries of a map keyed by strings, values kept raw; a later entry overrides an earlier one. */
  function RawByText(ts: seq<Item>): (r: Option<map<Bytes, Item>>)
    ensures r.Some? && AllWf(ts) ==> forall k <- r.value :: Wf(r.value[k])
  {
    if |ts| < 2 then Some(map[]) else
    match (TextKey(ts[0]), RawByText(ts[2..]))
    case (Some(k), Some(m)) => Some(if k in m then m else m[k := ts[1]])
    case _ => None
  }

  function RawByInt64(ts: seq<Item>): (r: Option<map<int, Item>>)
    ensures r.Some? && AllWf(ts) ==> forall k <- r.value :: Wf(r.value[k])
  {
    if |ts| < 2 then Some(map[]) else
    match (CcfProof.Int64Key(ts[0]), RawByInt64(ts[2..]))
    case (Some(k), Some(m)) => Some(if k in m then m else m[k := ts[1]])
    case _ => None
  }

  function RawIssuers(data: Bytes): Option<map<Bytes, Item>> {
    match ParseWhole(data)
    case None => None
    case Some(t) =>
      match ItemsOf(5, t)
      case None => None
      case Some(ts) => RawByText(ts)
  }

  function LedgerEntry(t: Item): Option<map<int, Item>> {
    match ItemsOf(5, t)
    case None => None
    case Some(ts) => RawByInt64(ts)
  }

  /** The keys of one ledger. */
  function LedgerKeys(codec: KeyCodec, entry: Item): Option<KeyMap> {
    match LedgerEntry(entry)
    case None => None
    case Some(m) => if LEDGER_ENTRY_KEYS in m then KeySetOf(codec, ItemsOf(4, m[LEDGER_ENTRY_KEYS])) else None
  }

  /** All or nothing: one missing value spoils the map. */
  function AllPresent<V>(m: map<Bytes, Option<V>>): Option<map<Bytes, V>> {
    if forall k <- m :: m[k].Some? then Some(map k <- m :: m[k].value) else None
  }

  lemma AllPresentIs<V>(m: map<Bytes, Option<V>>, out: map<Bytes, V>)
    requires out.Keys == m.Keys && forall k <- out :: m[k] == Some(out[k])
    ensures AllPresent(m) == Some(out)
  {
    assert (map k <- m :: m[k].value) == out;
  }

  function Ledgers(codec: KeyCodec, raws: map<Bytes, Item>): map<Bytes, Option<KeyMap>> {
    map issuer <- raws :: LedgerKeys(codec, raws[issuer])
  }

  ghost predicate IsLedger(codec: KeyCodec, entry: Item, keys: KeyMap) {
    LedgerKeys(codec, entry) == Some(keys)
  }

  lemma LedgersParsed(codec: KeyCodec, raws: map<Bytes, Item>, out: map<Bytes, KeyMap>)
    requires out.Keys == raws.Keys && forall issuer <- out :: IsLedger(codec, raws[issuer], out[issuer])
    ensures AllPresent(Ledgers(codec, raws)) == Some(out)
  {
    AllPresentIs(Ledgers(codec, raws), out);
  }

  lemma LedgerMissing(codec: KeyCodec, raws: map<Bytes, Item>, issuer: Bytes)
    requires issuer in raws && LedgerKeys(codec, raws[issuer]).None?
    ensures AllPresent(Ledgers(codec, raws)).None?
  {
    assert Ledgers(codec, raws)[issuer].None?;
  }

  /** A trust list is parsed when it has a ledger and every single ledger is parsed. */
  function TrustList(codec: KeyCodec, data: Bytes): Option<map<Bytes, KeyMap>> {
    match RawIssuers(data)
    case None => None
    case Some(raws) => if raws == map[] then None else AllPresent(Ledgers(codec, raws))
  }

  method ParseLedger(codec: KeyCodec, rawEntry: Item) returns (r: Option<KeyMap>)
    requires Wf(rawEntry)
    ensures r == LedgerKeys(codec, rawEntry)
    ensures r.Some? ==> IsLedger(codec, rawEntry, r.value)
  {
    var entry := LedgerEntry(rawEntry);
    if entry.None? { return None; }
    if LEDGER_ENTRY_KEYS !in entry.value { return None; }
    ItemsOfWf(5, rawEntry);
    var rawKeySet := entry.value[LEDGER_ENTRY_KEYS];
    ParseWholeExact(Unparse(rawKeySet), rawKeySet);
    var keys, err := ParseKeySetAsMap(codec, Unparse(rawKeySet));
    if err { return None; }
    r := keys;
  }

  lemma RawIssuersWf(data: Bytes)
    requires RawIssuers(data).Some?
    ensures forall issuer <- RawIssuers(data).value :: Wf(RawIssuers(data).value[issuer])
  {
    var t := ParseWhole(data).value;
    ParseWholeExact(data, t);
    ItemsOfWf(5, t);
  }

  /** The issuers are visited in whatever order the map yields them. */
  method ParseTTLPayload(codec: KeyCodec, data: Bytes) returns (r: Option<map<Bytes, KeyMap>>)
    ensures r == TrustList(codec, data)
  {
    var decoded := RawIssuers(data);
    if decoded.None? { return None; }
    var rawIssuers := decoded.value;
    if |rawIssuers| == 0 { return None; }
    RawIssuersWf(data);
    r := ParseLedgers(codec, rawIssuers);
  }

  method ParseLedgers(codec: KeyCodec, rawIssuers: map<Bytes, Item>) returns (r: Option<map<Bytes, KeyMap>>)
    requires forall issuer <- rawIssuers :: Wf(rawIssuers[issuer])
    ensures r == AllPresent(Ledgers(codec, rawIssuers))
  {
    var out: map<Bytes, KeyMap> := map[];
    var todo := rawIssuers.Keys;
    while todo != {}
      invariant todo <= rawIssuers.Keys && out.Keys == rawIssuers.Keys - todo
      invariant forall issuer <- out :: IsLedger(codec, rawIssuers[issuer], out[issuer])
      decreases |todo|
    {
      var issuer :| issuer in todo;
      todo := todo - {issuer};
      var keys := ParseLedger(codec, rawIssuers[issuer]);
      if keys.None? {
        LedgerMissing(codec, rawIssuers, issuer);
        return None;
      }
      out := out[issuer := keys.value];
    }
    LedgersParsed(codec, rawIssuers, out);
    r := Some(out);
  }

  /* Encoding */

  /** Decoding a key that was encoded gives it back. */
  ghost predicate LawfulCodec(codec: KeyCodec) {
    forall kid, pk :: codec.encode(kid, pk).Some? ==>
      Wf(codec.encode(kid, pk).value) && codec.decode(codec.encode(kid, pk).value) == Decoded(kid, Some(pk))
  }

  predicate AllEncodable(codec: KeyCodec, keys: seq<KidKey>) {
    forall k <- keys :: codec.encode(k.kid, k.key).Some?
  }

  function KeyItems(codec: KeyCodec, keys: seq<KidKey>): (ts: seq<Item>)
    requires AllEncodable(codec, keys)
    ensures |ts| == |keys|
  {
    seq(|keys|, i requires 0 <= i < |keys| => codec.encode(keys[i].kid, keys[i].key).value)
  }

  function KeySetItem(codec: KeyCodec, keys: seq<KidKey>): Item
    requires AllEncodable(codec, keys) && |keys| < MAX_LEN
  {
    Node(ShortHead(4, |keys|), KeyItems(codec, keys))
  }

  method EncodeKeySet(codec: KeyCodec, keys: seq<KidKey>) returns (r: Result<Bytes>)
    requires LawfulCodec(codec) && |keys| < MAX_LEN
    ensures r.Ok? <==> keys != [] && AllEncodable(codec, keys)
    ensures r.Ok? ==> Wf(KeySetItem(codec, keys)) && r.value == Unparse(KeySetItem(codec, keys))
  {
    if |keys| == 0 { return Error; }
    var rawKeys: seq<Item> := [];
    for i := 0 to |keys|
      invariant AllEncodable(codec, keys[..i])
      invariant |rawKeys| == i && AllWf(rawKeys)
      invariant forall j :: 0 <= j < i ==> codec.encode(keys[j].kid, keys[j].key) == Some(rawKeys[j])
    {
      var raw := codec.encode(keys[i].kid, keys[i].key);
      if raw.None? {
        assert keys[i] in keys;
        return Error;
      }
      rawKeys := rawKeys + [raw.value];
      assert keys[..i + 1] == keys[..i] + [keys[i]];
    }
    assert keys[..|keys|] == keys;
    assert rawKeys == KeyItems(codec, keys);
    r := Ok(Unparse(Node(ShortHead(4, |keys|), rawKeys)));
  }

  function TextItem(s: Bytes): (t: Item)
    requires |s| < MAX_LEN
    ensures Wf(t)
  {
    Str(ShortHead(3, |s|), s)
  }

  lemma TextItemKey(s: Bytes)
    requires |s| < MAX_LEN
    ensures TextKey(TextItem(s)) == if ValidUtf8(s) then Some(s) else None
  {
  }

  /** The ledger entry written for one issuer: a map with the single key 1. */
  function EntryItem(keySet: Item): (t: Item)
    requires Wf(keySet)
    ensures Wf(t)
    ensures LedgerEntry(t) == Some(map[LEDGER_ENTRY_KEYS := keySet])
  {
    var kids := [Leaf(ShortHead(0, 1)), keySet];
    assert Wf(kids[0]) && CcfProof.Int64Key(kids[0]) == Some(1);
    assert kids[2..] == [] && RawByInt64(kids[2..]) == Some(map[]);
    Node(ShortHead(5, 1), kids)
  }

  predicate IssuersAreText<V>(m: map<Bytes, V>) {
    forall issuer <- m :: ValidUtf8(issuer)
  }

  ghost predicate IssuersFit<V>(m: map<Bytes, V>) {
    forall issuer <- m :: |issuer| < MAX_LEN
  }

  /** `ts` is the map written out. */
  ghost predicate Marshalled(ts: seq<Item>, m: map<Bytes, Item>) {
    && AllWf(ts) && |ts| == 2 * |m|
    && RawByText(ts) == if IssuersAreText(m) then Some(m) else None
  }

  lemma MarshalOneMore(m: map<Bytes, Item>, ts: seq<Item>, k: Bytes, item: Item)
    requires Marshalled(ts, m) && k !in m && |k| < MAX_LEN && Wf(item)
    ensures Marshalled([TextItem(k), item] + ts, m[k := item])
  {
    assert ([TextItem(k), item] + ts)[2..] == ts;
    TextItemKey(k);
    AddedIssuer(m, k, item);
    assert m[k := item].Keys == m.Keys + {k};
  }

  lemma AddedIssuer<V>(m: map<Bytes, V>, k: Bytes, v: V)
    requires k !in m
    ensures IssuersAreText(m[k := v]) <==> IssuersAreText(m) && ValidUtf8(k)
  {
    if IssuersAreText(m[k := v]) {
      assert k in m[k := v];
      assert forall issuer <- m :: issuer in m[k := v];
    }
  }

  /** The entries of some keys. */
  function EntryItems(payload: map<Bytes, Item>, ks: seq<Bytes>): seq<Item>
    requires forall k <- ks :: k in payload && |k| < MAX_LEN
  {
    if ks == [] then [] else [TextItem(ks[0]), payload[ks[0]]] + EntryItems(payload, ks[1..])
  }

  /** `ks` lists a set, each element once. */
  ghost predicate ListsSet(ks: seq<Bytes>, s: set<Bytes>) {
    (forall k :: k in ks <==> k in s) && forall i, j :: 0 <= i < j < |ks| ==> ks[i] != ks[j]
  }

  ghost function Written(payload: map<Bytes, Item>, ks: seq<Bytes>): (m: map<Bytes, Item>)
    requires forall k <- ks :: k in payload
    ensures forall k :: k in m <==> k in ks
    ensures forall k <- m :: m[k] == payload[k]
  {
    if ks == [] then map[] else Written(payload, ks[1..])[ks[0] := payload[ks[0]]]
  }

  lemma {:induction false} EntriesMarshalled(payload: map<Bytes, Item>, ks: seq<Bytes>)
    requires forall k <- ks :: k in payload && |k| < MAX_LEN && Wf(payload[k])
    requires forall i, j :: 0 <= i < j < |ks| ==> ks[i] != ks[j]
    ensures Marshalled(EntryItems(payload, ks), Written(payload, ks))
  {
    if ks != [] {
      EntriesMarshalled(payload, ks[1..]);
      MarshalOneMore(Written(payload, ks[1..]), EntryItems(payload, ks[1..]), ks[0], payload[ks[0]]);
    }
  }

  lemma AllMarshalled(payload: map<Bytes, Item>, ks: seq<Bytes>)
    requires IssuersFit(payload) && (forall k <- payload :: Wf(payload[k])) && ListsSet(ks, payload.Keys)
    ensures Marshalled(EntryItems(payload, ks), payload)
  {
    EntriesMarshalled(payload, ks);
    assert Written(payload, ks) == payload;
  }

  /** Writes the map out in an arbitrary order. The encoder takes any string for a name, but a reader
      wants UTF-8. */
  method MarshalByText(payload: map<Bytes, Item>) returns (ts: seq<Item>)
    requires IssuersFit(payload) && forall k <- payload :: Wf(payload[k])
    ensures Marshalled(ts, payload)
  {
    ts := [];
    var todo := payload.Keys;
    ghost var ks: seq<Bytes> := [];
    while todo != {}
      invariant todo <= payload.Keys && ListsSet(ks, payload.Keys - todo)
      invariant ts == EntryItems(payload, ks)
      decreases |todo|
    {
      var k :| k in todo;
      todo := todo - {k};
      ts := [TextItem(k), payload[k]] + ts;
      ks := [k] + ks;
    }
    AllMarshalled(payload, ks);
  }

  /** What a reader keeps of an encoded list: keys without a key ID are lost. */
  function Kept(codec: KeyCodec, keys: seq<KidKey>): KeyMap {
    if keys == [] then map[] else
    var m := Kept(codec, keys[..|keys| - 1]);
    var last := keys[|keys| - 1];
    if last.kid == [] then m else Claim(codec, m, last)
  }

  ghost predicate DistinctKids(keys: seq<KidKey>) {
    forall i, j :: 0 <= i < j < |keys| ==> keys[i].kid != keys[j].kid
  }

  /** Parsing an encoded list keeps exactly the keys that have a key ID. */
  lemma {:induction false} GatherEncoded(codec: KeyCodec, keys: seq<KidKey>)
    requires LawfulCodec(codec) && AllEncodable(codec, keys)
    ensures Gather(codec, KeyItems(codec, keys)) == Kept(codec, keys)
  {
    if keys != [] {
      var init, last := keys[..|keys| - 1], keys[|keys| - 1];
      assert keys == init + [last];
      GatherEncoded(codec, init);
      var raws := KeyItems(codec, keys);
      assert raws[..|raws| - 1] == KeyItems(codec, init);
    }
  }

  /** What a trust list written from `issuerKeys` says to its reader: for each issuer the keys that
      are kept, of which there must be one. */
  function Readable(codec: KeyCodec, issuerKeys: map<Bytes, seq<KidKey>>): map<Bytes, Option<KeyMap>> {
    map issuer <- issuerKeys :: NonEmpty(Kept(codec, issuerKeys[issuer]))
  }

  function NonEmpty(m: KeyMap): Option<KeyMap> {
    if m == map[] then None else Some(m)
  }

  /** A ledger entry that reads back as the keys of the list. */
  ghost predicate IsEntryFor(codec: KeyCodec, entry: Item, keys: seq<KidKey>) {
    Wf(entry) && LedgerKeys(codec, entry) == NonEmpty(Kept(codec, keys))
  }

  /** One issuer's entry. */
  method EncodeLedger(codec: KeyCodec, keys: seq<KidKey>) returns (r: Result<Item>)
    requires LawfulCodec(codec) && |keys| < MAX_LEN
    ensures r.Ok? <==> keys != [] && AllEncodable(codec, keys)
    ensures r.Ok? ==> IsEntryFor(codec, r.value, keys)
  {
    var keySet := EncodeKeySet(codec, keys);
    if !keySet.Ok? { return Error; }
    GatherEncoded(codec, keys);
    var item := KeySetItem(codec, keys);
    assert ItemsOf(4, item) == Some(KeyItems(codec, keys));
    r := Ok(EntryItem(item));
  }

  ghost predicate ListsFit(issuerKeys: map<Bytes, seq<KidKey>>) {
    forall issuer <- issuerKeys :: |issuerKeys[issuer]| < MAX_LEN
  }

  predicate EveryListEncodable(codec: KeyCodec, issuerKeys: map<Bytes, seq<KidKey>>) {
    forall issuer <- issuerKeys :: issuerKeys[issuer] != [] && AllEncodable(codec, issuerKeys[issuer])
  }

  /** Encodes the list; whatever the order of the maps, parsing the output gives every issuer its keys,
      or nothing if a name is not UTF-8. */
  method EncodeTTLPayload(codec: KeyCodec, issuerKeys: map<Bytes, seq<KidKey>>) returns (r: Result<Bytes>)
    requires LawfulCodec(codec) && |issuerKeys| < MAX_LEN
    requires IssuersFit(issuerKeys) && ListsFit(issuerKeys)
    ensures r.Ok? <==> issuerKeys != map[] && EveryListEncodable(codec, issuerKeys)
    ensures r.Ok? ==> TrustList(codec, r.value)
                      == if IssuersAreText(issuerKeys) then AllPresent(Readable(codec, issuerKeys)) else None
  {
    if |issuerKeys| == 0 { return Error; }
    var payload := EncodeLedgers(codec, issuerKeys);
    if !payload.Ok? { return Error; }
    SameIssuers(payload.value, issuerKeys);
    var data := MarshalTrustList(payload.value);
    assert payload.value != map[];
    r := Ok(data);
  }

  method EncodeLedgers(codec: KeyCodec, issuerKeys: map<Bytes, seq<KidKey>>) returns (r: Result<map<Bytes, Item>>)
    requires LawfulCodec(codec)
    requires ListsFit(issuerKeys)
    ensures r.Ok? <==> EveryListEncodable(codec, issuerKeys)
    ensures r.Ok? ==> r.value.Keys == issuerKeys.Keys && (forall issuer <- r.value :: Wf(r.value[issuer]))
    ensures r.Ok? ==> Ledgers(codec, r.value) == Readable(codec, issuerKeys)
  {
    var payload: map<Bytes, Item> := map[];
    var todo := issuerKeys.Keys;
    while todo != {}
      invariant todo <= issuerKeys.Keys && payload.Keys == issuerKeys.Keys - todo
      invariant forall issuer <- payload :: issuerKeys[issuer] != [] && AllEncodable(codec, issuerKeys[issuer])
      invariant forall issuer <- payload :: IsEntryFor(codec, payload[issuer], issuerKeys[issuer])
      decreases |todo|
    {
      var issuer :| issuer in todo;
      todo := todo - {issuer};
      var entry := EncodeLedger(codec, issuerKeys[issuer]);
      if !entry.Ok? { return Error; }
      payload := payload[issuer := entry.value];
    }
    LedgersReadable(codec, payload, issuerKeys);
    r := Ok(payload);
  }

  lemma LedgersReadable(codec: KeyCodec, payload: map<Bytes, Item>, issuerKeys: map<Bytes, seq<KidKey>>)
    requires payload.Keys == issuerKeys.Keys
    requires forall issuer <- payload :: IsEntryFor(codec, payload[issuer], issuerKeys[issuer])
    ensures Ledgers(codec, payload) == Readable(codec, issuerKeys)
    ensures forall issuer <- payload :: Wf(payload[issuer])
  {
    var a, b := Ledgers(codec, payload), Readable(codec, issuerKeys);
    assert a.Keys == b.Keys;
    forall issuer | issuer in a ensures a[issuer] == b[issuer] {
      assert IsEntryFor(codec, payload[issuer], issuerKeys[issuer]);
    }
  }

  lemma SameIssuers<V, W>(a: map<Bytes, V>, b: map<Bytes, W>)
    requires a.Keys == b.Keys
    ensures |a| == |b|
    ensures (IssuersFit(a) <==> IssuersFit(b)) && (IssuersAreText(a) <==> IssuersAreText(b))
  {
    assert |a| == |a.Keys| && |b| == |b.Keys|;
  }

  method MarshalTrustList(payload: map<Bytes, Item>) returns (data: Bytes)
    requires |payload| < MAX_LEN
    requires IssuersFit(payload) && forall k <- payload :: Wf(payload[k])
    ensures RawIssuers(data) == if IssuersAreText(payload) then Some(payload) else None
  {
    var ts := MarshalByText(payload);
    var whole := Node(ShortHead(5, |payload|), ts);
    ParseWholeExact(Unparse(whole), whole);
    data := Unparse(whole);
  }

  ghost function KidsOf(keys: seq<KidKey>): set<Bytes> {
    set k <- keys :: k.kid
  }

  /** `m` maps the key IDs of the list to its keys and has nothing else. */
  ghost predicate Holds(m: KeyMap, keys: seq<KidKey>) {
    && (forall k <- keys :: k.kid in m && m[k.kid] == k.key)
    && m.Keys <= KidsOf(keys)
  }

  /** With distinct key IDs nothing is claimed twice. */
  lemma KeptStep(codec: KeyCodec, init: seq<KidKey>, last: KidKey)
    requires last.kid !in Kept(codec, init)
    ensures Kept(codec, init + [last])
            == if last.kid == [] then Kept(codec, init) else Kept(codec, init)[last.kid := last.key]
  {
    assert (init + [last])[..|init|] == init;
  }

  lemma {:induction false} KeptEntries(codec: KeyCodec, keys: seq<KidKey>)
    requires DistinctKids(keys)
    ensures forall k <- keys :: k.kid != [] ==> k.kid in Kept(codec, keys) && Kept(codec, keys)[k.kid] == k.key
    ensures [] !in Kept(codec, keys) && Kept(codec, keys).Keys <= KidsOf(keys)
  {
    if keys != [] {
      var init, last := keys[..|keys| - 1], keys[|keys| - 1];
      assert keys == init + [last];
      KeptEntries(codec, init);
      assert KidsOf(keys) == KidsOf(init) + {last.kid} && last.kid !in KidsOf(init);
      KeptStep(codec, init, last);
    }
  }

  ghost predicate AllHaveKids(keys: seq<KidKey>) {
    forall k <- keys :: k.kid != []
  }

  /** The way through encoder and parser loses nothing, and gives every issuer back exactly its
      keys, if and only if every key has a key ID. */
  lemma TrustListRoundTrip(codec: KeyCodec, issuerKeys: map<Bytes, seq<KidKey>>)
    requires forall issuer <- issuerKeys :: issuerKeys[issuer] != [] && DistinctKids(issuerKeys[issuer])
    ensures (forall issuer <- issuerKeys :: AllHaveKids(issuerKeys[issuer])) <==>
              var read := AllPresent(Readable(codec, issuerKeys));
              read.Some? && read.value.Keys == issuerKeys.Keys
              && forall issuer <- issuerKeys :: Holds(read.value[issuer], issuerKeys[issuer])
  {
    var readable := Readable(codec, issuerKeys);
    forall issuer <- issuerKeys
      ensures AllHaveKids(issuerKeys[issuer])
              <==> readable[issuer].Some? && Holds(readable[issuer].value, issuerKeys[issuer])
    {
      KeptHolds(codec, issuerKeys[issuer]);
    }
  }

  lemma KeptHolds(codec: KeyCodec, keys: seq<KidKey>)
    requires keys != [] && DistinctKids(keys)
    ensures AllHaveKids(keys) <==> NonEmpty(Kept(codec, keys)).Some? && Holds(Kept(codec, keys), keys)
  {
    KeptEntries(codec, keys);
    assert keys[0] in keys;
  }

  /** An issuer none of whose keys has a key ID makes the whole list unreadable. */
  lemma NamelessKeysSpoilList(codec: KeyCodec, issuerKeys: map<Bytes, seq<KidKey>>, issuer: Bytes)
    requires issuer in issuerKeys && forall k <- issuerKeys[issuer] :: k.kid == []
    ensures AllPresent(Readable(codec, issuerKeys)).None?
  {
    NothingKept(codec, issuerKeys[issuer]);
    assert Readable(codec, issuerKeys)[issuer].None?;
  }

  lemma {:induction false} NothingKept(codec: KeyCodec, keys: seq<KidKey>)
    requires forall k <- keys :: k.kid == []
    ensures Kept(codec, keys) == map[]
  {
    if keys != [] {
      NothingKept(codec, keys[..|keys| - 1]);
      assert keys[|keys| - 1] in keys;
    }
  }

  /* The answer in terms of positions and bytes */

  /** The element at `i` is a key under `kid` as the COSE library sees it. */
  predicate IsKeyAt(codec: KeyCodec, raws: seq<Item>, i: nat, kid: Bytes, pk: PublicKey)
    requires i < |raws|
  {
    codec.decode(raws[i]) == Decoded(kid, Some(pk))
  }

  lemma {:induction false} FirstUsableAt(codec: KeyCodec, raws: seq<Item>, kid: Bytes, i: nat, pk: PublicKey)
    requires i < |raws| && kid != [] && IsFirstKeyAt(codec, raws, i, kid, pk)
    ensures FirstUsable(codec, raws, kid) == Some(pk)
  {
    if i > 0 {
      assert !HasKid(codec, raws[0], kid);
      FirstUsableAt(codec, raws[1..], kid, i - 1, pk);
    }
  }

  lemma {:induction false} FirstUsableIsKey(codec: KeyCodec, raws: seq<Item>, kid: Bytes) returns (i: nat)
    requires FirstUsable(codec, raws, kid).Some?
    ensures i < |raws| && kid != [] && IsKeyAt(codec, raws, i, kid, FirstUsable(codec, raws, kid).value)
  {
    if Usable(codec, raws[0]).Some? && Usable(codec, raws[0]).value.kid == kid {
      i := 0;
    } else {
      var j := FirstUsableIsKey(codec, raws[1..], kid);
      i := j + 1;
    }
  }

  predicate IsFirstKeyAt(codec: KeyCodec, raws: seq<Item>, i: nat, kid: Bytes, pk: PublicKey)
    requires i < |raws|
  {
    IsKeyAt(codec, raws, i, kid, pk) && forall j :: 0 <= j < i ==> !HasKid(codec, raws[j], kid)
  }

  predicate HasKid(codec: KeyCodec, raw: Item, kid: Bytes) {
    var d := codec.decode(raw);
    d.Decoded? && d.id == kid && d.pk.Some?
  }

  /** The key IDs are those of the elements that are keys and have one; the key is Equal to the first
      such element of its key ID. */
  lemma GatherExactly(codec: KeyCodec, raws: seq<Item>, kid: Bytes)
    requires EqualIsEquivalence(codec)
    ensures kid in Gather(codec, raws) <==> kid != [] && exists raw <- raws :: HasKid(codec, raw, kid)
    ensures forall i, pk :: 0 <= i < |raws| && IsFirstKeyAt(codec, raws, i, kid, pk) && kid != [] ==>
              kid in Gather(codec, raws) && codec.equal(pk, Gather(codec, raws)[kid])
  {
    GatherIsFirstUsable(codec, raws, kid);
    if kid in Gather(codec, raws) {
      var i := FirstUsableIsKey(codec, raws, kid);
      assert HasKid(codec, raws[i], kid);
    }
    if kid != [] && exists raw <- raws :: HasKid(codec, raw, kid) {
      var raw :| raw in raws && HasKid(codec, raw, kid);
      var i :| 0 <= i < |raws| && raws[i] == raw;
      SomeUsable(codec, raws, kid, i, codec.decode(raw).pk.value);
    }
    forall i, pk | 0 <= i < |raws| && IsFirstKeyAt(codec, raws, i, kid, pk) && kid != []
      ensures kid in Gather(codec, raws) && codec.equal(pk, Gather(codec, raws)[kid])
    {
      FirstUsableAt(codec, raws, kid, i, pk);
    }
  }

  lemma {:induction false} SomeUsable(codec: KeyCodec, raws: seq<Item>, kid: Bytes, i: nat, pk: PublicKey)
    requires i < |raws| && kid != [] && IsKeyAt(codec, raws, i, kid, pk)
    ensures FirstUsable(codec, raws, kid).Some?
  {
    if i > 0 {
      assert IsKeyAt(codec, raws[1..], i - 1, kid, pk);
      SomeUsable(codec, raws[1..], kid, i - 1, pk);
    }
  }

  lemma OneKey(codec: KeyCodec, key: Item, kid: Bytes, pk: PublicKey)
    requires codec.decode(key) == Decoded(kid, Some(pk)) && kid != []
    ensures KeySetOf(codec, Some([key])) == Some(map[kid := pk])
  {
    assert [key][..0] == [];
    assert Gather(codec, [key][..0]) == map[];
    assert map[][kid := pk] == map[kid := pk];
  }

  lemma NameKey(name: Bytes)
    requires |name| < 24 && ValidUtf8(name)
    ensures TextKey(Str(Head(3, 0, |name|), name)) == Some(name)
  {
  }

  lemma OneIssuer(name: Bytes, entry: Item)
    requires |name| < 24 && ValidUtf8(name)
    ensures RawByText([Str(Head(3, 0, |name|), name), entry]) == Some(map[name := entry])
  {
    var t := Str(Head(3, 0, |name|), name);
    assert [t, entry][2..] == [] && RawByText([]) == Some(map[]);
    NameKey(name);
  }

  lemma OneAttribute(entry: Item)
    ensures RawByInt64([Leaf(Head(0, 0, 1)), entry]) == Some(map[1 := entry])
  {
    assert [Leaf(Head(0, 0, 1)), entry][2..] == [] && RawByInt64([]) == Some(map[]);
    assert CcfProof.Int64Key(Leaf(Head(0, 0, 1))) == Some(1);
  }

  /** A ledger's entry byte by byte: a map with an array of keys under 1. */
  lemma LedgerBytes(codec: KeyCodec, key: Item, kid: Bytes, pk: PublicKey) returns (entry: Item)
    requires Wf(key) && codec.decode(key) == Decoded(kid, Some(pk)) && kid != []
    ensures Wf(entry) && Unparse(entry) == [0xa1] + ([0x01] + ([0x81] + Unparse(key)))
    ensures LedgerKeys(codec, entry) == Some(map[kid := pk])
  {
    var keySet := Node(Head(4, 0, 1), [key]);
    UnparseShortNode(4, 1, [key]);
    UnparseOne(key);
    OneKey(codec, key, kid, pk);
    entry := EntryBytes(keySet);
    assert ItemsOf(4, keySet) == Some([key]);
  }

  /** A trust list byte by byte: a map from an issuer's name to such an entry. */
  lemma TrustListBytes(codec: KeyCodec, name: Bytes, key: Item, kid: Bytes, pk: PublicKey, data: Bytes)
    requires |name| < 24 && ValidUtf8(name) && Wf(key)
    requires codec.decode(key) == Decoded(kid, Some(pk)) && kid != []
    requires data == [0xa1] + (([0x60 + |name|] + name) + ([0xa1] + ([0x01] + ([0x81] + Unparse(key)))))
    ensures TrustList(codec, data) == Some(map[name := map[kid := pk]])
  {
    var entry := LedgerBytes(codec, key, kid, pk);
    IssuerBytes(name, entry);
    OneTrustList(codec, data, name, entry, map[kid := pk]);
  }

  lemma OneTrustList(codec: KeyCodec, data: Bytes, name: Bytes, entry: Item, keys: KeyMap)
    requires RawIssuers(data) == Some(map[name := entry]) && LedgerKeys(codec, entry) == Some(keys)
    ensures TrustList(codec, data) == Some(map[name := keys])
  {
    assert map[name := entry] != map[] by {
      assert name in map[name := entry];
    }
    OneLedger(codec, name, entry, keys);
  }

  lemma IssuerBytes(name: Bytes, entry: Item)
    requires |name| < 24 && ValidUtf8(name) && Wf(entry)
    ensures RawIssuers([0xa1] + (([0x60 + |name|] + name) + Unparse(entry))) == Some(map[name := entry])
  {
    var text := Str(Head(3, 0, |name|), name);
    UnparseShort(3, name);
    UnparseShortNode(5, 1, [text, entry]);
    UnparsePair(text, entry);
    OneIssuer(name, entry);
    IssuersOf([0xa1] + (([0x60 + |name|] + name) + Unparse(entry)), Head(5, 0, 1), [text, entry]);
  }

  lemma IssuersOf(data: Bytes, h: Head, ts: seq<Item>)
    requires h.major == 5 && Wf(Node(h, ts)) && Unparse(Node(h, ts)) == data
    ensures RawIssuers(data) == RawByText(ts)
  {
    ParseWholeExact(data, Node(h, ts));
  }

  lemma EntryBytes(keySet: Item) returns (entry: Item)
    requires Wf(keySet)
    ensures Wf(entry) && LedgerEntry(entry) == Some(map[1 := keySet])
    ensures Unparse(entry) == [0xa1] + ([0x01] + Unparse(keySet))
  {
    var one := Leaf(Head(0, 0, 1));
    UnparseShortLeaf(0, 1);
    entry := Node(Head(5, 0, 1), [one, keySet]);
    UnparseShortNode(5, 1, [one, keySet]);
    UnparsePair(one, keySet);
    OneAttribute(keySet);
  }

  lemma OneLedger(codec: KeyCodec, name: Bytes, entry: Item, keys: KeyMap)
    requires LedgerKeys(codec, entry) == Some(keys)
    ensures AllPresent(Ledgers(codec, map[name := entry])) == Some(map[name := keys])
  {
    AllPresentIs(Ledgers(codec, map[name := entry]), map[name := keys]);
  }

  /** An empty or null list is refused, and so is a ledger without keys. */
  lemma NothingListed(codec: KeyCodec, entry: Item, m: map<int, Item>)
    ensures KeySetOf(codec, Some([])) == None && KeySetOf(codec, None) == None
    ensures LedgerEntry(entry) == Some(m) && 1 !in m ==> LedgerKeys(codec, entry) == None
    ensures LedgerEntry(entry) == Some(m) && 1 in m ==> LedgerKeys(codec, entry) == KeySetOf(codec, ItemsOf(4, m[1]))
    ensures LedgerEntry(entry) == None ==> LedgerKeys(codec, entry) == None
  {
  }

  lemma EmptyTrustList(codec: KeyCodec)
    ensures TrustList(codec, [0xa0]) == None && TrustList(codec, [0xf6]) == None
  {
    UnparseShortNode(5, 0, []);
    NoIssuers(codec, [0xa0], Node(Head(5, 0, 0), []));
    UnparseShortLeaf(7, 22);
    NoIssuers(codec, [0xf6], Leaf(Head(7, 0, 22)));
  }

  lemma NoIssuers(codec: KeyCodec, data: Bytes, t: Item)
    requires Wf(t) && Unparse(t) == data && ItemsOf(5, t) == Some([])
    ensures TrustList(codec, data) == None
  {
    ParseWholeExact(data, t);
    assert RawByText([]) == Some(map[]);
  }
}
