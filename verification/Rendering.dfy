/** The JSON dump of a trust list: key lists that must not depend on the order in which Go walks a
    map, and what a reader of the JSON gets back. */
module Rendering {
  import opened Basics
  import opened Utf8
  import opened Sorting
  import opened PublicKeys
  import opened Jwk
  import opened KeySets
  import opened KeyFetch
  import Base64

  type JwkSorter = seq<JsonWebKey> -> seq<JsonWebKey>

  function KidOf(k: JsonWebKey): Bytes {
    k.kid
  }

  ghost predicate SortsByKid(sort: JwkSorter) {
    forall s :: IsSortOf(KidOf, sort(s), s)
  }

  /** `j` is what the key `pk` is written as. */
  ghost predicate IsJwkOf(j: JsonWebKey, pk: PublicKey) {
    PublicKeyToJwk(j.kid, pk) == Ok(j)
  }

  method RenderKey(kid: Bytes, pk: PublicKey) returns (r: Result<JsonWebKey>)
    ensures r.Ok? <==> Representable(pk)
    ensures r.Ok? ==> r.value.kid == kid && IsJwkOf(r.value, pk)
  {
    r := PublicKeyToJwk(kid, pk);
    JwkOutcome(kid, pk);
  }

  ghost function KidsIn(jwks: seq<JsonWebKey>): set<Bytes> {
    set j <- jwks :: j.kid
  }

  /** The JWKs of a ledger, one per key, sorted by key ID. */
  ghost predicate Rendered(keys: KeyMap, jwks: seq<JsonWebKey>) {
    && StrictlySorted(KidOf, jwks)
    && (forall j <- jwks :: j.kid in keys && IsJwkOf(j, keys[j.kid]))
    && keys.Keys == KidsIn(jwks)
  }

  /** The JWKs collected for some of the keys, in the order they were met. */
  ghost predicate Gathered(keys: KeyMap, done: set<Bytes>, jwks: seq<JsonWebKey>) {
    && DistinctKeys(KidOf, jwks)
    && (forall j <- jwks :: j.kid in keys && IsJwkOf(j, keys[j.kid]))
    && done == KidsIn(jwks)
  }

  /** Meets the keys in whatever order the map yields them. */
  method GatherJwks(keys: KeyMap) returns (r: Result<seq<JsonWebKey>>)
    ensures r.Ok? <==> forall kid <- keys :: Representable(keys[kid])
    ensures r.Ok? ==> Gathered(keys, keys.Keys, r.value)
  {
    var jwks: seq<JsonWebKey> := [];
    var todo := keys.Keys;
    ghost var done: set<Bytes> := {};
    while todo != {}
      invariant todo <= keys.Keys && done == keys.Keys - todo
      invariant Gathered(keys, done, jwks)
      decreases |todo|
    {
      var kid :| kid in todo;
      todo := todo - {kid};
      var j := RenderKey(kid, keys[kid]);
      if !j.Ok? { return if j.Panic? then Panic else Error; }
      GatheredOneMore(keys, done, jwks, kid, j.value);
      done := done + {kid};
      jwks := jwks + [j.value];
    }
    assert done == keys.Keys;
    GatheredRepresentable(keys, jwks);
    r := Ok(jwks);
  }

  method RenderLedger(keys: KeyMap, sort: JwkSorter) returns (r: Result<seq<JsonWebKey>>)
    requires SortsByKid(sort)
    ensures r.Ok? <==> forall kid <- keys :: Representable(keys[kid])
    ensures r.Ok? ==> Rendered(keys, r.value)
  {
    r := GatherJwks(keys);
    if r.Ok? {
      GatheredSorted(keys, r.value, sort(r.value));
      r := Ok(sort(r.value));
    }
  }

  lemma GatheredRepresentable(keys: KeyMap, jwks: seq<JsonWebKey>)
    requires Gathered(keys, keys.Keys, jwks)
    ensures forall kid <- keys :: Representable(keys[kid])
  {
    forall kid <- keys ensures Representable(keys[kid]) {
      assert kid in KidsIn(jwks);
      JwkOutcome(kid, keys[kid]);
    }
  }

  lemma GatheredOneMore(keys: KeyMap, done: set<Bytes>, jwks: seq<JsonWebKey>, kid: Bytes, j: JsonWebKey)
    requires Gathered(keys, done, jwks)
    requires kid !in done && kid in keys && j.kid == kid && IsJwkOf(j, keys[kid])
    ensures Gathered(keys, done + {kid}, jwks + [j])
  {
    OneMoreKid(jwks, j);
    forall x <- jwks + [j] ensures x.kid in keys && IsJwkOf(x, keys[x.kid]) {
      assert x in jwks || x == j;
    }
  }

  lemma OneMoreKid(jwks: seq<JsonWebKey>, j: JsonWebKey)
    requires DistinctKeys(KidOf, jwks) && j.kid !in KidsIn(jwks)
    ensures DistinctKeys(KidOf, jwks + [j]) && KidsIn(jwks + [j]) == KidsIn(jwks) + {j.kid}
  {
    assert forall x <- jwks :: x.kid in KidsIn(jwks);
  }

  lemma GatheredSorted(keys: KeyMap, jwks: seq<JsonWebKey>, sorted: seq<JsonWebKey>)
    requires Gathered(keys, keys.Keys, jwks) && IsSortOf(KidOf, sorted, jwks)
    ensures Rendered(keys, sorted)
  {
    SortIsStrict(KidOf, sorted, jwks);
    assert KidsIn(sorted) == KidsIn(jwks);
  }

  /** The list is the same for every order of the ledger's map and every sorting algorithm. */
  lemma RenderingDeterministic(keys: KeyMap, a: seq<JsonWebKey>, b: seq<JsonWebKey>)
    requires Rendered(keys, a) && Rendered(keys, b)
    ensures a == b
  {
    forall x ensures x in a <==> x in b {
      if x in a {
        assert x.kid in KidsIn(b);
      }
      if x in b {
        assert x.kid in KidsIn(a);
      }
    }
    StrictlySortedUnique(KidOf, a, b);
  }

  method RenderTrustList(ttl: map<Bytes, KeyMap>, sort: JwkSorter) returns (r: Result<map<Bytes, seq<JsonWebKey>>>)
    requires SortsByKid(sort)
    ensures r.Ok? <==> forall issuer <- ttl :: forall kid <- ttl[issuer] :: Representable(ttl[issuer][kid])
    ensures r.Ok? ==> r.value.Keys == ttl.Keys && forall issuer <- ttl :: Rendered(ttl[issuer], r.value[issuer])
  {
    var out: map<Bytes, seq<JsonWebKey>> := map[];
    var todo := ttl.Keys;
    while todo != {}
      invariant todo <= ttl.Keys && out.Keys == ttl.Keys - todo
      invariant forall issuer <- out :: Rendered(ttl[issuer], out[issuer])
      invariant forall issuer <- out :: forall kid <- ttl[issuer] :: Representable(ttl[issuer][kid])
      decreases |todo|
    {
      var issuer :| issuer in todo;
      todo := todo - {issuer};
      var jwks := RenderLedger(ttl[issuer], sort);
      if jwks.Error? { return Error; }
      if jwks.Panic? { return Panic; }
      out := out[issuer := jwks.value];
    }
    r := Ok(out);
  }

  /* Reading a dump back */

  /** A JWK after it was written as JSON and read again. */
  function ThroughJson(j: JsonWebKey): JsonWebKey {
    JsonWebKey(Coerce(j.kty), Coerce(j.crv), Coerce(j.kid), Coerce(j.x), Coerce(j.y))
  }

  function ReadBack(jwks: seq<JsonWebKey>): (read: seq<JsonWebKey>)
    ensures |read| == |jwks|
  {
    seq(|jwks|, i requires 0 <= i < |jwks| => ThroughJson(jwks[i]))
  }

  lemma PrintableIsKept(s: Bytes)
    requires forall c <- s :: Base64.Printable(c)
    ensures Coerce(s) == s
  {
    AsciiIsUtf8(s);
    CoerceKeepsValid(s);
  }

  lemma AsciiIsKept(s: string)
    requires forall c <- s :: c as int < 128
    ensures Coerce(Ascii(s)) == Ascii(s)
  {
    forall c <- Ascii(s) ensures c < 128 {
      var i :| 0 <= i < |s| && Ascii(s)[i] == c;
      assert s[i] in s;
    }
    AsciiIsUtf8(Ascii(s));
    CoerceKeepsValid(Ascii(s));
  }

  lemma NamesAreKept(curve: Curve)
    ensures Coerce(Ascii("EC")) == Ascii("EC")
    ensures curve != OtherCurve ==> Coerce(CurveName(curve).value) == CurveName(curve).value
  {
    AsciiIsKept("EC");
    match curve
    case P256 => AsciiIsKept("P-256");
    case P384 => AsciiIsKept("P-384");
    case P521 => AsciiIsKept("P-521");
    case OtherCurve =>
  }

  /** Of a JWK that was written for a key, only the key ID can suffer. */
  lemma JwkThroughJson(j: JsonWebKey, pk: PublicKey)
    requires IsJwkOf(j, pk)
    ensures ThroughJson(j) == j.(kid := Coerce(j.kid)) && JwkToPublicKey(ThroughJson(j)) == Some(pk)
  {
    JwkOutcome(j.kid, pk);
    JwkRoundTrip(j.kid, pk);
    NamesAreKept(pk.curve);
    Base64.EncodePrintable(Base64.RawUrl, BigEndian(pk.x, ByteLen(pk.curve)));
    Base64.EncodePrintable(Base64.RawUrl, BigEndian(pk.y, ByteLen(pk.curve)));
    PrintableIsKept(j.x);
    PrintableIsKept(j.y);
  }

  /** `r` is what a reader gets for the key that was dumped under `kid`. */
  ghost predicate IsReadOf(keys: KeyMap, kid: Bytes, r: JsonWebKey) {
    kid in keys && r.kid == Coerce(kid) && JwkToPublicKey(r) == Some(keys[kid])
  }

  /** What is read are the keys of the ledger, under the key IDs that JSON made of their own. */
  lemma OfSomeKey(keys: KeyMap, jwks: seq<JsonWebKey>, r: JsonWebKey) returns (kid: Bytes)
    requires Rendered(keys, jwks) && r in ReadBack(jwks)
    ensures IsReadOf(keys, kid, r)
  {
    var i :| 0 <= i < |jwks| && ReadBack(jwks)[i] == r;
    kid := jwks[i].kid;
    JwkThroughJson(jwks[i], keys[kid]);
  }

  lemma KeyIsRead(keys: KeyMap, jwks: seq<JsonWebKey>, kid: Bytes) returns (r: JsonWebKey)
    requires Rendered(keys, jwks) && kid in keys
    ensures r in ReadBack(jwks) && IsReadOf(keys, kid, r)
  {
    assert kid in KidsIn(jwks);
    var i :| 0 <= i < |jwks| && jwks[i].kid == kid;
    JwkThroughJson(jwks[i], keys[kid]);
    r := ReadBack(jwks)[i];
  }

  lemma {:induction false} FirstRead(read: seq<JsonWebKey>, kid: Bytes) returns (r: JsonWebKey)
    requires FirstKey(read, kid).Some?
    ensures r in read && r.kid == kid && JwkToPublicKey(r) == FirstKey(read, kid)
  {
    var init, last := read[..|read| - 1], read[|read| - 1];
    assert read == init + [last];
    if FirstKey(init, kid).Some? {
      r := FirstRead(init, kid);
    } else {
      r := last;
    }
  }

  lemma {:induction false} ReadIsFound(read: seq<JsonWebKey>, r: JsonWebKey)
    requires r in read && JwkToPublicKey(r).Some?
    ensures FirstKey(read, r.kid).Some?
  {
    var init, last := read[..|read| - 1], read[|read| - 1];
    assert read == init + [last];
    if r in init {
      ReadIsFound(init, r);
    }
  }

  /** Key IDs that JSON makes one belong to Equal keys. */
  ghost predicate MergesEqual(equal: Equal, keys: KeyMap) {
    forall k1, k2 :: k1 in keys && k2 in keys && Coerce(k1) == Coerce(k2) ==> equal(keys[k1], keys[k2])
  }

  /** A dump is accepted by the reader exactly when that is so. */
  lemma DumpAccepted(equal: Equal, keys: KeyMap, jwks: seq<JsonWebKey>)
    requires LawfulEqual(equal) && Rendered(keys, jwks)
    ensures Consistent(equal, ReadBack(jwks)) <==> MergesEqual(equal, keys)
  {
    if Consistent(equal, ReadBack(jwks)) {
      forall k1, k2 | k1 in keys && k2 in keys && Coerce(k1) == Coerce(k2) ensures equal(keys[k1], keys[k2]) {
        EqualWhereMerged(equal, keys, jwks, k1, k2);
      }
    }
    if MergesEqual(equal, keys) {
      forall r <- ReadBack(jwks) ensures ConsistentAt(equal, ReadBack(jwks), r) {
        ConsistentWhereMerged(equal, keys, jwks, r);
      }
    }
  }

  lemma EqualWhereMerged(equal: Equal, keys: KeyMap, jwks: seq<JsonWebKey>, k1: Bytes, k2: Bytes)
    requires LawfulEqual(equal) && Rendered(keys, jwks) && Consistent(equal, ReadBack(jwks))
    requires k1 in keys && k2 in keys && Coerce(k1) == Coerce(k2)
    ensures equal(keys[k1], keys[k2])
  {
    var r1 := KeyIsRead(keys, jwks, k1);
    var r2 := KeyIsRead(keys, jwks, k2);
    assert ConsistentAt(equal, ReadBack(jwks), r1) && ConsistentAt(equal, ReadBack(jwks), r2);
  }

  lemma ConsistentWhereMerged(equal: Equal, keys: KeyMap, jwks: seq<JsonWebKey>, r: JsonWebKey)
    requires MergesEqual(equal, keys) && Rendered(keys, jwks) && r in ReadBack(jwks)
    ensures ConsistentAt(equal, ReadBack(jwks), r)
  {
    var k1 := OfSomeKey(keys, jwks, r);
    ReadIsFound(ReadBack(jwks), r);
    var first := FirstRead(ReadBack(jwks), r.kid);
    var k2 := OfSomeKey(keys, jwks, first);
  }

  /** A dump gives back the very keys that were dumped if and only if all key IDs are UTF-8. */
  lemma DumpReadsBack(equal: Equal, keys: KeyMap, jwks: seq<JsonWebKey>)
    requires LawfulEqual(equal) && Rendered(keys, jwks)
    ensures Consistent(equal, ReadBack(jwks)) && FirstKeys(ReadBack(jwks)) == keys
            <==> forall kid <- keys :: ValidUtf8(kid)
  {
    if forall kid <- keys :: ValidUtf8(kid) {
      forall kid <- keys ensures Coerce(kid) == kid {
        CoerceKeepsValid(kid);
      }
      DumpAccepted(equal, keys, jwks);
      UnchangedKeys(keys, jwks);
    } else {
      var kid :| kid in keys && !ValidUtf8(kid);
      NeverRead(keys, jwks, kid);
    }
  }

  lemma UnchangedKeys(keys: KeyMap, jwks: seq<JsonWebKey>)
    requires Rendered(keys, jwks) && forall kid <- keys :: Coerce(kid) == kid
    ensures FirstKeys(ReadBack(jwks)) == keys
  {
    var read := ReadBack(jwks);
    forall kid ensures kid in FirstKeys(read) <==> kid in keys {
      if kid in keys {
        var r := KeyIsRead(keys, jwks, kid);
        ReadIsFound(read, r);
      }
      if kid in FirstKeys(read) {
        var first := FirstRead(read, kid);
        var k := OfSomeKey(keys, jwks, first);
      }
    }
    forall kid | kid in FirstKeys(read) ensures FirstKeys(read)[kid] == keys[kid] {
      var first := FirstRead(read, kid);
      var k := OfSomeKey(keys, jwks, first);
    }
  }

  /** A key ID that is not UTF-8 is read by nobody. */
  lemma NeverRead(keys: KeyMap, jwks: seq<JsonWebKey>, kid: Bytes)
    requires Rendered(keys, jwks) && !ValidUtf8(kid)
    ensures kid !in FirstKeys(ReadBack(jwks))
  {
    if kid in FirstKeys(ReadBack(jwks)) {
      var first := FirstRead(ReadBack(jwks), kid);
      var k := OfSomeKey(keys, jwks, first);
      CoerceValid(k);
    }
  }

  /** The key IDs ff and fe: where a ledger has two keys under them, reading its dump is an error. */
  lemma MergedKids(equal: Equal, keys: KeyMap, jwks: seq<JsonWebKey>)
    requires LawfulEqual(equal) && Rendered(keys, jwks)
    requires [0xff] in keys && [0xfe] in keys && !equal(keys[[0xff]], keys[[0xfe]])
    ensures !Consistent(equal, ReadBack(jwks))
  {
    CoerceMerges();
    DumpAccepted(equal, keys, jwks);
  }
}
