/** JSON Web Keys for elliptic curves (section 6.2.1 of RFC 7518). */
module Jwk {
  import opened Basics
  import opened PublicKeys
  import Base64

  datatype JsonWebKey = JsonWebKey(kty: Bytes, crv: Bytes, kid: Bytes, x: Bytes, y: Bytes)

  function CurveNamed(crv: Bytes): Option<Curve> {
    if crv == Ascii("P-256") then Some(P256)
    else if crv == Ascii("P-384") then Some(P384)
    else if crv == Ascii("P-521") then Some(P521)
    else None
  }

  function JwkToPublicKey(k: JsonWebKey): Option<PublicKey> {
    if k.kty != Ascii("EC") then None else
    match (CurveNamed(k.crv), Base64.Decode(Base64.RawUrl, k.x), Base64.Decode(Base64.RawUrl, k.y))
    case (Some(curve), Some(x), Some(y)) => Some(EC(curve, BigEndianValue(x), BigEndianValue(y)))
    case _ => None
  }

  function CurveName(curve: Curve): Option<Bytes> {
    match curve
    case P256 => Some(Ascii("P-256"))
    case P384 => Some(Ascii("P-384"))
    case P521 => Some(Ascii("P-521"))
    case OtherCurve => None
  }

  function BitSize(curve: Curve): nat {
    match curve
    case P256 => 256
    case P384 => 384
    case P521 => 521
    case OtherCurve => 0
  }

  function ByteLen(curve: Curve): nat {
    (BitSize(curve) + 7) / 8
  }

  /** Filling a buffer with a number panics when the number is too wide for it. */
  function FillBytes(n: nat, byteLen: nat): Option<Bytes> {
    if n < Pow256(byteLen) then Some(BigEndian(n, byteLen)) else None
  }

  function PublicKeyToJwk(kid: Bytes, pk: PublicKey): Result<JsonWebKey> {
    if pk.NotEC? || CurveName(pk.curve).None? then Error else
    match (FillBytes(pk.x, ByteLen(pk.curve)), FillBytes(pk.y, ByteLen(pk.curve)))
    case (Some(x), Some(y)) =>
      var xText, yText := Base64.Encode(Base64.RawUrl, x), Base64.Encode(Base64.RawUrl, y);
      Ok(JsonWebKey(Ascii("EC"), CurveName(pk.curve).value, kid, xText, yText))
    case _ => Panic
  }

  lemma CurveNames(curve: Curve)
    requires curve != OtherCurve
    ensures CurveNamed(CurveName(curve).value) == Some(curve)
  {
    var a, b, c := Ascii("P-256"), Ascii("P-384"), Ascii("P-521");
    assert a[2] == '2' as int && b[2] == '3' as int && c[2] == '5' as int;
  }

  /** The number of characters a coordinate takes: 43, 64 or 88. */
  function CoordinateLen(curve: Curve): nat {
    match curve
    case P256 => 43
    case P384 => 64
    case P521 => 88
    case OtherCurve => 0
  }

  lemma CoordinateRoundTrip(n: nat, byteLen: nat)
    requires n < Pow256(byteLen)
    ensures var text := Base64.Encode(Base64.RawUrl, BigEndian(n, byteLen));
            && Base64.Decode(Base64.RawUrl, text) == Some(BigEndian(n, byteLen))
            && BigEndianValue(BigEndian(n, byteLen)) == n
            && |text| == Base64.SextetCount(byteLen)
  {
    BigEndianRoundTrip(n, byteLen);
    Base64.DecodeEncode(Base64.RawUrl, BigEndian(n, byteLen));
  }

  lemma CoordinateLength(curve: Curve)
    requires curve != OtherCurve
    ensures Base64.SextetCount(ByteLen(curve)) == CoordinateLen(curve)
  {
  }

  lemma JwkDecodes(kid: Bytes, curve: Curve, x: nat, y: nat, n: nat, j: JsonWebKey)
    requires curve != OtherCurve && x < Pow256(n) && y < Pow256(n)
    requires j.kty == Ascii("EC") && j.crv == CurveName(curve).value
    requires j.x == Base64.Encode(Base64.RawUrl, BigEndian(x, n))
    requires j.y == Base64.Encode(Base64.RawUrl, BigEndian(y, n))
    ensures JwkToPublicKey(j) == Some(EC(curve, x, y))
    ensures |j.x| == |j.y| == Base64.SextetCount(n)
  {
    CoordinateRoundTrip(x, n);
    CoordinateRoundTrip(y, n);
    CurveNames(curve);
  }

  /** Whether a key can be written as a JWK: its curve has a name and its coordinates fit the
      curve's width. */
  predicate Representable(pk: PublicKey) {
    pk.EC? && pk.curve != OtherCurve && pk.x < Pow256(ByteLen(pk.curve)) && pk.y < Pow256(ByteLen(pk.curve))
  }

  /** A key becomes a JWK exactly when it is representable; a named curve with a coordinate that is
      too wide panics. */
  lemma JwkOutcome(kid: Bytes, pk: PublicKey)
    ensures PublicKeyToJwk(kid, pk).Ok? <==> Representable(pk)
    ensures PublicKeyToJwk(kid, pk).Error? <==> pk.NotEC? || pk.curve == OtherCurve
  {
  }

  lemma {:induction false} LeadingByte(b: Bytes)
    requires b != [] && b[0] > 0
    ensures BigEndianValue(b) >= Pow256(|b| - 1)
  {
    if |b| > 1 {
      LeadingByte(b[..|b| - 1]);
    }
  }

  /** A key whose coordinates have one byte too many is accepted, and writing it again panics. */
  lemma WideCoordinates(curve: Curve, kid: Bytes, b: Bytes)
    requires curve != OtherCurve && |b| == ByteLen(curve) + 1 && b[0] > 0
    ensures var text, n := Base64.Encode(Base64.RawUrl, b), BigEndianValue(b);
            && JwkToPublicKey(JsonWebKey(Ascii("EC"), CurveName(curve).value, kid, text, text)) == Some(EC(curve, n, n))
            && PublicKeyToJwk(kid, EC(curve, n, n)).Panic?
  {
    Base64.DecodeEncode(Base64.RawUrl, b);
    CurveNames(curve);
    LeadingByte(b);
    JwkOutcome(kid, EC(curve, BigEndianValue(b), BigEndianValue(b)));
  }

  /** The JWK of a key has coordinates of fixed length and decodes to the very same key. */
  lemma JwkRoundTrip(kid: Bytes, pk: PublicKey)
    requires Representable(pk)
    ensures PublicKeyToJwk(kid, pk).Ok?
    ensures var j := PublicKeyToJwk(kid, pk).value;
            && JwkToPublicKey(j) == Some(pk)
            && j.kid == kid
            && |j.x| == |j.y| == CoordinateLen(pk.curve)
  {
    JwkOutcome(kid, pk);
    CoordinateLength(pk.curve);
    JwkDecodes(kid, pk.curve, pk.x, pk.y, ByteLen(pk.curve), PublicKeyToJwk(kid, pk).value);
  }

  /** Re-encoding an accepted JWK is a normalisation: it keeps key and key ID, and a second time it
      changes nothing. */
  lemma NormalisationIdempotent(j: JsonWebKey)
    requires JwkToPublicKey(j).Some? && PublicKeyToJwk(j.kid, JwkToPublicKey(j).value).Ok?
    ensures var n := PublicKeyToJwk(j.kid, JwkToPublicKey(j).value).value;
            && n.kid == j.kid
            && JwkToPublicKey(n) == JwkToPublicKey(j)
            && PublicKeyToJwk(n.kid, JwkToPublicKey(n).value) == Ok(n)
  {
    JwkOutcome(j.kid, JwkToPublicKey(j).value);
    JwkRoundTrip(j.kid, JwkToPublicKey(j).value);
  }

  /* Member by member */

  function NameOf(curve: Curve): string {
    match curve
    case P256 => "P-256"
    case P384 => "P-384"
    case P521 => "P-521"
    case OtherCurve => ""
  }

  lemma CurveNamedExact(crv: Bytes, curve: Curve)
    ensures CurveNamed(crv) == Some(curve) <==> curve != OtherCurve && crv == Ascii(NameOf(curve))
  {
    if curve != OtherCurve {
      CurveNames(curve);
      assert CurveName(curve).value == Ascii(NameOf(curve));
    }
  }

  /** Which JWKs are keys, and of which curve and coordinates: x from `x` and y from `y`, big-endian. */
  lemma JwkExact(k: JsonWebKey, curve: Curve, x: nat, y: nat)
    ensures JwkToPublicKey(k) == Some(EC(curve, x, y)) <==>
              && k.kty == Ascii("EC")
              && curve != OtherCurve && k.crv == Ascii(NameOf(curve))
              && Base64.Decode(Base64.RawUrl, k.x).Some? && Base64.Decode(Base64.RawUrl, k.y).Some?
              && BigEndianValue(Base64.Decode(Base64.RawUrl, k.x).value) == x
              && BigEndianValue(Base64.Decode(Base64.RawUrl, k.y).value) == y
    ensures JwkToPublicKey(k).Some? ==> JwkToPublicKey(k).value.EC?
  {
    CurveNamedExact(k.crv, curve);
  }

  lemma CurveNameExact(curve: Curve)
    requires curve != OtherCurve
    ensures CurveName(curve) == Some(Ascii(NameOf(curve)))
    ensures ByteLen(curve) == if curve == P256 then 32 else if curve == P384 then 48 else 66
  {
  }

  /** What a key is written as: 32, 48 or 66 bytes for each coordinate. */
  lemma JwkWritten(kid: Bytes, curve: Curve, x: nat, y: nat)
    requires Representable(EC(curve, x, y))
    ensures var n := if curve == P256 then 32 else if curve == P384 then 48 else 66;
            var xText := Base64.Encode(Base64.RawUrl, BigEndian(x, n));
            var yText := Base64.Encode(Base64.RawUrl, BigEndian(y, n));
            PublicKeyToJwk(kid, EC(curve, x, y))
            == Ok(JsonWebKey(Ascii("EC"), Ascii(NameOf(curve)), kid, xText, yText))
  {
    CurveNameExact(curve);
    WrittenAs(kid, curve, x, y, ByteLen(curve), CurveName(curve).value);
  }

  lemma WrittenAs(kid: Bytes, curve: Curve, x: nat, y: nat, n: nat, name: Bytes)
    requires Representable(EC(curve, x, y)) && n == ByteLen(curve) && CurveName(curve) == Some(name)
    ensures PublicKeyToJwk(kid, EC(curve, x, y))
            == Ok(JsonWebKey(Ascii("EC"), name, kid,
                             Base64.Encode(Base64.RawUrl, BigEndian(x, n)),
                             Base64.Encode(Base64.RawUrl, BigEndian(y, n))))
  {
  }

  /** Which keys can be written: elliptic ones on a named curve, with coordinates of at most 32, 48 or 66
      bytes. */
  lemma RepresentableExact(pk: PublicKey)
    ensures Representable(pk) <==>
              && pk.EC? && pk.curve != OtherCurve
              && var n := if pk.curve == P256 then 32 else if pk.curve == P384 then 48 else 66;
                 pk.x < Pow256(n) && pk.y < Pow256(n)
  {
    if pk.EC? && pk.curve != OtherCurve {
      CurveNameExact(pk.curve);
    }
  }
}
