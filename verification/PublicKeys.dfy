/** Public keys as far as the program looks into them: the three curves of a JWK, and the rest. */
module PublicKeys {
  import opened Basics

  datatype Curve = P256 | P384 | P521 | OtherCurve

  datatype PublicKey = EC(curve: Curve, x: nat, y: nat) | NotEC(der: Bytes)
}
