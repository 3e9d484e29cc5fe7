/** Parsing, binding and validating the COSE Receipts attached to an envelope. */
module Receipts {
  import opened Basics
  import opened CborValue
  import opened Utf8
  import opened MerkleTree
  import opened Envelope
  import opened PublicKeys
  import CcfProof

  const ALG: int := 1
  const KID: int := 4
  const CWT_CLAIMS: int := 15
  const VDS: int := 395
  const VDP: int := 396
  const CWT_ISSUER: int := 1
  const PROOF_INCLUSION: int := -1
  const VDS_CCF_LEDGER_SHA256: int := 2

  /** A protected header value; the COSE library gives the algorithm a type of its own. */
  datatype HeaderValue = Algorithm(alg: int) | Other(v: Value)

  datatype Sign1Message = Sign1Message(
    protected: map<Key, HeaderValue>, rawProtected: Bytes,
    unprotected: map<Key, Value>, payload: Option<Bytes>, signature: Bytes)

  datatype ParsedReceipt = ParsedReceipt(raw: Bytes, message: Sign1Message, issuer: Bytes, kid: Bytes, expected: Bytes)

  /** The foreign parts: message decoding, the choice of a verifier for algorithm and key, and the
      signature check over protected header and payload. */
  datatype Cose = Cose(
    unmarshal: Bytes -> Option<Sign1Message>,
    newVerifier: (int, PublicKey) -> bool,
    verify: (Bytes, Bytes, Bytes, int, PublicKey) -> bool)

  /** Whether two decodes of one header agree on it as a list of receipts. They may differ in what is
      not a byte string, for the COSE library reads integers as int64. */
  predicate SameReceipts(a: Value, b: Value) {
    if !a.VArr? || !b.VArr? then a.VArr? == b.VArr?
    else |a.xs| == |b.xs| && forall i :: 0 <= i < |a.xs| && (a.xs[i].VBytes? || b.xs[i].VBytes?) ==> a.xs[i] == b.xs[i]
  }

  /** The receipts header of an envelope as the library reads it is the one the generic decode finds. */
  ghost predicate SameHeader(library: map<Key, Value>, generic: map<Key, Value>) {
    && (KInt(RECEIPTS) in library <==> KUint(RECEIPTS) in generic)
    && (KInt(RECEIPTS) in library ==> SameReceipts(library[KInt(RECEIPTS)], generic[KUint(RECEIPTS)]))
  }

  /** What is asked of the library's decoder: the header it reads is the one in the bytes. */
  ghost predicate LawfulCose(c: Cose) {
    forall raw :: c.unmarshal(raw).Some? && DecodeFields(raw).Some? && DecodeFields(raw).value.unprotected.Some? ==>
      SameHeader(c.unmarshal(raw).value.unprotected, DecodeFields(raw).value.unprotected.value)
  }

  /** Signature verification refuses a message whose payload is missing. */
  predicate Verify(c: Cose, msg: Sign1Message, alg: int, key: PublicKey) {
    msg.payload.Some? && c.verify(msg.rawProtected, msg.payload.value, msg.signature, alg, key)
  }

  /* Parsing */

  function ParseReceipt(c: Cose, v: Value): Option<ParsedReceipt> {
    if !v.VBytes? || c.unmarshal(v.b).None? then None else
    var msg := c.unmarshal(v.b).value;
    if KInt(KID) !in msg.protected || KInt(CWT_CLAIMS) !in msg.protected then None else
    match (msg.protected[KInt(KID)], msg.protected[KInt(CWT_CLAIMS)])
    case (Other(VBytes(kid)), Other(VMap(cwt))) =>
      if KInt(CWT_ISSUER) in cwt && cwt[KInt(CWT_ISSUER)].VText? then
        Some(ParsedReceipt(v.b, msg, cwt[KInt(CWT_ISSUER)].s, kid, []))
      else None
    case _ => None
  }

  /** A receipt is a byte string that is a message with a key ID (label 4) and CWT claims (label 15)
      whose issuer (claim 1) is a text. */
  lemma ParseReceiptExact(c: Cose, v: Value, r: ParsedReceipt)
    ensures ParseReceipt(c, v) == Some(r) <==>
              && v == VBytes(r.raw) && c.unmarshal(r.raw) == Some(r.message) && r.expected == []
              && var protected := r.message.protected;
                 && KInt(4) in protected && protected[KInt(4)] == Other(VBytes(r.kid))
                 && KInt(15) in protected && protected[KInt(15)].Other? && protected[KInt(15)].v.VMap?
                 && var claims := protected[KInt(15)].v.m;
                    KInt(1) in claims && claims[KInt(1)] == VText(r.issuer)
  {
  }

  /** All receipts in order, or an error if one of them is unusable. */
  method ParseReceipts(c: Cose, unprotected: map<Key, Value>) returns (r: Result<seq<ParsedReceipt>>)
    ensures KInt(RECEIPTS) !in unprotected ==> r == Ok([])
    ensures KInt(RECEIPTS) in unprotected ==>
              var v := unprotected[KInt(RECEIPTS)];
              && (r.Ok? <==> v.VArr? && forall x <- v.xs :: ParseReceipt(c, x).Some?)
              && (r.Ok? ==> |r.value| == |v.xs|)
              && (r.Ok? ==> forall i :: 0 <= i < |v.xs| ==> ParseReceipt(c, v.xs[i]) == Some(r.value[i]))
    ensures !r.Panic?
  {
    if KInt(RECEIPTS) !in unprotected { return Ok([]); }
    var rcptsVal := unprotected[KInt(RECEIPTS)];
    if !rcptsVal.VArr? { return Error; }
    var out: seq<ParsedReceipt> := [];
    for i := 0 to |rcptsVal.xs|
      invariant |out| == i
      invariant forall j :: 0 <= j < i ==> ParseReceipt(c, rcptsVal.xs[j]) == Some(out[j])
    {
      var v := rcptsVal.xs[i];
      assert v in rcptsVal.xs;
      if !v.VBytes? { return Error; }
      var decoded := c.unmarshal(v.b);
      if decoded.None? { return Error; }
      var msg := decoded.value;
      var rcpt := ParsedReceipt(v.b, msg, [], [], []);
      if KInt(KID) !in msg.protected { return Error; }
      match msg.protected[KInt(KID)] {
        case Other(VBytes(kid)) => rcpt := rcpt.(kid := kid);
        case _ => return Error;
      }
      if KInt(CWT_CLAIMS) !in msg.protected { return Error; }
      match msg.protected[KInt(CWT_CLAIMS)] {
        case Other(VMap(cwt)) =>
          if KInt(CWT_ISSUER) !in cwt { return Error; }
          if !cwt[KInt(CWT_ISSUER)].VText? { return Error; }
          rcpt := rcpt.(issuer := cwt[KInt(CWT_ISSUER)].s);
        case _ => return Error;
      }
      out := out + [rcpt];
    }
    r := Ok(out);
  }

  /** The receipts of an envelope in order, each told which statement digest it must attest. */
  ghost predicate Unpacked(H: Hash, c: Cose, raw: Bytes, xs: seq<Value>, receipts: seq<ParsedReceipt>)
    requires |raw| < MAX_LEN
  {
    && |receipts| == |xs|
    && (xs != [] ==> StatementHash(H, raw).Some?)
    && forall i :: 0 <= i < |xs| ==>
         && ParseReceipt(c, xs[i]).Some?
         && receipts[i] == ParseReceipt(c, xs[i]).value.(expected := StatementHash(H, raw).value)
  }

  /** The receipts that the unpacking of `raw` may return. */
  ghost predicate UnpackedFrom(H: Hash, c: Cose, raw: Bytes, receipts: seq<ParsedReceipt>)
    requires |raw| < MAX_LEN
  {
    && c.unmarshal(raw).Some?
    && var unprotected := c.unmarshal(raw).value.unprotected;
       if KInt(RECEIPTS) in unprotected then
         unprotected[KInt(RECEIPTS)].VArr? && Unpacked(H, c, raw, unprotected[KInt(RECEIPTS)].xs, receipts)
       else receipts == []
  }

  /** There is a result exactly when there is one to return. */
  method UnpackReceipts(H: Hash, c: Cose, raw: Bytes, canonical: Order) returns (r: Result<seq<ParsedReceipt>>)
    requires |raw| < MAX_LEN && ValidOrder(canonical)
    ensures r.Ok? ==> UnpackedFrom(H, c, raw, r.value)
    ensures r.Error? ==> forall receipts :: !UnpackedFrom(H, c, raw, receipts)
    ensures !r.Panic?
  {
    var msg := c.unmarshal(raw);
    if msg.None? { return Error; }
    var unprotected := msg.value.unprotected;
    var parsed := ParseReceipts(c, unprotected);
    if !parsed.Ok? { return Error; }
    var receipts := parsed.value;
    if |receipts| > 0 {
      var hash := ComputeStatementHash(H, raw, canonical);
      if !hash.Ok? { return Error; }
      for i := 0 to |receipts|
        invariant |receipts| == |parsed.value|
        invariant forall j :: 0 <= j < i ==> receipts[j] == parsed.value[j].(expected := hash.value)
        invariant forall j :: i <= j < |receipts| ==> receipts[j] == parsed.value[j]
      {
        receipts := receipts[i := receipts[i].(expected := hash.value)];
      }
    }
    r := Ok(receipts);
  }

  /** Unpacking adds the envelope's digest to each receipt and nothing else. */
  lemma UnpackedExact(H: Hash, c: Cose, raw: Bytes, xs: seq<Value>, receipts: seq<ParsedReceipt>)
    requires |raw| < MAX_LEN
    ensures Unpacked(H, c, raw, xs, receipts) <==>
              && |receipts| == |xs| && (xs != [] ==> StatementHash(H, raw).Some?)
              && forall i :: 0 <= i < |xs| ==>
                   && ParseReceipt(c, xs[i]) == Some(receipts[i].(expected := []))
                   && receipts[i].expected == StatementHash(H, raw).value
  {
    forall i | 0 <= i < |xs| ensures ParseReceipt(c, xs[i]).Some? ==> ParseReceipt(c, xs[i]).value.expected == [] {
      if ParseReceipt(c, xs[i]).Some? {
        ParseReceiptExact(c, xs[i], ParseReceipt(c, xs[i]).value);
      }
    }
  }

  /** What is unpacked from an envelope are its receipts as `ExtractReceipts` finds them in the bytes. */
  lemma UnpackedExtracted(H: Hash, c: Cose, raw: Bytes, receipts: seq<ParsedReceipt>)
    requires LawfulCose(c) && |raw| < MAX_LEN && UnpackedFrom(H, c, raw, receipts)
    requires ExtractReceipts(raw).Ok? && ExtractReceipts(raw).value.Some?
    ensures Unpacked(H, c, raw, ExtractReceipts(raw).value.value, receipts)
  {
    DecodedFieldsValid(raw);
    var generic := DecodeFields(raw).value.unprotected.value;
    PlainEntries(generic);
    assert KInt(RECEIPTS) !in generic;
    var xs := c.unmarshal(raw).value.unprotected[KInt(RECEIPTS)].xs;
    assert forall i :: 0 <= i < |xs| ==> ParseReceipt(c, xs[i]).Some? && xs[i].VBytes?;
    assert xs == ExtractReceipts(raw).value.value;
  }

  /* Validation */

  function AsInt64(v: HeaderValue): Option<int> {
    match v
    case Other(VInt(i)) => if MIN_INT64 <= i <= MAX_INT64 then Some(i) else None
    case Other(VUint(n)) => if n <= MAX_INT64 then Some(n) else None
    case _ => None
  }

  /** The inclusion proofs a receipt carries, if its unprotected header has the right shape. */
  function InclusionProofs(msg: Sign1Message): Option<seq<Value>> {
    if KInt(VDP) in msg.unprotected && msg.unprotected[KInt(VDP)].VMap? then
      var vdp := msg.unprotected[KInt(VDP)].m;
      if KInt(PROOF_INCLUSION) in vdp && vdp[KInt(PROOF_INCLUSION)].VArr? then Some(vdp[KInt(PROOF_INCLUSION)].xs)
      else None
    else None
  }

  /** Everything `Validate` demands apart from the proofs themselves. */
  predicate HeadersAcceptable(c: Cose, r: ParsedReceipt, keys: map<Bytes, PublicKey>) {
    var protected := r.message.protected;
    && KInt(VDS) in protected && AsInt64(protected[KInt(VDS)]) == Some(VDS_CCF_LEDGER_SHA256)
    && r.message.payload.None?
    && KInt(ALG) in protected && protected[KInt(ALG)].Algorithm?
    && r.kid in keys
    && c.newVerifier(protected[KInt(ALG)].alg, keys[r.kid])
  }

  /** One proof: it decodes, attests the expected digest, and its root carries the signature. */
  predicate Attested(H: Hash, c: Cose, r: ParsedReceipt, alg: int, key: PublicKey, p: Value) {
    && p.VBytes?
    && CcfProof.RootAndDataHash(H, p.b).Some?
    && var (root, dataHash) := CcfProof.RootAndDataHash(H, p.b).value;
       dataHash == r.expected && c.verify(r.message.rawProtected, root, r.message.signature, alg, key)
  }

  predicate ProofAcceptable(H: Hash, c: Cose, r: ParsedReceipt, keys: map<Bytes, PublicKey>, p: Value)
    requires HeadersAcceptable(c, r, keys)
  {
    Attested(H, c, r, r.message.protected[KInt(ALG)].alg, keys[r.kid], p)
  }

  ghost predicate Accepts(H: Hash, c: Cose, r: ParsedReceipt, keys: map<Bytes, PublicKey>) {
    && HeadersAcceptable(c, r, keys)
    && InclusionProofs(r.message).Some?
    && InclusionProofs(r.message).value != []
    && forall p <- InclusionProofs(r.message).value :: ProofAcceptable(H, c, r, keys, p)
  }

  /** Accepts exactly when the header and every single proof are acceptable. The recomputed root
      is put into the message as its payload for one check and taken out again. */
  method Validate(H: Hash, c: Cose, r: ParsedReceipt, keys: map<Bytes, PublicKey>) returns (ok: bool)
    ensures ok <==> Accepts(H, c, r, keys)
  {
    var msg := r.message;
    if KInt(VDS) !in msg.protected { return false; }
    var vds := AsInt64(msg.protected[KInt(VDS)]);
    if vds.None? { return false; }
    if msg.payload.Some? { return false; }
    if KInt(ALG) !in msg.protected { return false; }
    if !msg.protected[KInt(ALG)].Algorithm? { return false; }
    var alg := msg.protected[KInt(ALG)].alg;
    if r.kid !in keys { return false; }
    var pubKey := keys[r.kid];
    if KInt(VDP) !in msg.unprotected { return false; }
    if !msg.unprotected[KInt(VDP)].VMap? { return false; }
    var vdpMap := msg.unprotected[KInt(VDP)].m;
    if KInt(PROOF_INCLUSION) !in vdpMap { return false; }
    if !vdpMap[KInt(PROOF_INCLUSION)].VArr? { return false; }
    var inclArr := vdpMap[KInt(PROOF_INCLUSION)].xs;
    if |inclArr| == 0 { return false; }
    if !c.newVerifier(alg, pubKey) { return false; }
    assert InclusionProofs(r.message) == Some(inclArr);
    for i := 0 to |inclArr|
      invariant msg == r.message
      invariant i > 0 ==> vds == Some(VDS_CCF_LEDGER_SHA256)
      invariant forall j :: 0 <= j < i ==> Attested(H, c, r, alg, pubKey, inclArr[j])
    {
      var p := inclArr[i];
      assert p in inclArr;
      if !p.VBytes? { return false; }
      if vds.value != VDS_CCF_LEDGER_SHA256 { return false; }
      var computed := CcfProof.ComputeRoot(H, p.b);
      if !computed.Ok? { return false; }
      var (root, dataHash) := computed.value;
      if dataHash != r.expected { return false; }
      msg := msg.(payload := Some(root));
      if !Verify(c, msg, alg, pubKey) { return false; }
      msg := msg.(payload := None);
    }
    ok := true;
  }

  /** What is accepted, label by label: data structure 2 (395), a detached payload, an algorithm (1), a
      known key ID, and under 396 and -1 a non-empty array of proofs. Each proof is a byte string with
      the expected digest, and the signature over its root verifies under the key of the key ID. */
  lemma AcceptsExactly(H: Hash, c: Cose, r: ParsedReceipt, keys: map<Bytes, PublicKey>)
    ensures Accepts(H, c, r, keys) <==>
              var msg := r.message;
              && KInt(395) in msg.protected && msg.protected[KInt(395)] in {Other(VInt(2)), Other(VUint(2))}
              && msg.payload == None
              && KInt(1) in msg.protected && msg.protected[KInt(1)].Algorithm?
              && r.kid in keys
              && c.newVerifier(msg.protected[KInt(1)].alg, keys[r.kid])
              && KInt(396) in msg.unprotected && msg.unprotected[KInt(396)].VMap?
              && var vdp := msg.unprotected[KInt(396)].m;
                 && KInt(-1) in vdp && vdp[KInt(-1)].VArr? && vdp[KInt(-1)].xs != []
                 && forall pv <- vdp[KInt(-1)].xs ::
                      && pv.VBytes? && CcfProof.RootAndDataHash(H, pv.b).Some?
                      && var (root, dataHash) := CcfProof.RootAndDataHash(H, pv.b).value;
                         && dataHash == r.expected
                         && c.verify(msg.rawProtected, root, msg.signature, msg.protected[KInt(1)].alg, keys[r.kid])
  {
  }

  /** The signature of an accepted receipt is good over the root of each of its proofs. */
  ghost predicate Signed(c: Cose, r: ParsedReceipt, keys: map<Bytes, PublicKey>, root: Bytes) {
    && r.kid in keys
    && KInt(1) in r.message.protected && r.message.protected[KInt(1)].Algorithm?
    && c.verify(r.message.rawProtected, root, r.message.signature, r.message.protected[KInt(1)].alg, keys[r.kid])
  }

  lemma AcceptedIsSigned(H: Hash, c: Cose, r: ParsedReceipt, keys: map<Bytes, PublicKey>, pv: Value)
    requires Accepts(H, c, r, keys) && pv in InclusionProofs(r.message).value
    ensures pv.VBytes? && CcfProof.RootAndDataHash(H, pv.b).Some?
    ensures Signed(c, r, keys, CcfProof.RootAndDataHash(H, pv.b).value.0)
  {
    assert ProofAcceptable(H, c, r, keys, pv);
  }

  /** An honest receipt is accepted: the proof of a leaf of a ledger that holds the envelope's digest,
      with a signature over the ledger's root. */
  lemma HonestReceiptAccepted(H: Hash, c: Cose, r: ParsedReceipt, keys: map<Bytes, PublicKey>, envelope: Bytes,
                              t: Tree, flags: seq<bool>, ord: Order, proofs: map<Key, Value>)
    requires |envelope| < MAX_LEN && |flags| < MAX_LEN && ValidOrder(ord)
    requires t.Node? && ProofFor(H, t, flags).Some?
    requires var leaf := ProofFor(H, t, flags).value.0;
             && 1 <= |leaf.evidence| <= 1024 && ValidUtf8(leaf.evidence)
             && StatementHash(H, envelope) == Some(leaf.dataHash)
    requires var msg := r.message;
             && msg.payload == None
             && KInt(395) in msg.protected && msg.protected[KInt(395)] == Other(VInt(2))
             && KInt(1) in msg.protected && msg.protected[KInt(1)].Algorithm?
             && KInt(396) in msg.unprotected && msg.unprotected[KInt(396)] == VMap(proofs)
    requires r.kid in keys && c.newVerifier(r.message.protected[KInt(1)].alg, keys[r.kid])
    requires Signed(c, r, keys, Root(H, t))
    requires var (leaf, path) := ProofFor(H, t, flags).value;
             && CcfProof.EncodableProof(CcfProof.Proof(leaf, path))
             && KInt(-1) in proofs
             && proofs[KInt(-1)] == VArr([VBytes(CcfProof.EncodeProof(CcfProof.Proof(leaf, path), ord))])
    ensures Accepts(H, c, BoundTo(H, r, envelope), keys)
  {
    CcfProof.ComputeRootComplete(H, t, flags, ord);
    AcceptsExactly(H, c, BoundTo(H, r, envelope), keys);
  }

  /** The same receipt carrying other proofs. */
  function WithProofs(r: ParsedReceipt, proofs: seq<Value>): ParsedReceipt {
    var u := r.message.unprotected;
    var vdp := if KInt(VDP) in u && u[KInt(VDP)].VMap? then u[KInt(VDP)].m else map[];
    var unprotected := u[KInt(VDP) := VMap(vdp[KInt(PROOF_INCLUSION) := VArr(proofs)])];
    r.(message := r.message.(unprotected := unprotected))
  }

  /** Fewer proofs, in any order and repeated at will, are accepted wherever more are. Hence the
      verdict depends on the set of proofs alone. */
  lemma AcceptsSubset(
    H: Hash, c: Cose, r: ParsedReceipt, keys: map<Bytes, PublicKey>, more: seq<Value>, fewer: seq<Value>)
    requires Accepts(H, c, WithProofs(r, more), keys)
    requires fewer != [] && forall p <- fewer :: p in more
    ensures Accepts(H, c, WithProofs(r, fewer), keys)
  {
    assert InclusionProofs(WithProofs(r, more).message) == Some(more);
    assert InclusionProofs(WithProofs(r, fewer).message) == Some(fewer);
    forall p <- fewer ensures ProofAcceptable(H, c, WithProofs(r, fewer), keys, p) {
      assert ProofAcceptable(H, c, WithProofs(r, more), keys, p);
    }
  }

  lemma AcceptsProofSet(
    H: Hash, c: Cose, r: ParsedReceipt, keys: map<Bytes, PublicKey>, proofs1: seq<Value>, proofs2: seq<Value>)
    requires forall p :: p in proofs1 <==> p in proofs2
    ensures Accepts(H, c, WithProofs(r, proofs1), keys) <==> Accepts(H, c, WithProofs(r, proofs2), keys)
  {
    assert InclusionProofs(WithProofs(r, proofs1).message) == Some(proofs1);
    assert InclusionProofs(WithProofs(r, proofs2).message) == Some(proofs2);
    if proofs1 != [] {
      assert proofs1[0] in proofs2;
    }
    if proofs2 != [] {
      assert proofs2[0] in proofs1;
    }
    if Accepts(H, c, WithProofs(r, proofs1), keys) {
      AcceptsSubset(H, c, r, keys, proofs1, proofs2);
    } else if Accepts(H, c, WithProofs(r, proofs2), keys) {
      AcceptsSubset(H, c, r, keys, proofs2, proofs1);
    }
  }

  /** Only a receipt bound to a digest is ever accepted, and only one for a CCF ledger. */
  lemma AcceptedIsBound(H: Hash, c: Cose, r: ParsedReceipt, keys: map<Bytes, PublicKey>)
    requires Accepts(H, c, r, keys)
    ensures |r.expected| == 32
    ensures KInt(VDS) in r.message.protected && AsInt64(r.message.protected[KInt(VDS)]) == Some(2)
  {
    assert ProofAcceptable(H, c, r, keys, InclusionProofs(r.message).value[0]);
  }

  /* End to end */

  /** The receipt as the unpacking of `envelope` leaves it. */
  ghost function BoundTo(H: Hash, r: ParsedReceipt, envelope: Bytes): ParsedReceipt
    requires |envelope| < MAX_LEN && StatementHash(H, envelope).Some?
  {
    r.(expected := StatementHash(H, envelope).value)
  }

  /** Two envelopes that agree in everything the digest covers. */
  ghost predicate SameStatement(a: RawSign1, b: RawSign1) {
    a.protected == b.protected && a.payload == b.payload && a.signature == b.signature
  }

  ghost predicate SameOrCollide(H: Hash, a: RawSign1, b: RawSign1) {
    && ValidSign1(a) && ValidSign1(b)
    && (SameStatement(a, b) || IsCollision(H, StatementPreimage(a), StatementPreimage(b)))
  }

  lemma EqualDigests(H: Hash, e1: Bytes, e2: Bytes)
    requires |e1| < MAX_LEN && |e2| < MAX_LEN
    requires StatementHash(H, e1).Some? && StatementHash(H, e1) == StatementHash(H, e2)
    ensures SameOrCollide(H, DecodeFields(e1).value, DecodeFields(e2).value)
  {
    DecodedFieldsValid(e1);
    DecodedFieldsValid(e2);
    StatementPreimageInjective(DecodeFields(e1).value, DecodeFields(e2).value);
  }

  /** One receipt accepted for two envelopes: their protected headers, payloads and signatures are
      identical byte for byte, or the two digest inputs collide. */
  lemma ReceiptBinding(H: Hash, c: Cose, r: ParsedReceipt, keys1: map<Bytes, PublicKey>, keys2: map<Bytes, PublicKey>,
                       e1: Bytes, e2: Bytes)
    requires |e1| < MAX_LEN && |e2| < MAX_LEN && StatementHash(H, e1).Some? && StatementHash(H, e2).Some?
    requires Accepts(H, c, BoundTo(H, r, e1), keys1) && Accepts(H, c, BoundTo(H, r, e2), keys2)
    ensures SameOrCollide(H, DecodeFields(e1).value, DecodeFields(e2).value)
  {
    var p := InclusionProofs(r.message).value[0];
    assert ProofAcceptable(H, c, BoundTo(H, r, e1), keys1, p);
    assert ProofAcceptable(H, c, BoundTo(H, r, e2), keys2, p);
    EqualDigests(H, e1, e2);
  }

  /** What a proof `p` with the root of the ledger `t` says about an envelope: the ledger holds, at the
      very position the proof names, a leaf with this envelope's digest, and if that leaf was written
      for some other envelope the two are the same statement. Otherwise there is a collision between
      strings the two sides hash. */
  ghost predicate Registered(H: Hash, t: Tree, p: CcfProof.Proof, envelope: Bytes, registered: Bytes)
    requires |envelope| < MAX_LEN && |registered| < MAX_LEN && StatementHash(H, envelope).Some?
  {
    match CompareWithTree(H, t, p.leaf, p.path)
    case Some((x, y)) =>
      IsCollision(H, x, y) && x in TreePreimages(H, t) && y in ProofPreimages(H, p.leaf, p.path)
    case None =>
      && ProofFor(H, t, Flags(p.path)) == Some((p.leaf, p.path))
      && Some(p.leaf.dataHash) == StatementHash(H, envelope)
      && (StatementHash(H, registered) == Some(p.leaf.dataHash) ==>
            SameOrCollide(H, DecodeFields(envelope).value, DecodeFields(registered).value))
  }

  /** Every accepted proof whose root is that of a ledger says so, and the root is signed. */
  lemma AcceptedMeansRegistered(H: Hash, c: Cose, r: ParsedReceipt, keys: map<Bytes, PublicKey>, envelope: Bytes,
                                t: Tree, i: nat, registered: Bytes)
    requires |envelope| < MAX_LEN && StatementHash(H, envelope).Some?
    requires Accepts(H, c, BoundTo(H, r, envelope), keys)
    requires i < |InclusionProofs(r.message).value|
    requires |registered| < MAX_LEN
    ensures var pv := InclusionProofs(r.message).value[i];
            && pv.VBytes? && CcfProof.DecodeProof(pv.b).Some?
            && (CcfProof.RootAndDataHash(H, pv.b).value.0 == Root(H, t) ==>
                  && Signed(c, r, keys, Root(H, t))
                  && Registered(H, t, CcfProof.DecodeProof(pv.b).value, envelope, registered))
  {
    var pv := InclusionProofs(r.message).value[i];
    assert ProofAcceptable(H, c, BoundTo(H, r, envelope), keys, pv);
    AcceptedIsSigned(H, c, BoundTo(H, r, envelope), keys, pv);
    var p := CcfProof.DecodeProof(pv.b).value;
    if CcfProof.RootAndDataHash(H, pv.b).value.0 == Root(H, t) {
      CcfProof.ComputeRootSound(H, t, pv.b, p);
      if StatementHash(H, registered) == Some(p.leaf.dataHash) && Some(p.leaf.dataHash) == StatementHash(H, envelope) {
        EqualDigests(H, envelope, registered);
      }
    }
  }
}
