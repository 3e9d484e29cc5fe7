/** Decoding a CCF inclusion proof and recomputing the Merkle root it leads to
    (section 3.2 of draft-ietf-scitt-receipts-ccf-profile-02). */
module CcfProof {
  import opened Basics
  import opened CborSyntax
  import opened CborValue
  import opened Utf8
  import opened MerkleTree

  /* The proof bytes as a map keyed by int64 */

  function Int64Key(t: Item): Option<int> {
    match StripTags(t)
    case Some(Leaf(h)) =>
      if h.major == 0 && h.arg <= MAX_INT64 then Some(h.arg)
      else if h.major == 1 && -1 - h.arg >= MIN_INT64 then Some(-1 - h.arg)
      else if IsNull(Item.Leaf(h)) then Some(0)
      else None
    case _ => None
  }

  function ToInt64Map(ts: seq<Item>): Option<map<int, Value>> {
    if |ts| < 2 then Some(map[]) else
    match (Int64Key(ts[0]), ToValue(ts[1]), ToInt64Map(ts[2..]))
    case (Some(k), Some(v), Some(m)) => Some(if k in m then m else m[k := v])
    case _ => None
  }

  function DecodeProofMap(proofBytes: Bytes): Option<map<int, Value>> {
    match ParseWhole(proofBytes)
    case None => None
    case Some(t) =>
      match ItemsOf(5, t)
      case None => None
      case Some(ts) => ToInt64Map(ts)
  }

  /* What the map must contain */

  datatype Proof = Proof(leaf: CcfLeaf, path: seq<Step>)

  function LeafValue(leaf: CcfLeaf): Value {
    VArr([VBytes(leaf.tx), VText(leaf.evidence), VBytes(leaf.dataHash)])
  }

  function StepValue(step: Step): Value {
    VArr([VBool(step.left), VBytes(step.sibling)])
  }

  function PathValue(path: seq<Step>): Value {
    VArr(seq(|path|, i requires 0 <= i < |path| => StepValue(path[i])))
  }

  /** The CDDL of the profile: leaf under 1, non-empty path under 2, evidence of 1 to 1024 bytes. */
  ghost predicate Represents(m: map<int, Value>, p: Proof) {
    && 1 in m && m[1] == LeafValue(p.leaf)
    && 2 in m && m[2] == PathValue(p.path)
    && 1 <= |p.leaf.evidence| <= 1024
    && p.path != []
  }

  predicate IsLeaf(v: Value) {
    && v.VArr? && |v.xs| == 3
    && v.xs[0].VBytes? && |v.xs[0].b| == 32
    && v.xs[1].VText? && 1 <= |v.xs[1].s| <= 1024
    && v.xs[2].VBytes? && |v.xs[2].b| == 32
  }

  predicate IsStep(v: Value) {
    && v.VArr? && |v.xs| == 2
    && v.xs[0].VBool?
    && v.xs[1].VBytes? && |v.xs[1].b| == 32
  }

  function ReadLeaf(v: Value): (leaf: CcfLeaf)
    requires IsLeaf(v)
    ensures v == LeafValue(leaf)
  {
    assert v.xs == [v.xs[0], v.xs[1], v.xs[2]];
    CcfLeaf(v.xs[0].b, v.xs[1].s, v.xs[2].b)
  }

  function ReadStep(v: Value): (step: Step)
    requires IsStep(v)
    ensures v == StepValue(step)
  {
    assert v.xs == [v.xs[0], v.xs[1]];
    Step(v.xs[0].v, v.xs[1].b)
  }

  function ReadPath(xs: seq<Value>): (path: seq<Step>)
    requires forall x <- xs :: IsStep(x)
    ensures VArr(xs) == PathValue(path)
  {
    var path := seq(|xs|, i requires 0 <= i < |xs| => ReadStep(xs[i]));
    assert PathValue(path).xs == xs;
    path
  }

  lemma FoldOneMore(H: Hash, h: Digest, xs: seq<Value>, i: nat)
    requires i < |xs| && (forall x <- xs[..i] :: IsStep(x)) && IsStep(xs[i])
    ensures forall x <- xs[..i + 1] :: IsStep(x)
    ensures Fold(H, h, ReadPath(xs[..i + 1])) == H(StepPreimage(ReadStep(xs[i]), Fold(H, h, ReadPath(xs[..i]))))
  {
    assert xs[..i + 1] == xs[..i] + [xs[i]];
    assert Init(ReadPath(xs[..i + 1])) == ReadPath(xs[..i]);
  }

  function ReadProof(m: map<int, Value>): Option<Proof> {
    if 1 in m && 2 in m && IsLeaf(m[1]) && m[2].VArr? && m[2].xs != [] && forall x <- m[2].xs :: IsStep(x)
    then Some(Proof(ReadLeaf(m[1]), ReadPath(m[2].xs)))
    else None
  }

  /** The checks of the decoder accept exactly the maps of the profile, each for one proof. */
  lemma ReadProofExact(m: map<int, Value>, p: Proof)
    ensures ReadProof(m) == Some(p) <==> Represents(m, p)
  {
    if Represents(m, p) {
      assert m[1].xs[0] == VBytes(p.leaf.tx) && m[1].xs[1] == VText(p.leaf.evidence);
      assert m[1].xs[2] == VBytes(p.leaf.dataHash);
      forall i | 0 <= i < |p.path| ensures IsStep(m[2].xs[i]) && ReadStep(m[2].xs[i]) == p.path[i] {
        var x := StepValue(p.path[i]);
        assert m[2].xs[i] == x && x.xs[0] == VBool(p.path[i].left) && x.xs[1] == VBytes(p.path[i].sibling);
      }
      assert ReadPath(m[2].xs) == p.path;
    }
  }

  /** The proof a byte string stands for, if any. */
  function DecodeProof(proofBytes: Bytes): Option<Proof> {
    match DecodeProofMap(proofBytes)
    case None => None
    case Some(m) => ReadProof(m)
  }

  function RootAndDataHash(H: Hash, proofBytes: Bytes): Option<(Digest, Digest)> {
    match DecodeProof(proofBytes)
    case None => None
    case Some(p) => Some((Fold(H, LeafHash(H, p.leaf), p.path), p.leaf.dataHash))
  }

  /** The loop over the path: each step checks one element and hashes it with the hash so far. */
  method HashPath(H: Hash, leafHash: Digest, pathArr: seq<Value>) returns (r: Result<Digest>)
    ensures r == if forall x <- pathArr :: IsStep(x) then Ok(Fold(H, leafHash, ReadPath(pathArr))) else Error
  {
    var h := leafHash;
    for i := 0 to |pathArr|
      invariant forall x <- pathArr[..i] :: IsStep(x)
      invariant h == Fold(H, leafHash, ReadPath(pathArr[..i]))
    {
      var el := pathArr[i];
      if !el.VArr? || |el.xs| != 2 { return Error; }
      if !el.xs[0].VBool? { return Error; }
      var left := el.xs[0].v;
      if !el.xs[1].VBytes? { return Error; }
      var hash := el.xs[1].b;
      if |hash| != 32 { return Error; }
      var concat := [];
      if left {
        concat := concat + hash;
        concat := concat + h;
      } else {
        concat := concat + h;
        concat := concat + hash;
      }
      assert concat == StepPreimage(ReadStep(el), h);
      FoldOneMore(H, leafHash, pathArr, i);
      h := H(concat);
    }
    assert pathArr[..|pathArr|] == pathArr;
    r := Ok(h);
  }

  /** The root and data-hash, with the checks and the concatenations in the order of the program. */
  method ComputeRoot(H: Hash, proofBytes: Bytes) returns (r: Result<(Digest, Digest)>)
    ensures r == match RootAndDataHash(H, proofBytes)
                 case Some(x) => Ok(x)
                 case None => Error
  {
    var decoded := DecodeProofMap(proofBytes);
    if decoded.None? { return Error; }
    var proof := decoded.value;
    if 1 !in proof { return Error; }
    if 2 !in proof { return Error; }
    var leafVal, pathVal := proof[1], proof[2];
    if !leafVal.VArr? || |leafVal.xs| != 3 { return Error; }
    var leafArr := leafVal.xs;
    if !leafArr[0].VBytes? || |leafArr[0].b| != 32 { return Error; }
    if !leafArr[1].VText? { return Error; }
    var evidence := leafArr[1].s;
    if |evidence| < 1 || |evidence| > 1024 { return Error; }
    if !leafArr[2].VBytes? || |leafArr[2].b| != 32 { return Error; }
    var dataHash := leafArr[2].b;

    var evidenceHash := H(evidence);
    var leafConcat := [];
    leafConcat := leafConcat + leafArr[0].b;
    leafConcat := leafConcat + evidenceHash;
    leafConcat := leafConcat + dataHash;
    assert leafConcat == LeafPreimage(H, ReadLeaf(leafVal));
    var leafHash := H(leafConcat);

    if !pathVal.VArr? { return Error; }
    var pathArr := pathVal.xs;
    if |pathArr| == 0 { return Error; }
    var h := HashPath(H, leafHash, pathArr);
    if !h.Ok? { return Error; }
    r := Ok((h.value, dataHash));
  }

  /* Soundness and completeness over bytes */

  /** Accepted bytes that lead to the root of a tree carry a leaf of the tree, the evidence text
      included, and its own path; else two colliding strings come out. In particular a tree of one
      leaf has no acceptable proof. */
  lemma ComputeRootSound(H: Hash, t: Tree, proofBytes: Bytes, p: Proof)
    requires DecodeProof(proofBytes) == Some(p)
    requires RootAndDataHash(H, proofBytes).value.0 == Root(H, t)
    ensures match CompareWithTree(H, t, p.leaf, p.path)
            case None =>
              && t.Node?
              && ProofFor(H, t, Flags(p.path)) == Some((p.leaf, p.path))
              && RootAndDataHash(H, proofBytes).value.1 == p.leaf.dataHash
            case Some((x, y)) =>
              IsCollision(H, x, y) && x in TreePreimages(H, t) && y in ProofPreimages(H, p.leaf, p.path)
  {
    Soundness(H, t, p.leaf, p.path);
  }

  predicate EncodableProof(p: Proof) {
    1 <= |p.leaf.evidence| <= 1024 && ValidUtf8(p.leaf.evidence) && 1 <= |p.path| < MAX_LEN
  }

  function ProofMap(p: Proof): Value {
    VMap(map[KUint(1) := LeafValue(p.leaf), KUint(2) := PathValue(p.path)])
  }

  lemma ProofMapPlain(p: Proof)
    requires EncodableProof(p)
    ensures Plain(ProofMap(p))
  {
    assert Plain(LeafValue(p.leaf));
    forall x <- PathValue(p.path).xs ensures Plain(x) {
      var i :| 0 <= i < |p.path| && x == StepValue(p.path[i]);
    }
  }

  /** The bytes a ledger issues for a proof, the two map entries in either order. */
  function EncodeProof(p: Proof, ord: Order): Bytes
    requires EncodableProof(p) && ValidOrder(ord)
  {
    ProofMapPlain(p);
    DecodeEncode(ProofMap(p), ord, []);
    Unparse(Encode(ProofMap(p), ord, []))
  }

  predicate Int64Only(k: Key) {
    (k.KUint? && k.n <= MAX_INT64) || (k.KInt? && MIN_INT64 <= k.i < 0)
  }

  function NumberKey(n: int): Key {
    if n >= 0 then KUint(n) else KInt(n)
  }

  /** Where all keys are plain int64 numbers the typed and the generic decode of a map agree. */
  lemma {:induction false} TypedMapAgrees(ts: seq<Item>)
    requires ToMap(ts).Some? && forall k <- ToMap(ts).value :: Int64Only(k)
    ensures ToInt64Map(ts).Some?
    ensures forall n :: n in ToInt64Map(ts).value <==> NumberKey(n) in ToMap(ts).value
    ensures forall n <- ToInt64Map(ts).value :: ToInt64Map(ts).value[n] == ToMap(ts).value[NumberKey(n)]
  {
    if |ts| >= 2 {
      var k := AsKey(ToValue(ts[0]).value).value;
      var m, rest := ToMap(ts).value, ToMap(ts[2..]).value;
      assert k in m;
      assert forall k' <- rest :: k' in m;
      TypedMapAgrees(ts[2..]);
      KeyItem(ts[0], k);
      var n := if k.KUint? then k.n else k.i;
      assert k == NumberKey(n);
    }
  }

  lemma KeyItem(t: Item, k: Key)
    requires ToValue(t).Some? && AsKey(ToValue(t).value) == Some(k) && Int64Only(k)
    ensures Int64Key(t) == Some(if k.KUint? then k.n else k.i)
  {
  }

  /** The bytes of an encodable proof decode to that proof and to no other. */
  lemma DecodesEncoded(p: Proof, ord: Order)
    requires EncodableProof(p) && ValidOrder(ord)
    ensures DecodeProof(EncodeProof(p, ord)) == Some(p)
  {
    var v := ProofMap(p);
    ProofMapPlain(p);
    DecodeEncode(v, ord, []);
    var t := Encode(v, ord, []);
    ParseWholeExact(Unparse(t), t);
    MapReadsProof(t.kids, p);
  }

  lemma MapReadsProof(kids: seq<Item>, p: Proof)
    requires ToMap(kids) == Some(ProofMap(p).m) && EncodableProof(p)
    ensures ToInt64Map(kids).Some? && ReadProof(ToInt64Map(kids).value) == Some(p)
  {
    var m := ProofMap(p).m;
    TypedMapAgrees(kids);
    assert NumberKey(1) in m && NumberKey(2) in m;
    ReadProofExact(ToInt64Map(kids).value, p);
  }

  /** Every leaf of a tree with at least two leaves has an accepted proof, which returns the root
      and the leaf's data-hash, if its evidence is a text of 1 to 1024 bytes. */
  lemma ComputeRootComplete(H: Hash, t: Tree, flags: seq<bool>, ord: Order)
    requires t.Node? && ProofFor(H, t, flags).Some? && ValidOrder(ord)
    requires |flags| < MAX_LEN
    requires 1 <= |ProofFor(H, t, flags).value.0.evidence| <= 1024 && ValidUtf8(ProofFor(H, t, flags).value.0.evidence)
    ensures var (leaf, path) := ProofFor(H, t, flags).value;
            && Flags(path) == flags
            && EncodableProof(Proof(leaf, path))
            && RootAndDataHash(H, EncodeProof(Proof(leaf, path), ord)) == Some((Root(H, t), leaf.dataHash))
  {
    var (leaf, path) := ProofFor(H, t, flags).value;
    Completeness(H, t, flags);
    DecodesEncoded(Proof(leaf, path), ord);
  }

  /* The answer in terms of the hash function alone */

  /** What the map of a proof must be, entry by entry. */
  lemma ProofEntries(m: map<int, Value>, p: Proof)
    ensures ReadProof(m) == Some(p) <==>
              && 1 in m && m[1] == VArr([VBytes(p.leaf.tx), VText(p.leaf.evidence), VBytes(p.leaf.dataHash)])
              && 1 <= |p.leaf.evidence| <= 1024
              && 2 in m && m[2].VArr? && |m[2].xs| == |p.path| > 0
              && forall i :: 0 <= i < |p.path| ==>
                   m[2].xs[i] == VArr([VBool(p.path[i].left), VBytes(p.path[i].sibling)])
  {
    ReadProofExact(m, p);
    if 2 in m && m[2].VArr? && |m[2].xs| == |p.path|
       && forall i :: 0 <= i < |p.path| ==> m[2].xs[i] == VArr([VBool(p.path[i].left), VBytes(p.path[i].sibling)]) {
      assert m[2].xs == PathValue(p.path).xs;
    }
  }

  /** A proof of one step: the leaf is hashed from transaction hash, hashed evidence and data-hash, and
      the step from the two hashes in the order that its flag tells. */
  lemma OneStepRoot(H: Hash, proofBytes: Bytes, p: Proof)
    requires DecodeProof(proofBytes) == Some(p) && |p.path| == 1
    ensures var h, s := H(p.leaf.tx + H(p.leaf.evidence) + p.leaf.dataHash), p.path[0];
            RootAndDataHash(H, proofBytes)
            == Some((H(if s.left then s.sibling + h else h + s.sibling), p.leaf.dataHash))
  {
    var h := LeafHash(H, p.leaf);
    assert Init(p.path) == [] && Last(p.path) == p.path[0];
    assert Fold(H, h, p.path) == H(StepPreimage(p.path[0], h));
  }

  /** A proof with one more step at the end hashes the root so far together with the new sibling. */
  lemma LongerPathRoot(H: Hash, proofBytes: Bytes, longerBytes: Bytes, p: Proof, s: Step)
    requires DecodeProof(proofBytes) == Some(p)
    requires DecodeProof(longerBytes) == Some(Proof(p.leaf, p.path + [s]))
    ensures var root := RootAndDataHash(H, proofBytes).value.0;
            RootAndDataHash(H, longerBytes)
            == Some((H(if s.left then s.sibling + root else root + s.sibling), p.leaf.dataHash))
  {
    assert Init(p.path + [s]) == p.path;
  }

  lemma LeafItemBytes(tx: Digest, evidence: Bytes, dataHash: Digest) returns (t: Item)
    requires |evidence| < 24 && ValidUtf8(evidence)
    ensures Wf(t) && ToValue(t) == Some(VArr([VBytes(tx), VText(evidence), VBytes(dataHash)]))
    ensures Unparse(t)
            == [0x83] + (([0x58, 0x20] + tx) + (([0x60 + |evidence|] + evidence) + ([0x58, 0x20] + dataHash)))
  {
    var a, b, c := Str(Head(2, 1, 32), tx), Str(Head(3, 0, |evidence|), evidence), Str(Head(2, 1, 32), dataHash);
    Unparse32(2, tx);
    UnparseShort(3, evidence);
    Unparse32(2, dataHash);
    t := Item.Node(Head(4, 0, 3), [a, b, c]);
    UnparseShortNode(4, 3, [a, b, c]);
    UnparseTriple(a, b, c);
    ValuesOf([a, b, c], [VBytes(tx), VText(evidence), VBytes(dataHash)]);
  }

  lemma PathItemBytes(left: bool, sibling: Digest) returns (t: Item)
    ensures Wf(t) && ToValue(t) == Some(VArr([VArr([VBool(left), VBytes(sibling)])]))
    ensures Unparse(t) == [0x81] + ([0x82] + ([if left then 0xf5 else 0xf4] + ([0x58, 0x20] + sibling)))
  {
    var n := if left then 21 else 20;
    var a, b := Item.Leaf(Head(7, 0, n)), Str(Head(2, 1, 32), sibling);
    UnparseShortLeaf(7, n);
    Unparse32(2, sibling);
    var step := Item.Node(Head(4, 0, 2), [a, b]);
    UnparseShortNode(4, 2, [a, b]);
    UnparsePair(a, b);
    ValuesOf([a, b], [VBool(left), VBytes(sibling)]);
    t := Item.Node(Head(4, 0, 1), [step]);
    UnparseShortNode(4, 1, [step]);
    UnparseOne(step);
    ValuesOf([step], [VArr([VBool(left), VBytes(sibling)])]);
  }

  lemma MapOfTwo(leafItem: Item, pathItem: Item, leaf: Value, path: Value)
    requires ToValue(leafItem) == Some(leaf) && ToValue(pathItem) == Some(path)
    ensures ToInt64Map([Item.Leaf(Head(0, 0, 1)), leafItem, Item.Leaf(Head(0, 0, 2)), pathItem])
            == Some(map[1 := leaf, 2 := path])
  {
    var one, two := Item.Leaf(Head(0, 0, 1)), Item.Leaf(Head(0, 0, 2));
    assert [one, leafItem, two, pathItem][2..] == [two, pathItem] && [two, pathItem][2..] == [];
    assert Int64Key(one) == Some(1) && Int64Key(two) == Some(2);
    assert ToInt64Map([]) == Some(map[]);
    assert ToInt64Map([two, pathItem]) == Some(map[2 := path]);
    assert map[2 := path][1 := leaf] == map[1 := leaf, 2 := path];
  }

  lemma ProofMapBytes(leafItem: Item, pathItem: Item)
    requires Wf(leafItem) && Wf(pathItem)
    ensures DecodeProofMap([0xa2] + ([0x01] + (Unparse(leafItem) + ([0x02] + Unparse(pathItem)))))
            == ToInt64Map([Item.Leaf(Head(0, 0, 1)), leafItem, Item.Leaf(Head(0, 0, 2)), pathItem])
  {
    var kids := [Item.Leaf(Head(0, 0, 1)), leafItem, Item.Leaf(Head(0, 0, 2)), pathItem];
    UnparseShortLeaf(0, 1);
    UnparseShortLeaf(0, 2);
    UnparseShortNode(5, 2, kids);
    UnparseFour(kids[0], leafItem, kids[2], pathItem);
    ParseWholeExact(Unparse(Item.Node(Head(5, 0, 2), kids)), Item.Node(Head(5, 0, 2), kids));
  }

  /** A one-step proof byte by byte, and its root. */
  lemma ProofBytesRoot(H: Hash, tx: Digest, evidence: Bytes, dataHash: Digest, left: bool, sibling: Digest, b: Bytes)
    requires 1 <= |evidence| < 24 && ValidUtf8(evidence)
    requires b == [0xa2] + ([0x01]
                  + (([0x83] + (([0x58, 0x20] + tx) + (([0x60 + |evidence|] + evidence) + ([0x58, 0x20] + dataHash))))
                  + ([0x02]
                  + ([0x81] + ([0x82] + ([if left then 0xf5 else 0xf4] + ([0x58, 0x20] + sibling)))))))
    ensures var h := H(tx + H(evidence) + dataHash);
            RootAndDataHash(H, b) == Some((H(if left then sibling + h else h + sibling), dataHash))
  {
    var leafItem := LeafItemBytes(tx, evidence, dataHash);
    var pathItem := PathItemBytes(left, sibling);
    var kids := [Item.Leaf(Head(0, 0, 1)), leafItem, Item.Leaf(Head(0, 0, 2)), pathItem];
    ProofMapBytes(leafItem, pathItem);
    var p := Proof(CcfLeaf(tx, evidence, dataHash), [Step(left, sibling)]);
    MapOfTwo(leafItem, pathItem, LeafValue(p.leaf), VArr([StepValue(p.path[0])]));
    ProofEntries(ToInt64Map(kids).value, p);
    OneStepRoot(H, b, p);
  }
}
