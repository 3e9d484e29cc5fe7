/** Hash trees whose leaves and inner nodes are hashed as CCF receipts do: a leaf as
    `tx || H(evidence) || data-hash` and a node as `left || right`, with no tag byte
    between the two. SHA-256 is any function `H` to 32-byte strings. Nothing is
    assumed about collisions: a proof that should not exist is turned into one. */
module MerkleTree {
  import opened Basics

  type Digest = b: Bytes | |b| == 32 witness seq(32, i => 0)
  type Hash = Bytes -> Digest

  datatype CcfLeaf = CcfLeaf(tx: Digest, evidence: Bytes, dataHash: Digest)

  /** One path element; `left` says that the sibling stands on the left. */
  datatype Step = Step(left: bool, sibling: Digest)

  datatype Tree = Leaf(leaf: CcfLeaf) | Node(l: Tree, r: Tree)

  function LeafPreimage(H: Hash, leaf: CcfLeaf): (x: Bytes)
    ensures |x| == 96
  {
    leaf.tx + H(leaf.evidence) + leaf.dataHash
  }

  function LeafHash(H: Hash, leaf: CcfLeaf): Digest {
    H(LeafPreimage(H, leaf))
  }

  function StepPreimage(step: Step, h: Digest): (x: Bytes)
    ensures |x| == 64
  {
    if step.left then step.sibling + h else h + step.sibling
  }

  /** The root recomputed from a leaf hash; the path runs from the leaf upwards. */
  function Fold(H: Hash, h: Digest, path: seq<Step>): Digest {
    if path == [] then h else H(StepPreimage(Last(path), Fold(H, h, Init(path))))
  }

  function Last<T>(s: seq<T>): T
    requires s != []
  {
    s[|s| - 1]
  }

  function Init<T>(s: seq<T>): (r: seq<T>)
    requires s != []
    ensures s == r + [Last(s)]
  {
    s[..|s| - 1]
  }

  /** The string whose hash the fold ends with. */
  function LastPreimage(H: Hash, leaf: CcfLeaf, path: seq<Step>): Bytes {
    if path == [] then LeafPreimage(H, leaf) else StepPreimage(Last(path), Fold(H, LeafHash(H, leaf), Init(path)))
  }

  function Root(H: Hash, t: Tree): Digest {
    match t
    case Leaf(leaf) => LeafHash(H, leaf)
    case Node(l, r) => H(Root(H, l) + Root(H, r))
  }

  function Flags(path: seq<Step>): (fs: seq<bool>)
    ensures |fs| == |path|
    ensures forall i :: 0 <= i < |path| ==> fs[i] == path[i].left
  {
    seq(|path|, i requires 0 <= i < |path| => path[i].left)
  }

  /** The leaf at a position and the path that leads from it to the root, if the position is a leaf. */
  function ProofFor(H: Hash, t: Tree, flags: seq<bool>): Option<(CcfLeaf, seq<Step>)> {
    match t
    case Leaf(leaf) => if flags == [] then Some((leaf, [])) else None
    case Node(l, r) =>
      if flags == [] then None else
      var (child, sibling) := if Last(flags) then (r, l) else (l, r);
      match ProofFor(H, child, Init(flags))
      case None => None
      case Some((leaf, path)) => Some((leaf, path + [Step(Last(flags), Root(H, sibling))]))
  }

  /* Collisions */

  predicate IsCollision(H: Hash, x: Bytes, y: Bytes) {
    x != y && H(x) == H(y)
  }

  function TreePreimages(H: Hash, t: Tree): set<Bytes> {
    match t
    case Leaf(leaf) => {LeafPreimage(H, leaf), leaf.evidence}
    case Node(l, r) => {Root(H, l) + Root(H, r)} + TreePreimages(H, l) + TreePreimages(H, r)
  }

  function ProofPreimages(H: Hash, leaf: CcfLeaf, path: seq<Step>): set<Bytes> {
    if path == [] then {LeafPreimage(H, leaf), leaf.evidence} else
    {LastPreimage(H, leaf, path)} + ProofPreimages(H, leaf, Init(path))
  }

  function CompareLeaves(H: Hash, a: CcfLeaf, b: CcfLeaf): Option<(Bytes, Bytes)> {
    if a == b then None
    else if LeafPreimage(H, a) != LeafPreimage(H, b) then Some((LeafPreimage(H, a), LeafPreimage(H, b)))
    else Some((a.evidence, b.evidence))
  }

  /** Walks tree and proof down from the root and returns the first two different byte strings
      hashed at the same place. */
  function CompareWithTree(H: Hash, t: Tree, leaf: CcfLeaf, path: seq<Step>): Option<(Bytes, Bytes)> {
    match t
    case Leaf(own) =>
      if path == [] then CompareLeaves(H, own, leaf)
      else Some((LeafPreimage(H, own), LastPreimage(H, leaf, path)))
    case Node(l, r) =>
      var own, other := Root(H, l) + Root(H, r), LastPreimage(H, leaf, path);
      if path == [] || own != other then Some((own, other))
      else CompareWithTree(H, if Last(path).left then r else l, leaf, Init(path))
  }

  function CompareProofs(H: Hash, leaf1: CcfLeaf, path1: seq<Step>, leaf2: CcfLeaf, path2: seq<Step>)
    : Option<(Bytes, Bytes)>
    decreases |path1|
  {
    if path1 == [] && path2 == [] then CompareLeaves(H, leaf1, leaf2) else
    var x1 := LastPreimage(H, leaf1, path1);
    var x2 := LastPreimage(H, leaf2, path2);
    if x1 != x2 then Some((x1, x2))
    else if path1 == [] || path2 == [] || Last(path1).left != Last(path2).left then None
    else CompareProofs(H, leaf1, Init(path1), leaf2, Init(path2))
  }

  lemma LeafPreimageParts(H: Hash, a: CcfLeaf, b: CcfLeaf)
    requires LeafPreimage(H, a) == LeafPreimage(H, b)
    ensures a.tx == b.tx && H(a.evidence) == H(b.evidence) && a.dataHash == b.dataHash
  {
    var x, y := LeafPreimage(H, a), LeafPreimage(H, b);
    assert a.tx == x[..32] == y[..32] == b.tx;
    assert H(a.evidence) == x[32..64] == y[32..64] == H(b.evidence);
    assert a.dataHash == x[64..] == y[64..] == b.dataHash;
  }

  lemma CompareLeavesFindsCollision(H: Hash, a: CcfLeaf, b: CcfLeaf)
    requires LeafHash(H, a) == LeafHash(H, b)
    ensures match CompareLeaves(H, a, b)
            case None => a == b
            case Some((x, y)) => IsCollision(H, x, y)
  {
    if a != b && LeafPreimage(H, a) == LeafPreimage(H, b) {
      LeafPreimageParts(H, a, b);
    }
  }

  lemma HalvesEqual(a: Digest, b: Digest, c: Digest, d: Digest)
    requires a + b == c + d
    ensures a == c && b == d
  {
    assert a == (a + b)[..32] == (c + d)[..32] == c;
    assert b == (a + b)[32..] == (c + d)[32..] == d;
  }

  /** Soundness: a proof that folds to the root of a tree is the tree's own proof of the leaf at that
      very position, or the comparison yields two colliding strings, one hashed by the tree and one
      hashed by the verifier. */
  lemma {:induction false} Soundness(H: Hash, t: Tree, leaf: CcfLeaf, path: seq<Step>)
    requires Fold(H, LeafHash(H, leaf), path) == Root(H, t)
    ensures match CompareWithTree(H, t, leaf, path)
            case None => ProofFor(H, t, Flags(path)) == Some((leaf, path))
            case Some((x, y)) =>
              IsCollision(H, x, y) && x in TreePreimages(H, t) && y in ProofPreimages(H, leaf, path)
  {
    if path != [] && t.Node? {
      var step, h := Last(path), Fold(H, LeafHash(H, leaf), Init(path));
      if Root(H, t.l) + Root(H, t.r) == StepPreimage(step, h) {
        if step.left {
          HalvesEqual(Root(H, t.l), Root(H, t.r), step.sibling, h);
          Soundness(H, t.r, leaf, Init(path));
        } else {
          HalvesEqual(Root(H, t.l), Root(H, t.r), h, step.sibling);
          Soundness(H, t.l, leaf, Init(path));
        }
        assert Init(Flags(path)) == Flags(Init(path));
      }
    } else if path == [] && t.Leaf? {
      CompareLeavesFindsCollision(H, t.leaf, leaf);
    }
  }

  /** One more step at the end of a path. */
  lemma ExtendedPath(H: Hash, h: Digest, path: seq<Step>, step: Step)
    ensures Fold(H, h, path + [step]) == H(StepPreimage(step, Fold(H, h, path)))
    ensures Flags(path + [step]) == Flags(path) + [step.left]
  {
    assert Init(path + [step]) == path;
  }

  /** Completeness: every proof read off a tree folds to its root and carries the flags asked for. */
  lemma {:induction false} Completeness(H: Hash, t: Tree, flags: seq<bool>)
    ensures match ProofFor(H, t, flags)
            case None => true
            case Some((leaf, path)) => Flags(path) == flags && Fold(H, LeafHash(H, leaf), path) == Root(H, t)
  {
    if t.Node? && flags != [] {
      var (child, sibling) := if Last(flags) then (t.r, t.l) else (t.l, t.r);
      Completeness(H, child, Init(flags));
      if ProofFor(H, child, Init(flags)).Some? {
        var (leaf, path) := ProofFor(H, child, Init(flags)).value;
        ExtendedPath(H, LeafHash(H, leaf), path, Step(Last(flags), Root(H, sibling)));
      }
    }
  }

  ghost predicate ProperSuffix<T>(a: seq<T>, b: seq<T>) {
    |a| < |b| && b[|b| - |a|..] == a
  }

  lemma ProperSuffixInit<T>(a: seq<T>, b: seq<T>)
    requires a != [] && ProperSuffix(a, b)
    ensures Last(a) == Last(b) && ProperSuffix(Init(a), Init(b))
  {
    assert Init(b)[|b| - |a|..] == Init(b[|b| - |a|..]);
  }

  lemma FlagsStep(path1: seq<Step>, path2: seq<Step>)
    requires path1 != [] && path2 != []
    ensures ProperSuffix(Flags(path1), Flags(path2)) ==>
              Last(path1).left == Last(path2).left && ProperSuffix(Flags(Init(path1)), Flags(Init(path2)))
    ensures Flags(path1) == Flags(path2) ==>
              Last(path1).left == Last(path2).left && Flags(Init(path1)) == Flags(Init(path2))
  {
    var f1, f2 := Flags(path1), Flags(path2);
    assert Init(f1) == Flags(Init(path1)) && Init(f2) == Flags(Init(path2));
    if ProperSuffix(f1, f2) {
      ProperSuffixInit(f1, f2);
    }
  }

  /** Positions with one root are prefix-free, with no tree assumed: of two proofs with the same
      root neither leaf stands on the other's path, and proofs with equal flags are equal. */
  lemma {:induction false} PositionsPrefixFree(
    H: Hash, leaf1: CcfLeaf, path1: seq<Step>, leaf2: CcfLeaf, path2: seq<Step>)
    requires Fold(H, LeafHash(H, leaf1), path1) == Fold(H, LeafHash(H, leaf2), path2)
    ensures match CompareProofs(H, leaf1, path1, leaf2, path2)
            case None =>
              && !ProperSuffix(Flags(path1), Flags(path2))
              && !ProperSuffix(Flags(path2), Flags(path1))
              && (Flags(path1) == Flags(path2) ==> leaf1 == leaf2 && path1 == path2)
            case Some((x, y)) =>
              IsCollision(H, x, y) && x in ProofPreimages(H, leaf1, path1) && y in ProofPreimages(H, leaf2, path2)
    decreases |path1|
  {
    if path1 == [] && path2 == [] {
      CompareLeavesFindsCollision(H, leaf1, leaf2);
    } else if path1 != [] && path2 != [] {
      var h1, h2 := Fold(H, LeafHash(H, leaf1), Init(path1)), Fold(H, LeafHash(H, leaf2), Init(path2));
      var s1, s2 := Last(path1), Last(path2);
      if StepPreimage(s1, h1) == StepPreimage(s2, h2) {
        if s1.left == s2.left {
          if s1.left {
            HalvesEqual(s1.sibling, h1, s2.sibling, h2);
          } else {
            HalvesEqual(h1, s1.sibling, h2, s2.sibling);
          }
          PositionsPrefixFree(H, leaf1, Init(path1), leaf2, Init(path2));
        }
        FlagsStep(path1, path2);
        FlagsStep(path2, path1);
      }
    }
  }
}
