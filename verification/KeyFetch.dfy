/** Where the keys for a set of receipts come from: one JWKS per issuer, merged so that no key ID
    can stand for keys of two issuers; and the receipt checks of the command line tool. */
module KeyFetch {
  import opened Basics
  import opened PublicKeys
  import opened MerkleTree
  import opened Jwk
  import opened KeySets
  import opened IssuerHost
  import opened Receipts
  import opened Envelope
  import opened CborValue
  import CcfProof

  type Equal = (PublicKey, PublicKey) -> bool

  /* The keys of one issuer */

  /** The first key listed under a key ID. */
  function FirstKey(keys: seq<JsonWebKey>, kid: Bytes): Option<PublicKey> {
    if keys == [] then None else
    var before := FirstKey(keys[..|keys| - 1], kid);
    if before.Some? || keys[|keys| - 1].kid != kid then before else JwkToPublicKey(keys[|keys| - 1])
  }

  /** A listed key decodes and equals the first one of its key ID. */
  ghost predicate ConsistentAt(equal: Equal, keys: seq<JsonWebKey>, k: JsonWebKey) {
    && JwkToPublicKey(k).Some? && FirstKey(keys, k.kid).Some?
    && equal(FirstKey(keys, k.kid).value, JwkToPublicKey(k).value)
  }

  ghost predicate Consistent(equal: Equal, keys: seq<JsonWebKey>) {
    forall k <- keys :: ConsistentAt(equal, keys, k)
  }

  ghost function FirstKeys(keys: seq<JsonWebKey>): KeyMap {
    map kid | kid in (set k <- keys :: k.kid) && FirstKey(keys, kid).Some? :: FirstKey(keys, kid).value
  }

  lemma {:induction false} FirstKeyStays(a: seq<JsonWebKey>, b: seq<JsonWebKey>, kid: Bytes)
    requires FirstKey(a, kid).Some?
    ensures FirstKey(a + b, kid) == FirstKey(a, kid)
  {
    if b == [] {
      assert a + b == a;
    } else {
      FirstKeyStays(a, b[..|b| - 1], kid);
      assert (a + b)[..|a + b| - 1] == a + b[..|b| - 1];
    }
  }

  lemma FirstKeyStep(keys: seq<JsonWebKey>, i: nat, kid: Bytes)
    requires i < |keys|
    ensures FirstKey(keys[..i + 1], kid) ==
            if FirstKey(keys[..i], kid).Some? || keys[i].kid != kid then FirstKey(keys[..i], kid)
            else JwkToPublicKey(keys[i])
    ensures FirstKey(keys[..i + 1], kid).Some? ==> FirstKey(keys, kid) == FirstKey(keys[..i + 1], kid)
  {
    assert keys[..i + 1][..i] == keys[..i];
    if FirstKey(keys[..i + 1], kid).Some? {
      FirstKeyStays(keys[..i + 1], keys[i + 1..], kid);
      assert keys[..i + 1] + keys[i + 1..] == keys;
    }
  }

  /** The map and the list after the first `i` keys. */
  ghost predicate Collected(keys: seq<JsonWebKey>, i: nat, outMap: KeyMap, outList: seq<KidKey>)
    requires i <= |keys|
  {
    && (forall kid :: kid in outMap <==> FirstKey(keys[..i], kid).Some?)
    && (forall kid :: kid in outMap ==> outMap[kid] == FirstKey(keys[..i], kid).value)
    && DistinctKids(outList) && Holds(outMap, outList) && |outList| <= i
  }

  lemma FirstKeySteps(keys: seq<JsonWebKey>, i: nat)
    requires i < |keys|
    ensures forall kid :: FirstKey(keys[..i + 1], kid) ==
              if FirstKey(keys[..i], kid).Some? || keys[i].kid != kid then FirstKey(keys[..i], kid)
              else JwkToPublicKey(keys[i])
  {
    forall kid {
      FirstKeyStep(keys, i, kid);
    }
  }

  lemma {:induction false} CollectedOneMore(
    keys: seq<JsonWebKey>, i: nat, outMap: KeyMap, outList: seq<KidKey>, pub: PublicKey)
    requires i < |keys| && Collected(keys, i, outMap, outList) && JwkToPublicKey(keys[i]) == Some(pub)
    ensures var kid := keys[i].kid;
            && FirstKey(keys, kid) == Some(if kid in outMap then outMap[kid] else pub)
            && if kid in outMap then Collected(keys, i + 1, outMap, outList)
               else Collected(keys, i + 1, outMap[kid := pub], outList + [KidKey(kid, pub)])
  {
    FirstKeySteps(keys, i);
    FirstKeyStep(keys, i, keys[i].kid);
    if keys[i].kid !in outMap {
      HoldsOneMore(outMap, outList, KidKey(keys[i].kid, pub));
    }
  }

  lemma HoldsOneMore(m: KeyMap, list: seq<KidKey>, k: KidKey)
    requires Holds(m, list) && DistinctKids(list) && k.kid !in m
    ensures Holds(m[k.kid := k.key], list + [k]) && DistinctKids(list + [k])
  {
    assert forall x <- list :: x.kid in m;
    assert KidsOf(list + [k]) == KidsOf(list) + {k.kid};
  }

  lemma CollectedAll(keys: seq<JsonWebKey>, outMap: KeyMap, outList: seq<KidKey>)
    requires Collected(keys, |keys|, outMap, outList)
    ensures outMap == FirstKeys(keys)
  {
    assert keys[..|keys|] == keys;
    forall kid ensures FirstKey(keys, kid).Some? ==> kid in (set k <- keys :: k.kid) {
      FirstKeyListed(keys, kid);
    }
  }

  lemma {:induction false} FirstKeyListed(keys: seq<JsonWebKey>, kid: Bytes)
    ensures FirstKey(keys, kid).Some? ==> exists k <- keys :: k.kid == kid
  {
    if keys != [] {
      FirstKeyListed(keys[..|keys| - 1], kid);
      assert keys[|keys| - 1] in keys;
      if exists k <- keys[..|keys| - 1] :: k.kid == kid {
        var k :| k in keys[..|keys| - 1] && k.kid == kid;
        assert k in keys;
      }
    }
  }

  /** Builds map and list; a key that repeats an earlier one is skipped, a conflicting one is an error.
      On success the list has distinct key IDs and the map is the list's map. */
  method CollectKeys(equal: Equal, keys: seq<JsonWebKey>) returns (r: Result<(KeyMap, seq<KidKey>)>)
    requires forall a :: equal(a, a)
    ensures !r.Panic? && (r.Ok? <==> Consistent(equal, keys))
    ensures r.Ok? ==> r.value.0 == FirstKeys(keys) && DistinctKids(r.value.1) && Holds(r.value.0, r.value.1)
    ensures r.Ok? ==> |r.value.1| <= |keys|
  {
    var outMap: KeyMap := map[];
    var outList: seq<KidKey> := [];
    for i := 0 to |keys|
      invariant Collected(keys, i, outMap, outList)
      invariant forall k <- keys[..i] :: ConsistentAt(equal, keys, k)
    {
      var k := keys[i];
      assert k in keys;
      assert keys[..i + 1] == keys[..i] + [k];
      var decoded := JwkToPublicKey(k);
      if decoded.None? { return Error; }
      var pub := decoded.value;
      CollectedOneMore(keys, i, outMap, outList, pub);
      if k.kid in outMap {
        if !equal(outMap[k.kid], pub) { return Error; }
        continue;
      }
      outMap := outMap[k.kid := pub];
      outList := outList + [KidKey(k.kid, pub)];
    }
    assert keys[..|keys|] == keys;
    CollectedAll(keys, outMap, outList);
    r := Ok((outMap, outList));
  }

  /** The network as the program meets it: the key list an issuer serves, if it can be had. */
  type Remote = Bytes -> Option<seq<JsonWebKey>>

  /** The foreign parts of a fetch: lower-casing, the `Equal` method of public keys, the network. */
  datatype World = World(lower: LowerCase, equal: Equal, remote: Remote)

  ghost predicate Reflexive(w: World) {
    forall a :: w.equal(a, a)
  }

  /** The key list of an acceptable host, if it can be had and is consistent. */
  ghost function Served(w: World, allowed: seq<Bytes>, issuer: Bytes): Option<seq<JsonWebKey>> {
    if Acceptable(w.lower, issuer, allowed) && w.remote(issuer).Some? && Consistent(w.equal, w.remote(issuer).value)
    then w.remote(issuer) else None
  }

  /** Where the keys of an issuer come from: preloaded, or fetched from an acceptable host. */
  ghost function IssuerKeys(w: World, preloaded: map<Bytes, KeyMap>, allowed: seq<Bytes>, issuer: Bytes): Option<KeyMap>
  {
    if issuer in preloaded then Some(preloaded[issuer]) else
    match Served(w, allowed, issuer)
    case None => None
    case Some(jwks) => Some(FirstKeys(jwks))
  }

  /** The keys of an issuer as a map and as a list. */
  method FetchIssuerJwks(w: World, allowed: seq<Bytes>, issuer: Bytes) returns (r: Option<(KeyMap, seq<KidKey>)>)
    requires Reflexive(w)
    ensures r.Some? <==> Served(w, allowed, issuer).Some?
    ensures r.Some? ==> r.value.0 == FirstKeys(Served(w, allowed, issuer).value)
    ensures r.Some? ==> DistinctKids(r.value.1) && Holds(r.value.0, r.value.1)
    ensures r.Some? ==> |r.value.1| <= |Served(w, allowed, issuer).value|
  {
    var host := ValidateIssuer(w.lower, issuer, allowed);
    if !host.Ok? { return None; }
    var body := w.remote(host.value);
    if body.None? { return None; }
    var collected := CollectKeys(w.equal, body.value);
    if !collected.Ok? { return None; }
    r := Some(collected.value);
  }

  method FetchIssuerKeys(w: World, preloaded: map<Bytes, KeyMap>, allowed: seq<Bytes>, issuer: Bytes)
    returns (r: Option<KeyMap>)
    requires Reflexive(w)
    ensures r == IssuerKeys(w, preloaded, allowed, issuer)
  {
    if issuer in preloaded { return Some(preloaded[issuer]); }
    var fetched := FetchIssuerJwks(w, allowed, issuer);
    if fetched.None? { return None; }
    r := Some(fetched.value.0);
  }

  /* Merging */

  ghost function Issuers(receipts: seq<ParsedReceipt>): set<Bytes> {
    set r <- receipts :: r.issuer
  }

  /** Where the keys of each issuer are to be had. */
  type KeySource = Bytes -> Option<KeyMap>

  ghost predicate Owns(lookup: KeySource, issuer: Bytes, kid: Bytes) {
    lookup(issuer).Some? && kid in lookup(issuer).value
  }

  /** Every issuer has a name and keys, and no key ID belongs to two of them. */
  ghost predicate Mergeable(lookup: KeySource, issuers: set<Bytes>) {
    && [] !in issuers
    && (forall i <- issuers :: lookup(i).Some?)
    && forall i, j, kid :: i in issuers && j in issuers && Owns(lookup, i, kid) && Owns(lookup, j, kid) ==> i == j
  }

  /** `keys` is the union of the issuers' keys. */
  ghost predicate IsUnion(lookup: KeySource, issuers: set<Bytes>, keys: KeyMap) {
    && (forall i, kid :: i in issuers && Owns(lookup, i, kid) ==> kid in keys && keys[kid] == lookup(i).value[kid])
    && forall kid :: kid in keys ==> exists i :: i in issuers && Owns(lookup, i, kid)
  }

  /** What a fetch for the receipts may return: the disjoint union of the keys of their issuers. */
  ghost predicate Fetched(lookup: KeySource, receipts: seq<ParsedReceipt>, r: Option<KeyMap>) {
    && (r.Some? <==> Mergeable(lookup, Issuers(receipts)))
    && (r.Some? ==> IsUnion(lookup, Issuers(receipts), r.value))
  }

  ghost function Lookup(w: World, preloaded: map<Bytes, KeyMap>, allowed: seq<Bytes>): KeySource {
    issuer => IssuerKeys(w, preloaded, allowed, issuer)
  }

  /** Adds the keys of one issuer, in whatever order the map yields them. */
  method AddKeys(keys: KeyMap, issuerKeys: KeyMap) returns (r: Option<KeyMap>)
    ensures r.Some? <==> forall kid :: kid in keys ==> kid !in issuerKeys
    ensures r.Some? ==> r.value == keys + issuerKeys
  {
    var out := keys;
    var todo := issuerKeys.Keys;
    while todo != {}
      invariant todo <= issuerKeys.Keys
      invariant forall kid :: kid in keys ==> kid in issuerKeys ==> kid in todo
      invariant out.Keys == keys.Keys + (issuerKeys.Keys - todo)
      invariant forall kid :: kid in out ==> out[kid] == if kid in keys then keys[kid] else issuerKeys[kid]
      decreases |todo|
    {
      var kid :| kid in todo;
      todo := todo - {kid};
      if kid in out { return None; }
      out := out[kid := issuerKeys[kid]];
    }
    r := Some(out);
  }

  method FetchReceiptKeys(w: World, preloaded: map<Bytes, KeyMap>, allowed: seq<Bytes>, receipts: seq<ParsedReceipt>)
    returns (r: Option<KeyMap>)
    requires Reflexive(w)
    ensures Fetched(Lookup(w, preloaded, allowed), receipts, r)
  {
    ghost var lookup := Lookup(w, preloaded, allowed);
    var seen: set<Bytes> := {};
    var keys: KeyMap := map[];
    for i := 0 to |receipts|
      invariant seen == Issuers(receipts[..i])
      invariant Mergeable(lookup, seen) && IsUnion(lookup, seen, keys)
    {
      var issuer := receipts[i].issuer;
      assert receipts[i] in receipts && issuer in Issuers(receipts);
      assert receipts[..i + 1] == receipts[..i] + [receipts[i]];
      assert seen <= Issuers(receipts);
      if issuer == [] { return None; }
      if issuer in seen { continue; }
      var issuerKeys := FetchIssuerKeys(w, preloaded, allowed, issuer);
      if issuerKeys.None? {
        assert lookup(issuer).None?;
        return None;
      }
      var added := AddKeys(keys, issuerKeys.value);
      assert lookup(issuer) == issuerKeys;
      if added.None? {
        NotMergeable(lookup, seen, keys, issuer, Issuers(receipts));
        return None;
      }
      UnionOneMore(lookup, seen, keys, issuer);
      seen := seen + {issuer};
      keys := added.value;
    }
    assert receipts[..|receipts|] == receipts;
    r := Some(keys);
  }

  lemma NotMergeable(lookup: KeySource, seen: set<Bytes>, keys: KeyMap, issuer: Bytes, all: set<Bytes>)
    requires IsUnion(lookup, seen, keys) && issuer !in seen && lookup(issuer).Some?
    requires exists kid :: kid in keys && kid in lookup(issuer).value
    requires seen <= all && issuer in all
    ensures !Mergeable(lookup, all)
  {
    var kid :| kid in keys && kid in lookup(issuer).value;
    var i :| i in seen && Owns(lookup, i, kid);
    assert Owns(lookup, issuer, kid) && i in all;
  }

  lemma UnionOneMore(lookup: KeySource, seen: set<Bytes>, keys: KeyMap, issuer: Bytes)
    requires Mergeable(lookup, seen) && IsUnion(lookup, seen, keys)
    requires issuer !in seen && issuer != [] && lookup(issuer).Some?
    requires forall kid :: kid in keys ==> kid !in lookup(issuer).value
    ensures Mergeable(lookup, seen + {issuer}) && IsUnion(lookup, seen + {issuer}, keys + lookup(issuer).value)
  {
    var own := lookup(issuer).value;
    forall kid | kid in keys + own ensures exists i :: i in seen + {issuer} && Owns(lookup, i, kid) {
      if kid in own {
        assert Owns(lookup, issuer, kid);
      } else {
        var i :| i in seen && Owns(lookup, i, kid);
        assert i in seen + {issuer};
      }
    }
  }

  lemma UnionUnique(lookup: KeySource, issuers: set<Bytes>, a: KeyMap, b: KeyMap)
    requires IsUnion(lookup, issuers, a) && IsUnion(lookup, issuers, b)
    ensures a == b
  {
    forall kid | kid in a ensures kid in b && a[kid] == b[kid] {
      var i :| i in issuers && Owns(lookup, i, kid);
    }
    forall kid | kid in b ensures kid in a {
      var i :| i in issuers && Owns(lookup, i, kid);
    }
  }

  /** The result depends on the set of issuers only: not on the order of the receipts, nor on how
      often an issuer occurs, nor on the order in which the maps are walked. */
  lemma FetchDeterministic(lookup: KeySource, receipts1: seq<ParsedReceipt>, receipts2: seq<ParsedReceipt>,
                           r1: Option<KeyMap>, r2: Option<KeyMap>)
    requires Fetched(lookup, receipts1, r1) && Fetched(lookup, receipts2, r2)
    requires Issuers(receipts1) == Issuers(receipts2)
    ensures r1 == r2
  {
    if r1.Some? {
      UnionUnique(lookup, Issuers(receipts1), r1.value, r2.value);
    }
  }

  /** Each merged key is the key of one issuer only. */
  lemma KeyTraceable(lookup: KeySource, receipts: seq<ParsedReceipt>, keys: KeyMap, kid: Bytes)
    requires Fetched(lookup, receipts, Some(keys)) && kid in keys
    ensures exists i :: i in Issuers(receipts) && Owns(lookup, i, kid) && lookup(i).value[kid] == keys[kid]
                        && forall j :: j in Issuers(receipts) && Owns(lookup, j, kid) ==> j == i
  {
    var i :| i in Issuers(receipts) && Owns(lookup, i, kid);
    assert lookup(i).value[kid] == keys[kid];
  }

  /* The receipt checks of the command line tool */

  datatype Options = Options(
    validateReceipts: bool,
    allowed: seq<Bytes>,
    requireFrom: Bytes,
    preloaded: map<Bytes, KeyMap>)

  /** The receipts of one issuer, in order. */
  function From(receipts: seq<ParsedReceipt>, issuer: Bytes): seq<ParsedReceipt> {
    if receipts == [] then [] else
    var last := receipts[|receipts| - 1];
    From(receipts[..|receipts| - 1], issuer) + if last.issuer == issuer then [last] else []
  }

  lemma {:induction false} FromMembers(receipts: seq<ParsedReceipt>, issuer: Bytes)
    ensures forall r :: r in From(receipts, issuer) <==> r in receipts && r.issuer == issuer
  {
    if receipts != [] {
      FromMembers(receipts[..|receipts| - 1], issuer);
      assert receipts == receipts[..|receipts| - 1] + [receipts[|receipts| - 1]];
    }
  }

  /** The matching receipts with their places in the list. */
  method SelectMatching(receipts: seq<ParsedReceipt>, issuer: Bytes)
    returns (matching: seq<ParsedReceipt>, matchingIdx: seq<nat>)
    ensures matching == From(receipts, issuer)
    ensures |matchingIdx| == |matching|
    ensures forall n :: 0 <= n < |matching| ==> matchingIdx[n] < |receipts| && receipts[matchingIdx[n]] == matching[n]
    ensures forall n, m :: 0 <= n < m < |matching| ==> matchingIdx[n] < matchingIdx[m]
  {
    matching, matchingIdx := [], [];
    for i := 0 to |receipts|
      invariant matching == From(receipts[..i], issuer)
      invariant |matchingIdx| == |matching|
      invariant forall n :: 0 <= n < |matching| ==> matchingIdx[n] < i && receipts[matchingIdx[n]] == matching[n]
      invariant forall n, m :: 0 <= n < m < |matching| ==> matchingIdx[n] < matchingIdx[m]
    {
      assert receipts[..i + 1][..i] == receipts[..i];
      if receipts[i].issuer == issuer {
        matching := matching + [receipts[i]];
        matchingIdx := matchingIdx + [i];
      }
    }
    assert receipts[..|receipts|] == receipts;
  }

  method ValidateAll(H: Hash, c: Cose, receipts: seq<ParsedReceipt>, keys: KeyMap) returns (ok: bool)
    ensures ok <==> forall r <- receipts :: Accepts(H, c, r, keys)
  {
    for i := 0 to |receipts|
      invariant forall j :: 0 <= j < i ==> Accepts(H, c, receipts[j], keys)
    {
      var valid := Validate(H, c, receipts[i], keys);
      if !valid {
        assert receipts[i] in receipts;
        return false;
      }
    }
    ok := true;
  }

  /** With a required issuer: some receipt names it, its keys can be had, and all its receipts are
      accepted under its keys. */
  ghost predicate RequirementMet(H: Hash, c: Cose, lookup: KeySource, receipts: seq<ParsedReceipt>, issuer: Bytes) {
    && lookup(issuer).Some?
    && (exists r <- receipts :: r.issuer == issuer)
    && forall r <- receipts :: r.issuer == issuer ==> Accepts(H, c, r, lookup(issuer).value)
  }

  lemma SoleIssuer(lookup: KeySource, issuer: Bytes, keys: KeyMap)
    requires Mergeable(lookup, {issuer}) && IsUnion(lookup, {issuer}, keys)
    ensures lookup(issuer).Some? && keys == lookup(issuer).value
  {
    assert forall kid :: kid in lookup(issuer).value <==> Owns(lookup, issuer, kid);
  }

  /** Only receipts of the required issuer count, and only that issuer may be asked for keys. */
  method CheckRequired(
    H: Hash, c: Cose, w: World, preloaded: map<Bytes, KeyMap>, issuer: Bytes, receipts: seq<ParsedReceipt>)
    returns (ok: bool)
    requires Reflexive(w) && issuer != []
    ensures ok <==> RequirementMet(H, c, Lookup(w, preloaded, [issuer]), receipts, issuer)
  {
    var allowed := [issuer];
    ghost var lookup := Lookup(w, preloaded, allowed);
    var matching, matchingIdx := SelectMatching(receipts, issuer);
    FromMembers(receipts, issuer);
    if |matching| == 0 {
      assert forall r <- receipts :: r in matching <==> r.issuer == issuer;
      return false;
    }
    assert matching[0] in matching;
    var keys := FetchReceiptKeys(w, preloaded, allowed, matching);
    assert Issuers(matching) == {issuer};
    if keys.None? { return false; }
    SoleIssuer(lookup, issuer, keys.value);
    ok := ValidateAll(H, c, matching, keys.value);
  }

  /** The receipt part of the check. A required issuer takes precedence, but only while there are
      receipts at all: an envelope without any passes. */
  method CheckReceipts(H: Hash, c: Cose, w: World, opts: Options, receipts: seq<ParsedReceipt>) returns (ok: bool)
    requires Reflexive(w)
    ensures opts.requireFrom != [] && receipts != [] ==>
              (ok <==> RequirementMet(H, c, Lookup(w, opts.preloaded, [opts.requireFrom]), receipts, opts.requireFrom))
    ensures opts.requireFrom == [] && opts.validateReceipts && receipts != [] ==>
              (ok <==> exists keys :: Fetched(Lookup(w, opts.preloaded, opts.allowed), receipts, Some(keys))
                                      && forall r <- receipts :: Accepts(H, c, r, keys))
    ensures receipts == [] || (opts.requireFrom == [] && !opts.validateReceipts) ==> ok
  {
    if opts.requireFrom != [] && |receipts| > 0 {
      ok := CheckRequired(H, c, w, opts.preloaded, opts.requireFrom, receipts);
    } else if opts.validateReceipts && |receipts| > 0 {
      ghost var lookup := Lookup(w, opts.preloaded, opts.allowed);
      var keys := FetchReceiptKeys(w, opts.preloaded, opts.allowed, receipts);
      if keys.None? { return false; }
      ok := ValidateAll(H, c, receipts, keys.value);
      if exists other :: Fetched(lookup, receipts, Some(other)) && forall r <- receipts :: Accepts(H, c, r, other) {
        var other :| Fetched(lookup, receipts, Some(other)) && forall r <- receipts :: Accepts(H, c, r, other);
        FetchDeterministic(lookup, receipts, receipts, keys, Some(other));
      }
    } else {
      ok := true;
    }
  }

  /** End to end: where the requirement is met, the envelope has a receipt of the issuer, that receipt has
      a proof, and every proof of every such receipt whose root is that of a ledger shows that the
      ledger holds this very envelope. */
  lemma RequiredMeansRegistered(H: Hash, c: Cose, lookup: KeySource, issuer: Bytes, raw: Bytes,
                                receipts: seq<ParsedReceipt>, t: Tree, registered: Bytes)
    requires |raw| < MAX_LEN && |registered| < MAX_LEN
    requires UnpackedFrom(H, c, raw, receipts) && RequirementMet(H, c, lookup, receipts, issuer)
    ensures StatementHash(H, raw).Some? && lookup(issuer).Some?
    ensures exists r <- receipts :: r.issuer == issuer && InclusionProofs(r.message).Some?
                                    && InclusionProofs(r.message).value != []
    ensures forall r <- receipts :: r.issuer == issuer ==>
              ShowsRegistered(H, c, r, lookup(issuer).value, t, raw, registered)
  {
    var some :| some in receipts && some.issuer == issuer;
    assert Accepts(H, c, some, lookup(issuer).value);
    forall r <- receipts | r.issuer == issuer
      ensures ShowsRegistered(H, c, r, lookup(issuer).value, t, raw, registered)
    {
      ReceiptShowsRegistered(H, c, lookup, issuer, raw, receipts, r, t, registered);
    }
  }

  /** All proofs of a receipt that lead to the ledger's root show the same thing about the envelope, and
      the root is signed with one of the keys. */
  ghost predicate ShowsRegistered(
    H: Hash, c: Cose, r: ParsedReceipt, keys: KeyMap, t: Tree, raw: Bytes, registered: Bytes)
    requires |raw| < MAX_LEN && |registered| < MAX_LEN && StatementHash(H, raw).Some?
  {
    && InclusionProofs(r.message).Some?
    && forall pv <- InclusionProofs(r.message).value ::
         && pv.VBytes? && CcfProof.DecodeProof(pv.b).Some?
         && (CcfProof.RootAndDataHash(H, pv.b).value.0 == Root(H, t) ==>
               && Signed(c, r, keys, Root(H, t))
               && Registered(H, t, CcfProof.DecodeProof(pv.b).value, raw, registered))
  }

  lemma ReceiptShowsRegistered(H: Hash, c: Cose, lookup: KeySource, issuer: Bytes, raw: Bytes,
                               receipts: seq<ParsedReceipt>, r: ParsedReceipt, t: Tree, registered: Bytes)
    requires |raw| < MAX_LEN && |registered| < MAX_LEN
    requires UnpackedFrom(H, c, raw, receipts) && RequirementMet(H, c, lookup, receipts, issuer)
    requires r in receipts && r.issuer == issuer
    ensures StatementHash(H, raw).Some? && ShowsRegistered(H, c, r, lookup(issuer).value, t, raw, registered)
  {
    var n :| 0 <= n < |receipts| && receipts[n] == r;
    assert Accepts(H, c, r, lookup(issuer).value);
    assert r == BoundTo(H, r, raw);
    forall pv <- InclusionProofs(r.message).value
      ensures pv.VBytes? && CcfProof.DecodeProof(pv.b).Some?
      ensures CcfProof.RootAndDataHash(H, pv.b).value.0 == Root(H, t) ==>
                && Signed(c, r, lookup(issuer).value, Root(H, t))
                && Registered(H, t, CcfProof.DecodeProof(pv.b).value, raw, registered)
    {
      var i :| 0 <= i < |InclusionProofs(r.message).value| && InclusionProofs(r.message).value[i] == pv;
      AcceptedMeansRegistered(H, c, r, lookup(issuer).value, raw, t, i, registered);
    }
  }

  /** Two envelopes that carry the same receipts and both meet the requirement are the same statement,
      or their digest inputs collide. */
  lemma SharedReceipts(H: Hash, c: Cose, lookup1: KeySource, lookup2: KeySource,
                       issuer: Bytes, raw1: Bytes, raw2: Bytes, xs: seq<Value>,
                       receipts1: seq<ParsedReceipt>, receipts2: seq<ParsedReceipt>)
    requires |raw1| < MAX_LEN && |raw2| < MAX_LEN
    requires Unpacked(H, c, raw1, xs, receipts1) && Unpacked(H, c, raw2, xs, receipts2)
    requires RequirementMet(H, c, lookup1, receipts1, issuer) && RequirementMet(H, c, lookup2, receipts2, issuer)
    ensures DecodeFields(raw1).Some? && DecodeFields(raw2).Some?
    ensures SameOrCollide(H, DecodeFields(raw1).value, DecodeFields(raw2).value)
  {
    var r :| r in receipts1 && r.issuer == issuer;
    var i :| 0 <= i < |receipts1| && receipts1[i] == r;
    var parsed := ParseReceipt(c, xs[i]).value;
    assert receipts2[i] in receipts2 && receipts2[i].issuer == issuer;
    assert receipts1[i] == BoundTo(H, parsed, raw1) && receipts2[i] == BoundTo(H, parsed, raw2);
    ReceiptBinding(H, c, parsed, lookup1(issuer).value, lookup2(issuer).value, raw1, raw2);
  }

  /** The receipts of `donor` are written into `target`, which gives `out`. If donor and output both
      meet the requirement, donor and target are the same statement, or their digest inputs collide. */
  lemma GraftedReceipts(H: Hash, c: Cose, lookup1: KeySource, lookup2: KeySource,
                        issuer: Bytes, donor: Bytes, target: Bytes, out: Bytes,
                        receipts1: seq<ParsedReceipt>, receipts2: seq<ParsedReceipt>)
    requires LawfulCose(c) && |donor| < MAX_LEN && |target| < MAX_LEN && |out| < MAX_LEN
    requires ExtractReceipts(donor).Ok? && ExtractReceipts(donor).value.Some?
    requires Rewritten(target, ExtractReceipts(donor).value, out)
    requires UnpackedFrom(H, c, donor, receipts1) && UnpackedFrom(H, c, out, receipts2)
    requires RequirementMet(H, c, lookup1, receipts1, issuer) && RequirementMet(H, c, lookup2, receipts2, issuer)
    ensures SameOrCollide(H, DecodeFields(donor).value, DecodeFields(target).value)
  {
    var xs := ExtractReceipts(donor).value;
    ExtractAfterReplace(target, xs, out);
    UnpackedExtracted(H, c, donor, receipts1);
    UnpackedExtracted(H, c, out, receipts2);
    SharedReceipts(H, c, lookup1, lookup2, issuer, donor, out, xs.value, receipts1, receipts2);
    DecodedFieldsValid(target);
  }

  /* Which keys are used */

  /** Preloaded keys come first, whatever the network says; only without them is an acceptable issuer
      asked, and its first key of every key ID is taken. */
  lemma PreloadedFirst(w: World, preloaded: map<Bytes, KeyMap>, allowed: seq<Bytes>, issuer: Bytes)
    ensures issuer in preloaded ==> IssuerKeys(w, preloaded, allowed, issuer) == Some(preloaded[issuer])
    ensures issuer !in preloaded ==>
              (IssuerKeys(w, preloaded, allowed, issuer).Some? <==>
                 && Acceptable(w.lower, issuer, allowed)
                 && w.remote(issuer).Some? && Consistent(w.equal, w.remote(issuer).value))
    ensures issuer !in preloaded && IssuerKeys(w, preloaded, allowed, issuer).Some? ==>
              IssuerKeys(w, preloaded, allowed, issuer).value == FirstKeys(w.remote(issuer).value)
  {
  }

  /** The first key of a key ID is the one at its first place in the list. */
  lemma {:induction false} FirstKeyAt(keys: seq<JsonWebKey>, i: nat)
    requires i < |keys| && JwkToPublicKey(keys[i]).Some?
    requires forall j :: 0 <= j < i ==> keys[j].kid != keys[i].kid
    ensures FirstKey(keys, keys[i].kid) == JwkToPublicKey(keys[i])
  {
    FirstKeyListed(keys[..i], keys[i].kid);
    forall k <- keys[..i] ensures k.kid != keys[i].kid {
      var j :| 0 <= j < i && keys[j] == k;
    }
    FirstKeyStep(keys, i, keys[i].kid);
  }

  lemma AgreeingSources(lookup1: KeySource, lookup2: KeySource, receipts: seq<ParsedReceipt>, r: Option<KeyMap>)
    requires forall i <- Issuers(receipts) :: lookup1(i) == lookup2(i)
    ensures Fetched(lookup1, receipts, r) <==> Fetched(lookup2, receipts, r)
  {
    var issuers := Issuers(receipts);
    assert forall i, kid :: i in issuers ==> (Owns(lookup1, i, kid) <==> Owns(lookup2, i, kid));
    assert Mergeable(lookup1, issuers) <==> Mergeable(lookup2, issuers);
    if Fetched(lookup1, receipts, r) && r.Some? {
      UnionAgrees(lookup1, lookup2, issuers, r.value);
    }
    if Fetched(lookup2, receipts, r) && r.Some? {
      UnionAgrees(lookup2, lookup1, issuers, r.value);
    }
  }

  lemma UnionAgrees(lookup1: KeySource, lookup2: KeySource, issuers: set<Bytes>, keys: KeyMap)
    requires (forall i <- issuers :: lookup1(i) == lookup2(i)) && IsUnion(lookup1, issuers, keys)
    ensures IsUnion(lookup2, issuers, keys)
  {
    forall kid | kid in keys ensures exists i :: i in issuers && Owns(lookup2, i, kid) {
      var i :| i in issuers && Owns(lookup1, i, kid);
      assert Owns(lookup2, i, kid);
    }
    forall i, kid | i in issuers && Owns(lookup2, i, kid) ensures kid in keys && keys[kid] == lookup2(i).value[kid] {
      assert Owns(lookup1, i, kid);
    }
  }

  /** Hosts that are not asked cannot change the result: those of preloaded issuers, and all that the
      allow list keeps out. */
  lemma FetchIgnoresOthers(w1: World, w2: World, preloaded: map<Bytes, KeyMap>, allowed: seq<Bytes>,
                           receipts: seq<ParsedReceipt>, r: Option<KeyMap>)
    requires w1.lower == w2.lower && w1.equal == w2.equal
    requires forall i <- Issuers(receipts) ::
               i in preloaded || !Acceptable(w1.lower, i, allowed) || w1.remote(i) == w2.remote(i)
    ensures Fetched(Lookup(w1, preloaded, allowed), receipts, r)
            <==> Fetched(Lookup(w2, preloaded, allowed), receipts, r)
  {
    AgreeingSources(Lookup(w1, preloaded, allowed), Lookup(w2, preloaded, allowed), receipts, r);
  }

  /** With the keys of all issuers preloaded, neither the network nor the allow list has a say. */
  lemma FetchPreloaded(w1: World, w2: World, preloaded: map<Bytes, KeyMap>, allowed1: seq<Bytes>, allowed2: seq<Bytes>,
                       receipts: seq<ParsedReceipt>, r: Option<KeyMap>)
    requires forall i <- Issuers(receipts) :: i in preloaded
    ensures Fetched(Lookup(w1, preloaded, allowed1), receipts, r)
            <==> Fetched(Lookup(w2, preloaded, allowed2), receipts, r)
  {
    AgreeingSources(Lookup(w1, preloaded, allowed1), Lookup(w2, preloaded, allowed2), receipts, r);
  }

  /** Nor has the network in the check of a required issuer whose keys are preloaded. */
  lemma RequirementPreloaded(H: Hash, c: Cose, w1: World, w2: World, preloaded: map<Bytes, KeyMap>,
                             allowed1: seq<Bytes>, allowed2: seq<Bytes>, receipts: seq<ParsedReceipt>, issuer: Bytes)
    requires issuer in preloaded
    ensures RequirementMet(H, c, Lookup(w1, preloaded, allowed1), receipts, issuer)
            <==> (exists r <- receipts :: r.issuer == issuer)
                 && forall r <- receipts :: r.issuer == issuer ==> Accepts(H, c, r, preloaded[issuer])
    ensures RequirementMet(H, c, Lookup(w1, preloaded, allowed1), receipts, issuer)
            <==> RequirementMet(H, c, Lookup(w2, preloaded, allowed2), receipts, issuer)
  {
  }

  /** The fetch succeeds exactly when every receipt names an issuer with keys and no two issuers share a
      key ID; the result has all keys of all issuers and no others. */
  lemma FetchExact(lookup: KeySource, receipts: seq<ParsedReceipt>, r: Option<KeyMap>)
    requires Fetched(lookup, receipts, r)
    ensures r.Some? <==>
              && (forall a <- receipts :: a.issuer != [] && lookup(a.issuer).Some?)
              && forall a, b :: a in receipts && b in receipts && a.issuer != b.issuer ==>
                   lookup(a.issuer).value.Keys !! lookup(b.issuer).value.Keys
    ensures r.Some? ==> forall a <- receipts, kid <- lookup(a.issuer).value ::
              kid in r.value && r.value[kid] == lookup(a.issuer).value[kid]
    ensures r.Some? ==> forall kid <- r.value :: exists a <- receipts :: kid in lookup(a.issuer).value
  {
    assert forall a <- receipts :: a.issuer in Issuers(receipts);
    if r.Some? {
      forall a, b | a in receipts && b in receipts && a.issuer != b.issuer
        ensures lookup(a.issuer).value.Keys !! lookup(b.issuer).value.Keys
      {
        SeparateIssuers(lookup, receipts, a, b);
      }
      FetchedKeys(lookup, receipts, r.value);
    }
    if (forall a <- receipts :: a.issuer != [] && lookup(a.issuer).Some?)
       && forall a, b :: a in receipts && b in receipts && a.issuer != b.issuer ==>
            lookup(a.issuer).value.Keys !! lookup(b.issuer).value.Keys
    {
      SeparateMergeable(lookup, receipts);
    }
  }

  lemma SeparateIssuers(lookup: KeySource, receipts: seq<ParsedReceipt>, a: ParsedReceipt, b: ParsedReceipt)
    requires Mergeable(lookup, Issuers(receipts)) && a in receipts && b in receipts && a.issuer != b.issuer
    ensures lookup(a.issuer).Some? && lookup(b.issuer).Some?
    ensures lookup(a.issuer).value.Keys !! lookup(b.issuer).value.Keys
  {
    assert a.issuer in Issuers(receipts) && b.issuer in Issuers(receipts);
    forall kid | kid in lookup(a.issuer).value ensures kid !in lookup(b.issuer).value {
      assert Owns(lookup, a.issuer, kid);
      assert kid in lookup(b.issuer).value ==> Owns(lookup, b.issuer, kid);
    }
  }

  lemma SeparateMergeable(lookup: KeySource, receipts: seq<ParsedReceipt>)
    requires forall a <- receipts :: a.issuer != [] && lookup(a.issuer).Some?
    requires forall a, b :: a in receipts && b in receipts && a.issuer != b.issuer ==>
               lookup(a.issuer).value.Keys !! lookup(b.issuer).value.Keys
    ensures Mergeable(lookup, Issuers(receipts))
  {
    var issuers := Issuers(receipts);
    forall i, j, kid | i in issuers && j in issuers && Owns(lookup, i, kid) && Owns(lookup, j, kid) ensures i == j {
      var a :| a in receipts && a.issuer == i;
      var b :| b in receipts && b.issuer == j;
      assert kid in lookup(a.issuer).value.Keys && kid in lookup(b.issuer).value.Keys;
    }
  }

  lemma FetchedKeys(lookup: KeySource, receipts: seq<ParsedReceipt>, keys: KeyMap)
    requires Mergeable(lookup, Issuers(receipts)) && IsUnion(lookup, Issuers(receipts), keys)
    ensures forall a <- receipts :: lookup(a.issuer).Some?
    ensures forall a <- receipts, kid <- lookup(a.issuer).value ::
              kid in keys && keys[kid] == lookup(a.issuer).value[kid]
    ensures forall kid <- keys :: exists a <- receipts :: kid in lookup(a.issuer).value
  {
    assert forall a <- receipts :: a.issuer in Issuers(receipts);
    forall a <- receipts, kid <- lookup(a.issuer).value
      ensures kid in keys && keys[kid] == lookup(a.issuer).value[kid]
    {
      assert Owns(lookup, a.issuer, kid);
    }
    forall kid <- keys ensures exists a <- receipts :: kid in lookup(a.issuer).value {
      var i :| i in Issuers(receipts) && Owns(lookup, i, kid);
      var a :| a in receipts && a.issuer == i;
    }
  }

  ghost predicate LawfulEqual(equal: Equal) {
    (forall a :: equal(a, a)) && forall a, b, c :: equal(a, b) && equal(a, c) ==> equal(b, c)
  }

  /** A key list is consistent exactly when all its keys decode and those of one key ID are Equal. */
  lemma ConsistentExact(equal: Equal, keys: seq<JsonWebKey>)
    requires LawfulEqual(equal)
    ensures Consistent(equal, keys) <==>
              && (forall i :: 0 <= i < |keys| ==> JwkToPublicKey(keys[i]).Some?)
              && forall i, j :: 0 <= i < |keys| && 0 <= j < |keys| && keys[i].kid == keys[j].kid ==>
                   EqualKeys(equal, keys[i], keys[j])
  {
    if Consistent(equal, keys) {
      forall i, j | 0 <= i < |keys| && 0 <= j < |keys| && keys[i].kid == keys[j].kid
        ensures EqualKeys(equal, keys[i], keys[j])
      {
        assert ConsistentAt(equal, keys, keys[i]) && ConsistentAt(equal, keys, keys[j]);
      }
    }
    if (forall i :: 0 <= i < |keys| ==> JwkToPublicKey(keys[i]).Some?)
       && forall i, j :: 0 <= i < |keys| && 0 <= j < |keys| && keys[i].kid == keys[j].kid ==>
            EqualKeys(equal, keys[i], keys[j])
    {
      forall k <- keys ensures ConsistentAt(equal, keys, k) {
        var i :| 0 <= i < |keys| && keys[i] == k;
        var n := FirstPlace(keys, i);
        FirstKeyAt(keys, n);
        assert EqualKeys(equal, keys[n], keys[i]);
      }
    }
  }

  ghost predicate EqualKeys(equal: Equal, a: JsonWebKey, b: JsonWebKey) {
    && JwkToPublicKey(a).Some? && JwkToPublicKey(b).Some?
    && equal(JwkToPublicKey(a).value, JwkToPublicKey(b).value)
  }

  lemma {:induction false} FirstPlace(keys: seq<JsonWebKey>, i: nat) returns (n: nat)
    requires i < |keys|
    ensures n <= i && keys[n].kid == keys[i].kid && forall j :: 0 <= j < n ==> keys[j].kid != keys[i].kid
  {
    if exists j :: 0 <= j < i && keys[j].kid == keys[i].kid {
      var j :| 0 <= j < i && keys[j].kid == keys[i].kid;
      n := FirstPlace(keys, j);
    } else {
      n := i;
    }
  }
}
