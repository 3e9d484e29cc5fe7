/** From the keys that ledgers serve to a Transparency Trust List, and what its reader gets. */
module TrustLists {
  import opened Basics
  import opened Utf8
  import opened PublicKeys
  import opened KeySets
  import opened IssuerHost
  import opened KeyFetch

  /** The keys of a ledger that is asked for with itself as the only allowed domain. */
  ghost function OwnKeys(w: World, ledger: Bytes): Option<KeyMap> {
    IssuerKeys(w, map[], [ledger], ledger)
  }

  /** Those keys, or none where they cannot be had. */
  ghost function ServedKeys(w: World, ledger: Bytes): KeyMap {
    match OwnKeys(w, ledger)
    case None => map[]
    case Some(keys) => keys
  }

  /** Slices and strings have a Go length. */
  ghost predicate Fit(w: World, ledgers: seq<Bytes>) {
    && |ledgers| < MAX_LEN
    && forall l <- ledgers :: |l| < MAX_LEN && (w.remote(l).Some? ==> |w.remote(l).value| < MAX_LEN)
  }

  predicate Distinct(ledgers: seq<Bytes>) {
    forall i, j :: 0 <= i < j < |ledgers| ==> ledgers[i] != ledgers[j]
  }

  ghost predicate Writable(codec: KeyCodec, keys: KeyMap) {
    keys != map[] && forall kid <- keys :: codec.encode(kid, keys[kid]).Some?
  }

  ghost predicate AllWritable(w: World, codec: KeyCodec, ledgers: seq<Bytes>) {
    forall l <- ledgers :: Writable(codec, ServedKeys(w, l))
  }

  function NameSet(ledgers: seq<Bytes>): set<Bytes> {
    set l <- ledgers
  }

  /** Each ledger with its keys that have a key ID, of which there must be one. */
  ghost function Listed(w: World, ledgers: seq<Bytes>): map<Bytes, Option<KeyMap>> {
    map l | l in NameSet(ledgers) :: NonEmpty(ServedKeys(w, l) - {[]})
  }

  ghost function AllServed(w: World, ledgers: seq<Bytes>): map<Bytes, KeyMap> {
    map l | l in NameSet(ledgers) :: ServedKeys(w, l)
  }

  /** `list` is the list of the ledger's keys. */
  ghost predicate IsListOf(w: World, ledger: Bytes, list: seq<KidKey>) {
    && OwnKeys(w, ledger).Some? && DistinctKids(list) && Holds(ServedKeys(w, ledger), list)
    && |ledger| < MAX_LEN && |list| < MAX_LEN
  }

  lemma ListWritable(codec: KeyCodec, keys: KeyMap, list: seq<KidKey>)
    requires DistinctKids(list) && Holds(keys, list)
    ensures list != [] && AllEncodable(codec, list) <==> Writable(codec, keys)
  {
    if list != [] {
      assert list[0] in list;
    }
    forall kid <- keys ensures exists k <- list :: k.kid == kid {
      assert kid in KidsOf(list);
    }
  }

  /** What is kept of the list are the keys with a key ID. */
  lemma ListKept(codec: KeyCodec, keys: KeyMap, list: seq<KidKey>)
    requires DistinctKids(list) && Holds(keys, list)
    ensures Kept(codec, list) == keys - {[]}
  {
    KeptEntries(codec, list);
    forall kid ensures kid in Kept(codec, list) <==> kid in keys && kid != [] {
      if kid in keys {
        assert kid in KidsOf(list);
      }
      if kid in Kept(codec, list) {
        assert kid in KidsOf(list);
      }
    }
    forall kid | kid in Kept(codec, list) ensures Kept(codec, list)[kid] == keys[kid] {
      assert kid in KidsOf(list);
    }
  }

  lemma NamesAreText(w: World, ledger: Bytes)
    requires OwnKeys(w, ledger).Some?
    ensures ValidUtf8(ledger)
  {
    IssuerIsAscii(ledger);
    AsciiIsUtf8(ledger);
  }

  /** The lists of all ledgers. */
  ghost predicate AreListsOf(w: World, ledgers: seq<Bytes>, issuerKeys: map<Bytes, seq<KidKey>>) {
    issuerKeys.Keys == NameSet(ledgers) && forall l <- issuerKeys :: IsListOf(w, l, issuerKeys[l])
  }

  lemma ListsEncodable(w: World, codec: KeyCodec, ledgers: seq<Bytes>, issuerKeys: map<Bytes, seq<KidKey>>)
    requires AreListsOf(w, ledgers, issuerKeys)
    ensures EveryListEncodable(codec, issuerKeys) <==> AllWritable(w, codec, ledgers)
  {
    forall l <- issuerKeys
      ensures issuerKeys[l] != [] && AllEncodable(codec, issuerKeys[l]) <==> Writable(codec, ServedKeys(w, l))
    {
      assert IsListOf(w, l, issuerKeys[l]);
      ListWritable(codec, ServedKeys(w, l), issuerKeys[l]);
    }
    assert forall l :: l in issuerKeys <==> l in ledgers;
  }

  lemma ListsRead(w: World, codec: KeyCodec, ledgers: seq<Bytes>, issuerKeys: map<Bytes, seq<KidKey>>)
    requires AreListsOf(w, ledgers, issuerKeys)
    ensures Readable(codec, issuerKeys) == Listed(w, ledgers)
  {
    forall l <- issuerKeys ensures Kept(codec, issuerKeys[l]) == ServedKeys(w, l) - {[]} {
      assert IsListOf(w, l, issuerKeys[l]);
      ListKept(codec, ServedKeys(w, l), issuerKeys[l]);
    }
  }

  lemma ListsFitText(w: World, ledgers: seq<Bytes>, issuerKeys: map<Bytes, seq<KidKey>>)
    requires AreListsOf(w, ledgers, issuerKeys) && |ledgers| < MAX_LEN
    ensures IssuersFit(issuerKeys) && ListsFit(issuerKeys) && IssuersAreText(issuerKeys)
    ensures |issuerKeys| < MAX_LEN
  {
    forall l <- issuerKeys ensures |l| < MAX_LEN && |issuerKeys[l]| < MAX_LEN && ValidUtf8(l) {
      assert IsListOf(w, l, issuerKeys[l]);
      NamesAreText(w, l);
    }
    NameSetSize(ledgers);
    assert |issuerKeys| == |issuerKeys.Keys|;
  }

  lemma {:induction false} NameSetSize(ledgers: seq<Bytes>)
    ensures |NameSet(ledgers)| <= |ledgers|
  {
    if ledgers != [] {
      NameSetSize(ledgers[1..]);
      assert NameSet(ledgers) == NameSet(ledgers[1..]) + {ledgers[0]};
    }
  }

  /** Fetches the key lists, one ledger after the other; none may be named twice. */
  method FetchLists(w: World, ledgers: seq<Bytes>) returns (r: Option<map<Bytes, seq<KidKey>>>)
    requires Reflexive(w) && Fit(w, ledgers)
    ensures r.Some? <==> Distinct(ledgers) && forall l <- ledgers :: OwnKeys(w, l).Some?
    ensures r.Some? ==> AreListsOf(w, ledgers, r.value)
  {
    var issuerKeys: map<Bytes, seq<KidKey>> := map[];
    for i := 0 to |ledgers|
      invariant Distinct(ledgers[..i]) && AreListsOf(w, ledgers[..i], issuerKeys)
    {
      var ledger := ledgers[i];
      assert ledger in ledgers;
      assert ledgers[..i + 1] == ledgers[..i] + [ledger];
      if ledger in issuerKeys {
        assert ledger in ledgers[..i];
        return None;
      }
      var fetched := FetchIssuerJwks(w, [ledger], ledger);
      if fetched.None? {
        assert OwnKeys(w, ledger).None?;
        return None;
      }
      assert IsListOf(w, ledger, fetched.value.1);
      issuerKeys := issuerKeys[ledger := fetched.value.1];
    }
    assert ledgers[..|ledgers|] == ledgers;
    ListsComplete(w, ledgers, issuerKeys);
    r := Some(issuerKeys);
  }

  lemma ListsComplete(w: World, ledgers: seq<Bytes>, issuerKeys: map<Bytes, seq<KidKey>>)
    requires AreListsOf(w, ledgers, issuerKeys)
    ensures forall l <- ledgers :: OwnKeys(w, l).Some?
  {
    forall l <- ledgers ensures OwnKeys(w, l).Some? {
      assert l in NameSet(ledgers) && IsListOf(w, l, issuerKeys[l]);
    }
  }

  /** Writes the keys that the ledgers serve as a trust list. Reading the bytes gives each ledger its
      keys that have a key ID, or nothing if a ledger has none. */
  method TtlFromLedgers(w: World, codec: KeyCodec, ledgers: seq<Bytes>) returns (r: Result<Bytes>)
    requires Reflexive(w) && LawfulCodec(codec) && Fit(w, ledgers)
    ensures r.Ok? <==> ledgers != [] && Distinct(ledgers) && AllWritable(w, codec, ledgers)
    ensures r.Ok? ==> TrustList(codec, r.value) == AllPresent(Listed(w, ledgers))
  {
    if |ledgers| == 0 { return Error; }
    var issuerKeys := FetchLists(w, ledgers);
    if AllWritable(w, codec, ledgers) {
      WritableServed(w, codec, ledgers);
    }
    if issuerKeys.None? { return Error; }
    ListsFitText(w, ledgers, issuerKeys.value);
    ListsRead(w, codec, ledgers, issuerKeys.value);
    ListsEncodable(w, codec, ledgers, issuerKeys.value);
    assert ledgers[0] in NameSet(ledgers);
    r := EncodeTTLPayload(codec, issuerKeys.value);
  }

  lemma WritableServed(w: World, codec: KeyCodec, ledgers: seq<Bytes>)
    requires AllWritable(w, codec, ledgers)
    ensures forall l <- ledgers :: OwnKeys(w, l).Some?
  {
    forall l <- ledgers ensures OwnKeys(w, l).Some? {
      assert Writable(codec, ServedKeys(w, l));
    }
  }

  /** Each ledger is read back with exactly the keys it serves if and only if all keys have a key ID. */
  lemma ListedExactly(w: World, codec: KeyCodec, ledgers: seq<Bytes>)
    requires AllWritable(w, codec, ledgers)
    ensures AllPresent(Listed(w, ledgers)) == Some(AllServed(w, ledgers))
            <==> forall l <- ledgers :: [] !in ServedKeys(w, l)
  {
    forall l | l in NameSet(ledgers)
      ensures Listed(w, ledgers)[l] == Some(AllServed(w, ledgers)[l]) <==> [] !in ServedKeys(w, l)
    {
      assert Writable(codec, ServedKeys(w, l));
      NothingDropped(ServedKeys(w, l));
    }
    AllPresentExactly(Listed(w, ledgers), AllServed(w, ledgers));
    NamesServed(w, ledgers);
  }

  lemma NothingDropped(keys: KeyMap)
    requires keys != map[]
    ensures NonEmpty(keys - {[]}) == Some(keys) <==> [] !in keys
  {
    if [] !in keys {
      assert keys - {[]} == keys;
    }
  }

  lemma AllPresentExactly<V>(m: map<Bytes, Option<V>>, out: map<Bytes, V>)
    requires out.Keys == m.Keys
    ensures AllPresent(m) == Some(out) <==> forall k <- out :: m[k] == Some(out[k])
  {
    if forall k <- out :: m[k] == Some(out[k]) {
      AllPresentIs(m, out);
    }
  }

  lemma NamesServed(w: World, ledgers: seq<Bytes>)
    ensures (forall l <- ledgers :: [] !in ServedKeys(w, l))
            <==> forall l <- AllServed(w, ledgers) :: [] !in ServedKeys(w, l)
  {
    assert forall l :: l in AllServed(w, ledgers) <==> l in ledgers;
  }

  /** A ledger named with a port has no trust list. */
  lemma PortsAreRefused(w: World, ledger: Bytes)
    requires LowersAscii(w.lower) && COLON in ledger
    ensures OwnKeys(w, ledger).None?
  {
    OwnAllowList(w.lower, ledger);
  }
}
