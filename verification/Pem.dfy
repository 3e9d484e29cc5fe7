/** Certificate chains as PEM text (RFC 7468): the writer of the program, and its two readers
    on top of the block decoder of Go's standard library. */
module Pem {
  import opened Basics
  import Base64

  const SPACE: Byte := 32
  const TAB: Byte := 9

  const START: Bytes := Ascii("\n-----BEGIN ")
  const END: Bytes := Ascii("\n-----END ")
  const DASHES: Bytes := Ascii("-----")
  const CERTIFICATE: Bytes := Ascii("CERTIFICATE")

  /** A certificate is its raw DER; what else is in it plays no part here. */
  datatype Certificate = Certificate(raw: Bytes)

  datatype Block = Block(typ: Bytes, bytes: Bytes)

  /* The block decoder */

  predicate HasPrefix(s: Bytes, p: Bytes) {
    |p| <= |s| && s[..|p|] == p
  }

  function IndexOf(s: Bytes, p: Bytes): (r: Option<nat>)
    ensures r.Some? ==> r.value + |p| <= |s| && HasPrefix(s[r.value..], p)
  {
    if HasPrefix(s, p) then Some(0)
    else if s == [] then None
    else
      match IndexOf(s[1..], p)
      case None => None
      case Some(i) => Some(i + 1)
  }

  function TrimRight(s: Bytes): Bytes {
    if s != [] && (s[|s| - 1] == SPACE || s[|s| - 1] == TAB) then TrimRight(s[..|s| - 1]) else s
  }

  function RemoveSpacesAndTabs(s: Bytes): Bytes {
    if s == [] then [] else (if s[0] == SPACE || s[0] == TAB then [] else [s[0]]) + RemoveSpacesAndTabs(s[1..])
  }

  /** The first line without its end and its trailing blanks, and everything after it. */
  function GetLine(s: Bytes): (r: (Bytes, Bytes))
    ensures |r.1| <= |s| && (s != [] ==> |r.1| < |s|)
  {
    match IndexOf(s, [LF])
    case None => (TrimRight(s), [])
    case Some(i) =>
      var end := if i > 0 && s[i - 1] == CR then i - 1 else i;
      (TrimRight(s[..end]), s[i + 1..])
  }

  /** Skips `key: value` lines; tells whether there were any. Running out of text ends the search. */
  function SkipHeaders(s: Bytes): (r: Option<(bool, Bytes)>)
    ensures r.Some? ==> |r.value.1| <= |s| && r.value.1 != []
    decreases |s|
  {
    if s == [] then None else
    var (line, next) := GetLine(s);
    if COLON !in line then Some((false, s)) else
    match SkipHeaders(next)
    case None => None
    case Some((_, rest)) => Some((true, rest))
  }

  /** After the end marker come the type and five dashes, and then only blanks in the line. */
  predicate EndsLine(typ: Bytes, trailer: Bytes) {
    && |typ| + |DASHES| <= |trailer|
    && HasPrefix(trailer[..|typ| + |DASHES|], typ)
    && HasSuffix(trailer[..|typ| + |DASHES|], DASHES)
    && GetLine(trailer[|typ| + |DASHES|..]).0 == []
  }

  /** The rest of a block whose type line has been read, or none if it does not hold together. */
  function Body(typ: Bytes, hasHeaders: bool, s: Bytes): (r: Option<(Block, Bytes)>)
    ensures r.Some? ==> |r.value.1| <= |s|
  {
    var atOnce := !hasHeaders && HasPrefix(s, END[1..]);
    var found := if atOnce then Some(0) else IndexOf(s, END);
    if found.None? then None else
    var endIndex := found.value;
    if !EndsLine(typ, s[if atOnce then |END| - 1 else endIndex + |END|..]) then None else
    match Base64.Decode(Base64.Std, RemoveSpacesAndTabs(s[..endIndex]))
    case None => None
    case Some(bytes) => Some((Block(typ, bytes), GetLine(s[endIndex + |END| - 1..]).1))
  }

  /** Where the type line of the next block begins: right here, or after the next start marker. */
  function AfterStart(s: Bytes): (r: Option<Bytes>)
    ensures r.Some? ==> |r.value| < |s|
  {
    if HasPrefix(s, START[1..]) then Some(s[|START| - 1..])
    else
      match IndexOf(s, START)
      case None => None
      case Some(i) => Some(s[i + |START|..])
  }

  /** The first well-formed block and the text after it. */
  function Decode(s: Bytes): (r: Option<(Block, Bytes)>)
    ensures r.Some? ==> |r.value.1| < |s|
    decreases |s|
  {
    match AfterStart(s)
    case None => None
    case Some(after) =>
      var (typeLine, rest) := GetLine(after);
      if !HasSuffix(typeLine, DASHES) then Decode(rest) else
      var typ := typeLine[..|typeLine| - |DASHES|];
      match SkipHeaders(rest)
      case None => None
      case Some((hasHeaders, body)) =>
        match Body(typ, hasHeaders, body)
        case None => Decode(body)
        case Some(found) => Some(found)
  }

  /* The writer */

  function CertificateText(cert: Certificate): Bytes {
    Ascii("-----BEGIN CERTIFICATE-----\n") + Base64.Encode(Base64.Std, cert.raw) + Ascii("\n-----END CERTIFICATE-----")
  }

  function CertificateTexts(chain: seq<Certificate>): (texts: seq<Bytes>)
    ensures |texts| == |chain|
  {
    seq(|chain|, i requires 0 <= i < |chain| => CertificateText(chain[i]))
  }

  /** The texts with one newline between any two. */
  function JoinLines(texts: seq<Bytes>): Bytes {
    if texts == [] then []
    else if |texts| == 1 then texts[0]
    else texts[0] + [LF] + JoinLines(texts[1..])
  }

  function ChainText(chain: seq<Certificate>): Bytes {
    JoinLines(CertificateTexts(chain))
  }

  lemma {:induction false} JoinLinesAppend(texts: seq<Bytes>, text: Bytes)
    requires texts != []
    ensures JoinLines(texts + [text]) == JoinLines(texts) + [LF] + text
  {
    if |texts| == 1 {
      assert (texts + [text])[1..] == [text];
    } else {
      assert (texts + [text])[1..] == texts[1..] + [text];
      JoinLinesAppend(texts[1..], text);
    }
  }

  lemma JoinOneMore(texts: seq<Bytes>, i: nat)
    requires i < |texts|
    ensures JoinLines(texts[..i + 1]) == JoinLines(texts[..i]) + (if i > 0 then [LF] else []) + texts[i]
  {
    assert texts[..i + 1] == texts[..i] + [texts[i]];
    if i > 0 {
      JoinLinesAppend(texts[..i], texts[i]);
    }
  }

  lemma JoinLinesSplit(texts: seq<Bytes>, tail: Bytes)
    requires |texts| > 1
    ensures JoinLines(texts) + tail == texts[0] + ([LF] + (JoinLines(texts[1..]) + tail))
  {
    var a, b := texts[0], JoinLines(texts[1..]);
    assert a + [LF] + b + tail == a + ([LF] + (b + tail));
  }

  method JoinChain(chain: seq<Certificate>) returns (chainPEM: Bytes)
    ensures chainPEM == ChainText(chain)
  {
    chainPEM := [];
    ghost var texts := CertificateTexts(chain);
    for i := 0 to |chain|
      invariant chainPEM == JoinLines(texts[..i])
    {
      JoinOneMore(texts, i);
      if i > 0 {
        chainPEM := chainPEM + [LF];
      }
      chainPEM := chainPEM + CertificateText(chain[i]);
    }
    assert texts[..|chain|] == texts;
  }

  /* The readers, over any block decoder that makes progress */

  type BlockDecoder = Bytes -> Option<(Block, Bytes)>

  type CertParser = Bytes -> Option<Certificate>

  ghost predicate Progresses(decode: BlockDecoder) {
    forall s :: decode(s).Some? ==> |decode(s).value.1| < |s|
  }

  lemma DecodeProgresses()
    ensures Progresses(Decode)
  {
  }

  /** All blocks of a text in order. */
  ghost function Blocks(decode: BlockDecoder, s: Bytes): seq<Block>
    requires Progresses(decode)
    decreases |s|
  {
    if decode(s).None? then [] else [decode(s).value.0] + Blocks(decode, decode(s).value.1)
  }

  /** The blocks reach to the very end of the text. */
  ghost predicate Drains(decode: BlockDecoder, s: Bytes)
    requires Progresses(decode)
    decreases |s|
  {
    s == [] || (decode(s).Some? && Drains(decode, decode(s).value.1))
  }

  /** The certificates among the blocks, or none if one of them does not parse. */
  function Certificates(parse: CertParser, blocks: seq<Block>): Option<seq<Certificate>> {
    if blocks == [] then Some([])
    else if blocks[0].typ != CERTIFICATE then Certificates(parse, blocks[1..])
    else if parse(blocks[0].bytes).None? then None
    else Prepend([parse(blocks[0].bytes).value], Certificates(parse, blocks[1..]))
  }

  function Prepend<T>(a: seq<T>, b: Option<seq<T>>): Option<seq<T>> {
    if b.None? then None else Some(a + b.value)
  }

  lemma PrependEmpty<T>(b: Option<seq<T>>)
    ensures Prepend([], b) == b
  {
    if b.Some? {
      assert [] + b.value == b.value;
    }
  }

  lemma PrependTwice<T>(a: seq<T>, b: seq<T>, c: Option<seq<T>>)
    ensures Prepend(a, Prepend(b, c)) == Prepend(a + b, c)
  {
    if c.Some? {
      assert a + (b + c.value) == a + b + c.value;
    }
  }

  /** Every block found makes the rest shorter, so the loop ends on every text. */
  method ParsePemChain(decode: BlockDecoder, parse: CertParser, chainPem: Bytes) returns (r: Result<seq<Certificate>>)
    requires Progresses(decode)
    ensures r == match Certificates(parse, Blocks(decode, chainPem))
                 case Some(cs) => Ok(cs)
                 case None => Error
  {
    var chain: seq<Certificate> := [];
    var found := decode(chainPem);
    ghost var s := chainPem;
    PrependEmpty(Certificates(parse, Blocks(decode, s)));
    while found.Some?
      invariant found == decode(s)
      invariant Certificates(parse, Blocks(decode, chainPem)) == Prepend(chain, Certificates(parse, Blocks(decode, s)))
      decreases |s|
    {
      var (block, rest) := found.value;
      assert Blocks(decode, s)[1..] == Blocks(decode, rest);
      if block.typ == CERTIFICATE {
        var cert := parse(block.bytes);
        if cert.None? { return Error; }
        PrependTwice(chain, [cert.value], Certificates(parse, Blocks(decode, rest)));
        chain := chain + [cert.value];
      }
      s := rest;
      found := decode(rest);
    }
    assert chain + [] == chain;
    r := Ok(chain);
  }

  function Concat(blocks: seq<Block>): Bytes {
    if blocks == [] then [] else blocks[0].bytes + Concat(blocks[1..])
  }

  /** The raw bytes of all blocks, one after the other. The loop runs until the text is used up,
      which never happens once no block is found in what is left. */
  method Pem2Der(decode: BlockDecoder, chainPem: Bytes) returns (r: Option<Bytes>)
    requires Progresses(decode)
    requires decode(chainPem).Some? ==> Drains(decode, decode(chainPem).value.1)
    requires decode([]).None?
    ensures r == if decode(chainPem).None? then None else Some(Concat(Blocks(decode, chainPem)))
  {
    var found := decode(chainPem);
    if found.None? { return None; }
    var der: Bytes, rest: Bytes := found.value.0.bytes, found.value.1;
    assert Blocks(decode, chainPem)[1..] == Blocks(decode, rest);
    while |rest| != 0
      invariant Drains(decode, rest)
      invariant Concat(Blocks(decode, chainPem)) == der + Concat(Blocks(decode, rest))
      decreases |rest|
    {
      found := decode(rest);
      var next: Bytes, after: Bytes := found.value.0.bytes, found.value.1;
      assert Blocks(decode, rest)[1..] == Blocks(decode, after);
      assert der + (next + Concat(Blocks(decode, after))) == der + next + Concat(Blocks(decode, after));
      rest := after;
      der := der + next;
    }
    assert der + [] == der;
    r := Some(der);
  }

  /** What is left after `n` turns of that loop: a turn that finds no block changes nothing. */
  ghost function RestAfter(decode: BlockDecoder, rest: Bytes, n: nat): Bytes
    decreases n
  {
    if n == 0 then rest
    else if decode(rest).None? then RestAfter(decode, rest, n - 1)
    else RestAfter(decode, decode(rest).value.1, n - 1)
  }

  lemma {:induction false} DrainsEnds(decode: BlockDecoder, rest: Bytes) returns (n: nat)
    requires Progresses(decode) && Drains(decode, rest)
    ensures RestAfter(decode, rest, n) == []
    decreases |rest|
  {
    if rest == [] {
      n := 0;
    } else {
      var after := DrainsEnds(decode, decode(rest).value.1);
      n := after + 1;
    }
  }

  lemma {:induction false} EndsDrains(decode: BlockDecoder, rest: Bytes, n: nat)
    requires Progresses(decode) && decode([]).None? && RestAfter(decode, rest, n) == []
    ensures Drains(decode, rest)
    decreases n
  {
    if n > 0 {
      EndsDrains(decode, if decode(rest).None? then rest else decode(rest).value.1, n - 1);
    }
  }

  /** The loop of `Pem2Der` ends after some number of turns exactly when the text drains; otherwise
      it runs for ever. */
  lemma EndsIffDrains(decode: BlockDecoder, rest: Bytes)
    requires Progresses(decode) && decode([]).None?
    ensures Drains(decode, rest) <==> exists n: nat :: RestAfter(decode, rest, n) == []
  {
    if Drains(decode, rest) {
      var n := DrainsEnds(decode, rest);
    }
    if exists n: nat :: RestAfter(decode, rest, n) == [] {
      var n: nat :| RestAfter(decode, rest, n) == [];
      EndsDrains(decode, rest, n);
    }
  }

  /* The round trip */

  lemma {:induction false} IndexOfAt(s: Bytes, p: Bytes, k: nat)
    requires k <= |s| && HasPrefix(s[k..], p)
    requires forall j :: 0 <= j < k ==> !HasPrefix(s[j..], p)
    ensures IndexOf(s, p) == Some(k)
  {
    if k == 0 {
      assert s[0..] == s;
    } else {
      assert s[0..] == s && !HasPrefix(s, p);
      assert forall j :: 0 <= j < k - 1 ==> s[1..][j..] == s[j + 1..];
      assert s[1..][k - 1..] == s[k..];
      IndexOfAt(s[1..], p, k - 1);
    }
  }

  lemma {:induction false} NothingRemoved(s: Bytes)
    requires SPACE !in s && TAB !in s
    ensures RemoveSpacesAndTabs(s) == s
  {
    if s != [] {
      assert s == [s[0]] + s[1..];
      NothingRemoved(s[1..]);
    }
  }

  lemma NoBlanks(s: Bytes)
    requires forall c <- s :: Base64.Printable(c)
    ensures SPACE !in s && TAB !in s && COLON !in s && LF !in s && CR !in s
    ensures RemoveSpacesAndTabs(s) == s && TrimRight(s) == s
  {
    NothingRemoved(s);
    if s != [] {
      assert s[|s| - 1] in s;
    }
  }

  /** A line with nothing to trim, alone or with more text after it. */
  lemma {:induction false} GetLineOf(line: Bytes, rest: Bytes)
    requires LF !in line && (line != [] ==> line[|line| - 1] !in {CR, SPACE, TAB})
    ensures GetLine(line + [LF] + rest) == (line, rest)
    ensures GetLine(line).0 == line && GetLine(line).1 == []
  {
    var s := line + [LF] + rest;
    assert s[|line|..] == [LF] + rest;
    forall j | 0 <= j < |line| ensures !HasPrefix(s[j..], [LF]) {
      assert s[j..][0] == line[j] && line[j] in line;
    }
    IndexOfAt(s, [LF], |line|);
    assert s[..|line|] == line;
    NoLineEnd(line);
  }

  lemma {:induction false} NoLineEnd(s: Bytes)
    requires LF !in s
    ensures IndexOf(s, [LF]).None?
  {
    if s != [] {
      assert s[0] in s && s[..1][0] == s[0];
      NoLineEnd(s[1..]);
    }
  }

  const END_LINE: Bytes := Ascii("CERTIFICATE-----")

  lemma EndLine()
    ensures END_LINE == CERTIFICATE + DASHES
    ensures LF !in END_LINE && END_LINE[|END_LINE| - 1] == '-' as int && |END_LINE| == 16
  {
  }

  /** A text ends where its certificate does, or goes on in a new line. */
  predicate LineTail(tail: Bytes) {
    tail == [] || tail[0] == LF
  }

  function NextLine(tail: Bytes): Bytes {
    if tail == [] then [] else tail[1..]
  }

  lemma BodyIs(typ: Bytes, s: Bytes, k: nat, bytes: Bytes)
    requires !HasPrefix(s, END[1..]) && IndexOf(s, END) == Some(k)
    requires EndsLine(typ, s[k + |END|..])
    requires Base64.Decode(Base64.Std, RemoveSpacesAndTabs(s[..k])) == Some(bytes)
    ensures Body(typ, false, s) == Some((Block(typ, bytes), GetLine(s[k + |END| - 1..]).1))
  {
  }

  lemma EndMarker()
    ensures END[0] == LF && END[9] == SPACE && |END| == 10
    ensures forall i :: 1 <= i < 10 ==> END[i] != LF
    ensures |DASHES| == 5 && |CERTIFICATE| == 11
  {
  }

  /** In base64 followed by an end marker the first end marker is that one. */
  lemma FirstEnd(text: Bytes, after: Bytes)
    requires forall c <- text :: Base64.Printable(c)
    ensures var s := text + (END + after); !HasPrefix(s, END[1..]) && IndexOf(s, END) == Some(|text|)
  {
    var s := text + (END + after);
    EndMarker();
    NoBlanks(text);
    var i := if |text| >= 9 then 8 else |text|;
    assert i == 8 ==> |text| >= 9 ==> s[8] in text;
    assert s[i] != END[1..][i];
    assert s[..9][i] == s[i];
    assert s[|text|..] == END + after;
    assert HasPrefix(s[|text|..], END);
    forall j | 0 <= j < |text| ensures !HasPrefix(s[j..], END) {
      assert s[j..][0] == text[j] && text[j] in text;
    }
    IndexOfAt(s, END, |text|);
  }

  /** What follows the text of a certificate: nothing, or a fresh line. */
  lemma LineTailLines(line: Bytes, tail: Bytes)
    requires LineTail(tail) && LF !in line && (line != [] ==> line[|line| - 1] !in {CR, SPACE, TAB})
    ensures GetLine(line + tail) == (line, NextLine(tail))
  {
    if tail == [] {
      assert line + tail == line;
      GetLineOf(line, []);
    } else {
      assert line + tail == line + [LF] + tail[1..];
      GetLineOf(line, tail[1..]);
    }
  }

  lemma CertificateEndsLine(tail: Bytes)
    requires LineTail(tail)
    ensures EndsLine(CERTIFICATE, END_LINE + tail)
  {
    EndMarker();
    EndLine();
    assert (END_LINE + tail)[..16] == END_LINE && (END_LINE + tail)[16..] == tail == [] + tail;
    assert END_LINE[..11] == CERTIFICATE && END_LINE[11..] == DASHES;
    LineTailLines([], tail);
  }

  lemma BodyOfCertificate(text: Bytes, raw: Bytes, tail: Bytes)
    requires LineTail(tail)
    requires (forall c <- text :: Base64.Printable(c)) && Base64.Decode(Base64.Std, text) == Some(raw)
    ensures Body(CERTIFICATE, false, text + (END + (END_LINE + tail)))
            == Some((Block(CERTIFICATE, raw), NextLine(tail)))
  {
    var s := text + (END + (END_LINE + tail));
    NoBlanks(text);
    FirstEnd(text, END_LINE + tail);
    EndMarker();
    CertificateEndsLine(tail);
    assert s[|text| + |END|..] == END_LINE + tail;
    assert s[..|text|] == text;
    BodyIs(CERTIFICATE, s, |text|, raw);
    RestOfEndLine(text, tail);
  }

  lemma RestOfEndLine(text: Bytes, tail: Bytes)
    requires LineTail(tail)
    ensures GetLine((text + (END + (END_LINE + tail)))[|text| + |END| - 1..]).1 == NextLine(tail)
  {
    EndMarker();
    EndLine();
    var last := [SPACE] + END_LINE;
    assert (text + (END + (END_LINE + tail)))[|text| + 9..] == last + tail;
    LineTailLines(last, tail);
  }

  lemma DecodeIs(s: Bytes, after: Bytes, typ: Bytes, body: Bytes, found: (Block, Bytes))
    requires AfterStart(s) == Some(after)
    requires GetLine(after) == (typ + DASHES, body)
    requires SkipHeaders(body) == Some((false, body))
    requires Body(typ, false, body) == Some(found)
    ensures Decode(s) == Some(found)
  {
    var typeLine := typ + DASHES;
    assert typeLine[|typeLine| - |DASHES|..] == DASHES && typeLine[..|typeLine| - |DASHES|] == typ;
  }

  lemma NoHeaders(text: Bytes, afterLine: Bytes)
    requires forall c <- text :: Base64.Printable(c)
    ensures SkipHeaders(text + [LF] + afterLine) == Some((false, text + [LF] + afterLine))
  {
    NoBlanks(text);
    if text != [] {
      assert text[|text| - 1] in text;
    }
    GetLineOf(text, afterLine);
  }

  lemma StartMarker(rest: Bytes)
    ensures AfterStart(START[1..] + rest) == Some(rest)
  {
    assert (START[1..] + rest)[..|START| - 1] == START[1..];
    assert (START[1..] + rest)[|START| - 1..] == rest;
  }

  lemma CertificateTextParts(cert: Certificate)
    ensures CertificateText(cert)
            == START[1..] + (END_LINE + [LF]) + Base64.Encode(Base64.Std, cert.raw) + (END + END_LINE)
  {
    assert Ascii("-----BEGIN CERTIFICATE-----\n") == START[1..] + (END_LINE + [LF]);
    assert Ascii("\n-----END CERTIFICATE-----") == END + END_LINE;
  }

  /** One certificate text at the front of a text is read back as its block. */
  lemma DecodeCertificate(cert: Certificate, tail: Bytes)
    requires LineTail(tail)
    ensures Decode(CertificateText(cert) + tail) == Some((Block(CERTIFICATE, cert.raw), NextLine(tail)))
  {
    var text := Base64.Encode(Base64.Std, cert.raw);
    var body := text + (END + (END_LINE + tail));
    var after := END_LINE + [LF] + body;
    CertificateTextTail(cert, tail);
    StartMarker(after);
    EndLine();
    GetLineOf(END_LINE, body);
    BodySplit(text, tail);
    Base64.EncodePrintable(Base64.Std, cert.raw);
    NoHeaders(text, END[1..] + (END_LINE + tail));
    Base64.DecodeEncode(Base64.Std, cert.raw);
    BodyOfCertificate(text, cert.raw, tail);
    DecodeIs(CertificateText(cert) + tail, after, CERTIFICATE, body, (Block(CERTIFICATE, cert.raw), NextLine(tail)));
  }

  lemma CertificateTextTail(cert: Certificate, tail: Bytes)
    ensures CertificateText(cert) + tail
            == START[1..] + (END_LINE + [LF] + (Base64.Encode(Base64.Std, cert.raw) + (END + (END_LINE + tail))))
  {
    CertificateTextParts(cert);
  }

  lemma BodySplit(text: Bytes, tail: Bytes)
    ensures text + (END + (END_LINE + tail)) == text + [LF] + (END[1..] + (END_LINE + tail))
  {
    EndMarker();
    assert END == [LF] + END[1..];
  }

  ghost function BlocksOf(chain: seq<Certificate>): (blocks: seq<Block>)
    ensures |blocks| == |chain|
  {
    seq(|chain|, i requires 0 <= i < |chain| => Block(CERTIFICATE, chain[i].raw))
  }

  /** A decoder that reads one certificate text at the front of a text. */
  ghost predicate ReadsCertificates(decode: BlockDecoder) {
    forall cert, tail :: LineTail(tail) ==>
      decode(CertificateText(cert) + tail) == Some((Block(CERTIFICATE, cert.raw), NextLine(tail)))
  }

  lemma DecodeReadsCertificates()
    ensures ReadsCertificates(Decode)
  {
    forall cert, tail | LineTail(tail)
      ensures Decode(CertificateText(cert) + tail) == Some((Block(CERTIFICATE, cert.raw), NextLine(tail)))
    {
      DecodeCertificate(cert, tail);
    }
  }

  lemma FirstBlock(decode: BlockDecoder, s: Bytes, block: Block, rest: Bytes)
    requires Progresses(decode) && decode([]).None? && decode(s) == Some((block, rest))
    ensures Blocks(decode, s) == [block] + Blocks(decode, rest)
    ensures Drains(decode, s) <==> Drains(decode, rest)
  {
  }

  /** The text of a chain is read as its certificates, and then the reader is left with whatever
      follows the end of the line. */
  lemma {:induction false} ChainBlocks(decode: BlockDecoder, chain: seq<Certificate>, tail: Bytes)
    requires chain != [] && LineTail(tail)
    requires Progresses(decode) && ReadsCertificates(decode) && decode([]).None?
    ensures Blocks(decode, ChainText(chain) + tail) == BlocksOf(chain) + Blocks(decode, NextLine(tail))
    ensures Drains(decode, ChainText(chain) + tail) <==> Drains(decode, NextLine(tail))
  {
    if |chain| == 1 {
      FirstOfChain(decode, chain[0], tail);
      assert BlocksOf(chain) == [Block(CERTIFICATE, chain[0].raw)];
    } else {
      var next := ChainText(chain[1..]) + tail;
      ChainTextSplit(chain, tail);
      FirstOfChain(decode, chain[0], [LF] + next);
      assert NextLine([LF] + next) == next;
      ChainBlocks(decode, chain[1..], tail);
      BlocksOfSplit(chain, Blocks(decode, NextLine(tail)));
    }
  }

  lemma ChainTextSplit(chain: seq<Certificate>, tail: Bytes)
    requires |chain| > 1
    ensures ChainText(chain) + tail == CertificateText(chain[0]) + ([LF] + (ChainText(chain[1..]) + tail))
  {
    JoinLinesSplit(CertificateTexts(chain), tail);
    assert CertificateTexts(chain)[1..] == CertificateTexts(chain[1..]);
  }

  lemma BlocksOfSplit(chain: seq<Certificate>, more: seq<Block>)
    requires chain != []
    ensures BlocksOf(chain) + more == [Block(CERTIFICATE, chain[0].raw)] + (BlocksOf(chain[1..]) + more)
  {
  }

  lemma FirstOfChain(decode: BlockDecoder, cert: Certificate, rest: Bytes)
    requires LineTail(rest) && Progresses(decode) && ReadsCertificates(decode) && decode([]).None?
    ensures Blocks(decode, CertificateText(cert) + rest)
            == [Block(CERTIFICATE, cert.raw)] + Blocks(decode, NextLine(rest))
    ensures Drains(decode, CertificateText(cert) + rest) <==> Drains(decode, NextLine(rest))
  {
    FirstBlock(decode, CertificateText(cert) + rest, Block(CERTIFICATE, cert.raw), NextLine(rest));
  }

  /** A chain text that ends in at most one newline is used up by `Pem2Der`; a further blank line
      makes it run for ever. */
  lemma TrailingNewlines(chain: seq<Certificate>)
    requires chain != [] && Progresses(Decode)
    ensures Drains(Decode, ChainText(chain)) && Drains(Decode, ChainText(chain) + [LF])
    ensures !Drains(Decode, ChainText(chain) + [LF, LF])
  {
    DecodeReadsCertificates();
    assert Decode([]).None?;
    ChainBlocks(Decode, chain, []);
    ChainBlocks(Decode, chain, [LF]);
    ChainBlocks(Decode, chain, [LF, LF]);
    assert ChainText(chain) + [] == ChainText(chain);
    NoStartInNewline();
  }

  lemma NoStartInNewline()
    ensures Decode([LF]).None? && NextLine([LF, LF]) == [LF]
  {
    assert |START| == 12;
  }

  lemma {:induction false} CertificatesOfBlocks(parse: CertParser, chain: seq<Certificate>)
    requires forall c <- chain :: parse(c.raw) == Some(c)
    ensures Certificates(parse, BlocksOf(chain)) == Some(chain)
  {
    if chain != [] {
      CertificatesOfBlocks(parse, chain[1..]);
      assert BlocksOf(chain)[1..] == BlocksOf(chain[1..]);
      assert chain == [chain[0]] + chain[1..];
    }
  }

  function ConcatRaw(chain: seq<Certificate>): Bytes {
    if chain == [] then [] else chain[0].raw + ConcatRaw(chain[1..])
  }

  lemma {:induction false} ConcatOfBlocks(chain: seq<Certificate>)
    ensures Concat(BlocksOf(chain)) == ConcatRaw(chain)
  {
    if chain != [] {
      ConcatOfBlocks(chain[1..]);
      assert BlocksOf(chain)[1..] == BlocksOf(chain[1..]);
    }
  }

  /** Writing a chain and reading it with either reader: the same certificates in the same order,
      and all their raw bytes. */
  method ChainRoundTrip(parse: CertParser, chain: seq<Certificate>)
    returns (text: Bytes, parsed: Result<seq<Certificate>>, der: Option<Bytes>)
    requires chain != [] && forall c <- chain :: parse(c.raw) == Some(c)
    ensures text == ChainText(chain)
    ensures parsed == Ok(chain)
    ensures der == Some(ConcatRaw(chain))
  {
    text := JoinChain(chain);
    DecodeProgresses();
    DecodeReadsCertificates();
    assert Decode([]).None?;
    ChainBlocks(Decode, chain, []);
    assert text + [] == text && BlocksOf(chain) + [] == BlocksOf(chain);
    CertificatesOfBlocks(parse, chain);
    ConcatOfBlocks(chain);
    parsed := ParsePemChain(Decode, parse, text);
    assert BlocksOf(chain) != [];
    der := Pem2Der(Decode, text);
  }

  /* The readers, block by block */

  /** Blocks of another type are passed over; one certificate that does not parse spoils the chain. */
  lemma CertificatesStep(parse: CertParser, block: Block, rest: seq<Block>)
    ensures Certificates(parse, [block] + rest)
            == if block.typ != Ascii("CERTIFICATE") then Certificates(parse, rest)
               else if parse(block.bytes).None? || Certificates(parse, rest).None? then None
               else Some([parse(block.bytes).value] + Certificates(parse, rest).value)
  {
    assert ([block] + rest)[1..] == rest;
  }

  /** The blocks of certificates, in order. */
  function CertificateBlocks(blocks: seq<Block>): seq<Block> {
    if blocks == [] then []
    else (if blocks[0].typ == Ascii("CERTIFICATE") then [blocks[0]] else []) + CertificateBlocks(blocks[1..])
  }

  lemma {:induction false} CertificateBlocksAre(blocks: seq<Block>, b: Block)
    ensures b in CertificateBlocks(blocks) <==> b in blocks && b.typ == Ascii("CERTIFICATE")
  {
    if blocks != [] {
      CertificateBlocksAre(blocks[1..], b);
      assert blocks == [blocks[0]] + blocks[1..];
    }
  }

  /** There is a chain exactly when all certificate blocks parse, and then it has one certificate for
      each of them, in order. */
  lemma {:induction false} CertificatesExact(parse: CertParser, blocks: seq<Block>, cs: seq<Certificate>)
    ensures Certificates(parse, blocks) == Some(cs) <==> EachParses(parse, CertificateBlocks(blocks), cs)
  {
    if blocks != [] {
      var block, rest := blocks[0], blocks[1..];
      assert blocks == [block] + rest;
      CertificatesStep(parse, block, rest);
      if block.typ != CERTIFICATE {
        CertificatesExact(parse, rest, cs);
        assert CertificateBlocks(blocks) == CertificateBlocks(rest);
      } else if cs != [] {
        CertificatesExact(parse, rest, cs[1..]);
        MoreCertificates(parse, block, rest, cs);
      }
    }
  }

  lemma MoreCertificates(parse: CertParser, block: Block, rest: seq<Block>, cs: seq<Certificate>)
    requires block.typ == CERTIFICATE && cs != []
    requires Certificates(parse, rest) == Some(cs[1..]) <==> EachParses(parse, CertificateBlocks(rest), cs[1..])
    ensures Certificates(parse, [block] + rest) == Some(cs)
            <==> EachParses(parse, CertificateBlocks([block] + rest), cs)
  {
    CertificatesStep(parse, block, rest);
    assert ([block] + rest)[1..] == rest && cs == [cs[0]] + cs[1..];
    var bs := CertificateBlocks(rest);
    assert CertificateBlocks([block] + rest) == [block] + bs;
    if EachParses(parse, [block] + bs, cs) {
      assert forall i :: 0 <= i < |bs| ==> bs[i] == ([block] + bs)[i + 1] && cs[1..][i] == cs[i + 1];
    }
  }

  ghost predicate EachParses(parse: CertParser, blocks: seq<Block>, cs: seq<Certificate>) {
    |cs| == |blocks| && forall i :: 0 <= i < |cs| ==> parse(blocks[i].bytes) == Some(cs[i])
  }

  /** The raw bytes are those of all blocks, of whatever type. */
  lemma ConcatStep(block: Block, rest: seq<Block>)
    ensures Concat([block] + rest) == block.bytes + Concat(rest)
    ensures Concat([]) == []
  {
    assert ([block] + rest)[1..] == rest;
  }

  /** One line of standard base64 between the two marker lines, and one newline before the next. */
  lemma ChainTextExact(cert: Certificate, more: seq<Certificate>)
    ensures ChainText([cert])
            == Ascii("-----BEGIN CERTIFICATE-----") + [10] + Base64.Encode(Base64.Std, cert.raw)
               + [10] + Ascii("-----END CERTIFICATE-----")
    ensures more != [] ==> ChainText([cert] + more) == ChainText([cert]) + [10] + ChainText(more)
  {
    MarkerLines(Base64.Encode(Base64.Std, cert.raw));
    assert CertificateTexts([cert]) == [CertificateText(cert)];
    assert CertificateTexts([cert] + more)[1..] == CertificateTexts(more);
  }

  lemma BeginLine()
    ensures Ascii("-----BEGIN CERTIFICATE-----\n") == Ascii("-----BEGIN CERTIFICATE-----") + [10]
  {
  }

  lemma FinalLine()
    ensures Ascii("\n-----END CERTIFICATE-----") == [10] + Ascii("-----END CERTIFICATE-----")
  {
  }

  lemma MarkerLines(text: Bytes)
    ensures Ascii("-----BEGIN CERTIFICATE-----\n") + text + Ascii("\n-----END CERTIFICATE-----")
            == Ascii("-----BEGIN CERTIFICATE-----") + [10] + text + [10] + Ascii("-----END CERTIFICATE-----")
  {
    BeginLine();
    FinalLine();
    var begin, end := Ascii("-----BEGIN CERTIFICATE-----"), Ascii("-----END CERTIFICATE-----");
    ConcatAssociative(begin + [10] + text, [10], end);
  }
}
