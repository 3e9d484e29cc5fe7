/** The concrete syntax of CBOR (section 3 and Appendix C of RFC 8949): a tree
    that remembers every choice the encoder made, and the two directions between
    such trees and bytes. A raw message kept verbatim by the program is one `Item`. */
module CborSyntax {
  import opened Basics

  /** The initial byte and its argument; `width` is how many bytes carry the argument. */
  datatype Head = Head(major: int, width: int, arg: nat)

  datatype Item =
    | Leaf(h: Head)
    | Str(h: Head, data: Bytes)
    | Node(h: Head, kids: seq<Item>)
    | Indef(major: int, kids: seq<Item>)

  predicate ValidHead(h: Head) {
    && 0 <= h.major <= 7
    && h.width in {0, 1, 2, 4, 8}
    && (if h.width == 0 then h.arg < 24 else h.arg < Pow256(h.width))
  }

  function Info(h: Head): (i: int)
    requires ValidHead(h)
    ensures 0 <= i < 28
  {
    match h.width
    case 0 => h.arg
    case 1 => 24
    case 2 => 25
    case 4 => 26
    case _ => 27
  }

  function HeadBytes(h: Head): (s: Bytes)
    requires ValidHead(h)
    ensures |s| == 1 + h.width
  {
    [32 * h.major + Info(h)] + BigEndian(h.arg, h.width)
  }

  /** How many argument bytes follow an initial byte with this additional information. */
  function WidthOf(info: int): (width: int)
    ensures width in {0, 1, 2, 4, 8}
  {
    if info < 24 then 0 else if info == 24 then 1 else if info == 25 then 2 else if info == 26 then 4 else 8
  }

  function ReadHead(s: Bytes): (r: Option<(Head, Bytes)>)
    ensures r.Some? ==> |r.value.1| < |s|
  {
    if s == [] || s[0] % 32 > 27 then None else
    var info := s[0] % 32;
    var width := WidthOf(info);
    if |s| < 1 + width then None
    else Some((Head(s[0] / 32, width, if width == 0 then info else BigEndianValue(s[1..1 + width])), s[1 + width..]))
  }

  lemma FirstByteParts(major: int, info: int)
    requires 0 <= info < 32
    ensures (32 * major + info) / 32 == major && (32 * major + info) % 32 == info
  {
  }

  lemma ReadHeadOfHeadBytes(h: Head, rest: Bytes)
    requires ValidHead(h)
    ensures ReadHead(HeadBytes(h) + rest) == Some((h, rest))
  {
    var s := HeadBytes(h) + rest;
    FirstByteParts(h.major, Info(h));
    assert s[0] == 32 * h.major + Info(h);
    assert WidthOf(Info(h)) == h.width;
    assert s[1..1 + h.width] == BigEndian(h.arg, h.width);
    assert s[1 + h.width..] == rest;
    if h.width != 0 {
      BigEndianRoundTrip(h.arg, h.width);
    }
  }

  lemma HeadBytesOfReadHead(s: Bytes)
    requires ReadHead(s).Some?
    ensures ValidHead(ReadHead(s).value.0)
    ensures s == HeadBytes(ReadHead(s).value.0) + ReadHead(s).value.1
  {
    var n := 1 + WidthOf(s[0] % 32);
    HeadOfBytes(s[0], s[1..n], ReadHead(s).value.0);
    SplitTwice(s, n);
  }

  lemma SplitTwice(s: Bytes, n: nat)
    requires 1 <= n <= |s|
    ensures s == [s[0]] + s[1..n] + s[n..]
  {
  }

  lemma HeadOfBytes(first: Byte, argument: Bytes, h: Head)
    requires first % 32 <= 27 && |argument| == WidthOf(first % 32)
    requires h == Head(first / 32, |argument|, if argument == [] then first % 32 else BigEndianValue(argument))
    ensures ValidHead(h) && HeadBytes(h) == [first] + argument
  {
    BigEndianValueRoundTrip(argument);
    assert first == 32 * h.major + first % 32;
  }

  /** How many items a definite-length array, map or tag announces. */
  function KidCount(h: Head): nat {
    if h.major == 4 then h.arg else if h.major == 5 then 2 * h.arg else 1
  }

  predicate ValidLeaf(h: Head) {
    && h.major in {0, 1, 7}
    && (h.major == 7 && h.width == 1 ==> h.arg >= 32)
  }

  /** Chunks of an indefinite string are definite strings of the same kind; a map has whole pairs. */
  predicate ValidIndef(major: int, kids: seq<Item>) {
    && 2 <= major <= 5
    && (major <= 3 ==> forall k <- kids :: k.Str? && k.h.major == major)
    && (major == 5 ==> |kids| % 2 == 0)
  }

  predicate Wf(t: Item) {
    match t
    case Leaf(h) => ValidHead(h) && ValidLeaf(h)
    case Str(h, data) => ValidHead(h) && 2 <= h.major <= 3 && |data| == h.arg
    case Node(h, kids) => ValidHead(h) && 4 <= h.major <= 6 && |kids| == KidCount(h) && forall k <- kids :: Wf(k)
    case Indef(major, kids) => ValidIndef(major, kids) && forall k <- kids :: Wf(k)
  }

  predicate AllWf(ts: seq<Item>) {
    forall t <- ts :: Wf(t)
  }

  const BREAK: Byte := 0xff

  function Unparse(t: Item): (s: Bytes)
    requires Wf(t)
    ensures s != [] && s[0] != BREAK
    decreases t, 1
  {
    match t
    case Leaf(h) => HeadBytes(h)
    case Str(h, data) => HeadBytes(h) + data
    case Node(h, kids) => HeadBytes(h) + UnparseAll(kids)
    case Indef(major, kids) => [32 * major + 31] + UnparseAll(kids) + [BREAK]
  }

  function UnparseAll(ts: seq<Item>): (s: Bytes)
    requires AllWf(ts)
    ensures |s| >= |ts|
    decreases ts, 0
  {
    if ts == [] then [] else Unparse(ts[0]) + UnparseAll(ts[1..])
  }

  /** Reads one item from the front of `s` and returns it with what follows. */
  function Parse(s: Bytes): (r: Option<(Item, Bytes)>)
    ensures r.Some? ==> |r.value.1| < |s|
    decreases |s|, 0
  {
    if s != [] && s[0] % 32 == 31 then
      match ParseUntilBreak(s[1..])
      case None => None
      case Some((kids, rest)) =>
        if ValidIndef(s[0] / 32, kids) then Some((Indef(s[0] / 32, kids), rest)) else None
    else
      match ReadHead(s)
      case None => None
      case Some((h, rest)) =>
        if h.major in {2, 3} then
          if h.arg <= |rest| then Some((Str(h, rest[..h.arg]), rest[h.arg..])) else None
        else if 4 <= h.major <= 6 then
          match ParseMany(rest, KidCount(h))
          case None => None
          case Some((kids, rest')) => Some((Node(h, kids), rest'))
        else if ValidLeaf(h) then Some((Leaf(h), rest)) else None
  }

  function ParseMany(s: Bytes, n: nat): (r: Option<(seq<Item>, Bytes)>)
    ensures r.Some? ==> |r.value.1| <= |s|
    decreases |s|, 1
  {
    if n == 0 then Some(([], s)) else
    match Parse(s)
    case None => None
    case Some((t, rest)) =>
      match ParseMany(rest, n - 1)
      case None => None
      case Some((ts, rest')) => Some(([t] + ts, rest'))
  }

  function ParseUntilBreak(s: Bytes): (r: Option<(seq<Item>, Bytes)>)
    ensures r.Some? ==> |r.value.1| < |s|
    decreases |s|, 1
  {
    if s != [] && s[0] == BREAK then Some(([], s[1..])) else
    match Parse(s)
    case None => None
    case Some((t, rest)) =>
      match ParseUntilBreak(rest)
      case None => None
      case Some((ts, rest')) => Some(([t] + ts, rest'))
  }

  /** Items are self-delimiting: whatever follows, the parser stops exactly where the item ends. */
  lemma {:induction false} ParseUnparse(t: Item, rest: Bytes)
    requires Wf(t)
    ensures Parse(Unparse(t) + rest) == Some((t, rest))
    decreases t, 1
  {
    if t.Indef? {
      ParseUnparseIndef(t, rest);
    } else {
      ParseUnparseDefinite(t, rest);
    }
  }

  lemma {:induction false} ParseUnparseDefinite(t: Item, rest: Bytes)
    requires Wf(t) && !t.Indef?
    ensures Parse(Unparse(t) + rest) == Some((t, rest))
    decreases t, 0
  {
    var body := if t.Leaf? then [] else if t.Str? then t.data else UnparseAll(t.kids);
    assert Unparse(t) + rest == HeadBytes(t.h) + (body + rest);
    if t.Leaf? {
      assert body + rest == rest;
    } else if t.Node? {
      ParseManyUnparse(t.kids, rest);
    }
    ParseAfterHead(t.h, body + rest);
  }

  /** Behind a definite head the parser goes on with what the head announces. */
  lemma {:induction false} ParseAfterHead(h: Head, rest: Bytes)
    requires ValidHead(h)
    ensures Parse(HeadBytes(h) + rest) ==
            if h.major in {2, 3} then
              if h.arg <= |rest| then Some((Str(h, rest[..h.arg]), rest[h.arg..])) else None
            else if 4 <= h.major <= 6 then
              match ParseMany(rest, KidCount(h))
              case None => None
              case Some((kids, rest')) => Some((Node(h, kids), rest'))
            else if ValidLeaf(h) then Some((Leaf(h), rest)) else None
  {
    assert (HeadBytes(h) + rest)[0] % 32 == Info(h);
    ReadHeadOfHeadBytes(h, rest);
  }

  lemma {:induction false} ParseUnparseIndef(t: Item, rest: Bytes)
    requires Wf(t) && t.Indef?
    ensures Parse(Unparse(t) + rest) == Some((t, rest))
    decreases t, 0
  {
    var s := Unparse(t) + rest;
    assert s[0] % 32 == 31 && s[0] / 32 == t.major;
    assert s[1..] == UnparseAll(t.kids) + ([BREAK] + rest);
    ParseUntilBreakUnparse(t.kids, rest);
  }

  lemma {:induction false} ParseManyUnparse(ts: seq<Item>, rest: Bytes)
    requires AllWf(ts)
    ensures ParseMany(UnparseAll(ts) + rest, |ts|) == Some((ts, rest))
    decreases ts, 0
  {
    if ts == [] {
      assert UnparseAll(ts) + rest == rest;
    } else {
      assert UnparseAll(ts) + rest == Unparse(ts[0]) + (UnparseAll(ts[1..]) + rest);
      ParseUnparse(ts[0], UnparseAll(ts[1..]) + rest);
      ParseManyUnparse(ts[1..], rest);
      assert ts == [ts[0]] + ts[1..];
    }
  }

  lemma {:induction false} ParseUntilBreakUnparse(ts: seq<Item>, rest: Bytes)
    requires AllWf(ts)
    ensures ParseUntilBreak(UnparseAll(ts) + ([BREAK] + rest)) == Some((ts, rest))
    decreases ts, 0
  {
    var s := UnparseAll(ts) + ([BREAK] + rest);
    if ts == [] {
      assert s == [BREAK] + rest;
    } else {
      assert s == Unparse(ts[0]) + (UnparseAll(ts[1..]) + ([BREAK] + rest));
      ParseUnparse(ts[0], UnparseAll(ts[1..]) + ([BREAK] + rest));
      ParseUntilBreakUnparse(ts[1..], rest);
      assert ts == [ts[0]] + ts[1..];
    }
  }

  /** Nothing is lost in a parse: the tree reproduces the bytes it was read from. */
  lemma {:induction false} UnparseParse(s: Bytes)
    requires Parse(s).Some?
    ensures Wf(Parse(s).value.0)
    ensures s == Unparse(Parse(s).value.0) + Parse(s).value.1
    decreases |s|, 0
  {
    if s[0] % 32 == 31 {
      UnparseParseUntilBreak(s[1..]);
      UnparseIndef(s);
    } else {
      HeadBytesOfReadHead(s);
      var h, rest := ReadHead(s).value.0, ReadHead(s).value.1;
      if 4 <= h.major <= 6 {
        UnparseParseMany(rest, KidCount(h));
      }
      ParseAfterHead(h, rest);
      UnparseDefinite(h, rest);
    }
  }

  lemma {:induction false} UnparseDefinite(h: Head, rest: Bytes)
    requires ValidHead(h) && Parse(HeadBytes(h) + rest).Some?
    requires 4 <= h.major <= 6 && ParseMany(rest, KidCount(h)).Some? ==>
               var (kids, more) := ParseMany(rest, KidCount(h)).value;
               |kids| == KidCount(h) && AllWf(kids) && rest == UnparseAll(kids) + more
    ensures var (t, more) := Parse(HeadBytes(h) + rest).value;
            Wf(t) && HeadBytes(h) + rest == Unparse(t) + more
  {
    ParseAfterHead(h, rest);
    if 4 <= h.major <= 6 {
      var (kids, more) := ParseMany(rest, KidCount(h)).value;
      UnparseNode(h, kids, more);
    } else if h.major in {2, 3} {
      UnparseStr(h, rest);
    } else {
      assert Unparse(Leaf(h)) == HeadBytes(h);
    }
  }

  lemma UnparseNode(h: Head, kids: seq<Item>, more: Bytes)
    requires Wf(Node(h, kids))
    ensures HeadBytes(h) + (UnparseAll(kids) + more) == Unparse(Node(h, kids)) + more
  {
  }

  lemma UnparseStr(h: Head, rest: Bytes)
    requires ValidHead(h) && h.major in {2, 3} && h.arg <= |rest|
    ensures Wf(Str(h, rest[..h.arg]))
    ensures HeadBytes(h) + rest == Unparse(Str(h, rest[..h.arg])) + rest[h.arg..]
  {
    assert rest == rest[..h.arg] + rest[h.arg..];
  }

  lemma {:induction false} UnparseIndef(s: Bytes)
    requires Parse(s).Some? && s[0] % 32 == 31 && ParseUntilBreak(s[1..]).Some?
    requires AllWf(ParseUntilBreak(s[1..]).value.0)
    requires s[1..] == UnparseAll(ParseUntilBreak(s[1..]).value.0) + ([BREAK] + ParseUntilBreak(s[1..]).value.1)
    ensures Wf(Parse(s).value.0)
    ensures s == Unparse(Parse(s).value.0) + Parse(s).value.1
  {
    var (kids, rest) := ParseUntilBreak(s[1..]).value;
    var major := s[0] / 32;
    assert s == [32 * major + 31] + s[1..];
    IndefBytes(major, kids, rest);
  }

  lemma IndefBytes(major: int, kids: seq<Item>, rest: Bytes)
    requires Wf(Indef(major, kids))
    ensures Unparse(Indef(major, kids)) + rest == [32 * major + 31] + (UnparseAll(kids) + ([BREAK] + rest))
  {
  }

  lemma {:induction false} UnparseParseMany(s: Bytes, n: nat)
    requires ParseMany(s, n).Some?
    ensures |ParseMany(s, n).value.0| == n && AllWf(ParseMany(s, n).value.0)
    ensures s == UnparseAll(ParseMany(s, n).value.0) + ParseMany(s, n).value.1
    decreases |s|, 1
  {
    if n > 0 {
      UnparseParse(s);
      var t, rest := Parse(s).value.0, Parse(s).value.1;
      UnparseParseMany(rest, n - 1);
      UnparseCons(t, ParseMany(rest, n - 1).value.0, ParseMany(rest, n - 1).value.1);
    }
  }

  lemma {:induction false} UnparseParseUntilBreak(s: Bytes)
    requires ParseUntilBreak(s).Some?
    ensures AllWf(ParseUntilBreak(s).value.0)
    ensures s == UnparseAll(ParseUntilBreak(s).value.0) + ([BREAK] + ParseUntilBreak(s).value.1)
    decreases |s|, 1
  {
    if s[0] == BREAK {
      assert s == [] + ([s[0]] + s[1..]);
    } else {
      UnparseParse(s);
      var t, rest := Parse(s).value.0, Parse(s).value.1;
      UnparseParseUntilBreak(rest);
      UnparseCons(t, ParseUntilBreak(rest).value.0, [BREAK] + ParseUntilBreak(rest).value.1);
    }
  }

  lemma {:induction false} UnparseCons(t: Item, ts: seq<Item>, rest: Bytes)
    requires Wf(t) && AllWf(ts)
    ensures AllWf([t] + ts)
    ensures Unparse(t) + (UnparseAll(ts) + rest) == UnparseAll([t] + ts) + rest
  {
    assert ([t] + ts)[1..] == ts;
  }

  /** No item is a proper prefix of another, and equal bytes mean equal trees. */
  lemma PrefixFree(t1: Item, t2: Item, rest1: Bytes, rest2: Bytes)
    requires Wf(t1) && Wf(t2)
    requires Unparse(t1) + rest1 == Unparse(t2) + rest2
    ensures t1 == t2 && rest1 == rest2
  {
    ParseUnparse(t1, rest1);
    ParseUnparse(t2, rest2);
  }

  /** The decoder accepts a whole message only when one item fills it (no trailing bytes). */
  function ParseWhole(s: Bytes): Option<Item> {
    match Parse(s)
    case Some((t, rest)) => if rest == [] then Some(t) else None
    case None => None
  }

  /** `ParseWhole` and `Unparse` are inverse bijections between messages and well-formed trees. */
  lemma ParseWholeExact(s: Bytes, t: Item)
    ensures ParseWhole(s) == Some(t) <==> Wf(t) && Unparse(t) == s
  {
    if ParseWhole(s).Some? {
      UnparseParse(s);
    }
    if Wf(t) {
      ParseUnparse(t, []);
      assert Unparse(t) + [] == Unparse(t);
    }
  }

  /* The bytes themselves */

  lemma {:induction false} BigEndianBytes(n: nat)
    ensures BigEndian(n, 1) == [n % 0x100]
    ensures BigEndian(n, 2) == [n / 0x100 % 0x100, n % 0x100]
    ensures BigEndian(n, 4) == [n / 0x100_0000 % 0x100, n / 0x1_0000 % 0x100, n / 0x100 % 0x100, n % 0x100]
    ensures BigEndian(n, 8) == BigEndian(n / 0x1_0000_0000, 4) + BigEndian(n, 4)
  {
    var a, b, c := n / 0x100, n / 0x1_0000, n / 0x100_0000;
    assert a / 0x100 == b && b / 0x100 == c && c / 0x100 == n / 0x1_0000_0000;
    assert BigEndian(n, 1) == BigEndian(a, 0) + [n % 0x100];
    assert BigEndian(n, 2) == BigEndian(a, 1) + [n % 0x100] && BigEndian(a, 1) == BigEndian(b, 0) + [a % 0x100];
    assert BigEndian(n, 4) == BigEndian(a, 3) + [n % 0x100] && BigEndian(a, 3) == BigEndian(b, 2) + [a % 0x100];
    assert BigEndian(b, 2) == BigEndian(c, 1) + [b % 0x100];
    assert BigEndian(c, 1) == BigEndian(c / 0x100, 0) + [c % 0x100];
    LowBytes(n, a, b, c);
  }

  lemma {:induction false} LowBytes(n: nat, a: nat, b: nat, c: nat)
    requires a == n / 0x100 && b == a / 0x100 && c == b / 0x100 && c / 0x100 == n / 0x1_0000_0000
    ensures BigEndian(n, 8) == BigEndian(n / 0x1_0000_0000, 4) + BigEndian(n, 4)
  {
    var d := c / 0x100;
    assert BigEndian(n, 8) == BigEndian(a, 7) + [n % 0x100] && BigEndian(a, 7) == BigEndian(b, 6) + [a % 0x100];
    assert BigEndian(b, 6) == BigEndian(c, 5) + [b % 0x100] && BigEndian(c, 5) == BigEndian(d, 4) + [c % 0x100];
    assert BigEndian(n, 4) == BigEndian(a, 3) + [n % 0x100] && BigEndian(a, 3) == BigEndian(b, 2) + [a % 0x100];
    assert BigEndian(b, 2) == BigEndian(c, 1) + [b % 0x100];
    assert BigEndian(c, 1) == BigEndian(d, 0) + [c % 0x100];
  }

  /** The initial byte and its argument as section 3 of RFC 8949 lays them out. */
  lemma HeadLayout(h: Head)
    requires ValidHead(h)
    ensures h.width == 0 ==> HeadBytes(h) == [0x20 * h.major + h.arg]
    ensures h.width == 1 ==> HeadBytes(h) == [0x20 * h.major + 24] + BigEndian(h.arg, 1)
    ensures h.width == 2 ==> HeadBytes(h) == [0x20 * h.major + 25] + BigEndian(h.arg, 2)
    ensures h.width == 4 ==> HeadBytes(h) == [0x20 * h.major + 26] + BigEndian(h.arg, 4)
    ensures h.width == 8 ==> HeadBytes(h) == [0x20 * h.major + 27] + BigEndian(h.arg, 8)
  {
    if h.width == 0 {
      assert BigEndian(h.arg, 0) == [];
    }
  }

  lemma HeadRange(h: Head)
    ensures ValidHead(h) <==>
              && 0 <= h.major <= 7
              && (|| (h.width == 0 && h.arg < 24) || (h.width == 1 && h.arg < 0x100)
                  || (h.width == 2 && h.arg < 0x1_0000) || (h.width == 4 && h.arg < 0x1_0000_0000)
                  || (h.width == 8 && h.arg < 0x1_0000_0000_0000_0000))
  {
    Pow256Widths();
  }

  lemma UnparseOne(t: Item)
    requires Wf(t)
    ensures UnparseAll([t]) == Unparse(t)
  {
    assert UnparseAll([t]) == Unparse(t) + UnparseAll([t][1..]);
  }

  lemma UnparsePair(a: Item, b: Item)
    requires Wf(a) && Wf(b)
    ensures UnparseAll([a, b]) == Unparse(a) + Unparse(b)
  {
    assert [a, b][1..] == [b];
    UnparseOne(b);
  }

  lemma UnparseTriple(a: Item, b: Item, c: Item)
    requires Wf(a) && Wf(b) && Wf(c)
    ensures UnparseAll([a, b, c]) == Unparse(a) + (Unparse(b) + Unparse(c))
  {
    assert [a, b, c][1..] == [b, c];
    UnparsePair(b, c);
  }

  lemma UnparseFour(a: Item, b: Item, c: Item, d: Item)
    requires Wf(a) && Wf(b) && Wf(c) && Wf(d)
    ensures UnparseAll([a, b, c, d]) == Unparse(a) + (Unparse(b) + (Unparse(c) + Unparse(d)))
  {
    assert [a, b, c, d][1..] == [b, c, d];
    UnparseTriple(b, c, d);
  }

  /** Short strings and containers begin with one byte, 32-byte strings with two. */
  lemma UnparseShort(major: int, s: Bytes)
    requires 2 <= major <= 3 && |s| < 24
    ensures Wf(Str(Head(major, 0, |s|), s)) && Unparse(Str(Head(major, 0, |s|), s)) == [0x20 * major + |s|] + s
  {
    HeadLayout(Head(major, 0, |s|));
  }

  lemma Unparse32(major: int, s: Bytes)
    requires 2 <= major <= 3 && |s| == 32
    ensures Wf(Str(Head(major, 1, 32), s)) && Unparse(Str(Head(major, 1, 32), s)) == [0x20 * major + 24, 32] + s
  {
    LongHead(major, 32);
  }

  lemma LongHead(major: int, n: nat)
    requires 0 <= major <= 7 && n < 0x100
    ensures ValidHead(Head(major, 1, n)) && HeadBytes(Head(major, 1, n)) == [0x20 * major + 24, n]
  {
    HeadRange(Head(major, 1, n));
    HeadLayout(Head(major, 1, n));
    BigEndianOne(n);
  }

  lemma BigEndianOne(n: nat)
    requires n < 0x100
    ensures BigEndian(n, 1) == [n]
  {
    assert BigEndian(n, 1) == BigEndian(n / 256, 0) + [n % 256];
  }

  lemma UnparseShortNode(major: int, n: nat, kids: seq<Item>)
    requires 4 <= major <= 5 && n < 24 && |kids| == (if major == 4 then n else 2 * n) && AllWf(kids)
    ensures Wf(Node(Head(major, 0, n), kids))
    ensures Unparse(Node(Head(major, 0, n), kids)) == [0x20 * major + n] + UnparseAll(kids)
  {
    HeadLayout(Head(major, 0, n));
  }

  lemma UnparseShortLeaf(major: int, n: nat)
    requires major in {0, 1, 7} && n < 24
    ensures Wf(Leaf(Head(major, 0, n))) && Unparse(Leaf(Head(major, 0, n))) == [0x20 * major + n]
  {
    HeadLayout(Head(major, 0, n));
  }
}
