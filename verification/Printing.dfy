/** The printed form of a decoded header value, which must not depend on the order in which Go
    walks a map. */
module Printing {
  import opened Basics
  import opened CborValue
  import opened Sorting

  /* Scalars */

  const ZERO: Byte := '0' as int
  const MINUS: Byte := '-' as int
  const QUOTE: Byte := 34

  function Decimal(n: nat): (s: Bytes)
    ensures s != [] && ZERO <= s[0] <= ZERO + 9
  {
    if n < 10 then [ZERO + n] else Decimal(n / 10) + [ZERO + n % 10]
  }

  lemma {:induction false} DecimalInjective(a: nat, b: nat)
    requires Decimal(a) == Decimal(b)
    ensures a == b
  {
    var s, t := Decimal(a), Decimal(b);
    assert s[|s| - 1] == ZERO + a % 10 && t[|t| - 1] == ZERO + b % 10;
    if a >= 10 && b >= 10 {
      assert s[..|s| - 1] == Decimal(a / 10) && t[..|t| - 1] == Decimal(b / 10);
      DecimalInjective(a / 10, b / 10);
    }
  }

  function SignedText(i: int): Bytes {
    if i < 0 then [MINUS] + Decimal(-i) else Decimal(i)
  }

  function BoolText(b: bool): Bytes {
    if b then Ascii("true") else Ascii("false")
  }

  function HexDigit(n: nat): Byte
    requires n < 16
  {
    if n < 10 then ZERO + n else 'a' as int + (n - 10)
  }

  function Hex(b: Bytes): Bytes {
    if b == [] then [] else [HexDigit(b[0] / 16), HexDigit(b[0] % 16)] + Hex(b[1..])
  }

  datatype Entry = Entry(ks: Bytes, vs: Bytes)

  function EntryKey(e: Entry): Bytes {
    e.ks
  }

  /** How one run prints: quoted strings, the text of floats, tags and what no int64 can hold, the
      order in which it meets map entries, and its sort, which may treat equal keys differently each
      time. */
  datatype Printer = Printer(
    quote: Bytes -> Bytes,
    other: Value -> Bytes,
    order: Order,
    sort: (seq<nat>, seq<Entry>) -> seq<Entry>)

  ghost predicate LawfulQuote(quote: Bytes -> Bytes) {
    && (forall s :: quote(s) != [] && quote(s)[0] == QUOTE)
    && forall s, t :: quote(s) == quote(t) ==> s == t
  }

  ghost predicate ValidPrinter(p: Printer) {
    LawfulQuote(p.quote) && ValidOrder(p.order) && forall path, s :: IsSortOf(EntryKey, p.sort(path, s), s)
  }

  /** Two runs of the program. */
  ghost predicate SameProgram(p: Printer, q: Printer) {
    p.quote == q.quote && p.other == q.other
  }

  function Text(p: Printer, v: Value): Bytes {
    match v
    case VUint(n) => Decimal(n)
    case VInt(i) => if i < MIN_INT64 then p.other(v) else SignedText(i)
    case VBytes(b) => Ascii("0x") + Hex(b)
    case VText(s) => p.quote(s)
    case VBool(b) => BoolText(b)
    case VNull => Ascii("null")
    case VSimple(n) => Decimal(n)
    case _ => p.other(v)
  }

  /** A byte string as a key has a string type of its own, which is printed as it is. */
  function KeyText(p: Printer, k: Key): Bytes {
    match k
    case KUint(n) => Decimal(n)
    case KInt(i) => SignedText(i)
    case KBytes(b) => b
    case KText(s) => p.quote(s)
    case KBool(b) => BoolText(b)
    case KNull => Ascii("null")
    case KSimple(n) => Decimal(n)
  }

  /* Containers */

  const SEPARATOR: Bytes := Ascii(", ")

  function JoinTexts(parts: seq<Bytes>): Bytes {
    if parts == [] then []
    else if |parts| == 1 then parts[0]
    else parts[0] + SEPARATOR + JoinTexts(parts[1..])
  }

  function EntryText(e: Entry): Bytes {
    e.ks + Ascii(": ") + e.vs
  }

  function EntryTexts(entries: seq<Entry>): (parts: seq<Bytes>)
    ensures |parts| == |entries|
  {
    seq(|entries|, i requires 0 <= i < |entries| => EntryText(entries[i]))
  }

  function Line(entries: seq<Entry>): Bytes {
    JoinTexts(EntryTexts(entries))
  }

  function MapText(entries: seq<Entry>): Bytes {
    Ascii("{") + Line(entries) + Ascii("}")
  }

  function ArrayText(parts: seq<Bytes>): Bytes {
    Ascii("[") + JoinTexts(parts) + Ascii("]")
  }

  function Format(p: Printer, v: Value, path: seq<nat>): Bytes
    requires ValidPrinter(p)
    decreases v, 1, 0
  {
    match v
    case VMap(m) =>
      assert Lists(p.order(path, m), m);
      MapText(p.sort(path, FormatEntries(p, v, p.order(path, m), path)))
    case VArr(xs) => ArrayText(FormatAll(p, xs, path))
    case _ => Text(p, v)
  }

  function FormatAll(p: Printer, xs: seq<Value>, path: seq<nat>): seq<Bytes>
    requires ValidPrinter(p)
    decreases xs, 0, 0
  {
    if xs == [] then [] else [Format(p, xs[0], path + [|xs|])] + FormatAll(p, xs[1..], path)
  }

  function FormatEntries(p: Printer, v: Value, ks: seq<Key>, path: seq<nat>): (es: seq<Entry>)
    requires ValidPrinter(p) && v.VMap? && forall k <- ks :: k in v.m
    ensures |es| == |ks|
    decreases v, 0, |ks|
  {
    if ks == [] then [] else
    [Entry(KeyText(p, ks[0]), Format(p, v.m[ks[0]], path + [|ks|]))] + FormatEntries(p, v, ks[1..], path)
  }

  /* Which keys print alike */

  /** The keys of a decoded map, but for byte strings and numbered simple values. */
  predicate UsualKey(k: Key) {
    !k.KBytes? && !k.KSimple?
  }

  /** Such keys print alike only if they are the same number under two integer types. */
  lemma KeyTextsExact(p: Printer, k1: Key, k2: Key)
    requires ValidPrinter(p) && UsualKey(k1) && UsualKey(k2)
    ensures KeyText(p, k1) == KeyText(p, k2) <==> NormKey(k1) == NormKey(k2)
  {
    if KeyText(p, k1) == KeyText(p, k2) {
      FirstBytes(p, k1);
      FirstBytes(p, k2);
      if k1.KUint? || k1.KInt? {
        NumberTexts(if k1.KUint? then k1.n else k1.i, if k2.KUint? then k2.n else k2.i);
      }
    }
  }

  lemma NumberTexts(a: int, b: int)
    requires SignedText(a) == SignedText(b)
    ensures a == b
  {
    if a < 0 && b < 0 {
      assert SignedText(a)[1..] == Decimal(-a) && SignedText(b)[1..] == Decimal(-b);
      DecimalInjective(-a, -b);
    } else if a >= 0 && b >= 0 {
      DecimalInjective(a, b);
    }
  }

  lemma FirstBytes(p: Printer, k: Key)
    requires ValidPrinter(p) && UsualKey(k)
    ensures KeyText(p, k) != []
    ensures var c := KeyText(p, k)[0];
            match k
            case KText(_) => c == QUOTE
            case KBool(b) => c == if b then 't' as int else 'f' as int
            case KNull => c == 'n' as int
            case _ => c == MINUS || ZERO <= c <= ZERO + 9
  {
  }

  /* The texts themselves */

  const HEX_DIGITS: string := "0123456789abcdef"

  lemma HexDigitExact(n: nat)
    requires n < 16
    ensures HexDigit(n) == HEX_DIGITS[n] as int
  {
    assert "0123456789abcdef"[n] as int == if n < 10 then 48 + n else 87 + n;
  }

  /** Two digits a byte, the high one first. */
  lemma {:induction false} HexExact(b: Bytes, i: nat)
    requires i < |b|
    ensures |Hex(b)| == 2 * |b|
    ensures Hex(b)[2 * i] == HEX_DIGITS[b[i] / 16] as int && Hex(b)[2 * i + 1] == HEX_DIGITS[b[i] % 16] as int
  {
    HexDigitExact(b[i] / 16);
    HexDigitExact(b[i] % 16);
    if |b| > 1 {
      HexExact(b[1..], if i == 0 then 0 else i - 1);
    }
  }

  /** The number a text of digits stands for. */
  function DecimalValue(s: Bytes): int {
    if s == [] then 0 else 10 * DecimalValue(s[..|s| - 1]) + (s[|s| - 1] as int - 48)
  }

  /** Decimal digits without a leading zero. */
  lemma {:induction false} DecimalExact(n: nat)
    ensures DecimalValue(Decimal(n)) == n && (forall c <- Decimal(n) :: 48 <= c <= 57)
    ensures n > 0 ==> Decimal(n)[0] != 48
    ensures n == 0 ==> Decimal(n) == [48]
  {
    if n < 10 {
      assert [ZERO + n][..0] == [];
    } else {
      DecimalExact(n / 10);
      var s := Decimal(n);
      assert s[..|s| - 1] == Decimal(n / 10);
    }
  }

  /** What each kind of scalar prints. */
  lemma ScalarTexts(p: Printer, n: nat, i: int, b: Bytes)
    ensures Text(p, VNull) == Ascii("null")
    ensures Text(p, VBool(true)) == Ascii("true") && Text(p, VBool(false)) == Ascii("false")
    ensures KeyText(p, KBytes(b)) == b && KeyText(p, KText(b)) == p.quote(b) && KeyText(p, KUint(n)) == Decimal(n)
    ensures Text(p, VUint(n)) == Text(p, VSimple(n)) == Decimal(n)
    ensures MIN_INT64 <= i < 0 ==> Text(p, VInt(i)) == [45] + Decimal(-i)
    ensures i >= 0 ==> Text(p, VInt(i)) == Decimal(i)
    ensures Text(p, VBytes(b)) == [48, 120] + Hex(b) && Text(p, VText(b)) == p.quote(b)
  {
  }

  /** Brackets and braces, a colon and a blank within an entry, a comma and a blank between two. */
  lemma ContainerTexts(parts: seq<Bytes>, es: seq<Entry>, e: Entry)
    ensures ArrayText(parts) == [91] + JoinTexts(parts) + [93]
    ensures MapText(es) == [123] + Line(es) + [125]
    ensures EntryText(e) == e.ks + [58, 32] + e.vs
    ensures Line(es) == JoinTexts(seq(|es|, i requires 0 <= i < |es| => EntryText(es[i])))
  {
    assert Ascii("[") == [91] && Ascii("]") == [93] && Ascii("{") == [123] && Ascii("}") == [125];
    assert Ascii(": ") == [58, 32];
    assert EntryTexts(es) == seq(|es|, i requires 0 <= i < |es| => EntryText(es[i]));
  }

  lemma JoinExact(x: Bytes, more: seq<Bytes>)
    ensures JoinTexts([]) == []
    ensures JoinTexts([x] + more) == if more == [] then x else x + [44, 32] + JoinTexts(more)
  {
    assert ([x] + more)[1..] == more;
  }

  /** Each element of an array has its place in the text, and each key of a map its entry. */
  lemma {:induction false} ElementTexts(p: Printer, xs: seq<Value>, path: seq<nat>, i: nat)
    requires ValidPrinter(p) && i < |xs|
    ensures |FormatAll(p, xs, path)| == |xs|
    ensures FormatAll(p, xs, path)[i] == Format(p, xs[i], path + [|xs| - i])
    decreases |xs|
  {
    if i > 0 {
      ElementTexts(p, xs[1..], path, i - 1);
    } else if |xs| > 1 {
      ElementTexts(p, xs[1..], path, 0);
    }
  }

  lemma {:induction false} EntryTextsOf(p: Printer, v: Value, ks: seq<Key>, path: seq<nat>, i: nat)
    requires ValidPrinter(p) && v.VMap? && (forall k <- ks :: k in v.m) && i < |ks|
    ensures FormatEntries(p, v, ks, path)[i] == Entry(KeyText(p, ks[i]), Format(p, v.m[ks[i]], path + [|ks| - i]))
    decreases |ks|
  {
    if i > 0 {
      EntryTextsOf(p, v, ks[1..], path, i - 1);
    }
  }

  /** The text of a map is that of its entries in the order of their key texts. */
  lemma MapIsSorted(p: Printer, m: map<Key, Value>, path: seq<nat>) returns (ks: seq<Key>, sorted: seq<Entry>)
    requires ValidPrinter(p)
    ensures Lists(ks, m) && IsSortOf(EntryKey, sorted, FormatEntries(p, VMap(m), ks, path))
    ensures Format(p, VMap(m), path) == MapText(sorted)
  {
    ks := p.order(path, m);
    assert Lists(ks, m);
    sorted := p.sort(path, FormatEntries(p, VMap(m), ks, path));
  }
}
