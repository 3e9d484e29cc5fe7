/** Base64 (sections 4 and 5 of RFC 4648) as Go reads and writes it: the padded standard alphabet
    and the unpadded URL alphabet. A decoder skips line breaks and ignores spare low bits. */
module Base64 {
  import opened Basics

  datatype Encoding = Std | RawUrl

  type Sextet = x: int | 0 <= x < 64

  const PAD: Byte := '=' as int

  /** Digits and padding only: nothing a line-oriented reader would stop at. */
  predicate Printable(c: Byte) {
    '0' as int <= c <= '9' as int || 'A' as int <= c <= 'Z' as int || 'a' as int <= c <= 'z' as int
    || c in {'+' as int, '/' as int, '-' as int, '_' as int, PAD}
  }

  function Digit(e: Encoding, i: Sextet): (c: Byte)
    ensures Undigit(e, c) == Some(i) && Printable(c) && c != PAD
  {
    if i < 26 then 'A' as int + i
    else if i < 52 then 'a' as int + (i - 26)
    else if i < 62 then '0' as int + (i - 52)
    else if i == 62 then (if e.Std? then '+' as int else '-' as int)
    else if e.Std? then '/' as int else '_' as int
  }

  function Undigit(e: Encoding, c: Byte): Option<Sextet> {
    if 'A' as int <= c <= 'Z' as int then Some(c - 'A' as int)
    else if 'a' as int <= c <= 'z' as int then Some(c - 'a' as int + 26)
    else if '0' as int <= c <= '9' as int then Some(c - '0' as int + 52)
    else if c == (if e.Std? then '+' as int else '-' as int) then Some(62)
    else if c == (if e.Std? then '/' as int else '_' as int) then Some(63)
    else None
  }

  /** How many sextets there are in `len` bytes. */
  function SextetCount(len: nat): nat {
    4 * (len / 3) + (if len % 3 == 0 then 0 else len % 3 + 1)
  }

  /** The bits of a byte string six at a time, zero bits filling up the last one. */
  function Sextets(b: Bytes): (ds: seq<Sextet>)
    ensures |ds| == SextetCount(|b|)
  {
    if b == [] then []
    else if |b| == 1 then [b[0] / 4, b[0] % 4 * 16]
    else if |b| == 2 then [b[0] / 4, b[0] % 4 * 16 + b[1] / 16, b[1] % 16 * 4]
    else FourSextets(b[0], b[1], b[2]) + Sextets(b[3..])
  }

  function FourSextets(b0: Byte, b1: Byte, b2: Byte): (ds: seq<Sextet>)
    ensures |ds| == 4
  {
    [b0 / 4, b0 % 4 * 16 + b1 / 16, b1 % 16 * 4 + b2 / 64, b2 % 64]
  }

  function Octet0(d0: int, d1: int): Byte
    requires 0 <= d0 < 64 && 0 <= d1 < 64
  {
    d0 * 4 + d1 / 16
  }

  function Octet1(d1: int, d2: int): Byte
    requires 0 <= d1 < 64 && 0 <= d2 < 64
  {
    d1 % 16 * 16 + d2 / 4
  }

  function Octet2(d2: int, d3: int): Byte
    requires 0 <= d2 < 64 && 0 <= d3 < 64
  {
    d2 % 4 * 64 + d3
  }

  /** The bytes of a sequence of sextets; a single last sextet is too little for one. */
  function Octets(ds: seq<Sextet>): Bytes {
    if |ds| < 2 then []
    else if |ds| == 2 then [Octet0(ds[0], ds[1])]
    else if |ds| == 3 then [Octet0(ds[0], ds[1]), Octet1(ds[1], ds[2])]
    else [Octet0(ds[0], ds[1]), Octet1(ds[1], ds[2]), Octet2(ds[2], ds[3])] + Octets(ds[4..])
  }

  function Digits(e: Encoding, ds: seq<Sextet>): (s: Bytes)
    ensures |s| == |ds| && forall i :: 0 <= i < |ds| ==> s[i] == Digit(e, ds[i])
  {
    seq(|ds|, i requires 0 <= i < |ds| => Digit(e, ds[i]))
  }

  /** What fills the last group of four. */
  function Padding(e: Encoding, len: nat): Bytes {
    if e.RawUrl? || len % 3 == 0 then [] else if len % 3 == 2 then [PAD] else [PAD, PAD]
  }

  function Encode(e: Encoding, b: Bytes): Bytes {
    Digits(e, Sextets(b)) + Padding(e, |b|)
  }

  /** The digits of a text without its padding, if the padding is where it must be. */
  function Unpad(e: Encoding, s: Bytes): Option<Bytes> {
    if e.RawUrl? then Some(s)
    else if |s| % 4 != 0 then None
    else if s != [] && s[|s| - 1] == PAD then Some(if s[|s| - 2] == PAD then s[..|s| - 2] else s[..|s| - 1])
    else Some(s)
  }

  predicate AllDigits(e: Encoding, s: Bytes) {
    forall i :: 0 <= i < |s| ==> Undigit(e, s[i]).Some?
  }

  function Undigits(e: Encoding, s: Bytes): seq<Sextet>
    requires AllDigits(e, s)
  {
    seq(|s|, i requires 0 <= i < |s| => Undigit(e, s[i]).value)
  }

  function StripLineBreaks(s: Bytes): Bytes {
    if s == [] then [] else (if s[0] == CR || s[0] == LF then [] else [s[0]]) + StripLineBreaks(s[1..])
  }

  function Decode(e: Encoding, s: Bytes): Option<Bytes> {
    match Unpad(e, StripLineBreaks(s))
    case None => None
    case Some(text) =>
      if |text| % 4 != 1 && AllDigits(e, text) then Some(Octets(Undigits(e, text))) else None
  }

  lemma ThreeOctets(b0: Byte, b1: Byte, b2: Byte)
    ensures Octet0(b0 / 4, b0 % 4 * 16 + b1 / 16) == b0
    ensures Octet1(b0 % 4 * 16 + b1 / 16, b1 % 16 * 4 + b2 / 64) == b1
    ensures Octet2(b1 % 16 * 4 + b2 / 64, b2 % 64) == b2
  {
  }

  lemma OctetsOfFour(ds: seq<Sextet>, rest: seq<Sextet>)
    requires |ds| == 4
    ensures Octets(ds + rest) == [Octet0(ds[0], ds[1]), Octet1(ds[1], ds[2]), Octet2(ds[2], ds[3])] + Octets(rest)
  {
    assert (ds + rest)[4..] == rest;
  }

  lemma OctetsOfOne(b0: Byte)
    ensures Octets(Sextets([b0])) == [b0]
  {
    ThreeOctets(b0, 0, 0);
  }

  lemma OctetsOfTriple(d0: Sextet, d1: Sextet, d2: Sextet)
    ensures Octets([d0, d1, d2]) == [Octet0(d0, d1), Octet1(d1, d2)]
  {
  }

  lemma OctetsOfTwo(b0: Byte, b1: Byte)
    ensures Octets(Sextets([b0, b1])) == [b0, b1]
  {
    var d0, d1, d2 := b0 / 4, b0 % 4 * 16 + b1 / 16, b1 % 16 * 4;
    TwoOctets(b0, b1);
    assert Sextets([b0, b1]) == [d0, d1, d2];
    OctetsOfTriple(d0, d1, d2);
  }

  lemma TwoOctets(b0: Byte, b1: Byte)
    ensures Octet0(b0 / 4, b0 % 4 * 16 + b1 / 16) == b0
    ensures Octet1(b0 % 4 * 16 + b1 / 16, b1 % 16 * 4) == b1
  {
  }

  lemma OctetsOfThree(b0: Byte, b1: Byte, b2: Byte, ds: seq<Sextet>)
    ensures Octets(FourSextets(b0, b1, b2) + ds) == [b0, b1, b2] + Octets(ds)
  {
    ThreeOctets(b0, b1, b2);
    OctetsOfFour(FourSextets(b0, b1, b2), ds);
  }

  lemma {:induction false} OctetsOfSextets(b: Bytes)
    ensures Octets(Sextets(b)) == b
  {
    if |b| == 1 {
      OctetsOfOne(b[0]);
      assert b == [b[0]];
    } else if |b| == 2 {
      OctetsOfTwo(b[0], b[1]);
      assert b == [b[0], b[1]];
    } else if |b| > 2 {
      OctetsOfSextets(b[3..]);
      SextetsOfMore(b[0], b[1], b[2], b[3..]);
      OctetsOfThree(b[0], b[1], b[2], Sextets(b[3..]));
      assert b == [b[0], b[1], b[2]] + b[3..];
    }
  }

  lemma EncodePrintable(e: Encoding, b: Bytes)
    ensures forall c <- Encode(e, b) :: Printable(c)
  {
    DigitsPrintable(e, Sextets(b));
    forall c <- Encode(e, b) ensures Printable(c) {
      assert c in Digits(e, Sextets(b)) || c == PAD;
    }
  }

  lemma DigitsPrintable(e: Encoding, ds: seq<Sextet>)
    ensures forall c <- Digits(e, ds) :: Printable(c) && c != PAD
  {
    forall c <- Digits(e, ds) ensures Printable(c) && c != PAD {
      var i :| 0 <= i < |ds| && c == Digit(e, ds[i]);
    }
  }

  lemma {:induction false} StripPrintable(s: Bytes)
    requires forall c <- s :: Printable(c)
    ensures StripLineBreaks(s) == s
  {
    if s != [] {
      StripPrintable(s[1..]);
      assert s[0] in s && s == [s[0]] + s[1..];
    }
  }

  lemma {:induction false} SextetsCount(b: Bytes)
    ensures |Sextets(b)| % 4 == if |b| % 3 == 0 then 0 else |b| % 3 + 1
  {
  }

  lemma UnpadEncode(e: Encoding, b: Bytes)
    ensures Unpad(e, Encode(e, b)) == Some(Digits(e, Sextets(b)))
  {
    UnpadDigits(e, Sextets(b), |b|);
  }

  lemma PaddingFits(len: nat)
    ensures (SextetCount(len) + |Padding(Std, len)|) % 4 == 0
    ensures Padding(Std, len) != [] ==> SextetCount(len) > 0
  {
    var groups := len / 3 + if len % 3 == 0 then 0 else 1;
    assert SextetCount(len) + |Padding(Std, len)| == 4 * groups;
  }

  lemma UnpadDigits(e: Encoding, ds: seq<Sextet>, len: nat)
    requires |ds| == SextetCount(len)
    ensures Unpad(e, Digits(e, ds) + Padding(e, len)) == Some(Digits(e, ds))
  {
    var s := Digits(e, ds);
    if e.RawUrl? {
      assert s + [] == s;
    } else {
      DigitsPrintable(e, ds);
      PaddingFits(len);
      assert s != [] ==> s[|s| - 1] in s;
      UnpadPadded(s, Padding(Std, len));
    }
  }

  lemma UnpadPadded(s: Bytes, padding: Bytes)
    requires (|s| + |padding|) % 4 == 0 && (s != [] ==> s[|s| - 1] != PAD) && (padding != [] ==> s != [])
    requires padding == [] || padding == [PAD] || padding == [PAD, PAD]
    ensures Unpad(Std, s + padding) == Some(s)
  {
    var t := s + padding;
    assert t[..|s|] == s;
    if padding == [] {
      assert t == s;
    } else {
      assert t[|t| - 1] == PAD && t[|s| - 1] == s[|s| - 1] && t[|t| - 2] == if |padding| == 1 then s[|s| - 1] else PAD;
    }
  }

  lemma UndigitsOfDigits(e: Encoding, ds: seq<Sextet>)
    ensures AllDigits(e, Digits(e, ds)) && Undigits(e, Digits(e, ds)) == ds
  {
    var s := Digits(e, ds);
    assert forall i :: 0 <= i < |ds| ==> Undigit(e, s[i]) == Some(ds[i]);
  }

  lemma DecodeText(e: Encoding, s: Bytes, ds: seq<Sextet>)
    requires StripLineBreaks(s) == s && Unpad(e, s) == Some(Digits(e, ds)) && |ds| % 4 != 1
    ensures Decode(e, s) == Some(Octets(ds))
  {
    UndigitsOfDigits(e, ds);
  }

  lemma {:induction false} DecodeEncode(e: Encoding, b: Bytes)
    ensures Decode(e, Encode(e, b)) == Some(b)
  {
    EncodePrintable(e, b);
    StripPrintable(Encode(e, b));
    UnpadEncode(e, b);
    SextetsCount(b);
    DecodeText(e, Encode(e, b), Sextets(b));
    OctetsOfSextets(b);
  }

  /* The alphabets, the bits, and what is refused */

  const UPPER: string := "ABCDEFGHIJKLMNOPQRSTUVWXYZ"
  const LOWER: string := "abcdefghijklmnopqrstuvwxyz"
  const NUMERALS: string := "0123456789"

  /** The 64 digits in the order of RFC 4648. */
  function AlphabetOf(e: Encoding): (s: string)
    ensures |s| == 64
  {
    UPPER + LOWER + NUMERALS + Signs(e)
  }

  function Signs(e: Encoding): (s: string)
    ensures |s| == 2
  {
    if e.Std? then "+/" else "-_"
  }

  lemma UpperLetters(i: nat)
    requires i < 26
    ensures UPPER[i] as int == 65 + i
  {
    assert "ABCDEFGHIJKLMNOPQRSTUVWXYZ"[i] as int == 65 + i;
  }

  lemma LowerLetters(i: nat)
    requires i < 26
    ensures LOWER[i] as int == 97 + i
  {
    assert "abcdefghijklmnopqrstuvwxyz"[i] as int == 97 + i;
  }

  lemma Numerals(i: nat)
    requires i < 10
    ensures NUMERALS[i] as int == 48 + i
  {
    assert "0123456789"[i] as int == 48 + i;
  }

  lemma PartAt(a: string, b: string, c: string, d: string, i: nat)
    requires |a| == |b| == 26 && |c| == 10 && |d| == 2 && i < 64
    ensures (a + b + c + d)[i]
            == if i < 26 then a[i] else if i < 52 then b[i - 26] else if i < 62 then c[i - 52] else d[i - 62]
  {
  }

  lemma SignDigits(e: Encoding, i: Sextet)
    requires i >= 62
    ensures Digit(e, i) == Signs(e)[i - 62] as int
  {
  }

  lemma Alphabets(e: Encoding, i: Sextet)
    ensures Digit(e, i) == AlphabetOf(e)[i] as int
  {
    PartAt(UPPER, LOWER, NUMERALS, Signs(e), i);
    if i < 26 {
      UpperLetters(i);
    } else if i < 52 {
      LowerLetters(i - 26);
    } else if i < 62 {
      Numerals(i - 52);
    } else {
      SignDigits(e, i);
    }
  }

  lemma UndigitExact(e: Encoding, c: Byte, i: Sextet)
    ensures Undigit(e, c) == Some(i) <==> c == AlphabetOf(e)[i] as int
  {
    Alphabets(e, i);
  }

  lemma DigitOf(e: Encoding, c: Byte)
    ensures Undigit(e, c).Some? <==> exists i: Sextet :: c == AlphabetOf(e)[i] as int
  {
    if Undigit(e, c).Some? {
      UndigitExact(e, c, Undigit(e, c).value);
    }
    if exists i: Sextet :: c == AlphabetOf(e)[i] as int {
      var i: Sextet :| c == AlphabetOf(e)[i] as int;
      UndigitExact(e, c, i);
    }
  }

  /** Every three bytes are one number of 24 bits and four digits, both with the highest part first. */
  lemma BitsOfFour(b0: Byte, b1: Byte, b2: Byte)
    ensures var ds: seq<int> := FourSextets(b0, b1, b2);
            b0 as int * 0x1_0000 + b1 as int * 0x100 + b2 as int
            == ds[0] * 0x4_0000 + ds[1] * 0x1000 + ds[2] * 0x40 + ds[3]
  {
  }

  /** Reading puts the bits of the digits in the same order; what is left of the last digit is dropped. */
  lemma BitsOfOctets(d0: Sextet, d1: Sextet, d2: Sextet, d3: Sextet)
    ensures var bs: seq<int> := Octets([d0, d1, d2, d3]);
            |bs| == 3 && bs[0] * 0x1_0000 + bs[1] * 0x100 + bs[2]
                         == d0 as int * 0x4_0000 + d1 as int * 0x1000 + d2 as int * 0x40 + d3 as int
    ensures Octets([d0, d1, d2]) == Octets([d0, d1, d2, 0])[..2]
    ensures Octets([d0, d1]) == Octets([d0, d1, 0, 0])[..1]
  {
    OctetsOfFour([d0, d1, d2, d3], []);
    OctetsOfFour([d0, d1, d2, 0], []);
    OctetsOfFour([d0, d1, 0, 0], []);
    assert [d0, d1, d2, d3] + [] == [d0, d1, d2, d3] && [d0, d1, d2, 0] + [] == [d0, d1, d2, 0];
    assert [d0, d1, 0, 0] + [] == [d0, d1, 0, 0];
  }

  /** The last one or two bytes are filled up with zero bits, and the digits without any of theirs left out. */
  lemma SextetsOfOne(b: Byte)
    ensures Sextets([b]) == FourSextets(b, 0, 0)[..2]
  {
  }

  lemma SextetsOfTwo(b0: Byte, b1: Byte)
    ensures Sextets([b0, b1]) == FourSextets(b0, b1, 0)[..3]
  {
  }

  lemma SextetsOfMore(b0: Byte, b1: Byte, b2: Byte, rest: Bytes)
    ensures Sextets([b0, b1, b2] + rest) == FourSextets(b0, b1, b2) + Sextets(rest)
  {
    assert ([b0, b1, b2] + rest)[3..] == rest;
  }

  /** Only the two line ends are skipped. */
  lemma {:induction false} StripExact(a: Bytes, c: Byte, b: Bytes)
    ensures StripLineBreaks(a + ([c] + b))
            == StripLineBreaks(a) + ((if c == 10 || c == 13 then [] else [c]) + StripLineBreaks(b))
  {
    if a == [] {
      assert a + ([c] + b) == [c] + b && ([c] + b)[1..] == b;
    } else {
      assert (a + ([c] + b))[1..] == a[1..] + ([c] + b);
      StripExact(a[1..], c, b);
    }
  }

  predicate InAlphabet(e: Encoding, c: Byte) {
    exists i: Sextet :: c == AlphabetOf(e)[i] as int
  }

  /** The URL form takes digits only, and no length that leaves one over. */
  lemma RawUrlDecodes(s: Bytes)
    ensures var t := StripLineBreaks(s);
            Decode(RawUrl, s).Some? <==> |t| % 4 != 1 && forall c <- t :: InAlphabet(RawUrl, c)
  {
    AllDigitsExact(RawUrl, StripLineBreaks(s));
  }

  lemma AllDigitsExact(e: Encoding, t: Bytes)
    ensures AllDigits(e, t) <==> forall c <- t :: InAlphabet(e, c)
  {
    forall c: Byte ensures Undigit(e, c).Some? <==> InAlphabet(e, c) {
      DigitOf(e, c);
    }
    if AllDigits(e, t) {
      forall c <- t ensures InAlphabet(e, c) {
        var i :| 0 <= i < |t| && t[i] == c;
      }
    }
    if forall c <- t :: InAlphabet(e, c) {
      forall i | 0 <= i < |t| ensures Undigit(e, t[i]).Some? {
        assert t[i] in t;
      }
    }
  }

  /** `t` is whole groups of four characters: digits, and at most two equals signs at the very end. */
  predicate IsPadded(t: Bytes, pads: nat) {
    && |t| % 4 == 0 && pads <= 2 && pads <= |t|
    && (forall c <- t[..|t| - pads] :: InAlphabet(Std, c))
    && forall i :: |t| - pads <= i < |t| ==> t[i] == 61
  }

  ghost predicate WellPadded(t: Bytes) {
    exists pads: nat :: IsPadded(t, pads)
  }

  lemma PadIsNoDigit()
    ensures !InAlphabet(Std, 61)
  {
    DigitOf(Std, 61);
  }

  lemma UnpadIs(t: Bytes, pads: nat)
    requires IsPadded(t, pads)
    ensures Unpad(Std, t) == Some(t[..|t| - pads]) && AllDigits(Std, t[..|t| - pads])
    ensures |t[..|t| - pads]| % 4 != 1
  {
    AllDigitsExact(Std, t[..|t| - pads]);
    if pads == 0 {
      NoPadding(t);
      assert t[..|t|] == t;
    } else if pads == 1 {
      OnePad(t);
    } else {
      assert t[|t| - 1] == 61 && t[|t| - 2] == 61;
    }
  }

  lemma NoPadding(t: Bytes)
    requires IsPadded(t, 0)
    ensures Unpad(Std, t) == Some(t)
  {
    PadIsNoDigit();
    assert t[..|t|] == t;
    if t != [] {
      assert t[|t| - 1] in t;
    }
  }

  lemma OnePad(t: Bytes)
    requires IsPadded(t, 1)
    ensures Unpad(Std, t) == Some(t[..|t| - 1])
  {
    PadIsNoDigit();
    assert t[|t| - 1] == 61 && t[|t| - 2] in t[..|t| - 1];
  }

  lemma PaddedIs(t: Bytes) returns (pads: nat)
    requires Unpad(Std, t).Some? && AllDigits(Std, Unpad(Std, t).value)
    ensures IsPadded(t, pads)
  {
    var text := Unpad(Std, t).value;
    pads := |t| - |text|;
    AllDigitsExact(Std, text);
    assert t[..|t| - pads] == text;
  }

  /** The standard form takes whole groups of digits with the padding where it must be. */
  lemma StdDecodes(s: Bytes)
    ensures Decode(Std, s).Some? <==> WellPadded(StripLineBreaks(s))
  {
    var t := StripLineBreaks(s);
    UnpadExact(t);
    if Unpad(Std, t).Some? {
      assert Decode(Std, s).Some? <==> |Unpad(Std, t).value| % 4 != 1 && AllDigits(Std, Unpad(Std, t).value);
    }
  }

  lemma UnpadExact(t: Bytes)
    ensures (Unpad(Std, t).Some? && AllDigits(Std, Unpad(Std, t).value) && |Unpad(Std, t).value| % 4 != 1)
            <==> WellPadded(t)
  {
    if Unpad(Std, t).Some? && AllDigits(Std, Unpad(Std, t).value) {
      var pads := PaddedIs(t);
    }
    if WellPadded(t) {
      var pads: nat :| IsPadded(t, pads);
      UnpadIs(t, pads);
    }
  }
}
