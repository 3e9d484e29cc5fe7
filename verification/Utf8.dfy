/** UTF-8 (section 3 of RFC 3629), and what becomes of other text in JSON. */
module Utf8 {
  import opened Basics

  predicate Continuation(s: Bytes, i: nat) {
    i < |s| && 0x80 <= s[i] <= 0xbf
  }

  /** Length of the well-formed UTF-8 character at the front of `s`, or 0. */
  function Utf8CharLen(s: Bytes): (n: nat)
    ensures n <= |s|
  {
    if s == [] then 0
    else if s[0] < 0x80 then 1
    else if !Continuation(s, 1) then 0
    else if 0xc2 <= s[0] <= 0xdf then 2
    else if !Continuation(s, 2) then 0
    else if (s[0] == 0xe0 && s[1] >= 0xa0) || 0xe1 <= s[0] <= 0xec then 3
    else if (s[0] == 0xed && s[1] <= 0x9f) || 0xee <= s[0] <= 0xef then 3
    else if !Continuation(s, 3) then 0
    else if (s[0] == 0xf0 && s[1] >= 0x90) || 0xf1 <= s[0] <= 0xf3 || (s[0] == 0xf4 && s[1] <= 0x8f) then 4
    else 0
  }

  predicate ValidUtf8(s: Bytes) {
    s == [] || (Utf8CharLen(s) > 0 && ValidUtf8(s[Utf8CharLen(s)..]))
  }

  /** A character is told by its own bytes. */
  lemma CharLenConcat(a: Bytes, b: Bytes)
    requires Utf8CharLen(a) > 0
    ensures Utf8CharLen(a + b) == Utf8CharLen(a)
  {
    assert forall i :: 0 <= i < |a| ==> (a + b)[i] == a[i];
    assert forall i: nat :: i < |a| ==> (Continuation(a + b, i) <==> Continuation(a, i));
  }

  lemma OneMoreCharacter(c: Bytes, rest: Bytes)
    requires c != [] && Utf8CharLen(c + rest) == |c| && ValidUtf8(rest)
    ensures ValidUtf8(c + rest)
  {
    assert (c + rest)[|c|..] == rest;
  }

  lemma {:induction false} ValidUtf8Concat(a: Bytes, b: Bytes)
    requires ValidUtf8(a) && ValidUtf8(b)
    ensures ValidUtf8(a + b)
  {
    if a == [] {
      assert a + b == b;
    } else {
      var c, rest := a[..Utf8CharLen(a)], a[Utf8CharLen(a)..];
      ValidUtf8Concat(rest, b);
      CharLenConcat(a, b);
      assert a + b == c + (rest + b);
      OneMoreCharacter(c, rest + b);
    }
  }

  /* The characters */

  predicate IsScalarValue(c: nat) {
    c < 0xd800 || 0xe000 <= c < 0x11_0000
  }

  /** The bytes of one character. */
  function Character(c: nat): Bytes
    requires IsScalarValue(c)
  {
    if c < 0x80 then [c]
    else if c < 0x800 then [0xc0 + c / 0x40, 0x80 + c % 0x40]
    else if c < 0x1_0000 then [0xe0 + c / 0x1000, 0x80 + c / 0x40 % 0x40, 0x80 + c % 0x40]
    else [0xf0 + c / 0x4_0000, 0x80 + c / 0x1000 % 0x40, 0x80 + c / 0x40 % 0x40, 0x80 + c % 0x40]
  }

  function Characters(cs: seq<nat>): Bytes
    requires forall c <- cs :: IsScalarValue(c)
  {
    if cs == [] then [] else Character(cs[0]) + Characters(cs[1..])
  }

  lemma CharacterLen(c: nat, rest: Bytes)
    requires IsScalarValue(c)
    ensures Character(c) != [] && Utf8CharLen(Character(c) + rest) == |Character(c)|
  {
    var s := Character(c) + rest;
    assert forall i :: 0 <= i < |Character(c)| ==> s[i] == Character(c)[i];
  }

  lemma TwoBytes(a: int, b: int) returns (c: nat)
    requires 0xc2 <= a <= 0xdf && 0x80 <= b <= 0xbf
    ensures IsScalarValue(c) && Character(c) == [a, b]
  {
    c := (a - 0xc0) * 0x40 + (b - 0x80);
  }

  lemma ThreeBytes(a: int, b: int, d: int) returns (c: nat)
    requires 0xe0 <= a <= 0xef && 0x80 <= b <= 0xbf && 0x80 <= d <= 0xbf
    requires (a == 0xe0 ==> b >= 0xa0) && (a == 0xed ==> b <= 0x9f)
    ensures IsScalarValue(c) && Character(c) == [a, b, d]
  {
    c := (a - 0xe0) * 0x1000 + (b - 0x80) * 0x40 + (d - 0x80);
    assert c / 0x40 == (a - 0xe0) * 0x40 + (b - 0x80);
  }

  lemma FourBytes(a: int, b: int, d: int, e: int) returns (c: nat)
    requires 0xf0 <= a <= 0xf4 && 0x80 <= b <= 0xbf && 0x80 <= d <= 0xbf && 0x80 <= e <= 0xbf
    requires (a == 0xf0 ==> b >= 0x90) && (a == 0xf4 ==> b <= 0x8f)
    ensures IsScalarValue(c) && Character(c) == [a, b, d, e]
  {
    c := (a - 0xf0) * 0x4_0000 + (b - 0x80) * 0x1000 + (d - 0x80) * 0x40 + (e - 0x80);
    assert c / 0x40 == (a - 0xf0) * 0x1000 + (b - 0x80) * 0x40 + (d - 0x80);
    assert c / 0x1000 == (a - 0xf0) * 0x40 + (b - 0x80);
  }

  lemma CharacterAt(s: Bytes) returns (c: nat)
    requires Utf8CharLen(s) > 0
    ensures IsScalarValue(c) && s[..Utf8CharLen(s)] == Character(c)
  {
    match Utf8CharLen(s) {
      case 1 =>
        c := s[0];
      case 2 =>
        c := TwoBytes(s[0], s[1]);
      case 3 =>
        c := ThreeBytes(s[0], s[1], s[2]);
      case _ =>
        c := FourBytes(s[0], s[1], s[2], s[3]);
    }
  }

  lemma {:induction false} ValidCharacters(s: Bytes) returns (cs: seq<nat>)
    requires ValidUtf8(s)
    ensures (forall c <- cs :: IsScalarValue(c)) && s == Characters(cs)
  {
    if s == [] {
      cs := [];
    } else {
      var c := CharacterAt(s);
      var more := ValidCharacters(s[Utf8CharLen(s)..]);
      cs := [c] + more;
      assert cs[1..] == more && s == s[..Utf8CharLen(s)] + s[Utf8CharLen(s)..];
    }
  }

  lemma {:induction false} CharactersValid(cs: seq<nat>)
    requires forall c <- cs :: IsScalarValue(c)
    ensures ValidUtf8(Characters(cs))
  {
    if cs != [] {
      CharactersValid(cs[1..]);
      CharacterLen(cs[0], Characters(cs[1..]));
      OneMoreCharacter(Character(cs[0]), Characters(cs[1..]));
    }
  }

  /** UTF-8 is exactly the texts made of the bytes of Unicode scalar values. */
  lemma ValidUtf8Exact(s: Bytes)
    ensures ValidUtf8(s) <==> exists cs :: (forall c <- cs :: IsScalarValue(c)) && s == Characters(cs)
  {
    if ValidUtf8(s) {
      var cs := ValidCharacters(s);
    }
    if exists cs :: (forall c <- cs :: IsScalarValue(c)) && s == Characters(cs) {
      var cs :| (forall c <- cs :: IsScalarValue(c)) && s == Characters(cs);
      CharactersValid(cs);
    }
  }

  /* Text that goes through JSON */

  /** U+FFFD, which Go's JSON encoder writes for a byte that is not part of a character. */
  const REPLACEMENT: Bytes := [0xef, 0xbf, 0xbd]

  /** A string as it comes back from JSON. */
  function Coerce(s: Bytes): Bytes {
    if s == [] then []
    else if Utf8CharLen(s) == 0 then REPLACEMENT + Coerce(s[1..])
    else s[..Utf8CharLen(s)] + Coerce(s[Utf8CharLen(s)..])
  }

  lemma CharLenOfFront(s: Bytes)
    requires Utf8CharLen(s) > 0
    ensures Utf8CharLen(s[..Utf8CharLen(s)]) == Utf8CharLen(s)
  {
    var c := s[..Utf8CharLen(s)];
    assert forall i :: 0 <= i < |c| ==> c[i] == s[i];
  }

  lemma OneCharacter(s: Bytes)
    requires Utf8CharLen(s) > 0
    ensures ValidUtf8(s[..Utf8CharLen(s)])
  {
    var c := s[..Utf8CharLen(s)];
    CharLenOfFront(s);
    assert c[|c|..] == [];
  }

  lemma {:induction false} CoerceValid(s: Bytes)
    ensures ValidUtf8(Coerce(s))
  {
    if s != [] {
      var n := Utf8CharLen(s);
      if n == 0 {
        CoerceValid(s[1..]);
        OneCharacter(REPLACEMENT);
        assert REPLACEMENT[..3] == REPLACEMENT;
        ValidUtf8Concat(REPLACEMENT, Coerce(s[1..]));
      } else {
        CoerceValid(s[n..]);
        OneCharacter(s);
        ValidUtf8Concat(s[..n], Coerce(s[n..]));
      }
    }
  }

  lemma {:induction false} CoerceKeepsValid(s: Bytes)
    requires ValidUtf8(s)
    ensures Coerce(s) == s
  {
    if s != [] {
      var n := Utf8CharLen(s);
      CoerceKeepsValid(s[n..]);
      assert s == s[..n] + s[n..];
    }
  }

  /** Exactly UTF-8 comes back unchanged. */
  lemma {:induction false} CoerceExact(s: Bytes)
    ensures Coerce(s) == s <==> ValidUtf8(s)
  {
    CoerceValid(s);
    if ValidUtf8(s) {
      CoerceKeepsValid(s);
    }
  }

  lemma {:induction false} AsciiIsUtf8(s: Bytes)
    requires IsAscii(s)
    ensures ValidUtf8(s)
  {
    if s != [] {
      assert s[0] in s && forall c <- s[1..] :: c in s;
      AsciiIsUtf8(s[1..]);
    }
  }

  /** Two different strings that come back as one. */
  lemma CoerceMerges()
    ensures Coerce([0xff]) == Coerce([0xfe]) == REPLACEMENT
  {
    assert Coerce([]) == [];
    assert [0xff][1..] == [] && [0xfe][1..] == [];
  }

  lemma CoerceCharacter(c: Bytes, rest: Bytes)
    requires c != [] && Utf8CharLen(c + rest) == |c|
    ensures Coerce(c + rest) == c + Coerce(rest)
  {
    assert (c + rest)[..|c|] == c && (c + rest)[|c|..] == rest;
  }

  lemma {:induction false} CoerceConcat(v: Bytes, rest: Bytes)
    requires ValidUtf8(v)
    ensures Coerce(v + rest) == v + Coerce(rest)
  {
    if v == [] {
      assert v + rest == rest && v + Coerce(rest) == Coerce(rest);
    } else {
      var c, more := v[..Utf8CharLen(v)], v[Utf8CharLen(v)..];
      CoerceConcat(more, rest);
      CharLenConcat(v, rest);
      assert v == c + more && v + rest == c + (more + rest);
      CoerceCharacter(c, more + rest);
      ConcatAssociative(c, more, Coerce(rest));
    }
  }

  lemma CoerceBad(bad: Byte, rest: Bytes)
    requires 0x80 <= bad <= 0xc1 || 0xf5 <= bad
    ensures Coerce([bad] + rest) == [0xef, 0xbf, 0xbd] + Coerce(rest)
  {
    assert ([bad] + rest)[1..] == rest;
  }

  /** A byte that starts no character is replaced by the three bytes of U+FFFD, alone. */
  lemma CoerceBadByte(v: Bytes, bad: Byte, rest: Bytes)
    requires ValidUtf8(v) && (0x80 <= bad <= 0xc1 || 0xf5 <= bad)
    ensures Coerce(v + ([bad] + rest)) == v + ([0xef, 0xbf, 0xbd] + Coerce(rest))
  {
    CoerceConcat(v, [bad] + rest);
    CoerceBad(bad, rest);
  }
}
