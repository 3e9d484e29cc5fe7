/** Byte strings, results and big-endian numbers shared by every other module.
    A Go `string` is a byte sequence, so text is `Bytes` here as well. */
module Basics {

  type Byte = x: int | 0 <= x < 256
  type Bytes = seq<Byte>

  /** A slice or string is shorter than this on every Go platform. */
  const MAX_LEN: nat := 0x1_0000_0000_0000_0000

  datatype Option<+T> = None | Some(value: T)

  const LF: Byte := 10
  const CR: Byte := 13
  const COLON: Byte := ':' as int

  /** What a Go call does: return a value, return a non-nil error, or panic. */
  datatype Result<+T> = Ok(value: T) | Error | Panic

  function Ascii(s: string): (b: Bytes)
    ensures |b| == |s|
  {
    seq(|s|, i requires 0 <= i < |s| => s[i] as int % 256)
  }

  predicate HasSuffix<T(==)>(s: seq<T>, p: seq<T>) {
    |p| <= |s| && s[|s| - |p|..] == p
  }

  predicate IsAscii(s: Bytes) {
    forall c <- s :: c < 128
  }

  lemma ConcatAssociative<T>(a: seq<T>, b: seq<T>, c: seq<T>)
    ensures a + (b + c) == a + b + c
  {
  }

  function Pow256(width: nat): (p: nat)
    ensures p >= 1
  {
    if width == 0 then 1 else 256 * Pow256(width - 1)
  }

  function BigEndian(n: nat, width: nat): (s: Bytes)
    ensures |s| == width
  {
    if width == 0 then [] else BigEndian(n / 256, width - 1) + [n % 256]
  }

  function BigEndianValue(s: Bytes): nat {
    if s == [] then 0 else 256 * BigEndianValue(s[..|s| - 1]) + s[|s| - 1]
  }

  lemma {:induction false} BigEndianRoundTrip(n: nat, width: nat)
    requires n < Pow256(width)
    ensures BigEndianValue(BigEndian(n, width)) == n
  {
    if width > 0 {
      BigEndianRoundTrip(n / 256, width - 1);
      assert BigEndian(n, width)[..width - 1] == BigEndian(n / 256, width - 1);
    }
  }

  lemma {:induction false} BigEndianValueRoundTrip(s: Bytes)
    ensures BigEndianValue(s) < Pow256(|s|)
    ensures BigEndian(BigEndianValue(s), |s|) == s
  {
    if s != [] {
      BigEndianValueRoundTrip(s[..|s| - 1]);
      assert s == s[..|s| - 1] + [s[|s| - 1]];
    }
  }

  lemma Pow256Widths()
    ensures Pow256(1) == 0x100 && Pow256(2) == 0x1_0000
    ensures Pow256(4) == 0x1_0000_0000 && Pow256(8) == MAX_LEN
  {
    assert Pow256(3) == 0x100_0000;
    assert Pow256(5) == 0x100_0000_0000 && Pow256(6) == 0x1_0000_0000_0000 && Pow256(7) == 0x100_0000_0000_0000;
  }

  /** Text is its character codes. */
  lemma AsciiCodes(s: string, i: nat)
    requires i < |s| && s[i] as int < 128
    ensures Ascii(s)[i] == s[i] as int
  {
  }

  /** The first byte weighs most. */
  lemma {:induction false} BigEndianFirst(first: Byte, s: Bytes)
    ensures BigEndianValue([first] + s) == first * Pow256(|s|) + BigEndianValue(s)
  {
    var t := [first] + s;
    if s == [] {
      assert t[..|t| - 1] == [];
    } else {
      BigEndianFirst(first, s[..|s| - 1]);
      assert t[..|t| - 1] == [first] + s[..|s| - 1];
      assert 256 * (first * Pow256(|s| - 1)) == first * Pow256(|s|);
    }
  }
}
