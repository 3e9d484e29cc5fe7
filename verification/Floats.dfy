/** Binary floating point numbers (IEEE 754) as CBOR carries them: three widths, one value.
    A number is its pattern in the widest format, and all NaNs are one value. */
module Floats {
  import opened Basics
  import opened CborSyntax

  /** A format: its fraction and its biased exponent are below these bounds. */
  datatype Format = Format(fraction: nat, exponents: nat, bias: nat, digits: nat, scale: nat)

  const FRACTION64: nat := 0x10_0000_0000_0000
  const BIAS64: nat := 1023
  const SIGN64: nat := 0x8000_0000_0000_0000
  const INFINITY: nat := 2047 * FRACTION64
  const NAN: nat := INFINITY + FRACTION64 / 2

  /** `scale` is the ratio of the two fractions. */
  const HALF: Format := Format(0x400, 32, 15, 10, 0x400_0000_0000)
  const SINGLE: Format := Format(0x80_0000, 256, 127, 23, 0x2000_0000)

  predicate IsFormat(f: Format) {
    f == HALF || f == SINGLE
  }

  predicate IsNan(bits: nat) {
    bits % SIGN64 > INFINITY
  }

  predicate IsFloat(bits: nat) {
    bits < MAX_LEN && (IsNan(bits) ==> bits == NAN)
  }

  lemma SignedIsFloat(bits: nat)
    requires bits <= INFINITY
    ensures IsFloat(bits) && IsFloat(SIGN64 + bits)
  {
    assert bits % SIGN64 == bits && (SIGN64 + bits) % SIGN64 == bits;
  }

  /** A significand times a power of two; at most `n` doublings make the significand a full one. */
  function Normal(f: Format, significand: nat, x: int, n: nat): (bits: nat)
    requires IsFormat(f) && -24 + n <= x < f.exponents - 1
    ensures 0 < bits < INFINITY
    decreases n
  {
    if n == 0 || significand >= f.fraction then
      (x - f.bias + BIAS64) * FRACTION64 + significand % f.fraction * f.scale
    else
      Normal(f, 2 * significand, x - 1, n - 1)
  }

  /** The number that a pattern of a narrow format stands for. */
  function Widen(f: Format, b: nat): (bits: nat)
    requires IsFormat(f) && b < 2 * f.fraction * f.exponents
    ensures IsFloat(bits)
  {
    var x, man := b / f.fraction % f.exponents, b % f.fraction;
    if x == f.exponents - 1 && man > 0 then NAN else
    SignedIsFloat(Magnitude(f, x, man));
    (if b < f.fraction * f.exponents then 0 else SIGN64) + Magnitude(f, x, man)
  }

  function Magnitude(f: Format, x: nat, man: nat): (bits: nat)
    requires IsFormat(f) && x < f.exponents && man < f.fraction
    ensures bits <= INFINITY
  {
    if x == f.exponents - 1 then INFINITY
    else if x > 0 then Normal(f, f.fraction + man, x, 0)
    else if man > 0 then Normal(f, man, 1, f.digits)
    else 0
  }

  function Halve(significand: nat, n: nat): nat {
    if n == 0 || significand == 0 then significand else Halve(significand / 2, n - 1)
  }

  function Exponent(f: Format, bits: nat): int {
    bits / FRACTION64 % 2048 - BIAS64 + f.bias
  }

  function Significand(f: Format, bits: nat): nat
    requires IsFormat(f)
  {
    f.fraction + bits % FRACTION64 / f.scale
  }

  /** The only pattern of a narrow format that may stand for a number. */
  function Candidate(f: Format, bits: nat): nat
    requires IsFormat(f)
  {
    var x, s := Exponent(f, bits), Significand(f, bits);
    (if bits < SIGN64 then 0 else f.fraction * f.exponents) +
    if bits % SIGN64 >= INFINITY then (f.exponents - 2) * f.fraction + s
    else if x > 0 then (x - 1) * f.fraction + s
    else if bits % SIGN64 == 0 then 0
    else Halve(s, 1 - x)
  }

  /** The pattern of a number in a narrow format, if the number is no more precise than that. */
  function Narrow(f: Format, bits: nat): (b: Option<nat>)
    requires IsFormat(f) && IsFloat(bits)
    ensures b.Some? ==> b.value < 2 * f.fraction * f.exponents && Widen(f, b.value) == bits
  {
    var b := Candidate(f, bits);
    if b < 2 * f.fraction * f.exponents && Widen(f, b) == bits then Some(b) else None
  }

  predicate FloatHead(h: Head) {
    h.major == 7 && h.width in {2, 4, 8} && ValidHead(h)
  }

  lemma Widths()
    ensures Pow256(2) == 2 * HALF.fraction * HALF.exponents
    ensures Pow256(4) == 2 * SINGLE.fraction * SINGLE.exponents
  {
    Pow256Widths();
  }

  function ReadFloat(h: Head): (bits: nat)
    requires FloatHead(h)
    ensures IsFloat(bits)
  {
    Widths();
    Pow256Widths();
    if h.width == 2 then Widen(HALF, h.arg)
    else if h.width == 4 then Widen(SINGLE, h.arg)
    else if IsNan(h.arg) then NAN else h.arg
  }

  /** The shortest form that loses nothing. */
  function WriteFloat(bits: nat): (h: Head)
    requires IsFloat(bits)
    ensures FloatHead(h) && ReadFloat(h) == bits
  {
    Widths();
    Pow256Widths();
    match (Narrow(HALF, bits), Narrow(SINGLE, bits))
    case (Some(b), _) => Head(7, 2, b)
    case (None, Some(b)) => Head(7, 4, b)
    case (None, None) => Head(7, 8, bits)
  }

  /* No shorter form is missed */

  predicate Reaches(f: Format, significand: nat, n: nat)
    decreases n
  {
    significand >= f.fraction || (n > 0 && Reaches(f, 2 * significand, n - 1))
  }

  lemma {:induction false} ReachesMore(f: Format, a: nat, b: nat, n: nat)
    requires Reaches(f, a, n) && a <= b
    ensures Reaches(f, b, n)
    decreases n
  {
    if b < f.fraction {
      ReachesMore(f, 2 * a, 2 * b, n - 1);
    }
  }

  lemma {:induction false} DigitsReach(f: Format, significand: nat)
    requires IsFormat(f) && significand > 0
    ensures Reaches(f, significand, f.digits)
  {
    if f == HALF {
      assert Reaches(f, 0x400, 0) && Reaches(f, 1, 10);
    } else {
      assert Reaches(f, 0x400, 13) && Reaches(f, 1, 23);
    }
    ReachesMore(f, 1, significand, f.digits);
  }

  lemma {:induction false} HalveOnceMore(significand: nat, n: nat)
    ensures Halve(significand, n + 1) == Halve(significand, n) / 2
  {
    if n > 0 {
      HalveOnceMore(significand / 2, n - 1);
    }
  }

  lemma HalvedOnceMore(s: nat, n: nat, half: nat)
    requires n > 0 && Halve(s, n - 1) == 2 * half
    ensures Halve(s, n) == half
  {
    HalveOnceMore(s, n - 1);
  }

  lemma Quotient(q: nat, r: nat)
    requires r < FRACTION64
    ensures (q * FRACTION64 + r) / FRACTION64 == q && (q * FRACTION64 + r) % FRACTION64 == r
  {
  }

  lemma Scaled(f: Format, man: nat)
    requires IsFormat(f) && man < f.fraction
    ensures man * f.scale < FRACTION64 && man * f.scale / f.scale == man
    ensures (f.fraction + man) % f.fraction == man
  {
    if f == HALF {
      assert man * HALF.scale / HALF.scale == man;
    }
  }

  lemma PartsOf(f: Format, man: nat, x: int)
    requires IsFormat(f) && -24 <= x < f.exponents - 1 && man < f.fraction
    ensures Exponent(f, Normal(f, f.fraction + man, x, 0)) == x
    ensures Significand(f, Normal(f, f.fraction + man, x, 0)) == f.fraction + man
  {
    Scaled(f, man);
    Quotient(x - f.bias + BIAS64, man * f.scale);
  }

  /** Doublings are undone by as many halvings as the exponent has lost. */
  lemma {:induction false} NormalHalved(f: Format, significand: nat, x: int, n: nat)
    requires IsFormat(f) && -24 + n <= x < f.exponents - 1
    requires Reaches(f, significand, n) && significand < 2 * f.fraction
    ensures var bits := Normal(f, significand, x, n);
            Exponent(f, bits) <= x && Halve(Significand(f, bits), x - Exponent(f, bits)) == significand
    decreases n
  {
    var bits := Normal(f, significand, x, n);
    if significand < f.fraction {
      NormalHalved(f, 2 * significand, x - 1, n - 1);
      HalvedOnceMore(Significand(f, bits), x - Exponent(f, bits), significand);
    } else {
      assert bits == Normal(f, significand, x, 0);
      PartsOf(f, significand - f.fraction, x);
    }
  }

  lemma SignedParts(f: Format, bits: nat)
    requires IsFormat(f) && bits < SIGN64
    ensures Exponent(f, SIGN64 + bits) == Exponent(f, bits)
    ensures Significand(f, SIGN64 + bits) == Significand(f, bits)
    ensures (SIGN64 + bits) % SIGN64 == bits % SIGN64 == bits
  {
    var q, r := bits / FRACTION64, bits % FRACTION64;
    assert bits == q * FRACTION64 + r && q < 2048;
    Quotient(2048 + q, r);
  }

  lemma CandidateSigned(f: Format, bits: nat)
    requires IsFormat(f) && bits < SIGN64
    ensures Candidate(f, SIGN64 + bits) == f.fraction * f.exponents + Candidate(f, bits)
  {
    SignedParts(f, bits);
  }

  lemma CandidateSubnormal(f: Format, man: nat)
    requires IsFormat(f) && 0 < man < f.fraction
    ensures Candidate(f, Normal(f, man, 1, f.digits)) == man
  {
    DigitsReach(f, man);
    NormalHalved(f, man, 1, f.digits);
    CandidateIs(f, Normal(f, man, 1, f.digits));
  }

  lemma CandidateIs(f: Format, bits: nat)
    requires IsFormat(f) && 0 < bits < INFINITY
    ensures var x, s := Exponent(f, bits), Significand(f, bits);
            Candidate(f, bits) == if x > 0 then x * f.fraction + (s - f.fraction) else Halve(s, 1 - x)
    ensures Significand(f, bits) >= f.fraction
  {
    assert bits < SIGN64 && bits % SIGN64 == bits;
    OneLess(Exponent(f, bits), f.fraction);
  }

  lemma OneLess(x: int, d: int)
    ensures (x - 1) * d == x * d - d
  {
  }

  /** Up to infinity the candidate of a widened pattern is the pattern. */
  lemma CandidateOfMagnitude(f: Format, x: nat, man: nat)
    requires IsFormat(f) && x < f.exponents && man < f.fraction && (x == f.exponents - 1 ==> man == 0)
    ensures Candidate(f, Magnitude(f, x, man)) == x * f.fraction + man
  {
    if 0 < x < f.exponents - 1 {
      PartsOf(f, man, x);
      CandidateIs(f, Normal(f, f.fraction + man, x, 0));
    } else if x == 0 && man > 0 {
      CandidateSubnormal(f, man);
    } else {
      CandidateExtreme(f);
    }
  }

  lemma CandidateExtreme(f: Format)
    requires IsFormat(f)
    ensures Candidate(f, 0) == 0 && Candidate(f, INFINITY) == (f.exponents - 1) * f.fraction
  {
  }

  lemma NarrowNan(f: Format)
    requires IsFormat(f)
    ensures Narrow(f, NAN).Some?
  {
    assert Candidate(f, NAN) == (f.exponents - 1) * f.fraction + f.fraction / 2;
  }

  lemma NarrowWiden(f: Format, b: nat)
    requires IsFormat(f) && b < 2 * f.fraction * f.exponents
    ensures Narrow(f, Widen(f, b)).Some?
  {
    var x, man := b / f.fraction % f.exponents, b % f.fraction;
    if x == f.exponents - 1 && man > 0 {
      NarrowNan(f);
    } else {
      CandidateOfWiden(f, b);
    }
  }

  lemma CandidateOfWiden(f: Format, b: nat)
    requires IsFormat(f) && b < 2 * f.fraction * f.exponents
    requires b / f.fraction % f.exponents == f.exponents - 1 ==> b % f.fraction == 0
    ensures Candidate(f, Widen(f, b)) == b
  {
    SplitPattern(f, b);
    CandidateOfSigned(f, b >= f.fraction * f.exponents, b / f.fraction % f.exponents, b % f.fraction);
  }

  lemma CandidateOfSigned(f: Format, negative: bool, x: nat, man: nat)
    requires IsFormat(f) && x < f.exponents && man < f.fraction && (x == f.exponents - 1 ==> man == 0)
    ensures Candidate(f, (if negative then SIGN64 else 0) + Magnitude(f, x, man))
            == (if negative then f.fraction * f.exponents else 0) + x * f.fraction + man
  {
    CandidateOfMagnitude(f, x, man);
    if negative {
      CandidateSigned(f, Magnitude(f, x, man));
    }
  }

  lemma SplitPattern(f: Format, b: nat)
    requires IsFormat(f) && b < 2 * f.fraction * f.exponents
    ensures b == (if b < f.fraction * f.exponents then 0 else f.fraction * f.exponents)
                 + b / f.fraction % f.exponents * f.fraction + b % f.fraction
  {
    var q := b / f.fraction;
    assert b == q * f.fraction + b % f.fraction && q < 2 * f.exponents;
    assert q % f.exponents == if q < f.exponents then q else q - f.exponents;
  }

  /** No form of a number is shorter than the one written. */
  lemma ShortestFloat(h: Head)
    requires FloatHead(h)
    ensures WriteFloat(ReadFloat(h)).width <= h.width
  {
    Widths();
    if h.width == 2 {
      NarrowWiden(HALF, h.arg);
    } else if h.width == 4 {
      NarrowWiden(SINGLE, h.arg);
    }
  }

  /* The numbers themselves */

  function Power2(n: nat): (p: nat)
    ensures p >= 1
  {
    if n == 0 then 1 else 2 * Power2(n - 1)
  }

  lemma {:induction false} Power2Sum(a: nat, b: nat)
    ensures Power2(a + b) == Power2(a) * Power2(b)
  {
    if a > 0 {
      Power2Sum(a - 1, b);
      assert 2 * (Power2(a - 1) * Power2(b)) == 2 * Power2(a - 1) * Power2(b);
    }
  }

  lemma Scales()
    ensures Power2(42) == HALF.scale && Power2(29) == SINGLE.scale
  {
    assert Power2(10) == 0x400;
    Power2Sum(10, 10);
    Power2Sum(20, 9);
    Power2Sum(20, 20);
    Power2Sum(40, 2);
    assert Power2(9) == 0x200 && Power2(2) == 4;
  }

  /** How many units of 2^-1074 a finite binary64 number is, its sign aside. */
  function Units(bits: nat): nat {
    var x, man := bits / FRACTION64 % 2048, bits % FRACTION64;
    if x == 0 then man else (FRACTION64 + man) * Power2(x - 1)
  }

  /** By how many powers of two a unit of the exponent of a narrow format is above 2^-1074. */
  function Offset(f: Format): nat {
    if f == HALF then 1049 else 924
  }

  /** Above the offset: the scale of the fraction, as a power of two. */
  function ScaleDigits(f: Format): nat {
    if f == HALF then 42 else 29
  }

  lemma UnitsAre(e: nat, man: nat)
    requires 0 < e < 2048 && man < FRACTION64
    ensures Units(e * FRACTION64 + man) == (FRACTION64 + man) * Power2(e - 1)
  {
    Quotient(e, man);
  }

  lemma UnitsOfFull(f: Format, man: nat, x: int)
    requires IsFormat(f) && -24 <= x < f.exponents - 1 && man < f.fraction
    ensures Units(Normal(f, f.fraction + man, x, 0)) == (f.fraction + man) * Power2(x + Offset(f))
  {
    var e := x - f.bias + BIAS64;
    Scaled(f, man);
    UnitsAre(e, man * f.scale);
    ScaledFraction(f, man);
    Power2Sum(ScaleDigits(f), e - 1);
    MoveFactor(f.fraction + man, Power2(ScaleDigits(f)), Power2(e - 1));
    assert ScaleDigits(f) + (e - 1) == x + Offset(f);
  }

  lemma ScaledFraction(f: Format, man: nat)
    requires IsFormat(f)
    ensures FRACTION64 + man * f.scale == (f.fraction + man) * Power2(ScaleDigits(f))
  {
    Scales();
    if f == HALF {
      assert 0x400 * Power2(42) == FRACTION64;
    } else {
      assert 0x80_0000 * Power2(29) == FRACTION64;
    }
  }

  lemma MoveFactor(a: nat, b: nat, c: nat)
    ensures a * b * c == a * (b * c)
  {
  }

  lemma {:induction false} UnitsOfNormal(f: Format, s: nat, x: int, n: nat)
    requires IsFormat(f) && -24 + n <= x < f.exponents - 1 && Reaches(f, s, n) && s < 2 * f.fraction
    ensures Units(Normal(f, s, x, n)) == s * Power2(x + Offset(f))
    decreases n
  {
    if s < f.fraction {
      UnitsOfNormal(f, 2 * s, x - 1, n - 1);
      MoveFactor(s, 2, Power2(x - 1 + Offset(f)));
    } else {
      assert Normal(f, s, x, n) == Normal(f, s, x, 0);
      UnitsOfFull(f, s - f.fraction, x);
    }
  }

  /** A finite number of a narrow format keeps its value: significand times a power of two. */
  lemma WidenMagnitude(f: Format, x: nat, man: nat)
    requires IsFormat(f) && x < f.exponents - 1 && man < f.fraction
    ensures Units(Magnitude(f, x, man))
            == if x == 0 then man * Power2(1 + Offset(f)) else (f.fraction + man) * Power2(x + Offset(f))
  {
    if x > 0 {
      UnitsOfFull(f, man, x);
    } else if man > 0 {
      DigitsReach(f, man);
      UnitsOfNormal(f, man, 1, f.digits);
    } else {
      assert Units(0) == 0;
    }
  }

  lemma UnitsSigned(bits: nat)
    requires bits < SIGN64
    ensures Units(SIGN64 + bits) == Units(bits)
  {
    var q, r := bits / FRACTION64, bits % FRACTION64;
    assert bits == q * FRACTION64 + r && q < 2048;
    Quotient(2048 + q, r);
  }

  /** A half-precision number: 10 bits of fraction, 5 of exponent, bias 15. */
  lemma HalfValue(b: nat)
    requires b < 0x1_0000
    ensures var x, man, wide := b / 0x400 % 32, b % 0x400, Widen(HALF, b);
            && (x == 0 ==> Units(wide) == man * Power2(1050))
            && (0 < x < 31 ==> Units(wide) == (0x400 + man) * Power2(x + 1049))
            && (x < 31 ==> (wide >= 0x8000_0000_0000_0000 <==> b >= 0x8000))
  {
    var x, man := b / 0x400 % 32, b % 0x400;
    if x < 31 {
      WidenMagnitude(HALF, x, man);
      UnitsSigned(Magnitude(HALF, x, man));
    }
  }

  /** A single-precision number: 23 bits of fraction, 8 of exponent, bias 127. */
  lemma SingleValue(b: nat)
    requires b < 0x1_0000_0000
    ensures var x, man, wide := b / 0x80_0000 % 256, b % 0x80_0000, Widen(SINGLE, b);
            && (x == 0 ==> Units(wide) == man * Power2(925))
            && (0 < x < 255 ==> Units(wide) == (0x80_0000 + man) * Power2(x + 924))
            && (x < 255 ==> (wide >= 0x8000_0000_0000_0000 <==> b >= 0x8000_0000))
  {
    var x, man := b / 0x80_0000 % 256, b % 0x80_0000;
    if x < 255 {
      WidenMagnitude(SINGLE, x, man);
      UnitsSigned(Magnitude(SINGLE, x, man));
    }
  }

  /** The infinities keep their sign, and whatever is no number becomes one pattern. */
  lemma InfiniteHalf(b: nat)
    requires b < 0x1_0000 && b % 0x8000 >= 0x7c00
    ensures Widen(HALF, b) == if b == 0x7c00 then 0x7ff0_0000_0000_0000
                              else if b == 0xfc00 then 0xfff0_0000_0000_0000 else 0x7ff8_0000_0000_0000
  {
  }

  lemma InfiniteSingle(b: nat)
    requires b < 0x1_0000_0000 && b % 0x8000_0000 >= 0x7f80_0000
    ensures Widen(SINGLE, b) == if b == 0x7f80_0000 then 0x7ff0_0000_0000_0000
                                else if b == 0xff80_0000 then 0xfff0_0000_0000_0000 else 0x7ff8_0000_0000_0000
  {
  }
}
