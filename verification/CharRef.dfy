/**
 Numeric character references: XMLUtil::GetCharacterRef with its saturating positional
 weights and 32-bit accumulator, and XMLUtil::ConvertUTF32ToUTF8.
 */
module CharRef {
  import opened Bytes
  import Utf8

  const MAX_CODE_POINT: nat := 0x10FFFF
  const TWO32: nat := 0x1_0000_0000

  // ---- Positional value and the clamped sum that the code computes -------------------

  type Radix = r: nat | r == 10 || r == 16 witness 10

  predicate IsDigit(c: byte, radix: Radix) {
    0x30 <= c <= 0x39 || (radix == 16 && (0x61 <= c <= 0x66 || 0x41 <= c <= 0x46))
  }

  function Digit(c: byte): nat {
    if 0x30 <= c <= 0x39 then c - 0x30
    else if 0x61 <= c <= 0x66 then c - 0x61 + 10
    else if 0x41 <= c <= 0x46 then c - 0x41 + 10
    else 0
  }

  predicate Numeral(ds: Bytes, radix: Radix) {
    forall i | 0 <= i < |ds| :: IsDigit(ds[i], radix)
  }

  function Pow(b: nat, e: nat): nat {
    if e == 0 then 1 else b * Pow(b, e - 1)
  }

  /** The number that the digits denote, most significant digit first. */
  function Value(ds: Bytes, radix: Radix): nat {
    if ds == [] then 0 else Digit(ds[0]) * Pow(radix, |ds| - 1) + Value(ds[1..], radix)
  }

  function Scale(x: nat, radix: Radix): nat {
    if radix == 10 then x * 10 else x * 16
  }

  function Clamp(mult: nat): nat {
    if mult > MAX_CODE_POINT then MAX_CODE_POINT else mult
  }

  /** The multiplier that the loop holds after k digits: it saturates at the largest code point. */
  function Weight(k: nat, radix: Radix): nat {
    if k == 0 then 1 else Clamp(Scale(Weight(k - 1, radix), radix))
  }

  /** The sum with saturated weights, before reduction to 32 bits. */
  function ClampedSum(ds: Bytes, radix: Radix): nat {
    if ds == [] then 0 else Digit(ds[0]) * Weight(|ds| - 1, radix) + ClampedSum(ds[1..], radix)
  }

  lemma {:induction false} PowMonotone(b: nat, i: nat, j: nat)
    requires 1 <= b && i <= j
    ensures 1 <= Pow(b, i) <= Pow(b, j)
  {
    if j == 0 {
    } else if i == j {
      PowMonotone(b, i - 1, j - 1);
      PosTimes(b, Pow(b, j - 1));
    } else {
      PowMonotone(b, i, j - 1);
      PosTimes(b, Pow(b, j - 1));
    }
  }

  lemma {:induction false} PosTimes(b: nat, p: nat)
    requires 1 <= b && 1 <= p
    ensures p <= b * p
  {
    assert b * p == (b - 1) * p + p;
  }

  lemma {:induction false} WeightIsClampedPower(k: nat, radix: Radix)
    ensures Weight(k, radix) == if Pow(radix, k) <= MAX_CODE_POINT then Pow(radix, k) else MAX_CODE_POINT
    ensures 1 <= Pow(radix, k)
  {
    if k > 0 {
      WeightIsClampedPower(k - 1, radix);
      PowMonotone(radix, k - 1, k);
    }
  }

  lemma {:induction false} ValueBound(ds: Bytes, radix: Radix)
    requires Numeral(ds, radix)
    ensures Value(ds, radix) < Pow(radix, |ds|)
  {
    if ds != [] {
      ValueBound(ds[1..], radix);
      var p := Pow(radix, |ds| - 1);
      assert Digit(ds[0]) * p <= (radix - 1) * p by { MulMonotone(Digit(ds[0]), radix - 1, p); }
      assert (radix - 1) * p + p == radix * p;
    }
  }

  lemma {:induction false} MulMonotone(a: nat, b: nat, p: nat)
    requires a <= b
    ensures a * p <= b * p
  {
    assert b * p == a * p + (b - a) * p;
  }

  /** Below the clamp every weight is exact. */
  lemma {:induction false} ShortNumeralIsExact(ds: Bytes, radix: Radix)
    requires ds == [] || Pow(radix, |ds| - 1) <= MAX_CODE_POINT
    ensures ClampedSum(ds, radix) == Value(ds, radix)
  {
    if ds != [] {
      WeightIsClampedPower(|ds| - 1, radix);
      if |ds| > 1 {
        PowMonotone(radix, |ds| - 2, |ds| - 1);
      }
      ShortNumeralIsExact(ds[1..], radix);
    }
  }

  lemma {:induction false} ZeroTogether(ds: Bytes, radix: Radix)
    ensures ClampedSum(ds, radix) == 0 <==> Value(ds, radix) == 0
  {
    if ds != [] {
      ZeroTogether(ds[1..], radix);
      WeightIsClampedPower(|ds| - 1, radix);
      ZeroSum(Digit(ds[0]), Weight(|ds| - 1, radix), ClampedSum(ds[1..], radix));
      ZeroSum(Digit(ds[0]), Pow(radix, |ds| - 1), Value(ds[1..], radix));
    }
  }

  lemma {:induction false} ZeroSum(d: nat, w: nat, rest: nat)
    requires w >= 1
    ensures d * w + rest == 0 <==> d == 0 && rest == 0
  {
    if d > 0 {
      MulMonotone(1, d, w);
    }
  }

  ghost predicate IsPowerOf(radix: Radix, v: nat) {
    exists k: nat :: v == Pow(radix, k)
  }

  lemma {:induction false} PowerBetween(radix: Radix, v: nat, n: nat)
    requires Pow(radix, n) <= v < Pow(radix, n + 1)
    ensures IsPowerOf(radix, v) <==> v == Pow(radix, n)
  {
    if IsPowerOf(radix, v) {
      var k: nat :| v == Pow(radix, k);
      if k < n {
        PowMonotone(radix, k, n);
        PowMonotone(radix, k + 1, n);
        PosTimes(radix, Pow(radix, k));
      } else if k > n {
        PowMonotone(radix, n + 1, k);
      }
    }
  }

  /**
   The clamped sum of a numeral is its value as long as that is a code point. Above the
   largest code point it is at least the clamp, and hits the clamp exactly for the powers
   of the radix.
   */
  lemma {:induction false} ClampedSumOf(ds: Bytes, radix: Radix)
    requires Numeral(ds, radix)
    ensures Value(ds, radix) <= MAX_CODE_POINT ==> ClampedSum(ds, radix) == Value(ds, radix)
    ensures Value(ds, radix) > MAX_CODE_POINT ==>
              ClampedSum(ds, radix) >= MAX_CODE_POINT
              && (ClampedSum(ds, radix) == MAX_CODE_POINT <==> IsPowerOf(radix, Value(ds, radix)))
  {
    if ds == [] {
    } else if Digit(ds[0]) == 0 {
      ClampedSumOf(ds[1..], radix);
    } else {
      LeadingDigit(ds, radix);
      var n := |ds| - 1;
      if Pow(radix, n) <= MAX_CODE_POINT {
        ShortNumeralIsExact(ds, radix);
        PowerBetween(radix, Value(ds, radix), n);
      } else {
        WeightIsClampedPower(n, radix);
        ZeroTogether(ds[1..], radix);
        PowerBetween(radix, Value(ds, radix), n);
        OnlyOne(Digit(ds[0]), Pow(radix, n), Value(ds[1..], radix));
        OnlyOne(Digit(ds[0]), MAX_CODE_POINT, ClampedSum(ds[1..], radix));
      }
    }
  }

  lemma {:induction false} LeadingDigit(ds: Bytes, radix: Radix)
    requires Numeral(ds, radix) && ds != [] && Digit(ds[0]) > 0
    ensures Pow(radix, |ds| - 1) <= Value(ds, radix) < Pow(radix, |ds|)
  {
    ValueBound(ds, radix);
    MulMonotone(1, Digit(ds[0]), Pow(radix, |ds| - 1));
  }

  lemma {:induction false} OnlyOne(d: nat, w: nat, rest: nat)
    requires d >= 1 && w >= 1
    ensures d * w + rest >= w
    ensures d * w + rest == w <==> d == 1 && rest == 0
  {
    MulMonotone(1, d, w);
    if d > 1 {
      MulMonotone(2, d, w);
    }
  }

  lemma {:induction false} ClampedSumBound(ds: Bytes, radix: Radix)
    requires Numeral(ds, radix)
    ensures ClampedSum(ds, radix) <= |ds| * (15 * MAX_CODE_POINT)
  {
    if ds != [] {
      ClampedSumBound(ds[1..], radix);
      WeightIsClampedPower(|ds| - 1, radix);
      var w := Weight(|ds| - 1, radix);
      assert Digit(ds[0]) * w <= 15 * MAX_CODE_POINT by {
        MulMonotone(Digit(ds[0]), 15, w);
      }
    }
  }

  // ---- The 32-bit accumulator can wrap ----------------------------------------------------

  /** The number of low digits whose weight is exact. */
  function ExactDigits(radix: Radix): nat {
    if radix == 10 then 7 else 6
  }

  function DigitSum(ds: Bytes): nat {
    if ds == [] then 0 else Digit(ds[0]) + DigitSum(ds[1..])
  }

  lemma {:induction false} ExactDigitsWeight(radix: Radix)
    ensures Pow(radix, ExactDigits(radix) - 1) <= MAX_CODE_POINT < Pow(radix, ExactDigits(radix))
  {
    assert Pow(10, 3) == 1000;
    assert Pow(10, 5) == 100000;
    assert Pow(10, 7) == 10000000;
    assert Pow(16, 3) == 4096;
    assert Pow(16, 5) == 1048576;
  }

  /** For a numeral of any length: the low digits count exactly, each higher one as the clamp. */
  lemma {:induction false} ClampedSumSplit(high: Bytes, low: Bytes, radix: Radix)
    requires |low| == ExactDigits(radix)
    ensures ClampedSum(high + low, radix) == DigitSum(high) * MAX_CODE_POINT + Value(low, radix)
  {
    ExactDigitsWeight(radix);
    if high == [] {
      assert high + low == low;
      ShortNumeralIsExact(low, radix);
    } else {
      assert (high + low)[1..] == high[1..] + low;
      ClampedSumSplit(high[1..], low, radix);
      WeightIsClampedPower(|high| - 1 + |low|, radix);
      PowMonotone(radix, |low|, |high| - 1 + |low|);
    }
  }

  /** What the digits add up to when no digit is lost: the clamped sum, read off the numeral. */
  function DigitTotal(ds: Bytes, radix: Radix): nat {
    var n := ExactDigits(radix);
    if |ds| < n then Value(ds, radix)
    else DigitSum(ds[..|ds| - n]) * MAX_CODE_POINT + Value(ds[|ds| - n..], radix)
  }

  lemma {:induction false} ClampedSumIsTotal(ds: Bytes, radix: Radix)
    ensures ClampedSum(ds, radix) == DigitTotal(ds, radix)
  {
    var n := ExactDigits(radix);
    ExactDigitsWeight(radix);
    if |ds| < n {
      if ds != [] {
        PowMonotone(radix, |ds| - 1, n - 1);
      }
      ShortNumeralIsExact(ds, radix);
    } else {
      assert ds[..|ds| - n] + ds[|ds| - n..] == ds;
      ClampedSumSplit(ds[..|ds| - n], ds[|ds| - n..], radix);
    }
  }

  /** What a numeral is to be read as: its value, if that is a code point. */
  function Intended(ds: Bytes, radix: Radix): Option<nat> {
    if Value(ds, radix) <= MAX_CODE_POINT then Some(Value(ds, radix)) else None
  }

  /** What the 32-bit sum is read as. */
  function ReadSum(sum: nat): Option<nat> {
    if sum % TWO32 <= MAX_CODE_POINT then Some(sum % TWO32) else None
  }

  /** The sum does not fit, and what is left of it is a code point. */
  predicate Wraps(ds: Bytes, radix: Radix) {
    var total := DigitTotal(ds, radix);
    total >= TWO32 && total % TWO32 <= MAX_CODE_POINT
  }

  /** The weight of the only digit that counts, a one, is clamped to the largest code point. */
  ghost predicate Clamps(ds: Bytes, radix: Radix) {
    Value(ds, radix) > MAX_CODE_POINT && IsPowerOf(radix, Value(ds, radix))
  }

  /** Numerals of any length are read as intended exactly if they neither wrap nor are clamped. */
  lemma {:induction false} AcceptedNumerals(ds: Bytes, radix: Radix)
    requires Numeral(ds, radix)
    ensures ReadSum(ClampedSum(ds, radix)) == Intended(ds, radix) <==> !Wraps(ds, radix) && !Clamps(ds, radix)
    ensures Clamps(ds, radix) ==> ReadSum(ClampedSum(ds, radix)) == Some(MAX_CODE_POINT)
    ensures Value(ds, radix) <= MAX_CODE_POINT ==> !Wraps(ds, radix) && !Clamps(ds, radix)
  {
    hide DigitTotal, Value, ClampedSum, IsPowerOf;
    ClampedSumIsTotal(ds, radix);
    ClampedSumOf(ds, radix);
    SmallModulo(DigitTotal(ds, radix));
  }

  lemma {:induction false} SmallModulo(n: nat)
    ensures n < TWO32 ==> n % TWO32 == n
  {
  }

  /** Up to 257 digits nothing wraps. */
  lemma {:induction false} ShortNumerals(ds: Bytes, radix: Radix)
    requires Numeral(ds, radix) && |ds| <= 257
    ensures !Wraps(ds, radix)
  {
    hide DigitTotal, ClampedSum;
    ClampedSumIsTotal(ds, radix);
    ClampedSumBound(ds, radix);
    assert |ds| * (15 * MAX_CODE_POINT) <= 257 * (15 * MAX_CODE_POINT) < TWO32;
  }

  /** Leading zeros change nothing, however many. */
  lemma {:induction false} LeadingZeros(zeros: nat, ds: Bytes, radix: Radix)
    requires Numeral(ds, radix)
    ensures var t := Repeat(ZERO, zeros) + ds;
            && Numeral(t, radix) && Value(t, radix) == Value(ds, radix)
            && (Wraps(t, radix) <==> Wraps(ds, radix)) && (Clamps(t, radix) <==> Clamps(ds, radix))
  {
    hide DigitTotal, ClampedSum;
    var t := Repeat(ZERO, zeros) + ds;
    assert Numeral(t, radix);
    ZerosAddNothing(zeros, ds, radix);
    ClampedSumIsTotal(t, radix);
    ClampedSumIsTotal(ds, radix);
  }

  lemma {:induction false} ZerosAddNothing(zeros: nat, ds: Bytes, radix: Radix)
    ensures ClampedSum(Repeat(ZERO, zeros) + ds, radix) == ClampedSum(ds, radix)
    ensures Value(Repeat(ZERO, zeros) + ds, radix) == Value(ds, radix)
  {
    if zeros == 0 {
      assert Repeat(ZERO, 0) + ds == ds;
    } else {
      assert (Repeat(ZERO, zeros) + ds)[1..] == Repeat(ZERO, zeros - 1) + ds;
      ZerosAddNothing(zeros - 1, ds, radix);
    }
  }

  const ZERO: byte := 0x30
  const ONE: byte := 0x31

  function Repeat(c: byte, n: nat): (t: Bytes)
    ensures |t| == n && forall i | 0 <= i < n :: t[i] == c
  {
    if n == 0 then [] else [c] + Repeat(c, n - 1)
  }

  lemma {:induction false} DigitSumOfOnes(n: nat)
    ensures DigitSum(Repeat(ONE, n)) == n
  {
    if n > 0 {
      DigitSumOfOnes(n - 1);
    }
  }

  lemma {:induction false} ValueOfZeros(n: nat, radix: Radix)
    ensures Value(Repeat(ZERO, n), radix) == 0
  {
    if n > 0 {
      ValueOfZeros(n - 1, radix);
    }
  }

  /**
   The bound of 257 digits cannot be dropped: 3856 ones followed by seven zeros denote neither
   a code point nor a power of ten, and yet the 32-bit sum comes out as the code point U+FF0F0.
   */
  lemma {:induction false} LongNumeralWraps()
    ensures var ds := Repeat(ONE, 3856) + Repeat(ZERO, 7);
            && Numeral(ds, 10)
            && Value(ds, 10) > MAX_CODE_POINT && !IsPowerOf(10, Value(ds, 10))
            && ClampedSum(ds, 10) % TWO32 == 0xFF0F0
  {
    var high, low := Repeat(ONE, 3856), Repeat(ZERO, 7);
    DigitSumOfOnes(3856);
    ValueOfZeros(7, 10);
    ClampedSumSplit(high, low, 10);
    ClampedSumOf(high + low, 10);
  }

  // ---- The reference in the text -------------------------------------------------------

  /** What follows the last mark in t, or all of t when there is none. */
  function AfterLast(t: Bytes, mark: byte): Bytes {
    if mark in t then AfterLast(t[1..], mark) else t
  }

  lemma {:induction false} AfterLastAt(t: Bytes, mark: byte, j: nat)
    requires j <= |t| && mark !in t[j..] && (j == 0 || t[j - 1] == mark)
    ensures AfterLast(t, mark) == t[j..]
  {
    if j > 0 {
      assert t[1..][j - 1..] == t[j..];
      assert mark in t;
      AfterLastAt(t[1..], mark, j - 1);
    }
  }

  /**
   The code point that the text between radix mark and semicolon denotes. The digits are read
   backwards from the semicolon to the nearest radix mark, which need not be the first one.
   */
  function CodeOf(body: Bytes, mark: byte, radix: Radix): Option<nat> {
    var digits := AfterLast(body, mark);
    if !Numeral(digits, radix) then None
    else
      var ucs := ClampedSum(digits, radix) % TWO32;
      if ucs > MAX_CODE_POINT then None else Some(ucs)
  }

  datatype Reference = Invalid | Decoded(bytes: Bytes, consumed: nat)

  function MarkOf(radix: Radix): byte {
    if radix == 16 then LOWER_X else HASH
  }

  /** Where the digits of a reference start, counted from the ampersand. */
  function DigitsFrom(radix: Radix): nat {
    if radix == 16 then 3 else 2
  }

  function RadixOf(s: Bytes): Radix {
    if At(s, 2) == LOWER_X then 16 else 10
  }

  /**
   GetCharacterRef on the C string s that starts at the ampersand: how many bytes of text are
   replaced, and by what. A lone `&#` at the end of the text loses its ampersand.
   */
  function CharacterRef(s: Bytes): Reference {
    if At(s, 1) == HASH && At(s, 2) != 0 then
      var from := DigitsFrom(RadixOf(s));
      match StrChr(s[from..], SEMICOLON)
      case None => Invalid
      case Some(k) =>
        match CodeOf(s[from..from + k], MarkOf(RadixOf(s)), RadixOf(s))
        case None => Invalid
        case Some(ucs) => Decoded(Utf8.Encode(ucs), from + k + 1)
    else Decoded([], 1)
  }

  /** The replacement is never longer than the reference, and the reference lies inside the text. */
  lemma {:induction false} ReferenceShrinks(s: Bytes)
    requires s != []
    ensures var r := CharacterRef(s);
            r.Decoded? ==> 1 <= r.consumed <= |s| && |r.bytes| <= r.consumed
  {
    var r := CharacterRef(s);
    if r.Decoded? && At(s, 1) == HASH && At(s, 2) != 0 {
      var from := DigitsFrom(RadixOf(s));
      var k := StrChr(s[from..], SEMICOLON).value;
      if k == 0 {
        assert s[from..from] == [];
        assert r.bytes == Utf8.Encode(0);
      }
    }
  }

  /** The text of a reference with the digits t. */
  function ReferenceText(t: Bytes, radix: Radix): Bytes {
    (if radix == 16 then [AMP, HASH, LOWER_X] else [AMP, HASH]) + t + [SEMICOLON]
  }

  lemma {:induction false} CodeOfNumeral(t: Bytes, radix: Radix)
    requires Numeral(t, radix)
    ensures CodeOf(t, MarkOf(radix), radix) == ReadSum(ClampedSum(t, radix))
  {
    assert MarkOf(radix) !in t;
  }

  /** What the text between radix mark and semicolon is to be read as: digits, at least one. */
  function IntendedCode(body: Bytes, radix: Radix): Option<nat> {
    if body != [] && Numeral(body, radix) then Intended(body, radix) else None
  }

  /** The digits make a sum that is read as a code point. */
  predicate Accepted(ds: Bytes, radix: Radix) {
    Numeral(ds, radix) && DigitTotal(ds, radix) % TWO32 <= MAX_CODE_POINT
  }

  /**
   There are digits only, which neither wrap nor are clamped; or what is not all digits, or empty, does
   not end in digits that are accepted.
   */
  ghost predicate ReadsRight(body: Bytes, radix: Radix) {
    if body != [] && Numeral(body, radix) then !Wraps(body, radix) && !Clamps(body, radix)
    else !Accepted(AfterLast(body, MarkOf(radix)), radix)
  }

  /** The text between radix mark and semicolon, of any length, is read as intended exactly if ReadsRight. */
  lemma {:induction false} DigitsDenote(body: Bytes, radix: Radix)
    ensures CodeOf(body, MarkOf(radix), radix) == IntendedCode(body, radix) <==> ReadsRight(body, radix)
  {
    hide DigitTotal, Value, ClampedSum, IsPowerOf, Numeral, AfterLast;
    if Numeral(body, radix) && body != [] {
      CodeOfNumeral(body, radix);
      AcceptedNumerals(body, radix);
    } else {
      ClampedSumIsTotal(AfterLast(body, MarkOf(radix)), radix);
    }
  }

  // ---- Whole references ------------------------------------------------------------------

  /** What the text at the ampersand of `&#` is to be read as. */
  function IntendedReference(s: Bytes): Reference
    requires At(s, 1) == HASH
  {
    var from := DigitsFrom(RadixOf(s));
    if |s| < from then Invalid
    else match StrChr(s[from..], SEMICOLON)
      case None => Invalid
      case Some(k) =>
        match IntendedCode(s[from..from + k], RadixOf(s))
        case None => Invalid
        case Some(ucs) => Decoded(Utf8.Encode(ucs), from + k + 1)
  }

  /** It has something after `&#`, and what stands before its semicolon is read as intended. */
  ghost predicate ReferenceReadsRight(s: Bytes)
    requires At(s, 1) == HASH
  {
    var from := DigitsFrom(RadixOf(s));
    && At(s, 2) != 0
    && match StrChr(s[from..], SEMICOLON)
       case None => true
       case Some(k) => ReadsRight(s[from..from + k], RadixOf(s))
  }

  lemma {:induction false} EncodeInjective(a: nat, b: nat)
    requires a <= MAX_CODE_POINT && b <= MAX_CODE_POINT && Utf8.Encode(a) == Utf8.Encode(b)
    ensures a == b
  {
    Utf8.EncodeCorrect(a);
    Utf8.EncodeCorrect(b);
  }

  /** Any text that starts with `&#` is decoded as intended exactly if ReferenceReadsRight. */
  lemma {:induction false} ReferenceRead(s: Bytes)
    requires At(s, 1) == HASH
    ensures CharacterRef(s) == IntendedReference(s) <==> ReferenceReadsRight(s)
  {
    var radix, from := RadixOf(s), DigitsFrom(RadixOf(s));
    hide Numeral, Value, ClampedSum, ReadsRight, AfterLast, Utf8.Encode, RadixOf;
    if At(s, 2) != 0 && StrChr(s[from..], SEMICOLON).Some? {
      var body := s[from..from + StrChr(s[from..], SEMICOLON).value];
      DigitsDenote(body, radix);
      CodeBound(body, radix);
      var a, b := CodeOf(body, MarkOf(radix), radix), IntendedCode(body, radix);
      hide CodeOf, IntendedCode;
      if a.Some? && b.Some? && Utf8.Encode(a.value) == Utf8.Encode(b.value) {
        EncodeInjective(a.value, b.value);
      }
    }
  }

  lemma {:induction false} CodeBound(body: Bytes, radix: Radix)
    ensures var c := CodeOf(body, MarkOf(radix), radix); c.Some? ==> c.value <= MAX_CODE_POINT
    ensures var c := IntendedCode(body, radix); c.Some? ==> c.value <= MAX_CODE_POINT
  {
  }

  lemma {:induction false} DigitsSliced(head: Bytes, t: Bytes, rest: Bytes)
    ensures var s := head + t + [SEMICOLON] + rest;
            s[|head|..] == t + [SEMICOLON] + rest && s[|head|..|head| + |t|] == t
  {
  }

  /** The reference is replaced by the UTF-8 encoding of what its digits denote, or left alone. */
  lemma {:induction false} NumericReference(t: Bytes, radix: Radix, rest: Bytes)
    requires Numeral(t, radix)
    ensures CharacterRef(ReferenceText(t, radix) + rest)
            == match CodeOf(t, MarkOf(radix), radix)
               case None => Invalid
               case Some(ucs) => Decoded(Utf8.Encode(ucs), |ReferenceText(t, radix)|)
    ensures IntendedReference(ReferenceText(t, radix) + rest)
            == match IntendedCode(t, radix)
               case None => Invalid
               case Some(ucs) => Decoded(Utf8.Encode(ucs), |ReferenceText(t, radix)|)
  {
    hide CodeOf, IntendedCode, Utf8.Encode;
    var s := ReferenceText(t, radix) + rest;
    var from := DigitsFrom(radix);
    assert RadixOf(s) == radix by {
      if radix == 10 && t != [] {
        assert s[2] == t[0];
      }
    }
    assert At(s, 2) != 0 by {
      if radix == 10 && t != [] {
        assert s[2] == t[0];
      }
    }
    DigitsSliced(if radix == 16 then [AMP, HASH, LOWER_X] else [AMP, HASH], t, rest);
    var u := t + [SEMICOLON] + rest;
    assert forall j | 0 <= j < |t| :: u[j] == t[j];
    StrChrFound(u, SEMICOLON, |t|);
  }

  const TEN_MILLION: Bytes := [ONE] + Repeat(ZERO, 7)

  lemma {:induction false} TenMillion()
    ensures Numeral(TEN_MILLION, 10) && Value(TEN_MILLION, 10) == 10000000
    ensures Clamps(TEN_MILLION, 10) && IntendedCode(TEN_MILLION, 10) == None
  {
    ValueOfZeros(7, 10);
    assert TEN_MILLION[1..] == Repeat(ZERO, 7);
    assert Pow(10, 3) == 1000;
    assert Pow(10, 5) == 100000;
    assert Pow(10, 7) == 10000000;
  }

  /** `&#10000000;` is read as U+10FFFF, although its value is no code point. */
  lemma {:induction false} PowerIsClamped()
    ensures var s := ReferenceText(TEN_MILLION, 10);
            CharacterRef(s) == Decoded(Utf8.Encode(0x10FFFF), |s|) && IntendedReference(s) == Invalid
    ensures Value(TEN_MILLION, 10) == 10000000
  {
    hide Value, Clamps, CharacterRef, IntendedCode, IntendedReference, Utf8.Encode;
    hide ClampedSum, CodeOf, ReadSum, Numeral;
    var s := ReferenceText(TEN_MILLION, 10);
    TenMillion();
    AcceptedNumerals(TEN_MILLION, 10);
    CodeOfNumeral(TEN_MILLION, 10);
    NumericReference(TEN_MILLION, 10, []);
    assert s + [] == s;
  }

  lemma {:induction false} SixtyFive()
    ensures ClampedSum([0x36, 0x35], 10) == 65
  {
    assert Weight(0, 10) == 1 && Weight(1, 10) == 10;
    assert [0x36, 0x35][1..] == [0x35] && [0x35][1..] == [];
    assert ClampedSum([], 10) == 0 && ClampedSum([0x35], 10) == 5;
  }

  lemma {:induction false} InnerMarkCode()
    ensures var body: Bytes := [0x31, 0x32, HASH, 0x36, 0x35];
            CodeOf(body, HASH, 10) == Some(65) && IntendedCode(body, 10) == None
  {
    var body: Bytes := [0x31, 0x32, HASH, 0x36, 0x35];
    AfterLastAt(body, HASH, 3);
    assert body[3..] == [0x36, 0x35];
    SixtyFive();
    assert body[2] == HASH;
  }

  /** `&#12#65;` is read as an A: all before the last mark is skipped. */
  lemma {:induction false} InnerMarkIsSkipped()
    ensures var s: Bytes := [AMP, HASH, 0x31, 0x32, HASH, 0x36, 0x35, SEMICOLON];
            CharacterRef(s) == Decoded([0x41], 8) && IntendedReference(s) == Invalid
  {
    var s: Bytes := [AMP, HASH, 0x31, 0x32, HASH, 0x36, 0x35, SEMICOLON];
    InnerMarkCode();
    hide CodeOf, IntendedCode, StrChr;
    StrChrFound(s[2..], SEMICOLON, 5);
    assert s[2..7] == [0x31, 0x32, HASH, 0x36, 0x35];
  }

  /** `&#;` is read as the number zero, and `&#` at the end of the text loses its ampersand. */
  lemma {:induction false} NothingIsRead()
    ensures CharacterRef([AMP, HASH, SEMICOLON]) == Decoded([0], 3)
    ensures IntendedReference([AMP, HASH, SEMICOLON]) == Invalid
    ensures CharacterRef([AMP, HASH]) == Decoded([], 1) && IntendedReference([AMP, HASH]) == Invalid
  {
    var s: Bytes := [AMP, HASH, SEMICOLON];
    StrChrFound(s[2..], SEMICOLON, 0);
    assert s[2..2] == [] && AfterLast([], HASH) == [] && ClampedSum([], 10) == 0;
  }

  /** `&#0;` is read as the number that it denotes. */
  lemma {:induction false} ZeroReference(rest: Bytes)
    ensures CharacterRef([AMP, HASH, ZERO, SEMICOLON] + rest) == Decoded([0], 4)
  {
    assert ClampedSum([ZERO], 10) == 0 by {
      assert [ZERO][1..] == [] && ClampedSum([], 10) == 0;
    }
    assert HASH !in [ZERO] && Numeral([ZERO], 10);
    assert CodeOf([ZERO], HASH, 10) == Some(0);
    hide CodeOf;
    NumericReference([ZERO], 10, rest);
    assert ReferenceText([ZERO], 10) == [AMP, HASH, ZERO, SEMICOLON];
  }

  /** The loops of GetCharacterRef: find the semicolon, then accumulate backwards from it. */
  method GetCharacterRef(s: Bytes) returns (r: Reference)
    requires s != []
    ensures r == CharacterRef(s)
  {
    if At(s, 1) != HASH || At(s, 2) == 0 {
      return Decoded([], 1);
    }
    var radix := RadixOf(s);
    var from := DigitsFrom(radix);
    var t := s[from..];
    var k := 0;
    while At(t, k) != 0 && t[k] != SEMICOLON
      invariant 0 <= k <= |t|
      invariant forall j | 0 <= j < k :: t[j] != SEMICOLON && t[j] != 0
      decreases |t| - k
    {
      k := k + 1;
    }
    if At(t, k) == 0 {
      StrChrMissing(t, SEMICOLON, k);
      return Invalid;
    }
    StrChrFound(t, SEMICOLON, k);
    var code := Accumulate(s[from..from + k], MarkOf(radix), radix);
    if code.None? {
      return Invalid;
    }
    var bytes := Utf8.ConvertUTF32ToUTF8(code.value);
    r := Decoded(bytes, from + k + 1);
  }

  lemma {:induction false} AddModulo(total: nat, p: nat, ucs: nat, more: nat)
    requires ucs == total % TWO32 && more == total + p
    ensures (ucs + p % TWO32) % TWO32 == more % TWO32
  {
  }

  /** The multiplier does not overflow before it is clamped. */
  lemma {:induction false} WeightStep(k: nat, radix: Radix)
    ensures Clamp(Scale(Weight(k, radix), radix) % TWO32) == Weight(k + 1, radix)
  {
    WeightIsClampedPower(k, radix);
  }

  lemma {:induction false} ClampedSumCons(c: byte, tail: Bytes, radix: Radix)
    ensures ClampedSum([c] + tail, radix) == Digit(c) * Weight(|tail|, radix) + ClampedSum(tail, radix)
  {
    assert ([c] + tail)[1..] == tail;
  }

  lemma {:induction false} DigitStep(c: byte, tail: Bytes, radix: Radix, ucs: nat, scaled: nat)
    requires scaled == Digit(c) * Weight(|tail|, radix) && ucs == ClampedSum(tail, radix) % TWO32
    ensures (ucs + scaled % TWO32) % TWO32 == ClampedSum([c] + tail, radix) % TWO32
  {
    var total, more := ClampedSum(tail, radix), ClampedSum([c] + tail, radix);
    assert more == total + scaled by {
      ClampedSumCons(c, tail, radix);
    }
    AddModulo(total, scaled, ucs, more);
  }

  /** One turn of the digit loop, in 32-bit arithmetic. */
  method AddDigit(c: byte, ghost tail: Bytes, radix: Radix, ucs: nat, mult: nat) returns (sum: nat, next: nat)
    requires mult == Weight(|tail|, radix) && ucs == ClampedSum(tail, radix) % TWO32
    ensures next == Weight(|tail| + 1, radix)
    ensures sum == ClampedSum([c] + tail, radix) % TWO32
  {
    hide ClampedSum, Weight, Digit, Scale, Clamp;
    var digitScaled := Digit(c) * mult;
    DigitStep(c, tail, radix, ucs, digitScaled);
    sum := (ucs + digitScaled % TWO32) % TWO32;
    WeightStep(|tail|, radix);
    next := Clamp(Scale(mult, radix) % TWO32);
  }

  /** The digit loop: a 32-bit sum with a saturating multiplier. */
  method Accumulate(body: Bytes, terminator: byte, radix: Radix) returns (code: Option<nat>)
    ensures code == CodeOf(body, terminator, radix)
  {
    var ucs, mult, q := 0, 1, |body|;
    while q > 0 && body[q - 1] != terminator
      invariant 0 <= q <= |body|
      invariant terminator !in body[q..]
      invariant Numeral(body[q..], radix)
      invariant mult == Weight(|body| - q, radix)
      invariant ucs == ClampedSum(body[q..], radix) % TWO32
    {
      var c := body[q - 1];
      assert body[q - 1..] == [c] + body[q..];
      if !IsDigit(c, radix) {
        NotANumeral(body, terminator, radix, q);
        return None;
      }
      ucs, mult := AddDigit(c, body[q..], radix, ucs, mult);
      q := q - 1;
    }
    AfterLastAt(body, terminator, q);
    code := if ucs > MAX_CODE_POINT then None else Some(ucs);
  }

  /** A byte that is no digit, met before the radix mark, spoils the reference. */
  lemma {:induction false} NotANumeral(t: Bytes, mark: byte, radix: Radix, q: nat)
    requires 0 < q <= |t| && mark !in t[q..] && t[q - 1] != mark
    requires !IsDigit(t[q - 1], radix)
    ensures !Numeral(AfterLast(t, mark), radix)
  {
    if mark in t {
      assert q > 1;
      assert t[1..][q - 1..] == t[q..];
      NotANumeral(t[1..], mark, radix, q - 1);
    }
  }
}
