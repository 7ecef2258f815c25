/**
 * Receiver estimated maximum bitrate (`RtcpRembFb`, section 2.2 of
 * draft-alvestrand-rmcat-remb): a rate as an 18-bit mantissa and a 6-bit exponent.
 */
module Remb {
  import opened Words
  import opened Bits

  const REMB_ID: u32 := 0x5245_4D42

  datatype Feedback = Feedback(bps: u32, numSsrcs: u32, ssrc: u32)

  /** `x << i` in 32 bits. */
  function Shl32(x: u32, i: nat): u32 {
    if i == 0 then x else Mod32(2 * Shl32(x, i - 1))
  }

  /** `x >> i`. */
  function Shr32(x: u32, i: nat): (r: u32)
    ensures r <= x
    decreases i
  {
    if i == 0 then x else Shr32(x / 2, i - 1)
  }

  /** A shift count as the processor takes it, modulo 32. */
  function Count(i: nat): nat
    requires i < 64
  {
    if i < 32 then i else i - 32
  }

  predicate Fits(bps: u32, i: nat)
    requires i < 64
  {
    bps <= Shl32(0x3_FFFF, Count(i))
  }

  /** The first exponent from `i` on that fits, or 0 when none of the 64 does. */
  function FirstFit(bps: u32, i: nat): (e: nat)
    requires i <= 64
    ensures e < 64
    ensures (forall j :: i <= j < 64 ==> !Fits(bps, j)) ==> e == 0
    ensures (exists j :: i <= j < 64 && Fits(bps, j)) ==>
              i <= e && Fits(bps, e) && forall j :: i <= j < e ==> !Fits(bps, j)
    decreases 64 - i
  {
    if i == 64 then 0 else if Fits(bps, i) then i else FirstFit(bps, i + 1)
  }

  function Exponent(bps: u32): (e: nat)
    ensures e < 64
  {
    FirstFit(bps, 0)
  }

  function Mantissa(bps: u32): u32 { Shr32(bps, Exponent(bps)) }

  method ComputeMantissaAnd6bitBase2Exponent(bps: u32) returns (mantissa: u32, exp: nat)
    ensures exp == Exponent(bps) && mantissa == Mantissa(bps)
  {
    exp := 0;
    var i := 0;
    while i < 64
      invariant i <= 64 && FirstFit(bps, i) == Exponent(bps) && exp == 0
    {
      if Fits(bps, i) {
        exp := i;
        break;
      }
      i := i + 1;
    }
    mantissa := Shr32(bps, exp);
  }

  /** Number of SSRCs in 8 bits, exponent in 6, mantissa in 18. */
  function RateWord(n: int, e: int, m: int): u32
    requires 0 <= n < 0x100 && 0 <= e < 0x40 && 0 <= m < 0x4_0000
  {
    n * 0x100_0000 + e * 0x4_0000 + m
  }

  /** The three words of the message; each field is cut to its width. */
  function ToWords(f: Feedback): seq<u32> {
    [REMB_ID, RateWord(f.numSsrcs % 0x100, Exponent(f.bps), Mantissa(f.bps) % 0x4_0000), f.ssrc]
  }

  function WordSsrcs(w: u32): u32 { w / 0x100_0000 }

  function WordExponent(w: u32): (e: nat)
    ensures e < 64
  {
    w / 0x4_0000 % 0x40
  }

  function WordMantissa(w: u32): u32 { w % 0x4_0000 }

  function Parse(words: seq<u32>): Option<Feedback>
    requires |words| == 3
  {
    if words[0] != REMB_ID then None
    else Some(Feedback(Shl32(WordMantissa(words[1]), Count(WordExponent(words[1]))), WordSsrcs(words[1]), words[2]))
  }

  /** The rate a receiver of the message reads. */
  function Rate(bps: u32): u32 {
    Shl32(Mantissa(bps) % 0x4_0000, Count(Exponent(bps)))
  }

  lemma FieldsApart(n: int, e: int, m: int)
    requires 0 <= n < 0x100 && 0 <= e < 0x40 && 0 <= m < 0x4_0000
    ensures var w := RateWord(n, e, m); WordSsrcs(w) == n && WordExponent(w) == e && WordMantissa(w) == m
  {
    assert RateWord(n, e, m) / 0x4_0000 == n * 0x40 + e;
  }

  /** The message carries every field, cut to its width, and the rate as encoded. */
  lemma MessageRoundTrip(f: Feedback)
    ensures Parse(ToWords(f)) == Some(Feedback(Rate(f.bps), f.numSsrcs % 0x100, f.ssrc))
  {
    FieldsApart(f.numSsrcs % 0x100, Exponent(f.bps), Mantissa(f.bps) % 0x4_0000);
  }

  /** A message is taken exactly if it begins with the letters REMB; then its words are those it stands for. */
  lemma ParseExactly(words: seq<u32>)
    requires |words| == 3
    ensures var id := 'R' as int * 0x100_0000 + 'E' as int * 0x1_0000 + 'M' as int * 0x100 + 'B' as int;
            Parse(words).Some? <==> words[0] == id
    ensures Parse(words).Some? ==>
              var f := Parse(words).value;
              f.ssrc == words[2] && words[1] == RateWord(f.numSsrcs, WordExponent(words[1]), WordMantissa(words[1]))
              && f.bps == Shl32(WordMantissa(words[1]), Count(WordExponent(words[1])))
  {
    assert words[1] / 0x4_0000 / 0x40 == words[1] / 0x100_0000;
    hide Shl32;
  }

  // ------------------------------------------------------------------
  // The value encoded
  // ------------------------------------------------------------------

  /** `x * 2^i`, not cut. */
  function Up(x: nat, i: nat): nat {
    if i == 0 then x else 2 * Up(x, i - 1)
  }

  /** The lowest `i` bits of `x`. */
  function Low(x: nat, i: nat): (r: nat)
    ensures r < Pow2(i)
    decreases i
  {
    if i == 0 then 0 else 2 * Low(x / 2, i - 1) + x % 2
  }

  lemma {:induction false} UpIsProduct(x: nat, i: nat)
    ensures Up(x, i) == x * Pow2(i)
  {
    if i > 0 { UpIsProduct(x, i - 1); }
  }

  lemma {:induction false} UpMono(x: nat, y: nat, i: nat)
    requires x <= y
    ensures x <= Up(x, i) <= Up(y, i)
  {
    if i > 0 { UpMono(x, y, i - 1); }
  }

  lemma {:induction false} UpSum(x: nat, a: nat, b: nat)
    ensures Up(x, a + b) == Up(Up(x, a), b)
  {
    if b > 0 { UpSum(x, a, b - 1); }
  }

  /** A shift that does not reach bit 32 is a multiplication. */
  lemma {:induction false} ShlIsUp(x: u32, i: nat)
    requires Up(x, i) < 0x1_0000_0000
    ensures Shl32(x, i) == Up(x, i)
  {
    if i > 0 { ShlIsUp(x, i - 1); }
  }

  lemma {:induction false} ShrThenUp(x: u32, i: nat)
    ensures Up(Shr32(x, i), i) + Low(x, i) == x
    decreases i
  {
    if i > 0 {
      ShrThenUp(x / 2, i - 1);
      assert Shr32(x, i) == Shr32(x / 2, i - 1);
    }
  }

  lemma {:induction false} ShrOfBounded(x: u32, m: nat, i: nat)
    requires x <= Up(m, i)
    ensures Shr32(x, i) <= m
    decreases i
  {
    if i > 0 { ShrOfBounded(x / 2, m, i - 1); }
  }

  lemma {:induction false} LowOfUp(x: nat, i: nat)
    ensures Low(Up(x, i), i) == 0
  {
    if i > 0 { LowOfUp(x, i - 1); }
  }

  lemma FourteenShifts()
    ensures Up(0x3_FFFF, 14) == 0xFFFF_C000 && Pow2(14) == 0x4000
  {
    assert Up(0x3_FFFF, 7) == 0x1FF_FF80;
    assert Up(0x3_FFFF, 11) == 16 * Up(0x3_FFFF, 7);
    assert Pow2(7) == 128;
    assert Pow2(11) == 16 * Pow2(7);
  }

  lemma {:induction false} UpGrows(x: nat, i: nat, j: nat)
    requires i <= j
    ensures Up(x, i) <= Up(x, j)
  {
    if i < j { UpGrows(x, i, j - 1); }
  }

  /** Up to exponent 14 the largest mantissa is shifted without loss. */
  lemma LowShift(i: nat)
    requires i <= 14
    ensures Shl32(0x3_FFFF, i) == Up(0x3_FFFF, i) <= 0xFFFF_C000
  {
    FourteenShifts();
    UpGrows(0x3_FFFF, i, 14);
    ShlIsUp(0x3_FFFF, i);
  }

  /** Beyond exponent 14 the top bits fall off. */
  lemma {:induction false} HighShift(i: nat)
    requires 14 <= i < 32
    ensures Shl32(0x3_FFFF, i) == 0x1_0000_0000 - Pow2(i) && Pow2(i) <= 0x8000_0000
  {
    FourteenShifts();
    if i == 14 {
      LowShift(14);
    } else {
      HighShift(i - 1);
      PowersOfTwo();
      PowGrows(i, 31);
    }
  }

  lemma {:induction false} PowGrows(i: nat, j: nat)
    requires i <= j
    ensures Pow2(i) <= Pow2(j)
  {
    if i < j { PowGrows(i, j - 1); }
  }

  lemma NoneFits(bps: u32)
    requires bps > 0xFFFF_C000
    ensures Exponent(bps) == 0
  {
    forall j: nat | j < 64 ensures !Fits(bps, j) {
      if Count(j) <= 14 {
        LowShift(Count(j));
      } else {
        HighShift(Count(j));
        FourteenShifts();
        PowGrows(14, Count(j));
      }
    }
  }

  lemma LeastShift(bps: u32)
    requires bps <= 0xFFFF_C000
    ensures var e := Exponent(bps);
            e <= 14 && bps <= Up(0x3_FFFF, e) && forall j: nat :: j < e ==> bps > Up(0x3_FFFF, j)
  {
    FourteenShifts();
    LowShift(14);
    assert Fits(bps, 14);
    var e := Exponent(bps);
    LowShift(e);
    forall j: nat | j < e ensures bps > Up(0x3_FFFF, j) {
      assert !Fits(bps, j);
      LowShift(j);
    }
  }

  /** Up to 0xFFFFC000 the loop finds the least exponent whose 18-bit mantissa suffices. */
  lemma LeastExponent(bps: u32)
    requires bps <= 0xFFFF_C000
    ensures var e := Exponent(bps);
            e <= 14 && bps <= 0x3_FFFF * Pow2(e) && forall j: nat :: j < e ==> bps > 0x3_FFFF * Pow2(j)
  {
    LeastShift(bps);
    UpIsProduct(0x3_FFFF, Exponent(bps));
    forall j: nat | j < Exponent(bps) ensures bps > 0x3_FFFF * Pow2(j) {
      UpIsProduct(0x3_FFFF, j);
    }
  }

  /** A mantissa for a fitting exponent, shifted back. */
  lemma ShiftFits(bps: u32, e: nat)
    requires e <= 14 && bps <= Up(0x3_FFFF, e)
    ensures Shr32(bps, e) <= 0x3_FFFF
    ensures Shl32(Shr32(bps, e) % 0x4_0000, Count(e)) == Up(Shr32(bps, e), e) == bps - Low(bps, e)
  {
    ShrOfBounded(bps, 0x3_FFFF, e);
    ShrThenUp(bps, e);
    Narrow(Shr32(bps, e));
    ShlIsUp(Shr32(bps, e), e);
  }

  lemma Narrow(m: int)
    requires 0 <= m <= 0x3_FFFF
    ensures m % 0x4_0000 == m
  {
  }

  lemma RateIsShifted(bps: u32)
    requires bps <= 0xFFFF_C000
    ensures Mantissa(bps) <= 0x3_FFFF
    ensures Rate(bps) == Up(Mantissa(bps), Exponent(bps)) == bps - Low(bps, Exponent(bps))
  {
    LeastShift(bps);
    ShiftFits(bps, Exponent(bps));
  }

  /** The mantissa has 18 bits, and the rate is mantissa * 2^exponent: the input without its low bits. */
  lemma RateIs(bps: u32)
    requires bps <= 0xFFFF_C000
    ensures var e := Exponent(bps);
            Mantissa(bps) < 0x4_0000 && Rate(bps) == Mantissa(bps) * Pow2(e) == bps - Low(bps, e)
  {
    RateIsShifted(bps);
    UpIsProduct(Mantissa(bps), Exponent(bps));
  }

  /** The parsed rate is at most the input and less than 2^exp below it exactly up to 0xFFFFC000. */
  lemma RateExactly(bps: u32)
    ensures Rate(bps) <= bps < Rate(bps) + Pow2(Exponent(bps)) <==> bps <= 0xFFFF_C000
  {
    if bps <= 0xFFFF_C000 {
      RateIs(bps);
    } else {
      NoneFits(bps);
      assert Pow2(0) == 1;
      assert Rate(bps) == bps % 0x4_0000;
    }
  }

  lemma FittingRateIsStable(bps: u32)
    requires bps <= 0xFFFF_C000
    ensures Rate(Rate(bps)) == Rate(bps)
  {
    RateIsShifted(bps);
    LeastShift(bps);
    var r, e, m := Rate(bps), Exponent(bps), Mantissa(bps);
    var e' := Exponent(r);
    hide Rate, Exponent, Mantissa;
    UpMono(m, 0x3_FFFF, e);
    RateIsShifted(r);
    LeastShift(r);
    assert e' <= e;
    UpSum(m, e - e', e');
    LowOfUp(Up(m, e - e'), e');
  }

  /** Encoding the parsed rate again gives the same rate, even where the encoding loses upper bits. */
  lemma RateIsStable(bps: u32)
    ensures Rate(Rate(bps)) == Rate(bps)
  {
    if bps <= 0xFFFF_C000 {
      FittingRateIsStable(bps);
    } else {
      NoneFits(bps);
      var r := Rate(bps);
      assert r == bps % 0x4_0000;
      LeastShift(r);
      assert Up(0x3_FFFF, 0) == 0x3_FFFF;
      RateIsShifted(r);
    }
  }
}
