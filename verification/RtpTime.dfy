/**
 * Conversions between wall-clock, NTP and RTP time (`RtpTime`), with `double` read as exact
 * rational arithmetic. A time is a number of microseconds since 1 January 1900.
 */
module RtpTime {
  import opened Words
  import opened Arithmetic

  /** Seconds from 1 January 1900 to 1 January 1970. */
  const UNIX_EPOCH: int := 2208988800

  datatype Ntp = Ntp(msw: u32, lsw: u32)

  function Seconds(t: int): int { t / 1000000 }

  function Microseconds(t: int): int { t % 1000000 }

  /** `(us / 15625) * 2^26`, rounded, as a 32-bit word. */
  function NtpFraction(us: int): u32 {
    Mod32((2 * us * 0x400_0000 + 15625) / 31250)
  }

  function ToNtp(t: int): Ntp {
    Ntp(Mod32(Seconds(t)), NtpFraction(Microseconds(t)))
  }

  /** Ticks of a clock nearest to a number of microseconds: `us / (10^6 / freq) + 0.5`, cut. */
  function NearestTick(us: int, freq: u32): int {
    (2 * us * freq + 1000000) / 2000000
  }

  /** NTP time of the clock tick nearest to `t`. */
  function ToNtpAtClock(t: int, freq: u32): Ntp
    requires freq > 0
  {
    var us := NearestTick(Microseconds(t), freq) * 1000000 / freq;
    Ntp(Mod32(Seconds(t)), NtpFraction(us))
  }

  /** Microseconds of an NTP fraction, rounded. */
  function FractionUs(lsw: u32): int {
    (2 * lsw * 15625 + 0x400_0000) / 0x800_0000
  }

  function FromNtp(n: Ntp): int {
    var hours := n.msw / 3600;
    var minutes := n.msw % 3600 / 60;
    var seconds := n.msw % 3600 % 60;
    (hours * 3600 + minutes * 60 + seconds) * 1000000 + FractionUs(n.lsw)
  }

  /** `convertToRtpTimestamp` for seconds and microseconds. */
  function TicksOf(seconds: int, us: int, freq: u32, base: u32): u32 {
    Mod32(base + Mod32(freq * seconds + NearestTick(us, freq)))
  }

  /** RTP timestamp of a time from 1970 on. */
  function TimeToRtp(t: int, freq: u32, base: u32): u32 {
    var sinceEpoch := t - UNIX_EPOCH * 1000000;
    TicksOf(Seconds(sinceEpoch), Microseconds(sinceEpoch), freq, base)
  }

  /** The RTP timestamp in wall-clock mode at a 90 kHz clock. */
  function WallClockRtp(t: int, base: u32): u32 {
    TimeToRtp(FromNtp(ToNtpAtClock(t, 90000)), 90000, base)
  }

  lemma FractionRoundTrip(us: int)
    requires 0 <= us < 1000000
    ensures FractionUs(NtpFraction(us)) == us
  {
    var f := (2 * us * 0x400_0000 + 15625) / 31250;
    assert 31250 * f <= 2 * us * 0x400_0000 + 15625 < 31250 * f + 31250;
    assert 0 <= f < 0x1_0000_0000;
  }

  lemma FromNtpIs(s: u32, lsw: u32)
    ensures FromNtp(Ntp(s, lsw)) == s * 1000000 + FractionUs(lsw)
  {
  }

  lemma SplitTime(t: int)
    requires 0 <= t < 0x1_0000_0000 * 1000000
    ensures Mod32(Seconds(t)) == Seconds(t) && 0 <= Microseconds(t) < 1000000
    ensures t == Seconds(t) * 1000000 + Microseconds(t)
  {
  }

  /** The NTP words: whole seconds, and the fraction in units of 2^-32 seconds, to the nearest. */
  lemma NtpIs(t: int)
    requires 0 <= t < 0x1_0000_0000 * 1000000
    ensures var n, us := ToNtp(t), t - 1000000 * (t / 1000000);
            n.msw == t / 1000000 && -500000 <= us * 0x1_0000_0000 - 1000000 * n.lsw <= 500000
  {
    SplitTime(t);
    FractionNearest(Microseconds(t));
  }

  lemma FractionNearest(us: int)
    requires 0 <= us < 1000000
    ensures -500000 <= us * 0x1_0000_0000 - 1000000 * NtpFraction(us) <= 500000
  {
    var f := (2 * us * 0x400_0000 + 15625) / 31250;
    assert 31250 * f <= 2 * us * 0x400_0000 + 15625 < 31250 * f + 31250;
    assert 0 <= f < 0x1_0000_0000;
  }

  /** Every microsecond from 1900 to the end of the 32-bit NTP seconds survives the trip through NTP. */
  lemma NtpRoundTrip(t: int)
    requires 0 <= t < 0x1_0000_0000 * 1000000
    ensures FromNtp(ToNtp(t)) == t
  {
    SplitTime(t);
    FractionRoundTrip(Microseconds(t));
    FromNtpIs(Mod32(Seconds(t)), NtpFraction(Microseconds(t)));
  }

  /** Cutting a tick to whole microseconds loses less than half a tick, so rounding restores it. */
  lemma TickSurvivesCut(tick: int)
    requires 0 <= tick <= 90000
    ensures NearestTick(tick * 1000000 / 90000, 90000) == tick
  {
    var us := tick * 1000000 / 90000;
    assert 90000 * us <= tick * 1000000 < 90000 * us + 90000;
  }

  lemma CutWithinSecond(us: int)
    requires 0 <= us <= 999994
    ensures 0 <= NearestTick(us, 90000) < 90000
    ensures 0 <= NearestTick(us, 90000) * 1000000 / 90000 < 1000000
  {
  }

  /** From 999995 on the nearest tick is the next second, whose fraction does not fit 32 bits. */
  lemma CutAtNextSecond(us: int)
    requires 999995 <= us < 1000000
    ensures NearestTick(us, 90000) == 90000
    ensures NtpFraction(NearestTick(us, 90000) * 1000000 / 90000) == 0
  {
    assert 90000 * 1000000 / 90000 == 1000000;
    assert (2 * 1000000 * 0x400_0000 + 15625) / 31250 == 0x1_0000_0000;
  }

  /** Whole microseconds of the tick nearest to `us`. */
  function Cut(us: int): int { NearestTick(us, 90000) * 1000000 / 90000 }

  /** The time the clock rounds to, on its way through NTP. */
  lemma RoundedTime(t: int)
    requires 0 <= t < 0x1_0000_0000 * 1000000
    ensures var us := Microseconds(t);
            FromNtp(ToNtpAtClock(t, 90000)) == Seconds(t) * 1000000 + if us <= 999994 then Cut(us) else 0
  {
    var us := Microseconds(t);
    SplitTime(t);
    assert ToNtpAtClock(t, 90000) == Ntp(Mod32(Seconds(t)), NtpFraction(Cut(us)));
    FromNtpIs(Mod32(Seconds(t)), NtpFraction(Cut(us)));
    if us <= 999994 {
      CutWithinSecond(us);
      FractionRoundTrip(Cut(us));
    } else {
      CutAtNextSecond(us);
      assert FractionUs(0) == 0;
    }
  }

  lemma TimeToRtpSplit(s: int, us: int, base: u32)
    requires 0 <= us < 1000000
    ensures TimeToRtp(s * 1000000 + us, 90000, base) == Mod32(base + 90000 * (s - UNIX_EPOCH) + NearestTick(us, 90000))
  {
    var t := (s - UNIX_EPOCH) * 1000000 + us;
    assert t == s * 1000000 + us - UNIX_EPOCH * 1000000;
    assert Seconds(t) == s - UNIX_EPOCH && Microseconds(t) == us;
    ModAdd(base, 90000 * (s - UNIX_EPOCH) + NearestTick(us, 90000));
  }

  lemma ModAdd(a: int, b: int)
    ensures Mod32(a + Mod32(b)) == Mod32(a + b)
  {
  }

  /** What the wall clock yields, by its microseconds; from 999995 on the second is lost. */
  lemma WallClockIs(t: int, base: u32)
    requires UNIX_EPOCH * 1000000 <= t < 0x1_0000_0000 * 1000000
    ensures var s, us := Seconds(t) - UNIX_EPOCH, Microseconds(t);
            WallClockRtp(t, base) == Mod32(base + 90000 * s + if us <= 999994 then NearestTick(us, 90000) else 0)
  {
    var us := Microseconds(t);
    RoundedTime(t);
    if us <= 999994 {
      CutWithinSecond(us);
      TimeToRtpSplit(Seconds(t), Cut(us), base);
      TickSurvivesCut(NearestTick(us, 90000));
    } else {
      TimeToRtpSplit(Seconds(t), 0, base);
      assert NearestTick(0, 90000) == 0;
    }
  }

  lemma NextSecondDiffers(x: int)
    ensures Mod32(x + 90000) != Mod32(x)
  {
  }

  lemma WallClockBehind(t: int, base: u32)
    requires UNIX_EPOCH * 1000000 <= t < 0x1_0000_0000 * 1000000 && Microseconds(t) > 999994
    ensures WallClockRtp(t, base)
         != Mod32(base + 90000 * (Seconds(t) - UNIX_EPOCH) + NearestTick(Microseconds(t), 90000))
  {
    var x := base + 90000 * (Seconds(t) - UNIX_EPOCH);
    WallClockIs(t, base);
    CutAtNextSecond(Microseconds(t));
    NextSecondDiffers(x);
  }

  /**
   * Rounding to a 90 kHz tick, going through NTP and back, and converting to RTP gives
   * exactly the tick nearest to the time if and only if the microseconds are at most 999994.
   */
  lemma WallClockExactly(t: int, base: u32)
    requires UNIX_EPOCH * 1000000 <= t < 0x1_0000_0000 * 1000000
    ensures var s, us := Seconds(t) - UNIX_EPOCH, Microseconds(t);
            WallClockRtp(t, base) == Mod32(base + 90000 * s + NearestTick(us, 90000)) <==> us <= 999994
  {
    if Microseconds(t) <= 999994 {
      WallClockIs(t, base);
    } else {
      WallClockBehind(t, base);
    }
  }

  /** The nearest tick is within half a tick of the time. */
  lemma NearestTickBound(us: int, freq: u32)
    ensures -1000000 <= 2 * us * freq - 2000000 * NearestTick(us, freq) <= 1000000
  {
  }

  /** Whole seconds and the rest, converted apart, add up to the conversion of the whole. */
  lemma TicksOfWhole(us: int, freq: u32)
    ensures freq * Seconds(us) + NearestTick(Microseconds(us), freq) == NearestTick(us, freq)
  {
    var s, m := Seconds(us), Microseconds(us);
    assert 2 * us * freq + 1000000 == (freq * s) * 2000000 + (2 * m * freq + 1000000);
    DivShift(2 * m * freq + 1000000, freq * s, 2000000);
  }
}
