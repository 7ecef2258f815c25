/**
 * `RtpReferenceClock` in media-sample mode: RTP timestamps follow the media time, RTCP
 * timestamps are extrapolated from the last reference. Times are microseconds.
 */
module ReferenceClock {
  import opened Words
  import opened Arithmetic
  import opened RtpTime

  datatype Clock = Clock(reference: Option<int>, last: u32, offset: u32, offsetRtp: bool)

  const FRESH: Clock := Clock(None, 0, 0, false)

  /** `convertToRtpTimestamp` for a media time in seconds. */
  function MediaTicks(freq: u32, media: real): u32 {
    Mod32(((freq as real) * media + 0.5).Floor)
  }

  /** Ticks elapsed between two readings of the clock; the difference is read as an unsigned 64-bit number. */
  function Elapsed(freq: u32, us: int): u32 {
    var total := us % 0x1_0000_0000_0000_0000;
    TicksOf(Mod32(Seconds(total)), Microseconds(total), freq, 0)
  }

  function RtpCall(c: Clock, freq: u32, base: u32, now: int, media: real): (Clock, u32) {
    var c1 := if c.offsetRtp && c.reference.Some?
              then c.(offset := Elapsed(freq, now - c.reference.value), offsetRtp := false) else c;
    var ts := MediaTicks(freq, media);
    var c2 := if ts != c1.last || c1.reference.None? then c1.(last := ts, reference := Some(now)) else c1;
    (c2, Mod32(c2.last + base + c2.offset))
  }

  function RtcpCall(c: Clock, freq: u32, base: u32, now: int): (Clock, u32, Ntp) {
    match c.reference
    case None =>
      var c1 := c.(reference := Some(now), offsetRtp := true, last := MediaTicks(freq, 0.0));
      (c1, Mod32(c1.last + base + c1.offset), ToNtp(now))
    case Some(t) =>
      var c1 := c.(last := Mod32(c.last + Elapsed(freq, now - t)), reference := Some(now));
      (c1, Mod32(c1.last + base + c1.offset), ToNtp(now))
  }

  class RtpReferenceClock {
    var reference: Option<int>
    var last: u32
    var offset: u32
    var offsetRtp: bool

    ghost function View(): Clock
      reads this
    {
      Clock(reference, last, offset, offsetRtp)
    }

    constructor ()
      ensures View() == FRESH
    {
      reference, last, offset, offsetRtp := None, 0, 0, false;
    }

    method GetRtpTimestamp(freq: u32, base: u32, media: real, now: int) returns (ts: u32)
      requires offsetRtp ==> reference.Some?
      modifies this
      ensures (View(), ts) == RtpCall(old(View()), freq, base, now, media)
    {
      if offsetRtp {
        offset := Elapsed(freq, now - reference.value);
        offsetRtp := false;
      }
      var t := MediaTicks(freq, media);
      if t != last || reference.None? {
        last := t;
        reference := Some(now);
      }
      ts := Mod32(last + base + offset);
    }

    method GetRtpAndNtpTimestamps(freq: u32, base: u32, now: int) returns (ts: u32, ntp: Ntp)
      modifies this
      ensures (View(), ts, ntp) == RtcpCall(old(View()), freq, base, now)
    {
      if reference.None? {
        reference := Some(now);
        offsetRtp := true;
        last := MediaTicks(freq, 0.0);
      } else {
        last := Mod32(last + Elapsed(freq, now - reference.value));
        reference := Some(now);
      }
      ntp := ToNtp(now);
      ts := Mod32(last + base + offset);
    }
  }

  // ------------------------------------------------------------------
  // Whole runs
  // ------------------------------------------------------------------

  datatype Call = Rtp(now: int, media: real) | Rtcp(now: int)

  /** One call: the clock after it and the RTP timestamp it returns. */
  function Answer(c: Clock, freq: u32, base: u32, e: Call): (Clock, u32) {
    match e
    case Rtp(now, media) => RtpCall(c, freq, base, now, media)
    case Rtcp(now) =>
      var (c', ts, _) := RtcpCall(c, freq, base, now);
      (c', ts)
  }

  /** The clock after a run of calls on a fresh one. */
  function After(freq: u32, base: u32, calls: seq<Call>): Clock {
    if calls == [] then FRESH
    else Answer(After(freq, base, calls[..|calls| - 1]), freq, base, calls[|calls| - 1]).0
  }

  /** The RTP timestamp that call `j` of a run returns. */
  function Stamp(freq: u32, base: u32, calls: seq<Call>, j: nat): u32
    requires j < |calls|
  {
    Answer(After(freq, base, calls[..j]), freq, base, calls[j]).1
  }

  /** No offset is pending once an RTP timestamp has been handed out. */
  predicate Settled(c: Clock) { c.reference.Some? && !c.offsetRtp }

  ghost predicate Wired(c: Clock) { c.offsetRtp ==> c.reference.Some? }

  lemma RtpAnswer(c: Clock, freq: u32, base: u32, e: Call)
    requires Wired(c) && e.Rtp?
    ensures var (c', ts) := Answer(c, freq, base, e);
            && Settled(c') && (Settled(c) ==> c'.offset == c.offset)
            && ts == Mod32(MediaTicks(freq, e.media) + base + c'.offset)
  {
  }

  lemma RtcpAnswer(c: Clock, freq: u32, base: u32, e: Call)
    requires Wired(c) && e.Rtcp?
    ensures var (c', ts) := Answer(c, freq, base, e);
            && Wired(c') && (Settled(c) ==> Settled(c')) && c'.offset == c.offset && c'.reference == Some(e.now)
            && ts == Mod32(c'.last + base + c'.offset)
  {
  }

  lemma {:induction false} RunIsWired(freq: u32, base: u32, calls: seq<Call>)
    ensures Wired(After(freq, base, calls))
  {
    if calls != [] {
      var before, e := calls[..|calls| - 1], calls[|calls| - 1];
      RunIsWired(freq, base, before);
      var c := After(freq, base, before);
      if e.Rtp? { RtpAnswer(c, freq, base, e); } else { RtcpAnswer(c, freq, base, e); }
    }
  }

  /** After an RTP call the offset is settled, and no later call changes it. */
  lemma {:induction false} OffsetIsFinal(freq: u32, base: u32, calls: seq<Call>, i: nat, n: nat)
    requires i < n <= |calls| && calls[i].Rtp?
    ensures Settled(After(freq, base, calls[..n]))
    ensures After(freq, base, calls[..n]).offset == After(freq, base, calls[..i + 1]).offset
    decreases n
  {
    var c, e := After(freq, base, calls[..n - 1]), calls[n - 1];
    assert calls[..n][..n - 1] == calls[..n - 1];
    RunIsWired(freq, base, calls[..n - 1]);
    if e.Rtp? { RtpAnswer(c, freq, base, e); } else { RtcpAnswer(c, freq, base, e); }
    if n > i + 1 { OffsetIsFinal(freq, base, calls, i, n - 1); }
  }

  lemma RtpFollowsOffset(freq: u32, base: u32, calls: seq<Call>, i: nat, j: nat)
    requires i <= j < |calls| && calls[i].Rtp? && calls[j].Rtp?
    ensures Stamp(freq, base, calls, j)
         == Mod32(MediaTicks(freq, calls[j].media) + base + After(freq, base, calls[..i + 1]).offset)
  {
    RunIsWired(freq, base, calls[..j]);
    RtpAnswer(After(freq, base, calls[..j]), freq, base, calls[j]);
    assert calls[..j + 1][..j] == calls[..j];
    OffsetIsFinal(freq, base, calls, i, j + 1);
  }

  /** A media time in ticks is rounded to nearest exactly if it is not negative and fits 32 bits. */
  lemma MediaTicksExactly(freq: u32, media: real)
    ensures var x := (freq as real) * media;
            -0.5 <= x - (MediaTicks(freq, media) as int) as real < 0.5 <==> 0.0 <= x + 0.5 < 4294967296.0
  {
    var x := (freq as real) * media + 0.5;
    var ticks, floor: int := MediaTicks(freq, media), x.Floor;
    assert (floor as real) <= x < (floor as real) + 1.0;
    assert ticks == floor <==> 0 <= floor < 0x1_0000_0000;
    assert 0 <= floor <==> 0.0 <= x;
    assert floor < 0x1_0000_0000 <==> x < 4294967296.0;
  }

  /** The NTP words of an RTCP call, read back, are the time of the call. */
  lemma RtcpNtpIsNow(freq: u32, base: u32, calls: seq<Call>, now: int)
    requires 0 <= now < 0x1_0000_0000 * 1000000
    ensures FromNtp(RtcpCall(After(freq, base, calls), freq, base, now).2) == now
  {
    hide After, FromNtp, ToNtp, Elapsed, MediaTicks;
    NtpRoundTrip(now);
  }

  // ------------------------------------------------------------------
  // The unsigned difference
  // ------------------------------------------------------------------

  /**
   * The cycles of 2^64 microseconds the cast loses are a whole number of timestamp cycles:
   * always for a difference that does not go back, else only for a multiple of 15625 Hz.
   */
  predicate Tolerated(freq: u32, us: int) {
    us / 0x1_0000_0000_0000_0000 * freq % 15625 == 0
  }

  lemma ToleratedIs(freq: u32, us: int)
    ensures 0 <= us < 0x1_0000_0000_0000_0000 ==> Tolerated(freq, us)
    ensures -0x1_0000_0000_0000_0000 <= us < 0 ==> (Tolerated(freq, us) <==> freq % 15625 == 0)
  {
    var k, f: int := us / 0x1_0000_0000_0000_0000, freq;
    assert 0 <= us < 0x1_0000_0000_0000_0000 ==> k * f == 0;
    assert -0x1_0000_0000_0000_0000 <= us < 0 ==> k == -1 && k * f == 0 - f;
  }

  lemma CutSeconds(freq: u32, s: int, rest: int)
    ensures Mod32(freq * Mod32(s) + rest) == Mod32(freq * s + rest)
  {
    var k := s / 0x1_0000_0000;
    var c: int := Mod32(s);
    assert s == 0x1_0000_0000 * k + c;
    assert freq * s == 0x1_0000_0000 * (freq * k) + freq * c;
    CycleLess(freq * c + rest, freq * k);
  }

  lemma CycleLess(a: int, k: int)
    ensures Mod32(0x1_0000_0000 * k + a) == Mod32(a)
  {
  }

  lemma ElapsedIs(freq: u32, us: int)
    ensures Elapsed(freq, us) == Mod32(NearestTick(us % 0x1_0000_0000_0000_0000, freq))
  {
    hide Mod32, NearestTick;
    var total := us % 0x1_0000_0000_0000_0000;
    TicksOfWhole(total, freq);
    CutSeconds(freq, Seconds(total), NearestTick(Microseconds(total), freq));
    ModAdd(0, freq * Seconds(total) + NearestTick(Microseconds(total), freq));
  }

  /** Two quotients add up, or miss by the carry. */
  lemma DivCarry(a: int, b: int)
    ensures (a + 128 * b) / 2000000 - a / 2000000 - b / 15625 == 0
         || (a + 128 * b) / 2000000 - a / 2000000 - b / 15625 == 1
    ensures b == 0 ==> (a + 128 * b) / 2000000 == a / 2000000
  {
    assert 128 * b / 2000000 == b / 15625;
  }

  /** The ticks of `k` cycles of 2^64 microseconds on top of `us`, in timestamp cycles and a rest. */
  lemma ShiftedTick(freq: u32, us: int, k: int)
    ensures var q, r := k * freq / 15625, k * freq % 15625;
            var rest := NearestTick(us + 0x1_0000_0000_0000_0000 * k, freq) - NearestTick(us, freq)
                      - 0x400_0000_0000_0000 * q;
            var c := 0x400_0000_0000_0000 * r / 15625;
            (rest == c || rest == c + 1) && (r == 0 ==> rest == 0)
  {
    var q, r := k * freq / 15625, k * freq % 15625;
    var a := 2 * us * freq + 1000000;
    assert k * freq == 15625 * q + r;
    assert 2 * (us + 0x1_0000_0000_0000_0000 * k) * freq + 1000000 == a + 0x2_0000_0000_0000_0000 * (k * freq);
    DivShift(a + 0x2_0000_0000_0000_0000 * r, 0x400_0000_0000_0000 * q, 2000000);
    DivCarry(a, 0x400_0000_0000_0000 * r);
  }

  /** 2^26 is invertible modulo 15625. */
  lemma NotDivisible(r: int)
    requires 0 < r < 15625
    ensures 0x400_0000 * r % 15625 != 0
  {
    var g := 0x400_0000 * r / 15625;
    assert 12659 * 0x400_0000 == 1 + 15625 * 54369991;
    assert 0x400_0000 * r == 15625 * g ==> r == 15625 * (12659 * g - 54369991 * r);
  }

  /** The rest is not near a multiple of the timestamp cycle. */
  lemma RestIsOff(r: int)
    requires 0 < r < 15625
    ensures 1 <= 0x400_0000_0000_0000 * r / 15625 % 0x1_0000_0000 < 0xFFFF_FFFF
  {
    NotDivisible(r);
    var g, h := 0x400_0000 * r / 15625, 0x400_0000 * r % 15625;
    assert 0x400_0000_0000_0000 * r == (0x1_0000_0000 * g) * 15625 + 0x1_0000_0000 * h;
    DivShift(0x1_0000_0000 * h, 0x1_0000_0000 * g, 15625);
    CycleAndFraction(g, h);
  }

  lemma CycleAndFraction(g: int, h: int)
    requires 0 < h < 15625
    ensures 1 <= (0x1_0000_0000 * g + 0x1_0000_0000 * h / 15625) % 0x1_0000_0000 < 0xFFFF_FFFF
  {
    FractionBounds(h);
    CycleRest(g, 0x1_0000_0000 * h / 15625);
  }

  lemma FractionBounds(h: int)
    requires 0 < h < 15625
    ensures 1 <= 0x1_0000_0000 * h / 15625 < 0xFFFF_FFFF
  {
    DivBounds(0x1_0000_0000 * h, 15625);
  }

  lemma CycleRest(g: int, f: int)
    requires 0 <= f < 0x1_0000_0000
    ensures (0x1_0000_0000 * g + f) % 0x1_0000_0000 == f
  {
  }

  lemma OffByRest(a: int, q: int, rest: int)
    ensures Mod32(a) == Mod32(a + 0x400_0000_0000_0000 * q + rest) <==> rest % 0x1_0000_0000 == 0
  {
  }

  lemma RestVanishes(r: int, rest: int)
    requires 0 <= r < 15625 && (r == 0 ==> rest == 0)
    requires var c := 0x400_0000_0000_0000 * r / 15625; rest == c || rest == c + 1
    ensures rest % 0x1_0000_0000 == 0 <==> r == 0
  {
    if r != 0 {
      RestIsOff(r);
      NextResidue(0x400_0000_0000_0000 * r / 15625);
    }
  }

  lemma NextResidue(c: int)
    requires 1 <= c % 0x1_0000_0000 < 0xFFFF_FFFF
    ensures (c + 1) % 0x1_0000_0000 != 0
  {
  }

  lemma WholeCycles(us: int)
    ensures us == us % 0x1_0000_0000_0000_0000 + 0x1_0000_0000_0000_0000 * (us / 0x1_0000_0000_0000_0000)
  {
  }

  /** The elapsed ticks are those of the true interval, rounded, exactly if the interval is tolerated. */
  lemma ElapsedExactly(freq: u32, us: int)
    ensures Elapsed(freq, us) == Mod32(NearestTick(us, freq)) <==> Tolerated(freq, us)
  {
    hide Elapsed, NearestTick, Mod32;
    var k, total := us / 0x1_0000_0000_0000_0000, us % 0x1_0000_0000_0000_0000;
    WholeCycles(us);
    ElapsedIs(freq, us);
    ShiftedTick(freq, total, k);
    var q, r := k * freq / 15625, k * freq % 15625;
    var rest := NearestTick(us, freq) - NearestTick(total, freq) - 0x400_0000_0000_0000 * q;
    OffByRest(NearestTick(total, freq), q, rest);
    RestVanishes(r, rest);
  }

  // ------------------------------------------------------------------
  // The offset of the RTP timestamps
  // ------------------------------------------------------------------

  /** `i` is the first RTP call of a run. */
  ghost predicate FirstRtp(calls: seq<Call>, i: nat) {
    i < |calls| && calls[i].Rtp? && forall k :: 0 <= k < i ==> calls[k].Rtcp?
  }

  /** Ticks from the first of `n` RTCP calls to the last, interval by interval. */
  function RtcpTicks(freq: u32, calls: seq<Call>, n: nat): u32
    requires n <= |calls|
  {
    if n <= 1 then 0
    else Mod32(RtcpTicks(freq, calls, n - 1) + Elapsed(freq, calls[n - 1].now - calls[n - 2].now))
  }

  lemma NoMediaTicks(freq: u32)
    ensures MediaTicks(freq, 0.0) == 0
  {
    assert (freq as real) * 0.0 == 0.0;
  }

  lemma AfterOneMore(freq: u32, base: u32, calls: seq<Call>, n: nat)
    requires n < |calls|
    ensures After(freq, base, calls[..n + 1]) == Answer(After(freq, base, calls[..n]), freq, base, calls[n]).0
  {
    hide Answer;
    assert calls[..n + 1][..n] == calls[..n];
  }

  lemma RtcpOnto(c: Clock, freq: u32, base: u32, now: int)
    ensures var c' := Answer(c, freq, base, Rtcp(now)).0;
            && (c.reference.None? ==> c' == Clock(Some(now), 0, c.offset, true))
            && (c.reference.Some? ==>
                  c' == c.(reference := Some(now), last := Mod32(c.last + Elapsed(freq, now - c.reference.value))))
  {
    NoMediaTicks(freq);
    hide Elapsed, MediaTicks, ToNtp, Mod32;
  }

  ghost predicate OnlyRtcp(c: Clock, freq: u32, calls: seq<Call>, n: nat)
    requires n <= |calls|
  {
    && c.offset == 0 && (n == 0 ==> c == FRESH)
    && (n > 0 ==> c.reference == Some(calls[n - 1].now) && c.offsetRtp && c.last == RtcpTicks(freq, calls, n))
  }

  lemma OnlyRtcpMore(c: Clock, freq: u32, base: u32, calls: seq<Call>, n: nat)
    requires n < |calls| && OnlyRtcp(c, freq, calls, n)
    ensures OnlyRtcp(Answer(c, freq, base, Rtcp(calls[n].now)).0, freq, calls, n + 1)
  {
    hide Answer, Elapsed, Mod32;
    RtcpOnto(c, freq, base, calls[n].now);
  }

  /** Before any RTP call there is no offset, and the last timestamp counts the RTCP intervals. */
  lemma {:induction false} BeforeRtp(freq: u32, base: u32, calls: seq<Call>, n: nat)
    requires n <= |calls| && forall k :: 0 <= k < n ==> calls[k].Rtcp?
    ensures OnlyRtcp(After(freq, base, calls[..n]), freq, calls, n)
  {
    if n > 0 {
      hide After, Answer, OnlyRtcp;
      BeforeRtp(freq, base, calls, n - 1);
      AfterOneMore(freq, base, calls, n - 1);
      OnlyRtcpMore(After(freq, base, calls[..n - 1]), freq, base, calls, n - 1);
      assert calls[n - 1] == Rtcp(calls[n - 1].now);
    }
  }

  /** The offset is 0 if RTP comes first, else the ticks since the last RTCP call. */
  lemma OffsetIs(freq: u32, base: u32, calls: seq<Call>, i: nat)
    requires FirstRtp(calls, i)
    ensures After(freq, base, calls[..i + 1]).offset
         == if i == 0 then 0 else Elapsed(freq, calls[i].now - calls[i - 1].now)
  {
    hide Elapsed, MediaTicks, After;
    BeforeRtp(freq, base, calls, i);
    AfterOneMore(freq, base, calls, i);
  }

  lemma SameStamp(a: int, b: u32, c: int)
    ensures Mod32(a + b) == Mod32(a + c) <==> b == Mod32(c)
  {
  }

  /**
   * However RTCP calls interleave, every RTP timestamp is base plus media ticks plus one
   * offset: the ticks from the last RTCP call before the first RTP call to that call, none if
   * RTP came first. They are the rounded interval if and only if it is tolerated.
   */
  lemma RtpFollowsMedia(freq: u32, base: u32, calls: seq<Call>, i: nat, j: nat)
    requires FirstRtp(calls, i) && i <= j < |calls| && calls[j].Rtp?
    ensures var media := MediaTicks(freq, calls[j].media);
            if i == 0 then Stamp(freq, base, calls, j) == Mod32(media + base)
            else
              var us := calls[i].now - calls[i - 1].now;
              && Stamp(freq, base, calls, j) == Mod32(media + base + Elapsed(freq, us))
              && (Stamp(freq, base, calls, j) == Mod32(media + base + NearestTick(us, freq)) <==> Tolerated(freq, us))
  {
    hide Elapsed, MediaTicks, Mod32, Stamp, NearestTick, Tolerated, After;
    RtpFollowsOffset(freq, base, calls, i, j);
    OffsetIs(freq, base, calls, i);
    if i > 0 {
      var us := calls[i].now - calls[i - 1].now;
      ElapsedExactly(freq, us);
      SameStamp(MediaTicks(freq, calls[j].media) + base, Elapsed(freq, us), NearestTick(us, freq));
    }
  }

  /** The RTCP timestamps before any RTP call. */
  lemma RtcpStampBefore(freq: u32, base: u32, calls: seq<Call>, k: nat)
    requires k < |calls| && forall m :: 0 <= m <= k ==> calls[m].Rtcp?
    ensures Stamp(freq, base, calls, k) == Mod32(RtcpTicks(freq, calls, k + 1) + base)
  {
    hide Elapsed, MediaTicks, RtcpTicks;
    BeforeRtp(freq, base, calls, k);
    BeforeRtp(freq, base, calls, k + 1);
    assert calls[..k + 1][..k] == calls[..k];
    RtcpAnswer(After(freq, base, calls[..k]), freq, base, calls[k]);
  }

  lemma SameTicks(a: u32, b: u32, base: int, more: int)
    ensures Mod32(a + base + more) == Mod32(Mod32(b + base) + more) <==> a == b
  {
  }

  /**
   * The first RTP timestamp continues the RTCP timestamps before it if and only if the media
   * time is, in ticks, what they have advanced since the first of them: the offset counts
   * only from the last.
   */
  lemma RtpContinuesExactly(freq: u32, base: u32, calls: seq<Call>, i: nat)
    requires FirstRtp(calls, i) && i > 0
    ensures Stamp(freq, base, calls, i)
         == Mod32(Stamp(freq, base, calls, i - 1) + Elapsed(freq, calls[i].now - calls[i - 1].now))
         <==> MediaTicks(freq, calls[i].media) == RtcpTicks(freq, calls, i)
  {
    hide Elapsed, MediaTicks, Mod32, Stamp, RtcpTicks;
    RtpFollowsMedia(freq, base, calls, i, i);
    RtcpStampBefore(freq, base, calls, i - 1);
    SameTicks(MediaTicks(freq, calls[i].media), RtcpTicks(freq, calls, i), base,
              Elapsed(freq, calls[i].now - calls[i - 1].now));
  }

  lemma OneSecond(freq: u32, us: int)
    requires freq == 90000 && us == 1000000
    ensures Elapsed(freq, us) == 90000
  {
    assert NearestTick(us, freq) == 90000;
    assert Mod32(90000) == 90000;
    hide *;
    ToleratedIs(freq, us);
    ElapsedExactly(freq, us);
  }

  /** With two RTCP calls a second apart, a stream that starts at media time 0 falls a second behind them. */
  lemma SecondRtcpCallIsLost(freq: u32, base: u32, calls: seq<Call>)
    requires freq == 90000 && calls == [Rtcp(0), Rtcp(1000000), Rtp(2000000, 0.0)]
    ensures Stamp(freq, base, calls, 2) != Mod32(Stamp(freq, base, calls, 1) + Elapsed(freq, 1000000))
  {
    hide Stamp, Elapsed, MediaTicks, After, Answer;
    OneSecond(freq, 1000000);
    NoMediaTicks(freq);
    assert RtcpTicks(freq, calls, 1) == 0;
    assert RtcpTicks(freq, calls, 2) == Mod32(0 + Elapsed(freq, 1000000));
    assert Mod32(90000) == 90000;
    hide RtcpTicks, Mod32;
    RtpContinuesExactly(freq, base, calls, 2);
  }

  // ------------------------------------------------------------------
  // Drift of the RTCP timestamps
  // ------------------------------------------------------------------

  /**
   * Since the reference was last set: when, at which timestamp, how many RTCP calls, how many
   * ticks their intervals are, and whether all of these were tolerated.
   */
  datatype Drift = Drift(origin: int, start: u32, calls: nat, ticks: int, sound: bool)

  predicate Resets(c: Clock, freq: u32, e: Call) {
    c.reference.None? || (e.Rtp? && MediaTicks(freq, e.media) != c.last)
  }

  function DriftAfter(d: Drift, c: Clock, freq: u32, base: u32, e: Call): Drift {
    if Resets(c, freq, e) then Drift(e.now, Answer(c, freq, base, e).0.last, 0, 0, true)
    else if e.Rtcp? then
      var us := e.now - c.reference.value;
      d.(calls := d.calls + 1, ticks := d.ticks + NearestTick(us, freq), sound := d.sound && Tolerated(freq, us))
    else d
  }

  function DriftOf(freq: u32, base: u32, calls: seq<Call>): Drift {
    if calls == [] then Drift(0, 0, 0, 0, true)
    else
      var before := calls[..|calls| - 1];
      DriftAfter(DriftOf(freq, base, before), After(freq, base, before), freq, base, calls[|calls| - 1])
  }

  /** `ticks` is within `calls / 2` ticks of the exact `freq * x / 10^6`; both sides times 2000000. */
  ghost predicate Within(freq: u32, x: int, ticks: int, calls: nat) {
    -1000000 * calls <= 2 * freq * x - 2000000 * ticks <= 1000000 * calls
  }

  /** The last timestamp is the one at the start and the ticks since. */
  predicate InStep(c: Clock, d: Drift) { c.last == Mod32(d.start + d.ticks) }

  ghost predicate Accounted(c: Clock, d: Drift, freq: u32) {
    c.reference.Some? ==>
      (d.sound ==> InStep(c, d)) && Within(freq, c.reference.value - d.origin, d.ticks, d.calls)
  }

  /** One more rounding adds at most half a tick of error. */
  lemma DriftStep(freq: u32, x: int, us: int, ticks: int, calls: nat)
    requires Within(freq, x, ticks, calls)
    ensures Within(freq, x + us, ticks + NearestTick(us, freq), calls + 1)
  {
    NearestTickBound(us, freq);
    assert 2 * freq * (x + us) == 2 * freq * x + 2 * us * freq;
  }

  lemma AdvanceIs(a: int, b: u32, c: int)
    ensures Mod32(Mod32(a) + b) == Mod32(a + c) <==> b == Mod32(c)
  {
  }

  /** An RTCP call keeps the last timestamp in step exactly if the interval since the last is tolerated. */
  lemma RtcpStaysInStepExactly(c: Clock, d: Drift, freq: u32, base: u32, now: int)
    requires c.reference.Some? && InStep(c, d)
    ensures InStep(Answer(c, freq, base, Rtcp(now)).0, DriftAfter(d, c, freq, base, Rtcp(now)))
            <==> Tolerated(freq, now - c.reference.value)
  {
    hide Mod32, NearestTick, ToNtp, Elapsed, Tolerated;
    var us := now - c.reference.value;
    ElapsedExactly(freq, us);
    AdvanceIs(d.start + d.ticks, Elapsed(freq, us), NearestTick(us, freq));
    assert d.start + d.ticks + NearestTick(us, freq) == d.start + (d.ticks + NearestTick(us, freq));
  }

  lemma RtcpIsAccounted(c: Clock, d: Drift, freq: u32, base: u32, now: int)
    requires c.reference.Some? && Wired(c) && Accounted(c, d, freq)
    ensures Accounted(Answer(c, freq, base, Rtcp(now)).0, DriftAfter(d, c, freq, base, Rtcp(now)), freq)
  {
    var us, x := now - c.reference.value, c.reference.value - d.origin;
    hide Elapsed, NearestTick, Tolerated;
    RtcpAnswer(c, freq, base, Rtcp(now));
    DriftStep(freq, x, us, d.ticks, d.calls);
    assert x + us == now - d.origin;
    hide Within, InStep;
    if d.sound {
      RtcpStaysInStepExactly(c, d, freq, base, now);
    }
  }

  /** Setting the reference starts a new account; an RTP call that does not set it changes none. */
  lemma ResetIsAccounted(c: Clock, d: Drift, freq: u32, base: u32, e: Call)
    requires Accounted(c, d, freq) && (e.Rtp? || c.reference.None?)
    ensures Accounted(Answer(c, freq, base, e).0, DriftAfter(d, c, freq, base, e), freq)
  {
    hide Elapsed, NearestTick, ToNtp;
    NoTicks(freq);
  }

  lemma NoTicks(freq: u32)
    ensures Within(freq, 0, 0, 0)
    ensures forall x: u32 :: Mod32(x) == x
  {
  }

  lemma {:induction false} RunIsAccounted(freq: u32, base: u32, calls: seq<Call>)
    ensures Accounted(After(freq, base, calls), DriftOf(freq, base, calls), freq)
  {
    if calls != [] {
      var before, e := calls[..|calls| - 1], calls[|calls| - 1];
      RunIsAccounted(freq, base, before);
      RunIsWired(freq, base, before);
      var c, d := After(freq, base, before), DriftOf(freq, base, before);
      if e.Rtp? || c.reference.None? {
        ResetIsAccounted(c, d, freq, base, e);
      } else {
        RtcpIsAccounted(c, d, freq, base, e.now);
      }
    }
  }

  /**
   * After k RTCP calls at tolerated intervals since the reference was last set, an RTCP
   * timestamp is the timestamp it was set at plus a tick count within k/2 ticks of the exact
   * time elapsed.
   */
  lemma RtcpDriftIsBounded(freq: u32, base: u32, calls: seq<Call>)
    requires calls != [] && calls[|calls| - 1].Rtcp?
    ensures var d, c := DriftOf(freq, base, calls), After(freq, base, calls);
            && (d.sound ==> Stamp(freq, base, calls, |calls| - 1) == Mod32(d.start + d.ticks + base + c.offset))
            && Within(freq, calls[|calls| - 1].now - d.origin, d.ticks, d.calls)
  {
    hide Mod32, Within, Answer, DriftAfter;
    var n := |calls| - 1;
    RunIsAccounted(freq, base, calls);
    RunIsWired(freq, base, calls[..n]);
    RtcpAnswer(After(freq, base, calls[..n]), freq, base, calls[n]);
    var d := DriftOf(freq, base, calls);
    ModAdd(base + After(freq, base, calls).offset, d.start + d.ticks);
  }

  lemma StampInStep(freq: u32, base: u32, calls: seq<Call>)
    requires calls != [] && calls[|calls| - 1].Rtcp?
    ensures var d, c := DriftOf(freq, base, calls), After(freq, base, calls);
            Stamp(freq, base, calls, |calls| - 1) == Mod32(d.start + d.ticks + base + c.offset) <==> InStep(c, d)
  {
    hide Mod32, Answer, DriftAfter, DriftOf;
    var n := |calls| - 1;
    RunIsWired(freq, base, calls[..n]);
    RtcpAnswer(After(freq, base, calls[..n]), freq, base, calls[n]);
    var d, c := DriftOf(freq, base, calls), After(freq, base, calls);
    assert Stamp(freq, base, calls, n) == Mod32(c.last + base + c.offset);
    hide After, Stamp;
    SameShift(c.last, d.start + d.ticks, base + c.offset);
  }

  lemma SameShift(last: u32, ticks: int, shift: int)
    ensures Mod32(last + shift) == Mod32(ticks + shift) <==> last == Mod32(ticks)
  {
  }

  lemma RtcpAfterReference(freq: u32, base: u32, calls: seq<Call>)
    requires calls != [] && calls[|calls| - 1].Rtcp? && DriftOf(freq, base, calls[..|calls| - 1]).sound
    requires After(freq, base, calls[..|calls| - 1]).reference.Some?
    ensures InStep(After(freq, base, calls), DriftOf(freq, base, calls)) <==> DriftOf(freq, base, calls).sound
  {
    var before, e := calls[..|calls| - 1], calls[|calls| - 1];
    RunIsAccounted(freq, base, before);
    hide InStep, Tolerated, Answer, Within, NearestTick;
    RtcpStaysInStepExactly(After(freq, base, before), DriftOf(freq, base, before), freq, base, e.now);
  }

  /**
   * As long as all intervals so far were tolerated, the next RTCP timestamp is the start plus
   * the ticks elapsed if and only if its own interval is.
   */
  lemma RtcpStampExactly(freq: u32, base: u32, calls: seq<Call>)
    requires calls != [] && calls[|calls| - 1].Rtcp? && DriftOf(freq, base, calls[..|calls| - 1]).sound
    ensures var d := DriftOf(freq, base, calls);
            Stamp(freq, base, calls, |calls| - 1) == Mod32(d.start + d.ticks + base + After(freq, base, calls).offset)
            <==> d.sound
  {
    StampInStep(freq, base, calls);
    if After(freq, base, calls[..|calls| - 1]).reference.Some? {
      RtcpAfterReference(freq, base, calls);
    } else {
      assert DriftOf(freq, base, calls).sound;
      RunIsAccounted(freq, base, calls);
    }
    hide Mod32, InStep, Within, After, DriftOf, Stamp;
  }

  /** Readings that never go back, nor span 2^64 microseconds. */
  ghost predicate Monotone(calls: seq<Call>) {
    forall i, j :: 0 <= i <= j < |calls| ==> 0 <= calls[j].now - calls[i].now < 0x1_0000_0000_0000_0000
  }

  lemma {:induction false} ReferenceIsAReading(freq: u32, base: u32, calls: seq<Call>)
    requires After(freq, base, calls).reference.Some?
    ensures exists i :: 0 <= i < |calls| && calls[i].now == After(freq, base, calls).reference.value
  {
    var n := |calls| - 1;
    var c := After(freq, base, calls[..n]);
    hide Elapsed, ToNtp, MediaTicks, Mod32;
    if After(freq, base, calls).reference == Some(calls[n].now) {
    } else {
      ReferenceIsAReading(freq, base, calls[..n]);
      var i :| 0 <= i < n && calls[..n][i].now == c.reference.value;
      assert calls[i].now == c.reference.value;
    }
  }

  /** With such readings the account is always sound, so that the bound holds. */
  lemma {:induction false} MonotoneIsSound(freq: u32, base: u32, calls: seq<Call>)
    requires Monotone(calls)
    ensures DriftOf(freq, base, calls).sound
  {
    if calls != [] {
      var n := |calls| - 1;
      var before, e := calls[..n], calls[n];
      assert Monotone(before);
      MonotoneIsSound(freq, base, before);
      var c := After(freq, base, before);
      hide After, NearestTick, Tolerated;
      if c.reference.Some? {
        ReferenceIsAReading(freq, base, before);
        var i :| 0 <= i < n && before[i].now == c.reference.value;
        assert calls[i].now == c.reference.value;
        ToleratedIs(freq, e.now - c.reference.value);
      }
    }
  }

  lemma FirstCalls(freq: u32, base: u32, t: int, u: int)
    ensures DriftOf(freq, base, [Rtp(t, 0.0)]).sound
    ensures DriftOf(freq, base, [Rtp(t, 0.0), Rtcp(u)]).sound == Tolerated(freq, u - t)
  {
    hide Tolerated, NearestTick, Elapsed, ToNtp;
    assert [Rtp(t, 0.0)][..0] == [];
    assert [Rtp(t, 0.0), Rtcp(u)][..1] == [Rtp(t, 0.0)];
  }

  /** A clock set back by a microsecond: at 90 kHz the RTCP timestamp leaves the bound. */
  lemma SetBackBreaksStep(base: u32)
    ensures var calls := [Rtp(1000000, 0.0), Rtcp(999999)];
            var d := DriftOf(90000, base, calls);
            Stamp(90000, base, calls, 1) != Mod32(d.start + d.ticks + base + After(90000, base, calls).offset)
  {
    var calls := [Rtp(1000000, 0.0), Rtcp(999999)];
    ToleratedIs(90000, -1);
    hide DriftOf, After, Stamp, Mod32, Tolerated;
    assert calls[..1] == [Rtp(1000000, 0.0)];
    FirstCalls(90000, base, 1000000, 999999);
    RtcpStampExactly(90000, base, calls);
  }
}
