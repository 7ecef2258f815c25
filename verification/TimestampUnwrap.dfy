/**
 * Playout times of `RtpJitterBuffer`: RTP timestamps are unwrapped with a wrap counter and
 * converted to milliseconds after the first packet. Times are microseconds.
 */
module TimestampUnwrap {
  import opened Words
  import opened Arithmetic

  /** `first` is the playout time of the first packet. */
  datatype Unwrap = Unwrap(first: Option<int>, firstTs: u32, previousTs: u32, wraps: u32)

  const FRESH: Unwrap := Unwrap(None, 0, 0, 0)

  predicate HasWrappedAround(ts1: u32, ts2: u32) {
    ts2 < ts1 && ts1 - ts2 > 0xFFFF_FFFF / 2
  }

  /** Ticks since the first packet, as the 32-bit arithmetic of the source computes them. */
  function ElapsedTicks(wraps: u32, firstTs: u32, ts: u32): u32 {
    var total := if ts < firstTs then Mod32(wraps - 1) else wraps;
    Mod32(Mod32(total * 0xFFFF_FFFF) + Mod32(ts - firstTs))
  }

  /** Milliseconds of a tick count, rounded to nearest. */
  function Milliseconds(ticks: int, freq: u32): int
    requires freq > 0
  {
    (2000 * ticks + freq) / (2 * freq)
  }

  function NextWraps(u: Unwrap, ts: u32): u32 {
    if HasWrappedAround(u.previousTs, ts) then Inc32(u.wraps) else u.wraps
  }

  function Playout(u: Unwrap, latencyMs: u32, freq: u32, arrival: int, ts: u32): (Unwrap, int)
    requires freq > 0
  {
    match u.first
    case None =>
      var t := arrival + 1000 * latencyMs;
      (Unwrap(Some(t), ts, ts, u.wraps), t)
    case Some(t) =>
      var wraps := NextWraps(u, ts);
      (u.(previousTs := ts, wraps := wraps),
       t + 1000 * Mod32(Milliseconds(ElapsedTicks(wraps, u.firstTs, ts), freq)))
  }

  class RtpJitterBuffer {
    const latencyMs: u32
    const freq: u32
    var first: Option<int>
    var firstTs: u32
    var previousTs: u32
    var wraps: u32

    ghost function View(): Unwrap
      reads this
    {
      Unwrap(first, firstTs, previousTs, wraps)
    }

    constructor (latencyMs: u32, freq: u32)
      ensures this.latencyMs == latencyMs && this.freq == freq && View() == FRESH
    {
      this.latencyMs, this.freq := latencyMs, freq;
      first, firstTs, previousTs, wraps := None, 0, 0, 0;
    }

    method CalculatePlayoutTime(arrival: int, ts: u32) returns (t: int)
      requires freq > 0
      modifies this
      ensures (View(), t) == Playout(old(View()), latencyMs, freq, arrival, ts)
    {
      if first.None? {
        t := arrival + 1000 * latencyMs;
        first, firstTs, previousTs := Some(t), ts, ts;
      } else {
        if HasWrappedAround(previousTs, ts) {
          wraps := Inc32(wraps);
        }
        var total: int := wraps;
        if ts < firstTs {
          total := Mod32(total - 1);
        }
        var elapsed := Mod32(Mod32(total * 0xFFFF_FFFF) + Mod32(ts - firstTs));
        t := first.value + 1000 * Mod32(Milliseconds(elapsed, freq));
        previousTs := ts;
      }
    }
  }

  // ------------------------------------------------------------------
  // Streams of true timestamps
  // ------------------------------------------------------------------

  /** The state after a stream of true timestamps and the playout time of its last packet. */
  function Feed(stamps: seq<int>, latencyMs: u32, freq: u32, arrival: int): (Unwrap, int)
    requires stamps != [] && freq > 0
  {
    var u := if |stamps| == 1 then FRESH else Feed(stamps[..|stamps| - 1], latencyMs, freq, arrival).0;
    Playout(u, latencyMs, freq, arrival, Mod32(stamps[|stamps| - 1]))
  }

  /** Timestamps do not go back and advance by less than 2^31 ticks. */
  ghost predicate Steady(stamps: seq<int>) {
    forall i :: 0 < i < |stamps| ==> stamps[i - 1] <= stamps[i] < stamps[i - 1] + 0x8000_0000
  }

  function Cycle(x: int): int { x / 0x1_0000_0000 }

  /** A wrap is seen exactly on entering the next cycle, also if packets are out of order by less than 2^31 ticks. */
  lemma WrapSeen(x: int, y: int)
    requires x - 0x8000_0000 < y < x + 0x8000_0000
    ensures HasWrappedAround(Mod32(x), Mod32(y)) <==> Cycle(y) == Cycle(x) + 1
    ensures x <= y ==> Cycle(y) == Cycle(x) || Cycle(y) == Cycle(x) + 1
  {
  }

  ghost predicate Follows(u: Unwrap, first: int, x: int, t: int) {
    u == Unwrap(Some(t), Mod32(first), Mod32(x), Mod32(Cycle(x) - Cycle(first)))
  }

  lemma NextWrapsIs(u: Unwrap, first: int, x: int, y: int, t: int)
    requires Follows(u, first, x, t) && x <= y < x + 0x8000_0000
    ensures NextWraps(u, Mod32(y)) == Mod32(Cycle(y) - Cycle(first))
  {
    WrapSeen(x, y);
    IncIs(Cycle(x) - Cycle(first));
  }

  lemma {:induction false} FeedFollows(stamps: seq<int>, latencyMs: u32, freq: u32, arrival: int)
    requires stamps != [] && freq > 0 && Steady(stamps)
    ensures Follows(Feed(stamps, latencyMs, freq, arrival).0, stamps[0], stamps[|stamps| - 1],
                    arrival + 1000 * latencyMs)
  {
    var n := |stamps| - 1;
    if n > 0 {
      FeedFollows(stamps[..n], latencyMs, freq, arrival);
      NextWrapsIs(Feed(stamps[..n], latencyMs, freq, arrival).0, stamps[0], stamps[n - 1], stamps[n],
                  arrival + 1000 * latencyMs);
    }
  }

  lemma IncIs(x: int)
    ensures Inc32(Mod32(x)) == Mod32(x + 1)
  {
  }

  /** Full timestamp cycles between two true timestamps. */
  lemma FullCycles(first: int, x: int)
    ensures Cycle(x - first) == Cycle(x) - Cycle(first) - if Mod32(x) < Mod32(first) then 1 else 0
  {
  }

  lemma Product(c: int, d: int)
    ensures Mod32(Mod32(Mod32(c) * 0xFFFF_FFFF) + Mod32(d)) == Mod32(d - c)
  {
    var k: int := Mod32(c);
    assert k * 0xFFFF_FFFF == k * 0x1_0000_0000 - k;
    assert Mod32(k * 0xFFFF_FFFF) == Mod32(-k);
  }

  lemma ModSub(a: int, b: int)
    ensures Mod32(Mod32(a) - b) == Mod32(a - b) && Mod32(Mod32(a) - Mod32(b)) == Mod32(a - b)
  {
  }

  /** The counter without the cycle that is not complete yet. */
  lemma FullCyclesCounted(first: int, x: int)
    ensures var wraps := Mod32(Cycle(x) - Cycle(first));
            (if Mod32(x) < Mod32(first) then Mod32(wraps - 1) else wraps) == Mod32(Cycle(x - first))
  {
    FullCycles(first, x);
    ModSub(Cycle(x) - Cycle(first), 1);
  }

  /** What the counter computes: each full cycle since the first packet loses a cycle and a tick. */
  lemma ElapsedIs(first: int, x: int)
    ensures ElapsedTicks(Mod32(Cycle(x) - Cycle(first)), Mod32(first), Mod32(x)) == Mod32(x - first - Cycle(x - first))
  {
    FullCyclesCounted(first, x);
    ModSub(x, first);
    Product(Cycle(x - first), x - first);
  }

  /** The unwrapped distance is exact if and only if it is less than one full cycle. */
  lemma UnwrapExactly(first: int, x: int)
    requires first <= x
    ensures ElapsedTicks(Mod32(Cycle(x) - Cycle(first)), Mod32(first), Mod32(x)) == x - first
       <==> x - first < 0x1_0000_0000
  {
    ElapsedIs(first, x);
  }

  /** The milliseconds are within half a millisecond of the exact time, and grow with the ticks. */
  lemma MillisecondsNearest(ticks: int, freq: u32)
    requires freq > 0
    ensures 0 <= 2000 * ticks + freq - 2 * freq * Milliseconds(ticks, freq) <= 2 * freq
  {
    DivBounds(2000 * ticks + freq, 2 * freq);
    var ms := Milliseconds(ticks, freq);
    assert ms * (2 * freq) == 2 * freq * ms;
  }

  lemma MillisecondsGrow(x: int, y: int, freq: u32)
    requires freq > 0 && x <= y
    ensures Milliseconds(x, freq) <= Milliseconds(y, freq)
  {
    DivMono(2000 * x + freq, 2000 * y + freq, 2 * freq);
  }

  lemma MillisecondsDiffer(x: int, y: int, freq: u32)
    requires freq > 0 && x + 0x1_0000_0000 <= y
    ensures Milliseconds(x, freq) < Milliseconds(y, freq)
  {
    DivMono(2000 * (x + 0x1_0000_0000) + freq, 2000 * y + freq, 2 * freq);
    DivMono(2000 * x + freq + 2 * freq, 2000 * (x + 0x1_0000_0000) + freq, 2 * freq);
    DivShift(2000 * x + freq, 1, 2 * freq);
  }

  lemma MillisecondsNatural(ticks: nat, freq: u32)
    requires freq > 0
    ensures Milliseconds(ticks, freq) >= 0
  {
    DivIs(freq, 2 * freq, 0);
    MillisecondsGrow(0, ticks, freq);
  }

  /**
   * The milliseconds of a span fit 32 bits, and the span is below one timestamp cycle; a
   * span of one cycle is counted a tick short, which rounding may hide.
   */
  predicate SpanFits(span: int, freq: u32)
    requires freq > 0
  {
    && Milliseconds(span, freq) < 0x1_0000_0000
    && (span < 0x1_0000_0000 ||
        (span == 0x1_0000_0000 && Milliseconds(span - 1, freq) == Milliseconds(span, freq)))
  }

  lemma SpanFitsBelow(x: nat, y: nat, freq: u32)
    requires freq > 0 && x <= y && SpanFits(y, freq)
    ensures SpanFits(x, freq)
  {
    MillisecondsGrow(x, y, freq);
  }

  /** The ticks computed for a span, next to the span. */
  lemma TicksComputed(span: nat)
    ensures var ticks := Mod32(span - Cycle(span));
            && (span < 0x1_0000_0000 ==> ticks == span)
            && (span == 0x1_0000_0000 ==> ticks == span - 1)
            && (span > 0x1_0000_0000 ==> ticks + 0x1_0000_0000 <= span)
  {
  }

  /** The milliseconds computed for a span are those of the span exactly if it fits. */
  lemma MillisecondsExactly(span: nat, freq: u32)
    requires freq > 0
    ensures Mod32(Milliseconds(Mod32(span - Cycle(span)), freq)) == Milliseconds(span, freq) <==> SpanFits(span, freq)
  {
    var ticks := Mod32(span - Cycle(span));
    TicksComputed(span);
    MillisecondsNatural(ticks, freq);
    MillisecondsGrow(ticks, span, freq);
    if span > 0x1_0000_0000 {
      MillisecondsDiffer(ticks, span, freq);
    }
    CutIsLess(Milliseconds(ticks, freq), Milliseconds(span, freq));
    hide Milliseconds, Mod32, Cycle;
  }

  lemma CutIsLess(a: nat, b: nat)
    requires a <= b
    ensures Mod32(a) == b <==> a == b < 0x1_0000_0000
  {
  }

  /** One packet after the first, played out relative to the first. */
  lemma NextPlayout(u: Unwrap, first: int, x: int, y: int, t: int, latencyMs: u32, freq: u32, arrival: int)
    requires Follows(u, first, x, t) && first <= x <= y < x + 0x8000_0000 && freq > 0
    ensures Playout(u, latencyMs, freq, arrival, Mod32(y)).1
         == t + 1000 * Mod32(Milliseconds(Mod32(y - first - Cycle(y - first)), freq))
  {
    hide Milliseconds, Mod32, Cycle, ElapsedTicks, NextWraps;
    NextWrapsIs(u, first, x, y, t);
    ElapsedIs(first, y);
  }

  lemma FirstPlayout(x: int, latencyMs: u32, freq: u32, arrival: int)
    requires freq > 0
    ensures Feed([x], latencyMs, freq, arrival).1 == arrival + 1000 * latencyMs
    ensures Mod32(Milliseconds(Mod32(0 - Cycle(0)), freq)) == 0
  {
    DivIs(freq, 2 * freq, 0);
  }

  lemma LaterPlayout(stamps: seq<int>, latencyMs: u32, freq: u32, arrival: int)
    requires |stamps| > 1 && freq > 0 && Steady(stamps)
    ensures var span := stamps[|stamps| - 1] - stamps[0];
            Feed(stamps, latencyMs, freq, arrival).1
            == arrival + 1000 * latencyMs + 1000 * Mod32(Milliseconds(Mod32(span - Cycle(span)), freq))
  {
    hide Milliseconds, Mod32, Cycle, Playout;
    var n := |stamps| - 1;
    var u := Feed(stamps[..n], latencyMs, freq, arrival).0;
    assert Feed(stamps, latencyMs, freq, arrival) == Playout(u, latencyMs, freq, arrival, Mod32(stamps[n]));
    hide Feed;
    FeedFollows(stamps[..n], latencyMs, freq, arrival);
    SteadyAscends(stamps, 0, n - 1);
    NextPlayout(u, stamps[0], stamps[n - 1], stamps[n], arrival + 1000 * latencyMs, latencyMs, freq, arrival);
  }

  lemma StreamPlayout(stamps: seq<int>, latencyMs: u32, freq: u32, arrival: int)
    requires stamps != [] && freq > 0 && Steady(stamps)
    ensures var span := stamps[|stamps| - 1] - stamps[0];
            Feed(stamps, latencyMs, freq, arrival).1
            == arrival + 1000 * latencyMs + 1000 * Mod32(Milliseconds(Mod32(span - Cycle(span)), freq))
  {
    hide Feed, Milliseconds, Mod32, Cycle;
    if |stamps| == 1 {
      assert stamps == [stamps[0]];
      FirstPlayout(stamps[0], latencyMs, freq, arrival);
    } else {
      LaterPlayout(stamps, latencyMs, freq, arrival);
    }
  }

  /**
   * Over any steady stream at any clock rate, from any start and across the 32-bit wrap, the
   * playout time is that of the first packet plus the true elapsed time, rounded to
   * milliseconds, if and only if the span fits.
   */
  lemma PlayoutExactly(stamps: seq<int>, latencyMs: u32, freq: u32, arrival: int)
    requires stamps != [] && freq > 0 && Steady(stamps)
    ensures var span := stamps[|stamps| - 1] - stamps[0];
            Feed(stamps, latencyMs, freq, arrival).1 == arrival + 1000 * latencyMs + 1000 * Milliseconds(span, freq)
            <==> SpanFits(span, freq)
  {
    SteadyAscends(stamps, 0, |stamps| - 1);
    StreamPlayout(stamps, latencyMs, freq, arrival);
    MillisecondsExactly(stamps[|stamps| - 1] - stamps[0], freq);
    hide Milliseconds, Mod32, Cycle, Feed, SpanFits;
  }

  lemma SteadyAscends(stamps: seq<int>, i: nat, j: nat)
    requires Steady(stamps) && i <= j < |stamps|
    ensures stamps[i] <= stamps[j]
  {
    if i < j { SteadyAscends(stamps, i, j - 1); }
  }

  lemma PrefixIsFaithful(stamps: seq<int>, latencyMs: u32, freq: u32, arrival: int, i: nat)
    requires freq > 0 && Steady(stamps) && i < |stamps| && SpanFits(stamps[|stamps| - 1] - stamps[0], freq)
    ensures Feed(stamps[..i + 1], latencyMs, freq, arrival).1
         == arrival + 1000 * latencyMs + 1000 * Milliseconds(stamps[i] - stamps[0], freq)
  {
    hide Milliseconds, Feed, SpanFits;
    SteadyAscends(stamps, 0, i);
    SteadyAscends(stamps, i, |stamps| - 1);
    SpanFitsBelow(stamps[i] - stamps[0], stamps[|stamps| - 1] - stamps[0], freq);
    PlayoutExactly(stamps[..i + 1], latencyMs, freq, arrival);
  }

  /** Playout times of a steady stream never decrease while its span fits. */
  lemma PlayoutNeverDecreases(stamps: seq<int>, latencyMs: u32, freq: u32, arrival: int, i: nat, j: nat)
    requires freq > 0 && Steady(stamps) && i <= j < |stamps| && SpanFits(stamps[|stamps| - 1] - stamps[0], freq)
    ensures Feed(stamps[..i + 1], latencyMs, freq, arrival).1 <= Feed(stamps[..j + 1], latencyMs, freq, arrival).1
  {
    SteadyAscends(stamps, i, j);
    PrefixIsFaithful(stamps, latencyMs, freq, arrival, i);
    PrefixIsFaithful(stamps, latencyMs, freq, arrival, j);
    MillisecondsGrow(stamps[i] - stamps[0], stamps[j] - stamps[0], freq);
    hide Milliseconds, Feed, SpanFits;
  }

  /** From 1000 Hz on the milliseconds of every span below one cycle fit; at 500 Hz those of 2^31 ticks do not. */
  lemma SpanFitsFrom1000(span: nat, freq: u32)
    requires freq > 0 && span < 0x1_0000_0000
    ensures freq >= 1000 ==> SpanFits(span, freq)
    ensures !SpanFits(0x8000_0000, 500)
  {
    if freq >= 1000 {
      MulMono(2000, 2 * freq, span);
      DivMono(2000 * span + freq, span * (2 * freq) + freq, 2 * freq);
      DivShift(freq, span, 2 * freq);
      DivIs(freq, 2 * freq, 0);
    }
  }

  /** Over any steady stream the tick count of the last packet is exact if and only if the span is below one cycle. */
  lemma StreamUnwrapExactly(stamps: seq<int>, latencyMs: u32, freq: u32, arrival: int)
    requires stamps != [] && freq > 0 && Steady(stamps)
    ensures var u := Feed(stamps, latencyMs, freq, arrival).0;
            var d := stamps[|stamps| - 1] - stamps[0];
            ElapsedTicks(u.wraps, u.firstTs, u.previousTs) == d <==> d < 0x1_0000_0000
  {
    FeedFollows(stamps, latencyMs, freq, arrival);
    SteadyAscends(stamps, 0, |stamps| - 1);
    UnwrapExactly(stamps[0], stamps[|stamps| - 1]);
  }
}
