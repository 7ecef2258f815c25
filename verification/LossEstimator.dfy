/**
 * `LossEstimator`: a window of received 16-bit sequence numbers and the set of numbers
 * still expected, after the algorithm of section A.1 of RFC 3550.
 */
module LossEstimation {
  import opened Words

  const MAX_DROPOUT: int := 3000
  const MAX_MISORDER: int := 100

  function Wrap16(x: int): u16 { x % 0x1_0000 }

  /** `window` is the deque of recent numbers, `badSn` the number that would confirm a restart. */
  datatype Estimator = Estimator(window: seq<u16>, expected: set<u16>, maxSeq: u16, badSn: u32)

  function Init(e: Estimator, sn: u16): Estimator {
    Estimator(e.window + [sn], e.expected + {Wrap16(sn + 1)}, sn, 0xFFFF_FFFF)
  }

  /** The deque after one more number; the oldest goes when it holds exactly MAX_DROPOUT of them. */
  function Slide<T>(window: seq<T>, x: T): seq<T> {
    (if |window| == MAX_DROPOUT then window[1..] else window) + [x]
  }

  /** Numbers skipped between the maximum and a number `delta` ahead of it. */
  function Skipped(window: seq<u16>, maxSeq: u16, delta: nat): set<u16> {
    if delta <= 1 then {}
    else
      var sn := Wrap16(maxSeq + delta - 1);
      Skipped(window, maxSeq, delta - 1) + (if sn in window then {} else {sn})
  }

  function AddSn(e: Estimator, sn: u16): Estimator {
    if e.window == [] then Init(e, sn)
    else
      var w := Slide(e.window, sn);
      var delta := Wrap16(sn - e.maxSeq);
      if delta < MAX_DROPOUT then
        var next := Wrap16(sn + 1);
        var ahead := if next in w then {} else {next};
        Estimator(w, (e.expected + Skipped(w, e.maxSeq, delta) - {sn}) + ahead, sn, e.badSn)
      else if delta <= TWO16 - MAX_MISORDER then
        if sn == e.badSn then Init(e.(window := w), sn) else e.(window := w, badSn := Wrap16(sn + 1))
      else
        e.(window := w, expected := e.expected - {sn})
  }

  function MaxUnsigned(s: seq<u16>): (m: u16)
    requires s != []
    ensures m in s && forall x :: x in s ==> x <= m
  {
    if |s| == 1 then s[0]
    else
      var m := MaxUnsigned(s[1..]);
      assert s == [s[0]] + s[1..];
      if s[0] > m then s[0] else m
  }

  function MinUnsigned(s: seq<u16>): (m: u16)
    requires s != []
    ensures m in s && forall x :: x in s ==> m <= x
  {
    if |s| == 1 then s[0]
    else
      var m := MinUnsigned(s[1..]);
      assert s == [s[0]] + s[1..];
      if s[0] < m then s[0] else m
  }

  /** The largest number of the window when read as `int16_t`. */
  function MaxSigned(s: seq<u16>): (m: u16)
    requires s != []
    ensures m in s && forall x :: x in s ==> Signed16(x) <= Signed16(m)
  {
    if |s| == 1 then s[0]
    else
      var m := MaxSigned(s[1..]);
      assert s == [s[0]] + s[1..];
      if Signed16(s[0]) > Signed16(m) then s[0] else m
  }

  /** The window holds numbers from both ends of the unsigned range. */
  predicate BothEnds(window: seq<u16>)
    requires window != []
  {
    MaxUnsigned(window) - MinUnsigned(window) > 0xFFFF / 2
  }

  /** The expected numbers taken for lost. */
  function Lost(e: Estimator): set<u16> {
    if e.window == [] then {}
    else if BothEnds(e.window) then
      set x | x in e.expected && Signed16(x) < Signed16(MaxSigned(e.window))
    else
      set x | x in e.expected && (x < MaxUnsigned(e.window) || x - MaxUnsigned(e.window) > 0xFFFF / 2)
  }

  /** The assertion the source wonders about fails. */
  predicate AssertionFails(e: Estimator) {
    && e.window != [] && !BothEnds(e.window)
    && exists x :: x in e.expected && x - MaxUnsigned(e.window) > 0xFFFF / 2
  }

  /** The lost numbers, once each: in the order of `int16_t` when the window has both ends, else ascending. */
  ghost predicate InReportOrder(e: Estimator, lost: seq<u16>) {
    && (forall x :: x in lost <==> x in Lost(e))
    && forall i, j :: 0 <= i < j < |lost| ==>
         if e.window != [] && BothEnds(e.window) then Signed16(lost[i]) < Signed16(lost[j]) else lost[i] < lost[j]
  }

  function Report(e: Estimator): Estimator {
    e.(expected := e.expected - Lost(e))
  }

  class LossEstimator {
    var window: seq<u16>
    var expected: set<u16>
    var maxSeq: u16
    var badSn: u32

    ghost function View(): Estimator
      reads this
    {
      Estimator(window, expected, maxSeq, badSn)
    }

    constructor ()
      ensures window == [] && expected == {}
    {
      window, expected := [], {};
    }

    method InitWith(sn: u16)
      modifies this
      ensures View() == Init(old(View()), sn)
    {
      window, expected, maxSeq, badSn := window + [sn], expected + {Wrap16(sn + 1)}, sn, 0xFFFF_FFFF;
    }

    method AddSequenceNumber(sn: u16)
      modifies this
      ensures View() == AddSn(old(View()), sn)
    {
      if window == [] {
        InitWith(sn);
        return;
      }
      if |window| == MAX_DROPOUT {
        window := window[1..];
      }
      window := window + [sn];
      var delta := Wrap16(sn - maxSeq);
      if delta < MAX_DROPOUT {
        FillGap(delta);
        expected := expected - {sn};
        var next := Wrap16(sn + 1);
        if next !in window {
          expected := expected + {next};
        }
        maxSeq := sn;
      } else if delta <= TWO16 - MAX_MISORDER {
        if sn == badSn {
          InitWith(sn);
        } else {
          badSn := Wrap16(sn + 1);
        }
      } else {
        expected := expected - {sn};
      }
    }

    method FillGap(delta: nat)
      modifies this`expected
      ensures expected == old(expected) + Skipped(window, maxSeq, delta)
    {
      var i := 1;
      while i < delta
        invariant 1 <= i && (i <= delta || i == 1)
        invariant expected == old(expected) + Skipped(window, maxSeq, i)
      {
        var missing := Wrap16(maxSeq + i);
        if missing !in window {
          expected := expected + {missing};
        }
        i := i + 1;
      }
    }

    method GetEstimatedLostSequenceNumbers() returns (lost: seq<u16>, failed: bool)
      modifies this`expected
      ensures InReportOrder(old(View()), lost) && View() == Report(old(View()))
      ensures failed == AssertionFails(old(View()))
    {
      lost, failed := CopyLostSequenceNumbers();
      expected := expected - set x | x in lost;
    }

    /** `failed` says that the assertion in the unsigned branch does not hold. */
    method CopyLostSequenceNumbers() returns (lost: seq<u16>, failed: bool)
      ensures InReportOrder(View(), lost) && failed == AssertionFails(View())
    {
      lost, failed := [], false;
      if window != [] {
        var max := MaxUnsigned(window);
        if max - MinUnsigned(window) > 0xFFFF / 2 {
          lost := BelowSigned(Signed16(MaxSigned(window)));
        } else {
          lost, failed := BelowUnsigned(max);
        }
      }
    }

    /** The expected numbers below `iMax`, visited in the order of `int16_t`. */
    method BelowSigned(iMax: int) returns (lost: seq<u16>)
      ensures forall x :: x in lost <==> x in expected && Signed16(x) < iMax
      ensures forall i, j :: 0 <= i < j < |lost| ==> Signed16(lost[i]) < Signed16(lost[j])
    {
      lost := [];
      for v := -TWO15 to TWO15
        invariant forall x :: x in lost <==> x in expected && Signed16(x) < iMax && Signed16(x) < v
        invariant forall i :: 0 <= i < |lost| ==> Signed16(lost[i]) < v
        invariant forall i, j :: 0 <= i < j < |lost| ==> Signed16(lost[i]) < Signed16(lost[j])
      {
        var x: u16 := if v < 0 then v + TWO16 else v;
        if x in expected && v < iMax {
          lost := lost + [x];
        }
      }
    }

    /** The expected numbers below `max` or far above it, visited in ascending order. */
    method BelowUnsigned(max: u16) returns (lost: seq<u16>, failed: bool)
      ensures forall x :: x in lost <==> x in expected && (x < max || x - max > 0xFFFF / 2)
      ensures forall i, j :: 0 <= i < j < |lost| ==> lost[i] < lost[j]
      ensures failed <==> exists x :: x in expected && x - max > 0xFFFF / 2
    {
      lost, failed := [], false;
      for v := 0 to TWO16
        invariant forall x :: x in lost <==> x in expected && (x < max || x - max > 0xFFFF / 2) && x < v
        invariant forall i :: 0 <= i < |lost| ==> lost[i] < v
        invariant forall i, j :: 0 <= i < j < |lost| ==> lost[i] < lost[j]
        invariant failed <==> exists x :: x in expected && x - max > 0xFFFF / 2 && x < v
      {
        if v in expected {
          if v < max {
            lost := lost + [v];
          } else if v - max > 0xFFFF / 2 {
            failed := true;
            lost := lost + [v];
          }
        }
      }
    }
  }

  // ------------------------------------------------------------------
  // True sequence numbers
  // ------------------------------------------------------------------

  /**
   * What a sender's unwrapped numbers say: everything received and everything reported so far,
   * and the numbers that restarts of the sender have jumped over.
   */
  datatype Track = Track(first: int, max: int, received: set<int>, reported: set<int>, void: set<int>, recent: seq<int>)

  /** Missing between the first number and the maximum, and not reported yet. */
  function Gone(t: Track): set<int> {
    set y | t.first < y < t.max && y !in t.received && y !in t.reported && y !in t.void
  }

  predicate Inside(a: int, y: int, b: int) { a < y < b }

  function Between(a: int, b: int): set<int> { set y | a < y < b && Inside(a, y, b) }

  function Image(s: set<int>): set<u16> {
    set y | y in s :: Wrap16(y)
  }

  function Arrived(t: Track, x: int): Track {
    t.(max := if x > t.max then x else t.max, received := t.received + {x}, recent := Slide(t.recent, x))
  }

  function Asked(t: Track): Track {
    t.(reported := t.reported + Gone(t))
  }

  /**
   * The sender restarts at `x`: `x` and `x + 1` arrive in turn. Whatever was pending stays so,
   * the number after the old maximum included; the numbers jumped over belong to no stream.
   */
  function Restarted(t: Track, e: Estimator, x: int): Track {
    t.(max := x + 1, received := t.received + {x, x + 1},
       void := t.void + (Between(t.max, x) - (if Wrap16(t.max + 1) in e.expected then {t.max + 1} else {})),
       recent := Slide(Slide(t.recent, x), x + 1) + [x + 1])
  }

  /** Half the number space below the next expected number. */
  predicate Close(max: int, y: int) { max - 32766 <= y <= max + 1 }

  ghost predicate Tight(t: Track) {
    && (forall y :: y in t.recent ==> Close(t.max, y))
    && (forall y :: y in Gone(t) ==> Close(t.max, y))
  }

  ghost predicate WellFormed(t: Track) {
    && t.recent != [] && t.max in t.received && t.first <= t.max
    && (forall y :: y in t.recent ==> y in t.received)
    && (forall y :: y in t.received ==> y <= t.max)
    && (forall y :: y in t.reported ==> t.first < y < t.max)
    && (forall y :: y in t.void ==> t.first < y < t.max)
  }

  ghost predicate SameWindow(recent: seq<int>, window: seq<u16>) {
    |window| == |recent| && forall i :: 0 <= i < |window| ==> window[i] == Wrap16(recent[i])
  }

  ghost predicate Tracks(t: Track, e: Estimator) {
    && WellFormed(t) && Tight(t)
    && SameWindow(t.recent, e.window)
    && e.maxSeq == Wrap16(t.max) && e.badSn == 0xFFFF_FFFF
    && Image(Gone(t)) <= e.expected <= Image(Gone(t) + {t.max + 1})
    && (Wrap16(t.max) != 0xFFFF ==> Wrap16(t.max + 1) in e.expected)
  }

  /** Less than 3000 ahead or 100 behind, and nothing pending falls half the space behind. */
  ghost predicate Orderly(t: Track, x: int) {
    t.max - 100 < x < t.max + 3000 && Tight(Arrived(t, x))
  }

  lemma CloseIsInjective(max: int, y: int, z: int)
    requires Close(max, y) && Close(max, z) && Wrap16(y) == Wrap16(z)
    ensures y == z
  {
  }

  lemma ImageUnion(a: set<int>, b: set<int>)
    ensures Image(a + b) == Image(a) + Image(b)
  {
  }

  lemma ImageRemove(a: set<int>, x: int, max: int)
    requires Close(max, x) && forall y :: y in a ==> Close(max, y)
    ensures Image(a) - {Wrap16(x)} == Image(a - {x})
  {
    forall y | y in a && Wrap16(y) == Wrap16(x) ensures y == x {
      CloseIsInjective(max, y, x);
    }
  }

  lemma WindowMember(t: Track, e: Estimator, y: int)
    requires SameWindow(t.recent, e.window)
    requires y in t.recent
    ensures Wrap16(y) in e.window
  {
    var i :| 0 <= i < |t.recent| && t.recent[i] == y;
    assert e.window[i] == Wrap16(y);
  }

  /** A number that was not received lately is not in the window either. */
  lemma NotInWindow(t: Track, e: Estimator, y: int)
    requires SameWindow(t.recent, e.window)
    requires (forall z :: z in t.recent ==> Close(t.max, z)) && Close(t.max, y) && y !in t.recent
    ensures Wrap16(y) !in e.window
  {
    forall i | 0 <= i < |e.window| ensures e.window[i] != Wrap16(y) {
      assert t.recent[i] in t.recent;
      if e.window[i] == Wrap16(y) {
        CloseIsInjective(t.max, t.recent[i], y);
        assert false;
      }
    }
  }

  lemma WrapShift(x: int, d: int)
    ensures Wrap16(Wrap16(x) + d) == Wrap16(x + d)
  {
  }

  /** Numbers that are not in the window are all taken as skipped. */
  lemma {:induction false} SkippedIsNew(window: seq<u16>, max: int, delta: nat)
    requires forall y :: Inside(max, y, max + delta) ==> Wrap16(y) !in window
    ensures Skipped(window, Wrap16(max), delta) == Image(Between(max, max + delta))
  {
    hide Wrap16;
    if delta > 1 {
      var y := max + delta - 1;
      forall z | Inside(max, z, y) ensures Wrap16(z) !in window { assert Inside(max, z, max + delta); }
      SkippedIsNew(window, max, delta - 1);
      assert Inside(max, y, max + delta);
      assert Between(max, max + delta) == Between(max, y) + {y};
      ImageUnion(Between(max, y), {y});
      assert Image({y}) == {Wrap16(y)};
      WrapShift(max, delta - 1);
    } else {
      assert Between(max, max + delta) == {};
    }
  }

  lemma SlideTracks(t: Track, e: Estimator, x: int)
    requires SameWindow(t.recent, e.window)
    ensures var w, r := Slide(e.window, Wrap16(x)), Slide(t.recent, x);
            SameWindow(r, w)
  {
  }

  lemma ArrivedIsWellFormed(t: Track, x: int)
    requires WellFormed(t)
    ensures WellFormed(Arrived(t, x))
  {
  }

  lemma GoneAhead(t: Track, x: int)
    requires WellFormed(t) && x > t.max
    ensures Gone(Arrived(t, x)) == Gone(t) + Between(t.max, x)
  {
  }

  lemma DeltaAhead(x: int, max: int)
    requires 0 <= x - max < 0x1_0000
    ensures Wrap16(Wrap16(x) - Wrap16(max)) == x - max
  {
  }

  lemma DeltaBehind(x: int, max: int)
    requires 0 < max - x < 0x1_0000
    ensures Wrap16(Wrap16(x) - Wrap16(max)) == x - max + 0x1_0000
  {
  }

  /** Nothing between the maximum and the number after `x`, other than `x`, is in the window. */
  lemma AheadIsNew(t: Track, e: Estimator, x: int, y: int)
    requires Tracks(t, e) && Orderly(t, x) && t.max < y <= x + 1 && y != x && x >= t.max
    ensures Wrap16(y) !in Slide(e.window, Wrap16(x))
  {
    var t' := Arrived(t, x);
    SlideTracks(t, e, x);
    ArrivedIsWellFormed(t, x);
    forall z | z in t'.recent ensures z <= t.max || z == x {
      assert z in t.recent || z == x;
    }
    NotInWindow(t', e.(window := Slide(e.window, Wrap16(x))), y);
  }

  lemma AddAhead(e: Estimator, sn: u16, delta: nat)
    requires e.window != [] && Wrap16(sn - e.maxSeq) == delta < MAX_DROPOUT
    requires Wrap16(sn + 1) !in Slide(e.window, sn)
    ensures AddSn(e, sn) == Estimator(Slide(e.window, sn),
              (e.expected + Skipped(Slide(e.window, sn), e.maxSeq, delta) - {sn}) + {Wrap16(sn + 1)}, sn, e.badSn)
  {
  }

  lemma AheadSkipped(t: Track, e: Estimator, x: int)
    requires Tracks(t, e) && Orderly(t, x) && x >= t.max
    ensures Skipped(Slide(e.window, Wrap16(x)), e.maxSeq, x - t.max) == Image(Between(t.max, x))
  {
    hide Wrap16, Image, Slide, Skipped, Gone, Tight;
    var delta := x - t.max;
    forall y | Inside(t.max, y, t.max + delta) ensures Wrap16(y) !in Slide(e.window, Wrap16(x)) {
      AheadIsNew(t, e, x, y);
    }
    SkippedIsNew(Slide(e.window, Wrap16(x)), t.max, delta);
  }

  /** The concrete step for a number at or ahead of the maximum. */
  lemma AheadStep(e: Estimator, x: int, max: int)
    requires e.window != [] && e.maxSeq == Wrap16(max) && 0 <= x - max < MAX_DROPOUT
    requires Wrap16(x + 1) !in Slide(e.window, Wrap16(x))
    requires Skipped(Slide(e.window, Wrap16(x)), e.maxSeq, x - max) == Image(Between(max, x))
    ensures AddSn(e, Wrap16(x)).expected == (e.expected + Image(Between(max, x)) - {Wrap16(x)}) + {Wrap16(x + 1)}
    ensures AddSn(e, Wrap16(x)).maxSeq == Wrap16(x) && AddSn(e, Wrap16(x)).window == Slide(e.window, Wrap16(x))
    ensures AddSn(e, Wrap16(x)).badSn == e.badSn
  {
    DeltaAhead(x, max);
    WrapShift(x, 1);
    AddAhead(e, Wrap16(x), x - max);
  }

  /** What the step does to the numbers that are pending, with or without the successor of the maximum. */
  lemma AheadPending(t: Track, x: int, pending: set<int>)
    requires WellFormed(t) && Tight(t) && Orderly(t, x) && x >= t.max
    requires pending == Gone(t) || pending == Gone(t) + {t.max + 1}
    ensures (Image(pending) + Image(Between(t.max, x)) - {Wrap16(x)}) + {Wrap16(x + 1)}
         == Image(Gone(Arrived(t, x)) + {x + 1})
  {
    var t' := Arrived(t, x);
    var all := pending + Between(t.max, x);
    ImageUnion(pending, Between(t.max, x));
    PendingIsClose(t, x);
    ImageRemove(all, x, x);
    assert Image({x + 1}) == {Wrap16(x + 1)};
    ImageUnion(all - {x}, {x + 1});
    if x > t.max { GoneAhead(t, x); }
    assert all - {x} + {x + 1} == Gone(t') + {x + 1};
  }

  lemma PendingIsClose(t: Track, x: int)
    requires WellFormed(t) && Tight(t) && Orderly(t, x) && x >= t.max
    ensures forall y :: y in Gone(t) + {t.max + 1} + Between(t.max, x) ==> Close(x, y)
  {
    if x > t.max { GoneAhead(t, x); }
  }

  /** The concrete step for a number behind the maximum. */
  lemma BehindStep(e: Estimator, x: int, max: int)
    requires e.window != [] && e.maxSeq == Wrap16(max) && 0 < max - x < MAX_MISORDER
    ensures AddSn(e, Wrap16(x)) == e.(window := Slide(e.window, Wrap16(x)), expected := e.expected - {Wrap16(x)})
  {
    DeltaBehind(x, max);
  }

  lemma BehindPending(t: Track, x: int, more: set<int>)
    requires WellFormed(t) && Tight(t) && Orderly(t, x) && x < t.max && more <= {t.max + 1}
    ensures Image(Gone(t) + more) - {Wrap16(x)} == Image(Gone(Arrived(t, x)) + more)
  {
    var pending := Gone(t) + more;
    ImageRemove(pending, x, t.max);
    assert pending - {x} == Gone(Arrived(t, x)) + more;
  }

  lemma AheadTracks(t: Track, e: Estimator, x: int)
    requires Tracks(t, e) && Orderly(t, x) && x >= t.max
    ensures AddSn(e, Wrap16(x)).expected == Image(Gone(Arrived(t, x)) + {x + 1})
    ensures AddSn(e, Wrap16(x)).maxSeq == Wrap16(x) && AddSn(e, Wrap16(x)).window == Slide(e.window, Wrap16(x))
    ensures AddSn(e, Wrap16(x)).badSn == e.badSn
  {
    hide Wrap16, Image, Gone, Slide, AddSn, Between;
    AheadIsNew(t, e, x, x + 1);
    AheadSkipped(t, e, x);
    AheadStep(e, x, t.max);
    AheadPending(t, x, Gone(t));
    AheadPending(t, x, Gone(t) + {t.max + 1});
  }

  lemma BehindIsNotNext(max: int, x: int)
    requires 0 < max - x < MAX_MISORDER
    ensures Wrap16(x) != Wrap16(max + 1)
  {
  }

  lemma BehindTracks(t: Track, e: Estimator, x: int)
    requires Tracks(t, e) && Orderly(t, x) && x < t.max
    ensures var t', e' := Arrived(t, x), AddSn(e, Wrap16(x));
            && Image(Gone(t')) <= e'.expected <= Image(Gone(t') + {t'.max + 1})
            && (Wrap16(t'.max) != 0xFFFF ==> Wrap16(t'.max + 1) in e'.expected)
            && e'.maxSeq == Wrap16(t'.max) && e'.window == Slide(e.window, Wrap16(x)) && e'.badSn == e.badSn
  {
    hide Wrap16, Image, Gone, Slide, AddSn, Tight;
    BehindStep(e, x, t.max);
    BehindIsNotNext(t.max, x);
    BehindPending(t, x, {});
    BehindPending(t, x, {t.max + 1});
    assert Gone(t) + {} == Gone(t) && Gone(Arrived(t, x)) + {} == Gone(Arrived(t, x));
  }

  lemma ImageMonotone(a: set<int>, x: int)
    ensures Image(a) <= Image(a + {x}) && Wrap16(x) in Image(a + {x})
  {
  }

  /** Every orderly arrival keeps the estimator in step with the true numbers. */
  lemma AddTracks(t: Track, e: Estimator, x: int)
    requires Tracks(t, e) && Orderly(t, x)
    ensures Tracks(Arrived(t, x), AddSn(e, Wrap16(x)))
  {
    hide Wrap16, Image, Gone, Slide, AddSn;
    ArrivedIsWellFormed(t, x);
    SlideTracks(t, e, x);
    if x >= t.max {
      AheadTracks(t, e, x);
      ImageMonotone(Gone(Arrived(t, x)), x + 1);
    } else {
      BehindTracks(t, e, x);
    }
  }

  // ------------------------------------------------------------------
  // Restarts
  // ------------------------------------------------------------------

  /** Too far ahead or behind for either branch that follows the stream. */
  predicate Jumps(e: Estimator, sn: u16) {
    e.window != [] && 3000 <= Wrap16(sn - e.maxSeq) <= 65436
  }

  /** One stray jump changes only the window and the number that would confirm it. */
  lemma StrayJump(e: Estimator, sn: u16)
    requires Jumps(e, sn) && sn != e.badSn
    ensures var e' := AddSn(e, sn);
            e'.maxSeq == e.maxSeq && e'.expected == e.expected && e'.badSn == Wrap16(sn + 1)
            && e'.window == Slide(e.window, sn)
  {
  }

  /** The number that confirms a jump becomes the maximum, and everything pending stays so. */
  lemma Confirmed(e: Estimator, sn: u16)
    requires Jumps(e, sn) && sn == e.badSn
    ensures var e' := AddSn(e, sn);
            e'.maxSeq == sn && e'.expected == e.expected + {Wrap16(sn + 1)} && e'.badSn == 0xFFFF_FFFF
            && e'.window == Slide(e.window, sn) + [sn]
  {
  }

  /**
   * Two numbers in turn, both out of range, make the second the maximum. Its successor is then
   * expected, except where the first already confirmed an earlier jump and the successor is
   * in the window from before.
   */
  lemma RestartExactly(e: Estimator, x: u16)
    requires Jumps(e, x) && Jumps(e, Wrap16(x + 1))
    ensures var e' := AddSn(AddSn(e, x), Wrap16(x + 1));
            && e'.maxSeq == Wrap16(x + 1)
            && (e.badSn != x ==> e'.expected == e.expected + {Wrap16(x + 2)})
            && (Wrap16(x + 2) in e'.expected <==>
                  || e.badSn != x || Wrap16(x + 2) in e.expected
                  || Wrap16(x + 2) !in Slide(Slide(e.window, x) + [x], Wrap16(x + 1)))
  {
    var next := Wrap16(x + 1);
    WrapShift(x + 1, 1);
    if e.badSn != x {
      StrayJump(e, x);
      assert Jumps(AddSn(e, x), next);
      Confirmed(AddSn(e, x), next);
    } else {
      Confirmed(e, x);
      InTurn(AddSn(e, x), next);
    }
    hide AddSn;
  }

  lemma InTurn(e: Estimator, sn: u16)
    requires e.window != [] && sn == Wrap16(e.maxSeq + 1)
    ensures var e', next := AddSn(e, sn), Wrap16(sn + 1);
            && e'.maxSeq == sn && e'.window == Slide(e.window, sn)
            && e'.expected == (e.expected - {sn}) + if next in Slide(e.window, sn) then {} else {next}
  {
    assert Wrap16(sn - e.maxSeq) == 1;
    assert Skipped(Slide(e.window, sn), e.maxSeq, 1) == {};
  }

  /** Both numbers of a restart are out of range, and nothing pending or in the window falls half the space behind. */
  ghost predicate Restarts(t: Track, e: Estimator, x: int) {
    && 3000 <= x - t.max && x + 1 - t.max <= 65436
    && Tight(Restarted(t, e, x))
  }

  lemma RestartStep(e: Estimator, x: int, max: int)
    requires e.window != [] && e.maxSeq == Wrap16(max) && e.badSn == 0xFFFF_FFFF
    requires 3000 <= x - max && x + 1 - max <= 65436
    ensures var e' := AddSn(AddSn(e, Wrap16(x)), Wrap16(x + 1));
            && e'.maxSeq == Wrap16(x + 1) && e'.badSn == 0xFFFF_FFFF
            && e'.expected == e.expected + {Wrap16(x + 2)}
            && e'.window == Slide(Slide(e.window, Wrap16(x)), Wrap16(x + 1)) + [Wrap16(x + 1)]
  {
    DeltaAhead(x, max);
    DeltaAhead(x + 1, max);
    WrapShift(x, 1);
    WrapShift(x + 1, 1);
    hide Wrap16;
    StrayJump(e, Wrap16(x));
    Confirmed(AddSn(e, Wrap16(x)), Wrap16(x + 1));
    hide AddSn;
  }

  lemma RestartGone(t: Track, e: Estimator, x: int)
    requires WellFormed(t) && x > t.max + 1
    ensures Gone(Restarted(t, e, x)) == Gone(t) + if Wrap16(t.max + 1) in e.expected then {t.max + 1} else {}
  {
    hide Wrap16;
  }

  lemma RestartIsWellFormed(t: Track, e: Estimator, x: int)
    requires WellFormed(t) && x > t.max + 1
    ensures WellFormed(Restarted(t, e, x))
  {
    hide Wrap16;
  }

  lemma RestartImage(t: Track, e: Estimator, x: int)
    requires WellFormed(t) && x > t.max + 1
    ensures var t', n := Restarted(t, e, x), Wrap16(t.max + 1);
            && Image(Gone(t')) == Image(Gone(t)) + (if n in e.expected then {n} else {})
            && Image(Gone(t') + {x + 2}) == Image(Gone(t')) + {Wrap16(x + 2)}
  {
    RestartGone(t, e, x);
    hide Wrap16, Gone, WellFormed, Restarted;
    ImageUnion(Gone(t), {t.max + 1});
    ImageUnion(Gone(Restarted(t, e, x)), {x + 2});
    assert Image({x + 2}) == {Wrap16(x + 2)} && Image({t.max + 1}) == {Wrap16(t.max + 1)};
    assert Gone(t) + {} == Gone(t);
  }

  lemma RestartExpected(t: Track, e: Estimator, x: int)
    requires Tracks(t, e) && x > t.max + 1
    ensures var t' := Restarted(t, e, x);
            var expected := e.expected + {Wrap16(x + 2)};
            Image(Gone(t')) <= expected <= Image(Gone(t') + {x + 2}) && Wrap16(x + 2) in expected
  {
    hide Wrap16, Gone, Tight, Image, WellFormed, Restarted;
    ExpectedIs(t, e);
    RestartImage(t, e, x);
  }

  /** A restart keeps the estimator in step: what was pending before it, and what the new stream misses. */
  lemma RestartTracks(t: Track, e: Estimator, x: int)
    requires Tracks(t, e) && Restarts(t, e, x)
    ensures Tracks(Restarted(t, e, x), AddSn(AddSn(e, Wrap16(x)), Wrap16(x + 1)))
  {
    hide Wrap16, Image, Gone, Slide, AddSn, Between;
    RestartStep(e, x, t.max);
    RestartIsWellFormed(t, e, x);
    RestartExpected(t, e, x);
    SlideTracks(t, e, x);
    var r, w := Slide(t.recent, x), Slide(e.window, Wrap16(x));
    SlideTracks(t.(recent := r), e.(window := w), x + 1);
    hide Tight, WellFormed;
  }

  // ------------------------------------------------------------------
  // Reports
  // ------------------------------------------------------------------

  /** The 16-bit value of a number, by whether it lies in the cycle of the maximum or the one before. */
  lemma WrapValue(max: int, y: int)
    requires Close(max, y) && y <= max
    ensures Wrap16(y) == if y >= max - Wrap16(max) then Wrap16(max) - (max - y) else Wrap16(max) - (max - y) + 0x1_0000
  {
  }

  lemma Origin(t: Track, e: Estimator, v: u16) returns (y: int)
    requires Tracks(t, e) && v in e.window
    ensures y in t.recent && Wrap16(y) == v && Close(t.max, y) && y <= t.max
  {
    var i :| 0 <= i < |e.window| && e.window[i] == v;
    y := t.recent[i];
    assert y in t.recent;
    assert y in t.received;
  }

  ghost predicate OldCycle(t: Track, y: int) { y < t.max - Wrap16(t.max) }

  lemma TwoCycles(t: Track, e: Estimator, y: int)
    requires Tracks(t, e) && t.max in t.recent && y in t.recent && OldCycle(t, y)
    ensures BothEnds(e.window) && MaxSigned(e.window) == Wrap16(t.max) && Wrap16(t.max) < 32766
  {
    WindowMember(t, e, t.max);
    WindowMember(t, e, y);
    assert y in t.received;
    WrapValue(t.max, y);
    var z := Origin(t, e, MaxSigned(e.window));
    WrapValue(t.max, z);
  }

  lemma OneCycle(t: Track, e: Estimator)
    requires Tracks(t, e) && t.max in t.recent && forall y :: y in t.recent ==> !OldCycle(t, y)
    ensures !BothEnds(e.window) && MaxUnsigned(e.window) == Wrap16(t.max)
  {
    WindowMember(t, e, t.max);
    var hi := Origin(t, e, MaxUnsigned(e.window));
    var lo := Origin(t, e, MinUnsigned(e.window));
    WrapValue(t.max, hi);
    WrapValue(t.max, lo);
  }

  /** One pending number, judged as the source judges it. */
  ghost predicate Judged(e: Estimator, x: u16)
    requires e.window != []
  {
    if BothEnds(e.window) then Signed16(x) < Signed16(MaxSigned(e.window))
    else x < MaxUnsigned(e.window) || x - MaxUnsigned(e.window) > 0xFFFF / 2
  }

  lemma GoneIsJudgedLost(t: Track, e: Estimator, y: int)
    requires Tracks(t, e) && t.max in t.recent && y in Gone(t)
    ensures Judged(e, Wrap16(y))
  {
    WrapValue(t.max, y);
    hide Wrap16, BothEnds, MaxSigned, MaxUnsigned;
    if z :| z in t.recent && OldCycle(t, z) {
      TwoCycles(t, e, z);
    } else {
      OneCycle(t, e);
    }
  }

  lemma NextIsJudged(t: Track, e: Estimator)
    requires Tracks(t, e) && t.max in t.recent
    ensures Judged(e, Wrap16(t.max + 1)) <==> Wrap16(t.max) == 0xFFFF
  {
    hide Wrap16, Gone, Image, Tight, BothEnds, MaxSigned, MaxUnsigned;
    NextWraps(t.max);
    if z :| z in t.recent && OldCycle(t, z) {
      TwoCycles(t, e, z);
    } else {
      OneCycle(t, e);
    }
  }

  lemma LostIsJudged(e: Estimator, x: u16)
    requires e.window != []
    ensures x in Lost(e) <==> x in e.expected && Judged(e, x)
  {
  }

  lemma GoneIsLost(t: Track, e: Estimator)
    requires Tracks(t, e) && t.max in t.recent
    ensures Image(Gone(t)) <= Lost(e)
  {
    ImageUnion(Gone(t), {t.max + 1});
    forall y | y in Gone(t) ensures Wrap16(y) in Lost(e) {
      assert Wrap16(y) in Image(Gone(t));
      GoneIsJudgedLost(t, e, y);
      LostIsJudged(e, Wrap16(y));
    }
  }

  /** A report at the top of a cycle takes the number after it, 0, for lost unless an earlier one did. */
  predicate AtTop(t: Track, e: Estimator) {
    Wrap16(t.max) == 0xFFFF && 0 in e.expected
  }

  /** While the maximum is in the window a report names exactly the missing numbers, and 0 at the top. */
  lemma ReportIs(t: Track, e: Estimator)
    requires Tracks(t, e) && t.max in t.recent
    ensures Lost(e) == Image(Gone(t)) + (if AtTop(t, e) then {0} else {})
  {
    var next := Wrap16(t.max + 1);
    NextWraps(t.max);
    hide Wrap16, Judged;
    GoneIsLost(t, e);
    NextIsJudged(t, e);
    LostIsJudged(e, next);
    ExpectedIs(t, e);
    LostIsExpected(e);
  }

  lemma NextWraps(max: int)
    ensures Wrap16(max + 1) == if Wrap16(max) == 0xFFFF then 0 else Wrap16(max) + 1
  {
  }

  lemma ExpectedIs(t: Track, e: Estimator)
    requires Tracks(t, e)
    ensures e.expected <= Image(Gone(t)) + {Wrap16(t.max + 1)}
  {
    ImageUnion(Gone(t), {t.max + 1});
    assert Image({t.max + 1}) == {Wrap16(t.max + 1)};
  }

  lemma LostIsExpected(e: Estimator)
    ensures Lost(e) <= e.expected
  {
  }

  lemma NextIsNotGone(t: Track)
    requires Tight(t)
    ensures Wrap16(t.max + 1) !in Image(Gone(t))
  {
    forall y | y in Gone(t) ensures Wrap16(y) != Wrap16(t.max + 1) {
      assert Close(t.max, y);
    }
  }

  /** A report is exact if and only if it is not made at the top with the successor still expected. */
  lemma ReportExactly(t: Track, e: Estimator)
    requires Tracks(t, e) && t.max in t.recent
    ensures Lost(e) == Image(Gone(t)) <==> !AtTop(t, e)
  {
    ReportIs(t, e);
    NextIsNotGone(t);
    NextWraps(t.max);
    hide Lost, Image, Gone, Wrap16;
  }

  /** The value of an expected number counts as far above the maximum only if it is from the old cycle. */
  lemma FarAbove(t: Track, y: int)
    requires Tight(t) && y in Gone(t) + {t.max + 1}
    ensures Wrap16(y) - Wrap16(t.max) > 0xFFFF / 2 <==> y in Gone(t) && OldCycle(t, y)
  {
    if y in Gone(t) { WrapValue(t.max, y); }
  }

  /** Every number in the window is from the cycle of the maximum. */
  ghost predicate NewWindow(t: Track) {
    forall y :: y in t.recent ==> !OldCycle(t, y)
  }

  ghost predicate OldPending(t: Track) {
    exists y :: y in Gone(t) && OldCycle(t, y)
  }

  lemma FarAboveExpected(t: Track, e: Estimator)
    requires Tracks(t, e)
    ensures (exists x :: x in e.expected && x - Wrap16(t.max) > 0xFFFF / 2) <==> OldPending(t)
  {
    if y :| y in Gone(t) && OldCycle(t, y) {
      FarAbove(t, y);
      assert Wrap16(y) in Image(Gone(t));
    } else {
      forall x | x in e.expected ensures x - Wrap16(t.max) <= 0xFFFF / 2 {
        var y :| y in Gone(t) + {t.max + 1} && Wrap16(y) == x;
        FarAbove(t, y);
      }
    }
  }

  /**
   * The assertion in the report fails exactly when a number of the previous cycle is still
   * pending and every number of that cycle has left the window.
   */
  lemma AssertionFailsExactly(t: Track, e: Estimator)
    requires Tracks(t, e) && t.max in t.recent
    ensures AssertionFails(e) <==> NewWindow(t) && OldPending(t)
  {
    if z :| z in t.recent && OldCycle(t, z) {
      TwoCycles(t, e, z);
    } else {
      OneCycle(t, e);
      FarAboveExpected(t, e);
    }
  }

  lemma ReportExpected(t: Track, e: Estimator)
    requires Tracks(t, e) && t.max in t.recent
    ensures Report(e).expected <= {Wrap16(t.max + 1)}
    ensures Wrap16(t.max) != 0xFFFF ==> Wrap16(t.max + 1) in Report(e).expected
  {
    hide Lost, Wrap16, Image, Gone, Tight;
    ReportIs(t, e);
    ExpectedIs(t, e);
    NextIsNotGone(t);
  }

  /** A report keeps the estimator in step, wherever the maximum stands. */
  lemma ReportTracks(t: Track, e: Estimator)
    requires Tracks(t, e) && t.max in t.recent
    ensures Tracks(Asked(t), Report(e))
    ensures Gone(Asked(t)) == {}
  {
    assert Gone(Asked(t)) == {};
    assert {} + {t.max + 1} == {t.max + 1};
    assert Image({t.max + 1}) == {Wrap16(t.max + 1)};
    ReportExpected(t, e);
    hide Lost, Wrap16;
  }

  // ------------------------------------------------------------------
  // Whole runs
  // ------------------------------------------------------------------

  /** `Restart(x)` is the arrival of `x` and `x + 1` after a jump. */
  datatype Event = Arrive(x: int) | Restart(x: int) | Ask

  /** One answer: the numbers reported, those truly missing, and whether the assertion failed on the way. */
  datatype Answer = Answer(reported: set<u16>, missing: set<int>, failed: bool)

  /** The estimator, the true numbers, and the answers given so far. */
  datatype Session = Session(track: Track, estimator: Estimator, answers: seq<Answer>)

  function Start(first: int): Session {
    Session(Track(first, first, {first}, {}, {}, [first]), AddSn(Estimator([], {}, 0, 0), Wrap16(first)), [])
  }

  function AnswerTo(s: Session): Answer {
    Answer(Lost(s.estimator), Gone(s.track), AssertionFails(s.estimator))
  }

  function Step(s: Session, e: Event): Session {
    match e
    case Arrive(x) => s.(track := Arrived(s.track, x), estimator := AddSn(s.estimator, Wrap16(x)))
    case Restart(x) => s.(track := Restarted(s.track, s.estimator, x),
                          estimator := AddSn(AddSn(s.estimator, Wrap16(x)), Wrap16(x + 1)))
    case Ask => Session(Asked(s.track), Report(s.estimator), s.answers + [AnswerTo(s)])
  }

  function Run(first: int, events: seq<Event>): Session {
    if events == [] then Start(first) else Step(Run(first, events[..|events| - 1]), events[|events| - 1])
  }

  ghost predicate Fitting(s: Session, e: Event) {
    match e
    case Arrive(x) => Orderly(s.track, x)
    case Restart(x) => Restarts(s.track, s.estimator, x)
    case Ask => s.track.max in s.track.recent
  }

  /** Arrivals are orderly or restart the stream; reports are asked for while the maximum is in the window. */
  ghost predicate Proper(first: int, events: seq<Event>) {
    events == [] ||
    (var before := events[..|events| - 1];
     Proper(first, before) && Fitting(Run(first, before), events[|events| - 1]))
  }

  ghost predicate InAnswer(answers: seq<Answer>, y: int) {
    exists i :: 0 <= i < |answers| && y in answers[i].missing
  }

  /** Each report holds the numbers missing then and at most 0 besides, and no number is missing in two. */
  ghost predicate AnswersMatch(s: Session) {
    && (forall a :: a in s.answers ==> Image(a.missing) <= a.reported <= Image(a.missing) + {0})
    && (forall a :: a in s.answers ==> a.missing <= s.track.reported)
    && (forall i, j :: 0 <= i < j < |s.answers| ==> s.answers[i].missing !! s.answers[j].missing)
    && (forall y :: y in s.track.reported ==> InAnswer(s.answers, y))
  }

  lemma StartTracks(first: int)
    ensures Tracks(Start(first).track, Start(first).estimator) && AnswersMatch(Start(first))
  {
    var t := Start(first).track;
    assert Gone(t) == {};
    assert {} + {first + 1} == {first + 1};
    WrapShift(first, 1);
    assert Image({first + 1}) == {Wrap16(first + 1)};
    assert {} + {Wrap16(first + 1)} == {Wrap16(first + 1)};
  }

  /** A stream that starts at 65535 has 0 reported as lost before anything can be missing. */
  lemma FirstOf65535ReportsZero()
    ensures Lost(Start(0xFFFF).estimator) == {0} && Gone(Start(0xFFFF).track) == {}
  {
    StartTracks(0xFFFF);
    ReportIs(Start(0xFFFF).track, Start(0xFFFF).estimator);
    assert Gone(Start(0xFFFF).track) == {};
  }

  lemma AskMatches(s: Session)
    requires Tracks(s.track, s.estimator) && AnswersMatch(s) && s.track.max in s.track.recent
    ensures AnswersMatch(Step(s, Ask))
  {
    hide Lost, Image, AssertionFails;
    ReportIs(s.track, s.estimator);
    var s' := Step(s, Ask);
    forall y | y in s'.track.reported ensures InAnswer(s'.answers, y) {
      if y in s.track.reported {
        var i :| 0 <= i < |s.answers| && y in s.answers[i].missing;
        assert y in s'.answers[i].missing;
      } else {
        assert y in s'.answers[|s.answers|].missing;
      }
    }
  }

  lemma StepTracks(s: Session, e: Event)
    requires Tracks(s.track, s.estimator) && AnswersMatch(s) && Fitting(s, e)
    ensures Tracks(Step(s, e).track, Step(s, e).estimator) && AnswersMatch(Step(s, e))
  {
    hide Tracks, Orderly, Restarts, Lost, AssertionFails, AddSn, Slide, Gone;
    match e
    case Arrive(x) => AddTracks(s.track, s.estimator, x);
    case Restart(x) => RestartTracks(s.track, s.estimator, x);
    case Ask =>
      ReportTracks(s.track, s.estimator);
      AskMatches(s);
      hide AnswersMatch;
  }

  lemma {:induction false} RunTracks(first: int, events: seq<Event>)
    requires Proper(first, events)
    ensures Tracks(Run(first, events).track, Run(first, events).estimator) && AnswersMatch(Run(first, events))
  {
    if events == [] {
      StartTracks(first);
    } else {
      hide Tracks, AnswersMatch, Fitting, Step;
      RunTracks(first, events[..|events| - 1]);
      StepTracks(Run(first, events[..|events| - 1]), events[|events| - 1]);
    }
  }

  /**
   * Exactly-once reporting over unbounded runs, across any number of 16-bit wraps: each
   * report holds the numbers missing then, and 0 besides exactly when it is made at the top;
   * no number is missing in two reports, and right after a report every number between the
   * first and the maximum was received or is in a report. The assertion on the way fails
   * exactly when a number of the previous cycle is pending and that cycle has left the window.
   */
  lemma ReportedExactlyOnce(first: int, events: seq<Event>)
    requires Proper(first, events + [Ask])
    ensures var s, s' := Run(first, events), Run(first, events + [Ask]);
            && s'.answers == s.answers + [AnswerTo(s)]
            && AnswerTo(s).reported == Image(Gone(s.track)) + (if AtTop(s.track, s.estimator) then {0} else {})
            && (AnswerTo(s).failed <==> NewWindow(s.track) && OldPending(s.track))
            && (forall a :: a in s'.answers ==> Image(a.missing) <= a.reported <= Image(a.missing) + {0})
            && (forall i, j :: 0 <= i < j < |s'.answers| ==> s'.answers[i].missing !! s'.answers[j].missing)
            && (forall y :: y in Gone(s.track) ==> y !in s.track.received)
            && (forall y :: s'.track.first < y < s'.track.max && y !in s'.track.received && y !in s'.track.void ==>
                  InAnswer(s'.answers, y))
  {
    hide Tracks, Lost, AssertionFails;
    var all := events + [Ask];
    assert all[..|all| - 1] == events;
    RunTracks(first, events);
    RunTracks(first, all);
    var s, s' := Run(first, events), Run(first, all);
    ReportIs(s.track, s.estimator);
    AssertionFailsExactly(s.track, s.estimator);
    forall y | s'.track.first < y < s'.track.max && y !in s'.track.received && y !in s'.track.void
      ensures InAnswer(s'.answers, y)
    {
      assert y in s'.track.reported;
    }
  }

  lemma RunMore(first: int, events: seq<Event>, e: Event)
    requires Proper(first, events) && Fitting(Run(first, events), e)
    ensures Proper(first, events + [e]) && Run(first, events + [e]) == Step(Run(first, events), e)
  {
    assert (events + [e])[..|events|] == events;
  }

  lemma RestartFrom100(t: Track, e: Estimator)
    requires t == Track(100, 100, {100}, {}, {}, [100]) && Wrap16(101) in e.expected
    ensures var t' := Restarted(t, e, 20000);
            && t' == Track(100, 20001, {100, 20000, 20001}, {}, Between(100, 20000) - {101}, [100, 20000, 20001, 20001])
            && Tight(t')
  {
    hide Wrap16;
    var t' := Restarted(t, e, 20000);
    assert t'.recent == [100, 20000, 20001, 20001];
    assert Gone(t') == {101} by { RestartGone(t, e, 20000); }
  }

  lemma Arrive20005(t: Track)
    requires t == Track(100, 20001, {100, 20000, 20001}, {}, Between(100, 20000) - {101}, [100, 20000, 20001, 20001])
    ensures var t' := Arrived(t, 20005);
            && Orderly(t, 20005) && t'.max in t'.recent && t'.max == 20005
            && Gone(t') == {101, 20002, 20003, 20004}
  {
    var t' := Arrived(t, 20005);
    assert t'.recent == [100, 20000, 20001, 20001, 20005];
    assert t'.recent[4] in t'.recent;
    forall y | y in Gone(t') ensures y in {101, 20002, 20003, 20004} {
      assert y < 20000 ==> Inside(100, y, 20000);
    }
    assert Gone(t') == {101, 20002, 20003, 20004};
  }

  lemma FourNumbers()
    ensures Image({101, 20002, 20003, 20004}) == {101, 20002, 20003, 20004}
  {
  }

  lemma RunRestart(first: int, events: seq<Event>)
    requires first == 100 && events == []
    ensures Proper(first, events + [Restart(20000)])
    ensures Run(first, events + [Restart(20000)]).track
         == Track(100, 20001, {100, 20000, 20001}, {}, Between(100, 20000) - {101}, [100, 20000, 20001, 20001])
  {
    StartTracks(first);
    assert Run(first, events) == Start(first) && Proper(first, events);
    var s := Run(first, events);
    assert s.track == Track(100, 100, {100}, {}, {}, [100]) && Wrap16(100) != 0xFFFF;
    hide Run, Proper, Start, AddSn, Wrap16;
    RestartFrom100(s.track, s.estimator);
    RunMore(first, events, Restart(20000));
  }

  lemma RunArrival(first: int, events: seq<Event>)
    requires Proper(first, events)
    requires Run(first, events).track
          == Track(100, 20001, {100, 20000, 20001}, {}, Between(100, 20000) - {101}, [100, 20000, 20001, 20001])
    ensures Proper(first, events + [Arrive(20005)] + [Ask])
    ensures AnswerTo(Run(first, events + [Arrive(20005)])).reported == {101, 20002, 20003, 20004}
  {
    hide Run, Proper, AddSn, Arrived, Gone, Between, Lost, Image;
    assert Wrap16(20005) == 20005;
    hide Wrap16;
    Arrive20005(Run(first, events).track);
    RunMore(first, events, Arrive(20005));
    var s := Run(first, events + [Arrive(20005)]);
    RunMore(first, events + [Arrive(20005)], Ask);
    RunTracks(first, events + [Arrive(20005)]);
    ReportIs(s.track, s.estimator);
    FourNumbers();
  }

  /** 100, a restart at 20000 and 20001, then 20005: the next report names what either stream misses. */
  lemma RestartReported(first: int, events: seq<Event>)
    requires first == 100 && events == [Restart(20000), Arrive(20005)]
    ensures Proper(first, events + [Ask]) && AnswerTo(Run(first, events)).reported == {101, 20002, 20003, 20004}
  {
    hide Run, Proper, AnswerTo;
    RunRestart(first, []);
    RunArrival(first, [] + [Restart(20000)]);
    assert [] + [Restart(20000)] + [Arrive(20005)] == events;
  }

  /** Every report of the run names the missing numbers and nothing else. */
  ghost predicate AllExact(answers: seq<Answer>) {
    forall i :: 0 <= i < |answers| ==> answers[i].reported == Image(answers[i].missing)
  }

  /** The event at `i` asks for a report at the top of a cycle. */
  ghost predicate AsksAtTop(first: int, events: seq<Event>, i: nat)
    requires i < |events|
  {
    events[i].Ask? && AtTop(Run(first, events[..i]).track, Run(first, events[..i]).estimator)
  }

  ghost predicate NeverAtTop(first: int, events: seq<Event>) {
    forall i :: 0 <= i < |events| ==> !AsksAtTop(first, events, i)
  }

  lemma NeverAtTopBut(first: int, events: seq<Event>)
    requires events != []
    ensures var n := |events| - 1;
            NeverAtTop(first, events) <==> NeverAtTop(first, events[..n]) && !AsksAtTop(first, events, n)
  {
    hide Run, AtTop;
    var before := events[..|events| - 1];
    forall i | 0 <= i < |before| ensures AsksAtTop(first, events, i) == AsksAtTop(first, before, i) {
      assert events[..i] == before[..i];
    }
  }

  lemma AllExactBut(answers: seq<Answer>, a: Answer)
    ensures AllExact(answers + [a]) <==> AllExact(answers) && a.reported == Image(a.missing)
  {
    hide Image;
    var all := answers + [a];
    assert all[|answers|] == a && forall i :: 0 <= i < |answers| ==> all[i] == answers[i];
  }

  /** All reports of a run are exact if and only if none was asked for at the top. */
  lemma {:induction false} AllReportsExactly(first: int, events: seq<Event>)
    requires Proper(first, events)
    ensures AllExact(Run(first, events).answers) <==> NeverAtTop(first, events)
  {
    if events != [] {
      var before := events[..|events| - 1];
      var s := Run(first, before);
      AllReportsExactly(first, before);
      NeverAtTopBut(first, events);
      AllExactBut(s.answers, AnswerTo(s));
      RunTracks(first, before);
      hide Tracks, AllExact, NeverAtTop, AtTop, Lost, Image;
      if events[|events| - 1].Ask? {
        ReportExactly(s.track, s.estimator);
      }
    }
  }

  // ------------------------------------------------------------------
  // The assertion can fail
  // ------------------------------------------------------------------

  /** 65535 is lost and never asked about while the stream goes on from 65536. */
  function LostTop(k: nat): seq<Event> {
    seq(k, i => Arrive(65536 + i))
  }

  ghost predicate AfterLostTop(t: Track, k: nat) {
    && t.first == 65534 && t.max == (if k == 0 then 65534 else 65535 + k) && t.reported == {} && t.void == {}
    && (forall y :: y in t.received <==> y == 65534 || 65536 <= y <= 65535 + k)
    && |t.recent| == (if k < MAX_DROPOUT then k + 1 else MAX_DROPOUT)
    && (forall i :: 0 <= i < |t.recent| ==>
          t.recent[i] == if k < MAX_DROPOUT && i == 0 then 65534 else t.max - (|t.recent| - 1 - i))
  }

  lemma LostTopStep(t: Track, k: nat)
    requires AfterLostTop(t, k) && k < MAX_DROPOUT
    ensures Orderly(t, 65536 + k) && AfterLostTop(Arrived(t, 65536 + k), k + 1)
  {
    var t' := Arrived(t, 65536 + k);
    assert AfterLostTop(t', k + 1);
    forall y | y in t'.recent ensures Close(t'.max, y) {
      var i :| 0 <= i < |t'.recent| && t'.recent[i] == y;
    }
  }

  lemma {:induction false} LostTopRun(k: nat)
    requires k <= MAX_DROPOUT
    ensures Proper(65534, LostTop(k)) && AfterLostTop(Run(65534, LostTop(k)).track, k)
  {
    if k > 0 {
      hide Run, Proper, Orderly, AfterLostTop, Arrived, AddSn;
      LostTopRun(k - 1);
      assert LostTop(k) == LostTop(k - 1) + [Arrive(65535 + k)];
      LostTopStep(Run(65534, LostTop(k - 1)).track, k - 1);
      RunMore(65534, LostTop(k - 1), Arrive(65535 + k));
    }
  }

  /** 3000 arrivals later a report runs into the assertion. */
  lemma AssertionCanFail()
    ensures Proper(65534, LostTop(MAX_DROPOUT) + [Ask])
    ensures AnswerTo(Run(65534, LostTop(MAX_DROPOUT))).failed
  {
    var events := LostTop(MAX_DROPOUT);
    var s := Run(65534, events);
    LostTopRun(MAX_DROPOUT);
    RunTracks(65534, events);
    assert (events + [Ask])[..|events|] == events;
    assert s.track.recent[MAX_DROPOUT - 1] == s.track.max;
    assert 65535 in Gone(s.track);
    assert OldCycle(s.track, 65535);
    forall y | y in s.track.recent ensures !OldCycle(s.track, y) {
      var i :| 0 <= i < |s.track.recent| && s.track.recent[i] == y;
    }
    hide Run;
    AssertionFailsExactly(s.track, s.estimator);
  }

  // ------------------------------------------------------------------
  // The size of the window
  // ------------------------------------------------------------------

  function Fed(sns: seq<u16>): Estimator {
    if sns == [] then Estimator([], {}, 0, 0) else AddSn(Fed(sns[..|sns| - 1]), sns[|sns| - 1])
  }

  /** A restart is confirmed while the window has no room for the number twice. */
  predicate RestartsFull(e: Estimator, sn: u16) {
    && |e.window| >= 2999
    && 3000 <= Wrap16(sn - e.maxSeq) <= 65436
    && sn == e.badSn
  }

  lemma WindowStep(e: Estimator, sn: u16)
    ensures |AddSn(e, sn).window| <= 3000 <==> |e.window| <= 3000 && !RestartsFull(e, sn)
  {
    hide Wrap16, Skipped;
  }

  ghost predicate NeverRestartsFull(sns: seq<u16>) {
    forall i :: 0 <= i < |sns| ==> !RestartsFull(Fed(sns[..i]), sns[i])
  }

  lemma NeverRestartsFullBut(sns: seq<u16>)
    requires sns != []
    ensures var n := |sns| - 1;
            NeverRestartsFull(sns) <==> NeverRestartsFull(sns[..n]) && !RestartsFull(Fed(sns[..n]), sns[n])
  {
    hide Fed, RestartsFull;
    var before := sns[..|sns| - 1];
    forall i | 0 <= i < |before|
      ensures RestartsFull(Fed(sns[..i]), sns[i]) == RestartsFull(Fed(before[..i]), before[i])
    {
      assert sns[..i] == before[..i];
    }
  }

  /** The window keeps to its limit if and only if no restart met it full; past the limit it only grows. */
  lemma {:induction false} WindowBoundedExactly(sns: seq<u16>)
    ensures |Fed(sns).window| <= 3000 <==> NeverRestartsFull(sns)
  {
    if sns != [] {
      hide AddSn, RestartsFull, NeverRestartsFull;
      var n := |sns| - 1;
      WindowBoundedExactly(sns[..n]);
      WindowStep(Fed(sns[..n]), sns[n]);
      NeverRestartsFullBut(sns);
    }
  }

  function Rising(k: nat): seq<u16>
    requires k <= TWO16
  {
    seq(k, i requires 0 <= i < k => i)
  }

  lemma {:induction false} FedRising(k: nat)
    requires 0 < k < MAX_DROPOUT
    ensures var e := Fed(Rising(k)); |e.window| == k && e.maxSeq == k - 1 && e.badSn == 0xFFFF_FFFF
  {
    assert Rising(k)[..k - 1] == Rising(k - 1);
    if k > 1 {
      FedRising(k - 1);
      InSequence(Fed(Rising(k - 1)), k - 1);
      hide AddSn;
    }
  }

  lemma InSequence(e: Estimator, sn: u16)
    requires 0 < |e.window| < MAX_DROPOUT && sn > 0 && e.maxSeq == sn - 1
    ensures var e' := AddSn(e, sn); |e'.window| == |e.window| + 1 && e'.maxSeq == sn && e'.badSn == e.badSn
  {
    hide Skipped;
  }

  lemma FedMore(sns: seq<u16>, sn: u16)
    ensures Fed(sns + [sn]) == AddSn(Fed(sns), sn)
  {
    assert (sns + [sn])[..|sns|] == sns;
  }

  lemma JumpTwice(e: Estimator)
    requires |e.window| == MAX_DROPOUT - 1 && e.maxSeq == MAX_DROPOUT - 2 && e.badSn == 0xFFFF_FFFF
    ensures |AddSn(AddSn(e, 20000), 20001).window| == MAX_DROPOUT + 1
  {
    hide Skipped;
  }

  /** MAX_DROPOUT - 1 numbers, a jump and its successor: the window exceeds its limit. */
  lemma WindowCanOverflow(k: nat)
    requires k == MAX_DROPOUT - 1
    ensures |Fed(Rising(k) + [20000] + [20001]).window| == MAX_DROPOUT + 1
  {
    hide Fed, AddSn;
    FedRising(k);
    FedMore(Rising(k), 20000);
    FedMore(Rising(k) + [20000], 20001);
    JumpTwice(Fed(Rising(k)));
  }
}
