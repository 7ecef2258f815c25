/**
 * `LossEstimator` under any sequence of arrivals: stray jumps and restarts of the sender in any
 * direction. Numbers pending at a restart are carried on as 16-bit numbers.
 */
module LossRestarts {
  import opened Words
  import opened LossEstimation

  /** The stream since the last restart, in unwrapped numbers. */
  datatype Stream = Stream(first: int, max: int, received: set<int>)

  /** The stream and what was pending when it began. */
  datatype Followed = Followed(stream: Stream, carried: set<u16>)

  function Missing(s: Stream): set<int> {
    set y | s.first < y < s.max && y !in s.received
  }

  function Began(x: int, carried: set<u16>): Followed {
    Followed(Stream(x, x, {x}), carried)
  }

  function Continued(f: Followed, x: int): Followed {
    var s := f.stream;
    Followed(Stream(s.first, if x > s.max then x else s.max, s.received + {x}), f.carried - {Wrap16(x)})
  }

  /** The unwrapped number of an arrival close to the maximum. */
  function Lift(max: int, sn: u16): int {
    var delta := Wrap16(sn - Wrap16(max));
    if delta < MAX_DROPOUT then max + delta else max + delta - 0x1_0000
  }

  /** An arrival continues the stream, is a stray jump, or confirms one and begins a stream. */
  function Follow(f: Followed, e: Estimator, sn: u16): Followed {
    if !Jumps(e, sn) then Continued(f, Lift(f.stream.max, sn))
    else if sn == e.badSn then Began(f.stream.max + Wrap16(sn - e.maxSeq), e.expected)
    else f
  }

  function FollowAll(sns: seq<u16>): Followed
    requires sns != []
  {
    var n := |sns| - 1;
    if n == 0 then Began(sns[0], {}) else Follow(FollowAll(sns[..n]), Fed(sns[..n]), sns[n])
  }

  ghost predicate StreamOk(s: Stream) {
    s.first <= s.max && s.max in s.received && forall y :: y in s.received ==> y <= s.max
  }

  /** The expected set is what was carried on, what the stream misses, and its next number. */
  ghost predicate Matches(f: Followed, e: Estimator) {
    && e.window != [] && StreamOk(f.stream) && e.maxSeq == Wrap16(f.stream.max)
    && e.expected == f.carried + Image(Missing(f.stream)) + {Wrap16(f.stream.max + 1)}
  }

  /** Within one cycle of the numbers, so that no two have the same 16 bits. */
  predicate InCycle(max: int, y: int) { max - 65535 < y <= max + 1 }

  ghost predicate OneCycleMissing(s: Stream) {
    forall y :: y in Missing(s) ==> InCycle(s.max, y)
  }

  /** Numbers ahead that are in the window already are pending anyway. */
  ghost predicate SeenArePending(f: Followed, window: seq<u16>, x: int) {
    forall y :: f.stream.max + 1 < y <= x + 1 && y != x && Wrap16(y) in window ==> Wrap16(y) in f.carried - {Wrap16(x)}
  }

  lemma CycleInjective(max: int, y: int, z: int)
    requires InCycle(max, y) && InCycle(max, z) && Wrap16(y) == Wrap16(z)
    ensures y == z
  {
  }

  function Values(window: seq<u16>): set<u16> { set v | v in window }

  lemma {:induction false} SkippedIs(window: seq<u16>, max: int, delta: nat)
    ensures Skipped(window, Wrap16(max), delta) == Image(Between(max, max + delta)) - Values(window)
  {
    hide Wrap16;
    if delta > 1 {
      var y := max + delta - 1;
      SkippedIs(window, max, delta - 1);
      assert Inside(max, y, max + delta);
      assert Between(max, max + delta) == Between(max, y) + {y};
      ImageUnion(Between(max, y), {y});
      assert Image({y}) == {Wrap16(y)};
      WrapShift(max, delta - 1);
    } else {
      assert Between(max, max + delta) == {};
      assert Image({}) == {};
    }
  }

  /** The expected set after a number at or ahead of the maximum. */
  lemma AheadGives(e: Estimator, x: int, max: int)
    requires e.window != [] && e.maxSeq == Wrap16(max) && 0 <= x - max < MAX_DROPOUT
    ensures var e', w := AddSn(e, Wrap16(x)), Values(Slide(e.window, Wrap16(x)));
            && e'.window != [] && e'.maxSeq == Wrap16(x)
            && e'.expected == (e.expected + (Image(Between(max, x)) - w) - {Wrap16(x)}) + ({Wrap16(x + 1)} - w)
  {
    DeltaAhead(x, max);
    WrapShift(x, 1);
    SkippedIs(Slide(e.window, Wrap16(x)), max, x - max);
    hide Skipped, Slide;
  }

  lemma MissingAhead(f: Followed, x: int)
    requires StreamOk(f.stream) && x >= f.stream.max
    ensures Missing(Continued(f, x).stream) == Missing(f.stream) + Between(f.stream.max, x)
    ensures StreamOk(Continued(f, x).stream)
  {
  }

  lemma ImageMember(s: set<int>, max: int, y: int)
    requires InCycle(max, y) && forall z :: z in s ==> InCycle(max, z)
    ensures Wrap16(y) in Image(s) <==> y in s
  {
    if Wrap16(y) in Image(s) {
      var z :| z in s && Wrap16(z) == Wrap16(y);
      CycleInjective(max, y, z);
    }
  }

  /** The numbers a step ahead adds: in the target always, in the expected set unless seen. */
  lemma AheadSets(carried: set<u16>, m: set<u16>, b: set<u16>, w: set<u16>, sn: u16, next: u16, after: u16)
    requires sn !in m && sn !in b && sn != after
    requires next == sn || next == after || next in b
    requires (b + {after}) * m == {}
    ensures var got := ((carried + m + {next}) + (b - w) - {sn}) + ({after} - w);
            got == (carried - {sn}) + (m + b) + {after}
            <==> forall v :: v in (b + {after}) * w && v != next ==> v in carried - {sn}
  {
    var got, want := ((carried + m + {next}) + (b - w) - {sn}) + ({after} - w), (carried - {sn}) + (m + b) + {after};
    assert got <= want;
    forall v | v in want && v !in got ensures v in (b + {after}) * w && v != next && v !in carried - {sn} {
    }
  }

  lemma AheadApart(f: Followed, x: int)
    requires StreamOk(f.stream) && 0 <= x - f.stream.max < MAX_DROPOUT && OneCycleMissing(Continued(f, x).stream)
    ensures var max := f.stream.max;
            var m, b := Image(Missing(f.stream)), Image(Between(max, x));
            && Wrap16(x) !in m && Wrap16(x) !in b && Wrap16(x) != Wrap16(x + 1) && (b + {Wrap16(x + 1)}) * m == {}
            && (x == max ==> Wrap16(max + 1) == Wrap16(x + 1)) && (x == max + 1 ==> Wrap16(max + 1) == Wrap16(x))
            && (x > max + 1 ==> Wrap16(max + 1) in b)
            && forall y :: max + 1 < y <= x + 1 ==> Wrap16(y) != Wrap16(max + 1)
  {
    var max := f.stream.max;
    MissingAhead(f, x);
    forall y | max <= y <= x + 1 ensures Wrap16(y) !in Image(Missing(f.stream)) {
      ImageMember(Missing(f.stream), x, y);
    }
    ImageMember(Between(max, x), x, x);
    if x > max + 1 {
      assert Inside(max, max + 1, x);
      assert max + 1 in Between(max, x);
    }
    forall y | max + 1 < y <= x + 1 ensures Wrap16(y) != Wrap16(max + 1) {
      if Wrap16(y) == Wrap16(max + 1) { CycleInjective(x, y, max + 1); }
    }
  }

  /** Both ways of naming the numbers that were seen. */
  lemma SeenValues(f: Followed, window: seq<u16>, x: int)
    requires x >= f.stream.max
    requires forall y :: f.stream.max + 1 < y <= x + 1 ==> Wrap16(y) != Wrap16(f.stream.max + 1)
    ensures var max := f.stream.max;
            var seen := (Image(Between(max, x)) + {Wrap16(x + 1)}) * Values(window);
            SeenArePending(f, window, x)
            <==> forall v :: v in seen && v != Wrap16(max + 1) ==> v in f.carried - {Wrap16(x)}
  {
    hide Wrap16;
    var max := f.stream.max;
    var seen := (Image(Between(max, x)) + {Wrap16(x + 1)}) * Values(window);
    forall v | v in seen && v != Wrap16(max + 1)
      ensures exists y :: max + 1 < y <= x + 1 && y != x && Wrap16(y) == v && v in window
    {
      if v == Wrap16(x + 1) {
        assert max + 1 < x + 1;
      } else {
        var y :| y in Between(max, x) && Wrap16(y) == v;
        assert y != max + 1;
      }
    }
    forall y | max + 1 < y <= x + 1 && y != x && Wrap16(y) in window
      ensures Wrap16(y) in seen && Wrap16(y) != Wrap16(max + 1)
    {
      assert y < x ==> Inside(max, y, x);
      assert y < x ==> y in Between(max, x);
    }
  }

  lemma AheadExactly(f: Followed, e: Estimator, x: int)
    requires Matches(f, e) && 0 <= x - f.stream.max < MAX_DROPOUT && OneCycleMissing(Continued(f, x).stream)
    ensures Matches(Continued(f, x), AddSn(e, Wrap16(x))) <==> SeenArePending(f, Slide(e.window, Wrap16(x)), x)
  {
    hide Wrap16, Image, Between, Missing, Slide, AddSn, Values, InCycle;
    var max, w := f.stream.max, Slide(e.window, Wrap16(x));
    AheadGives(e, x, max);
    MissingAhead(f, x);
    ImageUnion(Missing(f.stream), Between(max, x));
    AheadApart(f, x);
    AheadSets(f.carried, Image(Missing(f.stream)), Image(Between(max, x)), Values(w), Wrap16(x), Wrap16(max + 1),
              Wrap16(x + 1));
    SeenValues(f, w, x);
    hide SeenArePending;
  }

  lemma MissingBehind(f: Followed, x: int)
    requires StreamOk(f.stream) && x < f.stream.max
    ensures Missing(Continued(f, x).stream) == Missing(f.stream) - {x} && StreamOk(Continued(f, x).stream)
  {
  }

  lemma BehindImage(s: set<int>, max: int, x: int)
    requires max - MAX_MISORDER < x < max && forall z :: z in s ==> InCycle(max, z)
    ensures Image(s - {x}) == Image(s) - {Wrap16(x)} && Wrap16(x) != Wrap16(max + 1)
  {
    forall z | z in s && Wrap16(z) == Wrap16(x) ensures z == x {
      CycleInjective(max, z, x);
    }
  }

  lemma BehindMatches(f: Followed, e: Estimator, x: int)
    requires Matches(f, e) && 0 < f.stream.max - x < MAX_MISORDER && OneCycleMissing(f.stream)
    ensures Matches(Continued(f, x), AddSn(e, Wrap16(x)))
  {
    BehindStep(e, x, f.stream.max);
    hide Wrap16, Image, Missing, AddSn, InCycle;
    MissingBehind(f, x);
    BehindImage(Missing(f.stream), f.stream.max, x);
  }

  lemma JumpLift(max: int, sn: u16)
    ensures var x := max + Wrap16(sn - Wrap16(max)); Wrap16(x) == sn && Wrap16(x + 1) == Wrap16(sn + 1)
  {
  }

  /** A stray jump leaves everything as it is, a confirmed one begins a stream with all that is pending. */
  lemma JumpMatches(f: Followed, e: Estimator, sn: u16)
    requires Matches(f, e) && Jumps(e, sn)
    ensures Matches(Follow(f, e, sn), AddSn(e, sn))
  {
    hide AddSn, Wrap16, Image, Missing, StreamOk;
    if sn == e.badSn {
      Confirmed(e, sn);
      JumpLift(f.stream.max, sn);
      BeganIs(f.stream.max + Wrap16(sn - e.maxSeq), e.expected);
    } else {
      StrayJump(e, sn);
    }
  }

  lemma BeganIs(x: int, carried: set<u16>)
    ensures Missing(Began(x, carried).stream) == {} && Image(Missing(Began(x, carried).stream)) == {}
    ensures StreamOk(Began(x, carried).stream)
  {
  }

  lemma LiftIs(max: int, sn: u16)
    requires !(3000 <= Wrap16(sn - Wrap16(max)) <= 65436)
    ensures Wrap16(Lift(max, sn)) == sn && max - MAX_MISORDER < Lift(max, sn) < max + MAX_DROPOUT
  {
  }

  /**
   * One arrival of any kind: the expected set stays what it should be if and only if no number
   * skipped ahead is in the window from before, unless it is pending anyway.
   */
  lemma ArrivalExactly(f: Followed, e: Estimator, sn: u16)
    requires Matches(f, e) && OneCycleMissing(f.stream) && OneCycleMissing(Follow(f, e, sn).stream)
    ensures var x := Lift(f.stream.max, sn);
            Matches(Follow(f, e, sn), AddSn(e, sn))
            <==> (!Jumps(e, sn) && x >= f.stream.max ==> SeenArePending(f, Slide(e.window, sn), x))
  {
    hide Missing, AddSn, SeenArePending, Slide, OneCycleMissing;
    if Jumps(e, sn) {
      JumpMatches(f, e, sn);
    } else {
      LiftIs(f.stream.max, sn);
      var x := Lift(f.stream.max, sn);
      hide Wrap16, Lift;
      if x >= f.stream.max {
        AheadExactly(f, e, x);
      } else {
        BehindMatches(f, e, x);
      }
    }
  }

  /** Nothing is missing for a whole cycle, and no number skipped is in the window from before. */
  ghost predicate Clear(f: Followed, e: Estimator, sn: u16) {
    && OneCycleMissing(Follow(f, e, sn).stream)
    && var x := Lift(f.stream.max, sn);
       (!Jumps(e, sn) && x >= f.stream.max ==> SeenArePending(f, Slide(e.window, sn), x))
  }

  ghost predicate AllClear(sns: seq<u16>)
    requires sns != []
  {
    var n := |sns| - 1;
    n == 0 || (AllClear(sns[..n]) && Clear(FollowAll(sns[..n]), Fed(sns[..n]), sns[n]))
  }

  lemma FirstMatches(sn: u16)
    ensures Matches(Began(sn, {}), Fed([sn])) && OneCycleMissing(Began(sn, {}).stream)
  {
    BeganIs(sn, {});
    assert [sn][..0] == [];
    assert Fed([]) == Estimator([], {}, 0, 0);
    assert Fed([sn]) == AddSn(Fed([]), sn);
  }

  /**
   * After any sequence of arrivals, with any number of stray jumps and restarts, the estimator
   * expects exactly what was pending before the last restart, what the stream since then
   * misses, and its next number.
   */
  lemma {:induction false} ExpectedAcrossRestarts(sns: seq<u16>)
    requires sns != [] && AllClear(sns)
    ensures Matches(FollowAll(sns), Fed(sns)) && OneCycleMissing(FollowAll(sns).stream)
  {
    var n := |sns| - 1;
    if n == 0 {
      assert sns == [sns[0]];
      FirstMatches(sns[0]);
    } else {
      hide Matches, OneCycleMissing, AddSn, Follow, SeenArePending, Lift, Slide;
      ExpectedAcrossRestarts(sns[..n]);
      ArrivalExactly(FollowAll(sns[..n]), Fed(sns[..n]), sns[n]);
    }
  }

  // ------------------------------------------------------------------
  // Reports after jumps
  // ------------------------------------------------------------------

  /** The number of the window that a report takes for the latest. */
  function Latest(e: Estimator): u16
    requires e.window != []
  {
    if BothEnds(e.window) then MaxSigned(e.window) else MaxUnsigned(e.window)
  }

  /** The last number before the order that a report uses wraps around. */
  function LastInOrder(e: Estimator): u16
    requires e.window != []
  {
    if BothEnds(e.window) then 0x7FFF else 0xFFFF
  }

  /** The next number is spared exactly if the latest is the maximum or that number itself, short of the wrap. */
  lemma NextSparedExactly(e: Estimator)
    requires e.maxSeq in e.window
    ensures var next := Wrap16(e.maxSeq + 1);
            !Judged(e, next) <==> (Latest(e) == e.maxSeq || Latest(e) == next) && e.maxSeq != LastInOrder(e)
  {
    var m, next := e.maxSeq, Wrap16(e.maxSeq + 1);
    assert next == if m == 0xFFFF then 0 else m + 1;
    assert Signed16(m) <= Signed16(MaxSigned(e.window)) && m <= MaxUnsigned(e.window);
    hide BothEnds, MaxSigned, MaxUnsigned;
  }

  /**
   * A report after any jumps and restarts names what is pending and nothing else if and only
   * if all of it lies before the latest number of the window, and the next number is pending
   * anyway or that latest number is the maximum or the next itself, short of the wrap.
   */
  lemma ReportAfterJumpsExactly(f: Followed, e: Estimator)
    requires Matches(f, e) && e.maxSeq in e.window
    ensures var pending, next := f.carried + Image(Missing(f.stream)), Wrap16(f.stream.max + 1);
            Lost(e) == pending
            <==> && (forall p :: p in pending ==> Judged(e, p))
                 && (next in pending || ((Latest(e) == e.maxSeq || Latest(e) == next) && e.maxSeq != LastInOrder(e)))
  {
    WrapShift(f.stream.max, 1);
    hide Wrap16, Image, Missing;
    NextSparedExactly(e);
    hide Latest, LastInOrder;
    forall x: u16 ensures x in Lost(e) <==> x in e.expected && Judged(e, x) {
      LostIsJudged(e, x);
    }
    hide Lost, Judged;
  }

  lemma FedOne(sns: seq<u16>)
    requires |sns| == 1
    ensures var first: int := sns[0]; Fed(sns) == Estimator(sns, {Wrap16(first + 1)}, first, 0xFFFF_FFFF)
  {
    assert sns[..0] == [];
    assert Fed(sns[..0]) == Estimator([], {}, 0, 0);
    assert [] + [sns[0]] == sns;
  }

  lemma ReportOf(e: Estimator, lost: u16)
    requires e.window != [] && lost in e.expected
    requires forall x :: x in e.expected ==> (Judged(e, x) <==> x == lost)
    ensures Lost(e) == {lost}
  {
    hide Judged, Lost;
    forall x: u16 ensures x in Lost(e) <==> x == lost {
      LostIsJudged(e, x);
    }
  }

  lemma LatestIs(e: Estimator, latest: u16)
    requires latest in e.window && forall x :: x in e.window ==> latest - 0xFFFF / 2 <= x <= latest
    ensures !BothEnds(e.window) && MaxUnsigned(e.window) == latest
  {
    hide MaxUnsigned, MinUnsigned;
  }

  /** One stray packet after 100: the next number of the stream is reported as lost before it is due. */
  lemma StrayReportsNext(sns: seq<u16>)
    requires sns == [100, 20000]
    ensures Lost(Fed(sns)) == {101}
  {
    assert sns[..1] == [100];
    FedOne(sns[..1]);
    var e0, e := Fed(sns[..1]), Fed(sns);
    assert e == AddSn(e0, 20000);
    hide Fed;
    StrayJump(e0, 20000);
    hide AddSn, Lost;
    assert e.window == [100, 20000] && e.expected == {101};
    assert e.window[1] in e.window;
    LatestIs(e, 20000);
    hide BothEnds, MaxUnsigned, MaxSigned;
    ReportOf(e, 101);
  }

  /** A restart to lower numbers: the next number is reported as lost and the pending one is not. */
  lemma RestartBackwards(sns: seq<u16>)
    requires sns == [40000, 20000, 20001]
    ensures Fed(sns).expected == {40001, 20002} && Lost(Fed(sns)) == {20002}
  {
    assert sns[..2][..1] == [40000];
    FedOne(sns[..2][..1]);
    var e0, e1, e2 := Fed(sns[..2][..1]), Fed(sns[..2]), Fed(sns);
    assert e1 == AddSn(e0, 20000) && e2 == AddSn(e1, 20001);
    hide Fed;
    StrayJump(e0, 20000);
    Confirmed(e1, 20001);
    hide AddSn, Lost;
    assert e2.window == [40000, 20000, 20001, 20001] && e2.expected == {40001, 20002};
    assert e2.window[0] in e2.window;
    LatestIs(e2, 40000);
    hide BothEnds, MaxUnsigned, MaxSigned;
    ReportOf(e2, 20002);
  }
}
