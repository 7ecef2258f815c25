/**
 * `RtpJitterBufferV2`: groups by RTP timestamp, ordered by presentation time, with a
 * ring of recently played groups. Times are microseconds.
 */
module JitterBufferV2 {
  import opened Words
  import opened PacketGroup
  import opened PlayoutNode
  import opened Arithmetic

  const HISTORY: nat := 150

  datatype Buffer = Buffer(nodes: seq<Node>, history: seq<Node>, total: nat, late: nat, duplicates: nat)

  /** First node from the front with the timestamp, or the length. */
  function FindTs(nodes: seq<Node>, ts: u32): (i: nat)
    ensures i <= |nodes|
    ensures i < |nodes| ==> nodes[i].ts == ts
    ensures forall j :: 0 <= j < i ==> nodes[j].ts != ts
  {
    if nodes == [] || nodes[0].ts == ts then 0 else 1 + FindTs(nodes[1..], ts)
  }

  /** One past the last node with the timestamp, or 0. */
  function FindTsBack(nodes: seq<Node>, ts: u32): (i: nat)
    ensures i <= |nodes|
    ensures i > 0 ==> nodes[i - 1].ts == ts
    ensures forall j :: i <= j < |nodes| ==> nodes[j].ts != ts
  {
    if nodes == [] || nodes[|nodes| - 1].ts == ts then |nodes| else FindTsBack(nodes[..|nodes| - 1], ts)
  }

  /** What became of a packet. */
  datatype Outcome = Created | Joined | LiveDuplicate | Late | LateDuplicate

  function UpdateGroup(n: Node, p: Packet): (Node, bool) {
    var (g, ok) := InsertPacket(n.group, p);
    (n.(group := g), ok)
  }

  function Add(b: Buffer, p: Packet, pts: int, playout: int, now: int): (Buffer, Outcome) {
    var b := b.(total := b.total + 1);
    var i := FindTs(b.nodes, p.ts);
    if i < |b.nodes| then
      var (n, ok) := UpdateGroup(b.nodes[i], p);
      if ok then (b.(nodes := b.nodes[i := n]), Joined)
      else (b.(nodes := b.nodes[i := n], duplicates := b.duplicates + 1), LiveDuplicate)
    else
      var k := FindTsBack(b.history, p.ts);
      if k > 0 then
        var (n, ok) := UpdateGroup(b.history[k - 1], p);
        if ok then (b.(history := b.history[k - 1 := n], late := b.late + 1), Late)
        else (b.(history := b.history[k - 1 := n], late := b.late + 1, duplicates := b.duplicates + 1), LateDuplicate)
      else if playout < now then (b.(late := b.late + 1), Late)
      else (b.(nodes := InsertAt(b.nodes, PlaceByPts(b.nodes, pts), NewNode(p, pts, playout))), Created)
  }

  /** A circular buffer of capacity 150 drops its oldest element when full. */
  function PushHistory(h: seq<Node>, n: Node): seq<Node> {
    if |h| < HISTORY then h + [n] else h[1..] + [n]
  }

  function Pop(b: Buffer): (Buffer, Node)
    requires b.nodes != []
  {
    (b.(nodes := b.nodes[1..], history := PushHistory(b.history, b.nodes[0])), b.nodes[0])
  }

  class RtpJitterBufferV2 {
    const latencyMs: u32
    const freq: u32
    var timeline: Timeline
    var nodes: seq<Node>
    var history: seq<Node>
    var total: nat
    var late: nat
    var duplicates: nat

    ghost function View(): Buffer
      reads this
    {
      Buffer(nodes, history, total, late, duplicates)
    }

    constructor (latencyMs: u32, freq: u32)
      ensures this.latencyMs == latencyMs && this.freq == freq
      ensures View() == Buffer([], [], 0, 0, 0) && timeline == NO_PACKET
    {
      this.latencyMs, this.freq, timeline := latencyMs, freq, NO_PACKET;
      nodes, history, total, late, duplicates := [], [], 0, 0, 0;
    }

    method CalculatePlayoutTime(ts: u32, arrival: int, pts: int, synchronised: bool) returns (playout: int)
      requires freq > 0
      modifies this`timeline
      ensures (timeline, playout) == PlayoutTime(old(timeline), latencyMs, freq, ts, arrival, pts, synchronised)
    {
      if !timeline.synced && synchronised {
        timeline := timeline.(synced := true, firstSyncedPts := Some(pts));
        if timeline.firstPacket.None? {
          timeline := timeline.(firstTs := ts);
        }
        timeline := timeline.(rtpDiffMs := RtpDiffMs(ts, timeline.firstTs, freq));
      }
      if timeline.firstPacket.None? {
        timeline := timeline.(firstPacket := Some(arrival), firstPts := pts, firstTs := ts);
        return arrival + 1000 * latencyMs;
      }
      var first := timeline.firstPacket.value;
      if timeline.firstSyncedPts.None? {
        return first + (pts - timeline.firstPts) + 1000 * latencyMs;
      }
      return first + (pts - timeline.firstSyncedPts.value) + 1000 * Mod32(latencyMs + timeline.rtpDiffMs);
    }

    method FindLive(ts: u32) returns (i: nat)
      ensures i == FindTs(nodes, ts)
    {
      i := 0;
      while i < |nodes| && nodes[i].ts != ts
        invariant i <= FindTs(nodes, ts)
      {
        i := i + 1;
      }
    }

    method FindRecent(ts: u32) returns (k: nat)
      ensures k == FindTsBack(history, ts)
    {
      k := |history|;
      while k > 0 && history[k - 1].ts != ts
        invariant FindTsBack(history, ts) <= k <= |history|
      {
        k := k - 1;
      }
    }

    method DoAddRtpPacket(p: Packet, pts: int, playout: int, now: int)
      returns (scheduled: bool, lateMs: u32, duplicate: bool)
      modifies this`nodes, this`history, this`total, this`late, this`duplicates
      ensures View() == Add(old(View()), p, pts, playout, now).0
      ensures var o := Add(old(View()), p, pts, playout, now).1;
              && scheduled == o.Created? && duplicate == (o.LiveDuplicate? || o.LateDuplicate?)
              && lateMs == if o.Late? || o.LateDuplicate? then Lateness(playout, now) else 0
    {
      hide UpdateGroup, InsertAt, NewNode, Lateness, FindTs, FindTsBack, PlaceByPts;
      total := total + 1;
      var i := FindLive(p.ts);
      if i < |nodes| {
        var (n, ok) := UpdateGroup(nodes[i], p);
        nodes := nodes[i := n];
        if !ok {
          duplicates := duplicates + 1;
        }
        return false, 0, !ok;
      }
      var k := FindRecent(p.ts);
      if k > 0 {
        late := late + 1;
        var (n, ok) := UpdateGroup(history[k - 1], p);
        history := history[k - 1 := n];
        if !ok {
          duplicates := duplicates + 1;
        }
        return false, Lateness(playout, now), !ok;
      }
      if playout < now {
        late := late + 1;
        return false, Lateness(playout, now), false;
      }
      InsertAccordingToPts(p, pts, playout);
      return true, 0, false;
    }

    method InsertAccordingToPts(p: Packet, pts: int, playout: int)
      modifies this`nodes
      ensures nodes == InsertAt(old(nodes), PlaceByPts(old(nodes), pts), NewNode(p, pts, playout))
    {
      var i := |nodes|;
      while i > 0 && nodes[i - 1].pts >= pts
        invariant PlaceByPts(nodes, pts) <= i <= |nodes|
      {
        i := i - 1;
      }
      nodes := InsertAt(nodes, i, NewNode(p, pts, playout));
    }

    method GetNextPlayoutBufferNode() returns (n: Node)
      requires nodes != []
      modifies this`nodes, this`history
      ensures (View(), n) == Pop(old(View()))
    {
      n := nodes[0];
      nodes := nodes[1..];
      history := PushHistory(history, n);
    }
  }

  // ------------------------------------------------------------------
  // Whole runs of adds and pops
  // ------------------------------------------------------------------

  datatype Event = AddEvent(p: Packet, pts: int, playout: int, now: int) | PopEvent

  /** The buffer together with what an observer of the run has seen. */
  datatype Observed = Observed(buffer: Buffer, popped: seq<Node>, liveDuplicates: nat, historyDuplicates: nat)

  function Count(o: Outcome, wanted: Outcome): nat { if o == wanted then 1 else 0 }

  /** One event; popping an empty buffer fails an assertion of the source. */
  function Step(s: Observed, e: Event): Option<Observed> {
    match e
    case AddEvent(p, pts, playout, now) =>
      var (b, o) := Add(s.buffer, p, pts, playout, now);
      Some(Observed(b, s.popped, s.liveDuplicates + Count(o, LiveDuplicate),
                    s.historyDuplicates + Count(o, LateDuplicate)))
    case PopEvent =>
      if s.buffer.nodes == [] then None
      else Some(s.(buffer := Pop(s.buffer).0, popped := s.popped + [Pop(s.buffer).1]))
  }

  function Run(events: seq<Event>): Option<Observed> {
    if events == [] then Some(Observed(Buffer([], [], 0, 0, 0), [], 0, 0))
    else match Run(events[..|events| - 1])
         case None => None
         case Some(s) => Step(s, events[|events| - 1])
  }

  function Stamps(nodes: seq<Node>): seq<u32> {
    seq(|nodes|, i requires 0 <= i < |nodes| => nodes[i].ts)
  }

  ghost predicate SortedByPts(nodes: seq<Node>) {
    forall i, j :: 0 <= i < j < |nodes| ==> nodes[i].pts <= nodes[j].pts
  }

  ghost predicate Distinct<T>(s: seq<T>) {
    forall i, j :: 0 <= i < j < |s| ==> s[i] != s[j]
  }

  /** The last 150 of the stamps, or all of them. */
  function Recent(stamps: seq<u32>): seq<u32> {
    if |stamps| <= 150 then stamps else stamps[|stamps| - 150..]
  }

  /** No stamp comes back within 151 consecutive positions. */
  ghost predicate NoEarlyRepeat(stamps: seq<u32>) {
    forall i, j :: 0 <= i < j < |stamps| && j - i <= 150 ==> stamps[i] != stamps[j]
  }

  ghost predicate Safe(s: Observed) {
    && SortedByPts(s.buffer.nodes)
    && Distinct(Stamps(s.buffer.history) + Stamps(s.buffer.nodes))
    && Stamps(s.buffer.history) == Recent(Stamps(s.popped))
    && NoEarlyRepeat(Stamps(s.popped))
  }

  lemma FreshInsert<T>(a: seq<T>, b: seq<T>, i: nat, x: T)
    requires i <= |b| && Distinct(a + b) && x !in a && x !in b
    ensures Distinct(a + InsertAt(b, i, x))
  {
    var c := InsertAt(b, i, x);
    forall j, k | 0 <= j < k < |a + c|
      ensures (a + c)[j] != (a + c)[k]
    {
      var j', k' := Origin(|a|, i, j), Origin(|a|, i, k);
      assert j != |a| + i ==> (a + c)[j] == (a + b)[j'];
      assert k != |a| + i ==> (a + c)[k] == (a + b)[k'];
    }
  }

  /** Where the element at `j` stood before an insertion `i` places into the second part. */
  function Origin(m: nat, i: nat, j: nat): int {
    if j < m + i then j else j - 1
  }

  lemma StampsInsert(nodes: seq<Node>, i: nat, n: Node)
    requires i <= |nodes|
    ensures Stamps(InsertAt(nodes, i, n)) == InsertAt(Stamps(nodes), i, n.ts)
  {
  }

  lemma SortedInsert(nodes: seq<Node>, n: Node)
    requires SortedByPts(nodes)
    ensures SortedByPts(InsertAt(nodes, PlaceByPts(nodes, n.pts), n))
  {
  }

  lemma AddIsSafe(s: Observed, p: Packet, pts: int, playout: int, now: int)
    requires Safe(s)
    ensures Safe(Step(s, AddEvent(p, pts, playout, now)).value)
  {
    var b := s.buffer;
    var b' := Add(b, p, pts, playout, now).0;
    var i, k := FindTs(b.nodes, p.ts), FindTsBack(b.history, p.ts);
    if i < |b.nodes| || k > 0 || playout < now {
      assert Stamps(b'.nodes) == Stamps(b.nodes) && Stamps(b'.history) == Stamps(b.history);
      assert forall j :: 0 <= j < |b.nodes| ==> b'.nodes[j].pts == b.nodes[j].pts;
    } else {
      var n := NewNode(p, pts, playout);
      var at := PlaceByPts(b.nodes, pts);
      SortedInsert(b.nodes, n);
      StampsInsert(b.nodes, at, n);
      FreshInsert(Stamps(b.history), Stamps(b.nodes), at, p.ts);
    }
  }

  lemma PopIsSafe(s: Observed)
    requires Safe(s) && s.buffer.nodes != []
    ensures Safe(Step(s, PopEvent).value)
  {
    var b := s.buffer;
    var n := b.nodes[0];
    var b' := Pop(b).0;
    var h, l, out := Stamps(b.history), Stamps(b.nodes), Stamps(s.popped);
    assert Stamps(s.popped + [n]) == out + [n.ts];
    assert l == [n.ts] + l[1..] && Stamps(b'.nodes) == l[1..];
    PushedHistory(b.history, n);
    RecentSnoc(out, n.ts);
    assert h + [n.ts] + l[1..] == h + l;
    PushedDistinct(h, n.ts, l[1..]);
    assert n.ts !in h by {
      assert (h + l)[|h|] == n.ts;
      assert forall i :: 0 <= i < |h| ==> (h + l)[i] == h[i];
    }
    NoRepeatSnoc(out, n.ts);
  }

  lemma PushedHistory(h: seq<Node>, n: Node)
    ensures Stamps(PushHistory(h, n)) == if |h| < HISTORY then Stamps(h) + [n.ts] else Stamps(h)[1..] + [n.ts]
  {
  }

  lemma RecentSnoc(out: seq<u32>, ts: u32)
    ensures Recent(out + [ts]) == if |Recent(out)| < HISTORY then Recent(out) + [ts] else Recent(out)[1..] + [ts]
  {
  }

  lemma PushedDistinct(h: seq<u32>, ts: u32, rest: seq<u32>)
    requires Distinct(h + [ts] + rest)
    ensures h != [] ==> Distinct(h[1..] + [ts] + rest)
  {
    if h != [] {
      var a, c := h + [ts] + rest, h[1..] + [ts] + rest;
      assert c == a[1..];
    }
  }

  lemma NoRepeatSnoc(out: seq<u32>, ts: u32)
    requires NoEarlyRepeat(out) && ts !in Recent(out)
    ensures NoEarlyRepeat(out + [ts])
  {
    forall i | 0 <= i < |out| && |out| - i <= HISTORY ensures out[i] != ts {
      assert out[i] == Recent(out)[if |out| <= HISTORY then i else i - (|out| - HISTORY)];
    }
  }

  // ------------------------------------------------------------------
  // What becomes of a packet
  // ------------------------------------------------------------------

  ghost predicate HasTs(nodes: seq<Node>, ts: u32) {
    exists i :: 0 <= i < |nodes| && nodes[i].ts == ts
  }

  /** A packet that comes too late: its group was played out, or a group of its own would be. */
  ghost predicate ComesLate(b: Buffer, p: Packet, playout: int, now: int) {
    !HasTs(b.nodes, p.ts) && (HasTs(b.history, p.ts) || playout < now)
  }

  /** Some group of the timestamp takes or refuses the packet. */
  ghost predicate Takes(nodes: seq<Node>, p: Packet, ok: bool) {
    exists i :: 0 <= i < |nodes| && nodes[i].ts == p.ts && InsertPacket(nodes[i].group, p).1 == ok
  }

  /**
   * A packet opens a group exactly if neither a live nor a remembered group has its RTP
   * timestamp and its playout time has not passed, and counts as late exactly if no live
   * group has it and either a remembered one does or its playout time has passed.
   */
  lemma OutcomeExactly(b: Buffer, p: Packet, pts: int, playout: int, now: int)
    ensures var (b', o) := Add(b, p, pts, playout, now);
            && (o.Created? <==> !HasTs(b.nodes, p.ts) && !HasTs(b.history, p.ts) && now <= playout)
            && (o.Late? || o.LateDuplicate? <==> ComesLate(b, p, playout, now))
            && (o.Joined? || o.LiveDuplicate? <==> HasTs(b.nodes, p.ts))
            && (o.Joined? ==> Takes(b.nodes, p, true)) && (o.LiveDuplicate? ==> Takes(b.nodes, p, false))
            && (o.LateDuplicate? ==> Takes(b.history, p, false))
            && (o.Late? && HasTs(b.history, p.ts) ==> Takes(b.history, p, true))
            && b'.late == b.late + if ComesLate(b, p, playout, now) then 1 else 0
  {
    hide InsertPacket, InsertAt;
    var i, k := FindTs(b.nodes, p.ts), FindTsBack(b.history, p.ts);
    assert HasTs(b.nodes, p.ts) <==> i < |b.nodes|;
    assert HasTs(b.history, p.ts) <==> k > 0;
    hide FindTs, FindTsBack, HasTs;
  }

  ghost predicate FirstAt(nodes: seq<Node>, ts: u32, i: nat) {
    i < |nodes| && nodes[i].ts == ts && forall j :: 0 <= j < i ==> nodes[j].ts != ts
  }

  ghost predicate LastAt(nodes: seq<Node>, ts: u32, i: nat) {
    i < |nodes| && nodes[i].ts == ts && forall j :: i < j < |nodes| ==> nodes[j].ts != ts
  }

  /** `at` is right behind the last node with an earlier presentation time. */
  ghost predicate Behind(nodes: seq<Node>, pts: int, at: nat) {
    at <= |nodes| && (at > 0 ==> nodes[at - 1].pts < pts) && forall j :: at <= j < |nodes| ==> pts <= nodes[j].pts
  }

  /** The list after its group at `i` has taken the packet. */
  function Given(nodes: seq<Node>, i: nat, p: Packet): seq<Node>
    requires i < |nodes|
  {
    nodes[i := nodes[i].(group := InsertPacket(nodes[i].group, p).0)]
  }

  /**
   * What an add changes: the first live group of the timestamp, or else the last remembered
   * one, takes the packet; a group that is opened goes behind the last earlier one; nothing
   * else changes.
   */
  lemma AddChanges(b: Buffer, p: Packet, pts: int, playout: int, now: int)
    ensures var (b', o) := Add(b, p, pts, playout, now);
            && b'.total == b.total + 1
            && (forall i: nat :: FirstAt(b.nodes, p.ts, i) ==>
                  b'.nodes == Given(b.nodes, i, p) && b'.history == b.history)
            && (forall i: nat :: LastAt(b.history, p.ts, i) && !HasTs(b.nodes, p.ts) ==>
                  b'.nodes == b.nodes && b'.history == Given(b.history, i, p))
            && (!HasTs(b.nodes, p.ts) && !HasTs(b.history, p.ts) ==> b'.history == b.history)
            && (!HasTs(b.nodes, p.ts) && !HasTs(b.history, p.ts) && playout < now ==> b'.nodes == b.nodes)
            && (o.Created? ==> exists at: nat :: Behind(b.nodes, pts, at) &&
                                 b'.nodes == InsertAt(b.nodes, at, NewNode(p, pts, playout)))
  {
    hide InsertPacket, InsertAt, NewNode;
    var i, k := FindTs(b.nodes, p.ts), FindTsBack(b.history, p.ts);
    assert HasTs(b.nodes, p.ts) <==> i < |b.nodes|;
    assert HasTs(b.history, p.ts) <==> k > 0;
    assert forall j: nat :: FirstAt(b.nodes, p.ts, j) ==> j == i;
    assert forall j: nat :: LastAt(b.history, p.ts, j) ==> j + 1 == k;
    assert Behind(b.nodes, pts, PlaceByPts(b.nodes, pts));
    hide FindTs, FindTsBack, HasTs, FirstAt, LastAt, PlaceByPts, Behind;
  }

  /** The packets of a run that came late. */
  ghost function LatePackets(events: seq<Event>): nat {
    if events == [] then 0
    else
      var before, e := events[..|events| - 1], events[|events| - 1];
      LatePackets(before) +
      if e.AddEvent? && Run(before).Some? && ComesLate(Run(before).value.buffer, e.p, e.playout, e.now) then 1 else 0
  }

  /** In every run the late counter counts these packets. */
  lemma {:induction false} LateIsCounted(events: seq<Event>)
    requires Run(events).Some?
    ensures Run(events).value.buffer.late == LatePackets(events)
  {
    if events != [] {
      hide Add, ComesLate;
      var before := events[..|events| - 1];
      LateIsCounted(before);
      match events[|events| - 1]
      case AddEvent(p, pts, playout, now) => OutcomeExactly(Run(before).value.buffer, p, pts, playout, now);
      case PopEvent =>
    }
  }

  // ------------------------------------------------------------------
  // What is in a group
  // ------------------------------------------------------------------

  /** Ascending positions of adds in a run. */
  ghost predicate Picks(picks: seq<nat>, events: seq<Event>) {
    && (forall k :: 0 <= k < |picks| ==> picks[k] < |events| && events[picks[k]].AddEvent?)
    && forall j, k :: 0 <= j < k < |picks| ==> picks[j] < picks[k]
  }

  ghost function Picked(events: seq<Event>, picks: seq<nat>): seq<Packet>
    requires Picks(picks, events)
  {
    seq(|picks|, k requires 0 <= k < |picks| => events[picks[k]].p)
  }

  /** An add that opens the group: on time, with the group's timestamp, presentation and playout time. */
  predicate Opens(e: Event, n: Node) {
    e.AddEvent? && e.p.ts == n.ts && e.pts == n.pts && e.playout == n.playout && e.now <= e.playout
  }

  /** A group is what its own packets give, inserted in the order of the run. */
  ghost predicate BuiltFrom(n: Node, picks: seq<nat>, events: seq<Event>) {
    && picks != [] && Picks(picks, events)
    && Opens(events[picks[0]], n)
    && (forall k :: 0 <= k < |picks| ==> events[picks[k]].p.ts == n.ts)
    && n.group == Receive(Picked(events, picks))
  }

  ghost predicate Built(n: Node, events: seq<Event>) {
    exists picks :: BuiltFrom(n, picks, events)
  }

  ghost predicate AllBuilt(nodes: seq<Node>, events: seq<Event>) {
    forall i :: 0 <= i < |nodes| ==> Built(nodes[i], events)
  }

  lemma BuiltMore(n: Node, events: seq<Event>, e: Event)
    requires Built(n, events)
    ensures Built(n, events + [e])
  {
    var picks: seq<nat> :| BuiltFrom(n, picks, events);
    assert Picked(events + [e], picks) == Picked(events, picks);
    assert BuiltFrom(n, picks, events + [e]);
  }

  lemma UpdateBuilt(n: Node, events: seq<Event>, e: Event)
    requires Built(n, events) && e.AddEvent? && e.p.ts == n.ts
    ensures Built(UpdateGroup(n, e.p).0, events + [e])
  {
    hide InsertPacket;
    var picks: seq<nat> :| BuiltFrom(n, picks, events);
    var more: seq<nat>, all := picks + [|events|], events + [e];
    assert Picks(more, all);
    assert Picked(all, more)[..|picks|] == Picked(events, picks);
    assert BuiltFrom(UpdateGroup(n, e.p).0, more, all);
  }

  lemma NewBuilt(events: seq<Event>, e: Event)
    requires e.AddEvent? && e.now <= e.playout
    ensures Built(NewNode(e.p, e.pts, e.playout), events + [e])
  {
    var picks: seq<nat>, all := [|events|], events + [e];
    assert Picks(picks, all) && Picked(all, picks) == [e.p];
    assert BuiltFrom(NewNode(e.p, e.pts, e.playout), picks, all);
  }

  lemma AllBuiltMore(nodes: seq<Node>, events: seq<Event>, e: Event)
    requires AllBuilt(nodes, events)
    ensures AllBuilt(nodes, events + [e])
  {
    forall i | 0 <= i < |nodes| ensures Built(nodes[i], events + [e]) { BuiltMore(nodes[i], events, e); }
  }

  lemma AllBuiltInsert(nodes: seq<Node>, i: nat, n: Node, events: seq<Event>)
    requires i <= |nodes| && AllBuilt(nodes, events) && Built(n, events)
    ensures AllBuilt(InsertAt(nodes, i, n), events)
  {
    hide Built;
  }

  ghost predicate GroupsOk(s: Observed, events: seq<Event>) {
    AllBuilt(s.buffer.nodes, events) && AllBuilt(s.buffer.history, events) && AllBuilt(s.popped, events)
  }

  lemma GroupsOkMore(s: Observed, events: seq<Event>, e: Event)
    requires GroupsOk(s, events)
    ensures GroupsOk(s, events + [e])
  {
    AllBuiltMore(s.buffer.nodes, events, e);
    AllBuiltMore(s.buffer.history, events, e);
    AllBuiltMore(s.popped, events, e);
  }

  lemma AddBuilds(s: Observed, events: seq<Event>, e: Event)
    requires GroupsOk(s, events) && e.AddEvent?
    ensures GroupsOk(Step(s, e).value, events + [e])
  {
    hide Built, InsertPacket, InsertAt, NewNode;
    var b := s.buffer;
    GroupsOkMore(s, events, e);
    var i, k := FindTs(b.nodes, e.p.ts), FindTsBack(b.history, e.p.ts);
    if i < |b.nodes| {
      UpdateBuilt(b.nodes[i], events, e);
    } else if k > 0 {
      UpdateBuilt(b.history[k - 1], events, e);
    } else if e.now <= e.playout {
      NewBuilt(events, e);
      AllBuiltInsert(b.nodes, PlaceByPts(b.nodes, e.pts), NewNode(e.p, e.pts, e.playout), events + [e]);
    }
  }

  /**
   * In every run each group, live, remembered or popped, was opened by a packet on time, whose
   * timestamp, presentation time and playout time it carries, consists of packets of the run
   * with its own RTP timestamp, and is exactly what inserting them in turn gives.
   */
  lemma {:induction false} GroupsAreBuilt(events: seq<Event>)
    requires Run(events).Some?
    ensures GroupsOk(Run(events).value, events)
  {
    if events != [] {
      hide Built;
      var before, e := events[..|events| - 1], events[|events| - 1];
      GroupsAreBuilt(before);
      assert before + [e] == events;
      if e.AddEvent? {
        AddBuilds(Run(before).value, before, e);
      } else {
        GroupsOkMore(Run(before).value, before, e);
      }
    }
  }

  /** The sequence numbers added with one RTP timestamp. */
  function NumbersAt(events: seq<Event>, ts: u32): set<u32> {
    set e | e in events && e.AddEvent? && e.p.ts == ts :: e.p.xsn
  }

  /** So a popped group whose own numbers are compact holds them once each, in serial order. */
  lemma PoppedGroupIsOrdered(events: seq<Event>, k: nat)
    requires Run(events).Some? && k < |Run(events).value.popped|
    requires Compact(NumbersAt(events, Run(events).value.popped[k].ts))
    ensures Ordered(Run(events).value.popped[k].group)
  {
    GroupsAreBuilt(events);
    var n := Run(events).value.popped[k];
    assert Built(n, events);
    var picks: seq<nat> :| BuiltFrom(n, picks, events);
    var arrivals := Picked(events, picks);
    forall sn: u32 | sn in SnSet(arrivals) ensures sn in NumbersAt(events, n.ts) {
      var p: Packet :| p in arrivals && p.xsn == sn;
      var i :| 0 <= i < |arrivals| && arrivals[i] == p;
      assert events[picks[i]] in events;
    }
    ReceiveIsOrdered(arrivals);
  }

  lemma {:induction false} HeldConcat(a: seq<Node>, b: seq<Node>)
    ensures Held(a + b) == Held(a) + Held(b)
  {
    if a == [] {
      assert a + b == b;
    } else {
      assert (a + b)[1..] == a[1..] + b;
      HeldConcat(a[1..], b);
    }
  }

  /** Every packet is in a live group, left with a popped group, was late, or repeated one of a live group. */
  ghost predicate Conserved(s: Observed) {
    && s.buffer.total == Held(s.buffer.nodes) + Held(s.popped) + s.buffer.late + s.liveDuplicates
    && s.buffer.duplicates == s.liveDuplicates + s.historyDuplicates
    && s.historyDuplicates <= s.buffer.late
  }

  lemma AddConserves(s: Observed, p: Packet, pts: int, playout: int, now: int)
    requires Conserved(s)
    ensures Conserved(Step(s, AddEvent(p, pts, playout, now)).value)
  {
    hide InsertPacket, PlaceByPts, InsertAt;
    var b := s.buffer;
    var i := FindTs(b.nodes, p.ts);
    if i < |b.nodes| {
      HeldUpdate(b.nodes, i, UpdateGroup(b.nodes[i], p).0);
    } else {
      HeldInsert(b.nodes, PlaceByPts(b.nodes, pts), NewNode(p, pts, playout));
    }
  }

  lemma PopConserves(s: Observed)
    requires Conserved(s) && s.buffer.nodes != []
    ensures Conserved(Step(s, PopEvent).value)
  {
    var n := s.buffer.nodes[0];
    HeldConcat(s.popped, [n]);
    assert Held([n]) == |n.group.packets|;
  }

  lemma StepIsSafeAndConserves(s: Observed, e: Event)
    requires Safe(s) && Conserved(s) && Step(s, e).Some?
    ensures Safe(Step(s, e).value) && Conserved(Step(s, e).value)
  {
    match e
    case AddEvent(p, pts, playout, now) =>
      AddIsSafe(s, p, pts, playout, now);
      AddConserves(s, p, pts, playout, now);
    case PopEvent =>
      PopIsSafe(s);
      PopConserves(s);
  }

  /**
   * In every run the live list is sorted by presentation time, no RTP timestamp occurs
   * twice in the live list and the history together, and none comes back among any 151
   * consecutive popped groups; and no packet is lost from the counts.
   */
  lemma {:induction false} RunIsSafeAndConserves(events: seq<Event>)
    requires Run(events).Some?
    ensures Safe(Run(events).value) && Conserved(Run(events).value)
  {
    if events != [] {
      RunIsSafeAndConserves(events[..|events| - 1]);
      StepIsSafeAndConserves(Run(events[..|events| - 1]).value, events[|events| - 1]);
    }
  }

  // ------------------------------------------------------------------
  // Playout time across an RTCP synchronisation
  // ------------------------------------------------------------------

  /** The references of `calculatePlayoutTime`. */
  datatype Timeline = Timeline(synced: bool, firstPacket: Option<int>, firstPts: int, firstSyncedPts: Option<int>,
                               firstTs: u32, rtpDiffMs: u32)

  const NO_PACKET: Timeline := Timeline(false, None, 0, None, 0, 0)

  /** Milliseconds from the first to the first synchronised packet, computed in 32 bits. */
  function RtpDiffMs(ts: u32, firstTs: u32, freq: u32): u32
    requires freq > 0
  {
    DivAtMost((Distance(firstTs, ts) * 1000) % 0x1_0000_0000, freq);
    ((Distance(firstTs, ts) * 1000) % 0x1_0000_0000) / freq
  }

  function PlayoutTime(t: Timeline, latencyMs: u32, freq: u32, ts: u32, arrival: int, pts: int, synced: bool)
    : (Timeline, int)
    requires freq > 0
  {
    var t :=
      if !t.synced && synced then
        var firstTs := if t.firstPacket.None? then ts else t.firstTs;
        t.(synced := true, firstSyncedPts := Some(pts), firstTs := firstTs, rtpDiffMs := RtpDiffMs(ts, firstTs, freq))
      else t;
    match t.firstPacket
    case None => (t.(firstPacket := Some(arrival), firstPts := pts, firstTs := ts), arrival + 1000 * latencyMs)
    case Some(first) =>
      if t.firstSyncedPts.None? then (t, first + (pts - t.firstPts) + 1000 * latencyMs)
      else (t, first + (pts - t.firstSyncedPts.value) + 1000 * Mod32(latencyMs + t.rtpDiffMs))
  }

  /** A packet as `calculatePlayoutTime` sees it. */
  datatype Arrival = Arrival(ts: u32, at: int, pts: int, synced: bool)

  function TimelineAfter(ps: seq<Arrival>, latencyMs: u32, freq: u32): Timeline
    requires freq > 0
  {
    if ps == [] then NO_PACKET
    else
      var p := ps[|ps| - 1];
      PlayoutTime(TimelineAfter(ps[..|ps| - 1], latencyMs, freq), latencyMs, freq, p.ts, p.at, p.pts, p.synced).0
  }

  /** The playout time of packet `j` of a stream. */
  function PlayoutOf(ps: seq<Arrival>, latencyMs: u32, freq: u32, j: nat): int
    requires freq > 0 && j < |ps|
  {
    PlayoutTime(TimelineAfter(ps[..j], latencyMs, freq), latencyMs, freq, ps[j].ts, ps[j].at, ps[j].pts, ps[j].synced).1
  }

  /** `s` is the first synchronised packet, or one past the last if there is none. */
  ghost predicate SyncAt(ps: seq<Arrival>, s: nat) {
    && s <= |ps| && (s < |ps| ==> ps[s].synced)
    && forall i :: 0 <= i < s ==> !ps[i].synced
  }

  /** The references after a stream that is not empty. */
  ghost predicate Referenced(t: Timeline, ps: seq<Arrival>, s: nat, freq: u32)
    requires freq > 0 && ps != [] && SyncAt(ps, s)
  {
    && t.firstPacket == Some(ps[0].at) && t.firstPts == ps[0].pts && t.firstTs == ps[0].ts
    && t.synced == (s < |ps|)
    && (s == |ps| ==> t.firstSyncedPts == None)
    && (s < |ps| ==> t.firstSyncedPts == Some(ps[s].pts) && t.rtpDiffMs == RtpDiffMs(ps[s].ts, ps[0].ts, freq))
  }

  lemma {:induction false} TimelineIs(ps: seq<Arrival>, s: nat, latencyMs: u32, freq: u32)
    requires freq > 0 && ps != [] && SyncAt(ps, s)
    ensures Referenced(TimelineAfter(ps, latencyMs, freq), ps, s, freq)
  {
    hide RtpDiffMs;
    var n := |ps| - 1;
    if n > 0 {
      TimelineIs(ps[..n], if s == |ps| then n else s, latencyMs, freq);
    } else {
      assert ps[..0] == [];
    }
  }

  /**
   * Playout times of a whole stream, by its first packet and its first synchronised one: the
   * first is played out one latency after its arrival; up to the synchronisation the others
   * follow by presentation time from the first, and from it on from the synchronised packet,
   * offset by the milliseconds between the two.
   */
  lemma StreamPlayoutIs(ps: seq<Arrival>, s: nat, latencyMs: u32, freq: u32, j: nat)
    requires freq > 0 && j < |ps| && SyncAt(ps, s)
    ensures PlayoutOf(ps, latencyMs, freq, j)
         == if j == 0 then ps[0].at + 1000 * latencyMs
            else if j < s then ps[0].at + 1000 * latencyMs + (ps[j].pts - ps[0].pts)
            else ps[0].at + 1000 * Mod32(latencyMs + RtpDiffMs(ps[s].ts, ps[0].ts, freq)) + (ps[j].pts - ps[s].pts)
  {
    if j == 0 {
      assert ps[..0] == [];
    } else {
      hide RtpDiffMs, TimelineAfter;
      TimelineIs(ps[..j], if s < j then s else j, latencyMs, freq);
    }
  }

  /** How far the tick distance from the first packet reaches, in microseconds. */
  function ExactUs(t: Timeline, freq: u32, ts: u32): int
    requires freq > 0
  {
    Distance(t.firstTs, ts) * 1000000 / freq
  }

  lemma WrappedQuotient(a: nat, f: int)
    requires 0 < f < 0x1_0000_0000
    ensures (a % 0x1_0000_0000) / f <= a / f
    ensures (a % 0x1_0000_0000) / f == a / f <==> a < 0x1_0000_0000
  {
    var w := a % 0x1_0000_0000;
    DivMono(w, a, f);
    if a >= 0x1_0000_0000 {
      DivDrop(a, a - w, f);
    }
  }

  /** The playout time of the packet that brings the synchronisation. */
  lemma SyncedPlayoutIs(t: Timeline, latencyMs: u32, freq: u32, ts: u32, arrival: int, pts: int)
    requires freq > 0 && t.firstPacket.Some? && !t.synced && latencyMs + RtpDiffMs(ts, t.firstTs, freq) < 0x1_0000_0000
    ensures PlayoutTime(t, latencyMs, freq, ts, arrival, pts, true).1
         == t.firstPacket.value + 1000 * latencyMs + 1000 * (RtpDiffMs(ts, t.firstTs, freq) as int)
  {
    hide RtpDiffMs;
  }

  /**
   * A packet that brings the first RTCP synchronisation keeps the playout time its RTP
   * timestamp gives it on the old timeline, to within a millisecond, exactly when the tick
   * distance times 1000 fits 32 bits (47.7 seconds at 90 kHz).
   */
  lemma SyncKeepsTimelineExactly(t: Timeline, latencyMs: u32, freq: u32, ts: u32, arrival: int, pts: int)
    requires freq > 0 && t.firstPacket.Some? && !t.synced && latencyMs + RtpDiffMs(ts, t.firstTs, freq) < 0x1_0000_0000
    ensures var onOldTimeline := t.firstPacket.value + ExactUs(t, freq, ts) + 1000 * latencyMs;
            var synced := PlayoutTime(t, latencyMs, freq, ts, arrival, pts, true).1;
            0 <= onOldTimeline - synced < 1000 <==> Distance(t.firstTs, ts) * 1000 < 0x1_0000_0000
  {
    SyncedPlayoutIs(t, latencyMs, freq, ts, arrival, pts);
    OffsetExactly(t, freq, ts);
    hide PlayoutTime, RtpDiffMs, ExactUs, Distance;
  }

  lemma OffsetExactly(t: Timeline, freq: u32, ts: u32)
    requires freq > 0
    ensures 0 <= ExactUs(t, freq, ts) - 1000 * (RtpDiffMs(ts, t.firstTs, freq) as int) < 1000
       <==> Distance(t.firstTs, ts) * 1000 < 0x1_0000_0000
  {
    var a := Distance(t.firstTs, ts) * 1000;
    hide Distance;
    DivScale(a, freq);
    WrappedQuotient(a, freq);
    assert ExactUs(t, freq, ts) == (1000 * a) / freq;
  }
}
