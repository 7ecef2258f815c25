/**
 * Playout by presentation time: `PtsBasedJitterBuffer` and the timers that
 * `SvcGroupedRtpSessionManager` sets for it. Times are microseconds.
 */
module PtsPlayout {
  import opened Words
  import opened PacketGroup
  import opened PlayoutNode

  /** Reference taken from the first packet: its playout time and its presentation time. */
  datatype Reference = Reference(playout: int, pts: int)

  datatype Buffer = Buffer(nodes: seq<Node>, first: Option<Reference>, late: nat, duplicates: nat)

  datatype AddResult = AddResult(scheduled: bool, lateMs: u32, duplicate: bool)

  /** Samples this close in presentation time belong to one access unit. */
  predicate SameAccessUnit(pts: int, n: Node) {
    -2 < TotalMilliseconds(pts - n.pts) < 2
  }

  function FindAccessUnit(nodes: seq<Node>, pts: int): (i: nat)
    ensures i <= |nodes|
    ensures i < |nodes| ==> SameAccessUnit(pts, nodes[i])
    ensures forall j :: 0 <= j < i ==> !SameAccessUnit(pts, nodes[j])
  {
    if nodes == [] || SameAccessUnit(pts, nodes[0]) then 0 else 1 + FindAccessUnit(nodes[1..], pts)
  }

  /** The playout time of a packet; the first packet fixes the reference. */
  function PlayoutTime(b: Buffer, latencyMs: nat, arrival: int, pts: int): (Buffer, int) {
    match b.first
    case None =>
      var t := arrival + 1000 * latencyMs;
      (b.(first := Some(Reference(t, pts))), t)
    case Some(ref) => (b, ref.playout + (pts - ref.pts))
  }

  function InsertByPts(b: Buffer, p: Packet, pts: int, playout: int): Buffer {
    b.(nodes := InsertAt(b.nodes, PlaceByPts(b.nodes, pts), NewNode(p, pts, playout)))
  }

  /** A packet of a new access unit is taken unless its playout time has passed. */
  function AdmitOnTime(b: Buffer, p: Packet, pts: int, playout: int, now: int): (Buffer, AddResult) {
    if playout < now then
      (b.(late := b.late + 1), AddResult(false, Lateness(playout, now), false))
    else
      (InsertByPts(b, p, pts, playout), AddResult(true, 0, false))
  }

  function DoAdd(b: Buffer, p: Packet, pts: int, playout: int, now: int): (Buffer, AddResult) {
    if b.nodes != [] then
      var i := FindAccessUnit(b.nodes, pts);
      if i < |b.nodes| then
        var (g, ok) := InsertPacket(b.nodes[i].group, p);
        (b.(nodes := b.nodes[i := b.nodes[i].(group := g)],
            duplicates := if ok then b.duplicates else b.duplicates + 1),
         AddResult(false, 0, !ok))
      else AdmitOnTime(b, p, pts, playout, now)
    else if b.first.None? then (InsertByPts(b, p, pts, playout), AddResult(true, 0, false))
    else AdmitOnTime(b, p, pts, playout, now)
  }

  /** A group on its way out, its packets sorted by source port. */
  function Released(n: Node): Node {
    n.(group := n.group.(packets := SortByPort(n.group.packets)))
  }

  class PtsBasedJitterBuffer {
    const latencyMs: nat
    var nodes: seq<Node>
    var first: Option<Reference>
    var late: nat
    var duplicates: nat

    ghost function View(): Buffer
      reads this
    {
      Buffer(nodes, first, late, duplicates)
    }

    constructor (latencyMs: nat)
      ensures this.latencyMs == latencyMs && View() == Buffer([], None, 0, 0)
    {
      this.latencyMs := latencyMs;
      nodes, first, late, duplicates := [], None, 0, 0;
    }

    method CalculatePlayoutTime(arrival: int, pts: int) returns (playout: int)
      modifies this`first
      ensures (View(), playout) == PlayoutTime(old(View()), latencyMs, arrival, pts)
    {
      if first.None? {
        playout := arrival + 1000 * latencyMs;
        first := Some(Reference(playout, pts));
      } else {
        playout := first.value.playout + (pts - first.value.pts);
      }
    }

    method InsertAccordingToPts(p: Packet, pts: int, playout: int)
      modifies this`nodes
      ensures View() == InsertByPts(old(View()), p, pts, playout)
    {
      var i := |nodes|;
      while i > 0 && nodes[i - 1].pts >= pts
        invariant PlaceByPts(nodes, pts) <= i <= |nodes|
      {
        i := i - 1;
      }
      nodes := InsertAt(nodes, i, NewNode(p, pts, playout));
    }

    method DoAddRtpPacket(p: Packet, pts: int, playout: int, now: int) returns (r: AddResult)
      modifies this
      ensures (View(), r) == DoAdd(old(View()), p, pts, playout, now)
    {
      if nodes != [] {
        var i := 0;
        while i < |nodes| && !SameAccessUnit(pts, nodes[i])
          invariant i <= FindAccessUnit(nodes, pts)
        {
          i := i + 1;
        }
        if i < |nodes| {
          var (g, ok) := InsertPacket(nodes[i].group, p);
          nodes := nodes[i := nodes[i].(group := g)];
          if !ok {
            duplicates := duplicates + 1;
          }
          return AddResult(false, 0, !ok);
        }
      } else if first.None? {
        InsertAccordingToPts(p, pts, playout);
        return AddResult(true, 0, false);
      }
      if playout < now {
        late := late + 1;
        return AddResult(false, Lateness(playout, now), false);
      }
      InsertAccordingToPts(p, pts, playout);
      return AddResult(true, 0, false);
    }

    method AddRtpPacket(p: Packet, arrival: int, pts: int, now: int) returns (playout: int, r: AddResult)
      modifies this
      ensures playout == PlayoutTime(old(View()), latencyMs, arrival, pts).1
      ensures (View(), r) == DoAdd(PlayoutTime(old(View()), latencyMs, arrival, pts).0, p, pts, playout, now)
    {
      playout := CalculatePlayoutTime(arrival, pts);
      r := DoAddRtpPacket(p, pts, playout, now);
    }

    method GetNextPlayoutBufferNode() returns (n: Node)
      requires nodes != []
      modifies this`nodes
      ensures n == Released(old(nodes)[0]) && nodes == old(nodes)[1..]
    {
      n := Released(nodes[0]);
      nodes := nodes[1..];
    }
  }

  // ------------------------------------------------------------------
  // The session manager: one timer per new group, one pop per firing
  // ------------------------------------------------------------------

  /** A group handed on, with the expiry of the timer that released it. */
  datatype Delivery = Delivery(node: Node, expiry: int)

  datatype System = System(buffer: Buffer, timers: multiset<int>, delivered: seq<Delivery>, clock: int, cancelled: bool)

  datatype Event =
    | Incoming(p: Packet, arrival: int, pts: int, synchronised: bool, now: int)
    | Timeout(expiry: int, now: int)
    | Cancelled(expiry: int)

  /** The clock does not run backwards and the timer with the earliest expiry fires first, never early. */
  predicate Possible(s: System, e: Event) {
    match e
    case Incoming(_, _, _, _, now) => s.clock <= now
    case Timeout(t, now) => s.clock <= now && t <= now && t in s.timers && forall u :: u in s.timers ==> t <= u
    case Cancelled(t) => t in s.timers
  }

  /** The system after an add with the given outcome. */
  function Added(s: System, r: (Buffer, AddResult), playout: int, now: int): System {
    s.(buffer := r.0, clock := now, timers := if r.1.scheduled then s.timers + multiset{playout} else s.timers)
  }

  function TakePacket(s: System, latencyMs: nat, p: Packet, arrival: int, pts: int, now: int): System {
    var (b, playout) := PlayoutTime(s.buffer, latencyMs, arrival, pts);
    Added(s, DoAdd(b, p, pts, playout, now), playout, now)
  }

  /** One event; `None` when an assertion of the source fails. */
  function Step(s: System, latencyMs: nat, e: Event): Option<System> {
    match e
    case Incoming(p, arrival, pts, synchronised, now) =>
      Some(if synchronised then TakePacket(s, latencyMs, p, arrival, pts, now) else s.(clock := now))
    case Timeout(t, now) =>
      if s.buffer.nodes == [] || t !in s.timers then None
      else Some(System(s.buffer.(nodes := s.buffer.nodes[1..]), s.timers - multiset{t},
                       s.delivered + [Delivery(Released(s.buffer.nodes[0]), t)], now, s.cancelled))
    case Cancelled(t) =>
      if t !in s.timers then None else Some(s.(timers := s.timers - multiset{t}, cancelled := true))
  }

  /** The bytes of one media sample. */
  type MediaSample = seq<u8>

  class SvcGroupedRtpSessionManager {
    const buffer: PtsBasedJitterBuffer
    /** The depacketiser of the first RTP session. */
    const depacketise: Node -> seq<MediaSample>
    var timers: multiset<int>
    /** The media samples of each group released. */
    var outgoing: seq<seq<MediaSample>>
    ghost var released: seq<Delivery>

    ghost predicate Valid()
      reads this
    {
      |outgoing| == |released| && forall i :: 0 <= i < |outgoing| ==> outgoing[i] == depacketise(released[i].node)
    }

    constructor (latencyMs: nat, depacketise: Node -> seq<MediaSample>)
      ensures Valid() && fresh(buffer) && buffer.latencyMs == latencyMs && this.depacketise == depacketise
      ensures buffer.View() == Buffer([], None, 0, 0) && timers == multiset{} && released == []
    {
      buffer := new PtsBasedJitterBuffer(latencyMs);
      this.depacketise := depacketise;
      timers, outgoing, released := multiset{}, [], [];
    }

    ghost function View(clock: int, cancelled: bool): System
      reads this, buffer
    {
      System(buffer.View(), timers, released, clock, cancelled)
    }

    method HandleIncomingRtp(p: Packet, arrival: int, pts: int, synchronised: bool, now: int)
      requires Valid()
      modifies this`timers, buffer
      ensures Valid()
      ensures forall c, k :: Some(View(now, k))
                          == Step(old(View(c, k)), buffer.latencyMs, Incoming(p, arrival, pts, synchronised, now))
    {
      if !synchronised {
        return;
      }
      var playout, r := buffer.AddRtpPacket(p, arrival, pts, now);
      if r.scheduled {
        timers := timers + multiset{playout};
      }
    }

    method OnScheduledSampleTimeout(aborted: bool, expiry: int, now: int)
      requires Valid() && expiry in timers && (!aborted ==> buffer.nodes != [])
      modifies this, buffer
      ensures Valid()
      ensures forall c, k :: Some(View(if aborted then c else now, k || aborted))
                          == Step(old(View(c, k)), buffer.latencyMs,
                                  if aborted then Cancelled(expiry) else Timeout(expiry, now))
      ensures outgoing == old(outgoing) + if aborted then [] else [depacketise(Released(old(buffer.nodes)[0]))]
    {
      if !aborted {
        var n := buffer.GetNextPlayoutBufferNode();
        outgoing, released := outgoing + [depacketise(n)], released + [Delivery(n, expiry)];
      }
      timers := timers - multiset{expiry};
    }
  }

  // ------------------------------------------------------------------
  // Whole runs
  // ------------------------------------------------------------------

  const INITIAL: System := System(Buffer([], None, 0, 0), multiset{}, [], 0, false)

  /** The system after a run of events from the start; `None` once an assertion has failed. */
  function Run(latencyMs: nat, start: int, events: seq<Event>): Option<System> {
    if events == [] then Some(INITIAL.(clock := start))
    else match Run(latencyMs, start, events[..|events| - 1])
         case None => None
         case Some(s) => Step(s, latencyMs, events[|events| - 1])
  }

  /** Each event is possible where it happens. */
  ghost predicate Schedule(latencyMs: nat, start: int, events: seq<Event>) {
    events == [] ||
    (var before := events[..|events| - 1];
     && Schedule(latencyMs, start, before)
     && (Run(latencyMs, start, before).Some? ==> Possible(Run(latencyMs, start, before).value, events[|events| - 1])))
  }

  function Playouts(nodes: seq<Node>): seq<int> {
    seq(|nodes|, i requires 0 <= i < |nodes| => nodes[i].playout)
  }

  /** Presentation times ascend by at least 2 ms. */
  ghost predicate Spaced(nodes: seq<Node>) {
    forall i, j :: 0 <= i < j < |nodes| ==> nodes[i].pts + 2000 <= nodes[j].pts
  }

  /** The playout time is the presentation time shifted by the reference. */
  predicate OnReference(ref: Option<Reference>, n: Node) {
    ref.Some? && n.playout == ref.value.playout + (n.pts - ref.value.pts)
  }

  ghost predicate InPtsOrder(ds: seq<Delivery>) {
    forall i, j :: 0 <= i < j < |ds| ==> ds[i].node.pts <= ds[j].node.pts
  }

  ghost predicate BufferOk(s: System) {
    && (s.buffer.first.None? ==> s.buffer.nodes == [] && s.delivered == [])
    && Spaced(s.buffer.nodes)
    && (forall i :: 0 <= i < |s.buffer.nodes| ==> OnReference(s.buffer.first, s.buffer.nodes[i]))
  }

  ghost predicate TimersOk(s: System) {
    && s.timers <= multiset(Playouts(s.buffer.nodes))
    && (!s.cancelled ==> s.timers == multiset(Playouts(s.buffer.nodes)))
    && (!s.cancelled ==> forall i :: 0 <= i < |s.delivered| ==> s.delivered[i].expiry == s.delivered[i].node.playout)
  }

  ghost predicate DeliveredOk(s: System) {
    && InPtsOrder(s.delivered)
    && (forall i :: 0 <= i < |s.delivered| ==>
          OnReference(s.buffer.first, s.delivered[i].node) && s.delivered[i].node.playout <= s.clock)
    && (forall i, j :: 0 <= i < |s.delivered| && 0 <= j < |s.buffer.nodes| ==>
          s.delivered[i].node.pts <= s.buffer.nodes[j].pts)
  }

  ghost predicate Inv(s: System) {
    BufferOk(s) && TimersOk(s) && DeliveredOk(s)
  }

  lemma PlayoutsInsert(nodes: seq<Node>, i: nat, n: Node)
    requires i <= |nodes|
    ensures multiset(Playouts(InsertAt(nodes, i, n))) == multiset(Playouts(nodes)) + multiset{n.playout}
  {
    var ps := Playouts(nodes);
    assert Playouts(InsertAt(nodes, i, n)) == ps[..i] + [n.playout] + ps[i..];
    assert ps == ps[..i] + ps[i..];
  }

  lemma PlayoutsPop(nodes: seq<Node>)
    requires nodes != []
    ensures multiset(Playouts(nodes)) == multiset{nodes[0].playout} + multiset(Playouts(nodes[1..]))
  {
    assert Playouts(nodes) == [nodes[0].playout] + Playouts(nodes[1..]);
  }

  ghost predicate Apart(pts: int, nodes: seq<Node>) {
    forall j :: 0 <= j < |nodes| ==> nodes[j].pts + 2000 <= pts || pts + 2000 <= nodes[j].pts
  }

  lemma OtherUnitIsApart(pts: int, n: Node)
    requires !SameAccessUnit(pts, n)
    ensures n.pts + 2000 <= pts || pts + 2000 <= n.pts
  {
  }

  lemma NoUnitFound(pts: int, nodes: seq<Node>)
    requires FindAccessUnit(nodes, pts) == |nodes|
    ensures Apart(pts, nodes)
  {
    forall j | 0 <= j < |nodes| ensures nodes[j].pts + 2000 <= pts || pts + 2000 <= nodes[j].pts {
      OtherUnitIsApart(pts, nodes[j]);
    }
  }

  /** A node that is apart from all others keeps the list spaced. */
  lemma SpacedInsert(nodes: seq<Node>, n: Node)
    requires Spaced(nodes) && Apart(n.pts, nodes)
    ensures Spaced(InsertAt(nodes, PlaceByPts(nodes, n.pts), n))
  {
    var k := PlaceByPts(nodes, n.pts);
    forall j | 0 <= j < k ensures nodes[j].pts + 2000 <= n.pts {
      assert j < k - 1 ==> nodes[j].pts + 2000 <= nodes[k - 1].pts;
    }
    SpacedAt(nodes, k, n);
  }

  lemma SpacedAt(nodes: seq<Node>, k: nat, n: Node)
    requires Spaced(nodes) && k <= |nodes|
    requires forall j :: 0 <= j < k ==> nodes[j].pts + 2000 <= n.pts
    requires forall j :: k <= j < |nodes| ==> n.pts + 2000 <= nodes[j].pts
    ensures Spaced(InsertAt(nodes, k, n))
  {
  }

  lemma InsertDelivered(s: System, at: nat, n: Node, now: int, timers: multiset<int>)
    requires DeliveredOk(s) && s.clock <= now <= n.playout && OnReference(s.buffer.first, n)
    requires at <= |s.buffer.nodes|
    ensures DeliveredOk(s.(buffer := s.buffer.(nodes := InsertAt(s.buffer.nodes, at, n)), clock := now,
                           timers := timers))
  {
  }

  lemma InsertBuffer(s: System, at: nat, n: Node, now: int, timers: multiset<int>)
    requires BufferOk(s) && OnReference(s.buffer.first, n) && at <= |s.buffer.nodes|
    requires Spaced(InsertAt(s.buffer.nodes, at, n))
    ensures BufferOk(s.(buffer := s.buffer.(nodes := InsertAt(s.buffer.nodes, at, n)), clock := now, timers := timers))
  {
    hide Spaced;
  }

  lemma InsertKeeps(s: System, p: Packet, pts: int, playout: int, now: int)
    requires Inv(s) && s.clock <= now <= playout && OnReference(s.buffer.first, NewNode(p, pts, playout))
    requires Apart(pts, s.buffer.nodes)
    ensures Inv(s.(buffer := InsertByPts(s.buffer, p, pts, playout), clock := now,
                   timers := s.timers + multiset{playout}))
  {
    var at, n, timers := PlaceByPts(s.buffer.nodes, pts), NewNode(p, pts, playout), s.timers + multiset{playout};
    hide DeliveredOk, Spaced, Playouts, PlaceByPts, InsertAt;
    assert Spaced(s.buffer.nodes);
    SpacedInsert(s.buffer.nodes, n);
    PlayoutsInsert(s.buffer.nodes, at, n);
    InsertBuffer(s, at, n, now, timers);
    InsertDelivered(s, at, n, now, timers);
    hide BufferOk;
  }

  /** Adding a packet to a buffered group moves nothing in time. */
  lemma UpdateKeeps(s: System, i: nat, g: Group, now: int, duplicates: nat)
    requires Inv(s) && s.clock <= now && i < |s.buffer.nodes|
    ensures var nodes := s.buffer.nodes[i := s.buffer.nodes[i].(group := g)];
            Inv(s.(buffer := s.buffer.(nodes := nodes, duplicates := duplicates), clock := now))
  {
    assert Playouts(s.buffer.nodes[i := s.buffer.nodes[i].(group := g)]) == Playouts(s.buffer.nodes);
  }

  /** Fixing the reference disturbs nothing: before the first packet there is nothing to disturb. */
  lemma ReferenceKeeps(s: System, latencyMs: nat, arrival: int, pts: int, p: Packet)
    requires Inv(s)
    ensures var (b, playout) := PlayoutTime(s.buffer, latencyMs, arrival, pts);
            Inv(s.(buffer := b)) && OnReference(b.first, NewNode(p, pts, playout)) && b.nodes == s.buffer.nodes
  {
  }

  lemma LateKeeps(s: System, now: int)
    requires Inv(s) && s.clock <= now
    ensures Inv(s.(buffer := s.buffer.(late := s.buffer.late + 1), clock := now))
  {
  }

  lemma JoinKeeps(s: System, p: Packet, pts: int, playout: int, now: int)
    requires Inv(s) && s.clock <= now && FindAccessUnit(s.buffer.nodes, pts) < |s.buffer.nodes|
    ensures Inv(Added(s, DoAdd(s.buffer, p, pts, playout, now), playout, now))
  {
    var i := FindAccessUnit(s.buffer.nodes, pts);
    var (g, ok) := InsertPacket(s.buffer.nodes[i].group, p);
    UpdateKeeps(s, i, g, now, if ok then s.buffer.duplicates else s.buffer.duplicates + 1);
  }

  lemma AdmitKeeps(s: System, p: Packet, pts: int, playout: int, now: int)
    requires Inv(s) && s.clock <= now && OnReference(s.buffer.first, NewNode(p, pts, playout))
    requires FindAccessUnit(s.buffer.nodes, pts) == |s.buffer.nodes|
    ensures Inv(Added(s, AdmitOnTime(s.buffer, p, pts, playout, now), playout, now))
  {
    if now <= playout {
      NoUnitFound(pts, s.buffer.nodes);
      InsertKeeps(s, p, pts, playout, now);
    } else {
      LateKeeps(s, now);
    }
  }

  lemma DoAddKeeps(s: System, p: Packet, pts: int, playout: int, now: int)
    requires Inv(s) && s.clock <= now && OnReference(s.buffer.first, NewNode(p, pts, playout))
    ensures Inv(Added(s, DoAdd(s.buffer, p, pts, playout, now), playout, now))
  {
    if FindAccessUnit(s.buffer.nodes, pts) < |s.buffer.nodes| {
      JoinKeeps(s, p, pts, playout, now);
    } else {
      assert DoAdd(s.buffer, p, pts, playout, now) == AdmitOnTime(s.buffer, p, pts, playout, now);
      AdmitKeeps(s, p, pts, playout, now);
    }
  }

  lemma IncomingKeeps(s: System, latencyMs: nat, p: Packet, arrival: int, pts: int, now: int)
    requires Inv(s) && s.clock <= now
    ensures Inv(TakePacket(s, latencyMs, p, arrival, pts, now))
  {
    var (b, playout) := PlayoutTime(s.buffer, latencyMs, arrival, pts);
    ReferenceKeeps(s, latencyMs, arrival, pts, p);
    DoAddKeeps(s.(buffer := b), p, pts, playout, now);
  }

  /** The first node has the earliest playout time, and no other node shares it. */
  lemma FrontIsEarliest(s: System)
    requires BufferOk(s) && s.buffer.nodes != []
    ensures var ps := Playouts(s.buffer.nodes);
            && (forall t :: t in multiset(ps) ==> ps[0] <= t)
            && ps[0] !in multiset(Playouts(s.buffer.nodes[1..]))
  {
    var nodes := s.buffer.nodes;
    assert forall i :: 0 < i < |nodes| ==> nodes[0].playout < nodes[i].playout by {
      forall i | 0 < i < |nodes| ensures nodes[0].playout < nodes[i].playout {
        assert OnReference(s.buffer.first, nodes[0]) && OnReference(s.buffer.first, nodes[i]);
      }
    }
  }

  lemma TimeoutTimers(s: System, t: int)
    requires BufferOk(s) && TimersOk(s) && t in s.timers && forall u :: u in s.timers ==> t <= u
    ensures var nodes := s.buffer.nodes;
            && nodes != [] && nodes[0].playout <= t
            && s.timers - multiset{t} <= multiset(Playouts(nodes[1..]))
            && (!s.cancelled ==> t == nodes[0].playout && s.timers - multiset{t} == multiset(Playouts(nodes[1..])))
  {
    var nodes := s.buffer.nodes;
    assert t in multiset(Playouts(nodes));
    assert |Playouts(nodes)| == |nodes|;
    assert nodes != [];
    FrontIsEarliest(s);
    PlayoutsPop(nodes);
  }

  lemma TimeoutDelivered(s: System, t: int, now: int)
    requires BufferOk(s) && DeliveredOk(s) && s.clock <= now && s.buffer.nodes != [] && s.buffer.nodes[0].playout <= now
    ensures DeliveredOk(System(s.buffer.(nodes := s.buffer.nodes[1..]), s.timers - multiset{t},
                               s.delivered + [Delivery(Released(s.buffer.nodes[0]), t)], now, s.cancelled))
  {
    assert OnReference(s.buffer.first, s.buffer.nodes[0]);
  }

  lemma TimeoutBuffer(s: System, latencyMs: nat, t: int, now: int)
    requires BufferOk(s) && s.buffer.nodes != [] && t in s.timers
    ensures BufferOk(Step(s, latencyMs, Timeout(t, now)).value)
  {
  }

  lemma TimeoutKeeps(s: System, latencyMs: nat, t: int, now: int)
    requires Inv(s) && Possible(s, Timeout(t, now))
    ensures Step(s, latencyMs, Timeout(t, now)).Some?
    ensures Inv(Step(s, latencyMs, Timeout(t, now)).value)
  {
    TimeoutTimers(s, t);
    TimeoutDelivered(s, t, now);
    TimeoutBuffer(s, latencyMs, t, now);
    hide BufferOk, DeliveredOk;
  }

  lemma StepKeeps(s: System, latencyMs: nat, e: Event)
    requires Inv(s) && Possible(s, e)
    ensures Step(s, latencyMs, e).Some? && Inv(Step(s, latencyMs, e).value)
  {
    match e
    case Incoming(p, arrival, pts, _, now) => IncomingKeeps(s, latencyMs, p, arrival, pts, now);
    case Timeout(t, now) => TimeoutKeeps(s, latencyMs, t, now);
    case Cancelled(t) =>
  }

  /** No assertion ever fails and the invariant holds at the end of every run. */
  lemma {:induction false} RunKeeps(latencyMs: nat, start: int, events: seq<Event>)
    requires Schedule(latencyMs, start, events)
    ensures Run(latencyMs, start, events).Some? && Inv(Run(latencyMs, start, events).value)
  {
    if events != [] {
      var before, e := events[..|events| - 1], events[|events| - 1];
      RunKeeps(latencyMs, start, before);
      StepKeeps(Run(latencyMs, start, before).value, latencyMs, e);
    }
  }

  lemma {:induction false} CancelledOnlyByCancel(latencyMs: nat, start: int, events: seq<Event>)
    requires Run(latencyMs, start, events).Some? && forall e :: e in events ==> !e.Cancelled?
    ensures !Run(latencyMs, start, events).value.cancelled
  {
    if events != [] {
      var before := events[..|events| - 1];
      assert forall e :: e in before ==> e in events;
      CancelledOnlyByCancel(latencyMs, start, before);
      assert events[|events| - 1] in events;
    }
  }

  /**
   * Safety of a whole run: popping never meets an empty list, groups are handed on in
   * non-decreasing presentation order, buffered groups stay at least 2 ms apart, and
   * timers pending never outnumber the groups they were set for.
   */
  lemma PlayoutRunIsSafe(latencyMs: nat, start: int, events: seq<Event>)
    requires Schedule(latencyMs, start, events)
    ensures Run(latencyMs, start, events).Some?
    ensures var s := Run(latencyMs, start, events).value;
            && InPtsOrder(s.delivered)
            && Spaced(s.buffer.nodes)
            && s.timers <= multiset(Playouts(s.buffer.nodes))
  {
    RunKeeps(latencyMs, start, events);
  }

  /**
   * Until a timer is cancelled the pending expiries are exactly the playout times of the
   * buffered groups, and every group was released by the timer set for its own playout time.
   */
  lemma TimersMatchGroups(latencyMs: nat, start: int, events: seq<Event>)
    requires Schedule(latencyMs, start, events) && forall e :: e in events ==> !e.Cancelled?
    ensures Run(latencyMs, start, events).Some?
    ensures var s := Run(latencyMs, start, events).value;
            && s.timers == multiset(Playouts(s.buffer.nodes))
            && forall d :: d in s.delivered ==> d.expiry == d.node.playout
  {
    RunKeeps(latencyMs, start, events);
    CancelledOnlyByCancel(latencyMs, start, events);
  }

  // ------------------------------------------------------------------
  // Presentation times delivered once
  // ------------------------------------------------------------------

  function Times(nodes: seq<Node>): set<int> {
    set i | 0 <= i < |nodes| :: nodes[i].pts
  }

  /** Presentation times ascend strictly over the deliveries, and from these to the buffered groups. */
  ghost predicate DeliveredOnce(s: System) {
    && (forall i, j :: 0 <= i < j < |s.delivered| ==> s.delivered[i].node.pts < s.delivered[j].node.pts)
    && (forall i, t :: 0 <= i < |s.delivered| && t in Times(s.buffer.nodes) ==> s.delivered[i].node.pts < t)
  }

  /**
   * A synchronised packet of the access unit delivered last, in the very microsecond of that
   * unit's playout time, while no buffered group takes it.
   */
  predicate Reopens(s: System, e: Event) {
    && e.Incoming? && e.synchronised && s.delivered != []
    && e.pts == s.delivered[|s.delivered| - 1].node.pts
    && s.delivered[|s.delivered| - 1].node.playout == s.clock == e.now
    && FindAccessUnit(s.buffer.nodes, e.pts) == |s.buffer.nodes|
  }

  /** A packet opens a group that is not later than the last delivery exactly when it reopens that one. */
  lemma ReopensExactly(s: System, latencyMs: nat, p: Packet, arrival: int, pts: int, now: int)
    requires Inv(s) && s.clock <= now && s.delivered != []
    ensures var (b, playout) := PlayoutTime(s.buffer, latencyMs, arrival, pts);
            DoAdd(b, p, pts, playout, now).1.scheduled && pts <= s.delivered[|s.delivered| - 1].node.pts
            <==> Reopens(s, Incoming(p, arrival, pts, true, now))
  {
    hide InsertPacket, InsertAt;
    assert OnReference(s.buffer.first, s.delivered[|s.delivered| - 1].node);
  }

  lemma TimesInsert(nodes: seq<Node>, at: nat, n: Node)
    requires at <= |nodes|
    ensures Times(InsertAt(nodes, at, n)) == Times(nodes) + {n.pts}
  {
    var after := InsertAt(nodes, at, n);
    assert after[at].pts in Times(after);
    forall t | t in Times(nodes) ensures t in Times(after) {
      var k :| 0 <= k < |nodes| && nodes[k].pts == t;
      assert after[if k < at then k else k + 1] == nodes[k];
    }
    forall t | t in Times(after) ensures t in Times(nodes) + {n.pts} {
      var k :| 0 <= k < |after| && after[k].pts == t;
      assert k == at || after[k] == nodes[if k < at then k else k - 1];
    }
  }

  lemma TimesUpdate(nodes: seq<Node>, i: nat, g: Group)
    requires i < |nodes|
    ensures Times(nodes[i := nodes[i].(group := g)]) == Times(nodes)
  {
    var after := nodes[i := nodes[i].(group := g)];
    assert forall k :: 0 <= k < |nodes| ==> after[k].pts == nodes[k].pts;
  }

  /** An add buffers the presentation time of the packet exactly when it opens a group. */
  lemma AddedTimes(b: Buffer, p: Packet, pts: int, playout: int, now: int)
    ensures var (b', r) := DoAdd(b, p, pts, playout, now);
            Times(b'.nodes) == Times(b.nodes) + if r.scheduled then {pts} else {}
  {
    hide InsertPacket, InsertAt, Times;
    var i := FindAccessUnit(b.nodes, pts);
    if i < |b.nodes| {
      TimesUpdate(b.nodes, i, InsertPacket(b.nodes[i].group, p).0);
    } else {
      TimesInsert(b.nodes, PlaceByPts(b.nodes, pts), NewNode(p, pts, playout));
    }
  }

  /** With one more time buffered the deliveries stay strict exactly if the last of them is earlier. */
  lemma OnceAndOneMore(s: System, s': System, opens: bool, pts: int)
    requires InPtsOrder(s.delivered) && s'.delivered == s.delivered
    requires Times(s'.buffer.nodes) == Times(s.buffer.nodes) + if opens then {pts} else {}
    ensures DeliveredOnce(s') <==> DeliveredOnce(s) &&
                                   !(opens && s.delivered != [] && pts <= s.delivered[|s.delivered| - 1].node.pts)
  {
    hide Times;
    var ds := s.delivered;
    if ds != [] {
      assert forall i :: 0 <= i < |ds| ==> ds[i].node.pts <= ds[|ds| - 1].node.pts;
    }
  }

  lemma IncomingOnce(s: System, latencyMs: nat, p: Packet, arrival: int, pts: int, now: int)
    requires Inv(s) && s.clock <= now
    ensures DeliveredOnce(TakePacket(s, latencyMs, p, arrival, pts, now))
            <==> DeliveredOnce(s) && !Reopens(s, Incoming(p, arrival, pts, true, now))
  {
    hide DoAdd, InsertPacket, Times, DeliveredOnce;
    var (b, playout) := PlayoutTime(s.buffer, latencyMs, arrival, pts);
    AddedTimes(b, p, pts, playout, now);
    var opens := DoAdd(b, p, pts, playout, now).1.scheduled;
    OnceAndOneMore(s, TakePacket(s, latencyMs, p, arrival, pts, now), opens, pts);
    hide Inv;
    if s.delivered != [] {
      ReopensExactly(s, latencyMs, p, arrival, pts, now);
    }
  }

  lemma PopOnce(s: System, t: int, now: int)
    requires Spaced(s.buffer.nodes) && s.buffer.nodes != []
    ensures DeliveredOnce(System(s.buffer.(nodes := s.buffer.nodes[1..]), s.timers - multiset{t},
                                 s.delivered + [Delivery(Released(s.buffer.nodes[0]), t)], now, s.cancelled))
            <==> DeliveredOnce(s)
  {
    var first, rest := s.buffer.nodes[0].pts, Times(s.buffer.nodes[1..]);
    assert Times(s.buffer.nodes) == {first} + rest by {
      assert s.buffer.nodes == InsertAt(s.buffer.nodes[1..], 0, s.buffer.nodes[0]);
      TimesInsert(s.buffer.nodes[1..], 0, s.buffer.nodes[0]);
    }
    assert forall u :: u in rest ==> first < u;
    var ds := s.delivered + [Delivery(Released(s.buffer.nodes[0]), t)];
    assert ds[|s.delivered|].node.pts == first;
    hide Times;
    assert forall i :: 0 <= i < |s.delivered| ==> ds[i] == s.delivered[i];
  }

  /** One possible event keeps strict delivery, and cannot restore it, unless it reopens the last group. */
  lemma StepOnce(s: System, latencyMs: nat, e: Event)
    requires Inv(s) && Possible(s, e) && Step(s, latencyMs, e).Some?
    ensures DeliveredOnce(Step(s, latencyMs, e).value) <==> DeliveredOnce(s) && !Reopens(s, e)
  {
    match e
    case Incoming(p, arrival, pts, synchronised, now) =>
      IncomingOnce(s, latencyMs, p, arrival, pts, now);
      hide TakePacket, Inv;
    case Timeout(t, now) =>
      PopOnce(s, t, now);
      hide DeliveredOnce;
    case Cancelled(t) =>
  }

  /** The event at `i` reopens the group delivered last before it. */
  ghost predicate ReopensAt(latencyMs: nat, start: int, events: seq<Event>, i: nat)
    requires i < |events|
  {
    Run(latencyMs, start, events[..i]).Some? && Reopens(Run(latencyMs, start, events[..i]).value, events[i])
  }

  lemma LastEventOnce(latencyMs: nat, start: int, events: seq<Event>)
    requires Schedule(latencyMs, start, events) && events != []
    ensures var n := |events| - 1;
            var before, after := Run(latencyMs, start, events[..n]), Run(latencyMs, start, events);
            && before.Some? && after.Some?
            && (DeliveredOnce(after.value)
                <==> DeliveredOnce(before.value) && !ReopensAt(latencyMs, start, events, n))
  {
    hide Step, DeliveredOnce, Inv, Reopens;
    var n := |events| - 1;
    RunKeeps(latencyMs, start, events[..n]);
    RunKeeps(latencyMs, start, events);
    StepOnce(Run(latencyMs, start, events[..n]).value, latencyMs, events[n]);
  }

  ghost predicate NoneReopened(latencyMs: nat, start: int, events: seq<Event>) {
    forall i :: 0 <= i < |events| ==> !ReopensAt(latencyMs, start, events, i)
  }

  lemma NoneReopenedBut(latencyMs: nat, start: int, events: seq<Event>)
    requires events != []
    ensures var n := |events| - 1;
            NoneReopened(latencyMs, start, events)
            <==> NoneReopened(latencyMs, start, events[..n]) && !ReopensAt(latencyMs, start, events, n)
  {
    hide Run, Reopens;
    var before := events[..|events| - 1];
    forall i | 0 <= i < |before|
      ensures ReopensAt(latencyMs, start, events, i) == ReopensAt(latencyMs, start, before, i)
    {
      assert events[..i] == before[..i];
    }
  }

  /** Over every run: no presentation time is delivered twice, or again buffered, exactly if none is reopened. */
  lemma {:induction false} DeliveredOnceExactly(latencyMs: nat, start: int, events: seq<Event>)
    requires Schedule(latencyMs, start, events)
    ensures Run(latencyMs, start, events).Some?
    ensures DeliveredOnce(Run(latencyMs, start, events).value) <==> NoneReopened(latencyMs, start, events)
  {
    if events != [] {
      hide Run, DeliveredOnce, ReopensAt, NoneReopened;
      DeliveredOnceExactly(latencyMs, start, events[..|events| - 1]);
      LastEventOnce(latencyMs, start, events);
      NoneReopenedBut(latencyMs, start, events);
    }
  }

  /** The states of that run: one group in and out, and again. */
  lemma SameTimeSteps(latencyMs: nat, p: Packet, ds: seq<Delivery>, clock: int)
    requires clock <= 1000 * latencyMs
    ensures var t := 1000 * latencyMs;
            var n, ref := NewNode(p, 0, t), Some(Reference(t, 0));
            var empty := System(Buffer([], ref, 0, 0), multiset{}, ds, clock, false);
            var full := System(Buffer([n], ref, 0, 0), multiset{t}, ds, clock, false);
            && Step(empty.(buffer := Buffer([], None, 0, 0)), latencyMs, Incoming(p, 0, 0, true, clock)) == Some(full)
            && Step(empty, latencyMs, Incoming(p, 0, 0, true, clock)) == Some(full)
            && Step(full, latencyMs, Timeout(t, t))
               == Some(empty.(delivered := ds + [Delivery(Released(n), t)], clock := t))
  {
    var t := 1000 * latencyMs;
    var n := NewNode(p, 0, t);
    assert InsertAt([], 0, n) == [n] && [n][1..] == [];
    assert multiset{} + multiset{t} == multiset{t} && multiset{t} - multiset{t} == multiset{};
  }

  lemma RunOf(latencyMs: nat, events: seq<Event>, e: Event, s: System)
    requires Schedule(latencyMs, 0, events) && Run(latencyMs, 0, events) == Some(s) && Possible(s, e)
    ensures Schedule(latencyMs, 0, events + [e]) && Run(latencyMs, 0, events + [e]) == Step(s, latencyMs, e)
  {
    assert (events + [e])[..|events|] == events;
  }

  /** An arrival and the firing of its timer, once more. */
  lemma OnceMore(latencyMs: nat, p: Packet, events: seq<Event>, s: System, ds: seq<Delivery>, clock: int)
    requires clock <= 1000 * latencyMs
    requires var t := 1000 * latencyMs;
             || s == System(Buffer([], None, 0, 0), multiset{}, ds, clock, false)
             || s == System(Buffer([], Some(Reference(t, 0)), 0, 0), multiset{}, ds, clock, false)
    requires Schedule(latencyMs, 0, events) && Run(latencyMs, 0, events) == Some(s)
    ensures var t := 1000 * latencyMs;
            var more := events + [Incoming(p, 0, 0, true, clock)] + [Timeout(t, t)];
            && Schedule(latencyMs, 0, more)
            && Run(latencyMs, 0, more) == Some(System(Buffer([], Some(Reference(t, 0)), 0, 0), multiset{},
                                                      ds + [Delivery(Released(NewNode(p, 0, t)), t)], t, false))
  {
    hide Run, Schedule, Step, SortByPort;
    var t := 1000 * latencyMs;
    var e := Incoming(p, 0, 0, true, clock);
    SameTimeSteps(latencyMs, p, ds, clock);
    RunOf(latencyMs, events, e, s);
    RunOf(latencyMs, events + [e], Timeout(t, t), Run(latencyMs, 0, events + [e]).value);
  }

  /** A run from the start that delivers a presentation time twice: two packets, both on time. */
  lemma SameTimeTwice(latencyMs: nat, p: Packet)
    ensures var t := 1000 * latencyMs;
            var add, again := Incoming(p, 0, 0, true, 0), Incoming(p, 0, 0, true, t);
            var events := [add, Timeout(t, t), again, Timeout(t, t)];
            && Schedule(latencyMs, 0, events) && Run(latencyMs, 0, events).Some?
            && var ds := Run(latencyMs, 0, events).value.delivered;
               |ds| == 2 && ds[0].node.pts == ds[1].node.pts
  {
    var t := 1000 * latencyMs;
    var e0, e1, e2 := Incoming(p, 0, 0, true, 0), Timeout(t, t), Incoming(p, 0, 0, true, t);
    var once := [] + [e0] + [e1];
    assert Schedule(latencyMs, 0, []) && Run(latencyMs, 0, []) == Some(INITIAL);
    hide Run, Schedule;
    OnceMore(latencyMs, p, [], INITIAL, [], 0);
    var s := Run(latencyMs, 0, once).value;
    OnceMore(latencyMs, p, once, s, s.delivered, t);
    assert once + [e2] + [e1] == [e0, e1, e2, e1];
  }

  // ------------------------------------------------------------------
  // Which group takes a packet
  // ------------------------------------------------------------------

  /** Less than 2 ms apart, in microseconds. */
  predicate Within2ms(a: int, b: int) { -2000 < a - b < 2000 }

  /** `i` is the first group within 2 ms of the presentation time. */
  ghost predicate FirstWithin(nodes: seq<Node>, pts: int, i: nat) {
    && i < |nodes| && Within2ms(pts, nodes[i].pts)
    && forall j :: 0 <= j < i ==> !Within2ms(pts, nodes[j].pts)
  }

  ghost predicate NoneWithin(nodes: seq<Node>, pts: int) {
    forall j :: 0 <= j < |nodes| ==> !Within2ms(pts, nodes[j].pts)
  }

  lemma AccessUnitExactly(pts: int, n: Node)
    ensures SameAccessUnit(pts, n) <==> Within2ms(pts, n.pts)
  {
  }

  lemma FindAccessUnitExactly(nodes: seq<Node>, pts: int)
    ensures var i := FindAccessUnit(nodes, pts);
            if i < |nodes| then FirstWithin(nodes, pts, i) else NoneWithin(nodes, pts)
  {
    forall j | 0 <= j < |nodes| ensures SameAccessUnit(pts, nodes[j]) <==> Within2ms(pts, nodes[j].pts) {
      AccessUnitExactly(pts, nodes[j]);
    }
    hide SameAccessUnit, Within2ms;
  }

  /**
   * A packet joins the first group less than 2 ms away and changes no other. Without such a
   * group it opens one exactly if its playout time has not passed, and is late otherwise.
   */
  lemma DoAddExactly(b: Buffer, p: Packet, pts: int, playout: int, now: int)
    requires b.first.Some?
    ensures var (b', r) := DoAdd(b, p, pts, playout, now);
            && (r.scheduled <==> NoneWithin(b.nodes, pts) && now <= playout)
            && (b'.late == b.late + (if NoneWithin(b.nodes, pts) && playout < now then 1 else 0))
            && (!r.scheduled ==> |b'.nodes| == |b.nodes|)
            && (forall i :: 0 <= i < |b.nodes| && !r.scheduled ==>
                  b'.nodes[i] == if FirstWithin(b.nodes, pts, i)
                                 then b.nodes[i].(group := InsertPacket(b.nodes[i].group, p).0) else b.nodes[i])
            && (r.scheduled ==> exists at :: 0 <= at <= |b.nodes|
                                  && b'.nodes == InsertAt(b.nodes, at, NewNode(p, pts, playout)))
            && (forall i: nat :: FirstWithin(b.nodes, pts, i) ==> r.duplicate == !InsertPacket(b.nodes[i].group, p).1)
            && (NoneWithin(b.nodes, pts) ==> !r.duplicate)
            && r.lateMs == (if NoneWithin(b.nodes, pts) && playout < now then Lateness(playout, now) else 0)
  {
    hide InsertPacket, InsertAt, SameAccessUnit, Within2ms, Lateness;
    FindAccessUnitExactly(b.nodes, pts);
  }

  // ------------------------------------------------------------------
  // What is in a group
  // ------------------------------------------------------------------

  predicate IsSynchronised(e: Event) { e.Incoming? && e.synchronised }

  /** Ascending positions of synchronised packets in a run. */
  ghost predicate Picks(picks: seq<nat>, events: seq<Event>) {
    && (forall k :: 0 <= k < |picks| ==> picks[k] < |events| && IsSynchronised(events[picks[k]]))
    && forall j, k :: 0 <= j < k < |picks| ==> picks[j] < picks[k]
  }

  ghost function Picked(events: seq<Event>, picks: seq<nat>): seq<Packet>
    requires Picks(picks, events)
  {
    seq(|picks|, k requires 0 <= k < |picks| => events[picks[k]].p)
  }

  /** A group of packets within 2 ms of the one that opened it, inserted in the order of the run. */
  ghost predicate GatheredFrom(n: Node, picks: seq<nat>, events: seq<Event>) {
    && picks != [] && Picks(picks, events)
    && events[picks[0]].pts == n.pts && events[picks[0]].p.ts == n.ts
    && (forall k :: 0 <= k < |picks| ==> Within2ms(events[picks[k]].pts, n.pts))
    && n.group == Receive(Picked(events, picks))
  }

  ghost predicate Gathered(n: Node, events: seq<Event>) {
    exists picks :: GatheredFrom(n, picks, events)
  }

  ghost predicate AllGathered(nodes: seq<Node>, events: seq<Event>) {
    forall i :: 0 <= i < |nodes| ==> Gathered(nodes[i], events)
  }

  /** A delivered group: gathered in the run, then sorted by source port. */
  ghost predicate Handover(d: Node, n: Node, events: seq<Event>) {
    && Gathered(n, events)
    && d == n.(group := n.group.(packets := d.group.packets))
    && ByPort(d.group.packets) && forall port :: OfPort(d.group.packets, port) == OfPort(n.group.packets, port)
  }

  ghost predicate HandedOver(d: Node, events: seq<Event>) {
    exists n :: Handover(d, n, events)
  }

  ghost predicate AllHandedOver(ds: seq<Delivery>, events: seq<Event>) {
    forall i :: 0 <= i < |ds| ==> HandedOver(ds[i].node, events)
  }

  lemma GatheredMore(n: Node, events: seq<Event>, e: Event)
    requires Gathered(n, events)
    ensures Gathered(n, events + [e])
  {
    var picks: seq<nat> :| GatheredFrom(n, picks, events);
    assert Picked(events + [e], picks) == Picked(events, picks);
    assert GatheredFrom(n, picks, events + [e]);
  }

  lemma AllGatheredMore(nodes: seq<Node>, events: seq<Event>, e: Event)
    requires AllGathered(nodes, events)
    ensures AllGathered(nodes, events + [e])
  {
    forall i | 0 <= i < |nodes| ensures Gathered(nodes[i], events + [e]) { GatheredMore(nodes[i], events, e); }
  }

  lemma AllHandedOverMore(ds: seq<Delivery>, events: seq<Event>, e: Event)
    requires AllHandedOver(ds, events)
    ensures AllHandedOver(ds, events + [e])
  {
    hide Gathered;
    forall i | 0 <= i < |ds| ensures HandedOver(ds[i].node, events + [e]) {
      assert HandedOver(ds[i].node, events);
      var n :| Handover(ds[i].node, n, events);
      GatheredMore(n, events, e);
      assert Handover(ds[i].node, n, events + [e]);
    }
  }

  lemma GatheredJoin(n: Node, events: seq<Event>, e: Event)
    requires Gathered(n, events) && IsSynchronised(e) && Within2ms(e.pts, n.pts)
    ensures Gathered(n.(group := InsertPacket(n.group, e.p).0), events + [e])
  {
    hide InsertPacket;
    var picks: seq<nat> :| GatheredFrom(n, picks, events);
    var more: seq<nat>, all := picks + [|events|], events + [e];
    assert Picks(more, all);
    assert Picked(all, more)[..|picks|] == Picked(events, picks);
    assert GatheredFrom(n.(group := InsertPacket(n.group, e.p).0), more, all);
  }

  lemma GatheredNew(playout: int, events: seq<Event>, e: Event)
    requires IsSynchronised(e)
    ensures Gathered(NewNode(e.p, e.pts, playout), events + [e])
  {
    var picks: seq<nat>, all := [|events|], events + [e];
    assert Picks(picks, all) && Picked(all, picks) == [e.p];
    assert GatheredFrom(NewNode(e.p, e.pts, playout), picks, all);
  }

  lemma AllGatheredInsert(nodes: seq<Node>, at: nat, n: Node, events: seq<Event>)
    requires at <= |nodes| && AllGathered(nodes, events) && Gathered(n, events)
    ensures AllGathered(InsertAt(nodes, at, n), events)
  {
    hide Gathered;
  }

  lemma AddGathers(b: Buffer, playout: int, events: seq<Event>, e: Event)
    requires b.first.Some? && AllGathered(b.nodes, events) && IsSynchronised(e)
    ensures AllGathered(DoAdd(b, e.p, e.pts, playout, e.now).0.nodes, events + [e])
  {
    hide DoAdd, Gathered, InsertPacket, InsertAt, NewNode, Within2ms, NoneWithin;
    DoAddExactly(b, e.p, e.pts, playout, e.now);
    AllGatheredMore(b.nodes, events, e);
    var (b', r) := DoAdd(b, e.p, e.pts, playout, e.now);
    if r.scheduled {
      GatheredNew(playout, events, e);
      var n := NewNode(e.p, e.pts, playout);
      var at :| 0 <= at <= |b.nodes| && b'.nodes == InsertAt(b.nodes, at, n);
      AllGatheredInsert(b.nodes, at, n, events + [e]);
    } else {
      forall i | 0 <= i < |b'.nodes| ensures Gathered(b'.nodes[i], events + [e]) {
        if FirstWithin(b.nodes, e.pts, i) {
          GatheredJoin(b.nodes[i], events, e);
        }
      }
    }
  }

  lemma ReleasedIsHandover(n: Node, events: seq<Event>)
    requires Gathered(n, events)
    ensures HandedOver(Released(n), events)
  {
    SortIsStable(n.group.packets);
    assert Handover(Released(n), n, events);
  }

  lemma StepGathers(s: System, latencyMs: nat, events: seq<Event>, e: Event)
    requires Step(s, latencyMs, e).Some? && AllGathered(s.buffer.nodes, events) && AllHandedOver(s.delivered, events)
    ensures var s' := Step(s, latencyMs, e).value;
            AllGathered(s'.buffer.nodes, events + [e]) && AllHandedOver(s'.delivered, events + [e])
  {
    hide Gathered, HandedOver, SortByPort;
    AllGatheredMore(s.buffer.nodes, events, e);
    AllHandedOverMore(s.delivered, events, e);
    match e
    case Incoming(p, arrival, pts, synchronised, now) =>
      if synchronised {
        var (b, playout) := PlayoutTime(s.buffer, latencyMs, arrival, pts);
        AddGathers(b, playout, events, e);
        hide DoAdd;
      }
    case Timeout(t, now) => ReleasedIsHandover(s.buffer.nodes[0], events + [e]);
    case Cancelled(t) =>
  }

  /**
   * In every run each buffered group consists of synchronised packets of the run that arrived
   * with presentation times less than 2 ms from its own, which is that of the first of them,
   * and is what inserting them in turn gives. A delivered group is such a group in port order.
   */
  lemma {:induction false} GroupsAreGathered(latencyMs: nat, start: int, events: seq<Event>)
    requires Run(latencyMs, start, events).Some?
    ensures var s := Run(latencyMs, start, events).value;
            AllGathered(s.buffer.nodes, events) && AllHandedOver(s.delivered, events)
  {
    if events != [] {
      hide Gathered, HandedOver, Step;
      var before, e := events[..|events| - 1], events[|events| - 1];
      GroupsAreGathered(latencyMs, start, before);
      StepGathers(Run(latencyMs, start, before).value, latencyMs, before, e);
      assert before + [e] == events;
    }
  }

  // ------------------------------------------------------------------
  // The playout times of a run
  // ------------------------------------------------------------------

  /** Position of the first synchronised packet of a run, or its length. */
  function FirstSynchronised(events: seq<Event>): (i: nat)
    ensures i <= |events| && (i < |events| ==> IsSynchronised(events[i]))
    ensures forall j :: 0 <= j < i ==> !IsSynchronised(events[j])
  {
    if events == [] || IsSynchronised(events[0]) then 0 else 1 + FirstSynchronised(events[1..])
  }

  function ReferenceOf(latencyMs: nat, events: seq<Event>): Option<Reference> {
    var i := FirstSynchronised(events);
    if i == |events| then None else Some(Reference(events[i].arrival + 1000 * latencyMs, events[i].pts))
  }

  lemma FirstSynchronisedIs(events: seq<Event>, i: nat)
    requires i <= |events| && (i < |events| ==> IsSynchronised(events[i]))
    requires forall j :: 0 <= j < i ==> !IsSynchronised(events[j])
    ensures FirstSynchronised(events) == i
  {
  }

  lemma ReferenceOfMore(latencyMs: nat, events: seq<Event>, e: Event)
    ensures var before := ReferenceOf(latencyMs, events);
            ReferenceOf(latencyMs, events + [e])
            == if before.None? && IsSynchronised(e) then Some(Reference(e.arrival + 1000 * latencyMs, e.pts))
               else before
  {
    var i, all := FirstSynchronised(events), events + [e];
    assert forall j :: 0 <= j < |events| ==> all[j] == events[j];
    FirstSynchronisedIs(all, if i == |events| && !IsSynchronised(e) then |all| else i);
  }

  lemma StepReference(s: System, latencyMs: nat, e: Event)
    requires Step(s, latencyMs, e).Some?
    ensures Step(s, latencyMs, e).value.buffer.first
         == if s.buffer.first.None? && IsSynchronised(e) then Some(Reference(e.arrival + 1000 * latencyMs, e.pts))
            else s.buffer.first
  {
    hide InsertPacket, InsertAt;
  }

  /** The reference of a run is that of its first synchronised packet: arrival plus latency. */
  lemma {:induction false} ReferenceIsFirst(latencyMs: nat, start: int, events: seq<Event>)
    requires Run(latencyMs, start, events).Some?
    ensures Run(latencyMs, start, events).value.buffer.first == ReferenceOf(latencyMs, events)
  {
    if events != [] {
      var before, e := events[..|events| - 1], events[|events| - 1];
      ReferenceIsFirst(latencyMs, start, before);
      StepReference(Run(latencyMs, start, before).value, latencyMs, e);
      ReferenceOfMore(latencyMs, before, e);
      assert before + [e] == events;
      hide Step, ReferenceOf;
    }
  }

  /** The playout time a run gives to a presentation time, by its first synchronised packet. */
  predicate PlayedFrom(first: Event, latencyMs: nat, n: Node)
    requires first.Incoming?
  {
    n.playout == first.arrival + 1000 * latencyMs + (n.pts - first.pts)
  }

  /** Every group is played out as long after the first packet as it is presented, plus the latency. */
  lemma PlayoutTimesAre(latencyMs: nat, start: int, events: seq<Event>)
    requires Schedule(latencyMs, start, events)
    ensures Run(latencyMs, start, events).Some?
    ensures var s, i := Run(latencyMs, start, events).value, FirstSynchronised(events);
            && (i == |events| ==> s.buffer.nodes == [] && s.delivered == [])
            && (i < |events| ==>
                  && (forall k :: 0 <= k < |s.buffer.nodes| ==> PlayedFrom(events[i], latencyMs, s.buffer.nodes[k]))
                  && (forall k :: 0 <= k < |s.delivered| ==> PlayedFrom(events[i], latencyMs, s.delivered[k].node)))
  {
    RunKeeps(latencyMs, start, events);
    ReferenceIsFirst(latencyMs, start, events);
    var s := Run(latencyMs, start, events).value;
    hide Run, TimersOk, Spaced, InPtsOrder;
    forall k | 0 <= k < |s.buffer.nodes| ensures OnReference(s.buffer.first, s.buffer.nodes[k]) {}
    forall k | 0 <= k < |s.delivered| ensures OnReference(s.buffer.first, s.delivered[k].node) {}
  }

  // ------------------------------------------------------------------
  // Where the packets go
  // ------------------------------------------------------------------

  function Handed(ds: seq<Delivery>): nat {
    if ds == [] then 0 else Handed(ds[..|ds| - 1]) + |ds[|ds| - 1].node.group.packets|
  }

  /** Packets of a run that arrived synchronised. */
  function Synchronised(events: seq<Event>): nat {
    if events == [] then 0
    else
      var e := events[|events| - 1];
      Synchronised(events[..|events| - 1]) + if e.Incoming? && e.synchronised then 1 else 0
  }

  function Accounted(s: System): nat {
    Held(s.buffer.nodes) + Handed(s.delivered) + s.buffer.late + s.buffer.duplicates
  }

  lemma DoAddAccounts(b: Buffer, p: Packet, pts: int, playout: int, now: int)
    ensures var b' := DoAdd(b, p, pts, playout, now).0;
            Held(b'.nodes) + b'.late + b'.duplicates == Held(b.nodes) + b.late + b.duplicates + 1
  {
    hide InsertPacket, InsertAt;
    var i := FindAccessUnit(b.nodes, pts);
    if i < |b.nodes| {
      HeldUpdate(b.nodes, i, b.nodes[i].(group := InsertPacket(b.nodes[i].group, p).0));
    } else {
      HeldInsert(b.nodes, PlaceByPts(b.nodes, pts), NewNode(p, pts, playout));
    }
  }

  lemma StepAccounts(s: System, latencyMs: nat, e: Event)
    requires Step(s, latencyMs, e).Some?
    ensures Accounted(Step(s, latencyMs, e).value) == Accounted(s) + if e.Incoming? && e.synchronised then 1 else 0
  {
    match e
    case Incoming(p, arrival, pts, _, now) =>
      var (b, playout) := PlayoutTime(s.buffer, latencyMs, arrival, pts);
      DoAddAccounts(b, p, pts, playout, now);
      hide DoAdd;
    case Timeout(t, now) =>
      var ds := s.delivered + [Delivery(Released(s.buffer.nodes[0]), t)];
      assert ds[..|ds| - 1] == s.delivered;
      SortIsStable(s.buffer.nodes[0].group.packets);
    case Cancelled(t) =>
  }

  /** Every synchronised packet of a run is buffered, handed on, late or a duplicate. */
  lemma {:induction false} PacketsAreAccounted(latencyMs: nat, start: int, events: seq<Event>)
    requires Run(latencyMs, start, events).Some?
    ensures Accounted(Run(latencyMs, start, events).value) == Synchronised(events)
  {
    if events != [] {
      var before := events[..|events| - 1];
      PacketsAreAccounted(latencyMs, start, before);
      StepAccounts(Run(latencyMs, start, before).value, latencyMs, events[|events| - 1]);
      hide Step, Accounted;
    }
  }
}
