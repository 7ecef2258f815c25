/**
 * Packets that are depacketised together: `RtpPacketGroup`, which orders them by
 * extended sequence number with 32-bit wrap-around, and `CodedData`, the plain
 * sorted insert of the older playout buffer.
 */
module PacketGroup {
  import opened Words

  datatype Packet = Packet(ts: u32, xsn: u32, port: u16, payload: seq<u8>)

  /** The value of an `RtpPacketGroup`: ordered packets, duplicate set, next expected number. */
  datatype Group = Group(packets: seq<Packet>, received: set<u32>, next: u32)

  function NewGroup(p: Packet): Group {
    Group([p], {p.xsn}, Inc32(p.xsn))
  }

  function InsertAt<T>(s: seq<T>, i: nat, x: T): seq<T>
    requires i <= |s|
  {
    s[..i] + [x] + s[i..]
  }

  /** True when `sn` counts as newer than everything expected so far. */
  predicate Ahead(next: u32, sn: u32) {
    if sn > next then sn - next < TWO31 else next - sn >= TWO31
  }

  /** Number of packets kept in front of `sn` by the search from the back of the list. */
  function Place(ps: seq<Packet>, sn: u32): (i: nat)
    ensures i <= |ps|
    ensures i > 0 ==> Signed32(ps[i - 1].xsn) < Signed32(sn)
    ensures forall j :: i <= j < |ps| ==> Signed32(sn) <= Signed32(ps[j].xsn)
  {
    if ps == [] || Signed32(ps[|ps| - 1].xsn) < Signed32(sn) then |ps|
    else Place(ps[..|ps| - 1], sn)
  }

  function Append(g: Group, p: Packet): Group {
    Group(g.packets + [p], g.received + {p.xsn}, Inc32(p.xsn))
  }

  /** One insertion, with the flag the source returns (false for a duplicate). */
  function InsertPacket(g: Group, p: Packet): (r: (Group, bool))
    ensures r.1 ==> |r.0.packets| == |g.packets| + 1
    ensures !r.1 ==> r.0 == g
  {
    if p.xsn == g.next then (Append(g, p), true)
    else if p.xsn in g.received then (g, false)
    else if Ahead(g.next, p.xsn) then (Append(g, p), true)
    else (g.(packets := InsertAt(g.packets, Place(g.packets, p.xsn), p), received := g.received + {p.xsn}), true)
  }

  /** The group as the source holds it: fields updated in place. */
  class RtpPacketGroup {
    var packets: seq<Packet>
    var received: set<u32>
    var next: u32

    ghost function View(): Group
      reads this
    {
      Group(packets, received, next)
    }

    constructor (p: Packet)
      ensures View() == NewGroup(p)
    {
      packets, received, next := [p], {p.xsn}, Inc32(p.xsn);
    }

    method Insert(p: Packet) returns (ok: bool)
      modifies this
      ensures (View(), ok) == InsertPacket(old(View()), p)
    {
      var sn := p.xsn;
      if sn == next {
        packets, received, next := packets + [p], received + {sn}, Inc32(next);
        return true;
      }
      if sn in received {
        return false;
      }
      if sn > next {
        if sn - next < TWO31 {
          packets, received, next := packets + [p], received + {sn}, Inc32(sn);
        } else {
          var i := FindMapped(packets, sn - TWO31);
          PlaceIsUnique(packets, sn, i);
          packets, received := InsertAt(packets, i, p), received + {sn};
        }
      } else {
        if next - sn >= TWO31 {
          packets, received, next := packets + [p], received + {sn}, Inc32(sn);
        } else {
          var i := FindSigned(packets, sn);
          PlaceIsUnique(packets, sn, i);
          packets, received := InsertAt(packets, i, p), received + {sn};
        }
      }
      return true;
    }

    method Sort()
      modifies this`packets
      ensures packets == SortByPort(old(packets))
    {
      packets := SortByPort(packets);
    }
  }

  /** A number with its top bit flipped, as the wrap-around search maps it. */
  function Mapped(sn: u32): u32 {
    if sn < TWO31 then sn + TWO31 else sn - TWO31
  }

  /** Search from the back for a packet whose mapped number is below `mapped`. */
  method FindMapped(ps: seq<Packet>, mapped: u32) returns (i: nat)
    ensures i <= |ps|
    ensures i > 0 ==> Mapped(ps[i - 1].xsn) < mapped
    ensures forall j :: i <= j < |ps| ==> mapped <= Mapped(ps[j].xsn)
  {
    i := |ps|;
    while i > 0 && Mapped(ps[i - 1].xsn) >= mapped
      invariant i <= |ps|
      invariant forall j :: i <= j < |ps| ==> mapped <= Mapped(ps[j].xsn)
    {
      i := i - 1;
    }
  }

  /** Search from the back for a packet whose number, read as `int32_t`, is below `sn`. */
  method FindSigned(ps: seq<Packet>, sn: u32) returns (i: nat)
    ensures i <= |ps|
    ensures i > 0 ==> Signed32(ps[i - 1].xsn) < Signed32(sn)
    ensures forall j :: i <= j < |ps| ==> Signed32(sn) <= Signed32(ps[j].xsn)
  {
    i := |ps|;
    while i > 0 && Signed32(ps[i - 1].xsn) >= Signed32(sn)
      invariant i <= |ps|
      invariant forall j :: i <= j < |ps| ==> Signed32(sn) <= Signed32(ps[j].xsn)
    {
      i := i - 1;
    }
  }

  /** The back-to-front search has one possible outcome. */
  lemma PlaceIsUnique(ps: seq<Packet>, sn: u32, i: nat)
    requires i <= |ps|
    requires i > 0 ==> Signed32(ps[i - 1].xsn) < Signed32(sn)
    requires forall j :: i <= j < |ps| ==> Signed32(sn) <= Signed32(ps[j].xsn)
    ensures i == Place(ps, sn)
  {
  }

  // ------------------------------------------------------------------
  // Whole runs of arrivals
  // ------------------------------------------------------------------

  function Sns(ps: seq<Packet>): seq<u32> {
    seq(|ps|, i requires 0 <= i < |ps| => ps[i].xsn)
  }

  function SnSet(ps: seq<Packet>): set<u32> {
    set p | p in ps :: p.xsn
  }

  /** The group after all arrivals: the first creates it, the others are inserted. */
  function Receive(arrivals: seq<Packet>): Group
    requires arrivals != []
  {
    if |arrivals| == 1 then NewGroup(arrivals[0])
    else InsertPacket(Receive(arrivals[..|arrivals| - 1]), arrivals[|arrivals| - 1]).0
  }

  /** Fewer than 2^31 consecutive values that do not cross 0x7FFFFFFF to 0x80000000. */
  ghost predicate Compact(sns: set<u32>) {
    forall a, b :: a in sns && b in sns ==> Signed32(b) - Signed32(a) < TWO31 - 1
  }

  ghost predicate Ascending(ps: seq<Packet>) {
    forall i, j :: 0 <= i < j < |ps| ==> Signed32(ps[i].xsn) < Signed32(ps[j].xsn)
  }

  ghost predicate Ordered(g: Group) {
    && g.packets != []
    && Ascending(g.packets)
    && g.received == SnSet(g.packets)
    && g.next == Inc32(g.packets[|g.packets| - 1].xsn)
  }

  lemma SnSetMember(ps: seq<Packet>, i: nat)
    requires i < |ps|
    ensures ps[i].xsn in SnSet(ps)
  {
    assert ps[i] in ps;
  }

  lemma SnSetInsert(ps: seq<Packet>, i: nat, p: Packet)
    requires i <= |ps|
    ensures SnSet(InsertAt(ps, i, p)) == SnSet(ps) + {p.xsn}
  {
    var qs := InsertAt(ps, i, p);
    assert ps == ps[..i] + ps[i..];
    assert forall q :: q in qs <==> q in ps || q == p;
    assert p in qs;
  }

  /** A new number is either ahead of the whole group or behind its last packet. */
  lemma AheadIsNewest(g: Group, sn: u32)
    requires Ordered(g) && Compact(g.received + {sn}) && sn !in g.received
    ensures sn == g.next || Ahead(g.next, sn) <==> Signed32(g.packets[|g.packets| - 1].xsn) < Signed32(sn)
  {
    var last := g.packets[|g.packets| - 1].xsn;
    SnSetMember(g.packets, |g.packets| - 1);
    assert last in g.received + {sn} && sn in g.received + {sn};
  }

  /** A packet put where its neighbours allow it leaves an ascending list ascending. */
  lemma AscendingInsert(ps: seq<Packet>, i: nat, p: Packet)
    requires Ascending(ps) && i <= |ps|
    requires i > 0 ==> Signed32(ps[i - 1].xsn) < Signed32(p.xsn)
    requires i < |ps| ==> Signed32(p.xsn) < Signed32(ps[i].xsn)
    ensures Ascending(InsertAt(ps, i, p))
  {
  }

  /** An admitted packet joins the others; nothing else moves in or out. */
  lemma InsertMembers<T>(s: seq<T>, i: nat, x: T)
    requires i <= |s|
    ensures forall q :: q in InsertAt(s, i, x) <==> q in s || q == x
  {
    assert s == s[..i] + s[i..];
  }

  /** The last packet has the largest number. */
  lemma LastIsLargest(g: Group, sn: u32)
    requires Ordered(g) && sn in g.received
    ensures Signed32(sn) <= Signed32(g.packets[|g.packets| - 1].xsn)
  {
    var q :| q in g.packets && q.xsn == sn;
    var k :| 0 <= k < |g.packets| && g.packets[k] == q;
  }

  /** A number already received is refused. */
  lemma DuplicateRefused(g: Group, p: Packet)
    requires Ordered(g) && Compact(g.received) && p.xsn in g.received
    ensures InsertPacket(g, p) == (g, false)
  {
    LastIsLargest(g, p.xsn);
    SnSetMember(g.packets, |g.packets| - 1);
    hide Ascending, SnSet, Place;
  }

  /** The group with `p` put where the serial order wants it. */
  function Placed(g: Group, p: Packet): Group {
    var i := Place(g.packets, p.xsn);
    Group(InsertAt(g.packets, i, p), g.received + {p.xsn}, if i == |g.packets| then Inc32(p.xsn) else g.next)
  }

  /** A new number goes where the serial order puts it. */
  lemma NewcomerPlaced(g: Group, p: Packet)
    requires Ordered(g) && Compact(g.received + {p.xsn}) && p.xsn !in g.received
    ensures InsertPacket(g, p) == (Placed(g, p), true)
  {
    AheadIsNewest(g, p.xsn);
    assert InsertAt(g.packets, |g.packets|, p) == g.packets + [p];
  }

  lemma PlacedIsOrdered(g: Group, p: Packet)
    requires Ordered(g) && p.xsn !in g.received
    ensures Ordered(Placed(g, p))
  {
    var i := Place(g.packets, p.xsn);
    if i < |g.packets| { SnSetMember(g.packets, i); }
    AscendingInsert(g.packets, i, p);
    SnSetInsert(g.packets, i, p);
  }

  /** One arrival keeps the group ordered and admits exactly the numbers not seen before. */
  lemma InsertKeepsOrder(g: Group, p: Packet)
    requires Ordered(g) && Compact(g.received + {p.xsn})
    ensures Ordered(InsertPacket(g, p).0)
    ensures InsertPacket(g, p).0.received == g.received + {p.xsn}
    ensures InsertPacket(g, p).1 <==> p.xsn !in g.received
    ensures InsertPacket(g, p).0 == if p.xsn in g.received then g else Placed(g, p)
  {
    if p.xsn in g.received {
      DuplicateRefused(g, p);
      assert g.received == g.received + {p.xsn};
    } else {
      NewcomerPlaced(g, p);
      PlacedIsOrdered(g, p);
    }
  }

  /** Every packet of the new group was there before or is the one admitted. */
  lemma InsertOrigin(g: Group, p: Packet, q: Packet)
    requires Ordered(g) && Compact(g.received + {p.xsn}) && q in InsertPacket(g, p).0.packets
    ensures q in g.packets || (q == p && p.xsn !in g.received)
  {
    if p.xsn in g.received {
      DuplicateRefused(g, p);
    } else {
      NewcomerPlaced(g, p);
      InsertMembers(g.packets, Place(g.packets, p.xsn), p);
    }
  }

  /** The first arrival that carries number `sn`. */
  function FirstArrival(arrivals: seq<Packet>, sn: u32): (p: Packet)
    requires sn in SnSet(arrivals)
    ensures p in arrivals && p.xsn == sn
  {
    if arrivals[0].xsn == sn then arrivals[0]
    else
      assert exists q :: q in arrivals[1..] && q.xsn == sn;
      FirstArrival(arrivals[1..], sn)
  }

  lemma FirstArrivalSnoc(arrivals: seq<Packet>, p: Packet, sn: u32)
    requires sn in SnSet(arrivals)
    ensures sn in SnSet(arrivals + [p]) && FirstArrival(arrivals + [p], sn) == FirstArrival(arrivals, sn)
  {
    if arrivals[0].xsn == sn {
      assert (arrivals + [p])[0] == arrivals[0];
    } else {
      assert exists q :: q in arrivals[1..] && q.xsn == sn;
      FirstArrivalSnoc(arrivals[1..], p, sn);
      assert (arrivals + [p])[1..] == arrivals[1..] + [p];
    }
  }

  lemma FirstArrivalNew(arrivals: seq<Packet>, p: Packet)
    requires p.xsn !in SnSet(arrivals)
    ensures p.xsn in SnSet(arrivals + [p]) && FirstArrival(arrivals + [p], p.xsn) == p
  {
    assert p in arrivals + [p];
    if arrivals != [] {
      SnSetMember(arrivals, 0);
      assert (arrivals + [p])[1..] == arrivals[1..] + [p];
      FirstArrivalNew(arrivals[1..], p);
    }
  }

  lemma SnSetSnoc(arrivals: seq<Packet>, p: Packet)
    ensures SnSet(arrivals + [p]) == SnSet(arrivals) + {p.xsn}
  {
    SnSetInsert(arrivals, |arrivals|, p);
    assert InsertAt(arrivals, |arrivals|, p) == arrivals + [p];
  }

  /**
   * After any run of arrivals the group holds the received numbers once each, in
   * increasing serial order, agrees with its duplicate set and expects the successor
   * of its last packet.
   */
  lemma {:induction false} ReceiveIsOrdered(arrivals: seq<Packet>)
    requires arrivals != [] && Compact(SnSet(arrivals))
    ensures Ordered(Receive(arrivals))
    ensures Receive(arrivals).received == SnSet(arrivals)
  {
    var n := |arrivals|;
    var p := arrivals[n - 1];
    if n == 1 {
      assert arrivals == [p];
      assert SnSet(arrivals) == {p.xsn};
    } else {
      var before := arrivals[..n - 1];
      assert arrivals == before + [p];
      SnSetSnoc(before, p);
      ReceiveIsOrdered(before);
      InsertKeepsOrder(Receive(before), p);
    }
  }

  /** Of several packets with one number the group keeps the first to arrive. */
  lemma {:induction false} FirstArrivalKept(arrivals: seq<Packet>, q: Packet)
    requires arrivals != [] && Compact(SnSet(arrivals)) && q in Receive(arrivals).packets
    ensures q.xsn in SnSet(arrivals) && q == FirstArrival(arrivals, q.xsn)
  {
    var n := |arrivals|;
    var p := arrivals[n - 1];
    if n == 1 {
      assert arrivals == [p];
    } else {
      var before := arrivals[..n - 1];
      assert arrivals == before + [p];
      SnSetSnoc(before, p);
      ReceiveIsOrdered(before);
      var g := Receive(before);
      InsertOrigin(g, p, q);
      if q in g.packets {
        FirstArrivalKept(before, q);
        FirstArrivalSnoc(before, p, q.xsn);
      } else {
        FirstArrivalNew(before, p);
      }
    }
  }

  /** An ascending list is what remains below its largest number, then that number. */
  lemma AscendingSplit(a: seq<Packet>)
    requires Ascending(a) && a != []
    ensures var last := a[|a| - 1].xsn;
            && last in SnSet(a)
            && (forall sn :: sn in SnSet(a) ==> Signed32(sn) <= Signed32(last))
            && SnSet(a[..|a| - 1]) == SnSet(a) - {last}
            && Sns(a) == Sns(a[..|a| - 1]) + [last]
  {
    var m := |a| - 1;
    SnSetMember(a, m);
    SnSetSnoc(a[..m], a[m]);
    assert a == a[..m] + [a[m]];
  }

  /** Two ascending lists over the same numbers are the same list of numbers. */
  lemma {:induction false} AscendingIsUnique(a: seq<Packet>, b: seq<Packet>)
    requires Ascending(a) && Ascending(b) && SnSet(a) == SnSet(b)
    ensures Sns(a) == Sns(b)
  {
    if a == [] {
      if b != [] { SnSetMember(b, 0); }
    } else if b == [] {
      SnSetMember(a, 0);
    } else {
      AscendingSplit(a);
      AscendingSplit(b);
      assert a[|a| - 1].xsn == b[|b| - 1].xsn;
      AscendingIsUnique(a[..|a| - 1], b[..|b| - 1]);
    }
  }

  lemma OrderedIsUnique(g: Group, h: Group)
    requires Ordered(g) && Ordered(h) && g.received == h.received
    ensures Sns(g.packets) == Sns(h.packets) && g.next == h.next
  {
    AscendingIsUnique(g.packets, h.packets);
    var i := |g.packets| - 1;
    assert |Sns(g.packets)| == |Sns(h.packets)|;
    assert Sns(g.packets)[i] == Sns(h.packets)[i];
  }

  /** Arrival order does not matter: the same numbers give the same list, however they arrive. */
  lemma ArrivalOrderIrrelevant(a: seq<Packet>, b: seq<Packet>)
    requires a != [] && b != [] && SnSet(a) == SnSet(b) && Compact(SnSet(a))
    ensures Sns(Receive(a).packets) == Sns(Receive(b).packets)
    ensures Receive(a).received == Receive(b).received && Receive(a).next == Receive(b).next
  {
    ReceiveIsOrdered(a);
    ReceiveIsOrdered(b);
    OrderedIsUnique(Receive(a), Receive(b));
  }

  // ------------------------------------------------------------------
  // Exactly which sets of numbers are ordered whatever the arrival order
  // ------------------------------------------------------------------

  /** Distance from `base` up to `sn` in 32-bit serial arithmetic. */
  function Distance(base: u32, sn: u32): nat {
    if base <= sn then sn - base else sn + TWO32 - base
  }

  /** All of `sns` lies in fewer than 2^31 consecutive values from `base` on. */
  ghost predicate InWindow(base: u32, sns: set<u32>) {
    forall sn :: sn in sns ==> Distance(base, sn) < TWO31 - 1
  }

  /** Some number up to 0x7FFFFFFF is followed in the window by one from 0x80000000 on. */
  ghost predicate CrossesSignBoundary(base: u32, sns: set<u32>) {
    exists a, b :: a in sns && b in sns && Distance(base, a) < Distance(base, b) && a < TWO31 <= b
  }

  ghost predicate SerialOrder(base: u32, ps: seq<Packet>) {
    forall i, j :: 0 <= i < j < |ps| ==> Distance(base, ps[i].xsn) < Distance(base, ps[j].xsn)
  }

  lemma WindowIsCompact(base: u32, sns: set<u32>)
    requires InWindow(base, sns) && !CrossesSignBoundary(base, sns)
    ensures Compact(sns)
    ensures forall a, b :: a in sns && b in sns && Signed32(a) < Signed32(b) ==> Distance(base, a) < Distance(base, b)
  {
    forall a, b | a in sns && b in sns
      ensures Signed32(b) - Signed32(a) < TWO31 - 1
      ensures Signed32(a) < Signed32(b) ==> Distance(base, a) < Distance(base, b)
    {
      assert !(Distance(base, a) < Distance(base, b) && a < TWO31 <= b);
      assert !(Distance(base, b) < Distance(base, a) && b < TWO31 <= a);
    }
  }

  /** `p` stands somewhere in front of `q`. */
  ghost predicate Before(ps: seq<Packet>, p: Packet, q: Packet) {
    exists i, j :: 0 <= i < j < |ps| && ps[i] == p && ps[j] == q
  }

  lemma InsertAtKeepsBefore(ps: seq<Packet>, k: nat, x: Packet, p: Packet, q: Packet)
    requires k <= |ps| && Before(ps, p, q)
    ensures Before(InsertAt(ps, k, x), p, q)
  {
    var i, j :| 0 <= i < j < |ps| && ps[i] == p && ps[j] == q;
    var qs := InsertAt(ps, k, x);
    var i', j' := if i < k then i else i + 1, if j < k then j else j + 1;
    assert qs[i'] == p && qs[j'] == q;
  }

  /** Insertion never reorders the packets already there, whatever their numbers. */
  lemma InsertKeepsBefore(g: Group, x: Packet, p: Packet, q: Packet)
    requires Before(g.packets, p, q)
    ensures Before(InsertPacket(g, x).0.packets, p, q)
  {
    InsertAtKeepsBefore(g.packets, Place(g.packets, x.xsn), x, p, q);
    InsertAtKeepsBefore(g.packets, |g.packets|, x, p, q);
    assert InsertAt(g.packets, |g.packets|, x) == g.packets + [x];
  }

  lemma {:induction false} ReceiveKeepsBefore(arrivals: seq<Packet>, more: seq<Packet>, p: Packet, q: Packet)
    requires arrivals != [] && Before(Receive(arrivals).packets, p, q)
    ensures Before(Receive(arrivals + more).packets, p, q)
  {
    hide InsertPacket, Before, NewGroup;
    var n := |more|;
    if n == 0 {
      assert arrivals + more == arrivals;
    } else {
      ReceiveKeepsBefore(arrivals, more[..n - 1], p, q);
      var all := arrivals + more;
      assert all[..|all| - 1] == arrivals + more[..n - 1];
      InsertKeepsBefore(Receive(arrivals + more[..n - 1]), more[n - 1], p, q);
    }
  }

  /** A number from before the sign boundary that arrives after one from behind it is misplaced. */
  lemma MisplacedPair(p: Packet, q: Packet, base: u32)
    requires p.xsn < TWO31 <= q.xsn && Distance(base, p.xsn) < Distance(base, q.xsn) < TWO31 - 1
    ensures Receive([q, p]).packets == [q, p]
    ensures Before(Receive([q, p]).packets, q, p)
  {
    assert [q, p][..1] == [q];
    var g := NewGroup(q);
    assert Receive([q, p]) == InsertPacket(g, p).0;
    assert g.next == q.xsn + 1;
    assert Place([q], p.xsn) == 1;
    assert InsertAt([q], 1, p) == [q, p];
    assert [q, p][0] == q && [q, p][1] == p;
  }

  function SomePacket(sn: u32): Packet { Packet(0, sn, 0, []) }

  lemma {:induction false} SomeArrivals(sns: set<u32>) returns (ps: seq<Packet>)
    ensures SnSet(ps) == sns
  {
    ps := [];
    var rest := sns;
    while rest != {}
      invariant rest <= sns && SnSet(ps) == sns - rest
      decreases rest
    {
      var sn :| sn in rest;
      SnSetSnoc(ps, SomePacket(sn));
      ps, rest := ps + [SomePacket(sn)], rest - {sn};
    }
  }

  lemma SnSetConcat(a: seq<Packet>, b: seq<Packet>)
    ensures SnSet(a + b) == SnSet(a) + SnSet(b)
  {
  }

  ghost predicate AlwaysInOrder(base: u32, sns: set<u32>) {
    forall arrivals: seq<Packet> :: arrivals != [] && SnSet(arrivals) == sns ==>
                                      SerialOrder(base, Receive(arrivals).packets)
  }

  lemma BeforeBreaksOrder(base: u32, ps: seq<Packet>, p: Packet, q: Packet)
    requires Before(ps, q, p) && Distance(base, p.xsn) < Distance(base, q.xsn)
    ensures !SerialOrder(base, ps)
  {
  }

  /** A pair in front of arrivals that already hold its numbers adds none. */
  lemma PairInFront(p: Packet, q: Packet, rest: seq<Packet>)
    requires p.xsn in SnSet(rest) && q.xsn in SnSet(rest)
    ensures SnSet([q, p] + rest) == SnSet(rest)
  {
    SnSetConcat([q, p], rest);
    assert SnSet([q, p]) == {q.xsn, p.xsn};
  }

  lemma CrossingMisorders(base: u32, sns: set<u32>)
    requires InWindow(base, sns) && CrossesSignBoundary(base, sns)
    ensures !AlwaysInOrder(base, sns)
  {
    var a, b :| a in sns && b in sns && Distance(base, a) < Distance(base, b) && a < TWO31 <= b;
    var p, q := SomePacket(a), SomePacket(b);
    var rest := SomeArrivals(sns);
    MisplacedPair(p, q, base);
    ReceiveKeepsBefore([q, p], rest, q, p);
    var arrivals := [q, p] + rest;
    BeforeBreaksOrder(base, Receive(arrivals).packets, p, q);
    PairInFront(p, q, rest);
    hide InsertPacket, Receive, NewGroup, SnSet, Before, SerialOrder;
  }

  lemma OrderedWithoutCrossing(base: u32, arrivals: seq<Packet>)
    requires arrivals != [] && InWindow(base, SnSet(arrivals)) && !CrossesSignBoundary(base, SnSet(arrivals))
    ensures SerialOrder(base, Receive(arrivals).packets)
  {
    WindowIsCompact(base, SnSet(arrivals));
    ReceiveIsOrdered(arrivals);
    var ps := Receive(arrivals).packets;
    forall i, j | 0 <= i < j < |ps|
      ensures Distance(base, ps[i].xsn) < Distance(base, ps[j].xsn)
    {
      SnSetMember(ps, i);
      SnSetMember(ps, j);
    }
  }

  /**
   * Exact scope of the ordering promise: numbers from fewer than 2^31 consecutive values
   * come out in serial order for every arrival order exactly when they do not cross
   * from 0x7FFFFFFF to 0x80000000. Crossing from 0xFFFFFFFF to 0 is harmless.
   */
  lemma OrderedExactly(base: u32, sns: set<u32>)
    requires InWindow(base, sns)
    ensures AlwaysInOrder(base, sns) <==> !CrossesSignBoundary(base, sns)
  {
    if CrossesSignBoundary(base, sns) {
      CrossingMisorders(base, sns);
    } else {
      forall arrivals: seq<Packet> | arrivals != [] && SnSet(arrivals) == sns
        ensures SerialOrder(base, Receive(arrivals).packets)
      {
        OrderedWithoutCrossing(base, arrivals);
      }
    }
  }

  // ------------------------------------------------------------------
  // CodedData
  // ------------------------------------------------------------------

  type PacketData = (u32, seq<u8>)

  /** The search of `CodedData::insert`: packets in front of the insertion point. */
  function PlaceData(data: seq<PacketData>, sn: u32): (i: nat)
    ensures i <= |data|
    ensures i > 0 ==> data[i - 1].0 <= sn
    ensures forall j :: i <= j < |data| ==> sn < data[j].0
  {
    if data == [] || data[|data| - 1].0 <= sn then |data| else PlaceData(data[..|data| - 1], sn)
  }

  function InsertData(data: seq<PacketData>, sn: u32, payload: seq<u8>): (seq<PacketData>, bool) {
    var i := PlaceData(data, sn);
    if i > 0 && data[i - 1].0 == sn then (data, false) else (InsertAt(data, i, (sn, payload)), true)
  }

  class CodedData {
    var data: seq<PacketData>

    constructor ()
      ensures data == []
    {
      data := [];
    }

    method Insert(sn: u32, payload: seq<u8>) returns (ok: bool)
      modifies this
      ensures (data, ok) == InsertData(old(data), sn, payload)
    {
      var i := |data|;
      while i > 0 && data[i - 1].0 > sn
        invariant 0 <= i <= |data|
        invariant PlaceData(data, sn) <= i
        invariant forall j :: i <= j < |data| ==> sn < data[j].0
      {
        i := i - 1;
      }
      assert i == PlaceData(data, sn);
      if i > 0 && data[i - 1].0 == sn {
        return false;
      }
      data := InsertAt(data, i, (sn, payload));
      return true;
    }
  }

  /** What the older buffer stores for a list of packets. */
  function Stored(ps: seq<Packet>): seq<PacketData> {
    seq(|ps|, i requires 0 <= i < |ps| => (ps[i].xsn, ps[i].payload))
  }

  /** The list and the flag of each insert, in arrival order, from the plain insert. */
  function CollectPlain(arrivals: seq<Packet>): (seq<PacketData>, seq<bool>) {
    if arrivals == [] then ([], [])
    else
      var (data, flags) := CollectPlain(arrivals[..|arrivals| - 1]);
      var p := arrivals[|arrivals| - 1];
      var (data', ok) := InsertData(data, p.xsn, p.payload);
      (data', flags + [ok])
  }

  /** The flag of each insert into the group; the packet that creates it counts as taken. */
  function GroupFlags(arrivals: seq<Packet>): seq<bool>
    requires arrivals != []
  {
    if |arrivals| == 1 then [true]
    else
      var before := arrivals[..|arrivals| - 1];
      GroupFlags(before) + [InsertPacket(Receive(before), arrivals[|arrivals| - 1]).1]
  }

  lemma StoredAt(ps: seq<Packet>, i: nat, p: Packet)
    requires i <= |ps|
    ensures InsertAt(Stored(ps), i, (p.xsn, p.payload)) == Stored(InsertAt(ps, i, p))
  {
  }

  lemma PlainRefusesDuplicate(ps: seq<Packet>, k: nat, payload: seq<u8>)
    requires Ascending(ps) && k < |ps| && forall q :: q in ps ==> q.xsn < TWO31
    ensures InsertData(Stored(ps), ps[k].xsn, payload) == (Stored(ps), false)
  {
    var data := Stored(ps);
    assert forall j :: 0 <= j < |ps| ==> ps[j] in ps && data[j].0 == ps[j].xsn;
    assert PlaceData(data, ps[k].xsn) == k + 1;
  }

  lemma PlainPlacesNewcomer(ps: seq<Packet>, p: Packet)
    requires Ascending(ps) && p.xsn < TWO31 && forall q :: q in ps ==> q.xsn < TWO31 && q.xsn != p.xsn
    ensures InsertData(Stored(ps), p.xsn, p.payload) == (Stored(InsertAt(ps, Place(ps, p.xsn), p)), true)
  {
    var data := Stored(ps);
    var i := PlaceData(data, p.xsn);
    assert forall j :: 0 <= j < |ps| ==> ps[j] in ps && data[j].0 == ps[j].xsn;
    PlaceIsUnique(ps, p.xsn, i);
    StoredAt(ps, i, p);
  }

  lemma PlainStep(g: Group, p: Packet)
    requires Ordered(g) && p.xsn < TWO31 && forall q :: q in g.packets ==> q.xsn < TWO31
    ensures InsertData(Stored(g.packets), p.xsn, p.payload)
         == if p.xsn in g.received then (Stored(g.packets), false) else (Stored(Placed(g, p).packets), true)
  {
    if p.xsn in g.received {
      var q :| q in g.packets && q.xsn == p.xsn;
      var k :| 0 <= k < |g.packets| && g.packets[k] == q;
      PlainRefusesDuplicate(g.packets, k, p.payload);
    } else {
      PlainPlacesNewcomer(g.packets, p);
    }
  }

  lemma PlainFirst(p: Packet)
    ensures CollectPlain([p]) == (Stored([p]), [true])
  {
    assert [p][..0] == [];
    assert Stored([]) == [] && InsertAt([], 0, p) == [p];
    StoredAt([], 0, p);
    assert CollectPlain([]).1 + [true] == [true];
  }

  /** One insert below 2^31 - 1, both ways. */
  lemma RefineStep(g: Group, p: Packet)
    requires Ordered(g) && Compact(g.received + {p.xsn})
    requires p.xsn < TWO31 && forall sn :: sn in g.received ==> sn < TWO31
    ensures InsertData(Stored(g.packets), p.xsn, p.payload)
         == (Stored(InsertPacket(g, p).0.packets), InsertPacket(g, p).1)
  {
    InsertKeepsOrder(g, p);
    assert forall q :: q in g.packets ==> q.xsn in g.received;
    PlainStep(g, p);
    hide InsertData, InsertPacket, Stored, Placed;
  }

  lemma SmallIsCompact(arrivals: seq<Packet>)
    requires forall p :: p in arrivals ==> p.xsn < TWO31 - 1
    ensures Compact(SnSet(arrivals)) && forall sn :: sn in SnSet(arrivals) ==> sn < TWO31 - 1
  {
  }

  /** Below 2^31 - 1 the wrap-aware insert does what the plain sorted insert does. */
  lemma {:induction false} GroupRefinesPlainInsert(arrivals: seq<Packet>)
    requires arrivals != [] && forall p :: p in arrivals ==> p.xsn < TWO31 - 1
    ensures CollectPlain(arrivals) == (Stored(Receive(arrivals).packets), GroupFlags(arrivals))
  {
    var n := |arrivals|;
    var before, p := arrivals[..n - 1], arrivals[n - 1];
    if n == 1 {
      assert arrivals == [p];
      PlainFirst(p);
    } else {
      assert arrivals == before + [p];
      SmallIsCompact(arrivals);
      SmallIsCompact(before);
      SnSetSnoc(before, p);
      GroupRefinesPlainInsert(before);
      ReceiveIsOrdered(before);
      RefineStep(Receive(before), p);
      hide InsertData, InsertPacket, Stored, Ordered, SnSet, Compact;
    }
  }

  // ------------------------------------------------------------------
  // Sorting a released group by source port
  // ------------------------------------------------------------------

  /** Packets in front of a new one of the given port. */
  function PlaceByPort(ps: seq<Packet>, port: u16): (i: nat)
    ensures i <= |ps|
    ensures i > 0 ==> ps[i - 1].port <= port
    ensures forall j :: i <= j < |ps| ==> port < ps[j].port
  {
    if ps == [] || ps[|ps| - 1].port <= port then |ps| else PlaceByPort(ps[..|ps| - 1], port)
  }

  /** The stable sort of `std::list`; which algorithm does it makes no difference (`StableSortIsUnique`). */
  function SortByPort(ps: seq<Packet>): seq<Packet> {
    if ps == [] then []
    else
      var sorted := SortByPort(ps[..|ps| - 1]);
      InsertAt(sorted, PlaceByPort(sorted, ps[|ps| - 1].port), ps[|ps| - 1])
  }

  ghost predicate ByPort(ps: seq<Packet>) {
    forall i, j :: 0 <= i < j < |ps| ==> ps[i].port <= ps[j].port
  }

  /** The packets of one source port, in order. */
  function OfPort(ps: seq<Packet>, port: u16): seq<Packet> {
    if ps == [] then [] else (if ps[0].port == port then [ps[0]] else []) + OfPort(ps[1..], port)
  }

  lemma {:induction false} OfPortConcat(a: seq<Packet>, b: seq<Packet>, port: u16)
    ensures OfPort(a + b, port) == OfPort(a, port) + OfPort(b, port)
  {
    if a == [] {
      assert a + b == b;
    } else {
      assert (a + b)[1..] == a[1..] + b;
      OfPortConcat(a[1..], b, port);
    }
  }

  lemma {:induction false} OfPortNone(ps: seq<Packet>, port: u16)
    requires forall i :: 0 <= i < |ps| ==> ps[i].port != port
    ensures OfPort(ps, port) == []
  {
    if ps != [] {
      OfPortNone(ps[1..], port);
    }
  }

  lemma OfPortOne(p: Packet, port: u16)
    ensures OfPort([p], port) == if p.port == port then [p] else []
  {
    assert [p][1..] == [];
  }

  lemma OfPortInsertAt(ps: seq<Packet>, i: nat, p: Packet, port: u16)
    requires i <= |ps|
    ensures OfPort(InsertAt(ps, i, p), port) == OfPort(ps[..i], port) + OfPort([p], port) + OfPort(ps[i..], port)
    ensures OfPort(ps, port) == OfPort(ps[..i], port) + OfPort(ps[i..], port)
  {
    hide OfPort;
    assert ps == ps[..i] + ps[i..];
    OfPortConcat(ps[..i] + [p], ps[i..], port);
    OfPortConcat(ps[..i], [p], port);
    OfPortConcat(ps[..i], ps[i..], port);
  }

  lemma OfPortInsert(ps: seq<Packet>, p: Packet, port: u16)
    ensures OfPort(InsertAt(ps, PlaceByPort(ps, p.port), p), port)
         == OfPort(ps, port) + if p.port == port then [p] else []
  {
    hide OfPort, InsertAt;
    var i := PlaceByPort(ps, p.port);
    OfPortInsertAt(ps, i, p, port);
    OfPortOne(p, port);
    if p.port == port {
      OfPortNone(ps[i..], port);
    }
  }

  lemma ByPortInsert(ps: seq<Packet>, p: Packet)
    requires ByPort(ps)
    ensures ByPort(InsertAt(ps, PlaceByPort(ps, p.port), p))
  {
    var i := PlaceByPort(ps, p.port);
    assert i > 0 ==> forall j :: 0 <= j < i ==> ps[j].port <= ps[i - 1].port;
  }

  lemma InsertAtContents<T>(s: seq<T>, i: nat, x: T)
    requires i <= |s|
    ensures multiset(InsertAt(s, i, x)) == multiset(s + [x])
  {
    assert s == s[..i] + s[i..];
  }

  lemma {:induction false} SortKeepsPort(ps: seq<Packet>, port: u16)
    ensures OfPort(SortByPort(ps), port) == OfPort(ps, port)
  {
    if ps != [] {
      var before, p := ps[..|ps| - 1], ps[|ps| - 1];
      assert ps == before + [p];
      SortKeepsPort(before, port);
      hide OfPort;
      OfPortInsert(SortByPort(before), p, port);
      OfPortConcat(before, [p], port);
      OfPortOne(p, port);
    }
  }

  lemma {:induction false} SortIsByPort(ps: seq<Packet>)
    ensures ByPort(SortByPort(ps)) && |SortByPort(ps)| == |ps| && multiset(SortByPort(ps)) == multiset(ps)
  {
    if ps != [] {
      var before, p := ps[..|ps| - 1], ps[|ps| - 1];
      assert ps == before + [p];
      var sorted := SortByPort(before);
      SortIsByPort(before);
      ByPortInsert(sorted, p);
      InsertAtContents(sorted, PlaceByPort(sorted, p.port), p);
    }
  }

  /** Sorting orders by port, loses nothing and keeps the order within each port. */
  lemma SortIsStable(ps: seq<Packet>)
    ensures ByPort(SortByPort(ps)) && |SortByPort(ps)| == |ps|
    ensures multiset(SortByPort(ps)) == multiset(ps)
    ensures forall port :: OfPort(SortByPort(ps), port) == OfPort(ps, port)
  {
    SortIsByPort(ps);
    forall port {
      SortKeepsPort(ps, port);
    }
  }

  lemma {:induction false} OfPortMember(ps: seq<Packet>, k: nat)
    requires k < |ps|
    ensures OfPort(ps, ps[k].port) != []
  {
    if k > 0 {
      OfPortMember(ps[1..], k - 1);
    }
  }

  lemma {:induction false} OfPortFrom(ps: seq<Packet>, port: u16)
    requires OfPort(ps, port) != []
    ensures exists k :: 0 <= k < |ps| && ps[k].port == port
  {
    if forall k :: 0 <= k < |ps| ==> ps[k].port != port {
      OfPortNone(ps, port);
    }
  }

  lemma SameFirst(a: seq<Packet>, b: seq<Packet>)
    requires ByPort(a) && ByPort(b) && a != [] && b != []
    requires forall port :: OfPort(a, port) == OfPort(b, port)
    ensures a[0] == b[0]
  {
    OfPortMember(a, 0);
    OfPortFrom(b, a[0].port);
    OfPortMember(b, 0);
    OfPortFrom(a, b[0].port);
    assert a[0].port == b[0].port;
    assert OfPort(a, a[0].port)[0] == a[0] && OfPort(b, a[0].port)[0] == b[0];
  }

  /** Port order and the order within each port determine the list. */
  lemma {:induction false} StableSortIsUnique(a: seq<Packet>, b: seq<Packet>)
    requires ByPort(a) && ByPort(b) && forall port :: OfPort(a, port) == OfPort(b, port)
    ensures a == b
  {
    if a == [] {
      if b != [] {
        OfPortMember(b, 0);
      }
    } else if b == [] {
      OfPortMember(a, 0);
    } else {
      SameFirst(a, b);
      forall port ensures OfPort(a[1..], port) == OfPort(b[1..], port) {
        assert OfPort(a, port) == OfPort(b, port);
        var first := if a[0].port == port then [a[0]] else [];
        assert OfPort(a, port) == first + OfPort(a[1..], port) && OfPort(b, port) == first + OfPort(b[1..], port);
        assert OfPort(a[1..], port) == OfPort(a, port)[|first|..];
        assert OfPort(b[1..], port) == OfPort(b, port)[|first|..];
      }
      StableSortIsUnique(a[1..], b[1..]);
      assert a == [a[0]] + a[1..] && b == [b[0]] + b[1..];
    }
  }
}
