/**
 * `TransmissionManager` in circular mode: a queue of 30 sequence numbers and a map of the
 * packets kept for retransmission. Packets carry no multipath subflow header.
 */
module RetransmissionStore {
  import opened Words

  datatype Packet = Packet(payloadType: u8, sn: u16, payload: seq<u8>)

  datatype Store = Store(queue: seq<u16>, sent: map<u16, Packet>)

  const CAPACITY: nat := 30

  /** The deque is constructed with 30 elements, all zero. */
  function Initial(): Store {
    Store(seq(30, i => 0), map[])
  }

  /** `std::map::insert`: an entry that exists is kept. */
  function Insert(m: map<u16, Packet>, p: Packet): map<u16, Packet> {
    if p.sn in m then m else m[p.sn := p]
  }

  /** Storing one packet; the oldest number leaves the queue and the map. */
  function Stored(s: Store, p: Packet): Store {
    var q, m := s.queue + [p.sn], Insert(s.sent, p);
    if |q| > CAPACITY then Store(q[1..], m - {q[0]}) else Store(q, m)
  }

  /** Retransmissions are not stored again. */
  function Offered(s: Store, rtxPayloadType: u8, p: Packet): Store {
    if p.payloadType == rtxPayloadType then s else Stored(s, p)
  }

  class TransmissionManager {
    const rtxPayloadType: u8
    var queue: seq<u16>
    var sent: map<u16, Packet>

    ghost function View(): Store
      reads this
    {
      Store(queue, sent)
    }

    constructor (rtxPayloadType: u8)
      ensures this.rtxPayloadType == rtxPayloadType && View() == Initial()
    {
      this.rtxPayloadType := rtxPayloadType;
      queue, sent := seq(30, i => 0), map[];
    }

    method StorePacketForRetransmission(p: Packet)
      modifies this
      ensures View() == Offered(old(View()), rtxPayloadType, p)
    {
      if p.payloadType != rtxPayloadType {
        queue := queue + [p.sn];
        InsertPacketIntoTxBuffer(p);
        if |queue| > CAPACITY {
          var oldest := queue[0];
          queue := queue[1..];
          RemovePacketFromTxBuffer(oldest);
        }
      }
    }

    method InsertPacketIntoTxBuffer(p: Packet)
      modifies this`sent
      ensures sent == Insert(old(sent), p)
    {
      if p.sn !in sent {
        sent := sent[p.sn := p];
      }
    }

    method RemovePacketFromTxBuffer(sn: u16)
      modifies this`sent
      ensures sent == old(sent) - {sn}
    {
      sent := sent - {sn};
    }

    /** The stored packet that a retransmission is generated from, if it is still there. */
    method GenerateRetransmissionPacket(sn: u16) returns (r: Option<Packet>)
      ensures r == if sn in sent then Some(sent[sn]) else None
    {
      r := None;
      if sn in sent {
        r := Some(sent[sn]);
      }
    }
  }

  // ------------------------------------------------------------------
  // Whole runs
  // ------------------------------------------------------------------

  function Run(ps: seq<Packet>): Store {
    if ps == [] then Initial() else Stored(Run(ps[..|ps| - 1]), ps[|ps| - 1])
  }

  function OfferAll(rtxPayloadType: u8, ps: seq<Packet>): Store {
    if ps == [] then Initial() else Offered(OfferAll(rtxPayloadType, ps[..|ps| - 1]), rtxPayloadType, ps[|ps| - 1])
  }

  /** The packets of a run that are not retransmissions. */
  function Originals(rtxPayloadType: u8, ps: seq<Packet>): seq<Packet> {
    if ps == [] then []
    else
      (if ps[0].payloadType != rtxPayloadType then [ps[0]] else []) + Originals(rtxPayloadType, ps[1..])
  }

  lemma {:induction false} OriginalsMore(rtxPayloadType: u8, ps: seq<Packet>, p: Packet)
    ensures Originals(rtxPayloadType, ps + [p])
         == Originals(rtxPayloadType, ps) + if p.payloadType != rtxPayloadType then [p] else []
  {
    if ps == [] {
      assert [p][1..] == [];
    } else {
      assert (ps + [p])[1..] == ps[1..] + [p];
      OriginalsMore(rtxPayloadType, ps[1..], p);
    }
  }

  lemma RunMore(ps: seq<Packet>, p: Packet)
    ensures Run(ps + [p]) == Stored(Run(ps), p)
  {
    assert (ps + [p])[..|ps|] == ps;
  }

  /** Offering any packets stores exactly those that are not retransmissions, in order. */
  lemma {:induction false} OffersStoreOriginals(rtxPayloadType: u8, ps: seq<Packet>)
    ensures OfferAll(rtxPayloadType, ps) == Run(Originals(rtxPayloadType, ps))
  {
    if ps != [] {
      var before, p := ps[..|ps| - 1], ps[|ps| - 1];
      assert ps == before + [p];
      hide Originals, Stored, Run;
      OffersStoreOriginals(rtxPayloadType, before);
      OriginalsMore(rtxPayloadType, before, p);
      var kept := Originals(rtxPayloadType, before);
      RunMore(kept, p);
      assert kept + [] == kept;
    }
  }

  /** After every run the queue holds exactly 30 numbers and every packet kept is in it. */
  lemma {:induction false} QueueInStep(ps: seq<Packet>)
    ensures |Run(ps).queue| == CAPACITY && forall sn :: sn in Run(ps).sent ==> sn in Run(ps).queue
  {
    if ps != [] {
      var p := ps[|ps| - 1];
      QueueInStep(ps[..|ps| - 1]);
      var s := Run(ps[..|ps| - 1]);
      var q := s.queue + [p.sn];
      assert q == [q[0]] + q[1..];
      assert q[|s.queue|] == p.sn;
      assert p.sn in q;
      assert forall sn :: sn in s.queue ==> sn in q;
    }
  }

  /** No number comes back among 31 consecutive packets. */
  ghost predicate Separated(ps: seq<Packet>) {
    forall i, j :: 0 <= i < j < |ps| && j - i <= CAPACITY ==> ps[i].sn != ps[j].sn
  }

  /** The queue holds the last 30 numbers, with zeros in front until 30 packets are stored. */
  lemma {:induction false} QueueIs(ps: seq<Packet>)
    ensures |Run(ps).queue| == CAPACITY
    ensures forall k :: 0 <= k < CAPACITY ==>
              Run(ps).queue[k] == if |ps| + k < CAPACITY then 0 else ps[|ps| + k - CAPACITY].sn
  {
    if ps != [] {
      QueueIs(ps[..|ps| - 1]);
    }
  }

  // ------------------------------------------------------------------
  // Any numbers, recurring or not
  // ------------------------------------------------------------------

  /** The number that leaves the queue when packet `k` is stored. */
  function LeavesAt(ps: seq<Packet>, k: nat): u16
    requires k < |ps|
  {
    if k < CAPACITY then 0 else ps[k - CAPACITY].sn
  }

  /** The number leaves the queue at one of the stores from `i` to before `n`. */
  ghost predicate Cleared(ps: seq<Packet>, sn: u16, i: nat, n: nat)
    requires n <= |ps|
  {
    exists k :: i <= k < n && LeavesAt(ps, k) == sn
  }

  /** Packet `j` carries the number, no store since has cleared it, and earlier ones were cleared before it. */
  ghost predicate Holds(ps: seq<Packet>, sn: u16, j: nat) {
    && j < |ps| && ps[j].sn == sn && !Cleared(ps, sn, j, |ps|)
    && forall i :: 0 <= i < j && ps[i].sn == sn ==> Cleared(ps, sn, i, j)
  }

  ghost predicate HoldsExactly(ps: seq<Packet>, m: map<u16, Packet>, sn: u16) {
    && (sn in m <==> exists j: nat :: Holds(ps, sn, j))
    && forall j: nat :: Holds(ps, sn, j) ==> sn in m && m[sn] == ps[j]
  }

  lemma ClearedMore(ps: seq<Packet>, p: Packet, sn: u16, i: nat, n: nat)
    requires n <= |ps|
    ensures Cleared(ps + [p], sn, i, n) == Cleared(ps, sn, i, n)
  {
    var all := ps + [p];
    assert forall k :: 0 <= k < |ps| ==> LeavesAt(all, k) == LeavesAt(ps, k);
  }

  lemma ClearedLast(ps: seq<Packet>, p: Packet, sn: u16, i: nat)
    requires i <= |ps|
    ensures Cleared(ps + [p], sn, i, |ps| + 1) <==> Cleared(ps, sn, i, |ps|) || LeavesAt(ps + [p], |ps|) == sn
  {
    var all := ps + [p];
    assert forall k :: 0 <= k < |ps| ==> LeavesAt(all, k) == LeavesAt(ps, k);
  }

  /** A packet held before is held after, unless its number leaves. */
  lemma HoldsMore(ps: seq<Packet>, p: Packet, sn: u16, j: nat)
    requires j < |ps|
    ensures Holds(ps + [p], sn, j) <==> Holds(ps, sn, j) && LeavesAt(ps + [p], |ps|) != sn
  {
    var all := ps + [p];
    ClearedLast(ps, p, sn, j);
    forall i: nat | i < j ensures Cleared(all, sn, i, j) == Cleared(ps, sn, i, j) {
      ClearedMore(ps, p, sn, i, j);
    }
    assert forall i :: 0 <= i <= j ==> all[i] == ps[i];
    hide Cleared, LeavesAt;
  }

  /** Where a number has occurred without being cleared since, some packet holds it. */
  lemma {:induction false} Holder(ps: seq<Packet>, sn: u16, i: nat)
    requires i < |ps| && ps[i].sn == sn && !Cleared(ps, sn, i, |ps|)
    ensures exists j: nat :: Holds(ps, sn, j)
  {
    if h: nat :| h < i && ps[h].sn == sn && !Cleared(ps, sn, h, i) {
      assert !Cleared(ps, sn, h, |ps|);
      Holder(ps, sn, h);
    } else {
      assert Holds(ps, sn, i);
    }
  }

  lemma HoldsNew(ps: seq<Packet>, p: Packet, sn: u16)
    ensures Holds(ps + [p], sn, |ps|)
            <==> p.sn == sn && LeavesAt(ps + [p], |ps|) != sn && forall j: nat :: !Holds(ps, sn, j)
  {
    var all := ps + [p];
    ClearedLast(ps, p, sn, |ps|);
    assert forall i :: 0 <= i < |ps| ==> all[i] == ps[i];
    forall i: nat | i < |ps| ensures Cleared(all, sn, i, |ps|) == Cleared(ps, sn, i, |ps|) {
      ClearedMore(ps, p, sn, i, |ps|);
    }
    if i: nat :| i < |ps| && ps[i].sn == sn && !Cleared(ps, sn, i, |ps|) {
      Holder(ps, sn, i);
    }
    hide LeavesAt;
    assert !Cleared(ps, sn, |ps|, |ps|);
    assert forall j: nat :: Holds(ps, sn, j) ==> !Cleared(ps, sn, j, |ps|);
  }

  lemma StoreHoldsExactly(ps: seq<Packet>, p: Packet, s: Store, sn: u16)
    requires HoldsExactly(ps, s.sent, sn) && |s.queue| == CAPACITY && s.queue[0] == LeavesAt(ps + [p], |ps|)
    ensures HoldsExactly(ps + [p], Stored(s, p).sent, sn)
  {
    var all, m := ps + [p], Stored(s, p).sent;
    assert m == Insert(s.sent, p) - {LeavesAt(all, |ps|)} by {
      assert (s.queue + [p.sn])[0] == s.queue[0];
    }
    hide Stored, LeavesAt;
    forall j: nat | j < |ps| ensures Holds(all, sn, j) <==> Holds(ps, sn, j) && LeavesAt(all, |ps|) != sn {
      HoldsMore(ps, p, sn, j);
    }
    HoldsNew(ps, p, sn);
    assert all[|ps|] == p && forall j :: 0 <= j < |ps| ==> all[j] == ps[j];
    assert forall j: nat :: Holds(ps, sn, j) ==> j < |ps|;
    assert forall j: nat :: Holds(all, sn, j) ==> j <= |ps|;
    hide Holds;
    if sn in m && sn in s.sent {
      var j: nat :| Holds(ps, sn, j);
      assert Holds(all, sn, j);
    }
  }

  /**
   * After every run, whatever the numbers: a retransmission is generated for a number exactly
   * if a packet holds it, and from that packet.
   */
  lemma {:induction false} StoredExactly(ps: seq<Packet>, sn: u16)
    ensures HoldsExactly(ps, Run(ps).sent, sn)
  {
    if ps != [] {
      var before, p := ps[..|ps| - 1], ps[|ps| - 1];
      assert ps == before + [p];
      StoredExactly(before, sn);
      QueueIs(before);
      hide HoldsExactly, Stored;
      StoreHoldsExactly(before, p, Run(before), sn);
    }
  }

  // ------------------------------------------------------------------
  // Numbers that do not recur
  // ------------------------------------------------------------------

  /** Packet `j` is among the last 30, and is not number 0 stored while the initial zeros leave. */
  predicate Kept(ps: seq<Packet>, j: nat)
    requires j < |ps|
  {
    |ps| - CAPACITY <= j && !(j < CAPACITY && ps[j].sn == 0)
  }

  ghost predicate HoldsKept(ps: seq<Packet>, m: map<u16, Packet>) {
    && (forall j: nat :: j < |ps| && Kept(ps, j) ==> ps[j].sn in m && m[ps[j].sn] == ps[j])
    && (forall sn :: sn in m ==> exists j: nat :: j < |ps| && Kept(ps, j) && ps[j].sn == sn)
  }

  /** The map before the oldest number is removed. */
  lemma InsertHolds(ps: seq<Packet>, p: Packet, m: map<u16, Packet>)
    requires HoldsKept(ps, m) && Separated(ps + [p])
    ensures p.sn !in m && Insert(m, p) == m[p.sn := p]
  {
    var all := ps + [p];
    assert all[|ps|] == p;
    assert forall j :: 0 <= j < |ps| && |ps| - j <= CAPACITY ==> all[j] == ps[j] && ps[j].sn != p.sn;
  }

  lemma StoreHolds(ps: seq<Packet>, p: Packet, s: Store)
    requires HoldsKept(ps, s.sent) && Separated(ps + [p]) && |s.queue| == CAPACITY
    requires s.queue[0] == if |ps| < CAPACITY then 0 else ps[|ps| - CAPACITY].sn
    ensures HoldsKept(ps + [p], Stored(s, p).sent)
  {
    var all := ps + [p];
    var n := |ps|;
    InsertHolds(ps, p, s.sent);
    var m := Stored(s, p).sent;
    assert m == s.sent[p.sn := p] - {s.queue[0]} by {
      assert (s.queue + [p.sn])[0] == s.queue[0];
    }
    forall j: nat | j < |all| && Kept(all, j) ensures all[j].sn in m && m[all[j].sn] == all[j] {
      if j < n {
        assert all[j] == ps[j];
        assert Kept(ps, j);
        assert all[n] == p && ps[j].sn != p.sn;
        if n >= CAPACITY { assert all[n - CAPACITY] == ps[n - CAPACITY]; }
      } else if n >= CAPACITY {
        assert all[n - CAPACITY] == ps[n - CAPACITY];
      }
    }
    forall sn | sn in m ensures exists j: nat :: j < |all| && Kept(all, j) && all[j].sn == sn {
      if sn == p.sn {
        assert all[n] == p && Kept(all, n);
      } else {
        var j: nat :| j < n && Kept(ps, j) && ps[j].sn == sn;
        assert all[j] == ps[j] && Kept(all, j);
      }
    }
  }

  lemma {:induction false} RunHoldsKept(ps: seq<Packet>)
    requires Separated(ps)
    ensures HoldsKept(ps, Run(ps).sent)
  {
    if ps != [] {
      var before, p := ps[..|ps| - 1], ps[|ps| - 1];
      assert ps == before + [p];
      RunHoldsKept(before);
      QueueIs(before);
      StoreHolds(before, p, Run(before));
    }
  }

  /**
   * A packet can be retransmitted exactly when it is one of the last 30 stored, with one
   * exception: number 0 among the first 30 packets is dropped with the initial zeros.
   */
  lemma RetransmittableExactly(ps: seq<Packet>, sn: u16)
    requires Separated(ps)
    ensures sn in Run(ps).sent <==> exists j: nat :: j < |ps| && Kept(ps, j) && ps[j].sn == sn
    ensures forall j: nat :: j < |ps| && Kept(ps, j) ==> ps[j].sn in Run(ps).sent && Run(ps).sent[ps[j].sn] == ps[j]
  {
    RunHoldsKept(ps);
    if j: nat :| j < |ps| && Kept(ps, j) && ps[j].sn == sn {
      assert sn in Run(ps).sent;
    }
  }

  /** Numbers that count up by one, modulo 2^16. */
  ghost predicate Consecutive(ps: seq<Packet>, first: u16) {
    forall i :: 0 <= i < |ps| ==> ps[i].sn == (first + i) % 0x1_0000
  }

  lemma ConsecutiveIsSeparated(ps: seq<Packet>, first: u16)
    requires Consecutive(ps, first)
    ensures Separated(ps)
  {
    forall i, j | 0 <= i < j < |ps| && j - i <= CAPACITY ensures ps[i].sn != ps[j].sn {
      assert ps[i].sn == (first + i) % 0x1_0000 && ps[j].sn == (first + j) % 0x1_0000;
    }
  }

  /** With consecutive numbers, wrapping or not, from 60 stores on it is exactly the last 30 packets. */
  lemma LastThirty(ps: seq<Packet>, first: u16, sn: u16)
    requires Consecutive(ps, first) && |ps| >= 60
    ensures sn in Run(ps).sent <==> exists j: nat :: |ps| - 30 <= j < |ps| && ps[j].sn == sn
  {
    ConsecutiveIsSeparated(ps, first);
    RetransmittableExactly(ps, sn);
    if j: nat :| |ps| - CAPACITY <= j < |ps| && ps[j].sn == sn {
      assert Kept(ps, j);
    }
  }
}
