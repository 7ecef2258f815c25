/**
 * Depacketising compound RTCP packets (`RtpPacketiser`, section 6.1 of RFC 3550). Concrete
 * parsers are values with the interface of `RtcpParserInterface`.
 */
module RtcpParsing {
  import opened Words

  datatype Header = Header(version: nat, padding: bool, typeSpecific: nat, payloadType: u8, length: u16)

  /** A parsed RTCP packet, with whatever its parser read from the body. */
  datatype Report = Report(header: Header, fields: seq<int>)

  /** What a parser made of the stream after the header: a packet or nothing, and bytes consumed. */
  datatype Attempt = Attempt(packet: Option<Report>, consumed: nat)

  datatype Parser = Parser(handles: u8 -> bool, parse: (Header, seq<u8>) -> Attempt)

  const RTP_VERSION_NUMBER: nat := 2

  /** The 32 header bits: version 2, padding 1, type specific 5, payload type 8, length 16. */
  function ReadHeader(b: seq<u8>): Header
    requires |b| >= 4
  {
    var high: int := b[2];
    Header(b[0] / 64, b[0] / 32 % 2 == 1, b[0] % 32, b[1], 256 * high + b[3])
  }

  /** Indices of those among the first `n` parsers that can handle a payload type. */
  function CapableAmong(parsers: seq<Parser>, payloadType: u8, n: nat): (r: seq<nat>)
    requires n <= |parsers|
    ensures forall k :: 0 <= k < |r| ==> r[k] < n && parsers[r[k]].handles(payloadType)
    ensures forall i :: 0 <= i < n && parsers[i].handles(payloadType) ==> i in r
    ensures forall j, k :: 0 <= j < k < |r| ==> r[j] < r[k]
  {
    if n == 0 then []
    else CapableAmong(parsers, payloadType, n - 1) + if parsers[n - 1].handles(payloadType) then [n - 1] else []
  }

  function Capable(parsers: seq<Parser>, payloadType: u8): (r: seq<nat>)
    ensures forall k :: 0 <= k < |r| ==> r[k] < |parsers| && parsers[r[k]].handles(payloadType)
  {
    CapableAmong(parsers, payloadType, |parsers|)
  }

  /** The indices are those of all capable parsers, in the order of registration. */
  lemma CapableAscends(parsers: seq<Parser>, payloadType: u8)
    ensures var r := Capable(parsers, payloadType);
            && (forall i :: 0 <= i < |parsers| ==> (i in r <==> parsers[i].handles(payloadType)))
            && forall j, k :: 0 <= j < k < |r| ==> r[j] < r[k]
  {
    var r := Capable(parsers, payloadType);
    forall i | 0 <= i < |parsers| && i in r ensures parsers[i].handles(payloadType) {
      var k :| 0 <= k < |r| && r[k] == i;
    }
  }

  method FindRtcpParsers(parsers: seq<Parser>, payloadType: u8) returns (indices: seq<nat>)
    ensures indices == Capable(parsers, payloadType)
  {
    indices := [];
    for i := 0 to |parsers|
      invariant indices == CapableAmong(parsers, payloadType, i)
    {
      if parsers[i].handles(payloadType) {
        indices := indices + [i];
      }
    }
  }

  /** The first successful parse; a parser that fails may have moved the stream. */
  function TryParsers(parsers: seq<Parser>, indices: seq<nat>, h: Header, bytes: seq<u8>, pos: nat)
    : (r: (Option<Report>, nat))
    requires pos <= |bytes| && forall k :: 0 <= k < |indices| ==> indices[k] < |parsers|
    ensures pos <= r.1 <= |bytes|
    decreases |indices|
  {
    if indices == [] then (None, pos)
    else
      var a := parsers[indices[0]].parse(h, bytes[pos..]);
      var next := if pos + a.consumed <= |bytes| then pos + a.consumed else |bytes|;
      if a.packet.Some? then (a.packet, next) else TryParsers(parsers, indices[1..], h, bytes, next)
  }

  /** The next packet some parser understands, and the position after it; unknown types are skipped. */
  function ParseRtcpPacket(parsers: seq<Parser>, bytes: seq<u8>, pos: nat): (r: (Option<Report>, nat))
    requires pos <= |bytes|
    ensures pos <= r.1 <= |bytes| && (r.0.Some? ==> pos + 4 <= r.1)
    decreases |bytes| - pos
  {
    if pos + 4 > |bytes| then (None, |bytes|)
    else
      var h := ReadHeader(bytes[pos..]);
      var indices := Capable(parsers, h.payloadType);
      if h.version != RTP_VERSION_NUMBER then (None, pos + 4)
      else if indices == [] then
        if pos + 4 + 4 * h.length > |bytes| then (None, pos + 4)
        else ParseRtcpPacket(parsers, bytes, pos + 4 + 4 * h.length)
      else TryParsers(parsers, indices, h, bytes, pos + 4)
  }

  /** The packets found from `pos` on, up to the first failure. */
  function Depacketised(parsers: seq<Parser>, bytes: seq<u8>, pos: nat): seq<Report>
    requires pos <= |bytes|
    decreases |bytes| - pos
  {
    if pos == |bytes| then []
    else
      var (packet, next) := ParseRtcpPacket(parsers, bytes, pos);
      if packet.Some? then [packet.value] + Depacketised(parsers, bytes, next) else []
  }

  method DepacketiseRtcp(parsers: seq<Parser>, bytes: seq<u8>) returns (compound: seq<Report>)
    ensures compound == Depacketised(parsers, bytes, 0)
  {
    compound := [];
    var pos := 0;
    while pos < |bytes|
      invariant pos <= |bytes|
      invariant compound + Depacketised(parsers, bytes, pos) == Depacketised(parsers, bytes, 0)
    {
      var (packet, next) := ParseRtcpPacket(parsers, bytes, pos);
      if packet.None? {
        return;
      }
      compound, pos := compound + [packet.value], next;
    }
  }

  // ------------------------------------------------------------------
  // Well-formed compound packets
  // ------------------------------------------------------------------

  datatype RtcpPacket = RtcpPacket(padding: bool, typeSpecific: nat, payloadType: u8, length: u16, body: seq<u8>)

  predicate WellFormed(p: RtcpPacket) {
    p.typeSpecific < 32 && |p.body| == 4 * p.length
  }

  function HeaderOf(p: RtcpPacket): Header {
    Header(RTP_VERSION_NUMBER, p.padding, p.typeSpecific, p.payloadType, p.length)
  }

  function Wire(p: RtcpPacket): seq<u8>
    requires WellFormed(p)
  {
    [128 + (if p.padding then 32 else 0) + p.typeSpecific, p.payloadType, p.length / 256, p.length % 256] + p.body
  }

  predicate AllWellFormed(ps: seq<RtcpPacket>) {
    forall i :: 0 <= i < |ps| ==> WellFormed(ps[i])
  }

  function Compound(ps: seq<RtcpPacket>): seq<u8>
    requires AllWellFormed(ps)
  {
    if ps == [] then [] else Wire(ps[0]) + Compound(ps[1..])
  }

  /** On this input the parser reads the announced body and nothing else, or declines untouched. */
  ghost predicate KeepsOn(q: Parser, h: Header, body: seq<u8>, rest: seq<u8>) {
    q.handles(h.payloadType) && |body| == 4 * h.length ==>
      && q.parse(h, body + rest) == q.parse(h, body)
      && q.parse(h, body).consumed == if q.parse(h, body).packet.Some? then |body| else 0
  }

  ghost predicate KeepToLength(parsers: seq<Parser>) {
    forall i, h, body, rest :: 0 <= i < |parsers| ==> KeepsOn(parsers[i], h, body, rest)
  }

  /** The first packet the parsers at the given indices make of `p`. */
  function ParsedBy(parsers: seq<Parser>, indices: seq<nat>, p: RtcpPacket): Option<Report>
    requires forall k :: 0 <= k < |indices| ==> indices[k] < |parsers|
  {
    if indices == [] then None
    else
      var r := parsers[indices[0]].parse(HeaderOf(p), p.body).packet;
      if r.Some? then r else ParsedBy(parsers, indices[1..], p)
  }

  predicate Succeeds(q: Parser, p: RtcpPacket) {
    q.handles(p.payloadType) && q.parse(HeaderOf(p), p.body).packet.Some?
  }

  /** What the parser registered first makes of `p`, among those that handle its type and succeed. */
  function FirstReport(parsers: seq<Parser>, p: RtcpPacket): Option<Report> {
    if parsers == [] then None
    else if Succeeds(parsers[0], p) then parsers[0].parse(HeaderOf(p), p.body).packet
    else FirstReport(parsers[1..], p)
  }

  ghost predicate FirstToSucceed(parsers: seq<Parser>, p: RtcpPacket, i: nat) {
    i < |parsers| && Succeeds(parsers[i], p) && forall j :: 0 <= j < i ==> !Succeeds(parsers[j], p)
  }

  lemma {:induction false} FirstReportIs(parsers: seq<Parser>, p: RtcpPacket, i: nat)
    requires FirstToSucceed(parsers, p, i)
    ensures FirstReport(parsers, p) == parsers[i].parse(HeaderOf(p), p.body).packet
  {
    if i > 0 {
      assert !Succeeds(parsers[0], p);
      FirstReportIs(parsers[1..], p, i - 1);
    }
  }

  lemma {:induction false} FirstReportNone(parsers: seq<Parser>, p: RtcpPacket)
    requires forall i :: 0 <= i < |parsers| ==> !Succeeds(parsers[i], p)
    ensures FirstReport(parsers, p) == None
  {
    if parsers != [] {
      FirstReportNone(parsers[1..], p);
    }
  }

  ghost predicate Handled(parsers: seq<Parser>, payloadType: u8) {
    exists i :: 0 <= i < |parsers| && parsers[i].handles(payloadType)
  }

  lemma CapableIfHandled(parsers: seq<Parser>, payloadType: u8)
    ensures Capable(parsers, payloadType) == [] <==> !Handled(parsers, payloadType)
  {
    var r := Capable(parsers, payloadType);
    CapableAscends(parsers, payloadType);
    if r != [] {
      assert parsers[r[0]].handles(payloadType);
    }
  }

  /** Parsers at ascending indices, all that succeed among them, give the report of the least that succeeds. */
  lemma {:induction false} ParsedByLeast(parsers: seq<Parser>, indices: seq<nat>, p: RtcpPacket, i: nat)
    requires forall k :: 0 <= k < |indices| ==> indices[k] < |parsers| && parsers[indices[k]].handles(p.payloadType)
    requires forall j, k :: 0 <= j < k < |indices| ==> indices[j] < indices[k]
    requires FirstToSucceed(parsers, p, i) && i in indices
    ensures ParsedBy(parsers, indices, p) == parsers[i].parse(HeaderOf(p), p.body).packet
  {
    if indices[0] != i {
      assert indices == [indices[0]] + indices[1..];
      assert !Succeeds(parsers[indices[0]], p);
      ParsedByLeast(parsers, indices[1..], p, i);
    }
  }

  lemma {:induction false} ParsedByNone(parsers: seq<Parser>, indices: seq<nat>, p: RtcpPacket)
    requires forall k :: 0 <= k < |indices| ==> indices[k] < |parsers| && parsers[indices[k]].handles(p.payloadType)
    requires forall i :: 0 <= i < |parsers| ==> !Succeeds(parsers[i], p)
    ensures ParsedBy(parsers, indices, p) == None
  {
    if indices != [] {
      assert !Succeeds(parsers[indices[0]], p);
      ParsedByNone(parsers, indices[1..], p);
    }
  }

  lemma LeastSuccess(parsers: seq<Parser>, p: RtcpPacket) returns (i: nat)
    requires exists k :: 0 <= k < |parsers| && Succeeds(parsers[k], p)
    ensures FirstToSucceed(parsers, p, i)
  {
    i := 0;
    while !Succeeds(parsers[i], p)
      invariant i < |parsers| && forall j :: 0 <= j < i ==> !Succeeds(parsers[j], p)
      decreases |parsers| - i
    {
      if i + 1 == |parsers| {
        assert false;
      }
      i := i + 1;
    }
  }

  /** The search through the capable parsers gives the report of the one registered first. */
  lemma SearchIsFirst(parsers: seq<Parser>, p: RtcpPacket)
    ensures ParsedBy(parsers, Capable(parsers, p.payloadType), p) == FirstReport(parsers, p)
  {
    hide Succeeds, Capable, FirstReport, ParsedBy;
    if exists k :: 0 <= k < |parsers| && Succeeds(parsers[k], p) {
      var i := LeastSuccess(parsers, p);
      SuccessHandles(parsers[i], p);
      CapableAscends(parsers, p.payloadType);
      ParsedByLeast(parsers, Capable(parsers, p.payloadType), p, i);
      FirstReportIs(parsers, p, i);
    } else {
      FirstReportNone(parsers, p);
      ParsedByNone(parsers, Capable(parsers, p.payloadType), p);
    }
  }

  lemma SuccessHandles(q: Parser, p: RtcpPacket)
    requires Succeeds(q, p)
    ensures q.handles(p.payloadType)
  {
  }

  /** A packet in front of what follows: left out if unknown, the end of it all if its parsers fail. */
  ghost function Prepend(parsers: seq<Parser>, p: RtcpPacket, tail: seq<Report>): seq<Report> {
    if !Handled(parsers, p.payloadType) then tail
    else match FirstReport(parsers, p)
         case None => []
         case Some(x) => [x] + tail
  }

  /** What a compound packet should give. */
  ghost function Expected(parsers: seq<Parser>, ps: seq<RtcpPacket>): seq<Report> {
    if ps == [] then [] else Prepend(parsers, ps[0], Expected(parsers, ps[1..]))
  }

  lemma HeaderRoundTrip(p: RtcpPacket, rest: seq<u8>)
    requires WellFormed(p)
    ensures ReadHeader(Wire(p) + rest) == HeaderOf(p)
  {
  }

  lemma {:induction false} TryIsParsedBy(parsers: seq<Parser>, indices: seq<nat>, p: RtcpPacket, bytes: seq<u8>,
                                         pos: nat, rest: seq<u8>)
    requires KeepToLength(parsers)
    requires forall k :: 0 <= k < |indices| ==> indices[k] < |parsers| && parsers[indices[k]].handles(p.payloadType)
    requires WellFormed(p) && pos <= |bytes| && bytes[pos..] == p.body + rest
    ensures TryParsers(parsers, indices, HeaderOf(p), bytes, pos)
         == (ParsedBy(parsers, indices, p), if ParsedBy(parsers, indices, p).Some? then pos + |p.body| else pos)
    decreases |indices|
  {
    if indices != [] {
      assert KeepsOn(parsers[indices[0]], HeaderOf(p), p.body, rest);
      TryIsParsedBy(parsers, indices[1..], p, bytes, pos, rest);
    }
  }

  /** The header and the body of the packet at the front of the rest of the stream. */
  lemma FrontPacket(p: RtcpPacket, bytes: seq<u8>, pos: nat, rest: seq<u8>)
    requires WellFormed(p) && pos <= |bytes| && bytes[pos..] == Wire(p) + rest
    ensures |Wire(p)| == 4 + 4 * p.length && pos + |Wire(p)| <= |bytes|
    ensures ReadHeader(bytes[pos..]) == HeaderOf(p)
    ensures bytes[pos + 4..] == p.body + rest && bytes[pos + |Wire(p)|..] == rest
  {
    HeaderRoundTrip(p, rest);
    assert |bytes| == pos + |Wire(p)| + |rest|;
    assert bytes[pos + 4..] == bytes[pos..][4..];
    assert bytes[pos + |Wire(p)|..] == bytes[pos..][|Wire(p)|..];
  }

  lemma SkipUnknown(parsers: seq<Parser>, p: RtcpPacket, bytes: seq<u8>, pos: nat, rest: seq<u8>)
    requires WellFormed(p) && pos <= |bytes| && bytes[pos..] == Wire(p) + rest && !Handled(parsers, p.payloadType)
    ensures pos + |Wire(p)| <= |bytes|
    ensures ParseRtcpPacket(parsers, bytes, pos) == ParseRtcpPacket(parsers, bytes, pos + |Wire(p)|)
  {
    hide ReadHeader, Wire, Capable, TryParsers, Handled;
    FrontPacket(p, bytes, pos, rest);
    CapableIfHandled(parsers, p.payloadType);
  }

  lemma KnownIsTried(parsers: seq<Parser>, p: RtcpPacket, bytes: seq<u8>, pos: nat)
    requires pos + 4 <= |bytes| && ReadHeader(bytes[pos..]) == HeaderOf(p) && Capable(parsers, p.payloadType) != []
    ensures ParseRtcpPacket(parsers, bytes, pos)
         == TryParsers(parsers, Capable(parsers, p.payloadType), HeaderOf(p), bytes, pos + 4)
  {
    hide ReadHeader, Capable, TryParsers;
  }

  lemma TriedIsFirst(parsers: seq<Parser>, p: RtcpPacket, bytes: seq<u8>, pos: nat, rest: seq<u8>)
    requires KeepToLength(parsers)
    requires WellFormed(p) && pos <= |bytes| && bytes[pos..] == p.body + rest
    ensures var x := FirstReport(parsers, p);
            TryParsers(parsers, Capable(parsers, p.payloadType), HeaderOf(p), bytes, pos)
            == (x, if x.Some? then pos + |p.body| else pos)
  {
    hide *;
    TryIsParsedBy(parsers, Capable(parsers, p.payloadType), p, bytes, pos, rest);
    SearchIsFirst(parsers, p);
  }

  lemma ParseKnown(parsers: seq<Parser>, p: RtcpPacket, bytes: seq<u8>, pos: nat, rest: seq<u8>)
    requires KeepToLength(parsers)
    requires WellFormed(p) && pos <= |bytes| && bytes[pos..] == Wire(p) + rest && Handled(parsers, p.payloadType)
    ensures var x := FirstReport(parsers, p);
            ParseRtcpPacket(parsers, bytes, pos) == (x, if x.Some? then pos + |Wire(p)| else pos + 4)
  {
    assert |p.body| == 4 * p.length;
    hide *;
    FrontPacket(p, bytes, pos, rest);
    CapableIfHandled(parsers, p.payloadType);
    KnownIsTried(parsers, p, bytes, pos);
    TriedIsFirst(parsers, p, bytes, pos + 4, rest);
  }

  lemma DepacketisedIs(parsers: seq<Parser>, bytes: seq<u8>, pos: nat)
    requires pos <= |bytes|
    ensures var (packet, next) := ParseRtcpPacket(parsers, bytes, pos);
            Depacketised(parsers, bytes, pos)
            == if packet.Some? then [packet.value] + Depacketised(parsers, bytes, next) else []
  {
  }

  /** The depacketiser steps over one packet. */
  lemma DepacketiseOne(parsers: seq<Parser>, p: RtcpPacket, bytes: seq<u8>, pos: nat, rest: seq<u8>)
    returns (next: nat)
    requires KeepToLength(parsers)
    requires WellFormed(p) && pos <= |bytes| && bytes[pos..] == Wire(p) + rest
    ensures next <= |bytes| && bytes[next..] == rest
    ensures Depacketised(parsers, bytes, pos) == Prepend(parsers, p, Depacketised(parsers, bytes, next))
  {
    hide ParseRtcpPacket, Depacketised, Wire, ReadHeader, Handled, FirstReport, KeepToLength;
    FrontPacket(p, bytes, pos, rest);
    next := pos + |Wire(p)|;
    DepacketisedIs(parsers, bytes, pos);
    if !Handled(parsers, p.payloadType) {
      SkipUnknown(parsers, p, bytes, pos, rest);
      DepacketisedIs(parsers, bytes, next);
    } else {
      ParseKnown(parsers, p, bytes, pos, rest);
    }
  }

  lemma TailWellFormed(ps: seq<RtcpPacket>)
    requires ps != [] && AllWellFormed(ps)
    ensures WellFormed(ps[0]) && AllWellFormed(ps[1..]) && Compound(ps) == Wire(ps[0]) + Compound(ps[1..])
  {
  }

  /** Bytes in which no packet can be found: a header cut short, another version, or a type to skip that runs over. */
  ghost predicate Broken(parsers: seq<Parser>, junk: seq<u8>) {
    || |junk| < 4
    || junk[0] / 64 != 2
    || (!Handled(parsers, junk[1]) && 4 + 4 * (256 * (junk[2] as int) + junk[3]) > |junk|)
  }

  lemma BrokenStops(parsers: seq<Parser>, bytes: seq<u8>, pos: nat)
    requires pos <= |bytes| && Broken(parsers, bytes[pos..])
    ensures Depacketised(parsers, bytes, pos) == []
  {
    hide Capable, Handled, TryParsers;
    if |bytes| >= pos + 4 {
      CapableIfHandled(parsers, bytes[pos..][1]);
    }
  }

  /** The rest of the stream is a compound packet, and bytes that are no packet behind it. */
  ghost predicate Remaining(bytes: seq<u8>, pos: nat, ps: seq<RtcpPacket>, junk: seq<u8>) {
    AllWellFormed(ps) && pos <= |bytes| && bytes[pos..] == Compound(ps) + junk
  }

  lemma StepOver(parsers: seq<Parser>, ps: seq<RtcpPacket>, junk: seq<u8>, bytes: seq<u8>, pos: nat)
    returns (next: nat)
    requires KeepToLength(parsers) && ps != [] && Remaining(bytes, pos, ps, junk)
    ensures Remaining(bytes, next, ps[1..], junk)
    ensures Depacketised(parsers, bytes, pos) == Prepend(parsers, ps[0], Depacketised(parsers, bytes, next))
  {
    TailWellFormed(ps);
    assert Compound(ps) + junk == Wire(ps[0]) + (Compound(ps[1..]) + junk);
    next := DepacketiseOne(parsers, ps[0], bytes, pos, Compound(ps[1..]) + junk);
  }

  lemma {:induction false} CompoundIsParsed(parsers: seq<Parser>, ps: seq<RtcpPacket>, junk: seq<u8>, bytes: seq<u8>,
                                            pos: nat)
    requires KeepToLength(parsers) && Remaining(bytes, pos, ps, junk) && Broken(parsers, junk)
    ensures Depacketised(parsers, bytes, pos) == Expected(parsers, ps)
    decreases |ps|
  {
    if ps == [] {
      assert bytes[pos..] == junk;
      BrokenStops(parsers, bytes, pos);
    } else {
      var next := StepOver(parsers, ps, junk, bytes, pos);
      CompoundIsParsed(parsers, ps[1..], junk, bytes, next);
    }
  }

  /**
   * On any concatenation of well-formed packets, whatever broken bytes follow it, the
   * depacketiser returns exactly what the parsers registered first make of the packets they
   * know, in order, wherever unknown types stand.
   */
  lemma CompoundRoundTrip(parsers: seq<Parser>, ps: seq<RtcpPacket>, junk: seq<u8>)
    requires KeepToLength(parsers) && AllWellFormed(ps) && Broken(parsers, junk)
    ensures Depacketised(parsers, Compound(ps) + junk, 0) == Expected(parsers, ps)
  {
    assert (Compound(ps) + junk)[0..] == Compound(ps) + junk;
    CompoundIsParsed(parsers, ps, junk, Compound(ps) + junk, 0);
  }
}
