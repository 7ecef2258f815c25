/** Entries of a playout buffer: a packet group with its RTP timestamp and its times, in microseconds. */
module PlayoutNode {
  import opened Words
  import opened PacketGroup

  datatype Node = Node(ts: u32, pts: int, playout: int, group: Group)

  function NewNode(p: Packet, pts: int, playout: int): Node {
    Node(p.ts, pts, playout, NewGroup(p))
  }

  /** Whole milliseconds of a duration, truncated toward zero. */
  function TotalMilliseconds(us: int): int {
    if us >= 0 then us / 1000 else -((-us) / 1000)
  }

  /** Milliseconds by which a playout time has passed, in 32 bits. */
  function Lateness(playout: int, now: int): u32 { Mod32(TotalMilliseconds(now - playout)) }

  /** It is the whole milliseconds since the playout time exactly if that has passed and they fit 32 bits. */
  lemma LatenessExactly(playout: int, now: int)
    ensures 0 <= now - playout - 1000 * Lateness(playout, now) < 1000
            <==> 0 <= now - playout < 1000 * 0x1_0000_0000
  {
    var d, ms: int := now - playout, Lateness(playout, now);
    if d >= 0 {
      assert d - 1000 < 1000 * (d / 1000) <= d;
      assert ms == (d / 1000) % 0x1_0000_0000;
    } else {
      assert ms >= 0;
    }
  }

  /** Nodes in front of a new presentation time, found from the back of the list. */
  function PlaceByPts(nodes: seq<Node>, pts: int): (i: nat)
    ensures i <= |nodes|
    ensures i > 0 ==> nodes[i - 1].pts < pts
    ensures forall j :: i <= j < |nodes| ==> pts <= nodes[j].pts
  {
    if nodes == [] || nodes[|nodes| - 1].pts < pts then |nodes| else PlaceByPts(nodes[..|nodes| - 1], pts)
  }

  /** Packets held by the groups of a list. */
  function Held(nodes: seq<Node>): nat {
    if nodes == [] then 0 else |nodes[0].group.packets| + Held(nodes[1..])
  }

  lemma {:induction false} HeldInsert(nodes: seq<Node>, i: nat, n: Node)
    requires i <= |nodes|
    ensures Held(InsertAt(nodes, i, n)) == Held(nodes) + |n.group.packets|
  {
    var r := InsertAt(nodes, i, n);
    if i == 0 {
      assert r[1..] == nodes;
    } else {
      assert r[1..] == InsertAt(nodes[1..], i - 1, n);
      HeldInsert(nodes[1..], i - 1, n);
    }
  }

  lemma {:induction false} HeldUpdate(nodes: seq<Node>, i: nat, n: Node)
    requires i < |nodes|
    ensures Held(nodes[i := n]) == Held(nodes) - |nodes[i].group.packets| + |n.group.packets|
  {
    if i == 0 {
      assert nodes[i := n][1..] == nodes[1..];
    } else {
      assert nodes[i := n][1..] == nodes[1..][i - 1 := n];
      HeldUpdate(nodes[1..], i - 1, n);
    }
  }
}
