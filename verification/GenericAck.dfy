/**
 * `RtcpGenericAck`: acknowledged sequence numbers packed into blocks of a base and a
 * 16-bit mask of the numbers below it.
 */
module GenericAck {
  import opened Words
  import opened Bits

  datatype Block = Block(base: u16, mask: u16)

  /** `a - b` in 16-bit arithmetic. */
  function Sub16(a: u16, b: u16): u16 {
    if b <= a then a - b else a - b + TWO16
  }

  /** The mask with the bit for distance `d` set; distance 0 is carried by the base itself. */
  function Mark(mask: u16, d: nat): u16
    requires d <= 16
  {
    if d == 0 then mask
    else
      PowersOfTwo(); SetBitRange(mask, d - 1, true, 16);
      SetBit(mask, d - 1, true)
  }

  /** One number joins the current block or opens a new one. */
  function Absorb(blocks: seq<Block>, sn: u16): (r: seq<Block>)
    requires blocks != []
    ensures r != []
  {
    var k := |blocks| - 1;
    var d := Sub16(blocks[k].base, sn);
    if d > 16 then blocks + [Block(sn, 0)] else blocks[k := blocks[k].(mask := Mark(blocks[k].mask, d))]
  }

  /** All numbers, taken from the back of the list. */
  function AbsorbAll(blocks: seq<Block>, acks: seq<u16>): (r: seq<Block>)
    requires blocks != []
    ensures r != []
    decreases |acks|
  {
    if acks == [] then blocks else AbsorbAll(Absorb(blocks, acks[|acks| - 1]), acks[..|acks| - 1])
  }

  function Encode(acks: seq<u16>): seq<Block>
    requires acks != []
  {
    AbsorbAll([Block(acks[|acks| - 1], 0)], acks)
  }

  /** The numbers one block stands for, highest mask bit first and the base last. */
  function DecodeMask(b: Block, bits: nat): seq<u16>
    requires bits <= 16
  {
    if bits == 0 then [b.base]
    else if Bit(b.mask, bits - 1) then [Sub16(b.base, bits)] + DecodeMask(b, bits - 1)
    else DecodeMask(b, bits - 1)
  }

  function Decode(blocks: seq<Block>): seq<u16> {
    if blocks == [] then [] else Decode(blocks[..|blocks| - 1]) + DecodeMask(blocks[|blocks| - 1], 16)
  }

  /** Feedback control information on the wire, in 16-bit words. */
  function WriteFci(blocks: seq<Block>): seq<u16> {
    if blocks == [] then []
    else WriteFci(blocks[..|blocks| - 1]) + [blocks[|blocks| - 1].base, blocks[|blocks| - 1].mask]
  }

  function Elements(s: seq<u16>): set<u16> { set x | x in s }

  predicate Sorted(s: seq<u16>) {
    forall i, j :: 0 <= i < j < |s| ==> s[i] <= s[j]
  }

  // ------------------------------------------------------------------
  // Round trip
  // ------------------------------------------------------------------

  ghost predicate InBlock(b: Block, sn: u16) {
    Sub16(b.base, sn) == 0 || (Sub16(b.base, sn) <= 16 && Bit(b.mask, Sub16(b.base, sn) - 1))
  }

  ghost predicate InBlocks(blocks: seq<Block>, sn: u16) {
    exists i :: 0 <= i < |blocks| && InBlock(blocks[i], sn)
  }

  lemma {:induction false} DecodeMaskMembers(b: Block, bits: nat, sn: u16)
    requires bits <= 16
    ensures sn in DecodeMask(b, bits) <==> InBlock(b, sn) && Sub16(b.base, sn) <= bits
  {
    if bits > 0 {
      DecodeMaskMembers(b, bits - 1, sn);
      assert sn == Sub16(b.base, bits) <==> Sub16(b.base, sn) == bits;
    }
  }

  lemma {:induction false} DecodeMembers(blocks: seq<Block>, sn: u16)
    ensures sn in Decode(blocks) <==> InBlocks(blocks, sn)
  {
    if blocks != [] {
      var k := |blocks| - 1;
      DecodeMembers(blocks[..k], sn);
      DecodeMaskMembers(blocks[k], 16, sn);
      assert InBlocks(blocks, sn) <==> InBlocks(blocks[..k], sn) || InBlock(blocks[k], sn) by {
        if InBlocks(blocks[..k], sn) {
          var i :| 0 <= i < k && InBlock(blocks[..k][i], sn);
          assert InBlock(blocks[i], sn);
        }
        if InBlocks(blocks, sn) && !InBlock(blocks[k], sn) {
          var i :| 0 <= i < |blocks| && InBlock(blocks[i], sn);
          assert InBlock(blocks[..k][i], sn);
        }
      }
    }
  }

  /** Marking a distance adds exactly that number to a block. */
  lemma MarkAddsOne(b: Block, sn: u16, x: u16)
    requires Sub16(b.base, sn) <= 16
    ensures InBlock(b.(mask := Mark(b.mask, Sub16(b.base, sn))), x) <==> InBlock(b, x) || x == sn
  {
    var d, e := Sub16(b.base, sn), Sub16(b.base, x);
    assert x == sn <==> e == d;
    if d > 0 && 0 < e <= 16 { BitOfSetBit(b.mask, d - 1, true, e - 1); }
  }

  lemma AbsorbAddsOne(blocks: seq<Block>, sn: u16, x: u16)
    requires blocks != []
    ensures InBlocks(Absorb(blocks, sn), x) <==> InBlocks(blocks, x) || x == sn
  {
    var k := |blocks| - 1;
    var r := Absorb(blocks, sn);
    if Sub16(blocks[k].base, sn) > 16 {
      ZeroMask(sn, x);
      assert forall i :: 0 <= i <= k ==> r[i] == blocks[i];
      if InBlocks(blocks, x) {
        var i :| 0 <= i < |blocks| && InBlock(blocks[i], x);
        assert InBlock(r[i], x);
      }
      assert r[k + 1] == Block(sn, 0);
    } else {
      MarkAddsOne(blocks[k], sn, x);
      assert forall i :: 0 <= i < k ==> r[i] == blocks[i];
      if InBlocks(blocks, x) {
        var i :| 0 <= i < |blocks| && InBlock(blocks[i], x);
        assert InBlock(r[i], x);
      }
      assert InBlock(r[k], x) <==> InBlock(blocks[k], x) || x == sn;
    }
  }

  lemma ZeroMask(base: u16, x: u16)
    ensures InBlock(Block(base, 0), x) <==> x == base
  {
    var d := Sub16(base, x);
    if 0 < d <= 16 { ZeroBits(d - 1); }
  }

  lemma {:induction false} AbsorbAllAddsAll(blocks: seq<Block>, acks: seq<u16>, x: u16)
    requires blocks != []
    ensures InBlocks(AbsorbAll(blocks, acks), x) <==> InBlocks(blocks, x) || x in acks
    decreases |acks|
  {
    if acks != [] {
      var k := |acks| - 1;
      AbsorbAddsOne(blocks, acks[k], x);
      AbsorbAllAddsAll(Absorb(blocks, acks[k]), acks[..k], x);
      assert acks == acks[..k] + [acks[k]];
    }
  }

  /** Decoding the blocks of any list, sorted or not, gives back exactly its numbers. */
  lemma DecodeEncode(acks: seq<u16>)
    requires acks != []
    ensures Elements(Decode(Encode(acks))) == Elements(acks)
  {
    var start := [Block(acks[|acks| - 1], 0)];
    forall x: u16 ensures x in Decode(Encode(acks)) <==> x in acks {
      DecodeMembers(Encode(acks), x);
      AbsorbAllAddsAll(start, acks, x);
      ZeroMask(start[0].base, x);
      assert InBlocks(start, x) <==> x == acks[|acks| - 1];
    }
  }

  /** The blocks read back from pairs of 16-bit words. */
  function ReadFci(words: seq<u16>, count: nat): seq<Block>
    requires 2 * count <= |words|
  {
    seq(count, i requires 0 <= i < count => Block(words[2 * i], words[2 * i + 1]))
  }

  lemma {:induction false} ReadWrite(blocks: seq<Block>)
    ensures |WriteFci(blocks)| == 2 * |blocks| && ReadFci(WriteFci(blocks), |blocks|) == blocks
  {
    if blocks != [] {
      var k := |blocks| - 1;
      ReadWrite(blocks[..k]);
      var words := WriteFci(blocks);
      assert forall i :: 0 <= i < k ==> ReadFci(words, k + 1)[i] == ReadFci(WriteFci(blocks[..k]), k)[i];
      assert blocks == blocks[..k] + [blocks[k]];
    }
  }

  /** On the wire each block is its base and then its mask. */
  lemma {:induction false} WrittenAt(blocks: seq<Block>, i: nat)
    requires i < |blocks|
    ensures |WriteFci(blocks)| == 2 * |blocks|
    ensures WriteFci(blocks)[2 * i] == blocks[i].base && WriteFci(blocks)[2 * i + 1] == blocks[i].mask
  {
    var k := |blocks| - 1;
    ReadWrite(blocks[..k]);
    if i < k {
      WrittenAt(blocks[..k], i);
    }
  }

  /** The numbers of a block come out once each, the farthest below the base first and the base last. */
  lemma {:induction false} DecodeMaskAscends(b: Block, bits: nat)
    requires bits <= 16
    ensures var r := DecodeMask(b, bits);
            && r != [] && r[|r| - 1] == b.base
            && forall i, j :: 0 <= i < j < |r| ==> Sub16(b.base, r[j]) < Sub16(b.base, r[i]) <= bits
  {
    if bits > 0 {
      DecodeMaskAscends(b, bits - 1);
      var r := DecodeMask(b, bits - 1);
      assert Sub16(b.base, Sub16(b.base, bits)) == bits;
      forall i | 0 <= i < |r| ensures Sub16(b.base, r[i]) < bits {
        assert i < |r| - 1 ==> Sub16(b.base, r[i]) <= bits - 1;
        assert i == |r| - 1 ==> Sub16(b.base, r[i]) == 0;
      }
    }
  }

  /** A receiver gets exactly the acknowledged numbers, and so would a receiver of its own re-encoding. */
  lemma AckRoundTrip(acks: seq<u16>)
    requires acks != []
    ensures |WriteFci(Encode(acks))| == 2 * |Encode(acks)|
    ensures var got := Decode(ReadFci(WriteFci(Encode(acks)), |Encode(acks)|));
            Elements(got) == Elements(acks) && got != [] && Elements(Decode(Encode(got))) == Elements(acks)
  {
    ReadWrite(Encode(acks));
    DecodeEncode(acks);
    var got := Decode(Encode(acks));
    assert acks[0] in Elements(acks);
    DecodeEncode(got);
  }

  // ------------------------------------------------------------------
  // Optimality
  // ------------------------------------------------------------------

  /** Successive bases are more than 16 apart and descend. */
  ghost predicate Gapped(blocks: seq<Block>) {
    forall i, j :: 0 <= i < j < |blocks| ==> blocks[i].base - blocks[j].base > 16
  }

  lemma {:induction false} AbsorbAllGapped(blocks: seq<Block>, acks: seq<u16>, whole: set<u16>)
    requires blocks != [] && Sorted(acks) && Gapped(blocks)
    requires forall a :: a in acks ==> a <= blocks[|blocks| - 1].base
    requires Elements(acks) <= whole && forall b :: b in blocks ==> b.base in whole
    ensures Gapped(AbsorbAll(blocks, acks))
    ensures forall b :: b in AbsorbAll(blocks, acks) ==> b.base in whole
    decreases |acks|
  {
    if acks != [] {
      var k := |acks| - 1;
      var next := Absorb(blocks, acks[k]);
      assert acks[k] in Elements(acks);
      assert acks[k] in acks;
      AbsorbAllGapped(next, acks[..k], whole);
    }
  }

  ghost predicate Fitted(cover: seq<u16>, sn: u16, fits: (u16, u16) -> bool) {
    exists k :: 0 <= k < |cover| && fits(cover[k], sn)
  }

  /** Numbers no two of which fit one cover element need a cover at least as long. */
  lemma {:induction false} Pigeonhole(numbers: seq<u16>, cover: seq<u16>, fits: (u16, u16) -> bool)
    requires forall i, j, c :: 0 <= i < j < |numbers| && fits(c, numbers[i]) ==> !fits(c, numbers[j])
    requires forall i :: 0 <= i < |numbers| ==> Fitted(cover, numbers[i], fits)
    ensures |numbers| <= |cover|
  {
    if numbers != [] {
      var n := |numbers| - 1;
      assert Fitted(cover, numbers[n], fits);
      var k :| 0 <= k < |cover| && fits(cover[k], numbers[n]);
      var rest := cover[..k] + cover[k + 1..];
      forall i | 0 <= i < n ensures Fitted(rest, numbers[i], fits) {
        var m :| 0 <= m < |cover| && fits(cover[m], numbers[i]);
        assert m != k;
        assert fits(rest[if m < k then m else m - 1], numbers[i]);
      }
      Pigeonhole(numbers[..n], rest, fits);
    }
  }

  /** `base` and the 16 numbers below it, without wrap-around. */
  predicate Reaches(base: u16, sn: u16) { base - 16 <= sn <= base }

  /** `base` and the 16 numbers below it in 16-bit arithmetic. */
  predicate ReachesAround(base: u16, sn: u16) { Sub16(base, sn) <= 16 }

  ghost predicate Covers(cover: seq<u16>, acks: seq<u16>, reach: (u16, u16) -> bool) {
    forall a :: a in acks ==> Fitted(cover, a, reach)
  }

  function Bases(blocks: seq<Block>): seq<u16> {
    seq(|blocks|, i requires 0 <= i < |blocks| => blocks[i].base)
  }

  lemma EncodeGapped(acks: seq<u16>)
    requires acks != [] && Sorted(acks)
    ensures Gapped(Encode(acks))
    ensures forall b :: b in Encode(acks) ==> b.base in acks
  {
    AbsorbAllGapped([Block(acks[|acks| - 1], 0)], acks, Elements(acks));
  }

  lemma BasesCovered(acks: seq<u16>, cover: seq<u16>, reach: (u16, u16) -> bool)
    requires acks != [] && Sorted(acks) && Covers(cover, acks, reach)
    ensures var bases := Bases(Encode(acks));
            forall i :: 0 <= i < |bases| ==> Fitted(cover, bases[i], reach)
  {
    EncodeGapped(acks);
    var blocks := Encode(acks);
    forall i | 0 <= i < |blocks| ensures Fitted(cover, Bases(blocks)[i], reach) {
      assert blocks[i] in blocks;
    }
  }

  /** Absorbing sorted numbers keeps the bases and leaves every number within reach of one. */
  lemma {:induction false} AbsorbAllCovers(blocks: seq<Block>, acks: seq<u16>)
    requires blocks != [] && Sorted(acks)
    requires forall a :: a in acks ==> a <= blocks[|blocks| - 1].base
    ensures Bases(blocks) <= Bases(AbsorbAll(blocks, acks))
    ensures Covers(Bases(AbsorbAll(blocks, acks)), acks, Reaches)
    decreases |acks|
  {
    if acks != [] {
      var k := |acks| - 1;
      var next := Absorb(blocks, acks[k]);
      var bases := Bases(AbsorbAll(blocks, acks));
      assert acks[k] in acks;
      assert Bases(blocks) <= Bases(next);
      AbsorbAllCovers(next, acks[..k]);
      assert Reaches(bases[|next| - 1], acks[k]);
      assert acks == acks[..k] + [acks[k]];
    }
  }

  /**
   * The encoding of a sorted list is a cover by non-wrapping blocks, and no other such cover
   * has fewer blocks.
   */
  lemma EncodeIsOptimal(acks: seq<u16>, cover: seq<u16>)
    requires acks != [] && Sorted(acks)
    ensures Covers(Bases(Encode(acks)), acks, Reaches)
    ensures Covers(cover, acks, Reaches) ==> |Encode(acks)| <= |cover|
  {
    AbsorbAllCovers([Block(acks[|acks| - 1], 0)], acks);
    if Covers(cover, acks, Reaches) {
      EncodeGapped(acks);
      BasesCovered(acks, cover, Reaches);
      Pigeonhole(Bases(Encode(acks)), cover, Reaches);
    }
  }

  /** Blocks that wrap around from 0 to 65535 could save at most one block. */
  lemma EncodeWithinOneOfWrapping(acks: seq<u16>, cover: seq<u16>)
    requires acks != [] && Sorted(acks) && Covers(cover, acks, ReachesAround)
    ensures |Encode(acks)| <= |cover| + 1
  {
    EncodeGapped(acks);
    BasesCovered(acks, cover, ReachesAround);
    var bases := Bases(Encode(acks));
    forall i, j, c | 0 <= i < j < |bases[1..]| && ReachesAround(c, bases[1..][i])
      ensures !ReachesAround(c, bases[1..][j])
    {
      assert bases[0] - bases[i + 1] > 16 && bases[i + 1] - bases[j + 1] > 16;
    }
    Pigeonhole(bases[1..], cover, ReachesAround);
  }

  /** That one block can be lost: 0 and 65535 fit one wrapping block and get two. */
  lemma WrappingCanSaveABlock()
    ensures Covers([0], [0, 65535], ReachesAround) && |Encode([0, 65535])| == 2
  {
    assert ReachesAround([0][0], 0) && ReachesAround([0][0], 65535);
    var s := [Block(65535, 0)];
    assert Absorb(s, 65535) == s;
    assert [0, 65535][..1] == [0];
    assert [0][..0] == [];
    assert Absorb(s, 0) == s + [Block(0, 0)];
    assert AbsorbAll(s, [0]) == AbsorbAll(s + [Block(0, 0)], []);
  }

  /** The numbers a block at `c` does not reach, even around. */
  function Beyond(acks: seq<u16>, c: u16): (r: seq<u16>)
    ensures forall x :: x in r <==> x in acks && !ReachesAround(c, x)
  {
    if acks == [] then []
    else
      var k := |acks| - 1;
      assert acks == acks[..k] + [acks[k]];
      Beyond(acks[..k], c) + if ReachesAround(c, acks[k]) then [] else [acks[k]]
  }

  lemma {:induction false} BeyondIsSorted(acks: seq<u16>, c: u16)
    requires Sorted(acks)
    ensures Sorted(Beyond(acks, c))
  {
    if acks != [] {
      var k := |acks| - 1;
      var before := Beyond(acks[..k], c);
      BeyondIsSorted(acks[..k], c);
      forall i | 0 <= i < |before| ensures before[i] <= acks[k] {
        assert before[i] in acks[..k];
      }
    }
  }

  /** Blocks needed with one at `c` that may wrap around, and the rest encoded. */
  function WithWrapping(acks: seq<u16>, c: u16): nat {
    var rest := Beyond(acks, c);
    1 + if rest == [] then 0 else |Encode(rest)|
  }

  ghost predicate SavesABlock(acks: seq<u16>, cover: seq<u16>)
    requires acks != []
  {
    Covers(cover, acks, ReachesAround) && |cover| < |Encode(acks)|
  }

  lemma WrappingCover(acks: seq<u16>, c: u16) returns (cover: seq<u16>)
    requires Sorted(acks)
    ensures |cover| == WithWrapping(acks, c) && Covers(cover, acks, ReachesAround)
  {
    var rest := Beyond(acks, c);
    var others := if rest == [] then [] else Bases(Encode(rest));
    BeyondIsSorted(acks, c);
    if rest != [] {
      EncodeIsOptimal(rest, []);
    }
    cover := [c] + others;
    forall a | a in acks ensures Fitted(cover, a, ReachesAround) {
      if ReachesAround(c, a) {
        assert ReachesAround(cover[0], a);
      } else {
        assert a in rest;
        var k :| 0 <= k < |others| && Reaches(others[k], a);
        assert ReachesAround(cover[k + 1], a);
      }
    }
  }

  /** An element below 16, the least there is. */
  lemma LeastBelow16(cover: seq<u16>) returns (k: nat)
    requires exists i :: 0 <= i < |cover| && cover[i] < 16
    ensures k < |cover| && cover[k] < 16 && forall i :: 0 <= i < |cover| ==> cover[k] <= cover[i]
  {
    k :| k < |cover| && cover[k] < 16;
    for i := 0 to |cover|
      invariant k < |cover| && cover[k] < 16 && forall j :: 0 <= j < i ==> cover[k] <= cover[j]
    {
      if cover[i] < cover[k] {
        k := i;
      }
    }
  }

  /** Whatever a later base reaches only around, an earlier one reaches too. */
  lemma RestNeedsNoWrap(acks: seq<u16>, cover: seq<u16>, k: nat)
    requires Covers(cover, acks, ReachesAround) && k < |cover|
    requires forall i :: 0 <= i < |cover| ==> cover[k] <= cover[i]
    ensures Covers(cover[..k] + cover[k + 1..], Beyond(acks, cover[k]), Reaches)
  {
    var others := cover[..k] + cover[k + 1..];
    forall a | a in Beyond(acks, cover[k]) ensures Fitted(others, a, Reaches) {
      var m :| 0 <= m < |cover| && ReachesAround(cover[m], a);
      assert m != k;
      assert Reaches(others[if m < k then m else m - 1], a);
    }
  }

  lemma NoneBelow16(acks: seq<u16>, cover: seq<u16>)
    requires Covers(cover, acks, ReachesAround) && forall i :: 0 <= i < |cover| ==> cover[i] >= 16
    ensures Covers(cover, acks, Reaches)
  {
    forall a | a in acks ensures Fitted(cover, a, Reaches) {
      var m :| 0 <= m < |cover| && ReachesAround(cover[m], a);
      assert Reaches(cover[m], a);
    }
  }

  lemma SavingBlock(acks: seq<u16>, cover: seq<u16>) returns (c: u16)
    requires acks != [] && Sorted(acks) && SavesABlock(acks, cover)
    ensures c < 16 && WithWrapping(acks, c) < |Encode(acks)|
  {
    if forall i :: 0 <= i < |cover| ==> cover[i] >= 16 {
      NoneBelow16(acks, cover);
      EncodeIsOptimal(acks, cover);
      assert false;
    }
    var k := LeastBelow16(cover);
    c := cover[k];
    RestNeedsNoWrap(acks, cover, k);
    BeyondIsSorted(acks, c);
    if Beyond(acks, c) != [] {
      EncodeIsOptimal(Beyond(acks, c), cover[..k] + cover[k + 1..]);
    }
  }

  /** Wrapping blocks save one if and only if a block at one of the bases below 16 does. */
  lemma WrappingSavesExactly(acks: seq<u16>)
    requires acks != [] && Sorted(acks)
    ensures (exists cover :: SavesABlock(acks, cover))
            <==> exists c: u16 :: c < 16 && WithWrapping(acks, c) < |Encode(acks)|
  {
    if cover :| SavesABlock(acks, cover) {
      var c := SavingBlock(acks, cover);
    }
    if c: u16 :| c < 16 && WithWrapping(acks, c) < |Encode(acks)| {
      var cover := WrappingCover(acks, c);
      assert SavesABlock(acks, cover);
    }
  }

  // ------------------------------------------------------------------
  // The feedback packet
  // ------------------------------------------------------------------

  function InsertSorted(s: seq<u16>, x: u16): seq<u16> {
    if s == [] || s[|s| - 1] <= x then s + [x] else InsertSorted(s[..|s| - 1], x) + [s[|s| - 1]]
  }

  /** `std::sort` on plain numbers. */
  function Sort(s: seq<u16>): seq<u16> {
    if s == [] then [] else InsertSorted(Sort(s[..|s| - 1]), s[|s| - 1])
  }

  lemma {:induction false} InsertSortedIsSorted(s: seq<u16>, x: u16)
    requires Sorted(s)
    ensures var r := InsertSorted(s, x);
            && |r| == |s| + 1 && Sorted(r)
            && r[|s|] == if s == [] || s[|s| - 1] <= x then x else s[|s| - 1]
  {
    if s != [] && s[|s| - 1] > x {
      InsertSortedIsSorted(s[..|s| - 1], x);
    }
  }

  lemma {:induction false} InsertSortedContents(s: seq<u16>, x: u16)
    ensures multiset(InsertSorted(s, x)) == multiset(s) + multiset{x}
  {
    if s != [] && s[|s| - 1] > x {
      var k := |s| - 1;
      InsertSortedContents(s[..k], x);
      assert InsertSorted(s, x) == InsertSorted(s[..k], x) + [s[k]];
      hide InsertSorted;
      assert s == s[..k] + [s[k]];
    }
  }

  lemma {:induction false} SortIsSorted(s: seq<u16>)
    ensures Sorted(Sort(s))
  {
    if s != [] {
      SortIsSorted(s[..|s| - 1]);
      InsertSortedIsSorted(Sort(s[..|s| - 1]), s[|s| - 1]);
    }
  }

  lemma {:induction false} SortContents(s: seq<u16>)
    ensures multiset(Sort(s)) == multiset(s)
  {
    if s != [] {
      var k := |s| - 1;
      SortContents(s[..k]);
      InsertSortedContents(Sort(s[..k]), s[k]);
      assert s == s[..k] + [s[k]];
    }
  }

  const BASIC_FB_LENGTH: nat := 2

  class RtcpGenericAck {
    var acks: seq<u16>
    var base: seq<u16>
    var masks: seq<u16>
    var length: nat

    constructor ()
      ensures acks == [] && base == [] && masks == [] && length == BASIC_FB_LENGTH
    {
      acks, base, masks, length := [], [], [], BASIC_FB_LENGTH;
    }

    ghost function Blocks(): seq<Block>
      requires |base| == |masks|
      reads this
    {
      Pair(base, masks)
    }

    /** One number joins the last block, whose base is `last`, or opens a new one. */
    method Take(sn: u16, last: u16) returns (next: u16)
      requires |base| == |masks| > 0 && last == base[|base| - 1]
      modifies this`base, this`masks
      ensures |base| == |masks| > 0 && next == base[|base| - 1]
      ensures Blocks() == Absorb(old(Blocks()), sn)
    {
      PairAbsorb(base, masks, sn);
      hide Mark, Absorb, Pair;
      var d := Sub16(last, sn);
      next := last;
      if d > 16 {
        base, masks, next := base + [sn], masks + [0], sn;
      } else {
        masks := masks[|masks| - 1 := Mark(masks[|masks| - 1], d)];
      }
    }

    method SetMasks()
      requires acks != []
      modifies this`base, this`masks
      ensures |base| == |masks| && Blocks() == Encode(acks)
    {
      var i := |acks|;
      var last := acks[i - 1];
      base, masks := [last], [0];
      assert Blocks() == [Block(last, 0)] && acks[..i] == acks;
      assert AbsorbAll(Blocks(), acks[..i]) == Encode(acks);
      hide Absorb, AbsorbAll, Pair, Encode;
      while i > 0
        invariant 0 <= i <= |acks|
        invariant |base| == |masks| > 0 && last == base[|base| - 1]
        invariant AbsorbAll(Blocks(), acks[..i]) == Encode(acks)
      {
        i := i - 1;
        AbsorbLast(Blocks(), acks, i);
        last := Take(acks[i], last);
      }
      AbsorbNone(Blocks(), acks[..i]);
    }

    method AddAck(sn: u16)
      modifies this
      ensures acks == Sort(old(acks) + [sn]) && acks != [] && Sorted(acks)
      ensures |base| == |masks| && Blocks() == Encode(acks)
      ensures length == BASIC_FB_LENGTH + |Blocks()|
    {
      acks := Sort(acks + [sn]);
      SortIsSorted(old(acks) + [sn]);
      SortContents(old(acks) + [sn]);
      assert sn in multiset(acks);
      SetMasks();
      length := BASIC_FB_LENGTH + |base|;
    }

    method WriteFeedbackControlInformation() returns (words: seq<u16>)
      requires |base| == |masks|
      ensures words == WriteFci(Blocks())
    {
      words := [];
      for i := 0 to |masks|
        invariant words == WriteFci(Pair(base, masks)[..i])
      {
        assert Pair(base, masks)[..i + 1][..i] == Pair(base, masks)[..i];
        words := words + [base[i], masks[i]];
      }
      assert Pair(base, masks)[..|masks|] == Pair(base, masks);
    }

    /** Reads as many blocks as the length field says; without any number there is nothing to encode. */
    method ReadFeedbackControlInformation(words: seq<u16>)
      requires length >= BASIC_FB_LENGTH && (acks != [] || length > BASIC_FB_LENGTH)
      requires |words| >= 2 * (length - BASIC_FB_LENGTH)
      modifies this
      ensures acks == old(acks) + Decode(ReadFci(words, old(length) - BASIC_FB_LENGTH)) && acks != []
      ensures |base| == |masks| && Blocks() == Encode(acks)
      ensures length == BASIC_FB_LENGTH + |Blocks()|
    {
      var count := length - BASIC_FB_LENGTH;
      ghost var blocks := ReadFci(words, count);
      for i := 0 to count
        invariant acks == old(acks) + Decode(blocks[..i]) && (i > 0 ==> acks != [])
        invariant length == old(length)
      {
        var b := Block(words[2 * i], words[2 * i + 1]);
        assert blocks[..i + 1][..i] == blocks[..i] && blocks[..i + 1][i] == b;
        base, masks := base + [b.base], masks + [b.mask];
        var j := 16;
        while j > 0
          invariant 0 <= j <= 16
          invariant acks + DecodeMask(b, j) == old(acks) + Decode(blocks[..i + 1])
          invariant length == old(length)
        {
          j := j - 1;
          if Bit(b.mask, j) {
            acks := acks + [Sub16(b.base, j + 1)];
          }
        }
        acks := acks + [b.base];
      }
      assert blocks[..count] == blocks;
      SetMasks();
      length := BASIC_FB_LENGTH + |base|;
    }
  }

  lemma AbsorbNone(blocks: seq<Block>, acks: seq<u16>)
    requires blocks != [] && acks == []
    ensures AbsorbAll(blocks, acks) == blocks
  {
  }

  lemma AbsorbLast(blocks: seq<Block>, acks: seq<u16>, i: nat)
    requires blocks != [] && i < |acks|
    ensures AbsorbAll(blocks, acks[..i + 1]) == AbsorbAll(Absorb(blocks, acks[i]), acks[..i])
  {
    assert acks[..i + 1][..i] == acks[..i];
  }

  /** Absorbing a number, on the two vectors. */
  lemma PairAbsorb(base: seq<u16>, masks: seq<u16>, sn: u16)
    requires |base| == |masks| > 0
    ensures var k := |base| - 1;
            var d := Sub16(base[k], sn);
            Absorb(Pair(base, masks), sn)
            == if d > 16 then Pair(base + [sn], masks + [0]) else Pair(base, masks[k := Mark(masks[k], d)])
  {
    var k := |base| - 1;
    var d := Sub16(base[k], sn);
    if d > 16 {
      assert Pair(base + [sn], masks + [0]) == Pair(base, masks) + [Block(sn, 0)];
    } else {
      var m := Mark(masks[k], d);
      assert Pair(base, masks[k := m]) == Pair(base, masks)[k := Block(base[k], m)];
    }
  }

  function Pair(base: seq<u16>, masks: seq<u16>): seq<Block>
    requires |base| == |masks|
  {
    seq(|base|, i requires 0 <= i < |base| => Block(base[i], masks[i]))
  }
}
