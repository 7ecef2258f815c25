/**
 * `BitStreamWriter` fills bytes from the least significant bit up, `BitStreamWriterMSB`
 * from the most significant bit down; both cache the byte they are writing.
 */
module BitWriters {
  import opened Words
  import opened Bits

  datatype Order = LsbFirst | MsbFirst

  /** The physical bit of its byte that stream position `p` falls on. */
  function Slot(o: Order, p: nat): nat {
    if o.LsbFirst? then p % 8 else 7 - p % 8
  }

  function WithBit(byte: u8, k: nat, b: bool): u8
    requires k < 8
  {
    PowersOfTwo(); SetBitRange(byte, k, b, 8);
    SetBit(byte, k, b)
  }

  predicate GetBit(o: Order, buf: seq<u8>, p: nat)
    requires p < 8 * |buf|
  {
    Bit(buf[p / 8], Slot(o, p))
  }

  /** A single-bit write at stream position `p`. */
  function PutBit(o: Order, buf: seq<u8>, p: nat, b: bool): seq<u8>
    requires p < 8 * |buf|
  {
    buf[p / 8 := WithBit(buf[p / 8], Slot(o, p), b)]
  }

  /** Single-bit writes one after the other from `p` on. */
  function PutBits(o: Order, buf: seq<u8>, p: nat, bits: seq<bool>): (r: seq<u8>)
    requires p + |bits| <= 8 * |buf|
    ensures |r| == |buf|
  {
    if bits == [] then buf
    else PutBit(o, PutBits(o, buf, p, bits[..|bits| - 1]), p + |bits| - 1, bits[|bits| - 1])
  }

  lemma PutBitEffect(o: Order, buf: seq<u8>, p: nat, b: bool, q: nat)
    requires p < 8 * |buf| && q < 8 * |buf|
    ensures GetBit(o, PutBit(o, buf, p, b), q) == if p == q then b else GetBit(o, buf, q)
  {
    if p / 8 == q / 8 {
      BitOfSetBit(buf[p / 8], Slot(o, p), b, Slot(o, q));
    }
  }

  /** The bits land in order at their positions and no other bit of the buffer changes. */
  lemma {:induction false} PutBitsEffect(o: Order, buf: seq<u8>, p: nat, bits: seq<bool>, q: nat)
    requires p + |bits| <= 8 * |buf| && q < 8 * |buf|
    ensures GetBit(o, PutBits(o, buf, p, bits), q) == if p <= q < p + |bits| then bits[q - p] else GetBit(o, buf, q)
  {
    if bits != [] {
      var n := |bits| - 1;
      PutBitsEffect(o, buf, p, bits[..n], q);
      PutBitEffect(o, PutBits(o, buf, p, bits[..n]), p + n, bits[n], q);
    }
  }

  /** The `n` low bits of a value, lowest first. */
  function LowBits(val: int, n: nat): seq<bool> {
    seq(n, i requires 0 <= i < n => Bit(val, i))
  }

  /** The `n` low bits of a value, highest first. */
  function HighFirst(val: int, n: nat): seq<bool> {
    seq(n, i requires 0 <= i < n => Bit(val, n - 1 - i))
  }

  /** Arithmetic right shift. */
  function Shr(val: int, k: nat): int
    decreases k
  {
    if k == 0 then val else Shr(val / 2, k - 1)
  }

  lemma {:induction false} ShrStep(val: int, k: nat)
    ensures Shr(val, k) / 2 == Shr(val, k + 1) && (Shr(val, k) % 2 == 1 <==> Bit(val, k))
    decreases k
  {
    if k > 0 { ShrStep(val / 2, k - 1); }
  }

  /** The stream position of physical bit `pos` of byte `at`. */
  function Position(o: Order, at: nat, pos: nat): nat
    requires pos < 8
  {
    8 * at + if o.LsbFirst? then pos else 7 - pos
  }

  /** Writing one more bit into the cached copy of byte `at` continues the run of single-bit writes. */
  lemma CachedStep(o: Order, buf: seq<u8>, p: nat, bits: seq<bool>, k: nat, mem: seq<u8>, at: nat, pos: nat, cached: u8)
    requires k < |bits| && p + |bits| <= 8 * |buf| && |mem| == |buf|
    requires pos < 8 && at < |mem| && p + k == Position(o, at, pos)
    requires mem[at := cached] == PutBits(o, buf, p, bits[..k])
    ensures mem[at := WithBit(cached, pos, bits[k])] == PutBits(o, buf, p, bits[..k + 1])
  {
    assert bits[..k + 1][..k] == bits[..k];
    assert mem[at := cached][at] == cached;
    assert (p + k) / 8 == at && Slot(o, p + k) == pos;
  }

  lemma DirectStep(o: Order, buf: seq<u8>, p: nat, bits: seq<bool>, k: nat, mem: seq<u8>, at: nat, pos: nat)
    requires k < |bits| && p + |bits| <= 8 * |buf|
    requires pos < 8 && at < |mem| && p + k == Position(o, at, pos)
    requires mem == PutBits(o, buf, p, bits[..k])
    ensures mem[at := WithBit(mem[at], pos, bits[k])] == PutBits(o, buf, p, bits[..k + 1])
  {
    assert mem[at := mem[at]] == mem;
    CachedStep(o, buf, p, bits, k, mem, at, pos, mem[at]);
  }

  /** After `k` bits: the stream, with the cached copy of byte `at` put back, is what single-bit writes give. */
  ghost predicate Written(o: Order, buf: seq<u8>, p: nat, bits: seq<bool>, k: nat, mem: seq<u8>, at: nat, pos: nat,
                          cached: u8)
  {
    && p + |bits| < 8 * |buf| && |mem| == |buf| && k <= |bits|
    && at < |mem| && pos < 8 && Position(o, at, pos) == p + k
    && mem[at := cached] == PutBits(o, buf, p, bits[..k])
  }

  lemma NothingWritten(o: Order, buf: seq<u8>, bits: seq<bool>, at: nat, pos: nat)
    requires at < |buf| && pos < 8 && Position(o, at, pos) + |bits| < 8 * |buf|
    ensures Written(o, buf, Position(o, at, pos), bits, 0, buf, at, pos, buf[at])
  {
    assert buf[at := buf[at]] == buf && bits[..0] == [];
  }

  lemma AllWritten(o: Order, buf: seq<u8>, p: nat, bits: seq<bool>, mem: seq<u8>, at: nat, pos: nat, cached: u8)
    requires Written(o, buf, p, bits, |bits|, mem, at, pos, cached)
    ensures mem[at := cached] == PutBits(o, buf, p, bits)
  {
    assert bits[..|bits|] == bits;
  }

  // ------------------------------------------------------------------
  // The bytes a cached write reaches
  // ------------------------------------------------------------------

  /** The next physical bit, and by how many bytes it is further on. */
  function NextBit(o: Order, pos: nat): (nat, nat)
    requires pos < 8
  {
    if o.LsbFirst? then (if pos < 7 then (pos + 1, 0) else (0, 1))
    else if pos > 0 then (pos - 1, 0) else (7, 1)
  }

  /** The bytes the cached loop reads or writes, starting with the one it caches first. */
  function Touched(o: Order, at: nat, pos: nat, n: nat): set<nat>
    requires pos < 8
    decreases n
  {
    if n == 0 then {at}
    else
      var (next, more) := NextBit(o, pos);
      {at} + Touched(o, at + more, next, n - 1)
  }

  /** They are all bytes up to the one that follows the last bit. */
  lemma {:induction false} TouchedIs(o: Order, at: nat, pos: nat, n: nat)
    requires pos < 8
    ensures forall i :: i in Touched(o, at, pos, n) <==> at <= i <= (Position(o, at, pos) + n) / 8
    decreases n
  {
    if n > 0 {
      var (next, more) := NextBit(o, pos);
      assert Position(o, at + more, next) == Position(o, at, pos) + 1;
      TouchedIs(o, at + more, next, n - 1);
    }
  }

  ghost predicate Reached(touched: set<nat>, from: nat, to: nat) {
    forall i :: i in touched <==> from <= i <= to
  }

  lemma ReachedStep(touched: set<nat>, from: nat, to: nat, next: nat)
    requires Reached(touched, from, to) && from <= to && (next == to || next == to + 1)
    ensures Reached(touched + {next}, from, next)
  {
  }

  lemma ReachedAll(o: Order, touched: set<nat>, at: nat, pos: nat, n: nat, to: nat)
    requires pos < 8 && to == (Position(o, at, pos) + n) / 8 && Reached(touched, at, to)
    ensures touched == Touched(o, at, pos, n)
  {
    TouchedIs(o, at, pos, n);
  }

  /** A cached write stays inside the buffer if and only if it ends before the last bit of it. */
  lemma StaysInsideExactly(o: Order, at: nat, pos: nat, n: nat, length: nat)
    requires pos < 8
    ensures (forall i :: i in Touched(o, at, pos, n) ==> i < length) <==> Position(o, at, pos) + n < 8 * length
  {
    TouchedIs(o, at, pos, n);
    assert (Position(o, at, pos) + n) / 8 in Touched(o, at, pos, n);
  }

  /** Bytes behind the buffer: a write that fills it to the last bit leaves them as they were. */
  lemma {:induction false} SpareBytes(o: Order, buf: seq<u8>, spare: seq<u8>, p: nat, bits: seq<bool>)
    requires p + |bits| <= 8 * |buf|
    ensures PutBits(o, buf + spare, p, bits) == PutBits(o, buf, p, bits) + spare
  {
    if bits != [] {
      SpareBytes(o, buf, spare, p, bits[..|bits| - 1]);
    }
  }

  class BitStreamWriter {
    const stream: array<u8>
    var bytePos: nat
    var bitPos: nat

    ghost predicate Valid()
      reads this
    {
      bitPos < 8
    }

    ghost function Cursor(): nat
      requires Valid()
      reads this
    {
      Position(LsbFirst, bytePos, bitPos)
    }

    constructor (stream: array<u8>)
      ensures this.stream == stream && Valid() && Cursor() == 0
    {
      this.stream, bytePos, bitPos := stream, 0, 0;
    }

    /** Moves to the next bit; a full cache is written out and renewed. */
    method Advance(pos: nat, cached: u8) returns (next: nat, renewed: u8)
      requires pos < 8 && Position(LsbFirst, bytePos, pos) + 1 < 8 * stream.Length
      modifies this`bytePos, stream
      ensures next < 8 && Position(LsbFirst, bytePos, next) == Position(LsbFirst, old(bytePos), pos) + 1
      ensures bytePos < stream.Length && stream[..][bytePos := renewed] == old(stream[..])[old(bytePos) := cached]
    {
      next, renewed := pos, cached;
      if pos < 7 {
        next := pos + 1;
      } else {
        stream[bytePos] := cached;
        next, bytePos := 0, bytePos + 1;
        renewed := stream[bytePos];
      }
    }

    /** One more bit through the cache. */
    method PutCached(pos: nat, cached: u8, b: bool, ghost buf: seq<u8>, ghost p: nat, ghost bits: seq<bool>,
                     ghost k: nat)
      returns (next: nat, renewed: u8)
      requires k < |bits| && b == bits[k] && Written(LsbFirst, buf, p, bits, k, stream[..], bytePos, pos, cached)
      modifies this`bytePos, stream
      ensures Written(LsbFirst, buf, p, bits, k + 1, stream[..], bytePos, next, renewed)
      ensures bytePos == old(bytePos) || bytePos == old(bytePos) + 1
    {
      CachedStep(LsbFirst, buf, p, bits, k, stream[..], bytePos, pos, cached);
      hide PutBits;
      next, renewed := Advance(pos, WithBit(cached, pos, b));
    }

    /** One more bit directly into the stream. */
    method PutDirect(byte: nat, bit: nat, b: bool, ghost buf: seq<u8>, ghost p: nat, ghost bits: seq<bool>,
                     ghost k: nat)
      requires k < |bits| && b == bits[k] && p + |bits| <= 8 * |buf|
      requires byte < stream.Length && bit < 8 && Position(LsbFirst, byte, bit) == p + k
      requires stream[..] == PutBits(LsbFirst, buf, p, bits[..k])
      modifies stream
      ensures stream[..] == PutBits(LsbFirst, buf, p, bits[..k + 1])
    {
      DirectStep(LsbFirst, buf, p, bits, k, stream[..], byte, bit);
      hide PutBits;
      PutAt(byte, bit, b);
    }

    method PutAt(byte: nat, bit: nat, b: bool)
      requires byte < stream.Length && bit < 8
      modifies stream
      ensures stream[..] == old(stream[..])[byte := WithBit(old(stream[byte]), bit, b)]
    {
      stream[byte] := WithBit(stream[byte], bit, b);
    }

    method WriteBit(val: int)
      requires Valid() && bytePos < stream.Length
      modifies this, stream
      ensures Valid() && Cursor() == old(Cursor()) + 1
      ensures stream[..] == PutBit(LsbFirst, old(stream[..]), old(Cursor()), Bit(val, 0))
    {
      stream[bytePos] := WithBit(stream[bytePos], bitPos, val % 2 == 1);
      if bitPos < 7 {
        bitPos := bitPos + 1;
      } else {
        bitPos, bytePos := 0, bytePos + 1;
      }
    }

    /** The cache is renewed after each full byte, so the byte after the last bit must exist. */
    method Write(numBits: nat, val: int) returns (ghost touched: set<nat>)
      requires Valid() && Cursor() + numBits < 8 * stream.Length
      modifies this, stream
      ensures Valid() && Cursor() == old(Cursor()) + numBits
      ensures stream[..] == PutBits(LsbFirst, old(stream[..]), old(Cursor()), LowBits(val, numBits))
      ensures touched == Touched(LsbFirst, old(bytePos), old(bitPos), numBits)
    {
      ghost var p, buf := Cursor(), stream[..];
      ghost var bits := LowBits(val, numBits);
      var pos, b, cached := bitPos, val, stream[bytePos];
      var i := numBits;
      touched := {bytePos};
      assert Reached(touched, bytePos, bytePos);
      NothingWritten(LsbFirst, buf, bits, bytePos, bitPos);
      hide PutBits, Reached, Touched;
      while i > 0
        invariant 0 <= i <= numBits
        invariant b == Shr(val, numBits - i)
        invariant Written(LsbFirst, buf, p, bits, numBits - i, stream[..], bytePos, pos, cached)
        invariant old(bytePos) <= bytePos && Reached(touched, old(bytePos), bytePos)
      {
        ghost var k, before := numBits - i, bytePos;
        ShrStep(val, k);
        assert bits[k] == (b % 2 == 1);
        pos, cached := PutCached(pos, cached, b % 2 == 1, buf, p, bits, k);
        ReachedStep(touched, old(bytePos), before, bytePos);
        touched := touched + {bytePos};
        b, i := b / 2, i - 1;
      }
      AllWritten(LsbFirst, buf, p, bits, stream[..], bytePos, pos, cached);
      ReachedAll(LsbFirst, touched, old(bytePos), old(bitPos), numBits, bytePos);
      stream[bytePos] := cached;
      bitPos := pos;
    }

    method Poke(bitLoc: nat, numBits: nat, val: int)
      requires bitLoc + numBits <= 8 * stream.Length
      modifies stream
      ensures stream[..] == PutBits(LsbFirst, old(stream[..]), bitLoc, LowBits(val, numBits))
    {
      PokeFrom(bitLoc / 8, bitLoc % 8, numBits, val);
    }

    method PokeFrom(bytePos: nat, bitPos: nat, numBits: nat, val: int)
      requires bitPos < 8 && Position(LsbFirst, bytePos, bitPos) + numBits <= 8 * stream.Length
      modifies stream
      ensures stream[..]
           == PutBits(LsbFirst, old(stream[..]), Position(LsbFirst, bytePos, bitPos), LowBits(val, numBits))
    {
      ghost var p := Position(LsbFirst, bytePos, bitPos);
      ghost var buf, bits := stream[..], LowBits(val, numBits);
      var byte, bit, b := bytePos, bitPos, val;
      var i := numBits;
      assert bits[..0] == [];
      hide PutBits;
      while i > 0
        invariant 0 <= i <= numBits && 0 <= byte && 0 <= bit < 8
        invariant Position(LsbFirst, byte, bit) == p + (numBits - i)
        invariant b == Shr(val, numBits - i)
        invariant stream[..] == PutBits(LsbFirst, buf, p, bits[..numBits - i])
      {
        ghost var k := numBits - i;
        ShrStep(val, k);
        PutDirect(byte, bit, b % 2 == 1, buf, p, bits, k);
        if bit < 7 {
          bit := bit + 1;
        } else {
          bit, byte := 0, byte + 1;
        }
        b, i := b / 2, i - 1;
      }
      assert bits[..numBits] == bits;
    }
  }

  // ------------------------------------------------------------------
  // Most significant bit first
  // ------------------------------------------------------------------

  /** `(a & m) != 0` on 32 bits. */
  predicate CommonBit(a: int, m: int) {
    exists k: nat :: k < 32 && Bit(a, k) && Bit(m, k)
  }

  /** `1 << (n - 1)` as an `int`: with 32 bits it is the most negative number. */
  function TopMask(n: nat): int
    requires n <= 32
  {
    if n == 0 then 0 else if n == 32 then -Pow2(31) else Pow2(n - 1)
  }

  /** The bits that the shifted mask picks, in the order they are written. */
  function MaskedBits(val: int, n: nat): seq<bool>
    requires n <= 32
  {
    seq(n, i requires 0 <= i < n => CommonBit(val, Shr(TopMask(n), i)))
  }

  lemma {:induction false} BitsOfPower(j: nat, k: nat)
    ensures Bit(Pow2(j), k) <==> k == j
    ensures Bit(-Pow2(j), k) <==> k >= j
    decreases k
  {
    if j == 0 {
      MinusOneBits(k);
      if k > 0 { ZeroBits(k - 1); }
    } else if k > 0 {
      assert Pow2(j) / 2 == Pow2(j - 1) && (-Pow2(j)) / 2 == -Pow2(j - 1);
      BitsOfPower(j - 1, k - 1);
    }
  }

  lemma {:induction false} MinusOneBits(k: nat)
    ensures Bit(-1, k)
  {
    if k > 0 { MinusOneBits(k - 1); }
  }

  lemma {:induction false} ShrOfPower(j: nat, i: nat)
    requires i <= j
    ensures Shr(Pow2(j), i) == Pow2(j - i) && Shr(-Pow2(j), i) == -Pow2(j - i)
    decreases i
  {
    if i > 0 {
      assert Pow2(j) / 2 == Pow2(j - 1) && (-Pow2(j)) / 2 == -Pow2(j - 1);
      ShrOfPower(j - 1, i - 1);
    }
  }

  /** Some bit from `j` up to bit 31 is set. */
  ghost predicate AnyFrom(val: int, j: nat) {
    exists k: nat :: j <= k < 32 && Bit(val, k)
  }

  lemma CommonWithPower(a: int, j: nat)
    requires j < 32
    ensures CommonBit(a, Pow2(j)) <==> Bit(a, j)
    ensures CommonBit(a, -Pow2(j)) <==> AnyFrom(a, j)
  {
    forall k: nat ensures (Bit(Pow2(j), k) <==> k == j) && (Bit(-Pow2(j), k) <==> k >= j) {
      BitsOfPower(j, k);
    }
  }

  /** Up to 31 bits the mask picks the value's bits, most significant first. */
  lemma MaskedUpTo31(val: int, n: nat)
    requires n <= 31
    ensures MaskedBits(val, n) == HighFirst(val, n)
  {
    forall i | 0 <= i < n ensures MaskedBits(val, n)[i] == HighFirst(val, n)[i] {
      ShrOfPower(n - 1, i);
      CommonWithPower(val, n - 1 - i);
    }
  }

  /** With 32 bits the sign of the mask spreads: each bit written is an OR of all bits above it. */
  lemma MaskedAt32(val: int, i: nat)
    requires i < 32
    ensures MaskedBits(val, 32)[i] <==> AnyFrom(val, 31 - i)
  {
    ShrOfPower(31, i);
    CommonWithPower(val, 31 - i);
  }

  /** No zero bit below a one bit among the lowest `w`. */
  ghost predicate Dense(u: int, w: nat) {
    forall k: nat :: k + 1 < w && Bit(u, k + 1) ==> Bit(u, k)
  }

  lemma {:induction false} DenseDown(u: int, k: nat, j: nat)
    requires Dense(u, 32) && j <= k < 32 && Bit(u, k)
    ensures Bit(u, j)
    decreases k
  {
    if j < k {
      assert Bit(u, (k - 1) + 1);
      DenseDown(u, k - 1, j);
    }
  }

  lemma Masked32Dense(val: int)
    ensures MaskedBits(val, 32) == HighFirst(val, 32) <==> Dense(val, 32)
  {
    var m, h := MaskedBits(val, 32), HighFirst(val, 32);
    if Dense(val, 32) {
      forall i | 0 <= i < 32 ensures m[i] == h[i] {
        MaskedAt32(val, i);
        assert h[i] == Bit(val, 31 - i);
        assert h[i] ==> AnyFrom(val, 31 - i);
        if AnyFrom(val, 31 - i) {
          var k: nat :| 31 - i <= k < 32 && Bit(val, k);
          DenseDown(val, k, 31 - i);
        }
      }
    } else {
      var k: nat :| k + 1 < 32 && Bit(val, k + 1) && !Bit(val, k);
      MaskedAt32(val, 31 - k);
      assert h[31 - k] == Bit(val, k);
      assert AnyFrom(val, k);
      assert m[31 - k] != h[31 - k];
    }
  }

  /** Dense patterns are the numbers one below a power of two. */
  lemma {:induction false} DenseIsPowerMinusOne(u: nat, w: nat)
    requires u < Pow2(w)
    ensures Dense(u, w) <==> exists m: nat :: m <= w && u == Pow2(m) - 1
    decreases w
  {
    if w == 0 {
      assert u == Pow2(0) - 1;
    } else {
      DenseIsPowerMinusOne(u / 2, w - 1);
      assert Dense(u, w) <==> Dense(u / 2, w - 1) && (w > 1 && Bit(u / 2, 0) ==> Bit(u, 0)) by {
        DenseHalf(u, w);
      }
      if exists m: nat :: m <= w && u == Pow2(m) - 1 {
        var m: nat :| m <= w && u == Pow2(m) - 1;
        if m > 0 {
          assert u / 2 == Pow2(m - 1) - 1;
        } else {
          assert u / 2 == Pow2(0) - 1;
        }
      }
      if Dense(u, w) {
        var m: nat :| m <= w - 1 && u / 2 == Pow2(m) - 1;
        if u % 2 == 1 {
          assert u == Pow2(m + 1) - 1;
        } else {
          EvenDense(u, m);
        }
      }
    }
  }

  lemma EvenDense(u: nat, m: nat)
    requires u % 2 == 0 && u / 2 == Pow2(m) - 1 && (Bit(u / 2, 0) ==> Bit(u, 0))
    ensures u == Pow2(0) - 1
  {
  }

  lemma DenseHalf(u: int, w: nat)
    requires w > 0
    ensures Dense(u, w) <==> Dense(u / 2, w - 1) && (w > 1 && Bit(u / 2, 0) ==> Bit(u, 0))
  {
    if Dense(u, w) {
      forall k: nat | k + 1 < w - 1 && Bit(u / 2, k + 1) ensures Bit(u / 2, k) {
        assert Bit(u, (k + 1) + 1);
        assert Bit(u, k + 1);
      }
      if w > 1 && Bit(u / 2, 0) { assert Bit(u, 0 + 1); }
    }
    if Dense(u / 2, w - 1) && (w > 1 && Bit(u / 2, 0) ==> Bit(u, 0)) {
      forall k: nat | k + 1 < w && Bit(u, k + 1) ensures Bit(u, k) {
        if k > 0 { assert Bit(u / 2, (k - 1) + 1); }
      }
    }
  }

  /** The 32-bit pattern of an `int`. */
  function Pattern32(val: int): nat
    requires -TWO31 <= val < TWO31
  {
    if val < 0 then val + TWO32 else val
  }

  lemma {:induction false} PatternBits(val: int, w: nat, k: nat)
    requires k < w
    ensures Bit(val + Pow2(w), k) == Bit(val, k)
    decreases k
  {
    if k > 0 {
      assert (val + Pow2(w)) / 2 == val / 2 + Pow2(w - 1);
      PatternBits(val / 2, w - 1, k - 1);
    }
  }

  /**
   * A 32-bit write from the top is right exactly for the patterns 2^m - 1: any other value
   * is written wrongly, because the mask is shifted as a negative number.
   */
  lemma Write32Exactly(val: int)
    requires -TWO31 <= val < TWO31
    ensures MaskedBits(val, 32) == HighFirst(val, 32) <==> exists m: nat :: m <= 32 && Pattern32(val) == Pow2(m) - 1
  {
    var u := Pattern32(val);
    PowersOfTwo();
    Masked32Dense(val);
    DenseIsPowerMinusOne(u, 32);
    forall k: nat | k < 32 ensures Bit(u, k) == Bit(val, k) {
      PatternBits(val, 32, k);
    }
  }

  class BitStreamWriterMSB {
    const stream: array<u8>
    var bytePos: nat
    var bitPos: nat

    ghost predicate Valid()
      reads this
    {
      bitPos < 8
    }

    ghost function Cursor(): nat
      requires Valid()
      reads this
    {
      Position(MsbFirst, bytePos, bitPos)
    }

    constructor (stream: array<u8>)
      ensures this.stream == stream && Valid() && Cursor() == 0
    {
      this.stream, bytePos, bitPos := stream, 0, 7;
    }

    /** Moves to the next bit; a full cache is written out and renewed. */
    method Advance(pos: nat, cached: u8) returns (next: nat, renewed: u8)
      requires pos < 8 && Position(MsbFirst, bytePos, pos) + 1 < 8 * stream.Length
      modifies this`bytePos, stream
      ensures next < 8 && Position(MsbFirst, bytePos, next) == Position(MsbFirst, old(bytePos), pos) + 1
      ensures bytePos < stream.Length && stream[..][bytePos := renewed] == old(stream[..])[old(bytePos) := cached]
    {
      next, renewed := pos, cached;
      if pos > 0 {
        next := pos - 1;
      } else {
        stream[bytePos] := cached;
        next, bytePos := 7, bytePos + 1;
        renewed := stream[bytePos];
      }
    }

    /** One more bit through the cache. */
    method PutCached(pos: nat, cached: u8, b: bool, ghost buf: seq<u8>, ghost p: nat, ghost bits: seq<bool>,
                     ghost k: nat)
      returns (next: nat, renewed: u8)
      requires k < |bits| && b == bits[k] && Written(MsbFirst, buf, p, bits, k, stream[..], bytePos, pos, cached)
      modifies this`bytePos, stream
      ensures Written(MsbFirst, buf, p, bits, k + 1, stream[..], bytePos, next, renewed)
      ensures bytePos == old(bytePos) || bytePos == old(bytePos) + 1
    {
      CachedStep(MsbFirst, buf, p, bits, k, stream[..], bytePos, pos, cached);
      hide PutBits;
      next, renewed := Advance(pos, WithBit(cached, pos, b));
    }

    /** One more bit directly into the stream. */
    method PutDirect(byte: nat, bit: nat, b: bool, ghost buf: seq<u8>, ghost p: nat, ghost bits: seq<bool>,
                     ghost k: nat)
      requires k < |bits| && b == bits[k] && p + |bits| <= 8 * |buf|
      requires byte < stream.Length && bit < 8 && Position(MsbFirst, byte, bit) == p + k
      requires stream[..] == PutBits(MsbFirst, buf, p, bits[..k])
      modifies stream
      ensures stream[..] == PutBits(MsbFirst, buf, p, bits[..k + 1])
    {
      DirectStep(MsbFirst, buf, p, bits, k, stream[..], byte, bit);
      hide PutBits;
      PutAt(byte, bit, b);
    }

    method PutAt(byte: nat, bit: nat, b: bool)
      requires byte < stream.Length && bit < 8
      modifies stream
      ensures stream[..] == old(stream[..])[byte := WithBit(old(stream[byte]), bit, b)]
    {
      stream[byte] := WithBit(stream[byte], bit, b);
    }

    method WriteBit(val: int)
      requires Valid() && bytePos < stream.Length
      modifies this, stream
      ensures Valid() && Cursor() == old(Cursor()) + 1
      ensures stream[..] == PutBit(MsbFirst, old(stream[..]), old(Cursor()), Bit(val, 0))
    {
      stream[bytePos] := WithBit(stream[bytePos], bitPos, val % 2 == 1);
      if bitPos > 0 {
        bitPos := bitPos - 1;
      } else {
        bitPos, bytePos := 7, bytePos + 1;
      }
    }

    method Write(numBits: nat, val: int) returns (ghost touched: set<nat>)
      requires Valid() && numBits <= 32 && Cursor() + numBits < 8 * stream.Length
      modifies this, stream
      ensures Valid() && Cursor() == old(Cursor()) + numBits
      ensures stream[..] == PutBits(MsbFirst, old(stream[..]), old(Cursor()), MaskedBits(val, numBits))
      ensures touched == Touched(MsbFirst, old(bytePos), old(bitPos), numBits)
    {
      ghost var p, buf := Cursor(), stream[..];
      ghost var bits := MaskedBits(val, numBits);
      var pos, cached := bitPos, stream[bytePos];
      var inMask := TopMask(numBits);
      var i := numBits;
      touched := {bytePos};
      assert Reached(touched, bytePos, bytePos);
      NothingWritten(MsbFirst, buf, bits, bytePos, bitPos);
      hide PutBits, Reached, Touched;
      while i > 0
        invariant 0 <= i <= numBits
        invariant inMask == Shr(TopMask(numBits), numBits - i)
        invariant Written(MsbFirst, buf, p, bits, numBits - i, stream[..], bytePos, pos, cached)
        invariant old(bytePos) <= bytePos && Reached(touched, old(bytePos), bytePos)
      {
        ghost var k, before := numBits - i, bytePos;
        ShrStep(TopMask(numBits), k);
        pos, cached := PutCached(pos, cached, CommonBit(val, inMask), buf, p, bits, k);
        ReachedStep(touched, old(bytePos), before, bytePos);
        touched := touched + {bytePos};
        inMask, i := inMask / 2, i - 1;
      }
      AllWritten(MsbFirst, buf, p, bits, stream[..], bytePos, pos, cached);
      ReachedAll(MsbFirst, touched, old(bytePos), old(bitPos), numBits, bytePos);
      stream[bytePos] := cached;
      bitPos := pos;
    }

    /** `bitLoc` names byte and physical bit, as `8 * byte + bit` with bit 7 first. */
    method Poke(bitLoc: nat, numBits: nat, val: int)
      requires numBits <= 32 && Position(MsbFirst, bitLoc / 8, bitLoc % 8) + numBits <= 8 * stream.Length
      modifies stream
      ensures var p := Position(MsbFirst, bitLoc / 8, bitLoc % 8);
              stream[..] == PutBits(MsbFirst, old(stream[..]), p, MaskedBits(val, numBits))
    {
      PokeFrom(bitLoc / 8, bitLoc % 8, numBits, val);
    }

    method PokeFrom(bytePos: nat, bitPos: nat, numBits: nat, val: int)
      requires bitPos < 8 && numBits <= 32 && Position(MsbFirst, bytePos, bitPos) + numBits <= 8 * stream.Length
      modifies stream
      ensures stream[..]
           == PutBits(MsbFirst, old(stream[..]), Position(MsbFirst, bytePos, bitPos), MaskedBits(val, numBits))
    {
      ghost var p := Position(MsbFirst, bytePos, bitPos);
      ghost var buf, bits := stream[..], MaskedBits(val, numBits);
      var byte, bit := bytePos, bitPos;
      var inMask := TopMask(numBits);
      var i := numBits;
      assert bits[..0] == [];
      hide PutBits;
      while i > 0
        invariant 0 <= i <= numBits && 0 <= byte && 0 <= bit < 8
        invariant Position(MsbFirst, byte, bit) == p + (numBits - i)
        invariant inMask == Shr(TopMask(numBits), numBits - i)
        invariant stream[..] == PutBits(MsbFirst, buf, p, bits[..numBits - i])
      {
        ghost var k := numBits - i;
        ShrStep(TopMask(numBits), k);
        PutDirect(byte, bit, CommonBit(val, inMask), buf, p, bits, k);
        if bit > 0 {
          bit := bit - 1;
        } else {
          bit, byte := 7, byte + 1;
        }
        inMask, i := inMask / 2, i - 1;
      }
      assert bits[..numBits] == bits;
    }
  }
}
