/**
  `Bit_Reserve`: the bit reservoir of a Layer III decoder (ISO/IEC 11172-3, section 2.4.3.4), a
  ring of 4096 cells that is filled byte by byte and read bit by bit, with rewinds. All counters
  are 32-bit and wrap.
 */
module BitReserve {
  import opened BitStream
  import opened Bytes

  /** 4096 divides 2^32, so the wrapped counter selects the same cell. */
  lemma WrapCell(x: int)
    ensures Wrap(x) % 4096 == x % 4096
  {
  }

  /** The byte stream of a ring: cell numbers are taken modulo its size. */
  ghost function Cells(ring: seq<nat>): int -> nat
    requires |ring| == 4096
  {
    b => ring[b % 4096]
  }

  ghost function Stream(put: seq<nat>): int -> nat {
    b => if 0 <= b < |put| then put[b] else 0
  }

  /** The last 4096 values put are in their cells. */
  ghost predicate Recent(ring: seq<nat>, put: seq<nat>) {
    |ring| == 4096 && forall b :: 0 <= b < |put| && |put| - 4096 <= b ==> ring[b % 4096] == put[b]
  }

  /** The bits lie within the last 4096 bytes put. */
  ghost predicate Readable(put: seq<nat>, p: int, n: nat) {
    0 <= p && 8 * (|put| - 4096) <= p && p + n <= 8 * |put|
  }

  /** Within the last 4096 bytes put, the ring has the bits of the stream. */
  lemma RingHasStream(ring: seq<nat>, put: seq<nat>, p: int, n: nat)
    requires Recent(ring, put) && Readable(put, p, n)
    ensures Bits(Cells(ring), p, n) == Bits(Stream(put), p, n)
  {
    BitsSame(Cells(ring), Stream(put), p, n);
  }

  lemma PutKeepsRecent(ring: seq<nat>, put: seq<nat>, val: nat)
    requires Recent(ring, put)
    ensures Recent(ring[|put| % 4096 := val], put + [val])
  {
    forall b | 0 <= b < |put| && |put| + 1 - 4096 <= b ensures b % 4096 != |put| % 4096 {
      OtherCell(b, |put|);
    }
  }

  lemma OtherCell(a: nat, b: nat)
    requires a < b < a + 4096
    ensures a % 4096 != b % 4096
  {
  }

  // Shifts, and `& putmask[n]`.

  function Shl(x: nat, n: nat): nat {
    x * Pow2(n)
  }

  function Shr(x: nat, n: nat): int {
    x / Pow2(n)
  }

  function Mask(x: nat, n: nat): nat {
    x % Pow2(n)
  }

  /** `hi | lo` where `hi` has no bit below bit n and `lo` none from there on. */
  function Or(hi: nat, lo: nat, n: nat): nat
    requires Mask(hi, n) == 0 && lo < Pow2(n)
  {
    hi + lo
  }

  class Bit_Reserve {
    var offset: nat
    var totbit: nat
    var bufByteIdx: nat
    var bufBitIdx: nat
    const buf: array<nat>
    ghost var put: seq<nat>       // every value put so far
    ghost var byteIdx: int        // the byte counter, had it not wrapped

    /** The number of bits between the start of the stream and the read position. */
    ghost function Pos(): int
      reads this
    {
      8 * byteIdx + 8 - bufBitIdx
    }

    ghost predicate Valid()
      reads this, buf
    {
      && buf.Length == 4096 && Recent(buf[..], put)
      && offset == Wrap(|put|)
      && bufBitIdx <= 8
      && bufByteIdx == Wrap(byteIdx)
      && totbit == Wrap(Pos())
    }

    constructor ()
      ensures Valid() && fresh(buf) && put == [] && Pos() == 0
    {
      offset, totbit, bufByteIdx, bufBitIdx := 0, 0, 0, 8;
      buf := new nat[4096];
      put, byteIdx := [], 0;
    }

    /** Writes a byte into the stream. */
    method HPutBuf(val: nat)
      requires Valid()
      modifies this, buf
      ensures Valid() && put == old(put) + [val] && Pos() == old(Pos())
    {
      hide Wrap;
      PutKeepsRecent(buf[..], put, val);
      WrapCell(|put|);
      WrapAdd(|put|, 1);
      ghost var cell := |put| % 4096;
      assert offset % 4096 == cell;
      ghost var ring := buf[..][cell := val];
      buf[offset % 4096] := val;
      assert buf[..] == ring;
      offset := Wrap(offset + 1);
      put := put + [val];
    }

    /** Reads the next `n` bits. */
    method HGetBits(n: nat) returns (val: nat)
      requires Valid() && n <= 31
      modifies this
      ensures Valid() && put == old(put) && Pos() == old(Pos()) + n
      ensures val == Bits(Cells(buf[..]), old(Pos()), n) < 0x8000_0000
      ensures Readable(put, old(Pos()), n) ==> val == Bits(Stream(put), old(Pos()), n)
    {
      hide Wrap; hide Pow2; hide Bits; hide Recent; hide Stream; hide Readable; hide Cells;
      hide Shl; hide Shr; hide Mask;
      if Readable(put, Pos(), n) {
        RingHasStream(buf[..], put, Pos(), n);
      }
      ghost var at, start := Cells(buf[..]), Pos();
      val := 0;
      var j: nat := n;
      WrapAdd(start, n);
      totbit := Wrap(totbit + n);
      NothingRead(at, start, n);
      while j > 0
        invariant j <= n && bufBitIdx <= 8 && bufByteIdx == Wrap(byteIdx)
        invariant Pos() == start + (n - j)
        invariant val == Shl(Bits(at, start, n - j), j)
        invariant put == old(put) && offset == old(offset) && totbit == Wrap(start + n)
        decreases j
      {
        if bufBitIdx == 0 {
          WrapAdd(byteIdx, 1);
          bufBitIdx := 8;
          bufByteIdx := Wrap(bufByteIdx + 1);
          byteIdx := byteIdx + 1;
        }
        var k := if j < bufBitIdx then j else bufBitIdx;
        var tmp: int := Mask(buf[bufByteIdx % 4096], bufBitIdx);
        CellRead(buf[..], byteIdx);
        PieceRead(at, start, n, j, byteIdx, bufBitIdx, k);
        bufBitIdx := bufBitIdx - k;
        tmp := Shr(tmp, bufBitIdx);
        j := j - k;
        val := Or(val, Shl(tmp, j), j + k);
      }
      SmallPow2(n);
    }

    /** Goes back `n` bits. */
    method RewindNBits(n: nat)
      requires Valid() && n < 0x8000_0000
      modifies this
      ensures Valid() && put == old(put) && Pos() == old(Pos()) - n
    {
      hide Wrap;
      WrapAdd(Pos(), 0 - n);
      totbit := Wrap(totbit - n);
      bufBitIdx := bufBitIdx + n;
      while bufBitIdx >= 8
        invariant Pos() == old(Pos()) - n
        invariant bufByteIdx == Wrap(byteIdx) && put == old(put) && offset == old(offset)
        invariant totbit == Wrap(old(Pos()) - n)
      {
        WrapAdd(byteIdx, -1);
        bufBitIdx := bufBitIdx - 8;
        bufByteIdx := Wrap(bufByteIdx - 1);
        byteIdx := byteIdx - 1;
      }
    }

    /** Goes back `n` bytes. */
    method RewindNBytes(n: nat)
      requires Valid() && n < 0x1000_0000
      modifies this
      ensures Valid() && put == old(put) && Pos() == old(Pos()) - 8 * n
    {
      hide Wrap;
      WrapAdd(Pos(), 0 - 8 * n);
      WrapAdd(byteIdx, 0 - n);
      totbit := Wrap(totbit - 8 * n);
      bufByteIdx := Wrap(bufByteIdx - n);
      byteIdx := byteIdx - n;
    }
  }

  lemma NothingRead(at: int -> nat, p: int, n: nat)
    ensures Bits(at, p, 0) == 0 && Shl(Bits(at, p, 0), n) == 0
    ensures Shl(Bits(at, p, n), 0) == Bits(at, p, n)
  {
  }

  lemma Products(h: nat, c: nat, p: nat, q: nat)
    ensures h * (p * q) + c * q == (h * p + c) * q
    ensures c < p && q > 0 ==> c * q < p * q
  {
    assert h * (p * q) == (h * p) * q;
    if c < p && q > 0 {
      AtLeastOnce(p - c, q);
      assert (p - c) * q == p * q - c * q;
    }
  }

  /** Appending a piece of `k` bits below what has been read: the pieces do not overlap. */
  lemma NextPiece(high: nat, piece: nat, j: nat, k: nat)
    requires k <= j && piece < Pow2(k)
    ensures (high * Pow2(j)) % Pow2(j) == 0
    ensures piece * Pow2(j - k) < Pow2(j)
    ensures high * Pow2(j) + piece * Pow2(j - k) == (high * Pow2(k) + piece) * Pow2(j - k)
  {
    Pow2Sum(k, j - k);
    DivUnique(high * Pow2(j), Pow2(j), high, 0);
    Products(high, piece, Pow2(k), Pow2(j - k));
  }

  /** The masked counter selects the cell of the byte. */
  lemma CellRead(ring: seq<nat>, byte: int)
    requires |ring| == 4096
    ensures Cells(ring)(byte) == ring[Wrap(byte) % 4096]
  {
    WrapCell(byte);
  }

  /** What one turn of the loop takes out of the current byte and where it puts it. */
  lemma PieceRead(at: int -> nat, start: int, n: nat, j: nat, byte: int, b: nat, k: nat)
    requires k <= j <= n && k <= b <= 8 && 8 * byte + 8 - b == start + (n - j)
    ensures var val, piece := Shl(Bits(at, start, n - j), j), Shr(Mask(at(byte), b), b - k);
      && piece >= 0 && Mask(val, j) == 0 && Shl(piece, j - k) < Pow2(j)
      && val + Shl(piece, j - k) == Shl(Bits(at, start, n - (j - k)), j - k)
  {
    hide Bits; hide Pow2;
    Chunk(at, byte, b, k);
    BitsConcat(at, start, n - j, k);
    NextPiece(Bits(at, start, n - j), Bits(at, 8 * byte + 8 - b, k), j, k);
  }

  lemma SmallPow2(n: nat)
    requires n <= 31
    ensures Pow2(n) <= 0x8000_0000 && Pow2(0) == 1
    decreases 31 - n
  {
    if n < 31 {
      SmallPow2(n + 1);
    } else {
      assert Pow2(4) == 16 && Pow2(3) == 8;
      Pow2Sum(4, 4);
      Pow2Sum(8, 8);
      Pow2Sum(16, 8);
      Pow2Sum(24, 4);
      Pow2Sum(28, 3);
    }
  }

  // ---------------------------------------------------------------- several calls

  /** Two reads in a row return the two halves of what one read returns. */
  method ReadInTwo(r: Bit_Reserve, a: nat, b: nat) returns (high: nat, low: nat)
    requires r.Valid() && a + b <= 31
    modifies r
    ensures r.Valid() && r.put == old(r.put) && r.Pos() == old(r.Pos()) + a + b
    ensures high * Pow2(b) + low == Bits(Cells(r.buf[..]), old(r.Pos()), a + b)
  {
    hide Bits; hide Pow2; hide Recent; hide Wrap; hide Cells; hide Stream; hide Readable;
    BitsConcat(Cells(r.buf[..]), r.Pos(), a, b);
    high := r.HGetBits(a);
    low := r.HGetBits(b);
  }

  /** Bits that are read, rewound over and read again are the same; bytes put meanwhile do not matter. */
  method RewindAndReread(r: Bit_Reserve, n: nat, val: nat) returns (first: nat, second: nat)
    requires r.Valid() && n <= 31
    requires Readable(r.put, r.Pos(), n) && 8 * (|r.put| - 4095) <= r.Pos()
    modifies r, r.buf
    ensures r.Valid() && r.Pos() == old(r.Pos()) + n
    ensures first == second == Bits(Stream(old(r.put)), old(r.Pos()), n)
  {
    ghost var put, pos := r.put, r.Pos();
    first := r.HGetBits(n);
    r.HPutBuf(val);
    r.RewindNBits(n);
    second := r.HGetBits(n);
    BitsSame(Stream(put), Stream(put + [val]), pos, n);
  }
}
