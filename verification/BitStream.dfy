/**
  Bits of a byte stream, most significant bit of each byte first, as ISO/IEC 11172-3 (section
  2.4.2.7) reads main data. Masks and shifts by less than a word are remainders and quotients.
 */
module BitStream {

  /** 2^n; `putmask[n]` is one less. */
  function Pow2(n: nat): (p: nat)
    ensures p > 0
  {
    if n == 0 then 1 else 2 * Pow2(n - 1)
  }

  /** Bit `q` of a stream whose byte number `b` is `at(b)`; only its low eight bits matter. */
  ghost function BitAt(at: int -> nat, q: int): nat {
    (at(q / 8) / Pow2(7 - q % 8)) % 2
  }

  /** The `n` bits from bit `p` on, as a big-endian number. */
  ghost function Bits(at: int -> nat, p: int, n: nat): (v: nat)
    ensures v < Pow2(n)
  {
    if n == 0 then 0 else 2 * Bits(at, p, n - 1) + BitAt(at, p + n - 1)
  }

  lemma DoubleFactor(x: nat, y: nat)
    ensures x * (2 * y) == 2 * (x * y)
  {
  }

  lemma {:induction false} Pow2Sum(a: nat, b: nat)
    ensures Pow2(a + b) == Pow2(a) * Pow2(b)
  {
    if b > 0 {
      Pow2Sum(a, b - 1);
      assert Pow2(a + b) == 2 * Pow2(a + (b - 1));
      DoubleFactor(Pow2(a), Pow2(b - 1));
    }
  }

  lemma BitsStep(at: int -> nat, p: int, n: nat)
    requires n > 0
    ensures Bits(at, p, n) == 2 * Bits(at, p, n - 1) + BitAt(at, p + n - 1)
    ensures Pow2(n) == 2 * Pow2(n - 1)
  {
  }

  /** Reading a + b bits is reading a bits and then b. */
  lemma {:induction false} BitsConcat(at: int -> nat, p: int, a: nat, b: nat)
    ensures Bits(at, p, a + b) == Bits(at, p, a) * Pow2(b) + Bits(at, p + a, b)
  {
    hide Bits; hide BitAt; hide Pow2;
    if b == 0 {
      NoBits(at, p + a);
    } else {
      BitsConcat(at, p, a, b - 1);
      BitsStep(at, p, a + b);
      BitsStep(at, p + a, b);
      AppendBit(Bits(at, p, a), Pow2(b - 1), Bits(at, p + a, b - 1), BitAt(at, p + a + b - 1));
    }
  }

  lemma NoBits(at: int -> nat, p: int)
    ensures Bits(at, p, 0) == 0 && Pow2(0) == 1
  {
  }

  lemma AppendBit(high: nat, p: nat, low: nat, bit: nat)
    ensures 2 * (high * p + low) + bit == high * (2 * p) + (2 * low + bit)
  {
    DoubleFactor(high, p);
  }

  /** Streams that agree on the bytes read agree on the bits. */
  lemma {:induction false} BitsSame(at: int -> nat, at': int -> nat, p: int, n: nat)
    requires forall b :: p <= 8 * b + 7 && 8 * b < p + n ==> at(b) == at'(b)
    ensures Bits(at, p, n) == Bits(at', p, n)
  {
    if n > 0 {
      BitsSame(at, at', p, n - 1);
      var q := p + n - 1;
      assert q == 8 * (q / 8) + q % 8;
      assert at(q / 8) == at'(q / 8);
    }
  }

  // ---------------------------------------------------------------- a piece of one byte

  lemma DivStep(x: nat, d: nat)
    requires d > 0
    ensures x / d == 2 * (x / (2 * d)) + (x / d) % 2
  {
    DivDiv(x, d);
  }

  lemma DivDiv(x: nat, d: nat)
    requires d > 0
    ensures x / (2 * d) == (x / d) / 2
  {
    var y, r := x / d, x % d;
    assert x == y * d + r;
    assert y == 2 * (y / 2) + y % 2;
    Spread(y / 2, y % 2, d);
    DivUnique(x, 2 * d, y / 2, (y % 2) * d + r);
  }

  lemma Spread(h: nat, o: nat, d: nat)
    requires o < 2
    ensures (2 * h + o) * d == h * (2 * d) + o * d
    ensures o * d <= d
  {
    assert (2 * h + o) * d == (2 * h) * d + o * d;
  }

  lemma AtLeastOnce(t: int, d: nat)
    requires t >= 1
    ensures t * d >= d
  {
  }

  lemma DivUnique(x: nat, d: nat, q: nat, r: nat)
    requires d > 0 && r < d && x == q * d + r
    ensures x / d == q
  {
    var t := x / d - q;
    assert x == (x / d) * d + x % d;
    assert t * d == (x / d) * d - q * d;
    if t >= 1 {
      AtLeastOnce(t, d);
    } else if t <= -1 {
      AtLeastOnce(-t, d);
    }
  }

  lemma Regroup(q: nat, p: nat, e: nat, y: nat)
    ensures q * (p * (2 * e)) + y * p == (2 * (q * e) + y) * p
  {
    assert p * (2 * e) == 2 * (p * e) && q * (2 * (p * e)) == 2 * (q * (p * e));
    assert q * (p * e) == (q * e) * p;
    assert (2 * (q * e) + y) * p == 2 * (q * e) * p + y * p;
  }

  /** The low `b` bits of `c` have the same bit `m` as `c` has, for m below b. */
  lemma LowBitsKeepBit(c: nat, b: nat, m: nat)
    requires m < b
    ensures ((c % Pow2(b)) / Pow2(m)) % 2 == (c / Pow2(m)) % 2
  {
    Pow2Sum(m, b - m);
    var p, e := Pow2(m), Pow2(b - m - 1);
    LowPartKeepsBit(c, p, e);
  }

  lemma QuotientOfSum(q: nat, x: nat, p: nat, e: nat)
    requires p > 0
    ensures (q * (p * (2 * e)) + x) / p == 2 * (q * e) + x / p
  {
    var y, r := x / p, x % p;
    assert x == y * p + r;
    Regroup(q, p, e, y);
    DivUnique(q * (p * (2 * e)) + x, p, 2 * (q * e) + y, r);
  }

  lemma EvenOffset(k: nat, y: nat)
    ensures (2 * k + y) % 2 == y % 2
  {
  }

  lemma LowPartKeepsBit(c: nat, p: nat, e: nat)
    requires p > 0 && e > 0
    ensures p * (2 * e) > 0 && ((c % (p * (2 * e))) / p) % 2 == (c / p) % 2
  {
    AtLeastOnce(p, 2 * e);
    var d := p * (2 * e);
    var q, x := c / d, c % d;
    assert c == q * d + x;
    QuotientOfSum(q, x, p, e);
    EvenOffset(q * e, x / p);
  }

  /** What a mask and a shift take out of the current byte: its next `k` unread bits. */
  lemma {:induction false} Chunk(at: int -> nat, byte: int, b: nat, k: nat)
    requires k <= b <= 8
    ensures (at(byte) % Pow2(b)) / Pow2(b - k) == Bits(at, 8 * byte + 8 - b, k)
  {
    var x := at(byte) % Pow2(b);
    if k == 0 {
      DivUnique(x, Pow2(b), 0, x);
    } else {
      var q := 8 * byte + 8 - b + k - 1;
      Chunk(at, byte, b, k - 1);
      DivStep(x, Pow2(b - k));
      LowBitsKeepBit(at(byte), b, b - k);
      assert q / 8 == byte && q % 8 == 7 - (b - k);
    }
  }

  /** Eight bits from the start of a byte are that byte. */
  lemma AlignedByte(at: int -> nat, byte: int)
    ensures Bits(at, 8 * byte, 8) == at(byte) % 256
  {
    Chunk(at, byte, 8, 8);
    hide Bits;
    assert Pow2(0) == 1 && Pow2(1) == 2 && Pow2(2) == 4 && Pow2(3) == 8 && Pow2(4) == 16;
    Pow2Sum(4, 4);
    assert Pow2(8) == 256;
  }
}
