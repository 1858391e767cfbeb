/** Bytes, the little-endian values that the file formats are made of, and 32-bit counters. */
module Bytes {
  type Byte = x: int | 0 <= x < 256
  type Word = x: int | 0 <= x < 0x1_0000
  type Dword = x: int | 0 <= x < 0x1_0000_0000

  /** A value cut to a WORD. */
  function ToWord(x: int): Word {
    x % 0x1_0000
  }

  /** A value cut to 32 bits, as an unsigned counter that wraps. */
  function Wrap(x: int): nat {
    x % 0x1_0000_0000
  }

  lemma WrapAdd(x: int, n: int)
    ensures Wrap(Wrap(x) + n) == Wrap(x + n)
  {
    var q := x / 0x1_0000_0000;
    assert Wrap(x) == x - 0x1_0000_0000 * q;
  }

  function Le16(w: Word): (s: seq<Byte>)
    ensures |s| == 2
  {
    [w % 256, w / 256]
  }

  function Le32(d: Dword): (s: seq<Byte>)
    ensures |s| == 4
  {
    [d % 256, d / 0x100 % 256, d / 0x1_0000 % 256, d / 0x100_0000]
  }

  function FromLe16(s: seq<Byte>): Word
    requires |s| == 2
  {
    (s[0] as int) + 256 * (s[1] as int)
  }

  function FromLe32(s: seq<Byte>): Dword
    requires |s| == 4
  {
    (s[0] as int) + 0x100 * (s[1] as int) + 0x1_0000 * (s[2] as int) + 0x100_0000 * (s[3] as int)
  }

  lemma Le32RoundTrip(d: Dword)
    ensures FromLe32(Le32(d)) == d
  {
    var a, b, c := d / 0x100, d / 0x1_0000, d / 0x100_0000;
    assert d == 0x100 * a + d % 0x100;
    assert b == a / 0x100 && c == b / 0x100;
    assert a == 0x100 * b + a % 0x100 && b == 0x100 * c + b % 0x100;
  }

  lemma LeRoundTrip(w: Word, d: Dword)
    ensures FromLe16(Le16(w)) == w
    ensures FromLe32(Le32(d)) == d
  {
    hide Le32; hide FromLe32;
    Le32RoundTrip(d);
  }
}
