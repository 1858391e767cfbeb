/**
  `CGameUpdate::SDLTextInputEvent`: the UTF-8 decoder in front of the input method. Masks and
  shifts of bytes are written as remainders and products.
 */
module TextInput {
  import opened Bytes

  // ---------------------------------------------------------------- UTF-8, section 3 of RFC 3629

  /** A character other than NUL; surrogates are not characters. */
  type Char = c: int | 0 < c <= 0x10FFFF && !(0xD800 <= c <= 0xDFFF) witness 1

  function Encode(c: Char): (s: seq<Byte>)
    ensures 1 <= |s| <= 4 && 0 !in s
  {
    if c < 0x80 then [c]
    else if c < 0x800 then [0xC0 + c / 0x40, 0x80 + c % 0x40]
    else if c < 0x1_0000 then [0xE0 + c / 0x1000, 0x80 + c / 0x40 % 0x40, 0x80 + c % 0x40]
    else [0xF0 + c / 0x4_0000, 0x80 + c / 0x1000 % 0x40, 0x80 + c / 0x40 % 0x40, 0x80 + c % 0x40]
  }

  function EncodeAll(chars: seq<Char>): (s: seq<Byte>)
    ensures 0 !in s
  {
    if chars == [] then [] else Encode(chars[0]) + EncodeAll(chars[1..])
  }

  // ---------------------------------------------------------------- the decoder

  /** What the decoder does at a lead byte. */
  datatype Unit =
    | Emit(code: nat, length: nat)
    | Skip                       // not a lead byte
    | Stop                       // the text ends inside the character

  /** The byte at `i`; a text is followed by its terminator. */
  function At(text: seq<Byte>, i: nat): Byte {
    if i < |text| then text[i] else 0
  }

  function UnitAt(text: seq<Byte>, i: nat): (u: Unit)
    requires i < |text|
    ensures u.Emit? ==> u.length > 0
  {
    var c := text[i];
    if c < 0x80 then Emit(c, 1)
    else if 0xC0 <= c < 0xE0 then
      if At(text, i + 1) == 0 then Stop
      else Emit(c % 0x20 * 0x40 + At(text, i + 1) % 0x40, 2)
    else if 0xE0 <= c < 0xF0 then
      if At(text, i + 1) == 0 || At(text, i + 2) == 0 then Stop
      else Emit(c % 0x10 * 0x1000 + At(text, i + 1) % 0x40 * 0x40 + At(text, i + 2) % 0x40, 3)
    else if 0xF0 <= c < 0xF8 then Emit(0x3F, 4)
    else Skip
  }

  /**
    The codes emitted from position `i` on and the position where the loop ends; past the
    terminator if a four-byte character is cut short.
   */
  function Decoded(text: seq<Byte>, i: nat): (seq<nat>, nat)
    decreases |text| - i
  {
    if i >= |text| then ([], i) else
      match UnitAt(text, i)
      case Stop => ([], i)
      case Skip => Decoded(text, i + 1)
      case Emit(code, length) =>
        var (codes, end) := Decoded(text, i + length);
        ([code] + codes, end)
  }

  /** The loop; `end` is the value of `i` behind it. */
  method Decode(text: seq<Byte>) returns (codes: seq<nat>, end: nat)
    requires 0 !in text
    ensures (codes, end) == Decoded(text, 0)
  {
    codes, end := [], 0;
    assert [] + Decoded(text, 0).0 == Decoded(text, 0).0;
    while end < |text|
      invariant Decoded(text, 0) == (codes + Decoded(text, end).0, Decoded(text, end).1)
      decreases |text| - end
    {
      var c := text[end];
      var charCode: nat := 0;
      if c < 0x80 {
        charCode := c;
        end := end + 1;
      } else if 0xC0 <= c < 0xE0 {
        if At(text, end + 1) == 0 {
          break;
        }
        charCode := c % 0x20 * 0x40 + At(text, end + 1) % 0x40;
        end := end + 2;
      } else if 0xE0 <= c < 0xF0 {
        if At(text, end + 1) == 0 || At(text, end + 2) == 0 {
          break;
        }
        charCode := c % 0x10 * 0x1000 + At(text, end + 1) % 0x40 * 0x40 + At(text, end + 2) % 0x40;
        end := end + 3;
      } else if 0xF0 <= c < 0xF8 {
        charCode := 0x3F;
        end := end + 4;
      } else {
        end := end + 1;
        continue;
      }
      assert forall rest: seq<nat> :: codes + ([charCode] + rest) == codes + [charCode] + rest;
      codes := codes + [charCode];
    }
    assert codes + [] == codes;
  }

  // ---------------------------------------------------------------- what it decodes

  /** A character beyond U+FFFF is passed on as a question mark. */
  function Passed(chars: seq<Char>): seq<nat> {
    seq(|chars|, i requires 0 <= i < |chars| => if chars[i] > 0xFFFF then 0x3F else chars[i])
  }

  lemma UnitOfTwo(text: seq<Byte>, i: nat, x: nat, y: nat)
    requires i + 2 <= |text| && 2 <= x < 0x20 && y < 0x40
    requires text[i] == 0xC0 + x && text[i + 1] == 0x80 + y
    ensures UnitAt(text, i) == Emit(x * 0x40 + y, 2)
  {
  }

  lemma UnitOfThree(text: seq<Byte>, i: nat, x: nat, y: nat, z: nat)
    requires i + 3 <= |text| && x < 0x10 && y < 0x40 && z < 0x40
    requires text[i] == 0xE0 + x && text[i + 1] == 0x80 + y && text[i + 2] == 0x80 + z
    ensures UnitAt(text, i) == Emit(x * 0x1000 + y * 0x40 + z, 3)
  {
  }

  lemma TwoByteChar(text: seq<Byte>, i: nat, c: Char)
    requires 0x80 <= c < 0x800 && i + 2 <= |text| && text[i..i + 2] == Encode(c)
    ensures UnitAt(text, i) == Emit(c, 2)
  {
    hide UnitAt;
    assert text[i] == text[i..i + 2][0] && text[i + 1] == text[i..i + 2][1];
    UnitOfTwo(text, i, c / 0x40, c % 0x40);
  }

  lemma ThreeByteChar(text: seq<Byte>, i: nat, c: Char)
    requires 0x800 <= c < 0x1_0000 && i + 3 <= |text| && text[i..i + 3] == Encode(c)
    ensures UnitAt(text, i) == Emit(c, 3)
  {
    hide UnitAt;
    var e := text[i..i + 3];
    assert text[i] == e[0] && text[i + 1] == e[1] && text[i + 2] == e[2];
    var x, y, z := c / 0x1000, c / 0x40 % 0x40, c % 0x40;
    UnitOfThree(text, i, x, y, z);
    assert c / 0x40 == 0x40 * x + y && c == c / 0x40 * 0x40 + z;
  }

  lemma UnitOfChar(text: seq<Byte>, i: nat, c: Char)
    requires i + |Encode(c)| <= |text| && text[i..i + |Encode(c)|] == Encode(c)
    ensures UnitAt(text, i) == Emit(if c > 0xFFFF then 0x3F else c, |Encode(c)|)
  {
    hide UnitAt;
    assert text[i] == text[i..i + |Encode(c)|][0];
    if c < 0x80 {
      OneByte(text, i);
    } else if c < 0x800 {
      TwoByteChar(text, i, c);
    } else if c < 0x1_0000 {
      ThreeByteChar(text, i, c);
    } else {
      FourBytes(text, i);
    }
  }

  lemma OneByte(text: seq<Byte>, i: nat)
    requires i < |text| && text[i] < 0x80
    ensures UnitAt(text, i) == Emit(text[i], 1)
  {
  }

  lemma FourBytes(text: seq<Byte>, i: nat)
    requires i < |text| && 0xF0 <= text[i] < 0xF8
    ensures UnitAt(text, i) == Emit(0x3F, 4)
  {
  }

  lemma TextParts(text: seq<Byte>, i: nat, e: seq<Byte>, rest: seq<Byte>)
    requires i <= |text| && text[i..] == e + rest
    ensures i + |e| <= |text| && text[i..i + |e|] == e && text[i + |e|..] == rest
  {
    assert text[i..][..|e|] == e && text[i..][|e|..] == rest;
  }

  lemma PassedCons(chars: seq<Char>)
    requires chars != []
    ensures Passed(chars) == [if chars[0] > 0xFFFF then 0x3F else chars[0]] + Passed(chars[1..])
  {
  }

  /**
    The codes of a well-formed text are its characters in order, those beyond U+FFFF replaced, and
    the loop ends exactly at the terminator.
   */
  lemma {:induction false} DecodesFrom(text: seq<Byte>, i: nat, chars: seq<Char>)
    requires i <= |text| && text[i..] == EncodeAll(chars)
    ensures Decoded(text, i) == (Passed(chars), |text|)
    decreases |chars|
  {
    hide Encode; hide UnitAt;
    if chars == [] {
      assert i == |text| && Passed(chars) == [];
    } else {
      var e, rest := Encode(chars[0]), EncodeAll(chars[1..]);
      assert text[i..] == e + rest;
      TextParts(text, i, e, rest);
      UnitOfChar(text, i, chars[0]);
      DecodesFrom(text, i + |e|, chars[1..]);
      PassedCons(chars);
    }
  }

  lemma DecodesWellFormed(chars: seq<Char>)
    ensures Decoded(EncodeAll(chars), 0) == (Passed(chars), |EncodeAll(chars)|)
  {
    var text := EncodeAll(chars);
    assert text[0..] == text;
    DecodesFrom(text, 0, chars);
  }

  // ---------------------------------------------------------------- what is not well-formed

  /** A byte that does not begin a character is passed over. */
  lemma StrayByteSkipped(text: seq<Byte>, i: nat)
    requires i < |text| && (0x80 <= text[i] < 0xC0 || text[i] >= 0xF8)
    ensures Decoded(text, i) == Decoded(text, i + 1)
  {
  }

  /** A two- or three-byte character that is cut short ends the loop in front of it. */
  lemma CutOffStops(text: seq<Byte>, i: nat)
    requires 0 !in text && i < |text|
    requires (0xC0 <= text[i] < 0xE0 && i + 1 == |text|) || (0xE0 <= text[i] < 0xF0 && i + 2 >= |text|)
    ensures Decoded(text, i) == ([], i)
  {
  }

  /** The bytes behind a two- or three-byte lead byte are taken for what they are not asked to be. */
  lemma AnyContinuation(text: seq<Byte>, i: nat)
    requires 0 !in text && i < |text|
    ensures 0xC0 <= text[i] < 0xE0 && i + 1 < |text| ==>
      var lead: int, next: int, (codes, end) := text[i] - 0xC0, text[i + 1], Decoded(text, i + 2);
      Decoded(text, i) == ([lead * 64 + next % 64] + codes, end)
    ensures 0xE0 <= text[i] < 0xF0 && i + 2 < |text| ==>
      var lead: int, next: int, last: int := text[i] - 0xE0, text[i + 1], text[i + 2];
      var (codes, end) := Decoded(text, i + 3);
      Decoded(text, i) == ([lead * 4096 + next % 64 * 64 + last % 64] + codes, end)
  {
    if i + 1 < |text| {
      assert text[i + 1] in text;
    }
    if i + 2 < |text| {
      assert text[i + 2] in text;
    }
  }

  // ---------------------------------------------------------------- where the loop ends

  /** Started at position `i`, the loop gets to look at position `p`. */
  ghost predicate Reaches(text: seq<Byte>, i: nat, p: nat)
    decreases |text| - i
  {
    i == p || (i < |text| &&
      match UnitAt(text, i)
      case Stop => false
      case Skip => Reaches(text, i + 1, p)
      case Emit(_, length) => Reaches(text, i + length, p))
  }

  /** At `p` a four-byte character begins, and the text ends inside it. */
  ghost predicate CutAt(text: seq<Byte>, p: nat) {
    p < |text| && 0xF0 <= text[p] < 0xF8 && p + 4 > |text|
  }

  lemma {:induction false} ReachedEnd(text: seq<Byte>, i: nat) returns (p: nat)
    requires i <= |text| && Decoded(text, i).1 > |text|
    ensures Reaches(text, i, p) && CutAt(text, p)
    decreases |text| - i
  {
    if i < |text| {
      match UnitAt(text, i)
      case Stop =>
      case Skip =>
        p := ReachedEnd(text, i + 1);
      case Emit(_, length) =>
        if i + length > |text| {
          p := i;
        } else {
          p := ReachedEnd(text, i + length);
        }
    }
  }

  lemma {:induction false} CutPassesEnd(text: seq<Byte>, i: nat, p: nat)
    requires i <= |text| && Reaches(text, i, p) && CutAt(text, p)
    ensures Decoded(text, i).1 > |text|
    decreases |text| - i
  {
    if i == p {
      FourBytes(text, i);
    } else {
      match UnitAt(text, i)
      case Skip => CutPassesEnd(text, i + 1, p);
      case Emit(_, length) =>
        if i + length <= |text| {
          CutPassesEnd(text, i + length, p);
        }
    }
  }

  /**
    Only the branch for four-byte characters does not look for the terminator: the loop passes it
    exactly if it gets to such a character of which fewer than four bytes are left.
   */
  lemma PassesEndIff(text: seq<Byte>)
    ensures Decoded(text, 0).1 > |text| <==> exists p: nat :: Reaches(text, 0, p) && CutAt(text, p)
  {
    if Decoded(text, 0).1 > |text| {
      var p := ReachedEnd(text, 0);
    }
    if p: nat :| Reaches(text, 0, p) && CutAt(text, p) {
      CutPassesEnd(text, 0, p);
    }
  }

  /** So a text without such a lead byte among its last three bytes keeps the loop within it. */
  lemma StaysWithin(text: seq<Byte>)
    requires forall p :: 0 <= p < |text| && |text| - 3 <= p ==> !(0xF0 <= text[p] < 0xF8)
    ensures Decoded(text, 0).1 <= |text|
  {
    PassesEndIff(text);
  }

  /** Of a four-byte character that is cut short the decoder does not notice the terminator. */
  lemma CutShort(text: seq<Byte>)
    requires text == [0xF0]
    ensures Decoded(text, 0) == ([0x3F], 4)
  {
    FourBytes(text, 0);
    assert Decoded(text, 4) == ([], 4);
    assert [0x3F] + [] == [0x3F];
  }
}
