/**
  The file format of sprites: size, width, height, the coded rows, and the length of each row, from
  which loading rebuilds where the rows start. A pack is a count and its sprites that are not empty.
 */
module SpriteFile {
  import opened Bytes
  import opened Options
  import opened SpriteCodec
  import opened SpriteDraw

  // ---------------------------------------------------------------- one sprite

  /** The size is a DWORD and there is a start for each row. */
  predicate Sized(s: Sprite) {
    |s.data| < 0x1_0000_0000 && |s.starts| == s.height
  }

  ghost predicate InOrder(s: Sprite) {
    && (|s.starts| > 0 ==> s.starts[0] == 0)
    && (forall i, j :: 0 <= i <= j < |s.starts| ==> s.starts[i] <= s.starts[j])
    && forall i :: 0 <= i < |s.starts| ==> s.starts[i] <= |s.data|
  }

  /** The rows lie in the data one behind the other. */
  ghost predicate Layout(s: Sprite) {
    Sized(s) && InOrder(s)
  }

  function RowLength(s: Sprite, i: nat): int
    requires i < |s.starts|
  {
    (if i + 1 < |s.starts| then s.starts[i + 1] else |s.data|) - s.starts[i]
  }

  /** The row lengths, each cut to a WORD. */
  function Lengths(s: Sprite, n: nat): (b: seq<Byte>)
    requires n <= |s.starts|
    ensures |b| == 2 * n
  {
    if n == 0 then [] else Lengths(s, n - 1) + Le16(ToWord(RowLength(s, n - 1)))
  }

  function Save(s: Sprite): seq<Byte>
    requires Sized(s)
  {
    Le32(|s.data|) + Le16(s.width) + Le16(s.height) + s.data + Lengths(s, s.height)
  }

  /** A 16-bit and a 32-bit value, low byte first. */
  ghost predicate Word16At(b: seq<Byte>, at: nat, w: int) {
    at + 2 <= |b| && b[at] == w % 256 && b[at + 1] == w / 256
  }

  ghost predicate Word32At(b: seq<Byte>, at: nat, d: int) {
    && at + 4 <= |b| && b[at] == d % 256 && b[at + 1] == d / 0x100 % 256
    && b[at + 2] == d / 0x1_0000 % 256 && b[at + 3] == d / 0x100_0000
  }

  lemma Le16At(b: seq<Byte>, at: nat, w: Word)
    requires at + 2 <= |b| && b[at..at + 2] == Le16(w)
    ensures Word16At(b, at, w)
  {
    assert b[at] == b[at..at + 2][0] && b[at + 1] == b[at..at + 2][1];
  }

  lemma Le32At(b: seq<Byte>, at: nat, d: Dword)
    requires at + 4 <= |b| && b[at..at + 4] == Le32(d)
    ensures Word32At(b, at, d)
  {
    var s := b[at..at + 4];
    assert b[at] == s[0] && b[at + 1] == s[1] && b[at + 2] == s[2] && b[at + 3] == s[3];
  }

  /** The format of a sprite: size, width, height, data, and the length of each row cut to 16 bits. */
  lemma SpriteFormat(s: Sprite)
    requires Sized(s)
    ensures var b := Save(s);
      && |b| == 8 + |s.data| + 2 * s.height
      && Word32At(b, 0, |s.data|) && Word16At(b, 4, s.width) && Word16At(b, 6, s.height)
      && b[8..8 + |s.data|] == s.data
      && forall i :: 0 <= i < s.height ==>
           Word16At(b, 8 + |s.data| + 2 * i,
                    ((if i + 1 < s.height then s.starts[i + 1] else |s.data|) - s.starts[i]) % 0x1_0000)
  {
    hide Le16; hide Le32; hide Word16At; hide Word32At; hide Lengths;
    var b := Save(s);
    var size, w, h, l := Le32(|s.data|), Le16(s.width), Le16(s.height), Lengths(s, s.height);
    assert b[0..4] == size && b[4..6] == w && b[6..8] == h;
    Le32At(b, 0, |s.data|);
    Le16At(b, 4, s.width);
    Le16At(b, 6, s.height);
    forall i | 0 <= i < s.height
      ensures Word16At(b, 8 + |s.data| + 2 * i,
                       ((if i + 1 < s.height then s.starts[i + 1] else |s.data|) - s.starts[i]) % 0x1_0000)
    {
      LengthAt(s, s.height, i);
      var at := 8 + |s.data| + 2 * i;
      assert b[8 + |s.data|..] == l;
      assert b[at..at + 2] == l[2 * i..2 * i + 2];
      Le16At(b, at, ToWord(RowLength(s, i)));
    }
  }

  /** The sum of the first `n` words. */
  function SumWords(b: seq<Byte>, n: nat): nat
    requires 2 * n <= |b|
  {
    if n == 0 then 0 else SumWords(b, n - 1) + FromLe16(b[2 * n - 2..2 * n])
  }

  /** The row starts rebuilt from the row lengths. */
  function Starts(b: seq<Byte>, n: nat): (starts: seq<nat>)
    requires 2 * n <= |b|
    ensures |starts| == n
  {
    if n == 0 then [] else Starts(b, n - 1) + [SumWords(b, n - 1)]
  }

  /** The sprite stored at `at`, and where the next one starts; None if the file ends before. */
  function Load(file: seq<Byte>, at: nat): Option<(Sprite, nat)> {
    if at + 8 > |file| then None else
      var size, width, height :=
        FromLe32(file[at..at + 4]), FromLe16(file[at + 4..at + 6]), FromLe16(file[at + 6..at + 8]);
      var lengths, end := at + 8 + size, at + 8 + size + 2 * height;
      if end > |file| then None else
        Some((Sprite(width, height, file[at + 8..lengths], Starts(file[lengths..end], height), true), end))
  }

  /** No row but the last is longer than a WORD can tell. */
  ghost predicate ShortRows(s: Sprite) {
    forall i :: 0 <= i && i + 1 < |s.starts| ==> RowLength(s, i) < 0x1_0000
  }

  lemma {:induction false} LengthAt(s: Sprite, n: nat, i: nat)
    requires i < n <= |s.starts|
    ensures Lengths(s, n)[2 * i..2 * i + 2] == Le16(ToWord(RowLength(s, i)))
  {
    if i + 1 < n {
      LengthAt(s, n - 1, i);
      assert Lengths(s, n)[2 * i..2 * i + 2] == Lengths(s, n - 1)[2 * i..2 * i + 2];
    }
  }

  /** The sums of the stored lengths are the row starts as far as the lengths were not cut. */
  lemma {:induction false} SumsAreStarts(s: Sprite, n: nat)
    requires Layout(s) && n < |s.starts|
    ensures SumWords(Lengths(s, s.height), n) <= s.starts[n]
    ensures SumWords(Lengths(s, s.height), n) == s.starts[n] <==> forall i :: 0 <= i < n ==> RowLength(s, i) < 0x1_0000
  {
    if n > 0 {
      SumsAreStarts(s, n - 1);
      LengthAt(s, s.height, n - 1);
      LeRoundTrip(ToWord(RowLength(s, n - 1)), 0);
      assert s.starts[n - 1] <= s.starts[n];
      assert ToWord(RowLength(s, n - 1)) <= RowLength(s, n - 1);
    }
  }

  lemma {:induction false} StartsAt(b: seq<Byte>, n: nat, i: nat)
    requires 2 * n <= |b| && i < n
    ensures Starts(b, n)[i] == SumWords(b, i)
  {
    if i + 1 < n {
      StartsAt(b, n - 1, i);
    }
  }

  lemma StartsRestored(s: Sprite)
    requires Layout(s)
    ensures Starts(Lengths(s, s.height), s.height) == s.starts <==> ShortRows(s)
  {
    var b := Lengths(s, s.height);
    forall i | 0 <= i < s.height
      ensures Starts(b, s.height)[i] == s.starts[i] <==> forall j :: 0 <= j < i ==> RowLength(s, j) < 0x1_0000
    {
      StartsAt(b, s.height, i);
      SumsAreStarts(s, i);
    }
    if Starts(b, s.height) == s.starts && s.height > 0 {
      var last := s.height - 1;
      assert Starts(b, s.height)[last] == s.starts[last];
    }
  }

  /** What loading makes of a saved sprite. */
  function Restored(s: Sprite): Sprite
    requires Sized(s)
  {
    s.(starts := Starts(Lengths(s, s.height), s.height))
  }

  /** Round trip: what is loaded is what was saved exactly if no row length was cut. */
  lemma SaveLoad(file: seq<Byte>, at: nat, s: Sprite)
    requires Layout(s) && s.init
    requires at + |Save(s)| <= |file| && file[at..at + |Save(s)|] == Save(s)
    ensures Load(file, at) == Some((Restored(s), at + |Save(s)|))
    ensures Restored(s) == s <==> ShortRows(s)
  {
    hide Lengths; hide Starts; hide InOrder; hide ShortRows; hide Le16; hide Le32; hide FromLe16; hide FromLe32;
    var size, w, h, l := Le32(|s.data|), Le16(s.width), Le16(s.height), Lengths(s, s.height);
    SliceSplit(file, at, size + w + h + s.data, l);
    SliceSplit(file, at, size + w + h, s.data);
    SliceSplit(file, at, size + w, h);
    SliceSplit(file, at, size, w);
    LeRoundTrip(s.width, |s.data|);
    LeRoundTrip(s.height, 0);
    StartsRestored(s);
  }

  // ---------------------------------------------------------------- what SetPixel makes can be saved

  lemma {:induction false} EncodedInOrder(rows: seq<seq<Byte>>, key: Byte, width: Word)
    requires |rows| < 0x1_0000
    ensures InOrder(Made(rows, key, width))
  {
    if rows != [] {
      var init := rows[..|rows| - 1];
      hide EncodeRow;
      EncodedInOrder(init, key, width);
      RowsPartition(rows, key, 0);
    }
  }

  lemma EncodedRowLength(rows: seq<seq<Byte>>, key: Byte, width: Word, i: nat)
    requires i < |rows| < 0x1_0000
    ensures RowLength(Made(rows, key, width), i)
         == |EncodeRow(rows[i], key)|
  {
    hide EncodeRow; hide EncodeRows; hide RowStarts;
    RowsPartition(rows, key, i);
  }

  /** A sprite of width 255 or less is at most 0x181 bytes a row, and so survives being saved. */
  lemma {:induction false} NarrowSize(rows: seq<seq<Byte>>, key: Byte)
    requires forall i :: 0 <= i < |rows| ==> |rows[i]| <= 255
    ensures |EncodeRows(rows, key)| <= 385 * |rows|
  {
    if rows != [] {
      NarrowSize(rows[..|rows| - 1], key);
      EncoderBound(rows[|rows| - 1], key);
    }
  }

  lemma NarrowSpriteSurvives(rows: seq<seq<Byte>>, key: Byte, width: Word)
    requires |rows| < 0x1_0000 && forall i :: 0 <= i < |rows| ==> |rows[i]| == width <= 255
    ensures var s := Made(rows, key, width);
      Layout(s) && ShortRows(s) && Load(Save(s), 0) == Some((s, |Save(s)|))
  {
    var s := Made(rows, key, width);
    hide EncodeRow; hide EncodeRows; hide RowStarts; hide InOrder; hide Save; hide Load;
    NarrowSize(rows, key);
    EncodedInOrder(rows, key, width);
    forall i | 0 <= i < |rows| ensures RowLength(s, i) < 0x1_0000 {
      EncodedRowLength(rows, key, width, i);
      NarrowRow(rows[i], key);
    }
    assert Save(s)[0..|Save(s)|] == Save(s);
    SaveLoad(Save(s), 0, s);
  }

  lemma NarrowRow(row: seq<Byte>, key: Byte)
    requires |row| <= 255
    ensures |EncodeRow(row, key)| <= 385
  {
    EncoderBound(row, key);
  }

  /** Whether a sprite made of `rows` survives being saved depends on the codes of all rows but the last. */
  lemma MadeSurvivesIff(rows: seq<seq<Byte>>, key: Byte, width: Word)
    requires |rows| < 0x1_0000 && |EncodeRows(rows, key)| < 0x1_0000_0000
    ensures var s := Made(rows, key, width);
      && Layout(s)
      && (Restored(s) == s <==> forall i :: 0 <= i && i + 1 < |rows| ==> |EncodeRow(rows[i], key)| < 0x1_0000)
  {
    hide EncodeRow; hide EncodeRows; hide RowStarts; hide Starts; hide Lengths; hide RowLength; hide InOrder;
    var s := Made(rows, key, width);
    EncodedInOrder(rows, key, width);
    StartsRestored(s);
    forall i | 0 <= i && i + 1 < |rows| ensures RowLength(s, i) == |EncodeRow(rows[i], key)| {
      EncodedRowLength(rows, key, width, i);
    }
  }

  /** A row of 65533 pixels or more, none transparent, with a row behind it does not survive. */
  lemma SolidRowIsCut(rows: seq<seq<Byte>>, key: Byte, width: Word, i: nat)
    requires |rows| < 0x1_0000 && |EncodeRows(rows, key)| < 0x1_0000_0000
    requires i + 1 < |rows| && |rows[i]| >= 65533 && key !in rows[i]
    ensures !ShortRows(Made(rows, key, width)) && Restored(Made(rows, key, width)) != Made(rows, key, width)
  {
    SolidRowCode(rows[i], key);
    MadeSurvivesIff(rows, key, width);
    hide EncodeRow; hide EncodeRows; hide RowStarts; hide Starts; hide Lengths;
    StartsRestored(Made(rows, key, width));
  }

  /** There are such sprites: two rows as wide as a WORD can tell. */
  lemma WideSpriteIsCut(rows: seq<seq<Byte>>, key: Byte)
    requires |rows| == 2 && |rows[0]| == |rows[1]| == 65535 && key !in rows[0]
    ensures |EncodeRows(rows, key)| < 0x1_0000_0000
    ensures Restored(Made(rows, key, 65535)) != Made(rows, key, 65535)
  {
    EncoderBound(rows[0], key);
    EncoderBound(rows[1], key);
    RowsSnoc(rows, key);
    RowsSnoc(rows[..1], key);
    assert rows[..1][..0] == [] && rows[..1][0] == rows[0];
    hide EncodeRuns; hide EncodeRows; hide Restored; hide Scan;
    SolidRowIsCut(rows, key, 65535, 0);
  }

  lemma {:induction false} DrawableSize(rows: seq<seq<Byte>>, key: Byte)
    requires forall i :: 0 <= i < |rows| ==> Fits(Scan(rows[i], key).runs)
    ensures |EncodeRows(rows, key)| <= 0x1_0000 * |rows|
  {
    hide EncodeRow; hide Fits;
    if rows != [] {
      DrawableSize(rows[..|rows| - 1], key);
      DrawableRowLength(rows[|rows| - 1], key);
    }
  }

  /** A sprite that can be drawn survives being saved exactly if no row of it but the last is full. */
  lemma DrawableSurvivesIff(rows: seq<seq<Byte>>, key: Byte, width: Word)
    requires |rows| < 0x1_0000 && forall i :: 0 <= i < |rows| ==> Fits(Scan(rows[i], key).runs)
    ensures var s := Made(rows, key, width);
      && Layout(s)
      && (Restored(s) == s <==> forall i :: 0 <= i && i + 1 < |rows| ==> !FullRow(Scan(rows[i], key).runs))
  {
    DrawableSize(rows, key);
    hide EncodeRow; hide EncodeRows; hide RowStarts; hide Scan; hide Fits; hide FullRow; hide Restored; hide Layout;
    MadeSurvivesIff(rows, key, width);
    forall i | 0 <= i && i + 1 < |rows|
      ensures |EncodeRow(rows[i], key)| < 0x1_0000 <==> !FullRow(Scan(rows[i], key).runs)
    {
      DrawableRowLength(rows[i], key);
    }
  }

  // ---------------------------------------------------------------- packs

  /** `SaveToFile` of a sprite writes nothing and reports so if there is nothing to save. */
  predicate Kept(s: Sprite) {
    s.init && |s.data| != 0
  }

  /** The sprites of a pack that are saved, in order. */
  function KeptOf(pack: seq<Sprite>): (r: seq<Sprite>)
    ensures |r| <= |pack|
    ensures forall s :: s in r ==> s in pack && Kept(s)
  {
    if pack == [] then [] else
      assert pack[|pack| - 1] in pack;
      KeptOf(pack[..|pack| - 1]) + if Kept(pack[|pack| - 1]) then [pack[|pack| - 1]] else []
  }

  function SaveAll(sprites: seq<Sprite>): seq<Byte>
    requires forall s :: s in sprites ==> Sized(s)
  {
    if sprites == [] then [] else
      var last := sprites[|sprites| - 1];
      assert last in sprites;
      SaveAll(sprites[..|sprites| - 1]) + Save(last)
  }

  /** The bytes of a pack written behind `file`; the count is corrected at the start of the file. */
  function SavePack(file: seq<Byte>, pack: seq<Sprite>): seq<Byte>
    requires |pack| < 0x1_0000 && forall s :: s in pack ==> Sized(s)
  {
    var written := file + Le16(|pack|) + SaveAll(KeptOf(pack));
    if |KeptOf(pack)| == |pack| then written else Le16(|KeptOf(pack)|) + written[2..]
  }

  function LoadAll(file: seq<Byte>, at: nat, n: nat): Option<seq<Sprite>>
    decreases n
  {
    if n == 0 then Some([]) else
      match Load(file, at)
      case None => None
      case Some((s, end)) =>
        match LoadAll(file, end, n - 1)
        case None => None
        case Some(rest) => Some([s] + rest)
  }

  function LoadPack(file: seq<Byte>, at: nat): Option<seq<Sprite>> {
    if at + 2 > |file| then None else LoadAll(file, at + 2, FromLe16(file[at..at + 2]))
  }

  lemma {:induction false} SaveAllCons(sprites: seq<Sprite>)
    requires sprites != [] && forall s :: s in sprites ==> Sized(s)
    ensures sprites[0] in sprites && (forall s :: s in sprites[1..] ==> s in sprites)
    ensures SaveAll(sprites) == Save(sprites[0]) + SaveAll(sprites[1..])
  {
    hide Save;
    var n := |sprites| - 1;
    if n == 0 {
      assert sprites[..0] == [] && sprites[1..] == [];
      assert [] + Save(sprites[0]) == Save(sprites[0]) + [];
    } else {
      var init := sprites[..n];
      assert forall s :: s in init ==> s in sprites;
      SaveAllCons(init);
      assert init[1..] == sprites[1..][..n - 1];
      Associate(Save(sprites[0]), SaveAll(init[1..]), Save(sprites[n]));
    }
  }

  function RestoredAll(sprites: seq<Sprite>): (r: seq<Sprite>)
    requires forall s :: s in sprites ==> Sized(s)
    ensures |r| == |sprites|
  {
    if sprites == [] then [] else
      assert sprites[0] in sprites;
      [Restored(sprites[0])] + RestoredAll(sprites[1..])
  }

  lemma {:induction false} LoadAllSaved(file: seq<Byte>, at: nat, sprites: seq<Sprite>)
    requires forall s :: s in sprites ==> Sized(s)
    requires forall s :: s in sprites ==> InOrder(s) && s.init
    requires at + |SaveAll(sprites)| <= |file| && file[at..at + |SaveAll(sprites)|] == SaveAll(sprites)
    ensures LoadAll(file, at, |sprites|) == Some(RestoredAll(sprites))
    decreases |sprites|
  {
    hide Save; hide Load; hide SaveAll; hide Restored; hide InOrder;
    if sprites != [] {
      SaveAllCons(sprites);
      SliceSplit(file, at, Save(sprites[0]), SaveAll(sprites[1..]));
      SaveLoad(file, at, sprites[0]);
      LoadAllSaved(file, at + |Save(sprites[0])|, sprites[1..]);
    }
  }

  lemma PackLoads(pack: seq<Sprite>)
    requires |pack| < 0x1_0000 && forall s :: s in pack ==> Sized(s)
    requires forall s :: s in pack ==> InOrder(s)
    ensures LoadPack(SavePack([], pack), 0) == Some(RestoredAll(KeptOf(pack)))
  {
    hide SaveAll; hide KeptOf; hide InOrder; hide LoadAll; hide Le16; hide FromLe16; hide SavePack; hide RestoredAll;
    var kept := KeptOf(pack);
    var file, body := SavePack([], pack), SaveAll(kept);
    PackAtStart(pack);
    assert file[0..2] == Le16(|kept|);
    assert file[2..2 + |body|] == body;
    LeRoundTrip(|kept|, 0);
    LoadAllSaved(file, 2, kept);
  }

  /** `ix` are the positions of the sprites that are not empty, in order. */
  ghost predicate Chosen(pack: seq<Sprite>, ix: seq<nat>) {
    && (forall k :: 0 <= k < |ix| ==> ix[k] < |pack|)
    && (forall k, l :: 0 <= k < l < |ix| ==> ix[k] < ix[l])
    && forall i: nat :: i in ix <==> i < |pack| && pack[i].init && |pack[i].data| > 0
  }

  lemma ChosenMore(pack: seq<Sprite>, before: seq<nat>)
    requires pack != [] && Chosen(pack[..|pack| - 1], before)
    ensures var last := pack[|pack| - 1];
      Chosen(pack, before + if last.init && |last.data| > 0 then [|pack| - 1] else [])
  {
    var n := |pack| - 1;
    var last := pack[n];
    var ix := before + if last.init && |last.data| > 0 then [n] else [];
    assert forall k :: 0 <= k < |before| ==> before[k] in before;
    forall i: nat ensures i in ix <==> i < |pack| && pack[i].init && |pack[i].data| > 0 {
      assert i in before <==> i < n && pack[i].init && |pack[i].data| > 0;
    }
  }

  lemma {:induction false} KeptChosen(pack: seq<Sprite>) returns (ix: seq<nat>)
    ensures Chosen(pack, ix)
    ensures |KeptOf(pack)| == |ix|
    ensures forall k :: 0 <= k < |ix| ==> ix[k] < |pack| && KeptOf(pack)[k] == pack[ix[k]]
  {
    hide Chosen;
    ix := [];
    if pack == [] {
      NoneChosen();
    } else {
      var n := |pack| - 1;
      var before := KeptChosen(pack[..n]);
      ChosenMore(pack, before);
      ix := before + if pack[n].init && |pack[n].data| > 0 then [n] else [];
    }
  }

  lemma NoneChosen()
    ensures Chosen([], [])
  {
  }

  lemma RestoredAt(sprites: seq<Sprite>, k: nat)
    requires k < |sprites| && forall s :: s in sprites ==> Sized(s)
    ensures sprites[k] in sprites && RestoredAll(sprites)[k] == Restored(sprites[k])
  {
    hide Restored;
    if k > 0 {
      RestoredAt(sprites[1..], k - 1);
    }
  }

  /**
    A pack saved at the start of a file holds the number of sprites that are not empty, and comes back
    as just these, in order, with all but the row starts as they were; and as exactly these if and only
    if no row length of theirs was cut.
   */
  lemma PackRoundTrip(pack: seq<Sprite>) returns (ix: seq<nat>, loaded: seq<Sprite>)
    requires |pack| < 0x1_0000 && forall s :: s in pack ==> Sized(s)
    requires forall s :: s in pack ==> InOrder(s)
    ensures Chosen(pack, ix) && Word16At(SavePack([], pack), 0, |ix|)
    ensures LoadPack(SavePack([], pack), 0) == Some(loaded) && |loaded| == |ix|
    ensures forall k :: 0 <= k < |ix| ==> loaded[k] == pack[ix[k]].(starts := loaded[k].starts)
    ensures (forall k :: 0 <= k < |ix| ==> loaded[k] == pack[ix[k]]) <==>
            forall k :: 0 <= k < |ix| ==> ShortRows(pack[ix[k]])
  {
    var kept := KeptOf(pack);
    PackLoads(pack);
    ix := KeptChosen(pack);
    loaded := RestoredAll(kept);
    PackCounts(pack);
    hide Chosen; hide KeptOf; hide SavePack; hide LoadPack; hide RestoredAll; hide Starts; hide ShortRows; hide Lengths;
    hide InOrder; hide Word16At;
    forall k | 0 <= k < |ix|
      ensures loaded[k] == pack[ix[k]].(starts := loaded[k].starts)
      ensures loaded[k] == pack[ix[k]] <==> ShortRows(pack[ix[k]])
    {
      RestoredAt(kept, k);
      StartsRestored(kept[k]);
    }
  }

  lemma PackCounts(pack: seq<Sprite>)
    requires |pack| < 0x1_0000 && forall s :: s in pack ==> Sized(s)
    ensures Word16At(SavePack([], pack), 0, |KeptOf(pack)|)
  {
    hide SavePack; hide KeptOf; hide SaveAll; hide Le16;
    PackAtStart(pack);
    assert SavePack([], pack)[0..2] == Le16(|KeptOf(pack)|);
    Le16At(SavePack([], pack), 0, |KeptOf(pack)|);
  }

  lemma PackAtStart(pack: seq<Sprite>)
    requires |pack| < 0x1_0000 && forall s :: s in pack ==> Sized(s)
    ensures SavePack([], pack) == Le16(|KeptOf(pack)|) + SaveAll(KeptOf(pack))
  {
    hide SaveAll; hide KeptOf; hide Le16;
    var body := SaveAll(KeptOf(pack));
    assert [] + Le16(|pack|) == Le16(|pack|);
    assert (Le16(|pack|) + body)[2..] == body;
  }

  /** Further into a file the corrected count lands in the wrong place unless there is none. */
  lemma PackBehindOtherData(file: seq<Byte>, pack: seq<Sprite>)
    requires |file| >= 2 && |pack| < 0x1_0000
    requires forall s :: s in pack ==> Sized(s)
    ensures var saved, n := SavePack(file, pack), |KeptOf(pack)|;
      && |saved| >= |file| + 2 && Word16At(saved, |file|, |pack|)
      && (Word16At(saved, |file|, n) <==> n == |pack|)
      && (n != |pack| ==> Word16At(saved, 0, n))
  {
    hide SaveAll; hide KeptOf; hide Le16; hide FromLe16;
    var n, m := |pack|, |KeptOf(pack)|;
    var written := file + Le16(n) + SaveAll(KeptOf(pack));
    var saved := SavePack(file, pack);
    assert written[|file|..|file| + 2] == Le16(n);
    assert (Le16(m) + written[2..])[|file|..|file| + 2] == written[|file|..|file| + 2];
    Le16At(saved, |file|, n);
    if n != m {
      assert saved[0..2] == Le16(m);
      Le16At(saved, 0, m);
    }
  }

  // ---------------------------------------------------------------- files that go on

  /** What lies behind a stored sprite does not matter. */
  lemma LoadMore(f: seq<Byte>, g: seq<Byte>, at: nat)
    requires f <= g && Load(f, at).Some?
    ensures Load(g, at) == Load(f, at)
  {
    hide Starts; hide FromLe16; hide FromLe32;
    PrefixSlice(f, g, at, at + 4);
    PrefixSlice(f, g, at + 4, at + 6);
    PrefixSlice(f, g, at + 6, at + 8);
    var lengths, end := at + 8 + FromLe32(f[at..at + 4]), Load(f, at).value.1;
    PrefixSlice(f, g, at + 8, lengths);
    PrefixSlice(f, g, lengths, end);
  }

  lemma PrefixSlice(f: seq<Byte>, g: seq<Byte>, a: nat, b: nat)
    requires f <= g && a <= b <= |f|
    ensures g[a..b] == f[a..b]
  {
  }

  /** Where the sprite behind `n` others would start. */
  function EndOf(file: seq<Byte>, at: nat, n: nat): nat
    decreases n
  {
    if n == 0 || Load(file, at).None? then at else EndOf(file, Load(file, at).value.1, n - 1)
  }

  lemma {:induction false} LoadAllMore(f: seq<Byte>, g: seq<Byte>, at: nat, n: nat)
    requires f <= g && LoadAll(f, at, n).Some?
    ensures LoadAll(g, at, n) == LoadAll(f, at, n) && EndOf(g, at, n) == EndOf(f, at, n)
    decreases n
  {
    hide Load;
    if n > 0 {
      LoadMore(f, g, at);
      LoadAllMore(f, g, Load(f, at).value.1, n - 1);
    }
  }

  /** One more sprite behind `n` others. */
  lemma {:induction false} LoadOneMore(file: seq<Byte>, at: nat, n: nat)
    requires LoadAll(file, at, n).Some? && Load(file, EndOf(file, at, n)).Some?
    ensures var (s, end) := Load(file, EndOf(file, at, n)).value;
      && LoadAll(file, at, n + 1) == Some(LoadAll(file, at, n).value + [s])
      && EndOf(file, at, n + 1) == end
    decreases n
  {
    hide Load;
    if n == 0 {
      var (s, end) := Load(file, at).value;
      assert LoadAll(file, end, 0) == Some([]);
      assert [s] + [] == [s] == [] + [s];
    } else {
      var (s, end) := Load(file, at).value;
      LoadOneMore(file, end, n - 1);
      var (s', end') := Load(file, EndOf(file, at, n)).value;
      assert [s] + (LoadAll(file, end, n - 1).value + [s']) == [s] + LoadAll(file, end, n - 1).value + [s'];
    }
  }
}
