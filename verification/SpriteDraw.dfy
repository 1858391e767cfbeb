/**
  What drawing a coded sprite does to a surface, and that it is what drawing the uncoded rows
  pixel by pixel would do.
 */
module SpriteDraw {
  import opened Bytes
  import opened SpriteCodec

  /** `pal[n]`. */
  function Colour(pal: seq<Word>, n: Byte): Word {
    if n < |pal| then pal[n] else 0
  }

  /** Byte `b`, 0 or 1, of a colour as it lies in memory. */
  function ColourByte(pal: seq<Word>, n: Byte, b: nat): Byte
    requires b < 2
  {
    Le16(Colour(pal, n))[b]
  }

  // ---------------------------------------------------------------- one row

  // A surface is a block of bytes; a pixel is two of them, not necessarily at an even address.

  function RunPixel(dest: seq<Byte>, at: int, pixels: seq<Byte>, pal: seq<Word>, i: nat): Byte
    requires i < |dest|
  {
    if at <= i < at + 2 * |pixels| then ColourByte(pal, pixels[(i - at) / 2], (i - at) % 2) else dest[i]
  }

  function DrawRun(dest: seq<Byte>, at: int, pixels: seq<Byte>, pal: seq<Word>): (r: seq<Byte>)
    ensures |r| == |dest|
  {
    seq(|dest|, i requires 0 <= i < |dest| => RunPixel(dest, at, pixels, pal, i))
  }

  /** The pixels that runs and gaps take up. */
  ghost function Width(runs: seq<Run>): nat {
    if runs == [] then 0 else
      Width(runs[..|runs| - 1]) + runs[|runs| - 1].gap + |runs[|runs| - 1].pixels|
  }

  /** The decoder: past each gap, the pixels of the run. */
  ghost function DrawRuns(dest: seq<Byte>, at: int, runs: seq<Run>, pal: seq<Word>): (r: seq<Byte>)
    ensures |r| == |dest|
  {
    if runs == [] then dest else
      var init, last := runs[..|runs| - 1], runs[|runs| - 1];
      DrawRun(DrawRuns(dest, at, init, pal), at + 2 * (Width(init) + last.gap), last.pixels, pal)
  }

  function RowPixel(dest: seq<Byte>, at: int, row: seq<Byte>, key: Byte, pal: seq<Word>, i: nat): Byte
    requires i < |dest|
  {
    if at <= i < at + 2 * |row| && row[(i - at) / 2] != key then ColourByte(pal, row[(i - at) / 2], (i - at) % 2)
    else dest[i]
  }

  /** The meaning of a row: opaque pixels get their colour, transparent ones show what was there. */
  ghost function Painted(dest: seq<Byte>, at: int, row: seq<Byte>, key: Byte, pal: seq<Word>): (r: seq<Byte>)
    ensures |r| == |dest|
  {
    seq(|dest|, i requires 0 <= i < |dest| => RowPixel(dest, at, row, key, pal, i))
  }

  lemma PaintedRun(dest: seq<Byte>, at: int, row: seq<Byte>, run: Run, key: Byte, pal: seq<Word>)
    requires key !in run.pixels
    ensures Painted(dest, at, row + Keys(run.gap, key) + run.pixels, key, pal)
         == DrawRun(Painted(dest, at, row, key, pal), at + 2 * (|row| + run.gap), run.pixels, pal)
  {
    hide ColourByte;
    var longer := row + Keys(run.gap, key) + run.pixels;
    var start := at + 2 * (|row| + run.gap);
    forall i | 0 <= i < |dest|
      ensures Painted(dest, at, longer, key, pal)[i]
           == DrawRun(Painted(dest, at, row, key, pal), start, run.pixels, pal)[i]
    {
      if start <= i < at + 2 * |longer| {
        assert (i - start) / 2 == (i - at) / 2 - |row| - run.gap && (i - start) % 2 == (i - at) % 2;
        assert longer[(i - at) / 2] == run.pixels[(i - start) / 2];
      }
    }
  }

  lemma PaintedNone(dest: seq<Byte>, at: int, key: Byte, pal: seq<Word>)
    ensures Painted(dest, at, [], key, pal) == dest
  {
  }

  lemma {:induction false} DrawIsPaint(dest: seq<Byte>, at: int, runs: seq<Run>, key: Byte, pal: seq<Word>)
    requires Opaque(runs, key)
    ensures |Unscan(runs, key)| == Width(runs)
    ensures DrawRuns(dest, at, runs, pal) == Painted(dest, at, Unscan(runs, key), key, pal)
  {
    hide DrawRun; hide Painted; hide Keys;
    if runs == [] {
      PaintedNone(dest, at, key, pal);
    } else {
      var init := runs[..|runs| - 1];
      DrawIsPaint(dest, at, init, key, pal);
      PaintedRun(dest, at, Unscan(init, key), runs[|runs| - 1], key, pal);
    }
  }

  /** Decoding a scanned row draws the row. */
  lemma DrawScanned(dest: seq<Byte>, at: int, row: seq<Byte>, key: Byte, pal: seq<Word>)
    ensures DrawRuns(dest, at, Scan(row, key).runs, pal) == Painted(dest, at, row, key, pal)
    ensures Width(Scan(row, key).runs) <= |row|
  {
    var s := Scan(row, key);
    ScanLossless(row, key);
    DrawIsPaint(dest, at, s.runs, key, pal);
    var u := Unscan(s.runs, key);
    forall i | 0 <= i < |dest|
      ensures Painted(dest, at, u, key, pal)[i] == Painted(dest, at, u + Keys(s.gap, key), key, pal)[i]
    {
    }
  }

  // ---------------------------------------------------------------- sprites

  /** A `CSpritePal`: the coded rows one behind the other, and where each starts. */
  datatype Sprite = Sprite(width: Word, height: Word, data: seq<Byte>, starts: seq<nat>, init: bool)

  function EncodeRows(rows: seq<seq<Byte>>, key: Byte): seq<Byte> {
    if rows == [] then [] else EncodeRows(rows[..|rows| - 1], key) + EncodeRow(rows[|rows| - 1], key)
  }

  function RowStarts(rows: seq<seq<Byte>>, key: Byte): (starts: seq<nat>)
    ensures |starts| == |rows|
  {
    if rows == [] then [] else RowStarts(rows[..|rows| - 1], key) + [|EncodeRows(rows[..|rows| - 1], key)|]
  }

  /** The sprite that `SetPixel` makes of `rows`. */
  function Made(rows: seq<seq<Byte>>, key: Byte, width: Word): Sprite
    requires |rows| < 0x1_0000
  {
    Sprite(width, |rows|, EncodeRows(rows, key), RowStarts(rows, key), true)
  }

  /** Row `i` is coded in data[a..b], and row i + 1 starts at b. */
  ghost predicate Coded(rows: seq<seq<Byte>>, key: Byte, data: seq<Byte>, starts: seq<nat>, i: nat)
    requires i < |rows| == |starts|
  {
    var end := starts[i] + |EncodeRow(rows[i], key)|;
    && end <= |data| && data[starts[i]..end] == EncodeRow(rows[i], key)
    && end == if i + 1 < |rows| then starts[i + 1] else |data|
  }

  lemma CodedLonger(rows: seq<seq<Byte>>, key: Byte, data: seq<Byte>, starts: seq<nat>, row: seq<Byte>, i: nat)
    requires i < |rows| == |starts| && Coded(rows, key, data, starts, i)
    ensures Coded(rows + [row], key, data + EncodeRow(row, key), starts + [|data|], i)
  {
    hide EncodeRow;
    var end := starts[i] + |EncodeRow(rows[i], key)|;
    assert (data + EncodeRow(row, key))[starts[i]..end] == data[starts[i]..end];
  }

  lemma CodedLast(rows: seq<seq<Byte>>, key: Byte, data: seq<Byte>, starts: seq<nat>, row: seq<Byte>)
    requires |rows| == |starts|
    ensures Coded(rows + [row], key, data + EncodeRow(row, key), starts + [|data|], |rows|)
  {
    hide EncodeRow;
    assert (data + EncodeRow(row, key))[|data|..|data| + |EncodeRow(row, key)|] == EncodeRow(row, key);
  }

  lemma RowsSnoc(rows: seq<seq<Byte>>, key: Byte)
    requires rows != []
    ensures var init, last := rows[..|rows| - 1], rows[|rows| - 1];
      && EncodeRows(rows, key) == EncodeRows(init, key) + EncodeRow(last, key)
      && RowStarts(rows, key) == RowStarts(init, key) + [|EncodeRows(init, key)|]
      && EncodeRows([], key) == []
  {
  }

  /** The coded rows partition the data in order. */
  lemma {:induction false} RowsPartition(rows: seq<seq<Byte>>, key: Byte, i: nat)
    requires i < |rows|
    ensures Coded(rows, key, EncodeRows(rows, key), RowStarts(rows, key), i)
    ensures RowStarts(rows, key)[0] == 0
  {
    hide Coded; hide EncodeRow; hide EncodeRows; hide RowStarts;
    var n := |rows| - 1;
    var init := rows[..n];
    RowsSnoc(rows, key);
    assert rows == init + [rows[n]];
    if i < n {
      RowsPartition(init, key, i);
      CodedLonger(init, key, EncodeRows(init, key), RowStarts(init, key), rows[n], i);
    } else {
      CodedLast(init, key, EncodeRows(init, key), RowStarts(init, key), rows[n]);
      if n > 0 {
        RowsPartition(init, key, 0);
      } else {
        assert init == [];
      }
    }
  }

  // ---------------------------------------------------------------- drawing all rows

  /** Where row `i` begins on a surface whose rows are `pitch` apart. */
  function RowAt(base: int, pitch: int, i: nat): int {
    if i == 0 then base else RowAt(base, pitch, i - 1) + pitch
  }

  lemma {:induction false} RowAtIs(base: int, pitch: int, i: nat)
    ensures RowAt(base, pitch, i) == base + i * pitch
  {
    if i > 0 {
      RowAtIs(base, pitch, i - 1);
      OneMore(i - 1, pitch);
    }
  }

  lemma OneMore(i: int, pitch: int)
    ensures (i + 1) * pitch == i * pitch + pitch
  {
  }

  lemma {:induction false} RowAtLater(base: int, pitch: int, i: nat, j: nat)
    requires i <= j
    ensures pitch >= 0 ==> RowAt(base, pitch, i) <= RowAt(base, pitch, j)
    ensures pitch >= 0 && i < j ==> RowAt(base, pitch, i) + pitch <= RowAt(base, pitch, j)
    ensures pitch <= 0 && i < j ==> RowAt(base, pitch, i) + pitch >= RowAt(base, pitch, j)
  {
    if i < j {
      RowAtLater(base, pitch, i, j - 1);
    }
  }

  /** `Blt`: the first `n` rows decoded and drawn. */
  ghost function DrawRows(dest: seq<Byte>, base: int, pitch: int, data: seq<Byte>, starts: seq<nat>, n: nat,
        pal: seq<Word>): (r: seq<Byte>)
    requires n <= |starts|
    ensures |r| == |dest|
  {
    if n == 0 then dest else
      var above := DrawRows(dest, base, pitch, data, starts, n - 1, pal);
      match DecodeRow(data, starts[n - 1])
      case None => above
      case Some(runs) => DrawRuns(above, RowAt(base, pitch, n - 1), runs, pal)
  }

  ghost function PaintRows(dest: seq<Byte>, base: int, pitch: int, rows: seq<seq<Byte>>, n: nat, key: Byte,
        pal: seq<Word>): (r: seq<Byte>)
    requires n <= |rows|
    ensures |r| == |dest|
  {
    if n == 0 then dest else
      Painted(PaintRows(dest, base, pitch, rows, n - 1, key, pal), RowAt(base, pitch, n - 1), rows[n - 1], key, pal)
  }

  /** Drawing the code of some rows is painting the rows, whenever their numbers fit in a byte. */
  lemma {:induction false} DrawEncoded(dest: seq<Byte>, base: int, pitch: int, rows: seq<seq<Byte>>, n: nat,
        key: Byte, pal: seq<Word>)
    requires n <= |rows| && forall i :: 0 <= i < n ==> Fits(Scan(rows[i], key).runs)
    ensures DrawRows(dest, base, pitch, EncodeRows(rows, key), RowStarts(rows, key), n, pal)
         == PaintRows(dest, base, pitch, rows, n, key, pal)
  {
    hide Scan; hide Fits; hide EncodeRow; hide EncodeRows; hide RowStarts; hide DecodeRow; hide DrawRuns; hide Painted;
    if n > 0 {
      DrawEncoded(dest, base, pitch, rows, n - 1, key, pal);
      RowsPartition(rows, key, n - 1);
      RowRoundTrip(EncodeRows(rows, key), RowStarts(rows, key)[n - 1], rows[n - 1], key);
      DrawScanned(PaintRows(dest, base, pitch, rows, n - 1, key, pal), RowAt(base, pitch, n - 1),
                  rows[n - 1], key, pal);
    }
  }

  /** Byte `t` lies in one of the first `n` rows. */
  ghost predicate Inside(base: int, pitch: int, rows: seq<seq<Byte>>, n: nat, t: int)
    requires n <= |rows|
  {
    exists i :: 0 <= i < n && InRow(base, pitch, rows, i, t)
  }

  ghost predicate InRow(base: int, pitch: int, rows: seq<seq<Byte>>, i: nat, t: int)
    requires i < |rows|
  {
    RowAt(base, pitch, i) <= t < RowAt(base, pitch, i) + 2 * |rows[i]|
  }

  /** Rows do not overlap on the surface; the pitch of a surface kept upside down is negative. */
  ghost predicate Apart(rows: seq<seq<Byte>>, pitch: int) {
    forall k :: 0 <= k < |rows| ==> 2 * |rows[k]| <= if pitch < 0 then -pitch else pitch
  }

  lemma NotInTwoRows(base: int, pitch: int, rows: seq<seq<Byte>>, i: nat, k: nat, t: int)
    requires i < |rows| && k < |rows| && i != k && Apart(rows, pitch) && InRow(base, pitch, rows, i, t)
    ensures !InRow(base, pitch, rows, k, t)
  {
    if i < k {
      RowAtLater(base, pitch, i, k);
    } else {
      RowAtLater(base, pitch, k, i);
    }
  }

  /** What row `i` paints at byte `t` of it is not painted over. */
  lemma {:induction false} PaintsInside(dest: seq<Byte>, base: int, pitch: int, rows: seq<seq<Byte>>, n: nat,
        key: Byte, pal: seq<Word>, i: nat, t: nat)
    requires i < n <= |rows| && Apart(rows, pitch) && t < |dest| && InRow(base, pitch, rows, i, t)
    ensures PaintRows(dest, base, pitch, rows, n, key, pal)[t]
         == RowPixel(dest, RowAt(base, pitch, i), rows[i], key, pal, t)
  {
    hide RowAt; hide Apart;
    if i < n - 1 {
      PaintsInside(dest, base, pitch, rows, n - 1, key, pal, i, t);
      NotInTwoRows(base, pitch, rows, i, n - 1, t);
    } else {
      forall k | 0 <= k < i ensures !InRow(base, pitch, rows, k, t) {
        NotInTwoRows(base, pitch, rows, i, k, t);
      }
      PaintsOutside(dest, base, pitch, rows, i, key, pal, t);
    }
  }

  lemma {:induction false} PaintsOutside(dest: seq<Byte>, base: int, pitch: int, rows: seq<seq<Byte>>, n: nat,
        key: Byte, pal: seq<Word>, t: int)
    requires n <= |rows| && 0 <= t < |dest| && !Inside(base, pitch, rows, n, t)
    ensures PaintRows(dest, base, pitch, rows, n, key, pal)[t] == dest[t]
  {
    hide RowAt;
    if n > 0 {
      assert !InRow(base, pitch, rows, n - 1, t);
      PaintsOutside(dest, base, pitch, rows, n - 1, key, pal, t);
    }
  }

  /**
    `drawn` is `dest` with each pixel whose source is not the colour key set to the palette's colour
    of its source, and every other byte, transparent, trailing or outside, as it was.
   */
  ghost predicate ShowsRows(drawn: seq<Byte>, dest: seq<Byte>, base: int, pitch: int, rows: seq<seq<Byte>>, key: Byte,
        pal: seq<Word>)
  {
    && |drawn| == |dest|
    && (forall i, j :: 0 <= i < |rows| && 0 <= j < |rows[i]| ==>
          PixelShown(drawn, dest, RowAt(base, pitch, i) + 2 * j, rows[i][j], key, pal))
    && (forall t :: 0 <= t < |dest| && !Inside(base, pitch, rows, |rows|, t) ==> drawn[t] == dest[t])
  }

  /** The two bytes from `t` on, so far as they are on the surface: `pal[p]`, low byte first. */
  ghost predicate PixelShown(drawn: seq<Byte>, dest: seq<Byte>, t: int, p: Byte, key: Byte, pal: seq<Word>)
    requires |drawn| == |dest|
  {
    && (0 <= t < |dest| && p == key ==> drawn[t] == dest[t])
    && (0 <= t + 1 < |dest| && p == key ==> drawn[t + 1] == dest[t + 1])
    && (0 <= t < |dest| && p != key && p < |pal| ==> drawn[t] == pal[p] % 256)
    && (0 <= t + 1 < |dest| && p != key && p < |pal| ==> drawn[t + 1] == pal[p] / 256)
  }

  lemma ColourBytes(pal: seq<Word>, p: Byte)
    requires p < |pal|
    ensures ColourByte(pal, p, 0) == pal[p] % 256 && ColourByte(pal, p, 1) == pal[p] / 256
  {
  }

  lemma PaintShows(dest: seq<Byte>, base: int, pitch: int, rows: seq<seq<Byte>>, key: Byte, pal: seq<Word>)
    requires Apart(rows, pitch)
    ensures ShowsRows(PaintRows(dest, base, pitch, rows, |rows|, key, pal), dest, base, pitch, rows, key, pal)
  {
    hide Inside; hide PaintRows; hide RowAt; hide ColourByte; hide Apart;
    var drawn := PaintRows(dest, base, pitch, rows, |rows|, key, pal);
    forall i, j | 0 <= i < |rows| && 0 <= j < |rows[i]|
      ensures PixelShown(drawn, dest, RowAt(base, pitch, i) + 2 * j, rows[i][j], key, pal)
    {
      var t := RowAt(base, pitch, i) + 2 * j;
      if rows[i][j] < |pal| {
        ColourBytes(pal, rows[i][j]);
      }
      if 0 <= t < |dest| {
        PaintsInside(dest, base, pitch, rows, |rows|, key, pal, i, t);
      }
      if 0 <= t + 1 < |dest| {
        PaintsInside(dest, base, pitch, rows, |rows|, key, pal, i, t + 1);
      }
    }
    forall t | 0 <= t < |dest| && !Inside(base, pitch, rows, |rows|, t) ensures drawn[t] == dest[t] {
      PaintsOutside(dest, base, pitch, rows, |rows|, key, pal, t);
    }
  }

  /**
    Encode/decode meaning, for any base, odd or negative pitches included: drawing a coded sprite
    shows its rows.
   */
  lemma EncodeThenDraw(dest: seq<Byte>, base: int, pitch: int, rows: seq<seq<Byte>>, key: Byte, pal: seq<Word>)
    requires Apart(rows, pitch) && forall i :: 0 <= i < |rows| ==> Fits(Scan(rows[i], key).runs)
    ensures ShowsRows(DrawRows(dest, base, pitch, EncodeRows(rows, key), RowStarts(rows, key), |rows|, pal),
                      dest, base, pitch, rows, key, pal)
  {
    hide ShowsRows; hide Apart;
    DrawEncoded(dest, base, pitch, rows, |rows|, key, pal);
    PaintShows(dest, base, pitch, rows, key, pal);
  }

  /** In particular sprites of width 255 or less are drawn as they were before they were coded. */
  lemma NarrowSpritesDraw(dest: seq<Byte>, base: int, pitch: int, rows: seq<seq<Byte>>, key: Byte, pal: seq<Word>)
    requires forall i :: 0 <= i < |rows| ==> |rows[i]| <= 255
    ensures DrawRows(dest, base, pitch, EncodeRows(rows, key), RowStarts(rows, key), |rows|, pal)
         == PaintRows(dest, base, pitch, rows, |rows|, key, pal)
  {
    forall i | 0 <= i < |rows| ensures Fits(Scan(rows[i], key).runs) {
      NarrowFits(rows[i], key);
    }
    DrawEncoded(dest, base, pitch, rows, |rows|, key, pal);
  }
}
