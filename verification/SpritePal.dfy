/** `CSpritePal`: the loops that code and decode rows, and that write and read files. */
module SpritePals {
  import opened Bytes
  import opened Options
  import opened SpriteCodec
  import opened SpriteDraw
  import opened SpriteFile
  import opened Streams

  // ---------------------------------------------------------------- coding one row

  lemma EncodeSnoc(init: seq<Run>, last: Run)
    ensures EncodeRuns(init + [last]) == EncodeRuns(init) + EncodeRun(last)
  {
    assert (init + [last])[..|init|] == init;
  }

  lemma PixelAdded(runs: seq<Run>, p: Byte)
    requires runs != []
    ensures var n := |runs| - 1;
      var grown := runs[n := Run(runs[n].gap, runs[n].pixels + [p])];
      var at := |EncodeRuns(runs)| - |runs[n].pixels| - 1;
      && 0 <= at < |EncodeRuns(runs)|
      && EncodeRuns(grown) == (EncodeRuns(runs) + [p])[at := ToByte(|runs[n].pixels| + 1)]
  {
    hide EncodeRuns; hide ToByte;
    var n := |runs| - 1;
    var run := Run(runs[n].gap, runs[n].pixels + [p]);
    var before := EncodeRuns(runs[..n]);
    EncodeSnoc(runs[..n], runs[n]);
    EncodeSnoc(runs[..n], run);
    assert runs[..n] + [runs[n]] == runs && runs[..n] + [run] == runs[n := run];
    assert EncodeRun(run) == (EncodeRun(runs[n]) + [p])[1 := ToByte(|runs[n].pixels| + 1)];
    assert before + (EncodeRun(runs[n]) + [p])[1 := ToByte(|runs[n].pixels| + 1)]
        == (before + EncodeRun(runs[n]) + [p])[|before| + 1 := ToByte(|runs[n].pixels| + 1)];
  }

  lemma RunAdded(runs: seq<Run>, gap: nat, p: Byte)
    ensures EncodeRuns(runs + [Run(gap, [p])]) == EncodeRuns(runs) + [ToByte(gap), ToByte(1), p]
  {
    assert (runs + [Run(gap, [p])])[..|runs|] == runs;
  }

  /**
    The variables of the inner loop of `SetPixel` after the pixels scanned so far: the scratch
    buffer `b` holds the code of their runs, but for the length of a run that can still grow.
   */
  ghost predicate Coding(b: seq<Byte>, s: Scanned, index: nat, count: nat, lastColor: nat, trans: nat, color: nat,
        checkTrans: bool) {
    && checkTrans == !s.Open() && trans == s.gap
    && index == |EncodeRuns(s.runs)| <= |b|
    && if checkTrans then
         color == 0 && count == |s.runs| && b[..index] == EncodeRuns(s.runs)
       else
         && count + 1 == |s.runs| && color == |s.runs[count].pixels|
         && lastColor + color + 1 == index && b[..index][lastColor := ToByte(color)] == EncodeRuns(s.runs)
  }

  lemma KeyAfterRun(b: seq<Byte>, s: Scanned, index: nat, count: nat, lastColor: nat, color: nat, key: Byte)
    requires Coding(b, s, index, count, lastColor, 0, color, false)
    ensures lastColor < |b|
    ensures Coding(b[lastColor := ToByte(color)], ScanNext(s, key, key), index, count + 1, lastColor, 1, 0, true)
  {
    hide EncodeRuns;
    assert b[lastColor := ToByte(color)][..index] == b[..index][lastColor := ToByte(color)];
  }

  lemma KeyAfterKey(b: seq<Byte>, s: Scanned, index: nat, count: nat, lastColor: nat, trans: nat, key: Byte)
    requires Coding(b, s, index, count, lastColor, trans, 0, true)
    ensures Coding(b, ScanNext(s, key, key), index, count, lastColor, trans + 1, 0, true)
  {
  }

  lemma PixelAfterKey(b: seq<Byte>, s: Scanned, index: nat, count: nat, lastColor: nat, trans: nat, p: Byte, key: Byte)
    requires Coding(b, s, index, count, lastColor, trans, 0, true) && p != key && index + 3 <= |b|
    ensures Coding(b[index := ToByte(trans)][index + 2 := p], ScanNext(s, p, key),
                   index + 3, count, index + 1, 0, 1, false)
  {
    RunAdded(s.runs, trans, p);
    hide EncodeRuns;
    var b' := b[index := ToByte(trans)][index + 2 := p];
    assert b'[..index + 3][index + 1 := ToByte(1)] == b[..index] + [ToByte(trans), ToByte(1), p];
  }

  lemma PixelAfterRun(b: seq<Byte>, s: Scanned, index: nat, count: nat, lastColor: nat, color: nat, p: Byte, key: Byte)
    requires Coding(b, s, index, count, lastColor, 0, color, false) && p != key && index < |b|
    ensures Coding(b[index := p], ScanNext(s, p, key), index + 1, count, lastColor, 0, color + 1, false)
  {
    PixelAdded(s.runs, p);
    hide EncodeRuns;
    var runs := EncodeRuns(s.runs);
    assert b[index := p][..index + 1][lastColor := ToByte(color + 1)] == (runs + [p])[lastColor := ToByte(color + 1)];
  }

  lemma CodingDone(b: seq<Byte>, s: Scanned, index: nat, count: nat, lastColor: nat, trans: nat, color: nat,
        checkTrans: bool)
    requires Coding(b, s, index, count, lastColor, trans, color, checkTrans)
    ensures checkTrans ==> b[..index] == EncodeRuns(s.runs) && count == |s.runs|
    ensures !checkTrans ==>
      && lastColor < |b| && b[lastColor := ToByte(color)][..index] == EncodeRuns(s.runs)
      && count + 1 == |s.runs|
    ensures index == |EncodeRuns(s.runs)|
  {
    hide EncodeRuns;
    if !checkTrans {
      assert b[lastColor := ToByte(color)][..index] == b[..index][lastColor := ToByte(color)];
    }
  }

  lemma Started(b: seq<Byte>, key: Byte)
    ensures Coding(b, Scan([], key), 0, 0, 0, 0, 0, true)
  {
  }

  lemma ScanLonger(row: seq<Byte>, key: Byte, j: nat)
    requires j < |row|
    ensures Scan(row[..j + 1], key) == ScanNext(Scan(row[..j], key), row[j], key)
    ensures |EncodeRuns(Scan(row[..j], key).runs)| <= j + 1 + (j + 1) / 2
  {
    assert row[..j + 1][..j] == row[..j];
    EncoderBound(row[..j], key);
  }

  /** The inner loop of `SetPixel`: the code of a row, without its first byte, in the scratch buffer. */
  method EncodeInto(scratch: array<Byte>, row: seq<Byte>, key: Byte) returns (index: nat, count: nat)
    requires scratch.Length == 2 * |row| + 10
    modifies scratch
    ensures index <= |row| + 1 + (|row| + 1) / 2 && index <= scratch.Length
    ensures scratch[..index] == EncodeRuns(Scan(row, key).runs) && count == |Scan(row, key).runs|
  {
    hide Coding; hide Scan; hide ScanNext; hide EncodeRuns; hide ToByte;
    index, count := 0, 0;
    var lastColor: nat, trans: nat, color: nat, checkTrans := 0, 0, 0, true;
    assert row[..0] == [];
    Started(scratch[..], key);
    for j := 0 to |row|
      invariant Coding(scratch[..], Scan(row[..j], key), index, count, lastColor, trans, color, checkTrans)
    {
      ghost var b, s := scratch[..], Scan(row[..j], key);
      ScanLonger(row, key, j);
      CodingDone(b, s, index, count, lastColor, trans, color, checkTrans);
      CodingColors(b, s, index, count, lastColor, trans, color, checkTrans);
      if row[j] == key {
        if !checkTrans {
          KeyAfterRun(b, s, index, count, lastColor, color, key);
          count := count + 1;
          scratch[lastColor] := ToByte(color);
          color := 0;
          checkTrans := true;
        } else {
          KeyAfterKey(b, s, index, count, lastColor, trans, key);
        }
        trans := trans + 1;
      } else {
        if checkTrans {
          PixelAfterKey(b, s, index, count, lastColor, trans, row[j], key);
          scratch[index] := ToByte(trans);
          index := index + 1;
          trans := 0;
          lastColor := index;
          index := index + 1;
          checkTrans := false;
        } else {
          PixelAfterRun(b, s, index, count, lastColor, color, row[j], key);
        }
        scratch[index] := row[j];
        index := index + 1;
        color := color + 1;
      }
    }
    assert row[..|row|] == row;
    EncoderBound(row, key);
    CodingDone(scratch[..], Scan(row, key), index, count, lastColor, trans, color, checkTrans);
    ghost var b := scratch[..];
    if !checkTrans {
      count := count + 1;
      scratch[lastColor] := ToByte(color);
      assert scratch[..] == b[lastColor := ToByte(color)];
    }
    assert scratch[..index] == scratch[..][..index];
  }

  lemma CodingColors(b: seq<Byte>, s: Scanned, index: nat, count: nat, lastColor: nat, trans: nat, color: nat,
        checkTrans: bool)
    requires Coding(b, s, index, count, lastColor, trans, color, checkTrans)
    ensures if checkTrans then color == 0 else trans == 0
  {
  }

  // ---------------------------------------------------------------- coding all rows

  /** Row `i` of an image whose rows are `pitch` bytes apart. */
  ghost function SourceRow(source: seq<Byte>, pitch: Word, width: Word, i: nat): seq<Byte> {
    var a := RowAt(0, pitch, i);
    if 0 <= a && a + width <= |source| then source[a..a + width] else []
  }

  ghost function SourceRows(source: seq<Byte>, pitch: Word, width: Word, n: nat): (rows: seq<seq<Byte>>)
    ensures |rows| == n
  {
    seq(n, i requires 0 <= i < n => SourceRow(source, pitch, width, i))
  }

  /** The image lies within the source. */
  ghost predicate ImageFits(source: seq<Byte>, pitch: Word, width: Word, height: nat) {
    height > 0 ==> RowAt(0, pitch, height - 1) + width <= |source|
  }

  lemma RowInSource(source: seq<Byte>, pitch: Word, width: Word, height: nat, i: nat)
    requires ImageFits(source, pitch, width, height) && i < height
    ensures 0 <= RowAt(0, pitch, i) && RowAt(0, pitch, i) + width <= |source|
    ensures |SourceRow(source, pitch, width, i)| == width
  {
    RowAtLater(0, pitch, 0, i);
    RowAtLater(0, pitch, i, height - 1);
  }

  /** Pixel `j` of row `i`. */
  lemma SourceRowsAre(source: seq<Byte>, pitch: Word, width: Word, height: nat, i: nat, j: nat)
    requires ImageFits(source, pitch, width, height) && i < height && j < width
    ensures |SourceRows(source, pitch, width, height)[i]| == width
    ensures 0 <= i * pitch + j < |source|
    ensures SourceRows(source, pitch, width, height)[i][j] == source[i * pitch + j]
  {
    RowInSource(source, pitch, width, height, i);
    RowAtIs(0, pitch, i);
  }

  ghost predicate CodedRows(coded: seq<seq<Byte>>, rows: seq<seq<Byte>>, key: Byte) {
    |coded| == |rows| && forall i :: 0 <= i < |rows| ==> coded[i] == EncodeRow(rows[i], key)
  }

  /** The outer loop of `SetPixel`: each row is coded through the scratch buffer. */
  method CodeRows(source: seq<Byte>, pitch: Word, width: Word, height: Word, key: Byte) returns (coded: seq<seq<Byte>>)
    requires ImageFits(source, pitch, width, height)
    ensures CodedRows(coded, SourceRows(source, pitch, width, height), key)
  {
    hide Scan; hide EncodeRuns; hide ImageFits;
    var scratch := new Byte[2 * width + 10];
    var start := 0;
    coded := [];
    for i := 0 to height
      invariant start == RowAt(0, pitch, i)
      invariant CodedRows(coded, SourceRows(source, pitch, width, i), key)
    {
      RowInSource(source, pitch, width, height, i);
      var row := source[start..start + width];
      var index, count := EncodeInto(scratch, row, key);
      coded := coded + [[ToByte(count)] + scratch[..index]];
      start := start + pitch;
    }
  }

  lemma {:induction false} CodedPrefix(coded: seq<seq<Byte>>, rows: seq<seq<Byte>>, key: Byte, i: nat)
    requires CodedRows(coded, rows, key) && i < |rows|
    ensures EncodeRows(rows[..i + 1], key) == EncodeRows(rows[..i], key) + coded[i]
    ensures RowStarts(rows[..i + 1], key) == RowStarts(rows[..i], key) + [|EncodeRows(rows[..i], key)|]
    ensures |EncodeRows(rows[..i + 1], key)| <= |EncodeRows(rows, key)|
    decreases |rows| - i
  {
    hide EncodeRow;
    assert rows[..i + 1][..i] == rows[..i];
    if i + 1 == |rows| {
      assert rows[..i + 1] == rows;
    } else {
      CodedPrefix(coded, rows, key, i + 1);
    }
  }

  /** `memcpy` of `b` to `a + at`. */
  method CopyInto(a: array<Byte>, at: nat, b: seq<Byte>)
    requires at + |b| <= a.Length
    modifies a
    ensures a[..at + |b|] == old(a[..at]) + b
  {
    for i := 0 to |b|
      invariant a[..at + i] == old(a[..at]) + b[..i]
    {
      a[at + i] := b[i];
    }
    assert b[..|b|] == b;
  }

  // ---------------------------------------------------------------- decoding one row

  /** The row coded at `start` can be drawn at `at`: it ends within the data, the surface and the palette. */
  ghost predicate RowDrawable(data: seq<Byte>, start: nat, at: int, bytes: nat, colours: nat) {
    DecodeRow(data, start).Some? &&
    var runs := DecodeRow(data, start).value;
    && (runs != [] ==> 0 <= at && at + 2 * Width(runs) <= bytes)
    && forall k, p :: 0 <= k < |runs| && p in runs[k].pixels ==> p < colours
  }

  lemma DecodeFirst(data: seq<Byte>, at: nat, count: nat)
    requires count > 0 && DecodeRuns(data, at, count).Some?
    ensures var runs := DecodeRuns(data, at, count).value;
      && at + 2 <= |data| && at + 2 + data[at + 1] <= |data|
      && runs[0] == Run(data[at], data[at + 2..at + 2 + data[at + 1]])
      && DecodeRuns(data, at + 2 + data[at + 1], count - 1) == Some(runs[1..])
  {
  }

  lemma DrawNext(dest: seq<Byte>, at: int, runs: seq<Run>, pal: seq<Word>, r: nat)
    requires r < |runs|
    ensures DrawRuns(dest, at, runs[..r + 1], pal)
         == DrawRun(DrawRuns(dest, at, runs[..r], pal), at + 2 * (Width(runs[..r]) + runs[r].gap), runs[r].pixels, pal)
    ensures Width(runs[..r + 1]) == Width(runs[..r]) + runs[r].gap + |runs[r].pixels|
  {
    assert runs[..r + 1][..r] == runs[..r];
  }

  lemma {:induction false} WidthGrows(runs: seq<Run>, r: nat)
    requires r <= |runs|
    ensures Width(runs[..r]) <= Width(runs)
    decreases |runs| - r
  {
    if r == |runs| {
      assert runs[..r] == runs;
    } else {
      assert runs[..r + 1][..r] == runs[..r];
      WidthGrows(runs, r + 1);
    }
  }

  /** Pixel `k` of the run is `pal` of it, low byte first, and all else is as before. */
  ghost predicate RunShown(drawn: seq<Byte>, dest: seq<Byte>, at: nat, pixels: seq<Byte>, pal: seq<Word>) {
    && |drawn| == |dest| && at + 2 * |pixels| <= |dest|
    && (forall k :: 0 <= k < |pixels| ==>
          && pixels[k] < |pal|
          && drawn[at + 2 * k] == pal[pixels[k]] % 256 && drawn[at + 2 * k + 1] == pal[pixels[k]] / 256)
    && forall i :: 0 <= i < at || at + 2 * |pixels| <= i < |dest| ==> drawn[i] == dest[i]
  }

  lemma DrawRunShows(dest: seq<Byte>, at: nat, pixels: seq<Byte>, pal: seq<Word>)
    requires at + 2 * |pixels| <= |dest| && forall p :: p in pixels ==> p < |pal|
    ensures RunShown(DrawRun(dest, at, pixels, pal), dest, at, pixels, pal)
  {
    hide ColourByte;
    var drawn := DrawRun(dest, at, pixels, pal);
    forall k | 0 <= k < |pixels|
      ensures pixels[k] < |pal|
      ensures drawn[at + 2 * k] == pal[pixels[k]] % 256 && drawn[at + 2 * k + 1] == pal[pixels[k]] / 256
    {
      assert pixels[k] in pixels;
      ColourBytes(pal, pixels[k]);
      assert drawn[at + 2 * k] == RunPixel(dest, at, pixels, pal, at + 2 * k);
      assert drawn[at + 2 * k + 1] == RunPixel(dest, at, pixels, pal, at + 2 * k + 1);
    }
  }

  /** The innermost loop of `Blt`: the pixels of one run, two bytes each. */
  method BltRun(dest: array<Byte>, at: nat, pixels: seq<Byte>, pal: seq<Word>)
    requires at + 2 * |pixels| <= dest.Length && forall p :: p in pixels ==> p < |pal|
    modifies dest
    ensures dest[..] == DrawRun(old(dest[..]), at, pixels, pal)
    ensures RunShown(dest[..], old(dest[..]), at, pixels, pal)
  {
    hide Le16; hide RunShown;
    DrawRunShows(dest[..], at, pixels, pal);
    for k := 0 to |pixels|
      invariant forall i :: 0 <= i < dest.Length ==>
        dest[i] == if at <= i < at + 2 * k then ColourByte(pal, pixels[(i - at) / 2], (i - at) % 2) else old(dest[i])
    {
      assert pixels[k] in pixels;
      var bytes := Le16(pal[pixels[k]]);
      dest[at + 2 * k] := bytes[0];
      dest[at + 2 * k + 1] := bytes[1];
    }
  }

  /** One row of `Blt`. */
  method BltRow(dest: array<Byte>, at: int, data: seq<Byte>, start: nat, pal: seq<Word>)
    requires RowDrawable(data, start, at, dest.Length, |pal|)
    modifies dest
    ensures dest[..] == DrawRuns(old(dest[..]), at, DecodeRow(data, start).value, pal)
  {
    hide DecodeRuns; hide DrawRuns; hide Width; hide DrawRun;
    ghost var runs := DecodeRow(data, start).value;
    ghost var r := 0;
    var p: nat, q: int, j: nat := start + 1, at, data[start];
    NothingDrawn(dest[..], at, runs, pal);
    while j > 0
      invariant r + j == |runs| && q == at + 2 * Width(runs[..r])
      invariant DecodeRuns(data, p, j) == Some(runs[r..])
      invariant dest[..] == DrawRuns(old(dest[..]), at, runs[..r], pal)
      decreases j
    {
      DecodeFirst(data, p, j);
      DrawNext(old(dest[..]), at, runs, pal, r);
      WidthGrows(runs, r + 1);
      q := q + 2 * (data[p] as int);
      var colorCount: nat := data[p + 1];
      p := p + 2;
      assert runs[r..][0] == runs[r] && runs[r..][1..] == runs[r + 1..];
      assert runs[r] in runs;
      BltRun(dest, q, data[p..p + colorCount], pal);
      q := q + 2 * colorCount;
      p := p + colorCount;
      j := j - 1;
      r := r + 1;
    }
    assert runs[..r] == runs;
  }

  lemma NothingDrawn(dest: seq<Byte>, at: int, runs: seq<Run>, pal: seq<Word>)
    ensures DrawRuns(dest, at, runs[..0], pal) == dest && Width(runs[..0]) == 0 && runs[0..] == runs
  {
  }

  // ---------------------------------------------------------------- reading a sprite

  /** From `end` on, content[a..b] is zero. */
  ghost predicate ZeroBehind(content: seq<Byte>, a: nat, b: nat, end: nat)
    requires b <= |content|
  {
    forall i :: a <= i < b && i >= end ==> content[i] == 0
  }

  /** `read` into a member that is zero. */
  method ReadZeroed(file: InStream, n: nat) returns (b: seq<Byte>)
    requires file.Valid()
    modifies file
    ensures file.Valid() && old(file.Content()) <= file.Content() && |b| == n
    ensures file.Pos() == old(file.Pos()) + n <= |file.Content()| && b == file.Content()[old(file.Pos())..file.Pos()]
    ensures old(file.memory) == [] && old(file.pos) + n <= |file.bytes| ==> file.memory == []
    ensures ZeroBehind(file.Content(), old(file.Pos()), file.Pos(), |file.bytes|)
  {
    ghost var p := file.Pos();
    b := file.Read(seq(n, _ => 0));
    forall i | p <= i < p + n && i >= |file.bytes| ensures file.Content()[i] == 0 {
      assert file.Content()[i] == b[i - p];
    }
  }

  lemma HeaderParts(c1: seq<Byte>, c2: seq<Byte>, c3: seq<Byte>, p: nat, end: nat)
    requires c1 <= c2 <= c3 && p + 4 <= |c1| && p + 6 <= |c2| && p + 8 <= |c3|
    requires ZeroBehind(c1, p, p + 4, end) && ZeroBehind(c2, p + 4, p + 6, end) && ZeroBehind(c3, p + 6, p + 8, end)
    ensures ZeroBehind(c3, p, p + 8, end)
    ensures c3[p..p + 4] == c1[p..p + 4] && c3[p + 4..p + 6] == c2[p + 4..p + 6]
  {
  }

  /** Size, width and height. */
  method ReadHeader(file: InStream) returns (size: Dword, width: Word, height: Word)
    requires file.Valid()
    modifies file
    ensures file.Valid() && old(file.Content()) <= file.Content()
    ensures var p := old(file.Pos());
      && file.Pos() == p + 8 <= |file.Content()|
      && size == FromLe32(file.Content()[p..p + 4]) && width == FromLe16(file.Content()[p + 4..p + 6])
      && height == FromLe16(file.Content()[p + 6..p + 8])
    ensures old(file.memory) == [] && old(file.pos) + 8 <= |file.bytes| ==> file.memory == []
    ensures ZeroBehind(file.Content(), old(file.Pos()), old(file.Pos()) + 8, |file.bytes|)
  {
    hide FromLe16; hide FromLe32; hide ZeroBehind;
    ghost var p := file.Pos();
    var b := ReadZeroed(file, 4);
    ghost var c1 := file.Content();
    var w := ReadZeroed(file, 2);
    ghost var c2 := file.Content();
    var h := ReadZeroed(file, 2);
    HeaderParts(c1, c2, file.Content(), p, |file.bytes|);
    size, width, height := FromLe32(b), FromLe16(w), FromLe16(h);
  }

  /** `read` into a block just allocated, which holds whatever it holds. */
  method ReadBlock(file: InStream, n: nat) returns (a: array<Byte>)
    requires file.Valid()
    modifies file
    ensures fresh(a) && a.Length == n
    ensures file.Valid() && old(file.Content()) <= file.Content()
    ensures file.Pos() == old(file.Pos()) + n <= |file.Content()|
    ensures a[..] == file.Content()[old(file.Pos())..file.Pos()]
    ensures old(file.memory) == [] && old(file.pos) + n <= |file.bytes| ==> file.memory == []
  {
    a := new Byte[n];
    var b := file.Read(a[..]);
    CopyInto(a, 0, b);
    assert a[..] == a[..n] == a[..0] + b == b;
  }

  /** The data and the row lengths. */
  method ReadBody(file: InStream, n: nat, height: nat) returns (data: array<Byte>, lengths: seq<Byte>)
    requires file.Valid()
    modifies file
    ensures fresh(data) && data.Length == n && |lengths| == 2 * height
    ensures file.Valid() && old(file.Content()) <= file.Content()
    ensures var p := old(file.Pos());
      && file.Pos() == p + n + 2 * height <= |file.Content()|
      && data[..] == file.Content()[p..p + n] && lengths == file.Content()[p + n..p + n + 2 * height]
    ensures old(file.memory) == [] && old(file.pos) + n + 2 * height <= |file.bytes| ==> file.memory == []
  {
    ghost var p := file.Pos();
    data := ReadBlock(file, n);
    ghost var content := file.Content();
    var index := ReadBlock(file, 2 * height);
    lengths := index[..];
    assert file.Content()[p..p + n] == content[p..p + n];
  }

  lemma LoadIs(file: seq<Byte>, at: nat, size: Dword, width: Word, height: Word, data: seq<Byte>, lengths: seq<Byte>)
    requires at + 8 + size + 2 * height <= |file|
    requires size == FromLe32(file[at..at + 4]) && width == FromLe16(file[at + 4..at + 6])
    requires height == FromLe16(file[at + 6..at + 8])
    requires data == file[at + 8..at + 8 + size]
    requires lengths == file[at + 8 + size..at + 8 + size + 2 * height]
    ensures Load(file, at)
         == Some((Sprite(width, height, data, Starts(lengths, height), true), at + 8 + size + 2 * height))
  {
  }

  lemma LoadFits(file: seq<Byte>, at: nat)
    requires Load(file, at).Some?
    ensures at + 8 <= |file|
    ensures at + 8 + FromLe32(file[at..at + 4]) + 2 * FromLe16(file[at + 6..at + 8]) <= |file|
  {
  }

  lemma SameHeader(content: seq<Byte>, longer: seq<Byte>, p: nat, end: nat)
    requires content <= longer && p + 8 <= |content|
    ensures longer[p..p + 4] == content[p..p + 4] && longer[p + 4..p + 6] == content[p + 4..p + 6]
    ensures longer[p + 6..p + 8] == content[p + 6..p + 8]
    ensures ZeroBehind(content, p, p + 8, end) ==> ZeroBehind(longer, p, p + 8, end)
  {
  }

  /** All that is stored of a sprite. */
  method ReadSprite(file: InStream)
    returns (size: Dword, width: Word, height: Word, data: array<Byte>, lengths: seq<Byte>)
    requires file.Valid()
    modifies file
    ensures fresh(data) && data.Length == size && |lengths| == 2 * height
    ensures file.Valid() && old(file.Content()) <= file.Content()
    ensures Load(file.Content(), old(file.Pos()))
         == Some((Sprite(width, height, data[..], Starts(lengths, height), true), file.Pos()))
    ensures old(file.memory) == [] && Load(file.bytes, old(file.pos)).Some? ==> file.memory == []
    ensures old(file.Pos()) + 8 <= |file.Content()|
    ensures ZeroBehind(file.Content(), old(file.Pos()), old(file.Pos()) + 8, |file.bytes|)
  {
    hide Starts; hide FromLe16; hide FromLe32; hide Load; hide ZeroBehind;
    ghost var p, whole := file.Pos(), file.memory == [] && Load(file.bytes, file.pos).Some?;
    if whole {
      LoadFits(file.bytes, file.pos);
    }
    size, width, height := ReadHeader(file);
    ghost var content := file.Content();
    assert whole ==> content == file.bytes;
    data, lengths := ReadBody(file, size, height);
    SameHeader(content, file.Content(), p, |file.bytes|);
    LoadIs(file.Content(), p, size, width, height, data[..], lengths);
  }

  // ---------------------------------------------------------------- the class

  class CSpritePal {
    var width: Word
    var height: Word
    var size: Dword
    var pixels: array<nat>      // where each row starts, counted from `data`
    var data: array<Byte>
    var init: bool

    ghost predicate Valid()
      reads this
    {
      data.Length == size && pixels.Length == height && data as object != pixels
    }

    function Snapshot(): Sprite
      reads this, pixels, data
    {
      Sprite(width, height, data[..], pixels[..], init)
    }

    constructor ()
      ensures Valid() && fresh(data) && fresh(pixels) && Snapshot() == Sprite(0, 0, [], [], false)
    {
      width, height, size, init := 0, 0, 0, false;
      pixels, data := new nat[0], new Byte[0];
    }

    method Release()
      modifies this
      ensures Valid() && fresh(data) && fresh(pixels) && Snapshot() == Sprite(0, 0, [], [], false)
    {
      width, height, size, init := 0, 0, 0, false;
      pixels, data := new nat[0], new Byte[0];
    }

    method SetEmptySprite()
      modifies this
      ensures Valid() && Snapshot() == Sprite(0, 0, [], [], true)
    {
      Release();
      init := true;
    }

    /** The coded rows are put one behind the other, and where each starts is noted. */
    method Assemble(coded: seq<seq<Byte>>, ghost rows: seq<seq<Byte>>, key: Byte)
      requires CodedRows(coded, rows, key) && |EncodeRows(rows, key)| < 0x1_0000_0000 && |rows| == height
      modifies this
      ensures fresh(data) && fresh(pixels) && data as object != pixels
      ensures size == data.Length && data[..] == EncodeRows(rows, key) && pixels[..] == RowStarts(rows, key)
      ensures width == old(width) && height == old(height) && init == old(init)
    {
      hide CodedRows; hide EncodeRows; hide RowStarts;
      var total := TotalLength(coded, rows, key);
      size := total;
      data, pixels := new Byte[total], new nat[height];
      var temp := 0;
      NoRows(rows, key);
      for i := 0 to |coded|
        invariant |coded| == |rows| == pixels.Length && data.Length == |EncodeRows(rows, key)|
        invariant temp == |EncodeRows(rows[..i], key)| <= data.Length
        invariant data[..temp] == EncodeRows(rows[..i], key) && pixels[..i] == RowStarts(rows[..i], key)
        modifies data, pixels
      {
        CodedPrefix(coded, rows, key, i);
        CopyInto(data, temp, coded[i]);
        pixels[i] := temp;
        temp := temp + |coded[i]|;
      }
      assert rows[..|rows|] == rows;
    }

    /** Codes the image at `source`, whose rows are `pitch` bytes apart. */
    method SetPixel(source: seq<Byte>, pitch: Word, width: Word, height: Word, key: Byte)
      requires ImageFits(source, pitch, width, height)
      requires |EncodeRows(SourceRows(source, pitch, width, height), key)| < 0x1_0000_0000
      modifies this
      ensures Valid() && fresh(data) && fresh(pixels)
      ensures var rows := SourceRows(source, pitch, width, height);
        Snapshot() == Made(rows, key, width)
      ensures this.width == width && this.height == height && init
    {
      Release();
      this.width := width;
      this.height := height;
      var coded := CodeRows(source, pitch, width, height, key);
      Assemble(coded, SourceRows(source, pitch, width, height), key);
      init := true;
    }

    /**
      Draws the sprite on a surface whose rows are `pitch` bytes apart, its upper left corner at
      (x, y). `pDest` is where pixel (0, 0) lies in the memory of the surface.
     */
    method Blt(x: int, y: int, dest: array<Byte>, pDest: int, pitch: int, pal: seq<Word>)
      requires Valid() && dest != data
      requires forall i :: 0 <= i < height ==>
        RowDrawable(data[..], pixels[i], RowAt(pDest + y * pitch + x * 2, pitch, i), dest.Length, |pal|)
      modifies dest
      ensures dest[..] == DrawRows(old(dest[..]), pDest + y * pitch + x * 2, pitch, data[..], pixels[..], height, pal)
    {
      hide DrawRuns; hide RowDrawable;
      ghost var base := pDest + y * pitch + x * 2;
      var at := pDest + y * pitch + x * 2;
      for i := 0 to height
        invariant at == RowAt(base, pitch, i)
        invariant dest[..] == DrawRows(old(dest[..]), base, pitch, data[..], pixels[..], i, pal)
      {
        DrawableDecodes(data[..], pixels[i], at, dest.Length, |pal|);
        BltRow(dest, at, data[..], pixels[i], pal);
        at := at + pitch;
      }
    }

    /** Writes nothing, and says so, if there is nothing to save. */
    method SaveToFile(file: OutStream) returns (ok: bool)
      requires Valid() && file.pos == |file.bytes|
      modifies file
      ensures ok == Kept(Snapshot()) && file.pos == |file.bytes|
      ensures ok <==> init && data.Length > 0
      ensures file.bytes == old(file.bytes) + if ok then Save(Snapshot()) else []
    {
      if !init || size == 0 {
        return false;
      }
      hide Le16; hide Le32; hide Lengths;
      file.Write(Le32(size));
      file.Write(Le16(width));
      file.Write(Le16(height));
      file.Write(data[..]);
      SaveLengths(file);
      ghost var s := Snapshot();
      Regroup(old(file.bytes), Le32(|s.data|), Le16(s.width), Le16(s.height), s.data, Lengths(s, s.height));
      return true;
    }

    /** The loop that writes the row lengths. */
    method SaveLengths(file: OutStream)
      requires Valid() && file.pos == |file.bytes|
      modifies file
      ensures file.pos == |file.bytes| && file.bytes == old(file.bytes) + Lengths(Snapshot(), height)
    {
      hide Le16;
      ghost var s := Snapshot();
      for i := 0 to height
        invariant file.pos == |file.bytes| && file.bytes == old(file.bytes) + Lengths(s, i)
      {
        var next: int := if i == height - 1 then size else pixels[i + 1];
        file.Write(Le16(ToWord(next - pixels[i])));
      }
    }

    /**
      The row starts are rebuilt from the row lengths. It always claims success: where the file ends
      before the sprite does, the members read keep the zeros of `Release`, and the allocated blocks what
      was in memory.
     */
    method LoadFromFile(file: InStream) returns (ok: bool)
      requires file.Valid()
      modifies this, file
      ensures ok && Valid() && fresh(data) && fresh(pixels)
      ensures file.Valid() && old(file.Content()) <= file.Content()
      ensures Load(file.Content(), old(file.Pos())) == Some((Snapshot(), file.Pos()))
      ensures old(file.memory) == [] && Load(file.bytes, old(file.pos)).Some? ==> file.memory == []
      ensures old(file.Pos()) + 8 <= |file.Content()|
      ensures ZeroBehind(file.Content(), old(file.Pos()), old(file.Pos()) + 8, |file.bytes|)
    {
      hide Starts; hide Load;
      Release();
      var n, w, h, d, lengths := ReadSprite(file);
      var starts := RebuildStarts(lengths, h);
      size, width, height, data, pixels, init := n, w, h, d, starts, true;
      ok := true;
    }

    /** `operator =`. The left side is released first, so a sprite assigned to itself becomes empty. */
    method Assign(sprite: CSpritePal)
      requires Valid() && sprite.Valid()
      modifies this
      ensures Valid() && fresh(data) && fresh(pixels)
      ensures Snapshot() == if sprite == this then Sprite(0, 0, [], [], true)
                            else old(sprite.Snapshot()).(init := true)
    {
      Release();
      size, width, height, init := sprite.size, sprite.width, sprite.height, true;
      var d := ArrayOf(sprite.data[..]);
      var p := StartsOf(sprite.pixels[..]);
      data, pixels := d, p;
    }
  }

  lemma Regroup(f: seq<Byte>, a: seq<Byte>, b: seq<Byte>, c: seq<Byte>, d: seq<Byte>, e: seq<Byte>)
    ensures f + a + b + c + d + e == f + (a + b + c + d + e)
  {
  }

  /** `new BYTE[size]` and a `memcpy` into it. */
  method ArrayOf(b: seq<Byte>) returns (a: array<Byte>)
    ensures fresh(a) && a[..] == b
  {
    a := new Byte[|b|];
    CopyInto(a, 0, b);
  }

  /** The loop that adds up the lengths read. */
  method RebuildStarts(lengths: seq<Byte>, n: nat) returns (a: array<nat>)
    requires |lengths| == 2 * n
    ensures fresh(a) && a[..] == Starts(lengths, n)
  {
    hide FromLe16;
    a := new nat[n];
    var temp := 0;
    for i := 0 to n
      invariant temp == SumWords(lengths, i) && a[..i] == Starts(lengths, i)
    {
      a[i] := temp;
      temp := temp + FromLe16(lengths[2 * i..2 * i + 2]);
    }
  }

  /** The loop that carries the row starts over to other data. */
  method StartsOf(starts: seq<nat>) returns (a: array<nat>)
    ensures fresh(a) && a[..] == starts
  {
    a := new nat[|starts|];
    for i := 0 to |starts|
      invariant a[..i] == starts[..i]
    {
      a[i] := starts[i];
    }
  }

  lemma DrawableDecodes(data: seq<Byte>, start: nat, at: int, bytes: nat, colours: nat)
    requires RowDrawable(data, start, at, bytes, colours)
    ensures DecodeRow(data, start).Some?
  {
  }

  lemma NoRows(rows: seq<seq<Byte>>, key: Byte)
    ensures EncodeRows(rows[..0], key) == [] && RowStarts(rows[..0], key) == []
  {
  }

  /** `m_Size`, as the outer loop of `SetPixel` adds it up. */
  method TotalLength(coded: seq<seq<Byte>>, ghost rows: seq<seq<Byte>>, key: Byte) returns (total: nat)
    requires CodedRows(coded, rows, key)
    ensures total == |EncodeRows(rows, key)| && |coded| == |rows|
  {
    total := 0;
    NoRows(rows, key);
    for i := 0 to |coded|
      invariant total == |EncodeRows(rows[..i], key)|
    {
      CodedPrefix(coded, rows, key, i);
      total := total + |coded[i]|;
    }
    assert rows[..|rows|] == rows;
  }

  // ---------------------------------------------------------------- what SetPixel makes can be drawn

  lemma {:induction false} PixelsOfRuns(runs: seq<Run>, key: Byte, k: nat, p: Byte)
    requires k < |runs| && p in runs[k].pixels
    ensures p in Unscan(runs, key)
  {
    if k < |runs| - 1 {
      PixelsOfRuns(runs[..|runs| - 1], key, k, p);
    }
  }

  /** A row whose numbers fit in a byte is drawable wherever the row itself has room. */
  lemma EncodedDrawable(rows: seq<seq<Byte>>, key: Byte, i: nat, at: int, bytes: nat, colours: nat)
    requires i < |rows| && Fits(Scan(rows[i], key).runs)
    requires 0 <= at && at + 2 * |rows[i]| <= bytes && forall p :: p in rows[i] && p != key ==> p < colours
    ensures RowDrawable(EncodeRows(rows, key), RowStarts(rows, key)[i], at, bytes, colours)
  {
    hide EncodeRows; hide RowStarts; hide Scan; hide DecodeRow; hide Fits; hide EncodeRow;
    var s := Scan(rows[i], key);
    RowsPartition(rows, key, i);
    RowRoundTrip(EncodeRows(rows, key), RowStarts(rows, key)[i], rows[i], key);
    DrawScanned([], at, rows[i], key, []);
    ScanLossless(rows[i], key);
    forall k, p | 0 <= k < |s.runs| && p in s.runs[k].pixels ensures p < colours {
      PixelsOfRuns(s.runs, key, k, p);
      assert p in rows[i];
    }
  }

  /** Each row has room on the surface, and the palette has the colours of its opaque pixels. */
  ghost predicate HasRoom(rows: seq<seq<Byte>>, key: Byte, base: int, pitch: int, bytes: nat, colours: nat) {
    forall i :: 0 <= i < |rows| ==>
      && 0 <= RowAt(base, pitch, i) && RowAt(base, pitch, i) + 2 * |rows[i]| <= bytes
      && forall p :: p in rows[i] && p != key ==> p < colours
  }

  ghost predicate AllFit(rows: seq<seq<Byte>>, key: Byte) {
    forall i :: 0 <= i < |rows| ==> Fits(Scan(rows[i], key).runs)
  }

  lemma MadeDrawable(rows: seq<seq<Byte>>, key: Byte, base: int, pitch: int, bytes: nat, colours: nat)
    requires AllFit(rows, key) && HasRoom(rows, key, base, pitch, bytes, colours)
    ensures |EncodeRows(rows, key)| <= 0x1_0000 * |rows|
    ensures forall i :: 0 <= i < |rows| ==>
      RowDrawable(EncodeRows(rows, key), RowStarts(rows, key)[i], RowAt(base, pitch, i), bytes, colours)
  {
    hide EncodeRows; hide RowStarts; hide Scan; hide Fits; hide RowDrawable; hide RowAt;
    DrawableSize(rows, key);
    forall i | 0 <= i < |rows|
      ensures RowDrawable(EncodeRows(rows, key), RowStarts(rows, key)[i], RowAt(base, pitch, i), bytes, colours)
    {
      EncodedDrawable(rows, key, i, RowAt(base, pitch, i), bytes, colours);
    }
  }

  /** Where row `i` of the image begins on the surface. */
  function PlaceOf(x: int, y: int, pDest: int, pitch: int, i: nat): int {
    pDest + (y + i) * pitch + 2 * x
  }

  /** Pixel `j` of row `i` shows byte `i * sourcePitch + j` of the source: `pal` of it, low byte first. */
  ghost predicate PixelInPlace(drawn: seq<Byte>, dest: seq<Byte>, x: int, y: int, pDest: int, pitch: int,
        source: seq<Byte>, sourcePitch: Word, key: Byte, pal: seq<Word>, i: nat, j: nat)
  {
    var t, at := pDest + (y + i) * pitch + 2 * (x + j), i * sourcePitch + j;
    && 0 <= t && t + 2 <= |drawn| == |dest| && 0 <= at < |source|
    && (source[at] == key ==> drawn[t] == dest[t] && drawn[t + 1] == dest[t + 1])
    && (source[at] != key ==>
          source[at] < |pal| && drawn[t] == pal[source[at]] % 256 && drawn[t + 1] == pal[source[at]] / 256)
  }

  ghost predicate InImageRow(x: int, y: int, pDest: int, pitch: int, width: nat, i: nat, t: int) {
    PlaceOf(x, y, pDest, pitch, i) <= t < PlaceOf(x, y, pDest, pitch, i) + 2 * width
  }

  ghost predicate OutsideImage(x: int, y: int, pDest: int, pitch: int, width: nat, height: nat, t: int) {
    forall i :: 0 <= i < height ==> !InImageRow(x, y, pDest, pitch, width, i, t)
  }

  /** The image is on the surface with its upper left corner at (x, y), and every other byte is as before. */
  ghost predicate ImageShown(drawn: seq<Byte>, dest: seq<Byte>, x: int, y: int, pDest: int, pitch: int,
        source: seq<Byte>, sourcePitch: Word, width: Word, height: Word, key: Byte, pal: seq<Word>)
  {
    && |drawn| == |dest|
    && (forall i, j :: 0 <= i < height && 0 <= j < width ==>
          PixelInPlace(drawn, dest, x, y, pDest, pitch, source, sourcePitch, key, pal, i, j))
    && (forall t :: 0 <= t < |dest| && OutsideImage(x, y, pDest, pitch, width, height, t) ==> drawn[t] == dest[t])
  }

  lemma PlaceIs(x: int, y: int, pDest: int, pitch: int, i: nat)
    ensures RowAt(pDest + y * pitch + x * 2, pitch, i) == PlaceOf(x, y, pDest, pitch, i)
  {
    RowAtIs(pDest + y * pitch + x * 2, pitch, i);
    Distributes(y, i, pitch);
  }

  lemma Distributes(a: int, b: int, c: int)
    ensures (a + b) * c == a * c + b * c
  {
  }

  lemma RowsInPlace(drawn: seq<Byte>, dest: seq<Byte>, x: int, y: int, pDest: int, pitch: int,
        source: seq<Byte>, sourcePitch: Word, width: Word, height: Word, key: Byte, pal: seq<Word>, i: nat, j: nat)
    requires ImageFits(source, sourcePitch, width, height) && i < height && j < width
    requires HasRoom(SourceRows(source, sourcePitch, width, height), key, pDest + y * pitch + x * 2, pitch,
                     |dest|, |pal|)
    requires ShowsRows(drawn, dest, pDest + y * pitch + x * 2, pitch, SourceRows(source, sourcePitch, width, height),
                       key, pal)
    ensures PixelInPlace(drawn, dest, x, y, pDest, pitch, source, sourcePitch, key, pal, i, j)
  {
    hide ImageFits; hide SourceRows; hide RowAt; hide Inside;
    var rows, base := SourceRows(source, sourcePitch, width, height), pDest + y * pitch + x * 2;
    SourceRowsAre(source, sourcePitch, width, height, i, j);
    PlaceIs(x, y, pDest, pitch, i);
    assert rows[i][j] in rows[i];
    assert PixelShown(drawn, dest, RowAt(base, pitch, i) + 2 * j, rows[i][j], key, pal);
  }

  lemma OutsideRows(source: seq<Byte>, sourcePitch: Word, width: Word, height: Word, x: int, y: int, pDest: int,
        pitch: int, t: int)
    requires ImageFits(source, sourcePitch, width, height)
    requires forall i :: 0 <= i < height ==> !InImageRow(x, y, pDest, pitch, width, i, t)
    ensures !Inside(pDest + y * pitch + x * 2, pitch, SourceRows(source, sourcePitch, width, height), height, t)
  {
    hide ImageFits; hide RowAt; hide PlaceOf; hide SourceRow;
    var rows, base := SourceRows(source, sourcePitch, width, height), pDest + y * pitch + x * 2;
    forall i | 0 <= i < height ensures !InRow(base, pitch, rows, i, t) {
      RowInSource(source, sourcePitch, width, height, i);
      PlaceIs(x, y, pDest, pitch, i);
      assert !InImageRow(x, y, pDest, pitch, width, i, t);
    }
  }

  lemma ImageFromRows(drawn: seq<Byte>, dest: seq<Byte>, x: int, y: int, pDest: int, pitch: int,
        source: seq<Byte>, sourcePitch: Word, width: Word, height: Word, key: Byte, pal: seq<Word>)
    requires ImageFits(source, sourcePitch, width, height)
    requires HasRoom(SourceRows(source, sourcePitch, width, height), key, pDest + y * pitch + x * 2, pitch,
                     |dest|, |pal|)
    requires ShowsRows(drawn, dest, pDest + y * pitch + x * 2, pitch, SourceRows(source, sourcePitch, width, height),
                       key, pal)
    ensures ImageShown(drawn, dest, x, y, pDest, pitch, source, sourcePitch, width, height, key, pal)
  {
    hide ImageFits; hide HasRoom; hide PixelInPlace; hide PixelShown; hide InImageRow; hide Inside; hide RowAt;
    hide SourceRow;
    forall i, j | 0 <= i < height && 0 <= j < width
      ensures PixelInPlace(drawn, dest, x, y, pDest, pitch, source, sourcePitch, key, pal, i, j)
    {
      RowsInPlace(drawn, dest, x, y, pDest, pitch, source, sourcePitch, width, height, key, pal, i, j);
    }
    forall t | 0 <= t < |dest| && OutsideImage(x, y, pDest, pitch, width, height, t) ensures drawn[t] == dest[t]
    {
      OutsideRows(source, sourcePitch, width, height, x, y, pDest, pitch, t);
    }
  }

  /**
    `SetPixel` and then `Blt`: pixel j of row i, at (x + j, y + i) of the surface, shows byte
    i * sourcePitch + j of the source, whatever the two pitches, if the rows fit the code, have room and
    do not overlap.
   */
  method SetPixelAndBlt(sprite: CSpritePal, source: seq<Byte>, sourcePitch: Word, width: Word, height: Word, key: Byte,
        x: int, y: int, dest: array<Byte>, pDest: int, pitch: int, pal: seq<Word>)
    requires ImageFits(source, sourcePitch, width, height)
    requires AllFit(SourceRows(source, sourcePitch, width, height), key)
    requires Apart(SourceRows(source, sourcePitch, width, height), pitch)
    requires HasRoom(SourceRows(source, sourcePitch, width, height), key, pDest + y * pitch + x * 2, pitch,
                     dest.Length, |pal|)
    modifies sprite, dest
    ensures ImageShown(dest[..], old(dest[..]), x, y, pDest, pitch, source, sourcePitch, width, height, key, pal)
    ensures ShowsRows(dest[..], old(dest[..]), pDest + y * pitch + x * 2, pitch,
                      SourceRows(source, sourcePitch, width, height), key, pal)
    ensures sprite.width == width && sprite.height == height && sprite.init
  {
    hide Scan; hide Fits; hide AllFit; hide ImageFits; hide HasRoom; hide Apart; hide ShowsRows; hide RowDrawable;
    hide EncodeRows; hide RowStarts; hide RowAt; hide DrawRows; hide SourceRow; hide ImageShown;
    ghost var rows, base := SourceRows(source, sourcePitch, width, height), pDest + y * pitch + x * 2;
    MadeDrawable(rows, key, base, pitch, dest.Length, |pal|);
    ghost var was := dest[..];
    sprite.SetPixel(source, sourcePitch, width, height, key);
    assert dest[..] == was;
    sprite.Blt(x, y, dest, pDest, pitch, pal);
    ShowsCoded(was, base, pitch, rows, key, pal);
    ImageFromRows(dest[..], was, x, y, pDest, pitch, source, sourcePitch, width, height, key, pal);
  }

  lemma ShowsCoded(dest: seq<Byte>, base: int, pitch: int, rows: seq<seq<Byte>>, key: Byte, pal: seq<Word>)
    requires AllFit(rows, key) && Apart(rows, pitch)
    ensures ShowsRows(DrawRows(dest, base, pitch, EncodeRows(rows, key), RowStarts(rows, key), |rows|, pal),
                      dest, base, pitch, rows, key, pal)
  {
    hide ShowsRows; hide Apart;
    EncodeThenDraw(dest, base, pitch, rows, key, pal);
  }

  // ---------------------------------------------------------------- CSpritePalPack

  ghost function Snapshots(pals: seq<CSpritePal>): (r: seq<Sprite>)
    reads pals, set p | p in pals :: p.pixels, set p | p in pals :: p.data
    ensures |r| == |pals| && forall k :: 0 <= k < |pals| ==> r[k] == pals[k].Snapshot()
  {
    seq(|pals|, k requires 0 <= k < |pals|
                  reads pals, set p | p in pals :: p.pixels, set p | p in pals :: p.data
                => pals[k].Snapshot())
  }

  lemma KeptSnoc(sprites: seq<Sprite>, i: nat)
    requires i < |sprites|
    ensures KeptOf(sprites[..i + 1]) == KeptOf(sprites[..i]) + if Kept(sprites[i]) then [sprites[i]] else []
  {
    assert sprites[..i + 1][..i] == sprites[..i];
  }

  lemma SaveSnoc(sprites: seq<Sprite>, s: Sprite)
    requires Sized(s) && forall t :: t in sprites ==> Sized(t)
    ensures SaveAll(sprites + [s]) == SaveAll(sprites) + Save(s)
  {
    hide Save;
    assert (sprites + [s])[..|sprites|] == sprites;
  }

  /** What has been written behind `head`, and the count left, after the first `i` sprites. */
  ghost predicate PackWritten(bytes: seq<Byte>, head: seq<Byte>, sprites: seq<Sprite>, i: nat, realSize: int)
    requires i <= |sprites| && forall s :: s in sprites ==> Sized(s)
  {
    && (forall s :: s in KeptOf(sprites[..i]) ==> Sized(s))
    && bytes == head + SaveAll(KeptOf(sprites[..i]))
    && realSize == |sprites| - i + |KeptOf(sprites[..i])|
  }

  lemma PackWriteStep(bytes: seq<Byte>, head: seq<Byte>, sprites: seq<Sprite>, i: nat, realSize: int)
    requires i < |sprites| && forall s :: s in sprites ==> Sized(s)
    requires PackWritten(bytes, head, sprites, i, realSize)
    ensures sprites[i] in sprites
    ensures if Kept(sprites[i]) then PackWritten(bytes + Save(sprites[i]), head, sprites, i + 1, realSize)
            else PackWritten(bytes, head, sprites, i + 1, realSize - 1)
  {
    hide Save; hide SaveAll; hide KeptOf; hide Kept; hide Sized;
    assert sprites[i] in sprites;
    KeptSnoc(sprites, i);
    var kept := KeptOf(sprites[..i]);
    if Kept(sprites[i]) {
      SaveSnoc(kept, sprites[i]);
      assert head + SaveAll(kept) + Save(sprites[i]) == head + (SaveAll(kept) + Save(sprites[i]));
    } else {
      assert kept + [] == kept;
    }
  }

  lemma PackWriteStart(head: seq<Byte>, sprites: seq<Sprite>)
    requires forall s :: s in sprites ==> Sized(s)
    ensures PackWritten(head, head, sprites, 0, |sprites|)
  {
    NothingKept(sprites);
    assert head + [] == head;
  }

  lemma PackWriteEnd(bytes: seq<Byte>, file: seq<Byte>, sprites: seq<Sprite>, realSize: int)
    requires |sprites| < 0x1_0000 && forall s :: s in sprites ==> Sized(s)
    requires PackWritten(bytes, file + Le16(|sprites|), sprites, |sprites|, realSize)
    ensures 0 <= realSize < 0x1_0000 && |bytes| >= 2
    ensures SavePack(file, sprites) == if realSize == |sprites| then bytes else Le16(realSize) + bytes[2..]
  {
    assert sprites[..|sprites|] == sprites;
    hide Save; hide SaveAll; hide KeptOf; hide Kept; hide Sized; hide Le16;
  }

  /** `CSpritePalPack::SaveToFile`. */
  method SavePackToFile(pals: seq<CSpritePal>, file: OutStream)
    requires |pals| < 0x1_0000 && file.pos == |file.bytes|
    requires forall k :: 0 <= k < |pals| ==> pals[k].Valid()
    modifies file
    ensures (forall s :: s in Snapshots(pals) ==> Sized(s))
    ensures file.bytes == SavePack(old(file.bytes), Snapshots(pals))
  {
    hide Save; hide SavePack; hide PackWritten; hide Le16; hide Kept;
    ghost var sprites := Snapshots(pals);
    file.Write(Le16(|pals|));
    ghost var head := file.bytes;
    var realSize: int := |pals|;
    PackWriteStart(head, sprites);
    for i := 0 to |pals|
      invariant file.pos == |file.bytes| && PackWritten(file.bytes, head, sprites, i, realSize)
    {
      PackWriteStep(file.bytes, head, sprites, i, realSize);
      ghost var before := file.bytes;
      var ok := pals[i].SaveToFile(file);
      assert before + [] == before;
      if !ok {
        realSize := realSize - 1;
      }
    }
    PackWriteEnd(file.bytes, old(file.bytes), sprites, realSize);
    if realSize != |pals| {
      file.SeekP(0);
      file.Write(Le16(realSize));
    }
  }

  lemma NothingKept(sprites: seq<Sprite>)
    ensures KeptOf(sprites[..0]) == [] && SaveAll([]) == []
  {
  }

  lemma LoadNext(file: seq<Byte>, at: nat, n: nat)
    requires n > 0 && LoadAll(file, at, n).Some?
    ensures Load(file, at).Some?
    ensures var (s, end) := Load(file, at).value;
      LoadAll(file, end, n - 1).Some? && LoadAll(file, at, n).value == [s] + LoadAll(file, end, n - 1).value
  {
  }

  method NewFromFile(file: InStream) returns (pal: CSpritePal)
    requires file.Valid()
    modifies file
    ensures fresh(pal) && fresh(pal.data) && fresh(pal.pixels)
    ensures file.Valid() && old(file.Content()) <= file.Content()
    ensures Load(file.Content(), old(file.Pos())) == Some((pal.Snapshot(), file.Pos()))
    ensures old(file.memory) == [] && Load(file.bytes, old(file.pos)).Some? ==> file.memory == []
  {
    hide Load;
    pal := new CSpritePal();
    var ok := pal.LoadFromFile(file);
  }

  /** The first `i` sprites of the pack have been read. */
  ghost predicate PackRead(content: seq<Byte>, at: nat, i: nat, sprites: seq<Sprite>, end: nat) {
    LoadAll(content, at, i) == Some(sprites) && EndOf(content, at, i) == end
  }

  lemma PackReadOne(content: seq<Byte>, longer: seq<Byte>, at: nat, i: nat, sprites: seq<Sprite>, end: nat, s: Sprite,
        end': nat)
    requires PackRead(content, at, i, sprites, end) && content <= longer && Load(longer, end) == Some((s, end'))
    ensures PackRead(longer, at, i + 1, sprites + [s], end')
  {
    hide Load; hide LoadAll; hide EndOf;
    LoadAllMore(content, longer, at, i);
    LoadOneMore(longer, at, i);
  }

  /** The sprites of a pack whose count has been read. */
  method LoadSprites(file: InStream, n: nat) returns (pals: seq<CSpritePal>)
    requires file.Valid()
    modifies file
    ensures file.Valid() && old(file.Content()) <= file.Content()
    ensures LoadAll(file.Content(), old(file.Pos()), n) == Some(Snapshots(pals))
    ensures old(file.memory) == [] && LoadAll(file.bytes, old(file.pos), n).Some? ==> file.memory == []
  {
    hide Load; hide LoadAll; hide PackRead;
    ghost var p, whole := file.Pos(), file.memory == [] && LoadAll(file.bytes, file.pos, n).Some?;
    pals := [];
    NothingLoaded(file.Content(), p);
    for i := 0 to n
      invariant |pals| == i && file.Valid() && old(file.Content()) <= file.Content()
      invariant PackRead(file.Content(), p, i, Snapshots(pals), file.Pos())
      invariant whole ==> file.memory == [] && LoadAll(file.bytes, file.pos, n - i).Some?
    {
      ghost var before, content, end := Snapshots(pals), file.Content(), file.Pos();
      if whole {
        LoadNext(file.bytes, file.pos, n - i);
      }
      var pal := NewFromFile(file);
      assert whole ==> file.Content() == file.bytes;
      PackReadOne(content, file.Content(), p, i, before, end, pal.Snapshot(), file.Pos());
      assert Snapshots(pals) == before;
      pals := pals + [pal];
      assert Snapshots(pals) == before + [pal.Snapshot()];
    }
    AllRead(file.Content(), p, n, Snapshots(pals), file.Pos());
  }

  lemma AllRead(content: seq<Byte>, at: nat, n: nat, sprites: seq<Sprite>, end: nat)
    requires PackRead(content, at, n, sprites, end)
    ensures LoadAll(content, at, n) == Some(sprites)
  {
  }

  /** `CSpritePalPack::LoadFromFile`: as many sprites as the count says, whether or not the file has them. */
  method LoadPackFromFile(file: InStream) returns (pals: seq<CSpritePal>)
    requires file.Valid()
    modifies file
    ensures file.Valid() && old(file.Content()) <= file.Content()
    ensures LoadPack(file.Content(), old(file.Pos())) == Some(Snapshots(pals))
    ensures old(file.memory) == [] && LoadPack(file.bytes, old(file.pos)).Some? ==> file.memory == []
  {
    hide LoadAll; hide FromLe16;
    ghost var p := file.Pos();
    var header := file.Read([0, 0]);
    ghost var content := file.Content();
    assert old(file.memory) == [] && LoadPack(file.bytes, old(file.pos)).Some? ==> content == file.bytes;
    pals := LoadSprites(file, FromLe16(header));
    assert file.Content()[p..p + 2] == content[p..p + 2];
  }

  lemma NothingLoaded(content: seq<Byte>, at: nat)
    ensures PackRead(content, at, 0, [], at)
  {
  }
}
