/**
  The run-length code of `CSpritePal`: a row of palette indices is a list of runs of opaque
  pixels, each behind a gap of transparent ones (those equal to the colour key). A coded row is
  the number of runs, then gap, length and pixels of each; all three numbers are cut to a byte.
 */
module SpriteCodec {
  import opened Bytes
  import opened Options

  datatype Run = Run(gap: nat, pixels: seq<Byte>)

  /** The runs of a row and the transparent pixels behind the last of them. */
  datatype Scanned = Scanned(runs: seq<Run>, gap: nat) {
    /** The last run can still grow. */
    predicate Open() {
      runs != [] && gap == 0
    }
  }

  function ScanNext(s: Scanned, p: Byte, key: Byte): Scanned {
    if p == key then s.(gap := s.gap + 1)
    else if s.Open() then
      var last := s.runs[|s.runs| - 1];
      s.(runs := s.runs[|s.runs| - 1 := last.(pixels := last.pixels + [p])])
    else Scanned(s.runs + [Run(s.gap, [p])], 0)
  }

  function Scan(row: seq<Byte>, key: Byte): Scanned {
    if row == [] then Scanned([], 0) else ScanNext(Scan(row[..|row| - 1], key), row[|row| - 1], key)
  }

  // ---------------------------------------------------------------- nothing is lost by scanning

  function Keys(n: nat, key: Byte): (s: seq<Byte>)
    ensures |s| == n
  {
    seq(n, _ => key)
  }

  ghost function Unscan(runs: seq<Run>, key: Byte): seq<Byte> {
    if runs == [] then [] else
      var last := runs[|runs| - 1];
      Unscan(runs[..|runs| - 1], key) + Keys(last.gap, key) + last.pixels
  }

  /** All pixels of the runs are opaque, and no run is empty. */
  ghost predicate Opaque(runs: seq<Run>, key: Byte) {
    forall k :: 0 <= k < |runs| ==> runs[k].pixels != [] && key !in runs[k].pixels
  }

  lemma {:induction false} ScanLossless(row: seq<Byte>, key: Byte)
    ensures var s := Scan(row, key);
      Unscan(s.runs, key) + Keys(s.gap, key) == row && Opaque(s.runs, key)
  {
    if row != [] {
      var init, p := row[..|row| - 1], row[|row| - 1];
      ScanLossless(init, key);
      ScanNextLossless(Scan(init, key), p, key);
    }
  }

  lemma ScanNextLossless(s: Scanned, p: Byte, key: Byte)
    requires Opaque(s.runs, key)
    ensures var s' := ScanNext(s, p, key);
      && Unscan(s'.runs, key) + Keys(s'.gap, key) == Unscan(s.runs, key) + Keys(s.gap, key) + [p]
      && Opaque(s'.runs, key)
  {
    var s', n := ScanNext(s, p, key), |s.runs| - 1;
    if p == key {
      assert Keys(s.gap + 1, key) == Keys(s.gap, key) + [p];
    } else if s.Open() {
      assert s'.runs[..n] == s.runs[..n];
      assert Keys(0, key) == [];
      var before := Unscan(s.runs[..n], key) + Keys(s.runs[n].gap, key);
      assert Unscan(s'.runs, key) == before + (s.runs[n].pixels + [p]);
      assert before + (s.runs[n].pixels + [p]) == before + s.runs[n].pixels + [p];
    } else {
      assert s'.runs[..n + 1] == s.runs;
      assert Keys(0, key) == [];
    }
  }

  // ---------------------------------------------------------------- the code

  function ToByte(x: nat): Byte {
    x % 256
  }

  function EncodeRun(run: Run): seq<Byte> {
    [ToByte(run.gap), ToByte(|run.pixels|)] + run.pixels
  }

  function EncodeRuns(runs: seq<Run>): seq<Byte> {
    if runs == [] then [] else EncodeRuns(runs[..|runs| - 1]) + EncodeRun(runs[|runs| - 1])
  }

  function EncodeRow(row: seq<Byte>, key: Byte): seq<Byte> {
    [ToByte(|Scan(row, key).runs|)] + EncodeRuns(Scan(row, key).runs)
  }

  /** Runs are as long as they can be: there is a gap before each but the first. */
  lemma {:induction false} ScanMaximal(row: seq<Byte>, key: Byte)
    ensures forall k :: 0 < k < |Scan(row, key).runs| ==> Scan(row, key).runs[k].gap > 0
  {
    if row != [] {
      ScanMaximal(row[..|row| - 1], key);
    }
  }

  /** Where run `k` begins in the code of the runs. */
  function RunOffset(runs: seq<Run>, k: nat): nat
    requires k <= |runs|
  {
    if k == 0 then 0 else RunOffset(runs, k - 1) + 2 + |runs[k - 1].pixels|
  }

  lemma {:induction false} OffsetOfPrefix(runs: seq<Run>, n: nat, k: nat)
    requires k <= n <= |runs|
    ensures RunOffset(runs[..n], k) == RunOffset(runs, k)
  {
    if k > 0 {
      OffsetOfPrefix(runs, n, k - 1);
    }
  }

  lemma {:induction false} CodeEnds(runs: seq<Run>)
    ensures |EncodeRuns(runs)| == RunOffset(runs, |runs|)
  {
    if runs != [] {
      var n := |runs| - 1;
      CodeEnds(runs[..n]);
      OffsetOfPrefix(runs, n, n);
      assert |EncodeRuns(runs)| == |EncodeRuns(runs[..n])| + |EncodeRun(runs[n])|;
      hide EncodeRuns; hide ToByte;
    }
  }

  lemma {:induction false} OffsetsGrow(runs: seq<Run>, k: nat, n: nat)
    requires k < n <= |runs|
    ensures RunOffset(runs, k) + 2 + |runs[k].pixels| <= RunOffset(runs, n)
  {
    if k + 1 < n {
      OffsetsGrow(runs, k, n - 1);
    }
  }

  /** The code of run `k`: gap, length and pixels, in this order. */
  ghost predicate RunCoded(code: seq<Byte>, at: nat, run: Run) {
    && at + 2 + |run.pixels| <= |code|
    && code[at] == run.gap % 256 && code[at + 1] == |run.pixels| % 256
    && code[at + 2..at + 2 + |run.pixels|] == run.pixels
  }

  lemma RunCodedLast(code: seq<Byte>, run: Run)
    ensures RunCoded(code + EncodeRun(run), |code|, run)
  {
  }

  lemma RunCodedMore(code: seq<Byte>, at: nat, run: Run, more: seq<Byte>)
    requires RunCoded(code, at, run)
    ensures RunCoded(code + more, at, run)
  {
    assert (code + more)[at + 2..at + 2 + |run.pixels|] == code[at + 2..at + 2 + |run.pixels|];
  }

  lemma {:induction false} RunsCoded(runs: seq<Run>, k: nat)
    requires k < |runs|
    ensures RunCoded(EncodeRuns(runs), RunOffset(runs, k), runs[k])
  {
    hide RunCoded; hide EncodeRun;
    var init := runs[..|runs| - 1];
    CodeEnds(init);
    OffsetOfPrefix(runs, |runs| - 1, k);
    if k < |init| {
      RunsCoded(init, k);
      RunCodedMore(EncodeRuns(init), RunOffset(runs, k), runs[k], EncodeRun(runs[|runs| - 1]));
    } else {
      RunCodedLast(EncodeRuns(init), runs[k]);
    }
  }

  /** The format of a row: the number of runs, then the runs one behind the other. */
  lemma RowFormat(row: seq<Byte>, key: Byte)
    ensures var runs, code := Scan(row, key).runs, EncodeRow(row, key);
      && |code| == 1 + RunOffset(runs, |runs|) && code[0] == |runs| % 256
      && forall k :: 0 <= k < |runs| ==> RunCoded(code, 1 + RunOffset(runs, k), runs[k])
  {
    hide Scan; hide EncodeRuns; hide RunOffset;
    var runs, code := Scan(row, key).runs, EncodeRow(row, key);
    CodeEnds(runs);
    forall k | 0 <= k < |runs| ensures RunCoded(code, 1 + RunOffset(runs, k), runs[k]) {
      RunsCoded(runs, k);
      RunCodedBehind(EncodeRuns(runs), RunOffset(runs, k), runs[k], code[0]);
    }
  }

  lemma RunCodedBehind(code: seq<Byte>, at: nat, run: Run, first: Byte)
    requires RunCoded(code, at, run)
    ensures RunCoded([first] + code, 1 + at, run)
  {
    assert ([first] + code)[1 + at + 2..1 + at + 2 + |run.pixels|] == code[at + 2..at + 2 + |run.pixels|];
  }

  /** How much of the scratch buffer a row takes. */
  lemma {:induction false} EncoderBound(row: seq<Byte>, key: Byte)
    ensures var s := Scan(row, key);
      && 2 * |s.runs| + s.gap <= |row| + 1
      && |EncodeRuns(s.runs)| + s.gap <= |row| + |s.runs| + 1
      && |EncodeRuns(s.runs)| <= |row| + 1 + (|row| + 1) / 2
  {
    if row != [] {
      var init, p := row[..|row| - 1], row[|row| - 1];
      EncoderBound(init, key);
      var s, s' := Scan(init, key), Scan(row, key);
      if p != key {
        if s.Open() {
          assert s'.runs[..|s.runs| - 1] == s.runs[..|s.runs| - 1];
        } else {
          assert s'.runs[..|s.runs|] == s.runs;
        }
      }
    }
  }

  // ---------------------------------------------------------------- decoding

  /** The run coded at `at`, and the runs behind it, as many as `count` in all. */
  function DecodeRuns(data: seq<Byte>, at: nat, count: nat): (r: Option<seq<Run>>)
    ensures r.Some? ==> |r.value| == count
    ensures r.Some? ==> forall k :: 0 <= k < count ==> r.value[k].gap < 256 && |r.value[k].pixels| < 256
    decreases count
  {
    if count == 0 then Some([])
    else if at + 2 > |data| || at + 2 + data[at + 1] > |data| then None
    else
      var run := Run(data[at], data[at + 2..at + 2 + data[at + 1]]);
      match DecodeRuns(data, at + 2 + data[at + 1], count - 1)
      case None => None
      case Some(rest) => Some([run] + rest)
  }

  function DecodeRow(data: seq<Byte>, at: nat): Option<seq<Run>> {
    if at >= |data| then None else DecodeRuns(data, at + 1, data[at])
  }

  /** Every number of the code fits in a byte. */
  ghost predicate Fits(runs: seq<Run>) {
    |runs| < 256 && forall k :: 0 <= k < |runs| ==> runs[k].gap < 256 && |runs[k].pixels| < 256
  }

  lemma {:induction false} EncodeCons(runs: seq<Run>)
    requires runs != []
    ensures EncodeRuns(runs) == EncodeRun(runs[0]) + EncodeRuns(runs[1..])
  {
    hide EncodeRun;
    var n := |runs| - 1;
    if n == 0 {
      assert runs[..0] == [] && EncodeRuns(runs[1..]) == [];
      assert [] + EncodeRun(runs[0]) == EncodeRun(runs[0]) + [];
    } else {
      EncodeCons(runs[..n]);
      assert runs[..n][1..] == runs[1..][..n - 1];
      Associate(EncodeRun(runs[0]), EncodeRuns(runs[1..][..n - 1]), EncodeRun(runs[n]));
    }
  }

  lemma Associate(a: seq<Byte>, b: seq<Byte>, c: seq<Byte>)
    ensures a + b + c == a + (b + c)
  {
  }

  lemma DecodeCons(data: seq<Byte>, at: nat, run: Run, count: nat)
    requires count > 0 && run.gap < 256 && |run.pixels| < 256
    requires at + 2 + |run.pixels| <= |data|
    requires data[at] == run.gap && data[at + 1] == |run.pixels|
    requires data[at + 2..at + 2 + |run.pixels|] == run.pixels
    requires DecodeRuns(data, at + 2 + |run.pixels|, count - 1).Some?
    ensures DecodeRuns(data, at, count)
         == Some([run] + DecodeRuns(data, at + 2 + |run.pixels|, count - 1).value)
  {
  }

  lemma SliceSplit(data: seq<Byte>, at: nat, a: seq<Byte>, b: seq<Byte>)
    requires at + |a| + |b| <= |data| && data[at..at + |a| + |b|] == a + b
    ensures data[at..at + |a|] == a && data[at + |a|..at + |a| + |b|] == b
  {
    var s := data[at..at + |a| + |b|];
    assert s[..|a|] == a && s[|a|..] == b;
  }

  lemma HeadAt(data: seq<Byte>, at: nat, run: Run, rest: seq<Byte>)
    requires at + 2 + |run.pixels| + |rest| <= |data|
    requires data[at..at + 2 + |run.pixels| + |rest|]
          == EncodeRun(run) + rest
    ensures data[at] == ToByte(run.gap) && data[at + 1] == ToByte(|run.pixels|)
    ensures data[at + 2..at + 2 + |run.pixels|] == run.pixels
    ensures data[at + 2 + |run.pixels|..at + 2 + |run.pixels| + |rest|] == rest
  {
    var head := [ToByte(run.gap), ToByte(|run.pixels|)];
    SliceSplit(data, at, head + run.pixels, rest);
    SliceSplit(data, at, head, run.pixels);
    assert data[at..at + 2][0] == head[0] && data[at..at + 2][1] == head[1];
  }

  lemma {:induction false} DecodeEncoded(data: seq<Byte>, at: nat, runs: seq<Run>)
    requires forall k :: 0 <= k < |runs| ==> runs[k].gap < 256 && |runs[k].pixels| < 256
    requires at + |EncodeRuns(runs)| <= |data| && data[at..at + |EncodeRuns(runs)|] == EncodeRuns(runs)
    ensures DecodeRuns(data, at, |runs|) == Some(runs)
    decreases |runs|
  {
    hide DecodeRuns; hide EncodeRuns;
    if runs == [] {
      DecodeNone(data, at);
    } else {
      EncodeCons(runs);
      HeadAt(data, at, runs[0], EncodeRuns(runs[1..]));
      DecodeEncoded(data, at + 2 + |runs[0].pixels|, runs[1..]);
      DecodeCons(data, at, runs[0], |runs|);
      assert [runs[0]] + runs[1..] == runs;
    }
  }

  lemma DecodeNone(data: seq<Byte>, at: nat)
    ensures DecodeRuns(data, at, 0) == Some([])
  {
  }

  /**
    A coded row, wherever it stands, is decoded to its runs exactly if all its numbers fit in
    a byte.
   */
  lemma RowRoundTrip(data: seq<Byte>, at: nat, row: seq<Byte>, key: Byte)
    requires at + |EncodeRow(row, key)| <= |data|
    requires data[at..at + |EncodeRow(row, key)|] == EncodeRow(row, key)
    ensures DecodeRow(data, at) == Some(Scan(row, key).runs) <==> Fits(Scan(row, key).runs)
  {
    var runs := Scan(row, key).runs;
    hide Scan; hide EncodeRuns;
    SliceSplit(data, at, [ToByte(|runs|)], EncodeRuns(runs));
    assert data[at] == data[at..at + 1][0] == ToByte(|runs|);
    if Fits(runs) {
      DecodeEncoded(data, at + 1, runs);
    }
  }

  /** A row of at most 255 pixels always fits. */
  lemma NarrowFits(row: seq<Byte>, key: Byte)
    requires |row| <= 255
    ensures Fits(Scan(row, key).runs)
  {
    EncoderBound(row, key);
    ScanParts(row, key);
  }

  lemma {:induction false} ScanParts(row: seq<Byte>, key: Byte)
    ensures var s := Scan(row, key);
      && s.gap <= |row|
      && forall k :: 0 <= k < |s.runs| ==> s.runs[k].gap <= |row| && |s.runs[k].pixels| <= |row|
  {
    if row != [] {
      ScanParts(row[..|row| - 1], key);
    }
  }

  /** A row without transparent pixels is one run. */
  lemma SolidRowCode(row: seq<Byte>, key: Byte)
    requires row != [] && key !in row
    ensures EncodeRow(row, key) == [1, 0, ToByte(|row|)] + row
  {
    SolidRow(row, key, |row|);
    assert row[..|row|] == row;
    hide Scan; hide EncodeRuns;
    OneRunCode(Run(0, row));
  }

  lemma OneRunCode(run: Run)
    ensures EncodeRuns([run]) == EncodeRun(run)
  {
    assert [run][..0] == [];
  }

  /** 256 opaque pixels in a row are one run whose length is coded as 0: the row is lost. */
  lemma WideRowIsLost(row: seq<Byte>, key: Byte)
    requires |row| == 256 && key !in row
    ensures DecodeRow(EncodeRow(row, key), 0) == Some([Run(0, [])])
  {
    hide Scan; hide EncodeRuns; hide EncodeRow; hide DecodeRuns;
    var data := EncodeRow(row, key);
    SolidRowCode(row, key);
    DecodeNone(data, 3);
    DecodeCons(data, 1, Run(0, []), 1);
    assert [Run(0, [])] + [] == [Run(0, [])];
  }

  lemma {:induction false} SolidRow(row: seq<Byte>, key: Byte, n: nat)
    requires 0 < n <= |row| && forall j :: 0 <= j < n ==> row[j] != key
    ensures Scan(row[..n], key) == Scanned([Run(0, row[..n])], 0)
  {
    assert row[..n][..n - 1] == row[..n - 1];
    if n == 1 {
      assert row[..1] == [row[0]] && row[..0] == [];
    } else {
      SolidRow(row, key, n - 1);
      assert row[..n] == row[..n - 1] + [row[n - 1]];
    }
  }

  // ---------------------------------------------------------------- how long the code of a drawable row is

  /** A row of as many runs, each of as many pixels, as a byte can tell. */
  ghost predicate FullRow(runs: seq<Run>) {
    |runs| == 255 && forall k :: 0 <= k < |runs| ==> |runs[k].pixels| == 255
  }

  lemma {:induction false} CodeLength(runs: seq<Run>)
    requires forall k :: 0 <= k < |runs| ==> |runs[k].pixels| < 256
    ensures |EncodeRuns(runs)| <= 257 * |runs|
    ensures |EncodeRuns(runs)| == 257 * |runs| <==> forall k :: 0 <= k < |runs| ==> |runs[k].pixels| == 255
  {
    if runs != [] {
      var init, last := runs[..|runs| - 1], runs[|runs| - 1];
      CodeLength(init);
      assert |EncodeRuns(runs)| == |EncodeRuns(init)| + 2 + |last.pixels|;
      assert forall k :: 0 <= k < |init| ==> init[k] == runs[k];
    }
  }

  /** The code of a row that can be decoded is too long for a WORD only if the row is full. */
  lemma DrawableRowLength(row: seq<Byte>, key: Byte)
    requires Fits(Scan(row, key).runs)
    ensures |EncodeRow(row, key)| <= 0x1_0000
    ensures |EncodeRow(row, key)| == 0x1_0000 <==> FullRow(Scan(row, key).runs)
  {
    CodeLength(Scan(row, key).runs);
  }

  function Solid(p: Byte, n: nat): (s: seq<Byte>)
    ensures |s| == n
  {
    seq(n, _ => p)
  }

  lemma {:induction false} ScanBlock(row: seq<Byte>, key: Byte, p: Byte, n: nat)
    requires p != key && n > 0
    ensures Scan(row + [key] + Solid(p, n), key)
         == Scanned(Scan(row, key).runs + [Run(Scan(row, key).gap + 1, Solid(p, n))], 0)
  {
    var longer := row + [key] + Solid(p, n);
    assert longer[..|longer| - 1] == row + [key] + Solid(p, n - 1);
    if n == 1 {
      assert Solid(p, 0) == [] && Solid(p, 1) == [p];
      assert row + [key] + [] == row + [key] && (row + [key])[..|row|] == row;
    } else {
      ScanBlock(row, key, p, n - 1);
      assert Solid(p, n) == Solid(p, n - 1) + [p];
    }
  }

  /** One transparent pixel and 255 opaque ones, `n` times. */
  function Blocks(key: Byte, p: Byte, n: nat): (row: seq<Byte>)
    ensures |row| == 256 * n
  {
    if n == 0 then [] else Blocks(key, p, n - 1) + [key] + Solid(p, 255)
  }

  lemma {:induction false} ScanBlocks(key: Byte, p: Byte, n: nat)
    requires p != key
    ensures var s := Scan(Blocks(key, p, n), key);
      && s.gap == 0 && |s.runs| == n
      && forall k :: 0 <= k < n ==> s.runs[k] == Run(1, Solid(p, 255))
  {
    if n > 0 {
      ScanBlocks(key, p, n - 1);
      ScanBlock(Blocks(key, p, n - 1), key, p, 255);
    }
  }

  /** There are full rows, 65280 pixels wide. */
  lemma BlocksAreFull(key: Byte, p: Byte)
    requires p != key
    ensures var row := Blocks(key, p, 255);
      |row| == 65280 && Fits(Scan(row, key).runs) && FullRow(Scan(row, key).runs)
  {
    ScanBlocks(key, p, 255);
  }
}
