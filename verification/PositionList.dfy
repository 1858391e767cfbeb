/** `CPositionList<unsigned short>`: positions in lexicographic order without repetitions. */
module PositionLists {
  import opened Bytes
  import opened Lists
  import opened Streams

  datatype Position = Position(x: Word, y: Word)

  /** `operator <`. */
  predicate Less(a: Position, b: Position) {
    if a.x < b.x then true else if a.x > b.x then false else a.y < b.y
  }

  /** `operator >`, which the source states on its own. */
  predicate Greater(a: Position, b: Position) {
    if a.x > b.x then true else if a.x < b.x then false else a.y > b.y
  }

  /** The comparisons are those of one strict total order. */
  lemma LessIsTotalOrder(a: Position, b: Position, c: Position)
    ensures Greater(a, b) <==> Less(b, a)
    ensures !(Less(a, b) && Less(b, a)) && (a == b || Less(a, b) || Less(b, a)) && !Less(a, a)
    ensures Less(a, b) && Less(b, c) ==> Less(a, c)
    ensures Less(a, b) <==> a.x * 0x1_0000 + a.y < b.x * 0x1_0000 + b.y
  {
  }

  ghost predicate Sorted(list: seq<Position>) {
    forall i, j :: 0 <= i < j < |list| ==> Less(list[i], list[j])
  }

  // ---------------------------------------------------------------- the file format

  function NodeBytes(p: Position): (b: seq<Byte>)
    ensures |b| == 4
  {
    Le16(p.x) + Le16(p.y)
  }

  function FromNodeBytes(b: seq<Byte>): Position
    requires |b| == 4
  {
    Position(FromLe16(b[..2]), FromLe16(b[2..]))
  }

  lemma NodeRoundTrip(p: Position)
    ensures FromNodeBytes(NodeBytes(p)) == p
  {
    hide Le16; hide FromLe16;
    LeRoundTrip(p.x, 0);
    LeRoundTrip(p.y, 0);
    assert NodeBytes(p)[..2] == Le16(p.x) && NodeBytes(p)[2..] == Le16(p.y);
  }

  function SaveNodes(list: seq<Position>): (b: seq<Byte>)
    ensures |b| == 4 * |list|
  {
    if list == [] then [] else SaveNodes(list[..|list| - 1]) + NodeBytes(list[|list| - 1])
  }

  /** The count is cut to a WORD, and nothing follows a count of zero. */
  function Save(list: seq<Position>): seq<Byte> {
    Le16(ToWord(|list|)) + if ToWord(|list|) == 0 then [] else SaveNodes(list)
  }

  function LoadNodes(file: seq<Byte>, at: nat, n: nat): (list: seq<Position>)
    requires at + 4 * n <= |file|
    ensures |list| == n
  {
    if n == 0 then [] else
      LoadNodes(file, at, n - 1) + [FromNodeBytes(file[at + 4 * (n - 1)..at + 4 * n])]
  }

  /** The file holds as many positions as its count says. */
  ghost predicate Loadable(file: seq<Byte>, at: nat) {
    at + 2 <= |file| && at + 2 + 4 * FromLe16(file[at..at + 2]) <= |file|
  }

  function Load(file: seq<Byte>, at: nat): seq<Position>
    requires Loadable(file, at)
  {
    LoadNodes(file, at + 2, FromLe16(file[at..at + 2]))
  }

  lemma {:induction false} NodeAt(list: seq<Position>, i: nat)
    requires i < |list|
    ensures SaveNodes(list)[4 * i..4 * i + 4] == NodeBytes(list[i])
    decreases |list|
  {
    hide NodeBytes;
    var init := list[..|list| - 1];
    if i < |init| {
      NodeAt(init, i);
      assert SaveNodes(list)[4 * i..4 * i + 4] == SaveNodes(init)[4 * i..4 * i + 4];
    }
  }

  lemma SliceOfSlice(file: seq<Byte>, at: nat, n: nat, p: nat)
    requires p + 4 <= n && at + n <= |file|
    ensures file[at + p..at + p + 4] == file[at..at + n][p..p + 4]
  {
    var part := file[at..at + n];
    var a, b := file[at + p..at + p + 4], part[p..p + 4];
    forall k | 0 <= k < 4 ensures a[k] == b[k] {
      assert part[p + k] == file[at + p + k];
    }
  }

  lemma {:induction false} LoadSaved(file: seq<Byte>, at: nat, list: seq<Position>, n: nat)
    requires n <= |list| && at + |SaveNodes(list)| <= |file|
    requires file[at..at + |SaveNodes(list)|] == SaveNodes(list)
    ensures LoadNodes(file, at, n) == list[..n]
  {
    hide NodeBytes; hide FromNodeBytes; hide SaveNodes;
    if n > 0 {
      LoadSaved(file, at, list, n - 1);
      NodeAt(list, n - 1);
      SliceOfSlice(file, at, |SaveNodes(list)|, 4 * (n - 1));
      NodeRoundTrip(list[n - 1]);
      assert list[..n] == list[..n - 1] + [list[n - 1]];
    }
  }

  /** Saving and loading restores a list exactly if its length fits the count. */
  lemma SaveLoad(list: seq<Position>)
    ensures Loadable(Save(list), 0)
    ensures Load(Save(list), 0) == list <==> |list| < 0x1_0000
    ensures Load(Save(list), 0) == list[..ToWord(|list|)]
  {
    hide Le16; hide FromLe16; hide SaveNodes; hide LoadNodes;
    NoNodesAt(Save(list), 2);
    var n, file := ToWord(|list|), Save(list);
    assert file[0..2] == Le16(n);
    LeRoundTrip(n, 0);
    if n != 0 {
      assert file[2..2 + |SaveNodes(list)|] == SaveNodes(list);
      LoadSaved(file, 2, list, n);
    }
  }

  /** The format: the count cut to 16 bits, then x and y of each position, all low byte first. */
  lemma PositionFormat(list: seq<Position>)
    ensures var b := Save(list);
      && |b| == (if |list| % 0x1_0000 == 0 then 2 else 2 + 4 * |list|)
      && b[0] == |list| % 0x1_0000 % 256 && b[1] == |list| % 0x1_0000 / 256
      && forall k :: 0 <= k < |list| && |list| % 0x1_0000 != 0 ==> NodeAtByte(b, 2 + 4 * k, list[k])
  {
    hide SaveNodes; hide NodeAtByte;
    var b := Save(list);
    if |list| % 0x1_0000 != 0 {
      forall k | 0 <= k < |list| ensures NodeAtByte(b, 2 + 4 * k, list[k]) {
        NodeAt(list, k);
        assert b[2..] == SaveNodes(list);
        assert b[2 + 4 * k..2 + 4 * k + 4] == b[2..][4 * k..4 * k + 4];
        NodeBytesAt(b, 2 + 4 * k, list[k]);
      }
    }
  }

  ghost predicate NodeAtByte(b: seq<Byte>, at: nat, p: Position) {
    && at + 4 <= |b| && b[at] == p.x % 256 && b[at + 1] == p.x / 256
    && b[at + 2] == p.y % 256 && b[at + 3] == p.y / 256
  }

  lemma NodeBytesAt(b: seq<Byte>, at: nat, p: Position)
    requires at + 4 <= |b| && b[at..at + 4] == NodeBytes(p)
    ensures NodeAtByte(b, at, p)
  {
    var s := b[at..at + 4];
    assert b[at] == s[0] && b[at + 1] == s[1] && b[at + 2] == s[2] && b[at + 3] == s[3];
  }

  // ---------------------------------------------------------------- reading on behind the end

  lemma {:induction false} LoadNodesMore(f: seq<Byte>, g: seq<Byte>, at: nat, n: nat)
    requires f <= g && at + 4 * n <= |f|
    ensures LoadNodes(g, at, n) == LoadNodes(f, at, n)
  {
    hide FromNodeBytes;
    if n > 0 {
      LoadNodesMore(f, g, at, n - 1);
      assert g[at + 4 * (n - 1)..at + 4 * n] == f[at + 4 * (n - 1)..at + 4 * n];
    }
  }

  lemma Halves(file: seq<Byte>, p: nat)
    requires p + 4 <= |file|
    ensures FromNodeBytes(file[p..p + 4]) == Position(FromLe16(file[p..p + 2]), FromLe16(file[p + 2..p + 4]))
  {
    hide FromLe16;
    assert file[p..p + 4][..2] == file[p..p + 2] && file[p..p + 4][2..] == file[p + 2..p + 4];
  }

  lemma Le16Restored(w: Word)
    ensures FromLe16(Le16(w)) == w
  {
  }

  class PositionList {
    var list: seq<Position>

    constructor ()
      ensures list == []
    {
      list := [];
    }

    method Add(x: Word, y: Word) returns (added: bool)
      requires Sorted(list)
      modifies this
      ensures Sorted(list) && Members(list) == old(Members(list)) + {Position(x, y)}
      ensures added <==> Position(x, y) !in old(list)
    {
      var node, i := Position(x, y), 0;
      while i < |list|
        invariant i <= |list| && list == old(list)
        invariant forall k :: 0 <= k < i ==> Less(list[k], node)
      {
        if Greater(list[i], node) {
          list := list[..i] + [node] + list[i..];
          InsertedMembers(old(list), i, node);
          return true;
        }
        if list[i] == node {
          return false;
        }
        i := i + 1;
      }
      list := list + [node];
      return true;
    }

    method Remove(x: Word, y: Word) returns (removed: bool)
      requires Sorted(list)
      modifies this
      ensures Sorted(list) && Members(list) == old(Members(list)) - {Position(x, y)}
      ensures removed <==> Position(x, y) in old(list)
    {
      var node, i := Position(x, y), 0;
      while i < |list|
        invariant i <= |list| && list == old(list)
        invariant forall k :: 0 <= k < i ==> Less(list[k], node)
      {
        if list[i] == node {
          list := list[..i] + list[i + 1..];
          ErasedMembers(old(list), i);
          return true;
        }
        if Greater(list[i], node) {
          return false;
        }
        i := i + 1;
      }
      return false;
    }

    /** Behind what has been written. */
    method SaveToFile(file: OutStream)
      requires file.pos == |file.bytes|
      modifies file
      ensures file.pos == |file.bytes| && file.bytes == old(file.bytes) + Save(list)
    {
      hide Le16;
      var size := ToWord(|list|);
      file.Write(Le16(size));
      if size == 0 {
        return;
      }
      ghost var head := file.bytes;
      for i := 0 to |list|
        invariant file.pos == |file.bytes| && file.bytes == head + SaveNodes(list[..i])
      {
        assert list[..i + 1][..i] == list[..i];
        file.Write(Le16(list[i].x));
        file.Write(Le16(list[i].y));
        assert file.bytes == head + SaveNodes(list[..i]) + NodeBytes(list[i]);
      }
      assert list[..|list|] == list;
    }

    /**
      As many positions as the count says. Where the file ends before them, the last position read is
      repeated; a count that is not there is what was in memory.
     */
    method LoadFromFile(file: InStream)
      requires file.Valid()
      modifies this, file
      ensures file.Valid() && old(file.Content()) <= file.Content()
      ensures Loadable(file.Content(), old(file.Pos())) && list == Load(file.Content(), old(file.Pos()))
      ensures old(file.memory) == [] && Loadable(file.bytes, old(file.pos)) ==> file.memory == []
      ensures forall i :: 0 < i < |list| && old(file.Pos()) + 2 + 4 * i >= |file.bytes| ==> list[i] == list[i - 1]
    {
      hide Le16; hide FromLe16; hide LoadNodes;
      ghost var p := file.Pos();
      list := [];
      var size: Word, x: Word, y: Word := *, *, *;
      var header := file.Read(Le16(size));
      ghost var content := file.Content();
      assert old(file.memory) == [] && Loadable(file.bytes, old(file.pos)) ==> content == file.bytes;
      size := FromLe16(header);
      if size == 0 {
        NoNodesAt(content, p + 2);
        return;
      }
      list := ReadNodes(file, size, x, y);
      assert file.Content()[p..p + 2] == content[p..p + 2] == header;
    }
  }

  /** The loop; `x0` and `y0` are what is in the node before. */
  method ReadNodes(file: InStream, size: nat, x0: Word, y0: Word) returns (list: seq<Position>)
    requires file.Valid()
    modifies file
    ensures file.Valid() && old(file.Content()) <= file.Content()
    ensures file.Pos() == old(file.Pos()) + 4 * size <= |file.Content()|
    ensures list == LoadNodes(file.Content(), old(file.Pos()), size)
    ensures old(file.memory) == [] && old(file.pos) + 4 * size <= |file.bytes| ==> file.memory == []
    ensures forall i :: 0 < i < |list| && old(file.Pos()) + 4 * i >= |file.bytes| ==> list[i] == list[i - 1]
  {
    hide LoadNodes; hide FromNodeBytes;
    ghost var p := file.Pos();
    var x, y := x0, y0;
    list := [];
    NoNodesAt(file.Content(), p);
    for i := 0 to size
      invariant file.Valid() && old(file.Content()) <= file.Content()
      invariant file.Pos() == p + 4 * i <= |file.Content()|
      invariant list == LoadNodes(file.Content(), p, i)
      invariant i > 0 ==> list[i - 1] == Position(x, y)
      invariant old(file.memory) == [] && old(file.pos) + 4 * size <= |file.bytes| ==> file.memory == []
      invariant forall k :: 0 < k < i && p + 4 * k >= |file.bytes| ==> list[k] == list[k - 1]
    {
      ghost var before := file.Content();
      x, y := ReadNode(file, x, y);
      LoadNodesMore(before, file.Content(), p, i);
      LoadNodesStep(file.Content(), p, i);
      list := list + [Position(x, y)];
    }
  }

  /** The two reads of a node. */
  method ReadNode(file: InStream, x: Word, y: Word) returns (x': Word, y': Word)
    requires file.Valid()
    modifies file
    ensures file.Valid() && old(file.Content()) <= file.Content()
    ensures file.Pos() == old(file.Pos()) + 4 <= |file.Content()|
    ensures FromNodeBytes(file.Content()[old(file.Pos())..file.Pos()]) == Position(x', y')
    ensures old(file.memory) == [] && old(file.pos) + 4 <= |file.bytes| ==> file.memory == []
    ensures old(file.Pos()) >= |file.bytes| ==> x' == x && y' == y
  {
    hide Le16; hide FromLe16; hide FromNodeBytes;
    ghost var p := file.Pos();
    var first := file.Read(Le16(x));
    ghost var content := file.Content();
    var second := file.Read(Le16(y));
    assert file.Content()[p..p + 2] == content[p..p + 2];
    Halves(file.Content(), p);
    x', y' := FromLe16(first), FromLe16(second);
    if p >= |file.bytes| {
      assert first == Le16(x) && second == Le16(y);
      Le16Restored(x);
      Le16Restored(y);
    }
  }

  lemma NoNodesAt(file: seq<Byte>, at: nat)
    requires at <= |file|
    ensures LoadNodes(file, at, 0) == []
  {
  }

  lemma LoadNodesStep(file: seq<Byte>, at: nat, n: nat)
    requires at + 4 * n + 4 <= |file|
    ensures LoadNodes(file, at, n + 1) == LoadNodes(file, at, n) + [FromNodeBytes(file[at + 4 * n..at + 4 * n + 4])]
  {
  }
}
