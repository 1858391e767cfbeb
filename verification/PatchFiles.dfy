/**
  What executing a chain of append nodes does to the files, one byte written or one file
  removed at a time, so that it can be cut off at any point.
 */
module PatchFiles {
  import opened Bytes

  type Files = map<string, seq<Byte>>

  /** `APPEND_PATCH_NODE`. */
  datatype Node = Node(name: string, size: int, count: Word, writePosition: int, afterSize: int, afterCount: Word)

  // ---------------------------------------------------------------- overwriting bytes of a file

  datatype Cell = Cell(pos: nat, b: Byte)

  function Zeros(n: nat): seq<Byte> {
    seq(n, _ => 0)
  }

  /** One byte written at `pos`; a gap behind the end is filled with zeros. */
  function Put(f: seq<Byte>, c: Cell): seq<Byte> {
    if c.pos < |f| then f[c.pos := c.b] else f + Zeros(c.pos - |f|) + [c.b]
  }

  function PutAll(f: seq<Byte>, cells: seq<Cell>): seq<Byte> {
    if cells == [] then f else Put(PutAll(f, cells[..|cells| - 1]), cells[|cells| - 1])
  }

  ghost function Extent(n: nat, cells: seq<Cell>): nat {
    if cells == [] then n else
      var e, p := Extent(n, cells[..|cells| - 1]), cells[|cells| - 1].pos;
      if p < e then e else p + 1
  }

  ghost function Original(f: seq<Byte>, i: nat): Byte {
    if i < |f| then f[i] else 0
  }

  /** The byte at `i` is the last one written there, or else the original one. */
  ghost function Value(f: seq<Byte>, cells: seq<Cell>, i: nat): Byte {
    if cells == [] then Original(f, i)
    else if cells[|cells| - 1].pos == i then cells[|cells| - 1].b
    else Value(f, cells[..|cells| - 1], i)
  }

  lemma {:induction false} PutAllMeaning(f: seq<Byte>, cells: seq<Cell>)
    ensures |PutAll(f, cells)| == Extent(|f|, cells)
    ensures forall i :: 0 <= i < |PutAll(f, cells)| ==> PutAll(f, cells)[i] == Value(f, cells, i)
    ensures forall i: nat :: i >= |PutAll(f, cells)| ==> Value(f, cells, i) == 0
  {
    if cells != [] {
      PutAllMeaning(f, cells[..|cells| - 1]);
    }
  }

  ghost predicate Written(cells: seq<Cell>, i: nat) {
    exists k :: 0 <= k < |cells| && cells[k].pos == i
  }

  /** What is written hides what was there; what is not written stays. */
  lemma {:induction false} ValueWritten(f: seq<Byte>, g: seq<Byte>, cells: seq<Cell>, i: nat)
    ensures Written(cells, i) ==> Value(f, cells, i) == Value(g, cells, i)
    ensures !Written(cells, i) ==> Value(f, cells, i) == Original(f, i)
  {
    if cells != [] && cells[|cells| - 1].pos != i {
      var n := |cells| - 1;
      ValueWritten(f, g, cells[..n], i);
      assert Written(cells, i) <==> Written(cells[..n], i);
    }
  }

  lemma {:induction false} ExtentGrows(n: nat, cells: seq<Cell>, k: nat)
    requires k <= |cells|
    ensures n <= Extent(n, cells[..k]) <= Extent(n, cells)
  {
    if k < |cells| {
      ExtentGrows(n, cells[..|cells| - 1], k);
      assert cells[..|cells| - 1][..k] == cells[..k];
    } else {
      assert cells[..k] == cells;
      if k > 0 {
        ExtentGrows(n, cells[..k - 1], k - 1);
        assert cells[..k - 1][..k - 1] == cells[..k - 1];
      }
    }
  }

  lemma {:induction false} ExtentFrom(n: nat, m: nat, cells: seq<Cell>)
    requires n <= m
    ensures Extent(m, cells) == if m < Extent(n, cells) then Extent(n, cells) else m
  {
    if cells != [] {
      ExtentFrom(n, m, cells[..|cells| - 1]);
      ExtentGrows(n, cells, |cells| - 1);
    }
  }

  /** Writing the same bytes again after any part of them has been written makes no difference. */
  lemma RewriteAfterPart(f: seq<Byte>, cells: seq<Cell>, k: nat)
    requires k <= |cells|
    ensures PutAll(PutAll(f, cells[..k]), cells) == PutAll(f, cells)
  {
    var g := PutAll(f, cells[..k]);
    PutAllMeaning(f, cells[..k]);
    PutAllMeaning(f, cells);
    PutAllMeaning(g, cells);
    ExtentGrows(|f|, cells, k);
    ExtentFrom(|f|, |g|, cells);
    forall i: nat ensures Value(g, cells, i) == Value(f, cells, i) {
      ValueWritten(f, g, cells, i);
      ValueWritten(g, f, cells, i);
      ValueWritten(f, g, cells[..k], i);
      if !Written(cells, i) {
        assert !Written(cells[..k], i);
      }
    }
  }

  // ---------------------------------------------------------------- steps on the files

  datatype Op = Write(cell: Cell) | Remove(name: string)

  /** One step; writes go to the file `org`. */
  function Apply(fs: Files, org: string, op: Op): Files {
    match op
    case Write(c) => if org in fs then fs[org := Put(fs[org], c)] else fs
    case Remove(name) => fs - {name}
  }

  function ApplyAll(fs: Files, org: string, ops: seq<Op>): Files {
    if ops == [] then fs else Apply(ApplyAll(fs, org, ops[..|ops| - 1]), org, ops[|ops| - 1])
  }

  lemma {:induction false} ApplyConcat(fs: Files, org: string, a: seq<Op>, b: seq<Op>)
    ensures ApplyAll(fs, org, a + b) == ApplyAll(ApplyAll(fs, org, a), org, b)
  {
    if b == [] {
      assert a + b == a;
    } else {
      ApplyConcat(fs, org, a, b[..|b| - 1]);
      assert (a + b)[..|a + b| - 1] == a + b[..|b| - 1];
    }
  }

  /** Consecutive bytes from `pos` on. */
  function Run(pos: nat, bytes: seq<Byte>): (cells: seq<Cell>)
    ensures |cells| == |bytes|
  {
    seq(|bytes|, i requires 0 <= i < |bytes| => Cell(pos + i, bytes[i]))
  }

  function Writes(cells: seq<Cell>): (ops: seq<Op>)
    ensures |ops| == |cells|
  {
    seq(|cells|, i requires 0 <= i < |cells| => Write(cells[i]))
  }

  lemma {:induction false} ApplyWrites(fs: Files, org: string, cells: seq<Cell>)
    ensures ApplyAll(fs, org, Writes(cells))
         == if org in fs then fs[org := PutAll(fs[org], cells)] else fs
  {
    if cells == [] {
      assert Writes(cells) == [];
    } else {
      ApplyWrites(fs, org, cells[..|cells| - 1]);
      assert Writes(cells)[..|cells| - 1] == Writes(cells[..|cells| - 1]);
    }
  }

  // ---------------------------------------------------------------- one node

  /** What an append file contributes: all but the count in its first two bytes. */
  function Payload(f: seq<Byte>): seq<Byte> {
    if |f| < 2 then [] else f[2..]
  }

  /** The bytes that `Append` writes: the payload at the write position, then the count. */
  function NodeCells(node: Node, append: seq<Byte>): seq<Cell>
    requires node.writePosition >= 0
  {
    Run(node.writePosition, Payload(append)) + Run(0, Le16(node.afterCount))
  }

  /** Reading the count of a file without one, or seeking before its start, fails the stream. */
  predicate StreamGood(node: Node, f: seq<Byte>) {
    |f| >= 2 && node.writePosition >= 0
  }

  function NodeOps(fs: Files, org: string, node: Node): seq<Op> {
    if node.name !in fs || org !in fs then []
    else (if StreamGood(node, fs[org]) then Writes(NodeCells(node, fs[node.name])) else [])
         + [Remove(node.name)]
  }

  /** `Append` reports failure only for a missing original file. */
  predicate NodeOk(fs: Files, org: string, node: Node) {
    node.name !in fs || org in fs
  }

  function ExecNode(fs: Files, org: string, node: Node): Files {
    ApplyAll(fs, org, NodeOps(fs, org, node))
  }

  // ---------------------------------------------------------------- all nodes

  function PatchOps(fs: Files, org: string, nodes: seq<Node>): seq<Op>
    decreases |nodes|
  {
    if nodes == [] || !NodeOk(fs, org, nodes[0]) then []
    else NodeOps(fs, org, nodes[0]) + PatchOps(ExecNode(fs, org, nodes[0]), org, nodes[1..])
  }

  function Exec(fs: Files, org: string, nodes: seq<Node>): Files
    decreases |nodes|
  {
    if nodes == [] || !NodeOk(fs, org, nodes[0]) then fs
    else Exec(ExecNode(fs, org, nodes[0]), org, nodes[1..])
  }

  function ExecOk(fs: Files, org: string, nodes: seq<Node>): bool
    decreases |nodes|
  {
    nodes == [] || (NodeOk(fs, org, nodes[0]) && ExecOk(ExecNode(fs, org, nodes[0]), org, nodes[1..]))
  }

  lemma {:induction false} ExecIsOps(fs: Files, org: string, nodes: seq<Node>)
    ensures Exec(fs, org, nodes) == ApplyAll(fs, org, PatchOps(fs, org, nodes))
    decreases |nodes|
  {
    if nodes != [] && NodeOk(fs, org, nodes[0]) {
      var fs' := ExecNode(fs, org, nodes[0]);
      ExecIsOps(fs', org, nodes[1..]);
      ApplyConcat(fs, org, NodeOps(fs, org, nodes[0]), PatchOps(fs', org, nodes[1..]));
    }
  }

  /**
    The append file is the original file itself and there is something to copy: the loop of `Append`
    would read what it writes, as far as two buffers let it.
   */
  ghost predicate SelfCopy(fs: Files, org: string, node: Node) {
    node.name == org && org in fs && StreamGood(node, fs[org]) && |fs[org]| > 2
  }

  /** No node that a run gets to does that. */
  ghost predicate NoSelfCopy(fs: Files, org: string, nodes: seq<Node>)
    decreases |nodes|
  {
    nodes != [] && NodeOk(fs, org, nodes[0]) ==>
      !SelfCopy(fs, org, nodes[0]) && NoSelfCopy(ExecNode(fs, org, nodes[0]), org, nodes[1..])
  }

  lemma {:induction false} SeparateCopies(fs: Files, org: string, nodes: seq<Node>)
    requires Separate(org, nodes)
    ensures NoSelfCopy(fs, org, nodes)
    decreases |nodes|
  {
    hide ExecNode;
    if nodes != [] && NodeOk(fs, org, nodes[0]) {
      SeparateCopies(ExecNode(fs, org, nodes[0]), org, nodes[1..]);
    }
  }

  // ---------------------------------------------------------------- crashes

  /** The original file is not one of those appended. */
  ghost predicate Separate(org: string, nodes: seq<Node>) {
    forall k :: 0 <= k < |nodes| ==> nodes[k].name != org
  }

  /** The files when the run is cut off after `k` steps, or at its end. */
  ghost function CrashAfter(fs: Files, org: string, nodes: seq<Node>, k: nat): Files {
    var ops := PatchOps(fs, org, nodes);
    ApplyAll(fs, org, if k < |ops| then ops[..k] else ops)
  }

  lemma {:induction false} GoneStaysGone(fs: Files, org: string, ops: seq<Op>, name: string)
    requires name !in fs
    ensures name !in ApplyAll(fs, org, ops)
  {
    if ops != [] {
      GoneStaysGone(fs, org, ops[..|ops| - 1], name);
    }
  }

  lemma ApplyNone(fs: Files, org: string)
    ensures ApplyAll(fs, org, []) == fs
  {
  }

  lemma ApplyOne(fs: Files, org: string, op: Op)
    ensures ApplyAll(fs, org, [op]) == Apply(fs, org, op)
  {
    assert [op][..0] == [];
  }

  lemma NodeEffect(fs: Files, org: string, node: Node)
    requires node.name in fs && org in fs
    ensures ExecNode(fs, org, node)
         == (if StreamGood(node, fs[org])
             then fs[org := PutAll(fs[org], NodeCells(node, fs[node.name]))] else fs) - {node.name}
  {
    if StreamGood(node, fs[org]) {
      var cells := NodeCells(node, fs[node.name]);
      ApplyWrites(fs, org, cells);
      ApplyConcat(fs, org, Writes(cells), [Remove(node.name)]);
      ApplyOne(ApplyAll(fs, org, Writes(cells)), org, Remove(node.name));
    } else {
      assert NodeOps(fs, org, node) == [Remove(node.name)];
      ApplyOne(fs, org, Remove(node.name));
    }
  }

  /** Bytes written from `pos` on, in their order; nothing else changes, and a gap is zeros. */
  lemma {:induction false} PutRun(f: seq<Byte>, pos: nat, b: seq<Byte>)
    ensures var r := PutAll(f, Run(pos, b));
      && |r| == (if b != [] && pos + |b| > |f| then pos + |b| else |f|)
      && forall i :: 0 <= i < |r| ==> r[i] == if pos <= i < pos + |b| then b[i - pos] else if i < |f| then f[i] else 0
  {
    if b != [] {
      PutRun(f, pos, b[..|b| - 1]);
      assert Run(pos, b)[..|b| - 1] == Run(pos, b[..|b| - 1]);
    }
  }

  lemma {:induction false} PutConcat(f: seq<Byte>, a: seq<Cell>, b: seq<Cell>)
    ensures PutAll(f, a + b) == PutAll(PutAll(f, a), b)
  {
    if b == [] {
      assert a + b == a;
    } else {
      PutConcat(f, a, b[..|b| - 1]);
      assert (a + b)[..|a + b| - 1] == a + b[..|b| - 1];
    }
  }

  /**
    What a node does to the original file, byte by byte, for any write position: the little-endian
    after-count in front, all but the first two bytes of the append file from the write position on, and
    else what was there, or zeros in a gap.
   */
  lemma NodeBytes(fs: Files, org: string, node: Node)
    requires node.name in fs && org in fs && node.name != org
    requires |fs[org]| >= 2 && node.writePosition >= 0
    ensures var f, a, at := fs[org], fs[node.name], node.writePosition;
      var after := ExecNode(fs, org, node);
      && after.Keys == fs.Keys - {node.name}
      && (forall other :: other in after && other != org ==> after[other] == fs[other])
      && org in after
      && |after[org]| == (if |a| > 2 && at + |a| - 2 > |f| then at + |a| - 2 else |f|) >= 2
      && after[org][0] == node.afterCount % 256 && after[org][1] == node.afterCount / 256
      && forall i :: 2 <= i < |after[org]| ==>
           after[org][i] == if at <= i < at + |a| - 2 then a[2 + i - at] else if i < |f| then f[i] else 0
  {
    var f, a, at := fs[org], fs[node.name], node.writePosition;
    var payload, header := Payload(a), Le16(node.afterCount);
    NodeEffect(fs, org, node);
    PutConcat(f, Run(at, payload), Run(0, header));
    PutRun(f, at, payload);
    PutRun(PutAll(f, Run(at, payload)), 0, header);
    hide PutAll; hide Run; hide ExecNode;
  }

  /** An original file without a count, or a write position before its start: nothing is written. */
  lemma ShortOriginalUntouched(fs: Files, org: string, node: Node)
    requires node.name in fs && org in fs && (|fs[org]| < 2 || node.writePosition < 0)
    ensures NodeOk(fs, org, node) && ExecNode(fs, org, node) == fs - {node.name}
    ensures NodeOps(fs, org, node) == [Remove(node.name)]
  {
    hide ExecNode;
    NodeEffect(fs, org, node);
  }

  lemma CellsCutOff(fs: Files, org: string, node: Node, k: nat)
    requires node.name != org && node.name in fs && org in fs && StreamGood(node, fs[org])
    requires k <= |NodeCells(node, fs[node.name])|
    ensures var cells := NodeCells(node, fs[node.name]);
      var fs' := fs[org := PutAll(fs[org], cells[..k])];
      && StreamGood(node, fs'[org])
      && ExecNode(fs', org, node) == ExecNode(fs, org, node)
  {
    hide ExecNode; hide PutAll; hide NodeCells;
    var cells := NodeCells(node, fs[node.name]);
    var f, g := fs[org], PutAll(fs[org], cells[..k]);
    PutAllMeaning(f, cells[..k]);
    ExtentGrows(|f|, cells, k);
    RewriteAfterPart(f, cells, k);
    NodeEffect(fs, org, node);
    NodeEffect(fs[org := g], org, node);
    assert fs[org := g][org := PutAll(f, cells)] == fs[org := PutAll(f, cells)];
  }

  /** A node cut off before its append file is removed is done over with the same result. */
  lemma NodeCutOff(fs: Files, org: string, node: Node, k: nat)
    requires node.name != org && k < |NodeOps(fs, org, node)|
    ensures var fs' := ApplyAll(fs, org, NodeOps(fs, org, node)[..k]);
      NodeOk(fs', org, node) && ExecNode(fs', org, node) == ExecNode(fs, org, node)
  {
    var ops := NodeOps(fs, org, node);
    hide ExecNode; hide PutAll; hide NodeCells;
    if StreamGood(node, fs[org]) {
      var cells := NodeCells(node, fs[node.name]);
      assert ops[..k] == Writes(cells[..k]);
      ApplyWrites(fs, org, cells[..k]);
      CellsCutOff(fs, org, node, k);
    } else {
      assert ops[..k] == [];
    }
  }

  lemma AbsentIsSkipped(fs: Files, org: string, node: Node)
    requires node.name !in fs
    ensures NodeOk(fs, org, node) && NodeOps(fs, org, node) == [] && ExecNode(fs, org, node) == fs
  {
  }

  lemma NodeRemoves(fs: Files, org: string, node: Node)
    requires node.name != org && NodeOk(fs, org, node)
    ensures node.name !in ExecNode(fs, org, node)
  {
    if node.name in fs {
      NodeEffect(fs, org, node);
    }
  }

  ghost predicate SameOutcome(fs: Files, fs': Files, org: string, nodes: seq<Node>) {
    Exec(fs', org, nodes) == Exec(fs, org, nodes) && ExecOk(fs', org, nodes) == ExecOk(fs, org, nodes)
  }

  lemma SameAfterFirst(fs: Files, fs': Files, org: string, nodes: seq<Node>)
    requires nodes != [] && NodeOk(fs, org, nodes[0]) && NodeOk(fs', org, nodes[0])
    requires SameOutcome(ExecNode(fs, org, nodes[0]), ExecNode(fs', org, nodes[0]), org, nodes[1..])
    ensures SameOutcome(fs, fs', org, nodes)
  {
  }

  /** A crash after the first node: that node has nothing left to do. */
  lemma CutOffLater(fs: Files, org: string, nodes: seq<Node>, later: seq<Op>)
    requires Separate(org, nodes) && nodes != [] && NodeOk(fs, org, nodes[0])
    ensures var fs' := ApplyAll(fs, org, NodeOps(fs, org, nodes[0]) + later);
      && NodeOk(fs', org, nodes[0])
      && ExecNode(fs', org, nodes[0]) == fs' == ApplyAll(ExecNode(fs, org, nodes[0]), org, later)
  {
    var next := ExecNode(fs, org, nodes[0]);
    ApplyConcat(fs, org, NodeOps(fs, org, nodes[0]), later);
    NodeRemoves(fs, org, nodes[0]);
    GoneStaysGone(next, org, later, nodes[0].name);
    AbsentIsSkipped(ApplyAll(next, org, later), org, nodes[0]);
  }

  /**
    Crash resumption: however many steps of a run were made, running again from there ends with
    the same files and the same answer as one uninterrupted run.
   */
  lemma {:induction false} Resumes(fs: Files, org: string, nodes: seq<Node>, k: nat)
    requires Separate(org, nodes) && k <= |PatchOps(fs, org, nodes)|
    ensures SameOutcome(fs, ApplyAll(fs, org, PatchOps(fs, org, nodes)[..k]), org, nodes)
    decreases |nodes|
  {
    hide SameOutcome; hide NodeOps; hide ExecNode; hide ApplyAll; hide NodeOk; hide Exec; hide ExecOk; hide PatchOps;
    var ops := PatchOps(fs, org, nodes);
    OpsOfFirst(fs, org, nodes);
    if nodes != [] && NodeOk(fs, org, nodes[0]) {
      var first, next := NodeOps(fs, org, nodes[0]), ExecNode(fs, org, nodes[0]);
      if k < |first| {
        assert ops[..k] == first[..k];
        NodeCutOff(fs, org, nodes[0], k);
        SameItself(next, org, nodes[1..]);
      } else {
        var later := PatchOps(next, org, nodes[1..])[..k - |first|];
        assert ops[..k] == first + later;
        CutOffLater(fs, org, nodes, later);
        Resumes(next, org, nodes[1..], k - |first|);
      }
      SameAfterFirst(fs, ApplyAll(fs, org, ops[..k]), org, nodes);
    } else {
      ApplyNone(fs, org);
      SameItself(fs, org, nodes);
    }
  }

  lemma OpsOfFirst(fs: Files, org: string, nodes: seq<Node>)
    ensures PatchOps(fs, org, nodes)
         == if nodes != [] && NodeOk(fs, org, nodes[0])
            then NodeOps(fs, org, nodes[0]) + PatchOps(ExecNode(fs, org, nodes[0]), org, nodes[1..]) else []
  {
  }

  lemma SameItself(fs: Files, org: string, nodes: seq<Node>)
    ensures SameOutcome(fs, fs, org, nodes)
  {
  }

  /** The files after a run was cut off again and again. */
  ghost function Crashes(fs: Files, org: string, nodes: seq<Node>, ks: seq<nat>): Files {
    if ks == [] then fs
    else CrashAfter(Crashes(fs, org, nodes, ks[..|ks| - 1]), org, nodes, ks[|ks| - 1])
  }

  lemma {:induction false} ResumesAfterCrashes(fs: Files, org: string, nodes: seq<Node>, ks: seq<nat>)
    requires Separate(org, nodes)
    ensures Exec(Crashes(fs, org, nodes, ks), org, nodes) == Exec(fs, org, nodes)
    ensures ExecOk(Crashes(fs, org, nodes, ks), org, nodes) == ExecOk(fs, org, nodes)
  {
    if ks != [] {
      var before, k := Crashes(fs, org, nodes, ks[..|ks| - 1]), ks[|ks| - 1];
      ResumesAfterCrashes(fs, org, nodes, ks[..|ks| - 1]);
      var ops := PatchOps(before, org, nodes);
      assert ops[..|ops|] == ops;
      Resumes(before, org, nodes, if k < |ops| then k else |ops|);
    }
  }

  /** Once a run has succeeded, running again does nothing. */
  lemma {:induction false} NothingLeftToDo(fs: Files, org: string, nodes: seq<Node>)
    requires Separate(org, nodes) && ExecOk(fs, org, nodes)
    ensures PatchOps(Exec(fs, org, nodes), org, nodes) == [] && ExecOk(Exec(fs, org, nodes), org, nodes)
  {
    AllRemoved(fs, org, nodes);
    AbsentDoNothing(Exec(fs, org, nodes), org, nodes);
  }

  lemma {:induction false} AllRemoved(fs: Files, org: string, nodes: seq<Node>)
    requires Separate(org, nodes) && ExecOk(fs, org, nodes)
    ensures forall k :: 0 <= k < |nodes| ==> nodes[k].name !in Exec(fs, org, nodes)
    decreases |nodes|
  {
    if nodes != [] {
      var next := ExecNode(fs, org, nodes[0]);
      AllRemoved(next, org, nodes[1..]);
      NodeRemoves(fs, org, nodes[0]);
      ExecIsOps(next, org, nodes[1..]);
      GoneStaysGone(next, org, PatchOps(next, org, nodes[1..]), nodes[0].name);
    }
  }

  lemma {:induction false} AbsentDoNothing(fs: Files, org: string, nodes: seq<Node>)
    requires forall k :: 0 <= k < |nodes| ==> nodes[k].name !in fs
    ensures PatchOps(fs, org, nodes) == [] && ExecOk(fs, org, nodes)
    decreases |nodes|
  {
    if nodes != [] {
      AbsentDoNothing(fs, org, nodes[1..]);
    }
  }

  lemma OriginalStays(fs: Files, org: string, node: Node)
    requires node.name != org && NodeOk(fs, org, node)
    ensures org in ExecNode(fs, org, node) <==> org in fs
  {
    if node.name in fs {
      NodeEffect(fs, org, node);
    }
  }

  /** A run fails exactly if there is something to append and nothing to append it to. */
  lemma {:induction false} SucceedsIff(fs: Files, org: string, nodes: seq<Node>)
    requires Separate(org, nodes)
    ensures ExecOk(fs, org, nodes) <==> org in fs || forall k :: 0 <= k < |nodes| ==> nodes[k].name !in fs
    decreases |nodes|
  {
    hide ExecNode;
    if nodes != [] {
      if NodeOk(fs, org, nodes[0]) {
        OriginalStays(fs, org, nodes[0]);
        SucceedsIff(ExecNode(fs, org, nodes[0]), org, nodes[1..]);
        if org !in fs {
          AbsentIsSkipped(fs, org, nodes[0]);
        }
      }
    }
  }

  // ---------------------------------------------------------------- which files are removed

  ghost function Names(nodes: seq<Node>): set<string> {
    set k | 0 <= k < |nodes| :: nodes[k].name
  }

  lemma {:induction false} WritesKeepNames(fs: Files, org: string, cells: seq<Cell>)
    ensures ApplyAll(fs, org, Writes(cells)).Keys == fs.Keys
  {
    ApplyWrites(fs, org, cells);
  }

  lemma NodeKeys(fs: Files, org: string, node: Node, k: nat)
    requires node.name != org && NodeOk(fs, org, node) && k <= |NodeOps(fs, org, node)|
    ensures ApplyAll(fs, org, NodeOps(fs, org, node)[..k]).Keys
         == if k < |NodeOps(fs, org, node)| then fs.Keys else fs.Keys - {node.name}
  {
    var ops := NodeOps(fs, org, node);
    if k < |ops| {
      if StreamGood(node, fs[org]) {
        var cells := NodeCells(node, fs[node.name]);
        assert ops[..k] == Writes(cells[..k]);
        WritesKeepNames(fs, org, cells[..k]);
      } else {
        assert ops[..k] == [];
      }
    } else {
      assert ops[..k] == ops;
      if node.name in fs {
        NodeEffect(fs, org, node);
      }
    }
  }

  /** At every point of a run the files removed so far are those of the first nodes. */
  lemma {:induction false} RemovedPrefix(fs: Files, org: string, nodes: seq<Node>, k: nat) returns (m: nat)
    requires Separate(org, nodes) && k <= |PatchOps(fs, org, nodes)|
    ensures m <= |nodes|
    ensures ApplyAll(fs, org, PatchOps(fs, org, nodes)[..k]).Keys == fs.Keys - Names(nodes[..m])
    decreases |nodes|
  {
    hide Names; hide NodeOps; hide ApplyAll; hide NodeOk;
    m := 0;
    NoNames(nodes);
    ApplyNone(fs, org);
    if nodes != [] && NodeOk(fs, org, nodes[0]) {
      var first, next := NodeOps(fs, org, nodes[0]), ExecNode(fs, org, nodes[0]);
      var ops, rest := PatchOps(fs, org, nodes), PatchOps(next, org, nodes[1..]);
      if k < |first| {
        assert ops[..k] == first[..k];
        NodeKeys(fs, org, nodes[0], k);
      } else {
        var later := rest[..k - |first|];
        assert ops[..k] == first + later && first[..|first|] == first;
        ApplyConcat(fs, org, first, later);
        NodeKeys(fs, org, nodes[0], |first|);
        var l := RemovedPrefix(next, org, nodes[1..], k - |first|);
        m := l + 1;
        NamesCons(nodes, m);
        MinusTwice(fs.Keys, nodes[0].name, Names(nodes[1..][..l]));
      }
    } else {
      assert PatchOps(fs, org, nodes)[..k] == [];
    }
  }

  lemma MinusTwice(keys: set<string>, name: string, names: set<string>)
    ensures keys - {name} - names == keys - ({name} + names)
  {
  }

  lemma NoNames(nodes: seq<Node>)
    ensures Names(nodes[..0]) == {}
  {
  }

  lemma NamesCons(nodes: seq<Node>, m: nat)
    requires 0 < m <= |nodes|
    ensures Names(nodes[..m]) == {nodes[0].name} + Names(nodes[1..][..m - 1])
  {
    var tail := nodes[1..][..m - 1];
    assert nodes[..m] == [nodes[0]] + tail;
    forall n ensures n in Names(nodes[..m]) <==> n == nodes[0].name || n in Names(tail) {
      if n in Names(tail) {
        var k :| 0 <= k < |tail| && tail[k].name == n;
        assert nodes[..m][k + 1].name == n;
      }
      if n in Names(nodes[..m]) {
        var k :| 0 <= k < m && nodes[..m][k].name == n;
        assert k == 0 || tail[k - 1].name == n;
      }
    }
  }
}
