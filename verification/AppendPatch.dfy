/** `AppendPatch` and `APPEND_PATCH_NODE::Append`: loops over nodes and over the bytes of files. */
module AppendPatches {
  import opened Bytes
  import opened PatchFiles
  import opened PatchResult

  /** The files of a directory; `log` records each byte written and each file removed. */
  class Disk {
    var files: Files
    ghost var log: seq<Op>

    constructor (files: Files)
      ensures this.files == files && log == []
    {
      this.files := files;
      log := [];
    }

    /** `write` on a stream of file `name` positioned at `pos`: byte after byte. */
    method WriteAt(name: string, pos: nat, bytes: seq<Byte>)
      requires name in files
      modifies this
      ensures log == old(log) + Writes(Run(pos, bytes))
      ensures files == old(files)[name := PutAll(old(files[name]), Run(pos, bytes))]
    {
      var f := files[name];
      for i := 0 to |bytes|
        invariant files == old(files) && log == old(log)
        invariant f == PutAll(old(files[name]), Run(pos, bytes)[..i])
      {
        f := Put(f, Cell(pos + i, bytes[i]));
        assert Run(pos, bytes)[..i + 1][..i] == Run(pos, bytes)[..i];
      }
      assert Run(pos, bytes)[..|bytes|] == Run(pos, bytes);
      files := files[name := f];
      log := log + Writes(Run(pos, bytes));
    }

    method Remove(name: string)
      modifies this
      ensures files == old(files) - {name} && log == old(log) + [Op.Remove(name)]
    {
      files := files - {name};
      log := log + [Op.Remove(name)];
    }
  }

  lemma RunConcat(pos: nat, a: seq<Byte>, b: seq<Byte>)
    ensures Run(pos, a + b) == Run(pos, a) + Run(pos + |a|, b)
    ensures Writes(Run(pos, a + b)) == Writes(Run(pos, a)) + Writes(Run(pos + |a|, b))
  {
  }

  lemma NothingCopied(f: seq<Byte>, pos: nat)
    ensures Run(pos, []) == [] && Writes([]) == [] && PutAll(f, []) == f
  {
  }

  lemma OneMoreBlock(f: seq<Byte>, pos: nat, a: seq<Byte>, b: seq<Byte>)
    ensures PutAll(PutAll(f, Run(pos, a)), Run(pos + |a|, b)) == PutAll(f, Run(pos, a + b))
    ensures Writes(Run(pos, a + b)) == Writes(Run(pos, a)) + Writes(Run(pos + |a|, b))
  {
    hide PutAll;
    RunConcat(pos, a, b);
    PutConcat(f, Run(pos, a), Run(pos + |a|, b));
  }

  /** All but the first two bytes of a file. */
  lemma PayloadIs(f: seq<Byte>)
    ensures Payload(f) == if |f| < 2 then [] else f[2..]
  {
  }

  /** The copy loop: blocks of 4096 bytes from offset 2 of the append file on to the write position. */
  method CopyPayload(disk: Disk, org: string, pos: nat, f: seq<Byte>)
    requires org in disk.files
    modifies disk
    ensures var copied := Run(pos, if |f| < 2 then [] else f[2..]);
      && disk.files == old(disk.files)[org := PutAll(old(disk.files[org]), copied)]
      && disk.log == old(disk.log) + Writes(copied)
  {
    hide PutAll; hide Run; hide Writes;
    if |f| <= 2 {
      NothingCopied(disk.files[org], pos);
      assert |f| == 2 ==> f[2..] == [];
      return;
    }
    var read := 2;
    assert f[2..read] == [];
    NothingCopied(disk.files[org], pos);
    while read < |f|
      invariant 2 <= read <= |f|
      invariant org in disk.files
      invariant disk.files == old(disk.files)[org := PutAll(old(disk.files[org]), Run(pos, f[2..read]))]
      invariant disk.log == old(disk.log) + Writes(Run(pos, f[2..read]))
    {
      var n := if |f| - read < 4096 then |f| - read else 4096;
      var buffer := f[read..read + n];
      assert f[2..read] + buffer == f[2..read + n];
      OneMoreBlock(old(disk.files[org]), pos, f[2..read], buffer);
      disk.WriteAt(org, pos + read - 2, buffer);
      read := read + n;
    }
    assert f[2..read] == f[2..];
  }

  lemma TwoRuns(a: seq<Cell>, b: seq<Cell>)
    ensures Writes(a + b) == Writes(a) + Writes(b)
  {
  }

  lemma AbsentIsSkippedIf(fs: Files, org: string, node: Node)
    ensures node.name !in fs || org !in fs ==> NodeOps(fs, org, node) == [] && ExecNode(fs, org, node) == fs
  {
  }

  lemma LogJoined(log: seq<Op>, a: seq<Op>, b: seq<Op>, c: seq<Op>)
    ensures log + a + b + c == log + (a + b + c)
  {
  }

  /** The steps of a node one write after the other, and what they come to. */
  lemma AppendSteps(fs: Files, org: string, node: Node)
    requires node.name in fs && org in fs && StreamGood(node, fs[org])
    ensures var copied, header := Run(node.writePosition, Payload(fs[node.name])), Run(0, Le16(node.afterCount));
      && NodeOps(fs, org, node) == Writes(copied) + Writes(header) + [Op.Remove(node.name)]
      && ExecNode(fs, org, node) == fs[org := PutAll(PutAll(fs[org], copied), header)] - {node.name}
  {
    hide PutAll; hide Run; hide Writes; hide ExecNode; hide Payload;
    var copied, header := Run(node.writePosition, Payload(fs[node.name])), Run(0, Le16(node.afterCount));
    NodeEffect(fs, org, node);
    TwoRuns(copied, header);
    PutConcat(fs[org], copied, header);
  }

  lemma FailedSteps(fs: Files, org: string, node: Node)
    requires node.name in fs && org in fs && !StreamGood(node, fs[org])
    ensures NodeOps(fs, org, node) == [Op.Remove(node.name)] && ExecNode(fs, org, node) == fs - {node.name}
  {
    hide ExecNode;
    NodeEffect(fs, org, node);
  }

  /** `APPEND_PATCH_NODE::Append`. */
  method Append(disk: Disk, org: string, node: Node) returns (ok: bool)
    requires !SelfCopy(disk.files, org, node)
    modifies disk
    ensures ok == NodeOk(old(disk.files), org, node)
    ensures ok <==> node.name !in old(disk.files) || org in old(disk.files)
    ensures disk.files == ExecNode(old(disk.files), org, node)
    ensures disk.log == old(disk.log) + NodeOps(old(disk.files), org, node)
  {
    hide PutAll; hide Run; hide Writes; hide ExecNode; hide Payload; hide NodeOps; hide SelfCopy; hide Le16;
    ghost var fs := disk.files;
    AbsentIsSkippedIf(fs, org, node);
    if node.name !in disk.files {
      return true;
    }
    if org !in disk.files {
      return false;
    }
    if StreamGood(node, disk.files[org]) {
      AppendSteps(fs, org, node);
      PayloadIs(fs[node.name]);
      var header := Le16(node.afterCount);
      CopyPayload(disk, org, node.writePosition, disk.files[node.name]);
      disk.WriteAt(org, 0, header);
      LogJoined(old(disk.log), Writes(Run(node.writePosition, Payload(fs[node.name]))), Writes(Run(0, header)),
                [Op.Remove(node.name)]);
    } else {
      FailedSteps(fs, org, node);
    }
    disk.Remove(node.name);
    ok := true;
  }

  /** The loop of `ExecutePatch`. */
  method ExecuteNodes(disk: Disk, org: string, nodes: seq<Node>) returns (ok: bool)
    requires NoSelfCopy(disk.files, org, nodes)
    modifies disk
    ensures ok == ExecOk(old(disk.files), org, nodes)
    ensures disk.files == Exec(old(disk.files), org, nodes)
    ensures disk.log == old(disk.log) + PatchOps(old(disk.files), org, nodes)
  {
    hide NodeOps; hide ExecNode; hide PatchOps;
    ghost var fs := disk.files;
    for i := 0 to |nodes|
      invariant NoSelfCopy(disk.files, org, nodes[i..])
      invariant Exec(fs, org, nodes) == Exec(disk.files, org, nodes[i..])
      invariant ExecOk(fs, org, nodes) == ExecOk(disk.files, org, nodes[i..])
      invariant old(disk.log) + PatchOps(fs, org, nodes) == disk.log + PatchOps(disk.files, org, nodes[i..])
    {
      OpsOfFirst(disk.files, org, nodes[i..]);
      AbsentIsSkippedIf(disk.files, org, nodes[i]);
      assert nodes[i..][1..] == nodes[i + 1..];
      ok := Append(disk, org, nodes[i]);
      if !ok {
        return false;
      }
    }
    AbsentDoNothing(disk.files, org, []);
    assert nodes[|nodes|..] == [];
    ok := true;
  }

  /** A signed 32-bit value. */
  predicate InLong(x: int) {
    -0x8000_0000 <= x < 0x8000_0000
  }

  class AppendPatch {
    var orgFilename: string
    var orgFilesize: int
    var orgSpkSize: Word
    var finalFilesize: int
    var finalSpkSize: Word
    var nodes: seq<Node>

    constructor ()
      ensures orgFilename == "" && orgFilesize == 0 && orgSpkSize == 0
      ensures finalFilesize == 0 && finalSpkSize == 0 && nodes == []
    {
      orgFilename, orgFilesize, orgSpkSize := "", 0, 0;
      finalFilesize, finalSpkSize, nodes := 0, 0, [];
    }

    /** A chain made for another original file is broken by this. */
    method SetOriginalInfo(filename: string, size: int, count: Word)
      modifies `orgFilename, `orgFilesize, `orgSpkSize
      ensures orgFilename == filename && orgFilesize == size && orgSpkSize == count
      ensures old(Chained(orgFilesize, orgSpkSize, nodes)) ==>
        (Chained(orgFilesize, orgSpkSize, nodes) <==>
         nodes == [] || (size == old(orgFilesize) && count == old(orgSpkSize)))
    {
      if Chained(orgFilesize, orgSpkSize, nodes) {
        ChainFixesStart(orgFilesize, orgSpkSize, nodes, size, count);
      }
      orgFilename, orgFilesize, orgSpkSize := filename, size, count;
    }

    /** `CalculateFinalInfo` then accepts exactly the end of the chain. */
    method SetFinalInfo(size: int, count: Word)
      modifies `finalFilesize, `finalSpkSize
      ensures finalFilesize == size && finalSpkSize == count
      ensures Chained(orgFilesize, orgSpkSize, nodes) ==>
        (Calculate(orgFilesize, orgSpkSize, nodes, finalFilesize, finalSpkSize) <==>
         size == EndSize(orgFilesize, nodes) && count == EndCount(orgSpkSize, nodes))
    {
      if Chained(orgFilesize, orgSpkSize, nodes) {
        SumsAreEnds(orgFilesize, orgSpkSize, nodes);
      }
      finalFilesize, finalSpkSize := size, count;
    }

    /** The three-argument `AddAppendInfo`: a node behind the last one, which prolongs the chain. */
    method AddAppendInfo(name: string, size: int, count: Word)
      requires InLong(EndSize(orgFilesize, nodes) + size) && InLong(EndSize(orgFilesize, nodes) + size - 2)
      modifies `nodes
      ensures nodes == old(nodes) + [NextNode(EndSize(orgFilesize, old(nodes)), EndCount(orgSpkSize, old(nodes)),
                                              name, size, count)]
      ensures Chained(orgFilesize, orgSpkSize, old(nodes)) ==> Chained(orgFilesize, orgSpkSize, nodes)
      ensures var node, end := nodes[|nodes| - 1], EndSize(orgFilesize, old(nodes));
        && node.name == name && node.size == size && node.count == count
        && node.writePosition == end && node.afterSize == end + size - 2
        && node.afterCount == (EndCount(orgSpkSize, old(nodes)) + count) % 0x1_0000
    {
      var previousSize, previousCount := orgFilesize, orgSpkSize;
      if nodes != [] {
        previousSize, previousCount := nodes[|nodes| - 1].afterSize, nodes[|nodes| - 1].afterCount;
      }
      if Chained(orgFilesize, orgSpkSize, nodes) {
        AddKeepsChained(orgFilesize, orgSpkSize, nodes, name, size, count);
      }
      nodes := nodes + [Node(name, size, count, previousSize, previousSize + size - 2, ToWord(previousCount + count))];
    }

    /** The recorded sizes are those of the files, all files are there, and the nodes are a chain. */
    ghost predicate Sound(files: Files)
      reads this
    {
      && Present(files, orgFilename, nodes) && |files[orgFilename]| == orgFilesize >= 2
      && Chained(orgFilesize, orgSpkSize, nodes)
    }

    lemma SoundPatched(files: Files)
      ensures Sound(files) ==>
        && ExecOk(files, orgFilename, nodes) && orgFilename in Exec(files, orgFilename, nodes)
        && Exec(files, orgFilename, nodes)[orgFilename] == Patched(files, orgFilename, nodes)
    {
      if Sound(files) {
        PatchedFile(files, orgFilename, nodes, orgSpkSize);
      }
    }

    /** Runs the nodes in order until one fails. */
    method ExecutePatch(disk: Disk) returns (ok: bool)
      requires NoSelfCopy(disk.files, orgFilename, nodes)
      modifies disk
      ensures ok == ExecOk(old(disk.files), orgFilename, nodes)
      ensures disk.files == Exec(old(disk.files), orgFilename, nodes)
      ensures disk.log == old(disk.log) + PatchOps(old(disk.files), orgFilename, nodes)
      ensures Sound(old(disk.files)) ==>
        ok && orgFilename in disk.files && disk.files[orgFilename] == Patched(old(disk.files), orgFilename, nodes)
    {
      SoundPatched(disk.files);
      ok := ExecuteNodes(disk, orgFilename, nodes);
    }

    /** `garbage` is what the count holds when the file is too short to read it. */
    method CheckFinalInfo(disk: Disk, garbage: Word) returns (ok: bool)
      ensures ok == Check(disk.files, orgFilename, finalFilesize, finalSpkSize, garbage)
      ensures orgFilename !in disk.files ==> ok
      ensures orgFilename in disk.files && |disk.files[orgFilename]| >= 2 ==>
        var f := disk.files[orgFilename];
        var low: int, high: int := f[0], f[1];
        ok <==> low + 256 * high == finalSpkSize && |f| == finalFilesize
      ensures orgFilename in disk.files && |disk.files[orgFilename]| < 2 ==>
        (ok <==> garbage == finalSpkSize && finalFilesize == -1)
    {
      if orgFilename in disk.files {
        var f := disk.files[orgFilename];
        var spkSize := if |f| < 2 then garbage else FromLe16(f[..2]);
        if spkSize != finalSpkSize {
          return false;
        }
        var end := if |f| < 2 then -1 else |f|;
        if end != finalFilesize {
          return false;
        }
      }
      return true;
    }

    method CalculateFinalInfo() returns (ok: bool)
      requires forall k :: 0 <= k <= |nodes| ==> InLong(TotalSize(orgFilesize, nodes[..k]))
      requires forall k :: 0 <= k < |nodes| ==> InLong(nodes[k].size - 2)
      ensures ok == Calculate(orgFilesize, orgSpkSize, nodes, finalFilesize, finalSpkSize)
      ensures ok <==> finalFilesize == orgFilesize + SumOfSizes(nodes)
                      && finalSpkSize == (orgSpkSize + SumOfCounts(nodes)) % 0x1_0000
    {
      var totalSize, totalCount := orgFilesize, orgSpkSize;
      for i := 0 to |nodes|
        invariant totalSize == TotalSize(orgFilesize, nodes[..i])
        invariant totalCount == TotalCount(orgSpkSize, nodes[..i])
      {
        assert nodes[..i + 1][..i] == nodes[..i];
        totalSize := totalSize + (nodes[i].size - 2);
        totalCount := ToWord(totalCount + nodes[i].count);
      }
      assert nodes[..|nodes|] == nodes;
      TotalsAreSums(orgFilesize, orgSpkSize, nodes);
      ok := finalFilesize == totalSize && finalSpkSize == totalCount;
    }
  }
}
