/** What a patch whose recorded sizes are right comes to. */
module PatchResult {
  import opened Bytes
  import opened PatchFiles

  // ---------------------------------------------------------------- the chain of nodes

  ghost function EndSize(size: int, nodes: seq<Node>): int {
    if nodes == [] then size else nodes[|nodes| - 1].afterSize
  }

  ghost function EndCount(count: Word, nodes: seq<Node>): Word {
    if nodes == [] then count else nodes[|nodes| - 1].afterCount
  }

  /** `AddAppendInfo`: each node starts where the one before it ends. */
  function NextNode(size: int, count: Word, name: string, appendSize: int, appendCount: Word): Node {
    Node(name, appendSize, appendCount, size, size + appendSize - 2, ToWord(count + appendCount))
  }

  ghost predicate Chained(size: int, count: Word, nodes: seq<Node>)
    decreases |nodes|
  {
    nodes != [] ==>
      && nodes[0] == NextNode(size, count, nodes[0].name, nodes[0].size, nodes[0].count)
      && Chained(nodes[0].afterSize, nodes[0].afterCount, nodes[1..])
  }

  /** A node that `AddAppendInfo` puts behind a chain prolongs it. */
  lemma {:induction false} AddKeepsChained(size: int, count: Word, nodes: seq<Node>, name: string, appendSize: int,
        appendCount: Word)
    requires Chained(size, count, nodes)
    ensures Chained(size, count,
                    nodes + [NextNode(EndSize(size, nodes), EndCount(count, nodes), name, appendSize, appendCount)])
    decreases |nodes|
  {
    var n := NextNode(EndSize(size, nodes), EndCount(count, nodes), name, appendSize, appendCount);
    if nodes == [] {
      assert (nodes + [n])[1..] == [];
    } else {
      AddKeepsChained(nodes[0].afterSize, nodes[0].afterCount, nodes[1..], name, appendSize, appendCount);
      assert (nodes + [n])[1..] == nodes[1..] + [n];
    }
  }

  /** A chain fits one start only: other sizes of the original file break it unless it is empty. */
  lemma ChainFixesStart(size: int, count: Word, nodes: seq<Node>, size': int, count': Word)
    requires Chained(size, count, nodes)
    ensures Chained(size', count', nodes) <==> nodes == [] || (size' == size && count' == count)
  {
    if nodes != [] && Chained(size', count', nodes) {
      assert ToWord(count + nodes[0].count) == ToWord(count' + nodes[0].count);
    }
  }

  lemma {:induction false} PrefixChained(size: int, count: Word, nodes: seq<Node>, k: nat)
    requires Chained(size, count, nodes) && k <= |nodes|
    ensures Chained(size, count, nodes[..k])
    ensures k < |nodes| ==> nodes[k].writePosition == EndSize(size, nodes[..k])
    decreases |nodes|
  {
    if k > 0 {
      PrefixChained(nodes[0].afterSize, nodes[0].afterCount, nodes[1..], k - 1);
      assert nodes[..k][1..] == nodes[1..][..k - 1];
    }
  }

  // ---------------------------------------------------------------- sums

  function TotalSize(size: int, nodes: seq<Node>): int {
    if nodes == [] then size else TotalSize(size, nodes[..|nodes| - 1]) + (nodes[|nodes| - 1].size - 2)
  }

  function TotalCount(count: Word, nodes: seq<Node>): Word {
    if nodes == [] then count else ToWord(TotalCount(count, nodes[..|nodes| - 1]) + nodes[|nodes| - 1].count)
  }

  lemma {:induction false} TotalsAreSums(size: int, count: Word, nodes: seq<Node>)
    ensures TotalSize(size, nodes) == size + SumOfSizes(nodes)
    ensures TotalCount(count, nodes) == (count + SumOfCounts(nodes)) % 0x1_0000
  {
    if nodes != [] {
      TotalsAreSums(size, count, nodes[..|nodes| - 1]);
    }
  }

  /** The sums of `CalculateFinalInfo` are the after-values of the last node. */
  lemma {:induction false} SumsAreEnds(size: int, count: Word, nodes: seq<Node>)
    requires Chained(size, count, nodes)
    ensures TotalSize(size, nodes) == EndSize(size, nodes) && TotalCount(count, nodes) == EndCount(count, nodes)
    decreases |nodes|
  {
    if nodes != [] {
      var n := |nodes| - 1;
      PrefixChained(size, count, nodes, n);
      SumsAreEnds(size, count, nodes[..n]);
      LastOfChain(size, count, nodes);
    }
  }

  lemma {:induction false} LastOfChain(size: int, count: Word, nodes: seq<Node>)
    requires Chained(size, count, nodes) && nodes != []
    ensures var n := |nodes| - 1;
      nodes[n] == NextNode(EndSize(size, nodes[..n]), EndCount(count, nodes[..n]),
                           nodes[n].name, nodes[n].size, nodes[n].count)
    decreases |nodes|
  {
    var n := |nodes| - 1;
    if n > 0 {
      LastOfChain(nodes[0].afterSize, nodes[0].afterCount, nodes[1..]);
      assert nodes[1..][..n - 1] == nodes[..n][1..];
    }
  }

  function SumOfSizes(nodes: seq<Node>): int {
    if nodes == [] then 0 else SumOfSizes(nodes[..|nodes| - 1]) + nodes[|nodes| - 1].size - 2
  }

  function SumOfCounts(nodes: seq<Node>): int {
    if nodes == [] then 0 else SumOfCounts(nodes[..|nodes| - 1]) + nodes[|nodes| - 1].count
  }

  /** A chain ends with the original size and count and all that is appended; counts are 16 bits. */
  lemma EndIsSum(size: int, count: Word, nodes: seq<Node>)
    requires Chained(size, count, nodes)
    ensures EndSize(size, nodes) == size + SumOfSizes(nodes)
    ensures EndCount(count, nodes) == (count + SumOfCounts(nodes)) % 0x1_0000
  {
    SumsAreEnds(size, count, nodes);
    TotalsAreSums(size, count, nodes);
  }

  // ---------------------------------------------------------------- the result

  /** All append files are there, under different names, with the sizes recorded. */
  ghost predicate Present(fs: Files, org: string, nodes: seq<Node>) {
    && org in fs && PatchFiles.Separate(org, nodes)
    && (forall k :: 0 <= k < |nodes| ==>
          nodes[k].name in fs && |fs[nodes[k].name]| == nodes[k].size && nodes[k].size >= 2)
    && forall k, l :: 0 <= k < l < |nodes| ==> nodes[k].name != nodes[l].name
  }

  /** All but the first two bytes of each append file, in order. */
  ghost function Joined(fs: Files, nodes: seq<Node>): seq<Byte> {
    if nodes == [] then []
    else (if nodes[0].name in fs && |fs[nodes[0].name]| >= 2 then fs[nodes[0].name][2..] else [])
         + Joined(fs, nodes[1..])
  }

  /** The last after-count, little-endian, then the original without its count, then what is appended. */
  ghost function Patched(fs: Files, org: string, nodes: seq<Node>): seq<Byte>
    requires org in fs && |fs[org]| >= 2
  {
    if nodes == [] then fs[org]
    else
      var count := nodes[|nodes| - 1].afterCount;
      [count % 256, count / 256] + fs[org][2..] + Joined(fs, nodes)
  }

  lemma {:induction false} RunAppends(f: seq<Byte>, p: seq<Byte>)
    ensures PutAll(f, Run(|f|, p)) == f + p
  {
    if p == [] {
      assert f + p == f;
    } else {
      var init := p[..|p| - 1];
      RunAppends(f, init);
      assert Run(|f|, p)[..|p| - 1] == Run(|f|, init);
      assert f + init + [p[|p| - 1]] == f + p;
    }
  }

  lemma HeaderOverwrites(f: seq<Byte>, w: Word)
    requires |f| >= 2
    ensures PutAll(f, Run(0, Le16(w))) == Le16(w) + f[2..]
  {
    var cells := Run(0, Le16(w));
    assert cells == [Cell(0, Le16(w)[0]), Cell(1, Le16(w)[1])];
    assert cells[..1] == [cells[0]] && cells[..1][..0] == [];
    assert PutAll(f, cells[..1]) == f[0 := Le16(w)[0]];
  }

  /** A node whose write position is the end of the file appends its payload and sets the count. */
  lemma NodeAppends(fs: Files, org: string, node: Node)
    requires org in fs && node.name in fs && node.name != org
    requires |fs[org]| >= 2 && node.writePosition == |fs[org]|
    ensures ExecNode(fs, org, node)
         == fs[org := Le16(node.afterCount) + fs[org][2..] + Payload(fs[node.name])] - {node.name}
  {
    var f, p := fs[org], Payload(fs[node.name]);
    NodeEffect(fs, org, node);
    PutConcat(f, Run(|f|, p), Run(0, Le16(node.afterCount)));
    RunAppends(f, p);
    HeaderOverwrites(f + p, node.afterCount);
    assert (f + p)[2..] == f[2..] + p;
    assert Le16(node.afterCount) + (f[2..] + p) == Le16(node.afterCount) + f[2..] + p;
  }

  lemma {:induction false} JoinedSame(fs: Files, fs': Files, nodes: seq<Node>)
    requires forall k :: 0 <= k < |nodes| ==>
      nodes[k].name in fs && nodes[k].name in fs' && fs[nodes[k].name] == fs'[nodes[k].name]
    ensures Joined(fs, nodes) == Joined(fs', nodes)
    decreases |nodes|
  {
    if nodes != [] {
      JoinedSame(fs, fs', nodes[1..]);
    }
  }

  /** Patch result: the final count, then what the original had, then what each file appends. */
  lemma {:induction false} PatchedFile(fs: Files, org: string, nodes: seq<Node>, count: Word)
    requires Present(fs, org, nodes) && |fs[org]| >= 2
    requires Chained(|fs[org]|, count, nodes)
    ensures ExecOk(fs, org, nodes) && org in Exec(fs, org, nodes)
    ensures Exec(fs, org, nodes)[org] == Patched(fs, org, nodes)
    ensures |Patched(fs, org, nodes)| == EndSize(|fs[org]|, nodes)
    decreases |nodes|
  {
    if nodes != [] {
      var n, rest := nodes[0], nodes[1..];
      var next := ExecNode(fs, org, n);
      NodeAppends(fs, org, n);
      PatchedRest(fs, org, nodes);
      PatchedFile(next, org, rest, n.afterCount);
    }
  }

  lemma PresentRest(fs: Files, org: string, nodes: seq<Node>, next: Files, f: seq<Byte>)
    requires Present(fs, org, nodes) && nodes != []
    requires next == fs[org := f] - {nodes[0].name}
    ensures Present(next, org, nodes[1..]) && Joined(next, nodes[1..]) == Joined(fs, nodes[1..])
  {
    JoinedSame(fs, next, nodes[1..]);
  }

  lemma PatchedCons(fs: Files, next: Files, org: string, nodes: seq<Node>)
    requires org in fs && |fs[org]| >= 2 && nodes != [] && nodes[0].name in fs && org in next
    requires next[org] == Le16(nodes[0].afterCount) + fs[org][2..] + Payload(fs[nodes[0].name])
    requires Joined(next, nodes[1..]) == Joined(fs, nodes[1..])
    ensures Patched(next, org, nodes[1..]) == Patched(fs, org, nodes)
  {
    var p, rest := Payload(fs[nodes[0].name]), nodes[1..];
    assert Joined(fs, nodes) == p + Joined(fs, rest);
    assert next[org][2..] == fs[org][2..] + p;
    if rest == [] {
      assert p + [] == p;
    } else {
      assert rest[|rest| - 1] == nodes[|nodes| - 1];
      var c := Le16(nodes[|nodes| - 1].afterCount);
      assert c + (fs[org][2..] + p) + Joined(fs, rest) == c + fs[org][2..] + (p + Joined(fs, rest));
    }
  }

  /** After the first node the rest of the chain finds what it needs. */
  lemma PatchedRest(fs: Files, org: string, nodes: seq<Node>)
    requires Present(fs, org, nodes) && |fs[org]| >= 2 && nodes != []
    requires nodes[0].writePosition == |fs[org]| && nodes[0].afterSize == |fs[org]| + nodes[0].size - 2
    ensures var next := ExecNode(fs, org, nodes[0]);
      && Present(next, org, nodes[1..]) && |next[org]| == nodes[0].afterSize >= 2
      && Patched(next, org, nodes[1..]) == Patched(fs, org, nodes)
  {
    hide Joined; hide Patched; hide ExecNode;
    var next := ExecNode(fs, org, nodes[0]);
    NodeAppends(fs, org, nodes[0]);
    PresentRest(fs, org, nodes, next, next[org]);
    PatchedCons(fs, next, org, nodes);
  }

  /** Each node is executed when the file ends just where it is to be written. */
  lemma WritesAtTheEnd(fs: Files, org: string, nodes: seq<Node>, count: Word, k: nat)
    requires Present(fs, org, nodes) && |fs[org]| >= 2
    requires Chained(|fs[org]|, count, nodes) && k < |nodes|
    ensures org in Exec(fs, org, nodes[..k]) && |Exec(fs, org, nodes[..k])[org]| == nodes[k].writePosition
  {
    PrefixChained(|fs[org]|, count, nodes, k);
    PatchedFile(fs, org, nodes[..k], count);
  }

  // ---------------------------------------------------------------- the two checks

  /** `CheckFinalInfo`; `garbage` is what an unread count holds. A failed stream has no position. */
  function Check(fs: Files, org: string, finalSize: int, finalCount: Word, garbage: Word): bool {
    if org !in fs then true
    else if |fs[org]| < 2 then garbage == finalCount && finalSize == -1
    else FromLe16(fs[org][..2]) == finalCount && |fs[org]| == finalSize
  }

  /** `CalculateFinalInfo`. */
  function Calculate(size: int, count: Word, nodes: seq<Node>, finalSize: int, finalCount: Word): bool {
    finalSize == TotalSize(size, nodes) && finalCount == TotalCount(count, nodes)
  }

  /**
    When the recorded sizes are right, the patched file passes the check of the final info exactly
    if that info is the after-values of the last node, and so does the calculation.
   */
  lemma ChecksAgree(fs: Files, org: string, nodes: seq<Node>, count: Word, finalSize: int, finalCount: Word,
        garbage: Word)
    requires Present(fs, org, nodes) && |fs[org]| >= 2 && FromLe16(fs[org][..2]) == count
    requires Chained(|fs[org]|, count, nodes)
    ensures var right := finalSize == EndSize(|fs[org]|, nodes) && finalCount == EndCount(count, nodes);
      && Check(Exec(fs, org, nodes), org, finalSize, finalCount, garbage) == right
      && Calculate(|fs[org]|, count, nodes, finalSize, finalCount) == right
  {
    PatchedFile(fs, org, nodes, count);
    SumsAreEnds(|fs[org]|, count, nodes);
    if nodes != [] {
      var w := nodes[|nodes| - 1].afterCount;
      assert Patched(fs, org, nodes)[..2] == Le16(w);
      LeRoundTrip(w, 0);
    }
  }
}
