/** Files as the source reads and writes them: `ofstream` and `ifstream`. */
module Streams {
  import opened Bytes

  /** An output file: `pos` is where the next bytes go. */
  class OutStream {
    var bytes: seq<Byte>
    var pos: nat

    constructor ()
      ensures bytes == [] && pos == 0
    {
      bytes, pos := [], 0;
    }

    method Write(b: seq<Byte>)
      requires pos <= |bytes|
      modifies this
      ensures bytes == old(bytes[..pos]) + b + old(if pos + |b| < |bytes| then bytes[pos + |b|..] else [])
      ensures pos == old(pos) + |b| <= |bytes|
      ensures old(pos == |bytes|) ==> bytes == old(bytes) + b && pos == |bytes|
    {
      bytes := bytes[..pos] + b + if pos + |b| < |bytes| then bytes[pos + |b|..] else [];
      pos := pos + |b|;
    }

    method SeekP(p: nat)
      requires p <= |bytes|
      modifies `pos
      ensures pos == p
    {
      pos := p;
    }
  }

  /**
    An input file. The source never asks whether a read succeeded: what the file is too short for keeps
    the value it had in memory. `memory` collects those values, so that the reads are those of a file
    that goes on with them.
   */
  class InStream {
    const bytes: seq<Byte>
    var pos: nat
    ghost var memory: seq<Byte>

    ghost predicate Valid()
      reads this
    {
      pos <= |bytes| && (memory == [] || pos == |bytes|)
    }

    /** The file as it appears to the reader. */
    ghost function Content(): seq<Byte>
      reads this
    {
      bytes + memory
    }

    ghost function Pos(): nat
      reads this
    {
      pos + |memory|
    }

    constructor (bytes: seq<Byte>)
      ensures Valid() && this.bytes == bytes && Content() == bytes && Pos() == 0 && memory == []
    {
      this.bytes, pos, memory := bytes, 0, [];
    }

    /** `read` into memory that holds `was`. */
    method Read(was: seq<Byte>) returns (b: seq<Byte>)
      requires Valid()
      modifies this
      ensures Valid() && old(Content()) <= Content() && |b| == |was|
      ensures Pos() == old(Pos()) + |was| <= |Content()| && b == Content()[old(Pos())..Pos()]
      ensures old(memory) == [] && old(pos) + |was| <= |bytes| ==> memory == []
      ensures forall i :: 0 <= i < |was| && old(Pos()) + i >= |bytes| ==> b[i] == was[i]
    {
      var n := if |was| < |bytes| - pos then |was| else |bytes| - pos;
      b := bytes[pos..pos + n] + was[n..];
      ghost var p := Pos();
      ghost var content := Content();
      pos, memory := pos + n, memory + was[n..];
      assert Content() == content + was[n..];
      if n == |was| {
        assert Content() == content;
      }
    }
  }
}
