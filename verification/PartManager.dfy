/** `CPartManager`: the fields and the methods that update them in place. */
module PartManagers {
  import opened Recency
  import opened PartCache

  // ---------------------------------------------------------------- the list and its iterators

  /** A node of `m_listLRU`: nodes are told apart by the order of their allocation. */
  datatype Node = Node(id: nat, slot: nat)
  datatype NodeIter = End | At(id: nat)

  function Slots(nodes: seq<Node>): (q: seq<nat>)
    ensures |q| == |nodes|
  {
    seq(|nodes|, k requires 0 <= k < |nodes| => nodes[k].slot)
  }

  /** `list::erase` of the node that an iterator points at. */
  function Erase(nodes: seq<Node>, id: nat): seq<Node>
    requires exists k :: 0 <= k < |nodes| && nodes[k].id == id
  {
    if nodes[0].id == id then nodes[1..] else [nodes[0]] + Erase(nodes[1..], id)
  }

  ghost predicate DistinctIds(nodes: seq<Node>) {
    forall k, l :: 0 <= k < l < |nodes| ==> nodes[k].id != nodes[l].id
  }

  /** Each slot's saved iterator points at the node of that slot, or at the end if it has none. */
  ghost predicate Linked(nodes: seq<Node>, iters: seq<NodeIter>, next: nat) {
    && DistinctIds(nodes)
    && (forall k :: 0 <= k < |nodes| ==>
          nodes[k].slot < |iters| && iters[nodes[k].slot] == At(nodes[k].id) && nodes[k].id < next)
    && forall s {:trigger Placed(nodes, iters, s)} :: 0 <= s < |iters| ==> Placed(nodes, iters, s)
  }

  ghost predicate Placed(nodes: seq<Node>, iters: seq<NodeIter>, s: nat)
    requires s < |iters|
  {
    iters[s].At? ==> exists k :: 0 <= k < |nodes| && nodes[k] == Node(iters[s].id, s)
  }

  lemma {:induction false} EraseAt(nodes: seq<Node>, k: nat)
    requires DistinctIds(nodes) && k < |nodes|
    ensures Erase(nodes, nodes[k].id) == nodes[..k] + nodes[k + 1..]
  {
    if k > 0 {
      assert nodes[1..][k - 1] == nodes[k];
      EraseAt(nodes[1..], k - 1);
    }
  }

  lemma {:induction false} LinkedDistinct(nodes: seq<Node>, iters: seq<NodeIter>, next: nat)
    requires Linked(nodes, iters, next)
    ensures Distinct(Slots(nodes))
  {
  }

  lemma {:induction false} RemoveLinked(nodes: seq<Node>, iters: seq<NodeIter>, next: nat, k: nat)
    requires Linked(nodes, iters, next) && k < |nodes|
    ensures Linked(nodes[..k] + nodes[k + 1..], iters[nodes[k].slot := End], next)
  {
    var rest, iters' := nodes[..k] + nodes[k + 1..], iters[nodes[k].slot := End];
    forall s | 0 <= s < |iters'| && iters'[s].At? ensures Placed(rest, iters', s) {
      assert Placed(nodes, iters, s);
      var l :| 0 <= l < |nodes| && nodes[l] == Node(iters[s].id, s);
      assert rest[if l < k then l else l - 1] == nodes[l];
    }
  }

  lemma {:induction false} NodeOf(nodes: seq<Node>, iters: seq<NodeIter>, next: nat, s: nat) returns (k: nat)
    requires Linked(nodes, iters, next) && s < |iters| && iters[s].At?
    ensures k < |nodes| && nodes[k] == Node(iters[s].id, s)
    ensures Erase(nodes, iters[s].id) == nodes[..k] + nodes[k + 1..]
  {
    assert Placed(nodes, iters, s);
    k :| 0 <= k < |nodes| && nodes[k] == Node(iters[s].id, s);
    EraseAt(nodes, k);
  }

  lemma {:induction false} EraseLinked(nodes: seq<Node>, iters: seq<NodeIter>, next: nat, s: nat)
    requires Linked(nodes, iters, next) && s < |iters| && iters[s].At?
    ensures exists k :: 0 <= k < |nodes| && nodes[k].id == iters[s].id
    ensures Linked(Erase(nodes, iters[s].id), iters[s := End], next)
    ensures Slots(Erase(nodes, iters[s].id)) == Without(Slots(nodes), s)
  {
    hide Linked; hide Erase;
    var k := NodeOf(nodes, iters, next, s);
    RemoveLinked(nodes, iters, next, k);
    LinkedDistinct(nodes, iters, next);
    WithoutAt(Slots(nodes), k);
    SlotsDropped(nodes, k);
    hide Without; hide Slots; hide Distinct;
  }

  lemma SlotsDropped(nodes: seq<Node>, k: nat)
    requires k < |nodes|
    ensures Slots(nodes[..k] + nodes[k + 1..]) == Dropped(Slots(nodes), k)
    ensures Slots(nodes)[k] == nodes[k].slot
  {
  }

  lemma {:induction false} PushLinked(nodes: seq<Node>, iters: seq<NodeIter>, next: nat, s: nat)
    requires Linked(nodes, iters, next) && s < |iters| && iters[s].End?
    ensures Linked([Node(next, s)] + nodes, iters[s := At(next)], next + 1)
    ensures s !in Slots(nodes)
    ensures Slots([Node(next, s)] + nodes) == [s] + Slots(nodes)
  {
    var nodes', iters' := [Node(next, s)] + nodes, iters[s := At(next)];
    forall s' | 0 <= s' < |iters'| && iters'[s'].At? ensures Placed(nodes', iters', s') {
      if s' == s {
        assert nodes'[0] == Node(next, s);
      } else {
        assert Placed(nodes, iters, s');
        var l :| 0 <= l < |nodes| && nodes[l] == Node(iters[s'].id, s');
        assert nodes'[l + 1] == nodes[l];
      }
    }
  }

  lemma {:induction false} NotListed(nodes: seq<Node>, iters: seq<NodeIter>, next: nat, s: nat)
    requires Linked(nodes, iters, next) && s < |iters| && iters[s].End?
    ensures s !in Slots(nodes)
  {
  }

  // ---------------------------------------------------------------- the class

  /** `new T[n]` and the loop that sets each cell. */
  method NewTable<T(0)>(n: nat, value: T) returns (a: array<T>)
    ensures fresh(a) && a[..] == seq(n, _ => value)
  {
    a := new T[n];
    for i := 0 to n
      invariant forall j :: 0 <= j < i ==> a[j] == value
    {
      a[i] := value;
    }
  }

  class PartManager<D(0)> {
    const nullData: D
    var partIndex: array<nat>
    var used: nat
    var data: array<D>
    var parentIndex: array<nat>
    var lastTime: array<nat>
    var nodes: seq<Node>
    var nextNode: nat
    var partIterator: array<NodeIter>
    var counter: nat

    ghost function Repr(): set<object>
      reads this
    {
      {this, partIndex, data, parentIndex, lastTime, partIterator}
    }

    ghost predicate Separate()
      reads this
    {
      && partIndex != parentIndex && partIndex != lastTime && parentIndex != lastTime
      && data as object != partIndex && data as object != parentIndex && data as object != lastTime
      && data as object != partIterator && partIterator as object != partIndex
      && partIterator as object != parentIndex && partIterator as object != lastTime
    }

    function Snapshot(): Parts<D>
      reads Repr()
    {
      Parts(partIndex[..], parentIndex[..], data[..], lastTime[..], Slots(nodes), used, counter)
    }

    ghost predicate Linkage()
      reads Repr()
    {
      && Separate()
      && partIterator.Length == parentIndex.Length
      && Linked(nodes, partIterator[..], nextNode)
    }

    ghost predicate Valid()
      reads Repr()
    {
      Linkage() && Inv(Snapshot())
    }

    /** The C++ constructor leaves all tables null, here empty. */
    constructor (nullData: D)
      ensures Valid() && fresh(this) && Snapshot() == Fresh(0, 0, nullData)
      ensures this.nullData == nullData
    {
      this.nullData := nullData;
      partIndex, data, parentIndex := new nat[0], new D[0], new nat[0];
      lastTime, partIterator := new nat[0], new NodeIter[0];
      used, nodes, nextNode, counter := 0, [], 0, 0;
    }

    method AllocateTables(maxIndex: nat, n: nat)
      modifies this
      ensures Separate() && fresh(partIndex) && fresh(data) && fresh(parentIndex)
      ensures fresh(lastTime) && fresh(partIterator)
      ensures partIndex[..] == seq(maxIndex, _ => NONE) && data[..] == seq(n, _ => nullData)
      ensures parentIndex[..] == seq(n, _ => NONE) && lastTime[..] == seq(n, _ => 0)
      ensures partIterator[..] == seq(n, _ => End)
    {
      partIndex := NewTable(maxIndex, NONE);
      data := NewTable(n, nullData);
      parentIndex := NewTable(n, NONE);
      lastTime := NewTable(n, 0);
      partIterator := NewTable(n, End);
    }

    /** `Init`: the tables are allocated anew, so nothing held before is reachable. */
    method Init(maxIndex: nat, maxPart: nat)
      requires maxIndex <= NONE && maxPart <= NONE
      modifies this
      ensures Valid() && Snapshot() == Fresh(maxIndex, maxPart, nullData)
      ensures fresh(partIndex) && fresh(data) && fresh(parentIndex) && fresh(lastTime) && fresh(partIterator)
    {
      FreshInv(maxIndex, maxPart, nullData);
      AllocateTables(maxIndex, if maxPart > maxIndex then maxIndex else maxPart);
      used, nodes, counter := 0, [], 0;
      assert Slots(nodes) == [];
      assert Snapshot() == Fresh(maxIndex, maxPart, nullData);
    }

    method IsDataNull(index: nat) returns (b: bool)
      requires Valid() && index < partIndex.Length
      ensures b <==> !Snapshot().Resident(index)
    {
      b := partIndex[index] == NONE;
    }

    /** The slot to use next: a free one, or else the back of the list. */
    method GetLRU() returns (s: nat)
      requires Valid() && parentIndex.Length > 0
      ensures s == GetLru(Snapshot())
    {
      if used < parentIndex.Length {
        return used;
      }
      s := nodes[|nodes| - 1].slot;
    }

    /** The node of slot `s` is unlinked, if it has one, and linked again at the front. */
    method MoveToFront(s: nat)
      requires s < partIterator.Length && Linkage()
      modifies `nodes, `nextNode, partIterator
      ensures Linkage()
      ensures Slots(nodes) == Promote(old(Slots(nodes)), s)
    {
      if partIterator[s] != End {
        EraseLinked(nodes, partIterator[..], nextNode, s);
        nodes := Erase(nodes, partIterator[s].id);
      } else {
        NotListed(nodes, partIterator[..], nextNode, s);
        assert partIterator[..][s := End] == partIterator[..];
      }
      ghost var iters := partIterator[..][s := End];
      PushLinked(nodes, iters, nextNode, s);
      nodes := [Node(nextNode, s)] + nodes;
      partIterator[s] := At(nextNode);
      assert partIterator[..] == iters[s := At(nextNode)];
      nextNode := nextNode + 1;
    }

    /** The index that had slot `s`, if any, loses it. */
    method Unmap(s: nat, oldData: D) returns (oldIndex: nat, evicted: D)
      requires Separate() && s < parentIndex.Length == data.Length
      requires parentIndex[s] != NONE ==> parentIndex[s] < partIndex.Length
      modifies partIndex, parentIndex
      ensures oldIndex == old(parentIndex[s])
      ensures evicted == if oldIndex != NONE then data[s] else oldData
      ensures partIndex[..] == if oldIndex != NONE then old(partIndex[..])[oldIndex := NONE] else old(partIndex[..])
      ensures parentIndex[..] == old(parentIndex[..])[s := NONE]
    {
      oldIndex, evicted := parentIndex[s], oldData;
      if oldIndex != NONE {
        partIndex[oldIndex] := NONE;
        parentIndex[s] := NONE;
        evicted := data[s];
      }
    }

    /** Slot `s` becomes that of `index`, and is stamped. */
    method Store(s: nat, index: nat, d: D)
      requires Separate() && s < parentIndex.Length == data.Length == lastTime.Length
      requires index < partIndex.Length
      modifies partIndex, parentIndex, data, lastTime, `counter
      ensures partIndex[..] == old(partIndex[..])[index := s]
      ensures parentIndex[..] == old(parentIndex[..])[s := index]
      ensures data[..] == old(data[..])[s := d]
      ensures lastTime[..] == old(lastTime[..])[s := old(counter)] && counter == Tick(old(counter))
    {
      partIndex[index] := s;
      parentIndex[s] := index;
      data[s] := d;
      lastTime[s] := counter;
      counter := Tick(counter);
    }

    method SetTables(s: nat, index: nat, d: D, oldData: D) returns (oldIndex: nat, evicted: D)
      requires Linkage() && s < parentIndex.Length == data.Length == lastTime.Length && index < partIndex.Length
      requires parentIndex[s] != NONE ==> parentIndex[s] < partIndex.Length
      modifies Repr()
      ensures Linkage() && Repr() == old(Repr()) && partIndex == old(partIndex) && parentIndex == old(parentIndex)
      ensures oldIndex == old(parentIndex[s])
      ensures evicted == if oldIndex != NONE then old(data[s]) else oldData
      ensures partIndex[..] == (if oldIndex != NONE then old(partIndex[..])[oldIndex := NONE]
                                else old(partIndex[..]))[index := s]
      ensures parentIndex[..] == old(parentIndex[..])[s := index]
      ensures data[..] == old(data[..])[s := d]
      ensures lastTime[..] == old(lastTime[..])[s := old(counter)] && counter == Tick(old(counter))
      ensures Slots(nodes) == Promote(old(Slots(nodes)), s)
      ensures used == if old(used) < parentIndex.Length then old(used) + 1 else old(used)
    {
      oldIndex, evicted := Unmap(s, oldData);
      Store(s, index, d);
      MoveToFront(s);
      if used < parentIndex.Length {
        used := used + 1;
      }
    }

    /** The three-argument `SetData`; `oldData` keeps its value unless something was evicted. */
    method SetData(index: nat, d: D, oldData: D) returns (oldIndex: nat, evicted: D)
      requires Valid() && index < partIndex.Length && parentIndex.Length > 0
      modifies Repr()
      ensures Valid() && Repr() == old(Repr()) && partIndex == old(partIndex) && parentIndex == old(parentIndex)
      ensures Snapshot() == Set(old(Snapshot()), index, d)
      ensures oldIndex == Evicted(old(Snapshot()))
      ensures evicted == if oldIndex != NONE then old(Snapshot()).data[GetLru(old(Snapshot()))] else oldData
    {
      SetInv(Snapshot(), index, d);
      var s := GetLRU();
      oldIndex, evicted := SetTables(s, index, d, oldData);
    }

    /** Slot `s` is stamped and its node moved to the front; then the counter is looked at. */
    method UseSlot(s: nat)
      requires Linkage() && s < lastTime.Length == partIterator.Length
      modifies `counter, `nodes, `nextNode, partIterator, lastTime
      ensures Linkage()
      ensures Snapshot() == Renormalised(Touch(old(Snapshot()), s))
    {
      ghost var c := Snapshot();
      lastTime[s] := counter;
      counter := Tick(counter);
      MoveToFront(s);
      assert Snapshot() == Touch(c, s);
      if counter == COUNTER_LIMIT {
        Renormalise();
      }
    }

    /** `GetData`: a resident index is stamped and moved to the front. */
    method GetData(index: nat, into: D) returns (found: bool, d: D)
      requires Valid() && index < partIndex.Length
      modifies `counter, `nodes, `nextNode, partIterator, lastTime
      ensures Valid()
      ensures Snapshot() == Get(old(Snapshot()), index)
      ensures found <==> old(Snapshot()).Resident(index)
      ensures d == if found then data[partIndex[index]] else into
    {
      GetInv(Snapshot(), index);
      var s := partIndex[index];
      if s == NONE {
        return false, into;
      }
      UseSlot(s);
      return true, data[s];
    }

    /** The loops that follow when the counter has reached its limit. */
    method Renormalise()
      requires lastTime.Length > 0 && Separate()
      modifies `counter, lastTime
      ensures lastTime[..] == Lowered(old(lastTime[..]))
      ensures counter == lastTime[FirstGreatest(old(lastTime[..]), lastTime.Length)]
    {
      var least, greatest := Extremes();
      LowerBy(least);
      counter := lastTime[greatest];
    }

    method Extremes() returns (least: nat, greatest: nat)
      requires lastTime.Length > 0
      ensures least == FirstLeast(lastTime[..], lastTime.Length)
      ensures greatest == FirstGreatest(lastTime[..], lastTime.Length)
    {
      ghost var t := lastTime[..];
      least, greatest := 0, 0;
      assert FirstLeast(t, 1) == FirstGreatest(t, 1) == 0;
      hide FirstLeast; hide FirstGreatest;
      for i := 1 to lastTime.Length
        invariant least == FirstLeast(t, i) && greatest == FirstGreatest(t, i)
      {
        ExtremesStep(t, i);
        if lastTime[i] < lastTime[least] {
          least := i;
        }
        if lastTime[i] > lastTime[greatest] {
          greatest := i;
        }
      }
    }

    method LowerBy(least: nat)
      requires lastTime.Length > 0 && least == FirstLeast(lastTime[..], lastTime.Length)
      modifies lastTime
      ensures lastTime[..] == Lowered(old(lastTime[..]))
    {
      ghost var t := lastTime[..];
      for i := 0 to lastTime.Length
        invariant forall j :: 0 <= j < i ==> lastTime[j] == if j <= least then t[j] - t[least] else t[j]
        invariant forall j :: i <= j < lastTime.Length ==> lastTime[j] == t[j]
      {
        assert t[least] <= t[i];
        lastTime[i] := lastTime[i] - lastTime[least];
      }
    }
  }
}
