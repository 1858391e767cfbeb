/**
  Runs of a part cache whose user asks for an index with `GetData` when it is resident and
  stores it with `SetData` when it is not and can be made, as `CShadowPartManager` does.
 */
module PartRuns {
  import opened Recency
  import opened PartCache
  import opened Lists
  import opened Lru

  /** `ok`: the texture could be made, had it to be. */
  datatype Access<D> = Access(index: nat, ok: bool, d: D)

  ghost function MapSlots(q: seq<nat>, parent: seq<nat>): (r: seq<nat>)
    requires forall a :: 0 <= a < |q| ==> q[a] < |parent|
    ensures |r| == |q|
  {
    seq(|q|, a requires 0 <= a < |q| => parent[q[a]])
  }

  /** The indices whose data the cache holds, in the order of the list. */
  ghost function Held<D>(c: Parts<D>): seq<nat>
    requires Inv(c)
  {
    MapSlots(c.lru, c.parentIndex)
  }

  /** Without orphans the held indices are the resident ones, each once. */
  lemma HeldAreResident<D>(c: Parts<D>)
    requires Inv(c) && Exact(c)
    ensures Distinct(Held(c))
    ensures forall i: nat :: i in Held(c) <==> c.Resident(i)
  {
    forall i: nat ensures i in Held(c) <==> c.Resident(i) {
      if c.Resident(i) {
        assert c.partIndex[i] in c.lru;
        assert Held(c)[IndexOf(c.lru, c.partIndex[i])] == i;
      }
    }
  }

  lemma MapDropped(q: seq<nat>, parent: seq<nat>, k: nat)
    requires k < |q| && forall a :: 0 <= a < |q| ==> q[a] < |parent|
    ensures forall a :: 0 <= a < |Dropped(q, k)| ==> Dropped(q, k)[a] < |parent|
    ensures MapSlots(Dropped(q, k), parent) == Dropped(MapSlots(q, parent), k)
  {
  }

  lemma MapFront(s: nat, q: seq<nat>, parent: seq<nat>)
    requires s < |parent| && forall a :: 0 <= a < |q| ==> q[a] < |parent|
    ensures forall a :: 0 <= a < |[s] + q| ==> ([s] + q)[a] < |parent|
    ensures MapSlots([s] + q, parent) == [parent[s]] + MapSlots(q, parent)
  {
  }

  lemma HeldTouch<D>(c: Parts<D>, k: nat)
    requires Inv(c) && Exact(c) && k < |c.lru|
    ensures var q := Promote(c.lru, c.lru[k]);
      && (forall a :: 0 <= a < |q| ==> q[a] < |c.parentIndex|)
      && MapSlots(q, c.parentIndex) == Promote(Held(c), Held(c)[k])
  {
    HeldAreResident(c);
    WithoutAt(c.lru, k);
    WithoutAt(Held(c), k);
    MapDropped(c.lru, c.parentIndex, k);
    MapFront(c.lru[k], Dropped(c.lru, k), c.parentIndex);
    hide Without; hide MapSlots; hide Distinct; hide Parented; hide Forward; hide Exact; hide Dropped;
  }

  lemma HeldGet<D>(c: Parts<D>, index: nat)
    requires Inv(c) && Exact(c) && c.Resident(index)
    ensures Inv(Get(c, index)) && Held(Get(c, index)) == Promote(Held(c), index)
  {
    GetInv(c, index);
    assert c.partIndex[index] in c.lru;
    HeldTouch(c, IndexOf(c.lru, c.partIndex[index]));
  }

  /** A free slot is pushed in front of the others. */
  lemma HeldSetFree<D>(c: Parts<D>, index: nat)
    requires Inv(c) && c.used < |c.parentIndex|
    ensures Promote(c.lru, c.used) == [c.used] + c.lru
    ensures MapSlots([c.used] + c.lru, c.parentIndex[c.used := index]) == [index] + Held(c)
  {
    WithoutAbsent(c.lru, c.used);
  }

  /** The last slot is taken, and goes in front of the others. */
  lemma HeldSetFull<D>(c: Parts<D>, index: nat)
    requires Inv(c) && 0 < c.used == |c.parentIndex|
    ensures Promote(c.lru, GetLru(c)) == [GetLru(c)] + c.lru[..c.used - 1]
    ensures MapSlots([GetLru(c)] + c.lru[..c.used - 1], c.parentIndex[GetLru(c) := index])
         == [index] + Held(c)[..c.used - 1]
  {
    WithoutAt(c.lru, c.used - 1);
  }

  lemma HeldSet<D>(c: Parts<D>, index: nat, d: D)
    requires Inv(c) && Exact(c) && index < |c.partIndex| && |c.parentIndex| > 0 && !c.Resident(index)
    ensures Inv(Set(c, index, d)) && Held(Set(c, index, d)) == Use(Held(c), index, |c.parentIndex|)
  {
    hide Without; hide Promote; hide Distinct; hide Forward; hide Parented; hide Exact; hide MapSlots;
    SetInv(c, index, d);
    HeldAreResident(c);
    if c.used == |c.parentIndex| {
      HeldSetFull(c, index);
    } else {
      HeldSetFree(c, index);
    }
  }

  /** An index set again keeps its place in line if the slot taken is its own. */
  lemma HeldSetOwn<D>(c: Parts<D>, index: nat, d: D)
    requires Inv(c) && Exact(c) && |c.parentIndex| > 0 && c.Resident(index) && c.partIndex[index] == GetLru(c)
    ensures Inv(Set(c, index, d)) && Held(Set(c, index, d)) == Use(Held(c), index, |c.parentIndex|)
  {
    SetInv(c, index, d);
    HeldAreResident(c);
    OwnSlotIsLast(c, index);
    HeldSetFull(c, index);
    WithoutAt(Held(c), c.used - 1);
    hide Without; hide Distinct; hide Forward; hide Parented; hide Exact; hide MapSlots; hide ListedAs;
  }

  lemma OwnSlotIsLast<D>(c: Parts<D>, index: nat)
    requires Inv(c) && |c.parentIndex| > 0 && c.Resident(index) && c.partIndex[index] == GetLru(c)
    ensures 0 < c.used == |c.parentIndex| && |Held(c)| == c.used && Held(c)[c.used - 1] == index && index in Held(c)
  {
    assert Held(c)[c.used - 1] == index;
  }

  /** Otherwise it is held twice. */
  lemma HeldSetOrphan<D>(c: Parts<D>, index: nat, d: D)
    requires Inv(c) && |c.parentIndex| > 0 && c.Resident(index) && c.partIndex[index] != GetLru(c)
    ensures Inv(Set(c, index, d)) && !Distinct(Held(Set(c, index, d)))
  {
    SetInv(c, index, d);
    var c', s, t := Set(c, index, d), GetLru(c), c.partIndex[index];
    OrphanListed(c, index, d);
    hide Without; hide Forward; hide Parented; hide ListedAs; hide Promote;
    PromotedFirst(c.lru, s);
    var k := IndexOf(c'.lru, t);
    assert k != 0;
    assert Held(c')[0] == index && Held(c')[k] == index;
  }

  lemma PromotedFirst(q: seq<nat>, s: nat)
    ensures |Promote(q, s)| > 0 && Promote(q, s)[0] == s
  {
  }

  lemma OrphanListed<D>(c: Parts<D>, index: nat, d: D)
    requires Inv(c) && |c.parentIndex| > 0 && c.Resident(index) && c.partIndex[index] != GetLru(c)
    ensures var c' := Set(c, index, d);
      && c'.lru == Promote(c.lru, GetLru(c)) && c.partIndex[index] in c'.lru
      && c'.parentIndex[GetLru(c)] == index && c'.parentIndex[c.partIndex[index]] == index
  {
    assert c.partIndex[index] in c.lru;
    PromoteMembers(c.lru, GetLru(c));
  }

  ghost function Step<D>(c: Parts<D>, a: Access<D>): Parts<D>
    requires Inv(c) && |c.parentIndex| > 0 && a.index < |c.partIndex|
  {
    if c.Resident(a.index) then Get(c, a.index)
    else if a.ok then Set(c, a.index, a.d)
    else c
  }

  /** One access is one step of a least-recently-used cache. */
  lemma StepIsServe<D>(c: Parts<D>, a: Access<D>)
    requires Inv(c) && Exact(c) && |c.parentIndex| > 0 && a.index < |c.partIndex|
    ensures var c' := Step(c, a);
      && Inv(c') && Exact(c')
      && |c'.parentIndex| == |c.parentIndex| && |c'.partIndex| == |c.partIndex|
      && Held(c') == Serve(Held(c), a.index, a.ok, |c.parentIndex|)
  {
    HeldAreResident(c);
    if c.Resident(a.index) {
      GetInv(c, a.index);
      HeldGet(c, a.index);
    } else if a.ok {
      SetExact(c, a.index, a.d);
      HeldSet(c, a.index, a.d);
    }
  }

  ghost predicate InRange<D>(accesses: seq<Access<D>>, maxIndex: nat) {
    forall a :: a in accesses ==> a.index < maxIndex
  }

  /** The cache after a run from a fresh `Init`. */
  ghost function Run<D>(maxIndex: nat, maxPart: nat, none: D, accesses: seq<Access<D>>): (c: Parts<D>)
    requires 0 < maxIndex <= NONE && 0 < maxPart && InRange(accesses, maxIndex)
    ensures Inv(c) && Exact(c) && |c.partIndex| == maxIndex
    ensures |c.parentIndex| == if maxPart > maxIndex then maxIndex else maxPart
  {
    if accesses == [] then
      FreshInv(maxIndex, maxPart, none);
      Fresh(maxIndex, maxPart, none)
    else
      var c := Run(maxIndex, maxPart, none, accesses[..|accesses| - 1]);
      var a := accesses[|accesses| - 1];
      assert a in accesses;
      StepIsServe(c, a);
      Step(c, a)
  }

  /** The accesses of the run that were answered, in order. */
  ghost function Served<D>(maxIndex: nat, maxPart: nat, none: D, accesses: seq<Access<D>>): seq<nat>
    requires 0 < maxIndex <= NONE && 0 < maxPart && InRange(accesses, maxIndex)
  {
    if accesses == [] then [] else
      var prefix, a := accesses[..|accesses| - 1], accesses[|accesses| - 1];
      Served(maxIndex, maxPart, none, prefix)
      + if Run(maxIndex, maxPart, none, prefix).Resident(a.index) || a.ok then [a.index] else []
  }

  lemma StepHoldsMostRecent<D>(c: Parts<D>, a: Access<D>, served: seq<nat>)
    requires Inv(c) && Exact(c) && |c.parentIndex| > 0 && a.index < |c.partIndex|
    requires Held(c) == Take(MruOrder(served), |c.parentIndex|)
    ensures var c' := Step(c, a);
      Inv(c') && Held(c') == Take(MruOrder(served + if c.Resident(a.index) || a.ok then [a.index] else []),
                                  |c.parentIndex|)
  {
    StepIsServe(c, a);
    HeldAreResident(c);
    UseHoldsMostRecent(served, a.index, |c.parentIndex|);
    assert served + [] == served;
  }

  /**
    After any run the cache holds the most recently served distinct indices, as many as it has
    slots, and its list has their slots in recency order.
   */
  lemma {:induction false} RunHoldsMostRecent<D>(maxIndex: nat, maxPart: nat, none: D, accesses: seq<Access<D>>)
    requires 0 < maxIndex <= NONE && 0 < maxPart && InRange(accesses, maxIndex)
    ensures var c := Run(maxIndex, maxPart, none, accesses);
      Held(c) == Take(MruOrder(Served(maxIndex, maxPart, none, accesses)), |c.parentIndex|)
  {
    if accesses == [] {
      assert Held(Run(maxIndex, maxPart, none, accesses)) == [];
    } else {
      var prefix, a := accesses[..|accesses| - 1], accesses[|accesses| - 1];
      assert a in accesses;
      RunHoldsMostRecent(maxIndex, maxPart, none, prefix);
      StepHoldsMostRecent(Run(maxIndex, maxPart, none, prefix), a, Served(maxIndex, maxPart, none, prefix));
    }
  }

  /** A resident index is one of the most recently served, and the other way round. */
  lemma ResidentAreMostRecent<D>(maxIndex: nat, maxPart: nat, none: D, accesses: seq<Access<D>>, i: nat)
    requires 0 < maxIndex <= NONE && 0 < maxPart && InRange(accesses, maxIndex)
    ensures var c := Run(maxIndex, maxPart, none, accesses);
      c.Resident(i) <==>
      i in Take(MruOrder(Served(maxIndex, maxPart, none, accesses)), |c.parentIndex|)
  {
    RunHoldsMostRecent(maxIndex, maxPart, none, accesses);
    HeldAreResident(Run(maxIndex, maxPart, none, accesses));
  }

  lemma HeldLast<D>(c: Parts<D>)
    requires Inv(c) && 0 < c.used == |c.parentIndex|
    ensures |Held(c)| > 0 && Held(c)[|Held(c)| - 1] == Evicted(c) && Evicted(c) in Held(c)
  {
    assert Held(c)[|c.lru| - 1] == Evicted(c);
  }

  lemma EvictedIsOldest<D>(c: Parts<D>, served: seq<nat>, i: nat)
    requires Inv(c) && Exact(c) && 0 < c.used == |c.parentIndex|
    requires Held(c) == Take(MruOrder(served), |c.parentIndex|)
    requires c.Resident(i) && i != Evicted(c)
    ensures c.Resident(Evicted(c)) && i in served && Evicted(c) in served
    ensures LastUse(served, Evicted(c)) < LastUse(served, i)
  {
    hide *;
    HeldAreResident(c);
    HeldLast(c);
    LastIsOldest(served, |c.parentIndex|, i);
  }

  /** When a store evicts, it evicts the index whose last use is the furthest back. */
  lemma EvictsLeastRecent<D>(maxIndex: nat, maxPart: nat, none: D, accesses: seq<Access<D>>, i: nat)
    requires 0 < maxIndex <= NONE && 0 < maxPart && InRange(accesses, maxIndex)
    requires var c := Run(maxIndex, maxPart, none, accesses);
      c.used == |c.parentIndex| && c.Resident(i) && i != Evicted(c)
    ensures var c := Run(maxIndex, maxPart, none, accesses);
      var served := Served(maxIndex, maxPart, none, accesses);
      && c.Resident(Evicted(c)) && i in served && Evicted(c) in served
      && LastUse(served, Evicted(c)) < LastUse(served, i)
  {
    RunHoldsMostRecent(maxIndex, maxPart, none, accesses);
    EvictedIsOldest(Run(maxIndex, maxPart, none, accesses), Served(maxIndex, maxPart, none, accesses), i);
  }

  /** What an index answers depends on the history alone: a larger cache holds at least as much. */
  lemma {:induction false} RunIncluded<D>(maxIndex: nat, small: nat, big: nat, none: D, accesses: seq<Access<D>>)
    requires 0 < maxIndex <= NONE && 0 < small <= big && InRange(accesses, maxIndex)
    ensures var c, c' := Run(maxIndex, small, none, accesses), Run(maxIndex, big, none, accesses);
      Included(Held(c), Held(c'), |c.parentIndex|)
  {
    var c, c' := Run(maxIndex, small, none, accesses), Run(maxIndex, big, none, accesses);
    if accesses == [] {
      assert Held(c) == [] && Held(c') == [];
    } else {
      var prefix, a := accesses[..|accesses| - 1], accesses[|accesses| - 1];
      var p, p' := Run(maxIndex, small, none, prefix), Run(maxIndex, big, none, prefix);
      assert a in accesses;
      RunIncluded(maxIndex, small, big, none, prefix);
      StepIsServe(p, a);
      StepIsServe(p', a);
      ServeIncluded(Held(p), Held(p'), a.index, a.ok, |p.parentIndex|, |p'.parentIndex|);
    }
  }

  /** Inclusion: whatever the run, a larger cache never misses where a smaller one hits. */
  lemma LargerCacheHoldsMore<D>(maxIndex: nat, small: nat, big: nat, none: D, accesses: seq<Access<D>>, i: nat)
    requires 0 < maxIndex <= NONE && 0 < small <= big && InRange(accesses, maxIndex)
    requires Run(maxIndex, small, none, accesses).Resident(i)
    ensures Run(maxIndex, big, none, accesses).Resident(i)
  {
    var c, c' := Run(maxIndex, small, none, accesses), Run(maxIndex, big, none, accesses);
    RunIncluded(maxIndex, small, big, none, accesses);
    IncludedSubset(Held(c), Held(c'), |c.parentIndex|);
    HeldAreResident(c);
    HeldAreResident(c');
    assert i in Members(Held(c'));
  }
}
