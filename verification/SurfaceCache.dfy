/** A part cache whose data are surfaces: what the texture and the shadow manager share. */
module SurfaceCache {
  import opened PartCache
  import opened Surfaces

  /** A slot in use has a surface, a free one has none. */
  ghost predicate Filled(c: Parts<Ptr>) {
    && c.used <= |c.data|
    && forall s :: 0 <= s < |c.data| ==> (c.data[s].To? <==> s < c.used)
  }

  ghost predicate Shows(p: Ptr, images: seq<Image>, image: Image) {
    p.To? && p.surface < |images| && images[p.surface] == image
  }

  /** The surface that the next `SetData` takes out of its slot. */
  function Replaced(c: Parts<Ptr>): seq<nat>
    requires Inv(c) && |c.parentIndex| > 0
  {
    if Evicted(c) != NONE then Pointed(c.data[GetLru(c)]) else []
  }

  lemma SetFilled(c: Parts<Ptr>, index: nat, p: nat)
    requires Inv(c) && Filled(c) && index < |c.partIndex| && |c.parentIndex| > 0
    ensures Filled(Set(c, index, To(p)))
    ensures Evicted(c) == NONE ==> c.data[GetLru(c)] == Null
  {
  }

  /** `SetData` of a new surface, and what it replaces queued. */
  lemma StoreOwned(c: Parts<Ptr>, removed: seq<nat>, freed: seq<nat>, made: nat, index: nat)
    requires Inv(c) && Filled(c) && index < |c.partIndex| && |c.parentIndex| > 0
    requires Owned(c.data, removed, freed, made)
    ensures Owned(Set(c, index, To(made)).data, removed + Replaced(c), freed, made + 1)
  {
    hide Owned;
    SetFilled(c, index, made);
    OwnedStore(c.data, removed, freed, made, GetLru(c));
  }

  lemma OwnedWaiting(data: seq<Ptr>, removed: seq<nat>, freed: seq<nat>, made: nat, p: nat)
    requires Owned(data, removed, freed, made)
    ensures Times(freed + removed, p) == if p in removed then 1 else Times(freed, p)
  {
    assert Times(freed + removed, p) == Times(freed, p) + Times(removed, p);
    assert p in removed <==> Times(removed, p) > 0;
  }

  lemma OwnedRemoved(data: seq<Ptr>, removed: seq<nat>, freed: seq<nat>, made: nat)
    requires Owned(data, removed, freed, made)
    ensures Owned(data, [], freed + removed, made)
  {
    forall p: nat ensures Times(freed + removed, p) == Times(freed, p) + Times(removed, p) {
    }
  }

  lemma OwnedSlots(data: seq<Ptr>, removed: seq<nat>, freed: seq<nat>, made: nat, n: nat)
    requires Owned(data, removed, freed, made)
    ensures Owned(seq(n, _ => Null), removed, freed + InSlots(data), made)
  {
    NullSlots(n);
    forall p: nat ensures Times(freed + InSlots(data), p) == Times(freed, p) + Times(InSlots(data), p) {
    }
  }

  /** All surfaces deleted, in either order, and the cache started anew. */
  lemma FreshOwned(c: Parts<Ptr>, removed: seq<nat>, freed: seq<nat>, made: nat, maxIndex: nat, maxPart: nat)
    requires Owned(c.data, removed, freed, made) && maxIndex <= NONE
    ensures var c' := Fresh(maxIndex, maxPart, Null);
      && Inv(c') && Exact(c') && Filled(c')
      && Owned(c'.data, [], freed + InSlots(c.data) + removed, made)
      && Owned(c'.data, [], freed + removed + InSlots(c.data), made)
  {
    var c' := Fresh(maxIndex, maxPart, Null);
    FreshInv(maxIndex, maxPart, Null);
    FreshFilled(maxIndex, maxPart);
    hide Owned; hide Inv; hide Exact; hide Filled;
    var n := |c'.data|;
    assert c'.data == seq(n, _ => Null);
    OwnedSlots(c.data, removed, freed, made, n);
    OwnedRemoved(c'.data, removed, freed + InSlots(c.data), made);
    OwnedRemoved(c.data, removed, freed, made);
    OwnedSlots(c.data, [], freed + removed, made, n);
  }

  lemma FreshFilled(maxIndex: nat, maxPart: nat)
    ensures Filled(Fresh(maxIndex, maxPart, Null))
  {
  }

  /** With all slots empty and nothing waiting, every surface made has been deleted exactly once. */
  lemma AllFreedOnce(n: nat, freed: seq<nat>, made: nat, p: nat)
    requires Owned(seq(n, _ => Null), [], freed, made) && p < made
    ensures Times(freed, p) == 1
  {
    NullSlots(n);
    assert Times(InSlots(seq(n, _ => Null)), p) == 0;
  }

  // ---------------------------------------------------------------- calls of a manager

  /** `palette`: or the colour of the shadow. */
  datatype Call =
    | GetTextureCall(id: nat, palette: int, drawable: bool, locks: bool)
    | ClearCall
    | DeleteRemovedCall
    | InitCall(maxIndex: nat, maxPart: nat)

  /** The sizes last asked for. */
  function MaxIndexAfter(calls: seq<Call>, maxIndex: nat): nat {
    if calls == [] then maxIndex
    else if calls[|calls| - 1].InitCall? then calls[|calls| - 1].maxIndex
    else MaxIndexAfter(calls[..|calls| - 1], maxIndex)
  }

  function MaxPartAfter(calls: seq<Call>, maxPart: nat): nat {
    if calls == [] then maxPart
    else if calls[|calls| - 1].InitCall? then calls[|calls| - 1].maxPart
    else MaxPartAfter(calls[..|calls| - 1], maxPart)
  }

  /** Sprites are asked for by numbers of the pack last loaded, and there is at least one slot. */
  ghost predicate CallInRange(c: Call, maxIndex: nat) {
    match c
    case GetTextureCall(id, _, _, _) => id < maxIndex
    case InitCall(n, m) => 0 < n <= NONE && 0 < m
    case ClearCall => true
    case DeleteRemovedCall => true
  }

  ghost predicate InRange(calls: seq<Call>, maxIndex: nat) {
    calls == [] ||
    var init := calls[..|calls| - 1];
    InRange(init, maxIndex) && CallInRange(calls[|calls| - 1], MaxIndexAfter(init, maxIndex))
  }

  lemma {:induction false} SizesInRange(calls: seq<Call>, maxIndex: nat, maxPart: nat)
    requires 0 < maxIndex <= NONE && 0 < maxPart && InRange(calls, maxIndex)
    ensures 0 < MaxIndexAfter(calls, maxIndex) <= NONE && 0 < MaxPartAfter(calls, maxPart)
  {
    if calls != [] {
      SizesInRange(calls[..|calls| - 1], maxIndex, maxPart);
    }
  }

  /** How many slots there are for `maxPart` asked for. */
  function SlotCount(maxIndex: nat, maxPart: nat): nat {
    if maxPart > maxIndex then maxIndex else maxPart
  }
}
