/**
  The value of a `CShadowPartManager`: a part cache of surfaces that is asked to store only
  indices it does not hold, and the surfaces waiting to be deleted.
 */
module Shadows {
  import opened PartCache
  import opened Lru
  import PartRuns
  import opened SurfaceCache
  import opened Surfaces

  datatype Shadow = Shadow(
    parts: Parts<Ptr>,
    removed: seq<nat>,         // m_listRemoved
    freed: seq<nat>,           // deleted surfaces
    images: seq<Image>)        // what was drawn on each surface ever made

  // ---------------------------------------------------------------- invariants

  /** The surface in a slot shows the sprite that has the slot. */
  ghost predicate Depicted(c: Parts<Ptr>, images: seq<Image>) {
    forall s :: 0 <= s < c.used && s < |c.data| && s < |c.parentIndex| ==>
      c.data[s].To? && c.data[s].surface < |images| && images[c.data[s].surface].sprite == c.parentIndex[s]
  }

  ghost predicate ShadowInv(t: Shadow) {
    && Inv(t.parts) && Exact(t.parts) && Filled(t.parts)
    && Depicted(t.parts, t.images)
    && Owned(t.parts.data, t.removed, t.freed, |t.images|)
  }

  // ---------------------------------------------------------------- operations

  /**
    `GetTexture(id)`. `drawable`: the sprite is not empty; `locks`: a new surface can be locked;
    `colour`: the shadow colour of the hour.
   */
  function GetTexture(t: Shadow, id: nat, colour: int, drawable: bool, locks: bool): (Shadow, Ptr)
    requires ShadowInv(t) && |t.parts.parentIndex| > 0 && id < |t.parts.partIndex|
  {
    var made := |t.images|;
    if t.parts.Resident(id) then
      (t.(parts := Get(t.parts, id)), t.parts.data[t.parts.partIndex[id]])
    else if !drawable then (t, Null)
    else if !locks then
      (t.(images := t.images + [Image(id, colour)], freed := t.freed + [made]), Null)
    else
      (Shadow(Set(t.parts, id, To(made)), t.removed + Replaced(t.parts), t.freed, t.images + [Image(id, colour)]),
       To(made))
  }

  function DeleteRemoved(t: Shadow): Shadow {
    t.(removed := [], freed := t.freed + t.removed)
  }

  /** `Init` on a sprite pack of another size; `Clear` when the sizes stay. */
  function Reinit(t: Shadow, maxIndex: nat, maxPart: nat): Shadow {
    t.(parts := Fresh(maxIndex, maxPart, Null), removed := [],
       freed := t.freed + InSlots(t.parts.data) + t.removed)
  }

  function New(maxIndex: nat, maxPart: nat): (t: Shadow)
    requires maxIndex <= NONE
    ensures ShadowInv(t) && |t.parts.partIndex| == maxIndex
    ensures 0 < maxIndex && 0 < maxPart ==> |t.parts.parentIndex| > 0
  {
    FreshInv(maxIndex, maxPart, Null);
    NullSlots(|Fresh(maxIndex, maxPart, Null).data|);
    Shadow(Fresh(maxIndex, maxPart, Null), [], [], [])
  }

  // ---------------------------------------------------------------- every step keeps the invariants

  lemma SetDepicted(c: Parts<Ptr>, images: seq<Image>, index: nat, colour: int)
    requires Inv(c) && Depicted(c, images) && index < |c.partIndex| && |c.parentIndex| > 0
    ensures Depicted(Set(c, index, To(|images|)), images + [Image(index, colour)])
  {
  }

  lemma ReuseInv(t: Shadow, id: nat)
    requires ShadowInv(t) && id < |t.parts.partIndex|
    ensures ShadowInv(t.(parts := Get(t.parts, id)))
  {
    GetInv(t.parts, id);
    GetKeepsTables(t.parts, id);
    hide Inv; hide Exact; hide Get; hide Owned;
  }

  lemma StoreInv(t: Shadow, id: nat, colour: int)
    requires ShadowInv(t) && |t.parts.parentIndex| > 0 && id < |t.parts.partIndex| && !t.parts.Resident(id)
    ensures ShadowInv(Shadow(Set(t.parts, id, To(|t.images|)), t.removed + Replaced(t.parts), t.freed,
                             t.images + [Image(id, colour)]))
  {
    SetInv(t.parts, id, To(|t.images|));
    SetExact(t.parts, id, To(|t.images|));
    SetFilled(t.parts, id, |t.images|);
    SetDepicted(t.parts, t.images, id, colour);
    StoreOwned(t.parts, t.removed, t.freed, |t.images|, id);
    hide Inv; hide Exact; hide Filled; hide Depicted; hide Owned; hide Set; hide Replaced;
  }

  lemma GetTextureInv(t: Shadow, id: nat, colour: int, drawable: bool, locks: bool)
    requires ShadowInv(t) && |t.parts.parentIndex| > 0 && id < |t.parts.partIndex|
    ensures ShadowInv(GetTexture(t, id, colour, drawable, locks).0)
  {
    if t.parts.Resident(id) {
      ReuseInv(t, id);
    } else if drawable && locks {
      StoreInv(t, id, colour);
    } else if drawable {
      OwnedAborted(t.parts.data, t.removed, t.freed, |t.images|);
      DepictedMore(t.parts, t.images, Image(id, colour));
    }
    hide Inv; hide Exact; hide Filled; hide Depicted; hide Owned; hide Set; hide Get; hide Replaced;
  }

  lemma DepictedMore(c: Parts<Ptr>, images: seq<Image>, image: Image)
    requires Depicted(c, images)
    ensures Depicted(c, images + [image])
  {
  }

  /** A shadow that is returned shows the sprite asked for, and has not been deleted. */
  lemma GetTextureTransparent(t: Shadow, id: nat, colour: int, drawable: bool, locks: bool)
    requires ShadowInv(t) && |t.parts.parentIndex| > 0 && id < |t.parts.partIndex|
    ensures var (t', p) := GetTexture(t, id, colour, drawable, locks);
      && (p.To? ==> p.surface < |t'.images| && t'.images[p.surface].sprite == id
                    && p.surface !in t'.freed && p.surface !in t'.removed)
      && (p == Null <==> !t.parts.Resident(id) && !(drawable && locks))
  {
    GetTextureInv(t, id, colour, drawable, locks);
    var (t', p) := GetTexture(t, id, colour, drawable, locks);
    if p.To? {
      var c := t'.parts;
      assert c.partIndex[id] != NONE && c.data[c.partIndex[id]] == p;
      OwnedInSlot(c.data, t'.removed, t'.freed, |t'.images|, p.surface);
    }
  }

  lemma ReinitInv(t: Shadow, maxIndex: nat, maxPart: nat)
    requires ShadowInv(t) && maxIndex <= NONE
    ensures ShadowInv(Reinit(t, maxIndex, maxPart))
  {
    FreshOwned(t.parts, t.removed, t.freed, |t.images|, maxIndex, maxPart);
  }

  lemma DeleteRemovedInv(t: Shadow)
    requires ShadowInv(t)
    ensures ShadowInv(DeleteRemoved(t))
  {
    OwnedRemoved(t.parts.data, t.removed, t.freed, |t.images|);
  }

  /**
    What a call does with surfaces. A resident sprite is answered with the surface in its slot;
    otherwise, unless the sprite is empty, one surface is made, and deleted at once if it cannot be locked.
    Nothing else is deleted; what waits to be deleted besides what did before is the surface of the
    slot taken.
   */
  lemma GetTextureSurfaces(t: Shadow, id: nat, colour: int, drawable: bool, locks: bool)
    requires ShadowInv(t) && |t.parts.parentIndex| > 0 && id < |t.parts.partIndex|
    ensures var (t', p) := GetTexture(t, id, colour, drawable, locks);
      var hit := t.parts.partIndex[id] != NONE;
      && (hit ==> t.parts.partIndex[id] < |t.parts.data| && p == t.parts.data[t.parts.partIndex[id]])
      && (hit || !drawable ==> t'.images == t.images && t'.freed == t.freed && t'.removed == t.removed)
      && (!hit && drawable ==> t'.images == t.images + [Image(id, colour)])
      && (!hit && drawable && !locks ==>
            t'.freed == t.freed + [|t.images|] && t'.removed == t.removed && t'.parts == t.parts)
      && (!hit && drawable && locks ==>
            && p == To(|t.images|) && t'.freed == t.freed
            && var was := t.parts.data[GetLru(t.parts)];
            t'.removed == t.removed + if was.To? then [was.surface] else [])
      && (!hit && !(drawable && locks) ==> p == Null && t'.parts == t.parts)
  {
    if t.parts.Resident(id) {
      assert t.parts.partIndex[id] < |t.parts.data|;
    }
    SetFilled(t.parts, id, |t.images|);
    hide Set; hide Get; hide Depicted; hide Owned; hide Filled; hide Exact;
  }

  /** What was waiting is deleted, each surface once, nothing else is, and nothing waits any more. */
  lemma DeleteRemovedDeletes(t: Shadow, p: nat)
    requires ShadowInv(t)
    ensures DeleteRemoved(t).removed == [] && DeleteRemoved(t).parts == t.parts
    ensures Times(DeleteRemoved(t).freed, p) == if p in t.removed then 1 else Times(t.freed, p)
  {
    OwnedWaiting(t.parts.data, t.removed, t.freed, |t.images|, p);
  }

  // ---------------------------------------------------------------- runs

  function Clear(t: Shadow): Shadow {
    Reinit(t, |t.parts.partIndex|, |t.parts.parentIndex|)
  }

  /** After `Clear`, or `Init`, every surface ever made has been freed exactly once. */
  lemma ReinitFreesEachOnce(t: Shadow, maxIndex: nat, maxPart: nat, p: nat)
    requires ShadowInv(t) && p < |t.images|
    ensures Times(Reinit(t, maxIndex, maxPart).freed, p) == 1
    ensures Times(Clear(t).freed, p) == 1
  {
    FreshOwned(t.parts, t.removed, t.freed, |t.images|, 0, 0);
    hide Owned;
    AllFreedOnce(0, Reinit(t, maxIndex, maxPart).freed, |t.images|, p);
  }

  ghost function Step(t: Shadow, call: Call): (t': Shadow)
    requires ShadowInv(t) && |t.parts.parentIndex| > 0 && CallInRange(call, |t.parts.partIndex|)
    ensures |t'.parts.partIndex| == if call.InitCall? then call.maxIndex else |t.parts.partIndex|
    ensures |t'.parts.parentIndex|
         == if call.InitCall? then SlotCount(call.maxIndex, call.maxPart) else |t.parts.parentIndex|
  {
    match call
    case GetTextureCall(id, colour, drawable, locks) => GetTexture(t, id, colour, drawable, locks).0
    case ClearCall => Clear(t)
    case DeleteRemovedCall => DeleteRemoved(t)
    case InitCall(maxIndex, maxPart) => Reinit(t, maxIndex, maxPart)
  }

  lemma StepInv(t: Shadow, call: Call)
    requires ShadowInv(t) && |t.parts.parentIndex| > 0 && CallInRange(call, |t.parts.partIndex|)
    ensures ShadowInv(Step(t, call))
  {
    match call
    case GetTextureCall(id, colour, drawable, locks) => GetTextureInv(t, id, colour, drawable, locks);
    case ClearCall => ReinitInv(t, |t.parts.partIndex|, |t.parts.parentIndex|);
    case DeleteRemovedCall => DeleteRemovedInv(t);
    case InitCall(maxIndex, maxPart) => ReinitInv(t, maxIndex, maxPart);
  }

  /** Any sequence of calls of a new manager. */
  ghost function Run(maxIndex: nat, maxPart: nat, calls: seq<Call>): (t: Shadow)
    requires 0 < maxIndex <= NONE && 0 < maxPart && InRange(calls, maxIndex)
    ensures ShadowInv(t) && |t.parts.partIndex| == MaxIndexAfter(calls, maxIndex)
    ensures |t.parts.parentIndex| == SlotCount(MaxIndexAfter(calls, maxIndex), MaxPartAfter(calls, maxPart)) > 0
  {
    if calls == [] then New(maxIndex, maxPart) else
      var t := Run(maxIndex, maxPart, calls[..|calls| - 1]);
      StepInv(t, calls[|calls| - 1]);
      Step(t, calls[|calls| - 1])
  }

  /** Over any run each surface is in exactly one place, and none is deleted twice. */
  lemma RunConserves(maxIndex: nat, maxPart: nat, calls: seq<Call>)
    requires 0 < maxIndex <= NONE && 0 < maxPart && InRange(calls, maxIndex)
    ensures var t := Run(maxIndex, maxPart, calls);
      && Owned(t.parts.data, t.removed, t.freed, |t.images|)
      && forall i, j :: 0 <= i < j < |t.freed| ==> t.freed[i] != t.freed[j]
  {
    var t := Run(maxIndex, maxPart, calls);
    hide *;
    forall i, j | 0 <= i < j < |t.freed| ensures t.freed[i] != t.freed[j] {
      OwnedDeletedOnce(t.parts.data, t.removed, t.freed, |t.images|, i, j);
    }
  }

  /** The `GetTexture` calls since the cache was last started anew, as accesses to it. */
  ghost function Accesses(maxIndex: nat, maxPart: nat, calls: seq<Call>): (a: seq<PartRuns.Access<Ptr>>)
    requires 0 < maxIndex <= NONE && 0 < maxPart && InRange(calls, maxIndex)
    ensures PartRuns.InRange(a, MaxIndexAfter(calls, maxIndex))
  {
    if calls == [] then [] else
      var init, c := calls[..|calls| - 1], calls[|calls| - 1];
      match c
      case GetTextureCall(id, _, drawable, locks) =>
        Accesses(maxIndex, maxPart, init)
        + [PartRuns.Access(id, drawable && locks, To(|Run(maxIndex, maxPart, init).images|))]
      case ClearCall => []
      case DeleteRemovedCall => Accesses(maxIndex, maxPart, init)
      case InitCall(_, _) => []
  }

  /** The manager runs its cache by the miss-then-store, hit-then-get protocol. */
  lemma {:induction false} RunIsProtocol(maxIndex: nat, maxPart: nat, calls: seq<Call>)
    requires 0 < maxIndex <= NONE && 0 < maxPart && InRange(calls, maxIndex)
    ensures 0 < MaxIndexAfter(calls, maxIndex) <= NONE && 0 < MaxPartAfter(calls, maxPart)
    ensures Run(maxIndex, maxPart, calls).parts
         == PartRuns.Run(MaxIndexAfter(calls, maxIndex), MaxPartAfter(calls, maxPart), Null,
                         Accesses(maxIndex, maxPart, calls))
  {
    hide Inv; hide Exact; hide Filled; hide Depicted; hide Owned; hide Set; hide Get;
    SizesInRange(calls, maxIndex, maxPart);
    if calls != [] {
      var init := calls[..|calls| - 1];
      RunIsProtocol(maxIndex, maxPart, init);
      var a := Accesses(maxIndex, maxPart, calls);
      if calls[|calls| - 1].GetTextureCall? {
        assert a[..|a| - 1] == Accesses(maxIndex, maxPart, init);
      }
    }
  }

  /** The shadows held after any run are those served last since the cache was last started anew. */
  lemma RunHoldsMostRecent(maxIndex: nat, maxPart: nat, calls: seq<Call>)
    requires 0 < maxIndex <= NONE && 0 < maxPart && InRange(calls, maxIndex)
    ensures 0 < MaxIndexAfter(calls, maxIndex) <= NONE && 0 < MaxPartAfter(calls, maxPart)
    ensures var c := Run(maxIndex, maxPart, calls).parts;
      PartRuns.Held(c) == Take(MruOrder(PartRuns.Served(MaxIndexAfter(calls, maxIndex), MaxPartAfter(calls, maxPart),
                                                        Null, Accesses(maxIndex, maxPart, calls))),
                               |c.parentIndex|)
  {
    hide Run; hide Accesses;
    RunIsProtocol(maxIndex, maxPart, calls);
    PartRuns.RunHoldsMostRecent(MaxIndexAfter(calls, maxIndex), MaxPartAfter(calls, maxPart), Null,
                                Accesses(maxIndex, maxPart, calls));
  }

  ghost predicate SameButData(a: seq<PartRuns.Access<Ptr>>, b: seq<PartRuns.Access<Ptr>>) {
    |a| == |b| && forall k :: 0 <= k < |a| ==> a[k].index == b[k].index && a[k].ok == b[k].ok
  }

  /** What is accessed depends on the calls alone, but for the surfaces. */
  lemma {:induction false} SameAccesses(maxIndex: nat, small: nat, big: nat, calls: seq<Call>)
    requires 0 < maxIndex <= NONE && 0 < small && 0 < big && InRange(calls, maxIndex)
    ensures SameButData(Accesses(maxIndex, small, calls), Accesses(maxIndex, big, calls))
  {
    hide Run;
    if calls != [] {
      SameAccesses(maxIndex, small, big, calls[..|calls| - 1]);
    }
  }

  /** The sizes asked for by `Init` calls are the same for both; until then the larger one has more slots. */
  lemma {:induction false} SizesGrow(calls: seq<Call>, small: nat, big: nat)
    requires small <= big
    ensures MaxPartAfter(calls, small) <= MaxPartAfter(calls, big)
  {
    if calls != [] {
      SizesGrow(calls[..|calls| - 1], small, big);
    }
  }

  /** A manager with more slots has every shadow that one with fewer has. */
  lemma LargerCacheHoldsMore(maxIndex: nat, small: nat, big: nat, calls: seq<Call>, id: nat)
    requires 0 < maxIndex <= NONE && 0 < small <= big && InRange(calls, maxIndex)
    requires Run(maxIndex, small, calls).parts.Resident(id)
    ensures Run(maxIndex, big, calls).parts.Resident(id)
  {
    hide Run; hide Accesses;
    RunIsProtocol(maxIndex, small, calls);
    RunIsProtocol(maxIndex, big, calls);
    SizesGrow(calls, small, big);
    var a, b := Accesses(maxIndex, small, calls), Accesses(maxIndex, big, calls);
    var n := MaxIndexAfter(calls, maxIndex);
    PartRuns.LargerCacheHoldsMore(n, MaxPartAfter(calls, small), MaxPartAfter(calls, big), Null, a, id);
    SameAccesses(maxIndex, small, big, calls);
    SameResidents(n, MaxPartAfter(calls, big), a, b, id);
  }

  /** Which indices are held does not depend on the data stored with them. */
  lemma SameResidents(maxIndex: nat, maxPart: nat, a: seq<PartRuns.Access<Ptr>>, b: seq<PartRuns.Access<Ptr>>, id: nat)
    requires 0 < maxIndex <= NONE && 0 < maxPart && SameButData(a, b)
    requires PartRuns.InRange(a, maxIndex) && PartRuns.InRange(b, maxIndex)
    requires PartRuns.Run(maxIndex, maxPart, Null, a).Resident(id)
    ensures PartRuns.Run(maxIndex, maxPart, Null, b).Resident(id)
  {
    SameHeld(maxIndex, maxPart, a, b);
    PartRuns.HeldAreResident(PartRuns.Run(maxIndex, maxPart, Null, a));
    PartRuns.HeldAreResident(PartRuns.Run(maxIndex, maxPart, Null, b));
  }

  lemma {:induction false} SameHeld(maxIndex: nat, maxPart: nat, a: seq<PartRuns.Access<Ptr>>,
        b: seq<PartRuns.Access<Ptr>>)
    requires 0 < maxIndex <= NONE && 0 < maxPart && SameButData(a, b)
    requires PartRuns.InRange(a, maxIndex) && PartRuns.InRange(b, maxIndex)
    ensures PartRuns.Held(PartRuns.Run(maxIndex, maxPart, Null, a))
         == PartRuns.Held(PartRuns.Run(maxIndex, maxPart, Null, b))
  {
    hide Inv; hide Exact; hide PartRuns.Held; hide PartRuns.Step; hide Serve;
    if a == [] {
      assert b == [];
    } else {
      var n := |a| - 1;
      assert a[n] in a && b[n] in b;
      SameHeld(maxIndex, maxPart, a[..n], b[..n]);
      PartRuns.StepIsServe(PartRuns.Run(maxIndex, maxPart, Null, a[..n]), a[n]);
      PartRuns.StepIsServe(PartRuns.Run(maxIndex, maxPart, Null, b[..n]), b[n]);
    }
  }
}
