/**
  The value of a `CTexturePartManager`: a part cache of surfaces, the palette each sprite was
  last drawn with, and the surfaces waiting to be deleted.
 */
module Textures {
  import opened Lru
  import opened PartCache
  import PartRuns
  import opened Recency
  import opened SurfaceCache
  import opened Surfaces

  datatype Tex = Tex(
    parts: Parts<Ptr>,
    history: map<nat, int>,    // m_historySprPal
    removed: seq<nat>,         // m_listRemoved
    freed: seq<nat>,           // deleted surfaces
    images: seq<Image>)        // what was drawn on each surface ever made

  // ---------------------------------------------------------------- invariants

  /** The surface of a resident sprite shows that sprite with the palette recorded for it. */
  ghost predicate Transparent(c: Parts<Ptr>, history: map<nat, int>, images: seq<Image>) {
    forall i :: 0 <= i < |c.partIndex| && c.partIndex[i] != NONE ==>
      && i in history && c.partIndex[i] < |c.data|
      && Shows(c.data[c.partIndex[i]], images, Image(i, history[i]))
  }

  ghost predicate TexInv(t: Tex) {
    && Inv(t.parts) && Filled(t.parts)
    && Transparent(t.parts, t.history, t.images)
    && Owned(t.parts.data, t.removed, t.freed, |t.images|)
  }

  // ---------------------------------------------------------------- operations

  /** `GetUsedPalette`: -1 for a sprite that was never drawn. */
  function UsedPalette(history: map<nat, int>, id: nat): int {
    if id in history then history[id] else -1
  }

  predicate Hit(t: Tex, id: nat, index: int) {
    t.parts.Resident(id) && UsedPalette(t.history, id) == index
  }

  /**
    `GetTexture(id, index)`. `drawable`: the sprite is not empty; `locks`: a new surface can be
    locked.
   */
  function GetTexture(t: Tex, id: nat, index: int, drawable: bool, locks: bool): (Tex, Ptr)
    requires TexInv(t) && |t.parts.parentIndex| > 0 && id < |t.parts.partIndex|
  {
    var made := |t.images|;
    if Hit(t, id, index) then
      (t.(parts := Get(t.parts, id), history := t.history[id := index]), t.parts.data[t.parts.partIndex[id]])
    else if !drawable then (t, Null)
    else if !locks then
      (t.(images := t.images + [Image(id, index)], freed := t.freed + [made]), Null)
    else
      (Tex(Set(t.parts, id, To(made)),
           t.history[id := index],
           t.removed + Replaced(t.parts),
           t.freed,
           t.images + [Image(id, index)]),
       To(made))
  }

  function DeleteRemoved(t: Tex): Tex {
    t.(removed := [], freed := t.freed + t.removed)
  }

  /** `Clear`: everything is freed, the cache starts anew, the palettes are still remembered. */
  function Clear(t: Tex): Tex {
    t.(parts := Fresh(|t.parts.partIndex|, |t.parts.parentIndex|, Null), removed := [],
       freed := t.freed + t.removed + InSlots(t.parts.data))
  }

  /** `Init` on a sprite pack of another size. */
  function Reinit(t: Tex, maxIndex: nat, maxPart: nat): Tex {
    t.(parts := Fresh(maxIndex, maxPart, Null), removed := [],
       freed := t.freed + InSlots(t.parts.data) + t.removed)
  }

  // ---------------------------------------------------------------- every step keeps the invariants

  /** Also when `index` is resident already and so leaves an orphaned slot behind. */
  lemma SetTransparent(c: Parts<Ptr>, history: map<nat, int>, images: seq<Image>, index: nat, palette: int)
    requires Inv(c) && Transparent(c, history, images) && index < |c.partIndex| && |c.parentIndex| > 0
    ensures Transparent(Set(c, index, To(|images|)), history[index := palette], images + [Image(index, palette)])
  {
    var c' := Set(c, index, To(|images|));
    var images' := images + [Image(index, palette)];
    var s := GetLru(c);
    forall i | 0 <= i < |c'.partIndex| && c'.partIndex[i] != NONE && i != index
      ensures c.partIndex[i] == c'.partIndex[i] != NONE && c.partIndex[i] != s
    {
    }
    assert images'[|images|] == Image(index, palette);
  }

  lemma ReuseInv(t: Tex, id: nat)
    requires TexInv(t) && id < |t.parts.partIndex|
    ensures TexInv(t.(parts := Get(t.parts, id)))
  {
    GetInv(t.parts, id);
    GetKeepsTables(t.parts, id);
    hide Inv; hide Get; hide Owned;
  }

  lemma StoreInv(t: Tex, id: nat, index: int)
    requires TexInv(t) && |t.parts.parentIndex| > 0 && id < |t.parts.partIndex|
    ensures TexInv(Tex(Set(t.parts, id, To(|t.images|)), t.history[id := index], t.removed + Replaced(t.parts),
                       t.freed, t.images + [Image(id, index)]))
  {
    SetInv(t.parts, id, To(|t.images|));
    SetFilled(t.parts, id, |t.images|);
    SetTransparent(t.parts, t.history, t.images, id, index);
    StoreOwned(t.parts, t.removed, t.freed, |t.images|, id);
    hide Inv; hide Filled; hide Transparent; hide Owned; hide Set; hide Replaced;
  }

  lemma GetTextureInv(t: Tex, id: nat, index: int, drawable: bool, locks: bool)
    requires TexInv(t) && |t.parts.parentIndex| > 0 && id < |t.parts.partIndex|
    ensures TexInv(GetTexture(t, id, index, drawable, locks).0)
  {
    if Hit(t, id, index) {
      ReuseInv(t, id);
      ResidentWasDrawn(t, id);
      assert t.history[id := index] == t.history;
    } else if drawable && locks {
      StoreInv(t, id, index);
    } else if drawable {
      OwnedAborted(t.parts.data, t.removed, t.freed, |t.images|);
      TransparentMore(t.parts, t.history, t.images, Image(id, index));
    }
    hide Inv; hide Filled; hide Transparent; hide Owned; hide Set; hide Get; hide Replaced;
  }

  lemma ResidentWasDrawn(t: Tex, id: nat)
    requires TexInv(t) && t.parts.Resident(id)
    ensures id in t.history
  {
  }

  lemma TransparentMore(c: Parts<Ptr>, history: map<nat, int>, images: seq<Image>, image: Image)
    requires Transparent(c, history, images)
    ensures Transparent(c, history, images + [image])
  {
  }

  /**
    Cache transparency: what is returned, if not null, shows sprite `id` in palette `index` and
    has not been deleted, whichever branch it comes from; and null is returned only for
    an empty sprite or a surface that cannot be locked.
   */
  lemma GetTextureTransparent(t: Tex, id: nat, index: int, drawable: bool, locks: bool)
    requires TexInv(t) && |t.parts.parentIndex| > 0 && id < |t.parts.partIndex|
    ensures var (t', p) := GetTexture(t, id, index, drawable, locks);
      && (p.To? ==> Shows(p, t'.images, Image(id, index)) && p.surface !in t'.freed && p.surface !in t'.removed)
      && (p == Null <==> !Hit(t, id, index) && !(drawable && locks))
      && t.images <= t'.images
  {
    GetTextureInv(t, id, index, drawable, locks);
    var (t', p) := GetTexture(t, id, index, drawable, locks);
    if p.To? {
      var c := t'.parts;
      assert c.partIndex[id] != NONE && c.data[c.partIndex[id]] == p;
      OwnedInSlot(c.data, t'.removed, t'.freed, |t'.images|, p.surface);
    }
  }

  lemma ReinitInv(t: Tex, maxIndex: nat, maxPart: nat)
    requires TexInv(t) && maxIndex <= NONE
    ensures TexInv(Reinit(t, maxIndex, maxPart))
  {
    FreshOwned(t.parts, t.removed, t.freed, |t.images|, maxIndex, maxPart);
  }

  lemma ClearInv(t: Tex)
    requires TexInv(t)
    ensures TexInv(Clear(t))
  {
    FreshOwned(t.parts, t.removed, t.freed, |t.images|, |t.parts.partIndex|, |t.parts.parentIndex|);
  }

  lemma DeleteRemovedInv(t: Tex)
    requires TexInv(t)
    ensures TexInv(DeleteRemoved(t))
  {
    OwnedRemoved(t.parts.data, t.removed, t.freed, |t.images|);
  }

  /** After `Clear`, or the `Release` in `Init`, every surface ever made has been freed exactly once. */
  lemma ClearFreesEachOnce(t: Tex, maxIndex: nat, maxPart: nat, p: nat)
    requires TexInv(t) && p < |t.images|
    ensures Times(Clear(t).freed, p) == 1
    ensures Times(Reinit(t, maxIndex, maxPart).freed, p) == 1
  {
    FreshOwned(t.parts, t.removed, t.freed, |t.images|, 0, 0);
    hide Owned;
    AllFreedOnce(0, Clear(t).freed, |t.images|, p);
    AllFreedOnce(0, Reinit(t, maxIndex, maxPart).freed, |t.images|, p);
  }

  /**
    What a call does with surfaces. A sprite that is resident in the palette asked for is answered with
    the surface in its slot; otherwise, unless the sprite is empty, one surface is made, and deleted at
    once if it cannot be locked. Nothing else is deleted; what waits to be deleted besides what did
    before is the surface of the slot taken.
   */
  lemma GetTextureSurfaces(t: Tex, id: nat, index: int, drawable: bool, locks: bool)
    requires TexInv(t) && |t.parts.parentIndex| > 0 && id < |t.parts.partIndex|
    ensures var (t', p) := GetTexture(t, id, index, drawable, locks);
      var hit := t.parts.Resident(id) && id in t.history && t.history[id] == index;
      && (hit ==> t.parts.partIndex[id] < |t.parts.data| && p == t.parts.data[t.parts.partIndex[id]])
      && (hit || !drawable ==> t'.images == t.images && t'.freed == t.freed && t'.removed == t.removed)
      && (!hit && drawable ==> t'.images == t.images + [Image(id, index)])
      && (!hit && drawable && !locks ==>
            t'.freed == t.freed + [|t.images|] && t'.removed == t.removed && t'.parts == t.parts)
      && (!hit && drawable && locks ==>
            && p == To(|t.images|) && t'.freed == t.freed && t'.history == t.history[id := index]
            && var was := t.parts.data[GetLru(t.parts)];
            t'.removed == t.removed + if was.To? then [was.surface] else [])
      && (!hit && !(drawable && locks) ==> p == Null && t'.history == t.history && t'.parts == t.parts)
  {
    if t.parts.Resident(id) {
      ResidentWasDrawn(t, id);
      assert t.parts.partIndex[id] < |t.parts.data|;
    }
    SetFilled(t.parts, id, |t.images|);
    hide Set; hide Get; hide Transparent; hide Owned; hide Filled;
  }

  /** What was waiting is deleted, each surface once, nothing else is, and nothing waits any more. */
  lemma DeleteRemovedDeletes(t: Tex, p: nat)
    requires TexInv(t)
    ensures DeleteRemoved(t).removed == [] && DeleteRemoved(t).parts == t.parts
    ensures Times(DeleteRemoved(t).freed, p) == if p in t.removed then 1 else Times(t.freed, p)
  {
    OwnedWaiting(t.parts.data, t.removed, t.freed, |t.images|, p);
  }

  /** Neither forgets the palettes nor leaves a sprite resident or a surface waiting. */
  lemma ClearStartsAnew(t: Tex, maxIndex: nat, maxPart: nat, id: nat)
    requires TexInv(t)
    ensures Clear(t).history == t.history && Reinit(t, maxIndex, maxPart).history == t.history
    ensures Clear(t).removed == [] && Reinit(t, maxIndex, maxPart).removed == []
    ensures !Clear(t).parts.Resident(id) && !Reinit(t, maxIndex, maxPart).parts.Resident(id)
    ensures |Clear(t).parts.partIndex| == |t.parts.partIndex| && |Clear(t).parts.parentIndex| == |t.parts.parentIndex|
    ensures |Reinit(t, maxIndex, maxPart).parts.partIndex| == maxIndex
  {
  }

  // ---------------------------------------------------------------- runs

  ghost function Step(t: Tex, call: Call): (t': Tex)
    requires TexInv(t) && |t.parts.parentIndex| > 0 && CallInRange(call, |t.parts.partIndex|)
    ensures |t'.parts.partIndex| == if call.InitCall? then call.maxIndex else |t.parts.partIndex|
    ensures |t'.parts.parentIndex|
         == if call.InitCall? then SlotCount(call.maxIndex, call.maxPart) else |t.parts.parentIndex|
  {
    match call
    case GetTextureCall(id, palette, drawable, locks) => GetTexture(t, id, palette, drawable, locks).0
    case ClearCall => Clear(t)
    case DeleteRemovedCall => DeleteRemoved(t)
    case InitCall(maxIndex, maxPart) => Reinit(t, maxIndex, maxPart)
  }

  lemma StepInv(t: Tex, call: Call)
    requires TexInv(t) && |t.parts.parentIndex| > 0 && CallInRange(call, |t.parts.partIndex|)
    ensures TexInv(Step(t, call))
  {
    match call
    case GetTextureCall(id, palette, drawable, locks) => GetTextureInv(t, id, palette, drawable, locks);
    case ClearCall => ClearInv(t);
    case DeleteRemovedCall => DeleteRemovedInv(t);
    case InitCall(maxIndex, maxPart) => ReinitInv(t, maxIndex, maxPart);
  }

  /** Any sequence of calls, from any state the invariants allow. */
  ghost function Run(t: Tex, calls: seq<Call>): (t': Tex)
    requires TexInv(t) && |t.parts.parentIndex| > 0 && InRange(calls, |t.parts.partIndex|)
    ensures TexInv(t') && |t'.parts.partIndex| == MaxIndexAfter(calls, |t.parts.partIndex|)
    ensures |t'.parts.parentIndex| > 0
  {
    if calls == [] then t else
      var u := Run(t, calls[..|calls| - 1]);
      StepInv(u, calls[|calls| - 1]);
      Step(u, calls[|calls| - 1])
  }

  function New(maxIndex: nat, maxPart: nat): (t: Tex)
    requires maxIndex <= NONE
    ensures TexInv(t) && |t.parts.partIndex| == maxIndex
    ensures 0 < maxIndex && 0 < maxPart ==> |t.parts.parentIndex| > 0
  {
    FreshInv(maxIndex, maxPart, Null);
    NullSlots(|Fresh(maxIndex, maxPart, Null).data|);
    Tex(Fresh(maxIndex, maxPart, Null), map[], [], [], [])
  }

  /** A run of a new manager. */
  ghost function RunNew(maxIndex: nat, maxPart: nat, calls: seq<Call>): (t: Tex)
    requires 0 < maxIndex <= NONE && 0 < maxPart && InRange(calls, maxIndex)
    ensures TexInv(t) && |t.parts.partIndex| == MaxIndexAfter(calls, maxIndex) && |t.parts.parentIndex| > 0
  {
    Run(New(maxIndex, maxPart), calls)
  }

  /**
    Whatever calls went before, palette changes of resident sprites, `Clear` and `Init` included, a
    texture that is returned shows what was asked for.
   */
  lemma RunTransparent(maxIndex: nat, maxPart: nat, calls: seq<Call>, id: nat, palette: int, drawable: bool,
        locks: bool)
    requires 0 < maxIndex <= NONE && 0 < maxPart && InRange(calls, maxIndex) && id < MaxIndexAfter(calls, maxIndex)
    ensures var (t', p) := GetTexture(RunNew(maxIndex, maxPart, calls), id, palette, drawable, locks);
      p.To? ==> Shows(p, t'.images, Image(id, palette)) && p.surface !in t'.freed
  {
    GetTextureTransparent(RunNew(maxIndex, maxPart, calls), id, palette, drawable, locks);
  }

  /** Over any run each surface is in exactly one place, and none is deleted twice. */
  lemma RunConserves(maxIndex: nat, maxPart: nat, calls: seq<Call>)
    requires 0 < maxIndex <= NONE && 0 < maxPart && InRange(calls, maxIndex)
    ensures var t := RunNew(maxIndex, maxPart, calls);
      && Owned(t.parts.data, t.removed, t.freed, |t.images|)
      && forall i, j :: 0 <= i < j < |t.freed| ==> t.freed[i] != t.freed[j]
  {
    var t := RunNew(maxIndex, maxPart, calls);
    hide *;
    forall i, j | 0 <= i < j < |t.freed| ensures t.freed[i] != t.freed[j] {
      OwnedDeletedOnce(t.parts.data, t.removed, t.freed, |t.images|, i, j);
    }
  }

  // ---------------------------------------------------------------- which sprites are held

  /** `answered` and the sprite of the call, if that is answered; nothing is left of it after `Clear` and `Init`. */
  ghost function AnsweredNext(answered: seq<nat>, t: Tex, call: Call): seq<nat>
    requires TexInv(t) && |t.parts.parentIndex| > 0 && CallInRange(call, |t.parts.partIndex|)
  {
    match call
    case GetTextureCall(id, palette, drawable, locks) =>
      if GetTexture(t, id, palette, drawable, locks).1 != Null then answered + [id] else answered
    case ClearCall => []
    case DeleteRemovedCall => answered
    case InitCall(_, _) => []
  }

  /** The sprites that were answered since the cache was last started anew, in order. */
  ghost function Answered(maxIndex: nat, maxPart: nat, calls: seq<Call>): seq<nat>
    requires 0 < maxIndex <= NONE && 0 < maxPart && InRange(calls, maxIndex)
  {
    if calls == [] then [] else
      var init := calls[..|calls| - 1];
      AnsweredNext(Answered(maxIndex, maxPart, init), RunNew(maxIndex, maxPart, init), calls[|calls| - 1])
  }

  /** The list has the slots of the sprites answered most recently, in recency order, as many as there are slots. */
  ghost predicate MostRecent(c: Parts<Ptr>, answered: seq<nat>)
    requires Inv(c)
  {
    PartRuns.Held(c) == Take(MruOrder(answered), |c.parentIndex|)
  }

  /** So it was at every point of the run. */
  ghost predicate AlwaysMostRecent(maxIndex: nat, maxPart: nat, calls: seq<Call>)
    requires 0 < maxIndex <= NONE && 0 < maxPart && InRange(calls, maxIndex)
  {
    && MostRecent(RunNew(maxIndex, maxPart, calls).parts, Answered(maxIndex, maxPart, calls))
    && (calls != [] ==> AlwaysMostRecent(maxIndex, maxPart, calls[..|calls| - 1]))
  }

  /** A resident sprite is drawn again, in another palette. */
  predicate Redraws(t: Tex, call: Call) {
    && call.GetTextureCall? && call.drawable && call.locks
    && t.parts.Resident(call.id) && !Hit(t, call.id, call.palette)
  }

  /** If so, it has the very slot that is taken. */
  ghost predicate Harmless(t: Tex, call: Call)
    requires TexInv(t) && |t.parts.parentIndex| > 0 && CallInRange(call, |t.parts.partIndex|)
  {
    Redraws(t, call) ==> t.parts.partIndex[call.id] == GetLru(t.parts)
  }

  ghost predicate AlwaysHarmless(maxIndex: nat, maxPart: nat, calls: seq<Call>)
    requires 0 < maxIndex <= NONE && 0 < maxPart && InRange(calls, maxIndex)
  {
    calls == [] ||
    var init := calls[..|calls| - 1];
    && AlwaysHarmless(maxIndex, maxPart, init)
    && Harmless(RunNew(maxIndex, maxPart, init), calls[|calls| - 1])
  }

  lemma FreshMostRecent(maxIndex: nat, maxPart: nat)
    requires maxIndex <= NONE
    ensures Inv(Fresh<Ptr>(maxIndex, maxPart, Null)) && Exact(Fresh<Ptr>(maxIndex, maxPart, Null))
    ensures MostRecent(Fresh<Ptr>(maxIndex, maxPart, Null), [])
  {
    FreshInv<Ptr>(maxIndex, maxPart, Null);
    assert PartRuns.Held(Fresh<Ptr>(maxIndex, maxPart, Null)) == [];
  }

  lemma ReuseMostRecent(c: Parts<Ptr>, answered: seq<nat>, id: nat)
    requires Inv(c) && Exact(c) && |c.parentIndex| > 0 && MostRecent(c, answered) && c.Resident(id)
    ensures Inv(Get(c, id)) && Exact(Get(c, id)) && MostRecent(Get(c, id), answered + [id])
  {
    GetInv(c, id);
    GetKeepsTables(c, id);
    PartRuns.HeldAreResident(c);
    PartRuns.HeldGet(c, id);
    UseHoldsMostRecent(answered, id, |c.parentIndex|);
    hide Inv; hide Exact; hide Get; hide Promote; hide PartRuns.Held; hide MruOrder; hide Take;
  }

  /** A store keeps the order exactly if the index is absent or has the slot that is taken. */
  lemma StoreMostRecent(c: Parts<Ptr>, answered: seq<nat>, id: nat, p: Ptr)
    requires Inv(c) && Exact(c) && |c.parentIndex| > 0 && MostRecent(c, answered) && id < |c.partIndex|
    ensures Inv(Set(c, id, p))
    ensures var harmless := c.Resident(id) ==> c.partIndex[id] == GetLru(c);
      (Exact(Set(c, id, p)) <==> harmless) && (MostRecent(Set(c, id, p), answered + [id]) <==> harmless)
  {
    hide Exact; hide Promote; hide PartRuns.Held; hide MruOrder; hide Take; hide Distinct; hide Use;
    SetInv(c, id, p);
    SetExactIff(c, id, p);
    UseHoldsMostRecent(answered, id, |c.parentIndex|);
    if !c.Resident(id) {
      PartRuns.HeldSet(c, id, p);
    } else if c.partIndex[id] == GetLru(c) {
      PartRuns.HeldSetOwn(c, id, p);
    } else {
      PartRuns.HeldSetOrphan(c, id, p);
      TakenDistinct(answered + [id], |c.parentIndex|);
    }
    hide Inv;
  }

  lemma TakenDistinct(trace: seq<nat>, n: nat)
    ensures Distinct(Take(MruOrder(trace), n))
  {
  }

  lemma StepMostRecent(t: Tex, call: Call, answered: seq<nat>)
    requires TexInv(t) && |t.parts.parentIndex| > 0 && CallInRange(call, |t.parts.partIndex|)
    requires Exact(t.parts) && MostRecent(t.parts, answered)
    ensures TexInv(Step(t, call))
    ensures Exact(Step(t, call).parts) <==> Harmless(t, call)
    ensures MostRecent(Step(t, call).parts, AnsweredNext(answered, t, call)) <==> Harmless(t, call)
  {
    StepInv(t, call);
    match call
    case GetTextureCall(id, palette, drawable, locks) =>
      if Hit(t, id, palette) {
        ReuseMostRecent(t.parts, answered, id);
      } else {
        StoreMostRecent(t.parts, answered, id, To(|t.images|));
      }
    case ClearCall => FreshMostRecent(|t.parts.partIndex|, |t.parts.parentIndex|);
    case DeleteRemovedCall =>
    case InitCall(maxIndex, maxPart) => FreshMostRecent(maxIndex, maxPart);
  }

  /**
    Run-level replacement. At every point of a run the manager holds the sprites answered most recently,
    in recency order, if and only if each resident sprite that was drawn again in another palette had the
    slot that was then taken.
   */
  lemma {:induction false} RunHoldsMostRecent(maxIndex: nat, maxPart: nat, calls: seq<Call>)
    requires 0 < maxIndex <= NONE && 0 < maxPart && InRange(calls, maxIndex)
    ensures AlwaysMostRecent(maxIndex, maxPart, calls) <==> AlwaysHarmless(maxIndex, maxPart, calls)
    ensures AlwaysHarmless(maxIndex, maxPart, calls) ==> Exact(RunNew(maxIndex, maxPart, calls).parts)
  {
    hide TexInv; hide Exact; hide MostRecent; hide Harmless; hide AnsweredNext; hide Step;
    if calls == [] {
      FreshMostRecent(maxIndex, maxPart);
    } else {
      var init := calls[..|calls| - 1];
      RunHoldsMostRecent(maxIndex, maxPart, init);
      if AlwaysHarmless(maxIndex, maxPart, init) {
        StepMostRecent(RunNew(maxIndex, maxPart, init), calls[|calls| - 1], Answered(maxIndex, maxPart, init));
      }
    }
  }

  // ---------------------------------------------------------------- without palette changes

  /** No call of the run asks for a resident sprite in a palette other than it was last drawn with. */
  ghost predicate Steady(maxIndex: nat, maxPart: nat, calls: seq<Call>)
    requires 0 < maxIndex <= NONE && 0 < maxPart && InRange(calls, maxIndex)
  {
    calls == [] ||
    var init, c := calls[..|calls| - 1], calls[|calls| - 1];
    && Steady(maxIndex, maxPart, init)
    && var t := RunNew(maxIndex, maxPart, init);
    (c.GetTextureCall? && t.parts.Resident(c.id) ==> Hit(t, c.id, c.palette))
  }

  lemma {:induction false} SteadyIsHarmless(maxIndex: nat, maxPart: nat, calls: seq<Call>)
    requires 0 < maxIndex <= NONE && 0 < maxPart && InRange(calls, maxIndex) && Steady(maxIndex, maxPart, calls)
    ensures AlwaysHarmless(maxIndex, maxPart, calls) && AlwaysMostRecent(maxIndex, maxPart, calls)
  {
    hide TexInv; hide RunNew; hide MostRecent;
    RunHoldsMostRecent(maxIndex, maxPart, calls);
    if calls != [] {
      SteadyIsHarmless(maxIndex, maxPart, calls[..|calls| - 1]);
    }
  }

  /** The `GetTexture` calls since the cache was last started anew, as accesses to it. */
  ghost function Accesses(maxIndex: nat, maxPart: nat, calls: seq<Call>): (a: seq<PartRuns.Access<Ptr>>)
    requires 0 < maxIndex <= NONE && 0 < maxPart && InRange(calls, maxIndex)
    ensures PartRuns.InRange(a, MaxIndexAfter(calls, maxIndex))
  {
    if calls == [] then [] else
      var init, c := calls[..|calls| - 1], calls[|calls| - 1];
      match c
      case GetTextureCall(id, _, drawable, locks) =>
        Accesses(maxIndex, maxPart, init)
        + [PartRuns.Access(id, drawable && locks, To(|RunNew(maxIndex, maxPart, init).images|))]
      case ClearCall => []
      case DeleteRemovedCall => Accesses(maxIndex, maxPart, init)
      case InitCall(_, _) => []
  }

  /** Without palette changes the manager runs its cache by the miss-then-store, hit-then-get protocol. */
  lemma {:induction false} RunIsProtocol(maxIndex: nat, maxPart: nat, calls: seq<Call>)
    requires 0 < maxIndex <= NONE && 0 < maxPart && InRange(calls, maxIndex)
    requires Steady(maxIndex, maxPart, calls)
    ensures 0 < MaxIndexAfter(calls, maxIndex) <= NONE && 0 < MaxPartAfter(calls, maxPart)
    ensures RunNew(maxIndex, maxPart, calls).parts
         == PartRuns.Run(MaxIndexAfter(calls, maxIndex), MaxPartAfter(calls, maxPart), Null,
                         Accesses(maxIndex, maxPart, calls))
  {
    hide Inv; hide Exact; hide Filled; hide Transparent; hide Owned; hide Set; hide Get;
    SizesInRange(calls, maxIndex, maxPart);
    if calls != [] {
      var init := calls[..|calls| - 1];
      RunIsProtocol(maxIndex, maxPart, init);
      var a := Accesses(maxIndex, maxPart, calls);
      if calls[|calls| - 1].GetTextureCall? {
        assert a[..|a| - 1] == Accesses(maxIndex, maxPart, init);
      }
    }
  }

  /** Each sprite is asked for in one palette only. */
  ghost predicate OnePalette(calls: seq<Call>) {
    forall c, c' :: c in calls && c' in calls && c.GetTextureCall? && c'.GetTextureCall? && c.id == c'.id ==>
      c.palette == c'.palette
  }

  lemma {:induction false} PaletteWasAsked(maxIndex: nat, maxPart: nat, calls: seq<Call>, id: nat) returns (c: Call)
    requires 0 < maxIndex <= NONE && 0 < maxPart && InRange(calls, maxIndex)
    requires id in RunNew(maxIndex, maxPart, calls).history
    ensures c in calls && c.GetTextureCall? && c.id == id
    ensures c.palette == RunNew(maxIndex, maxPart, calls).history[id]
  {
    hide Inv; hide Filled; hide Transparent; hide Owned; hide Set; hide Get;
    c := calls[|calls| - 1];
    var t := RunNew(maxIndex, maxPart, calls[..|calls| - 1]);
    var t' := RunNew(maxIndex, maxPart, calls);
    if !(c.GetTextureCall? && c.id == id && t'.history == t.history[id := c.palette]) {
      c := PaletteWasAsked(maxIndex, maxPart, calls[..|calls| - 1], id);
    }
  }

  /** A caller who keeps to one palette for each sprite makes no palette change. */
  lemma {:induction false} OnePaletteIsSteady(maxIndex: nat, maxPart: nat, calls: seq<Call>)
    requires 0 < maxIndex <= NONE && 0 < maxPart && InRange(calls, maxIndex) && OnePalette(calls)
    ensures Steady(maxIndex, maxPart, calls)
  {
    hide TexInv; hide RunNew;
    if calls != [] {
      var init, c := calls[..|calls| - 1], calls[|calls| - 1];
      OnePaletteIsSteady(maxIndex, maxPart, init);
      var t := RunNew(maxIndex, maxPart, init);
      if c.GetTextureCall? && t.parts.Resident(c.id) {
        ResidentWasDrawn(t, c.id);
        var c' := PaletteWasAsked(maxIndex, maxPart, init, c.id);
        assert c in calls && c' in calls;
      }
    }
  }

  /** What deletion is deferred for: no `GetTexture` deletes a surface returned before. */
  lemma {:induction false} SurvivesGetTexture(t: Tex, calls: seq<Call>, p: nat)
    requires TexInv(t) && |t.parts.parentIndex| > 0 && InRange(calls, |t.parts.partIndex|)
    requires forall c :: c in calls ==> c.GetTextureCall?
    requires p < |t.images| && p !in t.freed
    ensures var t' := Run(t, calls);
      p !in t'.freed && t.images <= t'.images
  {
    if calls != [] {
      assert calls[|calls| - 1] in calls;
      SurvivesGetTexture(t, calls[..|calls| - 1], p);
    }
  }

  // ---------------------------------------------------------------- a palette change can cost a sprite

  ghost predicate AfterFirst(c: Parts<Ptr>, n: nat, i: nat) {
    && Inv(c) && i < n && |c.partIndex| == n && c.partIndex == seq(n, _ => NONE)[i := 0]
    && c.parentIndex == [i, NONE] && c.data == [To(0), Null] && c.lru == [0] && c.used == 1
  }

  ghost predicate AfterChange(c: Parts<Ptr>, n: nat, i: nat) {
    && Inv(c) && i < n && |c.partIndex| == n && c.partIndex == seq(n, _ => NONE)[i := 1]
    && c.parentIndex == [i, i] && c.data == [To(0), To(1)] && c.lru == [1, 0] && c.used == 2
  }

  lemma FirstStore(n: nat, i: nat)
    requires i < n <= NONE && 2 <= n
    ensures Inv(Fresh<Ptr>(n, 2, Null)) && AfterFirst(Set(Fresh<Ptr>(n, 2, Null), i, To(0)), n, i)
  {
    FreshInv<Ptr>(n, 2, Null);
    SetInv(Fresh<Ptr>(n, 2, Null), i, To(0));
  }

  lemma StoreAgain(c: Parts<Ptr>, n: nat, i: nat)
    requires AfterFirst(c, n, i) && i < n <= NONE
    ensures AfterChange(Set(c, i, To(1)), n, i)
  {
    SetInv(c, i, To(1));
    WithoutAbsent(c.lru, 1);
  }

  lemma StoreOther(c: Parts<Ptr>, n: nat, i: nat, j: nat)
    requires AfterChange(c, n, i) && i < n <= NONE && j < n && i != j
    ensures LosesLiveData(c, j, To(2), i)
    ensures Set(c, j, To(2)).data == [To(2), To(1)]
  {
    assert c.lru[|c.lru| - 1] == 0;
    OrphanUnmaps(c, j, To(2), i);
  }

  /**
    With two slots: sprite `i` is asked for, then in another palette, then sprite `j`. The third
    call takes the orphaned slot and makes `i` absent, whose texture stays in the other slot; a
    cache of two slots has no reason to give up either of two sprites.
   */
  lemma PaletteChangeLosesSprite(n: nat, i: nat, j: nat, a: int, b: int, x: int)
    requires i < n <= NONE && j < n && i != j && a != b
    ensures var t1 := GetTexture(New(n, 2), i, a, true, true).0;
      && TexInv(t1) && |t1.parts.parentIndex| > 0 && |t1.parts.partIndex| == n
      && var t2 := GetTexture(t1, i, b, true, true).0;
      && TexInv(t2) && |t2.parts.parentIndex| > 0 && |t2.parts.partIndex| == n
      && var t3 := GetTexture(t2, j, x, true, true).0;
      && t2.parts.Resident(i) && !t3.parts.Resident(i)
      && |t3.parts.data| == 2 && Shows(t3.parts.data[1], t3.images, Image(i, b))
  {
    hide Inv; hide Set; hide Transparent; hide Owned; hide Filled; hide LosesLiveData;
    FirstStore(n, i);
    GetTextureInv(New(n, 2), i, a, true, true);
    var t1 := GetTexture(New(n, 2), i, a, true, true).0;
    StoreAgain(t1.parts, n, i);
    GetTextureInv(t1, i, b, true, true);
    var t2 := GetTexture(t1, i, b, true, true).0;
    StoreOther(t2.parts, n, i, j);
    LostIsAbsent(t2.parts, j, To(2), i);
  }

  lemma LostIsAbsent(c: Parts<Ptr>, index: nat, p: Ptr, i: nat)
    requires Inv(c) && index < |c.partIndex| && |c.parentIndex| > 0 && LosesLiveData(c, index, p, i)
    ensures c.Resident(i) && !Set(c, index, p).Resident(i)
  {
  }
}
