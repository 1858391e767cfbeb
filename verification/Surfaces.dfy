/**
  Sprite surfaces as opaque tokens: which have been made, where each of them is now, and the
  loops of the texture managers that free them.
 */
module Surfaces {

  /** What was drawn on a surface: a sprite, with a palette or a shadow colour. */
  datatype Image = Image(sprite: nat, palette: int)

  /** A `CSpriteSurface*`: null, or the number of an allocation. */
  datatype Ptr = Null | To(surface: nat)

  /** The surfaces allocated so far, and those deleted, in order. */
  class SurfaceHeap {
    var images: seq<Image>
    var freed: seq<nat>

    constructor ()
      ensures images == [] && freed == []
    {
      images, freed := [], [];
    }

    method New(image: Image) returns (p: nat)
      modifies this
      ensures p == |old(images)| && images == old(images) + [image] && freed == old(freed)
    {
      p := |images|;
      images := images + [image];
    }

    /** `delete`: only for a surface that was allocated and is not deleted yet. */
    method Delete(p: nat)
      requires p < |images| && p !in freed
      modifies this
      ensures freed == old(freed) + [p] && images == old(images)
    {
      freed := freed + [p];
    }
  }

  /** The surfaces in the slots, in order. */
  function InSlots(data: seq<Ptr>): seq<nat> {
    if data == [] then [] else
      InSlots(data[..|data| - 1])
      + match data[|data| - 1] { case Null => [] case To(p) => [p] }
  }

  function Times(q: seq<nat>, p: nat): nat {
    multiset(q)[p]
  }

  /**
    Conservation: of all surfaces ever made each is, exactly once, in a slot, on the list of
    removed ones, or deleted.
   */
  ghost predicate Owned(data: seq<Ptr>, removed: seq<nat>, freed: seq<nat>, made: nat) {
    forall p: nat {:trigger Times(InSlots(data), p)} {:trigger Times(removed, p)} {:trigger Times(freed, p)} ::
      Times(InSlots(data), p) + Times(removed, p) + Times(freed, p) == if p < made then 1 else 0
  }

  function Pointed(p: Ptr): seq<nat> {
    match p { case Null => [] case To(q) => [q] }
  }

  lemma {:induction false} SlotIsListed(data: seq<Ptr>, p: nat)
    requires To(p) in data
    ensures Times(InSlots(data), p) > 0
  {
    if data[|data| - 1] != To(p) {
      SlotIsListed(data[..|data| - 1], p);
    }
  }

  /** A surface in a slot is neither deleted nor about to be. */
  lemma OwnedInSlot(data: seq<Ptr>, removed: seq<nat>, freed: seq<nat>, made: nat, p: nat)
    requires Owned(data, removed, freed, made) && To(p) in data
    ensures p < made && p !in removed && p !in freed
  {
    SlotIsListed(data, p);
    assert Times(removed, p) == 0 && Times(freed, p) == 0;
  }

  lemma TwiceListed(q: seq<nat>, i: nat, j: nat)
    requires i < j < |q| && q[i] == q[j]
    ensures Times(q, q[i]) >= 2
  {
    assert q == q[..j] + q[j..];
    assert q[..j][i] == q[i] && q[j..][0] == q[j];
  }

  /** No surface is deleted twice, nor one that was never made. */
  lemma OwnedDeletedOnce(data: seq<Ptr>, removed: seq<nat>, freed: seq<nat>, made: nat, i: nat, j: nat)
    requires Owned(data, removed, freed, made) && i < j < |freed|
    ensures freed[i] != freed[j] && freed[i] < made
  {
    assert freed[i] in freed;
    assert Times(freed, freed[i]) > 0;
    if freed[i] == freed[j] {
      TwiceListed(freed, i, j);
    }
  }

  lemma InSlotsLast(data: seq<Ptr>, p: nat)
    requires data != []
    ensures Times(InSlots(data), p) == Times(InSlots(data[..|data| - 1]), p) + Times(Pointed(data[|data| - 1]), p)
  {
    assert InSlots(data) == InSlots(data[..|data| - 1]) + Pointed(data[|data| - 1]);
  }

  /** Overwriting a slot exchanges its content. */
  lemma {:induction false} SlotExchanged(data: seq<Ptr>, s: nat, q: Ptr, p: nat)
    requires s < |data|
    ensures Times(InSlots(data[s := q]), p) + Times(Pointed(data[s]), p)
         == Times(InSlots(data), p) + Times(Pointed(q), p)
  {
    hide InSlots; hide Times; hide Pointed;
    var n := |data| - 1;
    InSlotsLast(data, p);
    InSlotsLast(data[s := q], p);
    if s < n {
      SlotExchanged(data[..n], s, q, p);
      assert data[s := q][..n] == data[..n][s := q];
    } else {
      assert data[s := q][..n] == data[..n];
    }
  }

  lemma {:induction false} NullSlots(n: nat)
    ensures InSlots(seq(n, _ => Null)) == []
  {
    if n > 0 {
      NullSlots(n - 1);
      assert seq(n, _ => Null)[..n - 1] == seq(n - 1, _ => Null);
    }
  }

  /** A new surface takes a slot and what was there goes to the list of removed ones. */
  lemma OwnedStore(data: seq<Ptr>, removed: seq<nat>, freed: seq<nat>, made: nat, s: nat)
    requires Owned(data, removed, freed, made) && s < |data|
    ensures Owned(data[s := To(made)], removed + Pointed(data[s]), freed, made + 1)
  {
    forall p: nat ensures Times(InSlots(data[s := To(made)]), p) + Times(removed + Pointed(data[s]), p)
                     + Times(freed, p) == if p < made + 1 then 1 else 0 {
      SlotExchanged(data, s, To(made), p);
    }
  }

  /** A surface that is deleted as soon as it is made. */
  lemma OwnedAborted(data: seq<Ptr>, removed: seq<nat>, freed: seq<nat>, made: nat)
    requires Owned(data, removed, freed, made)
    ensures Owned(data, removed, freed + [made], made + 1)
    ensures made !in freed
  {
    assert Times(freed, made) == 0;
    forall p: nat ensures Times(freed + [made], p) == Times(freed, p) + if p == made then 1 else 0 {
    }
  }

  lemma OwnedFreeSlot(data: seq<Ptr>, removed: seq<nat>, freed: seq<nat>, made: nat, s: nat)
    requires Owned(data, removed, freed, made) && s < |data| && data[s].To?
    ensures data[s].surface < made && data[s].surface !in freed
    ensures Owned(data[s := Null], removed, freed + [data[s].surface], made)
  {
    OwnedInSlot(data, removed, freed, made, data[s].surface);
    forall p: nat ensures Times(InSlots(data[s := Null]), p) + Times(removed, p)
                     + Times(freed + [data[s].surface], p) == if p < made then 1 else 0 {
      SlotExchanged(data, s, Null, p);
    }
  }

  lemma OwnedFreeRemoved(data: seq<Ptr>, removed: seq<nat>, freed: seq<nat>, made: nat)
    requires Owned(data, removed, freed, made) && removed != []
    ensures removed[0] < made && removed[0] !in freed
    ensures Owned(data, removed[1..], freed + [removed[0]], made)
  {
    assert removed == [removed[0]] + removed[1..];
    assert Times(removed, removed[0]) > 0;
    assert Times(freed, removed[0]) == 0;
    forall p: nat ensures Times(removed[1..], p) + Times(freed + [removed[0]], p)
                     == Times(removed, p) + Times(freed, p) {
    }
  }

  lemma InSlotsStep(data: seq<Ptr>, i: nat)
    requires i < |data|
    ensures InSlots(data[..i + 1]) == InSlots(data[..i]) + Pointed(data[i])
  {
    assert data[..i + 1][..i] == data[..i];
  }

  /** `delete m_pData[i]`, unless it is null, and the slot set to null. */
  method FreeSlot(data: array<Ptr>, i: nat, heap: SurfaceHeap, ghost removed: seq<nat>)
    requires i < data.Length && Owned(data[..], removed, heap.freed, |heap.images|)
    modifies data, heap
    ensures data[..] == old(data[..])[i := Null]
    ensures heap.freed == old(heap.freed) + Pointed(old(data[i])) && heap.images == old(heap.images)
    ensures Owned(data[..], removed, heap.freed, |heap.images|)
  {
    if data[i].To? {
      OwnedFreeSlot(data[..], removed, heap.freed, |heap.images|, i);
      heap.Delete(data[i].surface);
      data[i] := Null;
    }
  }

  /** The loop that deletes what is in the slots and clears them. */
  method FreeSlots(data: array<Ptr>, heap: SurfaceHeap, ghost removed: seq<nat>)
    requires Owned(data[..], removed, heap.freed, |heap.images|)
    modifies data, heap
    ensures data[..] == seq(data.Length, _ => Null)
    ensures heap.freed == old(heap.freed) + InSlots(old(data[..])) && heap.images == old(heap.images)
    ensures Owned(data[..], removed, heap.freed, |heap.images|)
  {
    ghost var was := data[..];
    for i := 0 to data.Length
      invariant forall j :: 0 <= j < data.Length ==> data[..][j] == if j < i then Null else was[j]
      invariant heap.freed == old(heap.freed) + InSlots(was[..i]) && heap.images == old(heap.images)
      invariant Owned(data[..], removed, heap.freed, |heap.images|)
    {
      InSlotsStep(was, i);
      FreeSlot(data, i, heap, removed);
    }
    assert was[..data.Length] == was;
  }

  /** `DeleteRemoved`: the loop over the list, which the caller then clears. */
  method FreeList(removed: seq<nat>, heap: SurfaceHeap, ghost data: seq<Ptr>)
    requires Owned(data, removed, heap.freed, |heap.images|)
    modifies heap
    ensures heap.freed == old(heap.freed) + removed && heap.images == old(heap.images)
    ensures Owned(data, [], heap.freed, |heap.images|)
  {
    for i := 0 to |removed|
      invariant heap.freed == old(heap.freed) + removed[..i] && heap.images == old(heap.images)
      invariant Owned(data, removed[i..], heap.freed, |heap.images|)
    {
      OwnedFreeRemoved(data, removed[i..], heap.freed, |heap.images|);
      assert removed[i..][1..] == removed[i + 1..];
      heap.Delete(removed[i]);
    }
  }
}
