/** `CShadowPartManager`: the methods that update the cache and the surfaces. */
module ShadowPartManagers {
  import opened PartCache
  import opened PartManagers
  import opened SurfaceCache
  import opened Surfaces
  import opened Shadows

  class ShadowPartManager {
    const parts: PartManager<Ptr>
    const heap: SurfaceHeap
    var drawable: seq<bool>     // which sprites of the pack are not empty
    var listRemoved: seq<nat>

    ghost function Snapshot(): Shadow
      reads this, parts, parts.Repr(), heap
    {
      Shadow(parts.Snapshot(), listRemoved, heap.freed, heap.images)
    }

    ghost predicate Valid()
      reads this, parts, parts.Repr(), heap
    {
      && parts.Linkage() && parts.nullData == Null
      && |drawable| == parts.partIndex.Length
      && ShadowInv(Snapshot())
    }

    /** The tables are updated in place, not allocated anew. */
    twostate predicate SameTables()
      reads this, parts
    {
      && parts.Repr() == old(parts.Repr())
      && parts.partIndex == old(parts.partIndex) && parts.parentIndex == old(parts.parentIndex)
    }

    constructor (drawable: seq<bool>, partSize: nat)
      requires |drawable| <= NONE && partSize <= NONE
      ensures Valid() && fresh(parts) && fresh(heap)
      ensures fresh(parts.Repr())
      ensures Snapshot() == New(|drawable|, partSize) && this.drawable == drawable
    {
      hide PartCache.Inv; hide Exact; hide Linked; hide Filled; hide Depicted; hide Owned;
      var p := new PartManager<Ptr>(Null);
      var h := new SurfaceHeap();
      p.Init(|drawable|, partSize);
      parts, heap := p, h;
      listRemoved := [];
      this.drawable := drawable;
      new;
      assert Snapshot() == New(|drawable|, partSize);
    }

    /** `Release`: whatever is in a slot or waiting is deleted. */
    method Release()
      requires Valid()
      modifies this, parts.data, heap
      ensures heap.freed == old(heap.freed) + InSlots(old(parts.data[..])) + old(listRemoved)
      ensures parts.data[..] == seq(parts.data.Length, _ => Null) && listRemoved == []
      ensures drawable == old(drawable) && heap.images == old(heap.images)
    {
      hide PartCache.Inv; hide Exact; hide Linked; hide Filled; hide Depicted; hide Owned;
      FreeSlots(parts.data, heap, listRemoved);
      FreeList(listRemoved, heap, parts.data[..]);
      listRemoved := [];
    }

    method Init(drawable: seq<bool>, partSize: nat)
      requires Valid() && |drawable| <= NONE && partSize <= NONE
      modifies this, parts, parts.data, heap
      ensures Valid() && fresh(parts.Repr() - {parts})
      ensures Snapshot() == Reinit(old(Snapshot()), |drawable|, partSize) && this.drawable == drawable
    {
      hide PartCache.Inv; hide Exact; hide Linked; hide Filled; hide Depicted; hide Owned; hide InSlots;
      ReinitInv(Snapshot(), |drawable|, partSize);
      Release();
      this.drawable := drawable;
      parts.Init(|drawable|, partSize);
    }

    method DeleteRemoved()
      requires Valid()
      modifies this, heap
      ensures Valid() && Snapshot() == Shadows.DeleteRemoved(old(Snapshot())) && drawable == old(drawable)
    {
      hide PartCache.Inv; hide Exact; hide Linked; hide Filled; hide Depicted; hide Owned;
      DeleteRemovedInv(Snapshot());
      FreeList(listRemoved, heap, parts.data[..]);
      listRemoved := [];
    }

    /** The slots are freed and the cache starts anew; the removed surfaces are freed last. */
    method Clear()
      requires Valid()
      modifies this, parts, parts.data, heap
      ensures Valid() && fresh(parts.Repr() - {parts})
      ensures drawable == old(drawable)
      ensures Snapshot() == Shadows.Clear(old(Snapshot()))
    {
      hide PartCache.Inv; hide Exact; hide Linked; hide Filled; hide Depicted; hide Owned; hide InSlots;
      InvSizes(parts.Snapshot());
      ReinitInv(Snapshot(), parts.partIndex.Length, parts.parentIndex.Length);
      FreeSlots(parts.data, heap, listRemoved);
      ghost var slots := parts.data[..];
      parts.Init(parts.partIndex.Length, parts.parentIndex.Length);
      FreeList(listRemoved, heap, slots);
      listRemoved := [];
      assert |parts.Snapshot().partIndex| == parts.partIndex.Length;
      assert Snapshot() == Shadows.Clear(old(Snapshot()));
    }

    /** A drawn surface is stored; what it replaces waits to be deleted. */
    method StoreSurface(id: nat, surface: nat)
      requires parts.Valid() && id < parts.partIndex.Length && parts.parentIndex.Length > 0
      modifies this, parts, parts.Repr()
      ensures parts.Valid() && drawable == old(drawable) && SameTables()
      ensures parts.Snapshot() == Set(old(parts.Snapshot()), id, To(surface))
      ensures listRemoved == old(listRemoved + Replaced(parts.Snapshot()))
    {
      hide PartCache.Inv; hide Linked; hide Set;
      var oldIndex, evicted := parts.SetData(id, To(surface), Null);
      if oldIndex != NONE && evicted != Null {
        listRemoved := listRemoved + [evicted.surface];
      }
    }

    /** A new surface is drawn and stored, unless the sprite is empty or the surface cannot be locked. */
    method Render(id: nat, colour: int, locks: bool) returns (p: Ptr)
      requires Valid() && id < |drawable| && parts.parentIndex.Length > 0
      requires !parts.Snapshot().Resident(id)
      modifies this, parts, parts.Repr(), heap
      ensures parts.Linkage() && drawable == old(drawable) && SameTables()
      ensures (Snapshot(), p) == Shadows.GetTexture(old(Snapshot()), id, colour, old(drawable[id]), locks)
    {
      hide PartCache.Inv; hide Exact; hide Linked; hide Set; hide Filled; hide Depicted; hide Owned;
      if !drawable[id] {
        return Null;
      }
      OwnedAborted(parts.data[..], listRemoved, heap.freed, |heap.images|);
      var surface := heap.New(Image(id, colour));
      if !locks {
        heap.Delete(surface);
        return Null;
      }
      StoreSurface(id, surface);
      return To(surface);
    }

    /** The texture that the sprite has in its slot. */
    method Reuse(id: nat) returns (p: Ptr)
      requires Valid() && id < |drawable| && parts.Snapshot().Resident(id)
      modifies parts, parts.Repr()
      ensures parts.Linkage() && SameTables()
      ensures parts.Snapshot() == Get(old(parts.Snapshot()), id)
      ensures p == old(parts.Snapshot().data[parts.partIndex[id]])
    {
      hide Exact; hide Linked; hide Depicted; hide Owned; hide Get; hide Filled;
      var found, surface := parts.GetData(id, Null);
      p := surface;
    }

    /** The shadow of sprite `id`; it is drawn in `colour` if it has to be drawn. */
    method GetTexture(id: nat, colour: int, locks: bool) returns (p: Ptr)
      requires Valid() && id < |drawable| && parts.parentIndex.Length > 0
      modifies this, parts, parts.Repr(), heap
      ensures Valid() && drawable == old(drawable) && SameTables()
      ensures (Snapshot(), p) == Shadows.GetTexture(old(Snapshot()), id, colour, old(drawable[id]), locks)
    {
      hide PartCache.Inv; hide Exact; hide Linked; hide Set; hide Get; hide Filled; hide Depicted; hide Owned;
      GetTextureInv(Snapshot(), id, colour, drawable[id], locks);
      var absent := parts.IsDataNull(id);
      if absent {
        p := Render(id, colour, locks);
      } else {
        p := Reuse(id);
      }
    }
  }
}
