/** `CTexturePartManager`: the methods that update the cache, the palettes and the surfaces. */
module TexturePartManagers {
  import opened PartCache
  import opened PartManagers
  import opened SurfaceCache
  import opened Surfaces
  import opened Textures

  /** Width and height of a sprite of the pack. */
  datatype Size = Size(width: nat, height: nat)

  predicate Drawable(size: Size) {
    size.width != 0 && size.height != 0
  }

  class TexturePartManager {
    const parts: PartManager<Ptr>
    const heap: SurfaceHeap
    var sprites: seq<Size>
    var history: map<nat, int>
    var listRemoved: seq<nat>

    ghost function Snapshot(): Tex
      reads this, parts, parts.Repr(), heap
    {
      Tex(parts.Snapshot(), history, listRemoved, heap.freed, heap.images)
    }

    ghost predicate Valid()
      reads this, parts, parts.Repr(), heap
    {
      && parts.Linkage() && parts.nullData == Null
      && |sprites| == parts.partIndex.Length
      && TexInv(Snapshot())
    }

    /** The tables are updated in place, not allocated anew. */
    twostate predicate SameTables()
      reads this, parts
    {
      && parts.Repr() == old(parts.Repr())
      && parts.partIndex == old(parts.partIndex) && parts.parentIndex == old(parts.parentIndex)
    }

    constructor (sprites: seq<Size>, partSize: nat)
      requires |sprites| <= NONE && partSize <= NONE
      ensures Valid() && fresh(parts) && fresh(heap)
      ensures fresh(parts.Repr())
      ensures Snapshot() == New(|sprites|, partSize) && this.sprites == sprites
    {
      hide PartCache.Inv; hide Linked; hide Filled; hide Transparent; hide Owned;
      var p := new PartManager<Ptr>(Null);
      var h := new SurfaceHeap();
      p.Init(|sprites|, partSize);
      parts, heap := p, h;
      history, listRemoved := map[], [];
      this.sprites := sprites;
      new;
      assert Snapshot() == New(|sprites|, partSize);
    }

    /** `Release`: whatever is in a slot or waiting is deleted. */
    method Release()
      requires Valid()
      modifies this, parts.data, heap
      ensures Owned(parts.data[..], listRemoved, heap.freed, |heap.images|)
      ensures heap.freed == old(heap.freed) + InSlots(old(parts.data[..])) + old(listRemoved)
      ensures parts.data[..] == seq(parts.data.Length, _ => Null) && listRemoved == []
      ensures sprites == old(sprites) && history == old(history) && heap.images == old(heap.images)
    {
      hide PartCache.Inv; hide Linked; hide Filled; hide Transparent; hide Owned;
      FreeSlots(parts.data, heap, listRemoved);
      FreeList(listRemoved, heap, parts.data[..]);
      listRemoved := [];
    }

    method Init(sprites: seq<Size>, partSize: nat)
      requires Valid() && |sprites| <= NONE && partSize <= NONE
      modifies this, parts, parts.data, heap
      ensures Valid() && fresh(parts.Repr() - {parts})
      ensures Snapshot() == Reinit(old(Snapshot()), |sprites|, partSize) && this.sprites == sprites
    {
      hide PartCache.Inv; hide Linked; hide Filled; hide Transparent; hide Owned;
      ReinitInv(Snapshot(), |sprites|, partSize);
      Release();
      this.sprites := sprites;
      parts.Init(|sprites|, partSize);
    }

    method DeleteRemoved()
      requires Valid()
      modifies this, heap
      ensures Valid() && Snapshot() == Textures.DeleteRemoved(old(Snapshot())) && sprites == old(sprites)
    {
      hide PartCache.Inv; hide Linked; hide Filled; hide Transparent; hide Owned;
      DeleteRemovedInv(Snapshot());
      FreeList(listRemoved, heap, parts.data[..]);
      listRemoved := [];
    }

    method Clear()
      requires Valid()
      modifies this, parts, parts.data, heap
      ensures Valid() && fresh(parts.Repr() - {parts})
      ensures Snapshot() == Textures.Clear(old(Snapshot())) && sprites == old(sprites)
    {
      hide PartCache.Inv; hide Linked; hide Filled; hide Transparent; hide Owned;
      InvSizes(parts.Snapshot());
      ClearInv(Snapshot());
      DeleteRemoved();
      FreeSlots(parts.data, heap, listRemoved);
      parts.Init(parts.partIndex.Length, parts.parentIndex.Length);
      assert |parts.Snapshot().partIndex| == parts.partIndex.Length;
      assert Snapshot() == Textures.Clear(old(Snapshot()));
    }

    /** For a resident sprite, the palette that its surface shows. */
    method GetUsedPalette(id: nat) returns (palette: int)
      ensures palette == UsedPalette(history, id)
      ensures palette == if id in history then history[id] else -1
      ensures Valid() && parts.Snapshot().Resident(id) ==>
        var c := parts.Snapshot();
        c.partIndex[id] < |c.data| && Shows(c.data[c.partIndex[id]], heap.images, Image(id, palette))
    {
      if id in history {
        return history[id];
      }
      return -1;
    }

    /** A drawn surface is stored; what it replaces waits to be deleted. */
    method StoreSurface(id: nat, index: int, surface: nat)
      requires parts.Valid() && id < parts.partIndex.Length && parts.parentIndex.Length > 0
      modifies this, parts, parts.Repr()
      ensures parts.Valid() && sprites == old(sprites) && SameTables()
      ensures parts.Snapshot() == Set(old(parts.Snapshot()), id, To(surface))
      ensures history == old(history)[id := index]
      ensures listRemoved == old(listRemoved + Replaced(parts.Snapshot()))
    {
      hide PartCache.Inv; hide Linked; hide Set;
      var oldIndex, evicted := parts.SetData(id, To(surface), Null);
      history := history[id := index];
      if oldIndex != NONE && evicted != Null {
        listRemoved := listRemoved + [evicted.surface];
      }
    }

    /** A new surface is drawn and stored, unless the sprite is empty or the surface cannot be locked. */
    method Render(id: nat, index: int, locks: bool) returns (p: Ptr)
      requires Valid() && id < |sprites| && parts.parentIndex.Length > 0
      requires !Hit(Snapshot(), id, index)
      modifies this, parts, parts.Repr(), heap
      ensures parts.Linkage() && sprites == old(sprites) && SameTables()
      ensures var drawable := old(sprites[id].width != 0 && sprites[id].height != 0);
        (Snapshot(), p) == Textures.GetTexture(old(Snapshot()), id, index, drawable, locks)
    {
      hide PartCache.Inv; hide Linked; hide Set; hide Filled; hide Transparent; hide Owned;
      if !Drawable(sprites[id]) {
        return Null;
      }
      OwnedAborted(parts.data[..], listRemoved, heap.freed, |heap.images|);
      var surface := heap.New(Image(id, index));
      if !locks {
        heap.Delete(surface);
        return Null;
      }
      StoreSurface(id, index, surface);
      return To(surface);
    }

    /** The texture that the sprite has in its slot. */
    method Reuse(id: nat, index: int) returns (p: Ptr)
      requires Valid() && id < |sprites| && Hit(Snapshot(), id, index)
      modifies `history, parts, parts.Repr()
      ensures parts.Linkage() && SameTables()
      ensures parts.Snapshot() == Get(old(parts.Snapshot()), id) && history == old(history)[id := index]
      ensures p == old(parts.Snapshot().data[parts.partIndex[id]])
    {
      hide Linked; hide Transparent; hide Owned; hide Get; hide Filled;
      history := history[id := index];
      var found, surface := parts.GetData(id, Null);
      p := surface;
    }

    /**
      The texture of sprite `id` in palette `index`. `locks` tells whether a new surface could be
      locked for drawing.
     */
    method GetTexture(id: nat, index: int, locks: bool) returns (p: Ptr)
      requires Valid() && id < |sprites| && parts.parentIndex.Length > 0
      modifies this, parts, parts.Repr(), heap
      ensures Valid() && sprites == old(sprites) && SameTables()
      ensures var drawable := old(sprites[id].width != 0 && sprites[id].height != 0);
        (Snapshot(), p) == Textures.GetTexture(old(Snapshot()), id, index, drawable, locks)
    {
      hide PartCache.Inv; hide Linked; hide Set; hide Get; hide Filled; hide Transparent; hide Owned;
      GetTextureInv(Snapshot(), id, index, Drawable(sprites[id]), locks);
      var absent := parts.IsDataNull(id);
      var palette := GetUsedPalette(id);
      if !absent && palette == index {
        p := Reuse(id, index);
      } else {
        p := Render(id, index, locks);
      }
    }
  }
}
