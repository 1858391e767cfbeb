# The stateful core of the dkrix client, verified

A Dafny 4.11 model of the parts of the client that hold algorithms rather than I/O: the part cache and
the texture managers on top of it, the palette sprite codec, the append-patch engine, the bit reservoir
of the MP3 decoder, the fixed-timestep update loop, the text-input decoder, the sorted lists and the
message ring. `dafny verify dfyconfig.toml` checks everything.

Each component has two layers. A class with the fields of the C++ class is updated in place by methods
with the loops of the source, and each method is tied to a function of the state it found. What the
component is for is then proved about those functions, one call or any run of calls at a time.

**The part cache** (`Recency`, `PartCache`, `PartStamps`, `PartBreakingRun`, `Lru`, `PartRuns`, `PartManager`). A
`CPartManager` maps indices to a limited number of slots. It keeps a forward and a reverse table, a list
of slots with saved iterators into it, and time stamps that the list replaced. The list is modelled with
its nodes, told apart by when they were allocated, and the saved iterators as references to them, so that
erasing through an iterator is erasing that node. `Lru` defines least-recently-used replacement from the
trace of uses alone; `PartRuns` proves that runs of the cache are runs of it and that a larger cache
never misses where a smaller one hits. `PartStamps` shows for how long list and stamps agree, and what the
renormalisation of a full counter does to that.

**The texture managers** (`Surfaces`, `SurfaceCache`, `Textures`, `TexturePartManager`, `Shadows`,
`ShadowPartManager`). A surface is a token of a heap that records what was drawn on it and which surfaces
were deleted; deleting a surface twice is a failed precondition, so that none of the loops does. The
texture manager sets an index again when it is asked for another palette, which leaves an orphaned slot
behind; transparency and ownership hold all the same. It is, like the shadow manager, a least-recently-used
cache exactly as long as no palette change orphans a slot. Runs are of `GetTexture`, `Clear`, `DeleteRemoved` and
`Init` calls in any order.

**Sprites** (`SpriteCodec`, `SpriteDraw`, `SpriteFile`, `SpritePal`, `Streams`). The meaning of a sprite is its
rows of palette indices; coding, drawing, saving and loading are proved against that. A surface is a block of
bytes, so that any pitch will do, an odd or a negative one too. The source reads files without asking whether
they end early; `Streams` models what it then gets as the file going on with what memory held.

**Patches** (`PatchFiles`, `PatchResult`, `AppendPatch`). Files are byte sequences in a map from names. A
run of a patch is a sequence of one-byte writes and removals, so that it can be cut off anywhere.

**Bits** (`BitStream`, `BitReserve`). The reservoir of ISO/IEC 11172-3 (sections 2.4.2.7 and 2.4.3.4) keeps
the last 4096 bytes in a ring, with 32-bit counters that wrap. The position in the unbounded stream is kept
beside them.

**The loops** (`UpdateClock`, `TextInput`, `OrderedList`, `PositionList`, `MessageArray`). `Bytes`, `Lists` and
`Options` are shared.

Where a property fails the model keeps the code as it is and states when it holds:

- Setting a resident index orphans its slot unless it is the slot taken anyway (`PartCache.SetExactIff`). A
  store makes an index absent whose data stay in a used slot exactly when it takes an orphaned slot of that
  index (`PartCache.OrphanUnmaps`); two calls with two palettes and a third one for another sprite get there
  (`Textures.PaletteChangeLosesSprite`). The texture manager holds the sprites answered most recently at every point
  of a run exactly if each resident sprite drawn again had the slot taken (`Textures.RunHoldsMostRecent`).
- The renormalisation zeroes the least stamp before it has subtracted it from the slots behind it. On a full
  cache the order survives exactly if the stamps are spread (`PartStamps.RenormalisationKeepsOrder`), and
  afterwards the next use of any slot but the newest makes a tie (`PartStamps.RenormalisationTies`). A run from
  `Init` in which 0xFFFFFFFF calls stamp a slot breaks it (`PartBreakingRun.BreaksFromInit`), and none with fewer
  of them does, however many look-ups find nothing (`PartStamps.FastFormRefinesSlowForm`).
- If it is `SetData` that brings the counter to its limit there is no renormalisation: the counter wraps with
  the next use, and with the one after that the order is lost unless a single slot is in use
  (`PartStamps.SetMissesTheLimit`); a run from `Init` gets there (`PartBreakingRun.MissesFromInit`).
- Run lengths, gaps and run counts are bytes: a row decodes exactly if they fit (`SpriteCodec.RowRoundTrip`).
- Row lengths are saved as words: a sprite, and a pack, survive exactly if those of all rows but the last
  fit (`SpriteFile.SaveLoad`, `SpriteFile.PackRoundTrip`). Two opaque rows 65535 pixels wide do not
  (`SpriteFile.WideSpriteIsCut`); of the sprites that can be drawn only those with a row of 255 runs of 255
  pixels do not (`SpriteFile.DrawableSurvivesIff`).
- A pack corrects its count at offset 0 of the file, wherever the pack is (`SpriteFile.PackBehindOtherData`).
- A position list of more than 65535 nodes is cut when saved (`PositionLists.SaveLoad`).
- A tick whose cap is zero counts as capped although nothing is left to do (`UpdateClock.ZeroMeansTimeLeft`).
- The text decoder passes the terminator exactly if it gets to the lead byte of a four-byte character with fewer
  than four bytes left (`TextInput.PassesEndIff`); `F0` alone is such a text, and so is `F0 41`.
- The gap in `CMessageArray::operator []` is a byte: the j-th most recent message is found exactly for j below 255,
  and for the oldest one if 256 divides the number of slots (`MessageArrays.OneIndexRightIff`), and so all of them
  exactly up to 256 slots (`MessageArrays.IndexRightIff`).
- A sprite assigned to itself is released first and becomes empty (`SpritePals.CSpritePal.Assign`).

## Model

| member | source | states |
|---|---|---|
| `PartManagers.PartManager.Init` | dkrix/Client/CPartManager.h:202-252 | whatever was held before, the cache is empty again, with as many slots as asked for but no more than indices |
| `PartManagers.PartManager.IsDataNull` | dkrix/Client/CPartManager.h:100 | true exactly for the indices that have no slot |
| `PartManagers.PartManager.GetLRU` | dkrix/Client/CPartManager.h:533-581 | reading the back node of the linked list gives the slot the specification evicts, a free one first |
| `PartManagers.PartManager.MoveToFront` | dkrix/Client/CPartManager.h:398-403 | erasing through the saved iterator and pushing in front promotes exactly that slot, and leaves every saved iterator at the node of its slot |
| `PartManagers.PartManager.SetData` | dkrix/Client/CPartManager.h:356-430 | the three-argument form: the whole new state, the index that lost its slot, and its data; the tables stay mutually consistent even when a resident index is set again |
| `PartManagers.PartManager.GetData` | dkrix/Client/CPartManager.h:439-526 | found exactly when resident; returns the slot's data and makes it the most recently used, renormalising when the counter is at its limit |
| `PartManagers.PartManager.Renormalise` | dkrix/Client/CPartManager.h:490-520 | the in-place loops lower only the stamps up to the least one, and the counter becomes the lowered greatest stamp |
| `PartManagers.PartManager.Extremes` | dkrix/Client/CPartManager.h:494-509 | the first slot with the least stamp and the first with the greatest |
| `PartManagers.PartManager.LowerBy` | dkrix/Client/CPartManager.h:512-516 | the subtraction, which reads the least stamp anew each time round, stops having an effect once it has zeroed it |
| `PartCache.SetInv` | dkrix/Client/CPartManager.h:356-430 | the list stays a duplicate-free list of exactly the used slots and the forward table stays inverted by the reverse table, even when the index is resident already |
| `PartCache.GetInv` | dkrix/Client/CPartManager.h:439-526 | the same for `GetData`, which also never orphans a slot |
| `PartCache.SetExactIff` | dkrix/Client/CPartManager.h:356-388 | the reverse table stays inverted by the forward one exactly if the index was absent or had the very slot that is taken |
| `PartCache.SetStores` | dkrix/Client/CPartManager.h:356-388 | the index becomes resident with the new data, only the evicted index is lost, and every other one keeps its data |
| `PartCache.OrphanUnmaps` | dkrix/Client/CPartManager.h:365-388 | a store makes an index absent whose data stay in a used slot that names it if and only if that index is resident elsewhere, is not the one stored, and owns the orphaned slot that is taken |
| `PartStamps.RunStamped` | dkrix/Client/CPartManager.h:391-466 | a run in which as many calls stamp a slot as keep the counter below 0xFFFFFFFF leaves the list in strictly falling stamp order and the counter ahead of all stamps by exactly those calls; look-ups that find nothing are free |
| `PartStamps.LruIsOldest` | dkrix/Client/CPartManager.h:535-581 | with all slots used the slot taken has a smaller stamp than every other |
| `PartStamps.FastFormRefinesSlowForm` | dkrix/Client/CPartManager.h:391-581 | from `Init`, as long as fewer than 0xFFFFFFFF calls have stamped a slot, which is what the counter shows, the list gives the slot a search for the least stamp would |
| `PartStamps.RenormalisationKeepsOrder` | dkrix/Client/CPartManager.h:490-520 | on a full cache list and stamps still agree exactly if no slot before the least one is ahead of a later slot by no more than the least stamp |
| `PartStamps.RenormalisationOfPartlyUsed` | dkrix/Client/CPartManager.h:490-520 | while a slot is unused the subtraction changes nothing |
| `PartStamps.RenormalisationCanBreakOrder` | dkrix/Client/CPartManager.h:490-520 | a full cache at the limit in which the newest of three slots ends up older than another |
| `PartBreakingRun.BreaksFromInit` | dkrix/Client/CPartManager.h:202-526 | a run from `Init` in which exactly 0xFFFFFFFF calls stamp a slot leads to that state, and its last call loses the order: the bound of `FastFormRefinesSlowForm` is the best possible |
| `PartBreakingRun.LookUpsAgain` | dkrix/Client/CPartManager.h:439-466 | any number of look-ups of the newest index only moves its stamp and the counter |
| `PartStamps.RenormalisationTies` | dkrix/Client/CPartManager.h:454-520 | the use that follows keeps the order strict exactly if it is of the newest slot |
| `PartStamps.SetMissesTheLimit` | dkrix/Client/CPartManager.h:391-490 | after a store that brings the counter to 0xFFFFFFFF the next use, whichever, makes it 0, and the use after that, whichever, keeps the list in stamp order if and only if a single slot is in use |
| `PartBreakingRun.MissesFromInit` | dkrix/Client/CPartManager.h:202-526 | a run from `Init` in which a store reaches the limit and the order is lost without a renormalisation |
| `Lru.MruOrderMeaning` | dkrix/Client/CPartManager.h:60 | the recency order of a trace has exactly the numbers used, later last uses first |
| `Lru.UseHoldsMostRecent` | dkrix/Client/CPartManager.h:60 | a store that moves hits to the front and drops the back on a miss holds the most recently used distinct numbers |
| `Lru.ServeIncluded` | dkrix/Client/CPartManager.h:60 | of two such stores the contents of the smaller stay a subsequence of those of the larger |
| `PartRuns.StepIsServe` | dkrix/Client/CPartManager.h:356-526 | one hit-then-get, miss-then-set access of the cache is one step of least-recently-used replacement |
| `PartRuns.RunHoldsMostRecent` | dkrix/Client/CPartManager.h:356-581 | after any run from `Init` the list has the slots of the most recently served distinct indices, in recency order, as many as there are slots |
| `PartRuns.ResidentAreMostRecent` | dkrix/Client/CPartManager.h:356-581 | an index is resident if and only if it is one of those |
| `PartRuns.EvictsLeastRecent` | dkrix/Client/CPartManager.h:365-388 | when all slots are used the index to be evicted was last served before every other resident one |
| `PartRuns.LargerCacheHoldsMore` | dkrix/Client/CPartManager.h:356-581 | for any run, whatever is resident with fewer slots is resident with more |
| `PartRuns.HeldSetOwn` | dkrix/Client/CPartManager.h:356-430 | setting a resident index whose slot is the one taken anyway is a use of it |
| `PartRuns.HeldSetOrphan` | dkrix/Client/CPartManager.h:356-430 | setting any other resident index makes the list hold it twice |
| `Surfaces.OwnedInSlot` | dkrix/Client/CTexturePartManager.cpp:117-208 | a surface in a slot is neither deleted nor waiting to be |
| `Surfaces.OwnedStore` | dkrix/Client/CTexturePartManager.cpp:423-443 | storing a new surface and queueing the one it replaces keeps every surface in exactly one place |
| `Surfaces.FreeSlots` | dkrix/Client/CTexturePartManager.cpp:127-137 | the loop deletes exactly what is in the slots, each once, and empties them |
| `Surfaces.FreeList` | dkrix/Client/CTexturePartManager.cpp:159-174 | the loop deletes exactly what is on the list, each once |
| `TexturePartManagers.TexturePartManager.Init` | dkrix/Client/CTexturePartManager.cpp:57-110 | all old surfaces are freed and the cache starts anew for the new pack; the palettes are still remembered |
| `TexturePartManagers.TexturePartManager.Release` | dkrix/Client/CTexturePartManager.cpp:117-152 | deletes the surfaces in the slots, then the removed ones, and leaves neither |
| `TexturePartManagers.TexturePartManager.DeleteRemoved` | dkrix/Client/CTexturePartManager.cpp:159-174 | deletes the removed surfaces and nothing a slot still has |
| `TexturePartManagers.TexturePartManager.Clear` | dkrix/Client/CTexturePartManager.cpp:182-208 | frees everything, the removed ones first, and forgets no palette |
| `TexturePartManagers.TexturePartManager.GetUsedPalette` | dkrix/Client/CTexturePartManager.cpp:465-475 | -1 for a sprite never drawn, and for a resident one the palette in which its surface shows it |
| `Textures.PaletteWasAsked` | dkrix/Client/CTexturePartManager.cpp:240-425 | over any run the palette recorded for a sprite is one that a call asked for |
| `TexturePartManagers.TexturePartManager.StoreSurface` | dkrix/Client/CTexturePartManager.cpp:423-443 | the surface is in the slot, its palette is recorded, and what it replaced is queued if anything was |
| `TexturePartManagers.TexturePartManager.GetTexture` | dkrix/Client/CTexturePartManager.cpp:222-462 | all four outcomes: reuse, empty sprite, surface that cannot be locked, new surface stored, with the whole new state of each; keeps the invariants below |
| `Textures.GetTextureInv` | dkrix/Client/CTexturePartManager.cpp:222-462 | every call keeps structure, transparency and ownership, also the one that orphans a slot |
| `Textures.GetTextureTransparent` | dkrix/Client/CTexturePartManager.cpp:222-462 | what is returned shows the sprite in the palette asked for and is not deleted; null exactly if there was no hit and the sprite is empty or the surface cannot be locked |
| `Textures.GetTextureSurfaces` | dkrix/Client/CTexturePartManager.cpp:231-453 | resident in the palette asked for: the surface in the slot and none made; else one is made unless the sprite is empty, and deleted at once if it cannot be locked; nothing else is deleted, and just the surface of the slot taken is queued |
| `Textures.DeleteRemovedDeletes` | dkrix/Client/CTexturePartManager.cpp:159-174 | every waiting surface is deleted once, nothing else is, and none waits any more |
| `Textures.ClearStartsAnew` | dkrix/Client/CTexturePartManager.cpp:57-208 | after `Clear` or `Init` no sprite is resident, no surface waits, and the palettes are remembered |
| `Textures.RunTransparent` | dkrix/Client/CTexturePartManager.cpp:57-475 | the same after any sequence of `GetTexture`, `Clear`, `DeleteRemoved` and `Init`, palette changes of resident sprites included |
| `Textures.RunConserves` | dkrix/Client/CTexturePartManager.cpp:117-462 | over any such sequence every surface is in exactly one of a slot, the removed list and the deleted ones, and none is deleted twice |
| `Textures.ClearFreesEachOnce` | dkrix/Client/CTexturePartManager.cpp:117-208 | after `Clear`, or `Init`, every surface ever made has been deleted exactly once |
| `Textures.SurvivesGetTexture` | dkrix/Client/CTexturePartManager.cpp:423-443 | no number of further `GetTexture` calls deletes a surface that is not deleted: what the deferral is for |
| `Textures.PaletteChangeLosesSprite` | dkrix/Client/CTexturePartManager.cpp:222-443 | with two slots, a sprite asked for in two palettes and then any other sprite: the first is absent again although its texture is still in a slot |
| `Textures.RunIsProtocol` | dkrix/Client/CTexturePartManager.cpp:222-462 | a run in which no resident sprite is asked for in another palette drives the cache by the hit-then-get, miss-then-set protocol, from the last `Clear` or `Init` on |
| `Textures.StepMostRecent` | dkrix/Client/CTexturePartManager.cpp:222-462 | a call that finds the sprites answered most recently in the slots leaves them there if and only if it does not draw a resident sprite again whose slot is not the one taken |
| `Textures.RunHoldsMostRecent` | dkrix/Client/CTexturePartManager.cpp:57-462 | at every point of a run the list has the slots of the sprites answered most recently since the cache was started, in recency order, if and only if each resident sprite drawn again had the slot that was then taken |
| `Textures.SteadyIsHarmless` | dkrix/Client/CTexturePartManager.cpp:222-462 | so it has in every run without palette changes of resident sprites |
| `Textures.OnePaletteIsSteady` | dkrix/Client/CTexturePartManager.cpp:231-240 | a caller who asks for each sprite in one palette only makes such runs |
| `ShadowPartManagers.ShadowPartManager.GetTexture` | dkrix/Client/CShadowPartManager.cpp:236-684 | sets only on a miss; the whole new state of each outcome |
| `ShadowPartManagers.ShadowPartManager.Init` | dkrix/Client/CShadowPartManager.cpp:69-124 | all old surfaces are freed and the cache starts anew for the new pack |
| `ShadowPartManagers.ShadowPartManager.Clear` | dkrix/Client/CShadowPartManager.cpp:197-222 | frees the slots, starts anew, then frees the removed surfaces |
| `ShadowPartManagers.ShadowPartManager.Release` | dkrix/Client/CShadowPartManager.cpp:131-166 | deletes the surfaces in the slots, then the removed ones |
| `ShadowPartManagers.ShadowPartManager.DeleteRemoved` | dkrix/Client/CShadowPartManager.cpp:173-188 | deletes the removed surfaces and keeps the invariants |
| `Shadows.GetTextureTransparent` | dkrix/Client/CShadowPartManager.cpp:236-684 | a returned shadow is of the sprite asked for and not deleted; null exactly on a miss that cannot be rendered |
| `Shadows.GetTextureSurfaces` | dkrix/Client/CShadowPartManager.cpp:245-681 | resident: the surface in the slot and none made; else one is made unless the sprite is empty, and deleted at once if it cannot be locked; nothing else is deleted, and just the surface of the slot taken is queued |
| `Shadows.DeleteRemovedDeletes` | dkrix/Client/CShadowPartManager.cpp:173-188 | every waiting surface is deleted once, nothing else is, and none waits any more |
| `Shadows.GetTextureInv` | dkrix/Client/CShadowPartManager.cpp:236-684 | no call ever orphans a slot, and structure, contents and ownership are kept |
| `Shadows.RunConserves` | dkrix/Client/CShadowPartManager.cpp:69-684 | over any sequence of `GetTexture`, `Clear`, `DeleteRemoved` and `Init` every surface is in exactly one place, and none is deleted twice |
| `Shadows.ReinitFreesEachOnce` | dkrix/Client/CShadowPartManager.cpp:131-222 | after `Clear`, or `Init`, every surface ever made has been deleted exactly once |
| `Shadows.RunIsProtocol` | dkrix/Client/CShadowPartManager.cpp:69-684 | any such sequence drives the cache by the hit-then-get, miss-then-set protocol, from the last `Clear` or `Init` on |
| `Shadows.RunHoldsMostRecent` | dkrix/Client/CShadowPartManager.cpp:173-684 | so it holds the shadows served most recently since then |
| `Shadows.LargerCacheHoldsMore` | dkrix/Client/CShadowPartManager.cpp:69-684 | a manager with more slots has every shadow one with fewer has, after any sequence of the four calls |
| `SpritePals.EncodeInto` | dkrix/Client/CSpritePal.cpp:271-332 | the loop with its back-patched run length leaves the code of the row's runs in the scratch buffer, never beyond w + 1 + (w + 1) / 2 |
| `SpritePals.CodeRows` | dkrix/Client/CSpritePal.cpp:271-345 | every row of the image is coded through the one scratch buffer |
| `SpritePals.SourceRowsAre` | dkrix/Client/CSpritePal.cpp:279-344 | pixel j of row i of the image is byte i * pitch + j of the source |
| `SpriteCodec.ScanLossless` | dkrix/Client/CSpritePal.cpp:282-332 | runs and gaps put back together are the row; no run is empty or has a transparent pixel |
| `SpriteCodec.ScanMaximal` | dkrix/Client/CSpritePal.cpp:282-320 | and there is a gap before each run but the first, so that the runs are the only ones possible |
| `SpriteCodec.RowFormat` | dkrix/Client/CSpritePal.cpp:306-341 | the bytes of a coded row: number of runs, then gap, length and pixels of each in this order, numbers modulo 256 |
| `SpriteCodec.EncoderBound` | dkrix/Client/CSpritePal.cpp:250-342 | how much of the scratch buffer a row can take, from the number of its runs |
| `SpriteCodec.RowRoundTrip` | dkrix/Client/CSpritePal.cpp:282-410 | a coded row, wherever it stands, decodes to its runs if and only if run count, gaps and lengths fit in a byte |
| `SpriteCodec.NarrowFits` | dkrix/Client/CSpritePal.cpp:282-332 | they do for every row of width 255 or less |
| `SpriteCodec.WideRowIsLost` | dkrix/Client/CSpritePal.cpp:290-332 | a row of 256 opaque pixels decodes to nothing |
| `SpriteCodec.DrawableRowLength` | dkrix/Client/CSpritePal.cpp:335-342 | the code of a row that can be decoded is 65536 bytes at most, and that only for 255 runs of 255 pixels |
| `SpriteCodec.BlocksAreFull` | dkrix/Client/CSpritePal.cpp:282-332 | there is such a row, 65280 pixels wide |
| `SpriteDraw.RowsPartition` | dkrix/Client/CSpritePal.cpp:335-357 | each row pointer is where its code starts and the next is where it ends; the first is the start and the last ends the data |
| `SpriteDraw.DrawScanned` | dkrix/Client/CSpritePal.cpp:384-410 | drawing the runs of a row is painting its opaque pixels |
| `SpriteDraw.RowAtIs` | dkrix/Client/CSpritePal.cpp:387 | row i is i * pitch bytes from the first |
| `SpriteDraw.PaintShows` | dkrix/Client/CSpritePal.cpp:365-412 | painting rows one after the other shows every one of them, if they do not overlap on the surface |
| `SpriteDraw.EncodeThenDraw` | dkrix/Client/CSpritePal.cpp:241-412 | after coding and drawing, the two bytes of each opaque pixel p are `pal[p] % 256` and `pal[p] / 256` and every other byte of the surface, transparent, trailing or outside, is as before, for any pitch, negative or odd, that keeps the rows from overlapping |
| `SpriteDraw.NarrowSpritesDraw` | dkrix/Client/CSpritePal.cpp:241-412 | for width 255 or less drawing the code is painting the uncoded rows |
| `SpritePals.EncodedDrawable` | dkrix/Client/CSpritePal.cpp:241-412 | what `SetPixel` makes meets what `Blt` needs wherever the row itself has room |
| `SpritePals.BltRow` | dkrix/Client/CSpritePal.cpp:386-408 | the pointer-chasing loops draw exactly the runs that the row decodes to |
| `SpritePals.BltRun` | dkrix/Client/CSpritePal.cpp:400-403 | the two bytes of pixel k become `pal` of it, low byte first, and no other byte changes |
| `SpritePals.CSpritePal.SetPixel` | dkrix/Client/CSpritePal.cpp:241-363 | width and height as asked for, initialised, the data the codes of all rows one behind the other and the row pointers their starts |
| `SpritePals.CSpritePal.Assemble` | dkrix/Client/CSpritePal.cpp:347-357 | the copy loop fills the data exactly and sets every row pointer |
| `SpritePals.CSpritePal.Blt` | dkrix/Client/CSpritePal.cpp:365-412 | every row is decoded and drawn at its place on the surface, for any pitch |
| `SpritePals.SetPixelAndBlt` | dkrix/Client/CSpritePal.cpp:241-412 | `SetPixel` followed by `Blt`: for every row i and column j the pixel at `pDest + (y + i) * pitch + 2 * (x + j)` shows `pal` of byte `i * sourcePitch + j` of the source or, if that is the colour key, what was there, and every other byte is as before, wherever the rows fit the code, have room and do not overlap |
| `SpritePals.CSpritePal.SaveToFile` | dkrix/Client/CSpritePal.cpp:453-493 | appends the format and is true exactly for an initialised sprite with data; otherwise writes nothing |
| `SpriteFile.SpriteFormat` | dkrix/Client/CSpritePal.cpp:466-490 | the bytes of a saved sprite: size, width, height, data, and for each row the distance to the next, or to the end, modulo 65536, all low byte first |
| `Streams.InStream.Read` | dkrix/Client/CSpritePal.cpp:418-436 | the bytes of the file, and behind its end what was in memory |
| `SpritePals.CSpritePal.LoadFromFile` | dkrix/Client/CSpritePal.cpp:414-451 | the sprite the file holds, row starts rebuilt by adding up lengths; of a file that ends early, the sprite it would hold if it went on with zeros for the members and memory for the blocks, and success is claimed all the same |
| `SpritePals.RebuildStarts` | dkrix/Client/CSpritePal.cpp:438-444 | adding up the lengths read gives the prefix sums |
| `SpritePals.CSpritePal.Assign` | dkrix/Client/CSpritePal.cpp:495-515 | a copy with its own storage; a sprite assigned to itself becomes empty |
| `SpritePals.CSpritePal.Release` | dkrix/Client/CSpritePal.cpp:218-233 | an empty sprite that is not initialised |
| `SpritePals.CSpritePal.SetEmptySprite` | dkrix/Client/CSpritePal.cpp:235-239 | an empty sprite that counts as initialised |
| `SpriteFile.StartsRestored` | dkrix/Client/CSpritePal.cpp:438-492 | prefix sums of the saved lengths are the row starts if and only if no length but the last was cut |
| `SpriteFile.SaveLoad` | dkrix/Client/CSpritePal.cpp:414-493 | loading finds exactly the bytes saved, and the same sprite if and only if no row length was cut |
| `SpriteFile.NarrowSpriteSurvives` | dkrix/Client/CSpritePal.cpp:241-493 | what `SetPixel` makes of rows of width 255 or less always survives |
| `SpriteFile.MadeSurvivesIff` | dkrix/Client/CSpritePal.cpp:241-493 | what `SetPixel` makes survives if and only if the code of every row but the last is shorter than 65536 bytes |
| `SpriteFile.DrawableSurvivesIff` | dkrix/Client/CSpritePal.cpp:241-493 | a sprite that can be drawn survives if and only if no row but the last is 255 runs of 255 pixels |
| `SpriteFile.SolidRowIsCut` | dkrix/Client/CSpritePal.cpp:335-492 | a row of 65533 opaque pixels or more with a row behind it does not survive |
| `SpriteFile.WideSpriteIsCut` | dkrix/Client/CSpritePal.cpp:241-493 | two opaque rows of width 65535 are such a sprite |
| `SpriteFile.PackRoundTrip` | dkrix/Client/CSpritePal.cpp:569-609 | a pack saved at the start of a file holds, low byte first, the number of its sprites that are initialised and have data, and loads as just these, at increasing positions of the pack, each as it was but for row starts; exactly as it was if and only if no row length was cut |
| `SpriteFile.KeptChosen` | dkrix/Client/CSpritePal.cpp:592-598 | which sprites these are |
| `SpriteFile.PackBehindOtherData` | dkrix/Client/CSpritePal.cpp:600-606 | behind other data the pack starts with the uncorrected count, which is right if and only if no sprite was left out; the corrected one overwrites the start of the file |
| `SpritePals.SavePackToFile` | dkrix/Client/CSpritePal.cpp:587-609 | the loop over sprites writes the pack, and goes back to the start of the file to correct the count |
| `SpritePals.LoadPackFromFile` | dkrix/Client/CSpritePal.cpp:569-585 | the sprites the file holds, as many as its count says; of a file that ends early, those it would hold if it went on with what memory held |
| `PatchFiles.RewriteAfterPart` | dkrix/Client/AppendPatchInfo.cpp:50-74 | writing the same bytes again after any part of them was written ends in the same file |
| `PatchFiles.NodeCutOff` | dkrix/Client/AppendPatchInfo.cpp:36-86 | a node stopped after any byte, header bytes included, is done over with the result of an undisturbed one |
| `PatchFiles.Resumes` | dkrix/Client/AppendPatchInfo.cpp:344-362 | running again after any number of steps of a run gives the same files and the same answer as one uninterrupted run |
| `PatchFiles.ResumesAfterCrashes` | dkrix/Client/AppendPatchInfo.cpp:344-362 | the same after any number of interrupted runs |
| `PatchFiles.NothingLeftToDo` | dkrix/Client/AppendPatchInfo.cpp:344-362 | a run after a successful one takes no step and succeeds |
| `PatchFiles.RemovedPrefix` | dkrix/Client/AppendPatchInfo.cpp:68-86 | at every step the files gone are exactly those of a prefix of the nodes |
| `PatchFiles.ExecIsOps` | dkrix/Client/AppendPatchInfo.cpp:344-362 | the outcome of a run is that of its one-byte and removal steps in order |
| `AppendPatches.Append` | dkrix/Client/AppendPatchInfo.cpp:17-87 | the copy loop in blocks and the header write take exactly the node's steps in that order; false only for a missing original file |
| `AppendPatches.CopyPayload` | dkrix/Client/AppendPatchInfo.cpp:50-66 | copying in blocks of 4096 from offset 2 writes `f[2..]`, in order, at the write position, and nothing of a shorter file |
| `PatchFiles.NodeBytes` | dkrix/Client/AppendPatchInfo.cpp:36-78 | what a node leaves in the original file, byte by byte, for any write position: the little-endian after-count, the bytes of the append file from its third on where they are written, and else what was there, or zeros; no other file changes |
| `PatchFiles.ShortOriginalUntouched` | dkrix/Client/AppendPatchInfo.cpp:46-78 | without a count in the original, or with a write position before its start, nothing is written and the append file is removed all the same |
| `AppendPatches.AppendPatch.ExecutePatch` | dkrix/Client/AppendPatchInfo.cpp:344-362 | takes exactly the steps of the patch, stopping at the first node that fails; when the recorded sizes are right and the files there it succeeds and the original file is the patched one |
| `PatchFiles.SucceedsIff` | dkrix/Client/AppendPatchInfo.cpp:344-362 | it fails exactly if an append file is there and the original is not |
| `AppendPatches.AppendPatch.AddAppendInfo` | dkrix/Client/AppendPatchInfo.cpp:213-248 | the new node starts where the last one ends, ends `size - 2` further and counts on modulo 65536, so that a chain stays one |
| `AppendPatches.AppendPatch.SetOriginalInfo` | dkrix/Client/AppendPatchInfo.cpp:164-171 | nodes already chained stay a chain if and only if size and count are what they were |
| `AppendPatches.AppendPatch.SetFinalInfo` | dkrix/Client/AppendPatchInfo.cpp:176-181 | for a chain, `CalculateFinalInfo` is true from then on if and only if the info is the after-values of the last node |
| `AppendPatches.AppendPatch.CheckFinalInfo` | dkrix/Client/AppendPatchInfo.cpp:367-394 | first two bytes, low one first, and length of the file against the final info; true without a file |
| `AppendPatches.AppendPatch.CalculateFinalInfo` | dkrix/Client/AppendPatchInfo.cpp:401-426 | true exactly if the final info is original size plus all sizes less 2 and the sum of all counts modulo 65536 |
| `PatchResult.AddKeepsChained` | dkrix/Client/AppendPatchInfo.cpp:213-248 | appending by `AddAppendInfo` keeps every write position the end of the node before |
| `PatchResult.ChainFixesStart` | dkrix/Client/AppendPatchInfo.cpp:213-248 | a chain that is not empty fits one original size and count only |
| `PatchResult.PatchedFile` | dkrix/Client/AppendPatchInfo.cpp:36-86 | with all files there and their sizes as recorded, the result is the last node's count as two bytes, low one first, then `org[2..]`, then `[2..]` of each append file, in order; its length is the last after-size |
| `PatchResult.EndIsSum` | dkrix/Client/AppendPatchInfo.cpp:213-248 | the last after-values are the original ones plus all sizes less 2 and plus all counts modulo 65536 |
| `PatchResult.WritesAtTheEnd` | dkrix/Client/AppendPatchInfo.cpp:51-62 | each write position is the length of the file at that step |
| `PatchResult.SumsAreEnds` | dkrix/Client/AppendPatchInfo.cpp:401-426 | the sums over a chain are the after-values of its last node |
| `PatchResult.ChecksAgree` | dkrix/Client/AppendPatchInfo.cpp:367-426 | after such a patch both checks are true exactly if the final info is the after-values of the last node |
| `BitStream.BitsConcat` | dkrix/Client/BIT_RES.CPP:87-112 | reading a + b bits is reading a bits and then b |
| `BitStream.AlignedByte` | dkrix/Client/BIT_RES.CPP:105-109 | eight bits from the start of a byte are that byte |
| `BitStream.Chunk` | dkrix/Client/BIT_RES.CPP:102-109 | a mask and a shift take the next unread bits of the current byte |
| `BitReserve.RingHasStream` | dkrix/Client/BIT_RES.CPP:105 | within the last 4096 bytes put the ring has the bits of the unbounded stream |
| `BitReserve.PutKeepsRecent` | dkrix/Client/BIT_RES.CPP:115-119 | a byte put overwrites only the one 4096 before it |
| `BitReserve.Bit_Reserve.constructor` | dkrix/Client/BIT_RES.CPP:62-78 | an empty stream read from its start |
| `BitReserve.Bit_Reserve.HPutBuf` | dkrix/Client/BIT_RES.CPP:115-119 | the stream is one byte longer and the read position where it was |
| `BitReserve.Bit_Reserve.HGetBits` | dkrix/Client/BIT_RES.CPP:87-112 | the next n bits of the stream, most significant first, and `totbit` still the position modulo 2^32, at the 0/8 alias and across wrapped counters too |
| `BitReserve.Bit_Reserve.RewindNBits` | dkrix/Client/BIT_RES.CPP:121-129 | the position is n bits back and the counters agree |
| `BitReserve.Bit_Reserve.RewindNBytes` | dkrix/Client/BIT_RES.CPP:131-135 | the position is n bytes back and the counters agree |
| `BitReserve.ReadInTwo` | dkrix/Client/BIT_RES.CPP:87-112 | two calls return the two halves of what one would |
| `BitReserve.RewindAndReread` | dkrix/Client/BIT_RES.CPP:87-129 | bits rewound over are read again the same, with a byte put in between |
| `UpdateClock.Updater.Update` | dkrix/Client/CGameUpdate.cpp:5286-5598 | the do-while over wrapped DWORD times changes `lastTime` and the count as the step over unwrapped times does, for which `UpdateClock.TickCases` writes every case out |
| `UpdateClock.TickCases` | dkrix/Client/CGameUpdate.cpp:5333-5598 | backlog below 62: nothing; early return: the updates made until then; time left or a single update with a cap of zero: one more capped tick, or from the limit on the last time is now and the count 0; otherwise caught up and the count 0 |
| `UpdateClock.DueFacts` | dkrix/Client/CGameUpdate.cpp:5333-5538 | a tick with backlog d runs exactly the smaller of K and d / 62 updates for a positive cap K, all that are due for any other, and at least one |
| `UpdateClock.ZeroMeansTimeLeft` | dkrix/Client/CGameUpdate.cpp:5537-5583 | k ends as zero exactly if 62 ms or more remain, if and only if not K = 0 with a single update due |
| `UpdateClock.NeverAhead` | dkrix/Client/CGameUpdate.cpp:5535-5598 | the time of the last update never goes back nor past the current time |
| `UpdateClock.TimeIsAccountedFor` | dkrix/Client/CGameUpdate.cpp:5286-5598 | over any run its advance is 62 ms an update plus what resyncs dropped |
| `UpdateClock.CountIsStreak` | dkrix/Client/CGameUpdate.cpp:5582-5598 | the counter is the exact number of capped ticks in a row |
| `UpdateClock.ResyncNeedsStreak` | dkrix/Client/CGameUpdate.cpp:5582-5598 | after any run, a completed tick with time left sets the last time to now and the count to 0 if the last `limit` completed ticks were capped, and otherwise advances by 62 an update and is capped; with no time left it is neither |
| `UpdateClock.StreakDecides` | dkrix/Client/CGameUpdate.cpp:5582-5598 | the same from the count alone |
| `UpdateClock.NoIdleAfterCapped` | dkrix/Client/CGameUpdate.cpp:5333-5598 | after a capped tick the next one is due at once |
| `TextInput.Decode` | dkrix/Client/CGameUpdate.cpp:2440-2490 | the loop with its breaks emits what the decoder specification says and ends where it does, for every C string |
| `TextInput.UnitOfChar` | dkrix/Client/CGameUpdate.cpp:2455-2478 | the code of any character, in any of the four lengths, is taken whole and gives its code point, or a question mark beyond U+FFFF |
| `TextInput.DecodesWellFormed` | dkrix/Client/CGameUpdate.cpp:2440-2490 | of every well-formed text (section 3 of RFC 3629) exactly its characters come out in order, and the loop ends at the terminator |
| `TextInput.StrayByteSkipped` | dkrix/Client/CGameUpdate.cpp:2479-2483 | bytes that begin no character are passed over |
| `TextInput.CutOffStops` | dkrix/Client/CGameUpdate.cpp:2459-2474 | a two- or three-byte character cut short ends the loop in front of it |
| `TextInput.AnyContinuation` | dkrix/Client/CGameUpdate.cpp:2459-2471 | the low six bits of whatever follows a two- or three-byte lead byte are taken |
| `TextInput.PassesEndIff` | dkrix/Client/CGameUpdate.cpp:2450-2490 | the loop passes the terminator if and only if it gets to a four-byte lead byte with fewer than four bytes left |
| `TextInput.StaysWithin` | dkrix/Client/CGameUpdate.cpp:2450-2490 | so it does not for a text without such a byte among its last three |
| `TextInput.CutShort` | dkrix/Client/CGameUpdate.cpp:2475-2478 | a single such byte takes the loop past the terminator |
| `OrderedLists.OrderedList.Add` | dkrix/Client/COrderedList.h:112-145 | stays strictly increasing and gains exactly the value; true exactly if it was new |
| `OrderedLists.OrderedList.Remove` | dkrix/Client/COrderedList.h:151-180 | stays strictly increasing and loses exactly the value; true exactly if it was there |
| `OrderedLists.OrderedList.Subtract` | dkrix/Client/COrderedList.h:187-222 | one merge pass, erasing in place, is set difference, also of a list with itself |
| `OrderedLists.SortedUnique` | dkrix/Client/COrderedList.h:112-222 | a set has one such list, so that the set fixes the list |
| `PositionLists.LessIsTotalOrder` | dkrix/Client/CPositionList.h:42-61 | the separately written comparisons are one strict total order, that of x * 65536 + y |
| `PositionLists.PositionList.Add` | dkrix/Client/CPositionList.h:170-208 | stays lexicographically increasing and gains exactly the position |
| `PositionLists.PositionList.Remove` | dkrix/Client/CPositionList.h:215-248 | stays lexicographically increasing and loses exactly the position |
| `PositionLists.PositionList.SaveToFile` | dkrix/Client/CPositionList.h:255-288 | appends the format, with nothing behind a count that was cut to zero |
| `PositionLists.PositionList.LoadFromFile` | dkrix/Client/CPositionList.h:293-324 | as many positions as the count says; where the file ends before them the last one read is repeated |
| `PositionLists.SaveLoad` | dkrix/Client/CPositionList.h:255-324 | saving and loading gives the first (length modulo 65536) positions, the same list if and only if it has at most 65535 |
| `PositionLists.PositionFormat` | dkrix/Client/CPositionList.h:255-288 | the bytes: count modulo 65536, then x and y of each position, all low byte first, and nothing behind a count of zero |
| `MessageArrays.MessageArray.constructor` | dkrix/Client/CMessageArray.cpp:94-110 | all slots are empty |
| `MessageArrays.MessageArray.Add` | dkrix/Client/CMessageArray.cpp:176-223 | the slots show the messages added, each cut to its first `length` characters, the latest first, after any run |
| `MessageArrays.MessageArray.Next` | dkrix/Client/CMessageArray.cpp:389-410 | what was put into the current slot becomes the latest message |
| `MessageArrays.MessageArray.At` | dkrix/Client/CMessageArray.cpp:419-445 | `[max - 1 - j]` is the j-th most recent message, or empty if there were fewer, for all j below 255, and for the oldest slot if 256 divides their number |
| `MessageArrays.MessageArray.Clear` | dkrix/Client/CMessageArray.cpp:450-457 | all messages are forgotten wherever the ring stands |
| `MessageArrays.OneIndexRightIff` | dkrix/Client/CMessageArray.cpp:419-445 | an index reaches its slot if and only if that is the case |
| `MessageArrays.WhichMessage` | dkrix/Client/CMessageArray.cpp:419-445 | the message an index gives is the (j modulo 256)-th most recent one, or for 255 the oldest |
| `MessageArrays.IndexRightIff` | dkrix/Client/CMessageArray.cpp:419-445 | all indices reach their slots if and only if there are at most 256 slots |

## Left out

- The two-argument `CPartManager::SetData` (dkrix/Client/CPartManager.h:305-345): it never erases the old node of the list, so it has no place in the properties above.
- `CPartManager` for other index widths: the model has WORD indices and slots, as the texture and shadow managers have; `CSoundPartManager` with its BYTE slots is a thin wrapper.
- PartManagers.PartManager.SetData: needs a cache with at least one slot; with none the source reads the back of an empty list.
- TexturePartManagers.TexturePartManager.GetTexture: rendering is a token (sprite, palette), `locks` says whether the new surface could be locked, and the size tables `m_pWidth` and `m_pHeight` are left out.
- ShadowPartManagers.ShadowPartManager.GetTexture: as above; the shadow colour, which depends on hour and weather, is a parameter, and so transparency is about the sprite.
- Loading of sprite packs in the `Init` of the managers: the sizes of the sprites are parameters.
- `CSpriteTexturePartManager` and `CNormalSpriteTexturePartManager`: twins of the managers modelled.
- SpritePals.CSpritePal.SetPixel: data of 4 GB or more, where `m_Size` wraps, are excluded.
- SpritePals.CSpritePal.Blt: rows that are drawn must lie within the memory of the surface, and the palette must have their colours; the source checks neither.
- SpritePals.CSpritePal.LoadFromFile: a stream that fails for another reason than reaching its end is not modelled.
- AppendPatches.Append: writes reach the file in the order they are made, no buffer of the stream in between. A node whose append file is the original file itself, with something to copy, is excluded: the loop would read through one buffer what it writes through another and need not end. The maximum of the two counts is computed by the source but not used; the model writes the count that the source writes.
- AppendPatches.AppendPatch.ExecutePatch: excludes runs that get to such a node; the theorems on crashes and results take append files other than the original.
- AppendPatches.AppendPatch.AddAppendInfo: sizes must stay within a 32-bit `long`; the overload that takes name and size from a file is left out, and so is that of `SetFinalInfo`.
- AppendPatches.AppendPatch.CheckFinalInfo: the count of a file too short to have one is uninitialised in the source and a parameter here.
- `MString`, file names beyond being keys, and the serialisation of patch info.
- BitReserve.Bit_Reserve.HGetBits: at most 31 bits at a time; rewinds are bounded so that the shifted or added number fits 32 bits. Masks and shifts are written as remainders and quotients by powers of two.
- UpdateClock.Updater.Update: the bodies of the updates, the drawing and the networking are left out; an update that returns early is a parameter. The current time is taken not to change during a tick, less than 2^32 ms pass between ticks, and the cap is not decremented past the least int.
- TextInput.Decode: what lies behind the terminator in memory is not modelled; the specification says where the loop gets to.
- OrderedLists.OrderedList.Subtract: the right list is walked as it was at the call, also when it is the left one.
- The nodes of the ordered and position lists are positions of a sequence.
- MessageArrays.MessageArray.At: locks, the log file and formatting are left out, and the ring has at least one slot.
