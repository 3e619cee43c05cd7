# entwine: the Clipper chunk-handle cache and the PointMapper cell store

This project models two sequential cores of the entwine out-of-core point-cloud indexer and proves properties of them.

**Clipper** (`Clipping`, clipper.dfy) is a per-thread cache of chunk handles. For every depth of the hierarchy it keeps three tiers:
- a single-entry fast slot;
- a "used" generation (the chunks touched since the last clip);
- an "aged" generation (the chunks not touched since the clip before).

How it behaves:
- `get` looks in fast, then used, then aged. An aged hit is promoted into used.
- `set` installs a chunk into fast and used.
- `clip` resets every fast slot. Then, depth by depth up to the first idle depth, it hands the aged generation to the chunk cache, clears it and swaps used into its place.
- The destructor merges used into aged and clips once.

The class works on three arrays, as the source does. Each method is proved equal to a function on the abstract value `Tiers`: `Lookup`, `Install`, `Age` or `Merge`. The lemmas are stated about those functions.

**Slot** (`Slots`, slot.dfy) is a window of `pointsPerSlot` fixed-size records copied out of the point file.
- Each cell has an occupancy marker: the record's point, when it exists.
- The replacement rule is "strictly closer to the cell's centre wins". A displaced or rejected candidate is handed back to the caller.
- On destruction the window is written back over the file.

**PointMapper** (`Mapping`, point_mapper.dfy) splits the file into slots.
- It routes a global point index to a slot and an offset.
- It loads a slot on `grow` and counts the sessions that hold it.
- It writes a slot back and drops it when the last session `clip`s it.
- It records which slots received points (`ids`).
- `finalize` scans the file chunk by chunk. It records, and stores compressed under its decimal id, every chunk that holds an existing point.

`Decimal` (decimal.dfy) spells a number the way `std::to_string` does and proves the spelling injective. `Wrappers` (wrappers.dfy) holds `Option`, `Result` and `Outcome`.

Stand-ins for parts of the system that are not modelled:
- The file is a `seq<Record>` of byte records.
- The schema's X/Y read, `Point::exists` and `Point::sqDist` are function values carried by `PointFormat`. Coordinates are an integer grid.
- A session (a `Clipper*`) is a natural number, and a null session is `None`.
- Thrown `std::runtime_error`s are `Failure`/`Fail` values of `MapperError`.
- The chunk cache is a log of released generations plus a count of completed passes.

Behaviour of the code that its own comments and names do not suggest (the model follows the code):
- **Teardown merge stops early.** The comment at entwine/builder/clipper.cpp:26-27 says the destructor inserts everything into the aged list "so we expire everything". The loop test at line 23 stops at the first depth whose used map is empty, so the used entries at and beyond that depth are never merged and never released by the teardown: the clip that follows moves into aged only those at depths before its own horizon, and deeper ones stay in used. Aged entries are still released, down to the first depth where both generations are empty (the clip loop at lines 74-96). `TeardownStopsAtIdleRoot` shows that an idle depth 0 releases nothing.
- **A position can sit in both generations.** The design keeps each position in at most one of used and aged at its depth (`GenerationsDisjoint`), and `get` and `clip` keep that (`LookupKeepsDisjoint`, `AgeKeepsDisjoint`). `set` keeps it only when the position is not aging (`InstallKeepsDisjoint`), but its assert at entwine/builder/clipper.cpp:66 checks only the used map. After a clip, a `get` of the default position misses through the reset fast slot even when that position is aging, and a following `set` puts it in both generations (`ShadowThenSetOverlaps`). The teardown merge at line 30 copies used entries into aged without removing them (`MergeOverlaps`). Where both hold a position, `Resident` and `Stored` read the used entry.
- **Clip stops at the first idle depth.** The `continue` at entwine/builder/clipper.cpp:81 skips an idle depth, which suggests idle depths were meant to be skipped. The loop test at lines 76-78 already stops at the first depth where both generations are empty, so line 81 never runs. `Horizon` states where clip stops.
- **Reset fast slot shadows the default position.** Line 72 resets every fast slot to a default-constructed position with a null chunk. Line 39 then answers that null chunk for the default position, so after a clip a `get` of that position answers null even when the entry is in used or aged (`ResetSlotShadowsBlank`). `FirstClipSpares` therefore excludes that position from its "get still finds it" clause.
- **A slot can be mapped with no referrer.** `grow` with a null session (entwine/util/point-mapper.cpp:309-317) maps the slot without registering anyone. A later `clip` of that slot by any session erases nothing, finds the referrer set empty and drops the slot (lines 335-341). So a mapped slot does not always have a referrer. The converse holds: a slot with a referrer is always mapped, which is part of `Mapping.PointMapper.Valid`. `Mapping.PointMapper.UnreferencedGrowThenClip` runs this sequence through `Grow` and `Clip`.
- **Misaligned clip throws.** A `clip` of an id that is not slot-aligned throws "Invalid PointMapper state" (line 328), which is modelled as `Fail(InvalidState)`.

## Model

| member | source | states |
|---|---|---|
| Clipping.Clipper.Get | entwine/builder/clipper.cpp:36-56 | the returned chunk and the new tiers are those of `Lookup`: fast hit, used hit cached in fast, aged hit promoted to used and removed from aged, or a miss; fast slots stay coherent with used |
| Clipping.Clipper.Set | entwine/builder/clipper.cpp:58-68 | requires the position to be absent from used (the assert at line 66); afterwards fast and used hold the chunk and nothing else changes (`Install`) |
| Clipping.Clipper.Clip | entwine/builder/clipper.cpp:70-99 | new tiers are `Age(old)`: every fast slot reset; the cache receives exactly the releases of `Age` and one `clipped` notification |
| Clipping.Clipper.AgeDepths | entwine/builder/clipper.cpp:74-96 | up to the horizon, used is emptied and aged becomes old used; deeper depths are untouched; the cache log grows by the old aged maps in depth order |
| Clipping.Clipper.AgeDepth | entwine/builder/clipper.cpp:83-95 | one depth: the old aged map is released, aged becomes old used and used becomes empty |
| Clipping.Clipper.Teardown | entwine/builder/clipper.cpp:19-34 | the tiers and releases are those of `Age(Merge(old))`, with exactly one `clipped` notification |
| Clipping.Clipper.MergeUsedIntoAged | entwine/builder/clipper.cpp:21-31 | new tiers are `Merge(old)`: up to the first empty used map, used joins aged, an aged value already present winning |
| Clipping.Clipper.MergeDepth | entwine/builder/clipper.cpp:28-30 | one depth of the merge: aged becomes used merged into aged, nothing else changes |
| Clipping.ChunkCache.Clip | entwine/builder/clipper.cpp:88 | a release of (depth, aged map) is appended to the log; the pass count is unchanged |
| Clipping.ChunkCache.Clipped | entwine/builder/clipper.cpp:98 | the pass count grows by one; the log is unchanged |
| Clipping.Horizon | entwine/builder/clipper.cpp:74-79 | the depth clip stops at: every shallower depth has a non-empty generation, and it is the last depth or both its generations are empty |
| Clipping.UsedHorizon | entwine/builder/clipper.cpp:21-24 | the depth the teardown merge stops at: every shallower used map is non-empty, and it is the last depth or its used map is empty |
| Clipping.ReleasesAt | entwine/builder/clipper.cpp:74-96 | the e-th release of a pass is depth e's aged map |
| Clipping.ReleasesLength | entwine/builder/clipper.cpp:74-96 | a pass that stops at depth k releases exactly k generations |
| Clipping.ReleasesAreAged | entwine/builder/clipper.cpp:83-88 | every release lies below the horizon and carries exactly that depth's aged map |
| Clipping.GetAfterSet | entwine/builder/clipper.cpp:38-39 | after set(k, c), get(k) returns c from the fast slot and changes no tier |
| Clipping.AgedHitPromotes | entwine/builder/clipper.cpp:44-55 | a hit only in aged returns its chunk, inserts it into used, erases it from aged and caches it in the fast slot |
| Clipping.MissChangesNothing | entwine/builder/clipper.cpp:46-48 | a position in no tier is a miss that leaves every tier unchanged |
| Clipping.LookupMatchesStored | entwine/builder/clipper.cpp:36-56 | with coherent fast slots, get answers exactly what used-then-aged hold, except the reset slot's own position |
| Clipping.ResetSlotShadowsBlank | entwine/builder/clipper.cpp:39 | at a depth whose fast slot was reset, get of the default position answers null and changes nothing, whatever aged holds |
| Clipping.LookupKeepsResidents | entwine/builder/clipper.cpp:36-56 | get neither loses nor invents chunks at any depth, keeps fast slots coherent, and repeating it returns the same chunk and changes nothing |
| Clipping.InstallAddsOne | entwine/builder/clipper.cpp:58-68 | set adds exactly the one entry to its depth, leaves other depths alone and keeps fast slots coherent |
| Clipping.AgeEffect | entwine/builder/clipper.cpp:70-99 | clip releases exactly the aged maps of the depths before the horizon, in depth order; those depths end with empty used and aged equal to old used; deeper depths are untouched; every fast slot is reset |
| Clipping.HorizonBeyond | entwine/builder/clipper.cpp:74-79 | depths whose generations are non-empty all the way down are processed by clip |
| Clipping.FirstClipSpares | entwine/builder/clipper.cpp:74-95 | when each shallower depth has used or aged non-empty (so clip reaches the depth), an entry set and not yet aging is not released by the next clip; it moves to aged and get still finds it, unless it is the default position; if every shallower used map was non-empty, every shallower aged map is non-empty afterwards |
| Clipping.SecondClipReleases | entwine/builder/clipper.cpp:74-92 | when each shallower depth has used or aged non-empty, an aged entry not touched before the next clip is released with its chunk, and get misses afterwards |
| Clipping.PromotedEntrySpared | entwine/builder/clipper.cpp:44-95 | second chance: an aged entry that get promotes, at a depth clip reaches, is returned, is not released by the next clip and is aged again with the same chunk |
| Clipping.TwoCycleAging | entwine/builder/clipper.cpp:70-99 | when the position is in neither generation of its depth and every shallower used map is non-empty, an entry set and never touched survives the first clip and is released by the second, after which get misses |
| Clipping.TeardownReleases | entwine/builder/clipper.cpp:19-34 | teardown releases every chunk of every depth down to the first empty used map; where both generations hold a position the aged chunk is released |
| Clipping.TeardownStopsAtIdleRoot | entwine/builder/clipper.cpp:21-24 | with depth 0 idle, teardown releases nothing and leaves every used map as it was |
| Clipping.MergeKeepsCoherent | entwine/builder/clipper.cpp:21-31 | the teardown merge keeps the fast slots coherent with used |
| Clipping.LookupKeepsDisjoint | entwine/builder/clipper.cpp:44-55 | get keeps every position in at most one generation: a promotion moves the entry from aged to used |
| Clipping.InstallKeepsDisjoint | entwine/builder/clipper.cpp:58-68 | set keeps every position in at most one generation exactly when the position is not aging at its depth |
| Clipping.AgeKeepsDisjoint | entwine/builder/clipper.cpp:70-99 | clip keeps every position in at most one generation |
| Clipping.ShadowThenSetOverlaps | entwine/builder/clipper.cpp:39-68 | after a fast-slot reset, get of an aging default position misses and changes nothing, and the set that follows puts that position in both generations |
| Clipping.MergeOverlaps | entwine/builder/clipper.cpp:21-31 | the teardown merge leaves every entry of a non-empty depth 0 in both used and aged |
| Clipping.MergeDetermined | entwine/builder/clipper.cpp:21-31 | tiers that agree with the merge loop's depth-by-depth effect are exactly `Merge` of the old tiers |
| Clipping.AgeDetermined | entwine/builder/clipper.cpp:70-99 | tiers that agree with clip's depth-by-depth effect are exactly `Age` of the old tiers and are coherent |
| Slots.Slot.constructor | entwine/util/point-mapper.cpp:40-89 | the staging records are the file window starting at firstPoint, and each cell is marked with its record's point exactly when that point exists |
| Slots.Slot.AddPoint | entwine/util/point-mapper.cpp:109-172 | result, handed-back point and the one changed cell and record are those of `Place`; no other cell changes |
| Slots.Slot.HasPoint | entwine/util/point-mapper.cpp:174-177 | true exactly when the cell is occupied |
| Slots.Slot.GetPoint | entwine/util/point-mapper.cpp:179-189 | the occupant's point, or none for an empty cell |
| Slots.Slot.GetPointData | entwine/util/point-mapper.cpp:191-202 | the cell's record when occupied, otherwise empty |
| Slots.Slot.Close | entwine/util/point-mapper.cpp:91-107 | the file becomes the old file with the staging records written over the slot's window |
| Slots.Splice | entwine/util/point-mapper.cpp:94 | writing a window back keeps the file length, puts the window in place and leaves every other record unchanged |
| Slots.PlaceConserves | entwine/util/point-mapper.cpp:109-172 | no point is lost or duplicated: cell plus caller hold the same points before and after an offer |
| Slots.PlaceOutcomes | entwine/util/point-mapper.cpp:117-163 | empty cell: the candidate is taken and true returned; strictly closer: swapped in and the old occupant with its record handed back; otherwise (equal distance included) nothing changes and the candidate is handed back |
| Slots.PlaceKeepsCoherent | entwine/util/point-mapper.cpp:137-160 | when the markers matched the records before the offer (`Scan`), after an offer of a well-formed candidate the markers equal a fresh scan of the records, and what is handed back is well-formed |
| Slots.ReloadReproduces | entwine/util/point-mapper.cpp:68-94 | writing a slot back and loading the same window again gives the same records and, when the markers match the records (`Scan`), the same markers |
| Slots.SettleFromOccupied | entwine/util/point-mapper.cpp:121-150 | from an occupied cell, any sequence of offers leaves the earliest of the closest among occupant and offers |
| Slots.ClosestWins | entwine/util/point-mapper.cpp:109-172 | an empty cell offered any non-empty sequence of candidates ends holding the earliest closest one, so ties never displace |
| Mapping.Locate | entwine/util/point-mapper.cpp:250-252 | the offset is below pointsPerSlot and slotIndex * pointsPerSlot + slotOffset equals index - firstPoint |
| Mapping.LocateUnique | entwine/util/point-mapper.cpp:250-252 | any slot and in-range offset that add up to the local offset are the ones `Locate` finds |
| Mapping.RouteGlobalSlot | entwine/util/point-mapper.cpp:300-303 | the index at an offset from a slot's global id routes back to that slot and offset; so the id grow registers passes clip's alignment check |
| Mapping.CheckGeometry | entwine/util/point-mapper.cpp:214-229 | a missing file fails with FileMissing; otherwise failure is InvalidArguments; success exactly when numPoints fills whole slots and numPoints * pointSize == fileSize, with numPoints / pointsPerSlot slots |
| Mapping.PointMapper.Open | entwine/util/point-mapper.cpp:204-230 | fails with the error `CheckGeometry` gives, else a fresh valid mapper over the given format, file and size, with that many absent slots, empty referrer sets and empty id sets |
| Mapping.PointMapper.constructor | entwine/util/point-mapper.cpp:210-217 | the mapper is valid, with slotCount absent slots, empty referrer sets and empty id sets |
| Mapping.PointMapper.AddPoint | entwine/util/point-mapper.cpp:243-269 | the routed cell changes as `Place` says; the slot's global id is added to its id set exactly when the point was added; no other slot changes |
| Mapping.PointMapper.HasPoint | entwine/util/point-mapper.cpp:271-278 | whether the routed cell is occupied |
| Mapping.PointMapper.GetPoint | entwine/util/point-mapper.cpp:280-287 | the routed cell's occupant |
| Mapping.PointMapper.GetPointData | entwine/util/point-mapper.cpp:289-296 | the routed cell's record when occupied, otherwise empty |
| Mapping.PointMapper.Grow | entwine/util/point-mapper.cpp:298-318 | the routed slot is resident afterwards: kept if present, otherwise freshly loaded from its window and scanned; the session joins its referrers only when present and newly inserted; nothing else changes |
| Mapping.PointMapper.Clip | entwine/util/point-mapper.cpp:320-342 | a misaligned id fails with InvalidState and changes nothing; otherwise the session leaves the referrer set, and exactly when the set is then empty the slot is written back and dropped |
| Mapping.UnregisteredAllRemoves | entwine/util/point-mapper.cpp:335 | clipping a sequence of sessions removes exactly those sessions from the referrer set |
| Mapping.SlotDroppedWhenAllClip | entwine/util/point-mapper.cpp:335-341 | after a sequence of clips the slot is dropped exactly when every registered session has clipped it |
| Mapping.GrowThenClip | entwine/util/point-mapper.cpp:314-341 | a session registered by grow leaves the referrer set non-empty (which `Valid` ties to the slot being mapped), and its clip undoes the registration of a session new to the set |
| Mapping.PointMapper.UnreferencedGrowThenClip | entwine/util/point-mapper.cpp:309-341 | grow with a null session maps a slot that has no referrer, and a following clip by any session drops it again |
| Mapping.PointMapper.Ids | entwine/util/point-mapper.cpp:344-357 | exactly the global ids of the slots that received a point, in strictly increasing order |
| Mapping.PointMapper.RangePopulated | entwine/util/point-mapper.cpp:399-416 | true exactly when some record of the range holds an existing point |
| Mapping.PointMapper.Finalize | entwine/util/point-mapper.cpp:359-442 | firstPoint < start fails with BaseTooDeep; otherwise the file holds whole chunks, the ids of the populated chunks are appended in file order and each is stored under its decimal id, as `ChunkIds` and `Uploaded` describe |
| Mapping.WholeChunks | entwine/util/point-mapper.cpp:371-377 | under the assertion at line 374 the byte loop visits whole chunks: fileSize is their count times the chunk's byte size |
| Mapping.ByteStep | entwine/util/point-mapper.cpp:377-420 | at byte position pos of chunk c, the loop continues exactly while c is below the chunk count, and pos / pointSize is the chunk's first record |
| Mapping.ChunkIdsSorted | entwine/util/point-mapper.cpp:418-424 | the recorded ids are strictly increasing and below the next chunk's id |
| Mapping.ChunkIdsExact | entwine/util/point-mapper.cpp:399-424 | an id is recorded exactly when it is the id of a chunk holding an existing point |
| Mapping.UploadedKeys | entwine/util/point-mapper.cpp:418-431 | the store's keys afterwards are the old keys plus the decimal ids of the populated chunks |
| Mapping.UploadedValues | entwine/util/point-mapper.cpp:426-431 | each populated chunk is stored, compressed, under its decimal id |
| Mapping.UploadedKeeps | entwine/util/point-mapper.cpp:431 | a key that is not the decimal id of a populated chunk keeps its old value: finalize writes only populated chunks' ids |
| Mapping.PointMapper.Teardown | entwine/util/point-mapper.cpp:232-241 | every resident slot's window of the file ends equal to its staging records, and records outside every resident window keep their values |
| Mapping.PointMapper.FlushAll | entwine/util/point-mapper.cpp:234-240 | the destructor's loop: same statement as `Teardown`, from slot placement alone |
| Mapping.PointMapper.FlushOne | entwine/util/point-mapper.cpp:236-239 | after writing back slot i, slots 0..i hold their windows and records outside them keep their values |
| Mapping.PointMapper.FlushKeepsEarlier | entwine/util/point-mapper.cpp:234-240 | writing back slot i keeps the windows of earlier slots and touches no record outside slot i's window |
| Decimal.Spell | entwine/util/point-mapper.cpp:431 | the key is non-empty, all digits, with no leading zero except for 0 |
| Decimal.ReadSpell | entwine/util/point-mapper.cpp:431 | reading the key back gives the id |
| Decimal.SpellInjective | entwine/util/point-mapper.cpp:431 | distinct ids get distinct keys, so no chunk's put overwrites another's |

## Left out

- `mmap`, `msync` and `munmap` are left out, along with the throws when they fail. A slot's mapping is a copy of the file window, and its destruction is a write-back.
- A file that is present is assumed to be `fileSize` bytes long and to map without error. A missing file is modelled, as `Failure(FileMissing)`.
- Atomics, mutexes, lock guards and the thread `Pool` are left out. Everything runs on one thread.
- `finalize`'s ranges run in file order, so the order of the recorded ids is the file order. Under the pool it would be any interleaving.
- The retry at entwine/util/point-mapper.cpp:164-168 is dropped. Sequentially, the cell cannot be filled between the check and the lock.
- Double-precision coordinates and distances are left out. Coordinates are integers. `Point::exists` and `Point::sqDist`, whose definitions are not part of this model, are functions carried by `PointFormat`.
- `Compression::compress` is a function parameter, and the S3 store is a map from keys to bytes.
- `Clipper::insert` is not part of this model. Its result in `grow` is the `inserted` input.
- The ChunkCache internals (chunk-cache.cpp is not part of this model) are left out. The cache is a log of releases and a pass counter.
- The Clipper header (clipper.hpp) is not part of this model. `Clipping.Clipper.constructor` sizes the three tiers to the number of depths, with every tier empty. It takes the default position of a reset fast slot as the parameter `blank`.
- `pointsPerSlot` is the platform page size at entwine/util/point-mapper.cpp:32. Here it is a parameter, required positive.
- The `Slot` object is not deleted when a slot is dropped. The model writes it back and nulls the handle, and the object stays unreachable.
- Mapping.PointMapper.AddPoint: requires an index at or after `firstPoint` that routes to an existing slot entry and a resident slot, which the source dereferences; the source would wrap the `std::size_t` subtraction and index out of range.
- Mapping.PointMapper.HasPoint: requires an index at or after `firstPoint` that routes to an existing slot entry and a resident slot, which the source dereferences; the source would wrap the `std::size_t` subtraction and index out of range.
- Mapping.PointMapper.GetPoint: requires an index at or after `firstPoint` that routes to an existing slot entry and a resident slot, which the source dereferences; the source would wrap the `std::size_t` subtraction and index out of range.
- Mapping.PointMapper.GetPointData: requires an index at or after `firstPoint` that routes to an existing slot entry and a resident slot, which the source dereferences; the source would wrap the `std::size_t` subtraction and index out of range.
- Mapping.PointMapper.Grow: requires an index at or after `firstPoint` that routes to an existing slot entry; the source would wrap the `std::size_t` subtraction and index out of range.
- Mapping.PointMapper.Clip: requires an index at or after `firstPoint` that routes to an existing slot entry when the id is aligned; the source would wrap the `std::size_t` subtraction and index out of range.
- Mapping.PointMapper.Finalize requires the two assertions at lines 374-375 instead of checking them.
- Mapping.PointMapper.Ids collects one id per slot. Each id set holds at most the slot's own global id, so the inner loop over the set is a choice of its element.
