# Verified model of the voxel world pipeline

This project models, in Dafny 4.11, the deterministic CPU side of the voxel engine: the chunk blob
codec, map generation, the store belt, the greedy mesher, the streaming window, swept collision with
origin rebasing, the identity registry, the two key-value stores, the LOD pyramid and the capability
matcher. Code that changes state step by step is modelled by classes and loops proved against
specification functions; what the system promises is then proved about those functions.

The main results:

- **Streaming.** Over every run of centre moves and pumps, with any budget, any order of mesh tasks
  and any failing puts, each resident's chunk and mesh are functions of store content and window
  alone (`StreamWindow.RunIsPure`); two runs at rest at one centre agree (`RestIsPathIndependent`);
  rest takes exactly max(1, ceil(missing / budget)) pumps (`RestsAfterExactly`). Every pump fills the
  window from the inside out: no chunk enters beyond a square that is not yet full, and on one ring
  (x, y, z) order decides (`PumpFillsInsideOut`). At rest the chunk
  meshes together draw exactly what meshing the whole window as one volume would draw, each face
  once (`Seams.StreamerDrawsTheVolume`, `Seams.RestDrawsOnce`).
- **Meshing.** The greedy loops emit disjoint rectangles that cover exactly the naive mesher's faces
  with the same slots, wound with the face normal. Each rectangle is as wide and then as tall as the free
  cells allow, and this alone determines the result: any partition in scan order into such rectangles is
  the greedy one (`RectMerge.GreedyIsUnique`). A full solid chunk becomes six quads
  (`Greedy.SolidChunkIsSixQuads`).
- **Codec.** Unpacking inverts packing at every width; repacking is the identity exactly on canonical
  blobs and never longer than any valid blob; random access succeeds everywhere exactly when full
  unpacking does, and agrees with it.
- **Generation.** Every generated chunk is the restriction of one infinite world, and a cell belongs to
  that world exactly when it fits a description in bands of ground and trees of trunk and crown
  (`WorldShape.ShapeIsTheWorld`). What a cell holds depends on the hash near it only (`WorldIsLocal`).
- **Persistence.** Every miss of the belt causes exactly one put of the packed world chunk under its key,
  a hit causes none, and on a store that accepts all puts a second pass comes back from the store entirely
  (`Belt.SecondPassOnAcceptingStore`).
- **Collision.** In any rounding a step that starts free ends free, unless the world-bound clamp moves
  it. In exact arithmetic every axis
  sweep is the continuous sweep to first contact, the whole path of a step is free, and an unobstructed
  step obeys the free-flight law on every axis (`CollisionProofs.FreeFlightLaw`). Exact steps
  commute with rebasing, so rebase schedules cannot be told apart in world space. In a binary32
  model, below 2^24 cells and for any delta, the rebase flag of an axis is true exactly when the
  subtraction was exact and the position was not a negative zero (`Binary32.AddsBackIffExact`). A true
  flag can be trusted to keep world positions exactly when the deltas survive their conversion to
  binary32 (`FlagIsSoundIff`), and the position bound is sharp (`BoundIsSharp`).
- **Identity, stores, LOD, capabilities.** Permanent bindings and manifest round trips; handles live
  exactly while issued and not released; prefix scans of both stores show the same rows in the same
  order; re-hashing a dirty chain equals a rebuild; byte-level capability matching coincides with its
  label-level meaning.

## How the parts are laid out

| files | component |
|---|---|
| `Arithmetic`, `Bytes`, `Digits`, `Chunk` | powers, little-endian fields, digit packing, the extent of a chunk |
| `Morton`, `VoxelBlob`, `VoxelBlobProofs` | Morton order and the chunk blob |
| `RectMerge`, `MeshFormat`, `Greedy`, `Mesher` | rectangle merge, vertex format, what a mesh shows, the mesher's loops |
| `Minigen`, `WorldShape`, `ChunkGen` | the infinite world, what it looks like, and the loops that generate one chunk |
| `StoreKeys`, `Scans`, `Stores` | key order, ordered scans, memory and SQLite stores |
| `Belt`, `StreamWindow`, `Streamer`, `Seams` | load-or-generate, the window as a state machine, the streamer class, seams |
| `Collision`, `CollisionProofs`, `Probes`, `Rebase`, `Replay`, `Binary32`, `Solidity` | the collision step, what it asks the world, rebasing in exact and in binary32 arithmetic, the solidity bridge |
| `Registry`, `Handles` | content registry, entity handles, UUID index |
| `LodHash`, `Lod` | FNV hashing and the LOD pyramid |
| `Labels`, `Capability` | splitting text, capability grants |

## Readings of the code

- Integers are unbounded; widths appear as ranges (`IsInt32`, `u32`, `u64`), as wrap-around
  (`Handles.Slot.Generation`, `LodHash.Eat`) or as a stated domain (`Streamer.InDomain`,
  `Solidity.InDomain`, `Lod.InDomain`).
- `hashCoords` is a function parameter of every generator member; nothing about its values is used but
  that they are natural numbers.
- Opacity and solidity are arbitrary total predicates, as their callback types demand.
- A put, a statement, a `BEGIN` or a `COMMIT` may fail at any time, and each call is logged with its
  outcome; a rollback succeeds. SQLite is an ordered table whose reads succeed.
- In `Collision` each operation is a rounding of its exact result. `IsRounding` asks only for
  monotonicity and exactness at zero; `IsExact` is the identity.
- A visitor decides from all the rows it has been shown, so it may keep state.
- Outside `Morton`, bitwise or is modelled as addition into bits that are zero: `VoxelBlob.OrInto`,
  `Bytes.ReadLE`, `MeshFormat.PackVertex`, `Handles.MakeHandle` and `Lod.OctantOf` add fields that do
  not overlap.
- Comments and code differ in these places, and the model follows the code:
  - The canonical blob form of src/world/voxel_blob.hpp:32 leaves out that reserved bytes and padding
    bits are zero, which `VoxelBlobProofs.Canonical` needs.
  - The add-back test of src/sim/rebase.cpp:104 implies an exact subtraction for all positions of at most
    B cells exactly when B is below 2^24 (`Binary32.BoundIsSharp`); `Binary32.AtTheBoundLossIsMissed` is
    the input at 2^24. Even then the world position is kept exactly when the delta has at most 24
    significant bits (`Binary32.FlagIsSoundIff`); `Binary32.InexactDeltaIsMissed` is the input dx = 2^24 + 1.
  - The substep count of src/sim/collision_step.cpp:99 is the ceiling of 16 |delta| exactly when that is
    not a whole number, and one more otherwise (`CollisionProofs.SubstepCountVersusCeiling`);
    `CollisionProofs.OneSubstepTooMany` is the input 1/16.
  - Half extents below 0.5 (src/sim/collision_step.cpp:22) are not needed in exact arithmetic.
- The kernel accepts origins up to 2^30 (src/sim/collision_step.hpp:57), far more than the packed keys of
  the solidity bridge; `Solidity.OffsetFitsIff` says which origins fit.

## Model

| member | source | states |
|---|---|---|
| Morton.DecodeEncode | src/voxel/morton.hpp:52-64 | decoding an encoded position of 5-bit coordinates gives the position back |
| Morton.EncodeDecode | src/voxel/morton.hpp:52-64 | encoding a decoded 15-bit code gives the code back |
| Morton.BrickRun | src/world/voxel_blob.hpp:30-31 | every aligned 8x8x8 brick occupies one contiguous run of 512 codes |
| Morton.EncodeIsIndex | src/voxel/morton.hpp:24-55 | the shift-and-mask encoding is the arithmetic interleave of the coordinate bits |
| Morton.DecodeIsPos | src/voxel/morton.hpp:34-64 | the mask-and-gather decoding is the arithmetic de-interleave |
| Morton.CubeIsPrefix | src/voxel/morton.hpp:51-55 | a position lies in the 2^L cube exactly when its index lies below 8^L, so the cube maps onto [0, 8^L) |
| Morton.IndexBits | src/voxel/morton.hpp:24-55 | bit 3i of the index is bit i of x, and the two bits above it are those of y and z |
| VoxelBlob.BuildPalette | src/world/voxel_blob.hpp:221-232 | the palette loop yields the first-appearance palette, and for every cell the slot that holds its value |
| VoxelBlob.BuildStream | src/world/voxel_blob.hpp:252-258 | or-ing shifted slots into words yields the words whose digits are the slots |
| VoxelBlob.PackVoxelBlob | src/world/voxel_blob.hpp:207-263 | the byte loops produce the canonical layout of the cells, or nothing on a wrong extent or size |
| VoxelBlob.UnpackVoxelBlob | src/world/voxel_blob.hpp:267-287 | full unpack succeeds exactly when header, size and every index are valid, and yields palette and cells |
| VoxelBlob.MinimalIsLeast | src/world/voxel_blob.hpp:85-98 | no legal index width that can hold the palette is narrower than the minimal one |
| VoxelBlob.UnpackIffEveryCell | src/world/voxel_blob.hpp:265-307 | full unpack succeeds exactly when random access succeeds at every position of the extent |
| VoxelBlob.UnpackAgreesWithCellAt | src/world/voxel_blob.hpp:289-307 | where unpack succeeds, random access returns the unpacked cell at every position |
| VoxelBlobProofs.UnpackOfPack | src/world/voxel_blob.hpp:204-287 | unpacking a packed chunk gives its cells back with the first-appearance palette, at every index width |
| VoxelBlobProofs.RepackIsShortest | src/world/voxel_blob.hpp:32-37 | repacking any valid blob decodes to the same cells and is no longer than that blob |
| VoxelBlobProofs.PackIsCanonical | src/world/voxel_blob.hpp:34-36 | packed blobs are canonical: minimal width, first-appearance palette, zero reserved and padding bits |
| VoxelBlobProofs.RepackIsIdentityIffCanonical | src/world/voxel_blob.hpp:34-36 | repacking a valid blob changes nothing exactly when the blob is canonical |
| VoxelBlobProofs.PackedHeader | src/world/voxel_blob.hpp:238-244 | a packed blob starts with 56 58 42 31, version 1, extent, width and zero, then the entry count and four zeros |
| VoxelBlobProofs.PackedEntry | src/world/voxel_blob.hpp:246-250 | entry s lies at byte 16 + 16s: content, four zeros, state |
| VoxelBlobProofs.PackedIndex | src/world/voxel_blob.hpp:22-28 | the index of cell i starts at bit i times the width of the word stream, and names the first palette entry with the cell's value |
| VoxelBlobProofs.PaletteOrder | src/world/voxel_blob.hpp:221-232 | palette entries come in the order in which the cells first show them |
| RectMerge.GreedyExact | src/mesh/greedy.cpp:193-221 | greedy rectangles partition the visible unclaimed cells of a mask: disjoint, complete, one slot each |
| RectMerge.NaiveExact | src/mesh/greedy.cpp:183-189 | one rectangle per visible cell partitions the mask |
| RectMerge.GreedyNoMore | src/mesh/greedy.cpp:193-221 | greedy merging never yields more rectangles than there are visible cells |
| RectMerge.NextRectIsMaximal | src/mesh/greedy.cpp:200-216 | a merged rectangle ends at the edge or before a cell that is not free, along both axes |
| RectMerge.GreedyIsScan | src/mesh/greedy.cpp:191-221 | the greedy rectangles come in scan order, each maximal among the cells still free |
| RectMerge.GreedyIsUnique | src/mesh/greedy.cpp:191-221 | any partition of the visible cells in scan order into such maximal rectangles is the greedy one |
| RectMerge.OneRectangle | src/mesh/greedy.cpp:191-221 | a mask whose visible cells are one rectangle of one slot yields that rectangle alone |
| MeshFormat.VertexFields | src/mesh/greedy.hpp:62-86 | packed corner, face and slot fields read back unchanged, from bits 0, 5, 10 and 15 upwards |
| MeshFormat.FaceIds | src/mesh/greedy.hpp:45-53 | faces are numbered +X, -X, +Y, -Y, +Z, -Z |
| MeshFormat.Emitter.EmitQuad | src/mesh/greedy.cpp:89-122 | one call appends exactly the four corners and six indices of its rectangle and counts it |
| MeshFormat.DecodeOfMesh | src/mesh/greedy.hpp:88-96 | the rectangles read back from the vertex words alone are the emitted ones |
| MeshFormat.WindsWithNormal | src/mesh/greedy.cpp:85-118 | both triangles of every quad turn by its area about the outward normal of its face |
| Mesher.BuildGrid | src/mesh/greedy.cpp:32-68 | the memoised lookup gives every cell its first matching slot, duplicates included, and fails exactly on malformed chunks |
| Mesher.BuildMask | src/mesh/greedy.cpp:127-166 | the mask loop yields the slot of every visible face of the slice, boundary layers answered by the neighbour views |
| Mesher.FindWidth | src/mesh/greedy.cpp:200-204 | the width loop finds the longest free run of one slot: all of it is free, and it ends at the edge or at a cell that is not |
| Mesher.FindHeight | src/mesh/greedy.cpp:205-216 | the height loop finds how many rows can be merged: all are free, and it ends at the edge or at a row with a cell that is not |
| Mesher.ClaimRect | src/mesh/greedy.cpp:217-219 | the claim loops mark exactly the cells of the rectangle |
| Mesher.GreedySlice | src/mesh/greedy.cpp:191-221 | the greedy sweep of a slice emits exactly the greedy rectangles of its mask |
| Mesher.MeshImpl | src/mesh/greedy.cpp:168-224 | the six sweeps of the mesher produce the mesh of all slice rectangles, and an empty mesh on malformed input |
| Mesher.GreedyMesh | src/mesh/greedy.cpp:228-232 | greedy meshing is the merged mesh of the chunk against its neighbours |
| Mesher.NaiveMesh | src/mesh/greedy.cpp:234-238 | naive meshing is the unmerged mesh of the chunk against its neighbours |
| Greedy.MeshIsExact | src/mesh/greedy.cpp:127-224 | either mesher covers exactly the visible unit faces of the chunk, each by one quad with the cell's slot, and the vertex words decode to those quads |
| Greedy.GreedyShowsWhatNaiveShows | src/mesh/greedy.hpp:115-119 | greedy and naive meshes decompose into the same unit faces with the same slots |
| Greedy.GreedyEmitsNoMore | src/mesh/greedy.cpp:168-224 | the greedy mesh never has more quads than the naive one |
| Greedy.SolidChunkIsSixQuads | tests/test_greedy_mesh.cpp:157-170 | a full chunk of one opaque content without neighbours has 6 greedy quads and 1536 naive ones |
| Minigen.KeyOrderIsColumnOrder | src/gen/minigen.cpp:110-120 | anchor keys ascend exactly as (z, then x) does, across negative coordinates |
| Minigen.OverlayIsWindowFree | src/gen/minigen.cpp:157-173 | what structures leave at a cell depends only on the anchors that reach it, not on the window enumerated |
| Minigen.WorldFromAnyWindow | src/gen/minigen.cpp:157-175 | any ascending list of columns holding all anchors that reach a cell yields the world's cell |
| WorldShape.WorldIsShaped | src/gen/minigen.cpp:50-175 | without a tree a column is stone, three cells of dirt, grass or flower at the surface, then air; else the cell is wood or leaves of the last tree in z, x order |
| WorldShape.ShapeIsTheWorld | src/gen/minigen.cpp:50-175 | that description holds of a cell exactly when it is the world's cell |
| WorldShape.SurfaceIsGrassOrFlower | src/gen/minigen.cpp:142-151 | where no tree is, a column has grass or flower exactly at its surface height |
| WorldShape.HashToShape | src/gen/minigen.cpp:45-48 | surfaces lie in [8, 24) and trunks have 4 to 6 cells by the hash's remainder, and an anchor is a hash divisible by 48 |
| WorldShape.WorldIsLocal | src/gen/minigen.cpp:153-176 | a cell depends on the hash of the columns within two cells and on its own flower hash only |
| ChunkGen.WriteCell | src/gen/minigen.cpp:75-81 | a world cell is written if and only if it lies in the chunk, and nothing else changes |
| ChunkGen.TerrainFillChunk | src/gen/minigen.cpp:50-68 | the terrain loops fill every cell from the column's surface height: stone, three cells of dirt, grass, air |
| ChunkGen.ApplyStructure | src/gen/minigen.cpp:122-140 | canopy then trunk overlay exactly the structure's cells inside the chunk, the trunk winning |
| ChunkGen.DecorateChunk | src/gen/minigen.cpp:142-151 | grass turns to flower exactly where the hash says so |
| ChunkGen.GenerateChunk | src/gen/minigen.cpp:153-176 | at every signed position the generated chunk is the restriction of the one infinite world, and every cell fits the description in bands and trees |
| ChunkGen.ChunkOfLargerWindow | src/gen/minigen.cpp:157-173 | applying the anchors of any larger column window sorted by key gives the same cells: the reach-2 gather misses nothing |
| ChunkGen.GenerateRegionGather | src/gen/minigen.cpp:178-184 | the standard region is the restriction of the same world, chunk by chunk |
| StoreKeys.CoordOrder | src/world/chunk_key.hpp:21-27 | sign-flipped big-endian bytes order as the signed coordinates do |
| StoreKeys.ChunkKeyOrder | src/world/chunk_key.hpp:17-32 | byte order of chunk keys is (x, y, z) order and distinct chunks have distinct keys |
| StoreKeys.BoxOrder | src/world/belt.hpp:39-41 | the keys of a box are visited by z, then y, then x |
| StoreKeys.PutCoord | src/world/chunk_key.hpp:21-27 | writes the four key bytes of a coordinate at an offset and leaves the rest of the buffer alone |
| StoreKeys.WriteChunkStoreKey | src/world/chunk_key.hpp:17-32 | the written buffer is the 12-byte chunk key |
| Belt.PersistKeepsContent | src/world/belt.hpp:49-70 | persisting a generated chunk changes no answer of the store |
| Belt.LoadOrGenerate | src/world/belt.hpp:42-72 | a valid stored blob is returned without a put; anything else is regenerated and causes exactly one put of the packed world chunk under its key, whose outcome is the persisted flag; content answers never change |
| Belt.LoadOrGenerateRegion | src/world/belt.hpp:21-75 | one answer per key of the inclusive box in z, y, x order; an answer is flagged as stored exactly when the store held the chunk before, and as persisted exactly when it holds it after; the puts are those of the misses, in that order |
| Belt.SecondPassIsStored | src/world/belt.hpp:29-33 | in a second pass exactly the chunks reported as persisted come back from the store, and every chunk is the same |
| Belt.SecondPassOnAcceptingStore | src/world/belt.hpp:29-33 | if every put of the first pass was accepted, every chunk of a second pass comes from the store, with the same content |
| Belt.RemapSlotsToContent | src/world/belt.hpp:86-95 | every vertex slot inside the palette becomes the low 16 bits of its content id, others stay |
| Belt.RemapDecodes | src/world/belt.hpp:86-95 | remapping changes no decoded rectangle but for its slot |
| StreamWindow.DesiredMembers | src/world/stream.hpp:210-249 | the visited keys are exactly the keys in the window, without repeats |
| StreamWindow.PumpKeepsPurity | src/world/stream.hpp:104-181 | a pump keeps every resident's chunk and mesh functions of content and window, and leaves none outside the window |
| StreamWindow.PumpAdmits | src/world/stream.hpp:119-149 | each pump closes the gap by the budget or closes it entirely |
| StreamWindow.WindowIsSquare | src/world/stream.hpp:209-215 | the window is the square of its radius around the centre, in the band of its layers |
| StreamWindow.PumpFillsInsideOut | src/world/stream.hpp:119-140 | if a pump loads a chunk outside the square of radius r, the window of radius r is full afterwards; on one ring every chunk loaded comes before every chunk left out in (x, y, z) order |
| StreamWindow.PumpRestsIffComplete | src/world/stream.hpp:151-179 | after a pump the window is at rest exactly when nothing is missing |
| StreamWindow.QuiescentIffPumpIsIdle | src/world/stream.hpp:183-187 | the window is at rest exactly when the next pump reports no change, and then nothing changes |
| StreamWindow.AdmissionIsUnique | src/world/stream.hpp:119-140 | nearest-first admission under a budget leaves no choice |
| StreamWindow.PumpIsDeterministic | src/world/stream.hpp:97-104 | two pumps of the same residents give the same chunks and meshes whatever the puts did |
| StreamWindow.RunIsPure | src/world/stream.hpp:104-181 | over every run of centre moves and pumps from the empty window all residents stay pure |
| StreamWindow.RestIsPathIndependent | src/world/stream.hpp:104-199 | two runs over one world, with any budgets, at rest at the same centre hold the same chunks and meshes |
| StreamWindow.RestsAfterExactly | src/world/stream.hpp:130-149 | with the centre fixed, a window not at rest is at rest after i pumps exactly when i is at least max(1, ceil(missing / budget)) |
| Streamer.SortNearest | src/world/stream.hpp:126-132 | the missing keys come out from the centre outwards, and in (x, y, z) order on each ring, same keys |
| Streamer.BuildMesh | src/world/stream.hpp:162-171 | one mesh task yields greedy then remap of the chunk's content against its in-window neighbours |
| Streamer.Streamer.constructor | src/world/stream.hpp:81-88 | a new streamer is empty, centred at the origin, and fixes the content its store answers with |
| Streamer.Streamer.SetCenter | src/world/stream.hpp:91-95 | only the centre changes |
| Streamer.Streamer.Evict | src/world/stream.hpp:108-117 | exactly the residents outside the window go, and are counted |
| Streamer.Streamer.ForEachDesired | src/world/stream.hpp:240-249 | visits the window's keys in z, y, x order |
| Streamer.Streamer.Admit | src/world/stream.hpp:119-149 | the budget's worth of missing chunks is loaded from the centre outwards; each miss is put once, in the order of loading; exactly those the store held are flagged and counted as store hits, kept residents stay as they were |
| Streamer.Streamer.CollectWork | src/world/stream.hpp:154-161 | the work list is exactly the residents that need a mesh and have all in-window neighbours |
| Streamer.Streamer.BuildAll | src/world/stream.hpp:162-178 | after the tasks ran in any order exactly the listed residents are rebuilt against the current window |
| Streamer.Streamer.Pump | src/world/stream.hpp:104-181 | evict, admit and mesh refine one step of the window state machine, with the reported counts, and keep the streamer valid; the window fills from the inside out, and the puts are those of the loaded misses |
| Streamer.Streamer.IsQuiescent | src/world/stream.hpp:187-199 | the counting test is true exactly when the window is complete and every mesh current |
| Streamer.RestIsShared | src/world/stream.hpp:104-199 | two streamers whose stores answer alike, with any budgets, at rest at one centre hold the same chunks and meshes |
| Seams.CoveredIffVolumeOpaque | src/world/stream.hpp:267-285 | what the mesher sees across a chunk border is what the whole volume holds there |
| Seams.RestDrawsTheVolume | src/world/stream.hpp:151-178 | at rest the resident meshes, in world space, draw exactly the faces of the window meshed as one volume, with their content ids |
| Seams.RestDrawsOnce | src/mesh/greedy.cpp:127-166 | at rest no face is drawn twice, not even by two chunks |
| Seams.SeamShowsTheDifference | src/mesh/greedy.cpp:144-162 | between neighbouring window cells a face is drawn exactly when the opacities differ, from exactly one side |
| Seams.AnyStoreIsSound | src/world/voxel_blob.hpp:267-287 | whatever the store holds, every 16^3 chunk the belt returns is one the mesher accepts |
| Seams.StreamerDrawsTheVolume | src/world/stream.hpp:151-199 | any valid streamer at rest draws its window as one volume |
| Collision.DetFloorToInt | src/sim/det_math.hpp:74-79 | truncate and step down is the floor |
| Collision.RangeMeets | src/sim/collision_step.cpp:51-60 | a voxel is in the overlap range exactly when its interval meets the half-open box interval |
| Collision.BoxOverlapsSolid | src/sim/collision_step.cpp:67-80 | the scan finds a solid voxel exactly when the box overlaps one |
| Collision.Substep | src/sim/collision_step.cpp:107-129 | one substep moves, or is blocked and ends flush, or restored if that does not separate |
| Collision.Entity.SweepAxis | src/sim/collision_step.cpp:90-131 | the substep loop computes the specified sweep and zeroes the axis velocity exactly when blocked |
| Collision.Entity.CollisionStep | src/sim/collision_step.cpp:157-199 | entry clamp, integration, sweeps in order Y, X, Z, ground flag and exit clamp compute the specified step |
| CollisionProofs.StepEndsFree | src/sim/collision_step.cpp:120-124 | in any monotone rounding a step that starts free ends free unless the bound clamp moves it |
| CollisionProofs.StoppedIsFlush | src/sim/collision_step.cpp:113-124 | in exact arithmetic the clamp always separates: the box stops flush with the voxel entered, between previous and attempted position, and the restore never acts |
| CollisionProofs.SubstepSize | src/sim/collision_step.cpp:99-102 | substeps are shorter than 1/16 and add up to the displacement |
| CollisionProofs.SubstepCountVersusCeiling | src/sim/collision_step.cpp:99-101 | the substep count is the ceiling of 16 times the displacement exactly when that is no whole number, and one more otherwise |
| CollisionProofs.OneSubstepTooMany | src/sim/collision_step.cpp:99-101 | a displacement of 1/16 takes two substeps |
| CollisionProofs.SweepIsFirstContact | src/sim/collision_step.cpp:90-131 | in exact arithmetic the sweep goes all the way exactly when the whole segment is free and otherwise stops at the first contact |
| CollisionProofs.StepPathIsFree | src/sim/collision_step.cpp:187-192 | in exact arithmetic a step that starts free is free at every position of its three legs, at any speed |
| CollisionProofs.StepIsShort | src/sim/collision_step.cpp:99-101 | in exact arithmetic no leg of a step is longer than the speed limit times dt |
| CollisionProofs.FreeFlightLaw | src/sim/collision_step.cpp:177-199 | in exact arithmetic an unobstructed step inside the bound ends on each axis at pos + dt * clamp(damping * (vel + gravity * dt on y only)), with that velocity, off the ground |
| CollisionProofs.StepVelocity | src/sim/collision_step.cpp:177-192 | in exact arithmetic an axis ends with its free-flight velocity exactly when its leg is not blocked, and with zero otherwise |
| CollisionProofs.AxesAreIndependent | src/sim/collision_step.cpp:177-192 | in any rounding the new velocity of an axis that is not blocked depends on the old velocity of that axis alone |
| CollisionProofs.StepEndsInBound | src/sim/collision_step.cpp:196-198 | wherever it starts, a step ends inside the world bound |
| CollisionProofs.GroundIsReal | src/sim/collision_step.cpp:187-194 | in exact arithmetic the ground flag is true exactly when the downward leg is obstructed, and then the box stands on a solid voxel |
| CollisionProofs.RestIsFixpoint | src/sim/collision_step.cpp:173-194 | a box resting flush on a floor with zero velocity is a fixpoint of the step, on the ground |
| Solidity.PackKeyInjective | src/world/solidity.hpp:70-82 | packed chunk keys do not alias inside the domain |
| Solidity.SolidityWorld.AddChunk | src/world/solidity.hpp:36-47 | adding a chunk binds or replaces exactly its position |
| Solidity.SolidityWorld.SolidAt | src/world/solidity.hpp:50-66 | a cell is solid exactly when its chunk was added and its content is not air |
| Probes.ProbesDecide | src/sim/collision_step.cpp:106-129 | a sweep depends on the world only through the positions it tests |
| Probes.StepProbesStayNear | src/sim/collision_step.cpp:90-192 | in exact arithmetic no position a step tests is further from its clamped start on any axis than the speed limit times dt, or one voxel if the step starts inside something |
| Probes.AskedIff | src/sim/collision_step.cpp:51-80 | the voxels that free-starting legs can ask about on an axis are exactly those met from the reach before the world bound to the reach after it |
| Solidity.QueriesAreInDomain | src/world/solidity.hpp:31-35 | every cell a step asks about lies in the packed-key domain, for origins that keep both ends of the step's reach in it |
| Solidity.OffsetFitsIff | src/world/solidity.hpp:31-35 | per axis that origin bound is sharp: all cells asked about are in the domain exactly when the origin keeps both ends of the reach in it (the kernel itself accepts origins up to 2^30) |
| Rebase.TouchesShift | src/sim/collision_step.cpp:63-80 | the box touches the same world voxels before and after a rebase |
| Rebase.StepCommutesWithRebase | src/sim/rebase.cpp:91-122 | in exact arithmetic a step without its bound clamps then a rebase equals the rebase then that step with the origin shifted |
| Rebase.ClampedStepCommutes | src/sim/rebase.cpp:91-122 | the whole step commutes with a rebase while its bound clamps are idle in both frames |
| Replay.RebaseFrame | src/sim/rebase.cpp:91-122 | shifts the origin and every position, and reports whether every moved axis adds back |
| Replay.StepAll | src/sim/rebase.cpp:164-166 | every entity is stepped once in the frame's local space |
| Replay.RunRebasedReplay | src/sim/rebase.cpp:124-184 | the kick, step and rebase loop computes the specified run and its exactness flag |
| Replay.FrameFollowsSchedule | src/sim/rebase.cpp:168-177 | for a schedule in order, after n steps exactly the events up to step n were applied, and the origin has moved by their sum |
| Replay.KicksGoRound | src/sim/rebase.cpp:155-162 | of n entities entity i alone is kicked after 16i steps and then every 16n |
| Replay.RebasesAreInvisible | src/sim/rebase.cpp:155-177 | while no bound clamp acts, an exact run with rebases is the run without them seen in world space, and every rebase is exact |
| Replay.SchedulesAgree | src/sim/rebase.hpp:11-24 | any two schedules give the same origin-plus-local trajectory in exact arithmetic |
| Binary32.RoundExact | src/sim/rebase.cpp:94-103 | values of at most 24 bits round to themselves and every result is such a value |
| Binary32.RoundIsNearest | src/sim/rebase.cpp:94-103 | no representable value is nearer to the exact result than the rounded one |
| Binary32.TiesToEven | src/sim/rebase.cpp:94-103 | from half way between two multiples the even one is taken |
| Binary32.RebaseFrame | src/sim/rebase.cpp:91-122 | the entity loop moves every position by one rounded subtraction and computes the add-back flag over the moved axes |
| Binary32.AddsBackIffExact | src/sim/rebase.cpp:104-117 | below 2^24 cells and under any delta add-back succeeds exactly when the subtraction was exact and the position was not a negative zero |
| Binary32.NearDeltaIsExact | src/sim/rebase.hpp:15-19 | at or beyond half the converted delta on its side, so in the whole Sterbenz window, the subtraction is exact and the flag true |
| Binary32.ExactDeltaIff | src/sim/rebase.cpp:94-96 | a delta survives its conversion exactly when it has at most 24 significant bits, which a caller can test |
| Binary32.FlagConservesWorldPositions | src/sim/rebase.hpp:50-53 | under a true flag an entity below 2^24 cells keeps origin plus local on all axes exactly when all three deltas survive conversion |
| Binary32.FlagIsSoundIff | src/sim/rebase.hpp:50-53 | a true flag keeps every entity below 2^24 cells where it is in the world exactly when all three deltas survive conversion |
| Binary32.InexactDeltaIsMissed | src/sim/rebase.cpp:94-111 | with dx = 2^24 + 1 the flag is true and an entity at zero moves by one whole cell |
| Binary32.BoundIsSharp | src/sim/rebase.cpp:104-111 | add-back implies an exact subtraction for all positions of at most B cells and all deltas exactly when B is below 2^24 |
| Binary32.ConservationBoundIsSharp | src/sim/rebase.cpp:104-111 | with deltas that survive conversion, add-back keeps the world position for all positions of at most B cells exactly when B is below 2^24 |
| Binary32.AtTheBoundLossIsMissed | src/sim/rebase.cpp:104-111 | at 2^24 cells a delta of -3 adds back although the subtraction rounded |
| Registry.IsValidContentName | src/world/identity.hpp:42-58 | the scan accepts exactly namespace:name with parts of 1 to 64 legal characters |
| Registry.RunKeepsBindings | src/world/registry.hpp:54-78 | over every run of register and tombstone names stay distinct, ids dense, and no binding changes |
| Registry.RevivalKeepsId | src/world/registry.hpp:58-61 | registering a known name again, after any run, gives its old id and revives it |
| Registry.ParsedOfManifest | src/world/registry.hpp:105-173 | loading a saved registry gives the registry back |
| Registry.ManifestOfParsed | src/world/registry.hpp:105-173 | an accepted manifest saves back to the same bytes exactly when its reserved bytes are zero |
| Registry.NameAlphabet | src/world/identity.hpp:36-58 | the characters of a name part are the letters a to z, the digits and the underscore |
| Registry.ManifestHeader | src/world/registry.hpp:105-117 | a manifest starts with 56 58 52 47, version 1, three zeros and the entry count |
| Registry.ManifestEntry | src/world/registry.hpp:118-125 | behind the entries before it, entry i is its flag, its length low byte first, and its name |
| Registry.ContentRegistry.RegisterContent | src/world/registry.hpp:54-68 | allocates, revives or refuses as specified, and keeps both directions of the binding inverse |
| Registry.ContentRegistry.TombstoneId | src/world/registry.hpp:72-78 | clears the flag of a bound id and nothing else |
| Registry.ContentRegistry.NameOf | src/world/registry.hpp:91-96 | bound ids resolve to the name whose id they are, others to nothing |
| Registry.ContentRegistry.Serialize | src/world/registry.hpp:105-127 | the byte loops write the manifest of the entries |
| Registry.ContentRegistry.Deserialize | src/world/registry.hpp:129-173 | accepts exactly the well-formed manifests, and never yields partial state |
| Handles.HandleFields | src/world/identity.hpp:77-90 | index and generation read back from a handle, index in the low 32 bits, and determine it |
| Handles.ReissueHistory | src/world/registry.hpp:198-204 | taking a dead slot again repeats a handle exactly when the slot was released 2^32 times |
| Handles.EntitySlotAllocator.LiveIsIssuedNotReleased | src/world/registry.hpp:228-240 | without generation wrap a handle is live exactly when issued and not yet released |
| Handles.EntitySlotAllocator.Allocate | src/world/registry.hpp:196-211 | hands out the slot freed last, else a new one at generation 0, as a fresh live handle, or on an exhausted index domain only the invalid one; free list and history stay exact |
| Handles.EntitySlotAllocator.Release | src/world/registry.hpp:217-226 | ends exactly live handles and frees their slot last, and refuses stale ones without effect |
| Handles.UuidLess | src/world/identity.hpp:161-167 | the byte loop is the strict lexicographic order |
| Handles.UuidIndex.Bind | src/world/registry.hpp:258-265 | binds a pair exactly when both sides are free and keeps the two maps inverse |
| Handles.UuidIndex.Unbind | src/world/registry.hpp:267-275 | removes both directions of one binding and nothing else |
| Handles.UuidIndex.PathsAgree | src/world/registry.hpp:277-298 | the two resolve paths never disagree and never answer with a dead handle |
| Scans.RangeIsPrefix | src/store/sqlite_store.cpp:17-29 | the range from a prefix to its upper bound holds exactly the keys with the prefix |
| Scans.PrefixRangeIsConvex | src/store/memory_store.hpp:61-69 | between a prefix and a key that has it every key has it |
| Scans.ChunkScanIsNumeric | src/world/chunk_key.hpp:17-32 | scans of chunk keys come out in signed (x, y, z) order |
| Stores.PrefixUpperBound | src/store/sqlite_store.cpp:17-29 | the trimming loop computes the bound, empty when unbounded |
| Stores.MemoryStore.ApplyBatch | src/store/memory_store.hpp:43-55 | applies all operations in order, or none when a key is empty |
| Stores.LastWriteWins | src/store/memory_store.hpp:43-55 | after a batch a key holds what the last operation on it left there |
| Stores.UntargetedKeeps | src/store/memory_store.hpp:43-55 | a key that no operation of the batch targets keeps its value |
| Stores.MemoryStore.ScanPrefix | src/store/memory_store.hpp:57-73 | shows the rows with the prefix in key order until the visitor stops |
| Stores.SqliteStore.ApplyBatch | src/store/sqlite_store.cpp:193-223 | succeeds exactly when no call failed, and then every operation was applied in one transaction; after any failure every table is as it was |
| Stores.SqliteStore.ScanPrefix | src/store/sqlite_store.cpp:225-254 | shows the same rows in the same order as the memory store's scan |
| LodHash.HashBytes | src/world/lod_pyramid.hpp:116-125 | the byte loop computes FNV-1a over the input from any seed |
| LodHash.HashParent | src/world/lod_pyramid.hpp:141-161 | the nested byte loops hash level, presence mask and the present children in octant order |
| LodHash.XorBits | src/world/lod_pyramid.hpp:116-125 | each bit of the exclusive or is one exactly where the operands differ |
| LodHash.KnownHashes | src/world/lod_pyramid.hpp:111-125 | the empty input and the letter a have their published FNV-1a values |
| LodHash.HashInputLayout | src/world/lod_pyramid.hpp:133-161 | the hashed bytes are the level, one presence bit an octant, and each present child's hash behind those of the octants before it |
| LodHash.HashInputInjective | src/world/lod_pyramid.hpp:133-135 | what is hashed for a node determines its level and all its children |
| LodHash.OneByteChangesHash | src/world/lod_pyramid.hpp:116-125 | equal-length inputs that differ in exactly one byte never share a hash, from any seed |
| Lod.ChildOfParent | src/world/lod_pyramid.hpp:63-85 | a node is the child of its parent in its own octant |
| Lod.ParentOfChild | src/world/lod_pyramid.hpp:63-85 | the parent of a child is the node, and its octant the one asked for |
| Lod.ChildHalves | src/world/lod_pyramid.hpp:70-85 | bit 0 of the octant is the upper half along x, bit 1 along y, bit 2 along z |
| Lod.DirtyChain | src/world/lod_pyramid.hpp:165-177 | the parent loop collects one covering node a level, 29 in all |
| Lod.ChainIsCoveringNodes | src/world/lod_pyramid.hpp:163-177 | the dirty chain is exactly the nodes whose box contains the chunk |
| Lod.ChainEndsInRoot | src/world/lod_pyramid.hpp:16-19 | for coordinates in [-2^28, 2^28) the chain ends in a root of {-1, 0}^3 |
| Lod.RehashEqualsRebuild | src/world/lod_pyramid.hpp:21-28 | after one chunk edit re-hashing the dirty chain gives the pyramid a rebuild would give |
| Lod.WriteStorageKey | src/world/lod_pyramid.hpp:94-109 | the written buffer is the 13-byte node key |
| Lod.StorageKeyOrder | src/world/lod_pyramid.hpp:87-109 | byte order of node keys is (level, x, y, z) order and distinct nodes have distinct keys |
| Lod.LevelIsPrefix | src/world/lod_pyramid.hpp:87-91 | a one-byte prefix selects one level |
| Lod.NodeScanIsNumeric | src/world/lod_pyramid.hpp:87-109 | scans of node keys come out in (level, x, y, z) order |
| Labels.JoinOfSplit | src/script/capability.hpp:95-114 | joining the segments of a name gives the name back |
| Labels.SplitOfJoin | src/script/capability.hpp:95-114 | splitting a name joined from separator-free segments gives the segments back |
| Capability.ValidSegment | src/script/capability.hpp:57-86 | the character pass accepts exactly segments of legal length whose dot-labels are plain, with a wildcard only as a whole leading label |
| Capability.SplitValidate | src/script/capability.hpp:95-114 | returns the number of segments and cuts them out, or zero exactly when the text breaks the grammar |
| Capability.ByteMatchIsLabelMatch | src/script/capability.hpp:119-127 | the suffix test on bytes is the label rule: one or more labels, then the labels of the suffix |
| Capability.WildcardIsSuffix | src/script/capability.hpp:28-33 | "*.s" matches exactly the texts with something and a dot in front of s |
| Capability.PlainMatches | src/script/capability.hpp:26-27 | "*" matches any segment and a literal only itself |
| Capability.PlainAlphabet | src/script/capability.hpp:12-14 | plain characters are the letters a to z, the digits, underscore and hyphen |
| Capability.ExtendedIsGrammatical | src/script/capability.hpp:11-15 | one more literal segment keeps a capability legal exactly when it has 1 to 63 characters and the whole at most 8 segments and 255 characters |
| Capability.CapabilityGrantCovers | src/script/capability.hpp:148-171 | the check holds exactly when both sides are grammatical and the grant's segments match a prefix of the request's |
| Capability.CoversExtensions | src/script/capability.hpp:21-23 | a covered request stays covered when segments are appended |
| Capability.CoversTransitive | src/script/capability.hpp:148-171 | covering is transitive through any wildcard-free middle |
| Capability.LiteralGrantIsPrefix | src/script/capability.hpp:21-25 | a wildcard-free grant covers exactly itself and its extensions at a colon |

## Left out

- Rendering, windowing, shaders, GPU kernels, the tools and the job scheduler's internals: nothing here to prove against; mesh tasks run in any order, one after the other.
- Bit-identity across compilers, MXCSR handling, golden and replay hashes: properties of toolchains and test harnesses.
- The values of `splitmix64`, `hashCoords` and `worldSolid`: the hash is uninterpreted and solidity arbitrary.
- `generateRegionScatter` and `structureSpanStats`: a deliberately schedule-dependent control and test statistics.
- Formatting, parsing and minting UUIDs, LOD payloads, `virtualCoord` in binary64, the player step and parallel meshing: small, or covered by the results above.
- CollisionProofs.StepEndsFree: says nothing about a step whose end the world-bound clamp moves, because the clamp does not test for overlap.
- CollisionProofs.SweepIsFirstContact: in exact arithmetic only, because in binary32 the flush position itself rounds; the end-state half holds in any rounding.
- Replay.SchedulesAgree: in exact arithmetic and while no bound clamp acts, because in binary32 different schedules really differ and the clamp acts in local coordinates.
- Replay.RebaseFrame: works on real numbers, so the bit comparison's view of signed zeros is not in it; `Binary32.RebaseFrame` compares signs and magnitudes.
- Replay.RunRebasedReplay: the entities and the step count are parameters instead of being spawned from constants, the kicks are a function of step and old velocity, and checkpoint hashing is not modelled.
- Binary32.RebaseFrame: infinities, NaN and overflow, of positions and of the 32-bit origin, are not modelled; positions are an array of points because only positions change.
- Belt.LoadOrGenerate: uses a store whose put may fail and keeps the chunk space only; `Stores` models both real stores.
- Streamer.Streamer.Pump: residents are values in a map, so that map nodes keep their addresses is not captured.
- Solidity.QueriesAreInDomain: in exact arithmetic; the rounding of binary32 positions near the world bound is not in it.
- Solidity.SolidityWorld.AddChunk: holds the chunk itself, not a pointer that the caller must keep alive.
- Stores.SqliteStore.Put: preparing and finalising statements and the version check on open are not modelled; a failing statement leaves the error standing as in the code.
- Handles.EntitySlotAllocator.Allocate: beyond 2^32 releases of one slot handles can repeat, which `Handles.ReissueHistory` states exactly.
