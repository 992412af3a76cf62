# sp_arena: a verified model of a block-chain bump allocator

This project models the allocation engine of the `sp_arena` C library in
Dafny and proves what that engine guarantees.

- **What the engine does.** An arena owns a singly linked chain of blocks
  and a `current` cursor into that chain. Each block is a fixed-size region
  of memory with a `used` cursor. A request is bumped from the current
  block at the next aligned offset. When the request does not fit, later
  blocks are tried, and blocks that do not fit are reset to empty on the
  way. When no block fits, a new block is linked right after the current
  one. A temporary scope takes a checkpoint of the current block, its
  `used` and the arena's `total_used`, and can rewind to it. Clearing
  empties every block and keeps the memory.
- **Two revisions.** The repository has two revisions of the engine:
  - `sp_arena.c`, the later one;
  - `spar.c`, an earlier one that sizes blocks, allocates and resizes
    differently.

  Both share the declarations of `spar.h`. `sp_arena.c` includes
  `sp_arena.h`, which is not part of this model; its declarations are
  taken to be those of `spar.h`.

The project is organised by module:

| module | file | role |
|---|---|---|
| `Alignment` | alignment.dfy | `is_power_of_two` and `align_forward`, with `&` and `& ~` written out bit by bit and proved equal to the arithmetic they compute |
| `ArenaTypes` | arena_types.dfy | the records, the error enum and its codes, the size macros, the defaults, and the unsigned operations on `size_t` and `uint32_t` |
| `ArenaCommon` | arena_common.dfy | the code both revisions share as functions on `ArenaState`: configuration checks, block acquisition and linking, the invariants, clearing, checkpoints, error strings |
| `SpArenaSpec` | sp_arena_spec.dfy | the engine of `sp_arena.c` as functions, with its `Valid` (well-formed chain, no block overfilled) and `Consistent` (counters agree with the blocks) invariants |
| `SpArenaProps` | sp_arena_props.dfy | what the engine of `sp_arena.c` guarantees: the error paths, the fast path, first fit, invariant preservation, no overlap with live allocations, the resize cases and temporary scopes |
| `SpArenaScenarios` | sp_arena_scenarios.dfy | concrete runs: the default arena, growth, a fixed-size arena, the temporary scope of `example/example.c`, and the rewind that leaves a later block full |
| `SpArena` | sp_arena.dfy | class `Arena`, the arena object of `sp_arena.c`, whose methods update the chain in place |
| `SparSpec`, `SparProps` | spar_spec.dfy, spar_props.dfy | the engine of `spar.c` as functions, and what it guarantees (including its defects) |
| `Spar` | spar.dfy | class `Arena`, the arena object of `spar.c` |

The chain and its pointers are modelled as follows:

- **The chain** is a `seq<Block>` in chain order, and `current` is an index
  into it.
- **Block identity** (its address in C) is an `id`, the number of blocks
  that existed when it was created. A returned pointer is `Addr(id,
  offset)`, or `Null`.
- **The low-level allocator** is a `MemoryOracle`. It says whether the two
  requests `create_block` makes, for the region and then for the control
  node, succeed. The allocation of the arena record itself is the
  `arenaOk` flag of `Create`.
- **The functions and the classes.**
  - The spec functions return the new arena and the pointer as a `Step`.
  - Every method of the two classes is proved to leave the object in the
    state, and to return the pointer, that the matching function computes
    from the old state (`ensures Step(State(), p) == SpArenaSpec.Alloc(old(State()), size, mem)`).
  - So everything proved about the functions holds for the objects.
  - The chain walks of `alloc_internal`, `clear` and `destroy` are `while`
    loops with invariants.
- **Unsigned arithmetic.**
  - The additions are unbounded.
  - The subtractions that can go below zero on `size_t` wrap modulo 2^64
    (`SizeSub`). These are the resize adjustments and the counters given
    back after a moved resize.
  - `sizeof(type) * count` wraps likewise (`SizeMul`).
  - The size macros compute in `uint32_t`, modulo 2^32.

The model follows the code as written:

- **`temp_end`.** It does not reset later blocks, although the comment at
  sp_arena.c:363 says it does; see "## Findings".
- **Fixed-size arenas in `spar.c`.** A fixed-size `spar.c` arena still
  links a new block when its current block has room, although spar.h:87
  says a fixed-size arena allocates no additional blocks; see
  "## Findings".
- **`spar.c` block sizing.** `spar.c` sizes an oversized block from the
  configured size, not from the request as `sp_arena.c` does; see
  "## Findings".

## Model

| member | source | states |
|---|---|---|
| Alignment.AlignForward | sp_arena.c:20-25 | `(ptr + align - 1) & ~(align - 1)` is a multiple of `align` in `[ptr, ptr + align)` |
| Alignment.AlignForwardIsLeast | sp_arena.c:20-25 | no multiple of `align` that is `>= ptr` is smaller than `align_forward(ptr, align)` |
| Alignment.AlignForwardIs | spar.c:16-21 | `align_forward` is the unique multiple of `align` in `[ptr, ptr + align)` |
| Alignment.AlignForwardAligned | sp_arena.c:20-25 | an already aligned cursor is left where it is |
| Alignment.AlignForwardZero | sp_arena.c:212 | an empty block needs no padding |
| Alignment.RoundsUp | spar.c:19-20 | clearing the low bits of `ptr + mask` rounds up to the next multiple |
| Alignment.BitClearLowBits | sp_arena.c:23-24 | `x & ~(2^k - 1)` is `x` rounded down to a multiple of `2^k` |
| Alignment.PowerOfTwoIff | sp_arena.c:15-17 | `n != 0 && (n & (n - 1)) == 0` holds exactly when `n` is a power of two |
| Alignment.PowerOfTwoLog | spar.c:23-25 | every `n` that passes `is_power_of_two` is some `2^k` |
| Alignment.Pow2IsPowerOfTwo | sp_arena.c:15-17 | every `2^k` passes `is_power_of_two` |
| Alignment.OddIsNotPowerOfTwo | sp_arena.c:15-17 | an odd number above 1 fails `is_power_of_two` |
| ArenaTypes.Code | spar.h:60-68 | the seven error kinds have codes 0..6, and only `SP_ARENA_ERR_NONE` is 0 |
| ArenaTypes.FromCode | spar.h:60-68 | a code names an error kind exactly when it is in 0..6, and then it names the one with that code |
| ArenaTypes.CodeRoundTrip | spar.h:60-68 | decoding an error kind's code gives that error kind back |
| ArenaTypes.KB | spar.h:29 | `KB(n)` is `1024 * n` modulo 2^32 |
| ArenaTypes.MB | spar.h:30 | `MB(n)` is `2^20 * n` modulo 2^32 |
| ArenaTypes.GB | spar.h:31 | `GB(n)` is `2^30 * n` modulo 2^32 |
| ArenaTypes.TB | spar.h:32 | `TB(n)` is 0 for every `n`, since `2^40` vanishes modulo 2^32 |
| ArenaTypes.SizeMacroExamples | spar.h:29-37 | `KB(64)` is 65536, `MB(1)` is 2^20 and `GB(1)` is 2^30, while `GB(4)` and `TB(1)` are 0 |
| ArenaTypes.U32OfProduct | spar.h:30-32 | reducing an inner macro result modulo 2^32 does not change the outer product modulo 2^32 |
| ArenaTypes.DefaultsAreSound | spar.h:36-42 | the default block size is 65536, and the default alignment (the pointer size) and the page granularity are powers of two |
| ArenaTypes.SizeMul | spar.h:261 | `sizeof(type) * count` is below 2^64, and is the true product when that is below 2^64 |
| ArenaTypes.StrLen | sp_arena.c:320 | `strlen` counts the characters before the first NUL, and a shorter count ends at a NUL |
| ArenaCommon.InstallDefaults | sp_arena.c:96-103 | the configuration is kept, except that a missing allocator pair becomes `malloc`/`free` |
| ArenaCommon.InstallDefaultsKeepsValid | spar.c:92-99 | installing the default routines keeps a valid configuration valid and leaves both routines set |
| ArenaCommon.Acquire | sp_arena.c:45-65 | the block is acquired exactly when both allocator calls succeed. Then it is a fresh empty block of the given size, and `total_allocated` grows by that size and by nothing else. Otherwise only `last_err` changes, to OUT_OF_MEMORY |
| ArenaCommon.Grow | sp_arena.c:197-214 | when acquisition fails, only `last_err` changes, to OUT_OF_MEMORY. Otherwise the new block, holding `size` bytes, is linked right after the current block with the old rest of the chain behind it. It becomes current, and the result is its offset 0. `total_allocated` grows by the block's size and `total_used` by `size` |
| ArenaCommon.GrowKeepsConsistent | sp_arena.c:207-214 | linking and filling a new block keeps `total_used` equal to the blocks' `used` up to the current one, and keeps later blocks empty |
| ArenaCommon.InsertAfter | sp_arena.c:207-209 | splicing a block in after position `c` adds its `used` to the prefix sum through it and shifts the later blocks by one |
| ArenaCommon.InsertFresh | sp_arena.c:207-209 | splicing in a block with a fresh id keeps the ids distinct and adds its size to the blocks' total size |
| ArenaCommon.Find | sp_arena.c:361 | the position of a block in the chain, found through its id: the first block with that id, or the chain's length when there is none |
| ArenaCommon.FindDistinct | sp_arena.c:361 | in a chain with distinct ids, a block's id leads back to its own position |
| ArenaCommon.GiveBackKeepsAccounting | sp_arena.c:295-296 | taking `n` bytes back from a block at or before the current one, and from `total_used`, keeps the counters in agreement |
| ArenaCommon.KeepsPrefixExtends | sp_arena.c:172-214 | an allocation that leaves every block up to the old current one unchanged extends the chain in the sense checkpoints need |
| ArenaCommon.KeepsPrefixTransitive | spar.c:155-186 | moving to the next block and then linking a new one still leaves the blocks up to the old current one unchanged |
| ArenaCommon.SameShapeKeepsChained | sp_arena.c:153 | changing only `used` cursors, and moving `current` within the chain, keeps a well-formed chain well formed |
| ArenaCommon.SumUsedSkipsEmpty | sp_arena.c:172-194 | empty blocks between the current block and a later one add nothing to `total_used` |
| ArenaCommon.ClearKeepsBlocks | sp_arena.c:375-393 | after `clear` every block is empty and the first one is current. `total_used` is 0, and the chain, the block sizes, `total_allocated` and `last_err` are kept, so every invariant holds |
| ArenaCommon.ClearIdempotent | spar.c:357-375 | clearing twice is clearing once |
| ArenaCommon.TempBegin | sp_arena.c:342-344 | the checkpoint records the arena, the current block, its `used` and `total_used` |
| ArenaCommon.TempEndKeepsChained | sp_arena.c:360-367 | rewinding keeps the chain well formed, and keeps every block within its size when the checkpoint's `used` fits its block |
| ArenaCommon.TempBeginFits | sp_arena.c:342-344 | a checkpoint taken on an arena whose blocks are within their sizes can be restored, and fits its block, in every arena moved forward from it |
| ArenaCommon.TempRoundTrip | sp_arena.c:327-372 | ending a checkpoint right after taking it gives back the same arena |
| ArenaCommon.TempScopeRewinds | sp_arena.c:353-372 | after any run of operations that keeps the blocks up to the checkpoint, `temp_end` restores `current`, `total_used` and every block up to the checkpoint block, and the counters agree again |
| ArenaCommon.TempEndResettingRewinds | sp_arena.c:363 | the rewind that also empties the later blocks agrees with `temp_end` up to the checkpoint block. It also leaves every later block empty, so every invariant holds again |
| ArenaCommon.ExtendsTransitive | sp_arena.c:327-372 | a run of operations that each keep the checkpointed prefix keeps it as a whole |
| ArenaCommon.ErrorStringsDistinct | sp_arena.c:429-449 | every error kind has its own message, and none of them is "Unknown error" |
| ArenaCommon.ErrorStringUnknown | sp_arena.c:446-447 | every code outside the enum gives "Unknown error" |
| SpArenaSpec.BlockSize | sp_arena.c:35-43 | the block holds the request. It is the configured size when the request fits that size, and otherwise the request rounded up to a multiple of 4096 |
| SpArenaSpec.BlockSizeIsLeast | sp_arena.c:39-43 | an oversized block is the smallest multiple of 4096 that holds the request |
| SpArenaSpec.Create | sp_arena.c:74-123 | construction succeeds exactly when the arena record, a valid configuration and both block allocations are available. Then the arena has one empty block of the configured size, which is current. `total_allocated` is that size, `total_used` is 0, the default routines are installed and no error is recorded |
| SpArenaSpec.AllocInternal | sp_arena.c:125-221 | the arena stays well formed and extends the old one. Null comes with `last_err` INVALID_SIZE, INVALID_ALIGNMENT or OUT_OF_MEMORY, in that order of checks, and with the cursor and both counters unchanged. After a refused size or alignment, or on a fixed-size arena, no block changes either; after a failed walk on a growable arena, every block after the current one has been emptied and nothing else has changed. A result is an aligned offset, at or past the landing block's old `used` (offset 0 in a new block), and the block's `used` now ends right after the request |
| SpArenaSpec.SetUsedKeepsValid | sp_arena.c:365 | restoring a block's `used` to a value within its size keeps the arena well formed |
| SpArenaSpec.Scan | sp_arena.c:173-194 | the walk over the later blocks keeps the arena well formed |
| SpArenaSpec.ScanSound | sp_arena.c:173-203 | the walk keeps every block up to the old current one. When it fails, OUT_OF_MEMORY is recorded, every block from where the walk started has been emptied, and nothing else changes. When it succeeds, the request sits at an aligned offset of the block it landed in, or of a new block linked after the old current one |
| SpArenaSpec.ScanEmptiesPassed | sp_arena.c:172-214 | the whole state after the walk from a position. Every block from there up to the one the walk stops at is emptied. Landing in a block makes it current, with the request ending at its new `used` and `total_used` grown by the request and its padding. Running off the chain links a block of `create_block`'s size after the current one, holding exactly the request, with both counters grown. A failed `create_block` records OUT_OF_MEMORY, and every block from the starting position on stays emptied |
| SpArenaSpec.NewBlock | sp_arena.c:197-214 | a new block sized by `create_block` is linked right after the current block, holds exactly the request and becomes current, and the result is its offset 0. Failure changes only `last_err`, to OUT_OF_MEMORY |
| SpArenaSpec.GrowKeepsBounded | sp_arena.c:197-213 | a new block large enough for the request is not overfilled |
| SpArenaSpec.Alloc | sp_arena.c:224-226 | `sp_arena_alloc` uses the configured alignment and keeps the arena well formed |
| SpArenaSpec.Resize | sp_arena.c:241-314 | every outcome of `sp_arena_resize` keeps the arena well formed and extends the old one |
| SpArenaProps.AllocRejects | sp_arena.c:126-136 | a zero size and a bad alignment each give null and change only `last_err`, to INVALID_SIZE and INVALID_ALIGNMENT |
| SpArenaProps.AllocFixedRefuses | sp_arena.c:163-170 | a fixed-size arena whose current block cannot take the request gives null and changes only `last_err`, to OUT_OF_MEMORY |
| SpArenaProps.AllocFastPath | sp_arena.c:145-160 | a request that fits the current block is placed at `align_forward(used)`. Then `used` becomes that offset plus the size, and `total_used` grows by exactly the growth of `used`. No other block, cursor or counter changes |
| SpArenaProps.NewBlockShape | sp_arena.c:197-214 | the whole new state after linking a block: the chain with the new block spliced in after the old current one, the new cursor and both counters |
| SpArenaProps.AllocMovesToNext | sp_arena.c:173-189 | on a growable arena, when the current block cannot take the request and the next one can, the request goes to the next block at its aligned `used`, and nothing else changes |
| SpArenaProps.ScanFirstFit | sp_arena.c:174-194 | the walk lands in the first block that fits, and it links a new block (or fails) only when no later block fits |
| SpArenaProps.FirstFitStepBack | sp_arena.c:191-193 | emptying a block that does not fit does not change which block fits first after it |
| SpArenaProps.AllocFirstFit | sp_arena.c:145-214 | an allocation lands in a block that fits, and every block from the old current one to it does not fit. A new block, or the failure of a growable arena, happens only when no block from the current one on fits |
| SpArenaProps.AllocFirstFitHere | sp_arena.c:150-160 | a request that fits the current block is the first fit |
| SpArenaProps.AllocEmptiesPassed | sp_arena.c:163-214 | on a growable arena, a request the current block cannot take ends in the state of `SpArenaSpec.ScanEmptiesPassed` from the next block: the later blocks passed over are emptied, and the request lands in the first one with room, or in a new block linked after the current one, or fails with the passed blocks still emptied |
| SpArenaProps.AllocFirstFitLater | sp_arena.c:163-214 | a request that does not fit the current block of a growable arena goes to the first later block that fits |
| SpArenaProps.ScanKeepsConsistent | sp_arena.c:174-214 | the walk keeps `total_used` equal to the `used` of the blocks up to the current one, and keeps later blocks empty |
| SpArenaProps.NewBlockKeepsConsistent | sp_arena.c:197-214 | linking a new block keeps the counters in agreement |
| SpArenaProps.LandingKeepsConsistent | sp_arena.c:178-188 | landing in a later block, past emptied ones, keeps the counters in agreement |
| SpArenaProps.AllocKeepsConsistent | sp_arena.c:125-221 | on an arena whose counters agree and whose later blocks are empty, every allocation keeps both so, and a failure changes only `last_err`, because the blocks a failed walk empties were empty already |
| SpArenaProps.AllocAvoidsLive | sp_arena.c:150-214 | a new allocation never overlaps a live allocation: one in a block up to the current one, below that block's `used` |
| SpArenaProps.FixedArenaNeverGrows | sp_arena.c:163-170 | on a fixed-size arena, allocation and resize never add a block, move `current` or change `total_allocated` |
| SpArenaProps.ResizeInPlace | sp_arena.c:277-313 | at the tail, shrinking or growth that fits returns the same pointer. It changes only the current block's `used`, by `new_size - old_size`, and `total_used` by the same amount, so the counters still agree |
| SpArenaProps.ResizeMoves | sp_arena.c:278-303 | at the tail, growth that overflows is refused with OUT_OF_MEMORY on a fixed-size arena, and is otherwise a fresh allocation. If that allocation succeeds, the new pointer is returned and the state is the allocation's, with `old_size` given back to the old block's `used` and to `total_used`; nothing else differs |
| SpArenaProps.ResizeRejects | sp_arena.c:241-275 | a null pointer or a zero size gives null and changes only `last_err`, to INVALID_SIZE; a pointer that is not the current block's last allocation gets exactly `sp_arena_alloc(arena, new_size)` |
| SpArenaProps.ResizeDisjoint | sp_arena.c:262-303 | a resize that moves the allocation puts it where it does not overlap the old one |
| SpArenaProps.ResizeKeepsConsistent | sp_arena.c:241-314 | every outcome of resize keeps the counters in agreement |
| SpArenaProps.ResizeMovedKeepsConsistent | sp_arena.c:290-297 | the moved resize, with `old_size` given back to the old block and to `total_used`, keeps the counters in agreement |
| SpArenaProps.AllocAll | sp_arena.c:224-231 | any run of allocations keeps the arena well formed and the checkpointed prefix intact |
| SpArenaProps.AllocAllKeepsConsistent | sp_arena.c:125-221 | any run of allocations keeps the counters in agreement |
| SpArenaProps.TempScopeRestores | sp_arena.c:327-372 | a checkpoint, any run of allocations and `temp_end` give back `current`, `total_used` and every block up to the checkpoint block. The arena is well formed and the counters agree |
| SpArenaProps.TempScopeResettingRestores | sp_arena.c:363 | with the rewind that also empties later blocks, the same scope restores every invariant, later blocks empty included |
| SpArenaScenarios.DefaultArenaBumps | sp_arena.c:145-160 | on the default arena, 400 bytes and then a 13-character string land at offsets 0 and 400 of the first block |
| SpArenaScenarios.SmallArenas | sp_arena.c:74-123 | a 1 KiB arena, growable or fixed, starts with one empty 1024-byte block |
| SpArenaScenarios.FirstRequest | sp_arena.c:150-160 | the first request on an empty block is at offset 0 |
| SpArenaScenarios.SmallSecondBlock | sp_arena.c:197-214 | with 900 of 1024 bytes used, 200 bytes go to a new 1024-byte block at offset 0 |
| SpArenaScenarios.SecondBlock | sp_arena.c:150-214 | on 1 KiB blocks, 900 bytes and then 200 bytes land at block 0 offset 0 and block 1 offset 0, with 2048 bytes allocated |
| SpArenaScenarios.OversizedBlock | sp_arena.c:39-43 | on 1 KiB blocks a 5000-byte request gets its own 8192-byte block |
| SpArenaScenarios.FixedArenaRefuses | sp_arena.c:163-170 | a fixed 1 KiB arena refuses 200 bytes after 900, with OUT_OF_MEMORY and nothing else changed |
| SpArenaScenarios.DefaultAfterTwenty | sp_arena.c:145-160 | after 20 bytes, the next request is placed at 24 |
| SpArenaScenarios.DefaultScope | sp_arena.c:327-372 | a 40-byte scope after 20 bytes is placed at 24, and ending it gives back the arena as it was |
| SpArenaScenarios.UsageFirstRequest | example/example.c:63-69 | the example's five integers take the first 20 bytes of the default arena |
| SpArenaScenarios.UsageExampleScope | example/example.c:77-94 | the example's ten temporary integers sit at offset 24, and the scope's end gives back the arena from before it |
| SpArenaScenarios.UsageExampleAfterScope | example/example.c:104-108 | after the scope, three integers are placed at 24, as if the scope had not happened |
| SpArenaScenarios.SmallOversizedRequest | sp_arena.c:197-214 | with 16 bytes used, 2000 bytes go to a new 4096-byte block |
| SpArenaScenarios.ScopeOnSmallArena | sp_arena.c:150-214 | on 1 KiB blocks, 16 bytes and then 2000 bytes give the chain [1024 holding 16, 4096 holding 2000] |
| SpArenaScenarios.RewindScope | sp_arena.c:360-367 | the rewind to the 16-byte checkpoint makes the first block current, with `total_used` 16, and leaves the 4096-byte block holding 2000 |
| SpArenaScenarios.RewoundRequest | sp_arena.c:173-189 | after that rewind, 2000 bytes land at offset 2000 of the 4096-byte block, and `total_used` (2016) no longer matches the blocks (4016) |
| SpArenaScenarios.RewindLeavesLaterBlockFull | sp_arena.c:353-372 | the whole run: checkpoint, 2000 bytes, `temp_end`, 2000 bytes again, ending with the counters out of agreement |
| SpArenaScenarios.ResetScope | sp_arena.c:363 | the resetting rewind of the same scope empties the 4096-byte block |
| SpArenaScenarios.ResetRequest | sp_arena.c:173-189 | after it, 2000 bytes start the 4096-byte block afresh and the counters agree |
| SpArenaScenarios.ResettingRewindReusesLaterBlock | sp_arena.c:363 | the whole run with the resetting rewind ends with the counters in agreement |
| SpArena.Arena.constructor | sp_arena.c:102-103 | a blank arena record holding the configuration |
| SpArena.Arena.CreateBlock | sp_arena.c:34-66 | the object's new state and the block returned are those of `SpArenaSpec.CreateBlock` |
| SpArena.Arena.CreateWithConfig | sp_arena.c:74-123 | null exactly when `SpArenaSpec.Create` fails; otherwise a fresh object in the created state |
| SpArena.Arena.Create | sp_arena.c:69-71 | construction with the default configuration |
| SpArena.Arena.AllocInternal | sp_arena.c:125-221 | the object moves to the state, and returns the pointer, of `SpArenaSpec.AllocInternal`, and a null result leaves an error recorded |
| SpArena.Arena.ScanLater | sp_arena.c:172-214 | the loop over the later blocks computes exactly `SpArenaSpec.Scan` from the next block |
| SpArena.Arena.Visit | sp_arena.c:175-193 | one iteration of that loop: land in block `i`, or empty it and go on |
| SpArena.Arena.ScanEnd | sp_arena.c:196-214 | after the loop, the object links a new block as `SpArenaSpec.NewBlock` does |
| SpArena.Arena.LinkNewBlock | sp_arena.c:197-214 | the object's new state is that of `SpArenaSpec.NewBlock` |
| SpArena.Arena.Alloc | sp_arena.c:224-226 | `SpArenaSpec.Alloc` on the object |
| SpArena.Arena.AllocAligned | sp_arena.c:229-231 | `SpArenaSpec.AllocInternal` with the caller's alignment |
| SpArena.Arena.Calloc | sp_arena.c:234-238 | the same arena state and pointer as `sp_arena_alloc` |
| SpArena.Arena.AllocType | spar.h:256 | an allocation of `sizeof(type)` bytes |
| SpArena.Arena.AllocArray | spar.h:261 | an allocation of `sizeof(type) * count` bytes, the product wrapping as `size_t` does |
| SpArena.Arena.Strdup | sp_arena.c:317-324 | a null string gives null and changes nothing; otherwise an allocation of `strlen + 1` bytes |
| SpArena.Arena.Resize | sp_arena.c:241-314 | the object's new state and the pointer are those of `SpArenaSpec.Resize` |
| SpArena.Arena.TempBegin | sp_arena.c:327-351 | a null arena gives an empty checkpoint; otherwise the checkpoint of `ArenaCommon.TempBegin` |
| SpArena.Arena.TempEnd | sp_arena.c:353-372 | the arena moves to the state of `ArenaCommon.TempEnd`, and an empty checkpoint changes nothing. A well-formed arena stays well formed when the checkpoint's `used` fits its block |
| SpArena.Arena.Clear | sp_arena.c:375-393 | the loop over the chain leaves the object in the state of `ArenaCommon.Clear`, and the arena stays well formed |
| SpArena.Arena.Destroy | sp_arena.c:395-420 | every block is handed back in chain order, the chain is emptied and both counters are 0 |
| SpArena.Arena.LastError | sp_arena.c:422-427 | INVALID_ARENA for a null arena, otherwise the recorded error |
| SpArena.Arena.TotalAllocated | sp_arena.c:452-457 | 0 for a null arena, otherwise `total_allocated` |
| SpArena.Arena.TotalUsed | sp_arena.c:460-465 | 0 for a null arena, otherwise `total_used` |
| SparSpec.BlockSize | spar.c:34-42 | the configured size, or, for a larger request, the configured size rounded up to 4096, which may be smaller than the request |
| SparSpec.Create | spar.c:73-117 | the same conditions and the same first block as `sp_arena.c` |
| SparSpec.AllocInternal | spar.c:119-218 | a zero size gives null and changes nothing. A bad alignment gives INVALID_ALIGNMENT with nothing else changed. A failure after the next block was emptied and made current leaves it so, with OUT_OF_MEMORY; a failure at the end of the chain changes only `last_err`. Every success starts a later block holding exactly the request, with `total_used` grown by the size |
| SparSpec.MoveToNext | spar.c:155-186 | the next block is emptied and becomes current. When the request does not fit in it, a new block is linked after it. When that block cannot be had, the result is null, the emptied next block stays current and OUT_OF_MEMORY is recorded, nothing else changing |
| SparSpec.Alloc | spar.c:221-223 | `sp_arena_alloc` of `spar.c` keeps the chain well formed |
| SparSpec.Resize | spar.c:238-296 | every outcome keeps the chain well formed and the blocks up to the old current one; what each branch returns is stated by `SparProps.ResizeRejects`, `SparProps.ResizeFixedRefuses`, `SparProps.ResizeInPlace` and `SparProps.ResizeMovedKeepsAccounting` |
| SparProps.ConstructionsAgree | spar.c:73-117 | both revisions construct the same arena |
| SparProps.MoveToNextLands | spar.c:155-165 | a request that fits the next block is placed at its offset 0 after the block is emptied |
| SparProps.MoveToNextKeepsAccounting | spar.c:155-211 | moving to the next block keeps `total_used` equal to the blocks' `used` up to the current one |
| SparProps.MoveToNextGrowsKeepsAccounting | spar.c:166-186 | the same through a new block |
| SparProps.MoveToNextLandsKeepsAccounting | spar.c:155-165 | the same when landing in the next block |
| SparProps.ResetNextKeepsAccounting | spar.c:157-159 | emptying the next block and making it current keeps the counters in agreement |
| SparProps.AllocKeepsAccounting | spar.c:119-218 | every allocation keeps the counters in agreement, whatever later blocks hold, and keeps later blocks empty when they were |
| SparProps.AllocFixedRefuses | spar.c:144-152 | a fixed-size arena whose current block cannot take the request gives null and changes only `last_err`, to OUT_OF_MEMORY |
| SparProps.ResizeRejects | spar.c:238-242 | a null pointer or a zero size gives null and changes only `last_err`, to INVALID_SIZE |
| SparProps.ResizeFixedRefuses | spar.c:258-268 | growth past the current block on a fixed-size arena gives null and changes only `last_err`, to OUT_OF_MEMORY |
| SparProps.ResizeInPlace | spar.c:288-295 | shrinking, or growth that fits, returns the same pointer; only the current block's `used` and `total_used` change, each by `new_size - old_size` |
| SparProps.ResizeKeepsAccounting | spar.c:238-296 | a resize whose `old_size` is within the current block's `used` keeps the counters in agreement |
| SparProps.ResizeInPlaceKeepsAccounting | spar.c:288-290 | the in-place resize shifts both counters by the same amount |
| SparProps.ResizeMovedKeepsAccounting | spar.c:271-279 | the moved resize gives `old_size` back to the old block and to `total_used`, and the counters still agree |
| SparProps.AllocAvoidsEarlierBlocks | spar.c:156-211 | a new allocation never lands in a block up to the current one |
| SparProps.ResizeIgnoresPosition | spar.c:257-290 | the arena state after resize does not depend on which pointer is passed |
| SparProps.AllocAll | spar.c:221-223 | any run of allocations keeps the chain well formed and the checkpointed prefix intact |
| SparProps.AllocAllKeepsAccounting | spar.c:119-218 | any run of allocations keeps the counters in agreement |
| SparProps.TempScopeRestores | spar.c:309-354 | a checkpoint, any run of allocations and `temp_end` give back `current`, `total_used` and the blocks up to the checkpoint block, with the counters in agreement, although later blocks are not emptied |
| SparProps.GrownBlockOverfills | spar.c:39-42 | a request larger than the rounded configured size gets a block smaller than itself, and the block is overfilled |
| SparProps.UndersizedExample | spar.c:39-42 | with 4096-byte blocks, a 10000-byte request gets a 4096-byte block |
| SparProps.ZeroSizeKeepsError | spar.c:120-125 | a zero-size request on a live arena returns null and changes nothing, `last_err` included |
| SparProps.LeavesFittingBlock | spar.c:155-206 | a request that fits the current block still goes to offset 0 of a later block |
| SparProps.FixedArenaGrows | spar.c:144-153 | a fixed-size arena whose current block has room still links a new block |
| SparProps.FirstRequestOpensSecondBlock | spar.c:189-211 | on a fresh default arena, a 16-byte request opens a second 64 KiB block |
| Spar.Arena.constructor | spar.c:98-99 | a blank arena record holding the configuration |
| Spar.Arena.CreateBlock | spar.c:34-65 | the object's new state and the block returned are those of `SparSpec.CreateBlock` |
| Spar.Arena.CreateWithConfig | spar.c:73-117 | null exactly when `SparSpec.Create` fails; otherwise a fresh object in the created state |
| Spar.Arena.Create | spar.c:68-70 | construction with the default configuration |
| Spar.Arena.AllocInternal | spar.c:119-218 | the object moves to the state, and returns the pointer, of `SparSpec.AllocInternal` |
| Spar.Arena.MoveToNext | spar.c:155-186 | the object moves as `SparSpec.MoveToNext` does |
| Spar.Arena.LinkNewBlock | spar.c:189-205 | the object links a block sized by `spar.c`'s `create_block` after the current one |
| Spar.Arena.Alloc | spar.c:221-223 | `SparSpec.Alloc` on the object |
| Spar.Arena.AllocAligned | spar.c:226-228 | `SparSpec.AllocInternal` with the caller's alignment |
| Spar.Arena.Calloc | spar.c:231-235 | the same arena state and pointer as `sp_arena_alloc` |
| Spar.Arena.Resize | spar.c:238-296 | the object's new state and the pointer are those of `SparSpec.Resize` |
| Spar.Arena.Strdup | spar.c:299-306 | a null string gives null and changes nothing; otherwise an allocation of `strlen + 1` bytes |
| Spar.Arena.TempBegin | spar.c:309-333 | a null arena gives an empty checkpoint; otherwise the checkpoint of `ArenaCommon.TempBegin` |
| Spar.Arena.TempEnd | spar.c:335-354 | the arena moves to the state of `ArenaCommon.TempEnd`, and a well-formed chain stays well formed |
| Spar.Arena.Clear | spar.c:357-375 | the loop over the chain leaves the object in the state of `ArenaCommon.Clear`, and the chain stays well formed |
| Spar.Arena.Destroy | spar.c:377-402 | every block is handed back in chain order, the chain is emptied and both counters are 0 |
| Spar.Arena.LastError | spar.c:404-409 | INVALID_ARENA for a null arena, otherwise the recorded error |
| Spar.Arena.TotalAllocated | spar.c:434-439 | 0 for a null arena, otherwise `total_allocated` |
| Spar.Arena.TotalUsed | spar.c:442-447 | 0 for a null arena, otherwise `total_used` |

## Left out

- Locking under `SP_ARENA_THREAD_SAFE` is not modelled. This is concurrency; the model is the sequential behaviour. With a non-recursive mutex the resize paths that call `sp_arena_alloc` while holding the lock would deadlock.
- `malloc`, `free` and the configured allocator routines are left out. They are represented by the `MemoryOracle` and `arenaOk` answers and by the routines' identity in `Config`.
- Byte contents are not modelled: the zero fill of `calloc`, and the copies of `strdup` and `resize`. `Calloc` and `Strdup` are modelled by the allocation they make.
- `align_forward_ptr` is not modelled. It is unused, and it works on addresses.
- `sp_arena_utilization` and `sp_arena_usage_report` are left out. They are floating point and `printf`.
- `size_t` wrap-around on additions is not modelled: `used + size`, `total_used + …`, and `ptr + mask` in `align_forward`. Counters are unbounded there.
- Memory-safety defects are not modelled:
  - the write to a freed arena at sp_arena.c:115-116;
  - the unguarded dereference at sp_arena.c:225;
  - the null dereference at spar.c:122;
  - the arena record leaked by rejected configurations at spar.c:78-104.

  Construction is modelled by its result only.
- SpArena.Arena.AllocInternal: the null-arena and no-current-block branches (INVALID_ARENA, sp_arena.c:126-129) are not modelled, because every arena the model builds has a current block until it is destroyed, and `Valid()` excludes calls on a destroyed arena.
- SpArena.Arena.Resize: the no-current-block branch (INVALID_ARENA, sp_arena.c:251-258) is left out for the same reason.
- Spar.Arena.AllocInternal: the same branches of `spar.c` (spar.c:120-124) are left out for a null arena. The zero-size case on a live arena is modelled.
- Spar.Arena.Resize: the no-current-block branch (spar.c:248-255) is left out for the same reason.
- SpArena.Arena.Destroy: the deallocator calls are represented by the list of released block ids, and the arena record's own `free` is not modelled.
- Spar.Arena.Destroy: the same, for `spar.c`.
- The bound `used <= size` is not claimed for `spar.c`. It does not hold there: see `SparProps.GrownBlockOverfills`.
- `sp_arena.h` and the `sp_arena_temp_scope` macro used by `example/example.c` are not part of this model. The example's scope is written out as `temp_begin` / `temp_end`.

## Findings

| source | as written | input that shows it | evidently intended | confidence | as-written member | corrected member |
|---|---|---|---|---|---|---|
| spar.c:39-42 | an oversized block is the configured block size rounded up to 4096, not the request; the allocation then writes the whole request into it | 4096-byte blocks, a request of 10000 bytes: a 4096-byte block with `used` 10000 (`SparProps.UndersizedExample`) | size the block from the request rounded up to 4096, as sp_arena.c:39-43 does | not executed | SparProps.GrownBlockOverfills | SpArenaSpec.BlockSize |
| spar.c:120-124 | the guard records an error only when the arena is null (`if (!arena)`), so a zero size on a live arena sets no error, and a null arena is dereferenced | `sp_arena_alloc(arena, 0)` on a live arena: null with `last_err` unchanged | record INVALID_SIZE on a live arena, as sp_arena.c:126-131 does | not executed | SparProps.ZeroSizeKeepsError | SpArenaProps.AllocRejects |
| spar.c:155-206 | every allocation leaves the current block for the next one or a new one, even when the request fits where it is | a fresh default arena and a 16-byte request: a second 64 KiB block at offset 0 (`SparProps.FirstRequestOpensSecondBlock`) | bump from the current block when the request fits, as sp_arena.c:150-160 does | not executed | SparProps.LeavesFittingBlock | SpArenaProps.AllocFastPath |
| spar.c:144-153 | a fixed-size arena refuses only requests that do not fit its current block, and then grows anyway | a fixed-size arena with one block that has room: a second block is linked | a fixed-size arena never adds a block, as sp_arena.c:163-170 ensures | not executed | SparProps.FixedArenaGrows | SpArenaProps.FixedArenaNeverGrows |
| sp_arena.c:360-367 | `temp_end` restores the checkpoint block only; the comment at line 363 says later blocks are reset, and they keep what the scope put there | 1 KiB blocks: 16 bytes, checkpoint, 2000 bytes, `temp_end`, 2000 bytes. The last request lands at offset 2000 of the 4096-byte block, and `total_used` is 2016 while the blocks hold 4016 | empty every block after the checkpoint block, as the comment says | not executed | SpArenaScenarios.RewindLeavesLaterBlockFull | SpArenaProps.TempScopeResettingRestores |

- **Why the rewind matters in one revision only.** In `sp_arena.c` the
  fast path and the walk can land in a block that still holds scope data,
  after it. In `spar.c` every allocation empties the block it moves to, so
  the same `temp_end` does no harm there (`SparProps.TempScopeRestores`,
  `SparProps.AllocKeepsAccounting`).
- **How the corrected rewind is modelled.** It is the function
  `ArenaCommon.TempEndResetting`, proved in
  `ArenaCommon.TempEndResettingRewinds` and
  `SpArenaProps.TempScopeResettingRestores`, and shown on the same run in
  `SpArenaScenarios.ResettingRewindReusesLaterBlock`.
- **The classes keep the code as written.** The class methods `TempEnd`
  follow the code as it is.
