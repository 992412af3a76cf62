/**
  spar.c as an object: the same `sp_arena` record as sp_arena.c, updated
  in place by spar.c's versions of the operations. Each method is proved
  to leave the arena in the state, and to return the pointer, that the
  matching function of SparSpec (or ArenaCommon, for the code both
  revisions share) computes.
*/
module Spar {
  import opened Alignment
  import opened ArenaTypes
  import opened ArenaCommon
  import SparSpec

  class Arena {
    var blocks: seq<Block>
    var current: nat
    var totalAllocated: nat
    var totalUsed: nat
    const config: Config
    var lastErr: ArenaError

    /** The record's fields as a value. */
    function State(): ArenaState
      reads this
    {
      ArenaState(blocks, current, totalAllocated, totalUsed, config, lastErr)
    }

    /** The chain is well formed and `total_allocated` is the sum of the block sizes (blocks may be overfilled). */
    ghost predicate Valid()
      reads this
    {
      Chained(State())
    }

    /** The zero-filled record with the configuration stored in it, before its first block. */
    constructor (config: Config)
      ensures State() == ArenaState([], 0, 0, 0, config, NoError)
    {
      this.config := config;
      blocks := [];
      current := 0;
      totalAllocated := 0;
      totalUsed := 0;
      lastErr := NoError;
    }

    /**
      `sp_arena_create_block` of spar.c: an oversized request rounds the
      configured size up to 4096; then the region, the control node, and
      the size counted in `total_allocated`. The block is returned unlinked.
    */
    method CreateBlock(minSize: nat, mem: MemoryOracle) returns (b: Option<Block>)
      modifies this
      ensures var r := SparSpec.CreateBlock(old(State()), minSize, mem);
        b == r.block && State() == r.state
    {
      var blockSize := config.blockSize;
      if minSize > blockSize {
        DefaultsAreSound();
        blockSize := AlignForward(blockSize, PAGE_SIZE);
      }
      if !mem.regionOk {
        lastErr := OutOfMemory;
        return None;
      }
      if !mem.nodeOk {
        lastErr := OutOfMemory;
        return None;
      }
      totalAllocated := totalAllocated + blockSize;
      b := Some(Block(|blocks|, blockSize, 0));
    }

    /** `sp_arena_create_with_config`: `arenaOk` is whether the record could be allocated. */
    static method CreateWithConfig(config: Config, arenaOk: bool, mem: MemoryOracle) returns (a: Arena?)
      ensures var r := SparSpec.Create(config, arenaOk, mem);
        (a == null <==> r.None?) && (a != null ==> fresh(a) && a.State() == r.value && a.Valid())
    {
      if !arenaOk {
        return null;
      }
      if config.alignment == 0 || !IsPowerOfTwo(config.alignment) {
        return null;
      }
      if config.blockSize == 0 {
        return null;
      }
      if (config.allocator.Some? && config.deallocator.None?) || (config.allocator.None? && config.deallocator.Some?) {
        return null;
      }
      var c := config;
      if c.allocator.None? {
        c := c.(allocator := Some(Malloc), deallocator := Some(Free));
      }
      a := new Arena(c);
      var b := a.CreateBlock(0, mem);
      if b.None? {
        return null;
      }
      a.blocks := [b.value];
      a.current := 0;
    }

    /** `sp_arena_create`: the default configuration. */
    static method Create(arenaOk: bool, mem: MemoryOracle) returns (a: Arena?)
      ensures var r := SparSpec.Create(DEFAULT_CONFIG, arenaOk, mem);
        (a == null <==> r.None?) && (a != null ==> fresh(a) && a.State() == r.value && a.Valid())
    {
      a := CreateWithConfig(DEFAULT_CONFIG, arenaOk, mem);
    }

    /**
      `sp_arena_alloc_internal` of spar.c: a fixed-size arena refuses a
      request its current block cannot take; otherwise the request is taken
      from the next block, after resetting it, or from a new block.
    */
    method AllocInternal(size: nat, align: nat, mem: MemoryOracle) returns (p: Ptr)
      requires Valid()
      modifies this
      ensures Step(State(), p) == SparSpec.AllocInternal(old(State()), size, align, mem)
      ensures Valid()
    {
      if size == 0 {
        return Null;
      }
      if !IsPowerOfTwo(align) {
        lastErr := InvalidAlignment;
        return Null;
      }
      var c := current;
      var b := blocks[c];
      var aligned := AlignForward(b.used, align);
      if aligned + size > b.size {
        if config.fixedSize {
          lastErr := OutOfMemory;
          return Null;
        }
      }
      if c + 1 < |blocks| {
        p := MoveToNext(size, align, mem);
      } else {
        p := LinkNewBlock(size, mem);
      }
    }

    /**
      The next block becomes current and is reset; if the request is larger
      than it, a new block is linked after it.
    */
    method MoveToNext(size: nat, align: nat, mem: MemoryOracle) returns (p: Ptr)
      requires Valid() && current + 1 < |blocks| && size > 0 && IsPowerOfTwo(align)
      modifies this
      ensures Step(State(), p) == SparSpec.MoveToNext(old(State()), size, align, mem)
    {
      ghost var s := State();
      var c := current;
      var nb := blocks[c + 1].(used := 0);
      blocks := blocks[c + 1 := nb];
      current := c + 1;
      SameShapeKeepsChained(s, State());
      var aligned := AlignForward(nb.used, align);
      var padding := aligned - nb.used;
      if aligned + size > nb.size {
        p := LinkNewBlock(size, mem);
        return;
      }
      blocks := blocks[c + 1 := nb.(used := aligned + size)];
      totalUsed := totalUsed + (size + padding);
      p := Addr(nb.id, aligned);
    }

    /** Create a block for the request, link it after the current one and serve the request from its start. */
    method LinkNewBlock(size: nat, mem: MemoryOracle) returns (p: Ptr)
      requires Valid()
      modifies this
      ensures Step(State(), p) == Grow(old(State()), SparSpec.BlockSize(config.blockSize, size), size, mem)
    {
      var c := current;
      var nb := CreateBlock(size, mem);
      if nb.None? {
        lastErr := OutOfMemory;
        return Null;
      }
      var linked := nb.value.(used := size);
      blocks := blocks[..c + 1] + [linked] + blocks[c + 1..];
      current := c + 1;
      totalUsed := totalUsed + size;
      p := Addr(linked.id, 0);
    }

    /** `sp_arena_alloc`: the configured alignment. */
    method Alloc(size: nat, mem: MemoryOracle) returns (p: Ptr)
      requires Valid()
      modifies this
      ensures Step(State(), p) == SparSpec.Alloc(old(State()), size, mem)
      ensures Valid()
    {
      p := AllocInternal(size, config.alignment, mem);
    }

    /** `sp_arena_alloc_aligned`: an alignment chosen by the caller. */
    method AllocAligned(size: nat, align: nat, mem: MemoryOracle) returns (p: Ptr)
      requires Valid()
      modifies this
      ensures Step(State(), p) == SparSpec.AllocInternal(old(State()), size, align, mem)
      ensures Valid()
    {
      p := AllocInternal(size, align, mem);
    }

    /** `sp_arena_calloc`: an allocation whose bytes are then zeroed (the bytes are not modelled). */
    method Calloc(size: nat, mem: MemoryOracle) returns (p: Ptr)
      requires Valid()
      modifies this
      ensures Step(State(), p) == SparSpec.Alloc(old(State()), size, mem)
      ensures Valid()
    {
      p := Alloc(size, mem);
    }

    /**
      `sp_arena_resize` of spar.c: growth past the current block moves to a
      fresh allocation (refused on a fixed-size arena); anything else moves
      the current block's cursor by the size difference.
    */
    method Resize(ptr: Ptr, oldSize: nat, newSize: nat, mem: MemoryOracle) returns (p: Ptr)
      requires Valid()
      modifies this
      ensures Step(State(), p) == SparSpec.Resize(old(State()), ptr, oldSize, newSize, mem)
      ensures Valid()
    {
      if ptr.Null? || oldSize == 0 || newSize == 0 {
        lastErr := InvalidSize;
        return Null;
      }
      var c := current;
      var b := blocks[c];
      if newSize > oldSize {
        var additional := newSize - oldSize;
        if b.used + additional > b.size {
          if config.fixedSize {
            lastErr := OutOfMemory;
            return Null;
          }
          p := Alloc(newSize, mem);
          if p.Addr? {
            var ob := blocks[c];
            blocks := blocks[c := ob.(used := SizeSub(ob.used, oldSize))];
            totalUsed := SizeSub(totalUsed, oldSize);
          }
          return;
        }
      }
      blocks := blocks[c := b.(used := SizeSub(b.used + newSize, oldSize))];
      totalUsed := SizeSub(totalUsed + newSize, oldSize);
      p := ptr;
    }

    /** `sp_arena_strdup`: room for the string and its terminator; a null string allocates nothing. */
    method Strdup(str: Option<string>, mem: MemoryOracle) returns (p: Ptr)
      requires Valid()
      modifies this
      ensures str.None? ==> p.Null? && State() == old(State())
      ensures str.Some? ==> Step(State(), p) == SparSpec.Alloc(old(State()), StrLen(str.value) + 1, mem)
      ensures Valid()
    {
      if str.None? {
        return Null;
      }
      p := Alloc(StrLen(str.value) + 1, mem);
    }

    /** `sp_arena_temp_begin`: as in sp_arena.c. */
    static method TempBegin(a: Arena?) returns (t: Checkpoint<Arena?>)
      ensures t.arena == a
      ensures (a == null || a.current >= |a.blocks|) ==> t.block.None? && t.used == 0 && t.totalUsed == 0
      ensures a != null && a.current < |a.blocks| ==> t == ArenaCommon.TempBegin(a, a.State())
    {
      if a == null || a.current >= |a.blocks| {
        return Checkpoint(a, None, 0, 0);
      }
      t := Checkpoint(a, Some(a.blocks[a.current].id), a.blocks[a.current].used, a.totalUsed);
    }

    /** `sp_arena_temp_end`: as in sp_arena.c; the blocks after the checkpoint block are not touched. */
    static method TempEnd(t: Checkpoint<Arena?>)
      requires t.arena != null ==> t.arena.Valid() && Restorable(t.arena.State(), t)
      modifies t.arena
      ensures t.arena != null ==> t.arena.State() == ArenaCommon.TempEnd(old(t.arena.State()), t)
      ensures t.arena != null ==> t.arena.Valid()
    {
      var a := t.arena;
      if a == null || t.block.None? {
        return;
      }
      TempEndKeepsChained(a.State(), t);
      var k := Find(a.blocks, t.block.value);
      a.current := k;
      a.blocks := a.blocks[k := a.blocks[k].(used := t.used)];
      a.totalUsed := t.totalUsed;
    }

    /** `sp_arena_clear`: walk the chain emptying every block, then rewind to the first. */
    method Clear()
      requires Valid()
      modifies this
      ensures State() == ArenaCommon.Clear(old(State()))
      ensures Valid()
    {
      ClearKeepsBlocks(State());
      var i := 0;
      while i < |blocks|
        invariant 0 <= i <= |blocks| == |old(blocks)|
        invariant forall k :: 0 <= k < i ==> blocks[k] == old(blocks)[k].(used := 0)
        invariant forall k :: i <= k < |blocks| ==> blocks[k] == old(blocks)[k]
        invariant current == old(current) && totalAllocated == old(totalAllocated)
        invariant totalUsed == old(totalUsed) && lastErr == old(lastErr)
      {
        blocks := blocks[i := blocks[i].(used := 0)];
        i := i + 1;
      }
      current := 0;
      totalUsed := 0;
    }

    /**
      `sp_arena_destroy`, up to freeing the record: every block's region is
      handed back in chain order (`released`), then the chain is emptied
      and the counters zeroed.
    */
    method Destroy() returns (released: seq<nat>)
      modifies this
      ensures |released| == |old(blocks)|
      ensures forall k :: 0 <= k < |released| ==> released[k] == old(blocks)[k].id
      ensures blocks == [] && current == 0 && totalAllocated == 0 && totalUsed == 0
      ensures lastErr == old(lastErr)
    {
      released := [];
      var i := 0;
      while i < |blocks|
        invariant 0 <= i <= |blocks| && blocks == old(blocks)
        invariant |released| == i
        invariant forall k :: 0 <= k < i ==> released[k] == blocks[k].id
      {
        released := released + [blocks[i].id];
        i := i + 1;
      }
      blocks := [];
      current := 0;
      totalAllocated := 0;
      totalUsed := 0;
    }

    /** `sp_arena_get_last_error`: the sticky error, or `InvalidArena` for a null arena. */
    static function LastError(a: Arena?): (e: ArenaError)
      reads a
      ensures a == null ==> e == InvalidArena
      ensures a != null ==> e == a.State().lastErr
    {
      if a == null then InvalidArena else a.lastErr
    }

    /** `sp_arena_total_allocated`: 0 for a null arena. */
    static function TotalAllocated(a: Arena?): (n: nat)
      reads a
      ensures a == null ==> n == 0
      ensures a != null ==> n == a.State().totalAllocated
    {
      if a == null then 0 else a.totalAllocated
    }

    /** `sp_arena_total_used`: 0 for a null arena. */
    static function TotalUsed(a: Arena?): (n: nat)
      reads a
      ensures a == null ==> n == 0
      ensures a != null ==> n == a.State().totalUsed
    {
      if a == null then 0 else a.totalUsed
    }
  }
}
