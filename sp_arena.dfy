/**
  sp_arena.c as an object: the fields of the `sp_arena` record, updated in
  place by the library's operations. Each method is proved to leave the
  arena in the state, and to return the pointer, that the matching function
  of SpArenaSpec computes, so everything proved about those functions holds
  of the object.

  The chain is a sequence of block records in `next` order, `current` the
  position of the current block. A null arena argument is modelled where
  the code handles one (the checkpoint operations and the accessors); the
  other operations are called on a live arena.
*/
module SpArena {
  import opened Alignment
  import opened ArenaTypes
  import opened ArenaCommon
  import SpArenaSpec

  class Arena {
    var blocks: seq<Block>
    var current: nat
    var totalAllocated: nat
    var totalUsed: nat
    const config: Config
    var lastErr: ArenaError

    /** The record's fields as a value. */
    function State(): ArenaState
      reads this
    {
      ArenaState(blocks, current, totalAllocated, totalUsed, config, lastErr)
    }

    /** The arena is well formed and no block is filled beyond its size. */
    ghost predicate Valid()
      reads this
    {
      SpArenaSpec.Valid(State())
    }

    /** The zero-filled record with the configuration stored in it, before its first block. */
    constructor (config: Config)
      ensures State() == ArenaState([], 0, 0, 0, config, NoError)
    {
      this.config := config;
      blocks := [];
      current := 0;
      totalAllocated := 0;
      totalUsed := 0;
      lastErr := NoError;
    }

    /**
      `sp_arena_create_block`: choose the size, ask for the region and then
      the control node, and count the size in `total_allocated`. The block
      is returned unlinked.
    */
    method CreateBlock(minSize: nat, mem: MemoryOracle) returns (b: Option<Block>)
      modifies this
      ensures var r := SpArenaSpec.CreateBlock(old(State()), minSize, mem);
        b == r.block && State() == r.state
    {
      var blockSize := config.blockSize;
      if minSize > blockSize {
        DefaultsAreSound();
        blockSize := AlignForward(minSize, PAGE_SIZE);
      }
      if !mem.regionOk {
        lastErr := OutOfMemory;
        return None;
      }
      if !mem.nodeOk {
        lastErr := OutOfMemory;
        return None;
      }
      totalAllocated := totalAllocated + blockSize;
      b := Some(Block(|blocks|, blockSize, 0));
    }

    /**
      `sp_arena_create_with_config`: `arenaOk` is whether the record itself
      could be allocated, `mem` what the allocator answers for the first
      block.
    */
    static method CreateWithConfig(config: Config, arenaOk: bool, mem: MemoryOracle) returns (a: Arena?)
      ensures var r := SpArenaSpec.Create(config, arenaOk, mem);
        (a == null <==> r.None?) && (a != null ==> fresh(a) && a.State() == r.value && a.Valid())
    {
      if !arenaOk {
        return null;
      }
      if config.alignment == 0 || !IsPowerOfTwo(config.alignment) {
        return null;
      }
      if config.blockSize == 0 {
        return null;
      }
      if (config.allocator.Some? && config.deallocator.None?) || (config.allocator.None? && config.deallocator.Some?) {
        return null;
      }
      var c := config;
      if c.allocator.None? {
        c := c.(allocator := Some(Malloc), deallocator := Some(Free));
      }
      a := new Arena(c);
      var b := a.CreateBlock(0, mem);
      if b.None? {
        return null;
      }
      a.blocks := [b.value];
      a.current := 0;
    }

    /** `sp_arena_create`: the default configuration. */
    static method Create(arenaOk: bool, mem: MemoryOracle) returns (a: Arena?)
      ensures var r := SpArenaSpec.Create(DEFAULT_CONFIG, arenaOk, mem);
        (a == null <==> r.None?) && (a != null ==> fresh(a) && a.State() == r.value && a.Valid())
    {
      a := CreateWithConfig(DEFAULT_CONFIG, arenaOk, mem);
    }

    /**
      `sp_arena_alloc_internal`: bump the current block when the padded
      request fits; otherwise walk the later blocks, emptying each one that
      is too full, and take the first that fits; otherwise link a new block
      after the current one.
    */
    method AllocInternal(size: nat, align: nat, mem: MemoryOracle) returns (p: Ptr)
      requires Valid()
      modifies this
      ensures Step(State(), p) == SpArenaSpec.AllocInternal(old(State()), size, align, mem)
      ensures Valid()
      ensures p.Null? ==> LastError(this) != NoError
    {
      if size == 0 {
        lastErr := InvalidSize;
        return Null;
      }
      if !IsPowerOfTwo(align) {
        lastErr := InvalidAlignment;
        return Null;
      }
      var c := current;
      var b := blocks[c];
      var aligned := AlignForward(b.used, align);
      var padding := aligned - b.used;
      if aligned + size <= b.size {
        blocks := blocks[c := b.(used := aligned + size)];
        totalUsed := totalUsed + (size + padding);
        return Addr(b.id, aligned);
      }
      if config.fixedSize {
        lastErr := OutOfMemory;
        return Null;
      }
      p := ScanLater(size, align, mem);
    }

    /**
      The walk over the blocks after the current one: the first whose padded
      cursor leaves room becomes current and serves the request, every block
      passed over is emptied, and when none is left a new block is linked.
    */
    method ScanLater(size: nat, align: nat, mem: MemoryOracle) returns (p: Ptr)
      requires Valid() && size > 0 && IsPowerOfTwo(align)
      modifies this
      ensures Step(State(), p) == SpArenaSpec.Scan(old(State()), old(current) + 1, size, align, mem)
    {
      ghost var goal := SpArenaSpec.Scan(State(), current + 1, size, align, mem);
      var c := current;
      var i := c + 1;
      while i < |blocks|
        invariant c < i <= |blocks| && current == c
        invariant Valid()
        invariant SpArenaSpec.Scan(State(), i, size, align, mem) == goal
        decreases |blocks| - i
      {
        var landed;
        landed, p := Visit(i, size, align, mem);
        if landed {
          return;
        }
        i := i + 1;
      }
      p := ScanEnd(size, align, mem);
    }

    /** The walk has passed the last block: link a new one. */
    method ScanEnd(size: nat, align: nat, mem: MemoryOracle) returns (p: Ptr)
      requires Valid() && size > 0 && IsPowerOfTwo(align)
      modifies this
      ensures Step(State(), p) == SpArenaSpec.Scan(old(State()), |old(blocks)|, size, align, mem)
    {
      SpArenaSpec.ScanEnds(State(), size, align, mem);
      p := LinkNewBlock(size, mem);
    }

    /**
      One block of the walk: take the request if the padded cursor leaves
      room (`landed`), otherwise empty the block so the walk can go on.
    */
    method Visit(i: nat, size: nat, align: nat, mem: MemoryOracle) returns (landed: bool, p: Ptr)
      requires Valid() && current < i < |blocks| && size > 0 && IsPowerOfTwo(align)
      modifies this
      ensures landed ==> Step(State(), p) == SpArenaSpec.Scan(old(State()), i, size, align, mem)
      ensures !landed ==>
        Valid() && current == old(current) && |blocks| == |old(blocks)|
        && SpArenaSpec.Scan(State(), i + 1, size, align, mem) == SpArenaSpec.Scan(old(State()), i, size, align, mem)
    {
      ghost var before := State();
      var nb := blocks[i];
      var aligned := AlignForward(nb.used, align);
      var padding := aligned - nb.used;
      if aligned + size <= nb.size {
        SpArenaSpec.ScanLands(before, i, size, align, mem);
        current := i;
        blocks := blocks[i := nb.(used := aligned + size)];
        totalUsed := totalUsed + (size + padding);
        return true, Addr(nb.id, aligned);
      }
      SpArenaSpec.ScanSkips(before, i, size, align, mem);
      blocks := blocks[i := nb.(used := 0)];
      assert State() == before.(blocks := before.blocks[i := nb.(used := 0)]);
      return false, Null;
    }

    /**
      No later block had room: create a block for the request, link it
      right after the current one, make it current and serve the request
      from its start.
    */
    method LinkNewBlock(size: nat, mem: MemoryOracle) returns (p: Ptr)
      requires Valid()
      modifies this
      ensures Step(State(), p) == SpArenaSpec.NewBlock(old(State()), size, mem)
    {
      var c := current;
      var nb := CreateBlock(size, mem);
      if nb.None? {
        lastErr := OutOfMemory;
        return Null;
      }
      var linked := nb.value.(used := size);
      blocks := blocks[..c + 1] + [linked] + blocks[c + 1..];
      current := c + 1;
      totalUsed := totalUsed + size;
      p := Addr(linked.id, 0);
    }

    /** `sp_arena_alloc`: the configured alignment. */
    method Alloc(size: nat, mem: MemoryOracle) returns (p: Ptr)
      requires Valid()
      modifies this
      ensures Step(State(), p) == SpArenaSpec.Alloc(old(State()), size, mem)
      ensures Valid()
    {
      p := AllocInternal(size, config.alignment, mem);
    }

    /** `sp_arena_alloc_aligned`: an alignment chosen by the caller. */
    method AllocAligned(size: nat, align: nat, mem: MemoryOracle) returns (p: Ptr)
      requires Valid()
      modifies this
      ensures Step(State(), p) == SpArenaSpec.AllocInternal(old(State()), size, align, mem)
      ensures Valid()
    {
      p := AllocInternal(size, align, mem);
    }

    /** `sp_arena_calloc`: an allocation whose bytes are then zeroed (the bytes are not modelled). */
    method Calloc(size: nat, mem: MemoryOracle) returns (p: Ptr)
      requires Valid()
      modifies this
      ensures Step(State(), p) == SpArenaSpec.Alloc(old(State()), size, mem)
      ensures Valid()
    {
      p := Alloc(size, mem);
    }

    /** `sp_arena_alloc_type`: `sizeof(type)` bytes. */
    method AllocType(typeSize: nat, mem: MemoryOracle) returns (p: Ptr)
      requires Valid()
      modifies this
      ensures Step(State(), p) == SpArenaSpec.Alloc(old(State()), typeSize, mem)
      ensures Valid()
    {
      p := Alloc(typeSize, mem);
    }

    /** `sp_arena_alloc_array`: `sizeof(type) * count` bytes, a product that wraps in `size_t`. */
    method AllocArray(typeSize: nat, count: nat, mem: MemoryOracle) returns (p: Ptr)
      requires Valid()
      modifies this
      ensures Step(State(), p) == SpArenaSpec.Alloc(old(State()), SizeMul(typeSize, count), mem)
      ensures Valid()
    {
      p := Alloc(SizeMul(typeSize, count), mem);
    }

    /**
      `sp_arena_strdup`: room for the string and its terminator (the copy
      itself is not modelled). A null string allocates nothing.
    */
    method Strdup(str: Option<string>, mem: MemoryOracle) returns (p: Ptr)
      requires Valid()
      modifies this
      ensures str.None? ==> p.Null? && State() == old(State())
      ensures str.Some? ==> Step(State(), p) == SpArenaSpec.Alloc(old(State()), StrLen(str.value) + 1, mem)
      ensures Valid()
    {
      if str.None? {
        return Null;
      }
      p := Alloc(StrLen(str.value) + 1, mem);
    }

    /**
      `sp_arena_resize`: the last allocation of the current block grows or
      shrinks in place when it can; any other pointer, or growth that does
      not fit on a growable arena, gets a fresh allocation.
    */
    method Resize(ptr: Ptr, oldSize: nat, newSize: nat, mem: MemoryOracle) returns (p: Ptr)
      requires Valid()
      modifies this
      ensures Step(State(), p) == SpArenaSpec.Resize(old(State()), ptr, oldSize, newSize, mem)
      ensures Valid()
    {
      if ptr.Null? || oldSize == 0 || newSize == 0 {
        lastErr := InvalidSize;
        return Null;
      }
      var c := current;
      var b := blocks[c];
      if !(ptr.Addr? && ptr.block == b.id && oldSize <= b.used && ptr.offset == b.used - oldSize) {
        p := Alloc(newSize, mem);
        return;
      }
      if newSize > oldSize {
        var additional := newSize - oldSize;
        if b.used + additional > b.size {
          if config.fixedSize {
            lastErr := OutOfMemory;
            return Null;
          }
          p := Alloc(newSize, mem);
          if p.Addr? {
            var ob := blocks[c];
            blocks := blocks[c := ob.(used := SizeSub(ob.used, oldSize))];
            totalUsed := SizeSub(totalUsed, oldSize);
          }
          return;
        }
      }
      blocks := blocks[c := b.(used := b.used - oldSize + newSize)];
      totalUsed := SizeSub(totalUsed + newSize, oldSize);
      p := ptr;
    }

    /**
      `sp_arena_temp_begin`: remember the current block, its `used` and
      `total_used`; a null arena, or one without a current block, gives a
      checkpoint with a null block.
    */
    static method TempBegin(a: Arena?) returns (t: Checkpoint<Arena?>)
      ensures t.arena == a
      ensures (a == null || a.current >= |a.blocks|) ==> t.block.None? && t.used == 0 && t.totalUsed == 0
      ensures a != null && a.current < |a.blocks| ==> t == ArenaCommon.TempBegin(a, a.State())
    {
      if a == null || a.current >= |a.blocks| {
        return Checkpoint(a, None, 0, 0);
      }
      t := Checkpoint(a, Some(a.blocks[a.current].id), a.blocks[a.current].used, a.totalUsed);
    }

    /**
      `sp_arena_temp_end`: make the checkpoint's block current again and put
      back its `used` and `total_used`; nothing happens for a null arena or
      block.
    */
    static method TempEnd(t: Checkpoint<Arena?>)
      requires t.arena != null ==> t.arena.Valid() && Restorable(t.arena.State(), t) && CheckpointFits(t.arena.State(), t)
      modifies t.arena
      ensures t.arena != null ==> t.arena.State() == ArenaCommon.TempEnd(old(t.arena.State()), t)
      ensures t.arena != null ==> t.arena.Valid()
    {
      var a := t.arena;
      if a == null || t.block.None? {
        return;
      }
      TempEndKeepsChained(a.State(), t);
      var k := Find(a.blocks, t.block.value);
      a.current := k;
      a.blocks := a.blocks[k := a.blocks[k].(used := t.used)];
      a.totalUsed := t.totalUsed;
    }

    /** `sp_arena_clear`: walk the chain emptying every block, then rewind to the first. */
    method Clear()
      requires Valid()
      modifies this
      ensures State() == ArenaCommon.Clear(old(State()))
      ensures Valid()
    {
      ClearKeepsBlocks(State());
      var i := 0;
      while i < |blocks|
        invariant 0 <= i <= |blocks| == |old(blocks)|
        invariant forall k :: 0 <= k < i ==> blocks[k] == old(blocks)[k].(used := 0)
        invariant forall k :: i <= k < |blocks| ==> blocks[k] == old(blocks)[k]
        invariant current == old(current) && totalAllocated == old(totalAllocated)
        invariant totalUsed == old(totalUsed) && lastErr == old(lastErr)
      {
        blocks := blocks[i := blocks[i].(used := 0)];
        i := i + 1;
      }
      current := 0;
      totalUsed := 0;
    }

    /**
      `sp_arena_destroy`, up to freeing the record: hand every block's
      region back in chain order, then empty the chain and zero the
      counters. `released` lists the regions in the order they are freed.
    */
    method Destroy() returns (released: seq<nat>)
      modifies this
      ensures |released| == |old(blocks)|
      ensures forall k :: 0 <= k < |released| ==> released[k] == old(blocks)[k].id
      ensures blocks == [] && current == 0 && totalAllocated == 0 && totalUsed == 0
      ensures lastErr == old(lastErr)
    {
      released := [];
      var i := 0;
      while i < |blocks|
        invariant 0 <= i <= |blocks| && blocks == old(blocks)
        invariant |released| == i
        invariant forall k :: 0 <= k < i ==> released[k] == blocks[k].id
      {
        released := released + [blocks[i].id];
        i := i + 1;
      }
      blocks := [];
      current := 0;
      totalAllocated := 0;
      totalUsed := 0;
    }

    /** `sp_arena_get_last_error`: the sticky error, or `InvalidArena` for a null arena. */
    static function LastError(a: Arena?): (e: ArenaError)
      reads a
      ensures a == null ==> e == InvalidArena
      ensures a != null ==> e == a.State().lastErr
    {
      if a == null then InvalidArena else a.lastErr
    }

    /** `sp_arena_total_allocated`: 0 for a null arena. */
    static function TotalAllocated(a: Arena?): (n: nat)
      reads a
      ensures a == null ==> n == 0
      ensures a != null ==> n == a.State().totalAllocated
    {
      if a == null then 0 else a.totalAllocated
    }

    /** `sp_arena_total_used`: 0 for a null arena. */
    static function TotalUsed(a: Arena?): (n: nat)
      reads a
      ensures a == null ==> n == 0
      ensures a != null ==> n == a.State().totalUsed
    {
      if a == null then 0 else a.totalUsed
    }
  }
}
