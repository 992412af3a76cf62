/**
  What spar.c's allocation engine guarantees, and where it departs from
  sp_arena.c. Since every allocation resets the block it moves to,
  `total_used` stays exact without the later blocks having to be empty,
  so a temporary scope restores the counters even with the rewind as
  written. The departures are stated as lemmas about the functions as
  written: the undersized oversized block, the silent zero-size request,
  the fitting block that is left behind, and the fixed-size arena that
  grows.
*/
module SparProps {
  import opened Alignment
  import opened ArenaTypes
  import opened ArenaCommon
  import opened SparSpec
  import SpArenaSpec

  // ---------------------------------------------------------------------
  // Construction

  /** Both revisions build the same arena from the same configuration and allocator answers. */
  lemma ConstructionsAgree(config: Config, arenaOk: bool, mem: MemoryOracle)
    ensures Create(config, arenaOk, mem) == SpArenaSpec.Create(config, arenaOk, mem)
  {
  }

  // ---------------------------------------------------------------------
  // Counters

  /**
    A request no larger than the next block is served from that block's
    start: the block becomes current with exactly `size` bytes used, and
    `total_used` grows by `size`, whatever the block held before.
  */
  lemma MoveToNextLands(s: ArenaState, size: nat, align: nat, mem: MemoryOracle)
    requires Chained(s) && s.current + 1 < |s.blocks| && size > 0 && IsPowerOfTwo(align)
    requires size <= s.blocks[s.current + 1].size
    ensures var c := s.current;
      var b := s.blocks[c + 1];
      MoveToNext(s, size, align, mem)
      == Step(s.(blocks := s.blocks[c + 1 := b.(used := size)], current := c + 1,
                 totalUsed := s.totalUsed + size),
              Addr(b.id, 0))
  {
    AlignForwardZero(align);
  }

  /**
    A request larger than the next block leaves that block current and
    empty, and a new block is linked after it.
  */
  lemma MoveToNextGrows(s: ArenaState, size: nat, align: nat, mem: MemoryOracle)
    requires Chained(s) && s.current + 1 < |s.blocks| && size > 0 && IsPowerOfTwo(align)
    requires size > s.blocks[s.current + 1].size
    ensures var c := s.current;
      var moved := s.(blocks := s.blocks[c + 1 := s.blocks[c + 1].(used := 0)], current := c + 1);
      Chained(moved)
      && MoveToNext(s, size, align, mem) == Grow(moved, BlockSize(s.config.blockSize, size), size, mem)
  {
    var c := s.current;
    SameShapeKeepsChained(s, s.(blocks := s.blocks[c + 1 := s.blocks[c + 1].(used := 0)], current := c + 1));
    AlignForwardZero(align);
  }

  /** Moving to the next block and resetting it keeps `total_used` exact. */
  lemma MoveToNextKeepsAccounting(s: ArenaState, size: nat, align: nat, mem: MemoryOracle)
    requires Chained(s) && Accounting(s) && s.current + 1 < |s.blocks| && size > 0 && IsPowerOfTwo(align)
    ensures var r := MoveToNext(s, size, align, mem);
      Accounting(r.state) && (LaterBlocksEmpty(s) ==> LaterBlocksEmpty(r.state))
  {
    if size > s.blocks[s.current + 1].size {
      MoveToNextGrowsKeepsAccounting(s, size, align, mem);
    } else {
      MoveToNextLandsKeepsAccounting(s, size, align, mem);
    }
  }

  lemma MoveToNextGrowsKeepsAccounting(s: ArenaState, size: nat, align: nat, mem: MemoryOracle)
    requires Chained(s) && Accounting(s) && s.current + 1 < |s.blocks| && size > 0 && IsPowerOfTwo(align)
    requires size > s.blocks[s.current + 1].size
    ensures var r := MoveToNext(s, size, align, mem);
      Accounting(r.state) && (LaterBlocksEmpty(s) ==> LaterBlocksEmpty(r.state))
  {
    var c := s.current;
    var moved := s.(blocks := s.blocks[c + 1 := s.blocks[c + 1].(used := 0)], current := c + 1);
    ResetNextKeepsAccounting(s);
    MoveToNextGrows(s, size, align, mem);
    GrowKeepsConsistent(moved, BlockSize(s.config.blockSize, size), size, mem);
  }

  lemma MoveToNextLandsKeepsAccounting(s: ArenaState, size: nat, align: nat, mem: MemoryOracle)
    requires Chained(s) && Accounting(s) && s.current + 1 < |s.blocks| && size > 0 && IsPowerOfTwo(align)
    requires size <= s.blocks[s.current + 1].size
    ensures var r := MoveToNext(s, size, align, mem);
      Accounting(r.state) && (LaterBlocksEmpty(s) ==> LaterBlocksEmpty(r.state))
  {
    var c := s.current;
    var b := s.blocks[c + 1];
    var moved := s.(blocks := s.blocks[c + 1 := b.(used := 0)], current := c + 1);
    ResetNextKeepsAccounting(s);
    MoveToNextLands(s, size, align, mem);
    PrefixUpdate(moved.blocks, c + 1, c + 1, size);
    assert moved.blocks[c + 1 := moved.blocks[c + 1].(used := size)] == s.blocks[c + 1 := b.(used := size)];
  }

  /**
    Making the next block current after emptying it keeps `total_used`
    exact, and keeps the blocks after it empty when they were.
  */
  lemma ResetNextKeepsAccounting(s: ArenaState)
    requires Accounting(s) && s.current + 1 < |s.blocks|
    ensures var c := s.current;
      var moved := s.(blocks := s.blocks[c + 1 := s.blocks[c + 1].(used := 0)], current := c + 1);
      Accounting(moved) && (LaterBlocksEmpty(s) ==> LaterBlocksEmpty(moved))
  {
    var c := s.current;
    var nb := s.blocks[c + 1].(used := 0);
    var moved := s.(blocks := s.blocks[c + 1 := nb], current := c + 1);
    assert moved.blocks[..c + 2] == s.blocks[..c + 1] + [nb];
    SumUsedConcat(s.blocks[..c + 1], [nb]);
    assert [nb][1..] == [];
  }

  /**
    Every allocation keeps `total_used` equal to the bytes used up to the
    current block, with no assumption about the blocks after it; and it
    keeps those blocks empty when they were.
  */
  lemma AllocKeepsAccounting(s: ArenaState, size: nat, align: nat, mem: MemoryOracle)
    requires Chained(s) && Accounting(s)
    ensures var r := AllocInternal(s, size, align, mem);
      Accounting(r.state) && (LaterBlocksEmpty(s) ==> LaterBlocksEmpty(r.state))
  {
    var c := s.current;
    if size > 0 && IsPowerOfTwo(align) && !(!Fits(s.blocks[c], size, align) && s.config.fixedSize) {
      if c + 1 < |s.blocks| {
        MoveToNextKeepsAccounting(s, size, align, mem);
      } else {
        GrowKeepsConsistent(s, BlockSize(s.config.blockSize, size), size, mem);
      }
    }
  }

  /** A fixed-size arena refuses a request its current block cannot take, and only records the error. */
  lemma AllocFixedRefuses(s: ArenaState, size: nat, align: nat, mem: MemoryOracle)
    requires Chained(s) && s.config.fixedSize
    ensures size > 0 && IsPowerOfTwo(align) && !Fits(s.blocks[s.current], size, align) ==>
      AllocInternal(s, size, align, mem) == Step(s.(lastErr := OutOfMemory), Null)
  {
  }

  /** A null pointer or a zero size is refused with INVALID_SIZE, and nothing else changes. */
  lemma ResizeRejects(s: ArenaState, ptr: Ptr, oldSize: nat, newSize: nat, mem: MemoryOracle)
    requires Chained(s) && (ptr.Null? || oldSize == 0 || newSize == 0)
    ensures Resize(s, ptr, oldSize, newSize, mem) == Step(s.(lastErr := InvalidSize), Null)
  {
  }

  /** Growth past the current block on a fixed-size arena gives null with OUT_OF_MEMORY, and nothing else changes. */
  lemma ResizeFixedRefuses(s: ArenaState, ptr: Ptr, oldSize: nat, newSize: nat, mem: MemoryOracle)
    requires Chained(s) && s.config.fixedSize && ptr.Addr? && oldSize > 0
    requires var b := s.blocks[s.current]; newSize > oldSize && b.used + (newSize - oldSize) > b.size
    ensures Resize(s, ptr, oldSize, newSize, mem) == Step(s.(lastErr := OutOfMemory), Null)
  {
  }

  /**
    Shrinking, or growth the current block has room for, is done in place:
    the same pointer comes back, and the current block's `used` and
    `total_used` each move by `new_size - old_size`. This holds whatever
    the pointer, as long as the old size was handed out.
  */
  lemma ResizeInPlace(s: ArenaState, ptr: Ptr, oldSize: nat, newSize: nat, mem: MemoryOracle)
    requires Chained(s) && ptr.Addr? && 0 < oldSize <= s.blocks[s.current].used && oldSize <= s.totalUsed
    requires newSize > 0
    requires var b := s.blocks[s.current]; newSize <= oldSize || b.used + (newSize - oldSize) <= b.size
    ensures var c := s.current;
      var b := s.blocks[c];
      var r := Resize(s, ptr, oldSize, newSize, mem);
      r.result == ptr
      && r.state == s.(blocks := s.blocks[c := b.(used := b.used - oldSize + newSize)],
                       totalUsed := s.totalUsed - oldSize + newSize)
  {
  }

  /**
    A resize keeps `total_used` exact as long as the old size is no more
    than the current block has handed out, whichever pointer is passed.
  */
  lemma ResizeKeepsAccounting(s: ArenaState, ptr: Ptr, oldSize: nat, newSize: nat, mem: MemoryOracle)
    requires Chained(s) && Accounting(s) && oldSize <= s.blocks[s.current].used
    ensures Accounting(Resize(s, ptr, oldSize, newSize, mem).state)
  {
    var b := s.blocks[s.current];
    if !(ptr.Null? || oldSize == 0 || newSize == 0) {
      if newSize > oldSize && b.used + (newSize - oldSize) > b.size {
        if !s.config.fixedSize {
          ResizeMovedKeepsAccounting(s, ptr, oldSize, newSize, mem);
        }
      } else {
        ResizeInPlaceKeepsAccounting(s, ptr, oldSize, newSize, mem);
      }
    }
  }

  lemma ResizeInPlaceKeepsAccounting(s: ArenaState, ptr: Ptr, oldSize: nat, newSize: nat, mem: MemoryOracle)
    requires Chained(s) && Accounting(s) && oldSize <= s.blocks[s.current].used
    requires ptr.Addr? && oldSize > 0 && newSize > 0
    requires var b := s.blocks[s.current]; !(newSize > oldSize && b.used + (newSize - oldSize) > b.size)
    ensures Accounting(Resize(s, ptr, oldSize, newSize, mem).state)
  {
    var c := s.current;
    var b := s.blocks[c];
    var v := b.used + newSize - oldSize;
    assert Resize(s, ptr, oldSize, newSize, mem).state
      == s.(blocks := s.blocks[c := b.(used := v)], totalUsed := s.totalUsed + newSize - oldSize) by {
      SumUsedCovers(s.blocks[..c + 1], c);
      assert s.blocks[..c + 1][c] == b;
    }
    PrefixUpdate(s.blocks, c, c, v);
  }

  lemma ResizeMovedKeepsAccounting(s: ArenaState, ptr: Ptr, oldSize: nat, newSize: nat, mem: MemoryOracle)
    requires Chained(s) && Accounting(s) && oldSize <= s.blocks[s.current].used
    requires ptr.Addr? && oldSize > 0 && !s.config.fixedSize
    requires var b := s.blocks[s.current]; newSize > oldSize && b.used + (newSize - oldSize) > b.size
    ensures Accounting(Resize(s, ptr, oldSize, newSize, mem).state)
  {
    var c := s.current;
    AllocKeepsAccounting(s, newSize, s.config.alignment, mem);
    var a := Alloc(s, newSize, mem);
    if a.result.Addr? {
      assert a.state.blocks[c] == s.blocks[c] by {
        assert a.state.blocks[c] == a.state.blocks[..c + 1][c];
      }
      GiveBackKeepsAccounting(a.state, c, oldSize);
    }
  }

  // ---------------------------------------------------------------------
  // Placement

  /**
    A successful allocation never overlaps anything in the blocks up to
    the current one: its bytes come from a later block or a new one.
  */
  lemma AllocAvoidsEarlierBlocks(s: ArenaState, size: nat, align: nat, mem: MemoryOracle, p: Ptr)
    requires Chained(s) && p.Addr? && Find(s.blocks, p.block) <= s.current
    ensures var r := AllocInternal(s, size, align, mem);
      r.result.Addr? ==> r.result.block != p.block
  {
    var r := AllocInternal(s, size, align, mem);
    var k := Find(s.blocks, p.block);
    if r.result.Addr? && r.state.current < |s.blocks| {
      var j := r.state.current;
      if r.state.blocks[j] == s.blocks[j] {
        assert s.blocks[k].id != s.blocks[j].id;
      }
    }
  }

  /**
    A resize never moves the arena differently for different pointers:
    only the pointer handed back on the in-place path depends on it.
  */
  lemma ResizeIgnoresPosition(s: ArenaState, p: Ptr, q: Ptr, oldSize: nat, newSize: nat, mem: MemoryOracle)
    requires Chained(s) && p.Addr? && q.Addr?
    ensures Resize(s, p, oldSize, newSize, mem).state == Resize(s, q, oldSize, newSize, mem).state
  {
  }

  // ---------------------------------------------------------------------
  // Temporary scopes

  /** The arena after serving the requests in order. */
  function AllocAll(s: ArenaState, reqs: seq<Request>): (r: ArenaState)
    requires Chained(s)
    ensures Chained(r) && Extends(s, r)
    decreases |reqs|
  {
    if reqs == [] then s
    else
      var q := reqs[0];
      var t := AllocInternal(s, q.size, q.align, q.mem).state;
      KeepsPrefixExtends(s, t);
      var r := AllocAll(t, reqs[1..]);
      ExtendsTransitive(s, t, r);
      r
  }

  lemma {:induction false} AllocAllKeepsAccounting(s: ArenaState, reqs: seq<Request>)
    requires Chained(s) && Accounting(s)
    ensures Accounting(AllocAll(s, reqs))
    decreases |reqs|
  {
    if reqs != [] {
      var q := reqs[0];
      AllocKeepsAccounting(s, q.size, q.align, q.mem);
      AllocAllKeepsAccounting(AllocInternal(s, q.size, q.align, q.mem).state, reqs[1..]);
    }
  }

  /**
    Ending a checkpoint after any run of allocations puts back the current
    block, its cursor and `total_used`, and `total_used` is exact again:
    the blocks the rewind leaves full are reset before spar.c reuses them.
  */
  lemma TempScopeRestores<A>(arena: A, s: ArenaState, reqs: seq<Request>)
    requires Chained(s) && Accounting(s)
    ensures var t := TempBegin(arena, s);
      var s1 := AllocAll(s, reqs);
      Restorable(s1, t)
      && var r := TempEnd(s1, t);
      r.current == s.current && r.totalUsed == s.totalUsed
      && r.blocks[..r.current + 1] == s.blocks[..s.current + 1]
      && Chained(r) && Accounting(r)
  {
    AllocAllKeepsAccounting(s, reqs);
    TempScopeRewinds(arena, s, AllocAll(s, reqs));
  }

  // ---------------------------------------------------------------------
  // Where spar.c departs from its evident intent

  /**
    A request of more than the configured size rounded up to 4096, at the
    end of a growable chain, gets a block too small for it: the new block's
    cursor is past its end.
  */
  lemma GrownBlockOverfills(s: ArenaState, size: nat, align: nat, mem: MemoryOracle)
    requires Chained(s) && s.current == |s.blocks| - 1 && !s.config.fixedSize
    requires IsPowerOfTwo(align) && mem.regionOk && mem.nodeOk
    requires size > BlockSize(s.config.blockSize, size)
    ensures var r := AllocInternal(s, size, align, mem);
      r.result == Addr(|s.blocks|, 0)
      && r.state.blocks[s.current + 1] == Block(|s.blocks|, BlockSize(s.config.blockSize, size), size)
      && !Bounded(r.state.blocks)
  {
    var r := AllocInternal(s, size, align, mem);
    assert r.state.blocks[s.current + 1].used > r.state.blocks[s.current + 1].size;
  }

  /** With 4096-byte blocks, a request of 10000 bytes gets a 4096-byte block. */
  lemma UndersizedExample()
    ensures BlockSize(4096, 10000) == 4096
  {
    DefaultsAreSound();
    AlignForwardAligned(4096, PAGE_SIZE);
  }

  /** A zero-size request is refused without recording any error. */
  lemma ZeroSizeKeepsError(s: ArenaState, align: nat, mem: MemoryOracle)
    requires Chained(s)
    ensures AllocInternal(s, 0, align, mem) == Step(s, Null)
  {
  }

  /**
    A request the current block has room for is still not served there: it
    goes to the start of a later block (a new one if none follows), while
    the room in the current block is left unused.
  */
  lemma LeavesFittingBlock(s: ArenaState, size: nat, align: nat, mem: MemoryOracle)
    requires Chained(s) && size > 0 && IsPowerOfTwo(align) && Fits(s.blocks[s.current], size, align)
    requires mem.regionOk && mem.nodeOk
    ensures var r := AllocInternal(s, size, align, mem);
      r.result.Addr? && r.result.offset == 0 && r.state.current > s.current
      && r.result.block != s.blocks[s.current].id
  {
    var r := AllocInternal(s, size, align, mem);
    AllocAvoidsEarlierBlocks(s, size, align, mem, Addr(s.blocks[s.current].id, 0));
    FindDistinct(s.blocks, s.current);
  }

  /**
    A fixed-size arena whose current block is the last acquires a new block
    for a request that fits, and `total_allocated` grows.
  */
  lemma FixedArenaGrows(s: ArenaState, size: nat, align: nat, mem: MemoryOracle)
    requires Chained(s) && s.config.fixedSize && s.current == |s.blocks| - 1
    requires size > 0 && IsPowerOfTwo(align) && Fits(s.blocks[s.current], size, align)
    requires mem.regionOk && mem.nodeOk
    ensures var r := AllocInternal(s, size, align, mem);
      r.result.Addr? && |r.state.blocks| == |s.blocks| + 1
      && r.state.totalAllocated >= s.totalAllocated + s.config.blockSize > s.totalAllocated
  {
  }

  /**
    On a fresh default arena the first 16-byte request already opens a
    second 64 KiB block, so `total_allocated` doubles.
  */
  lemma FirstRequestOpensSecondBlock(s: ArenaState, mem: MemoryOracle)
    requires Chained(s) && s.blocks == [Block(0, 65536, 0)] && s.current == 0
    requires s.config.blockSize == 65536 && s.config.alignment == 8 && !s.config.fixedSize
    requires mem.regionOk && mem.nodeOk
    ensures var r := Alloc(s, 16, mem);
      r.result == Addr(1, 0) && r.state.blocks == [Block(0, 65536, 0), Block(1, 65536, 16)]
      && r.state.totalAllocated == 131072 && r.state.totalUsed == s.totalUsed + 16
  {
    var r := Alloc(s, 16, mem);
    assert SumSizes(s.blocks) == 65536 + SumSizes([]);
    assert r.state.blocks == s.blocks[..1] + [Block(1, 65536, 16)] + s.blocks[1..];
  }
}
