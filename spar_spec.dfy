/**
  The allocation engine of spar.c as functions on `ArenaState`. This
  revision shares the records, construction, checkpoints and clearing with
  sp_arena.c, but it sizes oversized blocks, allocates and resizes
  differently:

  - an oversized block is the configured size rounded up to 4096, which
    need not hold the request;
  - every successful allocation leaves the current block for the next one,
    resetting that block, or for a new block, even when the current block
    had room;
  - only a request that does not fit is refused by a fixed-size arena;
  - a resize is done in place whatever pointer it is given.

  An arena here is only `Chained`; `Bounded` does not hold for this revision.
*/
module SparSpec {
  import opened Alignment
  import opened ArenaTypes
  import opened ArenaCommon

  // ---------------------------------------------------------------------
  // Blocks and construction

  /**
    The size `sp_arena_create_block` gives a block asked to hold `minSize`
    bytes: the configured size, rounded up to a multiple of 4096 when the
    request is larger. The rounding is of the configured size, not of the
    request.
  */
  function BlockSize(blockSize: nat, minSize: nat): (r: nat)
    ensures r >= blockSize
    ensures minSize <= blockSize ==> r == blockSize
    ensures minSize > blockSize ==> r % PAGE_SIZE == 0 && r < blockSize + PAGE_SIZE
  {
    DefaultsAreSound();
    if minSize > blockSize then AlignForward(blockSize, PAGE_SIZE) else blockSize
  }

  /** `sp_arena_create_block`. */
  function CreateBlock(s: ArenaState, minSize: nat, mem: MemoryOracle): Acquired
  {
    Acquire(s, BlockSize(s.config.blockSize, minSize), mem)
  }

  /** `sp_arena_create_with_config`: the same checks and first block as sp_arena.c. */
  function Create(config: Config, arenaOk: bool, mem: MemoryOracle): (r: Option<ArenaState>)
    ensures r.Some? <==> arenaOk && ValidConfig(config) && mem.regionOk && mem.nodeOk
    ensures r.Some? ==>
      var s := r.value;
      s.blocks == [Block(0, config.blockSize, 0)] && s.current == 0
      && s.totalAllocated == config.blockSize && s.totalUsed == 0
      && s.config == InstallDefaults(config) && s.lastErr == NoError
      && Chained(s) && Accounting(s) && LaterBlocksEmpty(s)
  {
    if !arenaOk || !ValidConfig(config) then None
    else
      var s0 := ArenaState([], 0, 0, 0, InstallDefaults(config), NoError);
      var a := CreateBlock(s0, 0, mem);
      if a.block.None? then None
      else
        var s := a.state.(blocks := [a.block.value], current := 0);
        assert s.blocks[..1] == s.blocks && s.blocks[1..] == [];
        assert SumSizes(s.blocks) == config.blockSize && SumUsed(s.blocks) == 0;
        Some(s)
  }

  // ---------------------------------------------------------------------
  // Allocation

  /**
    `sp_arena_alloc_internal` of spar.c: a zero size returns null without
    recording anything; a bad alignment is refused; a fixed-size arena
    refuses a request that does not fit its current block. Otherwise the
    request goes to the next block, or to a new block when there is none.
    A successful allocation always starts a block.
  */
  function AllocInternal(s: ArenaState, size: nat, align: nat, mem: MemoryOracle): (r: Step)
    requires Chained(s)
    ensures Chained(r.state) && KeepsPrefix(s, r.state)
    ensures r.result.Null? ==>
      r.state == (if size > 0 && IsPowerOfTwo(align) && s.current + 1 < |s.blocks|
                     && (Fits(s.blocks[s.current], size, align) || !s.config.fixedSize)
                  then ResetNext(s) else s)
                 .(lastErr := if size == 0 then s.lastErr
                              else if !IsPowerOfTwo(align) then InvalidAlignment
                              else OutOfMemory)
    ensures r.result.Addr? ==>
      size > 0 && IsPowerOfTwo(align) && Started(s, r, size)
  {
    if size == 0 then Step(s, Null)
    else if !IsPowerOfTwo(align) then Step(s.(lastErr := InvalidAlignment), Null)
    else
      var c := s.current;
      var b := s.blocks[c];
      if !Fits(b, size, align) && s.config.fixedSize then Step(s.(lastErr := OutOfMemory), Null)
      else if c + 1 < |s.blocks| then MoveToNext(s, size, align, mem)
      else
        var r := Grow(s, BlockSize(s.config.blockSize, size), size, mem);
        assert r.result.Addr? ==> r.state.blocks[c + 1] == Block(|s.blocks|, BlockSize(s.config.blockSize, size), size);
        r
  }

  /**
    A successful allocation of `size` bytes: a later block became current,
    the bytes are its first ones, that block's cursor is exactly `size`,
    `total_used` grew by `size` and no error was recorded.
  */
  ghost predicate Started(s: ArenaState, r: Step, size: nat)
  {
    var t := r.state;
    r.result.Addr? && s.current < t.current < |t.blocks|
    && r.result == Addr(t.blocks[t.current].id, 0)
    && t.blocks[t.current].used == size
    && t.totalUsed == s.totalUsed + size
    && t.lastErr == s.lastErr
  }

  /** The first step of the branch for an arena with a next block: that block is emptied and made current. */
  function ResetNext(s: ArenaState): ArenaState
    requires s.current + 1 < |s.blocks|
  {
    s.(blocks := s.blocks[s.current + 1 := s.blocks[s.current + 1].(used := 0)], current := s.current + 1)
  }

  /**
    The branch for an arena with a block after the current one: that block
    becomes current and is reset to empty; if the request is larger than
    it, a new block is linked after it and serves the request. When that
    block cannot be had, the emptied next block stays current.
  */
  function MoveToNext(s: ArenaState, size: nat, align: nat, mem: MemoryOracle): (r: Step)
    requires Chained(s) && s.current + 1 < |s.blocks| && size > 0 && IsPowerOfTwo(align)
    ensures Chained(r.state) && KeepsPrefix(s, r.state)
    ensures r.result.Null? ==> r.state == ResetNext(s).(lastErr := OutOfMemory)
    ensures r.result.Addr? ==> Started(s, r, size)
  {
    var c := s.current;
    var nb := s.blocks[c + 1].(used := 0);
    var moved := ResetNext(s);
    SameShapeKeepsChained(s, moved);
    assert moved.blocks[..c + 1] == s.blocks[..c + 1];
    var aligned := AlignForward(nb.used, align);
    AlignForwardZero(align);
    if aligned + size > nb.size then
      var r := Grow(moved, BlockSize(s.config.blockSize, size), size, mem);
      KeepsPrefixTransitive(s, moved, r.state);
      assert r.result.Addr? ==>
        r.state.blocks[c + 2] == Block(|s.blocks|, BlockSize(s.config.blockSize, size), size);
      r
    else
      var t := moved.(blocks := moved.blocks[c + 1 := nb.(used := aligned + size)],
                      totalUsed := s.totalUsed + (size + (aligned - nb.used)));
      SameShapeKeepsChained(s, t);
      assert t.blocks[..c + 1] == s.blocks[..c + 1];
      Step(t, Addr(nb.id, aligned))
  }

  /** `sp_arena_alloc`: the configured alignment. */
  function Alloc(s: ArenaState, size: nat, mem: MemoryOracle): (r: Step)
    requires Chained(s)
    ensures Chained(r.state) && KeepsPrefix(s, r.state)
  {
    AllocInternal(s, size, s.config.alignment, mem)
  }

  // ---------------------------------------------------------------------
  // Resizing

  /**
    `sp_arena_resize` of spar.c: reject a null pointer or zero size; growth
    past the current block is refused by a fixed-size arena and otherwise
    becomes a fresh allocation that, if it succeeds, gives `old_size` back
    to the old block; everything else moves the current block's cursor by
    the size difference, whichever pointer was passed. The subtractions
    are unsigned.
  */
  function Resize(s: ArenaState, ptr: Ptr, oldSize: nat, newSize: nat, mem: MemoryOracle): (r: Step)
    requires Chained(s)
    ensures Chained(r.state) && Extends(s, r.state)
  {
    var c := s.current;
    if ptr.Null? || oldSize == 0 || newSize == 0 then Step(s.(lastErr := InvalidSize), Null)
    else
      var b := s.blocks[c];
      if newSize > oldSize && b.used + (newSize - oldSize) > b.size then
        if s.config.fixedSize then Step(s.(lastErr := OutOfMemory), Null)
        else
          var a := Alloc(s, newSize, mem);
          KeepsPrefixExtends(s, a.state);
          if a.result.Null? then a
          else
            var ob := a.state.blocks[c];
            var t := a.state.(blocks := a.state.blocks[c := ob.(used := SizeSub(ob.used, oldSize))],
                              totalUsed := SizeSub(a.state.totalUsed, oldSize));
            SameShapeKeepsChained(a.state, t);
            assert t.blocks[..c] == a.state.blocks[..c];
            Step(t, a.result)
      else
        var t := s.(blocks := s.blocks[c := b.(used := SizeSub(b.used + newSize, oldSize))],
                    totalUsed := SizeSub(s.totalUsed + newSize, oldSize));
        SameShapeKeepsChained(s, t);
        assert t.blocks[..c] == s.blocks[..c];
        Step(t, ptr)
  }
}
