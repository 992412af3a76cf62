/**
  The allocation engine of sp_arena.c as functions on `ArenaState`: block
  sizing, construction, bump allocation with its scan over later blocks,
  and resizing. The class in sp_arena.dfy is proved to follow these
  functions; the lemmas here say what they guarantee.
*/
module SpArenaSpec {
  import opened Alignment
  import opened ArenaTypes
  import opened ArenaCommon

  /** A well-formed sp_arena.c arena: no block is ever filled beyond its size. */
  ghost predicate Valid(s: ArenaState)
  {
    Chained(s) && Bounded(s.blocks)
  }

  /** Both counter invariants: `total_used` is exact, and the blocks after the current one are empty. */
  ghost predicate Consistent(s: ArenaState)
  {
    Accounting(s) && LaterBlocksEmpty(s)
  }

  // ---------------------------------------------------------------------
  // Blocks and construction

  /**
    The size `sp_arena_create_block` gives a block that must hold `minSize`
    bytes: the configured size, or the least multiple of 4096 holding the
    request when that is larger.
  */
  function BlockSize(blockSize: nat, minSize: nat): (r: nat)
    ensures r >= minSize && r >= blockSize
    ensures minSize <= blockSize ==> r == blockSize
    ensures minSize > blockSize ==> r % PAGE_SIZE == 0 && r < minSize + PAGE_SIZE
  {
    DefaultsAreSound();
    if minSize > blockSize then AlignForward(minSize, PAGE_SIZE) else blockSize
  }

  /** An oversized block is the least multiple of 4096 that holds the request. */
  lemma BlockSizeIsLeast(blockSize: nat, minSize: nat, m: nat)
    requires minSize > blockSize && m % PAGE_SIZE == 0 && m >= minSize
    ensures BlockSize(blockSize, minSize) <= m
  {
    DefaultsAreSound();
    AlignForwardIsLeast(minSize, PAGE_SIZE, m);
  }

  /** `sp_arena_create_block`. */
  function CreateBlock(s: ArenaState, minSize: nat, mem: MemoryOracle): Acquired
  {
    Acquire(s, BlockSize(s.config.blockSize, minSize), mem)
  }

  /**
    `sp_arena_create_with_config`: `arenaOk` is whether the control
    structure could be allocated, `mem` what the allocator answers for the
    first block. Any failure yields no arena.
  */
  function Create(config: Config, arenaOk: bool, mem: MemoryOracle): (r: Option<ArenaState>)
    ensures r.Some? <==> arenaOk && ValidConfig(config) && mem.regionOk && mem.nodeOk
    ensures r.Some? ==>
      var s := r.value;
      s.blocks == [Block(0, config.blockSize, 0)] && s.current == 0
      && s.totalAllocated == config.blockSize && s.totalUsed == 0
      && s.config == InstallDefaults(config) && s.lastErr == NoError
      && Valid(s) && Consistent(s)
  {
    if !arenaOk || !ValidConfig(config) then None
    else
      var s0 := ArenaState([], 0, 0, 0, InstallDefaults(config), NoError);
      var a := CreateBlock(s0, 0, mem);
      if a.block.None? then None
      else
        var s := a.state.(blocks := [a.block.value], current := 0);
        assert s.blocks[..1] == s.blocks && s.blocks[1..] == [];
        assert SumSizes(s.blocks) == config.blockSize && SumUsed(s.blocks) == 0;
        Some(s)
  }

  // ---------------------------------------------------------------------
  // Allocation

  /**
    Moving `current` and rewriting `used` values within bounds keeps an
    arena valid.
  */
  lemma SetUsedKeepsValid(s: ArenaState, t: ArenaState, i: nat, v: nat)
    requires Valid(s) && i < |s.blocks| && v <= s.blocks[i].size
    requires t.blocks == s.blocks[i := s.blocks[i].(used := v)] && t.current < |t.blocks|
    requires t.totalAllocated == s.totalAllocated && t.config == s.config
    ensures Valid(t)
  {
    SameShapeKeepsChained(s, t);
  }

  /**
    `sp_arena_alloc_internal`: reject a zero size, then a bad alignment;
    take the bytes from the current block when they fit; otherwise fail on
    a fixed-size arena, or look for space in the later blocks.
  */
  function AllocInternal(s: ArenaState, size: nat, align: nat, mem: MemoryOracle): (r: Step)
    requires Valid(s)
    ensures Valid(r.state) && Extends(s, r.state)
    ensures |r.state.blocks| >= |s.blocks|
    ensures (size == 0 || !IsPowerOfTwo(align) || !Fits(s.blocks[s.current], size, align)) ==>
      KeepsPrefix(s, r.state)
    ensures r.result.Null? ==>
      r.state == s.(blocks := if size > 0 && IsPowerOfTwo(align) && !s.config.fixedSize
                              then Emptied(s.blocks, s.current + 1, |s.blocks|) else s.blocks,
                    lastErr := if size == 0 then InvalidSize
                               else if !IsPowerOfTwo(align) then InvalidAlignment
                               else OutOfMemory)
    ensures r.result.Addr? ==> size > 0 && IsPowerOfTwo(align) && Placed(s, r, size, align)
  {
    if size == 0 then Step(s.(lastErr := InvalidSize), Null)
    else if !IsPowerOfTwo(align) then Step(s.(lastErr := InvalidAlignment), Null)
    else
      var c := s.current;
      var b := s.blocks[c];
      if Fits(b, size, align) then
        var aligned := AlignForward(b.used, align);
        var t := s.(blocks := s.blocks[c := b.(used := aligned + size)],
                    totalUsed := s.totalUsed + (size + (aligned - b.used)));
        SetUsedKeepsValid(s, t, c, aligned + size);
        Step(t, Addr(b.id, aligned))
      else if s.config.fixedSize then Step(s.(lastErr := OutOfMemory), Null)
      else
        var r := Scan(s, c + 1, size, align, mem);
        ScanSound(s, c + 1, size, align, mem);
        KeepsPrefixExtends(s, r.state);
        r
  }

  /**
    Where an allocation's bytes come from: the block that is now current,
    at an offset aligned to `align` and no lower than what that block had
    already handed out, ending at its new cursor. The block is either one
    the arena had (at position `current`), or a fresh one with the next id.
  */
  ghost predicate Placed(s: ArenaState, r: Step, size: nat, align: nat)
    requires align > 0
  {
    var t := r.state;
    r.result.Addr? && t.current < |t.blocks|
    && t.blocks[t.current].id == r.result.block
    && r.result.offset % align == 0
    && r.result.offset + size == t.blocks[t.current].used
    && (if r.result.block == |s.blocks| then r.result.offset == 0
        else
          t.current < |s.blocks| && s.blocks[t.current].id == r.result.block
          && s.blocks[t.current].used <= r.result.offset)
  }

  /**
    The loop over the blocks after the current one, from position `i`: the
    first one whose cursor, padded, leaves room becomes current and serves
    the request; every block passed over is emptied. When none is left, a
    new block is created.
  */
  function Scan(s: ArenaState, i: nat, size: nat, align: nat, mem: MemoryOracle): (r: Step)
    requires Valid(s) && s.current < i <= |s.blocks| && size > 0 && IsPowerOfTwo(align)
    ensures Valid(r.state)
    decreases |s.blocks| - i
  {
    if i == |s.blocks| then NewBlock(s, size, mem)
    else
      var b := s.blocks[i];
      if Fits(b, size, align) then
        var aligned := AlignForward(b.used, align);
        var t := s.(current := i, blocks := s.blocks[i := b.(used := aligned + size)],
                    totalUsed := s.totalUsed + (size + (aligned - b.used)));
        SetUsedKeepsValid(s, t, i, aligned + size);
        Step(t, Addr(b.id, aligned))
      else
        var s' := s.(blocks := s.blocks[i := b.(used := 0)]);
        SetUsedKeepsValid(s, s', i, 0);
        Scan(s', i + 1, size, align, mem)
  }

  /** The chain with the blocks at positions `i` up to, but not including, `j` emptied. */
  function Emptied(bs: seq<Block>, i: nat, j: nat): (r: seq<Block>)
  {
    seq(|bs|, k requires 0 <= k < |bs| => if i <= k < j then bs[k].(used := 0) else bs[k])
  }

  /** Emptying no position changes nothing. */
  lemma EmptiedNone(bs: seq<Block>, i: nat)
    ensures Emptied(bs, i, i) == bs
  {
  }

  /** Emptying position `i` and then the ones after it up to `j` is emptying them all at once. */
  lemma EmptiedStep(bs: seq<Block>, i: nat, j: nat)
    requires i < j && i < |bs|
    ensures Emptied(bs[i := bs[i].(used := 0)], i + 1, j) == Emptied(bs, i, j)
  {
  }

  /**
    What the walk from position `i` guarantees: it keeps the blocks up to
    the current one; on failure the error is recorded and every block from
    `i` on has been emptied, nothing else changing; on success the bytes
    are placed in the block it made current, which is at or after `i`
    unless it is new.
  */
  ghost predicate ScanOk(s: ArenaState, i: nat, r: Step, size: nat, align: nat)
    requires align > 0
  {
    KeepsPrefix(s, r.state)
    && (r.result.Null? ==>
      r.state == s.(blocks := Emptied(s.blocks, i, |s.blocks|), lastErr := OutOfMemory))
    && (r.result.Addr? ==>
      Placed(s, r, size, align) && (r.result.block != |s.blocks| ==> i <= r.state.current))
  }

  lemma {:induction false} ScanSound(s: ArenaState, i: nat, size: nat, align: nat, mem: MemoryOracle)
    requires Valid(s) && s.current < i <= |s.blocks| && size > 0 && IsPowerOfTwo(align)
    ensures ScanOk(s, i, Scan(s, i, size, align, mem), size, align)
    decreases |s.blocks| - i
  {
    if i == |s.blocks| {
      ScanEnds(s, size, align, mem);
      EmptiedNone(s.blocks, i);
    } else if Fits(s.blocks[i], size, align) {
      ScanLandsSound(s, i, size, align, mem);
    } else {
      var s' := s.(blocks := s.blocks[i := s.blocks[i].(used := 0)]);
      ScanSkips(s, i, size, align, mem);
      ScanSound(s', i + 1, size, align, mem);
      ScanSkipsSound(s, i, size, align, mem);
    }
  }

  lemma ScanLandsSound(s: ArenaState, i: nat, size: nat, align: nat, mem: MemoryOracle)
    requires Valid(s) && s.current < i < |s.blocks| && size > 0 && IsPowerOfTwo(align)
    requires Fits(s.blocks[i], size, align)
    ensures ScanOk(s, i, Scan(s, i, size, align, mem), size, align)
  {
    ScanLands(s, i, size, align, mem);
    var r := Scan(s, i, size, align, mem);
    assert r.state.blocks[..s.current + 1] == s.blocks[..s.current + 1];
  }

  lemma ScanSkipsSound(s: ArenaState, i: nat, size: nat, align: nat, mem: MemoryOracle)
    requires Valid(s) && s.current < i < |s.blocks| && size > 0 && IsPowerOfTwo(align)
    requires !Fits(s.blocks[i], size, align)
    requires var s' := s.(blocks := s.blocks[i := s.blocks[i].(used := 0)]);
      Valid(s') && ScanOk(s', i + 1, Scan(s', i + 1, size, align, mem), size, align)
    ensures ScanOk(s, i, Scan(s, i, size, align, mem), size, align)
  {
    var s' := s.(blocks := s.blocks[i := s.blocks[i].(used := 0)]);
    ScanSkips(s, i, size, align, mem);
    assert s'.blocks[..s.current + 1] == s.blocks[..s.current + 1];
    EmptiedStep(s.blocks, i, |s.blocks|);
  }

  /** One step of the walk past a block that has no room: it is emptied and the walk goes on. */
  lemma ScanSkips(s: ArenaState, i: nat, size: nat, align: nat, mem: MemoryOracle)
    requires Valid(s) && s.current < i < |s.blocks| && size > 0 && IsPowerOfTwo(align)
    requires !Fits(s.blocks[i], size, align)
    ensures var s' := s.(blocks := s.blocks[i := s.blocks[i].(used := 0)]);
      Valid(s') && Scan(s, i, size, align, mem) == Scan(s', i + 1, size, align, mem)
  {
    SetUsedKeepsValid(s, s.(blocks := s.blocks[i := s.blocks[i].(used := 0)]), i, 0);
  }

  /** The walk stops at a block with room: it becomes current and serves the request. */
  lemma ScanLands(s: ArenaState, i: nat, size: nat, align: nat, mem: MemoryOracle)
    requires Valid(s) && s.current < i < |s.blocks| && size > 0 && IsPowerOfTwo(align)
    requires Fits(s.blocks[i], size, align)
    ensures var b := s.blocks[i];
      var aligned := AlignForward(b.used, align);
      Scan(s, i, size, align, mem)
      == Step(s.(current := i, blocks := s.blocks[i := b.(used := aligned + size)],
                 totalUsed := s.totalUsed + (size + (aligned - b.used))),
              Addr(b.id, aligned))
  {
  }

  /** The walk has run past the last block: a new one is created. */
  lemma ScanEnds(s: ArenaState, size: nat, align: nat, mem: MemoryOracle)
    requires Valid(s) && size > 0 && IsPowerOfTwo(align)
    ensures Scan(s, |s.blocks|, size, align, mem) == NewBlock(s, size, mem)
  {
  }

  /**
    The whole arena after the walk from position `i`. Every block it passed
    over, from `i` up to the one it stopped at, has been emptied. It stops
    at a block with room, which becomes current and serves the request; or
    it runs off the chain and links a new block after the current one; or
    that fails, and only the error is recorded besides the emptied blocks.
  */
  ghost predicate ScanState(s: ArenaState, i: nat, r: Step, size: nat)
    requires s.current < i <= |s.blocks|
  {
    var c := s.current;
    var t := r.state;
    match r.result
    case Null => t == s.(blocks := Emptied(s.blocks, i, |s.blocks|), lastErr := OutOfMemory)
    case Addr(id, offset) =>
      if id == |s.blocks| then
        var e := Emptied(s.blocks, i, |s.blocks|);
        var nb := Block(|s.blocks|, BlockSize(s.config.blockSize, size), size);
        offset == 0
        && t == s.(blocks := e[..c + 1] + [nb] + e[c + 1..], current := c + 1,
                   totalAllocated := s.totalAllocated + nb.size, totalUsed := s.totalUsed + size)
      else
        i <= t.current < |s.blocks| && id == s.blocks[t.current].id
        && t.totalUsed + s.blocks[t.current].used == s.totalUsed + offset + size
        && t == s.(blocks := Emptied(s.blocks, i, t.current)[t.current := s.blocks[t.current].(used := offset + size)],
                   current := t.current, totalUsed := t.totalUsed)
  }

  /** The walk over the later blocks, taken as a whole, ends in the state `ScanState` describes. */
  lemma {:induction false} ScanEmptiesPassed(s: ArenaState, i: nat, size: nat, align: nat, mem: MemoryOracle)
    requires Valid(s) && s.current < i <= |s.blocks| && size > 0 && IsPowerOfTwo(align)
    ensures ScanState(s, i, Scan(s, i, size, align, mem), size)
    decreases |s.blocks| - i
  {
    if i == |s.blocks| {
      ScanEnds(s, size, align, mem);
      EmptiedNone(s.blocks, i);
    } else if Fits(s.blocks[i], size, align) {
      ScanLands(s, i, size, align, mem);
      EmptiedNone(s.blocks, i);
      assert s.blocks[i].id != |s.blocks|;
    } else {
      var s' := s.(blocks := s.blocks[i := s.blocks[i].(used := 0)]);
      ScanSkips(s, i, size, align, mem);
      ScanEmptiesPassed(s', i + 1, size, align, mem);
      ScanStateStepBack(s, i, Scan(s', i + 1, size, align, mem), size);
    }
  }

  /** A block passed over at position `i` joins the emptied range of the rest of the walk. */
  lemma ScanStateStepBack(s: ArenaState, i: nat, r: Step, size: nat)
    requires s.current < i < |s.blocks|
    requires ScanState(s.(blocks := s.blocks[i := s.blocks[i].(used := 0)]), i + 1, r, size)
    ensures ScanState(s, i, r, size)
  {
    if r.result.Null? {
      StepBackFailed(s, i, r, size);
    } else if r.result.block == |s.blocks| {
      StepBackGrown(s, i, r, size);
    } else {
      StepBackLanded(s, i, r, size);
    }
  }

  lemma StepBackFailed(s: ArenaState, i: nat, r: Step, size: nat)
    requires s.current < i < |s.blocks| && r.result.Null?
    requires ScanState(s.(blocks := s.blocks[i := s.blocks[i].(used := 0)]), i + 1, r, size)
    ensures ScanState(s, i, r, size)
  {
    EmptiedStep(s.blocks, i, |s.blocks|);
  }

  lemma StepBackGrown(s: ArenaState, i: nat, r: Step, size: nat)
    requires s.current < i < |s.blocks| && r.result.Addr? && r.result.block == |s.blocks|
    requires ScanState(s.(blocks := s.blocks[i := s.blocks[i].(used := 0)]), i + 1, r, size)
    ensures ScanState(s, i, r, size)
  {
    var s' := s.(blocks := s.blocks[i := s.blocks[i].(used := 0)]);
    var c := s.current;
    EmptiedStep(s.blocks, i, |s.blocks|);
    var e := Emptied(s.blocks, i, |s.blocks|);
    var nb := Block(|s.blocks|, BlockSize(s.config.blockSize, size), size);
    assert r.state == s'.(blocks := e[..c + 1] + [nb] + e[c + 1..], current := c + 1,
                          totalAllocated := s.totalAllocated + nb.size, totalUsed := s.totalUsed + size);
  }

  lemma StepBackLanded(s: ArenaState, i: nat, r: Step, size: nat)
    requires s.current < i < |s.blocks| && r.result.Addr? && r.result.block != |s.blocks|
    requires ScanState(s.(blocks := s.blocks[i := s.blocks[i].(used := 0)]), i + 1, r, size)
    ensures ScanState(s, i, r, size)
  {
    var s' := s.(blocks := s.blocks[i := s.blocks[i].(used := 0)]);
    var j := r.state.current;
    assert i + 1 <= j;
    EmptiedStep(s.blocks, i, j);
    assert s'.blocks[j] == s.blocks[j];
  }

  /**
    The end of `sp_arena_alloc_internal`: a block large enough for the
    request is linked after the current one and serves it from offset 0.
  */
  function NewBlock(s: ArenaState, size: nat, mem: MemoryOracle): (r: Step)
    requires Valid(s)
    ensures Valid(r.state) && KeepsPrefix(s, r.state)
    ensures r.result.Null? ==> r.state == s.(lastErr := OutOfMemory)
    ensures r.result.Addr? ==>
      r.result == Addr(|s.blocks|, 0) && r.state.current == s.current + 1
      && r.state.blocks[s.current + 1] == Block(|s.blocks|, BlockSize(s.config.blockSize, size), size)
  {
    var r := Grow(s, BlockSize(s.config.blockSize, size), size, mem);
    GrowKeepsBounded(s, BlockSize(s.config.blockSize, size), size, mem);
    r
  }

  lemma GrowKeepsBounded(s: ArenaState, blockSize: nat, size: nat, mem: MemoryOracle)
    requires Valid(s) && size <= blockSize
    ensures Bounded(Grow(s, blockSize, size, mem).state.blocks)
  {
    var r := Grow(s, blockSize, size, mem);
    if r.result.Addr? {
      var c := s.current;
      var bs := r.state.blocks;
      assert bs == s.blocks[..c + 1] + [Block(|s.blocks|, blockSize, size)] + s.blocks[c + 1..];
      forall k | 0 <= k < |bs| ensures bs[k].used <= bs[k].size {
        if k < c + 1 {
          assert bs[k] == s.blocks[k];
        } else if k > c + 1 {
          assert bs[k] == s.blocks[k - 1];
        }
      }
    }
  }

  /** `sp_arena_alloc`: the configured alignment. */
  function Alloc(s: ArenaState, size: nat, mem: MemoryOracle): (r: Step)
    requires Valid(s)
    ensures Valid(r.state) && Extends(s, r.state)
  {
    AllocInternal(s, size, s.config.alignment, mem)
  }

  // ---------------------------------------------------------------------
  // Resizing

  /**
    The pointer is the last allocation of the current block: `old_size`
    bytes ending at its cursor.
  */
  predicate AtTail(s: ArenaState, ptr: Ptr, oldSize: nat)
    requires s.current < |s.blocks|
  {
    var b := s.blocks[s.current];
    ptr.Addr? && ptr.block == b.id && oldSize <= b.used && ptr.offset == b.used - oldSize
  }

  /**
    `sp_arena_resize`: reject a null pointer or zero size; an allocation
    that is not the current block's last moves to a fresh allocation; the
    last one grows or shrinks in place when it can, and otherwise moves,
    giving its old bytes back to its block.
  */
  function Resize(s: ArenaState, ptr: Ptr, oldSize: nat, newSize: nat, mem: MemoryOracle): (r: Step)
    requires Valid(s)
    ensures Valid(r.state) && Extends(s, r.state)
  {
    if ptr.Null? || oldSize == 0 || newSize == 0 then Step(s.(lastErr := InvalidSize), Null)
    else if !AtTail(s, ptr, oldSize) then Alloc(s, newSize, mem)
    else
      var c := s.current;
      var b := s.blocks[c];
      if newSize > oldSize && b.used + (newSize - oldSize) > b.size then
        if s.config.fixedSize then Step(s.(lastErr := OutOfMemory), Null)
        else
          var a := Alloc(s, newSize, mem);
          if a.result.Null? then a
          else
            var ob := a.state.blocks[c];
            var t := a.state.(blocks := a.state.blocks[c := ob.(used := SizeSub(ob.used, oldSize))],
                              totalUsed := SizeSub(a.state.totalUsed, oldSize));
            assert ob == b by {
              assert a.state.blocks[c] == a.state.blocks[..c + 1][c];
            }
            SetUsedKeepsValid(a.state, t, c, b.used - oldSize);
            assert t.blocks[..c] == a.state.blocks[..c];
            Step(t, a.result)
      else
        var t := s.(blocks := s.blocks[c := b.(used := b.used - oldSize + newSize)],
                    totalUsed := SizeSub(s.totalUsed + newSize, oldSize));
        SetUsedKeepsValid(s, t, c, b.used - oldSize + newSize);
        Step(t, ptr)
  }
}
