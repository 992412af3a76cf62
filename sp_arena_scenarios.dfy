/**
  Concrete runs of sp_arena.c's engine: the default arena, growth into a
  second block, a fixed-size arena refusing to grow, the temporary scope of
  the library's usage example, and the rewind that leaves a later block
  full.
*/
module SpArenaScenarios {
  import opened Alignment
  import opened ArenaTypes
  import opened ArenaCommon
  import opened SpArenaSpec
  import opened SpArenaProps

  /** The allocator grants every request. */
  const OK: MemoryOracle := MemoryOracle(true, true)

  /** 1 KiB blocks, 8-byte alignment, the default routines. */
  const SMALL: Config := Config(1024, 8, false, None, None)

  /** The same, fixed to its first block. */
  const SMALL_FIXED: Config := Config(1024, 8, true, None, None)

  /** A default arena serves two requests back to back from its first block. */
  lemma DefaultArenaBumps()
    ensures Create(DEFAULT_CONFIG, true, OK).Some?
    ensures var s := Create(DEFAULT_CONFIG, true, OK).value;
      var a := Alloc(s, 400, OK);
      var b := Alloc(a.state, 14, OK);
      a.result == Addr(0, 0) && b.result == Addr(0, 400)
      && b.state.blocks == [Block(0, 65536, 414)] && b.state.totalUsed == 414
      && b.state.totalAllocated == 65536
  {
    DefaultsAreSound();
    var s := Create(DEFAULT_CONFIG, true, OK).value;
    assert s.blocks == [Block(0, 65536, 0)] && s.config.alignment == 8 && s.totalUsed == 0;
    DefaultBump(s, 0, 400);
    DefaultBump(Alloc(s, 400, OK).state, 400, 14);
  }

  /**
    On an arena whose one block of 64 KiB holds a multiple of 8 bytes, a
    request that fits is served right at the cursor.
  */
  lemma DefaultBump(s: ArenaState, used: nat, size: nat)
    requires Valid(s) && s.blocks == [Block(0, 65536, used)] && s.current == 0 && s.config.alignment == 8
    requires used % 8 == 0 && 0 < size && used + size <= 65536
    ensures var a := Alloc(s, size, OK);
      a.result == Addr(0, used) && a.state.blocks == [Block(0, 65536, used + size)] && a.state.current == 0
      && a.state.totalUsed == s.totalUsed + size && a.state.totalAllocated == s.totalAllocated
      && a.state.config == s.config
  {
    EightIsPowerOfTwo();
    AlignForwardAligned(used, 8);
    AllocFastPath(s, size, 8, OK);
  }

  /** Padding a cursor of 20 to 8 bytes gives 24. */
  lemma Pad20()
    ensures IsPowerOfTwo(8) && AlignForward(20, 8) == 24
  {
    EightIsPowerOfTwo();
    AlignForwardIs(20, 8, 24);
  }

  /** Padding a cursor of 900 to 8 bytes gives 904. */
  lemma Pad900()
    ensures IsPowerOfTwo(8) && AlignForward(900, 8) == 904
  {
    EightIsPowerOfTwo();
    AlignForwardIs(900, 8, 904);
  }

  /** A 2000-byte request on 1 KiB blocks gets a 4096-byte block. */
  lemma Page2000()
    ensures IsPowerOfTwo(PAGE_SIZE) && AlignForward(2000, PAGE_SIZE) == 4096
  {
    PageIsPowerOfTwo();
    AlignForwardIs(2000, PAGE_SIZE, 4096);
  }

  /** A 5000-byte request on 1 KiB blocks gets an 8192-byte block. */
  lemma Page5000()
    ensures IsPowerOfTwo(PAGE_SIZE) && AlignForward(5000, PAGE_SIZE) == 8192
  {
    PageIsPowerOfTwo();
    AlignForwardIs(5000, PAGE_SIZE, 8192);
  }

  /** The 1 KiB arenas start with one empty block. */
  lemma SmallArenas()
    ensures Create(SMALL, true, OK).Some? && Create(SMALL_FIXED, true, OK).Some?
    ensures var s := Create(SMALL, true, OK).value;
      s.blocks == [Block(0, 1024, 0)] && s.current == 0 && s.totalUsed == 0
      && s.config.alignment == 8 && !s.config.fixedSize && s.config.blockSize == 1024
    ensures var s := Create(SMALL_FIXED, true, OK).value;
      s.blocks == [Block(0, 1024, 0)] && s.current == 0 && s.totalUsed == 0
      && s.config.alignment == 8 && s.config.fixedSize
  {
    EightIsPowerOfTwo();
  }

  /** A 1 KiB growable arena as created, with no error recorded. */
  ghost predicate OnSmall(s: ArenaState)
  {
    Valid(s) && s.config == InstallDefaults(SMALL) && s.lastErr == NoError
  }

  /**
    The first request on an arena with 8-byte alignment and one empty block
    lands at the start of that block; only the block's cursor and
    `total_used` change.
  */
  lemma FirstRequest(s: ArenaState, n: nat)
    requires Valid(s) && s.config.alignment == 8 && |s.blocks| == 1 && s.current == 0
    requires s.blocks[0].used == 0 && s.totalUsed == 0 && 0 < n <= s.blocks[0].size
    ensures var r := Alloc(s, n, OK);
      r.result == Addr(s.blocks[0].id, 0)
      && r.state.blocks == [s.blocks[0].(used := n)] && r.state.current == 0 && r.state.totalUsed == n
      && r.state.totalAllocated == s.totalAllocated && r.state.config == s.config
      && r.state.lastErr == s.lastErr
  {
    EightIsPowerOfTwo();
    AlignForwardZero(8);
    AllocFastPath(s, n, 8, OK);
  }

  /** 200 bytes do not fit after 900 (padded to 904), so a second 1 KiB block is added. */
  lemma SmallSecondBlock(s: ArenaState)
    requires OnSmall(s) && s.blocks == [Block(0, 1024, 900)] && s.current == 0 && s.totalUsed == 900
    ensures var r := Alloc(s, 200, OK);
      r.result == Addr(1, 0)
      && r.state.blocks == [Block(0, 1024, 900), Block(1, 1024, 200)]
      && r.state.current == 1 && r.state.totalAllocated == 2048 && r.state.totalUsed == 1100
  {
    Pad900();
    AllocGrowsAtEnd(s, 200, 8, OK);
    NewBlockShape(s, 200, OK);
    assert s.blocks[..1] == s.blocks && s.blocks[1..] == [];
    assert SumSizes(s.blocks) == 1024 + SumSizes([]);
    assert BlockSize(1024, 200) == 1024;
  }

  /** A request that does not fit the first block gets a second block of the configured size. */
  lemma SecondBlock()
    ensures Create(SMALL, true, OK).Some?
    ensures var s := Create(SMALL, true, OK).value;
      var a := Alloc(s, 900, OK);
      var b := Alloc(a.state, 200, OK);
      a.result == Addr(0, 0) && b.result == Addr(1, 0)
      && b.state.blocks == [Block(0, 1024, 900), Block(1, 1024, 200)]
      && b.state.current == 1 && b.state.totalAllocated == 2048 && b.state.totalUsed == 1100
  {
    SmallArenas();
    var s := Create(SMALL, true, OK).value;
    FirstRequest(s, 900);
    SmallSecondBlock(Alloc(s, 900, OK).state);
  }

  /** A request larger than a block gets a block rounded up to 4096 bytes. */
  lemma OversizedBlock()
    ensures Create(SMALL, true, OK).Some?
    ensures var s := Create(SMALL, true, OK).value;
      var a := Alloc(s, 5000, OK);
      a.result == Addr(1, 0)
      && a.state.blocks == [Block(0, 1024, 0), Block(1, 8192, 5000)]
      && a.state.totalAllocated == 9216
  {
    EightIsPowerOfTwo();
    AlignForwardZero(8);
    Page5000();
    SmallArenas();
    var s := Create(SMALL, true, OK).value;
    AllocGrowsAtEnd(s, 5000, 8, OK);
    var a := Alloc(s, 5000, OK);
    assert a.state.blocks == s.blocks[..1] + [Block(1, 8192, 5000)] + s.blocks[1..];
  }

  /** A fixed-size arena refuses what its only block cannot hold, and keeps everything else. */
  lemma FixedArenaRefuses()
    ensures Create(SMALL_FIXED, true, OK).Some?
    ensures var s := Create(SMALL_FIXED, true, OK).value;
      var a := Alloc(s, 900, OK);
      var b := Alloc(a.state, 200, OK);
      b.result == Null && b.state == a.state.(lastErr := OutOfMemory)
      && b.state.totalAllocated == 1024
  {
    EightIsPowerOfTwo();
    AlignForwardZero(8);
    Pad900();
    SmallArenas();
    var s := Create(SMALL_FIXED, true, OK).value;
    AllocFastPath(s, 900, 8, OK);
    var a := Alloc(s, 900, OK);
    assert a.state.blocks == [Block(0, 1024, 900)] && a.state.current == 0;
    AllocFixedRefuses(a.state, 200, 8, OK);
  }

  /** After 20 bytes on a default arena, the next request starts at offset 24. */
  lemma DefaultAfterTwenty(s: ArenaState, n: nat)
    requires Valid(s) && s.config.alignment == 8 && s.blocks == [Block(0, 65536, 20)]
    requires s.current == 0 && s.totalUsed == 20 && 0 < n <= 65536 - 24
    ensures var r := Alloc(s, n, OK);
      r.result == Addr(0, 24)
      && r.state == s.(blocks := [Block(0, 65536, 24 + n)], totalUsed := 24 + n)
  {
    Pad20();
    AllocFastPath(s, n, 8, OK);
  }

  /** A scope opened after 20 bytes: 40 bytes at offset 24, and the rewind gives back the arena as it was. */
  lemma DefaultScope(a: ArenaState)
    requires Valid(a) && a.config.alignment == 8 && a.blocks == [Block(0, 65536, 20)]
    requires a.current == 0 && a.totalUsed == 20
    ensures var t := TempBegin(0, a);
      var b := Alloc(a, 40, OK);
      b.result == Addr(0, 24) && Restorable(b.state, t) && TempEnd(b.state, t) == a
  {
    DefaultAfterTwenty(a, 40);
    var b := Alloc(a, 40, OK);
    assert Find(b.state.blocks, 0) == 0;
    var e := TempEnd(b.state, TempBegin(0, a));
    assert e.blocks == [Block(0, 65536, 20)];
  }

  /** The usage example's first request: five `int`s at the start of the default block. */
  lemma UsageFirstRequest()
    ensures Create(DEFAULT_CONFIG, true, OK).Some?
    ensures var s := Create(DEFAULT_CONFIG, true, OK).value;
      var a := Alloc(s, 20, OK);
      a.result == Addr(0, 0) && a.state.blocks == [Block(0, 65536, 20)]
      && a.state.current == 0 && a.state.totalUsed == 20 && a.state.config.alignment == 8
  {
    DefaultsAreSound();
    var s := Create(DEFAULT_CONFIG, true, OK).value;
    assert s.blocks == [Block(0, 65536, 0)] && s.config.alignment == 8;
    FirstRequest(s, 20);
  }

  /**
    The usage example's temporary scope: after five `int`s, ten more inside
    the scope land at offset 24, and ending the scope gives back the arena
    exactly as it was before them.
  */
  lemma UsageExampleScope()
    ensures Create(DEFAULT_CONFIG, true, OK).Some?
    ensures var s := Create(DEFAULT_CONFIG, true, OK).value;
      var a := Alloc(s, 20, OK);
      var t := TempBegin(0, a.state);
      var b := Alloc(a.state, 40, OK);
      b.result == Addr(0, 24) && Restorable(b.state, t) && TempEnd(b.state, t) == a.state
  {
    UsageFirstRequest();
    DefaultScope(Alloc(Create(DEFAULT_CONFIG, true, OK).value, 20, OK).state);
  }

  /**
    Since the scope's end restores the arena, the three `int`s requested
    after it land where the scope's ten were, and `total_used` counts only
    the five and the three (with the padding between them).
  */
  lemma UsageExampleAfterScope()
    ensures Create(DEFAULT_CONFIG, true, OK).Some?
    ensures var s := Create(DEFAULT_CONFIG, true, OK).value;
      var a := Alloc(s, 20, OK);
      var d := Alloc(a.state, 12, OK);
      d.result == Addr(0, 24) && d.state.totalUsed == 36
  {
    UsageFirstRequest();
    DefaultAfterTwenty(Alloc(Create(DEFAULT_CONFIG, true, OK).value, 20, OK).state, 12);
  }

  /** 2000 bytes do not fit a 1 KiB block, so they get a block of 4096 bytes after it. */
  lemma SmallOversizedRequest(s: ArenaState)
    requires OnSmall(s) && s.blocks == [Block(0, 1024, 16)] && s.current == 0 && s.totalUsed == 16
    ensures var r := Alloc(s, 2000, OK);
      r.result == Addr(1, 0) && OnSmall(r.state)
      && r.state.blocks == [Block(0, 1024, 16), Block(1, 4096, 2000)]
      && r.state.current == 1 && r.state.totalUsed == 2016
  {
    EightIsPowerOfTwo();
    AlignForwardAligned(16, 8);
    Page2000();
    AllocGrowsAtEnd(s, 2000, 8, OK);
    NewBlockShape(s, 2000, OK);
    assert s.blocks[..1] == s.blocks && s.blocks[1..] == [];
    assert BlockSize(1024, 2000) == 4096;
  }

  /** Both runs below reach this arena: 16 bytes in the first block, then a scope of 2000 bytes. */
  lemma ScopeOnSmallArena()
    ensures Create(SMALL, true, OK).Some?
    ensures var s := Create(SMALL, true, OK).value;
      var a := Alloc(s, 16, OK);
      var b := Alloc(a.state, 2000, OK);
      a.state.blocks == [Block(0, 1024, 16)] && a.state.current == 0 && a.state.totalUsed == 16
      && b.result == Addr(1, 0) && b.state.current == 1 && b.state.totalUsed == 2016
      && b.state.blocks == [Block(0, 1024, 16), Block(1, 4096, 2000)] && OnSmall(b.state)
  {
    SmallArenas();
    var s := Create(SMALL, true, OK).value;
    FirstRequest(s, 16);
    SmallOversizedRequest(Alloc(s, 16, OK).state);
  }

  /** After the rewind as written, 2000 bytes no longer fit the first block and go after the old 2000. */
  lemma RewoundRequest(e: ArenaState)
    requires OnSmall(e) && e.blocks == [Block(0, 1024, 16), Block(1, 4096, 2000)]
    requires e.current == 0 && e.totalUsed == 16
    ensures var r := Alloc(e, 2000, OK);
      r.result == Addr(1, 2000)
      && r.state.blocks == [Block(0, 1024, 16), Block(1, 4096, 4000)]
      && r.state.current == 1 && r.state.totalUsed == 2016
      && SumUsed(r.state.blocks[..r.state.current + 1]) == 4016 && !Accounting(r.state)
  {
    SecondBlockServes(e, 2000);
    TwoBlocksUsed(Block(0, 1024, 16), Block(1, 4096, 4000));
  }

  /**
    On the 1 KiB arena holding 16 bytes, with a 4 KiB second block whose
    cursor is a multiple of 8 and leaves room, 2000 bytes go to that block
    at its cursor.
  */
  lemma SecondBlockServes(e: ArenaState, used: nat)
    requires OnSmall(e) && e.blocks == [Block(0, 1024, 16), Block(1, 4096, used)]
    requires e.current == 0 && e.totalUsed == 16 && used % 8 == 0 && used + 2000 <= 4096
    ensures var r := Alloc(e, 2000, OK);
      r.result == Addr(1, used)
      && r.state.blocks == [Block(0, 1024, 16), Block(1, 4096, used + 2000)]
      && r.state.current == 1 && r.state.totalUsed == 2016
  {
    EightIsPowerOfTwo();
    AlignForwardAligned(16, 8);
    AlignForwardAligned(used, 8);
    AllocMovesToNext(e, 2000, 8, OK);
  }

  /** What a two-block chain has handed out. */
  lemma TwoBlocksUsed(a: Block, b: Block)
    ensures SumUsed([a, b][..2]) == a.used + b.used
  {
    assert [a, b][..2] == [a, b] && [a, b][1..] == [b] && [b][1..] == [];
    assert SumUsed([b]) == b.used + SumUsed([]);
  }

  /**
    The rewind as written, on 1 KiB blocks: 16 bytes, a checkpoint, 2000
    bytes (a new 4 KiB block), the rewind, and 2000 bytes again. The new
    block still holds the scope's 2000 bytes, so the last request lands at
    offset 2000 instead of 0, and `total_used` no longer matches the blocks.
  */
  lemma RewindLeavesLaterBlockFull()
    ensures Create(SMALL, true, OK).Some?
    ensures var s := Create(SMALL, true, OK).value;
      var a := Alloc(s, 16, OK);
      var t := TempBegin(0, a.state);
      var b := Alloc(a.state, 2000, OK);
      Restorable(b.state, t)
      && var e := TempEnd(b.state, t);
      Valid(e)
      && var d := Alloc(e, 2000, OK);
      e.blocks == [Block(0, 1024, 16), Block(1, 4096, 2000)] && e.current == 0
      && !LaterBlocksEmpty(e)
      && d.result == Addr(1, 2000)
      && d.state.totalUsed == 2016 && SumUsed(d.state.blocks[..d.state.current + 1]) == 4016
      && !Accounting(d.state)
  {
    ScopeOnSmallArena();
    var s := Create(SMALL, true, OK).value;
    var a := Alloc(s, 16, OK);
    var b := Alloc(a.state, 2000, OK);
    RewindScope(b.state, TempBegin(0, a.state));
    RewoundRequest(TempEnd(b.state, TempBegin(0, a.state)));
  }

  /** The rewind as written of the 2000-byte scope makes the first block current and leaves the 4 KiB block full. */
  lemma RewindScope(b: ArenaState, t: Checkpoint<int>)
    requires OnSmall(b) && b.blocks == [Block(0, 1024, 16), Block(1, 4096, 2000)]
    requires b.current == 1 && b.totalUsed == 2016
    requires t.block == Some(0) && t.used == 16 && t.totalUsed == 16
    ensures Restorable(b, t)
    ensures var e := TempEnd(b, t);
      OnSmall(e) && e.blocks == b.blocks && e.current == 0 && e.totalUsed == 16
  {
    assert Find(b.blocks, 0) == 0;
    var e := TempEnd(b, t);
    assert e.blocks == b.blocks;
    SetUsedKeepsValid(b, e, 0, 16);
  }

  /** The resetting rewind of the 2000-byte scope empties the 4 KiB block and makes the first block current. */
  lemma ResetScope(b: ArenaState, t: Checkpoint<int>)
    requires OnSmall(b) && b.blocks == [Block(0, 1024, 16), Block(1, 4096, 2000)]
    requires b.current == 1 && b.totalUsed == 2016
    requires t.block == Some(0) && t.used == 16 && t.totalUsed == 16
    ensures Restorable(b, t)
    ensures var e := TempEndResetting(b, t);
      OnSmall(e) && e.blocks == [Block(0, 1024, 16), Block(1, 4096, 0)] && e.current == 0 && e.totalUsed == 16
  {
    assert Find(b.blocks, 0) == 0;
    var e := TempEndResetting(b, t);
    assert e.blocks == [Block(0, 1024, 16), Block(1, 4096, 0)];
    SameShapeKeepsChained(b, e);
  }

  /** After the resetting rewind, 2000 bytes start the emptied 4 KiB block afresh. */
  lemma ResetRequest(e: ArenaState)
    requires OnSmall(e) && e.blocks == [Block(0, 1024, 16), Block(1, 4096, 0)]
    requires e.current == 0 && e.totalUsed == 16
    ensures var r := Alloc(e, 2000, OK);
      r.result == Addr(1, 0)
      && r.state.blocks == [Block(0, 1024, 16), Block(1, 4096, 2000)]
      && r.state.totalUsed == 2016 && Accounting(r.state)
  {
    SecondBlockServes(e, 0);
    TwoBlocksUsed(Block(0, 1024, 16), Block(1, 4096, 2000));
  }

  /** The same run with the rewind that empties later blocks: the last request starts the new block afresh. */
  lemma ResettingRewindReusesLaterBlock()
    ensures Create(SMALL, true, OK).Some?
    ensures var s := Create(SMALL, true, OK).value;
      var a := Alloc(s, 16, OK);
      var t := TempBegin(0, a.state);
      var b := Alloc(a.state, 2000, OK);
      Restorable(b.state, t)
      && var e := TempEndResetting(b.state, t);
      Valid(e)
      && var d := Alloc(e, 2000, OK);
      e.blocks == [Block(0, 1024, 16), Block(1, 4096, 0)]
      && d.result == Addr(1, 0) && d.state.totalUsed == 2016 && Accounting(d.state)
  {
    ScopeOnSmallArena();
    var s := Create(SMALL, true, OK).value;
    var a := Alloc(s, 16, OK);
    var b := Alloc(a.state, 2000, OK);
    ResetScope(b.state, TempBegin(0, a.state));
    ResetRequest(TempEndResetting(b.state, TempBegin(0, a.state)));
  }
}
