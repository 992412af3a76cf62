/**
  What the two allocator revisions share: the shape invariant of a block
  chain, the two counters' meaning, configuration validation, acquiring a
  block from the configured allocator, clearing, temporary checkpoints,
  error reporting and the read-only accessors. `sp_arena.c` and `spar.c`
  implement each of these with the same code.
*/
module ArenaCommon {
  import opened Alignment
  import opened ArenaTypes

  // ---------------------------------------------------------------------
  // Configuration

  /** The three checks `sp_arena_create_with_config` makes before building anything. */
  predicate ValidConfig(c: Config)
  {
    IsPowerOfTwo(c.alignment)
    && c.blockSize != 0
    && (c.allocator.Some? <==> c.deallocator.Some?)
  }

  /** A configuration naming no routines gets the C library's malloc and free. */
  function InstallDefaults(c: Config): (r: Config)
    ensures r.blockSize == c.blockSize && r.alignment == c.alignment && r.fixedSize == c.fixedSize
    ensures c.allocator.Some? ==> r.allocator == c.allocator && r.deallocator == c.deallocator
    ensures c.allocator.None? ==> r.allocator == Some(Malloc) && r.deallocator == Some(Free)
  {
    if c.allocator.None? then c.(allocator := Some(Malloc), deallocator := Some(Free)) else c
  }

  /** A valid configuration stays valid, and always names both routines, once defaults are installed. */
  lemma InstallDefaultsKeepsValid(c: Config)
    requires ValidConfig(c)
    ensures ValidConfig(InstallDefaults(c))
    ensures InstallDefaults(c).allocator.Some? && InstallDefaults(c).deallocator.Some?
  {
  }

  // ---------------------------------------------------------------------
  // Counters

  function SumSizes(bs: seq<Block>): nat
  {
    if bs == [] then 0 else bs[0].size + SumSizes(bs[1..])
  }

  function SumUsed(bs: seq<Block>): nat
  {
    if bs == [] then 0 else bs[0].used + SumUsed(bs[1..])
  }

  lemma {:induction false} SumSizesConcat(a: seq<Block>, b: seq<Block>)
    ensures SumSizes(a + b) == SumSizes(a) + SumSizes(b)
  {
    if a == [] {
      assert a + b == b;
    } else {
      assert (a + b)[0] == a[0] && (a + b)[1..] == a[1..] + b;
      SumSizesConcat(a[1..], b);
    }
  }

  lemma {:induction false} SumUsedConcat(a: seq<Block>, b: seq<Block>)
    ensures SumUsed(a + b) == SumUsed(a) + SumUsed(b)
  {
    if a == [] {
      assert a + b == b;
    } else {
      assert (a + b)[0] == a[0] && (a + b)[1..] == a[1..] + b;
      SumUsedConcat(a[1..], b);
    }
  }

  /** Two chains of the same blocks, possibly with different `used` values. */
  predicate SameShape(a: seq<Block>, b: seq<Block>)
  {
    |a| == |b| && forall i :: 0 <= i < |a| ==> a[i].id == b[i].id && a[i].size == b[i].size
  }

  /** Changing only `used` values leaves `total_allocated`'s sum untouched. */
  lemma {:induction false} SameShapeSameSizes(a: seq<Block>, b: seq<Block>)
    requires SameShape(a, b)
    ensures SumSizes(a) == SumSizes(b)
  {
    if a != [] {
      assert SameShape(a[1..], b[1..]) by {
        forall i | 0 <= i < |a[1..]| ensures a[1..][i].id == b[1..][i].id && a[1..][i].size == b[1..][i].size {
          assert a[1..][i] == a[i + 1] && b[1..][i] == b[i + 1];
        }
      }
      SameShapeSameSizes(a[1..], b[1..]);
    }
  }

  /** Setting one block's `used` shifts the sum by the difference. */
  lemma {:induction false} SumUsedUpdate(bs: seq<Block>, k: nat, v: nat)
    requires k < |bs|
    ensures SumUsed(bs[k := bs[k].(used := v)]) + bs[k].used == SumUsed(bs) + v
  {
    if k > 0 {
      assert bs[k := bs[k].(used := v)][1..] == bs[1..][k - 1 := bs[k].(used := v)];
      SumUsedUpdate(bs[1..], k - 1, v);
    }
  }

  /** A chain whose blocks are all empty uses nothing. */
  lemma {:induction false} SumUsedEmpty(bs: seq<Block>)
    requires forall i :: 0 <= i < |bs| ==> bs[i].used == 0
    ensures SumUsed(bs) == 0
  {
    if bs != [] {
      SumUsedEmpty(bs[1..]);
    }
  }

  /** Empty blocks between the current one and position `j` add nothing to the sum. */
  lemma SumUsedSkipsEmpty(bs: seq<Block>, c: nat, j: nat)
    requires c < j <= |bs|
    requires forall k :: c < k < j ==> bs[k].used == 0
    ensures SumUsed(bs[..j]) == SumUsed(bs[..c + 1])
  {
    assert bs[..j] == bs[..c + 1] + bs[c + 1..j];
    SumUsedConcat(bs[..c + 1], bs[c + 1..j]);
    SumUsedEmpty(bs[c + 1..j]);
  }

  /** One block's `used` never exceeds the sum it is part of. */
  lemma SumUsedCovers(bs: seq<Block>, k: nat)
    requires k < |bs|
    ensures bs[k].used <= SumUsed(bs)
  {
    SumUsedUpdate(bs, k, 0);
  }

  /** Changing the `used` of block `k` at or before the current one moves `total_used`'s sum by as much. */
  lemma PrefixUpdate(bs: seq<Block>, c: nat, k: nat, v: nat)
    requires k <= c < |bs|
    ensures SumUsed(bs[k := bs[k].(used := v)][..c + 1]) + bs[k].used == SumUsed(bs[..c + 1]) + v
  {
    assert bs[k := bs[k].(used := v)][..c + 1] == bs[..c + 1][k := bs[k].(used := v)];
    SumUsedUpdate(bs[..c + 1], k, v);
  }

  /**
    Giving `n` bytes back to a block at or before the current one, and to
    `total_used`, keeps `total_used` exact when the block had handed out
    at least `n`.
  */
  lemma GiveBackKeepsAccounting(s: ArenaState, k: nat, n: nat)
    requires Accounting(s) && k <= s.current && n <= s.blocks[k].used
    ensures Accounting(s.(blocks := s.blocks[k := s.blocks[k].(used := SizeSub(s.blocks[k].used, n))],
                          totalUsed := SizeSub(s.totalUsed, n)))
  {
    var c := s.current;
    SumUsedCovers(s.blocks[..c + 1], k);
    assert s.blocks[..c + 1][k] == s.blocks[k];
    PrefixUpdate(s.blocks, c, k, s.blocks[k].used - n);
  }

  // ---------------------------------------------------------------------
  // The chain

  /** Block ids are 0 .. |bs|-1, each once: the next fresh id is `|bs|`. */
  predicate IdsFresh(bs: seq<Block>)
  {
    (forall i :: 0 <= i < |bs| ==> bs[i].id < |bs|)
    && (forall i, j :: 0 <= i < j < |bs| ==> bs[i].id != bs[j].id)
  }

  /**
    A well-formed arena: a non-empty chain, `current` on it, distinct block
    regions, `total_allocated` equal to the sum of block sizes, and a
    configuration that passed validation and names its routines.
  */
  ghost predicate Chained(s: ArenaState)
  {
    |s.blocks| >= 1
    && s.current < |s.blocks|
    && IdsFresh(s.blocks)
    && s.totalAllocated == SumSizes(s.blocks)
    && ValidConfig(s.config)
    && s.config.allocator.Some?
  }

  /** No block has handed out more than it holds. */
  ghost predicate Bounded(bs: seq<Block>)
  {
    forall i :: 0 <= i < |bs| ==> bs[i].used <= bs[i].size
  }

  /** `total_used` is the sum of `used` over the blocks up to and including the current one. */
  ghost predicate Accounting(s: ArenaState)
  {
    s.current < |s.blocks| && s.totalUsed == SumUsed(s.blocks[..s.current + 1])
  }

  /** Every block after the current one is empty, ready for reuse. */
  ghost predicate LaterBlocksEmpty(s: ArenaState)
  {
    forall i :: s.current < i < |s.blocks| ==> s.blocks[i].used == 0
  }

  /** Rewriting `used` values and moving `current` within the chain keeps it well-formed. */
  lemma SameShapeKeepsChained(s: ArenaState, t: ArenaState)
    requires Chained(s)
    requires SameShape(s.blocks, t.blocks) && t.current < |t.blocks|
    requires t.totalAllocated == s.totalAllocated && t.config == s.config
    ensures Chained(t)
  {
    SameShapeSameSizes(s.blocks, t.blocks);
    assert IdsFresh(t.blocks) by {
      forall i | 0 <= i < |t.blocks| ensures t.blocks[i].id == s.blocks[i].id {
      }
    }
  }

  /** Inserting a block with the fresh id keeps the ids distinct and adds its size. */
  lemma InsertFresh(bs: seq<Block>, k: nat, b: Block)
    requires IdsFresh(bs) && k <= |bs| && b.id == |bs|
    ensures IdsFresh(bs[..k] + [b] + bs[k..])
    ensures SumSizes(bs[..k] + [b] + bs[k..]) == SumSizes(bs) + b.size
  {
    InsertFreshIds(bs, k, b);
    SumSizesConcat(bs[..k] + [b], bs[k..]);
    SumSizesConcat(bs[..k], [b]);
    SumSizesConcat(bs[..k], bs[k..]);
    assert bs[..k] + bs[k..] == bs;
  }

  lemma InsertFreshIds(bs: seq<Block>, k: nat, b: Block)
    requires IdsFresh(bs) && k <= |bs| && b.id == |bs|
    ensures IdsFresh(bs[..k] + [b] + bs[k..])
  {
    var r := bs[..k] + [b] + bs[k..];
    assert forall i :: 0 <= i < |r| ==> r[i] == if i < k then bs[i] else if i == k then b else bs[i - 1];
    forall i, j | 0 <= i < j < |r| ensures r[i].id != r[j].id {
      var i', j' := if i < k then i else i - 1, if j < k then j else j - 1;
      if i != k && j != k {
        assert r[i] == bs[i'] && r[j] == bs[j'] && i' < j';
      }
    }
  }

  /**
    The position of the first block with region `id`, or `|bs|` when no
    block has it: how a pointer to a block becomes a place in the chain.
  */
  function Find(bs: seq<Block>, id: nat): (k: nat)
    ensures k <= |bs|
    ensures k < |bs| ==> bs[k].id == id
    ensures forall j :: 0 <= j < k ==> bs[j].id != id
  {
    if bs == [] then 0 else if bs[0].id == id then 0 else 1 + Find(bs[1..], id)
  }

  /** With distinct ids, looking a block up finds that very block. */
  lemma FindDistinct(bs: seq<Block>, k: nat)
    requires IdsFresh(bs) && k < |bs|
    ensures Find(bs, bs[k].id) == k
  {
  }

  // ---------------------------------------------------------------------
  // Acquiring a block

  /** A freshly acquired block, and the arena's counters after acquiring it. */
  datatype Acquired = Acquired(state: ArenaState, block: Option<Block>)

  /**
    `sp_arena_create_block` once the block size is chosen: ask for the
    region, then for the control node (giving the region back if that
    fails). Either failure records `OutOfMemory`; success adds the size to
    `total_allocated` and yields an empty block with a fresh region.
  */
  function Acquire(s: ArenaState, size: nat, mem: MemoryOracle): (r: Acquired)
    ensures r.block.None? <==> !mem.regionOk || !mem.nodeOk
    ensures r.block.None? ==> r.state == s.(lastErr := OutOfMemory)
    ensures r.block.Some? ==>
      r.block.value == Block(|s.blocks|, size, 0)
      && r.state == s.(totalAllocated := s.totalAllocated + size)
  {
    if !mem.regionOk || !mem.nodeOk then Acquired(s.(lastErr := OutOfMemory), None)
    else Acquired(s.(totalAllocated := s.totalAllocated + size), Some(Block(|s.blocks|, size, 0)))
  }

  /** The block can take `size` more bytes after padding its cursor to `align`. */
  predicate Fits(b: Block, size: nat, align: nat)
    requires IsPowerOfTwo(align)
  {
    AlignForward(b.used, align) + size <= b.size
  }

  /**
    Acquire a block of `blockSize` bytes, link it right after the current
    block, make it current and hand out its first `size` bytes; on failure
    only the error is recorded. Both revisions grow the chain this way.
  */
  function Grow(s: ArenaState, blockSize: nat, size: nat, mem: MemoryOracle): (r: Step)
    requires Chained(s)
    ensures Chained(r.state) && KeepsPrefix(s, r.state)
    ensures r.result.Null? <==> !mem.regionOk || !mem.nodeOk
    ensures r.result.Null? ==> r.state == s.(lastErr := OutOfMemory)
    ensures r.result.Addr? ==>
      var c := s.current;
      r.result == Addr(|s.blocks|, 0)
      && r.state.current == c + 1
      && r.state.blocks == s.blocks[..c + 1] + [Block(|s.blocks|, blockSize, size)] + s.blocks[c + 1..]
      && r.state.totalAllocated == s.totalAllocated + blockSize
      && r.state.totalUsed == s.totalUsed + size
      && r.state.lastErr == s.lastErr
  {
    var a := Acquire(s, blockSize, mem);
    if a.block.None? then Step(a.state, Null)
    else
      var c := s.current;
      var nb := a.block.value.(used := size);
      InsertFresh(s.blocks, c + 1, nb);
      var bs := s.blocks[..c + 1] + [nb] + s.blocks[c + 1..];
      assert bs[..c + 1] == s.blocks[..c + 1];
      Step(a.state.(blocks := bs, current := c + 1, totalUsed := s.totalUsed + size), Addr(nb.id, 0))
  }

  /**
    Growing keeps `total_used` exact, and keeps the blocks after the
    current one empty when they were.
  */
  lemma GrowKeepsConsistent(s: ArenaState, blockSize: nat, size: nat, mem: MemoryOracle)
    requires Chained(s) && Accounting(s)
    ensures var r := Grow(s, blockSize, size, mem);
      Accounting(r.state) && (LaterBlocksEmpty(s) ==> LaterBlocksEmpty(r.state))
  {
    InsertAfter(s.blocks, s.current, Block(|s.blocks|, blockSize, size));
  }

  /**
    A block inserted right after position `c` adds its `used` to the sum up
    to it, and the blocks after it are the old later blocks.
  */
  lemma InsertAfter(bs: seq<Block>, c: nat, b: Block)
    requires c < |bs|
    ensures var t := bs[..c + 1] + [b] + bs[c + 1..];
      SumUsed(t[..c + 2]) == SumUsed(bs[..c + 1]) + b.used
      && forall k :: c + 1 < k < |t| ==> t[k] == bs[k - 1]
  {
    var t := bs[..c + 1] + [b] + bs[c + 1..];
    assert t[..c + 2] == bs[..c + 1] + [b];
    SumUsedConcat(bs[..c + 1], [b]);
    assert [b][1..] == [];
  }

  /**
    `s1` keeps every block of `s0` up to and including its current one, and
    its current block is no earlier.
  */
  ghost predicate KeepsPrefix(s0: ArenaState, s1: ArenaState)
  {
    s0.current < |s0.blocks| && s0.current <= s1.current < |s1.blocks|
    && |s0.blocks| <= |s1.blocks|
    && s1.blocks[..s0.current + 1] == s0.blocks[..s0.current + 1]
    && s1.config == s0.config
  }

  lemma KeepsPrefixTransitive(s0: ArenaState, s1: ArenaState, s2: ArenaState)
    requires KeepsPrefix(s0, s1) && KeepsPrefix(s1, s2)
    ensures KeepsPrefix(s0, s2)
  {
    assert s2.blocks[..s0.current + 1] == s2.blocks[..s1.current + 1][..s0.current + 1];
    assert s1.blocks[..s0.current + 1] == s1.blocks[..s1.current + 1][..s0.current + 1];
  }

  lemma KeepsPrefixExtends(s0: ArenaState, s1: ArenaState)
    requires KeepsPrefix(s0, s1)
    ensures Extends(s0, s1)
  {
    assert s1.blocks[..s0.current] == s1.blocks[..s0.current + 1][..s0.current];
    assert s0.blocks[..s0.current] == s0.blocks[..s0.current + 1][..s0.current];
    assert s1.blocks[s0.current] == s1.blocks[..s0.current + 1][s0.current];
  }

  /** One allocation request: size, alignment and what the allocator will answer. */
  datatype Request = Request(size: nat, align: nat, mem: MemoryOracle)

  // ---------------------------------------------------------------------
  // Clearing

  function ZeroUsed(bs: seq<Block>): seq<Block>
  {
    seq(|bs|, i requires 0 <= i < |bs| => bs[i].(used := 0))
  }

  /** `sp_arena_clear`: every block emptied, the first block current, `total_used` zero. */
  function Clear(s: ArenaState): ArenaState
  {
    s.(blocks := ZeroUsed(s.blocks), current := 0, totalUsed := 0)
  }

  /** Clearing keeps every block and establishes both counter invariants. */
  lemma ClearKeepsBlocks(s: ArenaState)
    requires Chained(s)
    ensures var r := Clear(s);
      Chained(r) && Bounded(r.blocks) && Accounting(r) && LaterBlocksEmpty(r)
      && SameShape(s.blocks, r.blocks)
      && r.totalAllocated == s.totalAllocated && r.lastErr == s.lastErr
  {
    var r := Clear(s);
    SameShapeKeepsChained(s, r);
    SumUsedEmpty(r.blocks[..1]);
  }

  lemma ClearIdempotent(s: ArenaState)
    ensures Clear(Clear(s)) == Clear(s)
  {
  }

  // ---------------------------------------------------------------------
  // Temporary checkpoints

  /**
    `sp_arena_temp_begin` on an arena that has a current block: remember it,
    its `used` and `total_used`.
  */
  function TempBegin<A>(arena: A, s: ArenaState): (t: Checkpoint<A>)
    requires s.current < |s.blocks|
    ensures t.arena == arena && t.block == Some(s.blocks[s.current].id)
    ensures t.used == s.blocks[s.current].used && t.totalUsed == s.totalUsed
  {
    Checkpoint(arena, Some(s.blocks[s.current].id), s.blocks[s.current].used, s.totalUsed)
  }

  /** The checkpoint's block is still part of the arena. */
  ghost predicate Restorable<A>(s: ArenaState, t: Checkpoint<A>)
  {
    t.block.Some? ==> Find(s.blocks, t.block.value) < |s.blocks|
  }

  /**
    `sp_arena_temp_end` as written: make the checkpoint block current and
    restore its `used` and `total_used`. Blocks after it keep what they hold.
  */
  function TempEnd<A>(s: ArenaState, t: Checkpoint<A>): (r: ArenaState)
    requires Restorable(s, t)
  {
    if t.block.None? then s
    else
      var k := Find(s.blocks, t.block.value);
      s.(current := k, blocks := s.blocks[k := s.blocks[k].(used := t.used)], totalUsed := t.totalUsed)
  }

  /** The checkpoint's `used` fits in its block, so rewinding to it overfills nothing. */
  ghost predicate CheckpointFits<A>(s: ArenaState, t: Checkpoint<A>)
    requires Restorable(s, t)
  {
    t.block.Some? ==> t.used <= s.blocks[Find(s.blocks, t.block.value)].size
  }

  /** Rewinding keeps the chain well formed, and keeps every block within its size when the checkpoint fits. */
  lemma TempEndKeepsChained<A>(s: ArenaState, t: Checkpoint<A>)
    requires Chained(s) && Restorable(s, t)
    ensures Chained(TempEnd(s, t))
    ensures Bounded(s.blocks) && CheckpointFits(s, t) ==> Bounded(TempEnd(s, t).blocks)
  {
    SameShapeKeepsChained(s, TempEnd(s, t));
  }

  /**
    A checkpoint taken on an arena whose blocks are within their sizes stays
    restorable, and fits its block, in every arena moved forward from it.
  */
  lemma TempBeginFits<A>(arena: A, s0: ArenaState, s1: ArenaState)
    requires Chained(s0) && Bounded(s0.blocks) && Chained(s1) && Extends(s0, s1)
    ensures Restorable(s1, TempBegin(arena, s0)) && CheckpointFits(s1, TempBegin(arena, s0))
  {
    FindDistinct(s1.blocks, s0.current);
  }

  /** Ending a checkpoint right after taking it changes nothing. */
  lemma TempRoundTrip<A>(arena: A, s: ArenaState)
    requires Chained(s)
    ensures Restorable(s, TempBegin(arena, s))
    ensures TempEnd(s, TempBegin(arena, s)) == s
  {
    FindDistinct(s.blocks, s.current);
    assert s.blocks[s.current := s.blocks[s.current]] == s.blocks;
  }

  /**
    `s1` was reached from `s0` without touching the blocks before `s0`'s
    current block and with that block still at its place: how allocations
    and resizes move an arena forward.
  */
  ghost predicate Extends(s0: ArenaState, s1: ArenaState)
  {
    s0.current < |s0.blocks| && s0.current <= s1.current < |s1.blocks|
    && s1.blocks[..s0.current] == s0.blocks[..s0.current]
    && s1.blocks[s0.current].id == s0.blocks[s0.current].id
    && s1.blocks[s0.current].size == s0.blocks[s0.current].size
    && s1.config == s0.config
  }

  lemma ExtendsTransitive(s0: ArenaState, s1: ArenaState, s2: ArenaState)
    requires Extends(s0, s1) && Extends(s1, s2)
    ensures Extends(s0, s2)
  {
    assert s2.blocks[..s0.current] == s2.blocks[..s1.current][..s0.current];
    assert s1.blocks[..s0.current] == s1.blocks[..s1.current][..s0.current];
    if s0.current < s1.current {
      assert s2.blocks[s0.current] == s2.blocks[..s1.current][s0.current];
    }
  }

  /**
    A checkpoint taken when the counters were consistent rewinds a forward
    moved arena to the same current block, the same `total_used` and the
    same blocks up to the checkpoint, and the counters are consistent again.
  */
  lemma {:induction false} TempScopeRewinds<A>(arena: A, s0: ArenaState, s1: ArenaState)
    requires Chained(s0) && Accounting(s0)
    requires Chained(s1) && Extends(s0, s1)
    ensures Restorable(s1, TempBegin(arena, s0))
    ensures var r := TempEnd(s1, TempBegin(arena, s0));
      r.current == s0.current && r.totalUsed == s0.totalUsed
      && r.blocks[..r.current + 1] == s0.blocks[..s0.current + 1]
      && Accounting(r) && Chained(r)
  {
    var c := s0.current;
    var t := TempBegin(arena, s0);
    FindDistinct(s1.blocks, c);
    var r := TempEnd(s1, t);
    assert r.blocks[..c + 1] == s0.blocks[..c + 1] by {
      forall i | 0 <= i < c + 1 ensures r.blocks[i] == s0.blocks[i] {
        if i < c {
          assert s1.blocks[i] == s1.blocks[..c][i];
          assert s0.blocks[i] == s0.blocks[..c][i];
        }
      }
    }
    SameShapeKeepsChained(s1, r);
  }

  /**
    `sp_arena_temp_end` as its comment describes it: besides restoring the
    checkpoint block and `total_used`, empty every block after it.
  */
  function TempEndResetting<A>(s: ArenaState, t: Checkpoint<A>): (r: ArenaState)
    requires Restorable(s, t)
  {
    if t.block.None? then s
    else
      var k := Find(s.blocks, t.block.value);
      var bs := seq(|s.blocks|, i requires 0 <= i < |s.blocks| =>
        if i < k then s.blocks[i] else if i == k then s.blocks[i].(used := t.used) else s.blocks[i].(used := 0));
      s.(current := k, blocks := bs, totalUsed := t.totalUsed)
  }

  /**
    The resetting rewind agrees with the one as written on the checkpoint
    block and before it, and also leaves every later block empty.
  */
  lemma TempEndResettingRewinds<A>(arena: A, s0: ArenaState, s1: ArenaState)
    requires Chained(s0) && Accounting(s0)
    requires Chained(s1) && Extends(s0, s1)
    ensures Restorable(s1, TempBegin(arena, s0))
    ensures var r := TempEndResetting(s1, TempBegin(arena, s0));
      r.current == s0.current && r.totalUsed == s0.totalUsed
      && r.blocks[..r.current + 1] == TempEnd(s1, TempBegin(arena, s0)).blocks[..r.current + 1]
      && Chained(r) && Accounting(r) && LaterBlocksEmpty(r)
  {
    var t := TempBegin(arena, s0);
    TempScopeRewinds(arena, s0, s1);
    var r := TempEndResetting(s1, t);
    var w := TempEnd(s1, t);
    assert r.blocks[..r.current + 1] == w.blocks[..r.current + 1];
    SameShapeKeepsChained(s1, r);
  }

  // ---------------------------------------------------------------------
  // Errors and accessors

  /** `sp_arena_error_string`: the message for an error value, "Unknown error" outside the enumeration. */
  function ErrorString(code: int): string
  {
    match FromCode(code)
    case None => "Unknown error"
    case Some(e) =>
      match e
      case NoError => "No error"
      case ArenaNotAllocated => "Failed to allocate arena"
      case OutOfMemory => "Out of Memory"
      case InvalidAlignment => "Invalid Alignment"
      case InvalidSize => "Invalid size"
      case InvalidArena => "Invalid arena"
      case AllocationTooLarge => "Allocation too large"
  }

  /** Every enumerator has its own message, and none of them is the fallback. */
  lemma ErrorStringsDistinct(e1: ArenaError, e2: ArenaError)
    ensures ErrorString(Code(e1)) != "Unknown error"
    ensures e1 != e2 ==> ErrorString(Code(e1)) != ErrorString(Code(e2))
  {
  }

  /** Values outside the enumeration all get the fallback. */
  lemma ErrorStringUnknown(code: int)
    requires code < 0 || code > 6
    ensures ErrorString(code) == "Unknown error"
  {
  }
}
