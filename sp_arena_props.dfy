/**
  What sp_arena.c's allocation engine guarantees: where a request is
  placed, that the counters stay exact, that a failed request only records
  an error, that a new allocation never overlaps live data, how resizing
  behaves, and what a temporary scope restores.
*/
module SpArenaProps {
  import opened Alignment
  import opened ArenaTypes
  import opened ArenaCommon
  import opened SpArenaSpec

  // ---------------------------------------------------------------------
  // Rejections and the fast path

  /** The two requests refused before any block is looked at: a zero size and a bad alignment. */
  lemma AllocRejects(s: ArenaState, size: nat, align: nat, mem: MemoryOracle)
    requires Valid(s)
    ensures size == 0 ==> AllocInternal(s, size, align, mem) == Step(s.(lastErr := InvalidSize), Null)
    ensures size > 0 && !IsPowerOfTwo(align) ==>
      AllocInternal(s, size, align, mem) == Step(s.(lastErr := InvalidAlignment), Null)
  {
  }

  /** A fixed-size arena whose current block cannot take the request refuses it without looking further. */
  lemma AllocFixedRefuses(s: ArenaState, size: nat, align: nat, mem: MemoryOracle)
    requires Valid(s) && s.config.fixedSize
    ensures size > 0 && IsPowerOfTwo(align) && !Fits(s.blocks[s.current], size, align) ==>
      AllocInternal(s, size, align, mem) == Step(s.(lastErr := OutOfMemory), Null)
  {
  }

  /**
    A request that fits the current block is served there, at the least
    aligned offset at or above its cursor, and nothing but that block's
    cursor and `total_used` changes.
  */
  lemma AllocFastPath(s: ArenaState, size: nat, align: nat, mem: MemoryOracle)
    requires Valid(s) && size > 0 && IsPowerOfTwo(align) && Fits(s.blocks[s.current], size, align)
    ensures var r := AllocInternal(s, size, align, mem);
      var b := s.blocks[s.current];
      r.result == Addr(b.id, AlignForward(b.used, align))
      && r.state.current == s.current
      && r.state.blocks == s.blocks[s.current := b.(used := AlignForward(b.used, align) + size)]
      && r.state.totalUsed == s.totalUsed + (AlignForward(b.used, align) + size - b.used)
      && r.state.totalAllocated == s.totalAllocated && r.state.lastErr == s.lastErr
      && r.state.config == s.config
  {
  }

  /**
    A request the current block cannot take, on a growable arena whose
    current block is the last, gets a new block linked after it.
  */
  lemma AllocGrowsAtEnd(s: ArenaState, size: nat, align: nat, mem: MemoryOracle)
    requires Valid(s) && size > 0 && IsPowerOfTwo(align) && !Fits(s.blocks[s.current], size, align)
    requires !s.config.fixedSize && s.current == |s.blocks| - 1
    ensures AllocInternal(s, size, align, mem) == NewBlock(s, size, mem)
  {
  }

  /** A granted new block is linked right after the current one, and both counters grow by what it adds. */
  lemma NewBlockShape(s: ArenaState, size: nat, mem: MemoryOracle)
    requires Valid(s) && mem.regionOk && mem.nodeOk
    ensures var r := NewBlock(s, size, mem);
      var c := s.current;
      var nb := Block(|s.blocks|, BlockSize(s.config.blockSize, size), size);
      r.result == Addr(|s.blocks|, 0)
      && r.state == s.(
        blocks := s.blocks[..c + 1] + [nb] + s.blocks[c + 1..],
        current := c + 1,
        totalAllocated := s.totalAllocated + nb.size,
        totalUsed := s.totalUsed + size)
  {
  }

  /**
    A request the current block cannot take but the next one can is served
    from the next block, which becomes current.
  */
  lemma AllocMovesToNext(s: ArenaState, size: nat, align: nat, mem: MemoryOracle)
    requires Valid(s) && size > 0 && IsPowerOfTwo(align) && !Fits(s.blocks[s.current], size, align)
    requires !s.config.fixedSize && s.current + 1 < |s.blocks| && Fits(s.blocks[s.current + 1], size, align)
    ensures var r := AllocInternal(s, size, align, mem);
      var c := s.current;
      var b := s.blocks[c + 1];
      r.result == Addr(b.id, AlignForward(b.used, align)) && r.state.current == c + 1
      && r.state.blocks == s.blocks[c + 1 := b.(used := AlignForward(b.used, align) + size)]
      && r.state.totalUsed == s.totalUsed + (AlignForward(b.used, align) + size - b.used)
      && r.state.totalAllocated == s.totalAllocated && r.state.lastErr == s.lastErr
      && r.state.config == s.config
  {
    AllocScans(s, size, align, mem);
    ScanLands(s, s.current + 1, size, align, mem);
  }

  // ---------------------------------------------------------------------
  // First fit

  lemma {:induction false} ScanFirstFit(s: ArenaState, i: nat, size: nat, align: nat, mem: MemoryOracle)
    requires Valid(s) && s.current < i <= |s.blocks| && size > 0 && IsPowerOfTwo(align)
    ensures FirstFit(s, i, Scan(s, i, size, align, mem), size, align)
    decreases |s.blocks| - i
  {
    if i == |s.blocks| {
      ScanEnds(s, size, align, mem);
    } else if Fits(s.blocks[i], size, align) {
      ScanLands(s, i, size, align, mem);
      assert s.blocks[i].id < |s.blocks|;
    } else {
      var s' := s.(blocks := s.blocks[i := s.blocks[i].(used := 0)]);
      ScanSkips(s, i, size, align, mem);
      ScanFirstFit(s', i + 1, size, align, mem);
      FirstFitStepBack(s, i, Scan(s', i + 1, size, align, mem), size, align);
    }
  }

  /** A block too full for the request, passed over by the walk, extends the range that had no room. */
  lemma FirstFitStepBack(s: ArenaState, i: nat, r: Step, size: nat, align: nat)
    requires IsPowerOfTwo(align) && i < |s.blocks| && !Fits(s.blocks[i], size, align)
    requires FirstFit(s.(blocks := s.blocks[i := s.blocks[i].(used := 0)]), i + 1, r, size, align)
    ensures FirstFit(s, i, r, size, align)
  {
    var s' := s.(blocks := s.blocks[i := s.blocks[i].(used := 0)]);
    assert forall k :: i < k < |s.blocks| ==> s'.blocks[k] == s.blocks[k];
  }

  /** The three first-fit facts about an allocation that started looking at block `from`. */
  ghost predicate FirstFit(s: ArenaState, from: nat, r: Step, size: nat, align: nat)
    requires IsPowerOfTwo(align)
  {
    (r.result.Addr? && r.result.block != |s.blocks| ==>
      from <= r.state.current < |s.blocks| && Fits(s.blocks[r.state.current], size, align)
      && forall k :: from <= k < r.state.current ==> !Fits(s.blocks[k], size, align))
    && (r.result.Null? || r.result.block == |s.blocks| ==>
      forall k :: from <= k < |s.blocks| ==> !Fits(s.blocks[k], size, align))
  }

  /**
    First fit: a request served from a block the arena already had lands in
    the first block, from the current one on, whose padded cursor leaves
    room; a new block, or failure on a growable arena, means no such block
    existed.
  */
  lemma AllocFirstFit(s: ArenaState, size: nat, align: nat, mem: MemoryOracle)
    requires Valid(s) && size > 0 && IsPowerOfTwo(align)
    ensures var r := AllocInternal(s, size, align, mem);
      (r.result.Addr? && r.result.block != |s.blocks| ==>
        Fits(s.blocks[r.state.current], size, align)
        && forall k :: s.current <= k < r.state.current ==> !Fits(s.blocks[k], size, align))
      && (r.result.Addr? && r.result.block == |s.blocks| ==>
        forall k :: s.current <= k < |s.blocks| ==> !Fits(s.blocks[k], size, align))
      && (r.result.Null? && !s.config.fixedSize ==>
        forall k :: s.current <= k < |s.blocks| ==> !Fits(s.blocks[k], size, align))
  {
    if Fits(s.blocks[s.current], size, align) {
      AllocFirstFitHere(s, size, align, mem);
    } else if !s.config.fixedSize {
      AllocFirstFitLater(s, size, align, mem);
    }
  }

  lemma AllocFirstFitHere(s: ArenaState, size: nat, align: nat, mem: MemoryOracle)
    requires Valid(s) && size > 0 && IsPowerOfTwo(align) && Fits(s.blocks[s.current], size, align)
    ensures FirstFit(s, s.current, AllocInternal(s, size, align, mem), size, align)
  {
    AllocFastPath(s, size, align, mem);
  }

  lemma AllocFirstFitLater(s: ArenaState, size: nat, align: nat, mem: MemoryOracle)
    requires Valid(s) && size > 0 && IsPowerOfTwo(align) && !Fits(s.blocks[s.current], size, align)
    requires !s.config.fixedSize
    ensures FirstFit(s, s.current, AllocInternal(s, size, align, mem), size, align)
  {
    AllocScans(s, size, align, mem);
    ScanFirstFit(s, s.current + 1, size, align, mem);
  }

  /**
    A request the current block cannot take, on a growable arena: the
    blocks after the current one are tried in order and each one passed
    over is emptied; the first with room serves the request, or a new block
    is linked after the current one, or, when that cannot be had, the error
    is recorded and the emptied blocks stay empty.
  */
  lemma AllocEmptiesPassed(s: ArenaState, size: nat, align: nat, mem: MemoryOracle)
    requires Valid(s) && size > 0 && IsPowerOfTwo(align) && !Fits(s.blocks[s.current], size, align)
    requires !s.config.fixedSize
    ensures ScanState(s, s.current + 1, AllocInternal(s, size, align, mem), size)
  {
    AllocScans(s, size, align, mem);
    ScanEmptiesPassed(s, s.current + 1, size, align, mem);
  }

  /** A request the current block cannot take, on a growable arena, is the walk over the later blocks. */
  lemma AllocScans(s: ArenaState, size: nat, align: nat, mem: MemoryOracle)
    requires Valid(s) && size > 0 && IsPowerOfTwo(align) && !Fits(s.blocks[s.current], size, align)
    requires !s.config.fixedSize
    ensures AllocInternal(s, size, align, mem) == Scan(s, s.current + 1, size, align, mem)
  {
  }

  // ---------------------------------------------------------------------
  // Counters stay exact

  lemma {:induction false} ScanKeepsConsistent(s: ArenaState, i: nat, size: nat, align: nat, mem: MemoryOracle)
    requires Valid(s) && Consistent(s) && s.current < i <= |s.blocks| && size > 0 && IsPowerOfTwo(align)
    ensures var r := Scan(s, i, size, align, mem);
      Consistent(r.state) && (r.result.Null? ==> r.state == s.(lastErr := OutOfMemory))
    decreases |s.blocks| - i
  {
    if i == |s.blocks| {
      NewBlockKeepsConsistent(s, size, mem);
    } else if Fits(s.blocks[i], size, align) {
      LandingKeepsConsistent(s, i, size, align, mem);
    } else {
      assert s.blocks[i].used == 0;
      assert s.blocks[i := s.blocks[i].(used := 0)] == s.blocks;
      ScanKeepsConsistent(s, i + 1, size, align, mem);
    }
  }

  lemma NewBlockKeepsConsistent(s: ArenaState, size: nat, mem: MemoryOracle)
    requires Valid(s) && Consistent(s)
    ensures Consistent(NewBlock(s, size, mem).state)
  {
    GrowKeepsConsistent(s, BlockSize(s.config.blockSize, size), size, mem);
  }

  /** A later block that fits is empty, so it serves the request from offset 0. */
  lemma LandingKeepsConsistent(s: ArenaState, i: nat, size: nat, align: nat, mem: MemoryOracle)
    requires Valid(s) && Consistent(s) && s.current < i < |s.blocks| && size > 0 && IsPowerOfTwo(align)
    requires Fits(s.blocks[i], size, align)
    ensures Consistent(Scan(s, i, size, align, mem).state)
  {
    var c := s.current;
    var b := s.blocks[i];
    assert b.used == 0;
    AlignForwardZero(align);
    var r := Scan(s, i, size, align, mem);
    var bs := r.state.blocks;
    assert bs == s.blocks[i := b.(used := size)];
    assert r.state.totalUsed == s.totalUsed + size;
    SumUsedSkipsEmpty(bs, c, i);
    assert bs[..i + 1] == bs[..i] + [bs[i]];
    SumUsedConcat(bs[..i], [bs[i]]);
    assert [bs[i]][1..] == [];
    assert bs[..c + 1] == s.blocks[..c + 1];
  }

  /**
    On an arena whose counters are consistent, every allocation keeps them
    so, and a failed allocation changes nothing but the recorded error
    (the blocks a failed scan empties were empty already).
  */
  lemma AllocKeepsConsistent(s: ArenaState, size: nat, align: nat, mem: MemoryOracle)
    requires Valid(s) && Consistent(s)
    ensures var r := AllocInternal(s, size, align, mem);
      Consistent(r.state) && (r.result.Null? ==> r.state == s.(lastErr := r.state.lastErr))
  {
    var c := s.current;
    if size > 0 && IsPowerOfTwo(align) {
      var b := s.blocks[c];
      if Fits(b, size, align) {
        var r := AllocInternal(s, size, align, mem);
        PrefixUpdate(s.blocks, c, c, AlignForward(b.used, align) + size);
      } else if !s.config.fixedSize {
        ScanKeepsConsistent(s, c + 1, size, align, mem);
      }
    }
  }

  // ---------------------------------------------------------------------
  // No overlap with live data

  /** `n` bytes at `p` lie below the cursor of the block `p` points into. */
  ghost predicate Live(s: ArenaState, p: Ptr, n: nat)
  {
    p.Addr? && Find(s.blocks, p.block) < |s.blocks|
    && p.offset + n <= s.blocks[Find(s.blocks, p.block)].used
  }

  /** The `n` bytes at `p` and the `m` bytes at `q` do not overlap. */
  predicate Disjoint(p: Ptr, n: nat, q: Ptr, m: nat)
  {
    p.Addr? && q.Addr? && (p.block != q.block || p.offset + n <= q.offset || q.offset + m <= p.offset)
  }

  /** A successful allocation never overlaps bytes handed out before it and not yet given back. */
  lemma AllocAvoidsLive(s: ArenaState, size: nat, align: nat, mem: MemoryOracle, p: Ptr, n: nat)
    requires Valid(s) && Live(s, p, n)
    ensures var r := AllocInternal(s, size, align, mem);
      r.result.Addr? ==> Disjoint(r.result, size, p, n)
  {
    var r := AllocInternal(s, size, align, mem);
    if r.result.Addr? && r.result.block == p.block && r.result.block != |s.blocks| {
      FindDistinct(s.blocks, r.state.current);
    }
  }

  // ---------------------------------------------------------------------
  // Fixed-size arenas

  /** A fixed-size arena never acquires a block, whatever it is asked to allocate or resize. */
  lemma FixedArenaNeverGrows(s: ArenaState, size: nat, align: nat, ptr: Ptr, oldSize: nat, mem: MemoryOracle)
    requires Valid(s) && s.config.fixedSize
    ensures var r := AllocInternal(s, size, align, mem);
      SameShape(s.blocks, r.state.blocks) && r.state.current == s.current
      && r.state.totalAllocated == s.totalAllocated
    ensures var r := Resize(s, ptr, oldSize, size, mem);
      SameShape(s.blocks, r.state.blocks) && r.state.current == s.current
      && r.state.totalAllocated == s.totalAllocated
  {
  }

  // ---------------------------------------------------------------------
  // Resizing

  /**
    A null pointer or a zero size is refused with INVALID_SIZE and nothing
    else changes; a pointer that is not the current block's last allocation
    always gets a fresh allocation of the new size.
  */
  lemma ResizeRejects(s: ArenaState, ptr: Ptr, oldSize: nat, newSize: nat, mem: MemoryOracle)
    requires Valid(s)
    ensures ptr.Null? || oldSize == 0 || newSize == 0 ==>
      Resize(s, ptr, oldSize, newSize, mem) == Step(s.(lastErr := InvalidSize), Null)
    ensures ptr.Addr? && oldSize > 0 && newSize > 0 && !AtTail(s, ptr, oldSize) ==>
      Resize(s, ptr, oldSize, newSize, mem) == Alloc(s, newSize, mem)
  {
  }

  /**
    The last allocation of the current block grows or shrinks in place when
    the block has room: the same pointer comes back and only the block's
    cursor and `total_used` move, by exactly the size difference when the
    counters were consistent.
  */
  lemma ResizeInPlace(s: ArenaState, ptr: Ptr, oldSize: nat, newSize: nat, mem: MemoryOracle)
    requires Valid(s) && oldSize > 0 && newSize > 0 && AtTail(s, ptr, oldSize)
    requires var b := s.blocks[s.current]; newSize <= oldSize || b.used + (newSize - oldSize) <= b.size
    ensures var r := Resize(s, ptr, oldSize, newSize, mem);
      var b := s.blocks[s.current];
      r.result == ptr && r.state.current == s.current
      && r.state.blocks == s.blocks[s.current := b.(used := b.used - oldSize + newSize)]
      && r.state.totalAllocated == s.totalAllocated && r.state.lastErr == s.lastErr
      && (Consistent(s) ==> r.state.totalUsed + oldSize == s.totalUsed + newSize && Consistent(r.state))
  {
    var c := s.current;
    if Consistent(s) {
      SumUsedCovers(s.blocks[..c + 1], c);
      PrefixUpdate(s.blocks, c, c, s.blocks[c].used - oldSize + newSize);
    }
  }

  /**
    When the last allocation must grow past its block, the request moves:
    a fixed-size arena refuses it; otherwise a fresh allocation is made and,
    if it succeeds, the old bytes go back to the old block.
  */
  lemma ResizeMoves(s: ArenaState, ptr: Ptr, oldSize: nat, newSize: nat, mem: MemoryOracle)
    requires Valid(s) && oldSize > 0 && AtTail(s, ptr, oldSize)
    requires var b := s.blocks[s.current]; newSize > oldSize && b.used + (newSize - oldSize) > b.size
    ensures var r := Resize(s, ptr, oldSize, newSize, mem);
      var a := Alloc(s, newSize, mem);
      var c := s.current;
      (s.config.fixedSize ==> r == Step(s.(lastErr := OutOfMemory), Null))
      && (!s.config.fixedSize && a.result.Null? ==> r == a)
      && (!s.config.fixedSize && a.result.Addr? ==>
        r == Step(a.state.(blocks := a.state.blocks[c := s.blocks[c].(used := s.blocks[c].used - oldSize)],
                           totalUsed := SizeSub(a.state.totalUsed, oldSize)),
                  a.result))
  {
    var a := Alloc(s, newSize, mem);
    var c := s.current;
    assert a.state.blocks[c] == a.state.blocks[..c + 1][c];
  }

  /**
    Whatever path a resize takes, a pointer other than the old one never
    overlaps the old allocation, unless the old bytes were not live.
  */
  lemma ResizeDisjoint(s: ArenaState, ptr: Ptr, oldSize: nat, newSize: nat, mem: MemoryOracle)
    requires Valid(s) && Live(s, ptr, oldSize)
    ensures var r := Resize(s, ptr, oldSize, newSize, mem);
      r.result.Addr? && r.result != ptr ==> Disjoint(r.result, newSize, ptr, oldSize)
  {
    AllocAvoidsLive(s, newSize, s.config.alignment, mem, ptr, oldSize);
  }

  /** Resizing keeps consistent counters consistent. */
  lemma ResizeKeepsConsistent(s: ArenaState, ptr: Ptr, oldSize: nat, newSize: nat, mem: MemoryOracle)
    requires Valid(s) && Consistent(s)
    ensures Consistent(Resize(s, ptr, oldSize, newSize, mem).state)
  {
    if ptr.Null? || oldSize == 0 || newSize == 0 {
    } else if !AtTail(s, ptr, oldSize) {
      AllocKeepsConsistent(s, newSize, s.config.alignment, mem);
    } else {
      var b := s.blocks[s.current];
      if newSize > oldSize && b.used + (newSize - oldSize) > b.size {
        if !s.config.fixedSize {
          ResizeMovedKeepsConsistent(s, ptr, oldSize, newSize, mem);
        }
      } else {
        ResizeInPlace(s, ptr, oldSize, newSize, mem);
      }
    }
  }

  lemma ResizeMovedKeepsConsistent(s: ArenaState, ptr: Ptr, oldSize: nat, newSize: nat, mem: MemoryOracle)
    requires Valid(s) && Consistent(s) && oldSize > 0 && AtTail(s, ptr, oldSize) && !s.config.fixedSize
    requires var b := s.blocks[s.current]; newSize > oldSize && b.used + (newSize - oldSize) > b.size
    ensures Consistent(Resize(s, ptr, oldSize, newSize, mem).state)
  {
    var c := s.current;
    AllocKeepsConsistent(s, newSize, s.config.alignment, mem);
    var a := Alloc(s, newSize, mem);
    if a.result.Addr? {
      assert a.state.blocks[c] == s.blocks[c] by {
        assert a.state.blocks[c] == a.state.blocks[..c + 1][c];
      }
      GiveBackKeepsAccounting(a.state, c, oldSize);
    }
  }

  // ---------------------------------------------------------------------
  // Temporary scopes

  /** The arena after serving the requests in order. */
  function AllocAll(s: ArenaState, reqs: seq<Request>): (r: ArenaState)
    requires Valid(s)
    ensures Valid(r) && Extends(s, r)
    decreases |reqs|
  {
    if reqs == [] then s
    else
      var q := reqs[0];
      var t := AllocInternal(s, q.size, q.align, q.mem).state;
      var r := AllocAll(t, reqs[1..]);
      ExtendsTransitive(s, t, r);
      r
  }

  lemma {:induction false} AllocAllKeepsConsistent(s: ArenaState, reqs: seq<Request>)
    requires Valid(s) && Consistent(s)
    ensures Consistent(AllocAll(s, reqs))
    decreases |reqs|
  {
    if reqs != [] {
      var q := reqs[0];
      AllocKeepsConsistent(s, q.size, q.align, q.mem);
      AllocAllKeepsConsistent(AllocInternal(s, q.size, q.align, q.mem).state, reqs[1..]);
    }
  }

  /**
    Ending a checkpoint after any run of allocations puts back the current
    block, its cursor and `total_used`; the blocks up to the checkpoint are
    as they were and the counters agree again.
  */
  lemma TempScopeRestores<A>(arena: A, s: ArenaState, reqs: seq<Request>)
    requires Valid(s) && Consistent(s)
    ensures var t := TempBegin(arena, s);
      var s1 := AllocAll(s, reqs);
      Restorable(s1, t)
      && var r := TempEnd(s1, t);
      r.current == s.current && r.totalUsed == s.totalUsed
      && r.blocks[..r.current + 1] == s.blocks[..s.current + 1]
      && Valid(r) && Accounting(r)
  {
    var s1 := AllocAll(s, reqs);
    var t := TempBegin(arena, s);
    AllocAllKeepsConsistent(s, reqs);
    TempScopeRewinds(arena, s, s1);
    var r := TempEnd(s1, t);
    var c := s.current;
    assert r.blocks[c] == r.blocks[..c + 1][c];
    assert s.blocks[c] == s.blocks[..c + 1][c];
    SetUsedKeepsValid(s1, r, c, t.used);
  }

  /**
    With the rewind that empties the blocks after the checkpoint, the arena
    is fully consistent again after the scope, so later allocations start
    from empty blocks.
  */
  lemma TempScopeResettingRestores<A>(arena: A, s: ArenaState, reqs: seq<Request>)
    requires Valid(s) && Consistent(s)
    ensures var t := TempBegin(arena, s);
      var s1 := AllocAll(s, reqs);
      Restorable(s1, t)
      && var r := TempEndResetting(s1, t);
      r.current == s.current && r.totalUsed == s.totalUsed
      && r.blocks[..r.current + 1] == s.blocks[..s.current + 1]
      && Valid(r) && Consistent(r)
  {
    var s1 := AllocAll(s, reqs);
    var t := TempBegin(arena, s);
    TempScopeRestores(arena, s, reqs);
    TempEndResettingRewinds(arena, s, s1);
    var r := TempEndResetting(s1, t);
    var w := TempEnd(s1, t);
    assert Bounded(r.blocks) by {
      forall k | 0 <= k < |r.blocks| ensures r.blocks[k].used <= r.blocks[k].size {
        if k <= r.current {
          assert r.blocks[k] == r.blocks[..r.current + 1][k] == w.blocks[..r.current + 1][k];
          assert w.blocks[k] == w.blocks[..w.current + 1][k];
        }
      }
    }
  }
}
