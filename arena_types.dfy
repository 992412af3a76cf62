/**
  The declarations of spar.h: the error taxonomy, the data-size macros, the
  compile-time defaults and the block, configuration, arena and checkpoint
  records. Both allocator revisions are modelled over these types.

  Addresses are abstract: a block's memory region is named by the block's
  `id` (distinct for every block an arena creates), and a pointer handed out
  by the arena is a block id with an offset into that block's region.
*/
module ArenaTypes {
  import opened Alignment

  datatype Option<+T> = None | Some(value: T)

  /** One past the largest `size_t` on the 64-bit targets the library is built for. */
  const SIZE_LIMIT: nat := 0x1_0000_0000_0000_0000

  /** One past the largest `uint32_t`. */
  const UINT32_LIMIT: nat := 0x1_0000_0000

  /** `sizeof(void*)` on a 64-bit target. */
  const POINTER_SIZE: nat := 8

  /** The page-like granularity oversized blocks are rounded up to. */
  const PAGE_SIZE: nat := 4096

  /**
    `a - b` in `size_t`: exact when it does not go below zero, otherwise
    wrapped modulo 2^64 as unsigned subtraction does.
  */
  function SizeSub(a: nat, b: nat): nat
  {
    if b <= a then a - b else (a - b) % SIZE_LIMIT
  }

  /** `a * b` in `size_t`: the product modulo 2^64, as unsigned multiplication wraps. */
  function SizeMul(a: nat, b: nat): (r: nat)
    ensures r < SIZE_LIMIT
    ensures a * b < SIZE_LIMIT ==> r == a * b
  {
    (a * b) % SIZE_LIMIT
  }

  /**
    `strlen`: how many characters come before the first NUL. A string
    without one is taken as ending with the sequence.
  */
  function StrLen(s: string): (n: nat)
    ensures n <= |s|
    ensures forall k :: 0 <= k < n ==> s[k] != '\0'
    ensures n < |s| ==> s[n] == '\0'
  {
    if s == [] || s[0] == '\0' then 0 else 1 + StrLen(s[1..])
  }

  // ---------------------------------------------------------------------
  // Error taxonomy (`sp_arena_err_t`)

  datatype ArenaError =
    | NoError
    | OutOfMemory
    | InvalidAlignment
    | InvalidSize
    | InvalidArena
    | ArenaNotAllocated
    | AllocationTooLarge

  /** The enumerator value: `SP_ARENA_ERR_NONE` is 0 and the rest follow in declaration order. */
  function Code(e: ArenaError): (c: nat)
    ensures c <= 6
    ensures c == 0 <==> e == NoError
  {
    match e
    case NoError => 0
    case OutOfMemory => 1
    case InvalidAlignment => 2
    case InvalidSize => 3
    case InvalidArena => 4
    case ArenaNotAllocated => 5
    case AllocationTooLarge => 6
  }

  /** The enumerator a raw value names, if any. */
  function FromCode(c: int): (e: Option<ArenaError>)
    ensures e.Some? <==> 0 <= c <= 6
    ensures e.Some? ==> Code(e.value) == c
  {
    if c == 0 then Some(NoError)
    else if c == 1 then Some(OutOfMemory)
    else if c == 2 then Some(InvalidAlignment)
    else if c == 3 then Some(InvalidSize)
    else if c == 4 then Some(InvalidArena)
    else if c == 5 then Some(ArenaNotAllocated)
    else if c == 6 then Some(AllocationTooLarge)
    else None
  }

  /** The seven enumerators have seven distinct values. */
  lemma CodeRoundTrip(e: ArenaError)
    ensures FromCode(Code(e)) == Some(e)
  {
  }

  // ---------------------------------------------------------------------
  // Data sizes: every macro goes through `uint32_t`

  /** The `(uint32_t)` conversion: reduction modulo 2^32 (Dafny's `%` never goes negative). */
  function U32(n: int): nat
  {
    n % UINT32_LIMIT
  }

  /** Adding a multiple of 2^32 does not change the `uint32_t`. */
  lemma U32Shift(x: int, k: int)
    ensures U32(x + k * UINT32_LIMIT) == U32(x)
  {
    var q, r := x / UINT32_LIMIT, x % UINT32_LIMIT;
    assert x + k * UINT32_LIMIT == (q + k) * UINT32_LIMIT + r;
  }

  /** Converting before or after a multiplication gives the same `uint32_t`. */
  lemma U32OfProduct(a: int, b: int)
    ensures U32(a * U32(b)) == U32(a * b)
  {
    var q, r := b / UINT32_LIMIT, b % UINT32_LIMIT;
    assert b == q * UINT32_LIMIT + r;
    calc {
      a * b;
      a * (q * UINT32_LIMIT + r);
      a * r + (a * q) * UINT32_LIMIT;
    }
    U32Shift(a * r, a * q);
  }

  lemma U32OfMultiple(k: int)
    ensures U32(k * UINT32_LIMIT) == 0
  {
  }

  /** `KB(n)`: 1024 n, taken modulo 2^32. */
  function KB(n: int): (r: nat)
    ensures r == (1024 * n) % UINT32_LIMIT
  {
    U32OfProduct(1024, n);
    U32(1024 * U32(n))
  }

  /** `MB(n)`: 2^20 n, taken modulo 2^32. */
  function MB(n: int): (r: nat)
    ensures r == (0x10_0000 * n) % UINT32_LIMIT
  {
    var m := U32(n);
    U32OfProduct(1024, 1024 * m);
    assert 1024 * (1024 * m) == 0x10_0000 * m;
    U32OfProduct(0x10_0000, n);
    U32(1024 * KB(m))
  }

  /** `GB(n)`: 2^30 n, taken modulo 2^32, so `GB(4)` is already 0. */
  function GB(n: int): (r: nat)
    ensures r == (0x4000_0000 * n) % UINT32_LIMIT
  {
    var m := U32(n);
    U32OfProduct(1024, 0x10_0000 * m);
    assert 1024 * (0x10_0000 * m) == 0x4000_0000 * m;
    U32OfProduct(0x4000_0000, n);
    U32(1024 * MB(m))
  }

  /** `TB(n)`: 2^40 n is a multiple of 2^32, so every `TB(n)` is 0. */
  function TB(n: int): (r: nat)
    ensures r == 0
  {
    var m := U32(n);
    U32OfProduct(1024, 0x4000_0000 * m);
    assert 1024 * (0x4000_0000 * m) == (256 * m) * UINT32_LIMIT;
    U32OfMultiple(256 * m);
    U32(1024 * GB(m))
  }

  lemma SizeMacroExamples()
    ensures KB(64) == 65536 && MB(1) == 0x10_0000 && GB(1) == 0x4000_0000
    ensures GB(4) == 0 && TB(1) == 0
  {
  }

  // ---------------------------------------------------------------------
  // Records

  /**
    A block of the chain (`sp_arena_block`). `id` names its memory region;
    the `next` link is the block's position in the arena's sequence.
  */
  datatype Block = Block(id: nat, size: nat, used: nat)

  /** The low-level routines a configuration can name; `None` in a config is a null function pointer. */
  datatype Routine = Malloc | Free | Custom(name: nat)

  /** `sp_arena_config`. */
  datatype Config = Config(
    blockSize: nat,
    alignment: nat,
    fixedSize: bool,
    allocator: Option<Routine>,
    deallocator: Option<Routine>)

  /**
    `sp_arena`: the chain in order (`first` is `blocks[0]`), the index of the
    current block, the two counters, the configuration and the sticky error.
  */
  datatype ArenaState = ArenaState(
    blocks: seq<Block>,
    current: nat,
    totalAllocated: nat,
    totalUsed: nat,
    config: Config,
    lastErr: ArenaError)

  /**
    `sp_arena_temp`: the arena it belongs to, the block that was current
    (by id; `None` is a null block), that block's `used` and `total_used`.
  */
  datatype Checkpoint<A> = Checkpoint(arena: A, block: Option<nat>, used: nat, totalUsed: nat)

  /** A pointer the arena hands out: null, or an offset into the region of the block with that id. */
  datatype Ptr = Null | Addr(block: nat, offset: nat)

  /**
    What the configured low-level allocator answers to the two requests a
    block acquisition makes: the memory region, then the control node.
  */
  datatype MemoryOracle = MemoryOracle(regionOk: bool, nodeOk: bool)

  /** The arena after an operation, and the pointer it returned. */
  datatype Step = Step(state: ArenaState, result: Ptr)

  // ---------------------------------------------------------------------
  // Defaults

  /** `SP_ARENA_DEFAULT_BLOCK_SIZE`, as built without an override. */
  const DEFAULT_BLOCK_SIZE: nat := KB(64)

  /** `SP_ARENA_DEFAULT_ALIGNMENT`, as built without an override. */
  const DEFAULT_ALIGNMENT: nat := POINTER_SIZE

  /** `SP_ARENA_DEFAULT_CONFIG`: default sizes, growable, the C library's malloc and free. */
  const DEFAULT_CONFIG: Config :=
    Config(DEFAULT_BLOCK_SIZE, DEFAULT_ALIGNMENT, false, Some(Malloc), Some(Free))

  lemma DefaultsAreSound()
    ensures DEFAULT_BLOCK_SIZE == 65536
    ensures IsPowerOfTwo(DEFAULT_ALIGNMENT)
    ensures IsPowerOfTwo(PAGE_SIZE)
  {
    EightIsPowerOfTwo();
    PageIsPowerOfTwo();
  }

  /** 8, the default alignment, is a power of two. */
  lemma EightIsPowerOfTwo()
    ensures IsPowerOfTwo(8)
  {
    Pow2IsPowerOfTwo(3);
    assert Pow2(3) == 8;
  }

  /** The page granularity of 4096 bytes is a power of two. */
  lemma PageIsPowerOfTwo()
    ensures IsPowerOfTwo(PAGE_SIZE)
  {
    Pow2IsPowerOfTwo(12);
    assert Pow2(6) == 64;
    assert Pow2(12) == PAGE_SIZE;
  }
}
