/** The first-fit allocator as a function on block lists.

    A block is a header and its payload; the list covers the heap in address order.  Counters are
    machine words: they wrap modulo 2^64 exactly as the C counters do. */
module HeapModel {
  import opened Options

  const HEAP_SIZE: nat := 1048576
  const HEADER: nat := 24
  const MIN_BLOCK: nat := 32
  const WORD: nat := 0x1_0000_0000_0000_0000

  datatype Block = Block(addr: nat, size: nat, free: bool) {
    function End(): nat { addr + HEADER + size }
    function Payload(): nat { addr + HEADER }
    function Extent(): nat { HEADER + size }
  }

  datatype Heap = Heap(blocks: seq<Block>, used: nat, available: nat, allocations: nat)

  function Word(x: int): nat { x % WORD }

  /** memory_init: one free block covers the heap. */
  function InitialBlocks(): seq<Block> { [Block(0, HEAP_SIZE - HEADER, true)] }

  function Init(): Heap { Heap(InitialBlocks(), HEADER, HEAP_SIZE - HEADER, 0) }

  /** The size kmalloc works with: rounded up to 8 in 64-bit arithmetic, then to the minimum. */
  function Rounded(size: nat): (n: nat)
    ensures n >= MIN_BLOCK && n % 8 == 0
  {
    var r := Word(size + 7) / 8 * 8;
    if r < MIN_BLOCK then MIN_BLOCK else r
  }

  predicate Fits(b: Block, n: nat) { b.free && b.size >= n }

  /** Index of the first free block that is large enough, |bs| if there is none. */
  function FirstFit(bs: seq<Block>, n: nat): (k: nat)
    ensures k <= |bs|
    ensures k < |bs| ==> Fits(bs[k], n)
    ensures forall j | 0 <= j < k :: !Fits(bs[j], n)
  {
    if bs == [] || Fits(bs[0], n) then 0 else 1 + FirstFit(bs[1..], n)
  }

  predicate Splits(b: Block, n: nat) { b.size > n + HEADER + MIN_BLOCK }

  /** The free block split off behind the first n bytes of b's payload. */
  function Remainder(b: Block, n: nat): Block
    requires Splits(b, n)
  {
    Block(b.addr + HEADER + n, b.size - n - HEADER, true)
  }

  /** split_block: block k keeps n bytes and the rest becomes a free block behind it. */
  function SplitAt(bs: seq<Block>, k: nat, n: nat): (r: seq<Block>)
    requires k < |bs|
    ensures k < |r| && r[k].addr == bs[k].addr && r[k].free == bs[k].free
  {
    var b := bs[k];
    if !Splits(b, n) then bs
    else bs[..k] + ([b.(size := n), Remainder(b, n)] + bs[k + 1..])
  }

  /** The list after block k has been taken for n bytes. */
  function Carve(bs: seq<Block>, k: nat, n: nat): seq<Block>
    requires k < |bs|
  {
    var b := bs[k];
    if Splits(b, n) then
      bs[..k] + ([Block(b.addr, n, false), Remainder(b, n)] + bs[k + 1..])
    else
      bs[k := b.(free := false)]
  }

  function Granted(b: Block, n: nat): nat { if Splits(b, n) then n else b.size }

  /** The counters with x bytes and d allocations more in use. */
  function Booked(h: Heap, x: int, d: int): Heap
  {
    h.(used := Word(h.used + x), available := Word(h.available - x), allocations := Word(h.allocations + d))
  }

  /** First fit for an adjusted size: the block taken is charged with its header. */
  function Take(h: Heap, n: nat): (Heap, Option<nat>)
  {
    var k := FirstFit(h.blocks, n);
    if k == |h.blocks| then (h, None)
    else
      (Booked(h.(blocks := Carve(h.blocks, k, n)), Granted(h.blocks[k], n) + HEADER, 1),
       Some(h.blocks[k].Payload()))
  }

  /** kmalloc, with the address of the payload as its result. */
  function Malloc(h: Heap, size: nat): (Heap, Option<nat>)
  {
    if size == 0 then (h, None) else Take(h, Rounded(size))
  }

  /** The first block takes over the second one and its header. */
  function Absorb(bs: seq<Block>): seq<Block>
    requires |bs| >= 2
  {
    [bs[0].(size := bs[0].size + bs[1].Extent())] + bs[2..]
  }

  /** merge_free_blocks: one pass over the list that absorbs a free right neighbour and looks again. */
  function Coalesce(bs: seq<Block>): (r: seq<Block>)
    ensures |r| <= |bs|
    decreases |bs|
  {
    if |bs| < 2 then bs
    else if bs[0].free && bs[1].free && bs[0].End() == bs[1].addr then
      Coalesce(Absorb(bs))
    else
      [bs[0]] + Coalesce(bs[1..])
  }

  /** Index of the block whose payload starts at p, |bs| if there is none. */
  function IndexOf(bs: seq<Block>, p: int): (k: nat)
    ensures k <= |bs|
    ensures k < |bs| ==> bs[k].Payload() == p
    ensures forall j | 0 <= j < k :: bs[j].Payload() != p
  {
    if bs == [] || bs[0].Payload() == p then 0 else 1 + IndexOf(bs[1..], p)
  }

  /** Block k marked free, before the merge pass. */
  function Marked(h: Heap, k: nat): Heap
    requires k < |h.blocks|
  {
    var b := h.blocks[k];
    Booked(h.(blocks := h.blocks[k := b.(free := true)]), 0 - b.Extent(), -1)
  }

  /** kfree of the block at index k. */
  function Release(h: Heap, k: nat): Heap
    requires k < |h.blocks|
  {
    var m := Marked(h, k);
    m.(blocks := Coalesce(m.blocks))
  }

  /** What kfree can judge: p lies outside the heap or is the payload of a block in the list.  For any
      other pointer it would take whatever bytes stand in front of p for a header. */
  predicate Known(h: Heap, p: int)
  {
    !(0 <= p - HEADER < HEAP_SIZE) || IndexOf(h.blocks, p) < |h.blocks|
  }

  /** kfree: a pointer outside the heap and a block that is free already are ignored. */
  function Free(h: Heap, p: int): Heap
    requires Known(h, p)
  {
    var k := IndexOf(h.blocks, p);
    if !(0 <= p - HEADER < HEAP_SIZE) || h.blocks[k].free then h else Release(h, k)
  }

  // ----- what a heap must look like -----

  // The facts about neighbours are named, so that a proof states which neighbours it needs.
  ghost predicate Adjoins(bs: seq<Block>, i: int)
    requires 0 <= i < |bs| - 1
  {
    bs[i + 1].addr == bs[i].End()
  }

  ghost predicate NotBothFree(bs: seq<Block>, i: int)
    requires 0 <= i < |bs| - 1
  {
    !(bs[i].free && bs[i + 1].free)
  }

  /** The blocks cover [lo, hi) exactly, in address order. */
  ghost predicate Tiles(bs: seq<Block>, lo: nat, hi: nat)
  {
    && bs != [] && bs[0].addr == lo && bs[|bs| - 1].End() == hi
    && forall i | 0 <= i < |bs| - 1 :: Adjoins(bs, i)
  }

  ghost predicate Sized(bs: seq<Block>)
  {
    forall i | 0 <= i < |bs| :: bs[i].size >= MIN_BLOCK && bs[i].size % 8 == 0
  }

  ghost predicate NoTwoFree(bs: seq<Block>)
  {
    forall i | 0 <= i < |bs| - 1 :: NotBothFree(bs, i)
  }

  ghost predicate WellFormed(bs: seq<Block>)
  {
    Tiles(bs, 0, HEAP_SIZE) && Sized(bs) && NoTwoFree(bs)
  }

  /** Bytes held by the blocks of one kind, headers included. */
  function Bytes(bs: seq<Block>, free: bool): nat
  {
    if bs == [] then 0 else (if bs[0].free == free then bs[0].Extent() else 0) + Bytes(bs[1..], free)
  }

  function Count(bs: seq<Block>, free: bool): nat
  {
    if bs == [] then 0 else (if bs[0].free == free then 1 else 0) + Count(bs[1..], free)
  }

  /** The live allocations: payload address and payload size. */
  function Live(bs: seq<Block>): set<(nat, nat)>
  {
    set i | 0 <= i < |bs| && !bs[i].free :: (bs[i].Payload(), bs[i].size)
  }
}
