/** The allocator as it runs: headers linked in place, walked and rewritten by pointer. */
module Allocator {
  import opened Options
  import opened HeapModel
  import opened HeapLaws
  import opened HeapTheorems

  /** A block header in the heap; addr is its offset from heap_memory. */
  class Header {
    const addr: nat
    var size: nat
    var isFree: bool
    var next: Header?

    constructor (addr: nat, size: nat, next: Header?)
      ensures this.addr == addr && this.size == size && this.isFree && this.next == next
    {
      this.addr, this.size, this.isFree, this.next := addr, size, true, next;
    }

    function View(): Block
      reads `size, `isFree
    {
      Block(addr, size, isFree)
    }
  }

  ghost predicate LinkAt(chain: seq<Header>, i: int)
    requires 0 <= i < |chain| - 1
    reads {chain[i]}`next
  {
    chain[i].next == chain[i + 1]
  }

  /** The headers are linked in the order of the sequence, and the last one ends the list. */
  ghost predicate Links(chain: seq<Header>)
    reads (set h | h in chain)`next
  {
    && (chain != [] ==> chain[|chain| - 1].next == null)
    && (forall i | 0 <= i < |chain| - 1 :: LinkAt(chain, i))
    && Distinct(chain)
  }

  ghost predicate Differ(chain: seq<Header>, i: int, j: int)
    requires 0 <= i < |chain| && 0 <= j < |chain|
  {
    chain[i] != chain[j]
  }

  ghost predicate Distinct(chain: seq<Header>)
  {
    forall i, j | 0 <= i < |chain| && 0 <= j < |chain| && i != j :: Differ(chain, i, j)
  }

  /** The chain with a further header behind index k. */
  function Inserted(c: seq<Header>, k: nat, rest: Header): seq<Header>
    requires k < |c|
  {
    c[..k + 1] + ([rest] + c[k + 1..])
  }

  lemma InsertedAt(c: seq<Header>, k: nat, rest: Header)
    requires k < |c|
    ensures var d := Inserted(c, k, rest);
            && |d| == |c| + 1 && d[k + 1] == rest
            && (forall i | 0 <= i <= k :: d[i] == c[i])
            && (forall i {:trigger c[i]} | k < i < |c| :: d[i + 1] == c[i])
            && (forall i {:trigger d[i]} | k + 1 < i < |d| :: d[i] == c[i - 1])
  {
  }

  lemma InsertedDistinct(c: seq<Header>, k: nat, rest: Header)
    requires k < |c| && Distinct(c) && rest !in c
    ensures Distinct(Inserted(c, k, rest))
  {
    var d := Inserted(c, k, rest);
    forall i, j | 0 <= i < |d| && 0 <= j < |d| && i != j ensures Differ(d, i, j) {
      var i', j' := if i <= k then i else i - 1, if j <= k then j else j - 1;
      assert i != k + 1 && j != k + 1 ==> Differ(c, i', j');
    }
  }

  /** The chain without the header behind index k. */
  function Unlinked(c: seq<Header>, k: nat): seq<Header>
    requires k + 1 < |c|
  {
    c[..k + 1] + c[k + 2..]
  }

  lemma UnlinkedAt(c: seq<Header>, k: nat)
    requires k + 1 < |c|
    ensures var d := Unlinked(c, k);
            && |d| == |c| - 1
            && (forall i | 0 <= i <= k :: d[i] == c[i])
            && (forall i {:trigger d[i]} | k < i < |d| :: d[i] == c[i + 1])
  {
  }

  lemma UnlinkedDistinct(c: seq<Header>, k: nat)
    requires k + 1 < |c| && Distinct(c)
    ensures Distinct(Unlinked(c, k))
  {
    var d := Unlinked(c, k);
    forall i, j | 0 <= i < |d| && 0 <= j < |d| && i != j ensures Differ(d, i, j) {
      assert Differ(c, if i <= k then i else i + 1, if j <= k then j else j + 1);
    }
  }

  lemma OthersDiffer(c: seq<Header>, k: nat)
    requires k < |c| && Distinct(c)
    ensures forall i | 0 <= i < |c| && i != k :: c[i] != c[k]
  {
    forall i | 0 <= i < |c| && i != k ensures c[i] != c[k] {
      assert Differ(c, i, k);
    }
  }

  /** The headers hold the blocks of bs. */
  ghost predicate Shows(chain: seq<Header>, bs: seq<Block>)
    reads (set h | h in chain)`size, (set h | h in chain)`isFree
  {
    |chain| == |bs| && forall i | 0 <= i < |bs| :: chain[i].View() == bs[i]
  }

  /** c is bs with block k shortened to n and the remainder behind it. */
  ghost predicate Spliced(c: seq<Block>, bs: seq<Block>, k: nat, n: nat)
    requires k < |bs| && Splits(bs[k], n)
  {
    && |c| == |bs| + 1 && c[k] == bs[k].(size := n) && c[k + 1] == Remainder(bs[k], n)
    && (forall i | 0 <= i < k :: c[i] == bs[i])
    && (forall i | k + 1 < i < |c| :: c[i] == bs[i - 1])
  }

  lemma SplitIsSpliced(bs: seq<Block>, k: nat, n: nat)
    requires k < |bs| && Splits(bs[k], n)
    ensures Spliced(SplitAt(bs, k, n), bs, k, n)
  {
    hide Splits, Remainder;
    var c, front, back := SplitAt(bs, k, n), [bs[k].(size := n), Remainder(bs[k], n)], bs[k + 1..];
    assert c == bs[..k] + (front + back);
    forall i | k + 1 < i < |c| ensures c[i] == bs[i - 1] {
      assert c[i] == (front + back)[i - k] == back[i - k - 2];
    }
  }

  /** Once the header of block k holds the smaller size, the chain with rest shows the split list. */
  lemma InsertedShows(c: seq<Header>, k: nat, rest: Header, bs: seq<Block>, n: nat, split: seq<Block>)
    requires k < |c| == |bs| && Splits(bs[k], n) && Spliced(split, bs, k, n)
    requires Shows(c, bs[k := bs[k].(size := n)]) && rest.View() == Remainder(bs[k], n)
    ensures Shows(Inserted(c, k, rest), split)
  {
    hide Splits, Remainder, Inserted;
    InsertedAt(c, k, rest);
  }

  function Taken(bs: seq<Block>, k: nat): seq<Block>
    requires k < |bs|
  {
    bs[k := bs[k].(free := false)]
  }

  lemma TakenSplit(bs: seq<Block>, k: nat, n: nat)
    requires k < |bs|
    ensures Taken(SplitAt(bs, k, n), k) == Carve(bs, k, n)
    ensures !Splits(bs[k], n) ==> SplitAt(bs, k, n) == bs
  {
  }

  /** Taking block k charges the block as it stands once carved. */
  lemma TakeIs(h: Heap, n: nat, k: nat, c: seq<Block>)
    requires k == FirstFit(h.blocks, n) < |h.blocks| && c == Carve(h.blocks, k, n)
    ensures k < |c| && Take(h, n) == (Booked(h.(blocks := c), c[k].Extent(), 1), Some(c[k].Payload()))
  {
  }

  // ----- the merge pass, seen as a cursor moving through the list -----

  /** Block k takes over block k + 1. */
  function FuseAt(bs: seq<Block>, k: nat): seq<Block>
    requires k + 1 < |bs|
  {
    bs[..k] + Absorb(bs[k..])
  }

  lemma FuseIsFused(bs: seq<Block>, k: nat)
    requires k + 1 < |bs|
    ensures var c := FuseAt(bs, k);
            && |c| == |bs| - 1 && c[k] == bs[k].(size := bs[k].size + bs[k + 1].Extent())
            && (forall i | 0 <= i < k :: c[i] == bs[i])
            && (forall i | k < i < |c| :: c[i] == bs[i + 1])
  {
  }

  /** Once the header of block k covers its neighbour, the chain without that one shows the fused list. */
  lemma UnlinkedShows(c: seq<Header>, k: nat, bs: seq<Block>)
    requires k + 1 < |c| == |bs|
    requires Shows(c, bs[k := bs[k].(size := bs[k].size + bs[k + 1].Extent())])
    ensures Shows(Unlinked(c, k), FuseAt(bs, k))
  {
    FuseIsFused(bs, k);
    UnlinkedAt(c, k);
  }

  /** Coalescing from the cursor on completes the pass. */
  ghost predicate Pass(bs: seq<Block>, k: nat, all: seq<Block>)
  {
    k <= |bs| && bs[..k] + Coalesce(bs[k..]) == all
  }

  lemma PassStart(bs: seq<Block>)
    ensures Pass(bs, 0, Coalesce(bs))
  {
    assert bs[0..] == bs;
  }

  lemma PassFused(bs: seq<Block>, k: nat, all: seq<Block>)
    requires k + 1 < |bs| && Pass(bs, k, all)
    requires bs[k].free && bs[k + 1].free && bs[k].End() == bs[k + 1].addr
    ensures Pass(FuseAt(bs, k), k, all)
  {
    var c := FuseAt(bs, k);
    assert c[..k] == bs[..k] && c[k..] == Absorb(bs[k..]);
    assert bs[k..][0] == bs[k] && bs[k..][1] == bs[k + 1];
  }

  lemma PassAdvance(bs: seq<Block>, k: nat, all: seq<Block>)
    requires k + 1 < |bs| && Pass(bs, k, all)
    requires !(bs[k].free && bs[k + 1].free && bs[k].End() == bs[k + 1].addr)
    ensures Pass(bs, k + 1, all)
  {
    var r := bs[k..];
    assert r[0] == bs[k] && r[1] == bs[k + 1] && r[1..] == bs[k + 1..];
    assert bs[..k] + ([bs[k]] + Coalesce(r[1..])) == bs[..k + 1] + Coalesce(r[1..]);
  }

  lemma PassEnd(bs: seq<Block>, k: nat, all: seq<Block>)
    requires k + 1 == |bs| && Pass(bs, k, all)
    ensures bs == all
  {
    assert bs[..k] + bs[k..] == bs;
  }

  class KernelHeap {
    var heapStart: Header
    var headerAt: map<nat, Header>  // the header that a heap offset denotes when cast to a pointer
    var used: nat
    var available: nat
    var allocations: nat
    var freeBlocks: nat
    ghost var chain: seq<Header>  // the list, header by header
    ghost var blocks: seq<Block>  // and what the headers say

    /** A header of the list is found again at its address. */
    ghost predicate Mapped()
      reads `headerAt, `chain
    {
      forall h | h in chain :: h.addr in headerAt && headerAt[h.addr] == h
    }

    /** heapStart leads through the headers of the chain. */
    ghost predicate Chained()
      reads `heapStart, `headerAt, `chain, (set h | h in chain)`next
    {
      chain != [] && heapStart == chain[0] && Links(chain) && Mapped()
    }

    ghost predicate Linked()
      reads `heapStart, `headerAt, `chain, `blocks, chain
    {
      Chained() && Shows(chain, blocks)
    }

    ghost predicate Valid()
      reads `heapStart, `headerAt, `chain, `blocks, chain
    {
      Linked() && WellFormed(blocks)
    }

    ghost function State(): Heap
      reads this
    {
      Heap(blocks, used, available, allocations)
    }

    /** memory_init on a heap that has not been initialised. */
    constructor ()
      ensures Valid() && fresh(chain) && State() == Init()
    {
      var first := new Header(0, HEAP_SIZE - HEADER, null);
      heapStart := first;
      headerAt := map[0 := first];
      used, available, allocations, freeBlocks := HEADER, HEAP_SIZE - HEADER, 0, 1;
      chain, blocks := [first], InitialBlocks();
    }

    method FindFreeBlock(size: nat) returns (block: Header?)
      requires Linked()
      ensures var k := FirstFit(blocks, size);
              if k < |chain| then block == chain[k] else block == null
    {
      hide Mapped, FirstFit;
      block := heapStart;
      ghost var k: nat := 0;
      assert blocks[0..] == blocks;
      while block != null
        invariant k <= |chain|
        invariant if k < |chain| then block == chain[k] else block == null
        invariant FirstFit(blocks, size) == k + FirstFit(blocks[k..], size)
        decreases |chain| - k
      {
        assert blocks[k] == block.View() && blocks[k..][0] == blocks[k];
        assert blocks[k..][1..] == blocks[k + 1..];
        if block.isFree && block.size >= size {
          return;
        }
        assert k < |chain| - 1 ==> LinkAt(chain, k);
        block, k := block.next, k + 1;
      }
    }

    method Resize(block: Header, size: nat, ghost k: nat)
      requires Linked() && k < |chain| && block == chain[k]
      modifies `blocks, block`size
      ensures Linked() && blocks == old(blocks)[k := old(blocks)[k].(size := size)]
    {
      OthersDiffer(chain, k);
      block.size := size;
      blocks := blocks[k := blocks[k].(size := size)];
    }

    /** A new header goes into the chain behind block k. */
    method LinkBehind(block: Header, rest: Header, ghost k: nat)
      requires Chained() && k < |chain| && block == chain[k]
      requires rest !in chain && rest.next == block.next
      requires forall h | h in chain :: h.addr != rest.addr
      modifies `chain, `headerAt, block`next
      ensures Chained() && chain == Inserted(old(chain), k, rest)
    {
      ghost var c := chain;
      ghost var d := Inserted(c, k, rest);
      InsertedAt(c, k, rest);
      InsertedDistinct(c, k, rest);
      OthersDiffer(c, k);
      headerAt := headerAt[rest.addr := rest];
      block.next := rest;
      chain := d;
      forall i | 0 <= i < |d| - 1 ensures LinkAt(d, i) {
        if i < k {
          assert d[i] == c[i] != block && d[i + 1] == c[i + 1] && old(LinkAt(c, i));
        } else if i == k + 1 {
          assert d[i + 1] == c[k + 1] && old(LinkAt(c, k));
        } else if k + 1 < i {
          assert d[i] == c[i - 1] != block && d[i + 1] == c[i] && old(LinkAt(c, i - 1));
        }
      }
      assert k + 1 < |d| - 1 ==> d[|d| - 1] == c[|c| - 1];
    }

    /** The new header takes the tail of block k, whose payload shrinks to size. */
    method InsertAfter(block: Header, rest: Header, size: nat, ghost k: nat, ghost split: seq<Block>)
      requires Linked() && k < |chain| && block == chain[k]
      requires Splits(blocks[k], size) && Spliced(split, blocks, k, size)
      requires rest !in chain && rest.next == block.next && rest.View() == Remainder(blocks[k], size)
      requires forall h | h in chain :: h.addr != rest.addr
      modifies `chain, `blocks, `headerAt, block`next, block`size
      ensures Linked() && blocks == split && chain == Inserted(old(chain), k, rest)
      ensures chain[k] == block
    {
      hide Links, Mapped, Splits, Remainder, Spliced;
      ghost var c, bs := chain, blocks;
      Resize(block, size, k);
      LinkBehind(block, rest, k);
      InsertedShows(c, k, rest, bs, size, split);
      blocks := split;
    }

    lemma InsideBlock(k: nat, a: nat)
      requires Valid() && k < |chain| && blocks[k].addr < a < blocks[k].End()
      ensures forall h | h in chain :: h.addr != a
    {
      forall h | h in chain ensures h.addr != a {
        var i :| 0 <= i < |chain| && chain[i] == h;
        assert blocks[i].addr == h.addr;
        if i < k { TilesOrdered(blocks, 0, HEAP_SIZE, i, k); }
        if k < i { TilesOrdered(blocks, 0, HEAP_SIZE, k, i); }
      }
    }

    /** split_block: the tail of the payload becomes a free block behind this one. */
    method SplitBlock(block: Header, size: nat, ghost k: nat)
      requires Valid() && k < |chain| && block == chain[k]
      modifies `chain, `blocks, `headerAt, block`next, block`size
      ensures Linked() && blocks == SplitAt(old(blocks), k, size)
      ensures forall h | h in chain :: h in old(chain) || fresh(h)
      ensures chain[k] == block
    {
      hide Links, Mapped;
      assert blocks[k] == block.View();
      if block.size <= size + HEADER + MIN_BLOCK {
        return;
      }
      var addr := block.addr + HEADER + size;
      InsideBlock(k, addr);
      var rest := new Header(addr, block.size - size - HEADER, block.next);
      SplitIsSpliced(blocks, k, size);
      InsertAfter(block, rest, size, k, SplitAt(blocks, k, size));
    }

    method TakeBlock(block: Header, ghost k: nat)
      requires Linked() && k < |chain| && block == chain[k]
      modifies `blocks, block`isFree
      ensures Linked() && blocks == Taken(old(blocks), k)
    {
      OthersDiffer(chain, k);
      block.isFree := false;
      blocks := Taken(blocks, k);
    }

    /** The part of kmalloc that changes the list. */
    method CarveBlock(block: Header, n: nat, ghost k: nat)
      requires Valid() && k < |chain| && block == chain[k] && Fits(blocks[k], n)
      requires n >= MIN_BLOCK && n % 8 == 0
      modifies `chain, `blocks, `headerAt, block
      ensures Valid() && forall h | h in chain :: h in old(chain) || fresh(h)
      ensures blocks == Carve(old(blocks), k, n) && block.View() == blocks[k]
    {
      hide Links, Tiles;
      CarveKeeps(blocks, k, n);
      TakenSplit(blocks, k, n);
      assert blocks[k] == block.View();
      if block.size > n + HEADER + MIN_BLOCK {
        SplitBlock(block, n, k);
      }
      TakeBlock(block, k);
    }

    /** The size adjustment at the head of kmalloc: the least multiple of 8 from 32 on that covers the
        request, unless the 64-bit sum wraps. */
    static method RoundUp(size: nat) returns (n: nat)
      requires size < WORD
      ensures size <= WORD - 8 ==> Serves(n, size) && forall m: nat | Serves(m, size) :: n <= m
      ensures size > WORD - 8 ==> n == MIN_BLOCK
    {
      n := Word(size + 7) / 8 * 8;
      if n < MIN_BLOCK {
        n := MIN_BLOCK;
      }
    }

    /** The statistics update of kmalloc and kfree: x bytes and d allocations more in use. */
    method Account(x: int, d: int)
      modifies `used, `available, `allocations
      ensures State() == Booked(old(State()), x, d)
    {
      used := Word(used + x);
      available := Word(available - x);
      allocations := Word(allocations + d);
    }

    /** kmalloc once the size is adjusted. */
    method Allocate(n: nat) returns (ptr: Option<nat>)
      requires Valid() && n >= MIN_BLOCK && n % 8 == 0
      modifies this, chain
      ensures Valid() && forall h | h in chain :: h in old(chain) || fresh(h)
      ensures (State(), ptr) == Take(old(State()), n)
    {
      var block := FindFreeBlock(n);
      if block == null {
        return None;
      }
      Grant(block, n, FirstFit(blocks, n));
      ptr := Some(block.addr + HEADER);
    }

    /** kmalloc once a block has been found. */
    method Grant(block: Header, n: nat, ghost k: nat)
      requires Valid() && k == FirstFit(blocks, n) < |chain| && block == chain[k]
      requires n >= MIN_BLOCK && n % 8 == 0
      modifies this, block
      ensures Valid() && forall h | h in chain :: h in old(chain) || fresh(h)
      ensures State() == Take(old(State()), n).0 && Take(old(State()), n).1 == Some(block.addr + HEADER)
    {
      hide Carve, WellFormed, Chained;
      assert block.View() == blocks[k];
      CarveBlock(block, n, k);
      TakeIs(old(State()), n, k, blocks);
      Account(block.size + HEADER, 1);
    }

    /** kmalloc: the result is the payload's heap offset, None for NULL. */
    method Kmalloc(size: nat) returns (ptr: Option<nat>)
      requires Valid() && size < WORD
      modifies this, chain
      ensures Valid() && forall h | h in chain :: h in old(chain) || fresh(h)
      ensures (State(), ptr) == Malloc(old(State()), size)
    {
      if size == 0 {
        return None;
      }
      var n := RoundUp(size);
      RoundedIs(size, n);
      ptr := Allocate(n);
    }

    lemma NextIs(k: nat)
      requires Linked() && k + 1 < |chain|
      ensures |chain| == |blocks| && chain[k].next == chain[k + 1]
      ensures chain[k].View() == blocks[k] && chain[k + 1].View() == blocks[k + 1]
    {
      assert LinkAt(chain, k);
    }

    /** The header behind block k leaves the chain. */
    method UnlinkNext(current: Header, ghost k: nat)
      requires Chained() && k + 1 < |chain| && current == chain[k] && current.next == chain[k + 1]
      modifies `chain, current`next
      ensures Chained() && chain == Unlinked(old(chain), k)
    {
      ghost var c := chain;
      ghost var d := Unlinked(c, k);
      UnlinkedAt(c, k);
      UnlinkedDistinct(c, k);
      OthersDiffer(c, k);
      current.next := current.next.next;
      chain := d;
      forall i | 0 <= i < |d| - 1 ensures LinkAt(d, i) {
        if i < k {
          assert d[i] == c[i] != current && d[i + 1] == c[i + 1] && old(LinkAt(c, i));
        } else if i == k {
          assert c[k + 2] == d[k + 1] && old(LinkAt(c, k + 1));
        } else {
          assert d[i] == c[i + 1] != current && d[i + 1] == c[i + 2] && old(LinkAt(c, i + 1));
        }
      }
      assert k < |d| - 1 ==> d[|d| - 1] == c[|c| - 1];
    }

    /** merge_free_blocks, one absorption. */
    method AbsorbNext(current: Header, ghost k: nat)
      requires Linked() && k + 1 < |chain| && current == chain[k]
      modifies `chain, `blocks, current`next, current`size
      ensures Linked() && k < |chain| && chain[k] == current && blocks == FuseAt(old(blocks), k)
      ensures chain == Unlinked(old(chain), k)
    {
      hide Links, Mapped, Shows, FuseAt;
      ghost var c, bs := chain, blocks;
      NextIs(k);
      Resize(current, current.size + HEADER + current.next.size, k);
      UnlinkNext(current, k);
      UnlinkedShows(c, k, bs);
      blocks := FuseAt(bs, k);
    }

    /** merge_free_blocks, one round: absorb the next block or move on to it. */
    method MergeStep(current: Header, ghost k: nat, ghost all: seq<Block>)
      returns (next: Header, ghost k': nat)
      requires Linked() && k < |chain| && current == chain[k] && current.next != null
      requires Pass(blocks, k, all)
      modifies `chain, `blocks, current
      ensures Linked() && k' < |chain| && next == chain[k'] && Pass(blocks, k', all)
      ensures |chain| - k' < old(|chain|) - k
      ensures forall h | h in chain :: h in old(chain)
    {
      hide Mapped;
      assert k < |chain| - 1 && LinkAt(chain, k);
      assert blocks[k] == current.View() && blocks[k + 1] == current.next.View();
      if current.isFree && current.next.isFree
         && current.addr + HEADER + current.size == current.next.addr {
        PassFused(blocks, k, all);
        AbsorbNext(current, k);
        next, k' := current, k;
      } else {
        PassAdvance(blocks, k, all);
        next, k' := current.next, k + 1;
      }
    }

    /** merge_free_blocks: the pass over the whole list. */
    method MergeFreeBlocks()
      requires Linked()
      modifies `chain, `blocks, chain
      ensures Linked() && blocks == Coalesce(old(blocks))
      ensures forall h | h in chain :: h in old(chain)
    {
      var current := heapStart;
      ghost var k: nat := 0;
      ghost var all := Coalesce(blocks);
      PassStart(blocks);
      while current.next != null
        invariant Linked() && k < |chain| && current == chain[k] && Pass(blocks, k, all)
        invariant forall h | h in chain :: h in old(chain)
        decreases |chain| - k
      {
        current, k := MergeStep(current, k, all);
      }
      assert k < |chain| - 1 ==> LinkAt(chain, k);
      PassEnd(blocks, k, all);
    }

    method ReleaseBlock(block: Header, ghost k: nat)
      requires Valid() && k < |chain| && block == chain[k]
      modifies `blocks, block`isFree
      ensures Linked() && blocks == old(blocks)[k := old(blocks)[k].(free := true)]
    {
      OthersDiffer(chain, k);
      block.isFree := true;
      blocks := blocks[k := blocks[k].(free := true)];
    }

    /** kfree.  The header is found by stepping back from the pointer; a pointer outside the heap
        and a block that is already free are ignored. */
    method Kfree(ptr: Option<int>)
      requires Valid()
      requires ptr.Some? ==> Known(State(), ptr.value)
      modifies this, chain
      ensures Valid() && forall h | h in chain :: h in old(chain)
      ensures State() == if ptr == None then old(State()) else Free(old(State()), ptr.value)
    {
      if ptr == None {
        return;
      }
      ghost var k := IndexOf(blocks, ptr.value);
      if ptr.value - HEADER < 0 || ptr.value - HEADER >= HEAP_SIZE {
        return;
      }
      assert chain[k] in chain && blocks[k] == chain[k].View();
      var block := headerAt[ptr.value - HEADER];
      if block.isFree {
        return;
      }
      FreeKeeps(State(), ptr.value);
      GiveBack(block, k);
    }

    /** kfree once the pointer has been accepted. */
    method GiveBack(block: Header, ghost k: nat)
      requires Valid() && k < |chain| && block == chain[k]
      requires WellFormed(Release(State(), k).blocks)
      modifies this, chain
      ensures Valid() && forall h | h in chain :: h in old(chain)
      ensures State() == Release(old(State()), k)
    {
      hide Links, Mapped, WellFormed;
      MarkFree(block, k);
      MergeFreeBlocks();
    }

    method MarkFree(block: Header, ghost k: nat)
      requires Valid() && k < |chain| && block == chain[k]
      modifies `blocks, `used, `available, `allocations, block`isFree
      ensures Linked() && State() == Marked(old(State()), k)
    {
      hide Links, Word, Tiles, Mapped;
      assert blocks[k] == block.View();
      ReleaseBlock(block, k);
      Account(0 - (block.size + HEADER), -1);
    }

    /** memory_get_stats: walks the list to count the free blocks. */
    method MemoryGetStats()
      requires Linked()
      modifies `freeBlocks
      ensures freeBlocks == Count(blocks, true)
    {
      hide Mapped;
      freeBlocks := 0;
      var current: Header? := heapStart;
      ghost var k := 0;
      assert blocks[0..] == blocks;
      while current != null
        invariant k <= |chain|
        invariant if k < |chain| then current == chain[k] else current == null
        invariant freeBlocks + Count(blocks[k..], true) == Count(blocks, true)
        decreases |chain| - k
      {
        assert blocks[k] == current.View() && blocks[k..][0] == blocks[k];
        assert blocks[k..][1..] == blocks[k + 1..];
        if current.isFree {
          freeBlocks := freeBlocks + 1;
        }
        assert k < |chain| - 1 ==> LinkAt(chain, k);
        current, k := current.next, k + 1;
      }
    }
  }
}
