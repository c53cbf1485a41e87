/** The allocator's main results: completeness of kmalloc, kmalloc and kfree on the set of live
    allocations, their being inverse, the counters, and the invariant over whole runs. */
module HeapTheorems {
  import opened Options
  import opened HeapModel
  import opened HeapLaws

  // ----- kmalloc -----

  /** n is a size that kmalloc can hand out for the request. */
  predicate Serves(n: nat, size: nat)
  {
    n % 8 == 0 && n >= MIN_BLOCK && n >= size
  }

  /** The rounded size is the least one that serves the request, for every request that the 64-bit
      rounding does not wrap; a larger request shrinks to the minimum block. */
  lemma RoundedCovers(size: nat, m: nat)
    requires size < WORD
    ensures Serves(Rounded(size), size) <==> size <= WORD - 8
    ensures size <= WORD - 8 && Serves(m, size) ==> Rounded(size) <= m
    ensures size > WORD - 8 ==> Rounded(size) == MIN_BLOCK
  {
  }

  /** These facts leave no other size. */
  lemma RoundedIs(size: nat, n: nat)
    requires size < WORD
    requires size <= WORD - 8 ==> Serves(n, size) && forall m: nat | Serves(m, size) :: n <= m
    requires size > WORD - 8 ==> n == MIN_BLOCK
    ensures n == Rounded(size)
  {
    RoundedCovers(size, n);
  }

  /** [lo, lo+len) lies in the heap and meets no allocated block, header included. */
  ghost predicate Gap(bs: seq<Block>, lo: nat, len: nat)
  {
    && lo + len <= HEAP_SIZE
    && forall i | 0 <= i < |bs| && !bs[i].free :: bs[i].End() <= lo || lo + len <= bs[i].addr
  }

  ghost predicate HasGap(bs: seq<Block>, len: nat)
  {
    exists lo: nat :: Gap(bs, lo, len)
  }

  /** Every gap lies inside a single free block: free space is never in pieces. */
  lemma GapInOneBlock(bs: seq<Block>, lo: nat, len: nat) returns (i: nat)
    requires WellFormed(bs) && len > 0 && Gap(bs, lo, len)
    ensures i < |bs| && bs[i].free && bs[i].addr <= lo && lo + len <= bs[i].End()
  {
    i := BlockAround(bs, 0, HEAP_SIZE, lo);
    TilesWithin(bs, 0, HEAP_SIZE, i);
    if i < |bs| - 1 {
      assert Adjoins(bs, i) && NotBothFree(bs, i);
      assert lo + len <= bs[i + 1].addr;
    }
  }

  lemma FreeBlockIsGap(bs: seq<Block>, k: nat)
    requires WellFormed(bs) && k < |bs| && bs[k].free
    ensures Gap(bs, bs[k].addr, bs[k].Extent())
  {
    TilesWithin(bs, 0, HEAP_SIZE, k);
    forall i | 0 <= i < |bs| && !bs[i].free
      ensures bs[i].End() <= bs[k].addr || bs[k].End() <= bs[i].addr
    {
      if i < k { TilesOrdered(bs, 0, HEAP_SIZE, i, k); } else { TilesOrdered(bs, 0, HEAP_SIZE, k, i); }
    }
  }

  /** Allocation completeness: kmalloc fails only when no contiguous stretch outside the live
      blocks has room for the rounded request and one header. */
  lemma MallocComplete(h: Heap, size: nat)
    requires WellFormed(h.blocks)
    ensures Malloc(h, size).1 == None
            <==> size == 0 || !HasGap(h.blocks, Rounded(size) + HEADER)
  {
    var bs, n := h.blocks, Rounded(size);
    var k, len := FirstFit(bs, n), n + HEADER;
    if k < |bs| {
      FreeBlockIsGap(bs, k);
      assert Gap(bs, bs[k].addr, len);
    }
    if lo: nat :| Gap(bs, lo, len) {
      var i := GapInOneBlock(bs, lo, len);
      assert Fits(bs[i], n);
    }
  }

  lemma CarveSplit(bs: seq<Block>, k: nat, n: nat) returns (a: Block, r: Block)
    requires k < |bs| && Splits(bs[k], n)
    ensures a == Block(bs[k].addr, n, false) && r == Block(a.End(), bs[k].size - n - HEADER, true)
    ensures Carve(bs, k, n) == bs[..k] + ([a, r] + bs[k + 1..])
  {
    a := Block(bs[k].addr, n, false);
    r := Block(a.End(), bs[k].size - n - HEADER, true);
  }

  lemma CarveKeeps(bs: seq<Block>, k: nat, n: nat)
    requires WellFormed(bs) && k < |bs| && bs[k].free && bs[k].size >= n >= MIN_BLOCK && n % 8 == 0
    ensures WellFormed(Carve(bs, k, n))
  {
    CarveSized(bs, k, n);
    if Splits(bs[k], n) {
      CarveTiles(bs, k, n);
    } else {
      SwitchTiles(bs, k, false, 0, HEAP_SIZE);
      var c := Carve(bs, k, n);
      forall i | 0 <= i < |c| - 1 ensures NotBothFree(c, i) {
        assert NotBothFree(bs, i);
      }
    }
  }

  lemma CarveIndex(bs: seq<Block>, k: nat, n: nat)
    requires k < |bs| && Splits(bs[k], n)
    ensures var c := Carve(bs, k, n);
            && |c| == |bs| + 1 && c[k] == Block(bs[k].addr, n, false) && c[k + 1] == Remainder(bs[k], n)
            && (forall i | 0 <= i < k :: c[i] == bs[i])
            && (forall i {:trigger c[i]} | k + 1 < i < |c| :: c[i] == bs[i - 1])
  {
    hide Splits, Remainder;
    var c, front, back := Carve(bs, k, n), [Block(bs[k].addr, n, false), Remainder(bs[k], n)], bs[k + 1..];
    assert c == bs[..k] + (front + back);
    forall i | k + 1 < i < |c| ensures c[i] == bs[i - 1] {
      assert c[i] == (front + back)[i - k] == back[i - k - 2];
    }
  }

  lemma CarveTiles(bs: seq<Block>, k: nat, n: nat)
    requires WellFormed(bs) && k < |bs| && bs[k].free && Splits(bs[k], n)
    ensures Tiles(Carve(bs, k, n), 0, HEAP_SIZE) && NoTwoFree(Carve(bs, k, n))
  {
    hide Carve, Sized;
    var c := Carve(bs, k, n);
    CarveIndex(bs, k, n);
    assert k > 0 ==> Adjoins(bs, k - 1);
    assert k < |bs| - 1 ==> Adjoins(bs, k) && NotBothFree(bs, k);
    forall i | 0 <= i < |c| - 1 ensures Adjoins(c, i) && NotBothFree(c, i) {
      if i < k - 1 {
        assert Adjoins(bs, i) && NotBothFree(bs, i);
      } else if i > k + 1 {
        assert Adjoins(bs, i - 1) && NotBothFree(bs, i - 1);
      }
    }
  }

  lemma CarveSized(bs: seq<Block>, k: nat, n: nat)
    requires Sized(bs) && k < |bs| && bs[k].size >= n >= MIN_BLOCK && n % 8 == 0
    ensures Sized(Carve(bs, k, n))
  {
    if Splits(bs[k], n) { RestOfEights(bs[k].size, n); }
  }

  lemma RestOfEights(size: nat, n: nat)
    requires size % 8 == 0 && n % 8 == 0
    ensures (size - n - HEADER) % 8 == 0
  {
  }

  lemma LiveParts(a: seq<Block>, b: seq<Block>)
    ensures Live(a + b) == Live(a) + Live(b)
  {
    forall x | x in Live(b) ensures x in Live(a + b) {
      var i :| 0 <= i < |b| && !b[i].free && x == (b[i].Payload(), b[i].size);
      assert (a + b)[|a| + i] == b[i];
    }
    forall x | x in Live(a) ensures x in Live(a + b) {
      var i :| 0 <= i < |a| && !a[i].free && x == (a[i].Payload(), a[i].size);
      assert (a + b)[i] == a[i];
    }
  }

  lemma LiveOne(b: Block)
    ensures Live([b]) == if b.free then {} else {(b.Payload(), b.size)}
  {
    if !b.free { assert [b][0] == b; }
  }

  /** A list seen around its block k. */
  lemma Around(bs: seq<Block>, k: nat)
    requires k < |bs|
    ensures bs == bs[..k] + ([bs[k]] + bs[k + 1..])
  {
  }

  lemma AroundUpdate(bs: seq<Block>, k: nat, b: Block)
    requires k < |bs|
    ensures bs[k := b] == bs[..k] + ([b] + bs[k + 1..])
  {
  }

  lemma LiveAround(bs: seq<Block>, k: nat, mid: seq<Block>)
    requires k < |bs|
    ensures Live(bs[..k] + (mid + bs[k + 1..])) == Live(bs[..k]) + Live(mid) + Live(bs[k + 1..])
  {
    LiveParts(mid, bs[k + 1..]);
    LiveParts(bs[..k], mid + bs[k + 1..]);
  }

  lemma CarveLive(bs: seq<Block>, k: nat, n: nat)
    requires k < |bs| && bs[k].free
    ensures Live(Carve(bs, k, n)) == Live(bs) + {(bs[k].Payload(), Granted(bs[k], n))}
  {
    hide Live;
    Around(bs, k);
    LiveAround(bs, k, [bs[k]]);
    LiveOne(bs[k]);
    if Splits(bs[k], n) {
      var a, r := CarveSplit(bs, k, n);
      LiveAround(bs, k, [a, r]);
      assert [a, r] == [a] + [r];
      LiveParts([a], [r]);
      LiveOne(a);
      LiveOne(r);
    } else {
      var b := bs[k].(free := false);
      AroundUpdate(bs, k, b);
      LiveAround(bs, k, [b]);
      LiveOne(b);
    }
  }

  /** kmalloc on the live allocations: a success adds exactly one, at a new address and at most 56
      bytes larger than the rounded request; a failure changes nothing. */
  lemma MallocLive(h: Heap, size: nat)
    requires WellFormed(h.blocks)
    ensures var (h', r) := Malloc(h, size);
            && WellFormed(h'.blocks)
            && (r == None ==> h' == h)
            && (r.Some? ==> exists g ::
                  && Rounded(size) <= g <= Rounded(size) + 56
                  && (forall x | x in Live(h.blocks) :: x.0 != r.value)
                  && Live(h'.blocks) == Live(h.blocks) + {(r.value, g)})
  {
    var bs, n := h.blocks, Rounded(size);
    var k := FirstFit(bs, n);
    if size != 0 && k < |bs| {
      CarveKeeps(bs, k, n);
      CarveLive(bs, k, n);
      forall x | x in Live(bs) ensures x.0 != bs[k].Payload() {
        var i :| 0 <= i < |bs| && !bs[i].free && x == (bs[i].Payload(), bs[i].size);
        if x.0 == bs[k].Payload() { PayloadUnique(bs, 0, HEAP_SIZE, i, k); }
      }
    }
  }

  /** Block k is the first free one with n bytes. */
  ghost predicate FirstFree(bs: seq<Block>, n: nat, k: nat)
  {
    && k < |bs| && bs[k].free && bs[k].size >= n
    && forall j | 0 <= j < k :: !(bs[j].free && bs[j].size >= n)
  }

  /** What kmalloc grants and what it leaves: the first free block with n bytes is cut if more than 56
      bytes would be left over, and then the rest, less a header of 24, is a free block behind it;
      otherwise it is taken whole.  The counters move by the granted payload and a header. */
  lemma MallocExact(h: Heap, size: nat, k: nat)
    requires size != 0 && FirstFree(h.blocks, Rounded(size), k)
    ensures var bs, n, (h', r) := h.blocks, Rounded(size), Malloc(h, size);
            var z, granted := bs[k].size, if bs[k].size - n > 56 then n else bs[k].size;
            && r == Some(bs[k].addr + 24)
            && |h'.blocks| == (if z - n > 56 then |bs| + 1 else |bs|)
            && h'.blocks[k] == Block(bs[k].addr, granted, false)
            && (z - n > 56 ==> h'.blocks[k + 1] == Block(bs[k].addr + 24 + n, z - n - 24, true))
            && h'.blocks[..k] == bs[..k] && h'.blocks[|h'.blocks| - (|bs| - k - 1)..] == bs[k + 1..]
            && h'.used == (h.used + granted + 24) % 0x1_0000_0000_0000_0000
            && h'.available == (h.available - granted - 24) % 0x1_0000_0000_0000_0000
            && h'.allocations == (h.allocations + 1) % 0x1_0000_0000_0000_0000
  {
    var n := Rounded(size);
    assert FirstFit(h.blocks, n) == k;
    CarveParts(h.blocks, k, n);
  }

  lemma CarveParts(bs: seq<Block>, k: nat, n: nat)
    requires k < |bs| && bs[k].free && bs[k].size >= n
    ensures var c, z := Carve(bs, k, n), bs[k].size;
            && |c| == (if z - n > 56 then |bs| + 1 else |bs|)
            && c[k] == Block(bs[k].addr, if z - n > 56 then n else z, false)
            && (z - n > 56 ==> c[k + 1] == Block(bs[k].addr + 24 + n, z - n - 24, true))
            && c[..k] == bs[..k] && c[|c| - (|bs| - k - 1)..] == bs[k + 1..]
  {
  }

  /** kmalloc fails exactly without such a block, and then changes nothing. */
  lemma MallocFails(h: Heap, size: nat)
    requires size != 0
    ensures Malloc(h, size).1 == None <==> !exists k :: FirstFree(h.blocks, Rounded(size), k)
    ensures Malloc(h, size).1 == None ==> Malloc(h, size).0 == h
  {
    var k := FirstFit(h.blocks, Rounded(size));
    if k < |h.blocks| { assert FirstFree(h.blocks, Rounded(size), k); }
  }

  /** The heaps of the example below. */
  function OneTaken(): Heap { Heap([Block(0, 88, false), Block(112, 1048440, true)], 136, 1048440, 1) }

  function TwoTaken(): Heap
  {
    Heap([Block(0, 88, false), Block(112, 64, false), Block(200, 1048352, true)], 224, 1048352, 2)
  }

  function FirstFreed(): Heap
  {
    Heap([Block(0, 88, true), Block(112, 64, false), Block(200, 1048352, true)], 112, 1048464, 1)
  }

  lemma TakeFirst()
    ensures Malloc(Init(), 88) == (OneTaken(), Some(24))
  {
    hide Malloc;
    var h := Init();
    assert FirstFree(h.blocks, 88, 0);
    MallocExact(h, 88, 0);
    var c := Malloc(h, 88).0.blocks;
    assert c == [c[0], c[1]];
  }

  lemma TakeSecond()
    ensures Malloc(OneTaken(), 64) == (TwoTaken(), Some(136))
  {
    hide Malloc;
    var h := OneTaken();
    assert FirstFree(h.blocks, 64, 1);
    MallocExact(h, 64, 1);
    var c := Malloc(h, 64).0.blocks;
    assert c[..1][0] == h.blocks[0] && c == [c[0], c[1], c[2]];
  }

  lemma FreeFirst()
    ensures Known(TwoTaken(), 24) && Free(TwoTaken(), 24) == FirstFreed()
  {
    var bs := TwoTaken().blocks;
    assert bs[0].Payload() == 24 && IndexOf(bs, 24) == 0;
    var m := bs[0 := bs[0].(free := true)];
    assert m == FirstFreed().blocks;
    assert NoTwoFree(m) by {
      forall i | 0 <= i < |m| - 1 ensures NotBothFree(m, i) {}
    }
    CoalesceSettled(m);
  }

  /** A block with exactly 56 bytes to spare is not cut: after kmalloc(88), kmalloc(64), kfree of the first
      and kmalloc(32) the first block holds 88 bytes and 224 bytes are in use. */
  lemma WholeBlock()
    ensures var h1 := Malloc(Init(), 88).0;
            var h2 := Malloc(h1, 64).0;
            Known(h2, 24) && var (h3, r) := Malloc(Free(h2, 24), 32);
            r == Some(24) && |h3.blocks| == 3 && h3.blocks[0] == Block(0, 88, false) && h3.used == 224
  {
    hide Malloc, Free, Known;
    TakeFirst();
    TakeSecond();
    FreeFirst();
    var h := FirstFreed();
    assert FirstFree(h.blocks, 32, 0);
    MallocExact(h, 32, 0);
  }

  /** Live payloads lie in the heap, apart from each other, and clear of every header. */
  lemma LivePayloadsClear(bs: seq<Block>, x: (nat, nat), j: nat)
    requires WellFormed(bs) && x in Live(bs) && j < |bs|
    ensures x.0 + x.1 <= HEAP_SIZE
    ensures x.0 + x.1 <= bs[j].addr || bs[j].Payload() <= x.0
    ensures !bs[j].free && (bs[j].Payload(), bs[j].size) != x ==> x.0 + x.1 <= bs[j].Payload() || bs[j].End() <= x.0
  {
    var i :| 0 <= i < |bs| && !bs[i].free && x == (bs[i].Payload(), bs[i].size);
    TilesWithin(bs, 0, HEAP_SIZE, i);
    if i < j { TilesOrdered(bs, 0, HEAP_SIZE, i, j); }
    if j < i { TilesOrdered(bs, 0, HEAP_SIZE, j, i); }
  }

  // ----- kfree -----

  lemma OutsideIsNoBlock(bs: seq<Block>, p: int)
    requires WellFormed(bs) && !(0 <= p - HEADER < HEAP_SIZE)
    ensures IndexOf(bs, p) == |bs|
  {
    var k := IndexOf(bs, p);
    if k < |bs| { TilesWithin(bs, 0, HEAP_SIZE, k); }
  }

  lemma FreeKeeps(h: Heap, p: int)
    requires WellFormed(h.blocks) && Known(h, p)
    ensures WellFormed(Free(h, p).blocks)
  {
    var bs := h.blocks;
    var k := IndexOf(bs, p);
    if k < |bs| && !bs[k].free {
      SwitchTiles(bs, k, true, 0, HEAP_SIZE);
      CoalesceKeeps(bs[k := bs[k].(free := true)], 0, HEAP_SIZE);
    }
  }

  /** kfree on the live allocations: it removes the one at p, if there is one, and no other. */
  lemma FreeLive(h: Heap, p: int)
    requires WellFormed(h.blocks) && Known(h, p)
    ensures Live(Free(h, p).blocks) == set x | x in Live(h.blocks) && x.0 != p
  {
    hide IndexOf;
    var bs := h.blocks;
    var k := IndexOf(bs, p);
    if !(0 <= p - HEADER < HEAP_SIZE) { OutsideIsNoBlock(bs, p); }
    forall i | 0 <= i < |bs| && i != k ensures bs[i].Payload() != p {
      if bs[i].Payload() == p && k < |bs| { PayloadUnique(bs, 0, HEAP_SIZE, i, k); }
    }
    if k < |bs| && !bs[k].free {
      var b := bs[k].(free := true);
      CoalesceLive(bs[k := b]);
      assert Live(bs[k := b]) == set x | x in Live(bs) && x.0 != p by {
        forall x | x in Live(bs) && x.0 != p ensures x in Live(bs[k := b]) {
          var i :| 0 <= i < |bs| && !bs[i].free && x == (bs[i].Payload(), bs[i].size);
          assert bs[k := b][i] == bs[i];
        }
      }
    }
  }

  /** Freeing the block just carved gives the old list back. */
  lemma CarveFreed(bs: seq<Block>, k: nat, n: nat)
    requires WellFormed(bs) && k < |bs| && bs[k].free
    ensures var c := Carve(bs, k, n);
            Coalesce(c[k := c[k].(free := true)]) == bs
  {
    var c := Carve(bs, k, n);
    if Splits(bs[k], n) {
      var a, r := CarveSplit(bs, k, n);
      CoalesceRestores(bs, k, a.(free := true), r);
      assert c[k := a.(free := true)] == bs[..k] + ([a.(free := true), r] + bs[k + 1..]);
    } else {
      assert c[k := c[k].(free := true)] == bs;
      CoalesceSettled(bs);
    }
  }

  lemma WordShift(c: int, d: int)
    ensures Word(Word(c) + d) == Word(c + d)
  {
  }

  lemma WordSmall(u: nat)
    requires u < WORD
    ensures Word(u) == u
  {
  }

  lemma WordCancels(u: nat, x: int)
    requires u < WORD
    ensures Word(Word(u + x) - x) == u && Word(Word(u - x) + x) == u
  {
    hide Word;
    WordShift(u + x, -x);
    WordShift(u - x, x);
    WordSmall(u);
  }

  lemma ReleaseCarved(h: Heap, k: nat, n: nat, c: seq<Block>, x: nat)
    requires WellFormed(h.blocks) && k < |h.blocks| && h.blocks[k].free
    requires c == Carve(h.blocks, k, n) && x == Granted(h.blocks[k], n) + HEADER
    requires h.used < WORD && h.available < WORD && h.allocations < WORD
    ensures Release(Heap(c, Word(h.used + x), Word(h.available - x), Word(h.allocations + 1)), k) == h
  {
    hide WellFormed, Word;
    CarveFreed(h.blocks, k, n);
    assert c[k].Extent() == x;
    WordCancels(h.used, x);
    WordCancels(h.available, x);
    WordCancels(h.allocations, 1);
  }

  lemma CarveAt(bs: seq<Block>, k: nat, n: nat)
    requires WellFormed(bs) && k < |bs| && bs[k].free && bs[k].size >= n >= MIN_BLOCK && n % 8 == 0
    ensures var c := Carve(bs, k, n);
            |c| > k && !c[k].free && IndexOf(c, bs[k].Payload()) == k
  {
    CarveKeeps(bs, k, n);
    assert Carve(bs, k, n)[k].Payload() == bs[k].Payload();
    IndexOfIs(Carve(bs, k, n), 0, HEAP_SIZE, k);
  }

  /** kmalloc followed at once by kfree restores the block list and every counter. */
  lemma MallocFree(h: Heap, size: nat)
    requires WellFormed(h.blocks)
    requires h.used < WORD && h.available < WORD && h.allocations < WORD
    requires Malloc(h, size).1.Some?
    ensures var (h', p) := Malloc(h, size);
            Known(h', p.value) && Free(h', p.value) == h
  {
    var n := Rounded(size);
    var k := FirstFit(h.blocks, n);
    TilesWithin(h.blocks, 0, HEAP_SIZE, k);
    CarveAt(h.blocks, k, n);
    ReleaseCarved(h, k, n, Carve(h.blocks, k, n), Granted(h.blocks[k], n) + HEADER);
  }

  lemma AbsorbRestores(bs: seq<Block>, k: nat, a: Block, r: Block)
    requires k < |bs| && bs[k].free && a.free
    requires a.addr == bs[k].addr && r.addr == a.End() && r.End() == bs[k].End()
    ensures Absorb([a, r] + bs[k + 1..]) == bs[k..]
  {
    assert ([a, r] + bs[k + 1..])[2..] == bs[k + 1..];
  }

  lemma CoalesceRestores(bs: seq<Block>, k: nat, a: Block, r: Block)
    requires NoTwoFree(bs) && k < |bs| && bs[k].free && a.free && r.free
    requires a.addr == bs[k].addr && r.addr == a.End() && r.End() == bs[k].End()
    ensures Coalesce(bs[..k] + ([a, r] + bs[k + 1..])) == bs
  {
    hide Absorb;
    var tail := [a, r] + bs[k + 1..];
    AbsorbRestores(bs, k, a, r);
    SettledDrop(bs, k);
    CoalesceSettled(bs[k..]);
    SettledTake(bs, k);
    assert k > 0 ==> NotBothFree(bs, k - 1);
    CoalesceSkips(bs[..k], tail);
    assert bs[..k] + bs[k..] == bs;
  }

  // ----- the counters -----

  lemma {:induction false} BytesParts(a: seq<Block>, b: seq<Block>, free: bool)
    ensures Bytes(a + b, free) == Bytes(a, free) + Bytes(b, free)
    ensures Count(a + b, free) == Count(a, free) + Count(b, free)
  {
    if a == [] {
      assert a + b == b;
    } else {
      assert (a + b)[1..] == a[1..] + b;
      BytesParts(a[1..], b, free);
    }
  }

  lemma BytesAround(bs: seq<Block>, k: nat, mid: seq<Block>, free: bool)
    requires k < |bs|
    ensures Bytes(bs[..k] + (mid + bs[k + 1..]), free)
            == Bytes(bs[..k], free) + Bytes(mid, free) + Bytes(bs[k + 1..], free)
    ensures Count(bs[..k] + (mid + bs[k + 1..]), free)
            == Count(bs[..k], free) + Count(mid, free) + Count(bs[k + 1..], free)
  {
    BytesParts(mid, bs[k + 1..], free);
    BytesParts(bs[..k], mid + bs[k + 1..], free);
  }

  lemma BytesPair(a: Block, r: Block, free: bool)
    ensures Bytes([a, r], free) == Bytes([a], free) + Bytes([r], free)
    ensures Count([a, r], free) == Count([a], free) + Count([r], free)
  {
    assert [a, r] == [a] + [r];
    BytesParts([a], [r], free);
  }

  lemma BytesOne(b: Block, free: bool)
    ensures Bytes([b], free) == if b.free == free then b.Extent() else 0
    ensures Count([b], free) == if b.free == free then 1 else 0
  {
  }

  lemma BytesSwitch(bs: seq<Block>, k: nat, free: bool)
    requires k < |bs| && bs[k].free != free
    ensures var r := bs[k := bs[k].(free := free)];
            && Bytes(r, free) == Bytes(bs, free) + bs[k].Extent()
            && Bytes(r, !free) == Bytes(bs, !free) - bs[k].Extent()
            && Count(r, free) == Count(bs, free) + 1
            && Count(r, !free) == Count(bs, !free) - 1
  {
    var b := bs[k].(free := free);
    Around(bs, k);
    AroundUpdate(bs, k, b);
    BytesAround(bs, k, [bs[k]], free);
    BytesAround(bs, k, [bs[k]], !free);
    BytesAround(bs, k, [b], free);
    BytesAround(bs, k, [b], !free);
  }

  lemma CarveCounts(bs: seq<Block>, k: nat, n: nat)
    requires k < |bs| && bs[k].free
    ensures var x := Granted(bs[k], n) + HEADER;
            && Bytes(Carve(bs, k, n), false) == Bytes(bs, false) + x
            && Bytes(Carve(bs, k, n), true) == Bytes(bs, true) - x
            && Count(Carve(bs, k, n), false) == Count(bs, false) + 1
  {
    hide Bytes, Count;
    if Splits(bs[k], n) {
      var a, r := CarveSplit(bs, k, n);
      Around(bs, k);
      forall free: bool
        ensures Bytes(Carve(bs, k, n), free) == Bytes(bs, free) - Bytes([bs[k]], free) + Bytes([a, r], free)
        ensures Count(Carve(bs, k, n), free) == Count(bs, free) - Count([bs[k]], free) + Count([a, r], free)
      {
        BytesAround(bs, k, [bs[k]], free);
        BytesAround(bs, k, [a, r], free);
      }
      forall free: bool
        ensures Bytes([a, r], free) == if free then r.Extent() else a.Extent()
        ensures Count([a, r], free) == 1
      {
        BytesPair(a, r, free);
        BytesOne(a, free);
        BytesOne(r, free);
      }
      BytesOne(bs[k], true);
      BytesOne(bs[k], false);
    } else {
      BytesSwitch(bs, k, false);
    }
  }

  /** The counters as functions of the block list, in machine words. */
  predicate Counted(h: Heap)
  {
    && h.used == Word(HEADER + Bytes(h.blocks, false))
    && h.available == Word(Bytes(h.blocks, true) - HEADER)
    && h.allocations == Word(Count(h.blocks, false))
  }

  lemma BookedCounted(h: Heap, bs: seq<Block>, x: int, n: int)
    requires Counted(h) && Bytes(bs, false) == Bytes(h.blocks, false) + x
    requires Bytes(bs, true) == Bytes(h.blocks, true) - x && Count(bs, false) == Count(h.blocks, false) + n
    ensures Counted(Booked(h.(blocks := bs), x, n))
  {
    hide Bytes;
    WordShift(HEADER + Bytes(h.blocks, false), x);
    WordShift(Bytes(h.blocks, true) - HEADER, -x);
    WordShift(Count(h.blocks, false), n);
  }

  lemma MallocCounted(h: Heap, size: nat)
    requires Counted(h)
    ensures Counted(Malloc(h, size).0)
  {
    hide Bytes;
    var bs, n := h.blocks, Rounded(size);
    var k := FirstFit(bs, n);
    if size != 0 && k < |bs| {
      CarveCounts(bs, k, n);
      BookedCounted(h, Carve(bs, k, n), Granted(bs[k], n) + HEADER, 1);
    }
  }

  lemma ReleaseCounts(bs: seq<Block>, k: nat)
    requires WellFormed(bs) && k < |bs| && !bs[k].free
    ensures var r := Coalesce(bs[k := bs[k].(free := true)]);
            && Bytes(r, false) == Bytes(bs, false) - bs[k].Extent()
            && Bytes(r, true) == Bytes(bs, true) + bs[k].Extent()
            && Count(r, false) == Count(bs, false) - 1
  {
    BytesSwitch(bs, k, true);
    SwitchTiles(bs, k, true, 0, HEAP_SIZE);
    CoalesceCounts(bs[k := bs[k].(free := true)], 0, HEAP_SIZE);
  }

  lemma ReleaseCounted(h: Heap, k: nat)
    requires Counted(h) && WellFormed(h.blocks) && k < |h.blocks| && !h.blocks[k].free
    ensures Counted(Release(h, k))
  {
    hide Counted, Bytes;
    var bs := h.blocks;
    ReleaseCounts(bs, k);
    BookedCounted(h, Coalesce(bs[k := bs[k].(free := true)]), 0 - bs[k].Extent(), -1);
  }

  lemma FreeCounted(h: Heap, p: int)
    requires Counted(h) && WellFormed(h.blocks) && Known(h, p)
    ensures Counted(Free(h, p))
  {
    var k := IndexOf(h.blocks, p);
    if k < |h.blocks| && !h.blocks[k].free { ReleaseCounted(h, k); }
  }

  lemma {:induction false} BytesTotal(bs: seq<Block>, lo: nat, hi: nat)
    requires Tiles(bs, lo, hi)
    ensures Bytes(bs, false) + Bytes(bs, true) == hi - lo
    decreases |bs|
  {
    if |bs| >= 2 {
      TilesRest(bs, lo, hi);
      BytesTotal(bs[1..], bs[0].End(), hi);
    } else {
      assert bs[1..] == [];
    }
  }

  lemma {:induction false} AllocatedBound(bs: seq<Block>)
    requires Sized(bs)
    ensures (HEADER + MIN_BLOCK) * Count(bs, false) <= Bytes(bs, false)
    ensures (exists i :: 0 <= i < |bs| && bs[i].free) <==> Bytes(bs, true) > 0
    ensures (exists i :: 0 <= i < |bs| && bs[i].free) ==> Bytes(bs, true) >= HEADER + MIN_BLOCK
  {
    if bs != [] {
      var r := bs[1..];
      AllocatedBound(r);
      assert forall i | 1 <= i < |bs| :: bs[i] == r[i - 1];
      if bs[0].free { assert 0 <= 0 < |bs| && bs[0].free; }
      if i :| 0 <= i < |r| && r[i].free { assert bs[i + 1].free; }
    }
  }

  /** The statistics law.  The counters add up and count the live blocks, but free_memory is short
      by one header: it stays below the heap size exactly while some block is free, and when the
      heap is full it has wrapped below zero. */
  lemma StatisticsLaw(h: Heap)
    requires WellFormed(h.blocks) && Counted(h)
    ensures Word(h.used + h.available) == HEAP_SIZE
    ensures h.used == HEADER + Bytes(h.blocks, false)
    ensures h.allocations == Count(h.blocks, false)
    ensures (exists i :: 0 <= i < |h.blocks| && h.blocks[i].free)
            <==> h.available == Bytes(h.blocks, true) - HEADER
    ensures !(exists i :: 0 <= i < |h.blocks| && h.blocks[i].free)
            ==> h.available == WORD - HEADER && h.used == HEAP_SIZE + HEADER
  {
    hide Tiles, Sized, Bytes, Count, Adjoins;
    BytesTotal(h.blocks, 0, HEAP_SIZE);
    AllocatedBound(h.blocks);
  }

  /** A request for the whole heap succeeds, and free_memory wraps below zero. */
  lemma FullHeap()
    ensures var (h, r) := Malloc(Init(), HEAP_SIZE - HEADER);
            && r == Some(HEADER) && WellFormed(h.blocks) && Counted(h)
            && h.available == WORD - HEADER && h.used == HEAP_SIZE + HEADER
  {
    hide WellFormed, Live;
    var bs := InitialBlocks();
    assert bs[1..] == [];
    assert Rounded(HEAP_SIZE - HEADER) == HEAP_SIZE - HEADER && FirstFit(bs, HEAP_SIZE - HEADER) == 0;
    MallocLive(Init(), HEAP_SIZE - HEADER);
    MallocCounted(Init(), HEAP_SIZE - HEADER);
  }

  // ----- whole runs -----

  datatype Call = Alloc(size: nat) | Dealloc(ptr: int)

  predicate CallOk(h: Heap, c: Call)
  {
    match c
    case Alloc(size) => size < WORD
    case Dealloc(p) => Known(h, p)
  }

  function Step(h: Heap, c: Call): Heap
    requires CallOk(h, c)
  {
    match c
    case Alloc(size) => Malloc(h, size).0
    case Dealloc(p) => Free(h, p)
  }

  /** No call passes kfree a pointer into the heap that is not, at that point, a block's payload. */
  predicate Legal(h: Heap, calls: seq<Call>)
    decreases |calls|
  {
    calls == [] || (CallOk(h, calls[0]) && Legal(Step(h, calls[0]), calls[1..]))
  }

  function Run(h: Heap, calls: seq<Call>): Heap
    requires Legal(h, calls)
    decreases |calls|
  {
    if calls == [] then h else Run(Step(h, calls[0]), calls[1..])
  }

  lemma {:induction false} RunKeeps(h: Heap, calls: seq<Call>)
    requires WellFormed(h.blocks) && Counted(h) && Legal(h, calls)
    ensures WellFormed(Run(h, calls).blocks) && Counted(Run(h, calls))
    decreases |calls|
  {
    if calls != [] {
      match calls[0] {
        case Alloc(size) =>
          MallocLive(h, size);
          MallocCounted(h, size);
        case Dealloc(p) =>
          FreeKeeps(h, p);
          FreeCounted(h, p);
      }
      RunKeeps(Step(h, calls[0]), calls[1..]);
    }
  }

  /** After any legal calls the blocks tile the heap, are 8-aligned and at least 32 bytes large, no
      two neighbours are free, and the counters agree with the list. */
  lemma EveryRun(calls: seq<Call>)
    requires Legal(Init(), calls)
    ensures WellFormed(Run(Init(), calls).blocks) && Counted(Run(Init(), calls))
  {
    assert InitialBlocks()[1..] == [];
    RunKeeps(Init(), calls);
  }

  /** Allocation completeness in every reachable heap. */
  lemma EveryRunComplete(calls: seq<Call>, size: nat)
    requires Legal(Init(), calls)
    ensures var h := Run(Init(), calls);
            Malloc(h, size).1 == None <==> size == 0 || !HasGap(h.blocks, Rounded(size) + HEADER)
  {
    EveryRun(calls);
    MallocComplete(Run(Init(), calls), size);
  }

  // ----- freeing everything -----

  function Deallocs(ps: seq<int>): seq<Call>
  {
    if ps == [] then [] else [Dealloc(ps[0])] + Deallocs(ps[1..])
  }

  lemma DeallocsStep(h: Heap, ps: seq<int>)
    requires ps != []
    ensures Deallocs(ps)[0] == Dealloc(ps[0]) && Deallocs(ps)[1..] == Deallocs(ps[1..])
    ensures Legal(h, Deallocs(ps)) <==> Known(h, ps[0]) && Legal(Free(h, ps[0]), Deallocs(ps[1..]))
  {
  }

  lemma {:induction false} DeallocsLive(h: Heap, ps: seq<int>)
    requires WellFormed(h.blocks) && Legal(h, Deallocs(ps))
    ensures Live(Run(h, Deallocs(ps)).blocks) == set x | x in Live(h.blocks) && x.0 !in ps
    decreases |ps|
  {
    if ps != [] {
      DeallocsStep(h, ps);
      FreeKeeps(h, ps[0]);
      FreeLive(h, ps[0]);
      DeallocsLive(Free(h, ps[0]), ps[1..]);
      assert ps == [ps[0]] + ps[1..];
    }
  }

  lemma AllFreeIsInitial(bs: seq<Block>)
    requires WellFormed(bs)
    ensures Live(bs) == {} <==> bs == InitialBlocks()
  {
    if Live(bs) == {} {
      forall i | 0 <= i < |bs| ensures bs[i].free {
        assert (bs[i].Payload(), bs[i].size) !in Live(bs);
      }
      assert |bs| >= 2 ==> NotBothFree(bs, 0);
    }
  }

  lemma InitialCounters(h: Heap)
    requires Counted(h) && h.blocks == InitialBlocks()
    ensures h == Init()
  {
    assert InitialBlocks()[1..] == [];
  }

  /** Freeing pointers in any order takes a heap back to its initial state if and only if every
      live allocation is among them. */
  lemma FreeAllResets(h: Heap, ps: seq<int>)
    requires WellFormed(h.blocks) && Counted(h) && Legal(h, Deallocs(ps))
    ensures Run(h, Deallocs(ps)) == Init() <==> forall x | x in Live(h.blocks) :: x.0 in ps
  {
    var h' := Run(h, Deallocs(ps));
    RunKeeps(h, Deallocs(ps));
    AllFreeIsInitial(h'.blocks);
    if h'.blocks == InitialBlocks() { InitialCounters(h'); }
    DeallocsLive(h, ps);
    assert forall x | x in Live(h.blocks) :: x.0 in ps || x in Live(h'.blocks);
  }

  ghost predicate IsLive(h: Heap, p: int)
  {
    exists x | x in Live(h.blocks) :: x.0 == p
  }

  lemma LiveIsKnown(h: Heap, p: int)
    requires IsLive(h, p)
    ensures Known(h, p)
  {
    var x :| x in Live(h.blocks) && x.0 == p;
    var i :| 0 <= i < |h.blocks| && !h.blocks[i].free && x == (h.blocks[i].Payload(), h.blocks[i].size);
  }

  /** Freeing live allocations, each at most once, is legal in every order: no kfree invalidates
      another live pointer. */
  lemma {:induction false} LiveOnceIsLegal(h: Heap, ps: seq<int>)
    requires WellFormed(h.blocks) && forall i | 0 <= i < |ps| :: IsLive(h, ps[i]) && ps[i] !in ps[i + 1..]
    ensures Legal(h, Deallocs(ps))
    decreases |ps|
  {
    if ps != [] {
      var p, rest := ps[0], ps[1..];
      LiveIsKnown(h, p);
      FreeKeeps(h, p);
      FreeLive(h, p);
      forall i | 0 <= i < |rest| ensures IsLive(Free(h, p), rest[i]) && rest[i] !in rest[i + 1..] {
        assert rest[i] == ps[i + 1] && rest[i + 1..] == ps[i + 2..];
        var x :| x in Live(h.blocks) && x.0 == rest[i];
        assert x in Live(Free(h, p).blocks);
      }
      LiveOnceIsLegal(Free(h, p), rest);
      DeallocsStep(h, ps);
    }
  }
}
