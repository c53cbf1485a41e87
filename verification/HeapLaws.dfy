/** What every run of the allocator keeps, and what kmalloc and kfree mean for the live allocations. */
module HeapLaws {
  import opened HeapModel

  // ----- tilings -----

  lemma {:induction false} TilesOrdered(bs: seq<Block>, lo: nat, hi: nat, i: nat, j: nat)
    requires Tiles(bs, lo, hi) && i < j < |bs|
    ensures bs[i].End() <= bs[j].addr
  {
    assert Adjoins(bs, j - 1);
    if i + 1 < j { TilesOrdered(bs, lo, hi, i, j - 1); }
  }

  lemma TilesWithin(bs: seq<Block>, lo: nat, hi: nat, i: nat)
    requires Tiles(bs, lo, hi) && i < |bs|
    ensures lo <= bs[i].addr && bs[i].End() <= hi
  {
    if 0 < i { TilesOrdered(bs, lo, hi, 0, i); }
    if i < |bs| - 1 { TilesOrdered(bs, lo, hi, i, |bs| - 1); }
  }

  lemma PayloadUnique(bs: seq<Block>, lo: nat, hi: nat, i: nat, j: nat)
    requires Tiles(bs, lo, hi) && i < |bs| && j < |bs| && bs[i].Payload() == bs[j].Payload()
    ensures i == j
  {
    if i < j { TilesOrdered(bs, lo, hi, i, j); }
    if j < i { TilesOrdered(bs, lo, hi, j, i); }
  }

  lemma IndexOfIs(bs: seq<Block>, lo: nat, hi: nat, i: nat)
    requires Tiles(bs, lo, hi) && i < |bs|
    ensures IndexOf(bs, bs[i].Payload()) == i
  {
    var k := IndexOf(bs, bs[i].Payload());
    assert k <= i;
    PayloadUnique(bs, lo, hi, k, i);
  }

  lemma {:induction false} BlockAround(bs: seq<Block>, lo: nat, hi: nat, a: nat) returns (i: nat)
    requires Tiles(bs, lo, hi) && lo <= a < hi
    ensures i < |bs| && bs[i].addr <= a < bs[i].End()
    decreases |bs|
  {
    if a < bs[0].End() {
      i := 0;
    } else {
      TilesRest(bs, lo, hi);
      i := BlockAround(bs[1..], bs[0].End(), hi, a);
      i := i + 1;
    }
  }

  lemma TilesCons(b: Block, r: seq<Block>, hi: nat)
    requires Tiles(r, b.End(), hi)
    ensures Tiles([b] + r, b.addr, hi)
  {
    var bs := [b] + r;
    forall i | 0 <= i < |bs| - 1 ensures Adjoins(bs, i) {
      if i > 0 { assert Adjoins(r, i - 1); }
    }
  }

  lemma TilesRest(bs: seq<Block>, lo: nat, hi: nat)
    requires Tiles(bs, lo, hi) && |bs| >= 2
    ensures Tiles(bs[1..], bs[0].End(), hi)
  {
    var r := bs[1..];
    assert Adjoins(bs, 0);
    forall i | 0 <= i < |r| - 1 ensures Adjoins(r, i) {
      assert Adjoins(bs, i + 1);
    }
  }

  lemma SwitchTiles(bs: seq<Block>, k: nat, free: bool, lo: nat, hi: nat)
    requires Tiles(bs, lo, hi) && k < |bs|
    ensures Tiles(bs[k := bs[k].(free := free)], lo, hi)
  {
    var r := bs[k := bs[k].(free := free)];
    forall i | 0 <= i < |r| - 1 ensures Adjoins(r, i) {
      assert Adjoins(bs, i);
    }
  }

  lemma SettledCons(b: Block, r: seq<Block>)
    requires r != [] && NoTwoFree(r) && !(b.free && r[0].free)
    ensures NoTwoFree([b] + r)
  {
    var bs := [b] + r;
    forall i | 0 <= i < |bs| - 1 ensures NotBothFree(bs, i) {
      if i > 0 { assert NotBothFree(r, i - 1); }
    }
  }

  lemma SettledDrop(bs: seq<Block>, k: nat)
    requires NoTwoFree(bs) && k <= |bs|
    ensures NoTwoFree(bs[k..])
  {
    var r := bs[k..];
    forall i | 0 <= i < |r| - 1 ensures NotBothFree(r, i) {
      assert NotBothFree(bs, k + i);
    }
  }

  lemma SettledTake(bs: seq<Block>, k: nat)
    requires NoTwoFree(bs) && k <= |bs|
    ensures NoTwoFree(bs[..k])
  {
    var r := bs[..k];
    forall i | 0 <= i < |r| - 1 ensures NotBothFree(r, i) {
      assert NotBothFree(bs, i);
    }
  }

  // ----- the coalescing pass -----

  lemma AbsorbTiles(bs: seq<Block>, lo: nat, hi: nat)
    requires |bs| >= 2 && Tiles(bs, lo, hi)
    ensures Tiles(Absorb(bs), lo, hi)
  {
    var r := Absorb(bs);
    assert Adjoins(bs, 0);
    forall i | 0 <= i < |r| - 1 ensures Adjoins(r, i) {
      assert Adjoins(bs, i + 1);
    }
  }

  lemma AbsorbSized(bs: seq<Block>)
    requires |bs| >= 2 && Sized(bs)
    ensures Sized(Absorb(bs))
  {
    assert (bs[0].size + (HEADER + bs[1].size)) % 8 == 0;
  }

  lemma {:induction false} CoalesceKeeps(bs: seq<Block>, lo: nat, hi: nat)
    requires Tiles(bs, lo, hi) && Sized(bs)
    ensures var r := Coalesce(bs);
            Tiles(r, lo, hi) && Sized(r) && NoTwoFree(r) && r[0].free == bs[0].free
    decreases |bs|
  {
    if |bs| >= 2 {
      assert Adjoins(bs, 0);
      if bs[0].free && bs[1].free {
        AbsorbTiles(bs, lo, hi);
        AbsorbSized(bs);
        CoalesceKeeps(Absorb(bs), lo, hi);
      } else {
        TilesRest(bs, lo, hi);
        CoalesceKeeps(bs[1..], bs[0].End(), hi);
        TilesCons(bs[0], Coalesce(bs[1..]), hi);
        SettledCons(bs[0], Coalesce(bs[1..]));
      }
    }
  }

  /** What a list holds besides free space: used bytes, their number, and who owns them. */
  lemma {:induction false} CoalesceCounts(bs: seq<Block>, lo: nat, hi: nat)
    requires Tiles(bs, lo, hi)
    ensures Bytes(Coalesce(bs), false) == Bytes(bs, false)
    ensures Bytes(Coalesce(bs), true) == Bytes(bs, true)
    ensures Count(Coalesce(bs), false) == Count(bs, false)
    decreases |bs|
  {
    if |bs| >= 2 {
      assert Adjoins(bs, 0);
      if bs[0].free && bs[1].free {
        assert bs[1..][1..] == bs[2..] && Absorb(bs)[1..] == bs[2..];
        AbsorbTiles(bs, lo, hi);
        CoalesceCounts(Absorb(bs), lo, hi);
      } else {
        TilesRest(bs, lo, hi);
        CoalesceCounts(bs[1..], bs[0].End(), hi);
        assert ([bs[0]] + Coalesce(bs[1..]))[1..] == Coalesce(bs[1..]);
      }
    }
  }

  lemma LiveCons(b: Block, r: seq<Block>)
    ensures Live([b] + r) == (if b.free then {} else {(b.Payload(), b.size)}) + Live(r)
  {
    var bs := [b] + r;
    forall x | x in Live(r) ensures x in Live(bs) {
      var i :| 0 <= i < |r| && !r[i].free && x == (r[i].Payload(), r[i].size);
      assert bs[i + 1] == r[i];
    }
    if !b.free { assert bs[0] == b; }
  }

  lemma {:induction false} CoalesceLive(bs: seq<Block>)
    ensures Live(Coalesce(bs)) == Live(bs)
    decreases |bs|
  {
    if |bs| >= 2 {
      LiveCons(bs[0], bs[1..]);
      assert bs == [bs[0]] + bs[1..];
      if bs[0].free && bs[1].free && bs[0].End() == bs[1].addr {
        CoalesceLive(Absorb(bs));
        LiveCons(bs[1], bs[2..]);
        assert bs[1..] == [bs[1]] + bs[2..];
        LiveCons(Absorb(bs)[0], bs[2..]);
      } else {
        CoalesceLive(bs[1..]);
        LiveCons(bs[0], Coalesce(bs[1..]));
      }
    }
  }

  /** A list without two free neighbours comes out of the pass unchanged. */
  lemma {:induction false} CoalesceSettled(bs: seq<Block>)
    requires NoTwoFree(bs)
    ensures Coalesce(bs) == bs
    decreases |bs|
  {
    if |bs| >= 2 {
      assert NotBothFree(bs, 0);
      SettledDrop(bs, 1);
      CoalesceSettled(bs[1..]);
    }
  }

  /** The pass leaves a settled front alone and works on what follows. */
  lemma {:induction false} CoalesceSkips(a: seq<Block>, r: seq<Block>)
    requires NoTwoFree(a) && r != [] && (a != [] ==> !(a[|a| - 1].free && r[0].free))
    ensures Coalesce(a + r) == a + Coalesce(r)
    decreases |a|
  {
    if a == [] {
      assert a + r == r;
    } else {
      var a1 := a[1..];
      assert (a + r)[1..] == a1 + r;
      assert |a| >= 2 ==> NotBothFree(a, 0);
      SettledDrop(a, 1);
      CoalesceSkips(a1, r);
      assert [a[0]] + (a1 + Coalesce(r)) == a + Coalesce(r);
    }
  }
}
