/** Links that lead to a neighbour everywhere, and what a move leaves of them. */
module HeapLinks {
  import opened HeapBytes
  import opened HeapBlocks
  import opened HeapUse
  import opened HeapGrowth

  predicate LinksBehind(bs: seq<Block>, i: nat)
    requires i < |bs|
  {
    bs[i].next == if i + 1 < |bs| then bs[i + 1].addr else 0
  }

  /** Every block but the last one links to the one behind it. */
  predicate Full(bs: seq<Block>) { forall i :: 0 <= i < |bs| ==> LinksBehind(bs, i) }

  lemma SpliceFull(bs: seq<Block>, i: nat, j: nat, ns: seq<Block>)
    requires Full(bs) && i < j <= |bs| && ns != [] && ns[0].addr == bs[i].addr
    requires forall k :: 0 <= k < |ns| - 1 ==> ns[k].next == ns[k + 1].addr
    requires ns[|ns| - 1].next == bs[j - 1].next
    ensures Full(Spliced(bs, i, j, ns))
  {
    var r, n := Spliced(bs, i, j, ns), |ns|;
    assert forall k :: 0 <= k < i ==> r[k] == bs[k];
    assert forall k :: 0 <= k < n ==> r[i + k] == ns[k];
    assert forall k :: i + n <= k < |r| ==> r[k] == bs[k - i - n + j];
    forall k | 0 <= k < |r| ensures LinksBehind(r, k) {
      if k < i {
        assert LinksBehind(bs, k);
        if k + 1 == i { assert r[i + 0] == ns[0]; }
      } else if k < i + n - 1 {
        assert r[k] == ns[k - i] && r[i + (k - i + 1)] == ns[k - i + 1];
      } else if k == i + n - 1 {
        assert r[i + (n - 1)] == ns[n - 1] && LinksBehind(bs, j - 1);
      } else {
        assert LinksBehind(bs, k - i - n + j);
      }
    }
  }

  lemma KallocFull(bs: seq<Block>, end: nat, size: nat)
    requires Full(bs) && (FirstFit(bs, size) < |bs| ==> Fits(bs[FirstFit(bs, size)], size))
    ensures Full(AfterKalloc(bs, end, size))
  {
    var i, r := FirstFit(bs, size), AfterKalloc(bs, end, size);
    if i < |bs| {
      SpliceFull(bs, i, i + 1, Reused(bs, i, size));
    } else {
      assert forall k :: 0 <= k < |bs| - 1 ==> r[k] == bs[k];
      forall k | 0 <= k < |r| ensures LinksBehind(r, k) {
        if k < |bs| - 1 { assert LinksBehind(bs, k); }
      }
    }
  }

  lemma KfreeFull(bs: seq<Block>, i: nat)
    requires Full(bs) && i < |bs|
    ensures Full(AfterKfree(bs, i))
  {
    var n := if Absorbs(bs, i) then 2 else 1;
    assert LinksBehind(bs, i) && LinksBehind(bs, i + n - 1);
    SpliceFull(bs, i, i + n, [Grown(bs, i)]);
    var ms := MergedNext(bs, i);
    if JoinsPrev(bs, i) {
      assert LinksBehind(ms, i);
      SpliceFull(ms, i - 1, i + 1, [Joined(ms, i)]);
      RelinkFull(Spliced(ms, i - 1, i + 1, [Joined(ms, i)]), ms[i].next, ms[i - 1].addr);
    }
  }

  lemma RelinkFull(bs: seq<Block>, a: nat, p: nat)
    requires Full(bs)
    ensures Full(Relinked(bs, a, p))
  {
    var r := Relinked(bs, a, p);
    forall k | 0 <= k < |r| ensures LinksBehind(r, k) { assert LinksBehind(bs, k); }
  }

  /** Growing in place keeps full links, unless it uses the neighbour up. */
  lemma ResizedFull(bs: seq<Block>, i: nat, size: nat)
    requires Full(bs) && i < |bs| && Absorbs(bs, i) && size < Room(bs, i)
    ensures Full(Spliced(bs, i, i + 2, Resized(bs, i, size)))
  {
    assert LinksBehind(bs, i) && LinksBehind(bs, i + 1);
    SpliceFull(bs, i, i + 2, Resized(bs, i, size));
  }

  /** Block `j` is used and called `u`, and its `prev` leads to the block just in front, if there is one. */
  predicate Seated(bs: seq<Block>, j: nat, u: (nat, nat)) {
    IsUsed(bs, j, u) && bs[j].prev == PrevAddr(bs, j)
  }

  lemma SeatedListed(bs: seq<Block>, j: nat, u: (nat, nat))
    requires Seated(bs, j, u)
    ensures PrevListed(bs, j)
  {
    if j > 0 { assert PrevAt(bs, j, j - 1); }
  }

  /** Full links lead to listed blocks. */
  lemma FullListed(bs: seq<Block>, i: nat)
    requires Full(bs) && i < |bs|
    ensures NextListed(bs, i)
  {
    assert LinksBehind(bs, i);
    if i + 1 < |bs| { assert NextAt(bs, i, i + 1); }
  }

  /** What an allocation hands out is seated. */
  lemma KallocSeats(bs: seq<Block>, end: nat, size: nat)
    requires FirstFit(bs, size) < |bs| ==> Fits(bs[FirstFit(bs, size)], size)
    ensures Seated(AfterKalloc(bs, end, size), FirstFit(bs, size), HandedOut(bs, end, size))
  {
    var f, r := FirstFit(bs, size), AfterKalloc(bs, end, size);
    if f < |bs| {
      assert r[f] == Reused(bs, f, size)[0];
    }
  }

  /** Where block `j` is listed after a release of block `i` that takes in no block behind it. */
  function KeptIndex(bs: seq<Block>, i: nat, j: nat): nat
    requires i < |bs|
  {
    if JoinsPrev(bs, i) && j > i then j - 1 else j
  }

  /** Such a release leaves the other used blocks seated. */
  lemma KfreeSeats(bs: seq<Block>, start: nat, end: nat, i: nat, j: nat, u: (nat, nat))
    requires Contiguous(bs, start, end) && Full(bs) && i < |bs| && !Absorbs(bs, i) && j != i && Seated(bs, j, u) &&
             u.0 > 0
    ensures Seated(AfterKfree(bs, i), KeptIndex(bs, i, j), u)
  {
    var ms := MergedNext(bs, i);
    assert forall k :: 0 <= k < |bs| && k != i ==> ms[k] == bs[k];
    assert ms[i] == bs[i].(free := true) && |ms| == |bs| && LinksBehind(bs, i) && LinksBehind(ms, i);
    if JoinsPrev(bs, i) {
      GrownUse(bs, start, end, i);
      forall k | 0 <= k < |ms| ensures Follows(ms, end, k) { assert Follows(bs, end, k); }
      JoinSeats(ms, start, end, i, j, u);
    }
  }

  lemma JoinSeats(bs: seq<Block>, start: nat, end: nat, i: nat, j: nat, u: (nat, nat))
    requires Contiguous(bs, start, end) && 0 < i < |bs| && LinksBehind(bs, i) && bs[i].free && bs[i - 1].free
    requires Seated(bs, j, u) && u.0 > 0
    ensures Seated(MergedPrev(bs, i), if j > i then j - 1 else j, u)
  {
    var js, r, k := Spliced(bs, i - 1, i + 1, [Joined(bs, i)]), MergedPrev(bs, i), if j > i then j - 1 else j;
    assert js[k] == bs[j] && (k > 0 ==> js[k - 1].addr == if j == i + 1 then bs[i - 1].addr else bs[j - 1].addr);
    if j != i + 1 && i + 1 < |bs| {
      Touch(bs, start, end, j);
      Touch(bs, start, end, i + 1);
    }
  }

  /** A move of a block in a fully linked heap leaves it fully linked, and the block seated. */
  lemma MoveSeats(bs: seq<Block>, start: nat, end: nat, i: nat, size: nat, u: (nat, nat)) returns (j: nat)
    requires Contiguous(bs, start, end) && start > 0 && Full(bs) && Releasable(bs, i, u)
    ensures Full(AfterMove(bs, end, i, size)) && Seated(AfterMove(bs, end, i, size), j, HandedOut(bs, end, size))
  {
    FirstFitFits(bs, size);
    StillThere(bs, end, size, i);
    StillReleasable(bs, end, size, i, u);
    KallocTiles(bs, start, end, size);
    KallocFull(bs, end, size);
    KallocSeats(bs, end, size);
    var r, k, f := AfterKalloc(bs, end, size), MovedIndex(bs, size, i), FirstFit(bs, size);
    assert k != f by {
      KallocHandsOut(bs, start, end, size);
      UsedAt(bs, i);
    }
    KfreeFull(r, k);
    Within(bs, start, end);
    KfreeSeats(r, start, EndAfter(bs, end, size), k, f, HandedOut(bs, end, size));
    j := KeptIndex(r, k, f);
  }

  /** A fully linked heap in which block `j` is used, called `u`, and has a `prev` that is not stale. */
  predicate Steady(bs: seq<Block>, j: nat, u: (nat, nat)) {
    Full(bs) && IsUsed(bs, j, u) && PrevListed(bs, j)
  }

  lemma ResizedSteady(bs: seq<Block>, i: nat, size: nat, u: (nat, nat))
    requires Steady(bs, i, u) && Absorbs(bs, i) && size < Room(bs, i)
    ensures Steady(Spliced(bs, i, i + 2, Resized(bs, i, size)), i, (u.0, size))
  {
    var r := Spliced(bs, i, i + 2, Resized(bs, i, size));
    ResizedFull(bs, i, size);
    assert forall k :: 0 <= k < i ==> r[k] == bs[k];
    assert r[i] == Resized(bs, i, size)[0];
    if bs[i].prev != 0 {
      var k: nat :| k < i && PrevAt(bs, i, k);
      assert PrevAt(r, i, k);
    }
  }

  /** What `rekalloc` makes of block `i` where it succeeds, and what it hands out. */
  predicate Regrown(bs: seq<Block>, end: nat, i: nat, size: nat, u: (nat, nat), got: (nat, nat), bs': seq<Block>) {
    && IsUsed(bs, i, u)
    && if Absorbs(bs, i) then
         size <= Room(bs, i) && got == (u.0, size) && bs' == Spliced(bs, i, i + 2, Resized(bs, i, size))
       else
         Releasable(bs, i, u) && got == HandedOut(bs, end, size) && bs' == AfterMove(bs, end, i, size)
  }

  /** Growth keeps a heap steady, unless it uses up the neighbour exactly. */
  lemma RegrownSteady(bs: seq<Block>, start: nat, end: nat, i: nat, size: nat, u: (nat, nat), got: (nat, nat),
                      bs': seq<Block>)
    returns (j: nat)
    requires Contiguous(bs, start, end) && start > 0 && Steady(bs, i, u) && Regrown(bs, end, i, size, u, got, bs')
    requires Absorbs(bs, i) ==> size < Room(bs, i)
    ensures Steady(bs', j, got)
  {
    if Absorbs(bs, i) {
      ResizedSteady(bs, i, size, u);
      j := i;
    } else {
      j := MoveSeats(bs, start, end, i, size, u);
      SeatedListed(bs', j, got);
    }
  }
}
