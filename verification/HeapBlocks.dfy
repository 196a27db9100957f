/** What `kalloc`, `kfree` and `rekalloc` do to the list of blocks. */
module HeapBlocks {
  import opened Common
  import opened HeapBytes

  /** `HEAP_MIN_SPLIT_SIZE`. */
  const MIN_SPLIT := 0x20 + HEADER

  /** Multiples of 16. */
  predicate Units(n: nat) { n % HEADER == 0 }

  lemma UnitsTimes(k: nat)
    ensures Units(HEADER * k)
  {
  }

  lemma UnitsMinus(a: nat, b: nat)
    requires Units(a) && Units(b) && a >= b
    ensures Units(a - b) && (a > b ==> a >= b + HEADER)
  {
  }

  /** Requests are rounded up to multiples of 32, in 32-bit arithmetic. */
  function Round(size: nat): (r: nat)
    ensures Units(r) && r < WORD
    ensures size + 0x20 <= WORD ==> size <= r < size + 0x20
  {
    var sum := (0x20 - 1 + size) % WORD;
    var q := sum / 0x20;
    UnitsTimes(2 * q);
    assert sum == 0x20 * q + sum % 0x20;
    q * 0x20
  }

  /** The least multiple of 32 that is large enough, or 0 if that does not fit into 32 bits. */
  lemma RoundsUp(size: nat)
    requires size < WORD
    ensures Round(size) % 0x20 == 0
    ensures size <= WORD - 0x20 ==> size <= Round(size) < size + 0x20
    ensures size > WORD - 0x20 ==> Round(size) == 0
  {
  }

  lemma RoundAgain(size: nat)
    ensures Round(Round(size)) == Round(size)
  {
    var q := (0x20 - 1 + size) % WORD / 0x20;
    assert Round(size) == 0x20 * q && (0x20 - 1 + 0x20 * q) / 0x20 == q;
    assert 0x20 * q + 0x20 <= WORD;
  }

  function PrevAddr(bs: seq<Block>, i: nat): nat
    requires i <= |bs|
  {
    if i == 0 then 0 else bs[i - 1].addr
  }

  // ------------------------------------------------------------------------------------------
  // Allocation
  // ------------------------------------------------------------------------------------------

  predicate Fits(b: Block, size: nat) { b.free && b.size >= size }

  /** The first free block that is large enough, or the number of blocks. */
  function FirstFit(bs: seq<Block>, size: nat): (i: nat)
    ensures i <= |bs|
  {
    if bs == [] || Fits(bs[0], size) then 0 else 1 + FirstFit(bs[1..], size)
  }

  lemma {:induction false} FirstFitIs(bs: seq<Block>, size: nat, i: nat)
    requires i <= |bs| && (forall k :: 0 <= k < i ==> !Fits(bs[k], size)) && (i < |bs| ==> Fits(bs[i], size))
    ensures FirstFit(bs, size) == i
  {
    if i > 0 { FirstFitIs(bs[1..], size, i - 1); }
  }

  /** The blocks that take the place of the one that is reused. */
  function Reused(bs: seq<Block>, i: nat, size: nat): seq<Block>
    requires i < |bs| && bs[i].size >= size
  {
    var b, past := bs[i], PrevAddr(bs, i);
    if b.size - size >= MIN_SPLIT then
      [Block(b.addr, size, false, past, b.addr + HEADER + size),
       Block(b.addr + HEADER + size, b.size - size - HEADER, true, b.prev, b.next)]
    else [b.(free := false, prev := past)]
  }

  /** The last block, now linked to a new one. */
  function Appended(bs: seq<Block>, end: nat, size: nat): seq<Block> {
    var new' := Block(end, size, false, PrevAddr(bs, |bs|), 0);
    if bs == [] then [new'] else [bs[|bs| - 1].(next := end), new']
  }

  function AfterAppend(bs: seq<Block>, end: nat, size: nat): seq<Block> {
    bs[..if |bs| > 0 then |bs| - 1 else 0] + Appended(bs, end, size)
  }

  function AfterKalloc(bs: seq<Block>, end: nat, size: nat): seq<Block>
    requires FirstFit(bs, size) < |bs| ==> Fits(bs[FirstFit(bs, size)], size)
  {
    var i := FirstFit(bs, size);
    if i < |bs| then Spliced(bs, i, i + 1, Reused(bs, i, size))
    else AfterAppend(bs, end, size)
  }

  /** Where the heap ends afterwards. */
  function EndAfter(bs: seq<Block>, end: nat, size: nat): nat {
    if FirstFit(bs, size) < |bs| then end else end + size + HEADER
  }

  /** Block `k` is free and has `size` bytes or more, and none in front of it is; if there is none, `k` is their
      number. */
  predicate LowestFree(bs: seq<Block>, size: nat, k: nat) {
    && k <= |bs| && (k < |bs| ==> bs[k].free && bs[k].size >= size)
    && forall j :: 0 <= j < k ==> !(bs[j].free && bs[j].size >= size)
  }

  lemma {:induction false} FirstFitFits(bs: seq<Block>, size: nat)
    ensures var i := FirstFit(bs, size);
            && (i < |bs| ==> Fits(bs[i], size))
            && (forall k :: 0 <= k < i ==> !Fits(bs[k], size))
            && LowestFree(bs, size, i)
  {
    if bs != [] && !Fits(bs[0], size) {
      FirstFitFits(bs[1..], size);
      var i := FirstFit(bs[1..], size);
      forall k | 0 <= k < i + 1 ensures !Fits(bs[k], size) { if k > 0 { assert bs[k] == bs[1..][k - 1]; } }
    }
  }

  /** Header and payload bytes of all blocks. */
  function TotalBytes(bs: seq<Block>): nat {
    if bs == [] then 0 else HEADER + bs[0].size + TotalBytes(bs[1..])
  }

  /** A tiling accounts for every byte. */
  lemma {:induction false} TilingTotals(bs: seq<Block>, p: nat, end: nat)
    requires Contiguous(bs, p, end)
    ensures TotalBytes(bs) == end - p
    decreases |bs|
  {
    Within(bs, p, end);
    if bs != [] {
      Tail(bs, p, end);
      TilingTotals(bs[1..], bs[0].End(), end);
    }
  }

  /** Every link is null or leads to the block behind. */
  predicate NextSound(bs: seq<Block>) {
    forall i :: 0 <= i < |bs| ==> LinkSound(bs, i)
  }

  predicate LinkSound(bs: seq<Block>, i: nat)
    requires i < |bs|
  {
    bs[i].next == 0 || (i + 1 < |bs| && bs[i].next == bs[i + 1].addr)
  }

  /** The size is a multiple of 16; `prev` is null or leads in front of the block; `next` is null or leads behind it,
      as many bytes as headers and payloads can take. Whether there is still a header is another question. */
  predicate Placed(b: Block, end: nat) {
    Units(b.size) && (b.prev == 0 || b.prev + HEADER <= b.addr) && Ahead(b.End(), b.next, end)
  }

  predicate Ahead(from: nat, a: nat, end: nat) {
    a == 0 || (from <= a && a + HEADER <= end && Units(a - from))
  }

  predicate Regular(bs: seq<Block>, end: nat) {
    forall i :: 0 <= i < |bs| ==> Placed(bs[i], end)
  }

  /** What reuse makes of a block fills the same stretch. */
  lemma ReusedFills(bs: seq<Block>, start: nat, end: nat, i: nat, size: nat)
    requires Contiguous(bs, start, end) && Regular(bs, end) && i < |bs| && bs[i].size >= size && Units(size)
    ensures var ns := Reused(bs, i, size);
            Contiguous(ns, bs[i].addr, bs[i].End()) && Regular(ns, end)
  {
    ReusedPlaced(bs, start, end, i, size);
    assert Contiguous(Reused(bs, i, size), bs[i].addr, bs[i].End());
  }

  lemma ReusedPlaced(bs: seq<Block>, start: nat, end: nat, i: nat, size: nat)
    requires Contiguous(bs, start, end) && Regular(bs, end) && i < |bs| && bs[i].size >= size && Units(size)
    ensures Regular(Reused(bs, i, size), end)
  {
    var past := PrevAddr(bs, i);
    Touch(bs, start, end, i);
    assert Placed(bs[i], end);
    assert past == 0 || past + HEADER <= bs[i].addr;
    if bs[i].size - size >= MIN_SPLIT {
      SplitPlaced(bs[i], end, size, past);
      RegularTwo(Reused(bs, i, size), end);
    } else {
      ClaimPlaced(bs[i], end, past);
    }
  }

  lemma RegularTwo(bs: seq<Block>, end: nat)
    requires |bs| == 2 && Placed(bs[0], end) && Placed(bs[1], end)
    ensures Regular(bs, end)
  {
  }

  lemma ClaimPlaced(b: Block, end: nat, past: nat)
    requires Placed(b, end) && (past == 0 || past + HEADER <= b.addr)
    ensures Placed(b.(free := false, prev := past), end)
  {
    assert b.(free := false, prev := past).End() == b.End();
  }

  lemma SplitPlaced(b: Block, end: nat, size: nat, past: nat)
    requires Placed(b, end) && Units(size) && b.size >= size + MIN_SPLIT && b.End() <= end
    requires past == 0 || past + HEADER <= b.addr
    ensures Placed(Block(b.addr, size, false, past, b.addr + HEADER + size), end)
    ensures Placed(Block(b.addr + HEADER + size, b.size - size - HEADER, true, b.prev, b.next), end)
  {
    RestUnits(b.size, size);
    var first, rest := Block(b.addr, size, false, past, b.addr + HEADER + size),
                       Block(b.addr + HEADER + size, b.size - size - HEADER, true, b.prev, b.next);
    AheadSelf(first.End(), end);
    assert first.next == first.End() && rest.End() == b.End();
  }

  lemma RestUnits(a: nat, b: nat)
    requires Units(a) && Units(b) && a >= b + HEADER
    ensures Units(a - b - HEADER)
  {
    UnitsMinus(a, b);
  }

  lemma AheadSelf(from: nat, end: nat)
    requires from + HEADER <= end
    ensures Ahead(from, from, end)
  {
  }

  /** An address where a header may be is one of a block, or lies in a payload, with all of its header. */
  lemma {:induction false} OnGrid(bs: seq<Block>, start: nat, end: nat, j: nat, a: nat) returns (k: nat)
    requires Contiguous(bs, start, end) && Regular(bs, end) && j <= |bs|
    requires Edge(bs, end, j) <= a && a + HEADER <= end && Units(a - Edge(bs, end, j))
    ensures j <= k < |bs| && (bs[k].addr == a || (bs[k].Payload() <= a && a + HEADER <= bs[k].End()))
    decreases |bs| - j
  {
    Touch(bs, start, end, j);
    assert Placed(bs[j], end);
    var d, n := a - bs[j].addr, bs[j].size + HEADER;
    k := j;
    if d > 0 {
      UnitsMinus(d, 0);
      assert Units(n);
      if d < n {
        UnitsMinus(n, d);
      } else {
        UnitsMinus(d, n);
        k := OnGrid(bs, start, end, j + 1, a);
      }
    }
  }

  /** What a release makes of a block, and of the one behind it, fills the same stretch. */
  lemma GrownFills(bs: seq<Block>, start: nat, end: nat, i: nat)
    requires Contiguous(bs, start, end) && Regular(bs, end) && i < |bs|
    ensures var n := if Absorbs(bs, i) then 2 else 1;
            Contiguous([Grown(bs, i)], bs[i].addr, Edge(bs, end, i + n)) && Regular([Grown(bs, i)], end)
  {
    Touch(bs, start, end, i);
    assert Placed(bs[i], end);
    if Absorbs(bs, i) {
      Touch(bs, start, end, i + 1);
      SumAligned(bs[i].size, bs[i + 1].size);
      assert Placed(bs[i + 1], end);
    }
  }

  lemma SumAligned(a: nat, b: nat)
    requires Units(a) && Units(b)
    ensures Units(a + b + HEADER)
  {
  }

  /** Two joined blocks fill the same stretch as before. */
  lemma JoinedFills(bs: seq<Block>, start: nat, end: nat, i: nat)
    requires Contiguous(bs, start, end) && Regular(bs, end) && 0 < i < |bs|
    ensures Contiguous([Joined(bs, i)], bs[i - 1].addr, Edge(bs, end, i + 1)) && Regular([Joined(bs, i)], end)
  {
    Touch(bs, start, end, i - 1);
    Touch(bs, start, end, i);
    assert Placed(bs[i - 1], end) && Placed(bs[i], end);
    SumAligned(bs[i - 1].size, bs[i].size);
  }

  /** A join leaves a tiling. */
  lemma MergedFills(bs: seq<Block>, start: nat, end: nat, i: nat)
    requires Contiguous(bs, start, end) && Regular(bs, end) && 0 < i < |bs|
    ensures Contiguous(MergedPrev(bs, i), start, end) && Regular(MergedPrev(bs, i), end)
  {
    JoinedFills(bs, start, end, i);
    SpliceFills(bs, start, end, i - 1, i + 1, [Joined(bs, i)]);
    RegularSplice(bs, end, i - 1, i + 1, [Joined(bs, i)]);
    Touch(bs, start, end, i - 1);
    Touch(bs, start, end, i);
    assert Placed(bs[i], end);
    RelinkFills(Spliced(bs, i - 1, i + 1, [Joined(bs, i)]), start, end, bs[i].next, bs[i - 1].addr);
  }

  lemma RelinkFills(bs: seq<Block>, start: nat, end: nat, a: nat, p: nat)
    requires Contiguous(bs, start, end) && Regular(bs, end) && (a == 0 || p + HEADER <= a)
    ensures Contiguous(Relinked(bs, a, p), start, end) && Regular(Relinked(bs, a, p), end)
  {
    var r := Relinked(bs, a, p);
    forall k | 0 <= k < |bs| ensures Follows(r, end, k) && Placed(r[k], end) {
      assert Follows(bs, end, k) && Placed(bs[k], end);
    }
  }

  /** A new block behind the others makes the tiling longer. */
  lemma AppendedFills(bs: seq<Block>, start: nat, end: nat, size: nat, e: nat)
    requires Contiguous(bs, start, end) && Regular(bs, end) && Units(size) && e == end + size + HEADER
    ensures Contiguous(AfterAppend(bs, end, size), start, e) && Regular(AfterAppend(bs, end, size), e)
  {
    var r := AfterAppend(bs, end, size);
    if bs != [] { Touch(bs, start, end, |bs| - 1); }
    forall i | 0 <= i < |r| ensures Follows(r, e, i) && Placed(r[i], e) {
      if i < |bs| { assert Follows(bs, end, i) && Placed(bs[i], end); }
    }
  }

  /** An allocation leaves a tiling. */
  lemma KallocTiles(bs: seq<Block>, start: nat, end: nat, size: nat)
    requires Contiguous(bs, start, end) && (FirstFit(bs, size) < |bs| ==> Fits(bs[FirstFit(bs, size)], size))
    ensures Contiguous(AfterKalloc(bs, end, size), start, EndAfter(bs, end, size))
  {
    var i, r, e := FirstFit(bs, size), AfterKalloc(bs, end, size), EndAfter(bs, end, size);
    if i < |bs| {
      Touch(bs, start, end, i);
      assert Contiguous(Reused(bs, i, size), bs[i].addr, bs[i].End());
      SpliceFills(bs, start, end, i, i + 1, Reused(bs, i, size));
    } else {
      forall k | 0 <= k < |r| ensures Follows(r, e, k) {
        if k < |bs| { assert Follows(bs, end, k); }
      }
    }
  }

  lemma RegularSplice(bs: seq<Block>, end: nat, i: nat, j: nat, ns: seq<Block>)
    requires Regular(bs, end) && i <= j <= |bs| && Regular(ns, end)
    ensures Regular(Spliced(bs, i, j, ns), end)
  {
    var r := Spliced(bs, i, j, ns);
    forall k | 0 <= k < |r| ensures Placed(r[k], end) {
      assert r[k] == if k < i then bs[k] else if k < i + |ns| then ns[k - i] else bs[k - i - |ns| + j];
    }
  }

  /** A new stretch of blocks, linked inside and at its end like the old one, keeps the links sound. */
  lemma SpliceLinks(bs: seq<Block>, i: nat, j: nat, ns: seq<Block>)
    requires NextSound(bs) && i < j <= |bs| && ns != [] && ns[0].addr == bs[i].addr
    requires forall k :: 0 <= k < |ns| - 1 ==> ns[k].next == 0 || ns[k].next == ns[k + 1].addr
    requires ns[|ns| - 1].next == 0 || ns[|ns| - 1].next == bs[j - 1].next
    ensures NextSound(Spliced(bs, i, j, ns))
  {
    var r, n := Spliced(bs, i, j, ns), |ns|;
    assert forall k :: 0 <= k < i ==> r[k] == bs[k];
    assert forall k :: 0 <= k < n ==> r[i + k] == ns[k];
    assert forall k :: i + n <= k < |r| ==> r[k] == bs[k - i - n + j];
    forall k | 0 <= k < |r| ensures LinkSound(r, k) {
      if k < i {
        assert LinkSound(bs, k);
        if k + 1 == i { assert r[i + 0] == ns[0]; }
      } else if k < i + n - 1 {
        assert r[k] == ns[k - i] && r[i + (k - i + 1)] == ns[k - i + 1];
      } else if k == i + n - 1 {
        assert r[i + (n - 1)] == ns[n - 1] && LinkSound(bs, j - 1);
      } else {
        assert LinkSound(bs, k - i - n + j);
      }
    }
  }

  /** Links stay sound through an allocation. */
  lemma KallocLinks(bs: seq<Block>, start: nat, end: nat, size: nat)
    requires NextSound(bs) && Contiguous(bs, start, end)
    requires FirstFit(bs, size) < |bs| ==> Fits(bs[FirstFit(bs, size)], size)
    ensures NextSound(AfterKalloc(bs, end, size))
  {
    var i, r := FirstFit(bs, size), AfterKalloc(bs, end, size);
    if i < |bs| {
      SpliceLinks(bs, i, i + 1, Reused(bs, i, size));
    } else if bs != [] {
      assert forall k :: 0 <= k < |bs| - 1 ==> r[k] == bs[k];
      forall k | 0 <= k < |r| ensures LinkSound(r, k) {
        if k < |bs| - 1 { assert LinkSound(bs, k); }
      }
    }
  }

  // ------------------------------------------------------------------------------------------
  // Release
  // ------------------------------------------------------------------------------------------

  /** The block behind is free and linked to. */
  predicate Absorbs(bs: seq<Block>, i: nat)
    requires i < |bs|
  {
    i + 1 < |bs| && bs[i].next == bs[i + 1].addr && bs[i + 1].free
  }

  /** Block `i`, now free, with the free block behind it merged in. */
  function Grown(bs: seq<Block>, i: nat): Block
    requires i < |bs|
  {
    var b := bs[i].(free := true);
    if Absorbs(bs, i) then b.(size := b.size + bs[i + 1].size + HEADER, next := bs[i + 1].next) else b
  }

  function MergedNext(bs: seq<Block>, i: nat): (r: seq<Block>)
    requires i < |bs|
    ensures i < |r| && r[i] == Grown(bs, i) && forall k :: 0 <= k < i ==> r[k] == bs[k]
  {
    Spliced(bs, i, i + if Absorbs(bs, i) then 2 else 1, [Grown(bs, i)])
  }

  /** The block that takes the place of a free block and block `i` behind it. */
  function Joined(bs: seq<Block>, i: nat): Block
    requires 0 < i < |bs|
  {
    bs[i - 1].(size := bs[i - 1].size + bs[i].size + HEADER, next := bs[i].next)
  }

  /** If the block is at `a`, its `prev` is `p` now. */
  function Repointed(b: Block, a: nat, p: nat): Block { if a != 0 && b.addr == a then b.(prev := p) else b }

  function Relinked(bs: seq<Block>, a: nat, p: nat): (r: seq<Block>)
    ensures |r| == |bs| && forall k :: 0 <= k < |bs| ==> r[k] == Repointed(bs[k], a, p)
  {
    seq(|bs|, k requires 0 <= k < |bs| => Repointed(bs[k], a, p))
  }

  function MergedPrev(bs: seq<Block>, i: nat): seq<Block>
    requires 0 < i < |bs|
  {
    Relinked(Spliced(bs, i - 1, i + 1, [Joined(bs, i)]), bs[i].next, bs[i - 1].addr)
  }

  /** The block in front is free, and `prev` leads to it. */
  predicate JoinsPrev(bs: seq<Block>, i: nat)
    requires i < |bs|
  {
    i > 0 && bs[i].prev == bs[i - 1].addr && bs[i - 1].free
  }

  function AfterKfree(bs: seq<Block>, i: nat): seq<Block>
    requires i < |bs|
  {
    if JoinsPrev(bs, i) then MergedPrev(MergedNext(bs, i), i) else MergedNext(bs, i)
  }

  lemma RelinkLinks(bs: seq<Block>, a: nat, p: nat)
    requires NextSound(bs)
    ensures NextSound(Relinked(bs, a, p))
  {
    var r := Relinked(bs, a, p);
    forall k | 0 <= k < |r| ensures LinkSound(r, k) { assert LinkSound(bs, k); }
  }

  /** Links stay sound through a release. */
  lemma KfreeLinks(bs: seq<Block>, i: nat)
    requires NextSound(bs) && i < |bs|
    ensures NextSound(AfterKfree(bs, i))
  {
    var n := if Absorbs(bs, i) then 2 else 1;
    assert LinkSound(bs, i) && LinkSound(bs, i + n - 1);
    SpliceLinks(bs, i, i + n, [Grown(bs, i)]);
    var ms := MergedNext(bs, i);
    if JoinsPrev(bs, i) {
      var js := Spliced(ms, i - 1, i + 1, [Joined(ms, i)]);
      SpliceLinks(ms, i - 1, i + 1, [Joined(ms, i)]);
      RelinkLinks(js, ms[i].next, ms[i - 1].addr);
    }
  }
}
