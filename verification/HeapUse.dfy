/** Which blocks of the heap are handed out. */
module HeapUse {
  import opened HeapBytes
  import opened HeapBlocks

  /** The used blocks: where each starts, and how long it is. */
  function Used(bs: seq<Block>): set<(nat, nat)> {
    set b | b in bs && !b.free :: (b.addr, b.size)
  }

  lemma UsedPlus(a: seq<Block>, b: seq<Block>)
    ensures Used(a + b) == Used(a) + Used(b)
  {
    assert forall x :: x in a + b <==> x in a || x in b;
  }

  lemma UsedSpliced(bs: seq<Block>, i: nat, j: nat, ns: seq<Block>)
    requires i <= j <= |bs|
    ensures Used(Spliced(bs, i, j, ns)) == Used(bs[..i]) + Used(ns) + Used(bs[j..])
    ensures Used(bs) == Used(bs[..i]) + Used(bs[i..j]) + Used(bs[j..])
  {
    UsedPlus(bs[..i] + ns, bs[j..]);
    UsedPlus(bs[..i], ns);
    UsedPlus(bs[..i] + bs[i..j], bs[j..]);
    UsedPlus(bs[..i], bs[i..j]);
    assert bs == bs[..i] + bs[i..j] + bs[j..];
  }

  /** Addresses tell blocks apart. */
  lemma UsedOnce(bs: seq<Block>, p: nat, end: nat, i: nat, size: nat)
    requires Contiguous(bs, p, end) && i < |bs|
    ensures (bs[i].addr, size) !in Used(bs[..i]) + Used(bs[i + 1..])
  {
    Touch(bs, p, end, i);
    forall b | b in bs[..i] ensures b.addr != bs[i].addr {
      var k :| 0 <= k < i && bs[..i][k] == b;
      assert b == bs[k] && bs[k].End() <= bs[i].addr;
    }
    forall b | b in bs[i + 1..] ensures b.addr != bs[i].addr {
      var k :| 0 <= k < |bs| - i - 1 && bs[i + 1..][k] == b;
      assert b == bs[k + i + 1] && bs[i].End() <= bs[k + i + 1].addr;
    }
  }

  function HandedOut(bs: seq<Block>, end: nat, size: nat): (nat, nat) {
    var i := FirstFit(bs, size);
    (Edge(bs, end, i), if i < |bs| && bs[i].size < size + MIN_SPLIT then bs[i].size else size)
  }

  /** What an allocation makes of the blocks and the end of the heap, and what it hands out. */
  predicate Allocated(bs: seq<Block>, end: nat, size: nat, got: (nat, nat), bs': seq<Block>, end': nat) {
    && (FirstFit(bs, size) < |bs| ==> Fits(bs[FirstFit(bs, size)], size))
    && got == HandedOut(bs, end, size) && bs' == AfterKalloc(bs, end, size) && end' == EndAfter(bs, end, size)
  }

  /** An allocation hands out one block more, and leaves all others alone. */
  lemma KallocHandsOut(bs: seq<Block>, start: nat, end: nat, size: nat)
    requires Contiguous(bs, start, end)
    requires FirstFit(bs, size) < |bs| ==> Fits(bs[FirstFit(bs, size)], size)
    ensures Used(AfterKalloc(bs, end, size)) == Used(bs) + {HandedOut(bs, end, size)}
    ensures HandedOut(bs, end, size) !in Used(bs)
  {
    if FirstFit(bs, size) < |bs| {
      ReuseHandsOut(bs, start, end, size);
    } else {
      AppendHandsOut(bs, start, end, size);
    }
  }

  lemma ReuseHandsOut(bs: seq<Block>, start: nat, end: nat, size: nat)
    requires Contiguous(bs, start, end)
    requires FirstFit(bs, size) < |bs| && Fits(bs[FirstFit(bs, size)], size)
    ensures Used(AfterKalloc(bs, end, size)) == Used(bs) + {HandedOut(bs, end, size)}
    ensures HandedOut(bs, end, size) !in Used(bs)
  {
    var i, got := FirstFit(bs, size), HandedOut(bs, end, size);
    var ns := Reused(bs, i, size);
    UsedSpliced(bs, i, i + 1, ns);
    assert bs[i..i + 1] == [bs[i]] && Used([bs[i]]) == {};
    assert ns[0] in ns && forall b :: b in ns && !b.free ==> b == ns[0];
    assert Used(ns) == {got};
    UsedOnce(bs, start, end, i, got.1);
  }

  lemma AppendHandsOut(bs: seq<Block>, start: nat, end: nat, size: nat)
    requires Contiguous(bs, start, end) && FirstFit(bs, size) == |bs|
    ensures Used(AfterKalloc(bs, end, size)) == Used(bs) + {HandedOut(bs, end, size)}
    ensures HandedOut(bs, end, size) !in Used(bs)
  {
    var ns, last := Appended(bs, end, size), Block(end, size, false, PrevAddr(bs, |bs|), 0);
    Within(bs, start, end);
    UsedOne(last);
    if bs != [] {
      var n := |bs| - 1;
      UsedSpliced(bs, n, n + 1, ns);
      assert bs[n..n + 1] == [bs[n]] && bs[n + 1..] == [] && AfterAppend(bs, end, size) == Spliced(bs, n, n + 1, ns);
      UsedOne(bs[n]);
      UsedOne(bs[n].(next := end));
      UsedPlus([bs[n].(next := end)], [last]);
    } else {
      assert AfterAppend(bs, end, size) == [last];
    }
  }

  /** The blocks but for their links. */
  function Shape(bs: seq<Block>): (r: seq<Block>)
    ensures |r| == |bs| && forall k :: 0 <= k < |bs| ==> r[k] == bs[k].(prev := 0, next := 0)
  {
    seq(|bs|, k requires 0 <= k < |bs| => bs[k].(prev := 0, next := 0))
  }

  lemma ShapePlus(a: seq<Block>, b: seq<Block>)
    ensures Shape(a + b) == Shape(a) + Shape(b)
  {
  }

  lemma ShapeSpliced(bs: seq<Block>, i: nat, j: nat, ns: seq<Block>)
    requires i <= j <= |bs|
    ensures Shape(Spliced(bs, i, j, ns)) == Shape(bs)[..i] + Shape(ns) + Shape(bs)[j..]
  {
    ShapePlus(bs[..i] + ns, bs[j..]);
    ShapePlus(bs[..i], ns);
    assert Shape(bs[..i]) == Shape(bs)[..i] && Shape(bs[j..]) == Shape(bs)[j..];
  }

  /** What an allocation makes of the blocks: the lowest free one that is large enough is handed out, split if at least
      48 bytes are left over; if there is none, a new one is added at the end. */
  lemma KallocShape(bs: seq<Block>, end: nat, size: nat, k: nat)
    requires LowestFree(bs, size, k)
    ensures FirstFit(bs, size) == k && (k < |bs| ==> Fits(bs[k], size))
    ensures HandedOut(bs, end, size)
         == if k == |bs| then (end, size)
            else (bs[k].addr, if bs[k].size - size >= 0x30 then size else bs[k].size)
    ensures EndAfter(bs, end, size) == if k == |bs| then end + 0x10 + size else end
    ensures Shape(AfterKalloc(bs, end, size))
         == Shape(bs)[..k]
            + (if k == |bs| then [Block(end, size, false, 0, 0)]
               else if bs[k].size - size >= 0x30 then
                 [Block(bs[k].addr, size, false, 0, 0),
                  Block(bs[k].addr + 0x10 + size, bs[k].size - size - 0x10, true, 0, 0)]
               else [Block(bs[k].addr, bs[k].size, false, 0, 0)])
            + Shape(bs)[if k < |bs| then k + 1 else k..]
  {
    FirstFitIs(bs, size, k);
    if k < |bs| {
      ShapeSpliced(bs, k, k + 1, Reused(bs, k, size));
      ReusedShape(bs, k, size);
    } else {
      AppendedShape(bs, end, size);
    }
  }

  lemma ReusedShape(bs: seq<Block>, k: nat, size: nat)
    requires k < |bs| && bs[k].free && bs[k].size >= size
    ensures Shape(Reused(bs, k, size))
         == if bs[k].size - size >= 0x30 then
              [Block(bs[k].addr, size, false, 0, 0),
               Block(bs[k].addr + 0x10 + size, bs[k].size - size - 0x10, true, 0, 0)]
            else [Block(bs[k].addr, bs[k].size, false, 0, 0)]
  {
  }

  /** The links afterwards: the block handed out leads to the one just in front, and a rest keeps the links of the block
      it was cut from; a new block is linked to by the last one. */
  lemma KallocRelinks(bs: seq<Block>, end: nat, size: nat, k: nat)
    requires LowestFree(bs, size, k)
    ensures FirstFit(bs, size) == k && (k < |bs| ==> Fits(bs[k], size))
    ensures var (r, d) := (AfterKalloc(bs, end, size), |AfterKalloc(bs, end, size)| - |bs|);
            && d == (if k == |bs| || bs[k].size - size >= 0x30 then 1 else 0)
            && r[k].prev == (if k == 0 then 0 else bs[k - 1].addr)
            && (k < |bs| ==> r[k + d].next == bs[k].next)
            && (k < |bs| && d == 1 ==> r[k].next == r[k + 1].addr && r[k + 1].prev == bs[k].prev)
            && (k == |bs| ==> r[k].next == 0 && (k > 0 ==> r[k - 1] == bs[k - 1].(next := end)))
            && (forall j :: 0 <= j < k && (k < |bs| || j < k - 1) ==> r[j] == bs[j])
            && (forall j :: k < j < |bs| ==> r[j + d] == bs[j])
  {
    FirstFitIs(bs, size, k);
  }

  lemma AppendedShape(bs: seq<Block>, end: nat, size: nat)
    ensures Shape(AfterAppend(bs, end, size)) == Shape(bs) + [Block(end, size, false, 0, 0)]
  {
    var r := AfterAppend(bs, end, size);
    forall k | 0 <= k < |r| ensures Shape(r)[k] == (Shape(bs) + [Block(end, size, false, 0, 0)])[k] {
      if k < |bs| - 1 { assert r[k] == bs[k]; }
    }
  }

  lemma UsedOne(b: Block)
    ensures Used([b]) == if b.free then {} else {(b.addr, b.size)}
  {
    assert b in [b];
  }

  /** A release takes back that block, and leaves all others alone. */
  lemma KfreeTakesBack(bs: seq<Block>, start: nat, end: nat, i: nat)
    requires Contiguous(bs, start, end) && i < |bs|
    ensures Used(AfterKfree(bs, i)) == Used(bs) - {(bs[i].addr, bs[i].size)}
  {
    GrownUse(bs, start, end, i);
    if JoinsPrev(bs, i) { JoinedUse(MergedNext(bs, i), i); }
  }

  /** What a release makes of them: one free block takes the place of the released one, of the free block just behind,
      if `next` leads there, and of the free block just in front, if `prev` leads there. */
  lemma KfreeShape(bs: seq<Block>, start: nat, end: nat, i: nat)
    requires Contiguous(bs, start, end) && i < |bs|
    ensures var lo := if i > 0 && bs[i - 1].free && bs[i].prev == bs[i - 1].addr then i - 1 else i;
            var hi := if i + 1 < |bs| && bs[i + 1].free && bs[i].next == bs[i + 1].addr then i + 2 else i + 1;
            && bs[lo].addr + 0x10 <= Edge(bs, end, hi)
            && Shape(AfterKfree(bs, i))
               == Shape(bs)[..lo] + [Block(bs[lo].addr, Edge(bs, end, hi) - bs[lo].addr - 0x10, true, 0, 0)]
                  + Shape(bs)[hi..]
  {
    if JoinsPrev(bs, i) {
      JoinedShape(bs, start, end, i);
    } else {
      MergedShape(bs, start, end, i);
    }
  }

  /** The links afterwards: the free block has `prev` of the first and `next` of the last one that it is made of. If the
      block in front has taken it in, what it links to links back to that one. No other link changes. */
  lemma KfreeRelinks(bs: seq<Block>, i: nat, j: nat)
    requires i < |bs| && j < |bs|
    ensures var joins := i > 0 && bs[i - 1].free && bs[i].prev == bs[i - 1].addr;
            var (lo, hi) := (if joins then i - 1 else i,
                             if i + 1 < |bs| && bs[i + 1].free && bs[i].next == bs[i + 1].addr then i + 2 else i + 1);
            var (r, next) := (AfterKfree(bs, i), bs[hi - 1].next);
            && |r| == |bs| - (hi - lo) + 1
            && (next != bs[lo].addr ==> r[lo].prev == bs[lo].prev) && r[lo].next == next
            && (j < lo || j >= hi ==>
                  r[if j < lo then j else j - hi + lo + 1] ==
                  if joins && next != 0 && bs[j].addr == next then bs[j].(prev := bs[lo].addr) else bs[j])
  {
    if JoinsPrev(bs, i) {
      BothRelinks(bs, i, j);
    } else {
      GrownRelinks(bs, i, j);
    }
  }

  lemma BothRelinks(bs: seq<Block>, i: nat, j: nat)
    requires i < |bs| && j < |bs| && JoinsPrev(bs, i)
    ensures var hi := if Absorbs(bs, i) then i + 2 else i + 1;
            var (r, next, a) := (AfterKfree(bs, i), bs[hi - 1].next, bs[i - 1].addr);
            && |r| == |bs| - hi + i && (next != a ==> r[i - 1].prev == bs[i - 1].prev) && r[i - 1].next == next
            && (j < i - 1 || j >= hi ==> r[if j < i - 1 then j else j - hi + i] == Repointed(bs[j], next, a))
  {
    var hi := if Absorbs(bs, i) then i + 2 else i + 1;
    GrownRelinks(bs, i, j);
    GrownRelinks(bs, i, i - 1);
    JoinedRelinks(MergedNext(bs, i), i, if j < i then j else if j < hi then i else j - hi + i + 1);
  }

  lemma GrownRelinks(bs: seq<Block>, i: nat, j: nat)
    requires i < |bs| && j < |bs|
    ensures var (r, hi) := (MergedNext(bs, i), if Absorbs(bs, i) then i + 2 else i + 1);
            && |r| == |bs| - (hi - i) + 1 && r[i].prev == bs[i].prev && r[i].next == bs[hi - 1].next
            && r[i].addr == bs[i].addr && (j < i ==> r[j] == bs[j]) && (j >= hi ==> r[j - hi + i + 1] == bs[j])
  {
  }

  lemma JoinedRelinks(bs: seq<Block>, i: nat, j: nat)
    requires 0 < i < |bs| && j < |bs|
    ensures var (r, next, a) := (MergedPrev(bs, i), bs[i].next, bs[i - 1].addr);
            && |r| == |bs| - 1 && (next != a ==> r[i - 1].prev == bs[i - 1].prev) && r[i - 1].next == next
            && (j < i - 1 ==> r[j] == Repointed(bs[j], next, a))
            && (j > i ==> r[j - 1] == Repointed(bs[j], next, a))
  {
    var js := Spliced(bs, i - 1, i + 1, [Joined(bs, i)]);
    assert j < i - 1 ==> js[j] == bs[j];
    assert j > i ==> js[j - 1] == bs[j];
  }

  lemma GrownShape(bs: seq<Block>, start: nat, end: nat, i: nat)
    requires Contiguous(bs, start, end) && i < |bs|
    ensures var hi := if Absorbs(bs, i) then i + 2 else i + 1;
            && bs[i].addr + HEADER <= Edge(bs, end, hi)
            && Shape([Grown(bs, i)]) == [Block(bs[i].addr, Edge(bs, end, hi) - bs[i].addr - HEADER, true, 0, 0)]
  {
    Touch(bs, start, end, i);
    if Absorbs(bs, i) { Touch(bs, start, end, i + 1); }
  }

  lemma MergedShape(bs: seq<Block>, start: nat, end: nat, i: nat)
    requires Contiguous(bs, start, end) && i < |bs|
    ensures var hi := if Absorbs(bs, i) then i + 2 else i + 1;
            && bs[i].addr + HEADER <= Edge(bs, end, hi)
            && Shape(MergedNext(bs, i))
               == Shape(bs)[..i] + [Block(bs[i].addr, Edge(bs, end, hi) - bs[i].addr - HEADER, true, 0, 0)]
                  + Shape(bs)[hi..]
  {
    GrownShape(bs, start, end, i);
    ShapeSpliced(bs, i, if Absorbs(bs, i) then i + 2 else i + 1, [Grown(bs, i)]);
  }

  lemma JoinedShape(bs: seq<Block>, start: nat, end: nat, i: nat)
    requires Contiguous(bs, start, end) && i < |bs| && JoinsPrev(bs, i)
    ensures var hi := if Absorbs(bs, i) then i + 2 else i + 1;
            && bs[i - 1].addr + HEADER <= Edge(bs, end, hi)
            && Shape(MergedPrev(MergedNext(bs, i), i))
               == Shape(bs)[..i - 1] + [Block(bs[i - 1].addr, Edge(bs, end, hi) - bs[i - 1].addr - HEADER, true, 0, 0)]
                  + Shape(bs)[hi..]
  {
    var ms := MergedNext(bs, i);
    Touch(bs, start, end, i - 1);
    GrownShape(bs, start, end, i);
    ShapeSpliced(bs, i, if Absorbs(bs, i) then i + 2 else i + 1, [Grown(bs, i)]);
    ShapeSpliced(ms, i - 1, i + 1, [Joined(ms, i)]);
    ShapeRelinked(Spliced(ms, i - 1, i + 1, [Joined(ms, i)]), ms[i].next, ms[i - 1].addr);
    assert Shape(ms)[..i - 1] == Shape(bs)[..i - 1];
    assert Shape([Grown(bs, i)])[0] == Grown(bs, i).(prev := 0, next := 0);
  }

  lemma ShapeRelinked(bs: seq<Block>, a: nat, p: nat)
    ensures Shape(Relinked(bs, a, p)) == Shape(bs)
  {
  }

  lemma GrownUse(bs: seq<Block>, start: nat, end: nat, i: nat)
    requires Contiguous(bs, start, end) && i < |bs|
    ensures Used(MergedNext(bs, i)) == Used(bs) - {(bs[i].addr, bs[i].size)}
  {
    var n := if Absorbs(bs, i) then 2 else 1;
    UsedSpliced(bs, i, i + 1, [Grown(bs, i)]);
    UsedSpliced(bs, i, i + n, [Grown(bs, i)]);
    UsedOnce(bs, start, end, i, bs[i].size);
    assert bs[i..i + 1] == [bs[i]];
    if Absorbs(bs, i) {
      UsedPlus([bs[i + 1]], bs[i + 2..]);
      assert bs[i + 1..] == [bs[i + 1]] + bs[i + 2..] && Used([bs[i + 1]]) == {};
    }
    assert Used(MergedNext(bs, i)) == Used(bs[..i]) + Used(bs[i + 1..]);
  }

  /** Joining two free blocks leaves the used ones alone. */
  lemma JoinedUse(bs: seq<Block>, i: nat)
    requires 0 < i < |bs| && bs[i - 1].free && bs[i].free
    ensures Used(MergedPrev(bs, i)) == Used(bs)
  {
    var n := Joined(bs, i);
    UsedSpliced(bs, i - 1, i + 1, [n]);
    assert bs[i - 1..i + 1] == [bs[i - 1], bs[i]];
    UsedOne(n);
    assert Used([n]) == Used(bs[i - 1..i + 1]);
    UsedRelinked(Spliced(bs, i - 1, i + 1, [n]), bs[i].next, bs[i - 1].addr);
  }

  lemma UsedRelinked(bs: seq<Block>, a: nat, p: nat)
    ensures Used(Relinked(bs, a, p)) == Used(bs)
  {
    var r := Relinked(bs, a, p);
    forall b | b in bs && !b.free ensures (b.addr, b.size) in Used(r) {
      var k :| 0 <= k < |bs| && bs[k] == b;
      assert r[k] in r;
    }
    forall b | b in r && !b.free ensures (b.addr, b.size) in Used(bs) {
      var k :| 0 <= k < |r| && r[k] == b;
      assert bs[k] in bs;
    }
  }
}
