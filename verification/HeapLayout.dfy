/** What header writes do to the tiling of the heap. */
module HeapLayout {
  import opened Common
  import opened HeapBytes
  import opened HeapBlocks

  /** The blocks tile the heap from `start` to `end`, as their headers say, and only zeros follow. */
  predicate HeapOk(m: Bytes, bs: seq<Block>, start: nat, end: nat) {
    && 0 < start <= end <= |m| && |m| < WORD
    && Contiguous(bs, start, end) && Headers(m, bs) && Regular(bs, end)
    && forall a :: end <= a < |m| ==> m[a] == 0
  }

  /** The payloads of all blocks but block `i` are as they were. */
  predicate OtherPayloads(m: Bytes, m': Bytes, bs: seq<Block>, i: nat) {
    forall k :: 0 <= k < |bs| && k != i ==> SameBytes(m, m', bs[k].Payload(), bs[k].End())
  }

  /** Only the headers at `p`, `q` and `r` changed; 0 stands for none. */
  predicate OnlyHeaders(m: Bytes, m': Bytes, p: nat, q: nat, r: nat) {
    |m'| == |m| && forall a :: 0 <= a < |m| && !InHeader(p, a) && !InHeader(q, a) && !InHeader(r, a) ==> m'[a] == m[a]
  }

  predicate InHeader(p: nat, a: nat) { p != 0 && p <= a < p + HEADER }

  lemma HeadersInside(m: Bytes, m': Bytes, p: nat, q: nat, r: nat, lo: nat, hi: nat)
    requires OnlyHeaders(m, m', p, q, r)
    requires forall h :: h in [p, q, r] ==> h == 0 || lo <= h <= h + HEADER <= hi
    ensures SameOutside(m, m', lo, hi)
  {
    assert p in [p, q, r] && q in [p, q, r] && r in [p, q, r];
    forall a | 0 <= a < |m| && !(lo <= a < hi) ensures m'[a] == m[a] {
      assert !InHeader(p, a) && !InHeader(q, a) && !InHeader(r, a);
    }
  }

  /** No header, or that of a listed block, or one behind them all. */
  predicate NoPayload(bs: seq<Block>, end: nat, p: nat) {
    p == 0 || p >= end || exists k :: 0 <= k < |bs| && bs[k].addr == p
  }

  /** Writing headers touches no payload. */
  lemma PayloadsKept(m: Bytes, m': Bytes, bs: seq<Block>, start: nat, end: nat, p: nat, q: nat, r: nat)
    requires Contiguous(bs, start, end) && OnlyHeaders(m, m', p, q, r)
    requires NoPayload(bs, end, p) && NoPayload(bs, end, q) && NoPayload(bs, end, r)
    ensures OtherPayloads(m, m', bs, |bs|)
  {
    forall k | 0 <= k < |bs| ensures SameBytes(m, m', bs[k].Payload(), bs[k].End()) {
      HeaderMisses(bs, start, end, p, k);
      HeaderMisses(bs, start, end, q, k);
      HeaderMisses(bs, start, end, r, k);
    }
  }

  lemma HeaderMisses(bs: seq<Block>, start: nat, end: nat, p: nat, k: nat)
    requires Contiguous(bs, start, end) && k < |bs| && NoPayload(bs, end, p)
    ensures forall a :: bs[k].Payload() <= a < bs[k].End() ==> !InHeader(p, a)
  {
    Touch(bs, start, end, k);
    if p != 0 && p < end {
      var j :| 0 <= j < |bs| && bs[j].addr == p;
    }
  }

  /** Writing inside one block touches no other payload. */
  lemma OthersKept(m: Bytes, m': Bytes, bs: seq<Block>, start: nat, end: nat, i: nat)
    requires HeapOk(m, bs, start, end) && i < |bs| && SameOutside(m, m', bs[i].addr, bs[i].End())
    ensures OtherPayloads(m, m', bs, i)
  {
    Touch(bs, start, end, i);
  }

  /** The last block ends where the heap does, and what follows reads as an empty header. */
  lemma LastBlock(m: Bytes, bs: seq<Block>, start: nat, end: nat)
    requires HeapOk(m, bs, start, end)
    ensures bs != [] ==>
              var b := bs[|bs| - 1];
              b.addr > 0 && b.End() == end && BlockAt(m, b.addr) == b && PrevAddr(bs, |bs|) == b.addr
    ensures end + HEADER <= |m| ==> BlockAt(m, end) == Block(end, 0, true, 0, 0)
  {
    if bs != [] {
      Touch(bs, start, end, |bs| - 1);
      HeaderAt(m, bs, |bs| - 1);
    }
    if end + HEADER <= |m| { ZeroHeader(m, end); }
  }

  /** The headers that a block's reuse leaves behind. */
  predicate ReuseWritten(m: Bytes, b: Block, past: nat, size: nat)
    requires b.End() <= |m| && b.size >= size
  {
    if b.size - size >= MIN_SPLIT then
      && BlockAt(m, b.addr) == Block(b.addr, size, false, past, b.addr + HEADER + size)
      && BlockAt(m, b.addr + HEADER + size) ==
         Block(b.addr + HEADER + size, b.size - size - HEADER, true, b.prev, b.next)
    else BlockAt(m, b.addr) == b.(free := false, prev := past)
  }

  /** They are the headers of the blocks that take its place. */
  lemma ReuseWrittenIs(m: Bytes, bs: seq<Block>, i: nat, size: nat)
    requires i < |bs| && bs[i].End() <= |m| && bs[i].size >= size && ReuseWritten(m, bs[i], PrevAddr(bs, i), size)
    ensures Headers(m, Reused(bs, i, size))
  {
  }

  /** The headers of a reused block make up the new tiling. */
  lemma ReuseTiles(m: Bytes, m': Bytes, bs: seq<Block>, start: nat, end: nat, i: nat, size: nat)
    requires HeapOk(m, bs, start, end) && i < |bs| && Fits(bs[i], size) && Units(size)
    requires SameOutside(m, m', bs[i].addr, bs[i].End()) && Headers(m', Reused(bs, i, size))
    ensures HeapOk(m', Spliced(bs, i, i + 1, Reused(bs, i, size)), start, end)
  {
    Touch(bs, start, end, i);
    ReusedFills(bs, start, end, i, size);
    SpliceOk(m, m', bs, start, end, i, i + 1, Reused(bs, i, size));
  }

  /** The headers of a new last block, and of the block before it, make up the new tiling. */
  lemma AppendTiles(m: Bytes, m': Bytes, bs: seq<Block>, start: nat, end: nat, size: nat, e: nat)
    requires HeapOk(m, bs, start, end) && Units(size) && e == end + size + HEADER <= |m| && |m'| == |m|
    requires BlockAt(m', end) == Block(end, size, false, PrevAddr(bs, |bs|), 0)
    requires bs != [] ==>
               var b := bs[|bs| - 1]; b.End() <= |m'| && BlockAt(m', b.addr) == b.(next := end)
    requires OnlyHeaders(m, m', end, PrevAddr(bs, |bs|), 0)
    ensures HeapOk(m', AfterAppend(bs, end, size), start, e)
  {
    AppendedFills(bs, start, end, size, e);
    var n, r := if |bs| > 0 then |bs| - 1 else 0, AfterAppend(bs, end, size);
    if bs != [] { Touch(bs, start, end, n); }
    forall k | 0 <= k < |r| ensures HeaderIs(m', r[k]) {
      if k < n {
        Touch(bs, start, end, k);
        assert r[k] == bs[k] && HeaderIs(m, bs[k]);
        HeaderFrame(m, m', bs[k]);
      }
    }
  }

  /** Replacing a stretch of blocks, where only bytes of that stretch change. */
  lemma SpliceOk(m: Bytes, m': Bytes, bs: seq<Block>, start: nat, end: nat, i: nat, j: nat, ns: seq<Block>)
    requires HeapOk(m, bs, start, end) && i <= j <= |bs| && Regular(ns, end)
    requires Contiguous(ns, Edge(bs, end, i), Edge(bs, end, j)) && Headers(m', ns)
    requires SameOutside(m, m', Edge(bs, end, i), Edge(bs, end, j)) && Edge(bs, end, j) <= end
    ensures HeapOk(m', Spliced(bs, i, j, ns), start, end)
  {
    Splice(m, m', bs, start, end, i, j, ns);
    RegularSplice(bs, end, i, j, ns);
  }

  // ------------------------------------------------------------------------------------------
  // A release, header by header
  // ------------------------------------------------------------------------------------------

  /** `next` of the header at `node` leads to a status byte that reads as free. */
  predicate NextFree(m: Bytes, node: nat) {
    && node + HEADER <= |m|
    && var next := BlockAt(m, node).next;
    next != 0 && next + HEADER <= |m| && m[next + 4] == 0
  }

  /** Likewise `prev`. */
  predicate PrevFree(m: Bytes, node: nat) {
    && node + HEADER <= |m|
    && var prev := BlockAt(m, node).prev;
    prev != 0 && prev + HEADER <= |m| && m[prev + 4] == 0
  }

  /** The links of this header lead in front of it and behind it. */
  predicate LinksApart(m: Bytes, node: nat) {
    && 0 < node && node + HEADER <= |m| < WORD
    && var b := BlockAt(m, node);
    && (b.prev == 0 || b.prev + HEADER <= node) && (b.next == 0 || (node + HEADER <= b.next && b.next + HEADER <= |m|))
  }

  /** If `next` leads to what reads as free, that reads as a header: its size is one, and its link is null or leads
      behind the block. For a block of the heap this is so; for bytes of a payload it need not be. */
  predicate Legible(m: Bytes, node: nat) {
    NextFree(m, node) ==>
      var n := BlockAt(m, BlockAt(m, node).next);
      n.size + HEADER < WORD && (n.next == 0 || (node + HEADER <= n.next && n.next + HEADER <= |m|))
  }

  /** `next` of the block leads to bytes that read as free, but whose size or link is impossible. */
  predicate MisreadsNext(m: Bytes, b: Block) {
    && b.next != 0 && b.next + 0x10 <= |m| && m[b.next + 4] == 0
    && var n := BlockAt(m, b.next);
    n.size + 0x10 >= 0x1_0000_0000 || (n.next != 0 && (n.next < b.addr + 0x10 || n.next + 0x10 > |m|))
  }

  /** The first half of `kfree`: the block becomes free, and takes in what it links to, if that reads as free. */
  predicate Freed(m: Bytes, m': Bytes, node: nat)
    requires LinksApart(m, node)
  {
    && |m'| == |m|
    && var b := BlockAt(m, node);
    if NextFree(m, node) then
      var n := BlockAt(m, b.next);
      && BlockAt(m', node) == b.(free := true, size := (b.size + n.size + HEADER) % WORD, next := n.next)
      && m'[b.next + 4] == 0 && OnlyHeaders(m, m', node, b.next, 0)
    else
      BlockAt(m', node) == b.(free := true) && OnlyHeaders(m, m', node, 0, 0)
  }

  predicate InLink(a: nat, x: nat) { a != 0 && a + 8 <= x < a + 12 }

  /** Only the headers at `p` and `q` changed, and the word for `prev` of the header at `a`. */
  predicate OnlyJoin(m: Bytes, m': Bytes, p: nat, q: nat, a: nat) {
    |m'| == |m| && forall x :: 0 <= x < |m| && !InHeader(p, x) && !InHeader(q, x) && !InLink(a, x) ==> m'[x] == m[x]
  }

  /** The second half: what is at `prev` takes in the block, if it reads as free. */
  predicate Rejoined(m: Bytes, m': Bytes, node: nat)
    requires LinksApart(m, node)
  {
    && |m'| == |m|
    && var b := BlockAt(m, node);
    if PrevFree(m, node) then
      var p := BlockAt(m, b.prev);
      && BlockAt(m', b.prev) == p.(size := (p.size + b.size + HEADER) % WORD, next := b.next)
      && BlockAt(m', node) == Block(node, 0, b.free, 0, 0)
      && (b.next != 0 ==> BlockAt(m', b.next) == BlockAt(m, b.next).(prev := b.prev))
      && OnlyJoin(m, m', b.prev, node, b.next)
    else m' == m
  }

  /** The header that a release reads. */
  lemma FreedReads(m: Bytes, bs: seq<Block>, start: nat, end: nat, i: nat)
    requires HeapOk(m, bs, start, end) && i < |bs|
    ensures LinksApart(m, bs[i].addr) && BlockAt(m, bs[i].addr) == bs[i]
    ensures i + 1 < |bs| ==> bs[i].End() == bs[i + 1].addr && BlockAt(m, bs[i + 1].addr) == bs[i + 1]
    ensures forall k :: 0 <= k < |bs| ==> 0 < bs[k].addr && bs[k].End() <= end
  {
    Within(bs, start, end);
    Touch(bs, start, end, i);
    HeaderAt(m, bs, i);
    if i + 1 < |bs| { HeaderAt(m, bs, i + 1); }
    assert Placed(bs[i], end);
  }

  /** A release is not followed exactly if it reads such bytes. */
  lemma NotLegible(m: Bytes, bs: seq<Block>, start: nat, end: nat, i: nat)
    requires HeapOk(m, bs, start, end) && i < |bs|
    ensures !Legible(m, bs[i].addr) <==> MisreadsNext(m, bs[i])
  {
    FreedReads(m, bs, start, end, i);
  }

  /** The first half leaves the links apart. */
  lemma StillApart(m: Bytes, m': Bytes, node: nat)
    requires LinksApart(m, node) && Legible(m, node) && Freed(m, m', node)
    ensures LinksApart(m', node) && (PrevFree(m', node) <==> PrevFree(m, node))
    ensures SameBytes(m, m', 0, node)
  {
    var next := BlockAt(m, node).next;
    assert forall a :: 0 <= a < node ==> !InHeader(node, a) && (next == 0 || !InHeader(next, a)) && !InHeader(0, a);
  }

  /** `next` of block `i` is null, leads to a status byte that reads as used, or to the block just behind. */
  predicate NextSafe(m: Bytes, bs: seq<Block>, i: nat)
    requires i < |bs|
  {
    var a := bs[i].next;
    a == 0 || (a + HEADER <= |m| && m[a + 4] != 0) || (i + 1 < |bs| && a == bs[i + 1].addr)
  }

  /** What the test of `next` in `kfree` tells. */
  lemma FreedCase(m: Bytes, bs: seq<Block>, start: nat, end: nat, i: nat)
    requires HeapOk(m, bs, start, end) && i < |bs|
    ensures LinksApart(m, bs[i].addr)
    ensures NextSafe(m, bs, i) ==> (NextFree(m, bs[i].addr) <==> Absorbs(bs, i)) && Legible(m, bs[i].addr)
    ensures !NextSafe(m, bs, i) ==> NextFree(m, bs[i].addr) && !Absorbs(bs, i)
    ensures Absorbs(bs, i) ==> bs[i].size + bs[i + 1].size + HEADER < WORD
  {
    FreedReads(m, bs, start, end, i);
    assert Placed(bs[i], end);
    if Absorbs(bs, i) { assert Placed(bs[i + 1], end); }
  }

  /** The header of a released block makes up the new tiling. */
  lemma FreedTiles(m: Bytes, m': Bytes, bs: seq<Block>, start: nat, end: nat, i: nat)
    requires HeapOk(m, bs, start, end) && i < |bs| && NextSafe(m, bs, i)
    requires LinksApart(m, bs[i].addr) && Freed(m, m', bs[i].addr)
    ensures HeapOk(m', MergedNext(bs, i), start, end) && OtherPayloads(m, m', bs, |bs|)
    ensures Absorbs(bs, i) ==> bs[i + 1].Payload() <= end && m'[bs[i + 1].addr + 4] == 0
  {
    FreedReads(m, bs, start, end, i);
    FreedCase(m, bs, start, end, i);
    GrownTiles(m, m', bs, start, end, i);
  }

  lemma GrownTiles(m: Bytes, m': Bytes, bs: seq<Block>, start: nat, end: nat, i: nat)
    requires HeapOk(m, bs, start, end) && i < |bs|
    requires OnlyHeaders(m, m', bs[i].addr, if Absorbs(bs, i) then bs[i].next else 0, 0)
    requires bs[i].Payload() <= |m'| && BlockAt(m', bs[i].addr) == Grown(bs, i)
    ensures HeapOk(m', MergedNext(bs, i), start, end) && OtherPayloads(m, m', bs, |bs|)
  {
    GrownInside(m, m', bs, start, end, i);
    GrownFills(bs, start, end, i);
    SpliceOk(m, m', bs, start, end, i, i + if Absorbs(bs, i) then 2 else 1, [Grown(bs, i)]);
  }

  /** The writes stay inside the stretch that is merged, and touch no payload. */
  lemma GrownInside(m: Bytes, m': Bytes, bs: seq<Block>, start: nat, end: nat, i: nat)
    requires HeapOk(m, bs, start, end) && i < |bs|
    requires OnlyHeaders(m, m', bs[i].addr, if Absorbs(bs, i) then bs[i].next else 0, 0)
    ensures var n := if Absorbs(bs, i) then 2 else 1;
            && SameOutside(m, m', bs[i].addr, Edge(bs, end, i + n)) && Edge(bs, end, i + n) <= end
            && OtherPayloads(m, m', bs, |bs|)
  {
    var n := if Absorbs(bs, i) then 2 else 1;
    var q := if n == 2 then bs[i].next else 0;
    Touch(bs, start, end, i);
    if n == 2 { Touch(bs, start, end, i + 1); }
    PayloadsKept(m, m', bs, start, end, bs[i].addr, q, 0);
    HeadersInside(m, m', bs[i].addr, q, 0, bs[i].addr, Edge(bs, end, i + n));
  }

  /** The payloads are as they were, but for the word for `prev` of what may have been a header at `a`. */
  predicate PayloadsBut(m: Bytes, m': Bytes, bs: seq<Block>, a: nat) {
    forall k :: 0 <= k < |bs| ==> PayloadBut(m, m', bs[k], a)
  }

  predicate PayloadBut(m: Bytes, m': Bytes, b: Block, a: nat) {
    |m'| == |m| && forall x :: b.Payload() <= x < b.End() && x < |m| && !InLink(a, x) ==> m'[x] == m[x]
  }

  /** The header at `b` is not the one at `a`. */
  lemma LinkMisses(bs: seq<Block>, start: nat, end: nat, i: nat, a: nat, k: nat)
    requires Contiguous(bs, start, end) && Regular(bs, end) && i < |bs| && k < |bs| && a == bs[i].next &&
             bs[k].addr != a
    ensures forall x :: bs[k].addr <= x < bs[k].Payload() ==> !InLink(a, x)
  {
    if a != 0 {
      assert Placed(bs[i], end);
      Touch(bs, start, end, i);
      var j := OnGrid(bs, start, end, i + 1, a);
      Touch(bs, start, end, j);
    }
  }

  /** A join with the block just in front makes up the new tiling. */
  lemma JoinTiles(m: Bytes, m': Bytes, bs: seq<Block>, start: nat, end: nat, i: nat)
    requires HeapOk(m, bs, start, end) && 0 < i < |bs| && LinksApart(m, bs[i].addr) && Rejoined(m, m', bs[i].addr)
    requires bs[i].prev == bs[i - 1].addr && bs[i - 1].free
    ensures HeapOk(m', MergedPrev(bs, i), start, end) && PayloadsBut(m, m', bs, bs[i].next)
  {
    RejoinedWrote(m, m', bs, start, end, i);
    MergedFills(bs, start, end, i);
    JoinHeaders(m, m', bs, start, end, i);
    JoinPayloads(m, m', bs, start, end, i);
    JoinTail(m, m', bs, start, end, i);
  }

  lemma RejoinedWrote(m: Bytes, m': Bytes, bs: seq<Block>, start: nat, end: nat, i: nat)
    requires HeapOk(m, bs, start, end) && 0 < i < |bs| && LinksApart(m, bs[i].addr) && Rejoined(m, m', bs[i].addr)
    requires bs[i].prev == bs[i - 1].addr && bs[i - 1].free
    ensures JoinWrote(m, m', bs, i)
  {
    FreedReads(m, bs, start, end, i - 1);
    FreedReads(m, bs, start, end, i);
    PairFits(bs, start, end, i);
    WroteJoined(m, m', bs, i);
  }

  lemma WroteJoined(m: Bytes, m': Bytes, bs: seq<Block>, i: nat)
    requires 0 < i < |bs| && LinksApart(m, bs[i].addr) && Rejoined(m, m', bs[i].addr)
    requires 0 < bs[i].prev == bs[i - 1].addr && bs[i - 1].free && bs[i].size + (bs[i - 1].size + HEADER) < WORD
    requires BlockAt(m, bs[i].addr) == bs[i] && bs[i - 1].Payload() <= |m| && BlockAt(m, bs[i - 1].addr) == bs[i - 1]
    ensures JoinWrote(m, m', bs, i)
  {
    assert PrevFree(m, bs[i].addr);
    RejoinedSize(m, m', bs[i].addr, bs[i - 1]);
  }

  /** What a join writes. */
  predicate JoinWrote(m: Bytes, m': Bytes, bs: seq<Block>, i: nat)
    requires 0 < i < |bs|
  {
    && bs[i - 1].Payload() <= |m'| && BlockAt(m', bs[i - 1].addr) == Joined(bs, i)
    && OnlyJoin(m, m', bs[i - 1].addr, bs[i].addr, bs[i].next)
    && (bs[i].next != 0 ==> bs[i].next + HEADER <= |m| &&
                            BlockAt(m', bs[i].next) == BlockAt(m, bs[i].next).(prev := bs[i - 1].addr))
  }

  lemma JoinHeaders(m: Bytes, m': Bytes, bs: seq<Block>, start: nat, end: nat, i: nat)
    requires HeapOk(m, bs, start, end) && 0 < i < |bs| && JoinWrote(m, m', bs, i)
    ensures Headers(m', MergedPrev(bs, i))
  {
    var r := MergedPrev(bs, i);
    forall k | 0 <= k < |r| ensures HeaderIs(m', r[k]) {
      JoinedAt(bs, start, end, i, k);
      if k != i - 1 { JoinOther(m, m', bs, start, end, i, if k < i then k else k + 1); }
    }
  }

  /** Which block is where after a join. */
  lemma JoinedAt(bs: seq<Block>, start: nat, end: nat, i: nat, k: nat)
    requires Contiguous(bs, start, end) && Regular(bs, end) && 0 < i < |bs| && k < |bs| - 1
    ensures MergedPrev(bs, i)[k] == if k == i - 1 then Joined(bs, i)
                                    else Repointed(bs[if k < i then k else k + 1], bs[i].next, bs[i - 1].addr)
  {
    var js := Spliced(bs, i - 1, i + 1, [Joined(bs, i)]);
    Touch(bs, start, end, i);
    assert Placed(bs[i], end);
    assert js[k] == if k == i - 1 then Joined(bs, i) else bs[if k < i then k else k + 1];
  }

  lemma JoinOther(m: Bytes, m': Bytes, bs: seq<Block>, start: nat, end: nat, i: nat, j: nat)
    requires HeapOk(m, bs, start, end) && 0 < i < |bs| && JoinWrote(m, m', bs, i) && j < |bs| && j != i && j != i - 1
    ensures HeaderIs(m', Repointed(bs[j], bs[i].next, bs[i - 1].addr))
  {
    var a := bs[i].next;
    FreedReads(m, bs, start, end, j);
    if bs[j].addr == a {
      assert Repointed(bs[j], a, bs[i - 1].addr) == BlockAt(m', a);
    } else {
      assert Repointed(bs[j], a, bs[i - 1].addr) == bs[j];
      JoinFrame(m, m', bs, start, end, i, j);
    }
  }

  lemma JoinFrame(m: Bytes, m': Bytes, bs: seq<Block>, start: nat, end: nat, i: nat, j: nat)
    requires HeapOk(m, bs, start, end) && 0 < i < |bs| && j < |bs| && j != i && j != i - 1 && bs[j].addr != bs[i].next
    requires OnlyJoin(m, m', bs[i - 1].addr, bs[i].addr, bs[i].next)
    ensures HeaderIs(m', bs[j])
  {
    LinkMisses(bs, start, end, i, bs[i].next, j);
    Touch(bs, start, end, j);
    HeaderAt(m, bs, j);
    HeaderFrame(m, m', bs[j]);
  }

  lemma JoinPayloads(m: Bytes, m': Bytes, bs: seq<Block>, start: nat, end: nat, i: nat)
    requires HeapOk(m, bs, start, end) && 0 < i < |bs| && JoinWrote(m, m', bs, i)
    ensures PayloadsBut(m, m', bs, bs[i].next)
  {
    forall k | 0 <= k < |bs| ensures PayloadBut(m, m', bs[k], bs[i].next) {
      HeaderMisses(bs, start, end, bs[i].addr, k);
      HeaderMisses(bs, start, end, bs[i - 1].addr, k);
    }
  }

  lemma JoinTail(m: Bytes, m': Bytes, bs: seq<Block>, start: nat, end: nat, i: nat)
    requires HeapOk(m, bs, start, end) && 0 < i < |bs| && JoinWrote(m, m', bs, i)
    ensures forall a :: end <= a < |m| ==> m'[a] == 0
  {
    Touch(bs, start, end, i);
    Touch(bs, start, end, i - 1);
    assert Placed(bs[i], end);
  }

  /** Two rounds of header writes touch no payload but that word, though the first one merges blocks. */
  lemma PayloadsThrough(m: Bytes, m1: Bytes, m2: Bytes, bs: seq<Block>, start: nat, end: nat, i: nat, a: nat)
    requires Contiguous(bs, start, end) && i < |bs| && OtherPayloads(m, m1, bs, |bs|)
    requires PayloadsBut(m1, m2, MergedNext(bs, i), a)
    ensures PayloadsBut(m, m2, bs, a)
  {
    var r, n := MergedNext(bs, i), if Absorbs(bs, i) then 2 else 1;
    Touch(bs, start, end, i);
    forall k | 0 <= k < |bs| ensures PayloadBut(m, m2, bs[k], a) {
      var j := if k < i then k else if k < i + n then i else k - n + 1;
      assert r[j] == if k < i then bs[k] else if k < i + n then Grown(bs, i) else bs[k];
      assert PayloadBut(m1, m2, r[j], a) && SameBytes(m, m1, bs[k].Payload(), bs[k].End());
    }
  }

  // ------------------------------------------------------------------------------------------
  // Stale links to the front
  // ------------------------------------------------------------------------------------------

  /** `prev` of block `i` is null, leads to the block just in front, or to a status byte that reads as used. */
  predicate PrevSafe(m: Bytes, bs: seq<Block>, i: nat)
    requires i < |bs|
  {
    var p := bs[i].prev;
    p == 0 || (p + HEADER <= |m| && m[p + 4] != 0) || p == PrevAddr(bs, i)
  }

  /** Neither link of block `i` misleads a release. */
  predicate LinksSafe(m: Bytes, bs: seq<Block>, i: nat)
    requires i < |bs|
  {
    PrevSafe(m, bs, i) && NextSafe(m, bs, i)
  }

  predicate Listed(bs: seq<Block>, i: nat, p: nat)
    requires i <= |bs|
  {
    exists k :: 0 <= k < i && bs[k].addr == p
  }

  predicate Meets(bs: seq<Block>, a: nat) { exists b :: b in bs && b.addr == a }

  /** The walk still meets every block in front of block `i`. */
  predicate FrontMet(m: Bytes, bs: seq<Block>, start: nat, end: nat, i: nat)
    requires i < |bs|
  {
    Tiled(m, start, end) && forall k :: 0 <= k < i ==> Meets(Walk(m, start, end), bs[k].addr)
  }

  /** What the test of `prev` in `kfree` tells. */
  lemma JoinCase(m: Bytes, bs: seq<Block>, start: nat, end: nat, i: nat)
    requires HeapOk(m, bs, start, end) && i < |bs| && bs[i].Payload() <= |m|
    ensures PrevSafe(m, bs, i) ==> (PrevFree(m, bs[i].addr) <==> JoinsPrev(bs, i))
    ensures !PrevSafe(m, bs, i) ==> PrevFree(m, bs[i].addr) && !JoinsPrev(bs, i)
  {
    FreedReads(m, bs, start, end, i);
    assert Placed(bs[i], end);
    if i > 0 { FreedReads(m, bs, start, end, i - 1); }
  }

  /** The first half of a release does not touch what the second half reads in front. */
  lemma StillInFront(m: Bytes, m': Bytes, bs: seq<Block>, start: nat, end: nat, i: nat)
    requires HeapOk(m, bs, start, end) && i < |bs| && SameBytes(m, m', 0, bs[i].addr) && |m| == |m'|
    ensures PrevSafe(m', MergedNext(bs, i), i) <==> PrevSafe(m, bs, i)
    ensures JoinsPrev(MergedNext(bs, i), i) <==> JoinsPrev(bs, i)
  {
    assert Placed(bs[i], end);
  }

  /** The link that block `i` passes on to the block in front, if it is merged into that one. */
  function PassedOn(bs: seq<Block>, i: nat): nat
    requires i < |bs|
  {
    if JoinsPrev(bs, i) then Grown(bs, i).next else 0
  }

  /** What was merged away goes on reading as free. */
  lemma StillFree(m1: Bytes, m2: Bytes, bs: seq<Block>, start: nat, end: nat, i: nat)
    requires Contiguous(bs, start, end) && i < |bs| && end <= |m1| == |m2| && Absorbs(bs, i)
    requires PayloadsBut(m1, m2, MergedNext(bs, i), PassedOn(bs, i)) && Regular(bs, end)
    ensures bs[i + 1].Payload() <= end && m2[bs[i + 1].addr + 4] == m1[bs[i + 1].addr + 4]
  {
    Touch(bs, start, end, i);
    Touch(bs, start, end, i + 1);
    assert Placed(bs[i + 1], end);
    var g := MergedNext(bs, i)[i];
    assert PayloadBut(m1, m2, g, PassedOn(bs, i));
  }

  /** Both halves, where no link misleads: the blocks that should be there tile the heap. */
  lemma KfreeTiles(m: Bytes, m1: Bytes, m2: Bytes, bs: seq<Block>, start: nat, end: nat, i: nat)
    requires HeapOk(m, bs, start, end) && i < |bs| && NextSafe(m, bs, i) && PrevSafe(m, bs, i)
    requires LinksApart(m, bs[i].addr) && Freed(m, m1, bs[i].addr)
    requires LinksApart(m1, bs[i].addr) && Rejoined(m1, m2, bs[i].addr) && SameBytes(m, m1, 0, bs[i].addr)
    ensures HeapOk(m2, AfterKfree(bs, i), start, end) && PayloadsBut(m, m2, bs, PassedOn(bs, i))
    ensures Absorbs(bs, i) ==> bs[i + 1].Payload() <= |m2| && m2[bs[i + 1].addr + 4] == 0
  {
    var ms := MergedNext(bs, i);
    FreedTiles(m, m1, bs, start, end, i);
    StillInFront(m, m1, bs, start, end, i);
    JoinCase(m1, ms, start, end, i);
    if JoinsPrev(bs, i) {
      JoinTiles(m1, m2, ms, start, end, i);
    }
    PayloadsThrough(m, m1, m2, bs, start, end, i, PassedOn(bs, i));
    if Absorbs(bs, i) { StillFree(m1, m2, bs, start, end, i); }
  }

  /** A header that does not say what it should. */
  lemma Differs(m: Bytes, start: nat, end: nat, bs: seq<Block>, k: nat)
    requires end <= |m| && k < |bs| && bs[k].Payload() <= |m| && BlockAt(m, bs[k].addr) != bs[k]
    ensures !(Tiled(m, start, end) && Walk(m, start, end) == bs)
  {
    if Tiled(m, start, end) && Walk(m, start, end) == bs {
      WalkTiles(m, start, end);
      HeaderAt(m, bs, k);
      assert false;
    }
  }

  /** After a join through a stale `prev` the released block's own header is wiped, so the heap is not tiled by the
      blocks that should be there. */
  lemma WipedDiffers(m: Bytes, bs: seq<Block>, start: nat, end: nat, i: nat)
    requires i < |bs| && !JoinsPrev(bs, i) && bs[i].prev != 0 && end <= |m|
    requires bs[i].Payload() <= |m| && BlockAt(m, bs[i].addr).prev == 0
    ensures !(Tiled(m, start, end) && Walk(m, start, end) == AfterKfree(bs, i))
  {
    Differs(m, start, end, AfterKfree(bs, i), i);
  }

  lemma MoreBytes(a: nat, b: nat, c: nat)
    requires 0 < b < WORD && a + c < WORD
    ensures ((a + b) % WORD + c) % WORD != a + c
  {
    if a + b < WORD {
      assert (a + b) % WORD == a + b;
    } else {
      assert (a + b) % WORD == a + b - WORD;
    }
  }

  /** A block in front, and this one. */
  lemma FrontReads(m: Bytes, bs: seq<Block>, start: nat, end: nat, k: nat, i: nat)
    requires HeapOk(m, bs, start, end) && k < i < |bs|
    ensures 0 < bs[k].addr && bs[k].Payload() <= bs[i].addr && bs[i].Payload() <= |m|
    ensures BlockAt(m, bs[k].addr) == bs[k] && BlockAt(m, bs[i].addr) == bs[i]
    ensures bs[i].size + (bs[k].size + HEADER) < WORD && Ahead(bs[i].End(), bs[i].next, end)
  {
    FreedReads(m, bs, start, end, k);
    FreedReads(m, bs, start, end, i);
    Touch(bs, start, end, k);
    assert Placed(bs[i], end);
  }

  /** After a merge with what is not the block behind, the block is too large. */
  lemma OvergrownDiffers(m: Bytes, m1: Bytes, bs: seq<Block>, start: nat, end: nat, i: nat)
    requires i < |bs| && NextFree(m, bs[i].addr) && !Absorbs(bs, i) && !JoinsPrev(bs, i) && end <= |m| &&
             bs[i].size < WORD
    requires LinksApart(m, bs[i].addr) && Legible(m, bs[i].addr) && Freed(m, m1, bs[i].addr)
    requires BlockAt(m, bs[i].addr) == bs[i]
    ensures !(Tiled(m1, start, end) && Walk(m1, start, end) == AfterKfree(bs, i))
  {
    MoreBytes(bs[i].size, BlockAt(m, bs[i].next).size + HEADER, 0);
    SelfDiffers(m1, bs, start, end, i);
  }

  lemma FreedMore(m: Bytes, m1: Bytes, b: Block)
    requires LinksApart(m, b.addr) && Legible(m, b.addr) && Freed(m, m1, b.addr) && NextFree(m, b.addr) &&
             BlockAt(m, b.addr) == b
    ensures var x := BlockAt(m, b.next).size + HEADER;
            x < WORD && BlockAt(m1, b.addr).size == (b.size + x) % WORD && BlockAt(m1, b.addr).prev == b.prev
  {
  }

  /** And so is the block in front, if that takes it in. */
  lemma OvergrownJoined(m: Bytes, m1: Bytes, m2: Bytes, bs: seq<Block>, start: nat, end: nat, i: nat, x: nat)
    requires i < |bs| && JoinsPrev(bs, i) && !Absorbs(bs, i) && SameBytes(m, m1, 0, bs[i].addr) && end <= |m|
    requires LinksApart(m1, bs[i].addr) && Rejoined(m1, m2, bs[i].addr) && PrevFree(m1, bs[i].addr)
    requires BlockAt(m1, bs[i].addr).prev == bs[i].prev && 0 < x < WORD
    requires BlockAt(m1, bs[i].addr).size == (bs[i].size + x) % WORD && bs[i].size + (bs[i - 1].size + HEADER) < WORD
    requires bs[i - 1].Payload() <= |m| && BlockAt(m, bs[i - 1].addr) == bs[i - 1]
    ensures !(Tiled(m2, start, end) && Walk(m2, start, end) == AfterKfree(bs, i))
  {
    FrontSize(m, m1, m2, bs[i].addr, bs[i - 1]);
    MoreBytes(bs[i].size, x, bs[i - 1].size + HEADER);
    FrontDiffers(m2, bs, start, end, i);
  }

  /** Two neighbours and their headers take less than 4 GiB. */
  lemma PairFits(bs: seq<Block>, start: nat, end: nat, i: nat)
    requires Contiguous(bs, start, end) && 0 < i < |bs| && end < WORD
    ensures bs[i].size + (bs[i - 1].size + HEADER) < WORD
  {
    Touch(bs, start, end, i - 1);
    Touch(bs, start, end, i);
  }

  lemma FrontDiffers(m: Bytes, bs: seq<Block>, start: nat, end: nat, i: nat)
    requires 0 < i < |bs| && JoinsPrev(bs, i) && !Absorbs(bs, i) && bs[i - 1].Payload() <= |m| && end <= |m|
    requires BlockAt(m, bs[i - 1].addr).size != bs[i].size + (bs[i - 1].size + HEADER)
    ensures !(Tiled(m, start, end) && Walk(m, start, end) == AfterKfree(bs, i))
  {
    MergedFront(bs, i);
    Differs(m, start, end, AfterKfree(bs, i), i - 1);
  }

  lemma SelfDiffers(m: Bytes, bs: seq<Block>, start: nat, end: nat, i: nat)
    requires i < |bs| && !JoinsPrev(bs, i) && !Absorbs(bs, i) && bs[i].Payload() <= |m| && end <= |m|
    requires BlockAt(m, bs[i].addr).size != bs[i].size
    ensures !(Tiled(m, start, end) && Walk(m, start, end) == AfterKfree(bs, i))
  {
    Differs(m, start, end, AfterKfree(bs, i), i);
  }

  lemma FrontSize(m: Bytes, m1: Bytes, m2: Bytes, node: nat, p: Block)
    requires LinksApart(m1, node) && Rejoined(m1, m2, node) && PrevFree(m1, node) && SameBytes(m, m1, 0, node)
    requires BlockAt(m1, node).prev == p.addr && p.Payload() <= |m| && BlockAt(m, p.addr) == p
    ensures BlockAt(m2, p.addr).size == (BlockAt(m1, node).size + (p.size + HEADER)) % WORD
  {
    BlockFrame(m, m1, p.addr);
    RejoinedSize(m1, m2, node, p);
  }

  lemma RejoinedFits(m1: Bytes, m2: Bytes, node: nat, p: Block)
    requires LinksApart(m1, node) && Rejoined(m1, m2, node) && PrevFree(m1, node)
    requires BlockAt(m1, node).prev == p.addr && BlockAt(m1, p.addr) == p
    requires BlockAt(m1, node).size + (p.size + HEADER) < WORD
    ensures BlockAt(m2, p.addr).size > p.size
  {
    RejoinedSize(m1, m2, node, p);
  }

  lemma RejoinedSize(m1: Bytes, m2: Bytes, node: nat, p: Block)
    requires LinksApart(m1, node) && Rejoined(m1, m2, node) && PrevFree(m1, node)
    requires BlockAt(m1, node).prev == p.addr && BlockAt(m1, p.addr) == p
    ensures BlockAt(m2, p.addr).size == (BlockAt(m1, node).size + (p.size + HEADER)) % WORD
  {
  }

  lemma MergedFront(bs: seq<Block>, i: nat)
    requires 0 < i < |bs| && JoinsPrev(bs, i) && !Absorbs(bs, i)
    ensures var r := AfterKfree(bs, i);
            |r| >= i && r[i - 1].addr == bs[i - 1].addr && r[i - 1].size == bs[i].size + (bs[i - 1].size + HEADER)
  {
    var ms := MergedNext(bs, i);
    var js := Spliced(ms, i - 1, i + 1, [Joined(ms, i)]);
    assert js[i - 1] == Joined(ms, i);
  }

  /** A block in front that is joined although others lie between swallows the next one. */
  lemma StaleLoses(m: Bytes, m': Bytes, bs: seq<Block>, start: nat, end: nat, k: nat, i: nat)
    requires HeapOk(m, bs, start, end) && k + 1 < i < |bs| && |m'| == |m|
    requires SameBytes(m, m', 0, bs[k].addr)
    requires bs[k].Payload() <= |m'| && BlockAt(m', bs[k].addr).size > bs[k].size
    ensures !FrontMet(m', bs, start, end, i)
  {
    if Tiled(m', start, end) {
      Swallowed(m, m', bs, start, end, k);
      assert !Meets(Walk(m', start, end), bs[k + 1].addr);
    }
  }

  /** After a join with a listed block that is not the one just in front, a block in front is lost. */
  lemma JoinLoses(m: Bytes, m': Bytes, bs: seq<Block>, start: nat, end: nat, i: nat)
    requires HeapOk(m, bs, start, end) && i < |bs| && LinksApart(m, bs[i].addr) && Rejoined(m, m', bs[i].addr)
    requires PrevFree(m, bs[i].addr) && !JoinsPrev(bs, i) && Listed(bs, i, bs[i].prev)
    ensures !FrontMet(m', bs, start, end, i)
  {
    var k: nat :| k < i && bs[k].addr == bs[i].prev;
    FrontReads(m, bs, start, end, k, i);
    RejoinedFits(m, m', bs[i].addr, bs[k]);
    assert bs[k].free && SameBytes(m, m', 0, bs[k].addr);
    StaleLoses(m, m', bs, start, end, k, i);
  }

  /** The same, seen from the blocks before the release. */
  lemma NotMet(m: Bytes, bs: seq<Block>, start: nat, end: nat, i: nat)
    requires i < |bs| && !FrontMet(m, MergedNext(bs, i), start, end, i)
    ensures !FrontMet(m, bs, start, end, i)
  {
  }

  /** Both halves, where `prev` is stale and `next` is not. */
  lemma KfreeLoses(m: Bytes, m1: Bytes, m2: Bytes, bs: seq<Block>, start: nat, end: nat, i: nat)
    requires HeapOk(m, bs, start, end) && i < |bs| && NextSafe(m, bs, i) && !PrevSafe(m, bs, i)
    requires LinksApart(m, bs[i].addr) && Freed(m, m1, bs[i].addr)
    requires LinksApart(m1, bs[i].addr) && Rejoined(m1, m2, bs[i].addr) && SameBytes(m, m1, 0, bs[i].addr)
    requires Listed(bs, i, bs[i].prev)
    ensures !FrontMet(m2, bs, start, end, i)
  {
    var ms := MergedNext(bs, i);
    FreedTiles(m, m1, bs, start, end, i);
    StillInFront(m, m1, bs, start, end, i);
    JoinCase(m1, ms, start, end, i);
    var k: nat :| k < i && bs[k].addr == bs[i].prev;
    assert ms[k].addr == ms[i].prev;
    JoinLoses(m1, m2, ms, start, end, i);
    NotMet(m2, bs, start, end, i);
  }

  lemma {:induction false} Swallowed(m: Bytes, m': Bytes, bs: seq<Block>, p: nat, end: nat, k: nat)
    requires Contiguous(bs, p, end) && Headers(m, bs) && end <= |m| && |m'| == |m| && k + 1 < |bs|
    requires SameBytes(m, m', 0, bs[k].addr) && Tiled(m', p, end)
    requires bs[k].Payload() <= |m'| && BlockAt(m', bs[k].addr).size > bs[k].size
    ensures !Meets(Walk(m', p, end), bs[k + 1].addr)
    decreases |bs|
  {
    Tail(bs, p, end);
    Touch(bs, p, end, 0);
    HeaderAt(m, bs, 0);
    var q, a := p + HEADER + Load32(m', p), bs[k + 1].addr;
    Touch(bs, p, end, k + 1);
    assert p < a;
    if k == 0 {
      StartsBehind(m', q, end, a);
    } else {
      HeaderFrame(m, m', bs[0]);
      var tl := bs[1..];
      TailHeaders(m, bs);
      assert tl[k - 1] == bs[k] && tl[k] == bs[k + 1] && q == bs[0].End();
      Swallowed(m, m', tl, q, end, k - 1);
    }
    MissedFrom(m', p, end, a);
  }

  lemma MissedFrom(m: Bytes, p: nat, end: nat, a: nat)
    requires p < end && end <= |m| && Tiled(m, p, end) && p + HEADER <= |m| && p != a
    requires !Meets(Walk(m, p + HEADER + Load32(m, p), end), a)
    ensures !Meets(Walk(m, p, end), a)
  {
  }

  lemma TailHeaders(m: Bytes, bs: seq<Block>)
    requires Headers(m, bs) && bs != []
    ensures Headers(m, bs[1..])
  {
    forall j | 0 <= j < |bs| - 1 ensures HeaderIs(m, bs[1..][j]) { HeaderAt(m, bs, j + 1); }
  }

  /** A walk from `q` on meets nothing in front of `q`. */
  lemma StartsBehind(m: Bytes, q: nat, end: nat, a: nat)
    requires Tiled(m, q, end) && end <= |m| && a < q
    ensures !Meets(Walk(m, q, end), a)
  {
    var bs := Walk(m, q, end);
    WalkTiles(m, q, end);
    Within(bs, q, end);
  }

  lemma Overgrown(m: Bytes, m1: Bytes, m2: Bytes, bs: seq<Block>, start: nat, end: nat, i: nat)
    requires HeapOk(m, bs, start, end) && i < |bs| && NextFree(m, bs[i].addr) && !Absorbs(bs, i)
    requires LinksApart(m, bs[i].addr) && Legible(m, bs[i].addr) && Freed(m, m1, bs[i].addr)
    requires LinksApart(m1, bs[i].addr) && Rejoined(m1, m2, bs[i].addr) && SameBytes(m, m1, 0, bs[i].addr)
    requires BlockAt(m, bs[i].addr) == bs[i] && (PrevFree(m1, bs[i].addr) <==> JoinsPrev(bs, i))
    ensures !(Tiled(m2, start, end) && Walk(m2, start, end) == AfterKfree(bs, i))
  {
    if JoinsPrev(bs, i) {
      FrontReads(m, bs, start, end, i - 1, i);
      FreedMore(m, m1, bs[i]);
      OvergrownJoined(m, m1, m2, bs, start, end, i, BlockAt(m, bs[i].next).size + HEADER);
    } else {
      OvergrownDiffers(m, m1, bs, start, end, i);
    }
  }

  /** Where a link misleads, the heap is not tiled by the blocks that should be there. */
  lemma KfreeFails(m: Bytes, m1: Bytes, m2: Bytes, bs: seq<Block>, start: nat, end: nat, i: nat)
    requires HeapOk(m, bs, start, end) && i < |bs| && !LinksSafe(m, bs, i)
    requires LinksApart(m, bs[i].addr) && Legible(m, bs[i].addr) && Freed(m, m1, bs[i].addr)
    requires LinksApart(m1, bs[i].addr) && Rejoined(m1, m2, bs[i].addr) && SameBytes(m, m1, 0, bs[i].addr)
    requires PrevFree(m1, bs[i].addr) <==> PrevFree(m, bs[i].addr)
    ensures !(Tiled(m2, start, end) && Walk(m2, start, end) == AfterKfree(bs, i))
    ensures !PrevSafe(m, bs, i) ==>
              && bs[i].Payload() <= |m2|
              && BlockAt(m2, bs[i].addr).(free := false) == Block(bs[i].addr, 0, false, 0, 0)
              && (NextSafe(m, bs, i) && Listed(bs, i, bs[i].prev) ==> !FrontMet(m2, bs, start, end, i))
  {
    FreedReads(m, bs, start, end, i);
    JoinCase(m, bs, start, end, i);
    if PrevSafe(m, bs, i) {
      FreedCase(m, bs, start, end, i);
      Overgrown(m, m1, m2, bs, start, end, i);
    } else {
      WipedDiffers(m2, bs, start, end, i);
      if NextSafe(m, bs, i) && Listed(bs, i, bs[i].prev) { KfreeLoses(m, m1, m2, bs, start, end, i); }
    }
  }
}
