/** What `rekalloc` does to the blocks. */
module HeapGrowth {
  import opened Common
  import opened HeapBytes
  import opened HeapBlocks
  import opened HeapLayout
  import opened HeapUse

  // ------------------------------------------------------------------------------------------
  // Growing in place
  // ------------------------------------------------------------------------------------------

  /** Payload bytes of block `i` and of the free block behind it. */
  function Room(bs: seq<Block>, i: nat): nat
    requires i < |bs| && Absorbs(bs, i)
  {
    bs[i].size + bs[i + 1].size
  }

  /** The two blocks that take their place. If nothing is left over, the second one is a zeroed header that
      no block links to. */
  function Resized(bs: seq<Block>, i: nat, size: nat): (ns: seq<Block>)
    requires i < |bs| && Absorbs(bs, i) && size <= Room(bs, i)
    ensures |ns| == 2
  {
    var b, n, behind := bs[i], bs[i + 1], bs[i].addr + size + HEADER;
    if Room(bs, i) == size then
      [b.(size := size, next := n.next), Block(behind, 0, true, 0, 0)]
    else
      [b.(size := size, next := behind), Block(behind, Room(bs, i) - size, true, b.addr, n.next)]
  }

  lemma ResizedFills(bs: seq<Block>, start: nat, end: nat, i: nat, size: nat)
    requires Contiguous(bs, start, end) && Regular(bs, end) && Units(size)
    requires i < |bs| && Absorbs(bs, i) && size <= Room(bs, i)
    ensures Contiguous(Resized(bs, i, size), bs[i].addr, Edge(bs, end, i + 2)) && Regular(Resized(bs, i, size), end)
    ensures Room(bs, i) != size ==> size + HEADER <= Room(bs, i)
  {
    Touch(bs, start, end, i);
    Touch(bs, start, end, i + 1);
    assert Placed(bs[i], end) && Placed(bs[i + 1], end);
    UnitsMinus(Room(bs, i), size);
    RegularTwo(Resized(bs, i, size), end);
  }

  /** What that makes of the blocks. */
  lemma ResizedShape(bs: seq<Block>, i: nat, size: nat)
    requires i < |bs| && Absorbs(bs, i) && size <= bs[i].size + bs[i + 1].size
    ensures Shape(Spliced(bs, i, i + 2, Resized(bs, i, size)))
         == Shape(bs)[..i]
            + [Block(bs[i].addr, size, bs[i].free, 0, 0),
               Block(bs[i].addr + 0x10 + size, bs[i].size + bs[i + 1].size - size, true, 0, 0)]
            + Shape(bs)[i + 2..]
  {
    ShapeSpliced(bs, i, i + 2, Resized(bs, i, size));
  }

  lemma ResizedRelinks(bs: seq<Block>, i: nat, size: nat)
    requires i < |bs| && Absorbs(bs, i) && size <= bs[i].size + bs[i + 1].size
    ensures var (ns, exact) := (Resized(bs, i, size), size == bs[i].size + bs[i + 1].size);
            && ns[0].prev == bs[i].prev && ns[0].next == (if exact then bs[i + 1].next else ns[1].addr)
            && ns[1].prev == (if exact then 0 else bs[i].addr) && ns[1].next == if exact then 0 else bs[i + 1].next
  {
  }

  /** Growing in place hands out the same block, with its new size. */
  lemma ResizedUse(bs: seq<Block>, start: nat, end: nat, i: nat, size: nat)
    requires Contiguous(bs, start, end) && i < |bs| && !bs[i].free
    requires Absorbs(bs, i) && size <= Room(bs, i)
    ensures Used(Spliced(bs, i, i + 2, Resized(bs, i, size)))
         == Used(bs) - {(bs[i].addr, bs[i].size)} + {(bs[i].addr, size)}
    ensures (bs[i].addr, size) !in Used(bs) - {(bs[i].addr, bs[i].size)}
  {
    UsedOnce(bs, start, end, i, size);
    var ns := Resized(bs, i, size);
    UsedSpliced(bs, i, i + 2, ns);
    UsedRest(bs, start, end, i);
    UsedTwo(ns[0], ns[1]);
    assert ns == [ns[0], ns[1]];
    UsedBehind(bs, i + 1);
  }

  /** A free block may be left out. */
  lemma UsedBehind(bs: seq<Block>, i: nat)
    requires i < |bs| && bs[i].free
    ensures Used(bs[i..]) == Used(bs[i + 1..])
  {
    assert bs[i..] == [bs[i]] + bs[i + 1..];
    UsedPlus([bs[i]], bs[i + 1..]);
    UsedOne(bs[i]);
  }

  lemma UsedTwo(a: Block, b: Block)
    ensures Used([a, b]) == Used([a]) + Used([b])
    ensures Used([a]) == (if a.free then {} else {(a.addr, a.size)})
    ensures Used([b]) == (if b.free then {} else {(b.addr, b.size)})
  {
    UsedPlus([a], [b]);
    UsedOne(a);
    UsedOne(b);
    assert [a, b] == [a] + [b];
  }

  lemma UsedRest(bs: seq<Block>, start: nat, end: nat, i: nat)
    requires Contiguous(bs, start, end) && i < |bs|
    ensures Used(bs[..i]) + Used(bs[i + 1..]) == Used(bs) - {(bs[i].addr, bs[i].size)}
  {
    UsedSpliced(bs, i, i + 1, []);
    UsedOnce(bs, start, end, i, bs[i].size);
    assert bs[i..i + 1] == [bs[i]];
    UsedOne(bs[i]);
  }

  /** Growing in place keeps the links sound, unless it uses up the neighbour and that one had a successor: the
      new header between them is in nobody's link. */
  lemma ResizedLinks(bs: seq<Block>, start: nat, end: nat, i: nat, size: nat)
    requires Contiguous(bs, start, end) && NextSound(bs) && i < |bs| && Absorbs(bs, i)
    requires size <= Room(bs, i)
    ensures NextSound(Spliced(bs, i, i + 2, Resized(bs, i, size))) <==> size < Room(bs, i) || bs[i + 1].next == 0
  {
    var ns := Resized(bs, i, size);
    var r := Spliced(bs, i, i + 2, ns);
    Touch(bs, start, end, i);
    Touch(bs, start, end, i + 1);
    assert r[i] == ns[0] && r[i + 1] == ns[1] && LinkSound(bs, i + 1);
    if size < Room(bs, i) || bs[i + 1].next == 0 {
      SpliceLinks(bs, i, i + 2, ns);
    } else {
      assert !LinkSound(r, i);
    }
  }

  // ------------------------------------------------------------------------------------------
  // Moving
  // ------------------------------------------------------------------------------------------

  /** `prev` of block `i` is null, or leads to a used block in front or to the block just in front. */
  predicate PrevListed(bs: seq<Block>, i: nat)
    requires i < |bs|
  {
    bs[i].prev == 0 || exists k: nat :: k < i && PrevAt(bs, i, k)
  }

  predicate PrevAt(bs: seq<Block>, i: nat, k: nat)
    requires k < i < |bs|
  {
    bs[k].addr == bs[i].prev && (!bs[k].free || k == i - 1)
  }

  /** `next` of block `i` is null, or leads to a used block behind or to the block just behind. */
  predicate NextListed(bs: seq<Block>, i: nat)
    requires i < |bs|
  {
    bs[i].next == 0 || exists k: nat :: i < k < |bs| && NextAt(bs, i, k)
  }

  predicate NextAt(bs: seq<Block>, i: nat, k: nat)
    requires i < k < |bs|
  {
    bs[k].addr == bs[i].next && (!bs[k].free || k == i + 1)
  }

  lemma PrevListedSafe(m: Bytes, bs: seq<Block>, start: nat, end: nat, i: nat)
    requires HeapOk(m, bs, start, end) && i < |bs| && PrevListed(bs, i)
    ensures PrevSafe(m, bs, i)
  {
    if bs[i].prev != 0 {
      var k: nat :| k < i && PrevAt(bs, i, k);
      FreedReads(m, bs, start, end, k);
    }
  }

  lemma NextListedSafe(m: Bytes, bs: seq<Block>, start: nat, end: nat, i: nat)
    requires HeapOk(m, bs, start, end) && i < |bs| && NextListed(bs, i)
    ensures NextSafe(m, bs, i)
  {
    if bs[i].next != 0 {
      var k: nat :| i < k < |bs| && NextAt(bs, i, k);
      FreedReads(m, bs, start, end, k);
    }
  }

  /** Where block `i` is listed after an allocation. */
  function MovedIndex(bs: seq<Block>, size: nat, i: nat): (j: nat)
    ensures i <= j
  {
    var f := FirstFit(bs, size);
    FirstFitFits(bs, size);
    if f < i && f < |bs| then i + |Reused(bs, f, size)| - 1 else i
  }

  /** Block `i` is used and called `u`, links to no free block, and neither of its links is stale. */
  predicate Releasable(bs: seq<Block>, i: nat, u: (nat, nat)) {
    IsUsed(bs, i, u) && NextListed(bs, i) && !Absorbs(bs, i) && PrevListed(bs, i)
  }

  /** An allocation leaves a used block where it is. */
  lemma StillThere(bs: seq<Block>, end: nat, size: nat, i: nat)
    requires i < |bs| && !bs[i].free && (FirstFit(bs, size) < |bs| ==> Fits(bs[FirstFit(bs, size)], size))
    ensures var (r, j) := (AfterKalloc(bs, end, size), MovedIndex(bs, size, i));
            j < |r| && r[j].addr == bs[i].addr && r[j].size == bs[i].size && !r[j].free && r[j].prev == bs[i].prev
            && (FirstFit(bs, size) < |bs| || i + 1 < |bs| ==> r[j] == bs[i])
  {
    if FirstFit(bs, size) < |bs| { ReusedAt(bs, FirstFit(bs, size), size); }
  }

  /** An allocation leaves a releasable block releasable. */
  lemma StillReleasable(bs: seq<Block>, end: nat, size: nat, i: nat, u: (nat, nat))
    requires FirstFit(bs, size) < |bs| ==> Fits(bs[FirstFit(bs, size)], size)
    requires Releasable(bs, i, u)
    ensures Releasable(AfterKalloc(bs, end, size), MovedIndex(bs, size, i), u)
  {
    if FirstFit(bs, size) < |bs| {
      ReuseReleasable(bs, end, size, i, u);
    } else {
      AppendMoves(bs, end, size, i);
    }
  }

  lemma ReuseReleasable(bs: seq<Block>, end: nat, size: nat, i: nat, u: (nat, nat))
    requires FirstFit(bs, size) < |bs| && Fits(bs[FirstFit(bs, size)], size) && Releasable(bs, i, u)
    ensures Releasable(AfterKalloc(bs, end, size), MovedIndex(bs, size, i), u)
  {
    var f := FirstFit(bs, size);
    var r, j := Spliced(bs, f, f + 1, Reused(bs, f, size)), MovedIndex(bs, size, i);
    ReuseMoves(bs, f, size, i);
    assert AfterKalloc(bs, end, size) == r && j < |r| && r[j] == bs[i];
  }

  lemma AppendMoves(bs: seq<Block>, end: nat, size: nat, i: nat)
    requires i < |bs| && !bs[i].free && NextListed(bs, i) && !Absorbs(bs, i) && PrevListed(bs, i)
    ensures var r := AfterAppend(bs, end, size);
            |r| == |bs| + 1 && r[i] == (if i + 1 < |bs| then bs[i] else bs[i].(next := end))
            && NextListed(r, i) && !Absorbs(r, i) && PrevListed(r, i)
  {
    var r := AfterAppend(bs, end, size);
    assert forall k :: 0 <= k < |bs| ==> r[k] == bs[k] || r[k] == bs[k].(next := end);
    assert forall k :: 0 <= k < |bs| - 1 ==> r[k] == bs[k];
    if bs[i].prev != 0 {
      var k: nat :| k < i && PrevAt(bs, i, k);
      assert PrevAt(r, i, k);
    }
    if i + 1 < |bs| && bs[i].next != 0 {
      var k: nat :| i < k < |bs| && NextAt(bs, i, k);
      assert NextAt(r, i, k);
    } else if i + 1 == |bs| {
      assert NextAt(r, i, |bs|);
    }
  }

  /** Where reuse leaves every block. */
  lemma ReusedAt(bs: seq<Block>, f: nat, size: nat)
    requires f < |bs| && Fits(bs[f], size)
    ensures var (r, n) := (Spliced(bs, f, f + 1, Reused(bs, f, size)), |Reused(bs, f, size)|);
            && |r| == |bs| + n - 1 && (forall k :: 0 <= k < f ==> r[k] == bs[k])
            && (forall k :: f < k < |bs| ==> r[k + n - 1] == bs[k])
            && r[f].addr == bs[f].addr && !r[f].free
  {
  }

  lemma ReuseMoves(bs: seq<Block>, f: nat, size: nat, i: nat)
    requires f < |bs| && Fits(bs[f], size)
    requires i < |bs| && !bs[i].free && NextListed(bs, i) && !Absorbs(bs, i) && PrevListed(bs, i)
    ensures var (r, n) := (Spliced(bs, f, f + 1, Reused(bs, f, size)), |Reused(bs, f, size)|);
            var j := if f < i then i + n - 1 else i;
            j < |r| && r[j] == bs[i] && NextListed(r, j) && !Absorbs(r, j) && PrevListed(r, j)
  {
    ReusedAt(bs, f, size);
    NoneAbsorbed(bs, f, size, i);
    if bs[i].next != 0 {
      var k: nat :| i < k < |bs| && NextAt(bs, i, k);
      NextMoves(bs, f, size, i, k);
    }
    if bs[i].prev != 0 {
      var k: nat :| k < i && PrevAt(bs, i, k);
      PrevMoves(bs, f, size, i, k);
    }
  }

  lemma NoneAbsorbed(bs: seq<Block>, f: nat, size: nat, i: nat)
    requires f < |bs| && Fits(bs[f], size) && i < |bs| && f != i && !Absorbs(bs, i)
    ensures var (r, n) := (Spliced(bs, f, f + 1, Reused(bs, f, size)), |Reused(bs, f, size)|);
            var j := if f < i then i + n - 1 else i;
            j < |r| && !Absorbs(r, j)
  {
    ReusedAt(bs, f, size);
    var r, n := Spliced(bs, f, f + 1, Reused(bs, f, size)), |Reused(bs, f, size)|;
    if i + 1 < |bs| && f < i { assert r[i + 1 + n - 1] == bs[i + 1]; }
  }

  /** The used block that `next` leads to is still there. */
  lemma NextMoves(bs: seq<Block>, f: nat, size: nat, i: nat, k: nat)
    requires f < |bs| && Fits(bs[f], size) && i < k < |bs| && f != i && NextAt(bs, i, k)
    ensures var (r, n) := (Spliced(bs, f, f + 1, Reused(bs, f, size)), |Reused(bs, f, size)|);
            var j := if f < i then i + n - 1 else i;
            j < |r| && r[j] == bs[i] && NextListed(r, j)
  {
    var r, n := Spliced(bs, f, f + 1, Reused(bs, f, size)), |Reused(bs, f, size)|;
    var j := if f < i then i + n - 1 else i;
    ReusedAt(bs, f, size);
    if f < k {
      assert NextAt(r, j, k + n - 1);
    } else {
      assert NextAt(r, j, k);
    }
  }

  /** The block that `prev` leads to is still there. */
  lemma PrevMoves(bs: seq<Block>, f: nat, size: nat, i: nat, k: nat)
    requires f < |bs| && Fits(bs[f], size) && k < i < |bs| && f != i && PrevAt(bs, i, k)
    ensures var (r, n) := (Spliced(bs, f, f + 1, Reused(bs, f, size)), |Reused(bs, f, size)|);
            var j := if f < i then i + n - 1 else i;
            j < |r| && r[j] == bs[i] && PrevListed(r, j)
  {
    var r, n := Spliced(bs, f, f + 1, Reused(bs, f, size)), |Reused(bs, f, size)|;
    var j := if f < i then i + n - 1 else i;
    ReusedAt(bs, f, size);
    if k <= f {
      assert PrevAt(r, j, k);
    } else {
      assert PrevAt(r, j, k + n - 1);
    }
  }

  // ------------------------------------------------------------------------------------------
  // What growing does to the memory
  // ------------------------------------------------------------------------------------------

  /** The payloads of the given blocks are as they were. */
  predicate KeepsAll(m: Bytes, m': Bytes, us: set<(nat, nat)>) {
    forall u :: u in us ==> SameBytes(m, m', u.0 + HEADER, u.0 + HEADER + u.1)
  }

  /** Used blocks do not overlap. */
  lemma UsedApart(bs: seq<Block>, start: nat, end: nat, u: (nat, nat), v: (nat, nat))
    requires Contiguous(bs, start, end) && u in Used(bs) && v in Used(bs) && u != v
    ensures u.0 + HEADER + u.1 <= v.0 || v.0 + HEADER + v.1 <= u.0
  {
    var b :| b in bs && !b.free && (b.addr, b.size) == u;
    var i :| 0 <= i < |bs| && bs[i] == b;
    Touch(bs, start, end, i);
    var c :| c in bs && !c.free && (c.addr, c.size) == v;
    var j :| 0 <= j < |bs| && bs[j] == c;
  }

  lemma UsedWithin(bs: seq<Block>, start: nat, end: nat, u: (nat, nat))
    requires Contiguous(bs, start, end) && u in Used(bs)
    ensures start <= u.0 && u.0 + HEADER + u.1 <= end
  {
    Within(bs, start, end);
  }

  /** Keeping all payloads but that of block `i` keeps those of the other used blocks. */
  lemma OthersKeepAll(m: Bytes, m': Bytes, bs: seq<Block>, start: nat, end: nat, i: nat, us: set<(nat, nat)>)
    requires Contiguous(bs, start, end) && OtherPayloads(m, m', bs, i) && us <= Used(bs)
    requires i < |bs| ==> bs[i].free || (bs[i].addr, bs[i].size) !in us
    ensures KeepsAll(m, m', us)
  {
    forall u | u in us ensures SameBytes(m, m', u.0 + HEADER, u.0 + HEADER + u.1) {
      var b :| b in bs && !b.free && (b.addr, b.size) == u;
      var k :| 0 <= k < |bs| && bs[k] == b;
      assert SameBytes(m, m', bs[k].Payload(), bs[k].End());
    }
  }

  /** A write into the payload of a used block is no concern of the others. */
  lemma PayloadWritten(m: Bytes, m': Bytes, bs: seq<Block>, start: nat, end: nat, u: (nat, nat))
    requires HeapOk(m, bs, start, end) && u in Used(bs)
    requires SameOutside(m, m', u.0 + HEADER, u.0 + HEADER + u.1)
    ensures HeapOk(m', bs, start, end) && KeepsAll(m, m', Used(bs) - {u})
  {
    var b :| b in bs && !b.free && (b.addr, b.size) == u;
    var i :| 0 <= i < |bs| && bs[i] == b;
    Touch(bs, start, end, i);
    forall k | 0 <= k < |bs| ensures HeaderIs(m', bs[k]) {
      Touch(bs, start, end, k);
      HeaderAt(m, bs, k);
      HeaderFrame(m, m', bs[k]);
    }
    forall v | v in Used(bs) - {u} ensures SameBytes(m, m', v.0 + HEADER, v.0 + HEADER + v.1) {
      UsedApart(bs, start, end, u, v);
      UsedWithin(bs, start, end, v);
    }
  }

  /** `next` of the header at `node` leads behind its block, to one in memory, and together they have `size` bytes. */
  predicate Regrowable(m: Bytes, node: nat, size: nat) {
    && 0 < node && node + HEADER <= |m| < WORD
    && var b := BlockAt(m, node);
    && b.End() <= b.next && b.next + HEADER <= |m|
    && var n := BlockAt(m, b.next);
    && n.End() <= |m| && size <= b.size + n.size && Units(size) && Units(b.size) && Units(b.next - b.End())
  }

  /** The block at `node` has taken `size` of those bytes. What is left is zeroed, or gets a header. */
  predicate Regrew(m: Bytes, m': Bytes, node: nat, size: nat)
    requires Regrowable(m, node, size)
  {
    var b := BlockAt(m, node);
    if size == b.size + BlockAt(m, b.next).size then TookAll(m, m', node, size) else TookSome(m, m', node, size)
  }

  predicate TookAll(m: Bytes, m': Bytes, node: nat, size: nat)
    requires Regrowable(m, node, size)
  {
    var b := BlockAt(m, node);
    var n := BlockAt(m, b.next);
    && SameOutside(m, m', node, n.End()) && SameBytes(m, m', node + HEADER, b.End())
    && BlockAt(m', node) == b.(size := size, next := n.next)
    && forall a :: b.next <= a < n.End() ==> m'[a] == 0
  }

  predicate TookSome(m: Bytes, m': Bytes, node: nat, size: nat)
    requires Regrowable(m, node, size)
  {
    var b := BlockAt(m, node);
    var (n, behind) := (BlockAt(m, b.next), node + size + HEADER);
    && OnlyHeaders(m, m', node, behind, 0)
    && BlockAt(m', node) == b.(size := size, next := behind)
    && behind + HEADER <= |m'| && BlockAt(m', behind) == Block(behind, b.size + n.size - size, true, node, n.next)
  }

  /** Bytes of the block are kept, and so is what is not one of those. */
  lemma RegrewKeeps(m: Bytes, m': Bytes, node: nat, size: nat)
    requires Regrowable(m, node, size) && Regrew(m, m', node, size)
    ensures var b := BlockAt(m, node);
            && SameBytes(m, m', node + HEADER, node + HEADER + if size < b.size then size else b.size)
            && SameOutside(m, m', node, BlockAt(m, b.next).End())
            && GrownEnd(m, node, size) <= BlockAt(m, b.next).End()
  {
  }

  /** Where the block ends then, and the rest. */
  function GrownEnd(m: Bytes, node: nat, size: nat): (a: nat)
    requires Regrowable(m, node, size)
  {
    var b := BlockAt(m, node);
    var n := BlockAt(m, b.next);
    if size == b.size + n.size then node + HEADER + size else node + 2 * HEADER + b.size + n.size
  }

  /** The new header is that of the next one, or apart from it. */
  lemma BehindApart(m: Bytes, node: nat, size: nat)
    requires Regrowable(m, node, size)
    ensures var (next, behind) := (BlockAt(m, node).next, node + size + HEADER);
            && behind + HEADER <= GrownEnd(m, node, size) + HEADER
            && (behind == next || behind + HEADER <= next || next + HEADER <= behind)
  {
    var b := BlockAt(m, node);
    assert Units(b.next - b.End());
  }

  /** What growing reads. */
  lemma GrowReads(m: Bytes, bs: seq<Block>, start: nat, end: nat, i: nat, size: nat)
    requires HeapOk(m, bs, start, end) && i < |bs| && NextFree(m, bs[i].addr) && Units(size)
    ensures BlockAt(m, bs[i].addr) == bs[i] && bs[i].next != 0 && bs[i].next + HEADER <= |m|
    ensures var n := BlockAt(m, bs[i].next);
            && (n.End() <= end && (n.size + bs[i].size) % WORD >= size ==>
                  Regrowable(m, bs[i].addr, size) && GrownEnd(m, bs[i].addr, size) <= n.End())
            && (n.End() <= end ==> (n.size + bs[i].size) % WORD == n.size + bs[i].size)
            && (Absorbs(bs, i) ==> n == bs[i + 1] && n.End() <= end && n.size + bs[i].size == Room(bs, i))
  {
    FreedReads(m, bs, start, end, i);
    assert Placed(bs[i], end);
  }

  /** The headers of a resized block, and of the rest behind it, make up the new tiling. */
  lemma ResizeDone(m: Bytes, m': Bytes, bs: seq<Block>, start: nat, end: nat, i: nat, size: nat)
    requires HeapOk(m, bs, start, end) && i < |bs| && Absorbs(bs, i) && !bs[i].free
    requires Regrowable(m, bs[i].addr, size) && Regrew(m, m', bs[i].addr, size)
    ensures size <= Room(bs, i) && HeapOk(m', Spliced(bs, i, i + 2, Resized(bs, i, size)), start, end)
    ensures KeepsAll(m, m', Used(bs) - {(bs[i].addr, bs[i].size)})
    ensures KeepsStart(m, m', (bs[i].addr, bs[i].size), (bs[i].addr, size))
  {
    FreedReads(m, bs, start, end, i);
    RegrewKeeps(m, m', bs[i].addr, size);
    RegrewHeaders(m, m', bs, i, size);
    ResizeTiles(m, m', bs, start, end, i, size);
    ResizeKeeps(m, m', bs, start, end, i);
    StartKept(m, m', (bs[i].addr, bs[i].size), size);
  }

  lemma RegrewHeaders(m: Bytes, m': Bytes, bs: seq<Block>, i: nat, size: nat)
    requires i < |bs| && Absorbs(bs, i) && Regrowable(m, bs[i].addr, size) && Regrew(m, m', bs[i].addr, size)
    requires BlockAt(m, bs[i].addr) == bs[i] && BlockAt(m, bs[i + 1].addr) == bs[i + 1] && bs[i].End() == bs[i + 1].addr
    ensures size <= Room(bs, i) && Headers(m', Resized(bs, i, size))
  {
    var behind := bs[i].addr + size + HEADER;
    if size == Room(bs, i) {
      ZeroHeader(m', behind);
    }
    ResizedHeaders(m', bs, i, size);
  }

  /** Growing into what is not the block behind: the walk gets to where the block and the rest end. */
  lemma MisgrownTiles(m: Bytes, m': Bytes, bs: seq<Block>, start: nat, end: nat, i: nat, size: nat)
    requires HeapOk(m, bs, start, end) && i < |bs| && Regrowable(m, bs[i].addr, size) && Regrew(m, m', bs[i].addr, size)
    requires GrownEnd(m, bs[i].addr, size) <= end
    ensures Tiled(m', start, end) <==> Tiled(m', GrownEnd(m, bs[i].addr, size), end)
  {
    FreedReads(m, bs, start, end, i);
    RegrewKeeps(m, m', bs[i].addr, size);
    WalkReaches(m, m', bs, start, end, i);
    RegrewWalk(m, m', bs[i].addr, size, end);
  }

  lemma RegrewWalk(m: Bytes, m': Bytes, node: nat, size: nat, end: nat)
    requires Regrowable(m, node, size) && Regrew(m, m', node, size) && GrownEnd(m, node, size) <= end <= |m|
    ensures Tiled(m', node, end) <==> Tiled(m', GrownEnd(m, node, size), end)
  {
    var e, behind := GrownEnd(m, node, size), node + size + HEADER;
    OneStep(m', node, end);
    if behind != e { OneStep(m', behind, end); }
  }

  lemma OneStep(m: Bytes, p: nat, end: nat)
    requires p + HEADER <= end <= |m|
    ensures Tiled(m, p, end) <==> Tiled(m, BlockAt(m, p).End(), end)
  {
  }

  /** Where only bytes from block `i` on change, the walk still gets there. */
  lemma {:induction false} WalkReaches(m: Bytes, m': Bytes, bs: seq<Block>, p: nat, end: nat, i: nat)
    requires Contiguous(bs, p, end) && Headers(m, bs) && end <= |m| && i < |bs| && SameBytes(m, m', 0, bs[i].addr)
    ensures Tiled(m', p, end) <==> Tiled(m', bs[i].addr, end)
    decreases i
  {
    if i > 0 {
      Tail(bs, p, end);
      Touch(bs, p, end, 0);
      HeaderAt(m, bs, 0);
      HeaderFrame(m, m', bs[0]);
      TailHeaders(m, bs);
      Within(bs[1..], bs[0].End(), end);
      WalkReaches(m, m', bs[1..], bs[0].End(), end, i - 1);
    }
  }

  lemma StartKept(m: Bytes, m': Bytes, u: (nat, nat), size: nat)
    requires u.0 + HEADER + u.1 <= |m|
    requires SameBytes(m, m', u.0 + HEADER, u.0 + HEADER + if size < u.1 then size else u.1)
    ensures KeepsStart(m, m', u, (u.0, size))
  {
  }

  lemma ResizeTiles(m: Bytes, m': Bytes, bs: seq<Block>, start: nat, end: nat, i: nat, size: nat)
    requires HeapOk(m, bs, start, end) && i < |bs| && Absorbs(bs, i)
    requires size <= Room(bs, i) && Units(size)
    requires SameOutside(m, m', bs[i].addr, bs[i + 1].End()) && Headers(m', Resized(bs, i, size))
    ensures HeapOk(m', Spliced(bs, i, i + 2, Resized(bs, i, size)), start, end)
  {
    Touch(bs, start, end, i + 1);
    ResizedFills(bs, start, end, i, size);
    SpliceOk(m, m', bs, start, end, i, i + 2, Resized(bs, i, size));
  }

  lemma ResizeKeeps(m: Bytes, m': Bytes, bs: seq<Block>, start: nat, end: nat, i: nat)
    requires Contiguous(bs, start, end) && i + 1 < |bs| && bs[i + 1].free
    requires SameOutside(m, m', bs[i].addr, bs[i + 1].End())
    ensures KeepsAll(m, m', Used(bs) - {(bs[i].addr, bs[i].size)})
  {
    forall u | u in Used(bs) - {(bs[i].addr, bs[i].size)} ensures SameBytes(m, m', u.0 + HEADER, u.0 + HEADER + u.1) {
      var b :| b in bs && !b.free && (b.addr, b.size) == u;
      var k :| 0 <= k < |bs| && bs[k] == b;
      Touch(bs, start, end, k);
      Touch(bs, start, end, i);
      Touch(bs, start, end, i + 1);
    }
  }

  lemma ResizedHeaders(m: Bytes, bs: seq<Block>, i: nat, size: nat)
    requires i < |bs| && Absorbs(bs, i) && size <= Room(bs, i)
    requires bs[i].addr + size + 2 * HEADER <= |m|
    requires BlockAt(m, bs[i].addr) == Resized(bs, i, size)[0]
    requires BlockAt(m, bs[i].addr + size + HEADER) == Resized(bs, i, size)[1]
    ensures Headers(m, Resized(bs, i, size))
  {
  }

  /** The heap has room for what is to be allocated. */
  predicate HasRoom(bs: seq<Block>, end: nat, limit: nat, size: nat) {
    LowestFree(bs, size, |bs|) ==> end + HEADER + size <= limit
  }

  /** The blocks after a move: an allocation and a release. */
  function AfterMove(bs: seq<Block>, end: nat, i: nat, size: nat): seq<Block>
    requires i < |bs| && !bs[i].free
  {
    FirstFitFits(bs, size);
    StillThere(bs, end, size, i);
    AfterKfree(AfterKalloc(bs, end, size), MovedIndex(bs, size, i))
  }

  /** The bytes of `u` are found in `v`, up to the smaller one of the two sizes. */
  predicate KeepsStart(m: Bytes, m': Bytes, u: (nat, nat), v: (nat, nat)) {
    var from, to, n := u.0 + HEADER, v.0 + HEADER, if u.1 <= v.1 then u.1 else v.1;
    from + n <= |m| && to + n <= |m'| && m'[to..to + n] == m[from..from + n]
  }

  /** Block `i` is used, and is the one called `u`. */
  predicate IsUsed(bs: seq<Block>, i: nat, u: (nat, nat)) {
    i < |bs| && !bs[i].free && u == (bs[i].addr, bs[i].size)
  }

  /** An allocation, in terms of what is handed out. */
  lemma KallocKeeps(m: Bytes, m': Bytes, bs: seq<Block>, start: nat, end: nat, size: nat)
    requires HeapOk(m, bs, start, end) && OtherPayloads(m, m', bs, FirstFit(bs, size))
    ensures FirstFit(bs, size) < |bs| ==> Fits(bs[FirstFit(bs, size)], size)
    ensures Used(AfterKalloc(bs, end, size)) == Used(bs) + {HandedOut(bs, end, size)}
    ensures HandedOut(bs, end, size) !in Used(bs) && HandedOut(bs, end, size).1 >= size
    ensures KeepsAll(m, m', Used(bs))
  {
    FirstFitFits(bs, size);
    KallocHandsOut(bs, start, end, size);
    OthersKeepAll(m, m', bs, start, end, FirstFit(bs, size), Used(bs));
  }

  /** Where an allocation places what it hands out. */
  lemma KallocPlace(m: Bytes, bs: seq<Block>, start: nat, end: nat, size: nat, r: nat, end': nat)
    requires HeapOk(m, bs, start, end) && r == Edge(bs, end, FirstFit(bs, size)) + HEADER
    requires end' == EndAfter(bs, end, size)
    ensures forall k: nat :: LowestFree(bs, size, k) ==>
                               if k < |bs| then r == bs[k].Payload() && end' == end
                               else r == end + HEADER && end' == end + HEADER + size
  {
    forall k: nat | LowestFree(bs, size, k)
      ensures if k < |bs| then r == bs[k].Payload() && end' == end else r == end + HEADER && end' == end + HEADER + size
    {
      FirstFitIs(bs, size, k);
    }
  }

  /** A release, in terms of what is handed out. */
  lemma KfreeUse(m: Bytes, m': Bytes, bs: seq<Block>, start: nat, end: nat, i: nat)
    requires HeapOk(m, bs, start, end) && i < |bs| && PayloadsBut(m, m', bs, PassedOn(bs, i))
    ensures Used(AfterKfree(bs, i)) == Used(bs) - {(bs[i].addr, bs[i].size)}
    ensures Harmless(bs, PassedOn(bs, i)) ==> KeepsAll(m, m', Used(bs))
  {
    KfreeTakesBack(bs, start, end, i);
    if Harmless(bs, PassedOn(bs, i)) {
      ButNone(m, m', bs, start, end, PassedOn(bs, i));
      OthersKeepAll(m, m', bs, start, end, |bs|, Used(bs));
    }
  }

  /** A write to `prev` of the header at `a` touches no payload. */
  predicate Harmless(bs: seq<Block>, a: nat) { a == 0 || exists k: nat :: k < |bs| && bs[k].addr == a }

  lemma ButNone(m: Bytes, m': Bytes, bs: seq<Block>, start: nat, end: nat, a: nat)
    requires Contiguous(bs, start, end) && PayloadsBut(m, m', bs, a) && Harmless(bs, a)
    ensures OtherPayloads(m, m', bs, |bs|)
  {
    forall k | 0 <= k < |bs| ensures SameBytes(m, m', bs[k].Payload(), bs[k].End()) {
      assert PayloadBut(m, m', bs[k], a);
      if a != 0 {
        var j: nat :| j < |bs| && bs[j].addr == a;
        Touch(bs, start, end, k);
      }
    }
  }

  /** What a block passes on is harmless, if its own links are not stale. */
  lemma PassedHarmless(bs: seq<Block>, i: nat)
    requires i < |bs| && NextListed(bs, i) && !Absorbs(bs, i)
    ensures Harmless(bs, PassedOn(bs, i))
  {
    if bs[i].next != 0 {
      var k: nat :| i < k < |bs| && NextAt(bs, i, k);
    }
  }

  /** Where a move copies from, and where to. */
  lemma CopyRanges(m: Bytes, bs: seq<Block>, start: nat, end: nat, u: (nat, nat), v: (nat, nat))
    requires HeapOk(m, bs, start, end) && u in Used(bs) && v in Used(bs) && u != v
    ensures 0 < u.0 && u.0 + HEADER + u.1 <= |m| && v.0 + HEADER + v.1 <= |m| && BlockAt(m, u.0).size == u.1
    ensures v.0 <= u.0 || u.0 + HEADER + u.1 <= v.0
  {
    UsedApart(bs, start, end, u, v);
    UsedWithin(bs, start, end, u);
    UsedWithin(bs, start, end, v);
    UsedHeader(m, bs, start, end, u);
  }

  /** The copy of `n` bytes, of which `room` fit, changes bytes past those, or leaves memory. */
  predicate Overruns(m: Bytes, to: nat, room: nat, from: nat, n: nat) {
    n > room && !(to + n <= |m| && from + n <= |m| && m[to + room..to + n] == m[from + room..from + n])
  }

  /** `n` bytes from `from` on are found at `to`, and nothing else changed. */
  predicate Copied(m: Bytes, m': Bytes, to: nat, from: nat, n: nat) {
    && to + n <= |m| && from + n <= |m| && SameOutside(m, m', to, to + n)
    && m'[to..to + n] == m[from..from + n]
  }

  /** All blocks but the one at `a`, and what follows them, are byte by byte as they were. */
  predicate OthersSame(m: Bytes, m': Bytes, bs: seq<Block>, end: nat, a: nat) {
    && (forall k :: 0 <= k < |bs| ==> BlockSame(m, m', bs[k], a))
    && SameBytes(m, m', end, |m|)
  }

  predicate BlockSame(m: Bytes, m': Bytes, b: Block, a: nat) { b.addr == a || SameBytes(m, m', b.addr, b.End()) }

  /** A copy into a used block leaves every byte behind it alone if and only if it does not overrun. */
  lemma OverrunSpoils(m: Bytes, m': Bytes, bs: seq<Block>, start: nat, end: nat, v: (nat, nat), from: nat, n: nat)
    requires HeapOk(m, bs, start, end) && v in Used(bs) && Copied(m, m', v.0 + HEADER, from, n)
    ensures OthersSame(m, m', bs, end, v.0) <==> !Overruns(m, v.0 + HEADER, v.1, from, n)
  {
    UsedWithin(bs, start, end, v);
    if OthersSame(m, m', bs, end, v.0) {
      forall x | v.0 + HEADER + v.1 <= x < |m| ensures m'[x] == m[x] {
        if m'[x] != m[x] { ByteBehind(m, m', bs, start, end, v, x); }
      }
      NoOverrun(m, m', v.0 + HEADER, v.1, from, n);
    }
    if !Overruns(m, v.0 + HEADER, v.1, from, n) {
      CopyInside(m, m', v.0 + HEADER, v.1, from, n);
      InsideOnly(m, m', bs, start, end, v);
    }
  }

  lemma NoOverrun(m: Bytes, m': Bytes, to: nat, room: nat, from: nat, n: nat)
    requires Copied(m, m', to, from, n) && SameBytes(m, m', to + room, |m|)
    ensures !Overruns(m, to, room, from, n)
  {
    if n > room {
      assert m'[to + room..to + n] == m'[to..to + n][room..] && m[from + room..from + n] == m[from..from + n][room..];
    }
  }

  /** Without an overrun only bytes of the new block change. */
  lemma CopyInside(m: Bytes, m': Bytes, to: nat, room: nat, from: nat, n: nat)
    requires Copied(m, m', to, from, n) && !Overruns(m, to, room, from, n)
    ensures SameOutside(m, m', to, to + room)
  {
    forall x | 0 <= x < |m| && !(to <= x < to + room) ensures m'[x] == m[x] {
      if to + room <= x < to + n {
        assert m'[x] == m'[to..to + n][x - to] == m[from..from + n][x - to];
        assert m[x] == m[to + room..to + n][x - to - room] == m[from + room..from + n][x - to - room];
      }
    }
  }

  lemma InsideOnly(m: Bytes, m': Bytes, bs: seq<Block>, start: nat, end: nat, v: (nat, nat))
    requires HeapOk(m, bs, start, end) && v in Used(bs) && SameOutside(m, m', v.0 + HEADER, v.0 + HEADER + v.1)
    ensures OthersSame(m, m', bs, end, v.0)
  {
    var b :| b in bs && !b.free && (b.addr, b.size) == v;
    var i :| 0 <= i < |bs| && bs[i] == b;
    forall k | 0 <= k < |bs| ensures BlockSame(m, m', bs[k], v.0) {
      Touch(bs, start, end, i);
    }
    Touch(bs, start, end, i);
  }

  /** A byte behind a used block belongs to another one, or to what follows them all. */
  lemma ByteBehind(m: Bytes, m': Bytes, bs: seq<Block>, start: nat, end: nat, v: (nat, nat), x: nat)
    requires HeapOk(m, bs, start, end) && v in Used(bs) && v.0 + HEADER + v.1 <= x < |m| && |m'| == |m| && m'[x] != m[x]
    ensures !OthersSame(m, m', bs, end, v.0)
  {
    if x < end {
      var b :| b in bs && !b.free && (b.addr, b.size) == v;
      var i :| 0 <= i < |bs| && bs[i] == b;
      Touch(bs, start, end, i);
      var k := Holder(bs, start, end, i, x);
      Touch(bs, start, end, i);
      assert !BlockSame(m, m', bs[k], v.0);
    }
  }

  /** The block that a byte behind block `i` belongs to. */
  lemma {:induction false} Holder(bs: seq<Block>, start: nat, end: nat, i: nat, x: nat) returns (k: nat)
    requires Contiguous(bs, start, end) && i < |bs| && bs[i].End() <= x < end
    ensures i < k < |bs| && bs[k].addr <= x < bs[k].End()
    decreases |bs| - i
  {
    Touch(bs, start, end, i);
    k := i + 1;
    Touch(bs, start, end, k);
    if x >= bs[k].End() { k := Holder(bs, start, end, k, x); }
  }

  /** `taken` is the memory after an allocation. */
  predicate Took(m: Bytes, taken: Bytes, bs: seq<Block>, start: nat, end: nat, size: nat) {
    && (FirstFit(bs, size) < |bs| ==> Fits(bs[FirstFit(bs, size)], size))
    && Tiled(taken, start, EndAfter(bs, end, size)) &&
       Walk(taken, start, EndAfter(bs, end, size)) == AfterKalloc(bs, end, size)
    && KeepsAll(m, taken, Used(bs))
  }

  /** What `kalloc` and `memcpy` do in a move: `taken` is the memory in between, `copied` the one after both. */
  predicate Relocated(m: Bytes, taken: Bytes, copied: Bytes, bs: seq<Block>, start: nat, end: nat, size: nat,
                      u: (nat, nat), got: (nat, nat))
  {
    && Took(m, taken, bs, start, end, size) &&
       Spoils(taken, copied, AfterKalloc(bs, end, size), EndAfter(bs, end, size), u, got)
    && got == HandedOut(bs, end, size) && got !in Used(bs) && got.1 >= size
  }

  /** The copy, as far as memory goes: it leaves all that is behind the new block alone if and only if it does not
      overrun. */
  predicate Spoils(m: Bytes, m': Bytes, bs: seq<Block>, end: nat, u: (nat, nat), v: (nat, nat)) {
    v.0 + HEADER + u.1 <= |m| ==>
      && Copied(m, m', v.0 + HEADER, u.0 + HEADER, u.1)
      && (OthersSame(m, m', bs, end, v.0) <==> !Overruns(m, v.0 + HEADER, v.1, u.0 + HEADER, u.1))
  }

  /** A copy that stays in the new block. */
  lemma CopyDone(m: Bytes, m': Bytes, us: set<(nat, nat)>, bs: seq<Block>, start: nat, end: nat, u: (nat, nat),
                 v: (nat, nat))
    requires HeapOk(m, bs, start, end) && Used(bs) == us + {v} && u in us && v !in us
    requires Copied(m, m', v.0 + HEADER, u.0 + HEADER, u.1) && !Overruns(m, v.0 + HEADER, v.1, u.0 + HEADER, u.1)
    ensures HeapOk(m', bs, start, end) && KeepsAll(m, m', us) && KeepsStart(m, m', u, v)
  {
    UsedWithin(bs, start, end, v);
    CopyInside(m, m', v.0 + HEADER, v.1, u.0 + HEADER, u.1);
    PayloadWritten(m, m', bs, start, end, v);
    assert us + {v} - {v} == us;
    StartCopied(m, m', u, v);
  }

  lemma KeepsThrough(m: Bytes, m1: Bytes, m2: Bytes, bs: seq<Block>, u: (nat, nat), v: (nat, nat))
    requires KeepsAll(m, m1, Used(bs)) && KeepsStart(m, m1, u, v)
    ensures KeepsAll(m1, m2, Used(bs) + {v}) ==> KeepsAll(m, m2, Used(bs) - {u}) && KeepsStart(m, m2, u, v)
  {
    if KeepsAll(m1, m2, Used(bs) + {v}) { MoveKeeps(m, m1, m2, Used(bs), u, v); }
  }

  /** The links of the old block do not mislead after the copy, and what it passes on does no harm. */
  predicate MovesWell(copied: Bytes, bs: seq<Block>, end: nat, i: nat, size: nat) {
    && (FirstFit(bs, size) < |bs| ==> Fits(bs[FirstFit(bs, size)], size))
    && var (ks, j) := (AfterKalloc(bs, end, size), MovedIndex(bs, size, i));
    j < |ks| && LinksSafe(copied, ks, j) && Harmless(ks, PassedOn(ks, j))
  }

  /** A move whose block is releasable: its release goes well, whatever was copied. */
  lemma MoveSafe(copied: Bytes, bs: seq<Block>, start: nat, end: nat, end': nat, i: nat, size: nat, u: (nat, nat))
    requires FirstFit(bs, size) < |bs| ==> Fits(bs[FirstFit(bs, size)], size)
    requires Releasable(bs, i, u) && HeapOk(copied, AfterKalloc(bs, end, size), start, end')
    ensures MovesWell(copied, bs, end, i, size) && Legible(copied, u.0)
  {
    var ks, j := AfterKalloc(bs, end, size), MovedIndex(bs, size, i);
    StillReleasable(bs, end, size, i, u);
    PrevListedSafe(copied, ks, start, end', j);
    NextListedSafe(copied, ks, start, end', j);
    PassedHarmless(ks, j);
    FreedCase(copied, ks, start, end', j);
  }

  /** The header that `rekalloc` reads first. */
  lemma UsedReads(m: Bytes, bs: seq<Block>, start: nat, end: nat, i: nat)
    requires HeapOk(m, bs, start, end) && i < |bs|
    ensures bs[i].Payload() <= |m| && BlockAt(m, bs[i].addr) == bs[i]
    ensures bs[i].next != 0 ==> bs[i].next + HEADER <= |m|
    ensures Absorbs(bs, i) ==> NextFree(m, bs[i].addr)
    ensures NextListed(bs, i) && !Absorbs(bs, i) ==> !NextFree(m, bs[i].addr)
  {
    FreedReads(m, bs, start, end, i);
    FreedCase(m, bs, start, end, i);
    if NextListed(bs, i) { NextListedSafe(m, bs, start, end, i); }
  }

  lemma StartCopied(m: Bytes, m': Bytes, u: (nat, nat), v: (nat, nat))
    requires Copied(m, m', v.0 + HEADER, u.0 + HEADER, u.1) && v.0 + HEADER + v.1 <= |m'|
    ensures KeepsStart(m, m', u, v)
  {
    var from, to, n := u.0 + HEADER, v.0 + HEADER, if u.1 <= v.1 then u.1 else v.1;
    assert m'[to..to + n] == m'[to..to + u.1][..n] && m[from..from + n] == m[from..from + u.1][..n];
  }

  lemma UsedAt(bs: seq<Block>, i: nat)
    requires i < |bs| && !bs[i].free
    ensures (bs[i].addr, bs[i].size) in Used(bs)
  {
    assert bs[i] in bs;
  }

  /** Whoever is handed out has a header that says so. */
  lemma UsedHeader(m: Bytes, bs: seq<Block>, start: nat, end: nat, u: (nat, nat))
    requires HeapOk(m, bs, start, end) && u in Used(bs)
    ensures u.0 + HEADER <= |m| && BlockAt(m, u.0).size == u.1
  {
    var b :| b in bs && !b.free && (b.addr, b.size) == u;
    var i :| 0 <= i < |bs| && bs[i] == b;
    HeaderAt(m, bs, i);
  }

  /** Allocation and copy together. */
  lemma CopyKeeps(m: Bytes, m1: Bytes, m2: Bytes, us: set<(nat, nat)>, u: (nat, nat), v: (nat, nat))
    requires u in us && KeepsAll(m, m1, us) && KeepsAll(m1, m2, us) && KeepsStart(m1, m2, u, v)
    ensures KeepsAll(m, m2, us) && KeepsStart(m, m2, u, v)
  {
    var from := u.0 + HEADER;
    assert SameBytes(m, m1, from, from + u.1);
    var n := if u.1 <= v.1 then u.1 else v.1;
    assert m1[from..from + n] == m[from..from + n];
    KeepsTwice(m, m1, m2, us);
  }

  lemma KeepsTwice(m: Bytes, m1: Bytes, m2: Bytes, us: set<(nat, nat)>)
    requires KeepsAll(m, m1, us) && KeepsAll(m1, m2, us)
    ensures KeepsAll(m, m2, us)
  {
    forall w | w in us ensures SameBytes(m, m2, w.0 + HEADER, w.0 + HEADER + w.1) {
      assert SameBytes(m, m1, w.0 + HEADER, w.0 + HEADER + w.1);
      assert SameBytes(m1, m2, w.0 + HEADER, w.0 + HEADER + w.1);
    }
  }

  /** Duplication and release together. */
  lemma MoveKeeps(m: Bytes, m1: Bytes, m2: Bytes, us: set<(nat, nat)>, u: (nat, nat), v: (nat, nat))
    requires KeepsAll(m, m1, us) && KeepsAll(m1, m2, us + {v}) && KeepsStart(m, m1, u, v)
    ensures KeepsAll(m, m2, us - {u}) && KeepsStart(m, m2, u, v)
  {
    var to := v.0 + HEADER;
    KeepsTwice(m, m1, m2, us);
    assert SameBytes(m1, m2, to, to + v.1);
    var n := if u.1 <= v.1 then u.1 else v.1;
    assert m2[to..to + n] == m1[to..to + n];
  }
}
