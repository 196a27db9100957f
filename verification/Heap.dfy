/** The kernel heap of `kernel/memory/heap.c`, working in place on its bytes. */
module Heap {
  import opened Common
  import opened HeapBytes
  import opened HeapBlocks
  import opened HeapLayout
  import opened HeapUse
  import opened HeapGrowth

  /** Failed: a null pointer. Lost: the heap is not what it was any more. */
  datatype Regrowth = Failed | Lost | At(ptr: nat)

  class Heap {
    const mem: array<Byte>
    const start: nat
    var pos: nat

    /** The blocks that the walk from `start` to `pos` meets. */
    ghost var blocks: seq<Block>

    /** The heap is tiled by its blocks, and nothing behind them was ever written. */
    ghost predicate Valid()
      reads this, mem
    {
      HeapOk(mem[..], blocks, start, pos)
    }

    /** `init_heap`: zeroed memory, no block yet. */
    constructor (start: nat, limit: nat)
      requires 0 < start <= limit < WORD
      ensures Valid() && fresh(mem) && mem.Length == limit && this.start == start == pos && blocks == []
    {
      mem := new Byte[limit](_ => 0);
      this.start := start;
      pos := start;
      blocks := [];
    }

    /** The walk from header to header is what `Valid` says it is. */
    lemma WalkOk()
      requires Valid()
      ensures Tiled(mem[..], start, pos) && Walk(mem[..], start, pos) == blocks
    {
      WalkMeets(mem[..], blocks, start, pos);
    }

    // ----------------------------------------------------------------------------------------
    // Field writes
    // ----------------------------------------------------------------------------------------

    /** Only the header at `p` changed. */
    twostate predicate Wrote(p: nat)
      reads mem
    {
      && SameOutside(old(mem[..]), mem[..], p, p + HEADER)
      && forall q: nat {:trigger BlockAt(mem[..], q)} :: q + HEADER <= mem.Length &&
                                                         (q + HEADER <= p || p + HEADER <= q) ==>
                                                           BlockAt(mem[..], q) == BlockAt(old(mem[..]), q)
    }

    /** Only the headers at `p` and `q` changed. */
    twostate predicate WroteTwo(p: nat, q: nat)
      reads mem
    {
      && OnlyHeaders(old(mem[..]), mem[..], p, q, 0)
      && forall h: nat {:trigger BlockAt(mem[..], h)} ::
           (h + HEADER <= mem.Length && (h + HEADER <= p || p + HEADER <= h) && (h + HEADER <= q || q + HEADER <= h))
           ==> BlockAt(mem[..], h) == BlockAt(old(mem[..]), h)
    }

    method Store(a: nat, v: nat)
      requires a + 4 <= mem.Length && v < WORD
      modifies mem
      ensures mem[..] == Store32(old(mem[..]), a, v)
    {
      mem[a] := v % 0x100;
      mem[a + 1] := v / 0x100 % 0x100;
      mem[a + 2] := v / 0x1_0000 % 0x100;
      mem[a + 3] := v / 0x100_0000 % 0x100;
    }

    method PutSize(p: nat, v: nat)
      requires p + HEADER <= mem.Length && v < WORD
      modifies mem
      ensures Wrote(p) && BlockAt(mem[..], p) == BlockAt(old(mem[..]), p).(size := v)
    {
      SizeField(mem[..], p, v);
      Store(p, v);
      OtherHeaders(old(mem[..]), mem[..], p);
    }

    method PutStatus(p: nat, free: bool)
      requires p + HEADER <= mem.Length
      modifies mem
      ensures Wrote(p) && BlockAt(mem[..], p) == BlockAt(old(mem[..]), p).(free := free)
    {
      FreeField(mem[..], p, free);
      mem[p + 4] := if free then 0 else 1;
      OtherHeaders(old(mem[..]), mem[..], p);
    }

    method PutPrev(p: nat, v: nat)
      requires p + HEADER <= mem.Length && v < WORD
      modifies mem
      ensures Wrote(p) && BlockAt(mem[..], p) == BlockAt(old(mem[..]), p).(prev := v)
      ensures SameOutside(old(mem[..]), mem[..], p + 8, p + 12)
    {
      PrevField(mem[..], p, v);
      Store(p + 8, v);
      OtherHeaders(old(mem[..]), mem[..], p);
    }

    method PutNext(p: nat, v: nat)
      requires p + HEADER <= mem.Length && v < WORD
      modifies mem
      ensures Wrote(p) && BlockAt(mem[..], p) == BlockAt(old(mem[..]), p).(next := v)
    {
      NextField(mem[..], p, v);
      Store(p + 12, v);
      OtherHeaders(old(mem[..]), mem[..], p);
    }

    // ----------------------------------------------------------------------------------------
    // kalloc
    // ----------------------------------------------------------------------------------------

    /** The search loop of `kalloc`: the first block that fits, or the place behind the last one. */
    method FindFit(size: nat) returns (cur: nat, past: nat, found: bool)
      requires Valid()
      ensures var i := FirstFit(blocks, size);
              && (found <==> i < |blocks|) && cur == Edge(blocks, pos, i) && past == PrevAddr(blocks, i)
    {
      cur, past := start, 0;
      ghost var i := 0;
      while cur < pos
        invariant 0 <= i <= |blocks| && cur == Edge(blocks, pos, i) && past == PrevAddr(blocks, i) && cur <= pos
        invariant forall k :: 0 <= k < i ==> !Fits(blocks[k], size)
        decreases |blocks| - i
      {
        assert i < |blocks|;
        Touch(blocks, start, pos, i);
        HeaderAt(mem[..], blocks, i);
        if Fits(BlockAt(mem[..], cur), size) {
          FirstFitIs(blocks, size, i);
          return cur, past, true;
        }
        past := cur;
        cur := cur + (BlockAt(mem[..], cur).size + HEADER);
        i := i + 1;
      }
      if i < |blocks| {
        Touch(blocks, start, pos, i);
      }
      FirstFitIs(blocks, size, i);
      found := false;
    }

    /** The header writes of a split: the new header lies in the old payload. */
    method Split(cur: nat, size: nat)
      requires cur + HEADER <= mem.Length && mem.Length < WORD
      requires var b := BlockAt(mem[..], cur); b.End() <= mem.Length && b.size >= size + MIN_SPLIT
      modifies mem
      ensures var (b, split) := (BlockAt(old(mem[..]), cur), cur + size + HEADER);
              && SameOutside(old(mem[..]), mem[..], cur, b.End())
              && BlockAt(mem[..], cur) == b.(size := size, next := split)
              && BlockAt(mem[..], split) == Block(split, b.size - size - HEADER, true, b.prev, b.next)
    {
      var split := cur + size + HEADER;
      StartSplit(split, BlockAt(mem[..], cur).size - size - HEADER, BlockAt(mem[..], cur).next,
                 BlockAt(mem[..], cur).prev);
      PutNext(cur, split);
      PutSize(cur, size);
    }

    /** The header of the free rest. */
    method StartSplit(split: nat, size: nat, next: nat, prev: nat)
      requires split + HEADER <= mem.Length && size < WORD && next < WORD && prev < WORD
      modifies mem
      ensures Wrote(split) && BlockAt(mem[..], split) == Block(split, size, true, prev, next)
    {
      PutStatus(split, true);
      PutSize(split, size);
      PutNext(split, next);
      PutPrev(split, prev);
    }

    /** The header writes of `kalloc` for a block that is reused. */
    method ReuseHeaders(cur: nat, past: nat, size: nat)
      requires cur + HEADER <= mem.Length < WORD && past < WORD
      requires var b := BlockAt(mem[..], cur); b.End() <= mem.Length && b.size >= size
      modifies mem
      ensures var b := BlockAt(old(mem[..]), cur);
              SameOutside(old(mem[..]), mem[..], cur, b.End()) && ReuseWritten(mem[..], b, past, size)
    {
      if BlockAt(mem[..], cur).size - size >= MIN_SPLIT {
        Split(cur, size);
      }
      Claim(cur, past);
    }

    /** A block is reused. */
    method Reuse(cur: nat, past: nat, size: nat, ghost i: nat)
      requires Valid() && i < |blocks| && blocks[i].addr == cur && past == PrevAddr(blocks, i)
      requires Fits(blocks[i], size) && Units(size)
      modifies mem, this`blocks
      ensures Valid() && blocks == Spliced(old(blocks), i, i + 1, Reused(old(blocks), i, size))
      ensures SameOutside(old(mem[..]), mem[..], cur, old(blocks)[i].End())
    {
      Touch(blocks, start, pos, i);
      assert HeaderIs(mem[..], blocks[i]) && BlockAt(mem[..], cur) == blocks[i];
      if past != 0 { Touch(blocks, start, pos, i - 1); }
      ReuseHeaders(cur, past, size);
      ReuseWrittenIs(mem[..], blocks, i, size);
      ReuseTiles(old(mem[..]), mem[..], blocks, start, pos, i, size);
      blocks := Spliced(blocks, i, i + 1, Reused(blocks, i, size));
    }

    /** The block is taken. */
    method Claim(cur: nat, past: nat)
      requires cur + HEADER <= mem.Length && past < WORD
      modifies mem
      ensures Wrote(cur) && BlockAt(mem[..], cur) == BlockAt(old(mem[..]), cur).(free := false, prev := past)
    {
      PutStatus(cur, false);
      PutPrev(cur, past);
    }

    /** The header writes of `kalloc` for a new block. */
    method AppendHeaders(cur: nat, past: nat, size: nat)
      requires cur + HEADER <= mem.Length < WORD && past + HEADER <= mem.Length && size < WORD
      requires cur > 0 && (past != 0 ==> past + HEADER <= cur)
      modifies mem
      ensures BlockAt(mem[..], cur) == BlockAt(old(mem[..]), cur).(size := size, free := false, prev := past)
      ensures past != 0 ==> BlockAt(mem[..], past) == BlockAt(old(mem[..]), past).(next := cur)
      ensures OnlyHeaders(old(mem[..]), mem[..], cur, past, 0)
    {
      PutPrev(cur, past);
      if past != 0 {
        PutNext(past, cur);
      }
      PutSize(cur, size);
      PutStatus(cur, false);
    }

    /** The same, seen as blocks. */
    method AppendBlock(cur: nat, past: nat, size: nat, ghost bs: seq<Block>, ghost end: nat)
      requires HeapOk(mem[..], bs, start, cur) && past == PrevAddr(bs, |bs|)
      requires Units(size) && end == cur + size + HEADER <= mem.Length
      modifies mem
      ensures HeapOk(mem[..], AfterAppend(bs, cur, size), start, end)
      ensures OtherPayloads(old(mem[..]), mem[..], bs, |bs|)
    {
      ghost var m := mem[..];
      LastBlock(m, bs, start, cur);
      AppendHeaders(cur, past, size);
      ghost var m' := mem[..];
      AppendTiles(m, m', bs, start, cur, size, end);
      PayloadsKept(m, m', bs, start, cur, cur, past, 0);
    }

    /** A block is added behind the others. */
    method Append(past: nat, size: nat)
      requires Valid() && past == PrevAddr(blocks, |blocks|) && Units(size) && pos + HEADER + size <= mem.Length
      modifies mem, this`pos, this`blocks
      ensures Valid() && pos == old(pos) + HEADER + size
      ensures blocks == AfterAppend(old(blocks), old(pos), size)
      ensures OtherPayloads(old(mem[..]), mem[..], old(blocks), |old(blocks)|)
    {
      ghost var bs := AfterAppend(blocks, pos, size);
      var end := pos + size + HEADER;
      AppendBlock(pos, past, size, blocks, end);
      pos := end;
      blocks := bs;
    }

    /** `kalloc`, where the heap has room behind its last block in case none fits. The lowest free block
        that is large enough is reused, and split if it is much larger; only if there is none, a new block
        is added. No other block's payload changes. */
    method Kalloc(request: nat) returns (r: nat, ghost got: (nat, nat))
      requires Valid()
      requires HasRoom(blocks, pos, mem.Length, Round(request))
      modifies mem, this`pos, this`blocks
      ensures Valid()
      ensures forall k: nat :: LowestFree(old(blocks), Round(request), k) ==>
                                 if k < |old(blocks)| then r == old(blocks)[k].Payload() && pos == old(pos)
                                 else r == old(pos) + HEADER && pos == old(pos) + HEADER + Round(request)
      ensures r == Edge(old(blocks), old(pos), FirstFit(old(blocks), Round(request))) + HEADER
      ensures FirstFit(old(blocks), Round(request)) < |old(blocks)| ==>
                Fits(old(blocks)[FirstFit(old(blocks), Round(request))], Round(request))
      ensures blocks == AfterKalloc(old(blocks), old(pos), Round(request))
      ensures pos == EndAfter(old(blocks), old(pos), Round(request))
      ensures OtherPayloads(old(mem[..]), mem[..], old(blocks), FirstFit(old(blocks), Round(request)))
      ensures got == HandedOut(old(blocks), old(pos), Round(request)) && got !in Used(old(blocks))
      ensures got.0 + HEADER == r && got.1 >= Round(request)
      ensures Used(blocks) == Used(old(blocks)) + {got} && KeepsAll(old(mem[..]), mem[..], Used(old(blocks)))
    {
      var size := Round(request);
      ghost var bs, m, end := blocks, mem[..], pos;
      r := Allocate(size);
      KallocPlace(m, bs, start, end, size, r, pos);
      got := HandedOut(bs, end, size);
      KallocKeeps(m, mem[..], bs, start, end, size);
    }

    method Allocate(size: nat) returns (r: nat)
      requires Valid() && Units(size)
      requires HasRoom(blocks, pos, mem.Length, size)
      modifies mem, this`pos, this`blocks
      ensures Valid() && r == Edge(old(blocks), old(pos), FirstFit(old(blocks), size)) + HEADER
      ensures FirstFit(old(blocks), size) < |old(blocks)| ==> Fits(old(blocks)[FirstFit(old(blocks), size)], size)
      ensures blocks == AfterKalloc(old(blocks), old(pos), size) && pos == EndAfter(old(blocks), old(pos), size)
      ensures OtherPayloads(old(mem[..]), mem[..], old(blocks), FirstFit(old(blocks), size))
    {
      FirstFitFits(blocks, size);
      var cur, past, found := FindFit(size);
      ghost var i, bs, m, end := FirstFit(blocks, size), blocks, mem[..], pos;
      if found {
        Reuse(cur, past, size, i);
        OthersKept(m, mem[..], bs, start, end, i);
      } else {
        Append(past, size);
      }
      assert blocks == AfterKalloc(bs, end, size);
      r := cur + HEADER;
    }

    // ----------------------------------------------------------------------------------------
    // kfree
    // ----------------------------------------------------------------------------------------

    /** The first half of `kfree`: the block becomes free, and takes in what it links to, if that reads as free. */
    method ReleaseHeaders(node: nat)
      requires LinksApart(mem[..], node) && Legible(mem[..], node)
      modifies mem
      ensures Freed(old(mem[..]), mem[..], node)
    {
      PutStatus(node, true);
      var next := BlockAt(mem[..], node).next;
      if next != 0 && BlockAt(mem[..], next).free {
        PutSize(node, (BlockAt(mem[..], node).size + BlockAt(mem[..], next).size + HEADER) % WORD);
        PutSize(next, 0);
        PutNext(node, BlockAt(mem[..], next).next);
      }
    }

    /** The second half: what is at `prev` takes in the block, whose header is wiped, if it reads as free. */
    method JoinHeaders(node: nat)
      requires LinksApart(mem[..], node)
      modifies mem
      ensures Rejoined(old(mem[..]), mem[..], node)
    {
      var prev := BlockAt(mem[..], node).prev;
      if prev != 0 && BlockAt(mem[..], prev).free {
        Absorb(prev, node);
        Relink(prev, node);
      }
    }

    /** Its size is added, in 32-bit arithmetic, and its header is wiped but for the link. */
    method Absorb(prev: nat, node: nat)
      requires 0 < prev && prev + HEADER <= node && node + HEADER <= mem.Length < WORD
      modifies mem
      ensures var (p, b) := (BlockAt(old(mem[..]), prev), BlockAt(old(mem[..]), node));
              && BlockAt(mem[..], prev) == p.(size := (p.size + b.size + HEADER) % WORD)
              && BlockAt(mem[..], node) == b.(size := 0, prev := 0)
      ensures WroteTwo(prev, node)
    {
      PutSize(prev, (BlockAt(mem[..], prev).size + BlockAt(mem[..], node).size + HEADER) % WORD);
      PutSize(node, 0);
      PutPrev(node, 0);
    }

    /** Its link passes to the block in front. */
    method Relink(prev: nat, node: nat)
      requires 0 < prev && prev + HEADER <= node && node + HEADER <= mem.Length < WORD
      requires var next := BlockAt(mem[..], node).next; next != 0 ==> node + HEADER <= next &&
                                                                      next + HEADER <= mem.Length
      modifies mem
      ensures var (p, b) := (BlockAt(old(mem[..]), prev), BlockAt(old(mem[..]), node));
              && BlockAt(mem[..], prev) == p.(next := b.next) && BlockAt(mem[..], node) == b.(next := 0)
              && (b.next != 0 ==> BlockAt(mem[..], b.next) == BlockAt(old(mem[..]), b.next).(prev := prev))
              && OnlyJoin(old(mem[..]), mem[..], prev, node, b.next)
    {
      var next := BlockAt(mem[..], node).next;
      PutNext(prev, next);
      if next != 0 {
        PassOn(prev, node, next);
      }
    }

    method PassOn(prev: nat, node: nat, next: nat)
      requires 0 < node && node + HEADER <= next && next + HEADER <= mem.Length < WORD && prev < WORD
      modifies mem
      ensures BlockAt(mem[..], node) == BlockAt(old(mem[..]), node).(next := 0)
      ensures BlockAt(mem[..], next) == BlockAt(old(mem[..]), next).(prev := prev)
      ensures OnlyJoin(old(mem[..]), mem[..], node, 0, next) && WroteTwo(node, next)
    {
      PutPrev(next, prev);
      PutNext(node, 0);
    }

    /** The header at `node` says size 0 and no links. */
    ghost predicate Wiped(node: nat)
      reads mem
    {
      node + HEADER <= mem.Length && BlockAt(mem[..], node).(free := false) == Block(node, 0, false, 0, 0)
    }

    /** `kfree` of block `i`. The heap ends up tiled by what was there, with block `i` given back and merged both ways,
        if and only if neither link misleads: `prev` is null, leads to the block just in front, or reads as used, and
        `next` is null, leads to the block just behind, or reads as used. Payloads are kept, but for the word for
        `prev` where the header was that the block passes on a link to. Otherwise a header is too large, or the
        block's own header is wiped, so the walk goes on inside its payload, and if there was a block at `prev`, one
        in front is lost. `lost` tells that `next` leads to bytes that are no header; what that does is not followed. */
    method Kfree(ptr: nat, ghost i: nat) returns (lost: bool)
      requires Valid() && i < |blocks| && ptr == blocks[i].Payload()
      modifies mem, this`blocks
      ensures lost <==> !Legible(old(mem[..]), ptr - HEADER)
      ensures lost ==> mem[..] == old(mem[..]) && blocks == old(blocks)
      ensures !lost ==> (LinksSafe(old(mem[..]), old(blocks), i) <==>
                         Tiled(mem[..], start, pos) && Walk(mem[..], start, pos) == AfterKfree(old(blocks), i))
      ensures LinksSafe(old(mem[..]), old(blocks), i) ==>
                && !lost && Valid() && blocks == AfterKfree(old(blocks), i)
                && Used(blocks) == Used(old(blocks)) - {(old(blocks)[i].addr, old(blocks)[i].size)}
                && PayloadsBut(old(mem[..]), mem[..], old(blocks), PassedOn(old(blocks), i))
                && (Harmless(old(blocks), PassedOn(old(blocks), i)) ==>
                      KeepsAll(old(mem[..]), mem[..], Used(old(blocks))))
                && (Absorbs(old(blocks), i) ==> ReadsFree(old(blocks)[i + 1].addr))
      ensures !lost && !PrevSafe(old(mem[..]), old(blocks), i) ==>
                && Wiped(ptr - HEADER)
                && (NextSafe(old(mem[..]), old(blocks), i) && Listed(old(blocks), i, old(blocks)[i].prev) ==>
                      !FrontMet(mem[..], old(blocks), start, pos, i))
    {
      ghost var bs, m := blocks, mem[..];
      FreedReads(m, bs, start, pos, i);
      FreedCase(m, bs, start, pos, i);
      var node := ptr - HEADER;
      if !Legible(mem[..], node) {
        return true;
      }
      ghost var m1 := KfreeBytes(node);
      lost := false;
      if LinksSafe(m, bs, i) {
        KfreeTiles(m, m1, mem[..], bs, start, pos, i);
        blocks := AfterKfree(bs, i);
        KfreeUse(m, mem[..], bs, start, pos, i);
        WalkOk();
      } else {
        KfreeFails(m, m1, mem[..], bs, start, pos, i);
      }
    }

    method KfreeBytes(node: nat) returns (ghost m1: Bytes)
      requires LinksApart(mem[..], node) && Legible(mem[..], node)
      modifies mem
      ensures Freed(old(mem[..]), m1, node) && LinksApart(m1, node) && Rejoined(m1, mem[..], node)
      ensures SameBytes(old(mem[..]), m1, 0, node) && (PrevFree(m1, node) <==> PrevFree(old(mem[..]), node))
    {
      ReleaseHeaders(node);
      m1 := mem[..];
      StillApart(old(mem[..]), m1, node);
      JoinHeaders(node);
    }

    ghost predicate ReadsFree(a: nat)
      reads mem
    {
      a + 4 < mem.Length && mem[a + 4] == 0
    }

    // ----------------------------------------------------------------------------------------
    // rekalloc
    // ----------------------------------------------------------------------------------------

    /** `memset` to zero. */
    method Clear(a: nat, n: nat)
      requires a + n <= mem.Length
      modifies mem
      ensures SameOutside(old(mem[..]), mem[..], a, a + n) && forall k :: a <= k < a + n ==> mem[k] == 0
    {
      for i := 0 to n
        invariant forall k :: 0 <= k < mem.Length ==> mem[k] == if a <= k < a + i then 0 else old(mem[k])
      {
        mem[a + i] := 0;
      }
    }

    /** `memcpy` byte by byte; the ranges may overlap if the new one starts in front. */
    method Copy(to: nat, from: nat, n: nat)
      requires to + n <= mem.Length && from + n <= mem.Length && (to <= from || from + n <= to)
      modifies mem
      ensures Copied(old(mem[..]), mem[..], to, from, n)
    {
      for i := 0 to n
        invariant forall k :: 0 <= k < mem.Length ==>
                                mem[k] == if to <= k < to + i then old(mem[from + k - to]) else old(mem[k])
      {
        mem[to + i] := mem[from + i];
      }
    }

    /** The block takes all of what `next` leads to, which is zeroed. */
    method GrowAll(node: nat, next: nat, size: nat)
      requires Regrowable(mem[..], node, size) && BlockAt(mem[..], node).next == next
      requires size == BlockAt(mem[..], node).size + BlockAt(mem[..], next).size
      modifies mem
      ensures TookAll(old(mem[..]), mem[..], node, size)
    {
      PutSize(node, size);
      PutNext(node, BlockAt(mem[..], next).next);
      ghost var m := mem[..];
      Clear(next, BlockAt(mem[..], next).size + HEADER);
      BlockFrame(m, mem[..], node);
    }

    /** The block takes part of it, or gives it some of its own bytes. */
    method GrowSome(node: nat, next: nat, size: nat)
      requires Regrowable(mem[..], node, size) && BlockAt(mem[..], node).next == next
      requires size < BlockAt(mem[..], node).size + BlockAt(mem[..], next).size
      modifies mem
      ensures TookSome(old(mem[..]), mem[..], node, size)
    {
      var size0 := BlockAt(mem[..], node).size;
      BehindApart(mem[..], node, size);
      PutSize(node, size);
      AddRest(node, next, node + size + HEADER, size0);
    }

    /** What is left of the neighbour gets a header, and is linked to. */
    method AddRest(node: nat, next: nat, behind: nat, size0: nat)
      requires 0 < node && node + HEADER <= next && next + HEADER <= mem.Length < WORD && behind + HEADER <= mem.Length
      requires node + HEADER <= behind && (behind == next || behind + HEADER <= next || next + HEADER <= behind)
      requires var (b, n) := (BlockAt(mem[..], node), BlockAt(mem[..], next));
               b.next == next && b.size <= n.size + size0 < WORD
      modifies mem
      ensures var (b, n) := (BlockAt(old(mem[..]), node), BlockAt(old(mem[..]), next));
              && BlockAt(mem[..], node) == b.(next := behind)
              && BlockAt(mem[..], behind) == Block(behind, n.size + size0 - b.size, true, node, n.next)
      ensures OnlyHeaders(old(mem[..]), mem[..], node, behind, 0)
    {
      StartRest(node, next, behind, size0);
      PutNext(node, behind);
    }

    /** The header of what is left of the neighbour; it may be where the neighbour's own header is. */
    method StartRest(node: nat, next: nat, behind: nat, size0: nat)
      requires node + HEADER <= next && next + HEADER <= mem.Length < WORD && behind + HEADER <= mem.Length
      requires node + HEADER <= behind && (behind == next || behind + HEADER <= next || next + HEADER <= behind)
      requires var (b, n) := (BlockAt(mem[..], node), BlockAt(mem[..], next));
               b.next == next && b.size <= n.size + size0 < WORD
      modifies mem
      ensures var (b, n) := (BlockAt(old(mem[..]), node), BlockAt(old(mem[..]), next));
              Wrote(behind) && BlockAt(mem[..], behind) == Block(behind, n.size + size0 - b.size, true, node, n.next)
    {
      StartSize(node, next, behind, size0);
      StartLinks(node, next, behind);
    }

    method StartSize(node: nat, next: nat, behind: nat, size0: nat)
      requires next + HEADER <= mem.Length < WORD && node + HEADER <= behind && behind + HEADER <= mem.Length
      requires behind == next || behind + HEADER <= next || next + HEADER <= behind
      requires BlockAt(mem[..], node).size <= BlockAt(mem[..], next).size + size0 < WORD
      modifies mem
      ensures var (b, n) := (BlockAt(old(mem[..]), node), BlockAt(old(mem[..]), next));
              Wrote(behind)
              && BlockAt(mem[..], behind) ==
                 BlockAt(old(mem[..]), behind).(free := true, size := n.size + size0 - b.size)
    {
      PutStatus(behind, true);
      PutSize(behind, BlockAt(mem[..], next).size + size0 - BlockAt(mem[..], node).size);
    }

    method StartLinks(node: nat, next: nat, behind: nat)
      requires next + HEADER <= mem.Length < WORD && node + HEADER <= behind && behind + HEADER <= mem.Length
      requires BlockAt(mem[..], node).next == next
      modifies mem
      ensures Wrote(behind)
      ensures BlockAt(mem[..], behind)
           == BlockAt(old(mem[..]), behind).(prev := node, next := BlockAt(old(mem[..]), next).next)
    {
      PutNext(behind, BlockAt(mem[..], BlockAt(mem[..], node).next).next);
      PutPrev(behind, node);
    }

    method GrowHeaders(node: nat, next: nat, size: nat)
      requires Regrowable(mem[..], node, size) && BlockAt(mem[..], node).next == next
      modifies mem
      ensures Regrew(old(mem[..]), mem[..], node, size)
    {
      if BlockAt(mem[..], next).size + BlockAt(mem[..], node).size == size {
        GrowAll(node, next, size);
      } else {
        GrowSome(node, next, size);
      }
    }

    /** `rekalloc` of a used block. If `next` leads to what reads as free, the block grows or shrinks in place, or the
        call fails and changes nothing. Otherwise the block moves: an allocation, for which there has to be room, a
        copy, and a release. */
    method Rekalloc(ptr: nat, request: nat, ghost i: nat, ghost u: (nat, nat))
      returns (r: Regrowth, ghost got: (nat, nat), ghost taken: Bytes, ghost copied: Bytes)
      requires Valid() && IsUsed(blocks, i, u) && ptr == u.0 + HEADER
      requires NextFree(mem[..], u.0) || HasRoom(blocks, pos, mem.Length, Round(request))
      modifies mem, this`pos, this`blocks
      ensures var bs := old(blocks);
              i + 1 < |bs| && bs[i].next == bs[i + 1].addr && bs[i + 1].free ==>
                && (r.Failed? <==> bs[i].size + bs[i + 1].size < Round(request))
                && (!r.Failed? ==> r == At(ptr) && got == (u.0, Round(request)))
      ensures old(blocks)[i].next == 0 ==> !r.Failed?
      ensures NextFree(old(mem[..]), u.0) && Absorbs(old(blocks), i) ==> Grew(r, i, Round(request), u, got)
      ensures NextFree(old(mem[..]), u.0) && !Absorbs(old(blocks), i) ==> Misgrew(r, u.0, Round(request))
      ensures !NextFree(old(mem[..]), u.0) ==> Moved(r, i, Round(request), u, got, taken, copied)
    {
      var size := Round(request);
      RoundAgain(request);
      taken, copied := mem[..], mem[..];
      var node := ptr - HEADER;
      UsedReads(mem[..], blocks, start, pos, i);
      var next := BlockAt(mem[..], node).next;
      if next != 0 && BlockAt(mem[..], next).free {
        r, got := TryGrow(node, next, size, i, u);
      } else {
        r, got, taken, copied := Move(ptr, size, i, u);
      }
    }

    /** `rekalloc`, where `next` leads to what reads as free. */
    method TryGrow(node: nat, next: nat, size: nat, ghost i: nat, ghost u: (nat, nat))
      returns (r: Regrowth, ghost got: (nat, nat))
      requires Valid() && IsUsed(blocks, i, u) && u.0 == node && NextFree(mem[..], node) && blocks[i].next == next &&
               Units(size)
      modifies mem, this`blocks
      ensures Absorbs(old(blocks), i) ==> Grew(r, i, size, u, got)
      ensures !Absorbs(old(blocks), i) ==> Misgrew(r, node, size)
    {
      GrowReads(mem[..], blocks, start, pos, i, size);
      if (BlockAt(mem[..], next).size + BlockAt(mem[..], node).size) % WORD >= size {
        r, got := Grow(node, next, size, i, u);
      } else {
        r, got := Failed, u;
      }
    }

    /** What growing into the block behind leaves: it fails, changing nothing, exactly if that one is too small. */
    twostate predicate Grew(r: Regrowth, i: nat, size: nat, u: (nat, nat), new got: (nat, nat))
      reads this, mem
    {
      match r
      case Failed =>
        && Valid() && i < |blocks| && Absorbs(blocks, i) && Room(blocks, i) < size
        && mem[..] == old(mem[..]) && blocks == old(blocks) && pos == old(pos)
      case Lost => false
      case At(to) =>
        var (m, bs) := (old(mem[..]), old(blocks));
        && Valid() && i < |bs| && Absorbs(bs, i) && size <= Room(bs, i)
        && to == u.0 + HEADER && got == (u.0, size) && pos == old(pos)
        && blocks == Spliced(bs, i, i + 2, Resized(bs, i, size))
        && Used(blocks) == Used(bs) - {u} + {got} && got !in Used(bs) - {u}
        && KeepsAll(m, mem[..], Used(bs) - {u}) && KeepsStart(m, mem[..], u, got)
    }

    /** What growing into anything else leaves. It fails, changing nothing, exactly if the sizes do not add up to enough
        in 32-bit arithmetic. If it succeeds, the heap is tiled exactly if the walk gets on from where the block and
        the rest end. If what `next` leads to ends past the heap, what it does is not followed. */
    twostate predicate Misgrew(r: Regrowth, node: nat, size: nat)
      reads this, mem
    {
      var m := old(mem[..]);
      && pos == old(pos) && blocks == old(blocks) && NextFree(m, node)
      && var (b, n) := (BlockAt(m, node), BlockAt(m, BlockAt(m, node).next));
      match r
      case Failed => (n.size + b.size) % WORD < size && mem[..] == m
      case Lost => (n.size + b.size) % WORD >= size && n.End() > pos
      case At(to) =>
        && (n.size + b.size) % WORD >= size && n.End() <= pos
        && to == node + HEADER && Regrowable(m, node, size) && Regrew(m, mem[..], node, size)
        && (Tiled(mem[..], start, pos) <==> Tiled(mem[..], GrownEnd(m, node, size), pos))
    }

    /** What a move leaves. It is lost exactly if the copy overran the new block and changed what is behind it, or the
        release cannot read `next`; what comes of it then is not followed. Neither link misleads the release if both
        are null or lead to blocks in use. */
    twostate predicate Moved(r: Regrowth, i: nat, size: nat, u: (nat, nat), new got: (nat, nat), taken: Bytes,
                             copied: Bytes)
      reads this, mem
    {
      && Relocated(old(mem[..]), taken, copied, old(blocks), start, old(pos), size, u, got)
      && var over := Overruns(taken, got.0 + HEADER, got.1, u.0 + HEADER, u.1);
      match r
      case Failed => false
      case Lost => over || (!Legible(copied, u.0) && !Releasable(old(blocks), i, u))
      case At(to) =>
        && !over && Legible(copied, u.0)
        && to == got.0 + HEADER && pos == EndAfter(old(blocks), old(pos), size)
        && FreedOld(old(mem[..]), old(blocks), old(pos), copied, i, size, u, got)
        && (Releasable(old(blocks), i, u) ==> MovesWell(copied, old(blocks), old(pos), i, size))
    }

    /** What the release at the end of a move leaves of memory `m` and blocks `bs`: the blocks that should be there tile
        the heap if and only if the links of the old block do not mislead after the copy. */
    ghost predicate FreedOld(m: Bytes, bs: seq<Block>, end: nat, copied: Bytes, i: nat, size: nat, u: (nat, nat),
                             got: (nat, nat))
      reads this, mem
    {
      && i < |bs| && !bs[i].free && (FirstFit(bs, size) < |bs| ==> Fits(bs[FirstFit(bs, size)], size))
      && var (ks, j) := (AfterKalloc(bs, end, size), MovedIndex(bs, size, i));
      && j < |ks|
      && (LinksSafe(copied, ks, j) <==> Tiled(mem[..], start, pos) &&
                                        Walk(mem[..], start, pos) == AfterMove(bs, end, i, size))
      && (LinksSafe(copied, ks, j) ==>
            && Valid() && blocks == AfterMove(bs, end, i, size) && Used(blocks) == Used(bs) - {u} + {got}
            && (Harmless(ks, PassedOn(ks, j)) ==> KeepsAll(m, mem[..], Used(bs) - {u}) &&
                                                  KeepsStart(m, mem[..], u, got)))
    }

    /** The block grows into what `next` leads to. Only if that is the block behind, the heap is known to stay tiled. */
    method Grow(node: nat, next: nat, size: nat, ghost i: nat, ghost u: (nat, nat))
      returns (r: Regrowth, ghost got: (nat, nat))
      requires Valid() && IsUsed(blocks, i, u) && u.0 == node && NextFree(mem[..], node) && blocks[i].next == next
      requires Units(size) && (BlockAt(mem[..], next).size + BlockAt(mem[..], node).size) % WORD >= size
      modifies mem, this`blocks
      ensures !r.Failed?
      ensures Absorbs(old(blocks), i) ==> Grew(r, i, size, u, got)
      ensures !Absorbs(old(blocks), i) ==> Misgrew(r, node, size)
    {
      got := (u.0, size);
      ghost var m, bs := mem[..], blocks;
      GrowReads(m, bs, start, pos, i, size);
      r := Lost;
      if BlockAt(mem[..], next).End() <= pos {
        GrowHeaders(node, next, size);
        r := At(node + HEADER);
        if Absorbs(bs, i) {
          ResizedUse(bs, start, pos, i, size);
          ResizeDone(m, mem[..], bs, start, pos, i, size);
          blocks := Spliced(bs, i, i + 2, Resized(bs, i, size));
        } else {
          MisgrownTiles(m, mem[..], bs, start, pos, i, size);
        }
      }
    }

    /** The block's bytes move to a new block. */
    method Move(ptr: nat, size: nat, ghost i: nat, ghost u: (nat, nat))
      returns (r: Regrowth, ghost got: (nat, nat), ghost taken: Bytes, ghost copied: Bytes)
      requires Valid() && IsUsed(blocks, i, u) && ptr == u.0 + HEADER && Round(size) == size
      requires HasRoom(blocks, pos, mem.Length, size)
      modifies mem, this`pos, this`blocks
      ensures Moved(r, i, size, u, got, taken, copied)
    {
      ghost var bs, m, end := blocks, mem[..], pos;
      var to, harm;
      to, harm, got, taken, copied := Duplicate(ptr, size, i, u);
      r := Lost;
      if !harm {
        var lost := ReleaseOld(ptr, i, size, u, got, m, bs, end);
        r := if lost then Lost else At(to);
      }
    }

    /** The release at the end. */
    method ReleaseOld(ptr: nat, ghost i: nat, ghost size: nat, ghost u: (nat, nat), ghost got: (nat, nat),
                      ghost m: Bytes, ghost bs: seq<Block>, ghost end: nat) returns (lost: bool)
      requires Valid() && IsUsed(bs, i, u) && ptr == u.0 + HEADER
      requires FirstFit(bs, size) < |bs| ==> Fits(bs[FirstFit(bs, size)], size)
      requires blocks == AfterKalloc(bs, end, size) && Used(blocks) == Used(bs) + {got} && got !in Used(bs)
      requires KeepsAll(m, mem[..], Used(bs)) && KeepsStart(m, mem[..], u, got)
      modifies mem, this`blocks
      ensures lost <==> !Legible(old(mem[..]), u.0)
      ensures lost ==> !Releasable(bs, i, u)
      ensures Releasable(bs, i, u) ==> MovesWell(old(mem[..]), bs, end, i, size)
      ensures !lost ==> FreedOld(m, bs, end, old(mem[..]), i, size, u, got)
    {
      if Releasable(bs, i, u) { MoveSafe(mem[..], bs, start, end, pos, i, size, u); }
      lost := ReleaseMoved(ptr, i, size, u, got, m, bs, end);
    }

    method ReleaseMoved(ptr: nat, ghost i: nat, ghost size: nat, ghost u: (nat, nat), ghost got: (nat, nat),
                        ghost m: Bytes, ghost bs: seq<Block>, ghost end: nat) returns (lost: bool)
      requires Valid() && IsUsed(bs, i, u) && ptr == u.0 + HEADER
      requires FirstFit(bs, size) < |bs| ==> Fits(bs[FirstFit(bs, size)], size)
      requires blocks == AfterKalloc(bs, end, size) && Used(blocks) == Used(bs) + {got} && got !in Used(bs)
      requires KeepsAll(m, mem[..], Used(bs)) && KeepsStart(m, mem[..], u, got)
      modifies mem, this`blocks
      ensures lost <==> !Legible(old(mem[..]), u.0)
      ensures !lost ==> FreedOld(m, bs, end, old(mem[..]), i, size, u, got)
    {
      ghost var copied := mem[..];
      StillThere(bs, end, size, i);
      UsedAt(bs, i);
      lost := Kfree(ptr, MovedIndex(bs, size, i));
      KeepsThrough(m, copied, mem[..], bs, u, got);
      assert Used(bs) + {got} - {u} == Used(bs) - {u} + {got};
    }

    /** A new block with the bytes of block `i`. `harm` tells that the copy changes bytes behind the new block. */
    method Duplicate(ptr: nat, size: nat, ghost i: nat, ghost u: (nat, nat))
      returns (to: nat, harm: bool, ghost got: (nat, nat), ghost taken: Bytes, ghost copied: Bytes)
      requires Valid() && IsUsed(blocks, i, u) && ptr == u.0 + HEADER && Round(size) == size
      requires HasRoom(blocks, pos, mem.Length, size)
      modifies mem, this`pos, this`blocks
      ensures Relocated(old(mem[..]), taken, copied, old(blocks), start, old(pos), size, u, got)
      ensures to == got.0 + HEADER && copied == mem[..] && (harm <==> Overruns(taken, to, got.1, ptr, u.1))
      ensures blocks == AfterKalloc(old(blocks), old(pos), size) && pos == EndAfter(old(blocks), old(pos), size)
      ensures Used(blocks) == Used(old(blocks)) + {got}
      ensures !harm ==> Valid() && KeepsAll(old(mem[..]), copied, Used(old(blocks))) &&
                        KeepsStart(old(mem[..]), copied, u, got)
    {
      ghost var m, us := mem[..], Used(blocks);
      UsedAt(blocks, i);
      to, got := Kalloc(size);
      WalkOk();
      taken := mem[..];
      harm := CopyOut(to, ptr, us, u, got);
      copied := mem[..];
      if !harm { CopyKeeps(m, taken, copied, us, u, got); }
    }

    /** The bytes of one used block go to another one. */
    method CopyOut(to: nat, from: nat, ghost us: set<(nat, nat)>, ghost u: (nat, nat), ghost v: (nat, nat))
      returns (harm: bool)
      requires Valid() && Used(blocks) == us + {v} && u in us && v !in us
      requires to == v.0 + HEADER && from == u.0 + HEADER
      modifies mem
      ensures harm <==> Overruns(old(mem[..]), to, v.1, from, u.1)
      ensures Spoils(old(mem[..]), mem[..], blocks, pos, u, v)
      ensures !harm ==> Valid() && KeepsAll(old(mem[..]), mem[..], us) && KeepsStart(old(mem[..]), mem[..], u, v)
    {
      ghost var m := mem[..];
      CopyRanges(m, blocks, start, pos, u, v);
      UsedHeader(m, blocks, start, pos, v);
      var n, room := BlockAt(mem[..], from - HEADER).size, BlockAt(mem[..], to - HEADER).size;
      harm := Overruns(mem[..], to, room, from, n);
      if to + n <= mem.Length {
        Copy(to, from, n);
        OverrunSpoils(m, mem[..], blocks, start, pos, v, from, n);
        if !harm { CopyDone(m, mem[..], us, blocks, start, pos, u, v); }
      }
    }
  }
}
