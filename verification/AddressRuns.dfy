/** Whole runs of one virtual allocator: free blocks and handed-out ranges share out the address space. */
module AddressRuns {
  import opened Common
  import opened RedBlackTree
  import opened FreeTreeSpec
  import opened AddressRanges

  // ------------------------------------------------------------------------------------------
  // Counting the owners of an address
  // ------------------------------------------------------------------------------------------

  /** Address `x` lies in the block, where blocks wrap around like 32-bit sums. */
  predicate InBlock(x: int, b: Block) {
    (x - b.base) % WORD < b.size
  }

  function One(x: int, b: Block): nat { if InBlock(x, b) then 1 else 0 }

  /** How many of the blocks hold `x`. */
  function Count(bs: seq<Block>, x: int): nat {
    if bs == [] then 0 else One(x, bs[0]) + Count(bs[1..], x)
  }

  function Total(bs: seq<Block>): nat {
    if bs == [] then 0 else bs[0].size + Total(bs[1..])
  }

  lemma {:induction false} CountConcat(a: seq<Block>, b: seq<Block>, x: int)
    ensures Count(a + b, x) == Count(a, x) + Count(b, x)
    ensures Total(a + b) == Total(a) + Total(b)
  {
    if a == [] {
      assert a + b == b;
    } else {
      assert (a + b)[1..] == a[1..] + b;
      CountConcat(a[1..], b, x);
    }
  }

  lemma CountOne(a: seq<Block>, b: Block, c: seq<Block>, x: int)
    ensures Count(a + [b] + c, x) == Count(a + c, x) + One(x, b)
    ensures Total(a + [b] + c) == Total(a + c) + b.size
  {
    CountConcat(a + [b], c, x);
    CountConcat(a, [b], x);
    CountConcat(a, c, x);
    assert Count([b], x) == One(x, b) + Count([], x) && Total([b]) == b.size;
  }

  /** The first part and the remainder of a block share out its addresses. */
  lemma SplitBlock(b: Block, length: nat, x: int)
    requires length <= b.size <= WORD
    ensures One(x, Block(b.base, length)) + One(x, Remainder(b, length)) == One(x, b)
  {
    var d := (x - b.base) % WORD;
    var r := (b.base + length) % WORD;
    var e := (x - r) % WORD;
    var q, p, s := (x - b.base) / WORD, (b.base + length) / WORD, (x - r) / WORD;
    assert x - b.base == q * WORD + d && b.base + length == p * WORD + r && x - r == s * WORD + e;
    assert e - (d - length) == (q + p - s) * WORD;
  }

  /** Every address of `whole` belongs to exactly one of the blocks, and no other address to any. */
  ghost predicate Shared(bs: seq<Block>, whole: Block) {
    && Total(bs) == whole.size
    && forall x {:trigger Count(bs, x)} :: Count(bs, x) == One(x, whole)
  }

  /** What `Shared` means for two blocks: no address belongs to both. */
  lemma {:induction false} SharedDisjoint(bs: seq<Block>, whole: Block, i: nat, j: nat, x: int)
    requires Shared(bs, whole) && i < j < |bs|
    ensures !(InBlock(x, bs[i]) && InBlock(x, bs[j]))
  {
    assert bs == bs[..i] + [bs[i]] + bs[i + 1..];
    CountOne(bs[..i], bs[i], bs[i + 1..], x);
    var others := bs[..i] + bs[i + 1..];
    assert others == others[..j - 1] + [others[j - 1]] + others[j..];
    CountOne(others[..j - 1], others[j - 1], others[j..], x);
  }

  lemma {:induction false} TotalBounds(bs: seq<Block>, k: nat)
    requires k < |bs|
    ensures bs[k].size <= Total(bs)
  {
    if k > 0 { TotalBounds(bs[1..], k - 1); }
  }

  /** Taking `length` bytes off block `k` moves exactly those addresses to the handed-out range. */
  lemma TakeShares(free: seq<Block>, taken: seq<Block>, k: nat, length: nat, whole: Block)
    requires k < |free| && free[k].size >= length && whole.size <= WORD && Shared(free + taken, whole)
    ensures Shared(AfterTaking(free, k, length) + (taken + [Block(free[k].base, length)]), whole)
  {
    var after := AfterTaking(free, k, length) + (taken + [Block(free[k].base, length)]);
    TotalBounds(free, k);
    forall x ensures Count(after, x) == One(x, whole) && Total(after) == whole.size {
      assert Count(free + taken, x) == One(x, whole);
      CountConcat(free, taken, x);
      TakeCounts(free, k, length, x);
      var got := Block(free[k].base, length);
      CountConcat(AfterTaking(free, k, length), taken + [got], x);
      CountConcat(taken, [got], x);
      assert Count([got], x) == One(x, got) + Count([], x) && Total([got]) == length;
    }
    var _ := Count(after, 0);
  }

  /** The free blocks lose just those addresses. */
  lemma TakeCounts(free: seq<Block>, k: nat, length: nat, x: int)
    requires k < |free| && free[k].size >= length && free[k].size <= WORD
    ensures Count(AfterTaking(free, k, length), x) + One(x, Block(free[k].base, length)) == Count(free, x)
    ensures Total(AfterTaking(free, k, length)) + length == Total(free)
  {
    var b, others, rem := free[k], free[..k] + free[k + 1..], Remainder(free[k], length);
    assert free == free[..k] + [b] + free[k + 1..];
    CountOne(free[..k], b, free[k + 1..], x);
    SplitBlock(b, length, x);
    if b.size > length {
      var j := LowerBound(others, rem.size);
      CountOne(others[..j], rem, others[j..], x);
      assert others[..j] + others[j..] == others;
    }
  }

  /** Giving one page of a handed-out range back. */
  lemma FreeShares(before: seq<Block>, after: seq<Block>, taken: seq<Block>, k: nat, offset: nat, whole: Block)
    requires k < |taken| && offset + PAGE <= taken[k].size && whole.size <= WORD
    requires Shared(before + after + taken, whole)
    ensures Shared(before + [PageOf(taken[k], offset)] + after + WithoutPage(taken, k, offset), whole)
  {
    var b, p := taken[k], PageOf(taken[k], offset);
    var head, tail := Block(b.base, offset), Remainder(Remainder(b, offset), PAGE);
    var free, free', taken' := before + after, before + [p] + after, WithoutPage(taken, k, offset);
    assert taken == taken[..k] + [b] + taken[k + 1..];
    TotalBounds(taken, k);
    forall x ensures Count(free' + taken', x) == One(x, whole) && Total(free' + taken') == whole.size {
      assert Count(free + taken, x) == One(x, whole);
      CountConcat(free, taken, x);
      CountConcat(free', taken', x);
      CountOne(before, p, after, x);
      CountOne(taken[..k], b, taken[k + 1..], x);
      CountOne(taken[..k] + [head], tail, taken[k + 1..], x);
      CountOne(taken[..k], head, taken[k + 1..], x);
      SplitBlock(b, offset, x);
      SplitBlock(Remainder(b, offset), PAGE, x);
    }
    var _ := Count(free' + taken', 0);
  }

  /** The page at `offset` of a range. */
  function PageOf(b: Block, offset: nat): Block
    requires offset + PAGE <= b.size
  {
    Block(Remainder(b, offset).base, PAGE)
  }

  /** The handed-out ranges once that page is given back. */
  function WithoutPage(taken: seq<Block>, k: nat, offset: nat): seq<Block>
    requires k < |taken| && offset + PAGE <= taken[k].size
  {
    var b := taken[k];
    taken[..k] + [Block(b.base, offset)] + [Remainder(Remainder(b, offset), PAGE)] + taken[k + 1..]
  }

  // ------------------------------------------------------------------------------------------
  // Runs
  // ------------------------------------------------------------------------------------------

  /** The free tree, the next unused node slot, and the ranges handed out so far. */
  datatype Space = Space(tree: Tree, next: nat, taken: seq<Block>)

  datatype Request = Alloc(length: nat) | Free(k: nat, offset: nat)

  /** The free blocks are in order, in nodes of their own, and they and the ranges share out the space. */
  ghost predicate Ordered(s: Space, whole: Block) {
    && Sorted(Cells(s.tree)) && DistinctSlots(Cells(s.tree))
    && (forall n :: n in Cells(s.tree) ==> 0 <= n.slot < s.next)
    && Shared(Blocks(Cells(s.tree)) + s.taken, whole)
  }

  ghost predicate Consistent(s: Space, whole: Block) {
    Ordered(s, whole) && RedBlack(s.tree)
  }

  /** What a caller can tell before the step: the request is for at least one byte and does not take the
      only block whole; the deletion it causes moves up no predecessor with a child and leaves a
      red-black tree. A page can be given back only if it was handed out. */
  predicate Enabled(s: Space, r: Request)
    requires Ready(s.tree) && s.next !in SlotSet(Cells(s.tree))
  {
    match r
    case Alloc(length) =>
      && length > 0
      && var z := Best(s.tree, length);
      z.None? || (
        && Survives(s.tree, z.value, length)
        && !LosesBlock(s.tree, z.value, length, s.next)
        && var v := Victim(s.tree, z.value, length, s.next);
        Deletable(v.ctx, v.tree) && StaysRedBlack(v.ctx, v.tree))
    case Free(k, offset) => k < |s.taken| && offset + PAGE <= s.taken[k].size
  }

  function Step(s: Space, r: Request): Space
    requires Ready(s.tree) && s.next !in SlotSet(Cells(s.tree)) && Enabled(s, r)
  {
    match r
    case Alloc(length) =>
      var z := Best(s.tree, length);
      if z.None? then s
      else
        var b := z.value.tree.cell.block;
        Space(Taken(s.tree, z.value, length, s.next),
              if b.size > length then s.next + 1 else s.next,
              s.taken + [Block(b.base, length)])
    case Free(k, offset) => Returned(s, k, offset)
  }

  function Returned(s: Space, k: nat, offset: nat): Space
    requires k < |s.taken| && offset + PAGE <= s.taken[k].size
  {
    Space(Insert(s.tree, Cell(s.next, PageOf(s.taken[k], offset))), s.next + 1, WithoutPage(s.taken, k, offset))
  }

  lemma ConsistentFresh(s: Space, whole: Block)
    requires Consistent(s, whole)
    ensures s.next !in SlotSet(Cells(s.tree))
  {
  }

  lemma AllocKeeps(s: Space, length: nat, whole: Block)
    requires Consistent(s, whole) && whole.size <= WORD && s.next !in SlotSet(Cells(s.tree))
    requires Enabled(s, Alloc(length))
    ensures Consistent(Step(s, Alloc(length)), whole)
  {
    if Best(s.tree, length).Some? {
      var z := Best(s.tree, length).value;
      var v := Victim(s.tree, z, length, s.next);
      StallKeeps(s, z, length, whole);
      VictimThere(s.tree, z, length, s.next);
      DeleteStays(v.ctx, v.tree);
    }
  }

  /** Whether the deletion stalls or not, an allocation that leaves a node and loses none keeps order and sharing. */
  lemma StallKeeps(s: Space, z: Zip, length: nat, whole: Block)
    requires Consistent(s, whole) && whole.size <= WORD && s.next !in SlotSet(Cells(s.tree)) && length > 0
    requires Found(s.tree, z, length) && Survives(s.tree, z, length) && !LosesBlock(s.tree, z, length, s.next)
    ensures z.tree.Bin?
    ensures var b := z.tree.cell.block;
            Ordered(Space(Taken(s.tree, z, length, s.next), if b.size > length then s.next + 1 else s.next,
                          s.taken + [Block(b.base, length)]), whole)
  {
    TakenInOrder(s.tree, z, length, s.next);
    TakenBlocks(s.tree, z, length, s.next);
    TakeShares(Blocks(Cells(s.tree)), s.taken, Index(z), length, whole);
  }

  /** The nodes stay in order and distinct. */
  lemma TakenInOrder(t: Tree, z: Zip, length: nat, slot: Ptr)
    requires Ready(t) && Found(t, z, length) && slot !in SlotSet(Cells(t)) && length > 0
    requires Survives(t, z, length) && !LosesBlock(t, z, length, slot) &&
             forall n :: n in Cells(t) ==> 0 <= n.slot < slot
    ensures z.tree.Bin? && Sorted(Cells(Taken(t, z, length, slot))) && DistinctSlots(Cells(Taken(t, z, length, slot)))
    ensures forall n :: n in Cells(Taken(t, z, length, slot)) ==>
                          0 <= n.slot < (if z.tree.cell.block.size > length then slot + 1 else slot)
  {
    var v := Victim(t, z, length, slot);
    VictimCells(t, z, length, slot);
    VictimThere(t, z, length, slot);
    VictimSide(t, z, length, slot);
    DeleteKeepsOrder(v.ctx, v.tree);
    DeleteKeepsSlots(v.ctx, v.tree);
    ResizedSlots(t, z.tree.cell.block, length, slot);
  }

  lemma ResizedSlots(t: Tree, b: Block, length: nat, slot: nat)
    requires Ready(t) && b.size >= length && (forall n :: n in Cells(t) ==> 0 <= n.slot < slot)
    ensures forall n :: n in Cells(Resized(t, b, length, slot)) ==>
                          0 <= n.slot < (if b.size > length then slot + 1 else slot)
  {
    if b.size > length { InsertCorrect(t, Cell(slot, Remainder(b, length))); }
  }

  lemma FreeKeeps(s: Space, k: nat, offset: nat, whole: Block)
    requires Consistent(s, whole) && whole.size <= WORD && s.next !in SlotSet(Cells(s.tree))
    requires Enabled(s, Free(k, offset))
    ensures Consistent(Step(s, Free(k, offset)), whole)
  {
    ReturnKeeps(s, k, offset, whole);
    InsertCorrect(s.tree, Cell(s.next, PageOf(s.taken[k], offset)));
  }

  /** A page can be given back to any tree in order, also to one that a stalled deletion has left unbalanced, and order
      and sharing are kept. */
  lemma ReturnKeeps(s: Space, k: nat, offset: nat, whole: Block)
    requires Ordered(s, whole) && whole.size <= WORD && k < |s.taken| && offset + PAGE <= s.taken[k].size
    ensures Ordered(Returned(s, k, offset), whole)
  {
    var n := Cell(s.next, PageOf(s.taken[k], offset));
    var d := Descend(Top, s.tree, n.block.size);
    InsertConserves(s.tree, n);
    InsertDistinct(Before(d), n, After(d));
    BlocksConcat(Before(d), After(d));
    BlocksConcat(Before(d) + [n], After(d));
    BlocksConcat(Before(d), [n]);
    assert Blocks([n]) == [n.block];
    FreeShares(Blocks(Before(d)), Blocks(After(d)), s.taken, k, offset, whole);
  }

  /** Dropping a nonempty block from what is shared out leaves its addresses with nobody. */
  lemma SharedDrop(a: seq<Block>, lost: Block, b: seq<Block>, taken: seq<Block>, whole: Block)
    requires Shared((a + [lost] + b) + taken, whole)
    ensures Shared((a + b) + taken, whole) <==> lost.size == 0
  {
    forall x
      ensures Count((a + b) + taken, x) + One(x, lost) == One(x, whole)
      ensures Total((a + b) + taken) + lost.size == whole.size
    {
      assert Count((a + [lost] + b) + taken, x) == One(x, whole);
      CountConcat(a + [lost] + b, taken, x);
      CountConcat(a + b, taken, x);
      CountOne(a, lost, b, x);
    }
    var _ := Count((a + b) + taken, 0);
  }

  /** An allocation that leaves a node keeps the address space shared out if and only if the deletion loses no
      predecessor's child, unless that child's block is empty. */
  lemma AllocShares(s: Space, length: nat, z: Zip, whole: Block)
    requires Consistent(s, whole) && whole.size <= WORD && s.next !in SlotSet(Cells(s.tree)) && length > 0
    requires Found(s.tree, z, length) && Survives(s.tree, z, length)
    ensures Shared(Blocks(Cells(Taken(s.tree, z, length, s.next))) +
                   (s.taken + [Block(z.tree.cell.block.base, length)]), whole)
       <==> !LosesBlock(s.tree, z, length, s.next) || LostBlock(s.tree, z, length, s.next).size == 0
  {
    var got := s.taken + [Block(z.tree.cell.block.base, length)];
    RestTaking(s.tree, z, length, s.next);
    TakeShares(Blocks(Cells(s.tree)), s.taken, Index(z), length, whole);
    if LosesBlock(s.tree, z, length, s.next) {
      var a, b := TakenLoses(s.tree, z, length, s.next);
      SharedDrop(a, LostBlock(s.tree, z, length, s.next), b, got, whole);
    } else {
      TakenBlocks(s.tree, z, length, s.next);
    }
  }

  ghost predicate RunEnabled(s: Space, rs: seq<Request>, whole: Block)
    requires Consistent(s, whole) && whole.size <= WORD
    decreases |rs|
  {
    rs == [] || (
      ConsistentFresh(s, whole);
      Enabled(s, rs[0]) && (StepKeeps(s, rs[0], whole); RunEnabled(Step(s, rs[0]), rs[1..], whole)))
  }

  lemma StepKeeps(s: Space, r: Request, whole: Block)
    requires Consistent(s, whole) && whole.size <= WORD && s.next !in SlotSet(Cells(s.tree)) && Enabled(s, r)
    ensures Consistent(Step(s, r), whole)
  {
    match r
    case Alloc(length) => AllocKeeps(s, length, whole);
    case Free(k, offset) => FreeKeeps(s, k, offset, whole);
  }

  ghost function Run(s: Space, rs: seq<Request>, whole: Block): Space
    requires Consistent(s, whole) && whole.size <= WORD && RunEnabled(s, rs, whole)
    decreases |rs|
  {
    if rs == [] then s
    else
      ConsistentFresh(s, whole);
      StepKeeps(s, rs[0], whole);
      Run(Step(s, rs[0]), rs[1..], whole)
  }

  /** Over any run of enabled requests every address of the space stays in exactly one free block or
      handed-out range, and the total stays the size of the space. */
  lemma {:induction false} RunShares(s: Space, rs: seq<Request>, whole: Block)
    requires Consistent(s, whole) && whole.size <= WORD && RunEnabled(s, rs, whole)
    ensures Consistent(Run(s, rs, whole), whole)
    decreases |rs|
  {
    if rs != [] {
      ConsistentFresh(s, whole);
      StepKeeps(s, rs[0], whole);
      RunShares(Step(s, rs[0]), rs[1..], whole);
    }
  }

  // ------------------------------------------------------------------------------------------
  // Pages
  // ------------------------------------------------------------------------------------------

  predicate InPages(s: Space) { PagesOnly(Blocks(Cells(s.tree))) && PagesOnly(s.taken) }

  /** `vmm_page_alloc` rounds lengths up to whole pages; a page that is given back starts at one. */
  predicate PageRequest(r: Request) {
    match r
    case Alloc(length) => length % PAGE == 0
    case Free(k, offset) => offset % PAGE == 0
  }

  /** Free blocks and handed-out ranges start at a page throughout. */
  lemma StepInPages(s: Space, r: Request, whole: Block)
    requires Consistent(s, whole) && s.next !in SlotSet(Cells(s.tree)) && Enabled(s, r) && InPages(s) && PageRequest(r)
    ensures InPages(Step(s, r))
  {
    match r
    case Alloc(length) =>
      if Best(s.tree, length).Some? { TakenOnPages(s.tree, Best(s.tree, length).value, length, s.next); }
    case Free(k, offset) =>
      var b := s.taken[k];
      assert b in s.taken;
      RemainderOnPage(b, offset);
      RemainderOnPage(Remainder(b, offset), PAGE);
      InsertOnPages(s.tree, Cell(s.next, PageOf(b, offset)));
  }

  lemma {:induction false} RunInPages(s: Space, rs: seq<Request>, whole: Block)
    requires Consistent(s, whole) && whole.size <= WORD && RunEnabled(s, rs, whole) && InPages(s)
    requires forall r :: r in rs ==> PageRequest(r)
    ensures InPages(Run(s, rs, whole))
    decreases |rs|
  {
    if rs != [] {
      ConsistentFresh(s, whole);
      StepKeeps(s, rs[0], whole);
      StepInPages(s, rs[0], whole);
      RunInPages(Step(s, rs[0]), rs[1..], whole);
    }
  }

  // ------------------------------------------------------------------------------------------
  // Allocation only, from the single block of `create_vmm`
  // ------------------------------------------------------------------------------------------

  /** One free block, stored in slot 0. */
  function Alone(b: Block): Tree { Bin(Nil, Cell(0, b), Black, Nil) }

  /** The space that `create_vmm` sets up. */
  function Fresh(whole: Block): Space { Space(Alone(whole), 1, []) }

  lemma FreshConsistent(whole: Block)
    ensures Consistent(Fresh(whole), whole)
  {
    SingleNode(Cell(0, whole));
    assert Blocks(Cells(Alone(whole))) + [] == [whole];
    assert Total([whole]) == whole.size + Total([]);
    forall x ensures Count([whole], x) == One(x, whole) {
      assert Count([whole], x) == One(x, whole) + Count([], x);
    }
  }

  lemma AloneInsert(b: Block, n: Cell)
    requires n.block.size < b.size
    ensures RedBlack(Alone(b)) && Insert(Alone(b), n) == Bin(Bin(Nil, n, Red, Nil), Cell(0, b), Black, Nil)
  {
    var d := InLeft(Top, Cell(0, b), Black, Nil);
    SingleNode(Cell(0, b));
    assert Descend(Top, Paint(Alone(b), Black), n.block.size) == d && RootBlack(d);
    assert Insert(Alone(b), n) == InsertFix(d, Bin(Nil, n, Red, Nil));
    assert Plug(d, Bin(Nil, n, Red, Nil)) == Plug(Top, Bin(Bin(Nil, n, Red, Nil), Cell(0, b), Black, Nil));
  }

  lemma AloneStep(s: Space, b: Block, length: nat)
    requires s.tree == Alone(b) && 0 < length < b.size && s.next > 0
    ensures Ready(s.tree) && s.next !in SlotSet(Cells(s.tree)) && Enabled(s, Alloc(length))
    ensures Step(s, Alloc(length)) == Space(Alone(Remainder(b, length)), s.next + 1, s.taken + [Block(b.base, length)])
  {
    var t := s.tree;
    assert Cells(t) == [Cell(0, b)];
    var z := Zip(Top, t);
    assert Search(Top, t, length) == Zip(InLeft(Top, Cell(0, b), Black, Nil), Nil);
    assert Found(t, z, length);
    var n := Cell(s.next, Remainder(b, length));
    var t1 := Bin(Bin(Nil, n, Red, Nil), Cell(0, b), Black, Nil);
    AloneInsert(b, n);
    assert Resized(t, b, length, s.next) == t1;
    VictimThere(t, z, length, s.next);
    assert Victim(t, z, length, s.next) == Zip(Top, t1);
    VictimDeletable(t, z, length, s.next);
    assert Delete(Top, t1) == Alone(Remainder(b, length));
  }

  function Sum(lengths: seq<nat>): nat {
    if lengths == [] then 0 else lengths[0] + Sum(lengths[1..])
  }

  /** Allocations in a row from one block. */
  function Chain(b: Block, lengths: seq<nat>): seq<Block>
    requires Sum(lengths) <= b.size
    decreases |lengths|
  {
    if lengths == [] then []
    else [Block(b.base, lengths[0])] + Chain(Remainder(b, lengths[0]), lengths[1..])
  }

  function Allocs(lengths: seq<nat>): seq<Request> {
    seq(|lengths|, i requires 0 <= i < |lengths| => Alloc(lengths[i]))
  }

  /** The single block after one more allocation. */
  function AloneNext(s: Space, b: Block, length: nat): Space
    requires length <= b.size
  {
    Space(Alone(Remainder(b, length)), s.next + 1, s.taken + [Block(b.base, length)])
  }

  /** The run is possible and ends with this tree and these ranges. */
  ghost predicate RunsTo(s: Space, rs: seq<Request>, whole: Block, t: Tree, taken: seq<Block>)
    requires Consistent(s, whole) && whole.size <= WORD
  {
    RunEnabled(s, rs, whole) && Run(s, rs, whole).tree == t && Run(s, rs, whole).taken == taken
  }

  lemma AloneFirst(s: Space, b: Block, length: nat, rs: seq<Request>, whole: Block, t: Tree, taken: seq<Block>)
    requires Consistent(s, whole) && whole.size <= WORD && s.tree == Alone(b) && s.next > 0 && 0 < length < b.size
    ensures var s' := AloneNext(s, b, length);
            && Consistent(s', whole)
            && (RunsTo(s', rs, whole, t, taken) ==> RunsTo(s, [Alloc(length)] + rs, whole, t, taken))
  {
    AloneStep(s, b, length);
    StepKeeps(s, Alloc(length), whole);
    var all := [Alloc(length)] + rs;
    assert all[0] == Alloc(length) && all[1..] == rs;
  }

  /** While requests are smaller than what remains, no premise is needed: the ranges handed out follow
      each other from the start of the space, and one free block remains behind them. */
  lemma {:induction false} AloneRun(s: Space, b: Block, lengths: seq<nat>, whole: Block)
    requires Consistent(s, whole) && whole.size <= WORD && s.tree == Alone(b) && s.next > 0
    requires (forall i :: 0 <= i < |lengths| ==> lengths[i] > 0) && Sum(lengths) < b.size && b.base < WORD
    ensures RunsTo(s, Allocs(lengths), whole,
                   Alone(Block((b.base + Sum(lengths)) % WORD, b.size - Sum(lengths))), s.taken + Chain(b, lengths))
    decreases |lengths|
  {
    if lengths == [] {
      assert s.taken + Chain(b, lengths) == s.taken;
    } else {
      var l, rest := lengths[0], lengths[1..];
      ChainStep(s.taken, b, lengths);
      AloneFirst(s, b, l, Allocs(rest), whole,
                 Alone(Block((b.base + Sum(lengths)) % WORD, b.size - Sum(lengths))), s.taken + Chain(b, lengths));
      AloneRun(AloneNext(s, b, l), Remainder(b, l), rest, whole);
    }
  }

  /** The first range of a chain, and where the others start. */
  lemma ChainStep(taken: seq<Block>, b: Block, lengths: seq<nat>)
    requires lengths != [] && Sum(lengths) <= b.size
    ensures var (l, rest) := (lengths[0], lengths[1..]);
            && taken + [Block(b.base, l)] + Chain(Remainder(b, l), rest) == taken + Chain(b, lengths)
            && (Remainder(b, l).base + Sum(rest)) % WORD == (b.base + Sum(lengths)) % WORD
            && Remainder(b, l).size - Sum(rest) == b.size - Sum(lengths)
            && Allocs(lengths) == [Alloc(l)] + Allocs(rest)
  {
  }
}
