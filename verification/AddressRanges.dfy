/** Which free block `vmm_page_alloc` takes and what is left, as functions on tree values. */
module AddressRanges {
  import opened Common
  import opened RedBlackTree
  import opened FreeTreeSpec

  /** `BYTE_PGROUNDUP` in 32-bit arithmetic. */
  function PageUp(n: nat): nat {
    (n + (PAGE - 1)) % WORD / PAGE * PAGE
  }

  /** The least multiple of a page that is large enough, or 0 if that does not fit into 32 bits. */
  lemma PageUpPages(size: nat)
    ensures PageUp(size) % PAGE == 0 && PageUp(size) <= WORD - PAGE
    ensures size <= WORD - PAGE ==> size <= PageUp(size) < size + PAGE
    ensures WORD - PAGE < size < WORD ==> PageUp(size) == 0
  {
  }

  datatype Zip = Zip(ctx: Ctx, tree: Tree)

  // ------------------------------------------------------------------------------------------
  // Best fit
  // ------------------------------------------------------------------------------------------

  /** Where the search loop ends: on a block of the wanted size or in an empty place. */
  function Search(c: Ctx, s: Tree, length: nat): Zip
    decreases s
  {
    match s
    case Nil => Zip(c, s)
    case Bin(l, n, color, r) =>
      if n.block.size == length then Zip(c, s)
      else if n.block.size <= length then Search(InRight(l, n, color, c), r, length)
      else Search(InLeft(c, n, color, r), l, length)
  }

  /** The block found: an exact fit, or the last block at which the search turned left. */
  function Chosen(z: Zip): Option<Zip> {
    if z.tree.Bin? then Some(z)
    else if After(z.ctx) == [] then None
    else Some(Zip(NextCtx(z.ctx), NextTree(z.ctx, z.tree)))
  }

  function Best(t: Tree, length: nat): Option<Zip> {
    Chosen(Search(Top, t, length))
  }

  /** No block on the way up has this size. */
  predicate Avoids(c: Ctx, length: nat) {
    c.Top? || (c.cell.block.size != length && Avoids(c.up, length))
  }

  lemma {:induction false} SearchCorrect(c: Ctx, s: Tree, length: nat)
    requires Sorted(Before(c) + Cells(s) + After(c)) && Avoids(c, length)
    requires forall n :: n in Before(c) ==> n.block.size < length
    requires forall n :: n in After(c) ==> n.block.size > length
    ensures var z := Search(c, s, length);
            && Plug(z.ctx, z.tree) == Plug(c, s) && Avoids(z.ctx, length)
            && (z.tree.Bin? ==> z.tree.cell.block.size == length)
            && (z.tree.Nil? ==> forall n :: n in Before(z.ctx) ==> n.block.size < length)
            && (z.tree.Nil? ==> forall n :: n in After(z.ctx) ==> n.block.size > length)
    decreases s
  {
    if s.Bin? && s.cell.block.size != length {
      SortedAround(Before(c), Cells(s.left), s.cell, Cells(s.right), After(c));
      StepDownCells(c, s.left, s.cell, s.color, s.right);
      if s.cell.block.size <= length {
        SearchCorrect(InRight(s.left, s.cell, s.color, c), s.right, length);
      } else {
        SearchCorrect(InLeft(c, s.cell, s.color, s.right), s.left, length);
      }
    }
  }

  /** The cells of a tree around one of its nodes. */
  lemma ZipCells(z: Zip)
    requires z.tree.Bin?
    ensures Cells(Plug(z.ctx, z.tree)) ==
            (Before(z.ctx) + Cells(z.tree.left)) + [z.tree.cell] + (Cells(z.tree.right) + After(z.ctx))
  {
    PlugCells(z.ctx, z.tree);
  }

  /** The chosen block is the first one after the empty place. */
  lemma ChosenNext(z: Zip)
    requires z.tree == Nil && After(z.ctx) != []
    ensures var b := Chosen(z).value;
            && b.tree.Bin? && Plug(b.ctx, b.tree) == Plug(z.ctx, Nil)
            && Before(b.ctx) + Cells(b.tree.left) == Before(z.ctx)
            && [b.tree.cell] + (Cells(b.tree.right) + After(b.ctx)) == After(z.ctx)
  {
    NextPlug(z.ctx, Nil, After(z.ctx)[0].block);
    NextPlace(z.ctx, Nil);
    assert Before(z.ctx) + [] == Before(z.ctx);
  }

  /** The chosen block is a smallest one that is large enough; none is chosen only if none is. A block
      that is too large comes right after the blocks that are too small. */
  lemma BestFit(t: Tree, length: nat)
    requires Sorted(Cells(t))
    ensures Best(t, length) == None <==> forall n :: n in Cells(t) ==> n.block.size < length
    ensures Best(t, length).Some? ==>
              var z := Best(t, length).value;
              && z.tree.Bin? && Plug(z.ctx, z.tree) == t && z.tree.cell in Cells(t)
              && z.tree.cell.block.size >= length
              && (forall n :: n in Cells(t) && n.block.size >= length ==> z.tree.cell.block.size <= n.block.size)
              && (z.tree.cell.block.size == length ==> Avoids(z.ctx, length))
              && (z.tree.cell.block.size > length ==>
                    forall n :: n in Before(z.ctx) + Cells(z.tree.left) ==> n.block.size < length)
  {
    assert Before(Top) + Cells(t) + After(Top) == Cells(t);
    SearchCorrect(Top, t, length);
    var z := Search(Top, t, length);
    if z.tree.Bin? {
      ZipCells(z);
    } else {
      PlugNilCells(z.ctx);
      if After(z.ctx) != [] {
        ChosenNext(z);
        FirstFits(Before(z.ctx), After(z.ctx), length);
      } else {
        assert Cells(t) == Before(z.ctx);
      }
    }
  }

  /** In a sorted sequence the first of the blocks that fit is a smallest one. */
  lemma FirstFits(before: seq<Cell>, after: seq<Cell>, length: nat)
    requires Sorted(before + after) && after != [] && forall n :: n in before ==> n.block.size < length
    ensures after[0] in before + after
    ensures forall n :: n in before + after && n.block.size >= length ==> after[0].block.size <= n.block.size
  {
    var all, k := before + after, |before|;
    assert all[k] == after[0];
    forall i | 0 <= i < k ensures all[i].block.size < length { assert all[i] == before[i]; }
  }

  lemma {:induction false} NextPlace(c: Ctx, t: Tree)
    requires After(c) != []
    ensures var (n, u) := (NextCtx(c), NextTree(c, t));
            && Before(n) + Cells(u.left) == Before(c) + Cells(t)
            && After(c) == [u.cell] + (Cells(u.right) + After(n))
    decreases c
  {
    if c.InRight? { NextPlace(c.up, Whole(c, t)); }
  }

  // ------------------------------------------------------------------------------------------
  // The search is short
  // ------------------------------------------------------------------------------------------

  /** The number of nodes on the longest way down. */
  function Levels(t: Tree): nat {
    if t.Nil? then 0 else 1 + if Levels(t.left) >= Levels(t.right) then Levels(t.left) else Levels(t.right)
  }

  lemma {:induction false} LevelsBound(t: Tree)
    requires Fair(t) && Doubles(t) == 0
    ensures Levels(t) <= 2 * Height(t) + (if IsRed(t) then 1 else 0)
    ensures Pow2(Height(t)) <= |Cells(t)| + 1
  {
    if t.Bin? {
      LevelsBound(t.left);
      LevelsBound(t.right);
    }
  }

  lemma Squares(p: nat, n: nat)
    requires p <= n
    ensures p * p <= n * n
  {
  }

  /** A red-black tree of n nodes has at most 2*log2(n+1) levels. */
  lemma LogBound(t: Tree)
    requires RedBlack(t)
    ensures Pow2(Levels(t)) <= (|Cells(t)| + 1) * (|Cells(t)| + 1)
  {
    LevelsBound(t);
    var h := Height(t);
    Pow2Monotone(Levels(t), h + h);
    Pow2Add(h, h);
    Squares(Pow2(h), |Cells(t)| + 1);
  }

  // ------------------------------------------------------------------------------------------
  // Splitting the chosen block
  // ------------------------------------------------------------------------------------------

  /** The node stored in `slot`. */
  function Locate(c: Ctx, s: Tree, slot: Ptr): (z: Zip)
    requires slot in SlotSet(Cells(s))
    ensures z.tree.Bin? && z.tree.cell.slot == slot && Plug(z.ctx, z.tree) == Plug(c, s)
    decreases s
  {
    if s.cell.slot == slot then Zip(c, s)
    else if slot in SlotSet(Cells(s.left)) then Locate(InLeft(c, s.cell, s.color, s.right), s.left, slot)
    else Locate(InRight(s.left, s.cell, s.color, c), s.right, slot)
  }

  /** What remains of a block after its first `length` bytes; the base wraps like a 32-bit sum. */
  function Remainder(b: Block, length: nat): Block
    requires b.size >= length
  {
    Block((b.base + length) % WORD, b.size - length)
  }

  /** The tree after the resizing step of `vmm_page_alloc`; a new node goes to `slot`. */
  function Resized(t: Tree, b: Block, length: nat, slot: Ptr): Tree
    requires RedBlack(t) && b.size >= length
  {
    if b.size > length then Insert(t, Cell(slot, Remainder(b, length))) else t
  }

  lemma SlotOnce(a: seq<Cell>, n: Cell, b: seq<Cell>, a': seq<Cell>, n': Cell, b': seq<Cell>)
    requires a + [n] + b == a' + [n'] + b' && DistinctSlots(a + [n] + b) && n.slot == n'.slot
    ensures a == a' && n == n' && b == b'
  {
    var all := a + [n] + b;
    assert all[|a|] == n && all[|a'|] == n';
    assert |a| == |a'|;
    assert a == all[..|a|] && a' == all[..|a|] && b == all[|a| + 1..] && b' == all[|a| + 1..];
  }

  /** What the allocator relies on. */
  predicate Ready(t: Tree) {
    RedBlack(t) && Sorted(Cells(t)) && DistinctSlots(Cells(t))
  }

  /** A block found by the search for `length` bytes. */
  predicate Found(t: Tree, z: Zip, length: nat) {
    Best(t, length) == Some(z)
  }

  /** Where the chosen node stands when `delete_node` is called. */
  function Victim(t: Tree, z: Zip, length: nat, slot: Ptr): Zip
    requires Ready(t) && Found(t, z, length) && slot !in SlotSet(Cells(t))
  {
    BestFit(t, length);
    VictimThere(t, z, length, slot);
    if z.tree.cell.block.size > length then
      Locate(Top, Resized(t, z.tree.cell.block, length, slot), z.tree.cell.slot)
    else z
  }

  lemma VictimThere(t: Tree, z: Zip, length: nat, slot: Ptr)
    requires Ready(t) && Found(t, z, length) && slot !in SlotSet(Cells(t))
    ensures z.tree.Bin? && z.tree.cell.block.size >= length
    ensures var t1 := Resized(t, z.tree.cell.block, length, slot);
            Ready(t1) && z.tree.cell.slot in SlotSet(Cells(t1))
  {
    BestFit(t, length);
    var b := z.tree.cell.block;
    if b.size > length {
      var n := Cell(slot, Remainder(b, length));
      InsertCorrect(t, n);
      var d := Descend(Top, t, n.block.size);
      assert z.tree.cell in Before(d) + [n] + After(d);
      InsertDistinct(Before(d), n, After(d));
    }
  }

  lemma InsertDistinct(a: seq<Cell>, n: Cell, b: seq<Cell>)
    requires DistinctSlots(a + b) && n.slot !in SlotSet(a + b)
    ensures DistinctSlots(a + [n] + b)
  {
    var all, old' := a + [n] + b, a + b;
    forall i, j | 0 <= i < j < |all| ensures all[i].slot != all[j].slot {
      var i', j' := if i < |a| then i else i - 1, if j < |a| then j else j - 1;
      if i != |a| { assert all[i] == old'[i'] && all[i] in old'; }
      if j != |a| { assert all[j] == old'[j'] && all[j] in old'; }
    }
  }

  /** The cells around the chosen node after the resizing step: the new block, if there is one, comes
      somewhere before it. */
  lemma VictimCells(t: Tree, z: Zip, length: nat, slot: Ptr)
    requires Ready(t) && Found(t, z, length) && slot !in SlotSet(Cells(t)) && length > 0
    ensures var v := Victim(t, z, length, slot);
            var (p, s) := (Before(z.ctx) + Cells(z.tree.left), Cells(z.tree.right) + After(z.ctx));
            var b := z.tree.cell.block;
            && z.tree.Bin? && b.size >= length && v.tree.Bin? && v.tree.cell == z.tree.cell
            && Plug(v.ctx, v.tree) == Resized(t, b, length, slot)
            && Cells(v.tree.right) + After(v.ctx) == s
            && (b.size == length ==> v == z)
            && (b.size > length ==>
                  var n := Cell(slot, Remainder(b, length));
                  var k := |Before(Descend(Top, t, n.block.size))|;
                  && k <= |p| && SplitsAt(p[..k], p[k..] + s, n.block.size)
                  && Before(v.ctx) + Cells(v.tree.left) == p[..k] + [n] + p[k..])
  {
    BestFit(t, length);
    VictimThere(t, z, length, slot);
    ZipCells(z);
    var v := Victim(t, z, length, slot);
    var p, s := Before(z.ctx) + Cells(z.tree.left), Cells(z.tree.right) + After(z.ctx);
    var b := z.tree.cell.block;
    if b.size > length {
      var n := Cell(slot, Remainder(b, length));
      InsertCorrect(t, n);
      var d := Descend(Top, t, n.block.size);
      var k := |Before(d)|;
      SplitBefore(Before(d), After(d), p, z.tree.cell, s, n.block.size);
      var q := p[..k] + [n] + p[k..];
      assert Cells(Plug(v.ctx, v.tree)) == q + [z.tree.cell] + s;
      ZipCells(v);
      SlotOnce(q, z.tree.cell, s, Before(v.ctx) + Cells(v.tree.left), v.tree.cell, Cells(v.tree.right) + After(v.ctx));
    }
  }

  /** A block larger than `size` lies behind the place for `size`. */
  lemma SplitBefore(before: seq<Cell>, after: seq<Cell>, p: seq<Cell>, n: Cell, s: seq<Cell>, size: nat)
    requires before + after == p + [n] + s && SplitsAt(before, after, size) && n.block.size >= size
    ensures |before| <= |p| && before == p[..|before|] && after == p[|before|..] + [n] + s
    ensures SplitsAt(p[..|before|], p[|before|..] + s, size)
  {
    var all, k := before + after, |before|;
    assert all[|p|] == n;
    forall i | 0 <= i < k ensures all[i].block.size < size { assert all[i] == before[i]; }
    assert before == all[..k] && after == all[k..];
    assert all[..k] == p[..k];
    assert all[k..] == p[k..] + [n] + s;
  }

  /** A leaf that the search chose hangs on the side that `delete_node` expects. */
  lemma VictimSide(t: Tree, z: Zip, length: nat, slot: Ptr)
    requires Ready(t) && Found(t, z, length) && slot !in SlotSet(Cells(t)) && length > 0
    ensures var v := Victim(t, z, length, slot);
            v.tree.Bin? && (v.tree.left == Nil && v.tree.right == Nil && !v.ctx.Top? ==> SideTestAgrees(v.ctx, v.tree))
  {
    BestFit(t, length);
    VictimCells(t, z, length, slot);
    VictimThere(t, z, length, slot);
    var v := Victim(t, z, length, slot);
    ZipCells(v);
    var cells := Cells(Plug(v.ctx, v.tree));
    var a := Before(v.ctx) + Cells(v.tree.left);
    if v.ctx.InRight? {
      assert Before(v.ctx)[|Before(v.ctx)| - 1] == v.ctx.cell;
      assert v.ctx.cell in a;
      assert cells[|a|] == v.tree.cell && cells[|Before(v.ctx)| - 1] == v.ctx.cell;
    } else if v.ctx.InLeft? && v.tree.right == Nil {
      assert After(v.ctx)[0] == v.ctx.cell;
      assert cells[|a|] == v.tree.cell && cells[|a| + 1] == v.ctx.cell;
    }
  }

  // ------------------------------------------------------------------------------------------
  // One allocation
  // ------------------------------------------------------------------------------------------

  /** How many blocks at the front are smaller. */
  function LowerBound(bs: seq<Block>, size: nat): (k: nat)
    ensures k <= |bs|
  {
    if bs == [] || bs[0].size >= size then 0 else 1 + LowerBound(bs[1..], size)
  }

  function InsertSorted(bs: seq<Block>, b: Block): seq<Block> {
    var k := LowerBound(bs, b.size);
    bs[..k] + [b] + bs[k..]
  }

  /** Block `k` is replaced by what remains of it, which moves to its place in the order. */
  function AfterTaking(bs: seq<Block>, k: nat, length: nat): seq<Block>
    requires k < |bs| && bs[k].size >= length
  {
    var others := bs[..k] + bs[k + 1..];
    if bs[k].size > length then InsertSorted(others, Remainder(bs[k], length)) else others
  }

  lemma {:induction false} LowerBoundAt(a: seq<Block>, b: seq<Block>, size: nat)
    requires forall x :: x in a ==> x.size < size
    requires b != [] ==> b[0].size >= size
    ensures LowerBound(a + b, size) == |a|
  {
    if a == [] {
      assert a + b == b;
    } else {
      assert a[0] in a && (a + b)[1..] == a[1..] + b;
      LowerBoundAt(a[1..], b, size);
    }
  }

  /** The index of the chosen block. */
  function Index(z: Zip): nat
    requires z.tree.Bin?
  {
    |Before(z.ctx) + Cells(z.tree.left)|
  }

  /** Every node is not the only one, or the request leaves something of it. */
  predicate Survives(t: Tree, z: Zip, length: nat) {
    z.tree.Bin? && (z.tree.cell.block.size > length || !(z.ctx.Top? && z.tree.left == Nil && z.tree.right == Nil))
  }

  lemma VictimDeletable(t: Tree, z: Zip, length: nat, slot: Ptr)
    requires Ready(t) && Found(t, z, length) && slot !in SlotSet(Cells(t)) && length > 0
    ensures var v := Victim(t, z, length, slot);
            Survives(t, z, length) <==> Deletable(v.ctx, v.tree)
  {
    BestFit(t, length);
    VictimCells(t, z, length, slot);
    VictimThere(t, z, length, slot);
    var v := Victim(t, z, length, slot);
    ZipCells(v);
  }

  /** The predecessor that would be moved up has a child of its own. */
  predicate LosesBlock(t: Tree, z: Zip, length: nat, slot: Ptr)
    requires Ready(t) && Found(t, z, length) && slot !in SlotSet(Cells(t))
  {
    var v := Victim(t, z, length, slot).tree;
    v.Bin? && v.left.Bin? && v.right.Bin? && RightmostTree(v.left).left.Bin?
  }

  /** The tree after a successful allocation. */
  function Taken(t: Tree, z: Zip, length: nat, slot: Ptr): Tree
    requires Ready(t) && Found(t, z, length) && slot !in SlotSet(Cells(t)) && length > 0 && Survives(t, z, length)
  {
    var v := Victim(t, z, length, slot);
    VictimDeletable(t, z, length, slot);
    Delete(v.ctx, v.tree)
  }

  // ------------------------------------------------------------------------------------------
  // Pages
  // ------------------------------------------------------------------------------------------

  /** The address of a page. */
  predicate OnPage(base: nat) { base % PAGE == 0 && base < WORD }

  predicate PagesOnly(bs: seq<Block>) { forall b :: b in bs ==> OnPage(b.base) }

  lemma RemainderOnPage(b: Block, length: nat)
    requires OnPage(b.base) && length % PAGE == 0 && length <= b.size
    ensures OnPage(Remainder(b, length).base)
  {
    var x := b.base / PAGE + length / PAGE;
    var p := WORD / PAGE;
    assert b.base + length == PAGE * x;
    assert PAGE * x == WORD * (x / p) + PAGE * (x % p);
    assert (b.base + length) % WORD == PAGE * (x % p);
  }

  /** Allocations in whole pages leave free blocks that start at a page. */
  lemma TakenOnPages(t: Tree, z: Zip, length: nat, slot: Ptr)
    requires Ready(t) && Found(t, z, length) && slot !in SlotSet(Cells(t)) && length > 0 && Survives(t, z, length)
    requires PagesOnly(Blocks(Cells(t))) && length % PAGE == 0
    ensures PagesOnly(Blocks(Cells(Taken(t, z, length, slot)))) && OnPage(z.tree.cell.block.base)
  {
    BestFit(t, length);
    VictimCells(t, z, length, slot);
    VictimDeletable(t, z, length, slot);
    VictimSide(t, z, length, slot);
    var v, b := Victim(t, z, length, slot), z.tree.cell.block;
    ChosenOnPage(t, z);
    ResizedOnPages(t, b, length, slot);
    DeleteAmong(v.ctx, v.tree);
    var all, r := Cells(Resized(t, b, length, slot)), Cells(Taken(t, z, length, slot));
    forall c | c in Blocks(r) ensures OnPage(c.base) {
      var i :| 0 <= i < |r| && r[i].block == c;
      assert r[i] in r;
      var m :| m in all && m.block == c;
      BlockOnPage(all, m);
    }
  }

  lemma BlockOnPage(cs: seq<Cell>, n: Cell)
    requires PagesOnly(Blocks(cs)) && n in cs
    ensures OnPage(n.block.base)
  {
    var i :| 0 <= i < |cs| && cs[i] == n;
    assert Blocks(cs)[i] in Blocks(cs);
  }

  lemma ChosenOnPage(t: Tree, z: Zip)
    requires z.tree.Bin? && Plug(z.ctx, z.tree) == t && PagesOnly(Blocks(Cells(t)))
    ensures OnPage(z.tree.cell.block.base)
  {
    ZipCells(z);
    assert z.tree.cell in Cells(t);
    BlockOnPage(Cells(t), z.tree.cell);
  }

  lemma InsertOnPages(t: Tree, n: Cell)
    requires Ready(t) && PagesOnly(Blocks(Cells(t))) && OnPage(n.block.base)
    ensures PagesOnly(Blocks(Cells(Insert(t, n))))
  {
    InsertCorrect(t, n);
    var cs, r := Cells(t), Cells(Insert(t, n));
    forall c | c in Blocks(r) ensures OnPage(c.base) {
      var i :| 0 <= i < |r| && r[i].block == c;
      if r[i] != n {
        assert r[i] in cs;
        BlockOnPage(cs, r[i]);
      }
    }
  }

  lemma ResizedOnPages(t: Tree, b: Block, length: nat, slot: Ptr)
    requires Ready(t) && b.size >= length && PagesOnly(Blocks(Cells(t))) && OnPage(b.base) && length % PAGE == 0
    ensures PagesOnly(Blocks(Cells(Resized(t, b, length, slot))))
  {
    if b.size > length {
      RemainderOnPage(b, length);
      InsertOnPages(t, Cell(slot, Remainder(b, length)));
    }
  }

  /** The blocks left over by the deletion, on both sides of the chosen one. */
  lemma TakenRest(t: Tree, z: Zip, length: nat, slot: Ptr)
    requires Ready(t) && Found(t, z, length) && slot !in SlotSet(Cells(t)) && length > 0 && Survives(t, z, length)
    requires !LosesBlock(t, z, length, slot)
    ensures var v := Victim(t, z, length, slot);
            v.tree.Bin? && Blocks(Cells(Taken(t, z, length, slot))) ==
                           Blocks(Before(v.ctx) + Cells(v.tree.left)) + Blocks(Cells(v.tree.right) + After(v.ctx))
  {
    VictimCells(t, z, length, slot);
    VictimThere(t, z, length, slot);
    VictimDeletable(t, z, length, slot);
    VictimSide(t, z, length, slot);
    var v := Victim(t, z, length, slot);
    DeleteTakesOne(v.ctx, v.tree);
    RestBlocks(v.ctx, v.tree);
  }

  lemma IndexSplits(p: seq<Cell>, n: Cell, s: seq<Cell>)
    ensures var bs := Blocks(p + [n] + s); bs[|p|] == n.block && bs[..|p|] + bs[|p| + 1..] == Blocks(p) + Blocks(s)
  {
  }

  /** What is around the chosen block is what should be left of the free blocks. */
  lemma RestTaking(t: Tree, z: Zip, length: nat, slot: Ptr)
    requires Ready(t) && Found(t, z, length) && slot !in SlotSet(Cells(t)) && length > 0
    ensures var (bs, v) := (Blocks(Cells(t)), Victim(t, z, length, slot));
            && Index(z) < |bs| && bs[Index(z)] == z.tree.cell.block && bs[Index(z)].size >= length && v.tree.Bin?
            && Blocks(Before(v.ctx) + Cells(v.tree.left)) + Blocks(Cells(v.tree.right) + After(v.ctx))
               == AfterTaking(bs, Index(z), length)
  {
    BestFit(t, length);
    VictimCells(t, z, length, slot);
    ZipCells(z);
    var p, s := Before(z.ctx) + Cells(z.tree.left), Cells(z.tree.right) + After(z.ctx);
    IndexSplits(p, z.tree.cell, s);
    if z.tree.cell.block.size > length {
      TakenOrder(p, s, Cell(slot, Remainder(z.tree.cell.block, length)),
                 |Before(Descend(Top, t, z.tree.cell.block.size - length))|);
    }
  }

  /** One allocation replaces the chosen block by its remainder, and changes no other free block, unless
      the predecessor moved up by `delete_node` has a child. */
  lemma TakenBlocks(t: Tree, z: Zip, length: nat, slot: Ptr)
    requires Ready(t) && Found(t, z, length) && slot !in SlotSet(Cells(t)) && length > 0 && Survives(t, z, length)
    requires !LosesBlock(t, z, length, slot)
    ensures var bs := Blocks(Cells(t));
            && Index(z) < |bs| && bs[Index(z)] == z.tree.cell.block && bs[Index(z)].size >= length
            && Blocks(Cells(Taken(t, z, length, slot))) == AfterTaking(bs, Index(z), length)
  {
    TakenRest(t, z, length, slot);
    RestTaking(t, z, length, slot);
  }

  /** The block of that child. */
  function LostBlock(t: Tree, z: Zip, length: nat, slot: Ptr): Block
    requires Ready(t) && Found(t, z, length) && slot !in SlotSet(Cells(t)) && LosesBlock(t, z, length, slot)
  {
    RightmostTree(Victim(t, z, length, slot).tree.left).left.cell.block
  }

  /** If it has one, exactly the child's block is missing afterwards. */
  lemma TakenLoses(t: Tree, z: Zip, length: nat, slot: Ptr) returns (a: seq<Block>, b: seq<Block>)
    requires Ready(t) && Found(t, z, length) && slot !in SlotSet(Cells(t)) && length > 0 && Survives(t, z, length)
    requires LosesBlock(t, z, length, slot)
    ensures var bs := Blocks(Cells(t));
            && Index(z) < |bs| && bs[Index(z)].size >= length
            && AfterTaking(bs, Index(z), length) == a + [LostBlock(t, z, length, slot)] + b
            && Blocks(Cells(Taken(t, z, length, slot))) == a + b
  {
    RestTaking(t, z, length, slot);
    VictimDeletable(t, z, length, slot);
    var v := Victim(t, z, length, slot);
    a, b := PredecessorLoses(v.ctx, v.tree);
    RestBlocks(v.ctx, v.tree);
  }

  /** So an allocation does what it is for if and only if that predecessor has no child. */
  lemma TakenExactly(t: Tree, z: Zip, length: nat, slot: Ptr)
    requires Ready(t) && Found(t, z, length) && slot !in SlotSet(Cells(t)) && length > 0 && Survives(t, z, length)
    ensures var bs := Blocks(Cells(t));
            && Index(z) < |bs| && bs[Index(z)] == z.tree.cell.block && bs[Index(z)].size >= length
            && (Blocks(Cells(Taken(t, z, length, slot))) == AfterTaking(bs, Index(z), length)
                <==> !LosesBlock(t, z, length, slot))
  {
    RestTaking(t, z, length, slot);
    if LosesBlock(t, z, length, slot) {
      var a, b := TakenLoses(t, z, length, slot);
      assert |a + b| < |AfterTaking(Blocks(Cells(t)), Index(z), length)|;
    } else {
      TakenBlocks(t, z, length, slot);
    }
  }

  lemma TakenOrder(p: seq<Cell>, s: seq<Cell>, n: Cell, j: nat)
    requires j <= |p| && SplitsAt(p[..j], p[j..] + s, n.block.size)
    ensures Blocks(p[..j] + [n] + p[j..]) + Blocks(s) == InsertSorted(Blocks(p) + Blocks(s), n.block)
  {
    var a, b := Blocks(p[..j]), Blocks(p[j..] + s);
    forall x | x in a ensures x.size < n.block.size {
      var i :| 0 <= i < |a| && a[i] == x;
      assert p[..j][i] in p[..j];
    }
    if b != [] { assert (p[j..] + s)[0] in p[j..] + s; }
    LowerBoundAt(a, b, n.block.size);
    AroundNew(p, s, n, j);
  }

  lemma AroundNew(p: seq<Cell>, s: seq<Cell>, n: Cell, j: nat)
    requires j <= |p|
    ensures var (a, b) := (Blocks(p[..j]), Blocks(p[j..] + s));
            Blocks(p) + Blocks(s) == a + b && Blocks(p[..j] + [n] + p[j..]) + Blocks(s) == a + [n.block] + b
  {
    var x, y, z := Blocks(p[..j]), Blocks(p[j..]), Blocks(s);
    assert p == p[..j] + p[j..];
    BlocksConcat(p[..j], p[j..]);
    BlocksConcat(p[j..], s);
    BlocksConcat(p[..j] + [n], p[j..]);
    BlocksConcat(p[..j], [n]);
    assert x + y + z == x + (y + z) && x + [n.block] + y + z == x + [n.block] + (y + z);
  }
}
