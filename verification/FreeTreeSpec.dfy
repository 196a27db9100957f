/** What inserting and deleting a free block means for the tree, as functions on values.

    `Insert` and `Delete` follow `insert_node` and `delete_node` of `kernel/utils/rbtree.c`; the
    lemmas say which blocks the result holds and when it is a red-black tree again. */
module FreeTreeSpec {
  import opened RedBlackTree

  // ------------------------------------------------------------------------------------------
  // Insertion
  // ------------------------------------------------------------------------------------------

  /** The empty place a block of `size` bytes goes to: right of smaller blocks only. */
  function Descend(ctx: Ctx, t: Tree, size: nat): Ctx
    decreases t
  {
    match t
    case Nil => ctx
    case Bin(l, n, c, r) =>
      if size > n.block.size then Descend(InRight(l, n, c, ctx), r, size)
      else Descend(InLeft(ctx, n, c, r), l, size)
  }

  /** The nodes that the cells are stored in. */
  function SlotSet(cs: seq<Cell>): set<Ptr> {
    set n | n in cs :: n.slot
  }

  /** `insert_node`, or a first node: the root is painted black before the descent. */
  function Insert(t: Tree, n: Cell): Tree {
    if t == Nil then Bin(Nil, n, Black, Nil)
    else
      DescendBlack(Top, Paint(t, Black), n.block.size);
      InsertFix(Descend(Top, Paint(t, Black), n.block.size), Bin(Nil, n, Red, Nil))
  }

  lemma {:induction false} DescendBlack(ctx: Ctx, t: Tree, size: nat)
    requires RootBlack(ctx) && (ctx.Top? ==> t.Bin? && t.color == Black)
    ensures RootBlack(Descend(ctx, t, size))
    decreases t
  {
    if t.Bin? {
      if size > t.cell.block.size {
        DescendBlack(InRight(t.left, t.cell, t.color, ctx), t.right, size);
      } else {
        DescendBlack(InLeft(ctx, t.cell, t.color, t.right), t.left, size);
      }
    }
  }

  lemma {:induction false} DescendPlug(ctx: Ctx, t: Tree, size: nat)
    ensures Plug(Descend(ctx, t, size), Nil) == Plug(ctx, t)
    decreases t
  {
    match t
    case Nil =>
    case Bin(l, n, c, r) =>
      if size > n.block.size { DescendPlug(InRight(l, n, c, ctx), r, size); }
      else { DescendPlug(InLeft(ctx, n, c, r), l, size); }
  }

  /** The blocks are split around a size: smaller ones before, the others after. */
  predicate SplitsAt(before: seq<Cell>, after: seq<Cell>, size: nat) {
    && (forall n :: n in before ==> n.block.size < size)
    && (forall n :: n in after ==> n.block.size >= size)
  }

  lemma {:induction false} DescendSplits(ctx: Ctx, t: Tree, size: nat)
    requires Sorted(Before(ctx) + Cells(t) + After(ctx)) && SplitsAt(Before(ctx), After(ctx), size)
    ensures var d := Descend(ctx, t, size); SplitsAt(Before(d), After(d), size)
    decreases t
  {
    match t
    case Nil =>
    case Bin(l, n, c, r) =>
      StepDownCells(ctx, l, n, c, r);
      SortedAround(Before(ctx), Cells(l), n, Cells(r), After(ctx));
      if size > n.block.size {
        DescendSplits(InRight(l, n, c, ctx), r, size);
      } else {
        DescendSplits(InLeft(ctx, n, c, r), l, size);
      }
  }

  /** In a sorted sequence the elements around one element are ordered against it. */
  lemma SortedAround(b: seq<Cell>, l: seq<Cell>, n: Cell, r: seq<Cell>, a: seq<Cell>)
    requires Sorted(b + (l + [n] + r) + a)
    ensures forall m :: m in l ==> m.block.size <= n.block.size
    ensures forall m :: m in r ==> m.block.size >= n.block.size
  {
    var all := b + (l + [n] + r) + a;
    var k := |b| + |l|;
    assert all[k] == n;
    forall i | 0 <= i < |l| ensures l[i].block.size <= n.block.size { assert all[|b| + i] == l[i]; }
    forall i | 0 <= i < |r| ensures r[i].block.size >= n.block.size { assert all[k + 1 + i] == r[i]; }
  }

  lemma SortedSplit(before: seq<Cell>, n: Cell, after: seq<Cell>)
    requires Sorted(before + after) && SplitsAt(before, after, n.block.size)
    ensures Sorted(before + [n] + after)
  {
    var all, old' := before + [n] + after, before + after;
    forall i, j | 0 <= i < j < |all| ensures all[i].block.size <= all[j].block.size {
      if i < |before| && j > |before| { assert all[i] == old'[i] && all[j] == old'[j - 1]; }
      else if i > |before| { assert all[i] == old'[i - 1] && all[j] == old'[j - 1]; }
      else if j < |before| { assert all[i] == old'[i] && all[j] == old'[j]; }
    }
  }

  /** Where the new node goes: behind exactly the smaller blocks. */
  lemma PlaceCorrect(t: Tree, size: nat)
    requires Sorted(Cells(t))
    ensures var d := Descend(Top, t, size);
            && Plug(d, Nil) == t
            && Cells(t) == Before(d) + After(d)
            && SplitsAt(Before(d), After(d), size)
  {
    var d := Descend(Top, t, size);
    DescendPlug(Top, t, size);
    assert Before(Top) + Cells(t) + After(Top) == Cells(t);
    DescendSplits(Top, t, size);
    PlugCells(d, Nil);
    assert Before(d) + [] + After(d) == Before(d) + After(d);
  }

  /** Insertion into any tree, also one that a stalled deletion has left unbalanced, keeps the order. The sequence of
      blocks gains exactly the new one, in front of every block at least as large. */
  lemma InsertConserves(t: Tree, n: Cell)
    requires Sorted(Cells(t))
    ensures Sorted(Cells(Insert(t, n)))
    ensures var d := Descend(Top, t, n.block.size);
            && Cells(t) == Before(d) + After(d)
            && Cells(Insert(t, n)) == Before(d) + [n] + After(d)
            && SplitsAt(Before(d), After(d), n.block.size)
  {
    var d, leaf := Descend(Top, t, n.block.size), Bin(Nil, n, Red, Nil);
    PlaceCorrect(t, n.block.size);
    SortedSplit(Before(d), n, After(d));
    if t != Nil {
      var b := Paint(t, Black);
      var e := Descend(Top, b, n.block.size);
      DescendBlack(Top, b, n.block.size);
      DescendPainted(t, n.block.size);
      InsertFixCells(e, leaf);
      PlugCells(e, leaf);
      assert Cells(leaf) == [n];
    } else {
      assert Cells(Insert(t, n)) == [n];
    }
  }

  /** The root's colour does not matter to the descent. */
  lemma DescendPainted(t: Tree, size: nat)
    requires t.Bin?
    ensures var (d, e) := (Descend(Top, t, size), Descend(Top, Paint(t, Black), size));
            Before(e) == Before(d) && After(e) == After(d)
  {
    if size > t.cell.block.size {
      DescendSame(InRight(t.left, t.cell, t.color, Top), InRight(t.left, t.cell, Black, Top), t.right, size);
    } else {
      DescendSame(InLeft(Top, t.cell, t.color, t.right), InLeft(Top, t.cell, Black, t.right), t.left, size);
    }
  }

  lemma {:induction false} DescendSame(c: Ctx, d: Ctx, t: Tree, size: nat)
    requires Before(c) == Before(d) && After(c) == After(d)
    ensures Before(Descend(c, t, size)) == Before(Descend(d, t, size)) &&
            After(Descend(c, t, size)) == After(Descend(d, t, size))
    decreases t
  {
    if t.Bin? {
      if size > t.cell.block.size {
        DescendSame(InRight(t.left, t.cell, t.color, c), InRight(t.left, t.cell, t.color, d), t.right, size);
      } else {
        DescendSame(InLeft(c, t.cell, t.color, t.right), InLeft(d, t.cell, t.color, t.right), t.left, size);
      }
    }
  }

  /** Insertion keeps the red-black invariant as well. */
  lemma InsertCorrect(t: Tree, n: Cell)
    requires RedBlack(t) && Sorted(Cells(t))
    ensures RedBlack(Insert(t, n)) && Sorted(Cells(Insert(t, n)))
    ensures var d := Descend(Top, t, n.block.size);
            && Cells(t) == Before(d) + After(d)
            && Cells(Insert(t, n)) == Before(d) + [n] + After(d)
            && SplitsAt(Before(d), After(d), n.block.size)
  {
    var d, leaf := Descend(Top, t, n.block.size), Bin(Nil, n, Red, Nil);
    InsertConserves(t, n);
    if t != Nil {
      assert Paint(t, Black) == t;
      DescendPlug(Top, t, n.block.size);
      PlugRedBlack(d, Nil);
      InsertFixRedBlack(d, leaf);
    }
  }

  // ------------------------------------------------------------------------------------------
  // Deletion
  // ------------------------------------------------------------------------------------------

  /** `delete_violations`: a red node needs no repair. */
  function Fix(ctx: Ctx, c: Color): Fixed
    requires c == Red || (CtxFair(ctx, 1) && CtxDoubles(ctx) == 0)
  {
    if c == Red then Fixed(ctx, Red) else FixCtx(ctx, 1)
  }

  /** The in-order predecessor's position below `t`, the left subtree of the hole's parent. */
  function Rightmost(ctx: Ctx, t: Tree): Ctx
    requires t.Bin?
    decreases t
  {
    if t.right == Nil then ctx else Rightmost(InRight(t.left, t.cell, t.color, ctx), t.right)
  }

  function RightmostTree(t: Tree): (m: Tree)
    requires t.Bin?
    ensures m.Bin? && m.right == Nil
  {
    if t.right == Nil then t else RightmostTree(t.right)
  }

  /** Give the node just after the hole another block. */
  function RelabelNext(ctx: Ctx, b: Block): Ctx {
    match ctx
    case Top => Top
    case InLeft(up, n, c, r) => InLeft(up, n.(block := b), c, r)
    case InRight(l, n, c, up) => InRight(l, n, c, RelabelNext(up, b))
  }

  function PredecessorCtx(ctx: Ctx, t: Tree): Ctx
    requires t.Bin? && t.left.Bin?
  {
    Rightmost(InLeft(ctx, t.cell, t.color, t.right), t.left)
  }

  /** The side test of `delete_node` agrees with the side the leaf hangs on. */
  predicate SideTestAgrees(ctx: Ctx, t: Tree)
    requires t.Bin? && !ctx.Top?
  {
    ctx.InRight? <==> t.cell.block.size > ctx.cell.block.size
  }

  function BlackRoot(t: Tree, slot: Ptr): Tree {
    if t.Bin? && t.cell.slot == slot then Paint(t, Black) else t
  }

  predicate Deletable(ctx: Ctx, t: Tree) {
    && t.Bin? && RedBlack(Plug(ctx, t))
    && !(ctx.Top? && t.left == Nil && t.right == Nil)
  }

  /** What `delete_node` makes of a tree when it is called on the root of `t`. */
  function Delete(ctx: Ctx, t: Tree): Tree
    requires Deletable(ctx, t)
  {
    PlugRedBlack(ctx, t);
    if t.left == Nil && t.right == Nil then
      var f := Fix(ctx, t.color);
      FixSide(ctx, t.color);
      if SideTestAgrees(f.ctx, t) then Plug(f.ctx, Nil)
      else // the other child is cut off, and the freed node stays
        Plug(Frame(f.ctx, f.ctx.cell, f.ctx.color, Nil, f.ctx.up),
             Bin(Nil, t.cell.(block := t.cell.block.(base := 0)), f.color, Nil))
    else if t.left.Bin? && t.right.Bin? then
      var m := RightmostTree(t.left);
      PredecessorFixable(ctx, t);
      BlackRoot(Plug(RelabelNext(Fix(PredecessorCtx(ctx, t), m.color).ctx, m.cell.block), Nil), t.cell.slot)
    else
      var k := if t.left.Bin? then t.left else t.right;
      Plug(ctx, Bin(Nil, t.cell.(block := k.cell.block), if ctx.Top? then Black else Red, Nil))
  }

  lemma FixSide(ctx: Ctx, c: Color)
    requires c == Red || (CtxFair(ctx, 1) && CtxDoubles(ctx) == 0)
    ensures var f := Fix(ctx, c).ctx;
            f.Top? == ctx.Top? && f.InLeft? == ctx.InLeft? && (!ctx.Top? ==> f.cell == ctx.cell)
    ensures Before(Fix(ctx, c).ctx) == Before(ctx) && After(Fix(ctx, c).ctx) == After(ctx)
  {
    if c != Red {
      FixCtxFair(ctx, 1);
      FixCtxCells(ctx, 1);
    }
  }

  lemma {:induction false} RightmostPlug(ctx: Ctx, t: Tree)
    requires t.Bin?
    ensures Plug(Rightmost(ctx, t), RightmostTree(t)) == Plug(ctx, t)
    ensures After(Rightmost(ctx, t)) == After(ctx)
    ensures Before(Rightmost(ctx, t)) + Cells(RightmostTree(t)) == Before(ctx) + Cells(t)
    decreases t
  {
    if t.right != Nil { RightmostPlug(InRight(t.left, t.cell, t.color, ctx), t.right); }
  }

  /** The predecessor's only possible child is a red leaf on its left. */
  lemma PredecessorFixable(ctx: Ctx, t: Tree)
    requires t.Bin? && t.left.Bin? && RedBlack(Plug(ctx, t))
    ensures var p, m := PredecessorCtx(ctx, t), RightmostTree(t.left);
            && RedBlack(Plug(p, m)) && CtxDoubles(p) == 0 && Fair(m) && Doubles(m) == 0
            && CtxFair(p, Height(m)) && (m.color == Red ==> RedFits(p) && Height(m) == 0)
            && (m.color != Red ==> m.color == Black && Height(m) == 1)
            && !p.Top? && (m.left.Bin? ==> m.color == Black && m.left.left == Nil == m.left.right)
  {
    var p, m := PredecessorCtx(ctx, t), RightmostTree(t.left);
    RightmostPlug(InLeft(ctx, t.cell, t.color, t.right), t.left);
    PlugRedBlack(p, m);
    assert Height(m.right) == 0 && Height(m.left) == 0;
    if m.left.Bin? { FairZero(m.left); }
  }

  lemma FairZero(t: Tree)
    requires t.Bin? && Fair(t) && Height(t) == 0
    ensures t.color == Red && t.left == Nil && t.right == Nil
  {
    assert Height(t.left) == 0 == Height(t.right);
  }

  /** The deletion takes exactly this block out of the tree. It does unless the side test of a leaf
      misjudges its side, or the predecessor that is moved up has a child that gets lost. */
  predicate TakesOne(ctx: Ctx, t: Tree)
    requires Deletable(ctx, t)
  {
    if t.left == Nil && t.right == Nil then SideTestAgrees(ctx, t)
    else if t.left.Bin? && t.right.Bin? then RightmostTree(t.left).left == Nil
    else true
  }

  /** The deletion leaves a red-black tree. It does unless the fix-up stalls, the side test misjudges a black leaf, or
      a node with one child, which takes over that child's red colour, is not the root. */
  predicate StaysRedBlack(ctx: Ctx, t: Tree)
    requires Deletable(ctx, t)
  {
    if t.left == Nil && t.right == Nil then t.color == Red || (SideTestAgrees(ctx, t) && !Stalls(ctx))
    else if t.left.Bin? && t.right.Bin? then
      RightmostTree(t.left).color == Red || !Stalls(PredecessorCtx(ctx, t))
    else ctx.Top?
  }

  lemma {:induction false} RelabelCells(ctx: Ctx, b: Block)
    requires After(ctx) != []
    ensures Before(RelabelNext(ctx, b)) == Before(ctx)
    ensures After(RelabelNext(ctx, b)) == [After(ctx)[0].(block := b)] + After(ctx)[1..]
  {
    match ctx
    case InLeft(up, n, c, r) =>
      assert After(ctx) == [n] + (Cells(r) + After(up));
      assert After(RelabelNext(ctx, b)) == [n.(block := b)] + (Cells(r) + After(up));
    case InRight(l, n, c, up) => RelabelCells(up, b);
  }

  lemma {:induction false} RelabelFair(ctx: Ctx, b: Block, h: nat)
    ensures CtxFair(RelabelNext(ctx, b), h) == CtxFair(ctx, h)
    ensures CtxDoubles(RelabelNext(ctx, b)) == CtxDoubles(ctx)
    ensures RedFits(RelabelNext(ctx, b)) == RedFits(ctx)
  {
    if ctx.InRight? { RelabelFair(ctx.up, b, h + Weight(ctx.color)); }
  }

  /** Once the repaired node is unlinked, the tree is red-black exactly if the repair did not stall. */
  lemma UnlinkRedBlack(ctx: Ctx, c: Color)
    requires c == Red || (CtxFair(ctx, 1) && CtxDoubles(ctx) == 0)
    requires c == Red ==> CtxFair(ctx, 0) && CtxDoubles(ctx) == 0
    ensures RedBlack(Plug(Fix(ctx, c).ctx, Nil)) <==> c == Red || !Stalls(ctx)
  {
    var f := Fix(ctx, c);
    PlugRedBlack(f.ctx, Nil);
    if c != Red {
      FixCtxFair(ctx, 1);
    }
  }

  /** The colour of the root, when the hole holds a node of colour `c`. */
  function RootColor(ctx: Ctx, c: Color): Color {
    if ctx.Top? then c else RootColor(ctx.up, ctx.color)
  }

  lemma {:induction false} PlugRoot(ctx: Ctx, t: Tree, b: Block)
    requires !ctx.Top?
    ensures Plug(ctx, t).Bin? && Plug(ctx, t).color == RootColor(ctx, Black)
    ensures RootColor(RelabelNext(ctx, b), Black) == RootColor(ctx, Black)
    decreases ctx
  {
    var whole := if ctx.InLeft? then Bin(t, ctx.cell, ctx.color, ctx.right) else Bin(ctx.left, ctx.cell, ctx.color, t);
    if !ctx.up.Top? { PlugRoot(ctx.up, whole, b); }
  }

  /** The fix-up never unpaints a black root. */
  lemma {:induction false} FixRootBlack(ctx: Ctx, h: nat)
    requires h >= 1 && CtxFair(ctx, h) && CtxDoubles(ctx) == 0 && RootColor(ctx, Black) == Black
    ensures var f := FixCtx(ctx, h); RootColor(f.ctx, f.color) == Black
    decreases FixRank(ctx)
  {
    if !ctx.Top? {
      SiblingThere(ctx, h);
      if Sibling(ctx).color == Red {
        FixRootBlack(RaiseSibling(ctx), h);
      } else if !IsRed(Near(ctx)) && !IsRed(Far(ctx)) && ctx.color == Black {
        FixRootBlack(ctx.up, h + 1);
      }
    }
  }

  /** Deleting a node with two children never has to repaint the root. */
  lemma BlackRootIdle(ctx: Ctx, t: Tree)
    requires Deletable(ctx, t) && t.left.Bin? && t.right.Bin?
    ensures var p, m := PredecessorCtx(ctx, t), RightmostTree(t.left);
            (m.color == Red || (CtxFair(p, 1) && CtxDoubles(p) == 0))
            && Delete(ctx, t) == Plug(RelabelNext(Fix(p, m.color).ctx, m.cell.block), Nil)
  {
    var p, m := PredecessorCtx(ctx, t), RightmostTree(t.left);
    PredecessorFixable(ctx, t);
    var f := Fix(p, m.color);
    FixSide(p, m.color);
    PlugRedBlack(p, m);
    PlugRoot(p, m, m.cell.block);
    RootNotDouble(Plug(p, m));
    if m.color != Red { FixRootBlack(p, 1); }
    PlugRoot(f.ctx, Nil, m.cell.block);
    RelabelTop(f.ctx, m.cell.block);
    PlugRoot(RelabelNext(f.ctx, m.cell.block), Nil, m.cell.block);
  }

  lemma RootNotDouble(t: Tree)
    requires t.Bin? && RedBlack(t)
    ensures t.color == Black
  {
  }

  lemma RelabelTop(ctx: Ctx, b: Block)
    ensures RelabelNext(ctx, b).Top? == ctx.Top?
  {
  }

  /** If the other child is cut off, the sides are as high as each other only if both were red leaves or nothing. */
  lemma CutRedBlack(ctx: Ctx, t: Tree)
    requires Deletable(ctx, t) && t.left == Nil && t.right == Nil && !SideTestAgrees(ctx, t)
    ensures RedBlack(Delete(ctx, t)) <==> t.color == Red
  {
    PlugRedBlack(ctx, t);
    FixSide(ctx, t.color);
    var f := Fix(ctx, t.color);
    var cut := Frame(f.ctx, f.ctx.cell, f.ctx.color, Nil, f.ctx.up);
    var v := Bin(Nil, t.cell.(block := t.cell.block.(base := 0)), f.color, Nil);
    if t.color != Red { FixCtxFair(ctx, 1); }
    PlugRedBlack(cut, v);
  }

  /** When the deletion leaves a red-black tree: if and only if `StaysRedBlack`. */
  lemma DeleteStays(ctx: Ctx, t: Tree)
    requires Deletable(ctx, t)
    ensures RedBlack(Delete(ctx, t)) <==> StaysRedBlack(ctx, t)
  {
    PlugRedBlack(ctx, t);
    if t.left == Nil && t.right == Nil {
      FixSide(ctx, t.color);
      if SideTestAgrees(ctx, t) {
        UnlinkRedBlack(ctx, t.color);
      } else {
        CutRedBlack(ctx, t);
      }
    } else if t.left.Bin? && t.right.Bin? {
      var p, m := PredecessorCtx(ctx, t), RightmostTree(t.left);
      PredecessorFixable(ctx, t);
      BlackRootIdle(ctx, t);
      UnlinkRedBlack(p, m.color);
      var f := Fix(p, m.color);
      PlugRedBlack(f.ctx, Nil);
      PlugRedBlack(RelabelNext(f.ctx, m.cell.block), Nil);
      RelabelFair(f.ctx, m.cell.block, 0);
    } else {
      var k := if t.left.Bin? then t.left else t.right;
      assert Height(k) == 0;
      FairZero(k);
      PlugRedBlack(ctx, Delete(ctx, t));
      PlugRedBlack(ctx, Bin(Nil, t.cell.(block := k.cell.block), if ctx.Top? then Black else Red, Nil));
    }
  }

  /** The blocks around the one to delete. */
  function Rest(ctx: Ctx, t: Tree): seq<Block>
    requires t.Bin?
  {
    Blocks(Before(ctx)) + Blocks(Cells(t.left)) + Blocks(Cells(t.right)) + Blocks(After(ctx))
  }

  predicate DistinctSlots(cs: seq<Cell>) {
    forall i, j :: 0 <= i < j < |cs| ==> cs[i].slot != cs[j].slot
  }

  /** The node object that `delete_node` gives back to the store. */
  function Released(t: Tree): Ptr
    requires t.Bin?
  {
    if t.left == Nil && t.right == Nil then t.cell.slot
    else if t.left.Bin? && t.right.Bin? then RightmostTree(t.left).cell.slot
    else if t.left.Bin? then t.left.cell.slot
    else t.right.cell.slot
  }

  lemma BlocksConcat(a: seq<Cell>, b: seq<Cell>)
    ensures Blocks(a + b) == Blocks(a) + Blocks(b)
  {
  }

  lemma PlugNilCells(ctx: Ctx)
    ensures Cells(Plug(ctx, Nil)) == Before(ctx) + After(ctx)
  {
    PlugCells(ctx, Nil);
    assert Before(ctx) + [] == Before(ctx);
  }

  /** Where the predecessor stands among the cells. */
  lemma PredecessorPlace(ctx: Ctx, t: Tree)
    requires Deletable(ctx, t) && t.left.Bin? && t.right.Bin?
    ensures var p, m := PredecessorCtx(ctx, t), RightmostTree(t.left);
            && Before(p) + (Cells(m.left) + [m.cell]) == Before(ctx) + Cells(t.left)
            && After(p) == [t.cell] + (Cells(t.right) + After(ctx))
  {
    var p, m := PredecessorCtx(ctx, t), RightmostTree(t.left);
    RightmostPlug(InLeft(ctx, t.cell, t.color, t.right), t.left);
    assert Cells(m) == Cells(m.left) + [m.cell];
  }

  /** The cells after a deletion that moves the predecessor up. */
  lemma PredecessorCells(ctx: Ctx, t: Tree)
    requires Deletable(ctx, t) && t.left.Bin? && t.right.Bin?
    ensures var p, m := PredecessorCtx(ctx, t), RightmostTree(t.left);
            Cells(Delete(ctx, t)) == Before(p) + ([t.cell.(block := m.cell.block)] + (Cells(t.right) + After(ctx)))
  {
    var p, m := PredecessorCtx(ctx, t), RightmostTree(t.left);
    BlackRootIdle(ctx, t);
    FixSide(p, m.color);
    PredecessorPlace(ctx, t);
    var f := Fix(p, m.color).ctx;
    RelabelCells(f, m.cell.block);
    assert After(p)[1..] == Cells(t.right) + After(ctx);
    PlugNilCells(RelabelNext(f, m.cell.block));
  }

  /** A deletion that moves the predecessor up takes this block and those below the predecessor. */
  lemma PredecessorTakes(ctx: Ctx, t: Tree)
    requires Deletable(ctx, t) && t.left.Bin? && t.right.Bin?
    ensures RightmostTree(t.left).left == Nil ==> Blocks(Cells(Delete(ctx, t))) == Rest(ctx, t)
    ensures |Cells(Delete(ctx, t))| + |Cells(RightmostTree(t.left).left)| == |Rest(ctx, t)|
  {
    var p, m := PredecessorCtx(ctx, t), RightmostTree(t.left);
    PredecessorPlace(ctx, t);
    PredecessorCells(ctx, t);
    RestBlocks(ctx, t);
    var rest := Cells(t.right) + After(ctx);
    if m.left == Nil {
      assert Cells(m.left) + [m.cell] == [m.cell];
      MovedBlocks(Before(p), t.cell, m.cell, rest);
    }
  }

  /** The moved block is the same one. */
  lemma MovedBlocks(a: seq<Cell>, n: Cell, m: Cell, b: seq<Cell>)
    ensures Blocks(a + ([n.(block := m.block)] + b)) == Blocks(a + [m]) + Blocks(b)
  {
    var moved := n.(block := m.block);
    assert a + ([moved] + b) == a + [moved] + b;
    BlocksConcat(a + [moved], b);
    BlocksConcat(a, [moved]);
    BlocksConcat(a, [m]);
    assert Blocks([moved]) == Blocks([m]);
  }

  /** If the predecessor has a child, that child's block is the one that is lost. */
  lemma PredecessorLoses(ctx: Ctx, t: Tree) returns (a: seq<Block>, b: seq<Block>)
    requires Deletable(ctx, t) && t.left.Bin? && t.right.Bin? && RightmostTree(t.left).left.Bin?
    ensures Rest(ctx, t) == a + [RightmostTree(t.left).left.cell.block] + b && Blocks(Cells(Delete(ctx, t))) == a + b
  {
    var p, m := PredecessorCtx(ctx, t), RightmostTree(t.left);
    PredecessorFixable(ctx, t);
    PredecessorPlace(ctx, t);
    PredecessorCells(ctx, t);
    var rest := Cells(t.right) + After(ctx);
    var moved := t.cell.(block := m.cell.block);
    assert Cells(m.left) == [m.left.cell];
    RestBlocks(ctx, t);
    LostBetween(Before(p), m.left.cell, m.cell, moved, rest);
    a, b := Blocks(Before(p)), [m.cell.block] + Blocks(rest);
  }

  lemma LostBetween(a: seq<Cell>, lost: Cell, m: Cell, moved: Cell, rest: seq<Cell>)
    requires moved.block == m.block
    ensures Blocks(a + ([lost] + [m])) + Blocks(rest) == Blocks(a) + [lost.block] + ([m.block] + Blocks(rest))
    ensures Blocks(a + ([moved] + rest)) == Blocks(a) + ([m.block] + Blocks(rest))
  {
    BlocksConcat(a, [lost] + [m]);
    BlocksConcat([lost], [m]);
    BlocksConcat(a, [moved] + rest);
    BlocksConcat([moved], rest);
    assert Blocks([lost]) == [lost.block] && Blocks([m]) == [m.block] == Blocks([moved]);
  }

  lemma LeafCells(ctx: Ctx, t: Tree)
    requires Deletable(ctx, t) && t.left == Nil && t.right == Nil
    ensures TakesOne(ctx, t) ==> Cells(Delete(ctx, t)) == Before(ctx) + After(ctx)
    ensures !TakesOne(ctx, t) ==> exists n :: n in Cells(Delete(ctx, t)) && n.slot == t.cell.slot
  {
    PlugRedBlack(ctx, t);
    FixSide(ctx, t.color);
    var f := Fix(ctx, t.color);
    PlugNilCells(f.ctx);
    if !TakesOne(ctx, t) {
      var cut := Frame(f.ctx, f.ctx.cell, f.ctx.color, Nil, f.ctx.up);
      var v := Bin(Nil, t.cell.(block := t.cell.block.(base := 0)), f.color, Nil);
      PlugCells(cut, v);
      assert v.cell in Cells(v);
    }
  }

  lemma OnlyChildCells(ctx: Ctx, t: Tree)
    requires Deletable(ctx, t) && t.left.Bin? != t.right.Bin?
    ensures var k := if t.left.Bin? then t.left else t.right;
            && Cells(k) == [k.cell]
            && Cells(Delete(ctx, t)) == Before(ctx) + [t.cell.(block := k.cell.block)] + After(ctx)
  {
    PlugRedBlack(ctx, t);
    var k := if t.left.Bin? then t.left else t.right;
    assert Height(k) == 0;
    FairZero(k);
    PlugCells(ctx, Bin(Nil, t.cell.(block := k.cell.block), if ctx.Top? then Black else Red, Nil));
  }

  /** The cells around the predecessor before the deletion. */
  lemma InnerBefore(ctx: Ctx, t: Tree)
    requires Deletable(ctx, t) && t.left.Bin? && t.right.Bin?
    ensures var m := RightmostTree(t.left);
            Cells(Plug(ctx, t)) == (Before(PredecessorCtx(ctx, t)) + Cells(m.left)) + [m.cell]
            + ([t.cell] + (Cells(t.right) + After(ctx)))
  {
    var p, m := Before(PredecessorCtx(ctx, t)), RightmostTree(t.left);
    assert Before(ctx) + Cells(t.left) == p + Cells(m.left) + [m.cell] by {
      PredecessorPlace(ctx, t);
      assert p + (Cells(m.left) + [m.cell]) == p + Cells(m.left) + [m.cell];
    }
    assert Cells(Plug(ctx, t)) == Before(ctx) + (Cells(t.left) + [t.cell] + Cells(t.right)) + After(ctx) by {
      PlugCells(ctx, t);
    }
    Regroup(Before(ctx), Cells(t.left), [t.cell], Cells(t.right), After(ctx));
  }

  lemma PredecessorReleased(ctx: Ctx, t: Tree)
    requires Deletable(ctx, t) && DistinctSlots(Cells(Plug(ctx, t))) && t.left.Bin? && t.right.Bin?
    ensures forall n :: n in Cells(Delete(ctx, t)) ==> n.slot != Released(t)
  {
    var p, m, rest := Before(PredecessorCtx(ctx, t)), RightmostTree(t.left), Cells(t.right) + After(ctx);
    InnerBefore(ctx, t);
    OthersDiffer(p + Cells(m.left), m.cell, [t.cell] + rest);
    PredecessorCells(ctx, t);
    var n := t.cell.(block := m.cell.block);
    forall x | x in p + ([n] + rest) ensures x.slot != m.cell.slot {
      assert x in p + Cells(m.left) || x.slot == t.cell.slot || x in [t.cell] + rest;
      assert t.cell in [t.cell] + rest;
    }
  }

  lemma OnlyChildReleased(ctx: Ctx, t: Tree)
    requires Deletable(ctx, t) && DistinctSlots(Cells(Plug(ctx, t))) && t.left.Bin? != t.right.Bin?
    ensures forall n :: n in Cells(Delete(ctx, t)) ==> n.slot != Released(t)
  {
    OnlyChildCells(ctx, t);
    PlugCells(ctx, t);
    if t.left.Bin? {
      assert Cells(Plug(ctx, t)) == Before(ctx) + [t.left.cell] + ([t.cell] + After(ctx));
      OthersDiffer(Before(ctx), t.left.cell, [t.cell] + After(ctx));
      assert t.cell in [t.cell] + After(ctx);
    } else {
      assert Cells(Plug(ctx, t)) == (Before(ctx) + [t.cell]) + [t.right.cell] + After(ctx);
      OthersDiffer(Before(ctx) + [t.cell], t.right.cell, After(ctx));
      assert t.cell in Before(ctx) + [t.cell];
    }
  }

  lemma LeafReleased(ctx: Ctx, t: Tree)
    requires Deletable(ctx, t) && DistinctSlots(Cells(Plug(ctx, t))) && t.left == Nil == t.right && TakesOne(ctx, t)
    ensures forall n :: n in Cells(Delete(ctx, t)) ==> n.slot != Released(t)
  {
    LeafCells(ctx, t);
    PlugCells(ctx, t);
    assert Cells(t) == [t.cell];
    OthersDiffer(Before(ctx), t.cell, After(ctx));
  }

  /** The deletion takes exactly the chosen block, and the released node object leaves the tree, if
      and only if `TakesOne`. */
  lemma DeleteTakesOne(ctx: Ctx, t: Tree)
    requires Deletable(ctx, t) && DistinctSlots(Cells(Plug(ctx, t)))
    ensures && Blocks(Cells(Delete(ctx, t))) == Rest(ctx, t)
            && (forall n :: n in Cells(Delete(ctx, t)) ==> n.slot != Released(t))
       <==> TakesOne(ctx, t)
  {
    if t.left.Bin? && t.right.Bin? {
      PredecessorTakesOne(ctx, t);
    } else if t.left == Nil && t.right == Nil {
      LeafTakesOne(ctx, t);
    } else {
      OnlyChildCells(ctx, t);
      OnlyChildReleased(ctx, t);
    }
  }

  lemma LeafTakesOne(ctx: Ctx, t: Tree)
    requires Deletable(ctx, t) && DistinctSlots(Cells(Plug(ctx, t))) && t.left == Nil && t.right == Nil
    ensures Blocks(Cells(Delete(ctx, t))) == Rest(ctx, t) &&
            (forall n :: n in Cells(Delete(ctx, t)) ==> n.slot != Released(t))
       <==> SideTestAgrees(ctx, t)
  {
    LeafCells(ctx, t);
    BlocksConcat(Before(ctx), After(ctx));
    if TakesOne(ctx, t) { LeafReleased(ctx, t); }
  }

  lemma PredecessorTakesOne(ctx: Ctx, t: Tree)
    requires Deletable(ctx, t) && DistinctSlots(Cells(Plug(ctx, t))) && t.left.Bin? && t.right.Bin?
    ensures Blocks(Cells(Delete(ctx, t))) == Rest(ctx, t) <==> RightmostTree(t.left).left == Nil
    ensures forall n :: n in Cells(Delete(ctx, t)) ==> n.slot != Released(t)
  {
    PredecessorTakes(ctx, t);
    PredecessorReleased(ctx, t);
    assert RightmostTree(t.left).left.Bin? ==> |Cells(RightmostTree(t.left).left)| > 0;
  }

  /** A deletion brings in no block that was not there. */
  lemma DeleteAmong(ctx: Ctx, t: Tree)
    requires Deletable(ctx, t) && (t.left == Nil && t.right == Nil ==> SideTestAgrees(ctx, t))
    ensures forall n :: n in Cells(Delete(ctx, t)) ==> exists m :: m in Cells(Plug(ctx, t)) && m.block == n.block
  {
    var all := Cells(Plug(ctx, t));
    PlugCells(ctx, t);
    if t.left.Bin? && t.right.Bin? {
      var p, m, rest := Before(PredecessorCtx(ctx, t)), RightmostTree(t.left), Cells(t.right) + After(ctx);
      InnerBefore(ctx, t);
      PredecessorCells(ctx, t);
      AmongRelabelled(p, m.cell, t.cell.(block := m.cell.block), rest, all);
    } else if t.left == Nil && t.right == Nil {
      LeafCells(ctx, t);
    } else {
      OnlyChildCells(ctx, t);
      var k := if t.left.Bin? then t.left.cell else t.right.cell;
      assert k in all;
      AmongRelabelled(Before(ctx), k, t.cell.(block := k.block), After(ctx), all);
    }
  }

  lemma AmongRelabelled(a: seq<Cell>, m: Cell, n: Cell, b: seq<Cell>, all: seq<Cell>)
    requires m in all && n.block == m.block && (forall x :: x in a || x in b ==> x in all)
    ensures forall x :: x in a + [n] + b || x in a + ([n] + b) ==> exists y :: y in all && y.block == x.block
  {
    forall x | x in a + [n] + b || x in a + ([n] + b) ensures exists y :: y in all && y.block == x.block {
      var y := if x == n then m else x;
      assert y in all && y.block == x.block;
    }
  }

  lemma OthersDiffer(a: seq<Cell>, n: Cell, b: seq<Cell>)
    requires DistinctSlots(a + [n] + b)
    ensures forall m :: m in a || m in b ==> m.slot != n.slot
  {
    var all := a + [n] + b;
    assert all[|a|] == n;
    forall i | 0 <= i < |a| ensures a[i].slot != n.slot { assert all[i] == a[i]; }
    forall i | 0 <= i < |b| ensures b[i].slot != n.slot { assert all[|a| + 1 + i] == b[i]; }
  }

  /** The position of the node that follows the hole in order. */
  function NextCtx(ctx: Ctx): Ctx
    requires After(ctx) != []
  {
    if ctx.InLeft? then ctx.up else NextCtx(ctx.up)
  }

  function NextTree(ctx: Ctx, t: Tree): (next: Tree)
    requires After(ctx) != []
    ensures next.Bin?
    decreases ctx
  {
    if ctx.InLeft? then Whole(ctx, t) else NextTree(ctx.up, Whole(ctx, t))
  }

  lemma {:induction false} NextPlug(ctx: Ctx, t: Tree, b: Block)
    requires After(ctx) != []
    ensures Plug(NextCtx(ctx), NextTree(ctx, t)) == Plug(ctx, t)
    ensures NextTree(ctx, t).cell == After(ctx)[0]
    ensures var u := NextTree(ctx, t);
            Plug(NextCtx(ctx), u.(cell := u.cell.(block := b))) == Plug(RelabelNext(ctx, b), t)
    decreases ctx
  {
    if ctx.InRight? { NextPlug(ctx.up, Whole(ctx, t), b); }
  }

  lemma SortedDrop(a: seq<Cell>, n: Cell, b: seq<Cell>)
    requires Sorted(a + [n] + b)
    ensures Sorted(a + b)
  {
    var all, rest := a + [n] + b, a + b;
    forall i, j | 0 <= i < j < |rest| ensures rest[i].block.size <= rest[j].block.size {
      assert rest[i] == all[if i < |a| then i else i + 1] && rest[j] == all[if j < |a| then j else j + 1];
    }
  }

  lemma DistinctDrop(a: seq<Cell>, n: Cell, b: seq<Cell>)
    requires DistinctSlots(a + [n] + b)
    ensures DistinctSlots(a + b)
  {
    var all, rest := a + [n] + b, a + b;
    forall i, j | 0 <= i < j < |rest| ensures rest[i].slot != rest[j].slot {
      assert rest[i] == all[if i < |a| then i else i + 1] && rest[j] == all[if j < |a| then j else j + 1];
    }
  }

  lemma DistinctRelabel(a: seq<Cell>, n: Cell, m: Cell, b: seq<Cell>)
    requires DistinctSlots(a + [n] + b) && m.slot == n.slot
    ensures DistinctSlots(a + [m] + b)
  {
    var x, y := a + [n] + b, a + [m] + b;
    assert forall i :: 0 <= i < |y| ==> y[i].slot == x[i].slot;
  }

  lemma SameBlocksSorted(a: seq<Cell>, b: seq<Cell>)
    requires Blocks(a) == Blocks(b) && Sorted(a)
    ensures Sorted(b)
  {
    assert forall i :: 0 <= i < |b| ==> b[i].block == Blocks(b)[i] == a[i].block;
  }

  /** A deletion that takes exactly one block keeps the order and uses no slot twice. */
  lemma DeleteKeepsOrder(ctx: Ctx, t: Tree)
    requires Deletable(ctx, t) && TakesOne(ctx, t)
    requires Sorted(Cells(Plug(ctx, t))) && DistinctSlots(Cells(Plug(ctx, t)))
    ensures Sorted(Cells(Delete(ctx, t)))
  {
    var a, b := Before(ctx) + Cells(t.left), Cells(t.right) + After(ctx);
    assert Cells(Plug(ctx, t)) == a + [t.cell] + b by {
      PlugCells(ctx, t);
      Regroup(Before(ctx), Cells(t.left), [t.cell], Cells(t.right), After(ctx));
      assert a + ([t.cell] + b) == a + [t.cell] + b;
    }
    SortedDrop(a, t.cell, b);
    RestBlocks(ctx, t);
    DeleteTakesOne(ctx, t);
    SameBlocksSorted(a + b, Cells(Delete(ctx, t)));
  }

  lemma RestBlocks(ctx: Ctx, t: Tree)
    requires t.Bin?
    ensures Rest(ctx, t) == Blocks((Before(ctx) + Cells(t.left)) + (Cells(t.right) + After(ctx)))
    ensures Rest(ctx, t) == Blocks(Before(ctx) + Cells(t.left)) + Blocks(Cells(t.right) + After(ctx))
  {
    var w, x, y, z := Before(ctx), Cells(t.left), Cells(t.right), After(ctx);
    BlocksConcat(w, x);
    BlocksConcat(y, z);
    BlocksConcat(w + x, y + z);
    var p, q, r, s := Blocks(w), Blocks(x), Blocks(y), Blocks(z);
    assert p + q + r + s == (p + q) + (r + s);
  }

  predicate SlotsAmong(cs: seq<Cell>, ds: seq<Cell>) {
    forall n :: n in cs ==> exists m :: m in ds && m.slot == n.slot
  }

  /** A node that takes over its neighbour's block. */
  lemma TakeOverSlots(a: seq<Cell>, k: Cell, n: Cell, n': Cell, b: seq<Cell>, all: seq<Cell>)
    requires DistinctSlots(all) && n'.slot == n.slot
    requires all == a + [k] + ([n] + b) || all == (a + [n]) + [k] + b
    ensures DistinctSlots(a + [n'] + b) && SlotsAmong(a + [n'] + b, all)
  {
    if all == a + [k] + ([n] + b) {
      DistinctDrop(a, k, [n] + b);
      assert a + ([n] + b) == a + [n] + b;
    } else {
      DistinctDrop(a + [n], k, b);
    }
    DistinctRelabel(a, n, n', b);
    assert n in all;
    forall x | x in a + [n'] + b ensures exists y :: y in all && y.slot == x.slot {
      var y := if x == n' then n else x;
      assert y in all;
    }
  }

  lemma InnerSlots(ctx: Ctx, t: Tree)
    requires Deletable(ctx, t) && t.left.Bin? && t.right.Bin? && RightmostTree(t.left).left == Nil
    requires DistinctSlots(Cells(Plug(ctx, t)))
    ensures DistinctSlots(Cells(Delete(ctx, t))) && SlotsAmong(Cells(Delete(ctx, t)), Cells(Plug(ctx, t)))
  {
    var p, m, rest := Before(PredecessorCtx(ctx, t)), RightmostTree(t.left).cell, Cells(t.right) + After(ctx);
    var n := t.cell.(block := m.block);
    InnerBefore(ctx, t);
    assert p + Cells(RightmostTree(t.left).left) == p;
    TakeOverSlots(p, m, t.cell, n, rest, Cells(Plug(ctx, t)));
    PredecessorCells(ctx, t);
    assert p + ([n] + rest) == p + [n] + rest;
  }

  lemma OnlyChildSlots(ctx: Ctx, t: Tree)
    requires Deletable(ctx, t) && t.left.Bin? != t.right.Bin? && DistinctSlots(Cells(Plug(ctx, t)))
    ensures DistinctSlots(Cells(Delete(ctx, t))) && SlotsAmong(Cells(Delete(ctx, t)), Cells(Plug(ctx, t)))
  {
    PlugCells(ctx, t);
    OnlyChildCells(ctx, t);
    var all, k := Cells(Plug(ctx, t)), if t.left.Bin? then t.left else t.right;
    assert if t.left.Bin? then all == Before(ctx) + [k.cell] + ([t.cell] + After(ctx))
      else all == (Before(ctx) + [t.cell]) + [k.cell] + After(ctx);
    TakeOverSlots(Before(ctx), k.cell, t.cell, t.cell.(block := k.cell.block), After(ctx), all);
  }

  lemma DeleteKeepsSlots(ctx: Ctx, t: Tree)
    requires Deletable(ctx, t) && TakesOne(ctx, t) && DistinctSlots(Cells(Plug(ctx, t)))
    ensures DistinctSlots(Cells(Delete(ctx, t))) && SlotsAmong(Cells(Delete(ctx, t)), Cells(Plug(ctx, t)))
  {
    if t.left.Bin? && t.right.Bin? {
      InnerSlots(ctx, t);
    } else if t.left == Nil && t.right == Nil {
      LeafCells(ctx, t);
      PlugCells(ctx, t);
      assert Cells(t) == [t.cell];
      DistinctDrop(Before(ctx), t.cell, After(ctx));
    } else {
      OnlyChildSlots(ctx, t);
    }
  }
}
