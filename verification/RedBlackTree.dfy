/** Red-black trees of free address blocks, as values.

    The tree of `kernel/utils/rbtree.c` is described here by a datatype; a position inside a tree is
    a context with a hole. Module `FreeTree` shows that the pointer code computes these values. */
module RedBlackTree {

  /** A slot of the node store; NULL is the null pointer. */
  type Ptr = int
  const NULL: Ptr := -1

  datatype Color = Red | Black | DoubleBlack

  /** A range of `size` virtual addresses that starts at `base`. */
  datatype Block = Block(base: nat, size: nat)

  /** The part of a node that rotations never change: where it is stored and what it describes. */
  datatype Cell = Cell(slot: Ptr, block: Block)

  datatype Tree = Nil | Bin(left: Tree, cell: Cell, color: Color, right: Tree)

  /** A tree with one subtree missing, seen from the hole upwards. */
  datatype Ctx =
    | Top
    | InLeft(up: Ctx, cell: Cell, color: Color, right: Tree)
    | InRight(left: Tree, cell: Cell, color: Color, up: Ctx)

  // ------------------------------------------------------------------------------------------
  // Reading trees and contexts
  // ------------------------------------------------------------------------------------------

  function Plug(ctx: Ctx, t: Tree): Tree
    decreases ctx
  {
    match ctx
    case Top => t
    case InLeft(up, n, c, r) => Plug(up, Bin(t, n, c, r))
    case InRight(l, n, c, up) => Plug(up, Bin(l, n, c, t))
  }

  /** The cells of a tree, in order. */
  function Cells(t: Tree): seq<Cell> {
    match t
    case Nil => []
    case Bin(l, n, _, r) => Cells(l) + [n] + Cells(r)
  }

  /** The cells that come before the hole, in order. */
  function Before(ctx: Ctx): seq<Cell> {
    match ctx
    case Top => []
    case InLeft(up, _, _, _) => Before(up)
    case InRight(l, n, _, up) => Before(up) + Cells(l) + [n]
  }

  /** The cells that come after the hole, in order. */
  function After(ctx: Ctx): seq<Cell> {
    match ctx
    case Top => []
    case InLeft(up, n, _, r) => [n] + Cells(r) + After(up)
    case InRight(_, _, _, up) => After(up)
  }

  /** The subtree one level up. */
  function Whole(ctx: Ctx, t: Tree): Tree
    requires !ctx.Top?
  {
    if ctx.InLeft? then Bin(t, ctx.cell, ctx.color, ctx.right) else Bin(ctx.left, ctx.cell, ctx.color, t)
  }

  /** The subtree on the other side of the hole's parent. */
  function Sibling(ctx: Ctx): Tree
    requires !ctx.Top?
  {
    if ctx.InLeft? then ctx.right else ctx.left
  }

  /** The sibling's own position. */
  function SiblingCtx(ctx: Ctx, t: Tree): Ctx
    requires !ctx.Top?
  {
    if ctx.InLeft? then InRight(t, ctx.cell, ctx.color, ctx.up) else InLeft(ctx.up, ctx.cell, ctx.color, t)
  }

  function Blocks(cs: seq<Cell>): (bs: seq<Block>)
    ensures |bs| == |cs| && forall i :: 0 <= i < |cs| ==> bs[i] == cs[i].block
  {
    seq(|cs|, i requires 0 <= i < |cs| => cs[i].block)
  }

  lemma {:induction false} PlugCells(ctx: Ctx, t: Tree)
    ensures Cells(Plug(ctx, t)) == Before(ctx) + Cells(t) + After(ctx)
    decreases ctx
  {
    match ctx
    case Top =>
    case InLeft(up, n, c, r) => PlugCells(up, Bin(t, n, c, r));
    case InRight(l, n, c, up) => PlugCells(up, Bin(l, n, c, t));
  }

  /** Concatenation is associative: three spellings of the same sequence. */
  lemma Regroup<T>(b: seq<T>, x: seq<T>, m: seq<T>, y: seq<T>, a: seq<T>)
    ensures b + x + (m + y + a) == b + (x + m + y) + a
    ensures b + x + m + y + a == b + (x + m + y) + a
    ensures (b + x) + (m + (y + a)) == b + (x + m + y) + a
  {
  }

  /** One step down changes nothing about the cells around the hole. */
  lemma StepDownCells(ctx: Ctx, l: Tree, n: Cell, c: Color, r: Tree)
    ensures var all := Before(ctx) + (Cells(l) + [n] + Cells(r)) + After(ctx);
            && Before(InLeft(ctx, n, c, r)) + Cells(l) + After(InLeft(ctx, n, c, r)) == all
            && Before(InRight(l, n, c, ctx)) + Cells(r) + After(InRight(l, n, c, ctx)) == all
  {
    Regroup(Before(ctx), Cells(l), [n], Cells(r), After(ctx));
  }

  /** Sizes never decrease from left to right; equal sizes may repeat. */
  predicate Sorted(cs: seq<Cell>) {
    forall i, j :: 0 <= i < j < |cs| ==> cs[i].block.size <= cs[j].block.size
  }

  // ------------------------------------------------------------------------------------------
  // The red-black invariant
  // ------------------------------------------------------------------------------------------

  function Weight(c: Color): nat {
    match c case Red => 0 case Black => 1 case DoubleBlack => 2
  }

  predicate IsRed(t: Tree) { t.Bin? && t.color == Red }

  /** The colour weight of every path to a nil leaf, when `Fair` makes them all equal. */
  function Height(t: Tree): nat {
    match t
    case Nil => 0
    case Bin(l, _, c, _) => Weight(c) + Height(l)
  }

  /** All path weights agree and no red node has a red child. */
  predicate Fair(t: Tree) {
    match t
    case Nil => true
    case Bin(l, _, c, r) =>
      && Fair(l) && Fair(r) && Height(l) == Height(r)
      && (c == Red ==> !IsRed(l) && !IsRed(r))
  }

  function IfDouble(c: Color): nat { if c == DoubleBlack then 1 else 0 }

  /** How many nodes are painted double black. */
  function Doubles(t: Tree): nat {
    match t
    case Nil => 0
    case Bin(l, _, c, r) => Doubles(l) + IfDouble(c) + Doubles(r)
  }

  predicate RedBlack(t: Tree) {
    Fair(t) && Doubles(t) == 0 && !IsRed(t)
  }

  /** The context is fair around a subtree of weight `h`. */
  predicate CtxFair(ctx: Ctx, h: nat)
    decreases ctx
  {
    match ctx
    case Top => true
    case InLeft(up, _, c, s) =>
      && Fair(s) && Height(s) == h
      && (c == Red ==> !IsRed(s) && RedFits(up))
      && CtxFair(up, h + Weight(c))
    case InRight(s, _, c, up) =>
      && Fair(s) && Height(s) == h
      && (c == Red ==> !IsRed(s) && RedFits(up))
      && CtxFair(up, h + Weight(c))
  }

  /** A red subtree may stand in the hole. */
  predicate RedFits(ctx: Ctx) { !ctx.Top? && ctx.color != Red }

  function CtxDoubles(ctx: Ctx): nat {
    match ctx
    case Top => 0
    case InLeft(up, _, c, s) => IfDouble(c) + Doubles(s) + CtxDoubles(up)
    case InRight(s, _, c, up) => IfDouble(c) + Doubles(s) + CtxDoubles(up)
  }

  lemma {:induction false} PlugFair(ctx: Ctx, t: Tree)
    ensures Fair(Plug(ctx, t)) && !IsRed(Plug(ctx, t))
       <==> Fair(t) && CtxFair(ctx, Height(t)) && (IsRed(t) ==> RedFits(ctx))
    decreases ctx
  {
    match ctx
    case Top =>
    case InLeft(up, n, c, r) => PlugFair(up, Bin(t, n, c, r));
    case InRight(l, n, c, up) => PlugFair(up, Bin(l, n, c, t));
  }

  lemma {:induction false} PlugDoubles(ctx: Ctx, t: Tree)
    ensures Doubles(Plug(ctx, t)) == CtxDoubles(ctx) + Doubles(t)
    decreases ctx
  {
    match ctx
    case Top =>
    case InLeft(up, n, c, r) => PlugDoubles(up, Bin(t, n, c, r));
    case InRight(l, n, c, up) => PlugDoubles(up, Bin(l, n, c, t));
  }

  /** A position in a red-black tree, in terms of its two halves. */
  lemma PlugRedBlack(ctx: Ctx, t: Tree)
    ensures RedBlack(Plug(ctx, t)) <==>
            && Fair(t) && CtxFair(ctx, Height(t)) && (IsRed(t) ==> RedFits(ctx))
            && Doubles(t) == 0 && CtxDoubles(ctx) == 0
  {
    PlugFair(ctx, t);
    PlugDoubles(ctx, t);
  }

  lemma SingleNode(n: Cell)
    ensures var t := Bin(Nil, n, Black, Nil); RedBlack(t) && Cells(t) == [n]
  {
    assert Cells(Nil) == [] && Fair(Nil) && Doubles(Nil) == 0;
  }

  // ------------------------------------------------------------------------------------------
  // Insertion
  // ------------------------------------------------------------------------------------------

  function Paint(t: Tree, c: Color): Tree
    requires t.Bin?
  {
    t.(color := c)
  }

  /** A red parent has a black parent, whose other subtree is as high as the hole. */
  lemma RedParent(ctx: Ctx, h: nat)
    requires CtxFair(ctx, h) && CtxDoubles(ctx) == 0 && !ctx.Top? && ctx.color == Red
    ensures !ctx.up.Top? && ctx.up.color == Black
    ensures Fair(Sibling(ctx)) && Height(Sibling(ctx)) == h && !IsRed(Sibling(ctx)) && Doubles(Sibling(ctx)) == 0
    ensures var u := Sibling(ctx.up);
            Fair(u) && Height(u) == h && Doubles(u) == 0 && (u.Bin? ==> u.color != DoubleBlack)
    ensures CtxFair(ctx.up.up, h + 1) && CtxDoubles(ctx.up.up) == 0
  {
    assert CtxFair(ctx.up, h) && CtxDoubles(ctx.up) == 0;
  }

  /** The root above the hole is black. */
  predicate RootBlack(ctx: Ctx) {
    ctx.Top? || if ctx.up.Top? then ctx.color == Black else RootBlack(ctx.up)
  }

  lemma {:induction false} FairRootBlack(ctx: Ctx, h: nat)
    requires CtxFair(ctx, h) && CtxDoubles(ctx) == 0
    ensures RootBlack(ctx)
    decreases ctx
  {
    if !ctx.Top? {
      if ctx.color == Red { RedParent(ctx, h); }
      if !ctx.up.Top? { FairRootBlack(ctx.up, h + Weight(ctx.color)); }
    }
  }

  /** What `insert_violations` makes of a tree whose subtree `t` was just painted red, whatever its colours are. */
  function InsertFix(ctx: Ctx, t: Tree): Tree
    requires t.Bin? && RootBlack(ctx)
    decreases ctx
  {
    if ctx.Top? then Paint(t, Black)
    else if ctx.color == Black then Plug(ctx, t)
    else
      assert RootBlack(ctx.up);
      var u, up := Sibling(ctx.up), ctx.up.up;
      if IsRed(u) then
        InsertFix(up, Recolored(ctx, t))
      else
        Plug(up, Rotated(ctx, t))
  }

  /** Red uncle: the grandparent's subtree after recolouring. */
  function Recolored(ctx: Ctx, t: Tree): (r: Tree)
    requires t.Bin? && !ctx.Top? && !ctx.up.Top? && Sibling(ctx.up).Bin?
    ensures r.Bin?
  {
    var u := Paint(Sibling(ctx.up), Black);
    var p := if ctx.InLeft? then Bin(t, ctx.cell, Black, ctx.right) else Bin(ctx.left, ctx.cell, Black, t);
    if ctx.up.InLeft? then Bin(p, ctx.up.cell, Red, u) else Bin(u, ctx.up.cell, Red, p)
  }

  /** Black uncle: the grandparent's subtree after one or two rotations. */
  function Rotated(ctx: Ctx, t: Tree): (r: Tree)
    requires t.Bin? && !ctx.Top? && !ctx.up.Top?
    ensures r.Bin?
  {
    var u, s, p, g := Sibling(ctx.up), Sibling(ctx), ctx.cell, ctx.up.cell;
    match (ctx.up.InLeft?, ctx.InLeft?)
    case (true, true) => Bin(t, p, Black, Bin(s, g, Red, u))
    case (true, false) => Bin(Bin(s, p, ctx.color, t.left), t.cell, Black, Bin(t.right, g, Red, u))
    case (false, false) => Bin(Bin(u, g, Red, s), p, Black, t)
    case (false, true) => Bin(Bin(u, g, Red, t.left), t.cell, Black, Bin(t.right, p, ctx.color, s))
  }

  lemma RecoloredFair(ctx: Ctx, t: Tree)
    requires IsRed(t) && Fair(t) && Doubles(t) == 0
    requires CtxFair(ctx, Height(t)) && CtxDoubles(ctx) == 0 && !ctx.Top? && ctx.color == Red && !ctx.up.Top?
    requires IsRed(Sibling(ctx.up))
    ensures var r := Recolored(ctx, t);
            Fair(r) && Doubles(r) == 0 && Height(r) == Height(t) + 1 && IsRed(r)
  {
    RedParent(ctx, Height(t));
    var u := Paint(Sibling(ctx.up), Black);
    assert Fair(u) && Doubles(u) == 0 && Height(u) == Height(t) + 1;
  }

  lemma RotatedFair(ctx: Ctx, t: Tree)
    requires IsRed(t) && Fair(t) && Doubles(t) == 0
    requires CtxFair(ctx, Height(t)) && CtxDoubles(ctx) == 0 && !ctx.Top? && ctx.color == Red && !ctx.up.Top?
    requires !IsRed(Sibling(ctx.up))
    ensures var r := Rotated(ctx, t);
            Fair(r) && Doubles(r) == 0 && Height(r) == Height(t) + 1 && !IsRed(r)
  {
    RedParent(ctx, Height(t));
    assert Fair(t.left) && Fair(t.right) && !IsRed(t.left) && !IsRed(t.right);
  }

  /** A rotation, with any repainting, keeps the order. */
  lemma RotateCells(a: Tree, x: Cell, b: Tree, y: Cell, d: Tree, c: Color, c': Color, e: Color, e': Color)
    ensures Cells(Bin(Bin(a, x, c, b), y, c', d)) == Cells(Bin(a, x, e, Bin(b, y, e', d)))
  {
    assert Cells(a) + [x] + (Cells(b) + [y] + Cells(d)) == Cells(a) + [x] + Cells(b) + [y] + Cells(d);
  }

  lemma RewriteCells(ctx: Ctx, t: Tree)
    requires t.Bin? && !ctx.Top? && !ctx.up.Top?
    ensures Plug(ctx, t) == Plug(ctx.up.up, Whole(ctx.up, Whole(ctx, t)))
    ensures Cells(Rotated(ctx, t)) == Cells(Whole(ctx.up, Whole(ctx, t)))
    ensures Sibling(ctx.up).Bin? ==> Cells(Recolored(ctx, t)) == Cells(Whole(ctx.up, Whole(ctx, t)))
  {
    var s, u, p, g, c := Sibling(ctx), Sibling(ctx.up), ctx.cell, ctx.up.cell, ctx.color;
    match (ctx.up.InLeft?, ctx.InLeft?)
    case (true, true) => RotateCells(t, p, s, g, u, c, ctx.up.color, Black, Red);
    case (true, false) =>
      RotateCells(s, p, t.left, t.cell, t.right, c, t.color, c, t.color);
      RotateCells(Bin(s, p, c, t.left), t.cell, t.right, g, u, t.color, ctx.up.color, Black, Red);
    case (false, false) => RotateCells(u, g, s, p, t, Red, Black, ctx.up.color, c);
    case (false, true) =>
      RotateCells(t.left, t.cell, t.right, p, s, t.color, c, t.color, c);
      RotateCells(u, g, t.left, t.cell, Bin(t.right, p, c, s), Red, Black, ctx.up.color, t.color);
  }

  lemma PlugSameCells(ctx: Ctx, t: Tree, u: Tree)
    requires Cells(t) == Cells(u)
    ensures Cells(Plug(ctx, t)) == Cells(Plug(ctx, u))
  {
    PlugCells(ctx, t);
    PlugCells(ctx, u);
  }

  lemma {:induction false} InsertFixCells(ctx: Ctx, t: Tree)
    requires t.Bin? && RootBlack(ctx)
    ensures Cells(InsertFix(ctx, t)) == Cells(Plug(ctx, t))
    decreases ctx
  {
    if !ctx.Top? && ctx.color != Black {
      assert RootBlack(ctx.up);
      RewriteCells(ctx, t);
      if IsRed(Sibling(ctx.up)) {
        InsertFixCells(ctx.up.up, Recolored(ctx, t));
        PlugSameCells(ctx.up.up, Recolored(ctx, t), Whole(ctx.up, Whole(ctx, t)));
      } else {
        PlugSameCells(ctx.up.up, Rotated(ctx, t), Whole(ctx.up, Whole(ctx, t)));
      }
    }
  }

  lemma InsertFixSome(ctx: Ctx, t: Tree)
    requires t.Bin? && RootBlack(ctx)
    ensures InsertFix(ctx, t).Bin?
  {
    InsertFixCells(ctx, t);
    PlugCells(ctx, t);
    assert |Cells(t)| > 0;
  }

  /** Painting the new node red and repairing upwards restores the whole invariant. */
  lemma {:induction false} InsertFixRedBlack(ctx: Ctx, t: Tree)
    requires IsRed(t) && Fair(t) && Doubles(t) == 0
    requires CtxFair(ctx, Height(t)) && CtxDoubles(ctx) == 0
    ensures RootBlack(ctx) && RedBlack(InsertFix(ctx, t))
    decreases ctx
  {
    FairRootBlack(ctx, Height(t));
    if ctx.Top? || ctx.color == Black {
      PlugRedBlack(ctx, t);
    } else {
      RedParent(ctx, Height(t));
      if IsRed(Sibling(ctx.up)) {
        RecoloredFair(ctx, t);
        InsertFixRedBlack(ctx.up.up, Recolored(ctx, t));
      } else {
        RotatedFair(ctx, t);
        PlugRedBlack(ctx.up.up, Rotated(ctx, t));
      }
    }
  }

  // ------------------------------------------------------------------------------------------
  // Deletion fix-up
  // ------------------------------------------------------------------------------------------

  /** What the fix-up leaves: the context of the node it was called on, and that node's colour. */
  datatype Fixed = Fixed(ctx: Ctx, color: Color)

  /** The sibling's child on the hole's side. */
  function Near(ctx: Ctx): Tree
    requires !ctx.Top? && Sibling(ctx).Bin?
  {
    if ctx.InLeft? then ctx.right.left else ctx.left.right
  }

  /** The sibling's other child. */
  function Far(ctx: Ctx): Tree
    requires !ctx.Top? && Sibling(ctx).Bin?
  {
    if ctx.InLeft? then ctx.right.right else ctx.left.left
  }

  /** The hole's parent, on the same side of it, repainted and with another sibling and parent. */
  function Frame(ctx: Ctx, n: Cell, c: Color, sibling: Tree, up: Ctx): Ctx
    requires !ctx.Top?
  {
    if ctx.InLeft? then InLeft(up, n, c, sibling) else InRight(sibling, n, c, up)
  }

  /** A subtree of the sibling's kind: `near` lies on the hole's side. */
  function SideBin(ctx: Ctx, near: Tree, n: Cell, c: Color, far: Tree): Tree {
    if ctx.InLeft? then Bin(near, n, c, far) else Bin(far, n, c, near)
  }

  /** Red sibling: it is rotated above the parent and takes its colour. */
  function RaiseSibling(ctx: Ctx): Ctx
    requires !ctx.Top? && Sibling(ctx).Bin?
  {
    var s := Sibling(ctx);
    Frame(ctx, ctx.cell, Red, Near(ctx), Frame(ctx, s.cell, ctx.color, Far(ctx), ctx.up))
  }

  /** Both nephews red: the sibling is rotated above the parent, the far nephew becomes black. */
  function RaiseFar(ctx: Ctx): Ctx
    requires !ctx.Top? && Sibling(ctx).Bin? && Far(ctx).Bin?
  {
    var s := Sibling(ctx);
    Frame(ctx, ctx.cell, Black, Near(ctx), Frame(ctx, s.cell, ctx.color, Paint(Far(ctx), Black), ctx.up))
  }

  /** Only the near nephew red: it is rotated above the sibling and then above the parent. */
  function RaiseNear(ctx: Ctx): Ctx
    requires !ctx.Top? && Sibling(ctx).Bin? && Near(ctx).Bin?
  {
    var s, m := Sibling(ctx), Near(ctx);
    var inner := if ctx.InLeft? then m.left else m.right;
    var outer := if ctx.InLeft? then m.right else m.left;
    Frame(ctx, ctx.cell, Black, inner,
          Frame(ctx, m.cell, ctx.color, SideBin(ctx, outer, s.cell, Black, Far(ctx)), ctx.up))
  }

  /** The sibling is black, its near child is not red and its far child is. */
  predicate FarOnly(ctx: Ctx) {
    && !ctx.Top? && Sibling(ctx).Bin? && Sibling(ctx).color == Black
    && !IsRed(Near(ctx)) && IsRed(Far(ctx))
  }

  /** A hole whose missing weight the fix-up can look for: its sibling is there. */
  lemma SiblingThere(ctx: Ctx, h: nat)
    requires h >= 1 && CtxFair(ctx, h) && CtxDoubles(ctx) == 0 && !ctx.Top?
    ensures var s := Sibling(ctx);
            && s.Bin? && Fair(s) && Height(s) == h && Doubles(s) == 0 && s.color != DoubleBlack &&
               ctx.color != DoubleBlack
            && CtxDoubles(ctx.up) == 0 && CtxFair(ctx.up, h + Weight(ctx.color))
            && (s.color == Red ==> ctx.color == Black && Near(ctx).Bin? && Near(ctx).color == Black)
            && (s.color == Red ==> CtxFair(RaiseSibling(ctx), h) && CtxDoubles(RaiseSibling(ctx)) == 0)
  {
    var s := Sibling(ctx);
    assert s.color == Red ==> Height(s) == Height(Near(ctx)) && Fair(Near(ctx)) && Doubles(Near(ctx)) == 0;
  }

  function Depth(ctx: Ctx): nat { if ctx.Top? then 0 else 1 + Depth(ctx.up) }

  /** The red-sibling case deepens the hole, but leaves a red parent that stops the climb. */
  function FixRank(ctx: Ctx): nat {
    if ctx.Top? || ctx.color == Red then 0 else 1 + Depth(ctx)
  }

  /** What `delete_violations` makes of the surroundings of a black or double-black node. */
  function FixCtx(ctx: Ctx, ghost h: nat): Fixed
    requires h >= 1 && CtxFair(ctx, h) && CtxDoubles(ctx) == 0
    decreases FixRank(ctx)
  {
    if ctx.Top? then Fixed(ctx, Black)
    else
      SiblingThere(ctx, h);
      var s := Sibling(ctx);
      if s.color == Red then
        FixCtx(RaiseSibling(ctx), h)
      else if !IsRed(Near(ctx)) && !IsRed(Far(ctx)) then
        if ctx.color == Black then
          var f := FixCtx(ctx.up, h + 1);
          Fixed(Frame(ctx, ctx.cell, f.color, Paint(s, Red), f.ctx), Black)
        else
          Fixed(Frame(ctx, ctx.cell, Black, Paint(s, Red), ctx.up), Black)
      else if FarOnly(ctx) then
        Fixed(ctx, DoubleBlack)
      else if IsRed(Far(ctx)) then
        Fixed(RaiseFar(ctx), Black)
      else
        Fixed(RaiseNear(ctx), Black)
  }

  /** Read off the tree before the call: the climb meets a black sibling with only its far child red. */
  predicate Stalls(ctx: Ctx) {
    && !ctx.Top? && Sibling(ctx).Bin?
    && if Sibling(ctx).color == Red then FarOnly(RaiseSibling(ctx))
       else if !IsRed(Near(ctx)) && !IsRed(Far(ctx)) then ctx.color == Black && Stalls(ctx.up)
       else FarOnly(ctx)
  }

  /** A double-black node remains, and its sibling is black with only its far child red. */
  predicate Stuck(ctx: Ctx, c: Color) {
    (c == DoubleBlack && FarOnly(ctx)) || (!ctx.Top? && Stuck(ctx.up, ctx.color))
  }

  lemma {:induction false} StuckIsDouble(ctx: Ctx, c: Color)
    requires CtxDoubles(ctx) + IfDouble(c) == 0
    ensures !Stuck(ctx, c)
  {
    if !ctx.Top? { StuckIsDouble(ctx.up, ctx.color); }
  }

  /** The two terminal rotations leave a fair context that is content with one unit less. */
  lemma RaiseFair(ctx: Ctx, h: nat)
    requires h >= 1 && CtxFair(ctx, h) && CtxDoubles(ctx) == 0
    requires !ctx.Top? && Sibling(ctx).Bin? && Sibling(ctx).color == Black
    ensures IsRed(Far(ctx)) ==> CtxFair(RaiseFar(ctx), h - 1) && CtxDoubles(RaiseFar(ctx)) == 0
    ensures IsRed(Near(ctx)) && !IsRed(Far(ctx)) ==>
              CtxFair(RaiseNear(ctx), h - 1) && CtxDoubles(RaiseNear(ctx)) == 0
  {
    SiblingThere(ctx, h);
    var s, near, far := Sibling(ctx), Near(ctx), Far(ctx);
    assert Fair(near) && Fair(far) && Height(near) == h - 1 == Height(far) && Doubles(near) == 0 == Doubles(far);
    if IsRed(far) {
      assert Height(Paint(far, Black)) == h && Fair(Paint(far, Black)) && Doubles(Paint(far, Black)) == 0;
    } else if IsRed(near) {
      assert Fair(near.left) && Fair(near.right) && Height(near.left) == h - 1 == Height(near.right);
      var outer := if ctx.InLeft? then near.right else near.left;
      var side := SideBin(ctx, outer, s.cell, Black, far);
      assert Fair(side) && Height(side) == h && Doubles(side) == 0;
    }
  }

  lemma {:induction false} FixCtxSide(ctx: Ctx, h: nat)
    requires h >= 1 && CtxFair(ctx, h) && CtxDoubles(ctx) == 0
    ensures var f := FixCtx(ctx, h);
            && f.color != Red && f.ctx.InLeft? == ctx.InLeft? && f.ctx.Top? == ctx.Top?
            && (!ctx.Top? ==> f.ctx.cell == ctx.cell)
    decreases FixRank(ctx)
  {
    if !ctx.Top? {
      SiblingThere(ctx, h);
      if Sibling(ctx).color == Red { FixCtxSide(RaiseSibling(ctx), h); }
    }
  }

  lemma {:induction false} FixCtxWeights(ctx: Ctx, h: nat)
    requires h >= 1 && CtxFair(ctx, h) && CtxDoubles(ctx) == 0
    ensures var f := FixCtx(ctx, h);
            f.color != Red && CtxFair(f.ctx, if f.color == Black then h - 1 else h)
    decreases FixRank(ctx)
  {
    if !ctx.Top? {
      SiblingThere(ctx, h);
      var s := Sibling(ctx);
      if s.color == Red {
        FixCtxWeights(RaiseSibling(ctx), h);
      } else if !IsRed(Near(ctx)) && !IsRed(Far(ctx)) {
        assert Fair(Paint(s, Red)) && Height(Paint(s, Red)) == h - 1;
        if ctx.color == Black { FixCtxWeights(ctx.up, h + 1); }
      } else if !FarOnly(ctx) {
        RaiseFair(ctx, h);
      }
    }
  }

  lemma {:induction false} FixCtxStuck(ctx: Ctx, h: nat)
    requires h >= 1 && CtxFair(ctx, h) && CtxDoubles(ctx) == 0
    ensures var f := FixCtx(ctx, h);
            && CtxDoubles(f.ctx) + IfDouble(f.color) == (if Stalls(ctx) then 1 else 0)
            && (Stuck(f.ctx, f.color) <==> Stalls(ctx))
    decreases FixRank(ctx)
  {
    var f := FixCtx(ctx, h);
    if !ctx.Top? {
      SiblingThere(ctx, h);
      if Sibling(ctx).color == Red {
        RaisedStalls(ctx, h);
        FixCtxStuck(RaiseSibling(ctx), h);
      } else if Climbs(ctx) {
        FixCtxStuck(ctx.up, h + 1);
      } else {
        EndStuck(ctx, h);
      }
    }
  }

  /** The sibling has no red child, and the parent takes the blackness over. */
  predicate Climbs(ctx: Ctx)
    requires !ctx.Top? && Sibling(ctx).Bin?
  {
    !IsRed(Near(ctx)) && !IsRed(Far(ctx)) && ctx.color == Black
  }

  /** Without a climb the fix-up ends at once. */
  lemma EndStuck(ctx: Ctx, h: nat)
    requires h >= 1 && CtxFair(ctx, h) && CtxDoubles(ctx) == 0 && !ctx.Top?
    requires Sibling(ctx).Bin? && Sibling(ctx).color != Red && !Climbs(ctx)
    ensures var f := FixCtx(ctx, h);
            && CtxDoubles(f.ctx) + IfDouble(f.color) == (if Stalls(ctx) then 1 else 0)
            && (Stuck(f.ctx, f.color) <==> Stalls(ctx))
  {
    var f := FixCtx(ctx, h);
    SiblingThere(ctx, h);
    if !FarOnly(ctx) {
      if IsRed(Near(ctx)) || IsRed(Far(ctx)) { RaiseFair(ctx, h); }
      StuckIsDouble(f.ctx, f.color);
    }
  }

  /** Below a raised red sibling the climb ends at once. */
  lemma RaisedStalls(ctx: Ctx, h: nat)
    requires h >= 1 && CtxFair(ctx, h) && CtxDoubles(ctx) == 0 && !ctx.Top? && IsRed(Sibling(ctx))
    ensures Stalls(RaiseSibling(ctx)) == FarOnly(RaiseSibling(ctx)) == Stalls(ctx)
  {
    SiblingThere(ctx, h);
  }

  /** Every case of the fix-up keeps all path weights equal and makes no red-red edge: the hole is
      content with one unit less unless its node stays double black. At most one double-black node
      remains, exactly where the fix-up stalled. The node keeps its parent and its side. */
  lemma FixCtxFair(ctx: Ctx, h: nat)
    requires h >= 1 && CtxFair(ctx, h) && CtxDoubles(ctx) == 0
    ensures var f := FixCtx(ctx, h);
            && f.color != Red
            && CtxFair(f.ctx, if f.color == Black then h - 1 else h)
            && CtxDoubles(f.ctx) + IfDouble(f.color) == (if Stalls(ctx) then 1 else 0)
            && (Stuck(f.ctx, f.color) <==> Stalls(ctx))
            && f.ctx.InLeft? == ctx.InLeft? && f.ctx.Top? == ctx.Top?
            && (!ctx.Top? ==> f.ctx.cell == ctx.cell)
  {
    FixCtxSide(ctx, h);
    FixCtxWeights(ctx, h);
    FixCtxStuck(ctx, h);
  }

  /** Splitting the sibling into a nearer sibling, a new grandparent and its other subtree. */
  lemma SplitSibling(ctx: Ctx, near: Tree, x: Cell, far: Tree, c: Color, d: Color)
    requires !ctx.Top?
    requires Cells(Sibling(ctx)) == Cells(SideBin(ctx, near, x, d, far))
    ensures var raised := Frame(ctx, ctx.cell, c, near, Frame(ctx, x, d, far, ctx.up));
            Before(raised) == Before(ctx) && After(raised) == After(ctx)
  {
    var inner := Frame(ctx, x, d, far, ctx.up);
    var b, a, n := Before(ctx.up), After(ctx.up), [ctx.cell];
    if ctx.InLeft? {
      assert After(inner) == [x] + Cells(far) + a;
      assert n + Cells(near) + ([x] + Cells(far) + a) == n + (Cells(near) + [x] + Cells(far)) + a;
    } else {
      assert Before(inner) == b + Cells(far) + [x];
      assert b + Cells(far) + [x] + Cells(near) + n == b + (Cells(far) + [x] + Cells(near)) + n;
    }
  }

  lemma RaiseCells(ctx: Ctx)
    requires !ctx.Top? && Sibling(ctx).Bin?
    ensures Before(RaiseSibling(ctx)) == Before(ctx) && After(RaiseSibling(ctx)) == After(ctx)
    ensures Far(ctx).Bin? ==> Before(RaiseFar(ctx)) == Before(ctx) && After(RaiseFar(ctx)) == After(ctx)
    ensures Near(ctx).Bin? ==> Before(RaiseNear(ctx)) == Before(ctx) && After(RaiseNear(ctx)) == After(ctx)
  {
    var s, near, far := Sibling(ctx), Near(ctx), Far(ctx);
    SplitSibling(ctx, near, s.cell, far, Red, ctx.color);
    if far.Bin? {
      SplitSibling(ctx, near, s.cell, Paint(far, Black), Black, ctx.color);
    }
    if near.Bin? {
      var inner := if ctx.InLeft? then near.left else near.right;
      var outer := if ctx.InLeft? then near.right else near.left;
      var side := SideBin(ctx, outer, s.cell, Black, far);
      if ctx.InLeft? {
        RotateCells(near.left, near.cell, near.right, s.cell, far, near.color, s.color, ctx.color, Black);
      } else {
        RotateCells(far, s.cell, near.left, near.cell, near.right, Black, ctx.color, s.color, near.color);
      }
      SplitSibling(ctx, inner, near.cell, side, Black, ctx.color);
    }
  }

  lemma {:induction false} FixCtxCells(ctx: Ctx, h: nat)
    requires h >= 1 && CtxFair(ctx, h) && CtxDoubles(ctx) == 0
    ensures Before(FixCtx(ctx, h).ctx) == Before(ctx) && After(FixCtx(ctx, h).ctx) == After(ctx)
    decreases FixRank(ctx)
  {
    if !ctx.Top? {
      SiblingThere(ctx, h);
      RaiseCells(ctx);
      if Sibling(ctx).color == Red {
        FixCtxCells(RaiseSibling(ctx), h);
      } else if !IsRed(Near(ctx)) && !IsRed(Far(ctx)) && ctx.color == Black {
        FixCtxCells(ctx.up, h + 1);
      }
    }
  }
}
