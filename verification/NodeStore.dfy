/** How node records that point at each other hold a tree.

    `Holds` reads a tree off the store; the lemmas say what a single write does to it. */
module NodeStore {
  import opened RedBlackTree
  import opened FreeTreeSpec

  datatype RbNode = RbNode(id: nat, base: nat, size: nat, flags: nat, color: Color, left: Ptr, right: Ptr, parent: Ptr)

  /** An untouched slot of the zeroed store page. */
  const ZERO := RbNode(0, 0, 0, 0, Red, NULL, NULL, NULL)

  type Store = seq<RbNode>

  function RootSlot(t: Tree): Ptr { if t.Nil? then NULL else t.cell.slot }

  function ParentSlot(ctx: Ctx): Ptr { if ctx.Top? then NULL else ctx.cell.slot }

  function Slots(t: Tree): set<Ptr> {
    match t
    case Nil => {}
    case Bin(l, n, _, r) => Slots(l) + {n.slot} + Slots(r)
  }

  function CtxSlots(ctx: Ctx): set<Ptr> {
    match ctx
    case Top => {}
    case InLeft(up, n, _, r) => CtxSlots(up) + {n.slot} + Slots(r)
    case InRight(l, n, _, up) => CtxSlots(up) + {n.slot} + Slots(l)
  }

  /** The record in slot `p` is the tree node `n` of colour `c`, below `parent`. */
  predicate IsNode(s: Store, p: Ptr, n: Cell, c: Color, parent: Ptr) {
    && p == n.slot && 0 <= p < |s|
    && s[p].color == c && s[p].base == n.block.base && s[p].size == n.block.size
    && s[p].parent == parent
  }

  /** The records reachable from `p` form the tree `t`, no slot is used twice, and every node's
      `parent` link matches the child link it hangs on. */
  predicate Holds(s: Store, p: Ptr, parent: Ptr, t: Tree)
    decreases t
  {
    match t
    case Nil => p == NULL
    case Bin(l, n, c, r) =>
      && IsNode(s, p, n, c, parent)
      && Holds(s, s[p].left, p, l) && Holds(s, s[p].right, p, r)
      && p !in Slots(l) && p !in Slots(r) && Slots(l) !! Slots(r)
  }

  /** The records around a hole form the context `ctx`; the link into the hole is `hole`. */
  predicate CtxHolds(s: Store, root: Ptr, ctx: Ctx, hole: Ptr) {
    match ctx
    case Top => root == hole
    case InLeft(up, n, c, r) =>
      && IsNode(s, n.slot, n, c, ParentSlot(up))
      && s[n.slot].left == hole && Holds(s, s[n.slot].right, n.slot, r)
      && CtxHolds(s, root, up, n.slot)
      && n.slot !in Slots(r) && n.slot !in CtxSlots(up) && Slots(r) !! CtxSlots(up)
    case InRight(l, n, c, up) =>
      && IsNode(s, n.slot, n, c, ParentSlot(up))
      && s[n.slot].right == hole && Holds(s, s[n.slot].left, n.slot, l)
      && CtxHolds(s, root, up, n.slot)
      && n.slot !in Slots(l) && n.slot !in CtxSlots(up) && Slots(l) !! CtxSlots(up)
  }

  /** The tree, seen from the subtree `t` in the hole of `ctx`. */
  predicate At(s: Store, root: Ptr, ctx: Ctx, t: Tree) {
    && Holds(s, RootSlot(t), ParentSlot(ctx), t)
    && CtxHolds(s, root, ctx, RootSlot(t))
    && Slots(t) !! CtxSlots(ctx)
  }

  predicate Linked(s: Store, root: Ptr, t: Tree) {
    Holds(s, root, NULL, t)
  }

  lemma {:induction false} AtPlug(s: Store, root: Ptr, ctx: Ctx, t: Tree)
    ensures At(s, root, ctx, t) <==> Linked(s, root, Plug(ctx, t))
    decreases ctx
  {
    match ctx
    case Top => HoldsRoot(s, root, NULL, t);
    case InLeft(up, n, c, r) =>
      var whole := Bin(t, n, c, r);
      AtPlug(s, root, up, whole);
      if At(s, root, up, whole) { HoldsRoot(s, s[n.slot].left, n.slot, t); }
      if At(s, root, ctx, t) { assert Holds(s, n.slot, ParentSlot(up), whole); }
    case InRight(l, n, c, up) =>
      var whole := Bin(l, n, c, t);
      AtPlug(s, root, up, whole);
      if At(s, root, up, whole) { HoldsRoot(s, s[n.slot].right, n.slot, t); }
      if At(s, root, ctx, t) { assert Holds(s, n.slot, ParentSlot(up), whole); }
  }

  lemma HoldsRoot(s: Store, p: Ptr, parent: Ptr, t: Tree)
    ensures Holds(s, p, parent, t) ==> p == RootSlot(t)
  {
  }

  /** One node and what hangs below it. */
  lemma Open(s: Store, p: Ptr, parent: Ptr, t: Tree)
    requires Holds(s, p, parent, t) && t.Bin?
    ensures IsNode(s, p, t.cell, t.color, parent)
    ensures s[p].left == RootSlot(t.left) && Holds(s, s[p].left, p, t.left)
    ensures s[p].right == RootSlot(t.right) && Holds(s, s[p].right, p, t.right)
    ensures p !in Slots(t.left) && p !in Slots(t.right) && Slots(t.left) !! Slots(t.right)
    ensures Slots(t) == Slots(t.left) + {p} + Slots(t.right)
  {
    HoldsRoot(s, s[p].left, p, t.left);
    HoldsRoot(s, s[p].right, p, t.right);
  }

  /** The hole's parent and both its children. */
  lemma OpenUp(s: Store, root: Ptr, ctx: Ctx, t: Tree)
    requires At(s, root, ctx, t) && !ctx.Top?
    ensures var (p, sibling) := (ctx.cell.slot, Sibling(ctx));
            && IsNode(s, p, ctx.cell, ctx.color, ParentSlot(ctx.up))
            && s[p].left == (if ctx.InLeft? then RootSlot(t) else RootSlot(sibling))
            && s[p].right == (if ctx.InLeft? then RootSlot(sibling) else RootSlot(t))
            && (t.Bin? ==> RootSlot(t) != RootSlot(sibling) && s[RootSlot(t)].parent == p)
            && p != NULL
    ensures At(s, root, ctx.up, Whole(ctx, t)) && At(s, root, SiblingCtx(ctx, t), Sibling(ctx))
    ensures Plug(ctx, t) == Plug(ctx.up, Whole(ctx, t)) == Plug(SiblingCtx(ctx, t), Sibling(ctx))
  {
    AtPlug(s, root, ctx, t);
    AtPlug(s, root, ctx.up, Whole(ctx, t));
    AtPlug(s, root, SiblingCtx(ctx, t), Sibling(ctx));
    Open(s, ctx.cell.slot, ParentSlot(ctx.up), Whole(ctx, t));
  }

  lemma {:induction false} PlugSlots(ctx: Ctx, t: Tree)
    ensures Slots(Plug(ctx, t)) == CtxSlots(ctx) + Slots(t)
    decreases ctx
  {
    match ctx
    case Top =>
    case InLeft(up, n, c, r) => PlugSlots(up, Bin(t, n, c, r));
    case InRight(l, n, c, up) => PlugSlots(up, Bin(l, n, c, t));
  }

  lemma {:induction false} HoldsSlots(s: Store, p: Ptr, parent: Ptr, t: Tree)
    requires Holds(s, p, parent, t)
    ensures forall q :: q in Slots(t) ==> 0 <= q < |s|
    decreases t
  {
    match t
    case Nil =>
    case Bin(l, n, c, r) => HoldsSlots(s, s[p].left, p, l); HoldsSlots(s, s[p].right, p, r);
  }

  predicate SameOn(s: Store, s': Store, slots: set<Ptr>) {
    |s'| == |s| && forall q :: q in slots && 0 <= q < |s| ==> s'[q] == s[q]
  }

  lemma {:induction false} HoldsFrame(s: Store, s': Store, p: Ptr, parent: Ptr, t: Tree)
    requires Holds(s, p, parent, t) && SameOn(s, s', Slots(t))
    ensures Holds(s', p, parent, t)
    decreases t
  {
    match t
    case Nil =>
    case Bin(l, n, c, r) => HoldsFrame(s, s', s[p].left, p, l); HoldsFrame(s, s', s[p].right, p, r);
  }

  /** A subtree moves below another parent. */
  lemma Reparent(s: Store, s': Store, p: Ptr, parent: Ptr, parent': Ptr, t: Tree)
    requires Holds(s, p, parent, t) && SameOn(s, s', Slots(t) - {p})
    requires t.Bin? ==> s'[p] == s[p].(parent := parent')
    ensures Holds(s', p, parent', t)
  {
    match t
    case Nil =>
    case Bin(l, n, c, r) => HoldsFrame(s, s', s[p].left, p, l); HoldsFrame(s, s', s[p].right, p, r);
  }

  lemma {:induction false} CtxFrame(s: Store, s': Store, root: Ptr, ctx: Ctx, hole: Ptr)
    requires CtxHolds(s, root, ctx, hole) && SameOn(s, s', CtxSlots(ctx))
    ensures CtxHolds(s', root, ctx, hole)
  {
    match ctx
    case Top =>
    case InLeft(up, n, c, r) =>
      HoldsFrame(s, s', s[n.slot].right, n.slot, r);
      CtxFrame(s, s', root, up, n.slot);
    case InRight(l, n, c, up) =>
      HoldsFrame(s, s', s[n.slot].left, n.slot, l);
      CtxFrame(s, s', root, up, n.slot);
  }

  /** The parent's record with its link into the hole redirected. */
  function Relinked(s: Store, ctx: Ctx, hole: Ptr): RbNode
    requires !ctx.Top? && 0 <= ctx.cell.slot < |s|
  {
    if ctx.InLeft? then s[ctx.cell.slot].(left := hole) else s[ctx.cell.slot].(right := hole)
  }

  /** Redirecting the link into the hole. */
  lemma Rehang(s: Store, s': Store, root: Ptr, root': Ptr, ctx: Ctx, hole: Ptr, hole': Ptr)
    requires CtxHolds(s, root, ctx, hole) && SameOn(s, s', CtxSlots(ctx) - {ParentSlot(ctx)})
    requires if ctx.Top? then root' == hole' else root' == root && s'[ctx.cell.slot] == Relinked(s, ctx, hole')
    ensures CtxHolds(s', root', ctx, hole')
  {
    match ctx
    case Top =>
    case InLeft(up, n, c, r) =>
      HoldsFrame(s, s', s[n.slot].right, n.slot, r);
      CtxFrame(s, s', root, up, n.slot);
    case InRight(l, n, c, up) =>
      HoldsFrame(s, s', s[n.slot].left, n.slot, l);
      CtxFrame(s, s', root, up, n.slot);
  }

  /** Changing what a node records, but not its links. */
  lemma Rewrite(s: Store, s': Store, root: Ptr, ctx: Ctx, t: Tree, n: Cell, c: Color)
    requires At(s, root, ctx, t) && t.Bin? && n.slot == t.cell.slot
    requires |s'| == |s| && forall q :: 0 <= q < |s| && q != n.slot ==> s'[q] == s[q]
    requires var (o, w) := (s[n.slot], s'[n.slot]);
             w.color == c && w.base == n.block.base && w.size == n.block.size && w.left == o.left && w.right == o.right
             && w.parent == o.parent
    ensures At(s', root, ctx, t.(cell := n, color := c))
  {
    var p := n.slot;
    HoldsFrame(s, s', s[p].left, p, t.left);
    HoldsFrame(s, s', s[p].right, p, t.right);
    CtxFrame(s, s', root, ctx, p);
  }

  // ------------------------------------------------------------------------------------------
  // Rotations
  // ------------------------------------------------------------------------------------------

  function LeftRotated(t: Tree): Tree
    requires t.Bin? && t.right.Bin?
  {
    Bin(Bin(t.left, t.cell, t.color, t.right.left), t.right.cell, t.right.color, t.right.right)
  }

  function RightRotated(t: Tree): Tree
    requires t.Bin? && t.left.Bin?
  {
    Bin(t.left.left, t.left.cell, t.left.color, Bin(t.left.right, t.cell, t.color, t.right))
  }

  /** The records that `rb_left_rotation` follows from `node` do not coincide. */
  predicate CanLeftRelink(s: Store, node: Ptr) {
    && 0 <= node < |s| && 0 <= s[node].right < |s| && node != s[node].right
    && var (y, up) := (s[node].right, s[node].parent);
    && (s[y].left != NULL ==> 0 <= s[y].left < |s| && s[y].left !in {node, y})
    && (up != NULL ==> 0 <= up < |s| && up !in {node, y, s[y].left})
  }

  /** What the pointer writes of `rb_left_rotation` do to the records and to the root. */
  predicate LeftRelinked(s: Store, s': Store, root: Ptr, root': Ptr, node: Ptr)
    requires CanLeftRelink(s, node)
  {
    var (y, up) := (s[node].right, s[node].parent);
    var middle := s[y].left;
    && |s'| == |s|
    && s'[node] == s[node].(right := middle, parent := y)
    && s'[y] == s[y].(left := node, parent := up)
    && (middle != NULL ==> s'[middle] == s[middle].(parent := node))
    && (up != NULL ==> s'[up] == if s[up].left == node then s[up].(left := y) else s[up].(right := y))
    && (forall q :: 0 <= q < |s| && q !in {node, y, middle, up} ==> s'[q] == s[q])
    && root' == if up == NULL then y else root
  }

  lemma LeftCanRelink(s: Store, root: Ptr, ctx: Ctx, t: Tree)
    requires At(s, root, ctx, t) && t.Bin? && t.right.Bin?
    ensures CanLeftRelink(s, t.cell.slot)
    ensures s[t.cell.slot].right == t.right.cell.slot && s[t.cell.slot].parent == ParentSlot(ctx)
    ensures s[t.right.cell.slot].left == RootSlot(t.right.left)
    ensures {t.cell.slot, t.right.cell.slot, RootSlot(t.right.left), ParentSlot(ctx)}
         <= Slots(t) + CtxSlots(ctx) + {NULL}
  {
    var x := t.cell.slot;
    Open(s, x, ParentSlot(ctx), t);
    Open(s, s[x].right, x, t.right);
    if t.right.left.Bin? { Open(s, s[s[x].right].left, s[x].right, t.right.left); }
    if !ctx.Top? { OpenUp(s, root, ctx, t); }
  }

  /** The pointer writes turn the tree they stand for. */
  lemma LeftSwing(s: Store, s': Store, root: Ptr, root': Ptr, ctx: Ctx, t: Tree)
    requires At(s, root, ctx, t) && t.Bin? && t.right.Bin?
    requires CanLeftRelink(s, t.cell.slot) && LeftRelinked(s, s', root, root', t.cell.slot)
    ensures At(s', root', ctx, LeftRotated(t))
  {
    LeftSwung(s, s', root, root', ctx, t);
    LeftCanRelink(s, root, ctx, t);
    if !ctx.Top? { OpenUp(s, root, ctx, t); }
    Rehang(s, s', root, root', ctx, t.cell.slot, t.right.cell.slot);
  }

  lemma LeftSwung(s: Store, s': Store, root: Ptr, root': Ptr, ctx: Ctx, t: Tree)
    requires At(s, root, ctx, t) && t.Bin? && t.right.Bin?
    requires CanLeftRelink(s, t.cell.slot) && LeftRelinked(s, s', root, root', t.cell.slot)
    ensures Holds(s', t.right.cell.slot, ParentSlot(ctx), LeftRotated(t))
  {
    var x, y := t.cell.slot, t.right.cell.slot;
    LeftCanRelink(s, root, ctx, t);
    Open(s, x, ParentSlot(ctx), t);
    Open(s, y, x, t.right);
    HoldsFrame(s, s', s[x].left, x, t.left);
    Reparent(s, s', s[y].left, y, x, t.right.left);
    HoldsFrame(s, s', s[y].right, y, t.right.right);
  }

  /** What a rotation keeps: the links, the slots in use and everything outside the tree. */
  lemma LeftTurn(s: Store, s': Store, root: Ptr, root': Ptr, ctx: Ctx, t: Tree)
    requires Linked(s, root, Plug(ctx, t)) && t.Bin? && t.right.Bin?
    requires CanLeftRelink(s, t.cell.slot) && LeftRelinked(s, s', root, root', t.cell.slot)
    ensures Linked(s', root', Plug(ctx, LeftRotated(t)))
    ensures Slots(Plug(ctx, LeftRotated(t))) == Slots(Plug(ctx, t))
    ensures forall q :: 0 <= q < |s| ==> s'[q].flags == s[q].flags
    ensures forall q :: 0 <= q < |s| && q !in Slots(Plug(ctx, t)) ==> s'[q] == s[q]
  {
    AtPlug(s, root, ctx, t);
    LeftCanRelink(s, root, ctx, t);
    LeftSwing(s, s', root, root', ctx, t);
    AtPlug(s', root', ctx, LeftRotated(t));
    PlugSlots(ctx, t);
    PlugSlots(ctx, LeftRotated(t));
  }

  /** The records that `rb_right_rotation` follows from `node` do not coincide. */
  predicate CanRightRelink(s: Store, node: Ptr) {
    && 0 <= node < |s| && 0 <= s[node].left < |s| && node != s[node].left
    && var (y, up) := (s[node].left, s[node].parent);
    && (s[y].right != NULL ==> 0 <= s[y].right < |s| && s[y].right !in {node, y})
    && (up != NULL ==> 0 <= up < |s| && up !in {node, y, s[y].right})
  }

  /** What the pointer writes of `rb_right_rotation` do to the records and to the root. */
  predicate RightRelinked(s: Store, s': Store, root: Ptr, root': Ptr, node: Ptr)
    requires CanRightRelink(s, node)
  {
    var (y, up) := (s[node].left, s[node].parent);
    var middle := s[y].right;
    && |s'| == |s|
    && s'[node] == s[node].(left := middle, parent := y)
    && s'[y] == s[y].(right := node, parent := up)
    && (middle != NULL ==> s'[middle] == s[middle].(parent := node))
    && (up != NULL ==> s'[up] == if s[up].left == node then s[up].(left := y) else s[up].(right := y))
    && (forall q :: 0 <= q < |s| && q !in {node, y, middle, up} ==> s'[q] == s[q])
    && root' == if up == NULL then y else root
  }

  lemma RightCanRelink(s: Store, root: Ptr, ctx: Ctx, t: Tree)
    requires At(s, root, ctx, t) && t.Bin? && t.left.Bin?
    ensures CanRightRelink(s, t.cell.slot)
    ensures s[t.cell.slot].left == t.left.cell.slot && s[t.cell.slot].parent == ParentSlot(ctx)
    ensures s[t.left.cell.slot].right == RootSlot(t.left.right)
    ensures {t.cell.slot, t.left.cell.slot, RootSlot(t.left.right), ParentSlot(ctx)}
         <= Slots(t) + CtxSlots(ctx) + {NULL}
  {
    var x := t.cell.slot;
    Open(s, x, ParentSlot(ctx), t);
    Open(s, s[x].left, x, t.left);
    if t.left.right.Bin? { Open(s, s[s[x].left].right, s[x].left, t.left.right); }
    if !ctx.Top? { OpenUp(s, root, ctx, t); }
  }

  /** The pointer writes turn the tree they stand for. */
  lemma RightSwing(s: Store, s': Store, root: Ptr, root': Ptr, ctx: Ctx, t: Tree)
    requires At(s, root, ctx, t) && t.Bin? && t.left.Bin?
    requires CanRightRelink(s, t.cell.slot) && RightRelinked(s, s', root, root', t.cell.slot)
    ensures At(s', root', ctx, RightRotated(t))
  {
    RightSwung(s, s', root, root', ctx, t);
    RightCanRelink(s, root, ctx, t);
    if !ctx.Top? { OpenUp(s, root, ctx, t); }
    Rehang(s, s', root, root', ctx, t.cell.slot, t.left.cell.slot);
  }

  lemma RightSwung(s: Store, s': Store, root: Ptr, root': Ptr, ctx: Ctx, t: Tree)
    requires At(s, root, ctx, t) && t.Bin? && t.left.Bin?
    requires CanRightRelink(s, t.cell.slot) && RightRelinked(s, s', root, root', t.cell.slot)
    ensures Holds(s', t.left.cell.slot, ParentSlot(ctx), RightRotated(t))
  {
    var x, y := t.cell.slot, t.left.cell.slot;
    RightCanRelink(s, root, ctx, t);
    Open(s, x, ParentSlot(ctx), t);
    Open(s, y, x, t.left);
    HoldsFrame(s, s', s[x].right, x, t.right);
    Reparent(s, s', s[y].right, y, x, t.left.right);
    HoldsFrame(s, s', s[y].left, y, t.left.left);
  }

  /** What a rotation keeps: the links, the slots in use and everything outside the tree. */
  lemma RightTurn(s: Store, s': Store, root: Ptr, root': Ptr, ctx: Ctx, t: Tree)
    requires Linked(s, root, Plug(ctx, t)) && t.Bin? && t.left.Bin?
    requires CanRightRelink(s, t.cell.slot) && RightRelinked(s, s', root, root', t.cell.slot)
    ensures Linked(s', root', Plug(ctx, RightRotated(t)))
    ensures Slots(Plug(ctx, RightRotated(t))) == Slots(Plug(ctx, t))
    ensures forall q :: 0 <= q < |s| ==> s'[q].flags == s[q].flags
    ensures forall q :: 0 <= q < |s| && q !in Slots(Plug(ctx, t)) ==> s'[q] == s[q]
  {
    AtPlug(s, root, ctx, t);
    RightCanRelink(s, root, ctx, t);
    RightSwing(s, s', root, root', ctx, t);
    AtPlug(s', root', ctx, RightRotated(t));
    PlugSlots(ctx, t);
    PlugSlots(ctx, RightRotated(t));
  }

  /** A detached record becomes the red leaf in an empty hole. */
  lemma Attach(s: Store, s': Store, root: Ptr, ctx: Ctx, n: Cell)
    requires At(s, root, ctx, Nil) && !ctx.Top?
    requires 0 <= n.slot < |s| && n.slot !in CtxSlots(ctx)
    requires s[n.slot].left == NULL && s[n.slot].right == NULL
    requires s[n.slot].base == n.block.base && s[n.slot].size == n.block.size
    requires 0 <= ctx.cell.slot < |s|
    requires s' ==
             s[ctx.cell.slot := Relinked(s, ctx, n.slot)][n.slot := s[n.slot].(parent := ctx.cell.slot, color := Red)]
    ensures At(s', root, ctx, Bin(Nil, n, Red, Nil))
  {
    Rehang(s, s', root, root, ctx, NULL, n.slot);
  }

  /** Clearing the link into the hole cuts its subtree off. */
  lemma Detach(s: Store, s': Store, root: Ptr, ctx: Ctx, t: Tree)
    requires At(s, root, ctx, t) && !ctx.Top? && 0 <= ctx.cell.slot < |s|
    requires s' == s[ctx.cell.slot := Relinked(s, ctx, NULL)]
    ensures At(s', root, ctx, Nil)
  {
    Rehang(s, s', root, root, ctx, RootSlot(t), NULL);
  }

  lemma BlackRootSlots(t: Tree, slot: Ptr)
    ensures Slots(BlackRoot(t, slot)) == Slots(t)
  {
  }

  lemma {:induction false} CellSlots(t: Tree)
    ensures Slots(t) == SlotSet(Cells(t))
  {
    if t.Bin? {
      CellSlots(t.left);
      CellSlots(t.right);
      assert SlotSet(Cells(t)) == SlotSet(Cells(t.left)) + {t.cell.slot} + SlotSet(Cells(t.right)) by {
        var l, r, all := Cells(t.left), Cells(t.right), Cells(t);
        assert t.cell in all;
        assert forall n :: n in all <==> n in l || n == t.cell || n in r;
      }
    }
  }

  /** A tree that the store holds uses no slot twice. */
  lemma {:induction false} HoldsDistinct(s: Store, p: Ptr, parent: Ptr, t: Tree)
    requires Holds(s, p, parent, t)
    ensures DistinctSlots(Cells(t))
    decreases t
  {
    if t.Bin? {
      HoldsDistinct(s, s[p].left, p, t.left);
      HoldsDistinct(s, s[p].right, p, t.right);
      CellSlots(t.left);
      CellSlots(t.right);
      var l, r, all := Cells(t.left), Cells(t.right), Cells(t);
      forall i, j | 0 <= i < j < |all| ensures all[i].slot != all[j].slot {
        assert all[i] in l || all[i] == t.cell || all[i] in r;
        if i < |l| { assert all[i] == l[i] && all[i].slot in SlotSet(l); }
        if j < |l| { assert all[j] == l[j]; }
        if i > |l| { assert all[i] == r[i - |l| - 1]; }
        if j > |l| { assert all[j] == r[j - |l| - 1] && all[j].slot in SlotSet(r); }
      }
    }
  }
}
