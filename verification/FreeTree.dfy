/** The red-black tree code of `kernel/utils/rbtree.c`, working in place on the node store. */
module FreeTree {
  import opened RedBlackTree
  import opened FreeTreeSpec
  import opened NodeStore

  /** The tree of free blocks of one address space: its root pointer and the page of node records. */
  class FreeTree {
    var root: Ptr
    const store: array<RbNode>
    ghost var tree: Tree
    ghost var used: nat

    /** The records form `tree`. Slots are handed out in order and, since releasing a record keeps its
        first flag, never again; the others are still zero. */
    ghost predicate Shaped()
      reads this, store
    {
      && Linked(store[..], root, tree)
      && used <= store.Length
      && (forall p :: p in Slots(tree) ==> 0 <= p < used)
      && (forall i :: 0 <= i < used ==> store[i].flags % 2 == 1)
      && (forall i :: used <= i < store.Length ==> store[i] == ZERO)
    }

    /** In addition, every record of the tree is marked live. */
    ghost predicate Valid()
      reads this, store
    {
      Shaped() && forall p :: p in Slots(tree) ==> store[p].flags == 3
    }

    constructor (capacity: nat)
      ensures Valid() && fresh(store) && tree == Nil && used == 0 && store.Length == capacity
    {
      store := new RbNode[capacity](_ => ZERO);
      root, tree, used := NULL, Nil, 0;
    }

    ghost predicate Focus(ctx: Ctx, t: Tree)
      reads this
    {
      tree == Plug(ctx, t)
    }

    // ----------------------------------------------------------------------------------------
    // The node store
    // ----------------------------------------------------------------------------------------

    method AllocNodeObj() returns (start: Ptr)
      requires Valid() && used < store.Length
      modifies this`used, store
      ensures Valid() && start == old(used) && used == old(used) + 1
      ensures store[..] == old(store[..])[start := ZERO.(flags := 3)]
    {
      start := 0;
      while store[start].flags % 2 == 1
        invariant 0 <= start <= used
        decreases used - start
      {
        start := start + 1;
      }
      store[start] := store[start].(flags := 3);
      used := used + 1;
      HoldsFrame(old(store[..]), store[..], root, NULL, tree);
    }

    static function Freed(n: RbNode): RbNode {
      if n.flags / 2 % 2 == 1 then n.(flags := n.flags - 2, base := 0) else n
    }

    /** This record was given back to the store. */
    ghost predicate Dropped(obj: Ptr)
      reads store
    {
      0 <= obj < store.Length && store[obj].flags == 1 && store[obj].base == 0
    }

    method FreeNodeObj(obj: Ptr)
      requires 0 <= obj < store.Length
      modifies store
      ensures store[..] == old(store[..])[obj := Freed(old(store[obj]))]
      ensures old(store[obj]).flags == 3 ==> store[obj] == old(store[obj]).(flags := 1, base := 0)
      ensures old(store[obj]).flags < 2 ==> store[obj] == old(store[obj])
    {
      if store[obj].flags / 2 % 2 == 0 {
        return;
      }
      store[obj] := store[obj].(flags := store[obj].flags - 2);
      store[obj] := store[obj].(base := 0);
    }

    // ----------------------------------------------------------------------------------------
    // Rotations and painting
    // ----------------------------------------------------------------------------------------

    method SetColor(p: Ptr, c: Color, ghost ctx: Ctx, ghost t: Tree)
      requires Valid() && Focus(ctx, t) && t.Bin? && p == t.cell.slot
      modifies this`tree, store
      ensures Valid() && Focus(ctx, Paint(t, c))
      ensures 0 <= p < store.Length && store[..] == old(store[..])[p := old(store[p]).(color := c)]
    {
      AtPlug(store[..], root, ctx, t);
      PlugSlots(ctx, t);
      Open(store[..], p, ParentSlot(ctx), t);
      store[p] := store[p].(color := c);
      tree := Plug(ctx, Paint(t, c));
      Rewrite(old(store[..]), store[..], root, ctx, t, t.cell, c);
      AtPlug(store[..], root, ctx, Paint(t, c));
      PlugSlots(ctx, Paint(t, c));
    }

    /** The pointer writes of `rb_left_rotation`. */
    method LeftRelink(node: Ptr)
      requires CanLeftRelink(store[..], node)
      modifies this`root, store
      ensures LeftRelinked(old(store[..]), store[..], old(root), root, node)
    {
      var y := store[node].right;
      store[node] := store[node].(right := store[y].left);
      if store[y].left != NULL {
        store[store[y].left] := store[store[y].left].(parent := node);
      }
      store[y] := store[y].(parent := store[node].parent);
      if store[y].parent == NULL {
        root := y;
      } else if node == store[store[node].parent].left {
        store[store[node].parent] := store[store[node].parent].(left := y);
      } else {
        store[store[node].parent] := store[store[node].parent].(right := y);
      }
      store[y] := store[y].(left := node);
      store[node] := store[node].(parent := y);
    }

    method LeftRotation(node: Ptr, ghost ctx: Ctx, ghost t: Tree)
      requires Valid() && Focus(ctx, t) && t.Bin? && t.right.Bin? && node == t.cell.slot
      modifies this`root, this`tree, store
      ensures Valid() && Focus(ctx, LeftRotated(t))
    {
      ghost var s := store[..];
      AtPlug(s, root, ctx, t);
      LeftCanRelink(s, root, ctx, t);
      LeftRelink(node);
      LeftTurn(s, store[..], old(root), root, ctx, t);
      tree := Plug(ctx, LeftRotated(t));
    }

    /** The pointer writes of `rb_right_rotation`. */
    method RightRelink(node: Ptr)
      requires CanRightRelink(store[..], node)
      modifies this`root, store
      ensures RightRelinked(old(store[..]), store[..], old(root), root, node)
    {
      var y := store[node].left;
      store[node] := store[node].(left := store[y].right);
      if store[y].right != NULL {
        store[store[y].right] := store[store[y].right].(parent := node);
      }
      store[y] := store[y].(parent := store[node].parent);
      if store[y].parent == NULL {
        root := y;
      } else if node == store[store[node].parent].left {
        store[store[node].parent] := store[store[node].parent].(left := y);
      } else {
        store[store[node].parent] := store[store[node].parent].(right := y);
      }
      store[y] := store[y].(right := node);
      store[node] := store[node].(parent := y);
    }

    method RightRotation(node: Ptr, ghost ctx: Ctx, ghost t: Tree)
      requires Valid() && Focus(ctx, t) && t.Bin? && t.left.Bin? && node == t.cell.slot
      modifies this`root, this`tree, store
      ensures Valid() && Focus(ctx, RightRotated(t))
    {
      ghost var s := store[..];
      AtPlug(s, root, ctx, t);
      RightCanRelink(s, root, ctx, t);
      RightRelink(node);
      RightTurn(s, store[..], old(root), root, ctx, t);
      tree := Plug(ctx, RightRotated(t));
    }

    /** What the records around a position say. */
    lemma See(ctx: Ctx, t: Tree)
      requires Valid() && Focus(ctx, t)
      ensures root == RootSlot(tree) && (ctx.Top? ==> root == RootSlot(t))
      ensures t.Bin? ==>
                && IsNode(store[..], t.cell.slot, t.cell, t.color, ParentSlot(ctx))
                && store[t.cell.slot].left == RootSlot(t.left) && store[t.cell.slot].right == RootSlot(t.right)
      ensures !ctx.Top? ==>
                && var (p, sibling) := (ctx.cell.slot, RootSlot(Sibling(ctx)));
                && IsNode(store[..], p, ctx.cell, ctx.color, ParentSlot(ctx.up)) && p != NULL
                && store[p].left == (if ctx.InLeft? then RootSlot(t) else sibling)
                && store[p].right == (if ctx.InLeft? then sibling else RootSlot(t))
                && (t.Bin? ==> RootSlot(t) != sibling && root != RootSlot(t))
                && Focus(ctx.up, Whole(ctx, t)) && Focus(SiblingCtx(ctx, t), Sibling(ctx))
    {
      AtPlug(store[..], root, ctx, t);
      HoldsRoot(store[..], root, NULL, tree);
      if t.Bin? { Open(store[..], RootSlot(t), ParentSlot(ctx), t); }
      if !ctx.Top? {
        OpenUp(store[..], root, ctx, t);
        if tree.Bin? { Open(store[..], root, NULL, tree); }
      }
    }

    // ----------------------------------------------------------------------------------------
    // Insertion
    // ----------------------------------------------------------------------------------------

    method InsertViolations(node: Ptr, ghost ctx: Ctx, ghost t: Tree)
      requires Valid() && Focus(ctx, t) && node == RootSlot(t)
      requires IsRed(t) && Fair(t) && Doubles(t) == 0 && CtxFair(ctx, Height(t)) && CtxDoubles(ctx) == 0
      modifies this`root, this`tree, store
      ensures Valid() && RootBlack(ctx) && tree == InsertFix(ctx, t)
      decreases ctx
    {
      FairRootBlack(ctx, Height(t));
      See(ctx, t);
      if store[node].parent == NULL {
        SetColor(node, Black, ctx, t);
        return;
      }
      var parent := store[node].parent;
      if store[parent].color == Black {
        return;
      }
      InsertFixRedBlack(ctx, t);
      InsertFixSome(ctx, t);
      var grand, uncle, tempColor := Uncle(parent, ctx, t);
      if tempColor == Red {
        RecoloredFair(ctx, t);
        RecolorFamily(parent, uncle, grand, ctx, t);
        InsertViolations(grand, ctx.up.up, Recolored(ctx, t));
      } else {
        TurnFamily(node, parent, grand, ctx, t);
      }
      BlackenRoot();
    }

    /** The grandparent, the uncle and its colour, for a red parent. */
    method Uncle(parent: Ptr, ghost ctx: Ctx, ghost t: Tree) returns (grand: Ptr, uncle: Ptr, color: Color)
      requires Valid() && Focus(ctx, t) && t.Bin? && !ctx.Top? && ctx.color == Red && parent == ctx.cell.slot
      requires CtxFair(ctx, Height(t)) && CtxDoubles(ctx) == 0
      ensures !ctx.up.Top? && grand == ctx.up.cell.slot && uncle == RootSlot(Sibling(ctx.up))
      ensures color == if Sibling(ctx.up).Bin? then Sibling(ctx.up).color else Black
    {
      RedParent(ctx, Height(t));
      See(ctx, t);
      See(ctx.up, Whole(ctx, t));
      See(SiblingCtx(ctx.up, Whole(ctx, t)), Sibling(ctx.up));
      grand := store[parent].parent;
      uncle := store[grand].left;
      if store[grand].left == parent {
        uncle := store[grand].right;
      }
      color := Black;
      if uncle != NULL {
        color := store[uncle].color;
      }
    }

    /** `(*root)->color = BLACK`, where the root is black already. */
    method BlackenRoot()
      requires Valid() && tree.Bin? && RedBlack(tree)
      modifies this`tree, store
      ensures Valid() && tree == old(tree) && store[..] == old(store[..])
    {
      See(Top, tree);
      SetColor(root, Black, Top, tree);
    }

    /** The repainting of `insert_violations` for a red uncle. */
    method RecolorFamily(parent: Ptr, uncle: Ptr, grand: Ptr, ghost ctx: Ctx, ghost t: Tree)
      requires Valid() && Focus(ctx, t) && t.Bin?
      requires !ctx.Top? && !ctx.up.Top? && Sibling(ctx.up).Bin?
      requires ctx.cell.slot == parent && ctx.up.cell.slot == grand && Sibling(ctx.up).cell.slot == uncle
      modifies this`root, this`tree, store
      ensures Valid() && tree == Plug(ctx.up.up, Recolored(ctx, t))
    {
      ghost var up, whole := ctx.up, Paint(Whole(ctx, t), Black);
      See(ctx, t);
      SetColor(parent, Black, up, Whole(ctx, t));
      See(up, whole);
      SetColor(uncle, Black, SiblingCtx(up, whole), Sibling(up));
      ghost var u := Paint(Sibling(up), Black);
      SetColor(grand, Red, up.up,
               if up.InLeft? then Bin(whole, up.cell, up.color, u) else Bin(u, up.cell, up.color, whole));
    }

    /** The rotations of `insert_violations` for a black uncle. */
    method TurnFamily(child: Ptr, parent: Ptr, grand: Ptr, ghost ctx: Ctx, ghost t: Tree)
      requires Valid() && Focus(ctx, t) && t.Bin? && child == RootSlot(t)
      requires !ctx.Top? && !ctx.up.Top? && ctx.cell.slot == parent && ctx.up.cell.slot == grand
      modifies this`root, this`tree, store
      ensures Valid() && tree == Plug(ctx.up.up, Rotated(ctx, t))
    {
      var node := child;
      ghost var up, whole := ctx.up, Whole(ctx, t);
      ghost var c, s := ctx, t;
      See(ctx, t);
      See(up, whole);
      if store[grand].left == parent {
        if store[parent].right == node {
          LeftRotation(parent, up, whole);
          c, s := InLeft(up, t.cell, t.color, t.right), Bin(ctx.left, ctx.cell, ctx.color, t.left);
          See(up, Whole(c, s));
          See(c, s);
          node := store[node].left;
        }
      } else {
        if store[parent].left == node {
          RightRotation(parent, up, whole);
          c, s := InRight(t.left, t.cell, t.color, up), Bin(t.right, ctx.cell, ctx.color, ctx.right);
          See(up, Whole(c, s));
          See(c, s);
          node := store[node].right;
        }
      }
      assert Rotated(c, s) == Rotated(ctx, t) && c.InLeft? == c.up.InLeft?;
      See(up, Whole(c, s));
      See(c, s);
      var above := store[node].parent;
      ghost var family := Whole(up, Paint(Whole(c, s), Black));
      if store[above].left == node {
        SetColor(above, Black, up, Whole(c, s));
        SetColor(grand, Red, up.up, family);
        RightRotation(grand, up.up, Paint(family, Red));
      } else {
        SetColor(above, Black, up, Whole(c, s));
        SetColor(grand, Red, up.up, family);
        LeftRotation(grand, up.up, Paint(family, Red));
      }
    }

    /** The leaf the new block hangs below, and on which side: right of strictly smaller sizes only. */
    method FindPlace(size: nat) returns (prev: Ptr, dir: bool, ghost place: Ctx)
      requires Valid() && tree.Bin?
      ensures place == Descend(Top, tree, size) && !place.Top? && Focus(place, Nil)
      ensures prev == place.cell.slot && (dir <==> place.InRight?)
    {
      See(Top, tree);
      var cur := root;
      prev, dir := NULL, false;
      place := Top;
      ghost var below := tree;
      while cur != NULL
        invariant Focus(place, below) && cur == RootSlot(below) && prev == ParentSlot(place)
        invariant dir <==> place.InRight?
        invariant Descend(place, below, size) == Descend(Top, tree, size)
        invariant place.Top? ==> below.Bin?
        decreases below
      {
        See(place, below);
        prev := cur;
        if size > store[cur].size {
          dir := true;
          cur := store[cur].right;
          place, below := InRight(below.left, below.cell, below.color, place), below.right;
        } else {
          dir := false;
          cur := store[cur].left;
          place, below := InLeft(place, below.cell, below.color, below.right), below.left;
        }
      }
      See(place, below);
    }

    method InsertNode(node: Ptr)
      requires Valid() && tree.Bin? && RedBlack(tree)
      requires 0 <= node < used && node !in Slots(tree) && store[node].left == NULL && store[node].right == NULL
      requires store[node].flags == 3
      modifies this`root, this`tree, store
      ensures Valid()
      ensures tree == Insert(old(tree), Cell(node, Block(old(store[node].base), old(store[node].size))))
    {
      BlackenRoot();
      ghost var n := Cell(node, Block(store[node].base, store[node].size));
      var prev, dir, place := FindPlace(store[node].size);
      PlugRedBlack(place, Nil);
      AttachLeaf(node, prev, dir, place, n);
      ghost var leaf := Bin(Nil, n, Red, Nil);
      See(place, leaf);
      if store[store[node].parent].color != Black {
        InsertViolations(node, place, leaf);
      }
    }

    /** The link writes of `insert_node`. */
    method AttachLeaf(node: Ptr, prev: Ptr, dir: bool, ghost place: Ctx, ghost n: Cell)
      requires Valid() && Focus(place, Nil) && !place.Top? && prev == place.cell.slot && (dir <==> place.InRight?)
      requires 0 <= node < used && node !in Slots(tree) && store[node].left == NULL && store[node].right == NULL
      requires store[node].flags == 3
      requires n == Cell(node, Block(store[node].base, store[node].size))
      modifies this`tree, store
      ensures Valid() && tree == Plug(place, Bin(Nil, n, Red, Nil))
    {
      ghost var s := store[..];
      AtPlug(s, root, place, Nil);
      PlugSlots(place, Nil);
      See(place, Nil);
      if dir {
        store[prev] := store[prev].(right := node);
      } else {
        store[prev] := store[prev].(left := node);
      }
      store[node] := store[node].(parent := prev);
      store[node] := store[node].(color := Red);

      ghost var leaf := Bin(Nil, n, Red, Nil);
      Attach(s, store[..], root, place, n);
      AtPlug(store[..], root, place, leaf);
      PlugSlots(place, leaf);
      tree := Plug(place, leaf);
    }

    method MakeNode(base: nat, size: nat, id: nat) returns (node: Ptr)
      requires Valid() && RedBlack(tree) && used < store.Length
      modifies this, store
      ensures Valid() && node == old(used) && used == old(used) + 1
      ensures tree == Insert(old(tree), Cell(node, Block(base, size)))
    {
      node := AllocNodeObj();
      ghost var s := store[..];
      store[node] := store[node].(size := size);
      store[node] := store[node].(id := id);
      store[node] := store[node].(base := base);
      HoldsFrame(s, store[..], root, NULL, tree);
      HoldsRoot(s, root, NULL, tree);
      if root == NULL {
        store[node] := store[node].(color := Black, left := NULL, right := NULL, parent := NULL);
        root := node;
        tree := Bin(Nil, Cell(node, Block(base, size)), Black, Nil);
        assert Holds(store[..], NULL, node, Nil);
      } else {
        InsertNode(node);
      }
    }

    // ----------------------------------------------------------------------------------------
    // Deletion
    // ----------------------------------------------------------------------------------------

    /** The sibling of `node` and the side it is on. */
    method SiblingOf(node: Ptr, ghost ctx: Ctx, ghost t: Tree) returns (sibling: Ptr, sdir: bool)
      requires Valid() && Focus(ctx, t) && !ctx.Top? && t.Bin? && node == RootSlot(t)
      ensures sibling == RootSlot(Sibling(ctx)) && (sdir <==> ctx.InLeft?)
    {
      See(ctx, t);
      sdir := false;
      sibling := store[store[node].parent].left;
      if sibling == node {
        sibling := store[store[node].parent].right;
        sdir := true;
      }
    }

    method ColorOf(p: Ptr, ghost ctx: Ctx, ghost t: Tree) returns (c: Color)
      requires Valid() && Focus(ctx, t) && p == RootSlot(t)
      ensures c == if t.Bin? then t.color else Black
    {
      See(ctx, t);
      c := Black;
      if p != NULL {
        c := store[p].color;
      }
    }

    /** The colours of the sibling and of its left and right child; no child counts as black. */
    method SiblingColors(sibling: Ptr, ghost ctx: Ctx, ghost t: Tree) returns (color: Color, left: Color, right: Color)
      requires Valid() && Focus(ctx, t) && t.Bin? && sibling == RootSlot(t)
      ensures color == t.color
      ensures left == (if t.left.Bin? then t.left.color else Black)
      ensures right == (if t.right.Bin? then t.right.color else Black)
    {
      See(ctx, t);
      color := store[sibling].color;
      left := ColorOf(store[sibling].left, InLeft(ctx, t.cell, t.color, t.right), t.left);
      right := ColorOf(store[sibling].right, InRight(t.left, t.cell, t.color, ctx), t.right);
    }

    /** Red sibling: swap its colour with the parent's and rotate it up. */
    method RaiseRed(parent: Ptr, sibling: Ptr, sdir: bool, ghost ctx: Ctx, ghost t: Tree)
      requires Valid() && Focus(ctx, t) && !ctx.Top? && IsRed(Sibling(ctx))
      requires parent == ctx.cell.slot && sibling == RootSlot(Sibling(ctx)) && (sdir <==> ctx.InLeft?)
      modifies this`root, this`tree, store
      ensures Valid() && Focus(RaiseSibling(ctx), t)
    {
      See(ctx, t);
      See(SiblingCtx(ctx, t), Sibling(ctx));
      var temp := store[sibling].color;
      SetColor(sibling, store[parent].color, SiblingCtx(ctx, t), Sibling(ctx));
      ghost var c1 := Frame(ctx, ctx.cell, ctx.color, Paint(Sibling(ctx), ctx.color), ctx.up);
      See(c1, t);
      SetColor(parent, temp, c1.up, Whole(c1, t));
      ghost var whole := Paint(Whole(c1, t), Red);
      if sdir {
        LeftRotation(parent, c1.up, whole);
      } else {
        RightRotation(parent, c1.up, whole);
      }
    }

    /** The surroundings once the red near nephew has been rotated above the sibling. */
    ghost function NearTurned(ctx: Ctx): Ctx
      requires !ctx.Top? && Sibling(ctx).Bin? && Near(ctx).Bin?
    {
      var s, m := Sibling(ctx), Near(ctx);
      var inner := if ctx.InLeft? then m.left else m.right;
      var outer := if ctx.InLeft? then m.right else m.left;
      Frame(ctx, ctx.cell, ctx.color, SideBin(ctx, inner, m.cell, Black, SideBin(ctx, outer, s.cell, Red, Far(ctx))),
            ctx.up)
    }

    method TurnNear(sibling: Ptr, sdir: bool, ghost ctx: Ctx, ghost t: Tree)
      requires Valid() && Focus(ctx, t) && !ctx.Top? && Sibling(ctx).Bin? && Near(ctx).Bin?
      requires sibling == RootSlot(Sibling(ctx)) && (sdir <==> ctx.InLeft?)
      modifies this`root, this`tree, store
      ensures Valid() && Focus(NearTurned(ctx), t)
    {
      ghost var sc, s := SiblingCtx(ctx, t), Sibling(ctx);
      See(ctx, t);
      SetColor(sibling, Red, sc, s);
      s := Paint(s, Red);
      See(sc, s);
      if sdir {
        See(InLeft(sc, s.cell, s.color, s.right), s.left);
        SetColor(store[sibling].left, Black, InLeft(sc, s.cell, s.color, s.right), s.left);
        RightRotation(sibling, sc, s.(left := Paint(s.left, Black)));
      } else {
        See(InRight(s.left, s.cell, s.color, sc), s.right);
        SetColor(store[sibling].right, Black, InRight(s.left, s.cell, s.color, sc), s.right);
        LeftRotation(sibling, sc, s.(right := Paint(s.right, Black)));
      }
    }

    /** The final rotation: the sibling takes the parent's place and colour. */
    method TurnFar(node: Ptr, parent: Ptr, sibling: Ptr, sdir: bool, ghost ctx: Ctx, ghost t: Tree)
      requires Valid() && Focus(ctx, t) && !ctx.Top? && t.Bin? && Sibling(ctx).Bin? && Far(ctx).Bin?
      requires Sibling(ctx).color == Black && node == RootSlot(t)
      requires parent == ctx.cell.slot && sibling == RootSlot(Sibling(ctx)) && (sdir <==> ctx.InLeft?)
      modifies this`root, this`tree, store
      ensures Valid() && Focus(RaiseFar(ctx), Paint(t, Black))
    {
      See(ctx, t);
      See(SiblingCtx(ctx, t), Sibling(ctx));
      var parentColor := store[parent].color;
      SetColor(parent, store[sibling].color, ctx.up, Whole(ctx, t));
      ghost var c1 := Frame(ctx, ctx.cell, Black, Sibling(ctx), ctx.up);
      See(c1, t);
      SetColor(sibling, parentColor, SiblingCtx(c1, t), Sibling(c1));
      ghost var c2 := Frame(ctx, ctx.cell, Black, Paint(Sibling(ctx), ctx.color), ctx.up);
      See(c2, t);
      if sdir {
        LeftRotation(parent, c2.up, Whole(c2, t));
      } else {
        RightRotation(parent, c2.up, Whole(c2, t));
      }
      ghost var above := Frame(ctx, Sibling(ctx).cell, ctx.color, Far(ctx), ctx.up);
      ghost var c3 := Frame(ctx, ctx.cell, Black, Near(ctx), above);
      See(c3, t);
      SetColor(node, Black, c3, t);
      BlackenFar(node, sdir, c3, Paint(t, Black));
    }

    /** `node->parent->parent`'s far child is painted black. */
    method BlackenFar(node: Ptr, sdir: bool, ghost ctx: Ctx, ghost t: Tree)
      requires Valid() && Focus(ctx, t) && t.Bin? && node == RootSlot(t) && (sdir <==> ctx.InLeft?)
      requires !ctx.Top? && !ctx.up.Top? && Sibling(ctx.up).Bin? && ctx.up.InLeft? == ctx.InLeft?
      modifies this`root, this`tree, store
      ensures Valid()
      ensures Focus(Frame(ctx, ctx.cell, ctx.color, Sibling(ctx),
                          Frame(ctx, ctx.up.cell, ctx.up.color, Paint(Sibling(ctx.up), Black), ctx.up.up)), t)
    {
      See(ctx, t);
      See(ctx.up, Whole(ctx, t));
      var grand := store[store[node].parent].parent;
      if sdir {
        SetColor(store[grand].right, Black, SiblingCtx(ctx.up, Whole(ctx, t)), Sibling(ctx.up));
      } else {
        SetColor(store[grand].left, Black, SiblingCtx(ctx.up, Whole(ctx, t)), Sibling(ctx.up));
      }
    }

    /** Black sibling with a red child: one or two rotations, unless only the far child is red. */
    method TurnSibling(node: Ptr, parent: Ptr, first: Ptr, side: bool, left: Color, right: Color,
                       ghost ctx: Ctx, ghost t: Tree)
      requires Valid() && Focus(ctx, t) && !ctx.Top? && t.Bin? && Sibling(ctx).Bin?
      requires Sibling(ctx).color == Black && Doubles(Sibling(ctx)) == 0 && (IsRed(Near(ctx)) || IsRed(Far(ctx)))
      requires parent == ctx.cell.slot && node == RootSlot(t) && first == RootSlot(Sibling(ctx)) &&
               (side <==> ctx.InLeft?)
      requires left == (if Sibling(ctx).left.Bin? then Sibling(ctx).left.color else Black)
      requires right == (if Sibling(ctx).right.Bin? then Sibling(ctx).right.color else Black)
      modifies this`root, this`tree, store
      ensures Valid()
      ensures if FarOnly(ctx) then Focus(ctx, t)
              else if IsRed(Far(ctx)) then Focus(RaiseFar(ctx), Paint(t, Black))
              else Focus(RaiseNear(ctx), Paint(t, Black))
    {
      ghost var c := ctx;
      if left == Black && right == Red && !side {
        TurnNear(first, side, ctx, t);
        c := NearTurned(ctx);
      } else if right == Black && left == Red && side {
        TurnNear(first, side, ctx, t);
        c := NearTurned(ctx);
      }
      var sibling, sdir := SiblingOf(node, c, t);
      if left == Red && sdir {
        TurnFar(node, parent, sibling, sdir, c, t);
      } else if right == Red && !sdir {
        TurnFar(node, parent, sibling, sdir, c, t);
      }
    }

    method DeleteViolations(node: Ptr, ghost ctx: Ctx, ghost t: Tree, ghost h: nat)
      requires Valid() && Focus(ctx, t) && t.Bin? && node == RootSlot(t)
      requires if t.color == Red then !ctx.Top? else h >= 1 && CtxFair(ctx, h) && CtxDoubles(ctx) == 0
      modifies this`root, this`tree, store
      ensures Valid()
      ensures if t.color == Red then tree == old(tree)
              else tree == Plug(FixCtx(ctx, h).ctx, Paint(t, FixCtx(ctx, h).color))
      decreases FixRank(ctx), 2
    {
      See(ctx, t);
      if store[node].parent == NULL {
        SetColor(node, Black, ctx, t);
        return;
      }
      if store[node].color != DoubleBlack && store[node].color == Red {
        return;
      }
      DoubleBlacks(node, ctx, t, h);
    }

    /** `delete_violations` from the label `double_blacks` on. */
    method DoubleBlacks(node: Ptr, ghost ctx: Ctx, ghost t: Tree, ghost h: nat)
      requires Valid() && Focus(ctx, t) && t.Bin? && node == RootSlot(t) && !ctx.Top?
      requires h >= 1 && CtxFair(ctx, h) && CtxDoubles(ctx) == 0
      modifies this`root, this`tree, store
      ensures Valid()
      ensures tree == Plug(FixCtx(ctx, h).ctx, Paint(t, FixCtx(ctx, h).color))
      decreases FixRank(ctx), 1
    {
      SiblingThere(ctx, h);
      var sibling, sdir := SiblingOf(node, ctx, t);
      SetColor(node, DoubleBlack, ctx, t);
      ghost var d := Paint(t, DoubleBlack);
      See(ctx, d);
      var parent := store[node].parent;
      var color, left, right := SiblingColors(sibling, SiblingCtx(ctx, d), Sibling(ctx));
      if color == Black && left == Black && right == Black {
        PushUp(node, parent, sibling, ctx, d, h);
      } else if color == Red {
        RaiseRed(parent, sibling, sdir, ctx, d);
        DeleteViolations(node, RaiseSibling(ctx), d, h);
      } else if color == Black {
        TurnSibling(node, parent, sibling, sdir, left, right, ctx, d);
      }
    }

    /** Black sibling with black children: the missing weight moves to the parent. */
    method PushUp(node: Ptr, parent: Ptr, sibling: Ptr, ghost ctx: Ctx, ghost t: Tree, ghost h: nat)
      requires Valid() && Focus(ctx, t) && t.Bin? && node == RootSlot(t) && !ctx.Top? && Sibling(ctx).Bin?
      requires ctx.color == Black ==> CtxFair(ctx.up, h + 1) && CtxDoubles(ctx.up) == 0
      requires parent == ctx.cell.slot && sibling == RootSlot(Sibling(ctx))
      modifies this`root, this`tree, store
      ensures Valid()
      ensures var red := Paint(Sibling(ctx), Red);
              if ctx.color == Black then
                var f := FixCtx(ctx.up, h + 1);
                Focus(Frame(ctx, ctx.cell, f.color, red, f.ctx), Paint(t, Black))
              else
                Focus(Frame(ctx, ctx.cell, Black, red, ctx.up), Paint(t, Black))
      decreases FixRank(ctx), 0
    {
      SetColor(node, Black, ctx, t);
      ghost var b := Paint(t, Black);
      See(ctx, b);
      SetColor(sibling, Red, SiblingCtx(ctx, b), Sibling(ctx));
      ghost var c := Frame(ctx, ctx.cell, ctx.color, Paint(Sibling(ctx), Red), ctx.up);
      See(c, b);
      if store[parent].color == Black {
        SetColor(parent, DoubleBlack, c.up, Whole(c, b));
        DeleteViolations(parent, ctx.up, Paint(Whole(c, b), DoubleBlack), h + 1);
      } else {
        SetColor(parent, Black, c.up, Whole(c, b));
      }
    }

    /** Copying another node's block into `node`. */
    method SetBlock(node: Ptr, base: nat, size: nat, flags: nat, ghost ctx: Ctx, ghost t: Tree)
      requires Valid() && Focus(ctx, t) && t.Bin? && node == RootSlot(t) && flags == 3
      modifies this`tree, store
      ensures Valid() && Focus(ctx, t.(cell := t.cell.(block := Block(base, size))))
      ensures 0 <= node < store.Length
      ensures forall q :: 0 <= q < store.Length && q != node ==> store[q] == old(store[q])
    {
      See(ctx, t);
      ghost var n := t.cell.(block := Block(base, size));
      AtPlug(store[..], root, ctx, t);
      PlugSlots(ctx, t);
      PlugSlots(ctx, t.(cell := n));
      store[node] := store[node].(base := base);
      store[node] := store[node].(size := size);
      store[node] := store[node].(flags := flags);
      tree := Plug(ctx, t.(cell := n));
      Rewrite(old(store[..]), store[..], root, ctx, t, n, t.color);
      AtPlug(store[..], root, ctx, t.(cell := n));
    }

    twostate predicate SameFlags()
      reads store
    {
      forall q :: 0 <= q < store.Length ==> store[q].flags == old(store[q].flags)
    }

    /** `parent`'s link to `t` is cleared. */
    method Unlink(parent: Ptr, right: bool, ghost ctx: Ctx, ghost t: Tree)
      requires Valid() && Focus(ctx, t) && !ctx.Top? && parent == ctx.cell.slot && (right <==> ctx.InRight?)
      modifies this`tree, store
      ensures Valid() && Focus(ctx, Nil)
      ensures Slots(tree) !! Slots(t) && Slots(tree) + Slots(t) == Slots(old(tree)) && SameFlags()
      ensures forall q :: 0 <= q < store.Length && q != parent ==> store[q] == old(store[q])
    {
      ghost var s := store[..];
      See(ctx, t);
      AtPlug(s, root, ctx, t);
      PlugSlots(ctx, t);
      PlugSlots(ctx, Nil);
      if right {
        store[parent] := store[parent].(right := NULL);
      } else {
        store[parent] := store[parent].(left := NULL);
      }
      tree := Plug(ctx, Nil);
      Detach(s, store[..], root, ctx, t);
      AtPlug(store[..], root, ctx, Nil);
    }

    /** `free_node_obj` on a record that has left the tree, or on one that is still in it. */
    method Release(obj: Ptr, ghost gone: bool, ghost ctx: Ctx, ghost t: Tree)
      requires Valid() && 0 <= obj < used && store[obj].flags == 3
      requires if gone then obj !in Slots(tree) else Focus(ctx, t) && t.Bin? && obj == RootSlot(t)
      modifies this`tree, store
      ensures Shaped() && Dropped(obj)
      ensures if gone then Valid() && tree == old(tree)
              else Focus(ctx, t.(cell := t.cell.(block := t.cell.block.(base := 0))))
    {
      FreeNodeObj(obj);
      if gone {
        HoldsFrame(old(store[..]), store[..], root, NULL, tree);
      } else {
        ghost var n := t.cell.(block := t.cell.block.(base := 0));
        AtPlug(old(store[..]), root, ctx, t);
        Open(old(store[..]), obj, ParentSlot(ctx), t);
        PlugSlots(ctx, t);
        PlugSlots(ctx, t.(cell := n));
        tree := Plug(ctx, t.(cell := n));
        Rewrite(old(store[..]), store[..], root, ctx, t, n, t.color);
        AtPlug(store[..], root, ctx, t.(cell := n));
      }
    }

    method DeleteLeaf(node: Ptr, ghost ctx: Ctx, ghost t: Tree)
      requires Valid() && Focus(ctx, t) && Deletable(ctx, t) && t.left == Nil && t.right == Nil && node == RootSlot(t)
      modifies this`root, this`tree, store
      ensures Shaped() && tree == Delete(ctx, t) && Dropped(node)
      ensures TakesOne(ctx, t) ==> Valid()
    {
      See(ctx, t);
      PlugRedBlack(ctx, t);
      var parent := store[node].parent;
      DeleteViolations(node, ctx, t, 1);
      ghost var f := Fix(ctx, t.color);
      FixSide(ctx, t.color);
      ghost var v, agrees := Paint(t, f.color), SideTestAgrees(f.ctx, t);
      See(f.ctx, v);
      ghost var cut, lost := if agrees then f.ctx else SiblingCtx(f.ctx, v), if agrees then v else Sibling(f.ctx);
      PlugSlots(f.ctx, v);
      assert store[node].flags == 3;
      if store[node].size > store[parent].size {
        Unlink(parent, true, cut, lost);
      } else {
        Unlink(parent, false, cut, lost);
      }
      Release(node, agrees, Frame(f.ctx, f.ctx.cell, f.ctx.color, Nil, f.ctx.up), v);
    }

    /** The rightmost node below `node`'s left child. */
    method FindPredecessor(node: Ptr, ghost ctx: Ctx, ghost t: Tree) returns (min: Ptr)
      requires Valid() && Focus(ctx, t) && t.Bin? && t.left.Bin? && node == RootSlot(t)
      ensures Focus(PredecessorCtx(ctx, t), RightmostTree(t.left)) && min == RootSlot(RightmostTree(t.left))
    {
      See(ctx, t);
      min := store[node].left;
      ghost var c, m := InLeft(ctx, t.cell, t.color, t.right), t.left;
      See(c, m);
      while min != NULL
        invariant Focus(c, m) && m.Bin? && min == RootSlot(m)
        invariant Rightmost(c, m) == PredecessorCtx(ctx, t) && RightmostTree(m) == RightmostTree(t.left)
        decreases m
      {
        See(c, m);
        See(InRight(m.left, m.cell, m.color, c), m.right);
        if store[min].right == NULL {
          return;
        }
        min := store[min].right;
        c, m := InRight(m.left, m.cell, m.color, c), m.right;
      }
      See(c, m);
    }

    /** The root is painted black if it is `node`. */
    method BlackenIfRoot(node: Ptr)
      requires Valid() && tree.Bin?
      modifies this`tree, store
      ensures Valid() && tree == BlackRoot(old(tree), node) && SameFlags()
      ensures forall q :: 0 <= q < store.Length && q != node ==> store[q] == old(store[q])
    {
      See(Top, tree);
      if node == root {
        SetColor(node, Black, Top, tree);
      }
    }

    /** The predecessor is its parent's right child unless that parent is `node`. */
    method UnlinkPredecessor(node: Ptr, min: Ptr, ghost r: Ctx, ghost v: Tree)
      requires Valid() && Focus(r, v) && v.Bin? && min == RootSlot(v) && !r.Top?
      requires After(r) != [] && After(r)[0].slot == node
      modifies this`tree, store
      ensures Valid() && Focus(r, Nil) && min !in Slots(tree) && 0 <= min < used && store[min].flags == 3
    {
      See(r, v);
      PlugSlots(r, v);
      NextPlug(r, v, After(r)[0].block);
      ghost var u := NextTree(r, v);
      See(NextCtx(r), u);
      See(InLeft(NextCtx(r), u.cell, u.color, u.right), u.left);
      if min == store[node].left {
        Unlink(node, false, r, v);
      } else {
        Unlink(store[min].parent, true, r, v);
      }
    }

    method DeleteInner(node: Ptr, ghost ctx: Ctx, ghost t: Tree)
      requires Valid() && Focus(ctx, t) && Deletable(ctx, t) && t.left.Bin? && t.right.Bin? && node == RootSlot(t)
      modifies this`root, this`tree, store
      ensures Valid() && tree == Delete(ctx, t) && Dropped(RightmostTree(t.left).cell.slot)
    {
      var min := FindPredecessor(node, ctx, t);
      ghost var p, m := PredecessorCtx(ctx, t), RightmostTree(t.left);
      PredecessorFixable(ctx, t);
      DeleteViolations(min, p, m, 1);
      FixSide(p, m.color);
      PredecessorPlace(ctx, t);
      PullUp(node, min, Fix(p, m.color).ctx, Paint(m, Fix(p, m.color).color));
    }

    /** The predecessor's block moves into `node`, and its record leaves the tree. */
    method PullUp(node: Ptr, min: Ptr, ghost c: Ctx, ghost v: Tree)
      requires Valid() && Focus(c, v) && v.Bin? && min == RootSlot(v) && !c.Top?
      requires After(c) != [] && After(c)[0].slot == node
      modifies this`tree, store
      ensures Valid() && tree == BlackRoot(Plug(RelabelNext(c, v.cell.block), Nil), node) && Dropped(min)
    {
      NextPlug(c, v, v.cell.block);
      RelabelCells(c, v.cell.block);
      See(c, v);
      PlugSlots(c, v);
      SetBlock(node, store[min].base, store[min].size, store[min].flags, NextCtx(c), NextTree(c, v));
      ghost var r := RelabelNext(c, v.cell.block);
      UnlinkPredecessor(node, min, r, v);
      PlugRoot(r, Nil, v.cell.block);
      BlackenIfRoot(node);
      BlackRootSlots(Plug(r, Nil), node);
      Release(min, true, Top, Nil);
    }

    method DeleteOnlyChild(node: Ptr, ghost ctx: Ctx, ghost t: Tree)
      requires Valid() && Focus(ctx, t) && Deletable(ctx, t) && t.left.Bin? != t.right.Bin? && node == RootSlot(t)
      modifies this`root, this`tree, store
      ensures Valid() && tree == Delete(ctx, t)
      ensures Dropped(if t.left.Bin? then t.left.cell.slot else t.right.cell.slot)
    {
      See(ctx, t);
      PlugRedBlack(ctx, t);
      ghost var k := if t.left.Bin? then t.left else t.right;
      OnlyChildCells(ctx, t);
      assert Height(k) == 0;
      FairZero(k);
      var toCopy := store[node].right;
      if store[node].left != NULL {
        toCopy := store[node].left;
      }
      ghost var kc := if t.left.Bin? then InLeft(ctx, t.cell, t.color, Nil) else InRight(Nil, t.cell, t.color, ctx);
      See(kc, k);
      PlugSlots(kc, k);
      SetBlock(node, store[toCopy].base, store[toCopy].size, store[toCopy].flags, ctx, t);
      ghost var n := t.cell.(block := k.cell.block);
      kc := kc.(cell := n);
      DeleteViolations(toCopy, kc, k, 1);
      See(kc, k);
      TakeOver(node, toCopy, ctx, kc, k);
    }

    /** The only child's colour and links move into `node`, and its record leaves the tree. */
    method TakeOver(node: Ptr, toCopy: Ptr, ghost ctx: Ctx, ghost kc: Ctx, ghost k: Tree)
      requires Valid() && Focus(kc, k) && IsRed(k) && k.left == Nil && k.right == Nil && toCopy == RootSlot(k)
      requires !kc.Top? && kc.up == ctx && Sibling(kc) == Nil && node == kc.cell.slot
      modifies this`root, this`tree, store
      ensures Valid() && Dropped(toCopy)
      ensures tree == Plug(ctx, Bin(Nil, kc.cell, if ctx.Top? then Black else Red, Nil))
    {
      See(kc, k);
      SetColor(node, store[toCopy].color, ctx, Whole(kc, k));
      ghost var c := kc.(color := Red);
      ghost var s := store[..];
      See(c, k);
      AtPlug(s, root, c, k);
      PlugSlots(c, k);
      PlugSlots(c, Nil);
      store[node] := store[node].(right := store[toCopy].right);
      store[node] := store[node].(left := store[toCopy].left);
      tree := Plug(c, Nil);
      Detach(s, store[..], root, c, k);
      AtPlug(store[..], root, c, Nil);
      assert Focus(ctx, Bin(Nil, kc.cell, Red, Nil));
      Finish(node, toCopy, ctx, Bin(Nil, kc.cell, Red, Nil));
    }

    method Finish(node: Ptr, gone: Ptr, ghost ctx: Ctx, ghost t: Tree)
      requires Valid() && Focus(ctx, t) && t.Bin? && node == RootSlot(t)
      requires 0 <= gone < used && gone !in Slots(tree) && store[gone].flags == 3
      modifies this`tree, store
      ensures Valid() && tree == Plug(ctx, if ctx.Top? then Paint(t, Black) else t) && Dropped(gone)
    {
      See(ctx, t);
      See(Top, tree);
      PlugSlots(ctx, t);
      BlackRootSlots(tree, node);
      BlackenIfRoot(node);
      Release(gone, true, Top, Nil);
    }

    /** `delete_node`. On the only node it goes on to its null parent and faults; otherwise the tree
        becomes what `Delete` says. */
    method DeleteNode(node: Ptr, ghost ctx: Ctx, ghost t: Tree) returns (fault: bool)
      requires Valid() && Focus(ctx, t) && t.Bin? && RedBlack(tree) && node == RootSlot(t)
      modifies this`root, this`tree, store
      ensures fault <==> ctx.Top? && t.left == Nil && t.right == Nil
      ensures fault ==> root == NULL && Dropped(node)
      ensures !fault ==> Dropped(Released(t))
      ensures fault <==> !Deletable(ctx, t)
      ensures !fault ==> Shaped() && tree == Delete(ctx, t) && used == old(used)
      ensures !fault && (t.left == Nil && t.right == Nil ==> SideTestAgrees(ctx, t)) ==> Valid()
    {
      fault := false;
      See(ctx, t);
      See(InLeft(ctx, t.cell, t.color, t.right), t.left);
      See(InRight(t.left, t.cell, t.color, ctx), t.right);
      if node == root && store[node].left == NULL && store[node].right == NULL {
        root := NULL;
        FreeNodeObj(node);
        return true;
      }
      if store[node].left == NULL && store[node].right == NULL {
        DeleteLeaf(node, ctx, t);
        return;
      }
      if store[node].left != NULL && store[node].right != NULL {
        DeleteInner(node, ctx, t);
        return;
      }
      DeleteOnlyChild(node, ctx, t);
    }
  }
}
