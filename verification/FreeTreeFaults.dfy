/** Small trees on which `delete_node` does not do what it is for. Each of them is a red-black tree, and each
    shows one of the branches that the conditions `TakesOne` and `StaysRedBlack` are about. */
module FreeTreeFaults {
  import opened RedBlackTree
  import opened FreeTreeSpec

  function Of(slot: Ptr, size: nat): Cell { Cell(slot, Block(0, size)) }

  function Leaf(slot: Ptr, size: nat, c: Color): Tree { Bin(Nil, Of(slot, size), c, Nil) }

  /** The fix-up does nothing where only the far nephew is red, so one side stays one black node short. */
  lemma FarNephewStalls()
    ensures var right := Bin(Nil, Of(2, 20), Black, Leaf(3, 30, Red));
            var ctx := InLeft(Top, Of(0, 10), Black, right);
            && Deletable(ctx, Leaf(1, 5, Black)) && Stalls(ctx)
            && Delete(ctx, Leaf(1, 5, Black)) == Bin(Nil, Of(0, 10), Black, right)
            && !RedBlack(Delete(ctx, Leaf(1, 5, Black)))
  {
    var right := Bin(Nil, Of(2, 20), Black, Leaf(3, 30, Red));
    var ctx := InLeft(Top, Of(0, 10), Black, right);
    assert RedBlack(Plug(ctx, Leaf(1, 5, Black)));
    PlugRedBlack(ctx, Leaf(1, 5, Black));
    assert Fix(ctx, Black) == Fixed(ctx, DoubleBlack);
  }

  /** Three insertions of blocks of one size put one of them on the right of another. Deleting that one cuts off
      the left one instead. */
  lemma EqualSizesMislead()
    ensures var t := Insert(Insert(Insert(Nil, Of(0, 8)), Of(1, 8)), Of(2, 8));
            var ctx := InRight(Leaf(2, 8, Red), Of(1, 8), Black, Top);
            && t == Plug(ctx, Leaf(0, 8, Red)) && Deletable(ctx, Leaf(0, 8, Red)) && !TakesOne(ctx, Leaf(0, 8, Red))
            && Cells(Delete(ctx, Leaf(0, 8, Red))) == [Of(1, 8), Of(0, 8)]
  {
    var ctx := InRight(Leaf(2, 8, Red), Of(1, 8), Black, Top);
    assert Insert(Nil, Of(0, 8)) == Leaf(0, 8, Black);
    assert Insert(Leaf(0, 8, Black), Of(1, 8)) == Bin(Leaf(1, 8, Red), Of(0, 8), Black, Nil);
    assert RedBlack(Plug(ctx, Leaf(0, 8, Red)));
  }

  /** The predecessor's red child is lost when the predecessor moves up. */
  lemma PredecessorDropsChild()
    ensures var left := Bin(Leaf(2, 5, Red), Of(1, 10), Black, Nil);
            var t := Bin(left, Of(0, 20), Black, Leaf(3, 30, Black));
            && Deletable(Top, t) && !TakesOne(Top, t)
            && Delete(Top, t) == Bin(Nil, Of(0, 10), Black, Leaf(3, 30, Red))
  {
    var left := Bin(Leaf(2, 5, Red), Of(1, 10), Black, Nil);
    var t := Bin(left, Of(0, 20), Black, Leaf(3, 30, Black));
    assert RedBlack(Plug(Top, t));
  }

  /** A node below the root takes its only child's red colour, so its side is one black node short. */
  lemma OnlyChildReddens()
    ensures var ctx := InLeft(Top, Of(0, 20), Black, Leaf(3, 30, Black));
            var t := Bin(Leaf(2, 5, Red), Of(1, 10), Black, Nil);
            && Deletable(ctx, t)
            && Delete(ctx, t) == Bin(Leaf(1, 5, Red), Of(0, 20), Black, Leaf(3, 30, Black))
            && !RedBlack(Delete(ctx, t))
  {
    var ctx := InLeft(Top, Of(0, 20), Black, Leaf(3, 30, Black));
    var t := Bin(Leaf(2, 5, Red), Of(1, 10), Black, Nil);
    assert RedBlack(Plug(ctx, t));
  }
}
