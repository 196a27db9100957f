/** A run from the single block of `create_vmm` to a tree on which the next allocation goes wrong. */
module AddressFaults {
  import opened Common
  import opened RedBlackTree
  import opened FreeTreeSpec
  import opened AddressRanges
  import opened AddressRuns

  /** Ten pages of address space. */
  const WHOLE := Block(0, 10 * PAGE)

  /** One page on the free list. */
  function Page(slot: Ptr, number: nat): Cell { Cell(slot, Block(number * PAGE, PAGE)) }

  /** The seven pages that are never handed out. */
  const REST := Cell(0, Block(3 * PAGE, 7 * PAGE))

  function Leaf(n: Cell, c: Color): Tree { Bin(Nil, n, c, Nil) }

  /** The tree after one, two and three pages were given back. */
  function Tree1(): Tree { Bin(Leaf(Page(2, 0), Red), REST, Black, Nil) }
  function Tree2(): Tree { Bin(Leaf(Page(3, 1), Red), Page(2, 0), Black, Leaf(REST, Red)) }
  function Tree3(): Tree {
    Bin(Bin(Leaf(Page(4, 2), Red), Page(3, 1), Black, Nil), Page(2, 0), Black, Leaf(REST, Black))
  }

  /** The ranges that the handed-out one falls into. */
  function Pieces(k: nat): seq<Block>
    requires k <= 3
  {
    seq(k, i requires 0 <= i < k => Block(i * PAGE, 0)) + [Block(k * PAGE, (3 - k) * PAGE)]
  }

  lemma TreesGrow()
    ensures RedBlack(Leaf(REST, Black)) && Insert(Leaf(REST, Black), Page(2, 0)) == Tree1()
    ensures RedBlack(Tree1()) && Insert(Tree1(), Page(3, 1)) == Tree2()
    ensures RedBlack(Tree2()) && Insert(Tree2(), Page(4, 2)) == Tree3()
    ensures RedBlack(Tree3())
  {
    FirstGrows();
    SecondGrows();
    ThirdGrows();
  }

  lemma FirstGrows()
    ensures RedBlack(Leaf(REST, Black)) && Insert(Leaf(REST, Black), Page(2, 0)) == Tree1() && RedBlack(Tree1())
  {
    var ctx := InLeft(Top, REST, Black, Nil);
    SingleNode(REST);
    assert Descend(Top, Leaf(REST, Black), PAGE) == ctx;
    PlugRedBlack(ctx, Nil);
    assert InsertFix(ctx, Leaf(Page(2, 0), Red)) == Plug(ctx, Leaf(Page(2, 0), Red));
    assert Fair(Leaf(Page(2, 0), Red)) && Doubles(Leaf(Page(2, 0), Red)) == 0;
  }

  lemma SecondGrows()
    requires RedBlack(Tree1())
    ensures Insert(Tree1(), Page(3, 1)) == Tree2() && RedBlack(Tree2())
  {
    var up := InLeft(Top, REST, Black, Nil);
    var ctx := InLeft(up, Page(2, 0), Red, Nil);
    assert Descend(Top, Tree1(), PAGE) == ctx;
    PlugRedBlack(ctx, Nil);
    assert Rotated(ctx, Leaf(Page(3, 1), Red)) == Tree2();
  }

  lemma ThirdGrows()
    requires RedBlack(Tree2())
    ensures Insert(Tree2(), Page(4, 2)) == Tree3() && RedBlack(Tree3())
  {
    var up := InLeft(Top, Page(2, 0), Black, Leaf(REST, Red));
    var ctx := InLeft(up, Page(3, 1), Red, Nil);
    assert Descend(Top, Tree2(), PAGE) == ctx;
    PlugRedBlack(ctx, Nil);
    var r := Recolored(ctx, Leaf(Page(4, 2), Red));
    assert r == Bin(Bin(Leaf(Page(4, 2), Red), Page(3, 1), Black, Nil), Page(2, 0), Red, Leaf(REST, Black));
    assert InsertFix(Top, r) == Tree3();
  }

  lemma PiecesSplit(k: nat)
    requires k < 3
    ensures |Pieces(k)| == k + 1 && PAGE <= Pieces(k)[k].size
    ensures PageOf(Pieces(k)[k], 0) == Block(k * PAGE, PAGE) && WithoutPage(Pieces(k), k, 0) == Pieces(k + 1)
  {
    var b := Pieces(k)[k];
    assert b == Block(k * PAGE, (3 - k) * PAGE);
    assert Remainder(b, 0) == b && Remainder(b, PAGE) == Block((k + 1) * PAGE, (3 - (k + 1)) * PAGE);
    assert WithoutPage(Pieces(k), k, 0) == Pieces(k)[..k] + [Block(k * PAGE, 0)] + [Remainder(b, PAGE)];
  }

  /** A run may be told from its first request on. */
  lemma RunFirst(s: Space, r: Request, s': Space, rs: seq<Request>, whole: Block, t: Tree, taken: seq<Block>)
    requires Consistent(s, whole) && whole.size <= WORD && s.next !in SlotSet(Cells(s.tree)) && Enabled(s, r)
    requires Step(s, r) == s'
    ensures Consistent(s', whole)
    ensures RunsTo(s', rs, whole, t, taken) ==> RunsTo(s, [r] + rs, whole, t, taken)
  {
    StepKeeps(s, r, whole);
    assert ([r] + rs)[0] == r && ([r] + rs)[1..] == rs;
  }

  /** One page is given back. */
  lemma GiveBack(k: nat, t: Tree, t': Tree, rs: seq<Request>, last: Tree, taken: seq<Block>)
    requires k < 3 && Consistent(Space(t, k + 2, Pieces(k)), WHOLE) && Insert(t, Page(k + 2, k)) == t'
    ensures Consistent(Space(t', k + 3, Pieces(k + 1)), WHOLE)
    ensures RunsTo(Space(t', k + 3, Pieces(k + 1)), rs, WHOLE, last, taken) ==>
              RunsTo(Space(t, k + 2, Pieces(k)), [Free(k, 0)] + rs, WHOLE, last, taken)
  {
    var s := Space(t, k + 2, Pieces(k));
    PiecesSplit(k);
    ConsistentFresh(s, WHOLE);
    RunFirst(s, Free(k, 0), Space(t', k + 3, Pieces(k + 1)), rs, WHOLE, last, taken);
  }

  function Requests(): seq<Request> { [Alloc(3 * PAGE)] + GivingBack() }
  function GivingBack(): seq<Request> { [Free(0, 0)] + ([Free(1, 0)] + ([Free(2, 0)] + [])) }

  lemma GiveBackAll()
    requires Consistent(Space(Leaf(REST, Black), 2, Pieces(0)), WHOLE)
    ensures Consistent(Space(Tree3(), 5, Pieces(3)), WHOLE)
    ensures RunsTo(Space(Leaf(REST, Black), 2, Pieces(0)), GivingBack(), WHOLE, Tree3(), Pieces(3))
  {
    TreesGrow();
    var f3 := [Free(2, 0)] + [];
    var f2 := [Free(1, 0)] + f3;
    GiveBack(0, Leaf(REST, Black), Tree1(), f2, Tree3(), Pieces(3));
    GiveBack(1, Tree1(), Tree2(), f3, Tree3(), Pieces(3));
    GiveBack(2, Tree2(), Tree3(), [], Tree3(), Pieces(3));
  }

  /** After three pages were allocated and given back one by one, taking one page loses another one, and taking the
      other block whole leaves no red-black tree: neither request is enabled. */
  lemma RunGoesWrong()
    ensures Consistent(Fresh(WHOLE), WHOLE) && RunsTo(Fresh(WHOLE), Requests(), WHOLE, Tree3(), Pieces(3))
    ensures Consistent(Space(Tree3(), 5, Pieces(3)), WHOLE) && 5 !in SlotSet(Cells(Tree3()))
    ensures Found(Tree3(), Zip(Top, Tree3()), PAGE) && Survives(Tree3(), Zip(Top, Tree3()), PAGE)
    ensures LosesBlock(Tree3(), Zip(Top, Tree3()), PAGE, 5)
            && LostBlock(Tree3(), Zip(Top, Tree3()), PAGE, 5) == Block(2 * PAGE, PAGE)
    ensures !Enabled(Space(Tree3(), 5, Pieces(3)), Alloc(PAGE))
    ensures !Enabled(Space(Tree3(), 5, Pieces(3)), Alloc(7 * PAGE))
  {
    FreshConsistent(WHOLE);
    var s, s0 := Fresh(WHOLE), Space(Leaf(REST, Black), 2, Pieces(0));
    AloneStep(s, WHOLE, 3 * PAGE);
    assert s.taken + [Block(0, 3 * PAGE)] == Pieces(0);
    RunFirst(s, Alloc(3 * PAGE), s0, GivingBack(), WHOLE, Tree3(), Pieces(3));
    GiveBackAll();
    TreeThreeFails();
  }

  lemma TreeThreeFails()
    requires Consistent(Space(Tree3(), 5, Pieces(3)), WHOLE)
    ensures 5 !in SlotSet(Cells(Tree3()))
    ensures Found(Tree3(), Zip(Top, Tree3()), PAGE) && Survives(Tree3(), Zip(Top, Tree3()), PAGE)
    ensures LosesBlock(Tree3(), Zip(Top, Tree3()), PAGE, 5)
            && LostBlock(Tree3(), Zip(Top, Tree3()), PAGE, 5) == Block(2 * PAGE, PAGE)
    ensures !Enabled(Space(Tree3(), 5, Pieces(3)), Alloc(PAGE))
    ensures !Enabled(Space(Tree3(), 5, Pieces(3)), Alloc(7 * PAGE))
  {
    ConsistentFresh(Space(Tree3(), 5, Pieces(3)), WHOLE);
    var left := Bin(Leaf(Page(4, 2), Red), Page(3, 1), Black, Nil);
    var ctx := InRight(left, Page(2, 0), Black, Top);
    assert Best(Tree3(), 7 * PAGE) == Some(Zip(ctx, Leaf(REST, Black)));
    assert Stalls(ctx);
  }
}
