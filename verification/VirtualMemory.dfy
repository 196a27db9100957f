/** The virtual allocator of `kernel/memory/vmm.c`: best fit on the free tree, with splitting. */
module VirtualMemory {
  import opened Common
  import opened RedBlackTree
  import opened FreeTreeSpec
  import opened NodeStore
  import opened AddressRanges
  import opened AddressRuns
  import opened FreeTree

  /** NoMemory is the null result; Fault is the null dereference when the only block is taken whole. */
  datatype Reserved = NoMemory | Fault | Got(base: nat)

  /** A range starts where a smallest free block of at least `length` bytes does; there is none only if there is no such
      block. */
  predicate Fitting(t: Tree, length: nat, r: Reserved) {
    && (r.NoMemory? ==> forall n :: n in Cells(t) ==> n.block.size < length)
    && (r.Got? ==> exists n :: n in Cells(t) && n.block.base == r.base && n.block.size >= length &&
                               Smallest(t, length, n))
  }

  /** No smaller block is large enough. */
  predicate Smallest(t: Tree, length: nat, n: Cell) {
    forall c :: c in Cells(t) && c.block.size >= length ==> n.block.size <= c.block.size
  }

  class Vmm {
    const free: FreeTree
    const low: nat
    const high: nat

    /** `create_vmm`: one free block from `low`, rounded up, whose size is `high`. */
    constructor (low: nat, high: nat, capacity: nat)
      requires capacity > 0
      ensures free.Valid() && fresh(free) && fresh(free.store) && free.store.Length == capacity
      ensures this.low == PageUp(low) && this.high == high
      ensures low <= WORD - PAGE ==> low <= this.low < low + PAGE && this.low % PAGE == 0
      ensures Space(free.tree, free.used, []) == AddressRuns.Fresh(Block(this.low, high))
      ensures PagesOnly(Blocks(Cells(free.tree)))
    {
      var f := new FreeTree(capacity);
      free := f;
      this.low := PageUp(low);
      this.high := high;
      new;
      var _ := f.MakeNode(this.low, high, 0);
      PageUpPages(low);
      assert Cells(free.tree) == [Cell(0, Block(this.low, high))];
    }

    /** The search loop of `vmm_page_alloc`, with the number of its rounds. */
    method FindBest(length: nat) returns (best: Ptr, ghost rounds: nat)
      requires free.Valid() && Ready(free.tree)
      ensures best == if Best(free.tree, length).None? then NULL else RootSlot(Best(free.tree, length).value.tree)
      ensures var n := |Cells(free.tree)|; Pow2(rounds) <= (n + 1) * (n + 1)
    {
      ghost var t := free.tree;
      free.See(Top, t);
      var current := free.root;
      best := NULL;
      rounds := 0;
      ghost var c, s := Top, t;
      while current != NULL
        invariant free.Focus(c, s) && current == RootSlot(s)
        invariant Search(c, s, length) == Search(Top, t, length)
        invariant best == if After(c) == [] then NULL else After(c)[0].slot
        invariant rounds + Levels(s) <= Levels(t)
        decreases s
      {
        free.See(c, s);
        rounds := rounds + 1;
        if free.store[current].size == length {
          best := current;
          break;
        }
        if free.store[current].size <= length {
          current := free.store[current].right;
          c, s := InRight(s.left, s.cell, s.color, c), s.right;
        } else {
          best := current;
          current := free.store[current].left;
          c, s := InLeft(c, s.cell, s.color, s.right), s.left;
        }
      }
      free.See(c, s);
      if s == Nil && After(c) != [] {
        NextPlug(c, s, After(c)[0].block);
      }
      LogBound(t);
      Pow2Monotone(rounds, Levels(t));
    }

    /** The address-space part of `vmm_page_alloc`: search, resizing and deletion. It is the step of module
        `AddressRuns`, whatever was handed out before. */
    method Reserve(size: nat, ghost taken: seq<Block>) returns (r: Reserved, ghost rounds: nat)
      requires free.Valid() && Ready(free.tree) && free.used < free.store.Length && PageUp(size) > 0
      modifies free, free.store
      ensures var (t, length) := (old(free.tree), PageUp(size));
              var z := Best(t, length);
              match r
              case NoMemory => z.None? && free.tree == t && free.used == old(free.used) && free.Valid()
              case Fault => z.Some? && !Survives(t, z.value, length)
              case Got(base) =>
                && free.Valid() && z.Some? && z.value.tree.Bin? && base == z.value.tree.cell.block.base
                && old(free.used) !in SlotSet(Cells(t)) && Survives(t, z.value, length)
                && free.tree == Taken(t, z.value, length, old(free.used))
                && free.used == old(free.used) + (if z.value.tree.cell.block.size > length then 1 else 0)
      ensures old(free.used) !in SlotSet(Cells(old(free.tree)))
      ensures Fitting(old(free.tree), PageUp(size), r)
      ensures size <= WORD - PAGE ==> size <= PageUp(size) < size + PAGE && PageUp(size) % PAGE == 0
      ensures var (s, request) := (Space(old(free.tree), old(free.used), taken), Alloc(PageUp(size)));
              Enabled(s, request) ==>
                !r.Fault? &&
                Step(s, request) ==
                Space(free.tree, free.used, taken + if r.Got? then [Block(r.base, PageUp(size))] else [])
      ensures PagesOnly(Blocks(Cells(old(free.tree)))) && r.Got? ==> PagesOnly(Blocks(Cells(free.tree))) &&
                                                                     OnPage(r.base)
    {
      var length := PageUp(size);
      ghost var t, slot := free.tree, free.used;
      CellSlots(t);
      BestFit(t, length);
      PageUpPages(size);
      var best;
      best, rounds := FindBest(length);
      if best == NULL {
        ghost var z := Best(t, length);
        if z.Some? { free.See(z.value.ctx, z.value.tree); }
        return NoMemory, rounds;
      }
      r := Take(best, length, Best(t, length).value);
      assert Smallest(t, length, Best(t, length).value.tree.cell);
      if PagesOnly(Blocks(Cells(t))) && r.Got? {
        TakenOnPages(t, Best(t, length).value, length, slot);
      }
    }

    /** Resizing and deletion, once the block is chosen. */
    method Take(best: Ptr, length: nat, ghost z: Zip) returns (r: Reserved)
      requires free.Valid() && Ready(free.tree) && free.used < free.store.Length && length > 0
      requires Found(free.tree, z, length) && best == RootSlot(z.tree) && free.used !in SlotSet(Cells(free.tree))
      modifies free, free.store
      ensures !r.NoMemory? && z.tree.Bin? && (r.Fault? <==> !Survives(old(free.tree), z, length))
      ensures r.Got? ==>
                && free.Valid() && r.base == z.tree.cell.block.base
                && free.tree == Taken(old(free.tree), z, length, old(free.used))
                && free.used == old(free.used) + (if z.tree.cell.block.size > length then 1 else 0)
    {
      ghost var t, slot := free.tree, free.used;
      ReservePlan(t, z, length, slot);
      free.See(z.ctx, z.tree);
      ghost var v := Victim(t, z, length, slot);
      if free.store[best].size > length {
        var _ := free.MakeNode((free.store[best].base + length) % WORD, free.store[best].size - length, 0);
      }
      free.See(v.ctx, v.tree);
      var base := free.store[best].base;
      var fault := free.DeleteNode(best, v.ctx, v.tree);
      r := if fault then Fault else Got(base);
    }
  }

  /** The chosen node before and after the resizing step. */
  lemma ReservePlan(t: Tree, z: Zip, length: nat, slot: Ptr)
    requires Ready(t) && Found(t, z, length) && slot !in SlotSet(Cells(t)) && length > 0
    ensures z.tree.Bin? && z.tree.cell.block.size >= length && Plug(z.ctx, z.tree) == t
    ensures var v := Victim(t, z, length, slot);
            && v.tree.Bin? && v.tree.cell == z.tree.cell
            && Plug(v.ctx, v.tree) == Resized(t, z.tree.cell.block, length, slot)
            && RedBlack(Resized(t, z.tree.cell.block, length, slot))
            && (Survives(t, z, length) <==> Deletable(v.ctx, v.tree))
            && (v.tree.left == Nil && v.tree.right == Nil && !v.ctx.Top? ==> SideTestAgrees(v.ctx, v.tree))
  {
    BestFit(t, length);
    VictimThere(t, z, length, slot);
    VictimCells(t, z, length, slot);
    VictimDeletable(t, z, length, slot);
    VictimSide(t, z, length, slot);
  }
}
