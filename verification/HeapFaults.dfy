/** Short runs after which the heap's links no longer lead to a neighbour. */
module HeapFaults {
  import opened HeapBytes
  import opened HeapBlocks
  import opened HeapLayout
  import opened HeapUse
  import opened HeapGrowth
  import opened Heap
  import opened ArrayList

  lemma Rounds()
    ensures Round(32) == 32 && Round(64) == 64 && Round(128) == 128
    ensures Round(1 + LIST) == 32 && Round(20 + LIST) == 32 && Round(64 + LIST) == 96 && Round(14) == 32
  {
  }

  /** The blocks after two allocations, after a release of the first one, after two more allocations that split it, and
      after the release of the first one again. */
  function Two(free: bool): seq<Block> { [Block(16, 128, free, 0, 160), Block(160, 32, false, 16, 0)] }

  function Split(free: bool): seq<Block> {
    [Block(16, 32, false, 0, 64), Block(64, 80, free, if free then 0 else 16, 160), Block(160, 32, false, 16, 0)]
  }

  function Stale(): seq<Block> {
    [Block(16, 32, true, 0, 64), Block(64, 80, false, 16, 160), Block(160, 32, false, 16, 0)]
  }

  /** After that run the last block's `prev` leads past a used block to a free one. */
  lemma StaleRun()
    ensures FirstFit([], 128) == 0 && AfterKalloc([], 16, 128) == [Block(16, 128, false, 0, 0)]
    ensures FirstFit([Block(16, 128, false, 0, 0)], 32) == 1 &&
            AfterKalloc([Block(16, 128, false, 0, 0)], 160, 32) == Two(false)
    ensures AfterKfree(Two(false), 0) == Two(true)
    ensures FirstFit(Two(true), 32) == 0 && AfterKalloc(Two(true), 208, 32) == Split(true)
    ensures FirstFit(Split(true), 64) == 1 && AfterKalloc(Split(true), 208, 64) == Split(false)
    ensures AfterKfree(Split(false), 0) == Stale() && !PrevListed(Stale(), 2) && Stale()[2].prev == Stale()[0].addr
  {
    assert AfterKalloc([], 16, 128) == [Block(16, 128, false, 0, 0)];
    FirstFitIs([Block(16, 128, false, 0, 0)], 32, 1);
    assert AfterKalloc([Block(16, 128, false, 0, 0)], 160, 32) == Two(false);
    FirstFitIs(Two(true), 32, 0);
    assert AfterKalloc(Two(true), 208, 32) == Split(true);
    FirstFitIs(Split(true), 64, 1);
    assert AfterKalloc(Split(true), 208, 64) == Split(false);
    assert AfterKfree(Split(false), 0) == Stale();
  }

  /** The blocks after three allocations of 32 bytes in a row, and after a release of the second one. */
  function Three(): seq<Block> {
    [Block(16, 32, false, 0, 64), Block(64, 32, false, 16, 112), Block(112, 32, false, 64, 0)]
  }

  function Punched(): seq<Block> {
    [Block(16, 32, false, 0, 64), Block(64, 32, true, 16, 112), Block(112, 32, false, 64, 0)]
  }

  lemma ThreeBlocks()
    ensures FirstFit([], 32) == 0
    ensures var b1 := AfterKalloc([], 16, 32);
            && b1 == [Block(16, 32, false, 0, 0)] && FirstFit(b1, 32) == 1
    ensures var b2 := AfterKalloc([Block(16, 32, false, 0, 0)], 64, 32);
            && b2 == [Block(16, 32, false, 0, 64), Block(64, 32, false, 16, 0)] && FirstFit(b2, 32) == 2
    ensures FirstFit([Block(16, 32, false, 0, 64), Block(64, 32, false, 16, 0)], 32) == 2
    ensures AfterKalloc([Block(16, 32, false, 0, 64), Block(64, 32, false, 16, 0)], 112, 32) == Three()
    ensures AfterKfree(Three(), 1) == Punched()
  {
    assert AfterKalloc([], 16, 32) == [Block(16, 32, false, 0, 0)];
    FirstFitIs([Block(16, 32, false, 0, 0)], 32, 1);
    var b2 := AfterKalloc([Block(16, 32, false, 0, 0)], 64, 32);
    assert b2 == [Block(16, 32, false, 0, 64), Block(64, 32, false, 16, 0)];
    FirstFitIs(b2, 32, 2);
    assert AfterKalloc(b2, 112, 32) == Three();
    assert AfterKfree(Three(), 1) == Punched();
  }

  /** Releasing the first block merges the second one away, and the third one's `prev` leads to its header. */
  lemma PunchedMerges()
    ensures Absorbs(Punched(), 0)
    ensures AfterKfree(Punched(), 0) == [Block(16, 80, true, 0, 112), Block(112, 32, false, 64, 0)]
  {
    var r := AfterKfree(Punched(), 0);
    assert r == [Block(16, 80, true, 0, 112)] + Punched()[2..];
  }

  /** An exact fit leaves a header between two blocks that no link leads to. */
  lemma ExactFitUnlinked()
    ensures NextSound(Punched()) && Absorbs(Punched(), 0) && Room(Punched(), 0) == 64
    ensures var r := Spliced(Punched(), 0, 2, Resized(Punched(), 0, 64));
            && r == [Block(16, 64, false, 0, 112), Block(96, 0, true, 0, 0), Block(112, 32, false, 64, 0)]
            && !LinkSound(r, 0)
  {
    var r := Spliced(Punched(), 0, 2, Resized(Punched(), 0, 64));
    assert r == Resized(Punched(), 0, 64) + Punched()[2..];
  }

  /** The heap is not tiled by these blocks. */
  ghost predicate Broken(h: Heap, expected: seq<Block>)
    reads h, h.mem
  {
    !(Tiled(h.mem[..], h.start, h.pos) && Walk(h.mem[..], h.start, h.pos) == expected)
  }

  /** A release whose links are listed. */
  method Free(h: Heap, ptr: nat, ghost i: nat)
    requires h.Valid() && i < |h.blocks| && ptr == h.blocks[i].Payload() && PrevListed(h.blocks, i)
    requires NextListed(h.blocks, i) && Harmless(h.blocks, PassedOn(h.blocks, i))
    modifies h, h.mem
    ensures h.Valid() && h.blocks == AfterKfree(old(h.blocks), i) && h.pos == old(h.pos)
    ensures Used(h.blocks) == Used(old(h.blocks)) - {(old(h.blocks)[i].addr, old(h.blocks)[i].size)}
    ensures KeepsAll(old(h.mem[..]), h.mem[..], Used(old(h.blocks)))
    ensures Absorbs(old(h.blocks), i) ==> h.ReadsFree(old(h.blocks)[i + 1].addr)
  {
    PrevListedSafe(h.mem[..], h.blocks, h.start, h.pos, i);
    NextListedSafe(h.mem[..], h.blocks, h.start, h.pos, i);
    var _ := h.Kfree(ptr, i);
  }

  /** The owner of a block writes a byte of it. */
  method Write(h: Heap, a: nat, b: Byte, ghost u: (nat, nat))
    requires h.Valid() && u in Used(h.blocks) && u.0 + HEADER <= a < u.0 + HEADER + u.1
    modifies h.mem
    ensures h.Valid() && a < h.mem.Length && h.mem[..] == old(h.mem[..])[a := b]
    ensures KeepsAll(old(h.mem[..]), h.mem[..], Used(h.blocks) - {u})
  {
    ghost var m := h.mem[..];
    UsedWithin(h.blocks, h.start, h.pos, u);
    h.mem[a] := b;
    PayloadWritten(m, h.mem[..], h.blocks, h.start, h.pos, u);
  }

  /** The heap after three allocations and a release of the second block. */
  method PunchedHeap() returns (h: Heap)
    ensures fresh(h) && fresh(h.mem) && h.Valid() && h.blocks == Punched() && h.start == 16 && h.pos == 160
    ensures h.mem.Length == 4096
  {
    h := new Heap(16, 4096);
    var a, b := AllocateThree(h);
    ThreeBlocks();
    assert PrevAt(Three(), 1, 0) && NextAt(Three(), 1, 2);
    Free(h, b, 1);
  }

  /** So after three allocations, a release of the second block and one of the first, the third block cannot be
      released without breaking the tiling: its `prev` leads to a swallowed header that still reads as free. */
  method ForwardMergeRun() returns (h: Heap)
    ensures Broken(h, [Block(16, 80, true, 0, 112), Block(112, 32, true, 64, 0)])
  {
    h := PunchedHeap();
    PunchedMerges();
    assert NextAt(Punched(), 0, 1);
    Free(h, 32, 0);
    ReleaseMerged(h);
  }

  method ReleaseMerged(h: Heap)
    requires h.Valid() && h.blocks == [Block(16, 80, true, 0, 112), Block(112, 32, false, 64, 0)] && h.ReadsFree(64)
    modifies h, h.mem
    ensures Broken(h, [Block(16, 80, true, 0, 112), Block(112, 32, true, 64, 0)])
  {
    FreedReads(h.mem[..], h.blocks, h.start, h.pos, 1);
    assert AfterKfree(h.blocks, 1) == [Block(16, 80, true, 0, 112), Block(112, 32, true, 64, 0)];
    var _ := h.Kfree(128, 1);
  }

  /** The blocks after an exact fit of the first block, and after a release of the third one. */
  function Unlinked(free: bool): seq<Block> {
    [Block(16, 64, false, 0, 112), Block(96, 0, true, 0, 0), Block(112, 32, free, 64, 0)]
  }

  /** After an exact fit the first block links past a header to the third one. Once that one is free, releasing the
      first block breaks the tiling, although its `prev` is null: it takes in the third block, but not the header
      between them. The owner's byte at 68 is where the third block's `prev` leads to. */
  method SkippedHeaderRun() returns (h: Heap)
    ensures Broken(h, [Block(16, 64, true, 0, 112), Block(96, 0, true, 0, 0), Block(112, 32, true, 64, 0)])
  {
    h := UnlinkedHeap();
    ReleaseFirst(h);
  }

  method UnlinkedHeap() returns (h: Heap)
    ensures fresh(h) && fresh(h.mem) && h.Valid() && h.blocks == Unlinked(true) && h.start == 16 && h.pos == 160
    ensures h.mem.Length > 160 && h.mem[144] == 1
  {
    h := PunchedHeap();
    ExactFit(h, 32);
    assert (112, 32) in Used(h.blocks);
    Write(h, 144, 1, (112, 32));
    Write(h, 68, 1, (16, 64));
    ReleaseThird(h);
  }

  method ReleaseThird(h: Heap)
    requires h.Valid() && h.blocks == Unlinked(false) && h.pos == 160 && 160 < h.mem.Length && h.mem[68] == 1
    modifies h, h.mem
    ensures h.Valid() && h.blocks == Unlinked(true) && h.pos == 160 && h.mem[144] == old(h.mem[144])
  {
    FreedReads(h.mem[..], h.blocks, h.start, h.pos, 2);
    assert LinksSafe(h.mem[..], h.blocks, 2) && AfterKfree(Unlinked(false), 2) == Unlinked(true);
    ghost var m, bs := h.mem[..], h.blocks;
    var _ := h.Kfree(128, 2);
    assert PayloadBut(m, h.mem[..], bs[2], 0);
  }

  /** Resizing the first block there to 32 bytes takes in the third one, but not the header between them. What is left
      ends where the third block's owner has written a byte, which the walk now takes for a size. */
  method SkippedHeaderGrows() returns (h: Heap)
    ensures !Tiled(h.mem[..], h.start, h.pos)
  {
    h := UnlinkedHeap();
    GrowsFirst(h);
  }

  method GrowsFirst(h: Heap)
    requires h.Valid() && h.blocks == Unlinked(true) && h.start == 16 && h.pos == 160
    requires h.mem.Length > 160 && h.mem[144] == 1
    modifies h, h.mem
    ensures !Tiled(h.mem[..], h.start, h.pos)
  {
    Rounds();
    FreedReads(h.mem[..], h.blocks, h.start, h.pos, 0);
    FreedReads(h.mem[..], h.blocks, h.start, h.pos, 2);
    ghost var m := h.mem[..];
    var _, _, _, _ := h.Rekalloc(32, 32, 0, (16, 64));
    assert GrownEnd(m, 16, 32) == 144;
    StrayByte(h.mem[..]);
  }

  lemma StrayByte(m: Bytes)
    requires 160 < |m| && m[144] == 1
    ensures !Tiled(m, 144, 160)
  {
    LoadIs(m, 144);
  }

  method ReleaseFirst(h: Heap)
    requires h.Valid() && h.blocks == Unlinked(true)
    modifies h, h.mem
    ensures Broken(h, Unlinked(true)[0 := Block(16, 64, true, 0, 112)])
  {
    FreedReads(h.mem[..], h.blocks, h.start, h.pos, 0);
    FreedReads(h.mem[..], h.blocks, h.start, h.pos, 2);
    assert Legible(h.mem[..], 16) && !NextSafe(h.mem[..], h.blocks, 0);
    assert AfterKfree(Unlinked(true), 0) == Unlinked(true)[0 := Block(16, 64, true, 0, 112)];
    var _ := h.Kfree(32, 0);
  }

  method ExactFit(h: Heap, a: nat)
    requires h.Valid() && h.blocks == Punched() && a == 32 && h.start == 16 && h.pos == 160
    modifies h, h.mem
    ensures h.Valid() && h.pos == 160
    ensures h.blocks == Unlinked(false)
    ensures Used(h.blocks) == {(16, 64), (112, 32)}
  {
    ExactFitUnlinked();
    UsedReads(h.mem[..], h.blocks, h.start, h.pos, 0);
    Rounds();
    var _, _, _, _ := h.Rekalloc(a, 64, 0, (16, 32));
    assert h.blocks[0] in h.blocks && h.blocks[2] in h.blocks;
  }

  method AllocateThree(h: Heap) returns (a: nat, b: nat)
    requires h.Valid() && h.blocks == [] && h.pos == h.start == 16 && h.mem.Length >= 160
    modifies h, h.mem
    ensures h.Valid() && h.blocks == Three() && a == 32 && b == 80 && h.pos == 160
  {
    ThreeBlocks();
    Rounds();
    ghost var got;
    a, got := h.Kalloc(32);
    b := AllocateTwo(h);
  }

  method AllocateTwo(h: Heap) returns (b: nat)
    requires h.Valid() && h.blocks == [Block(16, 32, false, 0, 0)] && h.pos == 64 && h.mem.Length >= 160
    modifies h, h.mem
    ensures h.Valid() && h.blocks == Three() && b == 80 && h.pos == 160
  {
    ThreeBlocks();
    Rounds();
    ghost var got;
    b, got := h.Kalloc(32);
    var _, _ := h.Kalloc(32);
  }

  /** The blocks of a list of 64-byte items, and of a short free block behind it. */
  function Cramped(): seq<Block> {
    [Block(16, 96, false, 0, 128), Block(128, 32, true, 16, 0)]
  }

  lemma CrampedBlocks()
    ensures FirstFit([], 96) == 0 && AfterKalloc([], 16, 96) == [Block(16, 96, false, 0, 0)]
    ensures FirstFit([Block(16, 96, false, 0, 0)], 32) == 1
    ensures AfterKalloc([Block(16, 96, false, 0, 0)], 128, 32)
         == [Block(16, 96, false, 0, 128), Block(128, 32, false, 16, 0)]
    ensures var b := [Block(16, 96, false, 0, 128), Block(128, 32, false, 16, 0)];
            PrevAt(b, 1, 0) && AfterKfree(b, 1) == Cramped()
    ensures Stuck(Cramped(), 0, 64, 1) && Used(Cramped()) == {(16, 96)}
  {
    assert AfterKalloc([], 16, 96) == [Block(16, 96, false, 0, 0)];
    FirstFitIs([Block(16, 96, false, 0, 0)], 32, 1);
    var b := [Block(16, 96, false, 0, 128), Block(128, 32, false, 16, 0)];
    assert AfterKalloc([Block(16, 96, false, 0, 0)], 128, 32) == b;
    assert AfterKfree(b, 1) == Cramped();
    assert NewSize(64, 1) == 140 && Round(140) == 160;
    assert Cramped()[0] in Cramped();
  }

  /** A list of one 64-byte item, an allocation behind it, and its release: the next addition faults. */
  method FullListFaults(item: seq<Byte>) returns (r: Added)
    requires |item| == 64
    ensures r.Fault?
  {
    var h := new Heap(16, 4096);
    CrampedBlocks();
    var al := FillList(h, item);
    Cramp(h, item);
    assert NextAt(Cramped(), 0, 1);
    ghost var got, max, j, taken;
    r, got, max, j, taken := AddItem(h, al, item, 0, (16, 96), 1, [item]);
  }

  method FillList(h: Heap, item: seq<Byte>) returns (al: nat)
    requires h.Valid() && h.blocks == [] && h.pos == h.start == 16 && h.mem.Length == 4096 && |item| == 64
    modifies h, h.mem
    ensures ListIn(h, (16, 96), 64, 1, [item]) && h.pos == 128 && h.blocks == [Block(16, 96, false, 0, 0)] && al == 32
  {
    CrampedBlocks();
    Rounds();
    ghost var got, max, j, taken;
    al, got := CreateArrayList(h, 64);
    var r;
    r, got, max, j, taken := AddItem(h, al, item, 0, got, 1, []);
    assert [] + [item] == [item];
  }

  method Cramp(h: Heap, item: seq<Byte>)
    requires ListIn(h, (16, 96), 64, 1, [item]) && h.pos == 128 && h.blocks == [Block(16, 96, false, 0, 0)]
    requires h.mem.Length == 4096
    modifies h, h.mem
    ensures ListIn(h, (16, 96), 64, 1, [item]) && h.blocks == Cramped()
  {
    CrampedBlocks();
    ghost var u, m, us := (16, 96), h.mem[..], Used(h.blocks);
    UsedWithin(h.blocks, h.start, h.pos, u);
    AllocateShort(h);
    ListStays(m, h.mem[..], u, 64, 1, [item], us);
    ghost var m1, us1 := h.mem[..], Used(h.blocks);
    Free(h, 144, 1);
    ListStays(m1, h.mem[..], u, 64, 1, [item], us1);
  }

  method AllocateShort(h: Heap)
    requires h.Valid() && h.blocks == [Block(16, 96, false, 0, 0)] && h.pos == 128 && h.mem.Length == 4096
    modifies h, h.mem
    ensures h.Valid() && h.blocks == [Block(16, 96, false, 0, 128), Block(128, 32, false, 16, 0)]
    ensures KeepsAll(old(h.mem[..]), h.mem[..], Used(old(h.blocks)))
  {
    CrampedBlocks();
    Rounds();
    var _, _ := h.Kalloc(32);
  }

  /** The blocks of a list of one 20-byte item, and of an allocation behind it. */
  function Beside(): seq<Block> { [Block(16, 32, false, 0, 64), Block(64, 32, false, 16, 0)] }

  /** In such a list, which is full, deleting at the index behind the item clears the header of the other block. */
  method ClearOverrunsRun(item: seq<Byte>) returns (r: Deleted)
    requires |item| == 20
    ensures r == Deleted.Overrun
  {
    var h := new Heap(16, 4096);
    FillShort(h, item);
    PutBeside(h, item);
    HeaderAt(h.mem[..], h.blocks, 1);
    NotCleared(h.mem[..]);
    r := DeleteItem(h, 32, 1, (16, 32), 20, 1, [item]);
  }

  lemma BesideBlocks()
    ensures FirstFit([], 32) == 0 && HandedOut([], 16, 32) == (16, 32)
    ensures AfterKalloc([], 16, 32) == [Block(16, 32, false, 0, 0)]
    ensures FirstFit([Block(16, 32, false, 0, 0)], 32) == 1
    ensures AfterKalloc([Block(16, 32, false, 0, 0)], 64, 32) == Beside()
    ensures (16, 32) in Used([Block(16, 32, false, 0, 0)]) && (16, 32) in Used(Beside())
  {
    ThreeBlocks();
    assert [Block(16, 32, false, 0, 0)][0] in [Block(16, 32, false, 0, 0)] && Beside()[0] in Beside();
  }

  method FillShort(h: Heap, item: seq<Byte>)
    requires h.Valid() && h.blocks == [] && h.pos == h.start == 16 && h.mem.Length == 4096 && |item| == 20
    modifies h, h.mem
    ensures ListIn(h, (16, 32), 20, 1, [item]) && h.pos == 64 && h.blocks == [Block(16, 32, false, 0, 0)]
  {
    StartShort(h);
    ghost var got, max, j, taken;
    var r;
    r, got, max, j, taken := AddItem(h, 32, item, 0, (16, 32), 1, []);
    assert [] + [item] == [item];
  }

  method StartShort(h: Heap)
    requires h.Valid() && h.blocks == [] && h.pos == h.start == 16 && h.mem.Length == 4096
    modifies h, h.mem
    ensures ListIn(h, (16, 32), 20, 1, []) && h.pos == 64 && h.blocks == [Block(16, 32, false, 0, 0)]
  {
    BesideBlocks();
    Rounds();
    var _, _ := CreateArrayList(h, 20);
  }

  method PutBeside(h: Heap, item: seq<Byte>)
    requires ListIn(h, (16, 32), 20, 1, [item]) && h.pos == 64 && h.blocks == [Block(16, 32, false, 0, 0)]
    requires h.mem.Length == 4096
    modifies h, h.mem
    ensures ListIn(h, (16, 32), 20, 1, [item]) && h.blocks == Beside()
  {
    BesideBlocks();
    ghost var m, us := h.mem[..], Used(h.blocks);
    AllocateSecond(h);
    ListStays(m, h.mem[..], (16, 32), 20, 1, [item], us);
  }

  method AllocateSecond(h: Heap)
    requires h.Valid() && h.pos == 64 && h.blocks == [Block(16, 32, false, 0, 0)] && h.mem.Length == 4096
    modifies h, h.mem
    ensures h.Valid() && h.blocks == Beside() && KeepsAll(old(h.mem[..]), h.mem[..], Used(old(h.blocks)))
  {
    BesideBlocks();
    Rounds();
    var _, _ := h.Kalloc(32);
  }

  lemma NotCleared(m: Bytes)
    requires 80 <= |m| && Load32(m, 64) == 32
    ensures ClearSpoils(m, Slot(32, 20, 1), 20, 64)
  {
    assert Slot(32, 20, 1) == Slot(32, 20, 0) + 20 == 60;
    if m[64] == m[65] == m[66] == m[67] == 0 { LoadZero(m, 64); }
  }

  // ------------------------------------------------------------------------------------------
  // Moves that go wrong
  // ------------------------------------------------------------------------------------------

  /** Three blocks in use, the last one of 64 bytes. */
  function Row(): seq<Block> {
    [Block(16, 32, false, 0, 64), Block(64, 32, false, 16, 112), Block(112, 64, false, 64, 0)]
  }

  function RowFree(k: nat): seq<Block>
    requires k < 3
  {
    Row()[k := Row()[k].(free := true)]
  }

  lemma RowBlocks()
    ensures FirstFit([], 32) == 0
    ensures AfterKalloc([], 16, 32) == [Block(16, 32, false, 0, 0)]
    ensures FirstFit([Block(16, 32, false, 0, 0)], 32) == 1
    ensures var b2 := [Block(16, 32, false, 0, 64), Block(64, 32, false, 16, 0)];
            && AfterKalloc([Block(16, 32, false, 0, 0)], 64, 32) == b2
            && FirstFit(b2, 64) == 2 && AfterKalloc(b2, 112, 64) == Row()
    ensures AfterKfree(Row(), 2) == RowFree(2) && AfterKfree(Row(), 0) == RowFree(0)
    ensures FirstFit(RowFree(2), 32) == 2 && AfterKalloc(RowFree(2), 192, 32) == Row()
    ensures FirstFit(RowFree(0), 32) == 0
  {
    assert AfterKalloc([], 16, 32) == [Block(16, 32, false, 0, 0)];
    FirstFitIs([Block(16, 32, false, 0, 0)], 32, 1);
    var b2 := [Block(16, 32, false, 0, 64), Block(64, 32, false, 16, 0)];
    assert AfterKalloc([Block(16, 32, false, 0, 0)], 64, 32) == b2;
    FirstFitIs(b2, 64, 2);
    assert AfterKalloc(b2, 112, 64) == Row();
    assert AfterKfree(Row(), 2) == RowFree(2) && AfterKfree(Row(), 0) == RowFree(0);
    FirstFitIs(RowFree(2), 32, 2);
    assert AfterKalloc(RowFree(2), 192, 32) == Row();
    FirstFitIs(RowFree(0), 32, 0);
  }

  lemma RowLinks()
    ensures PrevListed(Row(), 2) && NextListed(Row(), 2) && !Absorbs(Row(), 2) && PrevListed(Row(), 0) &&
            NextListed(Row(), 0)
    ensures Used(Row()) == {(16, 32), (64, 32), (112, 64)} && Harmless(Row(), PassedOn(Row(), 0)) && !Absorbs(Row(), 0)
  {
    assert PrevAt(Row(), 2, 1) && NextAt(Row(), 0, 1);
    assert Row()[0] in Row() && Row()[1] in Row() && Row()[2] in Row();
  }

  /** A list in a released block of 64 bytes that was not split, a full list then, and a free block of 32 bytes in
      front: the next addition moves the list there and copies all 64 bytes, over the block behind. */
  method MoveOverrunsRun(x: Byte, y: Byte) returns (r: Added)
    ensures r == Added.Lost
  {
    var h := RowHeap();
    ListInRow(h, [x]);
    FreeFront(h, [x]);
    r := AddToRow(h, [x], [y]);
  }

  method AddToRow(h: Heap, item: seq<Byte>, item': seq<Byte>) returns (r: Added)
    requires ListIn(h, (112, 64), 1, 1, [item]) && h.blocks == RowFree(0) && h.pos == 192 && |item'| == 1
    requires h.mem.Length == 4096 && h.mem[80] != h.mem[176]
    modifies h, h.mem
    ensures r == Added.Lost
  {
    RowBlocks();
    RowFreeLinks();
    NewSizeHolds(1, 1);
    Rounds();
    assert NewSize(1, 1) == 14;
    ghost var got, max, j, taken;
    r, got, max, j, taken := AddItem(h, 128, item', 2, (112, 64), 1, [item]);
    assert HandedOut(RowFree(0), 192, 32) == (16, 32);
    SlackDiffers(taken);
  }

  lemma SlackDiffers(m: Bytes)
    requires |m| == 4096 && m[80] != m[176]
    ensures Overruns(m, 32, 32, 128, 64)
  {
    assert m[64..96][16] == m[80] && m[160..192][16] == m[176];
  }

  lemma RowFreeLinks()
    ensures PrevListed(RowFree(0), 2) && NextListed(RowFree(0), 2) && !Absorbs(RowFree(0), 2)
    ensures Used(RowFree(0)) == {(64, 32), (112, 64)}
  {
    assert PrevAt(RowFree(0), 2, 1);
    assert RowFree(0)[1] in RowFree(0) && RowFree(0)[2] in RowFree(0);
  }

  method RowHeap() returns (h: Heap)
    ensures fresh(h) && fresh(h.mem) && h.Valid() && h.blocks == Row() && h.pos == 192 && h.mem.Length == 4096
  {
    h := new Heap(16, 4096);
    RowBlocks();
    Rounds();
    var _, _ := h.Kalloc(32);
    var _, _ := h.Kalloc(32);
    var _, _ := h.Kalloc(64);
  }

  /** The last block is released and reused for a list of one item. */
  method ListInRow(h: Heap, item: seq<Byte>)
    requires h.Valid() && h.blocks == Row() && h.pos == 192 && h.mem.Length == 4096 && |item| == 1
    modifies h, h.mem
    ensures ListIn(h, (112, 64), 1, 1, [item]) && h.blocks == Row() && h.pos == 192
  {
    RowBlocks();
    RowLinks();
    Free(h, 128, 2);
    ReuseThird(h);
    ghost var got, max, j, taken;
    var r;
    r, got, max, j, taken := AddItem(h, 128, item, 2, (112, 64), 1, []);
    assert [] + [item] == [item];
  }

  method ReuseThird(h: Heap)
    requires h.Valid() && h.blocks == RowFree(2) && h.pos == 192
    modifies h, h.mem
    ensures ListIn(h, (112, 64), 1, 1, []) && h.blocks == Row() && h.pos == 192
  {
    RowBlocks();
    Rounds();
    assert HandedOut(RowFree(2), 192, 32) == (112, 64);
    var _, _ := CreateArrayList(h, 1);
  }

  /** The first block is released, and the owner of the second one writes a byte. */
  method FreeFront(h: Heap, item: seq<Byte>)
    requires ListIn(h, (112, 64), 1, 1, [item]) && h.blocks == Row() && h.pos == 192 && h.mem.Length == 4096
    modifies h, h.mem
    ensures ListIn(h, (112, 64), 1, 1, [item]) && h.blocks == RowFree(0) && h.pos == 192
    ensures h.mem[80] != h.mem[176]
  {
    RowBlocks();
    RowLinks();
    ghost var m, us := h.mem[..], Used(h.blocks);
    Free(h, 32, 0);
    ListStays(m, h.mem[..], (112, 64), 1, 1, [item], us);
    WriteBeside(h, item);
  }

  method WriteBeside(h: Heap, item: seq<Byte>)
    requires ListIn(h, (112, 64), 1, 1, [item]) && h.blocks == RowFree(0) && h.mem.Length == 4096
    modifies h.mem
    ensures ListIn(h, (112, 64), 1, 1, [item]) && h.mem[80] != h.mem[176]
  {
    RowFreeLinks();
    ghost var m := h.mem[..];
    Write(h, 80, if h.mem[176] == 0 then 1 else 0, (64, 32));
    ListStays(m, h.mem[..], (112, 64), 1, 1, [item], Used(h.blocks) - {(64, 32)});
  }

  /** Those blocks, and one behind them. */
  function StaleMoved(): seq<Block> {
    [Block(16, 32, true, 0, 64), Block(64, 80, false, 16, 160), Block(160, 32, false, 16, 208),
     Block(208, 64, false, 160, 0)]
  }

  lemma StaleMoves()
    ensures FirstFit(Stale(), 64) == 3 && AfterKalloc(Stale(), 208, 64) == StaleMoved() &&
            MovedIndex(Stale(), 64, 2) == 2
    ensures HandedOut(Stale(), 208, 64) == (208, 64)
    ensures AfterMove(Stale(), 208, 2, 64)
         == [Block(16, 32, true, 0, 64), Block(64, 80, false, 16, 160), Block(160, 32, true, 16, 208),
             Block(208, 64, false, 160, 0)]
  {
    FirstFitIs(Stale(), 64, 3);
    assert AfterKalloc(Stale(), 208, 64) == StaleMoved();
    assert AfterKfree(StaleMoved(), 2) ==
           [Block(16, 32, true, 0, 64), Block(64, 80, false, 16, 160), Block(160, 32, true, 16, 208),
            Block(208, 64, false, 160, 0)];
  }

  /** So a block whose `prev` is stale cannot be moved either without breaking the tiling. */
  method StaleMoveRun() returns (h: Heap)
    ensures Broken(h, AfterMove(Stale(), 208, 2, 64))
  {
    h := StaleHeap();
    StaleMoves();
    UsedReads(h.mem[..], h.blocks, h.start, h.pos, 2);
    Rounds();
    var r;
    ghost var got, taken, copied;
    r, got, taken, copied := h.Rekalloc(176, 64, 2, (160, 32));
    StaleCopied(taken, copied);
  }

  lemma StaleCopied(taken: Bytes, copied: Bytes)
    requires 288 <= |taken| && Tiled(taken, 16, 288) && Walk(taken, 16, 288) == StaleMoved()
    requires Spoils(taken, copied, StaleMoved(), 288, (160, 32), (208, 64))
    ensures !Overruns(taken, 224, 64, 176, 32) && Legible(copied, 160) && !LinksSafe(copied, StaleMoved(), 2)
  {
    WalkTiles(taken, 16, 288);
    HeaderAt(taken, StaleMoved(), 0);
    HeaderAt(taken, StaleMoved(), 2);
    HeaderAt(taken, StaleMoved(), 3);
    assert BlockSame(taken, copied, StaleMoved()[0], 208) && BlockSame(taken, copied, StaleMoved()[2], 208);
    BlockFrame(taken, copied, 160);
  }

  method StaleHeap() returns (h: Heap)
    ensures h.Valid() && h.blocks == Stale() && h.start == 16 && h.pos == 208 && h.mem.Length == 4096 && fresh(h) &&
            fresh(h.mem)
  {
    h := TwoHeap();
    StaleRun();
    assert NextAt(Two(false), 0, 1);
    Free(h, 32, 0);
    SplitAgain(h);
    assert NextAt(Split(false), 0, 1);
    Free(h, 32, 0);
  }

  method TwoHeap() returns (h: Heap)
    ensures fresh(h) && fresh(h.mem) && h.Valid() && h.blocks == Two(false) && h.start == 16 && h.pos == 208
    ensures h.mem.Length == 4096
  {
    h := new Heap(16, 4096);
    StaleRun();
    Rounds();
    var _, _ := h.Kalloc(128);
    var _, _ := h.Kalloc(32);
  }

  method SplitAgain(h: Heap)
    requires h.Valid() && h.blocks == Two(true) && h.pos == 208
    modifies h, h.mem
    ensures h.Valid() && h.blocks == Split(false) && h.pos == 208
  {
    StaleRun();
    Rounds();
    var _, _ := h.Kalloc(32);
    var _, _ := h.Kalloc(64);
  }
}
