/** `transfer_pages_to_pae`: the kernel quarter of a 32-bit directory is copied into a PAE directory, while the
    copying itself maps new pages into the old one. */
module PaeTransfer {
  import opened Common
  import opened FrameBitmap
  import opened PageTables
  import opened Paging
  import opened LegacyTables

  /** The first directory entry of the kernel quarter. */
  const KERNEL := 768

  // ------------------------------------------------------------------------------------------
  // What is copied
  // ------------------------------------------------------------------------------------------

  /** What became of an entry of the new directory: the old entry was absent from memory `snap`, or half of its
      table was copied from memory `snap` to frame `f`. */
  datatype Slot = Absent(snap: Memory32) | Copied(snap: Memory32, f: Frame)

  /** The old directory's entry that is split into entries `k` of the new one. */
  function Old(k: nat): nat { KERNEL + k / 2 }

  /** A half table, as 64-bit entries. */
  predicate IsHalf(t: Table, ws: Words, half: nat)
    requires half < 2
  {
    forall j :: 0 <= j < 512 ==> t[j] == ws[512 * half + j]
  }

  /** Entry `k` of the new directory: untouched, or the frame of the copied half table. Only the first half's
      entry has its flags set. */
  predicate SlotDone(mem: Memory32, root: Frame, pd: Frame, init: Words, k: nat, s: Slot)
    requires k < 512
  {
    && pd in mem && root in s.snap
    && match s
       case Absent(snap) => !Present(snap[root][Old(k)]) && View(mem[pd])[k] == View(init)[k]
       case Copied(snap, f) =>
         && Present(snap[root][Old(k)]) && !Large(snap[root][Old(k)]) && Table32(snap, root, Old(k)) in snap
         && f in mem && f < WORD / PAGE
         && View(mem[pd])[k] == f * PAGE + (if k % 2 == 0 then 3 else 0)
         && IsHalf(View(mem[f]), snap[Table32(snap, root, Old(k))], k % 2)
  }

  /** Every address in an even 2 MiB slot that was copied has the translation it had when its table was copied.
      In an odd slot nothing is mapped, so there the conversion is right only for what was not mapped before. */
  lemma TransferMeaning(mem: Memory32, pdpt: seq<Entry>, root: Frame, pd: Frame, init: Words, s: Slot, v: nat)
    requires 3 * GIB <= v < 4 * GIB && DirIndex(v) < 511 && SlotDone(mem, root, pd, init, DirIndex(v), s) && s.Copied?
    requires |pdpt| == 4 && pdpt[3] == pd * PAGE + 1 && pd < WORD / PAGE
    ensures DirIndex(v) % 2 == 0 ==> Walk(PaeView(mem), pdpt, v) == Walk32(s.snap, root, v)
    ensures DirIndex(v) % 2 == 1 ==> Walk(PaeView(mem), pdpt, v).None?
    ensures Walk(PaeView(mem), pdpt, v) == Walk32(s.snap, root, v)
       <==> DirIndex(v) % 2 == 0 || Walk32(s.snap, root, v).None?
  {
    var k, t := DirIndex(v), TableIndex(v);
    SplitAddress(v);
    SplitEntry(pd, 1);
    SplitEntry(s.f, if k % 2 == 0 then 3 else 0);
    assert PaeView(mem)[pd] == View(mem[pd]) && PaeView(mem)[s.f] == View(mem[s.f]);
  }

  /** A page in an odd slot that was mapped, and is not any more. */
  lemma OddSlotLost()
    ensures var v := 0xc020_0000;
            var snap := map[1 := OneWord(768, 2 * PAGE + 3), 2 := OneWord(512, 5 * PAGE + 3)];
            var mem := map[3 := OneWord(2, 4 * PAGE), 4 := OneWord(0, 5 * PAGE + 3)];
            && DirIndex(v) == 1 && SlotDone(mem, 1, 3, OneWord(0, 0), 1, Copied(snap, 4))
            && Walk32(snap, 1, v) == Some(Mapping(5, 3)) && Walk(PaeView(mem), [0, 0, 0, 3 * PAGE + 1], v) == None
  {
    var snap: Memory32 := map[1 := OneWord(768, 2 * PAGE + 3), 2 := OneWord(512, 5 * PAGE + 3)];
    var mem: Memory32 := map[3 := OneWord(2, 4 * PAGE), 4 := OneWord(0, 5 * PAGE + 3)];
    var v := 0xc020_0000;
    assert Old(1) == 768 && snap[1][768] == 2 * PAGE + 3 && Table32(snap, 1, 768) == 2;
    assert View(mem[3])[1] == 4 * PAGE;
    TransferMeaning(mem, [0, 0, 0, 3 * PAGE + 1], 1, 3, OneWord(0, 0), Copied(snap, 4), v);
    assert v / SPAN == 768 && v / PAGE % 1024 == 512;
  }

  /** A frame of zeros but for one word. */
  function OneWord(i: nat, w: Word32): Words { seq(1024, k requires 0 <= k < 1024 => if k == i then w else 0) }

  /** How the two kinds of paging cut up an address of the kernel quarter. */
  lemma SplitAddress(v: nat)
    requires 3 * GIB <= v < 4 * GIB
    ensures v / GIB == 3 && v / SPAN == Old(DirIndex(v))
    ensures v / PAGE % 1024 == 512 * (DirIndex(v) % 2) + TableIndex(v)
  {
    var q := v / PAGE;
    assert v / DIR == q / 512 && v / SPAN == q / 1024 && v / GIB == q / 0x4_0000;
    assert q % 1024 == 512 * (q / 512 % 2) + q % 512;
    var d := q / 512;
    assert d == 512 * 3 + d % 512 && q / 1024 == d / 2;
  }

  /** Whatever was mapped still is. */
  predicate MapsAll(mem: Memory32, mem': Memory32, root: Frame) {
    && mem.Keys == mem'.Keys && root in mem
    && (forall e: nat :: e < 1024 && Present(mem[root][e]) ==> mem'[root][e] == mem[root][e])
    && forall e: nat, u: nat :: e < 1023 && u < 1024 && Translate32(mem, root, e, u).Some? ==>
                                  Translate32(mem', root, e, u) == Translate32(mem, root, e, u)
  }

  lemma MapsThen(m0: Memory32, m1: Memory32, m2: Memory32, root: Frame, d: nat, t: nat)
    requires MapsAll(m0, m1, root) && MapsMore(m1, m2, root, d, t)
    ensures MapsMore(m0, m2, root, d, t)
  {
  }

  lemma MapsOn(m0: Memory32, m1: Memory32, m2: Memory32, root: Frame, d: nat, t: nat)
    requires MapsMore(m0, m1, root, d, t) && m1.Keys == m2.Keys && root in m1 && m2[root] == m1[root]
    requires forall e: nat, u: nat :: e < 1023 && u < 1024 ==>
                                        Translate32(m2, root, e, u) == Translate32(m1, root, e, u)
    ensures MapsMore(m0, m2, root, d, t)
  {
  }

  /** The entry that was hung in is as it should be. */
  lemma HungDone(m: Memory32, mem: Memory32, root: Frame, pd: Frame, f: Frame, i: nat, half: nat, snap: Memory32)
    requires KERNEL <= i < 1024 && half < 2 && pd in m && f in m && f != pd && f < WORD / PAGE && pd in mem
    requires mem == m[pd := mem[pd]]
    requires View(mem[pd]) == View(m[pd])[2 * (i - KERNEL) + half := f * PAGE + if half == 0 then 3 else 0]
    requires root in snap && Present(snap[root][i]) && !Large(snap[root][i]) && Table32(snap, root, i) in snap
    requires IsHalf(View(m[f]), snap[Table32(snap, root, i)], half)
    ensures SlotDone(mem, root, pd, m[pd], 2 * (i - KERNEL) + half, Copied(snap, f))
  {
    assert mem[f] == m[f] && Old(2 * (i - KERNEL) + half) == i;
  }

  /** A new mapping changes no other one, except that a new table may bring rubbish where nothing was mapped. */
  predicate MapsMore(mem: Memory32, mem': Memory32, root: Frame, d: nat, t: nat) {
    && mem.Keys == mem'.Keys && root in mem
    && (forall e: nat :: e < 1024 && Present(mem[root][e]) ==> mem'[root][e] == mem[root][e])
    && forall e: nat, u: nat :: e < 1023 && u < 1024 && (e, u) != (d, t) && Translate32(mem, root, e, u).Some? ==>
                                  Translate32(mem', root, e, u) == Translate32(mem, root, e, u)
  }

  // ------------------------------------------------------------------------------------------
  // How many frames it takes
  // ------------------------------------------------------------------------------------------

  /** A new page takes a frame, and another one if its part of the directory has no table yet. */
  function Cost(tables: set<nat>, v: nat): nat { if v / SPAN in tables then 1 else 2 }

  function Touched(tables: set<nat>, v: nat): set<nat> { tables + {v / SPAN} }

  /** The frames that the conversion takes from entry `i` on, when `n` pages are gone: it converts the entries that
      are there by then, and the pages themselves may have added some. */
  function Demand(tables: set<nat>, pages: seq<nat>, n: nat, i: nat): nat
    requires n + 2 * (1024 - i) <= |pages| && i <= 1024
    decreases 1024 - i
  {
    if i == 1024 then 0
    else if i !in tables then Demand(tables, pages, n, i + 1)
    else
      var t1 := Touched(tables, pages[n]);
      Cost(tables, pages[n]) + Cost(t1, pages[n + 1]) + Demand(Touched(t1, pages[n + 1]), pages, n + 2, i + 1)
  }

  function Total(tables: set<nat>, pages: seq<nat>): nat
    requires |pages| == 513
  {
    Cost(tables, pages[0]) + Demand(Touched(tables, pages[0]), pages, 1, KERNEL)
  }

  /** A step that needs the frames for one page succeeds exactly if they are left, and takes just them. */
  predicate Spent(ok: bool, left: nat, left': nat, tables: set<nat>, tables': set<nat>, v: nat) {
    && (ok <==> left >= Cost(tables, v))
    && (ok ==> left' == left - Cost(tables, v) && tables' == Touched(tables, v))
  }

  /** The directory is well formed, and every free frame of the bitmap is neither one of its tables nor one of `own`. */
  ghost predicate ReadyFor(mem: Memory32, root: Frame, used: set<nat>, words: nat, own: set<Frame>) {
    && RootOk(mem, root)
    && LAST_FRAME + 1 < 32 * words <= NO_FRAME && LAST_FRAME + 1 !in used
    && (forall i: nat :: i <= LAST_FRAME ==> PageNo(i) in mem)
    && (forall i: nat :: i in FreeFrames(used) ==> !IsTable32(mem, root, PageNo(i)) && PageNo(i) !in own)
    && (forall f :: f in own ==> f in mem && !IsTable32(mem, root, f))
  }

  lemma TakeReady(mem: Memory32, root: Frame, used: set<nat>, words: nat, own: set<Frame>, i: nat)
    requires ReadyFor(mem, root, used, words, own) && i in FreeFrames(used)
    ensures ReadyFor(mem, root, used + {i}, words, own + {PageNo(i)}) && !IsTable32(mem, root, PageNo(i))
    ensures PageNo(i) in mem && PageNo(i) !in own && |FreeFrames(used + {i})| == |FreeFrames(used)| - 1
  {
    assert FreeFrames(used + {i}) == FreeFrames(used) - {i};
    forall j: nat | j in FreeFrames(used + {i})
      ensures !IsTable32(mem, root, PageNo(j)) && PageNo(j) !in own + {PageNo(i)}
    {
      assert j in FreeFrames(used);
    }
  }

  /** A frame that was taken becomes a table. */
  lemma TableReady(mem: Memory32, mem': Memory32, root: Frame, used: set<nat>, words: nat, own: set<Frame>, f: Frame)
    requires ReadyFor(mem, root, used, words, own + {f}) && f !in own && RootOk(mem', root) && mem.Keys == mem'.Keys
    requires forall g :: IsTable32(mem', root, g) <==> IsTable32(mem, root, g) || g == f
    ensures ReadyFor(mem', root, used, words, own)
  {
  }

  lemma SameReady(mem: Memory32, mem': Memory32, root: Frame, used: set<nat>, words: nat, own: set<Frame>)
    requires ReadyFor(mem, root, used, words, own) && RootOk(mem', root) && mem.Keys == mem'.Keys
    requires forall g :: IsTable32(mem', root, g) <==> IsTable32(mem, root, g)
    ensures ReadyFor(mem', root, used, words, own)
  {
  }

  class Legacy {
    var mem: Memory32
    const root: Frame
    const bitmap: Bitmap

    constructor (mem: Memory32, root: Frame, bitmap: Bitmap)
      ensures this.mem == mem && this.root == root && this.bitmap == bitmap
    {
      this.mem := mem;
      this.root := root;
      this.bitmap := bitmap;
    }

    /** The conversion can go on; `own` are the frames that it has already taken. */
    ghost predicate Ready(own: set<Frame>)
      reads this, bitmap, bitmap.frames
    {
      ReadyFor(mem, root, bitmap.Used(), bitmap.frames.Length, own)
    }

    /** How many frames are left. */
    ghost function Left(): nat
      reads bitmap, bitmap.frames
    {
      |FreeFrames(bitmap.Used())|
    }

    /** The entries of the directory that are present. */
    ghost function Tables(): set<nat>
      reads this
      requires root in mem
    {
      set d: nat | d < 1024 && Present(mem[root][d])
    }

    // ----------------------------------------------------------------------------------------
    // Loads and stores
    // ----------------------------------------------------------------------------------------

    method Load(v: nat) returns (w: Word32)
      requires v < WORD && v % 4 == 0 && Walk32(mem, root, v).Some? && Walk32(mem, root, v).value.frame in mem
      ensures w == mem[Walk32(mem, root, v).value.frame][v % PAGE / 4]
    {
      w := mem[Walk32(mem, root, v).value.frame][v % PAGE / 4];
    }

    method Store(v: nat, w: Word32)
      requires v < WORD && v % 4 == 0 && Walk32(mem, root, v).Some? && Walk32(mem, root, v).value.frame in mem
      modifies this`mem
      ensures var f := Walk32(old(mem), root, v).value.frame; mem == old(mem)[f := old(mem)[f][v % PAGE / 4 := w]]
    {
      var f := Walk32(mem, root, v).value.frame;
      mem := mem[f := mem[f][v % PAGE / 4 := w]];
    }

    /** The virtual page at `v` is frame `f`, which is no table. */
    ghost predicate Maps(v: nat, f: Frame)
      reads this
    {
      && v < WINDOW && v % PAGE == 0 && f in mem && !IsTable32(mem, root, f)
      && Walk32(mem, root, v).Some? && Walk32(mem, root, v).value.frame == f
    }

    /** A store into that page. */
    method StoreWord(v: nat, k: nat, w: Word32, ghost f: Frame)
      requires RootOk(mem, root) && Maps(v, f) && k < 1024
      modifies this`mem
      ensures mem == old(mem)[f := old(mem)[f][k := w]] && RootOk(mem, root) && Maps(v, f)
    {
      SamePage(v, 4 * k);
      OffTables(mem, root, f, mem[f][k := w]);
      Store(v + 4 * k, w);
    }

    /** A 64-bit store, as two words. */
    method Store64(v: nat, j: nat, e: nat, ghost f: Frame)
      requires RootOk(mem, root) && Maps(v, f) && j < 512 && e < WORD * WORD
      modifies this`mem
      ensures mem == old(mem)[f := WithEntry64(old(mem)[f], j, e)]
    {
      StoreWord(v, 2 * j, e % WORD, f);
      StoreWord(v, 2 * j + 1, e / WORD, f);
    }

    // ----------------------------------------------------------------------------------------
    // Pages
    // ----------------------------------------------------------------------------------------

    /** `alloc_phys_page`: a frame that nobody uses, or the kernel's panic. */
    method TakeFrame(ghost own: set<Frame>) returns (ok: bool, phys: nat, ghost f: Frame)
      requires Ready(own)
      modifies bitmap, bitmap.frames
      ensures ok ==> Ready(own + {f}) && phys == f * PAGE && 0 < f && phys + 3 < WORD && f !in own && f in mem
      ensures ok ==> !IsTable32(mem, root, f)
      ensures (ok <==> old(Left()) > 0) && (ok ==> Left() == old(Left()) - 1)
    {
      FrameFree(bitmap.Used(), 32 * bitmap.frames.Length);
      ghost var used := bitmap.Used();
      ghost var i := LeastFree(bitmap.Used(), 0, 32 * bitmap.frames.Length).GetOr(0);
      var r := bitmap.AllocPhysPage();
      if r.Panic? {
        return false, 0, 0;
      }
      TakeReady(mem, root, used, bitmap.frames.Length, own, i);
      FrameAddress(i);
      return true, r.address, PageNo(i);
    }

    /** `create_new_pt`: a frame is hung into the directory, and its first quarter zeroed through the window. */
    method CreateNewPt(pdIndex: nat, ghost own: set<Frame>) returns (ok: bool)
      requires Ready(own) && pdIndex < 1023 && !HasTable32(mem, root, pdIndex)
      modifies this`mem, bitmap, bitmap.frames
      ensures ok ==> Ready(own) && HasTable32(mem, root, pdIndex) && MapsAll(old(mem), mem, root)
      ensures (ok <==> old(Left()) > 0)
      ensures ok ==> Left() == old(Left()) - 1 && Tables() == old(Tables()) + {pdIndex}
      ensures ok ==> forall u: nat :: u < 256 ==> Translate32(mem, root, pdIndex, u) == None
      ensures ok ==> forall f :: f in own ==> mem[f] == old(mem)[f]
    {
      ghost var f;
      var phys;
      ok, phys, f := TakeFrame(own);
      if !ok { return; }
      OrAdds(f, 3);
      TableAdds(mem, root, pdIndex, f);
      ghost var m := mem;
      mem := mem[root := mem[root][pdIndex := BitOr(phys, 3)]];
      ClearQuarter(pdIndex, f);
      assert mem == WithTable32(m, root, pdIndex, f);
      TableReady(m, mem, root, bitmap.Used(), bitmap.frames.Length, own, f);
    }

    /** `memset` of the new table. */
    method ClearQuarter(pdIndex: nat, ghost f: Frame)
      requires pdIndex < 1023 && RootOk(mem, root) && HasTable32(mem, root, pdIndex) && Table32(mem, root, pdIndex) == f
      modifies this`mem
      ensures mem == old(mem)[f := QuarterCleared(old(mem)[f])]
    {
      var i := 0;
      while i < 256
        invariant 0 <= i <= 256 && f in mem && mem == old(mem)[f := mem[f]]
        invariant RootOk(mem, root) && HasTable32(mem, root, pdIndex) && Table32(mem, root, pdIndex) == f
        invariant forall k :: 0 <= k < 1024 ==> mem[f][k] == if k < i then 0 else old(mem)[f][k]
      {
        WindowShows(mem, root, pdIndex, i);
        WordChangesOne(mem, root, pdIndex, i, 0);
        Store(WindowAddress(pdIndex, i), 0);
        i := i + 1;
      }
      assert mem[f] == QuarterCleared(old(mem)[f]);
    }

    /** `memory_map`: the page at `virt` is mapped to the given frame. */
    method MemoryMap(phys: nat, virt: nat, flags: nat, ghost own: set<Frame>) returns (ok: bool)
      requires Ready(own) && virt < WINDOW && phys < WORD && phys % PAGE == 0 && flags < PAGE && flags % 2 == 1
      modifies this`mem, bitmap, bitmap.frames
      ensures ok ==> Ready(own) && MapsMore(old(mem), mem, root, virt / SPAN, virt / PAGE % 1024)
      ensures ok ==> Walk32(mem, root, virt) == Some(Mapping(phys / PAGE, flags))
      ensures ok <==> old(Left()) + 1 >= Cost(old(Tables()), virt)
      ensures ok ==> Left() + Cost(old(Tables()), virt) == old(Left()) + 1 && Tables() == Touched(old(Tables()), virt)
      ensures ok ==> forall f :: f in own ==> mem[f] == old(mem)[f]
    {
      var pdIndex := virt / SPAN;
      var ptIndex := virt / PAGE % 1024;
      WholePage(phys);
      ok := EnsureTable(pdIndex, own);
      if !ok { return; }
      if phys % 0x400 != 0 {
        return false;
      }
      OrAdds(phys / PAGE, flags);
      ghost var m := mem;
      SetEntry(pdIndex, ptIndex, BitOr(phys, flags), own);
      MapsThen(old(mem), m, mem, root, pdIndex, ptIndex);
    }

    /** Its check that there is a table. */
    method EnsureTable(pdIndex: nat, ghost own: set<Frame>) returns (ok: bool)
      requires Ready(own) && pdIndex < 1023
      modifies this`mem, bitmap, bitmap.frames
      ensures ok ==> Ready(own) && HasTable32(mem, root, pdIndex) && MapsAll(old(mem), mem, root)
      ensures ok <==> pdIndex in old(Tables()) || old(Left()) > 0
      ensures ok ==> Left() + (if pdIndex in old(Tables()) then 0 else 1) == old(Left()) &&
                     Tables() == old(Tables()) + {pdIndex}
      ensures ok ==> forall f :: f in own ==> mem[f] == old(mem)[f]
    {
      ok := true;
      if !Present(mem[root][pdIndex]) {
        ok := CreateNewPt(pdIndex, own);
      }
    }

    /** The write of `memory_map`. */
    method SetEntry(pdIndex: nat, ptIndex: nat, w: Word32, ghost own: set<Frame>)
      requires Ready(own) && HasTable32(mem, root, pdIndex) && ptIndex < 1024
      modifies this`mem
      ensures Ready(own) && MapsMore(old(mem), mem, root, pdIndex, ptIndex) && mem[root] == old(mem[root])
      ensures Translate32(mem, root, pdIndex, ptIndex) ==
              if Present(w) then Some(Mapping(FrameOf(w), FlagsOf(w))) else None
      ensures forall f :: f in own ==> mem[f] == old(mem)[f]
    {
      ghost var m, pt := mem, Table32(mem, root, pdIndex);
      WindowShows(mem, root, pdIndex, ptIndex);
      WordChangesOne(mem, root, pdIndex, ptIndex, w);
      Store(WindowAddress(pdIndex, ptIndex), w);
      assert mem == m[pt := m[pt][ptIndex := w]] && IsTable32(m, root, pt);
      SameReady(m, mem, root, bitmap.Used(), bitmap.frames.Length, own);
    }

    // ----------------------------------------------------------------------------------------
    // The conversion
    // ----------------------------------------------------------------------------------------

    /** One copy loop: half of table `i`, seen through the window, goes to the page at `virt`. */
    method CopyHalf(i: nat, half: nat, virt: nat, ghost f: Frame)
      requires RootOk(mem, root) && i < 1024 && Present(mem[root][i]) && half < 2 && Maps(virt, f)
      modifies this`mem
      ensures f in mem && mem == old(mem)[f := mem[f]]
      ensures IsHalf(View(mem[f]), old(mem)[Table32(old(mem), root, i)], half)
    {
      ghost var pt := Table32(mem, root, i);
      WindowShows(mem, root, i, 0);
      assert pt != f by { assert i < 1023 ==> HasTable32(mem, root, i); }
      var j := 0;
      while j < 512
        invariant 0 <= j <= 512 && f in mem && mem == old(mem)[f := mem[f]]
        invariant RootOk(mem, root) && Maps(virt, f) && pt in mem && mem[root] == old(mem[root])
        invariant forall k :: 0 <= k < j ==> View(mem[f])[k] == mem[pt][512 * half + k]
      {
        WindowShows(mem, root, i, 512 * half + j);
        var w := Load(WindowAddress(i, 512 * half + j));
        ViewStore(mem[f], j, w);
        OffTables(mem, root, f, WithEntry64(mem[f], j, w));
        Store64(virt, j, w, f);
        j := j + 1;
      }
    }

    /** A new page: its frame is allocated, and mapped at the next address that the allocator gives. */
    method NewPage(virt: nat, ghost own: set<Frame>) returns (ok: bool, phys: nat, ghost f: Frame)
      requires Ready(own) && virt < WINDOW && virt % PAGE == 0
      modifies this`mem, bitmap, bitmap.frames
      ensures ok ==> Ready(own + {f}) && phys == f * PAGE && 0 < f && phys + 3 < WORD && f !in own && Maps(virt, f)
      ensures ok ==> MapsMore(old(mem), mem, root, virt / SPAN, virt / PAGE % 1024)
      ensures ok ==> forall g :: g in own + {f} ==> g in old(mem) && mem[g] == old(mem)[g]
      ensures Spent(ok, old(Left()), Left(), old(Tables()), if root in mem then Tables() else {}, virt)
    {
      ok, phys, f := TakeFrame(own);
      if !ok { return; }
      assert phys % PAGE == 0 && phys / PAGE == f;
      ok := MemoryMap(phys, virt, 3, own + {f});
    }

    /** Half of table `i` is copied to a new page, and that is hung into the new directory at `pd`. */
    method TransferHalf(i: nat, half: nat, virt: nat, pdVirt: nat, ghost pd: Frame, ghost own: set<Frame>)
      returns (ok: bool, ghost s: Slot)
      requires Ready(own) && KERNEL <= i < 1024 && Present(mem[root][i]) && half < 2
      requires virt < WINDOW && virt % PAGE == 0 && Maps(pdVirt, pd) && pdVirt != virt && pd in own && pd < WORD / PAGE
      modifies this`mem, bitmap, bitmap.frames
      ensures ok ==> s.Copied? && Ready(own + {s.f}) && s.f !in own && Maps(pdVirt, pd) && Present(mem[root][i])
      ensures ok ==> mem.Keys == old(mem).Keys && forall g :: g in own && g != pd ==> mem[g] == old(mem)[g]
      ensures ok ==> forall k :: 0 <= k < 512 && k != 2 * (i - KERNEL) + half ==>
                                   View(mem[pd])[k] == View(old(mem)[pd])[k]
      ensures ok ==> SlotDone(mem, root, pd, old(mem)[pd], 2 * (i - KERNEL) + half, s)
      ensures ok ==> MapsMore(old(mem), s.snap, root, virt / SPAN, virt / PAGE % 1024)
      ensures Spent(ok, old(Left()), Left(), old(Tables()), if root in mem then Tables() else {}, virt)
      ensures ok ==> MapsMore(old(mem), mem, root, virt / SPAN, virt / PAGE % 1024)
    {
      ghost var f, snap;
      var phys;
      s := Absent(mem);
      ok, phys, f, snap := CopyToNew(i, half, virt, own);
      if !ok { return; }
      s := Copied(snap, f);
      ghost var m := mem;
      StillMapped(old(mem), pdVirt, virt, pd);
      HangHalf(i, half, phys, pdVirt, pd, f, own + {f}, snap);
      MapsOn(old(mem), m, mem, root, virt / SPAN, virt / PAGE % 1024);
    }

    /** A page stays where it is while another one is mapped. */
    lemma StillMapped(m0: Memory32, v: nat, w: nat, f: Frame)
      requires w < WINDOW && w % PAGE == 0 && v != w && MapsMore(m0, mem, root, w / SPAN, w / PAGE % 1024)
      requires v < WINDOW && v % PAGE == 0 && Walk32(m0, root, v).Some? && Walk32(m0, root, v).value.frame == f
      requires f in mem && !IsTable32(mem, root, f)
      ensures Maps(v, f)
    {
      OtherPage(v, w);
    }

    /** The copied half is hung into the new directory, the second half without any flag. */
    method HangHalf(i: nat, half: nat, phys: nat, pdVirt: nat, ghost pd: Frame, ghost f: Frame, ghost own: set<Frame>,
                    ghost snap: Memory32)
      requires Ready(own) && KERNEL <= i < 1024 && half < 2 && phys == f * PAGE && phys + 3 < WORD
      requires Maps(pdVirt, pd) && pd in own && f in mem && f != pd
      requires root in snap && Present(snap[root][i]) && !Large(snap[root][i]) && Table32(snap, root, i) in snap
      requires IsHalf(View(mem[f]), snap[Table32(snap, root, i)], half)
      modifies this`mem
      ensures Ready(own) && Maps(pdVirt, pd) && mem == old(mem)[pd := mem[pd]] && mem[root] == old(mem[root])
      ensures forall k :: 0 <= k < 512 && k != 2 * (i - KERNEL) + half ==> View(mem[pd])[k] == View(old(mem)[pd])[k]
      ensures SlotDone(mem, root, pd, old(mem)[pd], 2 * (i - KERNEL) + half, Copied(snap, f))
      ensures forall e: nat, u: nat :: e < 1023 && u < 1024 ==>
                                         Translate32(mem, root, e, u) == Translate32(old(mem), root, e, u)
    {
      OrAdds(f, 3);
      BitOrZero(phys);
      var entry := BitOr(phys, if half == 0 then 3 else 0);
      assert entry == f * PAGE + (if half == 0 then 3 else 0) && f < WORD / PAGE;
      ghost var m, ws := mem, WithEntry64(mem[pd], 2 * (i - KERNEL) + half, entry);
      OffTables(m, root, pd, ws);
      ViewStore(mem[pd], 2 * (i - KERNEL) + half, entry);
      Store64(pdVirt, 2 * (i - KERNEL) + half, entry, pd);
      assert mem == m[pd := ws];
      SameReady(m, mem, root, bitmap.Used(), bitmap.frames.Length, own);
      HungDone(m, mem, root, pd, f, i, half, snap);
    }

    /** Half of table `i` is copied to a new page. */
    method CopyToNew(i: nat, half: nat, virt: nat, ghost own: set<Frame>)
      returns (ok: bool, phys: nat, ghost f: Frame, ghost snap: Memory32)
      requires Ready(own) && i < 1024 && Present(mem[root][i]) && half < 2 && virt < WINDOW && virt % PAGE == 0
      modifies this`mem, bitmap, bitmap.frames
      ensures ok ==> Ready(own + {f}) && f !in own && phys == f * PAGE && phys + 3 < WORD
      ensures ok ==> MapsMore(old(mem), snap, root, virt / SPAN, virt / PAGE % 1024)
      ensures Spent(ok, old(Left()), Left(), old(Tables()), if root in mem then Tables() else {}, virt)
      ensures ok ==> MapsMore(old(mem), mem, root, virt / SPAN, virt / PAGE % 1024)
      ensures ok ==> forall g :: g in own ==> g in mem && mem[g] == old(mem)[g]
      ensures ok ==> && f in mem && root in snap && Present(snap[root][i]) && !Large(snap[root][i])
                     && Table32(snap, root, i) in snap && IsHalf(View(mem[f]), snap[Table32(snap, root, i)], half)
    {
      ok, phys, f := NewPage(virt, own);
      snap := mem;
      if !ok { return; }
      WindowShows(mem, root, i, 0);
      assert i < 1023 ==> HasTable32(mem, root, i);
      CopyHalf(i, half, virt, f);
      OffTables(snap, root, f, mem[f]);
    }

    /** The body of its loop, for an entry that has a table: both halves. */
    method TransferTable(i: nat, virt0: nat, virt1: nat, pdVirt: nat, ghost m0: Memory32, ghost pd: Frame,
                         ghost own: set<Frame>, ghost pages: seq<nat>, ghost slots: seq<Slot>)
      returns (ok: bool, ghost slots': seq<Slot>, ghost own': set<Frame>)
      requires Converting(m0, pd, own, pages, slots, pdVirt) && KERNEL <= i < 1024 && Present(mem[root][i])
      requires |slots| == 2 * (i - KERNEL) && virt0 in pages && virt1 in pages && pdVirt !in [virt0, virt1]
      requires forall v :: v in [virt0, virt1] ==> v < WINDOW && v % PAGE == 0
      modifies this`mem, bitmap, bitmap.frames
      ensures ok ==> Converting(m0, pd, own', pages, slots', pdVirt) && |slots'| == |slots| + 2
      ensures var (t0, t1) := (old(Tables()), Touched(old(Tables()), virt0));
              && (ok <==> old(Left()) >= Cost(t0, virt0) + Cost(t1, virt1))
              && (ok ==> Left() + Cost(t0, virt0) + Cost(t1, virt1) == old(Left()) && Tables() == Touched(t1, virt1))
    {
      slots', own' := slots, own;
      assert virt0 in [virt0, virt1] && virt1 in [virt0, virt1];
      ok, slots', own' := TransferOne(i, 0, virt0, pdVirt, m0, pd, own, pages, slots);
      if !ok { return; }
      ok, slots', own' := TransferOne(i, 1, virt1, pdVirt, m0, pd, own', pages, slots');
    }

    method TransferOne(i: nat, half: nat, virt: nat, pdVirt: nat, ghost m0: Memory32, ghost pd: Frame,
                       ghost own: set<Frame>, ghost pages: seq<nat>, ghost slots: seq<Slot>)
      returns (ok: bool, ghost slots': seq<Slot>, ghost own': set<Frame>)
      requires Converting(m0, pd, own, pages, slots, pdVirt) && KERNEL <= i < 1024 && Present(mem[root][i]) && half < 2
      requires |slots| == 2 * (i - KERNEL) + half && virt in pages && pdVirt != virt && virt < WINDOW &&
               virt % PAGE == 0
      modifies this`mem, bitmap, bitmap.frames
      ensures ok ==> Converting(m0, pd, own', pages, slots', pdVirt) && |slots'| == |slots| + 1 && Present(mem[root][i])
      ensures Spent(ok, old(Left()), Left(), old(Tables()), if root in mem then Tables() else {}, virt)
    {
      ghost var s, m := Absent(mem), mem;
      slots', own' := slots, own;
      ok, s := TransferHalf(i, half, virt, pdVirt, pd, own);
      if !ok { return; }
      KeptStep(m0, m, s.snap, root, pages, virt);
      KeptStep(m0, m, mem, root, pages, virt);
      SlotsGrow(m0, m, mem, root, pd, own, pages, slots, s);
      slots', own' := slots + [s], own + {s.f};
    }

    /** What holds between two steps of the conversion. */
    ghost predicate Converting(m0: Memory32, pd: Frame, own: set<Frame>, pages: seq<nat>, slots: seq<Slot>, pdVirt: nat)
      reads this, bitmap, bitmap.frames
    {
      && Ready(own) && pd in own && pd in m0 && pd < WORD / PAGE && Maps(pdVirt, pd) && Kept(m0, mem, root, pages)
      && Slots(m0, mem, root, pd, own, pages, slots)
    }

    /** The last entry of the new directory refers to the directory itself. */
    method SelfMap(pdVirt: nat, phys: nat, ghost pd: Frame)
      requires RootOk(mem, root) && Maps(pdVirt, pd) && phys == pd * PAGE && pd < WORD / PAGE
      modifies this`mem
      ensures pd in mem && mem == old(mem)[pd := mem[pd]]
      ensures View(mem[pd]) == View(old(mem)[pd])[511 := phys + 1]
    {
      OrAdds(pd, 1);
      ViewStore(mem[pd], 511, BitOr(phys, 1));
      Store64(pdVirt, 511, BitOr(phys, 1), pd);
    }

    /** The body of the loop of `transfer_pages_to_pae`. */
    method TransferEntry(i: nat, n: nat, pages: seq<nat>, ghost m0: Memory32, ghost pd: Frame, ghost own: set<Frame>,
                         ghost slots: seq<Slot>)
      returns (ok: bool, n': nat, ghost slots': seq<Slot>, ghost own': set<Frame>)
      requires PagesOk(pages) && Converting(m0, pd, own, pages, slots, pages[0])
      requires KERNEL <= i < 1024 && |slots| == 2 * (i - KERNEL) && 1 <= n && n + 2 * (1024 - i) <= |pages|
      modifies this`mem, bitmap, bitmap.frames
      ensures ok ==> Converting(m0, pd, own', pages, slots', pages[0]) && |slots'| == |slots| + 2
      ensures ok ==> 1 <= n' <= n + 2
                     && Left() + Demand(old(Tables()), pages, n, i) == old(Left()) + Demand(Tables(), pages, n', i + 1)
      ensures !ok ==> old(Left()) < Demand(old(Tables()), pages, n, i)
    {
      if Present(mem[root][i]) {
        ok, slots', own' := TransferTable(i, pages[n], pages[n + 1], pages[0], m0, pd, own, pages, slots);
        n' := n + 2;
      } else {
        SlotsAbsent(m0, mem, root, pd, own, pages, slots);
        slots', own' := slots + [Absent(mem), Absent(mem)], own;
        ok, n' := true, n;
      }
    }

    /** `transfer_pages_to_pae`. The allocator gives the addresses `pages`, one after another. */
    method TransferPagesToPae(pages: seq<nat>) returns (ok: bool, phys: nat, ghost pd: Frame, ghost slots: seq<Slot>)
      requires Ready({}) && PagesOk(pages)
      modifies this`mem, bitmap, bitmap.frames
      ensures ok <==> old(Left()) >= Total(old(Tables()), pages)
      ensures ok ==> pd in old(mem) && pd in mem && pd < WORD / PAGE && phys == pd * PAGE && |slots| == 511
      ensures ok ==> forall k :: 0 <= k < 511 ==>
                                   SlotDone(mem, root, pd, old(mem)[pd], k, slots[k]) &&
                                   Kept(old(mem), slots[k].snap, root, pages)
      ensures ok ==> View(mem[pd])[511] == pd * PAGE + 1
    {
      slots := [];
      ok, phys, pd := NewPage(pages[0], {});
      if !ok { return; }
      ghost var own, m0 := {pd}, old(mem);
      assert Kept(m0, mem, root, pages) by { KeptStart(m0, root, pages); KeptStep(m0, m0, mem, root, pages, pages[0]); }
      ok, slots, own := TransferEntries(pages, m0, pd, own);
      if !ok { return; }
      ghost var m := mem;
      SelfMap(pages[0], phys, pd);
      SlotsDone(m0, m, mem, root, pd, own, pages, slots);
      slots := slots[..511];
    }

    /** Its loop. */
    method TransferEntries(pages: seq<nat>, ghost m0: Memory32, ghost pd: Frame, ghost own: set<Frame>)
      returns (ok: bool, ghost slots: seq<Slot>, ghost own': set<Frame>)
      requires PagesOk(pages) && Converting(m0, pd, own, pages, [], pages[0])
      modifies this`mem, bitmap, bitmap.frames
      ensures ok <==> old(Left()) >= Demand(old(Tables()), pages, 1, KERNEL)
      ensures ok ==> Converting(m0, pd, own', pages, slots, pages[0]) && |slots| == 512
    {
      slots, own' := [], own;
      ok := true;
      var n, i := 1, KERNEL;
      ghost var spare := Left() - Demand(Tables(), pages, n, i);
      while i < 1024
        invariant KERNEL <= i <= 1024 && 1 <= n && n + 2 * (1024 - i) <= |pages| && |slots| == 2 * (i - KERNEL)
        invariant ok && Converting(m0, pd, own', pages, slots, pages[0])
        invariant spare == Left() - Demand(Tables(), pages, n, i)
      {
        ok, n, slots, own' := TransferEntry(i, n, pages, m0, pd, own', slots);
        if !ok { return; }
        i := i + 1;
      }
    }
  }

  /** The addresses are pages outside the window, and no two are the same. */
  predicate PagesOk(pages: seq<nat>) {
    && |pages| == 513 && (forall a :: 0 <= a < |pages| ==> pages[a] < WINDOW && pages[a] % PAGE == 0)
    && forall a, b :: 0 <= a < b < |pages| ==> pages[a] != pages[b]
  }

  lemma SamePage(v: nat, x: nat)
    requires v % PAGE == 0 && x < PAGE
    ensures (v + x) / PAGE == v / PAGE && (v + x) / SPAN == v / SPAN && (v + x) % PAGE == x
  {
    var q := v / PAGE;
    assert v + x == PAGE * q + x;
    assert (v + x) / SPAN == (v + x) / PAGE / 1024 && v / SPAN == v / PAGE / 1024;
  }

  lemma FrameAddress(i: nat)
    requires i <= LAST_FRAME
    ensures FrameToPhysical(i) == PageNo(i) * PAGE && 0 < PageNo(i) && PageNo(i) * PAGE + 3 < WORD
  {
    assert FIRST_PAGE + i * PAGE < WORD;
  }

  lemma OrAdds(f: Frame, flags: nat)
    requires f < WORD / PAGE && flags < PAGE
    ensures var e := BitOr(f * PAGE, flags);
            e == f * PAGE + flags < WORD && FrameOf(e) == f && FlagsOf(e) == flags && (Present(e) <==> flags % 2 == 1)
  {
    assert f * PAGE / PAGE == f && f * PAGE % PAGE == 0;
    PageEntry(f * PAGE, flags);
  }

  /** Different pages have different places in the tables. */
  lemma OtherPage(v: nat, w: nat)
    requires v % PAGE == 0 && w % PAGE == 0 && v != w
    ensures (v / SPAN, v / PAGE % 1024) != (w / SPAN, w / PAGE % 1024)
  {
    assert v / SPAN == v / PAGE / 1024 && w / SPAN == w / PAGE / 1024;
  }

  /** Everything that was mapped outside the window still is, but for the given pages. */
  predicate Kept(mem: Memory32, mem': Memory32, root: Frame, pages: seq<nat>) {
    && mem.Keys == mem'.Keys && root in mem
    && (forall e: nat :: e < 1024 && Present(mem[root][e]) ==> mem'[root][e] == mem[root][e])
    && forall e: nat, u: nat :: e < 1023 && u < 1024 && Untouched(pages, e, u) && Translate32(mem, root, e, u).Some? ==>
                                  Translate32(mem', root, e, u) == Translate32(mem, root, e, u)
  }

  predicate Untouched(pages: seq<nat>, e: nat, u: nat) {
    forall p :: p in pages ==> (p / SPAN, p / PAGE % 1024) != (e, u)
  }

  lemma KeptStart(m: Memory32, root: Frame, pages: seq<nat>)
    requires root in m
    ensures Kept(m, m, root, pages)
  {
  }

  lemma KeptStep(m: Memory32, m1: Memory32, m2: Memory32, root: Frame, pages: seq<nat>, p: nat)
    requires Kept(m, m1, root, pages) && p in pages && MapsMore(m1, m2, root, p / SPAN, p / PAGE % 1024)
    ensures Kept(m, m2, root, pages)
  {
    forall e: nat, u: nat | e < 1023 && u < 1024 && Untouched(pages, e, u) && Translate32(m, root, e, u).Some?
      ensures Translate32(m2, root, e, u) == Translate32(m, root, e, u)
    {
      assert Translate32(m1, root, e, u) == Translate32(m, root, e, u);
    }
  }

  /** The entries written so far are as they should be; the others are as before. */
  predicate Slots(m0: Memory32, mem: Memory32, root: Frame, pd: Frame, own: set<Frame>, pages: seq<nat>,
                  slots: seq<Slot>) {
    && |slots| <= 512 && pd in m0 && pd in mem
    && (forall k :: 0 <= k < |slots| ==> SlotKnown(m0, mem, root, pd, own, pages, slots, k))
    && forall k :: |slots| <= k < 512 ==> View(mem[pd])[k] == View(m0[pd])[k]
  }

  predicate SlotKnown(m0: Memory32, mem: Memory32, root: Frame, pd: Frame, own: set<Frame>, pages: seq<nat>,
                      slots: seq<Slot>, k: nat)
    requires k < |slots| <= 512 && pd in m0
  {
    && SlotDone(mem, root, pd, m0[pd], k, slots[k]) && Kept(m0, slots[k].snap, root, pages)
    && (slots[k].Copied? ==> slots[k].f in own && slots[k].f != pd)
  }

  /** A further half table does not disturb the earlier ones. */
  lemma SlotsGrow(m0: Memory32, m: Memory32, m': Memory32, root: Frame, pd: Frame, own: set<Frame>, pages: seq<nat>,
                  slots: seq<Slot>, s: Slot)
    requires Slots(m0, m, root, pd, own, pages, slots) && |slots| < 512 && pd in m'
    requires m.Keys == m'.Keys && forall g :: g in own && g != pd ==> g in m && m'[g] == m[g]
    requires forall k :: 0 <= k < 512 && k != |slots| ==> View(m'[pd])[k] == View(m[pd])[k]
    requires SlotDone(m', root, pd, m[pd], |slots|, s) && Kept(m0, s.snap, root, pages)
    requires s.Copied? && s.f !in own && pd in own
    ensures Slots(m0, m', root, pd, own + {s.f}, pages, slots + [s])
  {
    forall k | 0 <= k < |slots| + 1 ensures SlotKnown(m0, m', root, pd, own + {s.f}, pages, slots + [s], k) {
      if k < |slots| { assert SlotKnown(m0, m, root, pd, own, pages, slots, k); }
    }
  }

  lemma SlotsAbsent(m0: Memory32, m: Memory32, root: Frame, pd: Frame, own: set<Frame>, pages: seq<nat>,
                    slots: seq<Slot>)
    requires Slots(m0, m, root, pd, own, pages, slots) && |slots| <= 510 && |slots| % 2 == 0 && Kept(m0, m, root, pages)
    requires !Present(m[root][Old(|slots|)])
    ensures Slots(m0, m, root, pd, own, pages, slots + [Absent(m), Absent(m)])
  {
    var r := slots + [Absent(m), Absent(m)];
    forall k | 0 <= k < |r| ensures SlotKnown(m0, m, root, pd, own, pages, r, k) {
      if k < |slots| { assert SlotKnown(m0, m, root, pd, own, pages, slots, k); }
    }
  }

  lemma SlotsDone(m0: Memory32, m: Memory32, m': Memory32, root: Frame, pd: Frame, own: set<Frame>, pages: seq<nat>,
                  slots: seq<Slot>)
    requires Slots(m0, m, root, pd, own, pages, slots) && |slots| == 512 && pd in m' && m' == m[pd := m'[pd]]
    requires forall k :: 0 <= k < 511 ==> View(m'[pd])[k] == View(m[pd])[k]
    ensures forall k :: 0 <= k < 511 ==> SlotDone(m', root, pd, m0[pd], k, slots[k]) &&
                                         Kept(m0, slots[k].snap, root, pages)
  {
    forall k | 0 <= k < 511
      ensures SlotDone(m', root, pd, m0[pd], k, slots[k]) && Kept(m0, slots[k].snap, root, pages)
    {
      assert SlotKnown(m0, m, root, pd, own, pages, slots, k);
    }
  }

  lemma UntouchedPage(pages: seq<nat>, v: nat)
    requires (v / PAGE * PAGE) !in pages && forall p :: p in pages ==> p % PAGE == 0
    ensures Untouched(pages, v / SPAN, v / PAGE % 1024)
  {
    PageParts(v);
    forall p | p in pages ensures (p / SPAN, p / PAGE % 1024) != (v / SPAN, v / PAGE % 1024) {
      OtherPage(p, v / PAGE * PAGE);
    }
  }

  lemma PageParts(v: nat)
    ensures var p := v / PAGE * PAGE; p % PAGE == 0 && p / PAGE == v / PAGE && p / SPAN == v / SPAN
  {
    var q := v / PAGE;
    assert (q * PAGE) / PAGE == q;
    assert (q * PAGE) / SPAN == (q * PAGE) / PAGE / 1024 && v / SPAN == v / PAGE / 1024;
  }

  /** Whatever was mapped in an even 2 MiB slot of the kernel quarter when the conversion began is mapped the same
      way afterwards, except at the pages that the conversion took for itself. */
  lemma TransferPreserves(m0: Memory32, mem: Memory32, pdpt: seq<Entry>, root: Frame, pd: Frame, init: Words,
                          pages: seq<nat>, s: Slot, v: nat)
    requires 3 * GIB <= v < WINDOW && DirIndex(v) < 511 && SlotDone(mem, root, pd, init, DirIndex(v), s)
    requires Kept(m0, s.snap, root, pages) && RootOk(m0, root)
    requires |pdpt| == 4 && pdpt[3] == pd * PAGE + 1 && pd < WORD / PAGE
    requires Walk32(m0, root, v).Some? && (v / PAGE * PAGE) !in pages && forall p :: p in pages ==> p % PAGE == 0
    ensures DirIndex(v) % 2 == 0 ==> Walk(PaeView(mem), pdpt, v) == Walk32(m0, root, v)
    ensures DirIndex(v) % 2 == 1 ==> Walk(PaeView(mem), pdpt, v).None?
  {
    SplitAddress(v);
    UntouchedPage(pages, v);
    TransferMeaning(mem, pdpt, root, pd, init, s, v);
  }
}
