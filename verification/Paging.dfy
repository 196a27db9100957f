/** The PAE routines of `kernel/memory/paging.c`, working in place through the recursive window. */
module Paging {
  import opened Common
  import opened FrameBitmap
  import opened PageTables

  /** The frame number of the page with bitmap index `i`. */
  function PageNo(i: nat): Frame { FIRST_PAGE / PAGE + i }

  /** Everything the routines read and write: memory, the four entries above the directories, and the
      used frames of a bitmap of `words` words. */
  datatype Sys = Sys(mem: Memory, pdpt: seq<Entry>, used: set<nat>, words: nat)

  /** Halted is the kernel's panic. */
  datatype Outcome = Halted | Next(sys: Sys)

  // ------------------------------------------------------------------------------------------
  // Steps on values
  // ------------------------------------------------------------------------------------------

  ghost predicate SysOk(s: Sys, pds: set<Frame>) {
    && |s.pdpt| == 4 && TablesOk(s.mem, pds)
    && (forall p :: 0 <= p < 4 && Present(s.pdpt[p]) ==> FrameOf(s.pdpt[p]) in pds)
    && (forall p, q :: 0 <= p < q < 4 && Present(s.pdpt[p]) && Present(s.pdpt[q]) ==>
                         FrameOf(s.pdpt[p]) != FrameOf(s.pdpt[q]))
    && LAST_FRAME + 1 < 32 * s.words <= NO_FRAME
    && LAST_FRAME + 1 !in s.used
    && (forall i: nat :: i <= LAST_FRAME ==> PageNo(i) in s.mem)
    && (forall i: nat :: i <= LAST_FRAME && IsTable(s.mem, pds, PageNo(i)) ==> i in s.used)
  }

  /** The quarter of `v` has a directory, and `v` is not in the recursive window. */
  predicate Editable(s: Sys, v: nat) {
    |s.pdpt| == 4 && v < 4 * GIB && Present(s.pdpt[v / GIB]) && DirIndex(v) != 511
  }

  function DirOf(s: Sys, v: nat): Frame
    requires Editable(s, v)
  {
    FrameOf(s.pdpt[v / GIB])
  }

  /** Since no frame past the last allocatable one is ever marked, the allocator finds one or panics. */
  lemma FrameLeft(s: Sys, pds: set<Frame>)
    requires SysOk(s, pds)
    ensures var r := LeastFree(s.used, 0, 32 * s.words);
            && r.Some? && r.value <= LAST_FRAME + 1 && r.value !in s.used
            && (r.value <= LAST_FRAME ==> PageNo(r.value) in s.mem && !IsTable(s.mem, pds, PageNo(r.value)))
  {
    LeastFreeUnused(s.used, 0, 32 * s.words);
  }

  /** `create_new_pae_pt`, if the directory has no table for `v`. */
  ghost function TableStep(s: Sys, pds: set<Frame>, v: nat): Outcome
    requires SysOk(s, pds) && Editable(s, v)
  {
    if HasTable(s.mem, DirOf(s, v), DirIndex(v)) then Next(s)
    else
      FrameLeft(s, pds);
      var i := LeastFree(s.used, 0, 32 * s.words).value;
      if i > LAST_FRAME then Halted
      else Next(s.(mem := WithTable(s.mem, DirOf(s, v), DirIndex(v), PageNo(i)), used := s.used + {i}))
  }

  lemma TableStepKeeps(s: Sys, pds: set<Frame>, v: nat)
    requires SysOk(s, pds) && Editable(s, v) && TableStep(s, pds, v).Next?
    ensures var s' := TableStep(s, pds, v).sys;
            && SysOk(s', pds) && HasTable(s'.mem, DirOf(s, v), DirIndex(v)) && DirOf(s, v) in pds
            && s'.pdpt == s.pdpt && s'.words == s.words && s.used <= s'.used
            && (forall qd, d: nat, t: nat :: qd in pds && d < 511 && t < 512 ==>
                                               Translate(s'.mem, qd, d, t) == Translate(s.mem, qd, d, t))
  {
    if !HasTable(s.mem, DirOf(s, v), DirIndex(v)) {
      FrameLeft(s, pds);
      var f := PageNo(LeastFree(s.used, 0, 32 * s.words).value);
      TableChangesNone(s.mem, pds, DirOf(s, v), DirIndex(v), f);
    }
  }

  /** `pae_mmap`. */
  ghost function MapStep(s: Sys, pds: set<Frame>, maxBits: nat, phys: nat, v: nat, flags: nat): Outcome
    requires SysOk(s, pds) && Editable(s, v)
  {
    if phys / Pow2(maxBits) != 0 || phys % 0x400 != 0 then Halted
    else
      var r := TableStep(s, pds, v);
      if r.Halted? then Halted
      else
        TableStepKeeps(s, pds, v);
        Next(r.sys.(mem := WithEntry(r.sys.mem, DirOf(s, v), DirIndex(v), TableIndex(v), BitOr(phys, flags))))
  }

  /** The page at `v` can be edited, but its directory has no table for it. */
  predicate Lacks(s: Sys, v: nat) { Editable(s, v) && !HasTable(s.mem, DirOf(s, v), DirIndex(v)) }

  /** A mapping succeeds exactly if the address fits, is a multiple of 1024, and there is a table or a frame for one. */
  lemma MapSucceeds(s: Sys, pds: set<Frame>, maxBits: nat, phys: nat, v: nat, flags: nat)
    requires SysOk(s, pds) && Editable(s, v)
    ensures MapStep(s, pds, maxBits, phys, v, flags).Next? <==>
            phys < Pow2(maxBits) && phys % 0x400 == 0 && (Lacks(s, v) ==> FreeFrames(s.used) != {})
  {
    BelowPower(phys, Pow2(maxBits));
    FrameFree(s.used, 32 * s.words);
  }

  lemma WholePage(phys: nat)
    requires phys % PAGE == 0
    ensures phys % 0x400 == 0 && phys / PAGE * PAGE == phys
  {
    assert phys == 0x400 * (4 * (phys / PAGE));
  }

  lemma BelowPower(a: nat, p: nat)
    requires p > 0
    ensures a / p == 0 <==> a < p
  {
  }

  /** A table is all that it takes a frame for. */
  lemma MapFrames(s: Sys, pds: set<Frame>, maxBits: nat, phys: nat, v: nat, flags: nat)
    requires SysOk(s, pds) && Editable(s, v) && MapStep(s, pds, maxBits, phys, v, flags).Next?
    ensures |FreeFrames(MapStep(s, pds, maxBits, phys, v, flags).sys.used)|
         == |FreeFrames(s.used)| - if Lacks(s, v) then 1 else 0
  {
    FrameFree(s.used, 32 * s.words);
  }

  /** Afterwards the table is there, and no other one has come or gone. */
  lemma MapTables(s: Sys, pds: set<Frame>, maxBits: nat, phys: nat, v: nat, flags: nat, w: nat)
    requires SysOk(s, pds) && Editable(s, v) && MapStep(s, pds, maxBits, phys, v, flags).Next?
    ensures Lacks(MapStep(s, pds, maxBits, phys, v, flags).sys, w) <==> Lacks(s, w) && w / DIR != v / DIR
  {
    var (s1, s') := (TableStep(s, pds, v).sys, MapStep(s, pds, maxBits, phys, v, flags).sys);
    TableStepKeeps(s, pds, v);
    if Editable(s, w) {
      SameRegion(v, w);
      assert DirOf(s, v) == DirOf(s, w) <==> v / GIB == w / GIB;
      TablesAdded(s, pds, v, DirOf(s, w), DirIndex(w));
      assert s'.mem[DirOf(s, w)] == s1.mem[DirOf(s, w)];
    }
  }

  lemma SameRegion(v: nat, w: nat)
    ensures v / DIR == w / DIR <==> v / GIB == w / GIB && DirIndex(v) == DirIndex(w)
  {
    assert v / DIR == v / GIB * 512 + DirIndex(v) && w / DIR == w / GIB * 512 + DirIndex(w);
  }

  lemma TablesAdded(s: Sys, pds: set<Frame>, v: nat, qd: Frame, d: nat)
    requires SysOk(s, pds) && Editable(s, v) && TableStep(s, pds, v).Next? && qd in pds
    ensures HasTable(TableStep(s, pds, v).sys.mem, qd, d) <==>
            HasTable(s.mem, qd, d) || (qd == DirOf(s, v) && d == DirIndex(v))
  {
    if !HasTable(s.mem, DirOf(s, v), DirIndex(v)) {
      FrameLeft(s, pds);
      var f := PageNo(LeastFree(s.used, 0, 32 * s.words).value);
      NewTableFrames(s.mem, TableStep(s, pds, v).sys.mem, pds, DirOf(s, v), DirIndex(v), f);
    }
  }

  /** The bitmap index that `pae_unmap` computes from an entry, cut to 32 bits. */
  function ReleasedIndex(e: Entry): nat {
    PhysicalToFrame(e / PAGE * PAGE % WORD)
  }

  function Released(used: set<nat>, words: nat, e: Entry): set<nat> {
    if ReleasedIndex(e) > words then used else used - {ReleasedIndex(e)}
  }

  /** The page number that `pae_unmap` reads off an entry: its address is cut to 32 bits. */
  function CutPage(e: Entry): nat { e / PAGE % (WORD / PAGE) }

  lemma CutIndex(e: Entry)
    ensures ReleasedIndex(e) ==
            if CutPage(e) >= PageNo(0) then CutPage(e) - PageNo(0) else CutPage(e) + ReleasedIndex(0)
    ensures ReleasedIndex(0) == WORD / PAGE - PageNo(0)
  {
    var f, n, q := e / PAGE, CutPage(e), e / PAGE / (WORD / PAGE);
    assert f * PAGE == WORD * q + n * PAGE && n * PAGE < WORD;
    assert f * PAGE % WORD == n * PAGE;
    if n < PageNo(0) {
      assert (n * PAGE - FIRST_PAGE) % WORD == n * PAGE - FIRST_PAGE + WORD;
    } else {
      assert (n * PAGE - FIRST_PAGE) % WORD == (n - PageNo(0)) * PAGE;
    }
  }

  /** What unmapping does to a bitmap of fewer frames than there are 32-bit pages: exactly the managed page with that
      number is released. So the bitmap stays as it was if and only if there is none, or it is free already. */
  lemma ReleasesExactly(used: set<nat>, words: nat, e: Entry)
    requires words < ReleasedIndex(0)
    ensures var n := CutPage(e);
            && Released(used, words, e) == (if PageNo(0) <= n <= PageNo(words) then used - {n - PageNo(0)} else used)
            && (Released(used, words, e) == used <==> !(PageNo(0) <= n <= PageNo(words) && n - PageNo(0) in used))
  {
    CutIndex(e);
  }

  lemma Managed(used: set<nat>, words: nat, e: Entry)
    ensures words < 0xf_ff00 ==>
              var n := e / 0x1000 % 0x10_0000;
              Released(used, words, e) == if 0x100 <= n <= 0x100 + words then used - {n - 0x100} else used
  {
    CutIndex(e);
    if words < 0xf_ff00 { ReleasesExactly(used, words, e); }
  }

  /** The entry for `v`, present or not. */
  function RawEntry(mem: Memory, pd: Frame, d: nat, t: nat): Entry
    requires d < 511 && t < 512 && pd in mem && TableOf(mem, pd, d) in mem
  {
    mem[TableOf(mem, pd, d)][t]
  }

  /** `pae_unmap`, where the directory has a table for `v`. */
  function UnmapStep(s: Sys, v: nat): Sys
    requires Editable(s, v) && HasTable(s.mem, DirOf(s, v), DirIndex(v))
    requires TableOf(s.mem, DirOf(s, v), DirIndex(v)) in s.mem
  {
    var (pd, d, t) := (DirOf(s, v), DirIndex(v), TableIndex(v));
    s.(mem := WithEntry(s.mem, pd, d, t, 0), used := Released(s.used, s.words, RawEntry(s.mem, pd, d, t)))
  }

  /** The physical addresses of a space's three directories, `pd_low`, `pd_mid` and `pd_high`. */
  datatype Space = Space(low: nat, mid: nat, high: nat)

  /** `set_current_vmm`: the three lower entries are replaced if the space has directories of its own. */
  function SwitchStep(pdpt: seq<Entry>, a: Space): seq<Entry>
    requires |pdpt| == 4
  {
    if a.low != 0 then [BitOr(a.low, 1), BitOr(a.mid, 1), BitOr(a.high, 1), pdpt[3]] else pdpt
  }

  // ------------------------------------------------------------------------------------------
  // The routines
  // ------------------------------------------------------------------------------------------

  class Machine {
    var mem: Memory
    var pdpt: seq<Entry>
    const bitmap: Bitmap
    const maxBits: nat

    constructor (mem: Memory, pdpt: seq<Entry>, bitmap: Bitmap, maxBits: nat)
      ensures this.mem == mem && this.pdpt == pdpt && this.bitmap == bitmap && this.maxBits == maxBits
    {
      this.mem := mem;
      this.pdpt := pdpt;
      this.bitmap := bitmap;
      this.maxBits := maxBits;
    }

    ghost function State(): Sys
      reads this, bitmap.frames
    {
      Sys(mem, pdpt, bitmap.Used(), bitmap.frames.Length)
    }

    /** A 64-bit load at a virtual address that is mapped to memory. */
    method Load(v: nat) returns (e: Entry)
      requires |pdpt| == 4 && v < 4 * GIB && v % 8 == 0
      requires Walk(mem, pdpt, v).Some? && Walk(mem, pdpt, v).value.frame in mem
      ensures e == mem[Walk(mem, pdpt, v).value.frame][v % PAGE / 8]
    {
      e := mem[Walk(mem, pdpt, v).value.frame][v % PAGE / 8];
    }

    /** A 64-bit store at a virtual address that is mapped to memory. */
    method Store(v: nat, e: Entry)
      requires |pdpt| == 4 && v < 4 * GIB && v % 8 == 0
      requires Walk(mem, pdpt, v).Some? && Walk(mem, pdpt, v).value.frame in mem
      modifies this`mem
      ensures var f := Walk(old(mem), pdpt, v).value.frame;
              mem == old(mem)[f := old(mem)[f][v % PAGE / 8 := e]]
    {
      var f := Walk(mem, pdpt, v).value.frame;
      mem := mem[f := mem[f][v % PAGE / 8 := e]];
    }

    /** Table `d` of quarter `p` is visible in the window and is frame `f`. */
    ghost predicate Visible(p: nat, d: nat, f: Frame)
      reads this
    {
      && |pdpt| == 4 && p < 4 && d < 512 && Present(pdpt[p]) && SelfMapped(mem, FrameOf(pdpt[p]))
      && Present(mem[FrameOf(pdpt[p])][d]) && FrameOf(mem[FrameOf(pdpt[p])][d]) == f && f in mem
    }

    /** Reading entry `i` of table `d` through the window. */
    method LoadTable(p: nat, d: nat, i: nat, ghost f: Frame) returns (e: Entry)
      requires Visible(p, d, f) && i < 512
      ensures e == mem[f][i]
    {
      WindowWalk(mem, pdpt, p, d, i);
      WindowIndices(p, d, i);
      e := Load(TableAddress(p, d, i));
    }

    /** Writing entry `i` of table `d` through the window. */
    method StoreTable(p: nat, d: nat, i: nat, e: Entry, ghost f: Frame)
      requires Visible(p, d, f) && i < 512
      modifies this`mem
      ensures mem == old(mem)[f := old(mem)[f][i := e]]
    {
      WindowWalk(mem, pdpt, p, d, i);
      WindowIndices(p, d, i);
      Store(TableAddress(p, d, i), e);
    }

    /** `memset` of a whole table to zero, through the window. */
    method ClearTable(p: nat, d: nat, ghost f: Frame)
      requires Visible(p, d, f) && d < 511 && f != FrameOf(pdpt[p])
      modifies this`mem
      ensures mem == old(mem)[f := ZeroTable()]
    {
      var i := 0;
      while i < 512
        invariant 0 <= i <= 512 && f in mem && Visible(p, d, f)
        invariant mem == old(mem)[f := mem[f]]
        invariant forall k :: 0 <= k < i ==> mem[f][k] == 0
      {
        StoreTable(p, d, i, 0, f);
        i := i + 1;
      }
      assert mem[f] == ZeroTable();
    }

    /** `get_phys_from_virt`: zero where no table is, otherwise the entry without its low bits. */
    method GetPhysFromVirt(v: nat, ghost pds: set<Frame>) returns (phys: nat)
      requires SysOk(State(), pds) && Editable(State(), v)
      ensures var pd := DirOf(State(), v);
              phys == if HasTable(mem, pd, DirIndex(v))
              then RawEntry(mem, pd, DirIndex(v), TableIndex(v)) / PAGE * PAGE
              else 0
      ensures Walk(mem, pdpt, v).Some? ==> phys / PAGE % 0x100_0000_0000 == Walk(mem, pdpt, v).value.frame
    {
      var pdpte := v / GIB;
      var pdIndex := DirIndex(v);
      var ptIndex := TableIndex(v);
      ghost var pd := FrameOf(pdpt[pdpte]);
      var pde := LoadTable(pdpte, 511, pdIndex, pd);
      if !Present(pde) {
        return 0;
      }
      var pte := LoadTable(pdpte, pdIndex, ptIndex, TableOf(mem, pd, pdIndex));
      return pte / PAGE * PAGE;
    }

    /** `create_new_pae_pt`, where the quarter has a directory: a frame is hung into the directory and
        then zeroed through the window. */
    method CreateNewPaePt(pdpte: nat, pdIndex: nat, ghost v: nat, ghost pds: set<Frame>) returns (ok: bool)
      requires SysOk(State(), pds) && Editable(State(), v)
      requires pdpte == v / GIB && pdIndex == DirIndex(v) && !HasTable(mem, DirOf(State(), v), pdIndex)
      modifies this`mem, bitmap, bitmap.frames
      ensures ok <==> FreeFrames(old(bitmap.Used())) != {}
      ensures ok <==> TableStep(old(State()), pds, v).Next?
      ensures ok ==> State() == TableStep(old(State()), pds, v).sys
    {
      ghost var s := State();
      FrameLeft(s, pds);
      FrameFree(s.used, 32 * s.words);
      var r := bitmap.AllocPhysPage();
      if r.Panic? {
        return false;
      }
      ghost var i := LeastFree(s.used, 0, 32 * s.words).value;
      HangIn(pdpte, pdIndex, r.address, FrameOf(pdpt[pdpte]), PageNo(i));
      ok := true;
    }

    /** The writes of `create_new_pae_pt`. */
    method HangIn(pdpte: nat, pdIndex: nat, newPt: nat, ghost pd: Frame, ghost f: Frame)
      requires Visible(pdpte, 511, pd) && pdIndex < 511 && FrameOf(pdpt[pdpte]) == pd
      requires newPt == f * PAGE && f in mem && f != pd && f < 0x100_0000_0000
      modifies this`mem
      ensures mem == WithTable(old(mem), pd, pdIndex, f)
    {
      PageEntry(newPt, 3);
      SplitEntry(f, 3);
      StoreTable(pdpte, 511, pdIndex, BitOr(newPt, 3), pd);
      ClearTable(pdpte, pdIndex, f);
    }

    method PaeMmap(phys: nat, virt: nat, flags: nat, ghost pds: set<Frame>) returns (ok: bool)
      requires SysOk(State(), pds) && Editable(State(), virt)
      modifies this`mem, bitmap, bitmap.frames
      ensures ok <==>
              && phys < Pow2(maxBits) && phys % 0x400 == 0
              && (HasTable(old(mem), DirOf(old(State()), virt), DirIndex(virt)) || FreeFrames(old(bitmap.Used())) != {})
      ensures ok <==> MapStep(old(State()), pds, maxBits, phys, virt, flags).Next?
      ensures ok ==> State() == MapStep(old(State()), pds, maxBits, phys, virt, flags).sys
    {
      var pdpte := virt / GIB;
      var pdIndex := DirIndex(virt);
      var ptIndex := TableIndex(virt);
      ghost var s := State();
      ghost var pd := DirOf(s, virt);
      MapSucceeds(s, pds, maxBits, phys, virt, flags);
      if phys / Pow2(maxBits) != 0 {
        return false;
      }
      if phys % 0x400 != 0 {
        return false;
      }
      var pde := LoadTable(pdpte, 511, pdIndex, pd);
      if !Present(pde) {
        ok := CreateNewPaePt(pdpte, pdIndex, virt, pds);
        if !ok {
          return false;
        }
      }
      TableStepKeeps(s, pds, virt);
      ghost var pt := TableOf(mem, pd, pdIndex);
      ghost var table := mem[pt];
      StoreTable(pdpte, pdIndex, ptIndex, 0, pt);
      StoreTable(pdpte, pdIndex, ptIndex, BitOr(phys, flags), pt);
      assert table[ptIndex := 0][ptIndex := BitOr(phys, flags)] == table[ptIndex := BitOr(phys, flags)];
      ok := true;
    }

    method PaeUnmap(virt: nat, ghost pds: set<Frame>)
      requires SysOk(State(), pds) && Editable(State(), virt)
      requires HasTable(mem, DirOf(State(), virt), DirIndex(virt))
      modifies this`mem, bitmap.frames
      ensures State() == UnmapStep(old(State()), virt)
      ensures bitmap.frames.Length < 0xf_ff00 ==>
                var e := RawEntry(old(mem), DirOf(old(State()), virt), DirIndex(virt), TableIndex(virt));
                var n := e / 0x1000 % 0x10_0000;
                bitmap.Used() == if 0x100 <= n <= 0x100 + bitmap.frames.Length then old(bitmap.Used()) - {n - 0x100}
                else old(bitmap.Used())
    {
      var pdpte := virt / GIB;
      var pdIndex := DirIndex(virt);
      var ptIndex := TableIndex(virt);
      ghost var pt := TableOf(mem, DirOf(State(), virt), pdIndex);
      var pte := LoadTable(pdpte, pdIndex, ptIndex, pt);
      Managed(bitmap.Used(), bitmap.frames.Length, pte);
      var phys := pte / PAGE * PAGE % WORD;
      bitmap.ClearFrame(PhysicalToFrame(phys));
      StoreTable(pdpte, pdIndex, ptIndex, 0, pt);
    }

    /** `set_current_vmm`, with the reload of `cr3` taking effect at once. */
    method SetCurrentVmm(a: Space)
      requires |pdpt| == 4
      modifies this`pdpt
      ensures State() == old(State()).(pdpt := SwitchStep(old(pdpt), a))
      ensures a.low == 0 ==> pdpt == old(pdpt)
    {
      if a.low != 0 {
        pdpt := pdpt[0 := BitOr(a.low, 1)];
        pdpt := pdpt[1 := BitOr(a.mid, 1)];
        pdpt := pdpt[2 := BitOr(a.high, 1)];
      }
    }
  }
}
