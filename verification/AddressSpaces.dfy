/** What mapping, unmapping and switching do to whole translation functions, over whole runs. */
module AddressSpaces {
  import opened Common
  import opened FrameBitmap
  import opened PageTables
  import opened Paging

  // ------------------------------------------------------------------------------------------
  // One mapping changes one translation
  // ------------------------------------------------------------------------------------------

  /** The translation that an entry stands for. */
  function EntryMapping(e: Entry): Option<Mapping> {
    if Present(e) then Some(Mapping(FrameOf(e), FlagsOf(e))) else None
  }

  /** Two addresses are on the same page exactly if all their indices agree. */
  lemma PageIndices(v: nat, w: nat)
    requires v < 4 * GIB && w < 4 * GIB
    ensures v / PAGE == w / PAGE <==> v / GIB == w / GIB && DirIndex(v) == DirIndex(w) && TableIndex(v) == TableIndex(w)
  {
    assert v / PAGE == (v / GIB * 512 + DirIndex(v)) * 512 + TableIndex(v);
    assert w / PAGE == (w / GIB * 512 + DirIndex(w)) * 512 + TableIndex(w);
  }

  /** Only the translation of (pd, d, t) differs, and it is now that of `e`. */
  ghost predicate OnlyAt(mem: Memory, mem': Memory, pds: set<Frame>, pd: Frame, d: nat, t: nat, e: Entry)
    requires d < 511 && t < 512
  {
    && Translate(mem', pd, d, t) == EntryMapping(e)
    && forall qd, d': nat, t': nat :: qd in pds && d' < 511 && t' < 512 && (qd, d', t') != (pd, d, t) ==>
                                        Translate(mem', qd, d', t') == Translate(mem, qd, d', t')
  }

  lemma MapChangesOne(s: Sys, pds: set<Frame>, maxBits: nat, phys: nat, v: nat, flags: nat)
    requires SysOk(s, pds) && Editable(s, v) && MapStep(s, pds, maxBits, phys, v, flags).Next?
    ensures var s' := MapStep(s, pds, maxBits, phys, v, flags).sys;
            && SysOk(s', pds) && s'.pdpt == s.pdpt && s'.words == s.words
            && OnlyAt(s.mem, s'.mem, pds, DirOf(s, v), DirIndex(v), TableIndex(v), BitOr(phys, flags))
  {
    TableStepKeeps(s, pds, v);
    var s1 := TableStep(s, pds, v).sys;
    EntryChangesOne(s1.mem, pds, DirOf(s, v), DirIndex(v), TableIndex(v), BitOr(phys, flags));
  }

  /** What a change of one entry means for the addresses of the current space. */
  lemma WalkChangesOne(s: Sys, mem': Memory, pds: set<Frame>, v: nat, e: Entry, w: nat)
    requires SysOk(s, pds) && Editable(s, v) && w < 4 * GIB && DirIndex(w) != 511
    requires OnlyAt(s.mem, mem', pds, DirOf(s, v), DirIndex(v), TableIndex(v), e)
    ensures Walk(mem', s.pdpt, w) == if w / PAGE == v / PAGE then EntryMapping(e) else Walk(s.mem, s.pdpt, w)
  {
    PageIndices(v, w);
    if Present(s.pdpt[w / GIB]) && w / PAGE != v / PAGE {
      var (qd, d', t') := (FrameOf(s.pdpt[w / GIB]), DirIndex(w), TableIndex(w));
      assert (qd, d', t') != (DirOf(s, v), DirIndex(v), TableIndex(v));
    }
  }

  /** `pae_mmap` makes the hardware walk of `virt` yield the physical page with its flags, and leaves the
      walk of every other page outside the recursive window as it was, also when it adds a table. */
  lemma MmapTranslates(s: Sys, pds: set<Frame>, maxBits: nat, phys: nat, v: nat, flags: nat, w: nat)
    requires SysOk(s, pds) && Editable(s, v) && MapStep(s, pds, maxBits, phys, v, flags).Next?
    requires phys % PAGE == 0 && phys < 0x10_0000_0000_0000 && flags < PAGE && flags % 2 == 1
    requires w < 4 * GIB && DirIndex(w) != 511
    ensures var s' := MapStep(s, pds, maxBits, phys, v, flags).sys;
            Walk(s'.mem, s'.pdpt, w) == if w / PAGE == v / PAGE then Some(Mapping(phys / PAGE, flags))
            else Walk(s.mem, s.pdpt, w)
  {
    MapChangesOne(s, pds, maxBits, phys, v, flags);
    PageEntry(phys, flags);
    WalkChangesOne(s, MapStep(s, pds, maxBits, phys, v, flags).sys.mem, pds, v, BitOr(phys, flags), w);
  }

  // ------------------------------------------------------------------------------------------
  // Who owns a frame
  // ------------------------------------------------------------------------------------------

  /** A table entry that maps a page, present or not. */
  predicate HasLeaf(mem: Memory, pd: Frame, d: nat, t: nat) {
    t < 512 && HasTable(mem, pd, d) && TableOf(mem, pd, d) in mem
  }

  /** Unmapping this entry would release a frame of the bitmap. */
  predicate Owns(e: Entry, words: nat) { ReleasedIndex(e) <= words }

  /** The frames that mapped pages would release are marked, are no tables, and no two are the same. */
  ghost predicate LeavesOk(s: Sys, pds: set<Frame>) {
    && s.words < ReleasedIndex(0)
    && (forall pd, d: nat, t: nat :: pd in pds && HasLeaf(s.mem, pd, d, t) &&
                                     Owns(RawEntry(s.mem, pd, d, t), s.words) ==>
                                       var i := ReleasedIndex(RawEntry(s.mem, pd, d, t));
                                       i in s.used && !IsTable(s.mem, pds, PageNo(i)))
    && (forall pd, d: nat, t: nat, qd, e: nat, u: nat ::
          (pd in pds && qd in pds && HasLeaf(s.mem, pd, d, t) && HasLeaf(s.mem, qd, e, u) &&
           Owns(RawEntry(s.mem, pd, d, t), s.words) &&
           ReleasedIndex(RawEntry(s.mem, pd, d, t)) == ReleasedIndex(RawEntry(s.mem, qd, e, u))) ==>
            (pd, d, t) == (qd, e, u))
  }

  /** The caller may map this entry: a frame it would release is marked, no table, and mapped nowhere. */
  ghost predicate MayMap(s: Sys, pds: set<Frame>, e: Entry) {
    Owns(e, s.words) ==>
      var i := ReleasedIndex(e);
      && i in s.used && !IsTable(s.mem, pds, PageNo(i))
      && forall pd, d: nat, t: nat :: pd in pds && HasLeaf(s.mem, pd, d, t) ==>
                                        ReleasedIndex(RawEntry(s.mem, pd, d, t)) != i
  }

  /** Adding a table keeps ownership: its frame was free, so no page maps it. */
  lemma TableKeepsLeaves(s: Sys, pds: set<Frame>, v: nat, e: Entry)
    requires SysOk(s, pds) && LeavesOk(s, pds) && Editable(s, v) && TableStep(s, pds, v).Next? && MayMap(s, pds, e)
    ensures LeavesOk(TableStep(s, pds, v).sys, pds) && MayMap(TableStep(s, pds, v).sys, pds, e)
  {
    if !HasTable(s.mem, DirOf(s, v), DirIndex(v)) {
      FrameLeft(s, pds);
      var i := LeastFree(s.used, 0, 32 * s.words).value;
      var s' := TableStep(s, pds, v).sys;
      NewTableFrames(s.mem, s'.mem, pds, DirOf(s, v), DirIndex(v), PageNo(i));
      forall pd, d: nat, t: nat | pd in pds && HasLeaf(s'.mem, pd, d, t)
        ensures RawEntry(s'.mem, pd, d, t) ==
                0 || (HasLeaf(s.mem, pd, d, t) && RawEntry(s'.mem, pd, d, t) == RawEntry(s.mem, pd, d, t))
      {
        if (pd, d) != (DirOf(s, v), DirIndex(v)) {
          assert TableOf(s'.mem, pd, d) == TableOf(s.mem, pd, d) != PageNo(i);
          assert TableOf(s.mem, pd, d) !in pds;
        }
      }
    }
  }

  /** Writing an entry that the caller may map keeps ownership. */
  lemma EntryKeepsLeaves(s: Sys, pds: set<Frame>, pd: Frame, d: nat, t: nat, e: Entry)
    requires SysOk(s, pds) && LeavesOk(s, pds) && pd in pds && HasTable(s.mem, pd, d) && t < 512 && MayMap(s, pds, e)
    ensures LeavesOk(s.(mem := WithEntry(s.mem, pd, d, t, e)), pds)
  {
    var mem' := WithEntry(s.mem, pd, d, t, e);
    EntryChangesOne(s.mem, pds, pd, d, t, e);
    LeavesAfter(s.mem, pds, pd, d, t, e);
  }

  lemma LeavesAfter(mem: Memory, pds: set<Frame>, pd: Frame, d: nat, t: nat, e: Entry)
    requires TablesOk(mem, pds) && pd in pds && HasTable(mem, pd, d) && t < 512
    ensures var mem' := WithEntry(mem, pd, d, t, e);
            && (forall qd, d': nat, t': nat :: qd in pds ==> HasLeaf(mem', qd, d', t') == HasLeaf(mem, qd, d', t'))
            && (forall qd, d': nat, t': nat :: qd in pds && HasLeaf(mem, qd, d', t') ==>
                                                 RawEntry(mem', qd, d', t') ==
                                                 if (qd, d', t') == (pd, d, t) then e else RawEntry(mem, qd, d', t'))
  {
    var mem' := WithEntry(mem, pd, d, t, e);
    assert forall qd :: qd in pds ==> mem'[qd] == mem[qd];
  }

  lemma MapKeepsLeaves(s: Sys, pds: set<Frame>, maxBits: nat, phys: nat, v: nat, flags: nat)
    requires SysOk(s, pds) && LeavesOk(s, pds) && Editable(s, v) && MapStep(s, pds, maxBits, phys, v, flags).Next?
    requires MayMap(s, pds, BitOr(phys, flags))
    ensures LeavesOk(MapStep(s, pds, maxBits, phys, v, flags).sys, pds)
  {
    TableStepKeeps(s, pds, v);
    TableKeepsLeaves(s, pds, v, BitOr(phys, flags));
    var s1 := TableStep(s, pds, v).sys;
    EntryKeepsLeaves(s1, pds, DirOf(s, v), DirIndex(v), TableIndex(v), BitOr(phys, flags));
  }

  /** Unmapping the page at `v` would release a frame that holds a table. */
  ghost predicate ReleasesTable(s: Sys, pds: set<Frame>, v: nat)
    requires SysOk(s, pds) && Editable(s, v) && HasTable(s.mem, DirOf(s, v), DirIndex(v))
  {
    var i := ReleasedIndex(RawEntry(s.mem, DirOf(s, v), DirIndex(v), TableIndex(v)));
    i <= s.words && i <= LAST_FRAME && IsTable(s.mem, pds, PageNo(i))
  }

  /** `pae_unmap` removes one translation and no other. All invariants last if and only if it releases no frame that
      holds a table. */
  lemma UnmapChangesOne(s: Sys, pds: set<Frame>, v: nat)
    requires SysOk(s, pds) && Editable(s, v) && HasTable(s.mem, DirOf(s, v), DirIndex(v))
    ensures var s' := UnmapStep(s, v);
            && s'.pdpt == s.pdpt && s'.words == s.words
            && OnlyAt(s.mem, s'.mem, pds, DirOf(s, v), DirIndex(v), TableIndex(v), 0)
            && (SysOk(s', pds) <==> !ReleasesTable(s, pds, v))
  {
    var (pd, d, t) := (DirOf(s, v), DirIndex(v), TableIndex(v));
    EntryChangesOne(s.mem, pds, pd, d, t, 0);
  }

  /** While each managed frame is mapped at most once, and no table's frame is, an unmapping releases a frame that
      nothing else uses, and so it stays. */
  lemma UnmapKeepsLeaves(s: Sys, pds: set<Frame>, v: nat)
    requires SysOk(s, pds) && LeavesOk(s, pds) && Editable(s, v) && HasTable(s.mem, DirOf(s, v), DirIndex(v))
    ensures !ReleasesTable(s, pds, v) && LeavesOk(UnmapStep(s, v), pds)
  {
    var (pd, d, t) := (DirOf(s, v), DirIndex(v), TableIndex(v));
    EntryChangesOne(s.mem, pds, pd, d, t, 0);
    LeavesAfter(s.mem, pds, pd, d, t, 0);
    assert HasLeaf(s.mem, pd, d, t);
  }

  /** A page that was just allocated may be mapped. */
  lemma FreshMayMap(s: Sys, pds: set<Frame>, flags: nat)
    requires SysOk(s, pds) && LeavesOk(s, pds) && flags < PAGE
    requires LeastFree(s.used, 0, 32 * s.words).Some? && LeastFree(s.used, 0, 32 * s.words).value <= LAST_FRAME
    ensures var i := LeastFree(s.used, 0, 32 * s.words).value;
            var s1 := s.(used := s.used + {i});
            SysOk(s1, pds) && LeavesOk(s1, pds) && MayMap(s1, pds, BitOr(FrameToPhysical(i), flags))
  {
    FrameLeft(s, pds);
    FrameEntry(LeastFree(s.used, 0, 32 * s.words).value, flags);
  }

  /** The entry for an allocatable frame, and what unmapping it would release. */
  lemma FrameEntry(i: nat, flags: nat)
    requires i <= LAST_FRAME && flags < PAGE
    ensures FrameToPhysical(i) == PageNo(i) * PAGE < 0x200_0000
    ensures var e := BitOr(FrameToPhysical(i), flags);
            ReleasedIndex(e) == i && FrameOf(e) == PageNo(i) && FlagsOf(e) == flags && (Present(e) <==> flags % 2 == 1)
  {
    var phys := FrameToPhysical(i);
    assert phys == FIRST_PAGE + i * PAGE;
    PageEntry(phys, flags);
    assert (phys + flags) / PAGE == PageNo(i);
  }

  // ------------------------------------------------------------------------------------------
  // Map, then unmap
  // ------------------------------------------------------------------------------------------

  /** The state after a page was allocated and mapped at `v`, as long as the kernel does not panic. */
  ghost predicate MapsFresh(s: Sys, pds: set<Frame>, maxBits: nat, v: nat, flags: nat, i: nat, s2: Sys) {
    && SysOk(s, pds) && Editable(s, v) && flags < PAGE && flags % 2 == 1
    && LeastFree(s.used, 0, 32 * s.words) == Some(i) && i <= LAST_FRAME
    && var s1 := s.(used := s.used + {i});
    && SysOk(s1, pds)
    && MapStep(s1, pds, maxBits, FrameToPhysical(i), v, flags) == Next(s2)
  }

  /** The new page is the only translation that changed, and its frame the only one it would release. */
  lemma MapsFreshFacts(s: Sys, pds: set<Frame>, maxBits: nat, v: nat, flags: nat, i: nat, s2: Sys)
    requires MapsFresh(s, pds, maxBits, v, flags, i, s2)
    ensures SysOk(s2, pds) && Editable(s2, v) && s2.pdpt == s.pdpt && s2.words == s.words
    ensures HasTable(s2.mem, DirOf(s2, v), DirIndex(v)) && TableOf(s2.mem, DirOf(s2, v), DirIndex(v)) in s2.mem
    ensures var e := BitOr(FrameToPhysical(i), flags);
            && RawEntry(s2.mem, DirOf(s2, v), DirIndex(v), TableIndex(v)) == e
            && OnlyAt(s.mem, s2.mem, pds, DirOf(s, v), DirIndex(v), TableIndex(v), e)
            && ReleasedIndex(e) == i && EntryMapping(e) == Some(Mapping(PageNo(i), flags)) && i !in s.used
  {
    FrameLeft(s, pds);
    var s1 := s.(used := s.used + {i});
    MapChangesOne(s1, pds, maxBits, FrameToPhysical(i), v, flags);
    FrameEntry(i, flags);
    TableStepKeeps(s1, pds, v);
  }

  /** Mapping a fresh frame and unmapping it restores the walk of every other page. */
  lemma RoundTripWalks(s: Sys, pds: set<Frame>, maxBits: nat, v: nat, flags: nat, i: nat, s2: Sys, w: nat)
    requires MapsFresh(s, pds, maxBits, v, flags, i, s2) && w < 4 * GIB && DirIndex(w) != 511
    ensures Editable(s2, v) && HasTable(s2.mem, DirOf(s2, v), DirIndex(v))
    ensures TableOf(s2.mem, DirOf(s2, v), DirIndex(v)) in s2.mem &&
            Walk(s2.mem, s2.pdpt, v) == Some(Mapping(PageNo(i), flags))
    ensures var s3 := UnmapStep(s2, v);
            Walk(s3.mem, s3.pdpt, w) == if w / PAGE == v / PAGE then None else Walk(s.mem, s.pdpt, w)
  {
    MapsFreshFacts(s, pds, maxBits, v, flags, i, s2);
    var e := BitOr(FrameToPhysical(i), flags);
    UnmapChangesOne(s2, pds, v);
    WalkChangesOne(s, s2.mem, pds, v, e, v);
    WalkChangesOne(s, s2.mem, pds, v, e, w);
    WalkChangesOne(s2, UnmapStep(s2, v).mem, pds, v, 0, w);
  }

  /** It restores the bitmap too, for a frame up to `num_frames`, but for a table that was added. */
  lemma RoundTripFrames(s: Sys, pds: set<Frame>, maxBits: nat, v: nat, flags: nat, i: nat, s2: Sys)
    requires MapsFresh(s, pds, maxBits, v, flags, i, s2)
    ensures Editable(s2, v) && HasTable(s2.mem, DirOf(s2, v), DirIndex(v))
    ensures TableOf(s2.mem, DirOf(s2, v), DirIndex(v)) in s2.mem
    ensures var added := if HasTable(s.mem, DirOf(s, v), DirIndex(v)) then {}
                         else {LeastFree(s.used + {i}, 0, 32 * s.words).GetOr(0)};
            UnmapStep(s2, v).used == s.used + added + (if i <= s.words then {} else {i})
  {
    MapsFreshFacts(s, pds, maxBits, v, flags, i, s2);
    FrameLeft(s.(used := s.used + {i}), pds);
  }

  /** What it is for: to release the frame that the entry maps, if that one is managed. */
  function Intended(used: set<nat>, words: nat, e: Entry): set<nat> {
    if PageNo(0) <= FrameOf(e) <= PageNo(words) then used - {FrameOf(e) - PageNo(0)} else used
  }

  /** It does so if and only if the page lies below 4 GiB, or the page it takes it for is not managed and used. */
  lemma ReleasesIntended(used: set<nat>, words: nat, e: Entry)
    requires words < ReleasedIndex(0)
    ensures var n := CutPage(e);
            Released(used, words, e) == Intended(used, words, e)
            <==> FrameOf(e) < WORD / PAGE || !(PageNo(0) <= n <= PageNo(words) && n - PageNo(0) in used)
  {
    ReleasesExactly(used, words, e);
    CutIndex(e);
    var f, p := e / PAGE, WORD / PAGE;
    if FrameOf(e) < p {
      var q := f / 0x100_0000_0000;
      assert f == p * (q * (0x100_0000_0000 / p)) + FrameOf(e);
      assert f % p == FrameOf(e);
    }
  }

  /** Unmapping a device's page at 4 GiB + 1 MiB releases frame 0. */
  lemma CutAddressReleases()
    ensures var e := 0x1_0010_0003;
            Present(e) && FrameOf(e) == 0x10_0100 && Released({0, 1}, 2560, e) == {1} &&
            Intended({0, 1}, 2560, e) == {0, 1}
  {
    assert ReleasedIndex(0x1_0010_0003) == 0;
  }

  // ------------------------------------------------------------------------------------------
  // Switching
  // ------------------------------------------------------------------------------------------

  function LowDir(a: Space, p: nat): Frame
    requires p < 3
  {
    (if p == 0 then a.low else if p == 1 then a.mid else a.high) / PAGE
  }

  predicate SpaceOk(a: Space) {
    && a.low != 0
    && a.low % PAGE == 0 && a.mid % PAGE == 0 && a.high % PAGE == 0
    && a.low < WORD && a.mid < WORD && a.high < WORD
  }

  /** The translations of a space below 3 GiB, whether it is current or not. */
  function View(mem: Memory, a: Space, v: nat): Option<Mapping>
    requires v < 3 * GIB
  {
    Translate(mem, LowDir(a, v / GIB), DirIndex(v), TableIndex(v))
  }

  /** The entries above the directories are those of `a`, next to the kernel's. */
  predicate Installed(pdpt: seq<Entry>, a: Space) {
    && |pdpt| == 4
    && forall p :: 0 <= p < 3 ==> Present(pdpt[p]) && FrameOf(pdpt[p]) == LowDir(a, p)
  }

  lemma SwitchInstalls(pdpt: seq<Entry>, a: Space)
    requires |pdpt| == 4 && SpaceOk(a)
    ensures Installed(SwitchStep(pdpt, a), a) && SwitchStep(pdpt, a)[3] == pdpt[3]
  {
    PageEntry(a.low, 1);
    PageEntry(a.mid, 1);
    PageEntry(a.high, 1);
  }

  /** The walk of the current space is its own view, and a switch leaves the kernel's quarter alone. */
  lemma WalkIsView(mem: Memory, pdpt: seq<Entry>, a: Space, v: nat)
    requires Installed(pdpt, a) && v < 3 * GIB
    ensures Walk(mem, pdpt, v) == View(mem, a, v)
  {
  }

  lemma SwitchKeepsKernel(mem: Memory, pdpt: seq<Entry>, a: Space, v: nat)
    requires |pdpt| == 4 && 3 * GIB <= v < 4 * GIB
    ensures Walk(mem, SwitchStep(pdpt, a), v) == Walk(mem, pdpt, v)
  {
    assert v / GIB == 3;
  }

  /** A switch to a space without directories of its own changes no walk at all. */
  lemma SwitchKeepsShared(mem: Memory, pdpt: seq<Entry>, a: Space, v: nat)
    requires |pdpt| == 4 && a.low == 0 && v < 4 * GIB
    ensures Walk(mem, SwitchStep(pdpt, a), v) == Walk(mem, pdpt, v)
  {
  }

  // ------------------------------------------------------------------------------------------
  // Runs
  // ------------------------------------------------------------------------------------------

  datatype Op =
    | Switch(to: nat)
    | Map(phys: nat, v: nat, flags: nat)
    | MapFresh(v: nat, flags: nat)
    | Unmap(v: nat)

  /** The machine and which of the spaces is current. */
  datatype Run = Run(sys: Sys, current: nat)

  /** All directories: those of the spaces and the kernel's. */
  ghost predicate DirectoriesOk(spaces: seq<Space>, kernel: Frame, pds: set<Frame>) {
    && (forall a :: 0 <= a < |spaces| ==> SpaceOk(spaces[a]))
    && (forall a, p :: 0 <= a < |spaces| && 0 <= p < 3 ==> LowDir(spaces[a], p) in pds)
    && (forall a, p, b, q :: 0 <= a < |spaces| && 0 <= b < |spaces| && 0 <= p < 3 && 0 <= q < 3 && (a, p) != (b, q) ==>
                               LowDir(spaces[a], p) != LowDir(spaces[b], q))
    && kernel in pds && (forall a, p :: 0 <= a < |spaces| && 0 <= p < 3 ==> LowDir(spaces[a], p) != kernel)
  }

  ghost predicate RunOk(r: Run, spaces: seq<Space>, kernel: Frame, pds: set<Frame>) {
    && SysOk(r.sys, pds) && DirectoriesOk(spaces, kernel, pds)
    && r.current < |spaces| && Installed(r.sys.pdpt, spaces[r.current])
    && Present(r.sys.pdpt[3]) && FrameOf(r.sys.pdpt[3]) == kernel
  }

  /** What a caller has to respect: edits stay out of the recursive window, the kernel does not panic, and a page is
      unmapped only below an existing table, and only if no table's frame is released by that. */
  ghost predicate Enabled(r: Run, op: Op, spaces: seq<Space>, pds: set<Frame>, maxBits: nat)
    requires SysOk(r.sys, pds)
  {
    match op
    case Switch(to) => to < |spaces|
    case Map(phys, v, flags) =>
      Editable(r.sys, v) && MapStep(r.sys, pds, maxBits, phys, v, flags).Next?
    case MapFresh(v, flags) =>
      && Editable(r.sys, v) && flags < PAGE
      && var i := LeastFree(r.sys.used, 0, 32 * r.sys.words);
      && i.Some? && i.value <= LAST_FRAME
      && var s1 := r.sys.(used := r.sys.used + {i.value});
      SysOk(s1, pds) && MapStep(s1, pds, maxBits, FrameToPhysical(i.value), v, flags).Next?
    case Unmap(v) =>
      Editable(r.sys, v) && HasTable(r.sys.mem, DirOf(r.sys, v), DirIndex(v)) && !ReleasesTable(r.sys, pds, v)
  }

  ghost function Step(r: Run, op: Op, spaces: seq<Space>, pds: set<Frame>, maxBits: nat): Run
    requires SysOk(r.sys, pds) && Enabled(r, op, spaces, pds, maxBits)
  {
    match op
    case Switch(to) => Run(r.sys.(pdpt := SwitchStep(r.sys.pdpt, spaces[to])), to)
    case Map(phys, v, flags) => r.(sys := MapStep(r.sys, pds, maxBits, phys, v, flags).sys)
    case MapFresh(v, flags) =>
      var i := LeastFree(r.sys.used, 0, 32 * r.sys.words).value;
      r.(sys := MapStep(r.sys.(used := r.sys.used + {i}), pds, maxBits, FrameToPhysical(i), v, flags).sys)
    case Unmap(v) => r.(sys := UnmapStep(r.sys, v))
  }

  /** A zeroed directory that is mapped into itself. */
  predicate EmptyDirectory(mem: Memory, pd: Frame) {
    pd in mem && pd < 0x100_0000_0000 && mem[pd] == ZeroTable()[511 := pd * PAGE + 1]
  }

  /** Runs may start from any spaces with distinct empty directories, next to any well-formed directory of the kernel,
      as long as the frames of all directories and of the kernel's tables are marked used. */
  lemma NewSpacesOk(s: Sys, spaces: seq<Space>, kernel: Frame, pds: set<Frame>)
    requires spaces != [] && DirectoriesOk(spaces, kernel, pds) && kernel < 0x100_0000_0000
    requires TablesOk(s.mem, {kernel}) && forall pd :: pd in pds && pd != kernel ==> EmptyDirectory(s.mem, pd)
    requires forall f :: IsTable(s.mem, {kernel}, f) && f != kernel ==> f !in pds
    requires LAST_FRAME + 1 < 32 * s.words <= NO_FRAME && LAST_FRAME + 1 !in s.used
    requires forall i: nat :: i <= LAST_FRAME ==>
                                PageNo(i) in s.mem &&
                                (PageNo(i) in pds || IsTable(s.mem, {kernel}, PageNo(i)) ==> i in s.used)
    requires s.pdpt == SwitchStep([0, 0, 0, kernel * PAGE + 1], spaces[0])
    ensures RunOk(Run(s, 0), spaces, kernel, pds)
  {
    SplitEntry(kernel, 1);
    SwitchInstalls([0, 0, 0, kernel * PAGE + 1], spaces[0]);
    OnlyKernelTables(s.mem, kernel, pds);
    forall p, q | 0 <= p < q < 4 ensures FrameOf(s.pdpt[p]) != FrameOf(s.pdpt[q]) {
      assert FrameOf(s.pdpt[p]) == LowDir(spaces[0], p);
      if q < 3 { assert FrameOf(s.pdpt[q]) == LowDir(spaces[0], q); }
    }
  }

  lemma OnlyKernelTables(mem: Memory, kernel: Frame, pds: set<Frame>)
    requires TablesOk(mem, {kernel}) && kernel in pds
    requires forall pd :: pd in pds && pd != kernel ==> EmptyDirectory(mem, pd)
    requires forall f :: IsTable(mem, {kernel}, f) && f != kernel ==> f !in pds
    ensures TablesOk(mem, pds) && forall f :: IsTable(mem, pds, f) <==> f in pds || IsTable(mem, {kernel}, f)
  {
    forall pd | pd in pds && pd != kernel ensures SelfMapped(mem, pd) && forall d: nat :: !HasTable(mem, pd, d) {
      SplitEntry(pd, 1);
    }
    assert kernel in {kernel};
    forall d: nat | HasTable(mem, kernel, d) ensures TableOf(mem, kernel, d) !in pds {
      assert IsTable(mem, {kernel}, TableOf(mem, kernel, d));
    }
  }

  lemma SwitchKeeps(r: Run, to: nat, spaces: seq<Space>, kernel: Frame, pds: set<Frame>)
    requires RunOk(r, spaces, kernel, pds) && to < |spaces|
    ensures RunOk(Run(r.sys.(pdpt := SwitchStep(r.sys.pdpt, spaces[to])), to), spaces, kernel, pds)
  {
    SwitchInstalls(r.sys.pdpt, spaces[to]);
    var s' := r.sys.(pdpt := SwitchStep(r.sys.pdpt, spaces[to]));
    forall p, q | 0 <= p < q < 4 ensures FrameOf(s'.pdpt[p]) != FrameOf(s'.pdpt[q]) {
      assert FrameOf(s'.pdpt[p]) == LowDir(spaces[to], p);
      if q < 3 { assert FrameOf(s'.pdpt[q]) == LowDir(spaces[to], q); }
    }
  }

  /** The directory that an edit of the current space goes to, if it goes to one at all. */
  function Edited(r: Run, op: Op): Option<Frame> {
    match op
    case Switch(_) => None
    case Map(_, v, _) => if Editable(r.sys, v) then Some(DirOf(r.sys, v)) else None
    case MapFresh(v, _) => if Editable(r.sys, v) then Some(DirOf(r.sys, v)) else None
    case Unmap(v) => if Editable(r.sys, v) then Some(DirOf(r.sys, v)) else None
  }

  /** One step keeps every invariant. It changes translations below one directory only. */
  lemma StepKeeps(r: Run, op: Op, spaces: seq<Space>, kernel: Frame, pds: set<Frame>, maxBits: nat)
    requires RunOk(r, spaces, kernel, pds) && Enabled(r, op, spaces, pds, maxBits)
    ensures var r' := Step(r, op, spaces, pds, maxBits);
            && RunOk(r', spaces, kernel, pds)
            && (op.Switch? || r'.current == r.current)
            && forall qd, d: nat, t: nat :: qd in pds && Some(qd) != Edited(r, op) && d < 511 && t < 512 ==>
                                              Translate(r'.sys.mem, qd, d, t) == Translate(r.sys.mem, qd, d, t)
  {
    match op
    case Switch(to) => SwitchKeeps(r, to, spaces, kernel, pds);
    case Map(phys, v, flags) =>
      MapChangesOne(r.sys, pds, maxBits, phys, v, flags);
    case MapFresh(v, flags) =>
      var i := LeastFree(r.sys.used, 0, 32 * r.sys.words).value;
      MapChangesOne(r.sys.(used := r.sys.used + {i}), pds, maxBits, FrameToPhysical(i), v, flags);
    case Unmap(v) => UnmapChangesOne(r.sys, pds, v);
  }

  /** A step of the current space changes no low translation of another one. */
  lemma StepIsolates(r: Run, op: Op, spaces: seq<Space>, kernel: Frame, pds: set<Frame>, maxBits: nat, b: nat, v: nat)
    requires RunOk(r, spaces, kernel, pds) && Enabled(r, op, spaces, pds, maxBits)
    requires b < |spaces| && b != r.current && v < 3 * GIB && DirIndex(v) != 511
    ensures View(Step(r, op, spaces, pds, maxBits).sys.mem, spaces[b], v) == View(r.sys.mem, spaces[b], v)
  {
    StepKeeps(r, op, spaces, kernel, pds, maxBits);
    var pd := LowDir(spaces[b], v / GIB);
    var w := match op case Map(_, w, _) => w case MapFresh(w, _) => w case Unmap(w) => w case Switch(_) => 0;
    if !op.Switch? {
      if w / GIB < 3 {
        assert DirOf(r.sys, w) == LowDir(spaces[r.current], w / GIB);
      } else {
        assert w / GIB == 3;
      }
    }
  }

  ghost predicate RunEnabled(r: Run, ops: seq<Op>, spaces: seq<Space>, kernel: Frame, pds: set<Frame>, maxBits: nat)
    requires RunOk(r, spaces, kernel, pds)
    decreases |ops|
  {
    ops == [] || (
      && Enabled(r, ops[0], spaces, pds, maxBits)
      && (StepKeeps(r, ops[0], spaces, kernel, pds, maxBits);
          RunEnabled(Step(r, ops[0], spaces, pds, maxBits), ops[1..], spaces, kernel, pds, maxBits)))
  }

  ghost function After(r: Run, ops: seq<Op>, spaces: seq<Space>, kernel: Frame, pds: set<Frame>,
                       maxBits: nat): (r': Run)
    requires RunOk(r, spaces, kernel, pds) && RunEnabled(r, ops, spaces, kernel, pds, maxBits)
    ensures RunOk(r', spaces, kernel, pds)
    decreases |ops|
  {
    if ops == [] then r
    else
      StepKeeps(r, ops[0], spaces, kernel, pds, maxBits);
      After(Step(r, ops[0], spaces, pds, maxBits), ops[1..], spaces, kernel, pds, maxBits)
  }

  /** Isolation: while a space is not current, no interleaving of switches, mappings and unmappings by the
      others changes any of its translations below 3 GiB. */
  lemma {:induction false} RunIsolates(
    r: Run, ops: seq<Op>, spaces: seq<Space>, kernel: Frame, pds: set<Frame>, maxBits: nat, b: nat, v: nat)
    requires RunOk(r, spaces, kernel, pds) && RunEnabled(r, ops, spaces, kernel, pds, maxBits)
    requires b < |spaces| && b != r.current && Switch(b) !in ops && v < 3 * GIB && DirIndex(v) != 511
    ensures View(After(r, ops, spaces, kernel, pds, maxBits).sys.mem, spaces[b], v) == View(r.sys.mem, spaces[b], v)
    ensures After(r, ops, spaces, kernel, pds, maxBits).current != b
    decreases |ops|
  {
    if ops != [] {
      StepKeeps(r, ops[0], spaces, kernel, pds, maxBits);
      StepIsolates(r, ops[0], spaces, kernel, pds, maxBits, b, v);
      assert ops[0] in ops && forall op :: op in ops[1..] ==> op in ops;
      RunIsolates(Step(r, ops[0], spaces, pds, maxBits), ops[1..], spaces, kernel, pds, maxBits, b, v);
    }
  }

  /** Switching away, letting other spaces run, and switching back restores the walk of every low page. */
  lemma SwitchBackRestores(
    r: Run, to: nat, ops: seq<Op>, spaces: seq<Space>, kernel: Frame, pds: set<Frame>, maxBits: nat, v: nat)
    requires RunOk(r, spaces, kernel, pds) && to < |spaces| && to != r.current && Switch(r.current) !in ops
    requires v < 3 * GIB && DirIndex(v) != 511
    requires var away := Run(r.sys.(pdpt := SwitchStep(r.sys.pdpt, spaces[to])), to);
             RunOk(away, spaces, kernel, pds) && RunEnabled(away, ops, spaces, kernel, pds, maxBits)
    ensures var away := Run(r.sys.(pdpt := SwitchStep(r.sys.pdpt, spaces[to])), to);
            var end := After(away, ops, spaces, kernel, pds, maxBits);
            Walk(end.sys.mem, SwitchStep(end.sys.pdpt, spaces[r.current]), v) == Walk(r.sys.mem, r.sys.pdpt, v)
  {
    var away := Run(r.sys.(pdpt := SwitchStep(r.sys.pdpt, spaces[to])), to);
    RunIsolates(away, ops, spaces, kernel, pds, maxBits, r.current, v);
    var end := After(away, ops, spaces, kernel, pds, maxBits);
    SwitchInstalls(end.sys.pdpt, spaces[r.current]);
    WalkIsView(end.sys.mem, SwitchStep(end.sys.pdpt, spaces[r.current]), spaces[r.current], v);
    WalkIsView(r.sys.mem, r.sys.pdpt, spaces[r.current], v);
  }
}
