/** `vmm_page_alloc` on the PAE path: a range of addresses is reserved and mapped page by page. */
module PageAllocation {
  import opened Common
  import opened FrameBitmap
  import opened PageTables
  import opened Paging
  import opened AddressSpaces
  import opened AddressRanges
  import opened VirtualMemory

  /** The address of page `k` of a range; bases wrap like 32-bit sums. */
  function PageAt(base: nat, k: nat): (v: nat)
    ensures v < 4 * GIB
  {
    (base + PAGE * k) % WORD
  }

  /** Every page of the range can be mapped. */
  predicate RangeEditable(s: Sys, base: nat, pages: nat) {
    forall k: nat :: k < pages ==> Editable(s, PageAt(base, k))
  }

  /** The pages of a range of at most 4 GiB are all different. */
  lemma PagesDiffer(base: nat, j: nat, k: nat)
    requires j < WORD / PAGE && k < WORD / PAGE
    ensures PageAt(base, j) / PAGE == PageAt(base, k) / PAGE <==> j == k
  {
    var n := WORD / PAGE;
    PageNumber(base, j);
    PageNumber(base, k);
    var b := base / PAGE;
    assert (b + j) % n == (b + k) % n ==> j == k by {
      if (b + j) % n == (b + k) % n {
        var q, r := (b + j) / n, (b + k) / n;
        assert j - k == (q - r) * n;
      }
    }
  }

  lemma PageNumber(base: nat, k: nat)
    ensures PageAt(base, k) / PAGE == (base / PAGE + k) % (WORD / PAGE)
  {
    var n, r := WORD / PAGE, base % PAGE;
    var x := base / PAGE + k;
    assert base + PAGE * k == PAGE * x + r;
    assert x == x / n * n + x % n;
    assert PAGE * x + r == x / n * WORD + (PAGE * (x % n) + r);
    assert (PAGE * x + r) % WORD == PAGE * (x % n) + r;
  }

  /** Address `w` lies outside the first `k` pages of the range, and outside the recursive window. */
  predicate Elsewhere(base: nat, k: nat, w: nat) {
    && w < 4 * GIB && DirIndex(w) != 511
    && forall j: nat :: j < k ==> w / PAGE != PageAt(base, j) / PAGE
  }

  /** Page `k` of the range is mapped to its frame. */
  predicate PageMapped(s: Sys, base: nat, frames: seq<Frame>, k: nat, flags: nat)
    requires |s.pdpt| == 4 && k < |frames|
  {
    Walk(s.mem, s.pdpt, PageAt(base, k)) == Some(Mapping(frames[k], flags))
  }

  predicate SameWalk(before: Sys, after: Sys, w: nat)
    requires |before.pdpt| == 4 && |after.pdpt| == 4 && w < 4 * GIB
  {
    Walk(after.mem, after.pdpt, w) == Walk(before.mem, before.pdpt, w)
  }

  /** The first pages of the range are mapped to these frames, and no other page changed. */
  ghost predicate Mapped(before: Sys, after: Sys, base: nat, frames: seq<Frame>, flags: nat) {
    && |before.pdpt| == 4 && after.pdpt == before.pdpt && after.words == before.words
    && (forall k: nat :: k < |frames| ==> PageMapped(after, base, frames, k, flags))
    && (forall w: nat :: Elsewhere(base, |frames|, w) ==> SameWalk(before, after, w))
  }

  /** Mapping the next page. */
  lemma MapsNext(before: Sys, s: Sys, s': Sys, pds: set<Frame>, maxBits: nat, base: nat, frames: seq<Frame>,
                 phys: nat, flags: nat)
    requires SysOk(s, pds) && Mapped(before, s, base, frames, flags) && |frames| < WORD / PAGE
    requires RangeEditable(s, base, |frames| + 1)
    requires Editable(s, PageAt(base, |frames|)) &&
             MapStep(s, pds, maxBits, phys, PageAt(base, |frames|), flags) == Next(s')
    requires phys % PAGE == 0 && phys < 0x10_0000_0000_0000 && flags < PAGE && flags % 2 == 1
    ensures SysOk(s', pds) && Mapped(before, s', base, frames + [phys / PAGE], flags) && s.used <= s'.used
  {
    var k := |frames|;
    var v := PageAt(base, k);
    MapChangesOne(s, pds, maxBits, phys, v, flags);
    TableStepKeeps(s, pds, v);
    var frames' := frames + [phys / PAGE];
    forall j: nat | j < |frames'| ensures PageMapped(s', base, frames', j, flags) {
      assert Editable(s, PageAt(base, j));
      MmapTranslates(s, pds, maxBits, phys, v, flags, PageAt(base, j));
      PagesDiffer(base, j, k);
      if j < k { assert PageMapped(s, base, frames, j, flags); }
    }
    forall w: nat | Elsewhere(base, |frames'|, w) ensures SameWalk(before, s', w) {
      assert w / PAGE != PageAt(base, k) / PAGE;
      MmapTranslates(s, pds, maxBits, phys, v, flags, w);
      assert Elsewhere(base, |frames|, w);
      assert SameWalk(before, s, w);
    }
  }

  /** The frame numbers of these bitmap indices. */
  function Numbers(indices: seq<nat>): seq<Frame> {
    seq(|indices|, k requires 0 <= k < |indices| => PageNo(indices[k]))
  }

  /** These frames were free before and are marked now, and no two are the same. */
  predicate WereFree(before: set<nat>, after: set<nat>, indices: seq<nat>) {
    && before <= after
    && (forall k :: 0 <= k < |indices| ==> indices[k] !in before && indices[k] in after && indices[k] <= LAST_FRAME)
    && (forall j, k :: 0 <= j < k < |indices| ==> indices[j] != indices[k])
  }

  lemma MarkKeeps(s: Sys, pds: set<Frame>)
    requires SysOk(s, pds) && LeastFree(s.used, 0, 32 * s.words).GetOr(LAST_FRAME + 1) <= LAST_FRAME
    ensures var i := LeastFree(s.used, 0, 32 * s.words).GetOr(0);
            SysOk(s.(used := s.used + {i}), pds) && i !in s.used
  {
    FrameLeft(s, pds);
  }

  /** One round of the mapping loops: page `k` of the stretch at `phys`, or a newly allocated page if that is 0. */
  ghost function PageStep(s: Sys, pds: set<Frame>, maxBits: nat, v: nat, k: nat, phys: nat, flags: nat): (r: Outcome)
    requires SysOk(s, pds) && Editable(s, v)
    ensures r.Next? ==> SysOk(r.sys, pds) && r.sys.pdpt == s.pdpt
  {
    if phys != 0 then PageMap(s, pds, maxBits, phys / PAGE * PAGE + PAGE * k, v, flags)
    else
      FrameLeft(s, pds);
      var i := LeastFree(s.used, 0, 32 * s.words).value;
      if i > LAST_FRAME then Outcome.Halted
      else
        MarkKeeps(s, pds);
        PageMap(s.(used := s.used + {i}), pds, maxBits, PageNo(i) * PAGE, v, flags)
  }

  /** `pae_mmap` keeps all invariants. */
  ghost function PageMap(s: Sys, pds: set<Frame>, maxBits: nat, page: nat, v: nat, flags: nat): (r: Outcome)
    requires SysOk(s, pds) && Editable(s, v)
    ensures r == MapStep(s, pds, maxBits, page, v, flags)
    ensures r.Next? ==> SysOk(r.sys, pds) && r.sys.pdpt == s.pdpt
  {
    var r := MapStep(s, pds, maxBits, page, v, flags);
    if r.Next? then
      MapChangesOne(s, pds, maxBits, page, v, flags);
      r
    else r
  }

  /** The rounds from `k` up to `n`; a panic ends them. */
  ghost function MapRange(s: Sys, pds: set<Frame>, maxBits: nat, base: nat, k: nat, n: nat, phys: nat,
                          flags: nat): Outcome
    requires SysOk(s, pds) && k <= n && RangeEditable(s, base, n)
    decreases n - k
  {
    if k == n then Next(s)
    else
      assert Editable(s, PageAt(base, k));
      var r := PageStep(s, pds, maxBits, PageAt(base, k), k, phys, flags);
      if r.Halted? then Outcome.Halted
      else
        RangeOf(s, r.sys, base, n, n);
        MapRange(r.sys, pds, maxBits, base, k + 1, n, phys, flags)
  }

  /** What a round for page `k` of the stretch at `phys` needs: a frame if the page is new, another one if there is no
      table, and an address that fits. */
  predicate StepAffords(s: Sys, maxBits: nat, v: nat, k: nat, phys: nat) {
    && |FreeFrames(s.used)| >= (if phys == 0 then 1 else 0) + (if Lacks(s, v) then 1 else 0)
    && (phys != 0 ==> phys / PAGE * PAGE + PAGE * k < Pow2(maxBits))
  }

  /** A round succeeds exactly if it has that, and then uses up just these frames. */
  lemma StepExact(s: Sys, pds: set<Frame>, maxBits: nat, v: nat, k: nat, phys: nat, flags: nat)
    requires SysOk(s, pds) && Editable(s, v) && (phys == 0 ==> 25 <= maxBits)
    ensures PageStep(s, pds, maxBits, v, k, phys, flags).Next? <==> StepAffords(s, maxBits, v, k, phys)
    ensures var r := PageStep(s, pds, maxBits, v, k, phys, flags);
            r.Next? ==>
              |FreeFrames(r.sys.used)| ==
              |FreeFrames(s.used)| - (if phys == 0 then 1 else 0) - if Lacks(s, v) then 1 else 0
  {
    var page := phys / PAGE * PAGE + PAGE * k;
    if phys != 0 {
      GivenExact(s, pds, maxBits, page, v, flags);
    } else {
      FrameFree(s.used, 32 * s.words);
      var i := LeastFree(s.used, 0, 32 * s.words).value;
      if i <= LAST_FRAME {
        MarkKeeps(s, pds);
        PageFits(i, maxBits);
        GivenExact(s.(used := s.used + {i}), pds, maxBits, PageNo(i) * PAGE, v, flags);
      }
    }
  }

  lemma GivenExact(s: Sys, pds: set<Frame>, maxBits: nat, page: nat, v: nat, flags: nat)
    requires SysOk(s, pds) && Editable(s, v) && page % PAGE == 0
    ensures var r := MapStep(s, pds, maxBits, page, v, flags);
            && (r.Next? <==> page < Pow2(maxBits) && |FreeFrames(s.used)| >= if Lacks(s, v) then 1 else 0)
            && (r.Next? ==> |FreeFrames(r.sys.used)| == |FreeFrames(s.used)| - if Lacks(s, v) then 1 else 0)
  {
    MapSucceeds(s, pds, maxBits, page, v, flags);
    WholePage(page);
    SomeFree(FreeFrames(s.used));
    if MapStep(s, pds, maxBits, page, v, flags).Next? { MapFrames(s, pds, maxBits, page, v, flags); }
  }

  lemma SomeFree(frames: set<nat>)
    ensures |frames| >= 1 <==> frames != {}
  {
  }

  /** It adds a table for its own page only. */
  lemma StepTables(s: Sys, pds: set<Frame>, maxBits: nat, v: nat, k: nat, phys: nat, flags: nat, w: nat)
    requires SysOk(s, pds) && Editable(s, v) && PageStep(s, pds, maxBits, v, k, phys, flags).Next?
    ensures Lacks(PageStep(s, pds, maxBits, v, k, phys, flags).sys, w) <==> Lacks(s, w) && w / DIR != v / DIR
  {
    if phys != 0 {
      MapTables(s, pds, maxBits, phys / PAGE * PAGE + PAGE * k, v, flags, w);
    } else {
      FrameLeft(s, pds);
      var i := LeastFree(s.used, 0, 32 * s.words).value;
      MarkKeeps(s, pds);
      var s1 := s.(used := s.used + {i});
      MapTables(s1, pds, maxBits, PageNo(i) * PAGE, v, flags, w);
      assert Lacks(s1, w) == Lacks(s, w);
    }
  }

  lemma PageFits(i: nat, maxBits: nat)
    requires i <= LAST_FRAME && 25 <= maxBits
    ensures PageNo(i) * PAGE / Pow2(maxBits) == 0 && PageNo(i) * PAGE % 0x400 == 0
  {
    Pow2Monotone(25, maxBits);
    Pow2At25();
    assert PageNo(i) * PAGE == 0x400 * (4 * PageNo(i)) < 0x200_0000;
    DivSmall(PageNo(i) * PAGE, Pow2(maxBits));
  }

  lemma DivSmall(a: nat, p: nat)
    requires a < p
    ensures a / p == 0
  {
  }

  lemma Pow2At25()
    ensures Pow2(25) == 0x200_0000
  {
    assert Pow2(6) == 64;
    Pow2Add(6, 6);
    Pow2Add(12, 12);
    assert Pow2(25) == 2 * Pow2(24);
  }

  /** The 2 MiB regions among pages `k` up to `n` that have no table. */
  function Missing(s: Sys, base: nat, k: nat, n: nat): set<nat> {
    set j: nat | k <= j < n && Lacks(s, PageAt(base, j)) :: PageAt(base, j) / DIR
  }

  /** What the rounds from `k` up to `n` need. */
  ghost predicate Affords(s: Sys, maxBits: nat, base: nat, k: nat, n: nat, phys: nat)
    requires k <= n
  {
    && |FreeFrames(s.used)| >= (if phys == 0 then n - k else 0) + |Missing(s, base, k, n)|
    && (phys != 0 && k < n ==> phys / PAGE * PAGE + PAGE * (n - 1) < Pow2(maxBits))
  }

  /** After a round one region less is missing, if it was. */
  lemma MissingNext(s: Sys, s': Sys, base: nat, k: nat, n: nat)
    requires k < n && forall w: nat :: Lacks(s', w) <==> Lacks(s, w) && w / DIR != PageAt(base, k) / DIR
    ensures Missing(s', base, k + 1, n) == Missing(s, base, k, n) - {PageAt(base, k) / DIR}
    ensures PageAt(base, k) / DIR in Missing(s, base, k, n) || !Lacks(s, PageAt(base, k))
  {
    var (a, b, d) := (Missing(s', base, k + 1, n), Missing(s, base, k, n), PageAt(base, k) / DIR);
    forall x | x in b - {d} ensures x in a {
      var j: nat :| k <= j < n && Lacks(s, PageAt(base, j)) && x == PageAt(base, j) / DIR;
      assert Lacks(s', PageAt(base, j)) && j != k;
    }
  }

  lemma RangeNext(s: Sys, s': Sys, pds: set<Frame>, maxBits: nat, base: nat, k: nat, n: nat, phys: nat, flags: nat)
    requires SysOk(s, pds) && k < n && RangeEditable(s, base, n) && Editable(s, PageAt(base, k))
    requires PageStep(s, pds, maxBits, PageAt(base, k), k, phys, flags) == Next(s')
    ensures SysOk(s', pds) && RangeEditable(s', base, n)
    ensures MapRange(s, pds, maxBits, base, k, n, phys, flags) ==
            MapRange(s', pds, maxBits, base, k + 1, n, phys, flags)
  {
    RangeOf(s, s', base, n, n);
  }

  /** The rounds from `k` up to `n` reach the end exactly if they can be afforded. */
  ghost predicate Exact(s: Sys, pds: set<Frame>, maxBits: nat, base: nat, k: nat, n: nat, phys: nat, flags: nat) {
    SysOk(s, pds) && k <= n && RangeEditable(s, base, n) ==>
      (MapRange(s, pds, maxBits, base, k, n, phys, flags).Next? <==> Affords(s, maxBits, base, k, n, phys))
  }

  lemma ExactFirst(s: Sys, pds: set<Frame>, maxBits: nat, base: nat, k: nat, n: nat, phys: nat, flags: nat)
    returns (s': Sys)
    requires k < n && (phys == 0 ==> 25 <= maxBits)
    ensures Exact(s', pds, maxBits, base, k + 1, n, phys, flags) ==> Exact(s, pds, maxBits, base, k, n, phys, flags)
  {
    s' := s;
    if SysOk(s, pds) && RangeEditable(s, base, n) {
      assert Editable(s, PageAt(base, k));
      AffordsNext(s, pds, maxBits, base, k, n, phys, flags);
      var r := PageStep(s, pds, maxBits, PageAt(base, k), k, phys, flags);
      if r.Next? {
        s' := r.sys;
        RangeNext(s, s', pds, maxBits, base, k, n, phys, flags);
      }
    }
  }

  lemma ExactLast(s: Sys, pds: set<Frame>, maxBits: nat, base: nat, n: nat, phys: nat, flags: nat)
    ensures Exact(s, pds, maxBits, base, n, n, phys, flags)
  {
    assert Missing(s, base, n, n) == {};
  }

  lemma {:induction false} RangesExact(s: Sys, pds: set<Frame>, maxBits: nat, base: nat, k: nat, n: nat, phys: nat,
                                       flags: nat)
    requires k <= n && (phys == 0 ==> 25 <= maxBits)
    ensures Exact(s, pds, maxBits, base, k, n, phys, flags)
    decreases n - k
  {
    if k < n {
      var s' := ExactFirst(s, pds, maxBits, base, k, n, phys, flags);
      RangesExact(s', pds, maxBits, base, k + 1, n, phys, flags);
    } else {
      ExactLast(s, pds, maxBits, base, n, phys, flags);
    }
  }

  /** The loops reach their end exactly if there is a frame for each new page and each missing table, and the last given
      page fits. */
  lemma RangeExact(s: Sys, pds: set<Frame>, maxBits: nat, base: nat, n: nat, phys: nat, flags: nat)
    requires SysOk(s, pds) && RangeEditable(s, base, n) && (phys == 0 ==> 25 <= maxBits)
    ensures MapRange(s, pds, maxBits, base, 0, n, phys, flags).Next? <==>
            && |FreeFrames(s.used)| >= (if phys == 0 then n else 0) + |Missing(s, base, 0, n)|
            && (phys != 0 && n > 0 ==> phys / PAGE * PAGE + PAGE * (n - 1) < Pow2(maxBits))
  {
    RangesExact(s, pds, maxBits, base, 0, n, phys, flags);
  }

  /** The rounds can be afforded exactly if the first one can, and then the others. */
  lemma AffordsNext(s: Sys, pds: set<Frame>, maxBits: nat, base: nat, k: nat, n: nat, phys: nat, flags: nat)
    requires SysOk(s, pds) && k < n && Editable(s, PageAt(base, k)) && (phys == 0 ==> 25 <= maxBits)
    ensures var r := PageStep(s, pds, maxBits, PageAt(base, k), k, phys, flags);
            Affords(s, maxBits, base, k, n, phys) <==> r.Next? && Affords(r.sys, maxBits, base, k + 1, n, phys)
  {
    var v := PageAt(base, k);
    var r := PageStep(s, pds, maxBits, v, k, phys, flags);
    StepExact(s, pds, maxBits, v, k, phys, flags);
    if r.Next? {
      forall w: nat ensures Lacks(r.sys, w) <==> Lacks(s, w) && w / DIR != v / DIR {
        StepTables(s, pds, maxBits, v, k, phys, flags, w);
      }
      MissingNext(s, r.sys, base, k, n);
      NotMissing(s, base, k, n);
    } else {
      MissingFirst(s, base, k, n);
    }
  }

  /** If page `k` has a table, its region is not missing. */
  lemma NotMissing(s: Sys, base: nat, k: nat, n: nat)
    requires k < n && Editable(s, PageAt(base, k))
    ensures PageAt(base, k) / DIR in Missing(s, base, k, n) <==> Lacks(s, PageAt(base, k))
  {
    forall j: nat | k <= j < n && Lacks(s, PageAt(base, j)) && PageAt(base, j) / DIR == PageAt(base, k) / DIR
      ensures Lacks(s, PageAt(base, k))
    {
      SameRegion(PageAt(base, j), PageAt(base, k));
    }
  }

  lemma MissingFirst(s: Sys, base: nat, k: nat, n: nat)
    requires k < n
    ensures |Missing(s, base, k, n)| >= if Lacks(s, PageAt(base, k)) then 1 else 0
  {
    if Lacks(s, PageAt(base, k)) { assert PageAt(base, k) / DIR in Missing(s, base, k, n); }
  }

  /** At most one region is missing for each page. */
  lemma {:induction false} MissingBound(s: Sys, base: nat, k: nat, n: nat)
    requires k <= n
    ensures |Missing(s, base, k, n)| <= n - k
    decreases n - k
  {
    if k == n {
      assert Missing(s, base, n, n) == {};
    } else {
      MissingBound(s, base, k + 1, n);
      var (m, d) := (Missing(s, base, k + 1, n), PageAt(base, k) / DIR);
      MissingSubset(Missing(s, base, k, n), m, d);
    }
  }

  lemma MissingSubset(a: set<nat>, m: set<nat>, d: nat)
    requires a <= m + {d}
    ensures |a| <= |m| + 1
  {
    SubsetSize(a, m + {d});
  }

  lemma {:induction false} SubsetSize<T>(a: set<T>, b: set<T>)
    requires a <= b
    ensures |a| <= |b|
  {
    if a != {} {
      var x :| x in a;
      SubsetSize(a - {x}, b - {x});
    }
  }

  /** So two free frames for each page are always enough. */
  lemma FramesSuffice(s: Sys, pds: set<Frame>, maxBits: nat, base: nat, n: nat, flags: nat)
    requires SysOk(s, pds) && RangeEditable(s, base, n) && |FreeFrames(s.used)| >= 2 * n && 25 <= maxBits
    ensures MapRange(s, pds, maxBits, base, 0, n, 0, flags).Next?
  {
    MissingBound(s, base, 0, n);
    RangeExact(s, pds, maxBits, base, n, 0, flags);
  }

  /** These frames are mapped, and the other rounds still have to come. */
  ghost predicate SoFar(before: Sys, s: Sys, pds: set<Frame>, maxBits: nat, base: nat, n: nat, frames: seq<Frame>,
                        phys: nat, flags: nat)
    requires SysOk(before, pds) && RangeEditable(before, base, n)
  {
    && SysOk(s, pds) && RangeEditable(s, base, n) && |frames| <= n < WORD / PAGE
    && MapRange(before, pds, maxBits, base, 0, n, phys, flags) ==
       MapRange(s, pds, maxBits, base, |frames|, n, phys, flags)
    && Mapped(before, s, base, frames, flags)
  }

  /** One round of the loop that maps newly allocated frames. */
  method MapFreshPage(m: Machine, v: nat, ghost k: nat, flags: nat, ghost pds: set<Frame>)
    returns (ok: bool, ghost f: nat)
    requires SysOk(m.State(), pds) && Editable(m.State(), v)
    modifies m`mem, m.bitmap, m.bitmap.frames
    ensures ok <==> PageStep(old(m.State()), pds, m.maxBits, v, k, 0, flags).Next?
    ensures ok ==> PageStep(old(m.State()), pds, m.maxBits, v, k, 0, flags) == Next(m.State())
    ensures ok ==> var s := old(m.State());
                   var s1 := s.(used := s.used + {f});
                   && f <= LAST_FRAME && f !in s.used && SysOk(s1, pds)
                   && MapStep(s1, pds, m.maxBits, PageNo(f) * PAGE, v, flags) == Next(m.State())
  {
    ghost var s := m.State();
    FrameLeft(s, pds);
    f := LeastFree(s.used, 0, 32 * s.words).value;
    var page := m.bitmap.AllocPhysPage();
    if page.Panic? {
      return false, f;
    }
    MarkKeeps(s, pds);
    FrameEntry(f, 0);
    ok := m.PaeMmap(page.address, v, flags, pds);
  }

  lemma MapsNextFresh(before: Sys, s: Sys, s': Sys, pds: set<Frame>, maxBits: nat, base: nat, indices: seq<nat>,
                      f: nat, flags: nat)
    requires SysOk(s, pds) && Mapped(before, s, base, Numbers(indices), flags) && |indices| < WORD / PAGE
    requires WereFree(before.used, s.used, indices) && f <= LAST_FRAME && f !in s.used
    requires RangeEditable(s, base, |indices| + 1) && Editable(s, PageAt(base, |indices|))
    requires SysOk(s.(used := s.used + {f}), pds)
    requires MapStep(s.(used := s.used + {f}), pds, maxBits, PageNo(f) * PAGE, PageAt(base, |indices|), flags) ==
             Next(s')
    requires flags < PAGE && flags % 2 == 1
    ensures Mapped(before, s', base, Numbers(indices + [f]), flags) && WereFree(before.used, s'.used, indices + [f])
  {
    var s1 := s.(used := s.used + {f});
    var page := PageNo(f) * PAGE;
    assert page % PAGE == 0 && page / PAGE == PageNo(f);
    assert Numbers(indices) + [page / PAGE] == Numbers(indices + [f]);
    RangeOf(s, s1, base, |indices| + 1, |indices| + 1);
    MarkMapped(before, s, base, Numbers(indices), flags, f);
    MapsNext(before, s1, s', pds, maxBits, base, Numbers(indices), page, flags);
  }

  lemma SoFarFresh(before: Sys, s: Sys, s': Sys, pds: set<Frame>, maxBits: nat, base: nat, n: nat, indices: seq<nat>,
                   f: nat, flags: nat)
    requires SysOk(before, pds) && RangeEditable(before, base, n) && |indices| < n
    requires SoFar(before, s, pds, maxBits, base, n, Numbers(indices), 0, flags)
    requires WereFree(before.used, s.used, indices) && f <= LAST_FRAME && f !in s.used
    requires SysOk(s.(used := s.used + {f}), pds) && Editable(s, PageAt(base, |indices|))
    requires MapStep(s.(used := s.used + {f}), pds, maxBits, PageNo(f) * PAGE, PageAt(base, |indices|), flags) ==
             Next(s')
    requires PageStep(s, pds, maxBits, PageAt(base, |indices|), |indices|, 0, flags) == Next(s')
    requires flags < PAGE && flags % 2 == 1
    ensures SoFar(before, s', pds, maxBits, base, n, Numbers(indices + [f]), 0, flags)
    ensures WereFree(before.used, s'.used, indices + [f])
  {
    RangeOf(s, s, base, n, |indices| + 1);
    RangeNext(s, s', pds, maxBits, base, |indices|, n, 0, flags);
    MapsNextFresh(before, s, s', pds, maxBits, base, indices, f, flags);
  }

  /** Marking a frame maps nothing. */
  lemma MarkMapped(before: Sys, s: Sys, base: nat, frames: seq<Frame>, flags: nat, f: nat)
    requires Mapped(before, s, base, frames, flags)
    ensures Mapped(before, s.(used := s.used + {f}), base, frames, flags)
  {
    var s1 := s.(used := s.used + {f});
    forall k: nat | k < |frames| ensures PageMapped(s1, base, frames, k, flags) {
      assert PageMapped(s, base, frames, k, flags);
    }
    forall w: nat | Elsewhere(base, |frames|, w) ensures SameWalk(before, s1, w) {
      assert SameWalk(before, s, w);
    }
  }

  /** Only the entries above the directories decide what can be edited. */
  lemma RangeOf(s: Sys, s': Sys, base: nat, pages: nat, k: nat)
    requires RangeEditable(s, base, pages) && k <= pages && s'.pdpt == s.pdpt
    ensures RangeEditable(s', base, k)
  {
    forall j: nat | j < k ensures Editable(s', PageAt(base, j)) { assert Editable(s, PageAt(base, j)); }
  }

  /** The loop that maps newly allocated frames. It stops early exactly if there is no frame for a page or for a missing
      table. */
  method MapFreshPages(m: Machine, base: nat, length: nat, flags: nat, ghost pds: set<Frame>)
    returns (ok: bool, ghost indices: seq<nat>)
    requires SysOk(m.State(), pds) && length % PAGE == 0 && length <= WORD - PAGE
    requires flags < PAGE && flags % 2 == 1 && RangeEditable(m.State(), base, length / PAGE)
    modifies m`mem, m.bitmap, m.bitmap.frames
    ensures ok <==> MapRange(old(m.State()), pds, m.maxBits, base, 0, length / PAGE, 0, flags).Next?
    ensures 25 <= m.maxBits ==> (ok <==> Affords(old(m.State()), m.maxBits, base, 0, length / PAGE, 0))
    ensures ok ==> |indices| == length / PAGE && WereFree(old(m.State()).used, m.State().used, indices)
    ensures ok ==> SoFar(old(m.State()), m.State(), pds, m.maxBits, base, length / PAGE, Numbers(indices), 0, flags)
  {
    if 25 <= m.maxBits { RangeExact(m.State(), pds, m.maxBits, base, length / PAGE, 0, flags); }
    ok, indices := MapEachFresh(m, base, length, flags, pds);
  }

  lemma PageStart(base: nat, i: nat, k: nat)
    requires i == PAGE * k
    ensures (base + i) % WORD == PageAt(base, k)
  {
  }

  method MapEachFresh(m: Machine, base: nat, length: nat, flags: nat, ghost pds: set<Frame>)
    returns (ok: bool, ghost indices: seq<nat>)
    requires SysOk(m.State(), pds) && length % PAGE == 0 && length <= WORD - PAGE
    requires flags < PAGE && flags % 2 == 1 && RangeEditable(m.State(), base, length / PAGE)
    modifies m`mem, m.bitmap, m.bitmap.frames
    ensures ok <==> MapRange(old(m.State()), pds, m.maxBits, base, 0, length / PAGE, 0, flags).Next?
    ensures ok ==> |indices| == length / PAGE && WereFree(old(m.State()).used, m.State().used, indices)
    ensures ok ==> SoFar(old(m.State()), m.State(), pds, m.maxBits, base, length / PAGE, Numbers(indices), 0, flags)
  {
    ghost var before, n := m.State(), length / PAGE;
    var i := 0;
    indices := [];
    while i < length
      invariant 0 <= i <= length && i == PAGE * |indices|
      invariant SoFar(before, m.State(), pds, m.maxBits, base, n, Numbers(indices), 0, flags)
      invariant WereFree(before.used, m.State().used, indices)
    {
      ghost var s := m.State();
      var v := (base + i) % WORD;
      PageStart(base, i, |indices|);
      assert Editable(s, PageAt(base, |indices|));
      ghost var f;
      ok, f := MapFreshPage(m, v, |indices|, flags, pds);
      if !ok {
        return;
      }
      SoFarFresh(before, s, m.State(), pds, m.maxBits, base, n, indices, f, flags);
      indices := indices + [f];
      i := i + PAGE;
    }
    ok := true;
  }

  /** Consecutive frames. */
  function Consecutive(first: Frame, pages: nat): seq<Frame> {
    seq(pages, k requires 0 <= k < pages => first + k)
  }

  lemma MapsNextGiven(before: Sys, s: Sys, s': Sys, pds: set<Frame>, maxBits: nat, base: nat, k: nat, phys: nat,
                      flags: nat)
    requires SysOk(s, pds) && Mapped(before, s, base, Consecutive(phys / PAGE, k), flags) && k < WORD / PAGE &&
             maxBits <= 52
    requires RangeEditable(s, base, k + 1) && Editable(s, PageAt(base, k))
    requires MapStep(s, pds, maxBits, phys / PAGE * PAGE + PAGE * k, PageAt(base, k), flags) == Next(s')
    requires flags < PAGE && flags % 2 == 1
    ensures Mapped(before, s', base, Consecutive(phys / PAGE, k + 1), flags)
  {
    var page := phys / PAGE * PAGE + PAGE * k;
    GivenPage(phys, k);
    BelowMax(page, maxBits);
    assert Consecutive(phys / PAGE, k) + [page / PAGE] == Consecutive(phys / PAGE, k + 1);
    MapsNext(before, s, s', pds, maxBits, base, Consecutive(phys / PAGE, k), page, flags);
  }

  lemma GivenPage(phys: nat, k: nat)
    ensures var page := phys / PAGE * PAGE + PAGE * k; page % PAGE == 0 && page / PAGE == phys / PAGE + k
  {
    assert phys / PAGE * PAGE + PAGE * k == PAGE * (phys / PAGE + k);
  }

  /** One round of it. */
  method MapGivenPage(m: Machine, page: nat, v: nat, ghost k: nat, flags: nat, ghost phys: nat, ghost pds: set<Frame>)
    returns (ok: bool)
    requires SysOk(m.State(), pds) && Editable(m.State(), v) && phys != 0 && page == phys / PAGE * PAGE + PAGE * k
    modifies m`mem, m.bitmap, m.bitmap.frames
    ensures ok <==> PageStep(old(m.State()), pds, m.maxBits, v, k, phys, flags).Next?
    ensures ok ==> PageStep(old(m.State()), pds, m.maxBits, v, k, phys, flags) == Next(m.State())
  {
    ok := m.PaeMmap(page, v, flags, pds);
  }

  /** The loop that maps given physical pages. It stops early exactly if the last page does not fit, or there is no
      frame for a missing table. */
  method MapGivenPages(m: Machine, base: nat, length: nat, flags: nat, phys: nat, ghost pds: set<Frame>)
    returns (ok: bool)
    requires SysOk(m.State(), pds) && m.maxBits <= 52 && length % PAGE == 0 && length <= WORD - PAGE && phys != 0
    requires flags < PAGE && flags % 2 == 1 && RangeEditable(m.State(), base, length / PAGE)
    modifies m`mem, m.bitmap, m.bitmap.frames
    ensures ok <==> MapRange(old(m.State()), pds, m.maxBits, base, 0, length / PAGE, phys, flags).Next?
    ensures ok <==> Affords(old(m.State()), m.maxBits, base, 0, length / PAGE, phys)
    ensures ok ==>
              SoFar(old(m.State()), m.State(), pds, m.maxBits, base, length / PAGE,
                    Consecutive(phys / PAGE, length / PAGE), phys, flags)
  {
    RangeExact(m.State(), pds, m.maxBits, base, length / PAGE, phys, flags);
    ok := MapEachGiven(m, base, length, flags, phys, pds);
  }

  method MapEachGiven(m: Machine, base: nat, length: nat, flags: nat, phys: nat, ghost pds: set<Frame>)
    returns (ok: bool)
    requires SysOk(m.State(), pds) && m.maxBits <= 52 && length % PAGE == 0 && length <= WORD - PAGE && phys != 0
    requires flags < PAGE && flags % 2 == 1 && RangeEditable(m.State(), base, length / PAGE)
    modifies m`mem, m.bitmap, m.bitmap.frames
    ensures ok <==> MapRange(old(m.State()), pds, m.maxBits, base, 0, length / PAGE, phys, flags).Next?
    ensures ok ==>
              SoFar(old(m.State()), m.State(), pds, m.maxBits, base, length / PAGE,
                    Consecutive(phys / PAGE, length / PAGE), phys, flags)
  {
    ghost var before, n := m.State(), length / PAGE;
    var i := 0;
    ghost var k := 0;
    while i < length
      invariant 0 <= i <= length && i == PAGE * k
      invariant SoFar(before, m.State(), pds, m.maxBits, base, n, Consecutive(phys / PAGE, k), phys, flags)
    {
      ghost var s := m.State();
      var v := (base + i) % WORD;
      PageStart(base, i, k);
      assert Editable(s, PageAt(base, k));
      RangeOf(s, s, base, n, k + 1);
      var page := phys / PAGE * PAGE + i;
      assert page == phys / PAGE * PAGE + PAGE * k;
      ok := MapGivenPage(m, page, v, k, flags, phys, pds);
      if !ok {
        return;
      }
      MapsNextGiven(before, s, m.State(), pds, m.maxBits, base, k, phys, flags);
      RangeNext(s, m.State(), pds, m.maxBits, base, k, n, phys, flags);
      k := k + 1;
      i := i + PAGE;
    }
    ok := true;
  }

  /** An address that passes the check of `pae_mmap` fits into an entry. */
  lemma BelowMax(phys: nat, maxBits: nat)
    requires phys / Pow2(maxBits) == 0 && maxBits <= 52
    ensures phys < 0x10_0000_0000_0000
  {
    Pow2Monotone(maxBits, 52);
    Pow2At52();
    BelowDivisor(phys, Pow2(maxBits));
  }

  lemma BelowDivisor(a: nat, p: nat)
    requires p > 0 && a / p == 0
    ensures a < p
  {
  }

  lemma Pow2At52()
    ensures Pow2(52) == 0x10_0000_0000_0000
  {
    assert Pow2(7) == 128;
    Pow2Add(7, 6);
    assert Pow2(13) == 0x2000;
    Pow2Add(13, 13);
    Pow2Add(26, 26);
  }

  // ------------------------------------------------------------------------------------------
  // The whole allocation
  // ------------------------------------------------------------------------------------------

  /** Null: no block is large enough. Fault: the only block is taken whole. Halted: the kernel panics. */
  datatype Pages = Null | Fault | Halted | Pointer(address: nat)

  /** `vmm_page_alloc` with `pae_enabled`, on the kernel's own allocator. `indices` are the bitmap indices
      of the frames behind the range when the caller gives no physical address. */
  method VmmPageAlloc(vmm: Vmm, m: Machine, size: nat, flags: nat, phys: nat, ghost pds: set<Frame>)
    returns (r: Pages, ghost indices: seq<nat>)
    requires vmm.free.Valid() && Ready(vmm.free.tree) && vmm.free.used < vmm.free.store.Length && PageUp(size) > 0
    requires SysOk(m.State(), pds) && m.maxBits <= 52 && flags < PAGE && flags % 2 == 1
    requires Best(vmm.free.tree, PageUp(size)).Some? ==>
               RangeEditable(m.State(), BestBase(vmm.free.tree, PageUp(size)), PageUp(size) / PAGE)
    modifies vmm.free, vmm.free.store, m`mem, m.bitmap, m.bitmap.frames
    ensures var (t, length) := (old(vmm.free.tree), PageUp(size));
            var z := Best(t, length);
            && (r.Null? <==> z.None?)
            && (r.Null? ==> vmm.free.tree == t && m.State() == old(m.State()))
            && (r.Fault? <==> z.Some? && !Survives(t, z.value, length))
            && (r.Halted? <==> z.Some? && Survives(t, z.value, length)
                               && RangeHalts(old(m.State()), pds, m.maxBits, BestBase(t, length), length / PAGE, phys,
                                             flags))
    ensures var (t, length, slot) := (old(vmm.free.tree), PageUp(size), old(vmm.free.used));
            r.Pointer? ==>
              && vmm.free.Valid() && slot !in FreeTreeSpec.SlotSet(RedBlackTree.Cells(t)) && Best(t, length).Some?
              && Survives(t, Best(t, length).value, length)
              && vmm.free.tree == Taken(t, Best(t, length).value, length, slot)
    ensures (phys != 0 || 25 <= m.maxBits) && !r.Null? && !r.Fault? ==>
              (r.Halted? <==> !Affords(old(m.State()), m.maxBits, BestBase(old(vmm.free.tree), PageUp(size)), 0,
                                       PageUp(size) / PAGE, phys))
    ensures size <= WORD - PAGE ==> size <= PageUp(size) < size + PAGE && PageUp(size) % PAGE == 0
    ensures r.Pointer? ==> r.address == WithOffset(BestBase(old(vmm.free.tree), PageUp(size)), phys)
    ensures r.Pointer? ==>
              RangeMapped(old(m.State()), m.State(), pds, m.maxBits, BestBase(old(vmm.free.tree), PageUp(size)),
                          PageUp(size) / PAGE, phys, flags, indices)
    ensures r.Pointer? && PagesOnly(RedBlackTree.Blocks(RedBlackTree.Cells(old(vmm.free.tree)))) ==>
              && PagesOnly(RedBlackTree.Blocks(RedBlackTree.Cells(vmm.free.tree)))
              && Points(m.State(), r.address, phys, flags, indices)
  {
    indices := [];
    ghost var t, before := vmm.free.tree, m.State();
    var length := PageUp(size);
    BestFit(t, length);
    PageUpPages(size);
    var reserved, _ := vmm.Reserve(size, []);
    if reserved.NoMemory? {
      return Null, indices;
    }
    if reserved.Fault? {
      return Pages.Fault, indices;
    }
    var base := reserved.base;
    assert m.State() == before && base == BestBase(t, length);
    label Reserved:
    r, indices := MapReserved(m, base, length, flags, phys, pds);
    assert unchanged@Reserved(vmm.free) && unchanged@Reserved(vmm.free.store);
  }

  /** Mapping and result, once the range is reserved. */
  method MapReserved(m: Machine, base: nat, length: nat, flags: nat, phys: nat, ghost pds: set<Frame>)
    returns (r: Pages, ghost indices: seq<nat>)
    requires SysOk(m.State(), pds) && m.maxBits <= 52 && length % PAGE == 0 && 0 < length <= WORD - PAGE
    requires flags < PAGE && flags % 2 == 1 && RangeEditable(m.State(), base, length / PAGE)
    modifies m`mem, m.bitmap, m.bitmap.frames
    ensures r.Halted? || r.Pointer?
    ensures r.Halted? <==> RangeHalts(old(m.State()), pds, m.maxBits, base, length / PAGE, phys, flags)
    ensures phys != 0 || 25 <= m.maxBits ==>
              (r.Halted? <==> !Affords(old(m.State()), m.maxBits, base, 0, length / PAGE, phys))
    ensures r.Pointer? ==>
              && r.address == WithOffset(base, phys)
              && RangeMapped(old(m.State()), m.State(), pds, m.maxBits, base, length / PAGE, phys, flags, indices)
              && (OnPage(base) ==> Points(m.State(), r.address, phys, flags, indices))
  {
    ghost var before := m.State();
    if phys != 0 || 25 <= m.maxBits { RangeExact(before, pds, m.maxBits, base, length / PAGE, phys, flags); }
    var ok;
    ok, indices := MapPages(m, base, length, flags, phys, pds);
    if !ok {
      return Pages.Halted, indices;
    }
    if OnPage(base) {
      ghost var frames := if phys == 0 then Numbers(indices) else Consecutive(phys / PAGE, length / PAGE);
      PointerTranslates(before, m.State(), base, phys, frames, flags, indices);
    }
    r := Pointer(WithOffset(base, phys));
  }

  /** The offset of the physical address is added to the base. */
  function WithOffset(base: nat, phys: nat): (p: nat)
    ensures p < WORD
  {
    (base + phys % PAGE) % WORD
  }

  /** Where the chosen block starts. */
  function BestBase(t: RedBlackTree.Tree, length: nat): nat
    requires Best(t, length).Some?
  {
    var z := Best(t, length).value;
    if z.tree.Bin? then z.tree.cell.block.base else 0
  }

  /** The pointer translates to exactly the given physical address, or to the first new page. */
  ghost predicate Points(s: Sys, p: nat, phys: nat, flags: nat, indices: seq<nat>) {
    && |s.pdpt| == 4 && p < WORD && p % PAGE == phys % PAGE && (phys == 0 ==> indices != [])
    && Walk(s.mem, s.pdpt, p) == Some(Mapping(if phys == 0 then PageNo(indices[0]) else phys / PAGE, flags))
  }

  /** The two loops. */
  method MapPages(m: Machine, base: nat, length: nat, flags: nat, phys: nat, ghost pds: set<Frame>)
    returns (ok: bool, ghost indices: seq<nat>)
    requires SysOk(m.State(), pds) && m.maxBits <= 52 && length % PAGE == 0 && length <= WORD - PAGE
    requires flags < PAGE && flags % 2 == 1 && RangeEditable(m.State(), base, length / PAGE)
    modifies m`mem, m.bitmap, m.bitmap.frames
    ensures !ok <==> RangeHalts(old(m.State()), pds, m.maxBits, base, length / PAGE, phys, flags)
    ensures ok ==> RangeMapped(old(m.State()), m.State(), pds, m.maxBits, base, length / PAGE, phys, flags, indices)
  {
    indices := [];
    if phys == 0 {
      ok, indices := MapFreshPages(m, base, length, flags, pds);
    } else {
      ok := MapGivenPages(m, base, length, flags, phys, pds);
    }
  }

  /** The rounds do not get to the end of the range. */
  ghost predicate RangeHalts(s: Sys, pds: set<Frame>, maxBits: nat, base: nat, n: nat, phys: nat, flags: nat)
    requires SysOk(s, pds) && RangeEditable(s, base, n)
  {
    MapRange(s, pds, maxBits, base, 0, n, phys, flags).Halted?
  }

  /** They do, and then every page of the range is mapped, to frames that were free or to the given ones, and no
      other page has changed. */
  ghost predicate RangeMapped(s: Sys, s': Sys, pds: set<Frame>, maxBits: nat, base: nat, n: nat, phys: nat, flags: nat,
                              indices: seq<nat>)
    requires SysOk(s, pds) && RangeEditable(s, base, n)
  {
    && MapRange(s, pds, maxBits, base, 0, n, phys, flags) == Next(s')
    && if phys == 0 then
         |indices| == n && Mapped(s, s', base, Numbers(indices), flags) && WereFree(s.used, s'.used, indices)
       else
         Mapped(s, s', base, Consecutive(phys / PAGE, n), flags)
  }

  /** The returned pointer, offset included, translates to exactly the given physical address. */
  lemma PointerTranslates(before: Sys, after: Sys, base: nat, phys: nat, frames: seq<Frame>, flags: nat,
                          indices: seq<nat>)
    requires OnPage(base) && Mapped(before, after, base, frames, flags) && frames != []
    requires if phys == 0 then frames == Numbers(indices) else frames[0] == phys / PAGE
    ensures Points(after, WithOffset(base, phys), phys, flags, indices)
  {
    InsidePage(base, phys);
    FirstMapped(before, after, base, frames, flags);
    PageIndices(WithOffset(base, phys), base);
  }

  /** Byte `x` from the pointer on. The offset is not part of what is rounded up, so the last bytes may lie behind the
      range. */
  function ByteAt(base: nat, phys: nat, x: nat): (v: nat)
    ensures v < 4 * GIB
  {
    (WithOffset(base, phys) + x) % WORD
  }

  /** It is in page `(offset + x) / PAGE` of the range, at the offset that it has in the physical stretch. */
  lemma ByteInPage(base: nat, phys: nat, x: nat)
    requires OnPage(base) && phys % PAGE + x < WORD
    ensures var k := (phys % PAGE + x) / PAGE;
            && ByteAt(base, phys, x) / PAGE == PageAt(base, k) / PAGE && k < WORD / PAGE
            && phys / PAGE + k == (phys + x) / PAGE && ByteAt(base, phys, x) % PAGE == (phys + x) % PAGE
  {
    var (k, r) := ((phys % PAGE + x) / PAGE, (phys % PAGE + x) % PAGE);
    assert base == PAGE * (base / PAGE) && phys % PAGE + x == PAGE * k + r;
    PageNumber(base, k);
    WrappedByte(base / PAGE + k, r);
    assert base + phys % PAGE + x == PAGE * (base / PAGE + k) + r;
    assert WithOffset(base, phys) == base + phys % PAGE;
    assert phys + x == PAGE * (phys / PAGE + k) + r;
  }

  lemma WrappedByte(q: nat, r: nat)
    requires r < PAGE
    ensures var v := (PAGE * q + r) % WORD; v / PAGE == q % (WORD / PAGE) && v % PAGE == r
  {
    var (n, w) := (WORD / PAGE, q / (WORD / PAGE));
    assert PAGE * q + r == WORD * w + (PAGE * (q % n) + r);
    assert (PAGE * q + r) % WORD == PAGE * (q % n) + r;
  }

  /** It translates to the same byte of the physical stretch, if offset and distance stay below the size that was
      rounded up. Behind that, and outside the window, it is where it was before. */
  lemma ByteTranslates(before: Sys, after: Sys, base: nat, phys: nat, size: nat, flags: nat, x: nat)
    requires OnPage(base) && phys != 0 && x < size <= WORD - PAGE
    requires Mapped(before, after, base, Consecutive(phys / PAGE, PageUp(size) / PAGE), flags)
    ensures ByteAt(base, phys, x) % PAGE == (phys + x) % PAGE
    ensures phys % PAGE + x < PageUp(size) ==>
              Walk(after.mem, after.pdpt, ByteAt(base, phys, x)) == Some(Mapping((phys + x) / PAGE, flags))
    ensures phys % PAGE + x >= PageUp(size) && DirIndex(ByteAt(base, phys, x)) != 511 ==>
              SameWalk(before, after, ByteAt(base, phys, x))
  {
    var (k, v) := ((phys % PAGE + x) / PAGE, ByteAt(base, phys, x));
    var frames := Consecutive(phys / PAGE, PageUp(size) / PAGE);
    ByteInPage(base, phys, x);
    PageUpPages(size);
    if phys % PAGE + x < PageUp(size) {
      assert PageMapped(after, base, frames, k, flags);
      PageIndices(v, PageAt(base, k));
    } else if DirIndex(v) != 511 {
      forall j: nat | j < |frames| ensures v / PAGE != PageAt(base, j) / PAGE { PagesDiffer(base, j, k); }
      assert Elsewhere(base, |frames|, v);
    }
  }

  /** A request for one page at an offset gets one page: its last bytes are behind the range. */
  lemma OffsetLeavesRange()
    ensures PageUp(0x1000) == 0x1000 && 0xfd00_0800 % PAGE + 0xfff >= PageUp(0x1000)
  {
  }

  lemma InsidePage(base: nat, phys: nat)
    requires OnPage(base)
    ensures var p := WithOffset(base, phys); p / PAGE == base / PAGE && p % PAGE == phys % PAGE
  {
    var q, offset := base / PAGE, phys % PAGE;
    assert base == PAGE * q && base + offset < WORD;
  }

  /** The first page of the range. */
  lemma FirstMapped(before: Sys, after: Sys, base: nat, frames: seq<Frame>, flags: nat)
    requires Mapped(before, after, base, frames, flags) && frames != [] && base < WORD
    ensures |after.pdpt| == 4 && Walk(after.mem, after.pdpt, base) == Some(Mapping(frames[0], flags))
  {
    assert PageAt(base, 0) == base;
    assert PageMapped(after, base, frames, 0, flags);
  }
}
