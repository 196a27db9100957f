/** 32-bit paging as the processor sees it, and the last 4 MiB through which the kernel edits it.

    The walk follows section 4.3 of the Intel SDM, volume 3A, without permission bits. */
module LegacyTables {
  import opened Common
  import opened FrameBitmap
  import opened PageTables

  type Words = s: seq<Word32> | |s| == 1024 witness seq(1024, _ => 0)

  /** The frames that are backed by memory, each read as 1024 words. */
  type Memory32 = map<Frame, Words>

  /** `RECURSIVE_ADDR`, and the stretch that one directory entry covers. */
  const WINDOW := 0xffc0_0000
  const SPAN := 0x40_0000

  // ------------------------------------------------------------------------------------------
  // The walk
  // ------------------------------------------------------------------------------------------

  function Translate32(mem: Memory32, root: Frame, d: nat, t: nat): Option<Mapping>
    requires d < 1024 && t < 1024
  {
    if root !in mem || !Present(mem[root][d]) then None
    else if Large(mem[root][d]) then Some(Mapping(FrameOf(mem[root][d]) / 1024 * 1024 + t, FlagsOf(mem[root][d])))
    else
      var pt := FrameOf(mem[root][d]);
      if pt !in mem || !Present(mem[pt][t]) then None
      else Some(Mapping(FrameOf(mem[pt][t]), FlagsOf(mem[pt][t])))
  }

  /** The hardware walk of a 32-bit virtual address. */
  function Walk32(mem: Memory32, root: Frame, v: nat): Option<Mapping>
    requires v < WORD
  {
    Translate32(mem, root, v / SPAN, v / PAGE % 1024)
  }

  /** Entry `d` of the directory has a table. Entry 1023 is the self-mapping. */
  predicate HasTable32(mem: Memory32, root: Frame, d: nat) {
    d < 1023 && root in mem && Present(mem[root][d])
  }

  function Table32(mem: Memory32, root: Frame, d: nat): Frame
    requires d < 1024 && root in mem
  {
    FrameOf(mem[root][d])
  }

  /** The directory is self-mapped, and its tables are distinct frames of memory. */
  ghost predicate RootOk(mem: Memory32, root: Frame) {
    && root in mem && Present(mem[root][1023]) && !Large(mem[root][1023]) && Table32(mem, root, 1023) == root
    && (forall d: nat :: HasTable32(mem, root, d) ==>
                           !Large(mem[root][d]) && Table32(mem, root, d) in mem && Table32(mem, root, d) != root)
    && (forall d: nat, e: nat :: HasTable32(mem, root, d) && HasTable32(mem, root, e) && d != e ==>
                                   Table32(mem, root, d) != Table32(mem, root, e))
  }

  ghost predicate IsTable32(mem: Memory32, root: Frame, f: Frame) {
    f == root || exists d: nat :: HasTable32(mem, root, d) && Table32(mem, root, d) == f
  }

  /** The kernel's directory as `pg_init` leaves it: one table, and the entry for the directory itself. */
  function NewDirectory(root: Frame, pt: Frame): Words
    requires root * PAGE + 3 < WORD && pt * PAGE + 3 < WORD
  {
    seq(1024, i requires 0 <= i < 1024 =>
      if i == 1023 then root * PAGE + 3 else if i == 768 then pt * PAGE + 3 else if i < 256 then 0 else 2)
  }

  lemma NewDirectoryOk(mem: Memory32, root: Frame, pt: Frame)
    requires root in mem && pt in mem && pt != root && root * PAGE + 3 < WORD && pt * PAGE + 3 < WORD
    requires mem[root] == NewDirectory(root, pt)
    ensures RootOk(mem, root) && forall f :: IsTable32(mem, root, f) <==> f == root || f == pt
  {
    SplitEntry(root, 3);
    SplitEntry(pt, 3);
    assert forall d: nat :: HasTable32(mem, root, d) <==> d == 768;
    assert HasTable32(mem, root, 768) && Table32(mem, root, 768) == pt;
  }

  // ------------------------------------------------------------------------------------------
  // The window
  // ------------------------------------------------------------------------------------------

  /** Word `i` of table `d`; table 1023 is the directory itself. */
  function WindowAddress(d: nat, i: nat): (v: nat)
    requires d < 1024 && i < 1024
    ensures v < WORD
  {
    WINDOW + d * PAGE + 4 * i
  }

  /** Through the window, a table is where the directory says. */
  lemma WindowShows(mem: Memory32, root: Frame, d: nat, i: nat)
    requires RootOk(mem, root) && d < 1024 && i < 1024 && Present(mem[root][d])
    ensures var v := WindowAddress(d, i);
            && v % PAGE / 4 == i && v % 4 == 0
            && Walk32(mem, root, v).Some? && Walk32(mem, root, v).value.frame == Table32(mem, root, d)
            && Table32(mem, root, d) in mem
  {
    var v := WindowAddress(d, i);
    assert v / PAGE == 1023 * 1024 + d;
    assert v / SPAN == 1023;
    assert d < 1023 ==> HasTable32(mem, root, d);
  }

  // ------------------------------------------------------------------------------------------
  // Edits
  // ------------------------------------------------------------------------------------------

  /** A write to a frame that is no table changes no translation. */
  lemma OffTables(mem: Memory32, root: Frame, f: Frame, ws: Words)
    requires RootOk(mem, root) && f in mem && !IsTable32(mem, root, f)
    ensures var mem' := mem[f := ws];
            && RootOk(mem', root) && mem'[root] == mem[root]
            && (forall g :: IsTable32(mem', root, g) <==> IsTable32(mem, root, g))
            && (forall d: nat, t: nat :: d < 1024 && t < 1024 ==>
                                           Translate32(mem', root, d, t) == Translate32(mem, root, d, t))
  {
    var mem' := mem[f := ws];
    assert forall d: nat :: HasTable32(mem', root, d) <==> HasTable32(mem, root, d);
    assert forall d: nat :: d < 1024 ==> Table32(mem', root, d) == Table32(mem, root, d);
    forall d: nat | HasTable32(mem, root, d) ensures Table32(mem, root, d) != f {
      assert IsTable32(mem, root, Table32(mem, root, d));
    }
    forall d: nat, t: nat | d < 1024 && t < 1024
      ensures Translate32(mem', root, d, t) == Translate32(mem, root, d, t)
    {
      if Present(mem[root][d]) && d < 1023 { assert HasTable32(mem, root, d); }
    }
  }

  /** Writing one entry changes exactly one translation outside the window. */
  lemma WordChangesOne(mem: Memory32, root: Frame, d: nat, t: nat, w: Word32)
    requires RootOk(mem, root) && HasTable32(mem, root, d) && t < 1024
    ensures var pt := Table32(mem, root, d);
            var mem' := mem[pt := mem[pt][t := w]];
            && RootOk(mem', root) && mem'[root] == mem[root]
            && (forall g :: IsTable32(mem', root, g) <==> IsTable32(mem, root, g))
            && Translate32(mem', root, d, t) == (if Present(w) then Some(Mapping(FrameOf(w), FlagsOf(w))) else None)
            && (forall e: nat, u: nat :: e < 1023 && u < 1024 && (e, u) != (d, t) ==>
                                           Translate32(mem', root, e, u) == Translate32(mem, root, e, u))
  {
    var pt := Table32(mem, root, d);
    var mem' := mem[pt := mem[pt][t := w]];
    assert forall e: nat :: HasTable32(mem', root, e) <==> HasTable32(mem, root, e);
    assert forall e: nat :: e < 1024 ==> Table32(mem', root, e) == Table32(mem, root, e);
    forall e: nat, u: nat | e < 1023 && u < 1024 && (e, u) != (d, t)
      ensures Translate32(mem', root, e, u) == Translate32(mem, root, e, u)
    {
      if Present(mem[root][e]) { assert HasTable32(mem, root, e); }
    }
  }

  /** `create_new_pt` zeroes only the first 1024 bytes of the new table. */
  function QuarterCleared(ws: Words): Words {
    seq(1024, k requires 0 <= k < 1024 => if k < 256 then 0 else ws[k])
  }

  function WithTable32(mem: Memory32, root: Frame, d: nat, f: Frame): Memory32
    requires d < 1023 && root in mem && f in mem && f * PAGE + 3 < WORD
  {
    mem[root := mem[root][d := f * PAGE + 3]][f := QuarterCleared(mem[f])]
  }

  /** Hanging in a new table changes no translation elsewhere. */
  lemma TableAdds(mem: Memory32, root: Frame, d: nat, f: Frame)
    requires RootOk(mem, root) && d < 1023 && !HasTable32(mem, root, d)
    requires f in mem && !IsTable32(mem, root, f) && f * PAGE + 3 < WORD
    ensures var mem' := WithTable32(mem, root, d, f);
            && RootOk(mem', root) && HasTable32(mem', root, d) && Table32(mem', root, d) == f
            && (forall g :: IsTable32(mem', root, g) <==> IsTable32(mem, root, g) || g == f)
            && (forall e: nat, u: nat :: e < 1023 && u < 1024 && e != d ==>
                                           Translate32(mem', root, e, u) == Translate32(mem, root, e, u))
            && (forall u: nat :: u < 1024 ==>
                                   Translate32(mem', root, d, u) ==
                                   if u >= 256 && Present(mem[f][u]) then
                                     Some(Mapping(FrameOf(mem[f][u]), FlagsOf(mem[f][u])))
                                   else None)
  {
    var mem' := WithTable32(mem, root, d, f);
    SplitEntry(f, 3);
    assert mem'[root] == mem[root][d := f * PAGE + 3];
    assert forall e: nat :: HasTable32(mem', root, e) <==> HasTable32(mem, root, e) || e == d;
    assert forall e: nat :: e < 1024 && e != d ==> Table32(mem', root, e) == Table32(mem, root, e);
    forall e: nat | HasTable32(mem, root, e) ensures Table32(mem, root, e) != f {
      assert IsTable32(mem, root, Table32(mem, root, e));
    }
    forall g | IsTable32(mem, root, g) ensures IsTable32(mem', root, g) {
      if g != root {
        var e: nat :| HasTable32(mem, root, e) && Table32(mem, root, e) == g;
        assert HasTable32(mem', root, e) && Table32(mem', root, e) == g;
      }
    }
    assert HasTable32(mem', root, d) && Table32(mem', root, d) == f;
    forall e: nat, u: nat | e < 1023 && u < 1024 && e != d
      ensures Translate32(mem', root, e, u) == Translate32(mem, root, e, u)
    {
      if Present(mem[root][e]) { assert HasTable32(mem, root, e); }
    }
  }

  // ------------------------------------------------------------------------------------------
  // The same memory, read by PAE paging
  // ------------------------------------------------------------------------------------------

  /** Two words make one entry. */
  function View(ws: Words): Table {
    seq(512, j requires 0 <= j < 512 => ws[2 * j] + WORD * ws[2 * j + 1])
  }

  function PaeView(mem: Memory32): Memory { map f | f in mem :: View(mem[f]) }

  /** A 64-bit store, as two words. */
  function WithEntry64(ws: Words, j: nat, e: nat): Words
    requires j < 512 && e < WORD * WORD
  {
    ws[2 * j := e % WORD][2 * j + 1 := e / WORD]
  }

  lemma ViewStore(ws: Words, j: nat, e: nat)
    requires j < 512 && e < WORD * WORD
    ensures View(WithEntry64(ws, j, e)) == View(ws)[j := e]
  {
    var ws' := WithEntry64(ws, j, e);
    forall k | 0 <= k < 512 ensures View(ws')[k] == View(ws)[j := e][k] {
      if k != j { assert ws'[2 * k] == ws[2 * k] && ws'[2 * k + 1] == ws[2 * k + 1]; }
    }
  }
}
