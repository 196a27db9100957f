/** PAE paging as the processor sees it, and the recursive window through which the kernel edits it.

    The walk follows section 4.4 of the Intel SDM, volume 3A, without permission bits. */
module PageTables {
  import opened Common

  /** A physical frame number and a 64-bit table entry. */
  type Frame = nat
  type Entry = nat

  type Table = t: seq<Entry> | |t| == 512 witness seq(512, _ => 0)

  /** The frames that are backed by memory, each read as 512 entries. */
  type Memory = map<Frame, Table>

  const GIB := 0x4000_0000
  const DIR := 0x20_0000

  function ZeroTable(): Table { seq(512, _ => 0) }

  // ------------------------------------------------------------------------------------------
  // Entries
  // ------------------------------------------------------------------------------------------

  predicate Present(e: Entry) { e % 2 == 1 }

  /** Bit 7 of a directory entry: it maps a 2 MiB page. */
  predicate Large(e: Entry) { e / 128 % 2 == 1 }

  /** Bits 12 to 51. */
  function FrameOf(e: Entry): Frame { e / PAGE % 0x100_0000_0000 }

  function FlagsOf(e: Entry): nat { e % PAGE }

  /** The bitwise or. */
  function BitOr(a: nat, b: nat): nat {
    if a == 0 && b == 0 then 0
    else (if a % 2 == 1 || b % 2 == 1 then 1 else 0) + 2 * BitOr(a / 2, b / 2)
  }

  lemma {:induction false} BitOrZero(a: nat)
    ensures BitOr(a, 0) == a
  {
    if a > 0 { BitOrZero(a / 2); }
  }

  /** Where no bits overlap, or adds. */
  lemma BitOrAdds(a: nat, b: nat, n: nat)
    requires b < Pow2(n)
    ensures BitOr(a * Pow2(n), b) == a * Pow2(n) + b
  {
    ShiftedIs(a, n);
    ShiftedIs(0, n);
    BitOrSplit(a, 0, 0, b, n);
    BitOrZero(a);
    ZeroBitOr(b);
  }

  /** An entry for a page frame: its frame and its flags can be read back. */
  lemma PageEntry(phys: nat, flags: nat)
    requires phys % PAGE == 0 && phys < 0x10_0000_0000_0000 && flags < PAGE
    ensures var e := BitOr(phys, flags);
            e == phys + flags && FrameOf(e) == phys / PAGE && FlagsOf(e) == flags && (Present(e) <==> flags % 2 == 1)
  {
    var q := phys / PAGE;
    assert Pow2(6) == 64;
    Pow2Add(6, 6);
    BitOrAdds(q, flags, 12);
    SplitEntry(q, flags);
  }

  /** Frame number and flags of an entry that is their sum. */
  lemma SplitEntry(f: Frame, flags: nat)
    requires f < 0x100_0000_0000 && flags < PAGE
    ensures var e := f * PAGE + flags;
            && FrameOf(e) == f && FlagsOf(e) == flags && (Present(e) <==> flags % 2 == 1)
            && (flags < 128 ==> !Large(e))
  {
    SplitFrame(f, flags);
    SplitPresent(f, flags);
    if flags < 128 { SplitLarge(f, flags); }
  }

  lemma SplitFrame(f: Frame, flags: nat)
    requires f < 0x100_0000_0000 && flags < PAGE
    ensures FrameOf(f * PAGE + flags) == f && FlagsOf(f * PAGE + flags) == flags
  {
    assert (f * PAGE + flags) / PAGE == f;
  }

  lemma SplitPresent(f: Frame, flags: nat)
    ensures Present(f * PAGE + flags) <==> flags % 2 == 1
  {
    assert f * PAGE + flags == 2 * (f * 2048) + flags;
  }

  lemma SplitLarge(f: Frame, flags: nat)
    requires flags < 128
    ensures !Large(f * PAGE + flags)
  {
    assert f * PAGE + flags == 128 * (2 * (f * 16)) + flags;
    assert (f * PAGE + flags) / 128 == 2 * (f * 16);
  }

  // ------------------------------------------------------------------------------------------
  // The walk
  // ------------------------------------------------------------------------------------------

  /** The frame an address is in, and the low bits of the entry that says so. */
  datatype Mapping = Mapping(frame: Frame, flags: nat)

  function DirIndex(v: nat): nat { v / DIR % 512 }
  function TableIndex(v: nat): nat { v / PAGE % 512 }

  /** The translation below one page directory. */
  function Translate(mem: Memory, pd: Frame, d: nat, t: nat): Option<Mapping>
    requires d < 512 && t < 512
  {
    if pd !in mem || !Present(mem[pd][d]) then None
    else if Large(mem[pd][d]) then Some(Mapping(FrameOf(mem[pd][d]) / 512 * 512 + t, FlagsOf(mem[pd][d])))
    else
      var pt := FrameOf(mem[pd][d]);
      if pt !in mem || !Present(mem[pt][t]) then None
      else Some(Mapping(FrameOf(mem[pt][t]), FlagsOf(mem[pt][t])))
  }

  /** The hardware walk of a 32-bit virtual address. */
  function Walk(mem: Memory, pdpt: seq<Entry>, v: nat): Option<Mapping>
    requires |pdpt| == 4 && v < 4 * GIB
  {
    if !Present(pdpt[v / GIB]) then None
    else Translate(mem, FrameOf(pdpt[v / GIB]), DirIndex(v), TableIndex(v))
  }

  // ------------------------------------------------------------------------------------------
  // The recursive window
  // ------------------------------------------------------------------------------------------

  /** `recursive_addr`: the last 2 MiB of the quarter that `p` selects. */
  function Window(p: nat): nat
    requires p < 4
  {
    p * GIB + 0x3fe0_0000
  }

  /** Where table `d` of quarter `p` appears; table 511 is the directory itself. */
  function TableAddress(p: nat, d: nat, i: nat): (v: nat)
    requires p < 4 && d < 512 && i < 512
    ensures v < 4 * GIB
  {
    Window(p) + d * PAGE + 8 * i
  }

  /** A number shifted left. */
  function Shifted(a: nat, n: nat): nat { if n == 0 then a else 2 * Shifted(a, n - 1) }

  lemma {:induction false} ShiftedIs(a: nat, n: nat)
    ensures Shifted(a, n) == a * Pow2(n)
  {
    if n > 0 {
      ShiftedIs(a, n - 1);
      Doubled(a, Pow2(n - 1));
    }
  }

  lemma Doubled(a: nat, p: nat)
    ensures a * (2 * p) == 2 * (a * p)
  {
  }

  /** The bitwise or works on high and low digits separately. */
  lemma {:induction false} BitOrSplit(a: nat, b: nat, c: nat, d: nat, n: nat)
    requires b < Pow2(n) && d < Pow2(n)
    ensures BitOr(Shifted(a, n) + b, Shifted(c, n) + d) == Shifted(BitOr(a, c), n) + BitOr(b, d)
  {
    if n > 0 {
      BitOrSplit(a, b / 2, c, d / 2, n - 1);
      BitOrStep(Shifted(a, n - 1), b, Shifted(c, n - 1), d, Shifted(BitOr(a, c), n - 1));
    }
  }

  lemma BitOrStep(x: nat, b: nat, y: nat, d: nat, z: nat)
    requires BitOr(x + b / 2, y + d / 2) == z + BitOr(b / 2, d / 2)
    ensures BitOr(2 * x + b, 2 * y + d) == 2 * z + BitOr(b, d)
  {
    BitOrDigit(2 * x + b, 2 * y + d);
    BitOrDigit(b, d);
    assert (2 * x + b) / 2 == x + b / 2 && (2 * y + d) / 2 == y + d / 2;
    assert (2 * x + b) % 2 == b % 2 && (2 * y + d) % 2 == d % 2;
  }

  lemma BitOrDigit(a: nat, b: nat)
    ensures BitOr(a, b) == (if a % 2 == 1 || b % 2 == 1 then 1 else 0) + 2 * BitOr(a / 2, b / 2)
  {
    if a == 0 && b == 0 { BitOrZero(0); }
  }

  lemma {:induction false} ZeroBitOr(a: nat)
    ensures BitOr(0, a) == a
  {
    if a > 0 { ZeroBitOr(a / 2); }
  }

  lemma Pow2At21()
    ensures Pow2(21) == DIR
  {
    assert Pow2(7) == 128;
    Pow2Add(7, 7);
    Pow2Add(14, 7);
  }

  /** The bitwise or in the kernel's address computations adds, for the directory's address as well, although there
      the constant repeats bit 21 of the window. */
  lemma WindowBits(p: nat, d: nat)
    requires p < 4 && d < 512
    ensures BitOr(Window(p), d * PAGE) == TableAddress(p, d, 0)
    ensures BitOr(Window(p), 1023 * PAGE) == TableAddress(p, 511, 0)
  {
    WindowShifted(p);
    TableBits(p * 512 + 511, d * PAGE);
    DirectoryBits(p * 512 + 511, 511 * PAGE);
    assert 1023 * PAGE == DIR + 511 * PAGE;
  }

  lemma WindowShifted(p: nat)
    requires p < 4
    ensures Window(p) == Shifted(p * 512 + 511, 21)
  {
    Pow2At21();
    ShiftedIs(p * 512 + 511, 21);
  }

  lemma TableBits(w: nat, low: nat)
    requires low < DIR
    ensures BitOr(Shifted(w, 21), low) == Shifted(w, 21) + low
  {
    Pow2At21();
    ShiftedIs(w, 21);
    BitOrAdds(w, low, 21);
  }

  lemma DirectoryBits(w: nat, low: nat)
    requires w % 2 == 1 && low < DIR
    ensures BitOr(Shifted(w, 21), DIR + low) == Shifted(w, 21) + low
  {
    Pow2At21();
    ShiftedIs(1, 21);
    OddOr(w);
    BitOrSplit(w, 0, 1, low, 21);
    ZeroBitOr(low);
  }

  lemma OddOr(a: nat)
    requires a % 2 == 1
    ensures BitOr(a, 1) == a
  {
    BitOrDigit(a, 1);
    BitOrZero(a / 2);
  }

  lemma WindowIndices(p: nat, d: nat, i: nat)
    requires p < 4 && d < 512 && i < 512
    ensures var v := TableAddress(p, d, i);
            v / GIB == p && DirIndex(v) == 511 && TableIndex(v) == d && v % PAGE / 8 == i
  {
    var v := TableAddress(p, d, i);
    assert v / DIR == p * 512 + 511;
    assert v / PAGE == (p * 512 + 511) * 512 + d;
  }

  /** The directory's last entry refers to the directory. */
  predicate SelfMapped(mem: Memory, pd: Frame) {
    && pd in mem && Present(mem[pd][511]) && !Large(mem[pd][511]) && FrameOf(mem[pd][511]) == pd
  }

  /** Through the window, table `d` of a self-mapped directory is where the directory says. */
  lemma WindowWalk(mem: Memory, pdpt: seq<Entry>, p: nat, d: nat, i: nat)
    requires |pdpt| == 4 && p < 4 && d < 512 && i < 512
    requires Present(pdpt[p]) && SelfMapped(mem, FrameOf(pdpt[p]))
    ensures var e := mem[FrameOf(pdpt[p])][d];
            Walk(mem, pdpt, TableAddress(p, d, i)) == if Present(e) then Some(Mapping(FrameOf(e), FlagsOf(e))) else None
  {
    WindowIndices(p, d, i);
  }

  // ------------------------------------------------------------------------------------------
  // Well-formed directories
  // ------------------------------------------------------------------------------------------

  /** Table `d` below directory `pd` is there. Entry 511 is the self-mapping. */
  predicate HasTable(mem: Memory, pd: Frame, d: nat) {
    d < 511 && pd in mem && Present(mem[pd][d])
  }

  function TableOf(mem: Memory, pd: Frame, d: nat): Frame
    requires d < 511 && pd in mem
  {
    FrameOf(mem[pd][d])
  }

  /** Directories are self-mapped, and all their tables are distinct frames of memory. */
  ghost predicate TablesOk(mem: Memory, pds: set<Frame>) {
    && (forall pd :: pd in pds ==> SelfMapped(mem, pd))
    && (forall pd, d: nat :: pd in pds && HasTable(mem, pd, d) ==>
                               !Large(mem[pd][d]) && TableOf(mem, pd, d) in mem && TableOf(mem, pd, d) !in pds)
    && (forall pd, d: nat, qd, e: nat ::
          (pd in pds && qd in pds && HasTable(mem, pd, d) && HasTable(mem, qd, e) &&
           TableOf(mem, pd, d) == TableOf(mem, qd, e)) ==> pd == qd && d == e)
  }

  /** The frame is a directory or one of its tables. */
  ghost predicate IsTable(mem: Memory, pds: set<Frame>, f: Frame) {
    f in pds || exists pd, d: nat :: pd in pds && HasTable(mem, pd, d) && TableOf(mem, pd, d) == f
  }

  // ------------------------------------------------------------------------------------------
  // Edits
  // ------------------------------------------------------------------------------------------

  /** One entry of an existing table is written. */
  function WithEntry(mem: Memory, pd: Frame, d: nat, t: nat, e: Entry): Memory
    requires d < 511 && t < 512 && pd in mem && TableOf(mem, pd, d) in mem
  {
    var pt := TableOf(mem, pd, d);
    mem[pt := mem[pt][t := e]]
  }

  /** A new zeroed table is hung into the directory. */
  function WithTable(mem: Memory, pd: Frame, d: nat, f: Frame): Memory
    requires d < 511 && pd in mem && f in mem
  {
    mem[pd := mem[pd][d := f * PAGE + 3]][f := ZeroTable()]
  }

  /** Writing one entry changes exactly one translation, in all directories together. */
  lemma EntryChangesOne(mem: Memory, pds: set<Frame>, pd: Frame, d: nat, t: nat, e: Entry)
    requires TablesOk(mem, pds) && pd in pds && HasTable(mem, pd, d) && t < 512
    ensures var mem' := WithEntry(mem, pd, d, t, e);
            && TablesOk(mem', pds)
            && (forall f :: IsTable(mem', pds, f) <==> IsTable(mem, pds, f))
            && Translate(mem', pd, d, t) == (if Present(e) then Some(Mapping(FrameOf(e), FlagsOf(e))) else None)
            && (forall qd, d': nat, t': nat :: qd in pds && d' < 511 && t' < 512 && (qd, d', t') != (pd, d, t) ==>
                                                 Translate(mem', qd, d', t') == Translate(mem, qd, d', t'))
  {
    var mem', pt := WithEntry(mem, pd, d, t, e), TableOf(mem, pd, d);
    assert forall qd :: qd in pds ==> mem'[qd] == mem[qd];
    assert forall qd, d': nat :: qd in pds ==> HasTable(mem', qd, d') == HasTable(mem, qd, d');
    assert forall qd, d': nat :: qd in pds && HasTable(mem, qd, d') ==> TableOf(mem', qd, d') == TableOf(mem, qd, d');
  }

  /** Hanging in a new table changes no translation outside the window, in no directory. */
  lemma TableChangesNone(mem: Memory, pds: set<Frame>, pd: Frame, d: nat, f: Frame)
    requires TablesOk(mem, pds) && pd in pds && d < 511 && !HasTable(mem, pd, d)
    requires f in mem && !IsTable(mem, pds, f) && f < 0x100_0000_0000
    ensures var mem' := WithTable(mem, pd, d, f);
            && TablesOk(mem', pds)
            && (forall g :: IsTable(mem', pds, g) <==> IsTable(mem, pds, g) || g == f)
            && HasTable(mem', pd, d) && TableOf(mem', pd, d) == f && mem'[f] == ZeroTable()
            && (forall qd, d': nat, t': nat :: qd in pds && d' < 511 && t' < 512 ==>
                                                 Translate(mem', qd, d', t') == Translate(mem, qd, d', t'))
  {
    var mem' := WithTable(mem, pd, d, f);
    SplitEntry(f, 3);
    forall qd, d': nat | qd in pds && HasTable(mem, qd, d') ensures TableOf(mem, qd, d') != f {
      assert IsTable(mem, pds, TableOf(mem, qd, d'));
    }
    NewTableFrames(mem, mem', pds, pd, d, f);
    assert forall qd :: qd in pds && qd != pd ==> mem'[qd] == mem[qd];
  }

  lemma NewTableFrames(mem: Memory, mem': Memory, pds: set<Frame>, pd: Frame, d: nat, f: Frame)
    requires TablesOk(mem, pds) && pd in pds && d < 511 && !HasTable(mem, pd, d)
    requires f in mem && !IsTable(mem, pds, f) && f < 0x100_0000_0000 && mem' == WithTable(mem, pd, d, f)
    ensures forall qd, e: nat :: qd in pds ==> (HasTable(mem', qd, e) <==> HasTable(mem, qd, e) || (qd, e) == (pd, d))
    ensures forall qd, e: nat :: qd in pds && HasTable(mem, qd, e) ==> TableOf(mem', qd, e) == TableOf(mem, qd, e) != f
    ensures HasTable(mem', pd, d) && TableOf(mem', pd, d) == f
    ensures TablesOk(mem', pds)
    ensures forall g :: IsTable(mem', pds, g) <==> IsTable(mem, pds, g) || g == f
  {
    SplitEntry(f, 3);
    forall qd, e: nat | qd in pds && HasTable(mem, qd, e) ensures TableOf(mem, qd, e) != f {
      assert IsTable(mem, pds, TableOf(mem, qd, e));
    }
    assert forall qd :: qd in pds && qd != pd ==> mem'[qd] == mem[qd];
    assert HasTable(mem', pd, d) && TableOf(mem', pd, d) == f;
    forall g | IsTable(mem, pds, g) ensures IsTable(mem', pds, g) {
      if g !in pds {
        var qd, e: nat :| qd in pds && HasTable(mem, qd, e) && TableOf(mem, qd, e) == g;
        assert HasTable(mem', qd, e) && TableOf(mem', qd, e) == g;
      }
    }
  }
}
