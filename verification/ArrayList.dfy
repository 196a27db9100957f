/** The growable list of `kernel/utils/arraylist.c`, laid out in the bytes of the heap. */
module ArrayList {
  import opened Common
  import opened HeapBytes
  import opened HeapBlocks
  import opened HeapLayout
  import opened HeapUse
  import opened HeapGrowth
  import opened HeapLinks
  import opened Heap

  /** `sizeof(struct array_list)`: the size of an item, two 16-bit counts, and a word where the items begin. */
  const LIST := 12
  const DATA := 8

  // ------------------------------------------------------------------------------------------
  // The layout
  // ------------------------------------------------------------------------------------------

  function Load16(m: Bytes, a: nat): (v: nat)
    requires a + 2 <= |m|
    ensures v < 0x1_0000
  {
    var (b0: nat, b1: nat) := (m[a], m[a + 1]);
    b0 + 0x100 * b1
  }

  /** Where item `k` is. */
  function Slot(al: nat, dt: nat, k: nat): (a: nat)
    ensures a >= al + DATA
  {
    if k == 0 then al + DATA else Slot(al, dt, k - 1) + dt
  }

  lemma {:induction false} SlotIs(al: nat, dt: nat, k: nat)
    ensures Slot(al, dt, k) == al + DATA + k * dt
  {
    if k > 0 {
      SlotIs(al, dt, k - 1);
      assert k * dt == (k - 1) * dt + dt;
    }
  }

  /** The same, as it is computed. */
  function Address(al: nat, dt: nat, k: nat): (a: nat)
    ensures a == Slot(al, dt, k)
  {
    SlotIs(al, dt, k);
    al + DATA + k * dt
  }

  /** Items do not overlap. */
  lemma {:induction false} SlotApart(al: nat, dt: nat, k: nat, j: nat)
    requires k < j
    ensures Slot(al, dt, k) + dt <= Slot(al, dt, j)
  {
    if k + 1 < j { SlotApart(al, dt, k, j - 1); }
  }

  predicate ItemAt(m: Bytes, a: nat, dt: nat, item: Bytes) {
    |item| == dt && a + dt <= |m| && m[a..a + dt] == item
  }

  predicate Item(m: Bytes, al: nat, dt: nat, items: seq<Bytes>, k: nat)
    requires k < |items|
  {
    ItemAt(m, Slot(al, dt, k), dt, items[k])
  }

  /** The bytes at `al` are a list of the given items, each of `dt` bytes, with room for `max` of them. */
  predicate IsList(m: Bytes, al: nat, dt: nat, max: nat, items: seq<Bytes>) {
    && al + DATA <= |m| && Load32(m, al) == dt && Load16(m, al + 4) == |items| <= Load16(m, al + 6) == max
    && forall k :: 0 <= k < |items| ==> Item(m, al, dt, items, k)
  }

  /** The list and its spare room fit into the block. */
  predicate Holds(u: (nat, nat), dt: nat, max: nat) { Slot(0, dt, max) + LIST - DATA <= u.1 }

  lemma ItemFrame(m: Bytes, m': Bytes, lo: nat, hi: nat, a: nat, dt: nat, item: Bytes)
    requires SameOutside(m, m', lo, hi) && (a + dt <= lo || hi <= a) && ItemAt(m, a, dt, item)
    ensures ItemAt(m', a, dt, item)
  {
    assert m'[a..a + dt] == m[a..a + dt];
  }

  lemma {:induction false} SlotShift(al: nat, al': nat, dt: nat, k: nat)
    ensures Slot(al, dt, k) - al == Slot(al', dt, k) - al'
  {
    if k > 0 { SlotShift(al, al', dt, k - 1); }
  }

  /** A list may be moved, as long as its bytes are. */
  lemma ListMoved(m: Bytes, m': Bytes, al: nat, al': nat, n: nat, dt: nat, max: nat, items: seq<Bytes>)
    requires IsList(m, al, dt, max, items) && Slot(0, dt, |items|) <= n
    requires al + n <= |m| && al' + n <= |m'| && m'[al'..al' + n] == m[al..al + n]
    ensures IsList(m', al', dt, max, items)
  {
    SamePart(m, m', al, al', n, 0, DATA);
    SameFields(m, m', al, al');
    forall k | 0 <= k < |items| ensures Item(m', al', dt, items, k) {
      assert Item(m, al, dt, items, k);
      SlotApart(0, dt, k, |items|);
      SlotShift(al, 0, dt, k);
      SlotShift(al', 0, dt, k);
      SamePart(m, m', al, al', n, Slot(0, dt, k), Slot(0, dt, k) + dt);
    }
  }

  lemma SamePart(m: Bytes, m': Bytes, a: nat, a': nat, n: nat, d: nat, e: nat)
    requires a + n <= |m| && a' + n <= |m'| && m'[a'..a' + n] == m[a..a + n] && d <= e <= n
    ensures m'[a' + d..a' + e] == m[a + d..a + e]
  {
    SliceOfSlice(m, a, n, d, e);
    SliceOfSlice(m', a', n, d, e);
  }

  lemma SliceOfSlice(m: Bytes, a: nat, n: nat, d: nat, e: nat)
    requires a + n <= |m| && d <= e <= n
    ensures m[a + d..a + e] == m[a..a + n][d..e]
  {
    var s, t := m[a..a + n][d..e], m[a + d..a + e];
    forall j | 0 <= j < |s| ensures s[j] == t[j] {
      assert s[j] == m[a..a + n][d + j] == m[a + (d + j)];
    }
  }

  lemma SameFields(m: Bytes, m': Bytes, a: nat, a': nat)
    requires a + DATA <= |m| && a' + DATA <= |m'| && m'[a'..a' + DATA] == m[a..a + DATA]
    ensures Load32(m', a') == Load32(m, a) && Load16(m', a' + 4) == Load16(m, a + 4) &&
            Load16(m', a' + 6) == Load16(m, a + 6)
  {
    var s, s' := m[a..a + DATA], m'[a'..a' + DATA];
    assert s'[0] == m'[a'] && s'[1] == m'[a' + 1] && s'[2] == m'[a' + 2] && s'[3] == m'[a' + 3];
    assert s'[4] == m'[a' + 4] && s'[5] == m'[a' + 5] && s'[6] == m'[a' + 6] && s'[7] == m'[a' + 7];
    assert s[0] == m[a] && s[1] == m[a + 1] && s[2] == m[a + 2] && s[3] == m[a + 3];
    assert s[4] == m[a + 4] && s[5] == m[a + 5] && s[6] == m[a + 6] && s[7] == m[a + 7];
    LoadIs(m, a);
    LoadIs(m', a');
  }

  /** Items behind which, or in front of which, all writes are, are kept. */
  lemma ItemsFrame(m: Bytes, m': Bytes, al: nat, dt: nat, items: seq<Bytes>, lo: nat, hi: nat)
    requires SameOutside(m, m', lo, hi) && (hi <= al + DATA || Slot(al, dt, |items|) <= lo)
    requires forall k :: 0 <= k < |items| ==> Item(m, al, dt, items, k)
    ensures forall k :: 0 <= k < |items| ==> Item(m', al, dt, items, k)
  {
    forall k | 0 <= k < |items| ensures Item(m', al, dt, items, k) {
      assert Item(m, al, dt, items, k);
      SlotApart(al, dt, k, |items|);
      ItemFrame(m, m', lo, hi, Slot(al, dt, k), dt, items[k]);
    }
  }

  // ------------------------------------------------------------------------------------------
  // Writes
  // ------------------------------------------------------------------------------------------

  /** A 16-bit field is set; a larger value is cut. */
  method Put16(h: Heap, a: nat, v: nat)
    requires a + 2 <= h.mem.Length
    modifies h.mem
    ensures SameOutside(old(h.mem[..]), h.mem[..], a, a + 2) && Load16(h.mem[..], a) == v % 0x1_0000
  {
    h.mem[a] := v % 0x100;
    h.mem[a + 1] := v / 0x100 % 0x100;
    assert v % 0x1_0000 == v % 0x100 + 0x100 * (v / 0x100 % 0x100);
  }

  method Put32(h: Heap, a: nat, v: nat)
    requires a + 4 <= h.mem.Length && v < WORD
    modifies h.mem
    ensures SameOutside(old(h.mem[..]), h.mem[..], a, a + 4) && Load32(h.mem[..], a) == v
  {
    LoadStore(h.mem[..], a, v);
    h.Store(a, v);
  }

  /** `memcpy` from the caller's item. */
  method PutItem(h: Heap, a: nat, item: Bytes)
    requires a + |item| <= h.mem.Length
    modifies h.mem
    ensures SameOutside(old(h.mem[..]), h.mem[..], a, a + |item|) && h.mem[..][a..a + |item|] == item
  {
    for i := 0 to |item|
      invariant forall k :: 0 <= k < h.mem.Length ==> h.mem[k] == if a <= k < a + i then item[k - a] else old(h.mem[k])
    {
      h.mem[a + i] := item[i];
    }
  }

  // ------------------------------------------------------------------------------------------
  // Operations
  // ------------------------------------------------------------------------------------------

  /** Block `u` of the heap holds a list of these items. */
  ghost predicate ListIn(h: Heap, u: (nat, nat), dt: nat, max: nat, items: seq<Bytes>)
    reads h, h.mem
  {
    && h.Valid() && u in Used(h.blocks) && Holds(u, dt, max) && 0 < max
    && IsList(h.mem[..], u.0 + HEADER, dt, max, items)
  }

  /** The block holds what it has to. */
  lemma ListWithin(m: Bytes, bs: seq<Block>, start: nat, end: nat, u: (nat, nat), dt: nat, max: nat, k: nat)
    requires HeapOk(m, bs, start, end) && u in Used(bs) && Holds(u, dt, max) && k <= max
    ensures u.0 + HEADER + DATA <= Slot(u.0 + HEADER, dt, k) <= u.0 + HEADER + u.1 - 4 < |m|
    ensures k < max ==> Slot(u.0 + HEADER, dt, k) + dt + 4 <= u.0 + HEADER + u.1
  {
    UsedWithin(bs, start, end, u);
    SlotShift(u.0 + HEADER, 0, dt, max);
    if k < max { SlotApart(u.0 + HEADER, dt, k, max); }
  }

  /** A list does not mind what happens elsewhere. */
  lemma ListStays(m: Bytes, m': Bytes, u: (nat, nat), dt: nat, max: nat, items: seq<Bytes>, us: set<(nat, nat)>)
    requires IsList(m, u.0 + HEADER, dt, max, items) && Holds(u, dt, max) && KeepsAll(m, m', us) && u in us
    requires u.0 + HEADER + u.1 <= |m|
    ensures IsList(m', u.0 + HEADER, dt, max, items)
  {
    var al := u.0 + HEADER;
    assert SameBytes(m, m', al, al + u.1);
    assert m'[al..al + u.1] == m[al..al + u.1];
    if |items| < max { SlotApart(0, dt, |items|, max); }
    ListMoved(m, m', al, al, u.1, dt, max, items);
  }

  /** The second half of `al_add_item`: the item goes behind the others. */
  method Push(h: Heap, al: nat, item: Bytes, ghost u: (nat, nat), ghost max: nat, ghost items: seq<Bytes>)
    requires ListIn(h, u, |item|, max, items) && al == u.0 + HEADER && |items| < max
    modifies h.mem
    ensures ListIn(h, u, |item|, max, items + [item])
    ensures KeepsAll(old(h.mem[..]), h.mem[..], Used(h.blocks) - {u})
  {
    ghost var m := h.mem[..];
    ListWithin(m, h.blocks, h.start, h.pos, u, |item|, max, |items|);
    PushBytes(h, al, item, max, items);
    PayloadWritten(m, h.mem[..], h.blocks, h.start, h.pos, u);
  }

  method PushBytes(h: Heap, al: nat, item: Bytes, ghost max: nat, ghost items: seq<Bytes>)
    requires IsList(h.mem[..], al, |item|, max, items) && |items| < max
    requires Slot(al, |item|, |items|) + |item| <= h.mem.Length
    modifies h.mem
    ensures IsList(h.mem[..], al, |item|, max, items + [item])
    ensures SameOutside(old(h.mem[..]), h.mem[..], al, Slot(al, |item|, |items|) + |item|)
  {
    ghost var m := h.mem[..];
    var dt, count := Load32(h.mem[..], al), Load16(h.mem[..], al + 4);
    PutItem(h, Address(al, dt, count), item);
    ghost var m1 := h.mem[..];
    PushItem(m, m1, al, dt, max, items, item);
    Put16(h, al + 4, count + 1);
    PushCount(m1, h.mem[..], al, dt, max, items, item);
  }

  lemma PushItem(m: Bytes, m': Bytes, al: nat, dt: nat, max: nat, items: seq<Bytes>, item: Bytes)
    requires IsList(m, al, dt, max, items) && |item| == dt && Slot(al, dt, |items|) + dt <= |m|
    requires SameOutside(m, m', Slot(al, dt, |items|), Slot(al, dt, |items|) + dt)
    requires m'[Slot(al, dt, |items|)..Slot(al, dt, |items|) + dt] == item
    ensures IsList(m', al, dt, max, items) && ItemAt(m', Slot(al, dt, |items|), dt, item)
  {
    ItemsFrame(m, m', al, dt, items, Slot(al, dt, |items|), Slot(al, dt, |items|) + dt);
    LoadFrame(m, m', al);
  }

  lemma PushCount(m: Bytes, m': Bytes, al: nat, dt: nat, max: nat, items: seq<Bytes>, item: Bytes)
    requires IsList(m, al, dt, max, items) && ItemAt(m, Slot(al, dt, |items|), dt, item) && |items| < max
    requires SameOutside(m, m', al + 4, al + 6) && Load16(m', al + 4) == |items| + 1
    ensures IsList(m', al, dt, max, items + [item])
  {
    ItemsFrame(m, m', al, dt, items, al + 4, al + 6);
    ItemFrame(m, m', al + 4, al + 6, Slot(al, dt, |items|), dt, item);
    LoadFrame(m, m', al);
    forall k | 0 <= k < |items| + 1 ensures Item(m', al, dt, items + [item], k) {
      if k < |items| { assert Item(m', al, dt, items, k); }
    }
  }

  /** The size that a full list asks for, to double its room; 32-bit arithmetic. */
  function NewSize(dt: nat, max: nat): nat { (max * 2 * dt + LIST) % WORD }

  lemma NewSizeHolds(dt: nat, max: nat)
    requires max < 0x8000 && dt < 0x1_0000
    ensures Slot(0, dt, 2 * max) + LIST - DATA == NewSize(dt, max) <= Round(NewSize(dt, max))
    ensures NewSize(dt, max) == 2 * max * dt + LIST
  {
    SlotIs(0, dt, 2 * max);
    assert max * 2 * dt == 2 * max * dt <= 0xfffe * 0xffff by { ProductBound(2 * max, dt, 0xfffe, 0xffff); }
  }

  lemma ProductBound(a: nat, b: nat, c: nat, d: nat)
    requires a <= c && b <= d
    ensures a * b <= c * d
  {
    assert a * b <= c * b <= c * d;
  }

  /** A full list may be grown: the links that this follows are not stale, and if the list has to move, there is room
      for a new block. */
  ghost predicate Growable(h: Heap, i: nat, dt: nat, max: nat)
    reads h
    requires i < |h.blocks|
  {
    && NextListed(h.blocks, i)
    && (!Absorbs(h.blocks, i) ==>
          PrevListed(h.blocks, i) && HasRoom(h.blocks, h.pos, h.mem.Length, Round(NewSize(dt, max))))
  }

  /** In a steady heap, what is left to ask for is room. */
  lemma SteadyGrows(h: Heap, i: nat, u: (nat, nat), dt: nat, max: nat)
    requires Steady(h.blocks, i, u)
    ensures Growable(h, i, dt, max) <==>
            Absorbs(h.blocks, i) || HasRoom(h.blocks, h.pos, h.mem.Length, Round(NewSize(dt, max)))
  {
    FullListed(h.blocks, i);
  }

  /** The block has to move, `taken` is the memory after the allocation of `got`, and the copy changes what is behind
      that one, which is shorter then. */
  ghost predicate MoveOverruns(bs: seq<Block>, i: nat, u: (nat, nat), got: (nat, nat), taken: Bytes)
    requires i < |bs|
  {
    !Absorbs(bs, i) && Overruns(taken, got.0 + HEADER, got.1, u.0 + HEADER, u.1)
  }

  /** `rekalloc` of a block whose links are not stale. */
  method Enlarge(h: Heap, ptr: nat, request: nat, ghost i: nat, ghost u: (nat, nat))
    returns (r: Regrowth, ghost got: (nat, nat), ghost taken: Bytes)
    requires h.Valid() && IsUsed(h.blocks, i, u) && ptr == u.0 + HEADER && NextListed(h.blocks, i)
    requires !Absorbs(h.blocks, i) ==> PrevListed(h.blocks, i) && HasRoom(h.blocks, h.pos, h.mem.Length, Round(request))
    modifies h, h.mem
    ensures r.Failed? <==> Absorbs(old(h.blocks), i) && Room(old(h.blocks), i) < Round(request)
    ensures r.Failed? ==> h.mem[..] == old(h.mem[..]) && h.blocks == old(h.blocks) && h.pos == old(h.pos) && h.Valid()
    ensures !Absorbs(old(h.blocks), i) ==>
              && Took(old(h.mem[..]), taken, old(h.blocks), h.start, old(h.pos), Round(request))
              && got == HandedOut(old(h.blocks), old(h.pos), Round(request))
    ensures r.Lost? <==> MoveOverruns(old(h.blocks), i, u, got, taken)
    ensures r.At? ==>
              && h.Valid() && r.ptr == got.0 + HEADER && got.1 >= Round(request)
              && Used(h.blocks) == Used(old(h.blocks)) - {u} + {got} && got !in Used(old(h.blocks)) - {u}
              && KeepsAll(old(h.mem[..]), h.mem[..], Used(old(h.blocks)) - {u})
              && KeepsStart(old(h.mem[..]), h.mem[..], u, got)
              && Regrown(old(h.blocks), old(h.pos), i, Round(request), u, got, h.blocks)
  {
    UsedReads(h.mem[..], h.blocks, h.start, h.pos, i);
    ghost var bs := h.blocks;
    ghost var copied;
    r, got, taken, copied := h.Rekalloc(ptr, request, i, u);
    if Absorbs(bs, i) {
      assert !r.Lost?;
    } else {
      assert Releasable(bs, i, u) && !r.Failed?;
    }
  }

  /** The list that was grown is told its room. */
  method Retitle(h: Heap, al: nat, new_max: nat, ghost m: Bytes, ghost u: (nat, nat), ghost got: (nat, nat),
                 ghost dt: nat, ghost max: nat, ghost items: seq<Bytes>, ghost us: set<(nat, nat)>)
    requires h.Valid() && got in Used(h.blocks) && al == got.0 + HEADER && new_max == 2 * max
    requires IsList(m, u.0 + HEADER, dt, max, items) && 0 < |items| == max < 0x8000 && dt < 0x1_0000
    requires Holds(u, dt, max) && got.1 >= Round(NewSize(dt, max)) && KeepsStart(m, h.mem[..], u, got)
    requires KeepsAll(m, h.mem[..], us - {u}) && Used(h.blocks) == us - {u} + {got} && got !in us - {u}
    modifies h.mem
    ensures ListIn(h, got, dt, 2 * max, items) && KeepsAll(m, h.mem[..], us - {u})
  {
    ghost var m1 := h.mem[..];
    GrowMoves(m, m1, u, got, dt, max, items);
    PutMax(h, al, new_max, got, dt, max, items);
    KeepsRest(m, m1, h.mem[..], us, u, Used(h.blocks), got);
  }

  /** The room that the list says it has. */
  method PutMax(h: Heap, al: nat, new_max: nat, ghost u: (nat, nat), ghost dt: nat, ghost max: nat,
                ghost items: seq<Bytes>)
    requires h.Valid() && u in Used(h.blocks) && Holds(u, dt, new_max) && al == u.0 + HEADER
    requires IsList(h.mem[..], al, dt, max, items) && 0 < max <= new_max < 0x1_0000
    modifies h.mem
    ensures ListIn(h, u, dt, new_max, items) && KeepsAll(old(h.mem[..]), h.mem[..], Used(h.blocks) - {u})
  {
    ghost var m := h.mem[..];
    ListWithin(m, h.blocks, h.start, h.pos, u, dt, new_max, 0);
    MaxBytes(h, al, new_max, dt, max, items);
    PayloadWritten(m, h.mem[..], h.blocks, h.start, h.pos, u);
  }

  method MaxBytes(h: Heap, al: nat, new_max: nat, ghost dt: nat, ghost max: nat, ghost items: seq<Bytes>)
    requires IsList(h.mem[..], al, dt, max, items) && max <= new_max < 0x1_0000
    modifies h.mem
    ensures IsList(h.mem[..], al, dt, new_max, items) && SameOutside(old(h.mem[..]), h.mem[..], al + 6, al + 8)
  {
    ghost var m := h.mem[..];
    Put16(h, al + 6, new_max);
    ItemsFrame(m, h.mem[..], al, dt, items, al + 6, al + 8);
    LoadFrame(m, h.mem[..], al);
    assert Load16(h.mem[..], al + 4) == Load16(m, al + 4);
  }

  lemma GrowMoves(m: Bytes, m': Bytes, u: (nat, nat), got: (nat, nat), dt: nat, max: nat, items: seq<Bytes>)
    requires IsList(m, u.0 + HEADER, dt, max, items) && |items| == max < 0x8000 && dt < 0x1_0000
    requires Holds(u, dt, max) && got.1 >= Round(NewSize(dt, max)) && KeepsStart(m, m', u, got)
    ensures IsList(m', got.0 + HEADER, dt, max, items) && Holds(got, dt, 2 * max)
  {
    NewSizeHolds(dt, max);
    if max > 0 { SlotApart(0, dt, max, 2 * max); }
    ListMoved(m, m', u.0 + HEADER, got.0 + HEADER, if u.1 <= got.1 then u.1 else got.1, dt, max, items);
  }

  lemma KeepsRest(m: Bytes, m1: Bytes, m2: Bytes, us: set<(nat, nat)>, u: (nat, nat), us': set<(nat, nat)>, v: (nat,
                    nat))
    requires KeepsAll(m, m1, us - {u}) && us' == us - {u} + {v} && KeepsAll(m1, m2, us' - {v}) && v !in us - {u}
    ensures KeepsAll(m, m2, us - {u})
  {
    assert us' - {v} == us - {u};
    KeepsTwice(m, m1, m2, us - {u});
  }

  /** Fault: the kernel writes through the null pointer that `rekalloc` returned. Lost: `rekalloc` has overrun the new
      block. */
  datatype Added = Fault | Lost | Added(al: nat)

  /** The free block behind a full list is too small for it to grow. */
  predicate Stuck(bs: seq<Block>, i: nat, dt: nat, max: nat)
    requires i < |bs|
  {
    Absorbs(bs, i) && Room(bs, i) < Round(NewSize(dt, max))
  }

  /** The free block behind a full list is just what it needs. */
  predicate UsesUp(bs: seq<Block>, i: nat, dt: nat, max: nat)
    requires i < |bs|
  {
    Absorbs(bs, i) && Room(bs, i) == Round(NewSize(dt, max))
  }

  /** `al_add_item`: one item more, behind the others, wherever the list is afterwards; no other block of the
      heap changes. It faults exactly if the list is full and the free block behind it is too small; nothing was
      written by then. It is lost exactly if the list is full and moves to a shorter block, so that the copy changes
      what is behind that. A list that is not full stays where it is; one that is full is grown as `rekalloc` does
      it. */
  method AddItem(h: Heap, al: nat, item: Bytes, ghost i: nat, ghost u: (nat, nat), ghost max: nat,
                 ghost items: seq<Bytes>)
    returns (r: Added, ghost got: (nat, nat), ghost max': nat, ghost j: nat, ghost taken: Bytes)
    requires ListIn(h, u, |item|, max, items) && IsUsed(h.blocks, i, u) && al == u.0 + HEADER
    requires |items| < 0x8000 && |item| < 0x1_0000 && (|items| == max ==> Growable(h, i, |item|, max))
    modifies h, h.mem
    ensures r.Fault? <==> |items| == max && Stuck(old(h.blocks), i, |item|, max)
    ensures r.Fault? ==> h.mem[..] == old(h.mem[..]) && h.blocks == old(h.blocks) && h.pos == old(h.pos)
    ensures |items| == max && !Absorbs(old(h.blocks), i) ==>
              && Took(old(h.mem[..]), taken, old(h.blocks), h.start, old(h.pos), Round(NewSize(|item|, max)))
              && got == HandedOut(old(h.blocks), old(h.pos), Round(NewSize(|item|, max)))
    ensures r.Lost? <==> |items| == max && MoveOverruns(old(h.blocks), i, u, got, taken)
    ensures r.Added? ==>
              && r.al == got.0 + HEADER && ListIn(h, got, |item|, max', items + [item])
              && max' == (if |items| == max then 2 * max else max)
              && Used(h.blocks) == Used(old(h.blocks)) - {u} + {got}
              && KeepsAll(old(h.mem[..]), h.mem[..], Used(old(h.blocks)) - {u})
              && (if |items| < max then got == u && h.blocks == old(h.blocks) && h.pos == old(h.pos)
                  else Regrown(old(h.blocks), old(h.pos), i, Round(NewSize(|item|, max)), u, got, h.blocks))
    ensures r.Added? && Steady(old(h.blocks), i, u) && (|items| == max ==> !UsesUp(old(h.blocks), i, |item|, max)) ==>
              Steady(h.blocks, j, got)
  {
    ghost var m, us, bs, end := h.mem[..], Used(h.blocks), h.blocks, h.pos;
    var al' := al;
    got, max', j, taken := u, max, i, m;
    if Load16(h.mem[..], al + 4) == Load16(h.mem[..], al + 6) {
      var g, max0 := Failed, Load16(h.mem[..], al + 6);
      g, got, taken := Enlarge(h, al, NewSize(Load32(h.mem[..], al), max0), i, u);
      if !g.At? { return if g.Failed? then Added.Fault else Added.Lost, got, max, i, taken; }
      al', max' := g.ptr, 2 * max;
      Retitle(h, al', 2 * max0, m, u, got, |item|, max, items, us);
    } else {
      assert us == us - {u} + {u};
    }
    ghost var m1 := h.mem[..];
    assert KeepsAll(m, m1, us - {u});
    Push(h, al', item, got, max', items);
    KeepsRest(m, m1, h.mem[..], us, u, Used(h.blocks), got);
    if |items| == max && Steady(bs, i, u) && !UsesUp(bs, i, |item|, max) {
      j := RegrownSteady(bs, h.start, end, i, Round(NewSize(|item|, max)), u, got, h.blocks);
    }
    r := Added(al');
  }

  /** `create_array_list`, where the heap has room: an empty list in a new block. */
  method CreateArrayList(h: Heap, dt: nat) returns (al: nat, ghost got: (nat, nat))
    requires h.Valid() && dt < 0x1_0000
    requires HasRoom(h.blocks, h.pos, h.mem.Length, Round(dt + LIST))
    modifies h, h.mem
    ensures al == got.0 + HEADER && ListIn(h, got, dt, 1, [])
    ensures Allocated(old(h.blocks), old(h.pos), Round(dt + LIST), got, h.blocks, h.pos)
    ensures Used(h.blocks) == Used(old(h.blocks)) + {got} && got !in Used(old(h.blocks))
    ensures KeepsAll(old(h.mem[..]), h.mem[..], Used(old(h.blocks)))
  {
    ghost var m, us := h.mem[..], Used(h.blocks);
    al, got := h.Kalloc(dt + LIST);
    ghost var m1 := h.mem[..];
    assert Allocated(old(h.blocks), old(h.pos), Round(dt + LIST), got, h.blocks, h.pos);
    InitList(h, al, dt, got);
    assert us + {got} - {got} == us;
    KeepsTwice(m, m1, h.mem[..], us);
  }

  /** The new block is zeroed, and its header filled in. */
  method InitList(h: Heap, al: nat, dt: nat, ghost u: (nat, nat))
    requires h.Valid() && u in Used(h.blocks) && al == u.0 + HEADER && dt + LIST <= u.1 && dt < 0x1_0000
    modifies h.mem
    ensures ListIn(h, u, dt, 1, []) && KeepsAll(old(h.mem[..]), h.mem[..], Used(h.blocks) - {u})
  {
    ghost var m := h.mem[..];
    UsedWithin(h.blocks, h.start, h.pos, u);
    assert Slot(0, dt, 1) == Slot(0, dt, 0) + dt;
    InitBytes(h, al, dt);
    PayloadWritten(m, h.mem[..], h.blocks, h.start, h.pos, u);
  }

  method InitBytes(h: Heap, al: nat, dt: nat)
    requires al + dt + LIST <= h.mem.Length && dt < 0x1_0000
    modifies h.mem
    ensures IsList(h.mem[..], al, dt, 1, []) && SameOutside(old(h.mem[..]), h.mem[..], al, al + dt + LIST)
  {
    h.Clear(al, dt + LIST);
    assert Load16(h.mem[..], al + 4) == 0;
    Put16(h, al + 6, 1);
    Put32(h, al, dt);
  }

  /** `al_get`: null only behind the slot that follows the last item; for an item, where its bytes are. */
  method Get(h: Heap, al: nat, index: nat, ghost u: (nat, nat), ghost dt: nat, ghost max: nat, ghost items: seq<Bytes>)
    returns (r: nat)
    requires ListIn(h, u, dt, max, items) && al == u.0 + HEADER
    ensures r == 0 <==> index > |items|
    ensures index <= |items| ==> r == Slot(al, dt, index)
    ensures index < |items| ==> r + dt <= h.mem.Length && h.mem[r..r + dt] == items[index]
  {
    ListWithin(h.mem[..], h.blocks, h.start, h.pos, u, dt, max, |items|);
    if index > Load16(h.mem[..], al + 4) {
      return 0;
    }
    r := Address(al, Load32(h.mem[..], al), index);
    if index < |items| {
      assert Item(h.mem[..], al, dt, items, index);
      assert h.mem[..][r..r + dt] == h.mem[r..r + dt];
    }
  }

  /** The items without item `index`; without the last one, if `index` is the slot behind it. */
  function WithoutItem(items: seq<Bytes>, index: nat): (r: seq<Bytes>)
    requires index <= |items|
  {
    if index < |items| then items[..index] + items[index + 1..] else items[..if items == [] then 0 else |items| - 1]
  }

  /** Items up to `i` are as after the removal; those behind item `i` are still where they were. */
  predicate Shifted(m: Bytes, al: nat, dt: nat, items: seq<Bytes>, index: nat, i: nat)
    requires index <= |items|
  {
    && index <= i
    && (forall k :: 0 <= k < i && k < |items| - 1 ==> Item(m, al, dt, WithoutItem(items, index), k))
    && (forall k :: i < k < |items| ==> Item(m, al, dt, items, k))
  }

  lemma ShiftStep(m: Bytes, m': Bytes, al: nat, dt: nat, items: seq<Bytes>, index: nat, i: nat)
    requires index <= i < |items| - 1 && Shifted(m, al, dt, items, index, i)
    requires Slot(al, dt, i + 1) + dt <= |m| == |m'|
    requires var a := Slot(al, dt, i); SameOutside(m, m', a, a + dt) && m'[a..a + dt] == m[a + dt..a + dt + dt]
    ensures Shifted(m', al, dt, items, index, i + 1)
  {
    var a, r := Slot(al, dt, i), WithoutItem(items, index);
    assert Item(m, al, dt, items, i + 1) && r[i] == items[i + 1];
    assert Item(m', al, dt, r, i);
    forall k | 0 <= k < i ensures Item(m', al, dt, r, k) {
      assert Item(m, al, dt, r, k);
      SlotApart(al, dt, k, i);
      ItemFrame(m, m', a, a + dt, Slot(al, dt, k), dt, r[k]);
    }
    forall k | i + 1 < k < |items| ensures Item(m', al, dt, items, k) {
      assert Item(m, al, dt, items, k);
      SlotApart(al, dt, i, k);
      ItemFrame(m, m', a, a + dt, Slot(al, dt, k), dt, items[k]);
    }
  }

  lemma ShiftStart(m: Bytes, al: nat, dt: nat, max: nat, items: seq<Bytes>, index: nat)
    requires IsList(m, al, dt, max, items) && index <= |items|
    ensures Shifted(m, al, dt, items, index, index)
  {
    forall k | 0 <= k < index && k < |items| - 1 ensures Item(m, al, dt, WithoutItem(items, index), k) {
      assert Item(m, al, dt, items, k);
    }
  }

  /** The last slot is zeroed, and the count is one less. */
  lemma DeleteDone(m1: Bytes, m2: Bytes, m3: Bytes, dt: nat, items: seq<Bytes>, index: nat, i: nat, al: nat, a: nat)
    requires index <= |items| && index <= i && |items| - 1 <= i && a == Slot(al, dt, i)
    requires Shifted(m1, al, dt, items, index, i)
    requires SameOutside(m1, m2, a, a + dt) && SameOutside(m2, m3, al + 4, al + 6)
    ensures forall k :: 0 <= k < |items| - 1 ==> Item(m3, al, dt, WithoutItem(items, index), k)
  {
    var r := WithoutItem(items, index);
    forall k | 0 <= k < |items| - 1 ensures Item(m3, al, dt, r, k) {
      assert Item(m1, al, dt, r, k);
      SlotApart(al, dt, k, i);
      ItemFrame(m1, m2, a, a + dt, Slot(al, dt, k), dt, r[k]);
      ItemFrame(m2, m3, al + 4, al + 6, Slot(al, dt, k), dt, r[k]);
    }
  }

  /** The last slot that a deletion touches. */
  function LastSlot(items: seq<Bytes>, index: nat): nat {
    if index < |items| then |items| - 1 else |items|
  }

  /** Fault: the kernel clears an item at the null pointer that `al_get` returned. Overrun: the slot behind the last
      item is not all in the list's block, and clearing it has changed what is behind that. */
  datatype Deleted = Fault | Overrun | Done

  /** Clearing `n` bytes at `a` changes bytes from `end` on, or leaves memory. */
  predicate ClearSpoils(m: Bytes, a: nat, n: nat, end: nat) {
    end < a + n && !(a + n <= |m| && forall x :: end <= x < a + n ==> a <= x ==> m[x] == 0)
  }

  /** `al_delete_item`. An index equal to the count passes the check of `al_get`, and drops the last item; so does any
      larger one, if items have no bytes. In an empty list the count wraps around. */
  method DeleteItem(h: Heap, al: nat, index: nat, ghost u: (nat, nat), ghost dt: nat, ghost max: nat,
                    ghost items: seq<Bytes>)
    returns (r: Deleted)
    requires ListIn(h, u, dt, max, items) && al == u.0 + HEADER
    modifies h.mem
    ensures r.Fault? <==> index > |items| && dt > 0
    ensures r.Fault? ==> h.mem[..] == old(h.mem[..])
    ensures r.Overrun? <==> index == |items| && ClearSpoils(old(h.mem[..]), Slot(al, dt, |items|), dt, al + u.1)
    ensures r.Overrun? ==>
              Slot(al, dt, |items|) + dt > h.mem.Length ||
              exists x :: al + u.1 <= x < h.mem.Length && h.mem[x] != old(h.mem[x])
    ensures r.Done? ==>
              && h.Valid() && KeepsAll(old(h.mem[..]), h.mem[..], Used(h.blocks) - {u})
              && if items == [] then CountIs(h.mem[..], al, 0xffff)
                 else ListIn(h, u, dt, max, if index < |items| then items[..index] + items[index + 1..]
                             else items[..|items| - 1])
  {
    UsedWithin(h.blocks, h.start, h.pos, u);
    UsedHeader(h.mem[..], h.blocks, h.start, h.pos, u);
    var index_start := Get(h, al, index, u, dt, max, items);
    var dt0, count := Load32(h.mem[..], al), Load16(h.mem[..], al + 4);
    var end := al + BlockAt(h.mem[..], al - HEADER).size;
    if index_start == 0 && dt0 > 0 {
      r := Deleted.Fault;
    } else if index_start == 0 {
      NoBytes(al, |items|);
      DeleteAt(h, al, count, al + DATA, u, dt, max, items);
      r := Done;
    } else if index == count && ClearSpoils(h.mem[..], index_start, dt0, end) {
      if index_start + dt0 <= h.mem.Length { h.Clear(index_start, dt0); }
      r := Overrun;
    } else {
      DeleteAt(h, al, index, index_start, u, dt, max, items);
      r := Done;
    }
  }

  /** The loop and what follows it, where they change nothing behind the list's block. */
  method DeleteAt(h: Heap, al: nat, index: nat, start: nat, ghost u: (nat, nat), ghost dt: nat, ghost max: nat,
                  ghost items: seq<Bytes>)
    requires ListIn(h, u, dt, max, items) && al == u.0 + HEADER && index <= |items| && start == Slot(al, dt, index)
    requires index == |items| ==> !ClearSpoils(h.mem[..], start, dt, al + u.1)
    modifies h.mem
    ensures h.Valid() && KeepsAll(old(h.mem[..]), h.mem[..], Used(h.blocks) - {u})
    ensures if items == [] then CountIs(h.mem[..], al, 0xffff) else ListIn(h, u, dt, max, WithoutItem(items, index))
  {
    ghost var m := h.mem[..];
    SlotFits(m, h.blocks, h.start, h.pos, u, dt, max, items, index);
    DeleteBytes(h, al, index, start, dt, max, items);
    DeleteDoneIn(m, h.mem[..], h.blocks, h.start, h.pos, u, dt, max, items, index);
  }

  lemma SlotFits(m: Bytes, bs: seq<Block>, start: nat, end: nat, u: (nat, nat), dt: nat, max: nat, items: seq<Bytes>,
                 index: nat)
    requires HeapOk(m, bs, start, end) && u in Used(bs) && Holds(u, dt, max) && |items| <= max && index <= |items|
    requires index == |items| ==> !ClearSpoils(m, Slot(u.0 + HEADER, dt, index), dt, u.0 + HEADER + u.1)
    ensures Slot(u.0 + HEADER, dt, LastSlot(items, index)) + dt <= |m|
  {
    UsedWithin(bs, start, end, u);
    if index < |items| { ListWithin(m, bs, start, end, u, dt, max, |items| - 1); }
  }

  predicate CountIs(m: Bytes, al: nat, count: nat) { al + DATA <= |m| && Load16(m, al + 4) == count }

  /** Items of no bytes are all in one place. */
  lemma {:induction false} NoBytes(al: nat, k: nat)
    ensures Slot(al, 0, k) == al + DATA
  {
    if k > 0 { NoBytes(al, k - 1); }
  }

  /** Only the list's block has changed. */
  lemma DeleteDoneIn(m: Bytes, m': Bytes, bs: seq<Block>, start: nat, end: nat, u: (nat, nat), dt: nat, max: nat,
                     items: seq<Bytes>, index: nat)
    requires HeapOk(m, bs, start, end) && u in Used(bs) && Holds(u, dt, max) && |items| <= max && index <= |items|
    requires var (al, a) := (u.0 + HEADER, Slot(u.0 + HEADER, dt, LastSlot(items, index)));
             && SameOutside(m, m', al, a + dt) && a + dt <= |m| && (forall x :: a <= x < a + dt ==> m'[x] == 0)
             && (index == |items| ==> !ClearSpoils(m, a, dt, al + u.1))
    ensures HeapOk(m', bs, start, end) && KeepsAll(m, m', Used(bs) - {u})
  {
    var al, a := u.0 + HEADER, Slot(u.0 + HEADER, dt, LastSlot(items, index));
    ListWithin(m, bs, start, end, u, dt, max, LastSlot(items, index));
    assert SameOutside(m, m', al, al + u.1);
    PayloadWritten(m, m', bs, start, end, u);
  }

  method DeleteBytes(h: Heap, al: nat, index: nat, start: nat, ghost dt: nat, ghost max: nat, ghost items: seq<Bytes>)
    requires IsList(h.mem[..], al, dt, max, items) && index <= |items| && start == Slot(al, dt, index)
    requires Slot(al, dt, LastSlot(items, index)) + dt <= h.mem.Length
    modifies h.mem
    ensures items != [] ==> IsList(h.mem[..], al, dt, max, WithoutItem(items, index))
    ensures items == [] ==> CountIs(h.mem[..], al, 0xffff)
    ensures var a := Slot(al, dt, LastSlot(items, index));
            SameOutside(old(h.mem[..]), h.mem[..], al, a + dt) && forall x :: a <= x < a + dt ==> h.mem[x] == 0
  {
    ghost var m := h.mem[..];
    ShiftStart(m, al, dt, max, items, index);
    var dt0, count := Load32(h.mem[..], al), Load16(h.mem[..], al + 4);
    var index_start, i := ShiftDown(h, start, index, count, dt0, al, items);
    ghost var m1 := h.mem[..];
    ghost var m2 := DropLast(h, al, index_start, dt0, count);
    DeleteEnds(m, m1, m2, h.mem[..], dt, max, items, index, i, al, index_start);
  }

  /** The last slot is cleared, and the count is one less. */
  method DropLast(h: Heap, al: nat, a: nat, dt: nat, count: nat) returns (ghost m2: Bytes)
    requires al + DATA <= a && a + dt <= h.mem.Length
    modifies h.mem
    ensures SameOutside(old(h.mem[..]), m2, a, a + dt) && SameOutside(m2, h.mem[..], al + 4, al + 6)
    ensures Load16(h.mem[..], al + 4) == (count + 0xffff) % 0x1_0000 && forall x :: a <= x < a + dt ==> h.mem[x] == 0
  {
    h.Clear(a, dt);
    m2 := h.mem[..];
    Put16(h, al + 4, (count + 0xffff) % 0x1_0000);
  }

  lemma DeleteEnds(m: Bytes, m1: Bytes, m2: Bytes, m3: Bytes, dt: nat, max: nat, items: seq<Bytes>, index: nat, i: nat,
                   al: nat, a: nat)
    requires IsList(m, al, dt, max, items) && index <= |items| && i == LastSlot(items, index) && a == Slot(al, dt, i)
    requires Shifted(m1, al, dt, items, index, i)
    requires SameOutside(m, m1, al + DATA, a + dt) && SameOutside(m1, m2, a, a + dt) &&
             SameOutside(m2, m3, al + 4, al + 6)
    requires al + 6 <= |m3| && Load16(m3, al + 4) == (|items| + 0xffff) % 0x1_0000
    ensures items != [] ==> IsList(m3, al, dt, max, WithoutItem(items, index))
    ensures items == [] ==> CountIs(m3, al, 0xffff)
    ensures SameOutside(m, m3, al, a + dt)
  {
    DeleteDone(m1, m2, m3, dt, items, index, i, al, a);
    LoadFrame(m, m3, al);
    assert Load16(m3, al + 6) == Load16(m, al + 6);
  }

  /** Its loop: every item behind `index` moves down by one. */
  method ShiftDown(h: Heap, start: nat, index: nat, count: nat, dt: nat, ghost al: nat, ghost items: seq<Bytes>)
    returns (index_start: nat, i: nat)
    requires count == |items| && index <= count && start == Slot(al, dt, index)
    requires Shifted(h.mem[..], al, dt, items, index, index) &&
             (index < count ==> Slot(al, dt, count - 1) + dt <= h.mem.Length)
    modifies h.mem
    ensures i == (if index < count then count - 1 else count) && index_start == Slot(al, dt, i)
    ensures Shifted(h.mem[..], al, dt, items, index, i)
    ensures SameOutside(old(h.mem[..]), h.mem[..], al + DATA, index_start + dt)
  {
    index_start, i := start, index;
    while i < count - 1
      invariant index <= i && (i < count || i == index) && index_start == Slot(al, dt, i)
      invariant Shifted(h.mem[..], al, dt, items, index, i)
      invariant SameOutside(old(h.mem[..]), h.mem[..], al + DATA, index_start + dt)
    {
      ghost var m1 := h.mem[..];
      if i + 1 < count - 1 { SlotApart(al, dt, i + 1, count - 1); }
      h.Copy(index_start, index_start + dt, dt);
      ShiftStep(m1, h.mem[..], al, dt, items, index, i);
      index_start := index_start + dt;
      i := i + 1;
    }
  }
}
