/** Runs of allocations and releases, on the list of blocks. */
module HeapRuns {
  import opened HeapBytes
  import opened HeapBlocks
  import opened HeapUse
  import opened HeapGrowth

  datatype Call = Alloc(request: nat) | Free(i: nat) | Regrow(i: nat, request: nat)

  /** The blocks from the start of the heap to its end. */
  datatype Layout = Layout(blocks: seq<Block>, end: nat)

  predicate Sound(l: Layout, start: nat) {
    start <= l.end && Contiguous(l.blocks, start, l.end) && Regular(l.blocks, l.end)
  }

  /** Only used blocks are released and resized, and only while the links that the call follows are not stale; a block
      does not move to a shorter one. */
  predicate Allowed(l: Layout, c: Call) {
    match c
    case Alloc(request) => true
    case Free(i) => i < |l.blocks| && !l.blocks[i].free && PrevListed(l.blocks, i) && NextListed(l.blocks, i)
    case Regrow(i, request) =>
      && i < |l.blocks| && !l.blocks[i].free && NextListed(l.blocks, i)
      && (!Absorbs(l.blocks, i) ==>
            PrevListed(l.blocks, i) && l.blocks[i].size <= HandedOut(l.blocks, l.end, Round(request)).1)
  }

  /** The blocks after the call; a `rekalloc` that fails changes nothing. */
  function After(l: Layout, c: Call): Layout
    requires Allowed(l, c)
  {
    match c
    case Alloc(request) =>
      var size := Round(request);
      FirstFitFits(l.blocks, size);
      Layout(AfterKalloc(l.blocks, l.end, size), EndAfter(l.blocks, l.end, size))
    case Free(i) => Layout(AfterKfree(l.blocks, i), l.end)
    case Regrow(i, request) =>
      var size := Round(request);
      if !Absorbs(l.blocks, i) then
        Layout(AfterMove(l.blocks, l.end, i, size), EndAfter(l.blocks, l.end, size))
      else if size <= Room(l.blocks, i) then
        Layout(Spliced(l.blocks, i, i + 2, Resized(l.blocks, i, size)), l.end)
      else l
  }

  /** What is handed out after the call. */
  function UsedAfter(l: Layout, c: Call): set<(nat, nat)>
    requires Allowed(l, c)
  {
    var us := Used(l.blocks);
    match c
    case Alloc(request) => us + {HandedOut(l.blocks, l.end, Round(request))}
    case Free(i) => us - {(l.blocks[i].addr, l.blocks[i].size)}
    case Regrow(i, request) =>
      var u, size := (l.blocks[i].addr, l.blocks[i].size), Round(request);
      if !Absorbs(l.blocks, i) then us - {u} + {HandedOut(l.blocks, l.end, size)}
      else if size <= Room(l.blocks, i) then us - {u} + {(u.0, size)}
      else us
  }

  /** Each call keeps the tiling, and hands out, takes back or exchanges exactly one block. */
  lemma AfterSound(l: Layout, start: nat, c: Call)
    requires Sound(l, start) && Allowed(l, c)
    ensures Sound(After(l, c), start) && Used(After(l, c).blocks) == UsedAfter(l, c) && l.end <= After(l, c).end
  {
    match c
    case Alloc(request) => AllocSound(l, start, Round(request));
    case Free(i) => FreeSound(l, start, i);
    case Regrow(i, request) =>
      if !Absorbs(l.blocks, i) {
        MoveSound(l, start, i, Round(request));
      } else if Round(request) <= Room(l.blocks, i) {
        ResizeSound(l, start, i, Round(request));
      }
  }

  lemma AllocSound(l: Layout, start: nat, size: nat)
    requires Sound(l, start) && Units(size)
    ensures FirstFit(l.blocks, size) < |l.blocks| ==> Fits(l.blocks[FirstFit(l.blocks, size)], size)
    ensures var r := AfterKalloc(l.blocks, l.end, size);
            && Contiguous(r, start, EndAfter(l.blocks, l.end, size)) && Regular(r, EndAfter(l.blocks, l.end, size))
            && Used(r) == Used(l.blocks) + {HandedOut(l.blocks, l.end, size)}
            && HandedOut(l.blocks, l.end, size) !in Used(l.blocks)
  {
    var bs := l.blocks;
    FirstFitFits(bs, size);
    KallocHandsOut(bs, start, l.end, size);
    KallocTiles(bs, start, l.end, size);
    if FirstFit(bs, size) < |bs| {
      var i := FirstFit(bs, size);
      ReusedFills(bs, start, l.end, i, size);
      RegularSplice(bs, l.end, i, i + 1, Reused(bs, i, size));
    } else {
      AppendedFills(bs, start, l.end, size, EndAfter(bs, l.end, size));
    }
  }

  lemma FreeSound(l: Layout, start: nat, i: nat)
    requires Sound(l, start) && i < |l.blocks|
    ensures var r := AfterKfree(l.blocks, i);
            && Contiguous(r, start, l.end) && Regular(r, l.end)
            && Used(r) == Used(l.blocks) - {(l.blocks[i].addr, l.blocks[i].size)}
  {
    var bs := l.blocks;
    KfreeTakesBack(bs, start, l.end, i);
    GrownFills(bs, start, l.end, i);
    var n := if Absorbs(bs, i) then 2 else 1;
    SpliceFills(bs, start, l.end, i, i + n, [Grown(bs, i)]);
    RegularSplice(bs, l.end, i, i + n, [Grown(bs, i)]);
    if JoinsPrev(bs, i) { MergedFills(MergedNext(bs, i), start, l.end, i); }
  }

  lemma MoveSound(l: Layout, start: nat, i: nat, size: nat)
    requires Sound(l, start) && Units(size) && i < |l.blocks| && !l.blocks[i].free
    ensures var (r, e) := (AfterMove(l.blocks, l.end, i, size), EndAfter(l.blocks, l.end, size));
            && Contiguous(r, start, e) && Regular(r, e)
            && Used(r) == Used(l.blocks) - {(l.blocks[i].addr, l.blocks[i].size)} + {HandedOut(l.blocks, l.end, size)}
  {
    var bs, u, v := l.blocks, (l.blocks[i].addr, l.blocks[i].size), HandedOut(l.blocks, l.end, size);
    AllocSound(l, start, size);
    StillThere(bs, l.end, size, i);
    FreeSound(Layout(AfterKalloc(bs, l.end, size), EndAfter(bs, l.end, size)), start, MovedIndex(bs, size, i));
    UsedAt(bs, i);
    Exchanged(Used(bs), u, v);
  }

  lemma Exchanged<T>(s: set<T>, u: T, v: T)
    requires u in s && v !in s
    ensures s + {v} - {u} == s - {u} + {v}
  {
  }

  lemma ResizeSound(l: Layout, start: nat, i: nat, size: nat)
    requires Sound(l, start) && Units(size) && i < |l.blocks| && !l.blocks[i].free && Absorbs(l.blocks, i)
    requires size <= Room(l.blocks, i)
    ensures var r := Spliced(l.blocks, i, i + 2, Resized(l.blocks, i, size));
            && Contiguous(r, start, l.end) && Regular(r, l.end)
            && Used(r) == Used(l.blocks) - {(l.blocks[i].addr, l.blocks[i].size)} + {(l.blocks[i].addr, size)}
  {
    ResizedUse(l.blocks, start, l.end, i, size);
    ResizedFills(l.blocks, start, l.end, i, size);
    SpliceFills(l.blocks, start, l.end, i, i + 2, Resized(l.blocks, i, size));
    RegularSplice(l.blocks, l.end, i, i + 2, Resized(l.blocks, i, size));
  }

  predicate AllAllowed(l: Layout, cs: seq<Call>)
    decreases |cs|
  {
    cs == [] || (Allowed(l, cs[0]) && AllAllowed(After(l, cs[0]), cs[1..]))
  }

  function Run(l: Layout, cs: seq<Call>): Layout
    requires AllAllowed(l, cs)
    decreases |cs|
  {
    if cs == [] then l else Run(After(l, cs[0]), cs[1..])
  }

  /** The heap over any run: headers and payloads together are all bytes up to its end, and no two blocks that
      are handed out overlap. */
  lemma {:induction false} RunSound(l: Layout, start: nat, cs: seq<Call>)
    requires Sound(l, start) && AllAllowed(l, cs)
    ensures var r := Run(l, cs);
            && Sound(r, start) && TotalBytes(r.blocks) == r.end - start
            && forall u, v :: u in Used(r.blocks) && v in Used(r.blocks) && u != v ==> Apart(u, v)
    decreases |cs|
  {
    if cs == [] {
      TilingTotals(l.blocks, start, l.end);
      forall u, v | u in Used(l.blocks) && v in Used(l.blocks) && u != v ensures Apart(u, v) {
        UsedApart(l.blocks, start, l.end, u, v);
      }
    } else {
      AfterSound(l, start, cs[0]);
      RunSound(After(l, cs[0]), start, cs[1..]);
    }
  }

  predicate Apart(u: (nat, nat), v: (nat, nat)) {
    u.0 + HEADER + u.1 <= v.0 || v.0 + HEADER + v.1 <= u.0
  }
}
