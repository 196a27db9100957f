/** The kernel heap's memory: bytes, headers among them, and the walk from header to header. */
module HeapBytes {
  import opened Common

  type Byte = b: nat | b < 0x100

  /** Memory from address 0 on; address 0 is the null pointer. */
  type Bytes = seq<Byte>

  /** `sizeof(struct mem_header)`. */
  const HEADER := 16

  /** A block as its header describes it. */
  datatype Block = Block(addr: nat, size: nat, free: bool, prev: nat, next: nat) {
    function Payload(): nat { addr + HEADER }
    function End(): nat { addr + HEADER + size }
  }

  // ------------------------------------------------------------------------------------------
  // Words
  // ------------------------------------------------------------------------------------------

  /** The little-endian number in the bytes from `a` up to `b`. */
  function Load(m: Bytes, a: nat, b: nat): nat
    requires a <= b <= |m|
    decreases b - a
  {
    if a == b then 0 else m[a] + 0x100 * Load(m, a + 1, b)
  }

  /** A 32-bit load. */
  function Load32(m: Bytes, a: nat): (v: nat)
    requires a + 4 <= |m|
    ensures v < WORD
  {
    LoadIs(m, a);
    Load(m, a, a + 4)
  }

  lemma LoadIs(m: Bytes, a: nat)
    requires a + 4 <= |m|
    ensures var (b0: nat, b1: nat, b2: nat, b3: nat) := (m[a], m[a + 1], m[a + 2], m[a + 3]);
            Load(m, a, a + 4) == b0 + 0x100 * b1 + 0x1_0000 * b2 + 0x100_0000 * b3
  {
    assert Load(m, a + 1, a + 4) == m[a + 1] + 0x100 * Load(m, a + 2, a + 4);
    assert Load(m, a + 2, a + 4) == m[a + 2] + 0x100 * Load(m, a + 3, a + 4);
    assert Load(m, a + 3, a + 4) == m[a + 3];
  }

  lemma LoadZero(m: Bytes, a: nat)
    requires a + 4 <= |m| && m[a] == m[a + 1] == m[a + 2] == m[a + 3] == 0
    ensures Load32(m, a) == 0
  {
    LoadIs(m, a);
  }

  /** Zeros read as the header of an empty free block. */
  lemma ZeroHeader(m: Bytes, p: nat)
    requires p + HEADER <= |m| && forall a :: p <= a < p + HEADER ==> m[a] == 0
    ensures BlockAt(m, p) == Block(p, 0, true, 0, 0)
  {
    LoadZero(m, p);
    LoadZero(m, p + 8);
    LoadZero(m, p + 12);
  }

  /** The same bytes are the same number. */
  lemma LoadFrame(m: Bytes, m': Bytes, a: nat)
    requires a + 4 <= |m| && SameBytes(m, m', a, a + 4)
    ensures Load32(m', a) == Load32(m, a)
  {
    LoadIs(m, a);
    LoadIs(m', a);
  }

  /** A little-endian 32-bit store; a larger value is cut. */
  function Store32(m: Bytes, a: nat, v: nat): (m': Bytes)
    requires a + 4 <= |m|
    ensures |m'| == |m|
  {
    m[a := v % 0x100][a + 1 := v / 0x100 % 0x100][a + 2 := v / 0x1_0000 % 0x100][a + 3 := v / 0x100_0000 % 0x100]
  }

  lemma DivTwice(v: nat)
    ensures v / 0x1_0000 == v / 0x100 / 0x100
  {
  }

  lemma DivThrice(v: nat)
    ensures v / 0x100_0000 == v / 0x1_0000 / 0x100
  {
  }

  lemma ModWord(q: nat, r: nat)
    requires r < WORD
    ensures (WORD * q + r) % WORD == r
  {
  }

  /** The four low digits of a number, base 256. */
  lemma Digits(v: nat, q1: nat, q2: nat, q3: nat)
    requires q1 == v / 0x100 && q2 == q1 / 0x100 && q3 == q2 / 0x100
    ensures v % WORD == v % 0x100 + 0x100 * (q1 % 0x100) + 0x1_0000 * (q2 % 0x100) + 0x100_0000 * (q3 % 0x100)
  {
    var q4 := q3 / 0x100;
    var r := v % 0x100 + 0x100 * (q1 % 0x100) + 0x1_0000 * (q2 % 0x100) + 0x100_0000 * (q3 % 0x100);
    assert v == WORD * q4 + r && r < WORD;
    ModWord(q4, r);
  }

  lemma LoadStore(m: Bytes, a: nat, v: nat)
    requires a + 4 <= |m|
    ensures Load32(Store32(m, a, v), a) == v % WORD
    ensures forall i :: 0 <= i < |m| && !(a <= i < a + 4) ==> Store32(m, a, v)[i] == m[i]
  {
    LoadIs(Store32(m, a, v), a);
    DivTwice(v);
    DivThrice(v);
    Digits(v, v / 0x100, v / 0x1_0000, v / 0x100_0000);
  }

  /** A store elsewhere does not change a load. */
  lemma LoadOther(m: Bytes, a: nat, v: nat, b: nat)
    requires a + 4 <= |m| && b + 4 <= |m| && (a + 4 <= b || b + 4 <= a)
    ensures Load32(Store32(m, a, v), b) == Load32(m, b)
  {
    LoadFrame(m, Store32(m, a, v), b);
  }

  /** Two memories agree on the bytes from `a` up to `b`. */
  predicate SameBytes(m: Bytes, m': Bytes, a: nat, b: nat) {
    |m'| == |m| && forall i :: a <= i < b && i < |m| ==> m'[i] == m[i]
  }

  /** Two memories agree outside the bytes from `a` up to `b`. */
  predicate SameOutside(m: Bytes, m': Bytes, a: nat, b: nat) {
    |m'| == |m| && forall i :: 0 <= i < |m| && !(a <= i < b) ==> m'[i] == m[i]
  }

  // ------------------------------------------------------------------------------------------
  // Headers
  // ------------------------------------------------------------------------------------------

  /** The header in memory at the block's address says what the block says. */
  predicate HeaderIs(m: Bytes, b: Block) {
    && b.addr + HEADER <= |m|
    && Load32(m, b.addr) == b.size && (m[b.addr + 4] == 0 <==> b.free)
    && Load32(m, b.addr + 8) == b.prev && Load32(m, b.addr + 12) == b.next
  }

  /** The four field writes. */
  function SetSize(m: Bytes, p: nat, v: nat): (m': Bytes)
    requires p + HEADER <= |m|
    ensures |m'| == |m|
  { Store32(m, p, v) }

  function SetFree(m: Bytes, p: nat, free: bool): (m': Bytes)
    requires p + HEADER <= |m|
    ensures |m'| == |m|
  { m[p + 4 := if free then 0 else 1] }

  function SetPrev(m: Bytes, p: nat, v: nat): (m': Bytes)
    requires p + HEADER <= |m|
    ensures |m'| == |m|
  { Store32(m, p + 8, v) }

  function SetNext(m: Bytes, p: nat, v: nat): (m': Bytes)
    requires p + HEADER <= |m|
    ensures |m'| == |m|
  { Store32(m, p + 12, v) }

  /** A field write changes that field of that header, and no byte outside the header. */
  lemma SizeField(m: Bytes, p: nat, v: nat)
    requires p + HEADER <= |m| && v < WORD
    ensures BlockAt(SetSize(m, p, v), p) == BlockAt(m, p).(size := v)
    ensures SameOutside(m, SetSize(m, p, v), p, p + HEADER)
  {
    LoadStore(m, p, v);
    LoadOther(m, p, v, p + 8);
    LoadOther(m, p, v, p + 12);
  }

  lemma FreeField(m: Bytes, p: nat, free: bool)
    requires p + HEADER <= |m|
    ensures BlockAt(SetFree(m, p, free), p) == BlockAt(m, p).(free := free)
    ensures SameOutside(m, SetFree(m, p, free), p, p + HEADER)
  {
    LoadFrame(m, SetFree(m, p, free), p);
    LoadFrame(m, SetFree(m, p, free), p + 8);
    LoadFrame(m, SetFree(m, p, free), p + 12);
  }

  lemma PrevField(m: Bytes, p: nat, v: nat)
    requires p + HEADER <= |m| && v < WORD
    ensures BlockAt(SetPrev(m, p, v), p) == BlockAt(m, p).(prev := v)
    ensures SameOutside(m, SetPrev(m, p, v), p, p + HEADER)
  {
    LoadStore(m, p + 8, v);
    LoadOther(m, p + 8, v, p);
    LoadOther(m, p + 8, v, p + 12);
  }

  lemma NextField(m: Bytes, p: nat, v: nat)
    requires p + HEADER <= |m| && v < WORD
    ensures BlockAt(SetNext(m, p, v), p) == BlockAt(m, p).(next := v)
    ensures SameOutside(m, SetNext(m, p, v), p, p + HEADER)
  {
    LoadStore(m, p + 12, v);
    LoadOther(m, p + 12, v, p);
    LoadOther(m, p + 12, v, p + 8);
  }

  lemma HeaderFrame(m: Bytes, m': Bytes, b: Block)
    requires HeaderIs(m, b) && SameBytes(m, m', b.addr, b.addr + HEADER)
    ensures HeaderIs(m', b)
  {
    LoadFrame(m, m', b.addr);
    LoadFrame(m, m', b.addr + 8);
    LoadFrame(m, m', b.addr + 12);
  }

  lemma BlockFrame(m: Bytes, m': Bytes, p: nat)
    requires p + HEADER <= |m| && SameBytes(m, m', p, p + HEADER)
    ensures BlockAt(m', p) == BlockAt(m, p)
  {
    HeaderFrame(m, m', BlockAt(m, p));
  }

  /** A change inside the header at `p` does not change another header. */
  lemma OtherHeaders(m: Bytes, m': Bytes, p: nat)
    requires SameOutside(m, m', p, p + HEADER)
    ensures forall q: nat {:trigger BlockAt(m', q)} ::
              q + HEADER <= |m| && (q + HEADER <= p || p + HEADER <= q) ==> BlockAt(m', q) == BlockAt(m, q)
  {
    forall q: nat {:trigger BlockAt(m', q)} | q + HEADER <= |m| && (q + HEADER <= p || p + HEADER <= q)
      ensures BlockAt(m', q) == BlockAt(m, q)
    {
      BlockFrame(m, m', q);
    }
  }

  /** What the header at `p` says. */
  function BlockAt(m: Bytes, p: nat): (b: Block)
    requires p + HEADER <= |m|
    ensures HeaderIs(m, b) && b.addr == p
  {
    Block(p, Load32(m, p), m[p + 4] == 0, Load32(m, p + 8), Load32(m, p + 12))
  }

  // ------------------------------------------------------------------------------------------
  // The walk
  // ------------------------------------------------------------------------------------------

  /** The size walk from `p` lands exactly on `end`. */
  predicate Tiled(m: Bytes, p: nat, end: nat)
    decreases end - p
  {
    p == end || (p + HEADER <= end && end <= |m| && Tiled(m, p + HEADER + Load32(m, p), end))
  }

  /** The blocks that the walk meets. */
  function Walk(m: Bytes, p: nat, end: nat): seq<Block>
    requires Tiled(m, p, end)
    decreases end - p
  {
    if p == end then [] else [BlockAt(m, p)] + Walk(m, p + HEADER + Load32(m, p), end)
  }

  /** Where block `i` starts, or the end behind the last one. */
  function Edge(bs: seq<Block>, end: nat, i: nat): nat
    requires i <= |bs|
  {
    if i == |bs| then end else bs[i].addr
  }

  predicate Follows(bs: seq<Block>, end: nat, i: nat)
    requires i < |bs|
  {
    bs[i].End() == Edge(bs, end, i + 1)
  }

  /** The blocks lie end to end from `p` to `end`. */
  predicate Contiguous(bs: seq<Block>, p: nat, end: nat) {
    Edge(bs, end, 0) == p && forall i :: 0 <= i < |bs| ==> Follows(bs, end, i)
  }

  lemma Tail(bs: seq<Block>, p: nat, end: nat)
    requires Contiguous(bs, p, end) && bs != []
    ensures bs[0].addr == p && Contiguous(bs[1..], bs[0].End(), end)
  {
    assert Follows(bs, end, 0);
    forall i | 0 <= i < |bs| - 1 ensures Follows(bs[1..], end, i) {
      assert Follows(bs, end, i + 1);
    }
  }

  predicate Headers(m: Bytes, bs: seq<Block>) {
    forall i :: 0 <= i < |bs| ==> HeaderIs(m, bs[i])
  }

  lemma HeaderAt(m: Bytes, bs: seq<Block>, i: nat)
    requires Headers(m, bs) && i < |bs|
    ensures bs[i].Payload() <= |m| && BlockAt(m, bs[i].addr) == bs[i]
  {
    assert HeaderIs(m, bs[i]);
  }

  /** Blocks that lie end to end, as their headers say, are what the walk meets. */
  lemma {:induction false} WalkMeets(m: Bytes, bs: seq<Block>, p: nat, end: nat)
    requires end <= |m| && Contiguous(bs, p, end) && Headers(m, bs)
    ensures Tiled(m, p, end) && Walk(m, p, end) == bs
    decreases |bs|
  {
    if bs != [] {
      var rest := bs[1..];
      Tail(bs, p, end);
      Within(rest, bs[0].End(), end);
      assert bs == [bs[0]] + rest && forall i :: 0 <= i < |rest| ==> rest[i] == bs[i + 1];
      WalkMeets(m, rest, bs[0].End(), end);
      assert HeaderIs(m, bs[0]);
    }
  }

  /** And whatever a walk meets lies end to end, as the headers say. */
  lemma {:induction false} WalkTiles(m: Bytes, p: nat, end: nat)
    requires end <= |m| && Tiled(m, p, end)
    ensures Contiguous(Walk(m, p, end), p, end) && Headers(m, Walk(m, p, end))
    decreases end - p
  {
    if p != end {
      var b, rest := BlockAt(m, p), Walk(m, p + HEADER + Load32(m, p), end);
      WalkTiles(m, b.End(), end);
      var bs := [b] + rest;
      assert Walk(m, p, end) == bs && bs[1..] == rest;
      forall i | 0 <= i < |bs| ensures Follows(bs, end, i) && HeaderIs(m, bs[i]) {
        if i > 0 { assert bs[i] == rest[i - 1] && Follows(rest, end, i - 1); }
      }
    }
  }

  // ------------------------------------------------------------------------------------------
  // Replacing a stretch of blocks
  // ------------------------------------------------------------------------------------------

  lemma {:induction false} Within(bs: seq<Block>, p: nat, end: nat)
    requires Contiguous(bs, p, end)
    ensures p <= end && forall i :: 0 <= i < |bs| ==> p <= bs[i].addr && bs[i].End() <= end
    decreases |bs|
  {
    if bs != [] {
      Tail(bs, p, end);
      Within(bs[1..], bs[0].End(), end);
      assert forall i :: 0 < i < |bs| ==> bs[i] == bs[1..][i - 1];
    }
  }

  lemma Join(a: seq<Block>, b: seq<Block>, p: nat, mid: nat, end: nat)
    requires Contiguous(a, p, mid) && Contiguous(b, mid, end)
    ensures Contiguous(a + b, p, end)
  {
    var r := a + b;
    forall i | 0 <= i < |r| ensures Follows(r, end, i) {
      if i < |a| {
        assert Follows(a, mid, i);
      } else {
        assert Follows(b, end, i - |a|);
      }
    }
  }

  lemma Cut(bs: seq<Block>, p: nat, end: nat, i: nat)
    requires Contiguous(bs, p, end) && i <= |bs|
    ensures Contiguous(bs[..i], p, Edge(bs, end, i)) && Contiguous(bs[i..], Edge(bs, end, i), end)
  {
    forall k | 0 <= k < i ensures Follows(bs[..i], Edge(bs, end, i), k) {
      assert Follows(bs, end, k);
    }
    forall k | 0 <= k < |bs| - i ensures Follows(bs[i..], end, k) {
      assert Follows(bs, end, k + i);
    }
  }

  /** Neighbouring blocks touch. */
  lemma Touch(bs: seq<Block>, p: nat, end: nat, i: nat)
    requires Contiguous(bs, p, end) && i < |bs|
    ensures bs[i].End() == Edge(bs, end, i + 1)
    ensures p <= bs[i].addr && bs[i].End() <= end
    ensures forall k :: 0 <= k < i ==> bs[k].End() <= bs[i].addr
    ensures forall k :: i < k < |bs| ==> bs[i].End() <= bs[k].addr
  {
    assert Follows(bs, end, i);
    Cut(bs, p, end, i);
    Cut(bs, p, end, i + 1);
    Within(bs, p, end);
    Within(bs[..i], p, bs[i].addr);
    Within(bs[i + 1..], bs[i].End(), end);
    assert forall k :: i < k < |bs| ==> bs[k] == bs[i + 1..][k - i - 1];
    assert forall k :: 0 <= k < i ==> bs[k] == bs[..i][k];
  }

  function Spliced(bs: seq<Block>, i: nat, j: nat, ns: seq<Block>): seq<Block>
    requires i <= j <= |bs|
  {
    bs[..i] + ns + bs[j..]
  }

  /** Blocks `i` to `j` may be replaced by others that fill the same stretch. */
  lemma SpliceFills(bs: seq<Block>, p: nat, end: nat, i: nat, j: nat, ns: seq<Block>)
    requires Contiguous(bs, p, end) && i <= j <= |bs| && Contiguous(ns, Edge(bs, end, i), Edge(bs, end, j))
    ensures Contiguous(Spliced(bs, i, j, ns), p, end)
  {
    Cut(bs, p, end, i);
    Cut(bs, p, end, j);
    Join(bs[..i], ns, p, Edge(bs, end, i), Edge(bs, end, j));
    Join(bs[..i] + ns, bs[j..], p, Edge(bs, end, j), end);
  }

  /** The same in memory, where only bytes of that stretch change. */
  lemma Splice(m: Bytes, m': Bytes, bs: seq<Block>, p: nat, end: nat, i: nat, j: nat, ns: seq<Block>)
    requires Contiguous(bs, p, end) && Headers(m, bs) && i <= j <= |bs|
    requires Contiguous(ns, Edge(bs, end, i), Edge(bs, end, j)) && Headers(m', ns)
    requires SameOutside(m, m', Edge(bs, end, i), Edge(bs, end, j))
    ensures Contiguous(Spliced(bs, i, j, ns), p, end) && Headers(m', Spliced(bs, i, j, ns))
  {
    var lo, hi := Edge(bs, end, i), Edge(bs, end, j);
    Cut(bs, p, end, i);
    Cut(bs, p, end, j);
    SpliceFills(bs, p, end, i, j, ns);
    Within(bs[..i], p, lo);
    Within(bs[j..], hi, end);
    var r := Spliced(bs, i, j, ns);
    forall k | 0 <= k < |r| ensures HeaderIs(m', r[k]) {
      if k < i {
        assert r[k] == bs[..i][k] && HeaderIs(m, bs[k]);
        HeaderFrame(m, m', r[k]);
      } else if k < i + |ns| {
        assert r[k] == ns[k - i];
      } else {
        assert r[k] == bs[j..][k - i - |ns|] == bs[k - i - |ns| + j];
        HeaderFrame(m, m', r[k]);
      }
    }
  }
}
