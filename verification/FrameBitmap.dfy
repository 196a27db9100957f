/** The physical frame bitmap of `kernel/memory/pmm.c`. */
module FrameBitmap {
  import opened Common

  const FIRST_PAGE := 0x10_0000
  const LAST_PAGE := 0x100_0000
  const RESERVED := 48

  /** The index `get_first_frame` returns when every bit is set. */
  const NO_FRAME := 0xffff_ffff

  /** The highest index that `alloc_phys_page` hands out; past it the kernel panics. */
  const LAST_FRAME := (LAST_PAGE - FIRST_PAGE) / PAGE

  // ------------------------------------------------------------------------------------------
  // Bits and addresses
  // ------------------------------------------------------------------------------------------

  /** A 32-bit word of the bitmap, read through its binary digits. */
  type Word32 = w: nat | w < WORD

  /** Digit `j` of `w`: the test `w & (1 << j)`. */
  predicate Bit(w: nat, j: nat) {
    if j == 0 then w % 2 == 1 else Bit(w / 2, j - 1)
  }

  /** `w | (1 << j)`. */
  function SetBit(w: nat, j: nat): nat {
    if j == 0 then w / 2 * 2 + 1 else 2 * SetBit(w / 2, j - 1) + w % 2
  }

  /** `w & ~(1 << j)`. */
  function ClearBit(w: nat, j: nat): nat {
    if j == 0 then w / 2 * 2 else 2 * ClearBit(w / 2, j - 1) + w % 2
  }

  lemma {:induction false} SetBitReads(w: nat, j: nat, k: nat)
    ensures Bit(SetBit(w, j), k) <==> k == j || Bit(w, k)
  {
    if j > 0 {
      assert SetBit(w, j) / 2 == SetBit(w / 2, j - 1);
      if k > 0 { SetBitReads(w / 2, j - 1, k - 1); }
    } else {
      assert SetBit(w, j) / 2 == w / 2;
    }
  }

  lemma {:induction false} ClearBitReads(w: nat, j: nat, k: nat)
    ensures Bit(ClearBit(w, j), k) <==> k != j && Bit(w, k)
  {
    if j > 0 {
      assert ClearBit(w, j) / 2 == ClearBit(w / 2, j - 1);
      if k > 0 { ClearBitReads(w / 2, j - 1, k - 1); }
    } else {
      assert ClearBit(w, j) / 2 == w / 2;
    }
  }

  /** Setting or clearing a digit stays within the word. */
  lemma {:induction false} BitsInRange(w: nat, j: nat, n: nat)
    requires w < Pow2(n) && j < n
    ensures SetBit(w, j) < Pow2(n) && ClearBit(w, j) < Pow2(n)
  {
    if j > 0 { BitsInRange(w / 2, j - 1, n - 1); }
  }

  /** All digits are set in the largest word, and only in it. */
  lemma {:induction false} FullWord(w: nat, n: nat, j: nat)
    requires w == Pow2(n) - 1 && j < n
    ensures Bit(w, j)
  {
    var p := Pow2(n - 1);
    assert w == 2 * (p - 1) + 1;
    if j > 0 {
      assert w / 2 == p - 1;
      FullWord(w / 2, n - 1, j - 1);
    }
  }

  lemma {:induction false} OtherWord(w: nat, n: nat) returns (j: nat)
    requires w < Pow2(n) - 1
    ensures j < n && !Bit(w, j)
  {
    if w % 2 == 0 {
      j := 0;
    } else {
      j := OtherWord(w / 2, n - 1);
      j := j + 1;
    }
  }

  lemma {:induction false} NoBits(j: nat)
    ensures !Bit(0, j)
  {
    if j > 0 { NoBits(j - 1); }
  }

  lemma WordSize()
    ensures Pow2(32) == WORD
  {
    assert Pow2(8) == 0x100;
    assert Pow2(16) == 0x100 * Pow2(8);
    assert Pow2(24) == 0x100 * Pow2(16);
    assert Pow2(32) == 0x100 * Pow2(24);
  }

  /** `frame_to_physical` in 32-bit arithmetic. */
  function FrameToPhysical(frame: nat): nat {
    (FIRST_PAGE + frame * PAGE) % WORD
  }

  /** `physical_to_frame` in 32-bit arithmetic: an address below the first page wraps around. */
  function PhysicalToFrame(physical: nat): nat {
    (physical - FIRST_PAGE) % WORD / PAGE
  }

  /** The two conversions are inverse exactly on 2^20 frame indices and on page addresses. */
  lemma ConversionsInverse(frame: nat, physical: nat)
    requires frame < WORD && physical < WORD
    ensures PhysicalToFrame(FrameToPhysical(frame)) == frame <==> frame < WORD / PAGE
    ensures FrameToPhysical(PhysicalToFrame(physical)) == physical <==> physical % PAGE == 0
  {
    var a := frame * PAGE;
    WrapBack(a);
    assert a % WORD / PAGE == frame % (WORD / PAGE);
    var d := (physical - FIRST_PAGE) % WORD;
    assert d % PAGE == physical % PAGE;
    WrapBack(d / PAGE * PAGE);
  }

  lemma WrapBack(a: nat)
    ensures ((FIRST_PAGE + a) % WORD - FIRST_PAGE) % WORD == a % WORD
  {
  }

  // ------------------------------------------------------------------------------------------
  // The bitmap
  // ------------------------------------------------------------------------------------------

  /** The frames whose bit is set. */
  ghost function Marked(words: seq<Word32>): set<nat> {
    set i: nat | i < 32 * |words| && Bit(words[i / 32], i % 32)
  }

  /** Page is a page address; Panic is the kernel's panic; a null result is NoPage. */
  datatype PageResult = NoPage | Panic | Page(address: nat)

  class Bitmap {
    const frames: array<Word32>
    var lastFrame: nat

    ghost function Used(): set<nat>
      reads frames
    {
      Marked(frames[..])
    }

    /** `kinit`: the array has as many words as `num_frames`, and its first `num_frames` bytes are
        zeroed before the reserved frames are marked. The rest keeps what memory held. */
    constructor (numFrames: nat)
      requires numFrames % 4 == 0 && numFrames >= 16
      ensures fresh(frames) && frames.Length == numFrames
      ensures forall i: nat :: i < 8 * numFrames ==> (i in Used() <==> i < RESERVED)
    {
      frames := new Word32[numFrames];
      lastFrame := 0;
      new;
      var w := 0;
      while w < numFrames / 4
        invariant w <= numFrames / 4
        invariant forall i :: 0 <= i < w ==> frames[i] == 0
      {
        frames[w] := 0;
        w := w + 1;
      }
      forall j: nat | j < 32 ensures !Bit(0, j) { NoBits(j); }
      var i := 0;
      while i < RESERVED
        invariant i <= RESERVED
        invariant forall k: nat :: k < 8 * numFrames ==> (k in Used() <==> k < i)
      {
        SetFrame(i);
        i := i + 1;
      }
    }

    /** The least index whose bit is clear. */
    method GetFirstFrame() returns (frame: nat)
      requires 32 * frames.Length <= NO_FRAME
      modifies this`lastFrame
      ensures frame == NO_FRAME || frame < 32 * frames.Length
      ensures frame < 32 * frames.Length ==> frame !in Used() && lastFrame == frame
      ensures forall k: nat :: k < frame && k < 32 * frames.Length ==> k in Used()
    {
      WordSize();
      var i := 0;
      while i < frames.Length
        invariant 0 <= i <= frames.Length
        invariant forall w: nat :: w < i ==> frames[w] == 0xffff_ffff
      {
        if frames[i] != 0xffff_ffff {
          var j := 0;
          while j < 32
            invariant 0 <= j <= 32
            invariant forall k: nat :: k < j ==> Bit(frames[i], k)
          {
            if !Bit(frames[i], j) {
              BelowMarked(i, j);
              lastFrame := i * 32 + j;
              return lastFrame;
            }
            j := j + 1;
          }
          var clear := OtherWord(frames[i], 32);
          assert false;
        }
        i := i + 1;
      }
      BelowMarked(frames.Length, 0);
      return NO_FRAME;
    }

    /** Full words and the marked digits below `j` of word `i` account for all smaller indices. */
    lemma BelowMarked(i: nat, j: nat)
      requires i <= frames.Length && j < 32 && (j > 0 ==> i < frames.Length)
      requires forall w: nat :: w < i ==> frames[w] == 0xffff_ffff
      requires i < frames.Length ==> forall k: nat :: k < j ==> Bit(frames[i], k)
      ensures forall k: nat :: k < 32 * i + j ==> k in Used()
    {
      WordSize();
      forall k: nat | k < 32 * i + j ensures k in Used() {
        if k < 32 * i { FullWord(frames[k / 32], 32, k % 32); }
        assert Bit(frames[k / 32], k % 32);
      }
    }

    method SetFrame(frame: nat)
      requires frame < 32 * frames.Length
      modifies frames
      ensures Used() == old(Used()) + {frame}
    {
      var index := frame / 32;
      var offset := frame % 32;
      WordSize();
      BitsInRange(frames[index], offset, 32);
      frames[index] := SetBit(frames[index], offset);
      forall k: nat | k < 32 ensures Bit(frames[index], k) <==> k == offset || Bit(old(frames[index]), k) {
        SetBitReads(old(frames[index]), offset, k);
      }
      assert forall k: nat :: k < 32 * frames.Length && k / 32 == index && k % 32 == offset ==> k == frame;
    }

    /** A frame past `num_frames` is never cleared. */
    method ClearFrame(frame: nat)
      requires frames.Length > 0
      modifies frames
      ensures Used() == if frame > frames.Length then old(Used()) else old(Used()) - {frame}
    {
      if frame > frames.Length {
        return;
      }
      var index := frame / 32;
      var offset := frame % 32;
      WordSize();
      BitsInRange(frames[index], offset, 32);
      frames[index] := ClearBit(frames[index], offset);
      forall k: nat | k < 32 ensures Bit(frames[index], k) <==> k != offset && Bit(old(frames[index]), k) {
        ClearBitReads(old(frames[index]), offset, k);
      }
      assert forall k: nat :: k < 32 * frames.Length && k / 32 == index && k % 32 == offset ==> k == frame;
    }

    /** `alloc_phys_page` marks the least free frame before it looks at its address. */
    method AllocPhysPage() returns (r: PageResult)
      requires 32 * frames.Length <= NO_FRAME
      modifies this`lastFrame, frames
      ensures match LeastFree(old(Used()), 0, 32 * frames.Length)
              case None => r == NoPage && Used() == old(Used())
              case Some(f) =>
                && Used() == old(Used()) + {f}
                && r == if FrameToPhysical(f) > LAST_PAGE then Panic else Page(FrameToPhysical(f))
      ensures r.NoPage? ==> forall k: nat :: k < 32 * frames.Length ==> k in old(Used())
      ensures !r.NoPage? ==> lastFrame !in old(Used()) && Used() == old(Used()) + {lastFrame}
      ensures !r.NoPage? ==> forall k: nat :: k < lastFrame ==> k in old(Used())
      ensures !r.NoPage? && lastFrame < 0xf_ff00 ==>
                r == if lastFrame > 0xf00 then Panic else Page(0x10_0000 + 0x1000 * lastFrame)
    {
      var frame := GetFirstFrame();
      LeastFreeIs(Used(), 0, 32 * frames.Length, if frame == NO_FRAME then 32 * frames.Length else frame);
      if frame == NO_FRAME {
        return NoPage;
      }
      SetFrame(frame);
      if FrameToPhysical(frame) > LAST_PAGE {
        return Panic;
      }
      return Page(FrameToPhysical(frame));
    }
  }

  /** The least index from `i` up that is not used. */
  function LeastFree(used: set<nat>, i: nat, n: nat): Option<nat>
    requires i <= n
    decreases n - i
  {
    if i == n then None else if i !in used then Some(i) else LeastFree(used, i + 1, n)
  }

  /** The frames that `alloc_phys_page` can still hand out. */
  function FreeFrames(used: set<nat>): set<nat> {
    set i: nat | i <= LAST_FRAME && i !in used
  }

  /** It hands one out exactly if there is one; otherwise it panics, while the frame behind the last one is unmarked. */
  lemma FrameFree(used: set<nat>, n: nat)
    requires LAST_FRAME + 1 < n && LAST_FRAME + 1 !in used
    ensures var r := LeastFree(used, 0, n);
            && r.Some? && r.value !in used && r.value <= LAST_FRAME + 1
            && (r.value <= LAST_FRAME <==> FreeFrames(used) != {})
            && (r.value <= LAST_FRAME ==> FreeFrames(used + {r.value}) == FreeFrames(used) - {r.value} &&
                                          r.value in FreeFrames(used))
  {
    LeastFreeUnused(used, 0, n);
    var r := LeastFree(used, 0, n);
    if r.value > LAST_FRAME {
      assert forall i: nat :: i <= LAST_FRAME ==> i in used;
    } else {
      assert r.value in FreeFrames(used);
    }
  }

  lemma {:induction false} LeastFreeIs(used: set<nat>, i: nat, n: nat, f: nat)
    requires i <= f <= n && (forall k :: i <= k < f ==> k in used) && (f < n ==> f !in used)
    ensures LeastFree(used, i, n) == if f == n then None else Some(f)
    decreases n - i
  {
    if i < f { LeastFreeIs(used, i + 1, n, f); }
  }

  // ------------------------------------------------------------------------------------------
  // Runs
  // ------------------------------------------------------------------------------------------

  datatype Event = Took(frame: nat) | Cleared(frame: nat)

  /** The used frames after an event, in a bitmap of `words` words. */
  function After(used: set<nat>, e: Event, words: nat): set<nat> {
    match e
    case Took(f) => used + {f}
    case Cleared(f) => if f > words then used else used - {f}
  }

  /** A run of `alloc_phys_page` and `clear_frame` calls that never panics or runs out of frames. */
  predicate IsRun(used: set<nat>, es: seq<Event>, words: nat)
    decreases |es|
  {
    es == [] || (
      && (es[0].Took? ==> LeastFree(used, 0, 32 * words) == Some(es[0].frame))
      && IsRun(After(used, es[0], words), es[1..], words))
  }

  /** A used frame is handed out only after it was cleared, and only frames up to `num_frames` can be. */
  lemma {:induction false} TakenAfterCleared(used: set<nat>, es: seq<Event>, words: nat, j: nat)
    requires IsRun(used, es, words) && j < |es| && es[j].Took? && es[j].frame in used
    ensures es[j].frame <= words && exists k :: 0 <= k < j && es[k] == Cleared(es[j].frame)
    decreases |es|
  {
    var f := es[j].frame;
    LeastFreeUnused(used, 0, 32 * words);
    if es[0] == Cleared(f) && f <= words {
      assert j != 0;
    } else {
      TakenAfterCleared(After(used, es[0], words), es[1..], words, j - 1);
      var k :| 0 <= k < j - 1 && es[1..][k] == Cleared(f);
      assert es[k + 1] == Cleared(f);
    }
  }

  lemma {:induction false} LeastFreeUnused(used: set<nat>, i: nat, n: nat)
    requires i <= n
    ensures LeastFree(used, i, n).Some? ==> LeastFree(used, i, n).value !in used && i <= LeastFree(used, i, n).value < n
    ensures LeastFree(used, i, n).Some? ==> forall k :: i <= k < LeastFree(used, i, n).value ==> k in used
    ensures LeastFree(used, i, n).None? ==> forall k :: i <= k < n ==> k in used
    decreases n - i
  {
    if i < n && i in used { LeastFreeUnused(used, i + 1, n); }
  }

  /** Live pages never coincide: between two hand-outs of a frame it was cleared. */
  lemma {:induction false} NoDoubleUse(used: set<nat>, es: seq<Event>, words: nat, i: nat, j: nat)
    requires IsRun(used, es, words) && i < j < |es| && es[i].Took? && es[j] == es[i]
    ensures es[i].frame <= words && exists k :: i < k < j && es[k] == Cleared(es[i].frame)
    decreases |es|
  {
    var next := After(used, es[0], words);
    if i == 0 {
      TakenAfterCleared(next, es[1..], words, j - 1);
      var k :| 0 <= k < j - 1 && es[1..][k] == Cleared(es[i].frame);
      assert es[k + 1] == Cleared(es[i].frame);
    } else {
      NoDoubleUse(next, es[1..], words, i - 1, j - 1);
      var k :| i - 1 < k < j - 1 && es[1..][k] == Cleared(es[i].frame);
      assert es[k + 1] == Cleared(es[i].frame);
    }
  }
}
