/** Page table entries (pagetable.h). */
module PageEntries {
  const INVALID_SWAP := -1

  /** The 32-bit frame field of an entry, by its parts: the frame number above PAGE_SHIFT and
      the four flag bits below it. */
  datatype FrameWord = FrameWord(number: nat, valid: bool, dirty: bool, ref: bool, onSwap: bool)

  class Pte {
    var frame: FrameWord
    var swapOff: int

    constructor ()
      ensures frame == FrameWord(0, false, false, false, false) && swapOff == INVALID_SWAP
    {
      frame := FrameWord(0, false, false, false, false);
      swapOff := INVALID_SWAP;
    }
  }

  const WORD := 0x1_0000_0000

  function Bit(b: bool, weight: nat): nat { if b then weight else 0 }

  /** The value that C holds in the field. */
  function Pack(w: FrameWord): nat {
    w.number * 4096 + Bit(w.onSwap, 8) + Bit(w.ref, 4) + Bit(w.dirty, 2) + Bit(w.valid, 1)
  }

  /** With frame numbers below 2^20 the field loses nothing: it fits 32 bits, a shift by
      PAGE_SHIFT gives the number back, and comparing values compares words. */
  lemma PackFaithful(w: FrameWord, x: FrameWord)
    requires w.number < 0x10_0000 && x.number < 0x10_0000
    ensures Pack(w) < WORD && Pack(w) / 4096 == w.number
    ensures Pack(w) == Pack(x) <==> w == x
  {
    assert Pack(w) / 4096 == w.number && Pack(x) / 4096 == x.number;
    assert Pack(w) % 4096 == Bit(w.onSwap, 8) + Bit(w.ref, 4) + Bit(w.dirty, 2) + Bit(w.valid, 1);
    assert Pack(x) % 4096 == Bit(x.onSwap, 8) + Bit(x.ref, 4) + Bit(x.dirty, 2) + Bit(x.valid, 1);
  }
}
