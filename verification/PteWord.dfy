/** Page table entries as the 64-bit words they are. A word is a frame number of forty bits and twelve low bits, and
    every operation of the page table code on words is one on that pair; the bits from 52 up are zero. */
module PteWord {

  const FRAME_MASK: bv64 := 0xFFFF_FFFF_FFFF_F000
  const PADDR_PTE_MASK: bv64 := 0x000F_FFFF_FFFF_F000
  const RW: bv64 := 0x002

  /** _pteCreate */
  function Create(maddr: bv64, flags: bv64): bv64 { (maddr & FRAME_MASK) | flags }

  /** pteToMachine and pteToMfn */
  function ToMachine(pte: bv64): bv64 { pte & PADDR_PTE_MASK }

  function ToMfn(pte: bv64): bv64 { ToMachine(pte) >> 12 }

  /** The pair a word stands for, and the word of a pair. */
  predicate IsFrame(f: bv64) { f & 0xFFFF_FF00_0000_0000 == 0 }

  predicate AreFlags(f: bv64) { f & 0xFFFF_FFFF_FFFF_F000 == 0 }

  function FrameBits(pte: bv64): bv64 { (pte >> 12) & 0xFF_FFFF_FFFF }

  function FlagBits(pte: bv64): bv64 { pte & 0xFFF }

  function Word(frame: bv64, flags: bv64): bv64 { (frame << 12) | flags }

  predicate Valid(pte: bv64) { pte & 0xFFF0_0000_0000_0000 == 0 }

  lemma WordRoundTrip(frame: bv64, flags: bv64)
    requires IsFrame(frame) && AreFlags(flags)
    ensures Valid(Word(frame, flags)) && FrameBits(Word(frame, flags)) == frame && FlagBits(Word(frame, flags)) == flags
  {
  }

  /** A valid word is determined by its pair; it is the unused entry iff both parts are zero. */
  lemma PairDeterminesWord(pte: bv64)
    requires Valid(pte)
    ensures Word(FrameBits(pte), FlagBits(pte)) == pte
    ensures pte == 0 <==> FrameBits(pte) == 0 && FlagBits(pte) == 0
  {
  }

  /** Making an entry from an address or from an entry keeps the frame and replaces the flags. */
  lemma CreatePair(maddr: bv64, flags: bv64)
    requires Valid(maddr) && AreFlags(flags)
    ensures Create(maddr, flags) == Word(FrameBits(maddr), flags)
  {
  }

  /** The machine frame of a valid word is its frame part. */
  lemma MfnPair(pte: bv64)
    requires Valid(pte)
    ensures ToMachine(pte) == pte & FRAME_MASK && ToMfn(pte) == FrameBits(pte)
  {
  }

  /** Taking and giving write access touches one flag. */
  lemma WriteAccessPair(pte: bv64)
    requires Valid(pte)
    ensures pte & !RW == Word(FrameBits(pte), FlagBits(pte) & 0xFFD)
    ensures pte | RW == Word(FrameBits(pte), FlagBits(pte) | 0x002)
  {
  }
}
