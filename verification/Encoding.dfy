/** The 64-bit words behind `Kalloc.Word`: the macros of arm.h, on bits, are the operations of the model on fields. */
module Encoding {
  import Arm
  import opened Kalloc
  import opened PageTable

  function FrameBits(b: bv64): bv36 { ((b >> 12) & 0xF_FFFF_FFFF) as bv36 }
  function HighBits(b: bv64): bv16 { (b >> 48) as bv16 }
  function LowBits(b: bv64): bv12 { (b & 0xFFF) as bv12 }

  /** The fields of a memory word; frames have 36 bits. */
  function Decode(b: bv64): Word { Word(HighBits(b), FrameBits(b) as int, LowBits(b)) }

  /** A page address below 2^48. */
  predicate IsPage(pa: bv64) { pa & 0xFFFF_0000_0000_0FFF == 0 }

  lemma PageFields(pa: bv64)
    requires IsPage(pa)
    ensures HighBits(pa) == 0 && LowBits(pa) == 0
  {}

  lemma TableBits(pa: bv64)
    requires IsPage(pa)
    ensures var e := Arm.PA2PTE(pa) | 1 | 2; HighBits(e) == 0 && FrameBits(e) == FrameBits(pa) && LowBits(e) == 3
  {}

  /** Attributes outside the address field. */
  predicate IsPerm(perm: bv64) { perm & 0x0000_FFFF_FFFF_F000 == 0 }

  lemma LeafBits(pa: bv64, perm: bv64)
    requires IsPage(pa) && IsPerm(perm)
    ensures var e := Arm.PA2PTE(pa) | perm | 0x400 | 3;
      HighBits(e) == HighBits(perm) && FrameBits(e) == FrameBits(pa) && LowBits(e) == LowBits(perm) | 0x403
  {}

  lemma AddressBits(b: bv64)
    ensures var pa := Arm.PTE2PA(b); IsPage(pa) && FrameBits(pa) == FrameBits(b)
    ensures (b & 1 != 0 && b & 2 != 0) <==> LowBits(b) & 3 == 3
  {}

  /** What walk writes, what mappages writes, what PTE2PA reads, and the test of the type bits. */
  lemma DescriptorsAreWords(pa: bv64, perm: bv64, b: bv64)
    requires IsPage(pa) && IsPerm(perm)
    ensures Decode(pa) == Ptr(Decode(pa).frame)
    ensures Decode(Arm.PA2PTE(pa) | 1 | 2) == TableEntry(Decode(pa).frame)
    ensures Decode(Arm.PA2PTE(pa) | perm | 0x400 | 3) == LeafEntry(Decode(pa).frame, Perm(HighBits(perm), LowBits(perm)))
    ensures Decode(Arm.PTE2PA(b)) == Ptr(Decode(b).frame)
    ensures IsTable(Decode(b)) <==> b & 1 != 0 && b & 2 != 0
  {
    hide Arm.PA2PTE, Arm.PTE2PA, FrameBits, HighBits, LowBits, IsPage, IsPerm;
    PageFields(pa);
    TableBits(pa);
    LeafBits(pa, perm);
    AddressBits(b);
    PageFields(Arm.PTE2PA(b));
  }
}
