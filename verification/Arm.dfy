/**
 * include/arm.h and include/memlayout.h: the bit layout of descriptors and addresses.
 *
 * The rest of the project reads a 64-bit memory word as its three bit fields: [63:48] upper
 * attributes, [47:12] page frame number, [11:0] lower attributes. This module shows that the
 * macros act on those fields.
 */
module Arm {
  // the macros, on 64-bit vectors
  function PA2PTE(pa: bv64): bv64 { (pa >> 12) << 12 }
  function PTE2PA(pte: bv64): bv64 { pte & 0x0000_FFFF_FFFF_F000 }
  function PTEFlags(pte: bv64): bv64 { pte & 0x3FF }
  function PX2(va: bv64): bv64 { (va >> 30) & 0x1FF }
  function PX1(va: bv64): bv64 { (va >> 21) & 0x1FF }
  function PX0(va: bv64): bv64 { (va >> 12) & 0x1FF }

  /** A word assembled from its fields. */
  function Pack(hi: bv16, frame: bv36, lo: bv12): bv64
  { ((hi as bv64) << 48) | ((frame as bv64) << 12) | (lo as bv64) }

  /** Every word is the assembly of exactly one triple of fields. */
  lemma PackIsBijective(w: bv64, hi: bv16, frame: bv36, lo: bv12)
    ensures Pack((w >> 48) as bv16, ((w >> 12) & 0xF_FFFF_FFFF) as bv36, (w & 0xFFF) as bv12) == w
    ensures (Pack(hi, frame, lo) >> 48) as bv16 == hi
    ensures ((Pack(hi, frame, lo) >> 12) & 0xF_FFFF_FFFF) as bv36 == frame
    ensures (Pack(hi, frame, lo) & 0xFFF) as bv12 == lo
  {}

  /** Decoding macros on fields: a page address below 2^48 is `Pack(0, frame, 0)`. */
  lemma DecodeActsOnFields(hi: bv16, frame: bv36, lo: bv12)
    ensures PTE2PA(Pack(hi, frame, lo)) == Pack(0, frame, 0)
    ensures PTEFlags(Pack(hi, frame, lo)) == Pack(0, 0, lo & 0x3FF)
    ensures (Pack(hi, frame, lo) & 1 != 0 && Pack(hi, frame, lo) & 2 != 0) <==> lo & 3 == 3
  {}

  /** Encoding macros on fields: a table descriptor and a page descriptor with attributes. */
  lemma EncodeActsOnFields(page: bv36, hi: bv16, lo: bv12)
    ensures PA2PTE(Pack(0, page, 0)) | 1 | 2 == Pack(0, page, 3)
    ensures PA2PTE(Pack(0, page, 0)) | Pack(hi, 0, lo) | 0x400 | 3 == Pack(hi, page, lo | 0x403)
  {}

  /** Below MAXVA the three indices of an address are the three 9-bit digits of its page number. */
  lemma IndicesAreDigits(va: bv64)
    requires va < 0x40_0000_0000
    ensures (PX2(va) << 18) | (PX1(va) << 9) | PX0(va) == va >> 12
  {}
}
