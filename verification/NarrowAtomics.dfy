/**
 The 8-bit and 16-bit atomics of utils/include/atomic_compat_platform.h, emulated by
 compare-and-swap on the containing 32-bit word, under any number of concurrent threads.
 */
module NarrowAtomics {

  /** A byte or half-word of the word; mask and shift follow from the address. */
  datatype Field = B0 | B1 | B2 | B3 | H0 | H1

  /** The bits a field covers, from Low up to but not including High. */
  function Low(f: Field): nat {
    match f case B0 => 0 case B1 => 8 case B2 => 16 case B3 => 24 case H0 => 0 case H1 => 16
  }

  function High(f: Field): nat {
    Low(f) + if f.H0? || f.H1? then 16 else 8
  }

  predicate Disjoint(f: Field, g: Field) {
    High(f) <= Low(g) || High(g) <= Low(f)
  }

  // The casts to `unsigned char` and `unsigned short`
  function Byte(x: bv32): bv32 { x & 0xFF }
  function Half(x: bv32): bv32 { x & 0xFFFF }

  function Cast(x: bv32, f: Field): bv32 {
    if f.H0? || f.H1? then Half(x) else Byte(x)
  }

  // `(word & mask) >> shift`, for each field
  function GetB0(w: bv32): bv32 { w & 0xFF }
  function GetB1(w: bv32): bv32 { (w & 0xFF00) >> 8 }
  function GetB2(w: bv32): bv32 { (w & 0xFF_0000) >> 16 }
  function GetB3(w: bv32): bv32 { (w & 0xFF00_0000) >> 24 }
  function GetH0(w: bv32): bv32 { w & 0xFFFF }
  function GetH1(w: bv32): bv32 { (w & 0xFFFF_0000) >> 16 }

  // `(word & ~mask) | ((unsigned)x << shift)`
  function PutB0(w: bv32, x: bv32): bv32 { (w & !(0xFF as bv32)) | Byte(x) }
  function PutB1(w: bv32, x: bv32): bv32 { (w & !(0xFF00 as bv32)) | (Byte(x) << 8) }
  function PutB2(w: bv32, x: bv32): bv32 { (w & !(0xFF_0000 as bv32)) | (Byte(x) << 16) }
  function PutB3(w: bv32, x: bv32): bv32 { (w & !(0xFF00_0000 as bv32)) | (Byte(x) << 24) }
  function PutH0(w: bv32, x: bv32): bv32 { (w & !(0xFFFF as bv32)) | Half(x) }
  function PutH1(w: bv32, x: bv32): bv32 { (w & !(0xFFFF_0000 as bv32)) | (Half(x) << 16) }

  function Get(w: bv32, f: Field): bv32 {
    match f
    case B0 => GetB0(w)
    case B1 => GetB1(w)
    case B2 => GetB2(w)
    case B3 => GetB3(w)
    case H0 => GetH0(w)
    case H1 => GetH1(w)
  }

  function Put(w: bv32, f: Field, x: bv32): bv32 {
    match f
    case B0 => PutB0(w, x)
    case B1 => PutB1(w, x)
    case B2 => PutB2(w, x)
    case B3 => PutB3(w, x)
    case H0 => PutH0(w, x)
    case H1 => PutH1(w, x)
  }

  // Bit facts, one field at a time: the field reads back and disjoint fields stay

  lemma ReadsB0(w: bv32, x: bv32) ensures GetB0(PutB0(w, x)) == Byte(x) {}
  lemma ReadsB1(w: bv32, x: bv32) ensures GetB1(PutB1(w, x)) == Byte(x) {}
  lemma ReadsB2(w: bv32, x: bv32) ensures GetB2(PutB2(w, x)) == Byte(x) {}
  lemma ReadsB3(w: bv32, x: bv32) ensures GetB3(PutB3(w, x)) == Byte(x) {}
  lemma ReadsH0(w: bv32, x: bv32) ensures GetH0(PutH0(w, x)) == Half(x) {}
  lemma ReadsH1(w: bv32, x: bv32) ensures GetH1(PutH1(w, x)) == Half(x) {}

  lemma KeepsB1B0(w: bv32, x: bv32) ensures GetB1(PutB0(w, x)) == GetB1(w) {}
  lemma KeepsB2B0(w: bv32, x: bv32) ensures GetB2(PutB0(w, x)) == GetB2(w) {}
  lemma KeepsB3B0(w: bv32, x: bv32) ensures GetB3(PutB0(w, x)) == GetB3(w) {}
  lemma KeepsH1B0(w: bv32, x: bv32) ensures GetH1(PutB0(w, x)) == GetH1(w) {}
  lemma KeepsB0B1(w: bv32, x: bv32) ensures GetB0(PutB1(w, x)) == GetB0(w) {}
  lemma KeepsB2B1(w: bv32, x: bv32) ensures GetB2(PutB1(w, x)) == GetB2(w) {}
  lemma KeepsB3B1(w: bv32, x: bv32) ensures GetB3(PutB1(w, x)) == GetB3(w) {}
  lemma KeepsH1B1(w: bv32, x: bv32) ensures GetH1(PutB1(w, x)) == GetH1(w) {}
  lemma KeepsB0B2(w: bv32, x: bv32) ensures GetB0(PutB2(w, x)) == GetB0(w) {}
  lemma KeepsB1B2(w: bv32, x: bv32) ensures GetB1(PutB2(w, x)) == GetB1(w) {}
  lemma KeepsB3B2(w: bv32, x: bv32) ensures GetB3(PutB2(w, x)) == GetB3(w) {}
  lemma KeepsH0B2(w: bv32, x: bv32) ensures GetH0(PutB2(w, x)) == GetH0(w) {}
  lemma KeepsB0B3(w: bv32, x: bv32) ensures GetB0(PutB3(w, x)) == GetB0(w) {}
  lemma KeepsB1B3(w: bv32, x: bv32) ensures GetB1(PutB3(w, x)) == GetB1(w) {}
  lemma KeepsB2B3(w: bv32, x: bv32) ensures GetB2(PutB3(w, x)) == GetB2(w) {}
  lemma KeepsH0B3(w: bv32, x: bv32) ensures GetH0(PutB3(w, x)) == GetH0(w) {}
  lemma KeepsB2H0(w: bv32, x: bv32) ensures GetB2(PutH0(w, x)) == GetB2(w) {}
  lemma KeepsB3H0(w: bv32, x: bv32) ensures GetB3(PutH0(w, x)) == GetB3(w) {}
  lemma KeepsH1H0(w: bv32, x: bv32) ensures GetH1(PutH0(w, x)) == GetH1(w) {}
  lemma KeepsB0H1(w: bv32, x: bv32) ensures GetB0(PutH1(w, x)) == GetB0(w) {}
  lemma KeepsB1H1(w: bv32, x: bv32) ensures GetB1(PutH1(w, x)) == GetB1(w) {}
  lemma KeepsH0H1(w: bv32, x: bv32)
    ensures GetH0(PutH1(w, x)) == GetH0(w)
  {
    HighOnly(Half(x));
    LowUnder(w, Half(x) << 16);
  }

  lemma HighOnly(x: bv32) ensures (x << 16) & 0xFFFF == 0 {}

  lemma LowUnder(w: bv32, b: bv32)
    requires b & 0xFFFF == 0
    ensures ((w & !(0xFFFF_0000 as bv32)) | b) & 0xFFFF == w & 0xFFFF
  {}

  /** A field reads back what was put into it, modulo its width; fields elsewhere in the
      word keep their value. */
  lemma PutIsLocal(w: bv32, f: Field, x: bv32, g: Field)
    ensures Get(Put(w, f, x), f) == Cast(x, f)
    ensures Disjoint(f, g) ==> Get(Put(w, f, x), g) == Get(w, g)
  {
    hide Byte, Half, GetB0, PutB0, GetB1, PutB1, GetB2, PutB2, GetB3, PutB3, GetH0, PutH0, GetH1, PutH1;
    match f
    case B0 => ReadsB0(w, x); KeepsB1B0(w, x); KeepsB2B0(w, x); KeepsB3B0(w, x); KeepsH1B0(w, x);
    case B1 => ReadsB1(w, x); KeepsB0B1(w, x); KeepsB2B1(w, x); KeepsB3B1(w, x); KeepsH1B1(w, x);
    case B2 => ReadsB2(w, x); KeepsB0B2(w, x); KeepsB1B2(w, x); KeepsB3B2(w, x); KeepsH0B2(w, x);
    case B3 => ReadsB3(w, x); KeepsB0B3(w, x); KeepsB1B3(w, x); KeepsB2B3(w, x); KeepsH0B3(w, x);
    case H0 => ReadsH0(w, x); KeepsB2H0(w, x); KeepsB3H0(w, x); KeepsH1H0(w, x);
    case H1 => ReadsH1(w, x); KeepsB0H1(w, x); KeepsB1H1(w, x); KeepsH0H1(w, x);
  }
}
