/**
 The emulated atomics in integer arithmetic: words and fields as the numbers their bits denote, and
 what every operation of a run does to these numbers.
 */
module NarrowAtomicValues {
  import Bits
  import opened NarrowAtomics
  import opened NarrowAtomicRuns

  // ---------------------------------------------------------------------------------
  // Numbers

  function Bit(x: bv32): nat { if x & 1 == 1 then 1 else 0 }
  function Half(x: bv32): bv32 { x >> 1 }

  /** The number that the lowest `n` bits of a word denote in base two. */
  function BitsValue(x: bv32, n: nat): nat
    decreases n
  {
    if n == 0 then 0 else Bit(x) + 2 * BitsValue(Half(x), n - 1)
  }

  function Number(x: bv32): nat {
    BitsValue(x, 32)
  }

  function Modulus(f: Field): nat {
    if f.H0? || f.H1? then 0x1_0000 else 0x100
  }

  /** The number in a field, cut out of the number in the word by division. */
  function FieldNumber(w: bv32, f: Field): nat {
    match f
    case B0 => Number(w) % 0x100
    case B1 => Number(w) / 0x100 % 0x100
    case B2 => Number(w) / 0x1_0000 % 0x100
    case B3 => Number(w) / 0x100_0000 % 0x100
    case H0 => Number(w) % 0x1_0000
    case H1 => Number(w) / 0x1_0000 % 0x1_0000
  }

  // ---------------------------------------------------------------------------------
  // Words as functions of words, so that a proof can look at one of them at a time

  function Next(x: bv32): bv32 { x + 1 }
  function Back(x: bv32): bv32 { x - 1 }
  function Sum(x: bv32, y: bv32): bv32 { x + y }
  function Difference(x: bv32, y: bv32): bv32 { x - y }
  function And(x: bv32, m: bv32): bv32 { x & m }
  function Shift8(x: bv32): bv32 { x >> 8 }

  lemma NextIs(x: bv32) ensures Next(x) == x + 1 {}
  lemma SumIs(x: bv32, y: bv32) ensures Sum(x, y) == x + y {}
  lemma DifferenceIs(x: bv32, y: bv32) ensures Difference(x, y) == x - y {}
  lemma AndIs(x: bv32, m: bv32) ensures And(x, m) == x & m {}

  lemma NextEven(x: bv32) requires Bit(x) == 0 ensures Bit(Next(x)) == 1 && Half(Next(x)) == Half(x) {}
  lemma NextOdd(x: bv32)
    requires Bit(x) == 1 && x != 0xFFFF_FFFF
    ensures Bit(Next(x)) == 0 && Half(Next(x)) == Next(Half(x)) && Half(x) != 0xFFFF_FFFF
  {}
  lemma BackNext(y: bv32) requires y != 0 ensures Next(Back(y)) == y && Back(y) != 0xFFFF_FFFF {}
  lemma SumZero(x: bv32) ensures Sum(x, 0) == x {}
  lemma ZeroHalves() ensures Bit(0) == 0 && Half(0) == 0 {}
  lemma Rejoin(x: bv32) ensures Half(x) == 0 && Bit(x) == 0 ==> x == 0 {}
  lemma BitBound(x: bv32) ensures Bit(x) < 2 {}
  lemma AndZero(x: bv32) ensures And(x, 0) == 0 {}
  lemma AndHalves(x: bv32, m: bv32)
    ensures Half(And(x, m)) == And(Half(x), Half(m)) && (Bit(m) == 1 ==> Bit(And(x, m)) == Bit(x))
  {}

  lemma NextOfSum(x: bv32, y: bv32) ensures Sum(x, y + 1) == Next(x + y) {}
  lemma SumNext(x: bv32, y: bv32)
    ensures Sum(x, Next(y)) == Next(Sum(x, y))
  {
    hide Sum, Next;
    NextOfSum(x, y);
    NextIs(y);
    SumIs(x, y);
  }

  lemma SumOfDifference(x: bv32, y: bv32) ensures Sum(x - y, y) == x {}
  lemma TakeAndAdd(x: bv32, y: bv32)
    ensures Sum(Difference(x, y), y) == x
  {
    hide Sum, Difference;
    SumOfDifference(x, y);
    DifferenceIs(x, y);
  }

  // ---------------------------------------------------------------------------------
  // Counting

  lemma {:induction false} ZeroValue(n: nat)
    ensures BitsValue(0, n) == 0
    decreases n
  {
    if n > 0 {
      ZeroHalves();
      ZeroValue(n - 1);
    }
  }

  lemma {:induction false} ValueBound(x: bv32, n: nat)
    ensures BitsValue(x, n) < Bits.Pow2(n)
    decreases n
  {
    if n > 0 {
      BitBound(x);
      hide Half, Bit;
      ValueBound(Half(x), n - 1);
    }
  }

  lemma ModDouble(s: nat, z: nat, p: nat)
    requires s < 2 && p > 0
    ensures (s + 2 * z) % (2 * p) == s + 2 * (z % p)
  {
    var q, r := z / p, z % p;
    assert z == p * q + r;
    assert s + 2 * z == (2 * p) * q + (s + 2 * r);
    Remainder(s + 2 * z, 2 * p, q, s + 2 * r);
  }

  lemma Remainder(a: int, m: nat, q: int, r: nat)
    requires r < m && a == m * q + r
    ensures a % m == r && a / m == q
  {
    var d := q - a / m;
    assert m * d == a % m - r;
    Multiple(m, d);
  }

  lemma Multiple(m: nat, d: int)
    ensures d > 0 ==> m * d >= m
    ensures d < 0 ==> m * d <= 0 - m
  {
  }

  /** Counting on adds one to the number that the lowest `n` bits denote, modulo 2^n. */
  lemma {:induction false} NextValue(x: bv32, n: nat)
    requires x != 0xFFFF_FFFF
    ensures BitsValue(Next(x), n) == (BitsValue(x, n) + 1) % Bits.Pow2(n)
    decreases n
  {
    if n > 0 {
      hide Next, Half, Bit;
      var h, p := BitsValue(Half(x), n - 1), Bits.Pow2(n - 1);
      assert Bits.Pow2(n) == 2 * p && BitsValue(x, n) == Bit(x) + 2 * h;
      assert BitsValue(Next(x), n) == Bit(Next(x)) + 2 * BitsValue(Half(Next(x)), n - 1);
      ValueBound(Half(x), n - 1);
      BitBound(x);
      if Bit(x) == 0 {
        NextEven(x);
      } else {
        NextOdd(x);
        NextValue(Half(x), n - 1);
      }
      hide BitsValue, Bits.Pow2;
      if Bit(x) == 0 {
        Remainder(2 * h + 1, 2 * p, 0, 2 * h + 1);
      } else {
        ModDouble(0, h + 1, p);
      }
    }
  }

  /** A word that has at most `n` bits. */
  predicate Short(x: bv32, n: nat)
    decreases n
  {
    if n == 0 then x == 0 else Short(Half(x), n - 1)
  }

  lemma {:induction false} OnlyZero(x: bv32, n: nat)
    requires Short(x, n) && BitsValue(x, n) == 0
    ensures x == 0
    decreases n
  {
    if n > 0 {
      Rejoin(x);
      hide Half, Bit;
      OnlyZero(Half(x), n - 1);
    }
  }

  lemma {:induction false} ShortValue(x: bv32, n: nat)
    requires Short(x, n)
    ensures BitsValue(x, n + 1) == BitsValue(x, n)
    decreases n
  {
    if n == 0 {
      ZeroHalves();
    } else {
      hide Bit, Half;
      ShortValue(Half(x), n - 1);
    }
  }

  function Half2(x: bv32): bv32 { Half(Half(x)) }
  function Half4(x: bv32): bv32 { Half2(Half2(x)) }
  function Half8(x: bv32): bv32 { Half4(Half4(x)) }

  lemma Half8Is(x: bv32) ensures Half8(x) == Shift8(x) {}
  lemma ShiftedOut(x: bv32) ensures Shift8(Shift8(Shift8(Shift8(x)))) == 0 {}

  lemma ShortOn2(x: bv32, n: nat) requires Short(Half2(x), n) ensures Short(x, n + 2) { hide Half; }
  lemma ShortOn4(x: bv32, n: nat)
    requires Short(Half4(x), n)
    ensures Short(x, n + 4)
  {
    hide Half2, Short;
    ShortOn2(Half2(x), n);
    ShortOn2(x, n + 2);
  }
  lemma ShortOn8(x: bv32, n: nat)
    requires Short(Shift8(x), n)
    ensures Short(x, n + 8)
  {
    Half8Is(x);
    hide Half4, Short, Shift8;
    ShortOn4(Half4(x), n);
    ShortOn4(x, n + 4);
  }

  lemma AllShort(x: bv32)
    ensures Short(x, 32)
  {
    ShiftedOut(x);
    ShortZero();
    hide Short, Shift8;
    ShortOn8(Shift8(Shift8(Shift8(x))), 0);
    ShortOn8(Shift8(Shift8(x)), 8);
    ShortOn8(Shift8(x), 16);
    ShortOn8(x, 24);
  }

  lemma ShortZero() ensures Short(0, 0) {}

  lemma NumberZero(x: bv32)
    ensures Number(x) == 0 <==> x == 0
  {
    hide Short, BitsValue;
    AllShort(x);
    ZeroValue(32);
    if Number(x) == 0 { OnlyZero(x, 32); }
  }

  /** Shifting by one bit halves the number. */
  lemma HalfNumber(x: bv32)
    ensures Number(Half(x)) == Number(x) / 2
  {
    hide Half, Bit, Short;
    AllShort(x);
    ShortValue(x, 32);
    BitBound(x);
    assert BitsValue(x, 33) == Bit(x) + 2 * BitsValue(Half(x), 32);
  }

  lemma Half4Number(x: bv32)
    ensures Number(Half4(x)) == Number(x) / 16
  {
    hide Number, Half;
    HalfNumber(x);
    HalfNumber(Half(x));
    HalfNumber(Half2(x));
    HalfNumber(Half(Half2(x)));
  }

  lemma ShiftNumber(x: bv32)
    ensures Number(Shift8(x)) == Number(x) / 0x100
  {
    Half8Is(x);
    hide Number, Half4, Shift8;
    Half4Number(x);
    Half4Number(Half4(x));
  }

  // ---------------------------------------------------------------------------------
  // Masks

  /** A word whose lowest `n` bits are set and no others. */
  predicate IsMask(m: bv32, n: nat)
    decreases n
  {
    if n == 0 then m == 0 else Bit(m) == 1 && IsMask(Half(m), n - 1)
  }

  lemma NoMask() ensures IsMask(0, 0) {}
  lemma LowOnes(m: bv32)
    requires m & 0xFF == 0xFF
    ensures var n := Half4(m);
            && Bit(m) == Bit(Half(m)) == Bit(Half2(m)) == Bit(Half(Half2(m))) == 1
            && Bit(n) == Bit(Half(n)) == Bit(Half2(n)) == Bit(Half(Half2(n))) == 1
  {}
  lemma MaskOn2(m: bv32, n: nat)
    requires IsMask(Half2(m), n) && Bit(m) == Bit(Half(m)) == 1
    ensures IsMask(m, n + 2)
  {
    hide Half, Bit;
  }
  lemma MaskOn8(m: bv32, n: nat)
    requires m & 0xFF == 0xFF && IsMask(Shift8(m), n)
    ensures IsMask(m, n + 8)
  {
    LowOnes(m);
    Half8Is(m);
    hide Half, Bit, IsMask, Shift8;
    MaskOn2(Half2(Half4(m)), n);
    MaskOn2(Half4(m), n + 2);
    MaskOn2(Half2(m), n + 4);
    MaskOn2(m, n + 6);
  }

  lemma Masks()
    ensures IsMask(0xFF, 8) && IsMask(0xFFFF, 16) && IsMask(0xFF_FFFF, 24) && IsMask(0xFFFF_FFFF, 32)
  {
    hide IsMask;
    NoMask();
    assert Shift8(0xFF) == 0 && Shift8(0xFFFF) == 0xFF && Shift8(0xFF_FFFF) == 0xFFFF;
    assert Shift8(0xFFFF_FFFF) == 0xFF_FFFF;
    MaskOn8(0xFF, 0);
    MaskOn8(0xFFFF, 8);
    MaskOn8(0xFF_FFFF, 16);
    MaskOn8(0xFFFF_FFFF, 24);
  }

  lemma {:induction false} OnesValue(m: bv32, n: nat)
    requires IsMask(m, n)
    ensures BitsValue(m, n) + 1 == Bits.Pow2(n)
    decreases n
  {
    if n > 0 {
      hide Bit, Half;
      OnesValue(Half(m), n - 1);
    }
  }

  /** Masking the lowest `k` bits is the remainder by 2^k. */
  lemma {:induction false} MaskValue(x: bv32, m: bv32, k: nat, n: nat)
    requires IsMask(m, k) && k <= n
    ensures BitsValue(And(x, m), n) == BitsValue(x, n) % Bits.Pow2(k)
    decreases n
  {
    hide And, Bit, Half;
    if k == 0 {
      AndZero(x);
      ZeroValue(n);
    } else {
      AndHalves(x, m);
      BitBound(x);
      MaskValue(Half(x), Half(m), k - 1, n - 1);
      ModDouble(Bit(x), BitsValue(Half(x), n - 1), Bits.Pow2(k - 1));
    }
  }

  lemma MaskNumber(x: bv32)
    ensures Number(And(x, 0xFF)) == Number(x) % 0x100 && Number(And(x, 0xFFFF)) == Number(x) % 0x1_0000
  {
    hide And, IsMask, BitsValue, Bits.Pow2;
    Masks();
    MaskValue(x, 0xFF, 8, 32);
    MaskValue(x, 0xFFFF, 16, 32);
    Bits.Pow2Is256();
    Bits.Pow2Add(8, 8);
  }

  // ---------------------------------------------------------------------------------
  // Adding

  lemma NextNumber(z: bv32)
    requires z != 0xFFFF_FFFF && (Number(z) + 1 < Bits.Pow2(32) || Next(z) != 0)
    ensures Number(Next(z)) == Number(z) + 1
  {
    hide BitsValue, Bits.Pow2, Next;
    NumberZero(Next(z));
    NextValue(z, 32);
    ValueBound(z, 32);
  }

  /** Addition without overflow adds the numbers. */
  lemma {:induction false} SumNumber(x: bv32, y: bv32)
    requires Number(x) + Number(y) < Bits.Pow2(32)
    ensures Number(Sum(x, y)) == Number(x) + Number(y)
    decreases Number(y)
  {
    hide BitsValue, Bits.Pow2, IsMask, Sum, Next, Back;
    NumberZero(y);
    if y == 0 {
      SumZero(x);
    } else {
      var z := Back(y);
      BackNext(y);
      NextNumber(z);
      SumNumber(x, z);
      SumNext(x, z);
      OnesNumber();
      NextNumber(Sum(x, z));
    }
  }

  // ---------------------------------------------------------------------------------
  // Fields

  lemma CutB0(w: bv32) ensures GetB0(w) == And(w, 0xFF) {}
  lemma CutB1(w: bv32) ensures GetB1(w) == And(Shift8(w), 0xFF) {}
  lemma CutB2(w: bv32) ensures GetB2(w) == And(Shift8(Shift8(w)), 0xFF) {}
  lemma CutB3(w: bv32) ensures GetB3(w) == And(Shift8(Shift8(Shift8(w))), 0xFF) {}
  lemma CutH0(w: bv32) ensures GetH0(w) == And(w, 0xFFFF) {}
  lemma CutH1(w: bv32) ensures GetH1(w) == And(Shift8(Shift8(w)), 0xFFFF) {}

  lemma Shift16Number(w: bv32)
    ensures Number(Shift8(Shift8(w))) == Number(w) / 0x1_0000
  {
    hide Number, Shift8;
    ShiftNumber(w);
    ShiftNumber(Shift8(w));
  }

  lemma Shift24Number(w: bv32)
    ensures Number(Shift8(Shift8(Shift8(w)))) == Number(w) / 0x100_0000
  {
    hide Number, Shift8;
    Shift16Number(w);
    ShiftNumber(Shift8(Shift8(w)));
  }

  lemma BytesNumber(w: bv32)
    ensures Number(GetB0(w)) == Number(w) % 0x100 && Number(GetB1(w)) == Number(w) / 0x100 % 0x100
    ensures Number(GetB2(w)) == Number(w) / 0x1_0000 % 0x100 && Number(GetB3(w)) == Number(w) / 0x100_0000 % 0x100
  {
    hide GetB0, GetB1, GetB2, GetB3, Number, And, Shift8;
    CutB0(w);
    CutB1(w);
    CutB2(w);
    CutB3(w);
    MaskNumber(w);
    MaskNumber(Shift8(w));
    MaskNumber(Shift8(Shift8(w)));
    MaskNumber(Shift8(Shift8(Shift8(w))));
    ShiftNumber(w);
    Shift16Number(w);
    Shift24Number(w);
  }

  lemma HalvesNumber(w: bv32)
    ensures Number(GetH0(w)) == Number(w) % 0x1_0000 && Number(GetH1(w)) == Number(w) / 0x1_0000 % 0x1_0000
  {
    hide GetH0, GetH1, Number, And, Shift8;
    CutH0(w);
    CutH1(w);
    MaskNumber(w);
    MaskNumber(Shift8(Shift8(w)));
    Shift16Number(w);
  }

  /** What the masks and shifts read is the number in the field. */
  lemma GetNumber(w: bv32, f: Field)
    ensures Number(Get(w, f)) == FieldNumber(w, f)
  {
    hide GetB0, GetB1, GetB2, GetB3, GetH0, GetH1, Number;
    BytesNumber(w);
    HalvesNumber(w);
  }

  predicate IsHalf(f: Field) {
    f.H0? || f.H1?
  }

  lemma ByteIs(x: bv32) ensures Byte(x) == And(x, 0xFF) {}
  lemma HalfIs(x: bv32) ensures HalfWord(x) == And(x, 0xFFFF) {}
  function HalfWord(x: bv32): bv32 { NarrowAtomics.Half(x) }

  lemma CastIs(x: bv32, f: Field)
    ensures Cast(x, f) == if IsHalf(f) then HalfWord(x) else Byte(x)
  {
    hide Byte, NarrowAtomics.Half;
  }

  /** A cast to the width of a field is the remainder. */
  lemma CastNumber(x: bv32, f: Field)
    ensures Number(Cast(x, f)) == Number(x) % Modulus(f)
  {
    hide Number, And, Cast, Byte, HalfWord;
    CastIs(x, f);
    ByteIs(x);
    HalfIs(x);
    MaskNumber(x);
  }

  lemma ByteOfSum(x: bv32, v: bv32) ensures Byte(x + v) == Byte(x + (v & 0xFF)) {}
  lemma HalfOfSum(x: bv32, v: bv32) ensures HalfWord(x + v) == HalfWord(x + (v & 0xFFFF)) {}
  lemma PlusIs(x: bv32, v: bv32) ensures Plus(x, v) == x + v {}
  lemma MinusIs(x: bv32, v: bv32) ensures Minus(x, v) == x - v {}

  lemma CastSum(x: bv32, v: bv32)
    ensures Byte(Plus(x, v)) == Byte(Sum(x, Byte(v))) && HalfWord(Plus(x, v)) == HalfWord(Sum(x, HalfWord(v)))
  {
    hide Sum, Plus, Byte, HalfWord, And;
    PlusIs(x, v);
    ByteIs(v);
    HalfIs(v);
    AndIs(v, 0xFF);
    AndIs(v, 0xFFFF);
    SumIs(x, v & 0xFF);
    SumIs(x, v & 0xFFFF);
    ByteOfSum(x, v);
    HalfOfSum(x, v);
  }

  lemma ByteOfDifference(x: bv32, v: bv32) ensures Byte(x - v) == Byte((x + 0x100) - (v & 0xFF)) {}
  lemma HalfOfDifference(x: bv32, v: bv32) ensures HalfWord(x - v) == HalfWord((x + 0x1_0000) - (v & 0xFFFF)) {}

  lemma DifferenceOfSums(x: bv32, v: bv32)
    ensures Difference(x + 0x100, v & 0xFF) == (x + 0x100) - (v & 0xFF)
    ensures Difference(x + 0x1_0000, v & 0xFFFF) == (x + 0x1_0000) - (v & 0xFFFF)
  {}

  lemma CastDifference(x: bv32, v: bv32)
    ensures Byte(Minus(x, v)) == Byte(Difference(Sum(x, 0x100), Byte(v)))
    ensures HalfWord(Minus(x, v)) == HalfWord(Difference(Sum(x, 0x1_0000), HalfWord(v)))
  {
    hide Sum, Difference, Minus, Byte, HalfWord, And;
    MinusIs(x, v);
    ByteIs(v);
    HalfIs(v);
    AndIs(v, 0xFF);
    AndIs(v, 0xFFFF);
    SumIs(x, 0x100);
    SumIs(x, 0x1_0000);
    DifferenceOfSums(x, v);
    ByteOfDifference(x, v);
    HalfOfDifference(x, v);
  }

  /** A subtraction that borrows from above the field stays small. */
  lemma ByteGap(x: bv32, v: bv32)
    requires x <= 0xFF && v <= 0xFF
    ensures And((x + 0x100) - v, 0xFF_FFFF) == (x + 0x100) - v
  {}
  lemma HalfGap(x: bv32, v: bv32)
    requires x <= 0xFFFF && v <= 0xFFFF
    ensures And((x + 0x1_0000) - v, 0xFF_FFFF) == (x + 0x1_0000) - v
  {}
  lemma GapIs(x: bv32, v: bv32)
    ensures Difference(x + 0x100, v) == (x + 0x100) - v && Difference(x + 0x1_0000, v) == (x + 0x1_0000) - v
  {}

  lemma Fits(x: bv32) ensures Byte(x) <= 0xFF && HalfWord(x) <= 0xFFFF {}

  lemma SmallNumber(x: bv32)
    requires And(x, 0xFF_FFFF) == x
    ensures Number(x) < 0x100_0000
  {
    hide And, IsMask, BitsValue, Bits.Pow2;
    Masks();
    MaskValue(x, 0xFF_FFFF, 24, 32);
    Bits.Pow2Is256();
    Bits.Pow2Add(8, 8);
    Bits.Pow2Add(16, 8);
  }

  lemma Units()
    ensures Number(0x100) == 0x100 && Number(0x1_0000) == 0x1_0000 && Bits.Pow2(32) == 0x1_0000_0000
  {
    hide Number, Bits.Pow2;
    Pow2Is32();
    NumberOfUnit();
  }

  lemma Pow2Is32()
    ensures Bits.Pow2(32) == 0x1_0000_0000
  {
    hide Bits.Pow2;
    Bits.Pow2Is256();
    Bits.Pow2Add(8, 8);
    Bits.Pow2Add(16, 16);
  }

  /** One more than a mask is a power of two. */
  lemma NumberOfUnit()
    ensures Number(0x100) == 0x100 && Number(0x1_0000) == 0x1_0000
  {
    hide Next, And, Number, Bits.Pow2;
    Literals();
    OnesNumber();
    Pow2Is32();
    MaskNumber(0xFFFF_FFFF);
    NextNumber(0xFF);
    NextNumber(0xFFFF);
  }

  lemma Literals()
    ensures Next(0xFF) == 0x100 && Next(0xFFFF) == 0x1_0000
    ensures And(0xFFFF_FFFF, 0xFF) == 0xFF && And(0xFFFF_FFFF, 0xFFFF) == 0xFFFF
  {}

  lemma OnesNumber()
    ensures Number(0xFFFF_FFFF) + 1 == Bits.Pow2(32)
  {
    hide BitsValue, IsMask, Bits.Pow2;
    Masks();
    OnesValue(0xFFFF_FFFF, 32);
  }

  lemma ModSum(a: int, b: int, m: nat)
    requires m > 0
    ensures (a + b % m) % m == (a + b) % m && (a + m - b % m) % m == (a - b) % m
  {
    var q, r := b / m, b % m;
    ModShift(a + r, q, m);
    ModShift(a - r, 1, m);
    ModShift(a - r, -q, m);
    Quotient(b, m, q, r);
  }

  lemma Quotient(b: int, m: nat, q: int, r: int)
    requires m > 0 && q == b / m && r == b % m
    ensures b == r + m * q && -b == m * -q - r && m * 1 == m
  {
  }

  lemma ModShift(a: int, k: int, m: nat)
    requires m > 0
    ensures (a + m * k) % m == a % m
  {
    var q, r := a / m, a % m;
    assert a == m * q + r;
    assert a + m * k == m * (q + k) + r;
    Remainder(a + m * k, m, q + k, r);
  }

  /** Adding in a field of either width. */
  lemma PlusNumber(x: bv32, v: bv32, f: Field)
    requires Number(x) < Modulus(f)
    ensures Number(Cast(Plus(x, v), f)) == (Number(x) + Number(v)) % Modulus(f)
  {
    hide Number, Cast, Plus, Sum, Byte, HalfWord, Bits.Pow2;
    var u := Cast(v, f);
    CastSum(x, v);
    CastIs(v, f);
    CastIs(Plus(x, v), f);
    CastIs(Sum(x, u), f);
    Units();
    CastNumber(v, f);
    SumNumber(x, u);
    CastNumber(Sum(x, u), f);
    ModSum(Number(x), Number(v), Modulus(f));
  }

  /** Subtracting, borrowing from above the field. */
  lemma MinusNumber(x: bv32, v: bv32, f: Field)
    requires Number(x) < Modulus(f) && Cast(x, f) == x
    ensures Number(Cast(Minus(x, v), f)) == (Number(x) - Number(v)) % Modulus(f)
  {
    hide Number, Cast, Minus, Sum, Difference, Byte, HalfWord, And, Bits.Pow2;
    var u, unit: bv32 := Cast(v, f), if IsHalf(f) then 0x1_0000 else 0x100;
    var d := Difference(Sum(x, unit), u);
    CastDifference(x, v);
    CastIs(v, f);
    CastIs(Minus(x, v), f);
    CastIs(d, f);
    Units();
    CastNumber(v, f);
    SumNumber(x, unit);
    Gap(x, v, f);
    TakeAndAdd(Sum(x, unit), u);
    SmallNumber(d);
    SumNumber(d, u);
    CastNumber(d, f);
    ModSum(Number(x), Number(v), Modulus(f));
  }

  lemma Gap(x: bv32, v: bv32, f: Field)
    requires Cast(x, f) == x
    ensures var d := Difference(Sum(x, if IsHalf(f) then 0x1_0000 else 0x100), Cast(v, f)); And(d, 0xFF_FFFF) == d
  {
    hide Cast, Sum, Difference, Byte, HalfWord, And;
    CastIs(x, f);
    CastIs(v, f);
    Fits(x);
    Fits(v);
    SumIs(x, 0x100);
    SumIs(x, 0x1_0000);
    var b, h := Byte(v), HalfWord(v);
    GapIs(x, b);
    GapIs(x, h);
    if IsHalf(f) {
      HalfGap(x, h);
    } else {
      ByteGap(x, b);
    }
  }

  lemma SameHalves(a: bv32, b: bv32) ensures Half(a) == Half(b) && Bit(a) == Bit(b) ==> a == b {}

  lemma {:induction false} SameValue(a: bv32, b: bv32, n: nat)
    requires Short(a, n) && Short(b, n) && BitsValue(a, n) == BitsValue(b, n)
    ensures a == b
    decreases n
  {
    if n > 0 {
      BitBound(a);
      BitBound(b);
      SameHalves(a, b);
      hide Half, Bit;
      SameValue(Half(a), Half(b), n - 1);
    }
  }

  /** Words with the same number are the same. */
  lemma SameNumber(a: bv32, b: bv32)
    ensures Number(a) == Number(b) <==> a == b
  {
    hide Short, BitsValue;
    AllShort(a);
    AllShort(b);
    if Number(a) == Number(b) { SameValue(a, b, 32); }
  }

  // ---------------------------------------------------------------------------------
  // What an operation does

  lemma BytesFit(w: bv32)
    ensures Byte(GetB0(w)) == GetB0(w) && Byte(GetB1(w)) == GetB1(w)
    ensures Byte(GetB2(w)) == GetB2(w) && Byte(GetB3(w)) == GetB3(w)
  {}
  lemma HalvesFit(w: bv32) ensures HalfWord(GetH0(w)) == GetH0(w) && HalfWord(GetH1(w)) == GetH1(w) {}

  lemma GetFits(w: bv32, f: Field)
    ensures Cast(Get(w, f), f) == Get(w, f)
  {
    hide Cast, Byte, HalfWord, GetB0, GetB1, GetB2, GetB3, GetH0, GetH1;
    CastIs(Get(w, f), f);
    BytesFit(w);
    HalvesFit(w);
  }

  /** The number returned is `x`. */
  predicate Returns(res: Result, x: nat) {
    res.Old? && Number(res.x) == x
  }

  /** One operation in numbers: what it leaves in its field, what it returns, and that the fields beside
      it stay. */
  ghost predicate Does(w: bv32, after: bv32, e: Entry) {
    var x, y, m := FieldNumber(w, e.f), FieldNumber(after, e.f), Modulus(e.f);
    && (forall g :: Disjoint(g, e.f) ==> FieldNumber(after, g) == FieldNumber(w, g))
    && match e.op
       case Exchange(d) => y == Number(d) % m && Returns(e.res, x)
       case CompareExchange(c, d) =>
         if x == Number(c) % m then y == Number(d) % m && e.res == Swapped
         else after == w && e.res.Mismatch? && Number(e.res.x) == x
       case FetchAdd(v) => y == (x + Number(v)) % m && Returns(e.res, x)
       case FetchSub(v) => y == (x - Number(v)) % m && Returns(e.res, x)
       case Store(v) => y == Number(v) % m && e.res == Stored
  }

  lemma FieldApplyNumber(w: bv32, f: Field, op: Op)
    ensures var (y, r) := FieldApply(Get(w, f), f, op);
            var x, m := FieldNumber(w, f), Modulus(f);
            match op
            case Exchange(d) => Number(y) == Number(d) % m && Returns(r, x)
            case CompareExchange(c, d) =>
              if x == Number(c) % m then Number(y) == Number(d) % m && r == Swapped
              else r.Mismatch? && Number(r.x) == x
            case FetchAdd(v) => Number(y) == (x + Number(v)) % m && Returns(r, x)
            case FetchSub(v) => Number(y) == (x - Number(v)) % m && Returns(r, x)
            case Store(v) => Number(y) == Number(v) % m && r == Stored
  {
    hide Number, Get, Cast, Plus, Minus, FieldNumber;
    var x := Get(w, f);
    GetNumber(w, f);
    GetFits(w, f);
    CastNumber(x, f);
    match op
    case Exchange(d) => CastNumber(d, f);
    case CompareExchange(c, d) => CastNumber(c, f); CastNumber(d, f); SameNumber(x, Cast(c, f));
    case FetchAdd(v) => PlusNumber(x, v, f);
    case FetchSub(v) => MinusNumber(x, v, f);
    case Store(v) => CastNumber(v, f);
  }

  lemma ApplyDoes(w: bv32, e: Entry)
    requires e.res == WordApply(w, e.f, e.op).1
    ensures Does(w, WordApply(w, e.f, e.op).0, e)
  {
    hide Number, Get, Put, FieldApply, FieldNumber, Disjoint;
    var after := WordApply(w, e.f, e.op).0;
    FieldApplyNumber(w, e.f, e.op);
    GetNumber(after, e.f);
    ApplyIsLocal(w, e.f, e.op, e.f);
    forall g | Disjoint(g, e.f) ensures FieldNumber(after, g) == FieldNumber(w, g) {
      ApplyIsLocal(w, e.f, e.op, g);
      GetNumber(w, g);
      GetNumber(after, g);
    }
  }

  /** The words between the operations of a history. */
  ghost predicate Explains(words: seq<bv32>, log: seq<Entry>) {
    |words| == |log| + 1 && forall i :: 0 <= i < |log| ==> Does(words[i], words[i + 1], log[i])
  }

  /** Every run goes through words that begin with the first and end with the present one, from each to
      the next by one completed operation done in integer arithmetic modulo the width of its field. */
  lemma RunInNumbers(run: seq<State>, steps: seq<Step>, k: nat) returns (words: seq<bv32>)
    requires IsRun(run, steps) && k < |run|
    ensures Explains(words, run[k].log) && words[0] == run[0].word && words[|run[k].log|] == run[k].word
  {
    hide Does, WordApply, Legal, Inv;
    Linearizable(run, steps, k);
    var w, log := run[0].word, run[k].log;
    words := seq(|log| + 1, i requires 0 <= i <= |log| => Replay(w, log[..i]));
    assert log[..|log|] == log && log[..0] == [];
    forall i | 0 <= i < |log| ensures Does(words[i], words[i + 1], log[i]) {
      LegalAt(w, log, i);
      assert log[..i + 1][..i] == log[..i];
      ApplyDoes(words[i], log[i]);
    }
  }
}
