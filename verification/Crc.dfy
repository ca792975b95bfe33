/**
 The CRC-32 of IEEE 802.3 as utils/ime/airy_ime.c computes it, with a table of 256 words,
 against the shift register of the standard that takes in one message bit at a time.
 Words are naturals below 2^32.
 */
module Crc {
  import opened Bits

  const POLYNOMIAL := 0xEDB88320
  const ONES := 0xFFFFFFFF
  const U32 := 0x1_0000_0000

  // ----- The shift register -----

  /** The register takes in one message bit: feedback is the bit leaving it, exclusive-or the message bit. */
  function TakeBit(reg: nat, bit: nat): nat {
    if (reg + bit) % 2 == 1 then Xor(POLYNOMIAL, reg / 2) else reg / 2
  }

  /** The lowest `n` bits of `b`, least significant first. */
  function TakeBits(reg: nat, b: nat, n: nat): nat
    decreases n
  {
    if n == 0 then reg else TakeBits(TakeBit(reg, b % 2), b / 2, n - 1)
  }

  function TakeBytes(reg: nat, data: seq<Byte>): nat
    decreases |data|
  {
    if data == [] then reg else TakeBytes(TakeBits(reg, data[0], 8), data[1..])
  }

  /** The checksum of a message: register all ones, message bits in, result complemented. */
  function Checksum(data: seq<Byte>): nat {
    Xor(TakeBytes(ONES, data), ONES)
  }

  // ----- The table -----

  /** One round of the loop that fills the table. */
  function Round(c: nat): nat {
    if c % 2 == 1 then Xor(POLYNOMIAL, c / 2) else c / 2
  }

  function Rounds(c: nat, n: nat): nat
    decreases n
  {
    if n == 0 then c else Rounds(Round(c), n - 1)
  }

  method FillTable() returns (table: array<nat>)
    ensures table.Length == 256 && forall n: Byte :: table[n] == Rounds(n, 8)
    ensures fresh(table)
  {
    hide Round;
    table := new nat[256];
    for n := 0 to 256
      invariant forall m: Byte :: m < n ==> table[m] == Rounds(m, 8)
    {
      var c := n;
      for k := 0 to 8
        invariant Rounds(c, 8 - k) == Rounds(n, 8)
      {
        c := Round(c);
      }
      table[n] := c;
    }
  }

  lemma RoundXor(x: nat, y: nat)
    ensures Round(Xor(x, y)) == Xor(Round(x), Round(y))
  {
    hide Xor;
    var p, a, b := POLYNOMIAL, x / 2, y / 2;
    XorStep(x, y);
    XorAssoc(p, a, b);
    XorComm(p, b);
    XorAssoc(a, b, p);
    XorComm(Xor(a, b), p);
    XorComm(p, Xor(a, b));
    // both odd: the two feedback words cancel
    XorComm(p, a);
    XorAssoc(Xor(a, p), p, b);
    XorCancel(a, p);
  }

  lemma {:induction false} RoundsXor(x: nat, y: nat, n: nat)
    ensures Rounds(Xor(x, y), n) == Xor(Rounds(x, n), Rounds(y, n))
    decreases n
  {
    if n > 0 {
      hide Xor, Round;
      RoundXor(x, y);
      RoundsXor(Round(x), Round(y), n - 1);
    }
  }

  /** Rounds on a word whose lowest bits are clear only shift it. */
  lemma {:induction false} RoundsHigh(x: nat, n: nat)
    ensures Rounds(High(x, n), n) == Shr(x, n)
    decreases n
  {
    if n > 0 {
      RoundsHigh(x / 2, n - 1);
    }
  }

  /** Taking in the bits of `b` is doing rounds on the register exclusive-or `b`. */
  lemma {:induction false} BitsAreRounds(reg: nat, b: nat, n: nat)
    ensures Xor(TakeBits(reg, b, n), Shr(b, n)) == Rounds(Xor(reg, b), n)
    decreases n
  {
    if n > 0 {
      hide Xor;
      BitsAreRounds(TakeBit(reg, b % 2), b / 2, n - 1);
      XorStep(reg, b);
      OneBit(reg, b);
    }
  }

  lemma OneBit(reg: nat, b: nat)
    ensures Round(Xor(reg, b)) == Xor(TakeBit(reg, b % 2), b / 2)
  {
    hide Xor;
    XorStep(reg, b);
    XorAssoc(POLYNOMIAL, reg / 2, b / 2);
  }

  /** One step of the table loop takes in one byte. */
  lemma TableStep(reg: nat, b: Byte)
    ensures Low(Xor(reg, b), 8) < 256
    ensures Xor(Rounds(Low(Xor(reg, b), 8), 8), Shr(reg, 8)) == TakeBits(reg, b, 8)
  {
    hide Xor, Rounds, Low, High, TakeBits, Shr;
    var x := Xor(reg, b);
    Pow2Is256();
    LowBound(x, 8);
    LowHigh(x, 8);
    RoundsXor(Low(x, 8), High(x, 8), 8);
    RoundsHigh(x, 8);
    XorShr(reg, b, 8);
    ShrOut(b, 8);
    XorZero(Shr(reg, 8));
    BitsAreRounds(reg, b, 8);
    XorZero(TakeBits(reg, b, 8));
  }

  /** `airy_ime_crc32` computes the checksum of the standard. */
  method Crc32(data: seq<Byte>) returns (crc: nat)
    ensures crc == Checksum(data)
  {
    hide Xor, Rounds, Low, TakeBits, Shr;
    var table := FillTable();
    crc := ONES;
    for i := 0 to |data|
      modifies {}
      invariant TakeBytes(crc, data[i..]) == TakeBytes(ONES, data)
    {
      TableStep(crc, data[i]);
      assert data[i..][0] == data[i] && data[i..][1..] == data[i + 1..];
      var at: Byte := Low(Xor(crc, data[i]), 8);
      crc := Xor(table[at], Shr(crc, 8));
    }
    crc := Xor(crc, ONES);
  }

  // ----- What the checksum tells apart -----

  lemma {:induction false} TopBit(x: nat, n: nat)
    requires Pow2(n) <= x < 2 * Pow2(n)
    ensures Shr(x, n) == 1
    decreases n
  {
    if n > 0 { TopBit(x / 2, n - 1); }
  }

  /** A round can be undone: the top bit of the result tells the bit that left the register. */
  lemma RoundInjective(x: nat, y: nat)
    requires x < U32 && y < U32 && Round(x) == Round(y)
    ensures x == y
  {
    hide Xor, Shr;
    FeedbackShows(x / 2);
    FeedbackShows(y / 2);
    XorComm(POLYNOMIAL, x / 2);
    XorComm(POLYNOMIAL, y / 2);
    XorCancel(x / 2, POLYNOMIAL);
    XorCancel(y / 2, POLYNOMIAL);
  }

  lemma FeedbackShows(a: nat)
    requires a < 0x8000_0000
    ensures Shr(a, 31) == 0 && Shr(Xor(POLYNOMIAL, a), 31) == 1
  {
    hide Xor, Shr;
    Pow2Is31();
    ShrOut(a, 31);
    TopBit(POLYNOMIAL, 31);
    XorShr(POLYNOMIAL, a, 31);
    XorZero(1);
  }

  lemma Pow2Is31()
    ensures Pow2(31) == 0x8000_0000 && Pow2(32) == U32
  {
    assert Pow2(7) == 128;
    hide Pow2;
    Pow2Is256();
    Pow2Add(8, 8);
    Pow2Add(16, 8);
    Pow2Add(24, 7);
    Pow2Add(24, 8);
  }

  lemma RoundBound(x: nat)
    requires x < U32
    ensures Round(x) < U32
  {
    hide Xor;
    Pow2Is31();
    XorBound(POLYNOMIAL, x / 2, 32);
  }

  lemma {:induction false} RoundsInjective(x: nat, y: nat, n: nat)
    requires x < U32 && y < U32
    ensures Rounds(x, n) < U32
    ensures Rounds(x, n) == Rounds(y, n) ==> x == y
    decreases n
  {
    if n > 0 {
      hide Round;
      RoundBound(x);
      RoundBound(y);
      RoundsInjective(Round(x), Round(y), n - 1);
      if Round(x) == Round(y) {
        RoundInjective(x, y);
      }
    }
  }

  lemma TakeByteIsRounds(reg: nat, b: Byte)
    ensures TakeBits(reg, b, 8) == Rounds(Xor(reg, b), 8)
  {
    hide Xor, Rounds, TakeBits, Shr;
    Pow2Is256();
    BitsAreRounds(reg, b, 8);
    ShrOut(b, 8);
    XorZero(TakeBits(reg, b, 8));
  }

  /** Different registers, or different bytes into the same register, stay different. */
  lemma ByteKeepsApart(p: nat, b: Byte, q: nat, c: Byte)
    requires p < U32 && q < U32
    ensures TakeBits(p, b, 8) < U32
    ensures (p == q && b != c) || (p != q && b == c) ==> TakeBits(p, b, 8) != TakeBits(q, c, 8)
  {
    hide Xor, Rounds, TakeBits;
    TakeByteIsRounds(p, b);
    TakeByteIsRounds(q, c);
    Pow2Is31();
    XorBound(p, b, 32);
    XorBound(q, c, 32);
    RoundsInjective(Xor(p, b), Xor(q, c), 8);
    XorCancel(p, b);
    XorCancel(q, c);
    XorComm(p, b);
    XorComm(q, c);
    XorCancel(b, p);
    XorCancel(c, q);
  }

  lemma {:induction false} SuffixKeepsApart(p: nat, q: nat, data: seq<Byte>)
    requires p < U32 && q < U32 && p != q
    ensures TakeBytes(p, data) != TakeBytes(q, data)
    decreases |data|
  {
    if data != [] {
      hide TakeBits;
      ByteKeepsApart(p, data[0], q, data[0]);
      ByteKeepsApart(q, data[0], p, data[0]);
      SuffixKeepsApart(TakeBits(p, data[0], 8), TakeBits(q, data[0], 8), data[1..]);
    }
  }

  lemma {:induction false} ChangeShows(reg: nat, data: seq<Byte>, i: nat, b: Byte)
    requires reg < U32 && i < |data| && b != data[i]
    ensures TakeBytes(reg, data[i := b]) != TakeBytes(reg, data)
    decreases |data|
  {
    hide TakeBits;
    var changed := data[i := b];
    ByteKeepsApart(reg, data[0], reg, changed[0]);
    ByteKeepsApart(reg, changed[0], reg, data[0]);
    if i == 0 {
      assert changed[1..] == data[1..];
      SuffixKeepsApart(TakeBits(reg, b, 8), TakeBits(reg, data[0], 8), data[1..]);
    } else {
      assert changed[1..] == data[1..][i - 1 := b];
      ChangeShows(TakeBits(reg, data[0], 8), data[1..], i - 1, b);
    }
  }

  /** Changing one byte of a message of any length changes its checksum. */
  lemma OneByteChangesChecksum(data: seq<Byte>, i: nat, b: Byte)
    requires i < |data| && b != data[i]
    ensures Checksum(data[i := b]) != Checksum(data)
  {
    hide Xor, TakeBytes;
    ChangeShows(ONES, data, i, b);
    XorCancel(TakeBytes(ONES, data), ONES);
    XorCancel(TakeBytes(ONES, data[i := b]), ONES);
  }

  lemma {:induction false} TakeBytesBound(reg: nat, data: seq<Byte>)
    requires reg < U32
    ensures TakeBytes(reg, data) < U32
    decreases |data|
  {
    if data != [] {
      hide TakeBits;
      ByteKeepsApart(reg, data[0], reg, data[0]);
      TakeBytesBound(TakeBits(reg, data[0], 8), data[1..]);
    }
  }

  lemma ChecksumBound(data: seq<Byte>)
    ensures Checksum(data) < U32
  {
    hide Xor, TakeBytes;
    Pow2Is31();
    TakeBytesBound(ONES, data);
    XorBound(TakeBytes(ONES, data), ONES, 32);
  }

  // ----- A check value -----

  lemma {:induction false} XorOnes(x: nat, n: nat)
    requires x < Pow2(n)
    ensures Xor(x, Pow2(n) - 1) == Pow2(n) - 1 - x
    decreases n
  {
    hide Xor;
    if n == 0 {
      XorZero(0);
    } else {
      var m := Pow2(n - 1);
      assert Pow2(n) == 2 * m;
      XorOnes(x / 2, n - 1);
      hide Pow2;
      XorUnfold(x, 2 * m - 1);
      OddOnes(x, m);
    }
  }

  lemma OddOnes(x: nat, m: nat)
    requires m > 0
    ensures (2 * m - 1) / 2 == m - 1 && (x + (2 * m - 1)) % 2 == 1 - x % 2
  {
  }

  lemma OneShiftsOut(m: nat, bit: nat)
    requires m > 0 && bit == 1
    ensures TakeBit(2 * m - 1, bit) == m - 1
  {
    hide Xor;
    assert (2 * m - 1 + bit) % 2 == 0;
    OddOnes(0, m);
  }

  /** A register of `n` ones takes in `k` one bits by shifting. */
  lemma {:induction false} OnesShiftOut(n: nat, b: nat, k: nat)
    requires k <= n && b == Pow2(k) - 1
    ensures TakeBits(Pow2(n) - 1, b, k) == Pow2(n - k) - 1
    decreases k
  {
    hide TakeBit;
    if k > 0 {
      var m, h := Pow2(n - 1), Pow2(k - 1);
      assert Pow2(n) == 2 * m && b == 2 * h - 1;
      hide Pow2;
      OddOnes(0, h);
      OneShiftsOut(m, b % 2);
      OnesShiftOut(n - 1, h - 1, k - 1);
    }
  }

  /** An empty register that takes in 0, ..., 0, 1 holds the feedback word. */
  lemma LastBitFeedsBack()
    ensures TakeBits(0, 128, 8) == POLYNOMIAL
  {
    XorZero(POLYNOMIAL);
    hide Xor;
    assert TakeBit(0, 0) == 0 && TakeBit(0, 1) == POLYNOMIAL;
    hide TakeBit;
    assert TakeBits(POLYNOMIAL, 0, 0) == POLYNOMIAL;
    assert TakeBits(0, 2, 2) == POLYNOMIAL;
    assert TakeBits(0, 8, 4) == POLYNOMIAL;
    assert TakeBits(0, 32, 6) == POLYNOMIAL;
  }

  lemma OnesBytes()
    ensures TakeBits(ONES, 255, 8) == Pow2(24) - 1 && TakeBits(Pow2(24) - 1, 255, 8) == Pow2(16) - 1
    ensures TakeBits(Pow2(16) - 1, 255, 8) == 255 && TakeBits(255, 255, 8) == 0
  {
    hide TakeBits, Pow2;
    Pow2Is256();
    Pow2Is31();
    OnesShiftOut(32, 255, 8);
    OnesShiftOut(24, 255, 8);
    OnesShiftOut(16, 255, 8);
    OnesShiftOut(8, 255, 8);
    assert Pow2(0) == 1 by { PowersSmall(); }
  }

  lemma PowersSmall() ensures Pow2(0) == 1 && Pow2(1) == 2 {}

  lemma TakeByte(reg: nat, data: seq<Byte>)
    requires data != []
    ensures TakeBytes(reg, data) == TakeBytes(TakeBits(reg, data[0], 8), data[1..])
  {
  }

  /** The message FF FF FF FF 80 empties the register and then feeds back once: initial value, bit order,
      generator and final complement all show in its checksum. */
  lemma CheckValue()
    ensures Checksum([255, 255, 255, 255, 128]) == 0x12477CDF
  {
    hide TakeBits, TakeBytes, Xor, Pow2;
    var data: seq<Byte> := [255, 255, 255, 255, 128];
    OnesBytes();
    LastBitFeedsBack();
    TakeByte(ONES, data);
    TakeByte(Pow2(24) - 1, data[1..]);
    TakeByte(Pow2(16) - 1, data[2..]);
    TakeByte(255, data[3..]);
    TakeByte(0, data[4..]);
    assert data[1..][1..] == data[2..] && data[2..][1..] == data[3..] && data[3..][1..] == data[4..];
    assert data[4..][1..] == [];
    NoBytes(POLYNOMIAL);
    Pow2Is31();
    XorOnes(POLYNOMIAL, 32);
  }

  lemma NoBytes(reg: nat) ensures TakeBytes(reg, []) == reg {}
}
