/**
 Exclusive or and right shift on natural numbers, bit by bit, and multiplication by odd
 constants modulo 2^64: what is needed to see that a 64-bit mixer loses nothing.
 */
module Bits {

  type Byte = b: int | 0 <= b < 256

  const U64 := 0x1_0000_0000_0000_0000

  function Pow2(n: nat): (r: nat)
    ensures r > 0
  {
    if n == 0 then 1 else 2 * Pow2(n - 1)
  }

  lemma Pow2Is64()
    ensures Pow2(64) == U64
  {
    hide Pow2;
    Pow2Is256();
    Pow2Add(8, 8);
    Pow2Add(16, 16);
    Pow2Add(32, 32);
  }

  lemma Pow2Is256()
    ensures Pow2(8) == 256
  {
  }

  lemma {:induction false} Pow2Add(a: nat, b: nat)
    ensures Pow2(a + b) == Pow2(a) * Pow2(b)
    decreases a
  {
    if a > 0 {
      Pow2Add(a - 1, b);
    }
  }

  /** `x ^ y` */
  function Xor(x: nat, y: nat): nat
    decreases x + y
  {
    if x == 0 && y == 0 then 0 else (x + y) % 2 + 2 * Xor(x / 2, y / 2)
  }

  /** `x >> n` */
  function Shr(x: nat, n: nat): nat
    decreases n
  {
    if n == 0 then x else Shr(x / 2, n - 1)
  }

  lemma {:induction false} XorUnfold(x: nat, y: nat)
    ensures Xor(x, y) == (x + y) % 2 + 2 * Xor(x / 2, y / 2)
  {
  }

  lemma XorStep(x: nat, y: nat)
    ensures Xor(x, y) % 2 == (x + y) % 2 && Xor(x, y) / 2 == Xor(x / 2, y / 2)
  {
    hide Xor;
    XorUnfold(x, y);
    Halves(Xor(x, y), (x + y) % 2, Xor(x / 2, y / 2));
  }

  lemma Halves(a: nat, bit: nat, half: nat)
    requires bit < 2 && a == bit + 2 * half
    ensures a % 2 == bit && a / 2 == half
  {
  }

  lemma {:induction false} XorZero(x: nat)
    ensures Xor(x, 0) == x
    decreases x
  {
    if x > 0 { XorZero(x / 2); }
  }

  lemma {:induction false} XorCancel(x: nat, y: nat)
    ensures Xor(Xor(x, y), y) == x
    decreases x + y
  {
    if x + y == 0 {
    } else {
      hide Xor;
      XorCancel(x / 2, y / 2);
      XorStep(x, y);
      XorUnfold(Xor(x, y), y);
      ParityBack(x, y, Xor(x, y));
    }
  }

  lemma ParityBack(x: nat, y: nat, z: nat)
    requires z % 2 == (x + y) % 2
    ensures (z + y) % 2 == x % 2
  {
  }

  lemma {:induction false} XorShr(x: nat, y: nat, n: nat)
    ensures Shr(Xor(x, y), n) == Xor(Shr(x, n), Shr(y, n))
    decreases n
  {
    if n > 0 {
      XorStep(x, y);
      XorShr(x / 2, y / 2, n - 1);
    }
  }

  lemma {:induction false} ShrOut(x: nat, n: nat)
    requires x < Pow2(n)
    ensures Shr(x, n) == 0
    decreases n
  {
    if n > 0 {
      ShrOut(x / 2, n - 1);
    }
  }

  lemma {:induction false} ShrBound(x: nat, n: nat)
    ensures Shr(x, n) <= x
    decreases n
  {
    if n > 0 {
      ShrBound(x / 2, n - 1);
    }
  }

  lemma {:induction false} XorBound(x: nat, y: nat, n: nat)
    requires x < Pow2(n) && y < Pow2(n)
    ensures Xor(x, y) < Pow2(n)
    decreases n
  {
    if n > 0 {
      XorStep(x, y);
      XorBound(x / 2, y / 2, n - 1);
    }
  }

  lemma {:induction false} Pow2Mono(a: nat, b: nat)
    requires a <= b
    ensures Pow2(a) <= Pow2(b)
    decreases b
  {
    if a < b {
      Pow2Mono(a, b - 1);
    }
  }

  lemma {:induction false} XorComm(x: nat, y: nat)
    ensures Xor(x, y) == Xor(y, x)
    decreases x + y
  {
    if x + y > 0 {
      XorComm(x / 2, y / 2);
    }
  }

  lemma {:induction false} XorAssoc(x: nat, y: nat, z: nat)
    ensures Xor(Xor(x, y), z) == Xor(x, Xor(y, z))
    decreases x + y + z
  {
    if x + y + z == 0 {
    } else {
      hide Xor;
      var xy, yz := Xor(x, y), Xor(y, z);
      XorAssoc(x / 2, y / 2, z / 2);
      assert Xor(xy, z) == (xy + z) % 2 + 2 * Xor(Xor(x / 2, y / 2), z / 2) by {
        XorStep(x, y);
        XorUnfold(xy, z);
      }
      assert Xor(x, yz) == (x + yz) % 2 + 2 * Xor(x / 2, Xor(y / 2, z / 2)) by {
        XorStep(y, z);
        XorUnfold(x, yz);
      }
      assert (xy + z) % 2 == (x + yz) % 2 by {
        XorStep(x, y);
        XorStep(y, z);
        SumParity(x, y, z, xy, yz);
      }
    }
  }

  lemma SumParity(x: nat, y: nat, z: nat, xy: nat, yz: nat)
    requires xy % 2 == (x + y) % 2 && yz % 2 == (y + z) % 2
    ensures (xy + z) % 2 == (x + yz) % 2
  {
  }

  /** `x & (2^n - 1)` */
  function Low(x: nat, n: nat): nat
    decreases n
  {
    if n == 0 then 0 else x % 2 + 2 * Low(x / 2, n - 1)
  }

  /** `x` with its lowest `n` bits cleared. */
  function High(x: nat, n: nat): nat
    decreases n
  {
    if n == 0 then x else 2 * High(x / 2, n - 1)
  }

  lemma {:induction false} LowBound(x: nat, n: nat)
    ensures Low(x, n) < Pow2(n)
    decreases n
  {
    if n > 0 { LowBound(x / 2, n - 1); }
  }

  lemma {:induction false} LowHigh(x: nat, n: nat)
    ensures Xor(Low(x, n), High(x, n)) == x
    decreases n
  {
    if n == 0 {
      XorComm(0, x);
      XorZero(x);
    } else {
      LowHigh(x / 2, n - 1);
      LowHighStep(x, Low(x / 2, n - 1), High(x / 2, n - 1));
    }
  }

  /** Prepending the lowest bit to a split number. */
  lemma LowHighStep(x: nat, low: nat, high: nat)
    requires Xor(low, high) == x / 2
    ensures Xor(x % 2 + 2 * low, 2 * high) == x
  {
    hide Xor;
    var a, b := x % 2 + 2 * low, 2 * high;
    Halves(a, x % 2, low);
    Halves(b, 0, high);
    XorUnfold(a, b);
    Halves(a + b, x % 2, low + high);
  }

  /** `x ^ (x >> n)` */
  function XorShift(x: nat, n: nat): nat {
    Xor(x, Shr(x, n))
  }

  lemma XorShiftBound(x: nat, n: nat)
    requires x < U64
    ensures XorShift(x, n) < U64
  {
    Pow2Is64();
    ShrBound(x, n);
    XorBound(x, Shr(x, n), 64);
  }

  lemma {:induction false} ShrTwice(x: nat, n: nat, m: nat)
    ensures Shr(Shr(x, n), m) == Shr(x, n + m)
    decreases n
  {
    if n > 0 { ShrTwice(x / 2, n - 1, m); }
  }

  /** `y ^ (y >> n) ^ (y >> 2n)` */
  function Unshift(y: nat, n: nat): nat {
    Xor(Xor(y, Shr(y, n)), Shr(y, 2 * n))
  }

  /** It undoes a xorshift by at least a third of the width. */
  lemma UnshiftUndoes(x: nat, n: nat)
    requires x < U64 && 3 * n >= 64
    ensures Unshift(XorShift(x, n), n) == x
  {
    hide Xor, Shr, Pow2;
    var a, b, c := x, Shr(x, n), Shr(x, 2 * n);
    Pow2Is64();
    Pow2Mono(64, 3 * n);
    ShrOut(x, 3 * n);
    ShrTwice(x, n, n);
    ShrTwice(x, n, 2 * n);
    XorShr(a, b, n);
    XorShr(a, b, 2 * n);
    XorZero(c);
    XorAssoc(Xor(a, b), Xor(b, c), c);
    XorCancel(b, c);
    XorCancel(a, b);
  }

  /** Multiplying by a number that has an inverse modulo 2^64 loses nothing. */
  lemma MulInjective(c: nat, inv: nat, q: nat, x: nat, y: nat)
    requires c * inv == 1 + U64 * q && x < U64 && y < U64 && (x * c) % U64 == (y * c) % U64
    ensures x == y
  {
    MulBack(c, inv, q, x);
    MulBack(c, inv, q, y);
  }

  lemma MulBack(c: nat, inv: nat, q: nat, x: nat)
    requires c * inv == 1 + U64 * q && x < U64
    ensures ((x * c) % U64 * inv) % U64 == x
  {
    var t := (x * c) / U64;
    var r := (x * c) % U64;
    assert x * c == U64 * t + r;
    assert (x * c) * inv == x * (c * inv) by { MulAssoc(x, c, inv); }
    assert x * (1 + U64 * q) == x + U64 * (x * q) by { Distribute(x, q); }
    assert (U64 * t + r) * inv == U64 * (t * inv) + r * inv by { Spread(t, r, inv); }
    assert r * inv == x + U64 * (x * q - t * inv);
    Remainder(r * inv, x, x * q - t * inv);
  }

  lemma MulAssoc(x: nat, y: nat, z: nat) ensures (x * y) * z == x * (y * z) {}
  lemma Distribute(x: nat, q: nat) ensures x * (1 + U64 * q) == x + U64 * (x * q) {}
  lemma Spread(t: nat, r: nat, inv: nat) ensures (U64 * t + r) * inv == U64 * (t * inv) + r * inv {}

  lemma Remainder(a: nat, x: nat, k: int)
    requires a == x + U64 * k && x < U64
    ensures a % U64 == x
  {
  }
}
