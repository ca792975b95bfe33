/**
 Decimal and hexadecimal text of numbers, as printf writes it and the hand-written parsers
 of the library read it.
 */
module Decimal {

  const U64 := 0x1_0000_0000_0000_0000

  predicate IsDigit(c: char) {
    '0' <= c <= '9'
  }

  predicate AllDigits(s: string) {
    forall k :: 0 <= k < |s| ==> IsDigit(s[k])
  }

  function DigitChar(d: nat): (c: char)
    requires d < 10
    ensures IsDigit(c) && DigitVal(c) == d
  {
    '0' + d as char
  }

  function DigitVal(c: char): nat
    requires IsDigit(c)
  {
    (c - '0') as nat
  }

  /** `%llu` */
  function Print(n: nat): (s: string)
    ensures s != "" && AllDigits(s)
  {
    if n < 10 then [DigitChar(n)] else Print(n / 10) + [DigitChar(n % 10)]
  }

  /** The number a digit string denotes. */
  function Value(s: string): nat
    requires AllDigits(s)
  {
    if s == "" then 0 else Value(s[..|s| - 1]) * 10 + DigitVal(s[|s| - 1])
  }

  lemma {:induction false} PrintValue(n: nat)
    ensures Value(Print(n)) == n
    decreases n
  {
    var s := Print(n);
    if n < 10 {
      assert s[..0] == "";
    } else {
      PrintValue(n / 10);
      assert s[..|s| - 1] == Print(n / 10);
    }
  }

  function Pow10(n: nat): nat {
    if n == 0 then 1 else 10 * Pow10(n - 1)
  }

  /** Positional notation: the code of each character less that of '0', times its power of ten. */
  function Places(s: string): int {
    PlacesFrom(s, 0)
  }

  function PlacesFrom(s: string, k: nat): int
    requires k <= |s|
    decreases |s| - k
  {
    if k == |s| then 0 else (s[k] as int - 48) * Pow10(|s| - 1 - k) + PlacesFrom(s, k + 1)
  }

  lemma {:induction false} PlacesAppend(s: string, c: char, k: nat)
    requires k <= |s|
    ensures PlacesFrom(s + [c], k) == 10 * PlacesFrom(s, k) + (c as int - 48)
    decreases |s| - k
  {
    var t := s + [c];
    if k == |s| {
      assert PlacesFrom(t, k + 1) == 0 && Pow10(0) == 1;
    } else {
      PlacesAppend(s, c, k + 1);
      TenTimes(s[k] as int - 48, Pow10(|s| - 1 - k), PlacesFrom(s, k + 1));
    }
  }

  lemma TenTimes(d: int, p: nat, rest: int)
    ensures d * (10 * p) + 10 * rest == 10 * (d * p + rest)
  {
  }

  /** A digit string denotes what positional notation says. */
  lemma {:induction false} ValueIsPlaces(s: string)
    requires AllDigits(s)
    ensures Value(s) == Places(s)
    decreases |s|
  {
    if s != "" {
      var front := s[..|s| - 1];
      ValueIsPlaces(front);
      PlacesAppend(front, s[|s| - 1], 0);
      assert s == front + [s[|s| - 1]];
    }
  }

  /** A number is printed without leading zeros. */
  predicate NoLeadingZero(s: string) {
    s != "" && AllDigits(s) && (|s| > 1 ==> s[0] != '0')
  }

  lemma {:induction false} PrintNoLeadingZero(n: nat)
    ensures NoLeadingZero(Print(n)) && (n > 0 ==> Print(n)[0] != '0')
    decreases n
  {
    if n >= 10 {
      PrintNoLeadingZero(n / 10);
      assert Print(n)[0] == Print(n / 10)[0];
    }
  }

  /** The printed text of a number is the one text without leading zeros that denotes it. */
  lemma {:induction false} PrintIs(n: nat, s: string)
    ensures s == Print(n) <==> NoLeadingZero(s) && Places(s) == n
    decreases |s|
  {
    PrintNoLeadingZero(n);
    PrintValue(n);
    ValueIsPlaces(Print(n));
    if NoLeadingZero(s) && Places(s) == n {
      ValueIsPlaces(s);
      SameText(s, Print(n));
    }
  }

  lemma {:induction false} SameText(s: string, t: string)
    requires NoLeadingZero(s) && NoLeadingZero(t) && Value(s) == Value(t)
    ensures s == t
    decreases |s|
  {
    if |s| == 1 || |t| == 1 {
      LongIsLarge(s);
      LongIsLarge(t);
      assert |s| == |t| == 1 && s[..0] == "" && t[..0] == "";
    } else {
      SameText(s[..|s| - 1], t[..|t| - 1]);
      assert s == s[..|s| - 1] + [s[|s| - 1]] && t == t[..|t| - 1] + [t[|t| - 1]];
    }
  }

  lemma {:induction false} LongIsLarge(s: string)
    requires NoLeadingZero(s)
    ensures if |s| == 1 then Value(s) < 10 else Value(s) >= 10
    decreases |s|
  {
    if |s| == 1 {
      assert s[..0] == "";
    } else if |s| == 2 {
      assert s[..1][..0] == "" && Value(s[..1]) == DigitVal(s[0]);
    } else {
      LongIsLarge(s[..|s| - 1]);
    }
  }

  function Zeros(k: nat): (s: string)
    ensures |s| == k && AllDigits(s)
    ensures forall i :: 0 <= i < k ==> s[i] == '0'
  {
    if k == 0 then "" else Zeros(k - 1) + "0"
  }

  /** `%0<w>u`: the number with zeros in front of it up to the width. */
  function PrintPadded(n: nat, w: nat): (s: string)
    ensures s != "" && AllDigits(s)
  {
    var p := Print(n);
    if |p| < w then Zeros(w - |p|) + p else p
  }

  /** A padded number is at least `w` wide and is the number behind zeros. */
  lemma PaddedIs(n: nat, w: nat)
    ensures var s, p := PrintPadded(n, w), Print(n);
            && |s| == (if |p| < w then w else |p|) && s[|s| - |p|..] == p
            && forall i :: 0 <= i < |s| - |p| ==> s[i] == '0'
  {
    hide Print, Zeros;
    var s, p := PrintPadded(n, w), Print(n);
    assert s[|s| - |p|..] == p;
  }

  lemma {:induction false} ZerosValue(k: nat)
    ensures Value(Zeros(k)) == 0
  {
    if k > 0 {
      ZerosValue(k - 1);
      assert Zeros(k)[..k - 1] == Zeros(k - 1);
    }
  }

  lemma {:induction false} ZerosInFront(k: nat, s: string)
    requires AllDigits(s)
    ensures AllDigits(Zeros(k) + s) && Value(Zeros(k) + s) == Value(s)
    decreases |s|
  {
    var t := Zeros(k) + s;
    if s == "" {
      assert t == Zeros(k);
      ZerosValue(k);
    } else {
      ZerosInFront(k, s[..|s| - 1]);
      assert t[..|t| - 1] == Zeros(k) + s[..|s| - 1];
    }
  }

  /** Padding does not change the number. */
  lemma PaddedValue(n: nat, w: nat)
    ensures Value(PrintPadded(n, w)) == n
  {
    hide Value, Print, Zeros;
    PrintValue(n);
    if |Print(n)| < w {
      ZerosInFront(w - |Print(n)|, Print(n));
    }
  }

  /** The digit loops of the library on 64-bit unsigned integers. */
  method ParseDigits(s: string, from: nat, upto: nat) returns (ok: bool, v: nat)
    requires from <= upto <= |s|
    ensures ok <==> AllDigits(s[from..upto])
    ensures ok ==> v == Value(s[from..upto]) % U64 == Places(s[from..upto]) % U64
  {
    hide Value, Places;
    v := 0;
    var i := from;
    NoDigits(s[from..from]);
    while i < upto
      invariant from <= i <= upto && AllDigits(s[from..i]) && v == Value(s[from..i]) % U64
    {
      if !IsDigit(s[i]) {
        assert s[from..upto][i - from] == s[i];
        return false, 0;
      }
      OneDigit(s, from, i);
      Wrap(Value(s[from..i]), DigitVal(s[i]));
      v := (v * 10 + DigitVal(s[i])) % U64;
      i := i + 1;
    }
    ValueIsPlaces(s[from..upto]);
    ok := true;
  }

  lemma NoDigits(s: string)
    requires s == ""
    ensures AllDigits(s) && Value(s) == 0
  {
  }

  lemma OneDigit(s: string, from: nat, i: nat)
    requires from <= i < |s| && AllDigits(s[from..i]) && IsDigit(s[i])
    ensures AllDigits(s[from..i + 1]) && Value(s[from..i + 1]) == Value(s[from..i]) * 10 + DigitVal(s[i])
  {
    var t := s[from..i + 1];
    assert t[..|t| - 1] == s[from..i] && t[|t| - 1] == s[i];
    assert forall k :: 0 <= k < |t| - 1 ==> t[k] == s[from..i][k];
  }

  lemma Wrap(x: nat, d: nat)
    ensures ((x % U64) * 10 + d) % U64 == (x * 10 + d) % U64
  {
    var q := x / U64;
    assert x == q * U64 + x % U64;
    assert x * 10 + d == (x % U64) * 10 + d + U64 * (10 * q);
    AddMultiple((x % U64) * 10 + d, 10 * q);
  }

  lemma AddMultiple(a: nat, k: nat)
    ensures (a + U64 * k) % U64 == a % U64
  {
  }
}
