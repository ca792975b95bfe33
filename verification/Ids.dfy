/**
 Trace ids and message ids (utils/id/airy_id.c): the mixer that makes trace ids, serial runs
 of the generator, and the textual names of ids with their hexadecimal parsers.
 */
module Ids {
  import opened Bits

  /** The increment of the state, also the seed of last resort. */
  const STEP := 0x9E3779B97F4A7C15
  const STEP_INVERSE := 0xF1DE83E19937733D

  const MUL_1 := 0xBF58476D1CE4E5B9
  const MUL_2 := 0x94D049BB133111EB

  // ----- The mixer -----

  function Times(x: nat, c: nat): nat {
    (x * c) % U64
  }

  /** The three mixing lines applied to a new state. */
  function Mix(z: nat): nat {
    XorShift(Times(XorShift(Times(XorShift(z, 30), MUL_1), 27), MUL_2), 31)
  }

  const MUL_1_INVERSE := 0x96DE1B173F119089
  const MUL_2_INVERSE := 0x319642B2D24D8EC3

  /** The mixing lines backwards. */
  function Unmix(id: nat): nat {
    Unshift(Times(Unshift(Times(Unshift(id, 31), MUL_2_INVERSE), 27), MUL_1_INVERSE), 30)
  }

  /** An id tells the state that made it. */
  lemma UnmixUndoes(z: nat)
    requires z < U64
    ensures Unmix(Mix(z)) == z
  {
    hide XorShift, Unshift;
    var a := XorShift(z, 30);
    XorShiftBound(z, 30);
    var b := Times(a, MUL_1);
    var c := XorShift(b, 27);
    XorShiftBound(b, 27);
    var d := Times(c, MUL_2);
    UnshiftUndoes(d, 31);
    MulBack(MUL_2, MUL_2_INVERSE, 0x1CD336EDA85F1453, c);
    UnshiftUndoes(b, 27);
    MulBack(MUL_1, MUL_1_INVERSE, 0x70C3BCA78F27F46C, a);
    UnshiftUndoes(z, 30);
  }

  /** So the mixer is one to one on 64-bit words. */
  lemma MixInjective(x: nat, y: nat)
    requires x < U64 && y < U64 && Mix(x) == Mix(y)
    ensures x == y
  {
    hide Mix, Unmix;
    UnmixUndoes(x);
    UnmixUndoes(y);
  }

  lemma {:induction false} ShrZero(n: nat)
    ensures Shr(0, n) == 0
    decreases n
  {
    if n > 0 { ShrZero(n - 1); }
  }

  lemma MixZero()
    ensures Mix(0) == 0
  {
    hide XorShift;
    ShiftZero(30);
    ShiftZero(27);
    ShiftZero(31);
  }

  lemma ShiftZero(n: nat)
    ensures XorShift(0, n) == 0
  {
    hide Shr;
    ShrZero(n);
    XorZero(0);
  }

  /** The all-zero id, which stands for "no id", is generated exactly when the state becomes zero. */
  lemma NullIdIffZeroState(state: nat)
    requires state < U64
    ensures Mix(state) == 0 <==> state == 0
  {
    MixZero();
    if Mix(state) == 0 {
      MixInjective(state, 0);
    }
  }

  // ----- Serial runs -----

  /** `raw` is what time and code address give; zero is replaced. */
  function Seed(raw: nat): nat {
    if raw != 0 then raw else STEP
  }

  /** The state after one call. */
  function Next(state: nat, raw: nat): nat {
    ((if state != 0 then state else Seed(raw)) + STEP) % U64
  }

  /** The states after each of a run of calls. */
  function States(state: nat, raws: seq<nat>): (r: seq<nat>)
    ensures |r| == |raws|
    decreases |raws|
  {
    if raws == [] then [] else [Next(state, raws[0])] + States(Next(state, raws[0]), raws[1..])
  }

  class Generator {
    var state: nat

    /** `airy_trace_id_generate` with no other caller in between. */
    method Generate(raw: nat) returns (id: nat)
      requires state < U64 && raw < U64
      modifies this
      ensures state == Next(old(state), raw) && state < U64
      ensures id == Mix(state)
    {
      if state == 0 {
        var seed := raw;
        if seed == 0 {
          seed := STEP;
        }
        state := seed;
      }
      state := (state + STEP) % U64;
      id := Mix(state);
    }

    /** A serial run: one id per call, each the mix of the state that call left behind; ids repeat only
        after a null id. */
    method GenerateAll(raws: seq<nat>) returns (ids: seq<nat>)
      requires state < U64 && forall k :: 0 <= k < |raws| ==> raws[k] < U64
      modifies this
      ensures |ids| == |raws| && forall k :: 0 <= k < |ids| ==> ids[k] == Mix(States(old(state), raws)[k])
      ensures forall i, j :: 0 <= i < j < |ids| && (forall k :: i <= k < j ==> ids[k] != 0) ==> ids[i] != ids[j]
    {
      hide Mix, States, Next;
      ids := [];
      ghost var start, all := state, States(state, raws);
      for i := 0 to |raws|
        invariant state < U64 && |ids| == i && state == (if i == 0 then start else all[i - 1])
        invariant forall k :: 0 <= k < i ==> ids[k] == Mix(all[k])
      {
        if i == 0 {
          FirstState(start, raws);
        } else {
          StatesStep(start, raws, i);
        }
        var id := Generate(raws[i]);
        ids := ids + [id];
      }
      IdsDistinct(old(state), raws, ids);
    }
  }

  /** As long as the state does not return to zero it only advances by the step. */
  lemma {:induction false} Advance(state: nat, raws: seq<nat>, i: nat, j: nat)
    requires state < U64 && i <= j < |raws|
    requires forall k :: i <= k < j ==> States(state, raws)[k] != 0
    ensures States(state, raws)[j] == (States(state, raws)[i] + (j - i) * STEP) % U64
    ensures States(state, raws)[i] < U64
    decreases j
  {
    if i > 0 {
      var next := Next(state, raws[0]);
      forall k | i - 1 <= k < j - 1 ensures States(next, raws[1..])[k] != 0 {
        assert States(state, raws)[k + 1] == States(next, raws[1..])[k];
      }
      Advance(next, raws[1..], i - 1, j - 1);
    } else if j > 0 {
      Advance(state, raws, 0, j - 1);
      StatesStep(state, raws, j);
      AddOnce(States(state, raws)[0], j - 1);
    }
  }

  lemma {:induction false} StatesStep(state: nat, raws: seq<nat>, j: nat)
    requires 0 < j < |raws|
    ensures States(state, raws)[j] == Next(States(state, raws)[j - 1], raws[j])
    decreases j
  {
    if j > 1 {
      StatesStep(Next(state, raws[0]), raws[1..], j - 1);
    }
  }

  lemma FirstState(state: nat, raws: seq<nat>)
    requires raws != []
    ensures States(state, raws)[0] == Next(state, raws[0])
  {
  }

  lemma AddOnce(s: nat, n: nat)
    ensures ((s + n * STEP) % U64 + STEP) % U64 == (s + (n + 1) * STEP) % U64
  {
    ModAdd(s + n * STEP);
  }

  lemma ModAdd(a: nat)
    ensures (a % U64 + STEP) % U64 == (a + STEP) % U64
  {
    var q, r := a / U64, a % U64;
    var t := (r + STEP) / U64;
    Remainder(a + STEP, (r + STEP) % U64, q + t);
  }

  /**
   In a serial run two calls give different ids unless the state returned to zero in between:
   no bound on the number of calls is needed, because 2^64 steps do pass through zero.
   */
  lemma SerialIdsDistinct(state: nat, raws: seq<nat>, i: nat, j: nat)
    requires state < U64 && i < j < |raws|
    requires forall k :: i <= k < j ==> States(state, raws)[k] != 0
    ensures Mix(States(state, raws)[i]) != Mix(States(state, raws)[j])
  {
    hide Mix;
    var all := States(state, raws);
    Advance(state, raws, i, j);
    if Mix(all[i]) == Mix(all[j]) {
      MixInjective(all[i], all[j]);
      if j - i < U64 {
        NoShortCycle(all[i], j - i);
        assert false;
      } else {
        var m := ZeroAhead(all[i]);
        forall k | i <= k < i + m ensures all[k] != 0 {}
        Advance(state, raws, i, i + m);
        assert false;
      }
    }
  }

  /** The same on the ids themselves, since the null id shows that the state is zero. */
  lemma IdsDistinct(state: nat, raws: seq<nat>, ids: seq<nat>)
    requires state < U64 && |ids| == |raws| && forall k :: 0 <= k < |ids| ==> ids[k] == Mix(States(state, raws)[k])
    ensures forall i, j :: 0 <= i < j < |ids| && (forall k :: i <= k < j ==> ids[k] != 0) ==> ids[i] != ids[j]
  {
    hide Mix, States;
    forall i, j | 0 <= i < j < |ids| && (forall k :: i <= k < j ==> ids[k] != 0) ensures ids[i] != ids[j] {
      forall k | i <= k < j ensures States(state, raws)[k] != 0 {
        MixZero();
        assert ids[k] != 0;
      }
      SerialIdsDistinct(state, raws, i, j);
    }
  }

  lemma NoShortCycle(s: nat, d: nat)
    requires s < U64 && 0 < d < U64
    ensures (s + d * STEP) % U64 != s
  {
    if (s + d * STEP) % U64 == s {
      Difference(s, d * STEP);
      MulInjective(STEP, STEP_INVERSE, 0x957BBF35006ED677, d, 0);
    }
  }

  lemma Difference(s: nat, x: nat)
    requires s < U64 && (s + x) % U64 == s
    ensures x % U64 == 0
  {
  }

  /** From any state fewer than 2^64 steps lead to zero. */
  lemma ZeroAhead(s: nat) returns (m: nat)
    requires s < U64
    ensures m < U64 && (s + m * STEP) % U64 == 0
  {
    var gap := (U64 - s) % U64;
    m := (gap * STEP_INVERSE) % U64;
    MulBack(STEP_INVERSE, STEP, 0x957BBF35006ED677, gap);
    SumToZero(s, gap, m * STEP);
  }

  lemma SumToZero(s: nat, gap: nat, x: nat)
    requires s < U64 && gap == (U64 - s) % U64 && x % U64 == gap
    ensures (s + x) % U64 == 0
  {
  }

  /** From zero the generator seeds itself again: the ids of two such calls are equal exactly when
      their seeds are. */
  lemma ReseedsAgreeIff(raw: nat, other: nat)
    requires raw < U64 && other < U64
    ensures Mix(Next(0, raw)) == Mix(Next(0, other)) <==> Seed(raw) == Seed(other)
  {
    hide Mix;
    if Mix(Next(0, raw)) == Mix(Next(0, other)) {
      MixInjective(Next(0, raw), Next(0, other));
    }
  }

  /** So whatever the seed, ids repeat if it comes up every time: a run that starts from zero gets back
      to zero and then to its first id. */
  lemma ReseedRepeats(raw: nat) returns (n: nat, j: nat)
    requires raw < U64
    ensures 0 < j < n && var states := States(0, seq(n, _ => raw)); Mix(states[j]) == Mix(states[0])
  {
    hide Mix, States;
    var first := Next(0, raw);
    var m := ZeroAhead(first);
    n := m + 2;
    var raws := seq(n, _ => raw);
    FirstState(0, raws);
    j := 1;
    while States(0, raws)[j - 1] != 0
      invariant 1 <= j <= m + 1 && forall k :: 0 <= k < j - 1 ==> States(0, raws)[k] != 0
      decreases n - j
    {
      if j == m + 1 { Advance(0, raws, 0, m); }
      j := j + 1;
    }
    StatesStep(0, raws, j);
  }

  // ----- Hexadecimal text -----

  predicate IsHex(c: char) {
    '0' <= c <= '9' || 'a' <= c <= 'f' || 'A' <= c <= 'F'
  }

  function HexValue(c: char): (d: nat)
    requires IsHex(c)
    ensures d < 16
  {
    if c <= '9' then (c - '0') as int else if c <= 'F' then (c - 'A') as int + 10 else (c - 'a') as int + 10
  }

  function HexDigit(d: nat): char
    requires d < 16
  {
    if d < 10 then '0' + d as char else 'a' + (d - 10) as char
  }

  predicate AllHex(s: string) {
    forall k :: 0 <= k < |s| ==> IsHex(s[k])
  }

  /** The number a run of hexadecimal digits denotes. */
  function Value(s: string): nat
    requires AllHex(s)
  {
    if s == [] then 0 else 16 * Value(s[..|s| - 1]) + HexValue(s[|s| - 1])
  }

  /** `%0<width>x` for a number that fits. */
  function Hex(n: nat, width: nat): (s: string)
    ensures |s| == width && AllHex(s)
    decreases width
  {
    if width == 0 then [] else Hex(n / 16, width - 1) + [HexDigit(n % 16)]
  }

  function Power16(n: nat): nat {
    if n == 0 then 1 else 16 * Power16(n - 1)
  }

  /** Printing a number and reading it again gives the number back. */
  lemma {:induction false} HexRoundTrip(n: nat, width: nat)
    requires n < Power16(width)
    ensures Value(Hex(n, width)) == n
    decreases width
  {
    if width > 0 {
      HexRoundTrip(n / 16, width - 1);
      var s := Hex(n, width);
      assert s[..|s| - 1] == Hex(n / 16, width - 1);
      assert s[|s| - 1] == HexDigit(n % 16);
    }
  }

  const HEX_DIGITS := "0123456789abcdef"

  /** Capital letters become small ones. */
  function LowerChar(c: char): char {
    if 'A' <= c <= 'Z' then (c as int + 32) as char else c
  }

  function Lower(s: string): (r: string)
    ensures |r| == |s| && forall i :: 0 <= i < |s| ==> r[i] == LowerChar(s[i])
  {
    if s == [] then [] else Lower(s[..|s| - 1]) + [LowerChar(s[|s| - 1])]
  }

  /** The value of a digit is its place among the sixteen, whatever its case. */
  lemma HexDigitIs(d: nat, c: char)
    ensures d < 16 ==> HexDigit(d) == HEX_DIGITS[d]
    ensures IsHex(c) ==> HEX_DIGITS[HexValue(c)] == LowerChar(c)
  {
  }

  /** A character is a digit exactly when it is one of the sixteen in small or capital letters. */
  lemma HexIff(c: char)
    ensures IsHex(c) <==> LowerChar(c) in HEX_DIGITS
  {
    if IsHex(c) { HexDigitIs(HexValue(c), c); }
  }

  /** Positional notation: each digit times its power of sixteen, from the `k`-th on. */
  function Places(s: string, k: nat): nat
    requires k <= |s| && AllHex(s)
    decreases |s| - k
  {
    if k == |s| then 0 else HexValue(s[k]) * Power16(|s| - 1 - k) + Places(s, k + 1)
  }

  lemma {:induction false} PlacesAppend(s: string, c: char, k: nat)
    requires k <= |s| && AllHex(s) && IsHex(c)
    ensures AllHex(s + [c]) && Places(s + [c], k) == 16 * Places(s, k) + HexValue(c)
    decreases |s| - k
  {
    hide HexValue, IsHex;
    var t := s + [c];
    if k == |s| {
      assert Places(t, k + 1) == 0 && Power16(0) == 1;
    } else {
      PlacesAppend(s, c, k + 1);
      SixteenTimes(HexValue(s[k]), Power16(|s| - 1 - k), Places(s, k + 1));
    }
  }

  lemma SixteenTimes(d: int, p: nat, rest: int)
    ensures d * (16 * p) + 16 * rest == 16 * (d * p + rest)
  {
  }

  /** A run of hexadecimal digits denotes what positional notation says. */
  lemma {:induction false} ValueIsPlaces(s: string)
    requires AllHex(s)
    ensures Value(s) == Places(s, 0)
    decreases |s|
  {
    if s != [] {
      var front := s[..|s| - 1];
      ValueIsPlaces(front);
      PlacesAppend(front, s[|s| - 1], 0);
      assert s == front + [s[|s| - 1]];
    }
  }

  /** Reading a text and printing the number gives the text back in lower case. */
  lemma {:induction false} HexPrintBack(s: string)
    requires AllHex(s)
    ensures Hex(Value(s), |s|) == Lower(s)
    decreases |s|
  {
    if s != [] {
      var top, low := Value(s[..|s| - 1]), HexValue(s[|s| - 1]);
      HexPrintBack(s[..|s| - 1]);
      LastDigit(top, low);
      HexDigitIs(low, s[|s| - 1]);
      assert Value(s) == 16 * top + low;
    }
  }

  lemma LastDigit(top: nat, low: nat)
    requires low < 16
    ensures (16 * top + low) / 16 == top && (16 * top + low) % 16 == low
  {
  }

  lemma {:induction false} ValueBound(s: string)
    requires AllHex(s)
    ensures Value(s) < Power16(|s|)
    decreases |s|
  {
    if s != [] {
      ValueBound(s[..|s| - 1]);
    }
  }

  /** `airy_id_parse_hex`: 64-bit shifts drop the high digits of a text that is too long. */
  method ParseHex(s: string) returns (ok: bool, v: nat)
    ensures ok == AllHex(s)
    ensures v == if ok then Value(s) % U64 else 0
  {
    hide Value, HexValue;
    v := 0;
    NoHex(s[..0]);
    for i := 0 to |s|
      invariant AllHex(s[..i]) && v == Value(s[..i]) % U64
    {
      if !IsHex(s[i]) {
        return false, 0;
      }
      OneHex(s, i);
      ShiftIn(Value(s[..i]), HexValue(s[i]));
      v := (v * 16) % U64 + HexValue(s[i]);
    }
    assert s[..|s|] == s;
    ok := true;
  }

  lemma NoHex(s: string)
    requires s == ""
    ensures AllHex(s) && Value(s) == 0
  {
  }

  lemma OneHex(s: string, i: nat)
    requires i < |s| && AllHex(s[..i]) && IsHex(s[i])
    ensures AllHex(s[..i + 1]) && Value(s[..i + 1]) == 16 * Value(s[..i]) + HexValue(s[i])
  {
    hide HexValue, IsHex;
    var t := s[..i + 1];
    assert t[..i] == s[..i] && t[i] == s[i];
    assert forall k :: 0 <= k < i ==> t[k] == s[..i][k];
  }

  lemma ShiftIn(x: nat, d: nat)
    requires d < 16
    ensures (x % U64 * 16) % U64 + d == (16 * x + d) % U64
  {
    var q, r := x / U64, x % U64;
    var t, u := r / 0x1000_0000_0000_0000, r % 0x1000_0000_0000_0000;
    assert r * 16 == U64 * t + 16 * u && 16 * u + d < U64;
    Remainder(r * 16, 16 * u, t);
    Remainder(16 * x + d, 16 * u + d, 16 * q + t);
  }

  // ----- Names of ids -----

  const TWO_32 := 0x1_0000_0000

  function TraceName(id: nat): string {
    "tr-" + Hex(id, 16)
  }

  function MsgName(id: nat): string {
    "msg-" + Hex(id / TWO_32, 8) + "-" + Hex(id % TWO_32, 8)
  }

  /** What a buffer of `cap` bytes holds after the name is printed into it. */
  function Printed(name: string, cap: nat): string {
    if cap == 0 then "" else if |name| < cap then name else name[..cap - 1]
  }

  predicate IsTraceName(s: string) {
    |s| == 19 && s[..3] == "tr-" && AllHex(s[3..])
  }

  predicate IsMsgName(s: string) {
    |s| == 21 && s[..4] == "msg-" && AllHex(s[4..12]) && s[12] == '-' && AllHex(s[13..])
  }

  /** The id a text names; zero, the null id, for a text that names none. */
  function TraceOf(s: string): nat {
    if IsTraceName(s) then Value(s[3..]) else 0
  }

  function MsgOf(s: string): nat {
    if IsMsgName(s) then Value(s[4..12]) * TWO_32 + Value(s[13..]) else 0
  }

  /** `airy_trace_id_from_string` */
  method TraceFromString(s: string) returns (id: nat)
    ensures id == TraceOf(s)
  {
    if |s| < 3 || s[..3] != "tr-" {
      return 0;
    }
    var hex := s[3..];
    if |hex| != 16 {
      return 0;
    }
    var ok, v := ParseHex(hex);
    if ok {
      Fits16(hex);
    }
    id := if ok then v else 0;
  }

  /** `airy_msg_id_from_string` */
  method MsgFromString(s: string) returns (id: nat)
    ensures id == MsgOf(s)
  {
    if |s| < 4 || s[..4] != "msg-" {
      return 0;
    }
    hide Value;
    var p := s[4..];
    var dash := 0;
    while dash < |p| && p[dash] != '-'
      invariant dash <= |p| && forall k :: 0 <= k < dash ==> p[k] != '-'
    {
      dash := dash + 1;
    }
    if dash != 8 {
      EarlyDash(s, dash);
      return 0;
    }
    if dash == |p| {
      return 0;
    }
    assert p[8] == s[12] && p[..8] == s[4..12] && p[9..] == s[13..];
    if |p| - (dash + 1) != 8 {
      return 0;
    }
    var ok1, ts := ParseHex(p[..8]);
    var ok2, low := ParseHex(p[dash + 1..]);
    if !ok1 || !ok2 {
      return 0;
    }
    Fits8(s[4..12]);
    Fits8(s[13..]);
    TopHalf(Value(s[4..12]));
    id := (ts * TWO_32) % U64 + low;
  }

  /** A text whose first dash after the prefix is not the ninth character names no message. */
  lemma EarlyDash(s: string, dash: nat)
    requires 4 <= |s| && dash <= |s| - 4 && dash != 8
    requires forall k :: 0 <= k < dash ==> s[4..][k] != '-'
    requires dash < |s| - 4 ==> s[4 + dash] == '-'
    ensures !IsMsgName(s)
  {
    if 8 < dash {
      assert s[12] == s[4..][8] != '-';
    } else if 12 <= |s| {
      assert s[4..12][dash] == '-';
    }
  }

  lemma Fits16(s: string)
    requires AllHex(s) && |s| == 16
    ensures Value(s) < U64
  {
    ValueBound(s);
    SixteenDigits();
  }

  lemma Fits8(s: string)
    requires AllHex(s) && |s| == 8
    ensures Value(s) < TWO_32
  {
    ValueBound(s);
    EightDigits();
  }

  lemma EightDigits()
    ensures Power16(8) == TWO_32
  {
    assert Power16(4) == 0x1_0000;
  }

  lemma SixteenDigits()
    ensures Power16(16) == U64
  {
    EightDigits();
    assert Power16(12) == 0x1_0000_0000_0000;
  }

  /** Printing any trace id into a buffer of `cap` bytes and parsing it again: the id comes back
      exactly when the buffer holds the whole name or the id is the null id. */
  lemma TraceRoundTrip(id: nat, cap: nat)
    requires id < U64
    ensures TraceOf(Printed(TraceName(id), cap)) == id <==> cap >= 20 || id == 0
  {
    var name := TraceName(id);
    if cap >= 20 {
      SixteenDigits();
      HexRoundTrip(id, 16);
      assert name[3..] == Hex(id, 16);
    }
  }

  lemma MsgRoundTrip(id: nat, cap: nat)
    requires id < U64
    ensures MsgOf(Printed(MsgName(id), cap)) == id <==> cap >= 22 || id == 0
  {
    hide Value, Hex;
    var name := MsgName(id);
    if cap >= 22 {
      EightDigits();
      HexRoundTrip(id / TWO_32, 8);
      HexRoundTrip(id % TWO_32, 8);
      assert name[4..12] == Hex(id / TWO_32, 8);
      assert name[13..] == Hex(id % TWO_32, 8);
    }
  }

  /** Every text that names an id prints back as itself in lower case. */
  lemma NamesPrintBack(s: string)
    ensures IsTraceName(s) ==> TraceName(TraceOf(s)) == "tr-" + Lower(s[3..])
    ensures IsMsgName(s) ==> MsgName(MsgOf(s)) == "msg-" + Lower(s[4..12]) + "-" + Lower(s[13..])
  {
    hide Value, Hex, Lower;
    if IsTraceName(s) {
      HexPrintBack(s[3..]);
    }
    if IsMsgName(s) {
      Fits8(s[13..]);
      HexPrintBack(s[4..12]);
      HexPrintBack(s[13..]);
      Halfwords(Value(s[4..12]), Value(s[13..]));
    }
  }

  /** `s` and `t` agree up to the `k`-th character, where `s` has the smaller one. */
  predicate SortsAt(s: string, t: string, k: nat) {
    k < |s| && k < |t| && s[..k] == t[..k] && s[k] < t[k]
  }

  ghost predicate Sorts(s: string, t: string) {
    exists k: nat :: SortsAt(s, t, k)
  }

  lemma {:induction false} HexSorts(a: nat, b: nat, width: nat)
    requires a < b < Power16(width)
    ensures Sorts(Hex(a, width), Hex(b, width))
    decreases width
  {
    var s, t := Hex(a, width), Hex(b, width);
    var n := width - 1;
    assert s[..n] == Hex(a / 16, n) && t[..n] == Hex(b / 16, n);
    if a / 16 < b / 16 {
      HexSorts(a / 16, b / 16, n);
      var k: nat :| SortsAt(s[..n], t[..n], k);
      assert s[..n][..k] == s[..k] && t[..n][..k] == t[..k];
      assert SortsAt(s, t, k);
    } else {
      assert SortsAt(s, t, n);
    }
  }

  lemma SortsInside(head: string, s: string, t: string, tail: string, other: string)
    requires Sorts(s, t)
    ensures Sorts(head + s + tail, head + t + other)
  {
    var k: nat :| SortsAt(s, t, k);
    var x, y := head + s + tail, head + t + other;
    assert x[..|head| + k] == head + s[..k] && y[..|head| + k] == head + t[..k];
    assert SortsAt(x, y, |head| + k);
  }

  /** Sorted as text, the names of ids stand in the order of the ids: the high digits come first. */
  lemma NamesSortLikeIds(a: nat, b: nat)
    requires a < b < U64
    ensures Sorts(TraceName(a), TraceName(b)) && Sorts(MsgName(a), MsgName(b))
  {
    hide Hex, Sorts;
    SixteenDigits();
    EightDigits();
    HexSorts(a, b, 16);
    SortsInside("tr-", Hex(a, 16), Hex(b, 16), "", "");
    assert "tr-" + Hex(a, 16) + "" == TraceName(a) && "tr-" + Hex(b, 16) + "" == TraceName(b);
    var h, k, l, m := a / TWO_32, b / TWO_32, a % TWO_32, b % TWO_32;
    if h < k {
      HexSorts(h, k, 8);
      SortsInside("msg-", Hex(h, 8), Hex(k, 8), "-" + Hex(l, 8), "-" + Hex(m, 8));
      assert "msg-" + Hex(h, 8) + ("-" + Hex(l, 8)) == MsgName(a);
      assert "msg-" + Hex(k, 8) + ("-" + Hex(m, 8)) == MsgName(b);
    } else {
      HexSorts(l, m, 8);
      SortsInside("msg-" + Hex(h, 8) + "-", Hex(l, 8), Hex(m, 8), "", "");
      assert ("msg-" + Hex(h, 8) + "-") + Hex(l, 8) + "" == MsgName(a);
      assert ("msg-" + Hex(h, 8) + "-") + Hex(m, 8) + "" == MsgName(b);
    }
  }

  lemma TopHalf(ts: nat)
    requires ts < TWO_32
    ensures ts % U64 == ts && (ts * TWO_32) % U64 == ts * TWO_32
  {
  }

  lemma Halfwords(ts: nat, low: nat)
    requires low < TWO_32
    ensures (ts * TWO_32 + low) / TWO_32 == ts && (ts * TWO_32 + low) % TWO_32 == low
  {
  }
}
