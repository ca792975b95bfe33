/**
 The watermark file and the number allocator of utils/hall/hall_event.c in the form the
 code has: the text that evt_wm_store writes and evt_wm_load reads, and evt_reserve and
 evt_next_gseq updating the globals of a process and the file.
 */
module HallWatermark {
  import opened Decimal
  import opened HallGseq

  // ---------------------------------------------------------------------------------
  // The text of the file

  predicate IsBlank(c: char) {
    c == ' ' || c == '\t' || c == '\n' || c == '\r'
  }

  function SkipBlanks(s: string, i: nat): (k: nat)
    requires i <= |s|
    ensures i <= k <= |s| && (k < |s| ==> !IsBlank(s[k]))
    decreases |s| - i
  {
    if i < |s| && IsBlank(s[i]) then SkipBlanks(s, i + 1) else i
  }

  function DigitsEnd(s: string, i: nat): (k: nat)
    requires i <= |s|
    ensures i <= k <= |s| && AllDigits(s[i..k]) && (k < |s| ==> !IsDigit(s[k]))
    decreases |s| - i
  {
    if i < |s| && IsDigit(s[i]) then
      var k := DigitsEnd(s, i + 1);
      assert s[i..k] == [s[i]] + s[i + 1..k];
      k
    else i
  }

  /** evt_wm_load: the leading number after blanks; text without one counts as a missing
      watermark. */
  function LoadText(s: string): Watermark {
    var from := SkipBlanks(s, 0);
    var upto := DigitsEnd(s, from);
    if from == upto then Missing else Mark(Value(s[from..upto]) % U64)
  }

  /** The digits of `s` in front of which only blanks stand. */
  predicate LeadingNumber(s: string, from: nat, upto: nat) {
    && from < upto <= |s| && (forall i :: 0 <= i < from ==> s[i] in " \t\n\r")
    && (forall i :: from <= i < upto ==> '0' <= s[i] <= '9') && (upto < |s| ==> !('0' <= s[upto] <= '9'))
  }

  /** What is loaded is the positional value of the leading number, cut to 64 bits. */
  lemma LoadsNumber(s: string, from: nat, upto: nat)
    requires LeadingNumber(s, from, upto)
    ensures LoadText(s) == Mark(Places(s[from..upto]) % U64)
  {
    var f := SkipBlanks(s, 0);
    BlanksSkipped(s, 0);
    assert !(from < f) by { assert !IsBlank(s[from]); }
    assert forall i :: 0 <= i < from ==> IsBlank(s[i]);
    var u := DigitsEnd(s, from);
    assert forall i :: from <= i < u ==> s[i] == s[from..u][i - from];
    assert u == upto;
    ValueIsPlaces(s[from..upto]);
  }

  method LoadMark(s: string) returns (w: Watermark)
    ensures w == LoadText(s)
    ensures forall from: nat, upto: nat :: LeadingNumber(s, from, upto) ==> w == Mark(Places(s[from..upto]) % U64)
  {
    forall from: nat, upto: nat | LeadingNumber(s, from, upto)
      ensures LoadText(s) == Mark(Places(s[from..upto]) % U64)
    {
      LoadsNumber(s, from, upto);
    }
    var p := 0;
    while p < |s| && IsBlank(s[p])
      invariant p <= |s| && SkipBlanks(s, 0) == SkipBlanks(s, p)
    {
      p := p + 1;
    }
    if p == |s| || !IsDigit(s[p]) {
      return Missing;
    }
    var q := p;
    while q < |s| && IsDigit(s[q])
      invariant p <= q <= |s| && DigitsEnd(s, p) == DigitsEnd(s, q)
    {
      q := q + 1;
    }
    var ok, v := ParseDigits(s, p, q);
    w := Mark(v);
  }

  /** evt_wm_store writes `%llu\\n`. */
  function StoreText(v: nat): string {
    Print(v) + "\n"
  }

  /** What is stored is what is loaded, for every 64-bit value. */
  lemma StoreThenLoad(v: nat)
    requires v < U64
    ensures LoadText(StoreText(v)) == Mark(v)
  {
    var s := StoreText(v);
    var n := |Print(v)|;
    assert s[0] == Print(v)[0];
    assert SkipBlanks(s, 0) == 0;
    DigitsRun(s, 0, n);
    assert s[0..n] == Print(v);
    PrintValue(v);
  }

  lemma {:induction false} DigitsRun(s: string, i: nat, n: nat)
    requires i <= n < |s| && !IsDigit(s[n]) && forall k :: i <= k < n ==> IsDigit(s[k])
    ensures DigitsEnd(s, i) == n
    decreases n - i
  {
    if i < n {
      DigitsRun(s, i + 1, n);
    }
  }

  /** A text is refused exactly when its first character after the blanks is no digit; what follows
      the digits is not looked at. */
  lemma LoadsIff(s: string)
    ensures LoadText(s).Mark?
       <==> exists k :: 0 <= k < |s| && '0' <= s[k] <= '9' && forall i :: 0 <= i < k ==> s[i] in " \t\n\r"
  {
    var from := SkipBlanks(s, 0);
    BlanksSkipped(s, 0);
    hide SkipBlanks;
    if from < |s| && IsDigit(s[from]) {
      assert DigitsEnd(s, from) > from;
      assert IsDigit(s[from]) && forall i :: 0 <= i < from ==> IsBlank(s[i]);
    }
    if k :| 0 <= k < |s| && IsDigit(s[k]) && forall i :: 0 <= i < k ==> IsBlank(s[i]) {
      assert k <= from;
      assert from == k;
    }
  }

  lemma {:induction false} BlanksSkipped(s: string, i: nat)
    requires i <= |s|
    ensures forall j :: i <= j < SkipBlanks(s, i) ==> IsBlank(s[j])
    decreases |s| - i
  {
    if i < |s| && IsBlank(s[i]) {
      BlanksSkipped(s, i + 1);
    }
  }

  /** So damage can pass for a watermark: a stored number cut short loads as a smaller one. */
  lemma TornMarkLoads(v: nat, n: nat) returns (m: nat)
    requires v < U64 && 1 <= n < |Print(v)|
    ensures m < v && LoadText(StoreText(v)[..n]) == Mark(m)
  {
    var s := StoreText(v)[..n];
    assert s == Print(v)[..n];
    m := Value(s);
    PrintValue(v);
    PrefixSmaller(Print(v), n);
    assert IsDigit(s[0]) && SkipBlanks(s, 0) == 0;
    AllDigitsEnd(s, 0);
    assert s[0..|s|] == s;
    assert v > 0;
  }

  lemma {:induction false} AllDigitsEnd(s: string, i: nat)
    requires i <= |s| && AllDigits(s)
    ensures DigitsEnd(s, i) == |s|
    decreases |s| - i
  {
    if i < |s| { AllDigitsEnd(s, i + 1); }
  }

  lemma {:induction false} PrefixSmaller(s: string, n: nat)
    requires AllDigits(s) && n <= |s|
    ensures AllDigits(s[..n]) && Value(s[..n]) <= Value(s)
    ensures n < |s| && Value(s) > 0 ==> Value(s[..n]) < Value(s)
    decreases |s|
  {
    if n == |s| {
      assert s[..n] == s;
    } else {
      assert s[..|s| - 1][..n] == s[..n];
      PrefixSmaller(s[..|s| - 1], n);
    }
  }

  /** A text that was never stored and is taken for 0. */
  lemma DamagedMarkIsZero()
    ensures LoadText("0x") == Mark(0)
  {
    var s := "0x";
    DigitsRun(s, 0, 1);
    assert s[0..1] == "0";
    assert "0"[..0] == "";
  }

  // ---------------------------------------------------------------------------------
  // The allocator of one process

  /** The shared root directory. */
  class Root {
    var present: bool   // whether <root>/.gseq is there
    var text: string   // its contents

    ghost function Mark(): Watermark
      reads this
    {
      if present then LoadText(text) else Missing
    }

    constructor ()
      ensures Mark() == Missing
    {
      present, text := false, "";
    }
  }

  /** What evt_reserve gets of the lock file: not even the file, the file without the lock, or the lock;
      then the new watermark may or may not reach the disk. */
  datatype Access = NoFile | Busy | Held(stores: bool)

  /** The base a reservation returns; without the lock the watermark is not read. */
  function Granted(mark: Watermark, scan: nat, floor: nat, access: Access): nat {
    match access
    case NoFile => floor
    case Busy => Base(Missing, scan, floor)
    case Held(_) => Base(mark, scan, floor)
  }

  /** What an undisturbed call does to its process and the watermark. */
  lemma CallLeaves(s: State, pid: Pid, scan: nat)
    requires pid in s.procs && s.procs[pid].phase.Idle?
    ensures var t, p := AfterCall(s, pid, scan), s.procs[pid];
            var base := if p.gseq < p.limit then p.gseq else Base(s.mark, scan, p.gseq);
            && pid in t.procs && t.issued == s.issued + [Issue(pid, base + 1)]
            && t.procs[pid] == Proc(base + 1, if p.gseq < p.limit then p.limit else base + BLOCK, Idle)
            && t.mark == if p.gseq < p.limit then s.mark else Mark(base + BLOCK)
  {
  }

  class Allocator {
    const root: Root
    var gseq: nat    // g_evt_gseq
    var limit: nat   // g_evt_limit

    constructor (root: Root)
      ensures this.root == root && gseq == 0 && limit == 0
    {
      this.root, gseq, limit := root, 0, 0;
    }

    /** evt_reserve; `scan` is what a full scan of the tree would find. Without the lock nothing is
        stored, and a store can fail. */
    method Reserve(floor: nat, scan: nat, access: Access) returns (base: nat)
      modifies root
      ensures base == Granted(old(root.Mark()), scan, floor, access)
      ensures floor <= base && (access.NoFile? ==> base == floor)
      ensures var mark := old(root.Mark());
              var seen := if access.Held? && mark.Mark? then mark.value else scan;
              !access.NoFile? ==> seen <= base && (base == seen || base == floor)
      ensures root.Mark() == if access == Held(true) then Mark((base + BLOCK) % U64) else old(root.Mark())
    {
      if access == NoFile {
        return floor;
      }
      var w := Missing;
      if access.Held? && root.present {
        w := LoadMark(root.text);
      }
      base := if w.Mark? then w.value else scan;
      if base < floor {
        base := floor;
      }
      if access == Held(true) {
        StoreThenLoad((base + BLOCK) % U64);
        root.present, root.text := true, StoreText((base + BLOCK) % U64);
      }
    }

    /** evt_next_gseq: with the lock taken and the store done, as long as the numbers stay below 2^64, it
        does what an undisturbed call does in the protocol, whatever the state of the other processes. */
    method NextGseq(scan: nat, access: Access, ghost s: State, ghost pid: Pid) returns (g: nat)
      requires pid in s.procs && s.procs[pid] == Proc(gseq, limit, Idle) && s.mark == root.Mark()
      requires IsMax(s.disk, scan)
      modifies this, root
      ensures g == gseq
      ensures old(gseq) + 1 < U64 ==>
                old(gseq) < g || Granted(old(root.Mark()), scan, old(gseq), access) + 1 >= U64
      ensures var base := Granted(old(root.Mark()), scan, old(gseq), access);
              if old(gseq >= limit)
              then && g == (base + 1) % U64 && limit == (base + BLOCK) % U64
                   && root.Mark() == if access == Held(true) then Mark(limit) else old(root.Mark())
              else g == (old(gseq) + 1) % U64 && limit == old(limit) && root.Mark() == old(root.Mark())
      ensures s.lock == {} && (access == Held(true) || old(gseq < limit)) &&
              old(Base(root.Mark(), scan, gseq)) + BLOCK < U64 && old(limit) < U64 ==>
                var t := AfterCall(s, pid, scan);
                && Runs(s, CallSteps(s, pid, scan), t)
                && t.procs[pid] == Proc(gseq, limit, Idle) && t.mark == root.Mark()
                && t.issued == s.issued + [Issue(pid, g)]
    {
      hide Runs, AfterCall, CallSteps, LoadText;
      if s.lock == {} {
        CallRuns(s, pid, scan);
      }
      CallLeaves(s, pid, scan);
      if gseq >= limit {
        var base := Reserve(gseq, scan, access);
        limit := (base + BLOCK) % U64;
        gseq := base;
      }
      gseq := (gseq + 1) % U64;
      g := gseq;
    }
  }
}
