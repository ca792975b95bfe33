/**
 The executor and the matching entry point of utils/compat/airy_regex.c.
 */
module RegexEngine {
  import opened Options
  import opened RegexSyntax
  import opened RegexMeaning
  import opened RegexProgram
  import opened RegexEncoding
  import opened RegexDepth
  import opened RegexCost

  const REG_NOMATCH := 1

  /** The executor's state: subject, attempted start, captures, call depth. */
  class Vm {
    const prog: Prog
    const inp: Input
    const caps: array<int>
    var depth: int
    var overflow: bool

    ghost predicate Valid()
      reads this
    {
      Runnable(prog) && inp.Valid() && caps.Length == 2 * MAX_GROUPS && 0 <= depth <= MAX_DEPTH && !overflow
    }

    constructor (prog: Prog, inp: Input)
      requires Runnable(prog) && inp.Valid()
      ensures Valid() && depth == 0 && caps[..] == NO_CAPS && fresh(caps)
      ensures this.prog == prog && this.inp == inp
    {
      this.prog, this.inp, depth, overflow := prog, inp, 0, false;
      caps := new int[2 * MAX_GROUPS](_ => 0);
      new;
      assert caps[..] == NO_CAPS;
    }

    /** `*sp`, which is the terminating NUL at the end of the subject. */
    function At(sp: nat): Byte
      requires sp <= |inp.s|
    {
      if sp < |inp.s| then inp.s[sp] else 0
    }

    /** airy_re_run: the verdict of the capped search, the captures of the path it accepts,
        and the call depth restored on every failing return. */
    method Run(pc0: int, sp0: nat) returns (ok: bool)
      requires Valid() && IsPtr(|prog.insts|, pc0) && sp0 <= |inp.s|
      modifies this`depth, this`overflow, caps
      ensures var v := Explore(prog, inp, pc0, sp0, old(caps[..]), old(depth));
              && ok == v.Accept?
              && overflow == v.Overflow?
              && (v.Accept? ==> caps[..] == v.caps)
              && (!v.Accept? ==> depth == old(depth))
      decreases MAX_DEPTH - depth
    {
      hide Ranked, TableHas;
      depth := depth + 1;
      if depth > MAX_DEPTH {
        overflow := true;
        depth := depth - 1;
        return false;
      }
      var pc: int, sp: nat := pc0, sp0;
      ghost var goal := Walk(prog, inp, pc0, sp0, caps[..]);
      while true
        invariant IsPtr(|prog.insts|, pc) && sp <= |inp.s|
        invariant depth == old(depth) + 1 <= MAX_DEPTH && !overflow
        invariant Walk(prog, inp, pc, sp, caps[..]) == goal
        decreases Distance(prog, pc)
      {
        if pc == NULL {
          depth := depth - 1;
          return true;
        }
        var i := prog.insts[pc];
        assert InstOk(i, |prog.insts|, prog.tables);
        match i.op
        case OpChar =>
          if At(sp) != 0 && At(sp) == i.c {
            sp := sp + 1;
            pc := i.a;
          } else {
            depth := depth - 1;
            return false;
          }
        case OpAny =>
          if At(sp) != 0 {
            sp := sp + 1;
            pc := i.a;
          } else {
            depth := depth - 1;
            return false;
          }
        case OpClass =>
          var tbl := prog.tables[32 * i.c..32 * i.c + 32];
          if At(sp) != 0 && TableHas(tbl, At(sp)) {
            sp := sp + 1;
            pc := i.a;
          } else {
            depth := depth - 1;
            return false;
          }
        case OpAnchor =>
          if if i.c == CARET then sp == 0 else At(sp) == 0 {
            pc := i.a;
          } else {
            depth := depth - 1;
            return false;
          }
        case OpSave =>
          ghost var before := caps[..];
          caps[i.c] := sp - inp.start;
          assert caps[..] == SetCap(before, i.c, sp - inp.start);
          pc := i.a;
        case OpSplit =>
          var saveCaps := caps[..];
          var first := Run(i.a, sp);
          if first {
            return true;
          }
          if overflow {
            depth := depth - 1;
            return false;
          }
          forall k | 0 <= k < caps.Length {
            caps[k] := saveCaps[k];
          }
          assert caps[..] == saveCaps;
          var second := Run(i.b, sp);
          if second {
            depth := depth - 1;
            return true;
          }
          depth := depth - 1;
          return false;
        case OpJmp =>
          pc := i.a;
        case OpMatch =>
          depth := depth - 1;
          return true;
      }
    }
  }

  // ---------------------------------------------------------------------------------
  // One attempt, in terms of the expression

  /** The search airy_re_regexec starts at `inp.start`. */
  ghost function Attempt(p: Prog, entry: int, inp: Input): Verdict
    requires Runnable(p) && IsPtr(|p.insts|, entry) && inp.Valid()
  {
    Explore(p, inp, entry, inp.start, NO_CAPS, 0)
  }

  /** The choice word `w` derives a match from the start, ending at `r`. */
  ghost predicate Derives(l: List, inp: Input, w: seq<bool>, r: Spot)
    requires WellFormedList(l)
  {
    r.rest == [] && DeriveList(l, inp, Spot(inp.start, NO_CAPS, w)) == Some(r)
  }

  /** `r` is where the first derivation in priority order ends. */
  ghost predicate FirstMatch(l: List, inp: Input, r: Spot)
    requires WellFormedList(l)
  {
    exists w :: Derives(l, inp, w, r) && NoneBefore(l, inp, w)
  }

  ghost predicate NoneBefore(l: List, inp: Input, w: seq<bool>)
    requires WellFormedList(l)
  {
    forall u, q :: Before(u, w) ==> !Derives(l, inp, u, q)
  }

  ghost predicate NoMatchAt(l: List, s: seq<Byte>, i: nat) {
    forall j: nat :: !MatchesList(l, s, i, j)
  }

  lemma FollowDerives(p: Prog, entry: int, l: List, inp: Input, w: seq<bool>)
    requires Runnable(p) && IsPtr(|p.insts|, entry) && inp.Valid()
    requires WellFormedList(l) && EncodesList(p, entry, NULL, l)
    ensures var f := Follow(p, inp, entry, inp.start, NO_CAPS, w);
            && (f.Some? ==> Derives(l, inp, w, Spot(f.value.0, f.value.1, [])))
            && (f.None? ==> forall r :: !Derives(l, inp, w, r))
  {
    EncodedListFollows(p, entry, NULL, l, inp, Spot(inp.start, NO_CAPS, w));
  }

  /** An accepting attempt reports the first derivation of the expression. */
  lemma AttemptAccepts(p: Prog, entry: int, l: List, inp: Input)
    requires Runnable(p) && IsPtr(|p.insts|, entry) && inp.Valid()
    requires WellFormedList(l) && EncodesList(p, entry, NULL, l)
    requires Attempt(p, entry, inp).Accept?
    ensures var v := Attempt(p, entry, inp);
            && FirstMatch(l, inp, Spot(v.pos, v.caps, []))
            && MatchesList(l, inp.s, inp.start, v.pos)
  {
    var v := Attempt(p, entry, inp);
    var w := ExploreAccepts(p, inp, entry, inp.start, NO_CAPS, 0);
    FollowDerives(p, entry, l, inp, w);
    forall u, q | Before(u, w) ensures !Derives(l, inp, u, q) {
      FollowDerives(p, entry, l, inp, u);
    }
    assert Derives(l, inp, w, Spot(v.pos, v.caps, []));
    DeriveListSound(l, inp, Spot(inp.start, NO_CAPS, w));
  }

  /** An attempt that fails without overflow means that nothing matches there. */
  lemma AttemptFails(p: Prog, entry: int, l: List, inp: Input)
    requires Runnable(p) && IsPtr(|p.insts|, entry) && inp.Valid()
    requires WellFormedList(l) && EncodesList(p, entry, NULL, l)
    requires Attempt(p, entry, inp).Fail?
    ensures NoMatchAt(l, inp.s, inp.start)
  {
    ExploreFails(p, inp, entry, inp.start, NO_CAPS, 0);
    forall j: nat ensures !MatchesList(l, inp.s, inp.start, j) {
      if MatchesList(l, inp.s, inp.start, j) {
        var w, out := DeriveListComplete(l, inp, inp.start, NO_CAPS, j);
        FollowDerives(p, entry, l, inp, w);
        assert Derives(l, inp, w, Spot(j, out, []));
      }
    }
  }

  /** Before any derivation, the search gets to make as many choices as calls may be nested. */
  ghost predicate Overflows(l: List, inp: Input)
    requires WellFormedList(l)
  {
    exists w :: |w| == MAX_DEPTH && SpendsList(l, inp, Spot(inp.start, NO_CAPS, w)) && NoneBefore(l, inp, w)
  }

  /** An attempt overflows exactly when the expression does. */
  lemma AttemptOverflowsIff(p: Prog, entry: int, l: List, inp: Input)
    requires Runnable(p) && IsPtr(|p.insts|, entry) && inp.Valid()
    requires WellFormedList(l) && EncodesList(p, entry, NULL, l)
    ensures Attempt(p, entry, inp).Overflow? <==> Overflows(l, inp)
  {
    hide Runnable, EncodesList, Explore, Follow, SpendsList, Before, Alive;
    if Attempt(p, entry, inp).Overflow? {
      var w := ExploreOverflows(p, inp, entry, inp.start, NO_CAPS, 0);
      AliveIffSpent(p, entry, l, inp, Spot(inp.start, NO_CAPS, w));
      forall u, q | Before(u, w) ensures !Derives(l, inp, u, q) {
        FollowDerives(p, entry, l, inp, u);
      }
      assert NoneBefore(l, inp, w);
    }
    if Overflows(l, inp) {
      var w :| |w| == MAX_DEPTH && SpendsList(l, inp, Spot(inp.start, NO_CAPS, w)) && NoneBefore(l, inp, w);
      AliveIffSpent(p, entry, l, inp, Spot(inp.start, NO_CAPS, w));
      forall u | Before(u, w) ensures Follow(p, inp, entry, inp.start, NO_CAPS, u).None? {
        FollowDerives(p, entry, l, inp, u);
      }
      LongPathOverflows(p, inp, entry, inp.start, NO_CAPS, 0, w);
    }
  }

  /** An expression that makes fewer choices than calls may be nested never overflows. Unbounded repeats
      that move forward cost one choice each and one for every byte of the string. */
  lemma CheapNeverOverflows(l: List, inp: Input)
    requires WellFormedList(l) && Cheap(l, |inp.s|)
    ensures !Overflows(l, inp)
  {
    hide SpendsList, DeriveList, CostList, SteadyList, BoundedList;
    forall w | SpendsList(l, inp, Spot(inp.start, NO_CAPS, w)) ensures |w| < MAX_DEPTH {
      CostListBounds(l, inp, Spot(inp.start, NO_CAPS, w), !BoundedList(l));
    }
  }

  /** The choices counted from the tree, and with unbounded repeats the length of the string, stay
      below the cap. */
  predicate Cheap(l: List, length: nat)
    requires WellFormedList(l)
  {
    SteadyList(l) && CostList(l) + (if BoundedList(l) then 0 else length) < MAX_DEPTH
  }

  // ---------------------------------------------------------------------------------
  // What the captures look like

  /** The captures of group `g`. */
  function Pair(caps: Caps, g: nat): (int, int)
    requires g < MAX_GROUPS
  {
    (caps[2 * g], caps[2 * g + 1])
  }

  predicate SanePair(pair: (int, int), reach: int) {
    0 <= pair.0 <= pair.1 <= reach
  }

  /** Every capture pair is either untouched or a proper span that ends by now, and the
      pair of group 0 is always untouched. */
  ghost predicate CapsGrow(inp: Input, at: Spot, r: Spot) {
    && inp.start <= at.pos <= r.pos
    && Pair(r.caps, 0) == Pair(at.caps, 0)
    && forall g: nat | g < MAX_GROUPS ::
         Pair(r.caps, g) == Pair(at.caps, g) || SanePair(Pair(r.caps, g), r.pos - inp.start)
  }

  lemma CapsGrowTrans(inp: Input, a: Spot, b: Spot, c: Spot)
    requires CapsGrow(inp, a, b) && CapsGrow(inp, b, c)
    ensures CapsGrow(inp, a, c)
  {
  }

  lemma {:induction false} DeriveCaps(n: Node, inp: Input, at: Spot)
    requires WellFormed(n) && inp.start <= at.pos && Derive(n, inp, at).Some?
    ensures CapsGrow(inp, at, Derive(n, inp, at).value)
    decreases n, 0, 0
  {
    match n
    case Alt(a, b) =>
      hide DeriveList;
      var next := at.(rest := at.rest[1..]);
      DeriveListCaps(if at.rest[0] then b else a, inp, next);
    case Repeat(child, lo, hi, greedy) =>
      DeriveRepeatCaps(child, lo, hi, greedy, inp, at);
    case Group(gid, body) =>
      hide CapsGrow, DeriveList;
      var entered := at.(caps := SetCap(at.caps, 2 * gid, at.pos - inp.start));
      DeriveListCaps(body, inp, entered);
      GroupCaps(inp, gid, at, DeriveList(body, inp, entered).value);
    case _ =>
  }

  lemma {:induction false} DeriveRepeatCaps(child: Node, lo: nat, hi: int, greedy: bool, inp: Input, at: Spot)
    requires WellFormed(Repeat(child, lo, hi, greedy)) && inp.start <= at.pos
    requires Derive(Repeat(child, lo, hi, greedy), inp, at).Some?
    ensures CapsGrow(inp, at, Derive(Repeat(child, lo, hi, greedy), inp, at).value)
    decreases child, 2, 0
  {
    hide DeriveTimes, DeriveLoop, DeriveOptional;
    DeriveTimesCaps(child, lo, inp, at);
    var must := DeriveTimes(child, lo, inp, at).value;
    assert inp.start <= must.pos;
    hide CapsGrow;
    if hi < 0 {
      DeriveLoopCaps(child, greedy, inp, must);
    } else {
      DeriveOptionalCaps(child, hi - lo, greedy, inp, must);
    }
    CapsGrowTrans(inp, at, must, Derive(Repeat(child, lo, hi, greedy), inp, at).value);
  }

  lemma GroupCaps(inp: Input, gid: nat, at: Spot, inner: Spot)
    requires 1 <= gid < MAX_GROUPS
    requires CapsGrow(inp, at.(caps := SetCap(at.caps, 2 * gid, at.pos - inp.start)), inner)
    ensures CapsGrow(inp, at, inner.(caps := SetCap(inner.caps, 2 * gid + 1, inner.pos - inp.start)))
  {
    var entered := at.(caps := SetCap(at.caps, 2 * gid, at.pos - inp.start));
    var r := inner.(caps := SetCap(inner.caps, 2 * gid + 1, inner.pos - inp.start));
    forall g: nat | g < MAX_GROUPS
      ensures Pair(r.caps, g) == Pair(at.caps, g) || SanePair(Pair(r.caps, g), r.pos - inp.start)
    {
      assert Pair(inner.caps, g) == Pair(entered.caps, g) || SanePair(Pair(inner.caps, g), inner.pos - inp.start);
    }
    assert Pair(r.caps, 0) == Pair(entered.caps, 0);
  }

  lemma {:induction false} DeriveListCaps(l: List, inp: Input, at: Spot)
    requires WellFormedList(l) && inp.start <= at.pos && DeriveList(l, inp, at).Some?
    ensures CapsGrow(inp, at, DeriveList(l, inp, at).value)
    decreases l, 0, 0
  {
    match l
    case Nil =>
    case Cons(h, t) =>
      DeriveCaps(h, inp, at);
      DeriveListCaps(t, inp, Derive(h, inp, at).value);
      CapsGrowTrans(inp, at, Derive(h, inp, at).value, DeriveList(l, inp, at).value);
  }

  lemma {:induction false} DeriveTimesCaps(n: Node, k: nat, inp: Input, at: Spot)
    requires WellFormed(n) && inp.start <= at.pos && DeriveTimes(n, k, inp, at).Some?
    ensures CapsGrow(inp, at, DeriveTimes(n, k, inp, at).value)
    decreases n, 1, k
  {
    if k > 0 {
      DeriveCaps(n, inp, at);
      DeriveTimesCaps(n, k - 1, inp, Derive(n, inp, at).value);
      CapsGrowTrans(inp, at, Derive(n, inp, at).value, DeriveTimes(n, k, inp, at).value);
    }
  }

  lemma {:induction false} DeriveOptionalCaps(n: Node, k: nat, greedy: bool, inp: Input, at: Spot)
    requires WellFormed(n) && inp.start <= at.pos && DeriveOptional(n, k, greedy, inp, at).Some?
    ensures CapsGrow(inp, at, DeriveOptional(n, k, greedy, inp, at).value)
    decreases n, 1, k
  {
    if k > 0 {
      var next := at.(rest := at.rest[1..]);
      if Enters(greedy, at.rest[0]) {
        DeriveCaps(n, inp, next);
        DeriveOptionalCaps(n, k - 1, greedy, inp, Derive(n, inp, next).value);
        CapsGrowTrans(inp, next, Derive(n, inp, next).value, DeriveOptional(n, k, greedy, inp, at).value);
      } else {
        DeriveOptionalCaps(n, k - 1, greedy, inp, next);
      }
    }
  }

  lemma {:induction false} DeriveLoopCaps(n: Node, greedy: bool, inp: Input, at: Spot)
    requires WellFormed(n) && inp.start <= at.pos && DeriveLoop(n, greedy, inp, at).Some?
    ensures CapsGrow(inp, at, DeriveLoop(n, greedy, inp, at).value)
    decreases n, 1, |at.rest|
  {
    var next := at.(rest := at.rest[1..]);
    if Enters(greedy, at.rest[0]) {
      DeriveCaps(n, inp, next);
      DeriveLoopCaps(n, greedy, inp, Derive(n, inp, next).value);
      CapsGrowTrans(inp, next, Derive(n, inp, next).value, DeriveLoop(n, greedy, inp, at).value);
    }
  }

  /** Reported captures are spans inside the match, relative to its start; group 0 is
      reported as (0, 0) whatever was matched. */
  lemma FirstMatchCaptures(l: List, inp: Input, r: Spot)
    requires WellFormedList(l) && inp.Valid() && FirstMatch(l, inp, r)
    ensures inp.start <= r.pos <= |inp.s| && MatchesList(l, inp.s, inp.start, r.pos)
    ensures Pair(r.caps, 0) == (0, 0)
    ensures forall g: nat | g < MAX_GROUPS :: SanePair(Pair(r.caps, g), r.pos - inp.start)
  {
    var w :| Derives(l, inp, w, r);
    DeriveListCaps(l, inp, Spot(inp.start, NO_CAPS, w));
    DeriveListSound(l, inp, Spot(inp.start, NO_CAPS, w));
  }

  // ---------------------------------------------------------------------------------
  // airy_re_regexec

  datatype Span = Span(so: int, eo: int)

  /** The spans handed back are the captures of `r`. */
  ghost predicate Reported(spans: seq<Span>, r: Spot) {
    forall g: nat | g < |spans| && g < MAX_GROUPS :: (spans[g].so, spans[g].eo) == Pair(r.caps, g)
  }

  /** Copies the captures out, as far as the caller asked for. */
  method Report(caps: array<int>, nmatch: nat, pmatch: array?<Span>)
    requires caps.Length == 2 * MAX_GROUPS && (pmatch != null ==> nmatch <= pmatch.Length)
    modifies pmatch
    ensures caps[..] == old(caps[..])
    ensures pmatch != null ==>
              forall g: nat | g < nmatch && g < MAX_GROUPS :: pmatch[g] == Span(caps[2 * g], caps[2 * g + 1])
    ensures pmatch != null ==>
              forall g :: (MAX_GROUPS <= g || nmatch <= g) && 0 <= g < pmatch.Length ==> pmatch[g] == old(pmatch[g])
  {
    if nmatch > 0 && pmatch != null {
      var groups := if nmatch < MAX_GROUPS then nmatch else MAX_GROUPS;
      var g := 0;
      while g < groups
        invariant 0 <= g <= groups && caps[..] == old(caps[..])
        invariant forall k: nat | k < g :: pmatch[k] == Span(caps[2 * k], caps[2 * k + 1])
        invariant forall k :: g <= k < pmatch.Length ==> pmatch[k] == old(pmatch[k])
      {
        pmatch[g] := Span(caps[2 * g], caps[2 * g + 1]);
        g := g + 1;
      }
    }
  }

  /** Tries every start from left to right. */
  method Regexec(prog: Prog, entry: int, s: seq<Byte>, nmatch: nat, pmatch: array?<Span>, ghost l: List)
    returns (rc: int, ghost start: nat)
    requires Runnable(prog) && 0 <= entry < |prog.insts| && WellFormedList(l) && EncodesList(prog, entry, NULL, l)
    requires forall k :: 0 <= k < |s| ==> s[k] != 0
    requires pmatch != null ==> nmatch <= pmatch.Length
    modifies pmatch
    ensures rc == 0 || rc == REG_NOMATCH || rc == -1
    ensures rc == REG_NOMATCH ==> forall i :: 0 <= i <= |s| ==> NoMatchAt(l, s, i)
    ensures rc != REG_NOMATCH ==> start <= |s| && forall i :: 0 <= i < start ==> NoMatchAt(l, s, i)
    ensures rc == 0 ==>
              exists r :: FirstMatch(l, Input(s, start), r) && (pmatch != null ==> Reported(pmatch[..nmatch], r))
    ensures rc == -1 ==> Overflows(l, Input(s, start))
    ensures rc == 0 ==> !Overflows(l, Input(s, start))
    ensures forall i :: 0 <= i < (if rc == REG_NOMATCH then |s| + 1 else start) ==> !Overflows(l, Input(s, i))
    ensures rc != 0 && pmatch != null ==> pmatch[..] == old(pmatch[..])
    ensures pmatch != null ==>
              forall g :: (MAX_GROUPS <= g || nmatch <= g) && 0 <= g < pmatch.Length ==> pmatch[g] == old(pmatch[g])
  {
    hide Runnable, Explore, FirstMatch, NoMatchAt, EncodesList, Overflows;
    start := 0;
    var at: nat := 0;
    while true
      invariant at <= |s|
      invariant forall i :: 0 <= i < at ==> NoMatchAt(l, s, i)
      invariant forall i :: 0 <= i < at ==> !Overflows(l, Input(s, i))
      invariant pmatch != null ==> pmatch[..] == old(pmatch[..])
      decreases |s| - at
    {
      start := at;
      ghost var inp := Input(s, at);
      var vm := new Vm(prog, Input(s, at));
      var ok := vm.Run(entry, at);
      AttemptOverflowsIff(prog, entry, l, inp);
      if ok {
        AttemptAccepts(prog, entry, l, inp);
        ghost var r := Spot(Attempt(prog, entry, inp).pos, vm.caps[..], []);
        assert FirstMatch(l, inp, r);
        Report(vm.caps, nmatch, pmatch);
        return 0, start;
      }
      if vm.overflow {
        return -1, start;
      }
      AttemptFails(prog, entry, l, inp);
      if at >= |s| {
        break;
      }
      at := at + 1;
    }
    rc := REG_NOMATCH;
  }
}
