/**
 The instruction graph (utils/compat/airy_regex_internal.h) and its backtracking reading.

 `Walk` follows the graph from one SPLIT to the next; `Follow` obeys a word of choices at
 the SPLITs it meets; `Explore` is the depth-capped search of airy_re_run as a function.
 */
module RegexProgram {
  import opened Options
  import opened RegexSyntax
  import opened RegexMeaning

  const NULL := -1

  datatype Op = OpChar | OpAny | OpClass | OpAnchor | OpSave | OpSplit | OpJmp | OpMatch

  /** One instruction; `a` and `b` index the ownership list, or are NULL. */
  datatype Inst = Inst(op: Op, c: int, a: int, b: int)

  /** All instructions a compilation allocated, and its class tables laid end to end. */
  datatype Prog = Prog(insts: seq<Inst>, tables: seq<bv8>)

  predicate IsPtr(n: nat, p: int) {
    p == NULL || 0 <= p < n
  }

  /** Links stay inside the program; class indices and save slots are in range. */
  predicate InstOk(i: Inst, n: nat, tables: seq<bv8>) {
    && IsPtr(n, i.a) && IsPtr(n, i.b)
    && (i.op.OpClass? ==> 0 <= i.c && 32 * i.c + 32 <= |tables|)
    && (i.op.OpSave? ==> 0 <= i.c < 2 * MAX_GROUPS)
    && (i.op.OpChar? ==> 0 <= i.c < 256)
  }

  predicate Closed(p: Prog) {
    forall k :: 0 <= k < |p.insts| ==> InstOk(p.insts[k], |p.insts|, p.tables)
  }

  /** Following `a` from an instruction that is no SPLIT lowers the rank. */
  ghost predicate IsRank(insts: seq<Inst>, rank: seq<nat>) {
    |rank| == |insts| &&
    forall k :: 0 <= k < |insts| && !insts[k].op.OpSplit? && 0 <= insts[k].a < |insts| ==>
                rank[insts[k].a] < rank[k]
  }

  /** Every cycle of the graph passes through a SPLIT. */
  ghost predicate Ranked(insts: seq<Inst>) {
    exists rank :: IsRank(insts, rank)
  }

  ghost function RankOf(insts: seq<Inst>): (rank: seq<nat>)
    requires Ranked(insts)
    ensures IsRank(insts, rank)
  {
    var rank :| IsRank(insts, rank); rank
  }

  /** Steps left before the next SPLIT or the end. */
  ghost function Distance(p: Prog, pc: int): nat
    requires Runnable(p)
  {
    if 0 <= pc < |p.insts| then RankOf(p.insts)[pc] + 1 else 0
  }

  ghost predicate Runnable(p: Prog) {
    Closed(p) && Ranked(p.insts)
  }

  function TableAt(p: Prog, idx: nat): (t: Table)
    requires 32 * idx + 32 <= |p.tables|
  {
    p.tables[32 * idx..32 * idx + 32]
  }

  /** Where a branch-free walk ends. */
  datatype Stop = Dead | Done(pos: nat, caps: Caps) | Branch(a: int, b: int, pos: nat, caps: Caps)

  ghost function Walk(p: Prog, inp: Input, pc: int, pos: nat, caps: Caps): (r: Stop)
    requires Runnable(p) && IsPtr(|p.insts|, pc) && pos <= |inp.s|
    ensures r.Done? ==> pos <= r.pos <= |inp.s|
    ensures r.Branch? ==> IsPtr(|p.insts|, r.a) && IsPtr(|p.insts|, r.b) && pos <= r.pos <= |inp.s|
    decreases Distance(p, pc)
  {
    if pc == NULL then Done(pos, caps)
    else
      var i := p.insts[pc];
      assert InstOk(i, |p.insts|, p.tables);
      match i.op
      case OpChar =>
        if pos < |inp.s| && inp.s[pos] == i.c then Walk(p, inp, i.a, pos + 1, caps) else Dead
      case OpAny =>
        if pos < |inp.s| then Walk(p, inp, i.a, pos + 1, caps) else Dead
      case OpClass =>
        if pos < |inp.s| && TableHas(TableAt(p, i.c), inp.s[pos]) then Walk(p, inp, i.a, pos + 1, caps) else Dead
      case OpAnchor =>
        if i.c == CARET then (if pos == 0 then Walk(p, inp, i.a, pos, caps) else Dead)
        else (if pos == |inp.s| then Walk(p, inp, i.a, pos, caps) else Dead)
      case OpSave => Walk(p, inp, i.a, pos, SetCap(caps, i.c, pos - inp.start))
      case OpSplit => Branch(i.a, i.b, pos, caps)
      case OpJmp => Walk(p, inp, i.a, pos, caps)
      case OpMatch => Done(pos, caps)
  }

  /** Obeys the choices in `w` (`false` takes link `a`); accepts when the program ends
      exactly as the choices run out. */
  ghost function Follow(p: Prog, inp: Input, pc: int, pos: nat, caps: Caps, w: seq<bool>): Option<(nat, Caps)>
    requires Runnable(p) && IsPtr(|p.insts|, pc) && pos <= |inp.s|
    decreases |w|
  {
    match Walk(p, inp, pc, pos, caps)
    case Dead => None
    case Done(e, c) => if w == [] then Some((e, c)) else None
    case Branch(a, b, q, c) => if w == [] then None else Follow(p, inp, if w[0] then b else a, q, c, w[1..])
  }

  /** Every SPLIT that the choices speak of is reached. */
  ghost predicate Alive(p: Prog, inp: Input, pc: int, pos: nat, caps: Caps, w: seq<bool>)
    requires Runnable(p) && IsPtr(|p.insts|, pc) && pos <= |inp.s|
    decreases |w|
  {
    w == [] ||
    match Walk(p, inp, pc, pos, caps)
    case Branch(a, b, q, c) => Alive(p, inp, if w[0] then b else a, q, c, w[1..])
    case _ => false
  }

  datatype Verdict = Accept(pos: nat, caps: Caps) | Fail | Overflow

  /** The search of airy_re_run entered with `depth` calls already active. */
  ghost function Explore(p: Prog, inp: Input, pc: int, pos: nat, caps: Caps, depth: nat): (r: Verdict)
    requires Runnable(p) && IsPtr(|p.insts|, pc) && pos <= |inp.s| && depth <= MAX_DEPTH
    decreases MAX_DEPTH - depth
  {
    if depth == MAX_DEPTH then Overflow
    else match Walk(p, inp, pc, pos, caps)
      case Dead => Fail
      case Done(e, c) => Accept(e, c)
      case Branch(a, b, q, c) =>
        var first := Explore(p, inp, a, q, c, depth + 1);
        if first.Fail? then Explore(p, inp, b, q, c, depth + 1) else first
  }

  /** `u` comes before `w` in the order in which the search tries choice words. */
  predicate Before(u: seq<bool>, w: seq<bool>) {
    u != [] && w != [] &&
    if u[0] == w[0] then Before(u[1..], w[1..]) else w[0]
  }

  ghost predicate FirstAccepted(p: Prog, inp: Input, pc: int, pos: nat, caps: Caps, w: seq<bool>)
    requires Runnable(p) && IsPtr(|p.insts|, pc) && pos <= |inp.s|
  {
    && Follow(p, inp, pc, pos, caps, w).Some?
    && forall u :: Before(u, w) ==> Follow(p, inp, pc, pos, caps, u).None?
  }

  /** An accepting search reports the end and the captures of the first accepting path in
      SPLIT order; nothing from abandoned branches survives. */
  lemma {:induction false} ExploreAccepts(p: Prog, inp: Input, pc: int, pos: nat, caps: Caps, depth: nat)
    returns (w: seq<bool>)
    requires Runnable(p) && IsPtr(|p.insts|, pc) && pos <= |inp.s| && depth <= MAX_DEPTH
    requires Explore(p, inp, pc, pos, caps, depth).Accept?
    ensures FirstAccepted(p, inp, pc, pos, caps, w)
    ensures var v := Explore(p, inp, pc, pos, caps, depth);
            Follow(p, inp, pc, pos, caps, w) == Some((v.pos, v.caps))
    decreases MAX_DEPTH - depth
  {
    match Walk(p, inp, pc, pos, caps)
    case Done(e, c) => w := [];
    case Branch(a, b, q, c) =>
      var first := Explore(p, inp, a, q, c, depth + 1);
      if first.Fail? {
        ExploreFails(p, inp, a, q, c, depth + 1);
        var w1 := ExploreAccepts(p, inp, b, q, c, depth + 1);
        w := [true] + w1;
        assert w[1..] == w1;
      } else {
        var w1 := ExploreAccepts(p, inp, a, q, c, depth + 1);
        w := [false] + w1;
        assert w[1..] == w1;
      }
  }

  /** A search that fails without overflow has ruled out every path. */
  lemma {:induction false} ExploreFails(p: Prog, inp: Input, pc: int, pos: nat, caps: Caps, depth: nat)
    requires Runnable(p) && IsPtr(|p.insts|, pc) && pos <= |inp.s| && depth <= MAX_DEPTH
    requires Explore(p, inp, pc, pos, caps, depth).Fail?
    ensures forall u :: Follow(p, inp, pc, pos, caps, u).None?
    decreases MAX_DEPTH - depth
  {
    match Walk(p, inp, pc, pos, caps)
    case Dead =>
    case Branch(a, b, q, c) =>
      ExploreFails(p, inp, a, q, c, depth + 1);
      ExploreFails(p, inp, b, q, c, depth + 1);
  }

  /** An overflow is caused by a live path through as many SPLITs as calls were left, tried
      before any accepting path. */
  lemma {:induction false} ExploreOverflows(p: Prog, inp: Input, pc: int, pos: nat, caps: Caps, depth: nat)
    returns (w: seq<bool>)
    requires Runnable(p) && IsPtr(|p.insts|, pc) && pos <= |inp.s| && depth <= MAX_DEPTH
    requires Explore(p, inp, pc, pos, caps, depth).Overflow?
    ensures |w| == MAX_DEPTH - depth && Alive(p, inp, pc, pos, caps, w)
    ensures forall u :: Before(u, w) ==> Follow(p, inp, pc, pos, caps, u).None?
    decreases MAX_DEPTH - depth
  {
    if depth == MAX_DEPTH {
      w := [];
    } else {
      var Branch(a, b, q, c) := Walk(p, inp, pc, pos, caps);
      if Explore(p, inp, a, q, c, depth + 1).Overflow? {
        var w1 := ExploreOverflows(p, inp, a, q, c, depth + 1);
        w := [false] + w1;
        assert w[1..] == w1;
      } else {
        ExploreFails(p, inp, a, q, c, depth + 1);
        var w1 := ExploreOverflows(p, inp, b, q, c, depth + 1);
        w := [true] + w1;
        assert w[1..] == w1;
      }
    }
  }

  /** Conversely such a path always overflows the search. */
  lemma {:induction false} LongPathOverflows(p: Prog, inp: Input, pc: int, pos: nat, caps: Caps, depth: nat,
                                             w: seq<bool>)
    requires Runnable(p) && IsPtr(|p.insts|, pc) && pos <= |inp.s| && depth <= MAX_DEPTH
    requires |w| == MAX_DEPTH - depth && Alive(p, inp, pc, pos, caps, w)
    requires forall u :: Before(u, w) ==> Follow(p, inp, pc, pos, caps, u).None?
    ensures Explore(p, inp, pc, pos, caps, depth).Overflow?
    decreases MAX_DEPTH - depth
  {
    if depth < MAX_DEPTH {
      var Branch(a, b, q, c) := Walk(p, inp, pc, pos, caps);
      var next := if w[0] then b else a;
      forall u | Before(u, w[1..]) ensures Follow(p, inp, next, q, c, u).None? {
        assert ([w[0]] + u)[1..] == u;
        assert Before([w[0]] + u, w);
      }
      LongPathOverflows(p, inp, next, q, c, depth + 1, w[1..]);
      if w[0] && Explore(p, inp, a, q, c, depth + 1).Accept? {
        var u := ExploreAccepts(p, inp, a, q, c, depth + 1);
        assert ([false] + u)[1..] == u;
        assert Before([false] + u, w);
        assert false;
      }
    }
  }

  /** Two accepting words are comparable, so the first one is unique. */
  lemma {:induction false} AcceptedComparable(p: Prog, inp: Input, pc: int, pos: nat, caps: Caps, u: seq<bool>,
                                              w: seq<bool>)
    requires Runnable(p) && IsPtr(|p.insts|, pc) && pos <= |inp.s|
    requires Follow(p, inp, pc, pos, caps, u).Some? && Follow(p, inp, pc, pos, caps, w).Some?
    ensures u == w || Before(u, w) || Before(w, u)
    decreases |u|
  {
    match Walk(p, inp, pc, pos, caps)
    case Done(_, _) =>
    case Branch(a, b, q, c) =>
      if u[0] == w[0] {
        AcceptedComparable(p, inp, if w[0] then b else a, q, c, u[1..], w[1..]);
        assert u == [u[0]] + u[1..] && w == [w[0]] + w[1..];
      }
  }
}
