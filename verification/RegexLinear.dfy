/**
 Branch-free fragments: the instruction strings that repeat expansion clones
 (utils/compat/airy_regex_compile.c, airy_re_clone_linear and airy_re_chain_tail).
 */
module RegexLinear {
  import opened RegexSyntax
  import opened RegexProgram
  import opened RegexEncoding

  /** Opcode and operand of the instructions along an `a`-chain. */
  type Code = seq<(Op, int)>

  /** From `e` the `a`-chain spells `code`, without any `b` link, and arrives at `after`. */
  predicate Chain(p: Prog, e: int, after: int, code: Code)
    decreases |code|
  {
    if code == [] then e == after
    else
      && 0 <= e < |p.insts| && p.insts[e].b == NULL && !p.insts[e].op.OpSplit?
      && (p.insts[e].op, p.insts[e].c) == code[0]
      && Chain(p, p.insts[e].a, after, code[1..])
  }

  lemma {:induction false} ChainConcat(p: Prog, e: int, m: int, after: int, c1: Code, c2: Code)
    requires Chain(p, e, m, c1) && Chain(p, m, after, c2)
    ensures Chain(p, e, after, c1 + c2)
    decreases |c1|
  {
    if c1 == [] {
      assert c1 + c2 == c2;
    } else {
      ChainConcat(p, p.insts[e].a, m, after, c1[1..], c2);
      assert (c1 + c2)[1..] == c1[1..] + c2;
    }
  }

  lemma {:induction false} ChainSplit(p: Prog, e: int, after: int, c1: Code, c2: Code) returns (m: int)
    requires Closed(p) && IsPtr(|p.insts|, e) && Chain(p, e, after, c1 + c2)
    ensures IsPtr(|p.insts|, m) && Chain(p, e, m, c1) && Chain(p, m, after, c2)
    decreases |c1|
  {
    if c1 == [] {
      assert c1 + c2 == c2;
      m := e;
    } else {
      assert (c1 + c2)[1..] == c1[1..] + c2;
      assert InstOk(p.insts[e], |p.insts|, p.tables);
      m := ChainSplit(p, p.insts[e].a, after, c1[1..], c2);
    }
  }

  lemma {:induction false} ChainExtend(p: Prog, q: Prog, e: int, after: int, code: Code)
    requires Extends(p, q) && Chain(p, e, after, code)
    ensures Chain(q, e, after, code)
    decreases |code|
  {
    if code != [] {
      ChainExtend(p, q, p.insts[e].a, after, code[1..]);
    }
  }

  // ---------------------------------------------------------------------------------
  // Which nodes compile without a branch

  predicate Linear(n: Node) {
    match n
    case Alt(_, _) => false
    case Repeat(child, lo, hi, _) => lo == hi && Linear(child)
    case Group(_, body) => LinearList(body)
    case _ => true
  }

  predicate LinearList(l: List) {
    match l case Nil => true case Cons(h, t) => Linear(h) && LinearList(t)
  }

  /** `code` is instruction code for the branch-free node `n`. */
  ghost predicate CodeOf(tables: seq<bv8>, n: Node, code: Code)
    decreases n, 0, 0
  {
    match n
    case Empty => code == []
    case Char(c) => code == [(OpChar, c)]
    case Any => code == [(OpAny, 0)]
    case Class(t) =>
      && |code| == 1 && code[0].0 == OpClass
      && 0 <= code[0].1 && 32 * code[0].1 + 32 <= |tables|
      && tables[32 * code[0].1..32 * code[0].1 + 32] == t
    case Anchor(c) => code == [(OpAnchor, c)]
    case Alt(_, _) => false
    case Repeat(child, lo, hi, _) => lo == hi && CodeOfTimes(tables, child, lo, code)
    case Group(gid, body) =>
      && |code| >= 2 && code[0] == (OpSave, 2 * gid) && code[|code| - 1] == (OpSave, 2 * gid + 1)
      && CodeOfList(tables, body, code[1..|code| - 1])
  }

  ghost predicate CodeOfList(tables: seq<bv8>, l: List, code: Code)
    decreases l, 0, 0
  {
    match l
    case Nil => code == []
    case Cons(h, t) =>
      exists c1: Code, c2: Code :: code == c1 + c2 && CodeOf(tables, h, c1) && CodeOfList(tables, t, c2)
  }

  ghost predicate CodeOfTimes(tables: seq<bv8>, n: Node, k: nat, code: Code)
    decreases n, 1, k
  {
    if k == 0 then code == []
    else exists c1: Code, c2: Code :: code == c1 + c2 && CodeOf(tables, n, c1) && CodeOfTimes(tables, n, k - 1, c2)
  }

  lemma GroupCode(tables: seq<bv8>, gid: nat, body: List, inner: Code, code: Code)
    requires CodeOfList(tables, body, inner)
    requires code == [(OpSave, 2 * gid)] + (inner + [(OpSave, 2 * gid + 1)])
    ensures CodeOf(tables, Group(gid, body), code)
  {
    assert code[1..|code| - 1] == inner;
  }

  /** The encoding of a branch-free node is a chain. */
  lemma {:induction false} LinearCode(p: Prog, e: int, after: int, n: Node) returns (code: Code)
    requires WellFormed(n) && Linear(n) && Encodes(p, e, after, n)
    ensures Chain(p, e, after, code) && CodeOf(p.tables, n, code)
    decreases n, 0, 0
  {
    match n
    case Empty => code := [];
    case Alt(_, _) => assert false;
    case Group(gid, body) =>
      var close :| Has(p, close, Inst(OpSave, 2 * gid + 1, after, NULL)) && EncodesList(p, p.insts[e].a, close, body);
      var inner := LinearListCode(p, p.insts[e].a, close, body);
      var last := [(OpSave, 2 * gid + 1)];
      assert last[1..] == [];
      assert Chain(p, close, after, last);
      ChainConcat(p, p.insts[e].a, close, after, inner, last);
      code := [(OpSave, 2 * gid)] + (inner + last);
      assert code[1..] == inner + last;
      GroupCode(p.tables, gid, body, inner, code);
    case Repeat(child, lo, hi, greedy) =>
      var m :| IsPtr(|p.insts|, m) && EncodesTimes(p, e, m, child, lo) &&
               EncodesOptional(p, m, after, child, 0, greedy);
      code := LinearTimesCode(p, e, m, child, lo);
    case _ =>
      code := [(p.insts[e].op, p.insts[e].c)];
      assert code[1..] == [];
  }

  lemma {:induction false} LinearListCode(p: Prog, e: int, after: int, l: List) returns (code: Code)
    requires WellFormedList(l) && LinearList(l) && EncodesList(p, e, after, l)
    ensures Chain(p, e, after, code) && CodeOfList(p.tables, l, code)
    decreases l, 0, 0
  {
    match l
    case Nil => code := [];
    case Cons(h, t) =>
      var m :| IsPtr(|p.insts|, m) && Encodes(p, e, m, h) && EncodesList(p, m, after, t);
      var c1 := LinearCode(p, e, m, h);
      var c2 := LinearListCode(p, m, after, t);
      code := c1 + c2;
      ChainConcat(p, e, m, after, c1, c2);
  }

  lemma {:induction false} LinearTimesCode(p: Prog, e: int, after: int, n: Node, k: nat) returns (code: Code)
    requires WellFormed(n) && Linear(n) && EncodesTimes(p, e, after, n, k)
    ensures Chain(p, e, after, code) && CodeOfTimes(p.tables, n, k, code)
    decreases n, 1, k
  {
    if k == 0 {
      code := [];
    } else {
      var m :| IsPtr(|p.insts|, m) && Encodes(p, e, m, n) && EncodesTimes(p, m, after, n, k - 1);
      var c1 := LinearCode(p, e, m, n);
      var c2 := LinearTimesCode(p, m, after, n, k - 1);
      code := c1 + c2;
      ChainConcat(p, e, m, after, c1, c2);
    }
  }

  /** Any chain that spells the same code encodes the same node, wherever it continues:
      this is why cloning a branch-free body is correct. */
  lemma {:induction false} CodeEncodes(tables: seq<bv8>, p: Prog, e: int, after: int, n: Node, code: Code)
    requires WellFormed(n) && Closed(p) && IsPtr(|p.insts|, e) && IsPtr(|p.insts|, after)
    requires tables <= p.tables && CodeOf(tables, n, code) && Chain(p, e, after, code)
    ensures Encodes(p, e, after, n)
    decreases n, 0, 0
  {
    match n
    case Empty =>
    case Group(gid, body) =>
      var inner, last := code[1..|code| - 1], [code[|code| - 1]];
      assert code[1..] == inner + last;
      assert InstOk(p.insts[e], |p.insts|, p.tables);
      var close := ChainSplit(p, p.insts[e].a, after, inner, last);
      assert last[1..] == [];
      assert Has(p, close, Inst(OpSave, 2 * gid + 1, after, NULL));
      CodeListEncodes(tables, p, p.insts[e].a, close, body, inner);
    case Repeat(child, lo, hi, greedy) =>
      CodeTimesEncodes(tables, p, e, after, child, lo, code);
      assert EncodesOptional(p, after, after, child, 0, greedy);
    case Class(t) =>
      assert code[1..] == [];
      assert TableAt(p, p.insts[e].c) == t;
    case _ =>
      assert code[1..] == [];
  }

  lemma {:induction false} CodeListEncodes(tables: seq<bv8>, p: Prog, e: int, after: int, l: List, code: Code)
    requires WellFormedList(l) && Closed(p) && IsPtr(|p.insts|, e) && IsPtr(|p.insts|, after)
    requires tables <= p.tables && CodeOfList(tables, l, code) && Chain(p, e, after, code)
    ensures EncodesList(p, e, after, l)
    decreases l, 0, 0
  {
    match l
    case Nil =>
    case Cons(h, t) =>
      var c1: Code, c2: Code :| code == c1 + c2 && CodeOf(tables, h, c1) && CodeOfList(tables, t, c2);
      var m := ChainSplit(p, e, after, c1, c2);
      CodeEncodes(tables, p, e, m, h, c1);
      CodeListEncodes(tables, p, m, after, t, c2);
  }

  lemma {:induction false} CodeTimesEncodes(tables: seq<bv8>, p: Prog, e: int, after: int, n: Node, k: nat, code: Code)
    requires WellFormed(n) && Closed(p) && IsPtr(|p.insts|, e) && IsPtr(|p.insts|, after)
    requires tables <= p.tables && CodeOfTimes(tables, n, k, code) && Chain(p, e, after, code)
    ensures EncodesTimes(p, e, after, n, k)
    decreases n, 1, k
  {
    if k > 0 {
      var c1: Code, c2: Code :| code == c1 + c2 && CodeOf(tables, n, c1) && CodeOfTimes(tables, n, k - 1, c2);
      var m := ChainSplit(p, e, after, c1, c2);
      CodeEncodes(tables, p, e, m, n, c1);
      CodeTimesEncodes(tables, p, m, after, n, k - 1, c2);
    }
  }

  // ---------------------------------------------------------------------------------
  // Which nodes compile at all

  /** Compiling `n` yields an entry; `atEnd` says that the continuation is NULL. */
  predicate Compiles(n: Node, atEnd: bool) {
    match n
    case Empty => !atEnd
    case Alt(a, b) => CompilesList(a, atEnd) && CompilesList(b, atEnd)
    case Repeat(child, lo, hi, _) =>
      Compiles(child, true) && Linear(child) && (hi == 0 ==> !atEnd)
    case Group(_, body) => CompilesList(body, false)
    case _ => true
  }

  predicate CompilesList(l: List, atEnd: bool) {
    match l
    case Nil => !atEnd
    case Cons(h, t) => if t.Nil? then Compiles(h, atEnd) else CompilesList(t, atEnd) && Compiles(h, false)
  }

  lemma {:induction false} EncodedEntry(p: Prog, e: int, after: int, n: Node)
    requires WellFormed(n) && Encodes(p, e, after, n) && (IsAtom(n) || n.Alt?)
    ensures 0 <= e < |p.insts|
  {
  }

  /** Walking the `a`-chain of a branching node runs into a node with a `b` link. */
  lemma {:induction false} BranchFound(p: Prog, e: int, after: int, n: Node) returns (code: Code, q: int)
    requires WellFormed(n) && Compiles(n, after == NULL) && !Linear(n) && Encodes(p, e, after, n)
    requires after != NULL || IsAtom(n)
    ensures Chain(p, e, q, code) && 0 <= q < |p.insts| && p.insts[q].b != NULL
    decreases n, 0, 0
  {
    match n
    case Alt(a, b) =>
      code, q := [], e;
      EncodedListEntry(p, p.insts[e].b, after, b);
    case Group(gid, body) =>
      var close :| Has(p, close, Inst(OpSave, 2 * gid + 1, after, NULL)) && EncodesList(p, p.insts[e].a, close, body);
      var inner;
      inner, q := BranchFoundList(p, p.insts[e].a, close, body);
      code := [(OpSave, 2 * gid)] + inner;
      assert code[1..] == inner;
    case Repeat(child, lo, hi, greedy) =>
      var m :| IsPtr(|p.insts|, m) && EncodesTimes(p, e, m, child, lo) &&
               if hi < 0 then EncodesLoop(p, m, after, child, greedy)
               else EncodesOptional(p, m, after, child, hi - lo, greedy);
      code := LinearTimesCode(p, e, m, child, lo);
      q := m;
      if hi >= 0 {
        OptionalBranches(p, m, after, child, hi - lo, greedy);
      } else if !greedy {
        EncodedEntry(p, BodyLink(p.insts[m], greedy), m, child);
      }
    case _ => assert false;
  }

  lemma OptionalBranches(p: Prog, e: int, after: int, n: Node, k: nat, greedy: bool)
    requires WellFormed(n) && IsAtom(n) && after != NULL && k > 0 && EncodesOptional(p, e, after, n, k, greedy)
    ensures IsSplit(p, e) && p.insts[e].b != NULL
  {
    if greedy {
      assert EncodesOptional(p, p.insts[e].b, after, n, k - 1, greedy);
    } else {
      EncodedEntry(p, p.insts[e].b, p.insts[e].a, n);
    }
  }

  lemma {:induction false} BranchFoundList(p: Prog, e: int, after: int, l: List) returns (code: Code, q: int)
    requires WellFormedList(l) && CompilesList(l, false) && after != NULL && !LinearList(l)
    requires EncodesList(p, e, after, l)
    ensures Chain(p, e, q, code) && 0 <= q < |p.insts| && p.insts[q].b != NULL
    decreases l, 0, 0
  {
    var m :| IsPtr(|p.insts|, m) && Encodes(p, e, m, l.head) && EncodesList(p, m, after, l.tail);
    EncodedListEntry(p, m, after, l.tail);
    if Linear(l.head) {
      var c1 := LinearCode(p, e, m, l.head);
      var c2;
      c2, q := BranchFoundList(p, m, after, l.tail);
      code := c1 + c2;
      ChainConcat(p, e, m, q, c1, c2);
    } else {
      code, q := BranchFound(p, e, m, l.head);
    }
  }

  /** A list with a continuation is entered somewhere. */
  lemma {:induction false} EncodedListEntry(p: Prog, e: int, after: int, l: List)
    requires WellFormedList(l) && EncodesList(p, e, after, l)
    requires after != NULL || CompilesList(l, true)
    ensures e != NULL
    decreases l, 0, 0
  {
    match l
    case Nil =>
    case Cons(h, t) =>
      var m :| IsPtr(|p.insts|, m) && Encodes(p, e, m, h) && EncodesList(p, m, after, t);
      if t.Cons? || after != NULL {
        EncodedListEntry(p, m, after, t);
      }
      EncodedNodeEntry(p, e, m, h);
  }

  lemma {:induction false} EncodedNodeEntry(p: Prog, e: int, after: int, n: Node)
    requires WellFormed(n) && Encodes(p, e, after, n)
    requires after != NULL || Compiles(n, true)
    ensures e != NULL
    decreases n, 0, 0
  {
    match n
    case Repeat(child, lo, hi, greedy) =>
      var m :| IsPtr(|p.insts|, m) && EncodesTimes(p, e, m, child, lo) &&
               if hi < 0 then EncodesLoop(p, m, after, child, greedy)
               else EncodesOptional(p, m, after, child, hi - lo, greedy);
      if lo > 0 {
        var m1 :| IsPtr(|p.insts|, m1) && Encodes(p, e, m1, child) && EncodesTimes(p, m1, m, child, lo - 1);
        EncodedEntry(p, e, m1, child);
      }
    case _ =>
  }

  // ---------------------------------------------------------------------------------
  // The layout of a cloned chain

  /** A clone of `code` allocated from index `base` on, its last link set to `next`. */
  function Strip(code: Code, base: nat, next: int): (r: seq<Inst>)
    ensures |r| == |code|
  {
    seq(|code|, k requires 0 <= k < |code| =>
      Inst(code[k].0, code[k].1, if k + 1 < |code| then base + k + 1 else next, NULL))
  }

  predicate OperandOk(i: (Op, int), tables: seq<bv8>) {
    InstOk(Inst(i.0, i.1, NULL, NULL), 0, tables)
  }

  predicate NoSplit(code: Code) {
    forall k :: 0 <= k < |code| ==> !code[k].0.OpSplit?
  }

  lemma {:induction false} ChainNoSplit(p: Prog, e: int, after: int, code: Code)
    requires Chain(p, e, after, code)
    ensures NoSplit(code)
    ensures Closed(p) ==> forall k :: 0 <= k < |code| ==> OperandOk(code[k], p.tables)
    decreases |code|
  {
    if code != [] {
      ChainNoSplit(p, p.insts[e].a, after, code[1..]);
      if Closed(p) { assert InstOk(p.insts[e], |p.insts|, p.tables); }
      assert forall k :: 1 <= k < |code| ==> code[k] == code[1..][k - 1];
    }
  }

  lemma {:induction false} StripChain(p: Prog, base: nat, next: int, code: Code, k: nat)
    requires NoSplit(code) && k <= |code| && base + |code| <= |p.insts|
    requires p.insts[base..base + |code|] == Strip(code, base, next)
    ensures Chain(p, if k < |code| then base + k else next, next, code[k..])
    decreases |code| - k
  {
    if k < |code| {
      StripChain(p, base, next, code, k + 1);
      assert p.insts[base + k] == p.insts[base..base + |code|][k];
      assert code[k..][1..] == code[k + 1..];
    }
  }
}
