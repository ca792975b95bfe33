/**
 The compiler of utils/compat/airy_regex_compile.c.  Instructions live in `insts`, the
 ownership list of the source; a pointer is an index into it, and links are patched in
 place.  Every method says which AST its result encodes and when it gives up.
 */
module RegexCompile {
  import opened RegexSyntax
  import opened RegexProgram
  import opened RegexEncoding
  import opened RegexLinear

  /** Instructions from `base` on link only to each other, to `after`, or nowhere. */
  predicate RefsFrom(insts: seq<Inst>, base: nat, after: int) {
    forall k :: base <= k < |insts| ==> RefOk(insts[k].a, base, after) && RefOk(insts[k].b, base, after)
  }

  predicate RefOk(r: int, base: nat, after: int) {
    r == NULL || r == after || base <= r
  }

  /** What a compilation step leaves behind. */
  ghost predicate Grown(p: Prog, q: Prog, after: int) {
    Extends(p, q) && Runnable(q) && RefsFrom(q.insts, |p.insts|, after)
  }

  lemma RankAppend(p: Prog, i: Inst)
    requires Runnable(p) && InstOk(i, |p.insts|, p.tables)
    ensures Runnable(Prog(p.insts + [i], p.tables))
  {
    var rank := RankOf(p.insts);
    var q := p.insts + [i];
    var r := rank + [if i.a == NULL then 0 else rank[i.a] + 1];
    forall k | 0 <= k < |q| && !q[k].op.OpSplit? && 0 <= q[k].a < |q| ensures r[q[k].a] < r[k] {
      if k < |p.insts| { assert InstOk(p.insts[k], |p.insts|, p.tables); }
    }
    assert IsRank(q, r);
    forall k | 0 <= k < |q| ensures InstOk(q[k], |q|, p.tables) {
      if k < |p.insts| { assert InstOk(p.insts[k], |p.insts|, p.tables); }
    }
  }

  lemma TablesAppend(p: Prog, t: Table)
    requires Runnable(p)
    ensures Runnable(Prog(p.insts, p.tables + t))
  {
    forall k | 0 <= k < |p.insts| ensures InstOk(p.insts[k], |p.insts|, p.tables + t) {
      assert InstOk(p.insts[k], |p.insts|, p.tables);
    }
  }

  /** Linking an instruction that nothing refers to cannot close a cycle. */
  lemma RankPatch(p: Prog, at: nat, i: Inst)
    requires Runnable(p) && at < |p.insts| && InstOk(i, |p.insts|, p.tables) && i.a != at
    requires forall k :: 0 <= k < |p.insts| ==> p.insts[k].a != at
    ensures Runnable(Prog(p.insts[at := i], p.tables))
  {
    var rank := RankOf(p.insts);
    var q := p.insts[at := i];
    var r := rank[at := if i.a == NULL then 0 else rank[i.a] + 1];
    assert IsRank(q, r);
  }

  lemma SplitPatch(p: Prog, at: nat, i: Inst)
    requires Runnable(p) && at < |p.insts| && InstOk(i, |p.insts|, p.tables)
    requires i.op.OpSplit?
    ensures Runnable(Prog(p.insts[at := i], p.tables))
  {
    assert IsRank(p.insts[at := i], RankOf(p.insts));
  }

  predicate Clonable(code: Code, tables: seq<bv8>) {
    code != [] && NoSplit(code) && forall k :: 0 <= k < |code| ==> OperandOk(code[k], tables)
  }

  lemma StripRanked(p: Prog, code: Code, next: int)
    requires Runnable(p) && IsPtr(|p.insts|, next) && Clonable(code, p.tables)
    ensures Ranked(p.insts + Strip(code, |p.insts|, next))
  {
    var n, m := |p.insts|, |code|;
    var q := p.insts + Strip(code, n, next);
    var rank := RankOf(p.insts);
    var top := if next == NULL then 0 else rank[next] + 1;
    var r := rank + seq(m, k requires 0 <= k < m => top + m - k);
    forall k | 0 <= k < |q| && !q[k].op.OpSplit? && 0 <= q[k].a < |q| ensures r[q[k].a] < r[k] {
      if k < n { assert InstOk(p.insts[k], n, p.tables); }
    }
    assert IsRank(q, r);
  }

  lemma {:induction false} StripRunnable(p: Prog, code: Code, next: int)
    requires Runnable(p) && IsPtr(|p.insts|, next) && Clonable(code, p.tables)
    ensures Runnable(Prog(p.insts + Strip(code, |p.insts|, next), p.tables))
    ensures Chain(Prog(p.insts + Strip(code, |p.insts|, next), p.tables), |p.insts|, next, code)
  {
    var n, m := |p.insts|, |code|;
    var q := p.insts + Strip(code, n, next);
    StripRanked(p, code, next);
    hide Ranked, Chain;
    forall k | 0 <= k < |q| ensures InstOk(q[k], |q|, p.tables) {
      if k < n { assert InstOk(p.insts[k], n, p.tables); }
      else { assert OperandOk(code[k - n], p.tables); }
    }
    assert q[n..n + m] == Strip(code, n, next);
    StripChain(Prog(q, p.tables), n, next, code, 0);
    assert code[0..] == code;
  }

  /** A SPLIT followed by a clone of the body that comes back to `back`. */
  function Block(insts: seq<Inst>, code: Code, greedy: bool, skip: int, back: int): seq<Inst> {
    var body := |insts| + 1;
    insts + [Inst(OpSplit, 0, if greedy then body else skip, if greedy then skip else body)] + Strip(code, body, back)
  }

  lemma BlockRunnable(p: Prog, code: Code, greedy: bool, skip: int, back: int, q: Prog)
    requires Runnable(p) && IsPtr(|p.insts|, skip) && Clonable(code, p.tables)
    requires back == skip || back == |p.insts|
    requires q == Prog(Block(p.insts, code, greedy, skip, back), p.tables)
    ensures Runnable(q) && Extends(p, q) && Chain(q, |p.insts| + 1, back, code)
    ensures q.insts[|p.insts|].op.OpSplit?
    ensures BodyLink(q.insts[|p.insts|], greedy) == |p.insts| + 1
    ensures SkipLink(q.insts[|p.insts|], greedy) == skip
  {
    hide Runnable, Clonable, Strip;
    var n := |p.insts|;
    RankAppend(p, Inst(OpSplit, 0, NULL, NULL));
    var p1 := Prog(p.insts + [Inst(OpSplit, 0, NULL, NULL)], p.tables);
    StripRunnable(p1, code, back);
    BlockPatched(p1, n, code, back, q.insts[n], q);
  }

  lemma BlockPatched(p1: Prog, n: nat, code: Code, back: int, split: Inst, q: Prog)
    requires |p1.insts| == n + 1 && p1.insts[n].op.OpSplit? && code != []
    requires var p2 := Prog(p1.insts + Strip(code, n + 1, back), p1.tables);
             Runnable(p2) && Chain(p2, n + 1, back, code)
    requires split.op.OpSplit? && InstOk(split, n + 1 + |code|, p1.tables)
    requires q == Prog(p1.insts[..n] + [split] + Strip(code, n + 1, back), p1.tables)
    ensures Runnable(q) && Chain(q, n + 1, back, code)
  {
    var p2 := Prog(p1.insts + Strip(code, n + 1, back), p1.tables);
    SplitPatch(p2, n, split);
    assert q.insts == p2.insts[n := split];
    ChainAbove(p2, q, n, n + 1, back, code);
  }

  /** Patching a SPLIT leaves the chains that avoid it alone. */
  lemma {:induction false} ChainAbove(p: Prog, q: Prog, at: nat, e: int, after: int, code: Code)
    requires at < |p.insts| && p.insts[at].op.OpSplit? && Chain(p, e, after, code)
    requires |q.insts| == |p.insts| && forall k :: 0 <= k < |p.insts| && k != at ==> q.insts[k] == p.insts[k]
    ensures Chain(q, e, after, code)
    decreases |code|
  {
    if code != [] {
      ChainAbove(p, q, at, p.insts[e].a, after, code[1..]);
    }
  }

  lemma BlockRefs(insts: seq<Inst>, code: Code, greedy: bool, skip: int, back: int, base: nat, after: int)
    requires RefsFrom(insts, base, after) && base <= |insts| && RefOk(skip, base, after)
    requires back == skip || back == |insts|
    ensures RefsFrom(Block(insts, code, greedy, skip, back), base, after)
  {
  }

  lemma GroupRefs(p0: Prog, p2: Prog, q: Prog, after: int, save0: int, save1: int)
    requires Closed(p0) && IsPtr(|p0.insts|, after) && save0 == |p0.insts| && save1 == save0 + 1
    requires |p2.insts| == save0 + 2 && p0.insts <= p2.insts && p2.insts[save0].a == p2.insts[save0].b == NULL
    requires p2.insts[save1].a == after && p2.insts[save1].b == NULL && Grown(p2, q, save1)
    ensures forall k :: 0 <= k < |q.insts| ==> q.insts[k].a != save0 && q.insts[k].b != save0
    ensures RefsFrom(q.insts, |p0.insts|, after)
  {
    forall k | 0 <= k < |q.insts| ensures q.insts[k].a != save0 && q.insts[k].b != save0 {
      if k < |p0.insts| {
        assert InstOk(p0.insts[k], |p0.insts|, p0.tables);
        assert q.insts[k] == p0.insts[k];
      } else if k < |p2.insts| {
        assert q.insts[k] == p2.insts[k];
      }
    }
  }

  lemma GrownRefl(p: Prog, after: int)
    requires Runnable(p)
    ensures Grown(p, p, after)
  {
  }

  lemma GrownSize(p: Prog, q: Prog, after: int)
    requires Grown(p, q, after)
    ensures |p.insts| <= |q.insts|
  {
  }

  lemma GrownTrans(p: Prog, q: Prog, r: Prog, mid: int, after: int)
    requires Grown(p, q, after) && Grown(q, r, mid) && RefOk(mid, |p.insts|, after)
    ensures Grown(p, r, after)
  {
    forall k | |p.insts| <= k < |r.insts|
      ensures RefOk(r.insts[k].a, |p.insts|, after) && RefOk(r.insts[k].b, |p.insts|, after)
    {
      if k < |q.insts| { assert r.insts[k] == q.insts[k]; }
    }
  }

  lemma ListExtends(p: Prog, q: Prog, e: int, after: int, l: List)
    requires Runnable(p) && Extends(p, q) && IsPtr(|p.insts|, e) && WellFormedList(l) && EncodesList(p, e, after, l)
    ensures EncodesList(q, e, after, l)
  {
    ExtendsKeeps(p, q);
    EncodesListKept(p, q, NULL - 1, e, after, l);
  }

  lemma ListCons(p: Prog, q: Prog, e: int, m: int, after: int, l: List)
    requires Runnable(p) && Extends(p, q) && l.Cons? && WellFormedList(l)
    requires IsPtr(|p.insts|, m) && EncodesList(p, m, after, l.tail) && Encodes(q, e, m, l.head)
    ensures EncodesList(q, e, after, l)
  {
    ListExtends(p, q, m, after, l.tail);
  }

  lemma AltGrown(p0: Prog, p1: Prog, p2: Prog, q: Prog, b1: int, b2: int, after: int)
    requires Grown(p0, p2, after) && Grown(p1, p2, after) && |p0.insts| <= |p1.insts|
    requires IsPtr(|p1.insts|, b1) && IsPtr(|p2.insts|, b2)
    requires RefOk(b1, |p0.insts|, after) && RefOk(b2, |p1.insts|, after)
    requires q == Prog(p2.insts + [Inst(OpSplit, 0, b1, b2)], p2.tables)
    ensures Extends(p1, p2)
    ensures Runnable(q) && Grown(p0, q, after)
  {
    hide Closed, Ranked;
    RankAppend(p2, Inst(OpSplit, 0, b1, b2));
  }

  lemma AltEncodes(p1: Prog, p2: Prog, q: Prog, b1: int, b2: int, after: int, left: List, right: List)
    requires Runnable(p1) && Runnable(p2) && Extends(p1, p2) && WellFormedList(left) && WellFormedList(right)
    requires IsPtr(|p1.insts|, b1) && EncodesList(p1, b1, after, left)
    requires IsPtr(|p2.insts|, b2) && EncodesList(p2, b2, after, right)
    requires q == Prog(p2.insts + [Inst(OpSplit, 0, b1, b2)], p2.tables)
    ensures Encodes(q, |p2.insts|, after, Alt(left, right))
  {
    ListExtends(p1, q, b1, after, left);
    ListExtends(p2, q, b2, after, right);
  }

  lemma OptionalExtends(p: Prog, q: Prog, e: int, after: int, n: Node, k: nat, greedy: bool)
    requires Runnable(p) && Extends(p, q) && IsPtr(|p.insts|, e) && WellFormed(n)
    requires EncodesOptional(p, e, after, n, k, greedy)
    ensures EncodesOptional(q, e, after, n, k, greedy)
  {
    ExtendsKeeps(p, q);
    EncodesOptionalKept(p, q, NULL - 1, e, after, n, k, greedy);
  }

  lemma OptionalCons(p: Prog, q: Prog, e: int, skip: int, after: int, n: Node, k: nat, greedy: bool)
    requires Runnable(p) && Extends(p, q) && IsPtr(|p.insts|, skip) && WellFormed(n)
    requires EncodesOptional(p, skip, after, n, k, greedy)
    requires IsSplit(q, e) && SkipLink(q.insts[e], greedy) == skip && Encodes(q, BodyLink(q.insts[e], greedy), skip, n)
    ensures EncodesOptional(q, e, after, n, k + 1, greedy)
  {
    OptionalExtends(p, q, skip, after, n, k, greedy);
  }

  lemma TimesCons(p: Prog, q: Prog, e: int, m: int, after: int, n: Node, k: nat)
    requires Runnable(p) && Extends(p, q) && IsPtr(|p.insts|, m) && WellFormed(n) && EncodesTimes(p, m, after, n, k)
    requires Encodes(q, e, m, n)
    ensures EncodesTimes(q, e, after, n, k + 1)
  {
    ExtendsKeeps(p, q);
    EncodesTimesKept(p, q, NULL - 1, m, after, n, k);
  }

  /** The optional part or the loop of a repeat. */
  ghost predicate EncodesTail(p: Prog, e: int, after: int, n: Node)
    requires n.Repeat? && WellFormed(n)
  {
    if n.hi < 0 then EncodesLoop(p, e, after, n.child, n.greedy)
    else EncodesOptional(p, e, after, n.child, n.hi - n.lo, n.greedy)
  }

  lemma RepeatEncodes(p: Prog, q: Prog, e: int, tail: int, after: int, n: Node)
    requires Runnable(p) && Extends(p, q) && IsPtr(|p.insts|, tail) && n.Repeat? && WellFormed(n)
    requires EncodesTail(p, tail, after, n) && EncodesTimes(q, e, tail, n.child, n.lo)
    ensures Encodes(q, e, after, n)
  {
    if n.hi < 0 {
      ExtendsKeeps(p, q);
      assert InstOk(p.insts[tail], |p.insts|, p.tables);
      EncodesKept(p, q, NULL - 1, BodyLink(p.insts[tail], n.greedy), tail, n.child);
      assert EncodesLoop(q, tail, after, n.child, n.greedy);
    } else {
      OptionalExtends(p, q, tail, after, n.child, n.hi - n.lo, n.greedy);
    }
  }

  lemma BlockEncodes(p0: Prog, p: Prog, q: Prog, body: int, code: Code, greedy: bool, skip: int, back: int,
                     after: int, child: Node)
    requires Runnable(p) && IsPtr(|p.insts|, skip) && Clonable(code, p.tables) && (back == skip || back == |p.insts|)
    requires q == Prog(Block(p.insts, code, greedy, skip, back), p.tables)
    requires WellFormed(child) && CodeOf(p.tables, child, code) && Chain(p, body, NULL, code)
    requires Grown(p0, p, after) && RefOk(skip, |p0.insts|, after)
    ensures Runnable(q) && Extends(p, q) && Grown(p0, q, after) && IsSplit(q, |p.insts|)
    ensures BodyLink(q.insts[|p.insts|], greedy) == |p.insts| + 1 && SkipLink(q.insts[|p.insts|], greedy) == skip
    ensures Encodes(q, |p.insts| + 1, back, child) && Chain(q, body, NULL, code)
  {
    BlockRunnable(p, code, greedy, skip, back, q);
    BlockRefs(p.insts, code, greedy, skip, back, |p0.insts|, after);
    ChainExtend(p, q, body, NULL, code);
    CodeEncodes(p.tables, q, |p.insts| + 1, back, child, code);
  }

  lemma ChainClonable(p: Prog, body: int, code: Code)
    requires Runnable(p) && body != NULL && Chain(p, body, NULL, code)
    ensures Clonable(code, p.tables)
  {
    ChainNoSplit(p, body, NULL, code);
  }

  /** What is left of a list after `k` nodes. */
  function Rest(l: List, k: nat): List
    requires k <= Length(l)
  {
    if k == 0 then l else Rest(l.tail, k - 1)
  }

  lemma {:induction false} RestFacts(l: List, k: nat)
    requires k <= Length(l)
    ensures Length(Rest(l, k)) == Length(l) - k
    ensures SizeList(Rest(l, k)) <= SizeList(l)
    ensures WellFormedList(l) ==> WellFormedList(Rest(l, k))
    ensures Rest(l, k).Cons? ==> k < Length(l) && Rest(l, k + 1) == Rest(l, k).tail
    decreases k
  {
    if k > 0 { RestFacts(l.tail, k - 1); }
  }

  /** A suffix that does not compile takes the whole list with it. */
  lemma {:induction false} NoSuffixNoList(l: List, i: nat, atEnd: bool)
    requires i < Length(l) && i < MAX_CONCAT && !CompilesList(CutList(Rest(l, i), MAX_CONCAT - i), atEnd)
    ensures !CompilesList(CutList(l, MAX_CONCAT), atEnd)
  {
    NoSuffixNoListFrom(l, i, MAX_CONCAT, atEnd);
  }

  lemma {:induction false} NoSuffixNoListFrom(l: List, i: nat, room: nat, atEnd: bool)
    requires i < Length(l) && i < room && !CompilesList(CutList(Rest(l, i), room - i), atEnd)
    ensures !CompilesList(CutList(l, room), atEnd)
    decreases i
  {
    if i > 0 {
      NoSuffixNoListFrom(l.tail, i - 1, room - 1, atEnd);
    }
  }

  /** The nodes a compilation of the list looks at. */
  ghost predicate NodesOf(l: List, nodes: seq<Node>) {
    && |nodes| <= MAX_CONCAT && |nodes| <= Length(l) && (|nodes| == MAX_CONCAT || |nodes| == Length(l))
    && forall k :: 0 <= k < |nodes| ==> Rest(l, k).Cons? && nodes[k] == Rest(l, k).head
  }

  lemma NodeTaken(l: List, nodes: seq<Node>, i: nat)
    requires NodesOf(l, nodes) && i < |nodes| && WellFormedList(l)
    ensures i < Length(l) && i < MAX_CONCAT && Rest(l, i).Cons? && nodes[i] == Rest(l, i).head
    ensures WellFormedList(Rest(l, i)) && Rest(l, i + 1) == Rest(l, i).tail
    ensures WellFormed(nodes[i]) && Size(nodes[i]) < SizeList(l)
  {
    RestFacts(l, i);
    hide Rest;
  }

  lemma TakenAll(l: List, nodes: seq<Node>, atEnd: bool)
    requires NodesOf(l, nodes)
    ensures |nodes| <= Length(l) && |nodes| <= MAX_CONCAT && CutList(Rest(l, |nodes|), MAX_CONCAT - |nodes|) == Nil
  {
    RestFacts(l, |nodes|);
  }

  /** From node `i` on the list is compiled: entered at `cont`, or impossible. */
  ghost predicate SuffixDone(p: Prog, cont: int, after: int, l: List, i: nat) {
    && i <= Length(l) && i <= MAX_CONCAT && WellFormedList(Rest(l, i))
    && var suffix := CutList(Rest(l, i), MAX_CONCAT - i);
       ((cont != NULL) == CompilesList(suffix, after == NULL)) && EncodesList(p, cont, after, suffix)
  }

  lemma NothingAfter(p: Prog, after: int, l: List, i: nat)
    requires i <= Length(l) && i <= MAX_CONCAT && WellFormedList(l) && CutList(Rest(l, i), MAX_CONCAT - i) == Nil
    ensures SuffixDone(p, after, after, l, i)
  {
    RestFacts(l, i);
  }

  lemma WholeList(p: Prog, cont: int, after: int, l: List)
    requires SuffixDone(p, cont, after, l, 0)
    ensures WellFormedList(l) && (cont != NULL) == CompilesList(CutList(l, MAX_CONCAT), after == NULL)
    ensures EncodesList(p, cont, after, CutList(l, MAX_CONCAT))
  {
    hide CutList, CompilesList, EncodesList;
  }

  /** Compiling one more node in front. */
  lemma SuffixStep(p: Prog, q: Prog, e: int, m: int, after: int, l: List, i: nat)
    requires Runnable(p) && Extends(p, q) && IsPtr(|p.insts|, m) && SuffixDone(p, m, after, l, i + 1)
    requires i < Length(l) && i < MAX_CONCAT && Rest(l, i).Cons? && WellFormedList(Rest(l, i))
    requires Rest(l, i + 1) == Rest(l, i).tail
    requires (e != NULL) == Compiles(Cut(Rest(l, i).head), m == NULL)
    requires m == NULL ==> m == after && CutList(Rest(l, i + 1), MAX_CONCAT - i - 1) == Nil
    requires e != NULL ==> Encodes(q, e, m, Cut(Rest(l, i).head))
    ensures (e != NULL) == CompilesList(CutList(Rest(l, i), MAX_CONCAT - i), after == NULL)
    ensures e != NULL ==> SuffixDone(q, e, after, l, i)
  {
    hide Encodes, Compiles, EncodesList, Runnable, Rest;
    var suffix := CutList(Rest(l, i), MAX_CONCAT - i);
    assert suffix == Cons(Cut(Rest(l, i).head), CutList(Rest(l, i + 1), MAX_CONCAT - i - 1));
    if e != NULL {
      ListCons(p, q, e, m, after, suffix);
    }
  }

  class Compiler {
    var insts: seq<Inst>
    var tables: seq<bv8>
    var ntab: nat
    var error: bool

    ghost function P(): Prog
      reads this
    {
      Prog(insts, tables)
    }

    ghost predicate Valid()
      reads this
    {
      Runnable(P()) && |tables| == 32 * ntab
    }

    constructor ()
      ensures Valid() && insts == [] && tables == [] && !error
    {
      insts, tables, ntab, error := [], [], 0, false;
      new;
      assert IsRank(insts, []);
    }

    method InstNew(op: Op) returns (ip: int)
      modifies this`insts
      ensures ip == |old(insts)| && insts == old(insts) + [Inst(op, 0, NULL, NULL)]
    {
      ip := |insts|;
      insts := insts + [Inst(op, 0, NULL, NULL)];
    }

    /** A clone of the chain at `body`, laid out contiguously and not yet linked onwards. */
    method CloneLinear(body: int, ghost code: Code) returns (head: int)
      requires Valid() && Chain(P(), body, NULL, code) && Clonable(code, tables)
      modifies this`insts
      ensures Valid()
      ensures head == |old(insts)| && insts == old(insts) + Strip(code, |old(insts)|, NULL)
    {
      ghost var p0 := P();
      head := NULL;
      var tail := NULL;
      var it := body;
      ghost var k := 0;
      while it != NULL
        invariant 0 <= k <= |code| && Chain(p0, it, NULL, code[k..])
        invariant insts == p0.insts + Strip(code[..k], |p0.insts|, NULL)
        invariant if k == 0 then head == tail == NULL else head == |p0.insts| && tail == |p0.insts| + k - 1
        decreases |code| - k
      {
        var i := insts[it];
        assert OperandOk(code[k], tables);
        assert i == p0.insts[it];
        assert code[k..][1..] == code[k + 1..];
        var cp := InstNew(i.op);
        insts := insts[cp := insts[cp].(c := i.c)];
        if tail != NULL {
          insts := insts[tail := insts[tail].(a := cp)];
        } else {
          head := cp;
        }
        tail := cp;
        it := i.a;
        k := k + 1;
        assert insts == p0.insts + Strip(code[..k], |p0.insts|, NULL);
      }
      assert code[..k] == code;
      StripRunnable(p0, code, NULL);
    }

    /** Links the successor-less end of the chain at `f` to `next`. */
    method ChainTail(f: int, next: int, ghost code: Code)
      requires code != [] && 0 <= f && f + |code| == |insts|
      requires insts[f..] == Strip(code, f, NULL)
      modifies this`insts
      ensures insts == old(insts)[..f] + Strip(code, f, next)
    {
      var t := f;
      assert forall k :: 0 <= k < |code| ==> insts[f + k] == insts[f..][k];
      while t != NULL && insts[t].a != NULL
        invariant f <= t < f + |code|
        decreases f + |code| - t
      {
        t := insts[t].a;
      }
      if t != NULL {
        insts := insts[t := insts[t].(a := next)];
      }
    }

    method CompileOne(n: Node, after: int) returns (e: int)
      requires Valid() && !error && WellFormed(n) && IsPtr(|insts|, after)
      modifies this
      ensures Valid() && Grown(old(P()), P(), after) && IsPtr(|insts|, e)
      ensures (e != NULL) == Compiles(Cut(n), after == NULL)
      ensures e != NULL ==> !error && RefOk(e, |old(insts)|, after) && Encodes(P(), e, after, Cut(n))
      decreases Size(n), 1
    {
      match n
      case Empty =>
        e := after;
      case Char(c) =>
        e := Leaf(OpChar, c, after);
      case Anchor(c) =>
        e := Leaf(OpAnchor, c, after);
      case Any =>
        e := Leaf(OpAny, 0, after);
      case Class(tbl) =>
        e := CompileClass(tbl, after);
      case Group(gid, body) =>
        e := CompileGroup(gid, body, after);
      case Alt(left, right) =>
        e := CompileAlt(left, right, after);
      case Repeat(_, _, _, _) =>
        e := CompileRepeat(n, after);
    }

    /** The single-instruction cases of airy_re_compile_one. */
    method Leaf(op: Op, c: int, after: int) returns (ip: int)
      requires Valid() && IsPtr(|insts|, after) && InstOk(Inst(op, c, after, NULL), |insts|, tables)
      modifies this`insts
      ensures Valid() && Grown(old(P()), P(), after)
      ensures ip == |old(insts)| && insts == old(insts) + [Inst(op, c, after, NULL)]
    {
      ghost var p0 := P();
      RankAppend(p0, Inst(op, c, after, NULL));
      ip := InstNew(op);
      insts := insts[ip := insts[ip].(c := c)];
      insts := insts[ip := insts[ip].(a := after)];
      assert P() == Prog(p0.insts + [Inst(op, c, after, NULL)], p0.tables);
    }

    method CompileClass(tbl: Table, after: int) returns (e: int)
      requires Valid() && !error && IsPtr(|insts|, after)
      modifies this
      ensures Valid() && Grown(old(P()), P(), after) && !error
      ensures e == |old(insts)| && Encodes(P(), e, after, Class(tbl)) && e < |insts|
    {
      ghost var p0 := P();
      TablesAppend(p0, tbl);
      tables := tables + tbl;
      var idx := ntab;
      ntab := ntab + 1;
      e := Leaf(OpClass, idx, after);
      assert TableAt(P(), idx) == tbl;
      assert p0.tables <= tables;
    }

    method CompileGroup(gid: nat, body: List, after: int) returns (e: int)
      requires Valid() && !error && WellFormed(Group(gid, body)) && IsPtr(|insts|, after)
      modifies this
      ensures Valid() && Grown(old(P()), P(), after) && IsPtr(|insts|, e)
      ensures (e != NULL) == CompilesList(CutList(body, MAX_CONCAT), false)
      ensures e != NULL ==> !error && e == |old(insts)| && Encodes(P(), e, after, Group(gid, CutList(body, MAX_CONCAT)))
      decreases SizeList(body), 1
    {
      hide EncodesList, Ranked, CompilesList;
      ghost var p0 := P();
      var save0, save1 := TwoSaves(gid, after);
      ghost var p2 := P();
      var inner := CompileSeq(body, save1);
      GroupRefs(p0, p2, P(), after, save0, save1);
      if inner == NULL {
        return NULL;
      }
      ghost var p3 := P();
      RankPatch(p3, save0, insts[save0].(a := inner));
      insts := insts[save0 := insts[save0].(a := inner)];
      EncodesListKept(p3, P(), save0, inner, save1, CutList(body, MAX_CONCAT));
      assert Has(P(), save1, Inst(OpSave, 2 * gid + 1, after, NULL));
      e := save0;
    }

    /** The two SAVE instructions of a group, the first still unlinked. */
    method TwoSaves(gid: nat, after: int) returns (save0: int, save1: int)
      requires Valid() && 1 <= gid < MAX_GROUPS && IsPtr(|insts|, after)
      modifies this`insts
      ensures Valid() && save0 == |old(insts)| && save1 == save0 + 1
      ensures insts == old(insts) + [Inst(OpSave, 2 * gid, NULL, NULL)] + [Inst(OpSave, 2 * gid + 1, after, NULL)]
    {
      hide Closed, Ranked;
      ghost var p0 := P();
      RankAppend(p0, Inst(OpSave, 2 * gid, NULL, NULL));
      save0 := InstNew(OpSave);
      insts := insts[save0 := insts[save0].(c := 2 * gid)];
      ghost var p1 := P();
      assert p1.insts == p0.insts + [Inst(OpSave, 2 * gid, NULL, NULL)];
      RankAppend(p1, Inst(OpSave, 2 * gid + 1, after, NULL));
      save1 := InstNew(OpSave);
      insts := insts[save1 := insts[save1].(c := 2 * gid + 1)];
      insts := insts[save1 := insts[save1].(a := after)];
      assert insts == p1.insts + [Inst(OpSave, 2 * gid + 1, after, NULL)];
    }

    method CompileAlt(left: List, right: List, after: int) returns (e: int)
      requires Valid() && !error && WellFormedList(left) && WellFormedList(right) && IsPtr(|insts|, after)
      modifies this
      ensures Valid() && Grown(old(P()), P(), after) && IsPtr(|insts|, e)
      ensures (e != NULL) == (CompilesList(CutList(left, MAX_CONCAT), after == NULL) &&
                              CompilesList(CutList(right, MAX_CONCAT), after == NULL))
      ensures e != NULL ==> !error && |old(insts)| <= e &&
                            Encodes(P(), e, after, Alt(CutList(left, MAX_CONCAT), CutList(right, MAX_CONCAT)))
      decreases SizeList(left) + SizeList(right), 1
    {
      hide Encodes, EncodesList, Runnable, Grown, CompilesList, CutList;
      ghost var p0 := P();
      var b1 := CompileSeq(left, after);
      if b1 == NULL {
        return NULL;
      }
      ghost var p1 := P();
      GrownSize(p0, p1, after);
      var b2 := CompileSeq(right, after);
      ghost var p2 := P();
      GrownTrans(p0, p1, p2, after, after);
      GrownSize(p1, p2, after);
      if b2 == NULL {
        return NULL;
      }
      e := InstNew(OpSplit);
      insts := insts[e := insts[e].(a := b1)];
      insts := insts[e := insts[e].(b := b2)];
      assert insts == p2.insts + [Inst(OpSplit, 0, b1, b2)];
      AltGrown(p0, p1, p2, P(), b1, b2, after);
      AltEncodes(p1, p2, P(), b1, b2, after, CutList(left, MAX_CONCAT), CutList(right, MAX_CONCAT));
    }

    /** Compiles a concatenation list from its last node to its first. */
    method CompileSeq(list: List, after: int) returns (cont: int)
      requires Valid() && !error && WellFormedList(list) && IsPtr(|insts|, after)
      modifies this
      ensures Valid() && Grown(old(P()), P(), after) && IsPtr(|insts|, cont)
      ensures (cont != NULL) == CompilesList(CutList(list, MAX_CONCAT), after == NULL)
      ensures cont != NULL ==> !error && RefOk(cont, |old(insts)|, after) &&
                               EncodesList(P(), cont, after, CutList(list, MAX_CONCAT))
      decreases SizeList(list), 0
    {
      hide Encodes, EncodesList, Compiles, CompilesList, Cut, CutList, Rest, Runnable, Grown, NodesOf;
      hide WellFormed, WellFormedList, Size, SizeList, Length, SuffixDone;
      var nodes := TakeNodes(list);
      ghost var start := P();
      GrownRefl(P(), after);
      TakenAll(list, nodes, after == NULL);
      cont := after;
      var i := |nodes|;
      NothingAfter(P(), after, list, i);
      while i > 0
        invariant 0 <= i <= |nodes| && Valid() && Grown(start, P(), after) && !error
        invariant IsPtr(|insts|, cont) && RefOk(cont, |start.insts|, after)
        invariant if i < |nodes| then cont != NULL else cont == after
        invariant SuffixDone(P(), cont, after, list, i)
      {
        i := i - 1;
        NodeTaken(list, nodes, i);
        ghost var p := P();
        ghost var was := cont;
        cont := CompileOne(nodes[i], cont);
        GrownTrans(start, p, P(), was, after);
        GrownSize(start, p, after);
        SuffixStep(p, P(), cont, was, after, list, i);
        if cont == NULL {
          NoSuffixNoList(list, i, after == NULL);
          return;
        }
      }
      WholeList(P(), cont, after, list);
    }

    /** The first loop of airy_re_compile_seq: at most 256 nodes are taken. */
    method TakeNodes(list: List) returns (nodes: seq<Node>)
      ensures NodesOf(list, nodes)
    {
      nodes := [];
      var it := list;
      while it.Cons? && |nodes| < MAX_CONCAT
        invariant |nodes| <= MAX_CONCAT && |nodes| <= Length(list) && it == Rest(list, |nodes|)
        invariant forall k :: 0 <= k < |nodes| ==> Rest(list, k).Cons? && nodes[k] == Rest(list, k).head
        decreases it
      {
        RestFacts(list, |nodes|);
        hide Rest, Length;
        nodes := nodes + [it.head];
        it := it.tail;
      }
      RestFacts(list, |nodes|);
    }

    /** The pre-check of repeat expansion: no instruction of the body has a `b` link. */
    method BranchFree(body: int, ghost child: Node) returns (ok: bool, ghost code: Code)
      requires Valid() && WellFormed(child) && IsAtom(child) && Compiles(child, true)
      requires IsPtr(|insts|, body) && Encodes(P(), body, NULL, child)
      ensures ok == Linear(child)
      ensures ok ==> Chain(P(), body, NULL, code) && CodeOf(tables, child, code)
    {
      ghost var stop: int := NULL;
      if Linear(child) {
        code := LinearCode(P(), body, NULL, child);
      } else {
        code, stop := BranchFound(P(), body, NULL, child);
      }
      var it := body;
      ghost var k := 0;
      while it != NULL
        invariant 0 <= k <= |code| && Chain(P(), it, stop, code[k..])
        decreases |code| - k
      {
        assert code[k..] != [] ==> code[k..][1..] == code[k + 1..];
        if insts[it].b != NULL {
          return false, code;
        }
        it := insts[it].a;
        k := k + 1;
      }
      ok := true;
    }

    /** What the repeat loops know about the body they clone. */
    ghost predicate Template(body: int, child: Node, code: Code)
      reads this
    {
      Chain(P(), body, NULL, code) && CodeOf(tables, child, code) && Clonable(code, tables)
    }

    /** Appends a SPLIT and a clone of the body that comes back to the SPLIT or goes on. */
    method AppendBlock(body: int, greedy: bool, skip: int, loops: bool,
                       ghost child: Node, ghost code: Code, ghost p0: Prog, ghost after: int)
      returns (sp: int)
      requires Valid() && WellFormed(child) && Template(body, child, code) && IsPtr(|insts|, skip)
      requires Grown(p0, P(), after) && RefOk(skip, |p0.insts|, after)
      modifies this`insts
      ensures Valid() && Template(body, child, code) && Grown(p0, P(), after) && Extends(old(P()), P())
      ensures sp == |old(insts)| && IsSplit(P(), sp) && SkipLink(insts[sp], greedy) == skip
      ensures Encodes(P(), BodyLink(insts[sp], greedy), if loops then sp else skip, child)
    {
      hide Encodes, CodeOf, Chain, Runnable, Grown;
      ghost var p1 := P();
      var back := if loops then |insts| else skip;
      var cp;
      sp, cp := SplitAndClone(body, greedy, skip, code);
      ChainTail(cp, back, code);
      assert insts == Block(p1.insts, code, greedy, skip, back);
      BlockEncodes(p0, p1, P(), body, code, greedy, skip, back, after, child);
    }

    /** A SPLIT that leads to a clone of the body and past it. */
    method SplitAndClone(body: int, greedy: bool, skip: int, ghost code: Code) returns (sp: int, cp: int)
      requires Valid() && Chain(P(), body, NULL, code) && Clonable(code, tables)
      modifies this`insts
      ensures sp == |old(insts)| && cp == sp + 1
      ensures insts == old(insts) + [Inst(OpSplit, 0, if greedy then cp else skip, if greedy then skip else cp)]
                       + Strip(code, cp, NULL)
      ensures insts[cp..] == Strip(code, cp, NULL)
    {
      hide Chain, Closed, Ranked, Clonable, Strip;
      ghost var p1 := P();
      sp := InstNew(OpSplit);
      RankAppend(p1, Inst(OpSplit, 0, NULL, NULL));
      ChainExtend(p1, P(), body, NULL, code);
      cp := CloneLinear(body, code);
      if greedy {
        insts := insts[sp := insts[sp].(a := cp)];
        insts := insts[sp := insts[sp].(b := skip)];
      } else {
        insts := insts[sp := insts[sp].(a := skip)];
        insts := insts[sp := insts[sp].(b := cp)];
      }
    }

    /** Appends a clone of the body that continues at `next`. */
    method AppendClone(body: int, next: int, ghost child: Node, ghost code: Code, ghost p0: Prog, ghost after: int)
      returns (cp: int)
      requires Valid() && WellFormed(child) && Template(body, child, code) && IsPtr(|insts|, next)
      requires Grown(p0, P(), after) && RefOk(next, |p0.insts|, after)
      modifies this`insts
      ensures Valid() && Template(body, child, code) && Grown(p0, P(), after) && Extends(old(P()), P())
      ensures cp == |old(insts)| && cp < |insts| && Encodes(P(), cp, next, child)
    {
      hide Encodes, CodeOf, Ranked;
      ghost var p1 := P();
      cp := CloneLinear(body, code);
      ChainTail(cp, next, code);
      StripRunnable(p1, code, next);
      ChainExtend(p1, P(), body, NULL, code);
      CodeEncodes(tables, P(), cp, next, child, code);
    }

    /** Mandatory copies first, then optional copies or an unbounded SPLIT loop, built from
        the tail.  A body with a branch is refused. */
    method CompileRepeat(n: Node, after: int) returns (e: int)
      requires Valid() && !error && n.Repeat? && WellFormed(n) && IsPtr(|insts|, after)
      modifies this
      ensures Valid() && Grown(old(P()), P(), after) && IsPtr(|insts|, e)
      ensures (e != NULL) == Compiles(Cut(n), after == NULL)
      ensures e != NULL ==> !error && RefOk(e, |old(insts)|, after) && Encodes(P(), e, after, Cut(n))
      decreases Size(n), 0
    {
      hide Closed, Ranked, Grown, Encodes, Chain, CodeOf;
      ghost var child := Cut(n.child);
      ghost var p0 := P();
      var body := CompileOne(n.child, NULL);
      GrownRefl(p0, after);
      GrownTrans(p0, p0, P(), NULL, after);
      if body == NULL {
        return NULL;
      }
      ghost var code: Code;
      var ok;
      ok, code := BranchFree(body, child);
      if !ok {
        error := true;
        return NULL;
      }
      ChainClonable(P(), body, code);
      var tail := RepeatTail(n, body, after, code, p0);
      e := RepeatHead(n, body, tail, after, code, p0);
    }

    /** The optional copies, or the loop. */
    method RepeatTail(n: Node, body: int, after: int, ghost code: Code, ghost p0: Prog) returns (e: int)
      requires Valid() && n.Repeat? && WellFormed(n) && IsPtr(|p0.insts|, after)
      requires Template(body, Cut(n.child), code) && Grown(p0, P(), after)
      modifies this`insts
      ensures Valid() && Template(body, Cut(n.child), code) && Grown(p0, P(), after)
      ensures IsPtr(|insts|, e) && RefOk(e, |p0.insts|, after) && EncodesTail(P(), e, after, Cut(n))
      ensures e == NULL <==> n.lo == n.hi && after == NULL
    {
      hide Encodes, CodeOf, Chain, Closed, Ranked, RefsFrom;
      ghost var child := Cut(n.child);
      if n.hi < 0 {
        e := AppendBlock(body, n.greedy, after, true, child, code, p0, after);
      } else {
        e := after;
        var i := 0;
        while i < n.hi - n.lo
          invariant 0 <= i <= n.hi - n.lo && Valid() && Template(body, child, code) && Grown(p0, P(), after)
          invariant IsPtr(|insts|, e) && RefOk(e, |p0.insts|, after)
          invariant EncodesOptional(P(), e, after, child, i, n.greedy)
          invariant e == NULL <==> i == 0 && after == NULL
        {
          ghost var p, was := P(), e;
          e := AppendBlock(body, n.greedy, e, false, child, code, p0, after);
          OptionalCons(p, P(), e, was, after, child, i, n.greedy);
          i := i + 1;
        }
      }
    }

    /** The mandatory copies in front of `tail`. */
    method RepeatHead(n: Node, body: int, tail: int, after: int, ghost code: Code, ghost p0: Prog) returns (e: int)
      requires Valid() && n.Repeat? && WellFormed(n) && IsPtr(|insts|, tail)
      requires Template(body, Cut(n.child), code) && Grown(p0, P(), after) && RefOk(tail, |p0.insts|, after)
      requires EncodesTail(P(), tail, after, Cut(n))
      modifies this`insts
      ensures Valid() && Grown(p0, P(), after)
      ensures IsPtr(|insts|, e) && RefOk(e, |p0.insts|, after) && Encodes(P(), e, after, Cut(n))
      ensures e == NULL <==> n.lo == 0 && tail == NULL
    {
      hide Encodes, CodeOf, Chain, Closed, Ranked, RefsFrom, EncodesTail;
      ghost var child := Cut(n.child);
      ghost var p1 := P();
      e := tail;
      var i := 0;
      while i < n.lo
        invariant 0 <= i <= n.lo && Valid() && Template(body, child, code) && Grown(p0, P(), after) && Extends(p1, P())
        invariant IsPtr(|insts|, e) && RefOk(e, |p0.insts|, after)
        invariant EncodesTimes(P(), e, tail, child, i)
        invariant e == NULL <==> i == 0 && tail == NULL
      {
        ghost var p, was := P(), e;
        e := AppendClone(body, e, child, code, p0, after);
        TimesCons(p, P(), e, was, tail, child, i);
        i := i + 1;
      }
      RepeatEncodes(p1, P(), e, tail, after, Cut(n));
    }
  }
}
