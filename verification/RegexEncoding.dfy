/**
 What it means for a fragment of the instruction graph to encode an AST node, and why an
 encoding behaves exactly like the node's ordered derivations.
 */
module RegexEncoding {
  import opened Options
  import opened RegexSyntax
  import opened RegexMeaning
  import opened RegexProgram

  predicate Has(p: Prog, e: int, i: Inst) {
    0 <= e < |p.insts| && p.insts[e] == i
  }

  predicate IsSplit(p: Prog, e: int) {
    0 <= e < |p.insts| && p.insts[e].op.OpSplit?
  }

  /** The link of a repeat's SPLIT that enters the body, and the one that does not. */
  function BodyLink(i: Inst, greedy: bool): int { if greedy then i.a else i.b }
  function SkipLink(i: Inst, greedy: bool): int { if greedy then i.b else i.a }

  /** The fragment entered at `e` encodes `n` and continues at `after`. */
  ghost predicate Encodes(p: Prog, e: int, after: int, n: Node)
    requires WellFormed(n)
    decreases n, 0, 0
  {
    match n
    case Empty => e == after
    case Char(c) => Has(p, e, Inst(OpChar, c, after, NULL))
    case Any => Has(p, e, Inst(OpAny, 0, after, NULL))
    case Class(t) =>
      && 0 <= e < |p.insts| && p.insts[e] == Inst(OpClass, p.insts[e].c, after, NULL)
      && 0 <= p.insts[e].c && 32 * p.insts[e].c + 32 <= |p.tables| && TableAt(p, p.insts[e].c) == t
    case Anchor(c) => Has(p, e, Inst(OpAnchor, c, after, NULL))
    case Alt(a, b) =>
      IsSplit(p, e) && EncodesList(p, p.insts[e].a, after, a) && EncodesList(p, p.insts[e].b, after, b)
    case Repeat(child, lo, hi, greedy) =>
      exists m :: IsPtr(|p.insts|, m) && EncodesTimes(p, e, m, child, lo) &&
                  if hi < 0 then EncodesLoop(p, m, after, child, greedy)
                  else EncodesOptional(p, m, after, child, hi - lo, greedy)
    case Group(gid, body) =>
      && 0 <= e < |p.insts| && p.insts[e] == Inst(OpSave, 2 * gid, p.insts[e].a, NULL)
      && exists close :: Has(p, close, Inst(OpSave, 2 * gid + 1, after, NULL))
                      && EncodesList(p, p.insts[e].a, close, body)
  }

  ghost predicate EncodesList(p: Prog, e: int, after: int, l: List)
    requires WellFormedList(l)
    decreases l, 0, 0
  {
    match l
    case Nil => e == after
    case Cons(h, t) => exists m :: IsPtr(|p.insts|, m) && Encodes(p, e, m, h) && EncodesList(p, m, after, t)
  }

  ghost predicate EncodesTimes(p: Prog, e: int, after: int, n: Node, k: nat)
    requires WellFormed(n)
    decreases n, 1, k
  {
    if k == 0 then e == after
    else exists m :: IsPtr(|p.insts|, m) && Encodes(p, e, m, n) && EncodesTimes(p, m, after, n, k - 1)
  }

  ghost predicate EncodesOptional(p: Prog, e: int, after: int, n: Node, k: nat, greedy: bool)
    requires WellFormed(n)
    decreases n, 1, k
  {
    if k == 0 then e == after
    else
      && IsSplit(p, e)
      && Encodes(p, BodyLink(p.insts[e], greedy), SkipLink(p.insts[e], greedy), n)
      && EncodesOptional(p, SkipLink(p.insts[e], greedy), after, n, k - 1, greedy)
  }

  ghost predicate EncodesLoop(p: Prog, e: int, after: int, n: Node, greedy: bool)
    requires WellFormed(n)
    decreases n, 1, 0
  {
    && IsSplit(p, e)
    && SkipLink(p.insts[e], greedy) == after
    && Encodes(p, BodyLink(p.insts[e], greedy), e, n)
  }

  // ---------------------------------------------------------------------------------
  // An encoding behaves like the node

  /** What the program does from `after` once a derivation has come to an end. */
  ghost function Resume(p: Prog, inp: Input, after: int, r: Option<Spot>): Option<(nat, Caps)>
    requires Runnable(p) && IsPtr(|p.insts|, after)
    requires r.Some? ==> r.value.pos <= |inp.s|
  {
    if r.None? then None else Follow(p, inp, after, r.value.pos, r.value.caps, r.value.rest)
  }

  ghost predicate Ready(p: Prog, e: int, after: int, inp: Input, at: Spot) {
    Runnable(p) && IsPtr(|p.insts|, e) && IsPtr(|p.insts|, after) && at.pos <= |inp.s|
  }

  lemma {:induction false} EncodedFollows(p: Prog, e: int, after: int, n: Node, inp: Input, at: Spot)
    requires WellFormed(n) && Ready(p, e, after, inp, at) && Encodes(p, e, after, n)
    ensures Follow(p, inp, e, at.pos, at.caps, at.rest) == Resume(p, inp, after, Derive(n, inp, at))
    decreases n, 0, 0
  {
    hide Ranked, TableHas;
    match n
    case Alt(a, b) =>
      FollowSplit(p, inp, e, at);
      if at.rest != [] {
        EncodedListFollows(p, if at.rest[0] then p.insts[e].b else p.insts[e].a, after,
                           if at.rest[0] then b else a, inp, at.(rest := at.rest[1..]));
      }
    case Repeat(child, lo, hi, greedy) =>
      EncodedRepeatFollows(p, e, after, child, lo, hi, greedy, inp, at);
    case Group(gid, body) =>
      EncodedGroupFollows(p, e, after, gid, body, inp, at);
    case _ =>
  }

  lemma {:induction false} EncodedRepeatFollows(p: Prog, e: int, after: int, child: Node, lo: nat, hi: int,
                                                greedy: bool, inp: Input, at: Spot)
    requires WellFormed(Repeat(child, lo, hi, greedy)) && Ready(p, e, after, inp, at)
    requires Encodes(p, e, after, Repeat(child, lo, hi, greedy))
    ensures Follow(p, inp, e, at.pos, at.caps, at.rest)
         == Resume(p, inp, after, Derive(Repeat(child, lo, hi, greedy), inp, at))
    decreases child, 2, 0
  {
    hide Follow, Ranked, EncodesTimes, EncodesOptional, EncodesLoop, DeriveTimes, DeriveOptional, DeriveLoop;
    var m :| IsPtr(|p.insts|, m) && EncodesTimes(p, e, m, child, lo) &&
             if hi < 0 then EncodesLoop(p, m, after, child, greedy)
             else EncodesOptional(p, m, after, child, hi - lo, greedy);
    EncodedTimesFollows(p, e, m, child, lo, inp, at);
    var must := DeriveTimes(child, lo, inp, at);
    if must.Some? {
      if hi < 0 {
        EncodedLoopFollows(p, m, after, child, greedy, inp, must.value);
      } else {
        EncodedOptionalFollows(p, m, after, child, hi - lo, greedy, inp, must.value);
      }
    }
  }

  lemma {:induction false} EncodedGroupFollows(p: Prog, e: int, after: int, gid: nat, body: List, inp: Input, at: Spot)
    requires WellFormed(Group(gid, body)) && Ready(p, e, after, inp, at) && Encodes(p, e, after, Group(gid, body))
    ensures Follow(p, inp, e, at.pos, at.caps, at.rest) == Resume(p, inp, after, Derive(Group(gid, body), inp, at))
    decreases body, 1, 0
  {
    hide Runnable, Follow, Encodes, EncodesList, DeriveList, WellFormedList;
    var close := GroupEncoded(p, e, after, gid, body);
    var entered := at.(caps := SetCap(at.caps, 2 * gid, at.pos - inp.start));
    FollowSave(p, e, p.insts[e].a, 2 * gid, inp, at);
    EncodedListFollows(p, p.insts[e].a, close, body, inp, entered);
    var inner := DeriveList(body, inp, entered);
    if inner.Some? {
      FollowSave(p, close, after, 2 * gid + 1, inp, inner.value);
    }
  }

  lemma GroupEncoded(p: Prog, e: int, after: int, gid: nat, body: List) returns (close: int)
    requires WellFormed(Group(gid, body)) && Encodes(p, e, after, Group(gid, body))
    ensures WellFormedList(body) && 1 <= gid < MAX_GROUPS
    ensures 0 <= e < |p.insts| && Has(p, e, Inst(OpSave, 2 * gid, p.insts[e].a, NULL))
    ensures Has(p, close, Inst(OpSave, 2 * gid + 1, after, NULL)) && EncodesList(p, p.insts[e].a, close, body)
  {
    close :| Has(p, close, Inst(OpSave, 2 * gid + 1, after, NULL)) && EncodesList(p, p.insts[e].a, close, body);
  }

  lemma FollowSave(p: Prog, e: int, next: int, slot: nat, inp: Input, at: Spot)
    requires Runnable(p) && Has(p, e, Inst(OpSave, slot, next, NULL)) && at.pos <= |inp.s| && slot < 2 * MAX_GROUPS
    ensures IsPtr(|p.insts|, next)
    ensures Follow(p, inp, e, at.pos, at.caps, at.rest)
         == Follow(p, inp, next, at.pos, SetCap(at.caps, slot, at.pos - inp.start), at.rest)
  {
    hide Ranked;
    assert InstOk(p.insts[e], |p.insts|, p.tables);
  }

  lemma {:induction false} EncodedListFollows(p: Prog, e: int, after: int, l: List, inp: Input, at: Spot)
    requires WellFormedList(l) && Ready(p, e, after, inp, at) && EncodesList(p, e, after, l)
    ensures Follow(p, inp, e, at.pos, at.caps, at.rest) == Resume(p, inp, after, DeriveList(l, inp, at))
    decreases l, 0, 0
  {
    hide Ranked, Walk, Follow, Encodes, Derive;
    match l
    case Nil =>
    case Cons(h, t) =>
      var m :| IsPtr(|p.insts|, m) && Encodes(p, e, m, h) && EncodesList(p, m, after, t);
      EncodedFollows(p, e, m, h, inp, at);
      var first := Derive(h, inp, at);
      if first.Some? {
        EncodedListFollows(p, m, after, t, inp, first.value);
      }
  }

  lemma {:induction false} EncodedTimesFollows(p: Prog, e: int, after: int, n: Node, k: nat, inp: Input, at: Spot)
    requires WellFormed(n) && Ready(p, e, after, inp, at) && EncodesTimes(p, e, after, n, k)
    ensures Follow(p, inp, e, at.pos, at.caps, at.rest) == Resume(p, inp, after, DeriveTimes(n, k, inp, at))
    decreases n, 1, k
  {
    hide Ranked, Walk, Follow, Encodes, Derive;
    if k > 0 {
      var m :| IsPtr(|p.insts|, m) && Encodes(p, e, m, n) && EncodesTimes(p, m, after, n, k - 1);
      EncodedFollows(p, e, m, n, inp, at);
      var first := Derive(n, inp, at);
      if first.Some? {
        EncodedTimesFollows(p, m, after, n, k - 1, inp, first.value);
      }
    }
  }

  lemma FollowSplit(p: Prog, inp: Input, e: int, at: Spot)
    requires Runnable(p) && IsSplit(p, e) && at.pos <= |inp.s|
    ensures IsPtr(|p.insts|, p.insts[e].a) && IsPtr(|p.insts|, p.insts[e].b)
    ensures Follow(p, inp, e, at.pos, at.caps, at.rest) ==
            if at.rest == [] then None
            else Follow(p, inp, if at.rest[0] then p.insts[e].b else p.insts[e].a, at.pos, at.caps, at.rest[1..])
  {
    assert InstOk(p.insts[e], |p.insts|, p.tables);
  }

  lemma {:induction false} EncodedOptionalFollows(p: Prog, e: int, after: int, n: Node, k: nat, greedy: bool,
                                                  inp: Input, at: Spot)
    requires WellFormed(n) && Ready(p, e, after, inp, at) && EncodesOptional(p, e, after, n, k, greedy)
    ensures Follow(p, inp, e, at.pos, at.caps, at.rest) == Resume(p, inp, after, DeriveOptional(n, k, greedy, inp, at))
    decreases n, 1, k
  {
    hide Ranked, Walk, Follow, Encodes, Derive;
    if k > 0 {
      FollowSplit(p, inp, e, at);
      if at.rest != [] {
        EncodedOptionalStep(p, e, after, n, k, greedy, inp, at, at.(rest := at.rest[1..]));
      }
    }
  }

  lemma {:induction false} EncodedOptionalStep(p: Prog, e: int, after: int, n: Node, k: nat, greedy: bool,
                                               inp: Input, at: Spot, next: Spot)
    requires WellFormed(n) && Ready(p, e, after, inp, at) && EncodesOptional(p, e, after, n, k, greedy)
    requires k > 0 && at.rest != [] && next == at.(rest := at.rest[1..])
    requires IsPtr(|p.insts|, p.insts[e].a) && IsPtr(|p.insts|, p.insts[e].b)
    ensures Follow(p, inp, if at.rest[0] then p.insts[e].b else p.insts[e].a, next.pos, next.caps, next.rest)
         == Resume(p, inp, after, DeriveOptional(n, k, greedy, inp, at))
    decreases n, 1, k, 0
  {
    hide Ranked, Walk, Follow, Encodes, Derive;
    var skip := SkipLink(p.insts[e], greedy);
    if Enters(greedy, at.rest[0]) {
      EncodedFollows(p, BodyLink(p.insts[e], greedy), skip, n, inp, next);
      var first := Derive(n, inp, next);
      if first.Some? {
        EncodedOptionalFollows(p, skip, after, n, k - 1, greedy, inp, first.value);
      }
    } else {
      EncodedOptionalFollows(p, skip, after, n, k - 1, greedy, inp, next);
    }
  }

  lemma {:induction false} EncodedLoopFollows(p: Prog, e: int, after: int, n: Node, greedy: bool, inp: Input, at: Spot)
    requires WellFormed(n) && Ready(p, e, after, inp, at) && EncodesLoop(p, e, after, n, greedy)
    ensures Follow(p, inp, e, at.pos, at.caps, at.rest) == Resume(p, inp, after, DeriveLoop(n, greedy, inp, at))
    decreases n, 1, |at.rest|
  {
    hide Ranked, Walk, Follow, Encodes, Derive;
    FollowSplit(p, inp, e, at);
    if at.rest != [] {
      var next := at.(rest := at.rest[1..]);
      if Enters(greedy, at.rest[0]) {
        EncodedFollows(p, BodyLink(p.insts[e], greedy), e, n, inp, next);
        var first := Derive(n, inp, next);
        if first.Some? {
          EncodedLoopFollows(p, e, after, n, greedy, inp, first.value);
        }
      }
    }
  }

  // ---------------------------------------------------------------------------------
  // Encodings survive further allocation, and the linking of an instruction that no other
  // instruction refers to

  ghost predicate Extends(p: Prog, q: Prog) {
    p.insts <= q.insts && p.tables <= q.tables
  }

  /** `q` grows `p` and may have changed the instruction `at`, which nothing refers to. */
  ghost predicate Keeps(p: Prog, q: Prog, at: int) {
    && |p.insts| <= |q.insts| && p.tables <= q.tables
    && (forall k :: 0 <= k < |p.insts| && k != at ==> q.insts[k] == p.insts[k])
    && (forall k :: 0 <= k < |p.insts| ==> p.insts[k].a != at && p.insts[k].b != at)
  }

  lemma {:induction false} EncodesKept(p: Prog, q: Prog, at: int, e: int, after: int, n: Node)
    requires WellFormed(n) && Keeps(p, q, at) && e != at && Encodes(p, e, after, n)
    ensures after != at && Encodes(q, e, after, n)
    decreases n, 0, 0
  {
    match n
    case Alt(a, b) =>
      EncodesListKept(p, q, at, p.insts[e].a, after, a);
      EncodesListKept(p, q, at, p.insts[e].b, after, b);
    case Repeat(child, lo, hi, greedy) =>
      EncodesRepeatKept(p, q, at, e, after, child, lo, hi, greedy);
    case Group(gid, body) =>
      EncodesGroupKept(p, q, at, e, after, gid, body);
    case Class(t) =>
      assert TableAt(p, p.insts[e].c) == TableAt(q, p.insts[e].c);
    case _ =>
  }

  lemma {:induction false} EncodesRepeatKept(p: Prog, q: Prog, at: int, e: int, after: int, child: Node, lo: nat,
                                             hi: int, greedy: bool)
    requires WellFormed(Repeat(child, lo, hi, greedy)) && Keeps(p, q, at) && e != at
    requires Encodes(p, e, after, Repeat(child, lo, hi, greedy))
    ensures after != at && Encodes(q, e, after, Repeat(child, lo, hi, greedy))
    decreases child, 2, 0
  {
    hide EncodesTimes, EncodesOptional;
    var m :| IsPtr(|p.insts|, m) && EncodesTimes(p, e, m, child, lo) &&
             if hi < 0 then EncodesLoop(p, m, after, child, greedy)
             else EncodesOptional(p, m, after, child, hi - lo, greedy);
    EncodesTimesKept(p, q, at, e, m, child, lo);
    if hi < 0 {
      EncodesKept(p, q, at, BodyLink(p.insts[m], greedy), m, child);
    } else {
      EncodesOptionalKept(p, q, at, m, after, child, hi - lo, greedy);
    }
  }

  lemma {:induction false} EncodesGroupKept(p: Prog, q: Prog, at: int, e: int, after: int, gid: nat, body: List)
    requires WellFormed(Group(gid, body)) && Keeps(p, q, at) && e != at && Encodes(p, e, after, Group(gid, body))
    ensures after != at && Encodes(q, e, after, Group(gid, body))
    decreases body, 1, 0
  {
    var close :| Has(p, close, Inst(OpSave, 2 * gid + 1, after, NULL)) && EncodesList(p, p.insts[e].a, close, body);
    EncodesListKept(p, q, at, p.insts[e].a, close, body);
    assert Has(q, close, Inst(OpSave, 2 * gid + 1, after, NULL));
  }

  lemma {:induction false} EncodesListKept(p: Prog, q: Prog, at: int, e: int, after: int, l: List)
    requires WellFormedList(l) && Keeps(p, q, at) && e != at && EncodesList(p, e, after, l)
    ensures after != at && EncodesList(q, e, after, l)
    decreases l, 0, 0
  {
    match l
    case Nil =>
    case Cons(h, t) =>
      var m :| IsPtr(|p.insts|, m) && Encodes(p, e, m, h) && EncodesList(p, m, after, t);
      EncodesKept(p, q, at, e, m, h);
      EncodesListKept(p, q, at, m, after, t);
  }

  lemma {:induction false} EncodesTimesKept(p: Prog, q: Prog, at: int, e: int, after: int, n: Node, k: nat)
    requires WellFormed(n) && Keeps(p, q, at) && e != at && EncodesTimes(p, e, after, n, k)
    ensures after != at && EncodesTimes(q, e, after, n, k)
    decreases n, 1, k
  {
    if k > 0 {
      var m :| IsPtr(|p.insts|, m) && Encodes(p, e, m, n) && EncodesTimes(p, m, after, n, k - 1);
      EncodesKept(p, q, at, e, m, n);
      EncodesTimesKept(p, q, at, m, after, n, k - 1);
    }
  }

  lemma {:induction false} EncodesOptionalKept(p: Prog, q: Prog, at: int, e: int, after: int, n: Node, k: nat,
                                               greedy: bool)
    requires WellFormed(n) && Keeps(p, q, at) && e != at && EncodesOptional(p, e, after, n, k, greedy)
    ensures after != at && EncodesOptional(q, e, after, n, k, greedy)
    decreases n, 1, k
  {
    if k > 0 {
      EncodesKept(p, q, at, BodyLink(p.insts[e], greedy), SkipLink(p.insts[e], greedy), n);
      EncodesOptionalKept(p, q, at, SkipLink(p.insts[e], greedy), after, n, k - 1, greedy);
    }
  }

  /** Growth alone: no pointer has the value NULL - 1. */
  lemma ExtendsKeeps(p: Prog, q: Prog)
    requires Closed(p) && Extends(p, q)
    ensures Keeps(p, q, NULL - 1)
  {
    forall k | 0 <= k < |p.insts| ensures p.insts[k].a != NULL - 1 && p.insts[k].b != NULL - 1 {
      assert InstOk(p.insts[k], |p.insts|, p.tables);
    }
  }
}
