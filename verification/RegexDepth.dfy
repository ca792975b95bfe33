/**
 How many choices a search spends, in terms of the expression: which choice words a derivation
 gets to use up, and that an encoding uses up the same ones.
 */
module RegexDepth {
  import opened Options
  import opened RegexSyntax
  import opened RegexMeaning
  import opened RegexProgram
  import opened RegexEncoding

  /** The derivation of `n` from `at` makes every choice left, whether or not it goes on to match. */
  ghost predicate Spends(n: Node, inp: Input, at: Spot)
    requires WellFormed(n)
    decreases n, 0, 0
  {
    at.rest == [] ||
    match n
    case Alt(a, b) => SpendsList(if at.rest[0] then b else a, inp, at.(rest := at.rest[1..]))
    case Repeat(child, lo, hi, greedy) =>
      || SpendsTimes(child, lo, inp, at)
      || (var must := DeriveTimes(child, lo, inp, at);
          must.Some? && if hi < 0 then SpendsLoop(child, greedy, inp, must.value)
                        else SpendsOptional(child, hi - lo, greedy, inp, must.value))
    case Group(gid, body) => SpendsList(body, inp, at.(caps := SetCap(at.caps, 2 * gid, at.pos - inp.start)))
    case _ => false
  }

  ghost predicate SpendsList(l: List, inp: Input, at: Spot)
    requires WellFormedList(l)
    decreases l, 0, 0
  {
    at.rest == [] ||
    (l.Cons? && (|| Spends(l.head, inp, at)
                 || (var first := Derive(l.head, inp, at); first.Some? && SpendsList(l.tail, inp, first.value))))
  }

  ghost predicate SpendsTimes(n: Node, k: nat, inp: Input, at: Spot)
    requires WellFormed(n)
    decreases n, 1, k
  {
    at.rest == [] ||
    (k > 0 && (|| Spends(n, inp, at)
               || (var first := Derive(n, inp, at); first.Some? && SpendsTimes(n, k - 1, inp, first.value))))
  }

  ghost predicate SpendsOptional(n: Node, k: nat, greedy: bool, inp: Input, at: Spot)
    requires WellFormed(n)
    decreases n, 1, k
  {
    at.rest == [] ||
    (k > 0 &&
     var next := at.(rest := at.rest[1..]);
     if Enters(greedy, at.rest[0]) then
       || Spends(n, inp, next)
       || (var first := Derive(n, inp, next); first.Some? && SpendsOptional(n, k - 1, greedy, inp, first.value))
     else SpendsOptional(n, k - 1, greedy, inp, next))
  }

  ghost predicate SpendsLoop(n: Node, greedy: bool, inp: Input, at: Spot)
    requires WellFormed(n)
    decreases n, 1, |at.rest|
  {
    at.rest == [] ||
    var next := at.(rest := at.rest[1..]);
    if Enters(greedy, at.rest[0]) then
      || Spends(n, inp, next)
      || (var first := Derive(n, inp, next); first.Some? && SpendsLoop(n, greedy, inp, first.value))
    else next.rest == []
  }

  // ---------------------------------------------------------------------------------
  // A derivation that has no choice left has spent them all

  lemma {:induction false} DeriveListSpends(l: List, inp: Input, at: Spot)
    requires WellFormedList(l) && DeriveList(l, inp, at).Some? && DeriveList(l, inp, at).value.rest == []
    ensures SpendsList(l, inp, at)
    decreases l, 0, 0
  {
    if at.rest != [] && l.Cons? {
      DeriveListSpends(l.tail, inp, Derive(l.head, inp, at).value);
    }
  }

  // ---------------------------------------------------------------------------------
  // An encoding lives exactly as long as the node

  /** The program lives on from `after` once a derivation has come to an end. */
  ghost predicate LivesOn(p: Prog, inp: Input, after: int, r: Option<Spot>)
    requires Runnable(p) && IsPtr(|p.insts|, after)
    requires r.Some? ==> r.value.pos <= |inp.s|
  {
    r.Some? && Alive(p, inp, after, r.value.pos, r.value.caps, r.value.rest)
  }

  ghost predicate AliveAt(p: Prog, inp: Input, e: int, at: Spot)
    requires Runnable(p) && IsPtr(|p.insts|, e) && at.pos <= |inp.s|
  {
    Alive(p, inp, e, at.pos, at.caps, at.rest)
  }

  lemma NothingToSpend(p: Prog, inp: Input, e: int, at: Spot)
    requires Runnable(p) && IsPtr(|p.insts|, e) && at.pos <= |inp.s| && at.rest == []
    ensures AliveAt(p, inp, e, at)
  {
  }

  lemma AliveSplit(p: Prog, inp: Input, e: int, at: Spot)
    requires Runnable(p) && IsSplit(p, e) && at.pos <= |inp.s| && at.rest != []
    ensures IsPtr(|p.insts|, p.insts[e].a) && IsPtr(|p.insts|, p.insts[e].b)
    ensures AliveAt(p, inp, e, at) ==
            AliveAt(p, inp, if at.rest[0] then p.insts[e].b else p.insts[e].a, at.(rest := at.rest[1..]))
  {
    hide Ranked;
    assert InstOk(p.insts[e], |p.insts|, p.tables);
  }

  lemma {:induction false} EncodedLives(p: Prog, e: int, after: int, n: Node, inp: Input, at: Spot)
    requires WellFormed(n) && Ready(p, e, after, inp, at) && Encodes(p, e, after, n)
    ensures AliveAt(p, inp, e, at) <==> Spends(n, inp, at) || LivesOn(p, inp, after, Derive(n, inp, at))
    decreases n, 0, 0
  {
    hide Ranked, Walk, AliveAt, LivesOn;
    if at.rest == [] {
      NothingToSpend(p, inp, e, at);
    } else {
      match n
      case Alt(a, b) =>
        AliveSplit(p, inp, e, at);
        EncodedListLives(p, if at.rest[0] then p.insts[e].b else p.insts[e].a, after,
                         if at.rest[0] then b else a, inp, at.(rest := at.rest[1..]));
      case Repeat(child, lo, hi, greedy) =>
        EncodedRepeatLives(p, e, after, child, lo, hi, greedy, inp, at);
      case Group(gid, body) =>
        EncodedGroupLives(p, e, after, gid, body, inp, at);
      case _ =>
        EncodedLeafLives(p, e, after, n, inp, at);
    }
  }

  lemma {:induction false} EncodedLeafLives(p: Prog, e: int, after: int, n: Node, inp: Input, at: Spot)
    requires WellFormed(n) && Ready(p, e, after, inp, at) && Encodes(p, e, after, n) && at.rest != []
    requires !n.Alt? && !n.Repeat? && !n.Group?
    ensures AliveAt(p, inp, e, at) <==> LivesOn(p, inp, after, Derive(n, inp, at))
  {
    hide Ranked, TableHas;
  }

  lemma {:induction false} EncodedGroupLives(p: Prog, e: int, after: int, gid: nat, body: List, inp: Input, at: Spot)
    requires WellFormed(Group(gid, body)) && Ready(p, e, after, inp, at) && Encodes(p, e, after, Group(gid, body))
    requires at.rest != []
    ensures AliveAt(p, inp, e, at)
       <==> Spends(Group(gid, body), inp, at) || LivesOn(p, inp, after, Derive(Group(gid, body), inp, at))
    decreases body, 1, 0
  {
    hide Runnable, AliveAt, Encodes, EncodesList, SpendsList, DeriveList, WellFormedList;
    var close := GroupEncoded(p, e, after, gid, body);
    var entered := at.(caps := SetCap(at.caps, 2 * gid, at.pos - inp.start));
    SaveLives(p, e, p.insts[e].a, 2 * gid, inp, at);
    EncodedListLives(p, p.insts[e].a, close, body, inp, entered);
    var inner := DeriveList(body, inp, entered);
    if inner.Some? {
      SaveLives(p, close, after, 2 * gid + 1, inp, inner.value);
      if inner.value.rest == [] {
        DeriveListSpends(body, inp, entered);
      }
    }
  }

  lemma SaveLives(p: Prog, e: int, next: int, slot: nat, inp: Input, at: Spot)
    requires Runnable(p) && Has(p, e, Inst(OpSave, slot, next, NULL)) && at.pos <= |inp.s| && slot < 2 * MAX_GROUPS
    ensures IsPtr(|p.insts|, next)
    ensures AliveAt(p, inp, e, at) == AliveAt(p, inp, next, at.(caps := SetCap(at.caps, slot, at.pos - inp.start)))
  {
    hide Ranked;
    assert InstOk(p.insts[e], |p.insts|, p.tables);
  }

  lemma {:induction false} EncodedRepeatLives(p: Prog, e: int, after: int, child: Node, lo: nat, hi: int,
                                              greedy: bool, inp: Input, at: Spot)
    requires WellFormed(Repeat(child, lo, hi, greedy)) && Ready(p, e, after, inp, at) && at.rest != []
    requires Encodes(p, e, after, Repeat(child, lo, hi, greedy))
    ensures AliveAt(p, inp, e, at)
       <==> || Spends(Repeat(child, lo, hi, greedy), inp, at)
            || LivesOn(p, inp, after, Derive(Repeat(child, lo, hi, greedy), inp, at))
    decreases child, 2, 0
  {
    hide Ranked, Walk, Alive, EncodesTimes, EncodesOptional, EncodesLoop, SpendsTimes, SpendsOptional, SpendsLoop;
    var m :| IsPtr(|p.insts|, m) && EncodesTimes(p, e, m, child, lo) &&
             if hi < 0 then EncodesLoop(p, m, after, child, greedy)
             else EncodesOptional(p, m, after, child, hi - lo, greedy);
    EncodedTimesLives(p, e, m, child, lo, inp, at);
    var must := DeriveTimes(child, lo, inp, at);
    if must.Some? {
      if hi < 0 {
        EncodedLoopLives(p, m, after, child, greedy, inp, must.value);
      } else {
        EncodedOptionalLives(p, m, after, child, hi - lo, greedy, inp, must.value);
      }
    }
  }

  lemma {:induction false} EncodedListLives(p: Prog, e: int, after: int, l: List, inp: Input, at: Spot)
    requires WellFormedList(l) && Ready(p, e, after, inp, at) && EncodesList(p, e, after, l)
    ensures AliveAt(p, inp, e, at) <==> SpendsList(l, inp, at) || LivesOn(p, inp, after, DeriveList(l, inp, at))
    decreases l, 0, 0
  {
    hide Ranked, Walk, Encodes, Derive, Spends;
    if at.rest == [] {
      NothingToSpend(p, inp, e, at);
    } else if l.Cons? {
      var m :| IsPtr(|p.insts|, m) && Encodes(p, e, m, l.head) && EncodesList(p, m, after, l.tail);
      EncodedLives(p, e, m, l.head, inp, at);
      var first := Derive(l.head, inp, at);
      if first.Some? {
        EncodedListLives(p, m, after, l.tail, inp, first.value);
      }
    }
  }

  lemma {:induction false} EncodedTimesLives(p: Prog, e: int, after: int, n: Node, k: nat, inp: Input, at: Spot)
    requires WellFormed(n) && Ready(p, e, after, inp, at) && EncodesTimes(p, e, after, n, k)
    ensures AliveAt(p, inp, e, at) <==> SpendsTimes(n, k, inp, at) || LivesOn(p, inp, after, DeriveTimes(n, k, inp, at))
    decreases n, 1, k
  {
    hide Ranked, Walk, Encodes, Derive, Spends;
    if at.rest == [] {
      NothingToSpend(p, inp, e, at);
    } else if k > 0 {
      var m :| IsPtr(|p.insts|, m) && Encodes(p, e, m, n) && EncodesTimes(p, m, after, n, k - 1);
      EncodedLives(p, e, m, n, inp, at);
      var first := Derive(n, inp, at);
      if first.Some? {
        EncodedTimesLives(p, m, after, n, k - 1, inp, first.value);
      }
    }
  }

  lemma {:induction false} EncodedOptionalLives(p: Prog, e: int, after: int, n: Node, k: nat, greedy: bool,
                                                inp: Input, at: Spot)
    requires WellFormed(n) && Ready(p, e, after, inp, at) && EncodesOptional(p, e, after, n, k, greedy)
    ensures AliveAt(p, inp, e, at)
       <==> SpendsOptional(n, k, greedy, inp, at) || LivesOn(p, inp, after, DeriveOptional(n, k, greedy, inp, at))
    decreases n, 1, k
  {
    hide Ranked, Walk, Encodes, Derive, Spends;
    if at.rest == [] {
      NothingToSpend(p, inp, e, at);
    } else if k > 0 {
      var next, skip := at.(rest := at.rest[1..]), SkipLink(p.insts[e], greedy);
      AliveSplit(p, inp, e, at);
      if Enters(greedy, at.rest[0]) {
        EncodedLives(p, BodyLink(p.insts[e], greedy), skip, n, inp, next);
        var first := Derive(n, inp, next);
        if first.Some? {
          EncodedOptionalLives(p, skip, after, n, k - 1, greedy, inp, first.value);
        }
      } else {
        EncodedOptionalLives(p, skip, after, n, k - 1, greedy, inp, next);
      }
    }
  }

  lemma {:induction false} EncodedLoopLives(p: Prog, e: int, after: int, n: Node, greedy: bool, inp: Input, at: Spot)
    requires WellFormed(n) && Ready(p, e, after, inp, at) && EncodesLoop(p, e, after, n, greedy)
    ensures AliveAt(p, inp, e, at)
       <==> SpendsLoop(n, greedy, inp, at) || LivesOn(p, inp, after, DeriveLoop(n, greedy, inp, at))
    decreases n, 1, |at.rest|
  {
    hide Ranked, Walk, Encodes, Derive, Spends;
    if at.rest == [] {
      NothingToSpend(p, inp, e, at);
    } else {
      var next := at.(rest := at.rest[1..]);
      AliveSplit(p, inp, e, at);
      if Enters(greedy, at.rest[0]) {
        EncodedLives(p, BodyLink(p.insts[e], greedy), e, n, inp, next);
        var first := Derive(n, inp, next);
        if first.Some? {
          EncodedLoopLives(p, e, after, n, greedy, inp, first.value);
        }
      } else if next.rest == [] {
        NothingToSpend(p, inp, after, next);
      }
    }
  }

  /** A program for the whole expression reaches a SPLIT for every choice in a word exactly when a
      derivation of the expression makes all of them. */
  lemma AliveIffSpent(p: Prog, e: int, l: List, inp: Input, at: Spot)
    requires WellFormedList(l) && Ready(p, e, NULL, inp, at) && EncodesList(p, e, NULL, l)
    ensures AliveAt(p, inp, e, at) <==> SpendsList(l, inp, at)
  {
    EncodedListLives(p, e, NULL, l, inp, at);
    var r := DeriveList(l, inp, at);
    if r.Some? && r.value.rest == [] {
      DeriveListSpends(l, inp, at);
    }
  }
}
