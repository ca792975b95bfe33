/**
 What an ERE means, in two independent forms.

 `Matches` is the plain denotation: which spans of the subject a node covers.
 `Derive` is the ordered reading: it follows a word of choices through the AST, threading
 the capture array, so that comparing words lexicographically gives the priority the
 documentation promises (left alternative first, greedy repeats prefer one more round,
 `*?` repeats prefer stopping).
 */
module RegexMeaning {
  import opened Options
  import opened RegexSyntax


  /** A NUL-free subject string; `start` is the position being attempted. */
  datatype Input = Input(s: seq<Byte>, start: nat) {
    predicate Valid() {
      start <= |s| && forall k :: 0 <= k < |s| ==> s[k] != 0
    }
  }

  /** The capture array `caps[2 * AIRY_RE_MAX_GROUPS]`. */
  type Caps = c: seq<int> | |c| == 2 * MAX_GROUPS witness seq(2 * MAX_GROUPS, _ => 0)

  const NO_CAPS: Caps := [0, 0, 0, 0, 0, 0, 0, 0, 0, 0,
                          0, 0, 0, 0, 0, 0, 0, 0, 0, 0]

  /** Whether a one-character node accepts the byte at `i`. */
  predicate Consumes(n: Node, s: seq<Byte>, i: nat) {
    i < |s| &&
    match n
    case Char(c) => s[i] == c
    case Any => true
    case Class(tbl) => TableHas(tbl, s[i])
    case _ => false
  }

  predicate AnchorHolds(c: Byte, s: seq<Byte>, i: nat) {
    if c == CARET then i == 0 else i == |s|
  }

  // ---------------------------------------------------------------------------------
  // Denotation

  ghost predicate Matches(n: Node, s: seq<Byte>, i: nat, j: nat)
    decreases n, 0, 0
  {
    match n
    case Empty => i == j
    case Char(_) => Consumes(n, s, i) && j == i + 1
    case Any => Consumes(n, s, i) && j == i + 1
    case Class(_) => Consumes(n, s, i) && j == i + 1
    case Anchor(c) => AnchorHolds(c, s, i) && i == j
    case Alt(a, b) => MatchesList(a, s, i, j) || MatchesList(b, s, i, j)
    case Repeat(child, lo, hi, _) =>
      exists k: nat :: lo <= k && (hi < 0 || k <= hi) && MatchesTimes(child, k, s, i, j)
    case Group(_, body) => MatchesList(body, s, i, j)
  }

  ghost predicate MatchesList(l: List, s: seq<Byte>, i: nat, j: nat)
    decreases l, 0, 0
  {
    match l
    case Nil => i == j
    case Cons(h, t) => exists m: nat :: Matches(h, s, i, m) && MatchesList(t, s, m, j)
  }

  ghost predicate MatchesTimes(n: Node, k: nat, s: seq<Byte>, i: nat, j: nat)
    decreases n, 1, k
  {
    if k == 0 then i == j
    else exists m: nat :: Matches(n, s, i, m) && MatchesTimes(n, k - 1, s, m, j)
  }

  // ---------------------------------------------------------------------------------
  // Ordered derivations

  /** Where a derivation stands: position, captures, and the choices left. */
  datatype Spot = Spot(pos: nat, caps: Caps, rest: seq<bool>)

  function SetCap(caps: Caps, slot: nat, v: int): (r: Caps)
    requires slot < 2 * MAX_GROUPS
  {
    caps[slot := v]
  }

  /** Does the choice bit enter the body?  The preferred branch is `false`. */
  predicate Enters(greedy: bool, bit: bool) {
    bit != greedy
  }

  ghost function Derive(n: Node, inp: Input, at: Spot): (r: Option<Spot>)
    requires WellFormed(n)
    ensures r.Some? ==> |r.value.rest| <= |at.rest|
    ensures r.Some? && at.pos <= |inp.s| ==> r.value.pos <= |inp.s|
    decreases n, 0, 0
  {
    match n
    case Empty => Some(at)
    case Char(_) => if Consumes(n, inp.s, at.pos) then Some(at.(pos := at.pos + 1)) else None
    case Any => if Consumes(n, inp.s, at.pos) then Some(at.(pos := at.pos + 1)) else None
    case Class(_) => if Consumes(n, inp.s, at.pos) then Some(at.(pos := at.pos + 1)) else None
    case Anchor(c) => if AnchorHolds(c, inp.s, at.pos) then Some(at) else None
    case Alt(a, b) =>
      if at.rest == [] then None
      else DeriveList(if at.rest[0] then b else a, inp, at.(rest := at.rest[1..]))
    case Repeat(child, lo, hi, greedy) =>
      var must := DeriveTimes(child, lo, inp, at);
      if must.None? then None
      else if hi < 0 then DeriveLoop(child, greedy, inp, must.value)
      else DeriveOptional(child, hi - lo, greedy, inp, must.value)
    case Group(gid, body) =>
      var entered := at.(caps := SetCap(at.caps, 2 * gid, at.pos - inp.start));
      var inner := DeriveList(body, inp, entered);
      if inner.None? then None
      else Some(inner.value.(caps := SetCap(inner.value.caps, 2 * gid + 1, inner.value.pos - inp.start)))
  }

  ghost function DeriveList(l: List, inp: Input, at: Spot): (r: Option<Spot>)
    requires WellFormedList(l)
    ensures r.Some? ==> |r.value.rest| <= |at.rest|
    ensures r.Some? && at.pos <= |inp.s| ==> r.value.pos <= |inp.s|
    decreases l, 0, 0
  {
    match l
    case Nil => Some(at)
    case Cons(h, t) =>
      var first := Derive(h, inp, at);
      if first.None? then None else DeriveList(t, inp, first.value)
  }

  /** Exactly `k` rounds. */
  ghost function DeriveTimes(n: Node, k: nat, inp: Input, at: Spot): (r: Option<Spot>)
    requires WellFormed(n)
    ensures r.Some? ==> |r.value.rest| <= |at.rest|
    ensures r.Some? && at.pos <= |inp.s| ==> r.value.pos <= |inp.s|
    decreases n, 1, k
  {
    if k == 0 then Some(at)
    else
      var first := Derive(n, inp, at);
      if first.None? then None else DeriveTimes(n, k - 1, inp, first.value)
  }

  /** `k` rounds, each taken or skipped by one choice. */
  ghost function DeriveOptional(n: Node, k: nat, greedy: bool, inp: Input, at: Spot): (r: Option<Spot>)
    requires WellFormed(n)
    ensures r.Some? ==> |r.value.rest| <= |at.rest|
    ensures r.Some? && at.pos <= |inp.s| ==> r.value.pos <= |inp.s|
    decreases n, 1, k
  {
    if k == 0 then Some(at)
    else if at.rest == [] then None
    else
      var next := at.(rest := at.rest[1..]);
      if Enters(greedy, at.rest[0]) then
        var first := Derive(n, inp, next);
        if first.None? then None else DeriveOptional(n, k - 1, greedy, inp, first.value)
      else
        DeriveOptional(n, k - 1, greedy, inp, next)
  }

  /** Rounds until a choice leaves the loop. */
  ghost function DeriveLoop(n: Node, greedy: bool, inp: Input, at: Spot): (r: Option<Spot>)
    requires WellFormed(n)
    ensures r.Some? ==> |r.value.rest| <= |at.rest|
    ensures r.Some? && at.pos <= |inp.s| ==> r.value.pos <= |inp.s|
    decreases n, 1, |at.rest|
  {
    if at.rest == [] then None
    else
      var next := at.(rest := at.rest[1..]);
      if Enters(greedy, at.rest[0]) then
        var first := Derive(n, inp, next);
        if first.None? then None else DeriveLoop(n, greedy, inp, first.value)
      else
        Some(next)
  }

  // ---------------------------------------------------------------------------------
  // Every derivation is a match

  lemma {:induction false} DeriveSound(n: Node, inp: Input, at: Spot)
    requires WellFormed(n) && Derive(n, inp, at).Some?
    ensures Matches(n, inp.s, at.pos, Derive(n, inp, at).value.pos)
    decreases n, 0, 0
  {
    match n
    case Alt(a, b) =>
      DeriveListSound(if at.rest[0] then b else a, inp, at.(rest := at.rest[1..]));
    case Repeat(child, lo, hi, greedy) =>
      var must := DeriveTimes(child, lo, inp, at).value;
      DeriveTimesSound(child, lo, inp, at);
      var k: nat;
      if hi < 0 {
        k := DeriveLoopSound(child, greedy, inp, must);
      } else {
        k := DeriveOptionalSound(child, hi - lo, greedy, inp, must);
      }
      MatchesTimesAdd(child, lo, k, inp.s, at.pos, must.pos, Derive(n, inp, at).value.pos);
    case Group(gid, body) =>
      DeriveListSound(body, inp, at.(caps := SetCap(at.caps, 2 * gid, at.pos - inp.start)));
    case _ =>
  }

  lemma {:induction false} DeriveListSound(l: List, inp: Input, at: Spot)
    requires WellFormedList(l) && DeriveList(l, inp, at).Some?
    ensures MatchesList(l, inp.s, at.pos, DeriveList(l, inp, at).value.pos)
    decreases l, 0, 0
  {
    match l
    case Nil =>
    case Cons(h, t) =>
      DeriveSound(h, inp, at);
      DeriveListSound(t, inp, Derive(h, inp, at).value);
  }

  lemma {:induction false} DeriveTimesSound(n: Node, k: nat, inp: Input, at: Spot)
    requires WellFormed(n) && DeriveTimes(n, k, inp, at).Some?
    ensures MatchesTimes(n, k, inp.s, at.pos, DeriveTimes(n, k, inp, at).value.pos)
    decreases n, 1, k
  {
    if k > 0 {
      DeriveSound(n, inp, at);
      DeriveTimesSound(n, k - 1, inp, Derive(n, inp, at).value);
    }
  }

  lemma {:induction false} DeriveOptionalSound(n: Node, k: nat, greedy: bool, inp: Input, at: Spot) returns (used: nat)
    requires WellFormed(n) && DeriveOptional(n, k, greedy, inp, at).Some?
    ensures used <= k
    ensures MatchesTimes(n, used, inp.s, at.pos, DeriveOptional(n, k, greedy, inp, at).value.pos)
    decreases n, 1, k
  {
    used := 0;
    if k > 0 {
      var next := at.(rest := at.rest[1..]);
      if Enters(greedy, at.rest[0]) {
        DeriveSound(n, inp, next);
        var more := DeriveOptionalSound(n, k - 1, greedy, inp, Derive(n, inp, next).value);
        used := more + 1;
      } else {
        used := DeriveOptionalSound(n, k - 1, greedy, inp, next);
      }
    }
  }

  lemma {:induction false} DeriveLoopSound(n: Node, greedy: bool, inp: Input, at: Spot) returns (used: nat)
    requires WellFormed(n) && DeriveLoop(n, greedy, inp, at).Some?
    ensures MatchesTimes(n, used, inp.s, at.pos, DeriveLoop(n, greedy, inp, at).value.pos)
    decreases n, 1, |at.rest|
  {
    used := 0;
    var next := at.(rest := at.rest[1..]);
    if Enters(greedy, at.rest[0]) {
      DeriveSound(n, inp, next);
      var more := DeriveLoopSound(n, greedy, inp, Derive(n, inp, next).value);
      used := more + 1;
    }
  }

  lemma {:induction false} MatchesTimesAdd(n: Node, k: nat, l: nat, s: seq<Byte>, i: nat, m: nat, j: nat)
    requires MatchesTimes(n, k, s, i, m) && MatchesTimes(n, l, s, m, j)
    ensures MatchesTimes(n, k + l, s, i, j)
    decreases k
  {
    if k > 0 {
      var m1: nat :| Matches(n, s, i, m1) && MatchesTimes(n, k - 1, s, m1, m);
      MatchesTimesAdd(n, k - 1, l, s, m1, m, j);
      assert MatchesTimes(n, k + l - 1, s, m1, j);
    }
  }

  // ---------------------------------------------------------------------------------
  // Every match has a derivation

  function More(at: Spot, v: seq<bool>): Spot {
    at.(rest := at.rest + v)
  }

  /** Choices beyond those a derivation uses do not change it. */
  lemma {:induction false} DeriveExtend(n: Node, inp: Input, at: Spot, v: seq<bool>)
    requires WellFormed(n) && Derive(n, inp, at).Some?
    ensures Derive(n, inp, More(at, v)) == Some(More(Derive(n, inp, at).value, v))
    decreases n, 0, 0
  {
    match n
    case Alt(a, b) =>
      assert More(at, v).rest[1..] == at.rest[1..] + v;
      DeriveListExtend(if at.rest[0] then b else a, inp, at.(rest := at.rest[1..]), v);
    case Repeat(child, lo, hi, greedy) =>
      DeriveRepeatExtend(child, lo, hi, greedy, inp, at, v);
    case Group(gid, body) =>
      DeriveListExtend(body, inp, at.(caps := SetCap(at.caps, 2 * gid, at.pos - inp.start)), v);
    case _ =>
  }

  lemma {:induction false} DeriveRepeatExtend(child: Node, lo: nat, hi: int, greedy: bool, inp: Input, at: Spot,
                                              v: seq<bool>)
    requires WellFormed(Repeat(child, lo, hi, greedy)) && Derive(Repeat(child, lo, hi, greedy), inp, at).Some?
    ensures Derive(Repeat(child, lo, hi, greedy), inp, More(at, v))
         == Some(More(Derive(Repeat(child, lo, hi, greedy), inp, at).value, v))
    decreases child, 2, 0
  {
    hide DeriveTimes, DeriveOptional, DeriveLoop;
    DeriveTimesExtend(child, lo, inp, at, v);
    var must := DeriveTimes(child, lo, inp, at).value;
    if hi < 0 {
      DeriveLoopExtend(child, greedy, inp, must, v);
    } else {
      DeriveOptionalExtend(child, hi - lo, greedy, inp, must, v);
    }
  }

  lemma {:induction false} DeriveListExtend(l: List, inp: Input, at: Spot, v: seq<bool>)
    requires WellFormedList(l) && DeriveList(l, inp, at).Some?
    ensures DeriveList(l, inp, More(at, v)) == Some(More(DeriveList(l, inp, at).value, v))
    decreases l, 0, 0
  {
    match l
    case Nil =>
    case Cons(h, t) =>
      DeriveExtend(h, inp, at, v);
      DeriveListExtend(t, inp, Derive(h, inp, at).value, v);
  }

  lemma {:induction false} DeriveTimesExtend(n: Node, k: nat, inp: Input, at: Spot, v: seq<bool>)
    requires WellFormed(n) && DeriveTimes(n, k, inp, at).Some?
    ensures DeriveTimes(n, k, inp, More(at, v)) == Some(More(DeriveTimes(n, k, inp, at).value, v))
    decreases n, 1, k
  {
    if k > 0 {
      DeriveExtend(n, inp, at, v);
      DeriveTimesExtend(n, k - 1, inp, Derive(n, inp, at).value, v);
    }
  }

  lemma {:induction false} DeriveOptionalExtend(n: Node, k: nat, greedy: bool, inp: Input, at: Spot, v: seq<bool>)
    requires WellFormed(n) && DeriveOptional(n, k, greedy, inp, at).Some?
    ensures DeriveOptional(n, k, greedy, inp, More(at, v)) == Some(More(DeriveOptional(n, k, greedy, inp, at).value, v))
    decreases n, 1, k
  {
    if k > 0 {
      var next := at.(rest := at.rest[1..]);
      assert More(at, v).rest[1..] == next.rest + v;
      if Enters(greedy, at.rest[0]) {
        DeriveExtend(n, inp, next, v);
        DeriveOptionalExtend(n, k - 1, greedy, inp, Derive(n, inp, next).value, v);
      } else {
        DeriveOptionalExtend(n, k - 1, greedy, inp, next, v);
      }
    }
  }

  lemma {:induction false} DeriveLoopExtend(n: Node, greedy: bool, inp: Input, at: Spot, v: seq<bool>)
    requires WellFormed(n) && DeriveLoop(n, greedy, inp, at).Some?
    ensures DeriveLoop(n, greedy, inp, More(at, v)) == Some(More(DeriveLoop(n, greedy, inp, at).value, v))
    decreases n, 1, |at.rest|
  {
    var next := at.(rest := at.rest[1..]);
    assert More(at, v).rest[1..] == next.rest + v;
    if Enters(greedy, at.rest[0]) {
      DeriveExtend(n, inp, next, v);
      DeriveLoopExtend(n, greedy, inp, Derive(n, inp, next).value, v);
    }
  }

  lemma {:induction false} DeriveComplete(n: Node, inp: Input, i: nat, caps: Caps, j: nat)
    returns (w: seq<bool>, out: Caps)
    requires WellFormed(n) && Matches(n, inp.s, i, j)
    ensures Derive(n, inp, Spot(i, caps, w)) == Some(Spot(j, out, []))
    decreases n, 0, 0
  {
    w, out := [], caps;
    match n
    case Alt(a, b) =>
      var right := !MatchesList(a, inp.s, i, j);
      var w1, o1 := DeriveListComplete(if right then b else a, inp, i, caps, j);
      w, out := [right] + w1, o1;
      assert w[1..] == w1;
    case Repeat(child, lo, hi, greedy) =>
      w, out := DeriveRepeatComplete(child, lo, hi, greedy, inp, i, caps, j);
    case Group(gid, body) =>
      var o1;
      w, o1 := DeriveListComplete(body, inp, i, SetCap(caps, 2 * gid, i - inp.start), j);
      out := SetCap(o1, 2 * gid + 1, j - inp.start);
    case _ =>
  }

  lemma {:induction false} DeriveRepeatComplete(child: Node, lo: nat, hi: int, greedy: bool, inp: Input, i: nat,
                                                caps: Caps, j: nat)
    returns (w: seq<bool>, out: Caps)
    requires WellFormed(Repeat(child, lo, hi, greedy)) && Matches(Repeat(child, lo, hi, greedy), inp.s, i, j)
    ensures Derive(Repeat(child, lo, hi, greedy), inp, Spot(i, caps, w)) == Some(Spot(j, out, []))
    decreases child, 2, 0
  {
    hide DeriveTimes, DeriveOptional, DeriveLoop, MatchesTimes;
    var k: nat :| lo <= k && (hi < 0 || k <= hi) && MatchesTimes(child, k, inp.s, i, j);
    var m := MatchesTimesSplit(child, lo, k - lo, inp.s, i, j);
    var w1, o1 := DeriveTimesComplete(child, lo, inp, i, caps, m);
    var w2;
    if hi < 0 {
      w2, out := DeriveLoopComplete(child, k - lo, greedy, inp, m, o1, j);
    } else {
      w2, out := DeriveOptionalComplete(child, hi - lo, k - lo, greedy, inp, m, o1, j);
    }
    w := w1 + w2;
    DeriveTimesExtend(child, lo, inp, Spot(i, caps, w1), w2);
    assert [] + w2 == w2;
  }

  lemma {:induction false} DeriveListComplete(l: List, inp: Input, i: nat, caps: Caps, j: nat)
    returns (w: seq<bool>, out: Caps)
    requires WellFormedList(l) && MatchesList(l, inp.s, i, j)
    ensures DeriveList(l, inp, Spot(i, caps, w)) == Some(Spot(j, out, []))
    decreases l, 0, 0
  {
    match l
    case Nil =>
      w, out := [], caps;
    case Cons(h, t) =>
      var m: nat :| Matches(h, inp.s, i, m) && MatchesList(t, inp.s, m, j);
      var w1, o1 := DeriveComplete(h, inp, i, caps, m);
      var w2;
      w2, out := DeriveListComplete(t, inp, m, o1, j);
      w := w1 + w2;
      DeriveExtend(h, inp, Spot(i, caps, w1), w2);
      assert [] + w2 == w2;
  }

  lemma {:induction false} DeriveTimesComplete(n: Node, k: nat, inp: Input, i: nat, caps: Caps, j: nat)
    returns (w: seq<bool>, out: Caps)
    requires WellFormed(n) && MatchesTimes(n, k, inp.s, i, j)
    ensures DeriveTimes(n, k, inp, Spot(i, caps, w)) == Some(Spot(j, out, []))
    decreases n, 1, k
  {
    if k == 0 {
      w, out := [], caps;
    } else {
      var m: nat :| Matches(n, inp.s, i, m) && MatchesTimes(n, k - 1, inp.s, m, j);
      var w1, o1 := DeriveComplete(n, inp, i, caps, m);
      var w2;
      w2, out := DeriveTimesComplete(n, k - 1, inp, m, o1, j);
      w := w1 + w2;
      DeriveExtend(n, inp, Spot(i, caps, w1), w2);
      assert [] + w2 == w2;
    }
  }

  lemma {:induction false} DeriveOptionalComplete(n: Node, k: nat, used: nat, greedy: bool, inp: Input,
                                                  i: nat, caps: Caps, j: nat)
    returns (w: seq<bool>, out: Caps)
    requires WellFormed(n) && used <= k && MatchesTimes(n, used, inp.s, i, j)
    ensures DeriveOptional(n, k, greedy, inp, Spot(i, caps, w)) == Some(Spot(j, out, []))
    decreases n, 1, k
  {
    if k == 0 {
      w, out := [], caps;
    } else if used == 0 {
      var w2;
      w2, out := DeriveOptionalComplete(n, k - 1, 0, greedy, inp, i, caps, j);
      w := [greedy] + w2;
      assert w[1..] == w2;
    } else {
      var m: nat :| Matches(n, inp.s, i, m) && MatchesTimes(n, used - 1, inp.s, m, j);
      var w1, o1 := DeriveComplete(n, inp, i, caps, m);
      var w2;
      w2, out := DeriveOptionalComplete(n, k - 1, used - 1, greedy, inp, m, o1, j);
      w := [!greedy] + (w1 + w2);
      assert w[1..] == w1 + w2;
      DeriveExtend(n, inp, Spot(i, caps, w1), w2);
      assert [] + w2 == w2;
    }
  }

  lemma {:induction false} DeriveLoopComplete(n: Node, k: nat, greedy: bool, inp: Input,
                                              i: nat, caps: Caps, j: nat)
    returns (w: seq<bool>, out: Caps)
    requires WellFormed(n) && MatchesTimes(n, k, inp.s, i, j)
    ensures DeriveLoop(n, greedy, inp, Spot(i, caps, w)) == Some(Spot(j, out, []))
    decreases n, 1, k
  {
    if k == 0 {
      w, out := [greedy], caps;
    } else {
      var m: nat :| Matches(n, inp.s, i, m) && MatchesTimes(n, k - 1, inp.s, m, j);
      var w1, o1 := DeriveComplete(n, inp, i, caps, m);
      var w2;
      w2, out := DeriveLoopComplete(n, k - 1, greedy, inp, m, o1, j);
      w := [!greedy] + (w1 + w2);
      assert w[1..] == w1 + w2;
      DeriveExtend(n, inp, Spot(i, caps, w1), w2);
      assert [] + w2 == w2;
    }
  }

  lemma {:induction false} MatchesTimesSplit(n: Node, k: nat, l: nat, s: seq<Byte>, i: nat, j: nat) returns (m: nat)
    requires MatchesTimes(n, k + l, s, i, j)
    ensures MatchesTimes(n, k, s, i, m) && MatchesTimes(n, l, s, m, j)
    decreases k
  {
    if k == 0 {
      m := i;
    } else {
      var m1: nat :| Matches(n, s, i, m1) && MatchesTimes(n, k + l - 1, s, m1, j);
      m := MatchesTimesSplit(n, k - 1, l, s, m1, j);
    }
  }

  /** The two readings agree: a span is matched exactly when some choice word derives it,
      whatever the captures were before. */
  lemma MatchIffDerived(l: List, inp: Input, i: nat, caps: Caps, j: nat)
    requires WellFormedList(l)
    ensures MatchesList(l, inp.s, i, j)
       <==> exists w, out :: DeriveList(l, inp, Spot(i, caps, w)) == Some(Spot(j, out, []))
  {
    if MatchesList(l, inp.s, i, j) {
      var w, out := DeriveListComplete(l, inp, i, caps, j);
      assert DeriveList(l, inp, Spot(i, caps, w)) == Some(Spot(j, out, []));
    }
    if w, out :| DeriveList(l, inp, Spot(i, caps, w)) == Some(Spot(j, out, [])) {
      DeriveListSound(l, inp, Spot(i, caps, w));
    }
  }
}
