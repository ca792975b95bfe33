/**
 Expressions whose searches stay within the depth cap, judged by their tree and the length of the
 text: what a derivation can spend when every unbounded repeat moves forward.
 */
module RegexCost {
  import opened Options
  import opened RegexSyntax
  import opened RegexMeaning
  import opened RegexLinear
  import opened RegexDepth

  /** No repeat is unbounded. */
  predicate Bounded(n: Node) {
    match n
    case Alt(a, b) => BoundedList(a) && BoundedList(b)
    case Repeat(child, _, hi, _) => hi >= 0 && Bounded(child)
    case Group(_, body) => BoundedList(body)
    case _ => true
  }

  predicate BoundedList(l: List) {
    l.Cons? ==> Bounded(l.head) && BoundedList(l.tail)
  }

  /** Every match takes at least one byte. */
  predicate Moves(n: Node) {
    match n
    case Empty => false
    case Anchor(_) => false
    case Alt(a, b) => MovesList(a) && MovesList(b)
    case Repeat(child, lo, _, _) => lo > 0 && Moves(child)
    case Group(_, body) => MovesList(body)
    case _ => true
  }

  predicate MovesList(l: List) {
    l.Cons? && (Moves(l.head) || MovesList(l.tail))
  }

  /** Every unbounded repeat takes at least one byte a round and, as the compiler demands of all
      repeats, makes no choice inside. */
  predicate Steady(n: Node) {
    match n
    case Alt(a, b) => SteadyList(a) && SteadyList(b)
    case Repeat(child, _, hi, _) => if hi < 0 then Linear(child) && Moves(child) else Steady(child)
    case Group(_, body) => SteadyList(body)
    case _ => true
  }

  predicate SteadyList(l: List) {
    l.Cons? ==> Steady(l.head) && SteadyList(l.tail)
  }

  /** The choices a derivation makes at most, besides one for every byte an unbounded repeat takes. */
  function Cost(n: Node): nat
    requires WellFormed(n)
    decreases n, 0
  {
    match n
    case Alt(a, b) => 1 + if CostList(a) < CostList(b) then CostList(b) else CostList(a)
    case Repeat(child, lo, hi, _) =>
      Rounds(lo, Cost(child)) + if hi < 0 then 1 else Rounds(hi - lo, 1 + Cost(child))
    case Group(_, body) => CostList(body)
    case _ => 0
  }

  function CostList(l: List): nat
    requires WellFormedList(l)
    decreases l, 0
  {
    if l.Nil? then 0 else Cost(l.head) + CostList(l.tail)
  }

  function Rounds(k: nat, cost: nat): nat {
    if k == 0 then 0 else cost + Rounds(k - 1, cost)
  }

  lemma {:induction false} LinearIsFree(n: Node)
    requires WellFormed(n) && Linear(n)
    ensures Bounded(n) && Steady(n) && Cost(n) == 0
  {
    match n
    case Repeat(child, lo, _, _) =>
      LinearIsFree(child);
      NoRounds(lo);
    case Group(_, body) => LinearListIsFree(body);
    case _ =>
  }

  lemma {:induction false} LinearListIsFree(l: List)
    requires WellFormedList(l) && LinearList(l)
    ensures BoundedList(l) && SteadyList(l) && CostList(l) == 0
  {
    if l.Cons? {
      LinearIsFree(l.head);
      LinearListIsFree(l.tail);
    }
  }

  lemma {:induction false} NoRounds(k: nat)
    ensures Rounds(k, 0) == 0
  {
    if k > 0 { NoRounds(k - 1); }
  }

  // ---------------------------------------------------------------------------------
  // Matches go forward

  /** From `i` to `j` inside the string, and further if `moves`. */
  predicate Forward(s: seq<Byte>, i: nat, j: nat, moves: bool) {
    (i == j && !moves) || i < j <= |s|
  }

  lemma {:induction false} MatchForward(n: Node, s: seq<Byte>, i: nat, j: nat)
    requires Matches(n, s, i, j)
    ensures Forward(s, i, j, false) && Forward(s, i, j, Moves(n))
    decreases n, 0, 0
  {
    match n
    case Alt(a, b) => MatchListForward(if MatchesList(a, s, i, j) then a else b, s, i, j);
    case Repeat(child, lo, hi, _) =>
      var k: nat :| lo <= k && (hi < 0 || k <= hi) && MatchesTimes(child, k, s, i, j);
      MatchTimesForward(child, k, s, i, j);
    case Group(_, body) => MatchListForward(body, s, i, j);
    case _ =>
  }

  lemma {:induction false} MatchListForward(l: List, s: seq<Byte>, i: nat, j: nat)
    requires MatchesList(l, s, i, j)
    ensures Forward(s, i, j, false) && Forward(s, i, j, MovesList(l))
    decreases l, 0, 0
  {
    if l.Cons? {
      var m: nat :| Matches(l.head, s, i, m) && MatchesList(l.tail, s, m, j);
      MatchForward(l.head, s, i, m);
      MatchListForward(l.tail, s, m, j);
    }
  }

  lemma {:induction false} MatchTimesForward(n: Node, k: nat, s: seq<Byte>, i: nat, j: nat)
    requires MatchesTimes(n, k, s, i, j)
    ensures Forward(s, i, j, false) && Forward(s, i, j, k > 0 && Moves(n))
    decreases n, 1, k
  {
    if k > 0 {
      var m: nat :| Matches(n, s, i, m) && MatchesTimes(n, k - 1, s, m, j);
      MatchForward(n, s, i, m);
      MatchTimesForward(n, k - 1, s, m, j);
    }
  }

  // ---------------------------------------------------------------------------------
  // What a derivation spends

  /** The bytes left for unbounded repeats, if there are any. */
  function Left(inp: Input, at: Spot, loops: bool): nat {
    if loops && at.pos <= |inp.s| then |inp.s| - at.pos else 0
  }

  /** A derivation within `cost` and the bytes it takes: neither its success nor its failure uses more
      choices. */
  ghost predicate Within(spends: bool, r: Option<Spot>, inp: Input, at: Spot, cost: nat, loops: bool) {
    && (spends ==> |at.rest| <= cost + Left(inp, at, loops))
    && (r.Some? ==> |at.rest| + Left(inp, r.value, loops) <= |r.value.rest| + cost + Left(inp, at, loops))
  }

  /** Two derivations in a row. */
  lemma WithinJoin(spends: bool, first: Option<Spot>, spends': bool, r: Option<Spot>, inp: Input, at: Spot,
                   cost: nat, cost': nat, loops: bool)
    requires Within(spends, first, inp, at, cost, loops)
    requires first.Some? ==> Within(spends', r, inp, first.value, cost', loops)
    ensures Within(spends || (first.Some? && spends'), if first.Some? then r else None, inp, at, cost + cost', loops)
  {
  }

  /** One choice before a derivation. */
  lemma WithinChoice(spends: bool, r: Option<Spot>, inp: Input, at: Spot, cost: nat, loops: bool)
    requires at.rest != [] && Within(spends, r, inp, at.(rest := at.rest[1..]), cost, loops)
    ensures Within(spends, r, inp, at, 1 + cost, loops)
  {
  }

  lemma WithinMore(spends: bool, r: Option<Spot>, inp: Input, at: Spot, cost: nat, cost': nat, loops: bool)
    requires Within(spends, r, inp, at, cost, loops) && cost <= cost'
    ensures Within(spends, r, inp, at, cost', loops)
  {
  }

  lemma WithinNothing(r: Option<Spot>, inp: Input, at: Spot, cost: nat, loops: bool)
    requires r.Some? ==> r.value == at
    ensures Within(at.rest == [], r, inp, at, cost, loops)
  {
  }

  lemma {:induction false} CostBounds(n: Node, inp: Input, at: Spot, loops: bool)
    requires WellFormed(n) && Steady(n) && (loops || Bounded(n))
    ensures Within(Spends(n, inp, at), Derive(n, inp, at), inp, at, Cost(n), loops)
    decreases n, 0, 1
  {
    match n
    case Alt(a, b) => CostAltBounds(a, b, inp, at, loops);
    case Repeat(child, lo, hi, greedy) => CostRepeatBounds(child, lo, hi, greedy, inp, at, loops);
    case Group(gid, body) =>
      hide SpendsList, DeriveList, CostList;
      CostListBounds(body, inp, at.(caps := SetCap(at.caps, 2 * gid, at.pos - inp.start)), loops);
    case _ =>
  }

  lemma {:induction false} CostAltBounds(a: List, b: List, inp: Input, at: Spot, loops: bool)
    requires WellFormed(Node.Alt(a, b)) && Steady(Node.Alt(a, b)) && (loops || Bounded(Node.Alt(a, b)))
    ensures var n := Node.Alt(a, b); Within(Spends(n, inp, at), Derive(n, inp, at), inp, at, Cost(n), loops)
    decreases Node.Alt(a, b), 0, 0
  {
    hide SpendsList, DeriveList, CostList;
    if at.rest != [] {
      CostListBounds(if at.rest[0] then b else a, inp, at.(rest := at.rest[1..]), loops);
    }
  }

  lemma {:induction false} CostRepeatBounds(child: Node, lo: nat, hi: int, greedy: bool, inp: Input, at: Spot,
                                            loops: bool)
    requires var n := Repeat(child, lo, hi, greedy); WellFormed(n) && Steady(n) && (loops || Bounded(n))
    ensures var n := Repeat(child, lo, hi, greedy);
            Within(Spends(n, inp, at), Derive(n, inp, at), inp, at, Cost(n), loops)
    decreases Repeat(child, lo, hi, greedy), 0, 0
  {
    hide SpendsTimes, DeriveTimes, SpendsOptional, DeriveOptional, SpendsLoop, DeriveLoop, Rounds;
    if hi < 0 {
      LinearIsFree(child);
    }
    CostTimesBounds(child, lo, inp, at, loops);
    var must := DeriveTimes(child, lo, inp, at);
    if must.Some? {
      if hi < 0 {
        CostLoopBounds(child, greedy, inp, must.value);
      } else {
        CostOptionalBounds(child, hi - lo, greedy, inp, must.value, loops);
      }
    }
  }

  /** An expression makes at most the choices counted from its tree, and with unbounded repeats one
      more for every byte of the text that is left. */
  lemma {:induction false} CostListBounds(l: List, inp: Input, at: Spot, loops: bool)
    requires WellFormedList(l) && SteadyList(l) && (loops || BoundedList(l))
    ensures Within(SpendsList(l, inp, at), DeriveList(l, inp, at), inp, at, CostList(l), loops)
    decreases l, 0, 0
  {
    hide Spends, Derive, Cost;
    if l.Cons? {
      CostBounds(l.head, inp, at, loops);
      var first := Derive(l.head, inp, at);
      if first.Some? { CostListBounds(l.tail, inp, first.value, loops); }
    }
  }

  lemma {:induction false} CostTimesBounds(n: Node, k: nat, inp: Input, at: Spot, loops: bool)
    requires WellFormed(n) && Steady(n) && (loops || Bounded(n))
    ensures Within(SpendsTimes(n, k, inp, at), DeriveTimes(n, k, inp, at), inp, at, Rounds(k, Cost(n)), loops)
    decreases n, 1, k
  {
    hide Spends, Derive, Cost;
    if k > 0 {
      CostBounds(n, inp, at, loops);
      var first := Derive(n, inp, at);
      if first.Some? { CostTimesBounds(n, k - 1, inp, first.value, loops); }
    }
  }

  lemma {:induction false} CostOptionalBounds(n: Node, k: nat, greedy: bool, inp: Input, at: Spot, loops: bool)
    requires WellFormed(n) && Steady(n) && (loops || Bounded(n))
    ensures Within(SpendsOptional(n, k, greedy, inp, at), DeriveOptional(n, k, greedy, inp, at), inp, at,
                   Rounds(k, 1 + Cost(n)), loops)
    decreases n, 1, k
  {
    hide Spends, Derive, Cost, Within, Steady, Bounded, SpendsOptional, DeriveOptional;
    OptionalSteps(n, k, greedy, inp, at);
    if k == 0 || at.rest == [] {
      WithinNothing(DeriveOptional(n, k, greedy, inp, at), inp, at, Rounds(k, 1 + Cost(n)), loops);
      return;
    }
    var next := at.(rest := at.rest[1..]);
    if Enters(greedy, at.rest[0]) {
      CostBounds(n, inp, next, loops);
      var first := Derive(n, inp, next);
      if first.Some? { CostOptionalBounds(n, k - 1, greedy, inp, first.value, loops); }
      WithinJoin(Spends(n, inp, next), first, first.Some? && SpendsOptional(n, k - 1, greedy, inp, first.value),
                 DeriveOptional(n, k, greedy, inp, at), inp, next, Cost(n), Rounds(k - 1, 1 + Cost(n)), loops);
      WithinChoice(SpendsOptional(n, k, greedy, inp, at), DeriveOptional(n, k, greedy, inp, at), inp, at,
                   Cost(n) + Rounds(k - 1, 1 + Cost(n)), loops);
    } else {
      CostOptionalBounds(n, k - 1, greedy, inp, next, loops);
      WithinMore(SpendsOptional(n, k, greedy, inp, at), DeriveOptional(n, k, greedy, inp, at), inp, next,
                 Rounds(k - 1, 1 + Cost(n)), Cost(n) + Rounds(k - 1, 1 + Cost(n)), loops);
      WithinChoice(SpendsOptional(n, k, greedy, inp, at), DeriveOptional(n, k, greedy, inp, at), inp, at,
                   Cost(n) + Rounds(k - 1, 1 + Cost(n)), loops);
    }
  }

  /** Both readings of an optional repeat, one choice at a time. */
  lemma {:induction false} OptionalSteps(n: Node, k: nat, greedy: bool, inp: Input, at: Spot)
    requires WellFormed(n)
    ensures var spends, r := SpendsOptional(n, k, greedy, inp, at), DeriveOptional(n, k, greedy, inp, at);
            if k == 0 || at.rest == [] then spends == (at.rest == []) && r == if k == 0 then Some(at) else None
            else
              var next := at.(rest := at.rest[1..]);
              var first := if Enters(greedy, at.rest[0]) then Derive(n, inp, next) else Some(next);
              && r == (if first.None? then None else DeriveOptional(n, k - 1, greedy, inp, first.value))
              && spends == (|| (Enters(greedy, at.rest[0]) && Spends(n, inp, next))
                            || (first.Some? && SpendsOptional(n, k - 1, greedy, inp, first.value)))
  {
    hide Spends, Derive;
  }

  /** Each round of an unbounded repeat makes one choice and takes at least one byte. */
  lemma {:induction false} CostLoopBounds(n: Node, greedy: bool, inp: Input, at: Spot)
    requires WellFormed(n) && Linear(n) && Moves(n)
    ensures Within(SpendsLoop(n, greedy, inp, at), DeriveLoop(n, greedy, inp, at), inp, at, 1, true)
    decreases n, 2, |at.rest|
  {
    hide Spends, Derive, Within, Left, Moves, Linear;
    if at.rest == [] {
      WithinNothing(None, inp, at, 1, true);
    } else {
      var next := at.(rest := at.rest[1..]);
      if Enters(greedy, at.rest[0]) {
        RoundBounds(n, inp, next);
        var first := Derive(n, inp, next);
        if first.Some? { CostLoopBounds(n, greedy, inp, first.value); }
        WithinRound(Spends(n, inp, next), first, first.Some? && SpendsLoop(n, greedy, inp, first.value),
                    DeriveLoop(n, greedy, inp, at), inp, at);
      } else {
        WithinNothing(Some(next), inp, next, 0, true);
        WithinChoice(next.rest == [], Some(next), inp, at, 0, true);
      }
    }
  }

  /** A round makes no choice of its own and uses up at least one byte. */
  ghost predicate Round(spends: bool, first: Option<Spot>, inp: Input, next: Spot) {
    && (spends ==> next.rest == [])
    && (first.Some? ==> && |next.rest| <= |first.value.rest|
                        && Left(inp, first.value, true) < Left(inp, next, true))
  }

  lemma WithinRound(spends: bool, first: Option<Spot>, spends': bool, r: Option<Spot>, inp: Input, at: Spot)
    requires at.rest != [] && Round(spends, first, inp, at.(rest := at.rest[1..]))
    requires first.Some? ==> Within(spends', r, inp, first.value, 1, true)
    ensures Within(spends || (first.Some? && spends'), if first.Some? then r else None, inp, at, 1, true)
  {
  }

  lemma {:induction false} RoundBounds(n: Node, inp: Input, at: Spot)
    requires WellFormed(n) && Linear(n) && Moves(n)
    ensures Round(Spends(n, inp, at), Derive(n, inp, at), inp, at)
    decreases n, 1, 0
  {
    hide Spends, Derive, Moves, Linear;
    LinearIsFree(n);
    CostBounds(n, inp, at, false);
    var first := Derive(n, inp, at);
    if first.Some? {
      DeriveSound(n, inp, at);
      MatchForward(n, inp.s, at.pos, first.value.pos);
    }
  }
}
