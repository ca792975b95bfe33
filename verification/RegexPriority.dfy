/**
 Which match comes first, in the words of the documentation: the left alternative before the right
 one, greedy repeats take as much as they can, reluctant ones as little.
 */
module RegexPriority {
  import opened Options
  import opened RegexSyntax
  import opened RegexMeaning
  import opened RegexProgram
  import opened RegexEngine

  function Alone(n: Node): List {
    Cons(n, Nil)
  }

  lemma AloneDerives(n: Node, inp: Input, w: seq<bool>, r: Spot)
    requires WellFormed(n)
    ensures Derives(Alone(n), inp, w, r) <==> r.rest == [] && Derive(n, inp, Spot(inp.start, NO_CAPS, w)) == Some(r)
  {
    hide Derive;
    var first := Derive(n, inp, Spot(inp.start, NO_CAPS, w));
    if first.Some? {
      assert DeriveList(Nil, inp, first.value) == first;
    }
  }

  // ----- Alternatives -----

  lemma AltWord(a: List, b: List, inp: Input, right: bool, u: seq<bool>, r: Spot)
    requires WellFormed(Node.Alt(a, b))
    ensures Derives(Alone(Node.Alt(a, b)), inp, [right] + u, r) <==> Derives(if right then b else a, inp, u, r)
  {
    AloneDerives(Node.Alt(a, b), inp, [right] + u, r);
    assert ([right] + u)[1..] == u;
  }

  lemma BeforeCons(bit: bool, u: seq<bool>, w: seq<bool>)
    ensures Before([bit] + u, [bit] + w) <==> Before(u, w)
    ensures Before([false] + u, [true] + w)
  {
    assert ([bit] + u)[1..] == u && ([bit] + w)[1..] == w;
  }

  /** If the left alternative matches at the start, the first match of the whole is the first match of the
      left one; otherwise it is that of the right one. */
  lemma LeftFirst(a: List, b: List, inp: Input, r: Spot)
    requires WellFormed(Node.Alt(a, b)) && FirstMatch(Alone(Node.Alt(a, b)), inp, r)
    ensures if NoMatchAt(a, inp.s, inp.start) then FirstMatch(b, inp, r) else FirstMatch(a, inp, r)
  {
    hide Derives, Before;
    var l := Alone(Node.Alt(a, b));
    var w :| Derives(l, inp, w, r) && NoneBefore(l, inp, w);
    AltNonempty(a, b, inp, w, r);
    var right, v := w[0], w[1..];
    assert w == [right] + v;
    AltWord(a, b, inp, right, v, r);
    var side := if right then b else a;
    forall u, q | Before(u, v) ensures !Derives(side, inp, u, q) {
      AltWord(a, b, inp, right, u, q);
      BeforeCons(right, u, v);
    }
    assert FirstMatch(side, inp, r);
    if right {
      LeftHasNone(a, b, inp, v);
    } else {
      DerivesMatches(a, inp, v, r);
    }
  }

  lemma AltNonempty(a: List, b: List, inp: Input, w: seq<bool>, r: Spot)
    requires WellFormed(Node.Alt(a, b)) && Derives(Alone(Node.Alt(a, b)), inp, w, r)
    ensures w != []
  {
    AloneDerives(Node.Alt(a, b), inp, w, r);
  }

  lemma DerivesMatches(l: List, inp: Input, w: seq<bool>, r: Spot)
    requires WellFormedList(l) && Derives(l, inp, w, r)
    ensures !NoMatchAt(l, inp.s, inp.start)
  {
    DeriveListSound(l, inp, Spot(inp.start, NO_CAPS, w));
    assert MatchesList(l, inp.s, inp.start, r.pos);
  }

  lemma LeftHasNone(a: List, b: List, inp: Input, v: seq<bool>)
    requires WellFormed(Node.Alt(a, b)) && NoneBefore(Alone(Node.Alt(a, b)), inp, [true] + v)
    ensures NoMatchAt(a, inp.s, inp.start)
  {
    hide Before, MatchesList, DeriveList;
    forall j: nat ensures !MatchesList(a, inp.s, inp.start, j) {
      if MatchesList(a, inp.s, inp.start, j) {
        var u, out := DeriveListComplete(a, inp, inp.start, NO_CAPS, j);
        assert Derives(a, inp, u, Spot(j, out, []));
        AltWord(a, b, inp, false, u, Spot(j, out, []));
        BeforeCons(true, u, v);
      }
    }
  }

  // ----- Repeats of one byte -----

  predicate OneByte(n: Node) {
    n.Char? || n.Any? || n.Class?
  }

  /** How many bytes in a row the node takes from `i` on. */
  function Row(n: Node, s: seq<Byte>, i: nat): nat
    decreases |s| - i
  {
    if i < |s| && Consumes(n, s, i) then 1 + Row(n, s, i + 1) else 0
  }

  lemma OneByteDerives(n: Node, inp: Input, at: Spot)
    requires WellFormed(n) && OneByte(n)
    ensures Derive(n, inp, at) == if Row(n, inp.s, at.pos) > 0 then Some(at.(pos := at.pos + 1)) else None
  {
  }

  lemma {:induction false} TimesDerives(n: Node, k: nat, inp: Input, at: Spot)
    requires WellFormed(n) && OneByte(n)
    ensures DeriveTimes(n, k, inp, at) == if k <= Row(n, inp.s, at.pos) then Some(at.(pos := at.pos + k)) else None
    decreases k
  {
    hide Derive;
    if k > 0 {
      OneByteDerives(n, inp, at);
      if Row(n, inp.s, at.pos) > 0 {
        TimesDerives(n, k - 1, inp, at.(pos := at.pos + 1));
      }
    }
  }

  /** The preferred choices of an unbounded repeat: a greedy one goes on while it can. */
  function BestLoop(n: Node, s: seq<Byte>, i: nat, greedy: bool): seq<bool>
    decreases Row(n, s, i)
  {
    if greedy && Row(n, s, i) > 0 then [false] + BestLoop(n, s, i + 1, greedy) else [greedy]
  }

  lemma {:induction false} BestLoopDerives(n: Node, greedy: bool, inp: Input, p: nat, caps: Caps)
    requires WellFormed(n) && OneByte(n)
    ensures var end := if greedy then p + Row(n, inp.s, p) else p;
            DeriveLoop(n, greedy, inp, Spot(p, caps, BestLoop(n, inp.s, p, greedy))) == Some(Spot(end, caps, []))
    decreases Row(n, inp.s, p)
  {
    hide Derive;
    var w := BestLoop(n, inp.s, p, greedy);
    if greedy && Row(n, inp.s, p) > 0 {
      assert w[1..] == BestLoop(n, inp.s, p + 1, greedy);
      OneByteDerives(n, inp, Spot(p, caps, w[1..]));
      BestLoopDerives(n, greedy, inp, p + 1, caps);
    } else {
      assert w[1..] == [];
    }
  }

  lemma {:induction false} BestLoopFirst(n: Node, greedy: bool, inp: Input, at: Spot)
    requires WellFormed(n) && OneByte(n)
    requires var r := DeriveLoop(n, greedy, inp, at); r.Some? && r.value.rest == []
    ensures var best := BestLoop(n, inp.s, at.pos, greedy); at.rest == best || Before(best, at.rest)
    decreases |at.rest|
  {
    hide Derive;
    var next := at.(rest := at.rest[1..]);
    OneByteDerives(n, inp, next);
    if greedy && Row(n, inp.s, at.pos) > 0 && !at.rest[0] {
      BestLoopFirst(n, greedy, inp, next.(pos := at.pos + 1));
      assert at.rest == [false] + at.rest[1..];
      BeforeCons(false, BestLoop(n, inp.s, at.pos + 1, greedy), at.rest[1..]);
    } else if at.rest[0] == greedy && !(greedy && Row(n, inp.s, at.pos) > 0) {
      assert at.rest == [greedy];
    }
  }

  /** The preferred choices of `k` optional rounds. */
  function BestOptional(n: Node, s: seq<Byte>, i: nat, k: nat, greedy: bool): seq<bool>
    decreases k
  {
    if k == 0 then []
    else if greedy && Row(n, s, i) > 0 then [false] + BestOptional(n, s, i + 1, k - 1, greedy)
    else [greedy] + BestOptional(n, s, i, k - 1, greedy)
  }

  function Less(a: nat, b: nat): nat {
    if a < b then a else b
  }

  lemma {:induction false} BestOptionalDerives(n: Node, k: nat, greedy: bool, inp: Input, p: nat, caps: Caps)
    requires WellFormed(n) && OneByte(n)
    ensures var end := if greedy then p + Less(k, Row(n, inp.s, p)) else p;
            DeriveOptional(n, k, greedy, inp, Spot(p, caps, BestOptional(n, inp.s, p, k, greedy)))
            == Some(Spot(end, caps, []))
    decreases k
  {
    hide Derive;
    if k > 0 {
      var w := BestOptional(n, inp.s, p, k, greedy);
      if greedy && Row(n, inp.s, p) > 0 {
        assert w[1..] == BestOptional(n, inp.s, p + 1, k - 1, greedy);
        OneByteDerives(n, inp, Spot(p, caps, w[1..]));
        BestOptionalDerives(n, k - 1, greedy, inp, p + 1, caps);
      } else {
        assert w[1..] == BestOptional(n, inp.s, p, k - 1, greedy);
        BestOptionalDerives(n, k - 1, greedy, inp, p, caps);
      }
    }
  }

  lemma {:induction false} BestOptionalFirst(n: Node, k: nat, greedy: bool, inp: Input, at: Spot)
    requires WellFormed(n) && OneByte(n)
    requires var r := DeriveOptional(n, k, greedy, inp, at); r.Some? && r.value.rest == []
    ensures var best := BestOptional(n, inp.s, at.pos, k, greedy); at.rest == best || Before(best, at.rest)
    decreases k
  {
    hide Derive;
    if k > 0 {
      var next := at.(rest := at.rest[1..]);
      OneByteDerives(n, inp, next);
      assert at.rest == [at.rest[0]] + at.rest[1..];
      if greedy && Row(n, inp.s, at.pos) > 0 {
        if !at.rest[0] {
          BestOptionalFirst(n, k - 1, greedy, inp, next.(pos := at.pos + 1));
          BeforeCons(false, BestOptional(n, inp.s, at.pos + 1, k - 1, greedy), at.rest[1..]);
        }
      } else if at.rest[0] == greedy {
        BestOptionalFirst(n, k - 1, greedy, inp, next);
        BeforeCons(greedy, BestOptional(n, inp.s, at.pos, k - 1, greedy), at.rest[1..]);
      }
    }
  }

  /** The end of the first match of a repeated one-byte node: a greedy repeat takes the whole row up to its
      upper bound, a reluctant one only the lower bound. */
  lemma RepeatEnds(n: Node, lo: nat, hi: int, greedy: bool, inp: Input, r: Spot)
    requires WellFormed(Repeat(n, lo, hi, greedy)) && OneByte(n)
    requires FirstMatch(Alone(Repeat(n, lo, hi, greedy)), inp, r)
    ensures var row := Row(n, inp.s, inp.start);
            && lo <= row
            && r.pos == inp.start + if !greedy then lo else if hi < 0 then row else Less(hi, row)
  {
    hide DeriveTimes, DeriveLoop, DeriveOptional, Before, Row, BestLoop, BestOptional;
    var rep := Repeat(n, lo, hi, greedy);
    var w :| Derives(Alone(rep), inp, w, r) && NoneBefore(Alone(rep), inp, w);
    AloneDerives(rep, inp, w, r);
    TimesDerives(n, lo, inp, Spot(inp.start, NO_CAPS, w));
    var p := inp.start + lo;
    RowFrom(n, inp.s, inp.start, lo);
    var best, end := [], Spot(p, NO_CAPS, []);
    if hi < 0 {
      best := BestLoop(n, inp.s, p, greedy);
      BestLoopFirst(n, greedy, inp, Spot(p, NO_CAPS, w));
      BestLoopDerives(n, greedy, inp, p, NO_CAPS);
      end := DeriveLoop(n, greedy, inp, Spot(p, NO_CAPS, best)).value;
    } else {
      best := BestOptional(n, inp.s, p, hi - lo, greedy);
      BestOptionalFirst(n, hi - lo, greedy, inp, Spot(p, NO_CAPS, w));
      BestOptionalDerives(n, hi - lo, greedy, inp, p, NO_CAPS);
      end := DeriveOptional(n, hi - lo, greedy, inp, Spot(p, NO_CAPS, best)).value;
    }
    TimesDerives(n, lo, inp, Spot(inp.start, NO_CAPS, best));
    AloneDerives(rep, inp, best, end);
    assert Derives(Alone(rep), inp, best, end);
    assert w == best;
  }

  lemma {:induction false} RowFrom(n: Node, s: seq<Byte>, i: nat, k: nat)
    requires k <= Row(n, s, i)
    ensures Row(n, s, i) == k + Row(n, s, i + k)
    decreases k
  {
    if k > 0 { RowFrom(n, s, i + 1, k - 1); }
  }
}
