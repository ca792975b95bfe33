/**
 What the recursive descent of utils/compat/airy_regex_parse.c computes, and the grammar it
 reads: which texts spell which syntax trees.
 */
module RegexGrammar {
  import opened Options
  import opened RegexSyntax
  import opened RegexText

  /** The bytes that do not stand for themselves. */
  predicate Special(c: Byte) {
    c in [LPAREN, RPAREN, CARET, DOLLAR, DOT, LBRACKET, BACKSLASH, BAR, PLUS, STAR, QUESTION, LBRACE, RBRACE]
  }

  predicate IsQuantifier(c: Byte) {
    c == STAR || c == PLUS || c == QUESTION || c == LBRACE
  }

  /** Where a concatenation ends. */
  predicate AtStop(s: seq<Byte>, p: nat) {
    p == |s| || At(s, p, RPAREN) || At(s, p, BAR)
  }

  /** Where an alternation ends. */
  predicate AtEnd(s: seq<Byte>, p: nat) {
    p == |s| || At(s, p, RPAREN)
  }

  // ----- The parser as functions -----

  /**
   What parsing a list gives: an error, or a list with the next position and the number of
   groups opened so far. The empty list is the source's NULL, which also stands for text that was
   read and given up without an error; `lost` remembers that this happened somewhere.
   */
  datatype Outcome = Error | Gave(list: List, p: nat, groups: nat, lost: bool)

  /** The same for one node; Nothing is NULL without an error. */
  datatype Piece = Wrong | Nothing(p: nat, groups: nat) | Made(node: Node, p: nat, groups: nat, lost: bool)

  function Atom(s: seq<Byte>, p: nat, g: nat): (r: Piece)
    requires p < |s| && g < MAX_GROUPS
    ensures !r.Wrong? ==> p < r.p <= |s| && g <= r.groups < MAX_GROUPS
    ensures r.Made? ==> IsAtom(r.node) && WellFormed(r.node)
    decreases |s| - p, 0
  {
    var c := s[p];
    if c == LPAREN then
      if g >= MAX_GROUPS - 1 then Wrong
      else
        match Alternation(s, p + 1, g + 1)
        case Error => Wrong
        case Gave(body, q, h, lost) =>
          if body.Nil? then Nothing(q, h)
          else if At(s, q, RPAREN) then Made(Group(g + 1, body), q + 1, h, lost)
          else Wrong
    else if c == CARET || c == DOLLAR then Made(Anchor(c), p + 1, g, false)
    else if c == DOT then Made(Any, p + 1, g, false)
    else if c == LBRACKET then
      match ClassAt(s, p + 1)
      case None => Wrong
      case Some((t, q)) => Made(Class(t), q, g, false)
    else if c == BACKSLASH then
      if p + 1 < |s| then Made(Char(s[p + 1]), p + 2, g, false) else Wrong
    else if Special(c) then Wrong
    else Made(Char(c), p + 1, g, false)
  }

  datatype Quantifier = Quantifier(lo: nat, hi: int, greedy: bool, end: nat)

  /** The quantifier at `p`, which holds one of `* + ? {`. */
  function QuantifierAt(s: seq<Byte>, p: nat): (r: Option<Quantifier>)
    requires p < |s| && IsQuantifier(s[p])
    ensures r.Some? ==> p < r.value.end <= |s| && BoundsOk(r.value.lo, r.value.hi)
  {
    var bounds: Option<Bounds> :=
      if s[p] == STAR then Some(Bounds(0, -1, p + 1))
      else if s[p] == PLUS then Some(Bounds(1, -1, p + 1))
      else if s[p] == QUESTION then Some(Bounds(0, 1, p + 1))
      else BoundsAt(s, p + 1);
    match bounds
    case None => None
    case Some(Bounds(lo, hi, end)) =>
      if !BoundsOk(lo, hi) then None
      else if At(s, end, QUESTION) then Some(Quantifier(lo, hi, false, end + 1))
      else Some(Quantifier(lo, hi, true, end))
  }

  function Repeated(s: seq<Byte>, r: Piece): (q: Piece)
    requires r.Made? ==> r.p <= |s| && IsAtom(r.node) && WellFormed(r.node)
    ensures !q.Wrong? ==> !r.Wrong? && r.p <= q.p && q.groups == r.groups && (r.Made? ==> q.p <= |s|)
    ensures q.Made? ==> r.Made? && WellFormed(q.node)
    ensures r.Nothing? ==> q == r
  {
    if !r.Made? || r.p == |s| || !IsQuantifier(s[r.p]) then r
    else
      match QuantifierAt(s, r.p)
      case None => Wrong
      case Some(Quantifier(lo, hi, greedy, end)) => Made(Repeat(r.node, lo, hi, greedy), end, r.groups, r.lost)
  }

  function Concat(s: seq<Byte>, p: nat, g: nat): (r: Outcome)
    requires p <= |s| && g < MAX_GROUPS
    ensures r.Gave? ==> p <= r.p <= |s| && g <= r.groups < MAX_GROUPS && WellFormedList(r.list)
    ensures r.Gave? && !(r.list.Nil? && r.lost) ==> AtStop(s, r.p)
    decreases |s| - p, 2
  {
    if AtStop(s, p) then Gave(Nil, p, g, false)
    else
      match Repeated(s, Atom(s, p, g))
      case Wrong => Error
      case Nothing(q, h) => Gave(Nil, q, h, true)
      case Made(n, q, h, lost) =>
        match Concat(s, q, h)
        case Error => Error
        case Gave(l, q', h', lost') =>
          if l.Nil? && lost' then Gave(Nil, q', h', true)
          else Gave(Cons(n, l), q', h', lost || lost')
  }

  /** Further branches after the ones in `left`. */
  function Branches(s: seq<Byte>, left: List, p: nat, g: nat, lost: bool): (r: Outcome)
    requires p <= |s| && g < MAX_GROUPS && WellFormedList(left)
    ensures r.Gave? ==> p <= r.p <= |s| && g <= r.groups < MAX_GROUPS && WellFormedList(r.list)
    ensures r.Gave? && lost ==> r.lost
    decreases |s| - p, 3
  {
    if !At(s, p, BAR) then Gave(left, p, g, lost)
    else
      match Concat(s, p + 1, g)
      case Error => Error
      case Gave(right, q, h, lost') =>
        if right.Nil? then Gave(Nil, q, h, true)
        else
          assert WellFormed(Node.Alt(left, right));
          Branches(s, Cons(Node.Alt(left, right), Nil), q, h, lost || lost')
  }

  function Alternation(s: seq<Byte>, p: nat, g: nat): (r: Outcome)
    requires p <= |s| && g < MAX_GROUPS
    ensures r.Gave? ==> p <= r.p <= |s| && g <= r.groups < MAX_GROUPS && WellFormedList(r.list)
    decreases |s| - p, 4
  {
    match Concat(s, p, g)
    case Error => Error
    case Gave(left, q, h, lost) => Branches(s, left, q, h, lost)
  }

  // ----- The grammar -----

  ghost predicate SpellsBounds(lo: nat, hi: int, s: seq<Byte>, p: nat, q: nat) {
    && p < q <= |s| && BoundsOk(lo, hi)
    && (if s[p] == STAR then lo == 0 && hi == -1 && q == p + 1
        else if s[p] == PLUS then lo == 1 && hi == -1 && q == p + 1
        else if s[p] == QUESTION then lo == 0 && hi == 1 && q == p + 1
        else s[p] == LBRACE && SpellsInterval(lo, hi, s, p + 1, q))
  }

  /** `n}`, `n,}` or `n,m}` */
  ghost predicate SpellsInterval(lo: nat, hi: int, s: seq<Byte>, p: nat, q: nat) {
    exists d: nat :: SpellsNumber(lo, s, p, d) && SpellsUpper(lo, hi, s, d, q)
  }

  /** What follows the lower bound: nothing, a comma, or a comma and the upper bound; and the brace. */
  ghost predicate SpellsUpper(lo: nat, hi: int, s: seq<Byte>, d: nat, q: nat) {
    && d < q && At(s, q - 1, RBRACE)
    && if d == q - 1 then hi == lo
       else if d + 2 == q then s[d] == COMMA && hi == -1
       else s[d] == COMMA && hi >= 0 && SpellsNumber(hi, s, d + 1, q - 1)
  }

  /** A trailing question mark makes the repeat reluctant. */
  ghost predicate SpellsQuantifier(lo: nat, hi: int, greedy: bool, s: seq<Byte>, p: nat, q: nat) {
    if greedy then SpellsBounds(lo, hi, s, p, q)
    else q > 0 && At(s, q - 1, QUESTION) && SpellsBounds(lo, hi, s, p, q - 1)
  }

  /** The text from `p` up to `q` spells the atom; its groups are numbered from `g + 1` to `h`. */
  ghost predicate SpellsAtom(n: Node, s: seq<Byte>, p: nat, q: nat, g: nat, h: nat)
    decreases n, 0
  {
    && p < q <= |s| && g <= h
    && match n
       case Char(c) =>
         g == h && if q == p + 1 then s[p] == c && !Special(c) else q == p + 2 && s[p] == BACKSLASH && s[p + 1] == c
       case Any => g == h && q == p + 1 && s[p] == DOT
       case Anchor(c) => g == h && q == p + 1 && s[p] == c && (c == CARET || c == DOLLAR)
       case Class(t) => g == h && s[p] == LBRACKET && SpellsClass(t, s, p + 1, q)
       case Group(gid, body) =>
         && s[p] == LPAREN && s[q - 1] == RPAREN && gid == g + 1 && gid < MAX_GROUPS
         && body.Cons? && SpellsAlt(body, s, p + 1, q - 1, g + 1, h)
       case _ => false
  }

  ghost predicate SpellsPiece(n: Node, s: seq<Byte>, p: nat, q: nat, g: nat, h: nat)
    decreases n, 1
  {
    if n.Repeat? then
      exists m: nat :: SpellsAtom(n.child, s, p, m, g, h) && SpellsQuantifier(n.lo, n.hi, n.greedy, s, m, q)
    else SpellsAtom(n, s, p, q, g, h)
  }

  ghost predicate SpellsConcat(l: List, s: seq<Byte>, p: nat, q: nat, g: nat, h: nat)
    decreases l, 0
  {
    match l
    case Nil => p == q <= |s| && g == h
    case Cons(n, t) => exists m: nat, k: nat :: SpellsPiece(n, s, p, m, g, k) && SpellsConcat(t, s, m, q, k, h)
  }

  /** Branches associate to the left; only the first may be empty. */
  ghost predicate SpellsAlt(l: List, s: seq<Byte>, p: nat, q: nat, g: nat, h: nat)
    decreases l, 1
  {
    if l.Cons? && l.head.Alt? then
      && l.tail.Nil? && l.head.right.Cons?
      && exists m: nat, k: nat ::
           && SpellsAlt(l.head.left, s, p, m, g, k) && At(s, m, BAR)
           && SpellsConcat(l.head.right, s, m + 1, q, k, h)
    else SpellsConcat(l, s, p, q, g, h)
  }

  // ----- Quantifiers -----

  lemma BoundsAtSpells(s: seq<Byte>, p: nat)
    requires p <= |s| && BoundsAt(s, p).Some?
    ensures SpellsInterval(BoundsAt(s, p).value.lo, BoundsAt(s, p).value.hi, s, p, BoundsAt(s, p).value.end)
  {
    hide Number, SpellsNumber;
    var d := DigitsEnd(s, p);
    var r := BoundsAt(s, p).value;
    NumberIffSpelled(r.lo, s, p, d);
    if At(s, d, COMMA) && r.hi >= 0 {
      NumberIffSpelled(r.hi, s, d + 1, r.end - 1);
    }
    assert SpellsUpper(r.lo, r.hi, s, d, r.end);
  }

  lemma SpellsBoundsAt(lo: nat, hi: int, s: seq<Byte>, p: nat, q: nat)
    requires p <= |s| && q <= |s| && SpellsInterval(lo, hi, s, p, q)
    ensures BoundsAt(s, p) == Some(Bounds(lo, hi, q))
  {
    hide Number, SpellsNumber;
    var d: nat :| SpellsNumber(lo, s, p, d) && SpellsUpper(lo, hi, s, d, q);
    NumberIffSpelled(lo, s, p, d);
    DigitsEndIs(s, p, d);
    if d < q - 1 {
      if d + 2 < q {
        NumberIffSpelled(hi, s, d + 1, q - 1);
      }
      DigitsEndIs(s, d + 1, q - 1);
    }
  }

  lemma QuantifierSound(s: seq<Byte>, p: nat)
    requires p < |s| && IsQuantifier(s[p]) && QuantifierAt(s, p).Some?
    ensures var r := QuantifierAt(s, p).value; SpellsQuantifier(r.lo, r.hi, r.greedy, s, p, r.end)
  {
    hide BoundsAt, SpellsInterval;
    if s[p] == LBRACE {
      BoundsAtSpells(s, p + 1);
    }
  }

  /** The text behind a greedy quantifier must not look like the reluctant mark. */
  lemma QuantifierComplete(lo: nat, hi: int, greedy: bool, s: seq<Byte>, p: nat, q: nat)
    requires SpellsQuantifier(lo, hi, greedy, s, p, q) && q <= |s| && !At(s, q, QUESTION)
    ensures p < |s| && IsQuantifier(s[p]) && QuantifierAt(s, p) == Some(Quantifier(lo, hi, greedy, q))
  {
    hide BoundsAt, SpellsInterval;
    if s[p] == LBRACE {
      SpellsBoundsAt(lo, hi, s, p + 1, if greedy then q else q - 1);
    }
  }

  // ----- What is parsed is what is spelled -----

  lemma {:induction false} AtomSound(s: seq<Byte>, p: nat, g: nat)
    requires p < |s| && g < MAX_GROUPS && Atom(s, p, g).Made? && !Atom(s, p, g).lost
    ensures var r := Atom(s, p, g); SpellsAtom(r.node, s, p, r.p, g, r.groups)
    decreases |s| - p, 0
  {
    hide SpellsClass, ClassAt, SpellsAlt, SpellsConcat;
    if s[p] == LPAREN {
      AltSound(s, p + 1, g + 1);
    } else if s[p] == LBRACKET {
      ClassAtSpells(s, p + 1);
    }
  }

  lemma {:induction false} ConcatSound(s: seq<Byte>, p: nat, g: nat)
    requires p <= |s| && g < MAX_GROUPS && Concat(s, p, g).Gave? && !Concat(s, p, g).lost
    ensures var r := Concat(s, p, g); SpellsConcat(r.list, s, p, r.p, g, r.groups) && NoBranch(r.list)
    decreases |s| - p, 2
  {
    hide SpellsAtom, SpellsQuantifier, QuantifierAt, Atom;
    if !AtStop(s, p) {
      var a := Atom(s, p, g);
      var r := Repeated(s, a);
      AtomSound(s, p, g);
      if r.node.Repeat? {
        QuantifierSound(s, a.p);
      }
      assert SpellsPiece(r.node, s, p, r.p, g, r.groups);
      ConcatSound(s, r.p, r.groups);
    }
  }

  /** Nodes of a concatenation are pieces. */
  predicate NoBranch(l: List) {
    l.Cons? ==> !l.head.Alt? && NoBranch(l.tail)
  }

  lemma {:induction false} BranchesSound(s: seq<Byte>, left: List, p: nat, g: nat, p0: nat, g0: nat)
    requires p <= |s| && g < MAX_GROUPS && WellFormedList(left) && SpellsAlt(left, s, p0, p, g0, g) && AtStop(s, p)
    requires Branches(s, left, p, g, false).Gave? && !Branches(s, left, p, g, false).lost
    ensures var r := Branches(s, left, p, g, false); SpellsAlt(r.list, s, p0, r.p, g0, r.groups) && AtEnd(s, r.p)
    decreases |s| - p, 3
  {
    hide Concat, SpellsConcat;
    if At(s, p, BAR) {
      var c := Concat(s, p + 1, g);
      ConcatSound(s, p + 1, g);
      var next := Cons(Node.Alt(left, c.list), Nil);
      assert SpellsAlt(next, s, p0, c.p, g0, c.groups);
      BranchesSound(s, next, c.p, c.groups, p0, g0);
    }
  }

  /** If nothing was given up on the way, the text read spells the result and stops at the end or a
      closing parenthesis. */
  lemma {:induction false} AltSound(s: seq<Byte>, p: nat, g: nat)
    requires p <= |s| && g < MAX_GROUPS && Alternation(s, p, g).Gave? && !Alternation(s, p, g).lost
    ensures var r := Alternation(s, p, g); SpellsAlt(r.list, s, p, r.p, g, r.groups) && AtEnd(s, r.p)
    decreases |s| - p, 4
  {
    hide Concat, SpellsConcat, Branches;
    var c := Concat(s, p, g);
    LostStays(s, c.list, c.p, c.groups, c.lost);
    ConcatSound(s, p, g);
    assert SpellsAlt(c.list, s, p, c.p, g, c.groups);
    BranchesSound(s, c.list, c.p, c.groups, p, g);
  }

  lemma LostStays(s: seq<Byte>, left: List, p: nat, g: nat, lost: bool)
    requires p <= |s| && g < MAX_GROUPS && WellFormedList(left)
    ensures var r := Branches(s, left, p, g, lost); r.Gave? && lost ==> r.lost
  {
  }

  // ----- What is spelled is parsed -----

  lemma {:induction false} AtomComplete(n: Node, s: seq<Byte>, p: nat, q: nat, g: nat, h: nat)
    requires g < MAX_GROUPS && SpellsAtom(n, s, p, q, g, h)
    ensures Atom(s, p, g) == Made(n, q, h, false)
    decreases n, 0
  {
    hide SpellsClass, ClassAt, SpellsAlt, Alternation;
    match n {
      case Class(t) => SpellsClassAt(t, s, p + 1, q);
      case Group(_, body) => AltComplete(body, s, p + 1, q - 1, g + 1, h);
      case _ =>
    }
  }

  /** A piece starts with neither a stop nor a quantifier. */
  lemma PieceStart(n: Node, s: seq<Byte>, p: nat, q: nat, g: nat, h: nat)
    requires SpellsPiece(n, s, p, q, g, h)
    ensures p < |s| && !AtStop(s, p) && !IsQuantifier(s[p])
  {
    hide SpellsClass, SpellsAlt, SpellsQuantifier;
    if n.Repeat? {
      var m: nat :| SpellsAtom(n.child, s, p, m, g, h) && SpellsQuantifier(n.lo, n.hi, n.greedy, s, m, q);
    }
  }

  lemma {:induction false} PieceComplete(n: Node, s: seq<Byte>, p: nat, q: nat, g: nat, h: nat)
    requires g < MAX_GROUPS && SpellsPiece(n, s, p, q, g, h) && (q < |s| ==> !IsQuantifier(s[q]))
    ensures p < |s| && Repeated(s, Atom(s, p, g)) == Made(n, q, h, false)
    decreases n, 1
  {
    hide Atom, SpellsAtom, QuantifierAt;
    if n.Repeat? {
      var m: nat :| SpellsAtom(n.child, s, p, m, g, h) && SpellsQuantifier(n.lo, n.hi, n.greedy, s, m, q);
      AtomSpan(n.child, s, p, m, g, h);
      AtomComplete(n.child, s, p, m, g, h);
      QuantifierComplete(n.lo, n.hi, n.greedy, s, m, q);
    } else {
      AtomSpan(n, s, p, q, g, h);
      AtomComplete(n, s, p, q, g, h);
    }
  }

  lemma AtomSpan(n: Node, s: seq<Byte>, p: nat, q: nat, g: nat, h: nat)
    requires SpellsAtom(n, s, p, q, g, h)
    ensures p < q <= |s| && g <= h && IsAtom(n)
  {
  }

  lemma {:induction false} ConcatStart(l: List, s: seq<Byte>, p: nat, q: nat, g: nat, h: nat)
    requires l.Cons? && SpellsConcat(l, s, p, q, g, h)
    ensures p < |s| && !AtStop(s, p) && !IsQuantifier(s[p])
  {
    hide SpellsPiece;
    var m: nat, k: nat :| SpellsPiece(l.head, s, p, m, g, k) && SpellsConcat(l.tail, s, m, q, k, h);
    PieceStart(l.head, s, p, m, g, k);
  }

  lemma {:induction false} ConcatComplete(l: List, s: seq<Byte>, p: nat, q: nat, g: nat, h: nat)
    requires p <= |s| && g < MAX_GROUPS && SpellsConcat(l, s, p, q, g, h) && AtStop(s, q)
    ensures Concat(s, p, g) == Gave(l, q, h, false)
    decreases l, 0
  {
    hide Atom, Repeated, SpellsPiece;
    if l.Cons? {
      var m: nat, k: nat :| SpellsPiece(l.head, s, p, m, g, k) && SpellsConcat(l.tail, s, m, q, k, h);
      PieceStart(l.head, s, p, m, g, k);
      if l.tail.Cons? {
        ConcatStart(l.tail, s, m, q, k, h);
      }
      PieceComplete(l.head, s, p, m, g, k);
      var r := Repeated(s, Atom(s, p, g));
      assert r.p == m && r.groups == k;
      ConcatComplete(l.tail, s, m, q, k, h);
    }
  }

  /** After reading the branches in `l` the parser stands at `q` with them in hand. */
  lemma {:induction false} AltReaches(l: List, s: seq<Byte>, p: nat, q: nat, g: nat, h: nat)
    requires p <= |s| && g < MAX_GROUPS && SpellsAlt(l, s, p, q, g, h) && AtStop(s, q)
    ensures q <= |s| && h < MAX_GROUPS && WellFormedList(l) && Alternation(s, p, g) == Branches(s, l, q, h, false)
    decreases l, 1
  {
    hide Concat, SpellsConcat;
    if l.Cons? && l.head.Alt? {
      var a, b := l.head.left, l.head.right;
      var m: nat, k: nat :| SpellsAlt(a, s, p, m, g, k) && At(s, m, BAR) && SpellsConcat(b, s, m + 1, q, k, h);
      AltReaches(a, s, p, m, g, k);
      ConcatComplete(b, s, m + 1, q, k, h);
    } else {
      ConcatComplete(l, s, p, q, g, h);
    }
  }

  lemma {:induction false} AltComplete(l: List, s: seq<Byte>, p: nat, q: nat, g: nat, h: nat)
    requires p <= |s| && g < MAX_GROUPS && SpellsAlt(l, s, p, q, g, h) && AtEnd(s, q)
    ensures Alternation(s, p, g) == Gave(l, q, h, false)
    decreases l, 2
  {
    hide Alternation, SpellsAlt, Concat;
    AltReaches(l, s, p, q, g, h);
  }

  /** The parser reads a syntax tree from the front of a pattern, giving up no text, exactly when
      that front spells the tree and ends with the pattern or before a closing parenthesis. */
  lemma ParseIffSpelled(s: seq<Byte>, l: List, q: nat, h: nat)
    ensures Alternation(s, 0, 0) == Gave(l, q, h, false) <==> SpellsAlt(l, s, 0, q, 0, h) && AtEnd(s, q)
  {
    hide Alternation, SpellsAlt;
    if Alternation(s, 0, 0) == Gave(l, q, h, false) {
      AltSound(s, 0, 0);
    }
    if SpellsAlt(l, s, 0, q, 0, h) && AtEnd(s, q) {
      AltComplete(l, s, 0, q, 0, h);
    }
  }

  // ----- Text that is given up -----

  /** `(x(||y)` */
  const BARS: seq<Byte> := [40, 120, 40, 124, 124, 121, 41]

  /** The inner group gives up at the second bar, without an error. */
  lemma InnerGivesUp()
    ensures Atom(BARS, 2, 1) == Nothing(4, 2)
  {
    assert Concat(BARS, 4, 2) == Gave(Nil, 4, 2, false);
    assert Concat(BARS, 3, 2) == Gave(Nil, 3, 2, false);
    assert Alternation(BARS, 3, 2) == Gave(Nil, 4, 2, true);
  }

  /** So the first branch of the outer group is empty, although it began with `x`. */
  lemma FirstBranch()
    ensures Concat(BARS, 1, 1) == Gave(Nil, 4, 2, true)
  {
    hide Atom, QuantifierAt;
    InnerGivesUp();
    Ordinary(BARS, 1, 1);
    assert Concat(BARS, 2, 1) == Gave(Nil, 4, 2, true);
  }

  lemma Ordinary(s: seq<Byte>, p: nat, g: nat)
    requires p < |s| && g < MAX_GROUPS && !Special(s[p])
    ensures Atom(s, p, g) == Made(Char(s[p]), p + 1, g, false)
  {
  }

  /** The outer group takes what follows that bar as its second branch. */
  lemma OuterGoesOn()
    ensures Alternation(BARS, 1, 1) == Gave(Cons(Node.Alt(Nil, Cons(Char(121), Nil)), Nil), 6, 2, true)
  {
    hide Concat, Atom;
    FirstBranch();
    SecondBranch();
    var left := Cons(Node.Alt(Nil, Cons(Char(121), Nil)), Nil);
    assert Branches(BARS, left, 6, 2, true) == Gave(left, 6, 2, true);
  }

  lemma SecondBranch()
    ensures Concat(BARS, 5, 2) == Gave(Cons(Char(121), Nil), 6, 2, false)
  {
    hide Atom, QuantifierAt;
    Ordinary(BARS, 5, 2);
    assert Concat(BARS, 6, 2) == Gave(Nil, 6, 2, false);
  }

  lemma LastParenthesis(group: Node)
    requires Concat(BARS, 0, 0) == Gave(Cons(group, Nil), 7, 2, true)
    ensures Alternation(BARS, 0, 0) == Gave(Cons(group, Nil), 7, 2, true)
  {
    hide Concat;
  }

  /** Two adjacent bars can hide text: `(x(||y)` is read as `(|y)`, and the second group number is spent. */
  lemma BarsHideText()
    ensures Alternation(BARS, 0, 0)
         == Gave(Cons(Group(1, Cons(Node.Alt(Nil, Cons(Char(121), Nil)), Nil)), Nil), 7, 2, true)
  {
    OuterGoesOn();
    hide Alternation;
    var group := Group(1, Cons(Node.Alt(Nil, Cons(Char(121), Nil)), Nil));
    assert Atom(BARS, 0, 0) == Made(group, 7, 2, true);
    hide Atom;
    assert Concat(BARS, 7, 2) == Gave(Nil, 7, 2, false);
    assert Concat(BARS, 0, 0) == Gave(Cons(group, Nil), 7, 2, true);
    LastParenthesis(group);
  }

  /** A closing parenthesis that closes nothing ends the pattern: `a)b` is read as `a`. */
  lemma ParenthesisEndsPattern()
    ensures Alternation([97, 41, 98], 0, 0) == Gave(Cons(Char(97), Nil), 1, 0, false)
  {
    hide Atom, QuantifierAt;
    var s: seq<Byte> := [97, 41, 98];
    assert Concat(s, 1, 0) == Gave(Nil, 1, 0, false);
    Ordinary(s, 0, 0);
    assert Concat(s, 0, 0) == Gave(Cons(Char(97), Nil), 1, 0, false);
  }
}
