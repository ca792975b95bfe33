/**
 When the ERE parser (utils/compat/airy_regex_parse.c) gives up text without an error: exactly
 when the part of the pattern it read leaves a parenthesis open. The text alone decides it: two
 tokens stand side by side with a group or a branch missing between them.
 */
module RegexBalance {
  import opened Options
  import opened RegexSyntax
  import opened RegexText
  import opened RegexGrammar

  /** Where the next token starts: an escape is two bytes, a bracket class is one token, everything
      else a single byte. */
  function Next(s: seq<Byte>, p: nat): (q: nat)
    requires p < |s|
    ensures p < q <= |s|
  {
    if s[p] == BACKSLASH && p + 1 < |s| then p + 2
    else if s[p] == LBRACKET && ClassAt(s, p + 1).Some? then ClassAt(s, p + 1).value.1
    else p + 1
  }

  /** The tokens from `p` on lead to `q`. */
  predicate Aligned(s: seq<Byte>, p: nat, q: nat)
    requires q <= |s|
    decreases q - p
  {
    p == q || (p < q && Aligned(s, Next(s, p), q))
  }

  /** How many tokens from `p` up to `q` are the byte `c`. */
  function Count(s: seq<Byte>, p: nat, q: nat, c: Byte): nat
    requires q <= |s|
    decreases q - p
  {
    if p >= q then 0 else (if s[p] == c then 1 else 0) + Count(s, Next(s, p), q, c)
  }

  function Opens(s: seq<Byte>, p: nat, q: nat): nat
    requires q <= |s|
  {
    Count(s, p, q, LPAREN)
  }

  function Closes(s: seq<Byte>, p: nat, q: nat): nat
    requires q <= |s|
  {
    Count(s, p, q, RPAREN)
  }

  lemma {:induction false} CountJoin(s: seq<Byte>, p: nat, m: nat, q: nat, c: Byte)
    requires p <= m <= q <= |s| && Aligned(s, p, m) && Aligned(s, m, q)
    ensures Aligned(s, p, q) && Count(s, p, q, c) == Count(s, p, m, c) + Count(s, m, q, c)
    decreases m - p
  {
    if p < m {
      hide Next;
      AlignedOn(s, p, m);
      CountJoin(s, Next(s, p), m, q, c);
    }
  }

  lemma AlignedOn(s: seq<Byte>, p: nat, q: nat)
    requires p < q <= |s| && Aligned(s, p, q)
    ensures p < Next(s, p) <= q && Aligned(s, Next(s, p), q)
  {
  }

  /** Where a pattern ends that has `depth` groups open at `p`: at the first closing parenthesis that
      closes nothing, or with the text. */
  function PatternEnd(s: seq<Byte>, p: nat, depth: nat): (e: nat)
    requires p <= |s|
    ensures p <= e && AtEnd(s, e)
    decreases |s| - p
  {
    if p == |s| then p
    else if s[p] == LPAREN then PatternEnd(s, Next(s, p), depth + 1)
    else if s[p] != RPAREN then PatternEnd(s, Next(s, p), depth)
    else if depth == 0 then p
    else PatternEnd(s, Next(s, p), depth - 1)
  }

  /** A parenthesis opened in front of nothing, or a bar in front of no branch. */
  predicate IsGap(s: seq<Byte>, p: nat) {
    (At(s, p, LPAREN) && AtEnd(s, p + 1)) || (At(s, p, BAR) && AtStop(s, p + 1))
  }

  /** One of the tokens from `p` up to `q` is such a gap. */
  predicate HasGap(s: seq<Byte>, p: nat, q: nat)
    requires q <= |s|
    decreases q - p
  {
    p < q && (IsGap(s, p) || HasGap(s, Next(s, p), q))
  }

  lemma {:induction false} GapJoin(s: seq<Byte>, p: nat, m: nat, q: nat)
    requires p <= m <= q <= |s| && Aligned(s, p, m)
    ensures HasGap(s, p, q) <==> HasGap(s, p, m) || HasGap(s, m, q)
    decreases m - p
  {
    if p < m {
      hide Next, IsGap;
      AlignedOn(s, p, m);
      GapJoin(s, Next(s, p), m, q);
    }
  }

  /** Reading from `p` to `q` opened `h - g` groups, left `open` of them open, and passed no closing
      parenthesis that belongs to a group around it. */
  ghost predicate Read(s: seq<Byte>, p: nat, q: nat, g: nat, h: nat, open: nat) {
    && p <= q <= |s| && Aligned(s, p, q)
    && g + Opens(s, p, q) == h && Closes(s, p, q) + open == Opens(s, p, q)
    && forall d: nat :: PatternEnd(s, p, d) == PatternEnd(s, q, d + open)
  }

  lemma ReadNothing(s: seq<Byte>, p: nat, g: nat)
    requires p <= |s|
    ensures Read(s, p, p, g, g, 0) && !HasGap(s, p, p)
  {
    hide PatternEnd;
  }

  lemma ReadJoin(s: seq<Byte>, p: nat, m: nat, q: nat, g: nat, k: nat, h: nat, a: nat, b: nat)
    requires Read(s, p, m, g, k, a) && Read(s, m, q, k, h, b)
    ensures Read(s, p, q, g, h, a + b)
    ensures HasGap(s, p, q) <==> HasGap(s, p, m) || HasGap(s, m, q)
  {
    hide Count, Aligned, PatternEnd, HasGap;
    CountJoin(s, p, m, q, LPAREN);
    CountJoin(s, p, m, q, RPAREN);
    GapJoin(s, p, m, q);
    forall d: nat ensures PatternEnd(s, p, d) == PatternEnd(s, q, d + (a + b)) {
      assert PatternEnd(s, p, d) == PatternEnd(s, m, d + a);
      assert PatternEnd(s, m, d + a) == PatternEnd(s, q, d + a + b);
    }
  }

  /** One token that is no parenthesis. */
  lemma ReadToken(s: seq<Byte>, p: nat, g: nat)
    requires p < |s| && s[p] != LPAREN && s[p] != RPAREN
    ensures Read(s, p, Next(s, p), g, g, 0) && (HasGap(s, p, Next(s, p)) <==> IsGap(s, p))
  {
    var q := Next(s, p);
    hide Next;
    assert Aligned(s, q, q) && Count(s, q, q, LPAREN) == 0 && Count(s, q, q, RPAREN) == 0;
  }

  lemma ReadOpen(s: seq<Byte>, p: nat, g: nat)
    requires At(s, p, LPAREN)
    ensures Read(s, p, p + 1, g, g + 1, 1) && (HasGap(s, p, p + 1) <==> IsGap(s, p))
  {
    assert Next(s, p) == p + 1;
    hide Next;
    assert Aligned(s, p + 1, p + 1) && Count(s, p + 1, p + 1, LPAREN) == 0 && Count(s, p + 1, p + 1, RPAREN) == 0;
  }

  /** A closing parenthesis after what the group read. */
  lemma ReadClose(s: seq<Byte>, p: nat, q: nat, g: nat, h: nat, open: nat)
    requires Read(s, p, q, g, h, open + 1) && At(s, q, RPAREN)
    ensures Read(s, p, q + 1, g, h, open) && (HasGap(s, p, q + 1) <==> HasGap(s, p, q))
  {
    CloseToken(s, q);
    hide Count, Aligned, PatternEnd, HasGap;
    CountJoin(s, p, q, q + 1, LPAREN);
    CountJoin(s, p, q, q + 1, RPAREN);
    GapJoin(s, p, q, q + 1);
    forall d: nat ensures PatternEnd(s, p, d) == PatternEnd(s, q + 1, d + open) {
      assert PatternEnd(s, p, d) == PatternEnd(s, q, d + (open + 1));
      CloseEnd(s, q, d + open);
    }
  }

  lemma CloseToken(s: seq<Byte>, q: nat)
    requires At(s, q, RPAREN)
    ensures Aligned(s, q, q + 1) && Count(s, q, q + 1, LPAREN) == 0 && Count(s, q, q + 1, RPAREN) == 1
    ensures !HasGap(s, q, q + 1)
  {
    assert Next(s, q) == q + 1;
    hide Next;
    assert Aligned(s, q + 1, q + 1) && Count(s, q + 1, q + 1, LPAREN) == 0 && Count(s, q + 1, q + 1, RPAREN) == 0;
  }

  lemma CloseEnd(s: seq<Byte>, q: nat, depth: nat)
    requires At(s, q, RPAREN)
    ensures PatternEnd(s, q, depth + 1) == PatternEnd(s, q + 1, depth)
  {
    assert Next(s, q) == q + 1;
    hide Next;
  }

  /** Bytes that are tokens of their own, and neither parentheses nor bars. */
  predicate IsPlain(c: Byte) {
    c != BACKSLASH && c != LBRACKET && c != LPAREN && c != RPAREN && c != BAR
  }

  lemma {:induction false} ReadPlain(s: seq<Byte>, p: nat, q: nat, g: nat)
    requires p <= q <= |s| && forall k :: p <= k < q ==> IsPlain(s[k])
    ensures Read(s, p, q, g, g, 0) && !HasGap(s, p, q)
    decreases q - p
  {
    if p == q {
      ReadNothing(s, p, g);
    } else {
      hide Read, HasGap;
      ReadPlain(s, p + 1, q, g);
      ReadToken(s, p, g);
      ReadJoin(s, p, p + 1, q, g, g, g, 0, 0);
    }
  }

  lemma ReadQuantifier(s: seq<Byte>, p: nat, g: nat)
    requires p < |s| && IsQuantifier(s[p]) && QuantifierAt(s, p).Some?
    ensures var q := QuantifierAt(s, p).value.end; Read(s, p, q, g, g, 0) && !HasGap(s, p, q)
  {
    hide Read, HasGap;
    var q := QuantifierAt(s, p).value.end;
    forall k | p <= k < q ensures IsPlain(s[k]) {
      if s[p] == LBRACE && p < k < BoundsAt(s, p + 1).value.end {
        BoundsPlain(s, p + 1, k);
      }
    }
    ReadPlain(s, p, q, g);
  }

  lemma BoundsPlain(s: seq<Byte>, p: nat, k: nat)
    requires p <= k && p <= |s| && BoundsAt(s, p).Some? && k < BoundsAt(s, p).value.end
    ensures IsPlain(s[k])
  {
    hide Number;
    var d := DigitsEnd(s, p);
    assert p <= k < d ==> IsDigit(s[k]);
    if d < k && At(s, d, COMMA) {
      var e := DigitsEnd(s, d + 1);
      assert d + 1 <= k < e ==> IsDigit(s[k]);
    }
  }

  // ---------------------------------------------------------------------------------
  // Every routine of the parser keeps the balance

  /** Nothing was given up exactly when no group is left open, and exactly when no gap was met. */
  ghost predicate Settled(s: seq<Byte>, p: nat, g: nat, q: nat, h: nat, lost: bool) {
    && q <= |s|
    && exists open: nat :: Read(s, p, q, g, h, open) && (lost <==> open > 0) && (lost <==> HasGap(s, p, q))
  }

  ghost predicate BalancePiece(s: seq<Byte>, p: nat, g: nat, r: Piece) {
    && (r.Nothing? ==> Settled(s, p, g, r.p, r.groups, true))
    && (r.Made? ==> Settled(s, p, g, r.p, r.groups, r.lost))
  }

  ghost predicate ConcatBalance(s: seq<Byte>, p: nat, g: nat, r: Outcome) {
    r.Gave? ==> Settled(s, p, g, r.p, r.groups, r.lost)
  }

  /** An alternation may also give up with every group closed, if it has no list to return. */
  ghost predicate Balance(s: seq<Byte>, p: nat, g: nat, r: Outcome) {
    r.Gave? ==>
      exists open: nat :: && Read(s, p, r.p, g, r.groups, open) && (r.lost <==> HasGap(s, p, r.p))
                          && (r.list.Cons? || !r.lost ==> (r.lost <==> open > 0))
  }

  lemma SettledToken(s: seq<Byte>, p: nat, g: nat)
    requires p < |s| && s[p] != LPAREN && s[p] != RPAREN && s[p] != BAR
    ensures Settled(s, p, g, Next(s, p), g, false)
  {
    hide Read, HasGap;
    ReadToken(s, p, g);
  }

  lemma SettledJoin(s: seq<Byte>, p: nat, m: nat, q: nat, g: nat, k: nat, h: nat, lost: bool, lost': bool)
    requires Settled(s, p, g, m, k, lost) && Settled(s, m, k, q, h, lost')
    ensures Settled(s, p, g, q, h, lost || lost')
  {
    hide Read, HasGap;
    var a: nat :| Read(s, p, m, g, k, a) && (lost <==> a > 0) && (lost <==> HasGap(s, p, m));
    var b: nat :| Read(s, m, q, k, h, b) && (lost' <==> b > 0) && (lost' <==> HasGap(s, m, q));
    ReadJoin(s, p, m, q, g, k, h, a, b);
  }

  lemma {:induction false} AtomBalance(s: seq<Byte>, p: nat, g: nat)
    requires p < |s| && g < MAX_GROUPS && !AtStop(s, p)
    ensures BalancePiece(s, p, g, Atom(s, p, g))
    decreases |s| - p, 0
  {
    hide Settled, Alternation;
    if s[p] == LPAREN {
      if g < MAX_GROUPS - 1 {
        AlternationBalance(s, p + 1, g + 1);
        if Alternation(s, p + 1, g + 1).Gave? {
          GroupBalance(s, p, g);
        }
      }
    } else {
      SettledToken(s, p, g);
    }
  }

  lemma GroupBalance(s: seq<Byte>, p: nat, g: nat)
    requires At(s, p, LPAREN) && g < MAX_GROUPS - 1
    requires Balance(s, p + 1, g + 1, Alternation(s, p + 1, g + 1)) && Alternation(s, p + 1, g + 1).Gave?
    ensures BalancePiece(s, p, g, Atom(s, p, g))
  {
    hide Read, HasGap, Alternation;
    var r := Alternation(s, p + 1, g + 1);
    var open: nat :| && Read(s, p + 1, r.p, g + 1, r.groups, open) && (r.lost <==> HasGap(s, p + 1, r.p))
                     && (r.list.Cons? || !r.lost ==> (r.lost <==> open > 0));
    ReadOpen(s, p, g);
    ReadJoin(s, p, p + 1, r.p, g, g + 1, r.groups, 1, open);
    EmptyAlternation(s, p + 1, g + 1);
    if At(s, r.p, RPAREN) {
      ReadClose(s, p, r.p, g, r.groups, open);
    }
  }

  /** An alternation that gives up nothing is empty exactly when it starts at its end. */
  lemma EmptyAlternation(s: seq<Byte>, p: nat, g: nat)
    requires p <= |s| && g < MAX_GROUPS && Alternation(s, p, g).Gave?
    ensures !Alternation(s, p, g).lost ==> (Alternation(s, p, g).list.Nil? <==> AtEnd(s, p))
    ensures AtEnd(s, p) ==> !Alternation(s, p, g).lost
  {
    hide Concat;
    if AtStop(s, p) {
      StoppedConcat(s, p, g);
    }
    if !AtEnd(s, p) {
      hide Branches;
      var c := Concat(s, p, g);
      EmptyConcat(s, p, g);
      EmptyBranches(s, c.list, c.p, c.groups, c.lost);
    }
  }

  lemma {:induction false} EmptyBranches(s: seq<Byte>, left: List, p: nat, g: nat, lost: bool)
    requires p <= |s| && g < MAX_GROUPS && WellFormedList(left) && Branches(s, left, p, g, lost).Gave?
    ensures var r := Branches(s, left, p, g, lost); (left.Cons? || At(s, p, BAR)) && !r.lost ==> r.list.Cons?
    decreases |s| - p
  {
    hide Concat;
    if At(s, p, BAR) {
      var c := Concat(s, p + 1, g);
      if c.list.Cons? {
        EmptyBranches(s, Cons(Node.Alt(left, c.list), Nil), c.p, c.groups, lost || c.lost);
      }
    }
  }

  lemma StoppedConcat(s: seq<Byte>, p: nat, g: nat)
    requires p <= |s| && g < MAX_GROUPS && AtStop(s, p)
    ensures Concat(s, p, g) == Gave(Nil, p, g, false)
  {
  }

  lemma RepeatedBalance(s: seq<Byte>, p: nat, g: nat, a: Piece)
    requires BalancePiece(s, p, g, a) && (a.Made? ==> a.p <= |s| && IsAtom(a.node) && WellFormed(a.node))
    ensures BalancePiece(s, p, g, Repeated(s, a))
  {
    hide Read, HasGap, QuantifierAt;
    var r := Repeated(s, a);
    if r.Made? && r != a {
      ReadQuantifier(s, a.p, a.groups);
      assert Settled(s, a.p, a.groups, r.p, r.groups, false);
      hide Settled;
      SettledJoin(s, p, a.p, r.p, g, a.groups, r.groups, a.lost, false);
    }
  }

  lemma {:induction false} ConcatBalances(s: seq<Byte>, p: nat, g: nat)
    requires p <= |s| && g < MAX_GROUPS
    ensures ConcatBalance(s, p, g, Concat(s, p, g))
    decreases |s| - p, 2
  {
    hide Read, HasGap, Atom, Repeated;
    if AtStop(s, p) {
      ReadNothing(s, p, g);
    } else {
      hide Settled;
      AtomBalance(s, p, g);
      var r := Repeated(s, Atom(s, p, g));
      RepeatedBalance(s, p, g, Atom(s, p, g));
      if r.Made? {
        ConcatBalances(s, r.p, r.groups);
        var t := Concat(s, r.p, r.groups);
        if t.Gave? {
          SettledJoin(s, p, r.p, t.p, g, r.groups, t.groups, r.lost, t.lost);
        }
      }
    }
  }

  /** A bar with the branch behind it. */
  lemma BarBalance(s: seq<Byte>, p: nat, g: nat, q: nat, h: nat, lost: bool, nil: bool)
    requires At(s, p, BAR) && Settled(s, p + 1, g, q, h, lost) && (nil ==> lost || AtStop(s, p + 1))
    requires !nil ==> !AtStop(s, p + 1)
    ensures exists open: nat :: && Read(s, p, q, g, h, open) && (open > 0 <==> lost)
                                && (HasGap(s, p, q) <==> nil || lost)
  {
    hide Read, HasGap;
    var b: nat :| Read(s, p + 1, q, g, h, b) && (lost <==> b > 0) && (lost <==> HasGap(s, p + 1, q));
    ReadToken(s, p, g);
    ReadJoin(s, p, p + 1, q, g, g, h, 0, b);
  }

  lemma {:induction false} BranchesBalance(s: seq<Byte>, left: List, p: nat, g: nat, lost: bool, p0: nat, g0: nat)
    requires p <= |s| && g < MAX_GROUPS && WellFormedList(left) && Settled(s, p0, g0, p, g, lost)
    ensures Balance(s, p0, g0, Branches(s, left, p, g, lost))
    decreases |s| - p, 3
  {
    hide Read, HasGap, Concat;
    if At(s, p, BAR) {
      ConcatBalances(s, p + 1, g);
      var c := Concat(s, p + 1, g);
      if c.Gave? {
        EmptyConcat(s, p + 1, g);
        BarBalance(s, p, g, c.p, c.groups, c.lost, c.list.Nil?);
        var b: nat :| && Read(s, p, c.p, g, c.groups, b) && (b > 0 <==> c.lost)
                      && (HasGap(s, p, c.p) <==> c.list.Nil? || c.lost);
        var a: nat :| Read(s, p0, p, g0, g, a) && (lost <==> a > 0) && (lost <==> HasGap(s, p0, p));
        ReadJoin(s, p0, p, c.p, g0, g, c.groups, a, b);
        if c.list.Cons? {
          BranchesBalance(s, Cons(Node.Alt(left, c.list), Nil), c.p, c.groups, lost || c.lost, p0, g0);
        }
      }
    }
  }

  lemma EmptyConcat(s: seq<Byte>, p: nat, g: nat)
    requires p <= |s| && g < MAX_GROUPS && Concat(s, p, g).Gave?
    ensures Concat(s, p, g).list.Nil? ==> Concat(s, p, g).lost || AtStop(s, p)
    ensures Concat(s, p, g).list.Cons? ==> !AtStop(s, p)
  {
    hide Atom, Repeated;
  }

  lemma {:induction false} AlternationBalance(s: seq<Byte>, p: nat, g: nat)
    requires p <= |s| && g < MAX_GROUPS
    ensures Balance(s, p, g, Alternation(s, p, g))
    decreases |s| - p, 4
  {
    hide Settled, Concat, Branches;
    ConcatBalances(s, p, g);
    var c := Concat(s, p, g);
    if c.Gave? {
      BranchesBalance(s, c.list, c.p, c.groups, c.lost, p, g);
    }
  }

  // ---------------------------------------------------------------------------------
  // What the text of a pattern decides

  /** In an accepted pattern the number of groups is the number of opening parentheses read, and text
      was given up exactly when not all of them were closed. */
  lemma LostIffUnbalanced(s: seq<Byte>, l: List, q: nat, h: nat, lost: bool)
    requires Alternation(s, 0, 0) == Gave(l, q, h, lost) && l.Cons?
    ensures q <= |s| && h == Opens(s, 0, q) && (lost <==> Opens(s, 0, q) != Closes(s, 0, q))
  {
    hide Alternation, HasGap, PatternEnd;
    AlternationBalance(s, 0, 0);
  }

  /** A pattern that parses gives up text exactly when it has a gap before its end; without one it is
      read up to its end. */
  lemma LostIffGap(s: seq<Byte>, l: List, q: nat, h: nat, lost: bool)
    requires Alternation(s, 0, 0) == Gave(l, q, h, lost)
    ensures lost <==> HasGap(s, 0, PatternEnd(s, 0, 0))
    ensures q <= PatternEnd(s, 0, 0) && (!lost ==> q == PatternEnd(s, 0, 0))
  {
    hide Alternation, HasGap;
    AlternationBalance(s, 0, 0);
    var open: nat :| && Read(s, 0, q, 0, h, open) && (lost <==> HasGap(s, 0, q))
                     && (l.Cons? || !lost ==> (lost <==> open > 0));
    GapJoin(s, 0, q, PatternEnd(s, 0, 0));
    assert PatternEnd(s, 0, 0) == PatternEnd(s, q, open);
    if !lost {
      AltSound(s, 0, 0);
    }
  }

  /** So the part read spells the tree exactly when it closes what it opens, and exactly when the
      pattern has no gap before its end. */
  lemma SpelledIffBalanced(s: seq<Byte>, l: List, q: nat, h: nat, lost: bool)
    requires Alternation(s, 0, 0) == Gave(l, q, h, lost) && l.Cons?
    ensures q <= |s|
    ensures SpellsAlt(l, s, 0, q, 0, h) && AtEnd(s, q) <==> Opens(s, 0, q) == Closes(s, 0, q)
    ensures SpellsAlt(l, s, 0, q, 0, h) && AtEnd(s, q) <==> !HasGap(s, 0, PatternEnd(s, 0, 0))
  {
    hide Alternation, SpellsAlt, Opens, Closes, HasGap, PatternEnd;
    LostIffUnbalanced(s, l, q, h, lost);
    LostIffGap(s, l, q, h, lost);
    ParseIffSpelled(s, l, q, h);
  }

  /** The whole pattern spells the tree exactly when it has no gap and every closing parenthesis
      closes a group. */
  lemma WholeIffNoGap(s: seq<Byte>, l: List, q: nat, h: nat, lost: bool)
    requires Alternation(s, 0, 0) == Gave(l, q, h, lost)
    ensures SpellsAlt(l, s, 0, |s|, 0, h) <==> !HasGap(s, 0, |s|) && PatternEnd(s, 0, 0) == |s|
  {
    hide Alternation, SpellsAlt, HasGap, PatternEnd;
    LostIffGap(s, l, q, h, lost);
    ParseIffSpelled(s, l, |s|, h);
  }
}
