/**
 Patterns whose meaning can be read off their text: for each form of the syntax, that the bytes of the
 pattern spell a tree that compiles and what that tree matches, in plain terms.
 */
module RegexPatterns {
  import opened RegexSyntax
  import opened RegexText
  import opened RegexGrammar
  import opened RegexMeaning
  import opened RegexLinear
  import opened RegexEngine
  import opened RegexApi

  /** The characters of `w` one after the other, then `tail`. */
  function Literal(w: seq<Byte>, tail: List): List {
    if w == [] then tail else Cons(Char(w[0]), Literal(w[1..], tail))
  }

  /** A text matches exactly its own occurrences. */
  lemma {:induction false} LiteralMatch(w: seq<Byte>, tail: List, s: seq<Byte>, i: nat, j: nat)
    requires i <= |s|
    ensures MatchesList(Literal(w, tail), s, i, j)
       <==> i + |w| <= |s| && s[i..i + |w|] == w && MatchesList(tail, s, i + |w|, j)
    decreases |w|
  {
    if w == [] {
      assert s[i..i] == [];
    } else if i < |s| {
      var n := i + |w|;
      LiteralMatch(w[1..], tail, s, i + 1, j);
      assert Matches(Char(w[0]), s, i, i + 1) <==> s[i] == w[0];
      if n <= |s| {
        assert s[i..n] == [s[i]] + s[i + 1..n];
        assert w == [w[0]] + w[1..];
      }
    }
  }

  lemma {:induction false} LiteralCut(w: seq<Byte>, room: nat)
    requires |w| >= room
    ensures CutList(Literal(w, Nil), room) == Literal(w[..room], Nil)
    decreases room
  {
    if room > 0 {
      LiteralCut(w[1..], room - 1);
      assert w[..room][1..] == w[1..][..room - 1];
    }
  }

  lemma {:induction false} LiteralShort(w: seq<Byte>, tail: List)
    requires ShortNodes(tail)
    ensures Length(Literal(w, tail)) == |w| + Length(tail) && ShortNodes(Literal(w, tail))
    decreases |w|
  {
    if w != [] { LiteralShort(w[1..], tail); }
  }

  /** Ordinary characters in the pattern from `p` up to `q` spell themselves. */
  lemma {:induction false} LiteralSpelled(s: seq<Byte>, p: nat, q: nat, tail: List, end: nat)
    requires p <= q <= |s| && (forall k :: p <= k < q ==> !Special(s[k])) && SpellsConcat(tail, s, q, end, 0, 0)
    ensures SpellsConcat(Literal(s[p..q], tail), s, p, end, 0, 0)
    decreases q - p
  {
    if p < q {
      LiteralSpelled(s, p + 1, q, tail, end);
      assert s[p..q][1..] == s[p + 1..q];
      assert SpellsAtom(Char(s[p]), s, p, p + 1, 0, 0);
      assert SpellsPiece(Char(s[p]), s, p, p + 1, 0, 0);
    } else {
      assert s[p..q] == [];
    }
  }

  lemma {:induction false} LiteralCompiles(w: seq<Byte>, tail: List)
    requires (w != [] && tail.Nil?) || CompilesList(tail, true)
    ensures CompilesList(Literal(w, tail), true)
    decreases |w|
  {
    if w != [] {
      if |w| > 1 || tail.Cons? { LiteralCompiles(w[1..], tail); }
    }
  }

  lemma LiteralHead(w: seq<Byte>)
    requires w != []
    ensures Literal(w, Nil).Cons? && !Literal(w, Nil).head.Alt?
  {
  }

  /** The bytes of `( ) ^ $ . [ \ | + * ? { }`. */
  const SPECIAL_BYTES: seq<Byte> := [40, 41, 94, 36, 46, 91, 92, 124, 43, 42, 63, 123, 125]

  /** A pattern without special characters is accepted and matches exactly the occurrences of its text. */
  lemma PlainPattern(pattern: seq<Byte>)
    requires pattern != [] && forall k :: 0 <= k < |pattern| ==> pattern[k] !in SPECIAL_BYTES
    ensures var l := Literal(pattern, Nil);
            && SpellsAlt(l, pattern, 0, |pattern|, 0, 0) && CompilesList(l, true)
            && (|pattern| <= MAX_CONCAT ==> ShortList(l))
            && forall s: seq<Byte>, i: nat, j: nat :: i <= |s| ==>
                 (MatchesList(l, s, i, j) <==> j == i + |pattern| <= |s| && s[i..j] == pattern)
  {
    hide MatchesList, SpellsConcat, CompilesList, ShortNodes, Literal;
    var n := |pattern|;
    assert SpellsConcat(Nil, pattern, n, n, 0, 0) by { EmptySpelled(pattern); }
    forall k | 0 <= k < n ensures !Special(pattern[k]) { OrdinaryByte(pattern[k]); }
    LiteralSpelled(pattern, 0, n, Nil, n);
    assert pattern[0..n] == pattern;
    LiteralHead(pattern);
    LiteralCompiles(pattern, Nil);
    NilShort();
    LiteralShort(pattern, Nil);
    forall s: seq<Byte>, i: nat, j: nat | i <= |s|
      ensures MatchesList(Literal(pattern, Nil), s, i, j) <==> j == i + n <= |s| && s[i..j] == pattern
    {
      LiteralMatch(pattern, Nil, s, i, j);
      NilMatches(s, i + n, j);
    }
  }

  lemma EmptySpelled(s: seq<Byte>) ensures SpellsConcat(Nil, s, |s|, |s|, 0, 0) {}
  lemma NilShort() ensures ShortNodes(Nil) && Length(Nil) == 0 {}
  lemma NilMatches(s: seq<Byte>, i: nat, j: nat) ensures MatchesList(Nil, s, i, j) <==> i == j {}
  lemma OrdinaryByte(c: Byte) requires c !in SPECIAL_BYTES ensures !Special(c) {}

  /** Between anchors a plain pattern matches the whole string or nothing. */
  lemma AnchoredPattern(w: seq<Byte>) returns (l: List)
    requires forall k :: 0 <= k < |w| ==> w[k] !in SPECIAL_BYTES
    ensures var pattern: seq<Byte> := [94] + w + [36];
            && l.Cons? && SpellsAlt(l, pattern, 0, |pattern|, 0, 0) && CompilesList(l, true)
    ensures forall s: seq<Byte>, i: nat, j: nat :: i <= |s| ==>
              (MatchesList(l, s, i, j) <==> i == 0 && j == |s| && s == w)
  {
    hide SpellsConcat, CompilesList, Literal;
    var pattern: seq<Byte> := [94] + w + [36];
    var n, tail := |w|, Cons(Anchor(36), Nil);
    l := Cons(Anchor(94), Literal(w, tail));
    assert pattern[1..n + 1] == w;
    forall k | 1 <= k < n + 1 ensures !Special(pattern[k]) { OrdinaryByte(w[k - 1]); }
    AnchorSpelled(pattern, n + 1, Nil, n + 2);
    LiteralSpelled(pattern, 1, n + 1, tail, n + 2);
    AnchorSpelled(pattern, 0, Literal(w, tail), n + 2);
    AnchorCompiles(w);
    forall s: seq<Byte>, i: nat, j: nat | i <= |s|
      ensures MatchesList(l, s, i, j) <==> i == 0 && j == |s| && s == w
    {
      AnchorMatches(94, Literal(w, tail), s, i, j);
      LiteralMatch(w, tail, s, i, j);
      AnchorMatches(36, Nil, s, i + n, j);
      NilMatches(s, i + n, j);
      assert s[0..|s|] == s;
    }
  }

  lemma AnchorMatches(c: Byte, tail: List, s: seq<Byte>, i: nat, j: nat)
    ensures MatchesList(Cons(Anchor(c), tail), s, i, j)
       <==> (if c == 94 then i == 0 else i == |s|) && MatchesList(tail, s, i, j)
  {
    if MatchesList(tail, s, i, j) && (if c == 94 then i == 0 else i == |s|) {
      assert Matches(Anchor(c), s, i, i);
    }
  }

  lemma AnchorSpelled(s: seq<Byte>, p: nat, tail: List, end: nat)
    requires p < |s| && (s[p] == 94 || s[p] == 36)
    requires SpellsConcat(tail, s, p + 1, end, 0, 0) || (tail.Nil? && end == p + 1 <= |s|)
    ensures SpellsConcat(Cons(Anchor(s[p]), tail), s, p, end, 0, 0)
  {
    assert SpellsAtom(Anchor(s[p]), s, p, p + 1, 0, 0);
    assert SpellsPiece(Anchor(s[p]), s, p, p + 1, 0, 0);
    assert SpellsConcat(tail, s, p + 1, end, 0, 0);
  }

  lemma AnchorCompiles(w: seq<Byte>)
    ensures CompilesList(Cons(Anchor(94), Literal(w, Cons(Anchor(36), Nil))), true)
  {
    LiteralCompiles(w, Cons(Anchor(36), Nil));
  }

  /** `[x-y]` matches exactly one byte from `x` to `y`. */
  lemma RangePattern(x: Byte, y: Byte) returns (l: List)
    requires x <= y < 128 && x !in [92, 93, 94] && y != 93
    ensures l.Cons? && SpellsAlt(l, [91, x, 45, y, 93], 0, 5, 0, 0) && CompilesList(l, true) && ShortList(l)
    ensures forall s: seq<Byte>, i: nat, j: nat ::
              MatchesList(l, s, i, j) <==> i < |s| && j == i + 1 && x <= s[i] <= y
  {
    var pattern: seq<Byte> := [91, x, 45, y, 93];
    var t := RangeTable(x, y);
    l := Cons(Class(t), Nil);
    RangeSpelled(x, y, t);
    hide TableHas;
    NilShort();
    assert Length(l) == 1 && ShortNodes(l);
    assert SpellsAtom(Class(t), pattern, 0, 5, 0, 0);
    assert SpellsPiece(Class(t), pattern, 0, 5, 0, 0);
    assert SpellsConcat(Nil, pattern, 5, 5, 0, 0);
    forall s: seq<Byte>, i: nat, j: nat
      ensures MatchesList(l, s, i, j) <==> i < |s| && j == i + 1 && x <= s[i] <= y
    {
      OneNodeMatches(Class(t), s, i, j);
    }
  }

  lemma OneNodeMatches(n: Node, s: seq<Byte>, i: nat, j: nat)
    ensures MatchesList(Cons(n, Nil), s, i, j) <==> Matches(n, s, i, j)
  {
    hide Matches;
    if Matches(n, s, i, j) { NilMatches(s, j, j); }
  }

  lemma RangeTable(x: Byte, y: Byte) returns (t: Table)
    ensures forall c: Byte :: TableHas(t, c) <==> x <= c <= y
  {
    hide TableHas;
    t := SetSpan(NO_BITS, x, y);
    forall c: Byte ensures TableHas(t, c) <==> x <= c <= y {
      SetSpanHas(NO_BITS, x, y, c);
      NoBitsHas(c);
    }
  }

  lemma RangeSpelled(x: Byte, y: Byte, t: Table)
    requires x <= y < 128 && x !in [92, 93, 94] && y != 93 && forall c: Byte :: TableHas(t, c) <==> x <= c <= y
    ensures SpellsClass(t, [91, x, 45, y, 93], 1, 5)
  {
    hide TableHas;
    var s: seq<Byte> := [91, x, 45, y, 93];
    var members := [Member(x, y)];
    assert SpellsMember(members[0], s, 1, 4);
    assert members[1..] == [] && SpellsBody([], s, 4, 5);
    assert SpellsBody(members, s, 1, 5);
    forall c: Byte ensures TableHas(t, c) <==> InMembers(members, c) {
      assert members[0].lo == x && members[0].hi == y;
    }
    ClassOf(t, s, 1, 5, members);
  }

  // ----- One node -----

  /** A pattern that is a single piece. */
  lemma OnePiece(n: Node, pattern: seq<Byte>, h: nat)
    requires SpellsPiece(n, pattern, 0, |pattern|, 0, h) && !n.Alt?
    ensures SpellsAlt(Cons(n, Nil), pattern, 0, |pattern|, 0, h)
  {
    hide SpellsPiece;
    assert SpellsConcat(Nil, pattern, |pattern|, |pattern|, h, h);
    assert SpellsConcat(Cons(n, Nil), pattern, 0, |pattern|, 0, h);
  }

  /** A dot matches any one byte, an escaped byte itself. */
  lemma DotAndEscape(c: Byte)
    ensures SpellsAlt(Cons(Any, Nil), [46], 0, 1, 0, 0) && SpellsAlt(Cons(Char(c), Nil), [92, c], 0, 2, 0, 0)
    ensures forall s: seq<Byte>, i: nat, j: nat ::
              && (MatchesList(Cons(Any, Nil), s, i, j) <==> i < |s| && j == i + 1)
              && (MatchesList(Cons(Char(c), Nil), s, i, j) <==> i < |s| && j == i + 1 && s[i] == c)
  {
    assert SpellsPiece(Any, [46], 0, 1, 0, 0) && SpellsPiece(Char(c), [92, c], 0, 2, 0, 0);
    OnePiece(Any, [46], 0);
    OnePiece(Char(c), [92, c], 0);
    forall s: seq<Byte>, i: nat, j: nat
      ensures MatchesList(Cons(Any, Nil), s, i, j) <==> i < |s| && j == i + 1
      ensures MatchesList(Cons(Char(c), Nil), s, i, j) <==> i < |s| && j == i + 1 && s[i] == c
    {
      OneNodeMatches(Any, s, i, j);
      OneNodeMatches(Char(c), s, i, j);
    }
  }

  // ----- Repeats -----

  /** Only the byte `c` stands from `i` up to `j`. */
  predicate AllAre(s: seq<Byte>, i: nat, j: nat, c: Byte) {
    i <= j <= |s| && forall k :: i <= k < j ==> s[k] == c
  }

  lemma {:induction false} TimesMatch(c: Byte, n: nat, s: seq<Byte>, i: nat, j: nat)
    requires i <= |s|
    ensures MatchesTimes(Char(c), n, s, i, j) <==> j == i + n && AllAre(s, i, j, c)
    decreases n
  {
    if n > 0 {
      if i < |s| {
        TimesMatch(c, n - 1, s, i + 1, j);
        assert Matches(Char(c), s, i, i + 1) <==> s[i] == c;
      }
    }
  }

  lemma RepeatMatch(c: Byte, lo: nat, hi: int, s: seq<Byte>, i: nat, j: nat)
    requires i <= |s|
    ensures MatchesList(Cons(Repeat(Char(c), lo, hi, true), Nil), s, i, j)
       <==> AllAre(s, i, j, c) && lo <= j - i && (hi < 0 || j - i <= hi)
  {
    hide MatchesTimes, AllAre;
    OneNodeMatches(Repeat(Char(c), lo, hi, true), s, i, j);
    if Matches(Repeat(Char(c), lo, hi, true), s, i, j) {
      var k: nat :| lo <= k && (hi < 0 || k <= hi) && MatchesTimes(Char(c), k, s, i, j);
      TimesMatch(c, k, s, i, j);
    }
    if AllAre(s, i, j, c) && lo <= j - i && (hi < 0 || j - i <= hi) {
      TimesMatch(c, j - i, s, i, j);
    }
  }

  lemma RepeatCompiles(n: Node)
    requires n.Repeat? && n.child.Char? && n.hi != 0
    ensures CompilesList(Cons(n, Nil), true) && ShortList(Cons(n, Nil))
  {
    NilShort();
    assert Short(n.child) && Short(n);
    assert Compiles(n.child, true) && Linear(n.child);
    assert Length(Cons(n, Nil)) == 1 && ShortNodes(Cons(n, Nil));
  }

  /** `c*`, `c+` and `c?` match as many of the byte as the mark says. */
  lemma MarkedPattern(c: Byte, mark: Byte) returns (l: List)
    requires c !in SPECIAL_BYTES && mark in [42, 43, 63]
    ensures SpellsAlt(l, [c, mark], 0, 2, 0, 0) && CompilesList(l, true) && ShortList(l)
    ensures forall s: seq<Byte>, i: nat, j: nat :: i <= |s| ==>
              (MatchesList(l, s, i, j) <==>
                 AllAre(s, i, j, c) && (mark == 43 ==> j > i) && (mark == 63 ==> j <= i + 1))
  {
    var lo: nat, hi := if mark == 43 then 1 else 0, if mark == 63 then 1 else -1;
    var n := Repeat(Char(c), lo, hi, true);
    l := Cons(n, Nil);
    OrdinaryByte(c);
    assert SpellsAtom(Char(c), [c, mark], 0, 1, 0, 0) && SpellsQuantifier(lo, hi, true, [c, mark], 1, 2);
    assert SpellsPiece(n, [c, mark], 0, 2, 0, 0);
    OnePiece(n, [c, mark], 0);
    RepeatCompiles(n);
    forall s: seq<Byte>, i: nat, j: nat | i <= |s|
      ensures MatchesList(l, s, i, j) <==>
                AllAre(s, i, j, c) && (mark == 43 ==> j > i) && (mark == 63 ==> j <= i + 1)
    {
      RepeatMatch(c, lo, hi, s, i, j);
    }
  }

  /** `c{a,b}` with one-digit bounds matches from `a` to `b` of the byte. */
  lemma IntervalPattern(c: Byte, a: nat, b: nat) returns (l: List)
    requires c !in SPECIAL_BYTES && a <= b < 10 && b > 0
    ensures SpellsAlt(l, [c, 123, 48 + a, 44, 48 + b, 125], 0, 6, 0, 0) && CompilesList(l, true) && ShortList(l)
    ensures forall s: seq<Byte>, i: nat, j: nat :: i <= |s| ==>
              (MatchesList(l, s, i, j) <==> AllAre(s, i, j, c) && a <= j - i <= b)
  {
    var pattern: seq<Byte> := [c, 123, 48 + a, 44, 48 + b, 125];
    var n := Repeat(Char(c), a, b, true);
    l := Cons(n, Nil);
    OrdinaryByte(c);
    OneDigit(a, pattern, 2);
    OneDigit(b, pattern, 4);
    hide SpellsNumber;
    assert SpellsUpper(a, b, pattern, 3, 6);
    assert SpellsInterval(a, b, pattern, 2, 6);
    assert SpellsAtom(Char(c), pattern, 0, 1, 0, 0) && SpellsQuantifier(a, b, true, pattern, 1, 6);
    assert SpellsPiece(n, pattern, 0, 6, 0, 0);
    OnePiece(n, pattern, 0);
    RepeatCompiles(n);
    forall s: seq<Byte>, i: nat, j: nat | i <= |s|
      ensures MatchesList(l, s, i, j) <==> AllAre(s, i, j, c) && a <= j - i <= b
    {
      RepeatMatch(c, a, b, s, i, j);
    }
  }

  lemma OneDigit(d: nat, s: seq<Byte>, p: nat)
    requires p < |s| && d < 10 && s[p] == 48 + d
    ensures SpellsNumber(d, s, p, p + 1)
  {
    assert Places(s, p + 1, p + 1) == 0 && Pow10(0) == 1;
  }

  // ----- Alternatives in a group -----

  /** `(x|y)` is group 1 and matches one byte, `x` or `y`. */
  lemma EitherPattern(x: Byte, y: Byte) returns (l: List)
    requires x !in SPECIAL_BYTES && y !in SPECIAL_BYTES
    ensures l.Cons? && l.head.Group? && l.head.gid == 1
    ensures SpellsAlt(l, [40, x, 124, y, 41], 0, 5, 0, 1) && CompilesList(l, true)
    ensures forall s: seq<Byte>, i: nat, j: nat :: i <= |s| ==>
              (MatchesList(l, s, i, j) <==> i < |s| && j == i + 1 && (s[i] == x || s[i] == y))
  {
    var pattern: seq<Byte> := [40, x, 124, y, 41];
    var a, b := Cons(Char(x), Nil), Cons(Char(y), Nil);
    var body := Cons(Node.Alt(a, b), Nil);
    l := Cons(Group(1, body), Nil);
    OrdinaryByte(x);
    OrdinaryByte(y);
    ByteSpelled(pattern, 1);
    ByteSpelled(pattern, 3);
    assert SpellsAlt(a, pattern, 1, 2, 1, 1);
    assert SpellsAlt(body, pattern, 1, 4, 1, 1);
    assert SpellsPiece(Group(1, body), pattern, 0, 5, 0, 1);
    OnePiece(Group(1, body), pattern, 1);
    EitherCompiles(x, y);
    hide Matches;
    forall s: seq<Byte>, i: nat, j: nat | i <= |s|
      ensures MatchesList(l, s, i, j) <==> i < |s| && j == i + 1 && (s[i] == x || s[i] == y)
    {
      OneNodeMatches(Group(1, body), s, i, j);
      GroupMatches(1, body, s, i, j);
      OneNodeMatches(Node.Alt(a, b), s, i, j);
      AltMatches(a, b, s, i, j);
      OneNodeMatches(Char(x), s, i, j);
      OneNodeMatches(Char(y), s, i, j);
      ByteMatches(x, s, i, j);
      ByteMatches(y, s, i, j);
    }
  }

  lemma EitherCompiles(x: Byte, y: Byte)
    ensures CompilesList(Cons(Group(1, Cons(Node.Alt(Cons(Char(x), Nil), Cons(Char(y), Nil)), Nil)), Nil), true)
  {
    var a, b := Cons(Char(x), Nil), Cons(Char(y), Nil);
    assert CompilesList(a, false) && CompilesList(b, false);
    assert Compiles(Node.Alt(a, b), false);
    assert CompilesList(Cons(Node.Alt(a, b), Nil), false);
    assert Compiles(Group(1, Cons(Node.Alt(a, b), Nil)), true);
  }

  lemma ByteSpelled(s: seq<Byte>, p: nat)
    requires p < |s| && !Special(s[p])
    ensures SpellsConcat(Cons(Char(s[p]), Nil), s, p, p + 1, 1, 1)
  {
    assert SpellsAtom(Char(s[p]), s, p, p + 1, 1, 1);
    assert SpellsPiece(Char(s[p]), s, p, p + 1, 1, 1);
    assert SpellsConcat(Nil, s, p + 1, p + 1, 1, 1);
  }

  lemma GroupMatches(g: nat, body: List, s: seq<Byte>, i: nat, j: nat)
    ensures Matches(Group(g, body), s, i, j) <==> MatchesList(body, s, i, j)
  {
  }

  lemma AltMatches(a: List, b: List, s: seq<Byte>, i: nat, j: nat)
    ensures Matches(Node.Alt(a, b), s, i, j) <==> MatchesList(a, s, i, j) || MatchesList(b, s, i, j)
  {
  }

  lemma ByteMatches(c: Byte, s: seq<Byte>, i: nat, j: nat)
    ensures Matches(Char(c), s, i, j) <==> i < |s| && j == i + 1 && s[i] == c
  {
  }

  // ----- Marks without anything to repeat -----

  /** A pattern, a branch or a group that begins with one of `+ * ? { }` is an error. */
  lemma DanglingMark(s: seq<Byte>, p: nat, g: nat)
    requires p < |s| && g < MAX_GROUPS && s[p] in [43, 42, 63, 123, 125]
    ensures Alternation(s, p, g) == Error
  {
    assert Atom(s, p, g) == Wrong;
    hide Atom;
    assert Concat(s, p, g) == Error;
  }

  // ----- Long concatenations -----

  /** Beyond the compiler's buffer a pattern loses its tail: more than 256 ordinary characters are accepted
      as the first 256 of them, which match a string that the pattern does not. */
  lemma LongPatternLosesTail(pattern: seq<Byte>)
    requires |pattern| > MAX_CONCAT && forall k :: 0 <= k < |pattern| ==> pattern[k] !in SPECIAL_BYTES
    ensures Compilable(pattern) && Alternation(pattern, 0, 0) == Gave(Literal(pattern, Nil), |pattern|, 0, false)
    ensures var front := pattern[..MAX_CONCAT];
            && CutList(Literal(pattern, Nil), MAX_CONCAT) == Literal(front, Nil)
            && MatchesList(Literal(front, Nil), front, 0, MAX_CONCAT) && NoMatchAt(Literal(pattern, Nil), front, 0)
  {
    hide MatchesList, Alternation, SpellsAlt, CompilesList, CutList, Literal, ShortList;
    var front := pattern[..MAX_CONCAT];
    PlainPattern(pattern);
    PlainPattern(front);
    LiteralCut(pattern, MAX_CONCAT);
    assert front[0..MAX_CONCAT] == front;
    assert MatchesList(Literal(front, Nil), front, 0, MAX_CONCAT);
    ParseIffSpelled(pattern, Literal(pattern, Nil), |pattern|, 0);
    LiteralHead(pattern);
  }
}
