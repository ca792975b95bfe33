/**
 What the reported captures are: the span of each group is one that the body of that group matches.
 */
module RegexCaptures {
  import opened Options
  import opened RegexSyntax
  import opened RegexGrammar
  import opened RegexText
  import opened RegexMeaning
  import opened RegexEngine

  // ----- Groups in a tree -----

  predicate Mentions(n: Node, g: nat) {
    match n
    case Alt(a, b) => MentionsList(a, g) || MentionsList(b, g)
    case Repeat(child, _, _, _) => Mentions(child, g)
    case Group(gid, body) => gid == g || MentionsList(body, g)
    case _ => false
  }

  predicate MentionsList(l: List, g: nat) {
    l.Cons? && (Mentions(l.head, g) || MentionsList(l.tail, g))
  }

  /** No group contains a group of the same number. */
  predicate Untangled(n: Node) {
    match n
    case Alt(a, b) => UntangledList(a) && UntangledList(b)
    case Repeat(child, _, _, _) => Untangled(child)
    case Group(gid, body) => !MentionsList(body, gid) && UntangledList(body)
    case _ => true
  }

  predicate UntangledList(l: List) {
    l.Cons? ==> Untangled(l.head) && UntangledList(l.tail)
  }

  /** The body of a group numbered `g` inside the node matches the string from `i` to `j`. */
  ghost predicate Captured(n: Node, g: nat, s: seq<Byte>, i: nat, j: nat) {
    match n
    case Alt(a, b) => CapturedList(a, g, s, i, j) || CapturedList(b, g, s, i, j)
    case Repeat(child, _, _, _) => Captured(child, g, s, i, j)
    case Group(gid, body) => (gid == g && MatchesList(body, s, i, j)) || CapturedList(body, g, s, i, j)
    case _ => false
  }

  ghost predicate CapturedList(l: List, g: nat, s: seq<Byte>, i: nat, j: nat) {
    l.Cons? && (Captured(l.head, g, s, i, j) || CapturedList(l.tail, g, s, i, j))
  }

  // ----- Derivations -----

  /** Offsets of a capture count from the start of the attempt. */
  ghost predicate Spanned(n: Node, g: nat, inp: Input, pair: (int, int)) {
    0 <= pair.0 <= pair.1 && Captured(n, g, inp.s, inp.start + pair.0, inp.start + pair.1)
  }

  ghost predicate SpannedList(l: List, g: nat, inp: Input, pair: (int, int)) {
    0 <= pair.0 <= pair.1 && CapturedList(l, g, inp.s, inp.start + pair.0, inp.start + pair.1)
  }

  /** From `at` to `r` the capture of group `g` is kept, or it is a span of that group in the node; groups
      outside the node are kept. */
  ghost predicate Keeps(n: Node, g: nat, inp: Input, at: Spot, r: Spot)
    requires g < MAX_GROUPS
  {
    && inp.start <= at.pos <= r.pos
    && (Pair(r.caps, g) == Pair(at.caps, g) || (Mentions(n, g) && Spanned(n, g, inp, Pair(r.caps, g))))
  }

  ghost predicate KeepsList(l: List, g: nat, inp: Input, at: Spot, r: Spot)
    requires g < MAX_GROUPS
  {
    && inp.start <= at.pos <= r.pos
    && (Pair(r.caps, g) == Pair(at.caps, g) || (MentionsList(l, g) && SpannedList(l, g, inp, Pair(r.caps, g))))
  }

  lemma KeepsTrans(n: Node, g: nat, inp: Input, a: Spot, b: Spot, c: Spot)
    requires g < MAX_GROUPS && Keeps(n, g, inp, a, b) && Keeps(n, g, inp, b, c)
    ensures Keeps(n, g, inp, a, c)
  {
  }

  lemma {:induction false} DeriveKeeps(n: Node, g: nat, inp: Input, at: Spot)
    requires WellFormed(n) && Untangled(n) && g < MAX_GROUPS && inp.start <= at.pos && Derive(n, inp, at).Some?
    ensures Keeps(n, g, inp, at, Derive(n, inp, at).value)
    decreases n, 0, 0
  {
    match n
    case Alt(a, b) =>
      hide DeriveList, CapturedList, MentionsList, UntangledList;
      var next := at.(rest := at.rest[1..]);
      DeriveListKeeps(if at.rest[0] then b else a, g, inp, next);
    case Repeat(child, lo, hi, greedy) =>
      RepeatKeeps(child, lo, hi, greedy, g, inp, at);
    case Group(gid, body) =>
      GroupKeeps(gid, body, g, inp, at);
    case _ =>
  }

  lemma {:induction false} RepeatKeeps(child: Node, lo: nat, hi: int, greedy: bool, g: nat, inp: Input, at: Spot)
    requires var n := Repeat(child, lo, hi, greedy);
             && WellFormed(n) && Untangled(n) && g < MAX_GROUPS && inp.start <= at.pos && Derive(n, inp, at).Some?
    ensures var n := Repeat(child, lo, hi, greedy); Keeps(n, g, inp, at, Derive(n, inp, at).value)
    decreases child, 2, 0
  {
    hide DeriveTimes, DeriveLoop, DeriveOptional;
    TimesKeeps(child, lo, g, inp, at);
    var must := DeriveTimes(child, lo, inp, at).value;
    var r := Derive(Repeat(child, lo, hi, greedy), inp, at).value;
    assert inp.start <= must.pos;
    if hi < 0 {
      LoopKeeps(child, greedy, g, inp, must);
    } else {
      OptionalKeeps(child, hi - lo, greedy, g, inp, must);
    }
    KeepsTrans(child, g, inp, at, must, r);
  }

  lemma {:induction false} GroupKeeps(gid: nat, body: List, g: nat, inp: Input, at: Spot)
    requires var n := Group(gid, body);
             && WellFormed(n) && Untangled(n) && g < MAX_GROUPS && inp.start <= at.pos && Derive(n, inp, at).Some?
    ensures var n := Group(gid, body); Keeps(n, g, inp, at, Derive(n, inp, at).value)
    decreases body, 1, 0
  {
    hide DeriveList, CapturedList, MentionsList, UntangledList, MatchesList;
    var entered := at.(caps := SetCap(at.caps, 2 * gid, at.pos - inp.start));
    var inner := DeriveList(body, inp, entered).value;
    DeriveListKeeps(body, g, inp, entered);
    DeriveListSound(body, inp, entered);
    SlotsApart(at.caps, gid, g, at.pos - inp.start);
    SlotsApart(inner.caps, gid, g, inner.pos - inp.start);
  }

  lemma SlotsApart(caps: Caps, gid: nat, g: nat, v: int)
    requires gid < MAX_GROUPS && g < MAX_GROUPS
    ensures Pair(SetCap(caps, 2 * gid, v), g) == if g == gid then (v, Pair(caps, g).1) else Pair(caps, g)
    ensures Pair(SetCap(caps, 2 * gid + 1, v), g) == if g == gid then (Pair(caps, g).0, v) else Pair(caps, g)
  {
  }

  lemma {:induction false} DeriveListKeeps(l: List, g: nat, inp: Input, at: Spot)
    requires WellFormedList(l) && UntangledList(l) && g < MAX_GROUPS && inp.start <= at.pos
    requires DeriveList(l, inp, at).Some?
    ensures KeepsList(l, g, inp, at, DeriveList(l, inp, at).value)
    decreases l, 0, 0
  {
    hide Derive, Captured, Mentions, Untangled;
    if l.Cons? {
      DeriveKeeps(l.head, g, inp, at);
      DeriveListKeeps(l.tail, g, inp, Derive(l.head, inp, at).value);
    }
  }

  lemma {:induction false} TimesKeeps(n: Node, k: nat, g: nat, inp: Input, at: Spot)
    requires WellFormed(n) && Untangled(n) && g < MAX_GROUPS && inp.start <= at.pos && DeriveTimes(n, k, inp, at).Some?
    ensures Keeps(n, g, inp, at, DeriveTimes(n, k, inp, at).value)
    decreases n, 1, k
  {
    hide Derive, Captured, Mentions, Untangled;
    if k > 0 {
      DeriveKeeps(n, g, inp, at);
      TimesKeeps(n, k - 1, g, inp, Derive(n, inp, at).value);
    }
  }

  lemma {:induction false} OptionalKeeps(n: Node, k: nat, greedy: bool, g: nat, inp: Input, at: Spot)
    requires WellFormed(n) && Untangled(n) && g < MAX_GROUPS && inp.start <= at.pos
    requires DeriveOptional(n, k, greedy, inp, at).Some?
    ensures Keeps(n, g, inp, at, DeriveOptional(n, k, greedy, inp, at).value)
    decreases n, 1, k
  {
    hide Derive, Captured, Mentions, Untangled;
    if k > 0 {
      var next := at.(rest := at.rest[1..]);
      if Enters(greedy, at.rest[0]) {
        DeriveKeeps(n, g, inp, next);
        OptionalKeeps(n, k - 1, greedy, g, inp, Derive(n, inp, next).value);
      } else {
        OptionalKeeps(n, k - 1, greedy, g, inp, next);
      }
    }
  }

  lemma {:induction false} LoopKeeps(n: Node, greedy: bool, g: nat, inp: Input, at: Spot)
    requires WellFormed(n) && Untangled(n) && g < MAX_GROUPS && inp.start <= at.pos
    requires DeriveLoop(n, greedy, inp, at).Some?
    ensures Keeps(n, g, inp, at, DeriveLoop(n, greedy, inp, at).value)
    decreases n, 1, |at.rest|
  {
    hide Derive, Captured, Mentions, Untangled;
    var next := at.(rest := at.rest[1..]);
    if Enters(greedy, at.rest[0]) {
      DeriveKeeps(n, g, inp, next);
      LoopKeeps(n, greedy, g, inp, Derive(n, inp, next).value);
    }
  }

  /** Whatever is reported for a group is (0, 0) or a span that the body of that group matches; a group that
      the expression does not have is (0, 0). */
  lemma CapturesMatch(l: List, inp: Input, r: Spot, g: nat)
    requires WellFormedList(l) && UntangledList(l) && FirstMatch(l, inp, r) && g < MAX_GROUPS
    ensures Pair(r.caps, g) == (0, 0) || (MentionsList(l, g) && SpannedList(l, g, inp, Pair(r.caps, g)))
  {
    hide MentionsList, CapturedList, DeriveList, UntangledList;
    var w :| Derives(l, inp, w, r);
    DeriveListKeeps(l, g, inp, Spot(inp.start, NO_CAPS, w));
  }

  /** A pattern that is one group reports the whole match for it. */
  lemma WholeGroup(gid: nat, body: List, inp: Input, r: Spot)
    requires WellFormed(Group(gid, body)) && !MentionsList(body, gid) && UntangledList(body)
    requires FirstMatch(Cons(Group(gid, body), Nil), inp, r)
    ensures Pair(r.caps, gid) == (0, r.pos - inp.start)
  {
    hide MentionsList, CapturedList, DeriveList, UntangledList;
    var w :| Derives(Cons(Group(gid, body), Nil), inp, w, r);
    var at := Spot(inp.start, NO_CAPS, w);
    var entered := at.(caps := SetCap(at.caps, 2 * gid, 0));
    OnlyGroup(gid, body, inp, at);
    var inner := DeriveList(body, inp, entered).value;
    DeriveListKeeps(body, gid, inp, entered);
    SlotsApart(at.caps, gid, gid, 0);
    SlotsApart(inner.caps, gid, gid, inner.pos - inp.start);
  }

  lemma OnlyGroup(gid: nat, body: List, inp: Input, at: Spot)
    requires WellFormed(Group(gid, body))
    ensures DeriveList(Cons(Group(gid, body), Nil), inp, at) == Derive(Group(gid, body), inp, at)
  {
    hide Derive;
    var first := Derive(Group(gid, body), inp, at);
    if first.Some? {
      assert DeriveList(Nil, inp, first.value) == first;
    }
  }

  // ----- Parsed trees -----

  lemma {:induction false} AtomNumbers(n: Node, s: seq<Byte>, p: nat, q: nat, g: nat, h: nat, x: nat)
    requires SpellsAtom(n, s, p, q, g, h)
    ensures Untangled(n) && g <= h && (Mentions(n, x) ==> g < x <= h)
    decreases n, 0
  {
    hide SpellsClass, SpellsAlt, MentionsList, UntangledList;
    if n.Group? {
      AltNumbers(n.body, s, p + 1, q - 1, g + 1, h, x);
      AltNumbers(n.body, s, p + 1, q - 1, g + 1, h, n.gid);
    }
  }

  lemma {:induction false} PieceNumbers(n: Node, s: seq<Byte>, p: nat, q: nat, g: nat, h: nat, x: nat)
    requires SpellsPiece(n, s, p, q, g, h)
    ensures Untangled(n) && g <= h && (Mentions(n, x) ==> g < x <= h)
    decreases n, 1
  {
    hide SpellsAtom, SpellsQuantifier;
    if n.Repeat? {
      var m: nat :| SpellsAtom(n.child, s, p, m, g, h) && SpellsQuantifier(n.lo, n.hi, n.greedy, s, m, q);
      AtomNumbers(n.child, s, p, m, g, h, x);
    } else {
      AtomNumbers(n, s, p, q, g, h, x);
    }
  }

  lemma {:induction false} ConcatNumbers(l: List, s: seq<Byte>, p: nat, q: nat, g: nat, h: nat, x: nat)
    requires SpellsConcat(l, s, p, q, g, h)
    ensures UntangledList(l) && g <= h && (MentionsList(l, x) ==> g < x <= h)
    decreases l, 0
  {
    hide SpellsPiece, Mentions, Untangled;
    if l.Cons? {
      var m: nat, k: nat :| SpellsPiece(l.head, s, p, m, g, k) && SpellsConcat(l.tail, s, m, q, k, h);
      PieceNumbers(l.head, s, p, m, g, k, x);
      ConcatNumbers(l.tail, s, m, q, k, h, x);
    }
  }

  /** In a parsed tree the groups are numbered from `g + 1` to `h`, none inside itself. */
  lemma {:induction false} AltNumbers(l: List, s: seq<Byte>, p: nat, q: nat, g: nat, h: nat, x: nat)
    requires SpellsAlt(l, s, p, q, g, h)
    ensures UntangledList(l) && g <= h && (MentionsList(l, x) ==> g < x <= h)
    decreases l, 1
  {
    hide SpellsConcat;
    if l.Cons? && l.head.Alt? {
      var a, b := l.head.left, l.head.right;
      var m: nat, k: nat :| SpellsAlt(a, s, p, m, g, k) && At(s, m, BAR) && SpellsConcat(b, s, m + 1, q, k, h);
      AltNumbers(a, s, p, m, g, k, x);
      ConcatNumbers(b, s, m + 1, q, k, h, x);
      assert UntangledList(l.tail) && !MentionsList(l.tail, x);
      assert Untangled(l.head) && (Mentions(l.head, x) ==> g < x <= h);
    } else {
      ConcatNumbers(l, s, p, q, g, h, x);
    }
  }
}
