/**
 The recursive-descent parser of utils/compat/airy_regex_parse.c as it runs: a cursor, a count of
 groups and an error flag, moved by each routine.
 */
module RegexParse {
  import opened Options
  import opened RegexSyntax
  import opened RegexText
  import opened RegexGrammar

  function Append(nodes: seq<Node>, l: List): List
    decreases |nodes|
  {
    if nodes == [] then l else Append(nodes[..|nodes| - 1], Cons(nodes[|nodes| - 1], l))
  }

  /** The outcome of a concatenation whose first nodes have been read. */
  function Attach(nodes: seq<Node>, r: Outcome, lost: bool): Outcome {
    match r
    case Error => Error
    case Gave(l, q, h, lost') =>
      if l.Nil? && lost' then Gave(Nil, q, h, true) else Gave(Append(nodes, l), q, h, lost || lost')
  }

  lemma AttachNone(r: Outcome)
    ensures Attach([], r, false) == r
  {
  }

  lemma AttachOne(s: seq<Byte>, p: nat, g: nat, nodes: seq<Node>, lost: bool)
    requires p < |s| && g < MAX_GROUPS && !AtStop(s, p)
    ensures var r := Repeated(s, Atom(s, p, g));
            Attach(nodes, Concat(s, p, g), lost) ==
            if r.Wrong? then Error
            else if r.Nothing? then Gave(Nil, r.p, r.groups, true)
            else Attach(nodes + [r.node], Concat(s, r.p, r.groups), lost || r.lost)
  {
    hide Atom, Repeated;
    var r := Repeated(s, Atom(s, p, g));
    if r.Made? {
      assert (nodes + [r.node])[..|nodes|] == nodes;
    }
  }

  lemma AttachEnd(s: seq<Byte>, p: nat, g: nat, nodes: seq<Node>, lost: bool)
    requires p <= |s| && g < MAX_GROUPS && AtStop(s, p)
    ensures Attach(nodes, Concat(s, p, g), lost) == Gave(Append(nodes, Nil), p, g, lost)
  {
  }

  function BodyTable(items: seq<Item>, neg: bool): Table {
    if neg then Complement(SetItems(NO_BITS, items)) else SetItems(NO_BITS, items)
  }

  /** The bitmap holds the bytes the members cover, or all others. */
  ghost predicate Denotes(t: Table, members: seq<Member>, neg: bool) {
    forall c: Byte :: TableHas(t, c) <==> InMembers(members, c) != neg
  }

  /** What the class loop is to find: a body is read exactly when one is spelled. */
  lemma BodyMeans(s: seq<Byte>, p: nat, neg: bool)
    requires p <= |s|
    ensures var r := ItemsAt(s, p);
            if r.Some? then
              exists members ::
                SpellsBody(members, s, p, r.value.1) && Denotes(BodyTable(r.value.0, neg), members, neg)
            else forall members, q: nat :: !SpellsBody(members, s, p, q)
  {
    hide TableHas, SetItems, Complement, Covers, InMembers, SpellsBody, ItemsAt;
    var r := ItemsAt(s, p);
    if r.Some? {
      var items := r.value.0;
      ItemsSound(s, p);
      forall c: Byte ensures TableHas(BodyTable(items, neg), c) <==> InMembers(MembersOf(items), c) != neg {
        SetItemsHas(NO_BITS, items, c);
        NoBitsHas(c);
        ComplementHas(SetItems(NO_BITS, items), c);
        MembersCover(items, c);
      }
      assert Denotes(BodyTable(items, neg), MembersOf(items), neg);
    } else {
      forall members, q: nat ensures !SpellsBody(members, s, p, q) {
        if SpellsBody(members, s, p, q) { ItemsComplete(members, s, p, q); }
      }
    }
  }

  /** The class that results when the remaining items are added to `t`. */
  function Finish(t: Table, r: Option<(seq<Item>, nat)>): Option<(Table, nat)> {
    match r case None => None case Some((items, q)) => Some((SetItems(t, items), q))
  }

  lemma FinishStep(t: Table, s: seq<Byte>, p: nat)
    requires p < |s|
    ensures var r := Finish(t, ItemsAt(s, p));
            if s[p] == RBRACKET then r == Some((t, p + 1))
            else if ItemAt(s, p).None? then r == None
            else r == Finish(SetItem(t, ItemAt(s, p).value.0), ItemsAt(s, ItemAt(s, p).value.1))
  {
    hide SetItem, ItemAt;
    if s[p] != RBRACKET && ItemAt(s, p).Some? {
      var item, rest := ItemAt(s, p).value.0, ItemsAt(s, ItemAt(s, p).value.1);
      if rest.Some? {
        assert ([item] + rest.value.0)[1..] == rest.value.0;
      }
    }
  }

  class Parser {
    const s: seq<Byte>
    var p: nat
    var ngroups: nat
    var error: bool

    ghost predicate Valid()
      reads this
    {
      p <= |s| && ngroups < MAX_GROUPS
    }

    constructor (s: seq<Byte>)
      ensures Valid() && this.s == s && p == 0 && ngroups == 0 && !error
    {
      this.s, p, ngroups, error := s, 0, 0, false;
    }

    /** The parser's state and the list it returns are as `r` says. */
    ghost predicate Agrees(r: Outcome, l: List)
      reads this
    {
      error == r.Error? && if r.Error? then l.Nil? else l == r.list && p == r.p && ngroups == r.groups
    }

    ghost predicate AgreesPiece(r: Piece, n: Option<Node>)
      reads this
    {
      && error == r.Wrong? && (n.Some? <==> r.Made?)
      && (!r.Wrong? ==> p == r.p && ngroups == r.groups) && (r.Made? ==> n.value == r.node)
    }

    /** `airy_re_parse_class_body` */
    method ClassBody(neg: bool) returns (t: Option<Table>)
      requires Valid() && !error
      modifies this`p, this`error
      ensures Valid() && error == t.None? && t.Some? == ItemsAt(s, old(p)).Some?
      ensures t.Some? ==> p == ItemsAt(s, old(p)).value.1 && t.value == BodyTable(ItemsAt(s, old(p)).value.0, neg)
      ensures t.Some? ==> exists members :: SpellsBody(members, s, old(p), p) && Denotes(t.value, members, neg)
      ensures t.None? ==> forall members, q: nat :: !SpellsBody(members, s, old(p), q)
    {
      hide SetBit, SetSpan, Complement, ItemsAt, SetItems, SpellsBody, Denotes;
      BodyMeans(s, p, neg);
      var tbl := NO_BITS;
      ghost var all := Finish(tbl, ItemsAt(s, p));
      while true
        modifies this`p, this`error
        invariant Valid() && !error
        invariant all == Finish(tbl, ItemsAt(s, p))
        decreases |s| - p
      {
        if p >= |s| {
          error := true;
          return None;
        }
        var ch := s[p];
        ghost var at, was := p, tbl;
        FinishStep(tbl, s, p);
        p := p + 1;
        if ch == RBRACKET {
          break;
        }
        if ch == BACKSLASH && p < |s| {
          ch := s[p];
          p := p + 1;
          tbl := SetBit(tbl, ch);
        } else if p + 1 < |s| && s[p] == DASH && s[p + 1] != RBRACKET {
          var hi := Signed(s[p + 1]);
          p := p + 2;
          if hi < ch {
            error := true;
            return None;
          }
          tbl := FillSpan(tbl, ch, hi);
        } else {
          tbl := SetBit(tbl, ch);
        }
        assert ItemAt(s, at).Some? && tbl == SetItem(was, ItemAt(s, at).value.0) && p == ItemAt(s, at).value.1;
      }
      if neg {
        tbl := Invert(tbl);
      }
      t := Some(tbl);
    }

    /** The loop over a range. */
    method FillSpan(tbl: Table, lo: Byte, hi: int) returns (t: Table)
      requires lo <= hi < 256
      ensures t == SetSpan(tbl, lo, hi)
    {
      hide SetBit;
      t := tbl;
      for k := lo as int to hi + 1
        invariant t == SetSpan(tbl, lo, k - 1)
      {
        t := SetBit(t, k);
      }
    }

    /** The loop that negates a class. */
    method Invert(tbl: Table) returns (t: Table)
      ensures t == Complement(tbl)
    {
      t := tbl;
      for i := 0 to 32
        invariant forall k :: 0 <= k < i ==> t[k] == !tbl[k]
        invariant forall k :: i <= k < 32 ==> t[k] == tbl[k]
      {
        t := t[i := !t[i]];
      }
    }

    /** `airy_re_digits` */
    method Digits() returns (n: int)
      requires Valid()
      modifies this`p
      ensures p == DigitsEnd(s, old(p)) && n == if p == old(p) then -1 else Number(s, old(p), p)
    {
      n := 0;
      var seen := false;
      while p < |s| && 48 <= s[p] <= 57
        modifies this`p
        invariant old(p) <= p <= |s| && AllDigits(s, old(p), p) && n == Number(s, old(p), p)
        invariant DigitsEnd(s, p) == DigitsEnd(s, old(p)) && seen == (p > old(p))
        decreases |s| - p
      {
        n := n * 10 + (s[p] as int - 48);
        p := p + 1;
        seen := true;
      }
      if !seen {
        n := -1;
      }
    }

    /** `airy_re_bounds` */
    method ParseBounds() returns (lo: int, hi: int)
      requires Valid() && !error
      modifies this`p, this`error
      ensures Valid() && error == BoundsAt(s, old(p)).None?
      ensures !error ==> lo >= 0 && BoundsAt(s, old(p)).value == Bounds(lo, hi, p)
    {
      hide Number;
      ghost var start := p;
      lo := Digits();
      hi := 0;
      if lo < 0 {
        error := true;
        return;
      }
      ghost var d := p;
      if p < |s| && s[p] == COMMA {
        p := p + 1;
        var m := Digits();
        hi := if m >= 0 then m else -1;
      } else {
        hi := lo;
      }
      if p >= |s| || s[p] != RBRACE {
        error := true;
        return;
      }
      p := p + 1;
    }

    /** `airy_re_repeat` */
    method ParseRepeat(atom: Node, ghost r: Piece) returns (n: Option<Node>)
      requires Valid() && !error && r.Made? && r.node == atom && r.p == p && r.groups == ngroups
      requires IsAtom(atom) && WellFormed(atom)
      modifies this`p, this`error
      ensures Valid() && AgreesPiece(Repeated(s, r), n)
    {
      hide BoundsAt, WellFormed;
      if p >= |s| || !(s[p] == STAR || s[p] == PLUS || s[p] == QUESTION || s[p] == LBRACE) {
        return Some(atom);
      }
      var q := s[p];
      p := p + 1;
      var lo, hi, greedy := 0, -1, true;
      if q == STAR {
        lo, hi := 0, -1;
      } else if q == PLUS {
        lo, hi := 1, -1;
      } else if q == QUESTION {
        lo, hi := 0, 1;
      } else {
        lo, hi := ParseBounds();
        if error {
          return None;
        }
      }
      if lo > MAX_BODY || (hi >= 0 && hi > MAX_BODY) {
        error := true;
        return None;
      }
      if hi >= 0 && lo > hi {
        error := true;
        return None;
      }
      if p < |s| && s[p] == QUESTION {
        greedy := false;
        p := p + 1;
      }
      n := Some(Repeat(atom, lo, hi, greedy));
    }

    /** `airy_re_atom` */
    method ParseAtom() returns (n: Option<Node>)
      requires Valid() && !error && !AtStop(s, p) && p < |s|
      modifies this
      ensures Valid() && AgreesPiece(Atom(s, old(p), old(ngroups)), n)
      decreases |s| - p, 1
    {
      hide Alternation, ItemsAt, SetItems, Complement;
      var ch := s[p];
      if ch == LPAREN {
        p := p + 1;
        n := ParseGroup();
      } else if ch == CARET || ch == DOLLAR {
        p := p + 1;
        n := Some(Anchor(ch));
      } else if ch == DOT {
        p := p + 1;
        n := Some(Any);
      } else if ch == LBRACKET {
        p := p + 1;
        var neg := p < |s| && s[p] == CARET;
        if neg {
          p := p + 1;
        }
        var t := ClassBody(neg);
        n := if t.Some? then Some(Class(t.value)) else None;
      } else if ch == BACKSLASH {
        p := p + 1;
        if p == |s| {
          error := true;
          return None;
        }
        n := Some(Char(s[p]));
        p := p + 1;
      } else if ch == BAR || ch == PLUS || ch == STAR || ch == QUESTION || ch == LBRACE || ch == RBRACE {
        error := true;
        n := None;
      } else {
        p := p + 1;
        n := Some(Char(ch));
      }
    }

    /** `airy_re_group`, after the parenthesis. */
    method ParseGroup() returns (n: Option<Node>)
      requires Valid() && !error && 0 < p && s[p - 1] == LPAREN
      modifies this
      ensures Valid() && AgreesPiece(Atom(s, old(p) - 1, old(ngroups)), n)
      decreases |s| - p + 1, 0
    {
      hide Alternation;
      if ngroups >= MAX_GROUPS - 1 {
        error := true;
        return None;
      }
      ngroups := ngroups + 1;
      var gid := ngroups;
      var inner := ParseAlt();
      if inner.Nil? {
        return None;
      }
      if !At(s, p, RPAREN) {
        error := true;
        return None;
      }
      p := p + 1;
      n := Some(Group(gid, inner));
    }

    /** `airy_re_parse_concat` */
    method ParseConcat() returns (l: List)
      requires Valid() && !error
      modifies this
      ensures Valid() && Agrees(Concat(s, old(p), old(ngroups)), l)
      decreases |s| - p, 2
    {
      hide Concat, Atom, Repeated, Attach;
      var nodes: seq<Node> := [];
      ghost var lost := false;
      ghost var whole := Concat(s, p, ngroups);
      AttachNone(whole);
      while !AtStop(s, p)
        invariant Valid() && !error && old(p) <= p
        invariant whole == Attach(nodes, Concat(s, p, ngroups), lost)
        decreases |s| - p
      {
        ghost var a := Atom(s, p, ngroups);
        AttachOne(s, p, ngroups, nodes, lost);
        var atom := ParseAtom();
        if atom.None? {
          NotMade(s, a);
          return Nil;
        }
        var piece := ParseRepeat(atom.value, a);
        if piece.None? {
          NotRepeated(s, a);
          return Nil;
        }
        nodes := nodes + [piece.value];
        lost := lost || Repeated(s, a).lost;
      }
      AttachEnd(s, p, ngroups, nodes, lost);
      l := Append(nodes, Nil);
    }

    /** `airy_re_parse_alt` */
    method ParseAlt() returns (l: List)
      requires Valid() && !error
      modifies this
      ensures Valid() && Agrees(Alternation(s, old(p), old(ngroups)), l)
      decreases |s| - p, 3
    {
      hide Concat;
      ghost var first := Concat(s, p, ngroups);
      var left := ParseConcat();
      if left.Nil? && error {
        return Nil;
      }
      ghost var lost := first.lost;
      while At(s, p, BAR)
        invariant Valid() && !error && WellFormedList(left)
        invariant Alternation(s, old(p), old(ngroups)) == Branches(s, left, p, ngroups, lost)
        invariant old(p) <= p
        decreases |s| - p
      {
        p := p + 1;
        ghost var next := Concat(s, p, ngroups);
        var right := ParseConcat();
        if right.Nil? {
          return Nil;
        }
        left := Cons(Node.Alt(left, right), Nil);
        lost := lost || next.lost;
      }
      l := left;
    }
  }

  lemma NotMade(s: seq<Byte>, a: Piece)
    requires !a.Made?
    ensures Repeated(s, a) == a
  {
  }

  lemma NotRepeated(s: seq<Byte>, a: Piece)
    requires a.Made? && a.p <= |s| && IsAtom(a.node) && WellFormed(a.node)
    ensures !Repeated(s, a).Nothing?
  {
  }
}
