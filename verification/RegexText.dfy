/**
 The parts of an ERE that are read left to right (utils/compat/airy_regex_parse.c): repeat
 bounds and bracket classes with their membership bitmaps.
 */
module RegexText {
  import opened Options
  import opened RegexSyntax

  const LPAREN: Byte := 40
  const RPAREN: Byte := 41
  const STAR: Byte := 42
  const PLUS: Byte := 43
  const COMMA: Byte := 44
  const DASH: Byte := 45
  const DOT: Byte := 46
  const QUESTION: Byte := 63
  const LBRACKET: Byte := 91
  const BACKSLASH: Byte := 92
  const RBRACKET: Byte := 93
  const LBRACE: Byte := 123
  const BAR: Byte := 124
  const RBRACE: Byte := 125

  /** The byte at `p` is `c`. */
  predicate At(s: seq<Byte>, p: nat, c: Byte) {
    p < |s| && s[p] == c
  }

  // ----- Numbers and bounds -----

  predicate IsDigit(c: Byte) {
    48 <= c <= 57
  }

  predicate AllDigits(s: seq<Byte>, p: nat, q: nat) {
    p <= q <= |s| && forall k :: p <= k < q ==> IsDigit(s[k])
  }

  function Number(s: seq<Byte>, p: nat, q: nat): nat
    requires AllDigits(s, p, q)
    decreases q
  {
    if p == q then 0 else 10 * Number(s, p, q - 1) + (s[q - 1] as int - 48)
  }

  function DigitsEnd(s: seq<Byte>, p: nat): (q: nat)
    requires p <= |s|
    ensures AllDigits(s, p, q) && (q < |s| ==> !IsDigit(s[q]))
    decreases |s| - p
  {
    if p < |s| && IsDigit(s[p]) then DigitsEnd(s, p + 1) else p
  }

  lemma {:induction false} DigitsEndIs(s: seq<Byte>, p: nat, q: nat)
    requires AllDigits(s, p, q) && (q < |s| ==> !IsDigit(s[q]))
    ensures DigitsEnd(s, p) == q
    decreases q - p
  {
    if p < q { DigitsEndIs(s, p + 1, q); }
  }

  function Pow10(n: nat): nat {
    if n == 0 then 1 else 10 * Pow10(n - 1)
  }

  /** Positional notation: each byte less the code of '0', times its power of ten. */
  function Places(s: seq<Byte>, p: nat, q: nat): int
    requires p <= q <= |s|
    decreases q - p
  {
    if p == q then 0 else (s[p] as int - 48) * Pow10(q - 1 - p) + Places(s, p + 1, q)
  }

  lemma {:induction false} PlacesAppend(s: seq<Byte>, p: nat, q: nat)
    requires p <= q < |s|
    ensures Places(s, p, q + 1) == 10 * Places(s, p, q) + (s[q] as int - 48)
    decreases q - p
  {
    if p == q {
      assert Places(s, q + 1, q + 1) == 0 && Pow10(0) == 1;
    } else {
      PlacesAppend(s, p + 1, q);
      TenTimes(s[p] as int - 48, Pow10(q - 1 - p), Places(s, p + 1, q));
    }
  }

  lemma TenTimes(d: int, x: nat, rest: int)
    ensures d * (10 * x) + 10 * rest == 10 * (d * x + rest)
  {
  }

  /** The bytes from `p` up to `q` are decimal digits that denote `n`. */
  ghost predicate SpellsNumber(n: nat, s: seq<Byte>, p: nat, q: nat) {
    p < q <= |s| && (forall k :: p <= k < q ==> 48 <= s[k] <= 57) && n == Places(s, p, q)
  }

  lemma {:induction false} NumberIsPlaces(s: seq<Byte>, p: nat, q: nat)
    requires AllDigits(s, p, q)
    ensures Number(s, p, q) == Places(s, p, q)
    decreases q
  {
    if p < q {
      NumberIsPlaces(s, p, q - 1);
      PlacesAppend(s, p, q - 1);
    }
  }

  lemma NumberIffSpelled(n: nat, s: seq<Byte>, p: nat, q: nat)
    ensures SpellsNumber(n, s, p, q) <==> p < q && AllDigits(s, p, q) && n == Number(s, p, q)
  {
    hide Number, Places;
    if AllDigits(s, p, q) {
      NumberIsPlaces(s, p, q);
    }
    assert (forall k :: p <= k < q && q <= |s| ==> 48 <= s[k] <= 57) <==> (p <= q <= |s| ==> AllDigits(s, p, q));
  }

  datatype Bounds = Bounds(lo: nat, hi: int, end: nat)

  /** `{n}`, `{n,}` or `{n,m}` after the brace. */
  function BoundsAt(s: seq<Byte>, p: nat): (r: Option<Bounds>)
    requires p <= |s|
    ensures r.Some? ==> p < r.value.end <= |s|
  {
    var d := DigitsEnd(s, p);
    if d == p then None
    else if At(s, d, COMMA) then
      var e := DigitsEnd(s, d + 1);
      if !At(s, e, RBRACE) then None
      else Some(Bounds(Number(s, p, d), if e == d + 1 then -1 else Number(s, d + 1, e), e + 1))
    else if At(s, d, RBRACE) then Some(Bounds(Number(s, p, d), Number(s, p, d), d + 1))
    else None
  }

  /** The bounds the parser admits. */
  predicate BoundsOk(lo: nat, hi: int) {
    lo <= MAX_BODY && hi <= MAX_BODY && (hi < 0 || lo <= hi)
  }

  // ----- Bracket classes -----

  datatype Item = One(c: Byte) | Span(lo: Byte, hi: Byte)

  predicate ItemHas(i: Item, c: Byte) {
    match i case One(x) => c == x case Span(lo, hi) => lo <= c <= hi
  }

  predicate Covers(items: seq<Item>, c: Byte) {
    exists k :: 0 <= k < |items| && ItemHas(items[k], c)
  }

  /** A byte read through a plain `char`, which is signed. */
  function Signed(c: Byte): int {
    if c < 128 then c else c - 256
  }

  /** The class member or range at `p`, and where the next one starts; a range must not run backwards. */
  function ItemAt(s: seq<Byte>, p: nat): (r: Option<(Item, nat)>)
    requires p < |s|
    ensures r.Some? ==> p < r.value.1 <= |s|
  {
    if s[p] == BACKSLASH && p + 1 < |s| then Some((One(s[p + 1]), p + 2))
    else if p + 2 < |s| && s[p + 1] == DASH && s[p + 2] != RBRACKET then
      if Signed(s[p + 2]) < s[p] then None else Some((Span(s[p], s[p + 2]), p + 3))
    else Some((One(s[p]), p + 1))
  }

  /** The items up to the closing bracket, and the position behind it. */
  function ItemsAt(s: seq<Byte>, p: nat): (r: Option<(seq<Item>, nat)>)
    requires p <= |s|
    ensures r.Some? ==> p < r.value.1 <= |s|
    decreases |s| - p
  {
    if p == |s| then None
    else if s[p] == RBRACKET then Some(([], p + 1))
    else
      match ItemAt(s, p)
      case None => None
      case Some((item, next)) =>
        match ItemsAt(s, next)
        case None => None
        case Some((items, q)) => Some(([item] + items, q))
  }

  // ----- Bitmaps -----

  const NO_BITS: Table := [0, 0, 0, 0, 0, 0, 0, 0, 0, 0, 0, 0, 0, 0, 0, 0,
                           0, 0, 0, 0, 0, 0, 0, 0, 0, 0, 0, 0, 0, 0, 0, 0]

  function SetBit(t: Table, c: Byte): Table {
    t[c / 8 := t[c / 8] | Bit(c % 8)]
  }

  lemma OrBit(x: bv8, i: nat, j: nat)
    requires i < 8 && j < 8
    ensures (x | Bit(i)) & Bit(j) != 0 <==> i == j || x & Bit(j) != 0
  {
  }

  lemma SetBitHas(t: Table, c: Byte, d: Byte)
    ensures TableHas(SetBit(t, c), d) <==> c == d || TableHas(t, d)
  {
    hide Bit;
    OrBit(t[c / 8], c % 8, d % 8);
    assert c == 8 * (c / 8) + c % 8 && d == 8 * (d / 8) + d % 8;
  }

  function SetSpan(t: Table, lo: nat, hi: int): Table
    requires hi < 256
    decreases hi + 1 - lo
  {
    if hi < lo then t else SetBit(SetSpan(t, lo, hi - 1), hi)
  }

  lemma {:induction false} SetSpanHas(t: Table, lo: nat, hi: int, c: Byte)
    requires hi < 256
    ensures TableHas(SetSpan(t, lo, hi), c) <==> lo <= c <= hi || TableHas(t, c)
    decreases hi + 1 - lo
  {
    if lo <= hi {
      hide TableHas, SetBit;
      SetSpanHas(t, lo, hi - 1, c);
      SetBitHas(SetSpan(t, lo, hi - 1), hi, c);
    }
  }

  function SetItem(t: Table, i: Item): Table {
    match i case One(c) => SetBit(t, c) case Span(lo, hi) => SetSpan(t, lo, hi)
  }

  lemma SetItemHas(t: Table, i: Item, c: Byte)
    ensures TableHas(SetItem(t, i), c) <==> ItemHas(i, c) || TableHas(t, c)
  {
    hide TableHas, SetBit, SetSpan;
    match i
    case One(x) => SetBitHas(t, x, c);
    case Span(lo, hi) => SetSpanHas(t, lo, hi, c);
  }

  function SetItems(t: Table, items: seq<Item>): Table
    decreases |items|
  {
    if items == [] then t else SetItems(SetItem(t, items[0]), items[1..])
  }

  lemma {:induction false} SetItemsHas(t: Table, items: seq<Item>, c: Byte)
    ensures TableHas(SetItems(t, items), c) <==> Covers(items, c) || TableHas(t, c)
    decreases |items|
  {
    if items != [] {
      hide TableHas, SetItem, ItemHas;
      SetItemHas(t, items[0], c);
      SetItemsHas(SetItem(t, items[0]), items[1..], c);
      if Covers(items, c) && !ItemHas(items[0], c) {
        var k :| 0 <= k < |items| && ItemHas(items[k], c);
        assert ItemHas(items[1..][k - 1], c);
      }
      if Covers(items[1..], c) {
        var k :| 0 <= k < |items[1..]| && ItemHas(items[1..][k], c);
        assert ItemHas(items[k + 1], c);
      }
    }
  }

  lemma NoBitsHas(c: Byte)
    ensures !TableHas(NO_BITS, c)
  {
    ZeroByte(c % 8);
  }

  lemma ZeroByte(k: nat)
    requires k < 8
    ensures (0 as bv8) & Bit(k) == 0
  {
  }

  function Complement(t: Table): Table {
    seq(32, i requires 0 <= i < 32 => !t[i])
  }

  lemma ComplementHas(t: Table, c: Byte)
    ensures TableHas(Complement(t), c) <==> !TableHas(t, c)
  {
    NotBit(t[c / 8], c % 8);
  }

  lemma NotBit(x: bv8, j: nat)
    requires j < 8
    ensures !x & Bit(j) != 0 <==> x & Bit(j) == 0
  {
  }

  lemma SameBits(x: bv8, y: bv8)
    requires forall j :: 0 <= j < 8 ==> (x & Bit(j) != 0 <==> y & Bit(j) != 0)
    ensures x == y
  {
    assert x & Bit(0) != 0 <==> y & Bit(0) != 0;
    assert x & Bit(1) != 0 <==> y & Bit(1) != 0;
    assert x & Bit(2) != 0 <==> y & Bit(2) != 0;
    assert x & Bit(3) != 0 <==> y & Bit(3) != 0;
    assert x & Bit(4) != 0 <==> y & Bit(4) != 0;
    assert x & Bit(5) != 0 <==> y & Bit(5) != 0;
    assert x & Bit(6) != 0 <==> y & Bit(6) != 0;
    assert x & Bit(7) != 0 <==> y & Bit(7) != 0;
  }

  /** Bitmaps with the same members are the same. */
  lemma SameTable(t: Table, u: Table)
    requires forall c: Byte :: TableHas(t, c) <==> TableHas(u, c)
    ensures t == u
  {
    forall i | 0 <= i < 32 ensures t[i] == u[i] {
      forall j | 0 <= j < 8 ensures t[i] & Bit(j) != 0 <==> u[i] & Bit(j) != 0 {
        var c: Byte := 8 * i + j;
        assert c / 8 == i && c % 8 == j;
        assert TableHas(t, c) <==> TableHas(u, c);
      }
      SameBits(t[i], u[i]);
    }
  }

  /** The class behind an opening bracket: its bitmap and the position behind it. */
  function ClassAt(s: seq<Byte>, p: nat): (r: Option<(Table, nat)>)
    requires p <= |s|
    ensures r.Some? ==> p < r.value.1 <= |s|
  {
    var neg := At(s, p, CARET);
    match ItemsAt(s, if neg then p + 1 else p)
    case None => None
    case Some((items, q)) =>
      var t := SetItems(NO_BITS, items);
      Some((if neg then Complement(t) else t, q))
  }

  // ----- What a bracket expression spells -----

  /** `lo` to `hi` are the bytes one member of a bracket expression stands for. */
  datatype Member = Member(lo: Byte, hi: Byte)

  /** A backslash covers the byte behind it. */
  predicate SpellsEscape(m: Member, s: seq<Byte>, p: nat, q: nat) {
    q == p + 2 <= |s| && s[p] == BACKSLASH && m.lo == m.hi == s[p + 1]
  }

  /** `x-y`, where `y` is not the closing bracket, covers the bytes from `x` to `y`; the upper end is read
      through a signed `char` and must not lie below. */
  predicate SpellsRange(m: Member, s: seq<Byte>, p: nat, q: nat) {
    && q == p + 3 <= |s| && s[p] != BACKSLASH && s[p + 1] == DASH && s[p + 2] != RBRACKET
    && m.lo == s[p] && m.hi == s[p + 2] && m.lo <= m.hi < 128
  }

  /** Any other byte covers itself. */
  predicate SpellsByte(m: Member, s: seq<Byte>, p: nat, q: nat) {
    && q == p + 1 <= |s| && m.lo == m.hi == s[p] && (s[p] == BACKSLASH ==> p + 1 == |s|)
    && !(p + 2 < |s| && s[p + 1] == DASH && s[p + 2] != RBRACKET)
  }

  ghost predicate SpellsMember(m: Member, s: seq<Byte>, p: nat, q: nat) {
    p < |s| && s[p] != RBRACKET && (SpellsEscape(m, s, p, q) || SpellsRange(m, s, p, q) || SpellsByte(m, s, p, q))
  }

  /** The members up to the closing bracket, one after the other. */
  ghost predicate SpellsBody(members: seq<Member>, s: seq<Byte>, p: nat, q: nat)
    decreases |members|
  {
    if members == [] then At(s, p, RBRACKET) && q == p + 1
    else exists m: nat :: SpellsMember(members[0], s, p, m) && SpellsBody(members[1..], s, m, q)
  }

  predicate InMembers(members: seq<Member>, c: Byte) {
    exists k :: 0 <= k < |members| && members[k].lo <= c <= members[k].hi
  }

  /** The bracket expression from behind the bracket up to `q` denotes the members of `t`; after a caret
      it denotes all others. */
  ghost predicate SpellsClass(t: Table, s: seq<Byte>, p: nat, q: nat) {
    var neg := At(s, p, CARET);
    var from := if neg then p + 1 else p;
    exists members ::
      SpellsBody(members, s, from, q) && forall c: Byte :: TableHas(t, c) <==> InMembers(members, c) != neg
  }

  lemma ClassOf(t: Table, s: seq<Byte>, p: nat, q: nat, members: seq<Member>)
    requires !At(s, p, CARET) && SpellsBody(members, s, p, q)
    requires forall c: Byte :: TableHas(t, c) <==> InMembers(members, c)
    ensures SpellsClass(t, s, p, q)
  {
    hide SpellsBody, TableHas, InMembers;
  }

  function MemberOf(i: Item): Member {
    match i case One(c) => Member(c, c) case Span(lo, hi) => Member(lo, hi)
  }

  function MembersOf(items: seq<Item>): (members: seq<Member>)
    ensures |members| == |items| && forall k :: 0 <= k < |items| ==> members[k] == MemberOf(items[k])
  {
    seq(|items|, k requires 0 <= k < |items| => MemberOf(items[k]))
  }

  lemma MembersCover(items: seq<Item>, c: Byte)
    ensures InMembers(MembersOf(items), c) <==> Covers(items, c)
  {
    var members := MembersOf(items);
    if k :| 0 <= k < |items| && ItemHas(items[k], c) {
      assert members[k].lo <= c <= members[k].hi;
    }
    if k :| 0 <= k < |members| && members[k].lo <= c <= members[k].hi {
      assert ItemHas(items[k], c);
    }
  }

  /** One step of the class loop reads exactly one member. */
  lemma ItemIffMember(s: seq<Byte>, p: nat, m: Member, q: nat)
    requires p < |s| && s[p] != RBRACKET
    ensures SpellsMember(m, s, p, q) <==> exists i :: ItemAt(s, p) == Some((i, q)) && MemberOf(i) == m
  {
    if SpellsMember(m, s, p, q) {
      assert ItemAt(s, p).Some? && ItemAt(s, p).value.1 == q && MemberOf(ItemAt(s, p).value.0) == m;
      assert ItemAt(s, p) == Some((ItemAt(s, p).value.0, q));
    }
  }

  lemma {:induction false} ItemsSound(s: seq<Byte>, p: nat)
    requires p <= |s| && ItemsAt(s, p).Some?
    ensures SpellsBody(MembersOf(ItemsAt(s, p).value.0), s, p, ItemsAt(s, p).value.1)
    decreases |s| - p
  {
    hide ItemAt, SpellsMember;
    var (items, q) := ItemsAt(s, p).value;
    if s[p] != RBRACKET {
      var (item, next) := ItemAt(s, p).value;
      ItemsSound(s, next);
      ItemIffMember(s, p, MemberOf(item), next);
      var rest := ItemsAt(s, next).value.0;
      assert MembersOf(items)[1..] == MembersOf(rest);
      assert SpellsMember(MembersOf(items)[0], s, p, next);
    }
  }

  lemma {:induction false} ItemsComplete(members: seq<Member>, s: seq<Byte>, p: nat, q: nat)
    requires SpellsBody(members, s, p, q)
    ensures p <= |s| && ItemsAt(s, p).Some? && ItemsAt(s, p).value.1 == q
    ensures MembersOf(ItemsAt(s, p).value.0) == members
    decreases |members|
  {
    if members != [] {
      var m: nat :| SpellsMember(members[0], s, p, m) && SpellsBody(members[1..], s, m, q);
      ItemsComplete(members[1..], s, m, q);
      ItemIffMember(s, p, members[0], m);
      hide ItemAt, SpellsMember;
      var i :| ItemAt(s, p) == Some((i, m)) && MemberOf(i) == members[0];
      var rest := ItemsAt(s, m).value.0;
      assert ItemsAt(s, p).value.0 == [i] + rest;
      assert members == [members[0]] + members[1..];
      assert MembersOf([i] + rest) == [MemberOf(i)] + MembersOf(rest);
    }
  }

  lemma ClassAtSpells(s: seq<Byte>, p: nat)
    requires p <= |s| && ClassAt(s, p).Some?
    ensures SpellsClass(ClassAt(s, p).value.0, s, p, ClassAt(s, p).value.1)
  {
    hide TableHas, SetItems, Complement, Covers, InMembers, SpellsBody;
    var neg := At(s, p, CARET);
    var from := if neg then p + 1 else p;
    var items := ItemsAt(s, from).value.0;
    var t := SetItems(NO_BITS, items);
    ItemsSound(s, from);
    forall c: Byte
      ensures TableHas(if neg then Complement(t) else t, c) <==> InMembers(MembersOf(items), c) != neg
    {
      SetItemsHas(NO_BITS, items, c);
      NoBitsHas(c);
      ComplementHas(t, c);
      MembersCover(items, c);
    }
  }

  lemma SpellsClassAt(t: Table, s: seq<Byte>, p: nat, q: nat)
    requires SpellsClass(t, s, p, q)
    ensures p <= |s| && ClassAt(s, p) == Some((t, q))
  {
    hide TableHas, SetItems, Complement, Covers, InMembers, SpellsBody;
    var neg := At(s, p, CARET);
    var from := if neg then p + 1 else p;
    var members :| && SpellsBody(members, s, from, q)
                   && forall c: Byte :: TableHas(t, c) <==> InMembers(members, c) != neg;
    ItemsComplete(members, s, from, q);
    var items := ItemsAt(s, from).value.0;
    forall c: Byte ensures TableHas(t, c) <==> TableHas(ClassAt(s, p).value.0, c) {
      SetItemsHas(NO_BITS, items, c);
      NoBitsHas(c);
      ComplementHas(SetItems(NO_BITS, items), c);
      MembersCover(items, c);
    }
    SameTable(t, ClassAt(s, p).value.0);
  }
}
