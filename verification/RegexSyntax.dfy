/**
 The abstract syntax that the ERE parser hands to the compiler
 (utils/compat/airy_regex_internal.h), together with the shape the parser guarantees.
 */
module RegexSyntax {
  import Bits

  /** A C `unsigned char`. */
  type Byte = Bits.Byte

  /** AIRY_RE_MAX_GROUPS: group 0 plus up to nine captures. */
  const MAX_GROUPS := 10
  /** AIRY_RE_MAX_DEPTH: the cap on nested calls of the executor. */
  const MAX_DEPTH := 4096
  /** AIRY_RE_MAX_BODY: the cap on repeat bounds. */
  const MAX_BODY := 256
  /** The length of the node buffer in airy_re_compile_seq. */
  const MAX_CONCAT := 256

  const CARET: Byte := 94
  const DOLLAR: Byte := 36

  /** A 32-byte membership bitmap over the 256 byte values. */
  type Table = t: seq<bv8> | |t| == 32 witness seq(32, _ => 0)

  /** `1u << k` */
  function Bit(k: nat): (r: bv8)
    requires k < 8
    ensures r == (1 as bv8) << k
  {
    if k == 0 then 0x01 else if k == 1 then 0x02 else if k == 2 then 0x04 else if k == 3 then 0x08
    else if k == 4 then 0x10 else if k == 5 then 0x20 else if k == 6 then 0x40 else 0x80
  }

  /** `tbl[cc >> 3] & (1u << (cc & 7))` */
  predicate TableHas(t: Table, cc: Byte) {
    t[cc / 8] & Bit(cc % 8) != 0
  }

  /** One AST node.  `hi < 0` stands for an unbounded repeat. */
  datatype Node =
    | Empty
    | Char(c: Byte)
    | Any
    | Class(tbl: Table)
    | Anchor(c: Byte)
    | Alt(left: List, right: List)
    | Repeat(child: Node, lo: nat, hi: int, greedy: bool)
    | Group(gid: nat, body: List)

  /** A concatenation list, linked through `next` in the source. */
  datatype List = Nil | Cons(head: Node, tail: List)

  function Size(n: Node): nat {
    match n
    case Alt(a, b) => 1 + SizeList(a) + SizeList(b)
    case Repeat(child, _, _, _) => 1 + Size(child)
    case Group(_, body) => 1 + SizeList(body)
    case _ => 1
  }

  function SizeList(l: List): nat {
    match l case Nil => 0 case Cons(h, t) => 1 + Size(h) + SizeList(t)
  }

  function Length(l: List): nat {
    match l case Nil => 0 case Cons(_, t) => 1 + Length(t)
  }

  /** What airy_re_repeat applies a quantifier to. */
  predicate IsAtom(n: Node) {
    n.Char? || n.Any? || n.Class? || n.Anchor? || n.Group?
  }

  /** The ASTs the parser can build: quantifiers sit on atoms, bounds are ordered,
      anchors are `^` or `$`, and group numbers fit the capture array. */
  predicate WellFormed(n: Node) {
    match n
    case Anchor(c) => c == CARET || c == DOLLAR
    case Alt(a, b) => WellFormedList(a) && WellFormedList(b)
    case Repeat(child, lo, hi, _) => IsAtom(child) && WellFormed(child) && (hi < 0 || lo <= hi)
    case Group(gid, body) => 1 <= gid < MAX_GROUPS && WellFormedList(body)
    case _ => true
  }

  predicate WellFormedList(l: List) {
    match l case Nil => true case Cons(h, t) => WellFormed(h) && WellFormedList(t)
  }

  /** The part of the AST the compiler looks at: every concatenation list is cut after
      MAX_CONCAT nodes. */
  function Cut(n: Node): (r: Node)
    ensures WellFormed(n) ==> WellFormed(r)
    ensures IsAtom(r) == IsAtom(n)
  {
    match n
    case Alt(a, b) => Alt(CutList(a, MAX_CONCAT), CutList(b, MAX_CONCAT))
    case Repeat(child, lo, hi, greedy) => Repeat(Cut(child), lo, hi, greedy)
    case Group(gid, body) => Group(gid, CutList(body, MAX_CONCAT))
    case _ => n
  }

  function CutList(l: List, room: nat): (r: List)
    ensures WellFormedList(l) ==> WellFormedList(r)
  {
    if l.Nil? || room == 0 then Nil else Cons(Cut(l.head), CutList(l.tail, room - 1))
  }

  /** No concatenation list is longer than the compiler's buffer. */
  predicate Short(n: Node)
    decreases n, 0
  {
    match n
    case Alt(a, b) => ShortList(a) && ShortList(b)
    case Repeat(child, _, _, _) => Short(child)
    case Group(_, body) => ShortList(body)
    case _ => true
  }

  predicate ShortList(l: List)
    decreases l, 1
  {
    Length(l) <= MAX_CONCAT && ShortNodes(l)
  }

  predicate ShortNodes(l: List)
    decreases l, 0
  {
    match l case Nil => true case Cons(h, t) => Short(h) && ShortNodes(t)
  }

  lemma {:induction false} CutShort(n: Node)
    requires Short(n)
    ensures Cut(n) == n
  {
    match n
    case Alt(a, b) => CutShortList(a, MAX_CONCAT); CutShortList(b, MAX_CONCAT);
    case Repeat(child, _, _, _) => CutShort(child);
    case Group(_, body) => CutShortList(body, MAX_CONCAT);
    case _ =>
  }

  lemma {:induction false} CutShortList(l: List, room: nat)
    requires Length(l) <= room && ShortNodes(l)
    ensures CutList(l, room) == l
  {
    match l
    case Nil =>
    case Cons(h, t) => CutShort(h); CutShortList(t, room - 1);
  }

  lemma {:induction false} UncutShort(n: Node)
    requires Cut(n) == n
    ensures Short(n)
  {
    match n
    case Alt(a, b) => UncutShortList(a, MAX_CONCAT); UncutShortList(b, MAX_CONCAT);
    case Repeat(child, _, _, _) => UncutShort(child);
    case Group(_, body) => UncutShortList(body, MAX_CONCAT);
    case _ =>
  }

  lemma {:induction false} UncutShortList(l: List, room: nat)
    requires CutList(l, room) == l
    ensures Length(l) <= room && ShortNodes(l)
  {
    match l
    case Nil =>
    case Cons(h, t) => UncutShort(h); UncutShortList(t, room - 1);
  }

  /** The compiler sees the whole tree exactly when every list fits its buffer. */
  lemma UncutIffShort(l: List)
    ensures CutList(l, MAX_CONCAT) == l <==> ShortList(l)
  {
    if CutList(l, MAX_CONCAT) == l { UncutShortList(l, MAX_CONCAT); }
    if ShortList(l) { CutShortList(l, MAX_CONCAT); }
  }
}
