/**
 `airy_re_regcomp` and `airy_re_regexec` together (utils/compat/airy_regex.c): from the text of
 a pattern to the answer about a string.
 */
module RegexApi {
  import opened Options
  import opened RegexSyntax
  import opened RegexGrammar
  import opened RegexMeaning
  import opened RegexProgram
  import opened RegexEncoding
  import opened RegexLinear
  import RegexParse
  import RegexCompile
  import opened RegexDepth
  import opened RegexEngine
  import opened RegexCaptures

  const REG_EXTENDED: bv32 := 1
  const REG_NOSUB: bv32 := 2

  datatype Regex = Regex(prog: Prog, entry: int, nsub: nat)

  predicate FlagsOk(cflags: bv32) {
    cflags & !(REG_EXTENDED | REG_NOSUB) == 0
  }

  /** The pattern parses to a tree and what the compiler sees of the tree compiles. */
  predicate Compilable(pattern: seq<Byte>) {
    var r := Alternation(pattern, 0, 0);
    r.Gave? && r.list.Cons? && CompilesList(CutList(r.list, MAX_CONCAT), true)
  }

  /** `airy_re_regcomp` */
  method Regcomp(pattern: seq<Byte>, cflags: bv32) returns (r: Option<Regex>)
    ensures r.Some? == (FlagsOk(cflags) && Compilable(pattern))
    ensures r.Some? ==> Runnable(r.value.prog) && 0 <= r.value.entry < |r.value.prog.insts|
    ensures r.Some? ==>
              EncodesList(r.value.prog, r.value.entry, NULL, CutList(Alternation(pattern, 0, 0).list, MAX_CONCAT))
    ensures r.Some? ==> r.value.nsub == Alternation(pattern, 0, 0).groups + 1
  {
    hide Alternation, Runnable, EncodesList, CompilesList, CutList, FlagsOk, RegexCompile.Grown;
    var ok := FlagsOk(cflags);
    if !ok {
      return None;
    }
    var parser := new RegexParse.Parser(pattern);
    var root := parser.ParseAlt();
    if root.Nil? || parser.error {
      return None;
    }
    var co := new RegexCompile.Compiler();
    var entry := co.CompileSeq(root, NULL);
    if entry == NULL || co.error {
      return None;
    }
    r := Some(Regex(Prog(co.insts, co.tables), entry, parser.ngroups + 1));
  }

  /**
   Any pattern that spells a compilable tree with short lists is accepted, and searching a string
   for it finds the leftmost start where the tree matches, reports its first derivation's
   captures, or finds that there is none. It answers -1 exactly when it meets a start where the
   tree overflows the depth cap before any match; a tree that is cheap for the string never does.
   */
  method Search(pattern: seq<Byte>, text: seq<Byte>, nmatch: nat, pmatch: array?<Span>, ghost l: List,
                ghost groups: nat)
    returns (rc: int, ghost start: nat)
    requires l.Cons? && SpellsAlt(l, pattern, 0, |pattern|, 0, groups) && ShortList(l) && CompilesList(l, true)
    requires forall k :: 0 <= k < |text| ==> text[k] != 0
    requires pmatch != null ==> nmatch <= pmatch.Length
    modifies pmatch
    ensures rc != 0 && pmatch != null ==> pmatch[..] == old(pmatch[..])
    ensures pmatch != null ==>
              forall g :: (MAX_GROUPS <= g || nmatch <= g) && 0 <= g < pmatch.Length ==> pmatch[g] == old(pmatch[g])
    ensures WellFormedList(l) && (rc == 0 || rc == REG_NOMATCH || rc == -1)
    ensures rc == REG_NOMATCH ==> forall i :: 0 <= i <= |text| ==> NoMatchAt(l, text, i)
    ensures rc != REG_NOMATCH ==> start <= |text| && forall i :: 0 <= i < start ==> NoMatchAt(l, text, i)
    ensures rc == 0 ==>
              exists r :: FirstMatch(l, Input(text, start), r) && (pmatch != null ==> Reported(pmatch[..nmatch], r))
    ensures rc == 0 && pmatch != null ==> ReportsGroups(pmatch[..nmatch], l, Input(text, start))
    ensures rc == -1 ==> Overflows(l, Input(text, start))
    ensures rc == 0 ==> !Overflows(l, Input(text, start))
    ensures forall i :: 0 <= i < (if rc == REG_NOMATCH then |text| + 1 else start) ==> !Overflows(l, Input(text, i))
    ensures Cheap(l, |text|) ==> rc != -1
  {
    hide Overflows, Cheap, SpellsAlt, Alternation, CompilesList, EncodesList, Runnable, NoMatchAt, FirstMatch;
    hide ShortList, Reported, ReportsGroups, UntangledList, MentionsList;
    ParseIffSpelled(pattern, l, |pattern|, groups);
    UncutIffShort(l);
    assert WellFormedList(l) by { ParsedWellFormed(pattern); }
    assert FlagsOk(REG_EXTENDED);
    var re := Regcomp(pattern, REG_EXTENDED);
    rc, start := Regexec(re.value.prog, re.value.entry, text, nmatch, pmatch, l);
    if rc == 0 && pmatch != null {
      ghost var r :| FirstMatch(l, Input(text, start), r) && Reported(pmatch[..nmatch], r);
      AltNumbers(l, pattern, 0, |pattern|, 0, groups, 0);
      GroupsReported(pmatch[..nmatch], l, Input(text, start), r);
    }
    if Cheap(l, |text|) {
      CheapNeverOverflows(l, Input(text, start));
    }
  }

  /** Every span handed back is (0, 0) or one that the body of its group matches. */
  ghost predicate ReportsGroups(spans: seq<Span>, l: List, inp: Input) {
    forall g: nat | g < |spans| && g < MAX_GROUPS ::
      var pair := (spans[g].so, spans[g].eo);
      pair == (0, 0) || (MentionsList(l, g) && SpannedList(l, g, inp, pair))
  }

  lemma GroupsReported(spans: seq<Span>, l: List, inp: Input, r: Spot)
    requires WellFormedList(l) && UntangledList(l) && FirstMatch(l, inp, r) && Reported(spans, r)
    ensures ReportsGroups(spans, l, inp)
  {
    hide FirstMatch, UntangledList, MentionsList, CapturedList;
    forall g: nat | g < |spans| && g < MAX_GROUPS
      ensures var pair := (spans[g].so, spans[g].eo);
              pair == (0, 0) || (MentionsList(l, g) && SpannedList(l, g, inp, pair))
    {
      CapturesMatch(l, inp, r, g);
    }
  }

  lemma ParsedWellFormed(pattern: seq<Byte>)
    requires Alternation(pattern, 0, 0).Gave?
    ensures WellFormedList(Alternation(pattern, 0, 0).list)
  {
    hide Alternation;
  }
}
