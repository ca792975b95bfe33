/**
 Event file names and the per-directory decision chain of utils/hall/hall_event.c.
 A directory is a map from names to the predecessor recorded in the event.
 */
module HallEvents {
  import opened Options
  import opened Decimal


  /** HALL_EVT_ID_MAX */
  const ID_MAX := 192
  const UINT := 0x1_0000_0000

  /** The components of an event file name. */
  datatype Parts = Parts(tenant: string, task: string, category: string, ts: string, seqText: string)

  predicate DotFree(s: string) {
    forall k :: 0 <= k < |s| ==> s[k] != '.'
  }

  predicate Component(s: string) {
    s != "" && DotFree(s)
  }

  function Join(p: Parts): string {
    p.tenant + "." + (p.task + "." + (p.category + "." + (p.ts + "." + (p.seqText + ".json"))))
  }

  /** The names the disk format allows: five dot-free, non-empty components. */
  predicate IsName(name: string, p: Parts) {
    && Component(p.tenant) && Component(p.task) && Component(p.category) && Component(p.ts) && Component(p.seqText)
    && name == Join(p)
  }

  /** The text of hall_evt_name. */
  function NameText(tenant: string, task: string, category: string, ts: string, seqNo: nat): string {
    Join(Parts(tenant, task, category, ts, PrintPadded(seqNo, 4)))
  }

  /** `%s.%s.%s.%s.%04u.json` */
  lemma NameTextIs(tenant: string, task: string, category: string, ts: string, seqNo: nat)
    ensures NameText(tenant, task, category, ts, seqNo)
         == tenant + "." + task + "." + category + "." + ts + "." + PrintPadded(seqNo, 4) + ".json"
  {
    hide PrintPadded;
  }

  /** hall_evt_name: fails rather than truncate. */
  function EventName(tenant: string, task: string, category: string, ts: string, seqNo: nat): Option<string> {
    var s := NameText(tenant, task, category, ts, seqNo);
    if |s| >= ID_MAX then None else Some(s)
  }

  // ---------------------------------------------------------------------------------
  // Parsing

  /** The first dot at or after `from`, or the end. */
  function NextDot(s: string, from: nat): (k: nat)
    requires from <= |s|
    ensures from <= k <= |s| && (k < |s| ==> s[k] == '.') && DotFree(s[from..k])
    decreases |s| - from
  {
    if from == |s| || s[from] == '.' then from
    else
      var k := NextDot(s, from + 1);
      assert forall i :: from + 1 <= i < k ==> s[i] == s[from + 1..k][i - from - 1];
      k
  }

  /** Cuts `s` at its first dot. */
  function Cut(s: string): Option<(string, string)> {
    var k := NextDot(s, 0);
    if k == |s| then None else Some((s[..k], s[k + 1..]))
  }

  lemma CutJoined(a: string, rest: string)
    requires DotFree(a)
    ensures Cut(a + "." + rest) == Some((a, rest))
  {
    var s := a + "." + rest;
    var k := NextDot(s, 0);
    assert s[|a|] == '.';
    assert forall i :: 0 <= i < k ==> s[0..k][i] == s[i];
    assert s[..|a|] == a && s[|a| + 1..] == rest;
  }

  lemma CutSound(s: string)
    requires Cut(s).Some?
    ensures DotFree(Cut(s).value.0) && s == Cut(s).value.0 + "." + Cut(s).value.1
  {
    var k := NextDot(s, 0);
    assert s[0..k] == s[..k];
  }

  /** The first `n` components and what follows them. */
  function Segments(s: string, n: nat): (r: Option<(seq<string>, string)>)
    ensures r.Some? ==> |r.value.0| == n
  {
    if n == 0 then Some(([], s))
    else
      var before := Segments(s, n - 1);
      if before.None? then None
      else
        var c := Cut(before.value.1);
        if c.None? then None else Some((before.value.0 + [c.value.0], c.value.1))
  }

  /** hall_evt_parse as a function: five non-empty components, then "json". */
  function ParseName(name: string): Option<Parts> {
    var r := Segments(name, 5);
    if r.None? || r.value.1 != "json" then None
    else
      var c := r.value.0;
      if "" in c then None else Some(Parts(c[0], c[1], c[2], c[3], c[4]))
  }

  lemma SegmentsStep(s: string, n: nat, before: seq<string>, a: string, rest: string)
    requires DotFree(a) && Segments(s, n) == Some((before, a + "." + rest))
    ensures Segments(s, n + 1) == Some((before + [a], rest))
  {
    CutJoined(a, rest);
  }

  lemma SegmentsSound(s: string, n: nat)
    requires Segments(s, n + 1).Some? && Segments(s, n).Some?
    ensures var (c, rest) := Segments(s, n + 1).value; var (b, r) := Segments(s, n).value;
            c == b + [c[n]] && DotFree(c[n]) && r == c[n] + "." + rest
  {
    CutSound(Segments(s, n).value.1);
  }

  /** The parser accepts exactly the names of the disk format and returns their components. */
  lemma ParseIffName(name: string, p: Parts)
    ensures ParseName(name) == Some(p) <==> IsName(name, p)
  {
    if IsName(name, p) {
      NameParses(name, p);
    }
    if ParseName(name) == Some(p) {
      ParseSound(name, p);
    }
  }

  lemma NameParses(name: string, p: Parts)
    requires IsName(name, p)
    ensures ParseName(name) == Some(p)
  {
    hide Segments, DotFree;
    assert Segments(name, 0) == Some(([], name)) by { SegmentsNone(name); }
    var b1 := [p.tenant];
    var b2 := b1 + [p.task];
    var b3 := b2 + [p.category];
    var b4 := b3 + [p.ts];
    assert [] + [p.tenant] == b1;
    SegmentsStep(name, 0, [], p.tenant, p.task + "." + (p.category + "." + (p.ts + "." + (p.seqText + ".json"))));
    SegmentsStep(name, 1, b1, p.task, p.category + "." + (p.ts + "." + (p.seqText + ".json")));
    SegmentsStep(name, 2, b2, p.category, p.ts + "." + (p.seqText + ".json"));
    SegmentsStep(name, 3, b3, p.ts, p.seqText + ".json");
    assert p.seqText + "." + "json" == p.seqText + ".json";
    SegmentsStep(name, 4, b4, p.seqText, "json");
  }

  lemma SegmentsNone(s: string)
    ensures Segments(s, 0) == Some(([], s))
  {
  }

  lemma {:induction false} SegmentsPrefix(s: string, n: nat, k: nat)
    requires k <= n && Segments(s, n).Some?
    ensures Segments(s, k).Some?
    decreases n
  {
    if k < n { SegmentsPrefix(s, n - 1, k); }
  }

  lemma ParseSound(name: string, p: Parts)
    requires ParseName(name) == Some(p)
    ensures IsName(name, p)
  {
    hide Segments, DotFree;
    SegmentsPrefix(name, 5, 4);
    SegmentsPrefix(name, 5, 3);
    SegmentsPrefix(name, 5, 2);
    SegmentsPrefix(name, 5, 1);
    SegmentsNone(name);
    SegmentsSound(name, 0);
    SegmentsSound(name, 1);
    SegmentsSound(name, 2);
    SegmentsSound(name, 3);
    SegmentsSound(name, 4);
    assert p.seqText + "." + "json" == p.seqText + ".json";
  }

  /** Where the n-th cut starts. */
  function Start(dots: seq<nat>, n: nat): nat
    requires n <= |dots|
  {
    if n == 0 then 0 else dots[n - 1] + 1
  }

  /** `dots` are the positions of the first dots of `s`. */
  predicate FirstDots(s: string, dots: seq<nat>) {
    forall n :: 0 <= n < |dots| ==> Start(dots, n) <= dots[n] < |s| && dots[n] == NextDot(s, Start(dots, n))
  }

  lemma {:induction false} CutSuffix(s: string, from: nat)
    requires from <= |s|
    ensures var k := NextDot(s, from);
            Cut(s[from..]) == if k == |s| then None else Some((s[from..k], s[k + 1..]))
  {
    var k := NextDot(s, from);
    if k < |s| {
      CutJoined(s[from..k], s[k + 1..]);
      assert s[from..] == s[from..k] + "." + s[k + 1..];
    } else {
      var t := s[from..];
      assert s[from..k] == t;
    }
  }

  /** The scan of hall_evt_parse for the first five dots. */
  method CollectDots(name: string) returns (dots: seq<nat>)
    ensures |dots| <= 5 && FirstDots(name, dots) && Start(dots, |dots|) <= |name|
    ensures |dots| < 5 ==> NextDot(name, Start(dots, |dots|)) == |name|
  {
    hide NextDot, FirstDots;
    dots := [];
    NoneFound(name, dots);
    var p: nat := 0;
    while p < |name| && |dots| < 5
      invariant p <= |name| && |dots| <= 5 && FirstDots(name, dots)
      invariant Start(dots, |dots|) <= p && (|dots| < 5 ==> NextDot(name, Start(dots, |dots|)) == NextDot(name, p))
    {
      ScanDot(name, p);
      if name[p] == '.' {
        DotAppended(name, dots, p);
        dots := dots + [p];
      }
      p := p + 1;
    }
    if p == |name| {
      DotAtEnd(name);
    }
  }

  lemma NoneFound(name: string, dots: seq<nat>)
    requires dots == []
    ensures FirstDots(name, dots)
  {
  }

  lemma ScanDot(name: string, p: nat)
    requires p < |name|
    ensures NextDot(name, p) == if name[p] == '.' then p else NextDot(name, p + 1)
  {
  }

  lemma DotAtEnd(name: string)
    ensures NextDot(name, |name|) == |name|
  {
  }

  lemma DotAppended(name: string, dots: seq<nat>, p: nat)
    requires FirstDots(name, dots) && Start(dots, |dots|) <= p < |name| && p == NextDot(name, Start(dots, |dots|))
    ensures FirstDots(name, dots + [p])
  {
    hide NextDot, Start;
    var t := dots + [p];
    forall n | 0 <= n < |t| ensures Start(t, n) <= t[n] < |name| && t[n] == NextDot(name, Start(t, n)) {
      StartPrefix(dots, p, n);
    }
  }

  lemma StartPrefix(dots: seq<nat>, p: nat, n: nat)
    requires n <= |dots|
    ensures Start(dots + [p], n) == Start(dots, n)
  {
  }

  /** hall_evt_parse: collects the first five dots, then cuts between them. */
  method Parse(name: string) returns (r: Option<Parts>)
    ensures r == ParseName(name)
  {
    hide NextDot, Segments;
    var dots := CollectDots(name);
    SegmentsByDots(name, dots, |dots|);
    if |dots| != 5 {
      SegmentsEnd(name, dots);
      return None;
    }
    DotJson(name, dots[4]);
    if name[dots[4]..] != ".json" {
      return None;
    }
    var parts := Parts(name[..dots[0]], name[dots[0] + 1..dots[1]], name[dots[1] + 1..dots[2]],
                       name[dots[2] + 1..dots[3]], name[dots[3] + 1..dots[4]]);
    ghost var c := Segments(name, 5).value.0;
    assert c[0] == parts.tenant && c[1] == parts.task && c[2] == parts.category;
    assert c[3] == parts.ts && c[4] == parts.seqText;
    if |parts.tenant| == 0 || |parts.task| == 0 || |parts.category| == 0 || |parts.ts| == 0 || |parts.seqText| == 0 {
      return None;
    }
    r := Some(parts);
  }

  /** The components between the first `k` dots. */
  predicate Pieces(name: string, dots: seq<nat>, k: nat, c: seq<string>) {
    && k <= |dots| && |c| == k
    && forall n :: 0 <= n < k ==> Start(dots, n) <= dots[n] < |name| && c[n] == name[Start(dots, n)..dots[n]]
  }

  lemma NoPieces(name: string, dots: seq<nat>)
    ensures Pieces(name, dots, 0, []) && Segments(name, 0) == Some(([], name))
  {
  }

  lemma OnePiece(name: string, dots: seq<nat>, k: nat, c: seq<string>)
    requires Pieces(name, dots, k, c) && k < |dots| && Start(dots, k) <= dots[k] < |name|
    ensures Pieces(name, dots, k + 1, c + [name[Start(dots, k)..dots[k]]])
  {
    hide Start;
  }

  /** Cutting at the dots found gives the components. */
  lemma {:induction false} SegmentsByDots(name: string, dots: seq<nat>, k: nat)
    requires FirstDots(name, dots) && k <= |dots|
    ensures Start(dots, k) <= |name| && Segments(name, k).Some?
    ensures Segments(name, k).value.1 == name[Start(dots, k)..] && Pieces(name, dots, k, Segments(name, k).value.0)
    decreases k
  {
    hide NextDot, Cut, Segments, FirstDots, Pieces;
    if k == 0 {
      NoPieces(name, dots);
      assert name[0..] == name;
    } else {
      SegmentsByDots(name, dots, k - 1);
      DotAt(name, dots, k - 1);
      CutSuffix(name, Start(dots, k - 1));
      OneMore(name, k - 1);
      OnePiece(name, dots, k - 1, Segments(name, k - 1).value.0);
    }
  }

  lemma DotAt(name: string, dots: seq<nat>, n: nat)
    requires FirstDots(name, dots) && n < |dots|
    ensures Start(dots, n) <= dots[n] < |name| && dots[n] == NextDot(name, Start(dots, n))
    ensures Start(dots, n + 1) == dots[n] + 1
  {
    hide NextDot;
  }

  lemma OneMore(name: string, n: nat)
    requires Segments(name, n).Some? && Cut(Segments(name, n).value.1).Some?
    ensures var c, r := Cut(Segments(name, n).value.1).value, Segments(name, n + 1);
            r.Some? && r.value.0 == Segments(name, n).value.0 + [c.0] && r.value.1 == c.1
  {
  }

  /** With too few dots there are too few components. */
  lemma SegmentsEnd(name: string, dots: seq<nat>)
    requires FirstDots(name, dots) && |dots| < 5 && Start(dots, |dots|) <= |name|
    requires NextDot(name, Start(dots, |dots|)) == |name|
    ensures ParseName(name).None?
  {
    hide Segments;
    if Segments(name, 5).Some? {
      SegmentsPrefix(name, 5, |dots| + 1);
      NoMoreSegments(name, dots);
    }
  }

  lemma NoMoreSegments(name: string, dots: seq<nat>)
    requires FirstDots(name, dots) && Start(dots, |dots|) <= |name| && NextDot(name, Start(dots, |dots|)) == |name|
    ensures Segments(name, |dots| + 1).None?
  {
    SegmentsByDots(name, dots, |dots|);
    CutSuffix(name, Start(dots, |dots|));
  }

  lemma DotJson(name: string, k: nat)
    requires k < |name| && name[k] == '.'
    ensures name[k..] == ".json" <==> name[k + 1..] == "json"
  {
    assert name[k..] == "." + name[k + 1..];
    assert ".json" == "." + "json";
    assert name[k + 1..] == name[k..][1..];
  }

  /** hall_evt_seq: the number in a file name, 0 for anything that is not an event name. */
  function SeqOf(name: string): nat {
    var p := ParseName(name);
    if p.None? || !AllDigits(p.value.seqText) then 0 else Value(p.value.seqText) % U64
  }

  /** A name of the format with a decimal number has that number; nothing else has one. */
  lemma SeqOfIs(name: string)
    ensures forall p :: IsName(name, p) && AllDigits(p.seqText) ==> SeqOf(name) == Places(p.seqText) % U64
    ensures (forall p :: IsName(name, p) ==> !AllDigits(p.seqText)) ==> SeqOf(name) == 0
  {
    hide ParseName, IsName, Value, Places;
    forall p | IsName(name, p) && AllDigits(p.seqText) ensures SeqOf(name) == Places(p.seqText) % U64 {
      ParseIffName(name, p);
      ValueIsPlaces(p.seqText);
    }
    if ParseName(name).Some? {
      ParseIffName(name, ParseName(name).value);
    }
  }

  method EventSeq(name: string) returns (v: nat)
    ensures v == SeqOf(name)
    ensures forall p :: IsName(name, p) && AllDigits(p.seqText) ==> v == Places(p.seqText) % U64
    ensures (forall p :: IsName(name, p) ==> !AllDigits(p.seqText)) ==> v == 0
  {
    SeqOfIs(name);
    var parts := Parse(name);
    if parts.None? {
      return 0;
    }
    var text := parts.value.seqText;
    assert text[0..|text|] == text;
    var ok, n := ParseDigits(text, 0, |text|);
    v := if ok then n else 0;
  }

  // ---------------------------------------------------------------------------------
  // Names written are names read

  function Dots(s: string): nat {
    if s == "" then 0 else Dots(s[..|s| - 1]) + if s[|s| - 1] == '.' then 1 else 0
  }

  lemma {:induction false} DotsConcat(a: string, b: string)
    ensures Dots(a + b) == Dots(a) + Dots(b)
    decreases |b|
  {
    if b == "" {
      assert a + b == a;
    } else {
      DotsConcat(a, b[..|b| - 1]);
      assert (a + b)[..|a + b| - 1] == a + b[..|b| - 1];
    }
  }

  lemma {:induction false} DotFreeIffNone(s: string)
    ensures DotFree(s) <==> Dots(s) == 0
    decreases |s|
  {
    if s != "" {
      DotFreeIffNone(s[..|s| - 1]);
    }
  }

  lemma DotsJoin(p: Parts)
    ensures Dots(Join(p)) == 5 + Dots(p.tenant) + Dots(p.task) + Dots(p.category) + Dots(p.ts) + Dots(p.seqText)
  {
    DotsConcat(p.seqText, ".json");
    JsonDots();
    var r4 := p.seqText + ".json";
    DotStep(p.ts, r4);
    DotStep(p.category, p.ts + "." + r4);
    DotStep(p.task, p.category + "." + (p.ts + "." + r4));
    DotStep(p.tenant, p.task + "." + (p.category + "." + (p.ts + "." + r4)));
  }

  lemma JsonDots()
    ensures Dots(".json") == 1
  {
    DotsConcat(".", "json");
    DotFreeIffNone("json");
    assert ".json" == "." + "json";
    assert "."[..0] == "";
  }

  lemma DotStep(a: string, b: string)
    ensures Dots(a + "." + b) == Dots(a) + 1 + Dots(b)
  {
    DotsConcat(a + ".", b);
    DotsConcat(a, ".");
    assert "."[..0] == "";
  }

  /** A written name is read back, with its number, exactly when task and category contain
      no dot.  With a dot in either, the reader takes it for a foreign file. */
  lemma NameReadBack(tenant: string, task: string, category: string, ts: string, seqNo: nat)
    requires Component(tenant) && Component(ts) && task != "" && category != "" && seqNo < UINT
    ensures var p := Parts(tenant, task, category, ts, PrintPadded(seqNo, 4));
            var name := NameText(tenant, task, category, ts, seqNo);
            && (DotFree(task) && DotFree(category) ==> ParseName(name) == Some(p) && SeqOf(name) == seqNo)
            && (!DotFree(task) || !DotFree(category) ==> ParseName(name) == None && SeqOf(name) == 0)
  {
    hide ParseName, PrintPadded, DotFree, Join;
    var p := Parts(tenant, task, category, ts, PrintPadded(seqNo, 4));
    DigitsDotFree(p.seqText);
    PaddedValue(seqNo, 4);
    if DotFree(task) && DotFree(category) {
      ParseIffName(Join(p), p);
    } else {
      DottedRefused(p);
    }
  }

  /** Five components have four dots between them and one before the suffix, so no other dot may occur. */
  lemma DottedRefused(p: Parts)
    requires !DotFree(p.task) || !DotFree(p.category)
    ensures ParseName(Join(p)) == None
  {
    hide ParseName, Join, DotFree, Dots;
    DotFreeIffNone(p.task);
    DotFreeIffNone(p.category);
    DotsJoin(p);
    if ParseName(Join(p)).Some? {
      var q := ParseName(Join(p)).value;
      ParseIffName(Join(p), q);
      DotsJoin(q);
      NoDots(q);
    }
  }

  lemma NoDots(q: Parts)
    requires DotFree(q.tenant) && DotFree(q.task) && DotFree(q.category) && DotFree(q.ts) && DotFree(q.seqText)
    ensures Dots(q.tenant) == Dots(q.task) == Dots(q.category) == Dots(q.ts) == Dots(q.seqText) == 0
  {
    DotFreeIffNone(q.tenant);
    DotFreeIffNone(q.task);
    DotFreeIffNone(q.category);
    DotFreeIffNone(q.ts);
    DotFreeIffNone(q.seqText);
  }

  lemma DigitsDotFree(s: string)
    requires AllDigits(s)
    ensures DotFree(s)
  {
  }

  // ---------------------------------------------------------------------------------
  // The decision chain of one directory

  /** One directory entry: the larger number and its file, the number kept in 32 bits. */
  function ScanStep(best: (nat, string), name: string): (nat, string) {
    if SeqOf(name) > best.0 then (SeqOf(name) % UINT, name) else best
  }

  function ScanOf(listing: seq<string>): (nat, string) {
    if listing == [] then (0, "") else ScanStep(ScanOf(listing[..|listing| - 1]), listing[|listing| - 1])
  }

  /** evt_dir_scan: with numbers below 2^32 - 1, the next number, and the file with the highest
      number as predecessor; a directory without readable event names yields 1 and no predecessor. */
  method DirScan(listing: seq<string>) returns (next: nat, prev: string)
    ensures next == (ScanOf(listing).0 + 1) % UINT && prev == ScanOf(listing).1
    ensures (forall k :: 0 <= k < |listing| ==> SeqOf(listing[k]) == 0) ==> next == 1 && prev == ""
    ensures (forall k :: 0 <= k < |listing| ==> SeqOf(listing[k]) < UINT - 1) ==>
              && 1 <= next < UINT && (forall k :: 0 <= k < |listing| ==> SeqOf(listing[k]) < next)
              && (next == 1 ==> prev == "") && (next > 1 ==> prev in listing && SeqOf(prev) == next - 1)
  {
    hide SeqOf;
    var max: nat := 0;
    prev := "";
    var i := 0;
    while i < |listing|
      invariant 0 <= i <= |listing| && (max, prev) == ScanOf(listing[..i]) && max < UINT
    {
      var n := EventSeq(listing[i]);
      assert listing[..i + 1][..i] == listing[..i];
      if n != 0 {
        if n > max {
          max := n % UINT;
          prev := listing[i];
        }
      }
      i := i + 1;
    }
    assert listing[..|listing|] == listing;
    next := (max + 1) % UINT;
    ScanHighest(listing);
    ScanForeign(listing);
  }

  lemma {:induction false} ScanHighest(listing: seq<string>)
    ensures (forall k :: 0 <= k < |listing| ==> SeqOf(listing[k]) < UINT - 1) ==>
              var (max, prev) := ScanOf(listing);
              && max < UINT - 1 && (forall k :: 0 <= k < |listing| ==> SeqOf(listing[k]) <= max)
              && (max == 0 ==> prev == "") && (max > 0 ==> prev in listing && SeqOf(prev) == max)
    decreases |listing|
  {
    hide SeqOf;
    if listing != [] {
      var front := listing[..|listing| - 1];
      assert forall k :: 0 <= k < |front| ==> front[k] == listing[k];
      ScanHighest(front);
    }
  }

  lemma {:induction false} ScanForeign(listing: seq<string>)
    ensures (forall k :: 0 <= k < |listing| ==> SeqOf(listing[k]) == 0) ==> ScanOf(listing) == (0, "")
    decreases |listing|
  {
    hide SeqOf;
    if listing != [] {
      var front := listing[..|listing| - 1];
      assert forall k :: 0 <= k < |front| ==> front[k] == listing[k];
      ScanForeign(front);
    }
  }

  /** Events are numbered 1, 2, ... in the order of writing, each naming its predecessor,
      and the directory holds nothing else. */
  ghost predicate Chain(files: map<string, string>, history: seq<string>) {
    && (forall i :: 0 <= i < |history| ==> Placed(files, history, i))
    && (forall name :: name in files ==> name in history)
  }

  predicate Placed(files: map<string, string>, history: seq<string>, i: nat)
    requires i < |history|
  {
    && history[i] in files && SeqOf(history[i]) == i + 1
    && files[history[i]] == if i == 0 then "" else history[i - 1]
  }

  lemma ChainAppend(files: map<string, string>, history: seq<string>, name: string, prev: string)
    requires Chain(files, history) && SeqOf(name) == |history| + 1
    requires prev == if history == [] then "" else history[|history| - 1]
    ensures Chain(files[name := prev], history + [name])
  {
    var f, h := files[name := prev], history + [name];
    forall i | 0 <= i < |h| ensures Placed(f, h, i) {
      if i < |history| {
        assert Placed(files, history, i);
      }
    }
    forall n | n in f ensures n in h {
      if n != name { assert n in history; }
    }
  }

  /** The scan of such a directory finds the last event. */
  lemma ScanContinues(files: map<string, string>, history: seq<string>, listing: seq<string>, seqNo: nat, prev: string)
    requires Chain(files, history) && forall name :: name in listing <==> name in files
    requires forall k :: 0 <= k < |listing| ==> SeqOf(listing[k]) < seqNo
    requires seqNo == 1 ==> prev == ""
    requires seqNo > 1 ==> prev in listing && SeqOf(prev) == seqNo - 1
    requires seqNo >= 1
    ensures seqNo == |history| + 1 && prev == if history == [] then "" else history[|history| - 1]
  {
    hide SeqOf;
    assert seqNo > 1 ==> prev in files;
    if history != [] {
      var last := history[|history| - 1];
      assert Placed(files, history, |history| - 1);
      assert last in listing;
      var k :| 0 <= k < |listing| && listing[k] == last;
      assert SeqOf(last) < seqNo;
      assert prev in history;
      var j :| 0 <= j < |history| && history[j] == prev;
      assert Placed(files, history, j);
    }
  }

  /** One (task, category) directory whose writers are serialized. */
  class EventDir {
    const tenant: string
    const task: string
    const category: string
    /** Event names and the `prev_file` each event records. */
    var files: map<string, string>
    /** The names in the order of writing. */
    ghost var history: seq<string>

    ghost predicate Valid()
      reads this
    {
      Component(tenant) && Component(task) && Component(category) && Chain(files, history)
    }

    constructor (tenant: string, task: string, category: string)
      requires Component(tenant) && Component(task) && Component(category)
      ensures Valid() && history == [] && files == map[]
      ensures this.tenant == tenant && this.task == task && this.category == category
    {
      this.tenant, this.task, this.category := tenant, task, category;
      files, history := map[], [];
    }

    /** The numbering half of hall_evt_write; `listing` is the order readdir happens to use. */
    method Write(ts: string, listing: seq<string>) returns (rc: int)
      requires Valid() && Component(ts) && |history| < UINT - 2
      requires forall name :: name in listing <==> name in files
      modifies this
      ensures Valid()
      ensures rc == 0 ==> history == old(history) + [NameText(tenant, task, category, ts, |old(history)| + 1)]
      ensures rc != 0 ==> rc == -1 && history == old(history) && files == old(files)
      ensures rc == 0 <==> |NameText(tenant, task, category, ts, |old(history)| + 1)| < ID_MAX
    {
      hide SeqOf, NameText, DotFree;
      forall k | 0 <= k < |listing| ensures SeqOf(listing[k]) <= |history| {
        assert listing[k] in listing && listing[k] in history;
        var j :| 0 <= j < |history| && history[j] == listing[k];
        assert Placed(files, history, j);
      }
      var seqNo, prev := DirScan(listing);
      ScanContinues(files, history, listing, seqNo, prev);
      var name := EventName(tenant, task, category, ts, seqNo);
      if name.None? {
        return -1;
      }
      NameReadBack(tenant, task, category, ts, seqNo);
      ChainAppend(files, history, name.value, prev);
      files := files[name.value := prev];
      history := history + [name.value];
      rc := 0;
    }
  }
}
