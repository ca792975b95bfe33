/**
 Prefix queries on a loaded dictionary (utils/ime/airy_ime.c): binary search for the first key
 not below the query, a scan over the keys it is a prefix of, and an insertion sort.
 */
module ImeQuery {
  import opened Options
  import opened Bits
  import opened ImeFormat
  import ImeWriter
  import Sorting

  const QUERY_CAP := 4096

  // ----- strcmp -----

  predicate Less(a: Text, b: Text) {
    b != [] && (a == [] || a[0] < b[0] || (a[0] == b[0] && Less(a[1..], b[1..])))
  }

  lemma {:induction false} LessTransitive(a: Text, b: Text, c: Text)
    ensures Less(a, b) && Less(b, c) ==> Less(a, c)
    decreases |a|
  {
    if a != [] && b != [] && c != [] {
      LessTransitive(a[1..], b[1..], c[1..]);
    }
  }

  lemma {:induction false} LessTotal(a: Text, b: Text)
    ensures !(Less(a, b) && Less(b, a)) && (Less(a, b) || a == b || Less(b, a)) && !Less(a, a)
    decreases |a|
  {
    if a != [] {
      LessTotal(a[1..], a[1..]);
    }
    if a != [] && b != [] {
      LessTotal(a[1..], b[1..]);
      assert a == [a[0]] + a[1..] && b == [b[0]] + b[1..];
    }
  }

  /** The texts agree up to `n`, where `a` ends or has the smaller byte. */
  predicate FirstDiffer(a: Text, b: Text, n: nat) {
    n <= |a| && n < |b| && (forall k :: 0 <= k < n ==> a[k] == b[k]) && (n == |a| || a[n] < b[n])
  }

  /** `a` stands below `b` in byte order: a proper prefix of it, or smaller where they first differ. */
  ghost predicate Below(a: Text, b: Text) {
    exists n: nat :: FirstDiffer(a, b, n)
  }

  lemma BelowRest(a: Text, b: Text)
    requires a != [] && b != [] && a[0] == b[0]
    ensures Below(a, b) <==> Below(a[1..], b[1..])
  {
    if n: nat :| FirstDiffer(a, b, n) {
      assert FirstDiffer(a[1..], b[1..], n - 1);
    }
    if n: nat :| FirstDiffer(a[1..], b[1..], n) {
      forall k | 0 <= k < n + 1 ensures a[k] == b[k] {
        if k > 0 { assert a[1..][k - 1] == b[1..][k - 1]; }
      }
      assert FirstDiffer(a, b, n + 1);
    }
  }

  lemma {:induction false} LessIsBelow(a: Text, b: Text)
    ensures Less(a, b) <==> Below(a, b)
    decreases |a|
  {
    if a != [] && b != [] && a[0] == b[0] {
      LessIsBelow(a[1..], b[1..]);
      BelowRest(a, b);
    } else if b != [] && (a == [] || a[0] < b[0]) {
      assert FirstDiffer(a, b, 0);
    }
  }

  /** Texts with a prefix are not below it. */
  lemma {:induction false} PrefixNotBelow(q: Text, s: Text)
    requires q <= s
    ensures !Less(s, q)
    decreases |q|
  {
    if q != [] {
      PrefixNotBelow(q[1..], s[1..]);
    }
  }

  /** Past the last text with prefix `q` no other one follows. */
  lemma {:induction false} PrefixInterval(q: Text, s: Text, t: Text)
    requires !Less(s, q) && !(q <= s) && Less(s, t)
    ensures !(q <= t)
    decreases |q|
  {
    if q <= t && q[0] == s[0] {
      assert q == [q[0]] + q[1..] && s == [s[0]] + s[1..];
      PrefixInterval(q[1..], s[1..], t[1..]);
    }
  }

  // ----- The dictionary behind a loaded file -----

  /** Keys in strictly ascending order. */
  predicate InKeyOrder(dict: seq<Entry>) {
    forall i, j :: 0 <= i < j < |dict| ==> Less(dict[i].key, dict[j].key)
  }

  /** No text holds a terminator. */
  predicate Plain(dict: seq<Entry>) {
    && (forall i :: 0 <= i < |dict| ==> 0 !in dict[i].key)
    && (forall i, k :: 0 <= i < |dict| && 0 <= k < |dict[i].cands| ==> 0 !in dict[i].cands[k].text)
  }

  predicate Holds(ime: Ime, dict: seq<Entry>) {
    Image(ime.file, dict) && ime.count == |dict| && ime.poolOff == U32At(ime.file, 20)
  }

  function Key(ime: Ime, i: nat): Text
    requires HEADER_SIZE + ENTRY_SIZE * (i + 1) <= |ime.file|
  {
    var p := ime.poolOff + U32At(ime.file, HEADER_SIZE + ENTRY_SIZE * i);
    if p <= |ime.file| then TextAt(ime.file, p) else []
  }

  lemma EntryHolds(ime: Ime, dict: seq<Entry>, i: nat)
    requires Holds(ime, dict) && i < |dict|
    ensures HEADER_SIZE + ENTRY_SIZE * |dict| <= ime.poolOff <= |ime.file|
    ensures HEADER_SIZE + ENTRY_SIZE * (i + 1) <= |ime.file|
    ensures EntryIs(ime.file[HEADER_SIZE + ENTRY_SIZE * i..HEADER_SIZE + ENTRY_SIZE * (i + 1)],
                    ime.file[HEADER_SIZE + ENTRY_SIZE * |dict|..ime.poolOff], ime.file[ime.poolOff..], dict[i])
  {
    hide EntryIs, U32At;
    EntryInFile(ime.file, HEADER_SIZE + ENTRY_SIZE * |dict|, i);
  }

  lemma EntryInFile(f: seq<Byte>, end: nat, i: nat)
    requires HEADER_SIZE + ENTRY_SIZE * (i + 1) <= end <= |f|
    ensures EntryAt(f[HEADER_SIZE..end], i) == f[HEADER_SIZE + ENTRY_SIZE * i..HEADER_SIZE + ENTRY_SIZE * (i + 1)]
  {
    SliceOfSlice(f, HEADER_SIZE, end, ENTRY_SIZE * i, ENTRY_SIZE * (i + 1));
  }

  lemma StringInFile(f: seq<Byte>, from: nat, p: nat, s: Text)
    requires from <= |f| && StringAt(f[from..], p, s)
    ensures StringAt(f, from + p, s)
  {
    assert f[from..][p..p + |s|] == f[from + p..from + p + |s|];
  }

  /** `airy_ime_entry_py` reads the key that was written. */
  lemma EntryKey(rec: seq<Byte>, blob: seq<Byte>, pool: seq<Byte>, e: Entry)
    requires EntryIs(rec, blob, pool, e)
    ensures |rec| == ENTRY_SIZE && StringAt(pool, U32At(rec, 0), e.key)
  {
  }

  lemma KeyRead(ime: Ime, dict: seq<Entry>, i: nat)
    requires Holds(ime, dict) && Plain(dict) && i < |dict|
    ensures HEADER_SIZE + ENTRY_SIZE * (i + 1) <= |ime.file| && Key(ime, i) == dict[i].key
  {
    hide EntryIs, Image, StringAt, U32At;
    EntryHolds(ime, dict, i);
    var f := ime.file;
    var rec := f[HEADER_SIZE + ENTRY_SIZE * i..HEADER_SIZE + ENTRY_SIZE * (i + 1)];
    EntryKey(rec, f[HEADER_SIZE + ENTRY_SIZE * |dict|..ime.poolOff], f[ime.poolOff..], dict[i]);
    SliceU32(f, HEADER_SIZE + ENTRY_SIZE * i, HEADER_SIZE + ENTRY_SIZE * (i + 1), 0);
    StringInFile(f, ime.poolOff, U32At(rec, 0), dict[i].key);
    StringRead(f, ime.poolOff + U32At(rec, 0), dict[i].key);
  }

  /** `airy_ime_lower_bound` */
  method LowerBound(ime: Ime, key: Text, ghost dict: seq<Entry>) returns (lo: nat)
    requires Holds(ime, dict) && Plain(dict) && InKeyOrder(dict)
    ensures lo <= |dict|
    ensures forall i :: 0 <= i < lo ==> Less(dict[i].key, key)
    ensures forall i :: lo <= i < |dict| ==> !Less(dict[i].key, key)
  {
    hide Image, Key, Less, Plain;
    lo := 0;
    var hi := ime.count;
    while lo < hi
      invariant 0 <= lo <= hi <= |dict|
      invariant forall i :: 0 <= i < lo ==> Less(dict[i].key, key)
      invariant forall i :: hi <= i < |dict| ==> !Less(dict[i].key, key)
    {
      var mid := lo + (hi - lo) / 2;
      KeyRead(ime, dict, mid);
      if Less(Key(ime, mid), key) {
        forall i | 0 <= i < mid ensures Less(dict[i].key, key) {
          LessTransitive(dict[i].key, dict[mid].key, key);
        }
        lo := mid + 1;
      } else {
        forall i | mid < i < |dict| ensures !Less(dict[i].key, key) {
          LessTransitive(dict[mid].key, dict[i].key, key);
        }
        hi := mid;
      }
    }
  }

  // ----- Answers -----

  /** The candidates of the entries whose key starts with `q`, in the order of the dictionary. */
  function Matching(dict: seq<Entry>, q: Text): seq<Cand> {
    if dict == [] then []
    else Matching(dict[..|dict| - 1], q) + (if q <= dict[|dict| - 1].key then dict[|dict| - 1].cands else [])
  }

  /** A candidate matches exactly when it belongs to an entry whose key agrees with the query byte by byte. */
  ghost predicate Matches(dict: seq<Entry>, q: Text, c: Cand) {
    exists i :: 0 <= i < |dict| && c in dict[i].cands && |q| <= |dict[i].key| &&
                forall k :: 0 <= k < |q| ==> dict[i].key[k] == q[k]
  }

  lemma {:induction false} MatchingHas(dict: seq<Entry>, q: Text, c: Cand)
    ensures c in Matching(dict, q) <==> Matches(dict, q, c)
    decreases |dict|
  {
    if dict != [] {
      var front, last := dict[..|dict| - 1], dict[|dict| - 1];
      MatchingHas(front, q, c);
      assert forall i :: 0 <= i < |front| ==> front[i] == dict[i];
      assert q <= last.key <==> |q| <= |last.key| && forall k :: 0 <= k < |q| ==> last.key[k] == q[k];
      if Matches(dict, q, c) && !Matches(front, q, c) {
        assert c in last.cands && q <= last.key;
      }
    }
  }

  function First(s: seq<Cand>, n: int): seq<Cand> {
    if n <= 0 then [] else if |s| <= n then s else s[..n]
  }

  /** Higher frequency first, then smaller text. */
  predicate Before(a: Cand, b: Cand) {
    a.freq > b.freq || (a.freq == b.freq && Less(a.text, b.text))
  }

  lemma BeforeIsStrict()
    ensures Sorting.StrictOrder(Before)
  {
    forall x: Cand, y: Cand ensures Before(x, y) ==> !Before(y, x) {
      LessTotal(x.text, y.text);
    }
    forall x: Cand, y: Cand, z: Cand | !Before(x, y) && !Before(y, z) ensures !Before(x, z) {
      LessTotal(x.text, y.text);
      LessTotal(y.text, z.text);
      LessTotal(x.text, z.text);
      LessTransitive(z.text, y.text, x.text);
    }
  }

  /** The more frequent candidate comes first; of equally frequent ones the one whose text is not above. */
  ghost predicate Ordered(ranked: seq<Cand>) {
    forall i, j :: 0 <= i < j < |ranked| ==>
      || ranked[i].freq > ranked[j].freq
      || (ranked[i].freq == ranked[j].freq && !Below(ranked[j].text, ranked[i].text))
  }

  lemma SortedIsOrdered(ranked: seq<Cand>)
    ensures Sorting.Sorted(ranked, Before) <==> Ordered(ranked)
  {
    hide Less, Below;
    forall i, j | 0 <= i < j < |ranked|
      ensures !Before(ranked[j], ranked[i]) <==>
                || ranked[i].freq > ranked[j].freq
                || (ranked[i].freq == ranked[j].freq && !Below(ranked[j].text, ranked[i].text))
    {
      LessIsBelow(ranked[j].text, ranked[i].text);
    }
  }

  /** The candidates `s` in the order of an answer. */
  ghost predicate Ranks(ranked: seq<Cand>, s: seq<Cand>) {
    Sorting.Sorted(ranked, Before) && multiset(ranked) == multiset(s)
  }

  /** There is only one such order, so an answer is determined by the candidates that match. */
  lemma {:induction false} RankedOnce(a: seq<Cand>, b: seq<Cand>)
    requires Sorting.Sorted(a, Before) && Sorting.Sorted(b, Before) && multiset(a) == multiset(b)
    ensures a == b
    decreases |a|
  {
    assert |a| == |multiset(a)| == |multiset(b)| == |b|;
    if a != [] {
      hide Before, Sorting.Sorted, Less;
      assert a[0] in multiset(b) && b[0] in multiset(a);
      SmallestFirst(a, b[0]);
      SmallestFirst(b, a[0]);
      SameRank(a[0], b[0]);
      RestSame(a, b);
      RestSorted(a);
      RestSorted(b);
      RankedOnce(a[1..], b[1..]);
      assert a == [a[0]] + a[1..] && b == [b[0]] + b[1..];
    }
  }

  lemma SameRank(x: Cand, y: Cand)
    requires !Before(x, y) && !Before(y, x)
    ensures x == y
  {
    LessTotal(x.text, y.text);
  }

  lemma RestSame(a: seq<Cand>, b: seq<Cand>)
    requires a != [] && b != [] && a[0] == b[0] && multiset(a) == multiset(b)
    ensures multiset(a[1..]) == multiset(b[1..])
  {
    assert a == [a[0]] + a[1..] && b == [b[0]] + b[1..];
    assert multiset(a[1..]) == multiset(a) - multiset{a[0]};
    assert multiset(b[1..]) == multiset(b) - multiset{b[0]};
  }

  lemma RestSorted(a: seq<Cand>)
    requires a != [] && Sorting.Sorted(a, Before)
    ensures Sorting.Sorted(a[1..], Before)
  {
    hide Before;
  }

  lemma SmallestFirst(a: seq<Cand>, c: Cand)
    requires a != [] && Sorting.Sorted(a, Before) && c in a
    ensures !Before(c, a[0])
  {
    LessTotal(c.text, c.text);
    var i :| 0 <= i < |a| && a[i] == c;
  }

  // ----- Ties -----

  /** The candidates of one frequency, in order. */
  function OfFreq(s: seq<Cand>, f: nat): (r: seq<Cand>)
    ensures forall c :: c in r <==> c in s && c.freq == f
  {
    if s == [] then []
    else OfFreq(s[..|s| - 1], f) + (if s[|s| - 1].freq == f then [s[|s| - 1]] else [])
  }

  /** Candidates of equal frequency keep the order in which they were found. */
  ghost predicate KeepsTies(ranked: seq<Cand>, found: seq<Cand>) {
    forall f: nat :: OfFreq(ranked, f) == OfFreq(found, f)
  }

  /** Candidates of frequency `f` stand in the order of their texts. */
  predicate TextOrder(s: seq<Cand>, f: nat) {
    forall i, j :: 0 <= i < j < |s| && s[i].freq == f == s[j].freq ==> !Less(s[j].text, s[i].text)
  }

  lemma {:induction false} OfFreqSorted(s: seq<Cand>, f: nat)
    ensures Sorting.Sorted(OfFreq(s, f), Before) <==> TextOrder(s, f)
    decreases |s|
  {
    hide Less, TextOrder, Sorting.Sorted, OfFreq, Before;
    if s == [] {
      NoneOfFreq(f);
    } else {
      var front, last := s[..|s| - 1], s[|s| - 1];
      assert s == front + [last];
      OfFreqSorted(front, f);
      TextOrderAppend(front, last, f);
      OfFreqAppend(front, last, f);
      if last.freq == f {
        SortedAppend(OfFreq(front, f), last);
        forall x | x in front && x.freq == f ensures Before(last, x) <==> Less(last.text, x.text) {
          BeforeTied(last, x);
        }
      }
    }
  }

  lemma NoneOfFreq(f: nat)
    ensures Sorting.Sorted(OfFreq([], f), Before) && TextOrder([], f)
  {
    hide Before, Less;
  }

  lemma BeforeTied(a: Cand, b: Cand)
    requires a.freq == b.freq
    ensures Before(a, b) <==> Less(a.text, b.text)
  {
  }

  lemma OfFreqAppend(s: seq<Cand>, c: Cand, f: nat)
    ensures OfFreq(s + [c], f) == if c.freq == f then OfFreq(s, f) + [c] else OfFreq(s, f)
  {
    assert (s + [c])[..|s|] == s;
  }

  lemma TextOrderAppend(s: seq<Cand>, c: Cand, f: nat)
    ensures TextOrder(s + [c], f) <==>
            TextOrder(s, f) && (c.freq == f ==> forall x :: x in s && x.freq == f ==> !Less(c.text, x.text))
  {
    hide Less;
    var t := s + [c];
    if TextOrder(t, f) {
      forall x | x in s && x.freq == f && c.freq == f ensures !Less(c.text, x.text) {
        var i :| 0 <= i < |s| && s[i] == x;
        assert t[i] == x && t[|s|] == c;
      }
      forall i, j | 0 <= i < j < |s| && s[i].freq == f == s[j].freq ensures !Less(s[j].text, s[i].text) {
        assert t[i] == s[i] && t[j] == s[j];
      }
    }
  }

  lemma SortedAppend(s: seq<Cand>, c: Cand)
    ensures Sorting.Sorted(s + [c], Before) <==> Sorting.Sorted(s, Before) && forall x :: x in s ==> !Before(c, x)
  {
    hide Before;
    var t := s + [c];
    if Sorting.Sorted(t, Before) {
      forall x | x in s ensures !Before(c, x) {
        var i :| 0 <= i < |s| && s[i] == x;
        assert t[i] == x && t[|s|] == c;
      }
      forall i, j | 0 <= i < j < |s| ensures !Before(s[j], s[i]) {
        assert t[i] == s[i] && t[j] == s[j];
      }
    }
  }

  lemma {:induction false} OfFreqSame(s: seq<Cand>, f: nat, c: Cand)
    ensures multiset(OfFreq(s, f))[c] == if c.freq == f then multiset(s)[c] else 0
    decreases |s|
  {
    if s != [] {
      var front, last := s[..|s| - 1], s[|s| - 1];
      OfFreqSame(front, f, c);
      var part := OfFreq(front, f);
      assert OfFreq(s, f) == if last.freq == f then part + [last] else part;
      hide OfFreq;
      OneMore(front, last, c);
      OneMore(part, last, c);
      assert s == front + [last];
    }
  }

  lemma OneMore(s: seq<Cand>, x: Cand, c: Cand)
    ensures multiset(s + [x])[c] == multiset(s)[c] + if x == c then 1 else 0
  {
  }

  /** An answer keeps the order of ties exactly when they were found in the order of their texts. */
  lemma KeepsTiesIff(ranked: seq<Cand>, found: seq<Cand>)
    requires Ranks(ranked, found)
    ensures KeepsTies(ranked, found) <==>
            forall i, j :: 0 <= i < j < |found| && found[i].freq == found[j].freq ==>
              !Less(found[j].text, found[i].text)
  {
    hide Less, OfFreq;
    forall f: nat ensures OfFreq(ranked, f) == OfFreq(found, f) <==> TextOrder(found, f) {
      OneTie(ranked, found, f);
    }
    if KeepsTies(ranked, found) {
      forall i, j | 0 <= i < j < |found| && found[i].freq == found[j].freq ensures !Less(found[j].text, found[i].text) {
        assert TextOrder(found, found[i].freq);
      }
    }
  }

  lemma OneTie(ranked: seq<Cand>, found: seq<Cand>, f: nat)
    requires Ranks(ranked, found)
    ensures OfFreq(ranked, f) == OfFreq(found, f) <==> TextOrder(found, f)
  {
    hide OfFreq, Less;
    OfFreqSorted(ranked, f);
    OfFreqSorted(found, f);
    RankedText(ranked, f);
    forall c: Cand ensures multiset(OfFreq(ranked, f))[c] == multiset(OfFreq(found, f))[c] {
      OfFreqSame(ranked, f, c);
      OfFreqSame(found, f, c);
    }
    if TextOrder(found, f) {
      RankedOnce(OfFreq(ranked, f), OfFreq(found, f));
    }
  }

  lemma RankedText(ranked: seq<Cand>, f: nat)
    requires Sorting.Sorted(ranked, Before)
    ensures TextOrder(ranked, f)
  {
    forall i, j | 0 <= i < j < |ranked| && ranked[i].freq == f == ranked[j].freq
      ensures !Less(ranked[j].text, ranked[i].text)
    {
      assert !Before(ranked[j], ranked[i]);
    }
  }

  /** Z under the key `a` and A under the key `ab`, equally frequent. */
  const TIED: seq<Entry> := [Entry([97], [Cand([90], 1)]), Entry([97, 98], [Cand([65], 1)])]

  lemma TiedFound()
    ensures First(Matching(TIED, [97]), QUERY_CAP) == [Cand([90], 1), Cand([65], 1)]
  {
    hide Less;
    assert TIED[..1] == [TIED[0]];
    assert TIED[..1][..0] == [];
    assert Matching(TIED[..1], [97]) == [Cand([90], 1)];
  }

  lemma TiedRanked()
    ensures Ranks([Cand([65], 1), Cand([90], 1)], [Cand([90], 1), Cand([65], 1)]) && Less([65], [90])
  {
    var z, a := Cand([90], 1), Cand([65], 1);
    assert Less(a.text, z.text);
    LessTotal(a.text, z.text);
    hide Less;
    assert [a, z] == [a] + [z] && [z, a] == [z] + [a];
  }

  lemma TiedDictionary()
    ensures InKeyOrder(TIED) && Plain(TIED)
  {
  }

  /** A dictionary whose answer does not keep the order: asked for `a` it finds Z, A and answers A, Z. */
  lemma TiesAreReordered(ranked: seq<Cand>)
    requires Ranks(ranked, First(Matching(TIED, [97]), QUERY_CAP))
    ensures InKeyOrder(TIED) && Plain(TIED) && ranked == [Cand([65], 1), Cand([90], 1)]
    ensures !KeepsTies(ranked, First(Matching(TIED, [97]), QUERY_CAP))
  {
    hide Matching, Less, KeepsTies, InKeyOrder, Plain, Sorting.Sorted;
    TiedDictionary();
    TiedFound();
    TiedRanked();
    RankedOnce(ranked, [Cand([65], 1), Cand([90], 1)]);
    var found := [Cand([90], 1), Cand([65], 1)];
    KeepsTiesIff(ranked, found);
    assert found[0].freq == found[1].freq && Less(found[1].text, found[0].text);
  }

  // ----- Collecting -----

  /** Where candidate `k` of an entry stands in the file. */
  lemma CandPlace(ime: Ime, dict: seq<Entry>, i: nat, k: nat)
    requires Holds(ime, dict) && i < |dict| && k < |dict[i].cands|
    ensures HEADER_SIZE + ENTRY_SIZE * (i + 1) <= |ime.file| && ime.poolOff <= |ime.file|
    ensures CandRecord(ime, i, k) + CAND_SIZE <= |ime.file|
    ensures CandIs(ime.file[CandRecord(ime, i, k)..CandRecord(ime, i, k) + CAND_SIZE], ime.file[ime.poolOff..],
                   dict[i].cands[k])
  {
    hide Holds, EntryIs, CandIs, U32At;
    EntryHolds(ime, dict, i);
    var f, e, blobOff := ime.file, HEADER_SIZE + ENTRY_SIZE * i, HEADER_SIZE + ENTRY_SIZE * |dict|;
    SliceU32(f, e, e + ENTRY_SIZE, 4);
    EntryCands(f[e..e + ENTRY_SIZE], f[blobOff..ime.poolOff], f[ime.poolOff..], dict[i]);
    CountHeld(ime, dict);
    OneCand(f[blobOff..ime.poolOff], U32At(f, e + 4), f[ime.poolOff..], dict[i].cands, k);
    PlaceInFile(f, blobOff, ime.poolOff, U32At(f, e + 4), k, dict[i].cands[k]);
  }

  lemma CountHeld(ime: Ime, dict: seq<Entry>)
    requires Holds(ime, dict)
    ensures ime.count == |dict|
  {
  }

  lemma EntryCands(rec: seq<Byte>, blob: seq<Byte>, pool: seq<Byte>, e: Entry)
    requires EntryIs(rec, blob, pool, e)
    ensures CandsAre(blob, U32At(rec, 4), pool, e.cands)
  {
  }

  lemma PlaceInFile(f: seq<Byte>, blobOff: nat, poolOff: nat, from: nat, k: nat, c: Cand)
    requires blobOff <= poolOff <= |f| && blobOff + from + CAND_SIZE * (k + 1) <= poolOff
    requires CandIs(CandAt(f[blobOff..poolOff], from, k), f[poolOff..], c)
    ensures CandIs(f[blobOff + from + CAND_SIZE * k..blobOff + from + CAND_SIZE * k + CAND_SIZE], f[poolOff..], c)
  {
    hide CandIs;
    SliceOfSlice(f, blobOff, poolOff, from + CAND_SIZE * k, from + CAND_SIZE * (k + 1));
  }

  lemma OneCand(blob: seq<Byte>, from: nat, pool: seq<Byte>, cands: seq<Cand>, k: nat)
    requires CandsAre(blob, from, pool, cands) && k < |cands|
    ensures from + CAND_SIZE * (k + 1) <= |blob| && CandIs(CandAt(blob, from, k), pool, cands[k])
  {
  }

  lemma CandRead(ime: Ime, dict: seq<Entry>, i: nat, k: nat)
    requires Holds(ime, dict) && Plain(dict) && i < |dict| && k < |dict[i].cands|
    ensures HEADER_SIZE + ENTRY_SIZE * (i + 1) <= |ime.file|
    ensures CandRecord(ime, i, k) + CAND_SIZE <= |ime.file|
    ensures ReadCand(ime, i, k) == dict[i].cands[k]
  {
    hide Holds, Plain, CandIs, CandRecord, U32At;
    CandPlace(ime, dict, i, k);
    var f, at, c := ime.file, CandRecord(ime, i, k), dict[i].cands[k];
    CandFields(f, at, ime.poolOff, c);
    PlainText(dict, i, k);
    StringRead(f, ime.poolOff + U32At(f, at), c.text);
  }

  lemma PlainText(dict: seq<Entry>, i: nat, k: nat)
    requires Plain(dict) && i < |dict| && k < |dict[i].cands|
    ensures 0 !in dict[i].cands[k].text
  {
  }

  lemma CandFields(f: seq<Byte>, at: nat, poolOff: nat, c: Cand)
    requires at + CAND_SIZE <= |f| && poolOff <= |f| && CandIs(f[at..at + CAND_SIZE], f[poolOff..], c)
    ensures StringAt(f, poolOff + U32At(f, at), c.text) && U32At(f, at + 4) == c.freq
  {
    SliceU32(f, at, at + CAND_SIZE, 0);
    SliceU32(f, at, at + CAND_SIZE, 4);
    StringInFile(f, poolOff, U32At(f, at), c.text);
  }

  function CandRecord(ime: Ime, i: nat, k: nat): nat
    requires HEADER_SIZE + ENTRY_SIZE * (i + 1) <= |ime.file|
  {
    HEADER_SIZE + ENTRY_SIZE * ime.count + U32At(ime.file, HEADER_SIZE + ENTRY_SIZE * i + 4) + CAND_SIZE * k
  }

  function ReadCand(ime: Ime, i: nat, k: nat): Cand
    requires HEADER_SIZE + ENTRY_SIZE * (i + 1) <= |ime.file| && CandRecord(ime, i, k) + CAND_SIZE <= |ime.file|
  {
    var at := CandRecord(ime, i, k);
    var p := ime.poolOff + U32At(ime.file, at);
    Cand(if p <= |ime.file| then TextAt(ime.file, p) else [], U32At(ime.file, at + 4))
  }

  lemma CountRead(ime: Ime, dict: seq<Entry>, i: nat)
    requires Holds(ime, dict) && i < |dict|
    ensures HEADER_SIZE + ENTRY_SIZE * (i + 1) <= |ime.file|
    ensures U16At(ime.file, HEADER_SIZE + ENTRY_SIZE * i + 8) == |dict[i].cands|
  {
    hide Image, CandsAre;
    EntryHolds(ime, dict, i);
    var rec := ime.file[HEADER_SIZE + ENTRY_SIZE * i..HEADER_SIZE + ENTRY_SIZE * (i + 1)];
    assert U16At(rec, 8) == U16At(ime.file, HEADER_SIZE + ENTRY_SIZE * i + 8);
  }

  /** Adds one entry's candidates to those collected, while there is room. */
  method CollectEntry(ime: Ime, i: nat, found: seq<Cand>, ghost dict: seq<Entry>) returns (more: seq<Cand>)
    requires Holds(ime, dict) && Plain(dict) && i < |dict| && |found| <= QUERY_CAP
    ensures more == First(found + dict[i].cands, QUERY_CAP)
  {
    hide Holds, Plain, CandRecord, ReadCand, U16At;
    CountRead(ime, dict, i);
    var count := U16At(ime.file, HEADER_SIZE + ENTRY_SIZE * i + 8);
    more := found;
    var k := 0;
    while k < count && |more| < QUERY_CAP
      invariant 0 <= k <= count && |more| <= QUERY_CAP && more == found + dict[i].cands[..k]
    {
      CandRead(ime, dict, i, k);
      more := more + [ReadCand(ime, i, k)];
      k := k + 1;
    }
    if |more| == QUERY_CAP {
      assert more == (found + dict[i].cands)[..QUERY_CAP];
    } else {
      assert dict[i].cands[..k] == dict[i].cands;
    }
  }

  lemma MatchingStep(dict: seq<Entry>, q: Text, i: nat)
    requires i < |dict|
    ensures Matching(dict[..i + 1], q) == Matching(dict[..i], q) + (if q <= dict[i].key then dict[i].cands else [])
  {
    assert dict[..i + 1][..i] == dict[..i];
  }

  lemma {:induction false} MatchingNone(dict: seq<Entry>, q: Text, from: nat, end: nat)
    requires from <= end <= |dict| && forall i :: from <= i < end ==> !(q <= dict[i].key)
    ensures Matching(dict[..end], q) == Matching(dict[..from], q)
    decreases end
  {
    if from < end {
      MatchingStep(dict, q, end - 1);
      MatchingNone(dict, q, from, end - 1);
    }
  }

  lemma FirstMore(a: seq<Cand>, b: seq<Cand>)
    ensures First(First(a, QUERY_CAP) + b, QUERY_CAP) == First(a + b, QUERY_CAP)
  {
  }

  /** The search and the scan find the matching candidates, up to the cap. */
  method Collect(ime: Ime, q: Text, ghost dict: seq<Entry>) returns (found: seq<Cand>)
    requires Holds(ime, dict) && Plain(dict) && InKeyOrder(dict)
    ensures found == First(Matching(dict, q), QUERY_CAP)
  {
    hide Image, Plain, Key, Less, Matching;
    var idx := LowerBound(ime, q, dict);
    ghost var start := idx;
    forall i | 0 <= i < idx ensures !(q <= dict[i].key) {
      if q <= dict[i].key { PrefixNotBelow(q, dict[i].key); }
    }
    MatchingNone(dict, q, 0, idx);
    NothingMatches(dict[..0], q);
    found := [];
    while idx < ime.count
      invariant start <= idx <= |dict| && found == First(Matching(dict[..idx], q), QUERY_CAP)
    {
      KeyRead(ime, dict, idx);
      if !(q <= Key(ime, idx)) {
        forall i | idx <= i < |dict| ensures !(q <= dict[i].key) {
          if i > idx { PrefixInterval(q, dict[idx].key, dict[i].key); }
        }
        MatchingNone(dict, q, idx, |dict|);
        assert dict[..|dict|] == dict;
        return;
      }
      MatchingStep(dict, q, idx);
      FirstMore(Matching(dict[..idx], q), dict[idx].cands);
      found := CollectEntry(ime, idx, found, dict);
      idx := idx + 1;
    }
    assert dict[..|dict|] == dict;
  }

  lemma NothingMatches(dict: seq<Entry>, q: Text)
    requires dict == []
    ensures Matching(dict, q) == []
  {
  }

  predicate IsQuery(q: Text) {
    q != [] && forall i :: 0 <= i < |q| ==> 97 <= q[i] <= 122
  }

  /** `airy_ime_query`: the first `outCap` of the matching candidates in ranked order. */
  method Query(ime: Ime, q: Text, outCap: int, ghost dict: seq<Entry>) returns (out: seq<Cand>, ghost ranked: seq<Cand>)
    requires Holds(ime, dict) && Plain(dict) && InKeyOrder(dict)
    ensures IsQuery(q) && outCap > 0 ==>
              Ranks(ranked, First(Matching(dict, q), QUERY_CAP)) && out == First(ranked, outCap)
    ensures Ordered(ranked) && out <= ranked
    ensures IsQuery(q) && outCap > 0 ==> |out| == if |ranked| < outCap then |ranked| else outCap
    ensures !(IsQuery(q) && outCap > 0) ==> out == []
  {
    hide Holds, Plain, InKeyOrder, Matching, Sorting.StrictOrder, Sorting.Sorted, Below;
    if outCap <= 0 || q == [] {
      return [], [];
    }
    for i := 0 to |q|
      invariant forall j :: 0 <= j < i ==> 97 <= q[j] <= 122
    {
      if q[i] < 97 || q[i] > 122 {
        return [], [];
      }
    }
    var found := Collect(ime, q, dict);
    var cands := new Cand[|found|](i requires 0 <= i < |found| => found[i]);
    assert cands[..] == found;
    BeforeIsStrict();
    Sorting.InsertionSort(cands, Before);
    ranked := cands[..];
    SortedIsOrdered(ranked);
    out := if cands.Length < outCap then cands[..] else cands[..outCap];
  }

  lemma RankedMatch(ranked: seq<Cand>, dict: seq<Entry>, q: Text)
    requires Ranks(ranked, First(Matching(dict, q), QUERY_CAP))
    ensures forall c :: c in ranked ==> Matches(dict, q, c)
    ensures |Matching(dict, q)| <= QUERY_CAP ==> forall c :: Matches(dict, q, c) ==> c in ranked
  {
    hide Matches, Matching, Sorting.Sorted;
    var found := First(Matching(dict, q), QUERY_CAP);
    forall c ensures c in ranked ==> Matches(dict, q, c) {
      assert c in ranked <==> c in multiset(found);
      MatchingHas(dict, q, c);
    }
    forall c | |Matching(dict, q)| <= QUERY_CAP && Matches(dict, q, c) ensures c in ranked {
      MatchingHas(dict, q, c);
      assert c in multiset(found);
      assert c in multiset(ranked);
    }
  }

  /** Writing a dictionary, loading the bytes and asking: whenever the dictionary is written, the answer
      comes from exactly the candidates that match, as far as 4096 of them. */
  method WriteLoadQuery(dict: seq<Entry>, q: Text, outCap: int)
    returns (out: Option<seq<Cand>>, ghost ranked: seq<Cand>)
    requires Plain(dict) && InKeyOrder(dict)
    ensures ImeWriter.Fits(dict) ==> out.Some?
    ensures out.Some? && IsQuery(q) && outCap > 0 ==>
              Ranks(ranked, First(Matching(dict, q), QUERY_CAP)) && out.value == First(ranked, outCap)
    ensures out.Some? ==> Ordered(ranked) && out.value <= ranked
    ensures out.Some? && IsQuery(q) && outCap > 0 ==> |out.value| == if |ranked| < outCap then |ranked| else outCap
    ensures out.Some? && |Matching(dict, q)| <= QUERY_CAP ==> First(Matching(dict, q), QUERY_CAP) == Matching(dict, q)
    ensures out.Some? && IsQuery(q) && outCap > 0 ==> forall c :: c in ranked ==> Matches(dict, q, c)
    ensures out.Some? && IsQuery(q) && outCap > 0 && |Matching(dict, q)| <= QUERY_CAP ==>
              forall c :: Matches(dict, q, c) ==> c in ranked
    ensures out.Some? && !(IsQuery(q) && outCap > 0) ==> out.value == []
    ensures IsQuery(q) <==> q != [] && forall i :: 0 <= i < |q| ==> 'a' as int <= q[i] <= 'z' as int
  {
    hide ImeWriter.Fits, Image, Accepts, Plain, InKeyOrder, Ranks, Matching, Ordered, Matches;
    var written := ImeWriter.Serialize(dict);
    if written.None? {
      return None, [];
    }
    ImageLoads(written.value, dict);
    var loaded := Load(written.value);
    var answer;
    answer, ranked := Query(loaded.value, q, outCap, dict);
    if IsQuery(q) && outCap > 0 {
      RankedMatch(ranked, dict, q);
    }
    out := Some(answer);
  }
}
