/**
 Checkpoint file names, the directory collectors and the listing order of
 utils/execution/checkpoint_persist.c and utils/execution/checkpoint_session.c.
 A directory is the list of names that readdir returns.
 */
module CheckpointNames {
  import opened Options
  import opened Decimal
  import Sorting

  const PREFIX := "checkpoint_"
  const EXTENSION := ".json"
  /** The size of the task id buffer, including its NUL. */
  const TID_SIZE := 128

  /** The file name of build_filepath_with_seq. */
  function Build(tid: string, n: nat): string {
    PREFIX + (tid + "_" + Print(n)) + EXTENSION
  }

  /** One name written out. */
  lemma BuildExample()
    ensures Build("my_task", 12) == "checkpoint_my_task_12.json"
  {
    assert Print(1) == "1" && Print(12) == Print(1) + "2";
  }

  /** One more than the position of the last underscore, or 0. */
  function AfterLastUnderscore(mid: string): (k: nat)
    ensures k <= |mid| && (k > 0 ==> mid[k - 1] == '_') && forall i :: k <= i < |mid| ==> mid[i] != '_'
  {
    if mid == "" then 0 else if mid[|mid| - 1] == '_' then |mid| else AfterLastUnderscore(mid[..|mid| - 1])
  }

  /** Task id and number from the part between prefix and extension. */
  function ParseMiddle(mid: string): Option<(string, nat)> {
    var sep := AfterLastUnderscore(mid);
    if sep == 0 || sep == |mid| || sep == 1 || sep - 1 >= TID_SIZE then None
    else if !AllDigits(mid[sep..]) then None
    else Some((mid[..sep - 1], Value(mid[sep..]) % U64))
  }

  /** parse_cp_name as a function. */
  function Parse(name: string): Option<(string, nat)> {
    if |name| < |PREFIX| + |EXTENSION| + 2 then None
    else if name[..|PREFIX|] != PREFIX || name[|name| - |EXTENSION|..] != EXTENSION then None
    else ParseMiddle(name[|PREFIX|..|name| - |EXTENSION|])
  }

  /** The backward search for the last underscore. */
  method Separator(mid: string) returns (sep: nat)
    ensures sep == AfterLastUnderscore(mid)
  {
    sep := |mid|;
    assert mid[..|mid|] == mid;
    while sep > 0 && mid[sep - 1] != '_'
      invariant 0 <= sep <= |mid| && AfterLastUnderscore(mid) == AfterLastUnderscore(mid[..sep])
    {
      assert mid[..sep][..sep - 1] == mid[..sep - 1];
      sep := sep - 1;
    }
  }

  method ParseName(name: string) returns (r: Option<(string, nat)>)
    ensures r == Parse(name)
    ensures forall tid, digits :: IsName(name, tid, digits) ==> r == Some((tid, Places(digits) % U64))
    ensures r.Some? ==> exists digits :: IsName(name, r.value.0, digits)
  {
    hide AfterLastUnderscore, Value, IsName;
    ParseIsName(name);
    var pfx, sfx := |PREFIX|, |EXTENSION|;
    if |name| < pfx + sfx + 2 || name[..pfx] != PREFIX || name[|name| - sfx..] != EXTENSION {
      return None;
    }
    var mid := name[pfx..|name| - sfx];
    var sep := Separator(mid);
    if sep == 0 || sep == |mid| {
      return None;
    }
    var tlen := sep - 1;
    if tlen == 0 || tlen >= TID_SIZE {
      return None;
    }
    assert mid[sep..|mid|] == mid[sep..];
    var ok, n := ParseDigits(mid, sep, |mid|);
    if !ok {
      return None;
    }
    r := Some((mid[..tlen], n));
  }

  /** `mid` is the middle of a checkpoint name of `tid` whose number is written `digits`. */
  predicate IsMiddle(mid: string, tid: string, digits: string) {
    mid == tid + "_" + digits && digits != "" && AllDigits(digits) && 1 <= |tid| < TID_SIZE
  }

  predicate IsName(name: string, tid: string, digits: string) {
    name == PREFIX + (tid + "_" + digits) + EXTENSION && IsMiddle(tid + "_" + digits, tid, digits)
  }

  lemma {:induction false} SeparatorOf(tid: string, digits: string)
    requires AllDigits(digits)
    ensures AfterLastUnderscore(tid + "_" + digits) == |tid| + 1
    decreases |digits|
  {
    var m := tid + "_" + digits;
    if digits != "" {
      SeparatorOf(tid, digits[..|digits| - 1]);
      assert m[..|m| - 1] == tid + "_" + digits[..|digits| - 1];
    }
  }

  lemma MiddleParses(mid: string, tid: string, digits: string)
    requires IsMiddle(mid, tid, digits)
    ensures ParseMiddle(mid) == Some((tid, Value(digits) % U64))
  {
    hide AfterLastUnderscore, Value;
    SeparatorOf(tid, digits);
    assert mid[..|tid|] == tid && mid[|tid| + 1..] == digits;
  }

  lemma MiddleSound(mid: string) returns (digits: string)
    requires ParseMiddle(mid).Some?
    ensures IsMiddle(mid, ParseMiddle(mid).value.0, digits) && ParseMiddle(mid).value.1 == Value(digits) % U64
  {
    hide Value;
    var sep := AfterLastUnderscore(mid);
    digits := mid[sep..];
    assert mid == mid[..sep - 1] + [mid[sep - 1]] + digits;
  }

  lemma Framed(name: string, mid: string)
    ensures name == PREFIX + mid + EXTENSION <==>
            && |name| >= |PREFIX| + |EXTENSION| && name[..|PREFIX|] == PREFIX
            && name[|name| - |EXTENSION|..] == EXTENSION && name[|PREFIX|..|name| - |EXTENSION|] == mid
  {
    if |name| >= |PREFIX| + |EXTENSION| {
      assert name == name[..|PREFIX|] + name[|PREFIX|..|name| - |EXTENSION|] + name[|name| - |EXTENSION|..];
    }
  }

  /** The parser accepts exactly the names of this form, and task ids may contain
      underscores: the number is what follows the last one. */
  lemma ParseIffName(name: string, tid: string, n: nat)
    ensures Parse(name) == Some((tid, n)) <==> exists digits :: IsName(name, tid, digits) && Value(digits) % U64 == n
  {
    hide ParseMiddle, Value;
    if digits :| IsName(name, tid, digits) && Value(digits) % U64 == n {
      Framed(name, tid + "_" + digits);
      MiddleParses(tid + "_" + digits, tid, digits);
    }
    if Parse(name) == Some((tid, n)) {
      var mid := name[|PREFIX|..|name| - |EXTENSION|];
      var digits := MiddleSound(mid);
      Framed(name, mid);
      assert IsName(name, tid, digits);
    }
  }

  lemma ParseIsName(name: string)
    ensures forall tid, digits :: IsName(name, tid, digits) ==> Parse(name) == Some((tid, Places(digits) % U64))
    ensures Parse(name).Some? ==> exists digits :: IsName(name, Parse(name).value.0, digits)
  {
    hide Parse, Value, Places;
    forall tid, digits | IsName(name, tid, digits) ensures Parse(name) == Some((tid, Places(digits) % U64)) {
      ValueIsPlaces(digits);
      ParseIffName(name, tid, Value(digits) % U64);
    }
    if Parse(name).Some? {
      ParseIffName(name, Parse(name).value.0, Parse(name).value.1);
    }
  }

  /** Parsing undoes building for every task id that fits and every 64-bit number. */
  lemma BuildThenParse(tid: string, n: nat)
    requires 1 <= |tid| < TID_SIZE && n < U64
    ensures Parse(Build(tid, n)) == Some((tid, n))
  {
    PrintValue(n);
    assert IsName(Build(tid, n), tid, Print(n));
    ParseIffName(Build(tid, n), tid, n);
  }

  /** Different checkpoints have different names. */
  lemma BuildInjective(t1: string, n1: nat, t2: string, n2: nat)
    requires 1 <= |t1| < TID_SIZE && n1 < U64 && 1 <= |t2| < TID_SIZE && n2 < U64
    requires Build(t1, n1) == Build(t2, n2)
    ensures t1 == t2 && n1 == n2
  {
    BuildThenParse(t1, n1);
    BuildThenParse(t2, n2);
  }

  // ---------------------------------------------------------------------------------
  // Collecting

  /** grow_t: a buffer that doubles when it is full. */
  class Grow {
    var items: array<nat>
    var count: nat

    ghost predicate Valid()
      reads this
    {
      count <= items.Length
    }

    ghost function Contents(): seq<nat>
      requires Valid()
      reads this, items
    {
      items[..count]
    }

    constructor ()
      ensures Valid() && fresh(items) && Contents() == []
    {
      items, count := new nat[0], 0;
    }

    /** grow_push and the store into the slot it returns. */
    method Push(x: nat)
      requires Valid()
      modifies this, items
      ensures Valid() && Contents() == old(Contents()) + [x]
      ensures items == old(items) || fresh(items)
    {
      if count == items.Length {
        var ncap := if items.Length != 0 then items.Length * 2 else 16;
        var ni := new nat[ncap](_ => 0);
        forall k | 0 <= k < count {
          ni[k] := items[k];
        }
        items := ni;
      }
      items[count] := x;
      count := count + 1;
    }
  }

  /** The numbers of the task's checkpoints, in directory order. */
  function SeqsOf(listing: seq<string>, want: string): seq<nat> {
    if listing == [] then []
    else
      var before := SeqsOf(listing[..|listing| - 1], want);
      var p := Parse(listing[|listing| - 1]);
      if p.Some? && p.value.0 == want then before + [p.value.1] else before
  }

  /** collect_task_seqs */
  method CollectTaskSeqs(listing: seq<string>, want: string) returns (sink: Grow)
    ensures fresh(sink) && fresh(sink.items) && sink.Valid() && sink.Contents() == SeqsOf(listing, want)
  {
    hide Parse;
    sink := new Grow();
    var i := 0;
    while i < |listing|
      invariant 0 <= i <= |listing| && fresh(sink) && fresh(sink.items) && sink.Valid()
      invariant sink.Contents() == SeqsOf(listing[..i], want)
    {
      assert listing[..i + 1][..i] == listing[..i];
      var p := ParseName(listing[i]);
      if p.Some? && p.value.0 == want {
        sink.Push(p.value.1);
      }
      i := i + 1;
    }
    assert listing[..|listing|] == listing;
  }

  /** A directory that holds the saved checkpoints, each once, and otherwise only files that
      are no checkpoints. */
  ghost predicate Holds(listing: seq<string>, saved: set<(string, nat)>) {
    && (forall t, n :: (t, n) in saved ==> 1 <= |t| < TID_SIZE && n < U64 && Build(t, n) in listing)
    && (forall k :: 0 <= k < |listing| && Parse(listing[k]).Some? ==>
          Parse(listing[k]).value in saved && listing[k] == Build(Parse(listing[k]).value.0, Parse(listing[k]).value.1))
    && (forall j, k :: 0 <= j < k < |listing| ==> listing[j] != listing[k])
  }

  predicate NoRepeats(s: seq<nat>) {
    forall j, k :: 0 <= j < k < |s| ==> s[j] != s[k]
  }

  predicate IsOf(name: string, want: string) {
    Parse(name).Some? && Parse(name).value.0 == want
  }

  /** Some file name carries the number `n` of the task. */
  predicate Named(listing: seq<string>, want: string, n: nat) {
    exists k :: 0 <= k < |listing| && Parse(listing[k]) == Some((want, n))
  }

  /** No two file names of the task carry the same number; a number may be written with leading zeros. */
  predicate NamedOnce(listing: seq<string>, want: string) {
    forall j, k :: 0 <= j < k < |listing| && IsOf(listing[j], want) ==> Parse(listing[j]) != Parse(listing[k])
  }

  lemma {:induction false} SeqsOfIn(listing: seq<string>, want: string, n: nat)
    ensures n in SeqsOf(listing, want) <==> Named(listing, want, n)
    decreases |listing|
  {
    hide Parse;
    if listing != [] {
      var before, last := listing[..|listing| - 1], listing[|listing| - 1];
      SeqsOfIn(before, want, n);
      assert n in SeqsOf(listing, want) <==> n in SeqsOf(before, want) || Parse(last) == Some((want, n));
      hide SeqsOf;
      if k :| 0 <= k < |before| && Parse(before[k]) == Some((want, n)) {
        assert listing[k] == before[k];
      }
      if k :| 0 <= k < |listing| && Parse(listing[k]) == Some((want, n)) {
        assert k < |before| ==> before[k] == listing[k];
      }
    }
  }

  /** Appending a number keeps a list without repeats unless it is there already. */
  lemma NoRepeatsAppend(s: seq<nat>, x: nat)
    ensures NoRepeats(s + [x]) <==> NoRepeats(s) && x !in s
  {
    var t := s + [x];
    if NoRepeats(t) {
      forall j, k | 0 <= j < k < |s| ensures s[j] != s[k] {
        assert t[j] != t[k];
      }
      forall j | 0 <= j < |s| ensures s[j] != x {
        assert t[j] != t[|s|];
      }
    }
  }

  lemma NamedOnceAppend(before: seq<string>, last: string, want: string)
    ensures NamedOnce(before + [last], want) <==>
              && NamedOnce(before, want)
              && forall n :: Parse(last) == Some((want, n)) ==> !Named(before, want, n)
  {
    hide Parse;
    var all := before + [last];
    if NamedOnce(all, want) {
      forall j, k | 0 <= j < k < |before| && IsOf(before[j], want) ensures Parse(before[j]) != Parse(before[k]) {
        assert all[j] == before[j] && all[k] == before[k];
      }
      forall n | Parse(last) == Some((want, n)) ensures !Named(before, want, n) {
        forall k | 0 <= k < |before| ensures Parse(before[k]) != Some((want, n)) {
          assert all[k] == before[k] && all[|before|] == last;
          assert IsOf(all[k], want) ==> Parse(all[k]) != Parse(all[|before|]);
        }
      }
    } else if NamedOnce(before, want) {
      var j, k :| 0 <= j < k < |all| && IsOf(all[j], want) && Parse(all[j]) == Parse(all[k]);
      assert Named(before, want, Parse(all[j]).value.1) by { assert before[j] == all[j]; }
    }
  }

  lemma {:induction false} NoRepeatsIffNamedOnce(listing: seq<string>, want: string)
    ensures NoRepeats(SeqsOf(listing, want)) <==> NamedOnce(listing, want)
    decreases |listing|
  {
    hide Parse, NoRepeats, NamedOnce, Named;
    if listing == [] {
      NoneNamed(want);
    } else {
      var before, last := listing[..|listing| - 1], listing[|listing| - 1];
      assert listing == before + [last];
      NoRepeatsIffNamedOnce(before, want);
      NamedOnceAppend(before, last, want);
      if IsOf(last, want) {
        var n := Parse(last).value.1;
        NoRepeatsAppend(SeqsOf(before, want), n);
        SeqsOfIn(before, want, n);
      }
    }
  }

  lemma NoneNamed(want: string)
    ensures NoRepeats([]) && NamedOnce([], want)
  {
  }

  /** Collection returns the numbers the file names carry, each once exactly when no two names carry the
      same; in a directory with no other checkpoint files these are the task's saved numbers. */
  lemma CollectsExactly(listing: seq<string>, saved: set<(string, nat)>, want: string, n: nat)
    ensures n in SeqsOf(listing, want) <==> Named(listing, want, n)
    ensures NoRepeats(SeqsOf(listing, want)) <==> NamedOnce(listing, want)
    ensures Holds(listing, saved) ==> NamedOnce(listing, want) && (Named(listing, want, n) <==> (want, n) in saved)
  {
    hide Parse, Build, SeqsOf;
    SeqsOfIn(listing, want, n);
    NoRepeatsIffNamedOnce(listing, want);
    if Holds(listing, saved) {
      if (want, n) in saved {
        BuildThenParse(want, n);
        var k :| 0 <= k < |listing| && listing[k] == Build(want, n);
        assert Parse(listing[k]) == Some((want, n));
      }
      forall j, k | 0 <= j < k < |listing| && IsOf(listing[j], want) ensures Parse(listing[j]) != Parse(listing[k]) {
        assert listing[j] != listing[k];
      }
    }
  }

  /** find_latest_seq, the number that restoring number 0 picks: the largest positive one,
      or 0 if there is none. */
  method FindLatest(listing: seq<string>, want: string, ghost saved: set<(string, nat)>) returns (max: nat)
    ensures max > 0 ==> Named(listing, want, max)
    ensures forall n: nat :: Named(listing, want, n) ==> n <= max
    ensures Holds(listing, saved) ==> forall n: nat :: (want, n) in saved ==> n <= max
    ensures Holds(listing, saved) && max > 0 ==> (want, max) in saved
  {
    hide Holds, SeqsOf, Named, NamedOnce;
    var sink := CollectTaskSeqs(listing, want);
    ghost var s := SeqsOf(listing, want);
    max := 0;
    var i := 0;
    while i < sink.count
      invariant 0 <= i <= sink.count == |s| && sink.items[..sink.count] == s
      invariant forall k :: 0 <= k < i ==> s[k] <= max
      invariant max > 0 ==> max in s
    {
      assert sink.items[i] == s[i];
      if sink.items[i] > max {
        max := sink.items[i];
      }
      i := i + 1;
    }
    forall n: nat ensures Named(listing, want, n) ==> n <= max {
      CollectsExactly(listing, saved, want, n);
    }
    forall n: nat ensures Holds(listing, saved) && (want, n) in saved ==> n <= max {
      CollectsExactly(listing, saved, want, n);
    }
    CollectsExactly(listing, saved, want, max);
  }

  /** The order in which airy_checkpoint_list restores: ascending, all of them, and without repeats
      exactly when no two names carry the same number. */
  method ListOrder(listing: seq<string>, want: string, ghost saved: set<(string, nat)>) returns (seqs: array<nat>)
    ensures multiset(seqs[..]) == multiset(SeqsOf(listing, want))
    ensures forall j, k :: 0 <= j < k < seqs.Length ==> seqs[j] <= seqs[k]
    ensures NamedOnce(listing, want) ==> forall j, k :: 0 <= j < k < seqs.Length ==> seqs[j] < seqs[k]
    ensures forall n: nat :: n in seqs[..] <==> Named(listing, want, n)
    ensures Holds(listing, saved) ==>
              NamedOnce(listing, want) && forall n: nat :: n in seqs[..] <==> (want, n) in saved
  {
    hide Holds, SeqsOf, Sorting.StrictOrder, Named, NamedOnce, NoRepeats;
    var sink := CollectTaskSeqs(listing, want);
    ghost var s := SeqsOf(listing, want);
    seqs := new nat[sink.count](k requires 0 <= k < sink.count && sink.count <= sink.items.Length
                                  reads sink, sink.items => sink.items[k]);
    assert seqs[..] == s;
    AscendingIsStrict();
    Sorting.InsertionSort(seqs, Ascending);
    CollectsExactly(listing, saved, want, 0);
    SortedAscending(s, seqs[..]);
    forall n: nat ensures n in seqs[..] <==> Named(listing, want, n) {
      CollectsExactly(listing, saved, want, n);
      assert n in seqs[..] <==> n in multiset(seqs[..]);
    }
    if Holds(listing, saved) {
      forall n: nat ensures n in seqs[..] <==> (want, n) in saved {
        CollectsExactly(listing, saved, want, n);
      }
    }
    assert forall k :: 0 <= k < seqs.Length ==> seqs[k] == seqs[..][k];
  }

  predicate Ascending(x: nat, y: nat) {
    x < y
  }

  lemma AscendingIsStrict()
    ensures Sorting.StrictOrder(Ascending)
  {
  }

  lemma SortedAscending(s: seq<nat>, t: seq<nat>)
    requires multiset(s) == multiset(t) && Sorting.Sorted(t, Ascending)
    ensures forall j, k :: 0 <= j < k < |t| ==> t[j] <= t[k]
    ensures NoRepeats(s) ==> forall j, k :: 0 <= j < k < |t| ==> t[j] < t[k]
  {
    forall j, k | NoRepeats(s) && 0 <= j < k < |t| ensures t[j] < t[k] {
      if t[j] == t[k] {
        CountTwice(t, j, k);
        OnlyOnce(s, t[j]);
      }
    }
  }

  lemma CountTwice(t: seq<nat>, j: nat, k: nat)
    requires j < k < |t| && t[j] == t[k]
    ensures multiset(t)[t[j]] >= 2
  {
    assert t == t[..j] + [t[j]] + t[j + 1..k] + [t[k]] + t[k + 1..];
  }

  lemma {:induction false} OnlyOnce(s: seq<nat>, x: nat)
    requires NoRepeats(s)
    ensures multiset(s)[x] <= 1
    decreases |s|
  {
    if s != [] {
      OnlyOnce(s[..|s| - 1], x);
      assert s == s[..|s| - 1] + [s[|s| - 1]];
      if s[|s| - 1] == x {
        assert x !in s[..|s| - 1];
      }
    }
  }
}
