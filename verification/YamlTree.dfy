/**
 What the YAML nodes of utils/config_unified stand for, as values: trees whose mappings are lists
 of entries, lookup by first match, and the merge of a `<<` key.
 */
module YamlTree {
  import opened Options

  /** Line, anchor name and tag of a node. */
  datatype Meta = Meta(line: int, anchor: Option<string>, tag: Option<string>)

  datatype Tree =
    | Absent
    | Plain(meta: Meta)
    | Scalar(meta: Meta, text: Option<string>)
    | Mapping(meta: Meta, entries: seq<Pair>)
    | Sequence(meta: Meta, items: seq<Tree>)

  datatype Pair = Pair(key: string, value: Tree)

  predicate Has(entries: seq<Pair>, k: string) {
    exists i :: 0 <= i < |entries| && entries[i].key == k
  }

  /** The value of the first entry with the key. */
  function Lookup(entries: seq<Pair>, k: string): Option<Tree> {
    if entries == [] then None
    else if entries[0].key == k then Some(entries[0].value)
    else Lookup(entries[1..], k)
  }

  lemma {:induction false} LookupIff(entries: seq<Pair>, k: string)
    ensures Lookup(entries, k).Some? <==> Has(entries, k)
    decreases |entries|
  {
    if entries != [] && entries[0].key != k {
      LookupIff(entries[1..], k);
      if Has(entries, k) {
        var i :| 0 <= i < |entries| && entries[i].key == k;
        assert entries[1..][i - 1].key == k;
      }
      if Has(entries[1..], k) {
        var i :| 0 <= i < |entries[1..]| && entries[1..][i].key == k;
        assert entries[i + 1].key == k;
      }
    }
  }

  lemma {:induction false} LookupConcat(a: seq<Pair>, b: seq<Pair>, k: string)
    ensures Lookup(a + b, k) == if Has(a, k) then Lookup(a, k) else Lookup(b, k)
    decreases |a|
  {
    LookupIff(a, k);
    if a == [] {
      assert a + b == b;
    } else {
      assert (a + b)[1..] == a[1..] + b;
      LookupIff(a[1..], k);
      LookupConcat(a[1..], b, k);
    }
  }

  // ----- Merging -----

  /** Adds the entry unless its key is present. */
  function AddMissing(entries: seq<Pair>, p: Pair): seq<Pair> {
    if Has(entries, p.key) then entries else entries + [p]
  }

  /** The entries of `source` whose key is missing, in order. */
  function Merge(target: seq<Pair>, source: seq<Pair>): seq<Pair> {
    if source == [] then target else AddMissing(Merge(target, source[..|source| - 1]), source[|source| - 1])
  }

  lemma {:induction false} MergeLookup(target: seq<Pair>, source: seq<Pair>, k: string)
    ensures Lookup(Merge(target, source), k) == if Has(target, k) then Lookup(target, k) else Lookup(source, k)
    ensures Has(Merge(target, source), k) <==> Has(target, k) || Has(source, k)
    decreases |source|
  {
    LookupIff(target, k);
    LookupIff(source, k);
    if source != [] {
      var front, last := source[..|source| - 1], source[|source| - 1];
      var merged := Merge(target, front);
      MergeLookup(target, front, k);
      MergeLookup(target, front, last.key);
      assert source == front + [last];
      LookupConcat(front, [last], k);
      LookupConcat(merged, [last], k);
      LookupIff(front, k);
      LookupIff(merged, k);
      LookupIff(Merge(target, source), k);
    }
  }

  /** The target's own entries stay where they are. */
  lemma {:induction false} MergeExtends(target: seq<Pair>, source: seq<Pair>)
    ensures target <= Merge(target, source) && |Merge(target, source)| <= |target| + |source|
    decreases |source|
  {
    if source != [] {
      MergeExtends(target, source[..|source| - 1]);
    }
  }

  /** Every entry added is one of the source's, and no key is added twice. */
  lemma {:induction false} MergeAdds(target: seq<Pair>, source: seq<Pair>, i: nat)
    requires |target| <= i < |Merge(target, source)|
    ensures Merge(target, source)[i] in source
    ensures forall j :: 0 <= j < i ==> Merge(target, source)[j].key != Merge(target, source)[i].key
    decreases |source|
  {
    var front, last := source[..|source| - 1], source[|source| - 1];
    if i < |Merge(target, front)| {
      MergeAdds(target, front, i);
    }
  }

  /** The merge key with a sequence: its items merged one after the other. */
  function MergeAll(target: seq<Pair>, sources: seq<seq<Pair>>): seq<Pair> {
    if sources == [] then target else Merge(MergeAll(target, sources[..|sources| - 1]), sources[|sources| - 1])
  }

  /** The first of the lists that has the key. */
  function FirstWith(lists: seq<seq<Pair>>, k: string): Option<Tree> {
    if lists == [] then None else if Has(lists[0], k) then Lookup(lists[0], k) else FirstWith(lists[1..], k)
  }

  lemma {:induction false} FirstWithConcat(a: seq<seq<Pair>>, b: seq<Pair>, k: string)
    ensures FirstWith(a + [b], k) == if FirstWith(a, k).Some? then FirstWith(a, k) else Lookup(b, k)
    decreases |a|
  {
    LookupIff(b, k);
    if a == [] {
      assert (a + [b])[0] == b && (a + [b])[1..] == [];
    } else {
      LookupIff(a[0], k);
      assert (a + [b])[0] == a[0] && (a + [b])[1..] == a[1..] + [b];
      FirstWithConcat(a[1..], b, k);
    }
  }

  /** Existing keys keep their value; of the items, the earliest with the key wins. */
  lemma {:induction false} MergeAllLookup(target: seq<Pair>, sources: seq<seq<Pair>>, k: string)
    ensures Lookup(MergeAll(target, sources), k) == FirstWith([target] + sources, k)
    decreases |sources|
  {
    LookupIff(target, k);
    if sources == [] {
      assert [target] + sources == [target] && [target][1..] == [];
    } else {
      var front, last := sources[..|sources| - 1], sources[|sources| - 1];
      MergeAllLookup(target, front, k);
      assert [target] + sources == ([target] + front) + [last];
      FirstWithConcat([target] + front, last, k);
      MergeLookup(MergeAll(target, front), last, k);
      LookupIff(MergeAll(target, front), k);
    }
  }

  // ----- Whole mappings -----

  /** What is stored under one key of a mapping being built: an entry, or the mappings of a `<<`. */
  datatype Put = Entry(p: Pair) | Merged(sources: seq<seq<Pair>>)

  function Store(entries: seq<Pair>, put: Put): seq<Pair> {
    match put
    case Entry(p) => entries + [p]
    case Merged(sources) => MergeAll(entries, sources)
  }

  function StoreAll(puts: seq<Put>): seq<Pair> {
    if puts == [] then [] else Store(StoreAll(puts[..|puts| - 1]), puts[|puts| - 1])
  }

  /** The lists of entries that the puts offer, in order. */
  function Offers(puts: seq<Put>): seq<seq<Pair>> {
    if puts == [] then []
    else Offers(puts[..|puts| - 1]) + (match puts[|puts| - 1] case Entry(p) => [[p]] case Merged(sources) => sources)
  }

  lemma {:induction false} FirstWithAppend(a: seq<seq<Pair>>, b: seq<seq<Pair>>, k: string)
    ensures FirstWith(a + b, k) == if FirstWith(a, k).Some? then FirstWith(a, k) else FirstWith(b, k)
    decreases |a|
  {
    if a == [] {
      assert a + b == b;
    } else {
      LookupIff(a[0], k);
      assert (a + b)[0] == a[0] && (a + b)[1..] == a[1..] + b;
      FirstWithAppend(a[1..], b, k);
    }
  }

  /** In any mapping a key has the value of whatever provided it first, entry or merge. */
  lemma {:induction false} FirstProviderWins(puts: seq<Put>, k: string)
    ensures Lookup(StoreAll(puts), k) == FirstWith(Offers(puts), k)
    decreases |puts|
  {
    if puts != [] {
      var front, last := puts[..|puts| - 1], puts[|puts| - 1];
      FirstProviderWins(front, k);
      var before := StoreAll(front);
      LookupIff(before, k);
      match last {
        case Entry(p) =>
          LookupConcat(before, [p], k);
          FirstWithConcat(Offers(front), [p], k);
        case Merged(sources) =>
          MergeAllLookup(before, sources, k);
          assert ([before] + sources)[0] == before && ([before] + sources)[1..] == sources;
          FirstWithAppend(Offers(front), sources, k);
      }
    }
  }

  /**
   So an entry overrides a merged mapping exactly when nothing before it provides its key: an
   entry written after the `<<` that supplies the same key stays shadowed.
   */
  lemma EntryOverridesIff(before: seq<Put>, p: Pair, after: seq<Put>)
    ensures (forall v: Tree :: Lookup(StoreAll(before + [Entry(Pair(p.key, v))] + after), p.key) == Some(v))
            <==> !Has(StoreAll(before), p.key)
  {
    LookupIff(StoreAll(before), p.key);
    FirstProviderWins(before, p.key);
    forall v: Tree
      ensures Lookup(StoreAll(before + [Entry(Pair(p.key, v))] + after), p.key)
              == if Has(StoreAll(before), p.key) then Lookup(StoreAll(before), p.key) else Some(v)
    {
      var puts := before + [Entry(Pair(p.key, v))];
      FirstProviderWins(puts + after, p.key);
      OffersConcat(puts, after);
      FirstWithAppend(Offers(puts), Offers(after), p.key);
      FirstProviderWins(puts, p.key);
      assert puts[..|puts| - 1] == before;
      LookupConcat(StoreAll(before), [Pair(p.key, v)], p.key);
    }
    if Has(StoreAll(before), p.key) {
      var held := Lookup(StoreAll(before), p.key).value;
      var other := if held == Absent then Plain(Meta(0, None, None)) else Absent;
      assert Lookup(StoreAll(before + [Entry(Pair(p.key, other))] + after), p.key) != Some(other);
    }
  }

  lemma {:induction false} OffersConcat(a: seq<Put>, b: seq<Put>)
    ensures Offers(a + b) == Offers(a) + Offers(b)
    decreases |b|
  {
    if b == [] {
      assert a + b == a;
    } else {
      assert (a + b)[..|a + b| - 1] == a + b[..|b| - 1];
      OffersConcat(a, b[..|b| - 1]);
    }
  }
}
