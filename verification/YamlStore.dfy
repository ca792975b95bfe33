/**
 YAML nodes in memory (utils/config_unified): mappings as buffers that end at their first free
 slot, deep copies, and the builder that stores entries and merges `<<` keys.
 Allocation always succeeds here.
 */
module YamlStore {
  import opened Options
  import opened YamlTree

  datatype Kind = NoKind | ScalarKind | MappingKind | SequenceKind

  /** A slot of a mapping's buffer; a NULL key marks a free one. */
  datatype Slot = Free | Used(key: string, value: Node?)

  class Node {
    var kind: Kind
    var meta: Meta
    var text: Option<string>
    var slots: seq<Slot>
    var items: seq<Node?>

    constructor (kind: Kind)
      ensures this.kind == kind && meta == Meta(0, None, None) && text == None && slots == [] && items == []
    {
      this.kind, meta, text, slots, items := kind, Meta(0, None, None), None, [], [];
    }
  }

  class Doc {
    var nodes: seq<Node>

    /** `alloc_node`: every node is on the document's list. */
    method Alloc(kind: Kind) returns (n: Node)
      modifies this
      ensures fresh(n) && n.kind == kind && n.meta == Meta(0, None, None)
      ensures n.text == None && n.slots == [] && n.items == []
      ensures nodes == old(nodes) + [n]
    {
      n := new Node(kind);
      nodes := nodes + [n];
    }
  }

  // ----- What a node stands for -----

  /** The first `n` slots are taken, the others are free and there is at least one of them. */
  predicate Terminated(slots: seq<Slot>, n: nat) {
    && n < |slots|
    && (forall i :: 0 <= i < n ==> slots[i].Used?)
    && (forall i :: n <= i < |slots| ==> slots[i].Free?)
  }

  /** The node, with nodes of `heap` below it, stands for the tree. */
  ghost predicate Is(heap: set<Node>, n: Node?, t: Tree)
    reads heap
    decreases t
  {
    if t.Absent? then n == null
    else
      && n != null && n in heap && n.meta == t.meta
      && (match t
          case Absent => true
          case Plain(_) => n.kind == NoKind
          case Scalar(_, text) => n.kind == ScalarKind && n.text == text
          case Mapping(_, entries) =>
            && n.kind == MappingKind && Terminated(n.slots, |entries|)
            && forall i :: 0 <= i < |entries| ==> SlotIs(heap, n.slots[i], entries[i])
          case Sequence(_, items) =>
            && n.kind == SequenceKind && |n.items| == |items|
            && forall i :: 0 <= i < |items| ==> Is(heap, n.items[i], items[i]))
  }

  ghost predicate SlotIs(heap: set<Node>, s: Slot, p: Pair)
    reads heap
    decreases p
  {
    s.Used? && s.key == p.key && Is(heap, s.value, p.value)
  }

  ghost predicate EntriesAre(heap: set<Node>, slots: seq<Slot>, entries: seq<Pair>)
    reads heap
  {
    Terminated(slots, |entries|) && forall i :: 0 <= i < |entries| ==> SlotIs(heap, slots[i], entries[i])
  }

  lemma {:induction false} IsMore(heap: set<Node>, more: set<Node>, n: Node?, t: Tree)
    requires Is(heap, n, t) && heap <= more
    ensures Is(more, n, t)
    decreases t
  {
    match t {
      case Mapping(_, entries) =>
        forall i | 0 <= i < |entries| ensures SlotIs(more, n.slots[i], entries[i]) {
          assert SlotIs(heap, n.slots[i], entries[i]);
          IsMore(heap, more, n.slots[i].value, entries[i].value);
        }
      case Sequence(_, items) =>
        forall i | 0 <= i < |items| ensures Is(more, n.items[i], items[i]) {
          IsMore(heap, more, n.items[i], items[i]);
        }
      case _ =>
    }
  }

  lemma SlotsMore(heap: set<Node>, more: set<Node>, slots: seq<Slot>, entries: seq<Pair>)
    requires heap <= more && |entries| <= |slots|
    requires forall i :: 0 <= i < |entries| ==> SlotIs(heap, slots[i], entries[i])
    ensures forall i :: 0 <= i < |entries| ==> SlotIs(more, slots[i], entries[i])
  {
    forall i | 0 <= i < |entries| ensures SlotIs(more, slots[i], entries[i]) {
      IsMore(heap, more, slots[i].value, entries[i].value);
    }
  }

  // ----- Reading -----

  /** The loop of `yaml_size`: stays in the buffer and counts the entries. */
  method CountSlots(slots: seq<Slot>, ghost n: nat) returns (c: nat)
    requires Terminated(slots, n)
    ensures c == n
  {
    c := 0;
    while !slots[c].Free?
      invariant c <= n
      decreases n - c
    {
      c := c + 1;
    }
  }

  function TreeSize(t: Tree): nat {
    match t
    case Mapping(_, entries) => |entries|
    case Sequence(_, items) => |items|
    case _ => 0
  }

  /** `yaml_size` */
  method Size(n: Node?, ghost heap: set<Node>, ghost t: Tree) returns (c: nat)
    requires Is(heap, n, t)
    ensures c == TreeSize(t)
  {
    if n == null {
      return 0;
    }
    if n.kind == MappingKind {
      c := CountSlots(n.slots, TreeSize(t));
    } else if n.kind == SequenceKind {
      c := |n.items|;
    } else {
      c := 0;
    }
  }

  /** The search loop of `yaml_get`, `yaml_has_key` and the merge: the first slot with the key, or the
      number of entries. */
  method FindSlot(slots: seq<Slot>, size: nat, key: string, ghost entries: seq<Pair>, ghost heap: set<Node>)
    returns (i: nat)
    requires size == |entries| && EntriesAre(heap, slots, entries)
    ensures i <= size && (i < size <==> Has(entries, key))
    ensures i < size ==> Lookup(entries, key) == Some(entries[i].value) && SlotIs(heap, slots[i], entries[i])
  {
    hide Is;
    i := 0;
    while i < size
      invariant i <= size && forall j :: 0 <= j < i ==> entries[j].key != key
      invariant Lookup(entries, key) == Lookup(entries[i..], key)
    {
      assert SlotIs(heap, slots[i], entries[i]);
      if slots[i].Used? && slots[i].key == key {
        return;
      }
      assert entries[i..][1..] == entries[i + 1..];
      i := i + 1;
    }
  }

  /** The tree under a key, absent when there is none. */
  function Under(t: Tree, key: string): Tree {
    if t.Mapping? && Lookup(t.entries, key).Some? then Lookup(t.entries, key).value else Absent
  }

  /** `yaml_get` and `yaml_has_key` */
  method Get(n: Node?, key: string, ghost heap: set<Node>, ghost t: Tree) returns (has: bool, v: Node?)
    requires Is(heap, n, t)
    ensures has == (t.Mapping? && Has(t.entries, key))
    ensures Is(heap, v, Under(t, key))
  {
    if t.Mapping? { LookupIff(t.entries, key); }
    if n == null || n.kind != MappingKind {
      return false, null;
    }
    var size := Size(n, heap, t);
    var i := FindSlot(n.slots, size, key, t.entries, heap);
    has := i < size;
    v := if has then n.slots[i].value else null;
  }

  // ----- Copying -----

  function AllFree(n: nat): (r: seq<Slot>)
    ensures |r| == n && forall i :: 0 <= i < n ==> r[i] == Free
  {
    seq(n, _ => Free)
  }

  /** `deep_copy_node`: a tree of new nodes that stands for the same. */
  method DeepCopy(doc: Doc, src: Node?, ghost heap: set<Node>, ghost t: Tree)
    returns (copy: Node?, ghost made: set<Node>)
    requires Is(heap, src, t)
    modifies doc
    ensures Is(made, copy, t) && fresh(made)
    ensures old(doc.nodes) <= doc.nodes && forall n :: n in made ==> n in doc.nodes
    decreases t, 1
  {
    made := {};
    if src == null {
      return null, made;
    }
    var c := doc.Alloc(src.kind);
    ghost var at := |doc.nodes| - 1;
    c.meta := src.meta;
    if src.kind == ScalarKind {
      c.text := src.text;
    } else if src.kind == MappingKind {
      made := CopyEntries(doc, src, c, heap, t);
    } else if src.kind == SequenceKind {
      made := CopyItems(doc, src, c, heap, t);
    }
    assert doc.nodes[at] == c;
    made := made + {c};
    copy := c;
    assert Is(made, copy, t);
  }

  method CopyEntries(doc: Doc, src: Node, c: Node, ghost heap: set<Node>, ghost t: Tree) returns (ghost made: set<Node>)
    requires Is(heap, src, t) && t.Mapping? && c !in heap
    modifies doc, c`slots
    ensures fresh(made) && old(doc.nodes) <= doc.nodes && forall n :: n in made ==> n in doc.nodes
    ensures EntriesAre(made + {c}, c.slots, t.entries)
    decreases t, 0
  {
    hide Is;
    MappingIs(heap, src, t);
    ghost var es := t.entries;
    var size := CountSlots(src.slots, |es|);
    c.slots := AllFree(size + 1);
    made := {};
    for i := 0 to size
      modifies doc, c`slots
      invariant fresh(made) && old(doc.nodes) <= doc.nodes && forall n :: n in made ==> n in doc.nodes
      invariant EntriesAre(heap, src.slots, es)
      invariant |c.slots| == size + 1 && forall j :: i <= j <= size ==> c.slots[j].Free?
      invariant forall j :: 0 <= j < i ==> SlotIs(made, c.slots[j], es[j])
    {
      assert SlotIs(heap, src.slots[i], es[i]);
      var v, new_ := DeepCopy(doc, src.slots[i].value, heap, es[i].value);
      c.slots := c.slots[i := Used(src.slots[i].key, v)];
      SlotsMore(made, made + new_, c.slots, es[..i]);
      IsMore(new_, made + new_, v, es[i].value);
      made := made + new_;
    }
    SlotsMore(made, made + {c}, c.slots, es);
  }

  lemma MappingIs(heap: set<Node>, n: Node, t: Tree)
    requires Is(heap, n, t) && t.Mapping?
    ensures n in heap && n.kind == MappingKind && EntriesAre(heap, n.slots, t.entries)
  {
  }

  lemma AllMore(heap: set<Node>, more: set<Node>, ns: seq<Node?>, ts: seq<Tree>)
    requires heap <= more && |ts| <= |ns| && forall j :: 0 <= j < |ts| ==> Is(heap, ns[j], ts[j])
    ensures forall j :: 0 <= j < |ts| ==> Is(more, ns[j], ts[j])
  {
    hide Is;
    forall j | 0 <= j < |ts| ensures Is(more, ns[j], ts[j]) {
      IsMore(heap, more, ns[j], ts[j]);
    }
  }

  method CopyItems(doc: Doc, src: Node, c: Node, ghost heap: set<Node>, ghost t: Tree) returns (ghost made: set<Node>)
    requires Is(heap, src, t) && t.Sequence? && c !in heap
    modifies doc, c`items
    ensures fresh(made) && old(doc.nodes) <= doc.nodes && forall n :: n in made ==> n in doc.nodes
    ensures |c.items| == |t.items| && forall i :: 0 <= i < |t.items| ==> Is(made + {c}, c.items[i], t.items[i])
    decreases t, 0
  {
    SequenceIs(heap, src, t);
    hide Is;
    ghost var ts := t.items;
    var count := |src.items|;
    c.items := seq(count, _ => null);
    made := {};
    for i := 0 to count
      modifies doc, c`items
      invariant fresh(made) && old(doc.nodes) <= doc.nodes && forall n :: n in made ==> n in doc.nodes
      invariant Is(heap, src, t) && |c.items| == count == |src.items| == |ts|
      invariant forall j :: 0 <= j < i ==> Is(made, c.items[j], ts[j])
    {
      SequenceIs(heap, src, t);
      var v, new_ := DeepCopy(doc, src.items[i], heap, ts[i]);
      c.items := c.items[i := v];
      IsMore(new_, made + new_, v, ts[i]);
      AllMore(made, made + new_, c.items, ts[..i]);
      made := made + new_;
    }
    AllMore(made, made + {c}, c.items, ts);
  }

  lemma SequenceIs(heap: set<Node>, n: Node, t: Tree)
    requires Is(heap, n, t) && t.Sequence?
    ensures n in heap && |n.items| == |t.items| && forall j :: 0 <= j < |n.items| ==> Is(heap, n.items[j], t.items[j])
  {
  }

  lemma SequenceLength(heap: set<Node>, n: Node, t: Tree)
    requires Is(heap, n, t) && t.Sequence?
    ensures n in heap && |n.items| == |t.items|
  {
  }

  lemma ItemIs(heap: set<Node>, n: Node, t: Tree, i: nat)
    requires Is(heap, n, t) && t.Sequence? && i < |n.items|
    ensures |n.items| == |t.items| && Is(heap, n.items[i], t.items[i])
  {
  }

  // ----- Building -----

  /** `yaml_mapping_grow`: the entries stay, everything behind them is cleared. */
  function Grown(slots: seq<Slot>, used: nat, cap: nat): (r: seq<Slot>)
    requires used <= |slots| && used <= cap
    ensures |r| == cap && r[..used] == slots[..used] && forall i :: used <= i < cap ==> r[i] == Free
  {
    slots[..used] + AllFree(cap - used)
  }

  /** What storing `key` with a value does; a merge key takes the mappings in its value. */
  function PutOf(key: string, t: Tree): Put {
    if key == "<<" then Merged(Sources(t)) else Entry(Pair(key, t))
  }

  function Sources(t: Tree): seq<seq<Pair>> {
    if t.Sequence? then AllEntries(t.items) else [Entries(t)]
  }

  function Entries(t: Tree): seq<Pair> {
    if t.Mapping? then t.entries else []
  }

  function AllEntries(ts: seq<Tree>): (r: seq<seq<Pair>>)
    ensures |r| == |ts| && forall i :: 0 <= i < |ts| ==> r[i] == Entries(ts[i])
  {
    if ts == [] then [] else AllEntries(ts[..|ts| - 1]) + [Entries(ts[|ts| - 1])]
  }

  /** How many items come before the first that is not a mapping. */
  function Leading(ts: seq<Tree>): (n: nat)
    ensures n <= |ts| && (forall i :: 0 <= i < n ==> ts[i].Mapping?) && (n < |ts| ==> !ts[n].Mapping?)
  {
    if ts == [] || !ts[0].Mapping? then 0 else 1 + Leading(ts[1..])
  }

  /** What a merge takes from its value before it succeeds or gives up. */
  function Taken(t: Tree): seq<seq<Pair>> {
    if t.Sequence? then AllEntries(t.items)[..Leading(t.items)] else if t.Mapping? then [t.entries] else []
  }

  lemma TakenAll(t: Tree)
    requires Mergeable(t)
    ensures Taken(t) == Sources(t)
  {
    if t.Sequence? {
      assert AllEntries(t.items)[..|t.items|] == AllEntries(t.items);
    }
  }

  /** The value of a merge key is a mapping or a sequence of mappings. */
  predicate Mergeable(t: Tree) {
    if t.Sequence? then forall i :: 0 <= i < |t.items| ==> t.items[i].Mapping? else t.Mapping?
  }

  /** The first of some mappings that has the key. */
  predicate FirstHaving(ts: seq<Tree>, k: string, i: nat) {
    && i < |ts| && ts[i].Mapping? && Has(ts[i].entries, k)
    && forall j :: 0 <= j < i ==> ts[j].Mapping? && !Has(ts[j].entries, k)
  }

  lemma {:induction false} FirstWithIs(lists: seq<seq<Pair>>, k: string)
    ensures forall i :: 0 <= i < |lists| && Has(lists[i], k) && (forall j :: 0 <= j < i ==> !Has(lists[j], k)) ==>
              FirstWith(lists, k) == Lookup(lists[i], k)
    ensures (forall i :: 0 <= i < |lists| ==> !Has(lists[i], k)) ==> FirstWith(lists, k) == None
    decreases |lists|
  {
    hide Has, Lookup;
    if lists != [] && !Has(lists[0], k) {
      var rest := lists[1..];
      FirstWithIs(rest, k);
      assert forall i :: 0 < i < |lists| ==> lists[i] == rest[i - 1];
      assert forall i :: 0 <= i < |rest| ==> rest[i] == lists[i + 1];
    }
  }

  /** What a key has after a `<<`: what it had, else what the first mapping with the key gives. */
  lemma MergedLookup(entries: seq<Pair>, t: Tree, k: string)
    requires Mergeable(t)
    ensures var ts, after := if t.Sequence? then t.items else [t], Lookup(Store(entries, PutOf("<<", t)), k);
            && (Has(entries, k) ==> after == Lookup(entries, k))
            && (forall i: nat :: !Has(entries, k) && FirstHaving(ts, k, i) ==> after == Lookup(ts[i].entries, k))
            && (!Has(entries, k) && (forall i :: 0 <= i < |ts| ==> !Has(ts[i].entries, k)) ==> after == None)
  {
    hide Has, Lookup, MergeAll, AllEntries;
    var lists := Sources(t);
    MergeAllLookup(entries, lists, k);
    assert ([entries] + lists)[0] == entries && ([entries] + lists)[1..] == lists;
    FirstWithIs(lists, k);
    var ts := if t.Sequence? then t.items else [t];
    assert |lists| == |ts| && forall i :: 0 <= i < |ts| ==> lists[i] == ts[i].entries;
  }

  /** `ymap_builder`, with the trees its entries stand for. */
  class Builder {
    var node: Node
    var size: nat
    var cap: nat
    ghost var heap: set<Node>
    ghost var entries: seq<Pair>

    /** The mapping under construction holds the entries. */
    ghost predicate Held()
      reads this`node, this`heap, this`entries, node, heap
    {
      node !in heap && node.kind == MappingKind && EntriesAre(heap, node.slots, entries)
    }

    ghost predicate Valid()
      reads this, node, heap
    {
      Held() && size == |entries| && cap == |node.slots|
    }

    /** `ymap_init` */
    constructor (doc: Doc)
      modifies doc
      ensures Valid() && fresh(node) && entries == [] && heap == {} && doc.nodes == old(doc.nodes) + [node]
    {
      var n := doc.Alloc(MappingKind);
      n.slots := AllFree(8);
      node, size, cap, heap, entries := n, 0, 8, {}, [];
    }

    /** `yaml_mapping_append` */
    method Append(key: string, val: Node?, ghost from: set<Node>, ghost t: Tree)
      requires Valid() && Is(from, val, t) && node !in from
      modifies this`size, this`cap, this`heap, this`entries, node`slots
      ensures Valid() && heap == old(heap) + from && entries == old(entries) + [Pair(key, t)]
    {
      hide Is, EntriesAre;
      EntriesEnd(heap, node.slots, entries);
      if size + 1 >= cap {
        GrowKeeps(heap, node.slots, entries, cap * 2);
        cap := cap * 2;
        node.slots := Grown(node.slots, size, cap);
      }
      SetSlot(size, key, val, from, t);
      size := size + 1;
    }

    /** `merge_mapping_into`: the new capacity, or 0 for a value that is not a mapping.
        The branch that would grow the buffer a second time is never taken. */
    method MergeFrom(doc: Doc, source: Node?, ghost from: set<Node>, ghost t: Tree) returns (one: nat)
      requires Held() && Is(from, source, t) && node !in from
      modifies this`heap, this`entries, node`slots, doc
      ensures Held() && heap >= old(heap) && fresh(heap - old(heap)) && old(doc.nodes) <= doc.nodes
      ensures entries == Merge(old(entries), Entries(t))
      ensures one == if t.Mapping? then |node.slots| else 0
      ensures !t.Mapping? ==> node.slots == old(node.slots)
    {
      if source == null || source.kind != MappingKind {
        return 0;
      }
      MappingIs(from, source, t);
      hide Is, Merge, EntriesAre;
      ghost var sourced, target := t.entries, entries;
      EntriesEnd(from, source.slots, sourced);
      EntriesEnd(heap, node.slots, target);
      var srcSize := CountSlots(source.slots, |sourced|);
      var tgtSize := CountSlots(node.slots, |target|);
      var room := tgtSize + 1;
      while room <= tgtSize + srcSize
        modifies {}
        invariant room > tgtSize
      {
        room := room * 2;
      }
      GrowKeeps(heap, node.slots, target, room);
      node.slots := Grown(node.slots, tgtSize, room);
      NoSource(target, sourced[..0]);
      for i := 0 to srcSize
        modifies this`heap, this`entries, node`slots, doc
        invariant Held() && heap >= old(heap) && fresh(heap - old(heap)) && old(doc.nodes) <= doc.nodes
        invariant EntriesAre(from, source.slots, sourced)
        invariant entries == Merge(target, sourced[..i]) && |entries| <= tgtSize + i && |node.slots| == room
      {
        MergeStep(target, sourced, i);
        OneSlot(from, source.slots, sourced, i);
        MergeEntry(doc, source.slots[i], room, from, sourced[i]);
      }
      assert sourced[..srcSize] == sourced;
      one := room;
    }

    /** One round of the merge: the entry is copied unless its key is present. */
    method MergeEntry(doc: Doc, slot: Slot, room: nat, ghost from: set<Node>, ghost p: Pair)
      requires Held() && SlotIs(from, slot, p) && node !in from && |entries| + 1 < |node.slots| == room
      modifies this`heap, this`entries, node`slots, doc
      ensures Held() && heap >= old(heap) && fresh(heap - old(heap)) && old(doc.nodes) <= doc.nodes
      ensures entries == AddMissing(old(entries), p) && |node.slots| == room
    {
      hide Is, EntriesAre;
      EntriesEnd(heap, node.slots, entries);
      var current := CountSlots(node.slots, |entries|);
      var at := FindSlot(node.slots, current, slot.key, entries, heap);
      if at == current {
        if current + 1 >= room {
          assert false;
        }
        var v, made := DeepCopy(doc, slot.value, from, p.value);
        SetSlot(current, slot.key, v, made, p.value);
      }
    }

    /** Writes the first free slot, which is not the last. */
    method SetSlot(at: nat, key: string, v: Node?, ghost made: set<Node>, ghost t: Tree)
      requires Held() && at == |entries| && at + 1 < |node.slots| && Is(made, v, t) && node !in made
      modifies this`heap, this`entries, node`slots
      ensures Held() && heap == old(heap) + made && entries == old(entries) + [Pair(key, t)]
      ensures |node.slots| == |old(node.slots)|
    {
      hide Is;
      ghost var was := node.slots;
      node.slots := node.slots[at := Used(key, v)];
      SlotsMore(heap, heap + made, was, entries);
      IsMore(made, heap + made, v, t);
      heap, entries := heap + made, entries + [Pair(key, t)];
    }

    /** `apply_merge_key`: stops at the first item that is not a mapping. */
    method ApplyMerge(doc: Doc, val: Node, ghost from: set<Node>, ghost t: Tree) returns (ok: bool)
      requires Valid() && Is(from, val, t) && node !in from
      modifies this`cap, this`heap, this`entries, node`slots, doc
      ensures Held() && cap == |node.slots| && ok == Mergeable(t) && old(doc.nodes) <= doc.nodes
      ensures entries == MergeAll(old(entries), Taken(t))
    {
      if val.kind == SequenceKind {
        ok := MergeItems(doc, val, from, t);
      } else {
        ghost var target := entries;
        var one := MergeFrom(doc, val, from, t);
        if one == 0 {
          MergeNothing(target, []);
          NoSource(target, []);
          return false;
        }
        MergeOne(target, Entries(t));
        cap := one;
        ok := true;
      }
    }

    method MergeItems(doc: Doc, val: Node, ghost from: set<Node>, ghost t: Tree) returns (ok: bool)
      requires Valid() && Is(from, val, t) && node !in from && t.Sequence?
      modifies this`cap, this`heap, this`entries, node`slots, doc
      ensures Held() && cap == |node.slots| && ok == Mergeable(t) && old(doc.nodes) <= doc.nodes
      ensures entries == MergeAll(old(entries), Taken(t))
    {
      hide Is, Merge, MergeAll, EntriesAre, Mergeable, Held, AllEntries, Terminated, SlotIs;
      SequenceLength(from, val, t);
      ghost var target, sources := entries, AllEntries(t.items);
      MergeNothing(target, sources[..0]);
      for i := 0 to |val.items|
        modifies this`cap, this`heap, this`entries, node`slots, doc
        invariant Held() && cap == |node.slots| && old(doc.nodes) <= doc.nodes
        invariant entries == MergeAll(target, sources[..i]) && Is(from, val, t)
        invariant forall j :: 0 <= j < i ==> t.items[j].Mapping?
      {
        ItemIs(from, val, t, i);
        ghost var was := entries;
        var one := MergeFrom(doc, val.items[i], from, t.items[i]);
        HeldRoom();
        if one == 0 {
          NotMergeable(t, i);
          NoSource(was, []);
          assert i == Leading(t.items);
          return false;
        }
        MergeAllStep(target, sources, i);
        cap := one;
      }
      AllMergeable(t);
      assert Leading(t.items) == |t.items|;
      ok := true;
    }

    lemma HeldRoom()
      requires Held()
      ensures |node.slots| > |entries|
    {
    }

    /** `ymap_put` */
    method Put(doc: Doc, key: string, val: Node, ghost from: set<Node>, ghost t: Tree) returns (ok: bool)
      requires Valid() && Is(from, val, t) && node !in from
      modifies this`size, this`cap, this`heap, this`entries, node`slots, doc
      ensures Held() && cap == |node.slots| && (ok ==> Valid()) && ok == (key == "<<" ==> Mergeable(t))
      ensures ok ==> entries == Store(old(entries), PutOf(key, t))
      ensures !ok ==> entries == MergeAll(old(entries), Taken(t)) && size == old(size)
      ensures old(doc.nodes) <= doc.nodes
    {
      hide Is, Mergeable, EntriesAre, MergeAll;
      if key == "<<" {
        ok := ApplyMerge(doc, val, from, t);
        if !ok {
          return;
        }
        TakenAll(t);
        size := Count();
      } else {
        Append(key, val, from, t);
        ok := true;
      }
    }

    method Count() returns (c: nat)
      requires Held()
      ensures c == |entries|
    {
      c := CountSlots(node.slots, |entries|);
    }
  }

  lemma GrowKeeps(heap: set<Node>, slots: seq<Slot>, entries: seq<Pair>, cap: nat)
    requires EntriesAre(heap, slots, entries) && |entries| < cap
    ensures EntriesAre(heap, Grown(slots, |entries|, cap), entries)
  {
    hide SlotIs;
    var grown := Grown(slots, |entries|, cap);
    forall i | 0 <= i < |entries| ensures grown[i] == slots[i] {
      assert grown[..|entries|][i] == slots[..|entries|][i];
    }
  }

  lemma EntriesEnd(heap: set<Node>, slots: seq<Slot>, entries: seq<Pair>)
    requires EntriesAre(heap, slots, entries)
    ensures Terminated(slots, |entries|)
  {
  }

  lemma OneSlot(heap: set<Node>, slots: seq<Slot>, entries: seq<Pair>, i: nat)
    requires EntriesAre(heap, slots, entries) && i < |entries|
    ensures i < |slots| && SlotIs(heap, slots[i], entries[i])
  {
  }

  lemma NoSource(target: seq<Pair>, source: seq<Pair>)
    requires source == []
    ensures Merge(target, source) == target
  {
  }

  lemma MergeStep(target: seq<Pair>, source: seq<Pair>, i: nat)
    requires i < |source|
    ensures Merge(target, source[..i + 1]) == AddMissing(Merge(target, source[..i]), source[i])
  {
    assert source[..i + 1][..i] == source[..i];
  }

  lemma MergeNothing(target: seq<Pair>, sources: seq<seq<Pair>>)
    requires sources == []
    ensures MergeAll(target, sources) == target
  {
  }

  lemma MergeAllStep(target: seq<Pair>, sources: seq<seq<Pair>>, i: nat)
    requires i < |sources|
    ensures MergeAll(target, sources[..i + 1]) == Merge(MergeAll(target, sources[..i]), sources[i])
  {
    assert sources[..i + 1][..i] == sources[..i];
  }

  lemma MergeOne(target: seq<Pair>, source: seq<Pair>)
    ensures MergeAll(target, [source]) == Merge(target, source)
  {
    assert [source][..0] == [];
  }

  lemma NotMergeable(t: Tree, i: nat)
    requires t.Sequence? && i < |t.items| && !t.items[i].Mapping?
    ensures !Mergeable(t)
  {
  }

  lemma AllMergeable(t: Tree)
    requires t.Sequence? && forall i :: 0 <= i < |t.items| ==> t.items[i].Mapping?
    ensures Mergeable(t)
  {
  }
}
