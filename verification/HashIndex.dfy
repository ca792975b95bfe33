/**
 The open-addressing string index of utils/ds/hindex.c: djb2, linear probing, tombstones,
 compaction at the same capacity.  Allocation outcomes are parameters.
 */
module HashIndex {

  type Key = string

  /** `unsigned long` on the LP64 platforms. */
  const ULONG := 0x1_0000_0000_0000_0000

  datatype Slot = Empty | Dead | Live(key: Key, index: nat)

  datatype Status = Success | OutOfMemory

  function Djb2(s: Key): (h: nat)
    ensures h < ULONG
  {
    if s == "" then 5381 else (Djb2(s[..|s| - 1]) * 33 + s[|s| - 1] as int) % ULONG
  }

  function Pow33(n: nat): nat {
    if n == 0 then 1 else 33 * Pow33(n - 1)
  }

  /** The characters as coefficients of powers of 33, behind the 5381 in front. */
  function Polynomial(s: Key): nat {
    5381 * Pow33(|s|) + Terms(s, 0)
  }

  function Terms(s: Key, k: nat): nat
    requires k <= |s|
    decreases |s| - k
  {
    if k == |s| then 0 else s[k] as int * Pow33(|s| - 1 - k) + Terms(s, k + 1)
  }

  lemma {:induction false} TermsAppend(s: Key, c: char, k: nat)
    requires k <= |s|
    ensures Terms(s + [c], k) == 33 * Terms(s, k) + c as int
    decreases |s| - k
  {
    var t := s + [c];
    if k == |s| {
      assert Terms(t, k + 1) == 0 && Pow33(0) == 1;
    } else {
      TermsAppend(s, c, k + 1);
      Times33(s[k] as int, Pow33(|s| - 1 - k), Terms(s, k + 1));
    }
  }

  lemma Times33(d: int, p: nat, rest: int)
    ensures d * (33 * p) + 33 * rest == 33 * (d * p + rest)
  {
  }

  /** The hash is that polynomial, modulo the width of the word. */
  lemma {:induction false} HashIsPolynomial(s: Key)
    ensures Djb2(s) == Polynomial(s) % ULONG
    decreases |s|
  {
    if s != "" {
      var front, c := s[..|s| - 1], s[|s| - 1];
      HashIsPolynomial(front);
      TermsAppend(front, c, 0);
      assert s == front + [c];
      assert Polynomial(s) == 33 * Polynomial(front) + c as int;
      WrapStep(Polynomial(front), c as int);
    }
  }

  lemma WrapStep(x: nat, c: nat)
    ensures ((x % ULONG) * 33 + c) % ULONG == (33 * x + c) % ULONG
  {
    var q := x / ULONG;
    assert 33 * x + c == (x % ULONG) * 33 + c + ULONG * (33 * q);
    WholeWords((x % ULONG) * 33 + c, 33 * q);
  }

  lemma WholeWords(a: nat, k: nat)
    ensures (a + ULONG * k) % ULONG == a % ULONG
  {
  }

  method Hash(s: Key) returns (h: nat)
    ensures h == Djb2(s) == Polynomial(s) % ULONG
  {
    HashIsPolynomial(s);
    hide Polynomial;
    h := 5381;
    for i := 0 to |s|
      invariant h == Djb2(s[..i])
    {
      assert s[..i + 1][..i] == s[..i];
      h := (h * 33 + s[i] as int) % ULONG;
    }
    assert s[..|s|] == s;
  }

  function Home(k: Key, cap: nat): (p: nat)
    requires cap > 0
    ensures p < cap
  {
    Djb2(k) % cap
  }

  /** The slot examined after `d` steps from `home`. */
  function Probe(home: nat, d: nat, cap: nat): (p: nat)
    requires home < cap && d < cap
    ensures p < cap
  {
    if home + d < cap then home + d else home + d - cap
  }

  /** How many steps lead from `home` to `p`. */
  function Dist(home: nat, p: nat, cap: nat): (d: nat)
    requires home < cap && p < cap
    ensures d < cap && Probe(home, d, cap) == p
  {
    if home <= p then p - home else p + cap - home
  }

  lemma NextSlot(p: nat, cap: nat)
    requires p < cap
    ensures (p + 1) % cap == if p + 1 == cap then 0 else p + 1
  {
  }

  /** How many slots are not EMPTY. */
  function Occupied(s: seq<Slot>): (n: nat)
    ensures n <= |s|
  {
    if s == [] then 0 else Occupied(s[..|s| - 1]) + if s[|s| - 1].Empty? then 0 else 1
  }

  lemma {:induction false} OccupiedUpdate(s: seq<Slot>, p: nat, x: Slot)
    requires p < |s|
    ensures Occupied(s[p := x]) == Occupied(s) - (if s[p].Empty? then 0 else 1) + (if x.Empty? then 0 else 1)
    decreases |s|
  {
    var t := s[p := x];
    if p == |s| - 1 {
      assert t[..|t| - 1] == s[..|s| - 1];
    } else {
      OccupiedUpdate(s[..|s| - 1], p, x);
      assert t[..|t| - 1] == s[..|s| - 1][p := x];
    }
  }

  /** A table that is not full has an EMPTY slot. */
  lemma {:induction false} RoomLeft(s: seq<Slot>) returns (p: nat)
    requires Occupied(s) < |s|
    ensures p < |s| && s[p].Empty?
    decreases |s|
  {
    if s[|s| - 1].Empty? {
      p := |s| - 1;
    } else {
      p := RoomLeft(s[..|s| - 1]);
    }
  }

  lemma {:induction false} NoneOccupied(s: seq<Slot>)
    requires forall p :: 0 <= p < |s| ==> s[p].Empty?
    ensures Occupied(s) == 0
    decreases |s|
  {
    if s != [] {
      NoneOccupied(s[..|s| - 1]);
    }
  }

  /** No EMPTY slot cuts the probe sequence before `p`. */
  ghost predicate Reached(s: seq<Slot>, home: nat, p: nat)
    requires home < |s| && p < |s|
  {
    forall d: nat :: d < Dist(home, p, |s|) ==> !s[Probe(home, d, |s|)].Empty?
  }

  /** The slots hold exactly the entries of `m`, each where a probe will find it. */
  ghost predicate Represents(s: seq<Slot>, m: map<Key, nat>) {
    && |s| > 0
    && (forall p :: 0 <= p < |s| && s[p].Live? ==> s[p].key in m && m[s[p].key] == s[p].index)
    && (forall p :: 0 <= p < |s| && s[p].Live? ==> Reached(s, Home(s[p].key, |s|), p))
    && (forall p, q :: 0 <= p < |s| && 0 <= q < |s| && s[p].Live? && s[q].Live? && s[p].key == s[q].key ==> p == q)
    && (forall k :: k in m ==> exists p :: 0 <= p < |s| && s[p].Live? && s[p].key == k)
  }

  /** Placing a new key at the first EMPTY slot of its probe sequence. */
  lemma Placed(s: seq<Slot>, m: map<Key, nat>, p: nat, key: Key, index: nat)
    requires Represents(s, m) && p < |s| && s[p].Empty? && key !in m
    requires Reached(s, Home(key, |s|), p)
    ensures Represents(s[p := Live(key, index)], m[key := index])
  {
    var t := s[p := Live(key, index)];
    assert t[p].key == key;
    forall k | k in m ensures exists q :: 0 <= q < |t| && t[q].Live? && t[q].key == k {
      var q :| 0 <= q < |s| && s[q].Live? && s[q].key == k;
      assert t[q] == s[q];
    }
    forall q | 0 <= q < |t| && t[q].Live? ensures Reached(t, Home(t[q].key, |t|), q) {
      if q != p { assert Reached(s, Home(s[q].key, |s|), q); }
    }
  }

  /** What a live slot says about the map: its entry, and no other slot has the key. */
  lemma EntryAt(s: seq<Slot>, m: map<Key, nat>, p: nat)
    requires Represents(s, m) && p < |s| && s[p].Live?
    ensures s[p].key in m && m[s[p].key] == s[p].index
    ensures forall q :: 0 <= q < |s| && s[q].Live? && q != p ==> s[q].key != s[p].key
  {
  }

  lemma SlotOf(s: seq<Slot>, m: map<Key, nat>, k: Key) returns (p: nat)
    requires Represents(s, m) && k in m
    ensures p < |s| && s[p] == Live(k, m[k])
  {
    var q :| 0 <= q < |s| && s[q].Live? && s[q].key == k;
    p := q;
  }

  /** `m` holds the live entries among the first `i` slots. */
  ghost predicate Moved(s: seq<Slot>, i: nat, m: map<Key, nat>, contents: map<Key, nat>) {
    && i <= |s|
    && (forall k :: k in m ==> k in contents && m[k] == contents[k])
    && (forall p :: 0 <= p < i && s[p].Live? ==> s[p].key in m)
    && (forall k :: k in m ==> exists p :: 0 <= p < i && s[p].Live? && s[p].key == k)
  }

  lemma NoneMoved(s: seq<Slot>, contents: map<Key, nat>)
    ensures Moved(s, 0, map[], contents)
  {
  }

  lemma MovedOne(s: seq<Slot>, i: nat, m: map<Key, nat>, contents: map<Key, nat>)
    requires Represents(s, contents) && Moved(s, i, m, contents) && i < |s|
    ensures s[i].Live? ==> s[i].key !in m && Moved(s, i + 1, m[s[i].key := s[i].index], contents)
    ensures !s[i].Live? ==> Moved(s, i + 1, m, contents)
  {
    hide Represents;
    if s[i].Live? {
      EntryAt(s, contents, i);
      var m' := m[s[i].key := s[i].index];
      forall k | k in m' ensures exists p :: 0 <= p < i + 1 && s[p].Live? && s[p].key == k {
        if k == s[i].key {
          assert s[i].key == k;
        }
      }
    }
  }

  lemma MovedAll(s: seq<Slot>, m: map<Key, nat>, contents: map<Key, nat>)
    requires Represents(s, contents) && Moved(s, |s|, m, contents)
    ensures m == contents
  {
    hide Represents;
    forall k | k in contents ensures k in m {
      var p := SlotOf(s, contents, k);
      assert s[p].key in m;
    }
  }

  lemma NoEntries(s: seq<Slot>)
    requires |s| > 0 && forall p :: 0 <= p < |s| ==> s[p].Empty?
    ensures Represents(s, map[]) && Occupied(s) == 0
  {
    NoneOccupied(s);
  }

  lemma Buried(s: seq<Slot>, m: map<Key, nat>, p: nat)
    requires Represents(s, m) && p < |s| && s[p].Live?
    ensures Represents(s[p := Dead], m - {s[p].key}) && |m - {s[p].key}| == |m| - 1
  {
    var t := s[p := Dead];
    var n := m - {s[p].key};
    assert n.Keys == m.Keys - {s[p].key};
    forall k | k in n ensures exists q :: 0 <= q < |t| && t[q].Live? && t[q].key == k {
      var q :| 0 <= q < |s| && s[q].Live? && s[q].key == k;
      assert t[q] == s[q];
    }
    forall q | 0 <= q < |t| && t[q].Live? ensures Reached(t, Home(t[q].key, |t|), q) {
      assert Reached(s, Home(s[q].key, |s|), q);
    }
  }

  lemma Renumbered(s: seq<Slot>, m: map<Key, nat>, p: nat, index: nat)
    requires Represents(s, m) && p < |s| && s[p].Live?
    ensures Represents(s[p := Live(s[p].key, index)], m[s[p].key := index])
  {
    var t := s[p := Live(s[p].key, index)];
    forall k | k in m ensures exists q :: 0 <= q < |t| && t[q].Live? && t[q].key == k {
      var q :| 0 <= q < |s| && s[q].Live? && s[q].key == k;
      assert t[q].key == s[q].key;
    }
    forall q | 0 <= q < |t| && t[q].Live? ensures Reached(t, Home(t[q].key, |t|), q) {
      assert Reached(s, Home(s[q].key, |s|), q);
    }
  }

  class Index {
    var ents: array<Slot>
    var cap: nat
    var cnt: nat
    var used: nat
    ghost var contents: map<Key, nat>

    ghost predicate Valid()
      reads this, ents
    {
      && ents.Length == cap > 0
      && Represents(ents[..], contents)
      && cnt == |contents|
      && used == Occupied(ents[..])
      && cnt <= used
    }

    constructor (cap: nat)
      requires cap > 0
      ensures Valid() && fresh(ents) && this.cap == cap && contents == map[]
    {
      ents := new Slot[cap](_ => Empty);
      this.cap, cnt, used := cap, 0, 0;
      contents := map[];
      new;
      NoneOccupied(ents[..]);
    }

    /** hindex_scan: the live slot of `key`, or -1; a probe never stops short of it. */
    method Scan(key: Key) returns (found: int)
      requires Valid()
      ensures found >= 0 <==> key in contents
      ensures found >= 0 ==> found < cap && ents[found].Live? && ents[found].key == key
      ensures found < 0 ==> found == -1
    {
      hide Represents, Reached, Djb2, Occupied;
      var home := Hash(key);
      var pos := home % cap;
      ghost var h := Home(key, cap);
      ghost var s := ents[..];
      var i := 0;
      while i < cap
        invariant 0 <= i <= cap && pos == (if i < cap then Probe(h, i, cap) else h)
        invariant forall d: nat :: d < i ==> !s[Probe(h, d, cap)].Empty?
        invariant forall d: nat :: d < i ==> !(s[Probe(h, d, cap)].Live? && s[Probe(h, d, cap)].key == key)
      {
        if ents[pos].Empty? {
          NotBeyond(s, contents, key, i);
          return -1;
        }
        if ents[pos].Live? && ents[pos].key == key {
          EntryAt(s, contents, pos);
          return pos;
        }
        NextSlot(pos, cap);
        i, pos := i + 1, (pos + 1) % cap;
      }
      NotAnywhere(s, contents, key);
      found := -1;
    }

    /** hindex_pack: the live entries rebuilt in a fresh table without tombstones. */
    method Pack()
      requires Valid()
      modifies this
      ensures Valid() && fresh(ents) && cap == old(cap) && contents == old(contents)
      ensures cnt == used == old(cnt)
    {
      hide Represents, Reached, Occupied, Moved;
      var neu := new Slot[cap](_ => Empty);
      NoEntries(neu[..]);
      NoneMoved(ents[..], contents);
      var live := 0;
      ghost var m: map<Key, nat> := map[];
      var i := 0;
      while i < cap
        modifies neu
        invariant 0 <= i <= cap && live <= i
        invariant Represents(neu[..], m) && |m| == live == Occupied(neu[..])
        invariant forall p :: 0 <= p < cap ==> !neu[p].Dead?
        invariant Moved(ents[..], i, m, contents)
      {
        MovedOne(ents[..], i, m, contents);
        if ents[i].Live? {
          Rehash(neu, ents[i], m);
          m := m[ents[i].key := ents[i].index];
          live := live + 1;
        }
        i := i + 1;
      }
      MovedAll(ents[..], m, contents);
      ents := neu;
      cnt, used := live, live;
    }

    /** hindex_put; `packOk` and `dupOk` say whether the two allocations succeed. */
    method Put(key: Key, index: nat, packOk: bool, dupOk: bool) returns (rc: Status)
      requires Valid()
      modifies this, ents
      ensures Valid() && cap == old(cap) && (ents == old(ents) || fresh(ents))
      ensures rc == Success ==> contents == old(contents)[key := index]
      ensures rc == OutOfMemory ==> contents == old(contents)
      ensures packOk && dupOk ==> (rc == OutOfMemory <==> key !in old(contents) && |old(contents)| * 4 >= cap * 3)
      ensures key in old(contents) ==> rc == Success
    {
      hide Represents, Reached, Occupied, Djb2, Home;
      var found := Scan(key);
      if found >= 0 {
        ghost var s := ents[..];
        Renumbered(s, contents, found, index);
        OccupiedUpdate(s, found, Live(key, index));
        ents[found] := Live(ents[found].key, index);
        assert ents[..] == s[found := Live(key, index)];
        contents := contents[key := index];
        return Success;
      }
      if used * 4 >= cap * 3 {
        if used > cnt {
          if !packOk {
            return OutOfMemory;
          }
          Pack();
        }
        if used * 4 >= cap * 3 {
          return OutOfMemory;
        }
      }
      if !dupOk {
        return OutOfMemory;
      }
      var pos := FreeSlot(ents, key);
      ghost var s := ents[..];
      Placed(s, contents, pos, key, index);
      OccupiedUpdate(s, pos, Live(key, index));
      ents[pos] := Live(key, index);
      assert ents[..] == s[pos := Live(key, index)];
      contents := contents[key := index];
      cnt, used := cnt + 1, used + 1;
      rc := Success;
    }

    /** hindex_get: the index stored under `key`, or -1. */
    method Get(key: Key) returns (index: int)
      requires Valid()
      ensures index == if key in contents then contents[key] else -1
    {
      if cnt == 0 {
        assert contents == map[];
        return -1;
      }
      var pos := Scan(key);
      if pos < 0 {
        return -1;
      }
      assert ents[..][pos] == ents[pos];
      index := ents[pos].index;
    }

    /** hindex_del: the entry goes, its slot stays occupied as a tombstone. */
    method Delete(key: Key)
      requires Valid()
      modifies this, ents
      ensures Valid() && cap == old(cap) && ents == old(ents) && contents == old(contents) - {key}
    {
      hide Represents, Reached, Occupied;
      if cnt == 0 {
        assert contents == map[] && contents - {key} == contents;
        return;
      }
      var pos := Scan(key);
      if pos < 0 {
        assert contents - {key} == contents;
        return;
      }
      ghost var s := ents[..];
      Buried(s, contents, pos);
      OccupiedUpdate(s, pos, Dead);
      ents[pos] := Dead;
      assert ents[..] == s[pos := Dead];
      contents := contents - {key};
      cnt := cnt - 1;
    }
  }

  /** One round of hindex_pack: a live entry goes to the first EMPTY slot of its probe sequence. */
  method Rehash(neu: array<Slot>, e: Slot, ghost m: map<Key, nat>)
    requires neu.Length > 0 && e.Live? && e.key !in m && Represents(neu[..], m) && Occupied(neu[..]) < neu.Length
    requires forall p :: 0 <= p < neu.Length ==> !neu[p].Dead?
    modifies neu
    ensures Represents(neu[..], m[e.key := e.index]) && Occupied(neu[..]) == Occupied(old(neu[..])) + 1
    ensures forall p :: 0 <= p < neu.Length ==> !neu[p].Dead?
  {
    hide Represents, Reached, Occupied;
    var pos := FreeSlot(neu, e.key);
    Placed(neu[..], m, pos, e.key, e.index);
    OccupiedUpdate(neu[..], pos, e);
    ghost var s := neu[..];
    neu[pos] := e;
    assert neu[..] == s[pos := e];
  }

  /** The first EMPTY slot on the probe sequence of `key`; there is one in any table that
      is not full. */
  method FreeSlot(ents: array<Slot>, key: Key) returns (pos: nat)
    requires ents.Length > 0 && Occupied(ents[..]) < ents.Length
    ensures pos < ents.Length && ents[pos].Empty? && Reached(ents[..], Home(key, ents.Length), pos)
  {
    var cap := ents.Length;
    var home := Hash(key);
    pos := home % cap;
    ghost var h := Home(key, cap);
    ghost var room := RoomLeft(ents[..]);
    ghost var i := 0;
    while !ents[pos].Empty?
      invariant i <= Dist(h, room, cap) && pos == Probe(h, i, cap)
      invariant forall d: nat :: d < i ==> !ents[..][Probe(h, d, cap)].Empty?
      decreases cap - i
    {
      NextSlot(pos, cap);
      pos := (pos + 1) % cap;
      i := i + 1;
    }
  }

  lemma NotAnywhere(s: seq<Slot>, m: map<Key, nat>, key: Key)
    requires Represents(s, m)
    requires forall d: nat :: d < |s| ==>
               !(s[Probe(Home(key, |s|), d, |s|)].Live? && s[Probe(Home(key, |s|), d, |s|)].key == key)
    ensures key !in m
  {
    forall p | 0 <= p < |s| && s[p].Live? ensures s[p].key != key {
      assert p == Probe(Home(key, |s|), Dist(Home(key, |s|), p, |s|), |s|);
    }
  }

  /** A probe that meets an EMPTY slot has passed every place where the key could be. */
  lemma NotBeyond(s: seq<Slot>, m: map<Key, nat>, key: Key, i: nat)
    requires Represents(s, m) && i < |s| && s[Probe(Home(key, |s|), i, |s|)].Empty?
    requires forall d: nat :: d < i ==>
               !(s[Probe(Home(key, |s|), d, |s|)].Live? && s[Probe(Home(key, |s|), d, |s|)].key == key)
    ensures key !in m
  {
  }
}
