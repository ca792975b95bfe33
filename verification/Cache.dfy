/**
 The cache of utils/cache/cache_common.c: every entry hangs in a hash bucket chain and in
 the doubly linked list of recent use, and both are updated in place under one lock.
 The clock is a parameter; allocation succeeds.
 */
module Cache {
  import opened Options
  import opened CacheSpec

  /** HASH_SIZE */
  const HASH_SIZE := 1024

  /** A `char` added to an unsigned hash: bytes above 127 are negative. */
  function SignedChar(c: char): int {
    if c as int % 256 < 128 then c as int % 256 else c as int % 256 - 256
  }

  function StringHash(s: Key): (h: nat)
    ensures h < 0x1_0000_0000
  {
    if s == "" then 5381 else (StringHash(s[..|s| - 1]) * 33 + SignedChar(s[|s| - 1])) % 0x1_0000_0000
  }

  /** cache_string_hash */
  function BucketOf(k: Key): (b: nat)
    ensures b < HASH_SIZE
  {
    StringHash(k) % HASH_SIZE
  }

  class Entry {
    const key: Key
    const value: Value
    const stamp: int
    var prev: Entry?
    var next: Entry?
    var hnext: Entry?

    constructor (key: Key, value: Value, stamp: int)
      ensures this.key == key && this.value == value && this.stamp == stamp
      ensures prev == null && next == null && hnext == null
    {
      this.key, this.value, this.stamp := key, value, stamp;
      prev, next, hnext := null, null, null;
    }
  }

  function First(s: seq<Entry>): Entry? {
    if s == [] then null else s[0]
  }

  function Last(s: seq<Entry>): Entry? {
    if s == [] then null else s[|s| - 1]
  }

  ghost predicate Distinct(s: seq<Entry>) {
    forall i, j :: 0 <= i < j < |s| ==> s[i] != s[j]
  }

  /** `next` and `prev` chain the entries of `s` in order. */
  ghost predicate Chained(s: seq<Entry>)
    reads s`next, s`prev
  {
    && (forall j, k :: 0 <= j < k < |s| && k == j + 1 ==> s[j].next == s[k] && s[k].prev == s[j])
    && (s != [] ==> s[0].prev == null && s[|s| - 1].next == null)
  }

  /** The links run past the entry at `i`. */
  ghost predicate Bridged(s: seq<Entry>, i: nat)
    requires i < |s|
    reads s`next, s`prev
  {
    && (forall j, k :: 0 <= j < k < |s| && k == j + 1 && j != i && k != i ==> s[j].next == s[k] && s[k].prev == s[j])
    && (0 < i < |s| - 1 ==> s[i - 1].next == s[i + 1] && s[i + 1].prev == s[i - 1])
    && (|s| > 1 ==> s[if i == 0 then 1 else 0].prev == null)
    && (|s| > 1 ==> s[if i == |s| - 1 then i - 1 else |s| - 1].next == null)
  }

  /** The ends of a list without the entry at `i`. */
  lemma EndsDrop(s: seq<Entry>, i: nat)
    requires i < |s| && Distinct(s)
    ensures First(Drop(s, i)) == if i > 0 then First(s) else if |s| > 1 then s[1] else null
    ensures Last(Drop(s, i)) == if i + 1 < |s| then Last(s) else if i > 0 then s[i - 1] else null
    ensures forall k :: 0 <= k < |s| - 1 ==> Drop(s, i)[k] in s && Drop(s, i)[k] != s[i]
  {
  }

  lemma BridgedDrop(s: seq<Entry>, i: nat)
    requires i < |s| && Bridged(s, i)
    ensures Chained(Drop(s, i))
  {
    var r := Drop(s, i);
    forall j, k | 0 <= j < k < |r| && k == j + 1 ensures r[j].next == r[k] && r[k].prev == r[j] {
      assert r[j] == s[if j < i then j else j + 1] && r[k] == s[if k < i then k else k + 1];
    }
  }

  /** `hnext` chains the entries of a bucket, starting from `first`. */
  ghost predicate HashChained(first: Entry?, s: seq<Entry>)
    reads s`hnext
  {
    && first == First(s) && Distinct(s)
    && (forall j, k :: 0 <= j < k < |s| && k == j + 1 ==> s[j].hnext == s[k])
    && (s != [] ==> s[|s| - 1].hnext == null)
  }

  lemma InFront(first: Entry?, s: seq<Entry>, e: Entry)
    requires HashChained(first, s) && e !in s && e.hnext == first
    ensures HashChained(e, [e] + s)
  {
  }

  lemma DistinctDrop(s: seq<Entry>, i: nat)
    requires Distinct(s) && i < |s|
    ensures Distinct(Drop(s, i)) && s[i] !in Drop(s, i)
  {
  }

  function ItemOf(e: Entry): Item {
    Item(e.key, e.value, e.stamp)
  }

  function Items(s: seq<Entry>): (r: seq<Item>)
    ensures |r| == |s|
    ensures forall i :: 0 <= i < |s| ==> r[i] == ItemOf(s[i])
  {
    seq(|s|, i requires 0 <= i < |s| => ItemOf(s[i]))
  }

  lemma ItemsDrop(s: seq<Entry>, i: nat)
    requires i < |s|
    ensures Items(Drop(s, i)) == Drop(Items(s), i)
  {
  }

  /** Every entry of the list is in its bucket, and the buckets hold nothing else. */
  ghost predicate SameEntries(order: seq<Entry>, chains: seq<seq<Entry>>) {
    && |chains| == HASH_SIZE
    && (forall e :: e in order ==> e in chains[BucketOf(e.key)])
    && (forall b, e :: 0 <= b < HASH_SIZE && e in chains[b] ==> e in order && BucketOf(e.key) == b)
  }

  lemma SameEntriesDrop(order: seq<Entry>, chains: seq<seq<Entry>>, i: nat, b: nat, k: nat)
    requires SameEntries(order, chains) && Distinct(order) && i < |order| && b < HASH_SIZE
    requires Distinct(chains[b]) && k < |chains[b]| && chains[b][k] == order[i]
    ensures SameEntries(Drop(order, i), chains[b := Drop(chains[b], k)])
  {
    var t, c := Drop(order, i), chains[b := Drop(chains[b], k)];
    forall e | e in t ensures e in c[BucketOf(e.key)] {
      InDrop(order, i, e);
      if BucketOf(e.key) == b { InDrop(chains[b], k, e); }
    }
    forall a, e | 0 <= a < HASH_SIZE && e in c[a] ensures e in t && BucketOf(e.key) == a {
      if a == b { InDrop(chains[b], k, e); }
      assert order[i] in chains[b] && BucketOf(order[i].key) == b;
      assert e in chains[a] && BucketOf(e.key) == a;
      InDrop(order, i, e);
    }
  }

  /** No entry hangs in two buckets. */
  lemma ChainsDisjoint(order: seq<Entry>, chains: seq<seq<Entry>>, b: nat)
    requires SameEntries(order, chains) && b < HASH_SIZE
    ensures forall a, j :: 0 <= a < HASH_SIZE && a != b && 0 <= j < |chains[a]| ==> chains[a][j] !in chains[b]
  {
    forall a, j | 0 <= a < HASH_SIZE && a != b && 0 <= j < |chains[a]| ensures chains[a][j] !in chains[b] {
      assert chains[a][j] in chains[a] && BucketOf(chains[a][j].key) == a;
    }
  }

  lemma InOrder(order: seq<Entry>, chains: seq<seq<Entry>>, b: nat, k: nat) returns (i: nat)
    requires SameEntries(order, chains) && b < HASH_SIZE && k < |chains[b]|
    ensures i < |order| && order[i] == chains[b][k]
  {
    assert chains[b][k] in chains[b] && chains[b][k] in order;
    var j :| 0 <= j < |order| && order[j] == chains[b][k];
    i := j;
  }

  lemma SameEntriesMove(order: seq<Entry>, chains: seq<seq<Entry>>, i: nat)
    requires SameEntries(order, chains) && i < |order|
    ensures SameEntries([order[i]] + Drop(order, i), chains)
  {
    var t := [order[i]] + Drop(order, i);
    forall e ensures e in t <==> e in order {
      if e in order && e != order[i] {
        var j :| 0 <= j < |order| && order[j] == e;
        assert t[if j < i then j + 1 else j] == e;
      }
      assert t[0] == order[i];
    }
  }

  lemma ItemsMove(order: seq<Entry>, i: nat)
    requires i < |order| && DistinctKeys(Items(order))
    ensures Items([order[i]] + Drop(order, i)) == [Items(order)[i]] + Drop(Items(order), i)
    ensures DistinctKeys(Items([order[i]] + Drop(order, i)))
  {
    assert Items([order[i]] + Drop(order, i)) == [Items(order)[i]] + Drop(Items(order), i);
  }

  lemma ItemsTrim(order: seq<Entry>, cap: nat)
    ensures Items(Trim(order, cap)) == Trim(Items(order), cap)
  {
  }

  lemma ItemsPush(order: seq<Entry>, e: Entry)
    requires DistinctKeys(Items(order)) && forall j :: 0 <= j < |order| ==> order[j].key != e.key
    ensures Items([e] + order) == [ItemOf(e)] + Items(order) && DistinctKeys(Items([e] + order))
  {
    assert Items([e] + order) == [ItemOf(e)] + Items(order);
  }

  lemma KeyGone(items: seq<Item>, i: nat)
    requires DistinctKeys(items) && i < |items|
    ensures forall j :: 0 <= j < |items| - 1 ==> Drop(items, i)[j].key != items[i].key
  {
  }

  lemma FreedSoFar(order: seq<Entry>, chains: seq<seq<Entry>>, i: nat, freed: seq<Entry>)
    requires SameEntries(order, chains) && i < HASH_SIZE && Distinct(freed) && Distinct(chains[i])
    requires forall e :: e in freed <==> exists b :: 0 <= b < i && e in chains[b]
    ensures Distinct(freed + chains[i])
    ensures forall e :: e in freed + chains[i] <==> exists b :: 0 <= b < i + 1 && e in chains[b]
  {
    ChainsDisjoint(order, chains, i);
    forall j, k | 0 <= j < |freed| && 0 <= k < |chains[i]| ensures freed[j] != chains[i][k] {
      assert freed[j] in freed;
      var b :| 0 <= b < i && freed[j] in chains[b];
      var l :| 0 <= l < |chains[b]| && chains[b][l] == freed[j];
    }
    forall e ensures e in freed + chains[i] <==> exists b :: 0 <= b < i + 1 && e in chains[b] {
      if e in freed {
        var b :| 0 <= b < i && e in chains[b];
      }
    }
  }

  lemma FreedAll(order: seq<Entry>, chains: seq<seq<Entry>>, freed: seq<Entry>)
    requires SameEntries(order, chains)
    requires forall e :: e in freed <==> exists b :: 0 <= b < HASH_SIZE && e in chains[b]
    ensures forall e :: e in freed <==> e in order
  {
    forall e ensures e in freed <==> e in order {
      if e in order { assert e in chains[BucketOf(e.key)]; }
    }
  }

  lemma ChainDistinct(first: Entry?, s: seq<Entry>)
    requires HashChained(first, s)
    ensures Distinct(s)
  {
  }

  lemma InBucket(order: seq<Entry>, chains: seq<seq<Entry>>, i: nat) returns (k: nat)
    requires SameEntries(order, chains) && i < |order|
    ensures k < |chains[BucketOf(order[i].key)]| && chains[BucketOf(order[i].key)][k] == order[i]
  {
    assert order[i] in order;
    var j :| 0 <= j < |chains[BucketOf(order[i].key)]| && chains[BucketOf(order[i].key)][j] == order[i];
    k := j;
  }

  lemma InDrop(s: seq<Entry>, i: nat, e: Entry)
    requires Distinct(s) && i < |s|
    ensures e in Drop(s, i) <==> e in s && e != s[i]
  {
    if e in s && e != s[i] {
      var j :| 0 <= j < |s| && s[j] == e;
      assert Drop(s, i)[if j < i then j else j - 1] == e;
    }
  }

  lemma SameEntriesPush(order: seq<Entry>, chains: seq<seq<Entry>>, e: Entry)
    requires SameEntries(order, chains)
    ensures var b := BucketOf(e.key); SameEntries([e] + order, chains[b := [e] + chains[b]])
  {
  }

  /** With distinct keys, the position of an item is where the lookup finds it. */
  lemma FoundAt(items: seq<Item>, i: nat)
    requires DistinctKeys(items) && i < |items|
    ensures Find(items, items[i].key) == i
  {
  }

  /** A key missing from its bucket is missing from the cache. */
  lemma NotFound(order: seq<Entry>, chains: seq<seq<Entry>>, key: Key)
    requires SameEntries(order, chains)
    requires forall j :: 0 <= j < |chains[BucketOf(key)]| ==> chains[BucketOf(key)][j].key != key
    ensures Find(Items(order), key) == |order|
  {
  }

  class LruCache {
    var buckets: array<Entry?>
    var head: Entry?
    var tail: Entry?
    var capacity: nat
    var size: nat
    var ttl: int
    var hits: nat
    var misses: nat
    var evictions: nat
    ghost var order: seq<Entry>
    ghost var chains: seq<seq<Entry>>
    ghost var pool: set<Entry>

    /** The list of recent use. */
    ghost predicate ListOk()
      reads this`head, this`tail, this`order, this`pool, pool`next, pool`prev
    {
      && (forall k :: 0 <= k < |order| ==> order[k] in pool)
      && Distinct(order) && Chained(order)
      && head == First(order) && tail == Last(order)
    }

    /** The bucket chains. */
    ghost predicate BucketsOk()
      reads this`buckets, this`chains, this`pool, buckets, pool`hnext
    {
      && buckets.Length == HASH_SIZE == |chains|
      && forall b :: 0 <= b < HASH_SIZE ==>
           && (forall k :: 0 <= k < |chains[b]| ==> chains[b][k] in pool)
           && HashChained(buckets[b], chains[b])
    }

    /** Both containers hold the same entries, under distinct keys, and `size` counts them. */
    ghost predicate Consistent()
      reads this`head, this`tail, this`order, this`chains, this`pool, this`buckets, this`size
      reads buckets, pool`next, pool`prev, pool`hnext
    {
      ListOk() && BucketsOk() && SameEntries(order, chains) && DistinctKeys(Items(order)) && size == |order|
    }

    ghost predicate Valid()
      reads this`head, this`tail, this`order, this`chains, this`pool, this`buckets, this`size, this`capacity
      reads buckets, pool`next, pool`prev, pool`hnext
    {
      Consistent() && size <= capacity
    }

    /** What the cache holds, most recently used first. */
    ghost function Contents(): seq<Item>
      reads this
    {
      Items(order)
    }

    constructor (capacity: nat, ttl: int)
      ensures Valid() && fresh(buckets) && Contents() == [] && order == []
      ensures this.capacity == capacity && this.ttl == ttl && hits == 0 && misses == 0 && evictions == 0
    {
      buckets := new Entry?[HASH_SIZE](_ => null);
      head, tail, size := null, null, 0;
      this.capacity, this.ttl := capacity, ttl;
      hits, misses, evictions := 0, 0, 0;
      order, chains, pool := [], seq(HASH_SIZE, _ => []), {};
    }

    /** lru_remove: unlinks the entry at position `i`. */
    method LruRemove(entry: Entry, ghost i: nat)
      requires ListOk() && i < |order| && order[i] == entry
      modifies this`head, this`tail, this`order, pool`prev, pool`next
      ensures ListOk() && order == Drop(old(order), i)
      ensures entry.prev == null && entry.next == null
    {
      hide Chained, Bridged, Distinct, Drop, First, Last;
      Neighbours(entry, i);
      DistinctDrop(order, i);
      EndsDrop(order, i);
      LinkAround(entry, i);
      BridgedDrop(order, i);
      if head == entry {
        head := entry.next;
      }
      if tail == entry {
        tail := entry.prev;
      }
      entry.prev := null;
      entry.next := null;
      order := Drop(order, i);
    }

    lemma Neighbours(entry: Entry, i: nat)
      requires ListOk() && i < |order| && order[i] == entry
      ensures if i == 0 then entry.prev == null else entry.prev == order[i - 1]
      ensures if i + 1 == |order| then entry.next == null else entry.next == order[i + 1]
      ensures (head == entry <==> i == 0) && (tail == entry <==> i + 1 == |order|)
    {
    }

    /** The neighbours of an entry are linked to each other. */
    method LinkAround(entry: Entry, ghost i: nat)
      requires ListOk() && i < |order| && order[i] == entry
      modifies pool`prev, pool`next
      ensures Bridged(order, i) && entry.prev == old(entry.prev) && entry.next == old(entry.next)
    {
      assert i > 0 ==> entry.prev == order[i - 1];
      assert i + 1 < |order| ==> entry.next == order[i + 1];
      if entry.prev != null {
        entry.prev.next := entry.next;
      }
      if entry.next != null {
        entry.next.prev := entry.prev;
      }
    }

    /** lru_move_to_head, for an entry at position `i` of the list. */
    method MoveToHead(entry: Entry, ghost i: nat)
      requires ListOk() && i < |order| && order[i] == entry
      modifies this`head, this`tail, this`order, pool`prev, pool`next
      ensures ListOk() && order == [entry] + Drop(old(order), i)
    {
      if head == entry {
        assert order[0] == order[i];
        return;
      }
      LruRemove(entry, i);
      DistinctDrop(old(order), i);
      PushHead(entry);
    }

    /** The linking half of lru_move_to_head, also used for a new entry. */
    method PushHead(entry: Entry)
      requires ListOk() && entry in pool && entry !in order && entry.prev == null && entry.next == null
      modifies this`head, this`tail, this`order, pool`prev, pool`next
      ensures ListOk() && order == [entry] + old(order)
    {
      entry.next := head;
      if head != null {
        head.prev := entry;
      }
      head := entry;
      if tail == null {
        tail := entry;
      }
      order := [entry] + order;
    }

    /** bucket_find */
    method BucketFind(idx: nat, key: Key) returns (found: Entry?, ghost k: nat)
      requires BucketsOk() && idx < HASH_SIZE
      ensures found == null ==> forall j :: 0 <= j < |chains[idx]| ==> chains[idx][j].key != key
      ensures found != null ==> k < |chains[idx]| && chains[idx][k] == found && found.key == key
    {
      found := buckets[idx];
      k := 0;
      ghost var s := chains[idx];
      while found != null
        invariant k <= |s| && found == (if k < |s| then s[k] else null)
        invariant forall j :: 0 <= j < k ==> s[j].key != key
        decreases |s| - k
      {
        if found.key == key {
          return;
        }
        found := found.hnext;
        k := k + 1;
      }
    }

    /** bucket_unlink: takes the k-th entry out of its chain. */
    method BucketUnlink(idx: nat, entry: Entry, ghost k: nat)
      requires BucketsOk() && idx < HASH_SIZE && k < |chains[idx]| && chains[idx][k] == entry
      requires forall b, j :: 0 <= b < HASH_SIZE && b != idx && 0 <= j < |chains[b]| ==> chains[b][j] !in chains[idx]
      modifies buckets, pool`hnext, this`chains
      ensures BucketsOk() && chains == old(chains)[idx := Drop(old(chains[idx]), k)]
    {
      hide HashChained;
      var first := ChainUnlink(buckets[idx], entry, chains[idx], k);
      buckets[idx] := first;
      chains := chains[idx := Drop(chains[idx], k)];
    }

    /** The pointer walk of bucket_unlink on one chain. */
    static method ChainUnlink(first: Entry?, entry: Entry, ghost s: seq<Entry>, ghost k: nat) returns (r: Entry?)
      requires HashChained(first, s) && k < |s| && s[k] == entry
      modifies s`hnext
      ensures HashChained(r, Drop(s, k))
    {
      r := first;
      DistinctDrop(s, k);
      if first == entry {
        assert s[0] == s[k];
        r := entry.hnext;
      } else {
        var link := first;
        ghost var j := 0;
        while link.hnext != entry
          invariant 0 <= j < k && link == s[j]
          decreases k - j
        {
          assert s[j].hnext == s[j + 1];
          link := link.hnext;
          j := j + 1;
        }
        assert s[j].hnext == s[j + 1];
        link.hnext := entry.hnext;
      }
    }

    /** entry_reap: out of both containers. */
    method EntryReap(idx: nat, entry: Entry, ghost i: nat, ghost k: nat)
      requires Consistent() && i < |order| && order[i] == entry
      requires idx == BucketOf(entry.key) && k < |chains[idx]| && chains[idx][k] == entry
      modifies this`head, this`tail, this`order, this`chains, this`size, buckets, pool`prev, pool`next, pool`hnext
      ensures Consistent() && order == Drop(old(order), i) && Contents() == Drop(old(Contents()), i)
      ensures size == old(size) - 1
    {
      hide ListOk, SameEntries, DistinctKeys;
      ChainsDisjoint(order, chains, idx);
      assert HashChained(buckets[idx], chains[idx]);
      assert Distinct(order) by { ListDistinct(); }
      SameEntriesDrop(order, chains, i, idx, k);
      ItemsDrop(order, i);
      DropDistinct(Items(order), i);
      hide BucketsOk, HashChained;
      BucketUnlink(idx, entry, k);
      LruRemove(entry, i);
      size := size - 1;
    }

    lemma ListDistinct()
      requires ListOk()
      ensures Distinct(order)
    {
    }

    /** evict_lru: the entry used least recently goes. */
    method EvictLru()
      requires Consistent()
      modifies this`head, this`tail, this`order, this`chains, this`size, this`evictions
      modifies buckets, pool`prev, pool`next, pool`hnext
      ensures Consistent()
      ensures old(order) == [] ==> order == [] && evictions == old(evictions)
      ensures old(order) != [] ==> order == old(order)[..|old(order)| - 1] && evictions == old(evictions) + 1
    {
      hide BucketsOk, SameEntries, DistinctKeys, Chained, Distinct;
      if tail == null {
        return;
      }
      var victim := tail;
      var idx := BucketOf(victim.key);
      ghost var k := InBucket(order, chains, |order| - 1);
      EntryReap(idx, victim, |order| - 1, k);
      evictions := evictions + 1;
    }

    /** The eviction loop of cache_put and cache_set_capacity. */
    method EvictExcess()
      requires Consistent()
      modifies this`head, this`tail, this`order, this`chains, this`size, this`evictions
      modifies buckets, pool`prev, pool`next, pool`hnext
      ensures Valid() && order == Trim(old(order), capacity)
      ensures evictions == old(evictions) + |old(order)| - |order|
    {
      hide ListOk, BucketsOk, SameEntries, DistinctKeys;
      while size > capacity
        invariant Consistent() && |order| <= |old(order)| && order == old(order)[..|order|]
        invariant evictions == old(evictions) + |old(order)| - |order|
        invariant |order| >= |Trim(old(order), capacity)|
        decreases size
      {
        EvictLru();
      }
    }

    /** cache_get: the value on a hit, and the entry becomes the most recently used; an
        expired entry is dropped and counts as a miss. */
    method Get(key: Key, now: int) returns (out: Option<Value>)
      requires Valid()
      modifies this`head, this`tail, this`order, this`chains, this`size, this`hits, this`misses
      modifies buckets, pool`prev, pool`next, pool`hnext
      ensures Valid() && (Contents(), out) == GetItems(old(Contents()), ttl, key, now)
      ensures hits == old(hits) + (if out.Some? then 1 else 0)
      ensures misses == old(misses) + (if out.Some? then 0 else 1)
    {
      hide Consistent, StringHash;
      var idx := BucketOf(key);
      var entry, i, k := Locate(idx, key);
      if entry == null {
        misses := misses + 1;
        return None;
      }
      if ttl > 0 && now - entry.stamp > ttl {
        EntryReap(idx, entry, i, k);
        misses := misses + 1;
        return None;
      }
      out := Some(entry.value);
      Touch(entry, i);
      hits := hits + 1;
    }

    /** bucket_find, with the positions of the entry in both containers. */
    method Locate(idx: nat, key: Key) returns (found: Entry?, ghost i: nat, ghost k: nat)
      requires Consistent() && idx == BucketOf(key)
      ensures i == Find(Contents(), key) && (found == null <==> i == |order|)
      ensures found != null ==> found == order[i] && found.key == key && k < |chains[idx]| && chains[idx][k] == found
      ensures |chains| == HASH_SIZE
    {
      hide ListOk, SameEntries, DistinctKeys, HashChained;
      found, k := BucketFind(idx, key);
      if found == null {
        NotFound(order, chains, key);
        i := |order|;
      } else {
        i := InOrder(order, chains, idx, k);
        FoundAt(Items(order), i);
      }
    }

    /** A hit: the entry becomes the most recently used. */
    method Touch(entry: Entry, ghost i: nat)
      requires Consistent() && i < |order| && order[i] == entry
      modifies this`head, this`tail, this`order, pool`prev, pool`next
      ensures Consistent() && size == old(size)
      ensures Contents() == [old(Contents())[i]] + Drop(old(Contents()), i)
    {
      hide ListOk, BucketsOk, SameEntries, DistinctKeys;
      SameEntriesMove(order, chains, i);
      ItemsMove(order, i);
      MoveToHead(entry, i);
    }

    /** cache_put; a missing value deletes. */
    method Put(key: Key, value: Option<Value>, now: int)
      requires Valid()
      modifies this, buckets, pool`prev, pool`next, pool`hnext
      ensures Valid() && buckets == old(buckets) && fresh(pool - old(pool)) && old(pool) <= pool
      ensures Contents() == PutItems(old(Contents()), capacity, key, value, now)
      ensures capacity == old(capacity) && ttl == old(ttl) && hits == old(hits) && misses == old(misses)
      ensures evictions - old(evictions)
           == if capacity == 0 then 0 else |Stored(old(Contents()), key, value, now)| - |Contents()|
    {
      hide Consistent, Trim, Without;
      if capacity == 0 {
        return;
      }
      var idx := BucketOf(key);
      Forget(idx, key);
      if value.Some? {
        Insert(idx, key, value.value, now);
      }
      ghost var before := order;
      EvictExcess();
      ItemsTrim(before, capacity);
    }

    /** The first half of cache_put: an entry under the same key goes. */
    method Forget(idx: nat, key: Key)
      requires Consistent() && idx == BucketOf(key)
      modifies this`head, this`tail, this`order, this`chains, this`size, buckets, pool`prev, pool`next, pool`hnext
      ensures Consistent() && Contents() == Without(old(Contents()), key)
      ensures forall j :: 0 <= j < |order| ==> order[j].key != key
    {
      hide ListOk, BucketsOk, SameEntries;
      var existing, i, k := Locate(idx, key);
      if existing != null {
        KeyGone(Items(order), i);
        EntryReap(idx, existing, i, k);
        assert forall j :: 0 <= j < |order| ==> order[j].key == Items(order)[j].key;
      } else {
        assert forall j :: 0 <= j < |order| ==> order[j].key == Items(order)[j].key;
      }
    }

    /** The new entry of cache_put, at the front of its bucket and of the list. */
    method Insert(idx: nat, key: Key, value: Value, now: int)
      requires Consistent() && idx == BucketOf(key)
      requires forall j :: 0 <= j < |order| ==> order[j].key != key
      modifies this`head, this`tail, this`order, this`chains, this`size, this`pool
      modifies buckets, pool`prev, pool`next, pool`hnext
      ensures Consistent() && fresh(pool - old(pool)) && old(pool) <= pool
      ensures Contents() == [Item(key, value, now)] + old(Contents())
    {
      hide SameEntries, BucketsOk, ListOk;
      OrderInPool();
      var entry := new Entry(key, value, now);
      SameEntriesPush(order, chains, entry);
      ItemsPush(order, entry);
      NewInBucket(idx, entry);
      PushHead(entry);
      size := size + 1;
    }

    lemma OrderInPool()
      requires ListOk()
      ensures forall e :: e in order ==> e in pool
    {
    }

    /** Links a new entry in front of its bucket; the list is not touched. */
    method NewInBucket(idx: nat, entry: Entry)
      requires ListOk() && BucketsOk() && idx < HASH_SIZE && entry !in pool
      modifies this`chains, this`pool, buckets, entry`hnext
      ensures ListOk() && BucketsOk() && pool == old(pool) + {entry}
      ensures chains == old(chains)[idx := [entry] + old(chains[idx])]
    {
      hide HashChained, Chained, Distinct;
      pool := pool + {entry};
      entry.hnext := buckets[idx];
      assert forall b :: 0 <= b < HASH_SIZE ==> HashChained(buckets[b], chains[b]);
      InFront(buckets[idx], chains[idx], entry);
      buckets[idx] := entry;
      chains := chains[idx := [entry] + chains[idx]];
    }

    /** cache_set_capacity */
    method SetCapacity(n: nat)
      requires Valid()
      modifies this`head, this`tail, this`order, this`chains, this`size, this`evictions, this`capacity
      modifies buckets, pool`prev, pool`next, pool`hnext
      ensures Valid() && capacity == n && Contents() == Trim(old(Contents()), n)
      ensures evictions == old(evictions) + |old(Contents())| - |Contents()|
    {
      hide ListOk, BucketsOk, SameEntries, DistinctKeys, Trim;
      capacity := n;
      EvictExcess();
      ItemsTrim(old(order), n);
    }

    /** cache_set_ttl */
    method SetTtl(t: int)
      requires Valid()
      modifies this`ttl
      ensures Valid() && ttl == t
    {
      ttl := t;
    }

    /** The cache as the specification sees it. */
    ghost function Abstract(): State
      reads this
    {
      State(Contents(), capacity, ttl, hits, misses)
    }

    method Perform(op: Op) returns (answer: Option<Value>)
      requires Valid()
      modifies this, buckets, pool`prev, pool`next, pool`hnext
      ensures Valid() && buckets == old(buckets) && fresh(pool - old(pool)) && old(pool) <= pool
      ensures Abstract() == Apply(old(Abstract()), op) && answer == Answer(old(Abstract()), op)
    {
      hide Consistent, GetItems, PutItems, Trim, Stored;
      answer := None;
      match op
      case Get(k, now) => answer := Get(k, now);
      case Put(k, v, now) => Put(k, Some(v), now);
      case Delete(k, now) => Put(k, None, now);
      case SetCapacity(n) => SetCapacity(n);
      case SetTtl(t) => SetTtl(t);
      case Clear => ghost var freed := Clear();
    }

    /** Any sequence of operations leaves the cache where the specification says and answers as it does;
        from an empty cache every hit returns what was stored last under its key, within its lifetime. */
    method PerformAll(ops: seq<Op>) returns (answers: seq<Option<Value>>)
      requires Valid()
      modifies this, buckets, pool`prev, pool`next, pool`hnext
      ensures Valid() && Abstract() == Run(old(Abstract()), ops) && answers == Answers(old(Abstract()), ops)
      ensures old(Contents()) == [] ==>
                forall i :: 0 <= i < |ops| && answers[i].Some? ==>
                  ops[i].Get? && answers[i] == LastStored(ops[..i], ops[i].key)
      ensures old(Contents()) == [] ==>
                forall i :: 0 <= i < |ops| && answers[i].Some? ==>
                  var put, life := LastPut(ops[..i], ops[i].key), TtlAfter(old(ttl), ops[..i]);
                  put.Some? && (life > 0 ==> ops[i].now - ops[put.value].now <= life)
    {
      hide Consistent, Apply, Answer, LastStored, LastPut, TtlAfter;
      ghost var start := Abstract();
      answers := [];
      for i := 0 to |ops|
        invariant Valid() && buckets == old(buckets) && fresh(pool - old(pool)) && old(pool) <= pool
        invariant Abstract() == Run(start, ops[..i]) && answers == Answers(start, ops[..i])
      {
        assert ops[..i + 1][..i] == ops[..i];
        var answer := Perform(ops[i]);
        answers := answers + [answer];
      }
      assert ops[..|ops|] == ops;
      if start.items == [] {
        forall i | 0 <= i < |ops| && answers[i].Some?
          ensures ops[i].Get? && answers[i] == LastStored(ops[..i], ops[i].key)
        {
          HitIsLastStored(start, ops, i);
        }
        forall i | 0 <= i < |ops| && answers[i].Some?
          ensures var put, life := LastPut(ops[..i], ops[i].key), TtlAfter(start.ttl, ops[..i]);
                  put.Some? && (life > 0 ==> ops[i].now - ops[put.value].now <= life)
        {
          HitIsFresh(start, ops, i);
        }
      }
    }

    /** cache_clear: cache_drain frees every entry exactly once and empties both containers. */
    method Clear() returns (ghost freed: seq<Entry>)
      requires Valid()
      modifies this`head, this`tail, this`order, this`chains, this`size, buckets
      ensures Valid() && Contents() == []
      ensures Distinct(freed) && forall e :: e in freed <==> e in old(order)
    {
      hide ListOk, SameEntries, DistinctKeys, HashChained;
      ghost var all := chains;
      freed := [];
      var i := 0;
      while i < HASH_SIZE
        invariant 0 <= i <= HASH_SIZE && buckets.Length == HASH_SIZE
        invariant forall b :: 0 <= b < i ==> buckets[b] == null
        invariant forall b :: i <= b < HASH_SIZE ==> HashChained(buckets[b], all[b])
        invariant Distinct(freed) && forall e :: e in freed <==> exists b :: 0 <= b < i && e in all[b]
        modifies buckets
      {
        ChainDistinct(buckets[i], all[i]);
        ghost var chain := FreeChain(buckets[i], all[i]);
        FreedSoFar(old(order), all, i, freed);
        freed := freed + chain;
        buckets[i] := null;
        i := i + 1;
      }
      FreedAll(old(order), all, freed);
      head, tail, size := null, null, 0;
      order, chains := [], seq(HASH_SIZE, _ => []);
      EmptyOk();
    }

    lemma EmptyOk()
      requires buckets.Length == HASH_SIZE && forall b :: 0 <= b < HASH_SIZE ==> buckets[b] == null
      requires head == tail == null && size == 0 && order == [] && chains == seq(HASH_SIZE, _ => [])
      ensures Valid()
    {
    }

    /** The inner loop of cache_drain: the entries of one chain, in order. */
    static method FreeChain(first: Entry?, ghost s: seq<Entry>) returns (ghost freed: seq<Entry>)
      requires HashChained(first, s)
      ensures freed == s
    {
      var entry := first;
      freed := [];
      while entry != null
        invariant |freed| <= |s| && freed == s[..|freed|]
        invariant entry == if |freed| < |s| then s[|freed|] else null
        decreases |s| - |freed|
      {
        var next := entry.hnext;
        freed := freed + [entry];
        entry := next;
      }
    }
  }
}
