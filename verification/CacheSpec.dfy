/**
 What the cache of utils/cache/cache_common.c promises, as operations on a plain list of
 items kept in order of use (most recent first).
 */
module CacheSpec {
  import opened Options

  type Key = string
  type Value = string

  datatype Item = Item(key: Key, value: Value, stamp: int)

  predicate DistinctKeys(items: seq<Item>) {
    forall i, j :: 0 <= i < j < |items| ==> items[i].key != items[j].key
  }

  /** Position of a key, or the length of the list. */
  function Find(items: seq<Item>, k: Key): (i: nat)
    ensures i <= |items|
    ensures i < |items| ==> items[i].key == k
    ensures forall j :: 0 <= j < i ==> items[j].key != k
  {
    if items == [] || items[0].key == k then 0 else 1 + Find(items[1..], k)
  }

  /** The list without the item at position `i`. */
  function Drop<T>(items: seq<T>, i: nat): (r: seq<T>)
    requires i < |items|
    ensures |r| == |items| - 1
  {
    items[..i] + items[i + 1..]
  }

  function Without(items: seq<Item>, k: Key): seq<Item> {
    var i := Find(items, k);
    if i < |items| then Drop(items, i) else items
  }

  /** At most `cap` items: the least recently used ones go. */
  function Trim<T>(items: seq<T>, cap: nat): (r: seq<T>)
    ensures |r| == (if |items| <= cap then |items| else cap)
  {
    if |items| <= cap then items else items[..cap]
  }

  predicate Expired(stamp: int, ttl: int, now: int) {
    ttl > 0 && now - stamp > ttl
  }

  /** The list after a lookup, and the value found. */
  function GetItems(items: seq<Item>, ttl: int, k: Key, now: int): (seq<Item>, Option<Value>) {
    var i := Find(items, k);
    if i == |items| then (items, None)
    else if Expired(items[i].stamp, ttl, now) then (Drop(items, i), None)
    else ([items[i]] + Drop(items, i), Some(items[i].value))
  }

  /** The item answers a lookup of the key: it is no older than a positive lifetime allows. */
  predicate IsLive(x: Item, k: Key, ttl: int, now: int) {
    x.key == k && (ttl <= 0 || now <= x.stamp + ttl)
  }

  /** A lookup finds something exactly when a live item is there. */
  lemma LookupIff(items: seq<Item>, ttl: int, k: Key, now: int)
    requires DistinctKeys(items)
    ensures var (after, found) := GetItems(items, ttl, k, now);
            && (found.Some? <==> exists i :: 0 <= i < |items| && IsLive(items[i], k, ttl, now))
            && (found.Some? ==> after[0].key == k && after[0].value == found.value && after[0] in items)
  {
    var at := Find(items, k);
    if i :| 0 <= i < |items| && IsLive(items[i], k, ttl, now) {
      assert i == at;
    }
  }

  /** The list after storing a value, or after deleting when there is none. */
  function PutItems(items: seq<Item>, cap: nat, k: Key, v: Option<Value>, now: int): seq<Item> {
    if cap == 0 then items else Trim(Stored(items, k, v, now), cap)
  }

  /** The list before anything is evicted. */
  function Stored(items: seq<Item>, k: Key, v: Option<Value>, now: int): seq<Item> {
    if v.Some? then [Item(k, v.value, now)] + Without(items, k) else Without(items, k)
  }

  // ---------------------------------------------------------------------------------
  // Whole runs

  datatype Op =
    | Get(key: Key, now: int)
    | Put(key: Key, value: Value, now: int)
    | Delete(key: Key, now: int)
    | SetCapacity(capacity: nat)
    | SetTtl(ttl: int)
    | Clear

  datatype State = State(items: seq<Item>, capacity: nat, ttl: int, hits: nat, misses: nat)

  function Apply(s: State, op: Op): State {
    match op
    case Get(k, now) =>
      var (items, found) := GetItems(s.items, s.ttl, k, now);
      if found.Some? then s.(items := items, hits := s.hits + 1) else s.(items := items, misses := s.misses + 1)
    case Put(k, v, now) => s.(items := PutItems(s.items, s.capacity, k, Some(v), now))
    case Delete(k, now) => s.(items := PutItems(s.items, s.capacity, k, None, now))
    case SetCapacity(c) => s.(capacity := c, items := Trim(s.items, c))
    case SetTtl(t) => s.(ttl := t)
    case Clear => s.(items := [])
  }

  function Run(s: State, ops: seq<Op>): State {
    if ops == [] then s else Apply(Run(s, ops[..|ops| - 1]), ops[|ops| - 1])
  }

  /** What an operation returns: the value found, for a lookup that hits. */
  function Answer(s: State, op: Op): Option<Value> {
    match op
    case Get(k, now) => GetItems(s.items, s.ttl, k, now).1
    case _ => None
  }

  function Answers(s: State, ops: seq<Op>): (answers: seq<Option<Value>>)
    ensures |answers| == |ops|
  {
    if ops == [] then []
    else Answers(s, ops[..|ops| - 1]) + [Answer(Run(s, ops[..|ops| - 1]), ops[|ops| - 1])]
  }

  lemma {:induction false} AnswerAt(s: State, ops: seq<Op>, i: nat)
    requires i < |ops|
    ensures Answers(s, ops)[i] == Answer(Run(s, ops[..i]), ops[i])
    decreases |ops|
  {
    hide Answer, Run;
    var before := ops[..|ops| - 1];
    if i < |before| {
      AnswerAt(s, before, i);
      assert before[..i] == ops[..i];
    }
  }

  predicate Sound(s: State) {
    DistinctKeys(s.items) && |s.items| <= s.capacity
  }

  lemma DropDistinct(items: seq<Item>, i: nat)
    requires DistinctKeys(items) && i < |items|
    ensures DistinctKeys(Drop(items, i)) && DistinctKeys([items[i]] + Drop(items, i))
  {
    assert forall j :: 0 <= j < |items| - 1 ==> Drop(items, i)[j] == items[if j < i then j else j + 1];
  }

  lemma WithoutDistinct(items: seq<Item>, k: Key)
    requires DistinctKeys(items)
    ensures DistinctKeys(Without(items, k)) && |Without(items, k)| <= |items|
    ensures forall j :: 0 <= j < |Without(items, k)| ==> Without(items, k)[j].key != k
  {
    var i := Find(items, k);
    if i < |items| {
      DropDistinct(items, i);
      forall j | 0 <= j < |items| - 1 ensures Drop(items, i)[j].key != k {
        assert Drop(items, i)[j] == items[if j < i then j else j + 1];
      }
    }
  }

  lemma ApplySound(s: State, op: Op)
    requires Sound(s)
    ensures Sound(Apply(s, op))
  {
    hide Drop, Without;
    match op
    case Get(k, _) =>
      if Find(s.items, k) < |s.items| { DropDistinct(s.items, Find(s.items, k)); }
    case Put(k, _, _) => WithoutDistinct(s.items, k);
    case Delete(k, _) => WithoutDistinct(s.items, k);
    case _ =>
  }

  function Lookups(ops: seq<Op>): nat {
    if ops == [] then 0 else Lookups(ops[..|ops| - 1]) + if ops[|ops| - 1].Get? then 1 else 0
  }

  /** How many lookups found something. */
  function Found(answers: seq<Option<Value>>): nat {
    if answers == [] then 0
    else Found(answers[..|answers| - 1]) + if answers[|answers| - 1].Some? then 1 else 0
  }

  /** In every run keys stay distinct, the size stays within the capacity, and every lookup
      is counted once, as a hit if it found something and as a miss otherwise. */
  lemma {:induction false} RunSound(s: State, ops: seq<Op>)
    requires Sound(s)
    ensures Sound(Run(s, ops))
    ensures var t := Run(s, ops); t.hits + t.misses == s.hits + s.misses + Lookups(ops)
    ensures Run(s, ops).hits == s.hits + Found(Answers(s, ops))
    decreases |ops|
  {
    if ops != [] {
      hide Sound, GetItems, PutItems, Trim;
      var before, op := ops[..|ops| - 1], ops[|ops| - 1];
      RunSound(s, before);
      ApplySound(Run(s, before), op);
      assert Answers(s, ops)[..|before|] == Answers(s, before);
    }
  }

  /** The last value stored under `k`, unless it was deleted or cleared since. */
  function LastStored(ops: seq<Op>, k: Key): Option<Value> {
    if ops == [] then None
    else
      match ops[|ops| - 1]
      case Put(x, v, _) => if x == k then Some(v) else LastStored(ops[..|ops| - 1], k)
      case Delete(x, _) => if x == k then None else LastStored(ops[..|ops| - 1], k)
      case Clear => None
      case _ => LastStored(ops[..|ops| - 1], k)
  }

  /** Where the put of `k` stands that counts: the last one, unless the key was deleted or all cleared since. */
  function LastPut(ops: seq<Op>, k: Key): (r: Option<nat>)
    ensures r.Some? ==> r.value < |ops| && ops[r.value].Put? && ops[r.value].key == k
  {
    if ops == [] then None
    else
      var before := LastPut(ops[..|ops| - 1], k);
      match ops[|ops| - 1]
      case Put(x, _, _) => if x == k then Some(|ops| - 1) else before
      case Delete(x, _) => if x == k then None else before
      case Clear => None
      case _ => before
  }

  lemma {:induction false} LastPutStores(ops: seq<Op>, k: Key)
    ensures LastStored(ops, k) == if LastPut(ops, k).Some? then Some(ops[LastPut(ops, k).value].value) else None
    decreases |ops|
  {
    if ops != [] { LastPutStores(ops[..|ops| - 1], k); }
  }

  /** The lifetime in force after the operations. */
  function TtlAfter(ttl: int, ops: seq<Op>): int {
    if ops == [] then ttl
    else if ops[|ops| - 1].SetTtl? then ops[|ops| - 1].ttl
    else TtlAfter(ttl, ops[..|ops| - 1])
  }

  function CapacityAfter(capacity: nat, ops: seq<Op>): nat {
    if ops == [] then capacity
    else if ops[|ops| - 1].SetCapacity? then ops[|ops| - 1].capacity
    else CapacityAfter(capacity, ops[..|ops| - 1])
  }

  lemma {:induction false} SettingsAfter(s: State, ops: seq<Op>)
    ensures Run(s, ops).ttl == TtlAfter(s.ttl, ops) && Run(s, ops).capacity == CapacityAfter(s.capacity, ops)
    decreases |ops|
  {
    if ops != [] {
      hide GetItems, PutItems, Trim;
      SettingsAfter(s, ops[..|ops| - 1]);
    }
  }

  /** The item is what the put of its key that counts has stored. */
  predicate FromLastPut(ops: seq<Op>, x: Item) {
    var j := LastPut(ops, x.key);
    j.Some? && ops[j.value] == Put(x.key, x.value, x.stamp)
  }

  /** In every run that starts empty, whatever is cached under a key was stored last: a hit never returns
      a stale value. */
  lemma {:induction false} CachedIsLastStored(s: State, ops: seq<Op>, i: nat)
    requires Sound(s) && s.items == [] && i < |Run(s, ops).items|
    ensures FromLastPut(ops, Run(s, ops).items[i])
    ensures LastStored(ops, Run(s, ops).items[i].key) == Some(Run(s, ops).items[i].value)
    decreases |ops|
  {
    LastPutStores(ops, Run(s, ops).items[i].key);
    if ops != [] {
      var before := ops[..|ops| - 1];
      var op := ops[|ops| - 1];
      var t, u := Run(s, before), Run(s, ops);
      RunSound(s, before);
      forall j: nat | j < |t.items| ensures FromLastPut(before, t.items[j]) {
        CachedIsLastStored(s, before, j);
      }
      Origin(t, op, i);
    }
  }

  /** So in every run that starts empty, each lookup that hits returns what was stored last under its
      key before it. */
  lemma HitIsLastStored(s: State, ops: seq<Op>, i: nat)
    requires Sound(s) && s.items == [] && i < |ops| && Answers(s, ops)[i].Some?
    ensures ops[i].Get? && LastStored(ops[..i], ops[i].key) == Answers(s, ops)[i]
  {
    hide Run, LastStored, Answers;
    AnswerAt(s, ops, i);
    var t := Run(s, ops[..i]);
    CachedIsLastStored(s, ops[..i], Find(t.items, ops[i].key));
  }

  // ---------------------------------------------------------------------------------
  // What time does

  predicate IsCached(items: seq<Item>, k: Key) {
    exists j :: 0 <= j < |items| && items[j].key == k
  }

  /** After a lookup that misses, the key is not cached. */
  lemma MissLeavesNone(t: State, k: Key, now: int)
    requires Sound(t) && GetItems(t.items, t.ttl, k, now).1.None?
    ensures !IsCached(GetItems(t.items, t.ttl, k, now).0, k)
  {
    var at := Find(t.items, k);
    if at < |t.items| {
      WithoutDistinct(t.items, k);
    }
  }

  lemma {:induction false} AbsentStays(s: State, ops: seq<Op>, m: nat, k: Key)
    requires Sound(s) && m <= |ops| && !IsCached(Run(s, ops[..m]).items, k)
    requires forall j :: m <= j < |ops| && ops[j].Put? ==> ops[j].key != k
    ensures !IsCached(Run(s, ops).items, k)
    decreases |ops|
  {
    if m == |ops| {
      assert ops[..m] == ops;
    } else {
      var before := ops[..|ops| - 1];
      assert before[..m] == ops[..m];
      AbsentStays(s, before, m, k);
      RunSound(s, before);
      hide Apply, Sound;
      var t, op := Run(s, before), ops[|ops| - 1];
      forall i | 0 <= i < |Apply(t, op).items| ensures Apply(t, op).items[i].key != k {
        Origin(t, op, i);
      }
    }
  }

  /** A lookup that hits comes within the lifetime of the put that counts, and every lookup of the key
      since that put has hit. */
  lemma HitIsFresh(s: State, ops: seq<Op>, i: nat)
    requires Sound(s) && s.items == [] && i < |ops| && Answers(s, ops)[i].Some?
    ensures ops[i].Get? && LastPut(ops[..i], ops[i].key).Some?
    ensures var put, ttl := LastPut(ops[..i], ops[i].key).value, TtlAfter(s.ttl, ops[..i]);
            && (ttl > 0 ==> ops[i].now - ops[put].now <= ttl)
            && forall m :: put < m < i && ops[m].Get? && ops[m].key == ops[i].key ==> Answers(s, ops)[m].Some?
  {
    hide Run, LastPut, Answers, TtlAfter, LastStored;
    AnswerAt(s, ops, i);
    var k, t := ops[i].key, Run(s, ops[..i]);
    var at := Find(t.items, k);
    CachedIsLastStored(s, ops[..i], at);
    SettingsAfter(s, ops[..i]);
    var put := LastPut(ops[..i], k).value;
    forall m | put < m < i && ops[m].Get? && ops[m].key == k ensures Answers(s, ops)[m].Some? {
      if Answers(s, ops)[m].None? {
        MissStays(s, ops, m, i, put);
      }
    }
  }

  lemma MissStays(s: State, ops: seq<Op>, m: nat, i: nat, put: nat)
    requires Sound(s) && put < m < i < |ops| && ops[m].Get? && ops[i].Get? && ops[m].key == ops[i].key
    requires Answers(s, ops)[m].None? && LastPut(ops[..i], ops[i].key) == Some(put)
    ensures !IsCached(Run(s, ops[..i]).items, ops[i].key)
  {
    hide Answers, LastPut, GetItems;
    var k, upto := ops[i].key, ops[..i];
    AnswerAt(s, ops, m);
    RunSound(s, ops[..m]);
    MissLeavesNone(Run(s, ops[..m]), k, ops[m].now);
    assert ops[..m + 1][..m] == ops[..m] && upto[..m + 1] == ops[..m + 1];
    forall j | m + 1 <= j < i && upto[j].Put? ensures upto[j].key != k {
      if upto[j].key == k { NoLaterPut(upto, k, j); }
    }
    AbsentStays(s, upto, m + 1, k);
  }

  /** No put of the key comes after the one that counts. */
  lemma {:induction false} NoLaterPut(ops: seq<Op>, k: Key, j: nat)
    requires j < |ops| && ops[j].Put? && ops[j].key == k && LastPut(ops, k).Some?
    ensures j <= LastPut(ops, k).value
    decreases |ops|
  {
    if j < |ops| - 1 && LastPut(ops, k).value < |ops| - 1 {
      NoLaterPut(ops[..|ops| - 1], k, j);
    }
  }

  /** Every item after an operation was there before, or was just stored. */
  lemma Origin(t: State, op: Op, i: nat)
    requires Sound(t) && i < |Apply(t, op).items|
    ensures var x := Apply(t, op).items[i];
            || (op.Put? && x == Item(op.key, op.value, op.now))
            || ((exists j :: 0 <= j < |t.items| && t.items[j] == x)
                && !op.Clear? && (op.Put? && t.capacity > 0 ==> x.key != op.key) && (op.Delete? ==> x.key != op.key))
  {
    hide Drop, Without, DistinctKeys;
    var x := Apply(t, op).items[i];
    match op
    case Get(k, _) =>
      var at := Find(t.items, k);
      if at < |t.items| && i < |Drop(t.items, at)| { DropOrigin(t.items, at, i); }
      if at < |t.items| && 0 < i <= |Drop(t.items, at)| { DropOrigin(t.items, at, i - 1); }
    case Put(k, _, _) =>
      if t.capacity > 0 && i > 0 { WithoutOrigin(t.items, k, i - 1); }
    case Delete(k, _) =>
      if t.capacity > 0 { WithoutOrigin(t.items, k, i); }
    case _ =>
  }

  lemma DropOrigin(items: seq<Item>, at: nat, i: nat)
    requires at < |items| && i < |Drop(items, at)|
    ensures exists j :: 0 <= j < |items| && items[j] == Drop(items, at)[i]
  {
    assert Drop(items, at)[i] == items[if i < at then i else i + 1];
  }

  lemma WithoutOrigin(items: seq<Item>, k: Key, i: nat)
    requires DistinctKeys(items) && i < |Without(items, k)|
    ensures (exists j :: 0 <= j < |items| && items[j] == Without(items, k)[i]) && Without(items, k)[i].key != k
  {
    hide Drop;
    WithoutDistinct(items, k);
    if Find(items, k) < |items| {
      DropOrigin(items, Find(items, k), i);
    }
  }

  // ---------------------------------------------------------------------------------
  // What stays cached

  /** Keys other than those never mentioned: what the operations look up or store. */
  function Touched(ops: seq<Op>): set<Key> {
    if ops == [] then {}
    else
      var t := Touched(ops[..|ops| - 1]);
      match ops[|ops| - 1]
      case Get(x, _) => t + {x}
      case Put(x, _, _) => t + {x}
      case _ => t
  }

  /** Operations that leave `k` alone: other keys only, no clearing, no resizing. */
  predicate LeavesAlone(ops: seq<Op>, k: Key) {
    forall j :: 0 <= j < |ops| ==>
      match ops[j]
      case Get(x, _) => x != k
      case Put(x, _, _) => x != k
      case Delete(x, _) => x != k
      case SetTtl(_) => true
      case _ => false
  }

  /** Item `x` sits at position `i`, behind items whose keys are all in `ahead`. */
  predicate Behind(items: seq<Item>, i: nat, x: Item, ahead: set<Key>) {
    i < |items| && items[i] == x && forall j :: 0 <= j < i ==> items[j].key in ahead
  }

  lemma {:induction false} AtMostAhead(items: seq<Item>, i: nat, ahead: set<Key>)
    requires DistinctKeys(items) && i <= |items| && forall j :: 0 <= j < i ==> items[j].key in ahead
    ensures i <= |ahead|
    decreases i
  {
    if i > 0 {
      AtMostAhead(items, i - 1, ahead - {items[i - 1].key});
    }
  }

  lemma WithoutBehind(items: seq<Item>, i: nat, x: Item, ahead: set<Key>, k: Key) returns (j: nat)
    requires DistinctKeys(items) && Behind(items, i, x, ahead) && k != x.key
    ensures j <= i && Behind(Without(items, k), j, x, ahead) && DistinctKeys(Without(items, k))
  {
    hide DistinctKeys, Drop;
    WithoutDistinct(items, k);
    var at := Find(items, k);
    j := if at < i then i - 1 else i;
    if at < |items| {
      DropBehind(items, at, i, x, ahead);
    }
  }

  lemma DropBehind(items: seq<Item>, at: nat, i: nat, x: Item, ahead: set<Key>)
    requires Behind(items, i, x, ahead) && at < |items| && at != i
    ensures Behind(Drop(items, at), if at < i then i - 1 else i, x, ahead)
  {
    var r := Drop(items, at);
    assert forall j :: 0 <= j < |r| ==> r[j] == items[if j < at then j else j + 1];
  }

  lemma PrependBehind(items: seq<Item>, j: nat, x: Item, ahead: set<Key>, y: Item)
    requires Behind(items, j, x, ahead)
    ensures Behind([y] + items, j + 1, x, ahead + {y.key})
  {
  }

  lemma GetBehind(s: State, i: nat, x: Item, ahead: set<Key>, k: Key, now: int) returns (j: nat)
    requires DistinctKeys(s.items) && Behind(s.items, i, x, ahead) && k != x.key
    ensures Behind(GetItems(s.items, s.ttl, k, now).0, j, x, ahead + {k})
  {
    hide Behind, DistinctKeys, Find;
    j := WithoutBehind(s.items, i, x, ahead, k);
    var at := Find(s.items, k);
    if at == |s.items| {
      j := i;
      MoreAhead(s.items, j, x, ahead, ahead + {k});
    } else if Expired(s.items[at].stamp, s.ttl, now) {
      MoreAhead(Without(s.items, k), j, x, ahead, ahead + {k});
    } else {
      PrependBehind(Without(s.items, k), j, x, ahead, s.items[at]);
      j := j + 1;
    }
  }

  lemma PutBehind(s: State, i: nat, x: Item, ahead: set<Key>, k: Key, v: Value, now: int) returns (j: nat)
    requires DistinctKeys(s.items) && Behind(s.items, i, x, ahead) && k != x.key && |ahead + {k}| < s.capacity
    ensures Behind(PutItems(s.items, s.capacity, k, Some(v), now), j, x, ahead + {k})
  {
    hide Behind, DistinctKeys, Without, Trim;
    j := WithoutBehind(s.items, i, x, ahead, k);
    PrependBehind(Without(s.items, k), j, x, ahead, Item(k, v, now));
    j := j + 1;
    PrependDistinct(s.items, Item(k, v, now));
    TrimBehind([Item(k, v, now)] + Without(s.items, k), j, x, ahead + {k}, s.capacity);
  }

  lemma {:induction false} StepBehind(s: State, op: Op, i: nat, x: Item, ahead: set<Key>) returns (j: nat)
    requires Sound(s) && Behind(s.items, i, x, ahead) && LeavesAlone([op], x.key)
    requires |ahead + Touched([op])| < s.capacity
    ensures Behind(Apply(s, op).items, j, x, ahead + Touched([op])) && Apply(s, op).capacity == s.capacity
  {
    hide Behind, DistinctKeys;
    assert [op][0] == op && [op][..0] == [];
    match op
    case SetTtl(_) =>
      j := i;
      assert ahead + {} == ahead;
    case Get(k, now) =>
      hide GetItems;
      j := GetBehind(s, i, x, ahead, k, now);
    case Put(k, v, now) =>
      hide PutItems;
      j := PutBehind(s, i, x, ahead, k, v, now);
    case Delete(k, _) =>
      j := WithoutBehind(s.items, i, x, ahead, k);
      TrimBehind(Without(s.items, k), j, x, ahead, s.capacity);
      assert ahead + {} == ahead;
  }

  lemma MoreAhead(items: seq<Item>, j: nat, x: Item, ahead: set<Key>, more: set<Key>)
    requires Behind(items, j, x, ahead) && ahead <= more
    ensures Behind(items, j, x, more)
  {
  }

  lemma PrependDistinct(items: seq<Item>, y: Item)
    requires DistinctKeys(items)
    ensures DistinctKeys([y] + Without(items, y.key))
  {
    hide Without;
    WithoutDistinct(items, y.key);
  }

  lemma TrimBehind(items: seq<Item>, j: nat, x: Item, ahead: set<Key>, cap: nat)
    requires DistinctKeys(items) && Behind(items, j, x, ahead) && |ahead| < cap
    ensures Behind(Trim(items, cap), j, x, ahead)
  {
    AtMostAhead(items, j, ahead);
  }

  /** An item just used stays cached, unchanged, as long as fewer other keys than the
      capacity are looked up or stored: only the least recently used items are evicted. */
  lemma {:induction false} RecentlyUsedStays(s: State, ops: seq<Op>) returns (i: nat)
    requires Sound(s) && s.items != [] && LeavesAlone(ops, s.items[0].key) && |Touched(ops)| < s.capacity
    ensures Behind(Run(s, ops).items, i, s.items[0], Touched(ops)) && Run(s, ops).capacity == s.capacity
    decreases |ops|
  {
    if ops == [] {
      i := 0;
    } else {
      var before, op := ops[..|ops| - 1], ops[|ops| - 1];
      TouchedStep(ops);
      i := RecentlyUsedStays(s, before);
      RunSound(s, before);
      assert LeavesAlone([op], s.items[0].key);
      i := StepBehind(Run(s, before), op, i, s.items[0], Touched(before));
    }
  }

  /** The key was stored or found by operation `j`. */
  predicate Used(s: State, ops: seq<Op>, j: nat, k: Key)
    requires j < |ops|
  {
    || (ops[j].Put? && ops[j].key == k && CapacityAfter(s.capacity, ops[..j]) > 0)
    || (ops[j].Get? && ops[j].key == k && Answers(s, ops)[j].Some?)
  }

  lemma UsedIsFirst(s: State, ops: seq<Op>, j: nat, k: Key)
    requires Sound(s) && j < |ops| && Used(s, ops, j, k)
    ensures var t := Run(s, ops[..j + 1]); t.items != [] && t.items[0].key == k
  {
    hide Run, Answers, Drop, Without;
    AnswerAt(s, ops, j);
    SettingsAfter(s, ops[..j]);
    assert ops[..j + 1][..j] == ops[..j];
    RunStep(s, ops, j);
  }

  lemma RunStep(s: State, ops: seq<Op>, j: nat)
    requires j < |ops|
    ensures Run(s, ops[..j + 1]) == Apply(Run(s, ops[..j]), ops[j])
  {
    assert ops[..j + 1][..j] == ops[..j];
  }

  lemma {:induction false} RunJoin(s: State, a: seq<Op>, b: seq<Op>)
    ensures Run(s, a + b) == Run(Run(s, a), b)
    decreases |b|
  {
    if b == [] {
      assert a + b == a;
    } else {
      hide Apply;
      RunJoin(s, a, b[..|b| - 1]);
      assert (a + b)[..|a + b| - 1] == a + b[..|b| - 1];
    }
  }

  /** A key that was stored or found, left alone while fewer other keys than the capacity are used, and
      looked up within the lifetime of the put that counts, is found. */
  lemma UsedIsFound(s: State, ops: seq<Op>, j: nat, i: nat)
    requires Sound(s) && s.items == [] && j < i < |ops| && ops[i].Get? && Used(s, ops, j, ops[i].key)
    requires LeavesAlone(ops[j + 1..i], ops[i].key)
    requires |Touched(ops[j + 1..i])| < CapacityAfter(s.capacity, ops[..j + 1])
    requires var put, ttl := LastPut(ops[..i], ops[i].key), TtlAfter(s.ttl, ops[..i]);
             put.Some? && ttl > 0 ==> ops[i].now - ops[put.value].now <= ttl
    ensures Answers(s, ops)[i].Some?
  {
    hide Run, Answers, LastPut, Touched, LeavesAlone, TtlAfter, CapacityAfter, Used, LastStored;
    var k, t := ops[i].key, Run(s, ops[..j + 1]);
    UsedIsFirst(s, ops, j, k);
    SettingsAfter(s, ops[..j + 1]);
    RunSound(s, ops[..j + 1]);
    var at := RecentlyUsedStays(t, ops[j + 1..i]);
    RunJoin(s, ops[..j + 1], ops[j + 1..i]);
    assert ops[..j + 1] + ops[j + 1..i] == ops[..i];
    SettingsAfter(s, ops[..i]);
    AnswerAt(s, ops, i);
    CachedIsLastStored(s, ops[..i], Find(Run(s, ops[..i]).items, k));
  }

  lemma TouchedStep(ops: seq<Op>)
    requires ops != []
    ensures Touched(ops) == Touched(ops[..|ops| - 1]) + Touched([ops[|ops| - 1]])
    ensures |Touched(ops[..|ops| - 1])| <= |Touched(ops)|
  {
    var last := [ops[|ops| - 1]];
    assert last[..0] == [] && last[0] == ops[|ops| - 1];
    Subset(Touched(ops[..|ops| - 1]), Touched(ops));
  }

  lemma Subset(a: set<Key>, b: set<Key>)
    requires a <= b
    ensures |a| <= |b|
  {
    assert a + (b - a) == b;
  }
}
