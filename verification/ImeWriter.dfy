/**
 `serialize` of utils/ime/gen_ime_dict.py: the string pool with its offsets, the entry table,
 the candidate records and the header. A field too wide for its record is an error.
 */
module ImeWriter {
  import opened Options
  import opened Bits
  import opened Crc
  import opened ImeFormat

  /** The string pool: each string once, followed by a terminator. */
  class Pool {
    var bytes: seq<Byte>
    var offsets: map<Text, nat>

    ghost predicate Valid()
      reads this
    {
      forall s :: s in offsets ==> StringAt(bytes, offsets[s], s)
    }

    constructor ()
      ensures Valid() && bytes == []
    {
      bytes, offsets := [], map[];
    }

    /** `_intern`: where the string stands, after adding it if it is new. */
    method Intern(s: Text) returns (off: nat)
      requires Valid()
      modifies this
      ensures Valid() && StringAt(bytes, off, s) && old(bytes) <= bytes
      ensures |bytes| <= |old(bytes)| + |s| + 1
      ensures offsets == old(offsets)[s := off]
      ensures bytes == if s in old(offsets) then old(bytes) else old(bytes) + s + [0]
    {
      if s in offsets {
        return offsets[s];
      }
      off := |bytes|;
      ghost var was := bytes;
      bytes := bytes + s + [0];
      forall t | t in offsets ensures StringAt(bytes, offsets[t], t) {
        StringStays(was, bytes, offsets[t], t);
      }
      offsets := offsets[s := off];
    }
  }

  lemma StringStays(pool: seq<Byte>, more: seq<Byte>, p: nat, s: Text)
    requires StringAt(pool, p, s) && pool <= more
    ensures StringAt(more, p, s)
  {
    assert more[p..p + |s|] == pool[p..p + |s|];
  }

  /** Pool bytes that the texts of the candidates need at most. */
  function Weight(cands: seq<Cand>): nat {
    if cands == [] then 0 else Weight(cands[..|cands| - 1]) + |cands[|cands| - 1].text| + 1
  }

  predicate FreqsFit(cands: seq<Cand>) {
    forall k :: 0 <= k < |cands| ==> cands[k].freq < U32
  }

  lemma CandsStay(blob: seq<Byte>, more: seq<Byte>, from: nat, pool: seq<Byte>, pool': seq<Byte>, cands: seq<Cand>)
    requires CandsAre(blob, from, pool, cands) && blob <= more && pool <= pool'
    ensures CandsAre(more, from, pool', cands)
  {
    forall k | 0 <= k < |cands| ensures CandIs(CandAt(more, from, k), pool', cands[k]) {
      CandStays(blob, more, from, k, pool, pool', cands[k]);
    }
  }

  lemma CandStays(blob: seq<Byte>, more: seq<Byte>, from: nat, k: nat, pool: seq<Byte>, pool': seq<Byte>, c: Cand)
    requires from + CAND_SIZE * (k + 1) <= |blob| && CandIs(CandAt(blob, from, k), pool, c) && blob <= more
    requires pool <= pool'
    ensures CandIs(CandAt(more, from, k), pool', c)
  {
    assert CandAt(more, from, k) == CandAt(blob, from, k);
    StringStays(pool, pool', U32At(CandAt(blob, from, k), 0), c.text);
  }

  lemma CandAdded(blob: seq<Byte>, from: nat, pool: seq<Byte>, cands: seq<Cand>, pool': seq<Byte>, c: Cand,
                  rec: seq<Byte>)
    requires CandsAre(blob, from, pool, cands) && pool <= pool' && CandIs(rec, pool', c)
    requires |blob| == from + CAND_SIZE * |cands|
    ensures CandsAre(blob + rec, from, pool', cands + [c])
  {
    CandsStay(blob, blob + rec, from, pool, pool', cands);
    assert CandAt(blob + rec, from, |cands|) == rec;
    forall k | 0 <= k < |cands + [c]| ensures CandIs(CandAt(blob + rec, from, k), pool', (cands + [c])[k]) {
    }
  }

  function Pack2(a: nat, b: nat): (r: seq<Byte>)
    requires a < U32 && b < U32
    ensures |r| == 8 && U32At(r, 0) == a && U32At(r, 4) == b
  {
    Pack32(a) + Pack32(b)
  }

  /** Appends the records of one entry's candidates. */
  method PutCands(pool: Pool, blob: seq<Byte>, cands: seq<Cand>) returns (ok: bool, more: seq<Byte>)
    requires pool.Valid()
    modifies pool
    ensures pool.Valid() && old(pool.bytes) <= pool.bytes && |pool.bytes| <= |old(pool.bytes)| + Weight(cands)
    ensures ok ==> blob <= more && |more| == |blob| + CAND_SIZE * |cands|
    ensures ok ==> CandsAre(more, |blob|, pool.bytes, cands)
    ensures FreqsFit(cands) && |old(pool.bytes)| + Weight(cands) <= U32 ==> ok
  {
    hide CandsAre, CandIs, StringAt, Pack2, U32At, Weight, FreqsFit;
    NoWeight();
    more := blob;
    assert CandsAre(more, |blob|, pool.bytes, cands[..0]) by { NoCands(more, pool.bytes, cands[..0]); }
    for k := 0 to |cands|
      invariant pool.Valid() && old(pool.bytes) <= pool.bytes
      invariant |pool.bytes| <= |old(pool.bytes)| + Weight(cands[..k])
      invariant blob <= more && |more| == |blob| + CAND_SIZE * k
      invariant CandsAre(more, |blob|, pool.bytes, cands[..k])
    {
      ghost var was := pool.bytes;
      WeightGrows(cands, k);
      var off := pool.Intern(cands[k].text);
      assert |pool.bytes| <= |old(pool.bytes)| + Weight(cands[..k + 1]);
      if off >= U32 || cands[k].freq >= U32 {
        WeightRest(cands, k + 1);
        FreqFits(cands, k);
        return false, more;
      }
      var rec := Pack2(off, cands[k].freq);
      RecordIs(rec, pool.bytes, cands[k]);
      CandAdded(more, |blob|, was, cands[..k], pool.bytes, cands[k], rec);
      more := more + rec;
      assert cands[..k] + [cands[k]] == cands[..k + 1];
    }
    assert cands[..|cands|] == cands;
    ok := true;
  }

  lemma NoCands(blob: seq<Byte>, pool: seq<Byte>, cands: seq<Cand>)
    requires cands == []
    ensures CandsAre(blob, |blob|, pool, cands)
  {
  }

  lemma RecordIs(rec: seq<Byte>, pool: seq<Byte>, c: Cand)
    requires |rec| == 8 && StringAt(pool, U32At(rec, 0), c.text) && U32At(rec, 4) == c.freq
    ensures CandIs(rec, pool, c)
  {
  }

  lemma NoWeight()
    ensures Weight([]) == 0
  {
  }

  lemma FreqFits(cands: seq<Cand>, k: nat)
    requires k < |cands|
    ensures FreqsFit(cands) ==> cands[k].freq < U32
  {
  }

  lemma WeightGrows(cands: seq<Cand>, k: nat)
    requires k < |cands|
    ensures Weight(cands[..k + 1]) == Weight(cands[..k]) + |cands[k].text| + 1
  {
    assert cands[..k + 1][..k] == cands[..k];
  }

  lemma {:induction false} WeightRest(cands: seq<Cand>, k: nat)
    requires k <= |cands|
    ensures Weight(cands[..k]) <= Weight(cands)
    decreases |cands| - k
  {
    if k == |cands| {
      assert cands[..k] == cands;
    } else {
      WeightGrows(cands, k);
      WeightRest(cands, k + 1);
    }
  }

  // ----- The whole file -----

  /** Bytes of candidate records and pool that the entries need at most. */
  function BlobSize(dict: seq<Entry>): nat {
    if dict == [] then 0 else BlobSize(dict[..|dict| - 1]) + CAND_SIZE * |dict[|dict| - 1].cands|
  }

  function PoolSize(dict: seq<Entry>): nat {
    if dict == [] then 0
    else PoolSize(dict[..|dict| - 1]) + |dict[|dict| - 1].key| + 1 + Weight(dict[|dict| - 1].cands)
  }

  /** The dictionary is within the widths of the format's fields. */
  predicate Fits(dict: seq<Entry>) {
    && HEADER_SIZE + ENTRY_SIZE * |dict| + BlobSize(dict) < U32 && PoolSize(dict) <= U32
    && forall i :: 0 <= i < |dict| ==> |dict[i].cands| < 0x1_0000 && FreqsFit(dict[i].cands)
  }

  lemma SizesGrow(dict: seq<Entry>, i: nat)
    requires i < |dict|
    ensures BlobSize(dict[..i + 1]) == BlobSize(dict[..i]) + CAND_SIZE * |dict[i].cands|
    ensures PoolSize(dict[..i + 1]) == PoolSize(dict[..i]) + |dict[i].key| + 1 + Weight(dict[i].cands)
  {
    assert dict[..i + 1][..i] == dict[..i];
  }

  lemma {:induction false} SizesRest(dict: seq<Entry>, i: nat)
    requires i <= |dict|
    ensures BlobSize(dict[..i]) <= BlobSize(dict) && PoolSize(dict[..i]) <= PoolSize(dict)
    decreases |dict| - i
  {
    if i == |dict| {
      assert dict[..i] == dict;
    } else {
      SizesGrow(dict, i);
      SizesRest(dict, i + 1);
    }
  }

  lemma EntryAdded(table: seq<Byte>, blob: seq<Byte>, pool: seq<Byte>, dict: seq<Entry>,
                   more: seq<Byte>, pool': seq<Byte>, e: Entry, rec: seq<Byte>)
    requires EntriesAre(table, blob, pool, dict) && blob <= more && pool <= pool' && EntryIs(rec, more, pool', e)
    ensures EntriesAre(table + rec, more, pool', dict + [e])
  {
    hide CandsAre;
    assert EntryAt(table + rec, |dict|) == rec;
    forall i | 0 <= i < |dict + [e]| ensures EntryIs(EntryAt(table + rec, i), more, pool', (dict + [e])[i]) {
      if i < |dict| {
        assert EntryAt(table + rec, i) == EntryAt(table, i);
        EntryStays(EntryAt(table, i), blob, more, pool, pool', dict[i]);
      }
    }
  }

  lemma EntryStays(rec: seq<Byte>, blob: seq<Byte>, more: seq<Byte>, pool: seq<Byte>, pool': seq<Byte>, e: Entry)
    requires EntryIs(rec, blob, pool, e) && blob <= more && pool <= pool'
    ensures EntryIs(rec, more, pool', e)
  {
    StringStays(pool, pool', U32At(rec, 0), e.key);
    CandsStay(blob, more, U32At(rec, 4), pool, pool', e.cands);
  }

  function PackEntry(p: nat, c: nat, n: nat): (r: seq<Byte>)
    requires p < U32 && c < U32 && n < 0x1_0000
    ensures |r| == ENTRY_SIZE && U32At(r, 0) == p && U32At(r, 4) == c && U16At(r, 8) == n
  {
    Pack32(p) + Pack32(c) + Pack16(n) + Pack16(0)
  }

  /** Appends one entry: its key, its candidates and then its record. */
  method PutEntry(pool: Pool, table: seq<Byte>, blob: seq<Byte>, e: Entry, ghost done: seq<Entry>)
    returns (ok: bool, table': seq<Byte>, more: seq<Byte>)
    requires pool.Valid() && EntriesAre(table, blob, pool.bytes, done)
    modifies pool
    ensures pool.Valid() && |pool.bytes| <= |old(pool.bytes)| + |e.key| + 1 + Weight(e.cands)
    ensures ok ==> EntriesAre(table', more, pool.bytes, done + [e]) && |more| == |blob| + CAND_SIZE * |e.cands|
    ensures (&& FreqsFit(e.cands) && |e.cands| < 0x1_0000 && |blob| < U32
             && |old(pool.bytes)| + |e.key| + 1 + Weight(e.cands) <= U32)
            ==> ok
  {
    hide EntriesAre, CandsAre, FreqsFit;
    ghost var was := pool.bytes;
    var keyOff := pool.Intern(e.key);
    ghost var keyed := pool.bytes;
    var fits, blob' := PutCands(pool, blob, e.cands);
    if !fits || keyOff >= U32 || |blob| >= U32 || |e.cands| >= 0x1_0000 {
      return false, table, blob;
    }
    more := blob';
    var rec := PackEntry(keyOff, |blob|, |e.cands|);
    StringStays(keyed, pool.bytes, keyOff, e.key);
    assert EntryIs(rec, more, pool.bytes, e);
    EntryAdded(table, blob, was, done, more, pool.bytes, e, rec);
    table' := table + rec;
    ok := true;
  }

  function Header(count: nat, crc: nat, poolOff: nat): (r: seq<Byte>)
    requires count < U32 && crc < U32 && poolOff < U32
    ensures |r| == HEADER_SIZE && r[..8] == MAGIC
    ensures U32At(r, 8) == VERSION && U32At(r, 12) == count && U32At(r, 16) == crc && U32At(r, 20) == poolOff
  {
    MAGIC + (Pack2(VERSION, count) + Pack2(crc, poolOff))
  }

  lemma Assembled(table: seq<Byte>, blob: seq<Byte>, pool: seq<Byte>, dict: seq<Entry>, f: seq<Byte>)
    requires EntriesAre(table, blob, pool, dict)
    requires HEADER_SIZE + |table| + |blob| < U32 && |dict| < U32
    requires Checksum(table + blob + pool) < U32
    requires f == Header(|dict|, Checksum(table + blob + pool), HEADER_SIZE + |table| + |blob|) + (table + blob + pool)
    ensures Image(f, dict)
  {
    hide Checksum, EntryIs, U32At;
    var body := table + blob + pool;
    var header := Header(|dict|, Checksum(body), HEADER_SIZE + |table| + |blob|);
    assert f[HEADER_SIZE..] == body;
    assert f[..8] == header[..8];
    forall p: nat | p + 4 <= HEADER_SIZE ensures U32At(f, p) == U32At(header, p) {
      Prefix32(header, body, p);
    }
    var blobOff, poolOff := HEADER_SIZE + |table|, HEADER_SIZE + |table| + |blob|;
    assert U32At(f, 20) == poolOff;
    assert f[HEADER_SIZE..blobOff] == table && f[blobOff..poolOff] == blob && f[poolOff..] == pool;
  }

  lemma Prefix32(a: seq<Byte>, b: seq<Byte>, p: nat)
    requires p + 4 <= |a|
    ensures U32At(a + b, p) == U32At(a, p)
  {
  }

  /** `serialize` on the entries in key order. */
  method Serialize(dict: seq<Entry>) returns (r: Option<seq<Byte>>)
    ensures r.Some? ==> Image(r.value, dict)
    ensures Fits(dict) ==> r.Some?
  {
    hide EntriesAre, Image, FreqsFit, Checksum;
    var pool := new Pool();
    var table, blob: seq<Byte> := [], [];
    assert EntriesAre(table, blob, pool.bytes, dict[..0]) by { NoEntries(table, blob, pool.bytes, dict[..0]); }
    for i := 0 to |dict|
      modifies pool
      invariant pool.Valid() && EntriesAre(table, blob, pool.bytes, dict[..i])
      invariant |blob| == BlobSize(dict[..i]) && |pool.bytes| <= PoolSize(dict[..i])
    {
      SizesGrow(dict, i);
      SizesRest(dict, i + 1);
      var ok;
      ok, table, blob := PutEntry(pool, table, blob, dict[i], dict[..i]);
      if !ok {
        return None;
      }
      assert dict[..i] + [dict[i]] == dict[..i + 1];
    }
    assert dict[..|dict|] == dict;
    TableSize(table, blob, pool.bytes, dict);
    var poolOff := HEADER_SIZE + |table| + |blob|;
    if poolOff >= U32 {
      return None;
    }
    var data := table + blob + pool.bytes;
    ChecksumBound(data);
    var f := Header(|dict|, Checksum(data), poolOff) + data;
    Assembled(table, blob, pool.bytes, dict, f);
    r := Some(f);
  }

  lemma NoEntries(table: seq<Byte>, blob: seq<Byte>, pool: seq<Byte>, dict: seq<Entry>)
    requires table == [] && dict == []
    ensures EntriesAre(table, blob, pool, dict)
  {
  }

  lemma TableSize(table: seq<Byte>, blob: seq<Byte>, pool: seq<Byte>, dict: seq<Entry>)
    requires EntriesAre(table, blob, pool, dict)
    ensures |table| == ENTRY_SIZE * |dict|
  {
  }
}
