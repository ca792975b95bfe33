/**
 The file of the pinyin dictionary: how utils/ime/gen_ime_dict.py lays it out and what
 utils/ime/airy_ime.c checks before it uses one. Texts are their UTF-8 bytes.
 */
module ImeFormat {
  import opened Options
  import opened Bits
  import opened Crc

  const MAGIC: seq<Byte> := [65, 73, 82, 89, 73, 77, 69, 49]
  const VERSION := 1
  const HEADER_SIZE := 24
  const ENTRY_SIZE := 12
  const CAND_SIZE := 8

  type Text = seq<Byte>
  datatype Cand = Cand(text: Text, freq: nat)
  datatype Entry = Entry(key: Text, cands: seq<Cand>)

  // ----- Little-endian fields -----

  function U16At(f: seq<Byte>, p: nat): nat
    requires p + 2 <= |f|
  {
    f[p] as int + 0x100 * f[p + 1] as int
  }

  function U32At(f: seq<Byte>, p: nat): nat
    requires p + 4 <= |f|
  {
    f[p] as int + 0x100 * f[p + 1] as int + 0x1_0000 * f[p + 2] as int + 0x100_0000 * f[p + 3] as int
  }

  function Pack16(n: nat): (r: seq<Byte>)
    requires n < 0x1_0000
    ensures |r| == 2 && U16At(r, 0) == n
  {
    [n % 0x100, n / 0x100]
  }

  function Pack32(n: nat): (r: seq<Byte>)
    requires n < U32
    ensures |r| == 4 && U32At(r, 0) == n
  {
    var n1 := n / 0x100;
    var n2 := n1 / 0x100;
    [n % 0x100, n1 % 0x100, n2 % 0x100, n2 / 0x100]
  }

  /** Least significant byte first. */
  lemma LittleEndian(f: seq<Byte>, p: nat)
    requires p + 4 <= |f|
    ensures f[p] == U16At(f, p) % 0x100 && f[p + 1] == U16At(f, p) / 0x100
    ensures f[p] == U32At(f, p) % 0x100 && f[p + 1] == U32At(f, p) / 0x100 % 0x100
    ensures f[p + 2] == U32At(f, p) / 0x100 / 0x100 % 0x100 && f[p + 3] == U32At(f, p) / 0x100 / 0x100 / 0x100
  {
    var rest: nat := f[p + 1] as int + 0x100 * (f[p + 2] as int + 0x100 * f[p + 3] as int);
    LowByte(f[p], rest);
    LowByte(f[p], f[p + 1]);
    LowByte(f[p + 1], f[p + 2] as int + 0x100 * f[p + 3] as int);
    LowByte(f[p + 2], f[p + 3]);
    assert U32At(f, p) == f[p] as int + 0x100 * rest;
  }

  lemma LowByte(b: Byte, rest: nat)
    ensures (b as int + 0x100 * rest) % 0x100 == b && (b as int + 0x100 * rest) / 0x100 == rest
  {
  }

  lemma SliceU32(f: seq<Byte>, from: nat, to: nat, p: nat)
    requires from + p + 4 <= to <= |f|
    ensures U32At(f[from..to], p) == U32At(f, from + p)
  {
  }

  lemma SliceOfSlice(f: seq<Byte>, from: nat, end: nat, a: nat, b: nat)
    requires a <= b && from + b <= end <= |f|
    ensures f[from..end][a..b] == f[from + a..from + b]
  {
    var g := f[from..end];
    var x, y := g[a..b], f[from + a..from + b];
    forall k | 0 <= k < b - a ensures x[k] == y[k] {
      assert x[k] == g[a + k];
      assert g[a + k] == f[from + (a + k)];
      assert y[k] == f[(from + a) + k];
    }
  }

  /** The bytes of the C string that starts at `p`. */
  function TextAt(f: seq<Byte>, p: nat): Text
    requires p <= |f|
    decreases |f| - p
  {
    if p == |f| || f[p] == 0 then [] else [f[p]] + TextAt(f, p + 1)
  }

  /** `s` and a terminator stand at `p`. */
  predicate StringAt(f: seq<Byte>, p: nat, s: Text) {
    p + |s| < |f| && f[p..p + |s|] == s && f[p + |s|] == 0
  }

  lemma {:induction false} StringRead(f: seq<Byte>, p: nat, s: Text)
    requires StringAt(f, p, s) && 0 !in s
    ensures TextAt(f, p) == s
    decreases |s|
  {
    if s != [] {
      assert f[p] == f[p..p + |s|][0] == s[0];
      assert f[p + 1..p + |s|] == s[1..];
      StringRead(f, p + 1, s[1..]);
      assert s == [s[0]] + s[1..];
    }
  }

  // ----- Layout -----

  /** A candidate record: pool offset of its text, frequency. */
  predicate CandIs(rec: seq<Byte>, pool: seq<Byte>, c: Cand) {
    |rec| == CAND_SIZE && StringAt(pool, U32At(rec, 0), c.text) && U32At(rec, 4) == c.freq
  }

  function CandAt(blob: seq<Byte>, from: nat, k: nat): seq<Byte>
    requires from + CAND_SIZE * (k + 1) <= |blob|
  {
    blob[from + CAND_SIZE * k..from + CAND_SIZE * (k + 1)]
  }

  predicate CandsAre(blob: seq<Byte>, from: nat, pool: seq<Byte>, cands: seq<Cand>) {
    && from + CAND_SIZE * |cands| <= |blob|
    && forall k :: 0 <= k < |cands| ==> CandIs(CandAt(blob, from, k), pool, cands[k])
  }

  /** An entry record: pool offset of its key, offset and number of its candidates. */
  predicate EntryIs(rec: seq<Byte>, blob: seq<Byte>, pool: seq<Byte>, e: Entry) {
    && |rec| == ENTRY_SIZE
    && StringAt(pool, U32At(rec, 0), e.key)
    && U16At(rec, 8) == |e.cands|
    && CandsAre(blob, U32At(rec, 4), pool, e.cands)
  }

  function EntryAt(table: seq<Byte>, i: nat): seq<Byte>
    requires ENTRY_SIZE * (i + 1) <= |table|
  {
    table[ENTRY_SIZE * i..ENTRY_SIZE * (i + 1)]
  }

  predicate EntriesAre(table: seq<Byte>, blob: seq<Byte>, pool: seq<Byte>, dict: seq<Entry>) {
    && |table| == ENTRY_SIZE * |dict|
    && forall i :: 0 <= i < |dict| ==> EntryIs(EntryAt(table, i), blob, pool, dict[i])
  }

  /** The bytes `f` are a file of the dictionary `dict`, its entries listed in key order. */
  predicate Image(f: seq<Byte>, dict: seq<Entry>) {
    var blobOff := HEADER_SIZE + ENTRY_SIZE * |dict|;
    && HEADER_SIZE <= |f| && f[..8] == MAGIC
    && U32At(f, 8) == VERSION && U32At(f, 12) == |dict| && U32At(f, 16) == Checksum(f[HEADER_SIZE..])
    && blobOff <= U32At(f, 20) <= |f|
    && EntriesAre(f[HEADER_SIZE..blobOff], f[blobOff..U32At(f, 20)], f[U32At(f, 20)..], dict)
  }

  // ----- Loading -----

  datatype Ime = Ime(file: seq<Byte>, count: nat, poolOff: nat)

  /** The bounds checks on the header; the size of the entry table is computed in 32 bits. */
  predicate InBounds(f: seq<Byte>)
    requires HEADER_SIZE <= |f|
  {
    && U32At(f, 12) <= (|f| - HEADER_SIZE) / ENTRY_SIZE
    && (HEADER_SIZE + U32At(f, 12) * ENTRY_SIZE) % U32 <= U32At(f, 20) <= |f|
  }

  predicate Accepts(f: seq<Byte>) {
    && HEADER_SIZE <= |f| && f[..8] == MAGIC && U32At(f, 8) == VERSION && InBounds(f)
    && U32At(f, 16) == Checksum(f[HEADER_SIZE..])
  }

  /** `airy_ime_load` on the contents of the file. */
  method Load(file: seq<Byte>) returns (r: Option<Ime>)
    ensures r.Some? == Accepts(file)
    ensures r.Some? ==> r.value == Ime(file, U32At(file, 12), U32At(file, 20))
  {
    hide Checksum;
    if |file| < HEADER_SIZE || file[..8] != MAGIC {
      return None;
    }
    var ver, count, crc, poolOff := U32At(file, 8), U32At(file, 12), U32At(file, 16), U32At(file, 20);
    if ver != VERSION {
      return None;
    }
    if count > (|file| - HEADER_SIZE) / ENTRY_SIZE {
      return None;
    }
    if poolOff < (HEADER_SIZE + count * ENTRY_SIZE) % U32 || poolOff > |file| {
      return None;
    }
    var sum := Crc32(file[HEADER_SIZE..]);
    if sum != crc {
      return None;
    }
    r := Some(Ime(file, count, poolOff));
  }

  /** Every written file loads, with its own entry count and pool. */
  lemma ImageLoads(f: seq<Byte>, dict: seq<Entry>)
    requires Image(f, dict)
    ensures Accepts(f) && U32At(f, 12) == |dict|
  {
    hide Checksum, EntriesAre, U32At;
    U32Small(f, 20);
    TableFits(|dict|, U32At(f, 20), |f|);
  }

  lemma TableFits(count: nat, poolOff: nat, size: nat)
    requires HEADER_SIZE + ENTRY_SIZE * count <= poolOff <= size && poolOff < U32
    ensures count <= (size - HEADER_SIZE) / ENTRY_SIZE && (HEADER_SIZE + count * ENTRY_SIZE) % U32 <= poolOff
  {
  }

  lemma U32Small(f: seq<Byte>, p: nat)
    requires p + 4 <= |f|
    ensures U32At(f, p) < U32
  {
  }

  // ----- Damage -----

  lemma FieldChange(f: seq<Byte>, p: nat, i: nat, b: Byte)
    requires p + 4 <= |f| && i < |f|
    ensures p <= i < p + 4 && b != f[i] ==> U32At(f[i := b], p) != U32At(f, p)
    ensures !(p <= i < p + 4) ==> U32At(f[i := b], p) == U32At(f, p)
  {
  }

  /**
   A written file with one byte changed is refused, whatever the byte and wherever it is, except
   in the entry count and the pool offset: those two fields the checksum does not cover, and
   there the damage is noticed exactly when the bounds checks notice it.
   */
  lemma OneByteDamage(f: seq<Byte>, dict: seq<Entry>, i: nat, b: Byte)
    requires Image(f, dict) && i < |f| && b != f[i]
    ensures Accepts(f[i := b]) <==> (12 <= i < 16 || 20 <= i < 24) && InBounds(f[i := b])
  {
    var g := f[i := b];
    FieldChange(f, 8, i, b);
    FieldChange(f, 16, i, b);
    hide Checksum, EntriesAre, U32At, InBounds;
    if i < 8 {
      assert g[..8][i] != f[..8][i];
    } else {
      assert g[..8] == f[..8];
    }
    if i < HEADER_SIZE {
      assert g[HEADER_SIZE..] == f[HEADER_SIZE..];
    } else {
      assert g[HEADER_SIZE..] == f[HEADER_SIZE..][i - HEADER_SIZE := b];
      OneByteChangesChecksum(f[HEADER_SIZE..], i - HEADER_SIZE, b);
    }
  }

  /** Such damage does get through: an image loads with its last entries cut off, whichever byte of the
      entry count is lowered and however far. */
  lemma SmallerCountLoads(f: seq<Byte>, dict: seq<Entry>, i: nat, b: Byte)
    requires Image(f, dict) && 12 <= i < 16 && b < f[i]
    ensures Accepts(f[i := b]) && U32At(f[i := b], 12) < |dict|
  {
    Lowered(f, 12, i, b);
    FieldChange(f, 20, i, b);
    hide Checksum, EntriesAre, Accepts, InBounds, U32At;
    OneByteDamage(f, dict, i, b);
    U32Small(f, 20);
    FieldsInBounds(f[i := b], U32At(f[i := b], 12), U32At(f, 20));
  }

  /** Unless the dictionary is empty there is a byte to lower. */
  lemma CountCanBeLowered(f: seq<Byte>, dict: seq<Entry>) returns (i: nat)
    requires Image(f, dict) && dict != []
    ensures 12 <= i < 16 && f[i] > 0
  {
    hide Checksum, EntriesAre;
    i := if f[12] > 0 then 12 else if f[13] > 0 then 13 else if f[14] > 0 then 14 else 15;
  }

  lemma Lowered(f: seq<Byte>, p: nat, i: nat, b: Byte)
    requires p + 4 <= |f| && p <= i < p + 4 && b < f[i]
    ensures U32At(f[i := b], p) < U32At(f, p)
  {
  }

  lemma FieldsInBounds(f: seq<Byte>, count: nat, poolOff: nat)
    requires HEADER_SIZE <= |f| && U32At(f, 12) == count && U32At(f, 20) == poolOff
    requires HEADER_SIZE + ENTRY_SIZE * count <= poolOff <= |f| && poolOff < U32
    ensures InBounds(f)
  {
    hide U32At;
    TableFits(count, poolOff, |f|);
  }
}
