/**
 * The storage engine: a fixed table of 1024 buckets, each a chain of
 * key/value entries, addressed by the djb2 hash of the key.
 */
module KvStore {
  import opened Wire

  const HASH_SIZE: nat := 1024
  /** `char key[256]` less its terminator. */
  const KEY_WIDTH: nat := 255
  /** `char value[768]` less its terminator. */
  const VALUE_WIDTH: nat := 767
  /** `unsigned long` is 64 bits wide: arithmetic on it wraps modulo WORD. */
  const WORD: nat := 0x1_0000_0000_0000_0000
  const DJB2_SEED: nat := 5381

  /** A `char` read as a signed byte and widened to `int`. */
  function SignedChar(c: Byte): int
  {
    if c < 128 then c else c - 256
  }

  /** The djb2 accumulator after the bytes of `s`, in 64-bit unsigned arithmetic. */
  function Djb2(s: seq<Byte>): (h: nat)
    ensures h < WORD
  {
    if s == [] then DJB2_SEED
    else (Djb2(s[..|s| - 1]) * 33 + SignedChar(s[|s| - 1])) % WORD
  }

  /** The bucket of a key: djb2 reduced modulo the bucket count. */
  function Bucket(key: seq<Byte>): (b: nat)
    ensures b < HASH_SIZE
  {
    Djb2(key) % HASH_SIZE
  }

  /** djb2 computed modulo the bucket count at every step. */
  function Djb2Narrow(s: seq<Byte>): (h: nat)
  {
    if s == [] then DJB2_SEED % HASH_SIZE
    else (Djb2Narrow(s[..|s| - 1]) * 33 + SignedChar(s[|s| - 1])) % HASH_SIZE
  }

  lemma WrapKeepsBucket(x: int)
    ensures (x % WORD) % HASH_SIZE == x % HASH_SIZE
  {
    var q := x / WORD;
    assert x == q * WORD + x % WORD;
    assert q * WORD == (q * 0x40_0000_0000_0000) * 1024;
  }

  lemma StepKeepsBucket(a: int, c: int)
    ensures (a * 33 + c) % HASH_SIZE == ((a % HASH_SIZE) * 33 + c) % HASH_SIZE
  {
    var q := a / 1024;
    assert a == 1024 * q + a % 1024;
    assert a * 33 + c == 1024 * (33 * q) + ((a % 1024) * 33 + c);
  }

  /** The 64-bit wrap-around never changes the bucket a key lands in. */
  lemma {:induction false} BucketIgnoresWrapAround(s: seq<Byte>)
    ensures Bucket(s) == Djb2Narrow(s)
  {
    if s != [] {
      var p, c := s[..|s| - 1], SignedChar(s[|s| - 1]);
      BucketIgnoresWrapAround(p);
      WrapKeepsBucket(Djb2(p) * 33 + c);
      StepKeepsBucket(Djb2(p), c);
    }
  }

  /** Distinct one-byte keys land in distinct buckets: the hash is not constant. */
  lemma SingleByteKeysSpread(a: Byte, b: Byte)
    requires a != b
    ensures Bucket([a]) != Bucket([b])
  {
    assert [a][..0] == [] && [b][..0] == [];
    assert Djb2([a]) == 177573 + SignedChar(a);
    assert Djb2([b]) == 177573 + SignedChar(b);
  }

  /** `hash`: walks the key once, updating the djb2 accumulator. */
  method Hash(key: seq<Byte>) returns (idx: nat)
    requires NoNul(key)
    ensures idx == Bucket(key) && idx < HASH_SIZE
  {
    var h: nat := DJB2_SEED;
    var i := 0;
    while i < |key|
      invariant 0 <= i <= |key|
      invariant h == Djb2(key[..i])
    {
      assert key[..i + 1][..i] == key[..i];
      h := (h * 33 + SignedChar(key[i])) % WORD;
      i := i + 1;
    }
    assert key[..i] == key;
    idx := h % HASH_SIZE;
  }

  /** One `kv_entry_t`, without its `next` link. */
  datatype Entry = Entry(key: seq<Byte>, value: seq<Byte>)

  /** Index of the first entry of `chain` whose key is `key`: the `strcmp` walk. */
  function Position(chain: seq<Entry>, key: seq<Byte>): (r: Option<nat>)
    ensures r.Some? ==> r.value < |chain| && chain[r.value].key == key
    ensures r.Some? ==> forall j :: 0 <= j < r.value ==> chain[j].key != key
    ensures r.None? <==> forall j :: 0 <= j < |chain| ==> chain[j].key != key
  {
    if chain == [] then None
    else if chain[0].key == key then Some(0)
    else match Position(chain[1..], key)
      case None => None
      case Some(i) => Some(i + 1)
  }

  /** The `strcmp` loop over one chain that `set_kv` and `get_kv` share, from the head. */
  method Find(chain: seq<Entry>, key: seq<Byte>) returns (pos: Option<nat>)
    ensures pos == Position(chain, key)
  {
    var i := 0;
    while i < |chain|
      invariant i <= |chain|
      invariant forall j :: 0 <= j < i ==> chain[j].key != key
    {
      if chain[i].key == key {
        return Some(i);
      }
      i := i + 1;
    }
    return None;
  }

  /** The contents of `hash_table`: bucket `b` lists its chain from the head. */
  type Table = seq<seq<Entry>>

  /** What an entry's fixed-size buffers can hold. */
  predicate EntryValid(e: Entry)
  {
    NoNul(e.key) && |e.key| <= KEY_WIDTH && NoNul(e.value) && |e.value| <= VALUE_WIDTH
  }

  /**
   * The table invariant: every entry sits in the bucket of its key, and no
   * chain holds a key twice (so, with the first, no key is stored twice).
   */
  ghost predicate TableValid(t: Table)
  {
    && |t| == HASH_SIZE
    && (forall b, i :: 0 <= b < |t| && 0 <= i < |t[b]| ==> EntryValid(t[b][i]) && Bucket(t[b][i].key) == b)
    && (forall b, i, j :: 0 <= b < |t| && 0 <= i < j < |t[b]| ==> t[b][i].key != t[b][j].key)
  }

  /** `get_kv` on table contents: the value of the first match in the key's bucket. */
  function Lookup(t: Table, key: seq<Byte>): (r: Option<seq<Byte>>)
    requires |t| == HASH_SIZE
    ensures r.Some? ==> Entry(key, r.value) in t[Bucket(key)]
    ensures r.None? <==> forall e :: e in t[Bucket(key)] ==> e.key != key
  {
    var chain := t[Bucket(key)];
    match Position(chain, key)
    case Some(i) => Some(chain[i].value)
    case None => None
  }

  /** The table stands for the map `m`: a lookup of any C string agrees with `m`. */
  ghost predicate Abstracts(t: Table, m: map<seq<Byte>, seq<Byte>>)
    requires |t| == HASH_SIZE
  {
    && (forall k :: k in m ==> NoNul(k))
    && (forall k :: NoNul(k) ==> Lookup(t, k) == MapGet(m, k))
  }

  /**
   * The map after `set_kv(key, value)`: the truncated key is bound to the
   * truncated value, unless the key is new and the allocation failed.
   */
  function StoreSet(m: map<seq<Byte>, seq<Byte>>, key: seq<Byte>, value: seq<Byte>, allocOk: bool): (r: map<seq<Byte>, seq<Byte>>)
    ensures var k := Truncate(key, KEY_WIDTH);
      && r.Keys == (if allocOk || k in m then m.Keys + {k} else m.Keys)
      && (forall q :: q in m && q != k ==> r[q] == m[q])
      && (allocOk || k in m ==> r[k] == Truncate(value, VALUE_WIDTH))
  {
    var k := Truncate(key, KEY_WIDTH);
    if allocOk || k in m then m[k := Truncate(value, VALUE_WIDTH)] else m
  }

  /**
   * `set_kv` on table contents, with the key truncated before it is hashed
   * and compared (see SetKvAsWritten for the code as written).
   */
  function SetTable(t: Table, key: seq<Byte>, value: seq<Byte>, allocOk: bool): (r: Table)
    requires |t| == HASH_SIZE
    ensures |r| == HASH_SIZE
    ensures var k := Truncate(key, KEY_WIDTH); var b := Bucket(k);
      && (forall c :: 0 <= c < HASH_SIZE && c != b ==> r[c] == t[c])
      && (Position(t[b], k).Some? ==> var p := Position(t[b], k).value;
            && |r[b]| == |t[b]| && r[b][p] == Entry(k, Truncate(value, VALUE_WIDTH))
            && forall j :: 0 <= j < |t[b]| && j != p ==> r[b][j] == t[b][j])
      && (Position(t[b], k).None? && allocOk ==> r[b] == [Entry(k, Truncate(value, VALUE_WIDTH))] + t[b])
      && (Position(t[b], k).None? && !allocOk ==> r == t)
  {
    var k := Truncate(key, KEY_WIDTH);
    var b := Bucket(k);
    match Position(t[b], k)
    case Some(i) => t[b := t[b][i := t[b][i].(value := Truncate(value, VALUE_WIDTH))]]
    case None => if allocOk then t[b := [Entry(k, Truncate(value, VALUE_WIDTH))] + t[b]] else t
  }

  lemma PositionAfterPrepend(e: Entry, chain: seq<Entry>, q: seq<Byte>)
    ensures Position([e] + chain, q) ==
      if e.key == q then Some(0)
      else match Position(chain, q) case None => None case Some(i) => Some(i + 1)
  {
    assert ([e] + chain)[1..] == chain;
  }

  /** The first match depends on the keys of a chain only. */
  lemma PositionIgnoresValues(c: seq<Entry>, c': seq<Entry>, q: seq<Byte>)
    requires |c'| == |c| && forall j :: 0 <= j < |c| ==> c'[j].key == c[j].key
    ensures Position(c', q) == Position(c, q)
  {
    match Position(c, q)
    case Some(p) =>
      assert c'[p].key == q;
    case None =>
  }

  /** After a `set_kv`, a lookup of the stored key yields the stored value and every other lookup is unchanged. */
  lemma SetTableLookup(t: Table, key: seq<Byte>, value: seq<Byte>, allocOk: bool, q: seq<Byte>)
    requires |t| == HASH_SIZE
    ensures var k := Truncate(key, KEY_WIDTH);
      Lookup(SetTable(t, key, value, allocOk), q) ==
        if q == k && (allocOk || Lookup(t, k).Some?) then Some(Truncate(value, VALUE_WIDTH)) else Lookup(t, q)
  {
    var k, v := Truncate(key, KEY_WIDTH), Truncate(value, VALUE_WIDTH);
    var b := Bucket(k);
    var r := SetTable(t, key, value, allocOk);
    if Bucket(q) == b {
      var c := t[b];
      match Position(c, k)
      case Some(i) =>
        PositionIgnoresValues(c, r[b], q);
      case None =>
        if allocOk {
          PositionAfterPrepend(Entry(k, v), c, q);
        }
    }
  }

  /** `set_kv` keeps every entry in its key's bucket and never stores a key twice. */
  lemma SetTablePreservesValid(t: Table, key: seq<Byte>, value: seq<Byte>, allocOk: bool)
    requires TableValid(t) && NoNul(key) && NoNul(value)
    ensures TableValid(SetTable(t, key, value, allocOk))
  {
    var k, v := Truncate(key, KEY_WIDTH), Truncate(value, VALUE_WIDTH);
    var b := Bucket(k);
    var r := SetTable(t, key, value, allocOk);
    assert EntryValid(Entry(k, v));
    forall c, i | 0 <= c < |r| && 0 <= i < |r[c]|
      ensures EntryValid(r[c][i]) && Bucket(r[c][i].key) == c
    {
      if c == b {
        match Position(t[b], k)
        case Some(p) =>
          assert r[b] == t[b][p := t[b][p].(value := v)];
        case None =>
          if allocOk && i > 0 {
            assert r[b][i] == t[b][i - 1];
          }
      }
    }
    forall c, i, j | 0 <= c < |r| && 0 <= i < j < |r[c]|
      ensures r[c][i].key != r[c][j].key
    {
      if c == b {
        match Position(t[b], k)
        case Some(p) =>
        case None =>
          if allocOk {
            assert r[b][j] == t[b][j - 1];
            if i > 0 {
              assert r[b][i] == t[b][i - 1];
            }
          }
      }
    }
  }

  /** After `set_kv`, the table stands for the map updated by StoreSet. */
  lemma SetTableAbstracts(t: Table, m: map<seq<Byte>, seq<Byte>>, key: seq<Byte>, value: seq<Byte>, allocOk: bool)
    requires |t| == HASH_SIZE && Abstracts(t, m) && NoNul(key)
    ensures Abstracts(SetTable(t, key, value, allocOk), StoreSet(m, key, value, allocOk))
  {
    var k := Truncate(key, KEY_WIDTH);
    var r := SetTable(t, key, value, allocOk);
    var m' := StoreSet(m, key, value, allocOk);
    assert NoNul(k);
    assert Lookup(t, k) == MapGet(m, k);
    forall q | NoNul(q)
      ensures Lookup(r, q) == MapGet(m', q)
    {
      SetTableLookup(t, key, value, allocOk, q);
    }
  }

  /** `set_kv` keeps the table invariant and updates the map the table stands for. */
  lemma SetTableRefines(t: Table, m: map<seq<Byte>, seq<Byte>>, key: seq<Byte>, value: seq<Byte>, allocOk: bool)
    requires TableValid(t) && Abstracts(t, m) && NoNul(key) && NoNul(value)
    ensures TableValid(SetTable(t, key, value, allocOk))
    ensures Abstracts(SetTable(t, key, value, allocOk), StoreSet(m, key, value, allocOk))
  {
    SetTablePreservesValid(t, key, value, allocOk);
    SetTableAbstracts(t, m, key, value, allocOk);
  }

  /**
   * `set_kv` exactly as written: the bucket and the comparison use the whole
   * key, while a new entry keeps only its first KEY_WIDTH bytes.
   */
  function SetKvAsWritten(t: Table, key: seq<Byte>, value: seq<Byte>, allocOk: bool): (r: Table)
    requires |t| == HASH_SIZE
    ensures |r| == HASH_SIZE
  {
    var b := Bucket(key);
    match Position(t[b], key)
    case Some(i) => t[b := t[b][i := t[b][i].(value := Truncate(value, VALUE_WIDTH))]]
    case None =>
      if allocOk then t[b := [Entry(Truncate(key, KEY_WIDTH), Truncate(value, VALUE_WIDTH))] + t[b]] else t
  }

  /** For every key the protocol can produce, the code as written and SetTable agree. */
  lemma AsWrittenAgreesOnShortKeys(t: Table, key: seq<Byte>, value: seq<Byte>, allocOk: bool)
    requires |t| == HASH_SIZE && |key| <= KEY_WIDTH
    ensures SetKvAsWritten(t, key, value, allocOk) == SetTable(t, key, value, allocOk)
  {
    assert Truncate(key, KEY_WIDTH) == key;
  }

  lemma ShortKeysMissLongKey(chain: seq<Entry>, key: seq<Byte>)
    requires forall j :: 0 <= j < |chain| ==> |chain[j].key| <= KEY_WIDTH
    requires |key| > KEY_WIDTH
    ensures Position(chain, key) == None
  {
  }

  /** As written, a key longer than KEY_WIDTH is stored but cannot be read back. */
  lemma LongKeyIsLost(t: Table, key: seq<Byte>, value: seq<Byte>)
    requires TableValid(t) && |key| > KEY_WIDTH
    ensures Lookup(SetKvAsWritten(t, key, value, true), key) == None
  {
    var r := SetKvAsWritten(t, key, value, true);
    var b := Bucket(key);
    ShortKeysMissLongKey(t[b], key);
    assert r[b] == [Entry(Truncate(key, KEY_WIDTH), Truncate(value, VALUE_WIDTH))] + t[b];
    ShortKeysMissLongKey(r[b], key);
  }

  /** As written, setting the same long key twice stores its truncation twice. */
  lemma LongKeyIsDuplicated(t: Table, key: seq<Byte>, value: seq<Byte>)
    requires TableValid(t) && |key| > KEY_WIDTH
    ensures !TableValid(SetKvAsWritten(SetKvAsWritten(t, key, value, true), key, value, true))
  {
    var b := Bucket(key);
    var e := Entry(Truncate(key, KEY_WIDTH), Truncate(value, VALUE_WIDTH));
    var r1 := SetKvAsWritten(t, key, value, true);
    ShortKeysMissLongKey(t[b], key);
    assert r1[b] == [e] + t[b];
    ShortKeysMissLongKey(r1[b], key);
    var r2 := SetKvAsWritten(r1, key, value, true);
    assert r2[b] == [e] + r1[b];
    assert r2[b][0].key == r2[b][1].key;
  }

  /** A lookup in a valid table agrees with the map it stands for and yields a value an entry can hold. */
  lemma LookupAgrees(t: Table, m: map<seq<Byte>, seq<Byte>>, key: seq<Byte>)
    requires TableValid(t) && Abstracts(t, m) && NoNul(key)
    ensures Lookup(t, key) == MapGet(m, key)
    ensures Lookup(t, key).Some? ==> NoNul(Lookup(t, key).value) && |Lookup(t, key).value| <= VALUE_WIDTH
  {
    var b := Bucket(key);
    match Position(t[b], key)
    case Some(i) =>
      assert EntryValid(t[b][i]);
    case None =>
  }

  /** The global `hash_table` and the map it stands for. */
  class Store {
    var buckets: array<seq<Entry>>
    ghost var contents: map<seq<Byte>, seq<Byte>>

    ghost predicate Valid()
      reads this, buckets
    {
      buckets.Length == HASH_SIZE && TableValid(buckets[..]) && Abstracts(buckets[..], contents)
    }

    /** The zero-initialised static table: every bucket empty. */
    constructor ()
      ensures Valid() && fresh(buckets)
      ensures contents == map[]
      ensures forall b :: 0 <= b < HASH_SIZE ==> buckets[b] == []
    {
      buckets := new seq<Entry>[HASH_SIZE](_ => []);
      contents := map[];
    }

    /** `get_kv`: a read-only walk of the key's chain. */
    method Get(key: seq<Byte>) returns (r: Option<seq<Byte>>)
      requires Valid() && NoNul(key)
      ensures r == Lookup(buckets[..], key)
      ensures r == MapGet(contents, key)
      ensures r.Some? ==> NoNul(r.value) && |r.value| <= VALUE_WIDTH
    {
      ghost var t := buckets[..];
      LookupAgrees(t, contents, key);
      var idx := Hash(key);
      var chain := buckets[idx];
      var pos := Find(chain, key);
      match pos
      case Some(i) => return Some(chain[i].value);
      case None => return None;
    }

    /**
     * `set_kv`: overwrites the value of the key's entry in place, or
     * prepends a new entry to its bucket, or, if the allocation fails,
     * changes nothing.
     */
    method Set(key: seq<Byte>, value: seq<Byte>, allocOk: bool)
      requires Valid() && NoNul(key) && NoNul(value)
      modifies this, buckets
      ensures Valid() && buckets == old(buckets)
      ensures buckets[..] == SetTable(old(buckets[..]), key, value, allocOk)
      ensures contents == StoreSet(old(contents), key, value, allocOk)
    {
      ghost var t := buckets[..];
      SetTableRefines(t, contents, key, value, allocOk);
      var k := Truncate(key, KEY_WIDTH);
      var v := Truncate(value, VALUE_WIDTH);
      assert NoNul(k);
      var idx := Hash(k);
      var chain := buckets[idx];
      var pos := Find(chain, k);
      assert chain == t[Bucket(k)];
      match pos {
        case Some(i) =>
          buckets[idx] := chain[i := chain[i].(value := v)];
          assert buckets[..] == t[idx := chain[i := chain[i].(value := v)]];
        case None =>
          if allocOk {
            buckets[idx] := [Entry(k, v)] + chain;
            assert buckets[..] == t[idx := [Entry(k, v)] + chain];
          }
      }
      contents := StoreSet(contents, key, value, allocOk);
    }
  }
}
