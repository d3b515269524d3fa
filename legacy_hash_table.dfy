/**
 * The older chained hash table of hash_table.c, at the root of the
 * repository.
 *
 * The table has `size` slots; each holds NULL or the first entry of a chain
 * linked through `next`.  A chain is modelled by the sequence of its
 * entries, NULL by the empty sequence.  Keys are compared with the key
 * comparator, which both comparators of the source make an equality test
 * (the default is strcmp on C strings); the key hash is a function given at
 * initialisation, and the default one, on the bytes of a C string, is
 * modelled here too.
 *
 * ht_del is modelled as written: on a chain of two or more entries it
 * reports -1 even when it unlinked the key, and when the key is the first
 * entry it frees it without updating the slot, which keeps pointing at it.
 * The model keeps that entry in the chain, as the dangling slot still leads
 * to it.  `DelUnlinking` is the deletion the code evidently intends.
 */
module LegacyHashTable {
  import opened Common

  /** hash_table_entry: a key, a value and (in the chain) the next entry. */
  datatype Entry<K, V> = Entry(key: K, value: V)

  /** The width of the default hash: it accumulates in a `uint32_t`. */
  const HashModulus: nat := 0x1_0000_0000

  /** The sum, over the bytes of `key`, of each byte modulo `size - 1`. */
  function KeyHashSum(key: seq<Byte>, size: nat): nat
    requires size >= 2
  {
    if key == [] then 0 else KeyHashSum(key[..|key| - 1], size) + (key[|key| - 1] as nat) % (size - 1)
  }

  /** default_key_hash, as a value: the byte residues summed in a `uint32_t`. */
  function DefaultHash(key: seq<Byte>, size: nat): nat
    requires size >= 2
  {
    KeyHashSum(key, size) % HashModulus
  }

  /** The hash of a concatenation is the sum of the hashes of its parts. */
  lemma {:induction false} KeyHashSumAppend(a: seq<Byte>, b: seq<Byte>, size: nat)
    requires size >= 2
    ensures KeyHashSum(a + b, size) == KeyHashSum(a, size) + KeyHashSum(b, size)
    decreases |b|
  {
    if b == [] {
      assert a + b == a;
    } else {
      var b' := b[..|b| - 1];
      assert (a + b)[..|a + b| - 1] == a + b';
      KeyHashSumAppend(a, b', size);
    }
  }

  /** Keys that differ only in the order of their two parts collide. */
  lemma KeyHashSumSwap(a: seq<Byte>, b: seq<Byte>, size: nat)
    requires size >= 2
    ensures DefaultHash(a + b, size) == DefaultHash(b + a, size)
  {
    KeyHashSumAppend(a, b, size);
    KeyHashSumAppend(b, a, size);
  }

  /** Each byte adds at most `size - 2`. */
  lemma {:induction false} KeyHashSumBound(key: seq<Byte>, size: nat)
    requires size >= 2
    ensures KeyHashSum(key, size) <= |key| * (size - 2)
  {
    if key != [] {
      var n := |key| - 1;
      KeyHashSumBound(key[..n], size);
      assert (key[n] as nat) % (size - 1) <= size - 2;
      assert |key| * (size - 2) == n * (size - 2) + (size - 2) by {
        MulSucc(n, size - 2);
      }
    }
  }

  lemma MulSucc(n: nat, m: nat)
    ensures (n + 1) * m == n * m + m
  {
  }

  /**
   * default_key_hash: adds each byte of the key, modulo `ht_size - 1`, to
   * a `uint32_t` that wraps around.
   */
  method DefaultKeyHash(key: seq<Byte>, size: nat) returns (h: nat)
    requires size >= 2
    ensures h == DefaultHash(key, size)
  {
    h := 0;
    var i := 0;
    while i < |key|
      invariant i <= |key|
      invariant h == KeyHashSum(key[..i], size) % HashModulus
    {
      var residue := (key[i] as nat) % (size - 1);
      assert key[..i + 1][..i] == key[..i];
      WrapAdd(KeyHashSum(key[..i], size), residue);
      h := (h + residue) % HashModulus;
      i := i + 1;
    }
    assert key[..i] == key;
  }

  /** Adding to a wrapped sum wraps the whole sum. */
  lemma WrapAdd(a: nat, x: nat)
    ensures (a % HashModulus + x) % HashModulus == (a + x) % HashModulus
  {
    var q := a / HashModulus;
    assert a == q * HashModulus + a % HashModulus;
    assert (a + x) - (a % HashModulus + x) == q * HashModulus;
    ModShift(a % HashModulus + x, q);
  }

  /** Adding a multiple of the modulus changes no residue. */
  lemma {:induction false} ModShift(y: nat, q: nat)
    ensures (y + q * HashModulus) % HashModulus == y % HashModulus
  {
    if q > 0 {
      ModShift(y, q - 1);
      assert y + q * HashModulus == (y + (q - 1) * HashModulus) + HashModulus;
    }
  }

  /** The value stored for `k` in a chain: that of its first entry with key `k`. */
  function Find<K(==), V>(es: seq<Entry<K, V>>, k: K): Option<V>
  {
    if es == [] then None
    else if es[0].key == k then Some(es[0].value)
    else Find(es[1..], k)
  }

  /** Some entry of the chain has key `k`. */
  predicate HasKey<K(==), V>(es: seq<Entry<K, V>>, k: K)
  {
    exists j :: 0 <= j < |es| && es[j].key == k
  }

  /** No two entries of the chain share a key. */
  ghost predicate UniqueKeys<K, V>(es: seq<Entry<K, V>>)
  {
    forall i, j :: 0 <= i < j < |es| ==> es[i].key != es[j].key
  }

  /** A key is found exactly when an entry has it, with the value of the first such entry. */
  lemma {:induction false} FindHasKey<K, V>(es: seq<Entry<K, V>>, k: K)
    ensures Find(es, k).Some? <==> HasKey(es, k)
    ensures forall j :: 0 <= j < |es| && es[j].key == k && (forall m :: 0 <= m < j ==> es[m].key != k) ==>
              Find(es, k) == Some(es[j].value)
  {
    if es != [] {
      FindHasKey(es[1..], k);
      if es[0].key != k {
        if HasKey(es, k) {
          var j :| 0 <= j < |es| && es[j].key == k;
          assert es[1..][j - 1].key == k;
        }
        forall j | 0 <= j < |es| && es[j].key == k && (forall m :: 0 <= m < j ==> es[m].key != k)
          ensures Find(es, k) == Some(es[j].value)
        {
          assert es[1..][j - 1] == es[j];
          assert forall m :: 0 <= m < j - 1 ==> es[1..][m] == es[m + 1];
        }
      }
    }
  }

  /**
   * The chain after ht_set's walk: the value replaced in the first entry
   * with the key, or the entry appended at the tail when there is none.
   */
  function Upsert<K(==), V>(es: seq<Entry<K, V>>, e: Entry<K, V>): seq<Entry<K, V>>
  {
    if es == [] then [e]
    else if es[0].key == e.key then [Entry(es[0].key, e.value)] + es[1..]
    else [es[0]] + Upsert(es[1..], e)
  }

  /** The chain without its first entry with key `k`. */
  function Remove<K(==), V>(es: seq<Entry<K, V>>, k: K): seq<Entry<K, V>>
  {
    if es == [] then []
    else if es[0].key == k then es[1..]
    else [es[0]] + Remove(es[1..], k)
  }

  /**
   * What ht_del does to a chain, and what it returns: NULL gives -1; a
   * single entry is freed (the slot becomes NULL) and 0 returned when its
   * key matches, else -1; on a longer chain an entry after the first is
   * unlinked, the first entry only freed (the slot keeps pointing at it),
   * and -1 is returned in every case.
   */
  function DelAsWritten<K(==), V>(es: seq<Entry<K, V>>, k: K): (int, seq<Entry<K, V>>)
  {
    if es == [] then (-1, es)
    else if |es| == 1 then (if es[0].key == k then (0, []) else (-1, es))
    else if es[0].key == k then (-1, es)
    else (-1, Remove(es, k))
  }

  /**
   * Setting a key: afterwards the key is found with the new value and every
   * other key is found as before.
   */
  lemma {:induction false} FindUpsert<K, V>(es: seq<Entry<K, V>>, e: Entry<K, V>, k: K)
    ensures Find(Upsert(es, e), k) == if k == e.key then Some(e.value) else Find(es, k)
  {
    if es != [] && es[0].key != e.key {
      FindUpsert(es[1..], e, k);
      assert Upsert(es, e)[1..] == Upsert(es[1..], e);
    }
  }

  /**
   * Setting a key keeps the chain's keys unique, adds no entry when the key
   * is present and exactly one at the tail when it is not, and every entry
   * of the result is the new one or one of the chain with its key.
   */
  lemma {:induction false} UpsertShape<K, V>(es: seq<Entry<K, V>>, e: Entry<K, V>)
    requires UniqueKeys(es)
    ensures UniqueKeys(Upsert(es, e))
    ensures |Upsert(es, e)| == if HasKey(es, e.key) then |es| else |es| + 1
    ensures !HasKey(es, e.key) ==> Upsert(es, e) == es + [e]
    ensures forall x :: x in Upsert(es, e) ==> x == e || x in es
  {
    if es == [] {
    } else if es[0].key == e.key {
      var u := Upsert(es, e);
      assert forall j :: 0 < j < |u| ==> u[j] == es[j];
    } else {
      var t := es[1..];
      assert UniqueKeys(t) by {
        assert forall i :: 0 <= i < |t| ==> t[i] == es[i + 1];
      }
      UpsertShape(t, e);
      var u := Upsert(es, e);
      assert u == [es[0]] + Upsert(t, e);
      assert HasKey(es, e.key) <==> HasKey(t, e.key) by {
        if HasKey(es, e.key) {
          var j :| 0 <= j < |es| && es[j].key == e.key;
          assert t[j - 1].key == e.key;
        }
        if HasKey(t, e.key) {
          var j :| 0 <= j < |t| && t[j].key == e.key;
          assert es[j + 1].key == e.key;
        }
      }
      forall i, j | 0 <= i < j < |u| ensures u[i].key != u[j].key {
        if i == 0 {
          assert u[j] in Upsert(t, e);
          assert u[j] == e || u[j] in t;
          if u[j] in t {
            var m :| 0 <= m < |t| && t[m] == u[j];
            assert es[m + 1] == u[j];
          }
        }
      }
    }
  }

  /**
   * Removing a key from a chain with unique keys: the key is no longer
   * found, every other key is found as before, and only that entry goes.
   */
  lemma {:induction false} FindRemove<K, V>(es: seq<Entry<K, V>>, k: K, k': K)
    requires UniqueKeys(es)
    ensures Find(Remove(es, k), k') == if k' == k then None else Find(es, k')
    ensures |Remove(es, k)| == if HasKey(es, k) then |es| - 1 else |es|
    ensures UniqueKeys(Remove(es, k))
    ensures forall x :: x in Remove(es, k) ==> x in es
  {
    if es != [] {
      var t := es[1..];
      assert UniqueKeys(t) by {
        assert forall i :: 0 <= i < |t| ==> t[i] == es[i + 1];
      }
      FindRemove(t, k, k');
      if es[0].key == k {
        assert !HasKey(t, k) by {
          forall j | 0 <= j < |t| ensures t[j].key != k {
            assert t[j] == es[j + 1];
          }
        }
        FindHasKey(t, k);
      } else {
        assert HasKey(es, k) <==> HasKey(t, k) by {
          if HasKey(es, k) {
            var j :| 0 <= j < |es| && es[j].key == k;
            assert t[j - 1].key == k;
          }
          if HasKey(t, k) {
            var j :| 0 <= j < |t| && t[j].key == k;
            assert es[j + 1].key == k;
          }
        }
        var r := Remove(es, k);
        assert r == [es[0]] + Remove(t, k);
        forall i, j | 0 <= i < j < |r| ensures r[i].key != r[j].key {
          if i == 0 {
            assert r[j] in Remove(t, k);
            var m :| 0 <= m < |t| && t[m] == r[j];
            assert es[m + 1] == r[j];
          }
        }
      }
    }
  }

  /**
   * The defect of ht_del: on a chain of two or more entries holding the key
   * it reports failure, and when the key is the first entry it stays found.
   */
  lemma DelAsWrittenMisreports<K, V>(es: seq<Entry<K, V>>, k: K)
    requires |es| >= 2 && HasKey(es, k)
    ensures DelAsWritten(es, k).0 == -1
    ensures es[0].key == k ==> Find(DelAsWritten(es, k).1, k) == Some(es[0].value)
  {
  }

  /** A two-entry chain whose first entry is deleted: -1, and the key is still there. */
  lemma DelAsWrittenCounterexample()
    ensures exists es: seq<Entry<int, int>> :: DelAsWritten(es, 1) == (-1, es) && Find(es, 1) == Some(10)
  {
    var es := [Entry(1, 10), Entry(2, 20)];
    assert DelAsWritten(es, 1) == (-1, es);
  }

  /**
   * The chain walk of ht_set and ht_del: the position of the first entry
   * whose key compares equal to `k`, or `|es|` when none does.
   */
  method Walk<K(==), V>(es: seq<Entry<K, V>>, k: K) returns (j: nat)
    ensures j <= |es|
    ensures j < |es| ==> es[j].key == k
    ensures forall m :: 0 <= m < j ==> es[m].key != k
  {
    j := 0;
    while j < |es| && es[j].key != k
      invariant j <= |es|
      invariant forall m :: 0 <= m < j ==> es[m].key != k
    {
      j := j + 1;
    }
  }

  /** The walk's position is where Upsert acts. */
  lemma {:induction false} WalkUpsert<K, V>(es: seq<Entry<K, V>>, e: Entry<K, V>, j: nat)
    requires j <= |es| && (j < |es| ==> es[j].key == e.key)
    requires forall m :: 0 <= m < j ==> es[m].key != e.key
    ensures Upsert(es, e) == if j < |es| then es[j := e] else es + [e]
  {
    if es != [] && j > 0 {
      WalkUpsert(es[1..], e, j - 1);
      if j < |es| {
        assert es[1..][j - 1 := e] == es[j := e][1..];
      } else {
        assert es[1..] + [e] == (es + [e])[1..];
      }
    }
  }

  /** The walk's position is where Remove acts. */
  lemma {:induction false} WalkRemove<K, V>(es: seq<Entry<K, V>>, k: K, j: nat)
    requires j <= |es| && (j < |es| ==> es[j].key == k)
    requires forall m :: 0 <= m < j ==> es[m].key != k
    ensures Remove(es, k) == if j < |es| then es[..j] + es[j + 1..] else es
  {
    if es != [] && j > 0 {
      WalkRemove(es[1..], k, j - 1);
      if j < |es| {
        assert es[1..][..j - 1] + es[1..][j..] == (es[..j] + es[j + 1..])[1..];
      }
    }
  }

  /**
   * hash_table (hash_table.c): `size` slots, each the chain of entries
   * `index[b]`, and the key hash.  The index is NULL when its allocation
   * failed; after ht_destroy it is `null` too, standing for the freed
   * (and, in the code, dangling) pointer.
   */
  class Table<K(==,!new), V>
  {
    const size: nat
    const keyHash: (K, nat) --> nat
    var index: array?<seq<Entry<K, V>>>

    /** find_index: the key's hash modulo `size - 1`, so the last slot is never used. */
    function Slot(k: K): (b: nat)
      requires size >= 2 && keyHash.requires(k, size)
      ensures b < size - 1
    {
      keyHash(k, size) % (size - 1)
    }

    /**
     * The table invariant: at least two slots (find_index divides by
     * `size - 1`), a hash defined for every key at this size, each entry
     * in the slot of its key, and no key twice in a chain.
     */
    ghost predicate Valid()
      reads this, index
    {
      && size >= 2
      && (forall k :: keyHash.requires(k, size))
      && index != null && index.Length == size
      && (forall b, j :: 0 <= b < size && 0 <= j < |index[b]| ==> Slot(index[b][j].key) == b)
      && (forall b :: 0 <= b < size ==> UniqueKeys(index[b]))
    }

    /**
     * ht_init: records `size`, allocates the index and clears every slot.
     * When the allocation fails (`allocOk` false) the index stays NULL and
     * the result is -1.  The comparator is equality; a NULL hash selects
     * DefaultHash, which callers pass here as `keyHash`.
     */
    constructor (size: nat, keyHash: (K, nat) --> nat, allocOk: bool)
      ensures this.size == size && this.keyHash == keyHash
      ensures allocOk <==> index != null
      ensures index != null ==> fresh(index) && index.Length == size && forall b :: 0 <= b < size ==> index[b] == []
      ensures allocOk && size >= 2 && (forall k :: keyHash.requires(k, size)) ==> Valid()
    {
      this.size := size;
      this.keyHash := keyHash;
      if allocOk {
        index := new seq<Entry<K, V>>[size](_ => []);
      } else {
        index := null;
      }
    }

    /** The index position find_index computes, as the source does: by calling the hash. */
    method FindIndex(k: K) returns (b: nat)
      requires Valid()
      ensures b == Slot(k)
    {
      var h := keyHash(k, size);
      b := h % (size - 1);
    }

    /**
     * ht_set: walks the key's chain; an entry with the key gets the new
     * value, otherwise a new entry goes at the tail (or fills a NULL slot).
     */
    method Set(key: K, value: V) returns (r: int)
      requires Valid()
      modifies index
      ensures Valid() && r == 0
      ensures index[Slot(key)] == Upsert(old(index[Slot(key)]), Entry(key, value))
      ensures forall b :: 0 <= b < size && b != Slot(key) ==> index[b] == old(index[b])
    {
      var b := FindIndex(key);
      var es := index[b];
      var e := Entry(key, value);
      var j := Walk(es, key);
      WalkUpsert(es, e, j);
      UpsertShape(es, e);
      if j < |es| {
        index[b] := es[j := e];
      } else {
        index[b] := es + [e];
      }
      r := 0;
    }

    /** ht_get: the value of the first entry of the key's chain with that key, or NULL. */
    method Get(key: K) returns (r: Option<V>)
      requires Valid()
      ensures r == Find(index[Slot(key)], key)
    {
      var b := FindIndex(key);
      var es := index[b];
      if es == [] {
        return None;
      }
      var j := 0;
      while j < |es|
        invariant j <= |es|
        invariant Find(es[j..], key) == Find(es, key)
      {
        if es[j].key == key {
          return Some(es[j].value);
        }
        assert es[j..][1..] == es[j + 1..];
        j := j + 1;
      }
      return None;
    }

    /**
     * ht_del as written: see DelAsWritten.  The walk over a longer chain
     * stops mattering after its first match, keys being unique.
     */
    method Del(key: K) returns (r: int)
      requires Valid()
      modifies index
      ensures Valid()
      ensures (r, index[Slot(key)]) == DelAsWritten(old(index[Slot(key)]), key)
      ensures forall b :: 0 <= b < size && b != Slot(key) ==> index[b] == old(index[b])
    {
      var b := FindIndex(key);
      var es := index[b];
      if es == [] {
        return -1;
      }
      if |es| == 1 {
        if es[0].key == key {
          index[b] := [];
          return 0;
        }
        return -1;
      }
      var j := Walk(es, key);
      WalkRemove(es, key, j);
      FindRemove(es, key, key);
      if 0 < j < |es| {
        index[b] := es[..j] + es[j + 1..];
      }
      r := -1;
    }

    /**
     * ht_del as evidently intended: the entry with the key is unlinked
     * wherever it sits in the chain, the slot updated when it was the
     * first, and 0 returned; -1 when the key is absent.
     */
    method DelUnlinking(key: K) returns (r: int)
      requires Valid()
      modifies index
      ensures Valid()
      ensures r == (if HasKey(old(index[Slot(key)]), key) then 0 else -1)
      ensures index[Slot(key)] == Remove(old(index[Slot(key)]), key)
      ensures forall b :: 0 <= b < size && b != Slot(key) ==> index[b] == old(index[b])
    {
      var b := FindIndex(key);
      var es := index[b];
      var j := Walk(es, key);
      WalkRemove(es, key, j);
      FindRemove(es, key, key);
      if j < |es| {
        index[b] := es[..j] + es[j + 1..];
        return 0;
      }
      r := -1;
    }

    /** ht_destroy: every entry and the index are freed; the table holds nothing. */
    method Destroy() returns (r: int)
      requires index != null
      modifies this
      ensures r == 0 && index == null
    {
      index := null;
      r := 0;
    }
  }

  /** The keys of the test suite, as the bytes of their C strings. */
  const Foo: seq<Byte> := [0x66, 0x6f, 0x6f]
  const Bar: seq<Byte> := [0x62, 0x61, 0x72]
  const Spangle: seq<Byte> := [0x73, 0x70, 0x61, 0x6e, 0x67, 0x6c, 0x65]
  const DoesntExist: seq<Byte> := [0x64, 0x6f, 0x65, 0x73, 0x6e, 0x74, 0x5f, 0x65, 0x78, 0x69, 0x73, 0x74]

  /** With 50 slots the default hash puts the four test keys in four different slots. */
  lemma TestKeySlots()
    ensures DefaultHash(Foo, 50) % 49 == 30
    ensures DefaultHash(Bar, 50) % 49 == 15
    ensures DefaultHash(Spangle, 50) % 49 == 11
    ensures DefaultHash(DoesntExist, 50) % 49 == 31
  {
    FooHash();
    BarHash();
    SpangleHash();
    DoesntExistHash();
  }

  lemma FooHash()
    ensures KeyHashSum(Foo, 50) == 30
  {
    HashSteps(Foo);
    assert KeyHashSum(Foo[..1], 50) == 4;
    assert KeyHashSum(Foo[..2], 50) == 17;
    assert KeyHashSum(Foo[..3], 50) == 30;
  }

  lemma BarHash()
    ensures KeyHashSum(Bar, 50) == 64
  {
    HashSteps(Bar);
    assert KeyHashSum(Bar[..1], 50) == 0;
    assert KeyHashSum(Bar[..2], 50) == 48;
    assert KeyHashSum(Bar[..3], 50) == 64;
  }

  lemma SpangleHash()
    ensures KeyHashSum(Spangle, 50) == 109
  {
    HashSteps(Spangle);
    assert KeyHashSum(Spangle[..1], 50) == 17;
    assert KeyHashSum(Spangle[..2], 50) == 31;
    assert KeyHashSum(Spangle[..3], 50) == 79;
    assert KeyHashSum(Spangle[..4], 50) == 91;
    assert KeyHashSum(Spangle[..5], 50) == 96;
    assert KeyHashSum(Spangle[..6], 50) == 106;
    assert KeyHashSum(Spangle[..7], 50) == 109;
  }

  lemma DoesntExistHash()
    ensures KeyHashSum(DoesntExist, 50) == 178
  {
    HashSteps(DoesntExist);
    assert KeyHashSum(DoesntExist[..1], 50) == 2;
    assert KeyHashSum(DoesntExist[..2], 50) == 15;
    assert KeyHashSum(DoesntExist[..3], 50) == 18;
    assert KeyHashSum(DoesntExist[..4], 50) == 35;
    assert KeyHashSum(DoesntExist[..5], 50) == 47;
    assert KeyHashSum(DoesntExist[..6], 50) == 65;
    assert KeyHashSum(DoesntExist[..7], 50) == 111;
    assert KeyHashSum(DoesntExist[..8], 50) == 114;
    assert KeyHashSum(DoesntExist[..9], 50) == 136;
    assert KeyHashSum(DoesntExist[..10], 50) == 143;
    assert KeyHashSum(DoesntExist[..11], 50) == 160;
    assert KeyHashSum(DoesntExist[..12], 50) == 178;
  }

  /** Unfolds KeyHashSum one byte at a time over every prefix of `key`. */
  lemma HashSteps(key: seq<Byte>)
    ensures KeyHashSum(key[..0], 50) == 0
    ensures forall i :: 0 < i <= |key| ==> KeyHashSum(key[..i], 50) == KeyHashSum(key[..i - 1], 50) + (key[i - 1] as nat) % 49
    ensures key[..|key|] == key
  {
    forall i | 0 < i <= |key|
      ensures KeyHashSum(key[..i], 50) == KeyHashSum(key[..i - 1], 50) + (key[i - 1] as nat) % 49
    {
      assert key[..i][..i - 1] == key[..i - 1];
    }
  }

  /** The table the test suite builds: 50 slots, the default hash. */
  method NewTestTable() returns (t: Table<seq<Byte>, string>)
    ensures fresh(t) && fresh(t.index) && t.Valid()
    ensures forall b :: 0 <= b < t.size ==> t.index[b] == []
    ensures forall k :: t.Slot(k) == DefaultHash(k, 50) % 49
  {
    var hash := (k: seq<Byte>, n: nat) requires n >= 2 => DefaultHash(k, n);
    t := new Table(50, hash, true);
  }

  /**
   * test_hash_table_get_and_set: each set returns 0; every key set so far
   * gives back its value, and a key never set gives nothing.
   */
  method ScenarioGetAndSet() returns (codes: seq<int>, foo: Option<string>, bar: Option<string>,
                                      spangle: Option<string>, missing: Option<string>)
    ensures codes == [0, 0, 0]
    ensures foo == Some("one") && bar == Some("two") && spangle == Some("fez") && missing == None
  {
    TestKeySlots();
    var t := NewTestTable();
    var r := t.Set(Foo, "one");
    codes := [r];
    var v := t.Get(Foo);
    assert v == Some("one");
    missing := t.Get(DoesntExist);
    r := t.Set(Bar, "two");
    codes := codes + [r];
    v := t.Get(Foo);
    assert v == Some("one");
    v := t.Get(Bar);
    assert v == Some("two");
    r := t.Set(Spangle, "fez");
    codes := codes + [r];
    foo := t.Get(Foo);
    bar := t.Get(Bar);
    spangle := t.Get(Spangle);
  }

  /**
   * test_hash_table_del: "bar" sits alone in its slot, so ht_del reports
   * success; "foo" keeps its value and "bar" is gone.
   */
  method ScenarioDel() returns (r: int, foo: Option<string>, bar: Option<string>)
    ensures r == 0 && foo == Some("one") && bar == None
  {
    TestKeySlots();
    var t := NewTestTable();
    var _ := t.Set(Foo, "one");
    var _ := t.Set(Bar, "two");
    r := t.Del(Bar);
    foo := t.Get(Foo);
    bar := t.Get(Bar);
    var _ := t.Destroy();
  }
}
