/**
 * The chained hash table of utils/hash_table.c.
 *
 * The index is an array of bucket slots; a slot is either NULL (`NoList`)
 * or a list of entries (`Chain`).  Each bucket list is represented by the
 * sequence of entries it holds, in chain order, so the node-level links of
 * utils/list.c are not repeated here.  The key comparator is modelled as
 * equality of keys: both comparators the program installs (strcmp on
 * strings, subtraction on 32-bit addresses) answer 0 exactly on equal keys.
 * The key hash is a function given at initialisation.
 */
module HashTable {
  import opened Common

  /** hash_table_entry: a key, a value, and whether ht_destroy frees them. */
  datatype Entry<K, V> = Entry(key: K, value: V, mustDestroy: bool)

  /** One slot of the index: NULL, or a list of entries in chain order. */
  datatype Bucket<K, V> = NoList | Chain(entries: seq<Entry<K, V>>)

  /** `(size_t)-1`, what ht_keys and ht_values return on failure. */
  const SizeMax: nat := 0xFFFF_FFFF_FFFF_FFFF

  /** The entries a slot holds (none for a NULL slot). */
  function Items<K, V>(b: Bucket<K, V>): seq<Entry<K, V>>
  {
    match b
    case NoList => []
    case Chain(es) => es
  }

  /**
   * find_index: the bucket of `key` in an index of `size` slots.  The
   * remainder is taken modulo `size - 1`, so the last slot is never used.
   */
  function Slot<K>(hash: (K, nat) -> nat, size: nat, key: K): (i: nat)
    requires size >= 2
    ensures i <= size - 2
  {
    hash(key, size) % (size - 1)
  }

  /** No two entries of a chain share a key. */
  ghost predicate KeysDistinct<K, V>(es: seq<Entry<K, V>>)
  {
    forall i, j :: 0 <= i < j < |es| ==> es[i].key != es[j].key
  }

  /**
   * KeysDistinct stated entry by entry from the back of the chain: the
   * form the table invariant uses, which the verifier unfolds one entry
   * at a time.
   */
  ghost predicate UniqueKeys<K, V>(es: seq<Entry<K, V>>)
    decreases |es|
  {
    es != [] ==>
      && (forall x :: 0 <= x < |es| - 1 ==> KeyAt(es, x) != KeyAt(es, |es| - 1))
      && UniqueKeys(es[..|es| - 1])
  }

  /** The key of entry `x`. */
  ghost function KeyAt<K, V>(es: seq<Entry<K, V>>, x: nat): K
    requires x < |es|
  {
    es[x].key
  }

  /** The two forms of key uniqueness agree. */
  lemma {:induction false} UniqueKeysDistinct<K, V>(es: seq<Entry<K, V>>)
    ensures UniqueKeys(es) <==> KeysDistinct(es)
    decreases |es|
  {
    if es != [] {
      var p := es[..|es| - 1];
      UniqueKeysDistinct(p);
      assert forall x :: 0 <= x < |p| ==> p[x] == es[x];
      if UniqueKeys(es) {
        forall x | 0 <= x < |es| - 1
          ensures es[x].key != es[|es| - 1].key
        {
          assert KeyAt(es, x) != KeyAt(es, |es| - 1);
        }
      }
    }
  }

  /** Some entry of the chain has key `k`. */
  ghost predicate HasKey<K, V>(es: seq<Entry<K, V>>, k: K)
  {
    exists j :: 0 <= j < |es| && es[j].key == k
  }

  /**
   * The table invariant over the index contents `bs` and the abstract map
   * `m`: every entry sits in the bucket its key hashes to, keys are unique
   * within a bucket, every entry is a pair of `m`, and every key of `m` is
   * found in its bucket.  An index of fewer than two slots holds nothing.
   */
  ghost predicate TableOk<K, V>(bs: seq<Bucket<K, V>>, hash: (K, nat) -> nat, size: nat, m: map<K, V>)
  {
    && |bs| == size
    && (size < 2 ==> m == map[] && forall i :: 0 <= i < |bs| ==> Items(bs[i]) == [])
    && (size >= 2 ==>
         && (forall i, j :: 0 <= i < |bs| && 0 <= j < |Items(bs[i])| ==>
               && Slot(hash, size, Items(bs[i])[j].key) == i
               && Items(bs[i])[j].key in m && m[Items(bs[i])[j].key] == Items(bs[i])[j].value)
         && (forall i :: 0 <= i < |bs| ==> UniqueKeys(Items(bs[i])))
         && (forall k :: k in m ==> HasKey(Items(bs[Slot(hash, size, k)]), k)))
  }

  /** All entries of the index, bucket by bucket, each chain in order. */
  function Flatten<K, V>(bs: seq<Bucket<K, V>>): seq<Entry<K, V>>
  {
    if bs == [] then [] else Flatten(bs[..|bs| - 1]) + Items(bs[|bs| - 1])
  }

  /** The map a sequence of insertions builds, later pairs overriding earlier ones. */
  ghost function MapOf<K, V>(es: seq<Entry<K, V>>): map<K, V>
  {
    if es == [] then map[] else MapOf(es[..|es| - 1])[es[|es| - 1].key := es[|es| - 1].value]
  }

  /**
   * The chain ht_set_entry leaves behind: the first entry with the key of
   * `e` takes the value of `e` (keeping its own key and destroy flag), or,
   * when there is none, `e` is appended.
   */
  function Upsert<K(==), V>(es: seq<Entry<K, V>>, e: Entry<K, V>): seq<Entry<K, V>>
  {
    if es == [] then [e]
    else if es[0].key == e.key then [es[0].(value := e.value)] + es[1..]
    else [es[0]] + Upsert(es[1..], e)
  }

  /** The chain ht_del leaves behind: the first entry with key `k` is gone. */
  function Remove<K(==), V>(es: seq<Entry<K, V>>, k: K): seq<Entry<K, V>>
  {
    if es == [] then []
    else if es[0].key == k then es[1..]
    else [es[0]] + Remove(es[1..], k)
  }

  /** The slot ht_del leaves behind. */
  function RemoveIn<K(==), V>(b: Bucket<K, V>, k: K): Bucket<K, V>
  {
    match b
    case NoList => NoList
    case Chain(es) => Chain(Remove(es, k))
  }

  /** Replacing the value of the first match is what Upsert does. */
  lemma {:induction false} UpsertAtMatch<K, V>(es: seq<Entry<K, V>>, e: Entry<K, V>, j: nat)
    requires j < |es| && es[j].key == e.key
    requires forall m :: 0 <= m < j ==> es[m].key != e.key
    ensures Upsert(es, e) == es[j := es[j].(value := e.value)]
  {
    if j > 0 {
      UpsertAtMatch(es[1..], e, j - 1);
      assert es[1..][j - 1 := es[j].(value := e.value)] == es[j := es[j].(value := e.value)][1..];
    }
  }

  /** With no match, Upsert appends. */
  lemma {:induction false} UpsertAppends<K, V>(es: seq<Entry<K, V>>, e: Entry<K, V>)
    requires forall m :: 0 <= m < |es| ==> es[m].key != e.key
    ensures Upsert(es, e) == es + [e]
  {
    if es != [] {
      UpsertAppends(es[1..], e);
      assert [es[0]] + (es[1..] + [e]) == es + [e];
    }
  }

  /** Removing the first match at `j` splices it out. */
  lemma {:induction false} RemoveAtMatch<K, V>(es: seq<Entry<K, V>>, k: K, j: nat)
    requires j < |es| && es[j].key == k
    requires forall m :: 0 <= m < j ==> es[m].key != k
    ensures Remove(es, k) == es[..j] + es[j + 1..]
  {
    if j > 0 {
      RemoveAtMatch(es[1..], k, j - 1);
      assert [es[0]] + (es[1..][..j - 1] + es[1..][j..]) == es[..j] + es[j + 1..];
    }
  }

  /** With no match, Remove changes nothing. */
  lemma {:induction false} RemoveAbsent<K, V>(es: seq<Entry<K, V>>, k: K)
    requires forall m :: 0 <= m < |es| ==> es[m].key != k
    ensures Remove(es, k) == es
  {
    if es != [] {
      RemoveAbsent(es[1..], k);
    }
  }

  /** Flatten distributes over a prefix and the next bucket. */
  lemma {:induction false} FlattenStep<K, V>(bs: seq<Bucket<K, V>>, i: nat)
    requires i < |bs|
    ensures Flatten(bs[..i + 1]) == Flatten(bs[..i]) + Items(bs[i])
  {
    assert bs[..i + 1][..i] == bs[..i];
  }

  /** Replacing one slot changes the entry count by the difference of the two chains. */
  lemma {:induction false} FlattenUpdateLength<K, V>(bs: seq<Bucket<K, V>>, i: nat, b: Bucket<K, V>)
    requires i < |bs|
    ensures |Flatten(bs[i := b])| == |Flatten(bs)| - |Items(bs[i])| + |Items(b)|
  {
    var n := |bs| - 1;
    if i < n {
      FlattenUpdateLength(bs[..n], i, b);
      assert bs[i := b][..n] == bs[..n][i := b];
    } else {
      assert bs[i := b][..n] == bs[..n];
    }
  }

  /** An entry is in the flattened index exactly when it is in some bucket. */
  lemma {:induction false} FlattenMember<K, V>(bs: seq<Bucket<K, V>>, e: Entry<K, V>)
    ensures e in Flatten(bs) <==> exists i :: 0 <= i < |bs| && e in Items(bs[i])
  {
    if bs != [] {
      var n := |bs| - 1;
      FlattenMember(bs[..n], e);
      if e in Items(bs[n]) {
        assert e in Flatten(bs);
      }
      if e in Flatten(bs[..n]) {
        var i :| 0 <= i < n && e in Items(bs[..n][i]);
        assert e in Items(bs[i]);
      }
      if exists i :: 0 <= i < |bs| && e in Items(bs[i]) {
        var i :| 0 <= i < |bs| && e in Items(bs[i]);
        if i < n {
          assert e in Items(bs[..n][i]);
        }
      }
    }
  }

  /**
   * Entries placed by their keys' slots, with unique keys in each bucket,
   * have unique keys across the whole index.
   */
  lemma {:induction false} FlattenUnique<K, V>(bs: seq<Bucket<K, V>>, hash: (K, nat) -> nat, size: nat)
    requires size >= 2
    requires forall i, j :: 0 <= i < |bs| && 0 <= j < |Items(bs[i])| ==> Slot(hash, size, Items(bs[i])[j].key) == i
    requires forall i :: 0 <= i < |bs| ==> UniqueKeys(Items(bs[i]))
    ensures KeysDistinct(Flatten(bs))
  {
    if bs != [] {
      var n := |bs| - 1;
      var front, last := Flatten(bs[..n]), Items(bs[n]);
      FlattenUnique(bs[..n], hash, size);
      forall x, y | 0 <= x < |front| && 0 <= y < |last|
        ensures front[x].key != last[y].key
      {
        FlattenMember(bs[..n], front[x]);
        var i :| 0 <= i < n && front[x] in Items(bs[..n][i]);
        assert Slot(hash, size, front[x].key) == i;
        assert last[y] in Items(bs[n]);
      }
      UniqueKeysDistinct(last);
    }
  }

  /** Under unique keys, every entry is a pair of the map its insertions build. */
  lemma {:induction false} MapOfUnique<K, V>(es: seq<Entry<K, V>>)
    requires KeysDistinct(es)
    ensures forall x :: 0 <= x < |es| ==> es[x].key in MapOf(es) && MapOf(es)[es[x].key] == es[x].value
  {
    if es != [] {
      var n := |es| - 1;
      MapOfUnique(es[..n]);
      forall x | 0 <= x < n
        ensures es[x].key in MapOf(es) && MapOf(es)[es[x].key] == es[x].value
      {
        assert es[..n][x] == es[x];
      }
    }
  }

  /** The map a sequence of insertions builds has no key beyond those of its entries. */
  lemma {:induction false} MapOfKeys<K, V>(es: seq<Entry<K, V>>, m: map<K, V>)
    requires forall x :: 0 <= x < |es| ==> es[x].key in m
    ensures MapOf(es).Keys <= m.Keys
  {
    if es != [] {
      var n := |es| - 1;
      assert forall x :: 0 <= x < n ==> es[..n][x] == es[x];
      MapOfKeys(es[..n], m);
    }
  }

  /** When every bucket entry is a pair of `m`, so is every entry of the flattened index. */
  lemma {:induction false} FlattenPairs<K, V>(bs: seq<Bucket<K, V>>, m: map<K, V>)
    requires forall i, j :: 0 <= i < |bs| && 0 <= j < |Items(bs[i])| ==>
               Items(bs[i])[j].key in m && m[Items(bs[i])[j].key] == Items(bs[i])[j].value
    ensures forall x :: 0 <= x < |Flatten(bs)| ==>
              Flatten(bs)[x].key in m && m[Flatten(bs)[x].key] == Flatten(bs)[x].value
  {
    var fs := Flatten(bs);
    forall x | 0 <= x < |fs|
      ensures fs[x].key in m && m[fs[x].key] == fs[x].value
    {
      FlattenMember(bs, fs[x]);
    }
  }

  /** A key found in some bucket is found in the flattened index. */
  lemma {:induction false} FlattenHasKey<K, V>(bs: seq<Bucket<K, V>>, b: nat, k: K) returns (x: nat)
    requires b < |bs| && HasKey(Items(bs[b]), k)
    ensures x < |Flatten(bs)| && Flatten(bs)[x].key == k
  {
    var j :| 0 <= j < |Items(bs[b])| && Items(bs[b])[j].key == k;
    var e := Items(bs[b])[j];
    assert e in Items(bs[b]);
    FlattenMember(bs, e);
    x :| 0 <= x < |Flatten(bs)| && Flatten(bs)[x] == e;
  }

  /** The flattened index of a valid table lists each pair of its map exactly once. */
  lemma {:induction false} TableFlatten<K, V>(bs: seq<Bucket<K, V>>, hash: (K, nat) -> nat, size: nat, m: map<K, V>)
    requires TableOk(bs, hash, size, m)
    ensures KeysDistinct(Flatten(bs))
    ensures forall x :: 0 <= x < |Flatten(bs)| ==>
              Flatten(bs)[x].key in m && m[Flatten(bs)[x].key] == Flatten(bs)[x].value
    ensures MapOf(Flatten(bs)) == m
  {
    var fs := Flatten(bs);
    if size < 2 {
      FlattenEmpty(bs);
      MapOfUnique(fs);
    } else {
      FlattenUnique(bs, hash, size);
      FlattenPairs(bs, m);
      MapOfUnique(fs);
      MapOfKeys(fs, m);
      forall k | k in m
        ensures k in MapOf(fs) && MapOf(fs)[k] == m[k]
      {
        var x := FlattenHasKey(bs, Slot(hash, size, k), k);
      }
    }
    assert MapOf(fs).Keys == m.Keys;
  }

  /** An index of empty buckets flattens to nothing. */
  lemma {:induction false} FlattenEmpty<K, V>(bs: seq<Bucket<K, V>>)
    requires forall i :: 0 <= i < |bs| ==> Items(bs[i]) == []
    ensures Flatten(bs) == []
  {
    if bs != [] {
      FlattenEmpty(bs[..|bs| - 1]);
    }
  }

  /** A key no entry carries is not in the map the entries build. */
  lemma {:induction false} MapOfFresh<K, V>(es: seq<Entry<K, V>>, k: K)
    requires forall x :: 0 <= x < |es| ==> es[x].key != k
    ensures k !in MapOf(es)
  {
    if es != [] {
      var n := |es| - 1;
      assert forall x :: 0 <= x < n ==> es[..n][x] == es[x];
      MapOfFresh(es[..n], k);
    }
  }

  /** The entries of the first `i` buckets come first in the flattened index. */
  lemma {:induction false} FlattenPrefix<K, V>(bs: seq<Bucket<K, V>>, i: nat)
    requires i <= |bs|
    ensures Flatten(bs[..i]) <= Flatten(bs)
    decreases |bs|
  {
    if i < |bs| {
      var n := |bs| - 1;
      FlattenPrefix(bs[..n], i);
      assert bs[..n][..i] == bs[..i];
    } else {
      assert bs[..i] == bs;
    }
  }

  /** The entry at position `n` of a chain with unique keys is fresh for the map of the entries before it. */
  lemma {:induction false} UniqueFresh<K, V>(s: seq<Entry<K, V>>, n: nat)
    requires KeysDistinct(s) && n < |s|
    ensures s[n].key !in MapOf(s[..n])
  {
    MapOfFresh(s[..n], s[n].key);
  }

  /** The entries of the first `i + 1` slots of an index whose entries have unique keys have unique keys. */
  lemma {:induction false} UniquePrefix<K, V>(bs: seq<Bucket<K, V>>, i: nat)
    requires i < |bs| && KeysDistinct(Flatten(bs))
    ensures KeysDistinct(Flatten(bs[..i]) + Items(bs[i]))
  {
    FlattenStep(bs, i);
    FlattenPrefix(bs, i + 1);
    var q := Flatten(bs[..i + 1]);
    assert forall x :: 0 <= x < |q| ==> q[x] == Flatten(bs)[x];
  }


  /** Re-adding one more entry extends the map of the entries re-added so far by its pair. */
  lemma {:induction false} MapOfSnoc<K, V>(p: seq<Entry<K, V>>, e: Entry<K, V>)
    ensures MapOf(p + [e]) == MapOf(p)[e.key := e.value]
  {
    assert (p + [e])[..|p|] == p;
  }

  /**
   * Upserting into a chain with unique keys: every entry with the key of
   * `e` takes its value, the others stay, and `e` is appended when there
   * is none; keys stay unique.
   */
  lemma {:induction false} UpsertShape<K, V>(es: seq<Entry<K, V>>, e: Entry<K, V>)
    requires UniqueKeys(es)
    ensures |Upsert(es, e)| == |es| + (if HasKey(es, e.key) then 0 else 1)
    ensures forall x :: 0 <= x < |es| ==>
              Upsert(es, e)[x] == if es[x].key == e.key then es[x].(value := e.value) else es[x]
    ensures !HasKey(es, e.key) ==> Upsert(es, e)[|es|] == e
    ensures UniqueKeys(Upsert(es, e))
  {
    UniqueKeysDistinct(es);
    var us := Upsert(es, e);
    if HasKey(es, e.key) {
      var j := FindKey(es, e.key);
      UpsertAtMatch(es, e, j);
      assert forall x :: 0 <= x < |us| ==> us[x].key == es[x].key;
    } else {
      UpsertAppends(es, e);
      assert forall x :: 0 <= x < |es| ==> us[x] == es[x];
    }
    UniqueKeysDistinct(us);
  }

  /**
   * Upserting into a bucket: when the key is absent (`present` false) the
   * entry is appended; otherwise each stored entry keeps its
   * `must_destroy`.
   */
  lemma UpsertOwned<K, V>(es: seq<Entry<K, V>>, e: Entry<K, V>, present: bool)
    requires UniqueKeys(es)
    requires !present ==> forall j :: 0 <= j < |es| ==> es[j].key != e.key
    ensures !present ==> Upsert(es, e) == es + [e]
    ensures |Upsert(es, e)| >= |es|
    ensures present && HasKey(es, e.key) ==> |Upsert(es, e)| == |es|
    ensures forall x :: 0 <= x < |es| ==> Upsert(es, e)[x].mustDestroy == es[x].mustDestroy
  {
    UpsertShape(es, e);
  }

  /** The position of the entry with key `k` in a chain that has one. */
  ghost function FindKey<K, V>(es: seq<Entry<K, V>>, k: K): (j: nat)
    requires HasKey(es, k)
    ensures j < |es| && es[j].key == k
    ensures KeysDistinct(es) ==> forall m :: 0 <= m < |es| && es[m].key == k ==> m == j
  {
    var j :| 0 <= j < |es| && es[j].key == k; j
  }

  /**
   * The part of the table invariant about bucket `b` holding the chain
   * `es`: its entries hash to `b` and are pairs of `m`, its keys are
   * unique, and every key of `m` hashing to `b` is in it.
   */
  ghost predicate BucketOk<K, V>(es: seq<Entry<K, V>>, hash: (K, nat) -> nat, size: nat, b: nat, m: map<K, V>)
    requires size >= 2
  {
    && (forall j :: 0 <= j < |es| ==> Slot(hash, size, es[j].key) == b && es[j].key in m && m[es[j].key] == es[j].value)
    && UniqueKeys(es)
    && (forall k :: k in m && Slot(hash, size, k) == b ==> HasKey(es, k))
  }

  /** Each bucket of a valid index satisfies BucketOk. */
  lemma TableBucket<K, V>(bs: seq<Bucket<K, V>>, hash: (K, nat) -> nat, size: nat, m: map<K, V>, b: nat)
    requires size >= 2 && TableOk(bs, hash, size, m) && b < size
    ensures BucketOk(Items(bs[b]), hash, size, b, m)
  {
    forall k | k in m && Slot(hash, size, k) == b
      ensures HasKey(Items(bs[b]), k)
    {
    }
  }

  /**
   * Replacing one bucket keeps the table invariant when the new bucket is
   * valid on its own and the new map differs from the old one only at keys
   * of that bucket.
   */
  lemma {:induction false} ReplaceBucket<K, V>(bs: seq<Bucket<K, V>>, hash: (K, nat) -> nat, size: nat,
                                               m: map<K, V>, b: nat, nb: Bucket<K, V>, m': map<K, V>)
    requires size >= 2 && TableOk(bs, hash, size, m) && b < size
    requires BucketOk(Items(nb), hash, size, b, m')
    requires forall k :: k in m' && Slot(hash, size, k) != b ==> k in m && m'[k] == m[k]
    requires forall k :: k in m && Slot(hash, size, k) != b ==> k in m'
    ensures TableOk(bs[b := nb], hash, size, m')
  {
    var bs' := bs[b := nb];
    forall i, j | 0 <= i < |bs'| && 0 <= j < |Items(bs'[i])|
      ensures Slot(hash, size, Items(bs'[i])[j].key) == i
      ensures Items(bs'[i])[j].key in m' && m'[Items(bs'[i])[j].key] == Items(bs'[i])[j].value
    {
      if i != b {
        var k := Items(bs[i])[j].key;
        assert Items(bs'[i])[j] == Items(bs[i])[j];
        assert k in m && Slot(hash, size, k) == i;
      }
    }
    forall k | k in m'
      ensures HasKey(Items(bs'[Slot(hash, size, k)]), k)
    {
      if Slot(hash, size, k) != b {
        assert k in m;
      }
    }
  }

  /** Upserting `e` into a valid bucket of its key gives a valid bucket for the updated map. */
  lemma {:induction false} UpsertBucket<K, V>(es: seq<Entry<K, V>>, hash: (K, nat) -> nat, size: nat, b: nat,
                                              m: map<K, V>, e: Entry<K, V>)
    requires size >= 2 && BucketOk(es, hash, size, b, m) && Slot(hash, size, e.key) == b
    ensures BucketOk(Upsert(es, e), hash, size, b, m[e.key := e.value])
    ensures |Upsert(es, e)| == |es| + (if e.key in m then 0 else 1)
  {
    var us := Upsert(es, e);
    var m' := m[e.key := e.value];
    UpsertShape(es, e);
    assert HasKey(es, e.key) <==> e.key in m;
    forall j | 0 <= j < |us|
      ensures Slot(hash, size, us[j].key) == b && us[j].key in m' && m'[us[j].key] == us[j].value
    {
      if j < |es| && es[j].key != e.key {
        assert us[j] == es[j];
      }
    }
    forall k | k in m' && Slot(hash, size, k) == b
      ensures HasKey(us, k)
    {
      if k == e.key && !HasKey(es, e.key) {
        assert us[|es|].key == k;
      } else {
        assert us[FindKey(es, k)].key == k;
      }
    }
  }

  /**
   * ht_set_entry keeps the table invariant: upserting `e` into the bucket
   * its key hashes to yields a valid table for the map updated at that key.
   */
  lemma {:induction false} UpsertKeepsTable<K, V>(bs: seq<Bucket<K, V>>, hash: (K, nat) -> nat, size: nat,
                                                  m: map<K, V>, e: Entry<K, V>)
    requires size >= 2 && TableOk(bs, hash, size, m)
    ensures var b := Slot(hash, size, e.key);
            TableOk(bs[b := Chain(Upsert(Items(bs[b]), e))], hash, size, m[e.key := e.value])
    ensures var b := Slot(hash, size, e.key);
            |Upsert(Items(bs[b]), e)| == |Items(bs[b])| + (if e.key in m then 0 else 1)
  {
    var b := Slot(hash, size, e.key);
    TableBucket(bs, hash, size, m, b);
    UpsertBucket(Items(bs[b]), hash, size, b, m, e);
    ReplaceBucket(bs, hash, size, m, b, Chain(Upsert(Items(bs[b]), e)), m[e.key := e.value]);
  }

  /** Removing key `k` from a chain with unique keys drops exactly its one entry, if any. */
  lemma {:induction false} RemoveShape<K, V>(es: seq<Entry<K, V>>, k: K)
    requires UniqueKeys(es)
    ensures UniqueKeys(Remove(es, k))
    ensures |Remove(es, k)| == |es| - (if HasKey(es, k) then 1 else 0)
    ensures forall x :: 0 <= x < |Remove(es, k)| ==> Remove(es, k)[x].key != k
    ensures forall x :: 0 <= x < |Remove(es, k)| ==> Remove(es, k)[x] in es
    ensures forall k' :: k' != k && HasKey(es, k') ==> HasKey(Remove(es, k), k')
  {
    UniqueKeysDistinct(es);
    if HasKey(es, k) {
      var j := FindKey(es, k);
      RemoveAtMatch(es, k, j);
      var rs := es[..j] + es[j + 1..];
      assert forall x :: 0 <= x < |rs| ==> rs[x] == if x < j then es[x] else es[x + 1];
      forall k' | k' != k && HasKey(es, k')
        ensures HasKey(rs, k')
      {
        var x := FindKey(es, k');
        if x < j {
          assert rs[x].key == k';
        } else {
          assert rs[x - 1].key == k';
        }
      }
    } else {
      RemoveAbsent(es, k);
    }
    UniqueKeysDistinct(Remove(es, k));
  }

  /** Removing `k` from a valid bucket of its key gives a valid bucket for the map without `k`. */
  lemma {:induction false} RemoveBucket<K, V>(es: seq<Entry<K, V>>, hash: (K, nat) -> nat, size: nat, b: nat,
                                              m: map<K, V>, k: K)
    requires size >= 2 && BucketOk(es, hash, size, b, m) && Slot(hash, size, k) == b
    ensures BucketOk(Remove(es, k), hash, size, b, m - {k})
    ensures |Remove(es, k)| == |es| - (if k in m then 1 else 0)
  {
    assert HasKey(es, k) <==> k in m;
    RemoveShape(es, k);
    var rs := Remove(es, k);
    var m' := m - {k};
    forall j | 0 <= j < |rs|
      ensures Slot(hash, size, rs[j].key) == b && rs[j].key in m' && m'[rs[j].key] == rs[j].value
    {
      var x :| 0 <= x < |es| && es[x] == rs[j];
    }
  }

  /**
   * ht_del keeps the table invariant: removing `k` from the bucket it
   * hashes to yields a valid table for the map without `k`.
   */
  lemma {:induction false} RemoveKeepsTable<K, V>(bs: seq<Bucket<K, V>>, hash: (K, nat) -> nat, size: nat,
                                                  m: map<K, V>, k: K)
    requires size >= 2 && TableOk(bs, hash, size, m)
    ensures var b := Slot(hash, size, k);
            TableOk(bs[b := RemoveIn(bs[b], k)], hash, size, m - {k})
    ensures var b := Slot(hash, size, k);
            |Items(RemoveIn(bs[b], k))| == |Items(bs[b])| - (if k in m then 1 else 0)
  {
    var b := Slot(hash, size, k);
    TableBucket(bs, hash, size, m, b);
    RemoveBucket(Items(bs[b]), hash, size, b, m, k);
    assert Items(RemoveIn(bs[b], k)) == Remove(Items(bs[b]), k);
    ReplaceBucket(bs, hash, size, m, b, RemoveIn(bs[b], k), m - {k});
  }

  /** Every slot is either NULL or a chain with at least one entry. */
  ghost predicate NoEmptyChain<K, V>(bs: seq<Bucket<K, V>>)
  {
    forall i :: 0 <= i < |bs| ==> bs[i] != Chain([])
  }

  /** The entries of one chain, each paired with the bucket index `i`. */
  function Tag<K, V>(es: seq<Entry<K, V>>, i: nat): (vs: seq<(Entry<K, V>, nat)>)
    ensures |vs| == |es|
    ensures forall x :: 0 <= x < |vs| ==> vs[x] == (es[x], i)
  {
    seq(|es|, x requires 0 <= x < |es| => (es[x], i))
  }

  /** The calls ht_iter makes to its callback: (entry, bucket index), bucket by bucket. */
  function Visits<K, V>(bs: seq<Bucket<K, V>>): seq<(Entry<K, V>, nat)>
  {
    if bs == [] then [] else Visits(bs[..|bs| - 1]) + Tag(Items(bs[|bs| - 1]), |bs| - 1)
  }

  /**
   * ht_iter visits every entry of the index once, in the order of
   * Flatten, passing the index of the bucket it sits in; the bucket
   * indices never decrease.
   */
  lemma {:induction false} VisitsFlatten<K, V>(bs: seq<Bucket<K, V>>)
    ensures |Visits(bs)| == |Flatten(bs)|
    ensures forall x :: 0 <= x < |Visits(bs)| ==>
              && Visits(bs)[x].0 == Flatten(bs)[x]
              && Visits(bs)[x].1 < |bs|
              && Visits(bs)[x].0 in Items(bs[Visits(bs)[x].1])
    ensures forall x, y :: 0 <= x < y < |Visits(bs)| ==> Visits(bs)[x].1 <= Visits(bs)[y].1
  {
    if bs != [] {
      var front := bs[..|bs| - 1];
      VisitsFlatten(front);
      var vs, fs := Visits(bs), Flatten(bs);
      var last := Items(bs[|bs| - 1]);
      assert vs == Visits(front) + Tag(last, |bs| - 1);
      assert fs == Flatten(front) + last;
      forall x | 0 <= x < |vs|
        ensures vs[x].0 == fs[x] && vs[x].1 < |bs| && vs[x].0 in Items(bs[vs[x].1])
      {
        if x < |Visits(front)| {
          assert vs[x] == Visits(front)[x];
          assert front[vs[x].1] == bs[vs[x].1];
        }
      }
    }
  }

  /** Under the table invariant each visit passes the slot its entry's key hashes to. */
  lemma {:induction false} VisitsSlot<K, V>(bs: seq<Bucket<K, V>>, hash: (K, nat) -> nat, size: nat, m: map<K, V>)
    requires size >= 2 && TableOk(bs, hash, size, m)
    ensures forall x :: 0 <= x < |Visits(bs)| ==> Visits(bs)[x].1 == Slot(hash, size, Visits(bs)[x].0.key)
  {
    VisitsFlatten(bs);
    forall x | 0 <= x < |Visits(bs)|
      ensures Visits(bs)[x].1 == Slot(hash, size, Visits(bs)[x].0.key)
    {
      var v := Visits(bs)[x];
      var j :| 0 <= j < |Items(bs[v.1])| && Items(bs[v.1])[j] == v.0;
    }
  }

  /** Under unique keys, the map of a chain has one key per entry. */
  lemma {:induction false} MapOfCard<K, V>(es: seq<Entry<K, V>>)
    requires KeysDistinct(es)
    ensures |MapOf(es)| == |es|
  {
    if es != [] {
      var p := es[..|es| - 1];
      MapOfCard(p);
      MapOfFresh(p, es[|es| - 1].key);
    }
  }

  /**
   * A key no entry of its bucket carries is not in the map, and removing
   * it changes neither the map nor the index.
   */
  lemma {:induction false} AbsentKey<K, V>(bs: seq<Bucket<K, V>>, hash: (K, nat) -> nat, size: nat, m: map<K, V>, k: K)
    requires size >= 2 && TableOk(bs, hash, size, m)
    requires forall x :: 0 <= x < |Items(bs[Slot(hash, size, k)])| ==> Items(bs[Slot(hash, size, k)])[x].key != k
    ensures k !in m && m - {k} == m
    ensures var b := Slot(hash, size, k); bs[b := RemoveIn(bs[b], k)] == bs
  {
    var b := Slot(hash, size, k);
    RemoveAbsent(Items(bs[b]), k);
    assert RemoveIn(bs[b], k) == bs[b];
  }

  /**
   * The update step of ht_set_entry keeps the table invariant: the walk
   * of the bucket of `e` stopped at `j`, which is a match exactly when
   * the key is in the map; the value is replaced there, or `e` appended.
   */
  lemma {:induction false} SetKeepsTable<K, V>(bs: seq<Bucket<K, V>>, hash: (K, nat) -> nat, size: nat,
                                               m: map<K, V>, e: Entry<K, V>, j: nat)
    requires size >= 2 && TableOk(bs, hash, size, m)
    requires j <= |Items(bs[Slot(hash, size, e.key)])|
    requires j < |Items(bs[Slot(hash, size, e.key)])| ==> Items(bs[Slot(hash, size, e.key)])[j].key == e.key
    requires forall x :: 0 <= x < j ==> Items(bs[Slot(hash, size, e.key)])[x].key != e.key
    ensures var b := Slot(hash, size, e.key);
            var es := Items(bs[b]);
            && (j < |es| <==> e.key in m)
            && (j < |es| ==> Upsert(es, e) == es[j := es[j].(value := e.value)])
            && (j == |es| ==> Upsert(es, e) == es + [e])
            && TableOk(bs[b := Chain(Upsert(es, e))], hash, size, m[e.key := e.value])
            && |m[e.key := e.value]| == |m| + (if e.key in m then 0 else 1)
  {
    var b := Slot(hash, size, e.key);
    var es := Items(bs[b]);
    UpsertKeepsTable(bs, hash, size, m, e);
    if j < |es| {
      UpsertAtMatch(es, e, j);
      assert es[j].key in m;
    } else {
      UpsertAppends(es, e);
      assert !HasKey(es, e.key);
    }
  }

  /**
   * The removal step of ht_del keeps the table invariant: a key its
   * bucket carries is in the map, and removing it leaves one entry fewer.
   */
  lemma {:induction false} UnlinkKeepsTable<K, V>(bs: seq<Bucket<K, V>>, hash: (K, nat) -> nat, size: nat,
                                                  m: map<K, V>, k: K, j: nat)
    requires size >= 2 && TableOk(bs, hash, size, m)
    requires j < |Items(bs[Slot(hash, size, k)])| && Items(bs[Slot(hash, size, k)])[j].key == k
    ensures var b := Slot(hash, size, k);
            && k in m
            && TableOk(bs[b := RemoveIn(bs[b], k)], hash, size, m - {k})
            && |m - {k}| + 1 == |m|
  {
    var b := Slot(hash, size, k);
    assert Items(bs[b])[j].key in m;
    RemoveKeepsTable(bs, hash, size, m, k);
    assert (m - {k}).Keys == m.Keys - {k};
  }

  /**
   * The keys of a valid index, listed in Flatten order, are those of its
   * map, each once.
   */
  lemma {:induction false} KeysOfTable<K, V>(bs: seq<Bucket<K, V>>, hash: (K, nat) -> nat, size: nat, m: map<K, V>,
                                             keys: seq<K>)
    requires TableOk(bs, hash, size, m)
    requires |keys| == |Flatten(bs)| && forall x :: 0 <= x < |keys| ==> keys[x] == Flatten(bs)[x].key
    ensures forall x, y :: 0 <= x < y < |keys| ==> keys[x] != keys[y]
    ensures forall k :: k in keys <==> k in m
  {
    TableFlatten(bs, hash, size, m);
    forall k | k in m
      ensures k in keys
    {
      var x := FlattenHasKey(bs, Slot(hash, size, k), k);
      assert keys[x] == k;
    }
  }

  /** A valid index holds one entry per key of its map. */
  lemma {:induction false} TableCard<K, V>(bs: seq<Bucket<K, V>>, hash: (K, nat) -> nat, size: nat, m: map<K, V>)
    requires TableOk(bs, hash, size, m)
    ensures |m| == |Flatten(bs)|
  {
    TableFlatten(bs, hash, size, m);
    MapOfCard(Flatten(bs));
  }


  /** ht_set_entry never leaves an empty chain behind. */
  lemma {:induction false} NoEmptyChainUpsert<K, V>(bs: seq<Bucket<K, V>>, b: nat, e: Entry<K, V>)
    requires NoEmptyChain(bs) && b < |bs|
    ensures NoEmptyChain(bs[b := Chain(Upsert(Items(bs[b]), e))])
  {
    assert Upsert(Items(bs[b]), e) != [];
  }

  /**
   * One step of the rebuild loop of ht_rehash: after the entries `p` and
   * the first `j` of `es`, entry `j` carries a fresh key, and inserting it
   * extends the map by its pair.
   */
  lemma {:induction false} ChainStep<K, V>(p: seq<Entry<K, V>>, es: seq<Entry<K, V>>, j: nat)
    requires KeysDistinct(p + es) && j < |es|
    ensures es[j].key !in MapOf(p + es[..j])
    ensures MapOf(p + es[..j + 1]) == MapOf(p + es[..j])[es[j].key := es[j].value]
  {
    assert (p + es)[..|p| + j] == p + es[..j] && (p + es)[|p| + j] == es[j];
    UniqueFresh(p + es, |p| + j);
    assert p + es[..j + 1] == (p + es[..j]) + [es[j]];
    MapOfSnoc(p + es[..j], es[j]);
  }

  /** A valid index holds no entry for the empty map. */
  lemma {:induction false} EntryInMap<K, V>(bs: seq<Bucket<K, V>>, hash: (K, nat) -> nat, size: nat, m: map<K, V>, i: nat)
    requires TableOk(bs, hash, size, m) && i < |bs| && Items(bs[i]) != []
    ensures size >= 2 && Items(bs[i])[0].key in m
  {
  }

  /** An index of NULL slots is a valid index of the empty map, with no entries. */
  lemma {:induction false} EmptyIndex<K, V>(bs: seq<Bucket<K, V>>, hash: (K, nat) -> nat, size: nat)
    requires |bs| == size && forall i :: 0 <= i < |bs| ==> bs[i] == NoList
    ensures TableOk(bs, hash, size, map[]) && Flatten(bs) == [] && NoEmptyChain(bs)
  {
    FlattenEmpty(bs);
  }

  /** ht_iter, one slot further: the calls for slot `i` follow those for the slots before it. */
  lemma {:induction false} VisitsStep<K, V>(bs: seq<Bucket<K, V>>, i: nat)
    requires i < |bs|
    ensures Visits(bs[..i + 1]) == Visits(bs[..i]) + Tag(Items(bs[i]), i)
  {
    assert bs[..i + 1][..i] == bs[..i];
  }


  /**
   * The chain walk of ht_set_entry, ht_get and ht_del: the position of the
   * first entry whose key compares equal to `k`, or `|es|` when none does.
   */
  method Walk<K(==), V>(es: seq<Entry<K, V>>, k: K) returns (j: nat)
    ensures j <= |es|
    ensures j < |es| ==> es[j].key == k
    ensures forall m :: 0 <= m < j ==> es[m].key != k
  {
    j := 0;
    while j < |es| && es[j].key != k
      invariant j <= |es|
      invariant forall m :: 0 <= m < j ==> es[m].key != k
    {
      j := j + 1;
    }
  }

  /**
   * hash_table (utils/hash_table.h): an index of `indexSize` slots, each
   * NULL or a list of entries, and the count `entrySize`.  `Map` is the
   * mapping the table stands for.
   */
  class Table<K(==), V>
  {
    var index: array?<Bucket<K, V>>
    var indexSize: nat
    var entrySize: nat
    const keyHash: (K, nat) -> nat
    ghost var Map: map<K, V>

    /**
     * The table invariant: an uninitialised table (NULL index) stands for
     * the empty map; otherwise the index satisfies TableOk and the count
     * is at least the number of stored entries.
     */
    ghost predicate Valid()
      reads this, index
    {
      && (index == null ==> Map == map[])
      && (index != null ==> TableOk(index[..], keyHash, indexSize, Map))
      && |Map| <= entrySize
    }

    /** `entrySize` is exactly the number of stored entries. */
    ghost predicate Counted()
      reads this, index
    {
      entrySize == |Map|
    }

    /**
     * ht_init: `size` NULL slots and a zero count.  When the allocation of
     * the index fails (`allocOk` false) the index stays NULL.
     */
    constructor (size: nat, keyHash: (K, nat) -> nat, allocOk: bool)
      ensures this.keyHash == keyHash && indexSize == size && entrySize == 0 && Map == map[]
      ensures allocOk ==> index != null && fresh(index) && index.Length == size
      ensures allocOk ==> forall i :: 0 <= i < size ==> index[i] == NoList
      ensures !allocOk ==> index == null
      ensures Valid() && Counted()
    {
      this.keyHash := keyHash;
      indexSize := size;
      entrySize := 0;
      Map := map[];
      if allocOk {
        var a := new Bucket<K, V>[size](_ => NoList);
        FlattenEmpty(a[..]);
        index := a;
      } else {
        index := null;
      }
    }

    /**
     * ht_set_entry: a NULL index is refused with -1.  Otherwise the entry
     * with the key of `e` takes its value, or `e` is appended to its
     * bucket and the count grows by one.  A bucket whose list exists but
     * is empty is dereferenced through its NULL head, so it is excluded.
     */
    method SetEntry(e: Entry<K, V>) returns (r: int)
      requires Valid()
      requires index != null ==> indexSize >= 2 && index[Slot(keyHash, indexSize, e.key)] != Chain([])
      modifies this, index
      ensures index == old(index) && indexSize == old(indexSize) && Valid()
      ensures old(index) == null ==> r == -1 && Map == old(Map) && entrySize == old(entrySize)
      ensures old(index) != null ==>
                && r == 0
                && Map == old(Map)[e.key := e.value]
                && entrySize == old(entrySize) + (if e.key in old(Map) then 0 else 1)
      ensures old(index) != null ==>
                var b := Slot(keyHash, indexSize, e.key);
                index[..] == old(index[..])[b := Chain(Upsert(Items(old(index[b])), e))]
      ensures old(Counted()) ==> Counted()
    {
      if index == null {
        return -1;
      }
      var b := Slot(keyHash, indexSize, e.key);
      var es := Items(index[b]);
      var j := Walk(es, e.key);
      SetKeepsTable(index[..], keyHash, indexSize, Map, e, j);
      if j < |es| {
        Commit(b, Chain(es[j := es[j].(value := e.value)]), Map[e.key := e.value], entrySize);
      } else {
        Commit(b, Chain(es + [e]), Map[e.key := e.value], entrySize + 1);
      }
      r := 0;
    }

    /**
     * Overwrites slot `b` of the index and sets the map and the count, in
     * one step, and changes nothing else.
     */
    method Commit(b: nat, nb: Bucket<K, V>, ghost m: map<K, V>, n: nat)
      requires index != null && b < index.Length
      modifies this, index
      ensures index == old(index) && indexSize == old(indexSize)
      ensures index[..] == old(index[..])[b := nb] && Map == m && entrySize == n
    {
      index[b] := nb;
      Map, entrySize := m, n;
    }

    /**
     * ht_init_entry: an entry holding copies of `key` and `value`, which
     * ht_destroy frees together with the entry.
     */
    static function InitEntry(key: K, value: V): (e: Entry<K, V>)
      ensures e.key == key && e.value == value && e.mustDestroy
    {
      Entry(key, value, true)
    }

    /** ht_set: stores `key` and `value` themselves, so ht_destroy frees only the entry. */
    method Set(key: K, value: V) returns (r: int)
      requires Valid()
      requires index != null ==> indexSize >= 2 && index[Slot(keyHash, indexSize, key)] != Chain([])
      modifies this, index
      ensures index == old(index) && indexSize == old(indexSize) && Valid()
      ensures old(index) == null ==> r == -1 && Map == old(Map) && entrySize == old(entrySize)
      ensures old(index) != null ==>
                && r == 0
                && Map == old(Map)[key := value]
                && entrySize == old(entrySize) + (if key in old(Map) then 0 else 1)
      ensures old(index) != null ==>
                var b := Slot(keyHash, indexSize, key);
                index[..] == old(index[..])[b := Chain(Upsert(Items(old(index[b])), Entry(key, value, false)))]
      ensures old(Counted()) ==> Counted()
    {
      r := SetEntry(Entry(key, value, false));
    }

    /**
     * ht_init_entry then ht_set_entry, as on_arp_packet_captured stores a
     * pair: a new key's bucket ends with the entry, which owns its key and
     * value.  For a key already present only the stored entry's value
     * changes; it keeps its own `must_destroy`, and the new entry is not
     * stored.
     */
    method SetInitEntry(key: K, value: V) returns (r: int)
      requires Valid()
      requires index != null ==> indexSize >= 2 && index[Slot(keyHash, indexSize, key)] != Chain([])
      modifies this, index
      ensures index == old(index) && Valid()
      ensures old(index) == null ==> r == -1 && Map == old(Map)
      ensures old(index) != null ==> r == 0 && Map == old(Map)[key := value]
      ensures old(index) != null && key !in old(Map) ==>
                var b := Slot(keyHash, indexSize, key);
                Items(index[b]) == Items(old(index[b])) + [Entry(key, value, true)]
      ensures old(index) != null && key in old(Map) ==>
                var b := Slot(keyHash, indexSize, key);
                && |Items(index[b])| == |Items(old(index[b]))|
                && forall x :: 0 <= x < |Items(index[b])| ==>
                     Items(index[b])[x].mustDestroy == Items(old(index[b]))[x].mustDestroy
    {
      if index == null {
        r := SetEntry(InitEntry(key, value));
        return;
      }
      var b := Slot(keyHash, indexSize, key);
      ghost var es := Items(index[b]);
      ghost var present := key in Map;
      TableBucket(index[..], keyHash, indexSize, Map, b);
      UpsertOwned(es, InitEntry(key, value), present);
      r := SetEntry(InitEntry(key, value));
      assert index[b] == Chain(Upsert(es, InitEntry(key, value)));
    }

    /**
     * ht_get: the value stored under `key`, or none when the index is
     * NULL, the bucket is NULL or empty, or no entry has that key.
     */
    method Get(key: K) returns (r: Option<V>)
      requires Valid()
      requires index != null ==> indexSize >= 2
      ensures r == if key in Map then Some(Map[key]) else None
    {
      if index == null {
        return None;
      }
      var b := Slot(keyHash, indexSize, key);
      var es := Items(index[b]);
      var j := Walk(es, key);
      if j < |es| {
        return Some(es[j].value);
      }
      r := None;
    }

    /**
     * ht_del: removes the entry with `key` from its bucket and lowers the
     * count by one, answering 0; -1 when the index is NULL or there is no
     * such entry, and then nothing changes.
     */
    method Del(key: K) returns (r: int)
      requires Valid()
      requires index != null ==> indexSize >= 2
      modifies this, index
      ensures index == old(index) && indexSize == old(indexSize) && Valid()
      ensures r == if key in old(Map) then 0 else -1
      ensures Map == old(Map) - {key}
      ensures entrySize == old(entrySize) - (if key in old(Map) then 1 else 0)
      ensures old(index) != null ==>
                var b := Slot(keyHash, indexSize, key);
                index[..] == old(index[..])[b := RemoveIn(old(index[b]), key)]
      ensures old(Counted()) ==> Counted()
    {
      if index == null {
        return -1;
      }
      var b := Slot(keyHash, indexSize, key);
      var es := Items(index[b]);
      var j := 0;
      if es != [] {
        j := Walk(es, key);
      }
      if j < |es| {
        Unlink(b, j, key);
        return 0;
      }
      AbsentKey(index[..], keyHash, indexSize, Map, key);
      r := -1;
    }

    /**
     * The removal step of ht_del (list_del_at at the position the walk
     * stopped at): entry `j` of bucket `b`, the first with `key`, is gone.
     */
    method Unlink(b: nat, j: nat, key: K)
      requires Valid() && index != null && indexSize >= 2 && b == Slot(keyHash, indexSize, key)
      requires j < |Items(index[b])| && Items(index[b])[j].key == key
      modifies this, index
      ensures index == old(index) && indexSize == old(indexSize) && Valid()
      ensures key in old(Map) && Map == old(Map) - {key} && entrySize == old(entrySize) - 1
      ensures index[..] == old(index[..])[b := RemoveIn(old(index[b]), key)]
      ensures old(Counted()) ==> Counted()
    {
      UnlinkKeepsTable(index[..], keyHash, indexSize, Map, key, j);
      Commit(b, RemoveIn(index[b], key), Map - {key}, entrySize - 1);
    }

    /**
     * ht_iter: -1 for a NULL index; otherwise 0, after calling back once
     * per entry, slot by slot and along each chain, with the entry and the
     * index of its slot.  The calls are returned in order.
     */
    method Iter() returns (r: int, visits: seq<(Entry<K, V>, nat)>)
      requires index != null ==> index.Length == indexSize
      ensures index == null ==> r == -1 && visits == []
      ensures index != null ==> r == 0 && visits == Visits(index[..])
    {
      if index == null {
        return -1, [];
      }
      visits := [];
      for i := 0 to indexSize
        invariant visits == Visits(index[..i])
      {
        var es := Items(index[i]);
        var j := 0;
        while j < |es|
          invariant j <= |es|
          invariant visits == Visits(index[..i]) + Tag(es[..j], i)
        {
          assert Tag(es[..j + 1], i) == Tag(es[..j], i) + [(es[j], i)];
          visits := visits + [(es[j], i)];
          j := j + 1;
        }
        assert es[..j] == es;
        VisitsStep(index[..], i);
      }
      assert index[..indexSize] == index[..];
      r := 0;
    }

    /**
     * ht_keys: the keys in the order ht_iter visits their entries, and
     * their number; `(size_t)-1` for a NULL index.  The keys are those of
     * the map, each once.
     */
    method Keys() returns (n: nat, keys: seq<K>)
      requires Valid()
      ensures index == null ==> n == SizeMax && keys == []
      ensures index != null ==> n == |keys| == |Flatten(index[..])|
      ensures index != null ==> forall x :: 0 <= x < |keys| ==> keys[x] == Flatten(index[..])[x].key
      ensures forall x, y :: 0 <= x < y < |keys| ==> keys[x] != keys[y]
      ensures forall k :: k in keys <==> k in Map
    {
      var r, visits := Iter();
      if r != 0 {
        return SizeMax, [];
      }
      keys := seq(|visits|, x requires 0 <= x < |visits| => visits[x].0.key);
      n := |keys|;
      VisitsFlatten(index[..]);
      KeysOfTable(index[..], keyHash, indexSize, Map, keys);
    }

    /**
     * ht_values: the values in the order ht_iter visits their entries,
     * and their number; `(size_t)-1` for a NULL index.  Each is the value
     * the map gives the key of its entry.
     */
    method Values() returns (n: nat, values: seq<V>)
      requires Valid()
      ensures index == null ==> n == SizeMax && values == []
      ensures index != null ==> n == |values| == |Flatten(index[..])|
      ensures index != null ==> forall x :: 0 <= x < |values| ==>
                && values[x] == Flatten(index[..])[x].value
                && Flatten(index[..])[x].key in Map
                && Map[Flatten(index[..])[x].key] == values[x]
    {
      var r, visits := Iter();
      if r != 0 {
        return SizeMax, [];
      }
      values := seq(|visits|, x requires 0 <= x < |visits| => visits[x].0.value);
      n := |values|;
      VisitsFlatten(index[..]);
      TableFlatten(index[..], keyHash, indexSize, Map);
    }

    /** ht_size: the count; when it is exact, the number of keys of the map. */
    method Size() returns (n: nat)
      requires Valid()
      ensures n == entrySize
      ensures Counted() ==> n == |Map|
      ensures Counted() && index != null ==> n == |Flatten(index[..])|
    {
      n := entrySize;
      if index != null {
        TableCard(index[..], keyHash, indexSize, Map);
      }
    }

    /**
     * ht_destroy: -1 for a NULL index; otherwise the entries are released,
     * the index becomes NULL and the count 0.
     */
    method Destroy() returns (r: int)
      modifies this
      ensures indexSize == old(indexSize) && index == null && Map == map[] && Valid()
      ensures old(index) == null ==> r == -1 && entrySize == old(entrySize)
      ensures old(index) != null ==> r == 0 && entrySize == 0 && Counted()
    {
      if index == null {
        Map := map[];
        return -1;
      }
      index, entrySize, Map := null, 0, map[];
      r := 0;
    }

    /**
     * The inner loop of the rebuild in ht_rehash: every entry of the chain
     * `es`, in order, goes through ht_set_entry.  `p` are the entries
     * reinserted before; no key repeats, so each insertion adds one entry.
     */
    method ReinsertChain(es: seq<Entry<K, V>>, ghost p: seq<Entry<K, V>>)
      requires Valid() && index != null && NoEmptyChain(index[..])
      requires Map == MapOf(p) && KeysDistinct(p + es)
      requires indexSize >= 2 || es == []
      modifies this, index
      ensures index == old(index) && indexSize == old(indexSize) && Valid() && NoEmptyChain(index[..])
      ensures Map == MapOf(p + es) && entrySize == old(entrySize) + |es|
      ensures old(Counted()) ==> Counted()
    {
      assert p + es[..0] == p;
      for j := 0 to |es|
        invariant index == old(index) && indexSize == old(indexSize) && Valid()
        invariant NoEmptyChain(index[..])
        invariant Map == MapOf(p + es[..j]) && entrySize == old(entrySize) + j
        invariant old(Counted()) ==> Counted()
      {
        ChainStep(p, es, j);
        ghost var bs := index[..];
        var _ := SetEntry(es[j]);
        NoEmptyChainUpsert(bs, Slot(keyHash, indexSize, es[j].key), es[j]);
      }
      assert es[..|es|] == es;
    }

    /**
     * The rebuild loop of ht_rehash: the entries of `src`, slot by slot,
     * go into this table's index.  `src` is a valid index of `srcSize`
     * slots for `srcMap`.
     */
    method Reinsert(src: array<Bucket<K, V>>, srcSize: nat, ghost srcMap: map<K, V>)
      requires Valid() && index != null && src != index && Map == map[]
      requires TableOk(src[..], keyHash, srcSize, srcMap)
      requires indexSize >= 2 || srcMap == map[]
      requires NoEmptyChain(index[..])
      modifies this, index
      ensures index == old(index) && indexSize == old(indexSize) && Valid()
      ensures Map == srcMap
      ensures entrySize == old(entrySize) + |srcMap|
      ensures old(Counted()) ==> Counted()
    {
      ghost var s := src[..];
      TableFlatten(s, keyHash, srcSize, srcMap);
      for i := 0 to srcSize
        invariant index == old(index) && indexSize == old(indexSize) && Valid()
        invariant NoEmptyChain(index[..])
        invariant Map == MapOf(Flatten(s[..i]))
        invariant entrySize == old(entrySize) + |Flatten(s[..i])|
        invariant old(Counted()) ==> Counted()
      {
        var es := Items(src[i]);
        UniquePrefix(s, i);
        if es != [] {
          EntryInMap(s, keyHash, srcSize, srcMap, i);
        }
        ReinsertChain(es, Flatten(s[..i]));
        FlattenStep(s, i);
      }
      assert s[..srcSize] == s;
      TableCard(s, keyHash, srcSize, srcMap);
    }

    /**
     * ht_rehash as written: the old index is replaced by `newSize` NULL
     * slots and every entry is set again under the new size, but the count
     * is not reset first, so every reinserted entry is counted twice.  When
     * the allocation fails the table is left with a NULL index.
     */
    method Rehash(newSize: nat, allocOk: bool) returns (r: int)
      requires Valid()
      requires index != null || indexSize == 0
      requires newSize >= 2 || Map == map[]
      modifies this
      ensures Valid()
      ensures !allocOk ==> r == -1 && index == null && indexSize == old(indexSize)
      ensures !allocOk ==> Map == map[] && entrySize == old(entrySize)
      ensures allocOk ==> r == 0 && index != null && fresh(index) && indexSize == newSize && Map == old(Map)
      ensures allocOk ==> entrySize == old(entrySize) + old(|Map|)
      ensures allocOk && old(Counted()) ==> entrySize == 2 * old(entrySize)
    {
      var oldIndex, oldSize := index, indexSize;
      ghost var m := Map;
      if !allocOk {
        index := null;
        Map := map[];
        return -1;
      }
      var a := new Bucket<K, V>[newSize](_ => NoList);
      EmptyIndex(a[..], keyHash, newSize);
      index, indexSize, Map := a, newSize, map[];
      if oldIndex != null {
        Reinsert(oldIndex, oldSize, m);
      }
      r := 0;
    }

    /**
     * ht_rehash with the count reset to 0 before the rebuild: the count
     * stays exact.
     */
    method RehashRecounted(newSize: nat, allocOk: bool) returns (r: int)
      requires Valid()
      requires index != null || indexSize == 0
      requires newSize >= 2 || Map == map[]
      modifies this
      ensures Valid()
      ensures !allocOk ==> r == -1 && index == null && indexSize == old(indexSize) && Map == map[]
      ensures allocOk ==> r == 0 && index != null && fresh(index) && indexSize == newSize && Map == old(Map)
      ensures allocOk ==> Counted()
    {
      var oldIndex, oldSize := index, indexSize;
      ghost var m := Map;
      if !allocOk {
        index := null;
        Map := map[];
        return -1;
      }
      var a := new Bucket<K, V>[newSize](_ => NoList);
      EmptyIndex(a[..], keyHash, newSize);
      index, indexSize, Map, entrySize := a, newSize, map[], 0;
      if oldIndex != null {
        Reinsert(oldIndex, oldSize, m);
      }
      r := 0;
    }
  }

  /** ht_destroy on a table already destroyed answers -1. */
  method DestroyTwice<K(==), V>(keyHash: (K, nat) -> nat) returns (first: int, second: int)
    ensures first == 0 && second == -1
  {
    var t := new Table<K, V>(16, keyHash, true);
    first := t.Destroy();
    second := t.Destroy();
  }
}
