/**
 * `BitmapIndex`: a map from string keys to bitsets, updated in place by
 * `insert` and `batch_insert`, and read by `get`, `list`, `list_keys`,
 * `get_as_binary`, `and_operation` and `or_operation`.
 *
 * The module first gives the pure effect of the two updates on the map
 * (`InsertInto`, `BatchInto`) with their properties, then the class whose
 * methods perform them in place and the scans that read it.
 */
module Index {
  import opened Words
  import opened Bitset
  import opened Listing
  import opened Rendering

  /** The index's state: key -> word vector (`HashMap<String, Vec<u32>>`). */
  type Store = map<string, seq<bv32>>

  /**
   * Why an operation aborts. Both are panics in the source: `unwrap` on a
   * missing key, and indexing a word vector past its end.
   */
  datatype Failure = KeyNotFound | IndexOutOfBounds

  datatype Result<T> = Ok(value: T) | Err(error: Failure)

  /** `usize::max`: the larger of two lengths. */
  function Max(a: nat, b: nat): (r: nat)
    ensures r >= a && r >= b
    ensures r == a || r == b
  {
    if a >= b then a else b
  }

  /** The words under `key`, or none for an absent key (`get(key).unwrap_or(&Vec::new())`). */
  function Entry(m: Store, key: string): seq<bv32> {
    if key in m then m[key] else []
  }

  /** The ids stored under `key`; none for an absent key. */
  ghost function IdsOf(m: Store, key: string): set<nat> {
    if key in m then Ids(m[key]) else {}
  }

  /** Every stored bitset has the shape `insert` gives it. */
  ghost predicate ValidStore(m: Store) {
    forall key :: key in m ==> WellFormed(m[key])
  }

  /** The store after `insert(key, id)`: the key's words with the id inserted, created if absent. */
  function InsertInto(m: Store, key: string, id: U32): Store {
    m[key := Inserted(Entry(m, key), id)]
  }

  /** The store after `batch_insert(key, ids)`: `insert(key, id)` for each id, in order. */
  function BatchInto(m: Store, key: string, ids: seq<U32>): Store {
    if ids == [] then m
    else InsertInto(BatchInto(m, key, ids[..|ids| - 1]), key, ids[|ids| - 1])
  }

  /** `insert` adds the id under its key and changes no other key's ids. */
  lemma InsertIntoIds(m: Store, key: string, id: U32)
    ensures IdsOf(InsertInto(m, key, id), key) == IdsOf(m, key) + {id}
    ensures forall k :: k != key ==> IdsOf(InsertInto(m, key, id), k) == IdsOf(m, k)
  {
    InsertedIds(Entry(m, key), id);
  }

  /** `insert` keeps every stored bitset well-formed. */
  lemma InsertIntoValid(m: Store, key: string, id: U32)
    requires ValidStore(m)
    ensures ValidStore(InsertInto(m, key, id))
  {
    InsertedWellFormed(Entry(m, key), id);
  }

  /** After `insert(key, id)`, `get(key, id)` holds; an id already there changes nothing. */
  lemma InsertIntoIdempotent(m: Store, key: string, id: U32)
    ensures id in IdsOf(InsertInto(m, key, id), key)
    ensures InsertInto(InsertInto(m, key, id), key, id) == InsertInto(m, key, id)
  {
    InsertIntoIds(m, key, id);
    InsertedIdempotent(Entry(m, key), id);
  }

  /** One more id of the batch is one more `insert`. */
  lemma BatchIntoPrefix(m: Store, key: string, ids: seq<U32>, k: nat)
    requires k < |ids|
    ensures BatchInto(m, key, ids[..k + 1]) == InsertInto(BatchInto(m, key, ids[..k]), key, ids[k])
  {
    assert ids[..k + 1][..k] == ids[..k];
  }

  /**
   * A non-empty batch replaces the key's words by the batch inserted into
   * them; an empty batch changes nothing, not even creating the key.
   */
  lemma {:induction false} BatchIntoEntry(m: Store, key: string, ids: seq<U32>)
    ensures BatchInto(m, key, ids) ==
            if ids == [] then m else m[key := InsertedAll(Entry(m, key), ids)]
  {
    if ids != [] {
      var front, x := ids[..|ids| - 1], ids[|ids| - 1];
      var e := Entry(m, key);
      var done := BatchInto(m, key, front);
      assert BatchInto(m, key, ids) == InsertInto(done, key, x);
      assert InsertedAll(e, ids) == Inserted(InsertedAll(e, front), x);
      BatchIntoEntry(m, key, front);
      assert Entry(done, key) == InsertedAll(e, front);
      if front != [] {
        UpdateTwice(m, key, InsertedAll(e, front), Inserted(InsertedAll(e, front), x));
      }
    }
  }

  lemma UpdateTwice(m: Store, key: string, a: seq<bv32>, b: seq<bv32>)
    ensures m[key := a][key := b] == m[key := b]
  {}

  /** A batch adds exactly its ids under the key and changes no other key's ids. */
  lemma BatchIntoIds(m: Store, key: string, ids: seq<U32>)
    ensures IdsOf(BatchInto(m, key, ids), key) == IdsOf(m, key) + (set x: nat | x in ids)
    ensures forall k :: k != key ==> IdsOf(BatchInto(m, key, ids), k) == IdsOf(m, k)
  {
    BatchIntoEntry(m, key, ids);
    InsertedAllIds(Entry(m, key), ids);
  }

  /** A batch keeps every stored bitset well-formed. */
  lemma BatchIntoValid(m: Store, key: string, ids: seq<U32>)
    requires ValidStore(m)
    ensures ValidStore(BatchInto(m, key, ids))
  {
    BatchIntoEntry(m, key, ids);
    InsertedAllWellFormed(Entry(m, key), ids);
  }

  /**
   * The store after a batch depends only on the set of ids in it: reordering
   * the batch or repeating ids gives the same store, and repeating the whole
   * batch changes nothing.
   */
  lemma BatchIntoOrderFree(m: Store, key: string, xs: seq<U32>, ys: seq<U32>)
    requires ValidStore(m)
    requires forall x :: x in xs <==> x in ys
    ensures BatchInto(m, key, xs) == BatchInto(m, key, ys)
    ensures BatchInto(m, key, xs + xs) == BatchInto(m, key, xs)
  {
    BatchIntoEntry(m, key, xs);
    BatchIntoEntry(m, key, ys);
    BatchIntoEntry(m, key, xs + xs);
    if xs != [] {
      assert xs[0] in ys;
    }
    if ys != [] {
      assert ys[0] in xs;
    }
    InsertedAllOrderFree(Entry(m, key), xs, ys);
    InsertedAllOrderFree(Entry(m, key), xs + xs, xs);
  }

  class BitmapIndex {
    var index: Store

    ghost predicate Valid()
      reads this
    {
      ValidStore(index)
    }

    /** The ids stored under `key`. */
    ghost function Contents(key: string): set<nat>
      reads this
    {
      IdsOf(index, key)
    }

    /** `new`: the empty index. */
    constructor ()
      ensures Valid()
      ensures index == map[]
    {
      index := map[];
    }

    /**
     * `list_keys`: a copy of the raw words stored under `key`, or no words
     * for an absent key; in a valid index only an absent key has no words.
     */
    function ListKeys(key: string): (r: seq<bv32>)
      reads this
      ensures key in index ==> r == index[key]
      ensures key !in index ==> r == []
      ensures Valid() ==> (r == [] <==> key !in index)
    {
      Entry(index, key)
    }

    /**
     * `insert`: create an empty entry for an absent key, grow it with zero
     * words to exactly `id / 32 + 1` words when too short, and set bit
     * `id % 32` of word `id / 32`. No other key is touched.
     */
    method Insert(key: string, id: U32)
      requires Valid()
      modifies this
      ensures Valid()
      ensures index == InsertInto(old(index), key, id)
      ensures Contents(key) == old(Contents(key)) + {id}
      ensures forall k :: k != key ==> Contents(k) == old(Contents(k))
    {
      ghost var before := index;
      var entry := if key in index then index[key] else [];
      if id / 32 >= |entry| {
        entry := Resize(entry, id / 32 + 1);
      }
      assert entry == Grown(Entry(before, key), id);
      entry := entry[id / 32 := entry[id / 32] | Mask(PosOf(id))];
      assert entry == Inserted(Entry(before, key), id);
      index := index[key := entry];
      assert Valid() by {
        InsertIntoValid(before, key, id);
      }
      InsertIntoIds(before, key, id);
    }

    /**
     * `get`: whether `id` is stored under `key`. False for an absent key and
     * for an id past the end of the words; the map is only read.
     */
    function Get(key: string, id: nat): (r: bool)
      reads this
      ensures r <==> id in Contents(key)
    {
      if key in index then
        var entry := index[key];
        var wordIndex := id / 32;
        InIds(entry, id);
        if wordIndex < |entry| then entry[wordIndex] & Mask(PosOf(id)) != 0 else false
      else
        false
    }

    /**
     * `list`: the ids stored under `key` in increasing order, scanning the
     * words in order and the bits of each word from bit 0 with a shifting
     * mask. Empty for an absent key. Every id fits in a `u32`, so
     * `i as u32 * 32 + mask.trailing_zeros()` does not overflow.
     */
    method List(key: string) returns (r: seq<nat>)
      requires Valid()
      ensures r == Ascending(Contents(key), 32 * |ListKeys(key)|)
      ensures StrictlyIncreasing(r)
      ensures forall x :: x in r <==> x in Contents(key)
      ensures forall x :: x in r ==> x < 0x1_0000_0000
      ensures key !in index ==> r == []
    {
      r := [];
      if key in index {
        var entry := index[key];
        ghost var ids := Ids(entry);
        for i := 0 to |entry|
          invariant r == Ascending(ids, 32 * i)
        {
          var word := entry[i];
          var mask: bv32 := 1;
          for t := 0 to 32  // `for _ in 0..32`
            invariant mask == if t == 32 then 0 else Mask(PosOf(t))
            invariant r == Ascending(ids, 32 * i + t)
          {
            ListStep(entry, i, t, mask);
            if word & mask != 0 {
              r := r + [i * 32 + TrailingZeros(mask) as int];
            }
            mask := mask << 1;
          }
        }
        IdsBelow(entry);
        WellFormedIdsFit(entry);
      }
      AscendingSpec(Contents(key), 32 * |ListKeys(key)|);
    }

    /**
     * `batch_insert`: `insert(key, id)` for each id in order. An empty batch
     * leaves the index as it was (it does not create the key).
     */
    method BatchInsert(key: string, ids: seq<U32>)
      requires Valid()
      modifies this
      ensures Valid()
      ensures index == BatchInto(old(index), key, ids)
      ensures Contents(key) == old(Contents(key)) + (set x: nat | x in ids)
      ensures forall k :: k != key ==> Contents(k) == old(Contents(k))
    {
      for k := 0 to |ids|
        invariant Valid()
        invariant index == BatchInto(old(index), key, ids[..k])
      {
        BatchIntoPrefix(old(index), key, ids, k);
        Insert(key, ids[k]);
      }
      assert ids[..|ids|] == ids;
      BatchIntoIds(old(index), key, ids);
    }

    /**
     * `get_as_binary`: one 32-character `{:032b}` string per stored word, in
     * word order; character `k` of string `i` is '1' exactly when id
     * `i * 32 + (31 - k)` is stored. Aborts on an absent key.
     */
    method GetAsBinary(key: string) returns (r: Result<seq<string>>)
      ensures key !in index ==> r == Err(KeyNotFound)
      ensures key in index ==> r.Ok? && |r.value| == |index[key]|
      ensures r.Ok? ==> forall i :: 0 <= i < |r.value| ==> |r.value[i]| == 32
      ensures r.Ok? && key in index ==>
        forall i :: 0 <= i < |r.value| ==> r.value[i] == Binary(index[key][i])
      ensures r.Ok? ==> forall i, k :: 0 <= i < |r.value| && 0 <= k < 32 ==>
        (r.value[i][k] == '1' <==> i * 32 + (31 - k) in Contents(key))
    {
      if key !in index {
        return Err(KeyNotFound);
      }
      var entry := index[key];
      var result: seq<string> := [];
      for i := 0 to |entry|
        invariant |result| == i
        invariant forall m :: 0 <= m < i ==> result[m] == Binary(entry[m])
      {
        result := result + [Binary(entry[i])];
      }
      forall i, k | 0 <= i < |result| && 0 <= k < 32
        ensures result[i][k] == '1' <==> i * 32 + (31 - k) in Contents(key)
      {
        BinaryBit(entry[i], k);
        InIdsAt(entry, i, 31 - k);
      }
      r := Ok(result);
    }

    /**
     * `and_operation` as written: for every word `i` of `key1` and bit `j`,
     * test bit `j` of `key1`'s word and only then read `entry2[i]`. Aborts
     * when a key is absent, and when `key1` has more words than `key2` (its
     * last word holds an id, whose test reads past the end of `key2`'s
     * words). Otherwise the result is the ascending intersection of the two
     * id sets.
     */
    method AndOperation(key1: string, key2: string) returns (r: Result<seq<nat>>)
      requires Valid()
      ensures key1 !in index || key2 !in index ==> r == Err(KeyNotFound)
      ensures key1 in index && key2 in index ==>
        if |index[key2]| < |index[key1]| then r == Err(IndexOutOfBounds) else r.Ok?
      ensures r.Ok? ==> (key1 in index &&
        r.value == Ascending(Contents(key1) * Contents(key2), 32 * |index[key1]|))
      ensures r.Ok? ==> StrictlyIncreasing(r.value)
      ensures r.Ok? ==> forall x :: x in r.value <==> x in Contents(key1) && x in Contents(key2)
      ensures r.Ok? ==> forall x :: x in r.value ==> x < 0x1_0000_0000
    {
      if key1 !in index || key2 !in index {
        return Err(KeyNotFound);
      }
      var entry1 := index[key1];
      var entry2 := index[key2];
      ghost var both := Ids(entry1) * Ids(entry2);
      var result: seq<nat> := [];
      for i := 0 to |entry1|
        invariant result == Ascending(both, 32 * i)
        invariant forall n :: n in Ids(entry1) && n < 32 * i ==> n / 32 < |entry2|
      {
        var word := entry1[i];
        for j := 0 to 32
          invariant result == Ascending(both, 32 * i + j)
          invariant forall n :: n in Ids(entry1) && n < 32 * i + j ==> n / 32 < |entry2|
        {
          AndStep(entry1, entry2, i, j);
          if Bit(word, PosOf(j)) {
            if i >= |entry2| {
              // `entry2[i]` is out of bounds: the source panics here
              return Err(IndexOutOfBounds);
            }
            if Bit(entry2[i], PosOf(j)) {
              result := result + [i * 32 + j];
            }
          }
        }
      }
      OutOfRangeIffShorter(entry1, entry2);
      IdsBelow(entry1);
      WellFormedIdsFit(entry1);
      AscendingSpec(both, 32 * |entry1|);
      r := Ok(result);
    }

    /**
     * `and_operation` with `entry2[i]` bounds-checked and read as the zero
     * word past the end (the way `or_operation` reads its words). Aborts only
     * on an absent key; otherwise returns the ascending intersection,
     * whichever key is longer.
     */
    method AndChecked(key1: string, key2: string) returns (r: Result<seq<nat>>)
      requires Valid()
      ensures key1 !in index || key2 !in index ==> r == Err(KeyNotFound)
      ensures key1 in index && key2 in index ==> r.Ok?
      ensures r.Ok? ==> (key1 in index &&
        r.value == Ascending(Contents(key1) * Contents(key2), 32 * |index[key1]|))
      ensures r.Ok? ==> StrictlyIncreasing(r.value)
      ensures r.Ok? ==> forall x :: x in r.value <==> x in Contents(key1) && x in Contents(key2)
      ensures r.Ok? ==> forall x :: x in r.value ==> x < 0x1_0000_0000
    {
      if key1 !in index || key2 !in index {
        return Err(KeyNotFound);
      }
      var entry1 := index[key1];
      var entry2 := index[key2];
      ghost var both := Ids(entry1) * Ids(entry2);
      var result: seq<nat> := [];
      for i := 0 to |entry1|
        invariant result == Ascending(both, 32 * i)
      {
        var word1 := entry1[i];
        var word2 := WordAt(entry2, i);
        for j := 0 to 32
          invariant result == Ascending(both, 32 * i + j)
        {
          AndStep(entry1, entry2, i, j);
          if Bit(word1, PosOf(j)) && Bit(word2, PosOf(j)) {
            result := result + [i * 32 + j];
          }
        }
      }
      IdsBelow(entry1);
      WellFormedIdsFit(entry1);
      AscendingSpec(both, 32 * |entry1|);
      r := Ok(result);
    }

    /**
     * `or_operation`: empty when either key is absent (even if the other is
     * present). Otherwise scans `max(len1, len2)` words, reading a missing
     * word as zero, and returns the ascending union of the two id sets.
     */
    method OrOperation(key1: string, key2: string) returns (r: seq<nat>)
      requires Valid()
      ensures key1 !in index || key2 !in index ==> r == []
      ensures key1 in index && key2 in index ==>
        r == Ascending(Contents(key1) + Contents(key2), 32 * Max(|index[key1]|, |index[key2]|))
      ensures StrictlyIncreasing(r)
      ensures key1 in index && key2 in index ==>
        forall x :: x in r <==> x in Contents(key1) || x in Contents(key2)
      ensures forall x :: x in r ==> x < 0x1_0000_0000
    {
      r := [];
      if key1 in index && key2 in index {
        var entry1 := index[key1];
        var entry2 := index[key2];
        ghost var either := Ids(entry1) + Ids(entry2);
        var len := Max(|entry1|, |entry2|);
        for i := 0 to len
          invariant r == Ascending(either, 32 * i)
        {
          var word1 := WordAt(entry1, i);
          var word2 := WordAt(entry2, i);
          for j := 0 to 32
            invariant r == Ascending(either, 32 * i + j)
          {
            OrStep(entry1, entry2, i, j);
            if Bit(word1, PosOf(j)) || Bit(word2, PosOf(j)) {
              r := r + [i * 32 + j];
            }
          }
        }
        IdsBelow(entry1);
        IdsBelow(entry2);
        WellFormedIdsFit(entry1);
        WellFormedIdsFit(entry2);
        AscendingSpec(either, 32 * len);
      }
    }
  }

  /**
   * One bit of `list`'s scan, with the mask `1 << t`: position `i * 32 + t`
   * is listed exactly when its bit is set, and the shifted mask selects the
   * next position.
   */
  lemma ListStep(ws: seq<bv32>, i: nat, t: nat, mask: bv32)
    requires t < 32 && mask == Mask(PosOf(t))
    ensures Ascending(Ids(ws), 32 * i + t + 1) ==
            Ascending(Ids(ws), 32 * i + t) +
            (if WordAt(ws, i) & mask != 0 then [i * 32 + TrailingZeros(mask) as int] else [])
    ensures mask << 1 == if t == 31 then 0 else Mask(PosOf(t + 1))
  {
    InIdsAt(ws, i, t);
    AscendingStep(Ids(ws), 32 * i + t, Bit(WordAt(ws, i), PosOf(t)));
    TrailingZerosOfPos(t);
    NextMask(t);
  }

  /** One bit of `and_operation`'s scan: listed exactly when set in both words. */
  lemma AndStep(a: seq<bv32>, b: seq<bv32>, i: nat, j: nat)
    requires j < 32
    ensures Ascending(Ids(a) * Ids(b), 32 * i + j + 1) ==
            Ascending(Ids(a) * Ids(b), 32 * i + j) +
            (if Bit(WordAt(a, i), PosOf(j)) && Bit(WordAt(b, i), PosOf(j)) then [32 * i + j] else [])
    ensures 32 * i + j in Ids(a) <==> Bit(WordAt(a, i), PosOf(j))
    ensures (32 * i + j) / 32 == i
  {
    InIdsAt(a, i, j);
    InIdsAt(b, i, j);
    AscendingStep(Ids(a) * Ids(b), 32 * i + j, Bit(WordAt(a, i), PosOf(j)) && Bit(WordAt(b, i), PosOf(j)));
  }

  /** One bit of `or_operation`'s scan: listed exactly when set in either word. */
  lemma OrStep(a: seq<bv32>, b: seq<bv32>, i: nat, j: nat)
    requires j < 32
    ensures Ascending(Ids(a) + Ids(b), 32 * i + j + 1) ==
            Ascending(Ids(a) + Ids(b), 32 * i + j) +
            (if Bit(WordAt(a, i), PosOf(j)) || Bit(WordAt(b, i), PosOf(j)) then [32 * i + j] else [])
  {
    InIdsAt(a, i, j);
    InIdsAt(b, i, j);
    AscendingStep(Ids(a) + Ids(b), 32 * i + j, Bit(WordAt(a, i), PosOf(j)) || Bit(WordAt(b, i), PosOf(j)));
  }

  /**
   * For a well-formed `a`, some id of `a` lies past the words of `b` exactly
   * when `b` has fewer words than `a`: the as-written `and_operation` aborts
   * exactly when one of its first key's ids has no word in the second key.
   */
  lemma OutOfRangeIffShorter(a: seq<bv32>, b: seq<bv32>)
    requires WellFormed(a)
    ensures (exists n :: n in Ids(a) && n / 32 >= |b|) <==> |b| < |a|
  {
    IdsBelow(a);
    LastWordHasId(a);
  }

  /** The union `or_operation` returns does not depend on the order of its keys. */
  lemma OrSymmetric(a: seq<bv32>, b: seq<bv32>)
    ensures Ascending(Ids(a) + Ids(b), 32 * Max(|a|, |b|)) ==
            Ascending(Ids(b) + Ids(a), 32 * Max(|b|, |a|))
  {
    assert Ids(a) + Ids(b) == Ids(b) + Ids(a);
  }

  /**
   * The intersection `and_operation` returns does not depend on which key
   * comes first, whenever both orders succeed.
   */
  lemma AndSymmetric(a: seq<bv32>, b: seq<bv32>)
    ensures Ascending(Ids(a) * Ids(b), 32 * |a|) == Ascending(Ids(b) * Ids(a), 32 * |b|)
  {
    IdsBelow(a);
    IdsBelow(b);
    var both := Ids(a) * Ids(b);
    assert both == Ids(b) * Ids(a);
    if |a| <= |b| {
      AscendingBeyond(both, 32 * |a|, 32 * |b|);
    } else {
      AscendingBeyond(both, 32 * |b|, 32 * |a|);
    }
  }
}
