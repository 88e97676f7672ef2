/**
 * The sample session of `start`: two keys filled by `batch_insert`, then
 * every query logged. The logged values become the results of `Start`; the
 * console and the panic hook are not modelled.
 */
module Demo {
  import opened Bitset
  import opened Listing
  import opened Index
  import Rendering

  const Pending: string := "tem_pendencias"
  const Admin: string := "is_admin"

  /** The words `batch_insert(Pending, [1, 3, 5, 7, 9])` builds: bits 1, 3, 5, 7 and 9 of one word. */
  lemma PendingWords()
    ensures InsertedAll([], [1, 3, 5, 7, 9]) == [0x2AA]
  {
    var ids: seq<U32> := [1, 3, 5, 7, 9];
    assert ids[..4] == [1, 3, 5, 7] && ids[..4][..3] == [1, 3, 5];
    assert ids[..4][..3][..2] == [1, 3] && ids[..4][..3][..2][..1] == [1];
    assert InsertedAll([], [1]) == [0x2];
    assert InsertedAll([], [1, 3]) == [0xA];
    assert InsertedAll([], [1, 3, 5]) == [0x2A];
    assert InsertedAll([], [1, 3, 5, 7]) == [0xAA];
  }

  /** The words `batch_insert(Admin, [7, 256, 512, 1024])` builds: 33 of them, id 1024 in the last. */
  lemma AdminWords()
    ensures |InsertedAll([], [7, 256, 512, 1024])| == 33
  {
    var ids: seq<U32> := [7, 256, 512, 1024];
    assert ids[..3] == [7, 256, 512] && ids[..3][..2] == [7, 256] && ids[..3][..2][..1] == [7];
    assert |InsertedAll([], [7])| == 1;
    assert |InsertedAll([], [7, 256])| == 9;
    assert |InsertedAll([], [7, 256, 512])| == 17;
  }

  /** The set of ids a batch names. */
  lemma Elements(ids: seq<U32>, s: set<nat>)
    requires forall x :: x in ids <==> x in s
    ensures (set x: nat | x in ids) == s
  {}

  /**
   * The state of an index after the two batches of `start`: the ids of each
   * key, one word for `Pending` and 33 for `Admin`.
   */
  ghost predicate IsSample(index: BitmapIndex)
    reads index
  {
    && index.Valid()
    && Pending in index.index && Admin in index.index
    && index.Contents(Pending) == {1, 3, 5, 7, 9}
    && index.Contents(Admin) == {7, 256, 512, 1024}
    && |index.index[Pending]| == 1
    && |index.index[Admin]| == 33
  }

  /** `Pending`'s batch on the empty index stores one word. */
  lemma FirstBatch()
    ensures BatchInto(map[], Pending, [1, 3, 5, 7, 9]) == map[Pending := [0x2AA]]
  {
    BatchIntoEntry(map[], Pending, [1, 3, 5, 7, 9]);
    PendingWords();
  }

  /** `Admin`'s batch after it adds a second key of 33 words and leaves `Pending`'s word alone. */
  lemma SecondBatch()
    ensures var after := BatchInto(map[Pending := [0x2AA]], Admin, [7, 256, 512, 1024]);
      && after.Keys == {Pending, Admin}
      && after[Pending] == [0x2AA]
      && |after[Admin]| == 33
  {
    assert Pending != Admin by {
      assert Pending[0] != Admin[0];
    }
    BatchIntoEntry(map[Pending := [0x2AA]], Admin, [7, 256, 512, 1024]);
    AdminWords();
  }

  /** The ids `Admin`'s batch stores. */
  lemma SecondBatchIds(m: Store)
    requires Admin !in m
    ensures IdsOf(BatchInto(m, Admin, [7, 256, 512, 1024]), Admin) == {7, 256, 512, 1024}
  {
    BatchIntoIds(m, Admin, [7, 256, 512, 1024]);
    Elements([7, 256, 512, 1024], {7, 256, 512, 1024});
  }

  /** The index `start` builds: `Pending`'s batch, then `Admin`'s. */
  method Sample() returns (index: BitmapIndex)
    ensures fresh(index) && IsSample(index)
    ensures index.index[Pending] == [0x2AA]
  {
    index := new BitmapIndex();
    index.BatchInsert(Pending, [1, 3, 5, 7, 9]);
    FirstBatch();
    Elements([1, 3, 5, 7, 9], {1, 3, 5, 7, 9});
    index.BatchInsert(Admin, [7, 256, 512, 1024]);
    SecondBatch();
    SecondBatchIds(map[Pending := [0x2AA]]);
  }

  /** The ascending listing of `Pending`'s ids, scanned up to any bound past 9. */
  lemma PendingListing(n: nat)
    requires n > 9
    ensures Ascending({1, 3, 5, 7, 9}, n) == [1, 3, 5, 7, 9]
  {
    AscendingUnique([1, 3, 5, 7, 9], {1, 3, 5, 7, 9}, n);
  }

  /** The ascending listing of `Admin`'s ids, scanned up to any bound past 1024. */
  lemma AdminListing(n: nat)
    requires n > 1024
    ensures Ascending({7, 256, 512, 1024}, n) == [7, 256, 512, 1024]
  {
    AscendingUnique([7, 256, 512, 1024], {7, 256, 512, 1024}, n);
  }

  /** The ascending listing of the ids both keys hold. */
  lemma CommonListing(n: nat)
    requires n > 7
    ensures Ascending({1, 3, 5, 7, 9} * {7, 256, 512, 1024}, n) == [7]
  {
    AscendingUnique([7], {1, 3, 5, 7, 9} * {7, 256, 512, 1024}, n);
  }

  /** The ascending listing of the ids either key holds. */
  lemma UnionListing(n: nat)
    requires n > 1024
    ensures Ascending({7, 256, 512, 1024} + {1, 3, 5, 7, 9}, n) == [1, 3, 5, 7, 9, 256, 512, 1024]
  {
    AscendingUnique([1, 3, 5, 7, 9, 256, 512, 1024], {7, 256, 512, 1024} + {1, 3, 5, 7, 9}, n);
  }

  /** `list("tem_pendencias")` in `start`. */
  method ListPending(index: BitmapIndex) returns (r: seq<nat>)
    requires IsSample(index)
    ensures r == [1, 3, 5, 7, 9]
  {
    r := index.List(Pending);
    PendingListing(32 * |index.ListKeys(Pending)|);
  }

  /** `list("is_admin")` in `start`. */
  method ListAdmins(index: BitmapIndex) returns (r: seq<nat>)
    requires IsSample(index)
    ensures r == [7, 256, 512, 1024]
  {
    r := index.List(Admin);
    AdminListing(32 * |index.ListKeys(Admin)|);
  }

  /** `and_operation("tem_pendencias", "is_admin")` in `start`. */
  method AndSample(index: BitmapIndex) returns (r: Result<seq<nat>>)
    requires IsSample(index)
    ensures r == Ok([7])
  {
    r := index.AndOperation(Pending, Admin);
    CommonListing(32 * |index.index[Pending]|);
  }

  /** `or_operation("is_admin", "tem_pendencias")` in `start`. */
  method OrSample(index: BitmapIndex) returns (r: seq<nat>)
    requires IsSample(index)
    ensures r == [1, 3, 5, 7, 9, 256, 512, 1024]
  {
    r := index.OrOperation(Admin, Pending);
    UnionListing(32 * Max(|index.index[Admin]|, |index.index[Pending]|));
  }

  /** `format!("{:032b}", 0x2AA)`: bits 1, 3, 5, 7 and 9 set, most significant first. */
  lemma PendingBinary()
    ensures Rendering.Binary(0x2AA) == "00000000000000000000001010101010"
  {
    Rendering.DigitsOfZero(22);
    assert Rendering.Digits(0x1, 23) == Rendering.Digits(0, 22) + "1";
    assert Rendering.Digits(0x2, 24) == Rendering.Digits(0x1, 23) + "0";
    assert Rendering.Digits(0x5, 25) == Rendering.Digits(0x2, 24) + "1";
    assert Rendering.Digits(0xA, 26) == Rendering.Digits(0x5, 25) + "0";
    assert Rendering.Digits(0x15, 27) == Rendering.Digits(0xA, 26) + "1";
    assert Rendering.Digits(0x2A, 28) == Rendering.Digits(0x15, 27) + "0";
    assert Rendering.Digits(0x55, 29) == Rendering.Digits(0x2A, 28) + "1";
    assert Rendering.Digits(0xAA, 30) == Rendering.Digits(0x55, 29) + "0";
    assert Rendering.Digits(0x155, 31) == Rendering.Digits(0xAA, 30) + "1";
    assert Rendering.Digits(0x2AA, 32) == Rendering.Digits(0x155, 31) + "0";
  }

  /** `get_as_binary("tem_pendencias")` in `start`. */
  method BinaryPending(index: BitmapIndex) returns (r: Result<seq<string>>)
    requires IsSample(index) && index.index[Pending] == [0x2AA]
    ensures r == Ok(["00000000000000000000001010101010"])
  {
    r := index.GetAsBinary(Pending);
    assert |r.value| == 1 && r.value[0] == Rendering.Binary(0x2AA);
    assert r.value == [Rendering.Binary(0x2AA)];
    PendingBinary();
  }

  /** `start`: the values it logs, in order. */
  method Start() returns (pending: seq<nat>, admins: seq<nat>, pendingWords: seq<bv32>,
                          adminWords: seq<bv32>, isAdmin512: bool,
                          pendingBinary: Result<seq<string>>, adminBinary: Result<seq<string>>,
                          both: Result<seq<nat>>, either: seq<nat>)
    ensures pending == [1, 3, 5, 7, 9]
    ensures admins == [7, 256, 512, 1024]
    ensures pendingWords == [0x2AA]
    ensures |adminWords| == 33
    ensures isAdmin512
    ensures pendingBinary == Ok(["00000000000000000000001010101010"])
    ensures adminBinary.Ok? && |adminBinary.value| == 33
    ensures both == Ok([7])
    ensures either == [1, 3, 5, 7, 9, 256, 512, 1024]
  {
    var index := Sample();
    pending := ListPending(index);
    admins := ListAdmins(index);
    pendingWords := index.ListKeys(Pending);
    assert pendingWords == [0x2AA];
    adminWords := index.ListKeys(Admin);
    isAdmin512 := index.Get(Admin, 512);
    pendingBinary := BinaryPending(index);
    adminBinary := index.GetAsBinary(Admin);
    both := AndSample(index);
    either := OrSample(index);
  }

  /**
   * `and_operation` with the keys of `start` swapped: `Admin` has 33 words
   * and `Pending` one, so the read of `Pending`'s word 8 (for id 256)
   * aborts, while the bounds-checked version returns the same intersection
   * as the original order.
   */
  method SwappedAnd() returns (asWritten: Result<seq<nat>>, checked: Result<seq<nat>>)
    ensures asWritten == Err(IndexOutOfBounds)
    ensures checked == Ok([7])
  {
    var index := Sample();
    asWritten := index.AndOperation(Admin, Pending);
    checked := index.AndChecked(Admin, Pending);
    CommonListing(32 * |index.index[Admin]|);
    assert {7, 256, 512, 1024} * {1, 3, 5, 7, 9} == {1, 3, 5, 7, 9} * {7, 256, 512, 1024};
  }
}
