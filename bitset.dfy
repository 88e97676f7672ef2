/**
 * One key's bitset: a `Vec<u32>` in which bit `j` of word `i` stands for the
 * id `i * 32 + j`. This module gives its meaning (the id set `Ids`), the
 * shape every stored bitset keeps (`WellFormed`) and the pure effect of
 * inserting ids into it.
 */
module Bitset {
  import opened Words

  /** Words needed for the largest `u32` id: (2^32 - 1) / 32 + 1 = 2^27. */
  const MaxWords: nat := 0x800_0000

  /** The ids `insert` accepts (`u32`). */
  type U32 = n: nat | n < 0x1_0000_0000

  /** The ids a word vector stands for: { i*32 + j | bit j of ws[i] is set }. */
  ghost function Ids(ws: seq<bv32>): set<nat> {
    set i: nat, j: nat | i < |ws| && j < 32 && Bit(ws[i], PosOf(j)) :: i * 32 + j
  }

  /** Word `i`, or the zero word past the end (`entry.get(i).unwrap_or(&0)`). */
  function WordAt(ws: seq<bv32>, i: nat): (w: bv32)
    ensures i >= |ws| ==> w == 0
  {
    if i < |ws| then ws[i] else 0
  }

  /** Id `n` is in the set exactly when bit `n % 32` of word `n / 32` exists and is set. */
  lemma InIds(ws: seq<bv32>, n: nat)
    ensures n in Ids(ws) <==> n / 32 < |ws| && Bit(ws[n / 32], PosOf(n))
    ensures n in Ids(ws) <==> Bit(WordAt(ws, n / 32), PosOf(n))
  {
    ZeroWord(PosOf(n));
    if n in Ids(ws) {
      InIdsOnlyIf(ws, n);
    }
    if n / 32 < |ws| && Bit(ws[n / 32], PosOf(n)) {
      InIdsIf(ws, n);
    }
  }

  lemma InIdsOnlyIf(ws: seq<bv32>, n: nat)
    requires n in Ids(ws)
    ensures n / 32 < |ws| && Bit(ws[n / 32], PosOf(n))
  {
    var i: nat, j: nat :| i < |ws| && j < 32 && Bit(ws[i], PosOf(j)) && n == i * 32 + j;
    assert n / 32 == i && n % 32 == j;
  }

  lemma InIdsIf(ws: seq<bv32>, n: nat)
    requires n / 32 < |ws| && Bit(ws[n / 32], PosOf(n))
    ensures n in Ids(ws)
  {
    var i: nat, j: nat := n / 32, n % 32;
    assert n == i * 32 + j && PosOf(j) == PosOf(n);
    assert i * 32 + j in Ids(ws);
  }

  /** The same, addressed by word index and bit position. */
  lemma InIdsAt(ws: seq<bv32>, i: nat, j: nat)
    requires j < 32
    ensures i * 32 + j in Ids(ws) <==> Bit(WordAt(ws, i), PosOf(j))
    ensures i * 32 + j in Ids(ws) ==> i < |ws|
  {
    var n := i * 32 + j;
    assert n / 32 == i && n % 32 == j;
    InIds(ws, n);
  }

  /** Every id lies inside the words: below 32 times their number. */
  lemma IdsBelow(ws: seq<bv32>)
    ensures forall n :: n in Ids(ws) ==> n < 32 * |ws|
  {
    forall n | n in Ids(ws)
      ensures n < 32 * |ws|
    {
      InIds(ws, n);
    }
  }

  /**
   * The shape `insert` gives every bitset it creates or grows: at least one
   * word, no more than the largest `u32` id needs, and a non-zero last word
   * (a vector is grown only to hold the id being set in its new last word).
   */
  predicate WellFormed(ws: seq<bv32>) {
    0 < |ws| <= MaxWords && ws[|ws| - 1] != 0
  }

  /** The last word of a well-formed bitset holds an id. */
  lemma LastWordHasId(ws: seq<bv32>)
    requires WellFormed(ws)
    ensures exists n :: n in Ids(ws) && n / 32 == |ws| - 1
  {
    var last := |ws| - 1;
    NonZeroHasBit(ws[last]);
    var j: Pos :| Bit(ws[last], j);
    PosOfPos(j);
    InIdsAt(ws, last, j as int);
    assert (last * 32 + j as int) / 32 == last;
  }

  /** All ids of a well-formed bitset fit in a `u32`. */
  lemma WellFormedIdsFit(ws: seq<bv32>)
    requires WellFormed(ws)
    ensures forall n :: n in Ids(ws) ==> n < 0x1_0000_0000
  {
    IdsBelow(ws);
  }

  /**
   * A well-formed bitset is determined by its id set: the stored words are a
   * canonical representation of the ids.
   */
  lemma Canonical(a: seq<bv32>, b: seq<bv32>)
    requires WellFormed(a) && WellFormed(b)
    requires Ids(a) == Ids(b)
    ensures a == b
  {
    SameIdsSameLength(a, b);
    forall i | 0 <= i < |a|
      ensures a[i] == b[i]
    {
      SameIdsSameWord(a, b, i);
    }
  }

  lemma SameIdsSameLength(a: seq<bv32>, b: seq<bv32>)
    requires WellFormed(a) && WellFormed(b)
    requires Ids(a) == Ids(b)
    ensures |a| == |b|
  {
    IdsBelow(a);
    IdsBelow(b);
    LastWordHasId(a);
    LastWordHasId(b);
  }

  lemma SameIdsSameWord(a: seq<bv32>, b: seq<bv32>, i: nat)
    requires i < |a| && i < |b|
    requires Ids(a) == Ids(b)
    ensures a[i] == b[i]
  {
    forall j: Pos
      ensures Bit(a[i], j) == Bit(b[i], j)
    {
      PosOfPos(j);
      InIdsAt(a, i, j as int);
      InIdsAt(b, i, j as int);
    }
    WordExt(a[i], b[i]);
  }

  /** `Vec::resize(n, 0)`: truncate to `n` words, or pad with zero words up to `n`. */
  function Resize(ws: seq<bv32>, n: nat): (r: seq<bv32>)
    ensures |r| == n
    ensures forall i :: 0 <= i < n ==> r[i] == WordAt(ws, i)
  {
    if n <= |ws| then ws[..n] else ws + seq(n - |ws|, _ => 0)
  }

  /** The word vector `insert` works on: `ws`, grown to hold word `id / 32`. */
  function Grown(ws: seq<bv32>, id: U32): (r: seq<bv32>)
    ensures |r| == if id / 32 < |ws| then |ws| else id / 32 + 1
    ensures forall i :: 0 <= i < |r| ==> r[i] == WordAt(ws, i)
  {
    if id / 32 >= |ws| then Resize(ws, id / 32 + 1) else ws
  }

  /**
   * The bitset after `insert(key, id)`: grown with zero words to exactly
   * `id / 32 + 1` words when too short, then bit `id % 32` of word `id / 32`
   * OR-ed in.
   */
  function Inserted(ws: seq<bv32>, id: U32): (r: seq<bv32>)
    ensures |r| == if id / 32 < |ws| then |ws| else id / 32 + 1
    ensures r[id / 32] == WordAt(ws, id / 32) | Mask(PosOf(id))
    ensures forall i :: 0 <= i < |r| && i != id / 32 ==> r[i] == WordAt(ws, i)
  {
    var grown := Grown(ws, id);
    grown[id / 32 := grown[id / 32] | Mask(PosOf(id))]
  }

  /** Inserting adds exactly the id: ids(insert(ws, id)) = ids(ws) + {id}. */
  lemma InsertedIds(ws: seq<bv32>, id: U32)
    ensures Ids(Inserted(ws, id)) == Ids(ws) + {id}
  {
    forall n: nat
      ensures n in Ids(Inserted(ws, id)) <==> n in Ids(ws) || n == id
    {
      InsertedHas(ws, id, n);
    }
  }

  /** Id `n` is in the inserted bitset exactly when it was before or is the inserted id. */
  lemma InsertedHas(ws: seq<bv32>, id: U32, n: nat)
    ensures n in Ids(Inserted(ws, id)) <==> n in Ids(ws) || n == id
  {
    var r := Inserted(ws, id);
    InIds(r, n);
    InIds(ws, n);
    var i := n / 32;
    if i == id / 32 {
      OrMaskBit(WordAt(ws, i), PosOf(id), PosOf(n));
      assert PosOf(id) == PosOf(n) <==> n == id;
    } else {
      assert WordAt(r, i) == WordAt(ws, i);
      assert n != id;
    }
  }

  /** Inserting keeps the bitset well-formed, and creates a well-formed one from nothing. */
  lemma InsertedWellFormed(ws: seq<bv32>, id: U32)
    requires ws == [] || WellFormed(ws)
    ensures WellFormed(Inserted(ws, id))
  {
    var r := Inserted(ws, id);
    var last := |r| - 1;
    if last == id / 32 {
      OrMaskNonZero(WordAt(ws, last), PosOf(id));
    }
  }

  /** Inserting an id that is already there changes nothing. */
  lemma InsertedIdempotent(ws: seq<bv32>, id: U32)
    ensures Inserted(Inserted(ws, id), id) == Inserted(ws, id)
  {
    var once := Inserted(ws, id);
    var twice := Inserted(once, id);
    forall i | 0 <= i < |once|
      ensures twice[i] == once[i]
    {
      if i == id / 32 {
        OrMaskIdempotent(WordAt(ws, i), PosOf(id));
      }
    }
  }

  /** The bitset after inserting `ids` one after another, in order (`batch_insert`). */
  function InsertedAll(ws: seq<bv32>, ids: seq<U32>): seq<bv32> {
    if ids == [] then ws
    else Inserted(InsertedAll(ws, ids[..|ids| - 1]), ids[|ids| - 1])
  }

  /** The ids of a batch are those before its last one, and the last one. */
  lemma ElementsSnoc(ids: seq<U32>, front: seq<U32>, x: U32)
    requires ids != [] && front == ids[..|ids| - 1] && x == ids[|ids| - 1]
    ensures (set y: nat | y in ids) == (set y: nat | y in front) + {x}
  {
    forall y: nat | y in ids
      ensures y in front || y == x
    {
      var i :| 0 <= i < |ids| && ids[i] == y;
      if i < |ids| - 1 {
        assert front[i] == y;
      }
    }
  }

  /** A batch adds exactly its ids, whatever their order and repetitions. */
  lemma {:induction false} InsertedAllIds(ws: seq<bv32>, ids: seq<U32>)
    ensures Ids(InsertedAll(ws, ids)) == Ids(ws) + (set x: nat | x in ids)
  {
    if ids == [] {
      assert (set x: nat | x in ids) == {};
    } else {
      var front, x := ids[..|ids| - 1], ids[|ids| - 1];
      var before := InsertedAll(ws, front);
      assert InsertedAll(ws, ids) == Inserted(before, x);
      InsertedAllIds(ws, front);
      InsertedIds(before, x);
      ElementsSnoc(ids, front, x);
    }
  }

  /** A batch keeps the bitset well-formed; it leaves it empty only when both are empty. */
  lemma {:induction false} InsertedAllWellFormed(ws: seq<bv32>, ids: seq<U32>)
    requires ws == [] || WellFormed(ws)
    ensures InsertedAll(ws, ids) == [] <==> ws == [] && ids == []
    ensures InsertedAll(ws, ids) == [] || WellFormed(InsertedAll(ws, ids))
  {
    if ids != [] {
      InsertedAllWellFormed(ws, ids[..|ids| - 1]);
      InsertedWellFormed(InsertedAll(ws, ids[..|ids| - 1]), ids[|ids| - 1]);
    }
  }

  /**
   * The words after a batch depend only on the set of ids in it: reordering
   * the batch or repeating ids in it gives the same vector.
   */
  lemma InsertedAllOrderFree(ws: seq<bv32>, xs: seq<U32>, ys: seq<U32>)
    requires ws == [] || WellFormed(ws)
    requires forall x :: x in xs <==> x in ys
    ensures InsertedAll(ws, xs) == InsertedAll(ws, ys)
  {
    if xs != [] {
      assert xs[0] in ys;
    }
    if ys != [] {
      assert ys[0] in xs;
    }
    InsertedAllWellFormed(ws, xs);
    InsertedAllWellFormed(ws, ys);
    InsertedAllIds(ws, xs);
    InsertedAllIds(ws, ys);
    assert (set x: nat | x in xs) == (set y: nat | y in ys);
    if InsertedAll(ws, xs) != [] {
      Canonical(InsertedAll(ws, xs), InsertedAll(ws, ys));
    }
  }
}
