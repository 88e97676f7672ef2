# BitmapIndex, modelled in Dafny

`BitmapIndex` (src/lib.rs) is a bitmap-backed inverted index. It maps string
keys (attribute names such as `"is_admin"`) to sets of `u32` ids. Each set is
stored as a growable vector of 32-bit words: bit `j` of word `i` stands for
id `i * 32 + j`. The index supports:

- insertion of one id or a batch of ids;
- a membership test;
- listing the ids of a key, and returning its raw words;
- a `{:032b}` dump of the words;
- the pairwise AND (intersection) and OR (union) of two keys.

This project models that struct and its sample driver `start`:

- **`Words`** (words.dfy). Single-bit masks on `bv32` words, bit tests,
  `u32::trailing_zeros`, and the bit facts the scans rely on.
- **`Bitset`** (bitset.dfy). One key's word vector.
  - `Ids` gives its meaning: the set of ids it stands for.
  - `WellFormed` is the shape `insert` keeps: at least one word, at most
    2^27 words, and a non-zero last word.
  - `Resize` is `Vec::resize(n, 0)`.
  - `Inserted` and `InsertedAll` are the pure effect of `insert` and
    `batch_insert` on one vector.
- **`Listing`** (listing.dfy). `Ascending(s, n)`: the members of `s` below `n`,
  in increasing order. This is the specification of every scan that returns
  ids. It comes with uniqueness lemmas: a strictly increasing sequence with
  the right members is that listing.
- **`Rendering`** (rendering.dfy). `format!("{:032b}", w)` as `Binary(w)`: 32
  characters, most significant bit first.
- **`Index`** (index.dfy). The store `map<string, seq<bv32>>` for the
  `HashMap<String, Vec<u32>>`, and the class `BitmapIndex`.
  - The class has one mutable field `index`.
  - `Insert` and `BatchInsert` update that field in place, with `modifies`
    clauses. The read operations are methods with loops, or functions where
    the source has no loop.
  - `Insert` and `BatchInsert` are proved against `InsertInto` and `BatchInto`.
    `List`, `AndOperation`, `AndChecked` and `OrOperation` are proved against
    `Ascending`. `GetAsBinary` is proved against `Rendering.Binary` and
    `Contents`.
  - The panics of `unwrap` and of out-of-range indexing are modelled as
    `Err(KeyNotFound)` and `Err(IndexOutOfBounds)`.
- **`Demo`** (demo.dfy). `start`: the two batches, and every value it logs.
  The raw words and the binary dump of `is_admin` are stated by length only.

## Model

| member | source | states |
|---|---|---|
| Index.BitmapIndex.constructor | src/lib.rs:22-26 | `new` gives the empty map, which is valid |
| Index.BitmapIndex.Insert | src/lib.rs:29-37 | the new map is `InsertInto(old map, key, id)`; the key's ids gain exactly `id`; every other key's ids are unchanged; validity is kept |
| Words.Mask | src/lib.rs:36 | `1 << j`; with `Words.MaskBit`, the mask has bit `j` set and no other bit |
| Words.Bit | src/lib.rs:46-52 | `w & (1 << j) != 0`, the bit test of `get`, `list` (line 68), `and_operation` (line 109) and `or_operation` (line 126); with `Words.ZeroWord`, no bit of the zero word is set |
| Bitset.WordAt | src/lib.rs:123-124 | `entry.get(i).unwrap_or(&0)`: word `i`, or the zero word past the end |
| Words.PosOf | src/lib.rs:36 | `id % 32` as a bit position: `j as int == n % 32`; `get` computes the same at line 46 |
| Index.Max | src/lib.rs:121 | `entry1.len().max(entry2.len())`: at least each length, and equal to one of them |
| Index.Entry | src/lib.rs:81 | `get(key).unwrap_or(&Vec::new())`: the key's words, or none for an absent key; `Index.BitmapIndex.ListKeys` states this |
| Bitset.Grown | src/lib.rs:32-34 | the vector `insert` writes into: `id / 32 + 1` words when too short, otherwise unchanged in length; every word is the old word, or zero past the old end |
| Bitset.Resize | src/lib.rs:33 | `Vec::resize(n, 0)`: exactly `n` words; word `i` is the old word `i`, or zero past the old end |
| Bitset.Inserted | src/lib.rs:30-36 | the vector is grown to `id / 32 + 1` words only when too short; word `id / 32` gets bit `id % 32` OR-ed in; every other word is unchanged |
| Bitset.InsertedIds | src/lib.rs:30-36 | inserting adds exactly the id: `Ids(Inserted(ws, id)) == Ids(ws) + {id}` |
| Bitset.InsertedHas | src/lib.rs:36 | id `n` is in the inserted vector iff it was there before or is the inserted id |
| Bitset.InsertedWellFormed | src/lib.rs:30-36 | inserting into an empty or well-formed vector gives a well-formed one (non-empty, at most 2^27 words, last word non-zero) |
| Bitset.InsertedIdempotent | src/lib.rs:36 | inserting the same id twice equals inserting it once |
| Index.InsertInto | src/lib.rs:29-37 | the map after `insert`: the key's vector replaced by `Inserted` of its old vector (empty if absent); with `Index.InsertIntoIds`, `Index.InsertIntoValid` and `Index.InsertIntoIdempotent`, it adds exactly the id, keeps other keys and keeps every vector well-formed |
| Index.InsertIntoIds | src/lib.rs:29-37 | `insert(key, id)` adds `id` to the key's ids (creating the key) and leaves every other key's ids as they were |
| Index.InsertIntoValid | src/lib.rs:29-37 | `insert` keeps every stored vector well-formed |
| Index.InsertIntoIdempotent | src/lib.rs:29-37 | after `insert(key, id)` the id is stored; a second identical insert leaves the map unchanged |
| Bitset.InIds | src/lib.rs:40-59 | id `n` is stored iff word `n / 32` exists and has bit `n % 32` set; reading a missing word as zero gives the same answer |
| Bitset.InIdsAt | src/lib.rs:106-112 | id `i * 32 + j` is stored iff bit `j` of word `i` (zero past the end) is set, and then word `i` exists |
| Bitset.IdsBelow | src/lib.rs:65-73 | every stored id is below 32 times the number of words |
| Bitset.LastWordHasId | src/lib.rs:32-36 | the last word of a well-formed vector holds an id |
| Bitset.WellFormedIdsFit | src/lib.rs:69 | all ids of a well-formed vector fit in a `u32`, so `i as u32 * 32 + …` cannot overflow |
| Bitset.Canonical | src/lib.rs:29-37 | two well-formed vectors with the same ids are the same vector |
| Index.BitmapIndex.Get | src/lib.rs:40-59 | `get(key, id)` is true iff `id` is stored under `key`; so false for an absent key and for an id past the last word |
| Index.BitmapIndex.List | src/lib.rs:62-77 | the result is `Ascending(ids of key, 32 * word count)`: strictly increasing, exactly the stored ids, each below 2^32; empty for an absent key |
| Listing.AscendingSpec | src/lib.rs:65-73 | the scan order lists exactly the members below the bound, strictly increasing |
| Listing.AscendingStep | src/lib.rs:67-72 | one more position of the scan appends that position iff it is a member |
| Listing.IncreasingUnique | src/lib.rs:62-77 | two strictly increasing sequences with the same members are equal |
| Listing.AscendingUnique | src/lib.rs:62-77 | a strictly increasing sequence holding exactly the members below `n` is the ascending listing |
| Listing.AscendingBeyond | src/lib.rs:106 | scanning past the largest member adds nothing |
| Index.ListStep | src/lib.rs:66-71 | one inner iteration of `list`: `i * 32 + mask.trailing_zeros()` is pushed iff its bit is set, and `mask <<= 1` gives the mask of the next bit (zero after bit 31) |
| Words.TrailingZeros | src/lib.rs:69 | `u32::trailing_zeros`: 32 for the zero word; otherwise the lowest set bit, with no set bit below it |
| Words.TrailingZerosOfMask | src/lib.rs:69 | `(1 << j).trailing_zeros() == j` |
| Words.NextMask | src/lib.rs:71 | `mask <<= 1` moves the single bit up one place, and drops it after bit 31 |
| Words.OrMaskBit | src/lib.rs:36 | `w | (1 << j)` sets bit `j` and keeps every other bit |
| Index.BitmapIndex.ListKeys | src/lib.rs:80-82 | `list_keys` returns the raw words of a present key, or no words for an absent one; in a valid index it is empty only for an absent key |
| Index.BitmapIndex.BatchInsert | src/lib.rs:85-89 | the new map is `BatchInto(old map, key, ids)`, one `insert` per id in order; the key's ids gain exactly the batch's ids; other keys are unchanged; validity is kept |
| Index.BatchInto | src/lib.rs:85-89 | the map after `batch_insert`: `InsertInto` once per id, in order; with `Index.BatchIntoIds`, `Index.BatchIntoValid` and `Index.BatchIntoOrderFree`, it adds exactly the batch's ids, keeps other keys and depends only on the set of ids |
| Index.BatchIntoPrefix | src/lib.rs:86-88 | each loop step of `batch_insert` is one `insert` |
| Index.BatchIntoEntry | src/lib.rs:85-89 | an empty batch changes nothing (the key is not created); otherwise only the key's vector changes, to the batch inserted into it |
| Index.BatchIntoIds | src/lib.rs:85-89 | a batch adds exactly its ids under the key and changes no other key's ids |
| Index.BatchIntoValid | src/lib.rs:85-89 | a batch keeps every stored vector well-formed |
| Index.BatchIntoOrderFree | src/lib.rs:85-89 | batches with the same ids give the same map, whatever the order and repetitions; repeating a batch changes nothing |
| Bitset.InsertedAll | src/lib.rs:85-89 | one key's vector after `batch_insert`: `Inserted` once per id, in order; `Bitset.InsertedAllIds`, `Bitset.InsertedAllWellFormed` and `Bitset.InsertedAllOrderFree` state its meaning |
| Bitset.InsertedAllIds | src/lib.rs:85-89 | a batch adds exactly its ids to the vector |
| Bitset.InsertedAllWellFormed | src/lib.rs:85-89 | a batch keeps the vector well-formed, and leaves it empty only when both the vector and the batch are empty |
| Bitset.InsertedAllOrderFree | src/lib.rs:85-89 | the vector after a batch depends only on the set of ids in it |
| Index.BitmapIndex.GetAsBinary | src/lib.rs:92-99 | absent key: `Err(KeyNotFound)` (the `unwrap` panic). Otherwise one string per word, in order; string `i` is `Binary(word i)`, 32 characters long; character `k` is '1' iff id `i * 32 + (31 - k)` is stored |
| Rendering.Binary | src/lib.rs:96 | `format!("{:032b}", word)`: exactly 32 characters; with `Rendering.BinaryBit`, character `k` is '1' iff bit `31 - k` is set |
| Rendering.Digits | src/lib.rs:96 | an `n`-digit numeral of '0'/'1' characters |
| Rendering.DigitsBit | src/lib.rs:96 | digit `k` of the `n`-digit numeral is bit `n - 1 - k` |
| Rendering.DigitsOfZero | src/lib.rs:96 | the zero word renders as all zeros |
| Rendering.BinaryBit | src/lib.rs:96 | `{:032b}`: character `k` is '1' iff bit `31 - k` is set, and '0' otherwise (most significant bit first) |
| Rendering.BinaryInjective | src/lib.rs:96 | distinct words render to distinct strings |
| Index.BitmapIndex.AndOperation | src/lib.rs:102-115 | either key absent: `Err(KeyNotFound)`. `key2` has fewer words than `key1`: `Err(IndexOutOfBounds)`, the `entry2[i]` panic. Otherwise `Ok(Ascending(ids1 * ids2, 32 * len1))`: strictly increasing, exactly the common ids |
| Index.AndStep | src/lib.rs:108-112 | one inner iteration of `and_operation`: `i * 32 + j` is pushed iff bit `j` is set in both words |
| Index.OutOfRangeIffShorter | src/lib.rs:109 | for a well-formed `key1`, some id of `key1` has no word in `key2` iff `key2` has fewer words; this is exactly when the short-circuited `entry2[i]` read happens out of range |
| Index.AndSymmetric | src/lib.rs:102-115 | the intersection listing does not depend on the order of the keys |
| Index.BitmapIndex.AndChecked | src/lib.rs:102-115 | the bounds-checked `and_operation`: `Err(KeyNotFound)` only when a key is absent; otherwise `Ok` of the ascending intersection, whichever key is longer |
| Index.BitmapIndex.OrOperation | src/lib.rs:118-133 | either key absent: empty. Otherwise `Ascending(ids1 + ids2, 32 * max(len1, len2))`, with missing words read as zero: strictly increasing, exactly the ids of either key, each below 2^32 |
| Index.OrStep | src/lib.rs:122-129 | one inner iteration of `or_operation`: `i * 32 + j` is pushed iff bit `j` is set in either word |
| Index.OrSymmetric | src/lib.rs:118-133 | the union listing does not depend on the order of the keys |
| Demo.PendingWords | src/lib.rs:142 | `batch_insert("tem_pendencias", [1, 3, 5, 7, 9])` on nothing builds the single word `0x2AA` |
| Demo.AdminWords | src/lib.rs:143 | `batch_insert("is_admin", [7, 256, 512, 1024])` on nothing builds 33 words |
| Demo.FirstBatch | src/lib.rs:140-142 | after the first batch the map holds only `"tem_pendencias"`, with `[0x2AA]` |
| Demo.SecondBatch | src/lib.rs:143 | the second batch adds `"is_admin"` with 33 words and leaves `"tem_pendencias"` alone |
| Demo.SecondBatchIds | src/lib.rs:143 | the second batch stores ids {7, 256, 512, 1024} under `"is_admin"` |
| Demo.Sample | src/lib.rs:140-143 | the index `start` builds: the two keys with their id sets, their word counts (1 and 33) and `[0x2AA]` |
| Demo.PendingListing | src/lib.rs:147 | the ascending listing of {1, 3, 5, 7, 9} is `[1, 3, 5, 7, 9]` |
| Demo.AdminListing | src/lib.rs:149 | the ascending listing of {7, 256, 512, 1024} is `[7, 256, 512, 1024]` |
| Demo.CommonListing | src/lib.rs:165 | the ascending listing of the common ids is `[7]` |
| Demo.UnionListing | src/lib.rs:170 | the ascending listing of the union is `[1, 3, 5, 7, 9, 256, 512, 1024]` |
| Demo.ListPending | src/lib.rs:147 | `list("tem_pendencias")` in the sample returns `[1, 3, 5, 7, 9]` |
| Demo.ListAdmins | src/lib.rs:149 | `list("is_admin")` in the sample returns `[7, 256, 512, 1024]` |
| Demo.AndSample | src/lib.rs:165 | `and_operation("tem_pendencias", "is_admin")` in the sample returns `[7]` |
| Demo.OrSample | src/lib.rs:170 | `or_operation("is_admin", "tem_pendencias")` in the sample returns `[1, 3, 5, 7, 9, 256, 512, 1024]` |
| Demo.PendingBinary | src/lib.rs:160 | `format!("{:032b}", 0x2AA)` is `00000000000000000000001010101010` |
| Demo.BinaryPending | src/lib.rs:160 | `get_as_binary("tem_pendencias")` in the sample returns that one string |
| Demo.Start | src/lib.rs:137-172 | every value `start` logs. Both lists; the raw words `[0x2AA]` and 33 words; `get("is_admin", 512)` is true; both binary dumps (the first exactly, the second with 33 strings); the AND `[7]`; the OR `[1, 3, 5, 7, 9, 256, 512, 1024]` |
| Demo.SwappedAnd | src/lib.rs:102-115 | with the sample's keys swapped, `and_operation("is_admin", "tem_pendencias")` aborts (`Err(IndexOutOfBounds)`), while the bounds-checked version returns `Ok([7])` |

## Left out

- The `log` extern and the console output of `start` are not modelled. `Demo.Start` returns the logged values instead of printing them. The panic hook installed by `start` is not modelled either.
- serde (`Serialize`/`Deserialize`) and the `wasm_bindgen` glue are left out.
- Only indexes built by `new`, `insert` and `batch_insert` are modelled; these are the states where `Valid()` holds. Through `#[derive(Deserialize)]`, an index can be built whose vectors break `WellFormed`, for example one with a zero last word. On such a state `and_operation` can succeed although `key2` is shorter. `Insert`, `List`, `BatchInsert`, `AndOperation`, `AndChecked` and `OrOperation` promise their contracts only under `Valid()`.
- `HashMap` internals (hashing, iteration order, capacity) are left out. The map is a Dafny `map`, since no operation depends on key order.
- Panics are results, not process aborts. The `unwrap` on an absent key and the out-of-range `entry2[i]` read become `Err(KeyNotFound)` and `Err(IndexOutOfBounds)`.
- Index.BitmapIndex.Get: the `usize` id is modelled as an unbounded `nat`. Ids beyond 2^32 behave as in the source: there is no word for them, so the result is false.
- Index.BitmapIndex.List: ids are unbounded naturals. That `i as u32 * 32 + mask.trailing_zeros()` cannot wrap is stated as a bound (every result is below 2^32), not modelled by wrap-around.
- Index.BitmapIndex.AndOperation: the ids pushed before the out-of-range `entry2[i]` read are lost to the panic; the model returns only the error.
- Index.BitmapIndex.GetAsBinary: `format!` is modelled only for `{:032b}` on a `u32`; no other format is.
- Allocation failure when a vector is grown to 2^27 words is not modelled.

## Findings

| source | as written | input that shows it | evidently intended | confidence | as-written member | corrected member |
|---|---|---|---|---|---|---|
| src/lib.rs:109 | `and_operation` walks every word of `key1` and reads `entry2[i]` whenever bit `j` of that word is set, with no bound check. It panics whenever `key2` has fewer words than `key1`. | `and_operation("is_admin", "tem_pendencias")` after `start`'s two batches: `"is_admin"` has 33 words, `"tem_pendencias"` 1, and id 256 makes the loop read word 8 of a 1-word vector. | the intersection of the two id sets, whichever key is passed first. `and_operation("tem_pendencias", "is_admin")` returns `[7]`, so the swapped call should too. | not executed | Index.BitmapIndex.AndOperation | Index.BitmapIndex.AndChecked |

The as-written member `Index.BitmapIndex.AndOperation` returns
`Err(IndexOutOfBounds)` exactly when `key2` is shorter (with
`Index.OutOfRangeIffShorter`). `Demo.SwappedAnd` exhibits the input above. The
corrected `Index.BitmapIndex.AndChecked` reads a missing word as zero, as
`or_operation` does. It always succeeds on present keys and returns the
ascending intersection. `Index.AndSymmetric` proves that intersection
independent of key order.

The code aborts in three places:
- the `unwrap` in `get_as_binary` (src/lib.rs:93);
- the `unwrap`s in `and_operation` (src/lib.rs:103-104);
- the unchecked `entry2[i]` read (src/lib.rs:109).

Also, `or_operation` returns an empty result when only one of its keys is absent.
The model reproduces this as written.
