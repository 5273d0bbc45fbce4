# HashTable with separate chaining

This project models the `HashTable` class of hashtable.js in Dafny and proves properties of it. The class is a hash map from string keys to values:

- Keys are hashed by summing their character codes modulo the bucket count.
- Entries that collide are kept in a singly linked chain per bucket.
- `insert` doubles the bucket count before inserting when `count / bucketCount >= 2`.
- `delete` halves it before deleting when `count / bucketCount <= 0.5`.
- Both resizes go through the private `#resize`. It rebuilds the bucket array by calling `insert` on every old node and undoing each increment of `count`.

The model keeps the code's behaviour as written, including the following.

**`insert`**
- It rejects a duplicate key only when the key is at the head of its chain. A key further down the chain is appended a second time.
- It walks to the tail until `next === null`.

**`#resize`**
- `if (!hash.next) break;` leaves the whole pass over the old buckets. The slots after the first single-entry slot are dropped, while `count` stays as it was.
- A hole in the old array makes `hash.key` throw.

**`delete`**
- Deleting a key that is missing from a non-empty chain throws a TypeError.
- Deleting the tail of a chain leaves `next === undefined` on its predecessor. The next `insert` that walks that chain throws.
- The shrink before the lookup stays in place when the delete then fails.

**Modules**
- `Hashing` (hashing.dfy): the hash function and its arithmetic.
- `Chains` (chains.dfy): the buckets. A JavaScript array of chain heads is modelled as `seq<Slot<V>>`:
  - `Hole` is an array hole or `undefined`.
  - `Chain(entries, undefinedTail)` is a non-empty chain. `undefinedTail` records that the last node's `next` is `undefined` rather than `null`.
  - Writing past the end pads the array with holes. Reading past the end gives a hole.
- `TableModel` (table_model.dfy): every operation as a function from a `Table(bucketCount, count, buckets)` value to the table after the call and its `Outcome`.
  - An `Outcome` is `Done` or `Fail` with `DuplicateKey`, `KeyNotFound` or `TypeError`.
  - A `TypeError` is the code reading a field of `undefined` or `null`.
- `ResizeProofs` (resize_proofs.dfy) and `TableProperties` (table_properties.dfy): lemmas about those functions.
- `HashTables` (hashtable.dfy): the class itself, with fields `bucketCount`, `count` and `buckets`.
  - Every method runs the code's loops step by step.
  - Each method is proved to end in exactly the state and outcome that the matching `TableModel` function gives for the state it started in.
  - `#resize` calls `Insert` on every entry, and `Insert` calls `Resize` when the table is full, just as the code does.
- `Scenarios` (scenarios.dfy) and `GrowthRun` (growth_run.dfy): the tests of main.js, and short call sequences that exhibit the behaviours above.

`Inv` is the table invariant:
- `bucketCount` is a power of two;
- `0 <= count <= 2 * bucketCount`;
- the array is no longer than `bucketCount`;
- `count` is at least the number of stored entries;
- every entry sits in the chain its key hashes to.

The invariant holds for the new table, and `insert` and `delete` preserve it. `count` can exceed the number of entries, because `#resize` can lose entries without lowering `count`. This happens when the pass breaks off after a single-entry slot, and also when it throws: on a hole, or on a DuplicateKey while re-inserting a chain that holds a key twice. `Scenarios.HoleCrashesGrow` ends with no entries and `count` 4.

## Where the code differs from its own comments and messages

The comments, error messages and tests of hashtable.js and main.js describe behaviour the code does not always have. The model follows the code.

- **Entries kept across a resize.** The comment at hashtable.js:28-30 says `#resize` copies the items from the old bucket array to the new one and keeps the original count. However, `if (!hash.next) break;` at hashtable.js:40 leaves the whole pass, so every slot after the first single-entry slot is dropped (`Scenarios.BreakLosesEntries`). A hole in the old array makes `hash.key` at hashtable.js:37 throw (`Scenarios.HoleCrashesGrow`). In both cases `count` keeps its old value.
- **Duplicate keys.** The error at hashtable.js:80 says the table "already contains" the key. However, the check at hashtable.js:79 compares only the head of the chain, so a key behind the head is stored a second time, and `get` keeps returning the older value (`Scenarios.LaterDuplicateAccepted`).
- **Deleting an absent key.** `get` reports a missing key with the error at hashtable.js:105 and 110. `delete` gives the same error at hashtable.js:131, but only when the slot is empty. On a chain without the key, `item.next.key` at hashtable.js:146 reads a field of `null` or `undefined` and throws a TypeError (`TableProperties.DeleteMissing`).
- **Deleting a tail.** Unlinking the last node of a chain sets its predecessor's `next` to `undefined` (hashtable.js:147-148). The walk of `insert` stops only on `null` (hashtable.js:85), so the next insert into that chain throws (`Scenarios.TailDeleteThenInsert`).
- **Load bound.** The grow at hashtable.js:63-65 runs only when `count >= 2 * bucketCount` on entry. So `count <= 2 * bucketCount` holds after every insert, and two inserts into a new table reach equality (`Scenarios.FullLoad`).
- **No floor on the bucket count.** The shrink at hashtable.js:125 multiplies by 0.5 with no lower bound, so a delete on an empty one-bucket table would leave 0.5 buckets. The model excludes that call; see "Left out".
- **The ten-key test at main.js:46-56.** The code takes the bucket count from 1 to 2, 4 and 8. Every old slot visited by those grows holds a chain of two entries and none is a hole, so neither defect of `#resize` fires and all ten values are found (`GrowthRun.ResizingTest`).

## Model

| member | source | states |
|---|---|---|
| Hashing.Hash | hashtable.js:17-26 | the hash of any key with `n >= 1` buckets lies in `[0, n)` |
| Hashing.HashIsSumMod | hashtable.js:21-23 | reducing modulo `n` after every character gives the code sum of the key modulo `n` |
| Hashing.HashDegenerate | hashtable.js:17-26 | the empty key hashes to 0, and with one bucket every key hashes to 0 |
| Chains.Put | hashtable.js:69-70 | writing slot `i` of the array: the length grows to `i + 1` when `i` is past the end, slot `i` reads the new slot, every other index reads as before |
| Chains.Find | hashtable.js:107-112 | the position of the first entry with the key: its key matches, no earlier entry has the key, and there is none exactly when the key is not in the chain |
| Chains.FindAppend | hashtable.js:89-93 | appending an entry leaves the first match of a key already in the chain where it was; a key absent before is found at the new tail |
| Chains.RemoveFirstAt | hashtable.js:145-153 | removing the first entry with a key splices the chain around that entry's position |
| Chains.RemoveFirstKeepsOthers | hashtable.js:145-153 | after removing the first entry with one key, every other key is found exactly when it was before, with the same entry |
| Chains.RemoveFirstOnly | hashtable.js:145-153 | when a key occurs at most once in a chain, removing its first entry leaves no entry with that key |
| Chains.FlattenPut | hashtable.js:70 | replacing one slot changes the multiset of all entries by exactly the old slot's entries out and the new slot's entries in |
| TableModel.Place | hashtable.js:67-94 | the bucket count is kept; a successful placement adds one to `count`; a failure leaves the table unchanged and is never KeyNotFound |
| TableModel.ReinsertEntries | hashtable.js:37-51 | re-inserting a chain keeps `bucketCount` and `count`, since each `insert` is followed by `count--`, and never reports KeyNotFound |
| TableModel.Reinsert | hashtable.js:36-52 | the pass over the old slots keeps `bucketCount` and `count` and never reports KeyNotFound |
| TableModel.Resize | hashtable.js:31-54 | `#resize` sets the new bucket count, leaves `count` unchanged and never reports KeyNotFound |
| TableModel.Insert | hashtable.js:62-95 | the bucket count doubles exactly when `count >= 2 * bucketCount` on entry; `count` goes up by one exactly when the insert succeeds; the table stays within `count <= 2 * bucketCount` |
| TableModel.Unlink | hashtable.js:127-157 | the bucket count is kept and `count` goes down by one exactly when the unlink succeeds |
| TableModel.Delete | hashtable.js:122-158 | the bucket count halves exactly when `2 * count <= bucketCount` on entry, even when the delete then fails; `count` goes down by one exactly when it succeeds |
| ResizeProofs.PlaceEffect | hashtable.js:67-94 | the placement succeeds exactly when the slot is empty, or its head has another key and its tail is not `undefined`; it reports DuplicateKey exactly when the head has the key; on success the slot's chain gains the new entry at its end |
| ResizeProofs.PlaceAdds | hashtable.js:69-94 | a successful placement adds exactly the new entry to the multiset of all entries |
| ResizeProofs.PlaceAppends | hashtable.js:69-94 | a successful placement appends the entry to the chain its key hashes to and leaves every other chain as it was |
| ResizeProofs.PlaceKeyed | hashtable.js:67-94 | a placement keeps every entry in the chain its key hashes to and the array within the bucket count |
| ResizeProofs.PlaceKeys | hashtable.js:69-94 | a successful placement adds exactly its key to the set of keys |
| ResizeProofs.PlaceRebuilt | hashtable.js:37 | placing into an array built by `#resize` keeps it free of `undefined` tails and keyed, and can only succeed or report DuplicateKey |
| ResizeProofs.PlaceFresh | hashtable.js:69-94 | a key not yet in an array without `undefined` tails is always placed |
| ResizeProofs.ReinsertEntriesRebuilt | hashtable.js:37-51 | re-inserting a chain into an array built by `#resize` keeps it free of `undefined` tails and keyed, and can only succeed or report DuplicateKey |
| ResizeProofs.ReinsertEntriesAdds | hashtable.js:37-51 | re-inserting a chain adds at most its entries to the multiset of all entries, and exactly them when it succeeds |
| ResizeProofs.ReinsertEntriesSucceeds | hashtable.js:37-51 | a chain of distinct keys that are not yet in the new array is re-inserted without error |
| ResizeProofs.ReinsertEntriesOrder | hashtable.js:37-51 | after a successful re-insert, each new chain is its old contents followed by the chain's entries that hash to it, in chain order |
| ResizeProofs.ReinsertRebuilt | hashtable.js:36-52 | the pass over the old slots leaves an array free of `undefined` tails and keyed |
| ResizeProofs.ReinsertNoHole | hashtable.js:36-37 | a pass that succeeds met no hole among the slots it visited |
| ResizeProofs.ReinsertAdds | hashtable.js:36-52 | the pass adds at most the entries of the visited slots, up to and including the first single-entry slot, and exactly those when it succeeds |
| ResizeProofs.ReinsertSucceeds | hashtable.js:36-52 | with distinct keys, the pass throws a TypeError exactly when its visited run ends at a hole, and succeeds otherwise |
| ResizeProofs.ReinsertOrder | hashtable.js:36-52 | after a successful pass, each new chain is its old contents followed by the visited entries that hash to it, in old-slot order and chain order within a slot |
| ResizeProofs.ResizeRebuilt | hashtable.js:31-54 | the array `#resize` builds has no `undefined` tails, keeps every entry in the chain its key hashes to, and is no longer than the new bucket count |
| ResizeProofs.ResizeContents | hashtable.js:36-40 | `#resize` keeps at most the entries of the visited slots, exactly those when it succeeds, and entries after the first single-entry slot are lost |
| ResizeProofs.ResizeOutcome | hashtable.js:36-40 | with distinct keys, `#resize` throws a TypeError exactly when a hole comes before the first single-entry slot, and succeeds otherwise |
| ResizeProofs.ResizeOrder | hashtable.js:36-52 | after a successful `#resize`, chain `k` is exactly the visited entries whose key hashes to `k`, in old-slot order and chain order |
| TableProperties.Pow2Double | hashtable.js:65 | doubling a power of two gives a power of two |
| TableProperties.Pow2Half | hashtable.js:125 | halving a power of two above 1 gives an integral power of two |
| TableProperties.KeyedKeys | hashtable.js:101-103 | in a keyed array a key is stored exactly when it is in the chain its hash selects |
| TableProperties.GetMeaning | hashtable.js:100-116 | under the invariant, `get` reports KeyNotFound exactly when the key is not in the table |
| TableProperties.GetFirst | hashtable.js:100-116 | `get` returns `v` exactly when the first entry with the key in its chain holds `v` |
| TableProperties.ResizeKeepsInv | hashtable.js:31-54 | `#resize` to a power of two that the count is below twice of keeps the invariant |
| TableProperties.GrowKeepsInv | hashtable.js:63-65 | the grow before an insert keeps the invariant |
| TableProperties.PlaceKeepsInv | hashtable.js:67-94 | placing into a table below full load keeps the invariant |
| TableProperties.InsertKeepsInv | hashtable.js:62-95 | `insert` keeps the invariant |
| TableProperties.UnlinkEffect | hashtable.js:127-157 | the unlink succeeds exactly when the key is in its chain; KeyNotFound exactly when the slot is empty; TypeError exactly when the chain lacks the key; a failure changes nothing; success removes the first entry with the key, empties the slot exactly when it held one entry, and leaves every other slot and the array length as they were |
| TableProperties.UnlinkTail | hashtable.js:146-150 | after a successful unlink the chain has an `undefined` tail exactly when it had one before, or the removed entry was its last node past the head |
| TableProperties.UnlinkSize | hashtable.js:133-157 | a successful unlink removes exactly one entry from the table |
| TableProperties.UnlinkKeyed | hashtable.js:127-157 | an unlink keeps every entry in the chain its key hashes to |
| TableProperties.UnlinkKeepsInv | hashtable.js:127-157 | an unlink keeps the invariant |
| TableProperties.ShrinkKeepsInv | hashtable.js:123-125 | the shrink before a delete keeps the invariant |
| TableProperties.DeleteKeepsInv | hashtable.js:122-158 | `delete` keeps the invariant |
| TableProperties.GrowKeepsAbsent | hashtable.js:63-65 | a key absent before the grow is absent after it |
| TableProperties.InsertNewKey | hashtable.js:62-95 | for a key not in the table, when the grow succeeds: the insert succeeds exactly when its chain has no `undefined` tail, and always after an actual grow; on success `count` goes up by one, the entry is appended to its chain, every other slot is unchanged, and `get` returns the new value |
| TableProperties.InsertHeadDuplicate | hashtable.js:79-80 | `insert` reports DuplicateKey exactly when the grow did, or the grow succeeded and the key is at the head of its chain; the rejected call leaves the grown table unchanged |
| TableProperties.InsertLaterDuplicate | hashtable.js:82-94 | a key that is in its chain but not at the head is appended again, and `get` keeps returning the value it returned before |
| TableProperties.DeleteFound | hashtable.js:122-157 | when the shrink succeeds and the key is in its chain: the delete succeeds, `count` goes down by one, the first entry with the key is removed, the slot empties exactly when it held one entry, other slots and other keys' lookups are unchanged, and a key stored once is then reported missing |
| TableProperties.DeleteMissing | hashtable.js:125-146 | when the shrink succeeds and the key is not in its chain, `delete` keeps the shrunk table and reports KeyNotFound for an empty slot and a TypeError for a non-empty chain |
| HashTables.HashTable.constructor | hashtable.js:9-13 | the new table has one bucket, an empty array and `count` 0, and satisfies the invariant |
| HashTables.HashTable.Hash | hashtable.js:17-26 | the loop computes `Hashing.Hash` of the key, a value in `[0, bucketCount)` |
| HashTables.HashTable.Resize | hashtable.js:31-54 | the fields after the loop and its outcome are those of `TableModel.Resize` of the fields before it |
| HashTables.HashTable.ReinsertRest | hashtable.js:42-51 | the inner loop ends in the state and outcome of re-inserting the chain from its second node on |
| HashTables.HashTable.Readd | hashtable.js:37-38 | an `insert` followed by `count--` places the entry and leaves `count` as it was, or leaves the table unchanged when `insert` throws |
| HashTables.HashTable.Insert | hashtable.js:62-95 | the fields and outcome are those of `TableModel.Insert`, and the invariant is kept |
| HashTables.HashTable.Place | hashtable.js:67-94 | the hash, empty-slot, head-duplicate and tail-walk steps end in the state and outcome of `TableModel.Place` |
| HashTables.HashTable.Get | hashtable.js:100-116 | the result is `TableModel.Get` of the fields, and under the invariant it is missing exactly when the key is not stored |
| HashTables.HashTable.Delete | hashtable.js:122-158 | the fields and outcome are those of `TableModel.Delete`, and the invariant is kept |
| HashTables.HashTable.Unlink | hashtable.js:127-143 | the hash, empty-slot and head cases end in the state and outcome of `TableModel.Unlink` |
| HashTables.HashTable.UnlinkAfterHead | hashtable.js:145-157 | the walk past a head without the key ends in the state and outcome of `TableModel.Unlink` |
| Scenarios.InsertionTest | main.js:3-17 | a key inserted into a new table is `get` with its value, whatever the key |
| Scenarios.DeletionTest | main.js:19-31 | inserting a key into a new table and deleting it succeeds without a shrink, and `get` then reports it missing |
| Scenarios.DuplicateTest | main.js:33-44 | inserting the only key of a table again reports DuplicateKey and leaves the table unchanged |
| Scenarios.FullLoad | hashtable.js:63-65 | two inserts into a new table reach `count == 2 * bucketCount`, so the load bound is reached and not strict |
| Scenarios.LaterDuplicateAccepted | hashtable.js:79-93 | inserting "c" again when it sits behind "a" appends a second entry, and `get` still returns the first value |
| Scenarios.TailDeleteThenInsert | hashtable.js:147-148 | deleting the last node of a chain leaves an `undefined` tail, and the next insert into that chain throws a TypeError |
| Scenarios.BreakLosesEntries | hashtable.js:40 | with keys a, b, c, e, f, the grow at the fifth insert stops after the single-entry slot of "b": only two entries remain while `count` is 5, and "a" is no longer found |
| Scenarios.HoleCrashesGrow | hashtable.js:36-37 | with keys a, c, e, g, i, the grow at the fifth insert meets the hole at index 0 and throws, leaving an empty array with `count` 4 |
| GrowthRun.ResizingTest | main.js:46-56 | inserting "key1" to "key10" into a new table grows it to 2, 4 and 8 buckets without losing an entry, and `get` returns every value |

## Left out

- Bucket count 0.5: a delete on a one-bucket table whose `count` is 0 would shrink to `bucketCount = 0.5`. `Delete` excludes this case by its requirement `count > 0 || bucketCount > 1`. The hash modulo 0.5 is not modelled.
- Load factors: the code computes `count / bucketCount` in floating point. Here the load checks are the equivalent integer comparisons `count >= 2 * bucketCount` and `2 * count <= bucketCount`.
- Keys: `toString()` on non-string keys is not modelled; keys are strings. `charCodeAt` is the character's code as an integer, with no UTF-16 surrogate handling.
- Error messages: the text of the thrown errors is not modelled, only their kind.
- Node identity: chain nodes are kept as a sequence of entries, not as objects. Aliasing between nodes is not modelled.
- Complexity: the complexity comments are not modelled.
- main.js: its console output and its `try`/`catch` plumbing are not modelled. Its tests are lemmas about the outcomes.
- TableModel.Resize: it requires `count < 2 * newBucketCount` and re-inserts with `Place`, which is `insert` without its load check. Under that requirement, which every grow and shrink meets, the nested load check can never fire. A call of `#resize` with `count >= 2 * newBucketCount` is not modelled; there the nested load check would fire. Neither `insert` nor `delete` makes such a call.
- HashTables.HashTable.Resize, Insert and Delete: they require `bucketCount` to be a power of two with `0 <= count <= 2 * bucketCount` (`Shaped`). A table built by the constructor and changed only by `insert` and `delete` always satisfies this.
- HashTables.HashTable.Delete: it does not promise `Shaped` afterwards for a table outside the invariant. Such a table can hold more entries than `count`, and a successful delete could then drive `count` below zero.
- Helper methods: `ReinsertRest`, `Readd`, `Place`, `Unlink` and `UnlinkAfterHead` are parts of `#resize`, `insert` and `delete` split into methods of their own. The code has them inline.
