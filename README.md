# A verified model of `ht.c`, a linear-probing hash table in C

`ht.c` is a string-keyed map over a flat array of `(key, value)` slots. A slot
with a NULL key is empty. The table keeps a `capacity` (16 at creation, doubled on
growth) and a `length` (the number of keys set).

- `key_index` hashes a key with 64-bit FNV-1a and masks the hash with
  `capacity - 1`.
- `ht_get` probes from that home slot, wrapping around, until it finds the key or an
  empty slot.
- `ht_set` refuses a NULL value. It doubles the table with `ht_expand` when it is
  half full, then calls `ht_set_entry`, which overwrites the key's value or stores a
  copy of the key in the empty slot that ends the probe.
- `ht_remove` empties the key's slot and moves back one entry of the run that
  follows it.
- `ht_iterator` and `ht_next` walk the slots upward and yield the full ones.

The model has four modules:

- `Fnv` (fnv.dfy) holds the hash. 64-bit arithmetic is written out on naturals: XOR
  and AND bit by bit, and the multiplication modulo 2^64. `KeyIndex` is the byte
  loop of `key_index`, proved equal to the recursive fold `Hash` masked to the
  capacity. `MaskIsMod` proves that the mask is the remainder modulo a power of two.
- `Probing` (probing.dfy) holds the specification. Each table operation is a
  function on the slot sequence: `Find`/`Get` for lookup, `Put` for `ht_set_entry`,
  `Rehash` for `ht_expand`, `Delete` for `ht_remove`. Lemmas state what they mean
  for lookups. `Retrievable(s)` says that every stored key is found by `ht_get` at
  its own slot. Every operation except removal preserves it.
- `HashTable` (hashtable.dfy) holds the C code as imperative Dafny.
  - `Table` has the `entries` array, `capacity` and `length` fields. Its methods
    update them in place, and each is proved to compute its `Probing` function.
  - `Valid()` is the load invariant: a power-of-two capacity from 16 to 2^30, no
    more full slots than `length`, and `length` at most half the capacity. So an
    empty slot always exists, and every probe loop ends.
  - `Iterator` is `hti`.
- `Scenarios` (scenarios.dfy) replays the calls of test_ht.c. This works for any
  distinct keys and values, and proves the answers the tests assert. It also holds
  the concrete tables of the two Findings below, built through `Table`'s own
  methods where the finding allows it.

The header ht.h declares a different design: buckets with overflow chains, a
pluggable hash function, and a bucket-walking iterator. ht.c implements none of it.
The model follows ht.c. The header also says that `ht_set` returns NULL for a NULL
*key* (ht.h:55). The code checks for a NULL *value* (ht.c:122), and the model
follows the code. Keys are byte sequences without a zero byte, so a NULL key cannot
occur.

Allocation results are inputs to the model. `tableOk` and `entriesOk` stand for the
two allocations of `ht_create`. `allocOk` stands for the `calloc` in `ht_expand`.
`dupOk` stands for the `strdup` in `ht_set_entry`. With these inputs, every failure
path can be stated.

## Model

| member | source | states |
|---|---|---|
| Fnv.Hash | ht.c:45-49 | the FNV-1a fold (offset basis, then XOR each byte and multiply by the prime modulo 2^64) is a 64-bit value |
| Fnv.Home | ht.c:50 | the hash masked with n - 1 is the hash modulo n, and so a slot index below n, for every allowed capacity n |
| Fnv.MaskIsMod | ht.c:50 | AND with 2^k - 1 equals the remainder modulo 2^k, for every natural |
| Fnv.KeyIndex | ht.c:43-51 | the byte loop of `key_index` returns the FNV-1a hash of the whole key masked to the capacity, below the capacity |
| Fnv.CapacityDoubles | ht.c:99-101 | doubling an allowed capacity that stays within 2^30 gives an allowed capacity |
| Fnv.HomeOfByte | ht.c:43-51 | the home of a one-byte key in 16 slots is (5 XOR its low four bits) * 3 mod 16 |
| Probing.Stop | ht.c:57-65 | the probe from a home stops after stepping over only full slots holding other keys, at a slot that is empty or holds the key, or after a whole lap |
| Probing.Find | ht.c:53-67 | when `ht_get` finds a key, the slot it stops at is full and holds that key |
| Probing.Get | ht.c:53-67 | `ht_get` returns a value exactly when its probe finds the key, and the value it returns is stored with that key in a slot of the table |
| Probing.ProbeEnd | ht.c:72-83 | the probe of `ht_set_entry` ends at a slot that is empty or holds the key, and that slot is the one `ht_get` finds when the key is present |
| Probing.IsNew | ht.c:74-85 | `ht_set_entry` adds a new entry only for a key `ht_get` does not find; otherwise its probe ends at the slot holding the key, which it overwrites |
| Probing.Put | ht.c:91-93 | the slots after `ht_set_entry` stores at the end of the probe; as many slots as before (what this means is stated by the Put lemmas) |
| Probing.PutFinds | ht.c:74-93 | after `ht_set_entry(key, value)` the key is found at the slot its probe ended at, with the new value |
| Probing.IsNewIffMissing | ht.c:74-85 | `ht_set_entry` adds a new entry exactly when `ht_get` does not find the key |
| Probing.PutCount | ht.c:85-93 | the full slots grow by one for a new key and stay the same for an overwritten one |
| Probing.PutKeepsOthers | ht.c:74-93 | in a table where every key is retrievable, storing a key changes neither the slot nor the value `ht_get` finds for any other key |
| Probing.PutRetrievable | ht.c:74-93 | storing a key keeps every stored key retrievable |
| Probing.PutLookups | ht.c:120-133 | after a store, every key is still retrievable and every other key's lookup is unchanged |
| Probing.Empties | ht.c:19 | a zeroed array of n slots has no full slot |
| Probing.UnusedRetrievable | ht.c:12-25 | a table with no full slot is all empty slots and trivially retrievable |
| Probing.Reinsert | ht.c:106-112 | setting the first i slots of an array into another, in slot order, leaves no more full slots than the two together |
| Probing.ReinsertNext | ht.c:106-112 | one iteration of the `ht_expand` loop: a full slot is stored with `ht_set_entry`, an empty one is skipped |
| Probing.Rehash | ht.c:96-118 | the array after `ht_expand` has twice the slots, an allowed capacity, and no more full slots than before |
| Probing.Rehashed | ht.c:106-112 | after `ht_expand` every key is retrievable, every full slot holds an entry of the old array, and the last occurrence of each old key is found with its value |
| Probing.RehashKeepsEntries | ht.c:96-118 | with no key stored twice, `ht_expand` keeps exactly the entries it had, and each is found with its value |
| Probing.RehashLookups | ht.c:125-129 | growing a retrievable table changes no lookup and keeps it retrievable |
| Probing.RetrievableDistinct | ht.c:53-67 | in a table where every key is retrievable, no key is stored twice |
| Probing.RunEnd | ht.c:148-156 | the compaction scan of `ht_remove` passes only full slots whose key's home is the vacated slot and stops at the first that is not |
| Probing.RunEndAsWritten | ht.c:148-156 | the compaction scan as written, reading `entries[j + 1]` without wrapping: when it ends inside the array it ends before the last slot |
| Probing.RunEndAsWrittenAgrees | ht.c:148-156 | the scan as written ends where the wrapped scan `RunEnd` ends while that run stays before the last slot, and reads past the array exactly when the run reaches the last slot |
| Probing.Delete | ht.c:135-172 | the slots after `ht_remove`; as many slots as before (what this means is stated by the Delete lemmas) |
| Probing.DeleteFound | ht.c:141-163 | removing a key `ht_get` finds empties exactly one slot, net, and drops exactly that key's entry; a moved entry keeps its key and value |
| Probing.DeleteMissing | ht.c:165-171 | removing a key `ht_get` does not find changes nothing |
| Probing.DeleteTwice | ht.c:135-172 | with no key stored twice, the removed key is no longer found and removing it again changes nothing |
| Probing.DeleteDistinct | ht.c:157-163 | removal keeps every key stored at most once |
| Probing.DeleteAddsNothing | ht.c:135-172 | in a retrievable table, removal never makes a key found that was not found before |
| Probing.DeleteFromPair | test_ht.c:44-50 | in a retrievable table of at most two entries, removing one key leaves the other's lookup unchanged |
| Scenarios.RemoveLosesKey | ht.c:148-163 | for keys e, u with home 0 and n with home 1 in slots 0, 1, 2 of 16, `n` is found before removing `e` and is still stored afterwards, but `ht_get` no longer finds it |
| Probing.ClusterEnd | ht.c:148-156 | the full slots that follow an empty slot, up to the next empty one |
| Probing.ClearAfter | ht.c:160-162 | the array with the k slots after p emptied, every other slot unchanged |
| Probing.RunAfter | ht.c:160-161 | the entries of the k slots after p, in probe order |
| Probing.DeleteRepaired | ht.c:135-172 | the corrected removal; as many slots as before (what this means is stated by DeleteRepairedLookups) |
| Probing.DeleteRepairedSteps | ht.c:141-163 | the corrected removal is the found slot emptied, then its cluster taken out and set again, and it has fewer full slots than before |
| Probing.DeleteRepairedLookups | ht.c:135-172 | the corrected removal keeps every other key retrievable with an unchanged lookup, and the removed key is no longer found |
| Probing.FullFrom | ht.c:185-200 | the full slots from slot i on, each once and in increasing order |
| Probing.FullFromCount | ht.c:185-200 | the iteration from slot i yields as many entries as there are full slots from i on |
| HashTable.SetEntry | ht.c:69-94 | `ht_set_entry` on an array with an empty slot leaves the slots `Put` gives and reports the stored key; when the copy of a new key fails it changes nothing and returns NULL; the caller's length is bumped only for a new key in a counted call |
| HashTable.ReinsertAll | ht.c:102-112 | the body of `ht_expand`: a fresh array equal to `Rehash` of the old one |
| HashTable.SetAll | ht.c:106-112 | setting entries one after the other, without copying keys, leaves the slots `Reinsert` gives |
| HashTable.Table.Valid | ht.c:125-132 | the load invariant that `ht_set`'s growth rule keeps: a power-of-two capacity matching the array, full slots at most `length`, `length` at most half the capacity; it implies an empty slot, so every probe ends |
| HashTable.Table.constructor | ht.c:12-25 | a new table has 16 empty slots, length 0, and satisfies the load invariant |
| HashTable.Table.Create | ht.c:12-25 | `ht_create` returns NULL exactly when one of its two allocations fails, and otherwise a valid empty table |
| HashTable.Table.Length | ht.c:174-176 | `ht_length` bounds the full slots from above and is at most half the capacity |
| HashTable.Table.Locate | ht.c:54-65 | the probe loop finds the slot `Find` gives, without changing the table |
| HashTable.Table.Get | ht.c:53-67 | `ht_get` returns the value `Get` gives and changes nothing |
| HashTable.Table.Expand | ht.c:96-118 | `ht_expand` succeeds exactly when the doubled capacity is allowed and the allocation succeeds; then the array is `Rehash` of the old one with twice the capacity; otherwise nothing changes; length is unchanged and the invariant holds |
| HashTable.Table.Set | ht.c:120-133 | a NULL value, or a needed growth that fails, returns NULL and changes nothing; otherwise the key is stored in the possibly grown table, length goes up by one exactly for a new key, a get of the key returns the value, and in a retrievable table no other lookup changes |
| HashTable.Table.Store | ht.c:131-132 | the last step of `ht_set`: `ht_set_entry` with the length counter on a table that has room |
| HashTable.Table.Remove | ht.c:135-172 | `ht_remove` returns the value `ht_get` would, leaves the slots `Delete` gives, decrements length exactly when the key was found, drops exactly that entry, and keeps keys distinct |
| HashTable.Table.CompactRun | ht.c:147-163 | the compaction after the slot is emptied moves the last slot of the run whose home is that slot back into it, or changes nothing when the run is empty |
| HashTable.Table.RemoveRepaired | ht.c:135-172 | the corrected `ht_remove`: returns the value, leaves the slots `DeleteRepaired` gives, decrements length on a hit, and keeps every other key retrievable with its lookup unchanged |
| HashTable.Table.RepairCluster | ht.c:147-163 | the repair takes the cluster after the emptied slot out and sets its entries again, leaving `Reinsert` of `RunAfter` into `ClearAfter` |
| HashTable.Table.TakeCluster | ht.c:148-162 | the loop returns the k entries after the emptied slot, in probe order, and empties their slots |
| HashTable.Table.ClusterLength | ht.c:148-156 | the scan returns the length of the cluster that follows the emptied slot |
| HashTable.Iterator.constructor | ht.c:178-183 | `ht_iterator` starts at slot 0 with every full slot still to come |
| HashTable.Iterator.Next | ht.c:185-200 | `ht_next` returns true exactly when a full slot remains, yields the first of them with its key and value, moves past it, and leaves the table alone; at the end it returns false with the index at the capacity |
| Scenarios.SetThenGet | test_ht.c:25-38 | three distinct keys set into a new table are each found with their own value |
| Scenarios.NewPair | test_ht.c:41-46 | a new table with two keys set has length 2 and finds both |
| Scenarios.RemoveTwice | test_ht.c:47-48 | removing a stored key returns a value the first time and NULL the second, and length drops by one |
| Scenarios.SetThenRemove | test_ht.c:40-60 | the remove calls of `test_ht_remove` return value, NULL, value, NULL, value, NULL, and the lengths it checks are 2, 1, 0, 0 |
| Scenarios.SetThree | ht.c:120-133 | `ht_set` of "e", "u" and "n" into a new table puts them in slots 0, 1 and 2: the counterexample table |
| Scenarios.SetThreeRemoveOne | ht.c:135-172 | through the table's methods: after setting "e", "u", "n" and removing "e", the removal returns the value of "e", `ht_get("n")` returns NULL, and slot 2 still holds "n" with its value |
| Scenarios.RepairedKeepsKey | ht.c:148-163 | the corrected removal of `e` from the counterexample table leaves `n` found with its value |
| Scenarios.RemoveReadsPastEnd | ht.c:148-150 | a one-byte key with low four bits 0000 set into a new table is found at slot 15, the last, and the compaction scan of its removal reads one past the array |

## Left out

- Memory is not modelled: `ht_destroy`, the frees, and the key that `ht_remove`
  leaks. `malloc`, `calloc` and `strdup` are modelled only as success inputs.
- The bucket and overflow-chain design of ht.h is not modelled, because ht.c does
  not implement it. The same goes for `hash_fn`, `ht_create_with` and `ht_print`.
- Address identity is not modelled. Keys are byte sequences, and `strcmp` is
  sequence equality. `ht_set` returns the stored key as equal bytes, not as an
  address. Values are an opaque type `V`, and NULL is `None`.
- HashTable.Table.Expand: refuses to grow beyond 2^30 slots. `key_index` takes the
  capacity as a C `int`, and 2^30 is the largest power of two an `int` holds. The
  source itself refuses only when the `size_t` doubling overflows.
- HashTable.Table.CompactRun: reads slot `(j + 1) mod capacity`. The source reads
  `entries[j + 1]` (ht.c:150), which is one past the array when `j` is the last
  slot (see Findings). The model wraps around, as every other probe in the file
  does; the read past the array itself is undefined behaviour in C and is not
  modelled beyond `Probing.RunEndAsWritten` reporting it.
- HashTable.Table.Valid: states that the full slots are at most `length`, not
  equal to it. After the removal defect below, a key can be stored twice, and
  `ht_expand` then keeps only one copy while `length` still counts both.
- HashTable.Table.Remove: does not promise that other keys stay retrievable,
  because the source does not keep them so (see Findings).
- HashTable.Iterator.constructor: sets `key` and `value` to an empty key and
  `None`. The source leaves them uninitialised until the first successful
  `ht_next`.
- The scenario lemmas name keys by their last hex digit (low four bits) instead of
  evaluating FNV-1a on literal strings. They hold for "e", "u", "n" and "p", whose
  low four bits are 5, 5, 14 and 0.
- Scenarios.SetThenGet: assumes every allocation succeeds, as the tests do. The
  tests call `exit_nomem` on failure, and that path is not modelled.

## Findings

| source | as written | input that shows it | evidently intended | confidence | as-written member | corrected member |
|---|---|---|---|---|---|---|
| ht.c:148-163 | after emptying the removed key's slot, `ht_remove` pulls back only the last entry of the run whose home is that slot, and stops at the first entry with another home | 16 slots holding "e" (home 0) at slot 0, "u" (home 0) at slot 1 and "n" (home 1) at slot 2; `ht_remove("e")` moves "u" to slot 0 and empties slot 1, so `ht_get("n")` stops at the empty slot 1 and returns NULL although "n" is still stored at slot 2 | every key other than the removed one stays retrievable with its value | not executed | Scenarios.SetThreeRemoveOne | HashTable.Table.RemoveRepaired |
| ht.c:148-150 | the compaction scan reads `entries[j + 1]` and only afterwards wraps `j` to 0; the wrap can never fire, and from the last slot the read is one past the array | 16 slots holding only "p" (low four bits 0000, home 15) at slot 15, as `ht_set("p")` on a new table leaves it; `ht_remove("p")` starts the scan at `j = 15` and reads `entries[16]` | the scan reads the next slot with wrap-around, `entries[(j + 1) % cap]` | not executed | Scenarios.RemoveReadsPastEnd | HashTable.Table.CompactRun |
