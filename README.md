# SparseArray and LruCache in Dafny

A verified model of the two in-memory containers of the LruCache library.

- **SparseArray<E>** is an int-keyed ordered map held in two parallel arrays, `mKeys` and `mValues`.
  - Keys are strictly ascending over the occupied prefix `[0, mSize)`, and lookup is by binary search.
  - Deletion is lazy: a `DELETED` sentinel goes into the value cell and `mGarbage` is set.
  - `gc()` compacts the live cells in place.
  - `put` replaces on an exact hit, reuses a tombstone at the insertion point, or compacts, grows by one slot, shifts right and inserts.
  - `append` is a fast path at the tail that falls back to `put`.
- **LruCache<K, V>** is a cache bounded by a total cost. It sits over an access-ordered `LinkedHashMap`.
  - `put` adjusts the running size.
  - `trimToSize` then evicts from the eldest end until the size fits. It throws when the size turns out inconsistent.
  - The cache's accounting invariant is that `size` is the total cost of the resident entries. With non-negative costs, `put`, `get`, `trimToSize` and `clear` keep it, `put` then returns normally and leaves `size <= maxSize`, and `remove` breaks it by the removed entry's cost.

## Layout

| file | module | contents |
|---|---|---|
| wrappers.dfy | Wrappers | `Option` (a nullable reference) and `Result` (a value or a thrown exception) |
| sparse_model.dfy | SparseModel | The SparseArray state as a value. `Store` holds the occupied prefix as (key, cell) pairs, the array length and the garbage flag. Each operation is a function on it, with lemmas about the key-to-value mapping `Mapping` the prefix represents. |
| sparse_array.dfy | SparseArrays | The class `SparseArray` over `array<int>` and `array<Slot<E>>`, with the in-place loops and array copies. Also the binary search, System.arraycopy, and the gc and indexOfValue loops. Each state-changing method ensures `State()` as a function of `old(State())`: mostly `State() == <model function>(old(State()))`, and for `Clear` the empty `Store` outright. The queries that run the implicit gc (`Size`, `KeyAt`, `ValueAt`, `IndexOfKey`, `IndexOfValue`) ensure `State() == Tidy(old(State()))`. `Get` changes nothing, and `Clone` and the constructors state the new object's state directly. |
| lru_model.dfy | LruModel | The cache state as a value. `Lru` holds the entries eldest first, `size` and `maxSize`. Each operation is a function returning the new state and the result, with lemmas about them. |
| lru_cache.dfy | LruCaches | The class `LruCache`. Its entry sequence and size are fields that the methods reassign. `Get`, `Put`, `TrimToSize` and `Remove` ensure `(State(), r) == <model function>(old(State()), …)`. `Clear` has no result and ensures `State() == ClearOp(old(State()))`. The constructor states the empty state `Lru([], 0, maxSize)` outright, and `Create` gives the new object's state through `Success(r.value.State()) == LruModel.Create(maxSize)`. |

Modelling choices:

- A value cell is `Slot<E> = Empty | Live(v) | Deleted`.
  - `Empty` is the `null` that `gc` and `clear` write into vacated cells.
  - `Deleted` is the `DELETED` sentinel object of SparseArray.java (line 20). Comparing a cell with the sentinel by identity becomes a tag test.
- The class invariant is `SparseModel.Inv`. It holds four facts:
  - the prefix fits in the arrays;
  - its keys are strictly ascending, tombstones included;
  - no prefix cell is null;
  - a tombstone is in the prefix only while `mGarbage` is set.
- `ContainerHelpers.binarySearch` is called by SparseArray.java but not defined in it. `BinarySearch` is written from the contract the callers rely on: the index of the key, or the complement `~lo` of the insertion point.
- `ArrayUtils.idealIntArraySize` is called by SparseArray.java but not defined in it. The model takes the rounded length as a caller-supplied argument `ideal`. The only assumption is that it is at least the length needed.
- The LinkedHashMap in access order is a sequence of distinct-key entries, eldest first.
  - `get` and `put` move the touched entry to the end.
  - `map.remove` filters the key out.
- `sizeOf`, which subclasses may override, is a function parameter `cost` of the model and a `const` of the class. The default is `LruModel.DefaultSizeOf`, which returns 1.
- An exception is a `Failure` of `Result`. The state it returns is the state at the point of the throw, since Java does not roll back the fields already written.

Two behaviours of the code are worth stating explicitly.

- **An entry whose own cost exceeds `maxSize`.** The loop at LruCache.java:81-96 evicts it as well and leaves the cache empty; see `LruModel.OversizedEntryEvicted`.
- **`remove(key)`.** It reads the entry with `mMap.get` rather than `mMap.remove`.
  - It lowers the size but leaves the entry resident, moved to the most-recent end.
  - Repeated removes can drive the size negative, and the next `put` then throws.

## Model

The definitions of the operations are the model functions: `SparseModel.PutStore`, `DeleteStore`, `RemoveAtStore`, `RemoveRangeStore`, `SetValueAtStore`, `AppendStore`, `CompactIfFull`, `GetStore`, `Gc` and `Tidy`, and `LruModel.Trim`, `PutOp`, `GetOp`, `RemoveOp`, `Bump`, `PutEntry`, `RemoveKey` and `Lookup`. Two more stand for the cache's setup: `LruModel.Create` is the maxSize check of the constructor (LruCache.java:35-42), through which `LruCaches.LruCache.Create` is specified, and `LruModel.DefaultSizeOf` is the default `sizeOf` (LruCache.java:141-143), about which `LruModel.DefaultCostCounts` is stated. Each stands for the same Java lines as the lemma about it, named `<function>Correct` or listed next to it below, and the table names that lemma, or the method proved against the function, because it is the member whose contract states the property. `LruModel.SafeSizeOf` and `LruModel.ClearOp` have rows of their own because their own contracts state what they compute.

| member | source | states |
|---|---|---|
| SparseArrays.BinarySearch | src/main/java/watch/com/cache/sparseArray/SparseArray.java:88 | On an ascending prefix it returns the index of key when the key is present. Otherwise it returns the complement of the insertion point: every key before that point is smaller and every key from it on is larger. |
| SparseArrays.Complement | src/main/java/watch/com/cache/sparseArray/SparseArray.java:180 | `~x` is negative exactly when x is not, and decodes back to x. |
| SparseModel.InsertionPointUnique | src/main/java/watch/com/cache/sparseArray/SparseArray.java:180 | The insertion point that encodes a miss is the only index with all smaller keys before it and no smaller key at it. |
| SparseArrays.RangeEnd | src/main/java/watch/com/cache/sparseArray/SparseArray.java:137 | `min(mSize, index + size)`: not above either operand and equal to one of them. |
| SparseArrays.ArrayCopy | src/main/java/watch/com/cache/sparseArray/SparseArray.java:214-217 | System.arraycopy: the target range receives the source range as it was before the call, also for overlapping ranges in one array, and every other cell is unchanged. |
| SparseArrays.CopyOf | src/main/java/watch/com/cache/sparseArray/SparseArray.java:68-69 | `array.clone()` gives a fresh array with the same elements. |
| SparseArrays.Enlarge | src/main/java/watch/com/cache/sparseArray/SparseArray.java:202-207 | Allocation plus System.arraycopy gives a fresh array of the new length whose leading cells are the old array. The cells past the old length hold the fill value, Java's fresh 0 or null. |
| SparseArrays.ShiftInsert | src/main/java/watch/com/cache/sparseArray/SparseArray.java:214-221 | Shifting cells [i, n) right by one and writing at i yields the old prefix with x inserted at i. Every cell past n is unchanged. |
| SparseArrays.CompactCells | src/main/java/watch/com/cache/sparseArray/SparseArray.java:149-161 | The gc loop leaves, in cells [0, o), exactly the non-tombstone cells of the old prefix, in order and still paired, with o no more than the old size. Past o the keys are unchanged. In [o, n) a tombstone stays and a moved-from value cell is null, and the value cells past n are unchanged. |
| SparseArrays.MoveDown | src/main/java/watch/com/cache/sparseArray/SparseArray.java:153-157 | One kept cell: the pair at i lands at o, the value cell at i becomes null unless i is o, and no other cell changes. |
| SparseArrays.FindValue | src/main/java/watch/com/cache/sparseArray/SparseArray.java:317-321 | The indexOfValue loop returns the first index whose cell holds the value, or -1 when none does. |
| SparseArrays.SparseArray.constructor | src/main/java/watch/com/cache/sparseArray/SparseArray.java:50-60 | `SparseArray(initialCapacity)`: empty, no garbage, arrays of length 0 for capacity 0 and of the rounded length otherwise. |
| SparseArrays.SparseArray.Default | src/main/java/watch/com/cache/sparseArray/SparseArray.java:41-43 | `SparseArray()`: the empty array of rounded capacity 10. |
| SparseArrays.SparseArray.Clone | src/main/java/watch/com/cache/sparseArray/SparseArray.java:64-74 | A new object over fresh copies of both arrays, with the same size, flag and abstract state. |
| SparseArrays.SparseArray.Get | src/main/java/watch/com/cache/sparseArray/SparseArray.java:87-95 | It returns the value mapped to key, or the default when the key is absent or tombstoned. The result equals the model's `GetStore`. |
| SparseModel.GetStoreCorrect | src/main/java/watch/com/cache/sparseArray/SparseArray.java:87-95 | What `get` reads at the search position is the mapped value when there is one, and the default otherwise. |
| SparseArrays.SparseArray.Delete | src/main/java/watch/com/cache/sparseArray/SparseArray.java:100-111 | The new state is `DeleteStore` of the old, and key is unmapped. The value cells past the prefix are unchanged. |
| SparseModel.DeleteStoreCorrect | src/main/java/watch/com/cache/sparseArray/SparseArray.java:100-111 | delete keeps the invariant and unmaps key. An absent or already-deleted key changes nothing, and deleting a mapped key sets the flag. |
| SparseArrays.SparseArray.Remove | src/main/java/watch/com/cache/sparseArray/SparseArray.java:116-118 | remove is delete. The value cells past the prefix are unchanged. |
| SparseArrays.SparseArray.RemoveAt | src/main/java/watch/com/cache/sparseArray/SparseArray.java:123-128 | removeAt tombstones the cell in place and sets the flag unless the cell already held a tombstone. The cell at index holds the tombstone afterwards. Every other value cell is unchanged. |
| SparseModel.RemoveAtStoreCorrect | src/main/java/watch/com/cache/sparseArray/SparseArray.java:123-128 | removeAt keeps the invariant, changes slot i only, sets the flag exactly when that slot was not yet a tombstone, and unmaps exactly its key. |
| SparseArrays.SparseArray.RemoveAtRange | src/main/java/watch/com/cache/sparseArray/SparseArray.java:136-141 | The loop applies removeAt to every index from index up to `min(mSize, index + size)`, and to nothing for an empty range. The value cells past the prefix are unchanged. |
| SparseModel.RemoveRangeStoreSlots | src/main/java/watch/com/cache/sparseArray/SparseArray.java:136-141 | Exactly the slots in the range become tombstones. Every other slot, the length and the capacity stay as they were. |
| SparseModel.RemoveRangeStoreCorrect | src/main/java/watch/com/cache/sparseArray/SparseArray.java:136-141 | removeAtRange keeps the invariant and unmaps exactly the keys of the slots in the range. |
| SparseArrays.SparseArray.Gc | src/main/java/watch/com/cache/sparseArray/SparseArray.java:143-167 | The new state is `Gc` of the old, the mapping is unchanged, and mSize becomes the number of live mappings. Past the new mSize the keys are unchanged. Between the new and the old mSize a tombstone stays and a moved-from value cell is null, and the value cells past the old mSize are unchanged. |
| SparseModel.GcCorrect | src/main/java/watch/com/cache/sparseArray/SparseArray.java:143-167 | gc removes every tombstone, keeps the live slots in order and paired, leaves as many slots as there are mappings, clears the flag and keeps the invariant. |
| SparseModel.GcIdempotent | src/main/java/watch/com/cache/sparseArray/SparseArray.java:143-167 | Compacting a compacted state changes nothing. |
| SparseArrays.SparseArray.Put | src/main/java/watch/com/cache/sparseArray/SparseArray.java:172-224 | The new state is `PutStore` of the old. key maps to value, and every other key keeps its lookup result. Each array is the old one or a fresh one. |
| SparseArrays.SparseArray.SetValue | src/main/java/watch/com/cache/sparseArray/SparseArray.java:178 | The exact-hit write changes only the value cell at i. |
| SparseArrays.SparseArray.SetCell | src/main/java/watch/com/cache/sparseArray/SparseArray.java:184-185 | The tombstone-reuse write changes only slot i, key and value. |
| SparseArrays.SparseArray.GrowInsert | src/main/java/watch/com/cache/sparseArray/SparseArray.java:198-222 | When the arrays are full they are replaced by fresh ones of length mSize + 1, otherwise kept. Then the prefix becomes the old one with the pair inserted at j, and the garbage flag is unchanged. |
| SparseArrays.SparseArray.PutMiss | src/main/java/watch/com/cache/sparseArray/SparseArray.java:189-222 | The path past the two in-place cases (compact, grow, shift and insert) ends in `PutStore` of the old state. |
| SparseArrays.SparseArray.CompactBeforeInsert | src/main/java/watch/com/cache/sparseArray/SparseArray.java:189-195 | The array is compacted exactly when full with garbage. The mapping is kept, and the second search gives the insertion point in the compacted prefix. |
| SparseArrays.SparseArray.Grow | src/main/java/watch/com/cache/sparseArray/SparseArray.java:198-211 | Fresh arrays of length n hold the old prefix, with the size and the flag unchanged. |
| SparseArrays.SparseArray.InsertCell | src/main/java/watch/com/cache/sparseArray/SparseArray.java:213-222 | After the shift and the write at i, the prefix is the old one with (key, value) inserted at i, one slot longer. |
| SparseModel.PutStoreCorrect | src/main/java/watch/com/cache/sparseArray/SparseArray.java:172-224 | put keeps the invariant (keys ascending, tombstones included, no null, tombstones only with the flag) and maps key to value, with every other key unchanged. |
| SparseModel.PutInPlaceCorrect | src/main/java/watch/com/cache/sparseArray/SparseArray.java:176-186 | An exact hit, which also revives a tombstone, and the reuse of a tombstone at the insertion point both rewrite slot p alone. They keep the invariant and map key to value. |
| SparseModel.PutReusesTombstone | src/main/java/watch/com/cache/sparseArray/SparseArray.java:182-186 | A tombstone at the insertion point gets the new key and value. Every other slot, the slot count and the capacity are unchanged, and nothing shifts. |
| SparseModel.CompactIfFullCorrect | src/main/java/watch/com/cache/sparseArray/SparseArray.java:189-195 | The compaction before an insertion keeps the invariant, the mapping and the insertion bounds for key. |
| SparseModel.PutInsertCorrect | src/main/java/watch/com/cache/sparseArray/SparseArray.java:189-222 | For a new key: compact when full, grow to mSize + 1 when still full, then insert at the insertion point. The result keeps the invariant and maps key to value. |
| SparseModel.InsertKeepsInv | src/main/java/watch/com/cache/sparseArray/SparseArray.java:213-222 | Inserting a new key at its insertion point into arrays with room keeps the invariant. |
| SparseArrays.SparseArray.Tidy | src/main/java/watch/com/cache/sparseArray/SparseArray.java:231-233 | The implicit gc of the index-based queries leaves exactly the live entries, all live, with the mapping unchanged. |
| SparseModel.TidyCorrect | src/main/java/watch/com/cache/sparseArray/SparseArray.java:231-233 | The implicit gc leaves the compacted slots, with no tombstone and the mapping kept, whether or not the flag was set. |
| SparseArrays.SparseArray.Size | src/main/java/watch/com/cache/sparseArray/SparseArray.java:230-236 | size() returns the number of live mappings. |
| SparseModel.SizeIsLiveCount | src/main/java/watch/com/cache/sparseArray/SparseArray.java:230-236 | After the implicit gc, the prefix length is the number of mappings. |
| SparseArrays.SparseArray.KeyAt | src/main/java/watch/com/cache/sparseArray/SparseArray.java:248-254 | It returns the key of the index-th live entry, a mapped key. The live keys are ascending. |
| SparseArrays.SparseArray.ValueAt | src/main/java/watch/com/cache/sparseArray/SparseArray.java:268-274 | It returns the value of the index-th live entry, the value its key maps to. |
| SparseModel.EntryAt | src/main/java/watch/com/cache/sparseArray/SparseArray.java:248-274 | After the implicit gc, entry i is live, the keys are ascending, and valueAt(i) is the value mapped to keyAt(i). |
| SparseArrays.SparseArray.SetValueAt | src/main/java/watch/com/cache/sparseArray/SparseArray.java:281-287 | It rebinds the key of the index-th live entry to value. |
| SparseModel.SetValueAtStoreCorrect | src/main/java/watch/com/cache/sparseArray/SparseArray.java:281-287 | setValueAt keeps the invariant and changes only the mapping of the index-th live key. |
| SparseArrays.SparseArray.IndexOfKey | src/main/java/watch/com/cache/sparseArray/SparseArray.java:294-300 | The result is non-negative exactly when key is mapped, and then it is key's index among the live entries. Otherwise it is the complement of key's insertion point. |
| SparseArrays.SparseArray.IndexOfValue | src/main/java/watch/com/cache/sparseArray/SparseArray.java:312-322 | It returns the first live entry holding the value, or -1 when no live entry holds it. |
| SparseArrays.SparseArray.Clear | src/main/java/watch/com/cache/sparseArray/SparseArray.java:327-337 | clear nulls the value cells of the old prefix and leaves the others. The array is empty, with no garbage and the same arrays. |
| SparseArrays.SparseArray.Append | src/main/java/watch/com/cache/sparseArray/SparseArray.java:343-371 | The new state is `AppendStore` of the old. A key not above the last slot key goes through put. Each array is the old one or a fresh one. |
| SparseArrays.SparseArray.AppendTail | src/main/java/watch/com/cache/sparseArray/SparseArray.java:349-370 | The fast path compacts when full with garbage, grows to the rounded length when still full, and writes at position mSize. |
| SparseArrays.SparseArray.AppendCell | src/main/java/watch/com/cache/sparseArray/SparseArray.java:368-370 | The cells at old mSize get key and value, and mSize grows by one. |
| SparseModel.AppendStoreCorrect | src/main/java/watch/com/cache/sparseArray/SparseArray.java:343-371 | append keeps the invariant and maps key to value. Its mapping equals put's in every case. |
| SparseModel.AppendTailCorrect | src/main/java/watch/com/cache/sparseArray/SparseArray.java:349-370 | For a key above every slot key, append leaves the compacted prefix with (key, value) at its old end. |
| SparseModel.PutThreeKeysAscending | src/main/java/watch/com/cache/sparseArray/SparseArray.java:172-224 | Putting 5, 1, 3 into an empty array lays the keys out as 1, 3, 5. |
| SparseModel.DeleteThenPutRevives | src/main/java/watch/com/cache/sparseArray/SparseArray.java:176-178 | After delete(3) tombstones key 3 (lines 100-111), put(3, w) finds 3 by search and revives the tombstone through the exact-hit branch, with no shift and the same slot count. |
| LruCaches.LruCache.constructor | src/main/java/watch/com/cache/LruCache.java:35-42 | A positive maxSize gives an empty cache with size 0. |
| LruCaches.LruCache.Create | src/main/java/watch/com/cache/LruCache.java:35-42 | Construction fails with IllegalArgumentException exactly when maxSize <= 0. Otherwise it gives the empty cache. |
| LruCaches.LruCache.Get | src/main/java/watch/com/cache/LruCache.java:45-58 | get returns the mapped value or nothing. The mapping and the size are unchanged, a hit becomes most recent, and consistency of the size is preserved. |
| LruModel.GetOpCorrect | src/main/java/watch/com/cache/LruCache.java:45-58 | On a hit the entry moves to the most-recent end. The mapping, the entry count, the size and maxSize are unchanged. |
| LruModel.BumpCorrect | src/main/java/watch/com/cache/LruCache.java:51 | A read of the access-ordered map reorders only, and only on a hit. |
| LruCaches.LruCache.Put | src/main/java/watch/com/cache/LruCache.java:61-78 | The new state and the result are `PutOp` of the old state. With non-negative costs and a consistent size, put returns normally, stays consistent and leaves size <= maxSize. |
| LruModel.PutEntryCorrect | src/main/java/watch/com/cache/LruCache.java:69 | A write of the access-ordered map maps key to value, keeps every other mapping and the key distinctness, and puts the entry last. |
| LruModel.PutOpCorrect | src/main/java/watch/com/cache/LruCache.java:61-78 | put keeps keys distinct and maxSize. A negative cost for the new entry throws before any change, and a normal return yields the previous value. |
| LruModel.PutOpRejectsPrevious | src/main/java/watch/com/cache/LruCache.java:69-72 | A negative cost for the replaced entry throws after the new entry was stored and its cost added. |
| LruModel.PutOpTrims | src/main/java/watch/com/cache/LruCache.java:66-75 | Before trimming, key maps to value at the most-recent end and size is size + cost(new) - cost(previous). put ends where trimToSize leaves that state, and throws exactly when trimToSize does. |
| LruModel.PutKeepsNewest | src/main/java/watch/com/cache/LruCache.java:61-97 | After a normal put, the new entry is the most recent and maps key to value, unless trimming emptied the cache. |
| LruModel.SafeSizeOf | src/main/java/watch/com/cache/LruCache.java:125-131 | It fails with IllegalStateException exactly when sizeOf is negative. Otherwise it returns sizeOf. |
| LruCaches.LruCache.TrimToSize | src/main/java/watch/com/cache/LruCache.java:80-97 | The while(true) loop ends in the state `Trim` computes, with its exception. With non-negative costs and a consistent size it returns normally, stays consistent and leaves size <= maxSize. |
| LruModel.TrimCorrect | src/main/java/watch/com/cache/LruCache.java:80-97 | trimToSize evicts only from the eldest end: what remains is a suffix. Size drops by exactly the listed cost of the evicted prefix, and maxSize is unchanged. |
| LruModel.TrimOutcome | src/main/java/watch/com/cache/LruCache.java:83-90 | It throws exactly when it stops at a negative size, or at an empty map with a non-zero size. A normal return has size >= 0, and size <= maxSize or an empty map. |
| LruModel.TrimMinimal | src/main/java/watch/com/cache/LruCache.java:81-96 | Each eviction happened while size was non-negative and above maxSize, so trimming stops at the first point it may. |
| LruModel.TrimBound | src/main/java/watch/com/cache/LruCache.java:83-90 | With a positive maxSize, a normal return leaves 0 <= size <= maxSize. |
| LruModel.RemoveKeyCorrect | src/main/java/watch/com/cache/LruCache.java:95 | `map.remove` unmaps exactly the key, keeps the other entries in order and keeps keys distinct. |
| LruCaches.LruCache.Remove | src/main/java/watch/com/cache/LruCache.java:100-114 | The new state and the result are `RemoveOp` of the old state. It returns the mapped value, the mapping is unchanged, and size - totalCost drops by the hit's cost. |
| LruModel.RemoveOpCorrect | src/main/java/watch/com/cache/LruCache.java:100-114 | remove as written returns the mapped value and subtracts its cost from size. Every entry stays, and the hit becomes most recent. |
| LruCaches.LruCache.Clear | src/main/java/watch/com/cache/LruCache.java:117-122 | The new state is `ClearOp` of the old: no mapping, and size 0 equals the (empty) total cost. |
| LruModel.ClearOp | src/main/java/watch/com/cache/LruCache.java:117-122 | clear leaves no entries, size 0 and the same maxSize. |
| LruModel.DefaultCostCounts | src/main/java/watch/com/cache/LruCache.java:133-143 | With the default sizeOf, the total listed cost of the entries is their number, so a consistent size counts entries and maxSize bounds their number. |
| LruModel.TotalCostRemove | src/main/java/watch/com/cache/LruCache.java:95 | Unmapping a key lowers the total listed cost by exactly that key's cost, and leaves it unchanged for an absent key. |
| LruModel.BumpCost | src/main/java/watch/com/cache/LruCache.java:51 | Reordering on access leaves the total listed cost unchanged. |
| LruModel.TrimKeepsAccounting | src/main/java/watch/com/cache/LruCache.java:80-97 | With non-negative costs and size equal to the total cost, trimToSize returns normally, keeps size equal to the total cost, and leaves 0 <= size <= maxSize. |
| LruModel.PutKeepsAccounting | src/main/java/watch/com/cache/LruCache.java:61-78 | With non-negative costs and size equal to the total cost, put never throws, keeps size equal to the total cost of the resident entries, and leaves 0 <= size <= maxSize. |
| LruModel.GetKeepsAccounting | src/main/java/watch/com/cache/LruCache.java:45-58 | get leaves the total listed cost unchanged, so size equals it after get exactly when it did before. |
| LruModel.RemoveBreaksAccounting | src/main/java/watch/com/cache/LruCache.java:100-114 | remove as written lowers size - totalCost by the hit's cost: a consistent cache becomes inconsistent after removing an entry of positive cost, and a miss changes nothing. |
| LruModel.EvictsEldest | src/main/java/watch/com/cache/LruCache.java:93-95 | With sizeOf = 1 and maxSize 2, putting keys 1, 2, 3 evicts key 1 and keeps 2 and 3 in order, with size 2. |
| LruModel.OversizedEntryEvicted | src/main/java/watch/com/cache/LruCache.java:81-96 | A single entry costing more than maxSize is evicted too: the cache ends empty and put returns normally. |
| LruModel.RemoveTwiceThenPutThrows | src/main/java/watch/com/cache/LruCache.java:105-113 | Two removes of a cost-1 entry leave it resident with size -1. Putting that key again throws from trimToSize. |

## Left out

- Synchronisation: the `synchronized` blocks and methods are not modelled. All operations are sequential.
- `DEFAULT_CACHE_SIZE` and the no-argument LruCache constructor: they depend on the JVM's maximum memory, so `maxSize` is always a parameter.
- Both `toString` methods: string formatting of arbitrary objects.
- LinkedHashMap internals (hashing, load factor, buckets): the map is a recency-ordered sequence.
- `super.clone()` and `CloneNotSupportedException`: only the fresh copy of both arrays is modelled.
- Cache.java: an interface with no behaviour.
- LruCache's null checks: the NullPointerException that `get`, `put` and `remove` throw for a null key or value (LruCache.java:46-48, 62-64 and 101-103) is not modelled. `K` and `V` are free type parameters, so with a nullable `V` the model's `Put(k, null)` succeeds where the code throws. A null from `mMap.get` is a miss, modelled as `None`.
- SparseArray has no null checks: a null value is an ordinary value of `E`, held as `Live(null)` for a nullable `E`, and `indexOfValue(null)` finds it. `get(key)` is `get(key, null)` (SparseArray.java:79-81) and is not a separate operation.
- The rounding of `ArrayUtils.idealIntArraySize`: its source is not part of this model. The rounded length is the argument `ideal`, assumed large enough.
- The body of `ContainerHelpers.binarySearch`: its source is not part of this model. `SparseArrays.BinarySearch` is a search with the contract its callers use.
- Java `int` width: integers are unbounded. This covers the overflow of `index + size` in `removeAtRange`, of `mSize + 1`, and of the running cache size.
- SparseArrays.SparseArray.Default: takes the rounded capacity as `ideal` with `10 <= ideal` rather than computing it.
- SparseArrays.SparseArray.constructor: a negative initialCapacity is not modelled, because what happens then depends on `ArrayUtils.idealIntArraySize` (SparseArray.java:55), whose source is not part of this model.
- SparseArrays.SparseArray.Put: the cells past the new prefix are not specified. They depend on whether put compacted, shifted or grew, and only their identity as old or fresh arrays is stated.
- SparseArrays.SparseArray.Append: the cells past the new prefix are not specified, for the same reason as put's.
- SparseArrays.SparseArray.Append: requires `ideal` to exceed the size before the call. The code needs it only to exceed the size after a possible gc, so this is slightly stronger.
- SparseArrays.SparseArray.Append: its ensures gives the new state as `AppendStore` only. That the mapping becomes `old[key := value]`, the same as put's, is the separate lemma `SparseModel.AppendStoreCorrect`.
- SparseArrays.SparseArray.RemoveAt: requires `index < mKeys.length`, and `index` is a `nat`, so a negative index is excluded too. The Java code throws ArrayIndexOutOfBoundsException at SparseArray.java:124 in both cases, which is not modelled. An index between mSize and the array length is accepted and, as in the code, sets the flag.
- SparseArrays.SparseArray.RemoveAtRange: requires `0 <= index` when the range is non-empty, since a negative index throws in Java.
- SparseArrays.SparseArray.KeyAt: requires `index < size()`. The code reads `mKeys[index]` unchecked, returning a stale key past the prefix or throwing past the array.
- SparseArrays.SparseArray.ValueAt: requires `index < size()`, for the same unchecked read as keyAt.
- SparseArrays.SparseArray.SetValueAt: requires `index < size()`. A write past the prefix is not modelled.
- SparseArrays.SparseArray.IndexOfValue: the identity comparison `==` on values is modelled as equality of values.
- LruCaches.LruCache.Create: returns the failure instead of throwing. The constructor itself requires `maxSize > 0`.
- LruModel.TrimCorrect: a sizeOf whose result changes over time for the same entry is not modelled, because `cost` is a pure function. With a pure `cost`, the accounting lemmas show that only negative costs or `remove` can make the size differ from the total listed cost.
