# Open-addressing hash table, two variants

A model of `py-hashtable`: a hash table that stores key-value entries in a
Python list of slots, resolves collisions by linear probing, and grows by a
full rebuild. There are two variants.

- `hashtable.py`, the baseline. Probing is unbounded, and `grow` doubles
  the capacity.
- `hashtable_smart_collisions.py`, the bounded-miss variant. The
  constructor checks `max_density`, and `grow` goes to `2 * capacity + 1`.
  `_find_empty` grows the table in the middle of an insertion once that
  insertion has missed more than `MAX_MISS_COUNT = 3` times. It then probes
  again from the key's new natural index.

The model follows the code as written, quirks included:

- probing does not wrap around: stepping past the end of the list raises
  `IndexError`;
- `put` never looks for an existing entry with the same key;
- `grow` keeps `size`, so every re-put entry is counted again;
- `delete` is Python's `del list[i]`: the list gets shorter and the later
  slots move down one place.

## Layout

| file | module | contents |
|---|---|---|
| `wrappers.dfy` | `Wrappers` | `Option`, the Python exceptions (`PyError`), and `Result` = normal return, raised exception, or out of fuel |
| `slots.dfy` | `Slots` | The parts that are the same code in both files: the entry record, the state `Table(size, capacity, slots)`, Python's `%`, `_hash_fn`, `_check_capacity`, `_over_capacity`, `_find_existing`, `get` and `delete`, plus lemmas about the stored entries |
| `hashtable_model.dfy` | `HashtableModel` | `_find_empty`, `grow` and `put` of the baseline as functions of the state, with lemmas |
| `hashtable.dfy` | `Hashtable` | class `HashTable` of the baseline. Its fields are `size`, `capacity` and `table`. Each method, with its loops, is proved to produce the state and outcome that the model functions compute |
| `hashtable_smart_collisions_model.dfy` | `HashtableSmartCollisionsModel` | the same for the bounded-miss variant, plus the miss-bounded probe |
| `hashtable_smart_collisions.dfy` | `HashtableSmartCollisions` | class `HashTable` of the bounded-miss variant |

`put`, `grow` and (in the bounded-miss variant) `_find_empty` call one
another. `grow` re-puts entries, and a re-put may grow again. With a
degenerate hash, this need not end. Every one of these operations therefore
takes a `fuel` argument, which bounds how deeply grows may nest and how often
`_find_empty` may restart. A grow that would need more fuel returns
`OutOfFuel` and leaves the state as it is at that point. When an exception
is raised, the state is returned as the code leaves it at that moment
(for example, `capacity` already changed by a `grow` whose re-puts then
failed).

## Model

| member | source | states |
|---|---|---|
| `Slots.Nones` | hashtable.py:9 | `[None for x in xrange(c)]`: `c` empty slots, and none at all when `c` is not positive |
| `Slots.PyMod` | hashtable.py:12 | Python's `%` takes the sign of the divisor: for a positive divisor the result lies in `[0, b)`, for a negative one in `(b, 0]`, and in both cases `a - r` is a multiple of `b` |
| `Slots.HashIndex` | hashtable.py:11-12 | `_hash_fn` (the same code as at hashtable_smart_collisions.py:16-17) raises ZeroDivisionError exactly when `capacity` is 0; for a positive capacity the natural index lies in `[0, capacity)` |
| `Slots.Load` | hashtable.py:14-19 | `_check_capacity` raises ZeroDivisionError exactly when `capacity` is 0; otherwise `load * capacity == size` |
| `Slots.OverCapacity` | hashtable.py:21-25 | `_over_capacity` raises ZeroDivisionError exactly when `capacity` is 0; for a positive capacity it is true exactly when `size >= max_density * capacity` |
| `Slots.FirstMatchFrom` | hashtable.py:77-90 | The `_find_existing` loop. If it finds index `j`, then `j` is at or after the start, slot `j` holds the key, and every slot before it holds another key. If it returns not-found, an empty slot comes first. It raises IndexError exactly when every slot to the end of the list holds another key |
| `Slots.FirstMatchStops` | hashtable.py:82-88 | The `_find_existing` walk stops at the first slot, past other keys' entries, that is empty (not found) or holds the key (that index) |
| `Slots.Get` | hashtable.py:92-101 | A value that `get` returns is stored with that key in a slot of the table |
| `Slots.GetAt` | hashtable.py:92-101 | Suppose slot `j` holds `(k, v)` and only other keys' entries lie between the natural index and `j`. Then `get(k)` returns `v` |
| `Slots.GetMissing` | hashtable.py:92-101 | Suppose an empty slot is reached from the natural index past only other keys' entries. Then `get` raises KeyError |
| `Slots.Delete` | hashtable.py:103-110 | `delete` never changes `capacity` |
| `Slots.DeleteShifts` | hashtable.py:103-110 | At the found index `j`, the list loses one element, the slots before `j` stay, the later ones move down one place, and `size` drops by exactly 1 |
| `Slots.DeleteMatchesGet` | hashtable.py:103-110 | If `get` raises KeyError, `delete` changes nothing. If `get` returns `v`, `delete` removes exactly the stored entry `(k, v)`, shortens the list by one and decrements `size`. Any other exception of the lookup propagates unchanged |
| `Slots.OccupiedWrite` | hashtable.py:52 | Writing an entry into an empty slot adds exactly that entry to the stored entries |
| `Slots.FindExisting` | hashtable.py:70-90 | `_find_existing`: the `FirstMatchFrom` walk from the natural index, or ZeroDivisionError from `_hash_fn`. Its properties are stated through `Slots.Get`, `Slots.GetAt` and `Slots.GetMissing` |
| `Slots.OccupiedRemove` | hashtable.py:109 | `del table[i]` on an occupied slot removes exactly that slot's entry from the stored entries |
| `Slots.ReachableWrite` | hashtable.py:50-52 | Writing an entry into the empty slot a probe from its natural index reaches past occupied slots keeps every entry reachable from its natural index |
| `Slots.GetMapsTo` | hashtable.py:92-101 | In a table where every entry is reachable from its natural index, `get(k)` returns the one value stored under `k` |
| `HashtableModel.FirstEmptyFrom` | hashtable.py:60-68 | The `_find_empty` loop returns the first empty slot at or after the start. Every slot it skipped is occupied. It raises IndexError exactly when every slot to the end of the list is occupied, because there is no wraparound |
| `HashtableModel.FindEmpty` | hashtable.py:56-68 | An index returned by `_find_empty` is in range and its slot is empty |
| `HashtableModel.PrePut` | hashtable.py:46-50 | The slot `put` is about to write (after any grow) is in range and empty |
| `HashtableModel.PrePutFacts` | hashtable.py:46-50 | Growing before the probe never lowers `capacity` and keeps the stored entries. The index found lies at or after the key's natural index in the grown table, and the slots in between are occupied |
| `HashtableModel.PutFacts` | hashtable.py:41-54 | `put` never lowers `capacity` (from a non-negative one). A normal return stores exactly the old entries plus `(k, v)` (as a multiset) and raises `size` by at least 1 |
| `HashtableModel.GrowFacts` | hashtable.py:27-39 | The new `capacity` is at least twice the old one, and it is the old one times `2^n` for some `n >= 1` (nested grows in the re-puts double it again). `GrowEmpty` and `GrowDoublesOnce` pin the single step to exactly `2 * capacity`. A normal return keeps the stored entries (as a multiset) and adds at least one to `size` per re-put entry, since `size` is never reset |
| `HashtableModel.ReinsertFacts` | hashtable.py:37-39 | The re-put loop adds exactly the entries of the old slots it visits and one unit of `size` (at least) for each |
| `HashtableModel.GrowCountsTwice` | hashtable.py:27-39 | Suppose `size` counted the stored entries. After a normal `grow`, it is at least twice their number, and `capacity` is at least doubled |
| `HashtableModel.PutGrowsIffOver` | hashtable.py:46-47 | `put` raises `capacity` exactly when `size >= max_density * capacity` (and the fuel allows a grow) |
| `HashtableModel.PutWithoutGrowth` | hashtable.py:41-68 | Below the density, `put` succeeds exactly when some slot from the natural index to the end of the list is empty. It then writes `(k, v)` into the first such slot and adds one to `size`. Otherwise it raises IndexError and leaves the table unchanged |
| `HashtableModel.PutThenGet` | hashtable.py:41-54 | A successful `put(k, v)` of a key not stored before, followed by `get(k)`, returns `v`, whatever growth happened |
| `HashtableModel.PutKeepsDuplicate` | hashtable.py:41-54 | A `put` of an already stored key keeps the old entry as well as the new one: nothing is overwritten |
| `HashtableModel.Grow` | hashtable.py:27-39 | `grow` as a function: capacity doubled, `capacity` empty slots, then `Reinsert` of the old slots. Its properties are in `GrowFacts`, `GrowScales` and `GrowReach` |
| `HashtableModel.Reinsert` | hashtable.py:37-39 | The `for entry in old_table` loop from slot `i` on: `put` of each occupied slot, stopping at the first `put` that does not return normally. Its properties are in `ReinsertFacts` and `ReinsertReach` |
| `HashtableModel.Put` | hashtable.py:41-54 | `put` as a function: `PrePut`, then the entry written into the found slot and `size + 1`. Its properties are in `PutFacts`, `PutGrowsIffOver`, `PutWithoutGrowth` and `PutThenGet` |
| `HashtableModel.GrowScales` | hashtable.py:32 | After `grow`, normal or not, `capacity` is `2^n * capacity` for some `n >= 1`. This bounds the factor but does not fix `n`; the next two rows fix it |
| `HashtableModel.GrowEmpty` | hashtable.py:27-39 | For a table whose slots are all empty, `grow` returns normally with exactly `size` kept, `capacity` `2 * capacity` and `2 * capacity` empty slots |
| `HashtableModel.ReinsertBelowDensity` | hashtable.py:37-39 | While `size` plus the entries still to re-put stays within `max_density * capacity` of the new table, no re-put reaches the density, so the loop leaves `capacity` unchanged |
| `HashtableModel.GrowDoublesOnce` | hashtable.py:27-39 | When the old `size` plus the number of stored entries is at most `max_density * 2 * capacity`, `grow` ends with `capacity` exactly `2 * capacity`, whether or not its re-puts succeed |
| `HashtableModel.ReinsertNothing` | hashtable.py:37-39 | The re-put loop over empty slots only returns normally and changes nothing |
| `HashtableModel.PutScales` | hashtable.py:46-47 | After `put`, `capacity` is `2^n * capacity` for some `n >= 0` |
| `HashtableModel.GrowReach` | hashtable.py:27-39 | Whatever the old table, after a normal `grow` every entry is reachable from its natural index past occupied slots only |
| `HashtableModel.PutReach` | hashtable.py:41-54 | A normal `put` into a table where every entry is reachable keeps every entry reachable |
| `HashtableModel.PutKeepsMappings` | hashtable.py:41-54 | A normal `put(k, v)` keeps the table reachable. It maps `k` to `v` when `k` was not stored, and keeps every other key's value and every other key's absence |
| `HashtableModel.GrowKeepsGet` | hashtable.py:27-39 | After a normal `grow`, `get` returns the value that each key was stored with before the grow |
| `HashtableModel.PutAllMaps` | hashtable.py:41-54 | `put` of entries with distinct keys, none stored before, into a reachable table: afterwards the table is reachable and each key maps to its value |
| `HashtableModel.PutAllThenGet` | hashtable.py:41-101 | `put` of entries with distinct keys into a new table, then `get` of each key, returns the value put, whatever growth happened |
| `Hashtable.HashTable.constructor` | hashtable.py:4-9 | `size` is 0, `capacity` is stored, and the table has `capacity` empty slots. Any density is accepted |
| `Hashtable.HashTable.FindEmpty` | hashtable.py:56-68 | Its loop returns what `HashtableModel.FindEmpty` computes |
| `Hashtable.HashTable.FindExisting` | hashtable.py:70-90 | Its loop returns what `Slots.FindExisting` computes |
| `Hashtable.HashTable.Get` | hashtable.py:92-101 | Returns `Slots.Get` of the current state and changes nothing |
| `Hashtable.HashTable.Delete` | hashtable.py:103-110 | The new state and outcome are `Slots.Delete` of the old state |
| `Hashtable.HashTable.Grow` | hashtable.py:27-39 | The new state and outcome are `HashtableModel.Grow` of the old state: capacity doubled, then every old entry re-put in slot order |
| `Hashtable.HashTable.Put` | hashtable.py:41-54 | The new state and outcome are `HashtableModel.Put` of the old state |
| `HashtableSmartCollisionsModel.Init` | hashtable_smart_collisions.py:6-14 | The constructor raises AssertionError exactly when `max_density` is not strictly between 0 and 1. Otherwise `size` is 0, `capacity` is stored, and the table has `capacity` empty slots |
| `HashtableSmartCollisionsModel.Probe` | hashtable_smart_collisions.py:66-81 | An index the miss-bounded loop returns is in range and its slot is empty |
| `HashtableSmartCollisionsModel.Restart` | hashtable_smart_collisions.py:70-76 | An index returned after the grow-and-restart branch is in range and its slot is empty |
| `HashtableSmartCollisionsModel.FindEmpty` | hashtable_smart_collisions.py:57-81 | An index returned by `_find_empty` is in range of the table as it is after any mid-probe growth, and its slot is empty |
| `HashtableSmartCollisionsModel.PrePut` | hashtable_smart_collisions.py:47-51 | The slot `put` is about to write (after every grow) is in range and empty |
| `HashtableSmartCollisionsModel.ProbeFacts` | hashtable_smart_collisions.py:66-81 | The probe never lowers `capacity`. A normal return keeps the stored entries and does not lower `size` |
| `HashtableSmartCollisionsModel.RestartFacts` | hashtable_smart_collisions.py:70-76 | The restart branch, when it has fuel, sets `capacity` to at least `2 * capacity + 1`. A normal return keeps the stored entries |
| `HashtableSmartCollisionsModel.FindEmptyFacts` | hashtable_smart_collisions.py:57-81 | `_find_empty` never lowers `capacity`. A normal return keeps the stored entries |
| `HashtableSmartCollisionsModel.PrePutFacts` | hashtable_smart_collisions.py:47-51 | The grow before the probe and the probe itself never lower `capacity`, and keep the stored entries on a normal return |
| `HashtableSmartCollisionsModel.PutFacts` | hashtable_smart_collisions.py:46-55 | `put` never lowers `capacity`. A normal return stores exactly the old entries plus `(k, v)` and raises `size` by at least 1 |
| `HashtableSmartCollisionsModel.GrowFacts` | hashtable_smart_collisions.py:32-44 | The new `capacity` is at least `2 * capacity + 1`, and it is the old one with `c := 2 * c + 1` applied `n >= 1` times (nested grows apply it again). `GrowEmpty` pins the single step to exactly `2 * capacity + 1`. A normal return keeps the stored entries and adds at least one to `size` per re-put entry |
| `HashtableSmartCollisionsModel.ReinsertFacts` | hashtable_smart_collisions.py:42-44 | The re-put loop adds exactly the entries of the old slots it visits and at least one unit of `size` for each |
| `HashtableSmartCollisionsModel.GrowCountsTwice` | hashtable_smart_collisions.py:32-44 | Suppose `size` counted the stored entries. After a normal `grow`, it is at least twice their number, and `capacity` has strictly increased |
| `HashtableSmartCollisionsModel.ProbePlaced` | hashtable_smart_collisions.py:64-81 | Suppose the probe started at the natural index and has stepped over `miss` occupied slots. Then the index it returns is at most `MAX_MISS_COUNT` past the natural index in the final table, with only occupied slots in between |
| `HashtableSmartCollisionsModel.RestartPlaced` | hashtable_smart_collisions.py:70-76 | After a restart, the index returned is again at most `MAX_MISS_COUNT` past the new natural index |
| `HashtableSmartCollisionsModel.PrePutPlaced` | hashtable_smart_collisions.py:47-51 | The slot `put` writes lies at most `MAX_MISS_COUNT` past the key's natural index in the final table |
| `HashtableSmartCollisionsModel.PutWritesNearHome` | hashtable_smart_collisions.py:46-81 | After a normal `put`, the entry `(k, v)` sits at most `MAX_MISS_COUNT` slots past its natural index, and every slot in between is occupied |
| `HashtableSmartCollisionsModel.PutGrowsWhenOver` | hashtable_smart_collisions.py:47-48 | When `size >= max_density * capacity`, `put` grows before probing, to a capacity of at least `2 * capacity + 1` |
| `HashtableSmartCollisionsModel.ProbeStops` | hashtable_smart_collisions.py:66-81 | Suppose the first empty slot lies within the miss bound. Then the probe returns it without growing |
| `HashtableSmartCollisionsModel.ProbeSkips` | hashtable_smart_collisions.py:66-79 | While misses remain, the probe steps over occupied slots one by one, counting one miss for each |
| `HashtableSmartCollisionsModel.ProbeRunsOffEnd` | hashtable_smart_collisions.py:78-79 | No wraparound: suppose the occupied slots from the natural index run to the end of the list, and there are no more of them than the miss bound. Then `_find_empty` raises IndexError |
| `HashtableSmartCollisionsModel.PutWithoutGrowth` | hashtable_smart_collisions.py:46-81 | Below the density, with an empty slot within the miss bound, `put` writes `(k, v)` into the first such slot, adds one to `size` and keeps `capacity` |
| `HashtableSmartCollisionsModel.MissesTriggerGrowth` | hashtable_smart_collisions.py:66-76 | Suppose the slot at the natural index and the three after it are all occupied. That makes four misses, one more than `MAX_MISS_COUNT`. Then `_find_empty` grows the table (unless the fuel is spent) rather than step further |
| `HashtableSmartCollisionsModel.PutThenGet` | hashtable_smart_collisions.py:46-55 | A successful `put(k, v)` of a key not stored before, followed by `get(k)`, returns `v`, whatever growth happened during the put |
| `HashtableSmartCollisionsModel.PutKeepsDuplicate` | hashtable_smart_collisions.py:46-55 | A `put` of an already stored key keeps both entries |
| `HashtableSmartCollisionsModel.Grow` | hashtable_smart_collisions.py:32-44 | `grow` as a function: capacity `2 * capacity + 1`, that many empty slots, then `Reinsert` of the old slots. Its properties are in `GrowFacts`, `GrowScales` and `GrowReach` |
| `HashtableSmartCollisionsModel.Reinsert` | hashtable_smart_collisions.py:42-44 | The `for entry in old_table` loop from slot `i` on: `put` of each occupied slot, stopping at the first `put` that does not return normally. Its properties are in `ReinsertFacts` and `ReinsertReach` |
| `HashtableSmartCollisionsModel.Put` | hashtable_smart_collisions.py:46-55 | `put` as a function: `PrePut` (which may grow twice over), then the entry written into the found slot and `size + 1`. Its properties are in `PutFacts`, `PutWritesNearHome`, `PutWithoutGrowth` and `PutThenGet` |
| `HashtableSmartCollisionsModel.GrowScales` | hashtable_smart_collisions.py:37 | After `grow`, normal or not, `capacity` is the old one with `c := 2 * c + 1` applied `n >= 1` times. This bounds the growth but does not fix `n`; the next row fixes it |
| `HashtableSmartCollisionsModel.GrowEmpty` | hashtable_smart_collisions.py:32-44 | For a table whose slots are all empty, `grow` returns normally with exactly `size` kept, `capacity` `2 * capacity + 1` and that many empty slots |
| `HashtableSmartCollisionsModel.ReinsertNothing` | hashtable_smart_collisions.py:42-44 | The re-put loop over empty slots only returns normally and changes nothing |
| `HashtableSmartCollisionsModel.RestartScales` | hashtable_smart_collisions.py:70-76 | The grow of the restart branch changes `capacity` only by steps `c := 2 * c + 1` |
| `HashtableSmartCollisionsModel.PutScales` | hashtable_smart_collisions.py:46-55 | After `put`, with grows before and during the probe, `capacity` is the old one with `c := 2 * c + 1` applied `n >= 0` times |
| `HashtableSmartCollisionsModel.GrowReach` | hashtable_smart_collisions.py:32-44 | Whatever the old table, after a normal `grow` every entry is reachable from its natural index past occupied slots only |
| `HashtableSmartCollisionsModel.RestartReach` | hashtable_smart_collisions.py:70-76 | After the mid-probe grow and restart, the table is reachable whatever it was before |
| `HashtableSmartCollisionsModel.PutReach` | hashtable_smart_collisions.py:46-55 | A normal `put` into a reachable table keeps it reachable, through either grow site |
| `HashtableSmartCollisionsModel.PutKeepsMappings` | hashtable_smart_collisions.py:46-55 | A normal `put(k, v)` keeps the table reachable. It maps `k` to `v` when `k` was not stored, and keeps every other key's value and every other key's absence |
| `HashtableSmartCollisionsModel.GrowKeepsGet` | hashtable_smart_collisions.py:32-44 | After a normal `grow`, `get` returns the value that each key was stored with before the grow |
| `HashtableSmartCollisionsModel.PutAllMaps` | hashtable_smart_collisions.py:46-55 | `put` of entries with distinct keys, none stored before, into a reachable table: afterwards the table is reachable and each key maps to its value |
| `HashtableSmartCollisionsModel.PutAllThenGet` | hashtable_smart_collisions.py:46-111 | `put` of entries with distinct keys into a new table, then `get` of each key, returns the value put, whatever growth happened, including mid-probe growth |
| `HashtableSmartCollisions.HashTable.constructor` | hashtable_smart_collisions.py:6-14 | The constructor when its assertion holds: the state is the one `Init` computes |
| `HashtableSmartCollisions.HashTable.Create` | hashtable_smart_collisions.py:6-14 | Either AssertionError, exactly when `Init` raises, or a fresh table whose state is the one `Init` computes |
| `HashtableSmartCollisions.HashTable.FindEmpty` | hashtable_smart_collisions.py:57-81 | The loop keeps the miss count between 0 and `MAX_MISS_COUNT`, grows and restarts past it, and leaves the state and outcome that `HashtableSmartCollisionsModel.FindEmpty` computes |
| `HashtableSmartCollisions.HashTable.FindExisting` | hashtable_smart_collisions.py:83-103 | Its loop returns what `Slots.FindExisting` computes |
| `HashtableSmartCollisions.HashTable.Get` | hashtable_smart_collisions.py:105-111 | Returns `Slots.Get` of the current state and changes nothing |
| `HashtableSmartCollisions.HashTable.Delete` | hashtable_smart_collisions.py:113-120 | The new state and outcome are `Slots.Delete` of the old state |
| `HashtableSmartCollisions.HashTable.Grow` | hashtable_smart_collisions.py:32-44 | The new state and outcome are `HashtableSmartCollisionsModel.Grow` of the old state |
| `HashtableSmartCollisions.HashTable.Put` | hashtable_smart_collisions.py:46-55 | The new state and outcome are `HashtableSmartCollisionsModel.Put` of the old state |

## Quirks of the code

- The probe does not wrap around the end of the list. Stepping past the
  last slot raises IndexError.
- `grow` keeps `size`, and every re-put increments it. So `size` runs
  ahead of the number of stored entries (`GrowCountsTwice`).
- `delete` removes the list element. The list gets shorter, and the later
  entries move one place away from where their probe reaches them. The
  retrieval lemmas (`PutKeepsMappings`, `GrowKeepsGet`, `PutAllThenGet`)
  therefore cover sequences of `put` and `grow` only.
- Nothing keeps `size` below `capacity`. In the baseline, a `put` whose
  probe meets only occupied slots up to the end of the list raises
  IndexError (`PutWithoutGrowth`). In the bounded-miss variant this
  happens when such a run is no longer than `MAX_MISS_COUNT`
  (`ProbeRunsOffEnd`).

## Left out

- Python's built-in `hash` is a parameter: a total function `hash: K -> int`, fixed when the table is built.
- `max_density` is a Dafny `real`, an exact rational, instead of a Python float. `_check_capacity` is exact division, with no rounding.
- The bounded-miss constructor also asserts `type(max_density) == float`. The model has no float type, so this part of the check is not modelled.
- Exceptions are `Result` values. A raised exception is returned together with the state of the object at that moment. Python's unwinding is not modelled further.
- Memory exhaustion and non-termination from runaway regrowth are replaced by the `fuel` bound and the `OutOfFuel` outcome. The model does not prove that the Python code terminates.
- The unused locals `use` (hashtable.py:18, hashtable_smart_collisions.py:23) and `old_capacity` (hashtable.py:31, hashtable_smart_collisions.py:36) have no effect and are not modelled. Neither is the empty `reshuffle` (hashtable_smart_collisions.py:123-124).
- Python's negative list indices are not modelled. An index the code computes is negative only when `capacity` is negative, and then the list is empty (the `Valid` invariant of both classes), so Python raises IndexError there as the model does.
- `HashtableModel.PutFacts`: gives only a lower bound on the growth of `size`, because nested grows add one unit for every re-put. The exact value is fixed by `HashtableModel.Put`, which `Hashtable.HashTable.Put` is proved to follow.
- `HashtableSmartCollisionsModel.PutFacts`: the same lower bound on `size`, for the same reason.
- `HashtableModel.GrowFacts`: says nothing about the stored entries after an exception or `OutOfFuel` in the middle of re-putting, when entries not yet re-put are lost. The same holds for `HashtableSmartCollisionsModel.GrowFacts`.
- `get` of a missing key raises KeyError with the message `"Key %s not in this table" % key` (hashtable.py:101, hashtable_smart_collisions.py:111). For a tuple key whose length is not 1, building that message raises TypeError instead. The model has no string formatting and assumes every key formats with `%s`, so `Slots.Get` and `Slots.GetMissing` give KeyError for every missing key.
- Keys are Dafny values compared with `==`, which is reflexive, and `hash` is a function of the key's value. Python compares keys with `cand.key == target_key` (hashtable.py:80, hashtable_smart_collisions.py:93), which a key type may define otherwise. For example, `float('nan')` is not equal to itself, so `put(nan, v)` followed by `get(nan)` does not find the entry in Python. `PutThenGet`, `GetMapsTo` and the other retrieval lemmas assume keys whose `==` is reflexive and agrees with `hash`.
- The reachability lemmas (`PutReach`, `GrowReach` and the lemmas built on them) require a non-negative `capacity`, as the fact lemmas do. With a negative capacity the list is empty and every put raises IndexError, so there is nothing to retrieve.
- The bounded-miss constructor is an ordinary constructor that requires a valid density, together with the static method `Create`, which raises AssertionError otherwise. The baseline constructor keeps the source's default `capacity` and `max_density`. The bounded-miss variant has its defaults on `Create`.
