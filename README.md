# Open-addressing associative array (aalib)

This project models the core of the `aalib` library. The library is an
associative array over byte-string keys, stored in a fixed-size array of
slots. It uses open addressing and tombstones. Each slot is empty, used
(holds a key and a value), or deleted. A deleted slot is a tombstone: it
keeps its old key and value, but only as garbage.

A table fixes three things when it is created:
- a primary hash, which gives the slot where the search starts;
- a secondary hash, which gives the step of double hashing;
- a probing strategy: linear (step 1), quadratic (start + k²) or double
  hashing (start + k·step).

Each strategy is chosen by the first three letters of its name.

Insert, lookup and delete all start a probe at the key's primary hash. The
probe stops at one of three slots:
- a live slot holding the key;
- an empty slot;
- a tombstone, but only in insert mode.

It gives up with -1 once its strategy's bound is reached. Each slot it
examines adds one unit to the table's insert, search or delete cost counter.

The model is split into modules:

- `Types`: bytes, keys, `Option` and the three slot states.
- `HashFunctions`: key comparison, the length hash, the byte-sum hash (the
  same loop as the C, proved against a specification function), and the
  dispatch on the hash algorithm.
- `Probing`: the three probe loops as methods over the slot array.
  - `Probe` is the one function that specifies all three.
  - `Walk` is the step-by-step walk that `Probe` is built from.
  - `ProbeIndex` and `ProbeBound` give each strategy's candidate slots and
    its bound. Closed forms for the candidate indices are proved separately
    (`StepIndexClosedForm`, `QuadraticIndexClosedForm`). The double-hash
    bound is the first return to the start slot (`ReturnTime`).
- `TableSpec`: the operations on a value of the slot sequence.
  - `InsertResult`, `LookupResult`, `DeleteResult` and `IterateResult` model
    the operations.
  - `Findable` is the table invariant: every live entry is the one a lookup
    of its key stops at.
  - The lemmas relate the operations to one another and to that invariant.
- `HashTable`: strategy lookup by name, creation, and the class
  `AssociativeArray`. Its methods update the slot array and the counters in
  place. Each one is proved to produce the state that the matching
  `TableSpec` function describes.
- `Scenarios`: concrete tables. They exhibit collisions, tombstone reuse, a
  full table, and the duplicate-key defect described under Findings.

The model follows the code, including two behaviours that a reader might
not expect:
- A double-hash step of 0 does not loop over the start slot forever. The
  probe examines only its start slot. It returns that slot if the slot ends
  the search, and -1 otherwise (`Probing.DoubleHashZeroStep`).
- A delete followed by a lookup of the same key does not always report "not
  found". The code can store the same key twice, and then a lookup finds the
  older copy (see Findings). "Not found" holds for every table that keeps the
  `Findable` invariant (`TableSpec.DeleteThenLookupAbsent`).

With the byte-sum hash on a 5-slot table, "a" (97) hashes to 2, and "f"
(102) and "k" (107) hash to 2 as well. The scenarios use these keys so that
they collide.

## Model

| member | source | states |
|---|---|---|
| HashFunctions.BytesMatchFrom | aalib/hash-functions.c:16 | the byte comparison from position i to len succeeds exactly when the two keys agree at every position in that range |
| HashFunctions.KeysMatch | aalib/hash-functions.c:9-17 | keys of different lengths never match; keys match exactly when they are the same byte sequence |
| HashFunctions.HashByLength | aalib/hash-functions.c:72-75 | the hash is a valid index, and it is the key's length whenever the length is below the table size |
| HashFunctions.HashBySum | aalib/hash-functions.c:90-107 | the loop returns the sum of the key's bytes, reduced modulo the table size, which is a valid index |
| HashFunctions.HashByPrime | aalib/hash-table.c:136-138 | the prime hash selected by name yields a valid index |
| HashFunctions.Hash | aalib/hash-table.c:180 | whichever algorithm is chosen, the hash is a valid index |
| HashFunctions.ComputeHash | aalib/hash-table.c:180 | calling through the algorithm gives the modelled hash of that algorithm |
| Probing.StopsSearch | aalib/hash-functions.c:177-202 | definition: a slot ends the search when it is live with the sought key, when it is empty, and, in insert mode only, when it is a tombstone |
| Probing.StepIndex | aalib/hash-functions.c:205 | stepping by a fixed amount modulo the size always stays inside the table |
| Probing.StepIndexClosedForm | aalib/hash-functions.c:205-208 | after k fixed steps the probe is at (start + k·step) mod size |
| Probing.QuadraticIndex | aalib/hash-functions.c:318-319 | the quadratic probe's index stays inside the table |
| Probing.QuadraticIndexClosedForm | aalib/hash-functions.c:318-319 | the k-th quadratic candidate is (start + k²) mod size |
| Probing.ProbeIndex | aalib/hash-functions.c:205-408 | every strategy's k-th candidate is a valid slot |
| Probing.ReturnTime | aalib/hash-functions.c:408-410 | the double-hash walk first returns to its start slot at a time t of at most size, and never earlier |
| Probing.ProbeBound | aalib/hash-functions.c:207-414 | each strategy examines between 1 and size slots before giving up |
| Probing.StepSize | aalib/hash-functions.c:366 | definition: the step of the walk is the secondary hash of the key, reduced to the table size, for double hashing, and unused (0) for the other strategies |
| Probing.Walk | aalib/hash-functions.c:164-211 | definition: the probe loop as recursion over the candidate number; it examines candidate k, stops there if the slot ends the search, and reports -1 with cost equal to the bound once all candidates are used |
| Probing.WalkStopsAtFirst | aalib/hash-functions.c:164-211 | the walk's result is a valid index or -1; it stops at the first candidate that ends the search, and reports -1 only once the bound is reached |
| Probing.WalkIteration | aalib/hash-functions.c:164-211 | one loop iteration: the walk from candidate c stops there when the slot ends the search, and otherwise continues from c+1 |
| Probing.Probe | aalib/hash-functions.c:164-211 | the probe result is -1 or a valid index; cost is the number of slots examined (between 1 and the bound); a non-negative result is the candidate with index cost−1 and ends the search; no earlier candidate ends it; -1 comes only after the bound |
| Probing.LinearAdvance | aalib/hash-functions.c:205-208 | the linear next index is (j+1) mod size, and it equals the start exactly after size steps |
| Probing.DoubleHashAdvance | aalib/hash-functions.c:408-410 | the double-hash next index is (j+step) mod size, and it equals the start exactly at the bound |
| Probing.LinearIteration | aalib/hash-functions.c:164-211 | one iteration of the linear loop matches the walk |
| Probing.QuadraticIteration | aalib/hash-functions.c:277-326 | one iteration of the quadratic loop matches the walk |
| Probing.LinearProbe | aalib/hash-functions.c:126-218 | the C linear-probe loop returns exactly the index and cost that the probe specification gives |
| Probing.QuadraticProbe | aalib/hash-functions.c:237-332 | the C quadratic-probe loop returns exactly the index and cost that the probe specification gives |
| Probing.DoubleHashProbe | aalib/hash-functions.c:351-420 | the C double-hash loop, with its step from the secondary hash, returns exactly the index and cost that the probe specification gives |
| Probing.WalkReachesFirstStop | aalib/hash-functions.c:176-202 | when candidate m ends the search and none before it does, the walk stops at m with cost m+1 |
| Probing.WalkStopsNoLaterThan | aalib/hash-functions.c:176-202 | if some candidate within the bound ends the search, the walk succeeds no later than that candidate |
| Probing.WalkSameTests | aalib/hash-functions.c:176-202 | the walk depends only on which slots end the search |
| Probing.ProbeSameTests | aalib/hash-functions.c:176-202 | two tables that agree on which slots end the search give the same probe result |
| Probing.ProbeFindsFirstStop | aalib/hash-functions.c:176-202 | the probe returns the first stopping candidate, with cost equal to its position plus one |
| Probing.ProbeStopsNoLaterThan | aalib/hash-functions.c:176-202 | a stopping candidate within the bound makes the probe succeed no later than it |
| Probing.LinearProbeCoversTable | aalib/hash-functions.c:204-211 | a linear probe that fails has seen every slot of the table, and none of them could end the search |
| Probing.DoubleHashZeroStep | aalib/hash-functions.c:366-413 | with a secondary hash of 0, double hashing examines only the start slot; it then returns that slot or -1, with cost 1 |
| Probing.QuadraticCanMissFreeSlots | aalib/hash-functions.c:317-326 | concrete table on which quadratic probing reports -1 although two slots are empty |
| Probing.RunProbe | aalib/hash-table.c:184 | calling through the chosen strategy gives that strategy's probe specification, with a result of -1 or a valid index |
| TableSpec.Start | aalib/hash-table.c:180 | the search of a table starts at a valid slot given by the primary hash |
| TableSpec.Step | aalib/hash-functions.c:366 | definition: the step of the key's walk under the table's strategies, taken from the secondary hash for double hashing |
| TableSpec.Candidate | aalib/hash-table.c:184 | the table's k-th candidate is a valid slot |
| TableSpec.Bound | aalib/hash-table.c:184 | the table's probe bound is between 1 and size |
| TableSpec.Search | aalib/hash-table.c:180-184 | the probe of the table, in terms of the key's candidates: the first stopping candidate is returned; -1 comes only after the whole bound |
| TableSpec.SearchFindsFirstStop | aalib/hash-table.c:180-184 | a search returns the first candidate that ends it, at cost position plus one |
| TableSpec.SameTestsSameSearch | aalib/hash-table.c:180-184 | tables that agree on which slots end a search give the same search result |
| TableSpec.SearchStopsNoLaterThan | aalib/hash-table.c:180-184 | a stopping candidate within the bound makes the search succeed no later than it |
| TableSpec.CountUsed | aalib/hash-table.c:66-316 | definition: the number of live slots, which is what nEntries tracks from 0 at creation, +1 per insert and -1 per delete |
| TableSpec.CountUsedAtMostSize | aalib/hash-table.c:66-316 | the live count never exceeds the number of slots |
| TableSpec.CountUsedUpdate | aalib/hash-table.c:205-208 | overwriting one slot changes the number of live slots by exactly the change in that slot's liveness |
| TableSpec.UniqueKeys | aalib/hash-table.c:186-193 | definition: no two live slots hold the same key |
| TableSpec.Findable | aalib/hash-table.c:224-270 | definition: the table has a slot, and a lookup-mode search for the key of every live slot stops at that very slot |
| TableSpec.FindableUnique | aalib/hash-table.c:167-212 | in a table where every entry is findable, no key is stored live twice |
| TableSpec.EmptyTableFindable | aalib/hash-table.c:61-66 | a freshly created (all-empty) table keeps the invariant, counts zero entries, and finds no key |
| TableSpec.EmptyCount | aalib/hash-table.c:64-66 | an all-empty table has zero live entries |
| TableSpec.InsertResult | aalib/hash-table.c:167-212 | insert keeps the table size and returns -1 or a valid index |
| TableSpec.InsertStoresAtFirstFree | aalib/hash-table.c:184-209 | a successful insert writes the entry into the first non-live candidate, after candidates holding other keys only, and adds one live entry |
| TableSpec.InsertSuccessShape | aalib/hash-table.c:184-209 | a successful insert reports the insert-mode probe's stop and cost; that slot was not live and is the only one changed, now holding the entry |
| TableSpec.InsertPassesOtherKeys | aalib/hash-functions.c:177-202 | every slot an insert-mode probe passes over holds a live entry of another key |
| TableSpec.InsertFailsOnlyWhenFullOrPresent | aalib/hash-table.c:184-193 | a failed insert changes nothing; every candidate before the last one examined holds another key live; the last one either holds the key itself live, or holds another key live after the whole bound was used |
| TableSpec.InsertThenLookup | aalib/hash-table.c:184-259 | after a successful insert, looking up the key returns the inserted value |
| TableSpec.FullTableRejects | aalib/hash-table.c:184-193 | a table whose slots are all live with other keys rejects the insert, unchanged, after examining the whole bound |
| TableSpec.LinearInsertFindsRoom | aalib/hash-functions.c:204-211 | with linear probing, an absent key is inserted whenever any slot is not live |
| TableSpec.InsertPresentFails | aalib/hash-table.c:186-193 | inserting a stored key into a tombstone-free table where every entry is findable is refused and changes nothing |
| TableSpec.InsertSearchMeetsLookup | aalib/hash-functions.c:187-202 | in a table without tombstones, the insert-mode probe stops where a successful lookup-mode probe stops, at the same cost |
| TableSpec.LookupResult | aalib/hash-table.c:224-270 | a lookup examines between 1 and size slots |
| TableSpec.LookupSound | aalib/hash-table.c:251-259 | a value found by lookup is stored live under that key |
| TableSpec.LookupAbsent | aalib/hash-table.c:251-266 | a key that is not stored live is not found |
| TableSpec.FindableLookup | aalib/hash-table.c:224-270 | in a table where every entry is findable, every live entry's key looks up to its value |
| TableSpec.FindableLookupNone | aalib/hash-table.c:224-270 | in such a table, a key that is not found is not stored live anywhere |
| TableSpec.DeleteResult | aalib/hash-table.c:282-330 | delete keeps the table size |
| TableSpec.DeleteRemovesWhatLookupFinds | aalib/hash-table.c:296-319 | delete reports exactly the value a lookup would, at the same cost; it turns that slot alone into a tombstone with the same key and value, and reduces the live count by one; otherwise it changes nothing |
| TableSpec.DeleteKeepsFindable | aalib/hash-table.c:304-319 | a delete keeps every remaining entry findable |
| TableSpec.DeleteThenLookupAbsent | aalib/hash-table.c:296-319 | in a table where every entry is findable, the deleted key is not found afterwards |
| TableSpec.DeleteThenInsertSucceeds | aalib/hash-functions.c:191-202 | after a successful delete, inserting the same key always finds room |
| TableSpec.InsertAbsentKeepsFindable | aalib/hash-table.c:184-209 | inserting a key that a lookup does not find keeps every entry findable |
| TableSpec.OtherKeyStillFound | aalib/hash-table.c:184-209 | an insert does not move any other live entry away from the slot its search stops at |
| TableSpec.InsertKeepsOtherLookup | aalib/hash-table.c:184-209 | on any table, a key that a lookup finds gives the same lookup result (value and cost) after inserting a different key |
| TableSpec.DeleteKeepsOtherLookup | aalib/hash-table.c:296-319 | on any table, deleting one key leaves the lookup result (value and cost) of every other key unchanged |
| TableSpec.InsertChecked | aalib/hash-table.c:186-193 | the duplicate-rejecting insert keeps the table size and returns -1 or a valid index |
| TableSpec.InsertCheckedKeepsFindable | aalib/hash-table.c:186-193 | the duplicate-rejecting insert keeps every entry findable and the keys unique, and refuses a stored key without changing the table |
| TableSpec.UsedEntries | aalib/hash-table.c:114-115 | the entries visited by iteration are as many as the live slots |
| TableSpec.UsedEntriesAreLive | aalib/hash-table.c:113-115 | iteration visits exactly the live (key, value) pairs of the table |
| TableSpec.Fold | aalib/hash-table.c:106-126 | iteration returns status 1 or -1 |
| TableSpec.FoldStopsAtFirstFailure | aalib/hash-table.c:114-125 | status 1 exactly when every call succeeds, and then the user data is threaded through all calls; status -1 at the first call that fails, with no call after it |
| TableSpec.IterateResult | aalib/hash-table.c:106-126 | iteration over the table returns status 1 or -1 |
| HashTable.HasPrefix | aalib/hash-table.c:131-151 | definition: strncmp of the name against a three-letter prefix is 0, i.e. the name starts with that prefix |
| HashTable.LookupNamedHashStrategy | aalib/hash-table.c:129-143 | "sum" selects the byte sum, "len" the length and "pri" the prime hash, each only when no earlier prefix matched; any other name gets the byte sum |
| HashTable.LookupNamedProbingStrategy | aalib/hash-table.c:145-157 | "lin", "qua" and "dou" select linear, quadratic and double hashing, in that order of precedence; any other name gets linear probing |
| HashTable.NamesSelectStrategies | aalib/hash-table.c:129-157 | each algorithm and strategy is selected by its full name, and by its first three letters followed by anything |
| HashTable.AssociativeArray.Valid | aalib/hash-table.c:61-68 | definition: the array has the table's size, at least one slot, and nEntries equals the number of live slots |
| HashTable.AssociativeArray.EntriesWithinSize | aalib/hash-table.c:66-208 | in a valid table nEntries is between 0 and the size |
| HashTable.AssociativeArray.constructor | aalib/hash-table.c:61-70 | a new table of the given size with all slots empty and all counters zero |
| HashTable.AssociativeArray.Insert | aalib/hash-table.c:167-212 | the array becomes exactly the insert result; insertCost grows by the probe cost; nEntries grows by one on success; the other counters are unchanged; the invariant is kept for an absent key |
| HashTable.AssociativeArray.InsertUnique | aalib/hash-table.c:186-193 | the corrected insert: lookup first, then insert only if absent; the state becomes the checked-insert result and the invariant is kept |
| HashTable.AssociativeArray.Lookup | aalib/hash-table.c:224-270 | returns the lookup result; searchCost grows by its cost; nothing else changes |
| HashTable.AssociativeArray.Delete | aalib/hash-table.c:282-330 | the array becomes exactly the delete result; deleteCost grows by the probe cost; nEntries drops by one on success; the invariant is kept |
| HashTable.AssociativeArray.IterateAction | aalib/hash-table.c:106-126 | the loop over the slots returns the status and user data of the iteration specification |
| HashTable.CreateAssociativeArray | aalib/hash-table.c:34-71 | no table when the rounded size is below 1; otherwise a fresh valid table of the rounded size, with the strategies looked up by name and all slots and counters cleared |
| Scenarios.CollidingInserts | aalib/hash-table.c:167-270 | "a" and "f" collide at slot 2, and "f" goes to slot 3; both look up to their values; "z" is not found after three slots |
| Scenarios.TombstoneSkippedThenReused | aalib/hash-functions.c:187-202 | after deleting "a", lookup of "f" skips the tombstone, and inserting "k" reuses slot 2 |
| Scenarios.FullTable | aalib/hash-functions.c:204-211 | a 3-slot table takes three keys, then rejects a fourth after examining 3 slots |
| Scenarios.InsertPastTombstoneDuplicates | aalib/hash-functions.c:191-202 | the insert as written stores a second copy of "f" in the tombstone before the live one |
| Scenarios.StaleCopyFound | aalib/hash-table.c:282-330 | deleting the duplicated "f" removes only the newer copy; a lookup still returns the old value |
| Scenarios.InsertCheckedRefusesDuplicate | aalib/hash-table.c:186-193 | the corrected insert refuses "f" in the same table and changes nothing |

## Left out

- Printing is not modelled: `printableKey`, `toHex`, `aaPrintContents`, `aaPrintSummary` and the `stderr` diagnostics are output only.
- Memory management is not modelled: `malloc`, `memcpy`, `free` of the tombstone key inside the probes, `deleteKey`, `deleteKeys` and `aaDeleteAssociativeArray`. Slots hold key values, not pointers.
- HashTable.CreateAssociativeArray: the prime rounding (`getLargerPrime`) is not part of this model, so it is a parameter. That the capacity is prime and at least the requested size is therefore not stated.
- HashFunctions.HashByPrime: the prime hash's formula is not part of this model. A stand-in rolling hash is used, and only its range (a valid index) is relied on.
- HashFunctions.HashBySum: key bytes are taken as unsigned (0 to 255). The header defining `AAKeyType` is not part of this model; with a signed byte type, a byte of 0x80 or above would add a negative amount and C's truncating `%` could give a negative index.
- The C `int` and `size_t` widths are not modelled. Sums, squares and index arithmetic are unbounded integers, so none of them overflow.
- HashTable.AssociativeArray.Insert: when the probe reports -1, the C code reads `table[-1]` before testing the index. The model tests the index first and refuses the insert.
- The `key != NULL` tests and zero-length keys allocated with `malloc(0)` are not modelled. Every key is a byte sequence, possibly empty.
- HashTable.AssociativeArray.Lookup: the C functions return the stored `void *`, and a stored NULL is indistinguishable from "not found". The model returns an `Option`.
- The strategy names copied into the table (`hashNamePrimary` and the rest) are not stored. Only the chosen algorithms and strategy are kept.
- HashTable.AssociativeArray.IterateAction: the C `void *userdata` is shared mutable state. The model threads it as a value returned by the action.
- The cleared table is modelled as all slots empty, assuming that `HASH_EMPTY` is the zero that `memset` writes.

## Findings

| source | as written | input that shows it | evidently intended | confidence | as-written member | corrected member |
|---|---|---|---|---|---|---|
| aalib/hash-table.c:184-194 | The insert-mode probe stops at the first tombstone (aalib/hash-functions.c:191-202). The insert then writes there, even when the key is stored live further along the probe, so the key ends up stored twice. | Size 5, byte-sum primary, linear probing: insert "a" and "f", delete "a", insert "f". The second "f" goes to slot 2 and the old one stays at slot 3. A later delete of "f" leaves the old value findable. | A key already stored is rejected (the comment at aalib/hash-table.c:189 names duplicate keys as the failure case), so each key is stored at most once. | not executed | Scenarios.InsertPastTombstoneDuplicates | TableSpec.InsertCheckedKeepsFindable |

`TableSpec.InsertChecked` is the corrected insert, and
`HashTable.AssociativeArray.InsertUnique` implements it on the array. It keeps
keys unique and every entry findable.
