# Verified model of the adaptive quotient filter and its relatives

This Dafny project models the adaptive quotient filter of `src/gqf.c`, the reverse map and the filter
variants that drive it, and the other self-contained algorithms of the repository: in-run counters,
the arithmetic coders and slot adaptation of the telescoping filter, the adaptive cuckoo filter, the
region locks, the partitioned counter, the invertible hash and the broadword select. Every property
below is a Dafny contract; `dafny verify dfyconfig.toml` checks them all.

## How the model is built

**The quotient filter.** `Filter.QF` is a class with the arrays the C code keeps in its blocks:
`occupieds`, `runends`, `extensions`, the 8-bit block `offsets`, and bit-packed `slots`. Its methods
follow the C loops, word by word where the C code works on words. A ghost field `runs` holds what the
filter means: for every quotient an ordered run of items, each a remainder, extension chunks and a
counter. `QF.Valid` ties the two together: the runs lie in quotient order without overlap, each at
`max(quotient, end of the previous run)`, sorted by remainder; occupied and run-end bits are exactly
those of the runs; every block offset is the spill of earlier quotients into the block, saturated at
255; and `noccupied_slots` is the number of used slots (`Runs.TotalIsUsed`). Rank and select facts
live in `RankSelect`, shifts of cells in `Layout` and `Edits`, fingerprints in `Hashes` and `Contents`.

**Reverse map and variants.** `ReverseMap` models the stored bytes: padded keys and values, messages
that are merged new-before-old in any grouping, and lookups by rank. `Variants` puts filter and reverse
map together as `bulkLoad`, `queryFilter` and the two `adapt` methods do. A ghost sequence `keys` says
which loaded key owns which item. `Agreement`, `Loading` and `Adapting` prove the statements about
whole runs. `Plans` defines what any sequence of decisions about false positives does to the filter and
costs, `SkiRental` compares the count-then-adapt policy with all of them where every item accepts one
foreign query only, `Domination` does so for adapting to everything, and `SharedItems` says for which
parameters the promises hold without that assumption. The `ServeQueries` and `LoadAndServe` methods are
the test loop of `bench/cpp/bench_variants.cc`; their results connect the code with these statements.

**The rest.** Code that changes state is a class or a method with loops; straight-line code is a
function; concurrent code is a state machine whose steps are the atomic operations.

**Inputs that stand for the environment.** Hash functions of the cuckoo filter, its random victim
choice, the scheduling of threads, the amount of overflow space (`xnslots`) and the full point of the
variants are parameters or nondeterministic. Keys passed to the variants are their own hashes, as in
the source (`QF_KEY_IS_HASH`). The store behind the reverse map may merge the messages of a key in any
grouping and at any time; SplinterDB itself is not part of this model.

**Conditions carried from the source.** Room is a property of the layout: the next empty slot is below
`xnslots` and is not the last slot of the last block (`Navigation.Room`, `Edits.Fits`). Miniruns have at
most 256 items, because queries report the rank in a byte. Loading comes before adapting. The test loops
ask for room to the end: the state that the policy ends in leaves a slot to spare and stays below the full
point (`Plans.EndsWithin`); then so does every state on the way. AdaptiveQF can do without, if the last
block has a slot behind the usable ones; adaptations may then stop early.

## Results about the code as it is

- The counter branch of `insert_and_extend` writes an existing counter at `index + 1 + ext`, where
  `ext` is the value of the extension, not its length (`src/gqf.c:1871`). The filter then represents the
  next count exactly when value and length coincide (`Adapting.CounterWriteHits`, and for the whole filter
  `Adapting.CountStepExact`); `Adapting.CounterWriteMisses` gives an input for which it does not. If the
  value is below the length, the write replaces a chunk of the item's own fingerprint, and the stored key is
  then no longer accepted unless the count equals that chunk (`Adapting.StrayWrite`,
  `Adapting.StrayWriteLosesKey`).
- So SkiQF can lose a loaded key, from a fresh load on. With two-bit remainders, no quotient bits, break-even
  count 3 and the one key 1, the queries 5, 5, 5, 17, 17 do it (`SharedItems.LosingRunExample`); a run of this
  shape exists for every break-even count from 3 on that fits a slot, if qbits + 2 * rbits < 64
  (`SharedItems.LosingRun`, `SharedItems.LosesExactly`). "No false negatives" is true of AdaptiveQF, and of
  SkiQF on all queries after every load exactly when the break-even count is at most 2 or
  qbits + 2 * rbits >= 64 (`SharedItems.FollowsExactly`): then the code follows its policy, and along the
  policy no key is lost (`SkiRental.SkiKeepsKeys`). For other parameters it holds for query sequences along
  which counts land (`SkiRental.CountsLand`), for one when no stored item accepts two different never-loaded
  queries (`SkiRental.DisjointLands`).
- The README's cost guarantee for SkiQF (factor two, against any sequence of decisions, even one made in
  hindsight) does not hold unconditionally either. It holds on all queries after every load exactly when the
  break-even count is 1 or qbits + 2 * rbits >= 64 (`SharedItems.TwiceOptimalExactly`); otherwise
  `SharedItems.CostlyRun` costs 4 * breakEven where one adaptation in time costs 1 + breakEven
  (`SharedItems.EarlyPlanCosts`), with every count where it belongs. For every other break-even count below
  256 and 2^rbits it holds when no stored item accepts two different never-loaded queries
  (`SkiRental.TwiceOptimal`, `SkiRental.RunTwiceOptimal`).
- Adapting to every false positive has the fewest false positives of all plans, at any time and on any
  queries (`Domination.FewestFalsePositives`).
- Two-bit tags of the cuckoo filter's table are or-ed into place without clearing the old tag. A tag
  reads back as written exactly when the old tag has no bits outside it
  (`MirroredTable.TwoBitTagReadsBack`, with an example in `MirroredTable.TwoBitTagsMerge`), so a key just
  stored with a kick may be missed (`MirroredTable.TwoBitTagReported`).
- Adapting in the cuckoo filter does not recompute the tag of a parked key. The parked tag stays right
  exactly when the key waits at another bucket or its tag is the same under the new selector
  (`CuckooFilter.VictimAfter`); otherwise the parked key can be missed (`CuckooFilter.ParkedKeyLost`).
- The rank an insert reports is the length of the minirun exactly when, for every item of the minirun, the
  slot behind its base slot has the remainder if and only if another item of the minirun follows, apart
  from the last item of a run whose mark the loop sees (`InsertRank.ReportedRankExact`). It can be too
  small (`InsertRank.ExtendedItemHides`) or too large (`InsertRank.ChunkLooksLikeItem`). While only
  loading happens it is right (`Loading.FreshLooksRight`). What the insert stores does not depend on it.
- The fallback of `adapt_loc` to code 0 (`src/taf.cc:1840-1845`) is never taken: one selector among zeros is
  always encodable (`CodingCapacity.OneSelectorEncodable`), so an adaptation always moves the selector on
  (`TelescopingFilter.TAF.AdvancedIs`).
- `adapt` may stop early for lack of space. The stored key is still accepted, and no hash is accepted
  that was not accepted before (`Agreement.NoFalseNegatives`, `Agreement.AcceptedSetShrinks`); only the
  false positive may remain.
- `hash_64` is a bijection on k-bit numbers for every k up to 64, also for k below two.

## Model

| member | source | states |
|---|---|---|
| Words.Select | src/gqf.c:424-434 | the select instruction by its meaning: the set bit with k set bits before it, or 64 exactly when the word has at most k |
| Words.ShiftIntoB | src/gqf.c:719-726 | the bits bstart..bend of b move up by the amount, filled from the top of a only if bstart is 0; all other bits of b stay |
| PackedSlots.PackedSlots.Get | src/gqf.c:540-558 | the value of a packed slot, read through a 64-bit word at a byte boundary |
| PackedSlots.PackedSlots.Set | src/gqf.c:560-578 | changes exactly one slot as seen by get_slot, for every slot width from 1 to 56 and every value that fits |
| PackedSlots.ShiftUp | src/gqf.c:848-869 | the word loop moves bits first..end-1-amount up, clears the vacated ones, and touches nothing outside, over any number of words |
| PackedSlots.PackedSlots.ShiftRemainders | src/gqf.c:758-771 | the word-by-word shift moves the slots start..empty-1 up by one and leaves all other slots alone |
| Filter.QF.ShiftFlags | src/gqf.c:848-869 | shift_runends by one on a metadata vector: entries ins..empty-1 move up by one, a cleared bit enters at ins |
| Layout.NextAfterInsertWithin | src/gqf.c:1015-1048 | inserting a cell moves the start of every later run up to the empty slot by exactly one |
| Layout.SpillAfterInsert | src/gqf.c:1032-1046 | the spill into a block grows by one exactly for the blocks behind the target up to the one with the empty slot |
| Layout.InsertKeepsStored | src/gqf.c:1015-1048 | shifting one cell into a run up to the next empty slot stores the longer run, leaves every other run as it was, and marks nothing else |
| RankSelect.RankAtNext | src/gqf.c:603-644 | the run ends stored before the end of the runs of quotients below q are as many as the occupied quotients below q |
| RankSelect.SelectFindsRunEnd | src/gqf.c:620-639 | the run end of that rank closes the last run with a quotient below q; only extensions and counters follow up to the run's end |
| RankSelect.OpenRunsAt | src/gqf.c:663-668 | occupied minus ended runs is a jump that stays within used slots, and is zero on a slot that is no extension exactly when the slot is unused |
| RankSelect.SpilledRunsAt | src/gqf.c:669 | with a cached offset behind the slot, even a saturated one, the jump does not overstep the stored runs and the slot is used |
| Navigation.RunEndByRank | src/gqf.c:603-622 | the block offset and the rank of q give the answer at once or the position and rank from which select finds it |
| Filter.QF.BlockOffset | src/gqf.c:584-601 | the true spill into the block, recomputed through run_end when the cached offset is saturated; the recursion goes to smaller blocks |
| Filter.QF.RunEnd | src/gqf.c:603-644 | the maximum of q and the last slot, extensions and counters included, of the last non-empty run with quotient at most q |
| Filter.QF.SelectRunend | src/gqf.c:622-636 | the block-by-block search ends at the run end with the wanted number of run ends before it |
| Filter.QF.OffsetLowerBound | src/gqf.c:646-669 | never oversteps an unused slot; zero on a slot that is no extension exactly when the slot is unused |
| Filter.QF.FindFirstEmptySlot | src/gqf.c:691-713 | the least unused slot at or behind the start |
| Edits.HomeSlotState | src/gqf.c:1377-1380 | the test for an empty home slot (unmarked, unoccupied, run_end at itself) holds exactly when the slot is unused |
| Filter.QF.InsertOneSlot | src/gqf.c:1015-1048 | everything up to the first empty slot moves up by one, the value enters as an unmarked slot, and the offsets of the blocks reached grow unless saturated; nothing changes if the empty slot is past the end |
| Filter.QF.GetSlotInfo | src/gqf.c:2421-2449 | value and length of an item's extension, its count (1 without a counter) and its counter length |
| Hashes.MaskedCompare | src/gqf.c:1670 | the masked comparison of the query succeeds exactly when every stored chunk equals the chunk of the hash |
| Filter.QF.GetCountWithIndex | src/gqf.c:1635-1697 | the first item of the run that accepts the hash: its positive count, its slot, and its rank in the minirun modulo 256; count 0 exactly when no item accepts it |
| Contents.MinirunItemUnique | src/gqf.c:1434-1451 | a rank identifies one item of a minirun |
| Filter.QF.CountMinirun | src/gqf.c:1441-1447 | the loop counts the slots that RankLoop comes to, each compared as if it were a base slot |
| InsertRank.ReportedRankExact | src/gqf.c:1433-1462 | on every sorted run: the reported rank is the length of the minirun if and only if the slot behind each base slot of the minirun has the remainder exactly when another item of the minirun follows (the last item of a run also passes if the loop comes to its base slot) |
| InsertRank.ExtendedItemHides | src/gqf.c:1441-1447 | an extended item in front of its minirun makes the reported rank 1 although the minirun has two items |
| InsertRank.ChunkLooksLikeItem | src/gqf.c:1441-1447 | a chunk equal to the remainder makes the reported rank 2 although the minirun has one item |
| Loading.FreshLooksRight | variants/base_adaptive_filter.hpp:32-45 | while only loading happens, every run meets that condition |
| Filter.QF.FindInsertIndex | src/gqf.c:1433-1462 | the slot in front of the first item with a remainder at least as large, or behind the run, and the rank the loop counts |
| Filter.QF.InsertIntoEmptySlot | src/gqf.c:1380-1399 | a new run of one item in the unused home slot; every other run and the validity of all bits and offsets are kept |
| Filter.QF.InsertNewRun | src/gqf.c:1400-1419 | a new run of one item behind earlier runs; every other run and the validity of all bits and offsets are kept |
| Filter.QF.InsertIntoRun | src/gqf.c:1420-1486 | a further item at the front of its minirun, moving the run-end mark when it goes behind the run; everything else is kept |
| Filter.QF.Insert | src/gqf.c:1359-1496 | in every valid state with room: adds exactly one item at the front of its minirun, keeps validity, leaves every other run unchanged, counts one more used slot and one more element, and reports what the rank loop counts |
| Runs.InsertKeepsPlaced | src/gqf.c:1015-1048 | layout, occupied bits and all saturating offsets stay right under a shifted-in cell |
| Runs.TotalIsUsed | src/gqf.c:1408-1412 | the total length of the runs, which noccupied_slots keeps, is the number of used slots |
| Edits.ItemInsertedInFront | src/gqf.c:1449-1471 | inserting in front of an item represents the run with the new item, and one more slot is in use |
| Edits.ItemInsertedBehind | src/gqf.c:1452-1475 | inserting behind the last item and moving the run-end mark represents the run with the new item |
| Edits.CounterReused | src/gqf.c:2501-2512 | rewriting the only counter slot as an extension slot represents the item with one more chunk and no counter, and moves nothing |
| Contents.ExtendedAgrees | src/gqf.c:2465-2513 | the chunks appended by adapt all agree with the stored hash |
| Contents.ExtendedStops | src/gqf.c:2513 | the loop stops at the first chunk that differs from the false positive, or when 64 bits are covered |
| Contents.AdaptedAccepts | src/gqf.c:2451-2516 | the adapted fingerprint still accepts the stored hash |
| Contents.AdaptedRejects | src/gqf.c:2451-2516 | the adapted fingerprint rejects the different hash it was called for |
| Contents.LongerAcceptsLess | src/gqf.c:2451-2516 | a longer fingerprint accepts no hash that a shorter one rejects |
| Hashes.SameFingerprintSameHash | src/gqf.c:2513 | two 64-bit hashes with equal quotient, remainder and enough chunks to fill 64 bits are equal |
| Filter.QF.AppendChunk | src/gqf.c:2479-2500 | one more chunk on one item; every other item, all bits and all offsets are kept |
| Filter.QF.Adapt | src/gqf.c:2451-2516 | terminates; the item becomes the fully adapted one, whose length in bits is returned, or a shorter extension of it, where no empty slot is in reach; every other item keeps remainder, extension, count and order |
| Filter.QF.FindRankedItem | src/gqf.c:2559-2583 | finds the slot of the item of the given rank in its minirun |
| Filter.QF.AdaptUsingRank | src/gqf.c:2543-2587 | adapts exactly the item of the given rank; nothing for an unused quotient or for equal hashes |
| Filter.QF.IncrementCounter | src/gqf.c:1864-1884 | the item's count grows by one, in one new counter slot or in place if the extension's value equals its length; if the value is smaller, that chunk of the item becomes the count; in every case with an existing counter just the addressed slot changes |
| Adapting.CounterWriteHits | src/gqf.c:1870-1873 | the in-place write gives the item the new count if and only if the extension's value equals its length |
| Adapting.CounterWriteMisses | src/gqf.c:1870-1873 | an item with chunk 7 and count 2 whose count is not updated |
| Adapting.CountStepExact | src/gqf.c:1870-1873 | the slots after the in-place write represent the filter with the new count if and only if the extension's value equals its length |
| Adapting.StrayWrite | src/gqf.c:1870-1873 | if the extension's value is below its length, the new count replaces the chunk at that position of the item's own extension |
| Adapting.StrayWriteLosesKey | src/gqf.c:1870-1873 | the stored key is then still accepted if and only if the count equals that chunk |
| ReverseMap.PadData | src/splinter_util.c:41-46 | the source bytes followed by zeros, or by ones if flagged; nothing changes if they do not fit |
| ReverseMap.MergeAccumulator.MergeTuples | src/splinter_util.c:4-12 | the old message follows the new one |
| ReverseMap.GroupingIndependent | src/splinter_util.c:4-17 | merging the messages of a key in any grouping gives the same list |
| ReverseMap.SliceInjective | db/splinter_db.hpp:55-57 | different minirun ids are stored under different keys |
| ReverseMap.WordOfEntry | db/splinter_db.hpp:97-100 | the word read at entry k of a stored list is the k-th key |
| ReverseMap.SplinterDB.InsertFingerprint | db/splinter_db.hpp:53-66 | with rank 0 the minirun's list becomes just the key, otherwise the key is put in front of it; all other lists stay |
| ReverseMap.SplinterDB.Lookup | db/splinter_db.hpp:91-96 | merges the messages of a key from the newest up to an insert |
| ReverseMap.SplinterDB.GetFingerprint | db/splinter_db.hpp:83-104 | the key at the given rank of the minirun's list, or -1 if the minirun has none |
| ReverseMap.SplinterDB.Compact | src/splinter_util.c:4-12 | merging neighbouring messages at any time changes no list |
| Agreement.KeyOfRank | src/gqf.c:1434-1451 | the k-th key of a minirun in slot order owns the k-th item of the minirun |
| Agreement.InsertedList | src/gqf.c:1434-1463 | inserting a key in front of its minirun puts it at the head of that minirun's keys and changes no other minirun |
| Agreement.OwnersAreAccepted | variants/base_adaptive_filter.hpp:60-80 | a key that owns an item is accepted |
| Agreement.StepKeepsOwners | variants/adaptiveqf.hpp:17-31 | an adaptation, or a count that is stored where the decoder looks for it (see `SharedItems.FollowsExactly`), keeps every key's fingerprint matching and only lengthens fingerprints |
| Agreement.NoFalseNegatives | variants/adaptiveqf.hpp:17-31 | over every sequence of queries and adaptations, complete or cut short, every key is still accepted |
| Agreement.AcceptedSetShrinks | variants/adaptiveqf.hpp:17-31 | whatever a later state accepts, every earlier state accepted |
| Agreement.AdaptationSeparates | variants/adaptiveqf.hpp:28-30 | a complete adaptation takes the false positive off the item it hit, so one item fewer accepts it |
| Loading.RoomToLoad | variants/base_adaptive_filter.hpp:34-42 | if the fully loaded filter fits, there is room for every single insert on the way |
| Loading.LoadOneListed | variants/base_adaptive_filter.hpp:36-53 | front insertion and new-before-old merging keep filter and reverse map in agreement |
| Loading.LoadedKeysAreOwners | variants/base_adaptive_filter.hpp:32-58 | every loaded key has a fingerprint of its own |
| Loading.LoadedExactly | bench/cpp/bench_variants.cc:154-167 | the owners of items are the loaded keys and no others |
| Loading.CountTellsPresence | variants/base_adaptive_filter.hpp:64-76 | the byte-sized count tells presence, because all counts are positive and below 256 |
| Variants.BaseAdaptiveFilter.BulkLoad | variants/base_adaptive_filter.hpp:32-58 | loads exactly the first numKeys keys, or stops before the last of them with -1 at 95 percent load; the lists of the reverse map are the loaded keys of each minirun, latest first |
| Variants.BaseAdaptiveFilter.QueryFilter | variants/base_adaptive_filter.hpp:60-80 | reports a key present exactly when an item accepts it, with the count, rank and slot of the first such item |
| Variants.BaseAdaptiveFilter.ExtendHit | variants/adaptiveqf.hpp:21-30 | the rank leads through the reverse map to the owner of the item that was hit, and that item is adapted |
| Variants.AdaptiveQF.Adapt | variants/adaptiveqf.hpp:17-31 | nothing at the full point; otherwise the item that was hit is adapted against the query, and everything else stays consistent |
| Variants.AdaptiveQF.ServeQueries | bench/cpp/bench_variants.cc:205-264 | the test loop goes through a history of the filter, answers every query as the filter accepts it at the time, and adapts to the accepted queries that the database does not hold; with room to the end every never-loaded hash is a false positive at most once for every item that accepts it at first |
| Variants.AdaptiveQF.LoadAndServe | bench/cpp/bench_variants.cc:154-264 | after loading, every query for a loaded key is answered with present, and a query once answered with absent is so ever after; with room to the end false positives are bounded as above |
| Variants.SkiQF.Adapt | variants/skiqf.hpp:17-49 | nothing at the full point; below the break-even count the hit item's counter grows by one, or the count replaces a chunk of the item if its address is off; otherwise the item is adapted |
| Adapting.RankLeadsToOwner | variants/adaptiveqf.hpp:21-30 | the reported rank selects the owner's key in the reverse map and the hit item in the filter |
| Adapting.ListIsMinirun | src/gqf.c:1434-1451 | in every consistent state the k-th item of a minirun is the fingerprint of the k-th key in the reverse map's list, and the lengths agree |
| Adapting.LoadedKeysStayPresent | variants/base_adaptive_filter.hpp:32-80 | after a bulk load and any later queries and adaptations every loaded key is still accepted |
| Adapting.FalsePositivesBounded | variants/adaptiveqf.hpp:17-31 | always adapting, a hash is a false positive at most once for every item that accepts it at first, whatever else is queried |
| Plans.StepIsEdit | variants/skiqf.hpp:17-49 | a decision about a false positive, carried out as decided, changes at most the item it hits and keeps all owners; whether the code carries out a count is `SharedItems.FollowsExactly` |
| Plans.PlanLedgerHolds | variants/skiqf.hpp:17-49 | under any decisions, every adaptation to a hash takes it off one of the items that accepted it, and it stays a false positive until none is left |
| Plans.NoPlanIsCheaper | README.md:13 | no sequence of decisions serves a hash for less than the cheaper of tolerating all its queries and adapting to one query per accepting item |
| Plans.BestPlanIsBest | README.md:13 | the plan made in hindsight from the numbers of queries costs no more than any other sequence of decisions |
| Plans.PlanGrows | variants/skiqf.hpp:17-49 | no decision makes a run shorter or gives an item a second counter slot, so the space at the end bounds the space on the way |
| Plans.AdaptationFits | src/gqf.c:2451-2516 | if a plan ends with a slot to spare, every adaptation on the way has room |
| Domination.FewestFalsePositives | variants/adaptiveqf.hpp:17-31 | at any time, adapting to every false positive has had no more of them than any other sequence of decisions |
| Domination.AdaptAllTwiceOptimal | README.md:13 | with break-even count 1, adapting to everything costs at most twice any sequence of decisions, for all queries |
| Domination.FullRunBounded | variants/adaptiveqf.hpp:17-31 | a run with room to the end always adapts, so every never-loaded hash is a false positive at most once for every item that accepts it at first |
| SkiRental.StaysAddressed | src/gqf.c:1870-1873 | along every run of the policy, the counters of the items that queries can hit falsely are where the code writes them |
| SkiRental.DisjointLands | src/gqf.c:1870-1873 | if no item accepts two different never-loaded queries and all are addressed right at first, every count of the run lands where it belongs |
| SkiRental.SkiKeepsKeys | variants/skiqf.hpp:17-49 | along the policy every loaded key stays accepted, on any queries |
| SkiRental.EveryStepFits | src/gqf.c:1864-1884 | if counts land and the final state leaves a slot to spare, every count and every adaptation on the way has room, and every existing counter is found |
| SkiRental.StepIsSki | variants/skiqf.hpp:17-49 | what adapt does on a false positive that fits is the step of the policy |
| SkiRental.LedgerHolds | variants/skiqf.hpp:21-46 | in every interleaving the false positives of a hash are breakEven per adaptation plus what the hit item's counter shows |
| SkiRental.TwiceOptimal | variants/skiqf.hpp:17-49 | of the queries for a hash exactly the first breakEven per accepting item are false positives, every breakEven-th is adapted to, and the hash costs at most twice what it costs under any sequence of decisions |
| SkiRental.RunTwiceOptimal | README.md:13 | the whole run costs at most twice what it costs under any sequence of decisions |
| SharedItems.SmallBreakEvenLands | variants/skiqf.hpp:21 | with a break-even count of at most 2 no existing counter is ever counted up |
| SharedItems.CoveredLands | src/gqf.c:2513 | if one chunk covers the hash, false positives only hit items without extension, whose counters are addressed right |
| SharedItems.OneIsLoaded | variants/base_adaptive_filter.hpp:32-58 | the one-item filters of the runs below are what loading one key gives |
| SharedItems.LosingRun | src/gqf.c:1870-1873 | for every break-even count from 3 on that fits a slot, with qbits + 2 * rbits < 64: a fresh load and a query sequence after which the policy counts an item whose counter is addressed wrongly |
| SharedItems.LosesLoadedKey | src/gqf.c:1870-1873 | the code then overwrites the chunk, and the loaded key is not accepted any more |
| SharedItems.LosingRunExample | src/gqf.c:1870-1873 | for one: two-bit remainders, break-even count 3, the key 1, the queries 5, 5, 5, 17, 17 |
| SharedItems.FollowsExactly | variants/skiqf.hpp:17-49 | every count of every run after every load lands where it belongs if and only if the break-even count is at most 2 or one chunk covers the hash |
| SharedItems.LosesExactly | src/gqf.c:1870-1873 | there is a load and a query sequence whose first misplaced count makes the filter reject a loaded key if and only if the break-even count is above 2 and one chunk does not cover the hash |
| SharedItems.CoveredTwiceOptimal | README.md:13 | if one chunk covers the hash, the run costs at most twice any sequence of decisions, also when queries share items |
| SharedItems.CostlyRun | README.md:13 | for every break-even count from 2 on, with qbits + 2 * rbits < 64: a fresh load and a query sequence with two adaptations and 2 * breakEven false positives, all counts landing |
| SharedItems.EarlyPlanCosts | README.md:13 | adapting to its first query instead costs 1 + breakEven in all |
| SharedItems.TwiceOptimalExactly | README.md:13 | the policy costs at most twice any sequence of decisions on all queries after every load if and only if the break-even count is 1 or one chunk covers the hash |
| Variants.SkiQF.ServeQueries | bench/cpp/bench_variants.cc:205-264 | where counts land, the test loop takes the filter through the states of the policy, answers every query for a loaded key with present, and counts exactly the false positives and those of them at which the policy adapts; its false positives plus breakEven per adaptation cost at most twice any sequence of decisions, if items take one query each, or with the parameters above |
| Variants.SkiQF.LoadAndServe | bench/cpp/bench_variants.cc:154-264 | the same from an empty filter on |
| RunCounters.EncodeCounter | src/gqf_backup.c:1101-1156 | writes the encoding of a remainder and its count just below the given position and nothing else |
| RunCounters.DigitsSpell | src/gqf_backup.c:1141-1148 | the digits avoid zero and the remainder and spell the count |
| RunCounters.DigitsLength | src/gqf_backup.c:1141-1148 | a count takes as many digits as its size in the base needs, and no more |
| RunCounters.EveryValueIsDigit | src/gqf_backup.c:1141-1148 | every slot value but zero and the remainder stands for a digit |
| RunCounters.ZeroLeads | src/gqf_backup.c:1149-1151 | a zero is written behind a remainder exactly when the remainder is not zero and the first digit is not below it |
| RunCounters.SlotsFit | src/gqf_backup.c:1141-1148 | every encoded value fits a slot |
| RunCounters.DecodeCounter | src/gqf_backup.c:1164-1234 | at the start of an entry of a stored run, gives its remainder and count and the slot where its encoding ends |
| RunCounters.ReadRun | src/gqf_backup.c:1164-1234 | reading a stored run entry by entry gives back exactly the entries, for every slot width of at least two bits |
| RunCounters.WriteRun | src/gqf_backup.c:1101-1156 | encoding the entries of a run from the last to the first and marking the last slot stores the run |
| RunCounters.WriteAndRead | src/gqf_backup.c:1089-1234 | writing any run of increasing remainders with positive counts and reading it entry by entry gives it back |
| RunCounters.CountKey | src/gqf_backup.c:2387-2397 | the count of a remainder in the run, or 0 if it does not occur |
| ExtensionCoding.NarrowWithin | src/taf.cc:631-671 | the interval of an extension lies in the one before it, and empty and nonempty extensions fall on different sides |
| ExtensionCoding.CodeInside | src/taf.cc:631-676 | the code lies in every interval on the way and below 2^56 |
| ExtensionCoding.EncodeExt | src/taf.cc:631-676 | succeeds exactly when every interval keeps two code points, with the low end of the last one as code |
| ExtensionCoding.DecodeExt | src/taf.cc:678-717 | on a code from encode_ext gives the extensions back; the search for a length ends |
| CodingCapacity.ExtWidth | src/taf.cc:635-667 | an extension leaves its share of the interval (29/32 if empty, for length k in 2^k pieces of 3/64 halved k - 1 times), less at most four points |
| CodingCapacity.ExtsWidth | src/taf.cc:631-676 | the interval of a list of extensions is as wide as the product of their shares, up to 43 points |
| CodingCapacity.ExtsEncodable | src/taf.cc:631-676 | extensions are encodable if their share of the code points is at least 45, and only if it is at least 2 |
| CodingCapacity.SevenBitsEncodable | src/taf.cc:631-676 | up to seven extensions of one bit in a block are encodable, wherever they stand |
| SelectorCoding.SelectWithin | src/taf.cc:719-771 | the shares of the seven selectors fit the interval |
| SelectorCoding.EncodeSel | src/taf.cc:719-778 | succeeds exactly when every interval keeps two code points; selectors above six are first reduced |
| SelectorCoding.DecodeSel | src/taf.cc:780-837 | the cascade of comparisons finds the selector whose share the code lies in, for every code |
| SelectorCoding.SelRoundTrip | src/taf.cc:719-837 | decoding the code of a selector sequence gives the sequence back |
| SelectorCoding.ZerosEncodable | src/taf.cc:1840-1845 | 64 zero selectors are encodable, by the code 0 |
| CodingCapacity.SelWidth | src/taf.cc:719-771 | a selector leaves its share of the interval, less at most four points |
| CodingCapacity.SelsEncodable | src/taf.cc:719-778 | selectors are encodable if their share of the code points is at least 21, and only if it is at least 2 |
| CodingCapacity.OneSelectorEncodable | src/taf.cc:1838-1845 | one selector of any value among zeros is encodable, wherever it stands |
| TelescopingFilter.CalcBits | src/taf.cc:1483-1487 | bit i of remainder k is bit q + (k mod n) * r + i of the hash, with n = (64 - q) / r |
| TelescopingFilter.SameRemainders | src/taf.cc:1483-1487 | two hashes with the same quotient have the same first m remainders if and only if they agree in the q + m * r low bits |
| TelescopingFilter.SomeSelectorSeparates | src/taf.cc:1483-1487 | two different hashes with the same quotient and no bits above the last remainder differ in some remainder |
| TelescopingFilter.TAF.AdvancedIs | src/taf.cc:1824-1845 | the selector at the location becomes the next of six; the others stay if the code has room for all, and are zero otherwise |
| TelescopingFilter.TAF.AdaptLoc | src/taf.cc:1822-1859 | the selector at the location moves on and its remainder becomes the one that it chooses; all 64 remainders of the block stay those of the decoded selectors, in the plain branch, after a rebuild and in the fallback to code 0; other blocks do not change |
| MirroredTable.PutChangesOneTag | other_filters/acf/src/mirroredtable.h:100-132 | writing a tag of 4 to 32 bits changes exactly that tag of the bucket |
| MirroredTable.TwoBitTagReadsBack | other_filters/acf/src/mirroredtable.h:104-105 | a two-bit tag reads back as written if and only if the old tag has no bits outside it |
| MirroredTable.TwoBitTagsMerge | other_filters/acf/src/mirroredtable.h:104-105 | the tag 1 cannot be replaced by the tag 2 |
| MirroredTable.TwoBitTagReported | other_filters/acf/src/mirroredtable.h:212-238 | after writing a two-bit tag, its bucket reports it if and only if it reads back as written or another place holds it |
| MirroredTable.EqualLane4 | other_filters/acf/src/bitsutil.h:8-9 | the word test for a 4-bit tag is exact, whatever lies above the four lanes |
| MirroredTable.EqualLane8 | other_filters/acf/src/bitsutil.h:11-12 | the same for 8-bit tags |
| MirroredTable.EqualLane12 | other_filters/acf/src/bitsutil.h:14-15 | the same for 12-bit tags |
| MirroredTable.EqualLane16 | other_filters/acf/src/bitsutil.h:17-19 | the same for 16-bit tags |
| MirroredTable.WordTestIs | other_filters/acf/src/mirroredtable.h:212-231 | the test on the 64-bit word loaded at a bucket of 4, 8, 12 or 16-bit tags finds a tag exactly when one of the four places holds it, whatever follows the bucket |
| MirroredTable.MirroredTable.FindTagInBucket | other_filters/acf/src/mirroredtable.h:212-238 | finds a tag exactly when the bucket holds it, for every width |
| MirroredTable.MirroredTable.InsertTagToBucket | other_filters/acf/src/mirroredtable.h:262-279 | the tag is written to the first empty place if there is one, otherwise to a random full one; the sign of the result tells which, and no other tag changes |
| CuckooFilter.AltIndexSwaps | other_filters/acf/src/cuckoofilter.h:204-226 | with more than one bucket a key has two different buckets and each leads to the other |
| CuckooFilter.HomesAre | other_filters/acf/src/cuckoofilter.h:204-226 | a key's buckets are those of its two hashes, or if these coincide, that bucket and the one before |
| CuckooFilter.SameTagIff | other_filters/acf/src/cuckoofilter.h:212-217 | two keys have the same tag under a selector if and only if as many low bits of their tag hashes as a tag has are equal, 0 being read as 1 |
| CuckooFilter.SecondBucketIsFree | other_filters/acf/src/cuckoofilter.h:360-424 | if every bucket but the first has a free place, the chain ends within two placements |
| CuckooFilter.IncrementedByOne | other_filters/acf/src/cuckoofilter.h:228-234 | one selector of a shared byte grows by one modulo 16, the other stays |
| CuckooFilter.CuckooFilter.AddUsingBackingMap | other_filters/acf/src/cuckoofilter.h:360-424 | after any chain of kicks every stored key and the new one are still stored or parked, each tag is that of the key mapped there (with two-bit tags, has at least its bits), and that key is at home; the chain goes from each full bucket to the other bucket of the key that had to leave, ends in the first bucket with a free place, and parks a key only after 500 full ones; with a free place in every bucket but the key's first none is parked |
| CuckooFilter.CuckooFilter.Adapt | other_filters/acf/src/cuckoofilter.h:465-508 | nothing if the parked place reports the key; otherwise one bucket's selector moves on, all its tags are recomputed, and other buckets keep their tags; all conditions still hold if and only if a key parked at that bucket still has its tag |
| CuckooFilter.VictimAfter | other_filters/acf/src/cuckoofilter.h:465-508 | the parked key keeps the right tag if and only if it waits at another bucket or its tag is the same under the new selector |
| CuckooFilter.ParkedKeyLost | other_filters/acf/src/cuckoofilter.h:465-508 | two buckets, eight stored keys and a parked one that is not reported any more after another key was adapted to |
| CuckooFilter.CuckooFilter.Contain | other_filters/acf/src/cuckoofilter.h:538-559 | finds every stored or parked key unless tags have two bits; answers yes exactly when one of the two buckets or the parked place has the key's tag; unless tags have two bits, that is exactly when a key mapped or parked in one of the two buckets agrees with it in the tag bits of its hash under that bucket's selector |
| Locks.WindowIsLocked | src/gqf.c:144-225 | every slot within a cluster of the home slot lies in a region that the call locks, and that lock exists |
| Locks.SmallLocksExact | src/gqf.c:144-225 | a small call locks exactly the regions that the 16384 slots ahead of the home slot reach |
| Locks.RuntimeData.Lock | src/gqf.c:144-225 | without waiting, takes all locks of the call if all are free, and otherwise leaves every lock as it was |
| Locks.RuntimeData.Unlock | src/gqf.c:227-242 | frees the locks of the call |
| Locks.UnlockUndoesLock | src/gqf.c:144-242 | unlocking with the same arguments restores the locks |
| Locks.StepKeepsInv | src/gqf.c:124-242 | every atomic step of every thread keeps each lock owned by exactly the thread that holds it |
| Locks.HoldsExactly | src/gqf.c:144-242 | a successful call holds exactly its locks; between calls a thread holds none |
| Locks.WindowsAreExclusive | src/gqf.c:144-225 | two operations inside their protected sections that may touch a common slot are the same |
| Locks.NoDeadlock | src/gqf.c:124-242 | in every reachable state with a waiting thread some call in progress can take a step |
| PartitionedCounter.StepKeepsInv | src/partitioned_counter.c:47-67 | every atomic step keeps global + locals + amounts in flight equal to the sum of all adds, and every local beyond the threshold has a thread about to flush it |
| PartitionedCounter.QuietIsClose | src/partitioned_counter.c:47-59 | with no call in progress the global counter is off by at most counters times threshold |
| PartitionedCounter.SyncIsExact | src/partitioned_counter.c:61-67 | a sync that runs alone makes the global counter exact |
| PartitionedCounter.AddAloneIs | src/partitioned_counter.c:47-59 | an add that keeps the local counter within the threshold leaves the global one alone, any other moves all of the local counter to it |
| InvertibleHash.Undo1Step1 | src/hashutil.c:165-169 | the fixed-point iteration inverts the first step, in both orders |
| InvertibleHash.Undo3Step3 | src/hashutil.c:158-159 | the inverse multiplier undoes the multiplication by 265, in both orders |
| InvertibleHash.Undo4Step4 | src/hashutil.c:152-156 | three rounds of shifts invert the xor-shift by 14, in both orders |
| InvertibleHash.HashThenInverse | src/hashutil.c:123-172 | hash_64i undoes hash_64 on k-bit keys |
| InvertibleHash.InverseThenHash | src/hashutil.c:123-172 | hash_64 undoes hash_64i on k-bit values |
| InvertibleHash.HashInjective | src/hashutil.c:112-114 | two k-bit keys have the same hash exactly when they are equal |
| InvertibleHash.HashStages | src/hashutil.c:123-133 | the hash is, modulo 2^k, times 2^21 - 1 less 1, times 265, times 21 and times 2^31 + 1, with xors of itself shifted by 24, 14 and 28 in between |
| Broadword.Sum2Pairs | src/gqf.c:412 | the first folding step leaves in every two-bit field the number of its set bits |
| Broadword.ByteSumsAre | src/gqf.c:411-415 | the folding steps and the multiplication leave in every byte the number of set bits up to its end |
| Broadword.CompareBytes | src/gqf.c:417-418 | one subtraction compares all byte sums with k |
| Broadword.Select64IsSelect | src/gqf.c:403-422 | the broadword select equals the bit-by-bit select, for every word and every k |

## Left out

- Filter.QF.CountMinirun: where nothing stops the rank loop before the end of the slots, the source reads on in foreign memory; here it ends there. `InsertRank.ReportedRankExact` does not depend on this.
- Filter.QF.Insert: the 95 percent load test is exact integer arithmetic instead of a floating-point product, and sits in `Variants.BaseAdaptiveFilter.LoadKey`; automatic resizing is not modelled.
- Filter.QF.InsertOneSlot: the result for lack of space is modelled, but callers in the source ignore it; they are modelled with room.
- Filter.QF.IncrementCounter: counters of more than one slot are not modelled; the adaptive variants never need a second slot while the break-even count fits a slot. If the address of an existing counter lies behind the item, the contract gives the slot that changes, not what that means for the item or the unused slot there.
- Variants.SkiQF.Adapt: break-even counts are below 256 and fit a slot; larger ones are cut off in the byte that a query reports, or need a second counter slot.
- Variants.SkiQF.ServeQueries: runs along which a count goes astray are followed up to that count only (`Adapting.StrayWrite`, `SharedItems.LosingRun`), and runs that reach the full point are not followed.
- Filter.QF.GetSlotInfo: the source keeps its running slot index in a 32-bit integer; indices are unbounded here.
- PackedSlots.PackedSlots.Set: slots of all blocks lie in one bit array with padding behind it, not in block structures with headers between them; the 8, 16, 32 and 64-bit builds with plain slot arrays are not modelled.
- ReverseMap.MergeAccumulator.MergeTuples: failure to allocate memory is not modelled.
- ReverseMap.SplinterDB.GetFingerprint: a rank past the end of a list reads foreign memory in the source; it is excluded by the precondition.
- SelectorCoding.EncodeSel: negative selectors, for which the source returns without a code, are not modelled.
- TelescopingFilter.TAF.AdaptLoc: only the normal mode; the overwrite mode deliberately breaks the relation between remainders and selectors.
- CuckooFilter.CuckooFilter.Adapt: selectors are unsigned nibbles; the source reads them from signed characters.
- CuckooFilter.CuckooFilter.Contain: with two-bit tags a stored key may be missed, because tags are merged; the contract then only says when a key is reported.
- CuckooFilter.CuckooFilter.AddUsingBackingMap: the backing map is a map from locations to keys; its bytes are not modelled.
- Locks.RuntimeData.Lock: waiting is modelled in the state machine only; lock statistics are left out.
- PartitionedCounter.StepKeepsInv: counters do not overflow 64 bits.
- Deletion, merging, resizing, bulk insertion, iterators and inner products of the quotient filter: unfinished in the source or marked as not to be used.
- Counts above one on insert, value bits, the seven-bit-offset build, recording and debugging output.
- HybridSkiQF and the coin-flip variant: floating point and randomness decide there.
- WiredTiger and mock reverse maps, file and memory-mapped storage, generators, and the measurements and adversarial phases of the benchmarks.
- The other parts of `src/taf.cc` (its own rank, select and slot shifting), and the quality of any hash function.
- Cuckoo deletion, the set-backed cuckoo variants and the other cuckoo tables.
