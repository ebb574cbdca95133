# Order book and matching engine: a verified model

This project models the limit order book, the matching engine that trades on it, the replay journal and the wire framing,
and proves that they do what they are for. The central object is a flat list of resting orders in order of arrival
(`NaiveSpec.dfy`); everything else is proved against it.

- **The book** (`Book.dfy`) is a class over a pool of order records, a pool of level records, an open-addressed index and
  a price map a side. Its invariant ties all of them to one list. Every operation takes the step of the list and keeps
  the invariant: each order in exactly one doubly linked queue at its own side and price, index and queues in bijection,
  counters and cached best equal to the recomputed ones, and no queued record on the pool's free list although queue and
  free list share one link field. The proofs are about values, not about the heap: `BookInvariant.dfy` and
  `BookSteps.dfy` say why each update of the records represents the update of the list, and the methods of the class only
  have to show that they perform those updates.
- **The price maps** are a sliding window of 4096 ticks with an occupancy bitset and an overflow map (`LadderSpec.dfy`,
  `PriceLadder.dfy`), and an index-linked AVL tree in a vector (`AvlSpec.dfy`, `AvlLevelMap.dfy`). `LevelMap.dfy` puts both
  behind one contract, so the book is proved once.
- **Three books, one contract.** `AnyBook.dfy` covers the ladder book, the tree book and the map book (`MapBook.dfy`).
  The engine and the replay are proved over it. What a book can still take is one value, updated by every operation
  (`BookRoom.dfy`): free and quarantined slots, the length of the index, and where the windows of the ladders are.
  `BookRun.dfy` follows whole runs in it, so the exact condition of a run can be evaluated without a book.
  `NaiveBook.dfy` is the flat book with its accumulator loops.
- **The engine** (`Engine.dfy`) is proved to compute a recursive matcher (`MatchSpec.dfy`), which is in turn the walk
  down the other side's orders in price-time priority. `EngineSpec.dfy` proves conservation and that no run ever
  crosses an uncrossed book or adds a reference twice. `MatchLaws.dfy` says what that means for the orders: price-time
  priority, the limit, self-trade prevention, and which outcome is reported when.
- **The replay** (`Replay.dfy`) is proved to be a function of the messages (`ReplaySpec.dfy`): the journal digest does not
  depend on the book, on the validation interval or on strictness. `MessageLaws.dfy` says what each message does to the
  list, and what an entry of the journal tells. `Digest.dfy` shows the mixing function to be a
  bijection and one changed field always to show; `BookFeed.dfy` reads the words a book is fed as back into its levels.
- **The wire** (`Endian.dfy`, `Framing.dfy`, `FrameReader.dfy`): framing round trips in both directions, and buffered
  reading with in-place compaction agrees with the zero-copy walk for every way of cutting the input into chunks. Which
  verdict the parser gives is stated from the bytes, and the length of a message from its fields (`MessageLayout.dfy`).

## Where the code falls short of its documentation

- The ladder's documentation promises that one probe finds any level. That is false for extreme anchors: the bounds of the
  pull-in scan are converted to 32 bits (`include/itch/book/price_ladder.hpp:338-339`), and wrap when the new anchor is
  below tick 2048 or from tick 42947625 on. `StrandedLevel` is a run of two inserts after which a held level cannot be
  found. `InsertCanonical` gives the exact condition, on the base and the keys alone, under which an insert keeps the
  ladder an ordered map. The book, the engine and the replay require exactly that condition of a new price on a ladder,
  at the base that the run so far has left, and nothing of a price that goes into a tree. `SuitableRunFits` says that it
  holds as long as the best price of the side is between $20.48 and $429,476.24 after each add, whatever rests behind it;
  `StubThenBid` is the usual start of a session.
- A reader whose buffer is smaller than an announced frame reports a truncated body although the input holds the bytes.
  The contract of `next` promises that answer for truncated input only (`include/itch/wire/source.hpp:228-229`). Such
  a frame is never well formed, so no frame is lost: `ReadIsWalk` states exactly when the ending differs, and
  `StuckOnSixty` is an input on which it does.
- Price zero stands for "this side is empty", on the ground that no order can rest at zero
  (`include/itch/book/flat_book.hpp:375-376`). `add` does not check it, and the two pooled books differ in what
  follows. On the tree book the cached best goes wrong: after an ask at 0 an ask at 5 is cached as the best
  (`ZeroAskForgotten`), and `BestsAfterAdd` gives the exact condition, which is all the tree book is proved under. On the
  ladder book that run does not get that far: inserting a level looks for the best price, and an assertion there
  (`include/itch/book/price_ladder.hpp:122`) fails at the first order at zero on a new ladder, for bids and asks alike
  (`LoneZeroFails`). Beside overflow levels a zero in the window is passed over; `CombinedExact` says when
  best() is right, when wrong and when it fails. The map book and the flat book have no such marker and are proved at
  every price.
- The index is said never to be too small for its hint (`include/itch/book/order_index.hpp:71-74`). The hint is doubled in
  32 bits, so a hint of 2 to the 31 gives one slot (`HintWraps`); `HintHonoured` is the exact bound.
- Books that agree on the canonical feed are said to agree on the book (`include/itch/book/book_types.hpp:59-62`). They
  agree on every level and on time priority, and on nothing more: `SameWordsSameLevels` is an equivalence, and
  `SameWordsOtherBook` exchanges the quantities of two orders of one queue without changing a word.

## What callers are asked for

From the code's own assertions: a quantity above zero, references that are not resting already, reductions of resting
orders by no more than they hold, and slots in the pools and the index. The engine's assertion that the front of a level
is not reference 0 becomes the requirement that the matching loop meets no order under 0 (`Met`), and the book's that a
reference is new becomes a requirement on the reference the engine would rest an order under; `NeverAddedTwice` discharges
both for whole runs on books that keep those references clear.

What no assertion covers when an order is added, and only the pooled books ask for: on a ladder, a price above zero and
one that leaves every level to be found (`LadderSpec.Accepts`); on a tree, a price the cached best can follow
(`BehindZero`). They are part of `BookRoom.Takes`, together with a free order slot, a free level slot if the level is
new, and an index at most half full.

## Model

| member | source | states |
|---|---|---|
| `Books.Book.Add` | include/itch/book/flat_book.hpp:68-102 | a valid book standing for list v stands for v with the order appended; pools, index, price map, counters and cached best all follow; exactly one order slot, and a level slot for a new price, are used up |
| `Books.Book.Cancel` | include/itch/book/flat_book.hpp:104-108 | the order shrinks where it stands in its queue, or leaves it; the slots it frees can be used again once they have passed the quarantine |
| `Books.Book.Execute` | include/itch/book/flat_book.hpp:110-115 | the same step as a cancel, returning the shares |
| `Books.Book.Remove` | include/itch/book/flat_book.hpp:117-120 | the order leaves the list |
| `Books.Book.Replace` | include/itch/book/flat_book.hpp:122-128 | delete and add: side and owner inherited, time priority not |
| `Books.Book.ReduceAt` | include/itch/book/flat_book.hpp:324-372 | the shared reduction: list step, whole representation kept, and slots freed become available again |
| `Books.Book.Leave` | include/itch/book/flat_book.hpp:345-371 | unlinking from the middle of a queue, and closing an emptied level, keep the representation |
| `Books.Book.LevelFor` | include/itch/book/flat_book.hpp:306-322 | the level of a price is found, or made in a slot that was not live, and the map gains exactly that price |
| `BookCounts.BestsAfterAdd` | include/itch/book/flat_book.hpp:374-386 | the cached pair of bests, updated on an add, is the best pair of the longer list if and only if the add is not an ask at a real price on a side that holds an ask at zero |
| `BookCounts.NotedExact` | include/itch/book/flat_book.hpp:374-386 | the same of one side as a set of prices |
| `BookCounts.ZeroAskForgotten` | include/itch/book/book_types.hpp:54-57 | the update after asks at 0 and then at 5 leaves 5, although the lowest is 0 |
| `Books.Book.NoteRemoved` | include/itch/book/flat_book.hpp:388-397 | the cached best after a level cleared: recomputed only when the top cleared |
| `Books.Book.ListedNotFree` | include/itch/book/pool.hpp:97-114 | queue and free list share one link field but never a slot: the slot of a listed order is live, on neither list, and points at the level the map holds at its price |
| `Books.Book.QueriesAgree` | include/itch/book/flat_book.hpp:132-138 | emptiness, cached best and counters are what the list gives; crossed is that some bid is at or above some ask |
| `Books.Book.QtyAt` | include/itch/book/flat_book.hpp:140-143 | the level sum is the sum of the queue, 0 where there is no level |
| `Books.Book.OrdersAt` | include/itch/book/flat_book.hpp:145-148 | the level count is the length of the queue |
| `Books.Book.FrontAt` | include/itch/book/flat_book.hpp:169-176 | the oldest order at a price, or 0 |
| `Books.Book.Contains` | include/itch/book/flat_book.hpp:152 | the index knows exactly the listed references |
| `Books.Book.Lookup` | include/itch/book/flat_book.hpp:154-165 | side, price, quantity and owner are those of the listed order |
| `Books.Book.ForEachLevel` | include/itch/book/flat_book.hpp:213-219 | every level exactly once from the inside outwards, each with its queue in order of arrival |
| `Books.Book.Snapshot` | include/itch/book/flat_book.hpp:221-228 | the first levels of that traversal |
| `BookInvariant.Rebuild` | include/itch/book/flat_book.hpp:240-297 | an update that is right at one side and price and keeps its hands off live records elsewhere keeps the whole structural invariant |
| `BookInvariant.LevelOwner` | include/itch/book/flat_book.hpp:240-297 | a live level record belongs to one side and one price only |
| `BookInvariant.UnlinkQueued` | include/itch/book/flat_book.hpp:345-355 | linking the two neighbours of an order to each other leaves prev and next mutually inverse along the rest of the queue |
| `BookInvariant.AppendQueued` | include/itch/book/flat_book.hpp:86-95 | an order hung behind the tail extends the doubly linked queue by itself |
| `BookSteps.AddStep` | include/itch/book/flat_book.hpp:68-102 | the updates of an add, taken together, represent the list with the order appended |
| `BookSteps.FoundSays` | include/itch/book/flat_book.hpp:324-339 | the two records behind a listed order say what the list says; the level count is 1 exactly when the order is alone in its queue |
| `BookSteps.DepartStep` | include/itch/book/flat_book.hpp:345-369 | unlink then free represents the list without the order |
| `BookSteps.CloseStep` | include/itch/book/flat_book.hpp:357-369 | the same when the level goes with it |
| `BookCounts.StatsAfterReduce` | include/itch/book/flat_book.hpp:329-365 | totals, level counts and order count after a reduction are the recomputed ones |
| `BookCounts.BestsAfterReduce` | include/itch/book/flat_book.hpp:388-397 | a level cleared behind the top leaves the best unchanged |
| `BookCounts.CountersFit` | include/itch/book/book_types.hpp:42-48 | the 64-bit sums and 32-bit counts cannot overflow for any list a pool can hold |
| `Books.NewBook` | include/itch/book/flat_book.hpp:58-64 | a book built with these capacities is empty and valid, and has exactly this room |
| `Pools.Pool.RoomSays` | include/itch/book/pool.hpp:139-155 | free, quarantined and live slots add up to the capacity |
| `BookRuns.Perform` | include/itch/book/flat_book.hpp:68-128 | after every legal run for which there is room step by step, any of the books stands for exactly the list the run leaves, and has exactly the room the run leaves |
| `BookRuns.SuitableRunFits` | include/itch/book/flat_book.hpp:58-64 | a run that stays within the capacities and keeps the inside of each ladder side in the band has room at every step, whatever was freed or quarantined before and whatever rests behind the inside |
| `BookRuns.BookWithin` | include/itch/book/flat_book.hpp:58-64 | in a valid book whatever is not listed is free or in quarantine, for the sizes it was built with: so that theorem applies to it |
| `BookRuns.StubThenBid` | include/itch/book/price_ladder.hpp:5-8 | the stub bid at $0.0001 on an empty ladder book, and the first bid in the band after it, have room |
| `NaiveSpec.ReduceIsBook` | tests/naive_book.hpp:36-42 | a reduction keeps references unique and removes the order exactly when nothing of it is left |
| `NaiveSpec.ReductionKeepsPlace` | tests/naive_book.hpp:36-42 | a reduced order keeps its place in its queue, or leaves it without disturbing the others |
| `NaiveSpec.ReplacementIsLast` | tests/naive_book.hpp:48-52 | a replacement stands behind every order already at its price |
| `NaiveSpec.ReduceTotal` | tests/naive_book.hpp:122-130 | a reduction takes exactly its shares from its side and nothing from the other |
| `NaiveSpec.CrossedExactly` | include/itch/book/map_book.hpp:210-212 | crossed by the two best prices is that some bid is at or above some ask |
| `NaiveSpec.QueueArrival` | tests/naive_book.hpp:107-120 | a queue holds its orders in their order of arrival |
| `NaiveBooks.NaiveBook.Cancel` | tests/naive_book.hpp:36-42 | find, subtract and remove_if are the list step |
| `NaiveBooks.NaiveBook.Replace` | tests/naive_book.hpp:48-52 | a replacement is a removal and an append |
| `NaiveBooks.NaiveBook.BestOf` | tests/naive_book.hpp:59-72 | the accumulator loop finds the innermost price, or none |
| `NaiveBooks.NaiveBook.QtyAt` | tests/naive_book.hpp:74-82 | the loop sums the queue at a side and price |
| `NaiveBooks.NaiveBook.OrdersAt` | tests/naive_book.hpp:84-92 | the loop counts that queue |
| `NaiveBooks.NaiveBook.TotalOf` | tests/naive_book.hpp:122-130 | the loop sums the side |
| `NaiveBooks.NaiveBook.LevelCount` | tests/naive_book.hpp:132-141 | the number of different prices on the side |
| `NaiveBooks.NaiveBook.LevelsOf` | tests/naive_book.hpp:107-120 | levels inside out, each with its references in order of arrival |
| `NaiveBooks.KeepingBut` | tests/naive_book.hpp:162-167 | dropping every record of one reference drops one record |
| `OrderIndexes.HintHonoured` | include/itch/book/order_index.hpp:71-80 | a table holds at half load what its hint asked for if and only if doubling the hint does not wrap at 32 bits |
| `OrderIndexes.HomeIsRemainder` | include/itch/book/order_index.hpp:91-96 | the probe of an entry starts at the remainder of its hash |
| `OrderIndexes.IndexSizeExact` | include/itch/book/order_index.hpp:75-78 | the size is the least power of two that is enough, so that masking takes the remainder; 16 at least |
| `OrderIndexes.HintWraps` | include/itch/book/order_index.hpp:75-76 | a hint of 2 to the 31 gives a table of one slot |
| `OrderIndexes.OrderIndex.Insert` | include/itch/book/order_index.hpp:90-103 | for any hash function the table stands for the old map with one binding more; the probe ends |
| `OrderIndexes.OrderIndex.Find` | include/itch/book/order_index.hpp:105-118 | the probe finds exactly what the map holds, and null for anything else |
| `OrderIndexes.OrderIndex.Erase` | include/itch/book/order_index.hpp:120-132 | the map loses exactly one reference and the live count drops by one |
| `OrderIndexes.OrderIndex.EraseAt` | include/itch/book/order_index.hpp:174-199 | backward shifting ends, and leaves every entry reachable from its ideal slot without crossing an empty one, wraparound included |
| `OrderIndexes.StaysIffNotCrossing` | include/itch/book/order_index.hpp:190 | the cyclic interval test is false exactly when the probe of the entry crosses the hole |
| `OrderIndexes.ShiftProbes` | include/itch/book/order_index.hpp:195-197 | moving such an entry into the hole keeps every probe path, with the hole now where the entry was |
| `OrderIndexes.CloseHole` | include/itch/book/order_index.hpp:181-187 | once the scan meets an empty slot no probe crosses the hole any more |
| `Pools.Pool.Allocate` | include/itch/book/pool.hpp:74-95 | the slot handed out was not live, now is, and nothing else changes |
| `Pools.Pool.Free` | include/itch/book/pool.hpp:97-114 | one live slot is freed; onto the free list comes the slot freed just as many frees ago as the quarantine holds, and nothing before that many; every other live slot is untouched |
| `Pools.Pool.HeldBack` | include/itch/book/pool.hpp:103-110 | the slots freed last, as many as the quarantine holds, are neither live nor on the free list |
| `Pools.HeldIsLatest` | include/itch/book/pool.hpp:103-110 | the quarantine is first in, first out: it holds exactly the latest frees, in their order |
| `Pools.ExactlyOnce` | include/itch/book/pool.hpp:139-155 | live, free-listed and quarantined slots partition the pool |
| `Pools.StaleHandleBound` | include/itch/book/pool.hpp:174-181 | a handle is accepted exactly when its slot is live and has been reused a multiple of 128 times since |
| `LadderSpec.FindsAllIffCanonical` | include/itch/book/price_ladder.hpp:60-75 | the single probe answers every lookup correctly exactly when nothing that belongs in the window is in the overflow map |
| `LadderSpec.RebaseKeeps` | include/itch/book/price_ladder.hpp:301-353 | moving the window keeps every level and its handle, wrapped bounds or not |
| `LadderSpec.PullBounds` | include/itch/book/price_ladder.hpp:338-339 | 32-bit bounds enclose exactly the window for anchor ticks in [2048, 42947625) and no window price otherwise |
| `LadderSpec.RebaseCanonical` | include/itch/book/price_ladder.hpp:301-353 | exactly when a rebase leaves the single probe enough |
| `LadderSpec.InsertCanonical` | include/itch/book/price_ladder.hpp:77-89 | the ladder stays an ordered map across an insert if and only if a condition on its base and keys, checkable beforehand, holds; the next base is a function of the same |
| `LadderSpec.SafeBandAccepts` | include/itch/book/price_ladder.hpp:282-299 | a best price from $20.48 to $429,476.24 meets that condition for every base, whatever else rests |
| `LadderSpec.InsideStaysCentral` | include/itch/book/price_ladder.hpp:282-299 | after an insert the inside is at least 512 ticks inside a window of 4096, and in the middle of it if it has moved |
| `LadderSpec.StrandedLevel` | include/itch/book/price_ladder.hpp:338-351 | a run of two inserts after which a level is held and cannot be found |
| `LadderSpec.CombinedExact` | include/itch/book/price_ladder.hpp:118-131 | with price zero about, the combined best is right exactly if zero is not in the window of the sell side, nor the only price of the buy side and in its window; and when the assertion fails |
| `LadderSpec.LoneZeroFails` | include/itch/book/price_ladder.hpp:118-124 | a first order at price zero on a new ladder makes best() fail its assertion, on either side |
| `PriceLadders.PriceLadder.Find` | include/itch/book/price_ladder.hpp:60-75 | the probe of the arrays is the probe of the model |
| `PriceLadders.PriceLadder.Insert` | include/itch/book/price_ladder.hpp:77-89 | slots, bitset and overflow take exactly the step of the model, rebase included |
| `PriceLadders.PriceLadder.Erase` | include/itch/book/price_ladder.hpp:91-104 | window and overflow lose exactly that level |
| `PriceLadders.PriceLadder.Rebase` | include/itch/book/price_ladder.hpp:301-353 | lift, reinsert and pull-in on the arrays are the slide and pull-in of the model |
| `PriceLadders.PriceLadder.BestPrice` | include/itch/book/price_ladder.hpp:118-131 | bitset scan combined with the overflow end is the innermost price of both, and no assertion fails |
| `PriceLadders.PriceLadder.BestInWindow` | include/itch/book/price_ladder.hpp:239-256 | the word scan finds the innermost price of the window |
| `PriceLadders.PriceLadder.CollectWindow` | include/itch/book/price_ladder.hpp:258-278 | the bitset read word by word lists the window inside out, each level once |
| `PriceLadders.PriceLadder.ForEachLevel` | include/itch/book/price_ladder.hpp:151-182 | the two-way merge emits every level once, inside out |
| `BitWords.DropBits` | include/itch/book/price_ladder.hpp:258-278 | taking off the lowest set bit takes off exactly the least position |
| `AvlSpec.InsertKeeps` | include/itch/book/avl_level_map.hpp:200-211 | insertion keeps strict order, adds exactly one binding and one node |
| `AvlSpec.EraseKeeps` | include/itch/book/avl_level_map.hpp:213-243 | erasure, the successor case included, keeps strict order and removes exactly one binding and one node |
| `AvlSpec.RebalanceBalances` | include/itch/book/avl_level_map.hpp:164-180 | single and double rotations restore correct heights and balance in -1, 0, 1 |
| `AvlSpec.RotateRightKeeps` | include/itch/book/avl_level_map.hpp:146-153 | a rotation keeps order, contents and nodes |
| `AvlSpec.HeightBound` | include/itch/book/avl_level_map.hpp:36-46 | a tree of height h holds at least fib(h+2)-1 levels |
| `AvlSpec.HeightInNumbers` | include/itch/book/avl_level_map.hpp:36-46 | no side that a pool can fill needs more than 34 comparisons |
| `AvlSpec.InOrderIsSorted` | include/itch/book/avl_level_map.hpp:88-102 | the in-order reading is the sorted list of levels |
| `AvlLevelMaps.AvlLevelMap.Insert` | include/itch/book/avl_level_map.hpp:50-54 | the node vector stores the tree with one binding more; tree nodes and free nodes still partition it |
| `AvlLevelMaps.AvlLevelMap.Erase` | include/itch/book/avl_level_map.hpp:56-61 | one binding fewer, the freed node on the free list, the size right in spite of the successor compensation |
| `AvlLevelMaps.AvlLevelMap.Find` | include/itch/book/avl_level_map.hpp:36-46 | lookup is lookup in the map, in at most height many comparisons |
| `AvlLevelMaps.AvlLevelMap.BestPrice` | include/itch/book/avl_level_map.hpp:70-82 | the near end of the tree is the innermost price |
| `AvlLevelMaps.AvlLevelMap.ForEachLevel` | include/itch/book/avl_level_map.hpp:88-102 | the explicit-stack walk emits every level once, inside out |
| `AvlLevelMaps.AvlLevelMap.Rebalance` | include/itch/book/avl_level_map.hpp:164-180 | the in-place rotations store the rotated tree and touch only its nodes |
| `LevelMaps.LevelMap.Insert` | include/itch/book/flat_book.hpp:306-322 | either map: one binding more, when it takes the price, and where its window is then |
| `LevelMaps.LevelMap.Erase` | include/itch/book/flat_book.hpp:361 | either map: one binding fewer, and its window stays |
| `PriceSets.SortedUnique` | include/itch/book/price_ladder.hpp:151-182 | there is only one strict inside-out listing of a set of prices |
| `MapBooks.MapBook.Add` | include/itch/book/map_book.hpp:46-55 | the map book takes the list step |
| `MapBooks.MapBook.Reduce` | include/itch/book/map_book.hpp:282-308 | so do its reductions, closing emptied levels |
| `MapBooks.MapBook.Replace` | include/itch/book/map_book.hpp:85-92 | so does a replace |
| `MapBooks.MapBook.QueriesAgree` | include/itch/book/map_book.hpp:96-105 | begin() of the ordered maps is the recomputed best; crossed is that some bid is at or above some ask |
| `MapBooks.MapBook.ForEachLevel` | include/itch/book/map_book.hpp:130-141 | the same traversal as the other books |
| `MapBooks.ReduceShows` | include/itch/book/map_book.hpp:293-308 | a level shows its queue without the shares, and without the order once it is gone |
| `MatchSpec.MatchIsWalk` | include/itch/engine/matching_engine.hpp:104-161 | matching on the list of orders is the walk along the other side in price-time priority, and leaves the submitter's side alone |
| `MatchSpec.WalkFills` | include/itch/engine/matching_engine.hpp:148-160 | fills go down the tradable orders without a gap, at their prices, all but the last consuming their orders |
| `MatchSpec.WalkEnds` | include/itch/engine/matching_engine.hpp:115-146 | the walk ends only with nothing left to trade, nothing left that crosses, or a stop by a mode that rejects the submitter |
| `MatchSpec.WalkPulls` | include/itch/engine/matching_engine.hpp:124-146 | only the submitter's own crossing orders are pulled, and only by the modes that pull |
| `MatchSpec.WalkDivides` | include/itch/engine/matching_engine.hpp:115-161 | the walk splits the queue at one place: before it every own order is pulled and every other order consumed by its own fill, in order; behind it nothing is touched but the order filled in part |
| `MatchSpec.FrontStep` | include/itch/engine/matching_engine.hpp:116-122 | trading with the front of the best level changes the front of the priority order and nothing else |
| `MatchLaws.PriceTime` | include/itch/engine/matching_engine.hpp:104-161 | of two orders of a side, the higher bid or the lower ask comes first in the priority order, and at one price the earlier arrival |
| `MatchLaws.PriorityMembers` | include/itch/engine/matching_engine.hpp:104-161 | the priority order of a side holds exactly the orders of that side |
| `MatchLaws.FillsWithinLimit` | include/itch/engine/matching_engine.hpp:200-206 | every fill is with a listed order of the other side, at its price and of its owner; a limit buy pays no more than its limit, a limit sell takes no less |
| `MatchLaws.NothingLeftWithin` | include/itch/engine/matching_engine.hpp:115-120 | an unstopped match with shares left over leaves no order of the other side at or within the limit, and none at all for a market order |
| `MatchLaws.OwnOrdersOnly` | include/itch/engine/matching_engine.hpp:124-146 | only own orders within the limit are pulled, only by the modes that pull; only the modes that reject stop, and only at an own order |
| `MatchLaws.Outcomes` | include/itch/engine/matching_engine.hpp:163-185 | which outcome is reported when, exactly; only a limit order good for the day rests, with what is left, at its own price and under the reference reported |
| `MatchLaws.AsksExactly` | include/itch/engine/matching_engine.hpp:104-111 | what is asked of a caller, exactly |
| `Engines.StatsFollowReport` | include/itch/engine/matching_engine.hpp:163-185 | the statistics count each submission once, under the outcome it reports |
| `EngineSpec.SubmitFills` | include/itch/engine/matching_engine.hpp:148-160 | the same of a submission on any list; no fill pairs equal nonzero owners unless prevention is off |
| `EngineSpec.SubmitDivides` | include/itch/engine/matching_engine.hpp:104-161 | the same split of a submission on any list, down to what is left of the other side in priority |
| `EngineSpec.SubmitConserves` | include/itch/engine/matching_engine.hpp:163-185 | order quantity = fills + resting + dropped, and each side's total moves by exactly those and what was pulled |
| `EngineSpec.SubmitUncrossed` | include/itch/engine/matching_engine.hpp:104-186 | an uncrossed book is uncrossed after any submission |
| `EngineSpec.ActKeeps` | include/itch/engine/matching_engine.hpp:104-191 | any submission, cancel or mode change leaves a book, uncrossed if it was, with at most the next reference added |
| `EngineSpec.RunAll` | include/itch/engine/matching_engine.hpp:104-195 | where a run leads; from any uncrossed book, whoever put its orders there, never to a crossed one |
| `EngineSpec.NeverCrossed` | include/itch/engine/matching_engine.hpp:104-195 | if every resting bid is strictly below every resting ask, so it is after every run |
| `EngineSpec.AddedInOrder` | include/itch/engine/matching_engine.hpp:180 | the references a run adds are the consecutive values of the 64-bit counter, and nothing else is new at the end |
| `EngineSpec.NeverAddedTwice` | include/itch/engine/matching_engine.hpp:180 | on a book with no order under 0 or under the next references, as many as the run is long, well-formed requests are all that is needed, and each reference added is new |
| `EngineSpec.MetListed` | include/itch/engine/matching_engine.hpp:121-122 | the orders the loop meets are listed ones |
| `Engines.MatchingEngine.Submit` | include/itch/engine/matching_engine.hpp:104-186 | the loop on any book ends and computes the match: book, fills, report, next reference and statistics |
| `Engines.MatchingEngine.RunMatch` | include/itch/engine/matching_engine.hpp:115-161 | the loop alone, its invariant being that what is done and what remains make up the whole match |
| `Engines.MatchingEngine.Cancel` | include/itch/engine/matching_engine.hpp:188-191 | removes a resting order |
| `Engines.MatchingEngine.PerformAll` | include/itch/engine/matching_engine.hpp:97-211 | a whole run of the engine on any book with room for what rests along it goes where the pure run goes; bids strictly below asks before, so after |
| `EngineSpec.ClearStep` | include/itch/engine/matching_engine.hpp:121-122 | on such a book the loop never meets reference 0 and the next reference is free, and the book stays such for the rest of the run |
| `Digests.MixBijective` | include/itch/core/hash.hpp:22-27 | the finaliser is a bijection on 64-bit words |
| `Digests.FeedInjective` | include/itch/core/hash.hpp:33 | a feed keeps different states apart and different words apart |
| `Digests.WordInjective` | include/itch/core/hash.hpp:33 | different 64-bit counters are fed as different words |
| `Digests.OneFieldShows` | include/itch/core/hash.hpp:29-33 | two feeds of one length that differ in exactly one position end in different digests |
| `Digests.InNumbers` | include/itch/core/hash.hpp:22-33 | the finaliser of 0 is the first output of splitmix64, and one feed in numbers |
| `Digests.Digest.FeedBytes` | include/itch/core/hash.hpp:38-43 | a byte string is fed as its length and its bytes |
| `ReplaySpec.TakenCovered` | include/itch/replay/invariants.hpp:60-64 | the subtraction of an observed reduction never goes below zero |
| `ReplaySpec.ExpectedConserved` | include/itch/replay/invariants.hpp:80-85 | the quantities the messages promise are the quantities that rest |
| `ReplaySpec.Played` | include/itch/replay/invariants.hpp:54-85 | so they are after every message of every valid stream |
| `MessageLaws.FollowsExactly` | include/itch/replay/book_builder.hpp:72-201 | what the feed must respect, message by message, exactly |
| `MessageLaws.AddLaw` | include/itch/replay/book_builder.hpp:222-231 | an add with B stands last in the buy queue at its price, one with S in the sell queue, and no other queue is touched |
| `MessageLaws.ReduceLaw` | include/itch/replay/book_builder.hpp:105-147 | executions and cancels leave their order in its place with exactly the shares fewer, or gone at zero |
| `MessageLaws.DeleteLaw` | include/itch/replay/book_builder.hpp:149-160 | a delete removes exactly its order |
| `MessageLaws.ReplaceLaw` | include/itch/replay/book_builder.hpp:162-177 | a replace puts the new order last at the new price on the old side |
| `MessageLaws.OtherLaw` | include/itch/replay/book_builder.hpp:181-200 | directory, trade, cross and broken trade messages, and those of other securities, leave list, journal and expectations alone |
| `MessageLaws.DirectoryLaw` | include/itch/replay/book_builder.hpp:72-83 | the first directory message, or the first of the wanted name, resolves the security, once |
| `MessageLaws.TrimmedExactly` | include/itch/wire/views.hpp:24-29 | trimming a name takes off exactly the spaces at its end |
| `MessageLaws.EntryLaw` | include/itch/replay/invariants.hpp:66-121 | each message that moves the book counts once, writes one entry, and leaves expected what rests |
| `MessageLaws.EntryFields` | include/itch/replay/invariants.hpp:104-121 | what an entry holds, and after every 65536th message the digest of the book |
| `MessageLaws.EntryTells` | include/itch/replay/invariants.hpp:104-121 | equal entries mean equal times, best prices, totals and counts |
| `Replays.CountsOnce` | include/itch/replay/book_builder.hpp:72-201 | each message counts in one way, and the applied are the sum of the ways that move the book |
| `Replays.BookDigestOf` | include/itch/book/book_types.hpp:63-79 | the canonical fold feeds sides, levels inside out and queues by priority |
| `BookFeeds.OneOrderWords` | include/itch/book/book_types.hpp:63-79 | the words of a book of one order: side, price, sum, count, reference, terminator |
| `BookFeeds.SameWordsSameLevels` | include/itch/book/book_types.hpp:59-79 | two books are fed as the same words if and only if they show the same levels on both sides: prices, sums, counts and references in time priority |
| `BookFeeds.ShortIsReadable` | include/itch/book/book_types.hpp:42-48 | every list of fewer than 2^32 orders can be read back so |
| `BookFeeds.SameWordsOtherBook` | include/itch/book/book_types.hpp:59-62 | two different books fed as the same words: two orders of one queue with their quantities exchanged |
| `Replays.ReplayObserver.AfterApply` | include/itch/replay/invariants.hpp:66-121 | the journal grows by a function of list, timestamp and count; counters follow; the full checks are one in every so many messages |
| `Replays.BookBuilder.On` | include/itch/replay/book_builder.hpp:72-201 | each message moves the replay as a function of the messages alone |
| `Replays.BookBuilder.Play` | include/itch/replay/book_builder.hpp:72-201 | so does a whole stream the book has room for, and the digest is the fold of that journal; all messages are counted, with the first and last timestamps |
| `Replays.PlayBoth` | include/itch/replay/invariants.hpp:104-121 | the digest is the same for any two books, validation intervals and strictness |
| `Endian.StoreLoad` | include/itch/core/endian.hpp:39-67 | loads and stores undo each other, on machines of either byte order |
| `Endian.OrderIrrelevant` | include/itch/core/endian.hpp:39-49 | a load is the big-endian value whatever the native order |
| `Endian.Load48` | include/itch/core/endian.hpp:54-73 | the two-part 48-bit load is the big-endian value of six bytes |
| `Framing.FrameCursor.Next` | include/itch/wire/framing.hpp:63-101 | the cursor computes the parse of what remains; anything but Ok consumes nothing |
| `Framing.Verdicts` | include/itch/wire/framing.hpp:63-101 | which verdict is given when, exactly, from the bytes: end of input on nothing, more wanted, malformed, or the body |
| `Framing.Errors` | include/itch/wire/framing.hpp:63-101 | which error goes with it, exactly |
| `Framing.EncodeThenWalk` | include/itch/wire/framing.hpp:60-101 | parsing the encoding of any valid bodies gives back those bodies and ends at the end of the input |
| `Framing.WalkThenEncode` | include/itch/wire/framing.hpp:60-101 | re-encoding the frames found in arbitrary bytes gives back the bytes consumed |
| `Framing.WalkEnds` | include/itch/wire/framing.hpp:63-101 | the walk goes as far as it can: it ends where the parser refuses the next frame, for the reason the parser gives |
| `Framing.CleanEnd` | include/itch/wire/framing.hpp:63-101 | a walk ends cleanly exactly when it has consumed everything |
| `Framing.LongestMessage` | include/itch/wire/framing.hpp:51-52 | the longest message has 50 bytes, so 52 hold any one with its prefix |
| `MessageLayouts.LengthIsPackedSize` | include/itch/wire/messages.hpp:806-835 | the declared length of each of the 23 messages is its packed size, the sum of the widths of its fields |
| `Framing.WalkAll` | include/itch/wire/framing.hpp:54-120 | a cursor run over a whole input finds all its frames |
| `Framing.WireBuilder.Begin` | tests/wire_builder.hpp:26-38 | appends the frame of a zeroed body of the type |
| `Framing.WireBuilder.AppendRaw` | tests/wire_builder.hpp:42-50 | appends a body under any declared length |
| `Framing.WireBuilder.Put` | tests/wire_builder.hpp:56-59 | a field written can be read back |
| `FrameReaders.MemorySource.Read` | include/itch/wire/source.hpp:128-139 | hands out the next bytes of the data, none only when none are wanted or left |
| `FrameReaders.FrameReader.Refill` | include/itch/wire/source.hpp:266-282 | compaction and refill keep the buffer equal to the stretch of the input it stands for |
| `FrameReaders.FrameReader.Next` | include/itch/wire/source.hpp:230-252 | for every chunking, the next frame of the remaining input or the reason there is none |
| `FrameReaders.FrameReader.ReadAll` | include/itch/wire/source.hpp:230-282 | for every chunking and every capacity of at least 52, the frames of the zero-copy walk |
| `FrameReaders.ReadIsWalk` | include/itch/wire/source.hpp:17-21 | the ending agrees too, if and only if no announced frame fits the input but not the buffer |
| `FrameReaders.StuckOnSixty` | include/itch/wire/source.hpp:228-229 | a 62-byte input, all of it present, that a reader of capacity 52 reports as cut short and the cursor as malformed |
| `FrameReaders.LargeNeverStuck` | include/itch/wire/framing.hpp:51-52 | with capacity 65537 or more that never happens |

## Left out

- Memory-mapped files, file descriptors and gzip: operating system and library calls. `MemorySource` with an arbitrary chunk plan stands for every source.
- The benchmark and command-line programs, timing and reporting.
- Prefaulting, record layout and padding, and `noexcept`: they have no functional meaning.
- `OrderIndexes.OrderIndex.constructor`: asks that the doubled hint is neither 0 nor above 2^31: rounding up is undefined beyond that, and in a table of one slot a lookup need not end. The sizing helper `index_entries_for` is left out.
- Diagnostic counters (probes, shifts, window hits, rebases, recomputed bests). The number of comparisons of a tree lookup is a ghost result.
- The generated message structs and views other than the messages the builder handles, which are a datatype of decoded fields, and the dispatcher.
- The assertion handler and invariant levels. Assertions are preconditions or asserts; each `validate` is the `Valid` predicate of its class, which holds between any two calls.
- `Pools.Pool.Allocate`: slots are a sequence field the methods reassign, not an array; aliasing between two views of one slot is not modelled.
- `AvlLevelMaps.AvlLevelMap.Insert`: nodes are a sequence field, and a tree holds fewer than 2^32 - 1 levels.
- `PriceLadders.PriceLadder.Insert`: the overflow `std::map` is a map walked in sorted key order.
- `MapBooks.MapBook.Reduce`: list iterators are not modelled; erasing at a kept iterator is erasing that reference. The 64-bit totals of this book, which has no capacity, are unbounded.
- `LevelMaps.LevelMap.Insert`: asks for a price above zero on a ladder, although a bid at zero beside others would do no harm until it is the only level left; `LadderSpec.CombinedExact` says when.
- `Engines.MatchingEngine.Submit`: statistics are unbounded counters.
- `BookFeeds.SameWordsSameLevels`: is about the words, not the digest; different words may collide in 64 bits.
- `Framing.FrameCursor.Next`: the cursor holds its own copy of the bytes it looks at rather than a view of the buffer; the reader resets it after every compaction.
- `Framing.WireBuilder.Put`: the 48-bit, character and text fields of the builder are left out.
- `Replays.BookBuilder.On`: messages of the other types only count as seen in the code and are left out.
