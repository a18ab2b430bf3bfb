# A verified model of the limit order book engine

This project models the matching engine of `Orderbook.h` and the admission rules of
`ExchangeRules.h`, and proves what the engine promises: price-time priority, all-or-nothing
fill-or-kill, safe cancellation from the middle of a queue, conservation of quantity, an uncrossed
book, true market depth, and no slot ever leaked.

It has two tiers.

- **The abstract engine** (`Types`, `ExchangeRules`, `PriceTimeQueue`, `Matching`, `FillOrKill`,
  `Engine`) knows no pools, links or levels. A side of the book is one sequence of orders, best price
  first and oldest first within a price. `Engine` gives every public operation as a function on that
  book, and `Run` a whole history of operations. `Matching.Sweep` is the reference everything is
  measured against: the incoming order eats the facing sequence from the front.
- **The engine itself** (`SlotPool`, `PriceMap`, `Memory`, `MemoryViews`, `Orderbook`) is a class
  over an array of slots with `prev`/`next` indices, a LIFO free list, two price maps caching depth
  and count, and an id map, all updated in place. Ghost chains record which slots each level's list
  runs through; `Memory.Inv` ties them to the links, the caches, the free list and the id map. Every
  method is proved to do to the abstract book exactly what the abstract operation does.

`Invariants`, `OrderTypes`, `Agreement`, `Prices`, `Entry`, `Crossing`, `TimePriority`, `Conservation`,
`Limits`, `TradeCount`, `Lots`, `Bounds`, `BulkCancel`, `Depth`, `Snapshot` and `Feed` prove properties
of the abstract engine over every book and every run; `Prices` and `Entry` say them in stored orders and
plain numbers; `Witnesses` holds runs on which the order types come apart.
Through `Orderbook.ApplyAll` and `Orderbook.ProcessMarketDataBatch` they hold of the class.

Points where the code decides and a reader might expect otherwise:

- Two leftover market orders (an INT_MAX bid and an INT_MIN ask) stop the loop with the book crossed
  (Orderbook.h:250-252). "The book is never crossed" is therefore false. Of all operations on an
  uncrossed book, `Crossing.StepLeavesCrossExactly` says which leave it crossed: an accepted add that
  may rest, at its side's market price (market orders are such adds), against a facing head at the
  other market price. A run is uncrossed throughout exactly when it makes no such add
  (`Crossing.RunUncrossedExactly`). `Invariants.CrossedAfterMarketPair` gives a run that ends crossed
  with no such pair left on top.
- Fill-or-kill pays a maker its stored price even when that is a sentinel (Orderbook.h:198); the
  matching loop does not (Orderbook.h:255-259). And on a book left crossed the loop goes on trading the
  orders behind the new one (Orderbook.h:236-292), where fill-or-kill stops. On every tidy book, crossed or
  not, FOK does what GTC does exactly when it fills, `OrderTypes.PricingsAgree` holds and
  `Agreement.TradesAlone` holds; the last is automatic on an uncrossed book.
  `Witnesses.FillOrKillDiffersOnRun` and `Witnesses.FillOrKillStopsWhereLoopGoesOn` give runs after which
  each reason alone makes them differ.
- A same-price modify does not validate its quantity (Orderbook.h:451-458), so zero and oversized
  quantities can rest. `Lots.StepKeepsLotsExactly` shows that, with the lot size fixed, it is the only way
  out of whole lots.
- The comment "cancel unfilled IOC remainder" describes IOC as GTC plus cancel. On a crossed book the
  early return (Orderbook.h:392) makes the two differ; the exact condition is proved, and
  `Witnesses.ImmediateOrCancelDiffersOnRun` gives a run after which they do.
- tests.cpp:101 expects a trade at 100 where the resting bid is at 105. The code trades at 105, the
  resting side's price (Orderbook.h:254-259), and so does the model.

`dafny verify dfyconfig.toml` checks the whole project.

## Model

| member | source | states |
|---|---|---|
| Rules.NotionalFits | ExchangeRules.h:34-37 | the 64-bit notional product of any price and quantity cannot overflow, so the unbounded product is the one compared |
| Rules.AdmitsExactly | ExchangeRules.h:24-37 | an order is admitted exactly when its quantity is in range and whole lots and, unless the price is a sentinel, the price is positive whole ticks and the value suffices |
| PriceTimeQueue.InsertAt | Orderbook.h:110-118 | a new order stands behind every order its price does not beat and ahead of every order it beats |
| PriceTimeQueue.RemoveIsStable | Orderbook.h:425-440 | cancelling takes out one position, head, middle or tail, and moves nothing else |
| PriceTimeQueue.InsertThenRemove | Orderbook.h:425-440 | removing an order just inserted restores the queue |
| SlotPool.AppendKeepsLevel | Orderbook.h:110-118 | the pointer writes of an append leave an acyclic list with the slot last, prev inverse to next, count and wrapped depth right, only links of this list touched |
| SlotPool.RemoveKeepsLevel | Orderbook.h:122-131 | stitching around any position leaves the list without exactly that slot, count and wrapped depth right |
| SlotPool.ResizeKeepsLevel | Orderbook.h:451-458 | a quantity change with its cached-depth update keeps the level's list and its depth modulo 2^32 |
| PriceMap.Best | Orderbook.h:79-80 | begin() of either ordered map: a key no other key beats |
| PriceMap.FlattenSplit | Orderbook.h:79-80 | reading levels in map order puts everything ahead of a price before its level and everything behind it after |
| Memory.LinkKeepsInv | Orderbook.h:157-162 | linking a held slot keeps the whole invariant and is insertion into the abstract queue |
| Memory.UnlinkKeepsInv | Orderbook.h:122-131 | unlinking, forgetting and freeing a slot keeps the whole invariant and removes exactly its position |
| Memory.ResizeKeepsInv | Orderbook.h:200-206 | a fill or quantity change keeps the whole invariant and changes one order in place |
| Memory.EraseKeepsInv | Orderbook.h:290-291 | erasing an empty level keeps the invariant and is invisible in the book |
| Memory.OffBookKeepsInv | Orderbook.h:94-105 | taking, writing or returning a slot outside every list is invisible in the book |
| MemoryViews.ValidIsTidy | Orderbook.h:75-85 | every memory satisfying the invariant stands for sorted queues with ids unique across the book |
| MemoryViews.SlotsPartition | Orderbook.h:45-60 | every slot is either free or linked, never both |
| MemoryViews.OnePlace | Orderbook.h:45-60 | a linked slot stands at one position of one list, the one its side, price and id name |
| MemoryViews.CachedDepth | Orderbook.h:66-73 | a level's totalQty is its price's true depth modulo 2^32, and a price without a level has depth zero modulo 2^32 |
| Orderbooks.Orderbook.constructor | Orderbook.h:359-365 | a new book is empty, valid, with the default rules, every slot free and slot 0 allocated first |
| Orderbooks.Orderbook.Alloc | Orderbook.h:94-101 | fails exactly when no slot is free, changing nothing; otherwise hands out the last freed slot, blank and in no list |
| Orderbooks.Orderbook.Free | Orderbook.h:103-105 | pushes one slot on the free stack |
| Orderbooks.Orderbook.DllAppend | Orderbook.h:110-118 | refines the list append |
| Orderbooks.Orderbook.DllRemove | Orderbook.h:122-131 | refines the list removal at any position |
| Orderbooks.Orderbook.InsertIntoBook | Orderbook.h:157-162 | the order joins the tail of its own price, creating the level when needed |
| Orderbooks.Orderbook.FillSlot | Orderbook.h:200-206 | takes n from one order and from its level's cached depth, without underflow, and changes nothing else |
| Orderbooks.Orderbook.Retire | Orderbook.h:214-222 | forgets the id, unlinks and frees the slot; all other orders keep their place |
| Orderbooks.Orderbook.ConsumeHead | Orderbook.h:272-287 | takes n from the first order of a side, which leaves its queue exactly when n empties it |
| Orderbooks.Orderbook.EraseIfEmpty | Orderbook.h:217-220 | a level goes exactly when its list is empty |
| Orderbooks.Orderbook.CanMatch | Orderbook.h:135-143 | answers whether the facing side's first order is within the limit |
| Orderbooks.Orderbook.ValidateOrder | Orderbook.h:145-155 | accepts exactly fresh ids that pass the rules, sentinel prices exempt from the price rules |
| Orderbooks.Orderbook.CollectLevel | Orderbook.h:174-185 | walking one level's links plans its slots in order until the level or the order is exhausted |
| Orderbooks.Orderbook.CollectFOK | Orderbook.h:171-190 | plans the facing slots from the front without gaps, with the quantities of the abstract plan, touching nothing |
| Orderbooks.Orderbook.FillMatch | Orderbook.h:196-223 | one planned match fills the first facing order and leaves the rest of the plan valid |
| Orderbooks.Orderbook.ExecuteFOK | Orderbook.h:192-227 | every planned match is still valid when its turn comes, the result is the maker-priced sweep, and the order's slot is returned |
| Orderbooks.Orderbook.TotalPlanned | Orderbook.h:403-404 | the 32-bit total of the plan is its true total |
| Orderbooks.Orderbook.SubmitFOK | Orderbook.h:395-407 | compares plan with quantity without wrap-around and executes or leaves the book alone |
| Orderbooks.Orderbook.TradeHeads | Orderbook.h:261-288 | one round: the first bid and the first ask trade what they share, at least one leaves |
| Orderbooks.Orderbook.MatchLevels | Orderbook.h:261-288 | the inner loop runs until one of the two lists is empty and makes the abstract loop's trades |
| Orderbooks.Orderbook.MatchBestLevels | Orderbook.h:254-291 | each outer round erases at least one level |
| Orderbooks.Orderbook.MatchOrders | Orderbook.h:233-297 | trades and book are those of the abstract loop, then the IOC remainder is cancelled |
| Orderbooks.Orderbook.SubmitToBook | Orderbook.h:409-420 | inserting and matching is the abstract loop on the book with the order queued |
| Orderbooks.Orderbook.AddOrder | Orderbook.h:374-421 | for every order type the result and the book are the abstract operation's; an exhausted pool leaves the whole memory unchanged |
| Orderbooks.Orderbook.CancelOrder | Orderbook.h:425-440 | removes exactly the named order, nothing when the id is unknown |
| Orderbooks.Orderbook.Requantify | Orderbook.h:451-458 | one order gets the new quantity in place, its level the new depth, nothing else moves |
| Orderbooks.Orderbook.ModifyOrder | Orderbook.h:445-466 | is the abstract modify, and never fails for lack of a slot |
| Orderbooks.Orderbook.ListGoodForDay | Orderbook.h:471-474 | collects exactly the ids whose stored order is good-for-day |
| Orderbooks.Orderbook.CancelListed | Orderbook.h:475 | cancels the listed ids one after another |
| Orderbooks.Orderbook.CancelGoodForDayOrders | Orderbook.h:470-476 | leaves exactly the abstract end-of-day book whatever order the id map lists ids in |
| Orderbooks.Orderbook.ClearBook | Orderbook.h:326-331 | empties the book and frees every slot |
| Orderbooks.Orderbook.AddLevels | Orderbook.h:334-349 | adds one order per non-zero level, skipping those that cannot be added, and advances the synthetic id with wrap-around |
| Orderbooks.Orderbook.ProcessSnapshot | Orderbook.h:326-354 | is a clear followed by the adds of the non-zero levels; leaves one order per level taken, as sent and under its synthetic id, and no id below 2^63 in use |
| Orderbooks.Orderbook.GetOrderInfos | Orderbook.h:485-494 | lists, best first, exactly the prices whose depth is non-zero modulo 2^32, with that depth |
| Orderbooks.Orderbook.HasOrder | Orderbook.h:482 | an id is known exactly when an order rests under it |
| Orderbooks.Orderbook.PoolUsed | Orderbook.h:480-539 | used slots, the id map's size and the resting orders are one number |
| Orderbooks.Orderbook.SetExchangeRules | Orderbook.h:369 | the rules are then the given ones, and the book is as it was |
| Orderbooks.Orderbook.Apply | Orderbook.h:369-476 | each public call on the book, and the first phase of a snapshot, takes the abstract step, trades included |
| Orderbooks.Orderbook.ApplyAll | Orderbook.h:369-476 | any sequence of such calls is the abstract run, trades included |
| Orderbooks.Orderbook.ProcessMarketData | Orderbook.h:498-521 | a message is the add with its own five fields, the cancel of its id, its modify, nothing, or the rebuilding of the book; none fails |
| Orderbooks.Orderbook.ProcessMarketDataBatch | Orderbook.h:523-528 | the messages are handled one after another in order, and every one counts as processed |
| Matching.MatchSettles | Orderbook.h:236-252 | from any book the loop stops uncrossed or with exactly the market pair on top |
| Matching.MatchIsBounded | Orderbook.h:236-292 | every trade removes an order, zero-quantity orders included, so trades are at most the orders that leave |
| Matching.MatchLeavesResidues | Orderbook.h:261-288 | both sides lose whole orders from the front and at most the next one is reduced |
| Matching.MatchConserves | Orderbook.h:261-288 | bids and asks fall by the traded quantity, in total and for each id |
| Matching.MatchRespectsLimits | Orderbook.h:237-269 | every trade of the loop is within both orders' stored prices, on any book |
| Matching.MatchIsSweep | Orderbook.h:233-297 | on any uncrossed book, insert-and-match is the one-sided sweep with the remainder queued last at its price |
| Matching.MatchFromFront | Orderbook.h:233-297 | on any book, the front order of the aggressor's side sweeps first, and only if it is used up does the loop go on, with the orders behind it |
| Matching.MatchIsSweepAll | Orderbook.h:233-297 | on any book, the two-sided loop is the aggressor's orders sweeping the facing queue one after another |
| Matching.MatchPaysDuePrices | Orderbook.h:254-269 | on any book, every trade of the loop is between an order of each side at the price due between these two |
| Matching.SweepInPriority | Orderbook.h:171-212 | the i-th trade is with the i-th facing order, at its due price, taking all of it unless it is the last |
| Matching.SweepStops | Orderbook.h:236-252 | an order not used up has eaten whole orders up to a price it may not take |
| Matching.SweepConserves | Orderbook.h:205-212 | what the order gets is what the queue loses is what the trades say |
| Matching.SweepFills | Orderbook.h:171-190 | an order is used up exactly when the unbounded depth within its limit suffices |
| FillOrKill.FillsCover | Orderbook.h:171-190 | the planned quantities sum to the smaller of the order and the unbounded depth within its limit |
| FillOrKill.ExecutingStep | Orderbook.h:192-223 | each planned quantity is the sweep's next step and the rest of the plan stays right |
| Invariants.StepKeepsSound | Orderbook.h:374-476 | every operation keeps queues sorted, ids unique, only GoodTillCancel and GoodForDay resting, at most one order per slot |
| Invariants.RunKeepsSound | Orderbook.h:374-476 | the same over every run |
| Invariants.StepKeepsUncrossed | Orderbook.h:374-476 | from an uncrossed book every operation ends uncrossed or with the market pair on top |
| Invariants.RunStaysUncrossed | Orderbook.h:374-476 | over every run the book is uncrossed unless some earlier step left the market pair resting |
| Invariants.CrossedAfterMarketPair | Orderbook.h:250-252 | the exception is real: a run that ends crossed without the pair |
| Invariants.ModifyNeverExhausts | Orderbook.h:461-465 | a price-changing modify always finds the slot its cancel freed |
| Invariants.WithoutGoodForDayExact | Orderbook.h:470-476 | the end-of-day sweep keeps exactly the orders that are not good-for-day |
| Invariants.WithoutGoodForDayThins | Orderbook.h:470-476 | and keeps them in their original queue order |
| OrderTypes.AddIsSweep | Orderbook.h:374-421 | any non-FOK add that reaches an uncrossed book, market orders included, trades strictly in priority; the remainder rests last or is dropped if IOC |
| OrderTypes.AddIsSweepAll | Orderbook.h:233-297 | on any book at all, an add is the orders of its side sweeping the facing queue in turn, the new order in its place |
| OrderTypes.AddAheadOfHead | Orderbook.h:233-297 | on any tidy book, an order that beats its own side sweeps in priority first; used up, the orders behind it trade on with what it left; not used up, its remainder is queued first or dropped |
| OrderTypes.AddBehindHead | Orderbook.h:233-297 | on any book, an order that does not beat the head of its own side waits: the first trade is that head's |
| OrderTypes.MarketTakesEverything | Orderbook.h:377-387 | on an uncrossed book a market order trades, in priority, the smaller of its quantity and everything facing it, and its remainder rests at the sentinel price; a leftover market order heading the facing queue stops it whole |
| OrderTypes.MarketOnAnyBook | Orderbook.h:377-387 | on any tidy book it takes the same share, and first, before the orders behind it trade on; only an older market order on its own side trades ahead of it |
| OrderTypes.AddPaysMakersExactly | Orderbook.h:254-259 | on an uncrossed book the i-th trade is at the i-th facing order's price, for all trades, exactly when the incoming limit is its own market price, or no market order heads the facing queue, or the limit equals that head's price |
| OrderTypes.AddPaysStoredPricesExactly | Orderbook.h:254-259 | on any tidy book, all trades of an add are at their makers' stored prices exactly when the same holds of the best price on the order's side |
| Prices.MatchPrices | Orderbook.h:254-259 | on any book, every trade of the loop between a bid and an ask is at the ask's price if the bid is at INT_MAX, else at the bid's if the ask is at INT_MIN, else at the facing order's |
| Prices.AddPricesTrades | Orderbook.h:254-269 | the same for every add on any book, the incoming order at its own limit, INT_MAX or INT_MIN for a market order; on a tidy book the ids of a trade name one order each |
| Prices.AddTradesExactly | Orderbook.h:254-288 | on an uncrossed book the i-th trade is with the i-th facing order, whole unless last, at the incoming limit if that order rests at its market price, else at its stored price |
| Prices.FillOrKillTradesExactly | Orderbook.h:192-223 | fill-or-kill trades with the facing orders in turn, whole unless last, always at their stored prices |
| Entry.MarketIsGoodTillCancel | Orderbook.h:377-387 | with something facing it, a market order is the good-till-cancel order at INT_MAX or INT_MIN, trades and book included; with nothing facing it, nothing happens |
| Entry.RestsAsSent | Orderbook.h:409-420 | what rests under a new id is on the order's side, at its limit, of its type, for no more than it asked; a market order rests as good-till-cancel; IOC and FOK never rest |
| Entry.MarketSurvivesTheDay | Orderbook.h:377-387 | what rests of a market order is still there after the end-of-day sweep |
| Entry.RejectedExactly | Orderbook.h:145-155 | a used id or values outside the rules change nothing, whatever the type |
| Entry.LetInExactly | Orderbook.h:145-155 | with a new id and a free slot, an order that may rest has an effect exactly when quantity, lot, tick, price and value pass the rules, sentinel prices exempt |
| Entry.FillOrKillLetInExactly | Orderbook.h:395-407 | the same for FOK, and then also exactly when the depth suffices |
| Entry.ImmediateOrCancelDropped | Orderbook.h:392 | an IOC order with nothing within its limit has no effect, on a crossed book and a full pool too |
| Entry.ExhaustedExactly | Orderbook.h:94-96 | an add fails exactly when the pool is full and a new, valid order needs a slot, and then nothing has changed |
| Entry.NewBookLetsIn | ExchangeRules.h:8-12 | a new book lets in quantities 1 to 1000000 at prices from 1 up and at INT_MIN, and nothing else |
| Entry.RulesInForce | Orderbook.h:369 | after any run the rules are those last set, or the initial ones |
| Entry.LastRulesDecide | Orderbook.h:369 | after any run, an order that may rest is let in exactly when it passes the rules last set |
| Entry.CancelExactly | Orderbook.h:425-440 | a cancel takes out the order of its id on whichever side and leaves all others in their order |
| OrderTypes.FillOrKillExactly | Orderbook.h:395-407 | FOK trades its whole quantity in priority when the unbounded depth suffices, otherwise nothing changes; it never rests |
| Agreement.FillOrKillAgreesWithGoodTillCancel | Orderbook.h:171-297 | on any tidy book FOK equals GTC if and only if it fills, no sentinel maker separates the price rules, and the order trades alone, which it does on every uncrossed book |
| Agreement.FillOrKillAgreesWithImmediateOrCancel | Orderbook.h:171-297 | on any tidy book FOK equals IOC if and only if the same when it fills, and otherwise if and only if IOC makes no trade: it cannot match, or the book with the order queued is settled |
| OrderTypes.ImmediateOrCancelIsAddThenCancel | Orderbook.h:392-420 | IOC equals GTC followed by cancel if and only if it can match now or the book had nothing left to trade, as every uncrossed book |
| OrderTypes.AddThenCancelRestores | Orderbook.h:425-440 | cancelling an order that rested untraded restores the book |
| OrderTypes.RestsLast | Orderbook.h:107-118 | an order that rests untraded is last at its price |
| OrderTypes.ModifyInPlace | Orderbook.h:451-459 | a same-price modify keeps every place and changes one quantity |
| OrderTypes.ModifyLosesPriority | Orderbook.h:461-465 | on any book, a price change that does not trade puts the order last at its new price with its type kept, or loses it when the new values are rejected |
| OrderTypes.ModifyIsSweep | Orderbook.h:461-465 | on an uncrossed book a valid price change trades strictly in priority at its new price, and the remainder rests last there with its type kept |
| OrderTypes.ModifyIsCancelThenAdd | Orderbook.h:461-465 | a price-changing modify equals, trades included, the run of a cancel and an add of the same type |
| OrderTypes.ModifyNeedsItsSide | Orderbook.h:446-449 | an unknown id or a side flip changes nothing |
| TradeCount.AddIsBounded | Orderbook.h:236-292 | no add of any type makes more trades than there are live orders once it is in |
| TradeCount.RunIsBounded | Orderbook.h:374-476 | over any run from any book, trades made plus orders left are at most the orders there were plus the adds; modifies cost nothing |
| Crossing.AddLeavesCrossExactly | Orderbook.h:374-421 | an add of any type, accepted or not, leaves an uncrossed book crossed exactly when it may rest at its market price against a facing head at the other one |
| Crossing.ModifyKeepsUncrossed | Orderbook.h:445-466 | no modify, to a sentinel price either, leaves an uncrossed book crossed |
| Crossing.StepLeavesCrossExactly | Orderbook.h:250-252 | of all operations on an uncrossed book, exactly those adds leave it crossed |
| Crossing.RunUncrossedExactly | Orderbook.h:250-252 | a run is uncrossed after every operation exactly when none of its operations, in its turn, is such an add |
| TimePriority.ArrivalIsLast | Orderbook.h:445-466 | an id's arrival is the last operation of the run that brought it to its price: an add under a new id or a price-changing modify |
| TimePriority.FirstComeFirstServed | Orderbook.h:107-118 | on every run from an empty book, of two orders resting at one price the one whose arrival is earlier stands ahead, and conversely |
| Witnesses.FillOrKillDiffersOnRun | Orderbook.h:198 | after one add, FOK sells at the sentinel price where GTC and IOC sell at the limit |
| Witnesses.FillOrKillStopsWhereLoopGoesOn | Orderbook.h:236-292 | a run leaves 105 bid against 100 offered with no sentinel; there FOK trades its ten, GTC and IOC trade five more |
| Witnesses.ImmediateOrCancelDiffersOnRun | Orderbook.h:392 | after four messages, IOC and GTC followed by cancel leave different results |
| Conservation.AddBalancesSides | Orderbook.h:196-295 | in every add that reaches the book, of every type, the facing side loses exactly what traded, the own side gains the order less trades and IOC remainder |
| Conservation.AddConserves | Orderbook.h:196-295 | for each id, before plus entered equals after plus traded plus cancelled remainder |
| Conservation.StepConserves | Orderbook.h:374-476 | the same for every operation, cancels and modifies accounted for |
| Conservation.RunConserves | Orderbook.h:374-476 | the same over every run |
| Limits.AddRespectsLimits | Orderbook.h:171-269 | every trade of every add, FOK or loop, crossed or sentinel book, is within both orders' stored prices |
| Limits.ModifyRespectsLimits | Orderbook.h:461-465 | the same for the re-add of a modify |
| Limits.RunRespectsLimits | Orderbook.h:374-476 | every trade of every run is within both orders' prices as stored at the operation that made it |
| Lots.StepKeepsLotsExactly | ExchangeRules.h:29-32 | with the lot size fixed, every trade is in positive lot multiples, and the book stays so if and only if the operation is not an in-place modify to a bad quantity |
| Lots.RunKeepsLotsExactly | ExchangeRules.h:29-32 | over every run with the lot size fixed, the book is in lots throughout if and only if no operation, in its turn, is such a modify, and then every trade is in lots |
| BulkCancel.CancelOrderIrrelevant | Orderbook.h:470-476 | any two enumerations of the same ids leave the same book |
| BulkCancel.GoodForDaySweep | Orderbook.h:470-476 | cancelling the good-for-day ids in any order is the end-of-day sweep |
| BulkCancel.ClearSweep | Orderbook.h:326-331 | cancelling every id in any order empties the book |
| Depth.DepthListUnique | Orderbook.h:485-494 | the description of the depth list leaves no choice |
| Depth.ListedDepthIsTrue | Orderbook.h:69 | a listed depth is the true one exactly when that is below 2^32 |
| Bounds.RunAtMost | Orderbook.h:451-458 | no run brings in a quantity above the cap on the rules and on modifies |
| Bounds.DepthsAreTrue | Orderbook.h:485-494 | when pool size times that cap is below 2^32, every depth listed on any run is the true depth and none is missing |
| Snapshot.AllTaken | Orderbook.h:334-349 | when every non-empty level is admissible and they fit the pool, all of them are taken |
| Snapshot.SnapshotDepth | Orderbook.h:326-354 | after a snapshot whose taken levels do not cross, exactly one good-till-cancel order stands for each level taken, under 2^63 plus the number of non-empty levels before it, and each price's depth is what these levels list; empty and inadmissible levels and those beyond the pool are skipped |
| Snapshot.SnapshotIds | Orderbook.h:333-349 | after any snapshot, crossed or not, only good-till-cancel orders rest and every id below 2^63 is free |
| Snapshot.SnapshotRoundTrip | Orderbook.h:326-354 | the depth read back is the taken levels aggregated by price and sorted, whatever book was there before |
| Feed.MessageIsHandled | Orderbook.h:301-324 | the operations each kind of message stands for do what the message says, with its own fields |
| Feed.NewOrderRestsAsSent | Orderbook.h:301-303 | what a new-order message leaves under an unused id has the message's side, type and price and at most its quantity |
| Feed.TransientNeverRests | Orderbook.h:301-303 | no IOC or FOK message leaves its id resting |
| Feed.CancelledIsGone | Orderbook.h:310-313 | after a cancel message its id rests nowhere and all others rest as before |
| Feed.SnapshotFreesIds | Orderbook.h:326-354 | after a snapshot message only good-till-cancel orders rest and every id below 2^63 is free |

## Left out

- Statistics, latency counters, sequence-gap detection and message timestamps (Orderbook.h:299-324, 511-517, 530-531, MarketDataFeed.h): they do not touch the book. `ProcessMarketData` keeps the dispatch, the initialized flag and the last sequence number; the trades an add makes there go only to the counters.
- `LiveMarketData.cpp`, `benchmarks.cpp`: network, JSON, display and timing.
- `SetTickSize`, `SetLotSize`, `RoundToTick`, `RoundToLot`, `RejectReason`, `OrderValidation`, `Order.h`: unused by the engine. A zero tick or lot, which divides by zero in the source, is excluded by the type of the rules.
- Orderbooks.Orderbook.constructor: pool sizes above INT_MAX, where the source's cast to int32 overflows, are excluded.
- The rounds of the matching loop and the level erasures are methods of their own (`MatchLevels`, `TradeHeads`, `ConsumeHead`, `EraseIfEmpty`), and within a round the bid is unlinked before the ask is filled, where the source fills both first; the fields written and the free-list order come out the same.
- The exception of an exhausted pool is the result value `PoolExhausted`.
- Snapshot.SnapshotRoundTrip: a snapshot whose taken levels cross trades like any run of adds, so its depth is not read back; snapshots of 2^63 or more levels, which no vector holds, are excluded too.
- Price levels are values written back into their map rather than references into it; the internals of `std::map` and `flat_hash_map` are finite maps with a best key and an arbitrary listing order.
