# Verified models of a Tibia game server

The Forgotten Server keeps a world of nested items, players who trade and use a market, timers, status effects and
cached views of the map. This project models the parts that carry the most state and proves what they guarantee. The
models do what the code does, branch by branch; scripts, messages to clients and magic effects are no-ops or answers
handed in as parameters.

| part | files |
|---|---|
| items in containers: links, 32-bit weight caches, counts, queries | `Ancestry`, `ItemHeap`, `CylinderQueries`, `Items`, `DeepWeight`, `Conservation` |
| moving and adding items | `MoveSteps`, `MoveLaws`, `Movement`, `LossExample`, `AddLaws`, `AddItem` |
| walking through containers | `Walk`, `ContainerIterator` |
| saving and loading a forest of items | `SavedItems`, `LoadedItems` |
| the OTB file format and its loader | `OtbFormat`, `OtbLoader` |
| trades between players | `TradeProtocol`, `TradeLaws`, `Trade` |
| the market | `MarketLedger`, `MarketLaws`, `Market`, `MarketWalk`, `MarketItems` |
| paying with coins | `Coins`, `Money` |
| the decay wheel | `DecayWheel`, `DecayLife`, `Decay` |
| the walk cache | `WalkCache` |
| combat areas | `AreaMatrix`, `Areas` |
| conditions: their stream, damage over time, the ledger of effects | `ConditionFormat`, `ConditionRoundTrip`, `ConditionStream`, `DamageSchedule`, `ConditionBook`, `ConditionLaws`, `ConditionLedger` |
| shared | `Options`, `Sums`, `Totals`, `Bytes` |

The code that works in place is modelled by classes, arrays and loops. Most of it is proved equal to a function on a
snapshot of the state, and what the code promises is proved about that function: what every step keeps, what whole runs
keep, what two operations undo. The files named `Laws` say what each request means without those functions, in terms of
lists, counts, purses, seats and times, and the methods ensure that too.

## What does not hold

Some promises fail, and the condition under which they hold is proved:

- A move that merges with a stack at a slot at or beyond the capacity of the container loses the pieces that do not fit
  the stack, because adding at such an index drops the item. `Movement.LossIsBeyondCapacity` says exactly when, and
  `LossExample.LoseThirty` moves 80 pieces on a heap where 30 of them disappear. Containers within their capacity, and
  plain containers under normal flags, are safe.
- `updateThing` does not always keep the cached item count of a container exact: counts are cut to a byte, and fluids and
  charged items keep their count. `DeepWeights.UpdateKeepsAmmoIff` says exactly when it does, and
  `DeepWeights.ChargesSpoilAmmo` is a heap where it does not.
- The distance of two rows is never negative, so a step south-east or south-west leaves out the wrong row when it shifts
  the columns of the walk cache. `WalkCache.Creature.OnStep` says exactly when the cache is right nevertheless.
- An expired market offer is given back with the amount that was read when the expired offers were listed. That
  conserves money and goods if and only if no part of the offer was accepted in between
  (`MarketLedger.ExpireConservesIff`, `MarketLedger.ExpiryAfterRun`). `MarketLedger.ExpiryCanFail` is a run where one was.
- A player may agree to a trade before the partner has offered anything, and the agreement stands when the offer comes.
  After any run the player who agreed first has seen the item that comes if and only if the partner was not still
  waiting to answer then (`TradeProtocol.AgreedToWhatComesIff`); `TradeProtocol.EarlyAgreementStands` is a run where
  it was.
- The ticks of a damage condition come back from the database as the sum of its intervals, and the drunkenness of a
  drunk condition as the usual one (`ConditionRoundTrip.UnchangedIff`); `ConditionRoundTrip.PartlyFeltComesBackLonger`
  is a condition that gains a second.
- Damage rounds whose intervals are not whole seconds may outlast their condition: all are dealt if and only if the
  rounds, each rounded up to whole thinks, fit (`DamageSchedules.EndsOnTime`). `DamageSchedules.LastRoundLost` loses the
  last of three.
- An OTB file whose root has neither properties nor children is refused for its size (`OtbFormat.FileIsRead`).

## Model

| member | source | states |
|---|---|---|
| `Items.Item.UpdateItemWeight` | src/container.cpp:138-144 | the cached weight of the container and of every container around it moves by the difference in 32 bits, no other record changes; the upward walk ends because parents form a forest |
| `ItemHeap.ShiftMovesDefect` | src/container.cpp:138-144 | propagating a difference upwards repairs the balance of the container it starts at and leaves that of every other container alone, although each container on the way changes its own weight |
| `ItemHeap.AddKeepsValid` | src/container.cpp:479-511 | hanging an item that lies nowhere and does not enclose the container into it, at either end, keeps links, forest and all weight caches right |
| `ItemHeap.RetypeKeepsValid` | src/container.cpp:513-537 | changing type and count of a content and propagating the weight difference keeps the heap valid, all ancestors included |
| `ItemHeap.ReplaceKeepsValid` | src/container.cpp:539-566 | swapping a content for a loose item keeps the heap valid and leaves the old item loose |
| `ItemHeap.ReplaceKeeps` | src/container.cpp:539-566 | after a replacement the new item stands exactly where the old one stood, the old one lies nowhere, and no other list, parent or count changes |
| `ItemHeap.StacksAddUp` | src/item.cpp:984-991 | two stacks weigh together what their pieces weigh as one stack, in 32 bits; an empty stack weighs one piece |
| `ItemHeap.UnlinkKeepsValid` | src/container.cpp:568-606 | taking a content out keeps the heap valid and leaves the item loose |
| `ItemHeap.AddKeepsAmmo` | src/container.cpp:474-511 | adding keeps every cached item count equal to the sum of the direct counts |
| `ItemHeap.UnlinkKeepsAmmo` | src/container.cpp:568-606 | removing keeps every cached item count equal to the sum of the direct counts |
| `DeepWeights.CachedWeightIsDeep` | src/container.cpp:138-149 | in a valid heap the cached weight of every container is the recursive sum of its contents at every depth, in 32 bits |
| `DeepWeights.CachedAmmoIsSum` | src/container.cpp:474-606 | when counts balance, the cached item count is the sum of the counts of the direct contents |
| `DeepWeights.RetypeKeepsAmmoIff` | src/container.cpp:513-537 | changing a content keeps the cached count exact if and only if the difference announced is the difference that happens |
| `DeepWeights.UpdateKeepsAmmoIff` | src/container.cpp:513-537 | for every 32-bit count, `updateThing` keeps the cached count exact if and only if the item takes the count as it is: below 256 for most items, unchanged for fluids and charged items |
| `DeepWeights.ChargesSpoilAmmo` | src/container.cpp:513-537 | a concrete heap where giving a wand with charges a count spoils the cached count of its box |
| `DeepWeights.ReplaceKeepsAmmo` | src/container.cpp:539-566 | `replaceThing` keeps every cached count exact |
| `DeepWeights.RemoveKeepsAmmo` | src/container.cpp:568-606 | `removeThing` keeps every cached count exact, for a part of a stack and for a whole item |
| `Items.Item.AddThing` | src/container.cpp:479-499 | the heap after adding at an index: an index at or beyond the capacity drops the item silently, every other one puts it in front |
| `Items.Item.AddItemBack` | src/container.cpp:501-511 | the heap after adding at the back; validity is kept |
| `Items.Item.InternalAddThing` | src/container.cpp:718-729 | the heap after adding in front while loading; validity is kept |
| `Items.Item.UpdateThing` | src/container.cpp:513-537 | the heap after giving a content a new type and count: fluids and charges go to the subtype, all else to a byte; an item that is not a content is left alone |
| `Items.Item.ReplaceThing` | src/container.cpp:539-566 | the heap after replacing the content at an index; an index that does not exist changes nothing |
| `Items.Item.RemoveThing` | src/container.cpp:568-606 | the heap after taking pieces of a stack or a whole item; an item that is not a content is left alone |
| `Items.Item.GetThingIndex` | src/container.cpp:608-618 | the position of an item, or -1 exactly when it is not a content |
| `Items.Item.IsEnclosedBy` | src/container.cpp:244-290 | the upward walk finds exactly whether one item lies inside another at any depth |
| `Items.Item.QueryAdd` | src/container.cpp:226-316 | no error exactly when the item is welcome and, for "anywhere", a slot is free; each error exactly for its reason, in the order of the checks |
| `Items.Item.QueryMaxCount` | src/container.cpp:318-367 | how many pieces fit: a full stack in every free slot and what the stacks of the kind can still take, or the one in the slot; and the verdict that goes with it |
| `Items.Item.QueryRemove` | src/container.cpp:369-399 | no error exactly for a content, a possible number of pieces and a moveable item |
| `Items.Item.QueryDestination` | src/container.cpp:401-472 | a container in the slot is asked next, 254 asks the container around, 255 or beyond the capacity asks for any place; a stack with room in the slot comes before the first one in the list |
| `CylinderQueries.AskIsLawful` | src/container.cpp:401-472 | the same for every heap, told from the list of the container alone |
| `CylinderQueries.CanAddMeans` | src/container.cpp:226-316 | when each verdict on adding is given |
| `CylinderQueries.MaxCountMeans` | src/container.cpp:318-367 | the amount that fits is what free slots and stacks of the kind can take |
| `CylinderQueries.DestinationIsSafe` | src/container.cpp:401-472 | without a stack to merge with, the answered index is within the capacity or "anywhere", so adding there never drops the item; a sub-container gets "anywhere" and no merge |
| `Ancestry.LinkKeepsForest` | src/container.cpp:226-316 | giving an item a parent that it does not enclose keeps the parent relation a forest |
| `Ancestry.LinkBreaksForest` | src/container.cpp:244-290 | the check is needed: giving an item a parent inside itself breaks the forest |
| `Ancestry.CutKeepsForest` | src/container.cpp:568-606 | taking a parent away keeps the forest |
| `Ancestry.NoCycle` | src/container.cpp:138-144 | in a forest no number of steps upwards leads back, so upward propagation ends |
| `Conservation.AddCounts` | src/container.cpp:479-511 | adding brings exactly the pieces of the item into the container, for its kind, and changes no other number in any container |
| `Conservation.UnlinkCounts` | src/container.cpp:568-606 | taking out removes exactly the pieces of the item and changes no other number |
| `Conservation.RetypeCounts` | src/container.cpp:513-537 | a new count moves the number of pieces of that kind by the difference and no other number |
| `Conservation.TransferConserves` | src/game.cpp:1084-1242 | a transfer that brings what it takes conserves the pieces of every kind over any list of containers with both ends |
| `Movement.ResolveDestination` | src/game.cpp:1103-1119 | the loop answers the end of the chain of destinations that starts at the container and index asked for, after at most 16 layers |
| `Movement.ResolveLeads` | src/game.cpp:1103-1119 | that end is where the slot asked for leads: into a container lying there, to the container around for 254, and no further |
| `Movement.Transfer` | src/game.cpp:1178-1242 | the mutation after the queries: the pieces leave the source, the stack merged with grows by what it has room for, and the rest lies in front in the destination as the item itself or a new stack, or is lost beyond the capacity; no other list changes |
| `Movement.InternalMoveItem` | src/game.cpp:1084-1301 | the move goes through if and only if everybody agrees to the pieces asked for that fit, at the place the slot leads to; then exactly those leave the source, fill the stack found there and lie in front with the rest, and nothing else changes; otherwise nothing changes and there is an error, except for an item dropped on itself |
| `MoveLaws.DroppedOnContainer` | src/game.cpp:1103-1119 | pieces dropped on a container join its first stack with room, or its front; the list around gains nothing |
| `MoveLaws.MovedUp` | src/container.cpp:410-419 | index 254 puts the pieces into the container around |
| `MoveLaws.BeyondIsAnywhere` | src/container.cpp:421-436 | index 255, or one beyond the capacity, means any place |
| `MoveLaws.SlotComesFirst` | src/container.cpp:455-460 | a stack with room in the slot asked for is filled, whatever other stacks there are |
| `Movement.LossIsBeyondCapacity` | src/game.cpp:1084-1242 | a granted move loses pieces if and only if it merges with a stack of the same kind at a slot at or beyond the capacity and more pieces are moved than that stack has room for |
| `Movement.PlainMoveIsSafe` | src/game.cpp:1084-1301 | a container within its capacity, and a plain one under normal flags, never loses anything |
| `Movement.PlainMoveConserves` | src/game.cpp:1084-1301 | a move into a plain container conserves the number of pieces of every kind over any containers with both ends, and no container outgrows its capacity |
| `LossExample.MoveCanLose` | src/game.cpp:1084-1242 | a concrete valid heap where the destination chain ends at a stack of 50, a move of 80 pieces goes through without error, and 30 of them are lost |
| `LossExample.LoseThirty` | src/game.cpp:1084-1301 | the same on the objects: the move answers no error, the source goes from 80 pieces to none and the chest from 50 to 100 |
| `AddItem.InternalAddItem` | src/game.cpp:1310-1391 | at "anywhere": no error exactly when the item is welcome and free slots and stacks can take all of it; then the stacks of its kind are filled from the front of the list, each before the next, and what is left over lies in front; the recursion on the rest ends |
| `AddItem.FitsMeans` | src/game.cpp:1310-1345 | the three queries together say exactly that |
| `AddLaws.FilledOn` | src/game.cpp:1355-1378 | filling the first stack and then adding the rest fills all stacks in turn |
| `AddItem.FitsIsDecided` | src/game.cpp:1310-1345 | the three queries together decide exactly whether all pieces fit |
| `AddItem.RestFits` | src/game.cpp:1355-1378 | after merging a part the copy with the rest fits whenever the whole fitted |
| `ContainerIterators.ContainerIterator.Advance` | src/container.cpp:755-773 | one step visits exactly the next item in breadth-first order and keeps the list of containers still to open |
| `ContainerIterators.ContainerIterator.Current` | src/container.cpp:750-755 | while there is a next item the iterator can be dereferenced, at an item not visited before |
| `ContainerIterators.GetItemHoldingCount` | src/container.cpp:159-166 | the number of items inside a container at every depth |
| `ContainerIterators.IsHoldingItem` | src/container.cpp:168-176 | exactly whether an item lies inside the container at some depth |
| `ContainerIterators.GetItems` | src/container.cpp:663-676 | every item inside, each once, never a deeper one before a shallower one |
| `ContainerIterators.EndOfWalk` | src/container.cpp:740-773 | a finished walk has visited exactly the items strictly inside, each once, with non-decreasing depth |
| `Walk.WalkIsComplete` | src/container.cpp:755-773 | an item has been visited at the end if and only if it lies strictly inside the root |
| `SavedItems.SaveItems` | src/iologindata.cpp:575-662 | rows have unique running ids above 100, children larger ids than their container, and rebuilding the rows gives the forest; ids run from 101, the slots come first, and then one container after the other |
| `LoadedItems.LoadPlayerItems` | src/iologindata.cpp:436-466 | descending attachment with pushes to the front hangs every row under its holder in the order of the rows, with valid links and weights |
| `LoadedItems.SavedForestComesBack` | src/iologindata.cpp:471-496 | rows that describe a forest, once attached, are that forest: same nesting, same sibling order, in every slot |
| `LoadedItems.SaveAndLoad` | src/iologindata.cpp:957-982 | saving any forest and loading the rows gives the forest again with exact weight caches |
| `OtbFormat.ReadsBody` | src/fileloader.cpp:48-83 | reading the rendering of any well-formed body gives the node its elements mean and stops right behind the END |
| `OtbFormat.BodyOf` | src/fileloader.cpp:48-83 | whatever is read successfully is the rendering of a well-formed body |
| `OtbFormat.FileIsRead` | src/fileloader.cpp:14-89 | a document is accepted exactly when it is longer than an empty root, and its root is what the body means |
| `OtbFormat.ReadFileIsDocument` | src/fileloader.cpp:14-89 | every accepted file is a document: identifier, root, trailing bytes without nodes |
| `OtbFormat.UnescapeInverts` | src/fileloader.cpp:91-106 | removing escapes gives back the original property bytes, for all bytes |
| `OtbFormat.FileIsRanged` | src/fileloader.cpp:37-89 | the property ranges of all nodes of an accepted file lie in the file, so properties of every node can be read |
| `OtbFormat.TreeRoundTrip` | src/fileloader.cpp:37-106 | writing any tree and reading the file gives a node tree that stands for it: kinds, unescaped properties, children in order; only a root with neither is refused, for its size |
| `OtbFormat.ReadsLiteralFile` | src/fileloader.cpp:38-82 | a file given byte by byte is read as the tree it stands for |
| `OtbLoaders.Loader.Open` | src/fileloader.cpp:14-28 | a file is opened exactly when it is longer than the smallest root and its identifier is the accepted one or all zeros |
| `OtbLoaders.Loader.EmplaceBack` | src/fileloader.cpp:55-62 | growing a children vector invalidates the pointers into it; the node grown must be reached through a pointer that is still valid |
| `OtbLoaders.Loader.ParseTree` | src/fileloader.cpp:37-89 | the loop with its stack of pointers returns exactly what reading by recursion gives, refuses exactly what that refuses, and never follows an invalidated pointer |
| `OtbLoaders.Loader.GetProps` | src/fileloader.cpp:91-106 | false exactly for an empty range; otherwise the range without its escapes, in a buffer of the size of the range |
| `OtbLoaders.FinishDescends` | src/fileloader.cpp:50-64 | starting a child leaves the meaning of the rest of the file unchanged when one more node is open |
| `OtbLoaders.SetDeeper` | src/fileloader.cpp:50-64 | writing through the pointer to the last child is writing into the parent, and extends the chain of last children by one |
| `TradeProtocol.StartKeepsOrder` | src/game.cpp:3076-3105 | offering an item that is free keeps the desk orderly, whether the trade starts, is answered or is refused |
| `TradeLaws.RequestIsLawful` | src/game.cpp:3027-3074 | an offer is passed on exactly when both players are there, the item is free, it holds at most 99 others and the checks allow it |
| `TradeLaws.StartIsLawful` | src/game.cpp:3076-3105 | a trade starts exactly when the player is free or answers this partner, and the partner is free or trades with the player; and what seats and table are then |
| `TradeLaws.AcceptIsLawful` | src/game.cpp:3107-3221 | items change hands exactly when a player who is asked agrees, the partner has agreed, they can throw and scripts allow it; cancelled exactly when one of the last two fails, recorded exactly when the partner has not agreed; and what seats and table are then |
| `TradeLaws.CloseIsLawful` | src/game.cpp:3301-3347 | closing empties both seats and takes their items and references off the table, unless one is in transfer |
| `TradeProtocol.CloseKeepsOrder` | src/game.cpp:3301-3347 | closing empties both seats, takes exactly their items off the table with one reference each, and touches no other trade |
| `TradeProtocol.AcceptKeepsOrder` | src/game.cpp:3107-3221 | agreeing is recorded, or ends the trade for both; items change hands only when both have agreed, and then exactly the items on the table under the two owners |
| `TradeProtocol.TradeStages` | src/game.cpp:3076-3221 | the only stages two partners can be in: never both waiting, never both agreed, always an item on one side |
| `TradeProtocol.AgreedToWhatComesIff` | src/game.cpp:3107-3221 | after any run, when a trade is completed, the player who agreed first had seen the item that comes, if one comes, if and only if the partner was not still waiting to answer at that agreement; the one who agrees last has seen it |
| `TradeProtocol.RunKeepsConsents` | src/game.cpp:3076-3347 | over any run, every agreement that stands belongs to a player whose partner shows what was seen, or was still waiting |
| `TradeProtocol.EarlyAgreementStands` | src/game.cpp:3107-3121 | a run in which a player agrees before the partner has offered anything, and the items change hands |
| `TradeProtocol.EveryRunIsOrderly` | src/game.cpp:2961-3347 | after any sequence of requests from an empty desk: partners are mutual and distinct, no seat is in transfer, the table holds exactly the offered items with owner and reference, and no offered item equals, holds or lies in another |
| `Trades.Game.IsInTrade` | src/game.cpp:3027-3061 | exactly whether the item is on the table, holds an item on it or lies inside one |
| `Trades.Game.PlayerRequestTrade` | src/game.cpp:2961-3074 | the desk after a request: unchanged unless the item is free, holds at most 99 items and the checks allow it |
| `Trades.Game.InternalStartTrade` | src/game.cpp:3076-3105 | the decision and the new desk, from both players' states and partners |
| `Trades.Game.PlayerAcceptTrade` | src/game.cpp:3107-3221 | whether the agreement is ignored, recorded, cancels or exchanges, exactly, from the seats and the two flags; and the desk after it |
| `Trades.Game.InternalCloseTrade` | src/game.cpp:3301-3347 | the new desk after closing; nothing while items are being transferred |
| `Trades.Game.PlayerCloseTrade` | src/game.cpp:3291-3299 | the new desk after a player closes the trade |
| `MarketLedger.CreateTotals` | src/game.cpp:5642-5762 | creating an offer moves money and goods into escrow and fees, and changes neither total |
| `MarketLedger.CancelTotals` | src/game.cpp:5764-5840 | cancelling gives back exactly what is in escrow |
| `MarketLedger.AcceptTotals` | src/game.cpp:5842-6091 | accepting a part moves price and goods between the two players and out of escrow, and changes neither total |
| `MarketLaws.AcceptIsLawful` | src/game.cpp:5842-6091 | who gets what: a buyer pays coins first and gets the pieces, the seller gets the money in the bank, or the other way round for a buy offer; the offer shrinks by the pieces; nobody else is touched; nothing happens without the means |
| `MarketLaws.AcceptIsDecided` | src/game.cpp:5842-6091 | that leaves nothing open: two worlds that follow from the same request are the same |
| `MarketLaws.CreateIsLawful` | src/game.cpp:5642-5762 | who sells gives the pieces and pays the fee, who buys pays price and fee, coins first; otherwise nothing happens |
| `MarketLaws.CancelIsLawful` | src/game.cpp:5764-5840 | only the owner cancels, and gets back the pieces, or the money in the bank |
| `MarketLaws.ExpireIsLawful` | src/iomarket.cpp:99-195 | the owner gets back what the listed row says, as long as the offer is there |
| `MarketLedger.RunConserves` | src/game.cpp:5642-6091 | over any run of creating, cancelling and accepting, all money with fees and all goods of every ware and tier are conserved and offers stay within their limits |
| `MarketLedger.NoOverflow` | src/game.cpp:5698-5758 | in a sound world no sum of balances and escrow that a request forms reaches 64 bits |
| `MarketLedger.PriceFits` | src/game.cpp:5744-5746 | price times amount plus fee fits 64 bits within the limits on price and amount |
| `MarketLedger.OffersOnlyShrink` | src/game.cpp:5842-6091 | over any run an offer keeps everything but its amount, which never grows; offer numbers are not reused |
| `MarketLedger.ExpireConservesIff` | src/iomarket.cpp:99-195 | an expiry conserves money and goods if and only if the amount read when the expired offers were listed is still the amount of the offer |
| `MarketLedger.ExpiryAfterRun` | src/iomarket.cpp:197-209 | when requests are handled between listing and expiry, the expiry conserves money and goods if and only if none of them was an acceptance of the offer that went through |
| `MarketLedger.AmountUnchangedIff` | src/game.cpp:5842-6091 | over any run an offer keeps its amount if and only if no part of it was accepted |
| `MarketLedger.ExpiryCanFail` | src/iomarket.cpp:99-195 | a sound world where one piece is sold while the offer waits to be expired, and the expiry gives back too much |
| `Markets.Player.Pay` | src/game.cpp:5739-5758 | coins first, then the bank; the balance never underflows |
| `Markets.Player.Deliver` | src/game.cpp:5793-5825 | stack by stack or one by one, exactly the amount arrives |
| `Markets.Market.PlayerCreateMarketOffer` | src/game.cpp:5642-5762 | the request in 64-bit arithmetic does exactly what the ledger says, told from purses and offers: who pays, who gets what, and when nothing happens |
| `Markets.Market.PlayerCancelMarketOffer` | src/game.cpp:5764-5840 | the request in 64-bit arithmetic does exactly what the ledger says, told from purses and offers: who pays, who gets what, and when nothing happens |
| `Markets.Market.PlayerAcceptMarketOffer` | src/game.cpp:5842-6091 | the request in 64-bit arithmetic does exactly what the ledger says, told from purses and offers: who pays, who gets what, and when nothing happens |
| `Markets.Market.ProcessExpiredOffer` | src/iomarket.cpp:99-195 | the offer is removed and what the listed row says is given back |
| `MarketItems.GetMarketItemList` | src/game.cpp:6295-6344 | a list is returned exactly when depots and inbox hold enough; its items are wanted, distinct, inside, and without the last one there would not be enough; the 16-bit counter never wraps |
| `MarketItems.TakeGoods` | src/game.cpp:5711-5726 | exactly the amount leaves the listed items, nothing else is touched and nothing grows |
| `MarketItems.DebitGoods` | src/game.cpp:5703-5726 | all of the amount is taken if and only if the goods in depots and inbox, counted over the whole heap, are enough; then exactly that much less of them is left, else nothing changes |
| `MarketItems.TakenFromStock` | src/game.cpp:5703-5726 | taking an amount from a list of goods leaves exactly that much less of all goods there were |
| `MarketItems.TakenOnTheLedger` | src/game.cpp:5703-5726 | on the ledger that keeps the stock as a number, the taking is exactly the change the ledger makes |
| `MarketItems.InternalRemoveItem` | src/game.cpp:1393-1441 | the item is removed from where it lies, or the heap is unchanged and the verdict says why |
| `MarketItems.FoundIsListed` | src/game.cpp:6295-6344 | the list is what taking needs; of goods that do not stack it has exactly as many items as asked for |
| `MarketWalk.SearchEnds` | src/game.cpp:6305-6342 | when the queue is empty, found are exactly the wanted items anywhere inside a depot or the inbox that hold nothing |
| `MarketWalk.SearchSteps` | src/game.cpp:6309-6314 | passing a child keeps the queue without repetition and every container reached from an opened one |
| `Money.Cylinder.CountMoney` | src/game.cpp:1523-1570 | every stack of coins at every depth is listed once, by ascending worth, and the sum is their total worth |
| `Money.Cylinder.Spend` | src/game.cpp:1576-1592 | the loop always ends in a break; the stacks before the last one touched are gone, those behind untouched, and the change is below one coin of it |
| `Money.Cylinder.RemoveMoney` | src/game.cpp:1513-1594 | true exactly when the worth covers the price; then the total falls by exactly the price but for change no coin can give, and by exactly the price with a coin of worth one |
| `Money.Cylinder.AddMoney` | src/game.cpp:1596-1620 | pays out all but what the coins cannot give, in full stacks, with coins of the table that are worth no more than the sum |
| `Money.RoundsUp` | src/game.cpp:1582-1583 | rounding up takes no more coins than the stack has and less than one coin too much |
| `Money.ChangeIsExact` | src/game.cpp:1585-1585 | with a coin of worth one all change is given |
| `Coins.PaysExactlyIff` | src/game.cpp:1602-1619 | with a coin of worth one a payout is complete if and only if the number of the largest coins fits 32 bits |
| `DecayWheel.TickSound` | src/game.cpp:5101-5143 | a tick keeps every listed item held by exactly one reference and listed once |
| `DecayWheel.RunSound` | src/game.cpp:5061-5143 | over any run of ticks, enlistments and removals the wheel holds each listed item by one reference and no other, so each enlistment is released exactly once |
| `DecayWheel.PlacedDecaysIn` | src/game.cpp:5224-5230 | an item of duration d placed by the cleanup has 4*(d/1000) ticks left, one more if d%1000 is at least 875, and one tick if d is below 1000 |
| `DecayWheel.DecaysOnTime` | src/game.cpp:5101-5143 | from one second on the decay is never late and less than 875 ms early; a shorter duration counts as one tick |
| `DecayWheel.TickCountsDown` | src/game.cpp:5101-5143 | a tick brings a waiting item exactly one tick closer, and decays it exactly when that was its last |
| `DecayWheel.EnlistedWaits` | src/game.cpp:5224-5231 | an enlisted item waits for exactly its number of ticks after the cleanup |
| `DecayWheel.RunCountsDown` | src/game.cpp:5101-5143 | over any run that does not disturb it, an item never decays before its last tick |
| `DecayWheel.DecaysAtLastTick` | src/game.cpp:5101-5143 | and at its last tick it becomes its next stage that has any time, and waits again for as long as that says, or decays no more |
| `DecayWheel.DecayTurns` | src/game.cpp:5081-5099 | decaying leads to the next stage that has any time, enlisted once more, or to none; stages without time are passed at once |
| `DecayLives.PassesStages` | src/game.cpp:5101-5143 | over any run an undisturbed item passes through all its stages in order, each for exactly its number of ticks, and then decays no more |
| `DecayLives.TickIsLawful` | src/game.cpp:5101-5143 | a tick brings every waiting item one closer, and turns exactly those whose last it was |
| `DecayLives.StartIsLawful` | src/game.cpp:5061-5079 | an item with time is enlisted once, one without turns at once, others are left alone |
| `Decays.Game.StartDecay` | src/game.cpp:5061-5079 | the new state of enlisting or decaying at once, and for whom |
| `Decays.Game.InternalDecayItem` | src/game.cpp:5081-5099 | the item becomes its next stage that has any time and is enlisted, or decays no more |
| `Decays.Game.VisitAt` | src/game.cpp:5110-5138 | visiting in place, with erasing from the list that is walked, is one visit of the wheel |
| `Decays.Game.CheckDecay` | src/game.cpp:5101-5143 | the loop over the bucket and the cleanup are one tick of the wheel, which stays sound: every waiting item comes one tick closer or turns |
| `Decays.Game.Cleanup` | src/game.cpp:5224-5231 | every pending item goes into the bucket its duration asks for |
| `WalkCache.Creature.UpdateMapCache` | src/creature.cpp:340-354 | every cell shows its tile |
| `WalkCache.Creature.UpdateTileCache` | src/creature.cpp:356-371 | exactly one cell changes, none for an offset outside |
| `WalkCache.Creature.GetWalkCache` | src/creature.cpp:373-401 | the answer by position: no cache in use, another floor, the own tile, the cell, out of range |
| `WalkCache.Creature.MoveVertically` | src/creature.cpp:561-582 | the shift of the rows and the refilled edge, cell by cell |
| `WalkCache.Creature.MoveHorizontally` | src/creature.cpp:584-631 | the shift of the columns, leaving rows out at the top only, and the refilled edge, cell by cell |
| `WalkCache.Creature.OnStep` | src/creature.cpp:554-633 | after a step N, E, S, W, NE or NW the cache agrees with a full rebuild on all cells but the centre; after SE or SW if and only if the two strips along the top and bottom rows are uniform; all rows between agree always |
| `WalkCache.StepFollowed` | src/creature.cpp:554-633 | the same about the cells before and after the three changes |
| `WalkCache.StripsLag` | src/creature.cpp:584-631 | after SE or SW the top row shows tiles one column back and the bottom row tiles one column on |
| `WalkCache.OneTileIsEnough` | src/creature.cpp:584-631 | one blocked tile in the bottom row is enough for the condition to fail |
| `Areas.CreateArea` | src/combat.cpp:21-52 | the flat array holds exactly the covered cells; the centre is the last cell marked, by row and column |
| `Areas.MatrixArea.Rotate90` | src/combat.cpp:1307-1314 | the strided assignment stays in bounds and gives the matrix turned clockwise, with its centre |
| `Areas.MatrixArea.Rotate180` | src/combat.cpp:1316-1320 | the reversed array is the matrix turned by half |
| `Areas.MatrixArea.Rotate270` | src/combat.cpp:1322-1329 | the strided assignment stays in bounds and gives the matrix turned back |
| `Areas.AreaCombat.SetupArea` | src/combat.cpp:1366-1377 | the four areas are the given one turned by no, one, two and three quarters |
| `AreaMatrix.HalfTurn` | src/combat.cpp:1316-1320 | half a turn is two quarter turns, centre included |
| `AreaMatrix.TurnBack` | src/combat.cpp:1322-1329 | turning back undoes turning, both ways round, with 32-bit centres |
| `AreaMatrix.FullTurn` | src/combat.cpp:1307-1329 | four quarter turns are none, three are one back |
| `AreaMatrix.TurnedCovers` | src/combat.cpp:54-76 | the tiles covered east of the target are exactly those of the north area turned by a quarter around the target |
| `AreaMatrix.ReversedCovers` | src/combat.cpp:54-76 | the tiles covered to the south are those of the north area turned by half |
| `AreaMatrix.TurnedBackCovers` | src/combat.cpp:54-76 | the tiles covered to the west are those of the north area turned back by a quarter |
| `ConditionRoundTrip.ReadsProps` | src/condition.cpp:64-73 | reading finds the end mark where it was written, whatever bytes the values hold |
| `ConditionRoundTrip.ReadsHeader` | src/condition.cpp:232-290 | the head that was written creates a blank condition of its type; damage starts without ticks |
| `ConditionRoundTrip.ReadsAttributes` | src/condition.cpp:404-439 | every skill, stat and special skill lands in its place by the counters |
| `ConditionRoundTrip.ReadsRounds` | src/condition.cpp:1221-1264 | the rounds come back in order and the ticks as the sum of their intervals |
| `ConditionRoundTrip.ReadsSpeed` | src/condition.cpp:1635-1669 | speed and formula values come back |
| `ConditionRoundTrip.ReadsRegeneration` | src/condition.cpp:906-935 | gains and intervals come back |
| `ConditionRoundTrip.ReadsLight` | src/condition.cpp:1909-1953 | colour, level and intervals come back |
| `ConditionRoundTrip.SaveAndLoad` | src/iologindata.cpp:282-295 | what was saved is loaded again: the persistent conditions, restored, in reverse order |
| `ConditionFormat.WritesRegeneration` | src/condition.cpp:134-153 | a regeneration lies in the stream value by value, each behind its number |
| `ConditionRoundTrip.RestoredAt` | src/iologindata.cpp:288-295 | the list is reversed: the k-th condition saved is the k-th from the end |
| `ConditionRoundTrip.TicksAreSum` | src/condition.cpp:1236-1246 | ticks of damage are the sum of the intervals as long as that fits |
| `ConditionRoundTrip.UnchangedIff` | src/iologindata.cpp:282-295 | loading the bytes saved for a persistent condition gives that condition if and only if its ticks are the sum of its intervals, its drunkenness the usual one and its counters at the end |
| `ConditionRoundTrip.PartlyFeltComesBackLonger` | src/condition.cpp:1221-1264 | a burning condition of which a part was already felt comes back with more time than it had |
| `ConditionStreams.PropWriteStream.Serialize` | src/condition.cpp:134-153 | the bytes of the head and of what the kind has besides |
| `ConditionStreams.PropWriteStream.SaveConditions` | src/iologindata.cpp:683-690 | the bytes of the persistent conditions, each with an end mark |
| `ConditionStreams.PropStream.CreateCondition` | src/condition.cpp:232-290 | the decoded head, and none exactly when a tag or bytes are missing or the type is unknown |
| `ConditionStreams.PropStream.Unserialize` | src/condition.cpp:64-73 | the decoded values, the position after them, and whether all were readable |
| `ConditionStreams.PropStream.LoadConditions` | src/iologindata.cpp:282-295 | the decoded list |
| `ConditionStreams.SaveThenLoad` | src/iologindata.cpp:683-690 | writing and reading through the streams restores the persistent conditions in reverse |
| `ConditionStreams.PropStream.Read` | src/fileloader.h:64-73 | takes exactly the bytes asked for, or none when there are not as many |
| `DamageSchedules.ConditionDamage.AddDamage` | src/condition.cpp:1280-1310 | the rounds are queued, none shorter than a think, and ticks and end time grow by their sum; -1 rounds repeat the damage without end; refused only while a positive damage repeats |
| `DamageSchedules.ConditionDamage.ExecuteCondition` | src/condition.cpp:1366-1404 | what one think does to the first round, the repeated damage, the ticks and the end, with no field, one of its kind or one of another kind underfoot, and whether the condition goes on |
| `DamageSchedules.ThinkIsLawful` | src/condition.cpp:1366-1404 | the same for every schedule, told from its fields |
| `DamageSchedules.ConditionDamage.StartCondition` | src/condition.cpp:292-298 | the end of the condition is its time from now, if it has any |
| `DamageSchedules.PeriodicDelivers` | src/condition.cpp:1368-1374 | repeated damage hits once for every whole interval, rounded up to thinks, never ends, and leaves queued rounds alone |
| `DamageSchedules.ThinksDeliver` | src/condition.cpp:1366-1404 | after any number of thinks exactly the rounds those thinks pay for are delivered, once each and in order |
| `DamageSchedules.EndsOnTime` | src/condition.cpp:155-170 | the condition goes on through every think before its last and ends there; all values have been delivered by then if and only if the rounds, each rounded up to whole thinks, fit |
| `DamageSchedules.WholeSecondsDelivered` | src/condition.cpp:1366-1404 | with intervals of whole seconds every value is delivered, the last at the latest one think before the end |
| `DamageSchedules.LastRoundLost` | src/condition.cpp:1366-1404 | three rounds of one and a half seconds: the condition ends with the fifth think and the last value is never dealt |
| `ConditionBooks.LevelsAreSums` | src/creature.cpp:1262-1440 | over any run of adding, taking over, removing and letting time pass, from a creature without conditions: keys stay unique, and speed and every modifier are exactly the sum of what the active conditions add |
| `ConditionBooks.RunBalances` | src/creature.cpp:1262-1440 | the same from any creature: no value changes but for the sum of what the active conditions add |
| `ConditionBooks.AddedBalances` | src/creature.cpp:1262-1297 | adding keeps the books, whether it is refused, put off, taken over by an active condition, or started and followed by the cancelling of haste or paralysis |
| `ConditionBooks.RemovedBalances` | src/creature.cpp:1311-1365 | removing keeps the books, also when it is put off half way |
| `ConditionBooks.ExecutedBalances` | src/creature.cpp:1421-1440 | letting time pass keeps the books |
| `ConditionBooks.RemovedSpares` | src/creature.cpp:1311-1365 | a removal that nothing puts off takes every condition it is meant for and no other, and keeps the order |
| `ConditionBooks.ExecutedKeeps` | src/creature.cpp:1421-1440 | exactly the conditions whose time is over are gone, and the others stay in order |
| `ConditionBooks.OppositeIsGone` | src/creature.cpp:1120-1127 | after haste starts on a paralysed creature, or the reverse, no condition of the opposite kind is left |
| `ConditionLedgers.Creature.ChangeSpeed` | src/game.cpp:4231-4236 | the variable speed moves by exactly the difference |
| `ConditionLedgers.Creature.Start` | src/condition.cpp:1676-1689 | a speed condition without a change draws one, percentages are worked out, and speed and every modifier rise by what the condition then has |
| `ConditionLedgers.Creature.End` | src/condition.cpp:551-596 | speed and every modifier fall by what the condition has |
| `ConditionLedgers.Creature.MergeSpeed` | src/condition.cpp:1701-1730 | the active condition takes over time and change of the new one, and the speed moves by the difference |
| `ConditionLedgers.Creature.MergeAttributes` | src/condition.cpp:378-402 | the active condition takes over modifiers and percentages; the old modifiers are taken back and the new ones added |
| `ConditionLedgers.Creature.Merge` | src/condition.cpp:319-402 | what the active condition takes over by its kind, when it refuses, and how the values move |
| `ConditionLaws.AddIsLawful` | src/creature.cpp:1262-1297 | when a condition is added, and what then happens: one with its key takes over, or it joins and ends an active opposite |
| `ConditionLaws.TakenOverLawful` | src/condition.cpp:351-402 | what an active condition takes over: time and end, the change of speed or the modifiers; every value moves by exactly the difference |
| `ConditionLaws.JoinIsLawful` | src/condition.cpp:292-298 | a new condition comes last, its time starts now, and every value rises by what it brings |
| `ConditionLaws.RemoveIsLawful` | src/creature.cpp:1311-1365 | a removal takes what it is meant for up to the first one that is put off |
| `ConditionLaws.TimeIsLawful` | src/creature.cpp:1421-1440 | who stays when time passes, and with how much left |
| `ConditionLedgers.Creature.AddCondition` | src/creature.cpp:1262-1297 | exactly when a condition is added, told from the fields: with its key there, that one has the new time, end and change and the speed has moved by new minus old; else it comes last with its end and its drawn change, and may end its opposite |
| `ConditionLedgers.Creature.OnAddCondition` | src/creature.cpp:1120-1127 | the new state after the opposite kind is removed, exactly when it is active |
| `ConditionLedgers.Creature.HasCondition` | src/creature.cpp:1442-1457 | exactly whether a condition of a type without sub-id is active and not suppressed |
| `ConditionLedgers.Creature.RemoveConditions` | src/creature.cpp:1311-1365 | the new state after the loop that erases from the list it walks |
| `ConditionLedgers.Creature.ExecuteConditions` | src/creature.cpp:1421-1440 | the new state after the loop over a copy of the list |
| `ConditionLedgers.Condition.UpdateCondition` | src/condition.cpp:319-334 | exactly whether another condition may take over |

## Left out

- Items.Item.QueryAdd: the store inbox, inbox and depot chest rules and the house check are not modelled; the verdicts are those of an ordinary container.
- Items.Item.QueryRemove: the check that the acting player is invited to the house is not modelled.
- Items.Item.QueryMaxCount: sums of room are unbounded, where the code adds in 32 bits.
- Movement.InternalMoveItem: containers only; player slots, tiles, browse fields, exchanging two items, decay after a move and the owner-is-child flag are not modelled.
- AddItem.InternalAddItem: at "anywhere" only, into containers; the owner-is-child flag and decay after adding are not modelled.
- LoadedItems.LoadPlayerItems: inventory slots are containers of the same kind as depots here; the attributes of an item are written and read as they are.
- OtbLoaders.Loader.ParseTree: the iterators are positions in the file; the state of the tree after a refusal is not described.
- Trades.Game.PlayerRequestTrade: range, line of sight, item properties, house rules and scripts are one answer each; walking up to the item first is not modelled.
- Trades.Game.PlayerAcceptTrade: the two moves of the items at the end are not part of the desk; containment is taken to stay as it is between requests.
- Markets.Market.PlayerCreateMarketOffer: the fee formula in floating point is a number handed in; premium, place, item and number of offers are one answer; store coins are not modelled.
- Markets.Market.PlayerCancelMarketOffer: the offer is named by its number, where the code finds it by time and the low 16 bits of the number.
- Markets.Market.PlayerAcceptMarketOffer: players in the database and players online are the same here; history and messages are not modelled.
- MarketItems.GetMarketItemList: which items are of the ware and tier and free of other attributes is handed in as a set; unstackable goods are single pieces.
- Markets.Player.Pay: coins are a number on the ledger; that removing coins lowers their worth by the price is `Money.Cylinder.RemoveMoney`.
- Markets.Player.Deliver: goods are a number on the ledger; adding items is `AddItem.InternalAddItem`, without the limits of an inbox.
- MarketItems.InternalRemoveItem: the item's own veto on removal is not modelled.
- Money.Cylinder.RemoveMoney: a stack has at most 100 coins and is worth less than 2^32; change goes to the cylinder or the ground below, which takes it all; the sum of all coins is not cut to 64 bits.
- Decays.Game.CheckDecay: what an item turns into is a list of durations; removal by other code is an item that no longer decays.
- WalkCache.Creature.UpdateMapCache: coordinates that wrap around 16 bits at the edge of the map are not modelled.
- Areas.CreateArea: a list that covers more cells than its rows hold writes outside the array in the code and is excluded.
- ConditionStreams.PropStream.Unserialize: more skills or stats than there are write outside the array in the code; the model refuses them. Fields that are never written, such as the owner of damage, are not modelled.
- DamageSchedules.ConditionDamage.AddDamage: ticks are unbounded integers.
- DamageSchedules.ConditionDamage.ExecuteCondition: whether damage can be dealt is left to the creature.
- ConditionLedgers.Creature.AddCondition: percentages and formulas are numbers handed in; defence, light, outfit and drunkenness are not in the ledger; speed is an unbounded integer.
- ConditionLedgers.Creature.Merge: kinds of conditions with values of their own take over the time only; light, outfit, regeneration and soul are not in the ledger, and the rule by which damage of a greater total takes over is not modelled.
- ConditionLedgers.Creature.ExecuteConditions: effects of other conditions on the creature while they are executed are not modelled.
- Flipping, mirroring and transposing areas: written for square areas only.
- Networking, Lua, SQL, configuration, chat, bans, houses and experience formulas.
