# CoinDCX buy-all client, modelled in Dafny

This project models the command-line client for the CoinDCX exchange in
`CoinDCX.py`. Its centre is `buyAll`, the equal-weight allocator. It takes the
INR balance and the INR markets of the catalog. It drops the excluded pairs
and the pairs whose order book cannot be read or has no bids. Each market's
share is the funds over the markets not yet dropped, and its quantity is
that share over its bid, rounded to the market's precision. A market whose
quantity rounds to zero is dropped, so later markets see a larger share.
The markets left are then sized once more, at the funds over their number.
It then posts one limit buy per market left, cheapest bid first.

Around the allocator the model covers these parts of the client:

- the request a call to `getAPIData` builds: the timestamp merged with the
  caller's body, the compact JSON text, the signature header, and the rule
  that only status 200 delivers a payload;
- the messages of `analyzeError`;
- the one-shot INR market count kept by the `CoinDCX` object;
- the funds read by `getFundsAvail`;
- the lend command's filter;
- the per-symbol spending of `getTradeHistory`.

Every network fetch is an input of the model. `None` stands for a
`getAPIData` call that returned `None`. A map of order books stands for the
order-book fetches, and a missing key stands for a fetch that failed. The
HMAC function, the clock and the textual form of a float are also
parameters.

Modules:

| module | file | what it holds |
|---|---|---|
| `Wrappers` | wrappers.dfy | `Option` and `Result` |
| `Rounding` | rounding.dfy | Python's `round(x, p)` on exact reals: round half to even at `p` decimal places |
| `Seqs` | seqs.dfy | order-preserving subsequences |
| `Catalog` | catalog.dfy | catalog records and the INR filter |
| `Symbols` | symbols.dfy | the market symbol of a pair (`"I-"` and `"_"` removed) |
| `OrderBook` | orderbook.dfy | the reference bid and the seeding loop of `buyAll` |
| `PriceOrder` | priceorder.dfy | the stable sort by price |
| `Allocation` | allocation.dfy | the two sizing passes, dropping, order emission, and the plan they compute together |
| `Api` | api.dfy | `getAPIData` and `analyzeError` |
| `Funds` | funds.dfy | `getFundsAvail` and `lend` |
| `History` | history.dfy | `getTradeHistory` with processed output |
| `Client` | client.dfy | the `CoinDCX` class (`__init__`, `marketDetails`, `buyAll`) |

`buyAll` keeps state in dictionaries and loops. Each of its four loops is
a method with loop invariants:

- `Seed` (lines 237-257) returns exactly `Seeded`.
- `FirstPass` (lines 269-287) fails exactly when a bid is zero, and
  otherwise returns `FirstPassFlags` and the count they leave.
- `SecondPass` (lines 290-301) returns the book `Without` the flagged pairs.
  Its quantities are tied to their function per key: the keys are exactly
  the unflagged pairs, and `SizedAt` gives each one its `QuantityFor` at
  funds over the final count.
- `Emit` (lines 304-313) returns one `OrderFor` per book entry, position by
  position.

`PlanOrders` and `CoinDCX.BuyAll` hold no loop of their own. They call
these methods in the source's order. `PlanOrders` is proved equal to `Plan`,
and `CoinDCX.BuyAll` returns `BuyOutcomeFor`. The properties of the
allocation are then proved about `Plan` as lemmas.

`buyAll` has no guard for the case where no market is left. Line 289
divides by the number of markets left, and the division raises
`ZeroDivisionError` when that number is zero. The model gives this case its
own outcome, `Crashed(NoMarketLeft)`. Two more divisions raise the same way:

- line 236, when the market count is zero (`Crashed(ZeroMarketCount)`);
- line 281, when a reference bid is zero (`Crashed(ZeroBidPrice)`).

`Allocation.ZeroFundsLeaveNoMarket` proves that, when every bid is non-zero,
a plan over zero funds always ends in the division error at line 289. With
a zero bid, line 281 raises first, and with a market count of zero, line 236
raises before any plan is made.

The running denominator of the first pass lets the first-pass shares add up
to more than the funds. `Allocation.FirstPassOvercommits` gives two markets
whose first-pass shares add up to 150 out of 100.
`Allocation.ResizingIsNotRevisited` gives a market that the first pass drops
but that could afford one unit at the final share. The code does not revisit
it.

## Model

| member | source | states |
|---|---|---|
| Rounding.RoundHalfEven | CoinDCX.py:281 | the integer is within one half of x, and an exact tie goes to the even neighbour |
| Rounding.RoundHalfEvenUnique | CoinDCX.py:281 | these two properties determine the rounded integer uniquely |
| Rounding.RoundHalfEvenMonotone | CoinDCX.py:281 | rounding is monotone |
| Rounding.RoundHalfEvenZero | CoinDCX.py:284 | a non-negative value rounds to 0 exactly when it is at most one half |
| Rounding.RoundTo | CoinDCX.py:281 | round(x, p) has at most p decimals and is within half a unit of the p-th decimal of x |
| Rounding.RoundToTiesToEven | CoinDCX.py:281 | when x lies exactly halfway between two units of the p-th decimal place, round(x, p) takes the one whose last digit is even |
| Rounding.RoundToFacts | CoinDCX.py:281 | a whole count of p-th decimal units within one half of the scaled x is a valid rounding |
| Rounding.RoundToWhole | CoinDCX.py:281-283 | at precision 0, a value strictly within one half of an integer rounds to that integer |
| Rounding.RoundToMonotone | CoinDCX.py:281 | round(., p) is monotone |
| Rounding.RoundToZero | CoinDCX.py:281-284 | for x >= 0 the result is >= 0, and it is 0.0 exactly when x scaled by 10^p is at most one half |
| Rounding.RoundHalfEvenIsZero | CoinDCX.py:281-284 | a value rounds to the integer 0 exactly when it lies within one half of 0 |
| Rounding.RoundToIsZero | CoinDCX.py:281-284 | round(x, p) is 0.0 exactly when x scaled by 10^p lies within one half of 0 |
| Rounding.RoundToIdempotent | CoinDCX.py:281 | rounding a rounded value changes nothing |
| Rounding.RoundToExample | CoinDCX.py:281 | round(50/7, 0) is 7 |
| Rounding.ScaleMonotone | CoinDCX.py:281 | multiplying by 10^p keeps the order |
| Rounding.UnscaleMonotone | CoinDCX.py:281 | dividing by 10^p keeps the order |
| Rounding.ScaleSub | CoinDCX.py:281 | multiplying by 10^p distributes over subtraction |
| Rounding.UnscaleNeg | CoinDCX.py:281 | dividing by 10^p commutes with negation |
| Rounding.ScaleUnscale | CoinDCX.py:281 | multiplying by 10^p undoes dividing by it |
| Rounding.UnscaleScale | CoinDCX.py:281 | dividing by 10^p undoes multiplying by it |
| Rounding.ScaleOfTenth | CoinDCX.py:281 | one more decimal place absorbs a factor of ten |
| Rounding.UnscaleOfTenfold | CoinDCX.py:281 | one more decimal place absorbs a factor of ten |
| Rounding.ScaleZero | CoinDCX.py:281 | zero scales to zero |
| Rounding.UnscaleZero | CoinDCX.py:281 | zero unscales to zero |
| Seqs.SubsequenceAppend | CoinDCX.py:237-257 | appending the same element keeps a subsequence |
| Seqs.SubsequenceExtend | CoinDCX.py:237-257 | skipping an element keeps a subsequence |
| Seqs.SubsequenceDropLast | CoinDCX.py:237-257 | dropping the last kept element keeps a subsequence |
| Catalog.InrMarkets | CoinDCX.py:130-149 | the kept records are exactly the INR records of the catalog, in catalog order, one for each INR record, so their number is the count of INR records |
| Catalog.InrPositionsSnoc | CoinDCX.py:131-134 | one more record adds its position to the INR positions exactly when its base currency is INR |
| Catalog.DistinctPairsSubsequence | CoinDCX.py:130-147 | filtering a catalog with distinct pairs keeps the pairs distinct |
| Catalog.SubsequenceMembers | CoinDCX.py:130-147 | every record kept by a filter is a record of the catalog |
| Symbols.RemoveAllUnderscores | CoinDCX.py:305 | after replace("_", "") no underscore is left |
| Symbols.MarketSymbolHasNoSeparator | CoinDCX.py:305 | a market symbol never contains "_" |
| Symbols.RemoveAbsentUnderscore | CoinDCX.py:305 | replace("_", "") leaves a text without underscores alone |
| Symbols.RemoveAbsentPrefix | CoinDCX.py:305 | replace("I-", "") leaves a text without "I-" alone |
| Symbols.RemoveOneUnderscore | CoinDCX.py:305 | joining two parts with one "_" and removing it gives the parts back, concatenated |
| Symbols.MarketSymbolOfPair | CoinDCX.py:305 | the pair "I-" + base + "_" + quote posts as base + quote |
| Symbols.BitcoinSymbol | CoinDCX.py:305 | "I-BTC_INR" posts as "BTCINR" |
| Symbols.RemoveAll | CoinDCX.py:305 | str.replace with an empty replacement: every occurrence of the pattern, scanning left to right without overlap, is removed |
| Symbols.MarketSymbol | CoinDCX.py:305 | the posted market name: the pair with every "I-" and then every "_" removed |
| OrderBook.ReferenceBid | CoinDCX.py:246-254 | no bids means skip; otherwise the bid at index 1 when there are at least two, else the one at index 0 |
| OrderBook.MarketsOf | CoinDCX.py:256-257 | the markets of the candidates, one for one |
| OrderBook.SeededExactly | CoinDCX.py:237-257 | a market gets a price exactly when it is not excluded and its book was read and has bids; the price is its reference bid; catalog order and distinct pairs are kept |
| OrderBook.Seed | CoinDCX.py:237-257 | the seeding loop computes exactly the seeded candidates |
| OrderBook.Enters | CoinDCX.py:238-249 | a market is a candidate when it is not excluded, its book was fetched, and the book has a bid |
| OrderBook.Seeded | CoinDCX.py:237-257 | the candidates in catalog order, each with its reference bid |
| PriceOrder.AtPriceAppend | CoinDCX.py:260 | the candidates at one price in a concatenation are those of each part, in order |
| PriceOrder.InsertByPriceFacts | CoinDCX.py:260 | inserting into a sorted list keeps it sorted and adds exactly the one element |
| PriceOrder.InsertByPriceAtPrice | CoinDCX.py:260 | insertion places the new element after the others of equal price |
| PriceOrder.SortByPriceCorrect | CoinDCX.py:260 | the sort is ascending by price, is a permutation, and is stable: at every price the candidates keep their order |
| PriceOrder.SortedDeterminedByPrices | CoinDCX.py:260 | two sorted lists with the same elements in the same order at each price are equal, so the stable sort is unique |
| PriceOrder.AtPriceOfLast | CoinDCX.py:260 | in a sorted list the last element comes last among its price, and nothing is above its price |
| PriceOrder.AtPriceAboveMax | CoinDCX.py:260 | no candidate sits at a price above all prices |
| PriceOrder.AtPrice | CoinDCX.py:260 | the candidates at one price, in their order |
| PriceOrder.InsertByPrice | CoinDCX.py:260 | inserts a candidate after every candidate of no greater price |
| PriceOrder.SortByPrice | CoinDCX.py:260 | sorted(order_book_price.items(), key=price) by stable insertion |
| Allocation.QuantityFor | CoinDCX.py:281-283 | the quantity is round(share / price, precision), and it is an int exactly when the precision is 0 |
| Allocation.RoundsToZero | CoinDCX.py:281-284 | the test `quantity == 0.0`: share over price, scaled by the precision, lies within one half of 0 |
| Allocation.QuantityZeroExactly | CoinDCX.py:281-285 | the test `quantity == 0.0` holds exactly when share / price, scaled to the precision, is within one half of 0 |
| Allocation.CountTrueBound | CoinDCX.py:285 | the number of dropped markets is at most the number of markets |
| Allocation.CountTrueAppend | CoinDCX.py:285 | one more flag adds one to the count exactly when it is set |
| Allocation.CountTruePrefix | CoinDCX.py:285 | the drops counted so far are bounded by the total count |
| Allocation.RunningFlags | CoinDCX.py:269-287 | a pass that tests each market at a running count gives one flag per market |
| Allocation.RunningPrefix | CoinDCX.py:269-287 | the pass over a prefix of the markets gives the prefix of the flags |
| Allocation.RunningStep | CoinDCX.py:273-287 | one more market appends its test at the starting count less the flags before it |
| Allocation.RunningMeaning | CoinDCX.py:269-287 | flag i is the test of market i at the starting count less the flags before it, a count no smaller than the starting count less i |
| Allocation.FirstPassMeaning | CoinDCX.py:269-287 | market i is dropped exactly when its quantity rounds to zero at funds divided by the markets not yet dropped, and that count is at least 1 |
| Allocation.DropAtExactly | CoinDCX.py:281-287 | the first-pass test at a count of at least 1 is exactly `quantity == 0.0` |
| Allocation.FirstPassStep | CoinDCX.py:273-287 | one iteration appends that market's zero test at the running denominator |
| Allocation.FirstPass | CoinDCX.py:263-287 | the loop raises exactly when a bid price is zero; otherwise it returns the drop flags and the markets left |
| Allocation.Without | CoinDCX.py:290-294 | deleting the dropped pairs keeps exactly the entries whose pair is not dropped |
| Allocation.UniquePairsOfMarkets | CoinDCX.py:255-256 | distinct catalog pairs give distinct candidate pairs |
| Allocation.SurvivorsAreUnflagged | CoinDCX.py:290-294 | a candidate survives the deletions exactly when its own flag is not set |
| Allocation.SurvivorsAreKept | CoinDCX.py:285-294 | the survivors are the unflagged candidates in order, and there are as many as the count of markets left |
| Allocation.SurvivorsExtend | CoinDCX.py:290-294 | with distinct pairs, one more candidate survives exactly when it is not flagged, after the survivors before it |
| Allocation.FlaggedPairsExtend | CoinDCX.py:292-293 | the set of deleted pairs grows by the last market's pair exactly when it is flagged |
| Allocation.WithoutUnaffected | CoinDCX.py:292-293 | deleting pairs that are absent changes nothing |
| Allocation.WithoutTwice | CoinDCX.py:292-293 | two rounds of deletion equal one deletion of both sets |
| Allocation.WithoutSorted | CoinDCX.py:260-293 | deleting from a sorted list keeps it sorted |
| Allocation.WithoutAtPrice | CoinDCX.py:260-293 | deleting commutes with selecting one price |
| Allocation.WithoutAppend | CoinDCX.py:292-293 | deleting distributes over concatenation |
| Allocation.SortThenDrop | CoinDCX.py:260-293 | sorting then deleting gives the same as deleting then sorting |
| Allocation.UnflaggedPairsExtend | CoinDCX.py:301 | the set of sized pairs grows by the last market's pair exactly when it is unflagged |
| Allocation.PairsStep | CoinDCX.py:290-301 | one iteration of the second pass extends the deleted and the sized pair sets |
| Allocation.SecondPass | CoinDCX.py:289-301 | the loop deletes exactly the flagged pairs; it sizes exactly the others, each at funds over the markets left |
| Allocation.SizedAtExtend | CoinDCX.py:295-301 | sizing one more market extends the sizing invariant |
| Allocation.OrderFor | CoinDCX.py:304-313 | each order is a limit buy of the pair's market symbol, at its reference bid, with its quantity |
| Allocation.Emit | CoinDCX.py:304-313 | one order per remaining price entry, in the sorted order |
| Allocation.SurvivorIndex | CoinDCX.py:290-294 | every survivor is an unflagged candidate |
| Allocation.FlaggedPairIn | CoinDCX.py:292-293 | a flagged market's pair is deleted |
| Allocation.WithoutNothing | CoinDCX.py:290 | before the second pass nothing is deleted |
| Allocation.SurvivorsPriced | CoinDCX.py:298 | no remaining price is zero, so the second pass never raises |
| Allocation.NoBuy | CoinDCX.py:269-287 | one drop flag per market |
| Allocation.PlanOrders | CoinDCX.py:260-313 | the sort, the two passes and the emission compute exactly Plan |
| Allocation.PlanPlaces | CoinDCX.py:289-313 | the orders emitted over the sorted survivors are the plan |
| Allocation.PlacedQuantities | CoinDCX.py:301-306 | every sorted survivor has its second-pass quantity and a non-zero price |
| Allocation.CountTrueAll | CoinDCX.py:285-289 | every market is dropped exactly when the count of drops equals the number of markets |
| Allocation.PlanValue | CoinDCX.py:260-313 | a successful plan has non-zero bids, at least one market left, and is the placements of the sorted survivors at funds over the markets left |
| Allocation.PlanPlacesSurvivors | CoinDCX.py:260-313 | one order per market left, in ascending price; an order for every unflagged market at the final share, and nothing else |
| Allocation.PlacedAreCandidates | CoinDCX.py:290-313 | every order of a successful plan is the order for one of the candidates |
| Allocation.PlacementsShape | CoinDCX.py:260-313 | the placements number the markets left and ascend in price |
| Allocation.PlacementsMembers | CoinDCX.py:290-313 | the placements are exactly the unflagged markets' orders |
| Allocation.ShareMonotone | CoinDCX.py:273-296 | with fewer markets left, the share is no smaller |
| Allocation.PerUnitMonotone | CoinDCX.py:281-298 | a larger share buys no fewer units at the same price |
| Allocation.ResizedAtLeastFirstPass | CoinDCX.py:273-301 | a market kept by the first pass gets at least its first-pass quantity, and a positive one |
| Allocation.KeptCounts | CoinDCX.py:273-289 | a market the first pass keeps saw a count no smaller than the markets left at the end, which is at least 1, and its quantity there was not zero |
| Allocation.LargerShareNotZero | CoinDCX.py:281-298 | a share with a non-zero quantity and any larger share buy at least as much, and a positive amount |
| Allocation.PlanQuantitiesPositive | CoinDCX.py:290-313 | with non-negative funds and positive bids, every posted quantity is positive |
| Allocation.NoMarketLeftExactly | CoinDCX.py:289 | the division at line 289 raises exactly when all bids are non-zero and the first pass drops every market |
| Allocation.ZeroShareRoundsToZero | CoinDCX.py:281-284 | a zero share rounds to a zero quantity |
| Allocation.ZeroFundsLeaveNoMarket | CoinDCX.py:269-289 | when every bid is non-zero, zero funds drop every market and line 289 raises |
| Allocation.FirstPassOvercommits | CoinDCX.py:269-313 | two markets whose first-pass shares add up to 150 out of funds of 100; only the cheap one is bought, with all 100 |
| Allocation.OvercommitShares | CoinDCX.py:273 | the running denominator gives shares of 50 and then 100 |
| Allocation.OvercommitFlags | CoinDCX.py:269-287 | the expensive market is dropped and the cheap one kept |
| Allocation.OvercommitSurvivors | CoinDCX.py:290-294 | only the cheap market survives the deletions |
| Allocation.OvercommitPlan | CoinDCX.py:289-313 | the plan buys 100 of the cheap market |
| Allocation.ResizingIsNotRevisited | CoinDCX.py:269-313 | two markets are dropped in the first pass; at the final share of 90 one of them could buy 1 unit, and it is still not bought |
| Allocation.NotRevisitedFlags | CoinDCX.py:269-287 | the two expensive markets are dropped |
| Allocation.NotRevisitedSurvivors | CoinDCX.py:290-294 | only the cheap market survives the deletions |
| Allocation.NotRevisitedPlan | CoinDCX.py:289-313 | the plan buys 90 of the cheap market only |
| Allocation.FirstPassShare | CoinDCX.py:273 | funds_per_coin in the first pass for market i: funds over the count not yet lowered by the earlier drops |
| Allocation.DropAt | CoinDCX.py:281-286 | the no_buy test: the quantity at funds over the running count rounds to zero |
| Allocation.FirstPassFlags | CoinDCX.py:269-287 | the no_buy flags of the first pass, each tested at the running count |
| Allocation.Remaining | CoinDCX.py:285-288 | number_of_coins_to_buy after the first pass: the markets less the flagged ones |
| Allocation.FlaggedPairs | CoinDCX.py:290-294 | the pairs the second pass deletes from order_book_price |
| Allocation.Survivors | CoinDCX.py:290-294 | the candidates without the flagged pairs, in catalog order; sorted, they are the dict after the deletions (`SortThenDrop`) |
| Allocation.Kept | CoinDCX.py:290-294 | the unflagged candidates, in catalog order |
| Allocation.Placements | CoinDCX.py:295-313 | one order per remaining dict entry, in dict order, at one share |
| Allocation.Plan | CoinDCX.py:260-313 | ZeroBidPrice when a bid is zero, NoMarketLeft when every market is flagged, otherwise the orders for the sorted survivors at funds over the count left |
| Api.Keys | CoinDCX.py:24-28 | one key per entry, in entry order |
| Api.Lookup | CoinDCX.py:24-28 | a lookup fails exactly when the key is absent |
| Api.PutLookup | CoinDCX.py:28 | after body[k] = v, k looks up v and every other key is unchanged |
| Api.PutKeys | CoinDCX.py:28 | an existing key keeps its place; a new key goes last |
| Api.KeysCons | CoinDCX.py:24-28 | the keys of a body start with its first key |
| Api.PutUnique | CoinDCX.py:28 | the keys stay unique |
| Api.UpdatedLookup | CoinDCX.py:28 | after update, the caller's keys look up the caller's values and the others are unchanged |
| Api.UpdatedKeysExtend | CoinDCX.py:28 | update keeps the existing entries' keys first, in their places |
| Api.UpdatedKeys | CoinDCX.py:28 | after update the keys are those of the body and those of the caller |
| Api.UpdatedUnique | CoinDCX.py:28 | update keeps the keys unique |
| Api.MergedBody | CoinDCX.py:24-28 | the request body starts with "timestamp"; its keys are unique and are the timestamp and the caller's keys; the caller's values win, even over the timestamp |
| Api.LookupAt | CoinDCX.py:24-28 | with unique keys, each entry's key looks up that entry's value |
| Api.PutFresh | CoinDCX.py:28 | a new key is appended |
| Api.UpdatedFresh | CoinDCX.py:28 | an update with only new keys appends the caller's entries in order |
| Api.DigitChar | CoinDCX.py:29 | a digit is written as its decimal character |
| Api.Digits | CoinDCX.py:29 | an integer is written as at least one decimal digit |
| Api.DigitsRoundTrip | CoinDCX.py:29 | reading the digits back gives the number |
| Api.IntTextRoundTrip | CoinDCX.py:29 | reading the integer text back gives the integer, sign included |
| Api.MembersTextStart | CoinDCX.py:29 | the JSON members start with the first member |
| Api.SerializeStart | CoinDCX.py:29 | the JSON text starts with "{" and the first member |
| Api.MergedTimestampFirst | CoinDCX.py:24-28 | unless the caller overrides it, the first entry is the timestamp |
| Api.SerializedTimestampFirst | CoinDCX.py:24-29 | the posted text starts with {"timestamp": and the timestamp's digits |
| Api.TimestampMemberText | CoinDCX.py:24-29 | the timestamp member opens the text with {"timestamp": and the digits |
| Api.SerializeIsCompact | CoinDCX.py:29 | with separators (',', ':') no space is written when keys, strings and floats have none |
| Api.MembersCompact | CoinDCX.py:29 | the members, likewise, contain no space |
| Api.MemberCompact | CoinDCX.py:29 | one member, key, colon and value, contains no space |
| Api.QuotedCompact | CoinDCX.py:29 | quoting adds no space |
| Api.IntTextCompact | CoinDCX.py:29 | an integer is written without spaces |
| Api.SpaceFreeJoin | CoinDCX.py:29 | joining two texts without spaces gives none |
| Api.RequestFor | CoinDCX.py:21-44 | the request goes to the URL; it is a GET exactly when the method is "get"; a POST carries as data the compact JSON text of the timestamp merged with the caller's body, and three headers, the last being the signature of that text |
| Api.SignatureCoversPostedData | CoinDCX.py:29-44 | a POST signs exactly the text it posts, and that text starts with the timestamp |
| Api.Deliver | CoinDCX.py:40-51 | a payload is delivered exactly when the request did not raise and the status is 200 |
| Api.DocumentedError | CoinDCX.py:53-62 | a documented message exists exactly for 400, 401, 404, 429, 500 and 503 |
| Api.UnknownErrorNamesCode | CoinDCX.py:62-65 | any other code is reported as "Unknown error for '<url>' status code: " followed by the code, which reads back to the code |
| Api.Put | CoinDCX.py:28 | body[k] = v on an insertion-ordered dict |
| Api.Updated | CoinDCX.py:28 | body.update(other): one assignment per entry of other, in its order |
| Api.Merged | CoinDCX.py:24-28 | the body {"timestamp": ...} updated with the caller's body when one is given |
| Api.IntText | CoinDCX.py:29 | str of an integer: a minus sign for a negative one, then its decimal digits |
| Api.MembersText | CoinDCX.py:29 | the members written "key":value and joined by "," |
| Api.Serialize | CoinDCX.py:29 | json.dumps with separators (',', ':'): the members between braces |
| Api.ErrorReport | CoinDCX.py:62-65 | the line analyzeError prints: the documented text for a known code, else the code itself |
| Funds.GetFundsAvail | CoinDCX.py:175-187 | None when the fetch failed, otherwise the INR balance the records give |
| Funds.FundsAreFirstInrBalance | CoinDCX.py:181-187 | the funds are the balance of the first INR record |
| Funds.NoInrNoFunds | CoinDCX.py:181-187 | without an INR record the funds are 0.0 |
| Funds.LockedBalanceIgnored | CoinDCX.py:184-185 | locked balances never change the funds |
| Funds.LendAll | CoinDCX.py:81-109 | None when the fetch failed, otherwise the lend bodies the filter selects, in record order, for the effective duration |
| Funds.LendRequestsExactly | CoinDCX.py:91-109 | a request is posted for exactly the records that pass every check, each with its own currency and whole balance |
| Funds.LendIsSafe | CoinDCX.py:91-102 | no INR, no amount under 0.001 unless told otherwise, only requested currencies when some are named, all at the given duration |
| Funds.AvailableFunds | CoinDCX.py:181-187 | the balance of the first INR record, 0.0 when there is none |
| Funds.VerdictFor | CoinDCX.py:91-102 | skip INR, skip a "0.0" balance, skip dust under 0.001 when told to, skip unrequested currencies, else lend |
| Funds.EffectiveDuration | CoinDCX.py:82 | args.duration or 7 |
| Funds.LendRequests | CoinDCX.py:90-109 | one lend request per record whose verdict is to lend, in record order |
| Funds.LendRequestFor | CoinDCX.py:103-107 | the request for a record: its currency, the duration and its whole balance |
| Funds.LendRequest.Body | CoinDCX.py:103-107 | lend_body: currency_short_name, duration and amount, in that order |
| History.TradeHistory | CoinDCX.py:189-213 | None when the fetch failed, otherwise the per-symbol spending and the total |
| History.SpentStep | CoinDCX.py:196-203 | one more row adds its cost to its own symbol, starting from 0 for a new symbol, and to the total |
| History.SpentPerSymbol | CoinDCX.py:196-208 | every symbol in the history is a key, sells included, and each key's amount is the buy spending on it |
| History.SymbolsOccur | CoinDCX.py:196-199 | the keys are exactly the symbols that occur in the rows |
| History.SymbolsDistinct | CoinDCX.py:196-199 | each key is listed once |
| History.SpentOnAbsent | CoinDCX.py:196-203 | nothing is spent on a symbol that does not occur |
| History.SumOnExtend | CoinDCX.py:200-203 | one more row adds its cost to the per-symbol sum when its symbol is listed |
| History.TotalIsSumOfSymbols | CoinDCX.py:195-203 | the total invested is the sum of the per-symbol amounts |
| History.Cost | CoinDCX.py:200-205 | quantity times price plus the fee for a buy; nothing for a sell |
| History.Spent | CoinDCX.py:194-202 | my_hist_data: every symbol that occurs, with the summed cost of its rows |
| History.TotalSpent | CoinDCX.py:195-203 | total_invested: the summed cost of all rows |
| History.Symbols | CoinDCX.py:196-199 | the symbols in order of first occurrence |
| Client.CoinDCX.constructor | CoinDCX.py:13-19 | the count starts at 0; a catalog that is read sets it to its number of INR records |
| Client.CoinDCX.MarketDetails | CoinDCX.py:124-149 | a failed fetch changes nothing; otherwise it returns the INR records, and the count is set only by the first successful call |
| Client.CoinDCX.BuyAll | CoinDCX.py:217-321 | aborts when the funds or the catalog cannot be read; raises when the count is 0, a bid is 0 or no market is left; otherwise posts the planned orders. The count and flag are unchanged when the funds or the catalog cannot be read; a catalog read sets the flag, and the first one sets the count |
| Client.SeededUnique | CoinDCX.py:237-257 | a catalog with distinct pairs gives candidates with distinct pairs |
| Client.CountAfterTwoCatalogs | CoinDCX.py:124-149 | a client keeps the count of its first catalog through later reads |
| Client.CountAfterFailedStart | CoinDCX.py:124-149 | a client whose first read failed counts the next catalog it reads |
| Client.PlacedOrdersAreAllowed | CoinDCX.py:237-313 | every posted order is a limit buy of a catalog INR market that was not excluded and whose book has bids, at that book's reference bid |
| Client.PlacedIsPlan | CoinDCX.py:217-313 | the orders of a run that places orders are those of the plan |
| Client.CandidateOrderAllowed | CoinDCX.py:237-313 | the order for a candidate is a limit buy of an allowed market at its reference bid |
| Client.OrderRequestBody | CoinDCX.py:307-314 | the signed order body has keys timestamp, side, order_type, market, price_per_unit, total_quantity, in that order, with the order's values: the body is the timestamp followed by the order body |
| Client.OrderBodyKeys | CoinDCX.py:307-314 | the timestamp and the five order fields are six distinct keys, in that order |
| Client.LendRequestBody | CoinDCX.py:103-109 | the signed lend body has keys timestamp, currency_short_name, duration, amount, in that order |
| Client.Excluded | CoinDCX.py:218 | args.do_not_buy or [] |
| Client.BuyOutcomeFor | CoinDCX.py:217-321 | abort on unreadable funds or catalog, raise on a zero count, else the outcome of the plan over the seeded candidates |
| Client.QuantityJson | CoinDCX.py:282-283 | total_quantity as JSON: an int at precision 0, otherwise a float |
| Client.OrderBody | CoinDCX.py:307-313 | the order body: side, order_type, market, price_per_unit and total_quantity, in that order, with the order's values: the body is the timestamp followed by the order body |

## Left out

- The network and `requests`: every fetch is an input, and `None` stands for a failed one.
- HMAC-SHA256 and the hex digest: the signing function is a parameter.
- `time.time()`: the timestamp is a parameter.
- IEEE 754 floats: reals are exact. `round` is exact half-to-even on reals. A binary float such as 2.675 can round differently in Python.
- The text Python writes for a float in JSON: `floatText` is a parameter.
- JSON string escaping: keys and strings are written between quotes as they are.
- Printing: every `print` is left out. `analyzeError` is modelled as the line it would print (`ErrorReport`).
- `orderBook`, `lendStatus`, `getBalances` and the command-line parsing: these only fetch and print, and none of them feeds `buyAll`.
- The conversion of catalog values to float (`marketDetails`, lines 137-146): a market is modelled by the three fields `buyAll` uses.
- A negative `target_currency_precision`: the precision is a natural number. Python's `round` also accepts a negative number of digits, which would round to tens or hundreds.
- `getTradeHistory` with `processed=False`: it returns the fetched rows unchanged.
- Client.CoinDCX.BuyAll: requires the catalog's pairs to be distinct. The code keys its dictionaries by pair, and the exchange lists each pair once.
- Client.CoinDCX.BuyAll: models an order-book fetch as a list of bid prices, in the order the exchange sends the keys.
- Funds.LendAll: the duration is the number the command-line text spells, and an empty text is given as absent (both mean 7 days). `int()` of a text that is not a number is left out.
- Allocation.ShareMonotone: states that the share is no smaller when fewer markets are left, not strictly larger. With zero funds, every share is 0.
