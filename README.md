# Order book of a Binance depth stream, in Dafny

This project models the order-book state engine of `crypterm`. The engine
keeps a live view of a depth stream for one instrument. The book has two
sides, asks and bids. Each side is a tree of `(price, volume)` levels,
ordered by the side's `less` function:

- asks are ordered by `byBestAsk`, ascending in price;
- bids are ordered by `byBestBid`, descending in price.

A depth update carries one list of entries for each side. An entry with
volume 0 looks its price up with the side's three-way probe
(`getAskByPrice` or `getBidByPrice`), deletes the level it finds, and then
ends that side's loop. Any other entry is inserted. The `render` step walks
each side in tree order. It draws the i-th ask at row `y+i` of column `x`,
and the i-th bid at row `y+i` of column `x+10`.

Files and modules:

- `orders.dfy`, module `Orders`: the `Entry` datatype, the two `less`
  functions, each side's strict storage order `Precedes`, and the two
  probes (closures of type `Entry -> int`).
- `leveltree.dfy`, module `LevelTree`: the tree library modelled as an
  ordered map. It stores a side as the sequence of its levels in tree
  order. `Get` searches with a probe, `Delete` removes a level, and
  `Insert` adds or replaces one. `VolumeAt` is the price-to-volume view
  used to state results.
- `depth.dfy`, module `Depth`: pure functions for what one side's list
  does. `ApplyDelta` models the loop body for one entry. `ApplySide` is the
  loop as written, with its early exit. `ApplyAll` applies every entry.
- `book.dfy`, module `Book`: the class `OrderBook`. Its fields `asks` and
  `bids` are the two sides. It has the constructor (`NewOrderBook`), the
  method `ApplyAsks` for the goroutine that runs the ask loop, the method
  `HandleDepthResponse`, which calls it and then runs the bid loop, and the
  method `Render`, which returns the cells it would draw.

Modelling decisions:

- Prices and volumes are `real`. The code only compares prices and tests
  `volume == 0`.
- Entries arrive already parsed, as `Delta(price, volume)`.
- The ask loop runs in a goroutine in the source. Here the goroutine's
  function literal is the method `ApplyAsks`, which runs to completion
  first; then the bid loop runs. The two loops touch different sides, so
  the order does not change the result. The goroutine's `return` ends only
  `ApplyAsks`; the bid loop's `return` ends `HandleDepthResponse`.
- The tree library is not visible. The model assumes the tree stores levels
  in the strict part of its `less` and that `Insert` replaces a level at an
  equal price. For asks the strict part is `byBestAsk` itself
  (`AskOrderIsByBestAsk`). For bids, `byBestBid` is `>=`. It is reflexive
  and total (`ByBestBidIsReflexive`, `BidLessNeverEquates`), so the usual
  "neither less" test never finds two bid entries equal. Whether the real
  library replaces an existing bid level is therefore an assumption of this
  model, not a proven fact. The same holds for deleting a bid level: the
  library's `Delete(entry)` can only locate the entry through `byBestBid`,
  so `Delete` removing the bid level at the entry's price is assumed too.
  With a library that tests equality through `less`, bid levels might never
  be deleted and bids at one price might pile up; nothing here shows which
  of the two the library does.
- `Render` returns the list of `Cell(x, y, price, colour)` it would draw,
  in drawing order, instead of calling the terminal library.

## Model

| member | source | states |
|---|---|---|
| Orders.ByBestBid | main.go:16-18 | the bid tree's less holds between any two entries at one price and fails exactly when b's price is higher, so it puts the higher bid first |
| Orders.ByBestAsk | main.go:20-22 | the ask tree's less never holds between two entries at one price and holds exactly when b's price is higher, so it puts the lower ask first |
| Orders.ByBestAskIsStrict | main.go:20-22 | byBestAsk holds exactly when a's price is below b's; it is irreflexive and asymmetric |
| Orders.ByBestBidIsReflexive | main.go:16-18 | byBestBid holds exactly when a's price is at least b's, so it is reflexive and holds both ways at equal prices |
| Orders.BidLessNeverEquates | main.go:16-18 | byBestBid is total: "neither a before b nor b before a" holds of no two bid entries |
| Orders.AskOrderIsByBestAsk | main.go:20-22 | the ask side's strict storage order is byBestAsk itself |
| Orders.PrecedesIsStrictTotalOrder | main.go:16-22 | each side's storage order is ascending price for asks and descending for bids; it is irreflexive, asymmetric and transitive, and total on distinct prices |
| Orders.GetAskByPrice | main.go:41-52 | the ask probe answers -1 exactly below the price, 0 exactly at it, 1 exactly above it |
| Orders.GetBidByPrice | main.go:54-65 | the bid probe answers the mirrored signs: -1 exactly above the price, 0 exactly at it, 1 exactly below it |
| Orders.CompareAgreesWithSide | main.go:41-65 | each probe is negative exactly for the levels its side stores before the price, zero exactly at the price, and positive exactly for those stored after it |
| LevelTree.CompareIsMonotone | main.go:41-65 | on an ordered side, the side's own probe never decreases along the levels, so it can guide a search |
| LevelTree.VolumeAtMeans | main.go:30-31 | on an ordered side, the price-to-volume view names the one level at a price, or none when no level has that price |
| LevelTree.Get | main.go:73 | a found level is on the side and the probe answers 0 for it; when nothing is found, the probe answers 0 for no level |
| LevelTree.GetFindsLevel | main.go:73 | looking a price up with its side's probe returns exactly the level stored at that price, or nothing when there is none |
| LevelTree.Delete | main.go:75 | the side stays ordered; it loses the level at the item's price and keeps every other level |
| LevelTree.Insert | main.go:86 | the side stays ordered; it then holds exactly one level at the item's price, the item itself, and keeps every level at another price |
| LevelTree.OrderedUnique | main.go:30-31 | two ordered sides holding the same levels are the same sequence |
| LevelTree.InsertIdempotent | main.go:81-86 | inserting the same entry twice leaves the side as inserting it once |
| LevelTree.DeleteAbsent | main.go:72-76 | deleting a price the side has no level at leaves the side unchanged |
| LevelTree.DeleteIdempotent | main.go:72-76 | deleting the same price twice leaves the side as deleting it once |
| Depth.ApplyDelta | main.go:72-86 | a zero-volume entry removes the level at its price and nothing else; a non-zero entry leaves exactly one level at its price with its volume and changes nothing else; the side stays ordered with no empty level |
| Depth.ApplyDeltaVolumes | main.go:72-86 | in the price-to-volume view, one entry sets its own price to none (volume 0) or to its volume, and leaves every other price as it was |
| Depth.RemovalIsLookupThenDelete | main.go:72-76 | a zero-volume entry's effect is exactly the loop body's: look the price up with the side's probe and delete the level found, or leave the side alone when none is found |
| Depth.ApplySideStep | main.go:69-87 | one turn of the loop: at a zero-volume entry the rest of the list amounts to that entry's removal alone; at any other entry it is applied and the loop goes on with the next |
| Depth.RemovalOfAbsentPrice | main.go:72-76 | a zero-volume entry at a price the side has no level at leaves the side exactly as it was |
| Depth.ApplyDeltaIdempotent | main.go:72-86 | applying the same entry twice in succession leaves the side as applying it once |
| Depth.ApplySide | main.go:69-87 | one side's loop as written keeps the side ordered with unique prices and no empty level |
| Depth.FirstRemoval | main.go:72-79 | the loop's stopping point: every entry before it has non-zero volume, and the entry at it, if any, has volume 0 |
| Depth.ApplySideAppliesReached | main.go:69-79 | the loop as written applies every entry before the first zero-volume one, applies that one, and applies no later entry |
| Depth.ApplySideIgnoresRest | main.go:78 | once a list holds a zero-volume entry, anything appended after it has no effect on the side |
| Depth.ApplySideWithoutEarlyRemoval | main.go:69-87 | a list with no zero-volume entry before its last entry is applied in full by the loop as written |
| Depth.ApplySideLastWins | main.go:69-87 | after the loop as written, each price has the volume of the last entry at that price among the entries reached, or none if that volume is 0; a price no reached entry mentions keeps its level |
| Depth.ApplyAll | main.go:69-87 | applying every entry keeps the side ordered with unique prices and no empty level |
| Depth.ApplyAllLastWins | main.go:69-87 | applying every entry leaves each price with the volume of the last entry at it, or none if that volume is 0; a price no entry mentions keeps its level |
| Depth.EarlyExitDropsLaterEntries | main.go:72-79 | on an empty ask side, the list [(100, 0), (101, 5)] leaves the side empty under the loop as written, but leaves the level (101, 5) when every entry is applied |
| Book.OrderBook.constructor | main.go:34-39 | NewOrderBook creates a valid book whose two sides are both empty |
| Book.OrderBook.ApplyAsks | main.go:68-88 | the goroutine's loop keeps the book valid, leaves the asks as the ask list applied up to and including its first zero-volume entry, and leaves the bids unchanged |
| Book.OrderBook.HandleDepthResponse | main.go:67-109 | the book stays valid; the asks become the ask list applied as the ask loop does, and the bids the bid list applied as the bid loop does; ask entries change only the asks and bid entries only the bids, and the ask loop stopping early does not stop the bid loop |
| Book.OrderBook.Render | main.go:111-132 | every ask level is drawn once, the i-th at row y+i of column x in red, then every bid level once, the i-th at row y+i of column x+10 in green; the asks come out in ascending price and the bids in descending price |
| Book.AskAddedThenRemoved | main.go:69-86 | an ask (100, 1) followed by a zero-volume ask at 100 leaves the ask side empty |
| Book.BidsStoredBestFirst | main.go:90-107 | bids (99, 2), (98, 3), (97, 1) on an empty bid side are stored in descending price |

## Left out

- The WebSocket connection and the process lifecycle are left out. This
  covers the dial, the `ReadJSON` loop, the fatal error handling, the
  60-second timer and the `isRunning` loop (main.go:144-180). They are I/O
  and process plumbing.
- Concurrency is left out. The source runs the ask loop in a goroutine and
  shares `ob` between the reader and the render loop without
  synchronisation. The model runs the ask loop, then the bid loop, then
  render, one after another. Data races and interleavings are not modelled.
- Number parsing is left out. `strconv.ParseFloat` with its error discarded
  (main.go:70-71, main.go:91-92) is not modelled, and entries arrive as
  typed `real` values. In the source, a malformed number parses as 0, so a
  malformed volume acts as a removal plus an early exit. An out-of-range
  number parses as plus or minus infinity, so such a volume is non-zero and
  is inserted. An entry with fewer than two strings panics at `ask[1]` or
  `bid[1]` and ends the process; a `Delta` always has both fields, so that
  case cannot arise here.
- Float semantics are left out: NaN, negative zero and rounding. With `real`
  values, the price comparisons and the `volume == 0` test are exact.
- Terminal output is left out: `renderText`, the `termbox` calls, the rune
  widths, and the `%.2f` formatting. `Render` returns the cells it draws,
  holding the price rather than its formatted text.
- The B-tree internals are left out: balancing, node layout and the
  library's iterator. A side is its in-order sequence of levels. `Get` is a
  probe-guided search over that sequence, and insertion is modelled as
  replacing the level at an equal price. Deletion is modelled as removing
  the level at the entry's price. On the bid side both the replacement and
  the deletion are assumptions about the library (see above), because its
  only guide there is `byBestBid`, which never equates two entries.
- The JSON envelope is left out: `BinanceDepthResponse` and the JSON tags
  (main.go:134-142). `DepthResult` holds two sequences of parsed entries.

## Findings

| source | as written | input that shows it | evidently intended | confidence | as-written member | corrected member |
|---|---|---|---|---|---|---|
| main.go:72-79 | a zero-volume ask entry deletes its level and then `return`s from the goroutine, so the rest of the ask list is dropped; the bid loop does the same at main.go:99 | ask list [(100, 0), (101, 5)] on an empty ask side: the level (101, 5) is never inserted | every entry of a side's list is applied, and a removal does not end the list | not executed; high (the rest of a depth update is silently lost) | Depth.EarlyExitDropsLaterEntries | Depth.ApplyAllLastWins |

Each entry carries the new absolute volume at its price, so dropping the
rest of a list silently loses updates: the levels it would have set or
removed stay stale until a later update touches the same prices. The code
stops at the first removal all the same. The model follows the
code: `OrderBook.HandleDepthResponse` keeps the early exit. `ApplyAll` is the corrected behaviour.
`ApplySideAppliesReached` relates the two: the loop as written equals
`ApplyAll` on the entries up to and including the first removal.
