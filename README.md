# Today's Seeker activity: a verified model of the transactions route

The repository serves a page that shows one Solana wallet's swaps and stakes
for the current day. All of its logic lives in the `GET` handler of
`app/api/transactions/route.ts`. This project models that handler in Dafny.

The handler works in four steps:

1. It checks the `address` query parameter (400 if missing) and the API key
   setting (500 if missing).
2. It computes the start of today in the fixed UTC+8 offset from the clock.
3. It walks the provider's transaction pages backwards. Each fetch passes the
   signature of the last record seen as the `before` cursor. Records are kept
   while they are at or after the cutoff. The first older record ends the
   page scan and the whole walk. An empty page also ends the walk. A failed
   fetch turns the whole request into a 500.
4. It applies a whitelist to each kept record: SWAP is kept, UNKNOWN is
   rewritten to STAKE with a fixed description, STAKE and UNSTAKE are kept,
   and every other type is dropped silently. It then answers with `swaps`,
   `stakes` and `total`.

Files:

- `day_window.dfy` (module `DayWindow`): the UTC+8 day cutoff.
- `transactions.dfy` (module `Transactions`): the record, the whitelist and
  its rewrite (`Admit`, `AdmitAll`), the order-preserving `Filter`, and the
  bundle (`Assemble`).
- `collector.dfy` (module `Collector`):
  - the provider (`Response`, `Fetch`) and the cursor rule;
  - `Collect`, a function that specifies the fetch loop, and `Serve`, which
    specifies the whole request;
  - the imperative handler `Get`, with its `while (keepFetching)` loop, and
    `ScanPage`, the `for … of` scan of one page. Both are proved against
    those functions.
- `collector_properties.dfy` (module `CollectorProperties`): the properties
  the route promises, proved about `Collect` and `Serve`.

The provider is modelled as the finite list of its answers to the
handler's successive fetches. Each answer is a decoded page of records
(newest first) or a failure. Once the list is used up, every further fetch
gets an empty page, as the provider answers when an address's history is
exhausted. `Get` returns the `before` value of every fetch it issued, so
the cursor rule and the number of fetches can be stated. The clock reading
`nowSec` and the API key are parameters.

## Model

| member | source | states |
|---|---|---|
| `DayWindow.StartOfDayUtc8` | app/api/transactions/route.ts:36-38 | the cutoff is a UTC+8 midnight (`(cutoff + 8*3600) % 86400 == 0`) and `cutoff <= nowSec < cutoff + 86400` |
| `DayWindow.CutoffIsUnique` | app/api/transactions/route.ts:38 | any boundary with those two properties equals the computed cutoff, so it is the latest UTC+8 midnight not after `nowSec` |
| `Transactions.Admit` | app/api/transactions/route.ts:55-67 | a record is emitted iff its type is SWAP, UNKNOWN, STAKE or UNSTAKE; UNKNOWN becomes STAKE with the fixed Seeker note; every other emitted record is unchanged; signature and timestamp are always kept; an emitted record is in exactly one bucket, the swaps exactly when its type was SWAP |
| `Transactions.AdmitAll` | app/api/transactions/route.ts:50-67 | the emitted records of a page are no more than its records, and each one is a swap or a stake |
| `Transactions.AdmitAllMembers` | app/api/transactions/route.ts:55-67 | every whitelisted record's image is emitted, and every emitted record is the image of an input record |
| `Transactions.AdmitAllAppend` | app/api/transactions/route.ts:57-65 | accumulation keeps order: the output for two runs of records is the output for the first followed by the output for the second |
| `Transactions.AdmitAllSnoc` | app/api/transactions/route.ts:57-65 | one more record appends its image, if it has one, to the end of the accumulator |
| `Transactions.AdmitAllCountsTracked` | app/api/transactions/route.ts:55-67 | the number of emitted records equals the number of whitelisted ones; dropped types add nothing |
| `Transactions.Filter` | app/api/transactions/route.ts:78-80 | the filtered list holds exactly the matching elements and is no longer than the input |
| `Transactions.FilterAppend` | app/api/transactions/route.ts:78-80 | filtering keeps relative order: it distributes over concatenation |
| `Transactions.Assemble` | app/api/transactions/route.ts:78-82 | `swaps` holds exactly the accumulated SWAP records, and `stakes` exactly the STAKE and UNSTAKE ones |
| `Transactions.AssemblePartitions` | app/api/transactions/route.ts:78-82 | when every accumulated record is a swap or a stake, the two buckets together are a permutation of the accumulator, and `total` is its size |
| `Transactions.AssembleKeepsOrder` | app/api/transactions/route.ts:78-80 | each bucket keeps accumulation (newest-first) order |
| `Collector.BeforeParam` | app/api/transactions/route.ts:42 | `before` is sent only when the last signature is present and non-empty, and then it is that signature |
| `Collector.WindowLength` | app/api/transactions/route.ts:50-52 | the scan covers exactly the records before the first one older than the cutoff |
| `Collector.Collect` | app/api/transactions/route.ts:40-75 | the fetch loop issues at least one fetch |
| `Collector.Serve` | app/api/transactions/route.ts:18-29 | a missing or empty address gives 400 with no fetch; a missing key gives 500 with no fetch; on success `total` is the length of `swaps` plus the length of `stakes` |
| `Collector.CursorsExtend` | app/api/transactions/route.ts:41-42 | appending the prescribed next cursor keeps the cursor rule |
| `Collector.ScanPage` | app/api/transactions/route.ts:50-73 | the scan reports a boundary hit iff the page holds a record older than the cutoff, and keeps the whitelist's images of exactly the records before the first such one |
| `Collector.Get` | app/api/transactions/route.ts:18-88 | the reply and the number of fetches are those of `Serve`; the first fetch has no `before`, and every later fetch passes the last signature of the previous page |
| `CollectorProperties.WindowLengthAppend` | app/api/transactions/route.ts:50-52 | across a page break, the window stops inside the first page if that page holds an old record, and otherwise runs on into the next page |
| `CollectorProperties.Recent` | app/api/transactions/route.ts:52 | every record of today's part of the history is at or after the cutoff |
| `CollectorProperties.BoundaryIsInclusive` | app/api/transactions/route.ts:52-72 | a record stamped exactly at the cutoff is classified; the next one, stamped at cutoff - 1, is not, and it ends the loop after that one fetch |
| `CollectorProperties.NothingReadPastBoundary` | app/api/transactions/route.ts:69-74 | after a page with a record older than the cutoff, no further fetch is issued, and the records after it and all later pages do not affect the result |
| `CollectorProperties.FailureDiscardsEarlierPages` | app/api/transactions/route.ts:45 | a failed fetch after any number of contributing pages yields no records |
| `CollectorProperties.FetchFailureIsServerError` | app/api/transactions/route.ts:84-86 | such a failure answers 500 with the fetch-failure message and no data |
| `CollectorProperties.EmptyFirstPage` | app/api/transactions/route.ts:48 | an empty first page answers success with `total = 0` and empty buckets, after one fetch |
| `CollectorProperties.CollectedIsInWindow` | app/api/transactions/route.ts:52-67 | every accumulated record is at or after the cutoff and is a swap or a stake |
| `CollectorProperties.ReportsOnlyToday` | app/api/transactions/route.ts:52 | every record in either bucket of a successful reply is stamped on or after 00:00 UTC+8 today |
| `CollectorProperties.CollectReadsRecentHistory` | app/api/transactions/route.ts:40-75 | when no fetch the loop actually issues fails (answers queued after an empty page or a page that crosses the cutoff may be failures), the loop accumulates the whitelist's images of exactly the newest run of the history that is at or after the cutoff, in order |
| `CollectorProperties.ReplyOnHealthyProvider` | app/api/transactions/route.ts:78-82 | when no fetch the loop actually issues fails, the reply is the bundle of today's whitelisted records: `swaps` and `stakes` are the filters of that list, and `total` counts today's records of a whitelisted type |
| `CollectorProperties.UnfetchedFailureIsHarmless` | app/api/transactions/route.ts:44-48 | a failure queued after an empty page is never fetched: the loop stops after two fetches with the in-window record it read, so that provider meets the hypothesis of the two properties above |
| `CollectorProperties.BucketedRecords` | app/api/transactions/route.ts:55-80 | SWAP records land unchanged in `swaps`; STAKE and UNSTAKE records land unchanged in `stakes`; UNKNOWN records land in `stakes` as STAKE with the note; other types land in neither bucket; nothing else appears |

## Left out

- `app/page.tsx` is not part of this model. It is the React page: it holds
  state, calls the route from the browser and formats times with locale
  functions. Its only check, a non-empty address, repeats the route's.
- HTTP plumbing is left out: reading the query string, the provider's URL
  and its API key, `NextResponse.json`, and the exact JSON shapes. A reply is
  a `Success` bundle or an `Error` with a status code and the route's message.
- Decoding the provider's JSON body is left out. A page is an already-decoded
  list of records. A non-ok status and a transport error are one `Failed`
  response, which the route catches and answers with 500. A body that is
  not an array of records is not modelled; the model treats it as `Failed`
  too. The route itself does not check the shape: a JSON string, or an
  object such as `{"length":0}`, can still reach its success answer.
- The provider does not react to the cursor: its answers are a fixed list
  in fetch order. The model records the cursor each fetch sends, so it
  states which page the provider was asked for, not how it picks one.
- Reading the clock (`Date.now()`, `Math.floor`) is left out. `nowSec` is
  a non-negative integer input, so JavaScript's `%` and Dafny's `%` agree.
- The API key is left out as configuration. Only whether it is present and
  non-empty matters.
- `async`/`await` and `console.error` are left out. The fetches form one
  sequential chain.
- The route rewrites an UNKNOWN record in place on the fetched object. The
  model builds a new record value instead. The fetched page is never read
  again except for its last signature, which the rewrite does not touch.
- The header comment of the route says only SWAP and UNKNOWN pass the
  whitelist. The code also keeps STAKE and UNSTAKE, and the model follows
  the code.
- The loop has no bound of its own. Here it ends because the provider's
  list of answers is finite.
- Records with missing or non-numeric fields are not modelled. Every record
  has a signature, an integer timestamp, a type and a description.
- The provider's records carry more fields than the four modelled. The
  route passes those fields to the page unchanged, and its rewrite touches
  only `type` and `description`, so a record here holds just the signature,
  timestamp, type and description.
- An empty-string signature is falsy in JavaScript, so the route would then
  fetch without `before`. `BeforeParam` models exactly that.
- `CollectReadsRecentHistory`, `ReplyOnHealthyProvider` and `BucketedRecords`
  describe the reply only when no fetch the loop actually issues fails.
  Failures are covered by `FailureDiscardsEarlierPages` and
  `FetchFailureIsServerError`.
