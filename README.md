# serverlessChain — a Dafny model of the transaction handlers and page helpers

This project models four parts of the serverlessChain system, which works against an EVM chain node.

- **The recent-transactions handler** (`RecentTxs`, recent_txs.dfy):
  - clamps the requested block count to [1, 50];
  - builds the descending window of block numbers that ends at the latest block, never going below block 0;
  - fetches every block, all or nothing;
  - flattens the transactions in block order, then in-block order;
  - filters them by a case-insensitive `from`/`to` match;
  - answers with decimal renderings of the integers and with counts.
- **The native-transfer handler** (`SendNative`, send_native.dfy):
  - answers a CORS preflight with 204;
  - refuses a body that lacks either field with 400;
  - otherwise makes exactly one submission of `parseEther(amountEth)` to the recipient and answers 200 with the hash, or 500 with the thrown message.
- **The transfer page's helpers** (`SendPage`, send_page.dfy): the `^0x[a-fA-F0-9]{40}$` address pattern tested on the trimmed input, the `cn` class joiner, the submit-button condition and the trimmed request body.
- **The recent page's helpers** (`RecentPage`, recent_page.dfy):
  - the query URL, built through a `URLSearchParams` object by successive `set` calls;
  - the case-insensitive `highlight` predicate;
  - what a table row shows.

Two support modules hold what the JavaScript runtime provides:

- `Common`: `Option` and `Result`.
- `JsText`:
  - `String.prototype.trim` over the full ECMAScript white-space set;
  - ASCII `toLowerCase`;
  - decimal rendering of integers and parsing it back;
  - `join` and `split` on one character.

**The chain node and the signer are parameters.**

- `RecentTxs.ChainClient` carries `getBlockNumber`'s result and `getBlock` as a function. Either may fail.
- `SendNative.Signer` carries the account from `privateKeyToAccount`, `parseEther` and `sendTransaction`. Each may fail.
- Each handler returns, next to its response, the trace of the calls it made on these parameters. The properties about "no fetch", "exactly one submission" and "the key is never loaded" are stated on that trace.

**What the transfer handler checks.**

- The transfer handler checks only that `to` and `amountEth` are present and truthy (lambdas/send-native/index.mjs:30). It does not check the address format or the amount.
- A malformed recipient or an unparsable amount therefore reaches the signer and ends as a 500 carrying the thrown message.
- The address pattern exists only in the transfer page (web/src/pages/send/index.tsx:8).
- The transaction filter lower-cases the address and then trims it (lambdas/recent-txs/index.mjs:15). `JsText.TrimLower` proves that this order gives the same text as trimming first.

## Model

| member | source | states |
|---|---|---|
| RecentTxs.ClampCount | lambdas/recent-txs/index.mjs:14 | the block count always lies in [1, 50]; an absent count gives 10, a count of 0 or below gives 1, a count above 50 gives 50, any other count is kept |
| RecentTxs.NormalizeAddress | lambdas/recent-txs/index.mjs:15 | the filter address is lower-cased and trimmed, which equals lower-casing the trimmed address; an absent address stays absent |
| RecentTxs.BlockRange | lambdas/recent-txs/index.mjs:21-26 | the window has length `min(maxBlocks, latest+1)` (0 for a negative latest), starts at `latest`, steps down by exactly 1, never holds a negative number, and is `[0]` for latest 0 |
| RecentTxs.BuildBlockNumbers | lambdas/recent-txs/index.mjs:21-26 | the counting loop with its early break produces exactly that window |
| RecentTxs.FetchAll | lambdas/recent-txs/index.mjs:28-32 | all-or-nothing fetching: success exactly when every fetch succeeds, block k is then the result for number k, and a failure carries the message of a failing fetch |
| RecentTxs.RecordRoundTrip | lambdas/recent-txs/index.mjs:36-42 | a record keeps the transaction's hash, `from` and `to`; its `value` is absent exactly when the transaction's value is, and otherwise parses back to it; its `blockNumber` is absent exactly when the containing block has no number, and otherwise parses back to that block's number |
| RecentTxs.Flatten | lambdas/recent-txs/index.mjs:34-43 | the flattened list has one record per transaction of the fetched blocks |
| RecentTxs.FlattenAt | lambdas/recent-txs/index.mjs:34-43 | transaction j of block i sits at position (transactions of blocks before i) + j, built against block i, so block order and then in-block order are kept |
| RecentTxs.FilterTxs | lambdas/recent-txs/index.mjs:44-47 | the kept records are a subsequence of the input, each matches the address, every matching record is kept, there are as many as there are matching positions in the input, and with no or a blank address the list is unchanged; a lower-cased `from` or a present lower-cased `to` must equal the address |
| RecentTxs.Handle | lambdas/recent-txs/index.mjs:14-63 | the first call is `getBlockNumber`; if it fails or returns a negative number, nothing is fetched and the answer is 500; otherwise the calls are exactly one fetch per window number; any failed fetch gives 500; on 200 the headers are JSON, `latest` parses back to the latest block, `blocksRequested` is the clamped count, `blocksReturned` is the window length (at most 50 and at most latest+1), `count` is the number of listed records, and the records are the filtered flattened blocks |
| RecentTxs.ErrorText | lambdas/recent-txs/index.mjs:60-63 | the error text is the thrown message when that is not empty, and is never empty (the text `Error` stands for the error's name) |
| RecentTxs.Handler | lambdas/recent-txs/index.mjs:7-64 | the handler's steps, the loop among them, give exactly the response and call trace of `Handle` |
| RecentTxs.ListedRecordsAreFetched | lambdas/recent-txs/index.mjs:34-47 | every listed record is built from a transaction of one of the fetched blocks, against that block |
| SendNative.Handle | lambdas/send-native/index.mjs:9-55 | every response carries the three CORS headers; 204 exactly for OPTIONS, with an empty body and no signer use; 400 exactly when a readable body lacks a truthy `to` or `amountEth`, with `to & amountEth are required` and no signer use; a submission happens exactly when the key loads and the amount converts, and the trace is then the key load, `parseEther(amountEth)` and one `sendTransaction` with `to` unchanged and value `parseEther(amountEth)`; 200 exactly when that submission succeeds, with its hash; an unreadable body, a failed key load, a failed conversion or a failed submission each give 500 with that failure's message |
| SendPage.AddressPatternShape | web/src/pages/send/index.tsx:8 | the pattern holds exactly for `0x` followed by 40 characters from [0-9a-fA-F], so a matching address has 42 characters |
| SendPage.ValidAddressPadded | web/src/pages/send/index.tsx:18 | white space around the recipient never changes `validAddress` |
| SendPage.DefaultRecipientValid | web/src/pages/send/index.tsx:8-18 | the initial recipient matches the pattern, survives trimming unchanged, and so is valid |
| SendPage.TruthyClasses | web/src/pages/send/index.tsx:5-7 | `filter(Boolean)` gives an ordered selection of the arguments' names, as many as there are non-empty class names, none of them empty: exactly the non-empty names in argument order |
| SendPage.AllTruthyKept | web/src/pages/send/index.tsx:6 | when every argument is a non-empty class name, the filter keeps all of them in order |
| SendPage.Cn | web/src/pages/send/index.tsx:5-7 | `cn` gives the empty text exactly when no argument is a non-empty class name |
| SendPage.CnPieces | web/src/pages/send/index.tsx:5-7 | whatever the class strings hold (the page passes strings of several space-separated classes), when at least one argument is kept, splitting `cn`'s result at single spaces gives the pieces of each kept name, in argument order |
| SendPage.CnRoundTrip | web/src/pages/send/index.tsx:5-7 | the special case of names without a space: splitting `cn`'s result at single spaces gives back exactly the kept names |
| SendPage.SubmitEnabled | web/src/pages/send/index.tsx:163 | the button is enabled exactly when the address is valid, the amount is valid and nothing is loading; an enabled send has a 42-character trimmed recipient |
| SendPage.RequestBody | web/src/pages/send/index.tsx:33 | each posted field is a slice of what was typed with only white space around it and none left at its ends; trimming them again changes nothing, and the posted recipient matches the pattern exactly when the typed one is valid |
| SendPage.RequestBodyPadded | web/src/pages/send/index.tsx:33 | white space typed around either field never changes the posted body |
| SendPage.DefaultFormPassesFieldCheck | web/src/pages/send/index.tsx:11-12 | the form as it starts, with its amount judged valid, has the button enabled and passes the handler's required-field check |
| SendPage.EnabledSendPassesFieldCheck | web/src/pages/send/index.tsx:163 | a send the button allows, with a non-blank amount, passes the handler's required-field check, so the handler answers 200 or 500 and never 400 |
| RecentPage.FormEncode | web/src/pages/recent/index.tsx:18 | an encoded name or value never holds `&` or `=`, and text of unreserved characters is left unchanged |
| RecentPage.SetThenLookup | web/src/pages/recent/index.tsx:16-17 | after `set(name, value)`, `get(name)` is `value` and every other name reads as before |
| RecentPage.RemoveName | web/src/pages/recent/index.tsx:16-17 | the pairs `set` drops leave no pair with that name and no other name changes |
| RecentPage.SearchParams.Set | web/src/pages/recent/index.tsx:16-17 | the object's pairs become the result of `set` on its old pairs |
| RecentPage.QueryEntries | web/src/pages/recent/index.tsx:14-19 | the query always has at least one pair; `count` reads as the selected count, and `address` is present exactly when the trimmed address is not empty, carrying the trimmed address |
| RecentPage.ApiUrl | web/src/pages/recent/index.tsx:14-19 | the URL is the route path followed by the serialized query of those pairs |
| RecentPage.QueryRoundTrip | web/src/pages/recent/index.tsx:18 | splitting the serialized query at `&` and then at `=` gives every encoded name and value back, in order |
| RecentPage.ApiUrlVerbatim | web/src/pages/recent/index.tsx:14-19 | for a non-negative count and a trimmed address made of unreserved characters, the query is `count=<decimal>&address=<trimmed address>` |
| RecentPage.CountOptionsUnclamped | web/src/pages/recent/index.tsx:135 | each selectable count (5, 10, 15, 20) comes back unchanged from the handler's clamp |
| RecentPage.Highlight | web/src/pages/recent/index.tsx:43-44 | a value is highlighted exactly when the trimmed filter is not blank, the value is present, and the two agree once lower-cased; a blank filter, an absent value or an empty value is never highlighted |
| RecentPage.HighlightIgnoresCase | web/src/pages/recent/index.tsx:43-44 | lower-casing the filter or the value never changes the verdict |
| RecentPage.ViewRow | web/src/pages/recent/index.tsx:229-297 | a row is highlighted exactly when its `from` or its `to` is; a party cell shows the address when it is present and not empty and `-` otherwise; a missing value shows `0` and a missing block number `-` |
| RecentPage.FilterMirrorsHighlight | web/src/pages/recent/index.tsx:43-44 | for the trimmed address the page sends, the handler keeps a record exactly when the page highlights its row |
| JsText.TrimPadded | lambdas/recent-txs/index.mjs:15 | trimming ignores any white space added at either end |
| JsText.TrimLower | lambdas/recent-txs/index.mjs:15 | lower-casing then trimming equals trimming then lower-casing |
| JsText.DecimalRoundTrip | lambdas/recent-txs/index.mjs:40-41 | the decimal rendering of a natural number parses back to that number |
| JsText.DecimalCanonical | lambdas/recent-txs/index.mjs:53 | a digit string without leading zeros is the rendering of its value, so rendering and parsing are inverse |
| JsText.SplitJoin | web/src/pages/send/index.tsx:6 | splitting a join at its separator gives the parts back, when no part holds the separator |
| JsText.SplitAround | web/src/pages/send/index.tsx:6 | splitting two texts with one separator between them splits each text on its own and concatenates the pieces |
| JsText.SplitJoinPieces | web/src/pages/send/index.tsx:6 | splitting a join of any non-empty list of parts gives the pieces of every part, in order |
| JsText.TrimIsSlice | web/src/pages/send/index.tsx:18 | `trim` keeps a slice of its input with only white space around it and none at its ends |
| JsText.TrimUnpadded | web/src/pages/send/index.tsx:11-12 | text whose first and last characters are not white space trims to itself |

## Left out

- The React rendering, `useState`/`useEffect`, the refresh timer, the clipboard and `fetch` in both pages, including `onSend`, `fetchRows` and `copy`, are UI and I/O.
- The two API routes (web/src/pages/api/send.ts and web/src/pages/api/recent.ts) are not modelled. Each answers 405 to any other HTTP method (send.ts:14, recent.ts:14). The send route runs its own required-field check with a 400 (send.ts:18). The recent route coerces `count` with `Number` and drops an `address` that is not a string (recent.ts:17-18). Beyond that they forward the event over the Lambda SDK and unwrap the JSON envelope. Only the event the send route hands the handler is used, in `SendPage.HandlerEvent`.
- viem is not part of this model: client construction, `getBlockNumber`, `getBlock`, `privateKeyToAccount`, `parseEther` and `sendTransaction` are function-valued parameters that may fail.
- `createWalletClient` (lambdas/send-native/index.mjs:39) is taken never to throw, and it leaves no trace.
- JSON parsing of the incoming event (lambdas/recent-txs/index.mjs:10-12, lambdas/send-native/index.mjs:27-28) is foreign parsing. The handlers start from an already parsed request. A body that cannot be parsed or destructured stands as `SendNative.Unreadable` with the thrown message.
- The JSON serialization of response bodies is left out. Bodies are datatypes with the same fields.
- Logging with `console.error` is left out.
- RecentTxs.FetchAll: `Promise.all` fetches concurrently and fails with the first rejection in time. The model fetches in list order and reports the first failure in list order. The all-or-nothing outcome and the set of calls are the same.
- RecentTxs.ClampCount: the count is an integer or absent. A fractional or NaN count, which makes `BigInt(maxBlocks)` throw, is not modelled, and neither is `Number` coercion of strings.
- RecentTxs.NormalizeAddress: a non-string `address`, which throws at `toLowerCase`, is not modelled. `toLowerCase` is modelled on ASCII letters only.
- RecentPage.Highlight: `toLowerCase` is likewise ASCII-only here. Non-ASCII case mapping is not modelled.
- RecentTxs.ErrorText: `String(e)` of an `Error` with an empty message is its name (`Error`, `TypeError`, …); the model uses `Error` for every such name. A thrown value that is not an `Error` is modelled only through its message text.
- SendNative.Handle: a thrown value's `message` is taken to be a string.
- SendPage.SubmitEnabled: `validAmount` (web/src/pages/send/index.tsx:19-22) relies on JavaScript `Number` parsing. It enters only as a boolean argument.
- The configuration and static files (web/src/lib/wagmi.ts, web/src/pages/_app.tsx, web/src/pages/index.tsx, blockchain/ignition/modules/Token.ts) have no logic to model.
