# Trade buckets: a verified model of the portfolio manager's write path

The backend of the portfolio manager keeps *buckets*, named groups of trades.
A trade records an instrument, a signed quantity (positive for a long
position, negative for a short one), an average entry price, a last traded
price (ltp), a status (`"open"` or `"closed"`) and, once closed, a sell price.
Saving a bucket derives each trade's profit and loss (P&L) and the bucket's
total. Three HTTP handlers change the data:

- create a bucket, checking every trade payload first;
- add a trade to a bucket, checking the payload first;
- overwrite a trade of a bucket, with no payload check.

Each handler's result is one `Outcome` value instead of an HTTP response.

The model has five modules:

- `Wrappers` (`wrappers.dfy`): `Option` and `Result`.
- `Trading` (`trading.dfy`): the trade sub-document.
  - its schema checks (`TradeSchemaValid`);
  - the sellPrice path validator (`SellPriceValidator`);
  - the pre-save hook (`TradePreSave`) that sets `profitAndLoss`.
- `Buckets` (`bucket.dfy`): the bucket document.
  - its pre-save hook, which sums the trades' P&L (`BucketPreSave`);
  - a whole save, `SaveBucket`. Schema validation of the bucket and its
    trades runs first, then each trade's hook, then the bucket's hook.
  - `Persisted(b)`: `b` is a fixed point of a save, i.e. a stored bucket.
- `TradeValidation` (`validation.dfy`): the route-level `validateTradeData`.
  - It collects the errors as `Issue` values and renders them with `Message`.
  - The resulting strings are exactly the ones the route pushes, in the
    same order.
- `BucketRoutes` (`routes.dfy`): the three write handlers.
  - Its `BucketStore` class holds the buckets as a `map` from a bucket id to
    a `Bucket`, plus two counters that stand in for ObjectId generation.
  - Its invariant `Valid()` covers unique names, ids below the counters,
    distinct trade ids within a bucket, and every bucket `Persisted`.
  - The create handler's per-trade error aggregation is a method with a
    loop, proved equal to the function `TradeListErrors`.

Money amounts are `real`. Absent fields (`undefined` or `null`) are both
`None`.

## Behaviour worth knowing

- **Short positions.** A short position whose price fell below its average
  reports a loss.
  - The hook computes `-(ltp - avg) * qty` for qty <= 0. With qty = -10,
    avg = 100 and ltp = 90 that is -100.
  - The comment beside that formula (trading.model.js, line 47) says the
    same: `(Avg - LTP) * Qty` with a negative Qty.
  - `Trading.ShortBelowAverageReportsLoss` states the -100.
  - `Trading.PositionPnlSign` states the general rule: the sign of the P&L is
    the sign of `R - avg`, where R is the reference price (ltp while open,
    sellPrice once closed). The direction of the position does not matter.
- **Empty status.** `validateTradeData` draws no message at all for status
  `""`:
  - it is present, so no "is required" message;
  - it is not `"closed"` or `"open"`, so neither sellPrice message;
  - it is falsy, so no status-value message.

  `TradeValidation.ValidateTradeDataEmptyIff` states the exact condition for
  an empty result. Such a payload then fails the schema's required and enum
  checks on save.

## Model

| member | source | states |
|---|---|---|
| Trading.TradePreSave | backend/models/trading.model.js:43-64 | The hook fails exactly for a closed trade whose sellPrice is null, with the message "sellPrice is required for closed positions". Otherwise it changes nothing but profitAndLoss. |
| Trading.PositionPnl | backend/models/trading.model.js:48-51 | The hook's formula as written, for a reference price R: `(R - avg) * qty` when qty > 0, else `-(R - avg) * qty`. Its meaning is stated by `PositionPnlIsAbsForm` and `PositionPnlSign`. |
| Trading.SellPriceValidator | backend/models/trading.model.js:67-75 | The sellPrice path validator, a function of the status and the value. `SellPriceValidatorIff` states what it rejects. |
| Trading.TradeSchemaValid | backend/models/trading.model.js:5-35 | What validation demands of a trade sub-document: a non-empty instrument, a status in the enum, and the sellPrice validator's acceptance. The numbers are always present in the model. |
| Trading.TradePreSaveOpen | backend/models/trading.model.js:46-51 | An open trade gets the formula as written: `(ltp - avg) * qty` for qty > 0, `-(ltp - avg) * qty` otherwise. This equals `(ltp - avg) * abs(qty)`. |
| Trading.TradePreSaveClosed | backend/models/trading.model.js:52-60 | A closed trade with a sellPrice gets the same formulas with sellPrice in place of ltp, equal to `(sellPrice - avg) * abs(qty)`. |
| Trading.TradePreSaveOtherStatus | backend/models/trading.model.js:43-64 | A status other than open or closed falls through both branches and leaves the trade untouched. |
| Trading.PositionPnlIsAbsForm | backend/models/trading.model.js:45-60 | Both branches of the formula equal `(R - avg) * abs(qty)`; the computed `qtyAbs` is never needed. |
| Trading.PositionPnlSign | backend/models/trading.model.js:47-60 | The P&L is positive iff qty is non-zero and R > avg, and negative iff qty is non-zero and R < avg. It is zero iff qty = 0 or R = avg. |
| Trading.ShortBelowAverageReportsLoss | backend/models/trading.model.js:47-51 | qty = -10, avg = 100, ltp = 90 gives -100. |
| Trading.TradePreSaveDerives | backend/models/trading.model.js:43-64 | A trade with a reference price (open, or closed with a sellPrice) comes out of the hook with `profitAndLoss = (R - avg) * abs(qty)`. |
| Trading.TradePreSaveIdempotent | backend/models/trading.model.js:43-64 | Running the hook on its own output gives the same result: the stored profitAndLoss is never read. |
| Trading.DerivedIsFixedPoint | backend/models/trading.model.js:43-64 | For a trade with a reference price: it is derived iff the hook leaves it unchanged. |
| Trading.SellPriceValidatorIff | backend/models/trading.model.js:67-75 | The validator rejects exactly a closed trade with a null sellPrice and an open trade with a sellPrice. It accepts every value for any other status. |
| Trading.ValidatorGuardsHook | backend/models/trading.model.js:53-75 | A trade the validator accepts never reaches the hook's own error. Validation runs before pre-save hooks. |
| Trading.SchemaValidTradeDerives | backend/models/trading.model.js:5-75 | A trade that passes the schema has a reference price. The hook derives its P&L, and the result still passes the schema. |
| Buckets.FoldPnlIsSum | backend/models/bucket.model.js:25-28 | The `reduce` with start `s` equals `s` plus the sum of the trades' P&L. |
| Buckets.FoldPnl | backend/models/bucket.model.js:25-28 | The `reduce` over the trades' profitAndLoss with a start value, a left fold in array order. `FoldPnlIsSum` relates it to the reference sum `TotalOf`. |
| Buckets.BucketSchemaValid | backend/models/bucket.model.js:6-11 | What validation demands of a bucket: the required name is non-empty and every embedded trade passes `TradeSchemaValid`. |
| Buckets.FoldPnlAppend | backend/models/bucket.model.js:25-28 | Appending a trade to the reduce adds exactly that trade's P&L. |
| Buckets.TotalOfUpdate | backend/models/bucket.model.js:25-28 | Replacing one trade changes the sum by the new P&L minus the old one. |
| Buckets.BucketPreSave | backend/models/bucket.model.js:23-30 | The hook keeps name and trades, and sets totalProfitAndLoss to the sum of the trades' P&L. |
| Buckets.EmptyBucketTotal | backend/models/bucket.model.js:25-28 | A bucket without trades gets total 0, the reduce's start value. |
| Buckets.BucketPreSaveIgnoresOldTotal | backend/models/bucket.model.js:23-30 | The previous total has no influence, so the hook is idempotent. |
| Buckets.RunTradeHooks | backend/models/bucket.model.js:11 | Running every embedded trade's hook fails iff some trade's hook fails. On success each trade is replaced by its hook's output. |
| Buckets.SaveBucket | backend/models/bucket.model.js:6-30 | A save succeeds iff the name is non-empty and every trade passes the schema. The stored bucket then has the same name and trades, each trade differing only in a derived P&L, and a total equal to their sum. |
| Buckets.SchemaValidTradesRun | backend/models/trading.model.js:43-75 | When every trade passes the schema, every trade hook succeeds and derives its trade. |
| Buckets.SaveNeverFailsInHook | backend/models/trading.model.js:53-55 | A save fails only with a schema error; the hook's own sellPrice error is unreachable. |
| Buckets.RunTradeHooksIdentity | backend/models/bucket.model.js:11 | Hooks that leave every trade unchanged leave the list unchanged. |
| Buckets.PersistedIff | backend/models/bucket.model.js:6-30 | A bucket is a fixed point of a save iff it is schema-valid, every trade is derived and the total is the sum. |
| Buckets.SaveBucketIdempotent | backend/models/bucket.model.js:23-30 | What a save stores is stored unchanged by saving it again. |
| Buckets.SaveIgnoresOldTotal | backend/models/bucket.model.js:23-30 | A save does not depend on the total the document held before. |
| Buckets.SaveAfterAppend | backend/routes/bucket.route.js:120-124 | Saving a stored bucket with one trade pushed succeeds iff that trade passes the schema. The old trades come back unchanged, the new one is its hook's output, and the total grows by its P&L. |
| Buckets.SaveAfterReplace | backend/routes/bucket.route.js:182-189 | Saving a stored bucket with the trade at k replaced succeeds iff the replacement passes the schema. The other trades are unchanged, and the total moves by the new P&L minus the old. |
| TradeValidation.MessageInjective | backend/routes/bucket.route.js:14-38 | Distinct complaints produce distinct message strings. |
| TradeValidation.ValidateTradeData | backend/routes/bucket.route.js:9-41 | The validator: the messages of the complaints, the required-field ones first, all collected rather than stopping at the first. Its lemmas below state which messages appear. |
| TradeValidation.RequiredIssuesInFieldOrder | backend/routes/bucket.route.js:10-18 | The forEach complains about instrument, qty, avg, ltp and status, in that order, each iff it is absent. |
| TradeValidation.IssuesSpelledOut | backend/routes/bucket.route.js:9-41 | The full complaint list is the five required-field checks, then the closed-without-sellPrice check, then the open-with-sellPrice check, then the status-value check. |
| TradeValidation.ValidateTradeDataEmptyIff | backend/routes/bucket.route.js:9-41 | No errors iff all five required fields are present and the status is `""`, open without a sellPrice, or closed with one. |
| TradeValidation.ValidateTradeDataAtMostFive | backend/routes/bucket.route.js:9-41 | At most five messages. "status is required", the two sellPrice messages and the status-value message exclude each other pairwise. |
| TradeValidation.RequiredIssuesContain | backend/routes/bucket.route.js:14-18 | The forEach complains about f iff f is in the field list and absent. |
| TradeValidation.IssuesContain | backend/routes/bucket.route.js:9-41 | Each complaint is in the list iff its condition holds. |
| TradeValidation.MessageIff | backend/routes/bucket.route.js:9-41 | Each message is in the result iff its condition holds. |
| TradeValidation.RequiredIssuesCount | backend/routes/bucket.route.js:14-18 | Over distinct fields, the forEach complains about f exactly once if f is listed and absent, and never otherwise. |
| TradeValidation.MissingCount | backend/routes/bucket.route.js:14-18 | The complaint about f occurs once if f is absent and not at all otherwise. |
| TradeValidation.RequiredMessageCount | backend/routes/bucket.route.js:14-18 | "f is required" occurs once if f is absent, and never for a present value such as qty 0 or status `""`. |
| TradeValidation.SellPriceMessagesIff | backend/routes/bucket.route.js:21-33 | "sellPrice is required…" appears iff status is closed and sellPrice absent. "sellPrice must be null…" appears iff status is open and sellPrice present. Never both. |
| TradeValidation.InvalidStatusIff | backend/routes/bucket.route.js:35-38 | The status-value message appears iff status is truthy and neither open nor closed. Status `""` draws no status or sellPrice message. |
| TradeValidation.RouteAgreesWithSellPriceValidator | backend/routes/bucket.route.js:21-33 | For a present status, the route's two sellPrice checks reject exactly what the schema's sellPrice validator rejects. |
| BucketRoutes.FailingIndicesExact | backend/routes/bucket.route.js:58-63 | The failing indices are exactly the trades with a non-empty error list, strictly increasing. |
| BucketRoutes.NatToString | backend/routes/bucket.route.js:61 | `${index}`: a non-empty string of decimal digits with no leading zero. |
| BucketRoutes.NatToStringRoundTrip | backend/routes/bucket.route.js:61 | Reading the digits of `${index}` back gives the index. |
| BucketRoutes.NatToStringInjective | backend/routes/bucket.route.js:61 | Distinct indices are written as distinct strings. |
| BucketRoutes.Join | backend/routes/bucket.route.js:61 | `errors.join(", ")`: the parts with the separator between neighbours. |
| BucketRoutes.TradeEntry | backend/routes/bucket.route.js:61 | The entry of one failing trade, `"Trade " + index + ": " + errors.join(", ")`. |
| BucketRoutes.TradeListErrorsIndexed | backend/routes/bucket.route.js:58-63 | The j-th entry is `"Trade i: " + errors.join(", ")` for the j-th failing index i. There is one entry per failing trade and none for a passing one. |
| BucketRoutes.TradeListErrorsEmptyIff | backend/routes/bucket.route.js:56-70 | The aggregated list is empty iff every trade passes validation. |
| BucketRoutes.CollectTradeErrors | backend/routes/bucket.route.js:57-63 | The forEach loop returns exactly `TradeListErrors(trades)`. |
| BucketRoutes.ValidPayloadIsComplete | backend/routes/bucket.route.js:14-18 | A payload without errors has all five required fields. |
| BucketRoutes.MakeTrade | backend/routes/bucket.route.js:74 | The trade sub-document cast from a payload: it has the given id, holds every field of the payload, and profitAndLoss starts at its default 0. |
| BucketRoutes.MakeTrades | backend/routes/bucket.route.js:73-74 | The trades of `new Bucket({ name, trades })`: one per payload, in order, the i-th cast from the i-th payload under id `firstId + i`. |
| BucketRoutes.Overwrite | backend/routes/bucket.route.js:182-187 | The six assignments. The result is present iff all five required fields are; a missing one makes the save fail. |
| BucketRoutes.ValidPayloadSchemaIff | backend/routes/bucket.route.js:73-77 | A trade built from a payload without errors passes the schema iff its instrument and status are non-empty. It holds the payload's fields. |
| BucketRoutes.CreateDocSchemaIff | backend/routes/bucket.route.js:73-77 | The new bucket built from validated payloads passes the schema iff its name is non-empty and every payload has a non-empty instrument and status. |
| BucketRoutes.CreateSavedContents | backend/routes/bucket.route.js:73-77 | The saved new bucket holds each payload's fields under consecutive fresh trade ids, each trade derived. |
| BucketRoutes.AppendSaved | backend/routes/bucket.route.js:120-124 | Adding a validated payload to a stored bucket saves iff the payload has a non-empty instrument and status. The old trades are kept, and the new trade holds the payload under the fresh id, with a derived P&L added to the total. |
| BucketRoutes.OverwriteSchemaIff | backend/routes/bucket.route.js:182-189 | The six assignments copy the payload, with sellPrice forced to null for "open". The result passes the schema iff instrument is non-empty and status is open, or closed with a sellPrice. |
| BucketRoutes.ReplaceSaved | backend/routes/bucket.route.js:182-189 | Saving the overwritten trade succeeds iff the update is accepted by the schema. Every other trade is kept, and the total moves by the P&L difference. |
| BucketRoutes.UpdateSkipsRouteValidation | backend/routes/bucket.route.js:167-189 | Some payload the update accepts is rejected by `validateTradeData`, e.g. open with a sellPrice: the update handler never calls it. |
| BucketRoutes.FindTrade | backend/routes/bucket.route.js:177-180 | Returns the first index holding the id, or None iff no trade has it. |
| BucketRoutes.UniqueNames | backend/models/bucket.model.js:9 | The unique index on name: two stored buckets with the same name are the same bucket. |
| BucketRoutes.BucketStore.Valid | backend/models/bucket.model.js:9 | The store invariant: unique names, ids below the counters, distinct trade ids within a bucket, and every bucket `Persisted`. |
| BucketRoutes.InsertKeepsInvariant | backend/models/bucket.model.js:9 | Inserting a stored bucket with an unused name under a fresh id keeps names unique and the store invariant. |
| BucketRoutes.ReplaceKeepsInvariant | backend/routes/bucket.route.js:121-124 | Replacing a bucket by a stored bucket of the same name keeps the store invariant. |
| BucketRoutes.BucketStore.SaveNew | backend/routes/bucket.route.js:74-77 | Saving a new document: a failed validation is reported, then a taken name, otherwise the saved bucket is inserted under a fresh id. The store is unchanged on every failure. |
| BucketRoutes.BucketStore.SaveExisting | backend/routes/bucket.route.js:124 | Saving an edited stored document replaces it by the saved bucket, or reports the failure and changes nothing. |
| BucketRoutes.BucketStore.CreateBucket | backend/routes/bucket.route.js:44-89 | Checks run in the handler's order: no name, per-trade errors (the exact aggregated list), schema failure, duplicate name. On success a fresh bucket with the payloads' fields, fresh trade ids, derived trades and their total is added. Nothing changes on any failure. |
| BucketRoutes.BucketStore.AddTrade | backend/routes/bucket.route.js:92-137 | Validation errors are reported before a missing bucket. A valid payload is saved iff its instrument and status are non-empty. It is then appended under a fresh id, old trades unchanged and the total grown by its derived P&L. Nothing changes on any failure. |
| BucketRoutes.BucketStore.UpdateTrade | backend/routes/bucket.route.js:167-198 | A missing bucket is reported before a missing trade. An accepted payload overwrites that one trade (id kept, sellPrice null for open) and re-derives it. Other trades are unchanged and the total moves by the difference. Nothing changes on any failure. |

## Left out

- The `GET /` handler: a read-only listing with no logic beyond returning
  the stored buckets.
- HTTP: status codes, response messages and JSON bodies are replaced by the
  `Outcome` constructors. The `console.log` calls are omitted.
- Database I/O, `async`/`await` and concurrency. Two concurrent creates with
  the same name, and lost updates between `findById` and `save`, are not
  modelled. Each handler runs atomically against the store.
- ObjectIds: bucket and trade ids are natural numbers drawn from two
  counters. The model has no malformed bucket id. In the real system a
  bucket id that is not an ObjectId makes `findById` throw a cast error,
  which the handler's catch block reports. A malformed trade id is an id
  that `trades.id()` does not find, as in the model.
- The `createdAt`/`updatedAt` timestamps.
- JavaScript's dynamic typing:
  - `name` and `status` are strings or absent, so the truthiness of other
    types is not modelled;
  - the casting of numeric strings to Number is not modelled;
  - a `trades` value that is not an array is not modelled (a missing one is
    the empty sequence, as the default `[]`).
- Floating point: `Number` arithmetic is modelled exactly on `real`, without
  rounding, NaN or infinities.
- A save validates every path of the document, as Mongoose does by default
  for a loaded document (its modified paths and the paths it was loaded
  with). The `validateModifiedOnly` option is not modelled.
- BucketRoutes.BucketStore.UpdateTrade: a closed status without a sellPrice
  is rejected as a schema error. Mongoose does not run the sellPrice
  validator on an `undefined` value, so the real system would save that
  trade with a NaN profitAndLoss. The model does not represent NaN.
- BucketRoutes.BucketStore.CreateBucket: a duplicate name is reported only
  after validation and the hooks succeed, as the unique index fires at
  insertion. The exact database error text is not modelled.
