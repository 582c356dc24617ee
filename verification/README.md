# Customer-data pipeline: validate and transform stages

This project models the two stage handlers of a small batch data pipeline.
Files land in an input bucket. An event names the landed object, and two
handlers react to it:

- **validate** (`validate_data.py`). It copies the two reference files,
  `customers.json` and `product_catalog.csv`, to the processing bucket. It
  checks each order batch (`customer_orders_*.jsonl`) against the reference
  ids, all or nothing. It skips every other file.
- **transform** (`transform_data.py`). It enriches each order of a batch with
  the customer name and the product name and price. It writes one item per
  order to the metadata table, keyed by record id. It skips every other file.

Both handlers share the same steps:

- resolve the event, in either its flat or its wrapped shape;
- take the filename from the key;
- find the processing bucket with `bucket.replace("input", "processing")`;
- parse the batch: strip the body, split it into lines, skip blank lines and
  lines that do not decode.

The model is functional. A `World` holds:

- the object store, as a map from location to body;
- a log of copy requests;
- the item table, as a map from record id to item.

Each handler is a pure function from an event and a world to a `Run`, which
is a result plus the new world. Raised exceptions become `Err` values:

| error | what raises it |
|---|---|
| `InvalidEvent` | the event has neither shape |
| `MalformedEvent` | a lookup inside the wrapped payload fails |
| `NoSuchObject` | a read or copy finds no object |
| `MalformedReference` | a reference file does not decode, a reference row lacks its key column, or (transform stage only) a customer lacks `name` |
| `ValidationFailed` | the validation gate fails, with the error count |

The host language's string methods are modelled character by character in
`Text`. The JSON and CSV decoders are oracle functions held in a `Codecs`
value.

Modules:

- `Types`: records, locations, items, errors, outcomes and the world.
- `Text`: `strip`, `splitlines`, `split`, `join` and `replace`.
- `Dispatch`: event shapes, the filename, file kinds and the processing bucket.
- `Parsing`: the batch parser.
- `Validation`: per-order defects and the id sets.
- `LastWins`: a sequence of key/value writes into a map, where later writes win.
- `Enrichment`: the reference maps and the enriched item.
- `Loading`: the three reads an order batch needs.
- `ValidateStage` and `TransformStage`: the two handlers.

## Model

| member | source | states |
|---|---|---|
| Text.IsSpace | data-pipeline/lambda_functions/validate_data/validate_data.py:37 | No contract of its own: the whitespace of `str.isspace`, which `strip` removes. Text.CharacterClasses states where it differs from a line boundary. |
| Text.IsLineBreak | data-pipeline/lambda_functions/validate_data/validate_data.py:36 | No contract of its own: the line boundaries of `splitlines`. Text.CharacterClasses and Text.LinesFromBoundary state its role. |
| Text.CharacterClasses | data-pipeline/lambda_functions/validate_data/validate_data.py:36-37 | `\t`, `\x1f` and the no-break space are whitespace but end no line. The zero-width space is neither. `\x85` and `\u2028` are both. |
| Text.IsBlank | data-pipeline/lambda_functions/validate_data/validate_data.py:37 | No contract of its own: `line.strip()` is falsy. Text.Strip states that the strip is empty exactly when the text is blank, and Parsing.BlankBodyHasNoOrders uses it. |
| Text.EndsWith | data-pipeline/lambda_functions/validate_data/validate_data.py:31 | No contract of its own: `endswith`. Text.EndsWithAppend and Dispatch.ClassifyExamples state its meaning. |
| Text.EndsWithAppend | data-pipeline/lambda_functions/validate_data/validate_data.py:31 | Any text followed by a suffix ends with that suffix. |
| Text.Strip | data-pipeline/lambda_functions/validate_data/validate_data.py:33 | The body is stripped. The result is empty exactly when the body is whitespace only. Otherwise it neither starts nor ends with whitespace. It is the body with a whitespace-only prefix and a whitespace-only suffix cut off. |
| Text.TrimmedIsInfix | data-pipeline/lambda_functions/transform_data/transform_data.py:28 | A leading cut followed by a trailing cut leaves the body less a blank prefix and a blank suffix, with no space at either end. |
| Text.StripStart | data-pipeline/lambda_functions/validate_data/validate_data.py:33 | The leading-whitespace cut drops only a blank prefix. What it keeps is a suffix of the input that is empty or starts with a non-space. |
| Text.StripEnd | data-pipeline/lambda_functions/transform_data/transform_data.py:28 | The trailing-whitespace cut drops only a blank suffix. What it keeps is a prefix of the input that is empty or ends with a non-space. |
| Text.StripKeepsTrimmed | data-pipeline/lambda_functions/transform_data/transform_data.py:28 | A string that neither starts nor ends with whitespace is its own strip. Stripping twice is the same as stripping once. |
| Text.SplitLines | data-pipeline/lambda_functions/validate_data/validate_data.py:36 | No line holds a line boundary (`\n`, `\r`, `\v`, `\f`, `\x1c`-`\x1e`, `\x85`, `\u2028`, `\u2029`). There are no lines exactly when the text is empty. How each boundary ends a line is stated by Text.LinesFromBoundary. |
| Text.LinesFrom | data-pipeline/lambda_functions/transform_data/transform_data.py:31 | Splitting at boundaries, with the partial line read so far, yields lines free of boundaries. Non-empty input yields at least one line. Text.LinesFromBoundary gives the step at each boundary. |
| Text.LinesFromNewline | data-pipeline/lambda_functions/transform_data/transform_data.py:31 | A leading "\n" ends the current line and starts a fresh one. |
| Text.LinesFromSkipsPlainText | data-pipeline/lambda_functions/transform_data/transform_data.py:31 | A run of text without boundaries only extends the current line. |
| Text.LinesFromBoundary | data-pipeline/lambda_functions/transform_data/transform_data.py:31 | A boundary-free line followed by one boundary yields that line, then the lines of the rest. The boundary is "\r\n", or any one-character boundary that is not a `\r` followed by `\n`. |
| Text.JoinThenSplitLines | data-pipeline/lambda_functions/validate_data/validate_data.py:36 | Lines without boundaries, joined with "\n" and with a non-empty last line, split back to the same lines. |
| Text.LinesFromThenJoin | data-pipeline/lambda_functions/validate_data/validate_data.py:36 | Text whose only boundaries are "\n", and that does not end in one, is the "\n"-join of its lines, carried from any current line. |
| Text.SplitLinesThenJoin | data-pipeline/lambda_functions/validate_data/validate_data.py:36 | The other direction of the round trip: such text is the "\n"-join of its `splitlines`. |
| Text.SplitLinesExample | data-pipeline/lambda_functions/validate_data/validate_data.py:36 | A body with a blank middle line splits into three lines, the blank one included. |
| Text.SplitLinesCrlfExample | data-pipeline/lambda_functions/validate_data/validate_data.py:36 | "a\r\nb" splits into "a" and "b": the pair "\r\n" is one boundary. A trailing "\r\n" adds no empty line. |
| Text.Split | data-pipeline/lambda_functions/validate_data/validate_data.py:21 | `split` always yields at least one part. |
| Text.SplitFrom | data-pipeline/lambda_functions/validate_data/validate_data.py:21 | No contract of its own: the left-to-right scan behind `split`. Text.SplitFromThenJoin and Text.SplitFromPartsLackSeparator state its meaning. |
| Text.SplitThenJoin | data-pipeline/lambda_functions/validate_data/validate_data.py:21 | Joining the parts of a split with the same separator gives back the string. |
| Text.Join | data-pipeline/lambda_functions/validate_data/validate_data.py:25 | No contract of its own. The source never calls `join`; Join is the reference form in which `bucket.replace(...)` is stated, through Text.ReplaceIsSplitThenJoin. Text.SplitThenJoin and Text.JoinSnoc state its meaning. |
| Text.SplitFromPartsLackSeparator | data-pipeline/lambda_functions/transform_data/transform_data.py:22 | No part of a split contains an occurrence of the separator, whatever its length, given that the part read so far cannot start one. |
| Text.SplitPartsLackSeparator | data-pipeline/lambda_functions/validate_data/validate_data.py:21 | No part of `s.split(sep)` contains `sep`. |
| Text.JoinSnoc | data-pipeline/lambda_functions/transform_data/transform_data.py:22 | A join of two or more parts ends with the separator followed by the last part. |
| Text.ReplaceBySelf | data-pipeline/lambda_functions/validate_data/validate_data.py:25 | Replacing a pattern with itself leaves the string unchanged. |
| Text.Replace | data-pipeline/lambda_functions/validate_data/validate_data.py:25 | No contract of its own: `s.replace(p, r)`. Text.ReplaceIsSplitThenJoin, Text.ReplaceWithoutOccurrence and Text.ReplaceBySelf state its meaning. |
| Text.SplitFromThenJoin | data-pipeline/lambda_functions/validate_data/validate_data.py:25 | Left-to-right, non-overlapping replacement equals splitting on the pattern and joining with the replacement, from any prefix. |
| Text.ReplaceIsSplitThenJoin | data-pipeline/lambda_functions/validate_data/validate_data.py:25 | `s.replace(p, r)` equals `r.join(s.split(p))`. |
| Text.ReplaceWithoutOccurrence | data-pipeline/lambda_functions/transform_data/transform_data.py:41 | A string that does not contain the pattern is left unchanged by `replace`. |
| Dispatch.Resolve | data-pipeline/lambda_functions/validate_data/validate_data.py:12-19 | The event is invalid exactly when it has neither the flat `bucket`+`key` fields nor a `detail` holding `bucket`. The flat fields win when both shapes are present. |
| Dispatch.ResolveAcceptsBothShapes | data-pipeline/lambda_functions/transform_data/transform_data.py:13-18 | A flat event and a wrapped event both resolve to the location they name. |
| Dispatch.ResolveWrapped | data-pipeline/lambda_functions/transform_data/transform_data.py:16-18 | A wrapped-only event resolves exactly when `detail.bucket.name` and `detail.object.key` exist, to those names. Otherwise the lookup fails. |
| Dispatch.Filename | data-pipeline/lambda_functions/validate_data/validate_data.py:21 | The filename has no "/". It is a suffix of the key. When it is shorter than the key, a "/" comes just before it. |
| Dispatch.FilenameOfPlainKey | data-pipeline/lambda_functions/transform_data/transform_data.py:22 | A key without "/" is its own filename. |
| Dispatch.FilenameUnderDirectory | data-pipeline/lambda_functions/transform_data/transform_data.py:22 | Any directory prefix ending in "/" leaves the filename unchanged. |
| Dispatch.Classify | data-pipeline/lambda_functions/validate_data/validate_data.py:24-31 | A name is a reference file exactly when it is one of the two reference names. It is an order batch exactly when it has the order prefix and the `.jsonl` suffix. It is unrecognized exactly when it is neither. |
| Dispatch.ClassifyExamples | data-pipeline/lambda_functions/validate_data/validate_data.py:24-31 | `customer_orders_2024.jsonl` is an order batch, the same name ending in `.json` is unrecognized, and `customers.json` is a reference file. |
| Dispatch.ProcessingBucket | data-pipeline/lambda_functions/validate_data/validate_data.py:25 | The processing bucket is the input bucket split on "input" and joined with "processing". |
| Dispatch.ProcessingBucketWithoutInput | data-pipeline/lambda_functions/transform_data/transform_data.py:41 | A bucket whose name lacks "input" is its own processing bucket. |
| Parsing.DecodeLines | data-pipeline/lambda_functions/validate_data/validate_data.py:35-41 | No more orders than lines. |
| Parsing.ParseBatch | data-pipeline/lambda_functions/transform_data/transform_data.py:28-36 | No more orders than lines of the stripped body. |
| Parsing.BatchLines | data-pipeline/lambda_functions/validate_data/validate_data.py:33-36 | No contract of its own: `raw_data.strip().splitlines()`. Text.Strip and Text.SplitLines state its parts, and Parsing.BatchLinesAroundBlank gives a worked case. |
| Parsing.AcceptedIndices | data-pipeline/lambda_functions/validate_data/validate_data.py:36-39 | The kept line positions are in range, strictly increasing and accepted, meaning non-blank and decoding. Every accepted line is listed. |
| Parsing.OrdersAreAcceptedLinesInOrder | data-pipeline/lambda_functions/validate_data/validate_data.py:35-41 | There is one order per accepted line. The k-th order is the decoding of the k-th accepted line. |
| Parsing.DecodeLinesAppend | data-pipeline/lambda_functions/transform_data/transform_data.py:30-36 | Parsing two runs of lines gives the two results concatenated. |
| Parsing.AllLinesAccepted | data-pipeline/lambda_functions/transform_data/transform_data.py:31-34 | When every line is non-blank and decodes, there are as many orders as lines. |
| Parsing.BlankBodyHasNoOrders | data-pipeline/lambda_functions/validate_data/validate_data.py:33-37 | An empty or whitespace-only body holds no orders. |
| Parsing.ParseBatchLoop | data-pipeline/lambda_functions/validate_data/validate_data.py:35-41 | The appending loop computes the parse of the whole body. |
| Parsing.BatchLinesAroundBlank | data-pipeline/lambda_functions/validate_data/validate_data.py:33-36 | Two lines around a blank middle line, each free of boundaries and with no space at the outer ends, strip and split into the three lines. |
| Parsing.SkipsBlankAndUndecodableLines | data-pipeline/lambda_functions/transform_data/transform_data.py:30-36 | An undecodable line, then a blank line, then a line that decodes, give exactly the last line's record. |
| Parsing.ParseExample | data-pipeline/lambda_functions/validate_data/validate_data.py:33-41 | One undecodable line, one blank line and one valid line give exactly the one valid record. |
| Validation.OrderDefects | data-pipeline/lambda_functions/validate_data/validate_data.py:56-62 | An order has no defect exactly when both ids are present and known. A missing id gives the single missing-fields defect and no lookups. Otherwise each invalid-id defect appears exactly when that id is unknown, and the order has exactly one defect per unknown id. |
| Validation.Defects | data-pipeline/lambda_functions/validate_data/validate_data.py:54-62 | No contract of its own: the defects of each order, in order. Validation.NoDefectsIffAllConform, Validation.DefectsAppend and Validation.DefectCountBounds state its meaning. |
| Validation.NoDefectsIffAllConform | data-pipeline/lambda_functions/validate_data/validate_data.py:54-67 | The batch has no defect exactly when every order conforms. |
| Validation.DefectsAppend | data-pipeline/lambda_functions/validate_data/validate_data.py:55-62 | The defects of two runs of orders are the two defect lists concatenated. |
| Validation.DefectCountBounds | data-pipeline/lambda_functions/validate_data/validate_data.py:55-62 | The error count is at most twice the order count. It is at least the number of non-conforming orders. |
| Validation.DefectCountIsViolations | data-pipeline/lambda_functions/validate_data/validate_data.py:54-66 | The batch's error count equals the number of broken rules counted independently: one per order missing an id, otherwise one per unknown id. |
| Validation.DefectsDependOnlyOnMembership | data-pipeline/lambda_functions/validate_data/validate_data.py:59-62 | The defects are unchanged under reference sets that agree on the ids the orders carry. |
| Validation.CollectDefects | data-pipeline/lambda_functions/validate_data/validate_data.py:54-62 | The loop, with its `continue` after a missing field, computes the batch's defect list. |
| Validation.DefectsExample | data-pipeline/lambda_functions/validate_data/validate_data.py:56-60 | An unknown customer id gives exactly one invalid-customer defect. An order without a product id gives exactly one missing-fields defect. |
| Validation.KeyColumn | data-pipeline/lambda_functions/validate_data/validate_data.py:48 | The id set exists exactly when every row carries the field. It then holds every row's id and nothing else. |
| LastWins.Upserts | data-pipeline/lambda_functions/transform_data/transform_data.py:51-63 | After the writes, the table's keys are the old keys plus the written keys. |
| LastWins.UpsertsStep | data-pipeline/lambda_functions/transform_data/transform_data.py:54-63 | Writing one more entry updates the table at that entry's key. |
| LastWins.LastForIsLastEntry | data-pipeline/lambda_functions/transform_data/transform_data.py:44 | A key has a last write exactly when some entry writes it. That last write is the value of the last entry with the key. |
| LastWins.UpsertsHoldsLastWrite | data-pipeline/lambda_functions/transform_data/transform_data.py:51-63 | A key is present after the writes exactly when it was present before or some entry writes it. Its value is the last write, or the old value when nothing writes it. |
| LastWins.UpsertsLastWins | data-pipeline/lambda_functions/transform_data/transform_data.py:48 | The last entry with a key determines that key's value. |
| LastWins.UpsertsKeepsUnwritten | data-pipeline/lambda_functions/transform_data/transform_data.py:54-63 | A key no entry writes keeps its presence and its value. |
| LastWins.UpsertsReplay | data-pipeline/lambda_functions/transform_data/transform_data.py:51-63 | Replaying the same writes changes nothing. |
| LastWins.UpsertsAppend | data-pipeline/lambda_functions/transform_data/transform_data.py:51-63 | Writing two runs of entries equals writing the first run, then the second. |
| LastWins.KeysOfSize | data-pipeline/lambda_functions/transform_data/transform_data.py:51-63 | There are no more distinct written keys than entries. |
| Enrichment.CustomerEntries | data-pipeline/lambda_functions/transform_data/transform_data.py:44 | The keys the customer map is built from are exactly the customers' ids. |
| Enrichment.CatalogEntries | data-pipeline/lambda_functions/transform_data/transform_data.py:48 | The keys the catalog map is built from are exactly the rows' product ids. |
| Enrichment.CustomerMap | data-pipeline/lambda_functions/transform_data/transform_data.py:44 | The customer map exists exactly when every customer has both an id and a name. |
| Enrichment.CatalogMap | data-pipeline/lambda_functions/transform_data/transform_data.py:48 | The catalog map exists exactly when every row has a product id. |
| Enrichment.ReferenceMapKeys | data-pipeline/lambda_functions/transform_data/transform_data.py:44-48 | The transform stage's reference maps have as keys exactly the validate stage's id sets over the same rows. |
| Enrichment.Lookup | data-pipeline/lambda_functions/transform_data/transform_data.py:52-60 | No contract of its own: `dict.get(key, default)`. Enrichment.EnrichCustomerName, Enrichment.EnrichProductDefault and Enrichment.EnrichIdAndStatus state its effect. |
| Enrichment.Field | data-pipeline/lambda_functions/transform_data/transform_data.py:52-53 | No contract of its own: `order.get(field)`. Enrichment.EnrichIgnoresOtherFields states that only these three fields reach the item. |
| Enrichment.Enrich | data-pipeline/lambda_functions/transform_data/transform_data.py:52-62 | No contract of its own: the item written for one order. Enrichment.EnrichIdAndStatus, Enrichment.EnrichCustomerName, Enrichment.EnrichProduct and the two default lemmas state its meaning. |
| Enrichment.EnrichCustomerName | data-pipeline/lambda_functions/transform_data/transform_data.py:52 | The customer name comes from the last customer with the order's id. |
| Enrichment.EnrichProduct | data-pipeline/lambda_functions/transform_data/transform_data.py:53-60 | Product name and price come from the last catalog row with the order's product id. A column that row lacks gets its own default. |
| Enrichment.EnrichCustomerNameDefault | data-pipeline/lambda_functions/transform_data/transform_data.py:52 | The customer name is "Unknown" when the order has no customer id or no customer carries it, an empty customer list included. |
| Enrichment.EnrichProductDefault | data-pipeline/lambda_functions/transform_data/transform_data.py:53-60 | Product name and price are "Unknown" and "0.00" when the order has no product id or no catalog row carries it, a catalog with no rows included. |
| Enrichment.EnrichWithoutReferences | data-pipeline/lambda_functions/transform_data/transform_data.py:52-60 | With an empty customer list and an empty catalog, every item gets all three defaults. |
| Enrichment.EnrichIdAndStatus | data-pipeline/lambda_functions/transform_data/transform_data.py:57-61 | The record id is the order id, or "unknown" when there is none. The status is always "processed". |
| Enrichment.EnrichIgnoresOtherFields | data-pipeline/lambda_functions/transform_data/transform_data.py:56-62 | Only the order, customer and product ids of an order affect its item. |
| Enrichment.ValidOrderFindsReferences | data-pipeline/lambda_functions/transform_data/transform_data.py:52-53 | An order that passes validation against the same rows finds its customer and its product. Its customer name is taken from the map, not the default. |
| Enrichment.EnrichExample | data-pipeline/lambda_functions/transform_data/transform_data.py:52-62 | Order o1 for customer c1 (Alice) and product p1 (Widget, 9.99) becomes the item (o1, Alice, Widget, 9.99, processed). |
| Loading.Load | data-pipeline/lambda_functions/validate_data/validate_data.py:32-52 | Loading succeeds exactly when all three objects exist, the customers decode and both reference files index. On success the orders are the parse of the batch. On failure the error names the first input that fails, checking the batch, then customers.json, then product_catalog.csv. |
| Loading.LoadReadsOnlyItsInputs | data-pipeline/lambda_functions/transform_data/transform_data.py:27-48 | Loading depends only on the batch object and the two reference objects. |
| ValidateStage.Decide | data-pipeline/lambda_functions/validate_data/validate_data.py:64-70 | A batch is validated, with its order count, exactly when every order conforms. Otherwise the failure names the file and carries the error count, which is positive and equals the number of broken rules. |
| ValidateStage.MoveReferenceFile | data-pipeline/lambda_functions/validate_data/validate_data.py:24-29 | No contract of its own: the copy of a reference file. ValidateStage.HandleMovesReferenceFile states its meaning. |
| ValidateStage.Handle | data-pipeline/lambda_functions/validate_data/validate_data.py:9-73 | The stage never writes the table. A failure leaves the world unchanged. It never reports `transformed`. Only a moved reference file changes the world. |
| ValidateStage.HandleRejectsBadEvent | data-pipeline/lambda_functions/validate_data/validate_data.py:18-19 | A bad event fails with the event error and changes nothing. |
| ValidateStage.HandleMovesReferenceFile | data-pipeline/lambda_functions/validate_data/validate_data.py:24-29 | A reference file is copied unchanged to the processing bucket under its bare filename. The copy is logged and every other object is unchanged. A missing source fails without effect. |
| ValidateStage.HandleSkipsUnrecognized | data-pipeline/lambda_functions/validate_data/validate_data.py:72-73 | An unrecognized file is skipped with its filename, changing nothing, whatever the store holds. |
| ValidateStage.HandleValidatesOrderBatch | data-pipeline/lambda_functions/validate_data/validate_data.py:31-70 | An order batch never changes the world. A load error is the result. Otherwise the run succeeds exactly when every order conforms, and a success is always `validated` with the order count. A failure carries the defect count, which is positive and equals the number of broken rules. |
| TransformStage.ItemEntries | data-pipeline/lambda_functions/transform_data/transform_data.py:51-63 | The record ids written are exactly the orders' `order_id`s, with "unknown" for an order that has none. |
| TransformStage.WriteItems | data-pipeline/lambda_functions/transform_data/transform_data.py:51-63 | The put loop leaves the table as the last-wins fold of the item writes. |
| TransformStage.Handle | data-pipeline/lambda_functions/transform_data/transform_data.py:10-69 | The stage never changes the objects or the copy log. The table changes only in a `transformed` run. Any success is `transformed` or `skipped`. |
| TransformStage.HandleRejectsBadEvent | data-pipeline/lambda_functions/transform_data/transform_data.py:19-20 | A bad event fails with the event error and changes nothing. |
| TransformStage.HandleSkipsNonOrderFiles | data-pipeline/lambda_functions/transform_data/transform_data.py:68-69 | Every file that is not an order batch, reference files included, is skipped with no effect. |
| TransformStage.ReferenceFilesAreNotOrderBatches | data-pipeline/lambda_functions/transform_data/transform_data.py:26 | Neither reference filename is an order batch name. |
| TransformStage.HandleTransformsOrderBatch | data-pipeline/lambda_functions/transform_data/transform_data.py:26-66 | A load error is the result. Otherwise the run reports the parsed order count, and the table is the fold of the item writes. |
| TransformStage.HandleLastOrderWins | data-pipeline/lambda_functions/transform_data/transform_data.py:51-63 | A record id holds the item of the last order with that id. Ids no order writes keep their previous item, or stay absent. |
| TransformStage.HandleGrowsTableByAtMostRecords | data-pipeline/lambda_functions/transform_data/transform_data.py:65-66 | The table grows by at most the reported record count. |
| TransformStage.HandleReplayIsIdempotent | data-pipeline/lambda_functions/transform_data/transform_data.py:51-66 | Re-running the stage on the world it produced gives the same run. |
| TransformStage.ValidatedBatchEnrichesFromReferences | data-pipeline/lambda_functions/transform_data/transform_data.py:44-66 | When the validate stage passes a batch, the transform stage processes it on the same objects exactly when every customer also has a `name`. Otherwise it fails on customers.json and changes nothing. When it processes the batch, it reports the same count, and every order's customer name comes from the customer map. |
| TransformStage.BothStagesSkipReadme | data-pipeline/lambda_functions/transform_data/transform_data.py:68-69 | `readme.txt` is skipped by both stages with no effect. |

## Left out

- S3 and DynamoDB are a pure world: reads are map lookups, a copy is a map update plus a log entry, and `put_item` is a map update keyed by `record_id`. Partial failures inside the write loop are not modelled, because the model treats each `put_item` as always succeeding.
- The table is keyed by `record_id`, which is the table's hash key as created in data-pipeline/deploy_pipeline.py:66. A `put_item` therefore replaces the whole item under its key. DynamoDB's rejection of an empty-string key value, which would raise in the middle of the loop, is not modelled.
- A reference file landing in a bucket whose name lacks "input" is copied onto its own location when its key has no directory. S3's refusal of such a copy is not modelled; the model records the copy and leaves the body unchanged.
- Concurrent invocations and the orchestrator's retries are not modelled. Each run is a single, sequential invocation.
- Bodies are already-decoded strings. UTF-8 decoding and its errors are not modelled.
- JSON and CSV decoding (`json.loads`, `csv.DictReader`) are oracle functions. A line that does not decode is `None`, as for `JSONDecodeError`.
- Records are maps from string to string. JSON lines that decode to non-objects, and non-string values such as a `null` `customer_id` or a number, are outside the model. So is a CSV short row whose missing cells hold `None`.
- A failed lookup is modelled as a generic error, not as the exact Python exception. A `KeyError` in the wrapped event payload becomes `MalformedEvent`. A reference row without its key column, and in the transform stage a customer without `name`, becomes `MalformedReference`. Other failures (a `TypeError` on a `detail` that is not a mapping, an error raised by `json.loads` on customers.json) are not distinguished.
- The `print` logging, the `context` argument and the unused `os` import are not modelled, because they do not affect results.
- Validation error messages are not kept as text. Each becomes a `Defect` value, and the raised message carries only the filename and the count.
- The deployment, cleanup and notification scripts and the orchestration between the stages are not part of this model. The transform stage is modelled on its own; that it is never reached after a failed validation is a property of the orchestrator.
- The validation checks only that `customer_id` and `product_id` are present. An empty-string id counts as present and is then looked up in the reference sets. The model follows the code: it never checks an id for being the empty string.
- Parsing.ParseBatch: states only a length bound. The full content of the parse is in Parsing.OrdersAreAcceptedLinesInOrder.
