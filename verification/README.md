# spanfall trace store: model and proofs

spanfall receives OpenTelemetry spans over OTLP, keeps them in memory grouped by trace, and serves
them to a viewer. This project models the part of it that has state to get wrong: the columnar
trace, the capped interners, the store with its eviction sweep and generations, the single writer
and the handlers that feed it, and the two read routes (filter and trace payload) that must agree
with what is stored. Each piece is tied to a plain description of what it should hold, and the
promises that span operations are proved for every input, every run and every interleaving.

## How it is built

| file | what it holds |
|---|---|
| `Types.dfy`, `Sums.dfy`, `Numerals.dfy` | ids, attribute values, decoded spans, 32-bit truncation; counting; decimal integers as Rust reads and writes them |
| `Interner.dfy` | the interner class and the string table it refines |
| `Rows.dfy`, `Csr.dfy`, `Links.dfy`, `Trace.dfy` | a trace as plain rows; attribute offsets and splicing; parent links and waiting children; the trace class, whose every column is a function of its rows |
| `Walks.dfy` | following parent links |
| `StoreModel.dfy`, `StoreRuns.dfy`, `WrapAround.dfy` | the store as a value, its runs as event sequences, what every run keeps, and where a 32-bit generation stops protecting references |
| `Bytes.dfy` | what the memory budget measures |
| `Sweeps.dfy`, `Deferred.dfy` | the eviction sweep: what it achieves, and why one sweep per batch is enough |
| `Arrivals.dfy`, `Order.dfy`, `OrderAtCap.dfy` | what the store holds after a log of arrivals; what a reader sees after any run, and that interleaving is invisible; exactly when a full interner shows |
| `Batches.dfy`, `Retry.dfy` | a batch as the writer applies it; retry idempotence |
| `Store.dfy`, `Writer.dfy` | the mutable store and the writer loop, refining the value model |
| `Convert.dfy`, `Receiver.dfy`, `Pipeline.dfy` | request conversion, receiver counts and rejects, and the ingest protocol as a transition system |
| `Scanner.dfy`, `Query.dfy`, `Filter.dfy` | the query scanner, the term parser and rendering, the predicate scan |
| `Payload.dfy`, `Api.dfy` | the columnar payload; the two read routes on a store |

A trace's ghost field `rows` lists its spans in slot order; `Trace.Valid` says that the index, the
links, the waiting table, the dense attribute arrays and the offsets are the ones those rows
determine. The store's value (`StoreState`) maps trace ids to rows, generation and last activity. A
run is a sequence of events (a span arrives, malformed spans are counted, the oldest trace is
evicted); an eviction event carries the id chosen, because a tie for the oldest is broken by hash
order. Time is an arbitrary number attached to each arrival and is assumed ordered only where a
statement says so. The pipeline is a transition system whose steps are the handlers' and the
writer's atomic actions.

## Where code and documents differ

The model follows the code.

- docs/prd.md says duplicate spans are dropped and counted as rejects; the code overwrites them in place
  and counts them. It does not overwrite the parent link, so a span keeps the parent its first copy
  declared and takes every other field from the last.
- The generation counter is a `u32` that continues past an eviction by adding one. Reads of stale
  references are safe up to 2^32 - 1 evictions of the same trace between taking and following the
  reference, not beyond (`WrapAround.GenerationsWrap`).
- The grammar in section 6 of docs/specs/01-m0-store-ingest.md admits any quoted string. A quoted value that ends in a backslash
  is never closed, an empty quoted string is no term, and `>` or `<` before a value that begins with
  `=` is read as `>=` or `<=`; `Query.RoundTripIffReadable` says these are the only exceptions.
- An empty pair of quotes followed by whitespace marks the next token as quoted. So queries compose
  exactly when the first one leaves the scanner at rest (`Scanner.ScanningComposes`).
- A quote that opens at the very end of a query has no text behind it, so it is neither a term nor
  reported as dropped (`Scanner.OnlyLastUnterminated`).
- A term on a key that was never interned matches nothing, not even with `!=`. That includes a key
  that spans did carry but a full interner refused.
- Offsets are `u32` and cast without a check. A trace reads back its attributes exactly while it holds
  fewer than 2^32 of them (`Csr.SlicesExactIffRoom`); the first span to cross that length, unless
  it holds as many itself, cannot be read without a panic (`Csr.SlicesInsideIffRoom`). The payload's
  string indices are exact up to 2^32 strings (`Payloads.GetTrace`).
- Arrival order is invisible only to spans whose keys and service came while the interners had room;
  `OrderAtCap.ShownIffEarly` says exactly which spans those are.

## Model

| member | source | states |
|---|---|---|
| Interners.Interner.constructor | src/store/interner.rs:17-24 | a new interner holds nothing; it is usable for any cap that fits 32-bit ids |
| Interners.Interner.Intern | src/store/interner.rs:29-42 | the table grows by the string, or refuses and counts it when full; the answer is the string's id in the new table |
| Interners.Interner.Get | src/store/interner.rs:44-46 | the string at an id is the one whose id it is |
| Interners.Interner.Lookup | src/store/interner.rs:51-53 | a read-only lookup answers with the id, or nothing for a string never interned |
| Interners.IdStable | src/store/interner.rs:29-42 | an id once given keeps its meaning and a string once refused stays refused, whatever is interned later |
| Interners.EncodeStable | src/store/trace.rs:172-175 | attributes encoded once encode the same ever after |
| Interners.DroppedAreCounted | src/store/trace.rs:172-175 | every attribute of a span is either kept or counted as a refusal |
| Interners.AdmitSettledKeys | src/store/interner.rs:29-42 | interning the same keys again changes no entry, full or not |
| Traces.Trace.constructor | src/store/trace.rs:67-88 | a new trace is empty, valid, at generation zero |
| Traces.Trace.Insert | src/store/trace.rs:163-222 | a new id takes the next slot and a known id is overwritten in its slot keeping its first parent; all columns, links, index and waiting table follow, for every trace on which the splice does not panic; the dense arrays and offsets follow too unless the replaced slice was truncated, and then the splice lands where the stored offsets point |
| Traces.Trace.ReadsBackIffValid | src/store/trace.rs:147-157 | every slot reads back its own keys and values if and only if the trace holds fewer than 2^32 attributes |
| Traces.Trace.InternAttributes | src/store/trace.rs:172-175 | the attributes kept are those whose key the interner holds, in order, with their ids |
| Traces.Trace.Push | src/store/trace.rs:182-221 | appends the row and restores every column and index |
| Traces.Trace.LinkAndPatch | src/store/trace.rs:192-219 | resolves the new span's parent or queues it, indexes it, and adopts exactly the children that waited for it, itself included |
| Traces.Trace.PatchChildren | src/store/trace.rs:214-219 | exactly the listed slots point at the parent and lose the orphan flag |
| Traces.Trace.PushAttributes | src/store/trace.rs:205-209 | the dense arrays and offsets of the rows with the new one appended |
| Traces.Trace.OverwriteAt | src/store/trace.rs:224-251 | replaces the row but for its id and parent; no link changes, and no other span's slice or slot while the slice being replaced ends below 2^32 |
| Traces.Trace.SpliceAttributes | src/store/trace.rs:239-250 | the slice between the two stored offsets is replaced and later offsets shift; they are then those of the overwritten rows, while the slice ends below 2^32 |
| Traces.Trace.ShiftOffsets | src/store/trace.rs:247-250 | every offset from the given one on moves by the signed difference, truncated to 32 bits; the others stay |
| Traces.Trace.AttributeKeys | src/store/trace.rs:153-157 | the slice between two offsets is the span's own keys |
| Traces.Trace.Attributes | src/store/trace.rs:147-151 | the slice between two offsets is the span's own values |
| Csr.SliceIsRow | src/store/trace.rs:147-157 | offsets are ordered and delimit exactly one span's attributes |
| Csr.SpliceFlat | src/store/trace.rs:244-245 | replacing one row is a splice of the dense array that leaves every other span's attributes alone |
| Csr.SpliceShifts | src/store/trace.rs:247-250 | the signed shift is the change in length and never leaves the range of the new arrays |
| Csr.ShiftKeepsOffsets | src/store/trace.rs:248-250 | truncating before or after the shift gives the same offsets |
| Csr.OffsetsExact | src/store/trace.rs:147-157 | a span that ends below 2^32 has exact offsets, and its slice is its own, whatever the trace holds after it |
| Csr.SlicesExactIffRoom | src/store/trace.rs:209-209 | every span's slice is its own if and only if the trace holds fewer than 2^32 attributes |
| Csr.SlicesInsideIffRoom | src/store/trace.rs:147-157 | with spans of fewer than 2^32 attributes each, every slice can be taken without a panic if and only if the trace holds fewer than 2^32 |
| Links.PendingIsExact | src/store/trace.rs:192-219 | a slot waits under an id exactly when it is an orphan missing that parent, once, and no present id has waiters |
| Links.LinksAppend | src/store/trace.rs:192-219 | patching the waiters restores both link columns after any arrival, in any order |
| Links.PendingAppend | src/store/trace.rs:197-214 | announcing a missing parent and removing the new id leaves the exact waiting table |
| Links.OverwriteKeepsLinks | src/store/trace.rs:224-237 | an overwrite changes no link, no index entry and no waiter |
| Walks.WalksEndIffAcyclic | src/store/trace.rs:192-219 | parent walks end in fewer steps than there are spans, from every slot, if and only if the first-declared parents form no cycle among the spans present |
| Walks.WalkMirrorsAncestors | src/store/trace.rs:192-219 | walking slots follows exactly the declared parents that are present |
| StoreModel.ConsistentRun | src/store/mod.rs:97-165 | every run keeps ids distinct per trace, tables sound, resident and evicted ids disjoint and every interned id in range |
| StoreRuns.GenerationSafety | src/store/mod.rs:107-118 | over any run, generations agree exactly when the evictions in between are a multiple of 2^32, and below 2^32 agreeing generations mean every slot still holds the same span |
| StoreRuns.EvictionConservation | src/store/mod.rs:107-163 | in every reachable state evictions are late arrivals plus remembered ids, resident and remembered ids are disjoint, and each generation counts its id's evictions modulo 2^32 |
| StoreRuns.SpanAccounting | src/store/mod.rs:120-163 | every arrival is a duplicate, resident, or left with an evicted trace; malformed spans are all counted |
| StoreRuns.InternedIdsAreStable | src/store/mod.rs:105-121 | across any run each interner stays within its cap without repeats, ids keep their strings, and no resident id dangles |
| StoreRuns.RefusedKeyStaysRefused | src/store/interner.rs:33-36 | a key refused on arrival is refused at every later moment |
| StoreRuns.CapHitsAreDroppedAttributes | src/store/mod.rs:129 | over any run the cap-hit counter is exactly the number of attributes dropped on arrival |
| WrapAround.GenerationsWrap | src/store/mod.rs:110-116 | a run with 2^32 evictions after which the generation agrees and the slot holds another span |
| WrapAround.ReferencesSafeIffBelowWrap | src/store/mod.rs:107-118 | a bound on the evictions between taking a reference and following it makes agreeing generations safe in every run if and only if the bound is below 2^32 |
| Sweeps.SweepIsOptimal | src/store/mod.rs:151-165 | nothing evicted is newer than anything kept, putting the last one back would break the budget, the result fits or is one trace, and no most-recent run that fits loses a trace |
| Sweeps.SurvivorsAreLongestRun | src/store/mod.rs:148-165 | with distinct activities the survivors are themselves a most-recent run, and exactly the newest trace when even it does not fit |
| Sweeps.NewestSurvives | src/store/mod.rs:148-150 | a trace more recent than every other is never evicted |
| Sweeps.SweepExists | src/store/mod.rs:151-165 | from every state the loop ends |
| Sweeps.SweepIsUnique | src/store/mod.rs:153-157 | with distinct activities the loop can only evict one sequence of traces |
| Deferred.DeferredEqualsEager | src/store/mod.rs:87-102 | for a batch of new spans in one newest trace, one sweep at the end leaves the same store as a sweep after each span |
| Deferred.EagerSweepsExist | src/store/mod.rs:87-91 | sweeping after every span is always possible, so the comparison is never empty |
| Deferred.EvictionsSlide | src/store/mod.rs:93-102 | evictions due before a new span are due after it, and commute with it |
| Arrivals.SlotsAfter | src/store/trace.rs:177-222 | after any log of arrivals each slot holds the last copy of its span in the final tables under its first parent, or what it held before |
| Arrivals.InsertedSettles | src/store/mod.rs:105-121 | after any log of arrivals every key and service in it is decided for good |
| Order.MirrorsRun | src/store/mod.rs:97-165 | after any run of arrivals and evictions, a trace holds exactly the spans that arrived since its last eviction, each row the last copy in the final tables under the parent its first copy declared |
| Order.ShownIffHeld | src/store/trace.rs:163-222 | a span is shown as its copies say if and only if the interners hold its last copy's keys and service |
| Order.RunShowsSince | src/store/mod.rs:97-165 | after any run that fits the interners the store shows, for every span, exactly the last copy's fields and attributes, the first copy's parent if it arrived and the orphan flag otherwise, counting copies since the trace's last eviction |
| Order.OrderIndependence | src/store/trace.rs:163-222 | any two runs that deliver the same copies of each span in the same order since the trace's last eviction show the same, however arrivals interleave and whatever else is evicted or comes back |
| Order.PermutationIndependence | src/store/trace.rs:163-222 | spans with distinct ids may arrive in any order at any times, in any two such runs |
| OrderAtCap.HeldIffEarly | src/store/interner.rs:29-42 | an interner ends up holding exactly the strings that came while fewer than its cap of different ones had been seen |
| OrderAtCap.ShownIffEarly | src/store/trace.rs:172-175 | for every run, a span is shown as its copies since the last eviction say if and only if every key and the service of its last copy first came while the interner had room |
| OrderAtCap.ShowsLogIffFits | src/store/interner.rs:33-36 | for distinct spans in a new store, all are shown as they arrived if and only if their keys and services fit the interners |
| OrderAtCap.OrderMattersAtTheCap | src/store/interner.rs:33-36 | in any consistent store with one place left in the key interner, two spans of a new trace with a new key each leave different stores in the two orders |
| OrderAtCap.OrderMattersAtEveryCap | src/store/mod.rs:42-51 | whatever the cap, a new store can be brought to that point: three spans, two orders, two results |
| Batches.ReplayIsRun | src/store/writer.rs:31-48 | applying batches is a run of the store, so every run property holds of the writer |
| Retry.RetryIsIdempotent | src/store/writer.rs:38-43 | if a batch's traces survive its sweep, applying it again evicts nothing, changes no row, link, attribute or generation, and adds exactly its length to the duplicates, even with full interners |
| Retry.EchoAll | src/store/mod.rs:97-132 | resending spans that are all present and decided opens no trace or slot, moves no link, generation or interned string, and counts each as a duplicate |
| Stores.Store.constructor | src/store/mod.rs:42-51 | a new store is the empty value with both interners capped at 100000 |
| Stores.Store.InsertSpanNoEvict | src/store/mod.rs:97-132 | the new value is the arrival event applied to the old one, while the trace it leaves can be read; duplicate and resurrected are reported exactly |
| Stores.Store.OpenTrace | src/store/mod.rs:109-118 | a missing trace is created one generation past the evicted one, which is forgotten |
| Stores.Store.InsertInto | src/store/mod.rs:120-121 | exactly one trace changes, by the new row |
| Bytes.TraceBytes | src/store/mod.rs:134-142 | a trace's size is 64 bytes a span, 24 bytes a stored attribute and the bytes of its names |
| Bytes.Utf8LenIsEncodedLength | src/store/mod.rs:138-138 | the length of a name is the number of bytes of its UTF-8 encoding |
| Bytes.Utf8ReadsBack | src/store/mod.rs:138-138 | the encoding of a character, by section 3 of RFC 3629, is bytes, reads back, and is as long as the length in use says |
| Bytes.StoreBytes | src/store/mod.rs:144-146 | the quantity compared with the budget is the same sum over all resident spans, attributes and names |
| Stores.Store.ApproxBytes | src/store/mod.rs:134-142 | the loop returns 64 times the spans plus 24 times the stored attributes plus the bytes of the names |
| Stores.Store.TotalApproxBytes | src/store/mod.rs:144-146 | the sum over all resident traces, in whatever order they are visited |
| Stores.Store.OldestTrace | src/store/mod.rs:153-157 | a trace no newer than any other, any one of them on a tie |
| Stores.Store.EvictOverBudget | src/store/mod.rs:151-165 | the loop ends and performs a complete legal sweep |
| Stores.Store.Evict | src/store/mod.rs:160-163 | the trace leaves, its generation is remembered, the counter moves |
| Stores.Store.InsertSpan | src/store/mod.rs:87-91 | an arrival followed by a complete sweep |
| Writers.Writer.ApplyBatch | src/store/writer.rs:38-44 | every span lands, malformed spans are counted, one complete sweep follows |
| Writers.Writer.Run | src/store/writer.rs:31-48 | the store is the replay of the batches received in order, and the sequence number counts them, as long as no trace ever reaches 2^32 attributes |
| Writers.RoomIsEnough | src/store/writer.rs:38-44 | none does if every trace has room for all the attributes the batches offer |
| Converting.Convert | src/ingest/convert.rs:46-118 | the nested loops compute the span-by-span conversion of the flattened request |
| Converting.ConversionLosesNothing | src/ingest/convert.rs:51-118 | counting from the request alone: it is rejected exactly when it has no span; otherwise the batch has as many spans as have well-sized ids, the rest are counted as malformed, and partial means some were dropped |
| Converting.EverySpanLands | src/ingest/convert.rs:51-104 | the span at every resource, scope and position, if both its ids are well sized, stands in the batch after exactly the well-sized spans before it, with its own fields, its resource's service, and an empty message and code 0 when it has no status |
| Converting.ScalarsAreKept | src/ingest/convert.rs:148-159 | an attribute with a string, integer, double or boolean value is kept in its place under its key; one of any other kind is dropped |
| Converting.ConvertRoundTrip | src/ingest/convert.rs:46-159 | exporting spans with well-sized ids and converting the request gives back exactly those spans in order |
| Converting.ServiceIsFirstNamed | src/ingest/convert.rs:120-131 | the service is the first `service.name` attribute with a string value, passing over others, and absent exactly when there is none |
| Receiver.ReceiverState.PushReject | src/ingest/receiver_state.rs:51-57 | the record joins the history, and the ring is its end: all of it, or the last hundred, oldest first |
| Receiver.RecentIsSuffix | src/ingest/receiver_state.rs:51-57 | the ring is a suffix of the history, of its length or of length one hundred, whichever is less |
| Receiver.ReceiverState.RecordArrival | src/ingest/receiver_state.rs:34-42 | only the given transport's count moves, by the given number |
| Pipeline.PipelineSafety | src/ingest/handler.rs:45-67 | after every interleaving: batches sent are batches applied, then in hand, then queued, in order; each sender sent once; the store is the replay of the applied ones; the queue stays within capacity; arrivals match recorded senders |
| Pipeline.FailedRequestsContributeNothing | src/ingest/handler.rs:46-66 | a request that was rejected, panicked, timed out or found the writer gone is not among the senders |
| Pipeline.AnswersAreExplained | src/ingest/handler.rs:45-67 | over every interleaving, a handler is told of backpressure exactly when it timed out, that the writer is gone exactly when it found it gone, which takes a stopped writer, success exactly when it sent and recorded, a reject exactly when its request converts to that reject, and a panic exactly when conversion panicked |
| Pipeline.RejectsAreRecorded | src/ingest/handler.rs:46-71 | each empty or panicking request leaves its record, in order, and the latest hundred are kept |
| Pipeline.ArrivalsAreConserved | src/ingest/handler.rs:58-63 | per transport, recorded arrivals plus sent-but-unrecorded spans are all spans sent |
| Pipeline.ReadersSeeTheirSequence | src/store/writer.rs:38-46 | a reader that sees sequence N and then reads the store sees at least N batches, and never fewer than before |
| Pipeline.ReachableStores | src/store/writer.rs:31-48 | every store a reader can see is the end of a run, consistent, with its eviction books balanced |
| Pipeline.BudgetHolds | src/store/writer.rs:38-44 | over every interleaving, what a reader can see fits the memory budget, in spans, attributes and name bytes, or is a single trace |
| Pipeline.EndToEndAccounting | src/store/writer.rs:32-46 | spans in all applied requests are malformed plus duplicate plus resident plus departed, in every reachable state |
| Pipeline.ReadersSeeSince | src/store/writer.rs:31-48 | over every interleaving that fits the interners, a reader sees of each span what the copies applied since its trace was last evicted say |
| Pipeline.SinceIsDelivered | src/store/writer.rs:38-43 | what a trace is made of is the spans of every applied batch in the order listed, batches in the order applied, since the last sweep that evicted it |
| Pipeline.CopiesAreDelivered | src/store/writer.rs:38-43 | the copies of a span behind a reader's view are the copies those batches delivered, in order |
| Pipeline.InterleavingsAgree | src/ingest/handler.rs:45-67 | two interleavings that apply the same copies of a trace's spans show the same trace |
| Pipeline.EverySentBatchCanLand | src/store/writer.rs:31-48 | from every reachable state whose writer has not stopped, the writer alone can empty the queue, and then the batches applied are exactly the batches sent, in order, all counted by the sequence number |
| Pipeline.BlockedHandlerCanSend | src/ingest/handler.rs:58-66 | a handler waiting on the full channel can send once the writer has drained it |
| Scanner.Tokenize | src/api/filter.rs:194-223 | the character loop computes the scanner's tokens |
| Scanner.ScanningComposes | src/api/filter.rs:194-223 | queries joined by whitespace scan side by side, whatever the second is, if and only if the first leaves the scanner outside quotes with no empty quote pending |
| Scanner.OnlyLastUnterminated | src/api/filter.rs:219-221 | tokens are never empty, and only the last can be unterminated, exactly when the query ends inside quotes with text pending; a lone quote at the end leaves no token |
| Scanner.FeedQuoted | src/api/filter.rs:202-209 | a quoted, escaped value reads back exactly, unless it ends in a backslash, which swallows the closing quote |
| Scanner.WordsScan | src/api/filter.rs:194-223 | words written in bare and quoted stretches, with any mix of the twenty-five separators around them, scan to exactly those words, each marked quoted exactly when it begins with a quote |
| Scanner.OpenQuoteScans | src/api/filter.rs:202-221 | a quote that is never closed makes the rest of the query one unterminated token |
| Scanner.SeparatorsAreWhitespace | src/api/filter.rs:210-210 | the separators are the code points with the White_Space property |
| Query.ParseQuery | src/api/filter.rs:273-288 | terms and dropped texts are those of the tokens, in order |
| Query.NothingVanishes | src/api/filter.rs:277-286 | every token becomes a term or is reported as dropped, in its place: its own term after those of earlier tokens, or its own text after theirs, and nothing else is listed |
| Query.QueriesCompose | src/api/filter.rs:273-288 | terms and dropped texts of joined queries concatenate |
| Query.KeyOpValue | src/api/filter.rs:226-271 | a key, operator and value are told apart, except that an equals sign after `>` or `<` is taken into the operator |
| Query.KeyAlphabet | src/api/filter.rs:181-187 | a key begins with an ASCII letter or underscore and goes on with letters, digits, underscores and dots |
| Query.OperatorsRead | src/api/filter.rs:60-62 | after an attribute key each of the six operators, as written, reads as itself |
| Query.ServiceReads | src/api/filter.rs:256-268 | service terms take `=` and `!=` and are dropped with any other operator |
| Query.StatusReads | src/api/filter.rs:258-268 | `unset`, `ok` and `error` are codes 0, 1 and 2; any other status, or any ordering, is dropped |
| Query.DurationReads | src/api/filter.rs:264-267 | duration terms take every operator and are dropped exactly when the duration cannot be read |
| Query.SubstringExactly | src/api/filter.rs:227-253 | a closed token is a substring term if and only if it begins with a quote, does not begin like a key, is just a key, or is a key before a mark that is no operator; its needle is the whole token |
| Query.BarewordIsSubstring | src/api/filter.rs:231-241 | an unquoted word that is a key, or does not begin like one, is searched for as it stands |
| Query.DroppedExactly | src/api/filter.rs:226-286 | a token is dropped if and only if its quote was never closed, or it does not begin with a quote and reads as a key with an unknown operator or with a value a reserved key does not accept |
| Query.DurationUnits | src/api/filter.rs:166-179 | each unit multiplies by its nanoseconds and is refused exactly on 64-bit overflow |
| Query.DurationExactly | src/api/filter.rs:166-179 | a text is a duration of so many nanoseconds if and only if it is a number followed by `s`, `ms`, `us`, `ns` or nothing, and the product fits 64 bits |
| Query.QueryRoundTrip | src/api/filter.rs:194-288 | every list of readable terms, rendered and joined by any whitespace, parses back to itself with nothing dropped |
| Query.RoundTripIffReadable | src/api/filter.rs:194-288 | an expressible term reads back from its rendering if and only if its value does not end in a backslash, is not an empty substring, and does not begin with an equals sign after `>` or `<` |
| Numerals.U64RoundTrip | src/api/filter.rs:178 | every 64-bit unsigned number reads back from its decimal text |
| Numerals.U64Exactly | src/api/filter.rs:178 | a text reads as an unsigned 64-bit number if and only if it is its decimal digits after any zeros, with or without a plus sign |
| Numerals.I64Exactly | src/api/filter.rs:137-137 | signed numbers likewise, a minus sign negating |
| Numerals.DecimalAppends | src/api/filter.rs:160-160 | decimal text is positional, most significant digit first |
| Filter.MatchAgrees | src/api/filter.rs:74-119 | one term on one span: matching interned ids and slices is matching string keys and service names on the plain span |
| Filter.DurationTermsMean | src/api/filter.rs:90-95 | a duration term holds exactly when end stands to start plus the wanted nanoseconds as its operator says, and never for a span that ends before it starts |
| Filter.StatusAndServiceTermsMean | src/api/filter.rs:76-89 | status and service terms know equality alone, and a span without a service differs from every name |
| Filter.AttributeTermsMean | src/api/filter.rs:96-112 | an attribute term holds exactly when some value under its key matches, or there is none and the operator is `!=` |
| Filter.SubstringTermsMean | src/api/filter.rs:113-116 | a substring term holds exactly when the name, or some value as printed, has the text in it |
| Filter.ContainsExactly | src/api/filter.rs:157-164 | containing a text is being that text with something or nothing on either side |
| Filter.EqualityMeans | src/api/filter.rs:132-142 | strings equal themselves, booleans `true` and `false`, integers the texts that spell them; `!=` is the opposite |
| Filter.OrderingMeans | src/api/filter.rs:143-153 | only integers and doubles satisfy an ordering, only against a number, with the value on the left |
| Filter.PlainTermsMean | src/api/filter.rs:73-119 | the same meanings over plain spans, in which the filter's answer is stated |
| Filter.PlainAttributesMean | src/api/filter.rs:96-112 | over plain spans an attribute term needs a known key, and a matching value under it or none and `!=` |
| Filter.ScanTrace | src/api/filter.rs:43-44 | the slots of the spans that match every term, ascending, without repeats |
| Filter.GetFilter | src/api/filter.rs:25-48 | parsing, resolving and scanning yields exactly the spans a plain filter would keep, and the dropped terms |
| Filter.QueriesIntersect | src/api/filter.rs:43-44 | joined queries keep exactly the spans that pass both |
| Filter.IntegerFoundByItsText | src/api/filter.rs:132-142 | an integer attribute equals its own decimal text and no other integer's |
| Payloads.StringTable.Intern | src/api/traces.rs:76-86 | the table grows by the string if it is new and by nothing otherwise, never repeats one, and answers with the string's place cut to 32 bits |
| Payloads.GetTrace | src/api/traces.rs:99-136 | nine columns with one entry per span, six of them the trace's own, and a table of exactly the trace's names, messages and services, once each; every index is inside it and every span rebuilt exactly if and only if there are at most 2^32 of them |
| Api.FilterTrace | src/api/filter.rs:34-47 | nothing for an unknown trace; otherwise exactly the plain filter over the stored spans |
| Api.ShowTrace | src/api/traces.rs:93-139 | nothing for an unknown trace; otherwise a payload that rebuilds the stored spans, exactly when their strings fit 32-bit indices |

## Left out

- Traces.Trace.Insert: overwriting a span whose stored offsets were truncated is modelled for that call; what later calls make of the arrays it leaves is not.
- Stores.Store.InsertSpanNoEvict: asks that the trace it leaves hold fewer than 2^32 attributes, which the source assumes without checking; beyond that the sweep's byte count panics, by `Csr.SlicesInsideIffRoom`.
- Stores.Store.InsertSpan: asks the same.
- Writers.Writer.ApplyBatch: asks the same after every span of the batch.
- Writers.Writer.Run: asks the same of every batch, and takes the batches and clock readings as arguments instead of a channel.
- Api.FilterTrace: asks for a consistent store, which `StoreModel.ConsistentRun` and `Pipeline.ReachableStores` prove of every store that can be reached.
- Api.ShowTrace: asks for the same.
- Filter.GetFilter: asks that the trace's interned ids be in range, which holds in every consistent store.
- Payloads.GetTrace: asks that service ids be in range, as they are in every consistent store.
- Interners.Interner.constructor: promises a valid interner only for caps up to 2^32; the store uses 100000.
- Pipeline.PipelineSafety: a writer that panics halfway through a batch is not modelled; a writer that stops between batches is.
- Filter.MatchAgrees: reading, comparing and printing doubles are parameters, so IEEE rounding and NaN are not modelled.
- Filter.OrderingMeans: asks that comparison of doubles agree with some real values, which leaves NaN out.
- Counters, sequence numbers and byte totals are unbounded; their 64-bit overflow is not modelled.
- Hex ids in URLs, HTTP and gRPC status mapping, protocol sniffing, timers and the event stream: wire plumbing over library code.
- Protobuf and JSON decoding: the model starts at the decoded request, and a panic in conversion is one more failed outcome.
- Trace summaries, `duration_nanos`, the attributes route and the receiver route: they would only add easy members.
- The command line, dump, demo data, client and port-conflict code: no store logic.
- Hash maps are maps and the write lock is an atomic step; their implementation is not modelled.
