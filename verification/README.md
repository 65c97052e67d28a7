# A verified model of the event transform service

The service reads records from topics, runs each one through a pipeline of transforms, and sends what comes
out to other topics. This project models the parts of it that carry real logic and proves what they promise:

- **Conditions** (`Text`, `Scanner`, `ScannerFold`, `Condition`, `ParseLaws`, `Evaluation`, `EvaluationLaws`,
  `Printer`, `PrinterScan`, `RoundTrip`): the scanner that splits text outside quotes and parentheses, the recursive
  parser, what each spelling of a comparison parses to, the short-circuit evaluator, what each operator answers, and
  a printer with minimal parentheses that the parser inverts.
- **Events** (`Event`, `EventHeap`, `Flatten`, `Unflatten`, `UnflattenSorted`, `UnflattenHeap`, `UnflattenExact`,
  `Pipeline`): payload trees and the laws of the path operations; the same operations on shared heap maps, copied on
  write; flattening and unflattening, in place and on trees, exactly when keys clash and when each undoes the other;
  pipelines, `filter.route` and `filter.split`.
- **Caches** (`Recency`, `LinkedList`, `LruCache`, `StatementSpec`, `StatementLaws`, `StatementCache`, `RedisSpec`,
  `RedisPhases`, `RedisClient`): one verified ring list, the LRU cache over a map and that list as a refinement of a
  most-recent-first list, the prepared-statement cache, and read-through caching over a store, by whole calls and by
  the phases of calls that overlap.
- **Windowed aggregation** (`Aggregate`, `CountSpec`, `Count`, `WindowSpec`, `WindowLaws`, `WindowLimit`,
  `WindowTimers`, `WindowResults`, `Window`, `SharedNames`, `ResultLaws`): incremental state against batch folds, with
  timers and locks as interleaved steps; exactly when a window keeps its limit, keeps a timer, and keeps its aggregates
  apart; what results show; and the agreement of the two transforms.
- **HTTP resilience** (`Arithmetic`, `Breaker`, `Retrier`, `HttpClient`): the circuit breaker under
  interleaving, the retrier, and their composition with the cache.
- **Dispatch** (`Dispatch`, `DispatchLaws`): the record handler's sends, failures and keys, and where each event goes.

Code that updates state in place is a class or a method with loops, proved against a function on values
(`...Spec` modules, `Recency`, `Condition.Parse`, `Evaluation.Eval`); what the service promises is then proved
about that function over all inputs or all runs. Locked sections of concurrent code are atomic steps, and runs
are arbitrary sequences of them; a step that is not enabled changes nothing. Clocks, randomness, iteration
orders, the network, the database and upstream servers are parameters. Instants and durations are integers
(nanoseconds), floats are reals.

Where the code departs from what one would expect, the model follows the code: one lemma shows the departure on an
input, another says for all inputs when it happens.

- Parentheses are stripped without regard to quotes (`RoundTrip.QuotedParenthesisBreaks`): a printed condition
  parses back exactly when the parentheses of every group match, quoted ones counted (`RoundTrip.ParsePrint`).
- Overlapping calls let a window exceed its limit and a late emit close a newer window
  (`WindowResults.OverlappingCallsBreakTheLimit`): exactly when an event arrives at a window that is full already
  (`WindowLimit.LimitHoldsExactly`), and when the window goes to another emit while a call waits
  (`WindowLimit.CallsFindFullExactly`).
- A window may be left without a timer (`WindowTimers.CancelledCallbackForgets`): exactly after Stop or a callback
  whose context is cancelled, when no other timer of its key is left (`WindowTimers.NoWindowForgotten`), and then for
  good (`WindowTimers.ForgottenStays`).
- Aggregations under one output name share their running state, and one named like a fixed field takes its place
  (`SharedNames.ClashingNames`): exactly when the other reads a field, minimum with minimum and maximum with maximum of
  the same field excepted in one transform (`SharedNames.CountFoldsExactly`, `SharedNames.WindowFoldsExactly`).
- A stale caller takes the breaker from Closed to HalfOpen (`Breaker.StaleCallerReopens`): exactly when it takes the
  lock after the last failure has timed out (`Breaker.Transitions`).
- The fast path of the statement cache may return a closed statement (`StatementSpec.FastPathMayReturnClosed`): it is
  open exactly while the query is still cached with it (`StatementSpec.FastPathIsOpenExactly`).
- Flattening and unflattening loses payloads (`UnflattenExact.LossyPayloads`): exactly those with dots in keys that
  flattening opens, a map under an empty top key, or an empty map it opens (`UnflattenExact.RoundTripExactly`).
- A failed write that was applied leaves a stale cache entry (`RedisSpec.FailedWriteLeavesStale`): exactly when it
  changes a cached key (`RedisSpec.StepCoherence`). So does a read that a write overtakes
  (`RedisPhases.OvertakenReadIsCached`): exactly when it caches what the store no longer holds, after the write has
  dropped the key (`RedisPhases.StepCoherence`, `RedisPhases.StaleFillsWereOvertaken`).
- The retrier also pauses after its last attempt (`Retrier.LastAttemptPauses`): exactly when that attempt's outcome is
  one that is retried (`Retrier.Do`).

## Model

| member | source | states |
|---|---|---|
| `Scanner.IsEscaped` | internal/condition/condition.go:390-399 | the backward loop answers whether the run of backslashes before the position is odd |
| `Scanner.EscapedIsParity` | internal/condition/condition.go:390-399 | escape by parity of the backslash run, characterised over the prefix: escaped exactly when the character before is an unescaped backslash |
| `Scanner.QuoteState.Update` | internal/condition/condition.go:402-416 | the in-place quote state after an index is the declarative quote state of the prefix, and the result is whether the index is quoted |
| `Scanner.QuoteTransitions` | internal/condition/condition.go:402-416 | an unescaped quote opens when none is open and closes only its own kind; nothing else changes the open quote |
| `Scanner.DepthIsLargestExcess` | internal/condition/condition.go:336-345 | the depth floored at zero is the largest excess of opening over closing parentheses of any stretch ending there |
| `Scanner.SplitOutsideParens` | internal/condition/condition.go:323-365 | the index loop returns the parts defined over the declarative scan state |
| `Scanner.SplitCutsExactly` | internal/condition/condition.go:323-365 | the parts are exactly the non-empty trimmed pieces between the leftmost non-overlapping separators outside quotes and parentheses |
| `Scanner.LeftmostCutsExist` | internal/condition/condition.go:323-365 | for every text and separator such leftmost cuts exist |
| `Scanner.PartsAreShorter` | internal/condition/condition.go:26-29 | every part is trimmed and non-empty, and strictly shorter than the text when there are several, which is why parsing terminates |
| `Scanner.FindOperatorOutsideQuotes` | internal/condition/condition.go:367-388 | the loop returns the first position outside quotes at which the spaced operator stands, or -1 |
| `Scanner.FindFromIsFirst` | internal/condition/condition.go:378-385 | a found position is a match outside quotes and no earlier one is; not found means there is none |
| `Scanner.StripOuterParens` | internal/condition/condition.go:295-321 | the counting loop strips exactly when the first and last parenthesis are one pair |
| `Condition.ParseExpression` | internal/condition/condition.go:19-52 | the parser's loops compute the specification parser: OR below AND below unary, errors passed on in order |
| `Condition.ParseParts` | internal/condition/condition.go:27-34 | the loop over the parts yields all conditions or the first error |
| `Condition.ParseUnaryExpression` | internal/condition/condition.go:54-78 | NOT, one pair of outer parentheses, or a comparison, with the error for a missing operand |
| `Condition.ParseComparisonCondition` | internal/condition/condition.go:205-275 | the two operator tables are tried in their order and the first operator found decides, with its errors |
| `Condition.MatchOperators` | internal/condition/condition.go:226-272 | the loops over the tables compute the recursive search |
| `ParseLaws.BareValue` | internal/condition/condition.go:205-284 | each of the thirteen spellings between a plain field name and a bare word, a number say, with however many spaces around it, parses to its operator with that word as the value; only a pattern that does not compile is refused |
| `ParseLaws.QuotedValue` | internal/condition/condition.go:205-284 | so does a value in double or single quotes, which is what stands between them, spaces, separators and escapes included |
| `ParseLaws.NoCondition` | internal/condition/condition.go:19-78 | a blank text is refused as empty, and a single word, `NOT` included, as no condition |
| `Evaluation.Evaluate` | internal/condition/condition.go:85-130 | the evaluator's loops compute the result and error of the recursive evaluation |
| `Evaluation.EvaluateUntil` | internal/condition/condition.go:86-95 | the short-circuit loop stops at the first error or deciding operand |
| `Evaluation.EvaluateComparison` | internal/condition/condition.go:140-203 | the switch over the operators, written out, gives the specified result and error: missing fields, number parsing, regular expressions, text search and lists |
| `Evaluation.InList` | internal/condition/condition.go:185-199 | the loop over the list finds exactly a non-empty unquoted candidate equal to the field's text |
| `EvaluationLaws.EqualityAndMatch` | internal/condition/condition.go:156-178 | for a field that is there `eq` holds exactly when it prints as the value, `match` exactly when its text matches the pattern, `ne` and `notmatch` exactly otherwise |
| `EvaluationLaws.AbsentField` | internal/condition/condition.go:144-152 | without the field `ne` and `notmatch` hold, and no other operator does; none errs |
| `EvaluationLaws.ComparisonErrs` | internal/condition/condition.go:140-203 | which comparisons err: no field name, a pattern not compiled, operands of an order that are no numbers, an unknown operator |
| `EvaluationLaws.InMeans` | internal/condition/condition.go:185-199 | for entries that are words, bare, in quotes or in escaped quotes, with blanks around them, `in` holds exactly when the field's text is one of the words |
| `EvaluationLaws.NotMeans` | internal/condition/condition.go:121-130 | NOT turns a result around and passes an error on |
| `EvaluationLaws.AndMeans` | internal/condition/condition.go:85-96 | AND holds exactly when all its conditions do, and fails, or errs with an error, exactly when one does after conditions that hold |
| `EvaluationLaws.OrMeans` | internal/condition/condition.go:103-114 | OR fails exactly when all its conditions do, and holds, or errs with an error, exactly when one does after conditions that fail |
| `EvaluationLaws.VisitedIsPrefix` | internal/condition/condition.go:86-113 | of a list of comparisons exactly those up to the deciding one are evaluated |
| `Evaluation.DeMorgan` | internal/condition/condition.go:85-130 | negating an AND or OR equals the OR or AND of the negations: same result, same error, same comparisons evaluated in the same order |
| `Evaluation.Flattening` | internal/condition/condition.go:85-114 | splicing a nested AND into an AND, or OR into an OR, keeps result, error and the comparisons evaluated |
| `Evaluation.ComplementaryOperators` | internal/condition/condition.go:144-178 | `ne` negates `eq` and `notmatch` negates `match` on every event, absent fields included |
| `Evaluation.OrderComplement` | internal/condition/condition.go:144-168 | `gte` negates `lt` exactly when the field is there and no operand is NaN |
| `Evaluation.OrderOperators` | internal/condition/condition.go:161-168 | order comparisons of a present field: an error when an operand does not parse, false for NaN, otherwise exactly one of less, equal and greater |
| `Evaluation.TextOperators` | internal/condition/condition.go:179-184 | `contains`, `startswith` and `endswith` hold exactly when the text is something, the value, something, with the first or last part empty |
| `Evaluation.ParseIsSound` | internal/condition/condition.go:19-78 | parsing yields only well-formed trees: two or more operands, fields present, patterns compiled |
| `Evaluation.ParsedConditionsEvaluate` | internal/condition/condition.go:85-203 | the only error a parsed condition can evaluate to is a non-numeric operand of an order comparison |
| `ScannerFold.SplitHead` | internal/condition/condition.go:323-365 | a piece no cut falls into, then a separator, then a rest splits into that piece and the rest's parts |
| `PrinterScan.PrintQuiet` | internal/condition/condition.go:323-365 | no separator cut falls into a printed condition at inner depth, nor at top level where it needs no parentheses |
| `RoundTrip.PrintedListSplits` | internal/condition/condition.go:25-49 | a printed AND or OR splits at its own separator into exactly its operands |
| `RoundTrip.StripGroup` | internal/condition/condition.go:295-321 | stripping undoes grouping exactly when the parentheses inside match |
| `RoundTrip.ComparisonRoundTrip` | internal/condition/condition.go:205-275 | every printed comparison (field names without spaces, quotes, parentheses and backslashes, and values that double quotes can hold, every double quote in them escaped and the closing one not), operator text, separators and escapes in the value included, parses back to itself exactly when its pattern compiles |
| `RoundTrip.ParsePrint` | internal/condition/condition.go:19-78 | a printed condition, its comparisons as above, parses back to itself if and only if every pattern compiles and every group's parentheses, quoted ones counted, match |
| `RoundTrip.ParseUndoesPrint` | internal/condition/condition.go:19-78 | parse undoes print for every such n-ary tree whose patterns compile and whose values have matched parentheses, in particular none |
| `RoundTrip.QuotedParenthesisBreaks` | internal/condition/condition.go:304-320 | a concrete condition with a quoted parenthesis that does not survive printing and parsing |
| `Event.GetAfterSet` | pkg/event/event.go:106-179 | reading a path after writing it returns the written value |
| `Event.GetBelowSet` | pkg/event/event.go:106-179 | paths below a written one answer from the written value alone |
| `Event.GetAboveSet` | pkg/event/event.go:153-176 | paths above a written one hold maps, made where there was none |
| `Event.SetAfterSet` | pkg/event/event.go:129-179 | the second of two writes to a path wins, and leaves no trace of the first |
| `Event.SetIsIdentity` | pkg/event/event.go:129-179 | writing a value changes nothing exactly when the path holds it already |
| `Event.SetLeavesOthers` | pkg/event/event.go:129-179 | paths neither of which is a prefix of the other do not affect one another |
| `Event.SetsCommute` | pkg/event/event.go:129-179 | writes to such paths commute |
| `Event.GetAfterRemove` | pkg/event/event.go:181-237 | a removed path is absent |
| `Event.RemoveLeavesOthers` | pkg/event/event.go:181-237 | removal leaves unrelated paths as they were |
| `Event.RemoveUndoesSet` | pkg/event/event.go:129-237 | removing what was set restores the tree if and only if the parent map existed and the field was absent |
| `Event.SetUndoesRemove` | pkg/event/event.go:129-237 | writing a removed value back restores the tree |
| `Event.FieldLaws` | pkg/event/event.go:106-237 | the laws for dotted paths on events |
| `Event.EmptyPathAndPayload` | pkg/event/event.go:106-237 | an empty path finds and changes nothing, an absent payload holds nothing, and only the payload is ever changed |
| `EventHeap.SetField` | pkg/event/event.go:129-179 | of the payload only fresh maps are written, one per path segment; the new one is the tree after the write and shares every other map and slice |
| `EventHeap.CopyPath` | pkg/event/event.go:153-176 | the loop leaves a chain of fresh copies along the path, each pending only at the next key |
| `EventHeap.LookUp` | pkg/event/event.go:106-127 | following the path through references finds exactly what the tree holds there |
| `EventHeap.RemoveField` | pkg/event/event.go:181-237 | nothing old is written; the payload itself comes back exactly when there is nothing to remove, else one fresh map per segment |
| `Pipeline.SetFieldOf` | pkg/event/event.go:129-179 | an event with the field set: the event itself for an empty path, else a new one with the written payload and its own copies of headers and metadata key |
| `Pipeline.RemoveFieldOf` | pkg/event/event.go:181-237 | an event with the field removed: the event itself exactly when there is nothing to remove, else a new one with its own copies of headers and metadata key |
| `EventHeap.DeepCopyMap` | pkg/event/event.go:70-86 | the copy stands for the same tree and everything reachable from it is fresh |
| `EventHeap.DeepCopySlice` | pkg/event/event.go:88-104 | the same for slices |
| `Flatten.FlattenMapWithDepth` | internal/transform/field/flatten.go:41-62 | in any iteration order, the result's entries come from leaves and every leaf's key is present; past the depth limit the map is kept whole |
| `Flatten.FlattenMap` | internal/transform/field/flatten.go:37-39 | the same with the limit of 100 |
| `Flatten.FlattenedExactly` | internal/transform/field/flatten.go:37-62 | when no key that flattening opens has a dot and no map sits under an empty top key, the entries are exactly the leaves under their dotted paths, whatever the order |
| `Flatten.FlattenedFields` | internal/transform/field/flatten.go:37-62 | for such payloads the entries under non-empty keys are exactly the non-map values GetField finds down to 101 segments, and the maps at 101; the empty key is there exactly when the payload has it |
| `UnflattenHeap.UnflattenMap` | internal/transform/field/unflatten.go:41-60 | in place, over the sorted keys: the result stands for the tree of all writes, or the first key that clashes is named; only maps of the input's values and new ones are written |
| `UnflattenHeap.SetNested` | internal/transform/field/unflatten.go:62-84 | one write in place, with the conflicts of both branches; maps on the path are written where they are, missing ones made |
| `Unflatten.SortedKeys` | internal/transform/field/unflatten.go:44-48 | the keys come in strictly ascending order, each once |
| `Unflatten.PrecedesMeans` | internal/transform/field/unflatten.go:49 | the order of the keys: a proper prefix first, otherwise the first character that differs decides |
| `Unflatten.OutcomeIs` | internal/transform/field/unflatten.go:50-59 | the outcome is the tree of all writes, or the conflict of the first key whose write is refused after those before it were not |
| `Unflatten.BlockedBy` | internal/transform/field/unflatten.go:62-84 | a write is refused exactly when its path ends at a map or runs through a value that is none |
| `Unflatten.PutIsSet` | internal/transform/field/unflatten.go:62-84 | a write that is not refused is SetField's write |
| `Unflatten.ConflictExactly` | internal/transform/field/unflatten.go:41-84 | for scalar values unflattening fails exactly when one key's path is a proper prefix of another's |
| `UnflattenSorted.SortedConflictExactly` | internal/transform/field/unflatten.go:41-84 | for all values, maps included, and sorted keys: unflattening fails if and only if some key goes on from another, and the value of the longest such other key is no map, holds a map where the key ends, or holds a value that is no map on its way |
| `UnflattenSorted.ConflictNamesFirst` | internal/transform/field/unflatten.go:50-59 | the error names exactly the least key in sorted order that clashes so |
| `Unflatten.SuccessAnswersKeys` | internal/transform/field/unflatten.go:41-84 | whenever unflattening succeeds, GetField answers every non-empty key with its own value, if that value is no map or no other key goes on from it |
| `Unflatten.OrderDoesNotMatter` | internal/transform/field/unflatten.go:44-58 | for scalar values the outcome, tree or failure, is the same for every order of the keys |
| `Unflatten.SameLeavesSameTree` | internal/transform/field/unflatten.go:41-84 | trees without empty maps are equal when they have the same leaves |
| `Unflatten.UnflattenUndoesFlatten` | internal/transform/field/unflatten.go:41-84 | for payloads without dots in keys that flattening opens and without a map under an empty top key, unflattening what was flattened always succeeds, and restores it if and only if no empty map sits at a path of 1 to 100 segments |
| `UnflattenExact.RoundTripExactly` | internal/transform/field/unflatten.go:41-84 | over all payloads, iteration orders and key orders: unflattening what was flattened succeeds with the payload if and only if no key that flattening opens has a dot, no map sits under an empty top key and no empty map at a path of 1 to 100 segments |
| `UnflattenExact.LossyPayloads` | internal/transform/field/flatten.go:41-62 | an input for each failing condition: `{"a": {}}` becomes empty, `{"a.b": nil}` nested, `{"": {"a": nil}}` flat |
| `Unflatten.FlattenUndoesUnflatten` | internal/transform/field/flatten.go:37-62 | for scalar prefix-free maps flattening restores the map if and only if every key has at most 101 segments and no leading empty one |
| `Pipeline.Execute` | internal/transform/pipeline.go:51-96 | the loop with its early returns runs the stages in order; context end, drop, empty list and error end it |
| `Pipeline.FirstStopDecides` | internal/transform/pipeline.go:60-95 | when every stage passes, the last one's data come back; otherwise the first that does not decides, by the context's error, a drop, or its wrapped error |
| `Pipeline.RunConcat` | internal/transform/pipeline.go:60-95 | running two lists of stages is running one after the other, with drop and error absorbing |
| `Pipeline.CloneEvent` | pkg/event/event.go:22-29 | the clone stands for the same event, and its maps, slices, headers and metadata key are fresh |
| `Pipeline.CloneMetadata` | pkg/event/event.go:44-55 | the key bytes are copied, a nil key stays nil |
| `Pipeline.ExecuteInPlace` | internal/transform/pipeline.go:52-55 | whatever the transforms write, in place into headers, key bytes, nested maps and slices or as new events of their own, the caller's payload tree, maps, slices, headers and key are unchanged |
| `Pipeline.RouteExecute` | internal/transform/filter/route.go:107-138 | the scan writes the deciding rule's topic into the event's own headers, or into a new map where there was none |
| `Pipeline.RouteIsFirstMatch` | internal/transform/filter/route.go:119-128 | the first rule that does not evaluate to false decides, by its topic or its error |
| `Pipeline.RouteFallsBack` | internal/transform/filter/route.go:130-137 | when all rules are false the default decides, and without one there is no route |
| `Pipeline.SplitExecute` | internal/transform/filter/split.go:39-84 | drops, refuses, or yields one event per item in item order, each with the item at the target, its index header, and payload, headers and key no other event shares |
| `Pipeline.SplitItems` | internal/transform/filter/split.go:72-81 | the loop over the items, with pairwise distinct payloads, headers and keys |
| `Pipeline.SplitPartMeans` | internal/transform/filter/split.go:72-81 | each event answers the target with its item, the field no more unless the target lies there, everything else as before, and its index under `_split_index` |
| `Pipeline.SeparateMeans` | internal/transform/filter/split.go:72-81 | no two of the events share a header map, a payload or a key |
| `Pipeline.DecimalIsInjective` | internal/transform/filter/split.go:79 | different indices print differently |
| `Pipeline.DecimalReads` | internal/transform/filter/split.go:79 | read as a decimal numeral the printed index is the index, without leading zeros |
| `LinkedList.RingList.PushFront` | internal/enrichment/cache.go:93 | the ring list gains a fresh element in front |
| `LinkedList.RingList.Remove` | internal/enrichment/cache.go:140 | the ring list loses exactly the element |
| `LinkedList.RingList.MoveToFront` | internal/enrichment/cache.go:59 | the element comes first, the others keep their order |
| `LinkedList.RingList.Back` | internal/enrichment/cache.go:129 | the last element, or nil when there is none |
| `LruCache.LRUCache.Get` | internal/enrichment/cache.go:42-63 | map and list stay in step and refine the most-recent-first list: a hit moves to the front, an expired entry goes |
| `LruCache.LRUCache.SetWithTTL` | internal/enrichment/cache.go:71-99 | the same for writing, with eviction of the back entry for a new key when full |
| `LruCache.LRUCache.Delete` | internal/enrichment/cache.go:102-109 | the same for deletion |
| `LruCache.LRUCache.Clear` | internal/enrichment/cache.go:112-118 | the same for clearing |
| `LruCache.LRUCache.EvictLRU` | internal/enrichment/cache.go:128-134 | exactly the least recently used entry goes |
| `LruCache.LRUCache.SizesAgree` | internal/enrichment/cache.go:121-125 | the map has as many keys as the list has nodes |
| `Recency.AfterKeepsValid` | internal/enrichment/cache.go:42-142 | every call keeps keys distinct and the size within the capacity |
| `Recency.WritesAnswer` | internal/enrichment/cache.go:42-118 | a value is answered until its time to live is over and not after, a deleted or cleared key never |
| `Recency.LookupsKeepAnswers` | internal/enrichment/cache.go:42-109 | no lookup, and no deletion of another key, changes what a key answers |
| `Recency.WritesKeepAnswers` | internal/enrichment/cache.go:71-134 | a write of another key changes that only for the least recently used key, when the other is new to a full cache |
| `Recency.RunIsValid` | internal/enrichment/cache.go:42-142 | so does every run |
| `Recency.Inclusion` | internal/enrichment/cache.go:42-142 | over any trace on one clock the smaller cache's list is a subsequence of the larger's, entries equal, with at most the difference in capacity more |
| `Recency.IncludedAfter` | internal/enrichment/cache.go:42-142 | one call keeps the inclusion, and a hit in the small cache is the same hit in the large one |
| `Recency.LargerCacheHits` | internal/enrichment/cache.go:42-63 | a larger cache answers wherever a smaller one does, with the same value |
| `Recency.Survival` | internal/enrichment/cache.go:71-134 | a value neither deleted, overwritten nor expired is still answered while fewer than the capacity of distinct other keys are touched |
| `Recency.SurvivalAfterHit` | internal/enrichment/cache.go:57-60 | a hit protects an entry as setting it does: it is still answered while fewer than the capacity of distinct other keys are touched |
| `Aggregate.LeastIsLeast` | internal/transform/aggregate/count.go:234-238 | the running minimum is a member and a lower bound, absent only for no numbers |
| `Aggregate.GreatestIsGreatest` | internal/transform/aggregate/count.go:239-243 | the running maximum is a member and an upper bound, absent only for no numbers |
| `Aggregate.AggregatesAnswer` | internal/transform/aggregate/count.go:157-189 | the result event answers an aggregation's name with its value, or not at all without one, if the name is not empty and neither above, below nor equal to another's |
| `CountSpec.HistoryConserves` | internal/transform/aggregate/count.go:117-263 | in every run with sweeps, a key's emitted, swept and open segments are exactly its events in order; emitted ones are full, the others shorter |
| `CountSpec.SweepDropsIdle` | internal/transform/aggregate/count.go:254-261 | after every run a sweep drops exactly the windows whose last event arrived longer ago than the idle timeout |
| `CountSpec.KeyIsPrinted` | internal/transform/aggregate/count.go:107-111 | the key of an event is its key field as `%v` prints it |
| `CountSpec.NoSweepNoLoss` | internal/transform/aggregate/count.go:249-263 | without sweeps nothing is evicted |
| `CountSpec.CountIsBatch` | internal/transform/aggregate/count.go:100-263 | the outputs for a key are one batch result per emitted segment of its own events, however other keys interleave, and its window is the batch fold of the open segment |
| `CountSpec.OneResultPerChunk` | internal/transform/aggregate/count.go:100-246 | without sweeps, exactly one result per consecutive chunk of Count events of the key, each the batch result of that chunk |
| `CountSpec.FoldIsBatch` | internal/transform/aggregate/count.go:198-246 | a running aggregate is the sum, count, minimum or maximum of the numbers in the window's events, as long as no aggregation under the same output name does it harm |
| `CountSpec.ResultAggregates` | internal/transform/aggregate/count.go:146-189 | an aggregate whose output name is not empty and clashes with no other and no fixed field shows the batch value over its window's events, absent for a minimum or maximum of no numbers |
| `CountSpec.ResultFields` | internal/transform/aggregate/count.go:152-155 | an emitted event shows each of key, start and event count, if no aggregation's output name clashes with that field |
| `SharedNames.CountFoldsExactly` | internal/transform/aggregate/count.go:198-246 | for all events the running state of an aggregation is its batch aggregate if and only if every other one under its output name reads no field, or is the same minimum or maximum of the same field |
| `SharedNames.WindowFoldsExactly` | internal/transform/aggregate/window.go:273-332 | in the other transform, if and only if every other one under its output name reads no field |
| `SharedNames.ClashingNames` | internal/transform/aggregate/count.go:157-189 | an input for each clash: a sum and a count under one name count one number twice, and a sum named `event_count` replaces the event count |
| `ResultLaws.WhatIsNumeric` | internal/transform/aggregate/window.go:249-270 | exactly which values count as numbers: signed integers and floats in both transforms, unsigned integers in one |
| `ResultLaws.CountResultShows` | internal/transform/aggregate/count.go:146-155 | a result bears the last event's time, and shows key, first event's time and number of events under their names |
| `ResultLaws.CountAggregateShows` | internal/transform/aggregate/count.go:157-189 | sum, number, mean, least and greatest of the numbers of the window's events, each spelled out |
| `ResultLaws.WindowResultShows` | internal/transform/aggregate/window.go:194-204 | a result bears the instant it was emitted at, and shows key, span and number of events under their names |
| `ResultLaws.WindowAggregateShows` | internal/transform/aggregate/window.go:206-224 | the same spelled out for the other transform: nothing without numbers, pointers to least and greatest unless forced |
| `ResultLaws.NumbersConcat` | internal/transform/aggregate/window.go:280-289 | the numbers of a window are those of its events, in order |
| `ResultLaws.TotalConcat` | internal/transform/aggregate/window.go:309-311 | the sum of two stretches is the sum of their sums |
| `ResultLaws.TotalOfOne` | internal/transform/aggregate/window.go:296-301 | the sum of one number is that number, of none zero |
| `CountTransforms.AggregateState.Add` | internal/transform/aggregate/count.go:227-244 | one number updates the state as the specification says |
| `CountTransforms.CountWindowState.UpdateAggregationsIncremental` | internal/transform/aggregate/count.go:198-246 | the loop over the aggregations computes the fold's next value and touches this window's states only |
| `CountTransforms.CountTransform.Execute` | internal/transform/aggregate/count.go:100-195 | the map of mutable windows makes exactly the specification's step; an emitted event is the result of the window just recorded |
| `CountTransforms.CountTransform.EvictIdle` | internal/transform/aggregate/count.go:254-261 | the sweep over the map drops exactly the windows idle for longer than the timeout |
| `WindowSpec.EventsConserved` | internal/transform/aggregate/window.go:97-421 | in every interleaving of arrivals, late emits, timer firings, callbacks, forced emits and Stop, a key's closed windows and open one hold its accepted events, each once and in order |
| `WindowSpec.WindowsAreSound` | internal/transform/aggregate/window.go:135-142 | every window, open or closed out, spans the duration, is non-empty and its aggregates are the batch fold over its events |
| `WindowLaws.KeyIsText` | internal/transform/aggregate/window.go:104-113 | the key of an event is the text of its key field, other values being refused |
| `WindowLaws.ArrivalAdds` | internal/transform/aggregate/window.go:115-136 | an arrival adds the event to its key's window, or begins one at that instant for the duration; other windows stay |
| `WindowLaws.ClosingMoves` | internal/transform/aggregate/window.go:186-236 | every other step closes out open windows as they are, at its own instant, forced exactly when all are forced out, and none goes without |
| `WindowLaws.WindowsStartAtFirstArrival` | internal/transform/aggregate/window.go:118-136 | over every interleaving each window starts at the instant its first event arrived |
| `WindowSpec.GrowthIsBounded` | internal/transform/aggregate/window.go:144-149 | a window exceeds MaxEvents - 1 by at most the calls of its key between unlock and emit, so without such calls it does not reach the limit |
| `WindowLimit.LimitHoldsExactly` | internal/transform/aggregate/window.go:135-149 | over every run the windows of a key, open and closed out, hold at most MaxEvents events if and only if no event of the key ever arrives at a window that holds MaxEvents already |
| `WindowLimit.LateEmitsCloseFullWindows` | internal/transform/aggregate/window.go:144-149 | over every run every late emit of a key closes out at least MaxEvents events if and only if none of them meets a window of the key that is not full |
| `WindowLimit.LateEmitsAreExact` | internal/transform/aggregate/window.go:144-149 | under both conditions every late emit closes out exactly MaxEvents events |
| `WindowLimit.CallsFindFullExactly` | internal/transform/aggregate/window.go:144-151 | over every run the calls of a key between unlock and emit find a full window all along if and only if its window never goes to another call, a callback or a forced emit while one of them waits |
| `WindowLimit.UnovertakenEmitsAreFull` | internal/transform/aggregate/window.go:144-149 | in such runs every late emit closes out at least MaxEvents events, and exactly that many if no event ever arrives at a full window |
| `WindowSpec.TimersFollowWindows` | internal/transform/aggregate/window.go:159-235 | no timer entry outlives its window, so scheduling never finds an old timer to cancel |
| `WindowTimers.NoWindowForgotten` | internal/transform/aggregate/window.go:118-180 | with a duration, over every run: every open window has an armed timer or a callback about to run all along if and only if no step forgets one, by Stop or by a cancelled callback with no other timer left |
| `WindowTimers.StepWatches` | internal/transform/aggregate/window.go:170-180 | one step keeps every open window watched if and only if it is not Stop with a window that has no callback waiting, nor the cancelled last callback of an open window without an armed timer |
| `WindowTimers.NoDurationNoTimers` | internal/transform/aggregate/window.go:129-132 | over every run without a positive duration no timer is ever armed and no callback runs |
| `WindowTimers.DurationArms` | internal/transform/aggregate/window.go:129-132 | with one, the arrival that begins a window arms its timer |
| `WindowTimers.ForgottenStays` | internal/transform/aggregate/window.go:118-133 | a window once forgotten stays so, as arrivals schedule nothing, until a call that fills it or a forced emit closes it, and no timer ever does |
| `WindowTimers.CancelledCallbackForgets` | internal/transform/aggregate/window.go:170-175 | an input for the failing half: the only timer of a window fires and finds its context cancelled |
| `WindowResults.FoldMeansBatch` | internal/transform/aggregate/window.go:273-332 | a running aggregate is there exactly when the window holds numbers for it, and is their batch aggregate, as long as no other aggregation under the same output name reads a field |
| `WindowResults.ResultAggregates` | internal/transform/aggregate/window.go:194-224 | an aggregate whose output name is not empty and clashes with no other and no fixed field shows the batch value over its window's events, a pointer for minimum and maximum unless forced, absent without numbers |
| `WindowResults.ResultFields` | internal/transform/aggregate/window.go:200-204 | an emitted event shows each of key, start, end and event count, if no aggregation's output name clashes with that field |
| `WindowResults.EveryResultIsBatch` | internal/transform/aggregate/window.go:186-246 | so for such aggregates of every closed window in every interleaving |
| `WindowResults.SequentialSettles` | internal/transform/aggregate/window.go:144-149 | run sequentially, no window holds MaxEvents between calls and every closed one holds exactly that many |
| `WindowResults.SequentialChunks` | internal/transform/aggregate/window.go:97-156 | run sequentially, a key's closed windows are exactly the consecutive chunks of MaxEvents of its events |
| `WindowResults.CountAgreesWithWindow` | internal/transform/aggregate/window.go:115-151 | with equal key fields, limits and aggregations, on the same string-keyed sequential calls, and with no timer firing in between, both transforms close the same windows of a key, in order, with equal counts |
| `WindowResults.ResultsAgree` | internal/transform/aggregate/window.go:206-224 | with such settings, where the aggregated fields hold no unsigned integers, which only one of the two counts as numbers, an aggregate whose output name is not empty and clashes with no other and no fixed field shows the same in both results, pointers followed, if and only if the window holds a number for it or it is a minimum or maximum |
| `WindowResults.OverlappingCallsBreakTheLimit` | internal/transform/aggregate/window.go:145-148 | an input for the failing half of both exact conditions: a window of limit two closes with three events, and a later emit closes a newer window after one |
| `WindowTransforms.WindowState.UpdateAggregations` | internal/transform/aggregate/window.go:273-332 | the loop computes the fold's next value for the event added last |
| `WindowTransforms.WindowTransform.Accept` | internal/transform/aggregate/window.go:97-151 | the locked part of Execute makes exactly the arrival step, and its reply says what was queued |
| `WindowTransforms.WindowTransform.ScheduleWindowTimeout` | internal/transform/aggregate/window.go:159-183 | the key's old timer goes and a new one is armed under it |
| `WindowTransforms.WindowTransform.EmitWindowResults` | internal/transform/aggregate/window.go:186-236 | whatever window the key has now is closed out with its timer, and the event is that window's result |
| `WindowTransforms.WindowTransform.RunCallback` | internal/transform/aggregate/window.go:170-180 | a callback emits unless its context is cancelled, even when it meets a newer window |
| `WindowTransforms.WindowTransform.ForceEmitAllWindows` | internal/transform/aggregate/window.go:335-403 | in some order of the keys every window is closed out once, with its result, and every timer stopped |
| `WindowTransforms.WindowTransform.StopTimers` | internal/transform/aggregate/window.go:413-421 | timers are disarmed and windows stay |
| `Breaker.CountersCount` | internal/enrichment/http/circuit_breaker.go:55-110 | in every interleaving failureCount is the failures since the last success and below the threshold while Closed; successCount is below its threshold, zero outside HalfOpen and the run of successes in it |
| `Breaker.Transitions` | internal/enrichment/http/circuit_breaker.go:55-110 | exactly when each state is entered: Open by a failure completing a run of failureThreshold, Closed by the success in HalfOpen completing successThreshold without failure or reset between, HalfOpen, from Open or Closed alike, by a waiting caller's locked check after the last failure has timed out |
| `Breaker.HalfOpenFailure` | internal/enrichment/http/circuit_breaker.go:98-110 | a failure in HalfOpen reopens exactly when it completes a run of failureThreshold |
| `Breaker.OpensAtThreshold` | internal/enrichment/http/circuit_breaker.go:35-52 | a breaker built with failure threshold n is Closed through fewer than n failures in a row from the start, and Open from the n-th on |
| `Breaker.ClosesAtThreshold` | internal/enrichment/http/circuit_breaker.go:82-95 | from HalfOpen as it is entered, one built with success threshold m closes at the m-th success |
| `Breaker.GrantsExactly` | internal/enrichment/http/circuit_breaker.go:55-79 | an Open breaker grants exactly when more than the timeout has passed since the last failure at both clock readings |
| `Breaker.WaitsEnd` | internal/enrichment/http/circuit_breaker.go:65-74 | a locked check ends one wait, and only a read of an expired Open state begins one |
| `Breaker.StaleCallerReopens` | internal/enrichment/http/circuit_breaker.go:65-72 | an input for the case from Closed: two callers read Open, and the second takes the lock after the first's successes have closed it |
| `Breaker.UninterruptedAllow` | internal/enrichment/http/circuit_breaker.go:55-79 | without interleaving Allow leaves Closed and HalfOpen alone, and takes Open to HalfOpen exactly when it allows |
| `Breaker.CircuitBreaker.constructor` | internal/enrichment/http/circuit_breaker.go:35-52 | the breaker keeps each positive setting and replaces the others by 30 s, 5 and 2 |
| `Breaker.LoadIsShed` | internal/enrichment/http/circuit_breaker.go:55-110 | against an always-failing upstream a fresh breaker lets at most failureThreshold + floor(D / openTimeout) sequential calls through in a span of D |
| `Breaker.CircuitBreaker.ReadPhase` | internal/enrichment/http/circuit_breaker.go:56-65 | the part of Allow before the write lock makes the read step |
| `Breaker.CircuitBreaker.LockPhase` | internal/enrichment/http/circuit_breaker.go:66-72 | the locked part makes the lock step and allows exactly when it resets |
| `Breaker.CircuitBreaker.Allow` | internal/enrichment/http/circuit_breaker.go:55-79 | both phases together |
| `Breaker.CircuitBreaker.RecordSuccess` | internal/enrichment/http/circuit_breaker.go:82-95 | makes the success step |
| `Breaker.CircuitBreaker.RecordFailure` | internal/enrichment/http/circuit_breaker.go:98-110 | makes the failure step |
| `Retrier.Do` | internal/enrichment/http/circuit_breaker.go:165-215 | all attempts but the last were retried, the last decides the outcome, at most MaxRetries are made, and every retried one is followed by its pause, the last included |
| `Retrier.ConclusionIsUnique` | internal/enrichment/http/circuit_breaker.go:165-215 | outcomes and context determine the number of attempts and the conclusion |
| `Retrier.SucceedsExactly` | internal/enrichment/http/circuit_breaker.go:173-175 | no error exactly when the last attempt had none and a status that is not retried |
| `Retrier.RetriesExactly` | internal/enrichment/http/circuit_breaker.go:151-214 | exactly which outcomes are retried: errors but the context's two, and without an error 408, 429 and 500 upward; and what Do returns after the last |
| `Retrier.BackoffDoubles` | internal/enrichment/http/circuit_breaker.go:207-210 | with multiplier 2 the first pause is the initial backoff, uncapped, and the i-th one it doubled i times, capped |
| `Retrier.PauseIsBounded` | internal/enrichment/http/circuit_breaker.go:168-211 | however Do ends, with any multiplier m that is not negative, it pauses at most InitialBackoff * (1 + m + ... + m^(n-1)) and at most InitialBackoff + (n-1) * MaxBackoff for n = MaxRetries |
| `Retrier.GeometricOfTwo` | internal/enrichment/http/client.go:81-86 | with the multiplier 2 that the client sets, the first bound is InitialBackoff * (2^n - 1) |
| `Retrier.LastAttemptPauses` | internal/enrichment/http/circuit_breaker.go:201-212 | an input: a single attempt answered with status 500 pauses and only then ends in exhaustion |
| `HttpClient.Client.GetJSON` | internal/enrichment/http/client.go:244-293 | a hit touches neither breaker nor upstream, a refusal makes no attempt, otherwise the retrier's conclusion decides breaker, cache and reply |
| `HttpClient.Client.Lookup` | internal/enrichment/http/client.go:245-251 | a cached text is returned and an entry that is no text removed |
| `HttpClient.Client.Conclude` | internal/enrichment/http/client.go:266-292 | errors and statuses outside 200 to 299 count as failures; only a good, small enough body is cached |
| `HttpClient.GoodResponse` | internal/enrichment/http/client.go:253-292 | a response from 200 to 299 is recorded as a success whatever its body; an unreadable or too large body is an error, any other is answered and cached |
| `HttpClient.BadResponse` | internal/enrichment/http/client.go:253-276 | an error or another status is recorded as a failure, answered as such, and caches nothing |
| `HttpClient.NoAttempt` | internal/enrichment/http/client.go:245-255 | a hit leaves the breaker alone, and only an Open breaker refuses |
| `HttpClient.GoodUpstreamIsNeverRefused` | internal/enrichment/http/client.go:243-293 | over every session of good responses, whatever the bodies, the breaker stays Closed without failures and no call is refused |
| `HttpClient.EntriesWereFetched` | internal/enrichment/http/client.go:244-293 | over every session each cached entry is what some earlier call fetched for that very URL |
| `HttpClient.HitsWereFetched` | internal/enrichment/http/client.go:245-251 | a hit returns what an earlier call fetched for the same URL within the time to live |
| `HttpClient.FetchedIsServed` | internal/enrichment/http/client.go:244-293 | what was fetched is served until it expires, whatever the breaker says |
| `HttpClient.UpstreamIsSpared` | internal/enrichment/http/client.go:244-278 | against an upstream whose every outcome is a failure at most MaxRetries * (failureThreshold + floor(D / openTimeout)) attempts are made in a span of D |
| `StatementSpec.StatementsAccounted` | internal/enrichment/postgres/client.go:151-292 | in every interleaving at most 500 queries are cached, each once, and the prepared statements are exactly the cached and the closed ones |
| `StatementSpec.Conservation` | internal/enrichment/postgres/client.go:151-292 | prepared minus closed is cached, none is closed twice, and a statement is open exactly while cached |
| `StatementLaws.EntriesAreRecent` | internal/enrichment/postgres/client.go:151-215 | in every interleaving the cached queries are those of a recency list of 500 entries |
| `StatementLaws.StatementSurvives` | internal/enrichment/postgres/client.go:151-215 | once touched, a statement stays cached while fewer than 500 distinct other queries are touched or prepared, unless invalidated or closed |
| `StatementSpec.FastPathIsOpenExactly` | internal/enrichment/postgres/client.go:151-164 | whatever happens between read and return, the statement read for a query is still open if and only if the query is still cached with that very statement, and returning it closes nothing |
| `StatementSpec.FastPathMayReturnClosed` | internal/enrichment/postgres/client.go:152-164 | an input for the failing half: the statement read on the fast path is closed before it is returned |
| `StatementCache.Client.Peek` | internal/enrichment/postgres/client.go:152-154 | the first phase of the fast path reads the statement of the recency list |
| `StatementCache.Client.TouchPhase` | internal/enrichment/postgres/client.go:158-162 | the second phase moves the query to the front if it is still there |
| `StatementCache.Client.PreparePhase` | internal/enrichment/postgres/client.go:166-190 | the slow path makes the prepare step: both maps and the list stay in step, and room is made before the database may refuse |
| `StatementCache.Client.EvictLRU` | internal/enrichment/postgres/client.go:194-214 | exactly the least recently used statement leaves all three structures and is closed |
| `StatementCache.Client.RemoveInvalidStmt` | internal/enrichment/postgres/client.go:217-238 | the two error codes drop and close the query's statement, others nothing |
| `StatementCache.Client.Close` | internal/enrichment/postgres/client.go:280-288 | every cached statement is closed, once each, and all three structures are empty |
| `StatementCache.Client.CloseStatements` | internal/enrichment/postgres/client.go:281-284 | the loop over the map closes exactly the statements of the recency list, in whatever order it yields them |
| `RedisSpec.StepCoherence` | internal/enrichment/redis/client.go:107-199 | one whole client call keeps every cached value equal to the store's if and only if it is not a failed write that was applied and changes a cached key; a successful read returns the store's value |
| `RedisSpec.CacheIsCoherent` | internal/enrichment/redis/client.go:107-199 | so over every run of whole calls in which only the client writes and no such failed write occurs |
| `RedisSpec.ReadsAreCurrent` | internal/enrichment/redis/client.go:107-129 | in such runs, without outside writers and such failed writes, every successful read returns the store's current value, the empty string for a missing key |
| `RedisSpec.EntriesWereRead` | internal/enrichment/redis/client.go:107-199 | over whole calls with any outside writers, every cached value was read from the store after the client's own last successful write of the key |
| `RedisSpec.AnswersAreRecent` | internal/enrichment/redis/client.go:107-129 | over whole calls with any outside writers, a returned value was the store's at some read within that read's time to live, and is never older than the client's own last successful Set or Delete of the key |
| `RedisSpec.FetchedIsServed` | internal/enrichment/redis/client.go:107-129 | what a read has fetched is answered without the store until its time to live is over; a missing key is not remembered |
| `RedisSpec.WritesReachStore` | internal/enrichment/redis/client.go:162-199 | writes reach the store when they succeed, or fail after having been applied |
| `RedisSpec.FailedWriteLeavesStale` | internal/enrichment/redis/client.go:162-168 | an input for the failing half: after a failed write that was applied a read answers the old value |
| `RedisPhases.StepCoherence` | internal/enrichment/redis/client.go:107-199 | with calls cut into phases and anyone writing: one phase keeps every cached value the store's, or about to be dropped, if and only if it caches nothing the store no longer holds once the drop is through, and is no outside or failed write that changes a cached key |
| `RedisPhases.CacheIsCoherent` | internal/enrichment/redis/client.go:107-199 | over every interleaving the cache is coherent all along if and only if no phase goes stale so |
| `RedisPhases.HitsAreCurrent` | internal/enrichment/redis/client.go:109-112 | while it is, a hit answers the store's value, or one that a write is about to drop |
| `RedisPhases.StaleFillsWereOvertaken` | internal/enrichment/redis/client.go:118-127 | a value that is stale when it is about to be cached was read at one phase and changed in the store at a later one |
| `RedisPhases.EntriesWereCached` | internal/enrichment/redis/client.go:118-127 | over every interleaving each cached value was read from the store, then cached, and its key not dropped since |
| `RedisPhases.HitsAreRecent` | internal/enrichment/redis/client.go:107-129 | over every interleaving a hit answers what the store held at an earlier read, no later than that read's time to live after it was cached |
| `RedisPhases.CachedIsServed` | internal/enrichment/redis/client.go:127 | what has been cached is answered until its time to live is over |
| `RedisPhases.ReadGoesOn` | internal/enrichment/redis/client.go:107-127 | a read that misses and finds the key goes on to cache its value |
| `RedisPhases.WritesReachStore` | internal/enrichment/redis/client.go:162-168 | and only a write that succeeds goes on to drop what is cached |
| `RedisPhases.CallIsItsPhases` | internal/enrichment/redis/client.go:107-199 | uninterrupted, the phases of a call add up to the step of the whole call, whatever other calls are under way |
| `RedisPhases.OvertakenReadIsCached` | internal/enrichment/redis/client.go:118-127 | an input: a read overtaken by a write and its drop caches the old value |
| `RedisClient.Client.LookPhase` | internal/enrichment/redis/client.go:109-115 | makes the lookup phase; a hit is answered, an entry that is no text dropped |
| `RedisClient.Client.ReadPhase` | internal/enrichment/redis/client.go:118-124 | makes the store phase |
| `RedisClient.Client.FillPhase` | internal/enrichment/redis/client.go:127 | makes the caching phase |
| `RedisClient.Client.WritePhase` | internal/enrichment/redis/client.go:163-165 | makes the store phase of a write |
| `RedisClient.Client.DropPhase` | internal/enrichment/redis/client.go:166 | makes the drop phase |
| `RedisClient.Client.GetWithTTL` | internal/enrichment/redis/client.go:107-129 | uninterrupted, its phases make exactly the read step of the whole call, and leave other calls where they are |
| `RedisClient.Client.Set` | internal/enrichment/redis/client.go:162-168 | uninterrupted, the store is written first and the cache entry dropped only on success |
| `RedisClient.Client.Delete` | internal/enrichment/redis/client.go:186-199 | uninterrupted, all keys leave the store, then the loop drops them from the cache, only on success |
| `Dispatch.AppendedKeysAgree` | cmd/transform/main.go:321-329 | appended keys agree if and only if index and base do, a nil base counting as "multi" |
| `DispatchLaws.KeyIs` | cmd/transform/main.go:321-329 | of several events each goes out under the record's key, or `multi`, with a dash and its index; a single one under the record's own |
| `Dispatch.DispatchOne` | cmd/transform/main.go:375-434 | an event is delivered once to where it belongs, or given up, with at most one copy to the dead-letter topic |
| `DispatchLaws.DeliveredTo` | cmd/transform/main.go:375-434 | delivered means one accepted send of the payload, to the dead-letter topic if `_dlq_reason` says something and there is one, else to what `_route_target` says, else to the trimmed output topic |
| `DispatchLaws.GivenUpTo` | cmd/transform/main.go:379-434 | given up means not marshalled, or refused there, and then copied to the dead-letter topic unless bound for it by its reason |
| `DispatchLaws.RoutedIsDelivered` | cmd/transform/main.go:412-434 | an event that `filter.route` has routed by its deciding rule, without a dead-letter reason, is delivered to that rule's topic |
| `Dispatch.DispatchAll` | cmd/transform/main.go:371-438 | every index is accounted for once: not listed exactly when its event was delivered, listed exactly when it was given up, the list strictly increasing |
| `Dispatch.NoneFailed` | cmd/transform/main.go:371-438 | when none is listed there are exactly as many sends as events, all accepted, the i-th for the i-th event, with pairwise different keys |
| `Dispatch.DispatchSingle` | cmd/transform/main.go:332-370 | no error exactly when the event was delivered once under the record's own key |
| `DispatchLaws.BrokenLeaves` | cmd/transform/main.go:284-296 | a broken record leaves the payload the pipeline got to, or itself as it came |
| `Dispatch.Handle` | cmd/transform/main.go:228-449 | malformed and broken results fall back to the dead-letter topic or are dropped; several events end in no error exactly when none is listed as failed |

## Left out

- Text outside ASCII is a sequence of Unicode code points; invalid UTF-8 and byte offsets inside code points are not modelled.
- Regular expressions, `ParseFloat` and `%v` are parameters of the condition model; parsed floats may be NaN or infinite, and rounding is not modelled.
- A NotCondition without an operand cannot be built by the parser and has no place in the datatype.
- RoundTrip.ParsePrint: conditions that the printer does not write, such as values in single quotes or with no quotes, are parsed but have no printed form here.
- UnflattenHeap.UnflattenMap: the values of the input share no maps with one another, so a write that shows up under two keys at once is not modelled; slices in values are atoms, as unflattening never looks into them.
- EventHeap.SetField: covers the payload; the event around it, with its copies of headers and key, is `Pipeline.SetFieldOf`.
- EventHeap.RemoveField: covers the payload; the event around it is `Pipeline.RemoveFieldOf`.
- Counters of 32 and 64 bits are unbounded integers; overflow is not modelled.
- `CountTransforms.CountTransform.Execute` and the window transform take configurations as validated: lower-case function names and a positive limit.
- Nil aggregate pointers, which no reachable window holds, are options.
- The call of the emit function after unlocking, and its errors, are not modelled; what is closed out is.
- ForceEmitAllWindows holds both locks in turn; Stop between them is taken to come before or after, which commutes.
- Response bodies: closing and draining them, and reading them in pieces, are not modelled; a body is read or fails.
- Retrier.Do: a pause cut short by the context is counted in full, so times are upper bounds.
- POST requests, idempotency keys and the raw row cache of the Postgres client would add only easy members.
- RedisClient.Client.LookPhase: drops an entry that is no text at the instant of its lookup; string operations cache none.
- Redis hashes: a hash entry is cached under `key:field`, which may be a string key, and Delete leaves it cached; coherence is claimed for string operations only.
- Dispatch.Handle: marshalling gives the same answer each time; metrics and log lines are not modelled, nor are records whose topic has no pipeline.
- Keys and values of records are texts with a character per byte.
- Consumers, producers, offsets, shutdown, configuration, health and metrics servers, the data transforms, rename and schema validation are not part of this model.
