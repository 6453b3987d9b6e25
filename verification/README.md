# FactSearch core in Dafny

FactSearch is a fact-checking application. It asks a language model to
extract claims from a response, searches the web for evidence, and shows
verdicts in a Streamlit page. This project models the two pieces of pure
logic inside it and proves properties of them.

1. **The local-model wrapper** (`factsearch/utils/ollama_wrapper.py`). This covers:
   - the response pipeline: the `<think>` spans are removed and the text trimmed, the JSON
     booleans are rewritten, and the text is parsed as a list or dict with a bracket fallback;
   - the batch coordinator of `async_run`: one result slot per conversation, a pending index
     list, and rounds that write successful predictions back and shrink the pending list;
   - the attempt loop of `_single_request`.
2. **The result shaping in the app** (`app2.py`). This covers:
   - `format_results`: the first detailed record, with claims paired with their query and
     evidence by index, and defaults for missing fields;
   - the newest-first history capped at ten;
   - the factual-claim summary;
   - a claim card's verdict and its 80-character heading;
   - the pairing of evidence snippets with sources into numbered rows.

Modules, one per file:

- `Optional`: `Option`, and `Outcome`, which is a value or `Raised`. `Raised` stands for
  any Python exception.
- `Values`: the Python objects the code handles. A dict is an ordered list of string-keyed
  entries. The module also models truthiness, `len`, subscripting, iteration, `in`,
  `dict(...)`, `repr` and `str`.
- `Text`: `find`, `rfind`, `strip` and `replace`.
- `Normalizer`: `_strip_thinking`, `_boolean_fix` and `_type_check`.
- `Dispatcher`: the `_single_request` attempt loop.
- `Batch`: the `async_run` bookkeeping, checked against a per-slot reference semantics.
- `Report`: `format_results`.
- `Display`: the pure rules of the result page.

Three things the code calls are parameters here:

- `ast.literal_eval` is a function `parse: string -> Option<Value>`. `None` means it raised.
  Every property holds for every parser.
- The network seen by `_single_request` is `server: nat -> Reply`, the reply attempt `a` observes.
- A dispatch inside `async_run` is `backend(round, index, conversation)`: the text one
  `_single_request` call returns, or `None`. `dispatch_ollama_requests` passes no `retry`, so
  that call uses its default of 3 attempts (`Dispatcher.SingleRequest` with `retry == 3`).

The boolean fix uses plain `str.replace`, which is not word-aware. Every substring `true`
is rewritten, inside words included, so `truest` becomes `Truest` and `untrue` becomes `unTrue`.
Only the lower-case spellings are rewritten; `TRUE` is left as it is.
`Normalizer.BooleanFixWordPrefix` and `Normalizer.BooleanFixInsideWord` state this behaviour.

## Model

| member | source | states |
|---|---|---|
| Normalizer.BooleanFix | factsearch/utils/ollama_wrapper.py:24-26 | the rewrite keeps the length; each character is capitalised exactly when it starts a `true` or `false` occurrence, and is otherwise kept |
| Normalizer.BooleanFixPointwise | factsearch/utils/ollama_wrapper.py:26 | the two chained `replace` calls equal that pointwise description: the first rewrite cannot create or destroy a `false` occurrence |
| Text.ReplaceFirstLetter | factsearch/utils/ollama_wrapper.py:26 | `replace` of a word by a copy differing only in its first letter rewrites exactly the first letter of every occurrence when that letter does not recur in the word |
| Normalizer.BooleanFixOccurrence | factsearch/utils/ollama_wrapper.py:24-26 | any lower-case `true`/`false` in the output was already present at the same position in the input |
| Normalizer.BooleanFixLeavesNoLiterals | factsearch/utils/ollama_wrapper.py:24-26 | the output contains no `true` and no `false` substring |
| Normalizer.BooleanFixNoLiterals | factsearch/utils/ollama_wrapper.py:24-26 | text without lower-case boolean words passes through unchanged |
| Normalizer.BooleanFixIdempotent | factsearch/utils/ollama_wrapper.py:24-26 | applying the fix twice equals applying it once |
| Normalizer.BooleanFixInsideWord | factsearch/utils/ollama_wrapper.py:26 | the rewrite is not word-aware: `untrue` becomes `unTrue` |
| Normalizer.BooleanFixWordPrefix | factsearch/utils/ollama_wrapper.py:26 | `truest` becomes `Truest` |
| Normalizer.BooleanFixInsideQuotes | factsearch/utils/ollama_wrapper.py:26 | quoted string content is rewritten too: `'false'` becomes `'False'` |
| Normalizer.RemoveThinkSpansChanges | factsearch/utils/ollama_wrapper.py:30 | the non-greedy span deletion changes the text exactly when it holds an opening tag followed by a closing tag, and any change shortens it |
| Normalizer.RemoveThinkSpansShortens | factsearch/utils/ollama_wrapper.py:30 | a text holding a complete span gets strictly shorter |
| Normalizer.RemoveThinkSpansKeeps | factsearch/utils/ollama_wrapper.py:30 | a text without a complete span is left as it is |
| Text.Strip | factsearch/utils/ollama_wrapper.py:30 | `strip()` returns a slice of the input that neither starts nor ends with whitespace, with only whitespace cut off on either side |
| Normalizer.RemoveThinkSpansSplit | factsearch/utils/ollama_wrapper.py:30 | the text before the first opening tag survives, everything from it to the first closing tag after it is deleted, and the rest is processed the same way |
| Normalizer.StripThinking | factsearch/utils/ollama_wrapper.py:28-30 | the result is no longer than the input and has no leading or trailing whitespace; without a complete span it is the trimmed input |
| Normalizer.StripThinkingSplit | factsearch/utils/ollama_wrapper.py:28-30 | with a span, the answer is the trimmed text before the first opening tag followed by the cleaned text after the span's closing tag |
| Text.Find | factsearch/utils/ollama_wrapper.py:42 | `find` returns -1 exactly when the character is absent, and otherwise a position holding it with none before |
| Text.RFind | factsearch/utils/ollama_wrapper.py:42 | `rfind` returns -1 exactly when the character is absent, and otherwise a position holding it with none after |
| Text.FindIsFirst | factsearch/utils/ollama_wrapper.py:42 | the position `find` reports is the unique first occurrence |
| Text.RFindIsLast | factsearch/utils/ollama_wrapper.py:42 | the position `rfind` reports is the unique last occurrence |
| Normalizer.TypeCheck | factsearch/utils/ollama_wrapper.py:32-51 | the result is either `None` or a value of the expected type |
| Normalizer.TypeCheckWhole | factsearch/utils/ollama_wrapper.py:33-37 | when the whole text parses, a value of the expected type is returned as is, and one of another type gives `None` with no bracket fallback |
| Normalizer.TypeCheckFallback | factsearch/utils/ollama_wrapper.py:38-51 | when the whole parse raises, the answer is the parse of the inclusive slice from the first opening to the last closing bracket of the shape, kept only if it has the expected type |
| Normalizer.TypeCheckNoSlice | factsearch/utils/ollama_wrapper.py:45-51 | when the whole parse raises and no opening bracket precedes a closing one, the result is `None` |
| Normalizer.TypeCheckDropsProse | factsearch/utils/ollama_wrapper.py:38-48 | prose around a bracketed answer, with no opening bracket before it and no closing bracket after it, is ignored and nested brackets are kept |
| Normalizer.TypeCheckProseExample | factsearch/utils/ollama_wrapper.py:38-48 | a list wrapped in chat prose is recovered |
| Batch.Predict | factsearch/utils/ollama_wrapper.py:128-132 | a request that gave up yields `None` without reaching the normalizer; any prediction is the normalization of the returned text |
| Normalizer.Normalize | factsearch/utils/ollama_wrapper.py:128-132 | a prediction that survives the pipeline has the expected type |
| Normalizer.NormalizeParsesCleanedText | factsearch/utils/ollama_wrapper.py:128-132 | the parser sees trimmed text, no longer than the raw answer and free of lower-case boolean words; a whole-text parse of the right type is the pipeline's answer |
| Dispatcher.FirstReturn | factsearch/utils/ollama_wrapper.py:74-84 | the first attempt in a range that ends the loop, with no earlier attempt doing so; `None` when none does |
| Dispatcher.SingleRequest | factsearch/utils/ollama_wrapper.py:74-98 | at most `retry` attempts; the content of the first 200 reply with a readable body is returned, and no earlier attempt succeeded; one pause after each failed attempt but the last; `None` after `max(retry, 0)` failed attempts |
| Batch.SlotStaysResolved | factsearch/utils/ollama_wrapper.py:134-143 | once a slot is filled it keeps its value in every later round |
| Batch.SlotIsFirstSuccess | factsearch/utils/ollama_wrapper.py:116-145 | a slot is filled within `n` rounds exactly when some round's prediction for it succeeded, and then it holds the earliest one |
| Batch.SelectMembers | factsearch/utils/ollama_wrapper.py:134-143 | an index is collected exactly when it is pending and its prediction had the collected outcome |
| Batch.SelectOrdered | factsearch/utils/ollama_wrapper.py:140-143 | the filtered pending list stays in increasing order |
| Batch.SelectAt | factsearch/utils/ollama_wrapper.py:140-143 | among distinct indices, `pending[k]` is kept exactly when prediction `k` failed |
| Batch.WriteBack | factsearch/utils/ollama_wrapper.py:134-138 | every successful prediction is written to its original index, every other slot is unchanged, and the finished list is the successful indices in order |
| Batch.KeepUnfinished | factsearch/utils/ollama_wrapper.py:140-143 | the new pending list is exactly the old pending indices whose prediction failed, in order |
| Batch.ResolveRound | factsearch/utils/ollama_wrapper.py:134-143 | the write-back and the pending filter together |
| Batch.Start | factsearch/utils/ollama_wrapper.py:117-118 | before any round every slot is empty and every index is pending |
| Batch.RoundFills | factsearch/utils/ollama_wrapper.py:134-138 | after writing back round `r`'s predictions, the slots are the reference state after `r + 1` rounds |
| Batch.RoundPending | factsearch/utils/ollama_wrapper.py:140-143 | the filtered pending list is exactly the list of empty slots |
| Batch.Round | factsearch/utils/ollama_wrapper.py:122-143 | one round advances (slots, pending) from the reference state after `r` rounds to the state after `r + 1` rounds |
| Batch.AllFilledStays | factsearch/utils/ollama_wrapper.py:120 | once nothing is pending, further rounds would change nothing, which justifies the early exit |
| Batch.PendingShrinks | factsearch/utils/ollama_wrapper.py:140-143 | the pending list only loses indices, so a resolved index is never dispatched again and the list never grows |
| Batch.RunRounds | factsearch/utils/ollama_wrapper.py:116-147 | after a budget of `retry` rounds the slots equal the reference semantics and the pending indices are the empty slots; each round dispatches exactly the indices then pending; the loop stops early only when nothing is pending; a non-empty batch with a positive budget is dispatched at least once |
| Batch.DispatchedBatchNonEmpty | factsearch/utils/ollama_wrapper.py:120-122 | only a non-empty batch is ever dispatched |
| Batch.AsyncRun | factsearch/utils/ollama_wrapper.py:116-147 | with `retry = 1`, one slot per conversation holding its normalized first answer, or `None` when the request gave up; every value has the expected type; one dispatch for a non-empty batch and none for an empty one |
| Values.Put | app2.py:60-75 | assigning a key sets it and leaves every other key's value alone; an existing key keeps the length, and a new one is appended at the end |
| Values.PutInPlace | app2.py:60-75 | assigning an existing key rewrites its entry where it stands: every entry keeps its position and key, and every other entry is untouched |
| Values.Length | app2.py:62 | `len` is defined exactly on strings, lists, tuples and dicts |
| Values.TruthyIsNonEmpty | app2.py:46 | a sized value is truthy exactly when its length is positive, and `None` is falsy |
| Values.ToDict | app2.py:60 | `dict(d)` of a dict is a copy of it; `dict(v)` of anything else succeeds exactly when `v` is iterable and every item is a two-element iterable with a string key |
| Values.AddPairs | app2.py:60 | adding items one by one raises exactly when some item is not a key-value pair |
| Values.AddPairsUntouched | app2.py:60 | a key no pair names keeps its previous value |
| Values.AddPairsLastWins | app2.py:60 | a key maps to the value of its last pair |
| Values.ToDictOfPairs | app2.py:60 | in `dict(pairs)`, a key maps to the value of its last pair, and a key no pair names is absent |
| Values.ReprStr | app2.py:64 | `repr` of a string is quoted with matching quotes at both ends, double quotes exactly when the text holds a single quote and no double quote |
| Values.ReprStrPlain | app2.py:64 | a string without quotes, backslashes or control characters is written verbatim between single quotes |
| Values.Repr | app2.py:64 | `None`, booleans and small containers print as Python prints them; strings are quoted, and lists, tuples and dicts are bracketed by `[]`, `()` and `{}` |
| Values.PyStr | app2.py:64 | `str` of a string is the string itself, and of anything else its `repr` |
| Values.Get | app2.py:51-53 | `.get` returns the stored value for a present key and the default otherwise |
| Values.IndexAt | app2.py:48 | a successful integer subscript is within `len` |
| Values.Iterate | app2.py:56 | `enumerate` works exactly on values that have a length, and visits that many items |
| Values.Contains | app2.py:46 | `in` on a dict tests its keys, on a string its substrings; it raises only for `None`, booleans and integers |
| Values.Item | app2.py:48 | `results[key]` succeeds exactly on a dict holding the key, and yields its value |
| Values.Subscripts | app2.py:136-139 | subscripting every position below `len` yields exactly `v[0], ..., v[len - 1]`, and raises when `len` or the first subscript does |
| Report.QueryText | app2.py:64 | a non-empty list query is recorded as its first element, a string as itself, and anything else, the empty list included, as the text of `str(q)` |
| Report.WrapList | app2.py:71-72 | the result is always a list: a list is kept as is, anything else becomes a one-element list holding it |
| Report.AttachQuery | app2.py:62-64 | raises exactly when `len(queries)` raises or the subscript at a valid index raises |
| Report.AttachEvidence | app2.py:66-75 | raises exactly when `len(evidences)` raises or the subscript at a valid index raises |
| Report.EnrichClaim | app2.py:56-76 | a `None` claim stays `None`; otherwise the query is set exactly when `i < len(queries)`, the evidence lists exactly when `i < len(evidences)` (wrapped from a dict entry, empty for any other), and every other field is the claim's own |
| Report.EnrichFrom | app2.py:55-76 | one enriched claim per raw claim, each enriched at its own index; raises exactly when enriching some claim raises |
| Report.ReportFrom | app2.py:51-53 | a record that is not a dict raises, and a successful result is a report |
| Report.FormatResults | app2.py:45-48 | `None` exactly when the result is falsy or lacks `detailed_information`; a report comes only from a dict with that key |
| Report.FormatResultsReport | app2.py:45-86 | the claim list has the raw list's length, `None` claims stay `None` at their index, each other claim is enriched with its own index; `prompt`, `response`, `reasoning`, `response_level_factuality` and the two averages take their stored values when present and their defaults otherwise; raises exactly when some claim's enrichment raises |
| Report.FirstRecordOnly | app2.py:48 | two results that agree on the first detailed record and on the averages format identically |
| Display.PushHistory | app2.py:281-283 | the new result is at index 0, older ones follow in order, and the length is `min(len + 1, 10)` |
| Display.RecordRun | app2.py:276-286 | a run that raises, or that formats to nothing, leaves the history alone; a formatted one goes in front, older results follow in order, and the length becomes `min(len + 1, 10)` |
| Display.RecordAllNewestFirst | app2.py:281-283 | after any number of runs the history is the ten newest results, newest first, and never longer than ten |
| Display.Verdict | app2.py:94-96 | the badge says "Factual" exactly when the `factuality` field is truthy, a missing field counting as false |
| Display.Present | app2.py:198 | a value is listed exactly when it is a non-`None` claim; all claims are listed exactly when none is `None` |
| Display.PresentSingle | app2.py:198 | a single claim is listed when present and dropped when `None` |
| Display.PresentAppend | app2.py:198 | the filter distributes over concatenation, so with `PresentSingle` it keeps the present claims in their order |
| Display.CountFactual | app2.py:199 | the factual count is at most the number of claims, and equal exactly when every claim is factual |
| Display.ClaimSummary | app2.py:197-200 | no summary for an empty claim list; otherwise `n_factual <= n_total <= len(claims)`, with `n_total` equal to the length exactly when no claim is `None` |
| Display.SummaryMatchesCards | app2.py:198-208 | the summary's factual count equals the number of "Factual" badges among the cards, and its total the number of cards |
| Display.Title | app2.py:100 | a text of at most 80 characters is shown whole; a longer one as its first 80 characters followed by `...` |
| Display.TitleIdempotent | app2.py:100 | shortening an already shortened title changes nothing |
| Display.ClaimHeading | app2.py:95-100 | the heading is `Claim <index + 1>: ` and the shortened text, defaulting to `Claim <index + 1>`; it raises exactly when the claim text is not a string, list or tuple |
| Display.PairRows | app2.py:136-139 | there are `max(len(snippets), len(sources))` rows numbered from 1, and a cell is empty exactly past the end of its list |
| Display.PairRowsRoundTrip | app2.py:136-139 | reading the rows' snippets and sources back yields the two original lists |
| Display.ClaimEvidence | app2.py:131-139 | no evidence section exactly when both fields are falsy; otherwise `max(len, len)` rows, row `j` numbered `j + 1` holding `snippets[j]` and `sources[j]` when in range and nothing past the end of its list; two lists never raise |
| Display.EnrichedEvidenceRenders | app2.py:131-134 | a claim whose evidence the formatter attached always renders its evidence section without raising |

## Left out

- Network and async plumbing are not modelled: `aiohttp` sessions, the request timeout,
  `asyncio.gather` and the one-second sleep duration. A dispatch is a parameter, and
  `gather` is taken to keep submission order.
- `ast.literal_eval` is a parameter. Python literal syntax is not modelled.
- The `/no_think` rewrite of system messages (ollama_wrapper.py:55-63) is left out. The payload
  sends the original `messages`, so the rewrite never reaches the model.
- `print` logging is left out.
- Streamlit rendering, HTML markup, session state, the sidebar and the SearXNG reachability
  probe are left out. The model keeps only the data each rule produces.
- `setup.py`, `factsearch/utils/base/pipeline.py`, the OpenAI wrapper and `Factool` are not part of this model.
- Floating-point values are left out. The averages are passed through untouched, and `processing_time` is not modelled.
- Dict keys are strings only. An integer subscript on a dict therefore raises.
- Values.ToDict: a pair whose key is not a string raises, where Python would accept any hashable key.
- Partial rendering before an exception is left out. A display rule that raises yields only `Raised`.
- Exception kinds are not distinguished: every exception is one `Raised`.
- Normalizer.TypeCheck: only the `list` and `dict` expected types are modelled. They are the only ones the callers pass.
- Dispatcher.SingleRequest: the reply content is a string or `null`. Other JSON types in `message.content` are not modelled.
- Dispatcher.SingleRequest: the sleeps are counted, not timed.
- Batch.AsyncRun: the dispatch outcome depends only on (round, index, conversation). The
  backend's internal attempt loop is modelled separately as `Dispatcher.SingleRequest`.
- Display.ClaimHeading: for a list or tuple claim text, the contract states only the
  `Claim ` prefix, not the text of Python's `repr` of the first 80 elements.
- Values.Repr: non-ASCII characters are printed as themselves. Python's check for which characters are printable is not modelled.
- Text.Strip: whitespace is the set of `str.isspace()` code points listed in `Text.IsSpace`.
