# Subsidy search API: extractor, normalizer and rate limiter

The service takes the free text a hosted language model returns and turns it into a
short list of subsidy (補助金) and grant (助成金) records; separately, it bounds how
often callers may trigger that upstream call. This project models the three
components that hold the behaviour, and proves properties of that model:

- **The JSON extractor** (`extract_json_from_text` in `api/utils.py`, and its copy nested in
  `call_openai` in `api/index.py`). It looks for a fenced block first. When that block is absent or
  does not decode, it finds the first `{` or `[` of the whole text and walks forward with a stack of
  expected closers and the `in_str`/`esc` flags. It cuts the candidate at the first character that
  empties the stack. Modules `Text` (strip and find), `Fence` (the fence pattern as explicit finds),
  `Scanner` (the walking loop), `SpanParse` (the spans the loop cuts, read as a bracket grammar)
  and `Extractor` (the two steps together). `json.loads` is a parameter:
  any function from text to `Some(value)`, or to `None` where it raises.
- **The item normalizer** (`normalize_and_filter_items` with its inner `normalize_item` in
  `api/utils.py`; the copy inlined in `api/index.py`). Each raw dict passes through key aliasing
  and grant-type inference. The list is then cut to `top_k`, and items without a `source_url` are
  dropped unless that would drop them all. Last, a confidence of exactly 0 becomes 0.2, in place.
  Module `Normalizer`, with `PyJson` for Python truthiness, `dict.get` and `or` on decoded values.
- **The tail of `call_openai`** (`api/index.py`). This covers the empty-text 502, the nested
  extractor, the two accepted shapes of the decoded value (`{"items": [...]}` or a bare list),
  and the nested normalizer. Module `CallOpenAi`.
- **The sliding-window limiter** (`SimpleSlidingWindow` and `allow_request` in
  `api/rate_limiter.py`). It is a class holding a queue of admission times. A call first drops
  every time at or before `now - 60`; it then admits and appends `now` when fewer than `per_min`
  times remain. Module `RateLimiter`. The class is proved against the function `Admit`, and runs of
  calls from a fresh limiter are replayed with the function `Replay`.

The loops of the source are methods proved against specification functions:
- `Scanner.FindFirstOpener` and `Scanner.ScanSpan`, for the extractor;
- `Normalizer.ApplyConfidenceFallback`, the in-place loop over an `array`;
- `RateLimiter.SlidingWindow.Allow`, whose purge loop shrinks the queue field.

Three behaviours of the code are easy to misread, and the model follows the code in each:
- There is no classifier for "no results" prose. A failed extraction is always the 502 "Model did
  not return valid JSON" (`CallOpenAi.NothingExtractedIsFatal`).
- An unparsable confidence is not recovered as 0.0. `float(...)` in `normalize_item` raises and
  nothing catches it; only the later fallback loop has a `try`. So `Normalizer.ConfidenceOf`
  returns `Err(ConfidenceNotANumber)`, and the whole pass fails.
- The purge drops a time exactly at `now - 60` as well as every older one (`<= cutoff`), and
  `RateLimiter.Purge` does the same.

## Model

| member | source | states |
|---|---|---|
| PyJson.Or | api/utils.py:95-97 | Python's `a or b`: the result is truthy iff either operand is; it is `a` when `a` is truthy and `b` otherwise |
| PyJson.Truthy | api/utils.py:85 | Python's `bool()` on a decoded value: None, False, a zero number and an empty string, list or dict are false, everything else is true |
| PyJson.FalsyValues | api/utils.py:85 | exactly six values are falsy: None, False, 0, "", [] and {} |
| PyJson.Get | api/utils.py:84-106 | `d.get(k)`: the stored value, or None when the key is absent |
| PyJson.GetOr | api/index.py:252 | `d.get(k, default)`: the stored value, or the default only when the key is absent, so a stored None is kept |
| PyJson.GetIsGetOrNull | api/utils.py:84-106 | `d.get(k)` is `d.get(k, None)`, and a default stands in only for a missing key |
| Text.Strip | api/utils.py:23 | `str.strip()`: the result is a slice of the input, everything cut off at either end is whitespace, and the result neither starts nor ends with whitespace |
| Text.IsSpace | api/utils.py:21-23 | the characters `\s` matches in a str pattern and `str.strip()` removes: Python's `str.isspace()` |
| Text.AsciiSpaces | api/utils.py:21-23 | among ASCII characters, the whitespace is exactly tab, newline, vertical tab, form feed, carriage return, the four information separators and space |
| Text.IndexOf | api/utils.py:87-89 | `str.find` from an index: the least index at or after it where the pattern occurs, with no occurrence before it, or None when there is none at or after it |
| Text.Contains | api/utils.py:87-89 | the substring test `pat in t`, by a find from 0 |
| Text.ContainsIff | api/utils.py:87-89 | the substring test holds exactly when the pattern occurs at some index |
| Fence.FenceCandidate | api/utils.py:21-23 | the pattern matches exactly when the text holds two fences that do not overlap; the candidate then holds no fence, because the lazy group stops at the first closing one, and after `.strip()` it neither starts nor ends with whitespace; its content is pinned by `Fence.TaggedCandidateAt` and `Fence.UntaggedCandidateAt` |
| Fence.TagDoesNotMoveClosingFence | api/utils.py:21 | the optional `json` tag holds no backtick, so the closing fence found after the tag is the one found right after the opening fence |
| Fence.ClosingSearchFrom | api/utils.py:21 | whether or not the `json` tag is present, the closing fence is the first one after the opening fence |
| Fence.TaggedCandidateAt | api/utils.py:21-23 | when the first fence is followed by a `json` tag, the candidate is the stripped text between the tag and the next fence |
| Fence.TaggedBlockIsCandidate | api/utils.py:21-23 | a "```json" block (any case) after backtick-free prose, with a backtick-free body, yields exactly the stripped body, whatever follows |
| Fence.UntaggedCandidateAt | api/utils.py:21-23 | when the first fence is not followed by a `json` tag, the candidate is the stripped text between that fence and the next one |
| Fence.UntaggedBlockIsCandidate | api/utils.py:21-23 | a bare "```" block after backtick-free prose, with a backtick-free body that does not start with `json`, yields exactly the stripped body, whatever follows |
| Scanner.ShortestBalanced | api/utils.py:39-69 | the end of the shortest balanced prefix of the text from `start`; when there is none, no prefix from `start` is balanced |
| Scanner.FirstOpener | api/utils.py:31-37 | the index of the first `{` or `[`, with no opener before it; it is None exactly when the text has no opener |
| Scanner.FindFirstOpener | api/utils.py:31-37 | the `enumerate` loop with `break` returns the first opener's index, or None |
| Scanner.StepRules | api/utils.py:42-61 | one pass of the loop: inside a string the stack is never touched, an escape swallows the next character whatever it is, and only an unescaped quote ends the string; outside a string a quote opens one, an opener pushes its own closer, a closer pops only when it is the expected one on top, and the stack moves by at most one |
| Scanner.ScanSpan | api/utils.py:39-69 | the stack-and-flags loop returns the shortest balanced prefix from the opener, or None when the text ends with the stack non-empty; no shorter prefix is balanced |
| Scanner.RunToIsRunFrom | api/utils.py:42-61 | running the loop one character at a time up to `i` gives the same state as the loop over the slice `t[start:i]` |
| Scanner.BalancedIffEmptied | api/utils.py:56-62 | from an opener, a prefix is balanced exactly when the loop's stack is empty after it |
| Scanner.FirstEmptyingIsShortest | api/utils.py:60-65 | the first index at which the stack empties ends the shortest balanced prefix, so scanning never goes past it |
| Scanner.NeverEmptiedIsNone | api/utils.py:42-69 | when the stack never empties before the end of the text there is no balanced prefix, and the result is None |
| Scanner.StringBodyInert | api/utils.py:44-52 | inside a string, no prefix of a string body leaves the string or touches the stack; braces, brackets and an escaped quote are inert, and the whole body returns the loop to where it was |
| Scanner.QuotedStringInert | api/utils.py:44-55 | a complete quoted string met outside a string leaves the scanner's state unchanged |
| Scanner.GroupRun | api/utils.py:53-62 | a well-formed group (opener, body, matching closer) returns the loop to its starting state, and the stack stays higher than at the start everywhere strictly inside it |
| Scanner.ItemRun | api/utils.py:53-62 | one item of a body (a plain character, a quoted string or a nested group) leaves the loop where it was and never pops below the current stack |
| Scanner.BodyRun | api/utils.py:53-62 | a run of items leaves the loop where it was and never pops below the current stack |
| Scanner.FirstOpenerAfterProse | api/utils.py:31-35 | after opener-free prose, the first opener is the first character that follows the prose |
| Scanner.GroupEmptiesOnlyAtEnd | api/utils.py:56-62 | a fresh loop over a group empties its stack at the group's last character and nowhere before |
| Scanner.IsShortestBalancedAt | api/utils.py:60-63 | a span that empties the stack only at its end is the shortest balanced prefix starting where it sits |
| Scanner.ScanFindsEmbeddedGroup | api/utils.py:31-63 | a group after opener-free prose is found whole: the scan starts at its first character and is cut exactly at its end, whatever follows |
| Scanner.EmbeddedGroupSpan | api/utils.py:39-63 | a span that empties only at its end, placed anywhere in a text, is the shortest balanced prefix from its first character |
| Scanner.StopsAtFirstClosure | api/utils.py:60-63 | on `[1]]` the span ends at the first closing bracket; the extra closer is never read |
| Scanner.MismatchedCloserIgnored | api/utils.py:56-61 | on `{]}` the mismatched `]` does not pop, and the `}` closes the span |
| Scanner.MismatchedCloserLeavesSpanOpen | api/utils.py:56-69 | on `[{]` the mismatched `]` does not pop, so the text ends with the stack non-empty and there is no span |
| Scanner.EscapedQuoteStaysInString | api/utils.py:44-52 | in `{"\"}"}` the escaped quote does not end the string and the `}` inside it is inert; only the final `}` closes the span |
| SpanParse.StringEndCloses | api/utils.py:44-52 | when the loop, inside a string, has left it by the end of some text, the string closes at its first unescaped quote, after a string body, and the loop is then just outside the string |
| SpanParse.SpanIsGroupFrom | api/utils.py:42-62 | a span that opens, and after which the stack drops back only at its end, is a well-formed group of the grammar and returns the loop to its starting state |
| SpanParse.SpanIsGroup | api/utils.py:39-62 | every span on which the fresh loop empties its stack at the end and nowhere before is a well-formed group: opener, matching closer, and between them quoted strings, nested groups and characters other than the group's closer |
| SpanParse.GroupIffEmptiesOnlyAtEnd | api/utils.py:39-62 | the spans the loop cuts are exactly the well-formed groups of the grammar |
| Extractor.ScanCandidate | api/utils.py:30-63 | the scanned candidate exists iff there is an opener with a balanced prefix after it; it is the slice from the first opener, it is balanced, and no shorter prefix of it is |
| Extractor.CandidateIsGroup | api/utils.py:30-63 | every candidate the scan hands to `json.loads` is a well-formed bracket group; it is never cut inside a string or at a closer of the wrong kind |
| Extractor.ExtractJsonFromText | api/utils.py:7-69 | the extractor method, with its loops, returns what the two-step specification `Extracted` gives |
| Extractor.EmptyTextIsNone | api/utils.py:17-18 | empty text gives None |
| Extractor.FenceDecodesFirst | api/utils.py:20-25 | a fenced candidate that decodes is the result, before any scanning |
| Extractor.FenceFailureFallsThrough | api/utils.py:20-28 | a fence that is absent or does not decode does not end the call: the result is that of the bracket scan |
| Extractor.NoCandidateIsNone | api/utils.py:31-69 | with no opener in the text, or no balanced prefix after the first one, the scan gives None |
| Extractor.OnlyTheCandidatesAreDecoded | api/utils.py:20-68 | only the fence candidate and the one scanned span are ever decoded; decoders that agree on those two give the same result, so a failed decode of the span is final |
| Extractor.NestedCopyAgrees | api/index.py:183-231 | the copy nested in `call_openai`, which has no empty-text guard, returns the same as the one in api/utils.py on every text |
| Extractor.LocatesEmbeddedValue | api/utils.py:30-65 | a well-formed value after opener-free prose, with no fence that decodes, is located and decoded whole, whatever text follows it |
| Extractor.DecodesFencedBlock | api/utils.py:20-25 | a "```json" block after backtick-free prose is decoded from its stripped inner text when that decodes |
| Extractor.DecodesUntaggedBlock | api/utils.py:20-25 | a bare "```" block after backtick-free prose is decoded from its stripped inner text when that decodes |
| Normalizer.InferGrantType | api/utils.py:85-92 | the inferred tag is 補助金 or 助成金; it is 助成金 exactly when the title contains 助成金 and does not contain 補助金 |
| Normalizer.TitleForInference | api/utils.py:86 | with `(get("title") or "")` the title read fails exactly on a truthy non-string title; with `get("title", "")` (api/index.py:252) it fails exactly on a present non-string title, null included; a string title is read as it is and a missing one as "" |
| Normalizer.GrantTypeOf | api/utils.py:84-92 | a truthy raw grant type is kept; otherwise the result is the tag inferred from the title that was read, and it fails exactly when the title read fails; the grant type is always truthy |
| Normalizer.ConfidenceOf | api/utils.py:105 | a missing or null confidence is 0.0, a number is kept, `True`/`False` are 1.0/0.0, and any string (numeric ones included, see ## Left out), list or dict is `ConfidenceNotANumber` |
| Normalizer.NormalizeItem | api/utils.py:82-108 | an item raises exactly when it is not a dict, its confidence is not a number, or it needs inference and its title cannot be read; a normalized item keeps a truthy raw grant type and otherwise carries the tag inferred from its title, has the confidence read from the item, and has a truthy url exactly when `source_url`, `url` or `link` is truthy; the copied fields and `reasons` are stated by `Normalizer.CopiedFieldsKept`, the title, summary and url values by the three fallback lemmas |
| Normalizer.NormalizeAll | api/utils.py:111 | the comprehension succeeds iff every item normalizes, and then gives each item's normalization, in order |
| Normalizer.NormalizeAllFirstError | api/utils.py:111 | a failing list raises the error of its first failing item |
| Normalizer.SliceTo | api/utils.py:112 | `s[:k]` with Python's bounds, including a negative `k`: a prefix of the stated length |
| Normalizer.KeepWithUrl | api/utils.py:115 | the url filter keeps exactly the items with a truthy `source_url`, each as many times as it occurs in the input, as an order-preserving subsequence |
| Normalizer.SelectByUrl | api/utils.py:115-117 | the filter with its override: when some item has a url it gives exactly the url items, each as many times as in the input, in order; the whole list when none has; it never empties a list |
| Normalizer.AllWithFallback | api/utils.py:119-126 | after the fallback, only confidences have changed, none is 0, a confidence of 0 is now 0.2, and every other confidence is kept |
| Normalizer.ApplyConfidenceFallback | api/utils.py:120-126 | the in-place loop leaves the array equal to the fallback applied to its old contents |
| Normalizer.FinishItems | api/utils.py:112-128 | truncation, the filter with its override and the in-place fallback give the specified list |
| Normalizer.NormalizeAndFilterItems | api/utils.py:72-128 | the whole function returns its specification `NormalizedAndFiltered` with the `(get("title") or "")` title reading |
| Normalizer.GrantTypeAlwaysSet | api/utils.py:84-92 | every normalized item has a truthy grant type: the raw one when it is truthy, otherwise one of the two tags |
| Normalizer.SubsidyWinsOverGrant | api/utils.py:87-90 | a title that mentions both tags, in either order, is inferred as 補助金 |
| Normalizer.NameNeverDecidesGrantType | api/utils.py:84-95 | the `name` key never affects the grant type; it is only a title fallback |
| Normalizer.TitleFallsBackToName | api/utils.py:95 | the title is the raw title when truthy, else the name when truthy, else "" |
| Normalizer.SummaryFallsBackToDescription | api/utils.py:96 | the summary is the raw summary when truthy, else the description when truthy, else "" |
| Normalizer.SourceUrlFallsBack | api/utils.py:97 | the url is the first truthy one of `source_url`, `url` and `link`, else "" |
| Normalizer.CopiedFieldsKept | api/utils.py:99-106 | `deadline`, `amount_max`, `rate_max`, `area`, `municipality` and `industry` are the raw values (None when absent); `reasons` is the raw value when truthy, else an empty list |
| Normalizer.InferredTagReachesItem | api/utils.py:84-92 | with no truthy raw grant type, an item whose title mentions 助成金 and not 補助金 gets 助成金, and every other item with a readable title gets 補助金 |
| Normalizer.MissingConfidenceEndsAtFallback | api/utils.py:105-126 | a missing or null confidence normalizes to 0 and leaves the pass as 0.2 |
| Normalizer.CopiesAgree | api/index.py:248-273 | the copy of `normalize_item` in api/index.py agrees with the one in api/utils.py whenever the title it reads is absent, a string or truthy (a truthy non-string makes both raise), or the raw grant type is truthy |
| Normalizer.CopiesAgreeIff | api/index.py:248-273 | the two copies give the same result exactly when that condition holds: they part only on a present, falsy, non-string title with no truthy grant type |
| Normalizer.NullTitleSplitsTheCopies | api/index.py:252 | with a null title and no grant type, `i.get("title", "")` keeps the null and `.lower()` raises, while the utils copy infers 補助金 |
| Normalizer.NormalizeAllCopiesAgree | api/index.py:275 | on lists whose items all read their titles alike, both copies normalize the list alike |
| Normalizer.PassFailsIffSomeItemFails | api/utils.py:111-112 | the pass raises exactly when some item raises, including items past `top_k`, because every item is normalized before the slice |
| Normalizer.PassBounds | api/utils.py:111-117 | the output is no longer than the input, and no longer than a non-negative `top_k`; it is non-empty when both the input and `top_k` are |
| Normalizer.TruncationBeforeFilter | api/utils.py:111-117 | once every item normalizes, the result depends only on the first `top_k` items, so a url item beyond them never displaces the ones before it |
| Normalizer.OutputComesFromTheFirstTopK | api/utils.py:111-128 | every output item is, up to the fallback, the normalization of one of the first `top_k` inputs |
| Normalizer.SelectByUrlIdempotent | api/utils.py:115-117 | filtering with the override a second time changes nothing |
| Normalizer.AllWithFallbackIdempotent | api/utils.py:119-126 | applying the fallback a second time changes nothing |
| Normalizer.KeepWithUrlOfUrlItems | api/utils.py:115 | a list of url items passes the filter unchanged |
| CallOpenAi.CallOpenAiTail | api/index.py:178-291 | the tail of `call_openai`, step by step, returns its specification `ModelTextToItems` |
| CallOpenAi.EmptyTextIsFatal | api/index.py:178-180 | empty output text is the 502 "no text output" |
| CallOpenAi.ResolveItems | api/index.py:238-245 | a dict with an `items` key gives that value, whatever it is; a list gives itself; every other shape is the 502 "no items", and only those |
| CallOpenAi.IterItems | api/index.py:275 | a list gives its elements; an empty dict or string gives none; a non-empty dict or string fails in `normalize_item` on its first element; a number, bool or null cannot be iterated |
| CallOpenAi.NothingExtractedIsFatal | api/index.py:233-236 | the 502 "did not return valid JSON" is raised exactly when extraction gives nothing or `null` |
| CallOpenAi.WrappedAndBareListAgree | api/index.py:239-242 | `{"items": xs, ...}` and the bare list `xs` give the same result, whatever else the dict holds |
| CallOpenAi.OtherShapesHaveNoItems | api/index.py:239-245 | the 502 "no items" is raised exactly when the decoded value is neither a dict with `items` nor a list |
| CallOpenAi.AgreesWithUtilsNormalizer | api/index.py:248-291 | on a list whose items read their titles alike, the inline normalizer returns what `normalize_and_filter_items` returns |
| CallOpenAi.ProseAroundAList | api/index.py:233-242 | a list after brace-free prose, with no fence that decodes, reaches the normalizer whatever text follows it |
| RateLimiter.Purge | api/rate_limiter.py:26-28 | the purge keeps a suffix of the queue whose front is after the cutoff; every dropped time is at or before the cutoff |
| RateLimiter.Admit | api/rate_limiter.py:21-35 | a call admits iff fewer than `per_min` times survive the purge; then `now` is appended and `remaining` is `per_min` minus the new length, never negative; otherwise the queue is the purged queue and the answer is `(False, 0)` |
| RateLimiter.SlidingWindow.constructor | api/rate_limiter.py:15-19 | a new limiter has the given capacity, a 60-second window and an empty queue |
| RateLimiter.SlidingWindow.Allow | api/rate_limiter.py:21-35 | `allow()` with its purge loop leaves the queue and returns the answer that `Admit` specifies; the queue stays within capacity |
| RateLimiter.AllowRequest | api/rate_limiter.py:43-45 | the key is ignored and the one shared limiter decides |
| RateLimiter.StepKeepsInvariant | api/rate_limiter.py:26-33 | one call at a time not before the last keeps the run invariant: the queue is the latest admissions, within capacity, and every earlier admission is at least a window old |
| RateLimiter.ReplayKeepsInvariant | api/rate_limiter.py:26-35 | any run with a clock that never goes back keeps that invariant |
| RateLimiter.WindowNeverOverfull | api/rate_limiter.py:23-35 | with a clock that never goes back, right after any call every admission except the latest `per_min` is at least 60 seconds old, so at most `per_min` admissions lie in the last window |
| RateLimiter.QueueWithinCapacity | api/rate_limiter.py:30-35 | across any sequence of calls, even with the clock going back, the stored count never exceeds `per_min` |
| RateLimiter.PurgeKeepsOrder | api/rate_limiter.py:26-28 | the purge of an oldest-first queue is oldest-first and holds only times after the cutoff |
| RateLimiter.AdmitKeepsQueueFresh | api/rate_limiter.py:23-33 | with the clock not going back, a call keeps the queue oldest-first with every time in `(now - 60, now]` |
| RateLimiter.ReplayKeepsQueueFresh | api/rate_limiter.py:23-35 | with a non-decreasing clock, after every call the queue is sorted and every entry is newer than `now - 60` |
| RateLimiter.BurstAtOneInstant | api/rate_limiter.py:30-35 | calls all at one instant: the first `per_min` are admitted with `remaining` counting down to 0, the rest get `(False, 0)` |
| RateLimiter.CapacityThreeBurst | api/rate_limiter.py:23-35 | from a fresh limiter of capacity 3, four calls at one instant give (True, 2), (True, 1), (True, 0), (False, 0) |
| RateLimiter.RecoversAfterWindow | api/rate_limiter.py:26-33 | once every stored time is at least a window old, a call with a positive limit is admitted again with `per_min - 1` remaining |
| RateLimiter.NonPositiveLimitRefusesAll | api/rate_limiter.py:30-35 | a limit below 1 refuses every call and the queue stays empty |

## Left out

- `json.loads` is a parameter (`Extractor.Decoder`), not a JSON grammar. The code repairs nothing and only locates the span, so every property is stated for every decoder. A decoded `null` is `Some(JNull)`, which callers treat like a failure, as `is None` does.
- The regular expression engine is not modelled. The fence pattern ```` ```(?:json)?\s*(.*?)\s*``` ```` with DOTALL and IGNORECASE is written as explicit finds in `Fence.FenceCandidate`. That function relies on three facts about the pattern: the leftmost match starts at the first "```"; the lazy group ends at the next "```"; and the `\s*` on either side removes only whitespace that `.strip()` removes too. IGNORECASE is modelled for the four tag letters, including U+017F, which it matches to `s`.
- `.lower()` on the title is left out. Lower-casing cannot add or remove the two kanji tags, so the inferred grant type is unaffected. In the api/index.py copy, the failure of `.lower()` on a title that is not a string is kept (`TitleNotAString`).
- The pattern `\s` and `str.strip()` use Python's `isspace`, written out as a character set (`Text.IsSpace`); the set is taken from the Unicode tables, not derived here.
- `float(...)` is modelled for numbers, booleans and None only. The conversion of numeric strings such as `"0.5"` is not modelled: any string is `ConfidenceNotANumber`. Floats are mathematical reals, so rounding and float equality are not modelled.
- The try/except around `float` in the fallback loop cannot fire on a normalized item, whose confidence is always a number. The loop is modelled without it.
- `threading.Lock`, `time.time()` and reading `RATE_LIMIT_PER_MIN` are left out. The limiter is sequential and takes `now` as a parameter, so atomicity under concurrency is not modelled. The module-level limiter built from `RATE_LIMIT_PER_MIN` (default 60) is left out with the environment; the model takes the limit as a parameter.
- `RateLimiter.WindowNeverOverfull`: the count of admissions within the window is stated index by index, as "every admission except the latest `per_min` is at least a window old", rather than as a count.
- The FastAPI routes and CORS, the Pydantic schemas and their validation (ranges of `rate_max` and `confidence`, at most three `reasons`), `build_prompt`, `build_json_schema` and logging are left out. They are framework glue and boundary validation.
- The OpenAI SDK call and the digging of the text out of the response object (api/index.py:135-176) are foreign calls on duck-typed objects. The model starts from the output text.
- `CallOpenAi.IterItems`: iterating a non-list `items` value is modelled from its first element only. A non-empty dict or string yields a string first, and `normalize_item` fails on it at once. What Python would do on later elements is never reached.
- The difference between the two copies' title reading (`(i.get("title") or "")` in api/utils.py and `i.get("title", "")` in api/index.py) is kept as the `Normalizer.TitleRead` parameter. `Normalizer.NullTitleSplitsTheCopies` states where the copies part; it is not claimed as a defect.
