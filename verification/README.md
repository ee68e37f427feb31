# Sliding-window rate limiter and sentiment extraction, modelled in Dafny

This project models two pieces of a feedback-analysis service.

The first is the mocked model call `mock_llm_call` in `llm_mock.py`. It keeps a
process-wide table from user id to a queue of the timestamps of that user's
admitted calls. On every call it does four things:

- it creates an empty queue for a new user;
- it pops from the front of the queue while the front timestamp is strictly
  older than `now - 60`;
- it rejects with status 429 when 78 or more timestamps remain;
- otherwise it appends `now` and returns a record with the user id, the prompt,
  a mocked answer text and the timestamp.

The second is `clean_and_parse_sentiment_response` in
`sap_genai_orchestration.py`. It cuts a model's raw answer from its first `{`
to its last `}`, both included, and hands the cut to a JSON parser. When either
brace is missing, or the parser fails, it returns the empty dictionary.

## Layout

- `wrappers.dfy`: module `Wrappers`, holding the `Option` datatype.
- `rate_limiter.dfy`: module `RateLimiter`. The table is a `map<UserId, Log>`
  and a `Log` is a `seq<real>`. One call is the pure function
  `Step(state, call) -> (state', Outcome)`, where `Outcome` is
  `Admitted(reply) | RateLimited(429)`. The clock reading is a field of the
  call. The trimming loop appears twice. `PopExpired` is a method that pops
  exactly as the source's `while` loop does. `Trim` is the function form of
  the same loop, and `PopExpired` is proved equal to it. `Expired` is the loop
  test `requests_log[0] < now - window_seconds` (llm_mock.py:24). `LogOf` is the queue a
  call starts from, empty for a user not yet in the table (llm_mock.py:18-21).
  `HasRoom` is the test `len(requests_log) < max_requests` that decides
  admission (llm_mock.py:28).
- `sliding_window.dfy`: module `SlidingWindow`, about whole traces.
  - `Run` replays a trace from the empty table. `Decide` is the outcome of
    one call of the trace.
  - `AdmittedTimes` lists, for one user, the times of every call the limiter
    admitted. Nothing is ever dropped from it.
  - `Recent` is the reference sliding window. It keeps the admitted times
    that are not expired at a given instant.
  - The main theorems hold whenever each user's clock readings never go
    backwards. Under that condition the limiter admits a call exactly when
    fewer than 78 of the user's admitted calls are recent. After every call,
    at most 78 admitted calls of that user lie in `[now - 60, now]`.
- `sentiment_parse.dfy`: module `SentimentParse`. `Find` and `RFind` model
  Python's `str.find` and `str.rfind` for a single character. `Slice` models
  Python's slicing with non-negative bounds. `Candidate` is the text handed
  to the parser, and `CleanAndParse` is the whole function. The JSON parser
  is a parameter of type `string -> Option<map<string, V>>`. The one lemma
  that needs it requires only that the parser rejects the empty text.

Timestamps are `real`. The limiter only subtracts the window from a clock
reading and compares the result, so no rounding is involved.

The rejection detail "Rate limit exceeded: max 78 calls per 60s" is the
constant `LimitDetail`, returned by `Outcome.Detail()`. The mocked answer text
"Mocked response for: '<prompt>'" is `Reply.Response()`.

## Model

| member | source | states |
|---|---|---|
| `RateLimiter.ExpiredHead` | llm_mock.py:24-25 | The trim pops a number of records no larger than the log. Every popped record is strictly older than `now - 60`. The first record left, if any, is not. |
| `RateLimiter.Trim` | llm_mock.py:24-25 | The trimmed log is no longer than the log, and its first record, if any, is not expired. |
| `RateLimiter.PopExpired` | llm_mock.py:24-25 | The pop loop leaves a suffix of the log in the same order. Every popped record was expired. It stops at the first record inside the window, and its result equals `Trim`. |
| `RateLimiter.Stored` | llm_mock.py:28-35 | The log stored after a call holds at most 78 records whenever the log before it did. |
| `RateLimiter.Step` | llm_mock.py:17-35 | After a call the table has the caller's key even for a new user, and no other keys are added. Every other user's log is unchanged. The 78-record bound on the caller's log is preserved. |
| `RateLimiter.TrimKeepsWindow` | llm_mock.py:24-25 | In a log ordered oldest first, every record left after trimming is `>= now - 60`. |
| `RateLimiter.TrimBoundaryIsStrict` | llm_mock.py:24 | A one-record log survives trimming exactly when its record is at least `now - 60`. A record exactly 60 seconds old is kept, and one strictly older is dropped. |
| `RateLimiter.TrimIdempotent` | llm_mock.py:24-25 | Trimming a trimmed log at the same instant drops nothing more. |
| `RateLimiter.StaleRecordBehindFreshOneSurvives` | llm_mock.py:24-25 | An example: in the unordered log `[now, now - 120]` the second record is expired, yet trimming keeps both records. |
| `RateLimiter.FreshRecordStopsTrim` | llm_mock.py:24-25 | In any log, a record that is not expired stops the trim. That record and everything after it, expired or not, stay in order as the tail of the trimmed log. |
| `RateLimiter.StepRejectsWhenFull` | llm_mock.py:28-32 | If the trimmed log has 78 or more records, the call is rejected with status 429. The stored log is the trimmed log with nothing appended, so its length is the trimmed length. |
| `RateLimiter.StepAdmitsWithRoom` | llm_mock.py:28-35 | If the trimmed log has fewer than 78 records, the call is admitted. The stored log is the trimmed log with exactly `now` appended at the end, so it grows by one. |
| `RateLimiter.AdmittedReplyEchoesCall` | llm_mock.py:38-43 | An admitted call's record carries the caller as `user_id`, the prompt as `input`, the clock reading as `timestamp`, and the mocked text built from the prompt. |
| `RateLimiter.ResponseRecoversPrompt` | llm_mock.py:41 | The mocked answer text is 23 characters longer than the prompt, and the prompt can be read back from between its fixed prefix and its closing quote. |
| `RateLimiter.FirstCallAdmitted` | llm_mock.py:18-19 | A user not yet in the table starts from an empty log. The first call is admitted and stores a log holding only its own time. |
| `RateLimiter.StepsOfDifferentUsersCommute` | llm_mock.py:18-21 | Two calls of different users give each other's outcome unchanged, and either order gives the same table. |
| `RateLimiter.RejectionIsStable` | llm_mock.py:24-32 | After a rejection, another call by the same user at the same instant is rejected the same way and leaves the table unchanged, so rejections do not consume quota. |
| `RateLimiter.FullLogRecovers` | llm_mock.py:24-35 | A log holding exactly 78 records, in any order, has room for a call exactly when its first record (the front of the queue) is strictly older than `now - 60`. |
| `RateLimiter.BoundaryScenario` | llm_mock.py:14-15 | With 78 records at time 0, a call at time 0 or at exactly 60 finds no room. A call at 60.0001 finds room. |
| `RateLimiter.StepKeepsLogSorted` | llm_mock.py:24-35 | A log ordered oldest first stays ordered after a call whose time is no earlier than any of its records. |
| `SlidingWindow.RecentMembers` | llm_mock.py:24 | The reference window keeps exactly the admitted times that are not strictly older than `now - 60`. |
| `SlidingWindow.TrimSortedIsRecent` | llm_mock.py:24-25 | On a log ordered oldest first, popping the expired head gives the same result as filtering out every expired record. |
| `SlidingWindow.Run` | llm_mock.py:6-35 | Along any trace, whatever the clock does, no user's log ever holds more than 78 records. |
| `SlidingWindow.AdmittedSorted` | llm_mock.py:35 | When each user's clock readings never go backwards, each user's admitted times are in order. |
| `SlidingWindow.RunKeepsLogsSorted` | llm_mock.py:24-35 | When each user's clock readings never go backwards, every stored log stays ordered oldest first. |
| `SlidingWindow.TrimMatchesHistory` | llm_mock.py:17-35 | With per-user monotone clocks, take any instant no earlier than all of a user's calls. Trimming that user's stored log at that instant leaves exactly the user's recent admitted times. |
| `SlidingWindow.DecisionIsSlidingWindow` | llm_mock.py:24-35 | With per-user monotone clocks, call `i` is admitted exactly when fewer than 78 of its user's earlier admitted calls are not expired at its time. |
| `SlidingWindow.WindowBound` | llm_mock.py:14-35 | With per-user monotone clocks, after every call its user's admitted calls are all no later than the call. At most 78 of them are not expired, so at most 78 lie in `[now - 60, now]`. |
| `SentimentParse.Find` | sap_genai_orchestration.py:34 | The result is -1 exactly when the character is absent. Otherwise it is an index holding the character with no earlier occurrence. |
| `SentimentParse.RFind` | sap_genai_orchestration.py:35 | The result is -1 exactly when the character is absent. Otherwise it is an index holding the character with no later occurrence. |
| `SentimentParse.Slice` | sap_genai_orchestration.py:38 | Python slicing with in-range bounds gives the subsequence. A stop at or before the start gives the empty text. |
| `SentimentParse.Candidate` | sap_genai_orchestration.py:34-36 | There is no candidate exactly when the answer lacks a `{` or a `}`. |
| `SentimentParse.CleanAndParse` | sap_genai_orchestration.py:34-43 | An answer without a `{` or without a `}` yields the empty dictionary. |
| `SentimentParse.FirstBraceAt` | sap_genai_orchestration.py:34 | A `{` with no `{` before it is the index `find` returns. |
| `SentimentParse.LastBraceAt` | sap_genai_orchestration.py:35 | A `}` with no `}` after it is the index `rfind` returns. |
| `SentimentParse.CandidateSpan` | sap_genai_orchestration.py:34-38 | The candidate is the answer from the first `{` to the last `}`, both included. It is empty when that `}` comes before that `{`. |
| `SentimentParse.CandidateIsBraced` | sap_genai_orchestration.py:38 | When the first `{` precedes the last `}`, the candidate starts with `{` and ends with `}`. |
| `SentimentParse.AnswerSurroundsCandidate` | sap_genai_orchestration.py:34-38 | When the first `{` precedes the last `}`, the answer is a `{`-free prefix, then the candidate, then a `}`-free suffix. |
| `SentimentParse.ReversedBracesGiveEmpty` | sap_genai_orchestration.py:38-46 | When the last `}` precedes the first `{`, the candidate is empty. A parser that rejects the empty text then makes the result the empty dictionary. |
| `SentimentParse.ParseOutcomeDecides` | sap_genai_orchestration.py:40-46 | When the parser fails on the candidate, the result is the empty dictionary. Otherwise it is exactly the parser's output. |
| `SentimentParse.SurroundingTextIgnored` | sap_genai_orchestration.py:34-40 | Take any text with no `{` before a braced core and no `}` after it. It yields that core as the candidate and the same result as parsing the core. |
| `SentimentParse.ExtractionIdempotent` | sap_genai_orchestration.py:34-40 | When the first `{` precedes the last `}`, the candidate is its own candidate. Parsing the answer or its candidate gives the same result. |

## Left out

- The clock (`time.time()`, llm_mock.py:13) is the `now` field of each call.
  The model places no condition on it except in two places. The trace
  theorems assume each user's readings never go backwards. The single-step
  lemma `RateLimiter.StepKeepsLogSorted` assumes the call's time is no earlier
  than any record in the log.
- Floating-point rounding of `now - window_seconds`: timestamps are exact reals.
- The `HTTPException` raised on rejection (llm_mock.py:29-32) is the
  `RateLimited` outcome. Its status 429 is a field, and its detail text is
  the constant `LimitDetail`.
- Concurrency: the source takes no lock, so calls are modelled one after the
  other. Linearizability is not a property of the code and is not stated.
- The `__main__` demo loop (llm_mock.py:47-55) only prints.
- Eviction of empty logs: the source never evicts, and neither does the model.
- `json.loads` (sap_genai_orchestration.py:40) is an arbitrary parser
  parameter. The JSON grammar is not modelled. The parser is assumed to reject
  the empty text only in `SentimentParse.ReversedBracesGiveEmpty`. Exceptions
  other than a decoding error, such as a recursion error on very deep nesting,
  are not modelled.
- The `print` calls (sap_genai_orchestration.py:42, 45).
- `ChatMessage`, `OrchestrationClient`, `construct_orchestration_config` and
  `complete` (sap_genai_orchestration.py:48-143): these configure and call an
  external SDK over the network, from environment variables.
- A retry-after hint on rejections: the source computes none, so the model
  has none.
- `SentimentParse.Slice` accepts only non-negative bounds. The extraction
  slices only after both indices are known to be non-negative, so negative
  Python indices never arise.

## Notes on the code versus its description

- A rejected call still changes the table. The source pops expired records
  from the user's queue in place before it raises. The model stores the
  trimmed log on rejection as well (`RateLimiter.StepRejectsWhenFull`). A new
  user's entry is created even before the decision.
- The comment at llm_mock.py:23, "Remove timestamps older than 60 seconds",
  suggests that afterwards no timestamp in the queue is older than the window.
  The code guarantees this only when each user's timestamps arrive in order.
  The loop pops only from the front, so with a clock that goes backwards a
  stale record can survive behind a fresh one
  (`RateLimiter.FreshRecordStopsTrim`, and the concrete case
  `RateLimiter.StaleRecordBehindFreshOneSurvives`). The window theorems
  therefore assume per-user monotone clocks.
- The boundary is the code's strict `<`. A record exactly 60 seconds old still
  counts, so a full log frees up only strictly after its oldest record turns
  60 seconds old (`RateLimiter.FullLogRecovers`).
