# Oracle bot context table — a Dafny model

This project models the core of a chat bot (`app.py`) that passes user
questions to a chat-completion API. The modelled parts are these:

- the in-memory table `game_context` of per-user records, which holds the
  history, the message count, the last-active timestamp and the banned flag;
- `get_ai_response`, which creates a record for a new user, refuses a banned
  user, sends the last four stored turns with the truncated question, retries
  on a rate limit or an early timeout with backoff `min(2**attempt * 30, 240)`,
  and on success stores the window plus the sanitised answer;
- the string helpers `safe_slice`, NUL stripping and the 4000-character cap;
- the administrator commands `/ban` and `/unban`, the broadcast sending loop and
  the counts of the `/admin` panel.

The network is an oracle. `outcomes[i]` is what the i-th request of an exchange
produces: a success with the reply content (possibly missing), an HTTP status, a
timeout, a malformed body, or a connection failure. Waits are returned as
numbers and nothing sleeps. The clock is the parameter `now`. Sending a broadcast
message is the parameter `accepts`, which says for each id whether the send succeeds.

Modules: `Wrappers` (Option), `Text` (truncation, NUL stripping, sanitising,
decimal rendering), `Backoff` (the wait formula), `Completion` (the retry loop
and the policy it implements), `Context` (records, the window, the record
invariant, counting), `Oracle` (the class `ContextTable` holding the table).

`ContextTable.Valid()` is the table invariant. The ids list `order` is the
dictionary's insertion order, it has no repeats, and it holds exactly the
table's keys. Every record is `WellFormed`: its history has `2 * min(message_count, 3)`
turns, with a user question of at most 2000 characters at each even place and
an assistant answer free of NUL and at most 4000 characters at each odd place.
That the stored turns are those of the latest exchanges, oldest evicted first,
is the separate lemma `Context.ExchangeEvictsOldest`. Every record also carries a
non-empty timestamp, since `strftime` always yields one.

Four behaviours of `app.py` that the model follows as written:

- Any HTTP status other than 429 (401 and 5xx included) ends the exchange at once with the server-error reply. It is not retried.
- A 429 is retried, with waits of 30, 60 and 120 seconds. After the third one the function returns `None`.
- An exchange whose request fails still leaves behind the record that was created for a new user.
- `/unban` of an unknown id answers with the usage text (bare `except`). `/ban` answers "not found".

## Model

| member | source | states |
|---|---|---|
| Text.SafeSlice | app.py:220-225 | the result is a prefix of the string, of length `min(n, len)` for `n >= 0` (Python's negative-bound slicing otherwise), and the string itself when it is no longer than `n` |
| Text.StripNul | app.py:170 | the result has no NUL, the same characters as the input except the NULs (multiset), and equals the input when it had no NUL |
| Text.StripNulConcat | app.py:170 | stripping distributes over concatenation: every NUL is removed wherever it stands |
| Text.Sanitize | app.py:170 | a sanitised reply has no NUL, is the prefix of the NUL-stripped content of length `min(len(stripped), 4000)`, and is the content itself when that was already clean and short |
| Text.SanitizeIdempotent | app.py:170 | sanitising a sanitised reply changes nothing |
| Text.Decimal | app.py:187 | the rendered status is non-empty; for a non-negative value it is all decimal digits with no leading zero (only 0 itself starts with `0`); a negative value starts with `-` |
| Text.DecimalRoundTrip | app.py:187 | reading the rendered digits back gives the status code |
| Backoff.Wait | app.py:183 | every wait lies between 30 and 240 seconds |
| Backoff.WaitSchedule | app.py:183 | attempts 0, 1 and 2 wait 30, 60 and 120 seconds |
| Backoff.Pow2Monotone | app.py:183 | the doubling factor never decreases with the attempt number |
| Backoff.WaitMonotone | app.py:191 | a later attempt never waits less than an earlier one |
| Backoff.WaitCapped | app.py:183 | from the fourth attempt on, the wait is the 240-second cap |
| Completion.Attempts | app.py:163-195 | the loop as written, one case per outcome of the request of each attempt: a success answers with the sanitised content, a 429 waits and retries, any other status is a server error, a timeout retries unless it is the third attempt, a malformed body or a connection failure raises, and running out of attempts gives no reply; its properties are the `Completion` lemmas below |
| Completion.Request | app.py:163-195 | the loop returns the reply, the waits slept and the number of requests that the policy `Attempts` prescribes for the outcomes |
| Completion.AttemptsStep | app.py:181-195 | a 429 or a timeout before the last attempt waits `Wait(attempt)` and goes on; any other outcome ends the loop with its verdict after one request |
| Completion.AttemptsFrom | app.py:163-195 | when attempts `start..k-1` are retried and attempt `k` is not, exactly the requests up to `k` are made, the backoffs of attempts `start..k-1` are slept, and the result is the verdict on attempt `k`, or no reply when all three were retried |
| Completion.RetryPolicy | app.py:163-195 | the same from the first attempt: the number of requests, the waits and the reply are fixed by the first outcome that is not retried |
| Completion.AttemptsBounded | app.py:163 | every exchange makes between 1 and 3 requests, sleeps at most once per request, and never waits more than 240 seconds |
| Completion.ThreeRateLimits | app.py:181-186 | three 429s in a row wait 30, 60 and 120 seconds, make 3 requests and end with no reply |
| Completion.StatusEndsLoop | app.py:187 | a status other than 429 ends the loop on that attempt with a server error carrying that status |
| Completion.TimeoutOnLastAttempt | app.py:189-195 | a timeout on the third attempt, after two retried ones, ends with the timeout reply after waits of 30 and 60 seconds |
| Completion.MalformedRaises | app.py:166-167 | a body without a non-empty `choices` list raises on that attempt, and no further request is made |
| Completion.AnswerSanitized | app.py:169-170 | every answer the loop returns is NUL-free and at most 4000 characters |
| Completion.Render | app.py:148-195 | the returned string: the answer itself, the fixed refusal, the server-error text (prefix, the status in decimal, the closing sentence), the timeout text, or nothing exactly for `None` and for exceptions |
| Completion.RenderDistinguishes | app.py:148-195 | the refusal, the timeout text and every server-error text are distinct strings, and the status can be read back out of a server-error text |
| Context.NewContext | app.py:228-235 | a new record has an empty history, count 0, is not banned, carries the current time, and satisfies the record invariant |
| Context.Recent | app.py:150 | `messages[-4:]` holds the last `min(len, 4)` turns of the history |
| Context.Window | app.py:150 | the request holds at most 5 turns: the last `min(len, 4)` stored turns, then a user turn whose content is a prefix of the question of length `min(len, 2000)` |
| Context.Recorded | app.py:172-176 | the `update` after an answer: the history becomes the window plus the assistant turn, the count goes up by one, the time is `now`, and the banned flag is kept |
| Context.RecentWellPlaced | app.py:150 | the four recent turns of a well-formed history still alternate question and answer |
| Context.ExchangeKeepsWellFormed | app.py:150-177 | a successful exchange keeps the record invariant; at most 5 turns are sent and at most 6 are stored |
| Context.ExchangeEvictsOldest | app.py:172-176 | the stored history is a suffix of old history + question + answer, so the oldest turns are evicted first |
| Context.AppendExchange | app.py:150-176 | the last four turns of a history of `n` exchanges, then a question and an answer, form a history of `n + 1` exchanges: `2 * min(n + 1, 3)` turns, each in its place |
| Context.StoredWellPlaced | app.py:172-176 | appending the truncated question and the sanitised answer keeps questions at even places and answers at odd places |
| Context.RecentThenTail | app.py:150 | the last four turns followed by new ones are the last turns of the whole history followed by them |
| Context.WithBanFlag | app.py:541 | setting the flag changes that id's `banned` and nothing else: same keys, same history, count and timestamp, other records untouched |
| Context.BanFlagIdempotent | app.py:541 | setting a flag to its current value changes nothing, so banning twice is banning once |
| Context.IsBanned | app.py:407 | `u.get('banned', False)`: the record's banned flag, which every record carries |
| Context.IsActive | app.py:406 | `u.get('last_active')` is truthy: the timestamp string is not empty |
| Context.Matching | app.py:406-407 | the counted ids are ids of the table |
| Context.MatchingBounded | app.py:406-407 | no count exceeds the number of records |
| Context.BannedCountAfterFlag | app.py:407 | banning an unbanned user raises the banned count by one, unbanning a banned user lowers it by one, and any other flag change leaves it alone |
| Context.CountIn | app.py:406-407 | `sum(1 for ...)` over the ids in table order: never more than the number of ids (its exact value is `CountInIsCardinality`) |
| Context.CountInIsCardinality | app.py:406-407 | summing 1 over distinct ids whose record matches gives the size of the set of matching ids |
| Context.CountAllIsMatching | app.py:406-407 | summing over all the table's records counts exactly the matching records |
| Oracle.Filter | app.py:488-494 | the filtered ids are exactly the ids of the list whose send outcome is the one asked for: every kept id has it, and every id that has it is kept |
| Oracle.FilterPartition | app.py:488-494 | every recipient is counted exactly once, as a success or as a failure |
| Oracle.ExchangeKeepsValid | app.py:172-177 | recording an answered exchange for a known user keeps the table invariant: same ids, same order, every record well formed and time-stamped |
| Oracle.ContextTable.constructor | app.py:50-65 | the table starts empty and valid; an administrator id of 0 is refused at start-up |
| Oracle.ContextTable.SetDefault | app.py:145 | a known user's record is returned unchanged; an unknown user gets a new default record, appended at the end of the insertion order; nothing else changes and the invariant holds |
| Oracle.ContextTable.RecordExchange | app.py:172-177 | only the user's record changes: its history becomes the window plus the answer, the count goes up by one and the time is `now`; the invariant holds |
| Oracle.ContextTable.GetAiResponse | app.py:143-195 | an unknown user gets a new record. A banned user gets the refusal, no request is made and the table is unchanged. Otherwise the reply, waits and requests are those of the retry policy, and the record is replaced only on an answer, by window + answer with the count one higher. The table invariant is kept |
| Oracle.ContextTable.Ban | app.py:529-545 | a non-administrator is refused and nothing changes. A missing argument raises, a non-number answers with the format error, and an unknown id answers "not found" and adds no entry. A known id gets only its `banned` flag set |
| Oracle.ContextTable.Unban | app.py:548-558 | a non-administrator gets no answer and nothing changes. A missing, malformed or unknown id answers with the usage text and adds no entry. A known id gets only its `banned` flag cleared |
| Oracle.ContextTable.Broadcast | app.py:485-494 | every known user is tried once, in table order. A failed send does not stop the loop (a table that grows meanwhile would; see Left out). The failures are logged in order, and successes + failures = number of known users |
| Oracle.ContextTable.AdminStats | app.py:399-413 | only the administrator gets the numbers. The total is the number of records, the banned count is the number of records flagged banned and never exceeds the total, and the active count is the number of records with a non-empty timestamp, which is every record: the figure labelled "active (7 days)" is always the total |
| Context.AllActive | app.py:406 | when every record carries a timestamp, the active count is the number of records |

## Left out

- The messaging transport: handlers, command parsing, keyboards, menu and instruction texts, FSM states, `send_message`, `get_chat` and the user search. The model takes the parsed `/ban` and `/unban` argument as `Arg` and each broadcast send's success as `accepts`.
- The HTTP client (`APIClient`): sessions, headers, timeouts, the `backoff` decorator on `ensure_session`, and the fixed model parameters of the request body. The model keeps only the turns sent (`window`) and one `Outcome` per request.
- A body whose `choices[0]` is not an object, or whose `message` is JSON `null`, makes line 169 raise `AttributeError`. The model counts such bodies as `Malformed`: the effect is the same, an exception and no change to the table.
- A reply `content` that is not a string (JSON `null`, a number) makes `.replace` raise. The model's `Success` carries a string or nothing.
- `safe_slice`'s fallback branch: `str()` of a string never raises, and the model works on strings.
- The typing-status tasks (`maintain_typing_status`, the stop event, `wait_for`, `cancel`): concurrency and best-effort I/O.
- `asyncio.sleep`: each wait is returned as a number of seconds and no time passes.
- Timestamps: `datetime.now().strftime(...)` is the parameter `now`, which the table operations require to be non-empty, as a formatted date always is. Its format is not modelled.
- Concurrency between handlers: the model runs operations one after another. Three cases are not modelled.
  - A ban that lands while a request is pending: the source's `update` writes only history, count and timestamp, so such a ban would survive.
  - A first-time user handled while a broadcast is sending: `setdefault` (line 145) inserts a record into the table that `process_broadcast` is iterating across `await bot.send_message` (lines 488-490). The next step of that `for` then raises `RuntimeError` (the dictionary changed size). The error comes from the loop header, outside the `try`, so the remaining ids get nothing and neither the summary answer (line 496) nor `state.clear()` is reached. The model's `Broadcast` sees a table no one changes while it runs.
  - Two overlapping exchanges for one user: `app.py` reads the history before the request (line 150) and the count after it (line 174). The second update then stores only its own window and answer, yet raises the count a second time. This breaks `WellFormed`, which the model keeps only because it runs exchanges one at a time.
- Ban: the confirmation text after a ban refers to a name `Code` that `app.py` never defines, so sending it raises after the flag is set. The model stops at the state change and reports `BanApplied`.
- Broadcast: the text of each log entry (it includes the exception message). The model records the failed ids in order.
- Texts of the administrator replies, the CSV and log exports, logging, loading the `.env` configuration, `handle_general_message`, `refresh_stats`, and the duplicate `main` and `cleanup` (`cleanup` refers to an undefined client).
- GetAiResponse: requires an oracle answer for each of the three possible requests. Fewer than three outcomes cannot be supplied.
