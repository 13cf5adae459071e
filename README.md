# ClaudeHydra backend core, modelled in Dafny

This project models the core of the Rust backend of ClaudeHydra. The
backend is an HTTP service that relays chat requests to Anthropic's
Messages API and keeps chat sessions in memory. The model covers four
parts of it:

- **The streaming converter** (`NdjsonStream`, `stream.dfy`). This is the
  body of `claude_chat_stream`. It turns Anthropic's server-sent events
  (SSE) into newline-delimited JSON (NDJSON) frames for the frontend.
  - Decoded text chunks are appended to a buffer. Every complete line is
    cut off the front, trimmed and dispatched.
  - `content_block_delta` events with non-empty text yield token frames.
  - `message_delta` events set the token count, truncated to 32 bits.
  - `message_stop` events yield a done frame.
  - A failed chunk yields one error frame and ends the stream.
  - The converter is specified as a fold (`Step`, `Run`, `StreamFrames`).
    The imperative generator body `Convert` is proved against that fold.
    It works through its inner line loop `DrainLines`.
- **The session handlers** (`Sessions`, `sessions.dfy`). These are
  `list_sessions`, `create_session`, `get_session`, `delete_session` and
  `add_session_message`.
  - They work on the session list and the current-session id of the shared
    state.
  - The state is the class `AppState`. Each handler is one method that
    holds the lock for its whole body.
  - Lookups (`FindSession`, `GetSession`) and the listing (`ListSessions`)
    are functions on the list.
- **The timestamp helpers** (`DateTime`, `datetime.dfy`). `DaysToYmd` is
  Hinnant's civil-from-days algorithm. `Iso8601` is `now_iso8601` at a
  given instant. Both are proved against the inverse `DaysFromCivil` and
  a reader of the printed timestamp.
- **The initial application state** (`AgentState`, `agents.dfy`). This
  covers the tier-to-model mapping, the twelve Witcher agents with ids
  `agent-001` … `agent-012`, the default settings and the constructor of
  `AppState`.

`Common` (`common.dfy`) holds `Option` and `Result`, the `u32`/`u64`
ranges, and the `str` operations the handlers use (`trim`, `find`,
`strip_prefix`). It also holds zero-padded decimal formatting. `Models`
(`models.dfy`) holds the records of `backend/src/models.rs` as datatypes.

The following inputs become parameters:

- The JSON parser of an SSE payload is a function `parse: string -> SseEvent`.
  It yields only the fields the converter reads.
- Fresh UUIDs (`id`, `entryId`) are parameters.
- The clock reading is a parameter: `secs`, the seconds since the Unix epoch.

The converter's output is modelled as a sequence of `Frame` values. Their
serialisation to JSON text is not modelled.

The NDJSON wire protocol that the frontend client is documented to expect
has exactly one object with `done: true` per response. The frontend is not
part of this model, and the backend code does not promise that. This model
follows the backend:

- every `message_stop` event yields a done frame, and reading goes on
  (`StopDoesNotEndStream`);
- a response that ends without a `message_stop` has no done frame;
- a failed chunk adds an error frame that also has `done: true`.

The frontend client's session registry is documented with different
rules: on delete it selects the most recently updated session, and it
lists sessions by update time. The backend session handlers at
`backend/src/handlers.rs:462-553` clear the current session when it is
deleted, and they list sessions in storage order. This model follows the
backend.

## Model

| member | source | states |
|---|---|---|
| Common.TruncateToU32 | backend/src/handlers.rs:393-396 | `as u32` on a `u64`: the value itself below 2^32, otherwise a value below 2^32 that differs from it by a multiple of 2^32 |
| Common.Trim | backend/src/handlers.rs:353 | the trimmed line is no longer than the line and has no Unicode whitespace at either end |
| Common.TrimIsSlice | backend/src/handlers.rs:353 | the trimmed line is a contiguous slice of the line, and everything dropped before and after it is whitespace |
| Common.FirstIndexOf | backend/src/handlers.rs:352 | `find('\n')`: the position of the first occurrence, with no earlier occurrence before it; `None` only when the character does not occur |
| Common.StripPrefix | backend/src/handlers.rs:361 | `strip_prefix("data: ")` succeeds exactly when the line starts with the prefix, and then the line is the prefix followed by the result |
| Common.ZeroPad | backend/src/handlers.rs:574-577 | `{:0N}`: a string of digits whose decimal value is the number, never shorter than the width and never truncated |
| Common.ZeroPadExactWidth | backend/src/handlers.rs:575 | a number below 10^N is printed with `{:0N}` in exactly N characters |
| AgentState.ModelForTier | backend/src/state.rs:50-57 | Commander maps to Opus, Coordinator to Sonnet and Executor to Haiku; any other tier maps to the default Sonnet model |
| AgentState.ModelForTierMatchesCatalogue | backend/src/handlers.rs:89-116 | each model of the static model list is the one `model_for_tier` picks for its tier, and every tier is mapped to a listed model |
| AgentState.AgentId | backend/src/state.rs:78 | `format!("agent-{:03}", i + 1)`: `agent-` and then digits whose decimal value is i + 1, at least nine characters in all |
| AgentState.InitWitcherAgents | backend/src/state.rs:59-87 | twelve agents in table order; agent i has the name, role, tier and description of row i, id `AgentId(i)`, status `active` and the model of its tier |
| AgentState.AgentIdFormat | backend/src/state.rs:78 | for the twelve agents the id is exactly nine characters, so `agent-` is followed by exactly three digits |
| AgentState.AgentIdInjective | backend/src/state.rs:78 | distinct agent indices get distinct ids |
| AgentState.AgentIds | backend/src/state.rs:75-86 | the twelve agent ids are pairwise distinct and run from `agent-001` to `agent-012` |
| AgentState.AgentTiersKnown | backend/src/state.rs:60-73 | every table tier is a known tier, so Commanders run Opus, Coordinators Sonnet and Executors Haiku |
| AgentState.AppState.constructor | backend/src/state.rs:29-47 | the initial state has the default settings (dark, en, Sonnet, no auto start), the twelve agents, no sessions and no current session, and satisfies the state invariant |
| NdjsonStream.ResponseModel | backend/src/handlers.rs:275-278 | the done frames name the requested model, or `claude-sonnet-4-5-20250929` when none was requested |
| NdjsonStream.ErrorFrame | backend/src/handlers.rs:336-341 | the error frame is final, names the response model and the current count, and its token is the error text between `"\n[Stream error: "` and `"]"` |
| NdjsonStream.DataPayload | backend/src/handlers.rs:356-364 | a trimmed line reaches the JSON parser exactly when it is non-empty, does not start with `:`, starts with `data: ` and is not `data: [DONE]`; the payload is the text after the prefix |
| NdjsonStream.ProcessLine | backend/src/handlers.rs:356-415 | the dispatch of one line. Skipped, unparsable and unknown events change nothing. A text delta yields a token frame exactly when its text is non-empty. A message delta with `usage` sets the count to the truncated `output_tokens` (0 when missing). A stop yields a done frame with the current count. At most one frame per line |
| NdjsonStream.SplitLines | backend/src/handlers.rs:352-354 | the complete lines cut off a buffer contain no newline, and neither does the rest |
| NdjsonStream.SplitLinesJoin | backend/src/handlers.rs:352-354 | cutting loses and reorders nothing: the lines, each followed by a newline, and then the rest give back the buffer |
| NdjsonStream.SplitJoinLines | backend/src/handlers.rs:352-354 | cutting is the exact inverse of joining newline-free lines and a newline-free rest |
| NdjsonStream.SplitLinesAppend | backend/src/handlers.rs:349-354 | cutting a buffer, appending text to its rest and cutting again gives the same lines and rest as cutting the concatenation |
| NdjsonStream.ProcessLines | backend/src/handlers.rs:352-416 | the lines of a buffer yield at most one frame each |
| NdjsonStream.Drain | backend/src/handlers.rs:352-416 | after the inner loop the buffer holds no newline and is the suffix after the last newline; a buffer without a newline is left as it was, with no frame and the same count |
| NdjsonStream.DrainFirstLine | backend/src/handlers.rs:352-356 | the inner loop handles the first line of the buffer, trimmed, and then the rest of the buffer with the updated count |
| NdjsonStream.IgnoredLineSkipped | backend/src/handlers.rs:356-364 | a skipped, unparsable or unknown line yields nothing, keeps the count and does not stop the lines after it |
| NdjsonStream.StopDoesNotEndStream | backend/src/handlers.rs:400-411 | a `message_stop` line yields a done frame with the current count, and the lines after it are still processed |
| NdjsonStream.DrainAppend | backend/src/handlers.rs:349-416 | draining is insensitive to where the text was divided between two drains |
| NdjsonStream.Step | backend/src/handlers.rs:332-354 | one outer iteration only appends frames. A failed chunk appends the error frame with the current count and leaves the loop, keeping buffer and count. A text chunk keeps the loop open and leaves a newline-free tail of the buffer plus text; text without a newline only waits in the buffer. Once the loop is left nothing changes |
| NdjsonStream.Run | backend/src/handlers.rs:332-417 | the outer loop only appends frames, and after the `break` later chunks change nothing |
| NdjsonStream.RunExtends | backend/src/handlers.rs:332-417 | without failed chunks the loop keeps reading; the buffer between chunks never holds a newline |
| NdjsonStream.ErrorEndsStream | backend/src/handlers.rs:333-346 | a failed chunk yields exactly one error frame carrying the current count, after the frames of the chunks before it, and no later chunk is read |
| NdjsonStream.ChunkSplitInvisible | backend/src/handlers.rs:349-354 | dividing one text chunk into two anywhere in the stream changes neither the frames, the count nor the buffer |
| NdjsonStream.TrailingPartialLineDropped | backend/src/handlers.rs:352 | text after the last newline of the stream never yields a frame |
| NdjsonStream.StreamFrames | backend/src/handlers.rs:327-418 | every frame of the response is either a non-empty, non-final token without model or count, or a final frame naming the response model and a count |
| NdjsonStream.DrainLines | backend/src/handlers.rs:352-416 | the inner `while let Some(newline_pos)` loop computes exactly the rest, count and frames of `Drain` |
| NdjsonStream.Convert | backend/src/handlers.rs:327-418 | the generator body yields exactly the frames of the fold `StreamFrames` over the chunks |
| Sessions.FindSession | backend/src/handlers.rs:515 | `iter().position` by id: the first index with that id, or `None` exactly when no session has it |
| Sessions.GetSession | backend/src/handlers.rs:498-508 | `get_session` succeeds exactly when a session has the id, and then returns the first stored session with that id (`iter().find`); otherwise NOT_FOUND |
| Sessions.ListSessions | backend/src/handlers.rs:462-475 | one summary per stored session, in storage order, carrying its id, title and creation time and the number of its messages |
| Sessions.RemoveAt | backend/src/handlers.rs:518 | `Vec::remove(i)`: one element fewer, those before i unchanged and those after it shifted down by one |
| Sessions.AppendMessage | backend/src/handlers.rs:534-545 | `s.messages.push(entry)` on session i: the same number of sessions; session i keeps its id, title and creation time and gains the entry at the end of its messages; every other session is unchanged |
| Sessions.AppendFreshKeepsUnique | backend/src/handlers.rs:481-490 | appending a session whose id is not taken keeps the ids unique |
| Sessions.GetAfterCreate | backend/src/handlers.rs:488-490 | after a create, the new session is found under its id and every other lookup is unchanged |
| Sessions.ListAfterCreate | backend/src/handlers.rs:462-475 | the listing after a create is the old listing followed by the new session's summary |
| Sessions.RemoveKeepsUnique | backend/src/handlers.rs:515-518 | removing a session keeps the ids unique |
| Sessions.GetAfterRemove | backend/src/handlers.rs:515-518 | after a delete with unique ids, the deleted id is NOT_FOUND; lookups of every other id are unchanged |
| Sessions.RemovePreservesOtherLookups | backend/src/handlers.rs:518 | removing a session with another id does not change the lookup of an id |
| Sessions.ListAfterRemove | backend/src/handlers.rs:518 | the listing after a delete is the old listing with that entry removed |
| Sessions.AppendMessageKeepsIds | backend/src/handlers.rs:534-545 | adding a message changes no session id, keeps the ids unique and leaves every lookup position where it was |
| Sessions.GetAfterAppendMessage | backend/src/handlers.rs:534-545 | after adding a message, the session ends with the new entry and is otherwise unchanged; its listed message count grows by one; all other sessions are unchanged |
| Sessions.ListAgreesWithGet | backend/src/handlers.rs:462-508 | the listing and `get_session` agree on which ids exist |
| Sessions.CreateSession | backend/src/handlers.rs:477-496 | answers CREATED with a new, empty session stamped `now_iso8601`, appends it and makes it current; nothing else changes; with a fresh id the state invariant is kept |
| Sessions.DeleteSession | backend/src/handlers.rs:510-526 | NOT_FOUND changes nothing. Otherwise the first session with the id is removed and the current session is cleared exactly when it was that id; nothing else changes; the invariant is kept and the id is then NOT_FOUND |
| Sessions.AddSessionMessage | backend/src/handlers.rs:528-553 | NOT_FOUND changes nothing. Otherwise a stamped entry is pushed onto the first session with the id and returned with CREATED; the current session, settings and agents are unchanged and the invariant is kept |
| DateTime.DaysToYmd | backend/src/handlers.rs:580-593 | `days_to_ymd` yields a valid civil date (month 1 to 12, day within its month) that `DaysFromCivil` maps back to the same day count |
| DateTime.EpochDay | backend/src/handlers.rs:580-593 | day 0 is 1970-01-01 |
| DateTime.YearOfEraCorrect | backend/src/handlers.rs:585-587 | the year-of-era formula picks the March-based year that contains the day, so the day of the year never underflows |
| DateTime.SplitSeconds | backend/src/handlers.rs:564-570 | hours below 24, minutes and seconds below 60, and days, hours, minutes and seconds add back up to the instant |
| DateTime.Iso8601 | backend/src/handlers.rs:560-578 | the timestamp has at least 20 characters and ends with `Z` |
| DateTime.Iso8601RoundTrip | backend/src/handlers.rs:560-578 | up to year 9999, `now_iso8601` prints 20 characters of the form `YYYY-MM-DDTHH:MM:SSZ` whose fields are a valid date and time that name exactly the instant printed |

## Left out

- HTTP routing, request extraction, response headers and status codes other than those of the session handlers: they are axum plumbing around the modelled logic.
- The `Mutex` around the state: each handler is modelled as one atomic step, which is what holding the lock for the whole body gives.
- The request to Anthropic (`reqwest`), the API keys read from the environment, and the start instant: these are I/O. The stream converter starts from the upstream chunks, and `AppState` leaves out `api_keys`, `start_time` and `client`.
- `claude_chat` (the non-streaming request), `update_settings`, `set_api_key`, `health`, `system_stats` and the building of the upstream request body (`max_tokens`, `temperature`): outside the modelled core.
- JSON: parsing an SSE payload is the parameter `parse`, and serialising a frame or a session is not modelled. The stream frames are serialised with `serde_json::to_string(..).unwrap_or_default()`, whose fallback on a serialisation error is the empty string, so the line sent would be a bare newline. That fallback is not modelled: serialising these `json!` values does not fail. The session handlers serialise with `.unwrap()`, which would panic instead, and that is not modelled either.
- `String::from_utf8_lossy`: chunks are modelled as already-decoded text. The boundary insensitivity of `ChunkSplitInvisible` therefore holds for chunk boundaries between characters. This model does not capture a boundary inside a multi-byte character, where the lossy decoding would insert replacement characters.
- The error text of a failed chunk is the parameter `reason` (its `Display` output).
- `Uuid::new_v4()` and `SystemTime::now()`: fresh ids and the clock reading are parameters. Uniqueness of the ids is not assumed. `CreateSession` keeps the invariant only when the given id is not already taken.
- DaysToYmd: requires `days + 719468` to fit in a `u64`. The wrap-around or overflow panic beyond that is not modelled. `now_iso8601` never reaches it, because `secs / 86400` is far below the bound.
- Iso8601: its own contract states only the minimum length and the final `Z`. The layout, and that the fields name exactly the instant, are stated by `Iso8601RoundTrip`.
- Iso8601RoundTrip: stated only for years up to 9999. Later years print more than four digits, so the timestamp is longer than 20 characters.
- ProcessLines: its contract only bounds the number of frames. What each line yields is stated by `ProcessLine`, `DrainFirstLine` and `DrainAppend`.
