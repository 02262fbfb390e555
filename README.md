# PDMirror-Bot download, upload and authorization core, in Dafny

This project models the logic of PDMirror-Bot, a Telegram bot that mirrors downloads through an aria2 daemon and uploads files to Pixeldrain. It proves properties of that model.

- `tools.dfy` (module `Tools`) covers `readable_bytes` and `format_duration_us`.
  - The unit choice is a loop over a real value, proved equal to a recursive reference (`Scale`).
  - The float duration arithmetic (`int()` is truncation, float `%`) is proved equal to an integer decomposition of the truncated input.
- `encoding.dfy` (module `Encoding`) covers UTF-8 and the base 64 encoding of section 4 of RFC 4648, with a decoder. Together they give the Basic credentials of section 2 of RFC 7617.
- `pixeldrain.dfy` (module `Pixeldrain`) covers the upload side:
  - `format_bytes`, `format_eta` and `progress_bar`;
  - the `UploadStreamReader` class, whose `uploaded` and `last_update_time` fields change inside its read loop. The method is proved against a `Plan` of the iteration: the chunks, the clock readings, and when the callback fires;
  - the request, error and link decisions of `upload_file_to_pixeldrain`.
- `filters.dfy` (module `Filters`) covers `owner_filter` and `authorized_only_filter`. This includes `str.split()`, Python's `int()` on strings, and the lazy `id in map(int, tokens)` scan.
- `download.dfy` (module `Download`) covers the handlers of `bot/plugins/download.py` as methods of a `Client` class. The class holds:
  - the `active_downloads` tracker, a map from GID to the status message's (chat, message);
  - the `/status` sessions;
  - a trace of effects (replies, edits, deletions, task cancellations, daemon calls, unlinks).

  Each handler is proved equal to a pure specification (`Run`, `CancelSpec`, `StatusRun`, …). The promised behaviours are lemmas about those specifications:
  - the render rule;
  - bookkeeping of the tracker;
  - at most one terminal edit in the race between not-found and cancel;
  - the cancel outcomes;
  - the status totals.
- `wrappers.dfy` holds `Option` and `Result`.

Inputs stand in for everything that is I/O:
- daemon answers (`PollAnswer`, `ActiveAnswer`, `getFiles`, the remove outcome);
- clock readings (`clock: nat -> real`);
- the ids of sent messages;
- file contents and which paths exist;
- the HTTP status, body and id of the upload reply.

Texts the bot sends are datatypes (`Download.Text`) built from the values they show, rather than rendered strings.

The model follows the code as written, including where it departs from the intended design:
- A `tellStatus` exception that is not an aria2 RPC error is not caught at `bot/plugins/download.py:37-50`, so the handler ends (`Crashed`). It is not retried as a transient failure.
- A zero download speed gives an ETA of 0 (`0 μs`), not an unbounded value (`bot/plugins/download.py:58-61`).
- The completion edit is skipped only when the last text was already the completion text. It then falls through to the progress branch (`bot/plugins/download.py:63-71`).
- Unlink errors in cancel are not caught in the code (`bot/plugins/download.py:149-151`).

## Model

| member | source | states |
|---|---|---|
| Tools.ReadableBytes | bot/utils/tools.py:34-44 | Fails exactly for a negative size; otherwise the loop's result is the reference unit choice `Scale(size)` |
| Tools.ScaleSpec | bot/utils/tools.py:37-44 | The unit is at most PB; value × 1024^unit = size; below PB the value is < 1024 and size < 1024^(unit+1); above B, size ≥ 1024^unit; a size below 1024 stays unscaled in B |
| Tools.ScaleFromSpec | bot/utils/tools.py:40-42 | Started at any unit, the division loop only raises the unit, preserves value × power, stops below 1024 or at PB, and divides only while the value reaches 1024 |
| Tools.Trunc | bot/utils/tools.py:50 | `int()` on a float truncates toward zero: the result lies within 1 of x, on the side of 0 |
| Tools.DurationOf | bot/utils/tools.py:58-76 | Exactly one dominant unit, picked by the thresholds 1 day, 1 h, 1 min, 1 s, 1 ms; the second component is below 24, 60 or 60; microseconds are shown unchanged |
| Tools.FormatDurationUsSpec | bot/utils/tools.py:50-76 | For every input, the float computation (truncation, divisions, float `%`) equals the integer decomposition of the truncated input |
| Tools.TruncOfFloatMod | bot/utils/tools.py:58-68 | Truncating the float remainder of n/a modulo b equals the integer (n div a) mod b |
| Tools.FloorOfQuotient | bot/utils/tools.py:52-56 | The truncated real quotient of whole numbers is their integer quotient |
| Encoding.Utf8Char | bot/utils/pixeldrain.py:88 | One to four bytes; a single byte equal to the code point exactly for ASCII; a lead byte ≥ 0xC0 otherwise |
| Encoding.Utf8 | bot/utils/pixeldrain.py:88 | The encoding is between 1 and 4 bytes per character |
| Encoding.DigitRoundTrip | bot/utils/pixeldrain.py:88 | Every 6-bit value maps to an alphabet character that maps back to it |
| Encoding.Encode | bot/utils/pixeldrain.py:88 | The output has 4 characters per started 3-byte group |
| Encoding.DecodeEncode | bot/utils/pixeldrain.py:88 | Decoding the base 64 encoding of any byte sequence gives it back |
| Pixeldrain.FormatBytes | bot/utils/pixeldrain.py:10-16 | The B..TB loop with the PB fallback makes the same choice as the reference `Scale` (whose properties `Tools.ScaleSpec` states) |
| Pixeldrain.FormatEta | bot/utils/pixeldrain.py:18-23 | "∞" exactly when the speed is 0; otherwise h·3600 + m·60 + s = int(remaining/speed) with 0 ≤ m, s < 60 |
| Pixeldrain.ClockSplit | bot/utils/pixeldrain.py:22 | Floor division by 3600 and by 60 splits any whole count of seconds exactly, with minutes below 60 |
| Pixeldrain.Repeat | bot/utils/pixeldrain.py:27 | `c * n` has max(n, 0) copies of c and nothing else |
| Pixeldrain.Bar | bot/utils/pixeldrain.py:27 | The bar's length is max(filled, 0) + max(size − filled, 0), and position i is filled exactly when i < filled |
| Pixeldrain.ProgressBarShape | bot/utils/pixeldrain.py:25-27 | For 0 ≤ percent ≤ 1 the bar has exactly `size` glyphs, and the first floor(percent·size) of them are filled |
| Pixeldrain.Read | bot/utils/pixeldrain.py:42 | `read(n)` gives a prefix of the unread rest: all of it for n < 0, otherwise min(n, rest) bytes |
| Pixeldrain.ChunksCover | bot/utils/pixeldrain.py:41-44 | The yielded chunks concatenate to the file for a non-zero chunk size; an empty file or a chunk size of 0 yields nothing |
| Pixeldrain.ChunksBounded | bot/utils/pixeldrain.py:41-44 | Every yielded chunk is non-empty and at most the chunk size |
| Pixeldrain.UploadStreamReader.constructor | bot/utils/pixeldrain.py:30-37 | The counter starts at 0, the last-callback time at 0, and the size is recorded once |
| Pixeldrain.UploadStreamReader.Iterate | bot/utils/pixeldrain.py:39-60 | The steps are the plan's steps (callback arguments when it fires, then the chunk) up to the first division fault. The fault ends the iteration before its chunk is yielded. The fields end at the plan's counter and last-callback time |
| Pixeldrain.SentSoFar | bot/utils/pixeldrain.py:46 | Before chunk k the counter is its start value plus the bytes of chunks before k |
| Pixeldrain.UploadCompletes | bot/utils/pixeldrain.py:35-51 | Over an unchanged non-empty file, the counter ends at the recorded size and the callback fires on the last chunk whatever the clock says |
| Pixeldrain.LastSinceFire | bot/utils/pixeldrain.py:49-58 | Between two callbacks, the last-callback time stays at the earlier callback's reading |
| Pixeldrain.Throttle | bot/utils/pixeldrain.py:49-58 | After a callback at chunk i and none since, chunk j fires exactly when 10 s have passed since i, or the counter reaches the recorded size |
| Pixeldrain.FirstChunkFires | bot/utils/pixeldrain.py:37-51 | For a fresh reader (last-callback time 0) with a callback, the first chunk fires once the clock reads at least 10 s |
| Pixeldrain.BasicCredentials | bot/utils/pixeldrain.py:87-89 | The header is "Basic " followed by valid base 64 that decodes to ':' and the API key in UTF-8 |
| Pixeldrain.UploadResult | bot/utils/pixeldrain.py:97-103 | Fails exactly for status ≥ 400, with "Upload failed: " + body; otherwise it gives a link under https://pixeldrain.com/u/ |
| Pixeldrain.LinkNamesId | bot/utils/pixeldrain.py:100-103 | On success the link names exactly the id the server returned ("None" when it is missing) |
| Pixeldrain.UploadFileToPixeldrain | bot/utils/pixeldrain.py:86-103 | The request is the PUT target plus the Basic header. The steps are the fresh reader's plan. A division fault gives no link; otherwise the result is the reply decision |
| Filters.TokenLen | bot/utils/filters.py:16-17 | The leading run of non-space characters is maximal |
| Filters.Words | bot/utils/filters.py:16-17 | `split()` yields only non-empty words without whitespace |
| Filters.WordsOfJoin | bot/utils/filters.py:16-17 | Splitting a single-space join of words gives the words back |
| Filters.WordsAround | bot/utils/filters.py:16-17 | A word set off by any whitespace (or the string's ends) is split out as its own token: `split(pre + w + post)` is `split(pre) + [w] + split(post)` |
| Filters.DecimalIsWord | bot/utils/filters.py:16-17 | The decimal rendering of any integer contains no whitespace, so `split()` keeps it whole |
| Filters.ParseDecimal | bot/utils/filters.py:11 | `int(str(n)) == n` for every integer |
| Filters.IntStripKeepsFirst | bot/utils/filters.py:11 | Stripping the whitespace `int()` skips keeps a first character that is not such whitespace |
| Filters.SeparatorRejected | bot/utils/filters.py:11 | A string starting with one of U+001C..U+001F does not convert, although `split()` treats these as whitespace |
| Filters.ToInt | bot/utils/filters.py:11 | `int()` keeps integers; a string converts exactly when `ParseInt` accepts it (only the whitespace `int()` skips is stripped, not U+001C..U+001F); the error is ValueError for strings and TypeError otherwise |
| Filters.ScanMemberSpec | bot/utils/filters.py:16-22 | `id in map(int, ts)` is true exactly when a token equal to id comes after only well-formed, different tokens. It raises ValueError exactly when a malformed token comes first. Otherwise it is false |
| Filters.ScanWellFormed | bot/utils/filters.py:16-22 | Over well-formed tokens the membership scan never raises |
| Filters.ListTokens | bot/utils/filters.py:15-17 | A missing table or key splits to no tokens; a string value splits into its words; any other value raises |
| Filters.OwnerFilter | bot/utils/filters.py:7-11 | False for any message sent on behalf of a chat; otherwise true exactly when the sender is `int(owner_id)`; raises only without a sender or an owner id that does not convert |
| Filters.OwnerAlwaysAuthorized | bot/utils/filters.py:19-20 | When both lists split, the owner is authorized whatever the lists hold, malformed ids included |
| Filters.SeparatorOwnerIdRaises | bot/utils/filters.py:7-11 | An owner id string starting with U+001C..U+001F makes the owner filter raise ValueError for any sender |
| Filters.OwnerFilterImpliesAuthorized | bot/utils/filters.py:7-23 | Whoever passes the owner filter passes the authorization filter |
| Filters.NoUsersTableOnlyOwner | bot/utils/filters.py:15-17 | Without a `users` table, the authorization filter is exactly the owner comparison |
| Filters.AuthorizedOnlySpec | bot/utils/filters.py:14-23 | Allowed exactly for the owner, a sender the user scan finds, or a chat the chat scan finds after the whole user list passes. It raises exactly when a scan it reaches raises |
| Filters.ListedUserAuthorized | bot/utils/filters.py:16-21 | A sender listed behind only well-formed ids is authorized |
| Filters.WrittenUserAuthorized | bot/utils/filters.py:14-21 | A sender whose id is written anywhere in the `authorized_users` string, set off by any whitespace, behind only well-formed different ids, is authorized |
| Filters.ListedChatAuthorized | bot/utils/filters.py:17-22 | A message from a listed chat is authorized whoever sent it, when the user list is well-formed |
| Download.Client.Register | bot/plugins/download.py:28 | Registering maps the GID to the status message, leaving other entries unchanged |
| Download.Client.Pop | bot/plugins/download.py:43 | `pop(gid, None)` returns the mapping exactly when the GID is registered, and removes it |
| Download.Basename | bot/plugins/download.py:54 | The basename has no '/', is a suffix of the path, and is preceded by '/' when shorter than the path |
| Download.FileName | bot/plugins/download.py:53-54 | "unknown" without files or with an empty first path; otherwise the basename of the first file's path |
| Download.RaceOneTerminalEdit | bot/plugins/download.py:136-143 | In either order of the not-found and cancel pops, exactly one terminal edit happens when the GID was registered (by whoever popped first), none otherwise, and the GID ends deregistered |
| Download.EtaUsSpec | bot/plugins/download.py:58-61 | A zero speed gives ETA 0; otherwise ETA × speed = remaining × 10^6 |
| Download.ZeroSpeedEta | bot/plugins/download.py:58-61 | A stalled download never faults; its ETA is shown as 0 μs |
| Download.HandleStatus | bot/plugins/download.py:63-84 | A status answer does exactly what `OnStatus` says to the tracker, the trace and the remembered text and time |
| Download.PollOnce | bot/plugins/download.py:37-84 | One iteration (the call, then the not-found, fault or status branch) does exactly what `PollStep` says |
| Download.PollLoop | bot/plugins/download.py:34-84 | The `while True` loop over the answers ends as `Run` ends, with its tracker and effects |
| Download.DownloadHandler | bot/plugins/download.py:17-84 | Without a link it only replies. If `addUri` raises, it stops after the call. Otherwise it replies with the GID, registers it with the reply, and polls as `Run` says |
| Download.StepBookkeeping | bot/plugins/download.py:39-69 | One iteration removes the GID exactly on not-found or completion, and makes a terminal edit only on not-found while registered |
| Download.RunBookkeeping | bot/plugins/download.py:34-84 | Over a run, other GIDs are untouched; the GID is removed exactly when the loop ends by completion or not-found; one terminal edit happens only on not-found while registered |
| Download.StepRenders | bot/plugins/download.py:71-84 | The remembered text and time change only together with a progress edit, made ≥ 10 s after the last one with a different text |
| Download.RendersExactlyWhenDue | bot/plugins/download.py:63-84 | An iteration renders exactly when the answer is a status that skips the completion branch, 10 s have passed since the last edit and the progress text differs from the last one; it then edits that text in and remembers it with the time |
| Download.RunRenders | bot/plugins/download.py:71-84 | Over a run, progress edits are at least 10 s apart, never repeat the previous text, and the remembered text and time are the last edit's |
| Download.CompletionFinishes | bot/plugins/download.py:63-69 | A "complete" status ends the loop at once: completion edit, GID deregistered, result removed |
| Download.NotFoundStops | bot/plugins/download.py:39-50 | An aria2 error ends the loop at once: GID deregistered, the not-found edit only if it was registered, no render after it |
| Download.RegisteredWhilePolling | bot/plugins/download.py:28-69 | While the loop runs (or after it crashed) the GID stays registered with its message; after completion or not-found it is gone |
| Download.SweepOnlyUnlinks | bot/plugins/download.py:145-151 | The sweep only unlinks candidate paths that exist |
| Download.SweepCovers | bot/plugins/download.py:145-151 | Every existing path and `.aria2` file of the download is unlinked |
| Download.SweepOnce | bot/plugins/download.py:145-151 | No path is unlinked twice, even when two candidates name the same path |
| Download.UnlinkEach | bot/plugins/download.py:148-151 | The inner loop's unlinks are the sweep's over its paths, and the paths still existing are what the rest of the sweep sees |
| Download.UnlinkFiles | bot/plugins/download.py:145-151 | The nested loop's unlinks are exactly the sweep of all candidates |
| Download.CancelHandler | bot/plugins/download.py:114-155 | The handler leaves the tracker and trace that `CancelSpec` gives, and leaves the sessions alone |
| Download.CancelUnknownOnlyReplies | bot/plugins/download.py:115-123 | Without a GID, or for an unregistered one, cancel only replies: no daemon call, tracker unchanged |
| Download.CancelRemoveFailed | bot/plugins/download.py:127-133 | A failed removal replies with the failure and leaves the tracker unchanged, with no edit and no unlink |
| Download.CancelSucceeds | bot/plugins/download.py:135-155 | A successful cancel deregisters the GID and edits its message once. It unlinks exactly the existing paths and `.aria2` files, then replies |
| Download.ReplaceSession | bot/plugins/download.py:163-172 | The old task is cancelled exactly when it is still running; the old message is deleted exactly when it is in this chat; nothing else happens |
| Download.StatusHandler | bot/plugins/download.py:158-175 | Replace the previous session, then reply with the fetching notice |
| Download.RowsSpec | bot/plugins/download.py:217-223 | There is one row per active download, in order |
| Download.SumsAppend | bot/plugins/download.py:214-226 | The totals of two lists together are the sums of their totals |
| Download.Aggregate | bot/plugins/download.py:214-226 | The loop's totals are the sums of completed and total lengths, and the rows are `Rows` |
| Download.Clip | bot/plugins/download.py:190 | `str(e)[:50]` is a prefix of at most 50 characters, the whole text when it is short enough |
| Download.StatusOnce | bot/plugins/download.py:184-226 | One iteration does what `StatusStep` says: an error edit and go on, the no-downloads edit and stop, or the aggregation |
| Download.UpdateStatus | bot/plugins/download.py:181-226 | The loop ends as `StatusRun` ends, with its effects |
| Download.FailuresKeepPolling | bot/plugins/download.py:184-193 | Fetch failures never stop the loop; each makes one call and one error edit of at most 50 characters |

## Left out

- Rendering of texts: the `:.2f` and `:02` formatting and the message layouts are not modelled. `Download.Text` holds the values shown, so render de-duplication compares these structured values. Two progress views that differ only below the second decimal would render alike in the source but count as different texts here.
- Floating point: real arithmetic is exact, with no rounding of divisions.
- aria2's numeric strings (`completedLength` and others) are taken as already parsed naturals. A missing or empty `path` is the empty string. `getFiles` entries without a `path` (an error in `AsyncPath(None)`) are not modelled.
- The async scheduler, `asyncio.sleep` and task cancellation are not modelled. The race between the poller and cancel is the two sequential orders of the pops (`Download.RaceOneTerminalEdit`).
- Failures of edits, deletions and unlinks are not modelled. The swallowed edit and delete errors are plain effects. An unlink is assumed to succeed, although an error there would escape the cancel handler. In the poll loop, `removeDownloadResult` after completion (`bot/plugins/download.py:68`) sits outside any `try`: an exception there would end the handler with that exception instead of `break`. The model always ends that case with `Finished`; the effects up to that call are the same.
- `AsyncPath` normalisation of paths is not modelled: candidates are compared as written.
- `Filters.ParseInt` accepts only ASCII digits; the other Unicode decimal digits Python's `int()` accepts are not modelled. A missing `required.owner_id` key (KeyError) is not modelled.
- `status_handler` beyond line 229 of `bot/plugins/download.py` is not part of this model, including the listing text, the change suppression and storing the new session. The visible lines never store it, so `Download.StatusHandler` leaves the sessions unchanged. `last_update_count` is written but never read in the visible lines and is not modelled.
- Download.UpdateStatus: the update task runs on its own. It is a separate method over the sequence of `tellActive` answers, not called from `Download.StatusHandler`, and it stops at the first non-empty listing because the rest of its body is past the visible lines.
- `pd_handler`, `run_command`, the aria2 wrappers, the developer commands, bot start-up and config loading are not part of this model.
- Logging is not modelled.
- The progress callback's message text and its edit in `upload_file_to_pixeldrain` are left out: only its arguments (`Pixeldrain.Progress`) are modelled. `Pixeldrain.UploadStreamReader.Iterate` records a division by zero in the percentage (recorded size 0) as the end of the iteration.
- The HTTP request is data (`Pixeldrain.Request`); the JSON reply is reduced to its optional `id`.
