# Unbanner: the ban ledger and the mass unban, in Dafny

Unbanner is a Telegram group bot. It keeps a ledger, `banned_users_db`, that
maps each chat id to the ordered list of users it banned or was told about.
Admins fill the ledger with `/ban` and `/add_banned`, empty it with
`/clear_banned`, and look at it with `/list_banned`. `/unban_all` walks a
copy of a chat's list and unbans every user in turn. A user leaves the
ledger as soon as its unban call returns. The ledger is saved to a JSON file
after every change, with the chat ids written as decimal text.

The model has six modules:

- `Wrappers` holds `Option`.
- `Tracking` holds the list operations the handlers perform on a chat's
  list. These are append-if-absent (`Insert`, `InsertAll`) and Python's
  `list.remove`, which drops the first occurrence (`RemoveFirst`,
  `RemoveEach`).
- `Codec` holds Python's `int()` and `str()` on the keys, the JSON object
  as an ordered list of members, and `load_banned_users`/`json.dump`
  (`Load`, `Dump`).
- `Render` holds the size limits: 50 ids in a listing, 10 failures in a
  summary, and 50 characters of error text.
- `Unban` is the closed-form specification of one `/unban_all` run. It is
  stated over the snapshot and the outcome of each user's step.
- `Bot` holds the replies, the admin guard and the class `Ledger`.
  - `Ledger` has three fields: the dict (`db`), its key order (`keys`, which
    `json.dump` follows) and the last file contents written (`persisted`).
  - Its methods are the command handlers. `RunUnbans` is the `/unban_all`
    loop, proved against the `Unban` functions.

Telegram calls are inputs, not effects:
- the caller's member status, `None` when `get_chat_member` raised;
- whether `ban_chat_member` returned;
- for `/unban_all`, one `Outcome` per user of the snapshot.

The `Outcome` cases:
- `UnbanOk`: the unban and the progress edit both went through.
- `UnbanFailed`: the unban raised.
- `UnbanOkButEditFailed`: the unban returned and the user was removed and
  saved, then the progress edit raised. The step is then counted both as
  unbanned and as failed (`Unban.TalliesAddUp`).
- `ReportFailed`: the unguarded edit in the `except` branch raised. The
  exception leaves the handler, so the run ends there with no summary.

The loop also returns the user ids passed to the unban call and the status
edits that went through.

## Model

| member | source | states |
|---|---|---|
| `Tracking.Insert` | main.py:84-85 | The id is tracked afterwards. The members are the old ones plus that id. The list grows by one exactly when the id was absent. Earlier entries keep their places. A duplicate-free list stays duplicate-free. |
| `Tracking.InsertIdempotent` | main.py:84-85 | Appending the same id twice leaves the list as appending it once does. |
| `Tracking.InsertAllSpec` | main.py:234-243 | Appending a sequence of ids keeps the old list as a prefix. The members are the old ones plus the new ids. The appended tail holds exactly the ids that were not tracked yet, each once. A duplicate-free list stays duplicate-free. |
| `Tracking.AddedCount` | main.py:234-243 | The number of entries appended is the number of distinct new ids: a repeat in the arguments counts once, an already tracked id not at all. |
| `Tracking.RemoveFirst` | main.py:143 | `list.remove` of a present value shortens the list by one. The absent case, where Python raises ValueError, is never reached (`Unban.StillTracked`). |
| `Tracking.RemoveFirstMultiset` | main.py:143 | The removal takes away exactly one copy of the value and nothing else. |
| `Tracking.RemoveFirstAt` | main.py:143 | The removal hits the first index holding the value and keeps the rest in order. |
| `Tracking.RemoveFirstNoDup` | main.py:143 | Removing from a duplicate-free list keeps it duplicate-free. |
| `Tracking.RemoveEachMultiset` | main.py:136-144 | A series of removals, each of a value still present, leaves the original multiset minus the removed values. |
| `Tracking.RemoveEachNoDup` | main.py:136-144 | Removals keep a duplicate-free list duplicate-free. |
| `Codec.ParseInt` | main.py:28 | `int()` as applied to a key (also at lines 74 and 237) accepts only a non-empty text that ends in a digit and holds only digits and underscores after its first character. A negative result comes from a leading minus sign. |
| `Codec.IntText` | main.py:38 | `str` of an integer is non-empty, starts with a minus sign exactly when the integer is negative, and is digits otherwise. |
| `Codec.NatText` | main.py:38 | `str` of a natural number is a non-empty run of decimal digits. |
| `Codec.ParseIntText` | main.py:28 | `int(str(n)) == n` for every integer, negative chat ids included. |
| `Codec.TextParseInt` | main.py:28 | Every canonical decimal text parses, and `str` of the result gives back the same text. |
| `Codec.IntTextCanonical` | main.py:38 | `str` writes only canonical text: no leading zero except for 0 itself, and a minus sign only before a non-zero magnitude. |
| `Codec.DecodeKeys` | main.py:28 | Over the dict `json.load` returns, the key comprehension yields each chat id once, and its key order lists exactly the chats of the dict. |
| `Codec.Load` | main.py:22-32 | Loading gives a dict whose key order lists each chat once. A missing or unreadable file gives the empty dict. |
| `Codec.Dump` | main.py:38 | `json.dump` writes one member per chat of the key order; `Codec.DumpEntries` and `Codec.DumpLoad` state what the members are. |
| `Codec.DumpDistinctKeys` | main.py:38 | The written keys are pairwise distinct, so `json.load` merges no member when the file is read back. |
| `Codec.DumpEntries` | main.py:38 | The dump has one member per chat, in key order, with the chat id written by `str` and the chat's list as the value. |
| `Codec.DecodeDumpPrefix` | main.py:28 | Loading the dump of the chats of a duplicate-free key order gives those chats with their lists, in that order. |
| `Codec.DumpLoad` | main.py:22-40 | Saving the ledger and loading the file back gives the same dict and the same key order. |
| `Render.Paginate` | main.py:203-208 | The page shows the first `min(total, limit)` entries in order. The "more" count is `total - limit`, and it is non-zero exactly when the total exceeds the limit. |
| `Render.Clip` | main.py:161 | `e[:50]` is a prefix of the error text, of length `min(len, 50)`. |
| `Unban.CountUnbanned` | main.py:140 | `unbanned_count` never exceeds the number of steps taken; `Unban.LogLengths` ties it to the users removed. |
| `Unban.CountFailed` | main.py:160 | `failed_count` never exceeds the number of steps taken; `Unban.LogLengths` ties it to the failure lines. |
| `Unban.FailureLog` | main.py:159-161 | `failed_users` holds at most one line per step; `Unban.FailureLogEntries` states what each line holds. |
| `Unban.ProgressLog` | main.py:146-171 | At most one status edit per step; `Unban.ProgressOnePerUser` and `Unban.ProgressTallies` state the edits of a run. |
| `Unban.FinalSummary` | main.py:175-189 | The summary reports the snapshot size as the total, with both counters within it. In a run that went to the end the counters add up to the total plus the steps counted twice. It lists at most 10 failures, and the listed failures plus the "more" count are `failed_count`. |
| `Unban.FirstAbortSpec` | main.py:159-173 | No step before the stopping point ends the run, and the step at the stopping point does, when there is one. |
| `Unban.LogLengths` | main.py:140-161 | There is one unbanned user per step whose unban returned, and one failure line per failure counted. |
| `Unban.SnapshotSplits` | main.py:134-161 | The unbanned users and the kept users together are the snapshot, as a multiset. |
| `Unban.TalliesAddUp` | main.py:136-173 | In a run that went to the end, `unbanned_count + failed_count` is the number of users plus the steps counted twice: unban returned, progress edit raised. |
| `Unban.TalliesWhenEditsSucceed` | main.py:136-173 | When every progress edit goes through, `unbanned_count + failed_count == total_users`. |
| `Unban.RemainingAfter` | main.py:134-173 | On a duplicate-free snapshot, after `i` steps the chat's list is the kept users so far, in snapshot order, followed by the users not yet processed. |
| `Unban.RunLeavesKept` | main.py:134-173 | After a whole run over a duplicate-free snapshot, the chat's list is exactly the users whose unban raised, in their original order. |
| `Unban.KeptAreFailures` | main.py:137-161 | A user is kept exactly when it is in the snapshot at a step whose unban call raised, also on a snapshot with repeated ids. |
| `Unban.KeptExcludes` | main.py:134-161 | The kept users are drawn from the snapshot. |
| `Unban.StillTracked` | main.py:143 | When a user's turn comes it is still in the chat's list, so `remove` does not raise, even on a list with repeats. |
| `Unban.FailureLogEntries` | main.py:159-161 | Each failure line names a user of the snapshot whose step counted a failure, with at most 50 characters of error text. |
| `Unban.ProgressOnePerUser` | main.py:146-171 | In a run that went to the end, the status message is edited once per user, in snapshot order, with `index/total`. The edit carries an error text exactly when the user's step raised. |
| `Unban.ProgressTallies` | main.py:146-171 | The tallies an edit shows are the counters right after that user's step. |
| `Unban.AllSucceed` | main.py:136-191 | When every unban and edit goes through, every user is unbanned, none fails, and the failure list is empty. |
| `Bot.AdminGuard` | main.py:53-60 | The command proceeds exactly when the caller is `creator` or `administrator`. A failed status lookup gives the error reply, and any other status the admin-only reply. |
| `Bot.IsGroupChat` | main.py:48 | The chat-type check (also at line 98) refuses `private` and `channel` chats. |
| `Bot.ParsedIds` | main.py:235-242 | At most one id per argument token; `Bot.ParsedIdsMembers` states which ids are read. |
| `Bot.ParsedIdsMembers` | main.py:235-242 | An id is read exactly when some argument token parses to it; tokens `int()` refuses are skipped. |
| `Bot.AppendParsed` | main.py:234-243 | The argument loop appends each parsed id that is not tracked yet, and `added` is the number of entries appended. |
| `Bot.Record` | main.py:140-171 | For a step that does not end the run, the counters, the failure list and the status edits after it are those of the run's specification one user further. |
| `Bot.Ledger.Load` | main.py:43 | The ledger starts as the loaded file says, with its key order intact, and nothing written yet. |
| `Bot.Ledger.Save` | main.py:35-40 | The file then holds the dump of the ledger in key order; by `Codec.DumpLoad` it reloads to the same ledger. |
| `Bot.Ledger.EnsureEntry` | main.py:81-82 | An absent chat gets an empty list, appended at the end of the key order; an existing entry is left alone. |
| `Bot.Ledger.BanUser` | main.py:45-93 | Non-group chats, non-admins, a missing target and an unparsable id each give their reply and change nothing. A replied-to message names the target before any argument does. The ledger changes only once `ban_chat_member` returned: the id is appended if absent, the entry created if needed, and the file saved only when the id was new. |
| `Bot.Ledger.AddBanned` | main.py:212-245 | Non-admins and empty arguments change nothing. Otherwise the chat's list becomes the old list with every new parsed id appended once, in argument order. The file is saved even when nothing was added. The reply counts the distinct new ids. |
| `Bot.Ledger.ClearBanned` | main.py:247-268 | A non-admin changes nothing. An existing chat's list becomes empty, its key stays, the file is saved and the old length is reported. An absent chat is left alone. |
| `Bot.Ledger.ListBanned` | main.py:193-210 | An absent or empty entry gives the "nothing tracked" reply. Otherwise the reply holds the total and the first 50 ids in ledger order, with the "more" count. |
| `Bot.Ledger.UnbanAll` | main.py:95-191 | Non-group chats, non-admins and an absent or empty entry make no unban call, no status edit and no change. Otherwise it does what `RunUnbans` states for the chat's list, and keeps every list duplicate-free. |
| `Bot.Ledger.RunUnbans` | main.py:119-191 | The unban calls are the snapshot's users in order, up to and including the step that ends the run. The chat's list loses the users whose unban returned, each by `list.remove`. The file is saved once any user was removed. The status edits follow the run's specification. A run that goes to the end edits the status message into the summary, with the totals and the first 10 failures. A run that ends early sends no reply: the exception leaves the handler, and `UnbanAborted` only marks that case with the number of users reached. |
| `Bot.Ledger.Advance` | main.py:136-173 | One iteration of the loop moves the ledger, the file, the calls, the counters and the edits from the state after `i` users to the state after `i + 1`. A step that ends the run is the first such step. |
| `Bot.Ledger.UnbanStep` | main.py:137-173 | One user's step: it removes and saves exactly when the unban call returned, and reports whether the failure edit raised. |
| `Bot.Ledger.RemoveAndSave` | main.py:143-144 | `list.remove` of the user from the chat's list, then a save of the whole ledger. |

## Left out

- Telegram I/O is not modelled: `get_chat_member`, `ban_chat_member`, `unban_chat_member`, `reply_text` and `edit_text` are inputs. The text of the messages, emoji and Markdown are not modelled; replies and edits are values carrying the numbers and ids they show.
- `asyncio.sleep(1.5)` and the time estimates `int(total_users * 1.5)` are timing and floating point, and are left out.
- File I/O and the `json` library are not modelled. A file that is missing, unreadable or not a JSON object is the input `None`. A value that is not a list of integers is not modelled. Saving always succeeds; the logged and swallowed write error is left out.
- Tracking.RemoveFirst: returns the list unchanged when the value is absent, where `list.remove` raises ValueError. `Unban.StillTracked` shows that the unban loop never reaches that case.
- Codec.DecodeKeys: takes the dict `json.load` returns, whose text keys are distinct (`Codec.DistinctKeys`). A file that repeats a key is merged by `json.load` before the comprehension runs (first place, last value), and that merge is not modelled; on an object with repeated text keys `Codec.Load` can differ from Python. `Codec.DumpDistinctKeys` shows that the bot never writes such a file.
- Codec.ParseInt: does not strip surrounding whitespace and accepts only ASCII digits, where Python's `int()` does both. Argument tokens come split on whitespace, so only non-ASCII digits differ.
- Bot.Ledger.BanUser: does not model a `reply_text` failure after a successful ban. That failure is caught and answered with the ban-failed text, although the ledger was already updated.
- Bot.Ledger.UnbanAll: does not model a failure of the first status message or of the final summary edit. Either raises out of the handler, before the loop or after the ledger work is done.
- Bot.Ledger.AddBanned: builds the new list in a local variable and stores it once. The handler appends to the dict's list in place. No other handler can run in between because the loop has no `await`, so the result is the same.
- Concurrency between handlers that share the dict is not modelled. The program has no locking, so there is nothing to state.
- `main()`, the token check, `/start`'s help text and the error-logging handler are wiring and are not modelled.
