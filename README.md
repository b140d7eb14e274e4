# Learning Polish Bot: progress tracking and daily delivery, in Dafny

This project models the core of a Telegram bot that sends one Polish word
at a time from a fixed catalog. For each user it keeps a record of which
catalog positions were already delivered. It always picks the lowest
position not delivered yet. Once the user has been sent as many positions as
the catalog holds, it clears the user's record and starts over at position 0. Once a day it sends a word
to every user who has notifications on.

The project has six modules:

- `Store` (database.dfy) models the `Database` class. It is a class with two
  map fields, one for each SQLite table. `users` maps a user id to its
  `users` row. `history` maps a user id to its positions from
  `user_word_history`, in the order they were inserted. A user with no entry
  in `history` has no history rows. `Valid()` states two invariants. Each
  flag is 0 or 1. The schema has no CHECK for this; it holds because every
  write is the default 1 or `1 - daily_notifications`. And `UNIQUE(user_id,
  word_id)` holds, so a user's positions are distinct. Every method keeps
  both. `get_next_word_id` is a method
  whose loop is the scan over `range(total_words)`, with the same early return.
- `Selection` (selection.dfy) holds the pure functions that specify the
  store's methods for one user. They cover the next position, the reset on
  exhaustion, and insert-or-ignore recording. It also holds lemmas about
  whole delivery cycles.
- `Bot` (bot.dfy) models `send_next_word` (select, then send, then record)
  and the fault-isolated broadcast loop `send_daily_words` with its success
  count. It also models the progress-message branch and the command
  handlers.
- `Catalog` (catalog.dfy) models the duplicate-headword check and the
  sequential-id check of `check_words.py`.
- `Seqs` and `Wrappers` are helpers: distinctness, the positions `0..n-1`,
  counting arguments, and `Option`/`Result`.

External inputs become parameters:

- Formatting a word's message and sending it (`format_word_message`, then
  `send_message`) is a `bool` that says whether both went through or one of
  them raised. The broadcast takes one such verdict per user, as a function.
- The clock (`datetime.now().isoformat()`) is a `now: string` argument.
- The catalog (`WORDS_DATABASE`) is a `seq<WordEntry>`.

Where the code raises, the model returns a `Result`:

- `WORDS_DATABASE[word_id]` on an empty catalog gives `NoSuchWord`.
- A failed formatting or send gives `TransportFailed`.
- `fetchone()[0]` on a missing row in `toggle_notifications` gives `UnknownUser`.
- The progress percentage for a catalog of 0 words gives `DivisionByZero`.

## Behaviour worth knowing

- `word_command` and `button_callback` register an unknown user themselves
  (main.py:186-187, 260-261). `progress_command` and `restart_command` only
  ask an unknown user to /start (main.py:202-204, 240-242).
- An empty catalog is not rejected. `get_next_word_id` resets the history and
  returns 0, and the lookup at main.py:163 raises. The model keeps the reset.
- Concurrency is not modelled; the model is sequential.

## Model

| member | source | states |
|---|---|---|
| Selection.FirstUnsent | database.py:125-130 | The scan from `from` returns the least position in `from..total-1` that is absent from the history. It returns None exactly when every such position is present. |
| Selection.NextWordId | database.py:116-130 | When the catalog is not empty, the selected position is a valid index into it. |
| Selection.AfterSelect | database.py:118-123 | After selection the history is either unchanged or emptied. With a non-empty catalog it always has room for one more position. |
| Selection.Recorded | database.py:97-109 | Insert-or-ignore under UNIQUE(user_id, word_id). Membership becomes old plus `w` and the old order is kept as a prefix. The record grows by one exactly when `w` is new, and distinctness is kept. |
| Selection.LeastUnsent | database.py:116-130 | With distinct positions and fewer than `total` of them, the scan finds a gap, so the fallback `return 0` is unreachable. The result lies in `0..total-1`, is unsent, and every lower position was sent. |
| Selection.RecordIdempotent | database.py:103-106 | Recording the same pair a second time adds nothing. |
| Selection.SelectionIsStable | database.py:116-130 | Selecting again without recording returns the same position, including right after a reset. |
| Selection.Deliver | main.py:160-176 | A successful delivery records the selected position. Before exhaustion the old history stays as a prefix, growing by at most one. After exhaustion the new cycle holds that position alone. |
| Selection.DeliverAppends | main.py:160-176 | Before exhaustion, a successful delivery appends exactly the selected position, which is new. |
| Selection.DeliverKeepsInCatalog | main.py:160-176 | Deliveries keep a user's history a set of distinct catalog positions, so it never exceeds the catalog size. |
| Selection.NextAfterPrefix | database.py:126-128 | When exactly positions `0..k-1` were sent, the next position is `k`. |
| Selection.FirstCycle | main.py:157-178 | During the first cycle, the history after `k` successful deliveries is `0..k-1` in order. |
| Selection.DeliveryOrder | main.py:157-178 | A fresh user's delivery `k` is position `k` during the first cycle, and position 0 right after it. |
| Selection.CycleRestarts | database.py:120-123 | After a full cycle, the next delivery resets and leaves the history `[0]`. |
| Selection.ThreeWordCatalog | main.py:157-178 | With three words the deliveries are 0, 1, 2, then 0 again, leaving a history of size 1. |
| Store.Toggled | database.py:146-150 | `1 - daily_notifications` flips a 0/1 flag and changes no other column. |
| Store.ToggleTwice | database.py:146-150 | Two toggles restore the row. |
| Store.Database.constructor | database.py:20-49 | Freshly created tables are empty and satisfy `Valid()`. |
| Store.Database.AddUser | database.py:51-63 | Insert-or-ignore. The result is true iff the id was absent. A new row has flag 1, the given username and creation time, and the default timezone. An existing row is untouched, and history never changes. |
| Store.Database.UserExists | database.py:70-79 | True iff the user has a row. |
| Store.Database.GetUserSentWords | database.py:81-95 | Returns the user's recorded positions, oldest first and distinct. |
| Store.Database.AddWordToHistory | database.py:97-109 | Only the user's history changes, to insert-or-ignore of the position. It returns true. |
| Store.Database.ResetUserProgress | database.py:132-139 | Empties the user's history. Users and every other history are unchanged. |
| Store.Database.GetNextWordId | database.py:116-130 | The result is the selection rule applied to the history before the call. The history is deleted exactly when the count reached `total`, and nothing else changes. |
| Store.Database.ToggleNotifications | database.py:141-158 | For a known user it flips the flag and returns the new state, true iff the old flag was 0. For an unknown id it fails and changes nothing. |
| Store.Database.GetNotificationsEnabled | database.py:160-169 | Returns the flag of a known user, and true for an unknown user. |
| Store.Database.GetAllUsersWithNotifications | database.py:171-180 | Returns exactly the users whose flag is 1, each once. |
| Store.Database.GetUserProgress | database.py:182-190 | `words_learned` is the history's length and `total_words` is passed through. A catalog of 0 words fails. |
| Bot.FailedSendIsRetried | main.py:168-176 | After a failed send, the next attempt selects the same position. Before exhaustion the history is exactly as before. |
| Bot.AttemptEffect | main.py:160-176 | The history effect of one attempt (`AfterAttempt`). The selected position is recorded when formatting and sending go through. It is not recorded when they fail. Before exhaustion the old history stays as a prefix. After exhaustion at most one position remains. |
| Bot.AttemptKeepsInCatalog | main.py:157-178 | Any attempt keeps the history distinct, within the catalog, and at most the catalog size. |
| Bot.SendNextWord | main.py:157-178 | Only the user's history changes. It is reset on exhaustion and then recorded only if the send went through. An empty catalog or a failed send yields the matching error. Otherwise the result is the headword at the selected position. |
| Bot.TryDeliver | main.py:295-299 | One attempt with its exception caught. It reports success iff the word was delivered, and changes only that user's history. |
| Bot.Successes | main.py:292-297 | The number of successful attempts never exceeds the number of users. |
| Bot.SuccessesStep | main.py:296-297 | Counting one more attempt adds one exactly when it delivers. |
| Bot.AllDelivered | main.py:292-301 | When every send succeeds, the count equals the number of users. |
| Bot.OneFailure | main.py:292-301 | With one failing user among distinct users, the count is one short. |
| Bot.BroadcastStep | main.py:294-299 | Each attempt leaves earlier users' results and later users' histories intact. |
| Bot.BroadcastDone | main.py:292-299 | After the last attempt, every attempted user's history is one attempt's result and every other history is unchanged. |
| Bot.SendDailyWords | main.py:287-301 | Attempts every opted-in user, each once. Every attempted user's history is one attempt's result and all other histories are unchanged. `success_count` is the number of deliveries, at most the number of users. |
| Bot.Classify | main.py:214-220 | Exactly one branch applies. "Not started" iff learned is 0, "completed" iff learned is not 0 and equals the total. Otherwise the remaining count is total minus learned, and it is positive when learned is within the total. |
| Bot.ProgressOfFirstCycle | main.py:214-220 | For a fresh user after `k` first-cycle deliveries, the message is not started, `total - k` remaining, or completed. |
| Bot.ProgressCommand | main.py:198-220 | An unknown user is asked to /start. A catalog of 0 words fails. Otherwise it reports the history's length, the total and its classification. |
| Bot.RestartCommand | main.py:236-244 | A known user's history is deleted. An unknown user changes nothing. |
| Bot.EnsureRegistered | main.py:185-187 | Afterwards the user exists. An existing row is untouched, a new one is the default row, and history is unchanged. |
| Bot.WordCommand | main.py:181-189 | Registers the user if needed, then delivers. The user exists, and the history follows the delivery rule. |
| Bot.ButtonCallback | main.py:253-284 | Registers the user if needed, then dispatches on the callback data. Apart from the registration, only the toggle changes the users table. The toggle never fails and returns the new state. The get-word button delivers exactly like `/word`: the same word, the same effect on this user's history, and no other history touched. The other buttons change no history. Unknown data is ignored. |
| Catalog.WordTexts | check_words.py:18 | The headwords in catalog order. |
| Catalog.Ids | check_words.py:27 | The ids in catalog order. |
| Catalog.FirstOccurrences | check_words.py:19 | The Counter's keys are each distinct headword, once. |
| Catalog.KeepRepeated | check_words.py:19 | Keeps exactly the keys counted more than once, without repeats. |
| Catalog.Duplicates | check_words.py:18-19 | A headword is reported iff it occurs more than once, and each reported headword appears once. |
| Catalog.NoDuplicatesIffDistinct | check_words.py:19-24 | No duplicates are reported iff all headwords are distinct. |
| Catalog.IdsSequentialIff | check_words.py:27-28 | The check `IdsSequential` (the ids equal `list(range(len(words)))`) passes iff every record's id equals its position. When it passes, no id repeats. |
| Catalog.LookupByPosition | check_words.py:27-31 | With sequential ids, the record at a position has that position as its id, which the lookup at main.py:163 relies on. |

## Left out

- Telegram I/O is reduced to whether each `send_message` returned or raised: `reply_text`, keyboards and the message texts (welcome, help, status lines) are presentation.
- `format_word_message` (main.py:55-75) builds the message text, which is not modelled. Its only effect that matters, raising a `KeyError` for a record without `translation` or `description` (main.py:63-64), is folded into the delivery verdict: the position is then left unrecorded, as after a failed send.
- `start_command` (main.py:93-125) is `add_user` followed by a choice of welcome text. `AddUser` states its effect.
- The scheduler (APScheduler `CronTrigger`, 09:00 `Europe/Warsaw`, daylight-saving handling) is wall-clock time in a foreign library. The model starts at one firing, `SendDailyWords`.
- The `percentage` of `get_user_progress` (database.py:189) is a floating-point `round`. Only its division by zero is kept.
- Timestamps (`created_at`, `sent_at`) are opaque strings or absent. A history is kept in insertion order, which stands in for `ORDER BY sent_at`. `sent_at` ties within one clock tick are not modelled.
- Store I/O failures (the `except Exception` paths of `add_user` and `add_word_to_history`, SQLite errors elsewhere) are not modelled. Every store call is assumed to reach the database.
- Concurrency: the handlers and the daily job (an `AsyncIOScheduler` job, main.py:326) run as coroutines on one event loop. They interleave at the `await context.bot.send_message` (main.py:169-173), which sits between the selection (main.py:160) and the recording (main.py:176). While one delivery awaits its send, another delivery for the same user (a `/word`, a button, or the daily job) can select the same position. The model is sequential and does not capture this interleaving.
- `Store.Database.GetAllUsersWithNotifications`: the rows come back in SQLite's scan order. The model promises only the set of ids and no repeats, not their order.
- JSON loading, `dotenv`, the environment check in test_bot.py, the random preview and the statistics printed by check_words.py are left out.
