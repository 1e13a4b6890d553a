# hh.ru vacancies bot — a verified model of its core

The bot watches hh.ru for data-analyst vacancies, stores them in PostgreSQL
and tells Telegram subscribers about new ones. This project models its core
in Dafny:

- **The hh.ru client** (`services/hh_parser.py`, module `HhParser`). It runs
  the paged id search with its deduplication and turns one raw vacancy into
  the record the bot stores.
- **The store** (`database/database.py`, `database/queries.py`, module `Store`).
  It holds the `users` and `vacancies_hh` tables and every statement the bot
  runs against them. The connection pool is the field `pool` of the
  `Database` class:
  - `NoPool` before `connect`;
  - `Open` once connected;
  - `Lost` after the server dropped the connections.
- **The sync step** (module `Sync`). `update_vacancies_from_api` and
  `start_parsing` share it: read the watermark, fetch the ids, filter them
  against the stored ids. The filter as written compares hh.ru's string ids
  with the table's int ids and so drops none (see "## Findings"); the sync
  step runs the filter as intended, which drops the ids already stored.
- **The notifier** (`services/notifier.py`, module `Notifier`). Its polling
  loop decides who is due. It syncs, sends the vacancies published after the
  subscriber's checkpoint, and moves the checkpoint on.
- **The chat handlers** (`handlers/other_handlers.py`,
  `handlers/user_handlers.py`, module `Handlers`):
  - `начать` syncs on demand and reports what it added;
  - `да` shows the ten latest vacancies;
  - `/subscribe`, `/unsubscribe`, `/status` and `/set_interval` manage the
    subscriber's row.

Objects the source mutates are classes: `Database`, `VacancyNotifier`, `Bot`,
`Clock`, the chat `Conversation` and the handler `Router`. Their methods carry
`modifies` clauses and state the new state of what they change; the polling
loop's methods state less, as "## Left out" lists. Each loop of the source is a
method with invariants, proved against a specification function:
`SyncedRows`, `Kept`, `UntilFailure`, `ChunkReplies`, `InsertAll`. The pure
normalisers are functions. Python values (`None`, `str`, `dict`, ...) are the
datatype `PyValues.Value`. Exceptions are the `Failure` values of a `Result`.

Supporting modules:
- `Wrappers` holds `Option` and `Result`.
- `Time` holds datetimes and the clock.
- `Text` holds `str.split`, `str.join`, `int()`, `str()` and chunking.

## Model

| member | source | states |
|---|---|---|
| Time.Utc | services/notifier.py:31 | `datetime.now(timezone.utc)` is an aware value denoting exactly the clock reading |
| Time.AsUtc | services/notifier.py:28-29 | a naive value becomes aware with its wall-clock reading kept (taken as UTC); an aware value is unchanged |
| Time.DueFromCheckpoint | services/notifier.py:27-33 | a subscriber is due iff now is at least `60 * interval` seconds after the checkpoint, for naive and aware checkpoints alike |
| Time.DueStaysDue | services/notifier.py:33 | once due, a subscriber stays due as the clock advances, so the second test in `check_and_notify` agrees with the loop's test |
| Time.Clock.Now | services/notifier.py:31 | the clock never goes backwards |
| Text.Split | services/hh_parser.py:64 | `s.split(c)` has one more piece than `s` has occurrences of `c`, and no piece contains `c` |
| Text.JoinSplit | services/hh_parser.py:64-69 | splitting key skills on `,` and joining with `, ` replaces each comma by `, ` |
| Text.ReplaceByItself | services/hh_parser.py:64-69 | replacing a character by itself is the identity |
| Text.JoinAfterSplit | services/hh_parser.py:64-69 | round trip: joining the pieces of a split with the separator gives back the string |
| Text.SplitWithoutSeparator | services/hh_parser.py:64 | a string without the separator splits into itself alone |
| Text.SplitCons | services/hh_parser.py:64 | splitting `p + c + t` gives `p` followed by the pieces of `t` |
| Text.SplitAfterJoin | services/hh_parser.py:64-69 | round trip: splitting a join of separator-free pieces gives back the pieces |
| Text.Chunks | handlers/other_handlers.py:60-61 | `[xs[i:i+5] for i in range(0, len(xs), 5)]` has ceil(n/5) chunks, each non-empty and at most 5 long, all but the last exactly 5 |
| Text.FlattenChunks | handlers/other_handlers.py:60-61 | the chunks concatenated in order are the original list: nothing is lost, repeated or reordered |
| Text.JoinEach | handlers/other_handlers.py:61 | one message per chunk, each the chunk joined with the separator |
| Text.NatToString | handlers/user_handlers.py:53 | `str(n)` of a natural number consists of digits only |
| Text.DigitsOfNat | handlers/user_handlers.py:47 | reading back the decimal digits of `n` gives `n` |
| Text.ParseIntOfIntToString | handlers/user_handlers.py:47 | round trip `int(str(i)) == i` for every integer |
| Text.TrimEnd | handlers/user_handlers.py:47 | the result is a prefix of `s`; only blanks are cut, and it does not end in a blank |
| Text.LastRun | handlers/user_handlers.py:47 | the longest blank-free suffix: a suffix, without blanks, preceded by a blank or the start |
| Text.LastWord | handlers/user_handlers.py:47 | `s.split()[-1]` is absent iff `s` is all blanks; otherwise it is a non-empty blank-free word ending the trimmed text |
| Text.LastRunSnoc | handlers/user_handlers.py:47 | a non-blank character extends the last run |
| Text.LastRunAfterBlank | handlers/user_handlers.py:47 | after a blank or at the start, the last run is the blank-free text that follows |
| Text.LastWordAfterBlank | handlers/user_handlers.py:47 | `(prefix + " " + w).split()[-1] == w` for a blank-free non-empty `w` |
| PyValues.Get | services/hh_parser.py:99-109 | `d.get(k)` is the value under `k`, or `None` when absent |
| PyValues.GetOr | database/database.py:111-117 | `d.get(k, default)` is the value under `k`, or the default when absent |
| PyValues.Subscript | database/database.py:101-102 | `v[k]` succeeds iff `v` is a dict holding `k`; a dict without `k` raises `KeyError`, any other value `TypeError` |
| PyValues.SubscriptAll | services/hh_parser.py:41 | `[v[k] for v in vs]` succeeds iff every subscript does, position by position |
| PyValues.Strings | services/hh_parser.py:69 | `str.join` accepts its items iff every one is a `str`, and then joins exactly those strings |
| PyValues.ItemsForLookup | services/hh_parser.py:62 | iterating for `x['name']` yields a list's items; only empty strings and dicts also yield nothing without raising |
| PyValues.PyInt | database/database.py:101 | `int(v)` of an int is itself; of a str it succeeds iff the text parses, with that value; `None`, lists, dicts and datetimes raise `TypeError` |
| HhParser.ExperienceCategory | services/hh_parser.py:73-81 | the category lies in 0..3; a non-zero one comes only from the four known labels; an unhashable label raises |
| HhParser.KeySkills | services/hh_parser.py:60-69 | a string has its commas replaced by `, `; a list gives its `name`s joined, or raises where an item has none; anything else or an empty list gives the placeholder |
| HhParser.KeySkillsOfNames | services/hh_parser.py:60-69 | a non-empty list of skill objects with string names becomes those names joined by `, ` |
| HhParser.PublishedAt | services/hh_parser.py:83-96 | a falsy value stays `None`; a parsed timestamp is kept (a naive one tagged UTC); an unparsable one becomes the current time |
| HhParser.NestedName | services/hh_parser.py:101-108 | a falsy field gives `None`; a dict gives its `name`; any other truthy value raises `AttributeError` |
| HhParser.ObjectOrEmpty | services/hh_parser.py:71-80 | `(v or {})` is `{}` for a falsy value and the dict itself for a dict; anything else fails at `.get` |
| HhParser.ProfessionalRole | services/hh_parser.py:111 | no roles gives `None`; a list of roles succeeds iff every role has a string `name` (else the subscript's error), and a result comes only from a list or an empty value |
| HhParser.ProfessionalRoleOfNames | services/hh_parser.py:111 | roles with string names give those names joined by `, `, or `None` when the join is empty |
| HhParser.Description | services/hh_parser.py:55-58 | a falsy description is kept as it is, a missing one is the placeholder; a truthy string becomes its HTML-stripped text; any other truthy value raises |
| HhParser.ReadFields | services/hh_parser.py:55-114 | each field is what its normaliser gives for the raw object: description, role, skills, timestamp, the schedule, area, employer and type names, the salary dict's bounds and the experience label with its category; no salary means no bounds; no experience means the no-experience label with category 0 |
| HhParser.Graded | services/hh_parser.py:98-126 | the vacancy dict has exactly the documented keys, each holding its normalised field, plus the grade |
| HhParser.ScheduleFeature | services/hh_parser.py:116-130 | the predictors see the placeholder when the schedule is missing |
| HhParser.WithPrediction | services/hh_parser.py:138-140 | `predicted_salary` is added iff there is a prediction, as an int; every other key is kept |
| HhParser.ProcessVacancy | services/hh_parser.py:54-142 | a non-dict raises `AttributeError`; the result has exactly the vacancy keys, plus `predicted_salary` iff `salary_from` is `None`; the grade is a string; id, name, skills, experience and timestamp are those of the raw object; schedule, city, employer and type are the nested names, role and description their normalisers' values, and the salary bounds those of the salary dict |
| HhParser.PageIds | services/hh_parser.py:41 | a non-dict body raises `AttributeError`; a body without `items` gives no ids; a list of items gives their `id`s in order, and fails iff some item has none |
| HhParser.SearchFailureSticks | services/hh_parser.py:22-45 | once a page raises, the whole search fails with that error |
| HhParser.RejectedPagesAddNothing | services/hh_parser.py:36-38 | pages answered with a status other than 200 add no ids |
| HhParser.Deduplicate | services/hh_parser.py:47 | `list(set(ids))` succeeds iff every id is hashable, and then holds each id exactly once |
| HhParser.FetchHhIds | services/hh_parser.py:19-47 | a failing page fails the call; otherwise the result holds each id of the searched pages exactly once, or `TypeError` when one is unhashable; the date is tagged UTC first (`hh_datetime`, lines 13-16) |
| Store.UserRecord.LastCheck | database/database.py:34 | `last_check` comes back as a naive datetime holding the stored reading |
| Store.StampOf | database/database.py:114 | a NULL timestamp reads back as `None`, a stored one as a naive datetime with that reading |
| Store.RowDict | database/database.py:70-73 | a row read back has exactly the table's columns, each holding the row's value |
| Store.PublishedColumn | database/database.py:114 | `None` is stored as NULL; a datetime as the UTC instant it denotes (naive taken as UTC); anything else is refused |
| Store.ToRow | database/database.py:97-118 | a missing `id` or `vacancy_name` raises `KeyError` and a bad id raises what `int()` raises; a stored id is `int(vacancy['id'])` within BIGINT, or `DataError`; the other columns are the `.get` values with their defaults |
| Store.Subscribed | database/database.py:120-129 | `add_user`: the chat's row exists afterwards with checkpoint now; a new row gets interval 60, an existing one keeps its interval; other rows are unchanged |
| Store.WithInterval | database/database.py:39-46 | `update_user_settings`: the chat's interval is set; an existing row keeps its checkpoint, a new one starts now; other rows are unchanged |
| Store.WithCheckpoint | services/notifier.py:127-132 | `UPDATE users SET last_check`: only the chat's checkpoint changes, and a missing chat changes nothing |
| Store.InsertIfAbsent | database/queries.py:3-10 | `ON CONFLICT (id) DO NOTHING`: a new id gets the row; an existing id keeps its old row |
| Store.InsertIdempotent | database/queries.py:9 | inserting the same row twice is inserting it once |
| Store.InsertKeepsKeyed | database/queries.py:3-10 | every row stays stored under its own id |
| Store.InsertAll | services/notifier.py:53-56 | a batch of inserts keeps every old row and leaves every inserted id present |
| Store.InsertAllSnoc | services/notifier.py:53-56 | one more insert after a batch extends the batch by that row |
| Store.InsertAllOnlyInserts | services/notifier.py:53-56 | a batch adds no id it was not given |
| Store.InsertAllIdempotent | database/queries.py:9 | replaying a batch of inserts changes nothing |
| Store.InsertAllKeepsPresent | database/queries.py:9 | inserting rows whose ids are all stored changes nothing |
| Store.InsertAllKeepsKeyed | database/queries.py:3-10 | a batch keeps every row under its own id |
| Store.NoLaterTotal | database/database.py:70-71 | `ORDER BY published_at DESC` (NULLs first) is total and transitive |
| Store.Published | database/database.py:84 | every non-NULL stored `published_at` is among the values `MAX` ranges over |
| Store.Database.constructor | database/database.py:10-12 | a fresh `Database` has no pool and sees the tables as they are |
| Store.Database.PoolFailure | database/database.py:12 | no pool raises `AttributeError` at `self.pool.acquire()`, lost connections `ConnectionLost`, an open pool nothing |
| Store.Database.Connect | database/database.py:14-26 | succeeds iff the server is reachable, then with a new open pool; the tables are unchanged |
| Store.Database.AddUser | database/database.py:120-129 | succeeds iff the pool is open, then `users` becomes `Subscribed`; on failure nothing changes |
| Store.Database.UpdateUserSettings | database/database.py:39-46 | succeeds iff the pool is open and the interval fits `INT` (else `DataError`), then `users` becomes `WithInterval` |
| Store.Database.UnsubscribeUser | database/database.py:131-136 | succeeds iff the pool is open, then exactly that chat's row is gone |
| Store.Database.SetLastCheck | services/notifier.py:127-132 | succeeds iff the pool is open, then `users` becomes `WithCheckpoint` |
| Store.Database.GetUser | database/database.py:138-143 | on an open pool, `None` iff the chat has no row, else its row |
| Store.Database.GetAllUsers | database/database.py:49-51 | on an open pool, exactly the stored users, each once |
| Store.Database.GetExistingIds | database/database.py:75-78 | on an open pool, exactly the stored ids (`GET_EXISTING_IDS`, queries.py line 1) |
| Store.Database.GetNewVacancies | database/database.py:54-59 | on an open pool, exactly the stored rows published strictly after the given time, each once |
| Store.Database.PickLatest | database/database.py:70-71 | the chosen id sorts first under `published_at DESC` among those left |
| Store.Database.GetRecentVacancies | database/database.py:62-73 | at most `limit` stored rows, each once, newest first; fewer only when the table runs out; no row left out is newer than a returned one; a negative limit is an error |
| Store.Database.MaxPublished | database/database.py:83-85 | `MAX(published_at)` is `None` iff no row has a timestamp, else the greatest one |
| Store.Database.GetLastPublishedTime | database/database.py:80-94 | no pool raises; lost connections or an empty table give now (UTC); otherwise the newest stored timestamp, tagged UTC |
| Store.Database.InsertVacancy | database/database.py:97-118 | succeeds iff the pool is open and the row converts, and then inserts it if absent; otherwise the table is unchanged and the error is the one raised first |
| Sync.IdsToProcessAsWritten | services/notifier.py:51 | the filter as written keeps exactly the ids not `==` to a stored int |
| Sync.IdsToProcess | services/notifier.py:51 | the intended filter keeps exactly the ids whose vacancy is not stored, in order, as a subsequence, and distinct ids stay distinct |
| Sync.AsWrittenKeepsStringIds | services/notifier.py:51 | the filter as written keeps every string id, stored or not |
| Sync.StoredIdRefetched | handlers/other_handlers.py:26 | id "1" stored as row 1 passes the written filter and is dropped by the intended one |
| Sync.Prepared | services/notifier.py:54-56 | `fetch_vacancy`, `process_vacancy`, then the row `insert_vacancy` binds: a failed fetch propagates and a non-dict raises `AttributeError`; the row carries the raw `id` as an int, the raw `name`, a timestamp iff the raw one is truthy, and either a lower salary bound or an estimate, never both (the fetch is `fetch_vacancy`, hh_parser.py lines 49-52) |
| Sync.SyncedRows | services/notifier.py:53-56 | a successful run of the loop yields one row per id |
| Sync.SyncedRowsSnoc | services/notifier.py:53-56 | one more successful id adds its row at the end |
| Sync.SyncedRowsAt | services/notifier.py:53-56 | each row is the one its id, processed at its clock reading, yields |
| Sync.FindCandidates | services/notifier.py:45-51 | the watermark is the newest stored timestamp (UTC), or now when there is none or the connection is lost; failures come in the source's order: no pool, the search, an unhashable id, the lost connection; otherwise the candidates are exactly the ids found that are not stored yet, each once |
| Sync.Kept | handlers/other_handlers.py:28-37 | the loop that skips failures keeps at most one result per id |
| Sync.KeptSnoc | handlers/other_handlers.py:29-37 | one more id adds its result iff its step succeeds |
| Sync.KeptAll | handlers/other_handlers.py:29-37 | when every step succeeds, every result is kept, position by position |
| Sync.KeptNone | handlers/other_handlers.py:29-37 | when every step fails, nothing is kept |
| Notifier.CardOf | services/notifier.py:105-120 | a message exists iff `vacancy_name` is present (else `KeyError`); a truthy lower bound shows the range, otherwise the estimate; missing employer, city, grade and url show their placeholders |
| Notifier.FormatVacancy | services/notifier.py:105-120 | `format_vacancy` succeeds exactly when the card can be built |
| Notifier.RenderShowsName | services/notifier.py:114 | every message opens with the name in bold on a line of its own |
| Notifier.FormatShowsName | services/notifier.py:114 | a formatted vacancy opens with its own `vacancy_name` in bold |
| Notifier.FormatRow | services/notifier.py:105-120 | a row read back always formats and shows its own employer, city, grade, url and salary |
| Notifier.FormatProcessed | services/notifier.py:107-110 | a freshly processed vacancy fails to format iff its lower bound is present but falsy |
| Notifier.FormatAll | services/notifier.py:97-98 | all vacancies format iff each one does, position by position |
| Notifier.UntilFailure | services/notifier.py:97-98 | formatting in order stops early exactly when it reports a failure |
| Notifier.UntilFailureSpec | services/notifier.py:97-98 | the messages are those of the leading vacancies, and the cut-off is the first failing one, with its error |
| Notifier.UntilFailureAll | services/notifier.py:97-98 | when all vacancies format, nothing is cut off |
| Notifier.RowDicts | database/database.py:56-58 | rows become the dicts the formatter reads, one per row |
| Notifier.FormatAllRows | services/notifier.py:90-91 | the rows read back from the table all format |
| Notifier.Deliveries | services/notifier.py:97-100 | one `send_message` per text, in order, to the same chat |
| Notifier.DeliveriesStep | services/notifier.py:97-100 | sending the next text extends the deliveries by one |
| Notifier.Bot.SendMessage | services/notifier.py:100 | every call is recorded, in order, whether or not it raises |
| Notifier.VacancyNotifier.constructor | services/notifier.py:12-15 | a new notifier is running |
| Notifier.VacancyNotifier.UpdateVacanciesFromApi | services/notifier.py:43-59 | the candidates are those `FindCandidates` finds from the watermark, and a failure there ends the sync with nothing stored; otherwise the stored rows are the candidates' prepared rows, in order, up to the first candidate that fails, whose error is reported; the table gains exactly those rows; users and pool are unchanged |
| Notifier.VacancyNotifier.SyncAll | services/notifier.py:53-56 | the stored rows are `SyncedRows` of the leading candidates; the batch is complete iff nothing failed, and over an open pool it stops at the first candidate whose prepared row fails, with that error; nothing is stored without an open pool |
| Notifier.VacancyNotifier.SyncOne | services/notifier.py:54-56 | over an open pool the result is the id's prepared row at this reading, inserted on success; without one it fails, with the pool's error unless an earlier step failed; a failure changes nothing |
| Notifier.VacancyNotifier.SendVacancies | services/notifier.py:96-103 | sends the messages of the leading vacancies in order; a failed send is swallowed, a failed format ends the loop with its error |
| Notifier.VacancyNotifier.SendOne | services/notifier.py:97-103 | one iteration: format vacancy `i`, then send it or report the failure |
| Notifier.VacancyNotifier.UpdateLastCheck | services/notifier.py:122-142 | the intended handler: writes the checkpoint on an open pool; on lost connections reconnects once and writes if the server is reachable, leaving the pool open again; the pool is otherwise unchanged |
| Notifier.VacancyNotifier.UpdateLastCheckAsWritten | services/notifier.py:122-142 | as written: any failure of the write raises `NameError`, and nothing is written |
| Notifier.VacancyNotifier.CheckAndNotify | services/notifier.py:61-94 | not due iff the interval has not elapsed, then nothing changes; a due subscriber is notified iff the pool is open, even with no new rows or a failed sync, and otherwise the cycle fails with the pool's error and sends nothing; when notified, the rows are exactly those published after the checkpoint, they all format and are sent in order, and the checkpoint moves to the cycle's start; stored rows are never changed |
| Notifier.VacancyNotifier.NotifyNew | services/notifier.py:86-92 | after the sync: notified iff the pool is open, else failed with the pool's error and nothing sent or written; when notified, the rows are exactly those published after the checkpoint, all sent in order, and the checkpoint moves to the cycle's start; the stored rows are unchanged |
| Notifier.VacancyNotifier.RunPass | services/notifier.py:20-36 | over an open pool every stored subscriber is read, once, and otherwise none; one decision per subscriber read and no cycle fails; a notified subscriber keeps its cycle's reading as checkpoint and one not due is unchanged; no subscriber is added or removed, intervals are kept and checkpoints never move back |
| Notifier.VacancyNotifier.VisitAll | services/notifier.py:22-36 | the loop of a pass keeps `PassSoFar`: each cycle decided by its subscriber's due test, none failed, notified checkpoints at their cycle's reading, the rest of the table untouched |
| Notifier.PassStep | services/notifier.py:22-36 | visiting one more subscriber keeps `PassSoFar`: a notifying cycle moves only its own subscriber's checkpoint, to a reading at which it was due |
| Notifier.VacancyNotifier.Visit | services/notifier.py:22-36 | only a due subscriber is checked, and a due one is notified iff the pool is open; only a notified one has its checkpoint moved; one not due changes no row and gets no message |
| Notifier.VacancyNotifier.Start | services/notifier.py:17-41 | across passes, subscribers, intervals, stored rows and the pool persist, and checkpoints never move back |
| Notifier.LostConnectionAsWritten | services/notifier.py:133-136 | after lost connections, the written handler raises `NameError`, never reconnects and leaves the checkpoint |
| Notifier.LostConnectionRecovered | services/notifier.py:133-142 | the intended handler reconnects once and writes the checkpoint |
| Handlers.Conversation.Answer | handlers/other_handlers.py:17 | `message.answer` appends its text to the chat |
| Handlers.ChunkRepliesJoinChunks | handlers/other_handlers.py:60-61 | the chunked replies are the chunks of five, each joined with the separator |
| Handlers.AnswerInChunks | handlers/other_handlers.py:60-61 | the chat gains exactly the chunked replies, in order |
| Handlers.ParseInterval | handlers/user_handlers.py:47-48 | unreadable iff there is no last word or it is not an integer; otherwise the number read, too short iff below 5 |
| Handlers.IntToStringIsWord | handlers/user_handlers.py:47 | decimal text is a non-empty word without blanks |
| Handlers.ParseIntervalOfCommand | handlers/user_handlers.py:47-48 | `/set_interval n` reads back `n`, too short iff `n < 5` |
| Handlers.ParseIntervalOfBareWord | handlers/user_handlers.py:47 | a message that is one word not starting like a number, such as the bare command, is unreadable |
| Handlers.KeepStep | handlers/other_handlers.py:29-37 | one more candidate keeps the loop invariant: kept pairs and table both extend by its result |
| Handlers.Router.constructor | handlers/other_handlers.py:16 | the handlers see the dispatcher's database |
| Handlers.Router.StartParsing | handlers/other_handlers.py:15-66 | greets first; the candidates are those `FindCandidates` finds, and it aborts, with the greeting as the only reply, exactly when finding them fails; otherwise the kept pairs are the successful ones, the table gains their rows, and the replies follow |
| Handlers.Router.ReplyParsed | handlers/other_handlers.py:40-63 | nothing kept means "nothing new"; otherwise the count, then the kept vacancies' messages five to a reply |
| Handlers.Router.AdmitAll | handlers/other_handlers.py:28-37 | kept pairs are `Kept` of the candidates, and the table is the old one plus their rows |
| Handlers.Router.AdmitOne | handlers/other_handlers.py:31-34 | one iteration: a success inserts the row, a failure changes nothing |
| Handlers.Router.Cards | handlers/other_handlers.py:42-57 | all messages iff every vacancy formats; otherwise the first failure |
| Handlers.Router.CardAt | handlers/other_handlers.py:43-57 | one iteration: the message of vacancy `i`, or the failure that ends the loop |
| Handlers.Router.RowCardsFormat | handlers/other_handlers.py:79-93 | rows read back all format, so `да` is never cut short |
| Handlers.Router.ProcessYesAnswer | handlers/other_handlers.py:68-99 | at most ten stored rows, each once, newest first, none left out newer than one shown, all rows when fewer; none answers "not found"; else their messages five to a reply; a database failure sends nothing |
| Handlers.Router.Subscribe | handlers/user_handlers.py:18-22 | on success the chat is subscribed and confirmed; on failure nothing is sent |
| Handlers.Router.Unsubscribe | handlers/user_handlers.py:25-29 | on success exactly that chat is removed and confirmed |
| Handlers.Router.Status | handlers/user_handlers.py:32-42 | a subscriber sees its interval and last check; anyone else is told they are not subscribed |
| Handlers.Router.SetInterval | handlers/user_handlers.py:44-55 | unreadable gives the usage text; below 5 is refused; otherwise saved and confirmed iff the pool is open and the value fits `INT`, else the usage text |

## Left out

- HTTP, Telegram and PostgreSQL are not run. The search, `fetch_vacancy` and
  `send_message` are collaborators passed in as functions. The tables are
  maps inside `Database`.
- `asyncio.sleep`, task concurrency and the ten-connection pool are not
  modelled. Every call runs to completion before the next one starts.
- BeautifulSoup (`stripHtml`), `datetime.fromisoformat` (`parseIso`), the two
  CatBoost predictors and `round(..., -2)` are collaborators given as
  parameters. `models/ml_models.py` is not part of this model.
- `hh_datetime`'s ISO text and `str()` of a list, dict or datetime inside a
  message are not modelled as text. `PyValues.Show` renders them as
  placeholders.
- `int()` accepting underscores, surrounding blanks or non-ASCII digits is
  not modelled. `ParseInt` reads an optional sign followed by ASCII digits.
- Column types beyond `BIGINT` ids and the `INT` interval are not checked.
- Store.Database.SetLastCheck: assumes the `TIMESTAMP` column `last_check`
  accepts the timezone-aware checkpoint `check_and_notify` binds to it. A
  driver that refuses aware values for `TIMESTAMP` would fail every
  checkpoint write, which the model does not capture.
- The session time zone is taken as UTC, so `NOW()` and naive timestamps are
  UTC wall-clock seconds.
- Chat ids are assumed to be within `BIGINT` range.
- `create_users_table` is left out. Its defaults, interval 60 and
  `last_check NOW()`, are used by `Store.Subscribed`.
- The server drops connections only between calls. `Database.DropConnections`
  marks the pool `Lost`, so a statement never fails halfway.
- `message.answer` never fails.
- The Moscow-time display in `/status` is the parameter `showMoscow`.
- Notifier.VacancyNotifier.Start: runs a given number of passes. The source
  loops while `is_running`, which nothing clears.
- A `Bool` id and the int it equals hash alike in Python's `set`; `Deduplicate`
  treats them as distinct values.
- `lexicon/lexicon.py` is not part of this model. The greeting of `начать` is
  a parameter of `StartParsing`.
- The `/start`, `/help`, `нет` and fallback handlers are left out. Each only
  sends a lexicon text.
- Logging is left out.
- Handlers.Router.StartParsing: does not state that each clock reading lies
  between the readings before and after the loop.
- Sync.FindCandidates: runs the id filter as intended (`Sync.IdsToProcess`),
  not as written (`Sync.IdsToProcessAsWritten`, which keeps every id). So the
  model does not refetch stored vacancies.
- Notifier.VacancyNotifier.UpdateVacanciesFromApi: through `FindCandidates`,
  does not model a failing refetch of a stored vacancy ending the batch
  before the new ids are reached.
- Handlers.Router.StartParsing: through `FindCandidates`, does not model
  stored vacancies being announced again and counted in "Добавлено".
- Notifier.VacancyNotifier.CheckAndNotify: states that the stored rows are
  kept, not which rows the sync adds; `UpdateVacanciesFromApi` states those.
- Notifier.VacancyNotifier.Visit: does not repeat the rows and messages of a
  notified cycle; `CheckAndNotify` states them.
- Notifier.VacancyNotifier.RunPass: states each subscriber's checkpoint, not
  the rows a pass adds or the messages it sends.
- Notifier.VacancyNotifier.Start: states what persists across passes, not the
  outcome of each pass; `RunPass` states that.
- `start_parsing` and `process_yes_answer` format vacancies inline with the
  same f-string as `format_vacancy`. Both are modelled by
  `Notifier.FormatVacancy`.
- The "Добавлено" reply counts the candidates, not the vacancies kept, as the
  code does.
- `get_recent_vacancies` raises `ConnectionError` when `not self.pool`. That
  branch is unreachable: an unassigned pool raises `AttributeError` first,
  and an assigned pool is truthy.

## Findings

| source | as written | input that shows it | evidently intended | confidence | as-written member | corrected member |
|---|---|---|---|---|---|---|
| services/notifier.py:133-136 | the `except` clause names `asyncpg.exceptions`, but `asyncpg` is not imported in this file, so evaluating the clause raises `NameError` | the server drops the pool's connections, then a due subscriber is notified | catch the lost connection, reconnect, and write the checkpoint | high (not executed) | Notifier.VacancyNotifier.UpdateLastCheckAsWritten, Notifier.LostConnectionAsWritten | Notifier.VacancyNotifier.UpdateLastCheck, Notifier.LostConnectionRecovered |
| services/notifier.py:51 | `id not in existing_ids` compares the string ids hh.ru returns with the int ids of the table, so it is always true | vacancy "1" already stored as row 1 | skip ids whose vacancy is already stored | high (not executed) | Sync.IdsToProcessAsWritten, Sync.StoredIdRefetched | Sync.IdsToProcess |
