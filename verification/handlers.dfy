/** The chat commands: `начать` syncs the vacancy table on demand and answers
    with the vacancies it added, `да` answers with the latest stored ones, and
    `/subscribe`, `/unsubscribe`, `/status` and `/set_interval` manage the
    subscriber's row. */
module Handlers {
  import opened Wrappers
  import opened Time
  import opened Text
  import opened PyValues
  import opened HhParser
  import opened Store
  import opened Sync
  import opened Notifier

  // ---------------------------------------------------------------------------
  // replies

  const NothingNew := "Новых вакансий пока нет."
  const NoVacancies := "Вакансий не найдено"
  const SubscribedText := "Вы успешно подписаны на обновления вакансий!"
  const UnsubscribedText := "Вы отписаны от обновлений вакансий."
  const NotSubscribedText := "Вы не подписаны на обновления."
  const UsageText := "Использование: /set_interval <минуты>"
  const TooShortText := "Интервал должен быть не менее 5 минут."

  /** The shortest interval `/set_interval` accepts, in minutes. */
  const MinInterval := 5

  /** How many vacancies `да` shows: `get_recent_vacancies`' default limit. */
  const RecentLimit := 10

  function AddedText(n: int): string
  {
    "Добавлено " + IntToString(n) + " новых вакансий!"
  }

  function IntervalSetText(minutes: int): string
  {
    "Интервал обновления успешно установлен на " + IntToString(minutes) + " минут."
  }

  /** The `/status` reply for a subscriber, the last check shown by `show`. */
  function StatusText(u: UserRecord, show: DateTime -> string): string
  {
    "Текущие настройки:\nИнтервал проверки: " + IntToString(u.interval) + " мин\nПоследняя проверка: "
      + show(u.LastCheck())
  }

  /** The chat a handler answers in: every `message.answer` call, in order. */
  class Conversation {
    var replies: seq<string>

    constructor ()
      ensures replies == []
    {
      replies := [];
    }

    /** `message.answer(text)`. */
    method Answer(text: string)
      modifies this
      ensures replies == old(replies) + [text]
    {
      replies := replies + [text];
    }
  }

  /** The replies for `parts` sent five at a time, each chunk joined with
      `sep`. */
  function ChunkReplies(sep: string, parts: seq<string>): seq<string>
    decreases |parts|
  {
    if parts == [] then []
    else if |parts| <= ChunkSize then [Join(sep, parts)]
    else [Join(sep, parts[..ChunkSize])] + ChunkReplies(sep, parts[ChunkSize..])
  }

  /** They are the chunks of `parts`, each joined with `sep`. */
  lemma {:induction false} ChunkRepliesJoinChunks(sep: string, parts: seq<string>)
    ensures ChunkReplies(sep, parts) == JoinEach(sep, Chunks(parts))
    decreases |parts|
  {
    if |parts| > ChunkSize {
      ChunkRepliesJoinChunks(sep, parts[ChunkSize..]);
      var chunks := Chunks(parts);
      assert chunks[1..] == Chunks(parts[ChunkSize..]);
    }
  }

  /** `for i in range(0, len(parts), 5): message.answer(sep.join(parts[i:i+5]))`:
      one reply per chunk of five parts, in order. */
  method AnswerInChunks(conv: Conversation, sep: string, parts: seq<string>)
    modifies conv
    ensures conv.replies == old(conv.replies) + ChunkReplies(sep, parts)
  {
    var i := 0;
    while i < |parts|
      invariant 0 <= i <= |parts|
      invariant conv.replies + ChunkReplies(sep, parts[i..]) == old(conv.replies) + ChunkReplies(sep, parts)
      decreases |parts| - i
    {
      // the next multiple of five, or the end of the list
      var end := if i + ChunkSize <= |parts| then i + ChunkSize else |parts|;
      if end < |parts| {
        assert parts[i..][..ChunkSize] == parts[i..end];
        assert parts[i..][ChunkSize..] == parts[end..];
      } else {
        assert parts[i..] == parts[i..end] && parts[end..] == [];
      }
      assert ChunkReplies(sep, parts[i..]) == [Join(sep, parts[i..end])] + ChunkReplies(sep, parts[end..]);
      conv.Answer(Join(sep, parts[i..end]));
      i := end;
    }
    assert parts[i..] == [];
  }

  // ---------------------------------------------------------------------------
  // /set_interval

  /** How `/set_interval` reads its argument. */
  datatype IntervalRequest =
    | Unreadable            // no word, or a last word `int()` rejects
    | TooShort(minutes: int)
    | Accepted(minutes: int)

  /** `int(text.split()[-1])`, then the lower bound. */
  function ParseInterval(text: string): (r: IntervalRequest)
    ensures r.Unreadable? <==> LastWord(text).None? || ParseInt(LastWord(text).value).None?
    ensures !r.Unreadable? ==> Some(r.minutes) == ParseInt(LastWord(text).value)
    ensures r.TooShort? ==> r.minutes < MinInterval
    ensures r.Accepted? ==> r.minutes >= MinInterval
  {
    match LastWord(text)
    case None => Unreadable
    case Some(word) =>
      match ParseInt(word)
      case None => Unreadable
      case Some(n) => if n < MinInterval then TooShort(n) else Accepted(n)
  }

  /** Decimal text holds no blank and is never empty. */
  lemma IntToStringIsWord(n: int)
    ensures IntToString(n) != [] && NoSpace(IntToString(n))
  {
    var digits := NatToString(if n < 0 then -n else n);
    assert forall i :: 0 <= i < |digits| ==> IsDigit(digits[i]) && !IsSpace(digits[i]);
    if n < 0 {
      assert IntToString(n) == ['-'] + digits;
      assert forall i :: 1 <= i < |IntToString(n)| ==> IntToString(n)[i] == digits[i - 1];
    }
  }

  /** `/set_interval <n>` reads back the number written after the command. */
  lemma ParseIntervalOfCommand(command: string, n: int)
    ensures ParseInterval(command + " " + IntToString(n)) == if n < MinInterval then TooShort(n) else Accepted(n)
  {
    var word := IntToString(n);
    IntToStringIsWord(n);
    LastWordAfterBlank(command, word);
    assert LastWord(command + " " + word) == Some(word);
    ParseIntOfIntToString(n);
    assert ParseInt(word) == Some(n);
  }

  /** A message whose only word does not start like a number, such as the
      bare command, is unreadable. */
  lemma ParseIntervalOfBareWord(word: string)
    requires word != [] && NoSpace(word)
    requires !IsDigit(word[0]) && word[0] != '-' && word[0] != '+'
    ensures ParseInterval(word) == Unreadable
  {
    assert !IsSpace(word[|word| - 1]);
    assert TrimEnd(word) == word;
    LastRunAfterBlank([], word);
    assert [] + word == word;
    assert LastRun(word) == word;
    assert LastWord(word) == Some(word);
    assert !AllDigits(word);
    assert ParseInt(word) == None;
  }

  // ---------------------------------------------------------------------------
  // the handlers

  /** What `start_parsing` did: the front half failed with `error`, or it
      went through the `candidates`, processing candidate `j` at clock
      reading `times[j]` and keeping the ones stored, each with its row. */
  datatype Parsing =
    | Aborted(error: Failure)
    | Parsed(candidates: seq<Value>, kept: seq<(Record, Row)>, times: seq<int>)

  /** The processed vacancies of the kept pairs. */
  function Vacancies(kept: seq<(Record, Row)>): (r: seq<Record>)
    ensures |r| == |kept| && forall i :: 0 <= i < |kept| ==> r[i] == kept[i].0
  {
    seq(|kept|, i requires 0 <= i < |kept| => kept[i].0)
  }

  /** The stored rows of the kept pairs. */
  function Rows(kept: seq<(Record, Row)>): (r: seq<Row>)
    ensures |r| == |kept| && forall i :: 0 <= i < |kept| ==> r[i] == kept[i].1
  {
    seq(|kept|, i requires 0 <= i < |kept| => kept[i].1)
  }

  /** What `start_parsing` answers after its per-id loop, from the number of
      candidates and the kept pairs: with nothing kept, that there is nothing
      new; otherwise the count, then the kept vacancies' messages, five to a
      reply separated by blank lines, unless one of them fails to format. */
  function ParsedReplies(format: Record -> Result<string, Failure>, count: int, kept: seq<(Record, Row)>): seq<string>
  {
    if kept == [] then [NothingNew]
    else
      var cards := UntilFailure(format, Vacancies(kept));
      [AddedText(count)] + (if cards.failure.None? then ChunkReplies("\n\n", cards.texts) else [])
  }

  /** One more candidate through the per-id loop: its pair is kept, and its
      row inserted, exactly when its step succeeds. */
  lemma KeepStep(step: (Value, int) -> Result<(Record, Row), Failure>, base: map<int, Row>,
                 candidates: seq<Value>, times: seq<int>, kept: seq<(Record, Row)>, t: int,
                 before: map<int, Row>, after: map<int, Row>)
    requires |times| < |candidates| && kept == Kept(step, candidates[..|times|], times)
    requires before == InsertAll(base, Rows(kept))
    requires var s := step(candidates[|times|], t); s.Ok? ==> after == InsertIfAbsent(before, s.value.1)
    requires step(candidates[|times|], t).Err? ==> after == before
    ensures var s := step(candidates[|times|], t);
            s.Ok? ==> kept + [s.value] == Kept(step, candidates[..|times| + 1], times + [t])
                      && after == InsertAll(base, Rows(kept + [s.value]))
    ensures step(candidates[|times|], t).Err? ==>
              kept == Kept(step, candidates[..|times| + 1], times + [t]) && after == InsertAll(base, Rows(kept))
  {
    var id := candidates[|times|];
    assert candidates[..|times| + 1] == candidates[..|times|] + [id];
    KeptSnoc(step, candidates[..|times|], times, id, t);
    if step(id, t).Ok? {
      InsertAllSnoc(base, Rows(kept), step(id, t).value.1);
      assert Rows(kept + [step(id, t).value]) == Rows(kept) + [step(id, t).value.1];
    }
  }

  /** The message handlers and what the dispatcher passes them: the database,
      the clock, hh.ru and the predictors, and how a datetime is shown in
      Moscow time. */
  class Router {
    const db: Database
    const clock: Clock
    const env: Collaborators
    const showMoscow: DateTime -> string
    /** The per-id step of `start_parsing`, as one function value. */
    ghost const admit: (Value, int) -> Result<(Record, Row), Failure>
    /** The vacancy formatting the handlers inline, as one function value. */
    ghost const format: Record -> Result<string, Failure>

    /** `admit` is `Prepared` for these collaborators. */
    ghost predicate AdmitWired()
    {
      forall id, t {:trigger Prepared(env, id, t)} :: admit(id, t) == Prepared(env, id, t)
    }

    /** `format` is `FormatVacancy`. */
    ghost predicate FormatWired()
    {
      forall v {:trigger FormatVacancy(v)} :: format(v) == FormatVacancy(v)
    }

    constructor (db: Database, clock: Clock, env: Collaborators, showMoscow: DateTime -> string)
      ensures this.db == db && this.clock == clock && this.env == env && this.showMoscow == showMoscow
      ensures AdmitWired() && FormatWired()
    {
      this.db := db;
      this.clock := clock;
      this.env := env;
      this.showMoscow := showMoscow;
      admit := (id, t) => Prepared(env, id, t);
      format := v => FormatVacancy(v);
    }

    /** `start_parsing`: greet, then sync like the notifier does, except that
        a candidate that fails is skipped rather than ending the batch. With
        something kept, answer how many candidates there were, then the kept
        vacancies five to a message; a vacancy that fails to format cancels
        all of those messages. With nothing kept, say so. A failure before the
        per-id loop leaves the greeting as the only reply. `front` is the
        outcome of the front half of the sync, searched from `watermark`. */
    method StartParsing(conv: Conversation, greeting: string)
      returns (outcome: Parsing, ghost front: Result<seq<Value>, Failure>, ghost watermark: DateTime)
      requires db.Valid() && AdmitWired() && FormatWired()
      modifies db, clock, conv
      ensures db.Valid()
      ensures db.users == old(db.users) && db.pool == old(db.pool)
      ensures db.connects == old(db.connects) && db.reachable == old(db.reachable)
      ensures old(clock.time) <= clock.time
      ensures old(db.pool) != Open ==> outcome.Aborted?
      ensures outcome.Aborted? ==> conv.replies == old(conv.replies) + [greeting] && db.vacancies == old(db.vacancies)
      ensures outcome.Parsed? ==>
                && |outcome.times| == |outcome.candidates|
                && (forall x :: x in outcome.candidates ==> !AlreadyStored(x, old(db.vacancies).Keys))
                && outcome.kept == Kept(admit, outcome.candidates, outcome.times)
                && db.vacancies == InsertAll(old(db.vacancies), Rows(outcome.kept))
      ensures outcome.Parsed? ==>
                conv.replies == old(conv.replies) + [greeting] + ParsedReplies(format, |outcome.candidates|, outcome.kept)
      // the batch is the candidates found after the watermark; it is aborted
      // exactly when finding them failed, with that failure
      ensures FoundCandidates(env, old(db.vacancies), old(db.pool), old(clock.time), clock.time, watermark, front)
      ensures outcome.Aborted? <==> front.Err?
      ensures outcome.Aborted? ==> outcome.error == front.error
      ensures outcome.Parsed? ==> outcome.candidates == front.value
    {
      conv.Answer(greeting);
      var candidates;
      candidates, watermark := FindCandidates(db, clock, env);
      front := candidates;
      if candidates.Err? {
        outcome := Aborted(candidates.error);
        return;
      }
      var kept, times := AdmitAll(candidates.value);
      outcome := Parsed(candidates.value, kept, times);
      ReplyParsed(conv, |candidates.value|, kept);
    }

    /** The replies of `start_parsing` after its per-id loop. */
    method ReplyParsed(conv: Conversation, count: int, kept: seq<(Record, Row)>)
      requires FormatWired()
      modifies conv
      ensures conv.replies == old(conv.replies) + ParsedReplies(format, count, kept)
    {
      if kept == [] {
        conv.Answer(NothingNew);
        return;
      }
      ghost var expected := UntilFailure(format, Vacancies(kept));
      ghost var before := conv.replies;
      conv.Answer(AddedText(count));
      var cards := Cards(Vacancies(kept));
      if cards.Ok? {
        AnswerInChunks(conv, "\n\n", cards.value);
        assert conv.replies == before + ([AddedText(count)] + ChunkReplies("\n\n", expected.texts));
      } else {
        assert conv.replies == before + [AddedText(count)] + [];
      }
    }

    /** The per-id loop of `start_parsing`: fetch, process and insert each
        candidate, keeping the ones that get through and skipping the rest. */
    method AdmitAll(candidates: seq<Value>) returns (kept: seq<(Record, Row)>, times: seq<int>)
      requires db.Valid() && AdmitWired() && db.pool == Open
      modifies db, clock
      ensures db.Valid()
      ensures db.users == old(db.users) && db.pool == old(db.pool)
      ensures db.connects == old(db.connects) && db.reachable == old(db.reachable)
      ensures old(clock.time) <= clock.time
      ensures |times| == |candidates|
      ensures kept == Kept(admit, candidates, times)
      ensures db.vacancies == InsertAll(old(db.vacancies), Rows(kept))
    {
      ghost var base := db.vacancies;
      kept := [];
      times := [];
      var i := 0;
      while i < |candidates|
        invariant db.Valid()
        invariant db.users == old(db.users) && db.pool == old(db.pool)
        invariant db.connects == old(db.connects) && db.reachable == old(db.reachable)
        invariant old(clock.time) <= clock.time
        invariant i == |times| <= |candidates|
        invariant kept == Kept(admit, candidates[..i], times)
        invariant db.vacancies == InsertAll(base, Rows(kept))
        decreases |candidates| - i
      {
        ghost var before := db.vacancies;
        var step, t := AdmitOne(candidates[i]);
        KeepStep(admit, base, candidates, times, kept, t, before, db.vacancies);
        if step.Ok? {
          kept := kept + [step.value];
        }
        times := times + [t];
        i := i + 1;
      }
      assert candidates[..i] == candidates;
    }

    /** One iteration of the per-id loop, at clock reading `t`. */
    method AdmitOne(id: Value) returns (r: Result<(Record, Row), Failure>, t: int)
      requires db.Valid() && AdmitWired() && db.pool == Open
      modifies db, clock
      ensures db.Valid()
      ensures old(clock.time) <= t == clock.time
      ensures r == admit(id, t)
      ensures r.Ok? ==> db.vacancies == InsertIfAbsent(old(db.vacancies), r.value.1)
      ensures r.Err? ==> db.vacancies == old(db.vacancies)
      ensures db.users == old(db.users) && db.pool == old(db.pool)
      ensures db.connects == old(db.connects) && db.reachable == old(db.reachable)
    {
      t := clock.Now();
      assert admit(id, t) == Prepared(env, id, t);
      var raw := env.detail(id);
      if raw.Err? {
        return Err(raw.error), t;
      }
      var processed := ProcessVacancy(raw.value, env, t);
      if processed.Err? {
        return Err(processed.error), t;
      }
      var inserted := db.InsertVacancy(processed.value);
      if inserted.Err? {
        return Err(inserted.error), t;
      }
      r := Ok((processed.value, ToRow(processed.value).value));
    }

    /** The `response_parts` loop: the message of each vacancy in order; the
        first vacancy that fails to format ends it with that failure. */
    method Cards(vacancies: seq<Record>) returns (r: Result<seq<string>, Failure>)
      requires FormatWired()
      ensures r.Ok? <==> UntilFailure(format, vacancies).failure.None?
      ensures r.Ok? ==> r.value == UntilFailure(format, vacancies).texts
      ensures r.Err? ==> UntilFailure(format, vacancies).failure == Some(r.error)
    {
      ghost var expected := UntilFailure(format, vacancies);
      var parts: seq<string> := [];
      var i := 0;
      while i < |vacancies|
        invariant 0 <= i <= |expected.texts|
        invariant parts == expected.texts[..i]
        decreases |vacancies| - i
      {
        var part := CardAt(vacancies, i);
        if part.Err? {
          return Err(part.error);
        }
        parts := parts + [part.value];
        i := i + 1;
      }
      assert expected.texts[..i] == expected.texts;
      r := Ok(parts);
    }

    /** One iteration of the `response_parts` loop: formatting vacancy `i`
        fails exactly at the cut-off. */
    method CardAt(vacancies: seq<Record>, i: nat) returns (r: Result<string, Failure>)
      requires FormatWired()
      requires i < |vacancies| && i <= |UntilFailure(format, vacancies).texts|
      ensures r.Ok? ==> i < |UntilFailure(format, vacancies).texts| && r.value == UntilFailure(format, vacancies).texts[i]
      ensures r.Err? ==> i == |UntilFailure(format, vacancies).texts| && UntilFailure(format, vacancies).failure == Some(r.error)
    {
      UntilFailureSpec(format, vacancies);
      r := FormatVacancy(vacancies[i]);
    }

    /** Rows read back from the table all format, so no message of `да` is
        ever cancelled; its messages are those of `format_vacancy`. */
    lemma RowCardsFormat(rows: seq<Row>)
      requires FormatWired()
      ensures UntilFailure(format, RowDicts(rows)) == Formatted(FormatAll(RowDicts(rows)).value, None)
    {
      FormatAllRows(rows);
      UntilFailureAll(format, RowDicts(rows));
    }

    /** `process_yes_answer`: the ten latest vacancies, five to a message, or
        a reply that there are none. A database failure is logged and
        leaves no reply. */
    method ProcessYesAnswer(conv: Conversation) returns (r: Result<seq<Row>, Failure>)
      requires db.Valid() && FormatWired()
      modifies conv
      ensures r.Err? <==> db.pool != Open
      ensures r.Err? ==> Some(r.error) == db.PoolFailure() && conv.replies == old(conv.replies)
      ensures r.Ok? ==> |r.value| <= RecentLimit
      ensures r.Ok? ==> forall row :: row in r.value ==> row.id in db.vacancies && db.vacancies[row.id] == row
      ensures r.Ok? ==> forall i, j :: 0 <= i < j < |r.value| ==> NoLater(r.value[i].publishedAt, r.value[j].publishedAt)
      ensures r.Ok? && |r.value| < RecentLimit ==> forall k :: k in db.vacancies ==> db.vacancies[k] in r.value
      // each row at most once, and no row left out is newer than one shown
      ensures r.Ok? ==> forall i, j :: 0 <= i < j < |r.value| ==> r.value[i].id != r.value[j].id
      ensures r.Ok? ==> forall k, i :: k in db.vacancies && db.vacancies[k] !in r.value && 0 <= i < |r.value| ==>
                          NoLater(r.value[i].publishedAt, db.vacancies[k].publishedAt)
      ensures r.Ok? && r.value == [] ==> conv.replies == old(conv.replies) + [NoVacancies]
      ensures r.Ok? && r.value != [] ==>
                conv.replies == old(conv.replies) + ChunkReplies("\n", UntilFailure(format, RowDicts(r.value)).texts)
    {
      r := db.GetRecentVacancies(RecentLimit);
      if r.Err? {
        return;
      }
      if r.value == [] {
        conv.Answer(NoVacancies);
        return;
      }
      RowCardsFormat(r.value);
      var cards := Cards(RowDicts(r.value));
      AnswerInChunks(conv, "\n", cards.value);
    }

    /** `subscribe`: add the chat (or restart its checkpoint) and confirm;
        a database failure propagates with no reply. */
    method Subscribe(conv: Conversation, chat: int) returns (r: Result<(), Failure>)
      requires db.Valid()
      modifies db, clock, conv
      ensures db.Valid()
      ensures old(clock.time) <= clock.time
      ensures r.Ok? <==> old(db.pool) == Open
      ensures r.Ok? ==> db.users == Subscribed(old(db.users), chat, clock.time)
      ensures r.Ok? ==> conv.replies == old(conv.replies) + [SubscribedText]
      ensures r.Err? ==> db.users == old(db.users) && conv.replies == old(conv.replies)
      ensures db.vacancies == old(db.vacancies) && db.pool == old(db.pool)
    {
      var now := clock.Now();
      r := db.AddUser(chat, now);
      if r.Ok? {
        conv.Answer(SubscribedText);
      }
    }

    /** `unsubscribe`: delete the chat's row and confirm; a database failure
        propagates with no reply. */
    method Unsubscribe(conv: Conversation, chat: int) returns (r: Result<(), Failure>)
      requires db.Valid()
      modifies db, conv
      ensures db.Valid()
      ensures r.Ok? <==> old(db.pool) == Open
      ensures r.Ok? ==> db.users == old(db.users) - {chat} && chat !in db.users
      ensures r.Ok? ==> conv.replies == old(conv.replies) + [UnsubscribedText]
      ensures r.Err? ==> db.users == old(db.users) && conv.replies == old(conv.replies)
      ensures db.vacancies == old(db.vacancies) && db.pool == old(db.pool)
    {
      r := db.UnsubscribeUser(chat);
      if r.Ok? {
        conv.Answer(UnsubscribedText);
      }
    }

    /** `status`: a subscriber's interval and last check, or that the chat is
        not subscribed; a database failure propagates with no reply. */
    method Status(conv: Conversation, chat: int) returns (r: Result<Option<UserRecord>, Failure>)
      modifies conv
      ensures r.Ok? <==> db.pool == Open
      ensures r.Err? ==> conv.replies == old(conv.replies)
      ensures r.Ok? && chat in db.users ==>
                r.value == Some(UserRecord(chat, db.users[chat].interval, db.users[chat].lastCheck))
                && conv.replies == old(conv.replies) + [StatusText(r.value.value, showMoscow)]
      ensures r.Ok? && chat !in db.users ==> r.value == None && conv.replies == old(conv.replies) + [NotSubscribedText]
    {
      r := db.GetUser(chat);
      if r.Err? {
        return;
      }
      if r.value.Some? {
        conv.Answer(StatusText(r.value.value, showMoscow));
      } else {
        conv.Answer(NotSubscribedText);
      }
    }

    /** `set_interval`: read the last word of the message as the interval;
        reject one under five minutes; store it and confirm. Every failure,
        the database's included, falls into the bare `except` and gets the
        usage reply. */
    method SetInterval(conv: Conversation, chat: int, text: string) returns (request: IntervalRequest, r: Result<(), Failure>)
      requires db.Valid()
      modifies db, clock, conv
      ensures db.Valid()
      ensures request == ParseInterval(text)
      ensures old(clock.time) <= clock.time
      ensures request.Unreadable? ==> db.users == old(db.users) && conv.replies == old(conv.replies) + [UsageText]
      ensures request.TooShort? ==> db.users == old(db.users) && conv.replies == old(conv.replies) + [TooShortText]
      ensures request.Accepted? ==> (r.Ok? <==> old(db.pool) == Open && InInt(request.minutes))
      ensures request.Accepted? && r.Ok? ==>
                db.users == WithInterval(old(db.users), chat, request.minutes, clock.time)
                && conv.replies == old(conv.replies) + [IntervalSetText(request.minutes)]
      ensures request.Accepted? && r.Err? ==> db.users == old(db.users) && conv.replies == old(conv.replies) + [UsageText]
      ensures !request.Accepted? ==> r.Ok?
      ensures db.vacancies == old(db.vacancies) && db.pool == old(db.pool)
    {
      request := ParseInterval(text);
      r := Ok(());
      match request {
        case Unreadable =>
          conv.Answer(UsageText);
        case TooShort(_) =>
          conv.Answer(TooShortText);
        case Accepted(minutes) =>
          var now := clock.Now();
          r := db.UpdateUserSettings(chat, minutes, now);
          if r.Ok? {
            conv.Answer(IntervalSetText(minutes));
          } else {
            conv.Answer(UsageText);
          }
      }
    }
  }
}
