/** The background notifier (`VacancyNotifier`): for every subscriber whose
    interval has elapsed, sync the vacancy table from hh.ru, send the vacancies
    published after the subscriber's checkpoint, and move the checkpoint to the
    moment the cycle started. */
module Notifier {
  import opened Wrappers
  import opened Time
  import opened Text
  import opened PyValues
  import opened HhParser
  import opened Store
  import opened Sync

  // ---------------------------------------------------------------------------
  // format_vacancy

  const NoEmployer := "Работодатель не указан"
  const NoCity := "Город не указан"
  const NoGrade := "Не определен"
  const NoUrl := "#"

  /** The salary line of a card: the stated range, or the model's estimate. */
  datatype SalaryLine = Stated(low: Value, high: Value) | Estimated(predicted: Value)

  /** What a vacancy message shows. */
  datatype Card = Card(name: Value, employer: Value, city: Value, salary: SalaryLine, grade: Value, url: Value)

  /** The fields `format_vacancy` reads from a vacancy dict: a truthy
      `salary_from` shows the stated range (`?` for a falsy upper bound),
      otherwise `predicted_salary` is shown; `salary_to`, `predicted_salary`
      and `vacancy_name` are subscripted, so a missing one raises `KeyError`;
      the employer, city, grade and url placeholders apply only to an absent
      key, never to a present `None`. */
  function CardOf(v: Record): (r: Result<Card, Failure>)
    ensures r.Ok? <==> "vacancy_name" in v
                       && (Truthy(Get(v, "salary_from")) ==> "salary_to" in v)
                       && (!Truthy(Get(v, "salary_from")) ==> "predicted_salary" in v)
    ensures r.Err? ==> r.error == KeyError
    ensures r.Ok? ==> r.value.name == v["vacancy_name"]
    ensures r.Ok? && Truthy(Get(v, "salary_from")) ==>
              r.value.salary.Stated? && r.value.salary.low == v["salary_from"]
              && (Truthy(v["salary_to"]) ==> r.value.salary.high == v["salary_to"])
              && (!Truthy(v["salary_to"]) ==> r.value.salary.high == Str("?"))
    ensures r.Ok? && !Truthy(Get(v, "salary_from")) ==> r.value.salary == Estimated(v["predicted_salary"])
    ensures r.Ok? ==> ("employer" in v ==> r.value.employer == v["employer"])
                      && ("employer" !in v ==> r.value.employer == Str(NoEmployer))
    ensures r.Ok? ==> ("city" in v ==> r.value.city == v["city"]) && ("city" !in v ==> r.value.city == Str(NoCity))
    ensures r.Ok? ==> ("grade" in v ==> r.value.grade == v["grade"]) && ("grade" !in v ==> r.value.grade == Str(NoGrade))
    ensures r.Ok? ==> ("url" in v ==> r.value.url == v["url"]) && ("url" !in v ==> r.value.url == Str(NoUrl))
  {
    var salary :-
      if Truthy(Get(v, "salary_from")) then
        var high :- Subscript(Dict(v), "salary_to");
        Ok(Stated(v["salary_from"], if Truthy(high) then high else Str("?")))
      else
        var predicted :- Subscript(Dict(v), "predicted_salary");
        Ok(Estimated(predicted));
    var name :- Subscript(Dict(v), "vacancy_name");
    Ok(Card(name, GetOr(v, "employer", Str(NoEmployer)), GetOr(v, "city", Str(NoCity)), salary,
            GetOr(v, "grade", Str(NoGrade)), GetOr(v, "url", Str(NoUrl))))
  }

  function SalaryText(s: SalaryLine): string
  {
    match s
    case Stated(low, high) => "💵 Зарплата: " + Show(low) + " – " + Show(high)
    case Estimated(p) => "💸 Примерная зарплата: " + Show(p)
  }

  /** The six lines of a vacancy message: name, employer, city, salary,
      grade and link. */
  function Lines(c: Card): seq<string>
  {
    [ "🔥 <b>" + Show(c.name) + "</b>",
      "🏢 " + Show(c.employer),
      "📍 " + Show(c.city),
      SalaryText(c.salary),
      "🎯 Грейд: " + Show(c.grade),
      "🔗 <a href='" + Show(c.url) + "'>Подробнее</a>" ]
  }

  /** The HTML message of a card, its lines separated by newlines. */
  function Render(c: Card): string
  {
    Join("\n", Lines(c))
  }

  /** `format_vacancy`. */
  function FormatVacancy(v: Record): (r: Result<string, Failure>)
    ensures r.Ok? <==> CardOf(v).Ok?
  {
    var card :- CardOf(v);
    Ok(Render(card))
  }

  /** A card's message opens with its name in bold, on a line of its own. */
  lemma RenderShowsName(c: Card)
    ensures ("🔥 <b>" + Show(c.name) + "</b>\n") <= Render(c)
  {
    var lines := Lines(c);
    assert Join("\n", lines) == lines[0] + "\n" + Join("\n", lines[1..]);
  }

  /** A vacancy message opens with the vacancy's name in bold, on a line of
      its own. */
  lemma FormatShowsName(v: Record)
    requires FormatVacancy(v).Ok?
    ensures ("🔥 <b>" + Show(v["vacancy_name"]) + "</b>\n") <= FormatVacancy(v).value
  {
    RenderShowsName(CardOf(v).value);
  }

  /** A row read back from the table always formats, and shows the row's own
      employer, city, grade and link, never a placeholder. */
  lemma FormatRow(row: Row)
    ensures CardOf(RowDict(row)).Ok?
    ensures CardOf(RowDict(row)).value.employer == row.employer
    ensures CardOf(RowDict(row)).value.city == row.city
    ensures CardOf(RowDict(row)).value.grade == row.grade
    ensures CardOf(RowDict(row)).value.url == row.url
    ensures Truthy(row.salaryFrom) ==> CardOf(RowDict(row)).value.salary.Stated?
    ensures !Truthy(row.salaryFrom) ==> CardOf(RowDict(row)).value.salary == Estimated(row.predictedSalary)
  {
  }

  /** A freshly processed vacancy fails to format exactly when its lower
      salary bound is present but falsy (a zero): only a `None` lower bound
      comes with a `predicted_salary`. */
  lemma FormatProcessed(item: Value, env: Collaborators, now: int)
    requires ProcessVacancy(item, env, now).Ok?
    ensures var v := ProcessVacancy(item, env, now).value;
            CardOf(v).Err? <==> !Truthy(v["salary_from"]) && v["salary_from"] != Null
  {
  }

  /** `[format_vacancy(v) for v in vacancies]`: the first failure ends the list. */
  function FormatAll(vs: seq<Record>): (r: Result<seq<string>, Failure>)
    ensures r.Ok? <==> forall i :: 0 <= i < |vs| ==> FormatVacancy(vs[i]).Ok?
    ensures r.Ok? ==> |r.value| == |vs| && forall i :: 0 <= i < |vs| ==> FormatVacancy(vs[i]) == Ok(r.value[i])
    decreases |vs|
  {
    if vs == [] then Ok([])
    else
      var head :- FormatVacancy(vs[0]);
      var tail :- FormatAll(vs[1..]);
      assert forall i :: 1 <= i < |vs| ==> vs[i] == vs[1..][i - 1];
      Ok([head] + tail)
  }

  /** The messages of the vacancies before the first one that fails to
      format, and that failure, if any. */
  datatype Formatted = Formatted(texts: seq<string>, failure: Option<Failure>)

  /** Format the vacancies in order with `format`, stopping at the first
      failure. */
  function UntilFailure(format: Record -> Result<string, Failure>, vs: seq<Record>): (r: Formatted)
    ensures |r.texts| <= |vs|
    ensures r.failure.None? <==> |r.texts| == |vs|
    decreases |vs|
  {
    if vs == [] then Formatted([], None)
    else
      var head := format(vs[0]);
      if head.Err? then Formatted([], Some(head.error))
      else
        var tail := UntilFailure(format, vs[1..]);
        Formatted([head.value] + tail.texts, tail.failure)
  }

  /** The messages are those of the leading vacancies, and the cut-off is at
      the first vacancy that fails to format, with its error. */
  lemma {:induction false} UntilFailureSpec(format: Record -> Result<string, Failure>, vs: seq<Record>)
    ensures var r := UntilFailure(format, vs);
            forall i :: 0 <= i < |r.texts| ==> format(vs[i]) == Ok(r.texts[i])
    ensures var r := UntilFailure(format, vs);
            r.failure.Some? ==> format(vs[|r.texts|]).Err? && r.failure == Some(format(vs[|r.texts|]).error)
    decreases |vs|
  {
    if vs != [] && format(vs[0]).Ok? {
      UntilFailureSpec(format, vs[1..]);
      assert forall i :: 1 <= i < |vs| ==> vs[i] == vs[1..][i - 1];
    }
  }

  /** When every vacancy formats, nothing is cut off. */
  lemma {:induction false} UntilFailureAll(format: Record -> Result<string, Failure>, vs: seq<Record>)
    requires forall i :: 0 <= i < |vs| ==> format(vs[i]) == FormatVacancy(vs[i])
    requires FormatAll(vs).Ok?
    ensures UntilFailure(format, vs) == Formatted(FormatAll(vs).value, None)
    decreases |vs|
  {
    if vs != [] {
      assert forall i :: 1 <= i < |vs| ==> vs[i] == vs[1..][i - 1];
      UntilFailureAll(format, vs[1..]);
    }
  }

  /** Rows as the dicts `format_vacancy` receives. */
  function RowDicts(rows: seq<Row>): (r: seq<Record>)
    ensures |r| == |rows| && forall i :: 0 <= i < |rows| ==> r[i] == RowDict(rows[i])
  {
    seq(|rows|, i requires 0 <= i < |rows| => RowDict(rows[i]))
  }

  /** Rows read back from the table all format. */
  lemma FormatAllRows(rows: seq<Row>)
    ensures FormatAll(RowDicts(rows)).Ok?
  {
    forall i | 0 <= i < |rows|
      ensures FormatVacancy(RowDicts(rows)[i]).Ok?
    {
      FormatRow(rows[i]);
    }
  }

  // ---------------------------------------------------------------------------
  // the Telegram bot

  /** One `send_message` call. */
  datatype Delivery = Delivery(chat: int, text: string)

  /** The same chat, one message per text, in order. */
  function Deliveries(chat: int, texts: seq<string>): (r: seq<Delivery>)
    ensures |r| == |texts| && forall i :: 0 <= i < |texts| ==> r[i] == Delivery(chat, texts[i])
  {
    seq(|texts|, i requires 0 <= i < |texts| => Delivery(chat, texts[i]))
  }

  /** Sending the next text of a list extends its deliveries by one. */
  lemma DeliveriesStep(chat: int, texts: seq<string>, i: nat)
    requires i < |texts|
    ensures Deliveries(chat, texts[..i + 1]) == Deliveries(chat, texts[..i]) + [Delivery(chat, texts[i])]
  {
  }

  /** The bot's outgoing side: every `send_message` call, and whether
      Telegram accepts a given message. */
  class Bot {
    const accepts: (int, string) -> bool
    var attempts: seq<Delivery>

    constructor (accepts: (int, string) -> bool)
      ensures this.accepts == accepts && attempts == []
    {
      this.accepts := accepts;
      attempts := [];
    }

    /** `bot.send_message(chat_id, text)`; `false` where it raises. */
    method SendMessage(chat: int, text: string) returns (ok: bool)
      modifies this
      ensures attempts == old(attempts) + [Delivery(chat, text)]
      ensures ok == accepts(chat, text)
    {
      attempts := attempts + [Delivery(chat, text)];
      ok := accepts(chat, text);
    }
  }

  // ---------------------------------------------------------------------------
  // the notifier

  /** The outcome of one sync with hh.ru: the ids it set out to fetch, the rows
      it stored, in order, and the failure that ended it early, if any. */
  datatype SyncReport = SyncReport(candidates: seq<Value>, stored: seq<Row>, failure: Option<Failure>)

  /** The outcome of `check_and_notify` for one subscriber, with the clock
      reading it was decided on. */
  datatype Cycle =
    | NotDue(at: int)
    | Notified(at: int, rows: seq<Row>)
    | Failed(at: int, error: Failure)

  /** The first `|cycles|` cycles of a pass over `snapshot`, read from an
      open pool, and the subscribers' table `users` they leave, compared with
      the table `users0` the pass started from. Each cycle was decided by its
      subscriber's due test and none failed; the table has the same
      subscribers with the same intervals, no checkpoint moved back, the
      subscribers still ahead untouched, each notified one at the reading of
      its cycle and each one not due as it was. */
  ghost predicate PassSoFar(users0: map<int, User>, users: map<int, User>, snapshot: seq<UserRecord>, cycles: seq<Cycle>)
  {
    |cycles| <= |snapshot|
    && (forall j :: 0 <= j < |cycles| ==>
          (cycles[j].NotDue? <==> !IsDue(Utc(cycles[j].at), AsUtc(snapshot[j].LastCheck()), snapshot[j].interval)))
    && (forall j :: 0 <= j < |cycles| ==> !cycles[j].Failed?)
    && (forall j :: 0 <= j < |snapshot| ==> snapshot[j].chatId in users0)
    && users.Keys == users0.Keys
    && (forall chat :: chat in users0 ==> users[chat].interval == users0[chat].interval)
    && (forall chat :: chat in users0 && users0[chat].interval >= 0 ==> users[chat].lastCheck >= users0[chat].lastCheck)
    && (forall j :: |cycles| <= j < |snapshot| ==> users[snapshot[j].chatId] == users0[snapshot[j].chatId])
    && (forall j :: 0 <= j < |cycles| && cycles[j].Notified? ==> users[snapshot[j].chatId].lastCheck == cycles[j].at)
    && (forall j :: 0 <= j < |cycles| && cycles[j].NotDue? ==> users[snapshot[j].chatId] == users0[snapshot[j].chatId])
  }

  /** One more subscriber visited: a cycle that notifies moves that
      subscriber's checkpoint only, to a reading at which it was due. */
  lemma PassStep(users0: map<int, User>, users: map<int, User>, next: map<int, User>,
                 snapshot: seq<UserRecord>, cycles: seq<Cycle>, c: Cycle)
    requires PassSoFar(users0, users, snapshot, cycles) && |cycles| < |snapshot|
    requires forall j :: 0 <= j < |snapshot| ==>
               users0[snapshot[j].chatId] == User(snapshot[j].interval, snapshot[j].lastCheck)
    requires forall i, j :: 0 <= i < j < |snapshot| ==> snapshot[i].chatId != snapshot[j].chatId
    requires var user := snapshot[|cycles|];
             (c.NotDue? <==> !IsDue(Utc(c.at), AsUtc(user.LastCheck()), user.interval)) && !c.Failed?
             && (c.Notified? ==> next == WithCheckpoint(users, user.chatId, c.at))
             && (!c.Notified? ==> next == users)
    ensures PassSoFar(users0, next, snapshot, cycles + [c])
  {
  }

  class VacancyNotifier {
    const db: Database
    const bot: Bot
    const clock: Clock
    const env: Collaborators
    /** The per-id step of the sync loop, fetch, process and convert to a
        row, as one function value. */
    ghost const prepare: (Value, int) -> Result<Row, Failure>
    /** `format_vacancy` as a function value. */
    ghost const format: Record -> Result<string, Failure>
    var isRunning: bool

    /** `prepare` is `PreparedRow` for this notifier's collaborators. */
    ghost predicate PrepareWired()
    {
      forall id, t {:trigger PreparedRow(env, id, t)} :: prepare(id, t) == PreparedRow(env, id, t)
    }

    /** `format` is `FormatVacancy`. */
    ghost predicate FormatWired()
    {
      forall v {:trigger FormatVacancy(v)} :: format(v) == FormatVacancy(v)
    }

    constructor (bot: Bot, db: Database, clock: Clock, env: Collaborators)
      ensures this.bot == bot && this.db == db && this.clock == clock && this.env == env
      ensures PrepareWired() && FormatWired() && isRunning
    {
      this.bot := bot;
      this.db := db;
      this.clock := clock;
      this.env := env;
      prepare := (id, t) => PreparedRow(env, id, t);
      format := v => FormatVacancy(v);
      isRunning := true;
    }

    /** `update_vacancies_from_api`: read the watermark, fetch the candidate
        ids, drop the stored ones, then fetch, process and insert each
        candidate in turn. The first failure ends the batch and is swallowed;
        the rows inserted before it stay. */
    method UpdateVacanciesFromApi() returns (report: SyncReport, ghost front: Result<seq<Value>, Failure>,
                                             ghost watermark: DateTime, ghost times: seq<int>, ghost failedAt: int)
      requires db.Valid() && PrepareWired()
      modifies db, clock
      ensures db.Valid()
      ensures db.vacancies == InsertAll(old(db.vacancies), report.stored)
      ensures db.users == old(db.users) && db.pool == old(db.pool)
      ensures db.connects == old(db.connects) && db.reachable == old(db.reachable)
      ensures old(clock.time) <= clock.time
      ensures forall x :: x in report.candidates ==> !AlreadyStored(x, old(db.vacancies).Keys)
      ensures |report.stored| <= |report.candidates|
      ensures report.failure.None? ==> |report.stored| == |report.candidates|
      ensures report.failure.Some? ==> report.candidates == [] || |report.stored| < |report.candidates|
      ensures old(db.pool) == NoPool ==> report == SyncReport([], [], Some(AttributeError))
      // the front half: the candidates searched for from `watermark`, or the failure that ends the sync there
      ensures FoundCandidates(env, old(db.vacancies), old(db.pool), old(clock.time), clock.time, watermark, front)
      ensures front.Err? ==> report == SyncReport([], [], Some(front.error))
      // the back half: the candidates processed in order until the first failure
      ensures front.Ok? ==> report.candidates == front.value && |times| == |report.stored|
                            && SyncedRows(prepare, report.candidates[..|report.stored|], times) == Ok(report.stored)
      ensures front.Ok? && report.failure.Some? ==>
                |report.stored| < |report.candidates| &&
                prepare(report.candidates[|report.stored|], failedAt) == Err(report.failure.value)
      ensures forall j :: 0 <= j < |times| ==> old(clock.time) <= times[j] <= clock.time
      ensures report.failure.Some? && front.Ok? ==> old(clock.time) <= failedAt <= clock.time
    {
      times, failedAt := [], 0;
      var candidates;
      candidates, watermark := FindCandidates(db, clock, env);
      front := candidates;
      if candidates.Err? {
        report := SyncReport([], [], Some(candidates.error));
        return;
      }
      var stored, failure;
      stored, failure, times, failedAt := SyncAll(candidates.value);
      report := SyncReport(candidates.value, stored, failure);
    }

    /** The back half of `update_vacancies_from_api`: fetch, process and
        insert each candidate in turn until one fails; `failedAt` is the
        clock reading the failing one was processed at. */
    method SyncAll(candidates: seq<Value>) returns (stored: seq<Row>, failure: Option<Failure>,
                                                    ghost times: seq<int>, ghost failedAt: int)
      requires db.Valid() && PrepareWired()
      modifies db, clock
      ensures db.Valid()
      ensures db.vacancies == InsertAll(old(db.vacancies), stored)
      ensures db.users == old(db.users) && db.pool == old(db.pool)
      ensures db.connects == old(db.connects) && db.reachable == old(db.reachable)
      ensures old(clock.time) <= clock.time
      ensures |stored| <= |candidates|
      ensures failure.None? <==> |stored| == |candidates|
      ensures |times| == |stored|
      ensures SyncedRows(prepare, candidates[..|stored|], times) == Ok(stored)
      ensures forall j :: 0 <= j < |times| ==> old(clock.time) <= times[j] <= clock.time
      // the candidate at which the batch stopped, and why
      ensures failure.Some? ==> old(clock.time) <= failedAt <= clock.time
      ensures failure.Some? && old(db.pool) == Open ==> prepare(candidates[|stored|], failedAt) == Err(failure.value)
      ensures failure.Some? ==> prepare(candidates[|stored|], failedAt) == Err(failure.value)
                                || Some(failure.value) == db.PoolFailure()
      ensures old(db.pool) != Open ==> stored == []
    {
      stored := [];
      times := [];
      failedAt := 0;
      while |stored| < |candidates|
        invariant db.Valid()
        invariant db.vacancies == InsertAll(old(db.vacancies), stored)
        invariant db.users == old(db.users) && db.pool == old(db.pool)
        invariant db.connects == old(db.connects) && db.reachable == old(db.reachable)
        invariant old(clock.time) <= clock.time
        invariant |times| == |stored| <= |candidates|
        invariant SyncedRows(prepare, candidates[..|stored|], times) == Ok(stored)
        invariant forall j :: 0 <= j < |times| ==> old(clock.time) <= times[j] <= clock.time
        invariant db.pool != Open ==> stored == []
        decreases |candidates| - |stored|
      {
        var row, t := SyncOne(candidates[|stored|], old(db.vacancies), stored);
        if row.Err? {
          return stored, Some(row.error), times, t;
        }
        SyncedRowsSnoc(prepare, candidates, |stored|, times, stored, t, row.value);
        stored := stored + [row.value];
        times := times + [t];
      }
      failure := None;
    }

    /** One iteration of the sync loop: fetch the vacancy, process it with the
        current clock reading `t`, insert it. Over an open pool the outcome is
        `prepare`'s; otherwise the insert fails, unless an earlier step
        already did. */
    method SyncOne(id: Value, ghost base: map<int, Row>, ghost stored: seq<Row>) returns (r: Result<Row, Failure>, t: int)
      requires db.Valid() && PrepareWired()
      requires db.vacancies == InsertAll(base, stored)
      modifies db, clock
      ensures db.Valid()
      ensures old(clock.time) <= t == clock.time
      ensures r.Ok? ==> prepare(id, t) == r && db.vacancies == InsertAll(base, stored + [r.value])
      ensures r.Err? ==> db.vacancies == old(db.vacancies)
      ensures db.users == old(db.users) && db.pool == old(db.pool)
      ensures db.connects == old(db.connects) && db.reachable == old(db.reachable)
      ensures old(db.pool) == Open ==> r == prepare(id, t)
      ensures old(db.pool) != Open ==> r.Err?
      ensures r.Err? ==> r == prepare(id, t) || Some(r.error) == db.PoolFailure()
    {
      t := clock.Now();
      assert prepare(id, t) == PreparedRow(env, id, t);
      var raw := env.detail(id);
      if raw.Err? {
        return Err(raw.error), t;
      }
      var processed := ProcessVacancy(raw.value, env, t);
      if processed.Err? {
        return Err(processed.error), t;
      }
      var inserted := db.InsertVacancy(processed.value);
      if inserted.Err? {
        return Err(inserted.error), t;
      }
      r := ToRow(processed.value);
      InsertAllSnoc(base, stored, r.value);
    }

    /** `send_vacancies`: one `send_message` per vacancy, in order; a send
        Telegram refuses is logged and the next vacancy is sent all the same.
        Formatting happens outside that guard, so a vacancy that fails to
        format ends the loop with its error. */
    method SendVacancies(chat: int, vacancies: seq<Record>) returns (r: Result<(), Failure>)
      requires FormatWired()
      modifies bot
      ensures bot.attempts == old(bot.attempts) + Deliveries(chat, UntilFailure(format, vacancies).texts)
      ensures r.Err? <==> UntilFailure(format, vacancies).failure.Some?
      ensures r.Err? ==> Some(r.error) == UntilFailure(format, vacancies).failure
    {
      ghost var expected := UntilFailure(format, vacancies);
      var i := 0;
      while i < |vacancies|
        invariant 0 <= i <= |expected.texts|
        invariant bot.attempts == old(bot.attempts) + Deliveries(chat, expected.texts[..i])
        decreases |vacancies| - i
      {
        var message := SendOne(chat, vacancies, i);
        if message.Err? {
          assert expected.texts[..i] == expected.texts;
          return Err(message.error);
        }
        DeliveriesStep(chat, expected.texts, i);
        i := i + 1;
      }
      assert expected.texts[..i] == expected.texts;
      r := Ok(());
    }

    /** One iteration of the send loop: format vacancy `i` and, if that
        succeeds, send it; formatting fails exactly at the cut-off. */
    method SendOne(chat: int, vacancies: seq<Record>, i: nat) returns (r: Result<string, Failure>)
      requires FormatWired()
      requires i < |vacancies| && i <= |UntilFailure(format, vacancies).texts|
      modifies bot
      ensures r.Ok? ==> i < |UntilFailure(format, vacancies).texts| && r.value == UntilFailure(format, vacancies).texts[i]
      ensures r.Ok? ==> bot.attempts == old(bot.attempts) + [Delivery(chat, r.value)]
      ensures r.Err? ==> i == |UntilFailure(format, vacancies).texts| && UntilFailure(format, vacancies).failure == Some(r.error)
      ensures r.Err? ==> bot.attempts == old(bot.attempts)
    {
      UntilFailureSpec(format, vacancies);
      r := FormatVacancy(vacancies[i]);
      if r.Ok? {
        var sent := bot.SendMessage(chat, r.value);
      }
    }

    /** `update_last_check` as intended: write the checkpoint (now, unless a
        time is given); if the connection turns out to be lost, open a new
        pool once and write again. Any other failure propagates. */
    method UpdateLastCheck(chat: int, newTime: Option<int>) returns (r: Result<(), Failure>, written: int)
      modifies db, clock
      ensures newTime.Some? ==> written == newTime.value && clock.time == old(clock.time)
      ensures newTime.None? ==> old(clock.time) <= written == clock.time
      ensures r.Ok? ==> db.users == WithCheckpoint(old(db.users), chat, written)
      ensures r.Err? ==> db.users == old(db.users)
      ensures old(db.pool) == Open ==> r.Ok? && db.connects == old(db.connects)
      ensures old(db.pool) == Lost ==> (r.Ok? <==> old(db.reachable))
      ensures old(db.pool) == Lost ==> db.connects == old(db.connects) + (if old(db.reachable) then 1 else 0)
      ensures old(db.pool) == Lost && !old(db.reachable) ==> r == Err(Unreachable)
      ensures old(db.pool) == NoPool ==> r == Err(AttributeError) && db.connects == old(db.connects)
      ensures old(db.pool) != Lost ==> db.pool == old(db.pool)
      ensures old(db.pool) == Lost ==> db.pool == (if old(db.reachable) then Open else Lost)
      ensures db.vacancies == old(db.vacancies) && db.reachable == old(db.reachable)
    {
      if newTime.Some? {
        written := newTime.value;
      } else {
        written := clock.Now();
      }
      r := db.SetLastCheck(chat, written);
      if r.Err? && r.error == ConnectionLost {
        var reconnected := db.Connect();
        if reconnected.Err? {
          return reconnected, written;
        }
        r := db.SetLastCheck(chat, written);
      }
    }

    /** `update_last_check` as written: the `except` clause names
        `asyncpg.exceptions`, but the module never imports `asyncpg`, so
        any failure of the first write surfaces as `NameError` instead of
        being handled, and no reconnect ever happens. */
    method UpdateLastCheckAsWritten(chat: int, newTime: Option<int>) returns (r: Result<(), Failure>, written: int)
      modifies db, clock
      ensures newTime.Some? ==> written == newTime.value && clock.time == old(clock.time)
      ensures newTime.None? ==> old(clock.time) <= written == clock.time
      ensures r.Ok? <==> old(db.pool) == Open
      ensures r.Ok? ==> db.users == WithCheckpoint(old(db.users), chat, written)
      ensures r.Err? ==> r.error == NameError && db.users == old(db.users)
      ensures db.connects == old(db.connects) && db.pool == old(db.pool)
      ensures db.vacancies == old(db.vacancies) && db.reachable == old(db.reachable)
    {
      if newTime.Some? {
        written := newTime.value;
      } else {
        written := clock.Now();
      }
      r := db.SetLastCheck(chat, written);
      if r.Err? {
        r := Err(NameError);
      }
    }

    /** `check_and_notify`: if the subscriber is due at the current reading,
        sync, select the rows published strictly after the old checkpoint,
        send them, and move the checkpoint to that reading (captured before
        the sync) even when nothing was found or the sync failed. A failure
        of the selection, of formatting or of the write leaves the checkpoint
        where it was; it is logged and swallowed. */
    method CheckAndNotify(user: UserRecord) returns (c: Cycle)
      requires db.Valid() && PrepareWired() && FormatWired()
      modifies db, bot, clock
      ensures db.Valid()
      ensures old(clock.time) <= c.at <= clock.time
      ensures c.NotDue? <==> !IsDue(Utc(c.at), AsUtc(user.LastCheck()), user.interval)
      ensures c.NotDue? ==> db.users == old(db.users) && db.vacancies == old(db.vacancies)
                            && bot.attempts == old(bot.attempts)
      ensures c.Notified? ==> db.users == WithCheckpoint(old(db.users), user.chatId, c.at)
      ensures c.Failed? ==> db.users == old(db.users) && bot.attempts == old(bot.attempts)
      ensures c.Notified? ==> forall row :: row in c.rows <==>
                                row.id in db.vacancies && db.vacancies[row.id] == row
                                && NewerThan(row, Instant(AsUtc(user.LastCheck())))
      ensures c.Notified? ==> FormatAll(RowDicts(c.rows)).Ok?
                              && bot.attempts == old(bot.attempts) + Deliveries(user.chatId, FormatAll(RowDicts(c.rows)).value)
      ensures old(db.vacancies).Keys <= db.vacancies.Keys
      ensures forall k :: k in old(db.vacancies) ==> db.vacancies[k] == old(db.vacancies)[k]
      // a due subscriber is notified exactly when the pool is open; otherwise
      // the cycle fails with the pool's error
      ensures !c.NotDue? ==> (c.Notified? <==> old(db.pool) == Open)
      ensures c.Failed? ==> Some(c.error) == db.PoolFailure()
      ensures db.pool == old(db.pool) && db.connects == old(db.connects) && db.reachable == old(db.reachable)
    {
      var lastCheck := AsUtc(user.LastCheck());
      var now := clock.Now();
      if !IsDue(Utc(now), lastCheck, user.interval) {
        return NotDue(now);
      }
      var start := now;
      var report, front, watermark, times, failedAt := UpdateVacanciesFromApi();
      c := NotifyNew(user, start);
    }

    /** The rest of a due cycle, once the sync is over: select the rows
        published after the subscriber's checkpoint, send them, and move the
        checkpoint to `start`. */
    method NotifyNew(user: UserRecord, start: int) returns (c: Cycle)
      requires db.Valid() && FormatWired()
      modifies db, bot, clock
      ensures db.Valid()
      ensures c.at == start && clock.time == old(clock.time)
      ensures !c.NotDue? && (c.Notified? <==> old(db.pool) == Open)
      ensures c.Failed? ==> Some(c.error) == db.PoolFailure() && db.users == old(db.users) && bot.attempts == old(bot.attempts)
      ensures c.Notified? ==> db.users == WithCheckpoint(old(db.users), user.chatId, start)
      ensures c.Notified? ==> forall row :: row in c.rows <==>
                                row.id in db.vacancies && db.vacancies[row.id] == row
                                && NewerThan(row, Instant(AsUtc(user.LastCheck())))
      ensures c.Notified? ==> FormatAll(RowDicts(c.rows)).Ok?
                              && bot.attempts == old(bot.attempts) + Deliveries(user.chatId, FormatAll(RowDicts(c.rows)).value)
      ensures db.vacancies == old(db.vacancies)
      ensures db.pool == old(db.pool) && db.connects == old(db.connects) && db.reachable == old(db.reachable)
    {
      var newer := db.GetNewVacancies(Instant(AsUtc(user.LastCheck())));
      if newer.Err? {
        return Failed(start, newer.error);
      }
      var rows := newer.value;
      FormatAllRows(rows);
      UntilFailureAll(format, RowDicts(rows));
      if rows != [] {
        // rows read back from the table always format, so this send loop
        // runs to its end
        var sent := SendVacancies(user.chatId, RowDicts(rows));
      }
      // the pool answered the selection, so the write goes through; the
      // handler as written and as intended differ only on a failing write,
      // and connections drop only between calls, so the two agree here
      var written, at := UpdateLastCheck(user.chatId, Some(start));
      c := Notified(start, rows);
    }

    /** One iteration of the polling loop in `start`: read every subscriber,
        and run the cycle of each one that is due at a fresh clock reading.
        A failing read of the subscribers ends the pass quietly. */
    method RunPass() returns (snapshot: seq<UserRecord>, cycles: seq<Cycle>)
      requires db.Valid() && PrepareWired() && FormatWired()
      modifies db, bot, clock
      ensures db.Valid()
      ensures |cycles| == |snapshot|
      ensures forall i :: 0 <= i < |snapshot| ==>
                (cycles[i].NotDue? <==> !IsDue(Utc(cycles[i].at), AsUtc(snapshot[i].LastCheck()), snapshot[i].interval))
      ensures db.users.Keys == old(db.users).Keys
      ensures forall chat :: chat in old(db.users) ==> db.users[chat].interval == old(db.users)[chat].interval
      ensures forall chat :: chat in old(db.users) && old(db.users)[chat].interval >= 0 ==>
                db.users[chat].lastCheck >= old(db.users)[chat].lastCheck
      ensures old(db.vacancies).Keys <= db.vacancies.Keys
      ensures forall k :: k in old(db.vacancies) ==> db.vacancies[k] == old(db.vacancies)[k]
      // the pass reads every subscriber once when the pool is open, and none otherwise
      ensures old(db.pool) == Open ==> forall u :: u in snapshot <==>
                u.chatId in old(db.users) && old(db.users)[u.chatId] == User(u.interval, u.lastCheck)
      ensures forall i, j :: 0 <= i < j < |snapshot| ==> snapshot[i].chatId != snapshot[j].chatId
      ensures old(db.pool) != Open ==> snapshot == [] && cycles == []
      // no cycle of a pass fails, and each notified subscriber keeps the checkpoint of its cycle
      ensures forall i :: 0 <= i < |cycles| ==> !cycles[i].Failed?
      ensures forall i :: 0 <= i < |cycles| && cycles[i].Notified? ==> db.users[snapshot[i].chatId].lastCheck == cycles[i].at
      ensures forall i :: 0 <= i < |cycles| && cycles[i].NotDue? ==> db.users[snapshot[i].chatId] == old(db.users)[snapshot[i].chatId]
      ensures db.pool == old(db.pool) && db.connects == old(db.connects) && db.reachable == old(db.reachable)
    {
      var users := db.GetAllUsers();
      if users.Err? {
        return [], [];
      }
      snapshot := users.value;
      assert forall j :: 0 <= j < |snapshot| ==> snapshot[j] in snapshot;
      cycles := VisitAll(snapshot);
    }

    /** The loop of one pass: visit the subscribers of `snapshot`, read from
        the open pool, in turn. */
    method VisitAll(snapshot: seq<UserRecord>) returns (cycles: seq<Cycle>)
      requires db.Valid() && PrepareWired() && FormatWired() && db.pool == Open
      requires forall j :: 0 <= j < |snapshot| ==>
                 snapshot[j].chatId in db.users && db.users[snapshot[j].chatId] == User(snapshot[j].interval, snapshot[j].lastCheck)
      requires forall i, j :: 0 <= i < j < |snapshot| ==> snapshot[i].chatId != snapshot[j].chatId
      modifies db, bot, clock
      ensures db.Valid()
      ensures |cycles| == |snapshot|
      ensures PassSoFar(old(db.users), db.users, snapshot, cycles)
      ensures old(db.vacancies).Keys <= db.vacancies.Keys
      ensures forall k :: k in old(db.vacancies) ==> db.vacancies[k] == old(db.vacancies)[k]
      ensures db.pool == old(db.pool) && db.connects == old(db.connects) && db.reachable == old(db.reachable)
    {
      cycles := [];
      var i := 0;
      while i < |snapshot|
        invariant db.Valid()
        invariant 0 <= i <= |snapshot| && |cycles| == i
        invariant PassSoFar(old(db.users), db.users, snapshot, cycles)
        invariant old(db.vacancies).Keys <= db.vacancies.Keys
        invariant forall k :: k in old(db.vacancies) ==> db.vacancies[k] == old(db.vacancies)[k]
        invariant db.pool == old(db.pool) && db.connects == old(db.connects) && db.reachable == old(db.reachable)
        decreases |snapshot| - i
      {
        ghost var before := db.users;
        var c := Visit(snapshot[i]);
        PassStep(old(db.users), before, db.users, snapshot, cycles, c);
        cycles := cycles + [c];
        i := i + 1;
      }
    }

    /** The body of the polling loop for one subscriber: if the subscriber is
        due at a fresh clock reading, run its cycle. */
    method Visit(user: UserRecord) returns (c: Cycle)
      requires db.Valid() && PrepareWired() && FormatWired()
      modifies db, bot, clock
      ensures db.Valid()
      ensures old(clock.time) <= c.at <= clock.time
      ensures c.NotDue? <==> !IsDue(Utc(c.at), AsUtc(user.LastCheck()), user.interval)
      ensures c.Notified? ==> db.users == WithCheckpoint(old(db.users), user.chatId, c.at)
      ensures !c.Notified? ==> db.users == old(db.users)
      ensures c.NotDue? ==> db.vacancies == old(db.vacancies) && bot.attempts == old(bot.attempts)
      ensures old(db.vacancies).Keys <= db.vacancies.Keys
      ensures forall k :: k in old(db.vacancies) ==> db.vacancies[k] == old(db.vacancies)[k]
      ensures !c.NotDue? ==> (c.Notified? <==> old(db.pool) == Open)
      ensures c.Failed? ==> Some(c.error) == db.PoolFailure()
      ensures db.pool == old(db.pool) && db.connects == old(db.connects) && db.reachable == old(db.reachable)
    {
      var now := clock.Now();
      if IsDue(Utc(now), AsUtc(user.LastCheck()), user.interval) {
        c := CheckAndNotify(user);
        DueStaysDue(Utc(now), Utc(c.at), AsUtc(user.LastCheck()), user.interval);
      } else {
        c := NotDue(now);
      }
    }

    /** `start`, for at most `passes` iterations of its loop (the source loops
        for as long as `is_running` holds, which nothing ever clears). */
    method Start(passes: nat) returns (done: nat)
      requires db.Valid() && PrepareWired() && FormatWired()
      modifies db, bot, clock
      ensures db.Valid()
      ensures done == (if isRunning then passes else 0)
      ensures db.pool == old(db.pool) && db.connects == old(db.connects) && db.reachable == old(db.reachable)
      ensures db.users.Keys == old(db.users).Keys
      ensures forall chat :: chat in old(db.users) ==> db.users[chat].interval == old(db.users)[chat].interval
      ensures forall chat :: chat in old(db.users) && old(db.users)[chat].interval >= 0 ==>
                db.users[chat].lastCheck >= old(db.users)[chat].lastCheck
      ensures old(db.vacancies).Keys <= db.vacancies.Keys
      ensures forall k :: k in old(db.vacancies) ==> db.vacancies[k] == old(db.vacancies)[k]
    {
      done := 0;
      while isRunning && done < passes
        invariant db.Valid()
        invariant done <= passes && (!isRunning ==> done == 0)
        invariant db.pool == old(db.pool) && db.connects == old(db.connects) && db.reachable == old(db.reachable)
        invariant db.users.Keys == old(db.users).Keys
        invariant forall chat :: chat in old(db.users) ==> db.users[chat].interval == old(db.users)[chat].interval
        invariant forall chat :: chat in old(db.users) && old(db.users)[chat].interval >= 0 ==>
                    db.users[chat].lastCheck >= old(db.users)[chat].lastCheck
        invariant old(db.vacancies).Keys <= db.vacancies.Keys
        invariant forall k :: k in old(db.vacancies) ==> db.vacancies[k] == old(db.vacancies)[k]
        decreases passes - done
      {
        var snapshot, cycles := RunPass();
        done := done + 1;
      }
    }
  }

  // ---------------------------------------------------------------------------
  // the lost connection, as written and as intended

  /** Collaborators that answer nothing; the scenarios below never call them. */
  function Offline(): Collaborators
  {
    Collaborators(
      (d: DateTime, p: nat) => Err(NetworkError),
      (id: Value) => Err(NetworkError),
      (s: string) => None,
      (s: string) => s,
      (f: GradeFeatures) => "",
      (f: SalaryFeatures) => 0)
  }

  /** Subscriber 7 (checkpoint 0) after the server dropped the pool's
      connections: the write as written ends in `NameError`, with no
      reconnect, and the checkpoint stays at 0. */
  method LostConnectionAsWritten() returns (r: Result<(), Failure>, reconnects: nat, checkpoint: int)
    ensures r == Err(NameError) && reconnects == 0 && checkpoint == 0
  {
    var db := new Database(map[7 := User(60, 0)], map[]);
    var connected := db.Connect();
    db.DropConnections();
    var bot := new Bot((chat: int, text: string) => true);
    var clock := new Clock(3600);
    var notifier := new VacancyNotifier(bot, db, clock, Offline());
    var written;
    r, written := notifier.UpdateLastCheckAsWritten(7, Some(3600));
    reconnects := db.connects - 1;
    checkpoint := db.users[7].lastCheck;
  }

  /** The same situation with the intended handler: one reconnect, and the
      checkpoint moves to the new time. */
  method LostConnectionRecovered() returns (r: Result<(), Failure>, reconnects: nat, checkpoint: int)
    ensures r.Ok? && reconnects == 1 && checkpoint == 3600
  {
    var db := new Database(map[7 := User(60, 0)], map[]);
    var connected := db.Connect();
    db.DropConnections();
    var bot := new Bot((chat: int, text: string) => true);
    var clock := new Clock(3600);
    var notifier := new VacancyNotifier(bot, db, clock, Offline());
    var written;
    r, written := notifier.UpdateLastCheck(7, Some(3600));
    reconnects := db.connects - 1;
    checkpoint := db.users[7].lastCheck;
  }
}
