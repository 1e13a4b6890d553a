/** The PostgreSQL store behind the bot: the `users` table (chat id, polling
    interval, checkpoint) and the `vacancies_hh` table (one row per hh.ru
    vacancy), with the statements the bot runs against them. Timestamps are
    stored as whole UTC seconds and come back as naive `datetime`s. */
module Store {
  import opened Wrappers
  import opened Time
  import opened Text
  import opened PyValues

  /** `update_interval INT DEFAULT 60`. */
  const DefaultInterval := 60
  /** The grade stored when a vacancy dict has none. */
  const UnknownGrade := "Не указано"

  /** The range of a PostgreSQL `INT` (int4) column. */
  predicate InInt(n: int) { -0x8000_0000 <= n < 0x8000_0000 }
  /** The range of a PostgreSQL `BIGINT` (int8) column. */
  predicate InBigint(n: int) { -0x8000_0000_0000_0000 <= n < 0x8000_0000_0000_0000 }

  /** A row of `users`, keyed by its chat id. */
  datatype User = User(interval: int, lastCheck: int)

  /** A `users` row as `SELECT *` returns it. */
  datatype UserRecord = UserRecord(chatId: int, interval: int, lastCheck: int)
  {
    /** `row['last_check']`: a naive `datetime` holding the UTC reading. */
    function LastCheck(): (r: DateTime)
      ensures r.offset.None? && r.wall == lastCheck
    {
      DateTime(lastCheck, None)
    }
  }

  /** A row of `vacancies_hh`, in the column order of the insert statement. */
  datatype Row = Row(
    id: int, name: Value, schedule: Value, experience: Value, city: Value,
    employer: Value, salaryFrom: Value, salaryTo: Value, kind: Value, url: Value,
    keySkills: Value, role: Value, description: Value, publishedAt: Option<int>,
    experienceCat: Value, grade: Value, predictedSalary: Value)

  /** The columns of `vacancies_hh` a row read back as a dict has. */
  const RowKeys: set<string> := {
    "id", "vacancy_name", "schedule", "experience", "city", "employer",
    "salary_from", "salary_to", "type", "url", "key_skills", "professional_role",
    "description", "published_at", "experience_cat", "grade", "predicted_salary"
  }

  /** A stored timestamp as the driver returns it: a naive `datetime`. */
  function StampOf(t: Option<int>): (r: Value)
    ensures t.None? ==> r == Null
    ensures t.Some? ==> r.Stamp? && r.dt.offset.None? && r.dt.wall == t.value
  {
    if t.Some? then Stamp(DateTime(t.value, None)) else Null
  }

  /** The value of column `k` of a row read back. */
  function RowField(row: Row, k: string): Value
  {
    if k == "id" then Int(row.id)
    else if k == "vacancy_name" then row.name
    else if k == "schedule" then row.schedule
    else if k == "experience" then row.experience
    else if k == "city" then row.city
    else if k == "employer" then row.employer
    else if k == "salary_from" then row.salaryFrom
    else if k == "salary_to" then row.salaryTo
    else if k == "type" then row.kind
    else if k == "url" then row.url
    else if k == "key_skills" then row.keySkills
    else if k == "professional_role" then row.role
    else if k == "description" then row.description
    else if k == "published_at" then StampOf(row.publishedAt)
    else if k == "experience_cat" then row.experienceCat
    else if k == "grade" then row.grade
    else row.predictedSalary
  }

  /** A row read back as a dict (an `asyncpg.Record`). */
  function RowDict(row: Row): (r: Record)
    ensures r.Keys == RowKeys
    ensures r["id"] == Int(row.id) && r["vacancy_name"] == row.name && r["salary_from"] == row.salaryFrom
    ensures r["salary_to"] == row.salaryTo && r["predicted_salary"] == row.predictedSalary
    ensures r["employer"] == row.employer && r["city"] == row.city && r["grade"] == row.grade
    ensures r["url"] == row.url && r["published_at"] == StampOf(row.publishedAt)
  {
    map k | k in RowKeys :: RowField(row, k)
  }

  /** The value bound to `published_at`: `None` stays NULL, a `datetime` is
      stored as the UTC instant it denotes (a naive one read as UTC), and
      anything else is refused by the driver. */
  function PublishedColumn(v: Value): (r: Result<Option<int>, Failure>)
    ensures v == Null ==> r == Ok(None)
    ensures v.Stamp? ==> r == Ok(Some(Instant(AsUtc(v.dt))))
    ensures !v.Null? && !v.Stamp? ==> r == Err(DataError)
  {
    match v
    case Null => Ok(None)
    case Stamp(dt) => Ok(Some(Instant(AsUtc(dt))))
    case _ => Err(DataError)
  }

  /** The row `insert_vacancy` binds for a vacancy dict: `int(vacancy['id'])`
      and `vacancy['vacancy_name']` are required, the other columns are read
      with `.get` and five of them have defaults. */
  function ToRow(vacancy: Record): (r: Result<Row, Failure>)
    ensures "id" !in vacancy ==> r == Err(KeyError)
    ensures "id" in vacancy && PyInt(vacancy["id"]).Err? ==> r == PyInt(vacancy["id"]).PropagateFailure()
    ensures "id" in vacancy && PyInt(vacancy["id"]).Ok? && "vacancy_name" !in vacancy ==> r == Err(KeyError)
    ensures r.Ok? ==> "id" in vacancy && PyInt(vacancy["id"]) == Ok(r.value.id) && InBigint(r.value.id)
    ensures r.Ok? ==> r.value.name == vacancy["vacancy_name"]
    ensures r.Ok? ==> r.value.keySkills == GetOr(vacancy, "key_skills", Str(""))
                      && r.value.role == GetOr(vacancy, "professional_role", Str(""))
                      && r.value.experienceCat == GetOr(vacancy, "experience_cat", Int(1))
                      && r.value.grade == GetOr(vacancy, "grade", Str(UnknownGrade))
                      && r.value.predictedSalary == Get(vacancy, "predicted_salary")
    ensures r.Ok? ==> r.value.salaryFrom == Get(vacancy, "salary_from") && r.value.salaryTo == Get(vacancy, "salary_to")
                      && r.value.employer == Get(vacancy, "employer") && r.value.city == Get(vacancy, "city")
                      && r.value.url == Get(vacancy, "url")
    ensures r.Ok? ==> PublishedColumn(Get(vacancy, "published_at")) == Ok(r.value.publishedAt)
    ensures ("id" in vacancy && PyInt(vacancy["id"]).Ok? && !InBigint(PyInt(vacancy["id"]).value)
             && "vacancy_name" in vacancy) ==> r == Err(DataError)
  {
    var idValue :- if "id" in vacancy then Ok(vacancy["id"]) else Err(KeyError);
    var id :- PyInt(idValue);
    var name :- if "vacancy_name" in vacancy then Ok(vacancy["vacancy_name"]) else Err(KeyError);
    if !InBigint(id) then Err(DataError)
    else
      var published :- PublishedColumn(Get(vacancy, "published_at"));
      Ok(Row(id, name, Get(vacancy, "schedule"), Get(vacancy, "experience"), Get(vacancy, "city"),
             Get(vacancy, "employer"), Get(vacancy, "salary_from"), Get(vacancy, "salary_to"),
             Get(vacancy, "type"), Get(vacancy, "url"), GetOr(vacancy, "key_skills", Str("")),
             GetOr(vacancy, "professional_role", Str("")), Get(vacancy, "description"), published,
             GetOr(vacancy, "experience_cat", Int(1)), GetOr(vacancy, "grade", Str(UnknownGrade)),
             Get(vacancy, "predicted_salary")))
  }

  // ---------------------------------------------------------------------------
  // the tables as values

  /** Every row is stored under its own id (the primary key). */
  ghost predicate Keyed(vacancies: map<int, Row>)
  {
    forall k :: k in vacancies ==> vacancies[k].id == k
  }

  /** `INSERT INTO users (chat_id) ... ON CONFLICT (chat_id) DO UPDATE SET
      last_check = NOW()`: a new subscriber gets the default interval, an
      existing one keeps its interval; either way the checkpoint is now. */
  function Subscribed(users: map<int, User>, chat: int, now: int): (r: map<int, User>)
    ensures r.Keys == users.Keys + {chat}
    ensures r[chat].lastCheck == now
    ensures chat in users ==> r[chat].interval == users[chat].interval
    ensures chat !in users ==> r[chat].interval == DefaultInterval
    ensures forall c :: c in users && c != chat ==> r[c] == users[c]
  {
    var interval := if chat in users then users[chat].interval else DefaultInterval;
    users[chat := User(interval, now)]
  }

  /** `INSERT INTO users (chat_id, update_interval) ... ON CONFLICT (chat_id)
      DO UPDATE SET update_interval = EXCLUDED.update_interval`: only the
      interval of an existing subscriber changes; a new one starts now. */
  function WithInterval(users: map<int, User>, chat: int, interval: int, now: int): (r: map<int, User>)
    ensures r.Keys == users.Keys + {chat}
    ensures r[chat].interval == interval
    ensures chat in users ==> r[chat].lastCheck == users[chat].lastCheck
    ensures chat !in users ==> r[chat].lastCheck == now
    ensures forall c :: c in users && c != chat ==> r[c] == users[c]
  {
    var lastCheck := if chat in users then users[chat].lastCheck else now;
    users[chat := User(interval, lastCheck)]
  }

  /** `UPDATE users SET last_check = $1 WHERE chat_id = $2`: no row, no change. */
  function WithCheckpoint(users: map<int, User>, chat: int, t: int): (r: map<int, User>)
    ensures r.Keys == users.Keys
    ensures chat in users ==> r[chat] == User(users[chat].interval, t)
    ensures forall c :: c in users && c != chat ==> r[c] == users[c]
  {
    if chat in users then users[chat := User(users[chat].interval, t)] else users
  }

  /** `INSERT ... ON CONFLICT (id) DO NOTHING`. */
  function InsertIfAbsent(vacancies: map<int, Row>, row: Row): (r: map<int, Row>)
    ensures r.Keys == vacancies.Keys + {row.id}
    ensures row.id in vacancies ==> r == vacancies
    ensures row.id !in vacancies ==> r[row.id] == row
    ensures forall k :: k in vacancies ==> r[k] == vacancies[k]
  {
    if row.id in vacancies then vacancies else vacancies[row.id := row]
  }

  /** Inserting the same row twice leaves the table as inserting it once. */
  lemma InsertIdempotent(vacancies: map<int, Row>, row: Row)
    ensures InsertIfAbsent(InsertIfAbsent(vacancies, row), row) == InsertIfAbsent(vacancies, row)
  {
  }

  /** Insertion keeps every row under its own id. */
  lemma InsertKeepsKeyed(vacancies: map<int, Row>, row: Row)
    requires Keyed(vacancies)
    ensures Keyed(InsertIfAbsent(vacancies, row))
  {
  }

  /** The rows `rows` inserted one after another. */
  function InsertAll(vacancies: map<int, Row>, rows: seq<Row>): (r: map<int, Row>)
    ensures vacancies.Keys <= r.Keys
    ensures forall k :: k in vacancies ==> r[k] == vacancies[k]
    ensures forall i :: 0 <= i < |rows| ==> rows[i].id in r
    decreases |rows|
  {
    if rows == [] then vacancies
    else
      var r := InsertAll(InsertIfAbsent(vacancies, rows[0]), rows[1..]);
      assert forall i :: 1 <= i < |rows| ==> rows[i] == rows[1..][i - 1];
      r
  }

  /** Inserting one more row after a batch is the batch extended by it. */
  lemma {:induction false} InsertAllSnoc(vacancies: map<int, Row>, rows: seq<Row>, row: Row)
    ensures InsertAll(vacancies, rows + [row]) == InsertIfAbsent(InsertAll(vacancies, rows), row)
    decreases |rows|
  {
    if rows == [] {
      assert rows + [row] == [row];
      assert InsertAll(InsertIfAbsent(vacancies, row), []) == InsertIfAbsent(vacancies, row);
    } else {
      assert (rows + [row])[0] == rows[0];
      assert (rows + [row])[1..] == rows[1..] + [row];
      InsertAllSnoc(InsertIfAbsent(vacancies, rows[0]), rows[1..], row);
    }
  }

  /** `InsertAll` adds no row whose id was not inserted. */
  lemma {:induction false} InsertAllOnlyInserts(vacancies: map<int, Row>, rows: seq<Row>)
    ensures forall k :: k in InsertAll(vacancies, rows) ==>
              k in vacancies || exists i :: 0 <= i < |rows| && rows[i].id == k
    decreases |rows|
  {
    if rows != [] {
      InsertAllOnlyInserts(InsertIfAbsent(vacancies, rows[0]), rows[1..]);
      forall k | k in InsertAll(vacancies, rows)
        ensures k in vacancies || exists i :: 0 <= i < |rows| && rows[i].id == k
      {
        if k !in vacancies && k != rows[0].id {
          var i :| 0 <= i < |rows[1..]| && rows[1..][i].id == k;
          assert rows[i + 1].id == k;
        }
      }
    }
  }

  /** Replaying a batch of inserts changes nothing: the insert is idempotent
      for whole batches too. */
  lemma {:induction false} InsertAllIdempotent(vacancies: map<int, Row>, rows: seq<Row>)
    ensures InsertAll(InsertAll(vacancies, rows), rows) == InsertAll(vacancies, rows)
    decreases |rows|
  {
    var once := InsertAll(vacancies, rows);
    InsertAllKeepsPresent(once, rows);
  }

  /** Inserting rows whose ids are all present already changes nothing. */
  lemma {:induction false} InsertAllKeepsPresent(vacancies: map<int, Row>, rows: seq<Row>)
    requires forall i :: 0 <= i < |rows| ==> rows[i].id in vacancies
    ensures InsertAll(vacancies, rows) == vacancies
    decreases |rows|
  {
    if rows != [] {
      assert InsertIfAbsent(vacancies, rows[0]) == vacancies;
      InsertAllKeepsPresent(vacancies, rows[1..]);
    }
  }

  /** Insertion keeps every row under its own id, for a batch. */
  lemma {:induction false} InsertAllKeepsKeyed(vacancies: map<int, Row>, rows: seq<Row>)
    requires Keyed(vacancies)
    ensures Keyed(InsertAll(vacancies, rows))
    decreases |rows|
  {
    if rows != [] {
      InsertKeepsKeyed(vacancies, rows[0]);
      InsertAllKeepsKeyed(InsertIfAbsent(vacancies, rows[0]), rows[1..]);
    }
  }

  /** `published_at > $1`: a NULL timestamp is never newer than anything. */
  predicate NewerThan(row: Row, since: int)
  {
    row.publishedAt.Some? && row.publishedAt.value > since
  }

  /** `ORDER BY published_at DESC`: `a` may come before `b`. PostgreSQL sorts
      NULLs first in descending order. */
  predicate NoLater(a: Option<int>, b: Option<int>)
  {
    a.None? || (b.Some? && a.value >= b.value)
  }

  /** Any two timestamps can be ordered, and the order is transitive. */
  lemma NoLaterTotal(a: Option<int>, b: Option<int>, c: Option<int>)
    ensures NoLater(a, b) || NoLater(b, a)
    ensures NoLater(a, b) && NoLater(b, c) ==> NoLater(a, c)
  {
  }

  /** The `published_at` values of the table that are not NULL. */
  function Published(vacancies: map<int, Row>): (r: set<int>)
    ensures forall k :: k in vacancies && vacancies[k].publishedAt.Some? ==> vacancies[k].publishedAt.value in r
  {
    set k | k in vacancies && vacancies[k].publishedAt.Some? :: vacancies[k].publishedAt.value
  }

  /** Whether an id already has a row. */
  predicate IsStored(vacancies: map<int, Row>, id: int)
  {
    id in vacancies
  }

  /** The state of `self.pool`: never assigned (before `connect`), open, or
      with its connections lost. */
  datatype Pool = NoPool | Open | Lost

  /** The `Database` object of the bot together with the server it talks to. */
  class Database {
    var users: map<int, User>
    var vacancies: map<int, Row>
    var pool: Pool
    /** Whether the server accepts new connections. */
    var reachable: bool
    /** How many pools `connect` has created. */
    var connects: nat

    ghost predicate Valid()
      reads this
    {
      Keyed(vacancies)
    }

    /** `Database(config)` over tables that already hold `users0` and
        `vacancies0`; no pool yet. */
    constructor (users0: map<int, User>, vacancies0: map<int, Row>)
      requires Keyed(vacancies0)
      ensures Valid()
      ensures users == users0 && vacancies == vacancies0
      ensures pool == NoPool && reachable && connects == 0
    {
      users := users0;
      vacancies := vacancies0;
      pool := NoPool;
      reachable := true;
      connects := 0;
    }

    /** The failure of `self.pool.acquire()` followed by one statement, if
        any: an unassigned pool raises `AttributeError`, lost connections
        raise `ConnectionLost` when the statement runs. */
    function PoolFailure(): (r: Option<Failure>)
      reads this
      ensures r.None? <==> pool == Open
      ensures pool == NoPool ==> r == Some(AttributeError)
      ensures pool == Lost ==> r == Some(ConnectionLost)
    {
      match pool
      case NoPool => Some(AttributeError)
      case Lost => Some(ConnectionLost)
      case Open => None
    }

    /** `connect`: a new pool when the server is reachable. */
    method Connect() returns (r: Result<(), Failure>)
      modifies this
      ensures r.Ok? <==> old(reachable)
      ensures r.Err? ==> r.error == Unreachable
      ensures r.Ok? ==> pool == Open && connects == old(connects) + 1
      ensures r.Err? ==> pool == old(pool) && connects == old(connects)
      ensures users == old(users) && vacancies == old(vacancies) && reachable == old(reachable)
    {
      if !reachable {
        return Err(Unreachable);
      }
      pool := Open;
      connects := connects + 1;
      r := Ok(());
    }

    /** The server closes the pool's connections. */
    method DropConnections()
      modifies this
      ensures pool == (if old(pool) == NoPool then NoPool else Lost)
      ensures users == old(users) && vacancies == old(vacancies)
      ensures reachable == old(reachable) && connects == old(connects)
    {
      if pool != NoPool {
        pool := Lost;
      }
    }

    /** `add_user`. */
    method AddUser(chat: int, now: int) returns (r: Result<(), Failure>)
      modifies this
      ensures r.Ok? <==> old(pool) == Open
      ensures r.Err? ==> Some(r.error) == PoolFailure()
      ensures r.Ok? ==> users == Subscribed(old(users), chat, now)
      ensures r.Err? ==> users == old(users)
      ensures vacancies == old(vacancies) && pool == old(pool)
      ensures reachable == old(reachable) && connects == old(connects)
    {
      var failure := PoolFailure();
      if failure.Some? {
        return Err(failure.value);
      }
      users := Subscribed(users, chat, now);
      r := Ok(());
    }

    /** `update_user_settings`: the interval is bound to an `INT` column. */
    method UpdateUserSettings(chat: int, interval: int, now: int) returns (r: Result<(), Failure>)
      modifies this
      ensures r.Ok? <==> old(pool) == Open && InInt(interval)
      ensures old(pool) != Open ==> Some(r.error) == PoolFailure()
      ensures old(pool) == Open && !InInt(interval) ==> r == Err(DataError)
      ensures r.Ok? ==> users == WithInterval(old(users), chat, interval, now)
      ensures r.Err? ==> users == old(users)
      ensures vacancies == old(vacancies) && pool == old(pool)
      ensures reachable == old(reachable) && connects == old(connects)
    {
      var failure := PoolFailure();
      if failure.Some? {
        return Err(failure.value);
      }
      if !InInt(interval) {
        return Err(DataError);
      }
      users := WithInterval(users, chat, interval, now);
      r := Ok(());
    }

    /** `unsubscribe_user`: exactly that chat id is removed. */
    method UnsubscribeUser(chat: int) returns (r: Result<(), Failure>)
      modifies this
      ensures r.Ok? <==> old(pool) == Open
      ensures r.Err? ==> Some(r.error) == PoolFailure()
      ensures r.Ok? ==> users == old(users) - {chat}
      ensures r.Err? ==> users == old(users)
      ensures vacancies == old(vacancies) && pool == old(pool)
      ensures reachable == old(reachable) && connects == old(connects)
    {
      var failure := PoolFailure();
      if failure.Some? {
        return Err(failure.value);
      }
      users := users - {chat};
      r := Ok(());
    }

    /** The statement `update_last_check` runs on a connection it acquires
        itself. */
    method SetLastCheck(chat: int, t: int) returns (r: Result<(), Failure>)
      modifies this
      ensures r.Ok? <==> old(pool) == Open
      ensures r.Err? ==> Some(r.error) == PoolFailure()
      ensures r.Ok? ==> users == WithCheckpoint(old(users), chat, t)
      ensures r.Err? ==> users == old(users)
      ensures vacancies == old(vacancies) && pool == old(pool)
      ensures reachable == old(reachable) && connects == old(connects)
    {
      var failure := PoolFailure();
      if failure.Some? {
        return Err(failure.value);
      }
      users := WithCheckpoint(users, chat, t);
      r := Ok(());
    }

    /** `get_user`: the subscriber's row, or `None`. */
    method GetUser(chat: int) returns (r: Result<Option<UserRecord>, Failure>)
      ensures r.Ok? <==> pool == Open
      ensures r.Err? ==> Some(r.error) == PoolFailure()
      ensures r.Ok? ==> (r.value.None? <==> chat !in users)
      ensures r.Ok? && r.value.Some? ==>
                r.value.value == UserRecord(chat, users[chat].interval, users[chat].lastCheck)
    {
      var failure := PoolFailure();
      if failure.Some? {
        return Err(failure.value);
      }
      if chat in users {
        r := Ok(Some(UserRecord(chat, users[chat].interval, users[chat].lastCheck)));
      } else {
        r := Ok(None);
      }
    }

    /** `get_all_users`: every subscriber once, in no promised order. */
    method GetAllUsers() returns (r: Result<seq<UserRecord>, Failure>)
      ensures r.Ok? <==> pool == Open
      ensures r.Err? ==> Some(r.error) == PoolFailure()
      ensures r.Ok? ==> forall u :: u in r.value <==>
                          u.chatId in users && users[u.chatId] == User(u.interval, u.lastCheck)
      ensures r.Ok? ==> forall i, j :: 0 <= i < j < |r.value| ==> r.value[i].chatId != r.value[j].chatId
    {
      var failure := PoolFailure();
      if failure.Some? {
        return Err(failure.value);
      }
      var rows: seq<UserRecord> := [];
      var left := users.Keys;
      while left != {}
        invariant left <= users.Keys
        invariant forall u :: u in rows <==>
                    u.chatId in users && u.chatId !in left && users[u.chatId] == User(u.interval, u.lastCheck)
        invariant forall i, j :: 0 <= i < j < |rows| ==> rows[i].chatId != rows[j].chatId
        invariant forall i :: 0 <= i < |rows| ==> rows[i].chatId !in left
        decreases |left|
      {
        ghost var some := MemberOf(left);
        var chat :| chat in left;
        rows := rows + [UserRecord(chat, users[chat].interval, users[chat].lastCheck)];
        left := left - {chat};
      }
      r := Ok(rows);
    }

    /** `get_existing_ids` (the `GET_EXISTING_IDS` query): exactly the
        stored ids. */
    method GetExistingIds() returns (r: Result<set<int>, Failure>)
      requires Valid()
      ensures r.Ok? <==> pool == Open
      ensures r.Err? ==> Some(r.error) == PoolFailure()
      ensures r.Ok? ==> forall id :: id in r.value <==> IsStored(vacancies, id)
    {
      var failure := PoolFailure();
      if failure.Some? {
        return Err(failure.value);
      }
      var ids: set<int> := {};
      var left := vacancies.Keys;
      while left != {}
        invariant left <= vacancies.Keys
        invariant forall id :: id in ids <==> id in vacancies && id !in left
        decreases |left|
      {
        ghost var some := MemberOf(left);
        var k :| k in left;
        ids := ids + {vacancies[k].id};
        left := left - {k};
      }
      r := Ok(ids);
    }

    /** `get_new_vacancies(t)`: exactly the rows published strictly after
        `since`, each once. */
    method GetNewVacancies(since: int) returns (r: Result<seq<Row>, Failure>)
      requires Valid()
      ensures r.Ok? <==> pool == Open
      ensures r.Err? ==> Some(r.error) == PoolFailure()
      ensures r.Ok? ==> forall row :: row in r.value <==> row.id in vacancies && vacancies[row.id] == row && NewerThan(row, since)
      ensures r.Ok? ==> forall i, j :: 0 <= i < j < |r.value| ==> r.value[i].id != r.value[j].id
    {
      var failure := PoolFailure();
      if failure.Some? {
        return Err(failure.value);
      }
      var rows: seq<Row> := [];
      var left := vacancies.Keys;
      while left != {}
        invariant left <= vacancies.Keys
        invariant forall row :: row in rows <==>
                    row.id in vacancies && row.id !in left && vacancies[row.id] == row && NewerThan(row, since)
        invariant forall i, j :: 0 <= i < j < |rows| ==> rows[i].id != rows[j].id
        invariant forall i :: 0 <= i < |rows| ==> rows[i].id !in left
        decreases |left|
      {
        ghost var some := MemberOf(left);
        var k :| k in left;
        if NewerThan(vacancies[k], since) {
          rows := rows + [vacancies[k]];
        }
        left := left - {k};
      }
      r := Ok(rows);
    }

    /** An id among `left` whose row comes first in `ORDER BY published_at
        DESC`. */
    method PickLatest(left: set<int>) returns (k: int)
      requires left <= vacancies.Keys && left != {}
      ensures k in left
      ensures forall j :: j in left ==> NoLater(vacancies[k].publishedAt, vacancies[j].publishedAt)
    {
      ghost var some := MemberOf(left);
      k :| k in left;
      var rest := left - {k};
      while rest != {}
        invariant rest <= left && k in left
        invariant forall j :: j in left && j !in rest ==> NoLater(vacancies[k].publishedAt, vacancies[j].publishedAt)
        decreases |rest|
      {
        ghost var some := MemberOf(rest);
        var j :| j in rest;
        if !NoLater(vacancies[k].publishedAt, vacancies[j].publishedAt) {
          NoLaterTotal(vacancies[j].publishedAt, vacancies[k].publishedAt, vacancies[k].publishedAt);
          forall i | i in left && i !in rest
            ensures NoLater(vacancies[j].publishedAt, vacancies[i].publishedAt)
          {
            NoLaterTotal(vacancies[j].publishedAt, vacancies[k].publishedAt, vacancies[i].publishedAt);
          }
          k := j;
        }
        rest := rest - {j};
      }
    }

    /** `get_recent_vacancies(limit)`: at most `limit` rows, newest first
        (NULLs first), fewer only when the table runs out, and no row left out
        is newer than one returned. A negative `LIMIT` is an error. */
    method GetRecentVacancies(limit: int) returns (r: Result<seq<Row>, Failure>)
      requires Valid()
      ensures pool != Open ==> r.Err? && Some(r.error) == PoolFailure()
      ensures pool == Open ==> (r.Ok? <==> limit >= 0)
      ensures pool == Open && limit < 0 ==> r == Err(DataError)
      ensures r.Ok? ==> |r.value| <= limit
      ensures r.Ok? ==> forall row :: row in r.value ==> row.id in vacancies && vacancies[row.id] == row
      ensures r.Ok? ==> forall i, j :: 0 <= i < j < |r.value| ==> r.value[i].id != r.value[j].id
      ensures r.Ok? ==> forall i, j :: 0 <= i < j < |r.value| ==> NoLater(r.value[i].publishedAt, r.value[j].publishedAt)
      ensures r.Ok? && |r.value| < limit ==> forall k :: k in vacancies ==> vacancies[k] in r.value
      ensures r.Ok? ==> forall k, i :: k in vacancies && vacancies[k] !in r.value && 0 <= i < |r.value| ==>
                          NoLater(r.value[i].publishedAt, vacancies[k].publishedAt)
    {
      var failure := PoolFailure();
      if failure.Some? {
        return Err(failure.value);
      }
      if limit < 0 {
        return Err(DataError);
      }
      var rows: seq<Row> := [];
      var left := vacancies.Keys;
      while |rows| < limit && left != {}
        invariant left <= vacancies.Keys
        invariant |rows| <= limit
        invariant forall row :: row in rows ==> row.id in vacancies && vacancies[row.id] == row && row.id !in left
        invariant forall k :: k in vacancies && k !in left ==> vacancies[k] in rows
        invariant forall i, j :: 0 <= i < j < |rows| ==> rows[i].id != rows[j].id
        invariant forall i, j :: 0 <= i < j < |rows| ==> NoLater(rows[i].publishedAt, rows[j].publishedAt)
        invariant forall k, i :: k in left && 0 <= i < |rows| ==> NoLater(rows[i].publishedAt, vacancies[k].publishedAt)
        decreases |left|
      {
        var k := PickLatest(left);
        rows := rows + [vacancies[k]];
        left := left - {k};
      }
      r := Ok(rows);
    }

    /** The largest stored `published_at`, by a scan of the table; `None` when
        every row has a NULL timestamp or there is no row (SQL `MAX`). */
    method MaxPublished() returns (m: Option<int>)
      ensures m.None? <==> Published(vacancies) == {}
      ensures m.Some? ==> m.value in Published(vacancies) && forall t :: t in Published(vacancies) ==> t <= m.value
    {
      m := None;
      var left := vacancies.Keys;
      while left != {}
        invariant left <= vacancies.Keys
        invariant m.None? <==> forall k :: k in vacancies && k !in left ==> vacancies[k].publishedAt.None?
        invariant m.Some? ==> m.value in Published(vacancies)
        invariant m.Some? ==> forall k :: k in vacancies && k !in left && vacancies[k].publishedAt.Some? ==>
                                 vacancies[k].publishedAt.value <= m.value
        decreases |left|
      {
        ghost var some := MemberOf(left);
        var k :| k in left;
        var p := vacancies[k].publishedAt;
        if p.Some? && (m.None? || p.value > m.value) {
          m := p;
        }
        left := left - {k};
      }
    }

    /** `get_last_published_time`: the watermark. The newest stored
        `published_at`, tagged UTC; the current time when there is none or the
        query fails. Only a pool that was never created makes it raise. */
    method GetLastPublishedTime(now: int) returns (r: Result<DateTime, Failure>)
      ensures pool == NoPool ==> r == Err(AttributeError)
      ensures pool != NoPool ==> r.Ok? && r.value.offset == Some(0)
      ensures pool == Lost ==> r == Ok(Utc(now))
      ensures pool == Open && Published(vacancies) == {} ==> r == Ok(Utc(now))
      ensures pool == Open && Published(vacancies) != {} ==>
                r.Ok? && Instant(r.value) in Published(vacancies)
                && forall t :: t in Published(vacancies) ==> t <= Instant(r.value)
    {
      if pool == NoPool {
        return Err(AttributeError);
      }
      if pool == Lost {
        return Ok(Utc(now));
      }
      var last := MaxPublished();
      if last.None? {
        return Ok(Utc(now));
      }
      r := Ok(AsUtc(DateTime(last.value, None)));
    }

    /** `insert_vacancy`: the vacancy's row is added unless its id is
        already stored; the arguments are evaluated on an acquired
        connection, before the statement runs. */
    method InsertVacancy(vacancy: Record) returns (r: Result<(), Failure>)
      requires Valid()
      modifies this
      ensures Valid()
      ensures old(pool) == NoPool ==> r == Err(AttributeError)
      ensures old(pool) != NoPool && ToRow(vacancy).Err? ==> r == ToRow(vacancy).PropagateFailure()
      ensures old(pool) == Lost && ToRow(vacancy).Ok? ==> r == Err(ConnectionLost)
      ensures r.Ok? <==> old(pool) == Open && ToRow(vacancy).Ok?
      ensures r.Ok? ==> vacancies == InsertIfAbsent(old(vacancies), ToRow(vacancy).value)
      ensures r.Err? ==> vacancies == old(vacancies)
      ensures users == old(users) && pool == old(pool)
      ensures reachable == old(reachable) && connects == old(connects)
    {
      if pool == NoPool {
        return Err(AttributeError);
      }
      var row :- ToRow(vacancy);
      if pool == Lost {
        return Err(ConnectionLost);
      }
      InsertKeepsKeyed(vacancies, row);
      vacancies := InsertIfAbsent(vacancies, row);
      r := Ok(());
    }
  }
}
