/** The step both sync paths share: filter the ids hh.ru returned against the
    stored ids (`[id for id in new_ids if id not in existing_ids]`), as written
    and as intended, then fetch, process and convert each candidate. */
module Sync {
  import opened Wrappers
  import opened Time
  import opened Text
  import opened PyValues
  import opened HhParser
  import opened Store

  /** `xs` is `ys` with some elements dropped, the rest kept in order. */
  predicate IsSubseq<T(==)>(xs: seq<T>, ys: seq<T>)
    decreases |ys|
  {
    xs == [] || (ys != [] && ((xs[0] == ys[0] && IsSubseq(xs[1..], ys[1..])) || IsSubseq(xs, ys[1..])))
  }

  /** Python's `v in existing` for a hashable `v` and a set of ints: only an
      `int` (or a `bool`, which compares as 0 or 1) can be equal to a member. */
  predicate PyIn(v: Value, existing: set<int>)
  {
    match v
    case Int(i) => i in existing
    case Bool(b) => (if b then 1 else 0) in existing
    case _ => false
  }

  /** The id filter as written: hh.ru ids are JSON strings and the stored ids
      are ints, so `id not in existing_ids` holds for every string id. */
  function IdsToProcessAsWritten(ids: seq<Value>, existing: set<int>): (r: seq<Value>)
    ensures forall x :: x in r <==> x in ids && !PyIn(x, existing)
    decreases |ids|
  {
    if ids == [] then []
    else if PyIn(ids[0], existing) then IdsToProcessAsWritten(ids[1..], existing)
    else [ids[0]] + IdsToProcessAsWritten(ids[1..], existing)
  }

  /** Whether the vacancy with this hh.ru id is already a row: its id, read as
      an integer the way `insert_vacancy` stores it, is among the stored ids. */
  predicate AlreadyStored(id: Value, existing: set<int>)
  {
    PyInt(id).Ok? && PyInt(id).value in existing
  }

  /** The id filter as intended: exactly the candidates whose vacancy is not
      stored yet, in candidate order. */
  function IdsToProcess(ids: seq<Value>, existing: set<int>): (r: seq<Value>)
    ensures forall x :: x in r <==> x in ids && !AlreadyStored(x, existing)
    ensures IsSubseq(r, ids)
    ensures |r| <= |ids|
    ensures Distinct(ids) ==> Distinct(r)
    decreases |ids|
  {
    if ids == [] then []
    else if AlreadyStored(ids[0], existing) then
      IdsToProcess(ids[1..], existing)
    else
      var rest := IdsToProcess(ids[1..], existing);
      assert ([ids[0]] + rest)[1..] == rest;
      [ids[0]] + rest
  }

  /** Every hh.ru id is a string, so the filter as written keeps all of them,
      stored or not. */
  lemma {:induction false} AsWrittenKeepsStringIds(ids: seq<Value>, existing: set<int>)
    requires forall i :: 0 <= i < |ids| ==> ids[i].Str?
    ensures IdsToProcessAsWritten(ids, existing) == ids
    decreases |ids|
  {
    if ids != [] {
      AsWrittenKeepsStringIds(ids[1..], existing);
      assert [ids[0]] + ids[1..] == ids;
    }
  }

  /** The vacancy with hh.ru id "1" is stored as row 1: the filter as written
      sends it to be fetched again, the intended filter drops it. */
  lemma StoredIdRefetched()
    ensures IdsToProcessAsWritten([Str("1")], {1}) == [Str("1")]
    ensures IdsToProcess([Str("1")], {1}) == []
  {
    assert Str("1").s == "1";
    assert AllDigits("1");
    assert DigitsValue("1") == 1;
    assert ParseInt("1") == Some(1);
    assert AlreadyStored(Str("1"), {1});
  }

  /** The per-id step both sync loops share: `fetch_vacancy`, then
      `process_vacancy` at clock reading `now`, then the row `insert_vacancy`
      binds for the processed vacancy. The result is the processed vacancy
      with its row, or the first exception. */
  function Prepared(env: Collaborators, id: Value, now: int): (r: Result<(Record, Row), Failure>)
    ensures env.detail(id).Err? ==> r == env.detail(id).PropagateFailure()
    ensures env.detail(id).Ok? && !env.detail(id).value.Dict? ==> r == Err(AttributeError)
    ensures r.Ok? ==> env.detail(id).Ok? && env.detail(id).value.Dict?
    ensures r.Ok? ==> ProcessVacancy(env.detail(id).value, env, now) == Ok(r.value.0)
                      && ToRow(r.value.0) == Ok(r.value.1)
    // the row is the vacancy hh.ru described under that id
    ensures r.Ok? ==> var raw := env.detail(id).value.fields;
                      PyInt(Get(raw, "id")) == Ok(r.value.1.id) && r.value.1.name == Get(raw, "name")
                      && (r.value.1.publishedAt.Some? <==> Truthy(Get(raw, "published_at")))
    // a row states its lower salary bound or carries an estimate, never both
    ensures r.Ok? ==> (r.value.1.salaryFrom == Null <==> r.value.1.predictedSalary.Int?)
    ensures r.Ok? ==> r.value.1.grade.Str? && r.value.1.keySkills.Str?
  {
    var raw :- env.detail(id);
    var vacancy :- ProcessVacancy(raw, env, now);
    var row :- ToRow(vacancy);
    Ok((vacancy, row))
  }

  /** The row of `Prepared`. */
  function PreparedRow(env: Collaborators, id: Value, now: int): Result<Row, Failure>
  {
    var pair :- Prepared(env, id, now);
    Ok(pair.1)
  }

  /** The rows a run of the sync loop stores when `prepare` turns `ids[j]`,
      processed at clock reading `times[j]`, into a row; or the first
      failure. */
  function SyncedRows(prepare: (Value, int) -> Result<Row, Failure>, ids: seq<Value>, times: seq<int>): (r: Result<seq<Row>, Failure>)
    requires |ids| == |times|
    ensures r.Ok? ==> |r.value| == |ids|
    decreases |ids|
  {
    if ids == [] then Ok([])
    else
      var rows :- SyncedRows(prepare, ids[..|ids| - 1], times[..|times| - 1]);
      var row :- prepare(ids[|ids| - 1], times[|times| - 1]);
      Ok(rows + [row])
  }

  /** One more id processed successfully, the next one of `ids` after its
      first `n`, adds its row at the end. */
  lemma SyncedRowsSnoc(prepare: (Value, int) -> Result<Row, Failure>, ids: seq<Value>, n: nat, times: seq<int>,
                       rows: seq<Row>, t: int, row: Row)
    requires n < |ids| && |times| == n && SyncedRows(prepare, ids[..n], times) == Ok(rows)
    requires prepare(ids[n], t) == Ok(row)
    ensures SyncedRows(prepare, ids[..n + 1], times + [t]) == Ok(rows + [row])
  {
    assert ids[..n + 1][..n] == ids[..n];
    assert (times + [t])[..n] == times;
  }

  /** Each row is the row of the id at the same position. */
  lemma {:induction false} SyncedRowsAt(prepare: (Value, int) -> Result<Row, Failure>, ids: seq<Value>, times: seq<int>, j: nat)
    requires |ids| == |times| && SyncedRows(prepare, ids, times).Ok? && j < |ids|
    ensures prepare(ids[j], times[j]) == Ok(SyncedRows(prepare, ids, times).value[j])
    decreases |ids|
  {
    if j < |ids| - 1 {
      SyncedRowsAt(prepare, ids[..|ids| - 1], times[..|times| - 1], j);
    }
  }

  /** What the front half of a sync yields on a store holding `vacancies`
      over a pool in state `pool`, with the clock read between `t0` and `t1`.
      The watermark searched from is the newest stored publication instant,
      in UTC, or the clock reading when nothing has one or the connection is
      lost; a missing pool, a failed search, an unhashable id and a lost
      connection fail in that order; otherwise the candidates are exactly
      the ids found that are not stored yet, each once. */
  ghost predicate FoundCandidates(env: Collaborators, vacancies: map<int, Row>, pool: Pool, t0: int, t1: int,
                                  watermark: DateTime, r: Result<seq<Value>, Failure>)
  {
    if pool == NoPool then r == Err(AttributeError)
    else
      watermark.offset == Some(0)
      && (pool == Open && Published(vacancies) != {} ==>
            Instant(watermark) in Published(vacancies) && forall t :: t in Published(vacancies) ==> t <= Instant(watermark))
      && (pool == Lost || Published(vacancies) == {} ==> t0 <= Instant(watermark) <= t1)
      && match SearchIds(env, watermark, MaxPages)
         case Err(e) => r == Err(e)
         case Ok(found) =>
           if exists i :: 0 <= i < |found| && !Hashable(found[i]) then r == Err(TypeError)
           else if pool == Lost then r == Err(ConnectionLost)
           else r.Ok? && Distinct(r.value) && forall x :: x in r.value <==> x in found && !AlreadyStored(x, vacancies.Keys)
  }

  /** What `update_vacancies_from_api` and `start_parsing` both do first: read
      the watermark, fetch the ids hh.ru returns after it, and drop those
      whose vacancy is stored already (the filter as intended, `IdsToProcess`).
      `watermark` is the instant searched from. */
  method FindCandidates(db: Database, clock: Clock, env: Collaborators)
    returns (r: Result<seq<Value>, Failure>, ghost watermark: DateTime)
    requires db.Valid()
    modifies clock
    ensures old(clock.time) <= clock.time
    ensures FoundCandidates(env, db.vacancies, db.pool, old(clock.time), clock.time, watermark, r)
    ensures r.Ok? ==> db.pool == Open
  {
    watermark := Utc(0);
    var now := clock.Now();
    var since := db.GetLastPublishedTime(now);
    if since.Err? {
      return Err(since.error), watermark;
    }
    watermark := since.value;
    assert AsUtc(since.value) == watermark;
    var newIds := FetchHhIds(env, since.value);
    if newIds.Err? {
      return Err(newIds.error), watermark;
    }
    var existing := db.GetExistingIds();
    if existing.Err? {
      return Err(existing.error), watermark;
    }
    assert forall id :: id in existing.value <==> id in db.vacancies.Keys;
    assert existing.value == db.vacancies.Keys;
    r := Ok(IdsToProcess(newIds.value, existing.value));
  }

  /** The results of the ids whose `step`, taken at clock reading `times[j]`,
      succeeds, in order; the ids whose step fails are skipped. */
  function Kept<T>(step: (Value, int) -> Result<T, Failure>, ids: seq<Value>, times: seq<int>): (r: seq<T>)
    requires |ids| == |times|
    ensures |r| <= |ids|
    decreases |ids|
  {
    if ids == [] then []
    else
      var last := step(ids[|ids| - 1], times[|times| - 1]);
      Kept(step, ids[..|ids| - 1], times[..|times| - 1]) + (if last.Ok? then [last.value] else [])
  }

  /** One more id keeps its result exactly when its step succeeds. */
  lemma KeptSnoc<T>(step: (Value, int) -> Result<T, Failure>, ids: seq<Value>, times: seq<int>, id: Value, t: int)
    requires |ids| == |times|
    ensures step(id, t).Ok? ==> Kept(step, ids + [id], times + [t]) == Kept(step, ids, times) + [step(id, t).value]
    ensures step(id, t).Err? ==> Kept(step, ids + [id], times + [t]) == Kept(step, ids, times)
  {
    assert (ids + [id])[..|ids|] == ids;
    assert (times + [t])[..|times|] == times;
  }

  /** When every step succeeds nothing is skipped: the results are those of
      the ids, position by position. */
  lemma {:induction false} KeptAll<T>(step: (Value, int) -> Result<T, Failure>, ids: seq<Value>, times: seq<int>)
    requires |ids| == |times|
    requires forall j :: 0 <= j < |ids| ==> step(ids[j], times[j]).Ok?
    ensures |Kept(step, ids, times)| == |ids|
    ensures forall j :: 0 <= j < |ids| ==> step(ids[j], times[j]) == Ok(Kept(step, ids, times)[j])
    decreases |ids|
  {
    if ids != [] {
      var n := |ids| - 1;
      KeptAll(step, ids[..n], times[..n]);
    }
  }

  /** When every step fails nothing is kept. */
  lemma {:induction false} KeptNone<T>(step: (Value, int) -> Result<T, Failure>, ids: seq<Value>, times: seq<int>)
    requires |ids| == |times|
    requires forall j :: 0 <= j < |ids| ==> step(ids[j], times[j]).Err?
    ensures Kept(step, ids, times) == []
    decreases |ids|
  {
    if ids != [] {
      var n := |ids| - 1;
      KeptNone(step, ids[..n], times[..n]);
    }
  }
}
