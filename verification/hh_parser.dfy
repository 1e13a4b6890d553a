/** The hh.ru client: the paged id search (`fetch_hh_ids`) and the normaliser
    that turns one raw vacancy into the record the bot stores
    (`process_vacancy`). HTTP, the HTML stripper, the ISO-8601 parser and the
    two CatBoost predictors are collaborators passed in as functions. */
module HhParser {
  import opened Wrappers
  import opened Time
  import opened Text
  import opened PyValues

  /** The placeholder for missing key skills and for a missing schedule feature. */
  const NotSpecified := "Не указано"
  /** The experience label assumed when a vacancy has none. */
  const NoExperience := "Нет опыта"
  /** Result pages requested per search. */
  const MaxPages := 3

  /** The four experience labels hh.ru uses, and their ordinal categories. */
  const ExperienceLevels: map<string, int> := map[
    "Нет опыта" := 0,
    "От 1 года до 3 лет" := 1,
    "От 3 до 6 лет" := 2,
    "Более 6 лет" := 3
  ]

  /** Inputs of the grade classifier. */
  datatype GradeFeatures = GradeFeatures(
    vacancyName: Value, schedule: Value, experience: Value,
    salaryTo: Value, keySkills: string, description: Value)

  /** Inputs of the salary regressor. */
  datatype SalaryFeatures = SalaryFeatures(
    vacancyName: Value, schedule: Value, salaryTo: Value,
    keySkills: string, description: Value, grade: string, experience: Value)

  /** An HTTP response: its status and its decoded JSON body. */
  datatype Response = Response(status: int, body: Value)

  /** What the core calls but does not contain. `search(dateFrom, page)` is
      `GET /vacancies` for one result page; `detail(id)` is the decoded body of
      `GET /vacancies/{id}`, whatever its status; `parseIso` is
      `datetime.fromisoformat` (`None` where it raises); `stripHtml` is
      BeautifulSoup's `get_text`; `predictSalary` already rounds to hundreds. */
  datatype Collaborators = Collaborators(
    search: (DateTime, nat) -> Result<Response, Failure>,
    detail: Value -> Result<Value, Failure>,
    parseIso: string -> Option<DateTime>,
    stripHtml: string -> string,
    predictGrade: GradeFeatures -> string,
    predictSalary: SalaryFeatures -> int)

  // ---------------------------------------------------------------------------
  // field normalisers of process_vacancy

  /** `exp_mapping.get(raw_experience, 0)`: the category of one of the four
      known labels, 0 for anything else; an unhashable label raises. */
  function ExperienceCategory(raw: Value): (r: Result<int, Failure>)
    ensures r.Ok? <==> Hashable(raw)
    ensures r.Ok? ==> 0 <= r.value <= 3
    ensures r.Ok? && r.value != 0 ==> raw.Str? && raw.s in ExperienceLevels && ExperienceLevels[raw.s] == r.value
    ensures raw.Str? && raw.s in ExperienceLevels ==> r == Ok(ExperienceLevels[raw.s])
  {
    if !Hashable(raw) then Err(TypeError)
    else if raw.Str? && raw.s in ExperienceLevels then Ok(ExperienceLevels[raw.s])
    else Ok(0)
  }

  /** The key skills as one string: the `name`s of a list of skill objects
      joined with ", ", a string re-joined with ", " after splitting on ',',
      and the placeholder for an empty list or anything else. */
  function KeySkills(v: Value): (r: Result<string, Failure>)
    ensures v.Str? ==> r == Ok(ReplaceChar(v.s, ',', ", "))
    ensures v == Str("") ==> r == Ok("")
    ensures !v.List? && !v.Str? ==> r == Ok(NotSpecified)
    ensures v == List([]) ==> r == Ok(NotSpecified)
    ensures v.List? ==> (r.Ok? <==> forall i :: 0 <= i < |v.items| ==>
                           Subscript(v.items[i], "name").Ok? && Subscript(v.items[i], "name").value.Str?)
  {
    match v
    case List(skills) =>
      var names :- SubscriptAll(skills, "name");
      if names == [] then Ok(NotSpecified)
      else
        var texts :- Strings(names);
        Ok(Join(", ", texts))
    case Str(s) =>
      JoinSplit(s, ',', ", ");
      Ok(Join(", ", Split(s, ',')))
    case _ => Ok(NotSpecified)
  }

  /** A non-empty list of skill objects whose names are strings becomes those
      names joined by ", ". */
  lemma KeySkillsOfNames(skills: seq<Value>, names: seq<string>)
    requires |skills| == |names| > 0
    requires forall i :: 0 <= i < |skills| ==> Subscript(skills[i], "name") == Ok(Str(names[i]))
    ensures KeySkills(List(skills)) == Ok(Join(", ", names))
  {
    var found := SubscriptAll(skills, "name");
    assert found.Ok?;
    var texts := Strings(found.value);
    assert texts.Ok?;
    assert texts.value == names;
  }

  /** `published_at`: absent or empty stays `None`; a parsed value is kept,
      tagged UTC when naive; an unparseable one becomes the current time. */
  function PublishedAt(v: Value, parseIso: string -> Option<DateTime>, now: int): (r: Value)
    ensures !Truthy(v) ==> r == Null
    ensures Truthy(v) ==> r.Stamp? && r.dt.offset.Some?
    ensures Truthy(v) && v.Str? && parseIso(v.s).Some? ==>
              r.dt.wall == parseIso(v.s).value.wall
              && (parseIso(v.s).value.offset.Some? ==> r.dt == parseIso(v.s).value)
              && (parseIso(v.s).value.offset.None? ==> r.dt.offset == Some(0))
    ensures Truthy(v) && !(v.Str? && parseIso(v.s).Some?) ==> r == Stamp(Utc(now))
  {
    if !Truthy(v) then Null
    else if v.Str? && parseIso(v.s).Some? then Stamp(AsUtc(parseIso(v.s).value))
    else Stamp(Utc(now))
  }

  /** `item.get(k, {}).get('name') if item.get(k) else None`. */
  function NestedName(d: Record, k: string): (r: Result<Value, Failure>)
    ensures !Truthy(Get(d, k)) ==> r == Ok(Null)
    ensures Truthy(Get(d, k)) && Get(d, k).Dict? ==> r == Ok(Get(Get(d, k).fields, "name"))
    ensures Truthy(Get(d, k)) && !Get(d, k).Dict? ==> r == Err(AttributeError)
  {
    var obj := Get(d, k);
    if !Truthy(obj) then Ok(Null)
    else if obj.Dict? then Ok(Get(obj.fields, "name"))
    else Err(AttributeError)
  }

  /** `(v or {})` about to be read with `.get`. */
  function ObjectOrEmpty(v: Value): (r: Result<Record, Failure>)
    ensures !Truthy(v) ==> r == Ok(map[])
    ensures Truthy(v) ==> (r.Ok? <==> v.Dict?) && (v.Dict? ==> r.value == v.fields)
  {
    if !Truthy(v) then Ok(map[]) else if v.Dict? then Ok(v.fields) else Err(AttributeError)
  }

  /** `', '.join([role['name'] for role in item.get('professional_roles', [])]) or None`. */
  function ProfessionalRole(d: Record): (r: Result<Value, Failure>)
    ensures GetOr(d, "professional_roles", List([])) == List([]) ==> r == Ok(Null)
    ensures r.Ok? ==> r.value == Null || (r.value.Str? && r.value.s != "")
    ensures var roles := GetOr(d, "professional_roles", List([]));
            roles.List? ==> (r.Ok? <==> forall i :: 0 <= i < |roles.items| ==>
                               Subscript(roles.items[i], "name").Ok? && Subscript(roles.items[i], "name").value.Str?)
    ensures r.Ok? ==> GetOr(d, "professional_roles", List([])) in {Str(""), Dict(map[])}
                      || GetOr(d, "professional_roles", List([])).List?
  {
    var roles :- ItemsForLookup(GetOr(d, "professional_roles", List([])));
    var names :- SubscriptAll(roles, "name");
    var texts :- Strings(names);
    var joined := Join(", ", texts);
    Ok(if joined == "" then Null else Str(joined))
  }

  /** The roles joined: a list of role objects whose names are strings
      becomes those names joined by ", ", or `None` when that is empty. */
  lemma ProfessionalRoleOfNames(d: Record, roles: seq<Value>, names: seq<string>)
    requires GetOr(d, "professional_roles", List([])) == List(roles)
    requires |roles| == |names|
    requires forall i :: 0 <= i < |roles| ==> Subscript(roles[i], "name") == Ok(Str(names[i]))
    ensures ProfessionalRole(d) == Ok(if Join(", ", names) == "" then Null else Str(Join(", ", names)))
  {
    var found := SubscriptAll(roles, "name");
    assert found.Ok?;
    var texts := Strings(found.value);
    assert texts.Ok?;
    assert texts.value == names;
  }

  /** `description`: HTML stripped to text when truthy, kept as it is
      otherwise; a missing one starts as the placeholder. */
  function Description(d: Record, stripHtml: string -> string): (r: Result<Value, Failure>)
    ensures "description" !in d ==> r == Ok(Str(stripHtml(NotSpecified)))
    ensures r.Ok? && Truthy(r.value) ==> r.value.Str?
    ensures var text := GetOr(d, "description", Str(NotSpecified));
            (!Truthy(text) ==> r == Ok(text))
            && (Truthy(text) && text.Str? ==> r == Ok(Str(stripHtml(text.s))))
            && (Truthy(text) && !text.Str? ==> r.Err?)
  {
    var text := GetOr(d, "description", Str(NotSpecified));
    if !Truthy(text) then Ok(text)
    else if text.Str? then Ok(Str(stripHtml(text.s)))
    else Err(TypeError)
  }

  // ---------------------------------------------------------------------------
  // process_vacancy

  /** The keys every processed vacancy has; `predicted_salary` is added to
      these exactly when there is no stated lower salary bound. */
  const VacancyKeys: set<string> := {
    "id", "vacancy_name", "schedule", "experience", "experience_cat", "city",
    "employer", "salary_from", "salary_to", "type", "url", "key_skills",
    "professional_role", "description", "published_at", "grade"
  }

  /** The normalised fields of one vacancy, before the predictors run. */
  datatype Fields = Fields(
    id: Value, name: Value, schedule: Value, experience: Value, experienceCat: int,
    city: Value, employer: Value, salaryFrom: Value, salaryTo: Value, kind: Value,
    url: Value, keySkills: string, role: Value, description: Value, publishedAt: Value)

  /** Every normaliser applied to one raw vacancy object; the first one that
      raises ends `process_vacancy` with its exception. */
  function ReadFields(d: Record, env: Collaborators, now: int): (r: Result<Fields, Failure>)
    ensures r.Ok? ==> r.value.id == Get(d, "id") && r.value.name == Get(d, "name")
                      && r.value.url == Get(d, "alternate_url")
    ensures r.Ok? ==> KeySkills(Get(d, "key_skills")) == Ok(r.value.keySkills)
    ensures r.Ok? ==> ExperienceCategory(r.value.experience) == Ok(r.value.experienceCat)
                      && 0 <= r.value.experienceCat <= 3
    ensures r.Ok? ==> r.value.publishedAt == PublishedAt(Get(d, "published_at"), env.parseIso, now)
    ensures r.Ok? && !Truthy(Get(d, "salary")) ==> r.value.salaryFrom == Null && r.value.salaryTo == Null
    ensures r.Ok? && !Truthy(Get(d, "experience")) ==> r.value.experience == Str(NoExperience) && r.value.experienceCat == 0
    ensures r.Ok? ==> r.value.role == Null || (r.value.role.Str? && r.value.role.s != "")
    ensures r.Ok? ==> Description(d, env.stripHtml) == Ok(r.value.description)
                      && ProfessionalRole(d) == Ok(r.value.role)
    ensures r.Ok? ==> NestedName(d, "schedule") == Ok(r.value.schedule) && NestedName(d, "area") == Ok(r.value.city)
                      && NestedName(d, "employer") == Ok(r.value.employer) && NestedName(d, "type") == Ok(r.value.kind)
    ensures r.Ok? ==> ObjectOrEmpty(Get(d, "salary")).Ok?
                      && r.value.salaryFrom == Get(ObjectOrEmpty(Get(d, "salary")).value, "from")
                      && r.value.salaryTo == Get(ObjectOrEmpty(Get(d, "salary")).value, "to")
    ensures r.Ok? ==> ObjectOrEmpty(Get(d, "experience")).Ok?
                      && r.value.experience == GetOr(ObjectOrEmpty(Get(d, "experience")).value, "name", Str(NoExperience))
  {
    var description :- Description(d, env.stripHtml);
    var skills :- KeySkills(Get(d, "key_skills"));
    var experience :- ObjectOrEmpty(Get(d, "experience"));
    var rawExperience := GetOr(experience, "name", Str(NoExperience));
    var experienceCat :- ExperienceCategory(rawExperience);
    var publishedAt := PublishedAt(Get(d, "published_at"), env.parseIso, now);
    var schedule :- NestedName(d, "schedule");
    var city :- NestedName(d, "area");
    var employer :- NestedName(d, "employer");
    // `salary.get('from')` is where a non-dict salary raises
    var salary :- ObjectOrEmpty(Get(d, "salary"));
    var kind :- NestedName(d, "type");
    var role :- ProfessionalRole(d);
    Ok(Fields(Get(d, "id"), Get(d, "name"), schedule, rawExperience, experienceCat,
              city, employer, Get(salary, "from"), Get(salary, "to"), kind,
              Get(d, "alternate_url"), skills, role, description, publishedAt))
  }

  /** The value `process_vacancy` puts under key `k`. */
  function GradedField(f: Fields, grade: string, k: string): Value
  {
    if k == "id" then f.id
    else if k == "vacancy_name" then f.name
    else if k == "schedule" then f.schedule
    else if k == "experience" then f.experience
    else if k == "experience_cat" then Int(f.experienceCat)
    else if k == "city" then f.city
    else if k == "employer" then f.employer
    else if k == "salary_from" then f.salaryFrom
    else if k == "salary_to" then f.salaryTo
    else if k == "type" then f.kind
    else if k == "url" then f.url
    else if k == "key_skills" then Str(f.keySkills)
    else if k == "professional_role" then f.role
    else if k == "description" then f.description
    else if k == "published_at" then f.publishedAt
    else Str(grade)
  }

  /** The vacancy dict built from its fields and its grade. */
  function Graded(f: Fields, grade: string): (r: Record)
    ensures r.Keys == VacancyKeys
    ensures r["id"] == f.id && r["vacancy_name"] == f.name && r["schedule"] == f.schedule
    ensures r["experience"] == f.experience && r["experience_cat"] == Int(f.experienceCat)
    ensures r["city"] == f.city && r["employer"] == f.employer && r["type"] == f.kind
    ensures r["salary_from"] == f.salaryFrom && r["salary_to"] == f.salaryTo && r["url"] == f.url
    ensures r["key_skills"] == Str(f.keySkills) && r["professional_role"] == f.role
    ensures r["description"] == f.description && r["published_at"] == f.publishedAt
    ensures r["grade"] == Str(grade)
  {
    map k | k in VacancyKeys :: GradedField(f, grade, k)
  }


  /** The schedule as the predictors see it: the placeholder when the vacancy
      has none. */
  function ScheduleFeature(d: Record, f: Fields): (r: Value)
    ensures !Truthy(Get(d, "schedule")) ==> r == Str(NotSpecified)
  {
    if Truthy(Get(d, "schedule")) then f.schedule else Str(NotSpecified)
  }

  /** A graded vacancy, with the predicted salary added when there is one. */
  function WithPrediction(vacancy: Record, predicted: Option<int>): (r: Record)
    requires vacancy.Keys == VacancyKeys
    ensures r.Keys == VacancyKeys + (if predicted.Some? then {"predicted_salary"} else {})
    ensures forall k :: k in VacancyKeys ==> r[k] == vacancy[k]
    ensures "predicted_salary" in r <==> predicted.Some?
    ensures predicted.Some? ==> r["predicted_salary"] == Int(predicted.value)
  {
    assert "predicted_salary" !in VacancyKeys;
    if predicted.Some? then vacancy["predicted_salary" := Int(predicted.value)] else vacancy
  }

  /** Normalise one raw hh.ru vacancy into the record the bot stores: the
      fifteen normalised fields, the predicted grade, and a predicted salary
      exactly when the vacancy states no lower salary bound. */
  function ProcessVacancy(item: Value, env: Collaborators, now: int): (r: Result<Record, Failure>)
    ensures !item.Dict? ==> r == Err(AttributeError)
    ensures r.Ok? ==> VacancyKeys <= r.value.Keys <= VacancyKeys + {"predicted_salary"}
    ensures r.Ok? ==> ("predicted_salary" in r.value <==> r.value["salary_from"] == Null)
    ensures r.Ok? && "predicted_salary" in r.value ==> r.value["predicted_salary"].Int?
    ensures r.Ok? ==> r.value["grade"].Str?
    ensures r.Ok? ==> r.value["id"] == Get(item.fields, "id") && r.value["vacancy_name"] == Get(item.fields, "name")
                      && r.value["url"] == Get(item.fields, "alternate_url")
    ensures r.Ok? ==> r.value["key_skills"].Str? && KeySkills(Get(item.fields, "key_skills")) == Ok(r.value["key_skills"].s)
    ensures r.Ok? ==> r.value["experience_cat"].Int? && 0 <= r.value["experience_cat"].i <= 3
                      && ExperienceCategory(r.value["experience"]) == Ok(r.value["experience_cat"].i)
    ensures r.Ok? ==> r.value["published_at"] == PublishedAt(Get(item.fields, "published_at"), env.parseIso, now)
    ensures r.Ok? && !Truthy(Get(item.fields, "salary")) ==>
              r.value["salary_from"] == Null && r.value["salary_to"] == Null && "predicted_salary" in r.value
    ensures r.Ok? ==> NestedName(item.fields, "schedule") == Ok(r.value["schedule"])
                      && NestedName(item.fields, "area") == Ok(r.value["city"])
                      && NestedName(item.fields, "employer") == Ok(r.value["employer"])
                      && NestedName(item.fields, "type") == Ok(r.value["type"])
    ensures r.Ok? ==> ProfessionalRole(item.fields) == Ok(r.value["professional_role"])
                      && Description(item.fields, env.stripHtml) == Ok(r.value["description"])
    ensures r.Ok? ==> ObjectOrEmpty(Get(item.fields, "salary")).Ok?
                      && r.value["salary_from"] == Get(ObjectOrEmpty(Get(item.fields, "salary")).value, "from")
                      && r.value["salary_to"] == Get(ObjectOrEmpty(Get(item.fields, "salary")).value, "to")
  {
    if !item.Dict? then Err(AttributeError)
    else
      var d := item.fields;
      var f :- ReadFields(d, env, now);
      var grade := env.predictGrade(GradeFeatures(
        f.name, ScheduleFeature(d, f), f.experience, f.salaryTo, f.keySkills, f.description));
      var predicted :=
        if f.salaryFrom == Null then
          Some(env.predictSalary(SalaryFeatures(
            f.name, ScheduleFeature(d, f), f.salaryTo, f.keySkills, f.description, grade, f.experience)))
        else None;
      Ok(WithPrediction(Graded(f, grade), predicted))
  }

  // ---------------------------------------------------------------------------
  // fetch_hh_ids

  /** `[item['id'] for item in data.get('items', [])]` for one page body. */
  function PageIds(body: Value): (r: Result<seq<Value>, Failure>)
    ensures !body.Dict? ==> r == Err(AttributeError)
    ensures body.Dict? && "items" !in body.fields ==> r == Ok([])
    ensures body.Dict? && GetOr(body.fields, "items", List([])).List? ==>
              var items := GetOr(body.fields, "items", List([])).items;
              (r.Ok? <==> forall i :: 0 <= i < |items| ==> Subscript(items[i], "id").Ok?)
              && (r.Ok? ==> |r.value| == |items| && forall i :: 0 <= i < |items| ==> Subscript(items[i], "id") == Ok(r.value[i]))
  {
    if !body.Dict? then Err(AttributeError)
    else
      var items :- ItemsForLookup(GetOr(body.fields, "items", List([])));
      SubscriptAll(items, "id")
  }

  /** The ids of result pages `0 .. pages - 1`, in page order: a page answered
      with a status other than 200 contributes nothing, and the first request
      that fails or body that cannot be read ends the search with its error. */
  function SearchIds(env: Collaborators, dateFrom: DateTime, pages: nat): Result<seq<Value>, Failure>
    decreases pages
  {
    if pages == 0 then Ok([])
    else
      var before :- SearchIds(env, dateFrom, pages - 1);
      var response :- env.search(dateFrom, pages - 1);
      if response.status != 200 then Ok(before)
      else
        var ids :- PageIds(response.body);
        Ok(before + ids)
  }

  /** Once a page has failed, the search as a whole fails with that error. */
  lemma {:induction false} SearchFailureSticks(env: Collaborators, dateFrom: DateTime, failed: nat, pages: nat)
    requires failed <= pages
    requires SearchIds(env, dateFrom, failed).Err?
    ensures SearchIds(env, dateFrom, pages) == SearchIds(env, dateFrom, failed)
    decreases pages
  {
    if failed < pages {
      SearchFailureSticks(env, dateFrom, failed, pages - 1);
    }
  }

  /** Pages answered with a status other than 200 add no ids. */
  lemma {:induction false} RejectedPagesAddNothing(env: Collaborators, dateFrom: DateTime, pages: nat)
    requires forall p :: 0 <= p < pages ==> env.search(dateFrom, p).Ok? && env.search(dateFrom, p).value.status != 200
    ensures SearchIds(env, dateFrom, pages) == Ok([])
    decreases pages
  {
    if pages > 0 {
      RejectedPagesAddNothing(env, dateFrom, pages - 1);
    }
  }

  /** `list(set(ids))`: the ids without repetitions, in no promised order;
      `set` raises `TypeError` on an unhashable id. */
  method Deduplicate(ids: seq<Value>) returns (r: Result<seq<Value>, Failure>)
    ensures r.Ok? <==> forall i :: 0 <= i < |ids| ==> Hashable(ids[i])
    ensures r.Err? ==> r.error == TypeError
    ensures r.Ok? ==> Distinct(r.value) && forall x :: x in r.value <==> x in ids
  {
    var unique: seq<Value> := [];
    var seen: set<Value> := {};
    var i := 0;
    while i < |ids|
      invariant 0 <= i <= |ids|
      invariant forall j :: 0 <= j < i ==> Hashable(ids[j])
      invariant Distinct(unique)
      invariant forall x :: x in unique <==> x in ids[..i]
      invariant forall x :: x in seen <==> x in unique
    {
      if !Hashable(ids[i]) {
        return Err(TypeError);
      }
      if ids[i] !in seen {
        unique := unique + [ids[i]];
        seen := seen + {ids[i]};
      }
      assert ids[..i + 1] == ids[..i] + [ids[i]];
      i := i + 1;
    }
    assert ids[..i] == ids;
    r := Ok(unique);
  }

  /** `fetch_hh_ids`: search result pages `0 .. MaxPages - 1` for vacancies
      published from `dateFrom` (tagged UTC when naive) and return the ids of
      the pages answered with 200, each once. */
  method FetchHhIds(env: Collaborators, dateFrom: DateTime) returns (r: Result<seq<Value>, Failure>)
    ensures SearchIds(env, AsUtc(dateFrom), MaxPages).Err? ==> r == SearchIds(env, AsUtc(dateFrom), MaxPages).PropagateFailure()
    ensures SearchIds(env, AsUtc(dateFrom), MaxPages).Ok? ==>
              var found := SearchIds(env, AsUtc(dateFrom), MaxPages).value;
              (r.Ok? <==> forall i :: 0 <= i < |found| ==> Hashable(found[i]))
              && (r.Err? ==> r == Err(TypeError))
              && (r.Ok? ==> Distinct(r.value) && forall x :: x in r.value <==> x in found)
  {
    var since := AsUtc(dateFrom);
    var ids: seq<Value> := [];
    var page := 0;
    while page < MaxPages
      invariant 0 <= page <= MaxPages
      invariant SearchIds(env, since, page) == Ok(ids)
    {
      var response := env.search(since, page);
      if response.Err? {
        assert SearchIds(env, since, page + 1) == Err(response.error);
        SearchFailureSticks(env, since, page + 1, MaxPages);
        return Err(response.error);
      }
      if response.value.status == 200 {
        var pageIds := PageIds(response.value.body);
        if pageIds.Err? {
          assert SearchIds(env, since, page + 1) == Err(pageIds.error);
          SearchFailureSticks(env, since, page + 1, MaxPages);
          return Err(pageIds.error);
        }
        ids := ids + pageIds.value;
      }
      page := page + 1;
    }
    r := Deduplicate(ids);
  }
}
