/** The Python values that flow through the bot — decoded JSON from hh.ru,
    the dicts built from it, and database rows read back as dicts — with the
    few built-in operations applied to them and the exceptions those raise. */
module PyValues {
  import opened Wrappers
  import opened Time
  import opened Text

  /** The exceptions the modelled code can raise or catch. */
  datatype Failure =
    | KeyError        // `d[k]` with `k` missing
    | TypeError       // wrong operand type: `None['x']`, `', '.join([1])`, `int(None)`, ...
    | AttributeError  // `.get` on something that is not a dict
    | ValueError      // `int('abc')`
    | NameError       // an undefined global name is evaluated
    | ConnectionLost  // asyncpg's ConnectionDoesNotExistError / ConnectionClosedError
    | Unreachable     // the database server refused a new pool
    | NetworkError    // aiohttp failed to complete a request
    | DataError       // a value out of range for its column

  /** A Python value: `None`, `bool`, `int`, `str`, `list`, `dict` with string
      keys, or a `datetime`. */
  datatype Value =
    | Null
    | Bool(b: bool)
    | Int(i: int)
    | Str(s: string)
    | List(items: seq<Value>)
    | Dict(fields: map<string, Value>)
    | Stamp(dt: DateTime)

  /** A dict with string keys: a JSON object, a processed vacancy, a row. */
  type Record = map<string, Value>

  /** Python truthiness (`if v:`, `v or w`). */
  predicate Truthy(v: Value)
  {
    match v
    case Null => false
    case Bool(b) => b
    case Int(i) => i != 0
    case Str(s) => s != ""
    case List(xs) => xs != []
    case Dict(m) => m != map[]
    case Stamp(_) => true
  }

  /** `d.get(k)`. */
  function Get(d: Record, k: string): (r: Value)
    ensures k !in d ==> r == Null
    ensures k in d ==> r == d[k]
  {
    if k in d then d[k] else Null
  }

  /** `d.get(k, default)`. */
  function GetOr(d: Record, k: string, default: Value): (r: Value)
    ensures k !in d ==> r == default
    ensures k in d ==> r == d[k]
  {
    if k in d then d[k] else default
  }

  /** `v[k]` for a string key: only a dict holding `k` answers; a dict without it
      raises `KeyError`, every other value `TypeError`. */
  function Subscript(v: Value, k: string): (r: Result<Value, Failure>)
    ensures r.Ok? <==> v.Dict? && k in v.fields
    ensures r.Ok? ==> r.value == v.fields[k]
    ensures v.Dict? && k !in v.fields ==> r == Err(KeyError)
  {
    if v.Dict? then (if k in v.fields then Ok(v.fields[k]) else Err(KeyError)) else Err(TypeError)
  }

  /** `[v[k] for v in vs]`: the first failing subscript aborts the list. */
  function SubscriptAll(vs: seq<Value>, k: string): (r: Result<seq<Value>, Failure>)
    ensures r.Ok? <==> forall i :: 0 <= i < |vs| ==> Subscript(vs[i], k).Ok?
    ensures r.Ok? ==> |r.value| == |vs| && forall i :: 0 <= i < |vs| ==> Subscript(vs[i], k) == Ok(r.value[i])
    decreases |vs|
  {
    if vs == [] then Ok([])
    else
      var head :- Subscript(vs[0], k);
      var tail :- SubscriptAll(vs[1..], k);
      assert forall i :: 1 <= i < |vs| ==> vs[i] == vs[1..][i - 1];
      Ok([head] + tail)
  }

  /** The check `str.join` makes of its argument: every item must be a `str`,
      otherwise `TypeError`. */
  function Strings(vs: seq<Value>): (r: Result<seq<string>, Failure>)
    ensures r.Ok? <==> forall i :: 0 <= i < |vs| ==> vs[i].Str?
    ensures r.Ok? ==> |r.value| == |vs| && forall i :: 0 <= i < |vs| ==> vs[i] == Str(r.value[i])
    decreases |vs|
  {
    if vs == [] then Ok([])
    else if !vs[0].Str? then Err(TypeError)
    else
      var tail :- Strings(vs[1..]);
      assert forall i :: 1 <= i < |vs| ==> vs[i] == vs[1..][i - 1];
      Ok([vs[0].s] + tail)
  }

  /** The items `for x in v` visits when the loop body then evaluates `x['name']`:
      a list gives its items; an empty dict or string gives none; a non-empty
      dict or string gives strings, and subscripting a string with a string key
      raises `TypeError`, so for these loops that is the outcome; anything else
      is not iterable (`TypeError`). */
  function ItemsForLookup(v: Value): (r: Result<seq<Value>, Failure>)
    ensures v.List? ==> r == Ok(v.items)
    ensures r.Ok? ==> v.List? || v == Str("") || v == Dict(map[])
  {
    match v
    case List(xs) => Ok(xs)
    case Str(s) => if s == "" then Ok([]) else Err(TypeError)
    case Dict(m) => if m == map[] then Ok([]) else Err(TypeError)
    case _ => Err(TypeError)
  }

  /** `int(v)`. */
  function PyInt(v: Value): (r: Result<int, Failure>)
    ensures v.Int? ==> r == Ok(v.i)
    ensures v.Str? ==> (r.Ok? <==> ParseInt(v.s).Some?)
    ensures v.Str? && r.Ok? ==> Some(r.value) == ParseInt(v.s)
    ensures v.Null? || v.List? || v.Dict? || v.Stamp? ==> r == Err(TypeError)
  {
    match v
    case Int(i) => Ok(i)
    case Bool(b) => Ok(if b then 1 else 0)
    case Str(s) => if ParseInt(s).Some? then Ok(ParseInt(s).value) else Err(ValueError)
    case _ => Err(TypeError)
  }

  /** Whether `v` can be put in a set. */
  predicate Hashable(v: Value)
  {
    !v.List? && !v.Dict?
  }

  /** `str(v)` as an f-string shows it. */
  function Show(v: Value): string
  {
    match v
    case Null => "None"
    case Bool(b) => if b then "True" else "False"
    case Int(i) => IntToString(i)
    case Str(s) => s
    case List(_) => "<list>"
    case Dict(_) => "<dict>"
    case Stamp(_) => "<datetime>"
  }
}
