/**
 * The joke importer's `import_jokes`, as functions: check the target, keep
 * the first raw joke for each id, normalise each one with `transform_joke`,
 * then insert or update the `jokes` table keyed by `joke_id`. Fetching from
 * JokeAPI is not modelled; it is the parameter `fetch`.
 */
module JokeSpec {
  import opened Wrappers

  /** A key of a JSON object as `dict.get` sees it: absent, present and null, or present with a value. */
  datatype Field<+T> = Missing | Null | Given(value: T)

  /** `d.get(key, default)`: the default for an absent key, None for a null. */
  function GetOr<T>(f: Field<T>, default: T): Option<T> {
    match f
    case Missing => Some(default)
    case Null => None
    case Given(v) => Some(v)
  }

  /** The `flags` object of a JokeAPI joke. */
  datatype RawFlags = RawFlags(nsfw: Field<bool>, political: Field<bool>, sexist: Field<bool>)

  /**
   * A joke as JokeAPI returns it. For the keys read with a plain `get`,
   * absent and null are the same (None); `flags` and `safe` have defaults, so
   * for them the two differ.
   */
  datatype RawJoke = RawJoke(
    id: Option<int>, category: Option<string>, jokeType: Option<string>, lang: Option<string>,
    joke: Option<string>, setup: Option<string>, delivery: Option<string>,
    flags: Field<RawFlags>, safe: Field<bool>)

  /** The dictionary `transform_joke` builds: one row of the `jokes` table, without its surrogate key. */
  datatype Joke = Joke(
    jokeId: Option<int>, category: Option<string>, jokeType: Option<string>,
    flagNsfw: Option<bool>, flagPolitical: Option<bool>, flagSexist: Option<bool>, safe: Option<bool>,
    lang: Option<string>, joke: Option<string>, setup: Option<string>, delivery: Option<string>)

  /** The dictionary `transform_joke` builds from `raw` and its `flags` object. */
  function Normalise(raw: RawJoke, flags: RawFlags): Joke {
    var single := raw.jokeType == Some("single");
    var twopart := raw.jokeType == Some("twopart");
    Joke(raw.id, raw.category, raw.jokeType,
         GetOr(flags.nsfw, false), GetOr(flags.political, false), GetOr(flags.sexist, false),
         GetOr(raw.safe, true), raw.lang,
         if single then raw.joke else None,
         if twopart then raw.setup else None,
         if twopart then raw.delivery else None)
  }

  /**
   * `transform_joke`. An absent `flags` key reads as the empty object; one
   * that is present but null makes `flags.get` fail, which is the None result.
   */
  function TransformJoke(raw: RawJoke): (r: Option<Joke>)
    ensures r.None? <==> raw.flags.Null?
    ensures r.Some? ==> r.value.jokeId == raw.id
  {
    match raw.flags
    case Null => None
    case Missing => Some(Normalise(raw, RawFlags(Missing, Missing, Missing)))
    case Given(flags) => Some(Normalise(raw, flags))
  }

  /** `[transform_joke(raw) for raw in raws]`: None as soon as one of them fails. */
  function TransformAll(raws: seq<RawJoke>): (r: Option<seq<Joke>>)
    ensures r.None? <==> exists i :: 0 <= i < |raws| && raws[i].flags.Null?
    ensures r.Some? ==> |r.value| == |raws| && forall i :: 0 <= i < |raws| ==> TransformJoke(raws[i]) == Some(r.value[i])
    decreases |raws|
  {
    if raws == [] then Some([])
    else
      var init := raws[..|raws| - 1];
      var last := raws[|raws| - 1];
      match TransformAll(init)
      case None => None
      case Some(prev) =>
        match TransformJoke(last)
        case None => None
        case Some(j) => Some(prev + [j])
  }

  /** The non-null ids among `raws`. */
  function SeenIds(raws: seq<RawJoke>): set<int> {
    set r | r in raws && r.id.Some? :: r.id.value
  }

  /** Appending a raw joke adds its id, if it has one. */
  lemma SeenIdsAppend(raws: seq<RawJoke>, raw: RawJoke)
    ensures SeenIds(raws + [raw]) == SeenIds(raws) + (if raw.id.Some? then {raw.id.value} else {})
  {
    assert forall r :: r in raws + [raw] <==> r in raws || r == raw;
  }

  /** The dedup loop of `import_jokes`: the first raw joke of each non-null id, in input order. */
  function FirstById(raws: seq<RawJoke>): (r: seq<RawJoke>)
    ensures forall i :: 0 <= i < |r| ==> r[i].id.Some?
    decreases |raws|
  {
    if raws == [] then []
    else
      var prev := FirstById(raws[..|raws| - 1]);
      var raw := raws[|raws| - 1];
      if raw.id.None? || raw.id.value in SeenIds(prev) then prev else prev + [raw]
  }

  /** Every joke carries an id, the key of the `jokes` table. */
  predicate Keyed(jokes: seq<Joke>) {
    forall i :: 0 <= i < |jokes| ==> jokes[i].jokeId.Some?
  }

  /** The ids of `jokes`. */
  function JokeIds(jokes: seq<Joke>): set<int>
    requires Keyed(jokes)
  {
    set i | 0 <= i < |jokes| :: jokes[i].jokeId.value
  }

  /** The table after the upsert loop, and its two counters. */
  datatype Upserted = Upserted(table: map<int, Joke>, inserted: nat, updated: nat)

  /**
   * One turn of the upsert loop of `import_jokes`: a joke whose id is
   * already a row overwrites that row and counts as updated; any other is
   * added and counts as inserted.
   */
  function UpsertOne(u: Upserted, j: Joke): Upserted
    requires j.jokeId.Some?
  {
    var id := j.jokeId.value;
    if id in u.table then Upserted(u.table[id := j], u.inserted, u.updated + 1)
    else Upserted(u.table[id := j], u.inserted + 1, u.updated)
  }

  /** The upsert loop of `import_jokes`, over all the jokes in order. */
  function UpsertAll(table: map<int, Joke>, jokes: seq<Joke>): Upserted
    requires Keyed(jokes)
    decreases |jokes|
  {
    if jokes == [] then Upserted(table, 0, 0)
    else UpsertOne(UpsertAll(table, jokes[..|jokes| - 1]), jokes[|jokes| - 1])
  }

  /** `JokeResponse`. */
  datatype JokeResponse = JokeResponse(requested: int, fetched: nat, inserted: nat, updated: nat)

  /** How `import_jokes` ends: an HTTP error, a failing `transform_joke`, or the response and the committed table. */
  datatype ImportOutcome =
    | Rejected(status: int, detail: string)
    | TransformFailed
    | Imported(response: JokeResponse, table: map<int, Joke>)

  const TargetDetail: string := "Target must be at least 1"

  /** `import_jokes`, with the jokes `fetch(target)` returns and the table before the request. */
  function Import(target: int, fetch: int -> seq<RawJoke>, table: map<int, Joke>): ImportOutcome {
    if target < 1 then Rejected(400, TargetDetail)
    else
      match TransformAll(FirstById(fetch(target)))
      case None => TransformFailed
      case Some(processed) =>
        var u := UpsertAll(table, processed);
        Imported(JokeResponse(target, |processed|, u.inserted, u.updated), u.table)
  }
}
