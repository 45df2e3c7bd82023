/**
 * The loops of `import_jokes`: the first-occurrence dedup over a growing set
 * of seen ids, and the upsert loop with its two counters. The `jokes` table
 * is a map from `joke_id` to the row, handed in and handed back in place of
 * the database session.
 */
module JokeImport {
  import opened JokeSpec

  /** The dedup loop: skips a null id or one already seen, and keeps the rest in order. */
  method DedupById(raws: seq<RawJoke>) returns (unique: seq<RawJoke>)
    ensures unique == FirstById(raws)
  {
    unique := [];
    var seen: set<int> := {};
    for i := 0 to |raws|
      invariant unique == FirstById(raws[..i])
      invariant seen == SeenIds(unique)
    {
      var raw := raws[i];
      assert raws[..i + 1][..i] == raws[..i];
      if raw.id.None? || raw.id.value in seen {
        continue;
      }
      SeenIdsAppend(unique, raw);
      seen := seen + {raw.id.value};
      unique := unique + [raw];
    }
    assert raws[..|raws|] == raws;
  }

  /** The upsert loop: overwrite the row of a known id, or add one, counting each. */
  method UpsertJokes(table: map<int, Joke>, jokes: seq<Joke>) returns (newTable: map<int, Joke>, inserted: nat, updated: nat)
    requires Keyed(jokes)
    ensures Upserted(newTable, inserted, updated) == UpsertAll(table, jokes)
  {
    newTable, inserted, updated := table, 0, 0;
    for i := 0 to |jokes|
      invariant Keyed(jokes[..i])
      invariant Upserted(newTable, inserted, updated) == UpsertAll(table, jokes[..i])
    {
      var j := jokes[i];
      assert jokes[..i + 1][..i] == jokes[..i];
      var id := j.jokeId.value;
      if id in newTable {
        newTable := newTable[id := j];
        updated := updated + 1;
      } else {
        newTable := newTable[id := j];
        inserted := inserted + 1;
      }
    }
    assert jokes[..|jokes|] == jokes;
  }

  /** `import_jokes`: validate the target, fetch, dedup, transform, upsert. */
  method ImportJokes(target: int, fetch: int -> seq<RawJoke>, table: map<int, Joke>) returns (r: ImportOutcome)
    ensures r == Import(target, fetch, table)
  {
    if target < 1 {
      return Rejected(400, TargetDetail);
    }
    var rawJokes := fetch(target);
    var unique := DedupById(rawJokes);
    var processed := TransformAll(unique);
    if processed.None? {
      return TransformFailed;
    }
    var newTable, inserted, updated := UpsertJokes(table, processed.value);
    r := Imported(JokeResponse(target, |processed.value|, inserted, updated), newTable);
  }
}
