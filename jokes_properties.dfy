/** What `transform_joke` and `import_jokes` promise. */
module JokeProperties {
  import opened Wrappers
  import opened Sequences
  import opened JokeSpec

  /**
   * Missing flags read as false and a missing `safe` as true; a null flag or
   * `safe` stays null; given values, and `joke_id`, `category`, `type` and `lang`, are copied. A "single" joke
   * keeps `joke` only, a "twopart" joke `setup` and `delivery` only, and any
   * other type none of the three.
   */
  lemma TransformJokeFields(raw: RawJoke)
    requires !raw.flags.Null?
    ensures var j := TransformJoke(raw).value;
      && j.jokeId == raw.id && j.category == raw.category && j.jokeType == raw.jokeType && j.lang == raw.lang
      && (raw.flags.Missing? ==> j.flagNsfw == Some(false) && j.flagPolitical == Some(false) && j.flagSexist == Some(false))
      && (raw.flags.Given? && raw.flags.value.nsfw.Missing? ==> j.flagNsfw == Some(false))
      && (raw.flags.Given? && raw.flags.value.nsfw.Given? ==> j.flagNsfw == Some(raw.flags.value.nsfw.value))
      && (raw.flags.Given? && raw.flags.value.nsfw.Null? ==> j.flagNsfw == None)
      && (raw.flags.Given? && raw.flags.value.political.Missing? ==> j.flagPolitical == Some(false))
      && (raw.flags.Given? && raw.flags.value.political.Given? ==> j.flagPolitical == Some(raw.flags.value.political.value))
      && (raw.flags.Given? && raw.flags.value.political.Null? ==> j.flagPolitical == None)
      && (raw.flags.Given? && raw.flags.value.sexist.Missing? ==> j.flagSexist == Some(false))
      && (raw.flags.Given? && raw.flags.value.sexist.Given? ==> j.flagSexist == Some(raw.flags.value.sexist.value))
      && (raw.flags.Given? && raw.flags.value.sexist.Null? ==> j.flagSexist == None)
      && (raw.safe.Missing? ==> j.safe == Some(true))
      && (raw.safe.Given? ==> j.safe == Some(raw.safe.value))
      && (raw.safe.Null? ==> j.safe == None)
      && (raw.jokeType == Some("single") ==> j.joke == raw.joke && j.setup == None && j.delivery == None)
      && (raw.jokeType == Some("twopart") ==> j.joke == None && j.setup == raw.setup && j.delivery == raw.delivery)
      && (raw.jokeType != Some("single") && raw.jokeType != Some("twopart") ==> j.joke == None && j.setup == None && j.delivery == None)
  {
  }

  /** The text fields agree with the type: `joke` only for "single", `setup` and `delivery` only for "twopart". */
  predicate TextMatchesType(j: Joke) {
    && (j.jokeType != Some("single") ==> j.joke.None?)
    && (j.jokeType != Some("twopart") ==> j.setup.None? && j.delivery.None?)
  }

  /** The key a stored value came from: null for None. */
  function FieldOf<T(!new)>(o: Option<T>): (f: Field<T>)
    ensures forall d :: GetOr(f, d) == o
  {
    match o
    case None => Null
    case Some(v) => Given(v)
  }

  /** A JokeAPI joke that carries exactly the fields of `j`. */
  function RawOf(j: Joke): RawJoke {
    RawJoke(j.jokeId, j.category, j.jokeType, j.lang, j.joke, j.setup, j.delivery,
            Given(RawFlags(FieldOf(j.flagNsfw), FieldOf(j.flagPolitical), FieldOf(j.flagSexist))),
            FieldOf(j.safe))
  }

  /** Every joke `transform_joke` returns has its text fields in line with its type. */
  lemma TransformMatchesType(raw: RawJoke)
    requires !raw.flags.Null?
    ensures TextMatchesType(TransformJoke(raw).value)
  {
  }

  /**
   * `transform_joke` returns a joke from the raw joke carrying its fields
   * exactly when its text fields are in line with its type, so those jokes
   * are all it can return.
   */
  lemma TransformRoundTrip(j: Joke)
    ensures TransformJoke(RawOf(j)) == Some(j) <==> TextMatchesType(j)
  {
    var raw := RawOf(j);
    assert GetOr(FieldOf(j.flagNsfw), false) == j.flagNsfw;
    assert GetOr(FieldOf(j.flagPolitical), false) == j.flagPolitical;
    assert GetOr(FieldOf(j.flagSexist), false) == j.flagSexist;
    assert GetOr(FieldOf(j.safe), true) == j.safe;
    if TransformJoke(raw) == Some(j) {
      TransformMatchesType(raw);
    }
  }

  /** `raws[i]` is the first raw joke with its id. */
  ghost predicate FirstWithId(raws: seq<RawJoke>, i: int) {
    && 0 <= i < |raws| && raws[i].id.Some?
    && forall l :: 0 <= l < i ==> raws[l].id != raws[i].id
  }

  /** The ids kept are pairwise distinct, and every non-null id of the input is kept once. */
  lemma {:induction false} FirstByIdIds(raws: seq<RawJoke>)
    ensures var u := FirstById(raws);
      && (forall i, j :: 0 <= i < j < |u| ==> u[i].id != u[j].id)
      && SeenIds(u) == SeenIds(raws)
      && |u| == |SeenIds(raws)|
    decreases |raws|
  {
    if raws != [] {
      var init := raws[..|raws| - 1];
      var raw := raws[|raws| - 1];
      FirstByIdIds(init);
      assert raws == init + [raw];
      SeenIdsAppend(init, raw);
      var prev := FirstById(init);
      if !(raw.id.None? || raw.id.value in SeenIds(prev)) {
        SeenIdsAppend(prev, raw);
        forall i | 0 <= i < |prev|
          ensures prev[i].id != raw.id
        {
          assert prev[i] in prev;
        }
      }
    }
  }

  /**
   * The jokes kept follow the order in which their ids first appear: wherever
   * the id of a later kept joke occurs in the input, the id of an earlier
   * kept joke has already occurred before it.
   */
  lemma {:induction false} FirstByIdFirstAppearance(raws: seq<RawJoke>)
    ensures var u := FirstById(raws);
      forall k, l, j :: 0 <= k < l < |u| && 0 <= j < |raws| && raws[j].id == u[l].id ==>
        exists i :: 0 <= i < j && raws[i].id == u[k].id
    decreases |raws|
  {
    if raws != [] {
      var n := |raws| - 1;
      var init := raws[..n];
      var raw := raws[n];
      var prev := FirstById(init);
      var u := FirstById(raws);
      FirstByIdFirstAppearance(init);
      FirstByIdOrder(init);
      assert raws == init + [raw];
      forall k, l, j | 0 <= k < l < |u| && 0 <= j < |raws| && raws[j].id == u[l].id
        ensures exists i :: 0 <= i < j && raws[i].id == u[k].id
      {
        assert u[k] == prev[k];
        if j == n {
          var i :| FirstWithId(init, i) && init[i] == prev[k];
          assert i < j && raws[i].id == u[k].id;
        } else if l < |prev| {
          assert init[j].id == prev[l].id;
          var i :| 0 <= i < j && init[i].id == prev[k].id;
          assert raws[i].id == u[k].id;
        } else {
          assert u[l] == raw && init[j] in init;
          SeenIdsAppend(init, raw);
          FirstByIdIds(init);
          assert false;
        }
      }
    }
  }

  /** The jokes kept are the first of their id, in input order. */
  lemma {:induction false} FirstByIdOrder(raws: seq<RawJoke>)
    ensures var u := FirstById(raws);
      && IsSubseq(u, raws)
      && forall k :: 0 <= k < |u| ==> exists i :: FirstWithId(raws, i) && raws[i] == u[k]
    decreases |raws|
  {
    if raws != [] {
      var init := raws[..|raws| - 1];
      var raw := raws[|raws| - 1];
      var prev := FirstById(init);
      FirstByIdOrder(init);
      FirstByIdIds(init);
      assert raws == init + [raw];
      SubseqExtend(prev, init, raw);
      forall k | 0 <= k < |prev|
        ensures exists i :: FirstWithId(raws, i) && raws[i] == prev[k]
      {
        var i :| FirstWithId(init, i) && init[i] == prev[k];
        assert FirstWithId(raws, i) && raws[i] == prev[k];
      }
      if !(raw.id.None? || raw.id.value in SeenIds(prev)) {
        var n := |raws| - 1;
        forall l | 0 <= l < n
          ensures raws[l].id != raw.id
        {
          assert init[l] in init;
        }
        assert FirstWithId(raws, n);
      }
    }
  }

  /** Any raw joke that is the first with its id is one of those kept. */
  lemma FirstIsKept(raws: seq<RawJoke>, i: int)
    requires FirstWithId(raws, i)
    ensures raws[i] in FirstById(raws)
  {
    var u := FirstById(raws);
    FirstByIdIds(raws);
    FirstByIdOrder(raws);
    assert raws[i] in raws;
    assert raws[i].id.value in SeenIds(u);
    var r :| r in u && r.id == raws[i].id;
    var k :| 0 <= k < |u| && u[k] == r;
    var i' :| FirstWithId(raws, i') && raws[i'] == u[k];
  }

  /** The ids of `jokes` are pairwise distinct. */
  predicate DistinctIds(jokes: seq<Joke>) {
    forall i, j :: 0 <= i < j < |jokes| ==> jokes[i].jokeId != jokes[j].jokeId
  }

  lemma JokeIdsAppend(jokes: seq<Joke>, j: Joke)
    requires Keyed(jokes) && j.jokeId.Some?
    ensures Keyed(jokes + [j])
    ensures JokeIds(jokes + [j]) == JokeIds(jokes) + {j.jokeId.value}
  {
    assert forall i :: 0 <= i < |jokes| ==> (jokes + [j])[i] == jokes[i];
    var s := jokes + [j];
    forall x | x in JokeIds(s)
      ensures x in JokeIds(jokes) + {j.jokeId.value}
    {
      var i :| 0 <= i < |s| && s[i].jokeId.value == x;
      if i < |jokes| {
        assert jokes[i].jokeId.value == x;
      }
    }
    forall x | x in JokeIds(jokes)
      ensures x in JokeIds(s)
    {
      var i :| 0 <= i < |jokes| && jokes[i].jokeId.value == x;
      assert s[i].jokeId.value == x;
    }
    assert s[|jokes|].jokeId.value == j.jokeId.value;
  }

  /** A list of jokes is its last one after the others. */
  lemma UpsertSplit(table: map<int, Joke>, jokes: seq<Joke>)
    requires Keyed(jokes) && jokes != []
    ensures var init := jokes[..|jokes| - 1];
      var j := jokes[|jokes| - 1];
      && jokes == init + [j]
      && Keyed(init) && j.jokeId.Some?
      && UpsertAll(table, jokes) == UpsertOne(UpsertAll(table, init), j)
      && JokeIds(jokes) == JokeIds(init) + {j.jokeId.value}
  {
    var n := |jokes| - 1;
    var init := jokes[..n];
    assert forall i :: 0 <= i < n ==> init[i] == jokes[i];
    assert jokes == init + [jokes[n]];
    JokeIdsAppend(init, jokes[n]);
  }

  /** The counters add up to the number of jokes. */
  lemma {:induction false} UpsertCounted(table: map<int, Joke>, jokes: seq<Joke>)
    requires Keyed(jokes)
    ensures UpsertAll(table, jokes).inserted + UpsertAll(table, jokes).updated == |jokes|
    decreases |jokes|
  {
    if jokes != [] {
      UpsertSplit(table, jokes);
      UpsertCounted(table, jokes[..|jokes| - 1]);
    }
  }

  /** One upsert adds the joke's id to the keys, counts an insert exactly when the id is new, and touches no other row. */
  lemma UpsertOneKeys(u: Upserted, j: Joke)
    requires j.jokeId.Some?
    ensures var r := UpsertOne(u, j);
      && r.table.Keys == u.table.Keys + {j.jokeId.value}
      && |r.table| - r.inserted == |u.table| - u.inserted
      && forall k :: k in u.table && k != j.jokeId.value ==> r.table[k] == u.table[k]
  {
    var id := j.jokeId.value;
    if id in u.table {
      assert u.table.Keys + {id} == u.table.Keys;
    }
  }

  /** The keys after the upsert are the old keys and the jokes' ids. */
  lemma {:induction false} UpsertKeySet(table: map<int, Joke>, jokes: seq<Joke>)
    requires Keyed(jokes)
    ensures UpsertAll(table, jokes).table.Keys == table.Keys + JokeIds(jokes)
    decreases |jokes|
  {
    if jokes != [] {
      var init := jokes[..|jokes| - 1];
      var j := jokes[|jokes| - 1];
      assert Keyed(init) && j.jokeId.Some? by {
        UpsertSplit(table, jokes);
      }
      var id := j.jokeId.value;
      var prev := UpsertAll(table, init);
      var keys, ids := table.Keys, JokeIds(init);
      assert prev.table.Keys == keys + ids by {
        UpsertKeySet(table, init);
      }
      assert UpsertAll(table, jokes).table.Keys == prev.table.Keys + {id} by {
        UpsertSplit(table, jokes);
        UpsertOneKeys(prev, j);
      }
      assert JokeIds(jokes) == ids + {id} by {
        UpsertSplit(table, jokes);
      }
      assert (keys + ids) + {id} == keys + (ids + {id});
    }
  }

  /** The table grows by one row per insert. */
  lemma {:induction false} UpsertSize(table: map<int, Joke>, jokes: seq<Joke>)
    requires Keyed(jokes)
    ensures |UpsertAll(table, jokes).table| == |table| + UpsertAll(table, jokes).inserted
    decreases |jokes|
  {
    if jokes != [] {
      var init := jokes[..|jokes| - 1];
      var j := jokes[|jokes| - 1];
      UpsertSplit(table, jokes);
      UpsertSize(table, init);
      UpsertOneKeys(UpsertAll(table, init), j);
    }
  }

  /** A row whose id no joke carries is left as it was. */
  lemma {:induction false} UpsertOthers(table: map<int, Joke>, jokes: seq<Joke>)
    requires Keyed(jokes)
    ensures forall k :: k in table && k !in JokeIds(jokes) ==> k in UpsertAll(table, jokes).table && UpsertAll(table, jokes).table[k] == table[k]
    decreases |jokes|
  {
    if jokes != [] {
      var init := jokes[..|jokes| - 1];
      var j := jokes[|jokes| - 1];
      UpsertSplit(table, jokes);
      UpsertOthers(table, init);
      UpsertOneKeys(UpsertAll(table, init), j);
    }
  }

  /**
   * The table gains exactly the ids of the jokes, one row per insert, and the
   * rows the jokes do not name are untouched.
   */
  lemma UpsertKeys(table: map<int, Joke>, jokes: seq<Joke>)
    requires Keyed(jokes)
    ensures var u := UpsertAll(table, jokes);
      && u.table.Keys == table.Keys + JokeIds(jokes)
      && |u.table| == |table| + u.inserted
      && forall k :: k in table && k !in JokeIds(jokes) ==> u.table[k] == table[k]
  {
    UpsertKeySet(table, jokes);
    UpsertSize(table, jokes);
    UpsertOthers(table, jokes);
  }

  /** With distinct ids, every joke ends up as the row of its id. */
  lemma {:induction false} UpsertRows(table: map<int, Joke>, jokes: seq<Joke>)
    requires Keyed(jokes) && DistinctIds(jokes)
    ensures var u := UpsertAll(table, jokes);
      forall i :: 0 <= i < |jokes| ==> jokes[i].jokeId.value in u.table && u.table[jokes[i].jokeId.value] == jokes[i]
    decreases |jokes|
  {
    if jokes != [] {
      var n := |jokes| - 1;
      var init := jokes[..n];
      UpsertSplit(table, jokes);
      assert DistinctIds(init);
      UpsertRows(table, init);
      var u := UpsertAll(table, jokes);
      forall i | 0 <= i < |jokes|
        ensures jokes[i].jokeId.value in u.table && u.table[jokes[i].jokeId.value] == jokes[i]
      {
        if i < n {
          assert jokes[i] == init[i];
          assert jokes[i].jokeId != jokes[n].jokeId;
        }
      }
    }
  }

  /** With distinct ids, the inserted jokes are those with ids new to the table and the updated ones the others. */
  lemma {:induction false} UpsertSplitCounts(table: map<int, Joke>, jokes: seq<Joke>)
    requires Keyed(jokes) && DistinctIds(jokes)
    ensures var u := UpsertAll(table, jokes);
      && u.inserted == |JokeIds(jokes) - table.Keys|
      && u.updated == |JokeIds(jokes) * table.Keys|
    decreases |jokes|
  {
    if jokes != [] {
      var n := |jokes| - 1;
      var init := jokes[..n];
      var id := jokes[n].jokeId.value;
      UpsertSplit(table, jokes);
      assert DistinctIds(init);
      UpsertSplitCounts(table, init);
      UpsertKeys(table, init);
      var ids := JokeIds(init);
      forall i | 0 <= i < n
        ensures init[i].jokeId.value != id
      {
        assert init[i] == jokes[i];
      }
      var prev := UpsertAll(table, init);
      assert id in prev.table <==> id in table;
      CountStep(ids, table.Keys, id);
    }
  }

  lemma CountStep(ids: set<int>, keys: set<int>, id: int)
    requires id !in ids
    ensures id in keys ==> |(ids + {id}) - keys| == |ids - keys| && |(ids + {id}) * keys| == |ids * keys| + 1
    ensures id !in keys ==> |(ids + {id}) - keys| == |ids - keys| + 1 && |(ids + {id}) * keys| == |ids * keys|
  {
    if id in keys {
      assert (ids + {id}) - keys == ids - keys;
      assert (ids + {id}) * keys == (ids * keys) + {id};
    } else {
      assert (ids + {id}) - keys == (ids - keys) + {id};
      assert (ids + {id}) * keys == ids * keys;
    }
  }

  /** A target below 1 is refused with status 400, whatever JokeAPI would return; no other target is refused. */
  lemma TargetChecked(target: int, fetch: int -> seq<RawJoke>, other: int -> seq<RawJoke>, table: map<int, Joke>)
    ensures Import(target, fetch, table).Rejected? <==> target < 1
    ensures target < 1 ==> Import(target, fetch, table) == Import(target, other, table) == Rejected(400, TargetDetail)
  {
  }

  /** The import fails, before any row is written, exactly when a kept raw joke has a null `flags`. */
  lemma ImportFails(target: int, fetch: int -> seq<RawJoke>, table: map<int, Joke>)
    ensures Import(target, fetch, table).TransformFailed?
      <==> target >= 1 && exists r :: r in FirstById(fetch(target)) && r.flags.Null?
  {
    if target >= 1 {
      var u := FirstById(fetch(target));
      if r :| r in u && r.flags.Null? {
        var i :| 0 <= i < |u| && u[i] == r;
        assert u[i].flags.Null?;
      }
    }
  }

  /** The processed jokes are keyed, distinct, and have the ids kept by the dedup. */
  lemma ProcessedIds(unique: seq<RawJoke>, processed: seq<Joke>)
    requires TransformAll(unique) == Some(processed)
    requires forall i, j :: 0 <= i < j < |unique| ==> unique[i].id != unique[j].id
    requires forall i :: 0 <= i < |unique| ==> unique[i].id.Some?
    ensures Keyed(processed) && DistinctIds(processed)
    ensures JokeIds(processed) == SeenIds(unique)
  {
    assert |processed| == |unique|;
    forall i | 0 <= i < |processed|
      ensures processed[i].jokeId == unique[i].id
    {
      assert TransformJoke(unique[i]) == Some(processed[i]);
    }
    assert Keyed(processed);
  }

  /** The jokes a successful import processes: keyed, distinct, and carrying the distinct ids fetched. */
  lemma ImportProcessed(target: int, fetch: int -> seq<RawJoke>)
    requires target >= 1 && TransformAll(FirstById(fetch(target))).Some?
    ensures var processed := TransformAll(FirstById(fetch(target))).value;
      && Keyed(processed) && DistinctIds(processed)
      && JokeIds(processed) == SeenIds(fetch(target))
      && |processed| == |SeenIds(fetch(target))|
  {
    var raws := fetch(target);
    var unique := FirstById(raws);
    FirstByIdIds(raws);
    ProcessedIds(unique, TransformAll(unique).value);
  }

  /**
   * A successful import answers with the target, the number of distinct
   * non-null ids fetched, and counters that add up to it: inserted for the
   * ids new to the table, updated for the others.
   */
  lemma ImportCounts(target: int, fetch: int -> seq<RawJoke>, table: map<int, Joke>)
    requires Import(target, fetch, table).Imported?
    ensures var ids := SeenIds(fetch(target));
      var response := Import(target, fetch, table).response;
      && response.requested == target
      && response.fetched == |ids|
      && response.inserted + response.updated == |ids|
      && response.inserted == |ids - table.Keys|
      && response.updated == |ids * table.Keys|
  {
    var processed := TransformAll(FirstById(fetch(target))).value;
    ImportProcessed(target, fetch);
    UpsertCounted(table, processed);
    UpsertSplitCounts(table, processed);
  }

  /** What a successful import is made of. */
  lemma ImportParts(target: int, fetch: int -> seq<RawJoke>, table: map<int, Joke>)
    requires Import(target, fetch, table).Imported?
    ensures target >= 1 && TransformAll(FirstById(fetch(target))).Some?
    ensures var processed := TransformAll(FirstById(fetch(target))).value;
      && Keyed(processed) && DistinctIds(processed)
      && JokeIds(processed) == SeenIds(fetch(target))
      && Import(target, fetch, table).table == UpsertAll(table, processed).table
  {
    ImportProcessed(target, fetch);
  }

  /** After a successful import the table has a row for each fetched id, and every other row is unchanged. */
  lemma ImportKeeps(target: int, fetch: int -> seq<RawJoke>, table: map<int, Joke>)
    requires Import(target, fetch, table).Imported?
    ensures var ids := SeenIds(fetch(target));
      var newTable := Import(target, fetch, table).table;
      && newTable.Keys == table.Keys + ids
      && forall k :: k in table && k !in ids ==> newTable[k] == table[k]
  {
    ImportParts(target, fetch, table);
    UpsertKeys(table, TransformAll(FirstById(fetch(target))).value);
  }

  /** After a successful import each fetched id holds the transform of the first fetched joke with it. */
  lemma ImportRows(target: int, fetch: int -> seq<RawJoke>, table: map<int, Joke>)
    requires Import(target, fetch, table).Imported?
    ensures var raws := fetch(target);
      var newTable := Import(target, fetch, table).table;
      forall i :: FirstWithId(raws, i) ==> raws[i].id.value in newTable && TransformJoke(raws[i]) == Some(newTable[raws[i].id.value])
  {
    var raws := fetch(target);
    var unique := FirstById(raws);
    ImportParts(target, fetch, table);
    var processed := TransformAll(unique).value;
    UpsertRows(table, processed);
    var newTable := UpsertAll(table, processed).table;
    forall i | FirstWithId(raws, i)
      ensures raws[i].id.value in newTable && TransformJoke(raws[i]) == Some(newTable[raws[i].id.value])
    {
      FirstIsKept(raws, i);
      var k :| 0 <= k < |unique| && unique[k] == raws[i];
      assert TransformJoke(unique[k]) == Some(processed[k]);
    }
  }
}
