/**
 * `RecommendationService.recommendForUser`: the three filling stages as the
 * loops that append to the mutable `recommendations` list, one method per
 * stage. The repositories are the sequences `users`, `catalog` (`findAll`,
 * in its stable order) and `history` (every reading-history entry of every
 * user).
 */
module RecommendationService {
  import opened Wrappers
  import opened Library
  import opened RecommendationSpec
  import opened RecommendationLemmas

  /** One stage-A pass, and the stage-C scan when `want` is None: the inner `for (Book b : allBooks)` loop. */
  method ScanCatalog(recs0: seq<Book>, catalog: seq<Book>, want: Option<Category>, read: set<int>, limit: int)
    returns (recs: seq<Book>)
    ensures recs == Scan(recs0, catalog, want, read, limit)
  {
    recs := recs0;
    assert catalog[..|catalog|] == catalog;
    for i := 0 to |catalog|
      invariant recs == Scan(recs0, catalog[..i], want, read, limit)
    {
      if |recs| >= limit {
        ScanStaysFull(recs0, catalog, i, want, read, limit);
        break;
      }
      var b := catalog[i];
      assert catalog[..i + 1][..i] == catalog[..i];
      if (want.None? || b.category == want) && b.id !in read && b.id !in IdsOf(recs) {
        recs := recs + [b];
      }
    }
  }

  /** Stage A: for each favourite category in ranking order, a catalog scan. */
  method FillByCategory(catalog: seq<Book>, favorites: seq<Category>, read: set<int>, limit: int)
    returns (recs: seq<Book>)
    ensures recs == StageA(catalog, favorites, read, limit)
  {
    recs := [];
    assert favorites[..|favorites|] == favorites;
    for j := 0 to |favorites|
      invariant recs == StageA(catalog, favorites[..j], read, limit)
    {
      assert favorites[..j + 1][..j] == favorites[..j];
      recs := ScanCatalog(recs, catalog, Some(favorites[j]), read, limit);
      if |recs| >= limit {
        StageAStaysFull(catalog, favorites, j + 1, read, limit);
        break;
      }
    }
  }

  /** Stage B: walk the popularity ranking, skipping read ids and ids with no catalog book. */
  method FillByPopularity(recs0: seq<Book>, popular: seq<int>, catalog: seq<Book>, read: set<int>, limit: int)
    returns (recs: seq<Book>)
    ensures recs == StageB(recs0, popular, catalog, read, limit)
  {
    recs := recs0;
    assert popular[..|popular|] == popular;
    for k := 0 to |popular|
      invariant recs == StageB(recs0, popular[..k], catalog, read, limit)
    {
      if |recs| >= limit {
        StageBStaysFull(recs0, popular, k, catalog, read, limit);
        break;
      }
      var id := popular[k];
      assert popular[..k + 1][..k] == popular[..k];
      if id in read {
        continue;
      }
      var found := FindBook(catalog, id);
      if found.Some? && found.value.id !in IdsOf(recs) {
        recs := recs + [found.value];
      }
    }
  }

  method RecommendForUser(users: seq<User>, catalog: seq<Book>, history: seq<Entry>, userId: int, limit: int)
    returns (r: Outcome)
    ensures r == Recommend(users, catalog, history, userId, limit)
  {
    if !UserExists(users, userId) {
      return Recommended([]);
    }
    var own := UserHistory(history, userId);
    var read := ReadSet(own);
    var recs := FillByCategory(catalog, Favorites(own), read, limit);
    if |recs| < limit {
      recs := FillByPopularity(recs, PopularIds(history), catalog, read, limit);
    }
    if |recs| < limit {
      recs := ScanCatalog(recs, catalog, None, read, limit);
    }
    // `stream().limit(limit)` rejects a negative size.
    if limit < 0 {
      return IllegalLimit;
    }
    r := Recommended(Take(recs, limit));
  }
}
