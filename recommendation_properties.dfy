/** What `recommendForUser` promises its callers, for every catalog and history. */
module RecommendationProperties {
  import opened Wrappers
  import opened Library
  import opened Sequences
  import opened RecommendationSpec
  import opened RecommendationLemmas

  /** The ids of the catalog books not in `read`. */
  function UnreadIds(catalog: seq<Book>, read: set<int>): set<int> {
    set b | b in catalog && b.id !in read :: b.id
  }

  /**
   * The shape of the three stages, for any favourite ranking and any
   * popularity ranking: stage A's list is extended by stage B's books, whose
   * ids follow the popularity ranking, then by stage C's books, in catalog
   * order; a list that is full after a stage is the result; a stage that
   * ends short has taken every unread book it could: stage A every one of a
   * favourite category, stage B every one the ranking names, and stage C,
   * so the result, every unread catalog book.
   */
  lemma PipelineShape(catalog: seq<Book>, favs: seq<Category>, popular: seq<int>, read: set<int>, limit: int)
    requires limit >= 0
    ensures var a := StageA(catalog, favs, read, limit);
      var b := AfterStageB(a, popular, catalog, read, limit);
      var c := Pipeline(catalog, favs, popular, read, limit);
      && Admissible(c, catalog, read)
      && |c| <= limit
      && |a| <= |b| <= |c| && c[..|a|] == a && c[..|b|] == b
      && IsSubseq(BookIds(c[|a|..|b|]), popular)
      && IsSubseq(c[|b|..], catalog)
      && (|a| >= limit ==> c == a)
      && (|b| >= limit ==> c == b)
      && (|a| < limit ==> forall x, k :: x in catalog && x.id !in read && k in favs && x.category == Some(k) ==> x.id in IdsOf(a))
      && (|b| < limit ==> forall id :: id in popular && id !in read && FindBook(catalog, id).Some? ==> id in IdsOf(b))
      && (|c| < limit ==> forall x :: x in catalog && x.id !in read ==> x.id in IdsOf(c))
  {
    var a := StageA(catalog, favs, read, limit);
    StageAKeeps(catalog, favs, read, limit);
    var b := AfterStageB(a, popular, catalog, read, limit);
    if |a| < limit {
      StageAComplete(catalog, favs, read, limit);
      StageBKeeps(a, popular, catalog, read, limit);
      if |b| < limit {
        StageBComplete(a, popular, catalog, read, limit);
      }
    } else {
      assert BookIds(b[|a|..]) == [];
    }
    var c := Pipeline(catalog, favs, popular, read, limit);
    if |b| < limit {
      ScanKeeps(b, catalog, None, read, limit, catalog);
      if |c| < limit {
        ScanComplete(b, catalog, None, read, limit);
      }
    } else {
      assert c[|b|..] == [];
    }
    assert c[|a|..|b|] == b[|a|..];
  }

  /**
   * An unknown user gets an empty list whatever the limit; a known user gets
   * at most `limit` books, none for a zero limit, and an
   * IllegalArgumentException for a negative one.
   */
  lemma LimitRespected(users: seq<User>, catalog: seq<Book>, history: seq<Entry>, userId: int, limit: int)
    ensures !UserExists(users, userId) ==> Recommend(users, catalog, history, userId, limit) == Recommended([])
    ensures UserExists(users, userId) && limit < 0 ==> Recommend(users, catalog, history, userId, limit) == IllegalLimit
    ensures limit >= 0 ==> Recommend(users, catalog, history, userId, limit).Recommended?
    ensures limit >= 0 ==> |Recommend(users, catalog, history, userId, limit).books| <= limit
    ensures limit == 0 ==> Recommend(users, catalog, history, userId, limit) == Recommended([])
  {
    if UserExists(users, userId) && limit >= 0 {
      var own := UserHistory(history, userId);
      PipelineShape(catalog, Favorites(own), PopularIds(history), ReadSet(own), limit);
    }
  }

  /**
   * Every recommended book is a catalog book with an id of its own, and the
   * user has no READ entry for it (READING_LIST entries do not exclude).
   */
  lemma OnlyUnreadCatalogBooks(users: seq<User>, catalog: seq<Book>, history: seq<Entry>, userId: int, limit: int)
    requires Recommend(users, catalog, history, userId, limit).Recommended?
    ensures var books := Recommend(users, catalog, history, userId, limit).books;
      && NoDupIds(books)
      && (forall b :: b in books ==> b in catalog)
      && (forall b, e :: b in books && e in history && e.user == userId && e.status == Read ==> e.book.id != b.id)
  {
    if UserExists(users, userId) {
      var own := UserHistory(history, userId);
      var read := ReadSet(own);
      PipelineShape(catalog, Favorites(own), PopularIds(history), read, limit);
      var books := Recommend(users, catalog, history, userId, limit).books;
      forall b, e | b in books && e in history && e.user == userId && e.status == Read
        ensures e.book.id != b.id
      {
        assert e in own;
        assert e.book.id in ReadKeys(own);
      }
    }
  }

  /**
   * The result is stage A's list, then stage B's additions in popularity
   * order, then stage C's additions in catalog order; if stage A fills the
   * limit, the result is stage A's list; if the result is short, every
   * catalog book the user has not READ is in it.
   */
  lemma StagesInOrder(users: seq<User>, catalog: seq<Book>, history: seq<Entry>, userId: int, limit: int)
    requires UserExists(users, userId) && limit >= 0
    ensures var own := UserHistory(history, userId);
      var read := ReadSet(own);
      var a := StageA(catalog, Favorites(own), read, limit);
      var b := AfterStageB(a, PopularIds(history), catalog, read, limit);
      var books := Recommend(users, catalog, history, userId, limit).books;
      && |a| <= |b| <= |books| && books[..|a|] == a && books[..|b|] == b
      && IsSubseq(BookIds(books[|a|..|b|]), PopularIds(history))
      && IsSubseq(books[|b|..], catalog)
      && (|a| >= limit ==> books == a)
      && (|books| < limit ==> forall x :: x in catalog && x.id !in read ==> x.id in IdsOf(books))
  {
    var own := UserHistory(history, userId);
    PipelineShape(catalog, Favorites(own), PopularIds(history), ReadSet(own), limit);
  }

  /** No more books are recommended than the catalog has unread ids. */
  lemma BoundedByUnread(users: seq<User>, catalog: seq<Book>, history: seq<Entry>, userId: int, limit: int)
    requires UserExists(users, userId) && limit >= 0
    ensures |Recommend(users, catalog, history, userId, limit).books|
         <= |UnreadIds(catalog, ReadSet(UserHistory(history, userId)))|
  {
    var own := UserHistory(history, userId);
    var read := ReadSet(own);
    PipelineShape(catalog, Favorites(own), PopularIds(history), read, limit);
    var books := Recommend(users, catalog, history, userId, limit).books;
    forall b | b in books ensures b.id in UnreadIds(catalog, read) {
      assert b in catalog && b.id !in read;
    }
    DistinctIdsWithin(books, UnreadIds(catalog, read));
  }

  /**
   * Stage A lists, for each favourite category in ranking order, unread books
   * of that category only, in catalog order: the books added by the n-th
   * category's pass follow those of the earlier categories.
   */
  lemma StageAGroupedByFavorite(catalog: seq<Book>, favs: seq<Category>, read: set<int>, limit: int, n: nat)
    requires n < |favs|
    ensures var lo := StageA(catalog, favs[..n], read, limit);
      var hi := StageA(catalog, favs[..n + 1], read, limit);
      var a := StageA(catalog, favs, read, limit);
      && |lo| <= |hi| <= |a| && a[..|hi|] == hi && hi[..|lo|] == lo
      && IsSubseq(hi[|lo|..], catalog)
      && forall b :: b in hi[|lo|..] ==> b.category == Some(favs[n])
  {
    var lo := StageA(catalog, favs[..n], read, limit);
    StageAKeeps(catalog, favs[..n], read, limit);
    assert favs[..n + 1][..n] == favs[..n];
    ScanKeeps(lo, catalog, Some(favs[n]), read, limit, catalog);
    StageAPrefix(catalog, favs, n + 1, read, limit);
  }

  /** Every entry with a categorised book adds one to its category's count, whatever its status. */
  lemma {:induction false} CategoryCountAppend(h: seq<Entry>, e: Entry)
    ensures multiset(CategoryKeys(h + [e]))
         == multiset(CategoryKeys(h)) + (if e.book.category.Some? then multiset{e.book.category.value} else multiset{})
    decreases |h|
  {
    if h == [] {
      assert [] + [e] == [e];
    } else {
      assert (h + [e])[1..] == h[1..] + [e];
      CategoryCountAppend(h[1..], e);
    }
  }

  /** Every READ entry, of any user, adds one to its book's popularity; other entries add nothing. */
  lemma {:induction false} PopularityCountAppend(h: seq<Entry>, e: Entry)
    ensures multiset(ReadKeys(h + [e]))
         == multiset(ReadKeys(h)) + (if e.status == Read then multiset{e.book.id} else multiset{})
    decreases |h|
  {
    if h == [] {
      assert [] + [e] == [e];
    } else {
      assert (h + [e])[1..] == h[1..] + [e];
      PopularityCountAppend(h[1..], e);
    }
  }
}
