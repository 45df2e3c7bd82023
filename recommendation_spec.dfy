/**
 * The book recommender as functions: the read set and the two rankings it
 * derives from the reading history, and the three filling stages it runs
 * over the catalog. `RecommendationService.RecommendForUser` computes the
 * same value with loops.
 */
module RecommendationSpec {
  import opened Wrappers
  import opened Library
  import opened Frequency

  /** What `recommendForUser` returns, or the exception it throws. */
  datatype Outcome = Recommended(books: seq<Book>) | IllegalLimit

  /** `userRepository.findById(userId).isPresent()`. */
  predicate UserExists(users: seq<User>, userId: int) {
    exists u :: u in users && u.id == userId
  }

  /** `readingHistoryRepository.findByUser(user)`: the user's entries, in log order. */
  function UserHistory(history: seq<Entry>, userId: int): (h: seq<Entry>)
    ensures forall e :: e in h <==> e in history && e.user == userId
  {
    if history == [] then []
    else (if history[0].user == userId then [history[0]] else []) + UserHistory(history[1..], userId)
  }

  /** The log grows at its end: a new entry of the user ends the history, any other leaves it as it was. */
  lemma {:induction false} UserHistoryAppend(history: seq<Entry>, e: Entry, userId: int)
    ensures UserHistory(history + [e], userId) == UserHistory(history, userId) + (if e.user == userId then [e] else [])
    decreases |history|
  {
    var tail := if e.user == userId then [e] else [];
    if history == [] {
      assert ([] + [e])[1..] == [];
      assert UserHistory([e], userId) == tail + UserHistory([], userId);
    } else {
      var head := if history[0].user == userId then [history[0]] else [];
      var rest := history[1..];
      assert (history + [e])[0] == history[0];
      assert (history + [e])[1..] == rest + [e];
      UserHistoryAppend(rest, e, userId);
      calc {
        UserHistory(history + [e], userId);
        head + UserHistory(rest + [e], userId);
        head + (UserHistory(rest, userId) + tail);
        (head + UserHistory(rest, userId)) + tail;
        UserHistory(history, userId) + tail;
      }
    }
  }

  /** Every entry of the user is kept as often as it occurs in the log, and no other entry is. */
  lemma {:induction false} UserHistoryCounts(history: seq<Entry>, userId: int)
    ensures forall e :: multiset(UserHistory(history, userId))[e] == (if e.user == userId then multiset(history)[e] else 0)
    decreases |history|
  {
    if history != [] {
      UserHistoryCounts(history[1..], userId);
      assert history == [history[0]] + history[1..];
    }
  }

  /** The category of every entry whose book has one, whatever the entry's status. */
  function CategoryKeys(h: seq<Entry>): (cs: seq<Category>)
    ensures forall c :: c in cs <==> exists e :: e in h && e.book.category == Some(c)
  {
    if h == [] then []
    else (if h[0].book.category.Some? then [h[0].book.category.value] else []) + CategoryKeys(h[1..])
  }

  /** The book id of every READ entry. */
  function ReadKeys(h: seq<Entry>): (ids: seq<int>)
    ensures forall id :: id in ids <==> exists e :: e in h && e.status == Read && e.book.id == id
  {
    if h == [] then []
    else (if h[0].status == Read then [h[0].book.id] else []) + ReadKeys(h[1..])
  }

  /** `readBookIds`: the ids of the books the user has a READ entry for. */
  function ReadSet(own: seq<Entry>): set<int> {
    set id | id in ReadKeys(own)
  }

  /** `favoriteCategories`: the user's categories, most frequent first. */
  function Favorites(own: seq<Entry>): seq<Category> {
    Ranking(CategoryKeys(own))
  }

  /** `popularBookIds`: ids of books with READ entries of any user, most READ first. */
  function PopularIds(history: seq<Entry>): seq<int> {
    Ranking(ReadKeys(history))
  }

  /** The ids of the books in `s`. */
  function IdsOf(s: seq<Book>): set<int> {
    set b | b in s :: b.id
  }

  /** No book id occurs twice. */
  predicate NoDupIds(s: seq<Book>) {
    forall i, j :: 0 <= i < j < |s| ==> s[i].id != s[j].id
  }

  /**
   * One iteration of the catalog scans of stage A (`want == Some(c)`: only
   * books of category c) and stage C (`want == None`: any book): append `b`
   * unless the list is full, `b` is unwanted or read, or its id is already listed.
   */
  function ScanStep(acc: seq<Book>, b: Book, want: Option<Category>, read: set<int>, limit: int): seq<Book> {
    if |acc| < limit && (want.None? || b.category == want) && b.id !in read && b.id !in IdsOf(acc)
    then acc + [b]
    else acc
  }

  /** A scan of `books` in order, starting from `acc`. */
  function Scan(acc: seq<Book>, books: seq<Book>, want: Option<Category>, read: set<int>, limit: int): seq<Book>
    decreases |books|
  {
    if books == [] then acc
    else ScanStep(Scan(acc, books[..|books| - 1], want, read, limit), books[|books| - 1], want, read, limit)
  }

  /** Stage A: one catalog scan per favourite category, in ranking order. */
  function StageA(catalog: seq<Book>, favs: seq<Category>, read: set<int>, limit: int): seq<Book>
    decreases |favs|
  {
    if favs == [] then []
    else Scan(StageA(catalog, favs[..|favs| - 1], read, limit), catalog, Some(favs[|favs| - 1]), read, limit)
  }

  /** `bookRepository.findById(id)`: the catalog book with that id, if any. */
  function FindBook(catalog: seq<Book>, id: int): (r: Option<Book>)
    ensures r.Some? ==> r.value in catalog && r.value.id == id
    ensures r.None? <==> forall b :: b in catalog ==> b.id != id
  {
    if catalog == [] then None
    else if catalog[0].id == id then Some(catalog[0])
    else FindBook(catalog[1..], id)
  }

  /** One iteration of stage B: skip read ids and ids with no book, append the book if not listed. */
  function PopularStep(acc: seq<Book>, id: int, catalog: seq<Book>, read: set<int>, limit: int): seq<Book> {
    if |acc| >= limit || id in read then acc
    else
      match FindBook(catalog, id)
      case None => acc
      case Some(b) => if b.id in IdsOf(acc) then acc else acc + [b]
  }

  /** Stage B: a walk over the popularity ranking `ids`, starting from `acc`. */
  function StageB(acc: seq<Book>, ids: seq<int>, catalog: seq<Book>, read: set<int>, limit: int): seq<Book>
    decreases |ids|
  {
    if ids == [] then acc
    else PopularStep(StageB(acc, ids[..|ids| - 1], catalog, read, limit), ids[|ids| - 1], catalog, read, limit)
  }

  /** Stage B, run only while stage A left the list short. */
  function AfterStageB(a: seq<Book>, popular: seq<int>, catalog: seq<Book>, read: set<int>, limit: int): seq<Book> {
    if |a| < limit then StageB(a, popular, catalog, read, limit) else a
  }

  /** Stage C, run only while the list is still short. */
  function AfterStageC(b: seq<Book>, catalog: seq<Book>, read: set<int>, limit: int): seq<Book> {
    if |b| < limit then Scan(b, catalog, None, read, limit) else b
  }

  /** The three stages for a given favourite ranking and popularity ranking. */
  function Pipeline(catalog: seq<Book>, favs: seq<Category>, popular: seq<int>, read: set<int>, limit: int): seq<Book> {
    var a := StageA(catalog, favs, read, limit);
    AfterStageC(AfterStageB(a, popular, catalog, read, limit), catalog, read, limit)
  }

  /** `stream().limit(n)` for `n >= 0`: the first `n` elements. */
  function Take(s: seq<Book>, n: nat): seq<Book> {
    if |s| <= n then s else s[..n]
  }

  /** `recommendForUser(userId, limit)`. */
  function Recommend(users: seq<User>, catalog: seq<Book>, history: seq<Entry>, userId: int, limit: int): Outcome {
    if !UserExists(users, userId) then Recommended([])
    else
      var own := UserHistory(history, userId);
      var recs := Pipeline(catalog, Favorites(own), PopularIds(history), ReadSet(own), limit);
      if limit < 0 then IllegalLimit else Recommended(Take(recs, limit))
  }
}
