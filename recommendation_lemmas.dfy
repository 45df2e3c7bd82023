/** What the stages of the recommender keep and promise. */
module RecommendationLemmas {
  import opened Wrappers
  import opened Library
  import opened Sequences
  import opened RecommendationSpec

  /** A list the stages may build: no id twice, every book from the catalog and unread. */
  ghost predicate Admissible(s: seq<Book>, catalog: seq<Book>, read: set<int>) {
    NoDupIds(s) && forall b :: b in s ==> b in catalog && b.id !in read
  }

  /** The ids of the books of `s`, in order. */
  function BookIds(s: seq<Book>): (ids: seq<int>)
    ensures |ids| == |s| && forall i :: 0 <= i < |s| ==> ids[i] == s[i].id
  {
    seq(|s|, i requires 0 <= i < |s| => s[i].id)
  }

  lemma IdsOfAppend(s: seq<Book>, b: Book)
    ensures IdsOf(s + [b]) == IdsOf(s) + {b.id}
  {
    assert forall x :: x in s + [b] <==> x in s || x == b;
  }

  /** A book is in `s` only if its id is listed. */
  lemma IdsOfMember(s: seq<Book>, b: Book)
    requires b in s
    ensures b.id in IdsOf(s)
  {
  }

  /** Appending a book whose id is new to an admissible list keeps it admissible. */
  lemma AppendKeeps(s: seq<Book>, b: Book, catalog: seq<Book>, read: set<int>)
    requires Admissible(s, catalog, read)
    requires b in catalog && b.id !in read && b.id !in IdsOf(s)
    ensures Admissible(s + [b], catalog, read)
  {
    forall i | 0 <= i < |s| ensures s[i].id != b.id {
      IdsOfMember(s, s[i]);
    }
  }

  // ---- Once the list is full, nothing changes any more. ----

  lemma {:induction false} ScanFromFull(acc: seq<Book>, books: seq<Book>, want: Option<Category>, read: set<int>, limit: int)
    requires |acc| >= limit
    ensures Scan(acc, books, want, read, limit) == acc
    decreases |books|
  {
    if books != [] {
      ScanFromFull(acc, books[..|books| - 1], want, read, limit);
    }
  }

  /** A scan that is full after `i` books ends as it was then. */
  lemma {:induction false} ScanStaysFull(acc: seq<Book>, books: seq<Book>, i: nat, want: Option<Category>, read: set<int>, limit: int)
    requires i <= |books|
    requires |Scan(acc, books[..i], want, read, limit)| >= limit
    ensures Scan(acc, books, want, read, limit) == Scan(acc, books[..i], want, read, limit)
    decreases |books|
  {
    if i == |books| {
      assert books[..i] == books;
    } else {
      var m := |books| - 1;
      assert books[..m][..i] == books[..i];
      ScanStaysFull(acc, books[..m], i, want, read, limit);
    }
  }

  /** A walk over the popularity ranking that is full after `i` ids ends as it was then. */
  lemma {:induction false} StageBStaysFull(acc: seq<Book>, ids: seq<int>, i: nat, catalog: seq<Book>, read: set<int>, limit: int)
    requires i <= |ids|
    requires |StageB(acc, ids[..i], catalog, read, limit)| >= limit
    ensures StageB(acc, ids, catalog, read, limit) == StageB(acc, ids[..i], catalog, read, limit)
    decreases |ids|
  {
    if i == |ids| {
      assert ids[..i] == ids;
    } else {
      var m := |ids| - 1;
      assert ids[..m][..i] == ids[..i];
      StageBStaysFull(acc, ids[..m], i, catalog, read, limit);
    }
  }

  /** Stage A that is full after `n` categories ends as it was then. */
  lemma {:induction false} StageAStaysFull(catalog: seq<Book>, favs: seq<Category>, n: nat, read: set<int>, limit: int)
    requires n <= |favs|
    requires |StageA(catalog, favs[..n], read, limit)| >= limit
    ensures StageA(catalog, favs, read, limit) == StageA(catalog, favs[..n], read, limit)
    decreases |favs|
  {
    if n == |favs| {
      assert favs[..n] == favs;
    } else {
      var m := |favs| - 1;
      assert favs[..m][..n] == favs[..n];
      StageAStaysFull(catalog, favs[..m], n, read, limit);
      ScanFromFull(StageA(catalog, favs[..m], read, limit), catalog, Some(favs[m]), read, limit);
    }
  }

  // ---- What each stage keeps. ----

  /**
   * A catalog scan extends its start list by unread books of the wanted
   * category with new ids, taken in catalog order, and stays within `limit`.
   */
  lemma {:induction false} ScanKeeps(acc: seq<Book>, books: seq<Book>, want: Option<Category>, read: set<int>, limit: int, catalog: seq<Book>)
    requires Admissible(acc, catalog, read)
    requires forall b :: b in books ==> b in catalog
    ensures var r := Scan(acc, books, want, read, limit);
      && Admissible(r, catalog, read)
      && |acc| <= |r| && r[..|acc|] == acc
      && (|acc| <= limit ==> |r| <= limit)
      && (forall b :: b in r[|acc|..] ==> want.None? || b.category == want)
      && IsSubseq(r[|acc|..], books)
    decreases |books|
  {
    if books != [] {
      var m := |books| - 1;
      var prev := Scan(acc, books[..m], want, read, limit);
      ScanKeeps(acc, books[..m], want, read, limit, catalog);
      var b := books[m];
      assert books == books[..m] + [b];
      SubseqExtend(prev[|acc|..], books[..m], b);
      ScanStepKeeps(acc, prev, b, want, read, limit, catalog);
    }
  }

  /** One step of a catalog scan appends at most `b`, keeping the list admissible. */
  lemma ScanStepKeeps(acc: seq<Book>, prev: seq<Book>, b: Book, want: Option<Category>, read: set<int>, limit: int, catalog: seq<Book>)
    requires Admissible(prev, catalog, read) && |acc| <= |prev| && prev[..|acc|] == acc && b in catalog
    ensures var r := ScanStep(prev, b, want, read, limit);
      && Admissible(r, catalog, read)
      && |prev| <= |r| && r[..|acc|] == acc
      && (|prev| <= limit ==> |r| <= limit)
      && (r == prev || (r == prev + [b] && (want.None? || b.category == want)))
      && r[|acc|..] == prev[|acc|..] + (if r == prev then [] else [b])
  {
    if ScanStep(prev, b, want, read, limit) != prev {
      AppendKeeps(prev, b, catalog, read);
      assert (prev + [b])[|acc|..] == prev[|acc|..] + [b];
    }
  }

  /** One step of stage B appends at most the book with the current id, keeping the list admissible. */
  lemma PopularStepKeeps(acc: seq<Book>, prev: seq<Book>, id: int, catalog: seq<Book>, read: set<int>, limit: int)
    requires Admissible(prev, catalog, read) && |acc| <= |prev| && prev[..|acc|] == acc
    ensures var r := PopularStep(prev, id, catalog, read, limit);
      && Admissible(r, catalog, read)
      && |prev| <= |r| && r[..|acc|] == acc
      && (|prev| <= limit ==> |r| <= limit)
      && BookIds(r[|acc|..]) == BookIds(prev[|acc|..]) + (if r == prev then [] else [id])
  {
    var r := PopularStep(prev, id, catalog, read, limit);
    if r != prev {
      var b := FindBook(catalog, id).value;
      AppendKeeps(prev, b, catalog, read);
      assert r == prev + [b];
      assert r[|acc|..] == prev[|acc|..] + [b];
    }
  }

  /**
   * A walk over a popularity ranking extends its start list by unread
   * catalog books with new ids, whose ids follow the ranking's order, and
   * stays within `limit`.
   */
  lemma {:induction false} StageBKeeps(acc: seq<Book>, ids: seq<int>, catalog: seq<Book>, read: set<int>, limit: int)
    requires Admissible(acc, catalog, read)
    ensures var r := StageB(acc, ids, catalog, read, limit);
      && Admissible(r, catalog, read)
      && |acc| <= |r| && r[..|acc|] == acc
      && (|acc| <= limit ==> |r| <= limit)
      && IsSubseq(BookIds(r[|acc|..]), ids)
    decreases |ids|
  {
    if ids == [] {
      var r := StageB(acc, ids, catalog, read, limit);
      assert BookIds(r[|acc|..]) == [];
    } else {
      var m := |ids| - 1;
      var prev := StageB(acc, ids[..m], catalog, read, limit);
      StageBKeeps(acc, ids[..m], catalog, read, limit);
      var id := ids[m];
      assert ids == ids[..m] + [id];
      SubseqExtend(BookIds(prev[|acc|..]), ids[..m], id);
      PopularStepKeeps(acc, prev, id, catalog, read, limit);
    }
  }

  /** Stage A lists unread catalog books with distinct ids, each of a favourite category, at most `limit` of them. */
  lemma {:induction false} StageAKeeps(catalog: seq<Book>, favs: seq<Category>, read: set<int>, limit: int)
    ensures var a := StageA(catalog, favs, read, limit);
      && Admissible(a, catalog, read)
      && (limit >= 0 ==> |a| <= limit)
      && forall b :: b in a ==> exists c :: c in favs && b.category == Some(c)
    decreases |favs|
  {
    if favs != [] {
      var m := |favs| - 1;
      var prev := StageA(catalog, favs[..m], read, limit);
      StageAKeeps(catalog, favs[..m], read, limit);
      ScanKeeps(prev, catalog, Some(favs[m]), read, limit, catalog);
      var a := StageA(catalog, favs, read, limit);
      assert a == prev + a[|prev|..];
      forall b | b in a ensures exists c :: c in favs && b.category == Some(c) {
        if b in prev {
          var c :| c in favs[..m] && b.category == Some(c);
          assert c in favs;
        } else {
          assert b in a[|prev|..];
          assert favs[m] in favs;
        }
      }
    } else {
      assert StageA(catalog, favs, read, limit) == [];
    }
  }

  /** A scan never shrinks its list and never loses an id. */
  lemma {:induction false} ScanGrows(acc: seq<Book>, books: seq<Book>, want: Option<Category>, read: set<int>, limit: int)
    ensures |acc| <= |Scan(acc, books, want, read, limit)|
    ensures IdsOf(acc) <= IdsOf(Scan(acc, books, want, read, limit))
    decreases |books|
  {
    if books != [] {
      var m := |books| - 1;
      var prev := Scan(acc, books[..m], want, read, limit);
      ScanGrows(acc, books[..m], want, read, limit);
      if ScanStep(prev, books[m], want, read, limit) != prev {
        IdsOfAppend(prev, books[m]);
      }
    }
  }

  /**
   * A scan that ends short has listed every unread book it scanned that is
   * of the wanted category (any book when no category is wanted).
   */
  lemma {:induction false} ScanComplete(acc: seq<Book>, books: seq<Book>, want: Option<Category>, read: set<int>, limit: int)
    requires |Scan(acc, books, want, read, limit)| < limit
    ensures forall b :: b in books && b.id !in read && (want.None? || b.category == want) ==>
      b.id in IdsOf(Scan(acc, books, want, read, limit))
    decreases |books|
  {
    if books != [] {
      var m := |books| - 1;
      var prev := Scan(acc, books[..m], want, read, limit);
      var last := books[m];
      var r := ScanStep(prev, last, want, read, limit);
      ScanComplete(acc, books[..m], want, read, limit);
      assert books == books[..m] + [last];
      if r != prev {
        IdsOfAppend(prev, last);
      }
    }
  }

  /**
   * A stage A that ends short has listed every unread catalog book of every
   * favourite category.
   */
  lemma {:induction false} StageAComplete(catalog: seq<Book>, favs: seq<Category>, read: set<int>, limit: int)
    requires |StageA(catalog, favs, read, limit)| < limit
    ensures forall b, c :: b in catalog && b.id !in read && c in favs && b.category == Some(c) ==>
      b.id in IdsOf(StageA(catalog, favs, read, limit))
    decreases |favs|
  {
    if favs != [] {
      var m := |favs| - 1;
      var prev := StageA(catalog, favs[..m], read, limit);
      var a := StageA(catalog, favs, read, limit);
      ScanGrows(prev, catalog, Some(favs[m]), read, limit);
      StageAComplete(catalog, favs[..m], read, limit);
      ScanComplete(prev, catalog, Some(favs[m]), read, limit);
      forall b, c | b in catalog && b.id !in read && c in favs && b.category == Some(c)
        ensures b.id in IdsOf(a)
      {
        if c != favs[m] {
          assert c in favs[..m];
        }
      }
    }
  }

  /**
   * A stage B that ends short has listed every unread id of the ranking that
   * names a catalog book.
   */
  lemma {:induction false} StageBComplete(acc: seq<Book>, ids: seq<int>, catalog: seq<Book>, read: set<int>, limit: int)
    requires |StageB(acc, ids, catalog, read, limit)| < limit
    ensures forall id :: id in ids && id !in read && FindBook(catalog, id).Some? ==>
      id in IdsOf(StageB(acc, ids, catalog, read, limit))
    decreases |ids|
  {
    if ids != [] {
      var m := |ids| - 1;
      var prev := StageB(acc, ids[..m], catalog, read, limit);
      var r := PopularStep(prev, ids[m], catalog, read, limit);
      if r != prev {
        IdsOfAppend(prev, FindBook(catalog, ids[m]).value);
      }
      assert |prev| <= |r| && IdsOf(prev) <= IdsOf(r);
      StageBComplete(acc, ids[..m], catalog, read, limit);
      forall id | id in ids && id !in read && FindBook(catalog, id).Some?
        ensures id in IdsOf(r)
      {
        if id != ids[m] {
          assert id in ids[..m];
        }
      }
    }
  }

  /** Stage A over the first `n` favourites is the beginning of stage A over all of them. */
  lemma {:induction false} StageAPrefix(catalog: seq<Book>, favs: seq<Category>, n: nat, read: set<int>, limit: int)
    requires n <= |favs|
    ensures var lo := StageA(catalog, favs[..n], read, limit);
      var a := StageA(catalog, favs, read, limit);
      |lo| <= |a| && a[..|lo|] == lo
    decreases |favs|
  {
    if n == |favs| {
      assert favs[..n] == favs;
    } else {
      var m := |favs| - 1;
      assert favs[..m][..n] == favs[..n];
      StageAPrefix(catalog, favs[..m], n, read, limit);
      var prev := StageA(catalog, favs[..m], read, limit);
      StageAKeeps(catalog, favs[..m], read, limit);
      ScanKeeps(prev, catalog, Some(favs[m]), read, limit, catalog);
    }
  }

  /** A list of books with distinct ids, all drawn from `u`, is no longer than `u` is large. */
  lemma {:induction false} DistinctIdsWithin(s: seq<Book>, u: set<int>)
    requires NoDupIds(s) && forall b :: b in s ==> b.id in u
    ensures |s| <= |u|
    decreases |s|
  {
    if s != [] {
      var m := |s| - 1;
      var x := s[m].id;
      assert |u - {x}| == |u| - 1;
      forall b | b in s[..m] ensures b.id in u - {x} {
        var i :| 0 <= i < m && s[i] == b;
      }
      DistinctIdsWithin(s[..m], u - {x});
    }
  }
}
