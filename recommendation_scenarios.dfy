/** The recommender on the seeded catalog: a worked example of the three stages. */
module RecommendationScenarios {
  import opened Wrappers
  import opened Library
  import opened Frequency
  import opened RecommendationSpec

  const TimeMachine := Book(1, "The Time Machine", "H. G. Wells", "ISBN-001", Some(Science))
  const BriefHistory := Book(2, "A Brief History of Time", "Stephen Hawking", "ISBN-002", Some(Science))
  const Hobbit := Book(3, "The Hobbit", "J.R.R. Tolkien", "ISBN-003", Some(Fantasy))
  const Orwell := Book(4, "1984", "George Orwell", "ISBN-004", Some(Fiction))
  const Sapiens := Book(5, "Sapiens", "Yuval Noah Harari", "ISBN-005", Some(History))
  const Catalog := [TimeMachine, BriefHistory, Hobbit, Orwell, Sapiens]

  const Alice := User(1, "Alice", "alice@example.com")
  const Bob := User(2, "Bob", "bob@example.com")

  /** Alice has read both science books and put the fantasy one on the reading list. */
  const AliceLog := [Entry(1, 1, TimeMachine, Read), Entry(2, 1, BriefHistory, Read), Entry(3, 1, Hobbit, ReadingList)]

  /** Alice's history is the whole log. */
  lemma AliceHistory()
    ensures UserHistory(AliceLog, 1) == AliceLog
  {
    var e1, e2, e3 := AliceLog[0], AliceLog[1], AliceLog[2];
    assert AliceLog[1..] == [e2, e3] && [e2, e3][1..] == [e3] && [e3][1..] == [];
    assert UserHistory([e3], 1) == [e3];
    assert UserHistory([e2, e3], 1) == [e2, e3];
  }

  /** Alice has read books 1 and 2. */
  lemma AliceRead()
    ensures ReadKeys(AliceLog) == [1, 2] && ReadSet(AliceLog) == {1, 2}
  {
    var e1, e2, e3 := AliceLog[0], AliceLog[1], AliceLog[2];
    assert AliceLog[1..] == [e2, e3] && [e2, e3][1..] == [e3] && [e3][1..] == [];
    assert ReadKeys([e3]) == [];
    assert ReadKeys([e2, e3]) == [2];
  }

  /** Alice's categories are science twice and fantasy once. */
  lemma AliceCategories()
    ensures CategoryKeys(AliceLog) == [Science, Science, Fantasy]
  {
    var e1, e2, e3 := AliceLog[0], AliceLog[1], AliceLog[2];
    assert AliceLog[1..] == [e2, e3] && [e2, e3][1..] == [e3] && [e3][1..] == [];
    assert CategoryKeys([e3]) == [Fantasy];
    assert CategoryKeys([e2, e3]) == [Science, Fantasy];
  }

  /** Science and fantasy are Alice's categories, in order of first occurrence. */
  lemma AliceDistinct()
    ensures Distinct([Science, Science, Fantasy]) == [Science, Fantasy]
  {
    var keys := [Science, Science, Fantasy];
    assert keys[..2] == [Science, Science] && [Science, Science][..1] == [Science] && [Science][..0] == [];
    assert Distinct([Science, Science]) == [Science];
  }

  /** Science occurs twice and fantasy once. */
  lemma AliceCounts()
    ensures Counts([Science, Science, Fantasy])[Science] == 2 && Counts([Science, Science, Fantasy])[Fantasy] == 1
  {
    assert multiset([Science, Science, Fantasy]) == multiset{Science, Science, Fantasy};
  }

  /** Sorted by count, science stays before fantasy. */
  lemma AliceSorted()
    ensures RankByCount([Science, Fantasy], Counts([Science, Science, Fantasy])) == [Science, Fantasy]
  {
    var count := Counts([Science, Science, Fantasy]);
    AliceCounts();
    assert [Science, Fantasy][1..] == [Fantasy];
    assert RankByCount([Fantasy], count) == [Fantasy];
  }

  /** Science, read twice, ranks above fantasy, read once. */
  lemma AliceFavorites()
    ensures Ranking([Science, Science, Fantasy]) == [Science, Fantasy]
  {
    AliceDistinct();
    AliceSorted();
  }

  /** Books 1 and 2 are read once each, and keep their order. */
  lemma AlicePopularity()
    ensures Ranking([1, 2]) == [1, 2]
  {
    var ids := [1, 2];
    assert ids[..1] == [1] && ids[..1][..0] == [];
    assert Distinct(ids) == [1, 2];
    var count := Counts(ids);
    assert count[1] == 1 && count[2] == 1;
    assert ids[1..] == [2];
    assert RankByCount([2], count) == [2];
  }

  /**
   * Stage A finds no unread science book and adds The Hobbit; stage B only
   * sees books Alice has read; stage C adds 1984 and Sapiens.
   */
  lemma AliceStages()
    ensures Pipeline(Catalog, [Science, Fantasy], [1, 2], {1, 2}, 3) == [Hobbit, Orwell, Sapiens]
  {
    var read := {1, 2};
    var c1, c2, c3 := [TimeMachine], [TimeMachine, BriefHistory], [TimeMachine, BriefHistory, Hobbit];
    var c4 := [TimeMachine, BriefHistory, Hobbit, Orwell];
    assert Catalog[..4] == c4 && c4[..3] == c3 && c3[..2] == c2 && c2[..1] == c1 && c1[..0] == [];
    // Stage A, science: both books are read.
    assert Scan([], c1, Some(Science), read, 3) == [];
    assert Scan([], c2, Some(Science), read, 3) == [];
    assert Scan([], c3, Some(Science), read, 3) == [];
    assert Scan([], c4, Some(Science), read, 3) == [];
    assert Scan([], Catalog, Some(Science), read, 3) == [];
    assert [Science, Fantasy][..1] == [Science] && [Science][..0] == [];
    assert StageA(Catalog, [Science], read, 3) == [];
    // Stage A, fantasy: The Hobbit.
    assert Scan([], c1, Some(Fantasy), read, 3) == [];
    assert Scan([], c2, Some(Fantasy), read, 3) == [];
    assert Scan([], c3, Some(Fantasy), read, 3) == [Hobbit];
    assert Scan([], c4, Some(Fantasy), read, 3) == [Hobbit];
    assert Scan([], Catalog, Some(Fantasy), read, 3) == [Hobbit];
    var a := [Hobbit];
    assert StageA(Catalog, [Science, Fantasy], read, 3) == a;
    // Stage B: both popular books are read.
    assert [1, 2][..1] == [1] && [1][..0] == [];
    assert StageB(a, [1], Catalog, read, 3) == a;
    assert StageB(a, [1, 2], Catalog, read, 3) == a;
    // Stage C: 1984.
    assert Scan(a, c1, None, read, 3) == a;
    assert Scan(a, c2, None, read, 3) == a;
    assert Scan(a, c3, None, read, 3) == a;
    assert Scan(a, c4, None, read, 3) == [Hobbit, Orwell];
    assert Scan(a, Catalog, None, read, 3) == [Hobbit, Orwell, Sapiens];
  }

  /** `recommendForUser(1, 3)` for Alice: The Hobbit from the favourite categories, then 1984 and Sapiens in catalog order. */
  lemma AliceGetsHobbitThenUnread()
    ensures Recommend([Alice, Bob], Catalog, AliceLog, 1, 3) == Recommended([Hobbit, Orwell, Sapiens])
  {
    assert UserExists([Alice, Bob], 1) by {
      assert Alice in [Alice, Bob];
    }
    AliceHistory();
    AliceRead();
    AliceCategories();
    AliceFavorites();
    AlicePopularity();
    AliceStages();
  }

  const Carol := User(3, "Carol", "carol@example.com")

  /** Bob has no history; Alice has read The Hobbit and 1984, and Carol has read 1984 twice. */
  const SharedLog := [Entry(1, 1, Hobbit, Read), Entry(2, 1, Orwell, Read), Entry(3, 3, Orwell, Read), Entry(4, 3, Orwell, Read)]

  /** Bob's history is empty. */
  lemma BobHistory()
    ensures UserHistory(SharedLog, 2) == []
  {
    var e1, e2, e3, e4 := SharedLog[0], SharedLog[1], SharedLog[2], SharedLog[3];
    assert SharedLog[1..] == [e2, e3, e4] && [e2, e3, e4][1..] == [e3, e4] && [e3, e4][1..] == [e4] && [e4][1..] == [];
    assert UserHistory([e4], 2) == [];
    assert UserHistory([e3, e4], 2) == [];
    assert UserHistory([e2, e3, e4], 2) == [];
  }

  /** The READ log names The Hobbit once and 1984 three times. */
  lemma SharedReadKeys()
    ensures ReadKeys(SharedLog) == [3, 4, 4, 4]
  {
    var e1, e2, e3, e4 := SharedLog[0], SharedLog[1], SharedLog[2], SharedLog[3];
    assert SharedLog[1..] == [e2, e3, e4] && [e2, e3, e4][1..] == [e3, e4] && [e3, e4][1..] == [e4] && [e4][1..] == [];
    assert ReadKeys([e4]) == [4];
    assert ReadKeys([e3, e4]) == [4, 4];
    assert ReadKeys([e2, e3, e4]) == [4, 4, 4];
  }

  /** The Hobbit and 1984 are the books read, in order of first READ. */
  lemma SharedDistinct()
    ensures Distinct([3, 4, 4, 4]) == [3, 4]
  {
    var ids := [3, 4, 4, 4];
    assert ids[..3] == [3, 4, 4] && [3, 4, 4][..2] == [3, 4] && [3, 4][..1] == [3] && [3][..0] == [];
    assert Distinct([3, 4]) == [3, 4];
    assert Distinct([3, 4, 4]) == [3, 4];
  }

  /** The Hobbit is read once and 1984 three times. */
  lemma SharedCounts()
    ensures Counts([3, 4, 4, 4])[3] == 1 && Counts([3, 4, 4, 4])[4] == 3
  {
    assert multiset([3, 4, 4, 4]) == multiset{3, 4, 4, 4};
  }

  /** Sorted by count, 1984 comes before The Hobbit. */
  lemma SharedSorted()
    ensures RankByCount([3, 4], Counts([3, 4, 4, 4])) == [4, 3]
  {
    var count := Counts([3, 4, 4, 4]);
    SharedCounts();
    assert [3, 4][1..] == [4];
    assert RankByCount([4], count) == [4];
    assert Insert(3, [4], count) == [4] + Insert(3, [], count) == [4, 3];
  }

  /** 1984, read three times, ranks above The Hobbit, read once, though The Hobbit comes first in the log. */
  lemma SharedPopularity()
    ensures Ranking([3, 4, 4, 4]) == [4, 3]
  {
    SharedDistinct();
    SharedSorted();
  }

  /** `findById` walks the catalog past the first books to 1984 and The Hobbit. */
  lemma SeededLookups()
    ensures FindBook(Catalog, 4) == Some(Orwell) && FindBook(Catalog, 3) == Some(Hobbit)
  {
    var tail := [Hobbit, Orwell, Sapiens];
    assert Catalog[1..] == [BriefHistory] + tail && ([BriefHistory] + tail)[1..] == tail;
    assert tail[1..] == [Orwell, Sapiens];
    assert FindBook(tail, 3) == Some(Hobbit);
    assert FindBook([Orwell, Sapiens], 4) == Some(Orwell);
  }

  /** 1984, unread and not yet listed, is added to the empty list. */
  lemma BobFirstPick()
    ensures PopularStep([], 4, Catalog, {}, 2) == [Orwell]
  {
    SeededLookups();
  }

  /** The Hobbit, unread and not yet listed, follows 1984. */
  lemma BobSecondPick()
    ensures PopularStep([Orwell], 3, Catalog, {}, 2) == [Orwell, Hobbit]
  {
    var listed := [Orwell];
    assert IdsOf(listed) == {4} by {
      assert forall b :: b in listed <==> b == Orwell;
    }
    SeededLookups();
  }

  /** Stage B for Bob: 1984 first, then The Hobbit, which fills the limit. */
  lemma BobStageB()
    ensures StageB([], [4, 3], Catalog, {}, 2) == [Orwell, Hobbit]
  {
    assert [4, 3][..1] == [4] && [4][..0] == [];
    BobFirstPick();
    BobSecondPick();
  }

  /** Stage A has no category to work with; stage B fills the limit with 1984, then The Hobbit. */
  lemma BobStages()
    ensures Pipeline(Catalog, [], [4, 3], {}, 2) == [Orwell, Hobbit]
  {
    BobStageB();
  }

  /** `recommendForUser(2, 2)` for Bob: the two most read books, most read first. */
  lemma BobGetsMostRead()
    ensures Recommend([Alice, Bob, Carol], Catalog, SharedLog, 2, 2) == Recommended([Orwell, Hobbit])
  {
    assert UserExists([Alice, Bob, Carol], 2) by {
      assert Bob in [Alice, Bob, Carol];
    }
    BobHistory();
    assert ReadSet([]) == {};
    assert Favorites([]) == [];
    SharedReadKeys();
    SharedPopularity();
    BobStages();
  }
}
