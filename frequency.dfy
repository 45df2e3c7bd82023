/**
 * Counting and ranking keys by frequency: the `groupingBy(..., counting())`
 * followed by `sorted(comparingByValue().reversed())` pattern that the
 * recommender uses twice, once for the user's categories and once for the
 * global READ counts of books.
 */
module Frequency {
  import opened Sequences

  /** The distinct elements of `xs`, each at the place of its first occurrence. */
  function Distinct<K(==,!new)>(xs: seq<K>): (r: seq<K>)
    ensures NoDups(r)
    ensures forall k :: k in r <==> k in xs
    decreases |xs|
  {
    if xs == [] then []
    else
      var d := Distinct(xs[..|xs| - 1]);
      var x := xs[|xs| - 1];
      assert xs == xs[..|xs| - 1] + [x];
      if x in d then d else d + [x]
  }

  /** How often each element of `xs` occurs in it; only occurring elements are keys. */
  function Counts<K(==,!new)>(xs: seq<K>): (m: map<K, nat>)
    ensures forall k :: k in m <==> k in xs
    ensures forall k :: k in m ==> m[k] == multiset(xs)[k]
  {
    map k | k in xs :: multiset(xs)[k]
  }

  /**
   * `counting()` one element at a time: appending `x` adds one to its count,
   * starting from zero when it is new, and leaves every other count as it was.
   */
  lemma CountsAppend<K(!new)>(xs: seq<K>, x: K)
    ensures Counts(xs + [x])[x] == (if x in xs then Counts(xs)[x] else 0) + 1
    ensures forall k :: k != x ==> (k in Counts(xs + [x]) <==> k in Counts(xs))
    ensures forall k :: k != x && k in Counts(xs) ==> Counts(xs + [x])[k] == Counts(xs)[k]
  {
    assert multiset(xs + [x]) == multiset(xs) + multiset{x};
    assert x in xs <==> multiset(xs)[x] > 0;
  }

  /** Along `s`, the counts never increase. */
  predicate SortedDesc<K(==,!new)>(s: seq<K>, count: map<K, nat>)
    requires forall k :: k in s ==> k in count
  {
    forall i, j :: 0 <= i < j < |s| ==> count[s[i]] >= count[s[j]]
  }

  /**
   * Inserts `x` into a list sorted by non-increasing count, before the first
   * element whose count is not larger than its own.
   */
  function Insert<K(==,!new)>(x: K, s: seq<K>, count: map<K, nat>): (r: seq<K>)
    requires x in count && forall k :: k in s ==> k in count
    requires SortedDesc(s, count)
    ensures multiset(r) == multiset(s) + multiset{x}
    ensures forall k :: k in r <==> k in s || k == x
    ensures SortedDesc(r, count)
    decreases |s|
  {
    if s == [] || count[s[0]] <= count[x] then
      var r := [x] + s;
      assert forall j :: 0 < j < |r| ==> r[j] == s[j - 1];
      r
    else
      var rest := Insert(x, s[1..], count);
      assert s == [s[0]] + s[1..];
      InsertBelowHead(x, s, rest, count);
      [s[0]] + rest
  }

  /** Every element of the insertion into the tail ranks no higher than the head. */
  lemma InsertBelowHead<K(!new)>(x: K, s: seq<K>, rest: seq<K>, count: map<K, nat>)
    requires s != [] && x in count && forall k :: k in s ==> k in count
    requires SortedDesc(s, count) && count[s[0]] > count[x]
    requires forall k :: k in rest <==> k in s[1..] || k == x
    ensures forall k :: k in rest ==> k in count && count[k] <= count[s[0]]
    ensures SortedDesc(rest, count) ==> SortedDesc([s[0]] + rest, count)
  {
    forall k | k in rest ensures k in count && count[k] <= count[s[0]] {
      if k != x {
        var idx :| 0 <= idx < |s[1..]| && s[1..][idx] == k;
        assert s[idx + 1] == k;
      }
    }
    var r := [s[0]] + rest;
    assert forall j :: 0 < j < |r| ==> r[j] == rest[j - 1];
  }

  /** Inserting a new element into a list without repetitions gives a list without repetitions. */
  lemma {:induction false} InsertNoDups<K(!new)>(x: K, s: seq<K>, count: map<K, nat>)
    requires x in count && forall k :: k in s ==> k in count
    requires SortedDesc(s, count)
    requires x !in s && NoDups(s)
    ensures NoDups(Insert(x, s, count))
    decreases |s|
  {
    if s == [] || count[s[0]] <= count[x] {
    } else {
      InsertNoDups(x, s[1..], count);
      var rest := Insert(x, s[1..], count);
      assert s[0] !in rest;
      assert Insert(x, s, count) == [s[0]] + rest;
    }
  }

  /** Insertion sort of `keys` by non-increasing count; equal counts keep their order in `keys`. */
  function RankByCount<K(==,!new)>(keys: seq<K>, count: map<K, nat>): (r: seq<K>)
    requires forall k :: k in keys ==> k in count
    ensures multiset(r) == multiset(keys)
    ensures forall k :: k in r <==> k in keys
    ensures SortedDesc(r, count)
    decreases |keys|
  {
    if keys == [] then []
    else
      assert keys == [keys[0]] + keys[1..];
      Insert(keys[0], RankByCount(keys[1..], count), count)
  }

  /** Ranking a list without repetitions gives a list without repetitions. */
  lemma {:induction false} RankByCountNoDups<K(!new)>(keys: seq<K>, count: map<K, nat>)
    requires forall k :: k in keys ==> k in count
    requires NoDups(keys)
    ensures NoDups(RankByCount(keys, count))
    decreases |keys|
  {
    if keys != [] {
      assert keys == [keys[0]] + keys[1..];
      assert NoDups(keys[1..]);
      RankByCountNoDups(keys[1..], count);
      assert keys[0] !in keys[1..];
      InsertNoDups(keys[0], RankByCount(keys[1..], count), count);
    }
  }

  /**
   * The distinct elements of `xs`, most frequent first. `recommendForUser`
   * sorts the entries of a `HashMap` by count alone, so their iteration order,
   * which is unspecified, decides between equal counts; this ranking keeps
   * the order of first occurrence instead.
   */
  function Ranking<K(==,!new)>(xs: seq<K>): (r: seq<K>)
    ensures NoDups(r)
    ensures forall k :: k in r <==> k in xs
    ensures forall i, j :: 0 <= i < j < |r| ==> multiset(xs)[r[i]] >= multiset(xs)[r[j]]
  {
    var count := Counts(xs);
    var r := RankByCount(Distinct(xs), count);
    RankByCountNoDups(Distinct(xs), count);
    assert SortedDesc(r, count);
    r
  }
}
