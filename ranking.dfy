/** The listing's rank assignment: records come back in ascending rating order and
    each one is given the rank `N - index`, so the highest rating is ranked 1. */
module Ranking {
  import opened Records

  predicate SortedByRating(s: seq<Movie>) {
    forall i, j :: 0 <= i < j < |s| ==> s[i].rating <= s[j].rating
  }

  /** What the store returns for `ORDER BY rating`: every row exactly once, in
      ascending rating order; the order among equal ratings is left open. */
  predicate ListedByRating(listing: seq<Movie>, rows: seq<Movie>)
    ensures ListedByRating(listing, rows) ==> |listing| == |rows|
    ensures ListedByRating(listing, rows) ==> forall m :: m in listing <==> m in rows
  {
    // These three facts only serve the postconditions above.
    assert |multiset(listing)| == |listing| && |multiset(rows)| == |rows|;
    assert forall m :: m in listing <==> m in multiset(listing);
    assert forall m :: m in rows <==> m in multiset(rows);
    multiset(listing) == multiset(rows) && SortedByRating(listing)
  }

  /** The listing after the ranking loop, defined position by position from the front. */
  function Ranked(s: seq<Movie>): (r: seq<Movie>)
    ensures |r| == |s|
  {
    if s == [] then [] else [s[0].(ranking := Place(|s|))] + Ranked(s[1..])
  }

  /** Position `k` of an `N`-element listing gets rank `N - k`; no other field changes. */
  lemma {:induction false} RankedAt(s: seq<Movie>, k: int)
    requires 0 <= k < |s|
    ensures Ranked(s)[k] == s[k].(ranking := Place(|s| - k))
  {
    if k > 0 {
      RankedAt(s[1..], k - 1);
    }
  }

  /** The ranking loop of the listing: walking the array from the front, each
      position `index` is given rank `N - index`, in place. */
  method AssignRankings(movies: array<Movie>)
    modifies movies
    ensures movies[..] == Ranked(old(movies[..]))
  {
    var n := movies.Length;
    for index := 0 to n
      invariant forall k :: 0 <= k < index ==> movies[k] == old(movies[k]).(ranking := Place(n - k))
      invariant forall k :: index <= k < n ==> movies[k] == old(movies[k])
    {
      movies[index] := movies[index].(ranking := Place(n - index));
    }
    ghost var before := old(movies[..]);
    forall k | 0 <= k < n
      ensures movies[..][k] == Ranked(before)[k]
    {
      RankedAt(before, k);
    }
  }

  /** The ranks of an `N`-element listing are pairwise distinct and are exactly 1..N. */
  lemma RanksArePermutation(s: seq<Movie>)
    ensures forall i, j :: 0 <= i < j < |s| ==> Ranked(s)[i].ranking != Ranked(s)[j].ranking
    ensures (set i | 0 <= i < |s| :: Ranked(s)[i].ranking) == (set k | 1 <= k <= |s| :: Place(k))
  {
    forall i | 0 <= i < |s| {
      RankedAt(s, i);
    }
    var ranks := set i | 0 <= i < |s| :: Ranked(s)[i].ranking;
    forall k | 1 <= k <= |s|
      ensures Place(k) in ranks
    {
      assert Ranked(s)[|s| - k].ranking == Place(k);
    }
  }

  /** On a listing sorted by rating, a strictly higher rating never gets a larger
      rank number. */
  lemma HigherRatingRanksFirst(s: seq<Movie>, i: int, j: int)
    requires SortedByRating(s)
    requires 0 <= i < |s| && 0 <= j < |s|
    requires s[i].rating < s[j].rating
    ensures Ranked(s)[i].ranking.Place? && Ranked(s)[j].ranking.Place?
    ensures Ranked(s)[j].ranking.n < Ranked(s)[i].ranking.n
  {
    RankedAt(s, i);
    RankedAt(s, j);
  }

  /** The last (highest-rated) record is ranked 1 and the first (lowest-rated) N. */
  lemma ExtremesRank(s: seq<Movie>)
    requires SortedByRating(s)
    requires |s| > 0
    ensures Ranked(s)[|s| - 1].ranking == Place(1)
    ensures Ranked(s)[0].ranking == Place(|s|)
    ensures forall i :: 0 <= i < |s| ==> s[0].rating <= s[i].rating <= s[|s| - 1].rating
  {
    RankedAt(s, |s| - 1);
    RankedAt(s, 0);
  }

  /** A record rated strictly below every other record of the listing is ranked
      last, whatever the order among equal ratings elsewhere. */
  lemma StrictlyLowestRanksLast(s: seq<Movie>, k: int)
    requires SortedByRating(s)
    requires 0 <= k < |s|
    requires forall j :: 0 <= j < |s| && j != k ==> s[k].rating < s[j].rating
    ensures Ranked(s)[k].ranking == Place(|s|)
  {
  }
}
