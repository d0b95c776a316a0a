/** The collection service over the `Movies` table: listing with ranks, inserting,
    staging from a catalog result, editing rating and review, deleting. */
module Store {
  import opened Records
  import opened Ranking
  import opened Metadata

  /** The in-memory `Movies` table; `rows` is kept in primary-key order. */
  class MovieTable {
    var rows: seq<Movie>

    ghost predicate Valid()
      reads this
    {
      WellFormed(rows)
    }

    constructor ()
      ensures Valid() && rows == []
    {
      rows := [];
    }

    /** `add_movie`: insert one record under the next primary key; a title that is
        already present violates the unique constraint and changes nothing. */
    method AddMovie(title: string, year: int, description: string, rating: real,
                    ranking: Rank, review: string, imgUrl: string) returns (r: Result<int>)
      requires Valid()
      modifies this
      ensures Valid()
      ensures HasTitle(old(rows), title) ==> r == Err(DuplicateTitle) && rows == old(rows)
      ensures !HasTitle(old(rows), title) ==>
        && r == Ok(NextId(old(rows)))
        && rows == old(rows) + [Movie(NextId(old(rows)), title, year, description, rating, ranking, review, imgUrl)]
    {
      if TitleIndex(rows, title).Some? {
        r := Err(DuplicateTitle);
      } else {
        var id := NextId(rows);
        var m := Movie(id, title, year, description, rating, ranking, review, imgUrl);
        AppendKeepsWellFormed(rows, m);
        rows := rows + [m];
        r := Ok(id);
      }
    }

    /** Look a record up by primary key (`get_or_404`, and the `scalar_one` lookups
        of edit and delete). */
    method Get(id: int) returns (r: Result<Movie>)
      requires Valid()
      ensures r.Ok? <==> HasId(rows, id)
      ensures r.Err? ==> r.error == NotFound
      ensures r.Ok? ==> r.value in rows && r.value.id == id
      ensures r.Ok? ==> forall m :: m in rows && m.id == id ==> m == r.value
    {
      match IdIndex(rows, id)
      case None => r := Err(NotFound);
      case Some(i) =>
        forall m | m in rows && m.id == id
          ensures m == rows[i]
        {
          var k :| 0 <= k < |rows| && rows[k] == m;
          LookupsAreExact(rows, k);
        }
        r := Ok(rows[i]);
    }

    /** Look a record up by title, as staging does right after the insert. */
    method FindByTitle(title: string) returns (r: Result<Movie>)
      requires Valid()
      ensures r.Ok? <==> HasTitle(rows, title)
      ensures r.Err? ==> r.error == NotFound
      ensures r.Ok? ==> r.value in rows && r.value.title == title
      ensures r.Ok? ==> forall m :: m in rows && m.title == title ==> m == r.value
    {
      match TitleIndex(rows, title)
      case None => r := Err(NotFound);
      case Some(i) =>
        forall m | m in rows && m.title == title
          ensures m == rows[i]
        {
          var k :| 0 <= k < |rows| && rows[k] == m;
          LookupsAreExact(rows, k);
        }
        r := Ok(rows[i]);
    }

    /** The listing of `home`: the store's rows in ascending rating order, given as
        `listing`, copied into a fresh list whose records are then ranked in place. */
    method Home(listing: seq<Movie>) returns (movies: array<Movie>)
      requires Valid()
      requires ListedByRating(listing, rows)
      ensures fresh(movies)
      ensures movies[..] == Ranked(listing)
      ensures |movies[..]| == |rows|
    {
      movies := new Movie[|listing|](i requires 0 <= i < |listing| => listing[i]);
      assert movies[..] == listing;
      AssignRankings(movies);
      assert |multiset(listing)| == |multiset(rows)|;
    }

    /** `edit` on submission: find the record (`NotFound` when absent), convert the
        submitted rating (`None` stands for text that is not a number), then set
        `rating` and `review` of that one record. */
    method Edit(id: int, rating: Option<real>, review: string) returns (r: Outcome)
      requires Valid()
      modifies this
      ensures Valid()
      ensures !HasId(old(rows), id) ==> r == Fail(NotFound) && rows == old(rows)
      ensures HasId(old(rows), id) && rating.None? ==> r == Fail(ValidationError) && rows == old(rows)
      ensures HasId(old(rows), id) && rating.Some? ==>
        && r == Pass
        && |rows| == |old(rows)|
        && forall i :: 0 <= i < |rows| ==>
             rows[i] == if old(rows)[i].id == id
                        then old(rows)[i].(rating := rating.value, review := review)
                        else old(rows)[i]
    {
      match IdIndex(rows, id)
      case None => r := Fail(NotFound);
      case Some(i) =>
        if rating.None? {
          r := Fail(ValidationError);
        } else {
          UpdateKeepsWellFormed(rows, i, rating.value, review);
          rows := rows[i := rows[i].(rating := rating.value, review := review)];
          r := Pass;
        }
    }

    /** `delete`: remove the record with primary key `id`; an absent id fails. */
    method Delete(id: int) returns (r: Outcome)
      requires Valid()
      modifies this
      ensures Valid()
      ensures !HasId(old(rows), id) ==> r == Fail(NotFound) && rows == old(rows)
      ensures HasId(old(rows), id) ==>
        && r == Pass
        && |rows| == |old(rows)| - 1
        && !HasId(rows, id)
        && (forall m :: m in rows <==> m in old(rows) && m.id != id)
        && exists i :: 0 <= i < |old(rows)| && rows == old(rows)[..i] + old(rows)[i + 1..]
    {
      match IdIndex(rows, id)
      case None => r := Fail(NotFound);
      case Some(i) =>
        RemoveKeepsWellFormed(rows, i);
        ghost var before := rows;
        rows := rows[..i] + rows[i + 1..];
        assert 0 <= i < |before| && rows == before[..i] + before[i + 1..];
        r := Pass;
    }

    /** `add_from_list`: normalise the fetched details, insert them as an unrated
        record (rating 0.0, empty review, placeholder rank), then look the record up
        by its title and return its primary key for the edit step. */
    method AddFromList(details: Details) returns (r: Result<int>)
      requires Valid()
      modifies this
      ensures Valid()
      ensures ParseYear(details.releaseDate).Err? ==> r == Err(ParseError) && rows == old(rows)
      ensures ParseYear(details.releaseDate).Ok? && HasTitle(old(rows), details.title) ==>
        r == Err(DuplicateTitle) && rows == old(rows)
      ensures ParseYear(details.releaseDate).Ok? && !HasTitle(old(rows), details.title) ==>
        && r == Ok(NextId(old(rows)))
        && rows == old(rows) + [Movie(NextId(old(rows)), details.title, ParseYear(details.releaseDate).value,
                                      details.overview, 0.0, Unranked, "", ImageUrl(details.posterPath))]
    {
      match ParseYear(details.releaseDate)
      case Err(e) => r := Err(e);
      case Ok(year) =>
        var imgUrl := ImageUrl(details.posterPath);
        var added := AddMovie(details.title, year, details.overview, 0.0, Unranked, "", imgUrl);
        if added.Err? {
          r := added;
        } else {
          var movie := FindByTitle(details.title);
          match movie
          case Err(e) => r := Err(e);
          case Ok(m) =>
            assert rows[|rows| - 1] in rows;
            r := Ok(m.id);
        }
    }
  }

  /** A sequence of pairwise distinct records holds each record at most once. */
  lemma {:induction false} DistinctOnce(s: seq<Movie>, m: Movie)
    requires forall i, j :: 0 <= i < j < |s| ==> s[i] != s[j]
    ensures multiset(s)[m] <= 1
  {
    if |s| > 0 {
      var init := s[..|s| - 1];
      assert s == init + [s[|s| - 1]];
      DistinctOnce(init, m);
      assert s[|s| - 1] !in init;
    }
  }

  /** A record at two positions of a sequence is counted at least twice. */
  lemma TwiceCounted(s: seq<Movie>, j: int, k: int)
    requires 0 <= j < k < |s| && s[j] == s[k]
    ensures multiset(s)[s[k]] >= 2
  {
    assert s == s[..k] + s[k..];
    assert s[j] in s[..k];
    assert s[k] in s[k..];
  }

  /** After staging, a record rated strictly below all others (for instance 0.0
      when every other rating is positive) is ranked last by the next listing. */
  lemma StagedRecordRanksLast(listing: seq<Movie>, rows: seq<Movie>, staged: Movie)
    requires WellFormed(rows)
    requires ListedByRating(listing, rows)
    requires staged in rows
    requires forall m :: m in rows && m != staged ==> staged.rating < m.rating
    ensures exists k :: 0 <= k < |listing| && listing[k] == staged && Ranked(listing)[k].ranking == Place(|rows|)
  {
    assert staged in multiset(rows);
    assert staged in multiset(listing);
    var k :| 0 <= k < |listing| && listing[k] == staged;
    DistinctOnce(rows, staged);
    forall j | 0 <= j < |listing| && j != k
      ensures staged.rating < listing[j].rating
    {
      OtherPosition(listing, rows, staged, j, k);
    }
    assert |multiset(listing)| == |multiset(rows)|;
    StrictlyLowestRanksLast(listing, k);
  }

  /** Any other position of the listing holds a record other than the staged one. */
  lemma OtherPosition(listing: seq<Movie>, rows: seq<Movie>, staged: Movie, j: int, k: int)
    requires multiset(listing) == multiset(rows)
    requires multiset(rows)[staged] <= 1
    requires forall m :: m in rows && m != staged ==> staged.rating < m.rating
    requires 0 <= j < |listing| && 0 <= k < |listing| && j != k && listing[k] == staged
    ensures staged.rating < listing[j].rating
  {
    assert listing[j] in multiset(listing);
    if listing[j] == staged {
      if j < k {
        TwiceCounted(listing, j, k);
      } else {
        TwiceCounted(listing, k, j);
      }
    }
  }
}
