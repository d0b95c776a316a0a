/** The movie record, the error outcomes of the collection's operations and the
    facts about a table of records kept in primary-key order. */
module Records {

  datatype Option<T> = None | Some(value: T)

  /** The failures the collection's operations surface to the request boundary. */
  datatype Error =
    | DuplicateTitle   // the unique constraint on `title` rejected an insert
    | NotFound         // no record has the requested id or title
    | ValidationError  // the submitted rating is not a number
    | ParseError       // the release date does not start with an integer

  datatype Result<T> = Ok(value: T) | Err(error: Error)

  datatype Outcome = Pass | Fail(error: Error)

  /** The `ranking` column: `Unranked` is the empty-string placeholder written when a
      record is staged, `Place(n)` an integer rank written by the listing. */
  datatype Rank = Unranked | Place(n: int)

  /** One row of the `Movies` table. */
  datatype Movie = Movie(
    id: int,
    title: string,
    year: int,
    description: string,
    rating: real,
    ranking: Rank,
    review: string,
    imgUrl: string)

  predicate HasId(rows: seq<Movie>, id: int) {
    exists i :: 0 <= i < |rows| && rows[i].id == id
  }

  predicate HasTitle(rows: seq<Movie>, title: string) {
    exists i :: 0 <= i < |rows| && rows[i].title == title
  }

  /** The table invariant: rows in primary-key order, ids positive and strictly
      increasing (so unique), titles pairwise distinct. */
  predicate WellFormed(rows: seq<Movie>) {
    && (forall i :: 0 <= i < |rows| ==> rows[i].id >= 1)
    && (forall i, j :: 0 <= i < j < |rows| ==> rows[i].id < rows[j].id)
    && (forall i, j :: 0 <= i < j < |rows| ==> rows[i].title != rows[j].title)
  }

  /** The position of the first row with primary key `id`, if any. */
  function IdIndex(rows: seq<Movie>, id: int): (r: Option<nat>)
    ensures r.Some? ==> r.value < |rows| && rows[r.value].id == id
    ensures r.Some? ==> forall j :: 0 <= j < r.value ==> rows[j].id != id
    ensures r.None? <==> !HasId(rows, id)
  {
    if rows == [] then None
    else if rows[0].id == id then Some(0)
    else
      match IdIndex(rows[1..], id)
      case None =>
        assert forall i :: 1 <= i < |rows| ==> rows[i] == rows[1..][i - 1];
        None
      case Some(k) => Some(k + 1)
  }

  /** The position of the first row whose title is `title`, if any. */
  function TitleIndex(rows: seq<Movie>, title: string): (r: Option<nat>)
    ensures r.Some? ==> r.value < |rows| && rows[r.value].title == title
    ensures r.Some? ==> forall j :: 0 <= j < r.value ==> rows[j].title != title
    ensures r.None? <==> !HasTitle(rows, title)
  {
    if rows == [] then None
    else if rows[0].title == title then Some(0)
    else
      match TitleIndex(rows[1..], title)
      case None =>
        assert forall i :: 1 <= i < |rows| ==> rows[i] == rows[1..][i - 1];
        None
      case Some(k) => Some(k + 1)
  }

  /** The primary key SQLite gives the next inserted row: one more than the
      largest key, or 1 in an empty table. */
  function NextId(rows: seq<Movie>): (id: int)
    requires WellFormed(rows)
    ensures id >= 1
    ensures forall i :: 0 <= i < |rows| ==> rows[i].id < id
    ensures !HasId(rows, id)
  {
    if rows == [] then 1 else rows[|rows| - 1].id + 1
  }

  /** In a well-formed table a primary key or a title picks out exactly one row. */
  lemma LookupsAreExact(rows: seq<Movie>, i: int)
    requires WellFormed(rows)
    requires 0 <= i < |rows|
    ensures IdIndex(rows, rows[i].id) == Some(i)
    ensures TitleIndex(rows, rows[i].title) == Some(i)
  {
  }

  /** Appending a record with a fresh title under the next primary key keeps the
      table well formed, and both lookups then find the new last row. */
  lemma AppendKeepsWellFormed(rows: seq<Movie>, m: Movie)
    requires WellFormed(rows)
    requires !HasTitle(rows, m.title)
    requires m.id == NextId(rows)
    ensures WellFormed(rows + [m])
    ensures IdIndex(rows + [m], m.id) == Some(|rows|)
    ensures TitleIndex(rows + [m], m.title) == Some(|rows|)
  {
    var s := rows + [m];
    forall i, j | 0 <= i < j < |s|
      ensures s[i].id < s[j].id && s[i].title != s[j].title
    {
      if j == |rows| {
        assert s[i] == rows[i];
      }
    }
    assert WellFormed(s);
    LookupsAreExact(s, |rows|);
  }

  /** Setting rating and review of one row keeps the table well formed. */
  lemma UpdateKeepsWellFormed(rows: seq<Movie>, i: int, rating: real, review: string)
    requires WellFormed(rows)
    requires 0 <= i < |rows|
    ensures WellFormed(rows[i := rows[i].(rating := rating, review := review)])
  {
  }

  /** Removing the row at `i` keeps the table well formed, and the records left are
      exactly the old ones other than that row. */
  lemma RemoveKeepsWellFormed(rows: seq<Movie>, i: int)
    requires WellFormed(rows)
    requires 0 <= i < |rows|
    ensures WellFormed(rows[..i] + rows[i + 1..])
    ensures |rows[..i] + rows[i + 1..]| == |rows| - 1
    ensures !HasId(rows[..i] + rows[i + 1..], rows[i].id)
    ensures forall m :: m in rows[..i] + rows[i + 1..] <==> m in rows && m.id != rows[i].id
  {
  }
}
