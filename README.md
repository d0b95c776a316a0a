# My Top Movies: the collection core in Dafny

A personal movie collection keeps one table, `Movies`, of records with an id
(primary key), a unique title, year, description, rating, ranking, review and
poster URL. Users search an external catalog, stage a result as an unrated
record, then rate and review it. The listing ranks the records by rating.

This project models that core:

- `Records` (records.dfy) is the record shape and the table invariant. Rows are
  kept in primary-key order. Ids are positive and strictly increasing. Titles are
  pairwise distinct. This module also has the lookups by id and by title, and the
  rule SQLite uses for the next id: one more than the largest id, or 1 in an empty
  table.
- `Metadata` (metadata.dfy) turns catalog details into record fields. The year is
  Python's `int()` applied to the text before the first `-` of the release date.
  The poster URL is the fixed base `https://image.tmdb.org/t/p/original` followed by
  the poster path as an f-string renders it (a JSON `null` becomes `None`).
- `Ranking` (ranking.dfy) is the ranking loop of `home`. It runs in place on an
  array: position `i` of `N` records gets rank `N - i`.
- `Store` (store.dfy) is the class `MovieTable`. Its methods are `add_movie`, the
  lookups, `home`, `edit`, `delete` and `add_from_list`. Each method keeps the
  table invariant and states the whole new table and every error case.

Ratings are modelled as `real`. Only their order matters for ranking.
The `ranking` column is `Rank`, with `Unranked` for the empty-string placeholder
written at staging time. The result of `ORDER BY rating` is a parameter of
`Home`. It must hold every row exactly once, sorted ascending by rating. No
tie-break is assumed: the query at main.py:59 fixes no order among equal ratings.

`Store.DistinctOnce` and `Store.TwiceCounted` are general multiset facts used only
as proof helpers of `Store.StagedRecordRanksLast`; `Metadata.StripKeepsOut` is a
helper of `Metadata.ParseYear`.

## Model

| member | source | states |
|---|---|---|
| Records.IdIndex | main.py:69 | the position found holds a record with that id, no earlier record has it, and "no position" holds exactly when no record has the id |
| Records.TitleIndex | main.py:121 | the position found holds a record with that title, no earlier record has it, and "no position" holds exactly when no record has the title |
| Records.NextId | main.py:25 | the id of a new row is at least 1, exceeds every existing id and so belongs to no existing row |
| Records.LookupsAreExact | main.py:25-26 | in a well-formed table, looking up a row's own id or title returns exactly that row |
| Records.AppendKeepsWellFormed | main.py:26 | appending a record with an absent title under the next id keeps ids increasing and titles unique; both lookups then find the new row |
| Records.UpdateKeepsWellFormed | main.py:70-71 | changing only rating and review of one row keeps the table invariant |
| Records.RemoveKeepsWellFormed | main.py:82-83 | removing one row keeps the invariant, shortens the table by one, leaves no row with that id, and keeps exactly the other records |
| Metadata.BeforeFirstDash | main.py:116 | the result of `split('-')[0]` is a prefix of the input without a dash, and it is either the whole input or stops at a dash |
| Metadata.TrimStart | main.py:116 | `int()` drops leading whitespace (tab to carriage return, and space): what is left is a suffix that does not start with whitespace, and everything cut off was whitespace |
| Metadata.TrimEnd | main.py:116 | `int()` drops trailing whitespace (tab to carriage return, and space): what is left is a prefix that does not end with whitespace, and everything cut off was whitespace |
| Metadata.DigitsRoundTrip | main.py:116 | the decimal rendering of a natural number is a valid `int()` digit group and reads back as that number |
| Metadata.BeforeFirstDashOfJoin | main.py:116 | for dash-free text `p`, the first piece of `p + "-" + rest` is `p`, and the first piece of `p` alone is `p` |
| Metadata.ParseYearIgnoresRest | main.py:116 | the year of `p + "-" + rest` does not depend on `rest`: it is `int(p)` |
| Metadata.ParseInt | main.py:116 | `int()` fails only with `ParseError`; a success needs a non-empty stripped text that starts with a digit or a sign, ends with a digit and has only digits and underscores after its first character; a negative value needs a leading minus; a stripped digit group reads as its decimal value |
| Metadata.ParseYear | main.py:116 | the year fails only with `ParseError`; a parsed year is never negative, because the text before the first dash holds no minus sign; a date without a dash is read whole |
| Metadata.ParseIntOfDigitGroup | main.py:116 | `int()` of a digit group is its decimal value |
| Metadata.ParseYearRoundTrip | main.py:116 | a date that starts with the decimal year `n` parses to `n`, with or without a dash and more text after it (for Python 3.11 and later, only while `n` has at most 4300 digits; see Left out) |
| Metadata.ParseYearExamples | main.py:116 | "2021-10-20" and "2021" both parse to 2021 |
| Metadata.ParseIntOf2021 | main.py:116 | `int("2021")` is 2021 |
| Metadata.ParseYearRejectsEmptyPrefix | main.py:116 | an empty date, or one that starts with a dash, fails to parse |
| Metadata.ParseYearRejectsNonNumeric | main.py:116 | a year piece starting with a character that is not whitespace, a sign or a digit fails to parse, whatever follows the dash |
| Metadata.ParseYearRejectsWord | main.py:116 | "bad-date" fails to parse |
| Metadata.ParseYearRejectsInnerNonDigit | main.py:116 | a year piece without surrounding whitespace fails to parse when any character after its first is neither a digit nor an underscore, whatever follows the dash |
| Metadata.ParseYearRejectsInnerExamples | main.py:116 | "20x1-10-20" and "20 21" fail to parse |
| Metadata.ImageUrl | main.py:117 | the URL starts with the fixed base; the rest is the poster path itself, or the text "None" for a null path |
| Metadata.ImageUrlInjective | main.py:117 | two different non-null poster paths give two different URLs |
| Metadata.ImageUrlExample | main.py:117 | "/x.jpg" gives the base followed by "/x.jpg"; a null path gives the base followed by "None" |
| Metadata.ImageUrlNullCollides | main.py:117 | a null poster path and the path "None" give the same URL, so the URL identifies only non-null paths |
| Ranking.ListedByRating | main.py:59 | the result of `ORDER BY rating` has as many records as the table and holds exactly the table's records |
| Ranking.Ranked | main.py:60-61 | ranking keeps the length of the listing |
| Ranking.RankedAt | main.py:60-61 | position `k` of an `N`-element listing gets rank `N - k`, and no other field changes |
| Ranking.AssignRankings | main.py:60-61 | the loop leaves the array equal to the ranked version of its old contents |
| Ranking.RanksArePermutation | main.py:60-61 | the ranks are pairwise distinct and are exactly 1..N |
| Ranking.HigherRatingRanksFirst | main.py:59-61 | in a listing sorted by rating, a strictly higher rating gets a strictly smaller rank number |
| Ranking.ExtremesRank | main.py:59-61 | the last record has the highest rating and is ranked 1; the first has the lowest and is ranked N |
| Ranking.StrictlyLowestRanksLast | main.py:59-61 | a record rated strictly below all others is ranked N |
| Store.MovieTable.AddMovie | main.py:43-55 | a taken title fails with `DuplicateTitle` and changes nothing; otherwise exactly one record with the given fields is appended under the next id, and that id is returned |
| Store.MovieTable.Get | main.py:75 | finds the record with that id exactly when one exists, otherwise fails with `NotFound`; the record found is the only one with that id |
| Store.MovieTable.FindByTitle | main.py:121 | finds the record with that title exactly when one exists, otherwise fails with `NotFound`; the record found is the only one with that title |
| Store.MovieTable.Home | main.py:57-62 | the listing shown is the store's rating-ordered rows, each ranked by its position; its length is the table's size, and the table is not changed |
| Store.MovieTable.Edit | main.py:64-73 | an absent id fails with `NotFound`; a non-numeric rating then fails with `ValidationError`; in both cases nothing changes. Otherwise only rating and review of that one record change |
| Store.MovieTable.Delete | main.py:78-84 | an absent id fails with `NotFound` and changes nothing. Otherwise exactly that record is removed, the rest keep their order, and the table shrinks by one |
| Store.MovieTable.AddFromList | main.py:103-122 | a bad release date fails with `ParseError`, and then a taken title with `DuplicateTitle`, each changing nothing. Otherwise one record is appended with rating 0.0, empty review, placeholder rank and the parsed year and URL, and the id the title lookup returns is that new record's id |
| Store.OtherPosition | main.py:59 | in a listing of the table, no position other than the staged record's holds the staged record |
| Store.StagedRecordRanksLast | main.py:59-61 | after staging, a record rated strictly below every other record is ranked last in the next listing |

## Left out

- Flask routing, redirects, templates and `render_template`: these are presentation only. The model's methods return the value or error each route acts on.
- WTForms and CSRF. Form validation happens inside `edit` (main.py:68): a submission with an empty or blank rating or review fails `DataRequired`, which is not an error; `edit` falls through and renders the form again (main.py:75-76). The model does not capture that check, so `Edit` accepts any review text.
- Converting the rating text with `float()`. `Edit` receives the result as `Option<real>`, where `None` stands for text that `float()` rejects. IEEE values such as NaN and infinity are not modelled.
- The catalog HTTP calls, `raise_for_status` and JSON decoding. They are network I/O. The fetched fields are the `Details` parameter of `AddFromList`, and an upstream failure is not modelled. Missing JSON keys, which raise `KeyError`, are also not modelled. Neither are JSON `null` fields other than the poster path: a null `release_date` raises `AttributeError` at main.py:116, and a null `title` or `overview` violates a NOT NULL constraint at the commit (main.py:55).
- The SQLAlchemy session, commits, persistence and the SQL `ORDER BY`. The table is an in-memory sequence. The ordered query result is a parameter of `Home` that must satisfy `ListedByRating`.
- Store.MovieTable.AddMovie: does not model the `String(250)` length, which SQLite does not enforce. The columns are NOT NULL (`nullable=False`, or a non-optional `Mapped` type), and SQLite enforces that with an `IntegrityError` at the commit (main.py:55); the model has no null values, so those constraints never fire. It also does not model the failed session that an `IntegrityError` leaves behind.
- Records.NextId: does not model the 64-bit rowid limit. When the largest id is 2^63-1, SQLite picks a random unused id instead.
- Store.MovieTable.Home: does not model that the ranks are written onto the session's own objects. They are never committed and are discarded with the request's session, so the table does not change.
- Metadata.ParseInt: covers the ASCII whitespace `int()` strips (tab to carriage return, and space) and ASCII digits only. Python's `int()` also accepts Unicode whitespace and Unicode decimal digits above U+007F. It also does not model the limit on integer string conversion: from Python 3.11 (and in security backports), `int()` raises `ValueError` when the digit group has more than 4300 digits (the default `int_max_str_digits`), while `ParseInt` succeeds for any length.
- Metadata.ParseYearRoundTrip: holds for every `n` in the model; under Python's 4300-digit limit it holds only for years of at most 4300 digits.
- Integer width: years and ids are unbounded integers. SQLite's 64-bit integer column limit is not modelled.
- The query parameter `id` arrives as text. A missing or non-numeric id matches no row, which the model represents as looking up an absent id.
- Concurrency: each method runs atomically, and requests are not interleaved. Flask's development server is threaded, so in the source another request's delete can fall between the commit in `add_movie` (main.py:55) and the title query of `add_from_list` (main.py:121); `scalar_one` then raises, which `AddFromList`'s contract does not cover.
- Environment loading, the secret key, `Bootstrap5` and `app.run`: these are process setup.
