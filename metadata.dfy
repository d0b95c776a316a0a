/** Normalisation of a catalog details response into record fields: the release
    year taken from the date string and the absolute poster URL. */
module Metadata {
  import opened Records

  /** The fields of a catalog details response that staging uses. A JSON `null`
      poster path is `None`. */
  datatype Details = Details(
    title: string,
    releaseDate: string,
    posterPath: Option<string>,
    overview: string)

  /** The fixed base every poster URL starts with. */
  const ImageBase: string := "https://image.tmdb.org/t/p/original"

  // ---------------------------------------------------------------------------
  // Release year: the integer value of the text before the first '-'
  // ---------------------------------------------------------------------------

  predicate IsDigit(c: char) {
    '0' <= c <= '9'
  }

  /** The ASCII characters `int()` strips around a number: tab to carriage
      return, and space. */
  predicate IsSpace(c: char) {
    c == ' ' || 9 <= c as int <= 13
  }

  /** The first piece of `s.split('-')`: the longest prefix without a dash. */
  function BeforeFirstDash(s: string): (p: string)
    ensures p <= s
    ensures '-' !in p
    ensures p == s || s[|p|] == '-'
  {
    if s == [] || s[0] == '-' then [] else [s[0]] + BeforeFirstDash(s[1..])
  }

  /** `s` without its leading whitespace. */
  function TrimStart(s: string): (t: string)
    ensures |t| <= |s| && t == s[|s| - |t|..]
    ensures t == [] || !IsSpace(t[0])
    ensures forall k :: 0 <= k < |s| - |t| ==> IsSpace(s[k])
  {
    if s != [] && IsSpace(s[0]) then TrimStart(s[1..]) else s
  }

  /** `s` without its trailing whitespace. */
  function TrimEnd(s: string): (t: string)
    ensures t <= s
    ensures t == [] || !IsSpace(t[|t| - 1])
    ensures forall k :: |t| <= k < |s| ==> IsSpace(s[k])
  {
    if s != [] && IsSpace(s[|s| - 1]) then TrimEnd(s[..|s| - 1]) else s
  }

  function Strip(s: string): string {
    TrimEnd(TrimStart(s))
  }

  /** Python's decimal integer body: digits, with single underscores allowed
      between two digits. */
  predicate IsDigitGroup(t: string) {
    && |t| > 0
    && IsDigit(t[0])
    && IsDigit(t[|t| - 1])
    && (forall i :: 0 <= i < |t| ==> IsDigit(t[i]) || t[i] == '_')
    && (forall i :: 0 <= i < |t| - 1 ==> t[i] == '_' ==> IsDigit(t[i + 1]))
  }

  function DigitValue(c: char): nat
    requires IsDigit(c)
  {
    c as int - '0' as int
  }

  /** The base-10 value of a run of digits and underscores; underscores are skipped. */
  function DigitsValue(t: string): nat
    requires forall i :: 0 <= i < |t| ==> IsDigit(t[i]) || t[i] == '_'
  {
    if t == [] then 0
    else if t[|t| - 1] == '_' then DigitsValue(t[..|t| - 1])
    else DigitsValue(t[..|t| - 1]) * 10 + DigitValue(t[|t| - 1])
  }

  /** Python's `int(s)` on a string: surrounding whitespace is stripped, one
      optional sign, then a digit group; anything else is a `ParseError`. */
  function ParseInt(s: string): (r: Result<int>)
    ensures r.Err? ==> r.error == ParseError
    ensures r.Ok? ==> |Strip(s)| > 0 && (IsDigit(Strip(s)[0]) || Strip(s)[0] == '+' || Strip(s)[0] == '-')
    ensures r.Ok? && r.value < 0 ==> Strip(s)[0] == '-'
    ensures r.Ok? ==> var t := Strip(s);
      IsDigit(t[|t| - 1]) && forall i :: 0 < i < |t| ==> IsDigit(t[i]) || t[i] == '_'
    ensures IsDigitGroup(Strip(s)) ==> r == Ok(DigitsValue(Strip(s)))
  {
    var t := Strip(s);
    if |t| > 0 && (t[0] == '+' || t[0] == '-') then
      if IsDigitGroup(t[1..]) then
        var magnitude: int := DigitsValue(t[1..]);
        Ok(if t[0] == '-' then -magnitude else magnitude)
      else Err(ParseError)
    else if IsDigitGroup(t) then Ok(DigitsValue(t))
    else Err(ParseError)
  }

  /** The release year: the text of the release date up to its first dash, read as
      an integer by `ParseInt`. A parsed year is never negative, because that
      text holds no minus sign; a date without a dash is read whole. */
  function ParseYear(releaseDate: string): (r: Result<int>)
    ensures r.Err? ==> r.error == ParseError
    ensures r.Ok? ==> r.value >= 0
    ensures '-' !in releaseDate ==> r == ParseInt(releaseDate)
  {
    var p := BeforeFirstDash(releaseDate);
    StripKeepsOut(p, '-');
    assert '-' !in releaseDate ==> p == releaseDate;
    ParseInt(p)
  }

  /** Stripping whitespace only removes characters, so a character absent from `s`
      is absent from what is left. */
  lemma StripKeepsOut(s: string, c: char)
    requires c !in s
    ensures c !in Strip(s)
  {
    var t := TrimStart(s);
    assert forall k :: 0 <= k < |t| ==> t[k] == s[|s| - |t| + k];
  }

  /** The reference rendering of a natural number in decimal, without leading zeros. */
  function NatToDigits(n: nat): (t: string)
    decreases n
  {
    if n < 10 then ['0' + n as char]
    else NatToDigits(n / 10) + ['0' + (n % 10) as char]
  }

  /** Decimal rendering is a well-formed digit group that reads back as `n`. */
  lemma {:induction false} DigitsRoundTrip(n: nat)
    ensures IsDigitGroup(NatToDigits(n))
    ensures forall i :: 0 <= i < |NatToDigits(n)| ==> IsDigit(NatToDigits(n)[i])
    ensures DigitsValue(NatToDigits(n)) == n
    decreases n
  {
    if n >= 10 {
      DigitsRoundTrip(n / 10);
      var p := NatToDigits(n / 10);
      var t := NatToDigits(n);
      assert t == p + ['0' + (n % 10) as char];
      assert t[..|t| - 1] == p;
      assert forall i :: 0 <= i < |t| - 1 ==> t[i] == p[i];
    }
  }

  /** The dash-free start of a date is all `BeforeFirstDash` keeps. */
  lemma BeforeFirstDashOfJoin(p: string, rest: string)
    requires '-' !in p
    ensures BeforeFirstDash(p + "-" + rest) == p
    ensures BeforeFirstDash(p) == p
  {
    var s := p + "-" + rest;
    var q := BeforeFirstDash(s);
    assert s[|p|] == '-';
  }

  /** Only the text before the first dash of a release date decides the year. */
  lemma ParseYearIgnoresRest(p: string, rest: string)
    requires '-' !in p
    ensures ParseYear(p + "-" + rest) == ParseYear(p) == ParseInt(p)
  {
    BeforeFirstDashOfJoin(p, rest);
  }

  /** A digit group has no surrounding whitespace and no sign, so `int()` reads
      its digits directly. */
  lemma ParseIntOfDigitGroup(d: string)
    requires IsDigitGroup(d)
    ensures ParseInt(d) == Ok(DigitsValue(d))
  {
  }

  /** A release date that starts with the decimal year `n`, whether followed by a
      dash and more text or by nothing, parses to `n`. */
  lemma ParseYearRoundTrip(n: nat, rest: string)
    ensures ParseYear(NatToDigits(n) + "-" + rest) == Ok(n)
    ensures ParseYear(NatToDigits(n)) == Ok(n)
  {
    var d := NatToDigits(n);
    DigitsRoundTrip(n);
    assert forall i :: 0 <= i < |d| ==> d[i] != '-';
    ParseYearIgnoresRest(d, rest);
    ParseIntOfDigitGroup(d);
  }

  /** Worked cases: a full date and a bare year both give 2021. */
  lemma ParseYearExamples()
    ensures ParseYear("2021-10-20") == Ok(2021)
    ensures ParseYear("2021") == Ok(2021)
  {
    assert ParseYear("2021-10-20") == ParseYear("2021") == ParseInt("2021") by {
      assert "2021" + "-" + "10-20" == "2021-10-20";
      ParseYearIgnoresRest("2021", "10-20");
    }
    ParseIntOf2021();
  }

  lemma ParseIntOf2021()
    ensures ParseInt("2021") == Ok(2021)
  {
    var d := "2021";
    assert DigitsValue(d[..1]) == 2;
    assert DigitsValue(d[..2]) == 20 by { assert d[..2][..1] == d[..1]; }
    assert DigitsValue(d[..3]) == 202 by { assert d[..3][..2] == d[..2]; }
    assert d[..4][..3] == d[..3];
    assert d[..4] == d;
    ParseIntOfDigitGroup(d);
  }

  /** An empty date, or one that starts with a dash, has an empty year piece,
      which `int()` rejects. */
  lemma ParseYearRejectsEmptyPrefix(rest: string)
    ensures ParseYear("") == Err(ParseError)
    ensures ParseYear("-" + rest) == Err(ParseError)
  {
    assert BeforeFirstDash("-" + rest) == [] by { assert ("-" + rest)[0] == '-'; }
    assert ParseInt([]) == Err(ParseError) by { assert Strip([]) == []; }
  }

  /** A year piece that starts with a character other than whitespace, a sign or
      a digit is rejected, whatever follows the dash. */
  lemma ParseYearRejectsNonNumeric(p: string, rest: string)
    requires '-' !in p && |p| > 0
    requires !IsSpace(p[0]) && !IsDigit(p[0]) && p[0] != '+'
    ensures ParseYear(p + "-" + rest) == Err(ParseError)
  {
    ParseYearIgnoresRest(p, rest);
    assert TrimStart(p) == p;
    assert TrimEnd(p)[0] == p[0];
  }

  /** A year piece with no surrounding whitespace is rejected when any character
      after its first is neither a digit nor an underscore, whatever follows the
      dash. */
  lemma ParseYearRejectsInnerNonDigit(p: string, rest: string, i: int)
    requires '-' !in p && |p| > 0
    requires !IsSpace(p[0]) && !IsSpace(p[|p| - 1])
    requires 0 < i < |p| && !IsDigit(p[i]) && p[i] != '_'
    ensures ParseYear(p + "-" + rest) == Err(ParseError)
    ensures ParseYear(p) == Err(ParseError)
  {
    ParseYearIgnoresRest(p, rest);
    assert TrimStart(p) == p;
    assert TrimEnd(p) == p;
  }

  /** Worked failures: a letter inside the year, and a space inside the year. */
  lemma ParseYearRejectsInnerExamples()
    ensures ParseYear("20x1-10-20") == Err(ParseError)
    ensures ParseYear("20 21") == Err(ParseError)
  {
    assert "20x1" + "-" + "10-20" == "20x1-10-20";
    ParseYearRejectsInnerNonDigit("20x1", "10-20", 2);
    ParseYearRejectsInnerNonDigit("20 21", "", 2);
  }

  /** Worked failure: a date whose year piece is not numeric. */
  lemma ParseYearRejectsWord()
    ensures ParseYear("bad-date") == Err(ParseError)
  {
    assert "bad" + "-" + "date" == "bad-date";
    ParseYearRejectsNonNumeric("bad", "date");
  }

  // ---------------------------------------------------------------------------
  // Poster URL: the fixed base followed by the poster path
  // ---------------------------------------------------------------------------

  /** The poster URL: the fixed base followed by the poster path as Python's string
      formatting renders it, where a `null` path becomes the text "None". The base
      is a prefix of the URL and the rendered path is the rest, so the path can be
      read back from the URL. */
  function ImageUrl(posterPath: Option<string>): (url: string)
    ensures |ImageBase| <= |url| && url[..|ImageBase|] == ImageBase
    ensures posterPath.Some? ==> url[|ImageBase|..] == posterPath.value
    ensures posterPath.None? ==> url[|ImageBase|..] == "None"
  {
    ImageBase + match posterPath
                case Some(p) => p
                case None => "None"
  }

  /** Distinct non-null poster paths give distinct URLs. */
  lemma ImageUrlInjective(p: string, q: string)
    requires ImageUrl(Some(p)) == ImageUrl(Some(q))
    ensures p == q
  {
  }

  /** The worked case: poster path "/x.jpg" is appended to the base. */
  lemma ImageUrlExample()
    ensures ImageUrl(Some("/x.jpg")) == "https://image.tmdb.org/t/p/original/x.jpg"
    ensures ImageUrl(None) == "https://image.tmdb.org/t/p/originalNone"
  {
  }

  /** A `null` poster path and the path "None" give the same URL, so distinct
      URLs are guaranteed only for non-null paths. */
  lemma ImageUrlNullCollides()
    ensures ImageUrl(None) == ImageUrl(Some("None"))
  {
  }
}
