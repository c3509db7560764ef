/**
 * tools/movieinfo.py: the movie record, extraction of an IMDb id from text,
 * the year coercion, the lookup with its year window, the IMDb title URL and
 * the removal of characters a folder name may not contain.
 */
module Movies {
  import opened Wrappers
  import opened PyStrings

  /** One candidate match: title, release year (0 when unknown) and IMDb id without "tt". */
  datatype MovieInfo = MovieInfo(title: string, year: int, imdbId: string)

  /** The value stored under "year" in a backend record, as the backend delivers it. */
  datatype RawYear = YearNumber(n: int) | YearString(s: string) | YearMissing

  /** A record returned by the movie database; a missing title reads as "". */
  datatype BackendMovie = BackendMovie(title: string, year: RawYear, id: string)

  /** A backend call either raises `IMDbError` or answers. */
  datatype Reply<T> = Failed | Answered(value: T)

  // ---------------------------------------------------------------- get_imdb

  /** The pattern `tt\d+` starts at position `i` of `s`. */
  predicate MatchAt(s: string, i: int) {
    0 <= i && i + 2 < |s| && s[i] == 't' && s[i + 1] == 't' && IsDigit(s[i + 2])
  }

  /** Length of the longest run of digits starting at `k` (the greedy `\d+`). */
  function DigitRun(s: string, k: nat): (n: nat)
    requires k <= |s|
    ensures k + n <= |s|
    ensures forall j :: k <= j < k + n ==> IsDigit(s[j])
    ensures k + n == |s| || !IsDigit(s[k + n])
    decreases |s| - k
  {
    if k < |s| && IsDigit(s[k]) then 1 + DigitRun(s, k + 1) else 0
  }

  /** The leftmost position at or after `i` where the pattern matches, as `re.search` scans. */
  function LeftmostMatch(s: string, i: nat): (p: Option<nat>)
    requires i <= |s|
    ensures p.None? <==> forall j :: i <= j < |s| ==> !MatchAt(s, j)
    ensures p.Some? ==> i <= p.value < |s| && MatchAt(s, p.value)
    ensures p.Some? ==> forall j :: i <= j < p.value ==> !MatchAt(s, j)
    decreases |s| - i
  {
    if i + 2 >= |s| then None
    else if MatchAt(s, i) then Some(i)
    else LeftmostMatch(s, i + 1)
  }

  /** `s` occurs in `t` at position `p`. */
  predicate OccursAt(s: string, t: string, p: nat) {
    p + |s| <= |t| && t[p..p + |s|] == s
  }

  /**
   * `get_imdb`: the leftmost `tt` followed by its maximal run of digits, or ""
   * when no `tt` in the text is immediately followed by a digit.
   */
  function GetImdb(text: string): (r: string)
    ensures r != "" ==> StartsWith(r, "tt") && IsDigits(r[2..])
  {
    match LeftmostMatch(text, 0)
    case None => ""
    case Some(p) =>
      var r := text[p..p + 2 + DigitRun(text, p + 2)];
      assert r[2..] == text[p + 2..p + 2 + DigitRun(text, p + 2)];
      r
  }

  /** `get_imdb` returns "" exactly when no `tt` in the text is followed by a digit. */
  lemma GetImdbEmpty(text: string)
    ensures GetImdb(text) == "" <==> forall j :: 0 <= j < |text| ==> !MatchAt(text, j)
  {
  }

  /**
   * When the leftmost match starts at `p`, `get_imdb` returns the `tt` there
   * with the whole run of digits after it: a part of the text.
   */
  lemma GetImdbAt(text: string, p: nat)
    requires MatchAt(text, p)
    requires forall j :: 0 <= j < p ==> !MatchAt(text, j)
    ensures GetImdb(text) == text[p..p + 2 + DigitRun(text, p + 2)]
    ensures OccursAt(GetImdb(text), text, p)
  {
    assert LeftmostMatch(text, 0) == Some(p);
  }

  /** A digit run that reaches a non-digit (or the end) at `k + m` has length `m`. */
  lemma DigitRunExact(s: string, k: nat, m: nat)
    requires k + m <= |s|
    requires forall j :: k <= j < k + m ==> IsDigit(s[j])
    requires k + m == |s| || !IsDigit(s[k + m])
    ensures DigitRun(s, k) == m
  {
  }

  /** `get_imdb` returns its own non-empty result unchanged. */
  lemma {:induction false} GetImdbIdempotent(text: string)
    requires GetImdb(text) != ""
    ensures GetImdb(GetImdb(text)) == GetImdb(text)
  {
    var r := GetImdb(text);
    assert MatchAt(r, 0);
    DigitRunExact(r, 2, |r| - 2);
    GetImdbAt(r, 0);
  }

  // ---------------------------------------------------------------- get_year

  /**
   * `get_year`: the record's year as an integer, or 0 when `int()` rejects it
   * (a missing year or text that is not a number).
   */
  function GetYear(y: RawYear): (r: int)
    ensures y.YearMissing? ==> r == 0
    ensures y.YearNumber? ==> r == y.n
    ensures y.YearString? && ParseInt(y.s).None? ==> r == 0
    ensures y.YearString? && ParseInt(y.s).Some? ==> r == ParseInt(y.s).value
  {
    match y
    case YearNumber(n) => n
    case YearString(s) => (match ParseInt(s) case Some(n) => n case None => 0)
    case YearMissing => 0
  }

  /** A year delivered as its decimal text is read back exactly. */
  lemma GetYearOfText(n: int)
    ensures GetYear(YearString(IntToString(n))) == n
  {
    ParseIntOfIntToString(n);
  }

  // -------------------------------------------------------- fetch_movie_info

  /** The record built from one backend movie. */
  function ToMovieInfo(m: BackendMovie): (info: MovieInfo)
    ensures info.title == m.title && info.imdbId == m.id
    ensures info.year == GetYear(m.year)
  {
    MovieInfo(m.title, GetYear(m.year), m.id)
  }

  /** One record per backend movie, in backend order. */
  function AllInfos(ms: seq<BackendMovie>): (r: seq<MovieInfo>)
    ensures |r| == |ms|
    ensures forall i :: 0 <= i < |ms| ==> r[i] == ToMovieInfo(ms[i])
  {
    seq(|ms|, i requires 0 <= i < |ms| => ToMovieInfo(ms[i]))
  }

  /** The backend movie's year lies in `[year - 1, year + 1]`. */
  predicate NearYear(m: BackendMovie, year: int) {
    year - 1 <= GetYear(m.year) <= year + 1
  }

  /** The records of the backend movies within one year of `year`, in backend order. */
  function InfosNear(ms: seq<BackendMovie>, year: int): (r: seq<MovieInfo>)
    ensures |r| <= |ms|
    ensures forall i :: 0 <= i < |r| ==> year - 1 <= r[i].year <= year + 1
    ensures forall i :: 0 <= i < |ms| && NearYear(ms[i], year) ==> ToMovieInfo(ms[i]) in r
    ensures forall x :: x in r ==> exists i :: 0 <= i < |ms| && NearYear(ms[i], year) && x == ToMovieInfo(ms[i])
  {
    if ms == [] then []
    else
      var rest := InfosNear(ms[1..], year);
      assert forall i :: 1 <= i < |ms| ==> ms[i] == ms[1..][i - 1];
      (if NearYear(ms[0], year) then [ToMovieInfo(ms[0])] else []) + rest
  }

  /** Filtering distributes over concatenation, so the backend order is kept. */
  lemma {:induction false} InfosNearAppend(a: seq<BackendMovie>, b: seq<BackendMovie>, year: int)
    ensures InfosNear(a + b, year) == InfosNear(a, year) + InfosNear(b, year)
  {
    if a != [] {
      assert (a + b)[1..] == a[1..] + b;
      InfosNearAppend(a[1..], b, year);
    } else {
      assert a + b == b;
    }
  }

  /** When every backend movie is near the year, nothing is dropped. */
  lemma {:induction false} InfosNearKeepsAll(ms: seq<BackendMovie>, year: int)
    requires forall i :: 0 <= i < |ms| ==> NearYear(ms[i], year)
    ensures InfosNear(ms, year) == AllInfos(ms)
  {
    if ms != [] {
      InfosNearKeepsAll(ms[1..], year);
      assert AllInfos(ms) == [ToMovieInfo(ms[0])] + AllInfos(ms[1..]);
    }
  }

  /**
   * `fetch_movie_info` with the Cinemagoer calls `get_movie` and `search_movie`
   * given as parameters. `None` is what the function returns after catching an
   * `IMDbError`; a year of `None` or 0 means no year filter.
   */
  function FetchMovieInfo(title: string, year: Option<int>, imdbId: string,
                          getMovie: string -> Reply<BackendMovie>,
                          searchMovie: string -> Reply<seq<BackendMovie>>): (r: Option<seq<MovieInfo>>)
    ensures imdbId != "" ==> (r.None? <==> getMovie(imdbId).Failed?)
    ensures imdbId != "" && r.Some? ==>
              r.value == [MovieInfo(getMovie(imdbId).value.title, GetYear(getMovie(imdbId).value.year), imdbId)]
    ensures imdbId == "" ==> (r.None? <==> searchMovie(title).Failed?)
    ensures imdbId == "" && r.Some? && (year.None? || year.value == 0) ==>
              r.value == AllInfos(searchMovie(title).value)
    ensures imdbId == "" && r.Some? && year.Some? && year.value != 0 ==>
              forall i :: 0 <= i < |r.value| ==> year.value - 1 <= r.value[i].year <= year.value + 1
    ensures imdbId == "" && r.Some? && year.Some? && year.value != 0 ==>
              r.value == InfosNear(searchMovie(title).value, year.value)
  {
    if imdbId != "" then
      match getMovie(imdbId)
      case Failed => None
      case Answered(movie) => Some([MovieInfo(movie.title, GetYear(movie.year), imdbId)])
    else
      match searchMovie(title)
      case Failed => None
      case Answered(movies) =>
        if year.None? || year.value == 0 then Some(AllInfos(movies))
        else Some(InfosNear(movies, year.value))
  }

  // ----------------------------------------------------------- make_imdb_url

  /** The part of every IMDb title URL in front of the id's digits. */
  const ImdbTitlePrefix: string := "https://www.imdb.com/title/tt"

  /** `make_imdb_url`: the IMDb title page of an id given without "tt". */
  function MakeImdbUrl(imdbId: string): (url: string)
    ensures StartsWith(url, ImdbTitlePrefix) && url[|url| - 1] == '/'
    ensures url[|ImdbTitlePrefix|..|url| - 1] == imdbId
  {
    ImdbTitlePrefix + imdbId + "/"
  }

  /** The id can be read back from its URL: `make_imdb_url` is injective. */
  lemma MakeImdbUrlInjective(a: string, b: string)
    requires MakeImdbUrl(a) == MakeImdbUrl(b)
    ensures a == b
  {
    var ua, ub := MakeImdbUrl(a), MakeImdbUrl(b);
    assert a == ua[|ImdbTitlePrefix|..|ua| - 1];
  }

  /** No match of the pattern starts inside "https://www.imdb.com/title/". */
  lemma UrlPrefixNoMatch(url: string)
    requires StartsWith(url, ImdbTitlePrefix)
    ensures forall j :: 0 <= j < |ImdbTitlePrefix| - 2 ==> !MatchAt(url, j)
  {
    var p := ImdbTitlePrefix;
    forall j | 0 <= j < |p| - 2 ensures !MatchAt(url, j) {
      assert url[j] == p[j] && url[j + 1] == p[j + 1] && url[j + 2] == p[j + 2];
    }
  }

  /** `get_imdb` finds the id in an IMDb title URL: the one it came from, with "tt". */
  lemma GetImdbOfUrl(imdbId: string)
    requires IsDigits(imdbId)
    ensures GetImdb(MakeImdbUrl(imdbId)) == "tt" + imdbId
  {
    var url := MakeImdbUrl(imdbId);
    var k := |ImdbTitlePrefix| - 2;
    UrlPrefixNoMatch(url);
    assert url[k] == 't' && url[k + 1] == 't' && url[k + 2] == imdbId[0];
    assert MatchAt(url, k);
    GetImdbAt(url, k);
    DigitRunExact(url, k + 2, |imdbId|);
    assert url[k..k + 2 + |imdbId|] == "tt" + imdbId;
  }

  // ----------------------------------------------------------- sanitise_title

  /** The characters `sanitise_title` removes, in the order it removes them. */
  const Forbidden: string := "\\:*?\"<>|./!"

  /** The same characters as a set. */
  const ForbiddenChars: set<char> := {'\\', ':', '*', '?', '"', '<', '>', '|', '.', '/', '!'}

  /** `s` with every character of `cs` deleted and every other character kept, in order. */
  function Without(s: string, cs: set<char>): (r: string)
    ensures |r| <= |s|
    ensures forall i :: 0 <= i < |r| ==> r[i] !in cs
  {
    if s == [] then []
    else (if s[0] in cs then [] else [s[0]]) + Without(s[1..], cs)
  }

  /** Deleting one set of characters and then another deletes their union. */
  lemma {:induction false} WithoutWithout(s: string, a: set<char>, b: set<char>)
    ensures Without(Without(s, a), b) == Without(s, a + b)
  {
    if s != [] {
      WithoutWithout(s[1..], a, b);
      WithoutAppend(if s[0] in a then [] else [s[0]], Without(s[1..], a), b);
    }
  }

  /** Deleting characters distributes over concatenation. */
  lemma {:induction false} WithoutAppend(s: string, t: string, cs: set<char>)
    ensures Without(s + t, cs) == Without(s, cs) + Without(t, cs)
  {
    if s != [] {
      assert (s + t)[1..] == s[1..] + t;
      WithoutAppend(s[1..], t, cs);
    } else {
      assert s + t == t;
    }
  }

  /** Deleting characters that do not occur changes nothing. */
  lemma {:induction false} WithoutAbsent(s: string, cs: set<char>)
    requires forall i :: 0 <= i < |s| ==> s[i] !in cs
    ensures Without(s, cs) == s
  {
    if s != [] {
      WithoutAbsent(s[1..], cs);
    }
  }

  /**
   * Deleting keeps every other character as often as it occurs: the result
   * holds each character outside `cs` exactly as many times as `s` does.
   */
  lemma {:induction false} WithoutCounts(s: string, cs: set<char>, c: char)
    ensures multiset(Without(s, cs))[c] == if c in cs then 0 else multiset(s)[c]
  {
    if s != [] {
      WithoutCounts(s[1..], cs, c);
      assert s == [s[0]] + s[1..];
      assert multiset(s) == multiset([s[0]]) + multiset(s[1..]);
    }
  }

  /** No character of `s` is one a folder name may not contain. */
  predicate Legal(s: string) {
    forall i :: 0 <= i < |s| ==> s[i] !in ForbiddenChars
  }

  lemma LegalAppend(s: string, t: string)
    requires Legal(s) && Legal(t)
    ensures Legal(s + t)
  {
    assert forall i :: |s| <= i < |s + t| ==> (s + t)[i] == t[i - |s|];
  }

  /**
   * What `sanitise_title` returns: the title with the characters
   * `\ : * ? " < > | . / !` deleted and all others kept in order.
   */
  function Sanitised(title: string): (r: string)
    ensures |r| <= |title|
    ensures Legal(r)
  {
    Without(title, ForbiddenChars)
  }

  /** The first `k` characters of `Forbidden` as a set. */
  function ForbiddenPrefix(k: nat): (cs: set<char>)
    requires k <= |Forbidden|
    ensures forall c :: c in cs <==> exists j :: 0 <= j < k && Forbidden[j] == c
  {
    set j | 0 <= j < k :: Forbidden[j]
  }

  /**
   * `sanitise_title`: one `str.replace(c, "")` per forbidden character,
   * rebinding the title each time.
   */
  method SanitiseTitle(title: string) returns (r: string)
    ensures r == Sanitised(title)
  {
    r := title;
    var k := 0;
    WithoutAbsent(title, ForbiddenPrefix(0));
    while k < |Forbidden|
      invariant k <= |Forbidden|
      invariant r == Without(title, ForbiddenPrefix(k))
    {
      WithoutWithout(title, ForbiddenPrefix(k), {Forbidden[k]});
      ForbiddenPrefixStep(k);
      r := Without(r, {Forbidden[k]});
      k := k + 1;
    }
    ForbiddenPrefixAll();
  }

  /** One more character of `Forbidden` adds that character to the prefix set. */
  lemma ForbiddenPrefixStep(k: nat)
    requires k < |Forbidden|
    ensures ForbiddenPrefix(k + 1) == ForbiddenPrefix(k) + {Forbidden[k]}
  {
  }

  /** Removing the characters of `Forbidden` one after another removes exactly `ForbiddenChars`. */
  lemma ForbiddenPrefixAll()
    ensures ForbiddenPrefix(|Forbidden|) == ForbiddenChars
  {
    assert Forbidden == ['\\', ':', '*', '?', '"', '<', '>', '|', '.', '/', '!'];
    assert forall j :: 0 <= j < |Forbidden| ==> Forbidden[j] in ForbiddenChars;
    assert forall c :: c in ForbiddenChars ==> c in Forbidden;
  }

  /** Sanitising twice is sanitising once. */
  lemma SanitisedIdempotent(title: string)
    ensures Sanitised(Sanitised(title)) == Sanitised(title)
  {
    WithoutAbsent(Sanitised(title), ForbiddenChars);
  }

  /** A title without forbidden characters is left as it is. */
  lemma SanitisedClean(title: string)
    requires Legal(title)
    ensures Sanitised(title) == title
  {
    WithoutAbsent(title, ForbiddenChars);
  }

  /** Sanitising a concatenation sanitises each part. */
  lemma SanitisedAppend(s: string, t: string)
    ensures Sanitised(s + t) == Sanitised(s) + Sanitised(t)
  {
    WithoutAppend(s, t, ForbiddenChars);
  }

  /** Sanitising deletes a forbidden character standing between two clean parts. */
  lemma SanitisedDropsForbidden(a: string, c: char, b: string)
    requires Legal(a) && Legal(b)
    requires c in ForbiddenChars
    ensures Sanitised(a + [c] + b) == a + b
  {
    SanitisedAppend(a + [c], b);
    SanitisedAppend(a, [c]);
    SanitisedClean(a);
    SanitisedClean(b);
  }
}
