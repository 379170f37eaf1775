/**
 * The records the engine works on: watchlist entries as fetched, the
 * normalised watchlist records built from them (app.py lines 52-60, copied in
 * testing/debug_watchlist.py lines 30-38), and catalog movies, which get their
 * key attached in place once at start-up (app.py lines 20-21).
 */
module Records {
  import opened Wrappers
  import opened TitleKey

  /** A watchlist entry as the profile service returns it: `{'name': ..., 'url': ...}`. */
  datatype RawEntry = RawEntry(name: string, url: string)

  /** A normalised watchlist record `{'title', 'norm_title', 'year', 'url'}`; it has no `slug` key. */
  datatype Record = Record(title: string, normTitle: string, year: Option<int>, url: string)

  /**
   * A catalog movie `{'title', 'year', 'href'}` as loaded; `normTitle` is `None`
   * until the start-up loop adds the `norm_title` key.
   */
  datatype Movie = Movie(title: string, year: Option<int>, href: string, normTitle: Option<string>)

  // ---------------------------------------------------------------------------
  // The year token `(dddd)`
  // ---------------------------------------------------------------------------

  predicate IsDigit(c: char) {
    '0' <= c <= '9'
  }

  /** `s` holds the token `(dddd)` at index `i`: what `\((\d{4})\)` matches. */
  predicate YearTokenAt(s: string, i: int) {
    && 0 <= i && i + 6 <= |s|
    && s[i] == '(' && s[i + 5] == ')'
    && IsDigit(s[i + 1]) && IsDigit(s[i + 2]) && IsDigit(s[i + 3]) && IsDigit(s[i + 4])
  }

  /** The integer the four digits of the token at `i` spell: `int(match.group(1))`. */
  function TokenYear(s: string, i: int): (y: int)
    requires YearTokenAt(s, i)
    ensures 0 <= y <= 9999
  {
    1000 * DigitValue(s[i + 1]) + 100 * DigitValue(s[i + 2]) + 10 * DigitValue(s[i + 3]) + DigitValue(s[i + 4])
  }

  function DigitValue(c: char): (n: int)
    requires IsDigit(c)
    ensures 0 <= n <= 9
  {
    c as int - '0' as int
  }

  /** The index of the first year token at or after `from`, if any (`re.search`). */
  function FirstYearTokenFrom(s: string, from: nat): (r: Option<nat>)
    requires from <= |s|
    ensures r.Some? ==> from <= r.value && YearTokenAt(s, r.value)
    ensures r.Some? ==> forall j :: from <= j < r.value ==> !YearTokenAt(s, j)
    ensures r.None? ==> forall j :: from <= j ==> !YearTokenAt(s, j)
    decreases |s| - from
  {
    if from + 6 > |s| then None
    else if YearTokenAt(s, from) then Some(from)
    else FirstYearTokenFrom(s, from + 1)
  }

  /** The year of a watchlist name: the value of its first `(dddd)` token, else `None`. */
  function ParseYear(name: string): (year: Option<int>)
    ensures year.Some? ==> 0 <= year.value <= 9999
  {
    match FirstYearTokenFrom(name, 0)
    case None => None
    case Some(i) => Some(TokenYear(name, i))
  }

  /** A name has a year exactly when it holds a token, and the first token gives it. */
  lemma ParseYearFirstToken(name: string, i: int)
    ensures ParseYear(name).None? <==> !HasYearToken(name)
    ensures YearTokenAt(name, i) && (forall j :: 0 <= j < i ==> !YearTokenAt(name, j))
            ==> ParseYear(name) == Some(TokenYear(name, i))
  {
    match FirstYearTokenFrom(name, 0)
    case None =>
    case Some(k) =>
      if YearTokenAt(name, i) && (forall j :: 0 <= j < i ==> !YearTokenAt(name, j)) {
        assert !(i < k) && !(k < i);
      }
  }

  // ---------------------------------------------------------------------------
  // Removing `\s*\(\d{4}\)` from a name
  // ---------------------------------------------------------------------------

  /** The length of a `\s*\(\d{4}\)` match at the very start of `s`, if there is one. */
  function YearSuffixAtStart(s: string): (r: Option<nat>)
    ensures r.Some? ==> 6 <= r.value <= |s|
    ensures YearTokenAt(s, 0) ==> r == Some(6)
  {
    var w := LeadingSpaces(s);
    if YearTokenAt(s, w) then Some(w + 6) else None
  }

  /** `s` holds a year token somewhere. */
  ghost predicate HasYearToken(s: string) {
    exists i :: YearTokenAt(s, i)
  }

  /**
   * `re.sub(r'\s*\(\d{4}\)', '', s)`: scanning left to right, every match is
   * cut out and the scan resumes after it.
   */
  function RemoveYearTokens(s: string): (r: string)
    ensures |r| <= |s|
    decreases |s|
  {
    if s == [] then []
    else
      match YearSuffixAtStart(s)
      case Some(n) => RemoveYearTokens(s[n..])
      case None => [s[0]] + RemoveYearTokens(s[1..])
  }

  /** The removal changes the name exactly when the name holds a year token, and then cuts at least one. */
  lemma {:induction false} RemoveYearTokensShortens(s: string)
    ensures RemoveYearTokens(s) == s <==> !HasYearToken(s)
    ensures HasYearToken(s) ==> |RemoveYearTokens(s)| + 6 <= |s|
    decreases |s|
  {
    if s == [] {
    } else {
      match YearSuffixAtStart(s)
      case Some(n) =>
        assert YearTokenAt(s, LeadingSpaces(s));
      case None =>
        RemoveYearTokensShortens(s[1..]);
        assert !YearTokenAt(s, 0);
        assert s == [s[0]] + s[1..];
        if HasYearToken(s) {
          var i :| YearTokenAt(s, i);
          assert YearTokenAt(s[1..], i - 1);
        }
        if HasYearToken(s[1..]) {
          var i :| YearTokenAt(s[1..], i);
          assert YearTokenAt(s, i + 1);
        }
    }
  }

  /** No match of `\s*\(\d{4}\)` starts where no token starts before index `n` and `s[n - 1]` is not whitespace. */
  lemma NoSuffixBefore(s: string, n: int)
    requires 0 < n <= |s| && !IsSpace(s[n - 1])
    requires forall j :: 0 <= j < n ==> !YearTokenAt(s, j)
    ensures YearSuffixAtStart(s).None?
  {
    LeadingSpacesRun(s);
  }

  lemma SplitAfterHead(s: string, n: int)
    requires 0 < n <= |s|
    ensures s[1..][n - 1..] == s[n..] && [s[0]] + s[1..][..n - 1] == s[..n]
  {
  }

  lemma ConsAssoc(r: string, c: char, tail: string, kept: string, rest: string, front: string)
    requires r == [c] + tail && tail == kept + rest && front == [c] + kept
    ensures r == front + rest
  {
  }

  /** Where no match starts, the first character is kept and the removal goes on after it. */
  lemma RemoveYearTokensKeepsHead(s: string)
    requires s != [] && YearSuffixAtStart(s).None?
    ensures RemoveYearTokens(s) == [s[0]] + RemoveYearTokens(s[1..])
  {
  }

  lemma TokenShift(s: string, n: int)
    requires 0 < n <= |s|
    requires forall j :: 0 <= j < n ==> !YearTokenAt(s, j)
    ensures forall j :: 0 <= j < n - 1 ==> !YearTokenAt(s[1..], j)
  {
    forall j | 0 <= j < n - 1 ensures !YearTokenAt(s[1..], j) {
      assert !YearTokenAt(s, j + 1);
    }
  }

  /**
   * The first `n` characters survive the removal unchanged when no token
   * starts among them and the last of them is not whitespace.
   */
  lemma {:induction false} RemoveYearTokensKeepsFront(s: string, n: int)
    requires 0 <= n <= |s| && (n > 0 ==> !IsSpace(s[n - 1]))
    requires forall j :: 0 <= j < n ==> !YearTokenAt(s, j)
    ensures RemoveYearTokens(s) == s[..n] + RemoveYearTokens(s[n..])
    decreases n
  {
    if n == 0 {
      assert s[..0] == [] && s[0..] == s;
    } else {
      NoSuffixBefore(s, n);
      RemoveYearTokensKeepsHead(s);
      TokenShift(s, n);
      var t := s[1..];
      assert n - 1 > 0 ==> t[n - 2] == s[n - 1];
      RemoveYearTokensKeepsFront(t, n - 1);
      SplitAfterHead(s, n);
      ConsAssoc(RemoveYearTokens(s), s[0], RemoveYearTokens(t), t[..n - 1], RemoveYearTokens(s[n..]), s[..n]);
    }
  }

  /**
   * A leading part that ends in a non-space, and where no token of the whole
   * string starts, survives the removal unchanged.
   */
  lemma RemoveYearTokensKeepsPrefix(a: string, b: string)
    requires a != [] ==> !IsSpace(a[|a| - 1])
    requires forall j :: 0 <= j < |a| ==> !YearTokenAt(a + b, j)
    ensures RemoveYearTokens(a + b) == a + RemoveYearTokens(b)
  {
    var s := a + b;
    assert a != [] ==> s[|a| - 1] == a[|a| - 1];
    RemoveYearTokensKeepsFront(s, |a|);
    assert s[..|a|] == a && s[|a|..] == b;
  }

  /** A leading part with no `(` that ends in a non-space survives the removal unchanged. */
  lemma RemoveYearTokensKeepsPlainPrefix(a: string, b: string)
    requires forall i :: 0 <= i < |a| ==> a[i] != '('
    requires a != [] ==> !IsSpace(a[|a| - 1])
    ensures RemoveYearTokens(a + b) == a + RemoveYearTokens(b)
  {
    forall j | 0 <= j < |a| ensures !YearTokenAt(a + b, j) {
      assert (a + b)[j] == a[j];
    }
    RemoveYearTokensKeepsPrefix(a, b);
  }

  /** Whitespace in front of `t` adds to the whitespace run at the front. */
  lemma {:induction false} LeadingSpacesAppend(w: string, t: string)
    requires AllSpace(w)
    ensures LeadingSpaces(w + t) == |w| + LeadingSpaces(t)
    decreases |w|
  {
    if w == [] {
      assert w + t == t;
    } else {
      assert (w + t)[1..] == w[1..] + t;
      assert AllSpace(w[1..]) by {
        forall i | 0 <= i < |w| - 1 ensures IsSpace(w[1..][i]) {
          assert w[1..][i] == w[i + 1];
        }
      }
      LeadingSpacesAppend(w[1..], t);
    }
  }

  /** No token starts inside a part `a` without a token that is followed by whitespace or `(`. */
  lemma NoTokenInPrefix(a: string, rest: string)
    requires !HasYearToken(a)
    requires rest != [] && (IsSpace(rest[0]) || rest[0] == '(')
    ensures forall j :: 0 <= j < |a| ==> !YearTokenAt(a + rest, j)
  {
    var s := a + rest;
    forall j | 0 <= j < |a| ensures !YearTokenAt(s, j) {
      if j + 6 <= |a| {
        assert s[j..j + 6] == a[j..j + 6];
        assert YearTokenAt(s, j) == YearTokenAt(a, j);
      } else {
        // a token here would need `rest[0]`, at one of its places 1 to 5, to be a digit or `)`
        assert s[|a|] == rest[0];
      }
    }
  }

  /** Whitespace and a token at the front are removed together. */
  lemma RemoveYearTokensLeadingToken(w: string, d: string, b: string)
    requires AllSpace(w)
    requires |d| == 4 && forall i :: 0 <= i < 4 ==> IsDigit(d[i])
    ensures RemoveYearTokens(w + "(" + d + ")" + b) == RemoveYearTokens(b)
  {
    var t := "(" + d + ")" + b;
    var rest := w + t;
    assert rest == w + "(" + d + ")" + b;
    LeadingSpacesAppend(w, t);
    assert rest[|w|..] == t;
    assert YearTokenAt(rest, |w|);
    assert YearSuffixAtStart(rest) == Some(|w| + 6);
    assert rest[|w| + 6..] == b;
  }

  /**
   * At a token: a part `a` without a token that ends in a non-space, then
   * whitespace, then `(dddd)`, then the rest. The whitespace and the token go,
   * `a` stays, and the removal goes on in the rest.
   */
  lemma RemoveYearTokensAtToken(a: string, w: string, d: string, b: string)
    requires !HasYearToken(a) && (a != [] ==> !IsSpace(a[|a| - 1]))
    requires AllSpace(w)
    requires |d| == 4 && forall i :: 0 <= i < 4 ==> IsDigit(d[i])
    ensures RemoveYearTokens(a + w + "(" + d + ")" + b) == a + RemoveYearTokens(b)
  {
    var rest := w + "(" + d + ")" + b;
    assert a + w + "(" + d + ")" + b == a + rest;
    assert rest[0] == if w == [] then '(' else w[0];
    NoTokenInPrefix(a, rest);
    RemoveYearTokensKeepsPrefix(a, rest);
    RemoveYearTokensLeadingToken(w, d, b);
  }

  /**
   * The removal around the first token at `i`: the text before it, less the
   * whitespace right before it, then the removal applied to the text after it.
   * With `RemoveYearTokensShortens` for names without a token, this fixes the
   * result for every name.
   */
  lemma RemoveYearTokensFirstToken(s: string, i: int)
    requires YearTokenAt(s, i) && forall j :: 0 <= j < i ==> !YearTokenAt(s, j)
    ensures var p := i - TrailingSpaces(s[..i]);
            RemoveYearTokens(s) == s[..p] + RemoveYearTokens(s[i + 6..])
  {
    var before := s[..i];
    var n := TrailingSpaces(before);
    var p := i - n;
    var a, w, d, b := s[..p], s[p..i], s[i + 1..i + 5], s[i + 6..];
    TrailingSpacesRun(before);
    assert AllSpace(w) by {
      forall k | 0 <= k < |w| ensures IsSpace(w[k]) {
        assert w[k] == before[p + k];
      }
    }
    assert a != [] ==> !IsSpace(a[|a| - 1]) by {
      if a != [] { assert a[|a| - 1] == before[i - 1 - n]; }
    }
    assert !HasYearToken(a) by {
      forall j | 0 <= j && j + 6 <= |a| ensures YearTokenAt(a, j) == YearTokenAt(s, j) {
        assert a[j..j + 6] == s[j..j + 6];
      }
    }
    assert s == a + w + "(" + d + ")" + b;
    RemoveYearTokensAtToken(a, w, d, b);
  }

  // ---------------------------------------------------------------------------
  // Extraction
  // ---------------------------------------------------------------------------

  /** The record the body of the extraction loop builds for one watchlist entry. */
  function Extract(e: RawEntry): (r: Record)
    ensures r.url == e.url && r.year == ParseYear(e.name)
    ensures IsKey(r.normTitle)
  {
    var year := ParseYear(e.name);
    var titleClean := Strip(RemoveYearTokens(e.name));
    Record(titleClean, Normalize(titleClean), year, e.url)
  }

  /**
   * The key of a record is the key of its title, which is stripped; a name without a year token is only
   * stripped, and a name with one loses at least the six characters `(dddd)`.
   */
  lemma ExtractTitle(e: RawEntry)
    ensures Extract(e).normTitle == Normalize(Extract(e).title)
    ensures var r := Extract(e);
            r.title != [] ==> !IsSpace(r.title[0]) && !IsSpace(r.title[|r.title| - 1])
    ensures !HasYearToken(e.name) ==> Extract(e).title == Strip(e.name) && Extract(e).year.None?
    ensures Extract(e).year.Some? ==> |Extract(e).title| + 6 <= |e.name|
  {
    RemoveYearTokensShortens(e.name);
    ParseYearFirstToken(e.name, 0);
    StripSpec(RemoveYearTokens(e.name));
  }

  /**
   * The title around the first token at `i`: the name before the token, less
   * the whitespace right before it, then the name after it with its own tokens
   * removed, all stripped; the year is the first token's.
   */
  lemma ExtractTitleAroundToken(e: RawEntry, i: int)
    requires YearTokenAt(e.name, i) && forall j :: 0 <= j < i ==> !YearTokenAt(e.name, j)
    ensures var p := i - TrailingSpaces(e.name[..i]);
            Extract(e).title == Strip(e.name[..p] + RemoveYearTokens(e.name[i + 6..]))
    ensures Extract(e).year == Some(TokenYear(e.name, i))
  {
    RemoveYearTokensFirstToken(e.name, i);
    ParseYearFirstToken(e.name, i);
  }

  /** The records the extraction loop builds, one per entry in the entries' order. */
  function ExtractAll(entries: seq<RawEntry>): (watchlist: seq<Record>)
    ensures |watchlist| == |entries|
  {
    MapSeq(Extract, entries)
  }

  /** The record at `i` is the one extracted from the entry at `i`. */
  lemma ExtractAllAt(entries: seq<RawEntry>, i: int)
    requires 0 <= i < |entries|
    ensures ExtractAll(entries)[i] == Extract(entries[i])
  {
    MapSeqAt(Extract, entries, i);
  }

  /** The extraction loop: one record per watchlist entry, in the entries' order. */
  method BuildWatchlist(entries: seq<RawEntry>) returns (watchlist: seq<Record>)
    ensures watchlist == ExtractAll(entries)
  {
    watchlist := [];
    for n := 0 to |entries|
      invariant watchlist == ExtractAll(entries[..n])
    {
      watchlist := watchlist + [Extract(entries[n])];
      assert entries[..n + 1][..n] == entries[..n];
      assert ExtractAll(entries[..n + 1]) == ExtractAll(entries[..n]) + [Extract(entries[n])];
    }
    assert entries[..|entries|] == entries;
  }

  // ---------------------------------------------------------------------------
  // Catalog annotation
  // ---------------------------------------------------------------------------

  /** A movie with its `norm_title` key added. */
  function WithKey(m: Movie): (r: Movie)
    ensures r.normTitle == Some(Normalize(m.title))
    ensures r.title == m.title && r.year == m.year && r.href == m.href
  {
    m.(normTitle := Some(Normalize(m.title)))
  }

  /** The catalog the start-up loop leaves: every movie with its key added, in the same order. */
  function AnnotateAll(movies: seq<Movie>): (annotated: seq<Movie>)
    ensures |annotated| == |movies|
  {
    MapSeq(WithKey, movies)
  }

  /** The movie at `i` is the one loaded at `i` with its key added. */
  lemma AnnotateAllAt(movies: seq<Movie>, i: int)
    requires 0 <= i < |movies|
    ensures AnnotateAll(movies)[i] == WithKey(movies[i])
  {
    MapSeqAt(WithKey, movies, i);
  }

  /** The movie at `i` carries the key of its own title. */
  ghost predicate KeyedAt(catalog: seq<Movie>, i: int)
    requires 0 <= i < |catalog|
  {
    catalog[i].normTitle == Some(Normalize(catalog[i].title))
  }

  /** Every catalog movie carries the key of its own title. */
  ghost predicate Annotated(catalog: seq<Movie>) {
    forall i :: 0 <= i < |catalog| ==> KeyedAt(catalog, i)
  }

  /** After the start-up loop every movie carries the key of its own title. */
  lemma AnnotateAllAnnotated(movies: seq<Movie>)
    ensures Annotated(AnnotateAll(movies))
  {
    forall i | 0 <= i < |movies|
      ensures KeyedAt(AnnotateAll(movies), i)
    {
      AnnotateAllAt(movies, i);
    }
  }

  /** The start-up loop: `movie['norm_title'] = normalize_title(movie['title'])` for each movie. */
  method AnnotateCatalog(catalog: array<Movie>)
    modifies catalog
    ensures catalog[..] == AnnotateAll(old(catalog[..]))
    ensures Annotated(catalog[..])
  {
    ghost var loaded := catalog[..];
    for n := 0 to catalog.Length
      invariant catalog[..n] == AnnotateAll(loaded[..n])
      invariant catalog[n..] == loaded[n..]
    {
      var movie := catalog[n];
      movie := movie.(normTitle := Some(Normalize(movie.title)));
      catalog[n] := movie;
      assert movie == WithKey(loaded[n]);
      assert loaded[..n + 1][..n] == loaded[..n];
      assert AnnotateAll(loaded[..n + 1]) == AnnotateAll(loaded[..n]) + [movie];
      assert catalog[..n + 1] == catalog[..n] + [movie];
    }
    assert catalog[..] == catalog[..catalog.Length];
    assert loaded[..catalog.Length] == loaded;
    AnnotateAllAnnotated(loaded);
  }

  // ---------------------------------------------------------------------------
  // Names of the form "Title (yyyy)"
  // ---------------------------------------------------------------------------

  function Digit(n: int): (c: char)
    requires 0 <= n <= 9
    ensures IsDigit(c) && DigitValue(c) == n
  {
    ('0' as int + n) as char
  }

  /** A year written with four digits, zero-padded. */
  function FourDigits(y: int): (d: string)
    requires 0 <= y <= 9999
    ensures |d| == 4 && forall i :: 0 <= i < 4 ==> IsDigit(d[i])
  {
    var tens := y / 10;
    var hundreds := tens / 10;
    var thousands := hundreds / 10;
    [Digit(thousands), Digit(hundreds % 10), Digit(tens % 10), Digit(y % 10)]
  }

  lemma FourDigitsValue(y: int)
    requires 0 <= y <= 9999
    ensures var d := FourDigits(y);
            1000 * DigitValue(d[0]) + 100 * DigitValue(d[1]) + 10 * DigitValue(d[2]) + DigitValue(d[3]) == y
  {
    var tens := y / 10;
    var hundreds := tens / 10;
    var thousands := hundreds / 10;
    assert y == 10 * tens + y % 10;
    assert tens == 10 * hundreds + tens % 10;
    assert hundreds == 10 * thousands + hundreds % 10;
  }

  /** The watchlist's spelling of a dated title, as in "Inception (2010)". */
  function WithYear(title: string, y: int): string
    requires 0 <= y <= 9999
  {
    title + " (" + FourDigits(y) + ")"
  }

  /** A title with no year token and no whitespace at either end. */
  ghost predicate PlainTitle(title: string) {
    && !HasYearToken(title)
    && (title != [] ==> !IsSpace(title[0]) && !IsSpace(title[|title| - 1]))
  }

  /** The first token of "Title (yyyy)" is the appended one, and it spells `y`. */
  lemma ParseYearWithYear(title: string, y: int)
    requires PlainTitle(title) && 0 <= y <= 9999
    ensures ParseYear(WithYear(title, y)) == Some(y)
  {
    var name := WithYear(title, y);
    var d := FourDigits(y);
    var t := |title| + 1;
    assert name == title + " (" + d + ")";
    assert name[t] == '(' && name[t + 5] == ')';
    assert name[t + 1] == d[0] && name[t + 2] == d[1] && name[t + 3] == d[2] && name[t + 4] == d[3];
    forall j | 0 <= j < t ensures !YearTokenAt(name, j) {
      if j + 6 <= |title| {
        assert name[j..j + 6] == title[j..j + 6];
        assert YearTokenAt(name, j) == YearTokenAt(title, j);
      } else {
        assert name[|title|] == ' ';
      }
    }
    FourDigitsValue(y);
    ParseYearFirstToken(name, t);
  }

  /** Removing the year tokens from "Title (yyyy)" leaves the title. */
  lemma RemoveYearTokensWithYear(title: string, y: int)
    requires PlainTitle(title) && 0 <= y <= 9999
    ensures RemoveYearTokens(WithYear(title, y)) == title
  {
    var d := FourDigits(y);
    assert WithYear(title, y) == title + " " + "(" + d + ")" + [];
    assert AllSpace(" ");
    RemoveYearTokensAtToken(title, " ", d, []);
  }

  /** Extraction takes "Title (yyyy)" apart again: the title and the year come back. */
  lemma ExtractInvertsWithYear(title: string, y: int, url: string)
    requires PlainTitle(title) && 0 <= y <= 9999
    ensures Extract(RawEntry(WithYear(title, y), url)) == Record(title, Normalize(title), Some(y), url)
  {
    var e := RawEntry(WithYear(title, y), url);
    ParseYearWithYear(title, y);
    RemoveYearTokensWithYear(title, y);
    StripSpec(title);
    assert Strip(RemoveYearTokens(e.name)) == title;
    ExtractTitle(e);
  }
}
