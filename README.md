# Letterboxd watchlist against the YouTube free-with-ads catalog

This project models the reconciliation engine of the `/compare` handler in
`app.py`, and the copy of that engine in the debug script
`testing/debug_watchlist.py`. The engine takes a Letterboxd watchlist and
says which of its films appear in the catalog of films YouTube shows free
with ads.

- **Title key** (`TitleKey`). `normalize_title` turns a title into a
  comparison key in six steps:
  1. compatibility decomposition (NFKD);
  2. lower-casing;
  3. `&` becomes `and`;
  4. every character outside `[a-z0-9 ]` is removed;
  5. whitespace runs are collapsed to one space;
  6. the ends are trimmed.

  Each step is a function on `string`. The debug script's copy of the
  normaliser is the same pipeline character for character, so the same
  members model both.
- **Records** (`Records`). A fetched watchlist entry `{name, url}` becomes a
  record `{title, norm_title, year, url}`:
  - the year is the value of the first `(dddd)` token of the name;
  - the title is the name with every `\s*(dddd)` removed, then trimmed.

  The extraction loop appends one record per entry (`BuildWatchlist`). The
  start-up loop writes `norm_title` into every catalog movie in place
  (`AnnotateCatalog`, on an `array<Movie>`).
- **Matching** (`Reconcile`). For each catalog movie, the candidates are the
  watchlist records that:
  - have the same key;
  - have a year on both sides;
  - have years at most one apart.

  The movie then contributes to one of three lists:
  - exactly one candidate gives one match;
  - several candidates give one ambiguous pairing per candidate;
  - no candidate starts a second scan, which reports as a near miss every
    record of equal key where either year is falsy.

  `Reconciled` is the specification of the whole loop; `ReconcileCatalog` is
  the loop itself.
- **Output rows** (`Projections`). The three lists are flattened into the
  JSON rows of the response, in the same length and order.
- **Request classification** (`Service`):
  - no username gives 400;
  - no watchlist, or one without `data`, gives 404;
  - an empty `data` gives 200 with the empty-watchlist message;
  - an exception is answered with 404 when its text mentions `404` or
    "not found" (in any case), and with 500 otherwise.

  `CompareWatchlists` runs the whole handler: classification, then
  extraction, matching and projection.
- **The debug script** (`DebugWatchlist`). It runs the same extraction and
  annotation, then its own matching loop, which differs in two ways:
  - it recomputes each catalog key from the title;
  - its ambiguous note names the record's slug (`"multiple matches, slug: N/A"`,
    because records have no slug).

  The model proves that the recomputed key is the stored one. It also proves
  that the script and the served handler produce the same matches and near
  misses, and the same ambiguous pairings in the same order, differing only
  in the note.

The profile service (`User(username).get_watchlist()`) is not modelled. What
it returned, or the text of the exception it raised, is a parameter `Fetch`.
The catalog read from `youtube_free_with_ads.json` is a parameter too.

## Model

| member | source | states |
|---|---|---|
| TitleKey.Normalize | app.py:9-15 | the key holds only `a-z`, `0-9` and spaces, never two whitespace characters in a row, and no space at either end; an empty title gives an empty key |
| TitleKey.CollapseWhitespaceSpec | app.py:14 | after `re.sub(r'\s+', ' ', s)` the only whitespace left is single plain spaces; the result is empty exactly when the input is; its first character is whitespace exactly when the input's is; every other character comes from the input; the input's non-whitespace characters come out unchanged and in order; the result is exactly the input with every whitespace character turned into a space and every run of spaces merged into one |
| TitleKey.CollapseWhitespace | app.py:14 | collapsing whitespace never makes a string longer |
| TitleKey.CollapseIsMergedBlanks | app.py:14 | the collapse equals an independent definition: blank every whitespace character to a space, then drop every space followed by another |
| TitleKey.CollapseKeepsNonSpace | app.py:14 | the collapse keeps the input's non-whitespace characters, unchanged and in order |
| TitleKey.StripSpec | app.py:14 | `strip()` leaves a contiguous piece of the input that starts and ends with a non-whitespace character, everything cut off before and after that piece is whitespace, and an input that already starts and ends with non-whitespace is left unchanged |
| TitleKey.Strip | app.py:14 | stripping never makes a string longer |
| TitleKey.StripCutsSpaces | app.py:14 | everything `strip()` cuts off after the piece it keeps is whitespace |
| TitleKey.StripKeepsNonSpace | app.py:14 | `strip()` keeps the input's non-whitespace characters, unchanged and in order |
| TitleKey.LeadingSpacesRun | app.py:14 | the leading-whitespace count covers exactly the whitespace run at the front |
| TitleKey.TrailingSpacesRun | app.py:14 | the trailing-whitespace count covers exactly the whitespace run at the back |
| TitleKey.DecomposeCharDecomposed | app.py:11 | every character a character decomposes into decomposes to itself |
| TitleKey.DecomposeIdempotent | app.py:11 | decomposing a decomposed string changes nothing, as for NFKD |
| TitleKey.LowerLeavesNoCapitals | app.py:12 | after lower-casing no `A-Z` is left |
| TitleKey.ReplaceAmpersandLeavesNone | app.py:12 | after `.replace('&', 'and')` no `&` is left |
| TitleKey.KeepKeyCharsAreKeyChars | app.py:13 | after `re.sub(r'[^a-z0-9 ]', '', s)` only `a-z`, `0-9` and spaces are left |
| TitleKey.NormalizeKeepsKeyChars | app.py:11-14 | the key holds exactly the title's key characters (after decomposition, lower-casing and `&` to `and`) other than spaces, in order; only whitespace is collapsed and trimmed |
| TitleKey.NormalizeFixesKeys | app.py:11-15 | a well-formed key passes through every step unchanged |
| TitleKey.NormalizeIdempotent | app.py:9-15 | normalising a key again gives the same key |
| TitleKey.KeyCharsAppend | app.py:11-13 | the character-wise steps (decompose, lower, `&` to `and`, filter) distribute over concatenation |
| TitleKey.SameKeyCharsSameKey | app.py:11-15 | replacing a piece of a title by one with the same key characters keeps the key |
| TitleKey.AmpersandIsAnd | app.py:12 | `&` and the word `and` give the same key anywhere in a title ("Fast & Furious" and "Fast and Furious") |
| TitleKey.NormalizeIgnoresCase | app.py:12 | upper-casing the ASCII letters of any part of a title keeps its key ("FAST AND FURIOUS" and "fast and furious") |
| TitleKey.AccentIgnored | app.py:11 | after decomposition an accented `é` keys as `e` |
| Records.FirstYearTokenFrom | app.py:56 | the search finds the first index from `from` on where a `(dddd)` token starts, and finds none only when no such index exists |
| Records.RemoveYearTokens | app.py:58 | removing the tokens never makes a name longer |
| Records.ParseYear | app.py:56-57 | a parsed year is a four-digit value, 0 to 9999 |
| Records.ParseYearFirstToken | app.py:56-57 | the year is missing exactly when the name holds no `(dddd)` token, and otherwise it is the value of the first token |
| Records.RemoveYearTokensShortens | app.py:58 | removing `\s*(dddd)` changes the name exactly when it holds a token, and then cuts at least six characters |
| Records.RemoveYearTokensKeepsFront | app.py:58 | the first `n` characters survive the removal unchanged when no token starts among them and the last of them is not whitespace |
| Records.RemoveYearTokensKeepsPrefix | app.py:58 | a leading part that ends in a non-space, where no token of the whole name starts, survives the removal unchanged |
| Records.RemoveYearTokensKeepsPlainPrefix | app.py:58 | a leading part with no `(` that ends in a non-space survives the removal unchanged |
| Records.RemoveYearTokensLeadingToken | app.py:58 | whitespace followed by a token at the front of a name is removed, and the removal goes on after the token |
| Records.RemoveYearTokensAtToken | app.py:58 | for a part without a token that ends in a non-space, then whitespace, `(dddd)` and any rest: the part is kept, the whitespace and token are cut, and the rest loses its own tokens, so text after a token survives and later tokens go too |
| Records.RemoveYearTokensFirstToken | app.py:58 | around the first token of any name, the removal is the text before it less the whitespace right before it, followed by the removal of the text after it; with `RemoveYearTokensShortens` for names without a token, this fixes the result for every name |
| Records.Extract | app.py:53-60 | the record keeps the entry's URL, its year is the parsed year of the name, and its key is well-formed |
| Records.ExtractTitleAroundToken | app.py:56-58 | for a name whose first token is at `i`: the title is the stripped text before the token, less the whitespace right before it, followed by the text after it with its own tokens removed; the year is the first token's |
| Records.ExtractTitle | app.py:58-60 | the record's key is the key of its title; the title neither starts nor ends with whitespace; a name without a token gives `name.strip()` and no year; a name with a year loses at least six characters |
| Records.ParseYearWithYear | app.py:56-57 | the year of "Title (yyyy)" is `yyyy` |
| Records.RemoveYearTokensWithYear | app.py:58 | removing the token from "Title (yyyy)" leaves the title, for every title without a year token of its own and without whitespace at either end (so "(500) Days of Summer" is included) |
| Records.ExtractInvertsWithYear | app.py:53-60 | extraction takes "Title (yyyy)" apart again: the title, its key, the year and the URL come back, for every title without a year token of its own and without whitespace at either end |
| Records.ExtractAllAt | app.py:52-60 | the record at position `i` is the one extracted from the entry at position `i` |
| Records.BuildWatchlist | app.py:52-60 | the loop builds one record per entry, in the entries' order |
| Records.WithKey | app.py:21 | annotating a movie sets its key to the key of its title and changes no other field |
| Records.AnnotateAllAt | app.py:20-21 | the annotated movie at `i` is the loaded movie at `i` with its key added |
| Records.AnnotateAllAnnotated | app.py:20-21 | after annotation every movie carries the key of its own title |
| Records.AnnotateCatalog | app.py:20-21 | the loop rewrites the catalog array in place into the annotated catalog, so every movie carries the key of its own title |
| Reconcile.Candidates | app.py:73 | the candidates are never more than the watchlist's records |
| Reconcile.CandidatesMembers | app.py:73 | a record is a candidate exactly when it is in the watchlist with an equal key, a year on both sides (`is not None`) and years at most one apart |
| Reconcile.CandidatesAppend | app.py:73 | the candidate filter keeps watchlist order |
| Reconcile.AmbiguousOf | app.py:76-78 | there is one ambiguous pairing per candidate |
| Reconcile.NearMissesOf | app.py:79-82 | there are never more near misses for a movie than watchlist records |
| Reconcile.EntryBuckets | app.py:71-82 | one iteration appends at most one match, and never to more than one of the three lists |
| Reconcile.AmbiguousOfMembers | app.py:76-78 | the ambiguous pairings for a movie are exactly the movie with each candidate, with that record's note |
| Reconcile.NearMissesOfMembers | app.py:80-82 | the near misses for a movie are exactly the movie with each watchlist record of equal key where either year is falsy, with reason "missing year" |
| Reconcile.CollectAmbiguous | app.py:77-78 | the inner loop appends one ambiguous pairing per candidate, in order |
| Reconcile.CollectNearMisses | app.py:80-82 | the near-miss scan appends exactly the near misses of the whole watchlist, in order |
| Reconcile.MatchMovie | app.py:71-82 | one iteration appends one match for one candidate, all ambiguous pairings for several candidates, and the near misses for none |
| Reconcile.ReconcileCatalog | app.py:67-82 | the matching loop yields the three lists of the engine over the whole catalog, in catalog order |
| Reconcile.EntryOneBucket | app.py:74-82 | each movie lands in one bucket: one match for exactly one candidate, k ambiguous pairings for k > 1 candidates, near misses only for no candidate |
| Reconcile.Reconciled | app.py:70-82 | there are at most as many matches as catalog movies |
| Reconcile.EmptyWatchlistEmptyBuckets | app.py:70-82 | an empty watchlist yields three empty lists |
| Reconcile.MatchesSound | app.py:73-75 | every match pairs a catalog movie with its one and only candidate |
| Reconcile.MatchIsCandidate | app.py:73-75 | the record of a match is in the watchlist and passes the candidate test |
| Reconcile.AmbiguousSound | app.py:76-78 | every ambiguous pairing joins a catalog movie with one of its several candidates and carries the note |
| Reconcile.AmbiguousIsCandidate | app.py:73 | the record of an ambiguous pairing is in the watchlist and passes the candidate test |
| Reconcile.NearMissesSound | app.py:79-82 | every near miss joins a catalog movie without candidates with a watchlist record of equal key where a year is falsy |
| Reconcile.ReconciledKeepsEntry | app.py:70-82 | what the iteration for the movie at `i` appends is in the final lists |
| Reconcile.ReconciledComplete | app.py:70-82 | nothing is dropped: each movie's single match, all its ambiguous pairings, or all its near misses are in the result |
| Reconcile.YearZeroBothWays | app.py:73-81 | a year of 0 counts as present for the candidate test and as missing for the near-miss test |
| Reconcile.YearTolerance | app.py:73 | the tolerance is inclusive: a year apart is a match, two years apart pairs nothing |
| Projections.MatchRows | app.py:96-106 | `matches_out` has one row per match, in order |
| Projections.AmbiguousRows | app.py:107-118 | `ambiguous_out` has one row per ambiguous pairing, in order |
| Projections.NearMissRows | app.py:119-130 | `near_miss_out` has one row per near miss, in order |
| Projections.MatchRowsWithinTolerance | app.py:96-106 | every match row shows two years at most one apart and no label |
| Projections.AmbiguousRowsWithinTolerance | app.py:107-118 | every ambiguous row shows two years at most one apart and the note of its record |
| Projections.NearMissRowsMissYear | app.py:119-130 | every near-miss row shows a falsy year on at least one side and the reason "missing year" |
| Service.MeansNotFoundIff | app.py:140 | the handler's test holds exactly when "404" occurs in the exception's text or "not found" occurs in its lower-cased text |
| Service.ContainsIff | app.py:140 | Python's `t in s` holds exactly when `t` occurs at some index of `s` |
| Service.ExceptionResponse | app.py:139-143 | an exception is answered with 404 exactly when its text contains "404" or, lower-cased, "not found"; otherwise 500 |
| Service.Decide | app.py:32-49 | a falsy username gives 400 whatever else holds; with a username, an exception is answered as its text says; the entries go on to be compared exactly when there is a username, a reply with `data`, and non-empty data, and then they are that data |
| Service.CompareWatchlists | app.py:28-143 | the handler's response is the classification's answer, or the three projected lists of the engine over the extracted watchlist |
| Service.Respond | app.py:32-143 | every response is 200, 400, 404 or 500; it is 200 exactly when it is not an error; a comparison is returned exactly for entries that passed the checks, under the given username, with one row per pair of each of the engine's lists |
| Service.NoUsernameIs400 | app.py:32-33 | without a username the answer is 400, whatever the profile service returns |
| Service.MissingDataIs404 | app.py:40-43 | no reply, or a reply without `data`, gives 404 |
| Service.EmptyDataIs200 | app.py:45-49 | empty `data` gives 200 with the empty-watchlist message |
| Service.NotFoundInAnyCase | app.py:140-141 | an exception saying "not found" in any mix of capitals is answered with 404 |
| Service.OtherExceptionIs500 | app.py:142-143 | any other exception gives 500 with a message that quotes the exception's text |
| DebugWatchlist.AnnotatedHasKeys | testing/debug_watchlist.py:47-48 | after the annotation loop every movie carries a key |
| DebugWatchlist.RecomputeKey | testing/debug_watchlist.py:56 | the key recomputed in the loop equals the key stored by the annotation |
| DebugWatchlist.ScriptReconcile | testing/debug_watchlist.py:55-70 | the script's loop yields the engine's three lists with slug notes |
| DebugWatchlist.RunScript | testing/debug_watchlist.py:30-70 | extraction, then in-place annotation of the catalog array, then matching, give the engine's lists over the extracted watchlist |
| DebugWatchlist.AmbiguousOfAt | testing/debug_watchlist.py:64-65 | the `i`-th ambiguous pairing for a movie pairs it with the `i`-th candidate |
| DebugWatchlist.ScriptAgreesWithServed | testing/debug_watchlist.py:55-70 | the script and the served handler produce the same matches and near misses, and the same ambiguous pairings in the same order, differing only in the note |
| DebugWatchlist.ScriptNotes | testing/debug_watchlist.py:65 | every note in the script reads "multiple matches, slug: N/A"; in the served handler every note reads "multiple matches" |

## Left out

- `TitleKey.DecomposeChar` covers only part of Unicode's compatibility decomposition table: every Latin-1 character (U+00A0 to U+00FF) that has a decomposition, and U+0130, U+212A and the ligatures U+FB01 and U+FB02; and the spaces U+2000 to U+200A, U+202F, U+205F and U+3000, which become a plain space, so that they still separate words in the key. Every other character decomposes to itself. A title with, say, a fullwidth letter or a Latin Extended-A letter such as `ő` keeps that letter here, whereas NFKD would turn the fullwidth letter into ASCII and `ő` into `o` plus a mark; the key filter then drops the letter that NFKD would have kept. Canonical reordering of combining marks is not modelled; the key filter removes those marks anyway.
- `TitleKey.LowerChar` lower-cases only ASCII and Latin-1 capitals. In the key this loses nothing the model can see: capitals outside Latin-1 lower-case to non-ASCII letters, which the key filter drops either way. In the exception test of app.py:140, which lower-cases without decomposing, the only characters outside ASCII whose lower case holds an ASCII letter are U+0130 (to `i` plus a combining dot) and U+212A (to `k`); neither `i` nor `k` occurs in "not found", so lower-casing ASCII only gives the same answer.
- Year tokens use ASCII digits only. Python's `\d` also matches other Unicode decimal digits.
- JSON values are typed:
  - the catalog year is `Option<int>`; a missing `year` key and `null` are both `None`, and non-integer years are not modelled;
  - the username is `Option<string>`.
- The Flask app is not modelled: routes, `request.get_json`, `jsonify`, the HTTP status line and `app.run`. A response is a datatype carrying its status.
- The profile service is a parameter (`Service.Fetch`):
  - the watchlist's `data` dictionary is the sequence of its `.values()` in order;
  - a reply's truth value is "it has at least one key".
- Exceptions raised during extraction or matching are not modelled, for example a `KeyError` on an entry without `name`, or a `TypeError` on a non-numeric year. The handler at app.py:139-143 would turn those into 404/500 answers too; the model applies that handler only to the fetch.
- Console and file I/O are not modelled:
  - loading the catalog JSON (app.py:18-19, testing/debug_watchlist.py:44-45);
  - every `print`;
  - the sorted watchlist of app.py:63 (and testing/debug_watchlist.py:41), which is only printed.
- The debug script's fixed username and its fetch (testing/debug_watchlist.py:6, 16) become the `entries` parameter of `DebugWatchlist.RunScript`. A reply without `data` would raise there and is not modelled.
- `Reconcile.MatchMovie` returns what one iteration appends, and the outer loop concatenates it onto the three lists. In the source the inner loops append to those lists directly; the resulting lists are the same.
- `Reconcile.ReconcileCatalog` and `DebugWatchlist.ScriptReconcile` take the catalog as a value, because the matching loop only reads it. Only the annotation loop writes to the catalog, and it is modelled on an array.
- jsonfilter.py, appOld.py, testing/debug_ytscript.py, lbxdscripttest.py, moviescraper.js and the static JavaScript files are not part of this model. They handle scraping, sorting for display and browser UI.
