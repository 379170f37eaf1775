/**
 * The debug script testing/debug_watchlist.py. It repeats the normaliser, the
 * extraction loop (lines 30-38) and the catalog annotation (lines 47-48) of
 * app.py, modelled here by the same members, and runs its own matching loop
 * (lines 55-70): the key of each catalog movie is recomputed from its title,
 * and an ambiguous pairing is noted with the record's slug.
 */
module DebugWatchlist {
  import opened TitleKey
  import opened Records
  import opened Reconcile

  /** An annotated catalog carries a key on every movie. */
  lemma AnnotatedHasKeys(catalog: seq<Movie>)
    requires Annotated(catalog)
    ensures HasKeys(catalog)
  {
    forall i | 0 <= i < |catalog| ensures catalog[i].normTitle.Some? {
      assert KeyedAt(catalog, i);
    }
  }

  /** `normalize_title(yt['title'])` for the movie at `n`: the key the annotation stored. */
  method RecomputeKey(catalog: seq<Movie>, n: int) returns (key: string)
    requires Annotated(catalog) && 0 <= n < |catalog|
    ensures catalog[n].normTitle.Some? && key == KeyOf(catalog[n])
  {
    assert KeyedAt(catalog, n);
    key := Normalize(catalog[n].title);
  }

  /**
   * The script's matching loop. The key it recomputes, `normalize_title(yt['title'])`,
   * is the key the annotation stored, so the loop is the engine with slug notes.
   */
  method ScriptReconcile(catalog: seq<Movie>, watchlist: seq<Record>)
    returns (matches: seq<Pair>, ambiguous: seq<Ambiguous>, nearMisses: seq<NearMiss>)
    requires Annotated(catalog)
    ensures HasKeys(catalog)
    ensures Buckets(matches, ambiguous, nearMisses) == Reconciled(catalog, watchlist, Script)
  {
    AnnotatedHasKeys(catalog);
    matches, ambiguous, nearMisses := [], [], [];
    for n := 0 to |catalog|
      invariant Buckets(matches, ambiguous, nearMisses) == Reconciled(catalog[..n], watchlist, Script)
    {
      var yt := catalog[n];
      var ytNormTitle := RecomputeKey(catalog, n);
      var m, a, nm := MatchMovie(yt, ytNormTitle, watchlist, Script);
      matches, ambiguous, nearMisses := matches + m, ambiguous + a, nearMisses + nm;
      assert catalog[..n + 1][..n] == catalog[..n];
    }
    assert catalog[..|catalog|] == catalog;
  }

  /** The whole script on a fetched watchlist and a loaded catalog: extract, annotate, match. */
  method RunScript(entries: seq<RawEntry>, catalog: array<Movie>)
    returns (matches: seq<Pair>, ambiguous: seq<Ambiguous>, nearMisses: seq<NearMiss>)
    modifies catalog
    ensures catalog[..] == AnnotateAll(old(catalog[..]))
    ensures HasKeys(catalog[..])
    ensures Buckets(matches, ambiguous, nearMisses) == Reconciled(catalog[..], ExtractAll(entries), Script)
  {
    var watchlist := BuildWatchlist(entries);
    AnnotateCatalog(catalog);
    matches, ambiguous, nearMisses := ScriptReconcile(catalog[..], watchlist);
  }

  /** The `i`-th ambiguous pairing for `yt` is `yt` with the `i`-th record, noted as the mode notes it. */
  lemma {:induction false} AmbiguousOfAt(yt: Movie, lbs: seq<Record>, mode: Mode, i: int)
    requires 0 <= i < |lbs|
    ensures AmbiguousOf(yt, lbs, mode)[i] == Ambiguous(yt, lbs[i], NoteFor(mode, lbs[i]))
  {
    var n := |lbs| - 1;
    if i < n {
      AmbiguousOfAt(yt, lbs[..n], mode, i);
    }
  }

  /**
   * The script and the served handler agree on every annotated catalog: the
   * same matches and near misses, and the same ambiguous pairings in the same
   * order, differing only in the note.
   */
  lemma {:induction false} ScriptAgreesWithServed(catalog: seq<Movie>, watchlist: seq<Record>)
    requires HasKeys(catalog)
    ensures var script := Reconciled(catalog, watchlist, Script);
            var served := Reconciled(catalog, watchlist, Served);
            && script.matches == served.matches
            && script.nearMisses == served.nearMisses
            && |script.ambiguous| == |served.ambiguous|
            && forall i :: 0 <= i < |script.ambiguous| ==>
                 script.ambiguous[i] == served.ambiguous[i].(note := SlugNotePrefix + NoSlug)
  {
    if catalog != [] {
      var n := |catalog| - 1;
      ScriptAgreesWithServed(catalog[..n], watchlist);
      var yt := catalog[n];
      var c := Candidates(watchlist, KeyOf(yt), yt.year);
      var prefixScript := Reconciled(catalog[..n], watchlist, Script).ambiguous;
      var prefixServed := Reconciled(catalog[..n], watchlist, Served).ambiguous;
      var script := Reconciled(catalog, watchlist, Script).ambiguous;
      var served := Reconciled(catalog, watchlist, Served).ambiguous;
      forall i | 0 <= i < |script|
        ensures script[i] == served[i].(note := SlugNotePrefix + NoSlug)
      {
        if i >= |prefixScript| && |c| > 1 {
          var k := i - |prefixScript|;
          AmbiguousOfAt(yt, c, Script, k);
          AmbiguousOfAt(yt, c, Served, k);
        }
      }
    }
  }

  /** In the script every ambiguous note reads "multiple matches, slug: N/A"; served, it reads "multiple matches". */
  lemma ScriptNotes(catalog: seq<Movie>, watchlist: seq<Record>)
    requires HasKeys(catalog)
    ensures forall a :: a in Reconciled(catalog, watchlist, Script).ambiguous ==> a.note == SlugNotePrefix + NoSlug
    ensures forall a :: a in Reconciled(catalog, watchlist, Served).ambiguous ==> a.note == MultipleMatches
  {
    AmbiguousSound(catalog, watchlist, Script);
    AmbiguousSound(catalog, watchlist, Served);
  }
}
