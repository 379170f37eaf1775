/**
 * The matching engine of the /compare handler (app.py lines 66-82): every
 * catalog movie is compared with the normalised watchlist and sorted into
 * one of three buckets — a match (exactly one candidate), ambiguous pairs
 * (several candidates) or near misses (no candidate, but an equal key with a
 * missing year on one side).
 *
 * The debug script testing/debug_watchlist.py runs the same loop with two
 * differences: it recomputes the key from the title instead of reading the
 * stored one (the same value once the catalog is annotated, see the module
 * DebugWatchlist), and its ambiguity note names the slug. `Mode` selects the
 * note.
 */
module Reconcile {
  import opened Wrappers
  import opened Records

  /** A match: `{'yt': yt, 'lb': lb}`. */
  datatype Pair = Pair(yt: Movie, lb: Record)

  /** An ambiguous pairing: `{'yt': yt, 'lb': lb, 'note': ...}`. */
  datatype Ambiguous = Ambiguous(yt: Movie, lb: Record, note: string)

  /** A near miss: `{'yt': yt, 'lb': lb, 'reason': 'missing year'}`. */
  datatype NearMiss = NearMiss(yt: Movie, lb: Record, reason: string)

  /** The three lists the loop appends to. */
  datatype Buckets = Buckets(matches: seq<Pair>, ambiguous: seq<Ambiguous>, nearMisses: seq<NearMiss>)

  /** The note style: the served handler writes a plain note, the debug script names the slug. */
  datatype Mode = Served | Script

  const MultipleMatches := "multiple matches"
  const SlugNotePrefix := "multiple matches, slug: "
  const NoSlug := "N/A"
  const MissingYear := "missing year"

  function Abs(x: int): (r: nat)
    ensures r == x || r == -x
  {
    if x < 0 then -x else x
  }

  /** Python's truth test on a year: `None` and `0` are both false. */
  predicate Falsy(year: Option<int>) {
    year.None? || year.value == 0
  }

  /**
   * The candidate test of the comprehension: equal keys, a year on both sides
   * (`is not None`, so 0 counts as a year) and at most one year apart.
   */
  predicate IsCandidate(key: string, year: Option<int>, lb: Record) {
    && lb.normTitle == key
    && lb.year.Some? && year.Some?
    && Abs(lb.year.value - year.value) <= 1
  }

  /** The near-miss test: equal keys and a falsy year on either side. */
  predicate IsNearMiss(key: string, year: Option<int>, lb: Record) {
    key == lb.normTitle && (Falsy(year) || Falsy(lb.year))
  }

  /** The candidate list `lb_matches`: the candidates among the watchlist records, in watchlist order. */
  function Candidates(watchlist: seq<Record>, key: string, year: Option<int>): (c: seq<Record>)
    ensures |c| <= |watchlist|
  {
    if watchlist == [] then []
    else
      var last := watchlist[|watchlist| - 1];
      Candidates(watchlist[..|watchlist| - 1], key, year) + (if IsCandidate(key, year, last) then [last] else [])
  }

  /** The candidate list holds exactly the watchlist records that pass the candidate test. */
  lemma {:induction false} CandidatesMembers(watchlist: seq<Record>, key: string, year: Option<int>)
    ensures forall lb :: lb in Candidates(watchlist, key, year) <==> lb in watchlist && IsCandidate(key, year, lb)
  {
    if watchlist != [] {
      var init := watchlist[..|watchlist| - 1];
      CandidatesMembers(init, key, year);
      assert watchlist == init + [watchlist[|watchlist| - 1]];
    }
  }

  /** Every catalog movie carries a key, as the start-up loop leaves it. */
  predicate HasKeys(catalog: seq<Movie>) {
    forall i :: 0 <= i < |catalog| ==> catalog[i].normTitle.Some?
  }

  /** The key the loop compares for catalog movie `yt`: `yt['norm_title']`. */
  function KeyOf(yt: Movie): string
    requires yt.normTitle.Some?
  {
    yt.normTitle.value
  }

  /** `lb.get('slug', 'N/A')`: watchlist records never carry a slug key, so this is always the default. */
  function Slug(lb: Record): string {
    NoSlug
  }

  /** The note of an ambiguous pairing. */
  function NoteFor(mode: Mode, lb: Record): string {
    match mode
    case Served => MultipleMatches
    case Script => SlugNotePrefix + Slug(lb)
  }

  /** The ambiguous pairings for `yt`, one per record of `lbs`, in order. */
  function AmbiguousOf(yt: Movie, lbs: seq<Record>, mode: Mode): (r: seq<Ambiguous>)
    ensures |r| == |lbs|
  {
    if lbs == [] then []
    else
      var last := lbs[|lbs| - 1];
      AmbiguousOf(yt, lbs[..|lbs| - 1], mode) + [Ambiguous(yt, last, NoteFor(mode, last))]
  }

  /** The ambiguous pairings are exactly `yt` paired with each record of `lbs`, noted as the mode notes them. */
  lemma {:induction false} AmbiguousOfMembers(yt: Movie, lbs: seq<Record>, mode: Mode)
    ensures forall a :: a in AmbiguousOf(yt, lbs, mode) <==> a.yt == yt && a.lb in lbs && a.note == NoteFor(mode, a.lb)
  {
    if lbs != [] {
      var init := lbs[..|lbs| - 1];
      AmbiguousOfMembers(yt, init, mode);
      assert lbs == init + [lbs[|lbs| - 1]];
    }
  }

  /** The near misses for `yt`: the near-miss records of the whole watchlist, in order. */
  function NearMissesOf(yt: Movie, key: string, watchlist: seq<Record>): (r: seq<NearMiss>)
    ensures |r| <= |watchlist|
  {
    if watchlist == [] then []
    else
      var last := watchlist[|watchlist| - 1];
      NearMissesOf(yt, key, watchlist[..|watchlist| - 1])
        + (if IsNearMiss(key, yt.year, last) then [NearMiss(yt, last, MissingYear)] else [])
  }

  /** The near misses are exactly `yt` paired with each near-miss record of the watchlist, for a missing year. */
  lemma {:induction false} NearMissesOfMembers(yt: Movie, key: string, watchlist: seq<Record>)
    ensures forall nm :: nm in NearMissesOf(yt, key, watchlist) <==>
              nm.yt == yt && nm.lb in watchlist && IsNearMiss(key, yt.year, nm.lb) && nm.reason == MissingYear
  {
    if watchlist != [] {
      var init := watchlist[..|watchlist| - 1];
      NearMissesOfMembers(yt, key, init);
      assert watchlist == init + [watchlist[|watchlist| - 1]];
    }
  }

  /** What one iteration of the matching loop appends, for catalog movie `yt`. */
  function EntryBuckets(yt: Movie, watchlist: seq<Record>, mode: Mode): (b: Buckets)
    requires yt.normTitle.Some?
    ensures |b.matches| <= 1
    ensures b.matches != [] ==> b.ambiguous == [] && b.nearMisses == []
    ensures b.ambiguous != [] ==> b.nearMisses == []
  {
    var key := KeyOf(yt);
    var c := Candidates(watchlist, key, yt.year);
    if |c| == 1 then Buckets([Pair(yt, c[0])], [], [])
    else if |c| > 1 then Buckets([], AmbiguousOf(yt, c, mode), [])
    else Buckets([], [], NearMissesOf(yt, key, watchlist))
  }

  function Join(a: Buckets, b: Buckets): Buckets {
    Buckets(a.matches + b.matches, a.ambiguous + b.ambiguous, a.nearMisses + b.nearMisses)
  }

  /** The three lists after the matching loop has run over the whole catalog, in catalog order. */
  function Reconciled(catalog: seq<Movie>, watchlist: seq<Record>, mode: Mode): (r: Buckets)
    requires HasKeys(catalog)
    ensures |r.matches| <= |catalog|
  {
    if catalog == [] then Buckets([], [], [])
    else
      var n := |catalog| - 1;
      Join(Reconciled(catalog[..n], watchlist, mode), EntryBuckets(catalog[n], watchlist, mode))
  }

  // ---------------------------------------------------------------------------
  // The loop of app.py
  // ---------------------------------------------------------------------------

  /** The inner loop over several candidates: one ambiguous pairing per candidate. */
  method CollectAmbiguous(yt: Movie, lbMatches: seq<Record>, mode: Mode) returns (ambiguous: seq<Ambiguous>)
    ensures ambiguous == AmbiguousOf(yt, lbMatches, mode)
  {
    ambiguous := [];
    for k := 0 to |lbMatches|
      invariant ambiguous == AmbiguousOf(yt, lbMatches[..k], mode)
    {
      assert lbMatches[..k + 1][..k] == lbMatches[..k];
      ambiguous := ambiguous + [Ambiguous(yt, lbMatches[k], NoteFor(mode, lbMatches[k]))];
    }
    assert lbMatches[..|lbMatches|] == lbMatches;
  }

  /** The inner loop when there is no candidate: scan the whole watchlist for near misses. */
  method CollectNearMisses(yt: Movie, key: string, watchlist: seq<Record>) returns (nearMisses: seq<NearMiss>)
    ensures nearMisses == NearMissesOf(yt, key, watchlist)
  {
    nearMisses := [];
    var year := yt.year;
    for j := 0 to |watchlist|
      invariant nearMisses == NearMissesOf(yt, key, watchlist[..j])
    {
      var lb := watchlist[j];
      assert watchlist[..j + 1][..j] == watchlist[..j];
      if key == lb.normTitle && (Falsy(year) || Falsy(lb.year)) {
        nearMisses := nearMisses + [NearMiss(yt, lb, MissingYear)];
      }
    }
    assert watchlist[..|watchlist|] == watchlist;
  }

  /**
   * One iteration of the matching loop for catalog movie `yt` compared under
   * `key`: what it appends to each of the three lists.
   */
  method MatchMovie(yt: Movie, key: string, watchlist: seq<Record>, mode: Mode)
    returns (matches: seq<Pair>, ambiguous: seq<Ambiguous>, nearMisses: seq<NearMiss>)
    requires yt.normTitle.Some?
    requires key == KeyOf(yt)
    ensures Buckets(matches, ambiguous, nearMisses) == EntryBuckets(yt, watchlist, mode)
  {
    matches, ambiguous, nearMisses := [], [], [];
    var lbMatches := Candidates(watchlist, key, yt.year);
    if |lbMatches| == 1 {
      matches := [Pair(yt, lbMatches[0])];
    } else if |lbMatches| > 1 {
      ambiguous := CollectAmbiguous(yt, lbMatches, mode);
    } else {
      nearMisses := CollectNearMisses(yt, key, watchlist);
    }
  }

  /** The matching loop of the served handler, over an annotated catalog. */
  method ReconcileCatalog(catalog: seq<Movie>, watchlist: seq<Record>)
    returns (matches: seq<Pair>, ambiguous: seq<Ambiguous>, nearMisses: seq<NearMiss>)
    requires HasKeys(catalog)
    ensures Buckets(matches, ambiguous, nearMisses) == Reconciled(catalog, watchlist, Served)
  {
    matches, ambiguous, nearMisses := [], [], [];
    for n := 0 to |catalog|
      invariant Buckets(matches, ambiguous, nearMisses) == Reconciled(catalog[..n], watchlist, Served)
    {
      var yt := catalog[n];
      var m, a, nm := MatchMovie(yt, yt.normTitle.value, watchlist, Served);
      matches, ambiguous, nearMisses := matches + m, ambiguous + a, nearMisses + nm;
      assert catalog[..n + 1][..n] == catalog[..n];
    }
    assert catalog[..|catalog|] == catalog;
  }

  // ---------------------------------------------------------------------------
  // Properties of the engine
  // ---------------------------------------------------------------------------

  /** The candidate filter keeps watchlist order: filtering a concatenation concatenates the filtered parts. */
  lemma {:induction false} CandidatesAppend(a: seq<Record>, b: seq<Record>, key: string, year: Option<int>)
    ensures Candidates(a + b, key, year) == Candidates(a, key, year) + Candidates(b, key, year)
    decreases |b|
  {
    if b == [] {
      assert a + b == a;
    } else {
      var init := b[..|b| - 1];
      CandidatesAppend(a, init, key, year);
      assert (a + b)[..|a + b| - 1] == a + init;
    }
  }

  /**
   * Each catalog movie lands in one bucket only: one match for one candidate,
   * one ambiguous pairing per candidate for several, near misses only for none.
   */
  lemma EntryOneBucket(yt: Movie, watchlist: seq<Record>, mode: Mode)
    requires yt.normTitle.Some?
    ensures var b := EntryBuckets(yt, watchlist, mode);
            var c := Candidates(watchlist, KeyOf(yt), yt.year);
            && |b.matches| == (if |c| == 1 then 1 else 0)
            && |b.ambiguous| == (if |c| > 1 then |c| else 0)
            && (b.nearMisses != [] ==> c == [])
  {
  }

  /** An empty watchlist yields three empty lists. */
  lemma {:induction false} EmptyWatchlistEmptyBuckets(catalog: seq<Movie>, mode: Mode)
    requires HasKeys(catalog)
    ensures Reconciled(catalog, [], mode) == Buckets([], [], [])
  {
    if catalog != [] {
      EmptyWatchlistEmptyBuckets(catalog[..|catalog| - 1], mode);
    }
  }

  /** `p` pairs a movie with its one and only candidate. */
  predicate IsMatchFor(p: Pair, watchlist: seq<Record>) {
    && p.yt.normTitle.Some?
    && Candidates(watchlist, KeyOf(p.yt), p.yt.year) == [p.lb]
  }

  /** `a` pairs a movie with one of its several candidates, noted as the mode notes it. */
  predicate IsAmbiguousFor(a: Ambiguous, watchlist: seq<Record>, mode: Mode) {
    && a.yt.normTitle.Some?
    && var c := Candidates(watchlist, KeyOf(a.yt), a.yt.year);
    && |c| > 1 && a.lb in c
    && a.note == NoteFor(mode, a.lb)
  }

  /** `nm` pairs a movie without candidates with a record of equal key where a year is falsy. */
  predicate IsNearMissFor(nm: NearMiss, watchlist: seq<Record>) {
    && nm.yt.normTitle.Some?
    && Candidates(watchlist, KeyOf(nm.yt), nm.yt.year) == []
    && nm.lb in watchlist
    && IsNearMiss(KeyOf(nm.yt), nm.yt.year, nm.lb)
    && nm.reason == MissingYear
  }

  /** Every match pairs a catalog movie with its one and only candidate. */
  lemma {:induction false} MatchesSound(catalog: seq<Movie>, watchlist: seq<Record>, mode: Mode)
    requires HasKeys(catalog)
    ensures forall p :: p in Reconciled(catalog, watchlist, mode).matches ==>
              p.yt in catalog && IsMatchFor(p, watchlist)
  {
    if catalog != [] {
      var n := |catalog| - 1;
      MatchesSound(catalog[..n], watchlist, mode);
      assert catalog == catalog[..n] + [catalog[n]];
    }
  }

  /** The one candidate of a match passes the candidate test. */
  lemma MatchIsCandidate(p: Pair, watchlist: seq<Record>)
    requires IsMatchFor(p, watchlist)
    ensures p.lb in watchlist && IsCandidate(KeyOf(p.yt), p.yt.year, p.lb)
  {
    CandidatesMembers(watchlist, KeyOf(p.yt), p.yt.year);
  }

  /** Every ambiguous pairing joins a catalog movie with one of its several candidates. */
  lemma {:induction false} AmbiguousSound(catalog: seq<Movie>, watchlist: seq<Record>, mode: Mode)
    requires HasKeys(catalog)
    ensures forall a :: a in Reconciled(catalog, watchlist, mode).ambiguous ==>
              a.yt in catalog && IsAmbiguousFor(a, watchlist, mode)
  {
    if catalog != [] {
      var n := |catalog| - 1;
      AmbiguousSound(catalog[..n], watchlist, mode);
      var yt := catalog[n];
      AmbiguousOfMembers(yt, Candidates(watchlist, KeyOf(yt), yt.year), mode);
      assert catalog == catalog[..n] + [yt];
    }
  }

  /** An ambiguous pairing's record passes the candidate test. */
  lemma AmbiguousIsCandidate(a: Ambiguous, watchlist: seq<Record>, mode: Mode)
    requires IsAmbiguousFor(a, watchlist, mode)
    ensures a.lb in watchlist && IsCandidate(KeyOf(a.yt), a.yt.year, a.lb)
  {
    CandidatesMembers(watchlist, KeyOf(a.yt), a.yt.year);
  }

  /** Every near miss joins a catalog movie that has no candidate with a record of equal key and a falsy year. */
  lemma {:induction false} NearMissesSound(catalog: seq<Movie>, watchlist: seq<Record>, mode: Mode)
    requires HasKeys(catalog)
    ensures forall nm :: nm in Reconciled(catalog, watchlist, mode).nearMisses ==>
              nm.yt in catalog && IsNearMissFor(nm, watchlist)
  {
    if catalog != [] {
      var n := |catalog| - 1;
      NearMissesSound(catalog[..n], watchlist, mode);
      var yt := catalog[n];
      NearMissesOfMembers(yt, KeyOf(yt), watchlist);
      assert catalog == catalog[..n] + [yt];
    }
  }

  /** What the iteration for the movie at `i` appends survives into the final lists. */
  lemma {:induction false} ReconciledKeepsEntry(catalog: seq<Movie>, watchlist: seq<Record>, mode: Mode, i: int)
    requires HasKeys(catalog)
    requires 0 <= i < |catalog|
    ensures var r := Reconciled(catalog, watchlist, mode);
            var e := EntryBuckets(catalog[i], watchlist, mode);
            && (forall p :: p in e.matches ==> p in r.matches)
            && (forall a :: a in e.ambiguous ==> a in r.ambiguous)
            && (forall nm :: nm in e.nearMisses ==> nm in r.nearMisses)
  {
    var n := |catalog| - 1;
    if i < n {
      ReconciledKeepsEntry(catalog[..n], watchlist, mode, i);
      assert catalog[..n][i] == catalog[i];
    }
  }

  /**
   * Nothing is dropped: the movie at `i` contributes its match, all its
   * ambiguous pairings or all its near misses to the result.
   */
  lemma ReconciledComplete(catalog: seq<Movie>, watchlist: seq<Record>, mode: Mode, i: int)
    requires HasKeys(catalog)
    requires 0 <= i < |catalog|
    ensures var r := Reconciled(catalog, watchlist, mode);
            var yt := catalog[i];
            var key := KeyOf(yt);
            var c := Candidates(watchlist, key, yt.year);
            && (|c| == 1 ==> Pair(yt, c[0]) in r.matches)
            && (|c| > 1 ==> forall lb :: lb in c ==> Ambiguous(yt, lb, NoteFor(mode, lb)) in r.ambiguous)
            && (c == [] ==> forall lb :: lb in watchlist && IsNearMiss(key, yt.year, lb) ==>
                  NearMiss(yt, lb, MissingYear) in r.nearMisses)
  {
    var yt := catalog[i];
    var key := KeyOf(yt);
    ReconciledKeepsEntry(catalog, watchlist, mode, i);
    AmbiguousOfMembers(yt, Candidates(watchlist, key, yt.year), mode);
    NearMissesOfMembers(yt, key, watchlist);
  }

  /**
   * The year 0 counts as present for the candidate test but as missing for the
   * near-miss test: a movie of year 0 is matched to a watchlist entry of year
   * 1, and reported as a near miss of an entry of year 5.
   */
  lemma YearZeroBothWays(key: string, title: string, href: string, lbTitle: string, url: string)
    ensures var yt := Movie(title, Some(0), href, Some(key));
            var one := Record(lbTitle, key, Some(1), url);
            var five := Record(lbTitle, key, Some(5), url);
            && EntryBuckets(yt, [one], Served) == Buckets([Pair(yt, one)], [], [])
            && EntryBuckets(yt, [five], Served) == Buckets([], [], [NearMiss(yt, five, MissingYear)])
  {
    var yt := Movie(title, Some(0), href, Some(key));
    var five := Record(lbTitle, key, Some(5), url);
    assert [five][..0] == [];
  }

  /** The tolerance is inclusive and one year wide: a year apart matches, two years apart pairs nothing. */
  lemma YearTolerance(key: string, title: string, href: string, lbTitle: string, url: string, y: int)
    requires y != 0 && y + 1 != 0 && y + 2 != 0
    ensures var yt := Movie(title, Some(y), href, Some(key));
            var next := Record(lbTitle, key, Some(y + 1), url);
            var later := Record(lbTitle, key, Some(y + 2), url);
            && EntryBuckets(yt, [next], Served) == Buckets([Pair(yt, next)], [], [])
            && EntryBuckets(yt, [later], Served) == Buckets([], [], [])
  {
    var yt := Movie(title, Some(y), href, Some(key));
    var later := Record(lbTitle, key, Some(y + 2), url);
    assert [later][..0] == [];
  }
}
