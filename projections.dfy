/**
 * The rows of the /compare response (app.py lines 96-130): each match,
 * ambiguous pairing and near miss is flattened into the movie's title, year
 * and link and the watchlist record's title, year and URL, plus the note or
 * the reason. Each list keeps the length and order of the list it projects.
 */
module Projections {
  import opened Wrappers
  import opened Records
  import opened Reconcile

  /** The extra key of a row: none for a match, `note` for an ambiguous pairing, `reason` for a near miss. */
  datatype Label = NoLabel | Note(note: string) | Reason(reason: string)

  /** `{"yt_title", "yt_year", "yt_href", "lb_title", "lb_year", "lb_url"}` and the label. */
  datatype Row = Row(
    ytTitle: string, ytYear: Option<int>, ytHref: string,
    lbTitle: string, lbYear: Option<int>, lbUrl: string,
    extra: Label)

  function PairRow(yt: Movie, lb: Record, extra: Label): Row {
    Row(yt.title, yt.year, yt.href, lb.title, lb.year, lb.url, extra)
  }

  /** `matches_out`. */
  function MatchRows(matches: seq<Pair>): (rows: seq<Row>)
    ensures |rows| == |matches|
  {
    seq(|matches|, i requires 0 <= i < |matches| => PairRow(matches[i].yt, matches[i].lb, NoLabel))
  }

  /** `ambiguous_out`. */
  function AmbiguousRows(ambiguous: seq<Ambiguous>): (rows: seq<Row>)
    ensures |rows| == |ambiguous|
  {
    seq(|ambiguous|, i requires 0 <= i < |ambiguous| => PairRow(ambiguous[i].yt, ambiguous[i].lb, Note(ambiguous[i].note)))
  }

  /** `near_miss_out`. */
  function NearMissRows(nearMisses: seq<NearMiss>): (rows: seq<Row>)
    ensures |rows| == |nearMisses|
  {
    seq(|nearMisses|, i requires 0 <= i < |nearMisses| => PairRow(nearMisses[i].yt, nearMisses[i].lb, Reason(nearMisses[i].reason)))
  }

  /** Both years within one year of each other, as every paired row of a candidate shows. */
  predicate WithinTolerance(row: Row) {
    row.ytYear.Some? && row.lbYear.Some? && Abs(row.lbYear.value - row.ytYear.value) <= 1
  }

  /** Every row of `matches_out` shows two years at most one apart and no label. */
  lemma MatchRowsWithinTolerance(catalog: seq<Movie>, watchlist: seq<Record>, mode: Mode)
    requires HasKeys(catalog)
    ensures var rows := MatchRows(Reconciled(catalog, watchlist, mode).matches);
            forall i :: 0 <= i < |rows| ==> WithinTolerance(rows[i]) && rows[i].extra == NoLabel
  {
    var matches := Reconciled(catalog, watchlist, mode).matches;
    MatchesSound(catalog, watchlist, mode);
    forall i | 0 <= i < |matches|
      ensures WithinTolerance(MatchRows(matches)[i])
    {
      assert matches[i] in matches;
      MatchIsCandidate(matches[i], watchlist);
    }
  }

  /** Every row of `ambiguous_out` shows two years at most one apart and the note of the mode. */
  lemma AmbiguousRowsWithinTolerance(catalog: seq<Movie>, watchlist: seq<Record>, mode: Mode)
    requires HasKeys(catalog)
    ensures var ambiguous := Reconciled(catalog, watchlist, mode).ambiguous;
            var rows := AmbiguousRows(ambiguous);
            forall i :: 0 <= i < |rows| ==>
              WithinTolerance(rows[i]) && rows[i].extra == Note(NoteFor(mode, ambiguous[i].lb))
  {
    var ambiguous := Reconciled(catalog, watchlist, mode).ambiguous;
    AmbiguousSound(catalog, watchlist, mode);
    forall i | 0 <= i < |ambiguous|
      ensures WithinTolerance(AmbiguousRows(ambiguous)[i])
    {
      assert ambiguous[i] in ambiguous;
      AmbiguousIsCandidate(ambiguous[i], watchlist, mode);
    }
  }

  /** Every row of `near_miss_out` shows a falsy year on at least one side and the reason "missing year". */
  lemma NearMissRowsMissYear(catalog: seq<Movie>, watchlist: seq<Record>, mode: Mode)
    requires HasKeys(catalog)
    ensures var rows := NearMissRows(Reconciled(catalog, watchlist, mode).nearMisses);
            forall i :: 0 <= i < |rows| ==>
              (Falsy(rows[i].ytYear) || Falsy(rows[i].lbYear)) && rows[i].extra == Reason(MissingYear)
  {
    var nearMisses := Reconciled(catalog, watchlist, mode).nearMisses;
    NearMissesSound(catalog, watchlist, mode);
    forall i | 0 <= i < |nearMisses|
      ensures var row := NearMissRows(nearMisses)[i];
              (Falsy(row.ytYear) || Falsy(row.lbYear)) && row.extra == Reason(MissingYear)
    {
      assert nearMisses[i] in nearMisses;
    }
  }
}
