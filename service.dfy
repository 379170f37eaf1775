/**
 * The /compare handler (app.py lines 27-143) around the engine: the checks on
 * the username and on what the profile service returned, the status each
 * failure answers with, and the pipeline extraction, matching, projection for
 * a watchlist with entries.
 *
 * The profile service is not modelled: what `User(username).get_watchlist()`
 * does is a parameter, `Fetch`, holding either the reply or the text of the
 * exception it raised.
 */
module Service {
  import opened Wrappers
  import opened TitleKey
  import opened Records
  import opened Reconcile
  import opened Projections

  /** The dictionary `get_watchlist()` returns: its keys and, under `data`, the entries in order. */
  datatype Reply = Reply(keys: set<string>, data: seq<RawEntry>)

  /** The outcome of fetching the watchlist: a reply (`None` when nothing came back) or an exception's text. */
  datatype Fetch = Returned(reply: Option<Reply>) | Raised(text: string)

  /** The JSON body of the answer; `Failure` carries its own status. */
  datatype Response =
    | Failure(status: int, error: string)
    | EmptyWatchlist(message: string)
    | Compared(username: string, matches: seq<Row>, ambiguous: seq<Row>, nearMisses: seq<Row>)

  const NoUsernameError := "\U{274C} Please enter a Letterboxd username before comparing."
  const NotFoundError := "\U{26A0}\U{FE0F} Username not found. Please enter a valid Letterboxd username."
  const EmptyMessage := "\U{1F4ED} Your watchlist is empty. Please add movies to your watchlist on Letterboxd."
  const ServerErrorPrefix := "\U{26A0}\U{FE0F} Server error: "

  /** The HTTP status of a response: 200 unless it is a failure. */
  function Status(r: Response): int {
    if r.Failure? then r.status else 200
  }

  /** Python's truth test on the username: a missing one and the empty string are false. */
  predicate FalsyName(username: Option<string>) {
    username.None? || username.value == []
  }

  /** `t in s`: `t` occurs in `s` as a contiguous piece. */
  function Contains(s: string, t: string): bool
    decreases |s|
  {
    if |s| < |t| then false
    else s[..|t|] == t || Contains(s[1..], t)
  }

  /** `t` sits in `s` at index `i`. */
  predicate OccursAt(s: string, t: string, i: int) {
    0 <= i && i + |t| <= |s| && s[i..i + |t|] == t
  }

  /** `Contains` holds exactly when `t` sits at some index of `s`. */
  lemma {:induction false} ContainsIff(s: string, t: string)
    ensures Contains(s, t) <==> exists i :: OccursAt(s, t, i)
    decreases |s|
  {
    if |s| < |t| {
    } else if s[..|t|] == t {
      assert OccursAt(s, t, 0);
    } else {
      ContainsIff(s[1..], t);
      if Contains(s[1..], t) {
        var i :| OccursAt(s[1..], t, i);
        assert s[i + 1..i + 1 + |t|] == s[1..][i..i + |t|];
        assert OccursAt(s, t, i + 1);
      }
      if i :| OccursAt(s, t, i) {
        assert i != 0;
        assert s[1..][i - 1..i - 1 + |t|] == s[i..i + |t|];
        assert OccursAt(s[1..], t, i - 1);
      }
    }
  }

  /** The exception handler's test: the text mentions 404, or "not found" in any case. */
  predicate MeansNotFound(text: string) {
    Contains(text, "404") || Contains(Lower(text), "not found")
  }

  /** The handler's test in terms of positions: "404" sits in the text, or "not found" in its lower-cased form. */
  lemma MeansNotFoundIff(text: string)
    ensures MeansNotFound(text) <==>
              (exists i :: OccursAt(text, "404", i)) || (exists i :: OccursAt(Lower(text), "not found", i))
  {
    ContainsIff(text, "404");
    ContainsIff(Lower(text), "not found");
  }

  /** The failure an exception with text `text` is answered with. */
  function ExceptionResponse(text: string): (r: Response)
    ensures r.Failure? && (r.status == 404 || r.status == 500)
    ensures r.status == 404 <==> MeansNotFound(text)
  {
    if MeansNotFound(text) then Failure(404, NotFoundError)
    else Failure(500, ServerErrorPrefix + text)
  }

  /** Where the checks before the matching lead: an answer, or the entries to compare. */
  datatype Decision = Answer(response: Response) | Proceed(entries: seq<RawEntry>)

  /**
   * The checks of lines 32-49 and the handler of lines 139-143: no username
   * gives 400; no reply, an empty reply or one without `data` gives 404; empty
   * `data` gives 200 with the empty-watchlist message; an exception gives 404
   * or 500 by its text; otherwise the entries go on to be compared.
   */
  function Decide(username: Option<string>, fetch: Fetch): (d: Decision)
    ensures FalsyName(username) ==> d == Answer(Failure(400, NoUsernameError))
    ensures !FalsyName(username) && fetch.Raised? ==> d == Answer(ExceptionResponse(fetch.text))
    ensures d.Proceed? <==> !FalsyName(username) && fetch.Returned? && fetch.reply.Some?
                            && "data" in fetch.reply.value.keys && fetch.reply.value.data != []
    ensures d.Proceed? ==> d.entries == fetch.reply.value.data
  {
    if FalsyName(username) then Answer(Failure(400, NoUsernameError))
    else
      match fetch
      case Raised(text) => Answer(ExceptionResponse(text))
      case Returned(reply) =>
        if reply.None? || reply.value.keys == {} || "data" !in reply.value.keys then
          Answer(Failure(404, NotFoundError))
        else if |reply.value.data| == 0 then Answer(EmptyWatchlist(EmptyMessage))
        else Proceed(reply.value.data)
  }

  /**
   * The response of the handler for an annotated catalog: every answer is 200,
   * 400, 404 or 500, and only a watchlist with entries is compared, under the
   * username given, with one row per pair of each bucket.
   */
  function Respond(catalog: seq<Movie>, username: Option<string>, fetch: Fetch): (r: Response)
    requires HasKeys(catalog)
    ensures Status(r) in {200, 400, 404, 500}
    ensures Status(r) == 200 <==> !r.Failure?
    ensures r.Compared? <==> Decide(username, fetch).Proceed?
    ensures r.Compared? ==> r.username == username.value
    ensures r.Compared? ==>
              var b := Reconciled(catalog, ExtractAll(Decide(username, fetch).entries), Served);
              |r.matches| == |b.matches| && |r.ambiguous| == |b.ambiguous| && |r.nearMisses| == |b.nearMisses|
  {
    match Decide(username, fetch)
    case Answer(response) => response
    case Proceed(entries) =>
      var b := Reconciled(catalog, ExtractAll(entries), Served);
      Compared(username.value, MatchRows(b.matches), AmbiguousRows(b.ambiguous), NearMissRows(b.nearMisses))
  }

  /** The handler: classify, then extract, match and project. */
  method CompareWatchlists(catalog: seq<Movie>, username: Option<string>, fetch: Fetch) returns (response: Response)
    requires HasKeys(catalog)
    ensures response == Respond(catalog, username, fetch)
  {
    var decision := Decide(username, fetch);
    match decision
    case Answer(r) =>
      response := r;
    case Proceed(entries) =>
      var watchlist := BuildWatchlist(entries);
      var matches, ambiguous, nearMisses := ReconcileCatalog(catalog, watchlist);
      response := Compared(username.value, MatchRows(matches), AmbiguousRows(ambiguous), NearMissRows(nearMisses));
  }

  // ---------------------------------------------------------------------------
  // Properties of the classification
  // ---------------------------------------------------------------------------

  /** The username is checked first: without one the answer is 400, whatever the profile service would do. */
  lemma NoUsernameIs400(catalog: seq<Movie>, username: Option<string>, fetch: Fetch)
    requires HasKeys(catalog) && FalsyName(username)
    ensures Respond(catalog, username, fetch) == Failure(400, NoUsernameError)
  {
  }

  /** A reply without `data` (or none at all) means the user was not found. */
  lemma MissingDataIs404(catalog: seq<Movie>, username: Option<string>, reply: Option<Reply>)
    requires HasKeys(catalog) && !FalsyName(username)
    requires reply.None? || "data" !in reply.value.keys
    ensures Respond(catalog, username, Returned(reply)) == Failure(404, NotFoundError)
  {
  }

  /** An empty watchlist is not an error: 200 with the empty-watchlist message. */
  lemma EmptyDataIs200(catalog: seq<Movie>, username: Option<string>, keys: set<string>)
    requires HasKeys(catalog) && !FalsyName(username) && "data" in keys
    ensures Respond(catalog, username, Returned(Some(Reply(keys, [])))) == EmptyWatchlist(EmptyMessage)
  {
  }

  /** An exception that says "not found" in any mix of capitals is answered with 404. */
  lemma NotFoundInAnyCase(before: string, phrase: string, after: string)
    requires Lower(phrase) == "not found"
    ensures ExceptionResponse(before + phrase + after).status == 404
  {
    var text := before + phrase + after;
    ConcatMapAppend(LowerChar, before + phrase, after);
    ConcatMapAppend(LowerChar, before, phrase);
    var lowered := Lower(text);
    var i := |Lower(before)|;
    assert lowered == Lower(before) + "not found" + Lower(after);
    assert OccursAt(lowered, "not found", i);
    ContainsIff(lowered, "not found");
  }

  /** Any other exception is a server error that quotes the exception's text. */
  lemma OtherExceptionIs500(text: string)
    requires !MeansNotFound(text)
    ensures var r := ExceptionResponse(text);
            r.status == 500 && r.error[|ServerErrorPrefix|..] == text
  {
  }
}
