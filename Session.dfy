/**
 * One run of the program (`main`): read a query, search, show the listings,
 * read a choice, and show the details of the chosen listing. The two
 * answers typed at the prompts are parameters, and so are the two HTTP
 * GETs, as functions from URL to fetched page.
 */
module Session {
  import opened Common
  import opened JsStrings
  import opened LabelField
  import opened Search
  import opened Details
  import opened Menu

  /** How a run ends. */
  datatype Outcome =
    | NoResults                           // "No results found": the choice is never asked for
    | Exited                              // "Exiting..."
    | ErrorCaught                         // reading `.url` of an undefined listing throws; `main` catches it
    | DetailsUnavailable                  // "Unable to fetch audiobook details"
    | Shown(details: AudiobookDetails)    // the details, with the magnet link if there is one

  /** The outcome of a run: the listings of the search, then the choice, then the detail page. */
  function SessionOutcome(query: string, fetchSearch: string -> Fetch<seq<Post>>,
                          answer: string, fetchDetail: string -> Fetch<DetailPage>): Outcome
  {
    AfterListings(SearchResults(query, fetchSearch), ParseInt(answer), url => FetchDetails(url, fetchDetail))
  }

  /**
   * How a run goes on once the listings are known and the answer is parsed;
   * `getDetails` is what `getAudiobookDetails` gives for a URL.
   */
  function AfterListings(results: seq<SearchResult>, parsed: ParsedInt,
                         getDetails: string -> Option<AudiobookDetails>): (o: Outcome)
    ensures o.Shown? || o.DetailsUnavailable? ==> parsed.Int? && 1 <= parsed.value <= |results|
    ensures o.Shown? ==> getDetails(results[parsed.value - 1].url) == Some(o.details)
    ensures o.DetailsUnavailable? ==> getDetails(results[parsed.value - 1].url) == None
    ensures o.ErrorCaught? ==> parsed.Int? && parsed.value < 0 && results != []
  {
    if |results| == 0 then NoResults
    else
      match Decide(|results|, parsed)
      case Exit => Exited
      case OutOfRange => ErrorCaught
      case Select(k) =>
        match getDetails(results[k].url)
        case None => DetailsUnavailable
        case Some(d) => Shown(d)
  }

  /** `main`, after the query has been read. */
  method RunSession(query: string, fetchSearch: string -> Fetch<seq<Post>>,
                    answer: string, fetchDetail: string -> Fetch<DetailPage>)
    returns (outcome: Outcome)
    ensures outcome == SessionOutcome(query, fetchSearch, answer, fetchDetail)
  {
    var results := SearchAudiobooks(query, fetchSearch);
    if |results| == 0 {
      return NoResults;
    }
    var choiceNum := ParseInt(answer);
    outcome := ChooseAndShow(results, choiceNum, fetchDetail);
  }

  /** The rest of `main`: check the choice, fetch the chosen listing's details. */
  method ChooseAndShow(results: seq<SearchResult>, choiceNum: ParsedInt, fetchDetail: string -> Fetch<DetailPage>)
    returns (outcome: Outcome)
    requires |results| > 0
    ensures outcome == AfterListings(results, choiceNum, url => FetchDetails(url, fetchDetail))
  {
    if choiceNum.NaN? || choiceNum.value == 0 || choiceNum.value > |results| {
      return Exited;
    }
    if choiceNum.value < 1 {
      // `results[choiceNum - 1]` is undefined, and reading its `url` throws
      return ErrorCaught;
    }
    var selectedBook := results[choiceNum.value - 1];
    var bookDetails := GetAudiobookDetails(selectedBook.url, fetchDetail);
    if bookDetails.None? {
      return DetailsUnavailable;
    }
    outcome := Shown(bookDetails.value);
  }

  // ------------------------------------------------------------- properties

  /** A run stops before the choice exactly when there is no listing; the answer then plays no part. */
  lemma NoResultsIgnoresAnswer(results: seq<SearchResult>, parsed: ParsedInt,
                               getDetails: string -> Option<AudiobookDetails>)
    ensures AfterListings(results, parsed, getDetails) == NoResults <==> results == []
  {
  }

  /**
   * Details are shown exactly when the answer parses to the number of a
   * listing and details are obtained for that listing's URL; what is shown
   * is those details.
   */
  lemma ShownIsChosenListing(results: seq<SearchResult>, parsed: ParsedInt,
                             getDetails: string -> Option<AudiobookDetails>)
    ensures AfterListings(results, parsed, getDetails).Shown? <==>
      && parsed.Int? && 1 <= parsed.value <= |results|
      && getDetails(results[parsed.value - 1].url).Some?
    ensures AfterListings(results, parsed, getDetails).Shown? ==>
      AfterListings(results, parsed, getDetails).details == getDetails(results[parsed.value - 1].url).value
  {
  }

  /** Unless a listing is chosen, no details are asked for: the outcome does not depend on them. */
  lemma DetailsOnlyWhenChosen(results: seq<SearchResult>, parsed: ParsedInt,
                              getDetails: string -> Option<AudiobookDetails>,
                              otherDetails: string -> Option<AudiobookDetails>)
    requires !Decide(|results|, parsed).Select?
    ensures AfterListings(results, parsed, getDetails) == AfterListings(results, parsed, otherDetails)
    ensures AfterListings(results, parsed, getDetails) in {NoResults, Exited, ErrorCaught}
  {
  }

  /**
   * Typing the number `n` of a listing, with whitespace before it if any,
   * shows the details obtained for that listing's URL.
   */
  lemma TypedNumberShowsListing(results: seq<SearchResult>, w: string, n: nat,
                                getDetails: string -> Option<AudiobookDetails>)
    requires AllWhitespace(w)
    requires 1 <= n <= |results|
    requires getDetails(results[n - 1].url).Some?
    ensures AfterListings(results, ParseInt(w + Numeral(n, 10)), getDetails) ==
      Shown(getDetails(results[n - 1].url).value)
  {
    ParseIntOfNumber(w, n);
  }

  /** Whatever a run shows has every text field filled in. */
  lemma ShownFieldsFilled(results: seq<SearchResult>, parsed: ParsedInt, fetchDetail: string -> Fetch<DetailPage>)
    requires AfterListings(results, parsed, url => FetchDetails(url, fetchDetail)).Shown?
    ensures var d := AfterListings(results, parsed, url => FetchDetails(url, fetchDetail)).details;
      && d.title != []
      && IsFieldValue(d.author) && IsFieldValue(d.narrator)
      && IsFieldValue(d.format) && IsFieldValue(d.bitrate)
  {
    DetailsFieldsFilled(fetchDetail(results[parsed.value - 1].url).doc);
  }
}
