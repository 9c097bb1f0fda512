/**
 * The detail step (`getAudiobookDetails`): the info-hash chosen for the
 * magnet link, first from the `#magnetLink` element and otherwise from the
 * first element whose trimmed text looks like a 40-digit hexadecimal hash,
 * and the details record with its defaults.
 */
module Details {
  import opened Common
  import opened JsStrings
  import opened UriComponent
  import opened LabelField
  import opened Magnet

  const UnknownTitle: string := "Unknown Title"

  /**
   * A detail page as the selectors see it: the text of the `h1` title, the
   * text of the content block, the text of the `#magnetLink` element when
   * there is one, and the text of every element in document order.
   */
  datatype DetailPage = DetailPage(
    titleText: string,
    contentText: string,
    magnetLinkText: Option<string>,
    elementTexts: seq<string>)

  datatype AudiobookDetails = AudiobookDetails(
    title: string,
    author: string,
    narrator: string,
    format: string,
    bitrate: string,
    magnetUrl: Option<string>)

  /** `text.match(/^[a-fA-F0-9]{40}$/)` on an element's trimmed text. */
  predicate LooksLikeHash(text: string) {
    IsInfoHash(Trim(text))
  }

  /** The trimmed text of the first element, in document order, that looks like a hash; `""` if none does. */
  function FirstHashLike(texts: seq<string>): (h: string)
    ensures h == [] || IsInfoHash(h)
  {
    if texts == [] then []
    else if LooksLikeHash(texts[0]) then Trim(texts[0])
    else FirstHashLike(texts[1..])
  }

  /** The trimmed `#magnetLink` text, `""` when the element is missing. */
  function LinkText(page: DetailPage): string {
    match page.magnetLinkText
    case None => []
    case Some(t) => Trim(t)
  }

  /**
   * The hash the program settles on: a non-empty link text wins, unchecked;
   * otherwise the scan decides, so a hash that is not the link text always
   * has the 40-hex-digit shape.
   */
  function SelectedHash(page: DetailPage): (h: string)
    ensures h == [] ==> LinkText(page) == []
    ensures h != LinkText(page) ==> LinkText(page) == [] && IsInfoHash(h)
  {
    if LinkText(page) != [] then LinkText(page) else FirstHashLike(page.elementTexts)
  }

  /**
   * The `$('*').each` scan: visit the elements in document order and stop at
   * the first whose trimmed text looks like a hash.
   */
  method ScanForHash(texts: seq<string>) returns (magnetHash: string)
    ensures magnetHash == FirstHashLike(texts)
  {
    magnetHash := [];
    var i := 0;
    while i < |texts|
      invariant 0 <= i <= |texts|
      invariant FirstHashLike(texts[i..]) == FirstHashLike(texts)
    {
      var text := Trim(texts[i]);
      assert texts[i..][1..] == texts[i + 1..];
      if IsInfoHash(text) {
        magnetHash := text;
        break;
      }
      i := i + 1;
    }
  }

  /**
   * The hash selection as the program performs it: take the trimmed link
   * text, and only when it is empty fall back on the scan.
   */
  method SelectHash(page: DetailPage) returns (magnetHash: string)
    ensures magnetHash == SelectedHash(page)
  {
    magnetHash := if page.magnetLinkText.Some? then Trim(page.magnetLinkText.value) else [];
    if magnetHash == [] {
      magnetHash := ScanForHash(page.elementTexts);
    }
  }

  /**
   * The details record for a fetched page, given the selected hash: the
   * title is never empty, the four labelled fields are each `'Unknown'` or a
   * trimmed single line, and there is a magnet link exactly when there is a
   * hash.
   */
  function DetailsWith(page: DetailPage, magnetHash: string): (d: AudiobookDetails)
    ensures d.title != []
    ensures IsFieldValue(d.author) && IsFieldValue(d.narrator)
    ensures IsFieldValue(d.format) && IsFieldValue(d.bitrate)
    ensures d.magnetUrl.Some? <==> magnetHash != []
  {
    var title := Trim(page.titleText);
    AudiobookDetails(
      if title == [] then UnknownTitle else title,
      LabelValue(AuthorLabel, page.contentText),
      LabelValue(NarratorLabel, page.contentText),
      LabelValue(FormatLabel, page.contentText),
      LabelValue(BitrateLabel, page.contentText),
      if magnetHash != [] then CreateMagnetUrl(magnetHash, title) else None)
  }

  /** The details record for a fetched page. */
  function DetailsOf(page: DetailPage): AudiobookDetails {
    DetailsWith(page, SelectedHash(page))
  }

  /**
   * What `getAudiobookDetails(url)` returns when `fetch` stands for the HTTP
   * GET: the details record of the fetched page, or nothing when the fetch
   * failed.
   */
  function FetchDetails(url: string, fetch: string -> Fetch<DetailPage>): Option<AudiobookDetails> {
    match fetch(url)
    case Failed => None
    case Page(page) => Some(DetailsOf(page))
  }

  /** `getAudiobookDetails(url)`: fetch the page, select the hash, and build the record. */
  method GetAudiobookDetails(url: string, fetch: string -> Fetch<DetailPage>)
    returns (details: Option<AudiobookDetails>)
    ensures details == FetchDetails(url, fetch)
  {
    var response := fetch(url);
    if response.Failed? {
      return None;
    }
    var page := response.doc;
    var magnetHash := SelectHash(page);
    details := Some(DetailsWith(page, magnetHash));
  }

  // ------------------------------------------------------------- properties

  /**
   * The scan finds the FIRST hash-like element: when it finds anything, it
   * is the trimmed text of some element that looks like a hash and no
   * earlier element does; when it finds nothing, no element looks like one.
   */
  lemma {:induction false} FirstHashLikeIsFirst(texts: seq<string>)
    ensures FirstHashLike(texts) == [] <==> forall i :: 0 <= i < |texts| ==> !LooksLikeHash(texts[i])
    ensures FirstHashLike(texts) != [] ==>
      exists i :: 0 <= i < |texts| && FirstHashLike(texts) == Trim(texts[i])
        && forall j :: 0 <= j < i ==> !LooksLikeHash(texts[j])
  {
    if texts != [] {
      FirstHashLikeIsFirst(texts[1..]);
      if !LooksLikeHash(texts[0]) {
        forall i | 0 <= i < |texts[1..]| ensures texts[1..][i] == texts[i + 1] {}
        if FirstHashLike(texts) != [] {
          var k :| 0 <= k < |texts[1..]| && FirstHashLike(texts[1..]) == Trim(texts[1..][k])
            && forall j :: 0 <= j < k ==> !LooksLikeHash(texts[1..][j]);
          assert FirstHashLike(texts) == Trim(texts[k + 1]);
          forall j | 0 <= j < k + 1 ensures !LooksLikeHash(texts[j]) {
            if j > 0 {
              assert texts[j] == texts[1..][j - 1];
            }
          }
        }
      } else {
        assert FirstHashLike(texts) == Trim(texts[0]);
      }
    }
  }

  /** Elements after the first hash-like one never change the choice. */
  lemma {:induction false} FirstHashLikeIgnoresLater(texts: seq<string>, later: seq<string>)
    requires FirstHashLike(texts) != []
    ensures FirstHashLike(texts + later) == FirstHashLike(texts)
  {
    if !LooksLikeHash(texts[0]) {
      assert (texts + later)[1..] == texts[1..] + later;
      FirstHashLikeIgnoresLater(texts[1..], later);
    }
  }

  /**
   * The hash is empty exactly when the link text is empty or missing and no
   * element looks like a hash; a non-empty link text is taken verbatim,
   * hash-shaped or not, and otherwise the hash has the 40-hex-digit shape.
   */
  lemma SelectedHashCases(page: DetailPage)
    ensures SelectedHash(page) == [] <==>
      LinkText(page) == [] && forall i :: 0 <= i < |page.elementTexts| ==> !LooksLikeHash(page.elementTexts[i])
    ensures LinkText(page) != [] ==> SelectedHash(page) == LinkText(page)
    ensures LinkText(page) == [] && SelectedHash(page) != [] ==> IsInfoHash(SelectedHash(page))
  {
    FirstHashLikeIsFirst(page.elementTexts);
  }

  /** Every text field of the record is filled: the title trimmed or `'Unknown Title'`, each labelled field trimmed or `'Unknown'`. */
  lemma DetailsFieldsFilled(page: DetailPage)
    ensures Trim(page.titleText) == [] ==> DetailsOf(page).title == UnknownTitle
    ensures Trim(page.titleText) != [] ==> DetailsOf(page).title == Trim(page.titleText)
    ensures IsFieldValue(DetailsOf(page).author) && IsFieldValue(DetailsOf(page).narrator)
    ensures IsFieldValue(DetailsOf(page).format) && IsFieldValue(DetailsOf(page).bitrate)
  {
  }

  /** There is a magnet link exactly when a hash was selected. */
  lemma DetailsMagnetPresence(page: DetailPage)
    ensures DetailsOf(page).magnetUrl.Some? <==> SelectedHash(page) != []
  {
  }

  /**
   * A selected 40-hex-digit hash gives a magnet link whose fields carry that
   * hash, the raw trimmed title (which is empty when the page shows
   * `'Unknown Title'`) and the five trackers.
   */
  lemma DetailsMagnetFields(page: DetailPage)
    requires IsInfoHash(SelectedHash(page))
    ensures DetailsOf(page).magnetUrl.Some?
    ensures IsMagnetFieldsOf(Split(DetailsOf(page).magnetUrl.value, '&'),
      SelectedHash(page), Trim(page.titleText), TrackerList)
  {
    CreateMagnetUrlFields(SelectedHash(page), Trim(page.titleText));
  }
}
