# audiobookbay-search, modelled in Dafny

This project models the core of `index.js`, a command-line search for
audiobook listings. One run of the program does the following:

- It reads a query and builds the search URL from it. The query is
  lower-cased and escaped with `encodeURIComponent`, then placed between a
  fixed prefix and the fixed `&cat=undefined%2Cundefined` suffix.
- It fetches that page and keeps one listing per post that has both a title
  and a link. Each listing has a fully qualified URL and four labelled fields
  read with `Label:\s*([^\n]+)`, defaulting to `'Unknown'`.
- It shows the listings and reads a choice with `parseInt`. The choice is
  checked against the number of listings.
- It fetches the chosen listing's page and builds its details record. The
  title defaults to `'Unknown Title'`, and there are four labelled fields.
- It builds a magnet link. The info-hash comes from `#magnetLink`, or else
  from the first element whose trimmed text is 40 hexadecimal digits. The link
  carries the hash, the encoded title and five fixed UDP trackers.

Modules, in dependency order:

| module | what it holds |
|---|---|
| `Common` | `Option` and `Fetch` (a page that was fetched, or a failed request) |
| `JsStrings` | the ECMAScript string built-ins the program uses: `trim` (the full WhiteSpace plus LineTerminator set), ASCII `toLowerCase` and `startsWith`. It also holds a one-character `split`, which the program never calls: the properties use it to state how a magnet link breaks into its `&`-separated fields |
| `UriComponent` | `encodeURIComponent` over Unicode scalar values and UTF-8. It also holds `decodeURIComponent` as an independent definition of decoding, so the encoding can be shown lossless |
| `Magnet` | `createMagnetUrl` |
| `LabelField` | the regular expression `Label:\s*([^\n]+)` with its backtracking, followed by `?.trim() \|\| 'Unknown'` |
| `Filtering` | filter-then-map over a sequence, the shape of the listing loop |
| `Search` | `searchAudiobooks`: the URL, the accept test, URL qualification, and the push loop as a method |
| `Details` | `getAudiobookDetails`: the hash scan with its early break as a method, and the details record |
| `Menu` | `parseInt` as specified in section 19.2.5 of ECMA-262 (radix undefined), and the choice check in `main` |
| `Session` | `main` after the query has been read, as a method, against a specification function |

The HTTP requests are parameters, modelled as functions from URL to fetched
page. The typed answers are parameters too.

Modelling decisions, each following what `index.js` does:
- there is a single result page, with no pagination and no page number in the URL;
- the query is lower-cased and escaped as it is, with no tokenising of quoted phrases;
- there is one search and one choice per run, with no "search again" loop and no re-prompting;
- an answer that does not parse, 0, or a number past the end exits;
- a negative number passes that test, so `results[choiceNum - 1]` is undefined, reading its `url` throws, and the error is caught at the end of `main`;
- a non-empty `#magnetLink` text is used verbatim, whether or not it looks like a hash.

## Model

| member | source | states |
|---|---|---|
| JsStrings.Trim | index.js:57 | `trim` removes exactly the leading and trailing ECMAScript whitespace. The result never starts or ends with whitespace, and it is empty exactly when the input is all whitespace |
| JsStrings.TrimIsSliceBetween | index.js:57 | for any split of a string into a whitespace prefix, a middle with non-whitespace ends, and a whitespace suffix, `trim` returns that middle |
| JsStrings.TrimIdempotent | index.js:57 | trimming twice is trimming once |
| JsStrings.TrimDropsWhitespacePrefix | index.js:75 | dropping leading whitespace before trimming changes nothing. This is why the `\s*` of the pattern does not affect the trimmed field |
| JsStrings.ToLowerCase | index.js:35 | `toLowerCase` keeps the length and maps each ASCII capital to its small letter, leaving every other character |
| JsStrings.ToLowerCaseIdempotent | index.js:35 | a lower-cased query has no capitals, and lower-casing it again changes nothing |
| UriComponent.Encode | index.js:20 | `encodeURIComponent` writes each character as itself or as escaped octets, so the output is at least as long as the input and at most twelve times as long |
| UriComponent.DecodeEncode | index.js:20 | `encodeURIComponent` loses nothing: decoding its output gives back the input, for every string |
| UriComponent.DecodeEncodeChar | index.js:20 | one character's escape (its UTF-8 bytes as `%XX` triples, or the character itself when unreserved) decodes to that character, whatever follows |
| UriComponent.EncodeIsEncodedForm | index.js:20 | the output holds only unreserved characters and `%XX` triples with upper-case hex digits |
| UriComponent.EncodeHasNoDelimiters | index.js:27 | the output never holds `&` or `=`, so an encoded value cannot break the `&`-separated fields of the URL it is put into |
| UriComponent.EncodeKeepsUnreserved | index.js:35 | a string of unreserved characters is left as it is |
| UriComponent.EncodeAppend | index.js:27 | encoding works character by character: the encoding of a concatenation is the concatenation of the encodings |
| Magnet.CreateMagnetUrl | index.js:17-18 | there is no link exactly when the hash is empty |
| Magnet.MagnetUri | index.js:29 | a link starts with `magnet:?xt=urn:btih:`, then the hash, then `&dn=` |
| Magnet.SplitTrackerParams | index.js:27 | the joined `&tr=` parameters split on `&` into one `tr=` field per tracker, in order |
| Magnet.MagnetUriRoundTrip | index.js:20-29 | for a 40-hex-digit hash, the link splits on `&` into `xt`, `dn` and one `tr` field per tracker. They hold the hash, a value that decodes to the title, and values that decode to the trackers in order |
| Magnet.CreateMagnetUrlFields | index.js:17-30 | the same for the five fixed trackers of the program |
| LabelField.Capture | index.js:63-66 | when `Label:\s*([^\n]+)` matches, the capture is non-empty and holds no line feed |
| LabelField.LabelValue | index.js:63-78 | a labelled field is always `'Unknown'`, or a non-empty single line with no whitespace at either end |
| LabelField.CaptureAtFirstOccurrence | index.js:63 | the pattern captures at the first occurrence of the label and nowhere else |
| LabelField.LabelValueFirstOccurrence | index.js:63-78 | the field is read after the first occurrence of the label: skip whitespace (newlines included) and take the rest of that line, trimmed. If only whitespace follows (`Label:   `), the field is `'Unknown'` |
| LabelField.LabelValueAbsent | index.js:75 | without the label the field is `'Unknown'` |
| LabelField.LabelValueRoundTrip | index.js:63-78 | for a text made of the label, a non-blank one-line value, and then nothing or a new line, the field is that value trimmed |
| LabelField.ValueAfterLine | index.js:63 | a line that holds a non-blank value reads as that value trimmed, whatever whitespace precedes it |
| Search.SearchUrl | index.js:35 | the search URL starts with the fixed prefix, ends with the fixed category suffix, and has at least one character per query character in between |
| Search.SearchUrlCarriesQuery | index.js:35 | the search URL is the fixed prefix, then an escaped value with no `&`, then the fixed category suffix. The value decodes to the lower-cased query |
| Search.SearchUrlIgnoresCase | index.js:35 | queries that differ only in ASCII case give the same URL |
| Search.Qualify | index.js:71 | a link starting with `http` is kept. Any other link is appended to the base URL, with a `/` in between only when the link does not already start with one. The result always starts with `http` |
| Search.QualifyIdempotent | index.js:71 | qualifying a qualified URL changes nothing |
| Search.ToResult | index.js:71-79 | a post's listing has a title with no whitespace at either end, a URL starting with `http`, and four fields that are each `'Unknown'` or a trimmed single line |
| Search.ToResultIsListing | index.js:69-79 | an accepted post gives a listing with a non-empty trimmed title, an `http` URL and four well-formed fields |
| Search.SearchAudiobooks | index.js:32-88 | the loop returns the listings of the fetched page, one per accepted post in page order, or none when the fetch failed. The loop invariant ties the pushed prefix to the posts seen so far |
| Search.ListingsMembership | index.js:54-81 | a listing is returned exactly when some accepted post converts to it. There are never more listings than posts, and each one is well formed |
| Search.Listings | index.js:54-81 | the listings of a page, kept for the posts with a non-empty trimmed title and a non-empty `href`, are never more than the posts, and each one is well formed |
| Search.ListingsAllAccepted | index.js:54-81 | when every post is accepted, the listings are the posts converted one by one, in order |
| Search.ListingsInPageOrder | index.js:54-81 | on any page, the listings of two stretches of posts follow each other in page order, and a single post gives its listing exactly when it is accepted |
| Search.ListingsNoneAccepted | index.js:69 | a page with no accepted post gives no listing |
| Details.FirstHashLike | index.js:110-116 | the scan result is empty or a 40-hex-digit hash |
| Details.ScanForHash | index.js:110-116 | the loop with its early `return false` gives the trimmed text of the first hash-like element, or `''` |
| Details.FirstHashLikeIsFirst | index.js:110-116 | the scan is empty exactly when no element looks like a hash. Otherwise it is the text of some element that does, and no earlier element looks like a hash |
| Details.FirstHashLikeIgnoresLater | index.js:114 | elements after the first hash-like one never change the result |
| Details.SelectedHash | index.js:105-117 | the hash is empty only when the link text is empty. A hash other than the link text comes from the scan and has the 40-hex-digit shape |
| Details.SelectHash | index.js:103-117 | the link text is taken, and the scan runs only when that text is empty |
| Details.SelectedHashCases | index.js:105-117 | the hash is empty exactly when the link text is empty and no element looks like a hash. A non-empty link text is taken verbatim. Otherwise the hash has the 40-hex-digit shape |
| Details.DetailsWith | index.js:128-135 | the record's title is never empty, each of the four labelled fields is `'Unknown'` or a trimmed single line, and there is a magnet link exactly when there is a hash |
| Details.GetAudiobookDetails | index.js:90-140 | the details record of the fetched page, or nothing when the fetch failed |
| Details.DetailsFieldsFilled | index.js:128-133 | the title is the trimmed page title, or `'Unknown Title'` when that is empty. The other four fields are each `'Unknown'` or a trimmed one-line value |
| Details.DetailsMagnetPresence | index.js:134 | there is a magnet link exactly when a hash was selected |
| Details.DetailsMagnetFields | index.js:134 | a selected 40-hex-digit hash gives a link whose fields carry that hash, the raw trimmed title (empty when the record shows `'Unknown Title'`) and the five trackers |
| Menu.ParseInt | index.js:165 | `parseInt` gives a number only when the answer holds a decimal digit |
| Menu.Decide | index.js:167-172 | the run exits exactly on `NaN`, 0 or a number past the end. It selects exactly for 1 to the count, with the index `choiceNum - 1` in range. A negative number leads to the out-of-range access |
| Menu.ParseIntDecimal | index.js:165 | whitespace, an optional sign, a decimal numeral and then anything `parseInt` stops at (not a decimal digit, and no `x` or `X` after a lone `0`) parse to that signed number, so `2nd` reads as 2 |
| Menu.ParseIntHex | index.js:165 | whitespace, an optional sign, `0x` or `0X`, a hexadecimal numeral and then anything that is not a hexadecimal digit parse to that signed number |
| Menu.ParseIntSkipsWhitespace | index.js:165 | leading whitespace never changes what `parseInt` reads |
| Menu.ParseIntWithoutDigits | index.js:165 | an answer with no decimal digit parses to `NaN` |
| Menu.ParseIntNoLeadingDigit | index.js:165 | an answer whose first character after whitespace and an optional sign is not a decimal digit parses to `NaN`, even when digits follow (`a1`, `-x2`); with `ParseIntSkipsWhitespace`, `ParseIntEmptyHex` and `ParseIntOfForm` it covers every answer, so a number is read exactly when a digit of the radix follows the whitespace, the sign and any `0x` prefix |
| Menu.ParseIntEmptyHex | index.js:165 | `0x` or `0X` (after whitespace and an optional sign) not followed by a hexadecimal digit parses to `NaN`, so `0xg` does not read as 0 |
| Menu.ParseIntOfForm | index.js:165 | a signed numeral form followed by a character outside its radix reads as the value of its digits, leading zeros (`02`) and upper-case hexadecimal digits (`0xFF`) included; the exception is a decimal form that is a lone `0` followed by `x` or `X`, which is the hexadecimal prefix instead (`0x1` reads as 1, `0xz` as `NaN`) |
| Menu.ParseIntOfNumber | index.js:165 | typing the numeral of `n` after any whitespace parses to `n` |
| Menu.NumeralValue | index.js:165 | the numeral of `n` in radix 10 or 16 denotes `n` when read in that radix |
| Menu.ChoiceOfTypedNumber | index.js:164-172 | typing the number of a listing, followed by anything `parseInt` stops at, selects it. Typing 0 or a number past the end exits. Typing a negative number reaches the out-of-range access |
| Session.RunSession | index.js:142-203 | a run ends as the specification function says: no results, exit, the caught error, details unavailable, or the details shown |
| Session.ChooseAndShow | index.js:165-180 | the choice check, then the detail fetch of the chosen listing, against the same specification |
| Session.AfterListings | index.js:149-180 | details are shown, or reported unavailable, only for an answer from 1 to the number of listings, and they are what the detail fetch of that listing's URL gives. The caught error happens only for a negative answer |
| Session.NoResultsIgnoresAnswer | index.js:147-152 | a run stops before the choice exactly when there is no listing |
| Session.ShownIsChosenListing | index.js:172-180 | details are shown exactly when the answer parses to the number of a listing and details are obtained for that listing's URL. What is shown is those details |
| Session.DetailsOnlyWhenChosen | index.js:167-175 | unless a listing is chosen, the run ends in no results, an exit or the caught error, and the detail fetch plays no part |
| Session.TypedNumberShowsListing | index.js:164-175 | typing the number `n` of a listing shows the details obtained for the URL of listing `n` |
| Session.ShownFieldsFilled | index.js:175-190 | whatever a run shows has a non-empty title and four well-formed fields |

## Left out

- HTTP: each `axios.get` is a parameter, a function from URL to a fetched page or a failure. The request headers are not modelled. Any thrown error (network, non-2xx status, parse failure) is the failure case, which is caught and gives `[]` or `null`.
- HTML parsing and selectors: `cheerio.load`, the selectors and `.text()` are not modelled. A page is given as the texts those selectors produce:
  - a search page: per post, the title-link text, its `href` and the content text;
  - a detail page: the title text, the content text, the `#magnetLink` text if that element exists, and the text of every element in document order.
- The `h1:contains("Search Results")` check only logs and is not modelled.
- Console output, the readline prompts, `rl.close` and `async`/`await` ordering are not modelled. The answers typed at the prompts are parameters.
- JsStrings.ToLowerCase: ASCII letters only. The full Unicode case mapping of `toLowerCase` is not modelled.
- UriComponent.Encode: Dafny characters are Unicode scalar values, so a lone surrogate cannot occur. The `URIError` that `encodeURIComponent` throws for one is not modelled.
- Menu.ParseInt: the result is an unbounded integer, not a double. Rounding to a double is monotonic and exact below 2^53, so it never changes the outcome of `=== 0` or `> results.length` for a listing count. `-0` is folded into 0, which `=== 0` treats the same way.
- Details.DetailsMagnetFields: it is stated only for a 40-hex-digit hash. A `#magnetLink` text is used verbatim, and one holding `&` would split into different fields.

