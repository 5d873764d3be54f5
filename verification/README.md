# Backlink checker, modelled in Dafny

A model of the core of the PHP library `rvalitov/backlink-checker-php`. Given a
URL and a regular expression, the checker:

- fetches the page through a strategy's `browsePage`;
- if the fetch succeeded, finds every `<a href>` and `<img src>` whose URL the
  pattern matches;
- returns the response together with the backlinks found.

The model covers the abstract class `BacklinkChecker` and the three value
records it builds, `Backlink`, `HttpResponse` and `BacklinkData`:

- **Extraction** (`getRawBacklink`) validates the pattern, returns nothing early
  for an empty page, and parses the page. It then concatenates the link scan
  and the image scan.
- **The two scans** (`scanLinks`, `scanImages`) and the inline nofollow test on
  `rel`.
- **Orchestration** (`getBacklinks`) fetches the page and extracts only from a
  successful response.
- **The records:** their constructors, getters and `jsonSerialize`. The
  response's screenshot is serialised as a base64 `data:` URI.

PHP builtins with a fixed definition are written out in full:

- `trim`, ASCII `strtolower`, and `explode`/`implode` on a single space, in
  `php_strings.dfy`;
- `base64_encode`, in `base64.dfy` (section 4 of RFC 4648);
- `boolval`;
- PHP's delimiter check on a pattern before it reaches PCRE.

Code the library only calls is a field of `Externals.Env`, so every theorem
holds for any behaviour of it:

- PCRE compilation and matching;
- `html_entity_decode`;
- the simple_html_dom parser and its `find`.

The fetcher `browsePage` is a function parameter of `Checker.GetBacklinks`.

Modules, one per file:

- `Wrappers`: `Option` and `Result`.
- `Json`: the JSON value that `json_encode` produces.
- `Base64`: the base64 encoding.
- `PhpStrings`: `trim`, `strtolower`, `explode` and `implode`.
- `Externals`: the foreign code and `preg_match`.
- `BacklinkValue`, `HttpResponseValue` and `BacklinkDataValue`: the three records.
- `Checker`: nofollow, the scans, `getRawBacklink` and `getBacklinks`.

PHP exceptions become `Failure` values of `Checker.Error`, with the same
messages.

## Behaviour of the code worth knowing

- **URLs and targets are not trimmed.** The URL is the raw `href`/`src` and the
  target is the raw `target` attribute (BacklinkChecker.php:78, :90, :113;
  `Checker.Record`).
- **Empty URLs are not filtered.** An element whose `href` is empty is reported
  whenever the pattern matches the empty string (`Checker.EmptyHrefReported`).
- **`rel` is split on single spaces only** (BacklinkChecker.php:81), not on all
  whitespace. `"external\tnofollow"` is therefore not nofollow
  (`Checker.NoFollowTabIsNotSeparator`).
- **A failed fetch skips pattern validation.** A failed fetch is not an error. An invalid pattern on a page that failed to load
  therefore gives an empty result rather than an error
  (`Checker.FailedFetchIgnoresPattern`).

## Model

| member | source | states |
|---|---|---|
| Externals.PregMatch | src/BacklinkChecker/BacklinkChecker.php:34-39 | `preg_match` fails (false) when the pattern has no valid delimiter (blank, or starting with an alphanumeric, a backslash or NUL) or PCRE rejects it |
| Externals.UncompiledNeverMatches | src/BacklinkChecker/BacklinkChecker.php:75 | a pattern PHP or PCRE rejects matches no subject and is not valid |
| Externals.UndelimitedInvalid | tests/FailTest.php:29-33 | "", "abc" and a blank-prefixed "abc" are invalid patterns for every PCRE behaviour |
| Externals.ValidPatternNonEmpty | src/BacklinkChecker/BacklinkChecker.php:43 | a valid pattern is non-empty, so the `strlen($pattern) <= 0` test never fires after validation |
| PhpStrings.Trim | src/BacklinkChecker/BacklinkChecker.php:77 | `trim` leaves neither end a blank, NUL or vertical tab, and never lengthens the string |
| PhpStrings.TrimIsInfix | src/BacklinkChecker/BacklinkChecker.php:77 | the trimmed string is a contiguous part of the input and only trim characters were removed around it |
| PhpStrings.TrimIdempotent | src/BacklinkChecker/BacklinkChecker.php:84 | trimming twice is trimming once |
| PhpStrings.ToLower | src/BacklinkChecker/BacklinkChecker.php:84 | `strtolower` keeps the length and maps each character on its own: A-Z to a-z, everything else unchanged |
| PhpStrings.Explode | src/BacklinkChecker/BacklinkChecker.php:81 | `explode(" ", …)` yields at least one piece and no piece contains a space |
| PhpStrings.ImplodeExplode | src/BacklinkChecker/BacklinkChecker.php:81 | joining the pieces with single spaces gives the `rel` value back |
| PhpStrings.ExplodeImplode | src/BacklinkChecker/BacklinkChecker.php:81 | exploding a space-join of space-free pieces gives those pieces back |
| PhpStrings.ExplodeJoin | src/BacklinkChecker/BacklinkChecker.php:81 | the pieces of `a + " " + b` are the pieces of `a` followed by those of `b` |
| Checker.IsNoFollow | src/BacklinkChecker/BacklinkChecker.php:79-89 | the definition the loop is proved against (it has no contract of its own): some piece of `rel` between single spaces trims and lower-cases to "nofollow" |
| Checker.NoFollowFlag | src/BacklinkChecker/BacklinkChecker.php:79-89 | the flag computed by the loop is true exactly when `rel` is present and one of its space-separated tokens trims and lower-cases to "nofollow" |
| Checker.NoFollowSingleToken | src/BacklinkChecker/BacklinkChecker.php:81-86 | a space-free `rel` is nofollow exactly when it trims and lower-cases to "nofollow" |
| Checker.NoFollowJoin | src/BacklinkChecker/BacklinkChecker.php:83-87 | a space-joined `rel` is nofollow exactly when one of its two parts is |
| Checker.TokenAccepted | src/BacklinkChecker/BacklinkChecker.php:84 | every value that lower-cases to "nofollow", in any mix of cases, is nofollow: such a value has no space and nothing for `trim` to strip |
| Checker.NoFollowPlain | tests/BacklinkCheckerTest.php:257 | "nofollow" is nofollow |
| Checker.NoFollowAmongOthers | tests/BacklinkCheckerTest.php:258 | "nofollow" after or before any other tokens, as in "external nofollow", is nofollow |
| Checker.NoFollowMixedCase | src/BacklinkChecker/BacklinkChecker.php:84 | the comparison ignores ASCII case: "NoFollow" is nofollow |
| Checker.NoFollowRejectsOther | tests/BacklinkCheckerTest.php:259 | "external" is not nofollow |
| Checker.NoFollowRejectsEmpty | tests/BacklinkCheckerTest.php:260 | the empty value is not nofollow |
| Checker.NoFollowTabIsNotSeparator | src/BacklinkChecker/BacklinkChecker.php:81 | a tab does not separate tokens: "external\tnofollow" is not nofollow |
| Checker.Find | src/BacklinkChecker/BacklinkChecker.php:72 | `find("a[href]")` returns exactly the document's elements with that tag and attribute |
| Checker.FindAppend | src/BacklinkChecker/BacklinkChecker.php:72 | `find` keeps document order |
| Checker.Record | src/BacklinkChecker/BacklinkChecker.php:77-113 | the record of a selected element carries the raw `href` or `src` and the scan's tag; only a link whose `rel` is nofollow is nofollow; a non-empty target is the link's raw `target` attribute |
| Checker.Collect | src/BacklinkChecker/BacklinkChecker.php:74-115 | each of the two scan loops (links at :74-92, images at :109-115) yields at most one record per element, each with the scan's tag and a URL the pattern matches; image records are never nofollow and have no target |
| Checker.ScanLinks | src/BacklinkChecker/BacklinkChecker.php:67-95 | every link record has tag "a" and a URL the pattern matches |
| Checker.ScanImages | src/BacklinkChecker/BacklinkChecker.php:102-118 | every image record has tag "img", no nofollow, an empty target and a URL the pattern matches |
| Checker.CollectSound | src/BacklinkChecker/BacklinkChecker.php:74-91 | every record comes from a listed element whose URL attribute is set and matches |
| Checker.CollectComplete | src/BacklinkChecker/BacklinkChecker.php:74-91 | every listed element whose URL attribute is set and matches gets its record |
| Checker.CollectAppend | src/BacklinkChecker/BacklinkChecker.php:109-115 | the loop visits the list in order |
| Checker.ScanExact | src/BacklinkChecker/BacklinkChecker.php:72-90 | a scan reports exactly the matching elements of the document, as the records built from them |
| Checker.ScanAppend | src/BacklinkChecker/BacklinkChecker.php:72-115 | for links (:72-92) and images (:107-115), scanning two parts of a document gives the records of the first part, then those of the second |
| Checker.InvalidPatternScansNothing | tests/BacklinkCheckerTest.php:279-301 | under a pattern PHP or PCRE rejects, both scans are empty |
| Checker.ScanLinksSingle | src/BacklinkChecker/BacklinkChecker.php:75-90 | one link's record: raw href, decoded trimmed text, nofollow from `rel`, target or "" |
| Checker.ScanImagesSingle | src/BacklinkChecker/BacklinkChecker.php:110-113 | one image's record: raw src, decoded trimmed alt or "", not nofollow, no target |
| Checker.GetRawBacklink | src/BacklinkChecker/BacklinkChecker.php:28-60 | an invalid pattern throws InvalidArgument exactly, even for an empty page; a valid pattern with an empty page gives no records; a parse failure of a non-empty page throws UnexpectedValue exactly; no other error; every record matches, has an enabled tag, and no link follows an image |
| Checker.RawBacklinkParsed | src/BacklinkChecker/BacklinkChecker.php:51-59 | after validation and parsing, the result is the link scan (if enabled) followed by the image scan (if enabled) |
| Checker.UndelimitedPatternsThrow | tests/FailTest.php:29-33 | "" and "abc" raise "Invalid pattern. Check the RegExp syntax." for any page |
| Checker.AnnotatedLink | src/BacklinkChecker/BacklinkChecker.php:75-90 | a matching link with `rel` and `target` gives one record with the raw URL, the plain text, the nofollow flag of its `rel` and the raw target |
| Checker.LinkExample | tests/BacklinkCheckerTest.php:62-73 | one plain link gives one record with its URL and text, not nofollow, no target |
| Checker.NoFollowTargetExample | tests/BacklinkCheckerTest.php:263-274 | `rel="nofollow" target="_blank"` gives one nofollow record with target "_blank" |
| Checker.ImageExample | tests/BacklinkCheckerTest.php:75-82 | one image gives one record whose anchor is its alt text, not nofollow, no target |
| Checker.EmptyHrefReported | src/BacklinkChecker/BacklinkChecker.php:75 | an empty href is reported when the pattern matches the empty string |
| Checker.GetBacklinks | src/BacklinkChecker/BacklinkChecker.php:137-152 | fetch errors pass through; the response is returned unchanged; an unsuccessful response gives no backlinks; a successful one gives exactly the extraction's records or its error |
| Checker.FailedFetchIgnoresPattern | src/BacklinkChecker/BacklinkChecker.php:146-147 | after an unsuccessful fetch even an invalid pattern gives the response with no backlinks |
| Checker.SuccessfulFetchChecksPattern | src/BacklinkChecker/BacklinkChecker.php:149 | after a successful fetch an invalid pattern raises the pattern error |
| Checker.NotFoundPage | tests/BacklinkCheckerTest.php:358-370 | a 404 page gives its response, status 404 and not successful, with no backlinks |
| Checker.FetchedPageScanned | tests/BacklinkCheckerTest.php:344-356 | a successful page with one matching link gives that response and one record |
| BacklinkValue.NoTagConvention | tests/BacklinkTest.php:76-91 | the record accepts any field combination, for instance an "img" that is nofollow with target "_blank"; the getters return them |
| BacklinkValue.Getters | src/BacklinkChecker/Backlink.php:48-110 | every getter returns its constructor argument, and `getNoFollow` agrees with `isNoFollow` |
| BacklinkValue.Backlink.ToJson | src/BacklinkChecker/Backlink.php:119-122 | the serialised form is an object with the five properties in declaration order |
| BacklinkValue.JsonRoundTrip | src/BacklinkChecker/Backlink.php:119-122 | reading the serialised backlink back gives the same backlink |
| HttpResponseValue.BoolVal | src/BacklinkChecker/HttpResponse.php:61 | `boolval` is false exactly for null, false, 0, "", "0" and the empty array |
| HttpResponseValue.NewHttpResponse | src/BacklinkChecker/HttpResponse.php:55-63 | the constructor stores every argument as given, except success, which is false exactly for null, false, 0, "", "0" and the empty array |
| HttpResponseValue.HttpResponse.ToJson | src/BacklinkChecker/HttpResponse.php:143-149 | the serialised form is an object with the six properties in declaration order |
| HttpResponseValue.ScreenshotToJson | src/BacklinkChecker/HttpResponse.php:146-147 | the serialised screenshot is empty exactly when there is none, and otherwise starts with "data:image/jpeg;base64," |
| HttpResponseValue.ScreenshotDataUri | src/BacklinkChecker/HttpResponse.php:147 | a non-empty screenshot is serialised as exactly "data:image/jpeg;base64," followed by the base64 of its bytes |
| HttpResponseValue.ScreenshotRoundTrip | src/BacklinkChecker/HttpResponse.php:146-147 | stripping the prefix and base64-decoding gives the screenshot bytes back |
| HttpResponseValue.NoScreenshotJson | tests/HttpResponseTest.php:67-88 | without a screenshot the serialised form is the five stored fields verbatim and an empty screenshot |
| HttpResponseValue.SerializedFields | src/BacklinkChecker/HttpResponse.php:145-148 | url, statusCode, headers, response and success are serialised as stored; the screenshot field is empty exactly when there is no screenshot |
| HttpResponseValue.HeadersToJson | src/BacklinkChecker/HttpResponse.php:143-148 | `json_encode` writes no headers as the empty JSON array `[]` and other headers as an object from each name, in order, to its array of values |
| HttpResponseValue.HeadersRoundTrip | src/BacklinkChecker/HttpResponse.php:106-109 | headers serialised as `[]` or as an object of value arrays read back to the same headers |
| HttpResponseValue.JsonRoundTrip | tests/HttpResponseTest.php:144-155 | reading the serialised response back gives the same response, screenshot bytes included |
| BacklinkDataValue.Getters | src/BacklinkChecker/BacklinkData.php:30-50 | the getters return the response and the backlinks in their order |
| BacklinkDataValue.BacklinkData.ToJson | src/BacklinkChecker/BacklinkData.php:57-60 | the serialised form holds the response's and each backlink's own serialisation, in order |
| BacklinkDataValue.BacklinksRoundTrip | src/BacklinkChecker/BacklinkData.php:57-60 | the serialised backlink list reads back to the same backlinks, in order |
| BacklinkDataValue.JsonRoundTrip | src/BacklinkChecker/BacklinkData.php:57-60 | reading the serialised result back gives the same response and backlinks |
| Base64.Encode | src/BacklinkChecker/HttpResponse.php:147 | the encoding has 4 characters per started group of 3 bytes, all from the alphabet or the pad |
| Base64.RfcVectors | src/BacklinkChecker/HttpResponse.php:147 | the encoder gives the test vectors of section 10 of RFC 4648: "f" is "Zg==", "fo" is "Zm8=", "foobar" is "Zm9vYmFy" |
| Base64.Decode | src/BacklinkChecker/HttpResponse.php:147 | only a whole number of four-character groups decodes; the inverse of `base64_encode` read by a client of the data URI |
| Base64.DecodeEncode | src/BacklinkChecker/HttpResponse.php:147 | decoding the encoding gives the bytes back |
| Base64.GroupRoundTrip | src/BacklinkChecker/HttpResponse.php:147 | a full group of three bytes decodes back to those bytes |

## Left out

- Checker.GetBacklinks: reads the stored success flag where the code calls
  `$response->isSuccess()` (BacklinkChecker.php:146). `HttpResponse` declares
  only `getSuccess()` (HttpResponse.php:122), and both fetchers build plain
  `HttpResponse` objects, so as written every call that reaches line 146 stops
  with PHP's "Call to undefined method" error. The model takes `isSuccess` to
  mean `getSuccess`, which is what the tests expect.
- HttpResponseValue.HeadersToJson: headers are a map from header name to
  values. The headless-browser fetcher's placeholder `array(array())`
  (ChromeBacklinkChecker.php:74, :79) is a list holding one empty array, which
  `json_encode` writes as `[[]]`. It cannot be written in this type and is not
  modelled. A header map whose names PHP would turn into the keys 0, 1, 2, …
  would also be written as a JSON list. Real header names are never numeric,
  so this case is not modelled either.
- The concrete fetchers `SimpleBacklinkChecker` (HTTP client) and
  `ChromeBacklinkChecker` (headless browser) are left out because they do
  network and browser I/O. `browsePage` is a parameter, and its exceptions are
  whatever `Error` it returns.
- HTML parsing by simple_html_dom is left out. `Env.parse` stands for
  `str_get_html` followed by a walk of the tree in document order, and `None`
  stands for its `false`.
- PCRE syntax and matching are left out. `Env.compiles` and `Env.exec` are
  unconstrained, except for PHP's own delimiter check, which is modelled.
  `preg_match($pattern, null)` is read as a match on the empty subject.
- `html_entity_decode` is `Env.decode`. Examples only assume that it leaves
  text without `&` unchanged.
- The `is_array` guards on `find` and `explode` (BacklinkChecker.php:73, :82)
  are always true, so they are not modelled.
- `$dom->clear()` only frees memory, so it is not modelled.
- Default argument values of `getBacklinks` are not modelled. Every call
  passes all flags.
- The text layout of `json_encode` (escaping, slashes, number format) is left
  out. `ToJson` produces a JSON tree, and the `FromJson` readers exist only as
  round-trip partners.
- PHP's `base64_decode` is lenient and is not modelled. The strict decoder of
  RFC 4648 stands for a client reading the data URI.
- `boolval` on floats, objects and resources is left out. Its argument is
  limited to null, booleans, integers, strings and arrays.
- HttpResponseValue.HttpResponse: the PHP constructor is untyped, so any value
  could be stored in `url`, `statusCode`, `headers`, `response` or
  `screenshot`. The model types them as the docblocks describe.
