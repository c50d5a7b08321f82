# Localist events: the widget fetch, in Dafny

A model of `FetchEvents::fetch` from the Drupal module `localist_events`.
The method asks a Localist calendar for its event widget and returns the listed
events as records. Step by step:

1. It builds the widget URL from the configured domain and the block's options:
   `rtrim` the domain of its slashes, append `/widget/view`, then add eight
   `key=value` pairs joined with `&`, with no escaping.
2. It requests the URL. A status other than 200 gives the array
   `['error' => 'Localist Events could not be reached.']`.
3. It captures the escaped HTML fragment from the JavaScript reply with a
   case-insensitive regular expression. When the pattern does not match, the
   method returns null: `$items` is never assigned.
4. It `json_decode`s the capture and parses it as HTML.
5. It walks every `li` inside the first `ul`, those of nested lists included.
   For each item it fetches the detail page when the link's `href` is a valid
   URL, and takes the image from that page. It builds a five-field record and
   drops the falsy fields with `array_filter`.

The modules:

- `Php`: the PHP value semantics the method relies on. This covers truthiness,
  string interpolation, `intval`, `??`, `trim`/`rtrim`, `implode`, and
  `array_filter`. It also has `explode`, used to state what the query string
  contains.
- `WidgetQuery`: the endpoint, the options and the query string.
- `FragmentExtractor`: the regular expression, written as a search for the
  leftmost match and then its rightmost end. This is what PCRE returns for the
  greedy `.*`.
- `JsonString`: `json_decode` of a JSON string body, including its failure
  cases, and an encoder to state the round trip against.
- `ItemAssembler`: the item loop. It is an imperative method proved equal to
  a functional specification, and lemmas state what each record holds.
- `FetchEvents`: the whole method.

The HTTP client, the HTML parser and `filter_var` are parameters, bundled in
`ItemAssembler.Environment`:

- a GET function from URL to status and body;
- a parse function from HTML to the answers of the selector queries the method
  makes;
- a URL-validity predicate.

`Fetch` also returns the list of URLs it requested, in order. This lets the
model state which requests happen on each path.

Points where the code's behaviour is easy to misread:

- An option that is `false` renders as the empty string: `show_times` sends
  `show_times=` when the block omits it or passes `false`, and `show_times=0`
  only when the block passes the integer 0.
- The `?? 31` and `?? 3` fallbacks of `days` and `num` never apply. `intval`
  never yields null, so a missing, null or non-numeric value sends 0
  (`WidgetQuery.NumericDefaultsNeverApply`).
- A body the pattern does not match gives null, not the error entry.
- An item without a `.lwd` element, or a fragment without a `ul`, makes the
  method throw: a method is called on null. Other missing elements read as
  null, convert to `""` and are filtered out.
- The captured text is decoded as a JSON string. A raw `"` or a raw control
  character after well-formed text makes the decode fail
  (`JsonString.DecodeRawQuoteFails`). The greedy `.*` captures such a quote
  when the reply holds two closing divs each followed by `"`, and the parser
  then receives the empty string (`FetchEvents.GreedyCaptureLosesFragment`).

## Model

| member | source | states |
|---|---|---|
| `Php.Truthy` | src/FetchEvents.php:108 | PHP's boolean conversion as `array_filter` applies it: null, false, 0, `""` and `"0"` are falsy, markup objects truthy; see `ArrayFilterKeepsTruthy` |
| `Php.Digits` | src/FetchEvents.php:65 | the decimal spelling of an integer is a non-empty run of digits with no leading zero (only 0 itself starts with `0`), so 7 is sent as `7`, never `07` |
| `Php.Decimal` | src/FetchEvents.php:65 | the decimal spelling interpolation gives an integer: a `-` before the digits of a negative one; see `Digits`, `StrToIntDecimal` |
| `Php.ToStr` | src/FetchEvents.php:65 | string interpolation: null and false give `""`, true gives `1`, an integer its decimal spelling; see `StrToIntDecimal`, `OptionCoercions` |
| `Php.LeadingDigits` | src/FetchEvents.php:56-57 | the digit prefix `intval` reads is a prefix of the input, all digits, and maximal |
| `Php.StrToInt` | src/FetchEvents.php:56-57 | `intval` of a string: leading whitespace, an optional sign, then the digit prefix; see `StrToIntDecimal`, `StrToIntNonNumeric` |
| `Php.IntVal` | src/FetchEvents.php:56-57 | `intval` of any value; never null, so the `??` after it has no effect (`WidgetQuery.NumericDefaultsNeverApply`) |
| `Php.Index` | src/FetchEvents.php:53-60 | `$config[$key]`: the stored value, or null for a missing key; see `OptionCoercions` |
| `Php.NullCoalesce` | src/FetchEvents.php:56-57 | `$a ?? $b` on a computed value: the default exactly when the value is null; see `NumericDefaultsNeverApply` |
| `Php.Coalesce` | src/FetchEvents.php:54-60 | `$config[$key] ?? $b`: the default when the key is missing or holds null, the stored value otherwise; see `OptionCoercions` |
| `Php.StrToIntDecimal` | src/FetchEvents.php:56-57 | `intval` reads back exactly the integer that interpolation writes, negative ones included |
| `Php.DigitsRoundTrip` | src/FetchEvents.php:56-57 | the value of the decimal spelling of `n` is `n` |
| `Php.StrToIntNonNumeric` | src/FetchEvents.php:56-57 | a string whose first non-blank character is neither a digit nor a sign followed by a digit converts to 0 |
| `Php.RTrim` | src/FetchEvents.php:49 | `rtrim` with a character set; characterised by `RTrimProperties` and `RTrimUnique` |
| `Php.RTrimProperties` | src/FetchEvents.php:49 | `rtrim` keeps a prefix, removes only characters of the set, and leaves no such character at the end |
| `Php.RTrimUnique` | src/FetchEvents.php:49 | any prefix with those three properties is the result of `rtrim` |
| `Php.RTrimIdempotent` | src/FetchEvents.php:49 | `rtrim` applied twice equals `rtrim` applied once |
| `Php.LTrimProperties` | src/FetchEvents.php:102-103 | `ltrim` keeps a suffix, removes only characters of the set, and leaves no such character at the start |
| `Php.Trim` | src/FetchEvents.php:102-103 | `trim` with PHP's default characters; characterised by `TrimProperties` |
| `Php.TrimProperties` | src/FetchEvents.php:102-103 | `trim` yields the slice of the input left after removing only trim characters from both ends, with none left at either end, and is idempotent |
| `Php.Implode` | src/FetchEvents.php:67 | `implode`: the parts joined by the separator; inverted by `explode` (`ExplodeImplode`) |
| `Php.ExplodeImplode` | src/FetchEvents.php:67 | splitting an `implode` at its separator gives back the parts when no part holds the separator |
| `Php.ArrayFilter` | src/FetchEvents.php:108 | `array_filter` without a callback; fixed by `ArrayFilterSingle` and `ArrayFilterAppend`: the truthy entries, each once, in their original order |
| `Php.ArrayFilterSingle` | src/FetchEvents.php:108 | a one-entry array keeps its entry exactly when its value is truthy |
| `Php.ArrayFilterAppend` | src/FetchEvents.php:108 | filtering works entry by entry: the filter of a concatenation is the concatenation of the filters, so order is kept and nothing repeats |
| `Php.ArrayFilterDistinct` | src/FetchEvents.php:108 | an array with distinct keys keeps them distinct after filtering |
| `Php.ArrayFilterKeepsTruthy` | src/FetchEvents.php:108 | `array_filter` keeps an entry if and only if its value is truthy, and adds none |
| `Php.ArrayFilterAllTruthy` | src/FetchEvents.php:108 | filtering an array whose values are all truthy changes nothing |
| `Php.ArrayFilterIdempotent` | src/FetchEvents.php:108 | filtering twice is filtering once |
| `Php.ArrayFilterGet` | src/FetchEvents.php:108 | after filtering, a key finds its original value when that value is truthy, and nothing otherwise |
| `WidgetQuery.Endpoint` | src/FetchEvents.php:49-50 | the widget endpoint; see `EndpointShape` and the two lemmas after it |
| `WidgetQuery.Options` | src/FetchEvents.php:52-61 | exactly eight options, keyed id, schools, groups, days, num, all_instances, show_times, target_blank in that order |
| `WidgetQuery.Pairs` | src/FetchEvents.php:64-66 | exactly one string per option, in order, each the option's key, `=`, and its interpolated value |
| `WidgetQuery.QueryString` | src/FetchEvents.php:64-67 | the pairs joined with `&`, nothing escaped; see `QueryStringFields` |
| `WidgetQuery.ListingUrl` | src/FetchEvents.php:67 | the endpoint, `?`, and the query string; see `ListingUrlShape` |
| `WidgetQuery.EndpointShape` | src/FetchEvents.php:49-50 | the endpoint is the domain minus its trailing slashes, followed by `/widget/view`; only slashes were removed and none remains before the path |
| `WidgetQuery.EndpointOfTrimmedDomain` | src/FetchEvents.php:49-50 | trimming slashes from the domain beforehand does not change the endpoint |
| `WidgetQuery.EndpointOfCleanDomain` | src/FetchEvents.php:49-50 | a domain without a trailing slash gets the path appended unchanged |
| `WidgetQuery.OptionCoercions` | src/FetchEvents.php:52-61 | each option's rendered value: id as given; schools and groups `""` when missing or null; days and num are `intval` of `days` and `total`; booleans default to true, false, true and render as `1` or `""` |
| `WidgetQuery.NumericDefaultsNeverApply` | src/FetchEvents.php:56-57 | days and num always hold the `intval` of `days` and `total`, so the 31 and 3 fallbacks never fire; for either, a missing value, null, false or a string with no leading number sends 0 |
| `WidgetQuery.QueryStringFields` | src/FetchEvents.php:64-67 | when no value holds `&`, splitting the query at `&` gives exactly the eight `key=value` pairs in order |
| `WidgetQuery.ListingUrlShape` | src/FetchEvents.php:49-67 | when the domain holds no `?`, the first `?` of the URL follows the trimmed domain and `/widget/view`, and everything after it is the query string |
| `FragmentExtractor.LastEnd` | src/FetchEvents.php:74 | finds the largest closing quote below a bound that ends a match from a given start, or reports that there is none |
| `FragmentExtractor.FirstMatchFrom` | src/FetchEvents.php:74 | finds the first start from a position that has a match, together with its largest end |
| `FragmentExtractor.Locate` | src/FetchEvents.php:74-76 | no result if and only if the pattern matches nowhere; otherwise a match, with no match starting earlier and no longer match from the same start |
| `FragmentExtractor.Lower` | src/FetchEvents.php:74 | the ASCII case folding the `i` modifier applies; see `ExtractDelimiters`, `SliceMatches` |
| `FragmentExtractor.MatchesAt` | src/FetchEvents.php:74 | a literal of the pattern occurs at a position, letters compared case-insensitively; see `SliceMatches` |
| `FragmentExtractor.StartsAt` | src/FetchEvents.php:74 | a match may start here: `\u003c/style\u003e ` followed by `\u003cdiv`; see `ExtractBounds`, `ExtractDelimiters` |
| `FragmentExtractor.EndsAt` | src/FetchEvents.php:74 | a match from a start may end at a `"` that follows `\u003c/div\u003e`, with no line feed between the opening and closing divs; see `CaptureHasNoLineFeed`, `GreedyCapture` |
| `FragmentExtractor.IsMatch` | src/FetchEvents.php:74 | the whole pattern matches from a start to a quote; `Locate` returns the leftmost start and its rightmost end; see `ExtractNone`, `WholeCaptureMatches` |
| `FragmentExtractor.Extract` | src/FetchEvents.php:74-76 | `$matches[1]`, or nothing on no match; characterised by `ExtractBounds`, `ExtractDelimiters` and `ExtractNone` |
| `FragmentExtractor.ExtractBounds` | src/FetchEvents.php:74 | the capture is the slice of the body that follows `\u003c/style\u003e ` and precedes a `"`, and holds no line feed |
| `FragmentExtractor.ExtractDelimiters` | src/FetchEvents.php:74 | the capture opens with `\u003cdiv` and closes with `\u003c/div\u003e`, letters compared case-insensitively |
| `FragmentExtractor.CaptureOpensAndCloses` | src/FetchEvents.php:74 | the text between the bounds of the located match opens and closes with the div literals |
| `FragmentExtractor.CaptureHasNoLineFeed` | src/FetchEvents.php:74 | no line feed lies inside a matched capture |
| `FragmentExtractor.ExtractNone` | src/FetchEvents.php:74-76 | there is no capture exactly when no start and end form a match |
| `FragmentExtractor.GreedyCapture` | src/FetchEvents.php:74 | with two closing divs each followed by `"`, the capture runs to the last one and contains the first quote |
| `FragmentExtractor.WholeCaptureMatches` | src/FetchEvents.php:74 | the closing style tag, then a line-feed-free text that opens and closes with the div literals, then `"` matches the pattern up to that quote |
| `FragmentExtractor.SliceMatches` | src/FetchEvents.php:74 | a slice equal to a literal of the pattern matches it case-insensitively |
| `JsonString.Hex4` | src/FetchEvents.php:77 | four hex digits spell a UTF-16 code unit |
| `JsonString.Decode` | src/FetchEvents.php:77 | `json_decode` of a quoted string body, None where PHP gives null; see `DecodeEncode`, `DecodeAppend` and the failure lemmas |
| `JsonString.HexEscape` | src/FetchEvents.php:77 | a `\uXXXX` escape, in upper- or lower-case hex, whose digits spell the code unit |
| `JsonString.UnicodeEscape` | src/FetchEvents.php:77 | a lower-case `\uXXXX` escape whose digits spell the character |
| `JsonString.HighSurrogate` | src/FetchEvents.php:77 | the first code unit of a surrogate pair is a high surrogate |
| `JsonString.LowSurrogate` | src/FetchEvents.php:77 | the second code unit of a surrogate pair is a low surrogate |
| `JsonString.CombineSurrogates` | src/FetchEvents.php:77 | decoding combines the two surrogates of a character outside the basic plane back into it |
| `JsonString.DecodePair` | src/FetchEvents.php:77 | a surrogate-pair escape decodes to the character it spells, then the rest decodes as before |
| `JsonString.ShortSpellingsInvert` | src/FetchEvents.php:77 | each short escape the encoder may write (`\" \\ \/ \b \f \n \r \t`) decodes to the character it was written for |
| `JsonString.DecodeEscapeChar` | src/FetchEvents.php:77 | decoding one written character yields that character, then the decoding of the rest, whether it was written as itself, a short escape, a hex escape in either case or a surrogate pair |
| `JsonString.DecodeEncode` | src/FetchEvents.php:77 | `json_decode` inverts JSON string encoding, whichever spelling the encoder picks for each character |
| `JsonString.DecodePlain` | src/FetchEvents.php:77 | text without backslash, quote or control character decodes to itself |
| `JsonString.DecodeAppend` | src/FetchEvents.php:77 | after a text that decodes on its own, the rest decodes as if it stood alone, and the results concatenate; a failure in the rest fails the whole |
| `JsonString.DecodeHead` | src/FetchEvents.php:77 | the first decoding step: a character and the one to twelve input characters it reads, followed by the decoding of the remainder |
| `JsonString.HeadOfAppend` | src/FetchEvents.php:77 | the first decoding step reads the same with text appended |
| `JsonString.DecodeRawQuoteFails` | src/FetchEvents.php:74-77 | a raw quote or raw control character after any text that decodes makes the decode fail |
| `JsonString.DecodeBasicEscape` | src/FetchEvents.php:77 | a `\uXXXX` escape outside the surrogate range decodes to the character it spells, then the rest decodes as before |
| `JsonString.DecodeAngleBrackets` | src/FetchEvents.php:77 | the escapes `\u003c` and `\u003e` decode to `<` and `>` |
| `JsonString.LoneHighSurrogateFails` | src/FetchEvents.php:77 | a high surrogate not followed by an escape makes the decode fail |
| `ItemAssembler.DetailUrl` | src/FetchEvents.php:90-94 | the link's `href` when the link exists and the `href` is a valid URL; see `AssembleItem`, `DetailRequestsAreValidLinks` |
| `ItemAssembler.ChosenImage` | src/FetchEvents.php:86-98 | the detail page's header-card image when a detail page is fetched, the listing's image otherwise; see `RecordImage` |
| `ItemAssembler.OuterHtml` | src/FetchEvents.php:104-106 | `$element->outerHTML`, with a missing element read as null, which `Markup::create` turns into `""`; see `RecordImage`, `RecordMarkupFields` |
| `ItemAssembler.DateText` | src/FetchEvents.php:102 | `trim` of the date element's inner HTML, `""` when the element is missing; see `RecordDate` |
| `ItemAssembler.MarkupCreate` | src/FetchEvents.php:104-106 | the created value is truthy if and only if the markup is non-empty |
| `ItemAssembler.RawRecord` | src/FetchEvents.php:101-107 | five entries keyed date, description, image, link, location in that order |
| `ItemAssembler.RecordOf` | src/FetchEvents.php:101-108 | the filtered record of one item; see `RecordFieldsTruthy` and the `Record…` lemmas |
| `ItemAssembler.FieldKeys` | src/FetchEvents.php:101-107 | the five fields stand for the array keys date, description, image, link, location in that order, and distinct fields have distinct keys |
| `ItemAssembler.FirstUndescribed` | src/FetchEvents.php:83-103 | every item before the index has a `.lwd`; the item at the index, if any, has none |
| `ItemAssembler.Records` | src/FetchEvents.php:83-108 | the records of the first `n` items, one per item |
| `ItemAssembler.DetailRequests` | src/FetchEvents.php:83-98 | the detail pages requested for the first `n` items, in order; see `DetailRequestsAreValidLinks` |
| `ItemAssembler.RequestingItems` | src/FetchEvents.php:83-94 | the indices of the items among the first `n` whose detail page is requested: strictly increasing, and exactly those whose link has a valid `href` |
| `ItemAssembler.Assemble` | src/FetchEvents.php:80-109 | the loop's outcome and requests as a function; the loop `AssembleItems` is proved equal to it |
| `ItemAssembler.AssembleItem` | src/FetchEvents.php:84-108 | one pass of the loop body: a detail request exactly for a link whose `href` is valid, and a record exactly when the item has a `.lwd` |
| `ItemAssembler.AssembleItems` | src/FetchEvents.php:80-109 | the loop's outcome and requested URLs equal the specification `Assemble`: the records of all items, or the throw at the first item without a description after that item's own detail request |
| `ItemAssembler.AssembleStopsAt` | src/FetchEvents.php:83-103 | when the items before `i` are described and item `i` is not, the loop throws after the detail requests of the first `i + 1` items |
| `ItemAssembler.RecordsAt` | src/FetchEvents.php:83-108 | among the first `n` described items, the k-th record is built from the k-th item |
| `ItemAssembler.AssembleOnePerItem` | src/FetchEvents.php:83-109 | the loop completes if and only if every item has a description, and then yields one record per item in document order |
| `ItemAssembler.DetailRequestsAreValidLinks` | src/FetchEvents.php:90-94 | the detail requests of the first `n` items are, in order, the valid `href`s of exactly the items whose link has one: one request per such item and none for the others |
| `ItemAssembler.RecordFieldsTruthy` | src/FetchEvents.php:101-108 | every kept field is truthy and one of the five keys; re-filtering a record changes nothing; no key appears twice, as in a PHP array |
| `ItemAssembler.RawRecordDistinct` | src/FetchEvents.php:101-107 | the record keys are distinct |
| `ItemAssembler.RecordDate` | src/FetchEvents.php:84-108 | the record holds the trimmed date exactly when it is neither `""` nor `"0"` |
| `ItemAssembler.RecordDescription` | src/FetchEvents.php:87-108 | the record holds the trimmed description text exactly when it is neither `""` nor `"0"` |
| `ItemAssembler.RecordImage` | src/FetchEvents.php:86-108 | with a valid link the image comes only from the detail page's header card, otherwise from the listing; it is kept when its markup is non-empty |
| `ItemAssembler.RecordMarkupFields` | src/FetchEvents.php:105-108 | link and location are kept as markup exactly when the element exists with non-empty markup |
| `FetchEvents.DecodedHtml` | src/FetchEvents.php:77-79 | the decoded capture handed to the parser, `""` when the decode fails; see `GreedyCaptureLosesFragment` |
| `FetchEvents.ListedItems` | src/FetchEvents.php:74-83 | the list items the listing reply yields, none when the pattern does not match or the fragment has no `ul`; see `FetchedItems` |
| `FetchEvents.Fetch` | src/FetchEvents.php:47-119 | first request is the listing URL; non-200 gives the error entry and nothing else is requested; no match gives null; a fragment without a list throws; otherwise the item loop's records, or its throw, and its detail requests |
| `FetchEvents.FetchedItems` | src/FetchEvents.php:74-112 | for a reply whose capture decodes to a fragment with a list, the outcome `Fetch` returns is records exactly when every item is described, then one per item in order, with one detail request per item whose link has a valid `href`, in item order |
| `FetchEvents.GreedyCaptureLosesFragment` | src/FetchEvents.php:74-79 | with two closing divs each followed by `"`, and a well-formed text up to the first, the capture runs to the last one and the parser receives the empty string |
| `FetchEvents.GreedyCaptureUndecodable` | src/FetchEvents.php:74-79 | such a capture, holding a raw quote after well-formed text, reaches the parser as the empty string |
| `FetchEvents.QuotedAfter` | src/FetchEvents.php:77-79 | a capture with a raw quote after well-formed text reaches the parser as the empty string |

## Left out

- HTTP: Guzzle is a parameter that maps a URL to a status and a body. Two
  consequences are not captured:
  - Guzzle's default of throwing on 4xx/5xx replies. The model follows the
    status check in the code.
  - Transport errors.

  The status of a detail request is not checked by the code, and the model
  uses its body as is.
- HTML parsing and CSS-selector queries (`HTML5DOMDocument`): a parsed page is
  given by the answers to the queries the method makes. A missing `href`
  attribute reads as `""`.
- `filter_var(..., FILTER_VALIDATE_URL)`: a predicate supplied by the
  environment.
- Translation of the error message by `t()`: the English text is kept.
- The Drupal `Markup` object is a value that remembers its markup, with
  `Markup::create("")` returning the empty string.
- `Php.StrToInt`: does not model `intval`'s saturation at the 64-bit bounds,
  or a numeric string with an exponent (`"1e3"`, `".5e1"`), which PHP reads as
  a float before truncating. Integers are unbounded, and only the whitespace,
  sign and digit prefix is read; for a plain fraction such as `"1.9"` or
  `"-1.9"` this gives the same result as PHP's truncation.
- `FragmentExtractor.Locate`: does not model PCRE's backtracking limit. On a
  very long body PHP gives up and reports no match.
- `JsonString.Decode`: works on characters, not on UTF-8 bytes, so invalid
  UTF-8 in the reply is not modelled. A failed decode hands the parser the
  empty string, which is what the PHP null becomes.
- Record keys: the source's string array keys are the `Field` datatype in the
  model. `ItemAssembler.FieldKeys` maps the fields one-to-one onto "date",
  "description", "image", "link", "location", in that order.
- `LocalistEventsListBlock` and `LocalistEventsSettingsForm` are not part of
  this model. They supply the domain and the configuration array.
