# GeoRSS feed inspection and counting, modelled in Dafny

This project models the core of a MapReduce job. The job scans archived web
responses (WARC records), finds the syndication feeds that use the GeoRSS
namespace, and counts their geo tags, their distinct locations and their most
recent update time per URL. The model covers:

- **`WARCDoc`** (`WarcDocument.WARCDoc`), the wrapper around one archived
  HTTP response.
  - Its constructor reads the status line and the header block: names are
    trimmed and lower-cased, values trimmed, and the last write wins. For
    `content-type` it also takes the MIME type and the `charset=` parameter.
  - `isFeed`, `getHeader` and `getContentLength` answer from what the
    constructor collected.
  - `getNamespaces` reads at most 100 XML events, until the first element
    that declares namespaces, and caches the set it found.
  - `parseXml` runs at most once. For a feed whose namespaces include one
    in which "georss" first occurs at an index above 0, it continues on the same
    forward cursor. It counts the elements in that namespace, collects the
    hashes of their texts, and keeps the latest date among the `pubDate`,
    `updated` and `published` elements.
  - The four accessors trigger `parseXml` and return the cached metrics.

  The class keeps the source's fields and updates them in place. Its
  methods are proved against the pure specification functions of three
  modules:
  - `HttpPreamble`: the header block;
  - `XmlInspect`: namespace discovery and the metric scan over a sequence
    of StAX events;
  - `DateHelper`: `toEpochSec`.
- **`DateHelper.toEpochSec`** turns a date string into Unix seconds, or -1.
  - A 10-character date is handed on as `<date>T12:00:00`, with '/' read
    as '-' and no zone.
  - A `T` at index 10 selects the Atom format, after the sub-second digits
    are cut out; fewer than 19 characters are refused.
  - Anything else goes to the RSS format.
  - Milliseconds are divided by 1000 with Java's truncating division.
- **`GeoRSSCounter.ArrayLongSumReducer.reduce`** sums the `long[]` tuples of
  one key into the first array.
  - The sum is element by element and wraps around in 64 bits.
  - The result is written as decimals separated by tabs, and a last
    `setLength` drops the trailing tab.
  - It writes nothing when there are no tuples. An empty first array makes
    that `setLength` throw.
- **`GeoRSSCounter.ShortestTextComparator.compareShortest`**: null keys come
  first, then shorter keys, then `String.compareTo` order. The model proves
  that this is a total order.

`JavaString` holds the pieces of `java.lang.String`, `Integer.parseInt` and
`Long.toString` that the core relies on, and, for the lemma that reads a
written line back, `Long.parseLong`. Each is stated
with its own properties: trim, lower case, `indexOf`, `split`,
`replace(char, char)`, and decimal printing and parsing with round trips.

The model follows the code wherever its behaviour is subtle:

- **`parseXml`** (`src/com/gear11/warc/WARCDoc.java:236-247`): an element
  in the GeoRSS namespace that is also named `pubDate`, `updated` or
  `published` is counted first. The second `getElementText` then throws,
  which ends the scan (`XmlInspect.ScanEndsAtGeoDate`).
- **MIME type** (`WARCDoc.java:90`): the MIME type taken before a `;` is not
  trimmed.
- **Repeated `content-type` headers**: a later `content-type` header without
  a charset leaves an earlier charset in place. The charset therefore comes
  from the last `content-type` line that names one, which need not be the
  last `content-type` line (`HttpPreamble.ParseHeaderBlockContentType`).
- **Reader exceptions**: when the reader throws during discovery, the
  namespaces found so far stay cached and the document is not GeoRSS.
- **Date-only strings**: the comment on `WARCDoc.java:322` says a
  date-only string is fixed to midnight, but the code appends `T12:00:00`
  (noon). The model follows the code. That string carries no zone, while
  the Atom pattern `yyyy-MM-dd'T'HH:mm:ssX` (WARCDoc.java:296) ends in
  one. A parser that insists on that zone refuses the string, and then
  every date-only string gives -1 (`DateHelper.DateOnlyUnknownWithoutZone`).
  Whether Java's parser does so is up to the parser parameter, so the
  model proves only which string reaches the Atom format.
- **The -1 answer**: `toEpochSec` also answers -1 for a date that parses
  to an instant from 2000 ms (not included) to 1000 ms before the epoch,
  because `getTime() / 1000` truncates toward zero
  (`DateHelper.EpochSecUnknown`).

Where the source calls code that is not part of this model, that code is a
parameter:

| source call | parameter |
|---|---|
| `SimpleDateFormat.parse` for each of the two formats | a function from string to optional milliseconds (`DateHelper.DateParsers`) |
| `String.hashCode` | a function from string to int |
| the UTF-8 reader | the record as a sequence of lines |
| the StAX reader | the body as the sequence of events it would return (`XmlInspect.XmlEvent`) |

## Model

| member | source | states |
|---|---|---|
| HttpPreamble.StatusCodeIsSecondToken | src/com/gear11/warc/WARCDoc.java:68-70 | The status code exists exactly when the first line, split at single spaces, has a second piece that is a 32-bit decimal integer. Its value is that integer. |
| HttpPreamble.StatusLineCode | src/com/gear11/warc/WARCDoc.java:68-70 | A status code read from the first line is a 32-bit integer. |
| HttpPreamble.StatusCode | src/com/gear11/warc/WARCDoc.java:64-70 | A record with no lines fails for a missing status line, a record with lines never does, and any status code read is a 32-bit integer. |
| HttpPreamble.StatusCodeOfRecord | src/com/gear11/warc/WARCDoc.java:64-70 | A record has a status code exactly when it has a first line whose second space-separated piece is a 32-bit decimal integer, and the code is that integer. |
| HttpPreamble.HeaderEnd | src/com/gear11/warc/WARCDoc.java:73-77 | The header block is the lines before the first line that is blank after trimming. |
| HttpPreamble.BlankLineEndsHeaders | src/com/gear11/warc/WARCDoc.java:75-77 | Lines after the first blank line never affect the headers. |
| HttpPreamble.ParseHeaderBlockNames | src/com/gear11/warc/WARCDoc.java:73-85 | A name is in the header map exactly when some line of the block has a ':' after its first character, with that name (trimmed and lower-cased) before it. |
| HttpPreamble.ParseHeaderBlockNormalised | src/com/gear11/warc/WARCDoc.java:83 | Every name in the header map is trimmed and lower-case. |
| HttpPreamble.HeaderFieldNormalised | src/com/gear11/warc/WARCDoc.java:79-84 | The name a header line yields is trimmed and lower-case. |
| HttpPreamble.HeaderField | src/com/gear11/warc/WARCDoc.java:74-84 | A line that is blank once trimmed defines no header. |
| HttpPreamble.HeaderFieldSkips | src/com/gear11/warc/WARCDoc.java:74-84 | A line is skipped exactly when, once trimmed, it has no ':' or starts with one. A line without ':' is always skipped. |
| HttpPreamble.HeaderFieldValueTrimmed | src/com/gear11/warc/WARCDoc.java:84 | The value of a header is trimmed. |
| HttpPreamble.HeaderFieldOfLine | src/com/gear11/warc/WARCDoc.java:74-84 | A line `name:value` whose name starts, and whose value ends, with a visible character defines the header named by the trimmed, lower-cased name, with the trimmed value. |
| HttpPreamble.ContentType | src/com/gear11/warc/WARCDoc.java:88-99 | The MIME type is a prefix of the header value, and a charset is only found when the MIME type stops short of the whole value. |
| HttpPreamble.ContentTypePlain | src/com/gear11/warc/WARCDoc.java:88-99 | A value with no ';', or whose first character is ';', is all MIME type and names no charset. |
| HttpPreamble.ContentTypeNoCharset | src/com/gear11/warc/WARCDoc.java:88-99 | A MIME type followed by ';' and a remainder that, once trimmed, does not start with `charset=` gives that MIME type and no charset. |
| HttpPreamble.SetHeader | src/com/gear11/warc/WARCDoc.java:85-100 | Recording a header stores its value under its name. A header other than `content-type` leaves the MIME type and charset alone. A `content-type` header sets the MIME type to its media type. It replaces the charset when its value names one and leaves the charset unchanged otherwise. |
| HttpPreamble.ApplyFields | src/com/gear11/warc/WARCDoc.java:73-101 | The header loop never forgets a name it has recorded. |
| HttpPreamble.ParseHeaderBlock | src/com/gear11/warc/WARCDoc.java:73-101 | A header block that starts with a blank line, or is empty, leaves no headers, no MIME type and no charset. |
| HttpPreamble.ParseHeaderBlockLastWins | src/com/gear11/warc/WARCDoc.java:85 | A header line that no later line of the block overrides gives the stored value: the last write wins. |
| HttpPreamble.LastFieldWins | src/com/gear11/warc/WARCDoc.java:85 | Over any sequence of fields, a name keeps the value of its last definition. |
| HttpPreamble.NamesFromFields | src/com/gear11/warc/WARCDoc.java:85 | A name is in the map after a sequence of fields exactly when it was there before or some field defines it. |
| HttpPreamble.LastDefinition | src/com/gear11/warc/WARCDoc.java:85 | A stored value comes from some field with that name, and no later field defines the name. |
| HttpPreamble.SetHeaderOther | src/com/gear11/warc/WARCDoc.java:85 | Storing one header leaves every other name's presence and value unchanged. |
| HttpPreamble.ParseHeaderBlockContentType | src/com/gear11/warc/WARCDoc.java:86-100 | The MIME type is the media type of the current `content-type` value, and absent without one. There is a charset exactly when some `content-type` line of the block names one, and then it is the charset that the last such line names. |
| HttpPreamble.ParseHeaderBlockLastCharset | src/com/gear11/warc/WARCDoc.java:92-93 | A `content-type` line naming a charset, with no later line naming one, decides the charset. |
| HttpPreamble.CharsetFromLastField | src/com/gear11/warc/WARCDoc.java:86-100 | After a run of header fields, the charset is the one that the last `content-type` field naming a charset names. When no field names one, it is the charset from before the run. |
| HttpPreamble.LastCharsetField | src/com/gear11/warc/WARCDoc.java:92-93 | The index found is that of a `content-type` field naming a charset, with no later field naming one, or -1 when no field does. |
| HttpPreamble.ContentTypeTracked | src/com/gear11/warc/WARCDoc.java:86-100 | Every header stored keeps the MIME type and charset in step with the `content-type` header. |
| HttpPreamble.SetHeaderTracks | src/com/gear11/warc/WARCDoc.java:87-99 | Storing one header keeps the MIME type and charset in step with the `content-type` header. |
| HttpPreamble.ContentTypeWithCharset | src/com/gear11/warc/WARCDoc.java:88-96 | A MIME type without ';', followed by ';', optional white space and `charset=` plus a value, gives back that MIME type and that charset. |
| HttpPreamble.TrimStartPad | src/com/gear11/warc/WARCDoc.java:91 | Leading white space before a value does not change its left trim. |
| HttpPreamble.HeaderValueIgnoresCase | src/com/gear11/warc/WARCDoc.java:121-123 | Looking a header up gives the same answer for a name and its lower-case form. |
| HttpPreamble.HeaderValueFromLines | src/com/gear11/warc/WARCDoc.java:121-123 | `getHeader` gives nothing exactly when no header line defines the lower-cased name. Otherwise it gives the value of a line that defines it and that no later line overrides. |
| HttpPreamble.HeaderValue | src/com/gear11/warc/WARCDoc.java:121-123 | A header value looked up is one of the values recorded. |
| HttpPreamble.ContentLength | src/com/gear11/warc/WARCDoc.java:142-148 | Without a `content-length` header the length is -1. With one, it throws `NumberFormatException` exactly when `Integer.parseInt` refuses the value, and otherwise it is the parsed value, a 32-bit integer. |
| HttpPreamble.ContentLengthReadsBack | src/com/gear11/warc/WARCDoc.java:142-148 | A `content-length` header holding the decimal form of a 32-bit integer reads back as that integer. |
| HttpPreamble.ContentLengthOfDecimal | src/com/gear11/warc/WARCDoc.java:142-148 | A `content-length` value made of an optional sign and digits, leading zeros and "+" included, gives its value when that is a 32-bit integer and throws `NumberFormatException` otherwise. |
| HttpPreamble.ContentLengthNotNumeric | src/com/gear11/warc/WARCDoc.java:142-148 | A `content-length` value that is empty, a bare sign, or has a non-digit after the optional sign throws `NumberFormatException`. |
| HttpPreamble.IsFeedFromContentType | src/com/gear11/warc/WARCDoc.java:107-109 | A parsed response is a feed exactly when it has a `content-type` header whose media type is `text/xml`, `text/rss+xml` or `application/rss+xml`. |
| HttpPreamble.IsFeedType | src/com/gear11/warc/WARCDoc.java:48-52 | A feed has a MIME type, and that type ends in "xml". |
| HttpPreamble.HeaderLoopStep | src/com/gear11/warc/WARCDoc.java:73-101 | Reading one more header line folds exactly that line's field into the headers collected so far. |
| WarcDocument.WARCDoc.constructor | src/com/gear11/warc/WARCDoc.java:64-102 | After the header loop, the headers, MIME type and charset are those of the header block. Nothing has been parsed, no namespaces are cached, and the metrics are the initial ones. |
| WarcDocument.WARCDoc.ReadHeaders | src/com/gear11/warc/WARCDoc.java:73-101 | The constructor's loop over the header lines ends with exactly the headers, MIME type and charset that the header block defines. |
| WarcDocument.WARCDoc.ReadHeaderLine | src/com/gear11/warc/WARCDoc.java:74-85 | Only before any parse: a line that is blank after trimming reports the end of the headers and changes nothing. Any other line records its field, or nothing when it has no ':' after its first character. |
| WarcDocument.WARCDoc.PutHeader | src/com/gear11/warc/WARCDoc.java:85-100 | Only before any parse: storing a header updates the map and, for `content-type`, the MIME type and charset, exactly as the header-block specification does. |
| WarcDocument.WARCDoc.Open | src/com/gear11/warc/WARCDoc.java:64-70 | Opening a record fails, as the Java constructor throws, exactly when the status line or its code is missing or malformed. Otherwise the document is fresh and valid, with that status code and the headers of the following lines. |
| WarcDocument.WARCDoc.IsFeed | src/com/gear11/warc/WARCDoc.java:107-109 | For a document read by the constructor, it is a feed exactly when it has a `content-type` header whose MIME type is one of the three feed types. |
| WarcDocument.WARCDoc.GetHeader | src/com/gear11/warc/WARCDoc.java:121-123 | Looking up a name finds the header recorded under its lower-case form, and any value found is one of the recorded values. |
| WarcDocument.WARCDoc.GetContentLength | src/com/gear11/warc/WARCDoc.java:142-148 | Without a `content-length` header the length is -1. With one, it fails exactly when `Integer.parseInt` refuses the value. Any length found is a 32-bit integer. |
| WarcDocument.WARCDoc.GetNamespaces | src/com/gear11/warc/WARCDoc.java:260-278 | The first call runs discovery from the cursor, caches its set and moves the cursor past the events read; it fails where the reader throws. Later calls return the cached set and consume nothing. |
| WarcDocument.WARCDoc.DiscoverNamespaces | src/com/gear11/warc/WARCDoc.java:262-275 | The loop leaves the cached set, the cursor and the thrown flag as the discovery specification gives them. |
| WarcDocument.WARCDoc.AddDeclared | src/com/gear11/warc/WARCDoc.java:270-273 | The cached set grows by exactly the URIs the element declares. |
| WarcDocument.WARCDoc.PickGeoNamespace | src/com/gear11/warc/WARCDoc.java:214-219 | The namespace picked is one of the discovered ones and its first occurrence of "georss" is at an index above 0. None is picked exactly when no discovered namespace qualifies. |
| WarcDocument.WARCDoc.ParseXml | src/com/gear11/warc/WARCDoc.java:202-253 | After the first call, a later call changes nothing. A non-feed is only marked parsed. A feed is GeoRSS exactly when discovery did not throw and found a qualifying namespace; its metrics are then the scan that continues from where discovery stopped. Otherwise the metrics stay initial. The document invariant is kept throughout. |
| WarcDocument.WARCDoc.ParseFeed | src/com/gear11/warc/WARCDoc.java:211-252 | For a feed: the namespaces, the GeoRSS decision and the metrics are those of discovery followed by the scan in the chosen namespace. |
| WarcDocument.WARCDoc.ScanFeed | src/com/gear11/warc/WARCDoc.java:229-252 | The scan from the initial metrics ends with the metrics and cursor of the scan specification. Locations never exceed tags and the date is at least -1. |
| WarcDocument.WARCDoc.ScanMetrics | src/com/gear11/warc/WARCDoc.java:229-252 | The loop leaves the tag count, the location hashes, the most recent date and the cursor exactly as the scan specification gives them, from the old cursor and the old metrics. |
| WarcDocument.WARCDoc.ScanEvent | src/com/gear11/warc/WARCDoc.java:232-248 | Each turn consumes at least one event. Either what remains of the scan is unchanged or the scan has finished with the current metrics. |
| WarcDocument.WARCDoc.CountGeoTags | src/com/gear11/warc/WARCDoc.java:176-179 | Triggers the one-time parse and returns the cached tag count. |
| WarcDocument.WARCDoc.IsGeoRss | src/com/gear11/warc/WARCDoc.java:184-187 | Triggers the one-time parse and returns the cached GeoRSS decision. |
| WarcDocument.WARCDoc.CountLocations | src/com/gear11/warc/WARCDoc.java:192-195 | Triggers the one-time parse and returns the number of distinct location hashes. |
| WarcDocument.WARCDoc.GetUpdatedAt | src/com/gear11/warc/WARCDoc.java:197-200 | Triggers the one-time parse and returns the most recent date. |
| WarcDocument.Inspect | src/com/gear11/warc/GeoRSSCounter.java:59-66 | The mapper's questions. Locations never exceed tags and the date is at least -1. A document that is not GeoRSS reports 0, 0 and -1, and a document that is not a feed is never GeoRSS. A parsed document's answers are its cached ones. |
| WarcDocument.InspectTwice | src/com/gear11/warc/WARCDoc.java:203-206 | The parse runs once: asking every accessor a second time gives the first round's answers. |
| XmlInspect.DiscoverSpec | src/com/gear11/warc/WARCDoc.java:264-275 | Discovery reads no more than 100 events and stops just after the first element that declares a namespace, or after the reader throws. Its result is exactly that element's URIs, or the empty set. |
| XmlInspect.DiscoverFromSpec | src/com/gear11/warc/WARCDoc.java:265-275 | From any point of the loop, discovery ends at the first stopping event within the budget, and its result is described by that event. |
| XmlInspect.DiscoverFrom | src/com/gear11/warc/WARCDoc.java:265-275 | The discovery loop never moves its cursor backwards or past the end of the events. |
| XmlInspect.Discover | src/com/gear11/warc/WARCDoc.java:260-278 | Discovery from a position ends between that position and the end of the events. |
| XmlInspect.Qualifies | src/com/gear11/warc/WARCDoc.java:215 | A GeoRSS namespace is longer than "georss" itself, because the first occurrence must be at an index above 0. |
| XmlInspect.DiscoverStops | src/com/gear11/warc/WARCDoc.java:269-273 | An element declaring namespaces, or a reader error, ends discovery right after it. |
| XmlInspect.DiscoverSkips | src/com/gear11/warc/WARCDoc.java:265-268 | Any other event is skipped and does not change where or how discovery ends. |
| XmlInspect.FirstStop | src/com/gear11/warc/WARCDoc.java:265 | The first event in a range that ends discovery; no earlier event does. |
| XmlInspect.UriSet | src/com/gear11/warc/WARCDoc.java:271-273 | The set holds exactly the URIs the element declares. |
| XmlInspect.ElementText | src/com/gear11/warc/WARCDoc.java:237 | `getElementText` succeeds only on text-only content ending at an end tag. It never passes a start tag or a reader error. |
| XmlInspect.ElementTextReads | src/com/gear11/warc/WARCDoc.java:237 | `getElementText` over character data and skipped events up to an end tag returns the character data concatenated in order, and stops right after that end tag. |
| XmlInspect.ScanFromInitial | src/com/gear11/warc/WARCDoc.java:229-252 | From the initial metrics, the scan never finds more distinct locations than tags, nor more tags than there are start tags in the GeoRSS namespace, and its date is at least -1. |
| XmlInspect.Scan | src/com/gear11/warc/WARCDoc.java:229-252 | The scan never moves its cursor backwards or past the end of the events. |
| XmlInspect.CountTag | src/com/gear11/warc/WARCDoc.java:239-240 | Counting a geo element adds one to the count, keeps the date, keeps the hashes already seen and adds the new one. |
| XmlInspect.FoldDate | src/com/gear11/warc/WARCDoc.java:245-246 | Folding in a date gives one at least as recent as both, and leaves the count and the hashes alone. |
| XmlInspect.ScanGrows | src/com/gear11/warc/WARCDoc.java:231-248 | The scan only adds to the metrics: the tag count and the hash set grow, new hashes never exceed new tags, new tags never exceed the GeoRSS start tags ahead, and the date never decreases. |
| XmlInspect.ScanGrowsGeo | src/com/gear11/warc/WARCDoc.java:236-241 | A GeoRSS element's step keeps the growth property. |
| XmlInspect.ScanGrowsDate | src/com/gear11/warc/WARCDoc.java:242-247 | A date element's step keeps the growth property. |
| XmlInspect.GrowsAfterTag | src/com/gear11/warc/WARCDoc.java:239-240 | Counting one tag with one hash keeps the growth bounds. |
| XmlInspect.GrowsAfterDate | src/com/gear11/warc/WARCDoc.java:245-246 | Folding one date in with `max` keeps the growth bounds. |
| XmlInspect.GeoStartsSkip | src/com/gear11/warc/WARCDoc.java:237 | The text of an element holds no start tags, so skipping it leaves the count of GeoRSS start tags ahead unchanged. |
| XmlInspect.ScanStopsAtError | src/com/gear11/warc/WARCDoc.java:250-252 | A reader error ends the scan and keeps the metrics collected so far. |
| XmlInspect.ScanCountsGeoElement | src/com/gear11/warc/WARCDoc.java:236-241 | A text-only element in the GeoRSS namespace, whose end tag has no date name, adds one tag and the hash of its text, the concatenation of its character data. The scan then continues after it. |
| XmlInspect.ScanFoldsDateElement | src/com/gear11/warc/WARCDoc.java:242-247 | A text-only date element outside the GeoRSS namespace folds the date of its text into the most recent one with `max`. The scan then continues after it. |
| XmlInspect.ScanEndsAtGeoDate | src/com/gear11/warc/WARCDoc.java:236-247 | A text-only GeoRSS element whose end tag has a date name is counted with the hash of its text, and then the scan ends. |
| XmlInspect.Max | src/com/gear11/warc/WARCDoc.java:246 | `Math.max`: the larger of the two values. |
| DateHelper.ToEpochSec | src/com/gear11/warc/WARCDoc.java:304-368 | The method with its loop computes the `toEpochSec` specification for every input. |
| DateHelper.EpochSec | src/com/gear11/warc/WARCDoc.java:304-368 | A missing date or one shorter than 10 characters gives -1. |
| DateHelper.EpochSecUnknown | src/com/gear11/warc/WARCDoc.java:304-368 | The answer is -1 exactly when the date is missing or short, the Atom string is under 19 characters after its fraction is removed, the chosen format cannot parse it, or it parses to an instant from 2000 ms (not included) to 1000 ms before the epoch. |
| DateHelper.AtomTooShort | src/com/gear11/warc/WARCDoc.java:348-350 | An Atom timestamp that is under 19 characters once its fraction is removed gives -1. |
| DateHelper.ParseFailureIsUnknown | src/com/gear11/warc/WARCDoc.java:351-366 | A date that the chosen format, Atom or RSS, cannot parse gives -1. |
| DateHelper.Seconds | src/com/gear11/warc/WARCDoc.java:351-366 | A parsed instant at or after the epoch gives a non-negative number of seconds. |
| DateHelper.SecondsUnknown | src/com/gear11/warc/WARCDoc.java:353 | The seconds are -1 exactly for a parse failure or an instant from 2000 ms (not included) to 1000 ms before the epoch. |
| DateHelper.Timestamp | src/com/gear11/warc/WARCDoc.java:323-326 | A 10-character date becomes a 19-character timestamp with 'T' at index 10. Any other string is left as it is. |
| DateHelper.StripFraction | src/com/gear11/warc/WARCDoc.java:331-346 | Cutting out the fraction never makes the string longer. |
| DateHelper.StripSubseconds | src/com/gear11/warc/WARCDoc.java:331-346 | The digit scan removes exactly the specification's sub-second part. |
| DateHelper.EpochSecFromParser | src/com/gear11/warc/WARCDoc.java:351-366 | The answer is -1, or the truncated seconds of an instant that one of the two formats returned, for a string of at least 10 characters. |
| DateHelper.DateOnlyToTimestamp | src/com/gear11/warc/WARCDoc.java:323-326 | A 10-character date has '/' read as '-' and nine characters of time appended. |
| DateHelper.DateOnlyGoesToAtom | src/com/gear11/warc/WARCDoc.java:323-357 | A 10-character date without '.' is handed to the Atom format unchanged past the rewrite: the date with '/' read as '-', then `T12:00:00`, with no zone. |
| DateHelper.DateOnlyUnknownWithoutZone | src/com/gear11/warc/WARCDoc.java:296-357 | When the Atom format refuses a timestamp without a zone, a 10-character date without '.' gives -1. |
| DateHelper.StripFractionCuts | src/com/gear11/warc/WARCDoc.java:331-345 | A '.' followed by digits is cut out together with the digits, up to the next non-digit. What follows, such as a time zone, is kept. |
| DateHelper.StripFractionNoDot | src/com/gear11/warc/WARCDoc.java:332 | A string without '.' is left as it is. |
| DateHelper.DigitRunEnd | src/com/gear11/warc/WARCDoc.java:335-339 | The end of the run of digits: everything before it is a digit, and the character at it is not. |
| DateHelper.DigitRunEndIs | src/com/gear11/warc/WARCDoc.java:335-339 | Any run of digits followed by a non-digit, or by the end of the string, is the run the scan finds. |
| DateHelper.FractionIgnored | src/com/gear11/warc/WARCDoc.java:329-357 | An Atom timestamp with a fraction after its seconds gives the same epoch seconds as without it. |
| DateHelper.RssUntouched | src/com/gear11/warc/WARCDoc.java:359-366 | A string of more than 10 characters without 'T' at index 10 goes to the RSS format unchanged. |
| DateHelper.ExampleFractionZulu | src/com/gear11/warc/WARCDoc.java:313-314 | "2003-12-13T18:30:02.25Z" reads as "2003-12-13T18:30:02Z". |
| DateHelper.ExampleFractionOffset | src/com/gear11/warc/WARCDoc.java:315-316 | "2003-12-13T18:30:02.25+01:00" reads as "2003-12-13T18:30:02+01:00". |
| DateHelper.ExampleNoSeconds | src/com/gear11/warc/WARCDoc.java:348-350 | An Atom timestamp without seconds is too short once its fraction is gone, and gives -1. |
| DateHelper.DivTruncIsJava | src/com/gear11/warc/WARCDoc.java:353 | `getTime() / 1000` truncates toward zero: the remainder is smaller than the divisor and has the sign of the dividend. |
| DateHelper.DivTrunc | src/com/gear11/warc/WARCDoc.java:353 | The truncated quotient has the sign of the dividend: non-negative for a non-negative dividend, non-positive for a non-positive one. |
| DateHelper.DivTruncNonNegative | src/com/gear11/warc/WARCDoc.java:353 | For a non-negative dividend the remainder lies in [0, divisor). |
| DateHelper.DivTruncNegative | src/com/gear11/warc/WARCDoc.java:362 | For a negative dividend the remainder lies in (-divisor, 0]. |
| GeoRssCounter.ArrayLongSumReducer.Reduce | src/com/gear11/warc/GeoRSSCounter.java:90-114 | The output is the reduce specification of the tuples. The first array ends up holding the sums, the other arrays are untouched. The builder holds the line written, is empty when the first array is, and is left alone when there are no tuples. |
| GeoRssCounter.ArrayLongSumReducer.Accumulate | src/com/gear11/warc/GeoRSSCounter.java:92-103 | There is no accumulator exactly when there are no tuples. Otherwise the accumulator is the first array, and it holds the column sums of all tuples. |
| GeoRssCounter.ArrayLongSumReducer.AddInPlace | src/com/gear11/warc/GeoRSSCounter.java:99-101 | The accumulator gets the other tuple added, with 64-bit wrap, at every index below both lengths. |
| GeoRssCounter.ArrayLongSumReducer.Format | src/com/gear11/warc/GeoRSSCounter.java:107-112 | The builder loop and the final `setLength` produce the formatted line of the sums. An empty array gives the index-out-of-bounds outcome and leaves the builder empty. |
| GeoRssCounter.ArrayLongSumReducer.constructor | src/com/gear11/warc/GeoRSSCounter.java:86-87 | The builder starts empty. |
| GeoRssCounter.SumRowsColumn | src/com/gear11/warc/GeoRSSCounter.java:93-103 | Where every tuple has an element i, the accumulator's element i is the exact column total, wrapped to 64 bits. |
| GeoRssCounter.SumRowsEqualLengths | src/com/gear11/warc/GeoRSSCounter.java:93-103 | For tuples of equal length, each sum is the wrapped column total, and it is the exact total when that fits in a `long`. |
| GeoRssCounter.AddIntoKeepsTail | src/com/gear11/warc/GeoRSSCounter.java:99 | Elements of the accumulator beyond a shorter tuple's length are left as they were. |
| GeoRssCounter.AddInto | src/com/gear11/warc/GeoRSSCounter.java:99-101 | Adding a tuple keeps the accumulator's length. |
| GeoRssCounter.SumRows | src/com/gear11/warc/GeoRSSCounter.java:93-103 | The accumulator has the first tuple's length. |
| GeoRssCounter.AddLongIsWrap | src/com/gear11/warc/GeoRSSCounter.java:100 | Java's `long` addition is addition modulo 2^64, into the signed range. |
| GeoRssCounter.AddLong | src/com/gear11/warc/GeoRSSCounter.java:100 | A sum within the `long` range is exact. A sum above it wraps to a negative value, and a sum below it wraps to a non-negative value. |
| GeoRssCounter.Wrap | src/com/gear11/warc/GeoRSSCounter.java:100 | The wrapped value is congruent to the exact one modulo 2^64. |
| GeoRssCounter.WrapInRange | src/com/gear11/warc/GeoRSSCounter.java:100 | A value within the `long` range wraps to itself. |
| GeoRssCounter.WrapAdd | src/com/gear11/warc/GeoRSSCounter.java:100 | Wrapping after every addition is the same as wrapping the exact total once. |
| GeoRssCounter.LongCongruent | src/com/gear11/warc/GeoRSSCounter.java:100 | Two `long`s congruent modulo 2^64 are equal. |
| GeoRssCounter.ModMultiple | src/com/gear11/warc/GeoRSSCounter.java:100 | A multiple of 2^64 is 0 modulo 2^64. |
| GeoRssCounter.FormattedIsJoin | src/com/gear11/warc/GeoRSSCounter.java:107-112 | The line is the decimal sums joined by single tabs, with no trailing tab. An empty array throws exactly then. |
| GeoRssCounter.TabbedIsJoin | src/com/gear11/warc/GeoRSSCounter.java:108-110 | The builder after the loop holds the decimals joined by tabs, plus one trailing tab. |
| GeoRssCounter.Tabbed | src/com/gear11/warc/GeoRSSCounter.java:108-110 | The loop writes at least one character, its tab, per decimal. |
| GeoRssCounter.Formatted | src/com/gear11/warc/GeoRSSCounter.java:107-112 | Formatting the sums always ends in a line or an exception, never in silence, and at least one sum always gives a written line. |
| GeoRssCounter.ReduceSpec | src/com/gear11/warc/GeoRSSCounter.java:90-114 | `reduce` writes nothing exactly when there are no tuples. |
| GeoRssCounter.TabbedSnoc | src/com/gear11/warc/GeoRSSCounter.java:109 | Each turn of the loop appends one decimal and one tab. |
| GeoRssCounter.WrittenLineReadsBack | src/com/gear11/warc/GeoRSSCounter.java:107-113 | The written line has one tab fewer than there are sums. Splitting it at tabs gives back the decimals, and each decimal parses back to its sum. |
| GeoRssCounter.NoTabInDecimal | src/com/gear11/warc/GeoRSSCounter.java:109 | A printed `long` never contains a tab. |
| GeoRssCounter.NoTabInDecimals | src/com/gear11/warc/GeoRSSCounter.java:108-110 | None of the printed sums contains a tab. |
| GeoRssCounter.Decimals | src/com/gear11/warc/GeoRSSCounter.java:109 | One decimal per sum. |
| GeoRssCounter.ReduceExample | src/com/gear11/warc/GeoRSSCounter.java:90-114 | The tuples [100, 2, 2] and [50, 3, 1] of one URL are written as "150\t5\t3". |
| GeoRssCounter.CompareTo | src/com/gear11/warc/GeoRSSCounter.java:151 | `String.compareTo` is zero exactly for equal strings. |
| GeoRssCounter.CompareToIsLex | src/com/gear11/warc/GeoRSSCounter.java:151 | `compareTo` is negative exactly when the first string is lexicographically smaller: a proper prefix, or smaller at the first difference. |
| GeoRssCounter.CompareToNegativeIsLex | src/com/gear11/warc/GeoRSSCounter.java:151 | A negative `compareTo` means lexicographically smaller. |
| GeoRssCounter.LexIsCompareToNegative | src/com/gear11/warc/GeoRSSCounter.java:151 | Lexicographically smaller means a negative `compareTo`. |
| GeoRssCounter.CompareToAntisymmetric | src/com/gear11/warc/GeoRSSCounter.java:151 | Swapping the strings negates `compareTo`. |
| GeoRssCounter.CompareToTransitive | src/com/gear11/warc/GeoRSSCounter.java:151 | `compareTo` order is transitive. |
| GeoRssCounter.CompareShortestOrder | src/com/gear11/warc/GeoRSSCounter.java:144-152 | The comparator is negative exactly when the first key comes first: null before any string, then shorter before longer, then lexicographic order. |
| GeoRssCounter.CompareShortest | src/com/gear11/warc/GeoRSSCounter.java:144-152 | A null key comes before a present one, and a shorter key before a longer one. |
| GeoRssCounter.CompareShortestZero | src/com/gear11/warc/GeoRSSCounter.java:144-152 | The comparator is zero exactly for equal keys, both null included. |
| GeoRssCounter.CompareShortestAntisymmetric | src/com/gear11/warc/GeoRSSCounter.java:144-152 | Swapping the keys negates the comparator. |
| GeoRssCounter.CompareShortestTransitive | src/com/gear11/warc/GeoRSSCounter.java:144-152 | The comparator's order is transitive, so it is a total order, as the job's sort needs (GeoRSSCounter.java:196). |
| JavaString.TrimFacts | src/com/gear11/warc/WARCDoc.java:74 | A trimmed line has no character at or below U+0020 at either end. It is empty exactly when the whole line is such characters. |
| JavaString.Trim | src/com/gear11/warc/WARCDoc.java:74 | Trimming never makes a string longer. |
| JavaString.TrimStartFacts | src/com/gear11/warc/WARCDoc.java:74 | The left trim drops exactly the leading run of characters at or below U+0020. |
| JavaString.TrimEndFacts | src/com/gear11/warc/WARCDoc.java:74 | The right trim drops exactly the trailing run of characters at or below U+0020. |
| JavaString.TrimFixed | src/com/gear11/warc/WARCDoc.java:84 | A string with no trimmable character at either end is its own trim. |
| JavaString.TrimIdempotent | src/com/gear11/warc/WARCDoc.java:84 | Trimming a trimmed string changes nothing. |
| JavaString.TrimIsInside | src/com/gear11/warc/WARCDoc.java:74 | The trim of a string holds no character the string lacks. |
| JavaString.ToLower | src/com/gear11/warc/WARCDoc.java:83 | Lower-casing maps every character and keeps the length. |
| JavaString.ToLowerIdempotent | src/com/gear11/warc/WARCDoc.java:122 | Lower-casing twice is lower-casing once, so `getHeader` of a stored name finds it. |
| JavaString.ToLowerOfTrimmed | src/com/gear11/warc/WARCDoc.java:83 | A trimmed, lower-cased name stays trimmed. |
| JavaString.LowerCharFacts | src/com/gear11/warc/WARCDoc.java:83 | Lower-casing a character is idempotent and does not change whether it is trimmable. |
| JavaString.IndexOfFacts | src/com/gear11/warc/WARCDoc.java:79 | `indexOf(':')` is -1 exactly when there is no ':'. Otherwise it is the position of the first ':'. |
| JavaString.IndexOfAppend | src/com/gear11/warc/WARCDoc.java:331 | The first '.' of a string whose prefix has none is at the end of that prefix. |
| JavaString.IndexOf | src/com/gear11/warc/WARCDoc.java:88 | The index lies in [-1, length). |
| JavaString.IndexOfSub | src/com/gear11/warc/WARCDoc.java:215 | `indexOf("georss")` is the first position where the substring occurs, or -1 when it occurs nowhere. |
| JavaString.IndexOfFrom | src/com/gear11/warc/WARCDoc.java:215 | The search from a position finds the first occurrence at or after it. |
| JavaString.ReplaceChar | src/com/gear11/warc/WARCDoc.java:324 | `replace('/', '-')` changes exactly the '/' characters. |
| JavaString.SplitAtPieces | src/com/gear11/warc/WARCDoc.java:69 | No piece of a split contains the separator. |
| JavaString.SplitAt | src/com/gear11/warc/WARCDoc.java:69 | Splitting always gives at least one piece. |
| JavaString.JavaSplit | src/com/gear11/warc/WARCDoc.java:69 | `split` gives a prefix of the pieces between the separators, because it only drops trailing empty pieces. |
| JavaString.SplitJoin | src/com/gear11/warc/GeoRSSCounter.java:107-112 | Splitting separator-free pieces joined by the separator gives the pieces back. |
| JavaString.JoinSplit | src/com/gear11/warc/WARCDoc.java:69 | Joining the pieces of a split by the separator gives the string back. |
| JavaString.JavaSplitPiece | src/com/gear11/warc/WARCDoc.java:69 | `split(" ")` keeps every piece at its index, and only trailing empty pieces are dropped. |
| JavaString.DropTrailingEmpty | src/com/gear11/warc/WARCDoc.java:69 | The result is the pieces up to and including the last non-empty one. |
| JavaString.JoinWithCount | src/com/gear11/warc/GeoRSSCounter.java:107-112 | Joining n separator-free pieces puts exactly n - 1 separators in the text. |
| JavaString.JoinWith | src/com/gear11/warc/GeoRSSCounter.java:107-112 | Joining a single piece gives that piece, with no separator. |
| JavaString.CountCharAppend | src/com/gear11/warc/GeoRSSCounter.java:109 | Counting a character is additive over concatenation. |
| JavaString.CountCharAbsent | src/com/gear11/warc/GeoRSSCounter.java:109 | An absent character is counted zero times. |
| JavaString.NatToString | src/com/gear11/warc/GeoRSSCounter.java:109 | The decimal digits of a natural number have no leading zero and read back as the number. |
| JavaString.IntToString | src/com/gear11/warc/GeoRSSCounter.java:109 | `append(long)` prints digits, preceded by '-' for a negative value. |
| JavaString.ParseInteger | src/com/gear11/warc/WARCDoc.java:147 | A parsed integer is within the type's bounds, came from an optional sign followed by digits only, and is the value those digits denote, negated after '-'. |
| JavaString.ParseIntegerDecimal | src/com/gear11/warc/WARCDoc.java:147 | An optional sign ('+' or '-') followed by one or more digits, leading zeros included, parses exactly when the value it denotes is within the bounds, and then to that value. |
| JavaString.ParseIntegerEmpty | src/com/gear11/warc/WARCDoc.java:70 | The empty string does not parse. |
| JavaString.ParseIntToString | src/com/gear11/warc/WARCDoc.java:147 | Parsing the decimal form of an in-range number gives the number back. |
| JavaString.DigitChar | src/com/gear11/warc/GeoRSSCounter.java:109 | The digit character of a value below 10 has that value. |

## Left out

- The UTF-8 `InputStreamReader` and `readLine` are not modelled, because
  the record is given as its lines and a missing first line is the
  `MissingStatusLine` failure. The body is given as the StAX events it
  decodes to, with no second decoding for the declared charset, as in the
  source.
- The StAX tokeniser and its factory setup (`getXMLStreamReader` and the
  DTD property, WARCDoc.java:163-171) are not modelled, because the XML
  reader is foreign code. The body is the sequence of events `next()`
  would return; `Characters` stands for all text events and `Error` for
  the point where the reader throws.
- `SimpleDateFormat.parse` is a parameter, so no calendar or time-zone
  arithmetic is modelled. Only what `toEpochSec` does around the two calls
  is modelled.
- `String.hashCode` is a parameter, and its collisions are whatever that
  function does.
- `synchronized` on `parseXml` and the accessors is not modelled, because
  the model is sequential. The at-most-once parse is the `isParsed` guard,
  which the model keeps.
- `headerNames`, `getMimeType` and `getCharset` are not modelled
  separately, because they only return fields. The model reads the fields
  directly (`CurrentPreamble`).
- `getReader` (WARCDoc.java:153-158) is not modelled. It hands out the raw
  body reader, and throws `IllegalStateException` once the XML parse has
  started. The model has no raw reader, because the body is given as XML
  events.
- The mapper (`GeoRSSCounterMapper.map`), `run`, `main` and the Hadoop job
  wiring are not part of this model. `WarcDocument.Inspect` stands for
  what the mapper asks of a document.
- The byte-array `compare` overload with `Text.decode` (GeoRSSCounter.java:123-136)
  is not modelled, because decoding is foreign code. A key that fails to
  decode is the `None` that `CompareShortest` takes.
- WARCDocReaderTest.java is not part of this model.
- GeoRssCounter.ArrayLongSumReducer.Reduce: requires every later array to
  be distinct from the first. That holds for the freshly deserialised
  arrays Hadoop passes, but the source does not check it. Repeating the
  first array would double it in place, and the model does not cover that.
- GeoRssCounter.CompareShortest: measures keys in Unicode scalar values,
  while `String.length()` counts UTF-16 code units. For a key with a
  character outside the Basic Multilingual Plane the two lengths differ,
  and so can the order: Java puts the one-character key U+1F600 after "ab" (equal lengths,
  then a surrogate above 'a'), but the model puts it first.
- DateHelper.EpochSec: its length tests (`< 10`, `== 10`, `< 19`) and its
  index 10 count Unicode scalar values, while `length()` and `charAt`
  count UTF-16 code units. The two agree for dates made only of
  characters in the Basic Multilingual Plane.
- GeoRssCounter.CompareTo: compares Unicode scalar values (Dafny `char`),
  not UTF-16 code units. The two orders differ only for characters
  outside the Basic Multilingual Plane.
- JavaString.ToLower: maps only ASCII `A`-`Z`, while `String.toLowerCase`
  also lower-cases other letters in the default locale.
- JavaString.IsDigit: accepts only ASCII `0`-`9`, while
  `Character.isDigit` also accepts other Unicode decimal digits.
- WarcDocument.WARCDoc.CountGeoTags: the tag count is unbounded, not a
  32-bit `int` that wraps after 2^31 - 1 tags.
- WarcDocument.WARCDoc.PickGeoNamespace: leaves open which qualifying
  namespace it picks, because that depends on the iteration order of the
  source's `HashSet`.
- WarcDocument.WARCDoc.ParseXml: likewise leaves the choice between
  several qualifying namespaces open, and states the scan for whichever
  one was picked.
