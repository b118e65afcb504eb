/** `WARCDoc`: the wrapper around one archived HTTP response.  Construction
    reads the status line and the header block; the XML inspection runs
    lazily, at most once, over a single forward cursor into the body. */
module WarcDocument {
  import opened Wrappers
  import opened JavaString
  import opened HttpPreamble
  import opened DateHelper
  import opened XmlInspect

  /** What the XML reader throws. */
  datatype StreamFailure = XMLStreamException

  class WARCDoc {
    const statusCode: int
    var headers: map<string, string>
    var mimeType: Option<string>
    var charset: Option<string>

    /** The body as the events the StAX reader returns, and the cursor into
        them: `pos` events have been consumed. */
    const events: seq<XmlEvent>
    var pos: nat

    /** `String.hashCode` and the two date formats, which the model does not define. */
    const hash: string -> int
    const dates: DateParsers

    /** The cached result of `getNamespaces`; `None` is Java's null. */
    var namespaces: Option<set<string>>

    var isParsed: bool
    var isGeoRss: bool
    var geoTagCount: nat
    var locHashes: set<int>
    var mostRecentEpochSec: int

    /** The GeoRSS namespace `parseXml` picked from the set (its choice
        depends on the set's iteration order). */
    ghost var geoNamespace: Option<string>

    function CurrentPreamble(): Preamble
      reads this`headers, this`mimeType, this`charset
    {
      Preamble(headers, mimeType, charset)
    }

    function CurrentMetrics(): Metrics
      reads this
    {
      Metrics(geoTagCount, locHashes, mostRecentEpochSec)
    }

    /** The MIME type and charset are in step with the `content-type` header. */
    ghost predicate HeadersTracked()
      reads this`headers, this`mimeType, this`charset
    {
      var p := Preamble(headers, mimeType, charset);
      MimeTracksContentType(p) && CharsetTracksContentType(p)
    }

    /** The cursor stays inside the body; there are never more distinct
        locations than GeoRSS tags and the most recent date is at least -1;
        before the parse, and for a document that is not GeoRSS, the
        metrics are the initial ones; a GeoRSS document is a feed, and its
        namespace is a qualifying one among those discovered. */
    ghost predicate Valid()
      reads this
    {
      && pos <= |events|
      && |locHashes| <= geoTagCount
      && mostRecentEpochSec >= NO_DATE
      && (!isParsed ==> !isGeoRss)
      && (isGeoRss ==> IsFeedType(CurrentPreamble()))
      && (!isGeoRss ==> CurrentMetrics() == INITIAL)
      && (isGeoRss ==>
            geoNamespace.Some? && namespaces.Some? &&
            geoNamespace.value in namespaces.value && Qualifies(geoNamespace.value))
    }

    /** The constructor's header loop, for a record whose status line gave
        `statusCode` and whose following lines are `headerLines`. */
    constructor (statusCode: int, headerLines: seq<string>, events: seq<XmlEvent>, hash: string -> int, dates: DateParsers)
      ensures Valid() && HeadersTracked()
      ensures this.statusCode == statusCode && this.events == events && this.hash == hash && this.dates == dates
      ensures CurrentPreamble() == ParseHeaderBlock(headerLines)
      ensures pos == 0 && namespaces.None? && !isParsed && !isGeoRss && CurrentMetrics() == INITIAL
    {
      this.statusCode := statusCode;
      this.events := events;
      this.hash := hash;
      this.dates := dates;
      headers := map[];
      mimeType := None;
      charset := None;
      pos := 0;
      namespaces := None;
      isParsed := false;
      isGeoRss := false;
      geoTagCount := 0;
      locHashes := {};
      mostRecentEpochSec := NO_DATE;
      geoNamespace := None;
      new;
      ReadHeaders(headerLines);
      ParseHeaderBlockContentType(headerLines);
    }

    /** The constructor's `while` loop over the header lines, from no headers. */
    method ReadHeaders(headerLines: seq<string>)
      requires !isParsed && CurrentPreamble() == NO_HEADERS
      modifies this`headers, this`mimeType, this`charset
      ensures CurrentPreamble() == ParseHeaderBlock(headerLines)
    {
      var i := 0;
      while i < |headerLines|
        invariant i <= HeaderEnd(headerLines)
        invariant CurrentPreamble() == ApplyFields(NO_HEADERS, HeaderFields(headerLines[..i]))
      {
        var blank := ReadHeaderLine(headerLines[i]);
        if blank {
          break;
        }
        HeaderLoopStep(headerLines, i);
        i := i + 1;
      }
      assert headerLines[..i] == headerLines[..HeaderEnd(headerLines)];
    }

    /** One turn of the header loop: trims the line, reports a blank one,
        skips one whose first ':' is missing or first, and records the rest. */
    method ReadHeaderLine(raw: string) returns (blank: bool)
      requires !isParsed
      modifies this`headers, this`mimeType, this`charset
      ensures blank == IsBlank(raw)
      ensures blank ==> CurrentPreamble() == old(CurrentPreamble())
      ensures !blank ==> CurrentPreamble() == ApplyField(old(CurrentPreamble()), HeaderField(raw))
    {
      var line := Trim(raw);
      if |line| == 0 {
        return true;
      }
      var n := IndexOf(line, ':');
      if n > 0 {
        var key := ToLower(Trim(line[..n]));
        var val := Trim(line[n + 1..]);
        PutHeader(key, val);
      }
      return false;
    }

    /** `headers.put(key, val)`, and for `content-type` the MIME type and
        charset taken from the value. */
    method PutHeader(key: string, val: string)
      requires !isParsed
      modifies this`headers, this`mimeType, this`charset
      ensures CurrentPreamble() == SetHeader(old(CurrentPreamble()), Header(key, val))
    {
      headers := headers[key := val];
      if key == "content-type" {
        var n := IndexOf(val, ';');
        if n > 0 {
          mimeType := Some(val[..n]);
          var extra := Trim(val[n + 1..]);
          if StartsWith(extra, "charset=") {
            charset := Some(extra[8..]);
          }
        } else {
          mimeType := Some(val);
        }
      }
    }

    /** Opens a record given as its lines: fails as the Java constructor
        throws when the status line or its code is missing or malformed. */
    static method Open(lines: seq<string>, events: seq<XmlEvent>, hash: string -> int, dates: DateParsers)
      returns (r: Result<WARCDoc, Malformed>)
      ensures r.Failure? <==> StatusCode(lines).Failure?
      ensures r.Failure? ==> r.error == StatusCode(lines).error
      ensures r.Success? ==>
        && fresh(r.value) && r.value.Valid()
        && r.value.statusCode == StatusCode(lines).value
        && r.value.CurrentPreamble() == ParseHeaderBlock(lines[1..])
        && r.value.events == events && r.value.pos == 0 && r.value.namespaces.None? && !r.value.isParsed
    {
      var code := StatusCode(lines);
      if code.Failure? {
        return Failure(code.error);
      }
      var doc := new WARCDoc(code.value, lines[1..], events, hash, dates);
      return Success(doc);
    }

    /** `isFeed`: decided by the MIME type of the `content-type` header. */
    predicate IsFeed()
      reads this`headers, this`mimeType, this`charset
      ensures HeadersTracked() ==>
        (IsFeed() <==> "content-type" in headers && ContentType(headers["content-type"]).mime in FEED_MIME_TYPES)
    {
      IsFeedType(CurrentPreamble())
    }

    /** `getHeader`. */
    function GetHeader(name: string): (r: Option<string>)
      reads this
      ensures r == HeaderValue(CurrentPreamble(), ToLower(name))
      ensures r.Some? ==> r.value in headers.Values
    {
      HeaderValueIgnoresCase(CurrentPreamble(), name);
      HeaderValue(CurrentPreamble(), name)
    }

    /** `getContentLength`. */
    function GetContentLength(): (r: Result<int, NumberFormat>)
      reads this
      ensures GetHeader("content-length").None? ==> r == Success(-1)
      ensures GetHeader("content-length").Some? ==>
        (r.Failure? <==> ParseInteger(GetHeader("content-length").value, INT_MIN, INT_MAX).None?)
      ensures r.Success? ==> INT_MIN <= r.value <= INT_MAX
    {
      ContentLength(CurrentPreamble())
    }

    /** `getNamespaces`: on the first call, reads events until an element
        declares a namespace, 100 events have been read, or the body ends,
        and caches what it found (also when the reader throws); later calls
        return the cached set. */
    method GetNamespaces() returns (r: Result<set<string>, StreamFailure>)
      requires Valid()
      modifies this`pos, this`namespaces
      ensures Valid()
      ensures old(namespaces).Some? ==>
        r == Success(old(namespaces).value) && pos == old(pos) && namespaces == old(namespaces)
      ensures old(namespaces).None? ==>
        var d := Discover(events, old(pos));
        && namespaces == Some(d.namespaces) && pos == d.next
        && r == (if d.failed then Failure(XMLStreamException) else Success(d.namespaces))
    {
      if namespaces.None? {
        var failed := DiscoverNamespaces();
        if failed {
          return Failure(XMLStreamException);
        }
      }
      return Success(namespaces.value);
    }

    /** The first-call loop of `getNamespaces`. */
    method DiscoverNamespaces() returns (failed: bool)
      requires pos <= |events|
      modifies this`pos, this`namespaces
      ensures var d := Discover(events, old(pos));
        namespaces == Some(d.namespaces) && pos == d.next && failed == d.failed
    {
      namespaces := Some({});
      ghost var start := pos;
      var x := 0;
      while x < DISCOVERY_BUDGET && pos < |events| && namespaces.value == {}
        invariant start <= pos <= |events| && namespaces.Some?
        invariant DiscoverFrom(events, pos, x, namespaces.value) == Discover(events, start)
        decreases |events| - pos
      {
        x := x + 1;
        var event := events[pos];
        pos := pos + 1;
        match event {
          case Error =>
            return true;
          case StartElement(_, _, declared) =>
            AddDeclared(declared);
          case _ =>
        }
      }
      return false;
    }

    /** The inner `for` loop of `getNamespaces`: adds every URI the element declares. */
    method AddDeclared(declared: seq<string>)
      requires namespaces.Some?
      modifies this`namespaces
      ensures namespaces == Some(old(namespaces).value + UriSet(declared))
    {
      ghost var before := namespaces.value;
      assert declared[..0] == [];
      assert before + UriSet(declared[..0]) == before;
      for i := 0 to |declared|
        invariant namespaces == Some(before + UriSet(declared[..i]))
      {
        assert declared[..i + 1][..i] == declared[..i];
        assert UriSet(declared[..i + 1]) == UriSet(declared[..i]) + {declared[i]};
        assert before + UriSet(declared[..i + 1]) == (before + UriSet(declared[..i])) + {declared[i]};
        namespaces := Some(namespaces.value + {declared[i]});
      }
      assert declared[..|declared|] == declared;
    }

    /** What `parseXml` does: nothing after the first call; for a non-feed,
        only marks the document parsed; otherwise discovers the namespaces
        (or reuses them), and when one qualifies, scans on from where
        discovery stopped in that namespace. */
    twostate predicate ParseXmlEffect()
      requires old(pos) <= |events|
      reads this
    {
      if old(isParsed) then
        && isParsed && isGeoRss == old(isGeoRss) && CurrentMetrics() == old(CurrentMetrics())
        && pos == old(pos) && namespaces == old(namespaces) && geoNamespace == old(geoNamespace)
      else if !IsFeedType(CurrentPreamble()) then
        && isParsed && !isGeoRss && CurrentMetrics() == INITIAL
        && pos == old(pos) && namespaces == old(namespaces)
      else FeedParsed()
    }

    /** What `parseXml` leaves behind for a feed: the namespaces discovered
        (or those an earlier `getNamespaces` cached), the GeoRSS decision,
        and the metrics of the scan that follows discovery. */
    twostate predicate FeedParsed()
      requires old(pos) <= |events|
      reads this
    {
      var d := if old(namespaces).Some? then Discovery(old(namespaces).value, old(pos), false) else Discover(events, old(pos));
      && isParsed && namespaces == Some(d.namespaces)
      && isGeoRss == (!d.failed && exists u :: u in d.namespaces && Qualifies(u))
      && (isGeoRss ==>
            geoNamespace.Some? && geoNamespace.value in d.namespaces && Qualifies(geoNamespace.value) &&
            ScanResult(CurrentMetrics(), pos) == Scan(events, d.next, geoNamespace.value, hash, dates, INITIAL))
      && (!isGeoRss ==> CurrentMetrics() == INITIAL && pos == d.next)
    }

    /** `parseXml`. */
    method ParseXml()
      requires Valid()
      modifies this`isParsed, this`isGeoRss, this`geoTagCount, this`locHashes, this`mostRecentEpochSec
      modifies this`pos, this`namespaces, this`geoNamespace
      ensures Valid()
      ensures ParseXmlEffect()
    {
      if isParsed {
        return;
      }
      isParsed := true;
      if !IsFeed() {
        return;
      }
      ParseFeed();
    }

    /** The part of `parseXml` after the MIME type check. */
    method ParseFeed()
      requires Valid() && isParsed && !isGeoRss && IsFeed()
      modifies this`isGeoRss, this`geoTagCount, this`locHashes, this`mostRecentEpochSec
      modifies this`pos, this`namespaces, this`geoNamespace
      ensures Valid()
      ensures FeedParsed()
    {
      var found := GetNamespaces();
      var geo: Option<string> := None;
      if found.Success? {
        geo := PickGeoNamespace(found.value);
      }
      assert IsFeedType(CurrentPreamble());
      isGeoRss := geo.Some?;
      geoNamespace := geo;
      if geo.None? {
        return;
      }
      ScanFeed(geo.value);
    }

    /** The scan of a GeoRSS feed in namespace `g`, from the initial metrics. */
    method ScanFeed(g: string)
      requires pos <= |events| && CurrentMetrics() == INITIAL
      modifies this`geoTagCount, this`locHashes, this`mostRecentEpochSec, this`pos
      ensures ScanResult(CurrentMetrics(), pos) == Scan(events, old(pos), g, hash, dates, INITIAL)
      ensures |locHashes| <= geoTagCount && mostRecentEpochSec >= NO_DATE
    {
      ScanFromInitial(events, pos, g, hash, dates);
      ScanMetrics(g);
    }

    /** The `for` loop over the discovered set: the first namespace in the
        set's iteration order that qualifies, or none. */
    static method PickGeoNamespace(found: set<string>) returns (geo: Option<string>)
      ensures geo.Some? ==> geo.value in found && Qualifies(geo.value)
      ensures geo.None? <==> forall u :: u in found ==> !Qualifies(u)
    {
      geo := None;
      var remaining := found;
      while remaining != {} && geo.None?
        invariant remaining <= found
        invariant geo.Some? ==> geo.value in found && Qualifies(geo.value)
        invariant geo.None? ==> forall u :: u in found - remaining ==> !Qualifies(u)
        decreases |remaining|
      {
        var u :| u in remaining;
        if Qualifies(u) {
          geo := Some(u);
        }
        remaining := remaining - {u};
      }
    }

    /** The `while (reader.hasNext())` loop of `parseXml` in namespace `g`,
        until the body ends or the reader throws. */
    method ScanMetrics(g: string)
      requires pos <= |events|
      modifies this`geoTagCount, this`locHashes, this`mostRecentEpochSec, this`pos
      ensures ScanResult(CurrentMetrics(), pos) == Scan(events, old(pos), g, hash, dates, old(CurrentMetrics()))
    {
      ghost var target := Scan(events, pos, g, hash, dates, CurrentMetrics());
      var done := false;
      while !done && pos < |events|
        invariant pos <= |events|
        invariant !done ==> Scan(events, pos, g, hash, dates, CurrentMetrics()) == target
        invariant done ==> ScanResult(CurrentMetrics(), pos) == target
        decreases |events| - pos
      {
        done := ScanEvent(g);
      }
    }

    /** One turn of the loop: consumes the next event and, for an element
        of `g` or a date element, its text. */
    method ScanEvent(g: string) returns (done: bool)
      requires pos < |events|
      modifies this`geoTagCount, this`locHashes, this`mostRecentEpochSec, this`pos
      ensures old(pos) < pos <= |events|
      ensures !done ==> Scan(events, pos, g, hash, dates, CurrentMetrics()) == Scan(events, old(pos), g, hash, dates, old(CurrentMetrics()))
      ensures done ==> ScanResult(CurrentMetrics(), pos) == Scan(events, old(pos), g, hash, dates, old(CurrentMetrics()))
    {
      done := false;
      var event := events[pos];
      pos := pos + 1;
      match event {
        case Error =>
          done := true;
        case StartElement(ns, local, _) =>
          if ns == Some(g) {
            var t := ElementText(events, pos, "");
            pos := t.next;
            if t.text.None? {
              done := true;
            } else {
              locHashes := locHashes + {hash(t.text.value)};
              geoTagCount := geoTagCount + 1;
              if events[pos - 1].localName in DATE_ELEMENTS {
                done := true;
              }
            }
          } else if local in DATE_ELEMENTS {
            var t := ElementText(events, pos, "");
            pos := t.next;
            if t.text.None? {
              done := true;
            } else {
              var epochSec := ToEpochSec(t.text, dates);
              mostRecentEpochSec := Max(mostRecentEpochSec, epochSec);
            }
          }
        case _ =>
      }
    }

    /** `countGeoTags`. */
    method CountGeoTags() returns (r: int)
      requires Valid()
      modifies this`isParsed, this`isGeoRss, this`geoTagCount, this`locHashes, this`mostRecentEpochSec
      modifies this`pos, this`namespaces, this`geoNamespace
      ensures Valid() && ParseXmlEffect()
      ensures r == geoTagCount
    {
      ParseXml();
      r := geoTagCount;
    }

    /** `isGeoRss`. */
    method IsGeoRss() returns (r: bool)
      requires Valid()
      modifies this`isParsed, this`isGeoRss, this`geoTagCount, this`locHashes, this`mostRecentEpochSec
      modifies this`pos, this`namespaces, this`geoNamespace
      ensures Valid() && ParseXmlEffect()
      ensures r == isGeoRss
    {
      ParseXml();
      r := isGeoRss;
    }

    /** `countLocations`: the number of distinct location hashes. */
    method CountLocations() returns (r: int)
      requires Valid()
      modifies this`isParsed, this`isGeoRss, this`geoTagCount, this`locHashes, this`mostRecentEpochSec
      modifies this`pos, this`namespaces, this`geoNamespace
      ensures Valid() && ParseXmlEffect()
      ensures r == |locHashes|
    {
      ParseXml();
      r := |locHashes|;
    }

    /** `getUpdatedAt`. */
    method GetUpdatedAt() returns (r: int)
      requires Valid()
      modifies this`isParsed, this`isGeoRss, this`geoTagCount, this`locHashes, this`mostRecentEpochSec
      modifies this`pos, this`namespaces, this`geoNamespace
      ensures Valid() && ParseXmlEffect()
      ensures r == mostRecentEpochSec
    {
      ParseXml();
      r := mostRecentEpochSec;
    }
  }

  /** What the job's mapper asks of a document: every accessor, in turn.
      The answers satisfy the document's invariants, a document that is not
      GeoRSS reports nothing, and asking again gives the same answers. */
  method Inspect(doc: WARCDoc) returns (geo: bool, tags: int, locations: int, updatedAt: int)
    requires doc.Valid()
    modifies doc`isParsed, doc`isGeoRss, doc`geoTagCount, doc`locHashes, doc`mostRecentEpochSec
    modifies doc`pos, doc`namespaces, doc`geoNamespace
    ensures doc.Valid() && doc.isParsed
    ensures 0 <= locations <= tags && updatedAt >= NO_DATE
    ensures !geo ==> tags == 0 && locations == 0 && updatedAt == NO_DATE
    ensures !doc.IsFeed() ==> !geo
    ensures geo == doc.isGeoRss && tags == doc.geoTagCount
    ensures locations == |doc.locHashes| && updatedAt == doc.mostRecentEpochSec
    ensures old(doc.isParsed) ==> doc.isGeoRss == old(doc.isGeoRss) && doc.CurrentMetrics() == old(doc.CurrentMetrics())
  {
    geo := doc.IsGeoRss();
    tags := doc.CountGeoTags();
    locations := doc.CountLocations();
    updatedAt := doc.GetUpdatedAt();
  }

  /** The parse runs once: a second round of questions gets the first
      round's answers. */
  method InspectTwice(doc: WARCDoc) returns (first: (bool, int, int, int), second: (bool, int, int, int))
    requires doc.Valid()
    modifies doc`isParsed, doc`isGeoRss, doc`geoTagCount, doc`locHashes, doc`mostRecentEpochSec
    modifies doc`pos, doc`namespaces, doc`geoNamespace
    ensures first == second
  {
    var g1, t1, l1, u1 := Inspect(doc);
    var g2, t2, l2, u2 := Inspect(doc);
    first := (g1, t1, l1, u1);
    second := (g2, t2, l2, u2);
  }
}
