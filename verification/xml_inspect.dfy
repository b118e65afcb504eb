/** The two passes `WARCDoc` makes over a feed with one forward StAX cursor:
    namespace discovery (`getNamespaces`) and the GeoRSS metric scan of
    `parseXml`.  The XML tokeniser is abstracted as the sequence of events
    `next()` would return; these functions are the specification the
    imperative passes in `WarcDocument` are proved against. */
module XmlInspect {
  import opened Wrappers
  import opened JavaString
  import opened DateHelper

  /** One StAX event.  `Characters` stands for CHARACTERS, CDATA, SPACE and
      ENTITY_REFERENCE (the events `getElementText` concatenates), `Other`
      for comments, processing instructions and the like (which it skips),
      and `Error` for the place where the reader throws
      `XMLStreamException`.  The end of the sequence is END_DOCUMENT. */
  datatype XmlEvent =
    | StartElement(nsUri: Option<string>, localName: string, declaredNs: seq<string>)
    | EndElement(localName: string)
    | Characters(text: string)
    | Other
    | Error

  /** `getNamespaces` gives up after this many events. */
  const DISCOVERY_BUDGET: nat := 100

  /** The local names of elements that may hold a date. */
  const DATE_ELEMENTS: set<string> := {"pubDate", "updated", "published"}

  /** The marker a namespace URI must contain (not at its start). */
  const GEORSS: string := "georss"

  /** A namespace is GeoRSS when "georss" first occurs in it after index 0. */
  predicate Qualifies(ns: string)
    ensures Qualifies(ns) ==> |ns| > |GEORSS|
  {
    IndexOfSub(ns, GEORSS) > 0
  }

  function Max(a: int, b: int): (r: int)
    ensures r >= a && r >= b && (r == a || r == b)
  {
    if a >= b then a else b
  }

  // ---------------------------------------------------------------------
  // getElementText

  /** What `getElementText` does from the START_ELEMENT just before `pos`:
      the text read (`None` where it throws) and the position after the last
      event it consumed. */
  datatype TextRead = TextRead(text: Option<string>, next: nat)

  function ElementText(evs: seq<XmlEvent>, pos: nat, acc: string): (r: TextRead)
    requires pos <= |evs|
    ensures pos <= r.next <= |evs|
    ensures r.text.Some? ==> pos < r.next && evs[r.next - 1].EndElement?
    ensures r.text.Some? ==> forall i :: pos <= i < r.next ==> !evs[i].StartElement? && !evs[i].Error?
    decreases |evs| - pos
  {
    if pos == |evs| then TextRead(None, pos)
    else match evs[pos]
      case Characters(t) => ElementText(evs, pos + 1, acc + t)
      case Other => ElementText(evs, pos + 1, acc)
      case EndElement(_) => TextRead(Some(acc), pos + 1)
      case _ => TextRead(None, pos + 1)
  }

  /** The events from `lo` up to `hi` hold only character data and skipped events. */
  predicate TextOnly(evs: seq<XmlEvent>, lo: nat, hi: nat)
    requires lo <= hi <= |evs|
  {
    forall i :: lo <= i < hi ==> evs[i].Characters? || evs[i].Other?
  }

  /** The character data of the events from `lo` up to `hi`, in order. */
  function CharData(evs: seq<XmlEvent>, lo: nat, hi: nat): (t: string)
    requires lo <= hi <= |evs|
    decreases hi - lo
  {
    if lo == hi then ""
    else (if evs[lo].Characters? then evs[lo].text else "") + CharData(evs, lo + 1, hi)
  }

  /** `getElementText` over text-only content up to an end tag returns the
      concatenated character data and stops right after that end tag. */
  lemma {:induction false} ElementTextReads(evs: seq<XmlEvent>, pos: nat, acc: string, e: nat)
    requires pos <= e < |evs| && TextOnly(evs, pos, e) && evs[e].EndElement?
    ensures ElementText(evs, pos, acc) == TextRead(Some(acc + CharData(evs, pos, e)), e + 1)
    decreases e - pos
  {
    if pos < e {
      var piece := if evs[pos].Characters? then evs[pos].text else "";
      ElementTextReads(evs, pos + 1, acc + piece, e);
      assert acc + piece == acc || evs[pos].Characters?;
      assert acc + piece + CharData(evs, pos + 1, e) == acc + (piece + CharData(evs, pos + 1, e));
    } else {
      assert acc + CharData(evs, pos, e) == acc;
    }
  }

  // ---------------------------------------------------------------------
  // namespace discovery

  /** The namespaces found, the cursor position after discovery, and whether
      the reader threw. */
  datatype Discovery = Discovery(namespaces: set<string>, next: nat, failed: bool)

  /** `getNamespaces`' loop from position `pos` after `x` events, with the
      URIs found so far. */
  function DiscoverFrom(evs: seq<XmlEvent>, pos: nat, x: nat, found: set<string>): (d: Discovery)
    requires pos <= |evs|
    ensures pos <= d.next <= |evs|
    decreases |evs| - pos
  {
    if x < DISCOVERY_BUDGET && pos < |evs| && found == {} then
      match evs[pos]
      case Error => Discovery(found, pos + 1, true)
      case StartElement(_, _, declared) =>
        DiscoverFrom(evs, pos + 1, x + 1, found + UriSet(declared))
      case _ => DiscoverFrom(evs, pos + 1, x + 1, found)
    else Discovery(found, pos, false)
  }

  /** The URIs an element declares, as a set. */
  function UriSet(declared: seq<string>): (r: set<string>)
    ensures forall u :: u in r <==> u in declared
  {
    if declared == [] then {} else UriSet(declared[..|declared| - 1]) + {declared[|declared| - 1]}
  }

  /** Discovery from position `pos` with nothing found yet. */
  function Discover(evs: seq<XmlEvent>, pos: nat): (d: Discovery)
    requires pos <= |evs|
    ensures pos <= d.next <= |evs|
  {
    DiscoverFrom(evs, pos, 0, {})
  }

  /** An event that ends discovery: a reader error, or an element that
      declares at least one namespace. */
  predicate EndsDiscovery(e: XmlEvent) {
    e.Error? || (e.StartElement? && e.declaredNs != [])
  }

  /** The first position in `[i, lim)` holding an event that ends discovery,
      or `lim`: an independent description of where discovery stops. */
  function FirstStop(evs: seq<XmlEvent>, i: nat, lim: nat): (k: nat)
    requires i <= lim <= |evs|
    ensures i <= k <= lim
    ensures forall j :: i <= j < k ==> !EndsDiscovery(evs[j])
    ensures k < lim ==> EndsDiscovery(evs[k])
    decreases lim - i
  {
    if i == lim || EndsDiscovery(evs[i]) then i else FirstStop(evs, i + 1, lim)
  }

  function Min(a: int, b: int): int {
    if a <= b then a else b
  }

  /** Discovery reads up to and including the first event that ends it, and
      no more than 100 events; it returns exactly the URIs that element
      declares, or nothing when the reader threw or no element declared any. */
  lemma DiscoverSpec(evs: seq<XmlEvent>, pos: nat)
    requires pos <= |evs|
    ensures var d := Discover(evs, pos);
      var lim := Min(pos + DISCOVERY_BUDGET, |evs|);
      var k := FirstStop(evs, pos, lim);
      && d.next == (if k < lim then k + 1 else lim)
      && d.next <= pos + DISCOVERY_BUDGET
      && d.failed == (k < lim && evs[k].Error?)
      && d.namespaces == (if k < lim && evs[k].StartElement? then UriSet(evs[k].declaredNs) else {})
  {
    DiscoverFromSpec(evs, pos, pos, Min(pos + DISCOVERY_BUDGET, |evs|));
  }

  lemma {:induction false} DiscoverFromSpec(evs: seq<XmlEvent>, start: nat, pos: nat, lim: nat)
    requires start <= pos <= lim && lim == Min(start + DISCOVERY_BUDGET, |evs|)
    requires forall j :: start <= j < pos ==> !EndsDiscovery(evs[j])
    ensures var d := DiscoverFrom(evs, pos, pos - start, {});
      var k := FirstStop(evs, pos, lim);
      && d.next == (if k < lim then k + 1 else lim)
      && d.failed == (k < lim && evs[k].Error?)
      && d.namespaces == (if k < lim && evs[k].StartElement? then UriSet(evs[k].declaredNs) else {})
    decreases lim - pos
  {
    if pos < lim {
      if EndsDiscovery(evs[pos]) {
        DiscoverStops(evs, start, pos, lim);
      } else {
        DiscoverFromSpec(evs, start, pos + 1, lim);
        DiscoverSkips(evs, start, pos, lim);
      }
    }
  }

  /** Discovery at an event that ends it. */
  lemma DiscoverStops(evs: seq<XmlEvent>, start: nat, pos: nat, lim: nat)
    requires start <= pos < lim && lim == Min(start + DISCOVERY_BUDGET, |evs|)
    requires EndsDiscovery(evs[pos])
    ensures var d := DiscoverFrom(evs, pos, pos - start, {});
      && FirstStop(evs, pos, lim) == pos
      && d.next == pos + 1
      && d.failed == evs[pos].Error?
      && d.namespaces == (if evs[pos].StartElement? then UriSet(evs[pos].declaredNs) else {})
  {
    var e := evs[pos];
    if e.StartElement? {
      var found := UriSet(e.declaredNs);
      assert e.declaredNs[0] in found;
      assert DiscoverFrom(evs, pos + 1, pos + 1 - start, found) == Discovery(found, pos + 1, false);
    }
  }

  /** Discovery passes over an event that does not end it. */
  lemma DiscoverSkips(evs: seq<XmlEvent>, start: nat, pos: nat, lim: nat)
    requires start <= pos < lim && lim == Min(start + DISCOVERY_BUDGET, |evs|)
    requires !EndsDiscovery(evs[pos])
    ensures DiscoverFrom(evs, pos, pos - start, {}) == DiscoverFrom(evs, pos + 1, pos + 1 - start, {})
    ensures FirstStop(evs, pos, lim) == FirstStop(evs, pos + 1, lim)
  {
    if evs[pos].StartElement? {
      assert UriSet(evs[pos].declaredNs) == {};
    }
  }

  // ---------------------------------------------------------------------
  // the metric scan

  /** What `parseXml` collects about a GeoRSS feed. */
  datatype Metrics = Metrics(geoTagCount: nat, locHashes: set<int>, mostRecentEpochSec: int)

  const INITIAL: Metrics := Metrics(0, {}, NO_DATE)

  /** The metrics after the scan and the cursor position where it ended. */
  datatype ScanResult = ScanResult(metrics: Metrics, next: nat)

  /** Records one GeoRSS element's text. */
  function CountTag(m: Metrics, locHash: int): (r: Metrics)
    ensures r.geoTagCount == m.geoTagCount + 1 && r.mostRecentEpochSec == m.mostRecentEpochSec
    ensures m.locHashes <= r.locHashes && locHash in r.locHashes
  {
    m.(geoTagCount := m.geoTagCount + 1, locHashes := m.locHashes + {locHash})
  }

  /** Folds one date into the most recent one. */
  function FoldDate(m: Metrics, epochSec: int): (r: Metrics)
    ensures r.mostRecentEpochSec >= m.mostRecentEpochSec && r.mostRecentEpochSec >= epochSec
    ensures r.geoTagCount == m.geoTagCount && r.locHashes == m.locHashes
  {
    m.(mostRecentEpochSec := Max(m.mostRecentEpochSec, epochSec))
  }

  /** `parseXml`'s loop from position `pos` in namespace `g`: an element of
      that namespace has its text hashed and counted; after it, the cursor is
      on its END_ELEMENT, so a date name there makes the second
      `getElementText` throw; another element with a date name has its text
      folded in with `max`; a reader error ends the scan. */
  function Scan(evs: seq<XmlEvent>, pos: nat, g: string, hash: string -> int, dates: DateParsers, m: Metrics): (r: ScanResult)
    requires pos <= |evs|
    ensures pos <= r.next <= |evs|
    decreases |evs| - pos
  {
    if pos == |evs| then ScanResult(m, pos)
    else match evs[pos]
      case StartElement(ns, local, _) =>
        if ns == Some(g) then
          var t := ElementText(evs, pos + 1, "");
          if t.text.None? then ScanResult(m, t.next)
          else
            var counted := CountTag(m, hash(t.text.value));
            if evs[t.next - 1].localName in DATE_ELEMENTS then ScanResult(counted, t.next)
            else Scan(evs, t.next, g, hash, dates, counted)
        else if local in DATE_ELEMENTS then
          var t := ElementText(evs, pos + 1, "");
          if t.text.None? then ScanResult(m, t.next)
          else Scan(evs, t.next, g, hash, dates, FoldDate(m, EpochSec(t.text, dates)))
        else Scan(evs, pos + 1, g, hash, dates, m)
      case Error => ScanResult(m, pos + 1)
      case _ => Scan(evs, pos + 1, g, hash, dates, m)
  }

  /** The number of elements of namespace `g` that start at or after `pos`. */
  function GeoStarts(evs: seq<XmlEvent>, pos: nat, g: string): nat
    requires pos <= |evs|
    decreases |evs| - pos
  {
    if pos == |evs| then 0
    else (if evs[pos].StartElement? && evs[pos].nsUri == Some(g) then 1 else 0) + GeoStarts(evs, pos + 1, g)
  }

  /** Events that are not elements of `g` add nothing to the count ahead. */
  lemma {:induction false} GeoStartsSkip(evs: seq<XmlEvent>, pos: nat, next: nat, g: string)
    requires pos <= next <= |evs|
    requires forall i :: pos <= i < next ==> !evs[i].StartElement?
    ensures GeoStarts(evs, pos, g) == GeoStarts(evs, next, g)
    decreases next - pos
  {
    if pos < next {
      GeoStartsSkip(evs, pos + 1, next, g);
    }
  }

  /** How metrics `r` can have grown from `m` with `ahead` elements of the
      namespace still to come: the tag count and the hash set grow, the
      most recent date never decreases, at most one new hash comes with
      each new tag, and no more tags are added than elements lie ahead. */
  predicate Grows(m: Metrics, r: Metrics, ahead: nat) {
    && m.geoTagCount <= r.geoTagCount
    && m.locHashes <= r.locHashes
    && |r.locHashes - m.locHashes| <= r.geoTagCount - m.geoTagCount
    && m.mostRecentEpochSec <= r.mostRecentEpochSec
    && r.geoTagCount - m.geoTagCount <= ahead
  }

  lemma GrowsAfterTag(m: Metrics, h: int, r: Metrics, ahead: nat)
    requires Grows(CountTag(m, h), r, ahead)
    ensures Grows(m, r, ahead + 1)
  {
    var counted := CountTag(m, h);
    assert |counted.locHashes - m.locHashes| <= 1 by {
      assert counted.locHashes - m.locHashes <= {h};
    }
    SetDiffChain(m.locHashes, counted.locHashes, r.locHashes);
  }

  lemma GrowsAfterDate(m: Metrics, e: int, r: Metrics, ahead: nat)
    requires Grows(FoldDate(m, e), r, ahead)
    ensures Grows(m, r, ahead)
  {
    assert r.locHashes - m.locHashes == r.locHashes - FoldDate(m, e).locHashes;
  }

  /** The scan only ever adds, as `Grows` describes. */
  lemma {:induction false} ScanGrows(evs: seq<XmlEvent>, pos: nat, g: string, hash: string -> int, dates: DateParsers, m: Metrics)
    requires pos <= |evs|
    ensures Grows(m, Scan(evs, pos, g, hash, dates, m).metrics, GeoStarts(evs, pos, g))
    decreases |evs| - pos, 1
  {
    if pos < |evs| {
      var e := evs[pos];
      if e.StartElement? && e.nsUri == Some(g) {
        ScanGrowsGeo(evs, pos, g, hash, dates, m);
      } else if e.StartElement? && e.localName in DATE_ELEMENTS {
        ScanGrowsDate(evs, pos, g, hash, dates, m);
      } else if !e.Error? {
        ScanGrows(evs, pos + 1, g, hash, dates, m);
        assert Scan(evs, pos, g, hash, dates, m) == Scan(evs, pos + 1, g, hash, dates, m);
      }
    }
  }

  /** `ScanGrows` at an element of the namespace. */
  lemma {:induction false} ScanGrowsGeo(evs: seq<XmlEvent>, pos: nat, g: string, hash: string -> int, dates: DateParsers, m: Metrics)
    requires pos < |evs| && evs[pos].StartElement? && evs[pos].nsUri == Some(g)
    ensures Grows(m, Scan(evs, pos, g, hash, dates, m).metrics, GeoStarts(evs, pos, g))
    decreases |evs| - pos, 0
  {
    var r := Scan(evs, pos, g, hash, dates, m).metrics;
    var t := ElementText(evs, pos + 1, "");
    if t.text.Some? {
      GeoStartsSkip(evs, pos + 1, t.next, g);
      var counted := CountTag(m, hash(t.text.value));
      if evs[t.next - 1].localName !in DATE_ELEMENTS {
        ScanGrows(evs, t.next, g, hash, dates, counted);
        assert r == Scan(evs, t.next, g, hash, dates, counted).metrics;
      } else {
        assert r == counted;
      }
      GrowsAfterTag(m, hash(t.text.value), r, GeoStarts(evs, t.next, g));
    } else {
      assert r == m;
    }
  }

  /** `ScanGrows` at a date element outside the namespace. */
  lemma {:induction false} ScanGrowsDate(evs: seq<XmlEvent>, pos: nat, g: string, hash: string -> int, dates: DateParsers, m: Metrics)
    requires pos < |evs| && evs[pos].StartElement? && evs[pos].nsUri != Some(g)
    requires evs[pos].localName in DATE_ELEMENTS
    ensures Grows(m, Scan(evs, pos, g, hash, dates, m).metrics, GeoStarts(evs, pos, g))
    decreases |evs| - pos, 0
  {
    var r := Scan(evs, pos, g, hash, dates, m).metrics;
    var t := ElementText(evs, pos + 1, "");
    if t.text.Some? {
      GeoStartsSkip(evs, pos + 1, t.next, g);
      var folded := FoldDate(m, EpochSec(t.text, dates));
      ScanGrows(evs, t.next, g, hash, dates, folded);
      assert r == Scan(evs, t.next, g, hash, dates, folded).metrics;
      GrowsAfterDate(m, EpochSec(t.text, dates), r, GeoStarts(evs, t.next, g));
    } else {
      assert r == m;
    }
  }

  lemma SetDiffChain(a: set<int>, b: set<int>, c: set<int>)
    requires a <= b <= c
    ensures |c - a| <= |c - b| + |b - a|
  {
    assert c - a == (c - b) + (b - a);
  }

  /** From the initial metrics, there are never more distinct locations than
      tags, and the most recent date is at least -1. */
  lemma ScanFromInitial(evs: seq<XmlEvent>, pos: nat, g: string, hash: string -> int, dates: DateParsers)
    requires pos <= |evs|
    ensures var r := Scan(evs, pos, g, hash, dates, INITIAL).metrics;
      |r.locHashes| <= r.geoTagCount <= GeoStarts(evs, pos, g) && r.mostRecentEpochSec >= NO_DATE
  {
    ScanGrows(evs, pos, g, hash, dates, INITIAL);
  }

  /** A reader error ends the scan and keeps the metrics collected so far. */
  lemma ScanStopsAtError(evs: seq<XmlEvent>, pos: nat, g: string, hash: string -> int, dates: DateParsers, m: Metrics)
    requires pos < |evs| && evs[pos].Error?
    ensures Scan(evs, pos, g, hash, dates, m) == ScanResult(m, pos + 1)
  {
  }

  /** A text-only element of namespace `g` whose end tag has no date name
      counts exactly once, with the hash of its text, the concatenation of
      its character data. */
  lemma ScanCountsGeoElement(evs: seq<XmlEvent>, pos: nat, g: string, hash: string -> int, dates: DateParsers, m: Metrics,
                             local: string, declared: seq<string>, e: nat)
    requires pos < e < |evs| && evs[pos] == StartElement(Some(g), local, declared)
    requires TextOnly(evs, pos + 1, e) && evs[e].EndElement? && evs[e].localName !in DATE_ELEMENTS
    ensures Scan(evs, pos, g, hash, dates, m) ==
      Scan(evs, e + 1, g, hash, dates, CountTag(m, hash(CharData(evs, pos + 1, e))))
  {
    var text := CharData(evs, pos + 1, e);
    ElementTextReads(evs, pos + 1, "", e);
    assert "" + text == text;
    assert ElementText(evs, pos + 1, "") == TextRead(Some(text), e + 1);
  }

  /** A text-only date element outside namespace `g` folds the date of its
      text, the concatenation of its character data, into the most recent one. */
  lemma ScanFoldsDateElement(evs: seq<XmlEvent>, pos: nat, g: string, hash: string -> int, dates: DateParsers, m: Metrics,
                             ns: Option<string>, local: string, declared: seq<string>, e: nat)
    requires pos < e < |evs| && local in DATE_ELEMENTS && ns != Some(g)
    requires evs[pos] == StartElement(ns, local, declared)
    requires TextOnly(evs, pos + 1, e) && evs[e].EndElement?
    ensures Scan(evs, pos, g, hash, dates, m) ==
      Scan(evs, e + 1, g, hash, dates, FoldDate(m, EpochSec(Some(CharData(evs, pos + 1, e)), dates)))
  {
    var text := CharData(evs, pos + 1, e);
    ElementTextReads(evs, pos + 1, "", e);
    assert "" + text == text;
    assert ElementText(evs, pos + 1, "") == TextRead(Some(text), e + 1);
  }

  /** A text-only element of namespace `g` whose end tag has a date name is
      counted, and then the scan ends: the second `getElementText` throws. */
  lemma ScanEndsAtGeoDate(evs: seq<XmlEvent>, pos: nat, g: string, hash: string -> int, dates: DateParsers, m: Metrics,
                          local: string, declared: seq<string>, e: nat)
    requires pos < e < |evs| && evs[pos] == StartElement(Some(g), local, declared)
    requires TextOnly(evs, pos + 1, e) && evs[e].EndElement? && evs[e].localName in DATE_ELEMENTS
    ensures Scan(evs, pos, g, hash, dates, m) == ScanResult(CountTag(m, hash(CharData(evs, pos + 1, e))), e + 1)
  {
    var text := CharData(evs, pos + 1, e);
    ElementTextReads(evs, pos + 1, "", e);
    assert "" + text == text;
    assert ElementText(evs, pos + 1, "") == TextRead(Some(text), e + 1);
  }
}
