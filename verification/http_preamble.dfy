/** The HTTP response preamble of an archived record: the status line and
    the header block that precede the document body.  These functions are
    the specification the `WARCDoc` constructor is proved against. */
module HttpPreamble {
  import opened Wrappers
  import opened JavaString

  /** Why a record's preamble cannot be read: no first line at all
      (`readLine` gives null), no second space-separated token
      (array index out of bounds), or a token `Integer.parseInt` refuses. */
  datatype Malformed = MissingStatusLine | MissingStatusCode | BadStatusCode

  // ---------------------------------------------------------------------
  // status line

  function StatusLineCode(line: string): (r: Result<int, Malformed>)
    ensures r.Success? ==> INT_MIN <= r.value <= INT_MAX
  {
    var segs := JavaSplit(line, ' ');
    if |segs| < 2 then Failure(MissingStatusCode)
    else match ParseInteger(segs[1], INT_MIN, INT_MAX)
      case None => Failure(BadStatusCode)
      case Some(code) => Success(code)
  }

  /** The status code of a response whose lines are `lines`. */
  function StatusCode(lines: seq<string>): (r: Result<int, Malformed>)
    ensures lines == [] ==> r == Failure(MissingStatusLine)
    ensures r.Failure? && lines != [] ==> r.error != MissingStatusLine
    ensures r.Success? ==> INT_MIN <= r.value <= INT_MAX
  {
    if lines == [] then Failure(MissingStatusLine) else StatusLineCode(lines[0])
  }

  /** The status code is the integer value of the second piece of the first
      line split at single spaces; there is none when that piece is missing
      or is not a 32-bit decimal integer. */
  lemma StatusCodeIsSecondToken(line: string)
    ensures var pieces := SplitAt(line, ' ');
      StatusLineCode(line).Success? <==>
        |pieces| >= 2 && ParseInteger(pieces[1], INT_MIN, INT_MAX).Some?
    ensures var pieces := SplitAt(line, ' ');
      StatusLineCode(line).Success? ==>
        StatusLineCode(line).value == ParseInteger(pieces[1], INT_MIN, INT_MAX).value &&
        INT_MIN <= StatusLineCode(line).value <= INT_MAX
  {
    var pieces := SplitAt(line, ' ');
    JavaSplitPiece(line, ' ', 1);
    ParseIntegerEmpty(INT_MIN, INT_MAX);
  }

  /** A record has a status code exactly when it has a first line whose
      second space-separated piece is a 32-bit decimal integer, and the code
      is that integer. */
  lemma StatusCodeOfRecord(lines: seq<string>)
    ensures StatusCode(lines).Success? <==>
      lines != [] && |SplitAt(lines[0], ' ')| >= 2 &&
      ParseInteger(SplitAt(lines[0], ' ')[1], INT_MIN, INT_MAX).Some?
    ensures StatusCode(lines).Success? ==>
      StatusCode(lines).value == ParseInteger(SplitAt(lines[0], ' ')[1], INT_MIN, INT_MAX).value
  {
    if lines != [] {
      StatusCodeIsSecondToken(lines[0]);
    }
  }

  // ---------------------------------------------------------------------
  // header block

  datatype Header = Header(name: string, value: string)

  /** What the constructor has collected: the header map (lower-cased names),
      the MIME type and the charset of the `content-type` header. */
  datatype Preamble = Preamble(headers: map<string, string>, mimeType: Option<string>, charset: Option<string>)

  const NO_HEADERS := Preamble(map[], None, None)

  predicate IsBlank(line: string) {
    Trim(line) == []
  }

  /** The number of header lines: those before the first blank line. */
  function HeaderEnd(lines: seq<string>): (n: nat)
    ensures n <= |lines|
    ensures forall k :: 0 <= k < n ==> !IsBlank(lines[k])
    ensures n < |lines| ==> IsBlank(lines[n])
  {
    if lines == [] || IsBlank(lines[0]) then 0 else 1 + HeaderEnd(lines[1..])
  }

  /** The header a line defines: split at the first ':' of the trimmed line,
      name trimmed and lower-cased, value trimmed; none when that ':' is
      missing or first. */
  function HeaderField(raw: string): (f: Option<Header>)
    ensures IsBlank(raw) ==> f.None?
  {
    var line := Trim(raw);
    var n := IndexOf(line, ':');
    if n <= 0 then None else Some(Header(ToLower(Trim(line[..n])), Trim(line[n + 1..])))
  }

  /** A line is skipped exactly when its trimmed form has no ':' or starts
      with one; in particular a line without ':' is skipped. */
  lemma HeaderFieldSkips(raw: string)
    ensures HeaderField(raw).None? <==> ':' !in Trim(raw) || Trim(raw)[0] == ':'
    ensures ':' !in raw ==> HeaderField(raw).None?
  {
    IndexOfFacts(Trim(raw), ':');
    TrimIsInside(raw);
  }

  /** The value of a header is trimmed. */
  lemma HeaderFieldValueTrimmed(raw: string)
    requires HeaderField(raw).Some?
    ensures Trim(HeaderField(raw).value.value) == HeaderField(raw).value.value
  {
    var line := Trim(raw);
    TrimIdempotent(line[IndexOf(line, ':') + 1..]);
  }

  /** A line `name:value` whose name starts and whose value ends with a
      visible character defines that header, name trimmed and lower-cased,
      value trimmed. */
  lemma HeaderFieldOfLine(name: string, value: string)
    requires |name| > 0 && ':' !in name && !IsTrimmable(name[0])
    requires value == [] || !IsTrimmable(value[|value| - 1])
    ensures HeaderField(name + ":" + value) == Some(Header(ToLower(Trim(name)), Trim(value)))
  {
    var line := name + ":" + value;
    assert line == name + [':'] + value;
    assert line[0] == name[0];
    assert line[|line| - 1] == if value == [] then ':' else value[|value| - 1];
    TrimFixed(line);
    IndexOfAppend(name, ':', value);
    assert line[..|name|] == name;
    assert line[|name| + 1..] == value;
  }

  datatype MediaType = MediaType(mime: string, charset: Option<string>)

  /** A `content-type` value: with a ';' after the first character, the MIME
      type is the text before it (not trimmed again) and a charset is the text
      after "charset=" when the trimmed remainder starts with it; otherwise
      the MIME type is the whole value and there is no charset. */
  function ContentType(value: string): (t: MediaType)
    ensures |t.mime| <= |value| && t.mime == value[..|t.mime|]
    ensures t.charset.Some? ==> |t.mime| < |value|
  {
    var n := IndexOf(value, ';');
    if n > 0 then
      var extra := Trim(value[n + 1..]);
      MediaType(value[..n], if StartsWith(extra, "charset=") then Some(extra[8..]) else None)
    else
      MediaType(value, None)
  }

  /** Records one header: the map entry, and for `content-type` the MIME type
      and (when the value names one) the charset. */
  function SetHeader(p: Preamble, h: Header): (r: Preamble)
    ensures h.name in r.headers && r.headers[h.name] == h.value
    ensures h.name != "content-type" ==> r.mimeType == p.mimeType && r.charset == p.charset
    ensures h.name == "content-type" ==> r.mimeType == Some(ContentType(h.value).mime)
    ensures h.name == "content-type" && ContentType(h.value).charset.Some? ==> r.charset == ContentType(h.value).charset
    ensures h.name == "content-type" && ContentType(h.value).charset.None? ==> r.charset == p.charset
  {
    var headers := p.headers[h.name := h.value];
    if h.name == "content-type" then
      var t := ContentType(h.value);
      Preamble(headers, Some(t.mime), if t.charset.Some? then t.charset else p.charset)
    else
      Preamble(headers, p.mimeType, p.charset)
  }

  /** One turn of the constructor's header loop, given the header the line
      defines (or none for a line it skips). */
  function ApplyField(p: Preamble, f: Option<Header>): (r: Preamble)
  {
    match f
    case None => p
    case Some(h) => SetHeader(p, h)
  }

  function ApplyFields(p: Preamble, fs: seq<Option<Header>>): (r: Preamble)
    ensures p.headers.Keys <= r.headers.Keys
    decreases |fs|
  {
    if fs == [] then p else ApplyField(ApplyFields(p, fs[..|fs| - 1]), fs[|fs| - 1])
  }

  function HeaderFields(lines: seq<string>): (fs: seq<Option<Header>>)
    ensures |fs| == |lines|
  {
    seq(|lines|, i requires 0 <= i < |lines| => HeaderField(lines[i]))
  }

  /** The preamble read from the lines after the status line. */
  function ParseHeaderBlock(lines: seq<string>): (p: Preamble)
    ensures HeaderEnd(lines) == 0 ==> p == NO_HEADERS
  {
    ApplyFields(NO_HEADERS, HeaderFields(lines[..HeaderEnd(lines)]))
  }

  // ---------------------------------------------------------------------
  // properties of the header fold

  lemma ApplyFieldsSnoc(p: Preamble, fs: seq<Option<Header>>, f: Option<Header>)
    ensures ApplyFields(p, fs + [f]) == ApplyField(ApplyFields(p, fs), f)
  {
    assert (fs + [f])[..|fs|] == fs;
  }

  lemma HeaderFieldsSnoc(lines: seq<string>, i: nat)
    requires i < |lines|
    ensures HeaderFields(lines[..i + 1]) == HeaderFields(lines[..i]) + [HeaderField(lines[i])]
  {
  }

  /** One more header line folds one more field into the preamble. */
  lemma HeaderLoopStep(lines: seq<string>, i: nat)
    requires i < |lines|
    ensures ApplyFields(NO_HEADERS, HeaderFields(lines[..i + 1])) ==
      ApplyField(ApplyFields(NO_HEADERS, HeaderFields(lines[..i])), HeaderField(lines[i]))
  {
    HeaderFieldsSnoc(lines, i);
    ApplyFieldsSnoc(NO_HEADERS, HeaderFields(lines[..i]), HeaderField(lines[i]));
  }

  predicate Defines(f: Option<Header>, name: string) {
    f.Some? && f.value.name == name
  }

  predicate SetsHeader(raw: string, name: string) {
    Defines(HeaderField(raw), name)
  }

  lemma SetHeaderOther(p: Preamble, h: Header, name: string)
    requires h.name != name
    ensures name in SetHeader(p, h).headers <==> name in p.headers
    ensures name in p.headers ==> SetHeader(p, h).headers[name] == p.headers[name]
  {
  }

  /** A header name is present exactly when some field defines it. */
  lemma {:induction false} NamesFromFields(p: Preamble, fs: seq<Option<Header>>, name: string)
    ensures name in ApplyFields(p, fs).headers <==>
      name in p.headers || exists j :: 0 <= j < |fs| && Defines(fs[j], name)
    decreases |fs|
  {
    if fs != [] {
      var init := fs[..|fs| - 1];
      var last := fs[|fs| - 1];
      NamesFromFields(p, init, name);
      if !Defines(last, name) {
        if last.Some? {
          SetHeaderOther(ApplyFields(p, init), last.value, name);
        }
        if exists j :: 0 <= j < |fs| && Defines(fs[j], name) {
          var j :| 0 <= j < |fs| && Defines(fs[j], name);
          assert j < |init| && Defines(init[j], name);
        }
      }
      if exists j :: 0 <= j < |init| && Defines(init[j], name) {
        var j :| 0 <= j < |init| && Defines(init[j], name);
        assert Defines(fs[j], name);
      }
    }
  }

  /** The value of a header is the one its last field gives. */
  lemma {:induction false} LastFieldWins(p: Preamble, fs: seq<Option<Header>>, j: nat, name: string, value: string)
    requires j < |fs| && fs[j] == Some(Header(name, value))
    requires forall k :: j < k < |fs| ==> !Defines(fs[k], name)
    ensures name in ApplyFields(p, fs).headers
    ensures ApplyFields(p, fs).headers[name] == value
    decreases |fs|
  {
    var init := fs[..|fs| - 1];
    var last := fs[|fs| - 1];
    if j < |init| {
      LastFieldWins(p, init, j, name, value);
      assert !Defines(last, name);
      if last.Some? {
        SetHeaderOther(ApplyFields(p, init), last.value, name);
      }
    }
  }

  /** The MIME type always follows the current `content-type` header. */
  ghost predicate MimeTracksContentType(p: Preamble) {
    p.mimeType == if "content-type" in p.headers then Some(ContentType(p.headers["content-type"]).mime) else None
  }

  /** A charset is only ever taken from a `content-type` header, and the
      current one wins whenever it names a charset. */
  ghost predicate CharsetTracksContentType(p: Preamble) {
    && (p.charset.Some? ==> "content-type" in p.headers)
    && ("content-type" in p.headers && ContentType(p.headers["content-type"]).charset.Some? ==>
          p.charset == ContentType(p.headers["content-type"]).charset)
  }

  lemma SetHeaderTracks(p: Preamble, h: Header)
    requires MimeTracksContentType(p) && CharsetTracksContentType(p)
    ensures MimeTracksContentType(SetHeader(p, h)) && CharsetTracksContentType(SetHeader(p, h))
  {
    var q := SetHeader(p, h);
    if h.name == "content-type" {
      assert q.headers["content-type"] == h.value;
    } else {
      SetHeaderOther(p, h, "content-type");
    }
  }

  lemma {:induction false} ContentTypeTracked(p: Preamble, fs: seq<Option<Header>>)
    requires MimeTracksContentType(p) && CharsetTracksContentType(p)
    ensures MimeTracksContentType(ApplyFields(p, fs))
    ensures CharsetTracksContentType(ApplyFields(p, fs))
    decreases |fs|
  {
    if fs != [] {
      ContentTypeTracked(p, fs[..|fs| - 1]);
      if fs[|fs| - 1].Some? {
        SetHeaderTracks(ApplyFields(p, fs[..|fs| - 1]), fs[|fs| - 1].value);
      }
    }
  }

  predicate GivesCharset(f: Option<Header>, charset: string) {
    Defines(f, "content-type") && ContentType(f.value.value).charset == Some(charset)
  }

  /** A `content-type` field whose value names a charset. */
  predicate NamesCharset(f: Option<Header>) {
    Defines(f, "content-type") && ContentType(f.value.value).charset.Some?
  }

  /** One more field changes the charset only when it names one. */
  lemma CharsetStep(p: Preamble, fs: seq<Option<Header>>)
    requires fs != []
    ensures var last := fs[|fs| - 1];
      ApplyFields(p, fs).charset ==
        if NamesCharset(last) then ContentType(last.value.value).charset else ApplyFields(p, fs[..|fs| - 1]).charset
  {
  }

  /** The index of the last field that names a charset, or -1. */
  function LastCharsetField(fs: seq<Option<Header>>): (j: int)
    ensures -1 <= j < |fs|
    ensures j >= 0 ==> NamesCharset(fs[j])
    ensures forall k :: j < k < |fs| ==> !NamesCharset(fs[k])
  {
    if fs == [] then -1
    else if NamesCharset(fs[|fs| - 1]) then |fs| - 1
    else LastCharsetField(fs[..|fs| - 1])
  }

  /** The charset is the one the last `content-type` field naming a charset
      names, or the one before the fields when none does. */
  lemma {:induction false} CharsetFromLastField(p: Preamble, fs: seq<Option<Header>>)
    ensures var j := LastCharsetField(fs);
      ApplyFields(p, fs).charset == if j < 0 then p.charset else ContentType(fs[j].value.value).charset
    decreases |fs|
  {
    if fs != [] {
      var init := fs[..|fs| - 1];
      CharsetStep(p, fs);
      if !NamesCharset(fs[|fs| - 1]) {
        CharsetFromLastField(p, init);
        var j := LastCharsetField(init);
        if j >= 0 {
          assert fs[j] == init[j];
        }
      }
    }
  }

  predicate IsNormalName(n: string) {
    ToLower(n) == n && Trim(n) == n
  }

  /** Every name in the header map is trimmed and lower-case. */
  lemma {:induction false} NamesNormalised(p: Preamble, fs: seq<Option<Header>>)
    requires forall n :: n in p.headers ==> IsNormalName(n)
    requires forall j :: 0 <= j < |fs| && fs[j].Some? ==> IsNormalName(fs[j].value.name)
    ensures forall n :: n in ApplyFields(p, fs).headers ==> IsNormalName(n)
    decreases |fs|
  {
    if fs != [] {
      NamesNormalised(p, fs[..|fs| - 1]);
    }
  }

  // ---------------------------------------------------------------------
  // properties of the header block, stated over its lines

  lemma HeaderFieldNormalised(raw: string)
    requires HeaderField(raw).Some?
    ensures IsNormalName(HeaderField(raw).value.name)
  {
    var line := Trim(raw);
    var n := IndexOf(line, ':');
    TrimFacts(line[..n]);
    TrimFixed(Trim(line[..n]));
    ToLowerOfTrimmed(Trim(line[..n]));
  }

  /** Lines after the first blank line are never read as headers. */
  lemma BlankLineEndsHeaders(a: seq<string>, b: seq<string>)
    requires HeaderEnd(a) < |a|
    ensures HeaderEnd(a + b) == HeaderEnd(a)
    ensures ParseHeaderBlock(a + b) == ParseHeaderBlock(a)
  {
    HeaderEndPrefix(a, b);
    assert (a + b)[..HeaderEnd(a)] == a[..HeaderEnd(a)];
  }

  lemma {:induction false} HeaderEndPrefix(a: seq<string>, b: seq<string>)
    requires HeaderEnd(a) < |a|
    ensures HeaderEnd(a + b) == HeaderEnd(a)
    decreases |a|
  {
    if !IsBlank(a[0]) {
      assert (a + b)[1..] == a[1..] + b;
      HeaderEndPrefix(a[1..], b);
    }
  }

  /** The fields of a block are those of its lines, in order. */
  lemma BlockFields(lines: seq<string>)
    ensures var end := HeaderEnd(lines);
      forall j :: 0 <= j < end ==> HeaderFields(lines[..end])[j] == HeaderField(lines[j])
  {
  }

  /** A name is in the header map exactly when some header line defines it. */
  lemma ParseHeaderBlockNames(lines: seq<string>, name: string)
    ensures name in ParseHeaderBlock(lines).headers <==>
      exists j :: 0 <= j < HeaderEnd(lines) && SetsHeader(lines[j], name)
  {
    var end := HeaderEnd(lines);
    var fs := HeaderFields(lines[..end]);
    BlockFields(lines);
    NamesFromFields(NO_HEADERS, fs, name);
    assert ParseHeaderBlock(lines) == ApplyFields(NO_HEADERS, fs);
    forall j | 0 <= j < end
      ensures Defines(fs[j], name) == SetsHeader(lines[j], name)
    {
      assert fs[j] == HeaderField(lines[j]);
    }
  }

  /** Every name in the header map is trimmed and lower-case. */
  lemma ParseHeaderBlockNormalised(lines: seq<string>)
    ensures forall n :: n in ParseHeaderBlock(lines).headers ==> IsNormalName(n)
  {
    var end := HeaderEnd(lines);
    var fs := HeaderFields(lines[..end]);
    BlockFields(lines);
    forall j | 0 <= j < |fs| && fs[j].Some?
      ensures IsNormalName(fs[j].value.name)
    {
      HeaderFieldNormalised(lines[j]);
    }
    NamesNormalised(NO_HEADERS, fs);
  }

  /** The MIME type and charset follow the `content-type` header; there is
      a charset exactly when some `content-type` line of the block names one,
      and then it is the one the last such line names. */
  lemma ParseHeaderBlockContentType(lines: seq<string>)
    ensures MimeTracksContentType(ParseHeaderBlock(lines))
    ensures CharsetTracksContentType(ParseHeaderBlock(lines))
    ensures ParseHeaderBlock(lines).charset.None? <==>
      forall k :: 0 <= k < HeaderEnd(lines) ==> !NamesCharset(HeaderField(lines[k]))
    ensures var c := ParseHeaderBlock(lines).charset;
      c.Some? ==> exists j :: 0 <= j < HeaderEnd(lines) && GivesCharset(HeaderField(lines[j]), c.value) &&
                              forall k :: j < k < HeaderEnd(lines) ==> !NamesCharset(HeaderField(lines[k]))
  {
    var end := HeaderEnd(lines);
    var fs := HeaderFields(lines[..end]);
    ContentTypeTracked(NO_HEADERS, fs);
    CharsetFromLastField(NO_HEADERS, fs);
    BlockFields(lines);
    var j := LastCharsetField(fs);
    if j >= 0 {
      assert GivesCharset(HeaderField(lines[j]), ContentType(fs[j].value.value).charset.value);
    }
  }

  /** The last `content-type` line that names a charset decides it. */
  lemma ParseHeaderBlockLastCharset(lines: seq<string>, j: nat, charset: string)
    requires j < HeaderEnd(lines) && GivesCharset(HeaderField(lines[j]), charset)
    requires forall k :: j < k < HeaderEnd(lines) ==> !NamesCharset(HeaderField(lines[k]))
    ensures ParseHeaderBlock(lines).charset == Some(charset)
  {
    ParseHeaderBlockContentType(lines);
    var c := ParseHeaderBlock(lines).charset;
    assert c.Some?;
    var i :| 0 <= i < HeaderEnd(lines) && GivesCharset(HeaderField(lines[i]), c.value) &&
      forall k :: i < k < HeaderEnd(lines) ==> !NamesCharset(HeaderField(lines[k]));
    assert i == j;
  }

  /** A header line given once and never again in the block keeps its value. */
  lemma ParseHeaderBlockLastWins(lines: seq<string>, j: nat, name: string, value: string)
    requires j < HeaderEnd(lines) && HeaderField(lines[j]) == Some(Header(name, value))
    requires forall k :: j < k < HeaderEnd(lines) ==> !SetsHeader(lines[k], name)
    ensures name in ParseHeaderBlock(lines).headers
    ensures ParseHeaderBlock(lines).headers[name] == value
  {
    var end := HeaderEnd(lines);
    var fs := HeaderFields(lines[..end]);
    BlockFields(lines);
    LastFieldWins(NO_HEADERS, fs, j, name, value);
  }

  /** A MIME type followed by "; charset=..." gives both back: the inverse of
      writing a `content-type` value. */
  lemma ContentTypeWithCharset(mime: string, pad: string, charset: string)
    requires |mime| > 0 && ';' !in mime
    requires forall i :: 0 <= i < |pad| ==> IsTrimmable(pad[i])
    requires charset == [] || !IsTrimmable(charset[|charset| - 1])
    ensures ContentType(mime + ";" + pad + "charset=" + charset) == MediaType(mime, Some(charset))
  {
    var tail := pad + "charset=" + charset;
    var v := mime + ";" + pad + "charset=" + charset;
    assert v == mime + [';'] + tail;
    IndexOfAppend(mime, ';', tail);
    assert v[..|mime|] == mime;
    assert v[|mime| + 1..] == tail;
    var cs := "charset=" + charset;
    assert TrimStart(tail) == TrimStart(cs) by {
      assert tail == pad + cs;
      TrimStartPad(pad, cs);
    }
    TrimFixed(cs);
    assert cs[8..] == charset;
  }

  lemma {:induction false} TrimStartPad(pad: string, s: string)
    requires forall i :: 0 <= i < |pad| ==> IsTrimmable(pad[i])
    ensures TrimStart(pad + s) == TrimStart(s)
    decreases |pad|
  {
    if pad != [] {
      assert (pad + s)[1..] == pad[1..] + s;
      TrimStartPad(pad[1..], s);
    } else {
      assert pad + s == s;
    }
  }

  /** A value with no ';' after its first character is all MIME type, with
      no charset. */
  lemma ContentTypePlain(value: string)
    requires ';' !in value || value[0] == ';'
    ensures ContentType(value) == MediaType(value, None)
  {
    IndexOfFacts(value, ';');
  }

  /** A parameter other than "charset=" after the ';' names no charset. */
  lemma ContentTypeNoCharset(mime: string, rest: string)
    requires |mime| > 0 && ';' !in mime
    requires !StartsWith(Trim(rest), "charset=")
    ensures ContentType(mime + ";" + rest) == MediaType(mime, None)
  {
    var v := mime + ";" + rest;
    assert v == mime + [';'] + rest;
    IndexOfAppend(mime, ';', rest);
    assert v[..|mime|] == mime;
    assert v[|mime| + 1..] == rest;
  }

  // ---------------------------------------------------------------------
  // lookups on the parsed preamble

  /** `getHeader`: the value stored under the lower-cased name. */
  function HeaderValue(p: Preamble, name: string): (r: Option<string>)
    ensures r.Some? ==> r.value in p.headers.Values
  {
    var key := ToLower(name);
    if key in p.headers then Some(p.headers[key]) else None
  }

  /** Looking a header up ignores the case of the name asked for. */
  lemma HeaderValueIgnoresCase(p: Preamble, name: string)
    ensures HeaderValue(p, name) == HeaderValue(p, ToLower(name))
  {
    ToLowerIdempotent(name);
  }

  /** A name present after the fold from no headers was given its value by
      the last field that defines it. */
  lemma {:induction false} LastDefinition(fs: seq<Option<Header>>, name: string)
    requires name in ApplyFields(NO_HEADERS, fs).headers
    ensures exists j :: 0 <= j < |fs| && fs[j] == Some(Header(name, ApplyFields(NO_HEADERS, fs).headers[name])) &&
                        (forall k :: j < k < |fs| ==> !Defines(fs[k], name))
    decreases |fs|
  {
    var init := fs[..|fs| - 1];
    var last := fs[|fs| - 1];
    var value := ApplyFields(NO_HEADERS, fs).headers[name];
    if Defines(last, name) {
      assert fs[|fs| - 1] == Some(Header(name, value));
    } else {
      if last.Some? {
        SetHeaderOther(ApplyFields(NO_HEADERS, init), last.value, name);
      }
      LastDefinition(init, name);
      var j :| 0 <= j < |init| && init[j] == Some(Header(name, value)) &&
        forall k :: j < k < |init| ==> !Defines(init[k], name);
      assert fs[j] == init[j];
      assert forall k :: j < k < |fs| ==> !Defines(fs[k], name) by {
        forall k | j < k < |fs|
          ensures !Defines(fs[k], name)
        {
          if k < |init| {
            assert fs[k] == init[k];
          }
        }
      }
    }
  }

  /** `getHeader` on a parsed block: nothing when no header line defines the
      lower-cased name, otherwise the value the last such line gives. */
  lemma HeaderValueFromLines(lines: seq<string>, name: string)
    ensures var key := ToLower(name);
      HeaderValue(ParseHeaderBlock(lines), name).None? <==>
        forall j :: 0 <= j < HeaderEnd(lines) ==> !SetsHeader(lines[j], key)
    ensures var key := ToLower(name); var v := HeaderValue(ParseHeaderBlock(lines), name);
      v.Some? ==> exists j :: 0 <= j < HeaderEnd(lines) && HeaderField(lines[j]) == Some(Header(key, v.value)) &&
                              (forall k :: j < k < HeaderEnd(lines) ==> !SetsHeader(lines[k], key))
  {
    var key := ToLower(name);
    var end := HeaderEnd(lines);
    var fs := HeaderFields(lines[..end]);
    ParseHeaderBlockNames(lines, key);
    if key in ParseHeaderBlock(lines).headers {
      LastDefinition(fs, key);
      BlockDefines(lines, key);
      var v := ParseHeaderBlock(lines).headers[key];
      var j :| 0 <= j < |fs| && fs[j] == Some(Header(key, v)) && forall k :: j < k < |fs| ==> !Defines(fs[k], key);
      BlockFields(lines);
      assert HeaderField(lines[j]) == Some(Header(key, v));
    }
  }

  /** A block line defines a name exactly when its field does. */
  lemma BlockDefines(lines: seq<string>, name: string)
    ensures var end := HeaderEnd(lines);
      forall k :: 0 <= k < end ==> (SetsHeader(lines[k], name) <==> Defines(HeaderFields(lines[..end])[k], name))
  {
    BlockFields(lines);
  }

  /** What `Integer.parseInt` throws. */
  datatype NumberFormat = NumberFormatException

  /** `getContentLength`: -1 without a `content-length` header, otherwise its
      value parsed as a 32-bit integer. */
  function ContentLength(p: Preamble): (r: Result<int, NumberFormat>)
    ensures r.Success? ==> INT_MIN <= r.value <= INT_MAX
    ensures HeaderValue(p, "content-length").None? ==> r == Success(-1)
    ensures HeaderValue(p, "content-length").Some? ==>
      var v := HeaderValue(p, "content-length").value;
      && (r.Failure? <==> ParseInteger(v, INT_MIN, INT_MAX).None?)
      && (r.Success? ==> r.value == ParseInteger(v, INT_MIN, INT_MAX).value)
  {
    match HeaderValue(p, "content-length")
    case None => Success(-1)
    case Some(s) =>
      match ParseInteger(s, INT_MIN, INT_MAX)
      case None => Failure(NumberFormatException)
      case Some(n) => Success(n)
  }

  /** A length written in decimal is read back. */
  lemma ContentLengthReadsBack(p: Preamble, n: int)
    requires INT_MIN <= n <= INT_MAX
    requires HeaderValue(p, "content-length") == Some(IntToString(n))
    ensures ContentLength(p) == Success(n)
  {
    ParseIntToString(n, INT_MIN, INT_MAX);
  }

  /** A `content-length` header of an optional sign and digits, leading zeros
      and '+' included, reads as the number it denotes when that fits in an
      `int`, and throws `NumberFormatException` otherwise. */
  lemma ContentLengthOfDecimal(p: Preamble, sign: string, digits: string)
    requires sign == "" || sign == "+" || sign == "-"
    requires |digits| >= 1 && AllDigits(digits)
    requires HeaderValue(p, "content-length") == Some(sign + digits)
    ensures var v := if sign == "-" then 0 - DigitsValue(digits) as int else DigitsValue(digits);
      ContentLength(p) == if INT_MIN <= v <= INT_MAX then Success(v) else Failure(NumberFormatException)
  {
    ParseIntegerDecimal(sign, digits, INT_MIN, INT_MAX);
  }

  /** A `content-length` header that is not an optional sign followed by
      digits throws `NumberFormatException`. */
  lemma ContentLengthNotNumeric(p: Preamble)
    requires HeaderValue(p, "content-length").Some?
    requires var v := HeaderValue(p, "content-length").value;
      v == [] || var body := if v[0] == '-' || v[0] == '+' then v[1..] else v; body == [] || !AllDigits(body)
    ensures ContentLength(p) == Failure(NumberFormatException)
  {
  }

  /** The MIME types that make a response a possible feed. */
  const FEED_MIME_TYPES: set<string> := {"text/xml", "text/rss+xml", "application/rss+xml"}

  /** `isFeed`: the MIME type is exactly one of the feed types (a missing
      one is not). */
  predicate IsFeedType(p: Preamble)
    ensures IsFeedType(p) ==> p.mimeType.Some? && |p.mimeType.value| >= 8 && p.mimeType.value[|p.mimeType.value| - 3..] == "xml"
  {
    p.mimeType.Some? && p.mimeType.value in FEED_MIME_TYPES
  }

  /** A parsed response is a feed exactly when its `content-type` header,
      read as a media type, names a feed MIME type. */
  lemma IsFeedFromContentType(lines: seq<string>)
    ensures var p := ParseHeaderBlock(lines);
      IsFeedType(p) <==>
        HeaderValue(p, "content-type").Some? && ContentType(HeaderValue(p, "content-type").value).mime in FEED_MIME_TYPES
  {
    ParseHeaderBlockContentType(lines);
    ContentTypeKeyIsLower();
  }

  lemma ContentTypeKeyIsLower()
    ensures ToLower("content-type") == "content-type"
  {
    var k := "content-type";
    assert forall i :: 0 <= i < |k| ==> LowerChar(k[i]) == k[i];
  }
}
