/** `WARCDoc.DateHelper.toEpochSec`: the clean-up of an RSS or Atom date
    string before it is handed to a `SimpleDateFormat`, and the conversion of
    the parsed instant to Unix seconds. */
module DateHelper {
  import opened Wrappers
  import opened JavaString

  /** The two date formats, `EEE, d MMM yyyy HH:mm:ss Z` (RSS) and
      `yyyy-MM-dd'T'HH:mm:ssX` (Atom), as parameters: each gives the parsed
      instant in milliseconds since the epoch, or `None` where `parse` throws
      `ParseException`. */
  datatype DateParsers = DateParsers(atom: string -> Option<int>, rss: string -> Option<int>)

  /** What `toEpochSec` answers when it does not understand a date. */
  const NO_DATE: int := -1

  /** Java's `long / long`: the quotient truncated toward zero. */
  function DivTrunc(a: int, b: int): (q: int)
    requires b > 0
    ensures a >= 0 ==> q >= 0
    ensures a <= 0 ==> q <= 0
  {
    if a >= 0 then a / b else -((-a) / b)
  }

  /** The truncated quotient is the one whose remainder is smaller than the
      divisor and has the sign of the dividend. */
  lemma DivTruncIsJava(a: int, b: int)
    requires b > 0
    ensures var q := DivTrunc(a, b); var r := a - q * b;
      -b < r < b && (r == 0 || (r > 0 <==> a > 0))
  {
    if a < 0 {
      DivTruncNegative(a, b);
    } else {
      DivTruncNonNegative(a, b);
    }
  }

  lemma DivTruncNonNegative(a: int, b: int)
    requires b > 0 && a >= 0
    ensures var r := a - DivTrunc(a, b) * b; 0 <= r < b && r <= a
  {
    var q := a / b;
    assert a == q * b + a % b;
    assert q >= 0;
  }

  lemma DivTruncNegative(a: int, b: int)
    requires b > 0 && a < 0
    ensures var r := a - DivTrunc(a, b) * b; -b < r <= 0
  {
    var n := -a;
    var q := n / b;
    var m := n % b;
    assert n == q * b + m && 0 <= m < b;
    assert DivTrunc(a, b) * b == -(q * b);
  }

  /** `date.getTime() / 1000`, or -1 for a `ParseException`. */
  function Seconds(millis: Option<int>): (r: int)
    ensures millis.Some? && millis.value >= 0 ==> r >= 0
  {
    match millis
    case None => NO_DATE
    case Some(ms) => DivTrunc(ms, 1000)
  }

  /** A bare `YYYY-MM-DD` (or `YYYY/MM/DD`) date is read as noon of that day. */
  function DateOnlyToTimestamp(s: string): (r: string)
    ensures |r| == |s| + 9
    ensures forall i :: 0 <= i < |s| ==> r[i] == if s[i] == '/' then '-' else s[i]
  {
    ReplaceChar(s, '/', '-') + "T12:00:00"
  }

  /** The string `toEpochSec` goes on with: a ten-character date rewritten
      as noon of that day, anything else as it is. */
  function Timestamp(s: string): (r: string)
    ensures |s| == 10 ==> |r| == 19 && r[10] == 'T'
    ensures |s| != 10 ==> r == s
  {
    if |s| == 10 then DateOnlyToTimestamp(s) else s
  }

  /** The end of the run of decimal digits that starts at `m`. */
  function DigitRunEnd(s: string, m: nat): (e: nat)
    requires m <= |s|
    ensures m <= e <= |s|
    ensures forall k :: m <= k < e ==> IsDigit(s[k])
    ensures e == |s| || !IsDigit(s[e])
    decreases |s| - m
  {
    if m < |s| && IsDigit(s[m]) then DigitRunEnd(s, m + 1) else m
  }

  /** Drops the sub-second digits: from the first '.' (when it is not the
      first character) up to the first non-digit after it. */
  function StripFraction(s: string): (t: string)
    ensures |t| <= |s|
  {
    var n := IndexOf(s, '.');
    if n > 0 then
      var m := DigitRunEnd(s, n + 1);
      if m < |s| then s[..n] + s[m..] else s[..n]
    else s
  }

  /** `toEpochSec`: -1 for a missing or short string; a ten-character date
      becomes a noon timestamp; a 'T' at index 10 selects the Atom format
      (sub-seconds removed, at least 19 characters needed), anything else
      the RSS format. */
  function EpochSec(dateStr: Option<string>, p: DateParsers): (r: int)
    ensures dateStr.None? || |dateStr.value| < 10 ==> r == NO_DATE
  {
    if dateStr.None? || |dateStr.value| < 10 then NO_DATE
    else
      var s := Timestamp(dateStr.value);
      if s[10] == 'T' then
        var t := StripFraction(s);
        if |t| < 19 then NO_DATE else Seconds(p.atom(t))
      else Seconds(p.rss(s))
  }

  /** `toEpochSec` as the source writes it, with the scan over the
      sub-second digits as a loop. */
  method ToEpochSec(dateStr: Option<string>, p: DateParsers) returns (r: int)
    ensures r == EpochSec(dateStr, p)
  {
    if dateStr.None? || |dateStr.value| < 10 {
      return NO_DATE;
    }
    var s := dateStr.value;
    if |s| == 10 {
      s := ReplaceChar(s, '/', '-');
      s := s + "T12:00:00";
    }
    if s[10] == 'T' {
      s := StripSubseconds(s);
      if |s| < 19 {
        return NO_DATE;
      }
      r := Seconds(p.atom(s));
    } else {
      r := Seconds(p.rss(s));
    }
  }

  /** The sub-second clean-up of the Atom branch, with its digit scan. */
  method StripSubseconds(s: string) returns (t: string)
    ensures t == StripFraction(s)
  {
    t := s;
    var n := IndexOf(s, '.');
    if n > 0 {
      var m := n + 1;
      while m < |s| && IsDigit(s[m])
        invariant n + 1 <= m <= |s|
        invariant DigitRunEnd(s, m) == DigitRunEnd(s, n + 1)
        decreases |s| - m
      {
        m := m + 1;
      }
      if m < |s| {
        t := s[..n] + s[m..];
      } else {
        t := s[..n];
      }
    }
  }

  // ---------------------------------------------------------------------
  // properties

  /** Whatever the parsers do, the answer is -1 or the truncated seconds of
      an instant one of them returned, for the text the branch chose. */
  lemma EpochSecFromParser(dateStr: Option<string>, p: DateParsers)
    ensures var r := EpochSec(dateStr, p);
      r == NO_DATE ||
      (dateStr.Some? && |dateStr.value| >= 10 &&
        exists t: string :: (p.atom(t).Some? && r == DivTrunc(p.atom(t).value, 1000)) ||
                            (p.rss(t).Some? && r == DivTrunc(p.rss(t).value, 1000)))
  {
    var r := EpochSec(dateStr, p);
    if r != NO_DATE {
      var s := if |dateStr.value| == 10 then DateOnlyToTimestamp(dateStr.value) else dateStr.value;
      var t := if s[10] == 'T' then StripFraction(s) else s;
      if s[10] == 'T' {
        assert p.atom(t).Some? && r == DivTrunc(p.atom(t).value, 1000);
      } else {
        assert p.rss(t).Some? && r == DivTrunc(p.rss(t).value, 1000);
      }
    }
  }

  /** Digits after the first '.' are cut out up to the next non-digit. */
  lemma StripFractionCuts(a: string, digits: string, b: string)
    requires |a| > 0 && '.' !in a
    requires AllDigits(digits)
    requires b == [] || !IsDigit(b[0])
    ensures StripFraction(a + "." + digits + b) == a + b
  {
    var s := a + "." + digits + b;
    assert s == a + ['.'] + (digits + b);
    IndexOfAppend(a, '.', digits + b);
    var n := |a|;
    DigitRunEndIs(s, n + 1, n + 1 + |digits|);
    assert s[..n] == a;
    assert s[n + 1 + |digits|..] == b;
  }

  /** A run of digits followed by a non-digit (or the end) is the run
      `DigitRunEnd` finds. */
  lemma {:induction false} DigitRunEndIs(s: string, m: nat, e: nat)
    requires m <= e <= |s|
    requires forall k :: m <= k < e ==> IsDigit(s[k])
    requires e == |s| || !IsDigit(s[e])
    ensures DigitRunEnd(s, m) == e
    decreases e - m
  {
    if m < e {
      DigitRunEndIs(s, m + 1, e);
    }
  }

  lemma StripFractionNoDot(s: string)
    requires '.' !in s
    ensures StripFraction(s) == s
  {
    IndexOfFacts(s, '.');
  }

  /** Sub-seconds make no difference: an Atom timestamp with a fraction
      after its seconds is read as the same timestamp without it. */
  lemma FractionIgnored(a: string, digits: string, b: string, p: DateParsers)
    requires |a| >= 11 && a[10] == 'T' && '.' !in a && '.' !in b
    requires AllDigits(digits)
    requires b == [] || !IsDigit(b[0])
    ensures EpochSec(Some(a + "." + digits + b), p) == EpochSec(Some(a + b), p)
  {
    var s := a + "." + digits + b;
    assert s[10] == 'T';
    assert (a + b)[10] == 'T';
    StripFractionCuts(a, digits, b);
    assert '.' !in a + b;
    StripFractionNoDot(a + b);
  }

  /** A bare date with no '.' in it is handed to the Atom format as
      `<date>T12:00:00`, with '/' read as '-' and no zone. */
  lemma DateOnlyGoesToAtom(d: string, p: DateParsers)
    requires |d| == 10 && '.' !in d
    ensures EpochSec(Some(d), p) == Seconds(p.atom(DateOnlyToTimestamp(d)))
  {
    var s := DateOnlyToTimestamp(d);
    assert s[10] == 'T';
    assert '.' !in s by {
      forall i | 0 <= i < |s|
        ensures s[i] != '.'
      {
        if i < 10 {
          assert s[i] == if d[i] == '/' then '-' else d[i];
        } else {
          assert s[i] == "T12:00:00"[i - 10];
        }
      }
    }
    StripFractionNoDot(s);
  }

  /** An Atom format that insists on a zone, as the pattern's final `X`
      does, refuses the zone-less noon timestamp, so a bare date gives -1. */
  lemma DateOnlyUnknownWithoutZone(d: string, p: DateParsers)
    requires |d| == 10 && '.' !in d
    requires p.atom(DateOnlyToTimestamp(d)).None?
    ensures EpochSec(Some(d), p) == NO_DATE
  {
    DateOnlyGoesToAtom(d, p);
  }

  /** A string of eleven or more characters without 'T' at index 10 goes to
      the RSS format untouched. */
  lemma RssUntouched(s: string, p: DateParsers)
    requires |s| > 10 && s[10] != 'T'
    ensures EpochSec(Some(s), p) == Seconds(p.rss(s))
  {
  }

  /** The Atom examples with sub-seconds from the source's comments read as
      the same instants without them. */
  lemma ExampleFractionZulu(p: DateParsers)
    ensures EpochSec(Some("2003-12-13T18:30:02.25Z"), p) == EpochSec(Some("2003-12-13T18:30:02Z"), p)
  {
    var a := "2003-12-13T18:30:02";
    assert a + "." + "25" + "Z" == "2003-12-13T18:30:02.25Z";
    assert a + "Z" == "2003-12-13T18:30:02Z";
    FractionIgnored(a, "25", "Z", p);
  }

  lemma ExampleFractionOffset(p: DateParsers)
    ensures EpochSec(Some("2003-12-13T18:30:02.25+01:00"), p) == EpochSec(Some("2003-12-13T18:30:02+01:00"), p)
  {
    var a := "2003-12-13T18:30:02";
    assert a + "." + "25" + "+01:00" == "2003-12-13T18:30:02.25+01:00";
    assert a + "+01:00" == "2003-12-13T18:30:02+01:00";
    FractionIgnored(a, "25", "+01:00", p);
  }

  /** An Atom timestamp shorter than 19 characters once its fraction is
      gone is not understood. */
  lemma AtomTooShort(s: string, p: DateParsers)
    requires |s| >= 10 && Timestamp(s)[10] == 'T' && |StripFraction(Timestamp(s))| < 19
    ensures EpochSec(Some(s), p) == NO_DATE
  {
  }

  /** A date the chosen format cannot parse is not understood. */
  lemma ParseFailureIsUnknown(s: string, p: DateParsers)
    requires |s| >= 10
    requires Timestamp(s)[10] == 'T' ==> p.atom(StripFraction(Timestamp(s))).None?
    requires Timestamp(s)[10] != 'T' ==> p.rss(Timestamp(s)).None?
    ensures EpochSec(Some(s), p) == NO_DATE
  {
  }

  /** `getTime() / 1000` is -1 exactly for the instants from 2000 ms (not
      included) to 1000 ms before the epoch. */
  lemma SecondsUnknown(millis: Option<int>)
    ensures Seconds(millis) == NO_DATE <==> millis.None? || -2000 < millis.value <= -1000
  {
    if millis.Some? && millis.value < 0 {
      var n := -millis.value;
      assert Seconds(millis) == -(n / 1000);
      if n < 1000 {
        assert n / 1000 == 0;
      } else if n < 2000 {
        assert n / 1000 == 1;
      } else {
        assert n / 1000 >= 2;
      }
    }
  }

  /** `toEpochSec` answers -1 exactly when the string is missing or short,
      the Atom timestamp is too short, the chosen format fails, or it parses
      to an instant in the last two seconds before the epoch, whose truncated
      seconds are -1 as well. */
  lemma EpochSecUnknown(dateStr: Option<string>, p: DateParsers)
    ensures EpochSec(dateStr, p) == NO_DATE <==>
      || dateStr.None? || |dateStr.value| < 10
      || (var s := Timestamp(dateStr.value);
          if s[10] == 'T' then
            var t := StripFraction(s);
            |t| < 19 || p.atom(t).None? || -2000 < p.atom(t).value <= -1000
          else p.rss(s).None? || -2000 < p.rss(s).value <= -1000)
  {
    if dateStr.Some? && |dateStr.value| >= 10 {
      var s := Timestamp(dateStr.value);
      if s[10] == 'T' {
        SecondsUnknown(p.atom(StripFraction(s)));
      } else {
        SecondsUnknown(p.rss(s));
      }
    }
  }

  /** Once its fraction is gone, an Atom timestamp without seconds is too short. */
  lemma ExampleNoSeconds(p: DateParsers)
    ensures EpochSec(Some("2003-12-13T18:30.5"), p) == NO_DATE
  {
    var a := "2003-12-13T18:30";
    var s := a + "." + "5" + "";
    assert s == "2003-12-13T18:30.5";
    StripFractionCuts(a, "5", "");
    assert a + "" == a;
    assert Timestamp(s) == s;
    assert s[10] == 'T';
    AtomTooShort(s, p);
  }
}
