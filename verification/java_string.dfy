/** The `java.lang.String`, `Integer`/`Long` parsing and `Long.toString`
    behaviour that the document inspector and the job depend on, over
    `string` (= `seq<char>`). */
module JavaString {
  import opened Wrappers

  const INT_MIN: int := -0x8000_0000
  const INT_MAX: int := 0x7fff_ffff
  const LONG_MIN: int := -0x8000_0000_0000_0000
  const LONG_MAX: int := 0x7fff_ffff_ffff_ffff

  // ---------------------------------------------------------------------
  // trim

  /** `String.trim` removes every character at or below U+0020. */
  predicate IsTrimmable(c: char) {
    c <= ' '
  }

  function TrimStart(s: string): (r: string)
    ensures |r| <= |s|
  {
    if s != [] && IsTrimmable(s[0]) then TrimStart(s[1..]) else s
  }

  /** `TrimStart` drops exactly the leading run of trimmable characters. */
  lemma {:induction false} TrimStartFacts(s: string)
    ensures var r := TrimStart(s); r == s[|s| - |r|..]
    ensures var r := TrimStart(s); r == [] || !IsTrimmable(r[0])
    ensures var r := TrimStart(s); forall i :: 0 <= i < |s| - |r| ==> IsTrimmable(s[i])
  {
    if s != [] && IsTrimmable(s[0]) {
      TrimStartFacts(s[1..]);
    }
  }

  function TrimEnd(s: string): (r: string)
    ensures |r| <= |s|
  {
    if s != [] && IsTrimmable(s[|s| - 1]) then TrimEnd(s[..|s| - 1]) else s
  }

  /** `TrimEnd` drops exactly the trailing run of trimmable characters. */
  lemma {:induction false} TrimEndFacts(s: string)
    ensures var r := TrimEnd(s); r == s[..|r|]
    ensures var r := TrimEnd(s); r == [] || !IsTrimmable(r[|r| - 1])
    ensures var r := TrimEnd(s); forall i :: |r| <= i < |s| ==> IsTrimmable(s[i])
  {
    if s != [] && IsTrimmable(s[|s| - 1]) {
      TrimEndFacts(s[..|s| - 1]);
    }
  }

  /** `String.trim`. */
  function Trim(s: string): (r: string)
    ensures |r| <= |s|
  {
    TrimEnd(TrimStart(s))
  }

  /** The trim of `s` has no trimmable character at either end, and it is
      empty exactly when every character of `s` is trimmable. */
  lemma TrimFacts(s: string)
    ensures var r := Trim(s); r == [] || (!IsTrimmable(r[0]) && !IsTrimmable(r[|r| - 1]))
    ensures Trim(s) == [] <==> forall i :: 0 <= i < |s| ==> IsTrimmable(s[i])
  {
    var t := TrimStart(s);
    TrimStartFacts(s);
    TrimEndFacts(t);
    var r := TrimEnd(t);
    if r != [] {
      assert r[0] == t[0];
    }
    if r == [] {
      assert t == [];
    }
  }

  /** A string with no trimmable character at either end is its own trim. */
  lemma TrimFixed(s: string)
    requires s == [] || (!IsTrimmable(s[0]) && !IsTrimmable(s[|s| - 1]))
    ensures Trim(s) == s
  {
  }

  /** Trimming a trimmed string changes nothing. */
  lemma TrimIdempotent(s: string)
    ensures Trim(Trim(s)) == Trim(s)
  {
    TrimFacts(s);
    TrimFixed(Trim(s));
  }

  /** The trim of `s` is a slice of `s`, so it holds no character `s` lacks. */
  lemma TrimIsInside(s: string)
    ensures forall c :: c in Trim(s) ==> c in s
  {
    var t := TrimStart(s);
    TrimStartFacts(s);
    TrimEndFacts(t);
    forall c | c in Trim(s)
      ensures c in s
    {
      var i :| 0 <= i < |Trim(s)| && Trim(s)[i] == c;
      assert t[i] == c;
      assert s[|s| - |t| + i] == c;
    }
  }

  // ---------------------------------------------------------------------
  // toLowerCase (ASCII letters only)

  function LowerChar(c: char): char {
    if 'A' <= c <= 'Z' then (c as int + 32) as char else c
  }

  function ToLower(s: string): (r: string)
    ensures |r| == |s|
    ensures forall i :: 0 <= i < |s| ==> r[i] == LowerChar(s[i])
  {
    if s == [] then [] else [LowerChar(s[0])] + ToLower(s[1..])
  }

  lemma LowerCharFacts(c: char)
    ensures LowerChar(LowerChar(c)) == LowerChar(c)
    ensures IsTrimmable(LowerChar(c)) <==> IsTrimmable(c)
  {
  }

  /** Lowercasing twice is lowercasing once. */
  lemma ToLowerIdempotent(s: string)
    ensures ToLower(ToLower(s)) == ToLower(s)
  {
    var l := ToLower(s);
    forall i | 0 <= i < |s|
      ensures ToLower(l)[i] == l[i]
    {
      LowerCharFacts(s[i]);
    }
  }

  /** Lowercasing is idempotent and leaves the trimmed ends of a trimmed string alone. */
  lemma ToLowerOfTrimmed(t: string)
    requires Trim(t) == t
    ensures ToLower(ToLower(t)) == ToLower(t)
    ensures Trim(ToLower(t)) == ToLower(t)
  {
    var l := ToLower(t);
    var ll := ToLower(l);
    forall i | 0 <= i < |t|
      ensures ll[i] == l[i]
    {
      LowerCharFacts(t[i]);
    }
    if |t| > 0 {
      LowerCharFacts(t[0]);
      LowerCharFacts(t[|t| - 1]);
    }
    TrimFixed(l);
  }

  // ---------------------------------------------------------------------
  // indexOf

  /** `String.indexOf(char)`: the first index of `c`, or -1. */
  function IndexOf(s: string, c: char): (r: int)
    ensures -1 <= r < |s|
  {
    if s == [] then -1
    else if s[0] == c then 0
    else
      var k := IndexOf(s[1..], c);
      if k < 0 then -1 else k + 1
  }

  /** The index found holds `c` and none comes before it; -1 means `c` is absent. */
  lemma {:induction false} IndexOfFacts(s: string, c: char)
    ensures IndexOf(s, c) == -1 <==> c !in s
    ensures var r := IndexOf(s, c); r >= 0 ==> s[r] == c && c !in s[..r]
  {
    if s != [] && s[0] != c {
      IndexOfFacts(s[1..], c);
      var k := IndexOf(s[1..], c);
      if k >= 0 {
        assert s[1..][..k] == s[1..k + 1];
      } else {
        assert s == [s[0]] + s[1..];
      }
    }
  }

  lemma IndexOfAppend(a: string, c: char, b: string)
    requires c !in a
    ensures IndexOf(a + [c] + b, c) == |a|
  {
    var s := a + [c] + b;
    IndexOfFacts(s, c);
    assert s[|a|] == c;
  }

  predicate OccursAt(s: string, t: string, i: nat) {
    i + |t| <= |s| && s[i..i + |t|] == t
  }

  function IndexOfFrom(s: string, t: string, i: nat): (r: int)
    ensures r == -1 || (i <= r && OccursAt(s, t, r))
    ensures forall k: nat :: i <= k && (r == -1 || k < r) ==> !OccursAt(s, t, k)
    decreases |s| - i
  {
    if i + |t| > |s| then -1
    else if s[i..i + |t|] == t then i
    else IndexOfFrom(s, t, i + 1)
  }

  /** `String.indexOf(String)`: the first index at which `t` occurs in `s`, or -1. */
  function IndexOfSub(s: string, t: string): (r: int)
    ensures r == -1 || (r >= 0 && OccursAt(s, t, r))
    ensures forall k: nat :: (r == -1 || k < r) ==> !OccursAt(s, t, k)
  {
    IndexOfFrom(s, t, 0)
  }

  predicate StartsWith(s: string, prefix: string) {
    |prefix| <= |s| && s[..|prefix|] == prefix
  }

  /** `String.replace(char, char)`. */
  function ReplaceChar(s: string, from: char, to: char): (r: string)
    ensures |r| == |s|
    ensures forall i :: 0 <= i < |s| ==> r[i] == if s[i] == from then to else s[i]
  {
    if s == [] then [] else [if s[0] == from then to else s[0]] + ReplaceChar(s[1..], from, to)
  }

  // ---------------------------------------------------------------------
  // splitting and joining on one character

  /** The pieces of `s` between occurrences of `c`, empty pieces included. */
  function SplitAt(s: string, c: char): (r: seq<string>)
    ensures |r| >= 1
    decreases |s|
  {
    var n := IndexOf(s, c);
    if n < 0 then [s] else [s[..n]] + SplitAt(s[n + 1..], c)
  }

  /** No piece holds the separator. */
  lemma {:induction false} SplitAtPieces(s: string, c: char)
    ensures forall k :: 0 <= k < |SplitAt(s, c)| ==> c !in SplitAt(s, c)[k]
    decreases |s|
  {
    var n := IndexOf(s, c);
    IndexOfFacts(s, c);
    if n >= 0 {
      SplitAtPieces(s[n + 1..], c);
      var rest := SplitAt(s[n + 1..], c);
      var r := SplitAt(s, c);
      assert r == [s[..n]] + rest;
      forall k | 0 <= k < |r|
        ensures c !in r[k]
      {
        if k > 0 {
          assert r[k] == rest[k - 1];
          assert c !in rest[k - 1];
        } else {
          assert r[0] == s[..n];
        }
      }
    }
  }

  /** The pieces of `xs` separated by a single `c`, with no trailing separator. */
  function JoinWith(xs: seq<string>, c: char): (r: string)
    ensures |xs| == 1 ==> r == xs[0]
  {
    if |xs| == 0 then ""
    else if |xs| == 1 then xs[0]
    else xs[0] + [c] + JoinWith(xs[1..], c)
  }

  lemma {:induction false} SplitJoin(xs: seq<string>, c: char)
    requires |xs| >= 1
    requires forall k :: 0 <= k < |xs| ==> c !in xs[k]
    ensures SplitAt(JoinWith(xs, c), c) == xs
  {
    if |xs| == 1 {
      IndexOfFacts(xs[0], c);
    } else {
      var rest := JoinWith(xs[1..], c);
      SplitAtCons(xs[0], c, rest);
      SplitJoin(xs[1..], c);
      assert xs == [xs[0]] + xs[1..];
    }
  }

  /** Splitting a piece without `c`, then `c`, then more, gives that piece first. */
  lemma SplitAtCons(a: string, c: char, b: string)
    requires c !in a
    ensures SplitAt(a + [c] + b, c) == [a] + SplitAt(b, c)
  {
    var s := a + [c] + b;
    IndexOfAppend(a, c, b);
    assert s[..|a|] == a;
    assert s[|a| + 1..] == b;
  }

  lemma {:induction false} JoinSplit(s: string, c: char)
    ensures JoinWith(SplitAt(s, c), c) == s
    decreases |s|
  {
    var n := IndexOf(s, c);
    IndexOfFacts(s, c);
    if n >= 0 {
      var rest := s[n + 1..];
      var tail := SplitAt(rest, c);
      var r := SplitAt(s, c);
      assert r == [s[..n]] + tail;
      JoinSplit(rest, c);
      JoinWithCons(s[..n], tail, c);
      assert JoinWith(r, c) == s[..n] + [c] + rest;
      SplitAround(s, n);
    } else {
      assert SplitAt(s, c) == [s];
    }
  }

  lemma SplitAround(s: string, n: nat)
    requires n < |s|
    ensures s[..n] + [s[n]] + s[n + 1..] == s
  {
  }

  lemma JoinWithCons(x: string, xs: seq<string>, c: char)
    requires |xs| >= 1
    ensures JoinWith([x] + xs, c) == x + [c] + JoinWith(xs, c)
  {
    assert ([x] + xs)[1..] == xs;
  }

  function CountChar(s: string, c: char): nat {
    if s == [] then 0 else (if s[0] == c then 1 else 0) + CountChar(s[1..], c)
  }

  lemma {:induction false} CountCharAppend(a: string, b: string, c: char)
    ensures CountChar(a + b, c) == CountChar(a, c) + CountChar(b, c)
  {
    if a != [] {
      assert (a + b)[1..] == a[1..] + b;
      CountCharAppend(a[1..], b, c);
    } else {
      assert a + b == b;
    }
  }

  lemma {:induction false} CountCharAbsent(s: string, c: char)
    requires c !in s
    ensures CountChar(s, c) == 0
  {
    if s != [] {
      CountCharAbsent(s[1..], c);
    }
  }

  /** Joining `n` separator-free pieces puts exactly `n - 1` separators in the text. */
  lemma {:induction false} JoinWithCount(xs: seq<string>, c: char)
    requires |xs| >= 1
    requires forall k :: 0 <= k < |xs| ==> c !in xs[k]
    ensures CountChar(JoinWith(xs, c), c) == |xs| - 1
  {
    CountCharAbsent(xs[0], c);
    if |xs| > 1 {
      JoinWithCount(xs[1..], c);
      CountCharAppend(xs[0] + [c], JoinWith(xs[1..], c), c);
      CountCharAppend(xs[0], [c], c);
      assert CountChar([c], c) == 1;
    }
  }

  /** `String.split` with limit 0 discards the trailing empty pieces. */
  function DropTrailingEmpty(xs: seq<string>): (r: seq<string>)
    ensures |r| <= |xs| && r == xs[..|r|]
    ensures r == [] || r[|r| - 1] != ""
    ensures forall k :: |r| <= k < |xs| ==> xs[k] == ""
  {
    if xs != [] && xs[|xs| - 1] == "" then DropTrailingEmpty(xs[..|xs| - 1]) else xs
  }

  /** `String.split` on a one-character, non-metacharacter regex: the whole
      string when `c` does not occur, otherwise the pieces without trailing empties. */
  function JavaSplit(s: string, c: char): (r: seq<string>)
    ensures |r| <= |SplitAt(s, c)| && r == SplitAt(s, c)[..|r|]
  {
    if c !in s then IndexOfFacts(s, c); [s] else DropTrailingEmpty(SplitAt(s, c))
  }

  /** Java's split keeps every non-empty piece where it was: its piece at index
      `k` is the raw piece at `k`, and a missing piece was empty or absent. */
  lemma JavaSplitPiece(s: string, c: char, k: nat)
    ensures k < |JavaSplit(s, c)| ==> k < |SplitAt(s, c)| && JavaSplit(s, c)[k] == SplitAt(s, c)[k]
    ensures k >= |JavaSplit(s, c)| && k < |SplitAt(s, c)| ==> SplitAt(s, c)[k] == ""
  {
    if c !in s {
      IndexOfFacts(s, c);
    }
  }

  // ---------------------------------------------------------------------
  // decimal integers

  predicate IsDigit(c: char) {
    '0' <= c <= '9'
  }

  predicate AllDigits(s: string) {
    forall i :: 0 <= i < |s| ==> IsDigit(s[i])
  }

  function DigitsValue(s: string): nat
    requires AllDigits(s)
  {
    if s == [] then 0 else DigitsValue(s[..|s| - 1]) * 10 + (s[|s| - 1] as int - '0' as int)
  }

  function DigitChar(d: nat): (c: char)
    requires d < 10
    ensures IsDigit(c) && c as int - '0' as int == d
  {
    ('0' as int + d) as char
  }

  /** The decimal digits of `n`, most significant first, with no leading zero. */
  function NatToString(n: nat): (r: string)
    ensures |r| >= 1 && AllDigits(r)
    ensures DigitsValue(r) == n
    ensures r[0] != '0' || n == 0
  {
    if n < 10 then [DigitChar(n)]
    else
      var prefix := NatToString(n / 10);
      var r := prefix + [DigitChar(n % 10)];
      assert r[..|r| - 1] == prefix;
      r
  }

  /** `Long.toString` / `StringBuilder.append(long)`. */
  function IntToString(n: int): (r: string)
    ensures |r| >= 1 && r[0] != '+'
    ensures n >= 0 ==> AllDigits(r)
    ensures n < 0 ==> r[0] == '-' && AllDigits(r[1..])
  {
    if n < 0 then "-" + NatToString(-n) else NatToString(n)
  }

  /** `Integer.parseInt` (bounds `INT_MIN`..`INT_MAX`) and `Long.parseLong`
      (bounds `LONG_MIN`..`LONG_MAX`): an optional sign, then one or more
      digits, whose value must lie within the bounds. */
  function ParseInteger(s: string, lo: int, hi: int): (r: Option<int>)
    ensures r.Some? ==> lo <= r.value <= hi
    ensures r.Some? ==> s != [] && AllDigits(if s[0] == '-' || s[0] == '+' then s[1..] else s)
    ensures r.Some? ==>
      var body := if s[0] == '-' || s[0] == '+' then s[1..] else s;
      r.value == if s[0] == '-' then 0 - DigitsValue(body) as int else DigitsValue(body)
  {
    if s == [] then None
    else
      var body := if s[0] == '-' || s[0] == '+' then s[1..] else s;
      if body == [] || !AllDigits(body) then None
      else
        var v: int := if s[0] == '-' then 0 - DigitsValue(body) as int else DigitsValue(body);
        if lo <= v <= hi then Some(v) else None
  }

  lemma ParseIntegerEmpty(lo: int, hi: int)
    ensures ParseInteger("", lo, hi) == None
  {
  }

  /** An optional sign and one or more digits parse, leading zeros and '+'
      included, exactly when the value they denote lies within the bounds. */
  lemma ParseIntegerDecimal(sign: string, digits: string, lo: int, hi: int)
    requires sign == "" || sign == "+" || sign == "-"
    requires |digits| >= 1 && AllDigits(digits)
    ensures var v := if sign == "-" then 0 - DigitsValue(digits) as int else DigitsValue(digits);
      ParseInteger(sign + digits, lo, hi) == if lo <= v <= hi then Some(v) else None
  {
    var s := sign + digits;
    if sign == "" {
      assert s == digits;
    } else {
      assert s[0] == sign[0] && s[1..] == digits;
    }
  }

  /** Parsing what `IntToString` printed gives the number back. */
  lemma ParseIntToString(n: int, lo: int, hi: int)
    requires lo <= n <= hi
    ensures ParseInteger(IntToString(n), lo, hi) == Some(n)
  {
    var s := IntToString(n);
    if n < 0 {
      assert s[1..] == NatToString(-n);
    } else {
      assert s == NatToString(n);
      assert IsDigit(s[0]);
    }
  }
}
