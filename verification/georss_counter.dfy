/** The reduce and sort pieces of the GeoRSS counting job: the reducer that
    sums the mapper's `long[]` tuples ([updatedAt, geoTagCount,
    locationCount]) element by element and writes them tab-separated, and
    the comparator that orders output keys shortest first. */
module GeoRssCounter {
  import opened Wrappers
  import opened JavaString

  // ---------------------------------------------------------------------
  // Java long arithmetic

  newtype Long = x: int | -0x8000_0000_0000_0000 <= x <= 0x7fff_ffff_ffff_ffff

  const TWO_64: int := 0x1_0000_0000_0000_0000

  /** Java's `long + long`, which wraps around on overflow. */
  function AddLong(a: Long, b: Long): (r: Long)
    ensures LONG_MIN <= a as int + b as int <= LONG_MAX ==> r as int == a as int + b as int
    ensures a as int + b as int > LONG_MAX ==> r < 0
    ensures a as int + b as int < LONG_MIN ==> r >= 0
  {
    var s := a as int + b as int;
    if s > LONG_MAX then (s - TWO_64) as Long
    else if s < LONG_MIN then (s + TWO_64) as Long
    else s as Long
  }

  /** The `long` that is congruent to `x` modulo 2^64. */
  function Wrap(x: int): (r: Long)
    ensures (r as int - x) % TWO_64 == 0
  {
    var m := (x - LONG_MIN) % TWO_64;
    assert (m + LONG_MIN - x) == -((x - LONG_MIN) / TWO_64) * TWO_64;
    (m + LONG_MIN) as Long
  }

  /** A value within range wraps to itself. */
  lemma WrapInRange(x: int)
    requires LONG_MIN <= x <= LONG_MAX
    ensures Wrap(x) as int == x
  {
    assert 0 <= x - LONG_MIN < TWO_64;
  }

  /** Two `long`s congruent modulo 2^64 are the same `long`. */
  lemma LongCongruent(a: Long, b: Long)
    requires (a as int - b as int) % TWO_64 == 0
    ensures a == b
  {
    var d := a as int - b as int;
    assert -TWO_64 < d < TWO_64;
  }

  /** Adding to a wrapped value wraps the exact sum: 64-bit addition is
      addition modulo 2^64. */
  lemma WrapAdd(x: int, y: int)
    ensures Wrap(Wrap(x) as int + y) == Wrap(x + y)
  {
    var a := Wrap(Wrap(x) as int + y);
    var b := Wrap(x + y);
    var k1 := (a as int - (Wrap(x) as int + y)) / TWO_64;
    var k2 := (Wrap(x) as int - x) / TWO_64;
    var k3 := (b as int - (x + y)) / TWO_64;
    assert a as int - b as int == (k1 + k2 - k3) * TWO_64;
    ModMultiple(k1 + k2 - k3);
    LongCongruent(a, b);
  }

  lemma ModMultiple(k: int)
    ensures (k * TWO_64) % TWO_64 == 0
  {
  }

  /** The wrap-around addition is addition modulo 2^64. */
  lemma AddLongIsWrap(a: Long, b: Long)
    ensures AddLong(a, b) == Wrap(a as int + b as int)
  {
    var s := a as int + b as int;
    var r := AddLong(a, b);
    if s > LONG_MAX {
      assert r as int - s == -TWO_64;
    } else if s < LONG_MIN {
      assert r as int - s == TWO_64;
    } else {
      WrapInRange(s);
    }
    assert (r as int - s) % TWO_64 == 0;
    LongCongruent(r, Wrap(s));
  }

  // ---------------------------------------------------------------------
  // the reducer's specification

  /** One pass of the inner loop: each index below both lengths gets the
      other array's value added; the rest stay. */
  function AddInto(sums: seq<Long>, vals: seq<Long>): (r: seq<Long>)
    ensures |r| == |sums|
  {
    seq(|sums|, i requires 0 <= i < |sums| => if i < |vals| then AddLong(sums[i], vals[i]) else sums[i])
  }

  /** The accumulator after all tuples: the first tuple's array with every
      later one added into it. */
  function SumRows(rows: seq<seq<Long>>): (r: seq<Long>)
    requires |rows| >= 1
    ensures |r| == |rows[0]|
  {
    if |rows| == 1 then rows[0] else AddInto(SumRows(rows[..|rows| - 1]), rows[|rows| - 1])
  }

  /** The exact total of column `i`. */
  function ColumnTotal(rows: seq<seq<Long>>, i: nat): int
    requires forall k :: 0 <= k < |rows| ==> i < |rows[k]|
  {
    if rows == [] then 0 else ColumnTotal(rows[..|rows| - 1], i) + rows[|rows| - 1][i] as int
  }

  /** Where every tuple has an element `i`, the accumulator holds the total
      of column `i` modulo 2^64. */
  lemma {:induction false} SumRowsColumn(rows: seq<seq<Long>>, i: nat)
    requires |rows| >= 1 && forall k :: 0 <= k < |rows| ==> i < |rows[k]|
    ensures SumRows(rows)[i] == Wrap(ColumnTotal(rows, i))
    decreases |rows|
  {
    var init := rows[..|rows| - 1];
    if |rows| == 1 {
      assert ColumnTotal(init, i) == 0;
      WrapInRange(rows[0][i] as int);
    } else {
      SumRowsColumn(init, i);
      var before := SumRows(init);
      var last := rows[|rows| - 1];
      AddLongIsWrap(before[i], last[i]);
      WrapAdd(ColumnTotal(init, i), last[i] as int);
    }
  }

  /** Tuples of equal length are summed column by column; without overflow
      the sums are exact. */
  lemma SumRowsEqualLengths(rows: seq<seq<Long>>, i: nat)
    requires |rows| >= 1 && forall k :: 0 <= k < |rows| ==> |rows[k]| == |rows[0]|
    requires i < |rows[0]|
    ensures SumRows(rows)[i] == Wrap(ColumnTotal(rows, i))
    ensures LONG_MIN <= ColumnTotal(rows, i) <= LONG_MAX ==> SumRows(rows)[i] as int == ColumnTotal(rows, i)
  {
    SumRowsColumn(rows, i);
    if LONG_MIN <= ColumnTotal(rows, i) <= LONG_MAX {
      WrapInRange(ColumnTotal(rows, i));
    }
  }

  /** An element of the accumulator beyond the length of some later tuple
      is not changed by that tuple. */
  lemma AddIntoKeepsTail(sums: seq<Long>, vals: seq<Long>, i: nat)
    requires |vals| <= i < |sums|
    ensures AddInto(sums, vals)[i] == sums[i]
  {
  }

  /** What the reducer writes: nothing, a line of text, or the
      `StringIndexOutOfBoundsException` that `setLength(-1)` throws for an
      empty tuple. */
  datatype ReduceOutcome = NoOutput | Written(text: string) | IndexOutOfBounds

  /** The decimal forms of the sums. */
  function Decimals(xs: seq<Long>): (r: seq<string>)
    ensures |r| == |xs|
  {
    seq(|xs|, i requires 0 <= i < |xs| => IntToString(xs[i] as int))
  }

  /** What the `StringBuilder` holds after the `for` loop: each decimal
      followed by a tab. */
  function Tabbed(ds: seq<string>): (r: string)
    ensures |r| >= |ds|
  {
    if ds == [] then "" else ds[0] + "\t" + Tabbed(ds[1..])
  }

  /** The line written for the sums: the loop's text without its last character. */
  function Formatted(xs: seq<Long>): (r: ReduceOutcome)
    ensures !r.NoOutput?
    ensures |xs| >= 1 ==> r.Written?
  {
    var t := Tabbed(Decimals(xs));
    if |t| == 0 then IndexOutOfBounds else Written(t[..|t| - 1])
  }

  /** `reduce` on the tuples of one key. */
  function ReduceSpec(rows: seq<seq<Long>>): (r: ReduceOutcome)
    ensures r.NoOutput? <==> rows == []
  {
    if rows == [] then NoOutput else Formatted(SumRows(rows))
  }

  // ---------------------------------------------------------------------
  // properties of the written line

  lemma {:induction false} TabbedSnoc(ds: seq<string>, d: string)
    ensures Tabbed(ds + [d]) == Tabbed(ds) + d + "\t"
    decreases |ds|
  {
    if ds == [] {
      assert [d][1..] == [];
      assert Tabbed([d]) == d + "\t" + "";
    } else {
      var h := ds[0];
      assert (ds + [d])[0] == h;
      assert (ds + [d])[1..] == ds[1..] + [d];
      TabbedSnoc(ds[1..], d);
      calc {
        Tabbed(ds + [d]);
        h + "\t" + Tabbed(ds[1..] + [d]);
        h + "\t" + (Tabbed(ds[1..]) + d + "\t");
        (h + "\t" + Tabbed(ds[1..])) + d + "\t";
        Tabbed(ds) + d + "\t";
      }
    }
  }

  /** The loop's text is the decimals joined by tabs, with one more tab at the end. */
  lemma {:induction false} TabbedIsJoin(ds: seq<string>)
    requires |ds| >= 1
    ensures Tabbed(ds) == JoinWith(ds, '\t') + "\t"
    decreases |ds|
  {
    if |ds| > 1 {
      TabbedIsJoin(ds[1..]);
      calc {
        Tabbed(ds);
        ds[0] + "\t" + Tabbed(ds[1..]);
        ds[0] + "\t" + (JoinWith(ds[1..], '\t') + "\t");
        (ds[0] + ['\t'] + JoinWith(ds[1..], '\t')) + "\t";
        JoinWith(ds, '\t') + "\t";
      }
    } else {
      assert ds[1..] == [];
      assert Tabbed(ds) == ds[0] + "\t" + "";
    }
  }

  /** The written line is the decimal sums separated by single tabs, and an
      empty tuple makes the reducer throw. */
  lemma FormattedIsJoin(xs: seq<Long>)
    ensures |xs| == 0 <==> Formatted(xs) == IndexOutOfBounds
    ensures |xs| >= 1 ==> Formatted(xs) == Written(JoinWith(Decimals(xs), '\t'))
  {
    if |xs| >= 1 {
      TabbedIsJoin(Decimals(xs));
      var j := JoinWith(Decimals(xs), '\t');
      assert (j + "\t")[..|j|] == j;
    }
  }

  lemma NoTabInDecimal(n: int)
    ensures '\t' !in IntToString(n)
  {
    var s := IntToString(n);
    if n < 0 {
      forall i | 1 <= i < |s|
        ensures s[i] != '\t'
      {
        assert s[1..][i - 1] == s[i];
      }
    }
  }

  lemma NoTabInDecimals(xs: seq<Long>)
    ensures forall k :: 0 <= k < |xs| ==> '\t' !in Decimals(xs)[k]
  {
    forall k | 0 <= k < |xs|
      ensures '\t' !in Decimals(xs)[k]
    {
      NoTabInDecimal(xs[k] as int);
    }
  }

  /** The line holds exactly one tab fewer than there are values, and
      splitting it at tabs and parsing each piece as a `long` gives the
      values back. */
  lemma WrittenLineReadsBack(xs: seq<Long>)
    requires |xs| >= 1
    ensures var text := Formatted(xs).text;
      && CountChar(text, '\t') == |xs| - 1
      && SplitAt(text, '\t') == Decimals(xs)
      && forall k :: 0 <= k < |xs| ==> ParseInteger(SplitAt(text, '\t')[k], LONG_MIN, LONG_MAX) == Some(xs[k] as int)
  {
    FormattedIsJoin(xs);
    NoTabInDecimals(xs);
    JoinWithCount(Decimals(xs), '\t');
    SplitJoin(Decimals(xs), '\t');
    forall k | 0 <= k < |xs|
      ensures ParseInteger(Decimals(xs)[k], LONG_MIN, LONG_MAX) == Some(xs[k] as int)
    {
      ParseIntToString(xs[k] as int, LONG_MIN, LONG_MAX);
    }
  }

  /** The job's tuples for one URL seen twice: [100, 2, 2] and [50, 3, 1]
      reduce to the line "150\t5\t3". */
  lemma ReduceExample()
    ensures ReduceSpec([[100, 2, 2], [50, 3, 1]]) == Written("150\t5\t3")
  {
    var rows: seq<seq<Long>> := [[100, 2, 2], [50, 3, 1]];
    var sums := SumRows(rows);
    ExampleSums();
    ExampleDecimals();
    assert Tabbed(["3"]) == "3\t";
    assert Tabbed(["5", "3"]) == "5\t3\t";
    assert Tabbed(["150", "5", "3"]) == "150\t5\t3\t";
  }

  lemma ExampleSums()
    ensures SumRows([[100, 2, 2], [50, 3, 1]]) == [150, 5, 3]
  {
    var rows: seq<seq<Long>> := [[100, 2, 2], [50, 3, 1]];
    AddLongIsWrap(100, 50);
    AddLongIsWrap(2, 3);
    AddLongIsWrap(2, 1);
    WrapInRange(150);
    WrapInRange(5);
    WrapInRange(3);
    assert rows[..1] == [[100, 2, 2]];
    assert SumRows(rows) == AddInto([100, 2, 2], [50, 3, 1]);
  }

  lemma ExampleDecimals()
    ensures Decimals([150, 5, 3]) == ["150", "5", "3"]
  {
    assert NatToString(1) == "1";
    assert NatToString(15) == "15";
    assert IntToString(150) == "150";
    assert IntToString(5) == "5";
    assert IntToString(3) == "3";
  }

  // ---------------------------------------------------------------------
  // the reducer

  /** The current contents of the arrays. */
  ghost function Contents(values: seq<array<Long>>): (r: seq<seq<Long>>)
    reads values
    ensures |r| == |values|
  {
    seq(|values|, k requires 0 <= k < |values| reads values => values[k][..])
  }

  class ArrayLongSumReducer {
    /** The `StringBuilder` the reducer reuses across calls. */
    var sb: string

    constructor ()
      ensures sb == ""
    {
      sb := "";
    }

    /** `reduce` for one key whose tuples arrive as `values`.  The first
        array becomes the accumulator and is updated in place; each later
        tuple is a fresh array (as Hadoop deserialises it), distinct from
        the first. */
    method Reduce(values: seq<array<Long>>) returns (out: ReduceOutcome)
      requires forall j :: 0 < j < |values| ==> values[j] != values[0]
      modifies this, values
      ensures out == ReduceSpec(old(Contents(values)))
      ensures |values| >= 1 ==> values[0][..] == SumRows(old(Contents(values)))
      ensures forall j :: 0 < j < |values| ==> values[j][..] == old(values[j][..])
      ensures out.Written? ==> sb == out.text
      ensures out.IndexOutOfBounds? ==> sb == ""
      ensures out.NoOutput? ==> sb == old(sb)
    {
      var sums := Accumulate(values);
      if sums == null {
        return NoOutput;
      }
      out := Format(sums);
    }

    /** The loop over `values`: the first array becomes the accumulator,
        and every later one is added into it. */
    static method Accumulate(values: seq<array<Long>>) returns (sums: array?<Long>)
      requires forall j :: 0 < j < |values| ==> values[j] != values[0]
      modifies values
      ensures sums == null <==> |values| == 0
      ensures sums != null ==> sums == values[0] && sums[..] == SumRows(old(Contents(values)))
      ensures forall j :: 0 < j < |values| ==> values[j][..] == old(values[j][..])
    {
      ghost var rows := Contents(values);
      sums := null;
      for j := 0 to |values|
        invariant j == 0 <==> sums == null
        invariant j >= 1 ==> sums == values[0] && sums[..] == SumRows(rows[..j])
        invariant forall k :: 0 < k < |values| ==> values[k][..] == rows[k]
        invariant j == 0 && |values| >= 1 ==> values[0][..] == rows[0]
      {
        var vals := values[j];
        if sums == null {
          sums := vals;
        } else {
          AddInPlace(sums, vals);
          assert rows[..j + 1][..j] == rows[..j];
        }
      }
      assert rows[..|values|] == rows;
    }

    /** The inner loop: adds `vals` into `sums` below both lengths. */
    static method AddInPlace(sums: array<Long>, vals: array<Long>)
      requires sums != vals
      modifies sums
      ensures sums[..] == AddInto(old(sums[..]), vals[..])
    {
      var i := 0;
      while i < sums.Length && i < vals.Length
        invariant 0 <= i <= sums.Length && i <= vals.Length
        invariant forall k :: 0 <= k < i ==> sums[k] == AddLong(old(sums[k]), vals[k])
        invariant forall k :: i <= k < sums.Length ==> sums[k] == old(sums[k])
      {
        sums[i] := AddLong(sums[i], vals[i]);
        i := i + 1;
      }
    }

    /** The `StringBuilder` loop and the final `setLength`. */
    method Format(sums: array<Long>) returns (out: ReduceOutcome)
      modifies this
      ensures out == Formatted(sums[..])
      ensures out.Written? ==> sb == out.text
      ensures out.IndexOutOfBounds? ==> sb == ""
    {
      sb := "";
      for i := 0 to sums.Length
        invariant sb == Tabbed(Decimals(sums[..i]))
      {
        assert Decimals(sums[..i + 1]) == Decimals(sums[..i]) + [IntToString(sums[i] as int)];
        TabbedSnoc(Decimals(sums[..i]), IntToString(sums[i] as int));
        sb := sb + IntToString(sums[i] as int) + "\t";
      }
      assert sums[..sums.Length] == sums[..];
      if |sb| == 0 {
        return IndexOutOfBounds;
      }
      sb := sb[..|sb| - 1];
      return Written(sb);
    }
  }

  // ---------------------------------------------------------------------
  // the sort comparator

  /** Java's `String.compareTo`: the difference of the first differing
      characters, or of the lengths when one string is a prefix of the other. */
  function CompareTo(s1: string, s2: string): (r: int)
    ensures r == 0 <==> s1 == s2
    decreases |s1|
  {
    if s1 == [] || s2 == [] then |s1| - |s2|
    else if s1[0] != s2[0] then s1[0] as int - s2[0] as int
    else
      var r := CompareTo(s1[1..], s2[1..]);
      assert s1 == [s1[0]] + s1[1..] && s2 == [s2[0]] + s2[1..];
      r
  }

  /** Lexicographic order: `a` is a proper prefix of `b`, or they first
      differ at a position where `a` has the smaller character. */
  ghost predicate LexLess(a: string, b: string) {
    exists k: nat :: LexAt(a, b, k)
  }

  lemma {:induction false} CompareToAntisymmetric(a: string, b: string)
    ensures CompareTo(a, b) == -CompareTo(b, a)
    decreases |a|
  {
    if a != [] && b != [] && a[0] == b[0] {
      CompareToAntisymmetric(a[1..], b[1..]);
    }
  }

  /** `compareTo` is negative exactly when the first string comes first
      lexicographically. */
  lemma CompareToIsLex(a: string, b: string)
    ensures CompareTo(a, b) < 0 <==> LexLess(a, b)
  {
    if CompareTo(a, b) < 0 {
      CompareToNegativeIsLex(a, b);
    }
    if LexLess(a, b) {
      var k: nat :| LexAt(a, b, k);
      LexIsCompareToNegative(a, b, k);
    }
  }

  /** `a` and `b` agree before `k` and `a` is smaller at `k`, or ends there. */
  ghost predicate LexAt(a: string, b: string, k: nat) {
    k <= |a| && k <= |b| && a[..k] == b[..k] &&
    ((k == |a| && k < |b|) || (k < |a| && k < |b| && a[k] < b[k]))
  }

  lemma {:induction false} CompareToNegativeIsLex(a: string, b: string)
    requires CompareTo(a, b) < 0
    ensures LexLess(a, b)
    decreases |a|
  {
    if a == [] || a[0] != b[0] {
      assert LexAt(a, b, 0);
    } else {
      CompareToNegativeIsLex(a[1..], b[1..]);
      var k: nat :| LexAt(a[1..], b[1..], k);
      assert a[..k + 1] == [a[0]] + a[1..][..k];
      assert b[..k + 1] == [b[0]] + b[1..][..k];
      assert LexAt(a, b, k + 1);
    }
  }

  lemma {:induction false} LexIsCompareToNegative(a: string, b: string, k: nat)
    requires LexAt(a, b, k)
    ensures CompareTo(a, b) < 0
    decreases k
  {
    if k > 0 {
      assert a[0] == a[..k][0] == b[..k][0] == b[0];
      assert a[1..][..k - 1] == a[..k][1..];
      assert b[1..][..k - 1] == b[..k][1..];
      LexIsCompareToNegative(a[1..], b[1..], k - 1);
    }
  }

  lemma {:induction false} CompareToTransitive(a: string, b: string, c: string)
    requires CompareTo(a, b) < 0 && CompareTo(b, c) < 0
    ensures CompareTo(a, c) < 0
    decreases |a|
  {
    if a != [] && b != [] && c != [] && a[0] == b[0] && b[0] == c[0] {
      CompareToTransitive(a[1..], b[1..], c[1..]);
    }
  }

  /** `compareShortest`: null first, then shorter strings first, then
      `compareTo`. */
  function CompareShortest(s1: Option<string>, s2: Option<string>): (r: int)
    ensures s1.None? && s2.Some? ==> r < 0
    ensures s1.Some? && s2.Some? && |s1.value| < |s2.value| ==> r < 0
  {
    if s1.None? then (if s2.None? then 0 else -1)
    else if s2.None? then 1
    else
      var lc := |s1.value| - |s2.value|;
      if lc != 0 then lc else CompareTo(s1.value, s2.value)
  }

  /** The order `compareShortest` is meant to implement. */
  ghost predicate ShortestFirst(s1: Option<string>, s2: Option<string>) {
    (s1.None? && s2.Some?) ||
    (s1.Some? && s2.Some? &&
      (|s1.value| < |s2.value| || (|s1.value| == |s2.value| && LexLess(s1.value, s2.value))))
  }

  /** The comparator is negative exactly when its first key comes first:
      null before any string, a shorter string before a longer one, and
      strings of one length in lexicographic order. */
  lemma CompareShortestOrder(s1: Option<string>, s2: Option<string>)
    ensures CompareShortest(s1, s2) < 0 <==> ShortestFirst(s1, s2)
  {
    if s1.Some? && s2.Some? {
      CompareToIsLex(s1.value, s2.value);
    }
  }

  /** The comparator is zero exactly for equal keys. */
  lemma CompareShortestZero(s1: Option<string>, s2: Option<string>)
    ensures CompareShortest(s1, s2) == 0 <==> s1 == s2
  {
  }

  /** Swapping the keys negates the result. */
  lemma CompareShortestAntisymmetric(s1: Option<string>, s2: Option<string>)
    ensures CompareShortest(s1, s2) == -CompareShortest(s2, s1)
  {
    if s1.Some? && s2.Some? {
      CompareToAntisymmetric(s1.value, s2.value);
    }
  }

  /** The order is transitive, so it is a total order on keys. */
  lemma CompareShortestTransitive(s1: Option<string>, s2: Option<string>, s3: Option<string>)
    requires CompareShortest(s1, s2) < 0 && CompareShortest(s2, s3) < 0
    ensures CompareShortest(s1, s3) < 0
  {
    if s1.Some? && s2.Some? && s3.Some? && |s1.value| == |s2.value| == |s3.value| {
      CompareToTransitive(s1.value, s2.value, s3.value);
    }
  }
}
