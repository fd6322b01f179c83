/**
  Haplotype counting and frequencies for one group (the loop over `pops`):
  each distinct sequence of the group, in order of first occurrence, with the
  number of times it occurs and its frequency `count / total`, and the
  four-decimal text the table shows for a frequency.
 */
module Counting {
  import opened Wrappers
  import opened OrderedDict

  /** `counts` after the inner loop: each distinct haplotype with its number of occurrences. */
  function Counts(g: seq<string>): (c: Dict<string, nat>)
    ensures Keys(c) == Dedup(g)
    ensures forall i :: 0 <= i < |c| ==> c[i].1 == multiset(g)[c[i].0]
  {
    if |g| == 0 then []
    else
      var c := Counts(g[..|g| - 1]);
      var h := g[|g| - 1];
      CountsStep(g, c, Bump(c, h), Count(c, h));
      Count(c, h)
  }

  /** The count of `h` after one more occurrence (lines 53-56). */
  function Bump(c: Dict<string, nat>, h: string): nat {
    match Lookup(c, h)
    case Some(k) => k + 1
    case None => 1
  }

  /** One iteration of the inner loop: `counts[hap]` raised by one or set to 1. */
  function Count(c: Dict<string, nat>, h: string): Dict<string, nat> {
    Put(c, h, Bump(c, h))
  }

  lemma CountsStep(g: seq<string>, c: Dict<string, nat>, n: nat, c': Dict<string, nat>)
    requires |g| > 0
    requires Keys(c) == Dedup(g[..|g| - 1])
    requires forall i :: 0 <= i < |c| ==> c[i].1 == multiset(g[..|g| - 1])[c[i].0]
    requires n == Bump(c, g[|g| - 1])
    requires c' == Put(c, g[|g| - 1], n)
    ensures Keys(c') == Dedup(g)
    ensures forall i :: 0 <= i < |c'| ==> c'[i].1 == multiset(g)[c'[i].0]
  {
    DedupLast(g);
    BumpCounts(g, c);
    CountsValues(g, c, n, c');
  }

  /** The bumped count is the number of occurrences so far, plus one. */
  lemma BumpCounts(g: seq<string>, c: Dict<string, nat>)
    requires |g| > 0
    requires Keys(c) == Dedup(g[..|g| - 1])
    requires forall i :: 0 <= i < |c| ==> c[i].1 == multiset(g[..|g| - 1])[c[i].0]
    ensures Bump(c, g[|g| - 1]) == multiset(g[..|g| - 1])[g[|g| - 1]] + 1
  {
    var h := g[|g| - 1];
    if h in Keys(c) {
      var j := IndexOf(Keys(c), h);
      assert Lookup(c, h) == Some(c[j].1);
    } else {
      assert h !in g[..|g| - 1];
    }
  }

  /** Recording one more occurrence of the last haplotype keeps every count exact. */
  lemma CountsValues(g: seq<string>, c: Dict<string, nat>, n: nat, c': Dict<string, nat>)
    requires |g| > 0
    requires forall i :: 0 <= i < |c| ==> c[i].1 == multiset(g[..|g| - 1])[c[i].0]
    requires n == multiset(g[..|g| - 1])[g[|g| - 1]] + 1
    requires c' == Put(c, g[|g| - 1], n)
    ensures forall i :: 0 <= i < |c'| ==> c'[i].1 == multiset(g)[c'[i].0]
  {
    OneMore(g);
    forall i | 0 <= i < |c'|
      ensures c'[i].1 == multiset(g)[c'[i].0]
    {
      if c'[i].0 != g[|g| - 1] {
        assert i < |c| && c'[i] == c[i];
      }
    }
  }

  /** The last haplotype occurs once more than in the prefix; the others as often. */
  lemma OneMore(g: seq<string>)
    requires |g| > 0
    ensures multiset(g)[g[|g| - 1]] == multiset(g[..|g| - 1])[g[|g| - 1]] + 1
    ensures forall x :: x != g[|g| - 1] ==> multiset(g)[x] == multiset(g[..|g| - 1])[x]
  {
    assert g == g[..|g| - 1] + [g[|g| - 1]];
  }

  /** The sum of a sequence of counts. */
  function Sum(s: seq<nat>): nat {
    if |s| == 0 then 0 else Sum(s[..|s| - 1]) + s[|s| - 1]
  }

  lemma {:induction false} SumUpdate(s: seq<nat>, j: nat, v: nat)
    requires j < |s|
    ensures Sum(s[j := v]) == Sum(s) - s[j] + v
  {
    var t := s[j := v];
    if j == |s| - 1 {
      assert t[..|t| - 1] == s[..|s| - 1];
    } else {
      assert t[..|t| - 1] == s[..|s| - 1][j := v];
      SumUpdate(s[..|s| - 1], j, v);
    }
  }

  lemma SumSnoc(s: seq<nat>, v: nat)
    ensures Sum(s + [v]) == Sum(s) + v
  {
    assert (s + [v])[..|s|] == s;
  }

  /** `d[k] = v` changes the sum of the values by the difference at `k`. */
  lemma SumPut(d: Dict<string, nat>, k: string, v: nat)
    ensures Sum(Values(Put(d, k, v))) + (match Lookup(d, k) case Some(u) => u case None => 0)
      == Sum(Values(d)) + v
  {
    if k in Keys(d) {
      var j := IndexOf(Keys(d), k);
      assert Lookup(d, k) == Some(d[j].1);
      PutValuesPresent(d, k, v);
      SumUpdate(Values(d), j, v);
    } else {
      PutValuesAbsent(d, k, v);
      SumSnoc(Values(d), v);
    }
  }

  /** Counting one more haplotype raises one count by one (`total = total + 1`). */
  lemma CountsValuesStep(g: seq<string>)
    requires |g| > 0
    ensures Sum(Values(Counts(g))) == Sum(Values(Counts(g[..|g| - 1]))) + 1
  {
    var c := Counts(g[..|g| - 1]);
    var h := g[|g| - 1];
    var k := match Lookup(c, h) case Some(u) => u case None => 0;
    assert Bump(c, h) == k + 1;
    assert Counts(g) == Count(c, h);
    SumPut(c, h, Bump(c, h));
    assert Sum(Values(Count(c, h))) + k == Sum(Values(c)) + k + 1;
  }

  /** The counts add up to the size of the group, the `total` of the source. */
  lemma {:induction false} CountsSum(g: seq<string>)
    ensures Sum(Values(Counts(g))) == |g|
  {
    if |g| > 0 {
      CountsSum(g[..|g| - 1]);
      CountsValuesStep(g);
    }
  }

  /** A haplotype occurs no more often than the group has members. */
  lemma {:induction false} OccurrencesBound(g: seq<string>, h: string)
    ensures multiset(g)[h] <= |g|
  {
    if |g| > 0 {
      var p := g[..|g| - 1];
      assert g == p + [g[|g| - 1]];
      OccurrencesBound(p, h);
    }
  }

  /** The frequency `float(counts[key]) / float(total)`, kept as an exact fraction. */
  datatype Frequency = Frequency(count: nat, total: nat) {
    function Value(): real
      requires total > 0
    {
      count as real / total as real
    }
  }

  /** A frequency of a non-empty group: the only kind the loop computes. */
  type Share = f: Frequency | f.total > 0 witness Frequency(0, 1)

  /** The frequency of every distinct haplotype of the group, in first-occurrence order. */
  function Frequencies(g: seq<string>): (fs: Dict<string, Share>)
    ensures Keys(fs) == Dedup(g)
    ensures forall i :: 0 <= i < |fs| ==>
      fs[i].1 == Frequency(multiset(g)[fs[i].0], |g|) && 0 < fs[i].1.count <= fs[i].1.total
  {
    var c := Counts(g);
    assert |c| > 0 ==> c[0].0 in Dedup(g);
    var fs := seq(|c|, i requires 0 <= i < |c| => (c[i].0, Frequency(c[i].1, |g|)));
    assert Keys(fs) == Keys(c);
    forall i | 0 <= i < |fs|
      ensures 0 < fs[i].1.count <= fs[i].1.total
    {
      assert c[i].0 in Dedup(g);
      OccurrencesBound(g, c[i].0);
    }
    fs
  }

  /** A haplotype has a frequency in its group exactly when it occurs there. */
  lemma FrequencyOf(g: seq<string>, h: string)
    ensures Lookup(Frequencies(g), h) == if h in g then Some(Frequency(multiset(g)[h], |g|)) else None
  {
    var fs := Frequencies(g);
    if h in g {
      assert h in Keys(fs);
      var j := IndexOf(Keys(fs), h);
      assert fs[j].0 == h;
    }
  }

  /** The sum of the values of a sequence of frequencies. */
  function SumValues(fs: seq<Share>): real {
    if |fs| == 0 then 0.0 else SumValues(fs[..|fs| - 1]) + fs[|fs| - 1].Value()
  }

  lemma Fractions(a: nat, b: nat, t: nat)
    requires t > 0
    ensures a as real / t as real + b as real / t as real == (a + b) as real / t as real
  {
  }

  /** Frequencies sharing one total add up to the sum of their counts over it. */
  lemma {:induction false} SumValuesOverTotal(fs: seq<Share>, counts: seq<nat>, t: nat)
    requires t > 0 && |fs| == |counts|
    requires forall i :: 0 <= i < |fs| ==> fs[i] == Frequency(counts[i], t)
    ensures SumValues(fs) == Sum(counts) as real / t as real
  {
    if |fs| > 0 {
      var n := |fs| - 1;
      SumValuesOverTotal(fs[..n], counts[..n], t);
      Fractions(Sum(counts[..n]), counts[n], t);
    }
  }

  /** The frequencies of a non-empty group add up to one. */
  lemma FrequenciesSumToOne(g: seq<string>)
    requires |g| > 0
    ensures SumValues(Values(Frequencies(g))) == 1.0
  {
    var fs := Values(Frequencies(g));
    var c := Counts(g);
    assert |fs| == |c|;
    assert forall i :: 0 <= i < |fs| ==> fs[i] == Frequency(Values(c)[i], |g|);
    SumValuesOverTotal(fs, Values(c), |g|);
    CountsSum(g);
    Whole(|g|);
  }

  lemma Whole(t: nat)
    requires t > 0
    ensures t as real / t as real == 1.0
  {
  }

  /** `num / den` rounded to the nearest integer, ties to the even one. */
  function RoundHalfEven(num: nat, den: nat): nat
    requires den > 0
  {
    var q := num / den;
    var r := num % den;
    if 2 * r < den then q
    else if 2 * r > den then q + 1
    else if q % 2 == 0 then q
    else q + 1
  }

  /**
    The rounded quotient is at most half a step away from `num / den`, and
    even when it is exactly half a step away.
   */
  lemma RoundHalfEvenNearest(num: nat, den: nat)
    requires den > 0
    ensures var n := RoundHalfEven(num, den);
      && 2 * (n * den) <= 2 * num + den && 2 * num <= 2 * (n * den) + den
      && (2 * (n * den) == 2 * num + den || 2 * num == 2 * (n * den) + den ==> n % 2 == 0)
  {
    var n := RoundHalfEven(num, den);
    var q := num / den;
    var r := num % den;
    Division(num, den);
    if n == q {
      assert n * den == num - r;
    } else {
      assert n == q + 1;
      assert n * den == num - r + den;
    }
  }

  /** Quotient and remainder: `num` lies between `q * den` and `(q + 1) * den`. */
  lemma Division(num: nat, den: nat)
    requires den > 0
    ensures (num / den) * den == num - num % den
    ensures (num / den + 1) * den == num - num % den + den
    ensures 0 <= num % den < den
  {
  }

  lemma MulStep(a: nat, b: nat, d: nat)
    requires a < b
    ensures a * d + d <= b * d
  {
    var k := b - a - 1;
    assert b * d == a * d + d + k * d;
  }

  /** There is only one integer strictly nearer than half a step. */
  lemma NearestIsUnique(num: nat, den: nat, n: nat, m: nat)
    requires den > 0
    requires 2 * (n * den) < 2 * num + den && 2 * num < 2 * (n * den) + den
    requires 2 * (m * den) <= 2 * num + den && 2 * num <= 2 * (m * den) + den
    ensures n == m
  {
    if n < m {
      MulStep(n, m, den);
    } else if m < n {
      MulStep(m, n, den);
    }
  }

  predicate IsDigit(c: char) {
    '0' <= c <= '9'
  }

  predicate AllDigits(s: string) {
    forall i :: 0 <= i < |s| ==> IsDigit(s[i])
  }

  function DigitChar(d: nat): (c: char)
    requires d < 10
    ensures IsDigit(c)
  {
    ['0', '1', '2', '3', '4', '5', '6', '7', '8', '9'][d]
  }

  function DigitValue(c: char): (d: nat)
    requires IsDigit(c)
    ensures d < 10
  {
    (c as int - '0' as int) as nat
  }

  lemma DigitRoundTrip(d: nat)
    requires d < 10
    ensures DigitValue(DigitChar(d)) == d
  {
  }

  /** The decimal numeral of `n`, without leading zeros. */
  function Decimal(n: nat): (s: string)
    ensures |s| > 0 && AllDigits(s)
  {
    if n < 10 then [DigitChar(n)] else Decimal(n / 10) + [DigitChar(n % 10)]
  }

  /** The number a string of digits denotes. */
  function ParseDecimal(s: string): nat
    requires AllDigits(s)
  {
    if |s| == 0 then 0 else 10 * ParseDecimal(s[..|s| - 1]) + DigitValue(s[|s| - 1])
  }

  lemma {:induction false} DecimalRoundTrip(n: nat)
    ensures ParseDecimal(Decimal(n)) == n
  {
    DigitRoundTrip(n % 10);
    if n >= 10 {
      var s := Decimal(n);
      assert s[..|s| - 1] == Decimal(n / 10);
      DecimalRoundTrip(n / 10);
    }
  }

  /** `k` as exactly four digits, with leading zeros: the decimals of `.4f`. */
  function FourDigits(k: nat): (s: string)
    requires k < 10000
    ensures |s| == 4 && AllDigits(s)
  {
    var a := k / 10;
    var b := a / 10;
    var c := b / 10;
    [DigitChar(c), DigitChar(b % 10), DigitChar(a % 10), DigitChar(k % 10)]
  }

  lemma ParseFour(s: string)
    requires |s| == 4 && AllDigits(s)
    ensures ParseDecimal(s) == 10 * (10 * (10 * DigitValue(s[0]) + DigitValue(s[1])) + DigitValue(s[2])) + DigitValue(s[3])
  {
    assert ParseDecimal(s[..1]) == DigitValue(s[0]) by {
      assert s[..1][..0] == [];
    }
    assert ParseDecimal(s[..2]) == 10 * ParseDecimal(s[..1]) + DigitValue(s[1]) by {
      assert s[..2][..1] == s[..1];
    }
    assert ParseDecimal(s[..3]) == 10 * ParseDecimal(s[..2]) + DigitValue(s[2]) by {
      assert s[..3][..2] == s[..2];
    }
    assert s[..4] == s;
  }

  lemma FourDigitsRoundTrip(k: nat)
    requires k < 10000
    ensures ParseDecimal(FourDigits(k)) == k
  {
    var a := k / 10;
    var b := a / 10;
    var c := b / 10;
    DigitRoundTrip(c);
    DigitRoundTrip(b % 10);
    DigitRoundTrip(a % 10);
    DigitRoundTrip(k % 10);
    ParseFour(FourDigits(k));
  }

  /** `"{0:.4f}".format(f)`: the frequency rounded to four decimals. */
  function Format(f: Share): string {
    var n := RoundHalfEven(10000 * f.count, f.total);
    Decimal(n / 10000) + "." + FourDigits(n % 10000)
  }

  /** `str(0.0000)`: the text of a cell whose pop has no such haplotype. */
  const ZeroCell := "0.0"

  /**
    Reads a fixed-point numeral with exactly four decimals back, in units of
    1/10000; None for any other text.
   */
  function DecimalUnits(t: string): Option<nat> {
    if '.' !in t then None
    else
      var i := IndexOf(t, '.');
      var whole := t[..i];
      var fraction := t[i + 1..];
      if |whole| > 0 && AllDigits(whole) && |fraction| == 4 && AllDigits(fraction)
      then Some(10000 * ParseDecimal(whole) + ParseDecimal(fraction))
      else None
  }

  /** The first occurrence of `x` is right after a prefix without it. */
  lemma {:induction false} IndexOfAfter<T>(w: seq<T>, x: T, rest: seq<T>)
    requires x !in w
    ensures x in w + [x] + rest && IndexOf(w + [x] + rest, x) == |w|
  {
    if |w| > 0 {
      assert (w + [x] + rest)[1..] == w[1..] + [x] + rest;
      IndexOfAfter(w[1..], x, rest);
    }
  }

  /** Digits contain no decimal point. */
  lemma NoPointInDigits(w: string)
    requires AllDigits(w)
    ensures '.' !in w
  {
  }

  /** A whole part, a point and four decimals read back as their units. */
  lemma DecimalUnitsOf(w: string, d: string)
    requires |w| > 0 && AllDigits(w) && |d| == 4 && AllDigits(d)
    ensures DecimalUnits(w + "." + d) == Some(10000 * ParseDecimal(w) + ParseDecimal(d))
  {
    var t := w + "." + d;
    NoPointInDigits(w);
    IndexOfAfter(w, '.', d);
    assert t == w + ['.'] + d;
    assert '.' in t && IndexOf(t, '.') == |w|;
    SplitAtPoint(t, w, d);
  }

  /** The text around a point at position `|w|`. */
  lemma SplitAtPoint(t: string, w: string, d: string)
    requires t == w + ['.'] + d
    ensures t[..|w|] == w && t[|w| + 1..] == d
  {
  }

  /**
    A formatted frequency reads back as its value rounded to the nearest
    1/10000 (ties to even).
   */
  lemma FormatRoundTrip(f: Share)
    ensures DecimalUnits(Format(f)) == Some(RoundHalfEven(10000 * f.count, f.total))
  {
    var n := RoundHalfEven(10000 * f.count, f.total);
    DecimalUnitsOf(Decimal(n / 10000), FourDigits(n % 10000));
    DecimalRoundTrip(n / 10000);
    FourDigitsRoundTrip(n % 10000);
  }

  /** The zero cell does not read as a formatted frequency. */
  lemma ZeroCellIsNoFrequency()
    ensures DecimalUnits(ZeroCell) == None
  {
    assert IndexOf(ZeroCell, '.') == 1;
  }

  /** A share of a group rounds to at most 10000 units: it is at most one. */
  lemma RoundedShareAtMostOne(f: Share)
    requires f.count <= f.total
    ensures RoundHalfEven(10000 * f.count, f.total) <= 10000
  {
    var n := RoundHalfEven(10000 * f.count, f.total);
    RoundHalfEvenNearest(10000 * f.count, f.total);
    if n > 10000 {
      MulStep(10000, n, f.total);
    }
  }

  /** A frequency in (0, 1] is written as "0.dddd" or as "1.0000". */
  lemma FormatOfShare(f: Share)
    requires 0 < f.count <= f.total
    ensures Format(f) == "1.0000" || (|Format(f)| == 6 && Format(f)[..2] == "0.")
  {
    var n := RoundHalfEven(10000 * f.count, f.total);
    RoundedShareAtMostOne(f);
    if n == 10000 {
      assert Decimal(n / 10000) == "1";
      assert FourDigits(n % 10000) == "0000";
    } else {
      assert Decimal(n / 10000) == "0";
    }
  }
}
