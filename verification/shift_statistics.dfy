/**
  Statistics of the local warp shifts measured while stacking.

  Every (frame, alignment point) pair yields one shift measurement. A
  successful one increments the histogram bucket of its rounded length,
  a failed one the failure counter. The shift table printed to the
  protocol lists the histogram up to its last non-zero bucket.
*/
module ShiftStatistics {

  /** One shift measurement, in drizzled pixels. */
  datatype ShiftMeasurement = ShiftMeasurement(shiftY: int, shiftX: int, success: bool)

  /** r is n's square root rounded to the nearest integer:
      (r - 1/2)^2 < n < (r + 1/2)^2, scaled by 4 to stay in integers.
      No integer lies exactly half-way, so there is no tie to break. */
  predicate IsRoundedRoot(n: nat, r: nat)
  {
    var lo := 2 * (r as int) - 1;
    lo * lo < 4 * n < (2 * r + 1) * (2 * r + 1) || (r == 0 && n == 0)
  }

  function RoundedRootFrom(n: nat, r: nat): (root: nat)
    requires r <= n
    ensures r <= root <= n
    decreases n - r
  {
    var s := 2 * r + 1;
    if 4 * n < s * s then r
    else
      assert s * s == 4 * (r * r + r) + 1 && r * r >= r;
      RoundedRootFrom(n, r + 1)
  }

  /** round(sqrt(n)) for a non-negative integer n; RoundedRootIsRounded
      states what it computes. */
  function RoundedRoot(n: nat): (r: nat)
    ensures r <= n
  {
    RoundedRootFrom(n, 0)
  }

  /** Counting up from r, where (r - 1/2)^2 < n already holds, stops at
      the rounded root. */
  lemma {:induction false} RoundedRootFromIsRounded(n: nat, r: nat)
    requires r <= n
    requires r == 0 || (2 * (r as int) - 1) * (2 * (r as int) - 1) < 4 * n
    ensures IsRoundedRoot(n, RoundedRootFrom(n, r))
    decreases n - r
  {
    var s := 2 * r + 1;
    assert s * s == 4 * (r * r + r) + 1 && r * r >= r;
    if 4 * n >= s * s {
      RoundedRootFromIsRounded(n, r + 1);
    }
  }

  lemma RoundedRootIsRounded(n: nat)
    ensures IsRoundedRoot(n, RoundedRoot(n))
  {
    RoundedRootFromIsRounded(n, 0);
  }

  lemma SquareMonotone(a: nat, b: nat)
    ensures b <= a ==> b * b <= a * a
  {
    if b <= a {
      assert b * b <= b * a;
      assert b * a <= a * a;
    }
  }

  /** The rounded root is unique: any r with the defining property is it. */
  lemma RoundedRootUnique(n: nat, r: nat)
    requires IsRoundedRoot(n, r)
    ensures RoundedRoot(n) == r
  {
    var q := RoundedRoot(n);
    RoundedRootIsRounded(n);
    if n == 0 {
      var lq := 2 * (q as int) - 1;
      var lr := 2 * (r as int) - 1;
      assert lq * lq >= 0 && lr * lr >= 0;
    } else {
      assert q >= 1 && r >= 1;
      SquareMonotone(2 * q - 1, 2 * r + 1);
      SquareMonotone(2 * r - 1, 2 * q + 1);
    }
  }

  /** The rounded root of a perfect square is its root. */
  lemma RoundedRootOfSquare(k: nat)
    ensures RoundedRoot(k * k) == k
  {
    assert (2 * (k as int) - 1) * (2 * (k as int) - 1) == 4 * k * k - 4 * k + 1;
    assert (2 * k + 1) * (2 * k + 1) == 4 * k * k + 4 * k + 1;
    RoundedRootUnique(k * k, k);
  }

  /** The histogram bucket of a shift: its length, rounded. */
  function ShiftBucket(m: ShiftMeasurement): nat
  {
    RoundedRoot(m.shiftY * m.shiftY + m.shiftX * m.shiftX)
  }

  /** Successful measurements in bucket b. */
  function BucketCount(ms: seq<ShiftMeasurement>, b: nat): nat
  {
    if ms == [] then 0
    else BucketCount(ms[..|ms| - 1], b) + (if ms[|ms| - 1].success && ShiftBucket(ms[|ms| - 1]) == b then 1 else 0)
  }

  /** Failed measurements. */
  function Failures(ms: seq<ShiftMeasurement>): (f: nat)
    ensures f <= |ms|
  {
    if ms == [] then 0
    else Failures(ms[..|ms| - 1]) + (if ms[|ms| - 1].success then 0 else 1)
  }

  /** Successful measurements whose bucket is below n. */
  function SuccessesBelow(ms: seq<ShiftMeasurement>, n: nat): nat
  {
    if ms == [] then 0
    else SuccessesBelow(ms[..|ms| - 1], n) + (if ms[|ms| - 1].success && ShiftBucket(ms[|ms| - 1]) < n then 1 else 0)
  }

  /** Sum of the histogram's first n buckets: sum(shift_distribution). */
  function SumBuckets(hist: seq<nat>, n: nat): nat
    requires n <= |hist|
  {
    if n == 0 then 0 else SumBuckets(hist, n - 1) + hist[n - 1]
  }

  /** The histogram that counts the measurements ms into size buckets. */
  ghost predicate Counts(hist: seq<nat>, ms: seq<ShiftMeasurement>)
  {
    forall b :: 0 <= b < |hist| ==> hist[b] == BucketCount(ms, b)
  }

  lemma {:induction false} SuccessesBelowStep(ms: seq<ShiftMeasurement>, n: nat)
    ensures SuccessesBelow(ms, n + 1) == SuccessesBelow(ms, n) + BucketCount(ms, n)
  {
    if ms != [] {
      SuccessesBelowStep(ms[..|ms| - 1], n);
    }
  }

  lemma {:induction false} SumBucketsCountsSuccesses(hist: seq<nat>, ms: seq<ShiftMeasurement>, n: nat)
    requires Counts(hist, ms) && n <= |hist|
    ensures SumBuckets(hist, n) == SuccessesBelow(ms, n)
  {
    if n == 0 {
      ZeroBelow(ms);
    } else {
      SumBucketsCountsSuccesses(hist, ms, n - 1);
      SuccessesBelowStep(ms, n - 1);
    }
  }

  lemma {:induction false} ZeroBelow(ms: seq<ShiftMeasurement>)
    ensures SuccessesBelow(ms, 0) == 0
  {
    if ms != [] {
      ZeroBelow(ms[..|ms| - 1]);
    }
  }

  /** Every measurement is counted exactly once: successes in their bucket,
      failures in the failure counter. */
  lemma {:induction false} EveryMeasurementCounted(ms: seq<ShiftMeasurement>, n: nat)
    requires forall k :: 0 <= k < |ms| && ms[k].success ==> ShiftBucket(ms[k]) < n
    ensures SuccessesBelow(ms, n) + Failures(ms) == |ms|
  {
    if ms != [] {
      var init := ms[..|ms| - 1];
      assert forall k :: 0 <= k < |init| ==> init[k] == ms[k];
      EveryMeasurementCounted(init, n);
    }
  }

  /** Total entries = sum of the histogram + failures = number of measurements. */
  lemma HistogramConservation(hist: seq<nat>, ms: seq<ShiftMeasurement>)
    requires Counts(hist, ms)
    requires forall k :: 0 <= k < |ms| && ms[k].success ==> ShiftBucket(ms[k]) < |hist|
    ensures SumBuckets(hist, |hist|) + Failures(ms) == |ms|
  {
    SumBucketsCountsSuccesses(hist, ms, |hist|);
    EveryMeasurementCounted(ms, |hist|);
  }

  /** The percentage of failed measurements, or -1 when nothing was
      measured (then it is not printed). */
  function FailurePercent(failures: nat, total: nat): (p: real)
    requires failures <= total
    ensures total == 0 <==> p == -1.0
    ensures total > 0 ==> 0.0 <= p <= 100.0
    ensures total > 0 ==> (p == 0.0 <==> failures == 0) && (p == 100.0 <==> failures == total)
  {
    if total == 0 then -1.0
    else
      PercentOfTotal(failures as real, total as real);
      100.0 * failures as real / total as real
  }

  /** 100 * part / total lies in [0, 100], and hits either end exactly when
      the part is nothing or everything. */
  lemma PercentOfTotal(part: real, total: real)
    requires 0.0 <= part <= total && 0.0 < total
    ensures 0.0 <= 100.0 * part / total <= 100.0
    ensures 100.0 * part / total == 0.0 <==> part == 0.0
    ensures 100.0 * part / total == 100.0 <==> part == total
  {
    var p := 100.0 * part / total;
    assert p * total == 100.0 * part;
  }

  /** The number of table columns: one past the last non-zero bucket, or 0
      when the histogram is all zero. */
  function ShiftTableColumns(hist: seq<nat>): (n: nat)
    ensures n <= |hist|
    ensures n > 0 ==> hist[n - 1] != 0
    ensures forall b :: n <= b < |hist| ==> hist[b] == 0
  {
    if hist == [] then 0
    else if hist[|hist| - 1] != 0 then |hist|
    else ShiftTableColumns(hist[..|hist| - 1])
  }

  /** The histogram has a non-zero bucket exactly when the table has a
      column, i.e. max(shift_distribution) > 0. */
  lemma {:induction false} ColumnsIffNonZero(hist: seq<nat>)
    ensures ShiftTableColumns(hist) > 0 <==> exists b :: 0 <= b < |hist| && hist[b] > 0
  {
    if hist != [] && hist[|hist| - 1] == 0 {
      var init := hist[..|hist| - 1];
      ColumnsIffNonZero(init);
      assert forall b :: 0 <= b < |init| ==> init[b] == hist[b];
    }
  }

  /** The decimal digits of n. */
  function Decimal(n: nat): (s: string)
    ensures |s| > 0 && forall i :: 0 <= i < |s| ==> '0' <= s[i] <= '9'
  {
    if n < 10 then [Digit(n)] else Decimal(n / 10) + [Digit(n % 10)]
  }

  function Digit(d: nat): (c: char)
    requires d < 10
    ensures '0' <= c <= '9'
  {
    ['0', '1', '2', '3', '4', '5', '6', '7', '8', '9'][d]
  }

  function DigitValue(c: char): nat
  {
    if '0' <= c <= '9' then (c as int - '0' as int) as nat else 0
  }

  /** The value of a string of decimal digits. */
  function ParseDecimal(s: string): nat
  {
    if s == [] then 0 else ParseDecimal(s[..|s| - 1]) * 10 + DigitValue(s[|s| - 1])
  }

  /** Reading the printed digits back gives the number. */
  lemma {:induction false} DecimalRoundTrip(n: nat)
    ensures ParseDecimal(Decimal(n)) == n
  {
    if n >= 10 {
      DecimalRoundTrip(n / 10);
      var s := Decimal(n);
      assert s[..|s| - 1] == Decimal(n / 10);
    }
  }

  function Pow10(k: nat): (p: nat)
    ensures p >= 1
  {
    if k == 0 then 1 else 10 * Pow10(k - 1)
  }

  /** A number below 10^k has at most k digits. */
  lemma {:induction false} DecimalLength(n: nat, k: nat)
    requires 1 <= k && n < Pow10(k)
    ensures |Decimal(n)| <= k
  {
    if n >= 10 {
      DecimalLength(n / 10, k - 1);
    }
  }

  /** "{:7d}": right-aligned in seven characters, wider when needed. */
  function PadLeft(s: string, width: nat): (r: string)
    ensures |r| == if |s| < width then width else |s|
    ensures r[|r| - |s|..] == s
    ensures forall i :: 0 <= i < |r| - |s| ==> r[i] == ' '
  {
    if |s| >= width then s else [' '] + PadLeft(s, width - 1)
  }

  const ShiftHeader: string := "           Shift (pixels):"
  const RuleHeader: string := "           ---------------"
  const PercentHeader: string := "           Percent:       "

  /** The shift-line cell of column index: "|{:7d} ". */
  function ShiftCell(index: nat): string
  {
    "|" + PadLeft(Decimal(index), 7) + " "
  }

  /** The cells of the shift line for columns 0 .. n-1. */
  function ShiftCells(n: nat): string
  {
    if n == 0 then "" else ShiftCells(n - 1) + ShiftCell(n - 1)
  }

  /** The rule line's dashes for n columns. */
  function RuleCells(n: nat): string
  {
    if n == 0 then "" else RuleCells(n - 1) + "---------"
  }

  /** The three header strings are equally wide, so the columns line up. */
  lemma HeadersAligned()
    ensures |ShiftHeader| == |RuleHeader| == |PercentHeader| == 26
  {
  }

  /** While the column indices have at most seven digits, every shift cell
      is nine characters wide, as is every rule segment, so the shift line
      and the rule line are equally long. */
  lemma {:induction false} CellsAligned(n: nat)
    requires n <= 10000000
    ensures |ShiftCells(n)| == 9 * n == |RuleCells(n)|
  {
    if n > 0 {
      CellsAligned(n - 1);
      assert Pow10(7) == 10000000;
      DecimalLength(n - 1, 7);
    }
  }

  /** The table as printed: the shift line, the rule line, the percent of
      all entries in each bucket (number formatting is not modelled), and
      the failure percentage; the empty string when every bucket is 0; and
      the ValueError max() raises on a histogram with no buckets. */
  datatype ShiftTable =
    | EmptyTable
    | Table(shiftLine: string, ruleLine: string, percents: seq<real>, failurePercent: real)
    | NoBuckets

  /** The first two lines of the table for n columns and the percentages
      of the third, built column by column. */
  method TableLines(hist: seq<nat>, n: nat, total: nat) returns (shiftLine: string, ruleLine: string, percents: seq<real>)
    requires n <= |hist| && total > 0
    ensures shiftLine == ShiftHeader + ShiftCells(n) + "|"
    ensures ruleLine == RuleHeader + RuleCells(n) + "-"
    ensures percents == BucketPercents(hist, n, total)
  {
    var s := ShiftHeader;
    var line := RuleHeader;
    percents := [];
    var index := 0;
    while index < n
      invariant 0 <= index <= n
      invariant s == ShiftHeader + ShiftCells(index) && line == RuleHeader + RuleCells(index)
      invariant percents == BucketPercents(hist, index, total)
    {
      AppendString(ShiftHeader, ShiftCells(index), ShiftCell(index));
      AppendString(RuleHeader, RuleCells(index), "---------");
      BucketPercentsStep(hist, index, total);
      s := s + ShiftCell(index);
      line := line + "---------";
      percents := percents + [100.0 * hist[index] as real / total as real];
      index := index + 1;
    }
    shiftLine := s + "|";
    ruleLine := line + "-";
  }

  lemma AppendString(a: string, b: string, c: string)
    ensures a + b + c == a + (b + c)
  {
  }

  lemma BucketPercentsStep(hist: seq<nat>, n: nat, total: nat)
    requires n < |hist| && total > 0
    ensures BucketPercents(hist, n + 1, total) == BucketPercents(hist, n, total) + [100.0 * hist[n] as real / total as real]
  {
  }

  /** The bucket percentages printed on the third line sum to the share of
      successful measurements, so with the failure percentage they make
      100 percent. */
  function PercentSum(ps: seq<real>): real
  {
    if ps == [] then 0.0 else PercentSum(ps[..|ps| - 1]) + ps[|ps| - 1]
  }

  /** Bucket percentages of the first n buckets. */
  function BucketPercents(hist: seq<nat>, n: nat, total: nat): (ps: seq<real>)
    requires n <= |hist| && total > 0
    ensures |ps| == n
  {
    seq(n, b requires 0 <= b < n => 100.0 * hist[b] as real / total as real)
  }

  lemma {:induction false} BucketPercentsSum(hist: seq<nat>, n: nat, total: nat)
    requires n <= |hist| && total > 0
    ensures PercentSum(BucketPercents(hist, n, total)) == 100.0 * SumBuckets(hist, n) as real / total as real
  {
    if n > 0 {
      BucketPercentsSum(hist, n - 1, total);
      var ps := BucketPercents(hist, n, total);
      assert ps[..n - 1] == BucketPercents(hist, n - 1, total);
      assert PercentSum(ps) == PercentSum(ps[..n - 1]) + ps[n - 1];
      AddShares(SumBuckets(hist, n - 1) as real, hist[n - 1] as real, total as real);
    }
  }

  lemma AddShares(a: real, b: real, t: real)
    requires t > 0.0
    ensures 100.0 * a / t + 100.0 * b / t == 100.0 * (a + b) / t
  {
  }

  /** With every non-empty bucket printed, the bucket percentages and the
      failure percentage add up to 100. */
  lemma PercentagesComplete(hist: seq<nat>, failures: nat)
    requires SumBuckets(hist, |hist|) + failures > 0
    ensures var total := SumBuckets(hist, |hist|) + failures;
      PercentSum(BucketPercents(hist, ShiftTableColumns(hist), total)) + FailurePercent(failures, total) == 100.0
  {
    var sum := SumBuckets(hist, |hist|);
    var total := sum + failures;
    PrintedBucketShare(hist, total);
    SharesAddUp(PercentSum(BucketPercents(hist, ShiftTableColumns(hist), total)), sum, failures);
  }

  /** The printed bucket percentages sum to the share of all successful
      measurements: the buckets after the last printed one are empty. */
  lemma PrintedBucketShare(hist: seq<nat>, total: nat)
    requires total > 0
    ensures PercentSum(BucketPercents(hist, ShiftTableColumns(hist), total)) ==
      100.0 * SumBuckets(hist, |hist|) as real / total as real
  {
    var n := ShiftTableColumns(hist);
    BucketPercentsSum(hist, n, total);
    TrailingZeros(hist, n, |hist|);
  }

  /** The percentage x of the successes and the failure percentage add up
      to 100. */
  lemma SharesAddUp(x: real, successes: nat, failures: nat)
    requires successes + failures > 0
    requires x == 100.0 * successes as real / (successes + failures) as real
    ensures x + FailurePercent(failures, successes + failures) == 100.0
  {
    AddShares(successes as real, failures as real, (successes + failures) as real);
  }

  /** A bucket never exceeds the sum of the buckets up to it. */
  lemma {:induction false} SumBucketsAtLeast(hist: seq<nat>, b: nat)
    requires b < |hist|
    ensures SumBuckets(hist, |hist|) >= hist[b]
  {
    SumBucketsMonotone(hist, b + 1, |hist|);
  }

  lemma {:induction false} SumBucketsMonotone(hist: seq<nat>, n: nat, m: nat)
    requires n <= m <= |hist|
    ensures SumBuckets(hist, m) >= SumBuckets(hist, n)
    decreases m
  {
    if m > n {
      SumBucketsMonotone(hist, n, m - 1);
    }
  }

  lemma {:induction false} TrailingZeros(hist: seq<nat>, n: nat, m: nat)
    requires n <= m <= |hist|
    requires forall b :: n <= b < |hist| ==> hist[b] == 0
    ensures SumBuckets(hist, m) == SumBuckets(hist, n)
    decreases m
  {
    if m > n {
      TrailingZeros(hist, n, m - 1);
    }
  }
}
