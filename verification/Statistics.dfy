/** Score statistics and the assessment leaderboard. */
module Statistics {
  import opened Common
  import opened Decimal
  import opened Sorting

  const HUNDRED: real := 100.0

  /** `percent`: a share of a total in per cent, to two decimals. */
  function Percent(value: nat, total: nat): real {
    if total > 0 then Fixed(value as real / total as real * HUNDRED, HUNDRED) else 0.0
  }

  // ---- the median ----

  predicate RealLe(a: real, b: real) {
    a <= b
  }

  function Centre(s: seq<real>): real {
    var n := |s|;
    if n == 0 then 0.0
    else if n % 2 == 1 then s[n / 2]
    else (s[n / 2 - 1] + s[n / 2]) / 2.0
  }

  function Median(values: seq<real>): real {
    Centre(Sort(values, RealLe))
  }

  function AtMost(m: real): real -> bool {
    (v: real) => v <= m
  }

  function AtLeast(m: real): real -> bool {
    (v: real) => v >= m
  }

  lemma RealIsTotalOrder()
    ensures TotalPreorder(RealLe) && Antisymmetric(RealLe)
  {
  }

  /** The order of the scores does not matter. */
  lemma MedianForgetsOrder(a: seq<real>, b: seq<real>)
    requires multiset(a) == multiset(b)
    ensures Median(a) == Median(b)
  {
    SameSorted(a, b);
    assert Median(a) == Centre(Sort(a, RealLe)) && Median(b) == Centre(Sort(b, RealLe));
  }

  lemma SameSorted(a: seq<real>, b: seq<real>)
    requires multiset(a) == multiset(b)
    ensures Sort(a, RealLe) == Sort(b, RealLe)
  {
    RealIsTotalOrder();
    SortPermutation(a, b, RealLe);
  }

  lemma FilterAtLeast<T>(s: seq<T>, p: T -> bool, lo: nat, hi: nat)
    requires lo <= hi <= |s| && forall i | lo <= i < hi :: p(s[i])
    ensures |Filter(s, p)| >= hi - lo
  {
    FilterConcat(s[..lo], s[lo..], p);
    FilterConcat(s[lo..hi], s[hi..], p);
    assert s == s[..lo] + s[lo..] && s[lo..] == s[lo..hi] + s[hi..];
    FilterAll(s[lo..hi], p);
  }

  lemma {:induction false} FilterAll<T>(s: seq<T>, p: T -> bool)
    requires forall i | 0 <= i < |s| :: p(s[i])
    ensures Filter(s, p) == s
  {
    if s != [] { FilterAll(s[1..], p); }
  }

  lemma {:induction false} FilterNone<T>(s: seq<T>, p: T -> bool)
    requires forall i | 0 <= i < |s| :: !p(s[i])
    ensures Filter(s, p) == []
  {
    if s != [] { FilterNone(s[1..], p); }
  }

  lemma CentreOrder(s: seq<real>, i: nat)
    requires s != [] && SortedBy(s, RealLe) && i < |s|
    ensures i < (|s| + 1) / 2 ==> s[i] <= Centre(s)
    ensures |s| / 2 <= i ==> Centre(s) <= s[i]
  {
    var a, b := (|s| - 1) / 2, |s| / 2;
    assert a == b || RealLe(s[a], s[b]);
    if i < (|s| + 1) / 2 { assert i == a || RealLe(s[i], s[a]); }
    if b <= i { assert i == b || RealLe(s[b], s[i]); }
  }

  lemma MedianInSorted(values: seq<real>)
    requires values != []
    ensures var s := Sort(values, RealLe);
      var n := |s|;
      && s[0] <= Median(values) <= s[n - 1]
      && (forall i | 0 <= i < (n + 1) / 2 :: s[i] <= Median(values))
      && (forall i | n / 2 <= i < n :: Median(values) <= s[i])
  {
    SortSorted(values, RealLe);
    var s := Sort(values, RealLe);
    forall i | 0 <= i < |s|
      ensures (i < (|s| + 1) / 2 ==> s[i] <= Centre(s)) && (|s| / 2 <= i ==> Centre(s) <= s[i])
    {
      CentreOrder(s, i);
    }
  }

  /** The median lies between the lowest and the highest score, with at least half of the scores on
      either side. */
  lemma MedianMeaning(values: seq<real>)
    requires values != []
    ensures exists low, high | low in values && high in values ::
      (forall v | v in values :: low <= v <= high) && low <= Median(values) <= high
    ensures 2 * |Filter(values, AtMost(Median(values)))| >= |values|
    ensures 2 * |Filter(values, AtLeast(Median(values)))| >= |values|
  {
    var s, m := Sort(values, RealLe), Median(values);
    var n := |s|;
    MedianInSorted(values);
    FilterAtLeast(s, AtMost(m), 0, (n + 1) / 2);
    FilterAtLeast(s, AtLeast(m), n / 2, n);
    FilterPermutation(s, values, AtMost(m));
    FilterPermutation(s, values, AtLeast(m));
    Extremes(values);
  }

  lemma Extremes(values: seq<real>)
    requires values != []
    ensures var s := Sort(values, RealLe);
      s[0] in values && s[|s| - 1] in values && forall v | v in values :: s[0] <= v <= s[|s| - 1]
  {
    var s := Sort(values, RealLe);
    SortSorted(values, RealLe);
    SameElements(s, values, s[0]);
    SameElements(s, values, s[|s| - 1]);
    forall v | v in values ensures s[0] <= v <= s[|s| - 1] {
      SameElements(s, values, v);
      var i :| 0 <= i < |s| && s[i] == v;
      assert i == 0 || RealLe(s[0], s[i]);
      assert i == |s| - 1 || RealLe(s[i], s[|s| - 1]);
    }
  }

  /** The score with `k` scores before it in ascending order: at most `k` are lower, and more than `k` are no
      higher. */
  ghost predicate KthLowest(values: seq<real>, k: nat, x: real) {
    x in values && |Filter(values, v => v < x)| <= k < |Filter(values, v => v <= x)|
  }

  lemma SortedKth(s: seq<real>, k: nat)
    requires SortedBy(s, RealLe) && k < |s|
    ensures KthLowest(s, k, s[k])
  {
    var x := s[k];
    var lower, most := (v: real) => v < x, (v: real) => v <= x;
    forall i | k <= i < |s| ensures !lower(s[i]) {
      assert i == k || RealLe(s[k], s[i]);
    }
    FilterNone(s[k..], lower);
    FilterConcat(s[..k], s[k..], lower);
    FilterShorter(s[..k], lower);
    assert s == s[..k] + s[k..];
    forall i | 0 <= i < k + 1 ensures most(s[i]) {
      assert i == k || RealLe(s[i], s[k]);
    }
    FilterAtLeast(s, most, 0, k + 1);
  }

  lemma {:induction false} FilterShorter<T>(s: seq<T>, p: T -> bool)
    ensures |Filter(s, p)| <= |s|
  {
    if s != [] { FilterShorter(s[1..], p); }
  }

  lemma KthPermutation(a: seq<real>, b: seq<real>, k: nat, x: real)
    requires multiset(a) == multiset(b) && KthLowest(a, k, x)
    ensures KthLowest(b, k, x)
  {
    SameElements(a, b, x);
    FilterPermutation(a, b, v => v < x);
    FilterPermutation(a, b, v => v <= x);
  }

  /** The median of an odd number of scores is the one in the middle of their ascending order; of an even
      number it is half the sum of the two in the middle; of no scores it is 0. */
  lemma MedianExactly(values: seq<real>) returns (low: real, high: real)
    ensures values == [] ==> Median(values) == 0.0
    ensures values != [] ==>
      KthLowest(values, (|values| - 1) / 2, low) && KthLowest(values, |values| / 2, high)
    ensures values != [] ==> 2.0 * Median(values) == low + high
    ensures |values| % 2 == 1 ==> Median(values) == low == high
  {
    low, high := 0.0, 0.0;
    if values != [] {
      low := KthOf(values, (|values| - 1) / 2);
      high := KthOf(values, |values| / 2);
      CentreMeaning(Sort(values, RealLe));
    }
  }

  lemma KthOf(values: seq<real>, k: nat) returns (x: real)
    requires k < |values|
    ensures x == Sort(values, RealLe)[k] && KthLowest(values, k, x)
  {
    x := Sort(values, RealLe)[k];
    SortSorted(values, RealLe);
    SortedKth(Sort(values, RealLe), k);
    KthPermutation(Sort(values, RealLe), values, k, x);
  }

  lemma CentreMeaning(s: seq<real>)
    requires s != []
    ensures 2.0 * Centre(s) == s[(|s| - 1) / 2] + s[|s| / 2]
  {
  }

  // ---- the variance about a rounded average ----

  function SumOf(values: seq<real>, f: real -> real): real {
    if values == [] then 0.0 else SumOf(values[..|values| - 1], f) + f(values[|values| - 1])
  }

  function Same(): real -> real {
    (v: real) => v
  }

  function Constant(e: real): real -> real {
    (v: real) => e
  }

  function Scaled(c: real, m: real): real -> real {
    (v: real) => c * (v - m)
  }

  function Square(x: real): real {
    x * x
  }

  function SquareAbout(centre: real): real -> real {
    (v: real) => Square(v - centre)
  }

  function Sum(values: seq<real>): real {
    SumOf(values, Same())
  }

  /** `average`: to two decimals. */
  function Average(values: seq<real>): real {
    if values == [] then 0.0 else Fixed(Sum(values) / |values| as real, HUNDRED)
  }

  function Apply(values: seq<real>, f: real -> real): seq<real> {
    seq(|values|, i requires 0 <= i < |values| => f(values[i]))
  }

  /** The average is within half a hundredth of the exact mean. */
  lemma AverageMeaning(values: seq<real>)
    ensures values == [] ==> Average(values) == 0.0
    ensures values != [] ==> Mean(values) - 0.005 <= Average(values) <= Mean(values) + 0.005
  {
    if values != [] { FixedError(Mean(values), HUNDRED); }
  }

  /** The reported variance: the average of the squared distances from the rounded average. */
  function Variance(values: seq<real>): real {
    Average(Apply(values, SquareAbout(Average(values))))
  }

  lemma {:induction false} SumApply(values: seq<real>, f: real -> real)
    ensures Sum(Apply(values, f)) == SumOf(values, f)
  {
    if values != [] {
      var n := |values| - 1;
      SumApply(values[..n], f);
      assert Apply(values, f)[..n] == Apply(values[..n], f);
    }
  }

  lemma {:induction false} SumAdd(values: seq<real>, f: real -> real, g: real -> real, h: real -> real)
    requires forall v :: f(v) == g(v) + h(v)
    ensures SumOf(values, f) == SumOf(values, g) + SumOf(values, h)
  {
    if values != [] { SumAdd(values[..|values| - 1], f, g, h); }
  }

  lemma Spread(c: real, x: real, y: real)
    ensures c * (x + y) == c * x + c * y
  {
  }

  lemma {:induction false} SumScale(values: seq<real>, f: real -> real, g: real -> real, c: real)
    requires forall v :: f(v) == c * g(v)
    ensures SumOf(values, f) == c * SumOf(values, g)
  {
    if values != [] {
      var n := |values| - 1;
      SumScale(values[..n], f, g, c);
      Spread(c, SumOf(values[..n], g), g(values[n]));
    }
  }

  lemma Once(k: nat, e: real)
    ensures (k + 1) as real * e == k as real * e + e
  {
  }

  lemma {:induction false} SumConstant(values: seq<real>, e: real)
    ensures SumOf(values, Constant(e)) == |values| as real * e
  {
    if values != [] {
      SumConstant(values[..|values| - 1], e);
      Once(|values| - 1, e);
    }
  }

  function Mean(values: seq<real>): real
    requires values != []
  {
    Sum(values) / |values| as real
  }

  /** The spread about any centre, per value. */
  function SpreadAbout(values: seq<real>, centre: real): real
    requires values != []
  {
    SumOf(values, SquareAbout(centre)) / |values| as real
  }

  lemma Opposite(m: real, n: real)
    ensures n * -m == -(m * n)
  {
  }

  lemma OffsetsCancel(values: seq<real>, c: real)
    requires values != []
    ensures SumOf(values, Scaled(c, Mean(values))) == 0.0
  {
    var m, n := Mean(values), |values| as real;
    SumAdd(values, Scaled(1.0, m), Same(), Constant(-m));
    SumConstant(values, -m);
    QuotientTimes(Sum(values), n);
    Opposite(m, n);
    assert SumOf(values, Scaled(1.0, m)) == 0.0;
    SumScale(values, Scaled(c, m), Scaled(1.0, m), c);
    assert c * 0.0 == 0.0;
  }

  lemma ShiftOne(v: real, a: real, m: real)
    ensures Square(v - a) == Square(v - m) + (2.0 * (m - a) * (v - m) + Square(m - a))
  {
  }

  function Plus(f: real -> real, g: real -> real): real -> real {
    (v: real) => f(v) + g(v)
  }

  lemma Bent(v: real, a: real, m: real)
    ensures SquareAbout(a)(v) == SquareAbout(m)(v) + Plus(Scaled(2.0 * (m - a), m), Constant(Square(m - a)))(v)
  {
    ShiftOne(v, a, m);
    calc {
      SquareAbout(a)(v);
      Square(v - a);
      Square(v - m) + (2.0 * (m - a) * (v - m) + Square(m - a));
      SquareAbout(m)(v) + (Scaled(2.0 * (m - a), m)(v) + Constant(Square(m - a))(v));
    }
  }

  lemma ShiftBy(values: seq<real>, a: real, m: real, c: real, e: real)
    requires values != [] && m == Mean(values) && c == 2.0 * (m - a) && e == Square(m - a)
    ensures SumOf(values, SquareAbout(a)) == SumOf(values, SquareAbout(m)) + |values| as real * e
  {
    SumBent(values, a, m, c, e);
    LineSum(values, c, e);
  }

  lemma SumBent(values: seq<real>, a: real, m: real, c: real, e: real)
    requires c == 2.0 * (m - a) && e == Square(m - a)
    ensures SumOf(values, SquareAbout(a))
      == SumOf(values, SquareAbout(m)) + SumOf(values, Plus(Scaled(c, m), Constant(e)))
  {
    var rest := Plus(Scaled(c, m), Constant(e));
    forall v ensures SquareAbout(a)(v) == SquareAbout(m)(v) + rest(v) {
      Bent(v, a, m);
    }
    SumAdd(values, SquareAbout(a), SquareAbout(m), rest);
  }

  lemma LineSum(values: seq<real>, c: real, e: real)
    requires values != []
    ensures SumOf(values, Plus(Scaled(c, Mean(values)), Constant(e))) == |values| as real * e
  {
    SumAdd(values, Plus(Scaled(c, Mean(values)), Constant(e)), Scaled(c, Mean(values)), Constant(e));
    OffsetsCancel(values, c);
    SumConstant(values, e);
  }

  lemma Shift(values: seq<real>, a: real)
    requires values != []
    ensures SumOf(values, SquareAbout(a))
      == SumOf(values, SquareAbout(Mean(values))) + |values| as real * Square(Mean(values) - a)
  {
    ShiftBy(values, a, Mean(values), 2.0 * (Mean(values) - a), Square(Mean(values) - a));
  }

  lemma SpreadShift(values: seq<real>, a: real)
    requires values != []
    ensures SpreadAbout(values, a) == SpreadAbout(values, Mean(values)) + Square(Mean(values) - a)
  {
    Shift(values, a);
    ScaledSum(SumOf(values, SquareAbout(Mean(values))), Square(Mean(values) - a), |values| as real);
  }

  lemma VarianceIs(values: seq<real>)
    requires values != []
    ensures Variance(values) == Fixed(SpreadAbout(values, Average(values)), HUNDRED)
  {
    SumApply(values, SquareAbout(Average(values)));
  }

  /** Measuring the spread from the rounded average instead of the exact mean adds exactly the square of
      the rounding error, at most 0.000025, so the reported variance is within 0.005025 of the exact one
      and never below it by more than its own rounding. */
  lemma VarianceError(values: seq<real>)
    requires values != []
    ensures var exact := SpreadAbout(values, Mean(values));
      && SpreadAbout(values, Average(values)) == exact + Square(Mean(values) - Average(values))
      && exact - 0.005 <= Variance(values) <= exact + 0.005025
  {
    SpreadShift(values, Average(values));
    FixedError(Mean(values), HUNDRED);
    SmallSquare(Mean(values) - Average(values));
    VarianceIs(values);
    FixedError(SpreadAbout(values, Average(values)), HUNDRED);
  }

  lemma ScaledSum(x: real, e: real, n: real)
    requires n > 0.0
    ensures (x + n * e) / n == x / n + e
  {
    QuotientTimes(x, n);
    QuotientTimes(x + n * e, n);
    assert (x / n + e) * n == x + n * e;
  }

  lemma NonNegative(x: real, y: real)
    requires x >= 0.0 && y >= 0.0
    ensures x * y >= 0.0
  {
  }

  lemma SmallSquare(d: real)
    requires -0.005 <= d <= 0.005
    ensures 0.0 <= Square(d) <= 0.000025
  {
    NonNegative(0.005 - d, 0.005 + d);
    assert (0.005 - d) * (0.005 + d) == 0.000025 - d * d;
    if d >= 0.0 { NonNegative(d, d); } else { NonNegative(-d, -d); }
  }

  // ---- pass and fail percentages ----

  predicate Passes(v: real) {
    v >= 40.0
  }

  predicate Fails(v: real) {
    v < 40.0
  }

  lemma {:induction false} PassOrFail(values: seq<real>)
    ensures |Filter(values, Passes)| + |Filter(values, Fails)| == |values|
  {
    if values != [] { PassOrFail(values[1..]); }
  }

  predicate IsHalfway(x: real) {
    (x + 0.5).Floor as real == x + 0.5
  }

  lemma NearestComplement(x: real, y: real)
    requires x >= 0.0 && y >= 0.0 && x + y == 10000.0
    ensures Nearest(x) + Nearest(y) == if IsHalfway(x) then 10001 else 10000
  {
    var f, g := (x + 0.5).Floor, (y + 0.5).Floor;
    assert f as real <= x + 0.5 < f as real + 1.0;
    assert g as real <= y + 0.5 < g as real + 1.0;
    assert (f + g) as real <= 10001.0 < (f + g) as real + 2.0;
  }

  function Hundredths(k: nat, n: nat): real
    requires n > 0
  {
    k as real / n as real * HUNDRED * HUNDRED
  }

  function PassPercentage(values: seq<real>): real {
    Percent(|Filter(values, Passes)|, |values|)
  }

  function FailPercentage(values: seq<real>): real {
    Percent(|Filter(values, Fails)|, |values|)
  }

  lemma {:induction false} FilterAlike<T(!new)>(s: seq<T>, p: T -> bool, q: T -> bool)
    requires forall x :: p(x) == q(x)
    ensures Filter(s, p) == Filter(s, q)
  {
    if s != [] { FilterAlike(s[1..], p, q); }
  }

  /** A score of 40 passes: the percentages are those of the scores from 40 on and of the others, to within
      half a hundredth, and 0 without scores. */
  lemma PassMeaning(values: seq<real>, passed: nat, failed: nat)
    requires passed == |Filter(values, v => v >= 40.0)| && failed == |Filter(values, v => v < 40.0)|
    ensures values == [] ==> PassPercentage(values) == FailPercentage(values) == 0.0
    ensures values != [] ==>
      && passed as real / |values| as real * 100.0 - 0.005 <= PassPercentage(values)
         <= passed as real / |values| as real * 100.0 + 0.005
      && failed as real / |values| as real * 100.0 - 0.005 <= FailPercentage(values)
         <= failed as real / |values| as real * 100.0 + 0.005
  {
    FilterAlike(values, Passes, v => v >= 40.0);
    FilterAlike(values, Fails, v => v < 40.0);
    PercentError(passed, |values|);
    PercentError(failed, |values|);
  }

  lemma PercentError(k: nat, n: nat)
    ensures n == 0 ==> Percent(k, n) == 0.0
    ensures n > 0 ==> k as real / n as real * 100.0 - 0.005 <= Percent(k, n) <= k as real / n as real * 100.0 + 0.005
  {
    if n > 0 { FixedError(k as real / n as real * HUNDRED, HUNDRED); }
  }

  /** The pass and fail percentages add up to 100, except that both are rounded up, to 100.01 together,
      exactly when the pass percentage falls halfway between two hundredths. */
  lemma PassAndFail(values: seq<real>)
    requires values != []
    ensures PassPercentage(values) + FailPercentage(values)
      == if IsHalfway(Hundredths(|Filter(values, Passes)|, |values|)) then 100.01 else 100.0
  {
    PassOrFail(values);
    var p, f, n := |Filter(values, Passes)|, |Filter(values, Fails)|, |values|;
    Complements(p, f, n);
    NearestComplement(Hundredths(p, n), Hundredths(f, n));
  }

  lemma Complements(p: nat, f: nat, n: nat)
    requires n > 0 && p + f == n
    ensures Hundredths(p, n) >= 0.0 && Hundredths(f, n) >= 0.0
    ensures Hundredths(p, n) + Hundredths(f, n) == 10000.0
  {
    var x, y := p as real / n as real, f as real / n as real;
    QuotientTimes(p as real, n as real);
    QuotientTimes(f as real, n as real);
    assert (x + y - 1.0) * n as real == x * n as real + y * n as real - n as real;
    UnitFactor(x + y, n as real);
    QuotientMonotone(0.0, p as real, n as real);
    QuotientMonotone(0.0, f as real, n as real);
  }

  lemma UnitFactor(q: real, n: real)
    requires n > 0.0 && (q - 1.0) * n == 0.0
    ensures q == 1.0
  {
  }

  // ---- the leaderboard ----

  datatype Row = Row(
    studentId: string, percentage: real, timeTaken: Option<int>, createdAt: int, submittedAt: Option<int>,
    isPublished: bool, rankEligible: bool)

  datatype Entry = Entry(rank: nat, row: Row, percentile: real)

  const LISTED: nat := 100

  /** The `orderBy` of the query: higher percentage, then shorter time with unknown times last, then
      earlier creation. */
  predicate Ahead(a: Row, b: Row) {
    a.percentage > b.percentage
    || (a.percentage == b.percentage && (Faster(a.timeTaken, b.timeTaken)
        || (a.timeTaken == b.timeTaken && a.createdAt <= b.createdAt)))
  }

  predicate Faster(a: Option<int>, b: Option<int>) {
    a.Some? && (b.None? || a.value < b.value)
  }

  /** What a viewer's query selects: a student's sees that student's results only. */
  function Selects(viewer: Option<string>): Row -> bool {
    (r: Row) => r.isPublished && r.rankEligible && (viewer.None? || viewer == Some(r.studentId))
  }

  function Ranked(rows: seq<Row>, viewer: Option<string>): seq<Row> {
    Sort(Filter(rows, Selects(viewer)), Ahead)
  }

  function Leaderboard(rows: seq<Row>, viewer: Option<string>): seq<Entry> {
    var listed := Cut(Ranked(rows, viewer), LISTED);
    seq(|listed|, i requires 0 <= i < |listed| => Entry(i + 1, listed[i], Percent(|listed| - i, |listed|)))
  }

  function ScoresAtMost(p: real): Row -> bool {
    (r: Row) => r.percentage <= p
  }

  /** The documented count: published, rank-eligible results scoring at most `p`. */
  function Below(rows: seq<Row>, viewer: Option<string>, p: real): nat {
    |Filter(Filter(rows, Selects(viewer)), ScoresAtMost(p))|
  }

  lemma AheadIsTotal()
    ensures TotalPreorder(Ahead)
  {
  }

  predicate FirstOfTie(s: seq<Row>, i: nat)
    requires i < |s|
  {
    i == 0 || s[i - 1].percentage > s[i].percentage
  }

  ghost predicate Descending(s: seq<Row>) {
    forall i, j | 0 <= i < j < |s| :: s[i].percentage >= s[j].percentage
  }

  lemma RankedDescends(rows: seq<Row>, viewer: Option<string>)
    ensures Descending(Ranked(rows, viewer))
  {
    AheadIsTotal();
    SortSorted(Filter(rows, Selects(viewer)), Ahead);
    var s := Ranked(rows, viewer);
    forall i, j | 0 <= i < j < |s| ensures s[i].percentage >= s[j].percentage {
      assert Ahead(s[i], s[j]);
    }
  }

  /** Rank by score, then faster time, then earlier creation: of two listed results the later one scores
      less, or as much and took longer, or as much in the same time and is not older; a selected result left
      out is ahead of nobody listed. */
  lemma Ranking(rows: seq<Row>, viewer: Option<string>)
    ensures var entries := Leaderboard(rows, viewer);
      var selected := Filter(rows, Selects(viewer));
      && |entries| == (if |selected| < LISTED then |selected| else LISTED)
      && (forall i, j | 0 <= i < j < |entries| :: Ahead(entries[i].row, entries[j].row))
      && multiset(Rows(entries)) <= multiset(selected)
      && (forall e, r | e in entries && r in selected && r !in Rows(entries) :: Ahead(e.row, r))
  {
    var ranked, selected := Ranked(rows, viewer), Filter(rows, Selects(viewer));
    AheadIsTotal();
    SortSorted(selected, Ahead);
    assert Rows(Leaderboard(rows, viewer)) == Cut(ranked, LISTED);
    CutOrder(ranked, LISTED);
    forall r ensures r in selected <==> r in ranked {
      SameElements(ranked, selected, r);
    }
    EntryRows(Leaderboard(rows, viewer));
  }

  /** A result the viewer may see on the board. */
  ghost predicate Eligible(r: Row, viewer: Option<string>) {
    r.isPublished && r.rankEligible && viewer in {None, Some(r.studentId)}
  }

  /** The better score first; of one score, the known and shorter time first; of one score and time, the
      earlier creation first. */
  ghost predicate Precedes(a: Row, b: Row) {
    && b.percentage <= a.percentage
    && (a.percentage == b.percentage && b.timeTaken.Some? ==>
        a.timeTaken.Some? && a.timeTaken.value <= b.timeTaken.value)
    && (a.percentage == b.percentage && a.timeTaken == b.timeTaken ==> a.createdAt <= b.createdAt)
  }

  lemma AheadMeaning(a: Row, b: Row)
    ensures Ahead(a, b) <==> Precedes(a, b)
  {
  }

  /** The board lists eligible results of the assessment only, at most a hundred; a later entry never precedes
      an earlier one, and an eligible result is left out only when a hundred that precede it are listed. */
  lemma BoardMeaning(rows: seq<Row>, viewer: Option<string>)
    ensures var entries := Leaderboard(rows, viewer);
      && |entries| <= 100
      && (forall e | e in entries :: e.row in rows && Eligible(e.row, viewer))
      && (forall i, j | 0 <= i < j < |entries| :: Precedes(entries[i].row, entries[j].row))
      && (forall r | r in rows && Eligible(r, viewer) && r !in Rows(entries) ::
          |entries| == 100 && forall e | e in entries :: Precedes(e.row, r))
  {
    var entries, selected := Leaderboard(rows, viewer), Filter(rows, Selects(viewer));
    Ranking(rows, viewer);
    FilterMeaning(rows, Selects(viewer));
    forall a, b ensures Ahead(a, b) <==> Precedes(a, b) {
      AheadMeaning(a, b);
    }
    EntryRows(entries);
    forall e | e in entries ensures e.row in selected {
      assert e.row in multiset(Rows(entries));
    }
    forall r | r in rows && Eligible(r, viewer) && r !in Rows(entries) ensures |entries| == 100 {
      assert r in selected;
      if |entries| == |selected| { WholeSelection(Rows(entries), selected, r); }
    }
  }

  lemma WholeSelection(listed: seq<Row>, selected: seq<Row>, r: Row)
    requires multiset(listed) <= multiset(selected) && |listed| == |selected| && r in selected
    ensures r in listed
  {
    var rest := multiset(selected) - multiset(listed);
    assert multiset(selected) == multiset(listed) + rest;
    assert |multiset(selected)| == |selected| && |multiset(listed)| == |listed|;
    assert |rest| == 0;
    assert r in multiset(selected);
  }

  lemma EntryRows(entries: seq<Entry>)
    ensures forall e | e in entries :: e.row in Rows(entries)
  {
    forall e | e in entries ensures e.row in Rows(entries) {
      var i :| 0 <= i < |entries| && entries[i] == e;
      assert Rows(entries)[i] == e.row;
    }
  }

  lemma CutOrder(ranked: seq<Row>, n: nat)
    requires SortedBy(ranked, Ahead)
    ensures multiset(Cut(ranked, n)) <= multiset(ranked)
    ensures forall i, j | 0 <= i < j < |Cut(ranked, n)| :: Ahead(Cut(ranked, n)[i], Cut(ranked, n)[j])
    ensures forall e, r | e in Cut(ranked, n) && r in ranked && r !in Cut(ranked, n) :: Ahead(e, r)
  {
    var listed := Cut(ranked, n);
    var left := ranked[|listed|..];
    assert ranked == listed + left;
    forall e, r | e in listed && r in ranked && r !in listed ensures Ahead(e, r) {
      assert r in left;
    }
  }

  function Rows(entries: seq<Entry>): seq<Row> {
    seq(|entries|, i requires 0 <= i < |entries| => entries[i].row)
  }

  // ---- the documented tie-breaker ----

  predicate Tied(a: Row, b: Row) {
    a.percentage == b.percentage && a.timeTaken == b.timeTaken
  }

  predicate NotLater(a: Option<int>, b: Option<int>) {
    b.None? || (a.Some? && a.value <= b.value)
  }

  /** The documented order: score, then time, then submission. */
  predicate Documented(a: Row, b: Row) {
    a.percentage > b.percentage
    || (a.percentage == b.percentage && Faster(a.timeTaken, b.timeTaken))
    || (Tied(a, b) && NotLater(a.submittedAt, b.submittedAt))
  }

  /** An order in which the query may return the selected results: anything among results that it does not
      tell apart. */
  ghost predicate MayReturn(ranking: seq<Row>, selected: seq<Row>) {
    multiset(ranking) == multiset(selected) && SortedBy(ranking, Ahead)
  }

  /** Among results of the same score and time, none was created before, or with, one submitted earlier. */
  ghost predicate CreatedAsSubmitted(selected: seq<Row>) {
    forall a, b | a in selected && b in selected && Tied(a, b) && a.createdAt <= b.createdAt && a != b ::
      NotLater(a.submittedAt, b.submittedAt)
  }

  lemma OneOut<T>(s: seq<T>, x: T) returns (rest: seq<T>)
    requires x in s
    ensures multiset([x] + rest) == multiset(s) && forall y | y in s && y != x :: y in rest
  {
    var k :| 0 <= k < |s| && s[k] == x;
    rest := s[..k] + s[k + 1..];
    TakenOut(s, k);
    assert multiset([x] + rest) == multiset{x} + multiset(rest);
    assert forall y | y in s && y != x :: y in multiset(s) && y in multiset(rest);
  }

  lemma RankFirst(selected: seq<Row>, a: Row, b: Row) returns (ranking: seq<Row>, i: nat, j: nat)
    requires a in selected && b in selected && a != b && Ahead(a, b)
    ensures MayReturn(ranking, selected) && i < j < |ranking| && ranking[i] == a && ranking[j] == b
  {
    var rest := OneOut(selected, a);
    ranking := Sort([a] + rest, Ahead);
    assert ([a] + rest)[1..] == rest;
    AheadIsTotal();
    SortSorted([a] + rest, Ahead);
    SameElements(rest, Sort(rest, Ahead), b);
    i, j := InsertBefore(a, Sort(rest, Ahead), Ahead, b);
  }

  /** The board follows the documented order, however the query breaks its own ties, if and only if among
      results of the same score and time creation order agrees with submission order. */
  lemma RankedAsDocumented(selected: seq<Row>)
    ensures (forall ranking | MayReturn(ranking, selected) :: SortedBy(ranking, Documented)) <==>
      CreatedAsSubmitted(selected)
  {
    if CreatedAsSubmitted(selected) {
      forall ranking | MayReturn(ranking, selected) ensures SortedBy(ranking, Documented) {
        forall i, j | 0 <= i < j < |ranking| ensures Documented(ranking[i], ranking[j]) || ranking[i] == ranking[j] {
          SameElements(ranking, selected, ranking[i]);
          SameElements(ranking, selected, ranking[j]);
          assert Ahead(ranking[i], ranking[j]);
        }
      }
    }
    forall a, b | a in selected && b in selected && Tied(a, b) && a.createdAt <= b.createdAt && a != b
      && forall ranking | MayReturn(ranking, selected) :: SortedBy(ranking, Documented)
      ensures NotLater(a.submittedAt, b.submittedAt)
    {
      var ranking, i, j := RankFirst(selected, a, b);
      assert Documented(ranking[i], ranking[j]);
    }
  }

  /** The board is one of the orders the query may return, and of two tied results lists the one created
      first, whichever was submitted first. */
  lemma CreationDecides(rows: seq<Row>, viewer: Option<string>, i: nat, j: nat)
    requires i < |Ranked(rows, viewer)| && j < |Ranked(rows, viewer)|
    requires Tied(Ranked(rows, viewer)[i], Ranked(rows, viewer)[j])
    requires Ranked(rows, viewer)[i].createdAt < Ranked(rows, viewer)[j].createdAt
    ensures MayReturn(Ranked(rows, viewer), Filter(rows, Selects(viewer))) && i < j
  {
    AheadIsTotal();
    SortSorted(Filter(rows, Selects(viewer)), Ahead);
    FirstCreated(Ranked(rows, viewer), i, j);
  }

  lemma FirstCreated(ranked: seq<Row>, i: nat, j: nat)
    requires SortedBy(ranked, Ahead) && i < |ranked| && j < |ranked|
    requires Tied(ranked[i], ranked[j]) && ranked[i].createdAt < ranked[j].createdAt
    ensures i < j
  {
    assert !Ahead(ranked[j], ranked[i]);
  }

  /** Two results of one score and time, the first submitted created second: the board puts it last. */
  lemma SubmittedFirstRankedLast()
    ensures var first := Row("a", 50.0, Some(60), 2, Some(1), true, true);
      var second := Row("b", 50.0, Some(60), 1, Some(2), true, true);
      Ranked([first, second], None) == [second, first] && !Documented(second, first)
  {
    var first := Row("a", 50.0, Some(60), 2, Some(1), true, true);
    var second := Row("b", 50.0, Some(60), 1, Some(2), true, true);
    assert [first, second][1..] == [second] && [second][1..] == [];
    assert Selects(None)(first) && Selects(None)(second);
    assert Filter([second], Selects(None)) == [second];
    assert Filter([first, second], Selects(None)) == [first, second];
    assert Sort([second], Ahead) == [second];
  }

  /** The start of the tie that the `i`-th result of a descending list belongs to. */
  lemma TieStart(s: seq<Row>, i: nat) returns (first: nat)
    requires i < |s| && Descending(s)
    ensures first <= i && (first == i <==> FirstOfTie(s, i))
    ensures forall j | 0 <= j < first :: s[j].percentage > s[i].percentage
    ensures forall j | first <= j < |s| :: s[j].percentage <= s[i].percentage
  {
    first := i;
    while first > 0 && s[first - 1].percentage == s[i].percentage
      invariant first <= i && s[first].percentage == s[i].percentage
      invariant first == i || s[i - 1].percentage == s[i].percentage
    {
      first := first - 1;
    }
  }

  lemma SuffixCount<T>(s: seq<T>, first: nat, p: T -> bool)
    requires first <= |s|
    requires forall j | 0 <= j < first :: !p(s[j])
    requires forall j | first <= j < |s| :: p(s[j])
    ensures |Filter(s, p)| == |s| - first
  {
    FilterNone(s[..first], p);
    FilterAll(s[first..], p);
    FilterConcat(s[..first], s[first..], p);
    assert s == s[..first] + s[first..];
  }

  /** In a descending list the results scoring at most the `i`-th are those from its tie on. */
  lemma BelowInSorted(s: seq<Row>, i: nat) returns (first: nat)
    requires i < |s| && Descending(s)
    ensures first <= i && |Filter(s, ScoresAtMost(s[i].percentage))| == |s| - first
    ensures first == i <==> FirstOfTie(s, i)
  {
    first := TieStart(s, i);
    SuffixCount(s, first, ScoresAtMost(s[i].percentage));
  }

  lemma BelowCount(rows: seq<Row>, viewer: Option<string>, i: nat) returns (first: nat)
    requires i < |Ranked(rows, viewer)|
    ensures first <= i
    ensures Below(rows, viewer, Ranked(rows, viewer)[i].percentage) == |Ranked(rows, viewer)| - first
    ensures first == i <==> FirstOfTie(Ranked(rows, viewer), i)
  {
    var ranked := Ranked(rows, viewer);
    RankedDescends(rows, viewer);
    first := BelowInSorted(ranked, i);
    FilterPermutation(ranked, Filter(rows, Selects(viewer)), ScoresAtMost(ranked[i].percentage));
  }

  lemma ShareOrder(a: nat, m: nat, b: nat, n: nat)
    requires m > 0 && n > 0
    ensures a as real / m as real <= b as real / n as real <==> a * n <= b * m
    ensures a as real / m as real == b as real / n as real <==> a * n == b * m
  {
    var x, y, mn := a as real / m as real, b as real / n as real, (m * n) as real;
    assert mn > 0.0;
    QuotientTimes(a as real, m as real);
    QuotientTimes(b as real, n as real);
    Regrouped(x, a, m, n);
    Regrouped(y, b, n, m);
    if x <= y { ScaleMonotone(x, y, mn); } else { assert (x - y) * mn > 0.0; }
  }

  lemma Regrouped(x: real, a: nat, m: nat, n: nat)
    requires x * m as real == a as real
    ensures x * (m * n) as real == (a * n) as real
  {
    assert (m * n) as real == m as real * n as real && (a * n) as real == a as real * n as real;
    assert x * (m as real * n as real) == x * m as real * n as real;
  }

  lemma Compared(i: nat, first: nat, n: nat, total: nat)
    requires first <= i < n <= total
    ensures (n - i) * total <= (total - first) * n
    ensures (n - i) * total == (total - first) * n <==> i == 0 || (first == i && n == total)
  {
    assert (total - first) * n - (n - i) * total == i * total - first * n;
    assert i * total - first * n == i * (total - n) + (i - first) * n;
    MultiplyZero(i, total - n);
    MultiplyZero(i - first, n);
  }

  /** The shown share (n - i) / n against the documented one (total - first) / total. */
  lemma Shares(i: nat, first: nat, n: nat, total: nat)
    requires first <= i < n <= total
    ensures (n - i) as real / n as real <= (total - first) as real / total as real
    ensures (n - i) as real / n as real == (total - first) as real / total as real <==>
      i == 0 || (first == i && n == total)
  {
    Compared(i, first, n, total);
    ShareOrder(n - i, n, total - first, total);
  }

  lemma MultiplyZero(a: nat, b: nat)
    ensures a * b >= 0
    ensures a * b == 0 <==> a == 0 || b == 0
  {
  }

  /** Before rounding, a listed result's percentile never exceeds the documented share of results scoring
      at most as much. They are equal exactly for the top entry, and for the first entry of each tie when
      the list is not cut at a hundred. */
  lemma PercentileVersusDocumented(rows: seq<Row>, viewer: Option<string>, i: nat)
    requires i < |Leaderboard(rows, viewer)|
    ensures var ranked := Ranked(rows, viewer);
      var n := |Leaderboard(rows, viewer)|;
      var below := Below(rows, viewer, ranked[i].percentage);
      && n <= |ranked|
      && (n - i) as real / n as real <= below as real / |ranked| as real
      && ((n - i) as real / n as real == below as real / |ranked| as real <==>
          i == 0 || (FirstOfTie(ranked, i) && |ranked| <= LISTED))
  {
    var first := BelowCount(rows, viewer, i);
    Shares(i, first, |Leaderboard(rows, viewer)|, |Ranked(rows, viewer)|);
  }

  /** The percentiles shown, in per cent and rounded, never exceed the documented ones either. */
  lemma ShownPercentile(rows: seq<Row>, viewer: Option<string>, i: nat)
    requires i < |Leaderboard(rows, viewer)|
    ensures var entry := Leaderboard(rows, viewer)[i];
      && entry.rank == i + 1 && entry.row == Ranked(rows, viewer)[i]
      && entry.percentile <= Percent(Below(rows, viewer, entry.row.percentage), |Ranked(rows, viewer)|)
      && (i == 0 || (FirstOfTie(Ranked(rows, viewer), i) && |Ranked(rows, viewer)| <= LISTED) ==>
          entry.percentile == Percent(Below(rows, viewer, entry.row.percentage), |Ranked(rows, viewer)|))
      && 0.0 <= entry.percentile <= 100.0
  {
    PercentileVersusDocumented(rows, viewer, i);
    var n, total := |Leaderboard(rows, viewer)|, |Ranked(rows, viewer)|;
    PercentMonotone(n - i, n, Below(rows, viewer, Ranked(rows, viewer)[i].percentage), total);
    PercentBounds(n - i, n);
  }

  lemma PercentMonotone(a: nat, m: nat, b: nat, n: nat)
    requires m > 0 && n > 0 && a as real / m as real <= b as real / n as real
    ensures Percent(a, m) <= Percent(b, n)
  {
    ScaleMonotone(a as real / m as real, b as real / n as real, HUNDRED);
    FixedMonotone(a as real / m as real * HUNDRED, b as real / n as real * HUNDRED, HUNDRED);
  }

  lemma PercentBounds(k: nat, n: nat)
    requires k <= n && n > 0
    ensures 0.0 <= Percent(k, n) <= 100.0 && Percent(n, n) == 100.0
  {
    TimesQuotient(1.0, n as real);
    assert n as real / n as real == 1.0;
    QuotientMonotone(0.0, k as real, n as real);
    QuotientMonotone(k as real, n as real, n as real);
    FixedExact(0.0, 0, HUNDRED);
    FixedExact(100.0, 10000, HUNDRED);
    FixedMonotone(0.0, k as real / n as real * HUNDRED, HUNDRED);
    FixedMonotone(k as real / n as real * HUNDRED, 100.0, HUNDRED);
  }

  /** A student's leaderboard lists that student's results only, so the best of them is always shown as
      rank 1 and percentile 100; the documented share of all results is 1 exactly when nobody scored more. */
  lemma StudentSeesThemselves(rows: seq<Row>, student: string)
    requires Leaderboard(rows, Some(student)) != []
    ensures var entries := Leaderboard(rows, Some(student));
      var all := Filter(rows, Selects(None));
      && (forall e | e in entries :: e.row.studentId == student)
      && entries[0].rank == 1 && entries[0].percentile == 100.0
      && (Below(rows, None, entries[0].row.percentage) == |all| <==>
          forall r | r in all :: r.percentage <= entries[0].row.percentage)
  {
    var entries, mine := Leaderboard(rows, Some(student)), Filter(rows, Selects(Some(student)));
    var all, p := Filter(rows, Selects(None)), entries[0].row.percentage;
    FilterMeaning(rows, Selects(Some(student)));
    forall e | e in entries ensures e.row.studentId == student {
      SameElements(Ranked(rows, Some(student)), mine, e.row);
    }
    PercentBounds(0, |entries|);
    FilterWhole(all, ScoresAtMost(p));
  }

  lemma {:induction false} FilterWhole<T>(s: seq<T>, p: T -> bool)
    ensures |Filter(s, p)| <= |s|
    ensures |Filter(s, p)| == |s| <==> forall x | x in s :: p(x)
  {
    if s != [] {
      FilterWhole(s[1..], p);
      assert s == [s[0]] + s[1..];
    }
  }
}
