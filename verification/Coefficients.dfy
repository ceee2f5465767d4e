// What kappa and alpha can be, and when they are undefined. Everything reduces
// to two sums over the labels: the products of the two marginals, and the
// squares of their sums.
module Coefficients {
  import opened Taxonomy
  import opened Arithmetic
  import opened Ordering
  import opened Measures

  function Left(m: ConfusionMatrix, x: string): nat { SumWhere(m.counts, LeftIs(x)) }

  function Right(m: ConfusionMatrix, x: string): nat { SumWhere(m.counts, RightIs(x)) }

  function N(m: ConfusionMatrix): nat { SumWhere(m.counts, All) }

  function Agreed(m: ConfusionMatrix): nat { SumWhere(m.counts, Agreements) }

  function Products(m: ConfusionMatrix, labels: seq<string>): nat {
    if labels == [] then 0 else Left(m, labels[0]) * Right(m, labels[0]) + Products(m, labels[1..])
  }

  function Squares(m: ConfusionMatrix, labels: seq<string>): nat {
    if labels == [] then 0
    else (Left(m, labels[0]) + Right(m, labels[0])) * (Left(m, labels[0]) + Right(m, labels[0])) + Squares(m, labels[1..])
  }

  // ----- the two inequalities -----

  lemma ProductUnderSquare(l: int, r: int)
    ensures 4 * (l * r) <= (l + r) * (l + r)
  {
    assert (l - r) * (l - r) >= 0;
  }

  lemma SquareBound(l: int, r: int, b: int, n: int)
    requires 0 <= b <= l <= n && b <= r <= n && l + r <= n + b
    ensures (l + r) * (l + r) <= n * (l + r) + 2 * (n * b)
  {
    var s := l + r;
    MulMono(s, n + b, s);
    Distribute(n, b, n + b, s);
    MulMono(s, 2 * n, b);
  }

  lemma AddBounds(n: int, s: int, t: int, st: int, b: int, g: int, bg: int, x: int, y: int)
    requires st == s + t && bg == b + g
    requires x <= n * s + 2 * (n * b) && y <= n * t + 2 * (n * g)
    ensures x + y <= n * st + 2 * (n * bg)
  {
    Distribute(s, t, st, n);
    Distribute(b, g, bg, n);
  }

  function BothTotal(m: ConfusionMatrix, labels: seq<string>): nat {
    LeftTotal(m.counts, labels) + RightTotal(m.counts, labels)
  }

  // One label's contribution to both inequalities.
  lemma LabelBounds(m: ConfusionMatrix, x: string)
    ensures 4 * (Left(m, x) * Right(m, x)) <= (Left(m, x) + Right(m, x)) * (Left(m, x) + Right(m, x))
    ensures (Left(m, x) + Right(m, x)) * (Left(m, x) + Right(m, x)) <=
            N(m) * (Left(m, x) + Right(m, x)) + 2 * (N(m) * SumWhere(m.counts, Exactly(x, x)))
  {
    MarginalBounds(m.counts, x);
    ProductUnderSquare(Left(m, x), Right(m, x));
    SquareBound(Left(m, x), Right(m, x), SumWhere(m.counts, Exactly(x, x)), N(m));
  }

  lemma {:induction false} ProductsUnderSquares(m: ConfusionMatrix, labels: seq<string>)
    ensures 4 * Products(m, labels) <= Squares(m, labels)
  {
    if labels != [] {
      ProductsUnderSquares(m, labels[1..]);
      LabelBounds(m, labels[0]);
    }
  }

  lemma {:induction false} SquaresBound(m: ConfusionMatrix, labels: seq<string>)
    ensures Squares(m, labels) <= N(m) * BothTotal(m, labels) + 2 * (N(m) * AgreedTotal(m.counts, labels))
  {
    if labels != [] {
      var x, rest := labels[0], labels[1..];
      SquaresBound(m, rest);
      LabelBounds(m, x);
      AddBounds(N(m), Left(m, x) + Right(m, x), BothTotal(m, rest), BothTotal(m, labels),
                SumWhere(m.counts, Exactly(x, x)), AgreedTotal(m.counts, rest), AgreedTotal(m.counts, labels),
                (Left(m, x) + Right(m, x)) * (Left(m, x) + Right(m, x)), Squares(m, rest));
    }
  }

  lemma MatrixBounds(m: ConfusionMatrix)
    requires WellFormed(m)
    ensures Agreed(m) <= N(m)
    ensures 4 * Products(m, m.labels) <= Squares(m, m.labels) <= 2 * (N(m) * N(m)) + 2 * (N(m) * Agreed(m))
  {
    ProductsUnderSquares(m, m.labels);
    SquaresBound(m, m.labels);
    MarginalsAddUp(m.counts, m.labels);
    AgreeOrDisagree(m.counts);
    Distribute(N(m), N(m), BothTotal(m, m.labels), N(m));
  }

  // ----- one category, or at least two -----

  lemma {:induction false} ProductsByLeft(m: ConfusionMatrix, labels: seq<string>, k: nat)
    requires forall x :: x in labels ==> Left(m, x) <= k
    ensures Products(m, labels) <= k * RightTotal(m.counts, labels)
  {
    if labels != [] {
      ProductsByLeft(m, labels[1..], k);
      assert labels[0] in labels;
      MulMono(Left(m, labels[0]), k, Right(m, labels[0]));
      Distribute(Right(m, labels[0]), RightTotal(m.counts, labels[1..]), RightTotal(m.counts, labels), k);
    }
  }

  lemma {:induction false} ProductsByRight(m: ConfusionMatrix, labels: seq<string>, k: nat)
    requires forall x :: x in labels ==> Left(m, x) == 0 || Right(m, x) <= k
    ensures Products(m, labels) <= k * LeftTotal(m.counts, labels)
  {
    if labels != [] {
      ProductsByRight(m, labels[1..], k);
      assert labels[0] in labels;
      if Left(m, labels[0]) > 0 { MulMono(Right(m, labels[0]), k, Left(m, labels[0])); }
      Distribute(Left(m, labels[0]), LeftTotal(m.counts, labels[1..]), LeftTotal(m.counts, labels), k);
    }
  }

  lemma {:induction false} SquaresAtMost(m: ConfusionMatrix, labels: seq<string>, k: nat)
    requires forall x :: x in labels ==> Left(m, x) + Right(m, x) <= k
    ensures Squares(m, labels) <= k * BothTotal(m, labels)
  {
    if labels != [] {
      SquaresAtMost(m, labels[1..], k);
      var s := Left(m, labels[0]) + Right(m, labels[0]);
      assert labels[0] in labels && s <= k;
      MulMono(s, k, s);
      Distribute(s, BothTotal(m, labels[1..]), BothTotal(m, labels), k);
    }
  }

  // With two labels in use, no label has every judgement on both sides.
  lemma TwoLabels(m: ConfusionMatrix, x: string, y: string)
    requires WellFormed(m) && x in m.labels && y in m.labels && x != y
    ensures Left(m, x) + Right(m, x) < 2 * N(m)
    ensures Left(m, x) == N(m) ==> Left(m, y) == 0 && Right(m, x) < N(m)
    ensures Left(m, x) <= N(m) && Right(m, x) <= N(m)
  {
    TwoLabelSums(m.counts, x, y);
  }

  lemma {:induction false} TwoLabelSums(counts: seq<Entry>, x: string, y: string)
    requires x != y
    ensures SumWhere(counts, LeftIs(x)) + SumWhere(counts, LeftIs(y)) <= SumWhere(counts, All)
    ensures SumWhere(counts, RightIs(x)) + SumWhere(counts, RightIs(y)) <= SumWhere(counts, All)
  {
    if counts != [] { TwoLabelSums(counts[1..], x, y); }
  }

  lemma OtherLabel(m: ConfusionMatrix, x: string) returns (y: string)
    requires WellFormed(m) && |m.labels| >= 2 && x in m.labels
    ensures y in m.labels && y != x
  {
    y := if m.labels[0] == x then m.labels[1] else m.labels[0];
  }

  lemma SomeLabel(m: ConfusionMatrix)
    requires WellFormed(m) && N(m) >= 1
    ensures |m.labels| >= 1
  {
    MarginalsAddUp(m.counts, m.labels);
  }

  lemma OneCategory(m: ConfusionMatrix)
    requires WellFormed(m) && |m.labels| == 1
    ensures Products(m, m.labels) == N(m) * N(m) && Squares(m, m.labels) == 4 * (N(m) * N(m))
  {
    hide SumWhere;
    MarginalsAddUp(m.counts, m.labels);
    assert m.labels[1..] == [];
    var n := N(m);
    assert Left(m, m.labels[0]) == n && Right(m, m.labels[0]) == n;
    assert (n + n) * (n + n) == 4 * (n * n);
  }

  // With two categories both chance terms leave room.
  lemma ProductsGap(m: ConfusionMatrix)
    requires WellFormed(m) && N(m) >= 1 && |m.labels| >= 2
    ensures Products(m, m.labels) <= N(m) * N(m) - N(m)
  {
    hide Products, SumWhere;
    var n := N(m);
    MarginalsAddUp(m.counts, m.labels);
    if x :| x in m.labels && Left(m, x) == n {
      forall y | y in m.labels ensures Left(m, y) == 0 || Right(m, y) <= n - 1 {
        if y != x { TwoLabels(m, x, y); } else { var z := OtherLabel(m, x); TwoLabels(m, x, z); }
      }
      ProductsByRight(m, m.labels, n - 1);
    } else {
      forall y | y in m.labels ensures Left(m, y) <= n - 1 {
        var z := OtherLabel(m, y);
        TwoLabels(m, y, z);
      }
      ProductsByLeft(m, m.labels, n - 1);
    }
    Distribute(n, -1, n - 1, n);
  }

  lemma SquaresGap(m: ConfusionMatrix)
    requires WellFormed(m) && N(m) >= 1 && |m.labels| >= 2
    ensures Squares(m, m.labels) <= 4 * (N(m) * N(m)) - 2 * N(m)
  {
    forall x | x in m.labels ensures Left(m, x) + Right(m, x) <= 2 * N(m) - 1 {
      var y := OtherLabel(m, x);
      TwoLabels(m, x, y);
    }
    SquaresAtMost(m, m.labels, 2 * N(m) - 1);
    MarginalsAddUp(m.counts, m.labels);
    GapBelowSquare(N(m), 2 * N(m) - 1, BothTotal(m, m.labels), Squares(m, m.labels));
  }

  lemma GapBelowSquare(n: int, k: int, t: int, s: int)
    requires k == 2 * n - 1 && t == 2 * n && s <= k * t
    ensures s <= 4 * (n * n) - 2 * n
  {
    Distribute(2 * n, -1, k, t);
  }

  // ----- from the code's real arithmetic to the integer sums -----

  // The quotient e, over the denominator d, stands for the integer p.
  predicate Stands(e: real, d: real, p: int) { e * d == p as real }

  lemma NothingExpected(m: ConfusionMatrix, n: nat, d: real)
    requires n > 0
    ensures Stands(ExpectedAgreement(m.counts, [], n), d, Products(m, []))
  {
  }

  lemma {:induction false} ExpectedTimes(m: ConfusionMatrix, labels: seq<string>, n: nat, d: real)
    requires n > 0 && d == n as real * n as real
    ensures Stands(ExpectedAgreement(m.counts, labels, n), d, Products(m, labels))
  {
    hide ExpectedAgreement, Products, Stands;
    if labels == [] {
      NothingExpected(m, n, d);
    } else {
      var before, x := labels[..|labels| - 1], labels[|labels| - 1];
      ExpectedTimes(m, before, n, d);
      assert labels == before + [x];
      ExpectedAppend(m, before, x, n, d);
    }
  }

  lemma ExpectedAppend(m: ConfusionMatrix, before: seq<string>, x: string, n: nat, d: real)
    requires n > 0 && d == n as real * n as real
    requires Stands(ExpectedAgreement(m.counts, before, n), d, Products(m, before))
    ensures Stands(ExpectedAgreement(m.counts, before + [x], n), d, Products(m, before + [x]))
  {
    hide ChanceTerm, SumWhere, Products;
    var labels := before + [x];
    assert labels[..|labels| - 1] == before;
    assert ExpectedAgreement(m.counts, labels, n) == ExpectedAgreement(m.counts, before, n) + ChanceTerm(m.counts, x, n);
    hide ExpectedAgreement;
    ProductsAppend(m, before, x);
    ChanceTermTimes(m, x, n, d);
    AddQuotients(ExpectedAgreement(m.counts, before, n), ChanceTerm(m.counts, x, n),
                 ExpectedAgreement(m.counts, labels, n), d, Products(m, before), Left(m, x) * Right(m, x));
  }

  lemma AddQuotients(e: real, t: real, sum: real, d: real, p: int, q: int)
    requires e * d == p as real && t * d == q as real && sum == e + t
    ensures sum * d == (p + q) as real
  {
  }

  lemma ChanceTermTimes(m: ConfusionMatrix, x: string, n: nat, d: real)
    requires n > 0 && d == n as real * n as real
    ensures ChanceTerm(m.counts, x, n) * d == (Left(m, x) * Right(m, x)) as real
  {
    ProductOfShares(Left(m, x), Right(m, x), n as real, d);
  }

  lemma {:induction false} ProductsAppend(m: ConfusionMatrix, labels: seq<string>, x: string)
    ensures Products(m, labels + [x]) == Products(m, labels) + Left(m, x) * Right(m, x)
  {
    if labels == [] {
      assert ([x])[1..] == [];
    } else {
      ProductsAppend(m, labels[1..], x);
      assert (labels + [x])[1..] == labels[1..] + [x];
    }
  }

  lemma ProductOfShares(l: int, r: int, n: real, d: real)
    requires n > 0.0 && d == n * n
    ensures ((l as real / n) * (r as real / n)) * d == (l * r) as real
  {
    var a, b := l as real / n, r as real / n;
    assert a * n == l as real && b * n == r as real;
    Regroup(a, b, n);
    RealProduct(l, r);
  }

  lemma Regroup(a: real, b: real, n: real)
    ensures (a * b) * (n * n) == (a * n) * (b * n)
  {
  }

  lemma ProductsBelowSquare(m: ConfusionMatrix)
    requires WellFormed(m) && N(m) >= 1
    ensures Products(m, m.labels) <= N(m) * N(m)
  {
    SomeLabel(m);
    if |m.labels| == 1 { OneCategory(m); } else { ProductsGap(m); }
  }

  // 1 - expected, over the common denominator d = N * N.
  lemma ExpectedGap(m: ConfusionMatrix, d: real)
    requires WellFormed(m) && N(m) >= 2 && d == N(m) as real * N(m) as real
    ensures var e := ExpectedAgreement(m.counts, m.labels, N(m));
            && 0.0 <= e <= 1.0 && d > 0.0 && d == (N(m) * N(m)) as real
            && (1.0 - e) * d == (N(m) * N(m) - Products(m, m.labels)) as real
  {
    hide ExpectedAgreement, SumWhere, Products, WellFormed;
    ExpectedTimes(m, m.labels, N(m), d);
    ProductsBelowSquare(m);
    GapFromTotal(ExpectedAgreement(m.counts, m.labels, N(m)), N(m), Products(m, m.labels), d);
  }

  lemma GapFromTotal(e: real, n: int, p: int, d: real)
    requires n >= 2 && d == n as real * n as real && e * d == p as real && 0 <= p <= n * n
    ensures 0.0 <= e <= 1.0 && d > 0.0 && d == (n * n) as real && (1.0 - e) * d == (n * n - p) as real
  {
    RealProduct(n, n);
    MulMono(1, n, n);
    RealDistribute(1.0, -e, 1.0 - e, d);
    MulCompare(e, 1.0, d);
    MulCompare(0.0, e, d);
  }

  // ----- when kappa is undefined -----

  // Exactly: fewer than two pairs, or chance agreement within one part in 10^9
  // of certainty.
  lemma KappaUndefinedExactly(m: ConfusionMatrix)
    requires WellFormed(m)
    ensures Kappa(m).None? <==>
            || N(m) < 2
            || 1_000_000_000 * (N(m) * N(m) - Products(m, m.labels)) <= N(m) * N(m)
  {
    hide ExpectedAgreement, Products, SumWhere, WellFormed, IsClose;
    if N(m) >= 2 {
      var e := ExpectedAgreement(m.counts, m.labels, N(m));
      var d := N(m) as real * N(m) as real;
      ExpectedGap(m, d);
      CloseToOne(e);
      NearCertainty(1.0 - e, d, N(m) * N(m) - Products(m, m.labels), N(m) * N(m));
    }
  }

  lemma CloseToOne(e: real)
    requires 0.0 <= e <= 1.0
    ensures IsClose(e, 1.0) <==> 1.0 - e <= 0.000000001
  {
  }

  lemma NearCertainty(x: real, d: real, gap: int, square: int)
    requires d > 0.0 && d == square as real && x * d == gap as real
    ensures x <= 0.000000001 <==> 1_000_000_000 * gap <= square
  {
    var y := 0.000000001;
    if x < y { assert (y - x) * d > 0.0; assert (y - x) * d == y * d - x * d; }
    if x > y { assert (x - y) * d > 0.0; assert (x - y) * d == x * d - y * d; }
    if x == y { assert x * d == y * d; }
    assert (1_000_000_000 * gap) as real == 1000000000.0 * gap as real;
  }

  // For fewer than 10^9 pairs this means: fewer than two pairs, or one category.
  lemma KappaUndefinedForOneCategory(m: ConfusionMatrix)
    requires WellFormed(m) && N(m) < 1_000_000_000
    ensures Kappa(m).None? <==> N(m) < 2 || |m.labels| == 1
  {
    KappaUndefinedExactly(m);
    if N(m) >= 2 {
      SomeLabel(m);
      if |m.labels| == 1 {
        OneCategory(m);
      } else {
        ProductsGap(m);
        MulMono(N(m), 999_999_999, N(m));
      }
    }
  }

  // At 10^9 pairs kappa is undefined although two categories are in use.
  lemma KappaUndefinedForTwoCategories()
    ensures var m := ConfusionMatrix([Entry("a", "a", 999_999_999), Entry("a", "b", 1)], ["a", "b"]);
            WellFormed(m) && N(m) == 1_000_000_000 && Kappa(m).None? && Alpha(m).Some?
  {
    var m := ConfusionMatrix([Entry("a", "a", 999_999_999), Entry("a", "b", 1)], ["a", "b"]);
    assert m.counts[1..] == [Entry("a", "b", 1)];
    assert Left(m, "a") == 1_000_000_000 && Right(m, "a") == 999_999_999;
    assert Left(m, "b") == 0 && Right(m, "b") == 1;
    assert Products(m, m.labels) == 1_000_000_000 * 999_999_999 by { assert m.labels[1..] == ["b"]; }
    KappaUndefinedExactly(m);
    AlphaUndefinedForOneCategory(m);
  }

  // ----- alpha -----

  lemma {:induction false} RowSum(m: ConfusionMatrix, c: seq<Entry>, a: string, labels: seq<string>)
    requires Distinct(labels)
    requires forall x :: SumWhere(c, LeftIs(x)) == Left(m, x) + Right(m, x)
    ensures var s := Left(m, a) + Right(m, a);
            OffDiagonalRow(c, a, labels) == s * BothTotal(m, labels) - if a in labels then s * s else 0
  {
    if labels != [] {
      RowSum(m, c, a, labels[1..]);
      assert labels[0] !in labels[1..];
      Distribute(Left(m, labels[0]) + Right(m, labels[0]), BothTotal(m, labels[1..]), BothTotal(m, labels), Left(m, a) + Right(m, a));
    }
  }

  lemma {:induction false} OffDiagonalSum(m: ConfusionMatrix, c: seq<Entry>, rows: seq<string>, labels: seq<string>)
    requires Distinct(labels) && forall x :: x in rows ==> x in labels
    requires forall x :: SumWhere(c, LeftIs(x)) == Left(m, x) + Right(m, x)
    ensures OffDiagonal(c, rows, labels) == BothTotal(m, rows) * BothTotal(m, labels) - Squares(m, rows)
  {
    if rows != [] {
      OffDiagonalSum(m, c, rows[1..], labels);
      RowSum(m, c, rows[0], labels);
      Distribute(Left(m, rows[0]) + Right(m, rows[0]), BothTotal(m, rows[1..]), BothTotal(m, rows), BothTotal(m, labels));
    }
  }

  lemma ExpectedDisagreement(m: ConfusionMatrix)
    requires WellFormed(m)
    ensures OffDiagonal(Coincidences(m.counts), m.labels, m.labels) == 4 * (N(m) * N(m)) - Squares(m, m.labels)
    ensures SumWhere(Coincidences(m.counts), All) == 2 * N(m)
    ensures SumWhere(Coincidences(m.counts), Disagreements) == 2 * (N(m) - Agreed(m))
  {
    var c := Coincidences(m.counts);
    forall x ensures SumWhere(c, LeftIs(x)) == Left(m, x) + Right(m, x) {
      CoincidencesMirror(m.counts, LeftIs(x));
    }
    CoincidencesMirror(m.counts, All);
    CoincidencesMirror(m.counts, Disagreements);
    AgreeOrDisagree(m.counts);
    MarginalsAddUp(m.counts, m.labels);
    OffDiagonalSum(m, c, m.labels, m.labels);
    Doubled(N(m), BothTotal(m, m.labels));
  }

  lemma Doubled(n: int, t: int)
    requires t == n + n
    ensures t * t == 4 * (n * n)
  {
  }

  lemma AlphaUndefinedForOneCategory(m: ConfusionMatrix)
    requires WellFormed(m)
    ensures Alpha(m).None? <==> N(m) < 2 || |m.labels| == 1
  {
    if N(m) >= 2 {
      ExpectedDisagreement(m);
      SomeLabel(m);
      if |m.labels| == 1 { OneCategory(m); } else { SquaresGap(m); }
    }
  }

  // Whenever kappa is defined, so is alpha.
  lemma KappaNeedsTwoCategories(m: ConfusionMatrix)
    requires WellFormed(m) && Kappa(m).Some?
    ensures Alpha(m).Some?
  {
    KappaUndefinedExactly(m);
    AlphaUndefinedForOneCategory(m);
    if N(m) >= 2 && |m.labels| == 1 { OneCategory(m); }
  }

  // ----- both coefficients, with the denominators multiplied out -----

  lemma KappaEquation(m: ConfusionMatrix)
    requires WellFormed(m) && Kappa(m).Some?
    ensures N(m) >= 2 && N(m) * N(m) > Products(m, m.labels)
    ensures (1.0 - Kappa(m).value) * (N(m) * N(m) - Products(m, m.labels)) as real == (N(m) * (N(m) - Agreed(m))) as real
  {
    hide ExpectedAgreement, SumWhere, Products, WellFormed, IsClose;
    var e, d := ExpectedAgreement(m.counts, m.labels, N(m)), N(m) as real * N(m) as real;
    ExpectedGap(m, d);
    CloseToOne(e);
    KappaFromParts(Kappa(m).value, ObservedAgreement(m), e, N(m), Agreed(m), d, N(m) * N(m) - Products(m, m.labels));
  }

  lemma KappaFromParts(k: real, o: real, e: real, n: int, a: int, d: real, gap: int)
    requires n >= 2 && o == a as real / n as real && e < 1.0 && d > 0.0 && d == n as real * n as real
    requires k == (o - e) / (1.0 - e) && (1.0 - e) * d == gap as real
    ensures gap > 0 && (1.0 - k) * gap as real == (n * (n - a)) as real
  {
    MulCompare(1.0 - e, 0.0, d);
    RealProduct(n, n - a);
    KappaAlgebra(o, e, n as real, a as real, d, k, gap as real);
  }

  lemma KappaAlgebra(o: real, e: real, n: real, a: real, d: real, k: real, gap: real)
    requires n > 0.0 && o == a / n && e < 1.0 && d == n * n
    requires k == (o - e) / (1.0 - e) && gap == (1.0 - e) * d
    ensures (1.0 - k) * gap == n * (n - a)
  {
    var f := 1.0 - e;
    assert k * f == o - e;
    RealDistribute(1.0, -k, 1.0 - k, f);
    assert (1.0 - k) * f == 1.0 - o;
    Associate(1.0 - k, f, d);
    assert o * n == a;
    Associate(1.0 - o, n, n);
    RealDistribute(1.0, -o, 1.0 - o, n);
  }

  lemma Associate(x: real, y: real, z: real)
    ensures x * (y * z) == (x * y) * z
  {
  }

  lemma AlphaEquation(m: ConfusionMatrix)
    requires WellFormed(m) && Alpha(m).Some?
    ensures N(m) >= 2 && 4 * (N(m) * N(m)) > Squares(m, m.labels)
    ensures (1.0 - Alpha(m).value) * (4 * (N(m) * N(m)) - Squares(m, m.labels)) as real
            == ((2 * N(m) - 1) * (2 * (N(m) - Agreed(m)))) as real
  {
    hide OffDiagonal, Coincidences, Products, Squares, WellFormed, SumWhere;
    ExpectedDisagreement(m);
    AlphaUndefinedForOneCategory(m);
    SquaresBelow(m);
    TimesQuotient(Alpha(m).value, ((2 * N(m) - 1) * (2 * (N(m) - Agreed(m)))) as real,
                  (4 * (N(m) * N(m)) - Squares(m, m.labels)) as real);
  }

  lemma SquaresBelow(m: ConfusionMatrix)
    requires WellFormed(m) && N(m) >= 2 && |m.labels| != 1
    ensures 4 * (N(m) * N(m)) > Squares(m, m.labels)
  {
    SomeLabel(m);
    SquaresGap(m);
  }

  lemma TimesQuotient(v: real, x: real, y: real)
    requires y > 0.0 && v == 1.0 - x / y
    ensures (1.0 - v) * y == x
  {
  }

  // ----- bounds -----

  lemma KappaBounds(m: ConfusionMatrix)
    requires WellFormed(m) && Kappa(m).Some?
    ensures -1.0 <= Kappa(m).value <= 1.0
    ensures Kappa(m).value == 1.0 <==> SumWhere(m.counts, Disagreements) == 0
  {
    hide Kappa, Products, Squares, WellFormed, SumWhere;
    KappaEquation(m);
    MatrixBounds(m);
    AgreeOrDisagree(m.counts);
    KappaRange(Kappa(m).value, N(m), Agreed(m), Products(m, m.labels), Squares(m, m.labels));
  }

  lemma KappaRange(k: real, n: int, a: int, p: int, s: int)
    requires n >= 2 && a <= n && p < n * n && 4 * p <= s <= 2 * (n * n) + 2 * (n * a)
    requires (1.0 - k) * (n * n - p) as real == (n * (n - a)) as real
    ensures -1.0 <= k <= 1.0 && (k == 1.0 <==> n == a)
  {
    NonNegativeProduct(n, n - a);
    Distribute(n, -a, n - a, n);
    FromProduct(1.0 - k, n * n - p, n * (n - a));
  }

  lemma NonNegativeProduct(x: int, y: int)
    requires x > 0 && y >= 0
    ensures x * y >= 0 && (x * y == 0 <==> y == 0)
  {
  }

  lemma AlphaBounds(m: ConfusionMatrix)
    requires WellFormed(m) && Alpha(m).Some?
    ensures -1.0 < Alpha(m).value <= 1.0
    ensures Alpha(m).value == 1.0 <==> SumWhere(m.counts, Disagreements) == 0
  {
    hide Alpha, Products, Squares, WellFormed, SumWhere;
    AlphaEquation(m);
    MatrixBounds(m);
    AgreeOrDisagree(m.counts);
    assert N(m) == Agreed(m) <==> SumWhere(m.counts, Disagreements) == 0;
    AlphaRange(Alpha(m).value, N(m), Agreed(m), Squares(m, m.labels));
  }

  lemma AlphaRange(v: real, n: int, a: int, s: int)
    requires n >= 2 && a <= n && s < 4 * (n * n) && s <= 2 * (n * n) + 2 * (n * a)
    requires (1.0 - v) * (4 * (n * n) - s) as real == ((2 * n - 1) * (2 * (n - a))) as real
    ensures -1.0 < v <= 1.0 && (v == 1.0 <==> n == a)
  {
    NonNegativeProduct(2 * n - 1, 2 * (n - a));
    SampleCorrection(n, a, s);
    FromProduct(1.0 - v, 4 * (n * n) - s, (2 * n - 1) * (2 * (n - a)));
  }

  lemma SampleCorrection(n: int, a: int, s: int)
    requires a <= n && s < 4 * (n * n) && s <= 2 * (n * n) + 2 * (n * a)
    ensures (2 * n - 1) * (2 * (n - a)) < 2 * (4 * (n * n) - s)
  {
    Distribute(2 * n, -1, 2 * n - 1, 2 * (n - a));
    Distribute(n, -a, n - a, n);
  }

  // x * den == num locates x.
  lemma FromProduct(x: real, den: int, num: int)
    requires den > 0 && x * den as real == num as real && num >= 0
    ensures x >= 0.0 && (x == 0.0 <==> num == 0)
    ensures num <= 2 * den ==> x <= 2.0
    ensures num < 2 * den ==> x < 2.0
  {
    MulCompare(x, 0.0, den as real);
    MulCompare(x, 2.0, den as real);
  }

  // Kappa's disagreement is at most alpha's, up to the sample-size correction.
  lemma KappaAgainstAlpha(m: ConfusionMatrix)
    requires WellFormed(m) && Kappa(m).Some? && Alpha(m).Some?
    ensures (2 * N(m) - 1) as real * (1.0 - Kappa(m).value) <= (2 * N(m)) as real * (1.0 - Alpha(m).value)
  {
    hide Kappa, Alpha, Products, Squares, WellFormed, SumWhere;
    KappaEquation(m);
    AlphaEquation(m);
    MatrixBounds(m);
    AgainstAlpha(Kappa(m).value, Alpha(m).value, N(m), Agreed(m), Products(m, m.labels), Squares(m, m.labels));
  }

  lemma AgainstAlpha(k: real, v: real, n: int, a: int, p: int, s: int)
    requires n >= 2 && a <= n && p < n * n && 4 * p <= s < 4 * (n * n)
    requires (1.0 - k) * (n * n - p) as real == (n * (n - a)) as real
    requires (1.0 - v) * (4 * (n * n) - s) as real == ((2 * n - 1) * (2 * (n - a))) as real
    ensures (2 * n - 1) as real * (1.0 - k) <= (2 * n) as real * (1.0 - v)
  {
    RealProduct(n, n - a);
    RealProduct(2 * n - 1, 2 * (n - a));
    CrossCheck(1.0 - k, 1.0 - v, n as real, (n - a) as real, (n * n - p) as real, (4 * (n * n) - s) as real);
  }

  lemma CrossCheck(x: real, y: real, n: real, d: real, p: real, q: real)
    requires n >= 1.0 && d >= 0.0 && p > 0.0 && 0.0 < q <= 4.0 * p
    requires x * p == n * d && y * q == (2.0 * n - 1.0) * (2.0 * d)
    ensures (2.0 * n - 1.0) * x <= (2.0 * n) * y
  {
    var c := 2.0 * n - 1.0;
    MulCompare(x, 0.0, p);
    var cx, ny := c * x, (2.0 * n) * y;
    // c x q <= 4 c x p == 4 c n d == 2 n y q
    assert cx >= 0.0;
    assert cx * q <= cx * (4.0 * p) by { MulUnder(q, 4.0 * p, cx); }
    assert cx * p == c * (n * d) by { Associate(c, x, p); }
    assert ny * q == (2.0 * n) * (c * (2.0 * d)) by { Associate(2.0 * n, y, q); }
    Shuffle(n, c, d);
    MulCompare(cx, ny, q);
  }

  lemma MulUnder(x: real, y: real, z: real)
    requires x <= y && z >= 0.0
    ensures z * x <= z * y
  {
    assert z * (y - x) >= 0.0;
  }

  lemma Shuffle(n: real, c: real, d: real)
    ensures (2.0 * n) * (c * (2.0 * d)) == 4.0 * (c * (n * d))
  {
  }

  // ----- swapping the annotators -----

  lemma {:induction false} SwapMirrors(pairs: seq<LabelPair>, q: Query)
    ensures CountWhere(Swapped(pairs), q) == CountWhere(pairs, q.Mirror())
  {
    if pairs != [] {
      var before := pairs[..|pairs| - 1];
      SwapMirrors(before, q);
      assert Swapped(pairs)[..|pairs| - 1] == Swapped(before);
    }
  }

  lemma {:induction false} SwapExpected(a: seq<Entry>, b: seq<Entry>, labels: seq<string>, n: nat)
    requires n > 0
    requires forall x :: SumWhere(a, LeftIs(x)) == SumWhere(b, RightIs(x)) && SumWhere(a, RightIs(x)) == SumWhere(b, LeftIs(x))
    ensures ExpectedAgreement(a, labels, n) == ExpectedAgreement(b, labels, n)
  {
    if labels != [] { SwapExpected(a, b, labels[..|labels| - 1], n); }
  }

  lemma {:induction false} SameRow(a: seq<Entry>, b: seq<Entry>, x: string, labels: seq<string>)
    requires forall y :: SumWhere(a, LeftIs(y)) == SumWhere(b, LeftIs(y))
    ensures OffDiagonalRow(a, x, labels) == OffDiagonalRow(b, x, labels)
  {
    if labels != [] { SameRow(a, b, x, labels[1..]); }
  }

  lemma {:induction false} SameOffDiagonal(a: seq<Entry>, b: seq<Entry>, rows: seq<string>, labels: seq<string>)
    requires forall y :: SumWhere(a, LeftIs(y)) == SumWhere(b, LeftIs(y))
    ensures OffDiagonal(a, rows, labels) == OffDiagonal(b, rows, labels)
  {
    if rows != [] {
      SameRow(a, b, rows[0], labels);
      SameOffDiagonal(a, b, rows[1..], labels);
    }
  }

  // Two matrices that mirror each other query by query.
  ghost predicate Mirrored(a: ConfusionMatrix, b: ConfusionMatrix) {
    && a.labels == b.labels
    && forall q :: SumWhere(a.counts, q) == SumWhere(b.counts, q.Mirror())
  }

  lemma SwapIsMirrored(pairs: seq<LabelPair>)
    ensures Mirrored(ConfusionOf(Swapped(pairs)), ConfusionOf(pairs))
  {
    SwapKeepsLabels(pairs);
    forall q ensures SumWhere(CountsOf(Swapped(pairs)), q) == SumWhere(CountsOf(pairs), q.Mirror()) {
      CountsAreCounts(Swapped(pairs), q);
      CountsAreCounts(pairs, q.Mirror());
      SwapMirrors(pairs, q);
    }
  }

  lemma MirrorKeepsKappa(a: ConfusionMatrix, b: ConfusionMatrix)
    requires Mirrored(a, b)
    ensures Kappa(a) == Kappa(b)
  {
    assert N(a) == N(b) by { assert All.Mirror() == All; }
    assert Agreed(a) == Agreed(b) by { assert Agreements.Mirror() == Agreements; }
    forall x ensures SumWhere(a.counts, LeftIs(x)) == SumWhere(b.counts, RightIs(x))
      ensures SumWhere(a.counts, RightIs(x)) == SumWhere(b.counts, LeftIs(x))
    {
      assert LeftIs(x).Mirror() == RightIs(x) && RightIs(x).Mirror() == LeftIs(x);
    }
    if N(a) > 0 { SwapExpected(a.counts, b.counts, a.labels, N(a)); }
  }

  lemma MirrorKeepsAlpha(a: ConfusionMatrix, b: ConfusionMatrix)
    requires Mirrored(a, b)
    ensures Alpha(a) == Alpha(b)
  {
    assert N(a) == N(b) by { assert All.Mirror() == All; }
    var c, d := Coincidences(a.counts), Coincidences(b.counts);
    forall q ensures SumWhere(c, q) == SumWhere(d, q) {
      CoincidencesMirror(a.counts, q);
      CoincidencesMirror(b.counts, q);
      assert q.Mirror().Mirror() == q;
    }
    SameOffDiagonal(c, d, a.labels, a.labels);
  }

  lemma CoefficientsAreSymmetric(pairs: seq<LabelPair>)
    ensures Kappa(ConfusionOf(Swapped(pairs))) == Kappa(ConfusionOf(pairs))
    ensures Alpha(ConfusionOf(Swapped(pairs))) == Alpha(ConfusionOf(pairs))
  {
    SwapIsMirrored(pairs);
    MirrorKeepsKappa(ConfusionOf(Swapped(pairs)), ConfusionOf(pairs));
    MirrorKeepsAlpha(ConfusionOf(Swapped(pairs)), ConfusionOf(pairs));
  }

  lemma {:induction false} SwapKeepsLabels(pairs: seq<LabelPair>)
    ensures LabelsOf(Swapped(pairs)) == LabelsOf(pairs)
  {
    if pairs != [] {
      var before := pairs[..|pairs| - 1];
      SwapKeepsLabels(before);
      assert Swapped(pairs)[..|pairs| - 1] == Swapped(before);
    }
  }
}
