// Agreement coefficients over matched events: the confusion matrix, Cohen's
// kappa and Krippendorff's alpha for nominal data.
module Measures {
  import opened Taxonomy
  import opened Arithmetic
  import opened Ordering

  // One entry of an insertion-ordered dictionary from label pairs to counts.
  datatype Entry = Entry(left: string, right: string, count: nat)

  datatype ConfusionMatrix = ConfusionMatrix(counts: seq<Entry>, labels: seq<string>)

  // The conditions under which the code sums counts.
  datatype Query =
    | All | Agreements | Disagreements
    | LeftIs(name: string) | RightIs(name: string)
    | Exactly(l: string, r: string)
    | LeftOnly(name: string) | RightOnly(name: string)
  {
    predicate Holds(a: string, b: string) {
      match this
      case All => true
      case Agreements => a == b
      case Disagreements => a != b
      case LeftIs(x) => a == x
      case RightIs(x) => b == x
      case Exactly(x, y) => a == x && b == y
      case LeftOnly(x) => a == x && b != x
      case RightOnly(x) => b == x && a != x
    }

    // The same condition with the annotators swapped.
    function Mirror(): Query {
      match this
      case LeftIs(x) => RightIs(x)
      case RightIs(x) => LeftIs(x)
      case Exactly(x, y) => Exactly(y, x)
      case LeftOnly(x) => RightOnly(x)
      case RightOnly(x) => LeftOnly(x)
      case _ => this
    }
  }

  function SumWhere(counts: seq<Entry>, q: Query): nat {
    if counts == [] then 0
    else (if q.Holds(counts[0].left, counts[0].right) then counts[0].count else 0) + SumWhere(counts[1..], q)
  }

  // counts[(l, r)] = counts.get((l, r), 0) + k
  function AddCount(counts: seq<Entry>, l: string, r: string, k: nat): seq<Entry> {
    if counts == [] then [Entry(l, r, k)]
    else if counts[0].left == l && counts[0].right == r then [Entry(l, r, counts[0].count + k)] + counts[1..]
    else [counts[0]] + AddCount(counts[1..], l, r, k)
  }

  lemma {:induction false} AddCountSum(counts: seq<Entry>, l: string, r: string, k: nat, q: Query)
    ensures SumWhere(AddCount(counts, l, r, k), q) == SumWhere(counts, q) + if q.Holds(l, r) then k else 0
  {
    if counts != [] && !(counts[0].left == l && counts[0].right == r) {
      AddCountSum(counts[1..], l, r, k, q);
    }
  }

  // counts.get((l, r), 0)
  function Get(counts: seq<Entry>, l: string, r: string): nat {
    if counts == [] then 0
    else if counts[0].left == l && counts[0].right == r then counts[0].count
    else Get(counts[1..], l, r)
  }

  lemma {:induction false} AddCountGet(counts: seq<Entry>, l: string, r: string, k: nat, a: string, b: string)
    ensures Get(AddCount(counts, l, r, k), a, b) == Get(counts, a, b) + if a == l && b == r then k else 0
  {
    if counts != [] && !(counts[0].left == l && counts[0].right == r) {
      AddCountGet(counts[1..], l, r, k, a, b);
    }
  }

  // (both, left only, right only) for one label.
  function ForLabel(m: ConfusionMatrix, x: string): (nat, nat, nat) {
    (Get(m.counts, x, x), SumWhere(m.counts, LeftOnly(x)), SumWhere(m.counts, RightOnly(x)))
  }

  // The three numbers of a label account for its two marginals.
  lemma ForLabelIsMarginals(pairs: seq<LabelPair>, x: string)
    ensures var (both, leftOnly, rightOnly) := ForLabel(ConfusionOf(pairs), x);
            && both + leftOnly == CountWhere(pairs, LeftIs(x))
            && both + rightOnly == CountWhere(pairs, RightIs(x))
            && both == CountWhere(pairs, Exactly(x, x))
  {
    GetIsCount(pairs, x, x);
    CountsAreCounts(pairs, LeftOnly(x));
    CountsAreCounts(pairs, RightOnly(x));
    SplitMarginals(pairs, x);
  }

  lemma {:induction false} GetIsCount(pairs: seq<LabelPair>, a: string, b: string)
    ensures Get(CountsOf(pairs), a, b) == CountWhere(pairs, Exactly(a, b))
  {
    if pairs != [] {
      var last := pairs[|pairs| - 1];
      GetIsCount(pairs[..|pairs| - 1], a, b);
      AddCountGet(CountsOf(pairs[..|pairs| - 1]), last.0, last.1, 1, a, b);
    }
  }

  lemma {:induction false} SplitMarginals(pairs: seq<LabelPair>, x: string)
    ensures CountWhere(pairs, LeftIs(x)) == CountWhere(pairs, Exactly(x, x)) + CountWhere(pairs, LeftOnly(x))
    ensures CountWhere(pairs, RightIs(x)) == CountWhere(pairs, Exactly(x, x)) + CountWhere(pairs, RightOnly(x))
  {
    if pairs != [] { SplitMarginals(pairs[..|pairs| - 1], x); }
  }

  type LabelPair = (string, string)

  function CountWhere(pairs: seq<LabelPair>, q: Query): nat {
    if pairs == [] then 0
    else CountWhere(pairs[..|pairs| - 1], q) + if q.Holds(pairs[|pairs| - 1].0, pairs[|pairs| - 1].1) then 1 else 0
  }

  function LabelsOf(pairs: seq<LabelPair>): set<string> {
    if pairs == [] then {}
    else LabelsOf(pairs[..|pairs| - 1]) + {pairs[|pairs| - 1].0, pairs[|pairs| - 1].1}
  }

  function CountsOf(pairs: seq<LabelPair>): seq<Entry> {
    if pairs == [] then []
    else var last := pairs[|pairs| - 1];
      AddCount(CountsOf(pairs[..|pairs| - 1]), last.0, last.1, 1)
  }

  function ConfusionOf(pairs: seq<LabelPair>): ConfusionMatrix {
    ConfusionMatrix(CountsOf(pairs), SortedSet(LabelsOf(pairs)))
  }

  // Every sum over the matrix counts the pairs it was built from.
  method Confusion(pairs: seq<LabelPair>) returns (m: ConfusionMatrix)
    ensures m == ConfusionOf(pairs)
    ensures forall q :: SumWhere(m.counts, q) == CountWhere(pairs, q)
  {
    var counts: seq<Entry> := [];
    var labels: set<string> := {};
    for k := 0 to |pairs|
      invariant counts == CountsOf(pairs[..k])
      invariant labels == LabelsOf(pairs[..k])
    {
      assert pairs[..k + 1][..k] == pairs[..k];
      assert pairs[..k + 1] == pairs[..k] + [pairs[k]];
      counts := AddCount(counts, pairs[k].0, pairs[k].1, 1);
      labels := labels + {pairs[k].0, pairs[k].1};
    }
    assert pairs[..|pairs|] == pairs;
    m := ConfusionMatrix(counts, SortedSet(labels));
    AllCountsAreCounts(pairs);
  }

  lemma AllCountsAreCounts(pairs: seq<LabelPair>)
    ensures forall q :: SumWhere(CountsOf(pairs), q) == CountWhere(pairs, q)
  {
    forall q ensures SumWhere(CountsOf(pairs), q) == CountWhere(pairs, q) {
      CountsAreCounts(pairs, q);
    }
  }

  lemma {:induction false} CountsAreCounts(pairs: seq<LabelPair>, q: Query)
    ensures SumWhere(CountsOf(pairs), q) == CountWhere(pairs, q)
  {
    if pairs != [] {
      var last := pairs[|pairs| - 1];
      CountsAreCounts(pairs[..|pairs| - 1], q);
      AddCountSum(CountsOf(pairs[..|pairs| - 1]), last.0, last.1, 1, q);
    }
  }

  // ----- well-formed matrices -----

  ghost predicate Distinct(labels: seq<string>) {
    forall i, j :: 0 <= i < j < |labels| ==> labels[i] != labels[j]
  }

  // The labels are distinct, cover every entry, and each is in use.
  ghost predicate WellFormed(m: ConfusionMatrix) {
    && Distinct(m.labels)
    && (forall e :: e in m.counts ==> e.left in m.labels && e.right in m.labels)
    && (forall x :: x in m.labels ==> SumWhere(m.counts, LeftIs(x)) + SumWhere(m.counts, RightIs(x)) > 0)
  }

  lemma ConfusionIsWellFormed(pairs: seq<LabelPair>)
    ensures WellFormed(ConfusionOf(pairs))
  {
    EntriesAreLabelled(pairs);
    forall x | x in LabelsOf(pairs)
      ensures SumWhere(CountsOf(pairs), LeftIs(x)) + SumWhere(CountsOf(pairs), RightIs(x)) > 0
    {
      CountsAreCounts(pairs, LeftIs(x));
      CountsAreCounts(pairs, RightIs(x));
      LabelsAreUsed(pairs, x);
      var k :| 0 <= k < |pairs| && (pairs[k].0 == x || pairs[k].1 == x);
      UsedIsCounted(pairs, k, x);
    }
  }

  lemma {:induction false} LabelsAreUsed(pairs: seq<LabelPair>, x: string)
    ensures x in LabelsOf(pairs) <==> exists k :: 0 <= k < |pairs| && (pairs[k].0 == x || pairs[k].1 == x)
  {
    if pairs != [] {
      LabelsAreUsed(pairs[..|pairs| - 1], x);
    }
  }

  lemma {:induction false} UsedIsCounted(pairs: seq<LabelPair>, k: nat, x: string)
    requires k < |pairs| && (pairs[k].0 == x || pairs[k].1 == x)
    ensures CountWhere(pairs, LeftIs(x)) + CountWhere(pairs, RightIs(x)) > 0
    decreases |pairs|
  {
    if k < |pairs| - 1 { UsedIsCounted(pairs[..|pairs| - 1], k, x); }
  }

  lemma {:induction false} EntriesAreLabelled(pairs: seq<LabelPair>)
    ensures forall e :: e in CountsOf(pairs) ==> e.left in LabelsOf(pairs) && e.right in LabelsOf(pairs)
  {
    if pairs != [] {
      var before := pairs[..|pairs| - 1];
      var last := pairs[|pairs| - 1];
      EntriesAreLabelled(before);
      AddCountEntries(CountsOf(before), last.0, last.1, 1);
      assert pairs == before + [last];
      assert last in pairs;
    }
  }

  lemma {:induction false} AddCountEntries(counts: seq<Entry>, l: string, r: string, k: nat)
    ensures forall e :: e in AddCount(counts, l, r, k) ==>
              (e.left == l && e.right == r) || exists d :: d in counts && d.left == e.left && d.right == e.right
  {
    if counts != [] && !(counts[0].left == l && counts[0].right == r) {
      AddCountEntries(counts[1..], l, r, k);
      forall e | e in AddCount(counts, l, r, k) && !(e.left == l && e.right == r)
        ensures exists d :: d in counts && d.left == e.left && d.right == e.right
      {
        if e == counts[0] { assert e in counts; } else {
          var d :| d in counts[1..] && d.left == e.left && d.right == e.right;
          assert d in counts;
        }
      }
    } else if counts != [] {
      forall e | e in AddCount(counts, l, r, k) && !(e.left == l && e.right == r)
        ensures exists d :: d in counts && d.left == e.left && d.right == e.right
      {
        assert e in counts[1..] && e in counts;
      }
    }
  }

  // ----- sums over labels -----

  function LeftTotal(counts: seq<Entry>, labels: seq<string>): nat {
    if labels == [] then 0 else SumWhere(counts, LeftIs(labels[0])) + LeftTotal(counts, labels[1..])
  }

  function RightTotal(counts: seq<Entry>, labels: seq<string>): nat {
    if labels == [] then 0 else SumWhere(counts, RightIs(labels[0])) + RightTotal(counts, labels[1..])
  }

  function AgreedTotal(counts: seq<Entry>, labels: seq<string>): nat {
    if labels == [] then 0 else SumWhere(counts, Exactly(labels[0], labels[0])) + AgreedTotal(counts, labels[1..])
  }

  lemma {:induction false} TotalsAddEntry(e: Entry, counts: seq<Entry>, labels: seq<string>)
    requires Distinct(labels)
    ensures LeftTotal([e] + counts, labels) == LeftTotal(counts, labels) + if e.left in labels then e.count else 0
    ensures RightTotal([e] + counts, labels) == RightTotal(counts, labels) + if e.right in labels then e.count else 0
    ensures AgreedTotal([e] + counts, labels) ==
            AgreedTotal(counts, labels) + if e.left in labels && e.left == e.right then e.count else 0
  {
    if labels != [] {
      TotalsAddEntry(e, counts, labels[1..]);
      assert labels[0] !in labels[1..];
      assert ([e] + counts)[1..] == counts;
    }
  }

  // Over labels that cover the matrix, the marginals add up to the total.
  lemma {:induction false} MarginalsAddUp(counts: seq<Entry>, labels: seq<string>)
    requires Distinct(labels)
    requires forall e :: e in counts ==> e.left in labels && e.right in labels
    ensures LeftTotal(counts, labels) == RightTotal(counts, labels) == SumWhere(counts, All)
    ensures AgreedTotal(counts, labels) == SumWhere(counts, Agreements)
  {
    if counts == [] {
      EmptyTotals(labels);
    } else {
      MarginalsAddUp(counts[1..], labels);
      assert counts == [counts[0]] + counts[1..];
      TotalsAddEntry(counts[0], counts[1..], labels);
    }
  }

  lemma {:induction false} EmptyTotals(labels: seq<string>)
    ensures LeftTotal([], labels) == RightTotal([], labels) == AgreedTotal([], labels) == 0
  {
    if labels != [] { EmptyTotals(labels[1..]); }
  }

  // What one label's two marginals can be, given how often it was agreed on.
  lemma {:induction false} MarginalBounds(counts: seq<Entry>, x: string)
    ensures var l, r, b, n := SumWhere(counts, LeftIs(x)), SumWhere(counts, RightIs(x)),
                              SumWhere(counts, Exactly(x, x)), SumWhere(counts, All);
            b <= l <= n && b <= r <= n && l + r <= n + b
  {
    if counts != [] { MarginalBounds(counts[1..], x); }
  }

  lemma {:induction false} AgreeOrDisagree(counts: seq<Entry>)
    ensures SumWhere(counts, Agreements) + SumWhere(counts, Disagreements) == SumWhere(counts, All)
  {
    if counts != [] { AgreeOrDisagree(counts[1..]); }
  }

  // ----- Cohen's kappa -----

  function RealAbs(x: real): real { if x < 0.0 then -x else x }

  // math.isclose with its default relative tolerance.
  predicate IsClose(a: real, b: real) {
    var larger := if RealAbs(a) >= RealAbs(b) then RealAbs(a) else RealAbs(b);
    RealAbs(a - b) <= 0.000000001 * larger
  }

  function ObservedAgreement(m: ConfusionMatrix): real {
    var n := SumWhere(m.counts, All);
    if n != 0 then SumWhere(m.counts, Agreements) as real / n as real else 1.0
  }

  function ChanceTerm(counts: seq<Entry>, x: string, total: nat): real
    requires total > 0
  {
    (SumWhere(counts, LeftIs(x)) as real / total as real) * (SumWhere(counts, RightIs(x)) as real / total as real)
  }

  function ExpectedAgreement(counts: seq<Entry>, labels: seq<string>, total: nat): real
    requires total > 0
  {
    if labels == [] then 0.0
    else ExpectedAgreement(counts, labels[..|labels| - 1], total) + ChanceTerm(counts, labels[|labels| - 1], total)
  }

  function Kappa(m: ConfusionMatrix): Option<real> {
    var n := SumWhere(m.counts, All);
    if n < 2 then None
    else
      var expected := ExpectedAgreement(m.counts, m.labels, n);
      if IsClose(expected, 1.0) then None
      else Some((ObservedAgreement(m) - expected) / (1.0 - expected))
  }

  method CohensKappa(m: ConfusionMatrix) returns (k: Option<real>)
    ensures k == Kappa(m)
  {
    var total := SumWhere(m.counts, All);
    if total < 2 {
      return None;
    }
    var observed := ObservedAgreement(m);
    var expected := 0.0;
    for i := 0 to |m.labels|
      invariant expected == ExpectedAgreement(m.counts, m.labels[..i], total)
    {
      assert m.labels[..i + 1][..i] == m.labels[..i];
      var leftMarginal := SumWhere(m.counts, LeftIs(m.labels[i])) as real / total as real;
      var rightMarginal := SumWhere(m.counts, RightIs(m.labels[i])) as real / total as real;
      expected := expected + leftMarginal * rightMarginal;
    }
    assert m.labels[..|m.labels|] == m.labels;
    if IsClose(expected, 1.0) {
      return None;
    }
    k := Some((observed - expected) / (1.0 - expected));
  }

  // ----- Krippendorff's alpha -----

  function Coincidences(counts: seq<Entry>): seq<Entry> {
    if counts == [] then []
    else
      var e := counts[|counts| - 1];
      AddCount(AddCount(Coincidences(counts[..|counts| - 1]), e.left, e.right, e.count), e.right, e.left, e.count)
  }

  function OffDiagonalRow(counts: seq<Entry>, a: string, labels: seq<string>): nat {
    if labels == [] then 0
    else (if labels[0] != a then SumWhere(counts, LeftIs(a)) * SumWhere(counts, LeftIs(labels[0])) else 0)
         + OffDiagonalRow(counts, a, labels[1..])
  }

  function OffDiagonal(counts: seq<Entry>, rows: seq<string>, columns: seq<string>): nat {
    if rows == [] then 0 else OffDiagonalRow(counts, rows[0], columns) + OffDiagonal(counts, rows[1..], columns)
  }

  function Alpha(m: ConfusionMatrix): Option<real> {
    if SumWhere(m.counts, All) < 2 then None
    else
      var coincidences := Coincidences(m.counts);
      var n := SumWhere(coincidences, All);
      var expected := OffDiagonal(coincidences, m.labels, m.labels);
      if expected == 0 then None
      else Some(1.0 - ((n - 1) * SumWhere(coincidences, Disagreements)) as real / expected as real)
  }

  method KrippendorffsAlpha(m: ConfusionMatrix) returns (a: Option<real>)
    ensures a == Alpha(m)
  {
    if SumWhere(m.counts, All) < 2 {
      return None;
    }
    var coincidences: seq<Entry> := [];
    for k := 0 to |m.counts|
      invariant coincidences == Coincidences(m.counts[..k])
    {
      assert m.counts[..k + 1][..k] == m.counts[..k];
      var e := m.counts[k];
      coincidences := AddCount(coincidences, e.left, e.right, e.count);
      coincidences := AddCount(coincidences, e.right, e.left, e.count);
    }
    assert m.counts[..|m.counts|] == m.counts;
    var n: int := SumWhere(coincidences, All);
    var observed: int := SumWhere(coincidences, Disagreements);
    var expected := OffDiagonal(coincidences, m.labels, m.labels);
    if expected == 0 {
      return None;
    }
    a := Some(1.0 - ((n - 1) * observed) as real / expected as real);
  }

  // Each matched pair enters the coincidence matrix in both directions.
  lemma {:induction false} CoincidencesMirror(counts: seq<Entry>, q: Query)
    ensures SumWhere(Coincidences(counts), q) == SumWhere(counts, q) + SumWhere(counts, q.Mirror())
  {
    if counts != [] {
      var n := |counts| - 1;
      var e, before := counts[n], counts[..n];
      CoincidencesMirror(before, q);
      var once := AddCount(Coincidences(before), e.left, e.right, e.count);
      AddCountSum(Coincidences(before), e.left, e.right, e.count, q);
      AddCountSum(once, e.right, e.left, e.count, q);
      assert counts == before + [e];
      SumAppend(before, e, q);
      SumAppend(before, e, q.Mirror());
    }
  }

  lemma {:induction false} SumAppend(counts: seq<Entry>, e: Entry, q: Query)
    ensures SumWhere(counts + [e], q) == SumWhere(counts, q) + if q.Holds(e.left, e.right) then e.count else 0
  {
    if counts != [] {
      SumAppend(counts[1..], e, q);
      assert (counts + [e])[1..] == counts[1..] + [e];
    }
  }
}
