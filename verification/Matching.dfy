// Which of A's events are which of B's.
module Matching {
  import opened Taxonomy
  import opened Arithmetic
  import opened Ordering
  import opened Records
  import opened NonCrossing

  datatype Criterion = IouCriterion | MidpointTolerance

  datatype Rule = Rule(criterion: Criterion, iouThreshold: real, toleranceMs: int)

  datatype MatchedPair = MatchedPair(left: Annotation, right: Annotation, iou: real)

  datatype Matching = Matching(
    pairs: seq<MatchedPair>, leftOnly: seq<Annotation>, rightOnly: seq<Annotation>,
    criterion: Criterion, threshold: real)

  function AnnotationKey(a: Annotation): Key {
    Key(a.interval.start, a.interval.end, a.eventType.Value())
  }

  function Ordered(annotations: seq<Annotation>): seq<Annotation> {
    Sort(annotations, AnnotationKey)
  }

  function Midpoint(a: Interval): real { (a.start + a.end) as real / 2.0 }

  predicate Admits(rule: Rule, a: Interval, b: Interval) {
    match rule.criterion
    case IouCriterion => Iou(a, b) >= rule.iouThreshold
    case MidpointTolerance => Abs(Midpoint(a) - Midpoint(b)) <= rule.toleranceMs as real
  }

  // Admissible pairs and their scores: scored by overlap under either criterion.
  function WeightsOf(left: seq<Annotation>, right: seq<Annotation>, rule: Rule): Weights {
    map i: nat, j: nat | i < |left| && j < |right| && Admits(rule, left[i].interval, right[j].interval)
      :: (i, j) := Iou(left[i].interval, right[j].interval)
  }

  method ComputeWeights(left: seq<Annotation>, right: seq<Annotation>, rule: Rule) returns (w: Weights)
    ensures w == WeightsOf(left, right, rule)
  {
    w := map[];
    for i := 0 to |left|
      invariant forall p :: p in w <==>
                  && p.0 < i && p.1 < |right| && Admits(rule, left[p.0].interval, right[p.1].interval)
      invariant forall p :: p in w ==> w[p] == Iou(left[p.0].interval, right[p.1].interval)
    {
      for j := 0 to |right|
        invariant forall p :: p in w <==>
                    && (p.0 < i || (p.0 == i && p.1 < j)) && p.1 < |right|
                    && Admits(rule, left[p.0].interval, right[p.1].interval)
        invariant forall p :: p in w ==> w[p] == Iou(left[p.0].interval, right[p.1].interval)
      {
        if rule.criterion.IouCriterion? {
          var score := Iou(left[i].interval, right[j].interval);
          if score >= rule.iouThreshold {
            w := w[(i, j) := score];
          }
        } else if Abs(Midpoint(left[i].interval) - Midpoint(right[j].interval)) <= rule.toleranceMs as real {
          w := w[(i, j) := Iou(left[i].interval, right[j].interval)];
        }
      }
    }
  }

  // Which pairs are admitted: under the tolerance, those whose midpoints differ by
  // at most it, taken on the doubled midpoints to stay in whole milliseconds.
  lemma WeightsExactly(left: seq<Annotation>, right: seq<Annotation>, rule: Rule)
    ensures forall i: nat, j: nat :: (i, j) in WeightsOf(left, right, rule) <==>
              && i < |left| && j < |right|
              && var a, b := left[i].interval, right[j].interval;
                 match rule.criterion
                 case IouCriterion => Iou(a, b) >= rule.iouThreshold
                 case MidpointTolerance =>
                   -2 * rule.toleranceMs <= (a.start + a.end) - (b.start + b.end) <= 2 * rule.toleranceMs
    ensures forall i: nat, j: nat :: (i, j) in WeightsOf(left, right, rule) ==>
              i < |left| && j < |right| && WeightsOf(left, right, rule)[(i, j)] == Iou(left[i].interval, right[j].interval)
  {
    hide Iou;
    forall i: nat, j: nat | i < |left| && j < |right| && rule.criterion.MidpointTolerance?
      ensures Admits(rule, left[i].interval, right[j].interval) <==>
              -2 * rule.toleranceMs <= (left[i].interval.start + left[i].interval.end)
                                       - (right[j].interval.start + right[j].interval.end) <= 2 * rule.toleranceMs
    {
      HalvedDistance(left[i].interval.start + left[i].interval.end, right[j].interval.start + right[j].interval.end, rule.toleranceMs);
    }
  }

  lemma HalvedDistance(x: int, y: int, tolerance: int)
    ensures Abs(x as real / 2.0 - y as real / 2.0) <= tolerance as real <==> -2 * tolerance <= x - y <= 2 * tolerance
  {
  }

  // By start, then by end, then by the name of the class.
  ghost predicate Temporal(xs: seq<Annotation>) {
    forall i, j :: 0 <= i < j < |xs| ==>
      || xs[i].interval.start < xs[j].interval.start
      || (xs[i].interval.start == xs[j].interval.start
          && (|| xs[i].interval.end < xs[j].interval.end
              || (xs[i].interval.end == xs[j].interval.end && StringLeq(xs[i].eventType.Value(), xs[j].eventType.Value()))))
  }

  function Like(start: int, end: int, name: string): Annotation -> bool {
    (a: Annotation) => a.interval.start == start && a.interval.end == end && a.eventType.Value() == name
  }

  lemma LikeIsKey(start: int, end: int, name: string)
    ensures forall a :: HasKey(AnnotationKey, Key(start, end, name))(a) == Like(start, end, name)(a)
  {
    hide SpeechEventType.Value;
    forall a ensures HasKey(AnnotationKey, Key(start, end, name))(a) == Like(start, end, name)(a) {
      assert AnnotationKey(a) == Key(a.interval.start, a.interval.end, a.eventType.Value());
    }
  }

  // The same annotations in temporal order, indistinguishable ones as they were.
  lemma OrderedIsTemporal(xs: seq<Annotation>)
    ensures multiset(Ordered(xs)) == multiset(xs) && Temporal(Ordered(xs))
    ensures forall start, end, name :: Filter(Ordered(xs), Like(start, end, name)) == Filter(xs, Like(start, end, name))
  {
    SortKeepsElements(xs, AnnotationKey);
    SortIsSorted(xs, AnnotationKey);
    var sorted := Ordered(xs);
    forall i, j | 0 <= i < j < |sorted| ensures KeyLeq(AnnotationKey(sorted[i]), AnnotationKey(sorted[j])) { }
    hide SpeechEventType.Value, KeyLeq, Sort;
    forall start, end, name ensures Filter(sorted, Like(start, end, name)) == Filter(xs, Like(start, end, name)) {
      SortIsStable(xs, AnnotationKey, Key(start, end, name));
      LikeIsKey(start, end, name);
      hide Like, HasKey;
      SameFilter(sorted, HasKey(AnnotationKey, Key(start, end, name)), Like(start, end, name));
      SameFilter(xs, HasKey(AnnotationKey, Key(start, end, name)), Like(start, end, name));
    }
  }

  function PairUp(left: seq<Annotation>, right: seq<Annotation>, ps: Pairs): (r: seq<MatchedPair>)
    requires forall p :: p in ps ==> p.0 < |left| && p.1 < |right|
    ensures |r| == |ps|
    ensures forall k :: 0 <= k < |ps| ==>
              && r[k].left == left[ps[k].0] && r[k].right == right[ps[k].1]
              && r[k].iou == Iou(r[k].left.interval, r[k].right.interval)
  {
    seq(|ps|, k requires 0 <= k < |ps| =>
      assert ps[k] in ps;
      var a, b := left[ps[k].0], right[ps[k].1];
      MatchedPair(a, b, Iou(a.interval, b.interval)))
  }

  // Those of the first n annotations whose position was not taken.
  function Unmatched(xs: seq<Annotation>, taken: set<nat>, n: nat): seq<Annotation>
    requires n <= |xs|
  {
    if n == 0 then []
    else if n - 1 in taken then Unmatched(xs, taken, n - 1)
    else Unmatched(xs, taken, n - 1) + [xs[n - 1]]
  }

  // The annotations left over are those at the positions not taken, in order.
  lemma {:induction false} UnmatchedListed(xs: seq<Annotation>, taken: set<nat>, n: nat) returns (ks: seq<nat>)
    requires n <= |xs|
    ensures Lists(ks, n, (k: nat) => k !in taken) && Picks(Unmatched(xs, taken, n), xs, ks)
  {
    if n == 0 {
      ks := [];
    } else {
      ks := UnmatchedListed(xs, taken, n - 1);
      hide Lists;
      ks := ListsSnoc(ks, n - 1, (k: nat) => k !in taken);
    }
  }

  function First(p: (nat, nat)): nat { p.0 }

  function Second(p: (nat, nat)): nat { p.1 }

  function Elements(ix: seq<nat>): (s: set<nat>)
    ensures forall i :: i in s <==> i in ix
  {
    set i | i in ix
  }

  function Assemble(left: seq<Annotation>, right: seq<Annotation>, ps: Pairs, rule: Rule): Matching
    requires forall p :: p in ps ==> p.0 < |left| && p.1 < |right|
  {
    Matching(
      PairUp(left, right, ps),
      Unmatched(left, Elements(Map(ps, First)), |left|),
      Unmatched(right, Elements(Map(ps, Second)), |right|),
      rule.criterion,
      if rule.criterion.IouCriterion? then rule.iouThreshold else rule.toleranceMs as real)
  }

  function ChosenPairs(left: seq<Annotation>, right: seq<Annotation>, rule: Rule): (ps: Pairs)
    ensures forall p :: p in ps ==> p.0 < |left| && p.1 < |right|
  {
    TracebackIsNearBest(WeightsOf(left, right, rule), |left|, |right|);
    Traceback(WeightsOf(left, right, rule), |left|, |right|)
  }

  function Matched(left: seq<Annotation>, right: seq<Annotation>, rule: Rule): Matching {
    Assemble(Ordered(left), Ordered(right), ChosenPairs(Ordered(left), Ordered(right), rule), rule)
  }

  ghost predicate PairsAt(pairs: seq<MatchedPair>, left: seq<Annotation>, right: seq<Annotation>, ps: Pairs) {
    && |pairs| == |ps|
    && forall k :: 0 <= k < |ps| ==>
         && ps[k].0 < |left| && ps[k].1 < |right|
         && pairs[k].left == left[ps[k].0] && pairs[k].right == right[ps[k].1]
         && pairs[k].iou == Iou(left[ps[k].0].interval, right[ps[k].1].interval)
  }

  function FreeLeft(ps: Pairs): nat -> bool { (i: nat) => forall p :: p in ps ==> p.0 != i }

  function FreeRight(ps: Pairs): nat -> bool { (j: nat) => forall p :: p in ps ==> p.1 != j }

  // ps are the positions of the pairs; everything at another position is left
  // over, in order.
  ghost predicate LeavesOver(m: Matching, left: seq<Annotation>, right: seq<Annotation>, ps: Pairs) {
    && (exists ks :: Lists(ks, |left|, FreeLeft(ps)) && Picks(m.leftOnly, left, ks))
    && (exists ks :: Lists(ks, |right|, FreeRight(ps)) && Picks(m.rightOnly, right, ks))
  }

  lemma AssembleLeavesOver(left: seq<Annotation>, right: seq<Annotation>, ps: Pairs, rule: Rule)
    requires forall p :: p in ps ==> p.0 < |left| && p.1 < |right|
    ensures LeavesOver(Assemble(left, right, ps, rule), left, right, ps)
  {
    var firsts, seconds := Elements(Map(ps, First)), Elements(Map(ps, Second));
    forall i: nat ensures i in firsts <==> !FreeLeft(ps)(i) {
      if p :| p in ps && p.0 == i { var k :| 0 <= k < |ps| && ps[k] == p; assert Map(ps, First)[k] == i; }
    }
    forall j: nat ensures j in seconds <==> !FreeRight(ps)(j) {
      if p :| p in ps && p.1 == j { var k :| 0 <= k < |ps| && ps[k] == p; assert Map(ps, Second)[k] == j; }
    }
    var ks := UnmatchedListed(left, firsts, |left|);
    var ls := UnmatchedListed(right, seconds, |right|);
    ListsSame(ks, |left|, (k: nat) => k !in firsts, FreeLeft(ps));
    ListsSame(ls, |right|, (k: nat) => k !in seconds, FreeRight(ps));
  }

  // The whole procedure. The pairs come from a near-optimal non-crossing
  // matching of the two temporally ordered lists, and the rest is left over.
  method Match(left: seq<Annotation>, right: seq<Annotation>, rule: Rule) returns (m: Matching)
    ensures m == Matched(left, right, rule)
    ensures exists ps: Pairs ::
              && NearOptimal(WeightsOf(Ordered(left), Ordered(right), rule), |left|, |right|, ps)
              && PairsAt(m.pairs, Ordered(left), Ordered(right), ps)
              && LeavesOver(m, Ordered(left), Ordered(right), ps)
    ensures m.criterion == rule.criterion
    ensures m.threshold == match rule.criterion case IouCriterion => rule.iouThreshold case MidpointTolerance => rule.toleranceMs as real
  {
    var orderedLeft, orderedRight := Ordered(left), Ordered(right);
    SortKeepsElements(left, AnnotationKey);
    SortKeepsElements(right, AnnotationKey);
    var weights := ComputeWeights(orderedLeft, orderedRight, rule);
    var indices := OptimalNonCrossing(weights, |orderedLeft|, |orderedRight|);
    m := Assemble(orderedLeft, orderedRight, indices, rule);
    AssembleLeavesOver(orderedLeft, orderedRight, indices, rule);
  }

  // ----- the result accounts for every annotation exactly once -----

  function LeftOf(p: MatchedPair): Annotation { p.left }

  function RightOf(p: MatchedPair): Annotation { p.right }

  lemma MatchPartitionsInputs(left: seq<Annotation>, right: seq<Annotation>, rule: Rule)
    ensures var m := Matched(left, right, rule);
            && multiset(Map(m.pairs, LeftOf)) + multiset(m.leftOnly) == multiset(left)
            && multiset(Map(m.pairs, RightOf)) + multiset(m.rightOnly) == multiset(right)
            && |m.pairs| + |m.leftOnly| == |left| && |m.pairs| + |m.rightOnly| == |right|
  {
    var l, r := Ordered(left), Ordered(right);
    TracebackIsNearBest(WeightsOf(l, r, rule), |l|, |r|);
    SortKeepsElements(left, AnnotationKey);
    SortKeepsElements(right, AnnotationKey);
    AssembledPartition(l, r, ChosenPairs(l, r, rule), WeightsOf(l, r, rule), rule);
  }

  lemma AssembledPartition(l: seq<Annotation>, r: seq<Annotation>, ps: Pairs, w: Weights, rule: Rule)
    requires IsMatching(w, |l|, |r|, ps)
    ensures var m := Assemble(l, r, ps, rule);
            && multiset(Map(m.pairs, LeftOf)) + multiset(m.leftOnly) == multiset(l)
            && multiset(Map(m.pairs, RightOf)) + multiset(m.rightOnly) == multiset(r)
            && |m.pairs| + |m.leftOnly| == |l| && |m.pairs| + |m.rightOnly| == |r|
  {
    var m := Assemble(l, r, ps, rule);
    var ix, jx := Map(ps, First), Map(ps, Second);
    SidePartition(l, ix);
    SidePartition(r, jx);
    assert Map(m.pairs, LeftOf) == Select(l, ix);
    assert Map(m.pairs, RightOf) == Select(r, jx);
  }

  function Select(xs: seq<Annotation>, ix: seq<nat>): (r: seq<Annotation>)
    requires forall k :: 0 <= k < |ix| ==> ix[k] < |xs|
    ensures |r| == |ix| && forall k :: 0 <= k < |ix| ==> r[k] == xs[ix[k]]
  {
    seq(|ix|, k requires 0 <= k < |ix| => xs[ix[k]])
  }

  // The complement of `Unmatched`.
  function Taken(xs: seq<Annotation>, taken: set<nat>, n: nat): seq<Annotation>
    requires n <= |xs|
  {
    if n == 0 then []
    else if n - 1 in taken then Taken(xs, taken, n - 1) + [xs[n - 1]]
    else Taken(xs, taken, n - 1)
  }

  lemma {:induction false} TakenOrUnmatched(xs: seq<Annotation>, taken: set<nat>, n: nat)
    requires n <= |xs|
    ensures multiset(Taken(xs, taken, n)) + multiset(Unmatched(xs, taken, n)) == multiset(xs[..n])
    ensures |Taken(xs, taken, n)| + |Unmatched(xs, taken, n)| == n
  {
    if n > 0 {
      TakenOrUnmatched(xs, taken, n - 1);
      assert xs[..n] == xs[..n - 1] + [xs[n - 1]];
      AddToOne(Taken(xs, taken, n - 1), Unmatched(xs, taken, n - 1), xs[..n - 1], xs[n - 1]);
    }
  }

  lemma AddToOne<T>(t: seq<T>, u: seq<T>, v: seq<T>, x: T)
    requires multiset(t) + multiset(u) == multiset(v)
    ensures multiset(t + [x]) + multiset(u) == multiset(v + [x])
    ensures multiset(t) + multiset(u + [x]) == multiset(v + [x])
  {
  }

  lemma {:induction false} TakenAreSelected(xs: seq<Annotation>, ix: seq<nat>, taken: set<nat>, n: nat)
    requires n <= |xs|
    requires forall k :: 0 <= k < |ix| ==> ix[k] < n
    requires forall k, l :: 0 <= k < l < |ix| ==> ix[k] < ix[l]
    requires forall i: nat :: i < n ==> (i in taken <==> i in ix)
    ensures Taken(xs, taken, n) == Select(xs, ix)
  {
    if n == 0 {
    } else if n - 1 in taken {
      LastIndex(ix, n - 1);
      var jx := ix[..|ix| - 1];
      assert forall i: nat :: i < n - 1 ==> (i in ix <==> i in jx) by { assert ix == jx + [n - 1]; }
      TakenAreSelected(xs, jx, taken, n - 1);
      assert Select(xs, ix) == Select(xs, jx) + [xs[n - 1]];
    } else {
      assert forall k :: 0 <= k < |ix| ==> ix[k] in ix;
      TakenAreSelected(xs, ix, taken, n - 1);
    }
  }

  // Increasing indices, and what they leave behind, make up the whole list.
  lemma SidePartition(xs: seq<Annotation>, ix: seq<nat>)
    requires forall k :: 0 <= k < |ix| ==> ix[k] < |xs|
    requires forall k, l :: 0 <= k < l < |ix| ==> ix[k] < ix[l]
    ensures multiset(Select(xs, ix)) + multiset(Unmatched(xs, Elements(ix), |xs|)) == multiset(xs)
    ensures |ix| + |Unmatched(xs, Elements(ix), |xs|)| == |xs|
  {
    TakenAreSelected(xs, ix, Elements(ix), |xs|);
    TakenOrUnmatched(xs, Elements(ix), |xs|);
    assert xs[..|xs|] == xs;
  }

  lemma LastIndex(ix: seq<nat>, n: nat)
    requires forall k :: 0 <= k < |ix| ==> ix[k] <= n
    requires forall k, l :: 0 <= k < l < |ix| ==> ix[k] < ix[l]
    requires n in ix
    ensures ix[|ix| - 1] == n
  {
  }

  // ----- positive specific agreement -----

  function PositiveSpecificAgreement(m: Matching): real {
    var matched, unmatched := |m.pairs|, |m.leftOnly| + |m.rightOnly|;
    if matched == 0 && unmatched == 0 then 1.0
    else (2 * matched) as real / (2 * matched + unmatched) as real
  }

  // The F1 of two annotators who made n annotations between them: twice the
  // matches over n, between 0 and 1, and 1 exactly when nothing is unmatched.
  ghost predicate IsF1(m: Matching, n: nat) {
    var f := PositiveSpecificAgreement(m);
    && 0.0 <= f <= 1.0 && f * n as real == (2 * |m.pairs|) as real
    && (f == 1.0 <==> |m.leftOnly| + |m.rightOnly| == 0)
  }

  lemma AgreementIsF1(left: seq<Annotation>, right: seq<Annotation>, rule: Rule)
    ensures IsF1(Matched(left, right, rule), |left| + |right|)
  {
    hide Matched, IsF1;
    MatchPartitionsInputs(left, right, rule);
    AgreementOfCounts(Matched(left, right, rule), |left| + |right|);
  }

  lemma AgreementOfCounts(m: Matching, n: nat)
    requires n == 2 * |m.pairs| + |m.leftOnly| + |m.rightOnly|
    ensures IsF1(m, n)
  {
    if n > 0 { ShareOf(2 * |m.pairs|, n); }
  }

  lemma ShareOf(x: nat, n: nat)
    requires x <= n && n > 0
    ensures var f := x as real / n as real;
            0.0 <= f <= 1.0 && f * n as real == x as real && (f == 1.0 <==> x == n)
  {
    DivCompare(x as real, n as real, 0.0);
    DivCompare(x as real, n as real, 1.0);
  }

  ghost predicate Paired(pairs: seq<MatchedPair>, a: Annotation, b: Annotation) {
    exists k :: 0 <= k < |pairs| && pairs[k].left == a && pairs[k].right == b
  }

  // ----- above one half, and without overlaps on either side, matching is exact -----

  predicate Disjoint(a: Annotation, b: Annotation) { !Overlaps(a.interval, b.interval) }

  ghost predicate StrictAndDisjoint(left: seq<Annotation>, right: seq<Annotation>, rule: Rule) {
    && rule.criterion.IouCriterion? && rule.iouThreshold > 0.5
    && Pairwise(left, Disjoint) && Pairwise(right, Disjoint)
  }

  // In temporal order, disjoint means one ends before the next begins.
  lemma OrderedDisjoint(xs: seq<Annotation>)
    requires Pairwise(xs, Disjoint)
    ensures forall i, j :: 0 <= i < j < |Ordered(xs)| ==>
              Ordered(xs)[i].interval.end <= Ordered(xs)[j].interval.start
  {
    var ys := Ordered(xs);
    SortIsSorted(xs, AnnotationKey);
    PairwiseSort(xs, AnnotationKey, Disjoint);
    forall i, j | 0 <= i < j < |ys| ensures ys[i].interval.end <= ys[j].interval.start {
      assert KeyLeq(AnnotationKey(ys[i]), AnnotationKey(ys[j]));
      assert Disjoint(ys[i], ys[j]);
    }
  }

  lemma StrictWeightsAreUnambiguous(left: seq<Annotation>, right: seq<Annotation>, rule: Rule)
    requires StrictAndDisjoint(left, right, rule)
    ensures Unambiguous(WeightsOf(Ordered(left), Ordered(right), rule))
  {
    var l, r := Ordered(left), Ordered(right);
    var w := WeightsOf(l, r, rule);
    OrderedDisjoint(left);
    OrderedDisjoint(right);
    forall p | p in w
      ensures w[p] > 0.0
      ensures 2 * Intersection(l[p.0].interval, r[p.1].interval) > Duration(l[p.0].interval)
      ensures 2 * Intersection(l[p.0].interval, r[p.1].interval) > Duration(r[p.1].interval)
    {
      IouAboveHalf(l[p.0].interval, r[p.1].interval);
    }
    forall p, q | p in w && q in w && p != q
      ensures (p.0 < q.0 && p.1 < q.1) || (q.0 < p.0 && q.1 < p.1)
    {
      NoSharingNoCrossing(l, r, p, q);
    }
  }

  lemma NoSharingNoCrossing(l: seq<Annotation>, r: seq<Annotation>, p: (nat, nat), q: (nat, nat))
    requires forall i, j :: 0 <= i < j < |l| ==> l[i].interval.end <= l[j].interval.start
    requires forall i, j :: 0 <= i < j < |r| ==> r[i].interval.end <= r[j].interval.start
    requires p.0 < |l| && p.1 < |r| && q.0 < |l| && q.1 < |r| && p != q
    requires 2 * Intersection(l[p.0].interval, r[p.1].interval) > Duration(l[p.0].interval)
    requires 2 * Intersection(l[p.0].interval, r[p.1].interval) > Duration(r[p.1].interval)
    requires 2 * Intersection(l[q.0].interval, r[q.1].interval) > Duration(l[q.0].interval)
    requires 2 * Intersection(l[q.0].interval, r[q.1].interval) > Duration(r[q.1].interval)
    ensures (p.0 < q.0 && p.1 < q.1) || (q.0 < p.0 && q.1 < p.1)
  {
  }

  lemma StrictMatchingIsExact(left: seq<Annotation>, right: seq<Annotation>, rule: Rule)
    requires StrictAndDisjoint(left, right, rule)
    ensures forall a, b :: a in left && b in right ==>
              (Admits(rule, a.interval, b.interval) <==> Paired(Matched(left, right, rule).pairs, a, b))
  {
    var l, r := Ordered(left), Ordered(right);
    var ps := ChosenPairs(l, r, rule);
    StrictWeightsAreUnambiguous(left, right, rule);
    TracebackTakesAll(WeightsOf(l, r, rule), |l|, |r|);
    SortKeepsElements(left, AnnotationKey);
    SortKeepsElements(right, AnnotationKey);
    assert Matched(left, right, rule).pairs == PairUp(l, r, ps);
    forall a, b | a in left && b in right
      ensures Admits(rule, a.interval, b.interval) <==> Paired(PairUp(l, r, ps), a, b)
    {
      ExactPair(l, r, rule, ps, a, b);
    }
  }

  lemma StrictPartnersAreUnique(left: seq<Annotation>, right: seq<Annotation>, rule: Rule)
    requires StrictAndDisjoint(left, right, rule)
    ensures forall a, b, c :: a in left && b in right && c in right && b != c ==>
              !(Admits(rule, a.interval, b.interval) && Admits(rule, a.interval, c.interval))
  {
    StrictWeightsAreUnambiguous(left, right, rule);
    SortKeepsElements(left, AnnotationKey);
    SortKeepsElements(right, AnnotationKey);
    forall a, b, c | a in left && b in right && c in right && b != c
      ensures !(Admits(rule, a.interval, b.interval) && Admits(rule, a.interval, c.interval))
    {
      OnePartner(Ordered(left), Ordered(right), rule, a, b, c);
    }
  }

  lemma OnePartner(l: seq<Annotation>, r: seq<Annotation>, rule: Rule, a: Annotation, b: Annotation, c: Annotation)
    requires Unambiguous(WeightsOf(l, r, rule)) && a in l && b in r && c in r && b != c
    ensures !(Admits(rule, a.interval, b.interval) && Admits(rule, a.interval, c.interval))
  {
    var w := WeightsOf(l, r, rule);
    var i: nat :| i < |l| && l[i] == a;
    var j: nat :| j < |r| && r[j] == b;
    var k: nat :| k < |r| && r[k] == c;
    assert (i, j) != (i, k);
    assert (i, j) !in w || (i, k) !in w;
  }

  lemma ExactPair(l: seq<Annotation>, r: seq<Annotation>, rule: Rule, ps: Pairs, a: Annotation, b: Annotation)
    requires forall p :: p in ps <==> p in WeightsOf(l, r, rule) && p.0 < |l| && p.1 < |r|
    requires a in l && b in r
    ensures Admits(rule, a.interval, b.interval) <==> Paired(PairUp(l, r, ps), a, b)
  {
    var pairs := PairUp(l, r, ps);
    if Admits(rule, a.interval, b.interval) {
      var i: nat :| i < |l| && l[i] == a;
      var j: nat :| j < |r| && r[j] == b;
      assert (i, j) in ps;
      var k :| 0 <= k < |ps| && ps[k] == (i, j);
      assert pairs[k].left == a && pairs[k].right == b;
    }
    if Paired(pairs, a, b) {
      var k :| 0 <= k < |pairs| && pairs[k].left == a && pairs[k].right == b;
      assert ps[k] in ps;
    }
  }

  // ----- symmetry under swapping the annotators -----

  lemma WeightsTranspose(l: seq<Annotation>, r: seq<Annotation>, rule: Rule)
    ensures WeightsOf(r, l, rule) == Transpose(WeightsOf(l, r, rule))
  {
    var w, t := WeightsOf(l, r, rule), WeightsOf(r, l, rule);
    forall p: (nat, nat) ensures p in t <==> p in Transpose(w) {
      if p.0 < |r| && p.1 < |l| { IouIsSimilarity(r[p.0].interval, l[p.1].interval); }
      assert p == (p.0, p.1);
    }
    forall p | p in t ensures t[p] == Transpose(w)[p] {
      IouIsSimilarity(r[p.0].interval, l[p.1].interval);
      assert p == (p.0, p.1);
    }
  }

  // When the near-optimal matching is unique, or under a strict threshold
  // without overlaps, the same annotations are paired whoever is called left.
  lemma SwapKeepsPairs(left: seq<Annotation>, right: seq<Annotation>, rule: Rule)
    requires || UniqueNearOptimum(WeightsOf(Ordered(left), Ordered(right), rule), |left|, |right|)
             || StrictAndDisjoint(left, right, rule)
    ensures |Matched(right, left, rule).pairs| == |Matched(left, right, rule).pairs|
    ensures forall a, b :: Paired(Matched(left, right, rule).pairs, a, b) <==> Paired(Matched(right, left, rule).pairs, b, a)
  {
    var l, r := Ordered(left), Ordered(right);
    var w := WeightsOf(l, r, rule);
    SortKeepsElements(left, AnnotationKey);
    SortKeepsElements(right, AnnotationKey);
    WeightsTranspose(l, r, rule);
    if UniqueNearOptimum(w, |l|, |r|) {
      SwapKeepsUniqueMatching(w, |l|, |r|);
    } else {
      StrictWeightsAreUnambiguous(left, right, rule);
      SwapKeepsUnambiguousMatching(w, |l|, |r|);
    }
    FlippedPairs(l, r, ChosenPairs(l, r, rule));
  }

  lemma AgreementIsSymmetric(left: seq<Annotation>, right: seq<Annotation>, rule: Rule)
    requires || UniqueNearOptimum(WeightsOf(Ordered(left), Ordered(right), rule), |left|, |right|)
             || StrictAndDisjoint(left, right, rule)
    ensures PositiveSpecificAgreement(Matched(right, left, rule)) == PositiveSpecificAgreement(Matched(left, right, rule))
  {
    hide Matched, WeightsOf, Ordered, UniqueNearOptimum, StrictAndDisjoint, Paired;
    SwapKeepsPairs(left, right, rule);
    MatchPartitionsInputs(left, right, rule);
    MatchPartitionsInputs(right, left, rule);
  }

  lemma FlippedPairs(l: seq<Annotation>, r: seq<Annotation>, ps: Pairs)
    requires forall p :: p in ps ==> p.0 < |l| && p.1 < |r|
    requires forall p :: p in Swapped(ps) ==> p.0 < |r| && p.1 < |l|
    ensures forall a, b :: Paired(PairUp(l, r, ps), a, b) <==> Paired(PairUp(r, l, Swapped(ps)), b, a)
  {
    var m, n := PairUp(l, r, ps), PairUp(r, l, Swapped(ps));
    assert forall k :: 0 <= k < |m| ==> m[k].left == n[k].right && m[k].right == n[k].left;
    forall a, b ensures Paired(m, a, b) <==> Paired(n, b, a) {
      if Paired(m, a, b) {
        var k :| 0 <= k < |m| && m[k].left == a && m[k].right == b;
        assert n[k].left == b && n[k].right == a;
      }
      if Paired(n, b, a) {
        var k :| 0 <= k < |n| && n[k].left == b && n[k].right == a;
        assert m[k].left == a && m[k].right == b;
      }
    }
  }

  function At(start: int, end: int): Annotation
    requires 0 <= start < end
  {
    Annotation(FilledPause, Span(start, end), "a", "", None)
  }

  // With ties it does depend: one annotation matched, or two.
  lemma AgreementNeedNotBeSymmetric()
    ensures var left := [At(100, 200), At(130, 170)];
            var right := [At(100, 150), At(100, 180), At(100, 200)];
            var rule := Rule(IouCriterion, 0.5, 250);
            && |Matched(left, right, rule).pairs| == 1
            && |Matched(right, left, rule).pairs| == 2
  {
    var left := [At(100, 200), At(130, 170)];
    var right := [At(100, 150), At(100, 180), At(100, 200)];
    var rule := Rule(IouCriterion, 0.5, 250);
    var w := WeightsOf(left, right, rule);
    TieIsOrdered(left, right);
    TieWeights(left, right, rule);
    TiedWeights(w);
    WeightsTranspose(left, right, rule);
    assert ChosenPairs(left, right, rule) == Traceback(w, 2, 3);
    assert ChosenPairs(right, left, rule) == Traceback(Transpose(w), 3, 2);
  }

  lemma TieIsOrdered(left: seq<Annotation>, right: seq<Annotation>)
    requires left == [At(100, 200), At(130, 170)]
    requires right == [At(100, 150), At(100, 180), At(100, 200)]
    ensures Ordered(left) == left && Ordered(right) == right
  {
    hide Ordered;
    assert forall i :: 0 <= i < |left| ==> left[i] == if i == 0 then At(100, 200) else At(130, 170);
    assert forall i :: 0 <= i < |right| ==>
             right[i] == if i == 0 then At(100, 150) else if i == 1 then At(100, 180) else At(100, 200);
    SortedByEndpoints(left, FilledPause);
    SortedByEndpoints(right, FilledPause);
  }

  // Annotations of one class are in order when their endpoints are.
  lemma SortedByEndpoints(xs: seq<Annotation>, c: SpeechEventType)
    requires forall i :: 0 <= i < |xs| ==> xs[i].eventType == c
    requires forall i, j :: 0 <= i < j < |xs| ==>
               || xs[i].interval.start < xs[j].interval.start
               || (xs[i].interval.start == xs[j].interval.start && xs[i].interval.end <= xs[j].interval.end)
    ensures Ordered(xs) == xs
  {
    StringOrder(c.Value(), c.Value(), "");
    SortedIsFixed(xs, AnnotationKey);
  }

  lemma TieIndices()
    ensures Iou(Span(100, 200), Span(100, 150)) == 0.5
    ensures Iou(Span(100, 200), Span(100, 180)) == 0.8
    ensures Iou(Span(100, 200), Span(100, 200)) == 1.0
    ensures Iou(Span(130, 170), Span(100, 150)) < 0.5
    ensures Iou(Span(130, 170), Span(100, 180)) == 0.5
    ensures Iou(Span(130, 170), Span(100, 200)) < 0.5
  {
    assert Iou(Span(100, 200), Span(100, 150)) == 50.0 / 100.0;
    assert Iou(Span(100, 200), Span(100, 180)) == 80.0 / 100.0;
    assert Iou(Span(130, 170), Span(100, 150)) == 20.0 / 70.0;
    assert Iou(Span(130, 170), Span(100, 180)) == 40.0 / 80.0;
    assert Iou(Span(130, 170), Span(100, 200)) == 40.0 / 100.0;
  }

  lemma TieWeights(left: seq<Annotation>, right: seq<Annotation>, rule: Rule)
    requires left == [At(100, 200), At(130, 170)]
    requires right == [At(100, 150), At(100, 180), At(100, 200)]
    requires rule == Rule(IouCriterion, 0.5, 250)
    ensures WeightsOf(left, right, rule) == map[(0, 0) := 0.5, (0, 1) := 0.8, (0, 2) := 1.0, (1, 1) := 0.5]
  {
    var w := WeightsOf(left, right, rule);
    TieIndices();
    hide Iou;
    forall p: (nat, nat) ensures p in w <==> p in {(0, 0), (0, 1), (0, 2), (1, 1)} {
      assert p == (p.0, p.1);
      assert p.0 < 2 ==> p.0 == 0 || p.0 == 1;
      assert p.1 < 3 ==> p.1 == 0 || p.1 == 1 || p.1 == 2;
    }
  }
}
