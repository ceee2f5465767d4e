// The agreement report: two annotators, one recording, one set of numbers.
module Report {
  import opened Taxonomy
  import opened Ordering
  import opened Records
  import opened Matching
  import opened Measures
  import opened Coefficients

  datatype ClassAgreement = ClassAgreement(
    eventType: string, both: nat, leftOnly: nat, rightOnly: nat, specificAgreement: Option<real>)

  datatype BoundaryError = BoundaryError(startErrorsMs: seq<int>, endErrorsMs: seq<int>)

  datatype AgreementReport = AgreementReport(
    recordingId: string, leftAnnotator: string, rightAnnotator: string,
    matched: nat, leftOnly: nat, rightOnly: nat, positiveSpecificAgreement: real,
    boundary: BoundaryError,
    classKappa: Option<real>, classAlpha: Option<real>, classConfusion: ConfusionMatrix,
    perClass: seq<ClassAgreement>,
    roleKappa: Option<real>, roleConfusion: ConfusionMatrix)
  {
    function TotalAnnotations(): nat { matched * 2 + leftOnly + rightOnly }
  }

  datatype Outcome = Compared(report: AgreementReport) | DifferentRecordings | SameAnnotator

  function ClassPair(p: MatchedPair): LabelPair { (p.left.eventType.Value(), p.right.eventType.Value()) }

  function RoleLabel(role: Option<ContextualRole>): string {
    if role.Some? then role.value.Value() else "none"
  }

  function RolePair(p: MatchedPair): LabelPair { (RoleLabel(p.left.role), RoleLabel(p.right.role)) }

  predicate HasRole(p: MatchedPair) { p.left.role.Some? || p.right.role.Some? }

  function Distance(x: int, y: int): int { if x >= y then x - y else y - x }

  function StartError(p: MatchedPair): int { Distance(p.left.interval.start, p.right.interval.start) }

  function EndError(p: MatchedPair): int { Distance(p.left.interval.end, p.right.interval.end) }

  // ----- unmatched annotations by class -----

  function CountClass(xs: seq<Annotation>, name: string): nat {
    if xs == [] then 0
    else CountClass(xs[..|xs| - 1], name) + if xs[|xs| - 1].eventType.Value() == name then 1 else 0
  }

  function ClassNames(xs: seq<Annotation>): set<string> { set x | x in xs :: x.eventType.Value() }

  lemma CountClassSnoc(xs: seq<Annotation>, x: Annotation, name: string)
    ensures CountClass(xs + [x], name) == CountClass(xs, name) + if x.eventType.Value() == name then 1 else 0
  {
    assert (xs + [x])[..|xs|] == xs;
  }

  lemma NoneOfClass()
    ensures ClassNames([]) == {} && forall x :: CountClass([], x) == 0
  {
  }

  lemma ClassNamesSnoc(xs: seq<Annotation>, x: Annotation)
    ensures ClassNames(xs + [x]) == ClassNames(xs) + {x.eventType.Value()}
  {
  }

  method CountByClass(xs: seq<Annotation>) returns (d: map<string, nat>)
    ensures d.Keys == ClassNames(xs)
    ensures forall x :: (if x in d then d[x] else 0) == CountClass(xs, x)
  {
    hide CountClass, ClassNames, SpeechEventType.Value;
    d := map[];
    NoneOfClass();
    for k := 0 to |xs|
      invariant d.Keys == ClassNames(xs[..k])
      invariant forall x :: (if x in d then d[x] else 0) == CountClass(xs[..k], x)
    {
      assert xs[..k + 1] == xs[..k] + [xs[k]];
      forall x { CountClassSnoc(xs[..k], xs[k], x); }
      ClassNamesSnoc(xs[..k], xs[k]);
      var key := xs[k].eventType.Value();
      d := d[key := (if key in d then d[key] else 0) + 1];
    }
    assert xs[..|xs|] == xs;
  }

  // ----- per-class rows -----

  function Specific(both: nat, leftOnly: nat, rightOnly: nat): Option<real> {
    var denominator := 2 * both + leftOnly + rightOnly;
    if denominator != 0 then Some((2 * both) as real / denominator as real) else None
  }

  function RowOf(x: string, inMatrix: (nat, nat, nat), unmatchedLeft: nat, unmatchedRight: nat): ClassAgreement {
    var (both, leftOnly, rightOnly) := inMatrix;
    var leftTotal, rightTotal := leftOnly + unmatchedLeft, rightOnly + unmatchedRight;
    ClassAgreement(x, both, leftTotal, rightTotal, Specific(both, leftTotal, rightTotal))
  }

  function Row(m: ConfusionMatrix, matching: Matching, x: string): ClassAgreement {
    RowOf(x, ForLabel(m, x), CountClass(matching.leftOnly, x), CountClass(matching.rightOnly, x))
  }

  function Rows(m: ConfusionMatrix, matching: Matching, labels: seq<string>): seq<ClassAgreement> {
    if labels == [] then []
    else Rows(m, matching, labels[..|labels| - 1]) + [Row(m, matching, labels[|labels| - 1])]
  }

  // Every class that was matched or left over, in order.
  function RowLabels(m: ConfusionMatrix, matching: Matching): seq<string> {
    SortedSet((set x | x in m.labels) + ClassNames(matching.leftOnly) + ClassNames(matching.rightOnly))
  }

  method PerClass(m: ConfusionMatrix, matching: Matching) returns (rows: seq<ClassAgreement>)
    ensures rows == Rows(m, matching, RowLabels(m, matching))
  {
    hide CountClass, ForLabel, SortedSet, RowOf, ClassNames;
    var unmatchedLeft := CountByClass(matching.leftOnly);
    var unmatchedRight := CountByClass(matching.rightOnly);
    var labels := SortedSet((set x | x in m.labels) + unmatchedLeft.Keys + unmatchedRight.Keys);
    rows := [];
    for k := 0 to |labels|
      invariant rows == Rows(m, matching, labels[..k])
    {
      assert labels[..k + 1][..k] == labels[..k];
      var x := labels[k];
      var left := if x in unmatchedLeft then unmatchedLeft[x] else 0;
      var right := if x in unmatchedRight then unmatchedRight[x] else 0;
      rows := rows + [RowOf(x, ForLabel(m, x), left, right)];
    }
    assert labels[..|labels|] == labels;
  }

  lemma {:induction false} CountedNames(xs: seq<Annotation>)
    ensures forall x :: x in ClassNames(xs) <==> CountClass(xs, x) > 0
  {
    if xs != [] {
      var before, last := xs[..|xs| - 1], xs[|xs| - 1];
      CountedNames(before);
      assert xs == before + [last];
      assert ClassNames(xs) == ClassNames(before) + {last.eventType.Value()};
    }
  }

  // ----- what the matrices and the boundary errors are to hold -----

  predicate SomeRole(p: MatchedPair) { p.left.role.Some? || p.right.role.Some? }

  // The annotation's role is called this; an absent one is called "none".
  predicate RoleCalled(a: Annotation, name: string) {
    match a.role
    case None => name == "none"
    case Some(role) => name == role.Value()
  }

  function WithRoles(pairs: seq<MatchedPair>): set<nat> { set k: nat | k < |pairs| && SomeRole(pairs[k]) }

  function RolesAt(pairs: seq<MatchedPair>, l: string, r: string): set<nat> {
    set k: nat | k < |pairs| && SomeRole(pairs[k]) && RoleCalled(pairs[k].left, l) && RoleCalled(pairs[k].right, r)
  }

  function ClassesAt(pairs: seq<MatchedPair>, l: string, r: string): set<nat> {
    set k: nat | k < |pairs| && pairs[k].left.eventType.Value() == l && pairs[k].right.eventType.Value() == r
  }

  // The role matrix counts the pairs with a role on at least one side, by what the
  // two sides are called; the class matrix counts all of them.
  ghost predicate CountsRoles(m: ConfusionMatrix, pairs: seq<MatchedPair>) {
    && SumWhere(m.counts, All) == |WithRoles(pairs)|
    && forall l, r :: Get(m.counts, l, r) == |RolesAt(pairs, l, r)|
  }

  ghost predicate CountsClasses(m: ConfusionMatrix, pairs: seq<MatchedPair>) {
    && SumWhere(m.counts, All) == |pairs|
    && forall l, r :: Get(m.counts, l, r) == |ClassesAt(pairs, l, r)|
  }

  // d is how far apart x and y are.
  predicate IsDistance(d: int, x: int, y: int) { d >= 0 && (d == x - y || d == y - x) }

  ghost predicate ErrorsOf(e: BoundaryError, pairs: seq<MatchedPair>) {
    && |e.startErrorsMs| == |e.endErrorsMs| == |pairs|
    && forall k :: 0 <= k < |pairs| ==>
         && IsDistance(e.startErrorsMs[k], pairs[k].left.interval.start, pairs[k].right.interval.start)
         && IsDistance(e.endErrorsMs[k], pairs[k].left.interval.end, pairs[k].right.interval.end)
  }

  lemma RolesAtSnoc(pairs: seq<MatchedPair>, p: MatchedPair, l: string, r: string)
    ensures |WithRoles(pairs + [p])| == |WithRoles(pairs)| + if SomeRole(p) then 1 else 0
    ensures |RolesAt(pairs + [p], l, r)| ==
            |RolesAt(pairs, l, r)| + if SomeRole(p) && RoleCalled(p.left, l) && RoleCalled(p.right, r) then 1 else 0
  {
    hide SomeRole, RoleCalled;
    var n, all := |pairs|, pairs + [p];
    assert WithRoles(all) == WithRoles(pairs) + if SomeRole(p) then {n} else {};
    assert RolesAt(all, l, r) ==
           RolesAt(pairs, l, r) + if SomeRole(p) && RoleCalled(p.left, l) && RoleCalled(p.right, r) then {n} else {};
  }

  lemma {:induction false} RolesCounted(pairs: seq<MatchedPair>, l: string, r: string)
    ensures var labels := Map(Filter(pairs, HasRole), RolePair);
            CountWhere(labels, All) == |WithRoles(pairs)| && CountWhere(labels, Exactly(l, r)) == |RolesAt(pairs, l, r)|
  {
    hide Filter, WithRoles, RolesAt, RoleCalled, CountWhere, Map, SomeRole;
    if pairs == [] {
      NobodyHasRoles(l, r);
    } else {
      var before, last := pairs[..|pairs| - 1], pairs[|pairs| - 1];
      RolesCounted(before, l, r);
      assert pairs == before + [last];
      RolesAtSnoc(before, last, l, r);
      RoleLabelsSnoc(before, last, l, r);
    }
  }

  lemma NobodyHasRoles(l: string, r: string)
    ensures WithRoles([]) == {} && RolesAt([], l, r) == {}
    ensures var labels := Map(Filter([], HasRole), RolePair); CountWhere(labels, All) == CountWhere(labels, Exactly(l, r)) == 0
  {
  }

  lemma RoleLabelsSnoc(pairs: seq<MatchedPair>, p: MatchedPair, l: string, r: string)
    ensures var before, labels := Map(Filter(pairs, HasRole), RolePair), Map(Filter(pairs + [p], HasRole), RolePair);
            && CountWhere(labels, All) == CountWhere(before, All) + (if SomeRole(p) then 1 else 0)
            && CountWhere(labels, Exactly(l, r)) ==
               CountWhere(before, Exactly(l, r)) + if SomeRole(p) && RoleCalled(p.left, l) && RoleCalled(p.right, r) then 1 else 0
  {
    hide Filter, RoleCalled, CountWhere, Map;
    FilterSnoc(pairs, p, HasRole);
    LabelsSnoc(Filter(pairs, HasRole), p, l, r);
  }

  lemma LabelsSnoc(pairs: seq<MatchedPair>, p: MatchedPair, l: string, r: string)
    ensures var before, labels := Map(pairs, RolePair), Map(pairs + [p], RolePair);
            && CountWhere(labels, All) == CountWhere(before, All) + 1
            && CountWhere(labels, Exactly(l, r)) ==
               CountWhere(before, Exactly(l, r)) + if RoleCalled(p.left, l) && RoleCalled(p.right, r) then 1 else 0
  {
    assert Map(pairs + [p], RolePair)[..|pairs|] == Map(pairs, RolePair);
    assert Map(pairs + [p], RolePair)[|pairs|] == RolePair(p);
  }

  predicate ClassesCalled(p: MatchedPair, l: string, r: string) {
    p.left.eventType.Value() == l && p.right.eventType.Value() == r
  }

  lemma ClassesAtSnoc(pairs: seq<MatchedPair>, p: MatchedPair, l: string, r: string)
    ensures |ClassesAt(pairs + [p], l, r)| == |ClassesAt(pairs, l, r)| + if ClassesCalled(p, l, r) then 1 else 0
  {
    hide SpeechEventType.Value;
    assert ClassesAt(pairs + [p], l, r) == ClassesAt(pairs, l, r) + if ClassesCalled(p, l, r) then {|pairs|} else {};
  }

  lemma ClassLabelsSnoc(pairs: seq<MatchedPair>, p: MatchedPair, l: string, r: string)
    ensures var before, labels := Map(pairs, ClassPair), Map(pairs + [p], ClassPair);
            && CountWhere(labels, All) == CountWhere(before, All) + 1
            && CountWhere(labels, Exactly(l, r)) == CountWhere(before, Exactly(l, r)) + if ClassesCalled(p, l, r) then 1 else 0
  {
    hide SpeechEventType.Value;
    assert Map(pairs + [p], ClassPair)[..|pairs|] == Map(pairs, ClassPair);
    assert Map(pairs + [p], ClassPair)[|pairs|] == ClassPair(p);
  }

  lemma {:induction false} ClassesCounted(pairs: seq<MatchedPair>, l: string, r: string)
    ensures var labels := Map(pairs, ClassPair);
            CountWhere(labels, All) == |pairs| && CountWhere(labels, Exactly(l, r)) == |ClassesAt(pairs, l, r)|
  {
    if pairs == [] {
      assert ClassesAt(pairs, l, r) == {};
    } else {
      hide ClassesAt, CountWhere, Map, ClassesCalled;
      var before, last := pairs[..|pairs| - 1], pairs[|pairs| - 1];
      ClassesCounted(before, l, r);
      assert pairs == before + [last];
      ClassesAtSnoc(before, last, l, r);
      ClassLabelsSnoc(before, last, l, r);
    }
  }

  lemma MatricesCount(pairs: seq<MatchedPair>)
    ensures CountsRoles(ConfusionOf(Map(Filter(pairs, HasRole), RolePair)), pairs)
    ensures CountsClasses(ConfusionOf(Map(pairs, ClassPair)), pairs)
  {
    var roles, classes := Map(Filter(pairs, HasRole), RolePair), Map(pairs, ClassPair);
    AllCountsAreCounts(roles);
    AllCountsAreCounts(classes);
    hide CountsOf, CountWhere, Filter, RolesAt, ClassesAt, WithRoles, Get, SumWhere;
    forall l, r ensures Get(CountsOf(roles), l, r) == |RolesAt(pairs, l, r)| {
      GetIsCount(roles, l, r);
      RolesCounted(pairs, l, r);
    }
    forall l, r ensures Get(CountsOf(classes), l, r) == |ClassesAt(pairs, l, r)| {
      GetIsCount(classes, l, r);
      ClassesCounted(pairs, l, r);
    }
    RolesCounted(pairs, "", "");
    ClassesCounted(pairs, "", "");
  }

  lemma ErrorsAreDistances(pairs: seq<MatchedPair>)
    ensures ErrorsOf(BoundaryError(Map(pairs, StartError), Map(pairs, EndError)), pairs)
  {
  }

  // ----- the report -----

  method Compare(left: Recording, right: Recording, rule: Rule) returns (outcome: Outcome)
    ensures outcome == DifferentRecordings <==> left.recordingId != right.recordingId
    ensures outcome == SameAnnotator <==> left.recordingId == right.recordingId && left.annotator == right.annotator
    ensures outcome.Compared? ==>
              var r, m := outcome.report, Matched(left.disfluencies, right.disfluencies, rule);
              && r.recordingId == left.recordingId && r.leftAnnotator == left.annotator && r.rightAnnotator == right.annotator
              && r.TotalAnnotations() == |left.disfluencies| + |right.disfluencies|
              && RowsTotal(r.perClass) == r.TotalAnnotations()
              && r.matched == |m.pairs| && r.leftOnly == |m.leftOnly| && r.rightOnly == |m.rightOnly|
              && ErrorsOf(r.boundary, m.pairs) && CountsRoles(r.roleConfusion, m.pairs) && CountsClasses(r.classConfusion, m.pairs)
              && (forall row :: row in r.perClass ==> AccountsForClass(row, left.disfluencies, right.disfluencies))
              && InOrder(r.perClass)
              && (forall a :: a in left.disfluencies + right.disfluencies ==>
                    exists row :: row in r.perClass && row.eventType == a.eventType.Value())
              && r.positiveSpecificAgreement == PositiveSpecificAgreement(m)
              && r.classConfusion == ConfusionOf(Map(m.pairs, ClassPair))
              && r.classKappa == Kappa(r.classConfusion) && r.classAlpha == Alpha(r.classConfusion)
              && r.roleConfusion == ConfusionOf(Map(Filter(m.pairs, HasRole), RolePair))
              && r.roleKappa == Kappa(r.roleConfusion)
  {
    hide CountsRoles, CountsClasses, ErrorsOf, InOrder;
    hide Matched, RowLabels, Rows, AccountsForClass, ConfusionOf, Kappa, Alpha, PositiveSpecificAgreement, RowsTotal;
    if left.recordingId != right.recordingId {
      return DifferentRecordings;
    }
    if left.annotator == right.annotator {
      return SameAnnotator;
    }
    var matching := Match(left.disfluencies, right.disfluencies, rule);
    var classMatrix := Confusion(Map(matching.pairs, ClassPair));
    var roleMatrix := Confusion(Map(Filter(matching.pairs, HasRole), RolePair));
    var classKappa := CohensKappa(classMatrix);
    var classAlpha := KrippendorffsAlpha(classMatrix);
    var roleKappa := CohensKappa(roleMatrix);
    var rows := PerClass(classMatrix, matching);
    RowsConserve(matching);
    MatricesCount(matching.pairs);
    ErrorsAreDistances(matching.pairs);
    RowsAccount(left.disfluencies, right.disfluencies, rule);
    MatchPartitionsInputs(left.disfluencies, right.disfluencies, rule);
    outcome := Compared(AgreementReport(
      left.recordingId, left.annotator, right.annotator,
      |matching.pairs|, |matching.leftOnly|, |matching.rightOnly|, PositiveSpecificAgreement(matching),
      BoundaryError(Map(matching.pairs, StartError), Map(matching.pairs, EndError)),
      classKappa, classAlpha, classMatrix, rows, roleKappa, roleMatrix));
  }

  // ----- conservation -----

  function RowsTotal(rows: seq<ClassAgreement>): nat {
    if rows == [] then 0
    else
      var row := rows[|rows| - 1];
      RowsTotal(rows[..|rows| - 1]) + 2 * row.both + row.leftOnly + row.rightOnly
  }

  function CountOver(xs: seq<Annotation>, labels: seq<string>): nat {
    if labels == [] then 0 else CountOver(xs, labels[..|labels| - 1]) + CountClass(xs, labels[|labels| - 1])
  }

  function PairsOver(pairs: seq<LabelPair>, labels: seq<string>): nat {
    if labels == [] then 0
    else
      var x := labels[|labels| - 1];
      PairsOver(pairs, labels[..|labels| - 1]) + CountWhere(pairs, LeftIs(x)) + CountWhere(pairs, RightIs(x))
  }

  lemma {:induction false} RowsTotalIs(pairs: seq<LabelPair>, matching: Matching, labels: seq<string>)
    ensures RowsTotal(Rows(ConfusionOf(pairs), matching, labels)) ==
            PairsOver(pairs, labels) + CountOver(matching.leftOnly, labels) + CountOver(matching.rightOnly, labels)
  {
    if labels != [] {
      var before, x := labels[..|labels| - 1], labels[|labels| - 1];
      RowsTotalIs(pairs, matching, before);
      ForLabelIsMarginals(pairs, x);
      var rows := Rows(ConfusionOf(pairs), matching, labels);
      assert rows[..|rows| - 1] == Rows(ConfusionOf(pairs), matching, before);
    }
  }

  // Over distinct labels that cover it, everything is counted once.
  lemma {:induction false} CountOverAll(xs: seq<Annotation>, labels: seq<string>)
    requires Distinct(labels) && forall x :: CountClass(xs, x) > 0 ==> x in labels
    ensures CountOver(xs, labels) == |xs|
  {
    if xs == [] {
      CountOverNone(labels);
    } else {
      var last := xs[|xs| - 1];
      assert CountClass(xs, last.eventType.Value()) > 0;
      CountOverAll(xs[..|xs| - 1], labels);
      CountOverStep(xs, labels);
    }
  }

  lemma {:induction false} CountOverNone(labels: seq<string>)
    ensures CountOver([], labels) == 0
  {
    if labels != [] { CountOverNone(labels[..|labels| - 1]); }
  }

  lemma {:induction false} CountOverStep(xs: seq<Annotation>, labels: seq<string>)
    requires xs != [] && Distinct(labels)
    ensures CountOver(xs, labels) ==
            CountOver(xs[..|xs| - 1], labels) + if xs[|xs| - 1].eventType.Value() in labels then 1 else 0
  {
    if labels != [] {
      var before, x := labels[..|labels| - 1], labels[|labels| - 1];
      CountOverStep(xs, before);
      assert x !in before && labels == before + [x];
    }
  }

  lemma {:induction false} PairsOverAll(pairs: seq<LabelPair>, labels: seq<string>)
    requires Distinct(labels) && forall p :: p in pairs ==> p.0 in labels && p.1 in labels
    ensures PairsOver(pairs, labels) == 2 * |pairs|
  {
    if pairs == [] {
      PairsOverNone(labels);
    } else {
      PairsOverAll(pairs[..|pairs| - 1], labels);
      PairsOverStep(pairs, labels);
      assert pairs[|pairs| - 1] in pairs;
    }
  }

  lemma {:induction false} PairsOverNone(labels: seq<string>)
    ensures PairsOver([], labels) == 0
  {
    if labels != [] { PairsOverNone(labels[..|labels| - 1]); }
  }

  lemma {:induction false} PairsOverStep(pairs: seq<LabelPair>, labels: seq<string>)
    requires pairs != [] && Distinct(labels)
    ensures var last := pairs[|pairs| - 1];
            PairsOver(pairs, labels) == PairsOver(pairs[..|pairs| - 1], labels)
              + (if last.0 in labels then 1 else 0) + (if last.1 in labels then 1 else 0)
  {
    if labels != [] {
      var before, x := labels[..|labels| - 1], labels[|labels| - 1];
      PairsOverStep(pairs, before);
      assert x !in before && labels == before + [x];
    }
  }

  lemma RowLabelsCover(matching: Matching)
    ensures var labels := RowLabels(ConfusionOf(Map(matching.pairs, ClassPair)), matching);
            && Distinct(labels)
            && (forall p :: p in Map(matching.pairs, ClassPair) ==> p.0 in labels && p.1 in labels)
            && (forall x :: CountClass(matching.leftOnly, x) > 0 || CountClass(matching.rightOnly, x) > 0 ==> x in labels)
  {
    var pairs := Map(matching.pairs, ClassPair);
    CountedNames(matching.leftOnly);
    CountedNames(matching.rightOnly);
    hide ClassNames, CountClass;
    forall p | p in pairs ensures p.0 in ConfusionOf(pairs).labels && p.1 in ConfusionOf(pairs).labels {
      LabelsAreUsed(pairs, p.0);
      LabelsAreUsed(pairs, p.1);
    }
  }

  // Twice the agreed plus the one-sided, over all rows, is every annotation once.
  lemma RowsConserve(matching: Matching)
    ensures var m := ConfusionOf(Map(matching.pairs, ClassPair));
            RowsTotal(Rows(m, matching, RowLabels(m, matching))) ==
            2 * |matching.pairs| + |matching.leftOnly| + |matching.rightOnly|
  {
    var pairs := Map(matching.pairs, ClassPair);
    var labels := RowLabels(ConfusionOf(pairs), matching);
    RowLabelsCover(matching);
    RowsTotalIs(pairs, matching, labels);
    PairsOverAll(pairs, labels);
    CountOverAll(matching.leftOnly, labels);
    CountOverAll(matching.rightOnly, labels);
  }

  // ----- what a row says about its class -----

  // The agreed and the one-sided make up each annotator's annotations of the
  // class, and the specific agreement is the F1 of the two counts.
  predicate AccountsForClass(row: ClassAgreement, left: seq<Annotation>, right: seq<Annotation>) {
    var l, r := CountClass(left, row.eventType), CountClass(right, row.eventType);
    && row.both + row.leftOnly == l && row.both + row.rightOnly == r
    && row.specificAgreement == if l + r == 0 then None else Some((2 * row.both) as real / (l + r) as real)
  }

  lemma {:induction false} CountClassAppend(a: seq<Annotation>, b: seq<Annotation>, name: string)
    ensures CountClass(a + b, name) == CountClass(a, name) + CountClass(b, name)
  {
    hide CountClass, SpeechEventType.Value;
    if b == [] {
      NoneOfClass();
      assert a + b == a;
    } else {
      var before, last := b[..|b| - 1], b[|b| - 1];
      CountClassAppend(a, before, name);
      CountClassSnoc(a + before, last, name);
      CountClassSnoc(before, last, name);
      assert a + b == (a + before) + [last] && b == before + [last];
    }
  }

  lemma {:induction false} CountClassPermutes(a: seq<Annotation>, b: seq<Annotation>, name: string)
    requires multiset(a) == multiset(b)
    ensures CountClass(a, name) == CountClass(b, name)
  {
    hide CountClass, SpeechEventType.Value;
    if a == [] {
      assert |multiset(b)| == 0;
    } else {
      var i := RemoveFirst(a, b);
      var rest := b[..i] + b[i + 1..];
      CountClassPermutes(a[1..], rest, name);
      assert a == [a[0]] + a[1..] && b == b[..i] + ([b[i]] + b[i + 1..]);
      CountClassAppend([a[0]], a[1..], name);
      CountClassAppend(b[..i], [b[i]] + b[i + 1..], name);
      CountClassAppend([b[i]], b[i + 1..], name);
      CountClassAppend(b[..i], b[i + 1..], name);
    }
  }

  // A side's labels in the matrix are the classes of its matched annotations.
  lemma {:induction false} MatchedOfClass(pairs: seq<MatchedPair>, x: string)
    ensures CountWhere(Map(pairs, ClassPair), LeftIs(x)) == CountClass(Map(pairs, LeftOf), x)
    ensures CountWhere(Map(pairs, ClassPair), RightIs(x)) == CountClass(Map(pairs, RightOf), x)
  {
    if pairs != [] {
      var n := |pairs| - 1;
      MatchedOfClass(pairs[..n], x);
      assert Map(pairs, ClassPair)[..n] == Map(pairs[..n], ClassPair);
      assert Map(pairs, LeftOf)[..n] == Map(pairs[..n], LeftOf);
      assert Map(pairs, RightOf)[..n] == Map(pairs[..n], RightOf);
    }
  }

  lemma RowAccountsForClass(left: seq<Annotation>, right: seq<Annotation>, rule: Rule, x: string)
    ensures var m := Matched(left, right, rule);
            AccountsForClass(Row(ConfusionOf(Map(m.pairs, ClassPair)), m, x), left, right)
  {
    hide Matched, CountClass, ConfusionOf, CountWhere;
    var m := Matched(left, right, rule);
    MatchPartitionsInputs(left, right, rule);
    ForLabelIsMarginals(Map(m.pairs, ClassPair), x);
    MatchedOfClass(m.pairs, x);
    var ls, rs := Map(m.pairs, LeftOf), Map(m.pairs, RightOf);
    CountClassAppend(ls, m.leftOnly, x);
    CountClassAppend(rs, m.rightOnly, x);
    CountClassPermutes(ls + m.leftOnly, left, x);
    CountClassPermutes(rs + m.rightOnly, right, x);
  }

  lemma {:induction false} RowsAre(m: ConfusionMatrix, matching: Matching, labels: seq<string>)
    ensures |Rows(m, matching, labels)| == |labels|
    ensures forall k :: 0 <= k < |labels| ==> Rows(m, matching, labels)[k] == Row(m, matching, labels[k])
  {
    hide Row;
    if labels != [] { RowsAre(m, matching, labels[..|labels| - 1]); }
  }

  // One row a class, in the order of their names.
  ghost predicate InOrder(rows: seq<ClassAgreement>) {
    forall i, j :: 0 <= i < j < |rows| ==>
      rows[i].eventType != rows[j].eventType && StringLeq(rows[i].eventType, rows[j].eventType)
  }

  // Every row accounts for its class, and every annotation's class has one row.
  lemma RowsAccount(left: seq<Annotation>, right: seq<Annotation>, rule: Rule)
    ensures var m := Matched(left, right, rule);
            var c := ConfusionOf(Map(m.pairs, ClassPair));
            var rows := Rows(c, m, RowLabels(c, m));
            && (forall row :: row in rows ==> AccountsForClass(row, left, right))
            && (forall a :: a in left + right ==> exists row :: row in rows && row.eventType == a.eventType.Value())
            && InOrder(rows)
  {
    hide Matched, ConfusionOf, AccountsForClass, RowLabels, CountClass, ForLabel, Specific;
    var m := Matched(left, right, rule);
    var c := ConfusionOf(Map(m.pairs, ClassPair));
    var labels := RowLabels(c, m);
    var rows := Rows(c, m, labels);
    RowsAre(c, m, labels);
    RowLabelsInOrder(c, m);
    RowsInOrder(c, m, labels);
    hide Rows, InOrder;
    forall row | row in rows ensures AccountsForClass(row, left, right) {
      var k :| 0 <= k < |rows| && rows[k] == row;
      RowAccountsForClass(left, right, rule, labels[k]);
    }
    forall a | a in left + right ensures exists row :: row in rows && row.eventType == a.eventType.Value() {
      ClassHasLabel(left, right, rule, a);
      var k :| 0 <= k < |labels| && labels[k] == a.eventType.Value();
      assert rows[k] in rows;
    }
  }

  lemma RowLabelsInOrder(m: ConfusionMatrix, matching: Matching)
    ensures var labels := RowLabels(m, matching);
            forall i, j :: 0 <= i < j < |labels| ==> labels[i] != labels[j] && StringLeq(labels[i], labels[j])
  {
    hide StringLeq, ClassNames;
  }

  lemma RowsInOrder(m: ConfusionMatrix, matching: Matching, labels: seq<string>)
    requires forall i, j :: 0 <= i < j < |labels| ==> labels[i] != labels[j] && StringLeq(labels[i], labels[j])
    ensures InOrder(Rows(m, matching, labels))
  {
    RowsAre(m, matching, labels);
    hide Rows, StringLeq;
  }

  lemma ClassHasLabel(left: seq<Annotation>, right: seq<Annotation>, rule: Rule, a: Annotation)
    requires a in left + right
    ensures var m := Matched(left, right, rule);
            a.eventType.Value() in RowLabels(ConfusionOf(Map(m.pairs, ClassPair)), m)
  {
    hide Matched, ConfusionOf, RowLabels;
    var m := Matched(left, right, rule);
    RowLabelsCover(m);
    MatchPartitionsInputs(left, right, rule);
    CountedNames(m.leftOnly);
    CountedNames(m.rightOnly);
    var pairs := Map(m.pairs, ClassPair);
    if a in left {
      assert a in multiset(left);
      if a !in m.leftOnly {
        assert a in Map(m.pairs, LeftOf);
        var k :| 0 <= k < |m.pairs| && Map(m.pairs, LeftOf)[k] == a;
        assert pairs[k] in pairs && pairs[k].0 == a.eventType.Value();
      } else {
        assert a.eventType.Value() in ClassNames(m.leftOnly);
      }
    } else {
      assert a in multiset(right);
      if a !in m.rightOnly {
        assert a in Map(m.pairs, RightOf);
        var k :| 0 <= k < |m.pairs| && Map(m.pairs, RightOf)[k] == a;
        assert pairs[k] in pairs && pairs[k].1 == a.eventType.Value();
      } else {
        assert a.eventType.Value() in ClassNames(m.rightOnly);
      }
    }
  }

  // What the report's label coefficients satisfy, whatever the two annotators did.
  lemma ReportedCoefficients(left: seq<Annotation>, right: seq<Annotation>, rule: Rule)
    ensures var c := ConfusionOf(Map(Matched(left, right, rule).pairs, ClassPair));
            && (Kappa(c).Some? ==> -1.0 <= Kappa(c).value <= 1.0)
            && (Alpha(c).Some? ==> -1.0 < Alpha(c).value <= 1.0)
            && (Kappa(c).Some? ==> Alpha(c).Some?)
            && (Kappa(c).Some? ==> (Kappa(c).value == 1.0 <==> Alpha(c).value == 1.0))
  {
    var c := ConfusionOf(Map(Matched(left, right, rule).pairs, ClassPair));
    ConfusionIsWellFormed(Map(Matched(left, right, rule).pairs, ClassPair));
    if Kappa(c).Some? {
      KappaBounds(c);
      KappaNeedsTwoCategories(c);
    }
    if Alpha(c).Some? { AlphaBounds(c); }
  }
}
