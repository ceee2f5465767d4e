// Validating one annotator's work: overlaps, found by sorting and looking at
// neighbours only.
module Validation {
  import opened Taxonomy
  import opened Ordering
  import opened Records

  datatype Severity = Error | Warning

  datatype Subject = Class(kind: SpeechEventType) | Spoken(text: string)

  datatype Finding = Finding(severity: Severity, code: string, subject: Subject, at: int)

  function SpanKey(s: Interval): Key { Key(s.start, s.end, "") }

  // ----- the adjacent scan -----

  // The later one of every two neighbours that overlap.
  function Adjacent<T>(ordered: seq<T>, span: T -> Interval): seq<T> {
    if |ordered| < 2 then []
    else
      var n := |ordered| - 1;
      Adjacent(ordered[..n], span) + if Overlaps(span(ordered[n - 1]), span(ordered[n])) then [ordered[n]] else []
  }

  function KeyBy<T>(span: T -> Interval): T -> Key { (x: T) => SpanKey(span(x)) }

  function Disjoint<T>(span: T -> Interval): (T, T) -> bool { (x: T, y: T) => !Overlaps(span(x), span(y)) }

  ghost predicate AnyOverlap<T>(xs: seq<T>, span: T -> Interval) {
    exists i, j :: 0 <= i < j < |xs| && Overlaps(span(xs[i]), span(xs[j]))
  }

  lemma {:induction false} NeighboursSuffice<T>(ordered: seq<T>, span: T -> Interval)
    requires Sorted(ordered, KeyBy(span))
    ensures Adjacent(ordered, span) == [] <==> Pairwise(ordered, Disjoint(span))
  {
    if |ordered| >= 2 {
      var n := |ordered| - 1;
      var before := ordered[..n];
      NeighboursSuffice(before, span);
      if Adjacent(ordered, span) == [] {
        forall i, j | 0 <= i < j < |ordered| ensures Disjoint(span)(ordered[i], ordered[j]) {
          if j < n { assert Disjoint(span)(before[i], before[j]); } else { LastIsClear(ordered, span, i); }
        }
      }
      if Pairwise(ordered, Disjoint(span)) {
        assert Disjoint(span)(ordered[n - 1], ordered[n]);
        forall i, j | 0 <= i < j < |before| ensures Disjoint(span)(before[i], before[j]) {
          assert Disjoint(span)(ordered[i], ordered[j]);
        }
      }
    }
  }

  // If the neighbours before it are clear, and it is clear of the one before,
  // the last one is clear of all.
  lemma LastIsClear<T>(ordered: seq<T>, span: T -> Interval, i: nat)
    requires |ordered| >= 2 && i < |ordered| - 1 && Sorted(ordered, KeyBy(span))
    requires Pairwise(ordered[..|ordered| - 1], Disjoint(span))
    requires !Overlaps(span(ordered[|ordered| - 2]), span(ordered[|ordered| - 1]))
    ensures Disjoint(span)(ordered[i], ordered[|ordered| - 1])
  {
    var n := |ordered| - 1;
    assert KeyLeq(KeyBy(span)(ordered[n - 1]), KeyBy(span)(ordered[n]));
    if i < n - 1 {
      assert Disjoint(span)(ordered[..n][i], ordered[..n][n - 1]);
      assert KeyLeq(KeyBy(span)(ordered[i]), KeyBy(span)(ordered[n - 1]));
    }
  }

  lemma PairwiseMeansNone<T>(xs: seq<T>, span: T -> Interval)
    ensures Pairwise(xs, Disjoint(span)) <==> !AnyOverlap(xs, span)
  {
    if !AnyOverlap(xs, span) {
      forall i, j | 0 <= i < j < |xs| ensures Disjoint(span)(xs[i], xs[j]) {
        assert !Overlaps(span(xs[i]), span(xs[j]));
      }
    } else {
      var i, j :| 0 <= i < j < |xs| && Overlaps(span(xs[i]), span(xs[j]));
      assert !Disjoint(span)(xs[i], xs[j]);
    }
  }

  // Sorting by start and end, then comparing neighbours, finds something exactly
  // when two elements overlap anywhere in the list.
  lemma AdjacentScanSuffices<T(!new)>(xs: seq<T>, span: T -> Interval)
    ensures Adjacent(Sort(xs, KeyBy(span)), span) != [] <==> AnyOverlap(xs, span)
  {
    SortIsSorted(xs, KeyBy(span));
    NeighboursSuffice(Sort(xs, KeyBy(span)), span);
    PairwiseSort(xs, KeyBy(span), Disjoint(span));
    PairwiseMeansNone(xs, span);
  }

  method ScanNeighbours<T>(ordered: seq<T>, span: T -> Interval, report: T -> Finding) returns (findings: seq<Finding>)
    ensures findings == Map(Adjacent(ordered, span), report)
  {
    findings := [];
    var k := 1;
    while k < |ordered|
      invariant k >= 1 && (k <= |ordered| || ordered == [])
      invariant findings == Map(Adjacent(if ordered == [] then [] else ordered[..k], span), report)
    {
      assert ordered[..k + 1][..k] == ordered[..k];
      if Overlaps(span(ordered[k - 1]), span(ordered[k])) {
        findings := findings + [report(ordered[k])];
      }
      k := k + 1;
    }
    assert ordered == [] || ordered[..k] == ordered;
  }

  // Where a list's neighbours overlap: at the later of the two.
  function OverlapsBefore<T>(ordered: seq<T>, span: T -> Interval): nat -> bool {
    (k: nat) => 0 < k < |ordered|
                && span(ordered[k - 1]).start < span(ordered[k]).end && span(ordered[k]).start < span(ordered[k - 1]).end
  }

  // The scan reports each such position once, in order.
  lemma {:induction false} AdjacentListed<T>(ordered: seq<T>, span: T -> Interval) returns (ks: seq<nat>)
    ensures Lists(ks, |ordered|, OverlapsBefore(ordered, span)) && Picks(Adjacent(ordered, span), ordered, ks)
  {
    hide Lists, Picks, OverlapsBefore, Adjacent;
    if |ordered| < 2 {
      ks := [];
      NoNeighbours(ordered, span);
    } else {
      var n := |ordered| - 1;
      var before := ordered[..n];
      ks := AdjacentListed(before, span);
      OverlapsSnoc(ordered, span, ks);
      AdjacentSnoc(ordered, span);
      assert ordered == before + [ordered[n]];
      PicksSnoc(Adjacent(before, span), before, ks, ordered[n]);
      ks := ListsSnoc(ks, n, OverlapsBefore(ordered, span));
    }
  }

  lemma NoNeighbours<T>(ordered: seq<T>, span: T -> Interval)
    requires |ordered| < 2
    ensures Lists([], |ordered|, OverlapsBefore(ordered, span)) && Picks(Adjacent(ordered, span), ordered, [])
  {
  }

  lemma OverlapsSnoc<T>(ordered: seq<T>, span: T -> Interval, ks: seq<nat>)
    requires |ordered| >= 2 && Lists(ks, |ordered| - 1, OverlapsBefore(ordered[..|ordered| - 1], span))
    ensures Lists(ks, |ordered| - 1, OverlapsBefore(ordered, span))
  {
    var n := |ordered| - 1;
    var before := ordered[..n];
    assert forall k :: 0 <= k < n ==> before[k] == ordered[k];
    ListsSame(ks, n, OverlapsBefore(before, span), OverlapsBefore(ordered, span));
  }

  lemma AdjacentSnoc<T>(ordered: seq<T>, span: T -> Interval)
    requires |ordered| >= 2
    ensures var n := |ordered| - 1;
            Adjacent(ordered, span) ==
            if OverlapsBefore(ordered, span)(n) then Adjacent(ordered[..n], span) + [ordered[n]] else Adjacent(ordered[..n], span)
  {
    assert Adjacent(ordered[..|ordered| - 1], span) + [] == Adjacent(ordered[..|ordered| - 1], span);
  }

  // By start, then by end; the rest as it was.
  ghost predicate BySpan<T(!new)>(xs: seq<T>, ordered: seq<T>, span: T -> Interval) {
    && multiset(ordered) == multiset(xs)
    && (forall i, j :: 0 <= i < j < |ordered| ==>
          || span(ordered[i]).start < span(ordered[j]).start
          || (span(ordered[i]).start == span(ordered[j]).start && span(ordered[i]).end <= span(ordered[j]).end))
    && forall s: Interval :: Filter(ordered, Spanning(s, span)) == Filter(xs, Spanning(s, span))
  }

  function Spanning<T>(s: Interval, span: T -> Interval): T -> bool { (x: T) => span(x) == s }

  lemma SortBySpan<T(!new)>(xs: seq<T>, span: T -> Interval)
    ensures BySpan(xs, Sort(xs, KeyBy(span)), span)
  {
    var ordered := Sort(xs, KeyBy(span));
    SortKeepsElements(xs, KeyBy(span));
    SortIsSorted(xs, KeyBy(span));
    forall i, j | 0 <= i < j < |ordered|
      ensures || span(ordered[i]).start < span(ordered[j]).start
              || (span(ordered[i]).start == span(ordered[j]).start && span(ordered[i]).end <= span(ordered[j]).end)
    {
      assert KeyLeq(KeyBy(span)(ordered[i]), KeyBy(span)(ordered[j]));
    }
    forall s: Interval ensures Filter(ordered, Spanning(s, span)) == Filter(xs, Spanning(s, span)) {
      SortIsStable(xs, KeyBy(span), SpanKey(s));
      SameFilter(ordered, HasKey(KeyBy(span), SpanKey(s)), Spanning(s, span));
      SameFilter(xs, HasKey(KeyBy(span), SpanKey(s)), Spanning(s, span));
    }
  }

  // ----- words -----

  function WordSpan(w: Word): Interval { w.interval }

  function WordFinding(later: Word): Finding { Finding(Warning, "overlapping_words", Spoken(later.text), later.interval.start) }

  function WordFindings(words: seq<Word>): seq<Finding> {
    Map(Adjacent(Sort(words, KeyBy(WordSpan)), WordSpan), WordFinding)
  }

  // One warning for every word that starts before the end of the one before it,
  // in the order of their spans.
  ghost predicate WarnsOf(findings: seq<Finding>, ordered: seq<Word>, ks: seq<nat>) {
    && Lists(ks, |ordered|, OverlapsBefore(ordered, WordSpan)) && |findings| == |ks|
    && forall m :: 0 <= m < |ks| ==>
         && findings[m].severity == Warning && findings[m].code == "overlapping_words"
         && findings[m].subject == Spoken(ordered[ks[m]].text) && findings[m].at == ordered[ks[m]].interval.start
  }

  lemma WordFindingsListed(words: seq<Word>) returns (ordered: seq<Word>, ks: seq<nat>)
    ensures BySpan(words, ordered, WordSpan) && WarnsOf(WordFindings(words), ordered, ks)
  {
    ordered := Sort(words, KeyBy(WordSpan));
    SortBySpan(words, WordSpan);
    ks := AdjacentListed(ordered, WordSpan);
    hide Adjacent, Lists, BySpan, Sort;
  }

  method WordOrdering(words: seq<Word>) returns (findings: seq<Finding>)
    ensures findings == WordFindings(words)
    ensures exists ordered, ks :: BySpan(words, ordered, WordSpan) && WarnsOf(findings, ordered, ks)
  {
    ghost var ordered, ks := WordFindingsListed(words);
    hide BySpan, WarnsOf;
    findings := ScanNeighbours(Sort(words, KeyBy(WordSpan)), WordSpan, WordFinding);
  }

  lemma WordOverlapsAreFound(words: seq<Word>)
    ensures WordFindings(words) != [] <==>
            exists i, j :: 0 <= i < j < |words| && Overlaps(words[i].interval, words[j].interval)
  {
    AdjacentScanSuffices(words, WordSpan);
  }

  // ----- annotations, class by class -----

  function AnnotationSpan(a: Annotation): Interval { a.interval }

  function InClass(c: SpeechEventType): Annotation -> bool { (a: Annotation) => a.eventType == c }

  // The classes in the order they first appear, as a dictionary keeps them.
  function Classes(ds: seq<Annotation>): seq<SpeechEventType> {
    if ds == [] then []
    else
      var before, c := Classes(ds[..|ds| - 1]), ds[|ds| - 1].eventType;
      if c in before then before else before + [c]
  }

  function Group(ds: seq<Annotation>, c: SpeechEventType): seq<Annotation> { Filter(ds, InClass(c)) }

  function ClassFinding(later: Annotation): Finding {
    Finding(Error, "overlapping_same_class", Class(later.eventType), later.interval.start)
  }

  function GroupFindings(group: seq<Annotation>): seq<Finding> {
    Map(Adjacent(Sort(group, KeyBy(AnnotationSpan)), AnnotationSpan), ClassFinding)
  }

  // The same for the annotations of one class, as errors.
  ghost predicate ErrorsIn(findings: seq<Finding>, ordered: seq<Annotation>, ks: seq<nat>) {
    && Lists(ks, |ordered|, OverlapsBefore(ordered, AnnotationSpan)) && |findings| == |ks|
    && forall m :: 0 <= m < |ks| ==>
         && findings[m].severity == Error && findings[m].code == "overlapping_same_class"
         && findings[m].subject == Class(ordered[ks[m]].eventType) && findings[m].at == ordered[ks[m]].interval.start
  }

  lemma GroupFindingsListed(group: seq<Annotation>) returns (ordered: seq<Annotation>, ks: seq<nat>)
    ensures BySpan(group, ordered, AnnotationSpan) && ErrorsIn(GroupFindings(group), ordered, ks)
  {
    ordered := Sort(group, KeyBy(AnnotationSpan));
    SortBySpan(group, AnnotationSpan);
    ks := AdjacentListed(ordered, AnnotationSpan);
    hide Adjacent, Lists, BySpan, Sort;
  }

  function ClassFindings(ds: seq<Annotation>, classes: seq<SpeechEventType>): seq<Finding> {
    if classes == [] then []
    else ClassFindings(ds, classes[..|classes| - 1]) + GroupFindings(Group(ds, classes[|classes| - 1]))
  }

  lemma NothingInGroup(c: SpeechEventType)
    ensures Group([], c) == []
  {
  }

  lemma GroupSnoc(ds: seq<Annotation>, k: nat, c: SpeechEventType)
    requires k < |ds|
    ensures Group(ds[..k + 1], c) == if ds[k].eventType == c then Group(ds[..k], c) + [ds[k]] else Group(ds[..k], c)
  {
    assert ds[..k + 1] == ds[..k] + [ds[k]];
    FilterAppend(ds[..k], [ds[k]], InClass(c));
    assert [ds[k]][1..] == [];
  }

  method GroupByClass(ds: seq<Annotation>) returns (classes: seq<SpeechEventType>, byClass: map<SpeechEventType, seq<Annotation>>)
    ensures classes == Classes(ds)
    ensures forall c :: c in byClass <==> c in classes
    ensures forall c :: c in classes ==> byClass[c] == Group(ds, c)
  {
    hide Group;
    classes, byClass := [], map[];
    forall c ensures Group([], c) == [] { NothingInGroup(c); }
    for k := 0 to |ds|
      invariant classes == Classes(ds[..k])
      invariant forall c :: c in byClass <==> c in classes
      invariant forall c :: (if c in byClass then byClass[c] else []) == Group(ds[..k], c)
    {
      var c := ds[k].eventType;
      assert ds[..k + 1][..k] == ds[..k];
      forall d ensures Group(ds[..k + 1], d) == if d == c then Group(ds[..k], d) + [ds[k]] else Group(ds[..k], d) {
        GroupSnoc(ds, k, d);
      }
      if c !in byClass {
        classes := classes + [c];
        byClass := byClass[c := []];
      }
      byClass := byClass[c := byClass[c] + [ds[k]]];
    }
    assert ds[..|ds|] == ds;
  }

  method SameClassOverlaps(ds: seq<Annotation>) returns (findings: seq<Finding>)
    ensures findings == ClassFindings(ds, Classes(ds))
  {
    var classes, byClass := GroupByClass(ds);
    findings := [];
    for k := 0 to |classes|
      invariant findings == ClassFindings(ds, classes[..k])
    {
      assert classes[..k + 1][..k] == classes[..k];
      var found := ScanNeighbours(Sort(byClass[classes[k]], KeyBy(AnnotationSpan)), AnnotationSpan, ClassFinding);
      findings := findings + found;
    }
    assert classes[..|classes|] == classes;
  }

  // ----- what the findings mean -----

  lemma {:induction false} ClassesAppear(ds: seq<Annotation>)
    ensures forall a :: a in ds ==> a.eventType in Classes(ds)
  {
    if ds != [] {
      ClassesAppear(ds[..|ds| - 1]);
      assert ds == ds[..|ds| - 1] + [ds[|ds| - 1]];
    }
  }

  lemma {:induction false} AdjacentComesFrom<T>(ordered: seq<T>, span: T -> Interval)
    ensures forall x :: x in Adjacent(ordered, span) ==> x in ordered
  {
    if |ordered| >= 2 { AdjacentComesFrom(ordered[..|ordered| - 1], span); }
  }

  // Every finding of a group is about the group's class.
  lemma GroupFindingsAreAbout(ds: seq<Annotation>, c: SpeechEventType)
    ensures forall f :: f in GroupFindings(Group(ds, c)) ==> f.subject == Class(c)
  {
    var ordered := Sort(Group(ds, c), KeyBy(AnnotationSpan));
    AdjacentComesFrom(ordered, AnnotationSpan);
    SortKeepsElements(Group(ds, c), KeyBy(AnnotationSpan));
    var found := Adjacent(ordered, AnnotationSpan);
    forall f | f in GroupFindings(Group(ds, c)) ensures f.subject == Class(c) {
      var k :| 0 <= k < |found| && ClassFinding(found[k]) == f;
      assert found[k] in Group(ds, c);
    }
  }

  lemma {:induction false} FindingsOfClass(ds: seq<Annotation>, classes: seq<SpeechEventType>, c: SpeechEventType)
    ensures (exists f :: f in ClassFindings(ds, classes) && f.subject == Class(c)) <==>
            c in classes && GroupFindings(Group(ds, c)) != []
  {
    hide GroupFindings, Group;
    if classes != [] {
      var before, last := classes[..|classes| - 1], classes[|classes| - 1];
      FindingsOfClass(ds, before, c);
      GroupFindingsAreAbout(ds, last);
      assert classes == before + [last];
      var earlier, found := ClassFindings(ds, before), GroupFindings(Group(ds, last));
      if c == last && found != [] { assert found[0] in earlier + found && found[0].subject == Class(c); }
      if f :| f in earlier && f.subject == Class(c) { assert f in earlier + found; }
    }
  }

  predicate Clash(a: Annotation, b: Annotation, c: SpeechEventType) {
    a.eventType == c && b.eventType == c && Overlaps(a.interval, b.interval)
  }

  ghost predicate ClassOverlap(ds: seq<Annotation>, c: SpeechEventType) {
    exists i, j :: 0 <= i < j < |ds| && Clash(ds[i], ds[j], c)
  }

  function NoClash(c: SpeechEventType): (Annotation, Annotation) -> bool {
    (a: Annotation, b: Annotation) => !Clash(a, b, c)
  }

  lemma NoClashMeansNone(ds: seq<Annotation>, c: SpeechEventType)
    ensures Pairwise(ds, NoClash(c)) <==> !ClassOverlap(ds, c)
  {
    if !ClassOverlap(ds, c) {
      forall i, j | 0 <= i < j < |ds| ensures NoClash(c)(ds[i], ds[j]) {
        assert !Clash(ds[i], ds[j], c);
      }
    } else {
      var i, j :| 0 <= i < j < |ds| && Clash(ds[i], ds[j], c);
      assert !NoClash(c)(ds[i], ds[j]);
    }
  }

  // One annotation against a list, and against the part of it in its class.
  lemma RelatedInGroup(a: Annotation, ds: seq<Annotation>, c: SpeechEventType)
    ensures RelatedToAll(a, ds, NoClash(c)) <==> a.eventType != c || RelatedToAll(a, Group(ds, c), Disjoint(AnnotationSpan))
  {
    var group := Group(ds, c);
    if RelatedToAll(a, ds, NoClash(c)) && a.eventType == c {
      forall k | 0 <= k < |group| ensures Disjoint(AnnotationSpan)(a, group[k]) {
        assert group[k] in group && InClass(c)(group[k]);
        var i :| 0 <= i < |ds| && ds[i] == group[k];
        assert NoClash(c)(a, ds[i]) && !Clash(a, ds[i], c);
        assert AnnotationSpan(a) == a.interval && AnnotationSpan(ds[i]) == ds[i].interval;
      }
    }
    if a.eventType != c || RelatedToAll(a, group, Disjoint(AnnotationSpan)) {
      forall i | 0 <= i < |ds| ensures NoClash(c)(a, ds[i]) {
        if a.eventType == c && ds[i].eventType == c {
          assert InClass(c)(ds[i]) && ds[i] in group;
          var k :| 0 <= k < |group| && group[k] == ds[i];
          assert Disjoint(AnnotationSpan)(a, group[k]);
          assert AnnotationSpan(a) == a.interval && AnnotationSpan(ds[i]) == ds[i].interval;
        }
      }
    }
  }

  // Overlap within the class and overlap within its group are the same.
  lemma {:induction false} GroupOverlap(ds: seq<Annotation>, c: SpeechEventType)
    ensures Pairwise(Group(ds, c), Disjoint(AnnotationSpan)) <==> Pairwise(ds, NoClash(c))
  {
    hide Clash, Overlaps, RelatedToAll;
    if ds != [] {
      var rest := ds[1..];
      assert ds == [ds[0]] + rest;
      GroupOverlap(rest, c);
      PairwiseCons(ds[0], rest, NoClash(c));
      PairwiseCons(ds[0], Group(rest, c), Disjoint(AnnotationSpan));
      RelatedInGroup(ds[0], rest, c);
    }
  }

  lemma AbsentClass(ds: seq<Annotation>, c: SpeechEventType)
    requires forall a :: a in ds ==> a.eventType != c
    ensures !ClassOverlap(ds, c)
  {
    forall i, j | 0 <= i < j < |ds| ensures !Clash(ds[i], ds[j], c) {
      assert ds[i] in ds;
    }
  }

  // A class is reported exactly when two of its annotations overlap anywhere.
  lemma SameClassOverlapsAreFound(ds: seq<Annotation>, c: SpeechEventType)
    ensures (exists f :: f in ClassFindings(ds, Classes(ds)) && f.subject == Class(c)) <==> ClassOverlap(ds, c)
  {
    hide ClassFindings, Group, Clash, Overlaps, Classes, Pairwise, AnyOverlap, Adjacent, ClassOverlap;
    FindingsOfClass(ds, Classes(ds), c);
    ClassesAppear(ds);
    if c !in Classes(ds) { AbsentClass(ds, c); }
    AdjacentScanSuffices(Group(ds, c), AnnotationSpan);
    GroupOverlap(ds, c);
    NoClashMeansNone(ds, c);
    PairwiseMeansNone(Group(ds, c), AnnotationSpan);
  }

  // ----- the findings, class by class and in order -----

  function About(c: SpeechEventType): Finding -> bool { (f: Finding) => f.subject == Class(c) }

  lemma {:induction false} ClassesAreDistinct(ds: seq<Annotation>)
    ensures forall i, j :: 0 <= i < j < |Classes(ds)| ==> Classes(ds)[i] != Classes(ds)[j]
  {
    if ds != [] { ClassesAreDistinct(ds[..|ds| - 1]); }
  }

  function NewClass(ds: seq<Annotation>): nat -> bool {
    (k: nat) => k < |ds| && forall j :: 0 <= j < k ==> ds[j].eventType != ds[k].eventType
  }

  // The classes are those of the first annotations of a class, in order.
  lemma {:induction false} ClassesListed(ds: seq<Annotation>) returns (ks: seq<nat>)
    ensures Lists(ks, |ds|, NewClass(ds)) && |Classes(ds)| == |ks|
    ensures forall m :: 0 <= m < |ks| ==> ks[m] < |ds| && Classes(ds)[m] == ds[ks[m]].eventType
  {
    if ds == [] {
      ks := [];
    } else {
      var n := |ds| - 1;
      ks := ClassesListed(ds[..n]);
      NewClassSnoc(ds, ks);
      hide Lists, NewClass;
      ks := ListsSnoc(ks, n, NewClass(ds));
    }
  }

  lemma NewClassSnoc(ds: seq<Annotation>, ks: seq<nat>)
    requires ds != [] && Lists(ks, |ds| - 1, NewClass(ds[..|ds| - 1]))
    ensures Lists(ks, |ds| - 1, NewClass(ds))
    ensures NewClass(ds)(|ds| - 1) <==> ds[|ds| - 1].eventType !in Classes(ds[..|ds| - 1])
  {
    var n := |ds| - 1;
    var before := ds[..n];
    assert forall j :: 0 <= j < n ==> before[j] == ds[j];
    ListsSame(ks, n, NewClass(before), NewClass(ds));
    ClassesHold(before);
  }

  lemma {:induction false} ClassesHold(ds: seq<Annotation>)
    ensures forall c :: c in Classes(ds) <==> exists j :: 0 <= j < |ds| && ds[j].eventType == c
  {
    if ds != [] {
      var n := |ds| - 1;
      ClassesHold(ds[..n]);
      forall c ensures c in Classes(ds) <==> exists j :: 0 <= j < |ds| && ds[j].eventType == c {
        if c in Classes(ds[..n]) {
          var j :| 0 <= j < n && ds[..n][j].eventType == c;
          assert ds[j].eventType == c;
        }
        if j :| 0 <= j < |ds| && ds[j].eventType == c {
          if j < n { assert ds[..n][j].eventType == c; }
        }
        if c == ds[n].eventType { assert ds[n].eventType == c; }
      }
    }
  }

  lemma {:induction false} FindingsAboutOne(ds: seq<Annotation>, classes: seq<SpeechEventType>, c: SpeechEventType)
    requires forall i, j :: 0 <= i < j < |classes| ==> classes[i] != classes[j]
    ensures Filter(ClassFindings(ds, classes), About(c)) == if c in classes then GroupFindings(Group(ds, c)) else []
  {
    hide GroupFindings, Group, Filter;
    if classes == [] {
      FilterNone<Finding>([], About(c));
    } else {
      var before, last := classes[..|classes| - 1], classes[|classes| - 1];
      FindingsAboutOne(ds, before, c);
      var found := GroupFindings(Group(ds, last));
      FilterAppend(ClassFindings(ds, before), found, About(c));
      GroupFindingsAreAbout(ds, last);
      assert classes == before + [last];
      if last == c {
        FilterAll(found, About(c));
        assert [] + found == found;
      } else {
        FilterNone(found, About(c));
        assert GroupFindings(Group(ds, c)) + [] == GroupFindings(Group(ds, c));
      }
    }
  }

  lemma NoFindingsWithout(ds: seq<Annotation>, c: SpeechEventType)
    requires forall a :: a in ds ==> a.eventType != c
    ensures GroupFindings(Group(ds, c)) == []
  {
    FilterNone(ds, InClass(c));
  }

  // What is reported about one class: one error for every annotation of it that
  // starts before the end of the one before it, in the order of their spans.
  lemma ClassFindingsListed(ds: seq<Annotation>, c: SpeechEventType) returns (ordered: seq<Annotation>, ks: seq<nat>)
    ensures BySpan(Filter(ds, (a: Annotation) => a.eventType == c), ordered, AnnotationSpan)
    ensures ErrorsIn(Filter(ClassFindings(ds, Classes(ds)), About(c)), ordered, ks)
  {
    ClassesAreDistinct(ds);
    FindingsAboutOne(ds, Classes(ds), c);
    ClassesAppear(ds);
    if c !in Classes(ds) { NoFindingsWithout(ds, c); }
    ordered, ks := GroupFindingsListed(Group(ds, c));
    SameFilter(ds, InClass(c), (a: Annotation) => a.eventType == c);
    hide GroupFindings, ErrorsIn, BySpan, Filter;
  }

  // The findings of a class stand together, in the order the classes appear.
  lemma {:induction false} FindingsInClassOrder(ds: seq<Annotation>, classes: seq<SpeechEventType>) returns (at: seq<nat>)
    ensures |at| == |ClassFindings(ds, classes)| && forall i, j :: 0 <= i < j < |at| ==> at[i] <= at[j]
    ensures forall i :: 0 <= i < |at| ==> at[i] < |classes| && ClassFindings(ds, classes)[i].subject == Class(classes[at[i]])
  {
    hide GroupFindings, Group;
    if classes == [] {
      at := [];
    } else {
      var n := |classes| - 1;
      var before := FindingsInClassOrder(ds, classes[..n]);
      var found := GroupFindings(Group(ds, classes[n]));
      GroupFindingsAreAbout(ds, classes[n]);
      at := before + seq(|found|, _ => n);
    }
  }
}
