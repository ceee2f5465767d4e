// Annotation records: the intervals two annotators draw, and how far two
// intervals overlap.
module Records {
  import opened Taxonomy
  import opened Arithmetic

  datatype Span = Span(start: int, end: int)

  // The constructor refuses a negative start and an empty duration.
  type Interval = s: Span | 0 <= s.start < s.end witness Span(0, 1)

  function Duration(a: Interval): int { a.end - a.start }

  predicate Overlaps(a: Interval, b: Interval) { a.start < b.end && b.start < a.end }

  function Intersection(a: Interval, b: Interval): int {
    Max(0, Min(a.end, b.end) - Max(a.start, b.start))
  }

  function Union(a: Interval, b: Interval): int {
    Duration(a) + Duration(b) - Intersection(a, b)
  }

  function Iou(a: Interval, b: Interval): real {
    if Union(a, b) != 0 then Intersection(a, b) as real / Union(a, b) as real else 0.0
  }

  datatype Annotation = Annotation(
    eventType: SpeechEventType, interval: Interval, annotator: string,
    rawText: string, role: Option<ContextualRole>)

  datatype Word = Word(text: string, interval: Interval)

  datatype Recording = Recording(
    recordingId: string, annotator: string, words: seq<Word>, disfluencies: seq<Annotation>)

  // The index is a similarity: it lies in [0, 1], does not depend on the
  // order, is positive exactly for overlapping spans and 1 only for equal ones.
  lemma IouIsSimilarity(a: Interval, b: Interval)
    ensures 0.0 <= Iou(a, b) <= 1.0
    ensures Iou(a, b) == Iou(b, a)
    ensures Iou(a, b) > 0.0 <==> Overlaps(a, b)
    ensures Iou(a, b) == 1.0 <==> a == b
  {
    var i, u := Intersection(a, b), Union(a, b);
    assert 0 <= i <= u && 0 < u;
    DivCompare(i as real, u as real, 0.0);
    DivCompare(i as real, u as real, 1.0);
  }

  // Two spans whose index exceeds one half share more than half of each.
  lemma IouAboveHalf(a: Interval, b: Interval)
    requires Iou(a, b) > 0.5
    ensures 2 * Intersection(a, b) > Duration(a)
    ensures 2 * Intersection(a, b) > Duration(b)
  {
    QuotientAboveHalf(Intersection(a, b), Union(a, b));
  }

  lemma QuotientAboveHalf(i: int, u: int)
    requires 0 < u && i as real / u as real > 0.5
    ensures 2 * i > u
  {
    DivCompare(i as real, u as real, 0.5);
  }

  // ----- the index as a measure of milliseconds -----

  predicate Within(lo: int, ms: int, hi: int) { lo <= ms < hi }

  function Milliseconds(lo: int, hi: int): set<int> { set ms | lo <= ms < hi && Within(lo, ms, hi) }

  lemma {:induction false} MillisecondsCount(lo: int, hi: int)
    ensures |Milliseconds(lo, hi)| == if lo <= hi then hi - lo else 0
    decreases hi - lo
  {
    if lo < hi {
      MillisecondsCount(lo, hi - 1);
      assert Milliseconds(lo, hi) == Milliseconds(lo, hi - 1) + {hi - 1};
    } else {
      assert Milliseconds(lo, hi) == {};
    }
  }

  lemma SharedAndJoint(a: Interval, b: Interval)
    ensures var x, y := Milliseconds(a.start, a.end), Milliseconds(b.start, b.end);
            |x * y| == Intersection(a, b) && |x + y| == Union(a, b) > 0
  {
    var x, y := Milliseconds(a.start, a.end), Milliseconds(b.start, b.end);
    var lo, hi := Max(a.start, b.start), Min(a.end, b.end);
    MillisecondsCount(a.start, a.end);
    MillisecondsCount(b.start, b.end);
    MillisecondsCount(lo, hi);
    assert x * y == Milliseconds(lo, hi);
    assert |x + y| == |x| + |y| - |x * y|;
  }

  lemma IouTimesUnion(a: Interval, b: Interval)
    ensures Iou(a, b) * Union(a, b) as real == Intersection(a, b) as real
  {
    DivCompare(Intersection(a, b) as real, Union(a, b) as real, Iou(a, b));
  }

  // The milliseconds both spans cover, over the milliseconds at least one covers.
  lemma IouIsMeasure(a: Interval, b: Interval)
    ensures var x, y := Milliseconds(a.start, a.end), Milliseconds(b.start, b.end);
            |x + y| > 0 && Iou(a, b) * |x + y| as real == |x * y| as real
  {
    hide Iou, Union, Intersection, Milliseconds;
    SharedAndJoint(a, b);
    IouTimesUnion(a, b);
  }
}
