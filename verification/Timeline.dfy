// The shared monotonic timeline: half-open spans in integer milliseconds.
module Timeline {

  datatype Span = Span(start: int, end: int, tolerance: int)

  // An empty span is allowed here, unlike in the annotation records.
  type Interval = s: Span | 0 <= s.start <= s.end && 0 <= s.tolerance witness Span(0, 0, 0)

  const DEFAULT_TOLERANCE_MS := 250

  // What the interval constructor accepts.
  predicate IsSpan(start: int, end: int) { 0 <= start <= end }

  function IntervalOf(start: int, end: int): Interval
    requires IsSpan(start, end)
  {
    Span(start, end, DEFAULT_TOLERANCE_MS)
  }

  predicate Overlaps(a: Interval, b: Interval) { a.start < b.end && b.start < a.end }

  function GapTo(a: Interval, b: Interval): int {
    if Overlaps(a, b) then 0
    else if a.end <= b.start then b.start - a.end
    else a.start - b.end
  }

  // The gap is the larger of the two signed distances, and zero when the spans
  // overlap or touch; empty spans included.
  lemma GapIsDistance(a: Interval, b: Interval)
    ensures GapTo(a, b) == GapTo(b, a)
    ensures GapTo(a, b) >= 0 && GapTo(a, b) >= b.start - a.end && GapTo(a, b) >= a.start - b.end
    ensures GapTo(a, b) in {0, b.start - a.end, a.start - b.end}
    ensures GapTo(a, b) == 0 <==> a.start <= b.end && b.start <= a.end
  {
  }
}
