// Raw model scores mapped onto calibrated confidence.
module Calibration {
  import opened Taxonomy
  import opened Arithmetic

  datatype Confidence = Confidence(value: real, calibrated: bool)
  {
    // An uncalibrated score never clears a publication threshold.
    predicate Meets(threshold: real) { calibrated && value >= threshold }
  }

  datatype Point = Point(raw: real, probability: real)

  // The constructor's rules: at least two points, both coordinates sorted,
  // probabilities in [0, 1]. Raw scores may repeat.
  predicate IsCurve(points: seq<Point>) {
    && |points| >= 2
    && (forall i, j :: 0 <= i < j < |points| ==> points[i].raw <= points[j].raw)
    && (forall i, j :: 0 <= i < j < |points| ==> points[i].probability <= points[j].probability)
    && (forall i :: 0 <= i < |points| ==> 0.0 <= points[i].probability <= 1.0)
  }

  type Curve = c: seq<Point> | IsCurve(c) witness [Point(0.0, 0.0), Point(1.0, 1.0)]

  function Clamp(x: real, low: real, high: real): real {
    var raised := if x >= low then x else low;
    if raised <= high then raised else high
  }

  predicate Brackets(p: Point, q: Point, x: real) { p.raw <= x <= q.raw }

  function Interpolate(p: Point, q: Point, x: real): real {
    if q.raw == p.raw then q.probability
    else p.probability + ((x - p.raw) / (q.raw - p.raw)) * (q.probability - p.probability)
  }

  // The first segment from k on that brackets x.
  function Scan(c: Curve, k: nat, x: real): (s: Option<nat>)
    requires k < |c|
    ensures s.Some? ==> k <= s.value < |c| - 1 && Brackets(c[s.value], c[s.value + 1], x)
    decreases |c| - k
  {
    if k + 1 >= |c| then None
    else if Brackets(c[k], c[k + 1], x) then Some(k)
    else Scan(c, k + 1, x)
  }

  function Clamped(c: Curve, raw: real): real { Clamp(raw, c[0].raw, c[|c| - 1].raw) }

  function Apply(c: Curve, raw: real): real {
    var x := Clamped(c, raw);
    match Scan(c, 0, x)
    case Some(k) => Interpolate(c[k], c[k + 1], x)
    case None => c[|c| - 1].probability
  }

  function ClampUnit(x: real): real { Clamp(x, 0.0, 1.0) }

  function Calibrate(curves: map<string, Curve>, name: string, raw: real): Confidence {
    if name in curves then Confidence(ClampUnit(Apply(curves[name], raw)), true)
    else Confidence(ClampUnit(raw), false)
  }

  // ----- the scan always succeeds, and on the first bracket -----

  lemma {:induction false} ScanFinds(c: Curve, k: nat, x: real)
    requires k < |c| - 1 && c[k].raw <= x <= c[|c| - 1].raw
    ensures Scan(c, k, x).Some?
    ensures var s := Scan(c, k, x).value;
            && k <= s < |c| - 1 && Brackets(c[s], c[s + 1], x)
            && forall i :: k < i <= s ==> c[i].raw < x
    decreases |c| - k
  {
    if !Brackets(c[k], c[k + 1], x) {
      ScanFinds(c, k + 1, x);
    }
  }

  // The final fall-through of `apply` is never taken.
  lemma SomeSegmentBrackets(c: Curve, raw: real)
    ensures var s := Scan(c, 0, Clamped(c, raw));
            s.Some? && s.value + 1 < |c| && Brackets(c[s.value], c[s.value + 1], Clamped(c, raw))
  {
    ScanFinds(c, 0, Clamped(c, raw));
  }

  lemma InterpolateBounds(p: Point, q: Point, x: real)
    requires p.raw <= x <= q.raw && p.probability <= q.probability
    ensures p.probability <= Interpolate(p, q, x) <= q.probability
  {
    if p.raw < q.raw {
      var r, d := (x - p.raw) / (q.raw - p.raw), q.probability - p.probability;
      DivCompare(x - p.raw, q.raw - p.raw, 0.0);
      DivCompare(x - p.raw, q.raw - p.raw, 1.0);
      ScaledBounds(r, d);
    }
  }

  lemma ScaledBounds(r: real, d: real)
    requires 0.0 <= r <= 1.0 && d >= 0.0
    ensures 0.0 <= r * d <= d
  {
  }

  lemma InterpolateMonotone(p: Point, q: Point, x: real, y: real)
    requires p.raw <= x <= y <= q.raw && p.probability <= q.probability
    ensures Interpolate(p, q, x) <= Interpolate(p, q, y)
  {
    if p.raw < q.raw {
      var w := q.raw - p.raw;
      RatioMonotone(x - p.raw, y - p.raw, w);
      ScaledMonotone((x - p.raw) / w, (y - p.raw) / w, q.probability - p.probability);
    }
  }

  lemma RatioMonotone(a: real, b: real, w: real)
    requires a <= b && w > 0.0
    ensures a / w <= b / w
  {
    DivCompare(a, w, b / w);
    DivCompare(b, w, b / w);
  }

  lemma ScaledMonotone(a: real, b: real, d: real)
    requires a <= b && d >= 0.0
    ensures a * d <= b * d
  {
    assert (b - a) * d >= 0.0;
  }

  // ----- the broken line through the points -----

  // r lies on the line through two points with different raw scores.
  predicate OnLine(p: Point, q: Point, x: real, r: real) {
    (r - p.probability) * (q.raw - p.raw) == (x - p.raw) * (q.probability - p.probability)
  }

  lemma InterpolateOnLine(p: Point, q: Point, x: real)
    requires p.raw < q.raw
    ensures OnLine(p, q, x, Interpolate(p, q, x))
  {
    var w, d := q.raw - p.raw, q.probability - p.probability;
    var ratio := (x - p.raw) / w;
    assert ratio * w == x - p.raw;
    Interchange(ratio, d, w);
  }

  lemma Interchange(a: real, b: real, c: real)
    ensures (a * b) * c == (a * c) * b
  {
  }

  lemma RawAscends(c: Curve, i: nat, j: nat)
    requires i <= j < |c|
    ensures c[i].raw <= c[j].raw
  {
  }

  // The scan stops at the segment that ends at x or goes beyond it.
  lemma SegmentOf(c: Curve, k: nat, x: real)
    requires k + 1 < |c| && c[k].raw < x <= c[k + 1].raw
    ensures Clamped(c, x) == x && Scan(c, 0, x) == Some(k)
  {
    RawAscends(c, 0, k);
    RawAscends(c, k + 1, |c| - 1);
    ScanFinds(c, 0, x);
    var s := Scan(c, 0, x).value;
    hide IsCurve, Scan;
    assert s <= k;
    if s < k { RawAscends(c, s + 1, k); }
  }

  // Strictly between two points the result is on the line through them.
  lemma ApplyInterpolates(c: Curve, k: nat, x: real)
    requires k + 1 < |c| && c[k].raw < x < c[k + 1].raw
    ensures OnLine(c[k], c[k + 1], x, Apply(c, x))
  {
    SegmentOf(c, k, x);
    InterpolateOnLine(c[k], c[k + 1], x);
    hide Interpolate, OnLine;
  }

  // At the first of the points with its raw score, the result is that point's
  // probability; where the curve begins with a repeated score, the second one's.
  lemma ApplyMeetsPoints(c: Curve, k: nat)
    requires k < |c|
    ensures k > 0 && c[k - 1].raw < c[k].raw ==> Apply(c, c[k].raw) == c[k].probability
    ensures k == 0 && c[0].raw < c[1].raw ==> Apply(c, c[0].raw) == c[0].probability
    ensures k == 0 && c[0].raw == c[1].raw ==> Apply(c, c[0].raw) == c[1].probability
  {
    hide Scan, IsCurve, Interpolate;
    if k > 0 {
      if c[k - 1].raw < c[k].raw {
        SegmentOf(c, k - 1, c[k].raw);
        EndOfSegment(c[k - 1], c[k]);
      }
    } else {
      StartOfCurve(c);
    }
  }

  lemma StartOfCurve(c: Curve)
    ensures Apply(c, c[0].raw) == if c[0].raw < c[1].raw then c[0].probability else c[1].probability
  {
    RawAscends(c, 0, 1);
    RawAscends(c, 0, |c| - 1);
    assert Scan(c, 0, c[0].raw) == Some(0);
    if c[0].raw < c[1].raw { assert (c[0].raw - c[0].raw) / (c[1].raw - c[0].raw) == 0.0; }
  }

  lemma EndOfSegment(p: Point, q: Point)
    requires p.raw < q.raw
    ensures Interpolate(p, q, q.raw) == q.probability
  {
    assert (q.raw - p.raw) / (q.raw - p.raw) == 1.0;
  }

  // Outside the points the result is the one at the nearest of them.
  lemma ApplyClamps(c: Curve, x: real)
    ensures x < c[0].raw ==> Apply(c, x) == Apply(c, c[0].raw)
    ensures x > c[|c| - 1].raw ==> Apply(c, x) == Apply(c, c[|c| - 1].raw)
  {
    assert c[0].raw <= c[|c| - 1].raw;
  }

  // What is reported: the curve's result when the class has one, and otherwise
  // the raw score brought into [0, 1] and marked uncalibrated.
  lemma CalibrateReports(curves: map<string, Curve>, name: string, raw: real)
    ensures var r := Calibrate(curves, name, raw);
            && (r.calibrated <==> name in curves)
            && (name in curves ==> r.value == Apply(curves[name], raw))
            && (name !in curves ==> r.value == if raw < 0.0 then 0.0 else if raw > 1.0 then 1.0 else raw)
  {
    if name in curves { ApplyIsBounded(curves[name], raw); }
  }

  // ----- total, bounded and monotone -----

  lemma ApplyIsBounded(c: Curve, raw: real)
    ensures c[0].probability <= Apply(c, raw) <= c[|c| - 1].probability
    ensures 0.0 <= Apply(c, raw) <= 1.0
  {
    var x := Clamped(c, raw);
    ScanFinds(c, 0, x);
    var s := Scan(c, 0, x).value;
    InterpolateBounds(c[s], c[s + 1], x);
    assert c[0].probability <= c[s].probability;
    assert s + 1 < |c| - 1 ==> c[s + 1].probability <= c[|c| - 1].probability;
  }

  lemma ApplyIsMonotone(c: Curve, low: real, high: real)
    requires low <= high
    ensures Apply(c, low) <= Apply(c, high)
  {
    var x, y := Clamped(c, low), Clamped(c, high);
    ScanFinds(c, 0, x);
    ScanFinds(c, 0, y);
    var s, t := Scan(c, 0, x).value, Scan(c, 0, y).value;
    InterpolateBounds(c[s], c[s + 1], x);
    InterpolateBounds(c[t], c[t + 1], y);
    if s == t {
      InterpolateMonotone(c[s], c[s + 1], x, y);
    } else if s < t {
      assert s + 1 < t ==> c[s + 1].probability <= c[t].probability;
    } else {
      // the scan for y would have stopped earlier for x too
      assert false;
    }
  }

  // A higher raw score never closes a publication gate the lower one passed.
  lemma HigherScoreKeepsGate(curves: map<string, Curve>, name: string, low: real, high: real, threshold: real)
    requires low <= high
    ensures Calibrate(curves, name, low).Meets(threshold) ==> Calibrate(curves, name, high).Meets(threshold)
    ensures 0.0 <= Calibrate(curves, name, low).value <= 1.0
    ensures Calibrate(curves, name, low).Meets(threshold) ==> name in curves && Apply(curves[name], low) >= threshold
  {
    if name in curves {
      ApplyIsMonotone(curves[name], low, high);
      ApplyIsBounded(curves[name], low);
      ApplyIsBounded(curves[name], high);
    }
  }
}
