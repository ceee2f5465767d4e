// Temporal co-occurrence: which speech events and visual events happened
// within a window of each other.
module Fusion {
  import opened Ordering
  import opened Timeline

  datatype FusionWindow = FusionWindow(width: nat, configuration: string)
  {
    predicate Admits(gap: int) { gap <= width }
  }

  datatype TimedEvent = TimedEvent(id: string, interval: Interval)

  datatype Cooccurrence = Cooccurrence(speechId: string, visualId: string, distance: int, window: FusionWindow)

  function EventKey(e: TimedEvent): Key { Key(e.interval.start, e.interval.end, e.id) }

  // One speech event against the visual events, in their order.
  function Row(s: TimedEvent, visual: seq<TimedEvent>, window: FusionWindow): seq<Cooccurrence> {
    if visual == [] then []
    else
      var gap := GapTo(s.interval, visual[0].interval);
      (if window.Admits(gap) then [Cooccurrence(s.id, visual[0].id, gap, window)] else [])
      + Row(s, visual[1..], window)
  }

  function Rows(speech: seq<TimedEvent>, visual: seq<TimedEvent>, window: FusionWindow): seq<Cooccurrence> {
    if speech == [] then [] else Row(speech[0], visual, window) + Rows(speech[1..], visual, window)
  }

  function Correlated(speech: seq<TimedEvent>, visual: seq<TimedEvent>, window: FusionWindow): seq<Cooccurrence> {
    Rows(Sort(speech, EventKey), Sort(visual, EventKey), window)
  }

  // ----- what is to be reported, without the algorithm -----

  // The spans overlap, or lie at most `width` apart.
  predicate Near(a: Interval, b: Interval, width: int) { b.start - a.end <= width && a.start - b.end <= width }

  // The positions of the pairs to be reported.
  function Nearby(speech: seq<TimedEvent>, visual: seq<TimedEvent>, width: int): set<(nat, nat)> {
    set i: nat, j: nat | i < |speech| && j < |visual| && Near(speech[i].interval, visual[j].interval, width) :: (i, j)
  }

  // By start, then by end, then by identifier.
  ghost predicate Ascending(events: seq<TimedEvent>) {
    forall i, j :: 0 <= i < j < |events| ==>
      || events[i].interval.start < events[j].interval.start
      || (events[i].interval.start == events[j].interval.start
          && (|| events[i].interval.end < events[j].interval.end
              || (events[i].interval.end == events[j].interval.end && StringLeq(events[i].id, events[j].id))))
  }

  ghost predicate RowByRow(at: seq<(nat, nat)>) {
    forall m, n :: 0 <= m < n < |at| ==> at[m].0 < at[n].0 || (at[m].0 == at[n].0 && at[m].1 < at[n].1)
  }

  // c says that s and v happened this far apart: nothing between them, or the
  // distance from the end of one to the start of the other.
  ghost predicate Says(c: Cooccurrence, s: TimedEvent, v: TimedEvent, window: FusionWindow) {
    && c.speechId == s.id && c.visualId == v.id && c.window == window
    && c.distance >= 0 && c.distance >= v.interval.start - s.interval.end && c.distance >= s.interval.start - v.interval.end
    && c.distance in {0, v.interval.start - s.interval.end, s.interval.start - v.interval.end}
  }

  // One report for every position, each position once, row by row.
  ghost predicate ReportsAt(pairs: seq<Cooccurrence>, ss: seq<TimedEvent>, vs: seq<TimedEvent>, window: FusionWindow, at: seq<(nat, nat)>) {
    && RowByRow(at) && |pairs| == |at|
    && (forall p :: p in at <==> p in Nearby(ss, vs, window.width))
    && (forall m :: 0 <= m < |at| ==> at[m].0 < |ss| && at[m].1 < |vs| && Says(pairs[m], ss[at[m].0], vs[at[m].1], window))
  }

  // The reports of the two inputs, each taken in ascending order.
  ghost predicate IsReport(pairs: seq<Cooccurrence>, speech: seq<TimedEvent>, visual: seq<TimedEvent>, window: FusionWindow) {
    exists ss, vs, at ::
      && multiset(ss) == multiset(speech) && Ascending(ss)
      && multiset(vs) == multiset(visual) && Ascending(vs)
      && ReportsAt(pairs, ss, vs, window, at)
  }

  // The inner loop.
  method CorrelateOne(s: TimedEvent, visual: seq<TimedEvent>, window: FusionWindow) returns (pairs: seq<Cooccurrence>)
    ensures pairs == Row(s, visual, window)
  {
    pairs := [];
    for j := 0 to |visual|
      invariant pairs + Row(s, visual[j..], window) == Row(s, visual, window)
    {
      assert visual[j..][0] == visual[j] && visual[j..][1..] == visual[j + 1..];
      var gap := GapTo(s.interval, visual[j].interval);
      ghost var rest := Row(s, visual[j + 1..], window);
      assert [] + rest == rest;
      if !window.Admits(gap) {
        continue;
      }
      Associate(pairs, [Cooccurrence(s.id, visual[j].id, gap, window)], rest);
      pairs := pairs + [Cooccurrence(s.id, visual[j].id, gap, window)];
    }
    assert visual[0..] == visual && pairs + [] == pairs;
  }

  method Correlate(speech: seq<TimedEvent>, visual: seq<TimedEvent>, window: FusionWindow)
    returns (pairs: seq<Cooccurrence>)
    ensures pairs == Correlated(speech, visual, window)
    ensures |pairs| == |Nearby(speech, visual, window.width)|
    ensures IsReport(pairs, speech, visual, window)
  {
    CorrelateReports(speech, visual, window);
    hide Nearby, IsReport;
    var ss, vs := Sort(speech, EventKey), Sort(visual, EventKey);
    pairs := [];
    for i := 0 to |ss|
      invariant pairs + Rows(ss[i..], vs, window) == Rows(ss, vs, window)
    {
      assert ss[i..][0] == ss[i] && ss[i..][1..] == ss[i + 1..];
      var row := CorrelateOne(ss[i], vs, window);
      pairs := pairs + row;
    }
  }

  // ----- every pair once, in order -----

  // The near positions from (i, j) on, row by row.
  function Grid(ss: seq<TimedEvent>, vs: seq<TimedEvent>, width: int, i: nat, j: nat): seq<(nat, nat)>
    requires i <= |ss| && j <= |vs|
    decreases |ss| - i, |vs| - j
  {
    if i == |ss| then []
    else if j == |vs| then Grid(ss, vs, width, i + 1, 0)
    else (if Near(ss[i].interval, vs[j].interval, width) then [(i, j)] else []) + Grid(ss, vs, width, i, j + 1)
  }

  predicate After(p: (nat, nat), i: nat, j: nat) { p.0 > i || (p.0 == i && p.1 >= j) }

  predicate IsNear(p: (nat, nat), ss: seq<TimedEvent>, vs: seq<TimedEvent>, width: int) {
    p.0 < |ss| && p.1 < |vs| && Near(ss[p.0].interval, vs[p.1].interval, width)
  }

  lemma {:induction false} GridHolds(ss: seq<TimedEvent>, vs: seq<TimedEvent>, width: int, i: nat, j: nat)
    requires i <= |ss| && j <= |vs|
    ensures forall p :: p in Grid(ss, vs, width, i, j) <==> IsNear(p, ss, vs, width) && After(p, i, j)
    ensures RowByRow(Grid(ss, vs, width, i, j))
    decreases |ss| - i, |vs| - j
  {
    hide Near, RowByRow;
    if i == |ss| {
      NoRows();
    } else if j == |vs| {
      GridHolds(ss, vs, width, i + 1, 0);
    } else {
      GridHolds(ss, vs, width, i, j + 1);
      var rest := Grid(ss, vs, width, i, j + 1);
      forall p: (nat, nat) | After(p, i, j) && !After(p, i, j + 1) ensures p == (i, j) {
        assert p == (p.0, p.1);
      }
      if Near(ss[i].interval, vs[j].interval, width) {
        RowByRowCons((i, j), rest);
      } else {
        assert [] + rest == rest;
      }
    }
  }

  lemma NoRows()
    ensures RowByRow([])
  {
  }

  lemma RowByRowCons(p: (nat, nat), at: seq<(nat, nat)>)
    requires RowByRow(at) && forall q :: q in at ==> q.0 > p.0 || (q.0 == p.0 && q.1 > p.1)
    ensures RowByRow([p] + at)
  {
    var all := [p] + at;
    forall m, n | 0 <= m < n < |all| ensures all[m].0 < all[n].0 || (all[m].0 == all[n].0 && all[m].1 < all[n].1) {
      assert all[n] == at[n - 1] && all[n] in at;
      if m > 0 { assert all[m] == at[m - 1]; }
    }
  }

  function Report(s: TimedEvent, v: TimedEvent, window: FusionWindow): Cooccurrence {
    Cooccurrence(s.id, v.id, GapTo(s.interval, v.interval), window)
  }

  function ReportAll(at: seq<(nat, nat)>, ss: seq<TimedEvent>, vs: seq<TimedEvent>, window: FusionWindow): (r: seq<Cooccurrence>)
    requires forall p :: p in at ==> p.0 < |ss| && p.1 < |vs|
    ensures |r| == |at|
    ensures forall m :: 0 <= m < |at| ==> at[m] in at && r[m] == Report(ss[at[m].0], vs[at[m].1], window)
  {
    assert forall m :: 0 <= m < |at| ==> at[m] in at;
    seq(|at|, m requires 0 <= m < |at| => Report(ss[at[m].0], vs[at[m].1], window))
  }

  lemma ReportAllCons(p: (nat, nat), at: seq<(nat, nat)>, ss: seq<TimedEvent>, vs: seq<TimedEvent>, window: FusionWindow)
    requires p.0 < |ss| && p.1 < |vs| && forall q :: q in at ==> q.0 < |ss| && q.1 < |vs|
    ensures forall q :: q in [p] + at ==> q.0 < |ss| && q.1 < |vs|
    ensures ReportAll([p] + at, ss, vs, window) == [Report(ss[p.0], vs[p.1], window)] + ReportAll(at, ss, vs, window)
  {
    hide Report;
  }

  lemma ReportsCons(
    p: (nat, nat), at: seq<(nat, nat)>, ss: seq<TimedEvent>, vs: seq<TimedEvent>, window: FusionWindow,
    row: seq<Cooccurrence>, rows: seq<Cooccurrence>)
    requires p.0 < |ss| && p.1 < |vs| && forall q :: q in at ==> q.0 < |ss| && q.1 < |vs|
    requires ReportAll(at, ss, vs, window) == row + rows
    ensures forall q :: q in [p] + at ==> q.0 < |ss| && q.1 < |vs|
    ensures ReportAll([p] + at, ss, vs, window) == ([Report(ss[p.0], vs[p.1], window)] + row) + rows
  {
    hide Report, ReportAll;
    ReportAllCons(p, at, ss, vs, window);
    Associate([Report(ss[p.0], vs[p.1], window)], row, rows);
  }

  // The rest of row i, then the rows behind it, report the grid.
  ghost predicate GridReported(ss: seq<TimedEvent>, vs: seq<TimedEvent>, window: FusionWindow, i: nat, j: nat)
    requires i <= |ss| && j <= |vs|
  {
    var at := Grid(ss, vs, window.width, i, j);
    && (forall p :: p in at ==> p.0 < |ss| && p.1 < |vs|)
    && ReportAll(at, ss, vs, window) == if i == |ss| then [] else Row(ss[i], vs[j..], window) + Rows(ss[i + 1..], vs, window)
  }

  lemma {:induction false} GridIsReported(ss: seq<TimedEvent>, vs: seq<TimedEvent>, window: FusionWindow, i: nat, j: nat)
    requires i <= |ss| && j <= |vs|
    ensures GridReported(ss, vs, window, i, j)
    decreases |ss| - i, |vs| - j
  {
    hide GridReported;
    if i == |ss| {
      NothingToReport(ss, vs, window, j);
    } else if j == |vs| {
      GridIsReported(ss, vs, window, i + 1, 0);
      NextRow(ss, vs, window, i);
    } else {
      GridIsReported(ss, vs, window, i, j + 1);
      NextColumn(ss, vs, window, i, j);
    }
  }

  lemma NextRow(ss: seq<TimedEvent>, vs: seq<TimedEvent>, window: FusionWindow, i: nat)
    requires i < |ss| && GridReported(ss, vs, window, i + 1, 0)
    ensures GridReported(ss, vs, window, i, |vs|)
  {
    hide Grid, GapTo, Report, ReportAll, Row, Rows, Near;
    RowEnds(ss[i], vs, window);
    RowsFrom(ss, vs, window, i + 1);
    GridEnds(ss, vs, window.width, i);
    assert vs[0..] == vs;
    assert [] + Rows(ss[i + 1..], vs, window) == Rows(ss[i + 1..], vs, window);
  }

  lemma GridEnds(ss: seq<TimedEvent>, vs: seq<TimedEvent>, width: int, i: nat)
    requires i < |ss|
    ensures Grid(ss, vs, width, i, |vs|) == Grid(ss, vs, width, i + 1, 0)
  {
  }

  lemma RowEnds(s: TimedEvent, vs: seq<TimedEvent>, window: FusionWindow)
    ensures Row(s, vs[|vs|..], window) == []
  {
  }

  lemma NextColumn(ss: seq<TimedEvent>, vs: seq<TimedEvent>, window: FusionWindow, i: nat, j: nat)
    requires i < |ss| && j < |vs| && GridReported(ss, vs, window, i, j + 1)
    ensures GridReported(ss, vs, window, i, j)
  {
    hide Grid, GapTo, Report, ReportAll, Row, Rows, Near;
    GridStep(ss, vs, window.width, i, j);
    RowFrom(ss[i], vs, window, j);
    var rest := Grid(ss, vs, window.width, i, j + 1);
    if Near(ss[i].interval, vs[j].interval, window.width) {
      ReportsCons((i, j), rest, ss, vs, window, Row(ss[i], vs[j + 1..], window), Rows(ss[i + 1..], vs, window));
    }
  }

  lemma GridStep(ss: seq<TimedEvent>, vs: seq<TimedEvent>, width: int, i: nat, j: nat)
    requires i < |ss| && j < |vs|
    ensures Grid(ss, vs, width, i, j) ==
            if Near(ss[i].interval, vs[j].interval, width) then [(i, j)] + Grid(ss, vs, width, i, j + 1)
            else Grid(ss, vs, width, i, j + 1)
  {
    assert [] + Grid(ss, vs, width, i, j + 1) == Grid(ss, vs, width, i, j + 1);
  }

  lemma NothingToReport(ss: seq<TimedEvent>, vs: seq<TimedEvent>, window: FusionWindow, j: nat)
    requires j <= |vs|
    ensures GridReported(ss, vs, window, |ss|, j)
  {
  }

  lemma RowFrom(s: TimedEvent, vs: seq<TimedEvent>, window: FusionWindow, j: nat)
    requires j < |vs|
    ensures Row(s, vs[j..], window) ==
            if Near(s.interval, vs[j].interval, window.width) then [Report(s, vs[j], window)] + Row(s, vs[j + 1..], window)
            else Row(s, vs[j + 1..], window)
  {
    GapIsDistance(s.interval, vs[j].interval);
    assert vs[j..][0] == vs[j] && vs[j..][1..] == vs[j + 1..];
    assert [] + Row(s, vs[j + 1..], window) == Row(s, vs[j + 1..], window);
  }

  lemma RowsFrom(ss: seq<TimedEvent>, vs: seq<TimedEvent>, window: FusionWindow, i: nat)
    requires i <= |ss|
    ensures Rows(ss[i..], vs, window) == if i == |ss| then [] else Row(ss[i], vs, window) + Rows(ss[i + 1..], vs, window)
  {
    if i < |ss| { assert ss[i..][0] == ss[i] && ss[i..][1..] == ss[i + 1..]; }
  }

  lemma {:induction false} RowByRowCount(at: seq<(nat, nat)>)
    requires RowByRow(at)
    ensures |set p | p in at| == |at|
  {
    if at != [] {
      var before, last := at[..|at| - 1], at[|at| - 1];
      RowByRowCount(before);
      assert at == before + [last];
      assert (set p | p in at) == (set p | p in before) + {last};
    }
  }

  function Moved(ps: set<(nat, nat)>, rows: seq<nat>, columns: seq<nat>): set<(nat, nat)>
    requires forall p :: p in ps ==> p.0 < |rows| && p.1 < |columns|
  {
    set p | p in ps :: (rows[p.0], columns[p.1])
  }

  lemma {:induction false} MovedCount(ps: set<(nat, nat)>, rows: seq<nat>, columns: seq<nat>)
    requires forall p :: p in ps ==> p.0 < |rows| && p.1 < |columns|
    requires forall i, j :: 0 <= i < j < |rows| ==> rows[i] != rows[j]
    requires forall i, j :: 0 <= i < j < |columns| ==> columns[i] != columns[j]
    ensures |Moved(ps, rows, columns)| == |ps|
  {
    if ps != {} {
      var p :| p in ps;
      var rest := ps - {p};
      MovedCount(rest, rows, columns);
      var q := (rows[p.0], columns[p.1]);
      assert ps == rest + {p};
      assert Moved(ps, rows, columns) == Moved(rest, rows, columns) + {q};
      forall r | r in rest ensures (rows[r.0], columns[r.1]) != q {
        assert r == (r.0, r.1) && p == (p.0, p.1);
      }
    }
  }

  // How many pairs are near does not depend on the order of the lists.
  lemma NearbyAtMost(ss: seq<TimedEvent>, speech: seq<TimedEvent>, vs: seq<TimedEvent>, visual: seq<TimedEvent>, width: int)
    requires multiset(ss) == multiset(speech) && multiset(vs) == multiset(visual)
    ensures |Nearby(ss, vs, width)| <= |Nearby(speech, visual, width)|
  {
    var rows := Rearrangement(ss, speech);
    var columns := Rearrangement(vs, visual);
    var ps := Nearby(ss, vs, width);
    MovedCount(ps, rows, columns);
    assert Moved(ps, rows, columns) <= Nearby(speech, visual, width);
    Contained(Moved(ps, rows, columns), Nearby(speech, visual, width));
  }

  lemma Contained<T>(a: set<T>, b: set<T>)
    requires a <= b
    ensures |a| <= |b|
  {
    assert b == a + (b - a);
  }

  lemma SortAscends(events: seq<TimedEvent>)
    ensures Ascending(Sort(events, EventKey)) && multiset(Sort(events, EventKey)) == multiset(events)
  {
    SortIsSorted(events, EventKey);
    SortKeepsElements(events, EventKey);
    var sorted := Sort(events, EventKey);
    forall i, j | 0 <= i < j < |sorted| ensures KeyLeq(EventKey(sorted[i]), EventKey(sorted[j])) { }
  }

  // The reports are those of the near pairs of the two inputs in ascending order.
  lemma CorrelateReports(speech: seq<TimedEvent>, visual: seq<TimedEvent>, window: FusionWindow)
    ensures IsReport(Correlated(speech, visual, window), speech, visual, window)
    ensures |Correlated(speech, visual, window)| == |Nearby(speech, visual, window.width)|
  {
    var ss, vs := Sort(speech, EventKey), Sort(visual, EventKey);
    SortAscends(speech);
    SortAscends(visual);
    var at := RowsReport(ss, vs, window);
    hide Nearby, ReportsAt, Ascending, Sort, Rows;
    NearbyAtMost(ss, speech, vs, visual, window.width);
    NearbyAtMost(speech, ss, visual, vs, window.width);
  }

  lemma RowsReport(ss: seq<TimedEvent>, vs: seq<TimedEvent>, window: FusionWindow) returns (at: seq<(nat, nat)>)
    ensures ReportsAt(Rows(ss, vs, window), ss, vs, window, at) && |Rows(ss, vs, window)| == |Nearby(ss, vs, window.width)|
  {
    at := Grid(ss, vs, window.width, 0, 0);
    GridHolds(ss, vs, window.width, 0, 0);
    GridIsReported(ss, vs, window, 0, 0);
    RowsFrom(ss, vs, window, 0);
    assert ss[0..] == ss && vs[0..] == vs;
    hide Nearby, ReportsAt, Rows, Row, Grid, RowByRow, IsNear;
    GridReports(ss, vs, window, at);
  }

  lemma GridReports(ss: seq<TimedEvent>, vs: seq<TimedEvent>, window: FusionWindow, at: seq<(nat, nat)>)
    requires RowByRow(at) && (forall p :: p in at <==> IsNear(p, ss, vs, window.width) && After(p, 0, 0))
    requires forall p :: p in at ==> p.0 < |ss| && p.1 < |vs|
    ensures ReportsAt(ReportAll(at, ss, vs, window), ss, vs, window, at) && |at| == |Nearby(ss, vs, window.width)|
  {
    hide Near, Says, RowByRow;
    forall p: (nat, nat) ensures p in at <==> p in Nearby(ss, vs, window.width) {
      assert p == (p.0, p.1);
    }
    forall m | 0 <= m < |at|
      ensures at[m].0 < |ss| && at[m].1 < |vs| && Says(ReportAll(at, ss, vs, window)[m], ss[at[m].0], vs[at[m].1], window)
    {
      assert at[m] in at;
      ReportSays(ss[at[m].0], vs[at[m].1], window);
    }
    RowByRowCount(at);
    assert (set p | p in at) == Nearby(ss, vs, window.width);
  }

  lemma ReportSays(s: TimedEvent, v: TimedEvent, window: FusionWindow)
    ensures Says(Report(s, v, window), s, v, window)
  {
    GapIsDistance(s.interval, v.interval);
  }

  // ----- complete: exactly the admissible pairs -----

  lemma {:induction false} RowHas(s: TimedEvent, visual: seq<TimedEvent>, window: FusionWindow, c: Cooccurrence)
    ensures c in Row(s, visual, window) <==>
            exists v :: v in visual && window.Admits(GapTo(s.interval, v.interval))
                        && c == Cooccurrence(s.id, v.id, GapTo(s.interval, v.interval), window)
  {
    if visual != [] {
      RowHas(s, visual[1..], window, c);
      assert visual == [visual[0]] + visual[1..];
    }
  }

  lemma {:induction false} RowsHave(speech: seq<TimedEvent>, visual: seq<TimedEvent>, window: FusionWindow, c: Cooccurrence)
    ensures c in Rows(speech, visual, window) <==> exists s :: s in speech && c in Row(s, visual, window)
  {
    if speech != [] {
      RowsHave(speech[1..], visual, window, c);
      if c in Row(speech[0], visual, window) { assert speech[0] in speech; }
      if s :| s in speech[1..] && c in Row(s, visual, window) { assert s in speech; }
      if s :| s in speech && c in Row(s, visual, window) { assert s == speech[0] || s in speech[1..]; }
    }
  }

  lemma CorrelateIsComplete(speech: seq<TimedEvent>, visual: seq<TimedEvent>, window: FusionWindow, c: Cooccurrence)
    ensures c in Correlated(speech, visual, window) <==>
            exists s, v :: s in speech && v in visual && window.Admits(GapTo(s.interval, v.interval))
                           && c == Cooccurrence(s.id, v.id, GapTo(s.interval, v.interval), window)
  {
    SortKeepsElements(speech, EventKey);
    SortKeepsElements(visual, EventKey);
    var ss, vs := Sort(speech, EventKey), Sort(visual, EventKey);
    RowsHave(ss, vs, window, c);
    forall s | s in ss
      ensures c in Row(s, vs, window) <==>
              exists v :: v in vs && window.Admits(GapTo(s.interval, v.interval))
                          && c == Cooccurrence(s.id, v.id, GapTo(s.interval, v.interval), window)
    {
      RowHas(s, vs, window, c);
    }
  }

  // ----- canonical: the output depends on neither input order -----

  lemma {:induction false} RowByKeys(s: TimedEvent, t: TimedEvent, xs: seq<TimedEvent>, ys: seq<TimedEvent>, window: FusionWindow)
    requires EventKey(s) == EventKey(t) && Map(xs, EventKey) == Map(ys, EventKey)
    ensures Row(s, xs, window) == Row(t, ys, window)
  {
    assert |xs| == |Map(xs, EventKey)| == |ys|;
    if xs != [] {
      assert EventKey(xs[0]) == Map(xs, EventKey)[0] == EventKey(ys[0]);
      assert Map(xs[1..], EventKey) == Map(xs, EventKey)[1..] && Map(ys[1..], EventKey) == Map(ys, EventKey)[1..];
      RowByKeys(s, t, xs[1..], ys[1..], window);
    }
  }

  lemma {:induction false} RowsByKeys(
    ss: seq<TimedEvent>, ts: seq<TimedEvent>, xs: seq<TimedEvent>, ys: seq<TimedEvent>, window: FusionWindow)
    requires Map(ss, EventKey) == Map(ts, EventKey) && Map(xs, EventKey) == Map(ys, EventKey)
    ensures Rows(ss, xs, window) == Rows(ts, ys, window)
  {
    assert |ss| == |Map(ss, EventKey)| == |ts|;
    if ss != [] {
      assert EventKey(ss[0]) == Map(ss, EventKey)[0] == EventKey(ts[0]);
      assert Map(ss[1..], EventKey) == Map(ss, EventKey)[1..] && Map(ts[1..], EventKey) == Map(ts, EventKey)[1..];
      RowByKeys(ss[0], ts[0], xs, ys, window);
      RowsByKeys(ss[1..], ts[1..], xs, ys, window);
    }
  }

  lemma CorrelateForgetsOrder(
    speech: seq<TimedEvent>, speech': seq<TimedEvent>, visual: seq<TimedEvent>, visual': seq<TimedEvent>, window: FusionWindow)
    requires multiset(speech) == multiset(speech') && multiset(visual) == multiset(visual')
    ensures Correlated(speech, visual, window) == Correlated(speech', visual', window)
  {
    SortForgetsOrder(speech, speech', EventKey);
    SortForgetsOrder(visual, visual', EventKey);
    RowsByKeys(Sort(speech, EventKey), Sort(speech', EventKey), Sort(visual, EventKey), Sort(visual', EventKey), window);
  }

  // ----- widening the window inserts pairs and moves none -----

  // What is left of `cs` under a narrower window.
  function Narrowed(cs: seq<Cooccurrence>, window: FusionWindow): seq<Cooccurrence> {
    if cs == [] then []
    else (if window.Admits(cs[0].distance) then [cs[0].(window := window)] else []) + Narrowed(cs[1..], window)
  }

  lemma NarrowedCons(c: Cooccurrence, cs: seq<Cooccurrence>, window: FusionWindow)
    ensures Narrowed([c] + cs, window) ==
            (if window.Admits(c.distance) then [c.(window := window)] else []) + Narrowed(cs, window)
  {
    assert ([c] + cs)[1..] == cs;
  }

  lemma {:induction false} NarrowedAppend(a: seq<Cooccurrence>, b: seq<Cooccurrence>, window: FusionWindow)
    ensures Narrowed(a + b, window) == Narrowed(a, window) + Narrowed(b, window)
  {
    if a == [] {
      assert a + b == b;
    } else {
      var c, rest := a[0], a[1..];
      NarrowedAppend(rest, b, window);
      NarrowedCons(c, rest, window);
      NarrowedCons(c, rest + b, window);
      hide Narrowed;
      assert a == [c] + rest;
      Associate([c], rest, b);
      Associate(if window.Admits(c.distance) then [c.(window := window)] else [], Narrowed(rest, window), Narrowed(b, window));
    }
  }

  lemma {:induction false} RowNarrows(s: TimedEvent, visual: seq<TimedEvent>, narrow: FusionWindow, wide: FusionWindow)
    requires narrow.width <= wide.width
    ensures Narrowed(Row(s, visual, wide), narrow) == Row(s, visual, narrow)
  {
    if visual != [] {
      RowNarrows(s, visual[1..], narrow, wide);
      var gap := GapTo(s.interval, visual[0].interval);
      if wide.Admits(gap) {
        assert Row(s, visual, wide)[1..] == Row(s, visual[1..], wide);
      } else {
        assert Row(s, visual, wide) == Row(s, visual[1..], wide);
      }
    }
  }

  lemma {:induction false} RowsNarrow(speech: seq<TimedEvent>, visual: seq<TimedEvent>, narrow: FusionWindow, wide: FusionWindow)
    requires narrow.width <= wide.width
    ensures Narrowed(Rows(speech, visual, wide), narrow) == Rows(speech, visual, narrow)
  {
    if speech != [] {
      RowNarrows(speech[0], visual, narrow, wide);
      RowsNarrow(speech[1..], visual, narrow, wide);
      NarrowedAppend(Row(speech[0], visual, wide), Rows(speech[1..], visual, wide), narrow);
    }
  }

  lemma WideningOnlyInserts(speech: seq<TimedEvent>, visual: seq<TimedEvent>, narrow: FusionWindow, wide: FusionWindow)
    requires narrow.width <= wide.width
    ensures Correlated(speech, visual, narrow) == Narrowed(Correlated(speech, visual, wide), narrow)
  {
    RowsNarrow(Sort(speech, EventKey), Sort(visual, EventKey), narrow, wide);
  }
}
