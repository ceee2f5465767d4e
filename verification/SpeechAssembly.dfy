// Speech-runtime hypotheses turned into domain evidence, and silent pauses
// derived from the gaps between words.
module SpeechAssembly {
  import opened Taxonomy
  import opened Ordering
  import opened Timeline
  import opened Calibration
  import opened EventIdentity
  import opened EvidenceLedger
  import opened Transcript

  datatype SpeechEvent = SpeechEvent(
    id: EventId, kind: SpeechEventType, interval: Interval, confidence: Confidence, provenance: Provenance,
    rawText: string, role: Option<ContextualRole>, isFinal: bool)
  {
    function Finalize(): SpeechEvent { this.(isFinal := true) }
  }

  datatype ProsodyReading = ProsodyReading(indicator: string, window: Interval, value: Option<real>, confidence: Confidence)

  // ----- what a speech runtime produces -----

  datatype WordHypothesis = WordHypothesis(rawText: string, start: int, end: int, score: real)

  datatype EventHypothesis = EventHypothesis(
    kind: SpeechEventType, start: int, end: int, score: real, rawText: string, role: Option<ContextualRole>)

  datatype ProsodyHypothesis = ProsodyHypothesis(indicator: string, start: int, end: int, value: Option<real>, score: real)

  datatype SpeechResult = SpeechResult(
    modelVersion: string, words: seq<WordHypothesis>, events: seq<EventHypothesis>, prosody: seq<ProsodyHypothesis>,
    stableThrough: int)

  // ----- the assembler -----

  datatype Assembler = Assembler(run: string, curves: map<string, Curve>)

  datatype Assembled = Assembled(
    tokens: Tokens, events: seq<SpeechEvent>, prosody: seq<ProsodyReading>, stableThrough: int)

  predicate IsLexical(kind: SpeechEventType) {
    kind in {LexicalFiller, Repetition, FalseStart, SelfRepair}
  }

  predicate IsBlank(text: string) {
    forall c :: c in text ==> c in {' ', '\t', '\n', '\r'}
  }

  // What the constructors of tokens, events and readings accept.
  predicate AcceptsWord(w: WordHypothesis) { w.rawText != "" && IsSpan(w.start, w.end) }

  predicate AcceptsEvent(e: EventHypothesis) {
    IsSpan(e.start, e.end) && (IsLexical(e.kind) ==> !IsBlank(e.rawText))
  }

  predicate Accepts(r: SpeechResult) {
    && (forall w :: w in r.words ==> AcceptsWord(w))
    && (forall e :: e in r.events ==> AcceptsEvent(e))
    && (forall p :: p in r.prosody ==> IsSpan(p.start, p.end))
  }

  function TokenOf(a: Assembler, w: WordHypothesis): WordToken
    requires AcceptsWord(w)
  {
    WordToken(DeriveTokenId(a.run, w.start, w.rawText), w.rawText, IntervalOf(w.start, w.end),
              Calibrate(a.curves, "word", w.score), false)
  }

  // A lexical class without a decided role is uncertain, never guessed.
  function RoleFor(e: EventHypothesis): Option<ContextualRole> {
    if !IsLexical(e.kind) then None else if e.role.Some? then e.role else Some(Uncertain)
  }

  function EventOf(a: Assembler, e: EventHypothesis, provenance: Provenance): SpeechEvent
    requires AcceptsEvent(e)
  {
    SpeechEvent(DeriveEventId(a.run, e.kind, e.start, e.rawText), e.kind, IntervalOf(e.start, e.end),
                Calibrate(a.curves, e.kind.Value(), e.score), provenance, e.rawText, RoleFor(e), false)
  }

  function ReadingOf(a: Assembler, p: ProsodyHypothesis): ProsodyReading
    requires IsSpan(p.start, p.end)
  {
    ProsodyReading(p.indicator, IntervalOf(p.start, p.end), p.value, Calibrate(a.curves, p.indicator, p.score))
  }

  // None when some constructor refuses.
  function Assemble(a: Assembler, r: SpeechResult): Option<Assembled> {
    if !Accepts(r) then None
    else
      var provenance := Provenance(Audio, r.modelVersion);
      Some(Assembled(
        seq(|r.words|, k requires 0 <= k < |r.words| => assert r.words[k] in r.words; TokenOf(a, r.words[k])),
        seq(|r.events|, k requires 0 <= k < |r.events| => assert r.events[k] in r.events; EventOf(a, r.events[k], provenance)),
        seq(|r.prosody|, k requires 0 <= k < |r.prosody| => assert r.prosody[k] in r.prosody; ReadingOf(a, r.prosody[k])),
        r.stableThrough))
  }

  // ----- what assembling means, field by field -----

  lemma AssemblesExactly(a: Assembler, r: SpeechResult)
    ensures Assemble(a, r).Some? <==>
            && (forall w :: w in r.words ==> |w.rawText| > 0 && 0 <= w.start <= w.end)
            && (forall e :: e in r.events ==>
                  && 0 <= e.start <= e.end
                  && (e.kind.LexicalFiller? || e.kind.Repetition? || e.kind.FalseStart? || e.kind.SelfRepair? ==>
                        exists c :: c in e.rawText && c !in " \t\n\r"))
            && (forall p :: p in r.prosody ==> 0 <= p.start <= p.end)
  {
    forall e | e in r.events
      ensures AcceptsEvent(e) <==>
              && 0 <= e.start <= e.end
              && (e.kind.LexicalFiller? || e.kind.Repetition? || e.kind.FalseStart? || e.kind.SelfRepair? ==>
                    exists c :: c in e.rawText && c !in " \t\n\r")
    {
    }
  }

  ghost predicate TokenSays(t: WordToken, w: WordHypothesis, a: Assembler) {
    && t.rawText == w.rawText && t.interval.start == w.start && t.interval.end == w.end && !t.isFinal
    && t.id == TokenId(a.run, w.start / 100, w.rawText)
    && t.confidence == Calibrate(a.curves, "word", w.score)
  }

  ghost predicate EventSays(e: SpeechEvent, h: EventHypothesis, a: Assembler, modelVersion: string) {
    && e.kind == h.kind && e.rawText == h.rawText && e.interval.start == h.start && e.interval.end == h.end && !e.isFinal
    && e.id == EventId(a.run, h.kind, h.start / 100, h.rawText)
    && e.provenance == Provenance(Audio, modelVersion)
    && e.confidence == Calibrate(a.curves, h.kind.Value(), h.score)
    && (h.kind in {LexicalFiller, Repetition, FalseStart, SelfRepair} ==>
          e.role == if h.role.Some? then h.role else Some(Uncertain))
    && (h.kind !in {LexicalFiller, Repetition, FalseStart, SelfRepair} ==> e.role == None)
  }

  // A value that could not be measured stays absent.
  ghost predicate ReadingSays(r: ProsodyReading, h: ProsodyHypothesis, a: Assembler) {
    && r.indicator == h.indicator && r.window.start == h.start && r.window.end == h.end
    && r.value == h.value && r.confidence == Calibrate(a.curves, h.indicator, h.score)
  }

  // One token, event or reading for each hypothesis, in order.
  lemma AssembledSays(a: Assembler, r: SpeechResult)
    requires Assemble(a, r).Some?
    ensures var x := Assemble(a, r).value;
            && |x.tokens| == |r.words| && |x.events| == |r.events| && |x.prosody| == |r.prosody|
            && (forall k :: 0 <= k < |r.words| ==> TokenSays(x.tokens[k], r.words[k], a))
            && (forall k :: 0 <= k < |r.events| ==> EventSays(x.events[k], r.events[k], a, r.modelVersion))
            && (forall k :: 0 <= k < |r.prosody| ==> ReadingSays(x.prosody[k], r.prosody[k], a))
            && x.stableThrough == r.stableThrough
  {
    hide Calibrate, SpeechEventType.Value;
  }

  // ----- silent pauses, without the algorithm -----

  function StartsAt(ms: int): WordToken -> bool { (t: WordToken) => t.interval.start == ms }

  // The same tokens by start, those with one start in the order they had.
  ghost predicate ByStart(tokens: Tokens, ordered: Tokens) {
    && multiset(ordered) == multiset(tokens) && StartsAscend(ordered)
    && forall ms: int :: Filter(ordered, StartsAt(ms)) == Filter(tokens, StartsAt(ms))
  }

  // Where the next word starts at least the threshold after the end of this one.
  function LongGaps(ordered: Tokens, threshold: int): nat -> bool {
    (k: nat) => k + 1 < |ordered| && ordered[k + 1].interval.start - ordered[k].interval.end >= threshold
  }

  // The event fills the gap between two words.
  ghost predicate Fills(e: SpeechEvent, before: WordToken, after: WordToken, run: string) {
    && e.kind == SilentPause && e.interval.start == before.interval.end && e.interval.end == after.interval.start
    && e.id == EventId(run, SilentPause, before.interval.end / 100, "")
  }

  ghost predicate FillsAll(pauses: seq<SpeechEvent>, ordered: Tokens, ks: seq<nat>, provenance: Provenance, run: string) {
    && |pauses| == |ks|
    && forall m :: 0 <= m < |ks| ==>
         && ks[m] + 1 < |ordered| && Fills(pauses[m], ordered[ks[m]], ordered[ks[m] + 1], run)
         && pauses[m].provenance == provenance && pauses[m].confidence == Confidence(1.0, true)
         && pauses[m].rawText == "" && pauses[m].role == None && !pauses[m].isFinal
  }

  // One pause for every long gap of the words in start order, in that order.
  ghost predicate IsPauseReport(pauses: seq<SpeechEvent>, tokens: Tokens, threshold: int, provenance: Provenance, run: string) {
    exists ordered, ks ::
      && ByStart(tokens, ordered) && Lists(ks, |ordered|, LongGaps(ordered, threshold))
      && FillsAll(pauses, ordered, ks, provenance, run)
  }

  ghost predicate StartsAscend(ts: Tokens) {
    forall i, j :: 0 <= i < j < |ts| ==> ts[i].interval.start <= ts[j].interval.start
  }

  // ----- silent pauses -----

  // Sorting by start alone, as the derivation does.
  function StartKey(t: WordToken): Key { Key(t.interval.start, 0, "") }

  datatype WordGap = WordGap(start: int, end: int)

  // The interior gaps of at least the threshold, measured from the end of the
  // word before.
  function WordGaps(ordered: Tokens, threshold: nat): seq<WordGap> {
    if |ordered| < 2 then []
    else
      var n := |ordered| - 1;
      var start, end := ordered[n - 1].interval.end, ordered[n].interval.start;
      WordGaps(ordered[..n], threshold) + if end - start < threshold then [] else [WordGap(start, end)]
  }

  predicate IsPauseGap(g: WordGap) { IsSpan(g.start, g.end) }

  function PauseId(run: string, start: int): EventId { DeriveEventId(run, SilentPause, start, "") }

  function PauseOf(g: WordGap, provenance: Provenance, run: string): SpeechEvent
    requires IsPauseGap(g)
  {
    SpeechEvent(PauseId(run, g.start), SilentPause, IntervalOf(g.start, g.end), Confidence(1.0, true), provenance, "", None, false)
  }

  function PausesOf(gaps: seq<WordGap>, provenance: Provenance, run: string): (r: seq<SpeechEvent>)
    requires forall k :: 0 <= k < |gaps| ==> IsPauseGap(gaps[k])
    ensures |r| == |gaps| && forall k :: 0 <= k < |gaps| ==> r[k] == PauseOf(gaps[k], provenance, run)
  {
    seq(|gaps|, k requires 0 <= k < |gaps| => PauseOf(gaps[k], provenance, run))
  }

  lemma {:induction false} GapsAreSpans(ordered: Tokens, threshold: nat)
    ensures forall k :: 0 <= k < |WordGaps(ordered, threshold)| ==>
              IsPauseGap(WordGaps(ordered, threshold)[k])
              && WordGaps(ordered, threshold)[k].end - WordGaps(ordered, threshold)[k].start >= threshold
  {
    if |ordered| >= 2 { GapsAreSpans(ordered[..|ordered| - 1], threshold); }
  }

  function SilentPauses(tokens: Tokens, threshold: nat, provenance: Provenance, run: string): seq<SpeechEvent> {
    GapsAreSpans(Sort(tokens, StartKey), threshold);
    PausesOf(WordGaps(Sort(tokens, StartKey), threshold), provenance, run)
  }

  lemma SortByStart(tokens: Tokens)
    ensures ByStart(tokens, Sort(tokens, StartKey))
  {
    var ordered := Sort(tokens, StartKey);
    SortKeepsElements(tokens, StartKey);
    SortIsSorted(tokens, StartKey);
    forall i, j | 0 <= i < j < |ordered| ensures ordered[i].interval.start <= ordered[j].interval.start {
      assert KeyLeq(StartKey(ordered[i]), StartKey(ordered[j]));
    }
    forall ms: int ensures Filter(ordered, StartsAt(ms)) == Filter(tokens, StartsAt(ms)) {
      SortIsStable(tokens, StartKey, Key(ms, 0, ""));
      SameFilter(ordered, HasKey(StartKey, Key(ms, 0, "")), StartsAt(ms));
      SameFilter(tokens, HasKey(StartKey, Key(ms, 0, "")), StartsAt(ms));
    }
  }

  ghost predicate GapsAt(gaps: seq<WordGap>, ordered: Tokens, ks: seq<nat>) {
    && |gaps| == |ks|
    && forall m :: 0 <= m < |ks| ==>
         ks[m] + 1 < |ordered| && gaps[m] == WordGap(ordered[ks[m]].interval.end, ordered[ks[m] + 1].interval.start)
  }

  lemma {:induction false} GapsListed(ordered: Tokens, threshold: nat) returns (ks: seq<nat>)
    ensures Lists(ks, |ordered|, LongGaps(ordered, threshold)) && GapsAt(WordGaps(ordered, threshold), ordered, ks)
  {
    if |ordered| < 2 {
      ks := [];
    } else {
      var n := |ordered| - 1;
      ks := GapsListed(ordered[..n], threshold);
      var gaps := WordGaps(ordered[..n], threshold);
      LongGapsBefore(ordered, threshold, ks);
      assert WordGaps(ordered, threshold) ==
             if LongGaps(ordered, threshold)(n - 1)
             then gaps + [WordGap(ordered[n - 1].interval.end, ordered[n].interval.start)] else gaps by {
        assert gaps + [] == gaps;
      }
      hide Lists, WordGaps, LongGaps;
      GapsAtSnoc(gaps, ordered, ks);
      ks := ListsSnoc(ks, n - 1, LongGaps(ordered, threshold));
      NoGapAtEnd(ordered, threshold);
      ListsBound(ks, n, LongGaps(ordered, threshold));
    }
  }

  lemma NoGapAtEnd(ordered: Tokens, threshold: nat)
    requires ordered != []
    ensures !LongGaps(ordered, threshold)(|ordered| - 1)
  {
  }

  lemma LongGapsBefore(ordered: Tokens, threshold: nat, ks: seq<nat>)
    requires |ordered| >= 2 && Lists(ks, |ordered| - 1, LongGaps(ordered[..|ordered| - 1], threshold))
    ensures Lists(ks, |ordered| - 2, LongGaps(ordered, threshold))
  {
    var n := |ordered| - 1;
    NoGapAtEnd(ordered[..n], threshold);
    ListsBound(ks, n - 1, LongGaps(ordered[..n], threshold));
    ListsSame(ks, n - 1, LongGaps(ordered[..n], threshold), LongGaps(ordered, threshold));
  }

  lemma GapsAtSnoc(gaps: seq<WordGap>, ordered: Tokens, ks: seq<nat>)
    requires |ordered| >= 2 && GapsAt(gaps, ordered[..|ordered| - 1], ks)
    ensures var n := |ordered| - 1;
            && GapsAt(gaps, ordered, ks)
            && GapsAt(gaps + [WordGap(ordered[n - 1].interval.end, ordered[n].interval.start)], ordered, ks + [n - 1])
  {
  }

  lemma SilentPausesReport(tokens: Tokens, threshold: nat, provenance: Provenance, run: string)
    ensures IsPauseReport(SilentPauses(tokens, threshold, provenance, run), tokens, threshold, provenance, run)
  {
    var ordered := Sort(tokens, StartKey);
    SortByStart(tokens);
    GapsAreSpans(ordered, threshold);
    var ks := GapsListed(ordered, threshold);
    hide Sort, ByStart, Lists, LongGaps, WordGaps;
    assert FillsAll(SilentPauses(tokens, threshold, provenance, run), ordered, ks, provenance, run);
  }

  method DeriveSilentPauses(tokens: Tokens, threshold: nat, provenance: Provenance, run: string)
    returns (pauses: seq<SpeechEvent>)
    ensures pauses == SilentPauses(tokens, threshold, provenance, run)
    ensures IsPauseReport(pauses, tokens, threshold, provenance, run)
  {
    SilentPausesReport(tokens, threshold, provenance, run);
    hide IsPauseReport;
    var ordered := Sort(tokens, StartKey);
    GapsAreSpans(ordered, threshold);
    pauses := [];
    if |ordered| < 2 {
      return;
    }
    ghost var gaps: seq<WordGap> := [];
    assert |ordered[..1]| == 1;
    for k := 1 to |ordered|
      invariant gaps == WordGaps(ordered[..k], threshold)
      invariant forall i :: 0 <= i < |gaps| ==> IsPauseGap(gaps[i])
      invariant pauses == PausesOf(gaps, provenance, run)
    {
      assert ordered[..k + 1][..k] == ordered[..k];
      var start, end := ordered[k - 1].interval.end, ordered[k].interval.start;
      if end - start < threshold {
        continue;
      }
      pauses := pauses + [PauseOf(WordGap(start, end), provenance, run)];
      gaps := gaps + [WordGap(start, end)];
    }
    assert ordered[..|ordered|] == ordered;
  }

  // ----- pauses of a growing transcript -----

  lemma CanonicalIsByStart(ts: Tokens)
    requires Canonical(ts)
    ensures Sort(ts, StartKey) == ts
  {
    forall i, j | 0 <= i < j < |ts| ensures KeyLeq(StartKey(ts[i]), StartKey(ts[j])) {
      assert KeyLeq(TokenKey(ts[i]), TokenKey(ts[j]));
    }
    SortedIsFixed(ts, StartKey);
  }

  // Later words never change the gaps between earlier ones.
  lemma {:induction false} GapsGrow(a: Tokens, b: Tokens, threshold: nat)
    ensures WordGaps(a, threshold) <= WordGaps(a + b, threshold)
  {
    if b == [] {
      assert a + b == a;
    } else {
      var n := |b| - 1;
      GapsGrow(a, b[..n], threshold);
      assert (a + b)[..|a + b| - 1] == a + b[..n];
    }
  }

  ghost predicate EndBy(gaps: seq<WordGap>, ms: int) { forall k :: 0 <= k < |gaps| ==> gaps[k].end <= ms }

  lemma {:induction false} GapsEndByLastStart(ordered: Tokens, threshold: nat)
    requires StartsAscend(ordered)
    ensures |ordered| >= 1 ==> EndBy(WordGaps(ordered, threshold), ordered[|ordered| - 1].interval.start)
  {
    if |ordered| >= 2 {
      var n := |ordered| - 1;
      GapsEndByLastStart(ordered[..n], threshold);
      assert ordered[..n][n - 1] == ordered[n - 1];
    }
  }

  ghost predicate BucketsAscend(gaps: seq<WordGap>) {
    forall k, l :: 0 <= k < l < |gaps| ==> gaps[k].start / POSITION_BUCKET_MS < gaps[l].start / POSITION_BUCKET_MS
  }

  // The buckets of the gaps' starts strictly increase.
  lemma {:induction false} GapBucketsAscend(ordered: Tokens, threshold: nat)
    requires StartsAscend(ordered) && PositiveLength(ordered) && threshold >= POSITION_BUCKET_MS - 1
    ensures BucketsAscend(WordGaps(ordered, threshold))
  {
    if |ordered| >= 2 {
      var n := |ordered| - 1;
      var before, start := WordGaps(ordered[..n], threshold), ordered[n - 1].interval.end;
      GapBucketsAscend(ordered[..n], threshold);
      GapsEndByLastStart(ordered[..n], threshold);
      GapsAreSpans(ordered[..n], threshold);
      assert ordered[n - 1] in ordered && ordered[..n][n - 1] == ordered[n - 1];
      forall k | 0 <= k < |before| ensures before[k].start / POSITION_BUCKET_MS < start / POSITION_BUCKET_MS {
        assert before[k].start + POSITION_BUCKET_MS <= start;
      }
    }
  }

  ghost predicate DistinctPauseIds(ordered: Tokens, threshold: nat, run: string) {
    var gaps := WordGaps(ordered, threshold);
    forall k, l :: 0 <= k < l < |gaps| ==> PauseId(run, gaps[k].start) != PauseId(run, gaps[l].start)
  }

  function ExampleWord(start: nat, end: nat): WordToken
    requires start <= end
  {
    WordToken(TokenId("run", start / POSITION_BUCKET_MS, "word"), "word", IntervalOf(start, end), Confidence(1.0, true), true)
  }

  // Bucketed pause ids never collide exactly when the threshold is at least
  // 99 ms, one bucket less a millisecond.
  lemma PauseIdsDistinctExactly(threshold: nat, run: string)
    ensures (forall ts: Tokens :: StartsAscend(ts) && PositiveLength(ts) ==> DistinctPauseIds(ts, threshold, run))
            <==> threshold >= 99
  {
    if threshold >= POSITION_BUCKET_MS - 1 {
      forall ts: Tokens | StartsAscend(ts) && PositiveLength(ts) ensures DistinctPauseIds(ts, threshold, run) {
        GapBucketsAscend(ts, threshold);
      }
    } else {
      var ts := [ExampleWord(0, 100), ExampleWord(198, 199), ExampleWord(300, 301)];
      assert ts[..2][..1] == ts[..1] && ts[..2] == [ExampleWord(0, 100), ExampleWord(198, 199)];
      assert WordGaps(ts[..2], threshold) == [WordGap(100, 198)];
      assert WordGaps(ts, threshold) == [WordGap(100, 198), WordGap(199, 300)];
      assert PauseId(run, 100) == PauseId(run, 199);
      var gaps := WordGaps(ts, threshold);
      assert PauseId(run, gaps[0].start) == PauseId(run, gaps[1].start);
      assert StartsAscend(ts) && PositiveLength(ts) && !DistinctPauseIds(ts, threshold, run);
    }
  }
}
