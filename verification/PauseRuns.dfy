// Silent pauses over whole sessions: derived step by step, they are the ones
// computed from scratch on the final words.
module PauseRuns {
  import opened Taxonomy
  import opened Ordering
  import opened Timeline
  import opened EventIdentity
  import opened Transcript
  import opened SpeechAssembly
  import opened Streaming
  import opened TranscriptRuns
  import L = EvidenceLedger

  // ----- the pauses held in the session -----

  function RecordedGaps(events: seq<SpeechEvent>): seq<WordGap> {
    if events == [] then []
    else
      (if events[0].kind == SilentPause then [WordGap(events[0].interval.start, events[0].interval.end)] else [])
      + RecordedGaps(events[1..])
  }

  // Ids carry their event's class, and every pause is final under the id its
  // position gives.
  predicate WellNamed(run: string, e: SpeechEvent) {
    e.id.kind == e.kind && (e.kind == SilentPause ==> e.isFinal && e.id == PauseId(run, e.interval.start))
  }

  ghost predicate AllWellNamed(run: string, events: seq<SpeechEvent>) {
    forall k :: 0 <= k < |events| ==> WellNamed(run, events[k])
  }

  // No silent pause among what the runtime itself reports.
  predicate NotPause(e: SpeechEvent) { e.kind != SilentPause && e.id.kind == e.kind }

  ghost predicate NoPauses(events: seq<SpeechEvent>) { forall e :: e in events ==> NotPause(e) }

  lemma {:induction false} GapsAppend(events: seq<SpeechEvent>, e: SpeechEvent)
    ensures RecordedGaps(events + [e]) ==
            RecordedGaps(events) + if e.kind == SilentPause then [WordGap(e.interval.start, e.interval.end)] else []
  {
    if events == [] {
      assert [e][1..] == [];
    } else {
      GapsAppend(events[1..], e);
      assert (events + [e])[1..] == events[1..] + [e];
    }
  }

  // ----- storing what the runtime reports touches no pause -----

  lemma {:induction false} PutKeepsGaps(run: string, events: seq<SpeechEvent>, e: SpeechEvent)
    requires AllWellNamed(run, events) && NotPause(e)
    ensures AllWellNamed(run, Put(events, e)) && RecordedGaps(Put(events, e)) == RecordedGaps(events)
    ensures Put(events, e) != []
  {
    if events != [] && events[0].id != e.id {
      PutKeepsGaps(run, events[1..], e);
      assert forall k :: 1 <= k < |Put(events, e)| ==> Put(events, e)[k] == Put(events[1..], e)[k - 1];
    } else if events != [] {
      assert Put(events, e)[1..] == events[1..];
      assert WellNamed(run, events[0]);
    } else {
      assert [e][1..] == [];
    }
  }

  lemma {:induction false} PutAllKeepsGaps(run: string, events: seq<SpeechEvent>, incoming: seq<SpeechEvent>)
    requires AllWellNamed(run, events) && NoPauses(incoming)
    ensures AllWellNamed(run, PutAll(events, incoming)) && RecordedGaps(PutAll(events, incoming)) == RecordedGaps(events)
    ensures PutAll(events, incoming) == [] <==> events == [] && incoming == []
  {
    if incoming != [] {
      var n := |incoming| - 1;
      PutAllKeepsGaps(run, events, incoming[..n]);
      assert incoming[n] in incoming;
      PutKeepsGaps(run, PutAll(events, incoming[..n]), incoming[n]);
    }
  }

  // ----- finalizing touches no pause -----

  lemma {:induction false} FinalizeKeepsGaps(run: string, events: seq<SpeechEvent>, stable: int)
    requires AllWellNamed(run, events)
    ensures AllWellNamed(run, FinalizeEvents(events, stable))
    ensures RecordedGaps(FinalizeEvents(events, stable)) == RecordedGaps(events)
  {
    if events != [] {
      assert forall k :: 0 <= k < |events[1..]| ==> WellNamed(run, events[1..][k]) by {
        assert forall k :: 0 <= k < |events[1..]| ==> events[1..][k] == events[k + 1];
      }
      FinalizeKeepsGaps(run, events[1..], stable);
      assert FinalizeEvents(events, stable)[1..] == FinalizeEvents(events[1..], stable);
    }
  }

  // ----- a pause is known exactly when its gap has been recorded -----

  lemma {:induction false} RecordedGapHasEvent(run: string, events: seq<SpeechEvent>, k: nat)
    requires AllWellNamed(run, events) && k < |RecordedGaps(events)|
    ensures Has(events, PauseId(run, RecordedGaps(events)[k].start))
  {
    var rest := events[1..];
    assert AllWellNamed(run, rest) by { assert forall i :: 0 <= i < |rest| ==> rest[i] == events[i + 1]; }
    if events[0].kind == SilentPause && k == 0 {
      assert events[0].id == PauseId(run, RecordedGaps(events)[0].start);
    } else {
      var j := if events[0].kind == SilentPause then k - 1 else k;
      RecordedGapHasEvent(run, rest, j);
      var i :| 0 <= i < |rest| && rest[i].id == PauseId(run, RecordedGaps(rest)[j].start);
      assert events[i + 1].id == PauseId(run, RecordedGaps(events)[k].start);
    }
  }

  lemma {:induction false} PauseEventIsRecorded(run: string, events: seq<SpeechEvent>, start: int)
    requires AllWellNamed(run, events) && Has(events, PauseId(run, start))
    ensures exists k :: 0 <= k < |RecordedGaps(events)| && PauseId(run, RecordedGaps(events)[k].start) == PauseId(run, start)
  {
    var rest := events[1..];
    assert AllWellNamed(run, rest) by { assert forall i :: 0 <= i < |rest| ==> rest[i] == events[i + 1]; }
    var gaps := RecordedGaps(events);
    if events[0].id == PauseId(run, start) {
      assert PauseId(run, gaps[0].start) == PauseId(run, start);
    } else {
      var i :| 0 <= i < |events| && events[i].id == PauseId(run, start);
      assert rest[i - 1].id == PauseId(run, start);
      PauseEventIsRecorded(run, rest, start);
      var k :| 0 <= k < |RecordedGaps(rest)| && PauseId(run, RecordedGaps(rest)[k].start) == PauseId(run, start);
      var j := if events[0].kind == SilentPause then k + 1 else k;
      assert gaps[j] == RecordedGaps(rest)[k];
    }
  }

  lemma {:induction false} PutNewAppends(events: seq<SpeechEvent>, e: SpeechEvent)
    requires !Has(events, e.id)
    ensures Put(events, e) == events + [e]
  {
    if events != [] {
      var rest := events[1..];
      assert forall i :: 0 <= i < |rest| ==> rest[i] == events[i + 1];
      PutNewAppends(rest, e);
    }
  }

  // ----- adding the pauses of the current words -----

  ghost predicate DistinctIds(run: string, gaps: seq<WordGap>) {
    forall k, l :: 0 <= k < l < |gaps| ==> PauseId(run, gaps[k].start) != PauseId(run, gaps[l].start)
  }

  // The n-th pause is known if its gap is among the recorded ones, and is
  // appended if they are exactly those before it.
  lemma AddingOne(run: string, events: seq<SpeechEvent>, gaps: seq<WordGap>, n: nat, known: nat, p: SpeechEvent)
    requires AllWellNamed(run, events) && DistinctIds(run, gaps) && n < |gaps| && n <= known <= |gaps|
    requires RecordedGaps(events) == gaps[..known]
    requires p.id == PauseId(run, gaps[n].start) && WellNamed(run, p) && p.kind == SilentPause
    requires p.interval.start == gaps[n].start && p.interval.end == gaps[n].end
    ensures Has(events, p.id) <==> n < known
    ensures n == known ==> AllWellNamed(run, Put(events, p)) && RecordedGaps(Put(events, p)) == gaps[..n + 1]
  {
    if n < known {
      RecordedGapHasEvent(run, events, n);
    } else {
      if Has(events, p.id) {
        PauseEventIsRecorded(run, events, gaps[n].start);
      }
      PutNewAppends(events, p);
      GapsAppend(events, p);
    }
  }

  lemma PauseOfGap(run: string, g: WordGap, provenance: L.Provenance)
    requires IsPauseGap(g)
    ensures var p := PauseOf(g, provenance, run).Finalize();
            && p.id == PauseId(run, g.start) && WellNamed(run, p) && p.kind == SilentPause
            && p.interval.start == g.start && p.interval.end == g.end
  {
  }

  // Going through the first n gaps, of which the first r are recorded already.
  lemma {:induction false} AddingCompletes(
    run: string, events: seq<SpeechEvent>, ledger: L.History, gaps: seq<WordGap>, provenance: L.Provenance, n: nat, r: nat)
    requires L.NonEmpty(ledger) && AllWellNamed(run, events) && DistinctIds(run, gaps)
    requires forall k :: 0 <= k < |gaps| ==> IsPauseGap(gaps[k])
    requires n <= |gaps| && r <= |gaps| && RecordedGaps(events) == gaps[..r]
    ensures var d := AddPauses(events, ledger, PausesOf(gaps, provenance, run)[..n]);
            && AllWellNamed(run, d.events)
            && RecordedGaps(d.events) == gaps[..if n <= r then r else n]
            && (events != [] ==> d.events != [])
    decreases n
  {
    hide PausesOf, PauseOf, PauseId, WellNamed, Record, RecordedGaps, DistinctIds, AllWellNamed, Has;
    if n > 0 {
      var pauses := PausesOf(gaps, provenance, run);
      AddingCompletes(run, events, ledger, gaps, provenance, n - 1, r);
      assert pauses[..n][..n - 1] == pauses[..n - 1];
      var d, p := AddPauses(events, ledger, pauses[..n - 1]), pauses[n - 1].Finalize();
      PauseOfGap(run, gaps[n - 1], provenance);
      AddingOne(run, d.events, gaps, n - 1, if n - 1 <= r then r else n - 1, p);
    }
  }

  // ----- the invariant over runs -----

  // What is recorded is a prefix of what the current words give.
  ghost predicate PausesConsistent(s: Snapshot, cfg: Config) {
    && AllWellNamed(cfg.assembler.run, s.speechEvents)
    && RecordedGaps(s.speechEvents) <= WordGaps(FinalTokens(s.transcript), cfg.silenceThreshold)
  }

  // Incremental equals batch.
  ghost predicate PausesCurrent(s: Snapshot, cfg: Config) {
    RecordedGaps(s.speechEvents) == WordGaps(FinalTokens(s.transcript), cfg.silenceThreshold)
  }

  predicate LongEnough(cfg: Config) { cfg.silenceThreshold >= POSITION_BUCKET_MS - 1 }

  lemma DerivingCompletes(cfg: Config, finals: Tokens, events: seq<SpeechEvent>, ledger: L.History, newlyFinal: seq<SpeechEvent>)
    requires L.NonEmpty(ledger) && LongEnough(cfg) && Canonical(finals) && PositiveLength(finals)
    requires AllWellNamed(cfg.assembler.run, events)
    requires RecordedGaps(events) <= WordGaps(finals, cfg.silenceThreshold)
    ensures var d := DerivePauses(cfg, finals, events, ledger, newlyFinal);
            && AllWellNamed(cfg.assembler.run, d.events)
            && RecordedGaps(events) <= RecordedGaps(d.events) <= WordGaps(finals, cfg.silenceThreshold)
            && (events != [] || newlyFinal != [] ==> RecordedGaps(d.events) == WordGaps(finals, cfg.silenceThreshold))
            && (events != [] ==> d.events != [])
  {
    hide RecordedGaps, AddPauses, PausesOf;
    var run, gaps := cfg.assembler.run, WordGaps(finals, cfg.silenceThreshold);
    var provenance := BorrowedProvenance(newlyFinal, events);
    if |finals| >= 2 && provenance.Some? {
      CanonicalIsByStart(finals);
      GapsAreSpans(finals, cfg.silenceThreshold);
      CanonicalStartsAscend(finals);
      GapBucketsAscend(finals, cfg.silenceThreshold);
      var pauses := PausesOf(gaps, provenance.value, run);
      assert pauses[..|gaps|] == pauses && gaps[..|gaps|] == gaps;
      AddingCompletes(run, events, ledger, gaps, provenance.value, |gaps|, |RecordedGaps(events)|);
    }
  }

  lemma CanonicalStartsAscend(ts: Tokens)
    requires Canonical(ts)
    ensures StartsAscend(ts)
  {
    forall i, j | 0 <= i < j < |ts| ensures ts[i].interval.start <= ts[j].interval.start {
      assert KeyLeq(TokenKey(ts[i]), TokenKey(ts[j]));
    }
  }

  // The message finalizes something, and there is an event to borrow from.
  ghost predicate FinalizesWithProvenance(s: Snapshot, cfg: Config, m: Message) {
    && Absorbed(s, cfg, m).Some?
    && Absorbed(s, cfg, m).value.stableThrough > Frontier(s.transcript)
    && (s.speechEvents != [] || Absorbed(s, cfg, m).value.events != [])
  }

  ghost predicate ReportsNoPauses(messages: seq<Message>) {
    forall m :: m in messages && m.AudioChunk? && m.speech.Transcribed? ==>
      forall e :: e in m.speech.result.events ==> e.kind != SilentPause
  }

  lemma AssembledNoPauses(a: Assembler, r: SpeechResult)
    requires Assemble(a, r).Some? && forall e :: e in r.events ==> e.kind != SilentPause
    ensures NoPauses(Assemble(a, r).value.events)
  {
    var events := Assemble(a, r).value.events;
    forall e | e in events ensures NotPause(e) {
      var k :| 0 <= k < |events| && events[k] == e;
      assert r.events[k] in r.events;
    }
  }

  // One finalizing step over a heard result.
  lemma FinalizeStepPauses(s: Snapshot, cfg: Config, stable: int)
    requires L.NonEmpty(s.ledger) && LongEnough(cfg) && Orderly(FinalizeStep(s, cfg, stable))
    requires AllWellNamed(cfg.assembler.run, s.speechEvents)
    requires RecordedGaps(s.speechEvents) <= WordGaps(FinalTokens(FinalizeStep(s, cfg, stable).transcript), cfg.silenceThreshold)
    ensures var t := FinalizeStep(s, cfg, stable);
            && PausesConsistent(t, cfg)
            && RecordedGaps(s.speechEvents) <= RecordedGaps(t.speechEvents)
            && (s.speechEvents != [] && stable > Frontier(s.transcript) ==> PausesCurrent(t, cfg) && t.speechEvents != [])
            && (stable <= Frontier(s.transcript) ==> t == s)
  {
    hide Frontier, FinalTokens, RecordAll, DerivePauses, RecordedGaps, WordGaps, AllWellNamed, Canonical;
    if stable > Frontier(s.transcript) {
      var finals := FinalTokens(PromoteAll(s.transcript, stable));
      var newlyFinal := NewlyFinal(s.speechEvents, stable);
      OrderlyFinals(FinalizeStep(s, cfg, stable));
      FinalizeKeepsGaps(cfg.assembler.run, s.speechEvents, stable);
      DerivingCompletes(cfg, finals, FinalizeEvents(s.speechEvents, stable), RecordAll(s.ledger, newlyFinal), newlyFinal);
    }
  }

  lemma OrderlyFinals(s: Snapshot)
    requires Orderly(s)
    ensures Canonical(FinalTokens(s.transcript)) && PositiveLength(FinalTokens(s.transcript))
  {
    FilterSorted(s.transcript, TokenKey, IsFinal);
  }

  // One message.
  lemma StepPauses(s: Snapshot, cfg: Config, m: Message)
    requires L.NonEmpty(s.ledger) && LongEnough(cfg) && Orderly(s) && PausesConsistent(s, cfg)
    requires WordsTakeTime([m]) && ReportsNoPauses([m])
    ensures var t := Step(s, cfg, m);
            && PausesConsistent(t, cfg)
            && RecordedGaps(s.speechEvents) <= RecordedGaps(t.speechEvents)
            && (FinalizesWithProvenance(s, cfg, m) ==> PausesCurrent(t, cfg) && t.speechEvents != [])
            && (PausesCurrent(s, cfg) && s.speechEvents != [] ==> PausesCurrent(t, cfg) && t.speechEvents != [])
  {
    hide Step, FinalizeStep, Reconcile, Frontier, FinalTokens, RecordedGaps, WordGaps, AllWellNamed, Assemble, WithProvisional, Begin, PutAll, Orderly;
    StepShape(s, cfg, m);
    StepKeepsHistory(s, cfg, m);
    if Absorbed(s, cfg, m).Some? {
      assert m in [m];
      AbsorbedFits(s, cfg, m);
      HeardPauses(s, cfg, m);
    }
  }

  lemma HeardPauses(s: Snapshot, cfg: Config, m: Message)
    requires L.NonEmpty(s.ledger) && LongEnough(cfg) && Orderly(s) && PausesConsistent(s, cfg)
    requires Absorbed(s, cfg, m).Some? && WordsTakeTime([m]) && ReportsNoPauses([m])
    ensures var a := Absorbed(s, cfg, m).value;
            var t := FinalizeStep(Heard(s, a), cfg, a.stableThrough);
            && PausesConsistent(t, cfg)
            && RecordedGaps(s.speechEvents) <= RecordedGaps(t.speechEvents)
            && (s.speechEvents != [] || a.events != [] ==>
                  t.speechEvents != [] && (a.stableThrough > Frontier(s.transcript) || PausesCurrent(s, cfg) ==> PausesCurrent(t, cfg)))
  {
    hide Step, FinalizeStep, Reconcile, Frontier, FinalTokens, RecordedGaps, WordGaps, AllWellNamed, Assemble, Begin, PutAll, WithProvisional;
    var a := Absorbed(s, cfg, m).value;
    var run := cfg.assembler.run;
    assert m in [m];
    AssembledNoPauses(cfg.assembler, m.speech.result);
    AssembledIsProvisional(cfg.assembler, m.speech.result);
    PutAllKeepsGaps(run, s.speechEvents, a.events);
    ProvisionalKeepsFinals(s.transcript, a.tokens);
    StepShape(s, cfg, m);
    StepKeepsHistory(s, cfg, m);
    var t := FinalizeStep(Heard(s, a), cfg, a.stableThrough);
    GrownGaps(FinalTokens(s.transcript), FinalTokens(t.transcript), cfg.silenceThreshold);
    FinalizeStepPauses(Heard(s, a), cfg, a.stableThrough);
  }

  lemma GrownGaps(a: Tokens, b: Tokens, threshold: nat)
    requires a <= b
    ensures WordGaps(a, threshold) <= WordGaps(b, threshold)
  {
    GapsGrow(a, b[|a|..], threshold);
    assert a + b[|a|..] == b;
  }

  // ----- whole sessions -----

  lemma {:induction false} PausesStayConsistent(cfg: Config, messages: seq<Message>)
    requires LongEnough(cfg) && WordsTakeTime(messages) && ReportsNoPauses(messages)
    ensures PausesConsistent(Run(cfg, messages), cfg)
  {
    hide Step, Orderly, FinalTokens;
    if messages == [] {
      NewSessionPauses(cfg);
    } else {
      var before, m := messages[..|messages| - 1], messages[|messages| - 1];
      PausesStayConsistent(cfg, before);
      FinalHistoryOnlyGrows(cfg, before, 0);
      assert m in messages;
      StepPauses(Run(cfg, before), cfg, m);
    }
  }

  lemma NewSessionPauses(cfg: Config)
    ensures PausesConsistent(NewSession, cfg)
  {
  }

  // Once a message has finalized something with a provenance to borrow, the
  // pauses held are exactly those computed from scratch on the final words, at
  // that point and after every later message.
  lemma {:induction false} IncrementalEqualsBatch(cfg: Config, messages: seq<Message>, n: nat)
    requires LongEnough(cfg) && WordsTakeTime(messages) && ReportsNoPauses(messages)
    requires n < |messages| && FinalizesWithProvenance(Run(cfg, messages[..n]), cfg, messages[n])
    ensures PausesCurrent(Run(cfg, messages), cfg) && Run(cfg, messages).speechEvents != []
    decreases |messages|
  {
    hide Step, Orderly, FinalTokens, PausesCurrent, FinalizesWithProvenance;
    var before, m := messages[..|messages| - 1], messages[|messages| - 1];
    PausesStayConsistent(cfg, before);
    FinalHistoryOnlyGrows(cfg, before, 0);
    assert m in messages;
    if n < |messages| - 1 {
      assert before[..n] == messages[..n];
      IncrementalEqualsBatch(cfg, before, n);
    }
    StepPauses(Run(cfg, before), cfg, m);
  }

  // No pause is ever withdrawn or moved.
  lemma {:induction false} PausesOnlyGrow(cfg: Config, messages: seq<Message>, n: nat)
    requires LongEnough(cfg) && WordsTakeTime(messages) && ReportsNoPauses(messages) && n <= |messages|
    ensures RecordedGaps(Run(cfg, messages[..n]).speechEvents) <= RecordedGaps(Run(cfg, messages).speechEvents)
    decreases |messages|
  {
    hide Step, Orderly, FinalTokens, PausesCurrent, RecordedGaps;
    if n == |messages| {
      assert messages[..n] == messages;
    } else {
      var before, m := messages[..|messages| - 1], messages[|messages| - 1];
      assert before[..n] == messages[..n];
      PausesOnlyGrow(cfg, before, n);
      PausesStayConsistent(cfg, before);
      FinalHistoryOnlyGrows(cfg, before, 0);
      assert m in messages;
      StepPauses(Run(cfg, before), cfg, m);
    }
  }

  // ----- the pauses held, position by position -----

  function PauseAt(events: seq<SpeechEvent>): nat -> bool { (k: nat) => k < |events| && events[k].kind == SilentPause }

  // The pauses held are, in order, final events that fill the first of the long
  // gaps between the words; es and ks say which events and which gaps.
  ghost predicate HoldsPauses(events: seq<SpeechEvent>, words: Tokens, threshold: int, run: string, es: seq<nat>, ks: seq<nat>) {
    && Lists(es, |events|, PauseAt(events)) && Lists(ks, |words|, LongGaps(words, threshold))
    && |es| <= |ks|
    && forall m :: 0 <= m < |es| ==>
         es[m] < |events| && ks[m] + 1 < |words| && events[es[m]].isFinal && Fills(events[es[m]], words[ks[m]], words[ks[m] + 1], run)
  }

  ghost predicate SpansAt(gaps: seq<WordGap>, events: seq<SpeechEvent>, es: seq<nat>) {
    && |gaps| == |es|
    && forall m :: 0 <= m < |es| ==>
         es[m] < |events| && gaps[m] == WordGap(events[es[m]].interval.start, events[es[m]].interval.end)
  }

  lemma {:induction false} RecordedListed(events: seq<SpeechEvent>) returns (es: seq<nat>)
    ensures Lists(es, |events|, PauseAt(events)) && SpansAt(RecordedGaps(events), events, es)
  {
    if events == [] {
      es := [];
    } else {
      var n := |events| - 1;
      var before, last := events[..n], events[n];
      es := RecordedListed(before);
      assert events == before + [last];
      GapsAppend(before, last);
      ListsSame(es, n, PauseAt(before), PauseAt(events));
      hide Lists, RecordedGaps;
      SpansAtSnoc(RecordedGaps(before), before, es, last);
      assert RecordedGaps(before) + [] == RecordedGaps(before);
      es := ListsSnoc(es, n, PauseAt(events));
    }
  }

  lemma SpansAtSnoc(gaps: seq<WordGap>, events: seq<SpeechEvent>, es: seq<nat>, e: SpeechEvent)
    requires SpansAt(gaps, events, es)
    ensures SpansAt(gaps, events + [e], es)
    ensures SpansAt(gaps + [WordGap(e.interval.start, e.interval.end)], events + [e], es + [|events|])
  {
  }

  // What a prefix of the gaps means for the events that stand for it.
  lemma PausesAreHeld(events: seq<SpeechEvent>, words: Tokens, threshold: nat, run: string) returns (es: seq<nat>, ks: seq<nat>)
    requires AllWellNamed(run, events) && RecordedGaps(events) <= WordGaps(words, threshold)
    ensures HoldsPauses(events, words, threshold, run, es, ks)
    ensures RecordedGaps(events) == WordGaps(words, threshold) ==> |es| == |ks|
  {
    es := RecordedListed(events);
    ks := GapsListed(words, threshold);
    var held, gaps := RecordedGaps(events), WordGaps(words, threshold);
    hide RecordedGaps, WordGaps, LongGaps;
    forall m | 0 <= m < |es|
      ensures ks[m] + 1 < |words| && events[es[m]].isFinal && Fills(events[es[m]], words[ks[m]], words[ks[m] + 1], run)
    {
      assert held[m] == gaps[m];
      assert PauseAt(events)(es[m]) && WellNamed(run, events[es[m]]);
    }
  }

  // In every session the pauses held are the first of the long gaps between the
  // final words, and after any message that finalizes with a provenance to
  // borrow, from then on, there is one for every long gap.
  lemma PausesHeldExactly(cfg: Config, messages: seq<Message>) returns (es: seq<nat>, ks: seq<nat>)
    requires LongEnough(cfg) && WordsTakeTime(messages) && ReportsNoPauses(messages)
    ensures var s := Run(cfg, messages);
            HoldsPauses(s.speechEvents, FinalTokens(s.transcript), cfg.silenceThreshold, cfg.assembler.run, es, ks)
    ensures forall n :: 0 <= n < |messages| && FinalizesWithProvenance(Run(cfg, messages[..n]), cfg, messages[n]) ==> |es| == |ks|
  {
    hide HoldsPauses, FinalizesWithProvenance;
    var s := Run(cfg, messages);
    PausesStayConsistent(cfg, messages);
    es, ks := PausesAreHeld(s.speechEvents, FinalTokens(s.transcript), cfg.silenceThreshold, cfg.assembler.run);
    forall n | 0 <= n < |messages| && FinalizesWithProvenance(Run(cfg, messages[..n]), cfg, messages[n]) ensures |es| == |ks| {
      IncrementalEqualsBatch(cfg, messages, n);
    }
  }
}
