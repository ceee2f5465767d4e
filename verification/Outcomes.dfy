// What one message comes to: every refusal, and everything an accepted result does.
module Outcomes {
  import opened Taxonomy
  import opened Ordering
  import opened Sequencing
  import opened Transcript
  import opened SpeechAssembly
  import opened Streaming
  import opened TranscriptRuns
  import opened LedgerRuns
  import opened EventRuns
  import L = EvidenceLedger

  // ----- whether a message is let in -----

  // The chunk is new and there is room for its call.
  predicate LetIn(s: Snapshot, cfg: Config, m: L.Modality, sequence: int) {
    sequence >= 0 && sequence !in ChunksOf(s, m).accepted && s.inFlight < cfg.maxQueueDepth
  }

  // The chunk is new and there is none.
  predicate TurnedAway(s: Snapshot, cfg: Config, m: L.Modality, sequence: int) {
    sequence >= 0 && sequence !in ChunksOf(s, m).accepted && s.inFlight >= cfg.maxQueueDepth
  }

  // A recognizer's words and events can be told, and no word starts before a
  // final token ends.
  ghost predicate Acceptable(s: Snapshot, r: SpeechResult) {
    && (forall w :: w in r.words ==> |w.rawText| > 0 && 0 <= w.start <= w.end)
    && (forall e :: e in r.events ==>
          && 0 <= e.start <= e.end
          && (e.kind in {LexicalFiller, Repetition, FalseStart, SelfRepair} ==> exists c :: c in e.rawText && c !in " \t\n\r"))
    && (forall p :: p in r.prosody ==> 0 <= p.start <= p.end)
    && Follows(r.words, s.transcript)
  }

  ghost predicate Follows(words: seq<WordHypothesis>, ts: Tokens) {
    forall w, f :: w in words && f in ts && f.isFinal ==> w.start >= f.interval.end
  }

  // The first failure of a modality is announced, at the end of what is final.
  ghost predicate Announces(s: Snapshot, t: Snapshot, m: L.Modality) {
    && t.degraded == s.degraded + {m}
    && (m in s.degraded ==> t.sent == s.sent)
    && (m !in s.degraded ==> exists at: nat :: t.sent == s.sent + [Degraded(m, at)] && IsFrontier(s.transcript, at))
  }

  // The latest end of a final token, or zero without one.
  ghost predicate IsFrontier(ts: Tokens, at: int) {
    && at >= 0 && (forall t :: t in ts && t.isFinal ==> t.interval.end <= at)
    && (at == 0 || exists t :: t in ts && t.isFinal && t.interval.end == at)
  }

  lemma FrontierIs(ts: Tokens)
    ensures IsFrontier(ts, Frontier(ts))
  {
    var finals := FinalTokens(ts);
    assert forall t :: t in finals <==> t in ts && IsFinal(t);
    if finals != [] {
      var end := LatestEnd(finals);
      var t :| t in finals && t.interval.end == end;
    }
  }

  lemma WordStarts(a: Assembler, r: SpeechResult)
    requires Assemble(a, r).Some?
    ensures var tokens := Assemble(a, r).value.tokens;
            |tokens| == |r.words| && forall k :: 0 <= k < |tokens| ==> tokens[k].interval.start == r.words[k].start
  {
    AssembledSays(a, r);
    hide Assemble, EventSays, ReadingSays;
  }

  lemma FollowsTokens(ts: Tokens, words: seq<WordHypothesis>, tokens: Tokens)
    requires |tokens| == |words| && forall k :: 0 <= k < |tokens| ==> tokens[k].interval.start == words[k].start
    ensures Follows(words, ts) <==>
            !exists t, f :: t in tokens && f in ts && f.isFinal && t.interval.start < f.interval.end
  {
    if Follows(words, ts) {
      forall t, f | t in tokens && f in ts && f.isFinal ensures t.interval.start >= f.interval.end {
        var k :| 0 <= k < |tokens| && tokens[k] == t;
        assert words[k] in words;
      }
    } else {
      var w, f :| w in words && f in ts && f.isFinal && w.start < f.interval.end;
      var k :| 0 <= k < |words| && words[k] == w;
      assert tokens[k] in tokens;
    }
  }

  lemma FollowsExactly(ts: Tokens, a: Assembler, r: SpeechResult)
    requires Assemble(a, r).Some?
    ensures Follows(r.words, ts) <==> WithProvisional(ts, Assemble(a, r).value.tokens).Ok?
  {
    WordStarts(a, r);
    RefusedExactly(ts, Assemble(a, r).value.tokens);
    hide Assemble, WithProvisional, Follows;
    FollowsTokens(ts, r.words, Assemble(a, r).value.tokens);
  }

  lemma AcceptableExactly(s: Snapshot, a: Assembler, r: SpeechResult)
    ensures Acceptable(s, r) <==>
            Assemble(a, r).Some? && WithProvisional(s.transcript, Assemble(a, r).value.tokens).Ok?
  {
    AssemblesExactly(a, r);
    hide Assemble, WithProvisional, Follows;
    if Assemble(a, r).Some? { FollowsExactly(s.transcript, a, r); }
  }

  lemma DegradeAnnounces(s: Snapshot, m: L.Modality)
    ensures Announces(s, Degrade(s, m), m)
    ensures Degrade(s, m) == s.(degraded := Degrade(s, m).degraded, sent := Degrade(s, m).sent)
  {
    FrontierIs(s.transcript);
    hide Frontier, IsFrontier;
  }

  // What an audio message comes to, and what the refusals leave alone.
  lemma AudioOutcome(s: Snapshot, cfg: Config, sequence: int, answer: SpeechAnswer)
    requires L.NonEmpty(s.ledger)
    ensures var (t, outcome) := IngestAudio(s, cfg, sequence, answer);
            var letIn := LetIn(s, cfg, L.Audio, sequence);
            && (outcome == InvalidSequence <==> sequence < 0)
            && (outcome == Finished(Duplicate) <==> sequence >= 0 && sequence in s.audioChunks.accepted)
            && (outcome == BackpressureRequired <==> TurnedAway(s, cfg, L.Audio, sequence))
            && (outcome == Violation <==> letIn && answer.Transcribed? && !Acceptable(s, answer.result))
            && (letIn && answer.SpeechFailed? ==>
                  outcome == Finished(Accepted) && Announces(s, t, L.Audio)
                  && t == s.(audioChunks := t.audioChunks, degraded := t.degraded, sent := t.sent))
            && (letIn && answer.Transcribed? && Acceptable(s, answer.result) ==> outcome == Finished(Offered(s.audioChunks, sequence).1))
            && (!letIn || outcome == Violation ==>
                  && t == s.(audioChunks := t.audioChunks, sent := t.sent)
                  && t.sent == s.sent + (if outcome == BackpressureRequired then [BackpressureRequested(s.inFlight)] else []))
  {
    hide Assemble, WithProvisional, FinalizeStep, PutAll, Degrade, Acceptable, Announces;
    var begun := Begin(s, cfg, L.Audio, sequence).0;
    DegradeAnnounces(begun, L.Audio);
    AnnouncesAlike(s, begun, Degrade(begun, L.Audio), Returned(Degrade(begun, L.Audio)));
    if answer.Transcribed? { AcceptableExactly(s, cfg.assembler, answer.result); }
    assert s.sent + [] == s.sent;
  }

  lemma AnnouncesAlike(s: Snapshot, begun: Snapshot, degraded: Snapshot, t: Snapshot)
    requires Announces(begun, degraded, L.Audio) || Announces(begun, degraded, L.Video)
    requires t.degraded == degraded.degraded && t.sent == degraded.sent
    ensures begun.transcript == s.transcript && begun.degraded == s.degraded && begun.sent == s.sent ==>
              && (Announces(begun, degraded, L.Audio) ==> Announces(s, t, L.Audio))
              && (Announces(begun, degraded, L.Video) ==> Announces(s, t, L.Video))
  {
  }

  lemma VideoOutcome(s: Snapshot, cfg: Config, sequence: int, answer: VisionAnswer)
    requires L.NonEmpty(s.ledger)
    ensures var (t, outcome) := IngestVideo(s, cfg, sequence, answer);
            var letIn := LetIn(s, cfg, L.Video, sequence);
            && (outcome == InvalidSequence <==> sequence < 0)
            && (outcome == Finished(Duplicate) <==> sequence >= 0 && sequence in s.videoChunks.accepted)
            && (outcome == BackpressureRequired <==> TurnedAway(s, cfg, L.Video, sequence))
            && outcome != Violation
            && (letIn && answer.VisionFailed? ==>
                  outcome == Finished(Accepted) && Announces(s, t, L.Video)
                  && t == s.(videoChunks := t.videoChunks, degraded := t.degraded, sent := t.sent))
            && (letIn && answer.Observed? ==> outcome == Finished(Offered(s.videoChunks, sequence).1))
            && (!letIn ==>
                  && t == s.(videoChunks := t.videoChunks, sent := t.sent)
                  && t.sent == s.sent + (if outcome == BackpressureRequired then [BackpressureRequested(s.inFlight)] else []))
  {
    hide PutVisual, Filter, Frontier, Degrade, Announces;
    var begun := Begin(s, cfg, L.Video, sequence).0;
    DegradeAnnounces(begun, L.Video);
    AnnouncesAlike(s, begun, Degrade(begun, L.Video), Returned(Degrade(begun, L.Video)));
    assert s.sent + [] == s.sent;
  }

  // ----- what an accepted result does -----

  // The tokens, events and readings are told as reported; the transcript is its
  // final tokens and the new ones, in order; events are stored under their
  // identifiers, readings appended, and the client is told of the events.
  ghost predicate HeardAs(s: Snapshot, h: Snapshot, cfg: Config, r: SpeechResult, a: Assembled, fs: seq<nat>) {
    && |a.tokens| == |r.words| && |a.events| == |r.events| && |a.prosody| == |r.prosody|
    && (forall k :: 0 <= k < |r.words| ==> TokenSays(a.tokens[k], r.words[k], cfg.assembler))
    && (forall k :: 0 <= k < |r.events| ==> EventSays(a.events[k], r.events[k], cfg.assembler, r.modelVersion))
    && (forall k :: 0 <= k < |r.prosody| ==> ReadingSays(a.prosody[k], r.prosody[k], cfg.assembler))
    && Canonical(h.transcript)
    && multiset(h.transcript) == multiset(Filter(s.transcript, (t: WordToken) => t.isFinal)) + multiset(a.tokens)
    && StoredInto(s.speechEvents, a.events, h.speechEvents, fs)
    && h.prosody == s.prosody + a.prosody
    && h.sent == s.sent + (if a.events == [] then [] else [SpeechPartial(a.events)])
    && h == s.(transcript := h.transcript, speechEvents := h.speechEvents, prosody := h.prosody, sent := h.sent)
  }

  // Hearing the result, then one finalizing step at its boundary.
  lemma AcceptedAudioExactly(s: Snapshot, cfg: Config, m: Message) returns (back: Snapshot, h: Snapshot, a: Assembled, fs: seq<nat>)
    requires L.NonEmpty(s.ledger) && Covered(s.speechEvents, s.ledger) && Absorbed(s, cfg, m).Some?
    ensures m.AudioChunk? && m.speech.Transcribed? && LetIn(s, cfg, L.Audio, m.sequence) && Acceptable(s, m.speech.result)
    ensures back == s.(audioChunks := back.audioChunks) && back.audioChunks.accepted == s.audioChunks.accepted + {m.sequence}
    ensures HeardAs(back, h, cfg, m.speech.result, a, fs) && L.NonEmpty(h.ledger)
    ensures Step(s, cfg, m) == FinalizeStep(h, cfg, m.speech.result.stableThrough)
  {
    AbsorbedBoundary(s, cfg, m);
    AbsorbedFits(s, cfg, m);
    AbsorbingStep(s, cfg, m);
    BackIs(s, cfg, m);
    back, a := Back(s, cfg, m), Absorbed(s, cfg, m).value;
    h := Heard(back, a);
    AcceptableExactly(s, cfg.assembler, m.speech.result);
    hide Absorbed, Back, Begin, Step, FinalizeStep, Acceptable, LetIn, Assemble, HeardAs, WithProvisional, PutAll;
    CoveredIsUnique(s.speechEvents, s.ledger);
    fs := HearingIs(back, cfg, m.speech.result, a);
  }

  lemma HearingIs(s: Snapshot, cfg: Config, r: SpeechResult, a: Assembled) returns (fs: seq<nat>)
    requires UniqueIds(s.speechEvents) && Assemble(cfg.assembler, r) == Some(a) && WithProvisional(s.transcript, a.tokens).Ok?
    ensures HeardAs(s, Heard(s, a), cfg, r, a, fs)
  {
    AssembledSays(cfg.assembler, r);
    AcceptedIs(s.transcript, a.tokens);
    fs := StoresExactly(s.speechEvents, a.events);
    hide Assemble, TokenSays, EventSays, ReadingSays, StoredInto, Canonical, WithProvisional, PutAll, Filter, UniqueIds;
    assert s.sent + [] == s.sent;
  }

  lemma BackIs(s: Snapshot, cfg: Config, m: Message)
    requires Begin(s, cfg, L.Audio, m.sequence).1.Started? && m.AudioChunk?
    ensures LetIn(s, cfg, L.Audio, m.sequence)
    ensures var b := Back(s, cfg, m);
            b == s.(audioChunks := b.audioChunks) && b.audioChunks.accepted == s.audioChunks.accepted + {m.sequence}
  {
  }

  // ----- the chunk ledgers of a session -----

  function ModalityOf(m: Message): L.Modality { if m.AudioChunk? then L.Audio else L.Video }

  // The sequence numbers a modality offered, in order.
  function Offers(messages: seq<Message>, modality: L.Modality): seq<nat> {
    if messages == [] then []
    else
      var before, m := Offers(messages[..|messages| - 1], modality), messages[|messages| - 1];
      if ModalityOf(m) == modality && m.sequence >= 0 then before + [m.sequence] else before
  }

  lemma FinalizeKeepsChunks(s: Snapshot, cfg: Config, boundary: int)
    requires L.NonEmpty(s.ledger)
    ensures var t := FinalizeStep(s, cfg, boundary); t.audioChunks == s.audioChunks && t.videoChunks == s.videoChunks
  {
    hide Frontier, FinalTokens, PromoteAll, NewlyFinal, RecordAll, DerivePauses, FinalizeEvents, Publish;
  }

  lemma StepOffers(s: Snapshot, cfg: Config, m: Message, modality: L.Modality)
    requires L.NonEmpty(s.ledger)
    ensures ChunksOf(Step(s, cfg, m), modality) ==
            if ModalityOf(m) == modality && m.sequence >= 0 then Offered(ChunksOf(s, modality), m.sequence).0
            else ChunksOf(s, modality)
  {
    hide Offered, FinalizeStep, Assemble, WithProvisional, PutAll, Publish, Frontier, PutVisual, Filter;
    if m.AudioChunk? && m.speech.Transcribed? {
      var back := Back(s, cfg, m);
      var assembled := Assemble(cfg.assembler, m.speech.result);
      if assembled.Some? && WithProvisional(back.transcript, assembled.value.tokens).Ok? {
        FinalizeKeepsChunks(Heard(back, assembled.value), cfg, assembled.value.stableThrough);
      }
    }
  }

  // Each ledger has been offered exactly its modality's numbers, in order, so its
  // verdicts and what it reports about loss are those of these offers.
  lemma {:induction false} ChunksFollowOffers(cfg: Config, messages: seq<Message>, modality: L.Modality)
    ensures ChunksOf(Run(cfg, messages), modality) == OfferAll(EmptyChunks, Offers(messages, modality))
  {
    hide Step, Offered;
    if messages != [] {
      var before, m := messages[..|messages| - 1], messages[|messages| - 1];
      ChunksFollowOffers(cfg, before, modality);
      StepOffers(Run(cfg, before), cfg, m, modality);
      var offers := Offers(before, modality);
      if ModalityOf(m) == modality && m.sequence >= 0 { assert (offers + [m.sequence])[..|offers|] == offers; }
    }
  }
}
