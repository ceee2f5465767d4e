// The transcript over whole sessions, with an arbitrary speech runtime.
module TranscriptRuns {
  import opened Taxonomy
  import opened Ordering
  import opened Timeline
  import opened Sequencing
  import opened Transcript
  import opened SpeechAssembly
  import opened Streaming
  import L = EvidenceLedger

  // The audio result a message adds to the session: none for video, for a
  // failed, refused or redelivered chunk, and for a result the rules refuse.
  function Absorbed(s: Snapshot, cfg: Config, m: Message): Option<Assembled> {
    match m
    case VideoChunk(_, _) => None
    case AudioChunk(sequence, answer) =>
      if !Begin(s, cfg, L.Audio, sequence).1.Started? || answer.SpeechFailed? then None
      else
        match Assemble(cfg.assembler, answer.result)
        case None => None
        case Some(a) => if WithProvisional(s.transcript, a.tokens).Ok? then Some(a) else None
  }

  // The session once a result has been heard, before anything is finalized.
  function Heard(s: Snapshot, a: Assembled): Snapshot
    requires WithProvisional(s.transcript, a.tokens).Ok?
  {
    s.(transcript := WithProvisional(s.transcript, a.tokens).tokens,
       speechEvents := PutAll(s.speechEvents, a.events),
       prosody := s.prosody + a.prosody,
       sent := Publish(s.sent, a.events != [], SpeechPartial(a.events)))
  }

  // Same evidence: the parts of a session that audio results produce.
  ghost predicate SameEvidence(s: Snapshot, t: Snapshot) {
    && s.transcript == t.transcript && s.speechEvents == t.speechEvents
    && s.prosody == t.prosody && s.ledger == t.ledger
  }

  // The session when a started call has come back.
  function Back(s: Snapshot, cfg: Config, m: Message): Snapshot {
    match m
    case AudioChunk(sequence, _) => Returned(Begin(s, cfg, L.Audio, sequence).0)
    case VideoChunk(sequence, _) => Returned(Begin(s, cfg, L.Video, sequence).0)
  }

  lemma AbsorbingStep(s: Snapshot, cfg: Config, m: Message)
    requires L.NonEmpty(s.ledger) && Absorbed(s, cfg, m).Some?
    ensures var a := Absorbed(s, cfg, m).value;
            && Back(s, cfg, m).transcript == s.transcript
            && L.NonEmpty(Back(s, cfg, m).ledger)
            && Step(s, cfg, m) == FinalizeStep(Heard(Back(s, cfg, m), a), cfg, a.stableThrough)
  {
    hide Assemble, WithProvisional, PutAll, Frontier, Offered, FinalTokens, FinalizeStep;
  }

  lemma BackKeepsEvidence(s: Snapshot, cfg: Config, m: Message)
    ensures SameEvidence(Back(s, cfg, m), s) && s.sent <= Back(s, cfg, m).sent
    ensures Begin(s, cfg, if m.AudioChunk? then L.Audio else L.Video, m.sequence).1.Started? ==> Back(s, cfg, m).sent == s.sent
  {
    hide Offered;
  }

  // What a step that absorbs nothing leaves alone.
  ghost predicate Idle(s: Snapshot, t: Snapshot) {
    && SameEvidence(t, s) && s.sent <= t.sent
    && forall k :: |s.sent| <= k < |t.sent| ==> !t.sent[k].TranscriptFinal?
  }

  lemma IdleBegin(s: Snapshot, cfg: Config, m: L.Modality, sequence: int)
    ensures Idle(s, Begin(s, cfg, m, sequence).0)
  {
    hide Offered;
  }

  lemma IdleDegrade(s: Snapshot, t: Snapshot, m: L.Modality)
    requires Idle(s, t)
    ensures Idle(s, Returned(Degrade(t, m))) && Idle(s, Returned(t))
  {
    hide Frontier;
  }

  lemma IdleAudio(s: Snapshot, cfg: Config, m: Message)
    requires L.NonEmpty(s.ledger) && m.AudioChunk? && Absorbed(s, cfg, m).None?
    ensures Idle(s, Step(s, cfg, m))
  {
    hide Begin, Degrade, Assemble, WithProvisional, FinalizeStep, PutAll, Idle;
    var begun := Begin(s, cfg, L.Audio, m.sequence).0;
    IdleBegin(s, cfg, L.Audio, m.sequence);
    IdleDegrade(s, begun, L.Audio);
    assert begun.transcript == s.transcript by { BackKeepsEvidence(s, cfg, m); }
  }

  lemma IdleVideo(s: Snapshot, cfg: Config, m: Message)
    requires L.NonEmpty(s.ledger) && m.VideoChunk?
    ensures Idle(s, Step(s, cfg, m))
  {
    hide Begin, Degrade, PutVisual, Filter, Frontier;
    IdleBegin(s, cfg, L.Video, m.sequence);
    IdleDegrade(s, Begin(s, cfg, L.Video, m.sequence).0, L.Video);
  }

  lemma IdleStep(s: Snapshot, cfg: Config, m: Message)
    requires L.NonEmpty(s.ledger) && Absorbed(s, cfg, m).None?
    ensures Idle(s, Step(s, cfg, m))
  {
    hide Step, Absorbed, Idle;
    if m.AudioChunk? { IdleAudio(s, cfg, m); } else { IdleVideo(s, cfg, m); }
  }

  // Finalizing depends only on the evidence, and changes only it and the channel.
  lemma FinalizeOnEvidence(s: Snapshot, t: Snapshot, cfg: Config, stable: int)
    requires L.NonEmpty(s.ledger) && SameEvidence(s, t)
    ensures SameEvidence(FinalizeStep(s, cfg, stable), FinalizeStep(t, cfg, stable))
  {
    hide DerivePauses, Frontier, FinalTokens, RecordAll, NewlyFinal;
  }

  // Every message either leaves the evidence alone or absorbs one result.
  lemma StepShape(s: Snapshot, cfg: Config, m: Message)
    requires L.NonEmpty(s.ledger)
    ensures Absorbed(s, cfg, m).None? ==> SameEvidence(Step(s, cfg, m), s)
    ensures Absorbed(s, cfg, m).Some? ==>
              var a := Absorbed(s, cfg, m).value;
              SameEvidence(Step(s, cfg, m), FinalizeStep(Heard(s, a), cfg, a.stableThrough))
  {
    hide Absorbed, Step, FinalizeStep, PutAll, WithProvisional, Begin;
    if Absorbed(s, cfg, m).None? {
      IdleStep(s, cfg, m);
    } else {
      var a := Absorbed(s, cfg, m).value;
      AbsorbingStep(s, cfg, m);
      BackKeepsEvidence(s, cfg, m);
      AbsorbedFits(s, cfg, m);
      FinalizeOnEvidence(Heard(Back(s, cfg, m), a), Heard(s, a), cfg, a.stableThrough);
    }
  }

  lemma AbsorbedFits(s: Snapshot, cfg: Config, m: Message)
    requires Absorbed(s, cfg, m).Some?
    ensures WithProvisional(s.transcript, Absorbed(s, cfg, m).value.tokens).Ok?
    ensures Begin(s, cfg, L.Audio, m.sequence).1.Started? && m.AudioChunk?
  {
    hide WithProvisional, Assemble, Begin;
  }

  lemma AbsorbedTranscript(s: Snapshot, cfg: Config, a: Assembled)
    requires L.NonEmpty(s.ledger) && WithProvisional(s.transcript, a.tokens).Ok?
    ensures Reconcile(s.transcript, a.tokens, a.stableThrough).Ok?
    ensures FinalizeStep(Heard(s, a), cfg, a.stableThrough).transcript ==
            Reconcile(s.transcript, a.tokens, a.stableThrough).tokens
  {
    hide PutAll, RecordAll, NewlyFinal, DerivePauses;
  }

  // ----- the assumption on runtimes: words take time -----

  predicate TakesTime(w: WordHypothesis) { w.start < w.end }

  ghost predicate WordsTakeTime(messages: seq<Message>) {
    forall m :: m in messages && m.AudioChunk? && m.speech.Transcribed? ==>
      forall w :: w in m.speech.result.words ==> TakesTime(w)
  }

  lemma AssembledTokens(a: Assembler, r: SpeechResult)
    requires Assemble(a, r).Some? && forall w :: w in r.words ==> TakesTime(w)
    ensures PositiveLength(Assemble(a, r).value.tokens)
  {
    var tokens := Assemble(a, r).value.tokens;
    forall t | t in tokens ensures t.interval.start < t.interval.end {
      var k :| 0 <= k < |tokens| && tokens[k] == t;
      assert r.words[k] in r.words;
    }
  }

  lemma AssembledIsProvisional(a: Assembler, r: SpeechResult)
    requires Assemble(a, r).Some?
    ensures AllProvisional(Assemble(a, r).value.tokens)
    ensures forall e :: e in Assemble(a, r).value.events ==> !e.isFinal && e.id.kind == e.kind && e.id.run == a.run
  {
  }

  // ----- the invariant -----

  ghost predicate Orderly(s: Snapshot) {
    Canonical(s.transcript) && PositiveLength(FinalTokens(s.transcript))
  }

  lemma StepKeepsHistory(s: Snapshot, cfg: Config, m: Message)
    requires L.NonEmpty(s.ledger) && Orderly(s) && WordsTakeTime([m])
    ensures Orderly(Step(s, cfg, m))
    ensures FinalTokens(s.transcript) <= FinalTokens(Step(s, cfg, m).transcript)
    ensures Frontier(s.transcript) <= Frontier(Step(s, cfg, m).transcript)
  {
    hide Step, FinalizeStep, Reconcile, FinalTokens, Frontier;
    StepShape(s, cfg, m);
    if Absorbed(s, cfg, m).Some? {
      var a := Absorbed(s, cfg, m).value;
      assert m in [m];
      AssembledTokens(cfg.assembler, m.speech.result);
      AssembledIsProvisional(cfg.assembler, m.speech.result);
      AbsorbedTranscript(s, cfg, a);
      HistoryGrows(s.transcript, a.tokens, a.stableThrough);
      GrowthKeepsPositiveLength(s.transcript, a.tokens, a.stableThrough);
    }
  }

  // In every session the transcript is in canonical order, and the final tokens
  // at any point are in front of those at every later one.
  lemma {:induction false} FinalHistoryOnlyGrows(cfg: Config, messages: seq<Message>, n: nat)
    requires n <= |messages| && WordsTakeTime(messages)
    ensures Orderly(Run(cfg, messages))
    ensures FinalTokens(Run(cfg, messages[..n]).transcript) <= FinalTokens(Run(cfg, messages).transcript)
    ensures Frontier(Run(cfg, messages[..n]).transcript) <= Frontier(Run(cfg, messages).transcript)
    decreases |messages|
  {
    hide Step, Frontier, Orderly, FinalTokens;
    if messages == [] {
      NewSessionIsOrderly();
      assert messages[..n] == messages;
    } else {
      var before, m := messages[..|messages| - 1], messages[|messages| - 1];
      FinalHistoryOnlyGrows(cfg, before, if n == |messages| then 0 else n);
      assert WordsTakeTime([m]) by { assert m in messages; }
      StepKeepsHistory(Run(cfg, before), cfg, m);
      if n == |messages| { assert messages[..n] == messages; } else { assert before[..n] == messages[..n]; }
    }
  }

  lemma NewSessionIsOrderly()
    ensures Orderly(NewSession)
  {
  }

  // ----- what the client was told is final stays so -----

  ghost predicate PublishedPrefixes(s: Snapshot) {
    forall k :: 0 <= k < |s.sent| && s.sent[k].TranscriptFinal? ==> s.sent[k].tokens <= FinalTokens(s.transcript)
  }

  lemma FinalizePublishes(s: Snapshot, cfg: Config, stable: int)
    requires L.NonEmpty(s.ledger)
    ensures s.sent <= FinalizeStep(s, cfg, stable).sent
    ensures forall k :: |s.sent| <= k < |FinalizeStep(s, cfg, stable).sent| && FinalizeStep(s, cfg, stable).sent[k].TranscriptFinal? ==>
              FinalizeStep(s, cfg, stable).sent[k].tokens == FinalTokens(FinalizeStep(s, cfg, stable).transcript)
  {
    hide DerivePauses, RecordAll, NewlyFinal, FinalTokens, Frontier;
  }

  // Of the messages a step adds, any final transcript is the current one.
  lemma StepPublishes(s: Snapshot, cfg: Config, m: Message)
    requires L.NonEmpty(s.ledger)
    ensures s.sent <= Step(s, cfg, m).sent
    ensures forall k :: |s.sent| <= k < |Step(s, cfg, m).sent| && Step(s, cfg, m).sent[k].TranscriptFinal? ==>
              Step(s, cfg, m).sent[k].tokens == FinalTokens(Step(s, cfg, m).transcript)
  {
    hide Step, FinalizeStep, FinalTokens, PutAll, WithProvisional, Begin, Absorbed;
    if Absorbed(s, cfg, m).None? {
      IdleStep(s, cfg, m);
    } else {
      var a := Absorbed(s, cfg, m).value;
      AbsorbingStep(s, cfg, m);
      BackKeepsEvidence(s, cfg, m);
      AbsorbedFits(s, cfg, m);
      FinalizePublishes(Heard(Back(s, cfg, m), a), cfg, a.stableThrough);
    }
  }

  lemma {:induction false} PublishedIsNeverWithdrawn(cfg: Config, messages: seq<Message>)
    requires WordsTakeTime(messages)
    ensures PublishedPrefixes(Run(cfg, messages))
  {
    if messages != [] {
      var before, m := messages[..|messages| - 1], messages[|messages| - 1];
      PublishedIsNeverWithdrawn(cfg, before);
      FinalHistoryOnlyGrows(cfg, before, 0);
      assert WordsTakeTime([m]) by { assert m in messages; }
      StepKeepsHistory(Run(cfg, before), cfg, m);
      StepPublishes(Run(cfg, before), cfg, m);
      hide Step, FinalTokens;
      var s, t := Run(cfg, before), Run(cfg, messages);
      forall k | 0 <= k < |t.sent| && t.sent[k].TranscriptFinal? ensures t.sent[k].tokens <= FinalTokens(t.transcript) {
        if k < |s.sent| { assert t.sent[k] == s.sent[k]; }
      }
    }
  }
}
