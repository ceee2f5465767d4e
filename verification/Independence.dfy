// Modality independence: neither modality's evidence depends on the other.
module Independence {
  import opened Taxonomy
  import opened Ordering
  import opened Sequencing
  import opened Transcript
  import opened SpeechAssembly
  import opened Streaming
  import L = EvidenceLedger

  predicate AboutAudio(o: Outbound) {
    match o
    case SpeechPartial(_) => true
    case TranscriptFinal(_) => true
    case SpeechFinal(_) => true
    case Degraded(m, _) => m == L.Audio
    case QualityWarning(_, _) => false
    case BackpressureRequested(_) => false
  }

  // Equal in everything audio produces, what the client hears about it included.
  ghost predicate SameAudio(s: Snapshot, t: Snapshot) {
    && s.transcript == t.transcript && s.audioChunks == t.audioChunks && s.speechEvents == t.speechEvents
    && s.prosody == t.prosody && s.ledger == t.ledger && s.inFlight == t.inFlight
    && (L.Audio in s.degraded <==> L.Audio in t.degraded)
    && Filter(s.sent, AboutAudio) == Filter(t.sent, AboutAudio)
  }

  ghost predicate SameVideo(s: Snapshot, t: Snapshot) {
    && s.videoChunks == t.videoChunks && s.visualEvents == t.visualEvents && s.quality == t.quality
    && s.inFlight == t.inFlight && (L.Video in s.degraded <==> L.Video in t.degraded)
  }

  // ----- messages, filtered -----

  lemma PublishFiltered(sent: seq<Outbound>, condition: bool, message: Outbound)
    ensures Filter(Publish(sent, condition, message), AboutAudio) ==
            Filter(sent, AboutAudio) + if condition && AboutAudio(message) then [message] else []
  {
    FilterAppend(sent, [message], AboutAudio);
    assert [message][1..] == [];
  }

  // ----- one audio message, from two sessions that agree on audio -----

  lemma SameFinalize(s: Snapshot, t: Snapshot, cfg: Config, stable: int)
    requires SameAudio(s, t) && L.NonEmpty(s.ledger)
    ensures SameAudio(FinalizeStep(s, cfg, stable), FinalizeStep(t, cfg, stable))
  {
    hide Frontier, FinalTokens, PromoteAll, NewlyFinal, RecordAll, DerivePauses, FinalizeEvents, Filter, Publish;
    if stable <= Frontier(s.transcript) { return; }
    var finals := FinalTokens(PromoteAll(s.transcript, stable));
    var newlyFinal := NewlyFinal(s.speechEvents, stable);
    var d := DerivePauses(cfg, finals, FinalizeEvents(s.speechEvents, stable), RecordAll(s.ledger, newlyFinal), newlyFinal);
    var events := newlyFinal + d.added;
    SamePublish(s.sent, t.sent, finals != [], TranscriptFinal(finals));
    SamePublish(Publish(s.sent, finals != [], TranscriptFinal(finals)), Publish(t.sent, finals != [], TranscriptFinal(finals)),
                events != [], SpeechFinal(events));
  }

  lemma SamePublish(a: seq<Outbound>, b: seq<Outbound>, condition: bool, message: Outbound)
    requires Filter(a, AboutAudio) == Filter(b, AboutAudio)
    ensures Filter(Publish(a, condition, message), AboutAudio) == Filter(Publish(b, condition, message), AboutAudio)
  {
    PublishFiltered(a, condition, message);
    PublishFiltered(b, condition, message);
  }

  lemma SameAbsorb(s: Snapshot, t: Snapshot, cfg: Config, a: Assembled)
    requires SameAudio(s, t) && L.NonEmpty(s.ledger)
    ensures Absorb(s, cfg, a).Some? <==> Absorb(t, cfg, a).Some?
    ensures Absorb(s, cfg, a).Some? ==> SameAudio(Absorb(s, cfg, a).value, Absorb(t, cfg, a).value)
  {
    hide FinalizeStep, WithProvisional, PutAll, Filter, Publish;
    SamePublish(s.sent, t.sent, a.events != [], SpeechPartial(a.events));
    match WithProvisional(s.transcript, a.tokens)
    case TranscriptViolation =>
    case Ok(tokens) =>
      var heard := s.(transcript := tokens, speechEvents := PutAll(s.speechEvents, a.events), prosody := s.prosody + a.prosody,
                      sent := Publish(s.sent, a.events != [], SpeechPartial(a.events)));
      var heard' := t.(transcript := tokens, speechEvents := PutAll(t.speechEvents, a.events), prosody := t.prosody + a.prosody,
                       sent := Publish(t.sent, a.events != [], SpeechPartial(a.events)));
      SameFinalize(heard, heard', cfg, a.stableThrough);
  }

  // With room in the queue, arrival depends on the audio side alone.
  lemma SameBegin(s: Snapshot, t: Snapshot, cfg: Config, sequence: int)
    requires SameAudio(s, t) && s.inFlight < cfg.maxQueueDepth
    ensures Begin(s, cfg, L.Audio, sequence).1 == Begin(t, cfg, L.Audio, sequence).1 != Refused
    ensures SameAudio(Begin(s, cfg, L.Audio, sequence).0, Begin(t, cfg, L.Audio, sequence).0)
    ensures Begin(s, cfg, L.Audio, sequence).0.inFlight ==
            s.inFlight + if Begin(s, cfg, L.Audio, sequence).1.Started? then 1 else 0
  {
    hide Offered, Filter;
  }

  lemma SameDegrade(s: Snapshot, t: Snapshot)
    requires SameAudio(s, t)
    ensures SameAudio(Degrade(s, L.Audio), Degrade(t, L.Audio))
  {
    hide Filter, Publish, Frontier;
    SamePublish(s.sent, t.sent, L.Audio !in s.degraded, Degraded(L.Audio, Frontier(s.transcript)));
  }

  lemma SameIngestAudio(s: Snapshot, t: Snapshot, cfg: Config, sequence: int, answer: SpeechAnswer)
    requires SameAudio(s, t) && s.inFlight == 0 < cfg.maxQueueDepth && L.NonEmpty(s.ledger)
    ensures var u, v := IngestAudio(s, cfg, sequence, answer), IngestAudio(t, cfg, sequence, answer);
            u.1 == v.1 && SameAudio(u.0, v.0) && u.0.inFlight == 0
  {
    hide Begin, Absorb, Degrade, Assemble, Filter;
    SameBegin(s, t, cfg, sequence);
    var b, c := Begin(s, cfg, L.Audio, sequence).0, Begin(t, cfg, L.Audio, sequence).0;
    SameDegrade(b, c);
    DegradeShape(b, L.Audio);
    BeginShape(s, cfg, L.Audio, sequence);
    BeginShape(t, cfg, L.Audio, sequence);
    match answer
    case SpeechFailed =>
    case Transcribed(result) =>
      var assembled := Assemble(cfg.assembler, result);
      if assembled.Some? {
        SameAbsorb(Returned(b), Returned(c), cfg, assembled.value);
        AbsorbShape(Returned(b), cfg, assembled.value);
      }
  }

  // ----- what each call leaves alone -----

  lemma BeginShape(s: Snapshot, cfg: Config, m: L.Modality, sequence: int)
    ensures var b := Begin(s, cfg, m, sequence).0;
            && b.ledger == s.ledger
            && (m == L.Audio ==> SameVideo(b.(inFlight := s.inFlight), s))
            && (m == L.Video ==> SameAudio(b.(inFlight := s.inFlight), s))
            && (Begin(s, cfg, m, sequence).1.Started? ==> b.inFlight == s.inFlight + 1)
            && (!Begin(s, cfg, m, sequence).1.Started? ==> b.inFlight == s.inFlight)
  {
    hide Offered, Filter;
    FilterAppend(s.sent, [BackpressureRequested(s.inFlight)], AboutAudio);
    FilterNone([BackpressureRequested(s.inFlight)], AboutAudio);
    assert Filter(s.sent, AboutAudio) + [] == Filter(s.sent, AboutAudio);
  }

  lemma DegradeShape(s: Snapshot, m: L.Modality)
    ensures Degrade(s, m).inFlight == s.inFlight && Degrade(s, m).ledger == s.ledger
    ensures m == L.Video ==> SameAudio(Degrade(s, m), s)
    ensures m == L.Audio ==> SameVideo(Degrade(s, m), s)
  {
    hide Filter, Publish, Frontier;
    PublishFiltered(s.sent, m !in s.degraded, Degraded(m, Frontier(s.transcript)));
    assert Filter(s.sent, AboutAudio) + [] == Filter(s.sent, AboutAudio);
  }

  lemma AbsorbShape(s: Snapshot, cfg: Config, a: Assembled)
    requires L.NonEmpty(s.ledger)
    ensures Absorb(s, cfg, a).Some? ==> SameVideo(Absorb(s, cfg, a).value, s)
  {
    hide WithProvisional, PutAll, Publish, Frontier, DerivePauses, RecordAll, NewlyFinal, FinalizeEvents, PromoteAll, FinalTokens;
  }

  // A video message, whatever the vision runtime does, leaves the audio side alone.
  lemma VideoLeavesAudio(s: Snapshot, cfg: Config, sequence: int, answer: VisionAnswer)
    requires L.NonEmpty(s.ledger)
    ensures SameAudio(IngestVideo(s, cfg, sequence, answer).0, s)
  {
    hide Begin, Degrade, Filter, Publish, Frontier, PutVisual;
    BeginShape(s, cfg, L.Video, sequence);
    var b := Begin(s, cfg, L.Video, sequence).0;
    DegradeShape(b, L.Video);
    match answer
    case VisionFailed =>
    case Observed(result) =>
      var unusable := Filter(result.availability, Unusable);
      PublishFiltered(b.sent, unusable != [], QualityWarning(unusable, Frontier(b.transcript)));
      assert Filter(b.sent, AboutAudio) + [] == Filter(b.sent, AboutAudio);
  }

  lemma AudioLeavesVideo(s: Snapshot, cfg: Config, sequence: int, answer: SpeechAnswer)
    requires L.NonEmpty(s.ledger)
    ensures SameVideo(IngestAudio(s, cfg, sequence, answer).0, s)
  {
    hide Begin, Degrade, Absorb, Assemble;
    BeginShape(s, cfg, L.Audio, sequence);
    var b := Begin(s, cfg, L.Audio, sequence).0;
    DegradeShape(b, L.Audio);
    match answer
    case SpeechFailed =>
    case Transcribed(result) =>
      var assembled := Assemble(cfg.assembler, result);
      if assembled.Some? { AbsorbShape(Returned(b), cfg, assembled.value); }
  }

  lemma SameIngestVideo(s: Snapshot, t: Snapshot, cfg: Config, sequence: int, answer: VisionAnswer)
    requires SameVideo(s, t) && s.inFlight == 0 < cfg.maxQueueDepth && L.NonEmpty(s.ledger) && L.NonEmpty(t.ledger)
    ensures var u, v := IngestVideo(s, cfg, sequence, answer), IngestVideo(t, cfg, sequence, answer);
            u.1 == v.1 && SameVideo(u.0, v.0) && u.0.inFlight == 0
  {
    hide Offered, Filter, Publish, Frontier, PutVisual;
  }

  // ----- whole sessions -----

  predicate IsAudio(m: Message) { m.AudioChunk? }

  predicate IsVideo(m: Message) { m.VideoChunk? }

  function Only(messages: seq<Message>, audio: bool): seq<Message> {
    if messages == [] then []
    else
      var before, m := Only(messages[..|messages| - 1], audio), messages[|messages| - 1];
      if m.AudioChunk? == audio then before + [m] else before
  }

  // With room for at least one call, everything audio produced, and everything
  // the client heard about it, is as in the session without the video messages,
  // however often vision failed.
  lemma {:induction false} AudioIgnoresVideo(cfg: Config, messages: seq<Message>)
    requires cfg.maxQueueDepth >= 1
    ensures SameAudio(Run(cfg, messages), Run(cfg, Only(messages, true))) && Run(cfg, messages).inFlight == 0
  {
    hide SameAudio, IngestAudio, IngestVideo;
    if messages != [] {
      var before, m := messages[..|messages| - 1], messages[|messages| - 1];
      AudioIgnoresVideo(cfg, before);
      var s, t := Run(cfg, before), Run(cfg, Only(before, true));
      SameFlight(s, t);
      match m
      case AudioChunk(sequence, answer) =>
        SameIngestAudio(s, t, cfg, sequence, answer);
        assert Only(messages, true)[..|Only(before, true)|] == Only(before, true);
      case VideoChunk(sequence, answer) =>
        VideoLeavesAudio(s, cfg, sequence, answer);
        SameFlight(IngestVideo(s, cfg, sequence, answer).0, s);
        SameAudioTransitive(IngestVideo(s, cfg, sequence, answer).0, s, t);
    } else {
      SameAudioReflexive(NewSession);
    }
  }

  // And the other way round for the visual side.
  lemma {:induction false} VideoIgnoresAudio(cfg: Config, messages: seq<Message>)
    requires cfg.maxQueueDepth >= 1
    ensures SameVideo(Run(cfg, messages), Run(cfg, Only(messages, false))) && Run(cfg, messages).inFlight == 0
  {
    hide IngestAudio, IngestVideo;
    if messages != [] {
      var before, m := messages[..|messages| - 1], messages[|messages| - 1];
      VideoIgnoresAudio(cfg, before);
      var s, t := Run(cfg, before), Run(cfg, Only(before, false));
      match m
      case AudioChunk(sequence, answer) =>
        AudioLeavesVideo(s, cfg, sequence, answer);
      case VideoChunk(sequence, answer) =>
        SameIngestVideo(s, t, cfg, sequence, answer);
        assert Only(messages, false)[..|Only(before, false)|] == Only(before, false);
    }
  }

  lemma SameFlight(s: Snapshot, t: Snapshot)
    requires SameAudio(s, t)
    ensures s.inFlight == t.inFlight && s.ledger == t.ledger
  {
  }

  lemma SameAudioReflexive(s: Snapshot)
    ensures SameAudio(s, s)
  {
  }

  lemma SameAudioTransitive(s: Snapshot, t: Snapshot, u: Snapshot)
    requires SameAudio(s, t) && SameAudio(t, u)
    ensures SameAudio(s, u)
  {
  }
}
