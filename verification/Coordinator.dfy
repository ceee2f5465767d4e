// The streaming coordinator: the objects of one live session, updated in place
// by one method per message.
module Coordinator {
  import opened Taxonomy
  import opened Ordering
  import opened Timeline
  import opened EventIdentity
  import opened Sequencing
  import opened Transcript
  import opened SpeechAssembly
  import opened Streaming
  import L = EvidenceLedger

  class StreamingState {
    var transcript: Tokens
    const audioChunks: ChunkLedger
    const videoChunks: ChunkLedger
    var speechEvents: seq<SpeechEvent>
    var visualEvents: map<string, VisualEvent>
    var prosody: seq<ProsodyReading>
    var quality: Quality
    var inFlight: int
    var degradedModalities: set<L.Modality>

    constructor ()
      ensures fresh(audioChunks) && fresh(videoChunks) && audioChunks != videoChunks
      ensures audioChunks.Valid() && audioChunks.View() == EmptyChunks
      ensures videoChunks.Valid() && videoChunks.View() == EmptyChunks
      ensures transcript == [] && speechEvents == [] && visualEvents == map[] && prosody == []
      ensures quality == Quality([], []) && inFlight == 0 && degradedModalities == {}
    {
      transcript, speechEvents, visualEvents, prosody := [], [], map[], [];
      quality, inFlight, degradedModalities := Quality([], []), 0, {};
      audioChunks := new ChunkLedger();
      videoChunks := new ChunkLedger();
    }
  }

  // Everything published to the client, oldest first.
  class EventChannel {
    var sent: seq<Outbound>

    constructor ()
      ensures sent == []
    {
      sent := [];
    }

    method Publish(message: Outbound)
      modifies this
      ensures sent == old(sent) + [message]
    {
      sent := sent + [message];
    }
  }

  // The events while the first k have been through the loop.
  function PartlyFinalized(events: seq<SpeechEvent>, k: nat, stable: int): (r: seq<SpeechEvent>)
    requires k <= |events|
    ensures |r| == |events|
    ensures k == 0 ==> r == events
    ensures k == |events| ==> r == FinalizeEvents(events, stable)
  {
    FinalizeEvents(events[..k], stable) + events[k..]
  }

  lemma PartlyFinalizedStep(events: seq<SpeechEvent>, k: nat, stable: int)
    requires k < |events|
    ensures var r := PartlyFinalized(events, k, stable);
            PartlyFinalized(events, k + 1, stable) == if Settles(events[k], stable) then r[k := events[k].Finalize()] else r
  {
  }

  class StreamingCoordinator {
    const state: StreamingState
    const channel: EventChannel
    const ledger: L.Ledger
    const assembler: Assembler
    const silenceThreshold: nat
    const maxQueueDepth: int

    constructor (assembler: Assembler, silenceThreshold: nat, maxQueueDepth: int)
      ensures Valid() && fresh(Objects())
      ensures View() == NewSession
      ensures Settings() == Config(assembler, silenceThreshold, maxQueueDepth)
    {
      this.assembler, this.silenceThreshold, this.maxQueueDepth := assembler, silenceThreshold, maxQueueDepth;
      state := new StreamingState();
      channel := new EventChannel();
      ledger := new L.Ledger(assembler.run);
    }

    function Settings(): Config { Config(assembler, silenceThreshold, maxQueueDepth) }

    ghost function Objects(): set<object> {
      {state, state.audioChunks, state.videoChunks, channel, ledger}
    }

    ghost predicate Valid()
      reads Objects()
    {
      && state.audioChunks != state.videoChunks
      && state.audioChunks.Valid() && state.videoChunks.Valid()
      && L.NonEmpty(ledger.history)
    }

    ghost function View(): Snapshot
      reads Objects()
    {
      Snapshot(state.transcript, state.audioChunks.View(), state.videoChunks.View(), state.speechEvents,
               state.visualEvents, state.prosody, state.quality, state.inFlight, state.degradedModalities,
               ledger.history, channel.sent)
    }

    // Everything but what the clause names is as it was.
    method Record(event: SpeechEvent)
      requires Valid()
      modifies ledger
      ensures Valid()
      ensures View() == old(View()).(ledger := Streaming.Record(old(ledger.history), event))
    {
      if event.id in ledger.history {
        var _ := ledger.Finalize(event.id);
        return;
      }
      var _ := ledger.Append(event.id, event.interval, event.provenance, true, L.Payload(event.kind, event.rawText));
    }

    method IngestAudio(sequence: int, answer: SpeechAnswer) returns (outcome: Outcome)
      requires Valid()
      modifies Objects()
      ensures Valid()
      ensures (View(), outcome) == Streaming.IngestAudio(old(View()), Settings(), sequence, answer)
    {
      hide Offered, Consistent, Streaming.Absorb, Assemble, Frontier;
      var verdict := state.audioChunks.Offer(sequence);
      if verdict.None? {
        return InvalidSequence;
      }
      if verdict.value == Duplicate {
        return Finished(Duplicate);
      }
      var admitted := Admit();
      if !admitted {
        return BackpressureRequired;
      }
      state.inFlight := state.inFlight + 1;
      if answer.SpeechFailed? {
        DegradeModality(L.Audio);
        state.inFlight := state.inFlight - 1;
        return Finished(Accepted);
      }
      state.inFlight := state.inFlight - 1;
      var assembled := Assemble(assembler, answer.result);
      if assembled.None? {
        return Violation;
      }
      var accepted := Absorb(assembled.value);
      return if accepted then Finished(verdict.value) else Violation;
    }

    // An accepted result: the transcript, the events and the readings take it in,
    // then everything the runtime considers settled is frozen.
    method Absorb(a: Assembled) returns (accepted: bool)
      requires Valid()
      modifies state, ledger, channel
      ensures Valid()
      ensures var r := Streaming.Absorb(old(View()), Settings(), a);
              accepted == r.Some? && View() == if accepted then r.value else old(View())
    {
      hide Consistent, FinalizeStep, PutAll, WithProvisional;
      var revised := WithProvisional(state.transcript, a.tokens);
      if revised.TranscriptViolation? {
        return false;
      }
      state.transcript := revised.tokens;
      StoreEvents(a.events);
      state.prosody := state.prosody + a.prosody;
      if a.events != [] {
        channel.Publish(SpeechPartial(a.events));
      }
      FinalizeThrough(a.stableThrough);
      return true;
    }

    method StoreEvents(events: seq<SpeechEvent>)
      requires Valid()
      modifies state`speechEvents
      ensures Valid()
      ensures View() == old(View()).(speechEvents := PutAll(old(state.speechEvents), events))
    {
      for k := 0 to |events|
        invariant Valid()
        invariant View() == old(View()).(speechEvents := PutAll(old(state.speechEvents), events[..k]))
      {
        assert events[..k + 1][..k] == events[..k];
        state.speechEvents := Put(state.speechEvents, events[k]);
      }
      assert events[..|events|] == events;
    }

    method FinalizeThrough(stable: int)
      requires Valid()
      modifies state, ledger, channel
      ensures Valid()
      ensures View() == FinalizeStep(old(View()), Settings(), stable)
    {
      if stable <= Frontier(state.transcript) {
        return;
      }
      state.transcript := Transcript.FinalizeThrough(state.transcript, stable).tokens;
      var newlyFinal := FinalizeSettled(stable);
      var added := DerivePauses(newlyFinal);
      var published := newlyFinal + added;
      var finals := FinalTokens(state.transcript);
      if finals != [] {
        channel.Publish(TranscriptFinal(finals));
      }
      if published != [] {
        channel.Publish(SpeechFinal(published));
      }
    }

    // The loop over the events held when it starts.
    method FinalizeSettled(stable: int) returns (newlyFinal: seq<SpeechEvent>)
      requires Valid()
      modifies state`speechEvents, ledger
      ensures Valid()
      ensures newlyFinal == NewlyFinal(old(state.speechEvents), stable)
      ensures View() == old(View()).(speechEvents := FinalizeEvents(old(state.speechEvents), stable),
                                     ledger := RecordAll(old(ledger.history), newlyFinal))
    {
      hide Streaming.Record;
      var events := state.speechEvents;
      newlyFinal := [];
      for k := 0 to |events|
        invariant Valid()
        invariant newlyFinal == NewlyFinal(events[..k], stable)
        invariant View() == old(View()).(speechEvents := PartlyFinalized(events, k, stable),
                                         ledger := RecordAll(old(ledger.history), newlyFinal))
      {
        assert events[..k + 1][..k] == events[..k];
        PartlyFinalizedStep(events, k, stable);
        if events[k].isFinal || events[k].interval.end > stable {
          continue;
        }
        var finalized := events[k].Finalize();
        state.speechEvents := state.speechEvents[k := finalized];
        assert (newlyFinal + [finalized])[..|newlyFinal|] == newlyFinal;
        newlyFinal := newlyFinal + [finalized];
        Record(finalized);
      }
      assert events[..|events|] == events;
    }

    method DerivePauses(newlyFinal: seq<SpeechEvent>) returns (added: seq<SpeechEvent>)
      requires Valid()
      modifies state`speechEvents, ledger
      ensures Valid()
      ensures var d := Streaming.DerivePauses(Settings(), FinalTokens(state.transcript), old(state.speechEvents), old(ledger.history), newlyFinal);
              added == d.added && View() == old(View()).(speechEvents := d.events, ledger := d.ledger)
    {
      hide IsPauseReport, FinalTokens;
      added := [];
      var finals := FinalTokens(state.transcript);
      if |finals| < 2 {
        return;
      }
      var provenance := BorrowedProvenance(newlyFinal, state.speechEvents);
      if provenance.None? {
        return;
      }
      var pauses := DeriveSilentPauses(finals, silenceThreshold, provenance.value, assembler.run);
      for k := 0 to |pauses|
        invariant Valid()
        invariant var d := AddPauses(old(state.speechEvents), old(ledger.history), pauses[..k]);
                  added == d.added && View() == old(View()).(speechEvents := d.events, ledger := d.ledger)
      {
        assert pauses[..k + 1][..k] == pauses[..k];
        if Has(state.speechEvents, pauses[k].id) {
          continue;
        }
        var finalPause := pauses[k].Finalize();
        state.speechEvents := Put(state.speechEvents, finalPause);
        added := added + [finalPause];
        Record(finalPause);
      }
      assert pauses[..|pauses|] == pauses;
    }

    method IngestVideo(sequence: int, answer: VisionAnswer) returns (outcome: Outcome)
      requires Valid()
      modifies Objects()
      ensures Valid()
      ensures (View(), outcome) == Streaming.IngestVideo(old(View()), Settings(), sequence, answer)
    {
      hide Offered, Consistent, PutVisual, Filter, Frontier;
      var verdict := state.videoChunks.Offer(sequence);
      if verdict.None? {
        return InvalidSequence;
      }
      if verdict.value == Duplicate {
        return Finished(Duplicate);
      }
      var admitted := Admit();
      if !admitted {
        return BackpressureRequired;
      }
      state.inFlight := state.inFlight + 1;
      if answer.VisionFailed? {
        DegradeModality(L.Video);
        state.inFlight := state.inFlight - 1;
        return Finished(Accepted);
      }
      state.inFlight := state.inFlight - 1;
      StoreVisual(answer.result.events);
      state.quality := Quality(state.quality.assessments + answer.result.assessments,
                               state.quality.availability + answer.result.availability);
      var unusable := Filter(answer.result.availability, Unusable);
      if unusable != [] {
        channel.Publish(QualityWarning(unusable, Frontier(state.transcript)));
      }
      return Finished(verdict.value);
    }

    method StoreVisual(events: seq<VisualEvent>)
      requires Valid()
      modifies state`visualEvents
      ensures Valid()
      ensures View() == old(View()).(visualEvents := PutVisual(old(state.visualEvents), events))
    {
      for k := 0 to |events|
        invariant Valid()
        invariant View() == old(View()).(visualEvents := PutVisual(old(state.visualEvents), events[..k]))
      {
        assert events[..k + 1][..k] == events[..k];
        state.visualEvents := state.visualEvents[events[k].id := events[k]];
      }
      assert events[..|events|] == events;
    }

    // Whether there is room; when there is not, the client is told.
    method Admit() returns (admitted: bool)
      requires Valid()
      modifies channel
      ensures Valid()
      ensures admitted <==> state.inFlight < maxQueueDepth
      ensures View() == if admitted then old(View())
                        else old(View()).(sent := old(channel.sent) + [BackpressureRequested(state.inFlight)])
    {
      admitted := state.inFlight < maxQueueDepth;
      if !admitted {
        channel.Publish(BackpressureRequested(state.inFlight));
      }
    }

    method DegradeModality(m: L.Modality)
      requires Valid()
      modifies state`degradedModalities, channel
      ensures Valid()
      ensures View() == Degrade(old(View()), m)
    {
      var firstTime := m !in state.degradedModalities;
      state.degradedModalities := state.degradedModalities + {m};
      if !firstTime {
        return;
      }
      channel.Publish(Degraded(m, Frontier(state.transcript)));
    }
  }
}
