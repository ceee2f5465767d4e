// One live session as a value: what each message does to everything
// accumulated so far. The coordinator's methods are proved to do exactly this.
module Streaming {
  import opened Taxonomy
  import opened Ordering
  import opened Timeline
  import opened EventIdentity
  import opened Sequencing
  import opened Transcript
  import opened SpeechAssembly
  import L = EvidenceLedger

  datatype VisualEvent = VisualEvent(id: string, interval: Interval)

  datatype Assessment = Assessment(metric: string, window: Interval, value: real)

  datatype Availability = Availability(window: Interval, isUsable: bool, reason: string)

  datatype Quality = Quality(assessments: seq<Assessment>, availability: seq<Availability>)

  datatype VisualResult = VisualResult(events: seq<VisualEvent>, assessments: seq<Assessment>, availability: seq<Availability>)

  // ----- what the runtimes answer -----

  datatype SpeechAnswer = Transcribed(result: SpeechResult) | SpeechFailed

  datatype VisionAnswer = Observed(result: VisualResult) | VisionFailed

  // ----- what the client is told -----

  datatype Outbound =
    | SpeechPartial(events: seq<SpeechEvent>)
    | TranscriptFinal(tokens: Tokens)
    | SpeechFinal(events: seq<SpeechEvent>)
    | Degraded(modality: L.Modality, at: nat)
    | QualityWarning(records: seq<Availability>, at: nat)
    | BackpressureRequested(inFlight: int)

  datatype Config = Config(assembler: Assembler, silenceThreshold: nat, maxQueueDepth: int)

  datatype Snapshot = Snapshot(
    transcript: Tokens,
    audioChunks: ChunkState,
    videoChunks: ChunkState,
    speechEvents: seq<SpeechEvent>,
    visualEvents: map<string, VisualEvent>,
    prosody: seq<ProsodyReading>,
    quality: Quality,
    inFlight: int,
    degraded: set<L.Modality>,
    ledger: L.History,
    sent: seq<Outbound>)

  const NewSession := Snapshot([], EmptyChunks, EmptyChunks, [], map[], [], Quality([], []), 0, {}, map[], [])

  datatype Outcome = Finished(verdict: Verdict) | BackpressureRequired | Violation | InvalidSequence

  // ----- the insertion-ordered dictionary of speech events -----

  // events[e.id] = e: in place when the id is known, at the end when it is not.
  function Put(events: seq<SpeechEvent>, e: SpeechEvent): seq<SpeechEvent> {
    if events == [] then [e]
    else if events[0].id == e.id then [e] + events[1..]
    else [events[0]] + Put(events[1..], e)
  }

  function PutAll(events: seq<SpeechEvent>, incoming: seq<SpeechEvent>): seq<SpeechEvent> {
    if incoming == [] then events else Put(PutAll(events, incoming[..|incoming| - 1]), incoming[|incoming| - 1])
  }

  predicate Has(events: seq<SpeechEvent>, id: EventId) {
    exists k :: 0 <= k < |events| && events[k].id == id
  }

  // ----- recording in the ledger -----

  function RecordOp(h: L.History, e: SpeechEvent): L.Op {
    if e.id in h then L.Op.Finalize(e.id)
    else L.Op.Append(e.id, e.interval, e.provenance, true, L.Payload(e.kind, e.rawText))
  }

  function Record(h: L.History, e: SpeechEvent): (r: L.History)
    requires L.NonEmpty(h)
    ensures L.NonEmpty(r)
  {
    L.Perform(h, RecordOp(h, e)).0
  }

  function RecordAll(h: L.History, events: seq<SpeechEvent>): (r: L.History)
    requires L.NonEmpty(h)
    ensures L.NonEmpty(r)
  {
    if events == [] then h else Record(RecordAll(h, events[..|events| - 1]), events[|events| - 1])
  }

  // ----- finalizing -----

  predicate Settles(e: SpeechEvent, stable: int) { !e.isFinal && e.interval.end <= stable }

  function FinalizeEvents(events: seq<SpeechEvent>, stable: int): (r: seq<SpeechEvent>)
    ensures |r| == |events|
    ensures forall k :: 0 <= k < |events| ==> r[k] == if Settles(events[k], stable) then events[k].Finalize() else events[k]
    ensures forall k :: 0 <= k < |events| ==> r[k] == events[k].(isFinal := events[k].isFinal || events[k].interval.end <= stable)
  {
    seq(|events|, k requires 0 <= k < |events| => if Settles(events[k], stable) then events[k].Finalize() else events[k])
  }

  function NewlyFinal(events: seq<SpeechEvent>, stable: int): seq<SpeechEvent> {
    if events == [] then []
    else
      var before, e := NewlyFinal(events[..|events| - 1], stable), events[|events| - 1];
      if Settles(e, stable) then before + [e.Finalize()] else before
  }

  // Borrowed from a real event; none when there is nothing to borrow from.
  function BorrowedProvenance(newlyFinal: seq<SpeechEvent>, events: seq<SpeechEvent>): Option<L.Provenance> {
    if newlyFinal != [] then Some(newlyFinal[0].provenance)
    else if events != [] then Some(events[0].provenance)
    else None
  }

  // Events and ledger while derived pauses are being added, and those added.
  datatype Derivation = Derivation(events: seq<SpeechEvent>, ledger: L.History, added: seq<SpeechEvent>)

  function AddPauses(events: seq<SpeechEvent>, ledger: L.History, pauses: seq<SpeechEvent>): (d: Derivation)
    requires L.NonEmpty(ledger)
    ensures L.NonEmpty(d.ledger)
  {
    if pauses == [] then Derivation(events, ledger, [])
    else
      var d, p := AddPauses(events, ledger, pauses[..|pauses| - 1]), pauses[|pauses| - 1].Finalize();
      if Has(d.events, p.id) then d
      else Derivation(Put(d.events, p), Record(d.ledger, p), d.added + [p])
  }

  function DerivePauses(cfg: Config, finals: Tokens, events: seq<SpeechEvent>, ledger: L.History, newlyFinal: seq<SpeechEvent>)
    : (d: Derivation)
    requires L.NonEmpty(ledger)
    ensures L.NonEmpty(d.ledger)
  {
    var provenance := BorrowedProvenance(newlyFinal, events);
    if |finals| < 2 || provenance.None? then Derivation(events, ledger, [])
    else AddPauses(events, ledger, SilentPauses(finals, cfg.silenceThreshold, provenance.value, cfg.assembler.run))
  }

  function Publish(sent: seq<Outbound>, condition: bool, message: Outbound): seq<Outbound> {
    if condition then sent + [message] else sent
  }

  function FinalizeStep(s: Snapshot, cfg: Config, stable: int): (r: Snapshot)
    requires L.NonEmpty(s.ledger)
    ensures L.NonEmpty(r.ledger)
  {
    if stable <= Frontier(s.transcript) then s
    else
      var transcript := PromoteAll(s.transcript, stable);
      var newlyFinal := NewlyFinal(s.speechEvents, stable);
      var finals := FinalTokens(transcript);
      var d := DerivePauses(cfg, finals, FinalizeEvents(s.speechEvents, stable), RecordAll(s.ledger, newlyFinal), newlyFinal);
      var published := newlyFinal + d.added;
      s.(transcript := transcript,
         speechEvents := d.events,
         ledger := d.ledger,
         sent := Publish(Publish(s.sent, finals != [], TranscriptFinal(finals)), published != [], SpeechFinal(published)))
  }

  // ----- one call, from arrival to answer -----

  datatype Begun = Invalid | Redelivered | Refused | Started(verdict: Verdict)

  function ChunksOf(s: Snapshot, m: L.Modality): ChunkState {
    if m == L.Audio then s.audioChunks else s.videoChunks
  }

  function WithChunks(s: Snapshot, m: L.Modality, c: ChunkState): Snapshot {
    if m == L.Audio then s.(audioChunks := c) else s.(videoChunks := c)
  }

  // The chunk is recorded, then admitted or refused.
  function Begin(s: Snapshot, cfg: Config, m: L.Modality, sequence: int): (Snapshot, Begun) {
    if sequence < 0 then (s, Invalid)
    else
      var (chunks, verdict) := Offered(ChunksOf(s, m), sequence);
      var seen := WithChunks(s, m, chunks);
      if verdict == Duplicate then (seen, Redelivered)
      else if seen.inFlight < cfg.maxQueueDepth then (seen.(inFlight := seen.inFlight + 1), Started(verdict))
      else (seen.(sent := seen.sent + [BackpressureRequested(seen.inFlight)]), Refused)
  }

  function Returned(s: Snapshot): Snapshot { s.(inFlight := s.inFlight - 1) }

  // A modality is announced as degraded the first time it fails.
  function Degrade(s: Snapshot, m: L.Modality): Snapshot {
    s.(degraded := s.degraded + {m},
       sent := Publish(s.sent, m !in s.degraded, Degraded(m, Frontier(s.transcript))))
  }

  // What an accepted audio result does. None when it breaks a transcript rule.
  function Absorb(s: Snapshot, cfg: Config, a: Assembled): (r: Option<Snapshot>)
    requires L.NonEmpty(s.ledger)
    ensures r.Some? ==> L.NonEmpty(r.value.ledger)
  {
    match WithProvisional(s.transcript, a.tokens)
    case TranscriptViolation => None
    case Ok(tokens) =>
      var heard := s.(transcript := tokens,
                      speechEvents := PutAll(s.speechEvents, a.events),
                      prosody := s.prosody + a.prosody,
                      sent := Publish(s.sent, a.events != [], SpeechPartial(a.events)));
      Some(FinalizeStep(heard, cfg, a.stableThrough))
  }

  function IngestAudio(s: Snapshot, cfg: Config, sequence: int, answer: SpeechAnswer): (r: (Snapshot, Outcome))
    requires L.NonEmpty(s.ledger)
    ensures L.NonEmpty(r.0.ledger)
  {
    var (begun, admission) := Begin(s, cfg, L.Audio, sequence);
    match admission
    case Invalid => (begun, InvalidSequence)
    case Redelivered => (begun, Finished(Duplicate))
    case Refused => (begun, BackpressureRequired)
    case Started(verdict) =>
      match answer
      case SpeechFailed => (Returned(Degrade(begun, L.Audio)), Finished(Accepted))
      case Transcribed(result) =>
        var back := Returned(begun);
        var assembled := Assemble(cfg.assembler, result);
        if assembled.None? then (back, Violation)
        else
          var absorbed := Absorb(back, cfg, assembled.value);
          if absorbed.None? then (back, Violation) else (absorbed.value, Finished(verdict))
  }

  function PutVisual(events: map<string, VisualEvent>, incoming: seq<VisualEvent>): map<string, VisualEvent> {
    if incoming == [] then events
    else PutVisual(events, incoming[..|incoming| - 1])[incoming[|incoming| - 1].id := incoming[|incoming| - 1]]
  }

  predicate Unusable(a: Availability) { !a.isUsable }

  function IngestVideo(s: Snapshot, cfg: Config, sequence: int, answer: VisionAnswer): (r: (Snapshot, Outcome))
    requires L.NonEmpty(s.ledger)
    ensures L.NonEmpty(r.0.ledger)
  {
    var (begun, admission) := Begin(s, cfg, L.Video, sequence);
    match admission
    case Invalid => (begun, InvalidSequence)
    case Redelivered => (begun, Finished(Duplicate))
    case Refused => (begun, BackpressureRequired)
    case Started(verdict) =>
      match answer
      case VisionFailed => (Returned(Degrade(begun, L.Video)), Finished(Accepted))
      case Observed(result) =>
        var back := Returned(begun);
        var unusable := Filter(result.availability, Unusable);
        (back.(visualEvents := PutVisual(back.visualEvents, result.events),
               quality := Quality(back.quality.assessments + result.assessments,
                                  back.quality.availability + result.availability),
               sent := Publish(back.sent, unusable != [], QualityWarning(unusable, Frontier(back.transcript)))),
         Finished(verdict))
  }

  // ----- a session as a sequence of messages -----

  datatype Message =
    | AudioChunk(sequence: int, speech: SpeechAnswer)
    | VideoChunk(sequence: int, vision: VisionAnswer)

  function Step(s: Snapshot, cfg: Config, m: Message): (r: Snapshot)
    requires L.NonEmpty(s.ledger)
    ensures L.NonEmpty(r.ledger)
  {
    match m
    case AudioChunk(sequence, answer) => IngestAudio(s, cfg, sequence, answer).0
    case VideoChunk(sequence, answer) => IngestVideo(s, cfg, sequence, answer).0
  }

  function Run(cfg: Config, messages: seq<Message>): (r: Snapshot)
    ensures L.NonEmpty(r.ledger)
  {
    if messages == [] then NewSession else Step(Run(cfg, messages[..|messages| - 1]), cfg, messages[|messages| - 1])
  }
}
