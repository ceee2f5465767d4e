// The bounded queue under concurrency: audio and video calls may be suspended
// in any number and resumed in any order.
module Queue {
  import opened Taxonomy
  import opened Sequencing
  import opened Streaming
  import SpeechAssembly
  import Transcript
  import L = EvidenceLedger

  datatype Call = Call(modality: L.Modality, sequence: int)

  // Where a chunk that was not a redelivery has got to. A call whose runtime
  // failed still counts as in flight while its notice is being published.
  datatype Fate = Outstanding | Announcing | CameBack | Failed | TurnedAway

  // The session, and the history of its calls.
  datatype System = System(session: Snapshot, fate: map<Call, Fate>, audioOffers: nat, videoOffers: nat)

  const Start := System(NewSession, map[], 0, 0)

  // The atomic steps between two suspension points.
  datatype Action =
    | Arrive(call: Call)
    | Return(call: Call)
    | Fail(call: Call)
    | Settle(call: Call)
    | Evolve(session: Snapshot)

  // Everything the queue depends on.
  ghost predicate SameQueue(s: Snapshot, t: Snapshot) {
    && s.inFlight == t.inFlight && s.audioChunks == t.audioChunks && s.videoChunks == t.videoChunks
    && s.degraded == t.degraded
    && forall m :: Notices(s.sent, m) == Notices(t.sent, m)
  }

  function Notices(sent: seq<Outbound>, m: L.Modality): nat {
    if sent == [] then 0
    else
      Notices(sent[..|sent| - 1], m)
      + if sent[|sent| - 1].Degraded? && sent[|sent| - 1].modality == m then 1 else 0
  }

  ghost predicate Enabled(q: System, a: Action) {
    match a
    case Arrive(_) => true
    case Return(c) => c in q.fate && q.fate[c] == Outstanding
    case Fail(c) => c in q.fate && q.fate[c] == Outstanding
    case Settle(c) => c in q.fate && q.fate[c] == Announcing
    case Evolve(session) => SameQueue(q.session, session)
  }

  function CountOffer(q: System, c: Call): System {
    if c.sequence < 0 then q
    else if c.modality == L.Audio then q.(audioOffers := q.audioOffers + 1)
    else q.(videoOffers := q.videoOffers + 1)
  }

  function Perform(q: System, cfg: Config, a: Action): System {
    match a
    case Arrive(c) =>
      var (begun, admission) := Begin(q.session, cfg, c.modality, c.sequence);
      var counted := CountOffer(q, c).(session := begun);
      (match admission
       case Started(_) => counted.(fate := q.fate[c := Outstanding])
       case Refused => counted.(fate := q.fate[c := TurnedAway])
       case _ => counted)
    case Return(c) => q.(session := Returned(q.session), fate := q.fate[c := CameBack])
    case Fail(c) => q.(session := Degrade(q.session, c.modality), fate := q.fate[c := Announcing])
    case Settle(c) => q.(session := Returned(q.session), fate := q.fate[c := Failed])
    case Evolve(session) => q.(session := session)
  }

  // A step that is not enabled does not happen.
  ghost function Next(q: System, cfg: Config, a: Action): System {
    if Enabled(q, a) then Perform(q, cfg, a) else q
  }

  ghost function Execute(cfg: Config, actions: seq<Action>): System {
    if actions == [] then Start else Next(Execute(cfg, actions[..|actions| - 1]), cfg, actions[|actions| - 1])
  }

  // ----- the accounts -----

  function InFlight(q: System): set<Call> {
    set c | c in q.fate && (q.fate[c] == Outstanding || q.fate[c] == Announcing)
  }

  function Accepted(q: System, m: L.Modality): set<int> { ChunksOf(q.session, m).accepted }

  function Duplicates(s: Snapshot, m: L.Modality): nat { ChunksOf(s, m).duplicates }

  function Limit(cfg: Config): nat { if cfg.maxQueueDepth >= 0 then cfg.maxQueueDepth else 0 }

  // Some call of the modality has failed.
  ghost predicate InTrouble(q: System, m: L.Modality) {
    exists c :: c in q.fate && c.modality == m && (q.fate[c] == Announcing || q.fate[c] == Failed)
  }

  ghost predicate Accounted(q: System, cfg: Config) {
    && q.session.inFlight == |InFlight(q)| <= Limit(cfg)
    && (forall c :: c in q.fate <==> c.sequence in Accepted(q, c.modality))
    && q.audioOffers == |Accepted(q, L.Audio)| + q.session.audioChunks.duplicates
    && q.videoOffers == |Accepted(q, L.Video)| + q.session.videoChunks.duplicates
    && (forall m :: Notices(q.session.sent, m) == if m in q.session.degraded then 1 else 0)
    && (forall m :: m in q.session.degraded <==> InTrouble(q, m))
  }

  lemma NoticesAppend(sent: seq<Outbound>, o: Outbound)
    ensures forall m :: Notices(sent + [o], m) == Notices(sent, m) + if o.Degraded? && o.modality == m then 1 else 0
  {
    assert (sent + [o])[..|sent|] == sent;
  }

  // ----- what happens after an answer leaves the queue alone -----

  lemma PublishIsQuiet(sent: seq<Outbound>, condition: bool, message: Outbound)
    requires !message.Degraded?
    ensures forall m :: Notices(Publish(sent, condition, message), m) == Notices(sent, m)
  {
    NoticesAppend(sent, message);
    hide Notices;
  }

  lemma FinalizeIsQuiet(s: Snapshot, cfg: Config, stable: int)
    requires L.NonEmpty(s.ledger)
    ensures SameQueue(s, FinalizeStep(s, cfg, stable))
  {
    hide Notices, Publish, Transcript.PromoteAll, Transcript.FinalTokens, Transcript.Frontier;
    hide NewlyFinal, FinalizeEvents, RecordAll, DerivePauses;
    var finals := Transcript.FinalTokens(Transcript.PromoteAll(s.transcript, if stable >= 0 then stable else 0));
    var newlyFinal := NewlyFinal(s.speechEvents, stable);
    var d := DerivePauses(cfg, finals, FinalizeEvents(s.speechEvents, stable), RecordAll(s.ledger, newlyFinal), newlyFinal);
    PublishIsQuiet(s.sent, finals != [], TranscriptFinal(finals));
    PublishIsQuiet(Publish(s.sent, finals != [], TranscriptFinal(finals)), newlyFinal + d.added != [], SpeechFinal(newlyFinal + d.added));
  }

  // So the work a call does once its runtime has answered is a step the queue
  // allows at any time.
  lemma AbsorbIsQuiet(s: Snapshot, cfg: Config, a: SpeechAssembly.Assembled)
    requires L.NonEmpty(s.ledger)
    ensures Absorb(s, cfg, a).Some? ==> SameQueue(s, Absorb(s, cfg, a).value)
  {
    hide Notices, Publish, FinalizeStep, PutAll, Transcript.WithProvisional;
    PublishIsQuiet(s.sent, a.events != [], SpeechPartial(a.events));
    match Transcript.WithProvisional(s.transcript, a.tokens)
    case TranscriptViolation =>
    case Ok(tokens) =>
      var heard := s.(transcript := tokens, speechEvents := PutAll(s.speechEvents, a.events), prosody := s.prosody + a.prosody,
                      sent := Publish(s.sent, a.events != [], SpeechPartial(a.events)));
      FinalizeIsQuiet(heard, cfg, a.stableThrough);
  }

  // ----- arrival -----

  // What arrival does to the queue.
  lemma ArriveShape(q: System, cfg: Config, c: Call)
    ensures var (b, admission) := Begin(q.session, cfg, c.modality, c.sequence);
            && b.degraded == q.session.degraded
            && (forall m :: Notices(b.sent, m) == Notices(q.session.sent, m))
            && (forall m :: m != c.modality ==> ChunksOf(b, m) == ChunksOf(q.session, m))
            && (admission == Invalid <==> c.sequence < 0)
            && (c.sequence < 0 ==> b == q.session)
            && (admission == Redelivered <==> c.sequence >= 0 && c.sequence in Accepted(q, c.modality))
            && (c.sequence >= 0 ==> ChunksOf(b, c.modality).accepted == Accepted(q, c.modality) + {c.sequence})
            && (c.sequence >= 0 ==> Duplicates(b, c.modality) == Duplicates(q.session, c.modality) + (if admission == Redelivered then 1 else 0))
            && b.inFlight == q.session.inFlight + (if admission.Started? then 1 else 0)
            && (admission.Started? ==> q.session.inFlight < cfg.maxQueueDepth)
  {
    NoticesAppend(q.session.sent, BackpressureRequested(q.session.inFlight));
    hide Notices;
  }

  // A chunk that finds the queue full is recorded and refused, and the client is
  // told; nothing else changes on arrival but the count of calls in flight.
  lemma ArrivalTells(s: Snapshot, cfg: Config, c: Call)
    ensures var (b, admission) := Begin(s, cfg, c.modality, c.sequence);
            && (admission == Refused <==>
                  c.sequence >= 0 && c.sequence !in ChunksOf(s, c.modality).accepted && s.inFlight >= cfg.maxQueueDepth)
            && b.sent == s.sent + (if admission == Refused then [BackpressureRequested(s.inFlight)] else [])
            && b == s.(audioChunks := b.audioChunks, videoChunks := b.videoChunks, inFlight := b.inFlight, sent := b.sent)
  {
    assert s.sent + [] == s.sent;
  }

  // What is in flight grows by the call exactly when it is admitted.
  lemma ArriveInFlight(q: System, cfg: Config, c: Call)
    requires Accounted(q, cfg)
    ensures var p := Perform(q, cfg, Arrive(c)); p.session.inFlight == |InFlight(p)| <= Limit(cfg)
  {
    hide Begin, Notices, InTrouble, Accepted, Duplicates;
    ArriveShape(q, cfg, c);
    var p := Perform(q, cfg, Arrive(c));
    if Begin(q.session, cfg, c.modality, c.sequence).1.Started? {
      assert c !in q.fate && InFlight(p) == InFlight(q) + {c};
    } else {
      assert InFlight(p) == InFlight(q);
    }
  }

  // A chunk has a fate exactly when it has been recorded.
  lemma ArriveFates(q: System, cfg: Config, c: Call)
    requires Accounted(q, cfg)
    ensures var p := Perform(q, cfg, Arrive(c));
            && (forall d :: d in p.fate <==> d.sequence in Accepted(p, d.modality))
            && (forall m :: InTrouble(p, m) <==> InTrouble(q, m))
  {
    hide Begin, Notices, InTrouble, InFlight;
    ArriveShape(q, cfg, c);
    SameTroubles(q, Perform(q, cfg, Arrive(c)), c);
  }

  lemma ArriveAccounted(q: System, cfg: Config, c: Call)
    requires Accounted(q, cfg)
    ensures Accounted(Perform(q, cfg, Arrive(c)), cfg)
  {
    hide Begin, Notices, InTrouble, InFlight, Accepted;
    ArriveShape(q, cfg, c);
    ArriveInFlight(q, cfg, c);
    ArriveFates(q, cfg, c);
    ArriveOffers(q, cfg, c);
  }

  // The offers and the chunks recorded stay in step.
  lemma ArriveOffers(q: System, cfg: Config, c: Call)
    requires Accounted(q, cfg)
    ensures var p := Perform(q, cfg, Arrive(c));
            && p.audioOffers == |Accepted(p, L.Audio)| + Duplicates(p.session, L.Audio)
            && p.videoOffers == |Accepted(p, L.Video)| + Duplicates(p.session, L.Video)
  {
    hide Begin, Notices;
    ArriveShape(q, cfg, c);
    if c.sequence in Accepted(q, c.modality) {
      assert Accepted(q, c.modality) + {c.sequence} == Accepted(q, c.modality);
    }
  }

  // Calls in trouble, by modality, are the same if only c changed, and not to or
  // from trouble.
  lemma SameTroubles(q: System, p: System, c: Call)
    requires forall d :: d != c ==> (d in p.fate <==> d in q.fate)
    requires forall d :: d != c && d in p.fate ==> p.fate[d] == q.fate[d]
    requires c in q.fate ==> c in p.fate && (p.fate[c] == q.fate[c] || q.fate[c] !in {Announcing, Failed})
    requires c in p.fate && p.fate[c] in {Announcing, Failed} ==> c in q.fate && p.fate[c] == q.fate[c]
    ensures forall m :: InTrouble(p, m) <==> InTrouble(q, m)
  {
    forall m ensures InTrouble(p, m) <==> InTrouble(q, m) {
      if d :| d in p.fate && d.modality == m && (p.fate[d] == Announcing || p.fate[d] == Failed) {
        assert d in q.fate && q.fate[d] == p.fate[d];
      }
      if d :| d in q.fate && d.modality == m && (q.fate[d] == Announcing || q.fate[d] == Failed) {
        assert d in p.fate && q.fate[d] == p.fate[d];
      }
    }
  }

  // A call leaves the queue.
  lemma LeaveAccounted(q: System, cfg: Config, c: Call, now: Fate)
    requires Accounted(q, cfg) && c in q.fate
    requires (q.fate[c] == Outstanding && now == CameBack) || (q.fate[c] == Announcing && now == Failed)
    ensures Accounted(q.(session := Returned(q.session), fate := q.fate[c := now]), cfg)
  {
    hide Notices;
    var p := q.(session := Returned(q.session), fate := q.fate[c := now]);
    assert InFlight(p) == InFlight(q) - {c} && c in InFlight(q);
    forall m ensures m in p.session.degraded <==> InTrouble(p, m) {
      if d :| d in q.fate && d.modality == m && (q.fate[d] == Announcing || q.fate[d] == Failed) {
        assert d in p.fate && (p.fate[d] == Announcing || p.fate[d] == Failed);
      }
      if d :| d in p.fate && d.modality == m && (p.fate[d] == Announcing || p.fate[d] == Failed) {
        assert d in q.fate && (q.fate[d] == Announcing || q.fate[d] == Failed);
      }
    }
  }

  lemma DegradeNotices(s: Snapshot, m: L.Modality)
    requires forall k :: Notices(s.sent, k) == if k in s.degraded then 1 else 0
    ensures var t := Degrade(s, m);
            && t.degraded == s.degraded + {m}
            && (forall k :: Notices(t.sent, k) == if k in t.degraded then 1 else 0)
            && t == s.(degraded := t.degraded, sent := t.sent)
  {
    var notice := Degraded(m, Transcript.Frontier(s.transcript));
    NoticesAppend(s.sent, notice);
    hide Notices;
  }

  lemma FailAccounted(q: System, cfg: Config, c: Call)
    requires Accounted(q, cfg) && Enabled(q, Fail(c))
    ensures Accounted(Perform(q, cfg, Fail(c)), cfg)
  {
    hide Notices, Degrade;
    DegradeNotices(q.session, c.modality);
    var p := Perform(q, cfg, Fail(c));
    assert InFlight(p) == InFlight(q);
    forall m ensures m in p.session.degraded <==> InTrouble(p, m) {
      if d :| d in q.fate && d.modality == m && (q.fate[d] == Announcing || q.fate[d] == Failed) {
        assert d in p.fate && p.fate[d] == q.fate[d];
      }
      if m == c.modality { assert p.fate[c] == Announcing; }
      if d :| d in p.fate && d.modality == m && (p.fate[d] == Announcing || p.fate[d] == Failed) {
        if d != c { assert d in q.fate && q.fate[d] == p.fate[d]; }
      }
    }
  }

  // In every interleaving: what is in flight is exactly the calls that have not
  // come back, never more than the limit; every chunk that was not a redelivery
  // has exactly one fate; offers are chunks plus redeliveries; and a modality is
  // announced as degraded once, on its first failure.
  lemma {:induction false} QueueIsAccounted(cfg: Config, actions: seq<Action>)
    ensures Accounted(Execute(cfg, actions), cfg)
  {
    hide Perform, Enabled, Accounted;
    if actions == [] {
      StartIsAccounted(cfg);
    } else {
      var q, a := Execute(cfg, actions[..|actions| - 1]), actions[|actions| - 1];
      QueueIsAccounted(cfg, actions[..|actions| - 1]);
      if Enabled(q, a) { StepIsAccounted(q, cfg, a); }
    }
  }

  lemma StartIsAccounted(cfg: Config)
    ensures Accounted(Start, cfg)
  {
    assert InFlight(Start) == {};
  }

  lemma StepIsAccounted(q: System, cfg: Config, a: Action)
    requires Accounted(q, cfg) && Enabled(q, a)
    ensures Accounted(Perform(q, cfg, a), cfg)
  {
    hide Notices, Begin, Degrade;
    match a
    case Arrive(c) => ArriveAccounted(q, cfg, c);
    case Return(c) => LeaveAccounted(q, cfg, c, CameBack);
    case Fail(c) => FailAccounted(q, cfg, c);
    case Settle(c) => LeaveAccounted(q, cfg, c, Failed);
    case Evolve(session) => assert InFlight(Perform(q, cfg, a)) == InFlight(q);
  }

  // A fate, once reached, is never taken back: a refused chunk stays refused
  // however often it is sent again.
  lemma {:induction false} FatesAreFinal(cfg: Config, actions: seq<Action>, n: nat, c: Call)
    requires n <= |actions|
    requires c in Execute(cfg, actions[..n]).fate
    requires Execute(cfg, actions[..n]).fate[c] in {CameBack, Failed, TurnedAway}
    ensures c in Execute(cfg, actions).fate && Execute(cfg, actions).fate[c] == Execute(cfg, actions[..n]).fate[c]
    decreases |actions|
  {
    hide Begin, Notices, SameQueue, Degrade;
    if n == |actions| {
      assert actions[..n] == actions;
    } else {
      var before := actions[..|actions| - 1];
      assert before[..n] == actions[..n];
      FatesAreFinal(cfg, before, n, c);
      QueueIsAccounted(cfg, before);
      var q, a := Execute(cfg, before), actions[|actions| - 1];
      if a.Arrive? { ArriveShape(q, cfg, a.call); }
    }
  }
}
