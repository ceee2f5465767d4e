// The ledger over whole sessions, and when it agrees with the events held.
module LedgerRuns {
  import opened Taxonomy
  import opened Timeline
  import opened EventIdentity
  import opened Transcript
  import opened SpeechAssembly
  import opened Streaming
  import opened TranscriptRuns
  import Calibration
  import L = EvidenceLedger

  // ----- one final version of everything -----

  ghost predicate OneFinalVersion(h: L.History) {
    forall id :: id in h ==> |h[id]| == 1 && h[id][0].isFinal && h[id][0].id == id && h[id][0].revision == 0
  }

  lemma RecordKeeps(h: L.History, e: SpeechEvent)
    requires OneFinalVersion(h) && L.NonEmpty(h)
    ensures OneFinalVersion(Record(h, e))
    ensures Record(h, e).Keys == h.Keys + {e.id}
    ensures forall id :: id in h ==> Record(h, e)[id] == h[id]
    ensures e.id !in h ==> Record(h, e)[e.id] == [L.Entry(e.id, 0, e.interval, e.provenance, true, L.Payload(e.kind, e.rawText))]
  {
  }

  lemma {:induction false} RecordAllKeeps(h: L.History, events: seq<SpeechEvent>)
    requires OneFinalVersion(h) && L.NonEmpty(h)
    ensures OneFinalVersion(RecordAll(h, events))
    ensures forall id :: id in h ==> id in RecordAll(h, events) && RecordAll(h, events)[id] == h[id]
  {
    if events != [] {
      RecordAllKeeps(h, events[..|events| - 1]);
      RecordKeeps(RecordAll(h, events[..|events| - 1]), events[|events| - 1]);
    }
  }

  lemma {:induction false} AddPausesKeeps(events: seq<SpeechEvent>, h: L.History, pauses: seq<SpeechEvent>)
    requires OneFinalVersion(h) && L.NonEmpty(h)
    ensures OneFinalVersion(AddPauses(events, h, pauses).ledger)
    ensures forall id :: id in h ==> id in AddPauses(events, h, pauses).ledger && AddPauses(events, h, pauses).ledger[id] == h[id]
  {
    hide Record, Put, Has;
    if pauses != [] {
      var d, p := AddPauses(events, h, pauses[..|pauses| - 1]), pauses[|pauses| - 1].Finalize();
      AddPausesKeeps(events, h, pauses[..|pauses| - 1]);
      RecordKeeps(d.ledger, p);
    }
  }

  lemma FinalizeStepLedger(s: Snapshot, cfg: Config, stable: int)
    requires OneFinalVersion(s.ledger) && L.NonEmpty(s.ledger)
    ensures OneFinalVersion(FinalizeStep(s, cfg, stable).ledger)
    ensures forall id :: id in s.ledger ==>
              id in FinalizeStep(s, cfg, stable).ledger && FinalizeStep(s, cfg, stable).ledger[id] == s.ledger[id]
  {
    hide RecordAll, AddPauses, NewlyFinal, SilentPauses, OneFinalVersion, Frontier, FinalTokens;
    if stable <= Frontier(s.transcript) { return; }
    var newlyFinal := NewlyFinal(s.speechEvents, stable);
    RecordAllKeeps(s.ledger, newlyFinal);
    var finals := FinalTokens(PromoteAll(s.transcript, stable));
    var provenance := BorrowedProvenance(newlyFinal, FinalizeEvents(s.speechEvents, stable));
    if provenance.Some? {
      AddPausesKeeps(FinalizeEvents(s.speechEvents, stable), RecordAll(s.ledger, newlyFinal),
                     SilentPauses(finals, cfg.silenceThreshold, provenance.value, cfg.assembler.run));
    }
  }

  lemma StepLedger(s: Snapshot, cfg: Config, m: Message)
    requires OneFinalVersion(s.ledger) && L.NonEmpty(s.ledger)
    ensures OneFinalVersion(Step(s, cfg, m).ledger)
    ensures forall id :: id in s.ledger ==> id in Step(s, cfg, m).ledger && Step(s, cfg, m).ledger[id] == s.ledger[id]
  {
    hide Step, FinalizeStep, WithProvisional, PutAll, Begin, Absorbed, OneFinalVersion;
    StepShape(s, cfg, m);
    if Absorbed(s, cfg, m).Some? {
      AbsorbedFits(s, cfg, m);
      var a := Absorbed(s, cfg, m).value;
      FinalizeStepLedger(Heard(s, a), cfg, a.stableThrough);
    }
  }

  // In every session, with any runtime: each entry is one final version, and
  // whatever the ledger held at any point it holds unchanged at every later one.
  lemma {:induction false} SessionLedgerIsImmutable(cfg: Config, messages: seq<Message>, n: nat)
    requires n <= |messages|
    ensures OneFinalVersion(Run(cfg, messages).ledger)
    ensures forall id :: id in Run(cfg, messages[..n]).ledger ==>
              id in Run(cfg, messages).ledger && Run(cfg, messages).ledger[id] == Run(cfg, messages[..n]).ledger[id]
    decreases |messages|
  {
    hide Step, OneFinalVersion;
    if messages == [] {
      EmptyLedger();
      assert messages[..n] == messages;
    } else {
      var before := messages[..|messages| - 1];
      SessionLedgerIsImmutable(cfg, before, if n == |messages| then 0 else n);
      StepLedger(Run(cfg, before), cfg, messages[|messages| - 1]);
      if n == |messages| { assert messages[..n] == messages; } else { assert before[..n] == messages[..n]; }
    }
  }

  lemma EmptyLedger()
    ensures OneFinalVersion(NewSession.ledger)
  {
  }

  // ----- agreement between the events held and the ledger -----

  ghost predicate UniqueIds(events: seq<SpeechEvent>) {
    forall k, l :: 0 <= k < l < |events| ==> events[k].id != events[l].id
  }

  // Every recorded id is held, under one event, and everything final is recorded.
  ghost predicate Covered(events: seq<SpeechEvent>, h: L.History) {
    && L.NonEmpty(h) && OneFinalVersion(h) && UniqueIds(events)
    && (forall id :: id in h ==> Has(events, id))
    && (forall x :: x in events && x.isFinal ==> x.id in h)
  }

  // The event says what the entry under its id says.
  ghost predicate Matches(x: SpeechEvent, h: L.History) {
    x.id in h && h[x.id] != [] && h[x.id][0].interval == x.interval && h[x.id][0].payload == L.Payload(x.kind, x.rawText)
  }

  ghost predicate ContentAgrees(events: seq<SpeechEvent>, h: L.History) {
    forall x :: x in events && x.id in h ==> Matches(x, h)
  }

  // ----- storing a hypothesis -----

  lemma {:induction false} PutShape(events: seq<SpeechEvent>, e: SpeechEvent)
    requires UniqueIds(events)
    ensures UniqueIds(Put(events, e))
    ensures forall x :: x in Put(events, e) <==> x == e || (x in events && x.id != e.id)
  {
    if events != [] {
      var rest := events[1..];
      assert forall i :: 0 <= i < |rest| ==> rest[i] == events[i + 1];
      assert forall x :: x in events <==> x == events[0] || x in rest;
      assert forall x :: x in rest ==> x.id != events[0].id;
      if events[0].id == e.id {
        assert forall i :: 1 <= i < |events| ==> Put(events, e)[i] == rest[i - 1];
        assert forall x :: x in [e] + rest <==> x == e || x in rest;
      } else {
        PutShape(rest, e);
        var tail := Put(rest, e);
        assert forall x :: x in [events[0]] + tail <==> x == events[0] || x in tail;
        assert forall i :: 0 <= i < |tail| ==> tail[i] in tail;
      }
    }
  }

  // x is the last of the incoming events under its id.
  ghost predicate IsLast(incoming: seq<SpeechEvent>, x: SpeechEvent) {
    if incoming == [] then false
    else
      var e := incoming[|incoming| - 1];
      x == e || (x.id != e.id && IsLast(incoming[..|incoming| - 1], x))
  }

  lemma {:induction false} LastIsIncoming(incoming: seq<SpeechEvent>, x: SpeechEvent)
    requires IsLast(incoming, x)
    ensures x in incoming
  {
    if x != incoming[|incoming| - 1] {
      LastIsIncoming(incoming[..|incoming| - 1], x);
    }
  }

  // For each id the last incoming event is held, and the old one where there is none.
  lemma {:induction false} PutAllShape(events: seq<SpeechEvent>, incoming: seq<SpeechEvent>)
    requires UniqueIds(events)
    ensures UniqueIds(PutAll(events, incoming))
    ensures forall x :: IsLast(incoming, x) ==> x in PutAll(events, incoming)
    ensures forall x :: x in PutAll(events, incoming) ==> IsLast(incoming, x) || x in events
    ensures forall id :: Has(events, id) ==> Has(PutAll(events, incoming), id)
    ensures forall x :: x in events && !Has(incoming, x.id) ==> x in PutAll(events, incoming)
  {
    hide Put;
    if incoming != [] {
      var n := |incoming| - 1;
      var before, e := incoming[..n], incoming[n];
      PutAllShape(events, before);
      PutShape(PutAll(events, before), e);
      PutKeepsIds(PutAll(events, before), e);
      forall x | x in events && !Has(incoming, x.id) ensures x in PutAll(events, incoming) {
        assert incoming[n].id == e.id;
        assert forall k :: 0 <= k < n ==> before[k] == incoming[k];
      }
    }
  }

  lemma PutKeepsIds(events: seq<SpeechEvent>, e: SpeechEvent)
    requires UniqueIds(events)
    ensures forall id :: Has(events, id) ==> Has(Put(events, e), id)
  {
    PutShape(events, e);
    forall id | Has(events, id) ensures Has(Put(events, e), id) {
      var k :| 0 <= k < |events| && events[k].id == id;
      if id == e.id { HasMember(Put(events, e), e); } else { HasMember(Put(events, e), events[k]); }
    }
  }

  lemma HasMember(events: seq<SpeechEvent>, x: SpeechEvent)
    requires x in events
    ensures Has(events, x.id)
  {
  }

  // The incoming events say again what is already recorded under their ids.
  ghost predicate RepeatsRecorded(incoming: seq<SpeechEvent>, h: L.History) {
    forall x :: IsLast(incoming, x) && x.id in h ==> Matches(x, h)
  }

  lemma StoringKeepsCovered(events: seq<SpeechEvent>, incoming: seq<SpeechEvent>, h: L.History)
    requires Covered(events, h) && forall e :: e in incoming ==> !e.isFinal
    ensures Covered(PutAll(events, incoming), h)
  {
    hide PutAll, Has, IsLast, OneFinalVersion;
    PutAllShape(events, incoming);
    forall x | IsLast(incoming, x) ensures !x.isFinal { LastIsIncoming(incoming, x); }
  }

  // Storing provisional events keeps content agreement exactly when, for every
  // recorded id among them, the last one repeats the record.
  lemma StoringAgreesExactly(events: seq<SpeechEvent>, incoming: seq<SpeechEvent>, h: L.History)
    requires Covered(events, h) && ContentAgrees(events, h) && forall e :: e in incoming ==> !e.isFinal
    ensures Covered(PutAll(events, incoming), h)
    ensures ContentAgrees(PutAll(events, incoming), h) <==> RepeatsRecorded(incoming, h)
  {
    hide PutAll, Has, IsLast, Matches, OneFinalVersion;
    StoringKeepsCovered(events, incoming, h);
    PutAllShape(events, incoming);
  }

  // ----- finalizing -----

  lemma {:induction false} NewlyFinalShape(events: seq<SpeechEvent>, stable: int)
    requires UniqueIds(events)
    ensures UniqueIds(NewlyFinal(events, stable))
    ensures forall x :: x in NewlyFinal(events, stable) ==> exists e :: e in events && Settles(e, stable) && x == e.Finalize()
    ensures forall e :: e in events && Settles(e, stable) ==> e.Finalize() in NewlyFinal(events, stable)
  {
    if events != [] {
      var n := |events| - 1;
      var before, last := events[..n], events[n];
      NewlyFinalShape(before, stable);
      assert events == before + [last];
      forall x | x in NewlyFinal(before, stable) ensures x.id != last.id {
        var e :| e in before && Settles(e, stable) && x == e.Finalize();
      }
    }
  }

  lemma {:induction false} RecordAllIds(h: L.History, events: seq<SpeechEvent>)
    requires OneFinalVersion(h) && L.NonEmpty(h)
    ensures forall id :: id in RecordAll(h, events) <==> id in h || Has(events, id)
  {
    hide Record, Has, OneFinalVersion;
    if events != [] {
      var before, e := events[..|events| - 1], events[|events| - 1];
      RecordAllIds(h, before);
      RecordAllKeeps(h, before);
      RecordKeeps(RecordAll(h, before), e);
      HasAppend(before, e);
      assert events == before + [e];
    } else {
      assert forall id :: !Has(events, id) by { NothingHeld(events); }
    }
  }

  lemma NothingHeld(events: seq<SpeechEvent>)
    requires events == []
    ensures forall id :: !Has(events, id)
  {
  }

  // What is recorded afresh says what its event says.
  lemma {:induction false} RecordAllMatches(h: L.History, events: seq<SpeechEvent>, x: SpeechEvent)
    requires OneFinalVersion(h) && L.NonEmpty(h) && UniqueIds(events) && x in events && x.id !in h
    ensures Matches(x, RecordAll(h, events))
  {
    hide Record, OneFinalVersion;
    var n := |events| - 1;
    var before, e := events[..n], events[n];
    RecordAllKeeps(h, before);
    var was := RecordAll(h, before);
    RecordKeeps(was, e);
    assert events == before + [e];
    if x == e {
      RecordAllIds(h, before);
      assert !Has(before, e.id);
    } else {
      RecordAllMatches(h, before, x);
    }
  }

  lemma HasAppend(events: seq<SpeechEvent>, e: SpeechEvent)
    ensures forall id :: Has(events + [e], id) <==> Has(events, id) || e.id == id
  {
    forall id ensures Has(events + [e], id) <==> Has(events, id) || e.id == id {
      if Has(events, id) {
        var k :| 0 <= k < |events| && events[k].id == id;
        assert (events + [e])[k].id == id;
      }
      if e.id == id { assert (events + [e])[|events|].id == id; }
    }
  }

  lemma FinalizeEventsShape(events: seq<SpeechEvent>, stable: int)
    requires UniqueIds(events)
    ensures UniqueIds(FinalizeEvents(events, stable))
    ensures forall id :: Has(FinalizeEvents(events, stable), id) <==> Has(events, id)
    ensures forall x :: x in FinalizeEvents(events, stable) <==>
              exists e :: e in events && x == if Settles(e, stable) then e.Finalize() else e
  {
    var r := FinalizeEvents(events, stable);
    assert forall k :: 0 <= k < |events| ==> r[k].id == events[k].id;
    forall x ensures x in r <==> exists e :: e in events && x == if Settles(e, stable) then e.Finalize() else e {
      if x in r {
        var k :| 0 <= k < |r| && r[k] == x;
        assert events[k] in events;
      }
      if e :| e in events && x == if Settles(e, stable) then e.Finalize() else e {
        var k :| 0 <= k < |events| && events[k] == e;
        assert r[k] == x;
      }
    }
    forall id ensures Has(r, id) <==> Has(events, id) {
      if Has(events, id) {
        var k :| 0 <= k < |events| && events[k].id == id;
        assert r[k].id == id;
      }
    }
  }

  // Freezing settled events and recording them neither makes nor breaks agreement.
  lemma FinalizingKeepsAgreement(events: seq<SpeechEvent>, h: L.History, stable: int)
    requires Covered(events, h)
    ensures Covered(FinalizeEvents(events, stable), RecordAll(h, NewlyFinal(events, stable)))
    ensures ContentAgrees(FinalizeEvents(events, stable), RecordAll(h, NewlyFinal(events, stable))) <==> ContentAgrees(events, h)
  {
    hide FinalizeEvents, RecordAll, NewlyFinal, Has, UniqueIds, OneFinalVersion;
    var newly := NewlyFinal(events, stable);
    var h', events' := RecordAll(h, newly), FinalizeEvents(events, stable);
    NewlyFinalShape(events, stable);
    RecordAllIds(h, newly);
    RecordAllKeeps(h, newly);
    forall x | x in newly && x.id !in h ensures Matches(x, h') { RecordAllMatches(h, newly, x); }
    FinalizeEventsShape(events, stable);
    forall x | x in newly ensures Has(newly, x.id) && Has(events, x.id) {
      HasMember(newly, x);
      var e :| e in events && Settles(e, stable) && x == e.Finalize();
      HasMember(events, e);
    }
    forall id | Has(newly, id) ensures Has(events, id) { var x := MemberOf(newly, id); }
    forall x | x in events' && x.isFinal ensures x.id in h' {
      var e :| e in events && x == if Settles(e, stable) then e.Finalize() else e;
      if Settles(e, stable) { assert x in newly; }
    }
    FinalizingContent(events, events', h, h', newly, stable);
  }

  lemma MemberOf(events: seq<SpeechEvent>, id: EventId) returns (x: SpeechEvent)
    requires Has(events, id)
    ensures x in events && x.id == id
  {
    var k :| 0 <= k < |events| && events[k].id == id;
    x := events[k];
  }

  lemma FinalizingContent(
    events: seq<SpeechEvent>, events': seq<SpeechEvent>, h: L.History, h': L.History, newly: seq<SpeechEvent>, stable: int)
    requires UniqueIds(events)
    requires forall x :: x in events' <==> exists e :: e in events && x == if Settles(e, stable) then e.Finalize() else e
    requires forall x :: x in newly ==> exists e :: e in events && Settles(e, stable) && x == e.Finalize()
    requires forall e :: e in events && Settles(e, stable) ==> e.Finalize() in newly
    requires forall id :: id in h' <==> id in h || Has(newly, id)
    requires forall id :: id in h ==> h'[id] == h[id]
    requires forall x :: x in newly && x.id !in h ==> Matches(x, h')
    ensures ContentAgrees(events', h') <==> ContentAgrees(events, h)
  {
    if ContentAgrees(events, h) {
      forall x | x in events' && x.id in h' ensures Matches(x, h') {
        var e :| e in events && x == if Settles(e, stable) then e.Finalize() else e;
        if x.id in h {
          assert Matches(e, h);
        } else {
          var y := MemberOf(newly, x.id);
          var d :| d in events && Settles(d, stable) && y == d.Finalize();
          SameIdSameEvent(events, d, e);
        }
      }
    }
    if ContentAgrees(events', h') {
      forall e | e in events && e.id in h ensures Matches(e, h) {
        var x := if Settles(e, stable) then e.Finalize() else e;
        assert x in events' && Matches(x, h');
      }
    }
  }

  lemma SameIdSameEvent(events: seq<SpeechEvent>, x: SpeechEvent, y: SpeechEvent)
    requires UniqueIds(events) && x in events && y in events && x.id == y.id
    ensures x == y
  {
  }

  // ----- derived pauses -----

  lemma AddingOneKeepsAgreement(events: seq<SpeechEvent>, h: L.History, p: SpeechEvent)
    requires Covered(events, h) && !Has(events, p.id) && p.isFinal
    ensures Covered(Put(events, p), Record(h, p))
    ensures ContentAgrees(Put(events, p), Record(h, p)) <==> ContentAgrees(events, h)
  {
    hide Put, Record, OneFinalVersion;
    PutShape(events, p);
    PutKeepsIds(events, p);
    RecordKeeps(h, p);
    HasMember(Put(events, p), p);
    forall x | x in events ensures x.id != p.id && x in Put(events, p) { HasMember(events, x); }
    assert Matches(p, Record(h, p));
    assert forall x :: x in events && x.id in h ==> (Matches(x, Record(h, p)) <==> Matches(x, h));
  }

  lemma {:induction false} AddingKeepsAgreement(events: seq<SpeechEvent>, h: L.History, pauses: seq<SpeechEvent>)
    requires Covered(events, h)
    ensures var d := AddPauses(events, h, pauses);
            Covered(d.events, d.ledger) && (ContentAgrees(d.events, d.ledger) <==> ContentAgrees(events, h))
  {
    hide Has, Put, Record, Covered, ContentAgrees;
    if pauses != [] {
      var before, p := pauses[..|pauses| - 1], pauses[|pauses| - 1].Finalize();
      assert L.NonEmpty(h) by { CoveredNonEmpty(events, h); }
      AddingKeepsAgreement(events, h, before);
      var d := AddPauses(events, h, before);
      if !Has(d.events, p.id) { AddingOneKeepsAgreement(d.events, d.ledger, p); }
    }
  }

  lemma CoveredNonEmpty(events: seq<SpeechEvent>, h: L.History)
    requires Covered(events, h)
    ensures L.NonEmpty(h)
  {
  }

  // ----- one message, and whole sessions -----

  lemma FinalizeStepAgreement(s: Snapshot, cfg: Config, stable: int)
    requires Covered(s.speechEvents, s.ledger) && L.NonEmpty(s.ledger)
    ensures var t := FinalizeStep(s, cfg, stable);
            Covered(t.speechEvents, t.ledger) && (ContentAgrees(t.speechEvents, t.ledger) <==> ContentAgrees(s.speechEvents, s.ledger))
  {
    hide AddPauses, SilentPauses, Covered, ContentAgrees, RecordAll, NewlyFinal, FinalizeEvents, Frontier, FinalTokens, PromoteAll;
    if stable <= Frontier(s.transcript) { return; }
    FinalizingKeepsAgreement(s.speechEvents, s.ledger, stable);
    var newly := NewlyFinal(s.speechEvents, stable);
    var events, h := FinalizeEvents(s.speechEvents, stable), RecordAll(s.ledger, newly);
    var finals := FinalTokens(PromoteAll(s.transcript, stable));
    var provenance := BorrowedProvenance(newly, events);
    if provenance.Some? {
      AddingKeepsAgreement(events, h, SilentPauses(finals, cfg.silenceThreshold, provenance.value, cfg.assembler.run));
    }
  }

  // The message's result, if it has one, repeats what is recorded.
  ghost predicate StepRepeats(s: Snapshot, cfg: Config, m: Message) {
    Absorbed(s, cfg, m).Some? ==> RepeatsRecorded(Absorbed(s, cfg, m).value.events, s.ledger)
  }

  // From agreement, one message keeps it exactly when it repeats what is
  // recorded, whatever it finalizes and derives.
  lemma StepAgreesExactly(s: Snapshot, cfg: Config, m: Message)
    requires L.NonEmpty(s.ledger) && Covered(s.speechEvents, s.ledger) && ContentAgrees(s.speechEvents, s.ledger)
    ensures var t := Step(s, cfg, m);
            Covered(t.speechEvents, t.ledger) && (ContentAgrees(t.speechEvents, t.ledger) <==> StepRepeats(s, cfg, m))
  {
    hide Step, FinalizeStep, WithProvisional, PutAll, Begin, Absorbed, Covered, ContentAgrees, RepeatsRecorded;
    StepShape(s, cfg, m);
    if Absorbed(s, cfg, m).Some? {
      AbsorbedFits(s, cfg, m);
      var a := Absorbed(s, cfg, m).value;
      AbsorbedEventsProvisional(s, cfg, m);
      StoringAgreesExactly(s.speechEvents, a.events, s.ledger);
      FinalizeStepAgreement(Heard(s, a), cfg, a.stableThrough);
    }
  }

  // In every session, whatever is reported.
  lemma {:induction false} SessionIsCovered(cfg: Config, messages: seq<Message>)
    ensures Covered(Run(cfg, messages).speechEvents, Run(cfg, messages).ledger)
  {
    hide Step, Covered;
    if messages == [] {
      NewSessionAgrees();
    } else {
      SessionIsCovered(cfg, messages[..|messages| - 1]);
      StepIsCovered(Run(cfg, messages[..|messages| - 1]), cfg, messages[|messages| - 1]);
    }
  }

  lemma StepIsCovered(s: Snapshot, cfg: Config, m: Message)
    requires L.NonEmpty(s.ledger) && Covered(s.speechEvents, s.ledger)
    ensures Covered(Step(s, cfg, m).speechEvents, Step(s, cfg, m).ledger)
  {
    hide Step, FinalizeStep, WithProvisional, PutAll, Begin, Absorbed, Covered;
    StepShape(s, cfg, m);
    if Absorbed(s, cfg, m).Some? {
      AbsorbedFits(s, cfg, m);
      var a := Absorbed(s, cfg, m).value;
      AbsorbedEventsProvisional(s, cfg, m);
      StoringKeepsCovered(s.speechEvents, a.events, s.ledger);
      FinalizeStepAgreement(Heard(s, a), cfg, a.stableThrough);
    }
  }

  lemma AbsorbedEventsProvisional(s: Snapshot, cfg: Config, m: Message)
    requires Absorbed(s, cfg, m).Some?
    ensures forall e :: e in Absorbed(s, cfg, m).value.events ==> !e.isFinal
  {
    hide Begin, WithProvisional, Assemble;
    AbsorbedFits(s, cfg, m);
    AssembledIsProvisional(cfg.assembler, m.speech.result);
  }

  // If no message ever says something new under a recorded id, the events held
  // and the ledger agree on interval, class and text in every session.
  lemma {:induction false} SessionAgrees(cfg: Config, messages: seq<Message>)
    requires forall n :: 0 <= n < |messages| ==> StepRepeats(Run(cfg, messages[..n]), cfg, messages[n])
    ensures var s := Run(cfg, messages); Covered(s.speechEvents, s.ledger) && ContentAgrees(s.speechEvents, s.ledger)
  {
    hide Step, StepRepeats, Covered, ContentAgrees;
    if messages == [] {
      NewSessionAgrees();
    } else {
      var k := |messages| - 1;
      forall n | 0 <= n < k ensures StepRepeats(Run(cfg, messages[..k][..n]), cfg, messages[..k][n]) {
        assert messages[..k][..n] == messages[..n];
      }
      SessionAgrees(cfg, messages[..k]);
      StepAgreesExactly(Run(cfg, messages[..k]), cfg, messages[k]);
    }
  }

  lemma NewSessionAgrees()
    ensures Covered(NewSession.speechEvents, NewSession.ledger) && ContentAgrees(NewSession.speechEvents, NewSession.ledger)
  {
  }

  function Example(end: nat, isFinal: bool): SpeechEvent {
    SpeechEvent(DeriveEventId("run", FilledPause, 0, ""), FilledPause, IntervalOf(0, end),
                Calibration.Confidence(1.0, true), L.Provenance(L.Audio, "v1"), "", None, isFinal)
  }

  // A runtime that reports a recorded event again, with another end, makes the
  // events held and the ledger disagree.
  lemma RepeatedIdCanDisagree()
    ensures var events := [Example(100, true)];
            var h := Record(map[], events[0]);
            && Covered(events, h) && ContentAgrees(events, h)
            && !ContentAgrees(PutAll(events, [Example(120, false)]), h)
  {
    var events, incoming := [Example(100, true)], [Example(120, false)];
    var h := Record(map[], events[0]);
    RecordKeeps(map[], events[0]);
    HasMember(events, events[0]);
    StoringAgreesExactly(events, incoming, h);
    assert IsLast(incoming, incoming[0]) && !Matches(incoming[0], h);
  }
}
