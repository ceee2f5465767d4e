// The scripted events through a whole session: none is lost, none is invented,
// and each becomes final exactly when the runtime has declared its end stable.
module ScriptedEvents {
  import opened Taxonomy
  import opened Arithmetic
  import opened Ordering
  import opened Timeline
  import opened EventIdentity
  import opened Transcript
  import opened SpeechAssembly
  import opened Streaming
  import opened TranscriptRuns
  import opened LedgerRuns
  import opened Finalizing
  import opened EventRuns
  import opened ScriptedRuntime
  import opened ScriptedRuns
  import I = Independence
  import L = EvidenceLedger

  // The script's event as the assembler tells it.
  function Told(a: Assembler, script: Script, e: EventHypothesis): SpeechEvent
    requires AcceptsEvent(e)
  {
    EventOf(a, e, L.Provenance(L.Audio, script.modelVersion))
  }

  predicate Alike(e: EventHypothesis, f: EventHypothesis) {
    e.kind == f.kind && e.start / 100 == f.start / 100 && e.rawText == f.rawText
  }

  // Events that take time, are no pauses, and differ in class, tenth of a second
  // or text.
  ghost predicate EventsTellable(script: Script) {
    && (forall e :: e in script.events ==> AcceptsEvent(e) && e.start < e.end && e.kind != SilentPause)
    && (forall e, f :: e in script.events && f in script.events && Alike(e, f) ==> e == f)
  }

  // The events held are the pauses and script events; a script event is held,
  // final and recorded when it ended by the mark, and only then.
  ghost predicate EventsMirror(events: seq<SpeechEvent>, h: L.History, a: Assembler, script: Script, mark: int)
    requires EventsTellable(script)
  {
    && Covered(events, h)
    && (forall x :: x in events ==> x.id.kind == x.kind && (x.isFinal <==> x.id in h) && (x.kind == SilentPause ==> x.isFinal))
    && (forall x :: x in events && x.kind != SilentPause ==>
          exists e :: e in script.events && x == Told(a, script, e).(isFinal := e.end <= mark))
    && (forall e :: e in script.events && e.end <= mark ==>
          Told(a, script, e).Finalize() in events && IsFresh(h, Told(a, script, e)))
  }

  lemma SameTold(a: Assembler, script: Script, e: EventHypothesis, f: EventHypothesis)
    requires EventsTellable(script) && e in script.events && f in script.events
    requires Told(a, script, e).id == Told(a, script, f).id
    ensures e == f
  {
    assert Alike(e, f);
  }

  // What a window reports of the events.
  ghost predicate IsActive(e: EventHypothesis, script: Script, mark: int, until: int) {
    e in script.events && e.end > mark && e.start < until
  }

  ghost predicate ReportsActive(incoming: seq<SpeechEvent>, a: Assembler, script: Script, mark: int, until: int)
    requires EventsTellable(script)
  {
    && (forall x :: x in incoming ==> exists e :: IsActive(e, script, mark, until) && x == Told(a, script, e))
    && (forall e :: IsActive(e, script, mark, until) ==> Told(a, script, e) in incoming)
  }

  lemma AssembledAreTold(a: Assembler, script: Script, mark: int, w: AudioWindow)
    requires EventsTellable(script) && Assemble(a, ResultFor(script, mark, w)).Some?
    ensures var r := ResultFor(script, mark, w);
            var incoming := Assemble(a, r).value.events;
            && |incoming| == |r.events|
            && forall k :: 0 <= k < |r.events| ==> AcceptsEvent(r.events[k]) && incoming[k] == Told(a, script, r.events[k])
  {
    hide ProsodyOver, EventOf, TokenOf, ReadingOf, Filter, AcceptsEvent, AcceptsWord;
    var r := ResultFor(script, mark, w);
    assert forall k :: 0 <= k < |r.events| ==> r.events[k] in r.events;
  }

  lemma HeardAreActive(script: Script, mark: int, w: AudioWindow)
    ensures forall e :: e in ResultFor(script, mark, w).events <==> IsActive(e, script, mark, w.End())
  {
    hide ProsodyOver;
  }

  lemma AnswerReportsActive(a: Assembler, script: Script, mark: int, w: AudioWindow)
    requires EventsTellable(script) && Assemble(a, ResultFor(script, mark, w)).Some?
    ensures ReportsActive(Assemble(a, ResultFor(script, mark, w)).value.events, a, script, mark, w.End())
  {
    var r := ResultFor(script, mark, w);
    var incoming := Assemble(a, r).value.events;
    AssembledAreTold(a, script, mark, w);
    HeardAreActive(script, mark, w);
    hide ResultFor, Assemble, Told, IsActive;
    forall x | x in incoming ensures exists e :: IsActive(e, script, mark, w.End()) && x == Told(a, script, e) {
      var k :| 0 <= k < |incoming| && incoming[k] == x;
      assert r.events[k] in r.events;
    }
    forall e | IsActive(e, script, mark, w.End()) ensures Told(a, script, e) in incoming {
      var k :| 0 <= k < |r.events| && r.events[k] == e;
      assert incoming[k] == Told(a, script, e);
    }
  }

  lemma {:induction false} LastExists(incoming: seq<SpeechEvent>, id: EventId) returns (x: SpeechEvent)
    requires Has(incoming, id)
    ensures LedgerRuns.IsLast(incoming, x) && x.id == id
  {
    var n := |incoming| - 1;
    if incoming[n].id == id {
      x := incoming[n];
    } else {
      var k :| 0 <= k < |incoming| && incoming[k].id == id;
      assert incoming[..n][k].id == id;
      x := LastExists(incoming[..n], id);
    }
  }

  // No identifier the window reports has been recorded or is held as final.
  lemma ActiveIsUnrecorded(
    events: seq<SpeechEvent>, h: L.History, a: Assembler, script: Script, mark: int, until: int, e: EventHypothesis)
    requires EventsTellable(script) && EventsMirror(events, h, a, script, mark) && IsActive(e, script, mark, until)
    ensures Told(a, script, e).id !in h
  {
    hide EventOf, OneFinalVersion;
    var id := Told(a, script, e).id;
    ToldIs(a, script, e);
    if id in h {
      var y := MemberOf(events, id);
      assert y.kind != SilentPause;
      var f :| f in script.events && y == Told(a, script, f).(isFinal := f.end <= mark);
      SameTold(a, script, e, f);
      assert false;
    }
  }

  lemma ToldIs(a: Assembler, script: Script, e: EventHypothesis)
    requires EventsTellable(script) && e in script.events
    ensures var x := Told(a, script, e);
            x.kind == e.kind == x.id.kind && x.interval.start == e.start && x.interval.end == e.end && !x.isFinal
  {
  }

  lemma HearingMirrors(
    events: seq<SpeechEvent>, h: L.History, incoming: seq<SpeechEvent>, a: Assembler, script: Script, mark: int, until: int)
    requires EventsTellable(script) && EventsMirror(events, h, a, script, mark)
    requires ReportsActive(incoming, a, script, mark, until)
    ensures EventsMirror(PutAll(events, incoming), h, a, script, mark)
    ensures forall e :: IsActive(e, script, mark, until) ==> Told(a, script, e) in PutAll(events, incoming)
  {
    hide PutAll, Told, IsFresh, LedgerRuns.IsLast;
    var r := PutAll(events, incoming);
    forall x | x in incoming ensures !x.isFinal {
      var e :| IsActive(e, script, mark, until) && x == Told(a, script, e);
      ToldIs(a, script, e);
    }
    StoringKeepsCovered(events, incoming, h);
    assert UniqueIds(events) by { CoveredIsUnique(events, h); }
    PutAllShape(events, incoming);
    forall x | x in r && x !in events ensures exists e :: IsActive(e, script, mark, until) && x == Told(a, script, e) {
      LastIsIncoming(incoming, x);
    }
    forall x | x in r
      ensures x.id.kind == x.kind && (x.isFinal <==> x.id in h) && (x.kind == SilentPause ==> x.isFinal)
      ensures x.kind != SilentPause ==> exists e :: e in script.events && x == Told(a, script, e).(isFinal := e.end <= mark)
    {
      if x !in events {
        var e :| IsActive(e, script, mark, until) && x == Told(a, script, e);
        ToldIs(a, script, e);
        ActiveIsUnrecorded(events, h, a, script, mark, until, e);
        assert x == Told(a, script, e).(isFinal := e.end <= mark);
      }
    }
    forall e | e in script.events && e.end <= mark ensures Told(a, script, e).Finalize() in r {
      SettledIsUnreported(incoming, a, script, mark, until, e);
    }
    forall e | IsActive(e, script, mark, until) ensures Told(a, script, e) in r {
      var x := Told(a, script, e);
      HasMember(incoming, x);
      var y := LastExists(incoming, x.id);
      LastIsIncoming(incoming, y);
      var f :| IsActive(f, script, mark, until) && y == Told(a, script, f);
      SameTold(a, script, e, f);
    }
  }

  lemma SettledIsUnreported(
    incoming: seq<SpeechEvent>, a: Assembler, script: Script, mark: int, until: int, e: EventHypothesis)
    requires EventsTellable(script) && ReportsActive(incoming, a, script, mark, until) && e in script.events && e.end <= mark
    ensures !Has(incoming, Told(a, script, e).id)
  {
    hide Told;
    forall k | 0 <= k < |incoming| ensures incoming[k].id != Told(a, script, e).id {
      assert incoming[k] in incoming;
      var f :| IsActive(f, script, mark, until) && incoming[k] == Told(a, script, f);
      if incoming[k].id == Told(a, script, e).id { SameTold(a, script, e, f); }
    }
  }

  // ----- freezing -----

  lemma FrozenAt(s: Snapshot, t: Snapshot, boundary: int, a: Assembler, script: Script, mark: int, k: nat)
    requires EventsTellable(script) && EventsMirror(s.speechEvents, s.ledger, a, script, mark)
    requires FrozenThrough(s, t, boundary) && k < |t.speechEvents|
    ensures var x := t.speechEvents[k];
            && x.id.kind == x.kind && (x.kind == SilentPause ==> x.isFinal)
            && (x.kind != SilentPause ==>
                  exists e :: e in script.events && x == Told(a, script, e).(isFinal := e.end <= Max(mark, boundary)))
  {
    hide EventOf, Covered, IsFresh;
    var x := t.speechEvents[k];
    if k < |s.speechEvents| {
      var y := s.speechEvents[k];
      assert y in s.speechEvents && x == ThroughEvent(y, boundary);
      if y.kind != SilentPause {
        var e :| e in script.events && y == Told(a, script, e).(isFinal := e.end <= mark);
        ToldIs(a, script, e);
        assert x == Told(a, script, e).(isFinal := e.end <= Max(mark, boundary));
      }
    } else {
      assert IsDerived(x);
    }
  }

  // Recorded means final, and the other way round.
  lemma FrozenIffRecorded(s: Snapshot, t: Snapshot, boundary: int, k: nat)
    requires forall x :: x in s.speechEvents ==> (x.isFinal <==> x.id in s.ledger)
    requires FrozenThrough(s, t, boundary) && RecordedSince(s, t) && UniqueIds(t.speechEvents)
    requires k < |t.speechEvents|
    ensures t.speechEvents[k].isFinal <==> t.speechEvents[k].id in t.ledger
  {
    hide IsFresh;
    var x := t.speechEvents[k];
    if k < |s.speechEvents| {
      assert x == ThroughEvent(s.speechEvents[k], boundary) && s.speechEvents[k] in s.speechEvents;
      if x.id in t.ledger && x.id !in s.ledger {
        var j: nat :| BecameFinal(s, t)(j) && t.speechEvents[j].id == x.id;
        assert j == k;
      }
    } else {
      assert IsDerived(x);
    }
    if x.isFinal && x.id !in s.ledger { assert BecameFinal(s, t)(k); }
  }

  lemma MirrorIffRecorded(s: Snapshot, t: Snapshot, boundary: int, a: Assembler, script: Script, mark: int, k: nat)
    requires EventsTellable(script) && EventsMirror(s.speechEvents, s.ledger, a, script, mark)
    requires FrozenThrough(s, t, boundary) && RecordedSince(s, t) && Covered(t.speechEvents, t.ledger)
    requires k < |t.speechEvents|
    ensures t.speechEvents[k].isFinal <==> t.speechEvents[k].id in t.ledger
  {
    CoveredIsUnique(t.speechEvents, t.ledger);
    hide FrozenThrough, RecordedSince, Told, IsFresh, Covered, UniqueIds;
    FrozenIffRecorded(s, t, boundary, k);
  }

  lemma StaysHeld(s: Snapshot, t: Snapshot, boundary: int, x: SpeechEvent)
    requires FrozenThrough(s, t, boundary) && RecordedSince(s, t) && x in s.speechEvents
    ensures ThroughEvent(x, boundary) in t.speechEvents
    ensures !x.isFinal && x.interval.end <= boundary && x.id !in s.ledger ==> IsFresh(t.ledger, x.Finalize())
  {
    hide IsFresh;
    var k :| 0 <= k < |s.speechEvents| && s.speechEvents[k] == x;
    assert t.speechEvents[k] == ThroughEvent(x, boundary);
    if !x.isFinal && x.interval.end <= boundary && x.id !in s.ledger {
      assert BecameFinal(s, t)(k);
    }
  }

  lemma StaysFresh(s: Snapshot, t: Snapshot, x: SpeechEvent)
    requires RecordedSince(s, t) && IsFresh(s.ledger, x)
    ensures IsFresh(t.ledger, x)
  {
  }

  lemma FreshEither(h: L.History, x: SpeechEvent)
    ensures IsFresh(h, x.Finalize()) <==> IsFresh(h, x)
  {
  }

  lemma EndedIsHeldFinal(
    s: Snapshot, t: Snapshot, boundary: int, a: Assembler, script: Script, mark: int, until: int, e: EventHypothesis)
    requires EventsTellable(script) && EventsMirror(s.speechEvents, s.ledger, a, script, mark)
    requires forall f :: IsActive(f, script, mark, until) ==> Told(a, script, f) in s.speechEvents
    requires FrozenThrough(s, t, boundary) && RecordedSince(s, t) && boundary <= until
    requires e in script.events && e.end <= Max(mark, boundary)
    ensures Told(a, script, e).Finalize() in t.speechEvents && IsFresh(t.ledger, Told(a, script, e))
  {
    ToldIs(a, script, e);
    var told := Told(a, script, e);
    FreshEither(t.ledger, told);
    hide Covered, Told, FrozenThrough, RecordedSince, IsFresh;
    if e.end <= mark {
      StaysHeld(s, t, boundary, told.Finalize());
      StaysFresh(s, t, told);
    } else {
      assert IsActive(e, script, mark, until);
      StaysHeld(s, t, boundary, told);
    }
  }

  lemma AdvanceMirrors(s: Snapshot, t: Snapshot, boundary: int, a: Assembler, script: Script, mark: int, until: int)
    requires EventsTellable(script) && EventsMirror(s.speechEvents, s.ledger, a, script, mark)
    requires forall f :: IsActive(f, script, mark, until) ==> Told(a, script, f) in s.speechEvents
    requires FrozenThrough(s, t, boundary) && RecordedSince(s, t) && Covered(t.speechEvents, t.ledger) && boundary <= until
    ensures EventsMirror(t.speechEvents, t.ledger, a, script, Max(mark, boundary))
  {
    hide FrozenThrough, RecordedSince, Told, IsActive, IsFresh, Covered;
    var m := Max(mark, boundary);
    forall x | x in t.speechEvents
      ensures x.id.kind == x.kind && (x.isFinal <==> x.id in t.ledger) && (x.kind == SilentPause ==> x.isFinal)
      ensures x.kind != SilentPause ==> exists e :: e in script.events && x == Told(a, script, e).(isFinal := e.end <= m)
    {
      var k :| 0 <= k < |t.speechEvents| && t.speechEvents[k] == x;
      FrozenAt(s, t, boundary, a, script, mark, k);
      MirrorIffRecorded(s, t, boundary, a, script, mark, k);
    }
    forall e | e in script.events && e.end <= m
      ensures Told(a, script, e).Finalize() in t.speechEvents && IsFresh(t.ledger, Told(a, script, e))
    {
      EndedIsHeldFinal(s, t, boundary, a, script, mark, until, e);
    }
  }

  lemma FreezingMirrors(s: Snapshot, cfg: Config, boundary: int, a: Assembler, script: Script, mark: int, until: int)
    requires L.NonEmpty(s.ledger) && EventsTellable(script) && EventsMirror(s.speechEvents, s.ledger, a, script, mark)
    requires forall f :: IsActive(f, script, mark, until) ==> Told(a, script, f) in s.speechEvents
    requires boundary <= until && Frontier(s.transcript) <= mark
    ensures var t := FinalizeStep(s, cfg, boundary); EventsMirror(t.speechEvents, t.ledger, a, script, Max(mark, boundary))
  {
    hide FinalizeStep, Frontier, Advances, FrozenThrough, RecordedSince, Told, IsActive, EventsMirror;
    MirrorIsCovered(s.speechEvents, s.ledger, a, script, mark);
    FinalizeStepAgreement(s, cfg, boundary);
    FreezesExactly(s, cfg, boundary);
    AdvancesExactly(s.transcript, boundary);
    if Advances(s.transcript, boundary) {
      AdvanceMirrors(s, FinalizeStep(s, cfg, boundary), boundary, a, script, mark, until);
    } else {
      assert Max(mark, boundary) == mark;
    }
  }

  lemma MirrorIsCovered(events: seq<SpeechEvent>, h: L.History, a: Assembler, script: Script, mark: int)
    requires EventsTellable(script) && EventsMirror(events, h, a, script, mark)
    ensures Covered(events, h)
  {
  }

  // ----- one window, and whole sessions -----

  lemma AnsweredEvents(s: Snapshot, cfg: Config, script: Script, mark: nat, sequence: int, w: AudioWindow)
    requires L.NonEmpty(s.ledger) && Speakable(script) && EventsTellable(script) && IsWindow(w)
    requires Begin(s, cfg, L.Audio, sequence).1.Started?
    requires Mirrors(s.transcript, Spoken(cfg.assembler, script), mark)
    requires EventsMirror(s.speechEvents, s.ledger, cfg.assembler, script, mark)
    ensures var t := IngestAudio(s, cfg, sequence, Transcribed(ResultFor(script, mark, w))).0;
            EventsMirror(t.speechEvents, t.ledger, cfg.assembler, script, Max(mark, StableThrough(script, w)))
  {
    hide Mirrors, Begin, Assemble, FinalizeStep, ResultFor, Spoken, PutAll, Reconcile, WithProvisional, EventsMirror, IsActive, Told, ReportsActive, Frontier;
    var m := AudioChunk(sequence, Transcribed(ResultFor(script, mark, w)));
    var said := Spoken(cfg.assembler, script);
    AnswerAssembles(cfg.assembler, script, mark, w);
    ActiveAnswer(cfg.assembler, script, mark, w);
    var a := Assemble(cfg.assembler, m.speech.result).value;
    SpokenOneByOne(cfg.assembler, script);
    WindowMirrors(s.transcript, said, mark, w.End(), StableThrough(script, w), a.tokens);
    ReconcileNeverMovesBackwards(s.transcript, a.tokens, a.stableThrough);
    assert Absorbed(s, cfg, m) == Some(a);
    StepShape(s, cfg, m);
    AnswerReportsActive(cfg.assembler, script, mark, w);
    HearingMirrors(s.speechEvents, s.ledger, a.events, cfg.assembler, script, mark, w.End());
    HeardFrontier(s, a, said, mark);
    FreezingMirrors(Heard(s, a), cfg, a.stableThrough, cfg.assembler, script, mark, w.End());
  }

  lemma HeardFrontier(s: Snapshot, a: Assembled, said: Tokens, mark: nat)
    requires Mirrors(s.transcript, said, mark) && OneByOne(said) && AllProvisional(a.tokens)
    requires WithProvisional(s.transcript, a.tokens).Ok?
    ensures Frontier(Heard(s, a).transcript) <= mark
  {
    FrontierBehindMark(s.transcript, said, mark);
    ProvisionalKeepsFinals(s.transcript, a.tokens);
  }

  lemma SilentEvents(live: Live, cfg: Config, script: Script, input: Input)
    requires L.NonEmpty(live.session.ledger) && live.session.inFlight == 0 < cfg.maxQueueDepth
    requires Reaches(live, cfg, input) ==> FailsAt(script, live.runtime.windowsSeen + 1)
    ensures SameEvidence(Advance(live, cfg, script, input).session, live.session)
  {
    hide IngestVideo, Begin, Frontier, Absorb, Assemble, ResultFor;
    var m := MessageFor(live, script, input);
    if input.VideoIn? {
      I.VideoLeavesAudio(live.session, cfg, input.sequence, input.vision);
    } else {
      assert Absorbed(live.session, cfg, m).None?;
      StepShape(live.session, cfg, m);
    }
  }

  lemma {:induction false} ReplayMirrorsEvents(cfg: Config, script: Script, inputs: seq<Input>)
    requires cfg.maxQueueDepth >= 1 && Speakable(script) && EventsTellable(script) && AllWindows(FreshWindows(inputs))
    ensures var live := Replay(cfg, script, inputs);
            EventsMirror(live.session.speechEvents, live.session.ledger, cfg.assembler, script, live.runtime.stable)
  {
    hide Speakable, Mirrors, Spoken, Advance, EventsMirror;
    if inputs == [] {
      NothingTold(cfg.assembler, script);
    } else {
      var before, last := inputs[..|inputs| - 1], inputs[|inputs| - 1];
      var live := Replay(cfg, script, before);
      ReplayKeepsStep(cfg, script, before);
      InputKeepsQueue(live, cfg, script, last);
      ReplayMirrorsEvents(cfg, script, before);
      InputMirrorsEvents(live, cfg, script, before, last);
    }
  }

  lemma NothingTold(a: Assembler, script: Script)
    requires EventsTellable(script)
    ensures EventsMirror([], map[], a, script, 0)
  {
  }

  lemma InputMirrorsEvents(live: Live, cfg: Config, script: Script, before: seq<Input>, input: Input)
    requires L.NonEmpty(live.session.ledger) && cfg.maxQueueDepth >= 1 && Speakable(script) && EventsTellable(script)
    requires InStep(live, cfg, script, before)
    requires Reaches(live, cfg, input) ==> IsWindow(input.window)
    requires EventsMirror(live.session.speechEvents, live.session.ledger, cfg.assembler, script, live.runtime.stable)
    ensures var after := Advance(live, cfg, script, input);
            EventsMirror(after.session.speechEvents, after.session.ledger, cfg.assembler, script, after.runtime.stable)
  {
    hide Mirrors, Spoken, IngestAudio, IngestVideo, ResultFor, StableThrough, Begin, Speakable, EventsMirror;
    if Reaches(live, cfg, input) && !FailsAt(script, live.runtime.windowsSeen + 1) {
      AnsweredEvents(live.session, cfg, script, live.runtime.stable, input.sequence, input.window);
    } else {
      SilentEvents(live, cfg, script, input);
    }
  }

  // At every point of every session, failing runtime included: a script event is
  // held, final and recorded as told when it ended by the furthest point declared
  // stable, provisional or not yet held otherwise; and nothing else is held but
  // the derived pauses.
  lemma NoEventIsLost(cfg: Config, script: Script, inputs: seq<Input>)
    requires cfg.maxQueueDepth >= 1 && Speakable(script) && EventsTellable(script) && AllWindows(FreshWindows(inputs))
    ensures var s := Replay(cfg, script, inputs).session;
            EventsMirror(s.speechEvents, s.ledger, cfg.assembler, script, SessionMark(script, inputs))
  {
    hide Speakable, EventsMirror, Mirrors;
    ReplayMirrorsEvents(cfg, script, inputs);
    ReplayKeepsStep(cfg, script, inputs);
    DriveReachesMark(script, FreshWindows(inputs));
  }
}
