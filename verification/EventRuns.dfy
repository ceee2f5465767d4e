// Every speech event over whole sessions: what is stored, when it becomes final,
// and what can still change.
module EventRuns {
  import opened Taxonomy
  import opened Ordering
  import opened Timeline
  import opened EventIdentity
  import opened Transcript
  import opened SpeechAssembly
  import opened Streaming
  import opened TranscriptRuns
  import opened LedgerRuns
  import opened Finalizing
  import PauseRuns
  import L = EvidenceLedger

  // ----- storing what a recognizer reports -----

  // x is the last of the incoming events under its identifier.
  ghost predicate IsLatest(incoming: seq<SpeechEvent>, x: SpeechEvent) {
    exists j :: 0 <= j < |incoming| && incoming[j] == x && forall i :: j < i < |incoming| ==> incoming[i].id != x.id
  }

  // Each event held keeps its place and identifier, and gives way to the last one
  // reported under it; new identifiers follow in the order they were first reported.
  ghost predicate StoredInto(events: seq<SpeechEvent>, incoming: seq<SpeechEvent>, r: seq<SpeechEvent>, fs: seq<nat>) {
    && |r| == |events| + |fs| && Lists(fs, |incoming|, NewIds(events, incoming))
    && (forall k :: 0 <= k < |r| ==>
          IsLatest(incoming, r[k]) || (k < |events| && r[k] == events[k] && !Has(incoming, events[k].id)))
    && (forall k :: 0 <= k < |events| ==> r[k].id == events[k].id)
    && (forall k :: |events| <= k < |r| ==> r[k].id == incoming[fs[k - |events|]].id)
  }

  lemma {:induction false} PutExactly(events: seq<SpeechEvent>, e: SpeechEvent)
    requires UniqueIds(events)
    ensures !Has(events, e.id) ==> Put(events, e) == events + [e]
    ensures forall k :: 0 <= k < |events| && events[k].id == e.id ==> Put(events, e) == events[k := e]
  {
    if !Has(events, e.id) {
      PauseRuns.PutNewAppends(events, e);
    } else if events[0].id != e.id {
      var rest := events[1..];
      assert forall i :: 0 <= i < |rest| ==> rest[i] == events[i + 1];
      PutExactly(rest, e);
      forall k | 0 <= k < |events| && events[k].id == e.id ensures Put(events, e) == events[k := e] {
        assert rest[k - 1].id == e.id;
        assert events[k := e] == [events[0]] + rest[k - 1 := e];
      }
    } else {
      assert events[0 := e] == [e] + events[1..];
    }
  }

  lemma LatestSnoc(incoming: seq<SpeechEvent>, e: SpeechEvent)
    ensures IsLatest(incoming + [e], e)
    ensures forall x :: IsLatest(incoming, x) && x.id != e.id ==> IsLatest(incoming + [e], x)
  {
    var all := incoming + [e];
    assert all[|incoming|] == e;
    forall x | IsLatest(incoming, x) && x.id != e.id ensures IsLatest(all, x) {
      var j :| 0 <= j < |incoming| && incoming[j] == x && forall i :: j < i < |incoming| ==> incoming[i].id != x.id;
      assert all[j] == x;
    }
  }

  // One more event, stored over what the earlier ones left.
  lemma StoredSnoc(events: seq<SpeechEvent>, before: seq<SpeechEvent>, was: seq<SpeechEvent>, fs: seq<nat>, e: SpeechEvent)
    returns (gs: seq<nat>)
    requires UniqueIds(events) && UniqueIds(was) && StoredInto(events, before, was, fs)
    ensures StoredInto(events, before + [e], Put(was, e), gs)
  {
    var n, all := |before|, before + [e];
    NewIdsSnoc(events, before, e, fs);
    gs := ListsSnoc(fs, n, NewIds(events, all));
    LatestSnoc(before, e);
    HasAppend(before, e);
    PutExactly(was, e);
    NewIdExactly(events, before, was, fs, e);
    hide NewIds, IsLatest, Has, Put, Lists, StoredInto;
    if Has(was, e.id) {
      var at := PositionOf(was, e.id);
      StoredReplaces(events, before, was, fs, e, at);
    } else {
      StoredAppends(events, before, was, fs, e);
    }
  }

  lemma StoredReplaces(events: seq<SpeechEvent>, before: seq<SpeechEvent>, was: seq<SpeechEvent>, fs: seq<nat>, e: SpeechEvent, at: nat)
    requires UniqueIds(was) && StoredInto(events, before, was, fs) && at < |was| && was[at].id == e.id
    requires Lists(fs, |before + [e]|, NewIds(events, before + [e]))
    requires IsLatest(before + [e], e) && forall x :: IsLatest(before, x) && x.id != e.id ==> IsLatest(before + [e], x)
    requires forall id :: Has(before + [e], id) <==> Has(before, id) || e.id == id
    ensures StoredInto(events, before + [e], was[at := e], fs)
  {
    hide NewIds, IsLatest, Has;
    var r, all := was[at := e], before + [e];
    forall k | 0 <= k < |was| && k != at ensures was[k].id != e.id { }
    forall k | 0 <= k < |r|
      ensures IsLatest(all, r[k]) || (k < |events| && r[k] == events[k] && !Has(all, events[k].id))
      ensures k < |events| ==> r[k].id == events[k].id
      ensures k >= |events| ==> r[k].id == all[fs[k - |events|]].id
    {
      if k != at { assert r[k] == was[k]; }
      if k >= |events| { assert all[fs[k - |events|]] == before[fs[k - |events|]]; }
    }
  }

  lemma StoredAppends(events: seq<SpeechEvent>, before: seq<SpeechEvent>, was: seq<SpeechEvent>, fs: seq<nat>, e: SpeechEvent)
    requires StoredInto(events, before, was, fs) && !Has(was, e.id)
    requires Lists(fs + [|before|], |before + [e]|, NewIds(events, before + [e]))
    requires IsLatest(before + [e], e) && forall x :: IsLatest(before, x) && x.id != e.id ==> IsLatest(before + [e], x)
    requires forall id :: Has(before + [e], id) <==> Has(before, id) || e.id == id
    ensures StoredInto(events, before + [e], was + [e], fs + [|before|])
  {
    forall k | 0 <= k < |was| ensures was[k].id != e.id { HeldAt(was, k); }
    hide NewIds, IsLatest, Has;
    var r, all, gs := was + [e], before + [e], fs + [|before|];
    forall k | 0 <= k < |r|
      ensures IsLatest(all, r[k]) || (k < |events| && r[k] == events[k] && !Has(all, events[k].id))
      ensures k < |events| ==> r[k].id == events[k].id
      ensures k >= |events| ==> r[k].id == all[gs[k - |events|]].id
    {
      if k < |was| { assert r[k] == was[k]; }
      if |events| <= k < |was| { assert gs[k - |events|] == fs[k - |events|] && all[gs[k - |events|]] == before[fs[k - |events|]]; }
    }
  }

  lemma NewIdsSnoc(events: seq<SpeechEvent>, before: seq<SpeechEvent>, e: SpeechEvent, fs: seq<nat>)
    requires Lists(fs, |before|, NewIds(events, before))
    ensures Lists(fs, |before|, NewIds(events, before + [e]))
  {
    var all := before + [e];
    forall k: nat | k < |before| ensures NewIds(events, before)(k) == NewIds(events, all)(k) {
      assert all[k] == before[k];
      if NewIds(events, before)(k) {
        forall j | 0 <= j < k ensures all[j].id != all[k].id { assert all[j] == before[j]; }
      }
      if NewIds(events, all)(k) {
        forall j | 0 <= j < k ensures before[j].id != before[k].id { assert all[j] == before[j]; }
      }
    }
    ListsSame(fs, |before|, NewIds(events, before), NewIds(events, all));
  }

  lemma HeldAt(events: seq<SpeechEvent>, k: nat)
    requires k < |events|
    ensures Has(events, events[k].id)
  {
  }

  lemma PositionOf(events: seq<SpeechEvent>, id: EventId) returns (k: nat)
    requires Has(events, id)
    ensures k < |events| && events[k].id == id
  {
    k :| 0 <= k < |events| && events[k].id == id;
  }

  // The next event is new exactly when nothing stored so far has its identifier.
  lemma NewIdExactly(events: seq<SpeechEvent>, before: seq<SpeechEvent>, was: seq<SpeechEvent>, fs: seq<nat>, e: SpeechEvent)
    requires StoredInto(events, before, was, fs)
    ensures NewIds(events, before + [e])(|before|) <==> !Has(was, e.id)
  {
    var n, all := |before|, before + [e];
    if Has(was, e.id) {
      var k :| 0 <= k < |was| && was[k].id == e.id;
      if k < |events| {
        assert events[k] in events;
      } else {
        assert all[fs[k - |events|]].id == e.id;
      }
    } else {
      forall x | x in events ensures x.id != e.id {
        var k :| 0 <= k < |events| && events[k] == x;
        assert was[k].id == x.id;
      }
      forall j | 0 <= j < n ensures all[j].id != e.id {
        StoredCovers(events, before, was, fs, j);
      }
    }
  }

  // Every identifier reported is stored.
  lemma {:induction false} StoredCovers(events: seq<SpeechEvent>, incoming: seq<SpeechEvent>, was: seq<SpeechEvent>, fs: seq<nat>, j: nat)
    requires StoredInto(events, incoming, was, fs) && j < |incoming|
    ensures Has(was, incoming[j].id)
    decreases j
  {
    hide IsLatest;
    if x :| x in events && x.id == incoming[j].id {
      var k :| 0 <= k < |events| && events[k] == x;
      assert was[k].id == x.id;
    } else if i :| 0 <= i < j && incoming[i].id == incoming[j].id {
      StoredCovers(events, incoming, was, fs, i);
    } else {
      assert NewIds(events, incoming)(j);
      var m :| 0 <= m < |fs| && fs[m] == j;
      assert was[|events| + m].id == incoming[fs[m]].id;
    }
  }

  lemma {:induction false} StoresExactly(events: seq<SpeechEvent>, incoming: seq<SpeechEvent>) returns (fs: seq<nat>)
    requires UniqueIds(events)
    ensures StoredInto(events, incoming, PutAll(events, incoming), fs)
  {
    if incoming == [] {
      fs := [];
    } else {
      var before, e := incoming[..|incoming| - 1], incoming[|incoming| - 1];
      fs := StoresExactly(events, before);
      PutAllShape(events, before);
      hide Put, StoredInto;
      assert incoming == before + [e];
      fs := StoredSnoc(events, before, PutAll(events, before), fs, e);
    }
  }

  // ----- final only what a boundary has passed -----

  // Some message so far declared everything up to here stable.
  ghost predicate Declared(messages: seq<Message>, ms: int) {
    exists n :: 0 <= n < |messages| && DeclaresThrough(messages[n], ms)
  }

  predicate DeclaresThrough(m: Message, ms: int) {
    m.AudioChunk? && m.speech.Transcribed? && ms <= m.speech.result.stableThrough
  }

  lemma DeclaredSnoc(before: seq<Message>, m: Message)
    ensures forall ms :: Declared(before + [m], ms) <==> Declared(before, ms) || DeclaresThrough(m, ms)
  {
    var messages := before + [m];
    forall ms ensures Declared(messages, ms) <==> Declared(before, ms) || DeclaresThrough(m, ms) {
      if Declared(before, ms) {
        var n :| 0 <= n < |before| && DeclaresThrough(before[n], ms);
        assert messages[n] == before[n];
      }
      if DeclaresThrough(m, ms) { assert messages[|before|] == m; }
    }
  }

  lemma DeclaredEarlier(messages: seq<Message>, ms: int, earlier: int)
    requires Declared(messages, ms) && earlier <= ms
    ensures Declared(messages, earlier)
  {
    var n :| 0 <= n < |messages| && DeclaresThrough(messages[n], ms);
    assert DeclaresThrough(messages[n], earlier);
  }

  ghost predicate TokensDeclared(ts: Tokens, messages: seq<Message>) {
    forall t :: t in ts && t.isFinal ==> Declared(messages, t.interval.end)
  }

  ghost predicate EventsDeclared(events: seq<SpeechEvent>, messages: seq<Message>) {
    forall e :: e in events && e.isFinal ==> Declared(messages, e.interval.end)
  }

  ghost predicate LedgerDeclared(h: L.History, messages: seq<Message>) {
    forall id :: id in h ==> |h[id]| == 1 && Declared(messages, h[id][0].interval.end)
  }

  // Hearing a result makes nothing final.
  lemma HeardFinals(s: Snapshot, cfg: Config, m: Message)
    requires Absorbed(s, cfg, m).Some? && UniqueIds(s.speechEvents)
    requires WithProvisional(s.transcript, Absorbed(s, cfg, m).value.tokens).Ok?
    ensures var h := Heard(s, Absorbed(s, cfg, m).value);
            && (forall t :: t in h.transcript && t.isFinal <==> t in s.transcript && t.isFinal)
            && (forall e :: e in h.speechEvents && e.isFinal ==> e in s.speechEvents)
            && h.ledger == s.ledger
  {
    var a := Absorbed(s, cfg, m).value;
    AbsorbedFits(s, cfg, m);
    AssembledIsProvisional(cfg.assembler, m.speech.result);
    PutAllShape(s.speechEvents, a.events);
    forall e | IsLast(a.events, e) ensures e in a.events { LastIsIncoming(a.events, e); }
    hide PutAll, IsLast, Assemble, Begin, Absorbed;
    assert AllProvisional(a.tokens);
    RevisedFinals(s.transcript, a.tokens);
  }

  lemma RevisedFinals(ts: Tokens, incoming: Tokens)
    requires AllProvisional(incoming) && WithProvisional(ts, incoming).Ok?
    ensures forall t :: t in WithProvisional(ts, incoming).tokens && t.isFinal <==> t in ts && t.isFinal
  {
    SortKeepsElements(incoming, TokenKey);
    SortKeepsElements(FinalTokens(ts) + Sort(incoming, TokenKey), TokenKey);
  }

  lemma FreezingIsDeclared(s: Snapshot, cfg: Config, boundary: int, messages: seq<Message>)
    requires L.NonEmpty(s.ledger) && Covered(s.speechEvents, s.ledger) && Declared(messages, boundary)
    requires TokensDeclared(s.transcript, messages) && EventsDeclared(s.speechEvents, messages) && LedgerDeclared(s.ledger, messages)
    ensures var t := FinalizeStep(s, cfg, boundary);
            TokensDeclared(t.transcript, messages) && EventsDeclared(t.speechEvents, messages) && LedgerDeclared(t.ledger, messages)
  {
    hide FinalizeStep, Covered, Declared;
    var t := FinalizeStep(s, cfg, boundary);
    FreezesExactly(s, cfg, boundary);
    if Advances(s.transcript, boundary) {
      forall x | x in t.transcript && x.isFinal ensures Declared(messages, x.interval.end) {
        var k :| 0 <= k < |t.transcript| && t.transcript[k] == x;
        FrozenToken(s, t, boundary, messages, k);
      }
      var provenance, pauses, ks := PausesDerivedExactly(s, cfg, boundary);
      forall k: nat | k < |t.speechEvents| && t.speechEvents[k].isFinal ensures Declared(messages, t.speechEvents[k].interval.end) {
        if k < |s.speechEvents| {
          FrozenEvent(s, t, boundary, messages, k);
        } else {
          assert s.speechEvents != [];
          DerivedIsDeclared(s, t, cfg, provenance, pauses, ks, messages, k);
        }
      }
      FrozenLedger(s, t, messages);
    }
  }

  lemma FrozenToken(s: Snapshot, t: Snapshot, boundary: int, messages: seq<Message>, k: nat)
    requires FrozenThrough(s, t, boundary) && TokensDeclared(s.transcript, messages) && Declared(messages, boundary)
    requires k < |t.transcript| && t.transcript[k].isFinal
    ensures Declared(messages, t.transcript[k].interval.end)
  {
    hide Declared;
    var x := s.transcript[k];
    assert x in s.transcript && t.transcript[k] == ThroughToken(x, boundary);
    if !x.isFinal { DeclaredEarlier(messages, boundary, x.interval.end); }
  }

  lemma FrozenEvent(s: Snapshot, t: Snapshot, boundary: int, messages: seq<Message>, k: nat)
    requires FrozenThrough(s, t, boundary) && EventsDeclared(s.speechEvents, messages) && Declared(messages, boundary)
    requires k < |s.speechEvents| && t.speechEvents[k].isFinal
    ensures Declared(messages, t.speechEvents[k].interval.end)
  {
    hide Declared;
    var x := s.speechEvents[k];
    assert x in s.speechEvents && t.speechEvents[k] == ThroughEvent(x, boundary);
    if !x.isFinal { DeclaredEarlier(messages, boundary, x.interval.end); }
  }

  // A derived pause ends where a final word starts.
  lemma DerivedIsDeclared(
    s: Snapshot, t: Snapshot, cfg: Config, provenance: L.Provenance, pauses: seq<SpeechEvent>, ks: seq<nat>,
    messages: seq<Message>, k: nat)
    requires DerivesFrom(s, t, cfg, provenance, pauses, ks) && TokensDeclared(t.transcript, messages)
    requires |s.speechEvents| <= k < |t.speechEvents|
    ensures Declared(messages, t.speechEvents[k].interval.end)
  {
    hide Declared, Lists, Borrows;
    var words, m := FinalTokens(t.transcript), k - |s.speechEvents|;
    assert t.speechEvents[k] == t.speechEvents[|s.speechEvents|..][m] == pauses[ks[m]].(isFinal := true);
    ReportEnds(pauses, words, cfg.silenceThreshold, provenance, cfg.assembler.run, ks[m]);
    var w :| w in words && pauses[ks[m]].interval.end == w.interval.start;
    assert w in t.transcript && IsFinal(w);
    DeclaredEarlier(messages, w.interval.end, w.interval.start);
  }

  lemma ReportEnds(pauses: seq<SpeechEvent>, words: Tokens, threshold: int, provenance: L.Provenance, run: string, k: nat)
    requires IsPauseReport(pauses, words, threshold, provenance, run) && k < |pauses|
    ensures exists w :: w in words && pauses[k].interval.end == w.interval.start
  {
    var ordered, gaps :| ByStart(words, ordered) && Lists(gaps, |ordered|, LongGaps(ordered, threshold))
                         && FillsAll(pauses, ordered, gaps, provenance, run);
    hide Lists;
    var w := ordered[gaps[k] + 1];
    assert w in multiset(ordered);
    assert w in words;
    assert Fills(pauses[k], ordered[gaps[k]], w, run);
  }

  lemma FrozenLedger(s: Snapshot, t: Snapshot, messages: seq<Message>)
    requires RecordedSince(s, t) && LedgerDeclared(s.ledger, messages)
    requires forall k: nat :: k < |t.speechEvents| && t.speechEvents[k].isFinal ==> Declared(messages, t.speechEvents[k].interval.end)
    ensures LedgerDeclared(t.ledger, messages)
  {
    hide Declared;
    forall id | id in t.ledger ensures |t.ledger[id]| == 1 && Declared(messages, t.ledger[id][0].interval.end) {
      if id !in s.ledger {
        var k: nat :| BecameFinal(s, t)(k) && t.speechEvents[k].id == id;
        assert IsFresh(t.ledger, t.speechEvents[k]);
      }
    }
  }

  // In every session, with any recognizer: a token or an event is final, and an
  // entry is in the ledger, only if it ends by a boundary some message declared.
  lemma {:induction false} FinalOnlyWhenDeclared(cfg: Config, messages: seq<Message>)
    ensures var s := Run(cfg, messages);
            && TokensDeclared(s.transcript, messages) && EventsDeclared(s.speechEvents, messages)
            && LedgerDeclared(s.ledger, messages)
  {
    hide Step, Declared;
    if messages != [] {
      var before, m := messages[..|messages| - 1], messages[|messages| - 1];
      var s := Run(cfg, before);
      FinalOnlyWhenDeclared(cfg, before);
      SessionIsCovered(cfg, before);
      assert messages == before + [m];
      DeclaredSnoc(before, m);
      hide Run;
      StepDeclares(s, cfg, m, messages);
    }
  }

  lemma StepDeclares(s: Snapshot, cfg: Config, m: Message, messages: seq<Message>)
    requires L.NonEmpty(s.ledger) && Covered(s.speechEvents, s.ledger)
    requires forall ms :: DeclaresThrough(m, ms) ==> Declared(messages, ms)
    requires TokensDeclared(s.transcript, messages) && EventsDeclared(s.speechEvents, messages) && LedgerDeclared(s.ledger, messages)
    ensures var t := Step(s, cfg, m);
            TokensDeclared(t.transcript, messages) && EventsDeclared(t.speechEvents, messages) && LedgerDeclared(t.ledger, messages)
  {
    hide Step, Declared, FinalizeStep, Absorbed, WithProvisional, Heard, Covered, Begin;
    StepShape(s, cfg, m);
    if Absorbed(s, cfg, m).Some? {
      var a := Absorbed(s, cfg, m).value;
      AbsorbedFits(s, cfg, m);
      assert UniqueIds(s.speechEvents) by { CoveredIsUnique(s.speechEvents, s.ledger); }
      HeardFinals(s, cfg, m);
      HeardIsCovered(s, cfg, m);
      AbsorbedBoundary(s, cfg, m);
      FreezingIsDeclared(Heard(s, a), cfg, a.stableThrough, messages);
    }
  }

  lemma CoveredIsUnique(events: seq<SpeechEvent>, h: L.History)
    requires Covered(events, h)
    ensures UniqueIds(events) && OneFinalVersion(h)
  {
  }

  lemma HeardIsCovered(s: Snapshot, cfg: Config, m: Message)
    requires Covered(s.speechEvents, s.ledger) && Absorbed(s, cfg, m).Some?
    requires WithProvisional(s.transcript, Absorbed(s, cfg, m).value.tokens).Ok?
    ensures var h := Heard(s, Absorbed(s, cfg, m).value); Covered(h.speechEvents, h.ledger) && h.ledger == s.ledger
  {
    hide Covered, Absorbed, PutAll, WithProvisional;
    AbsorbedEventsProvisional(s, cfg, m);
    StoringKeepsCovered(s.speechEvents, Absorbed(s, cfg, m).value.events, s.ledger);
  }

  lemma AbsorbedBoundary(s: Snapshot, cfg: Config, m: Message)
    requires Absorbed(s, cfg, m).Some?
    ensures m.AudioChunk? && m.speech.Transcribed?
    ensures Absorbed(s, cfg, m).value.stableThrough == m.speech.result.stableThrough
    ensures DeclaresThrough(m, Absorbed(s, cfg, m).value.stableThrough)
    ensures Assemble(cfg.assembler, m.speech.result) == Some(Absorbed(s, cfg, m).value)
  {
    hide Begin, WithProvisional;
  }

  // ----- provisional only what no boundary has passed since -----

  // The message is accepted, and its boundary advances.
  ghost predicate Finalizes(s: Snapshot, cfg: Config, m: Message) {
    Absorbed(s, cfg, m).Some? && m.AudioChunk? && m.speech.Transcribed? && Advances(s.transcript, m.speech.result.stableThrough)
  }

  // The message is accepted, and x is what it says.
  ghost predicate Reports(s: Snapshot, cfg: Config, m: Message, x: SpeechEvent) {
    && Absorbed(s, cfg, m).Some? && m.AudioChunk? && m.speech.Transcribed?
    && exists j :: 0 <= j < |m.speech.result.events|
                   && EventSays(x, m.speech.result.events[j], cfg.assembler, m.speech.result.modelVersion)
  }

  lemma AbsorbedIsReported(s: Snapshot, cfg: Config, m: Message, x: SpeechEvent)
    requires Absorbed(s, cfg, m).Some? && x in Absorbed(s, cfg, m).value.events
    ensures Reports(s, cfg, m, x)
  {
    AbsorbedBoundary(s, cfg, m);
    AssembledSays(cfg.assembler, m.speech.result);
    hide Absorbed, EventSays, Assemble;
    var events := Absorbed(s, cfg, m).value.events;
    var j :| 0 <= j < |events| && events[j] == x;
  }

  // What is provisional after a message was provisional before it, or is what the
  // message says; and ends beyond the message's boundary if that advances.
  lemma StillProvisional(s: Snapshot, cfg: Config, m: Message, x: SpeechEvent)
    requires L.NonEmpty(s.ledger) && Covered(s.speechEvents, s.ledger)
    requires x in Step(s, cfg, m).speechEvents && !x.isFinal
    ensures x in s.speechEvents || Reports(s, cfg, m, x)
    ensures Finalizes(s, cfg, m) ==> x.interval.end > m.speech.result.stableThrough
  {
    hide Step, FinalizeStep, Absorbed, WithProvisional, Begin, Advances, Reports, PutAll, IsLast;
    StepShape(s, cfg, m);
    if Absorbed(s, cfg, m).Some? {
      var a := Absorbed(s, cfg, m).value;
      AbsorbedFits(s, cfg, m);
      AbsorbedBoundary(s, cfg, m);
      CoveredIsUnique(s.speechEvents, s.ledger);
      HeardFinals(s, cfg, m);
      HeardIsCovered(s, cfg, m);
      var h := Heard(s, a);
      assert Advances(h.transcript, a.stableThrough) <==> Advances(s.transcript, a.stableThrough) by {
        SameAdvance(h.transcript, s.transcript, a.stableThrough);
      }
      FreezesExactly(h, cfg, a.stableThrough);
      ProvisionalWasHeld(h, FinalizeStep(h, cfg, a.stableThrough), a.stableThrough, x);
      PutAllShape(s.speechEvents, a.events);
      if IsLast(a.events, x) {
        LastIsIncoming(a.events, x);
        AbsorbedIsReported(s, cfg, m, x);
      }
    }
  }

  lemma SameAdvance(a: Tokens, b: Tokens, boundary: int)
    requires forall t :: t in a && t.isFinal <==> t in b && t.isFinal
    ensures Advances(a, boundary) <==> Advances(b, boundary)
  {
  }

  lemma ProvisionalWasHeld(s: Snapshot, t: Snapshot, boundary: int, x: SpeechEvent)
    requires x in t.speechEvents && !x.isFinal
    requires Advances(s.transcript, boundary) ==> FrozenThrough(s, t, boundary)
    requires !Advances(s.transcript, boundary) ==> t == s
    ensures x in s.speechEvents && (Advances(s.transcript, boundary) ==> x.interval.end > boundary)
  {
    hide Advances;
    if Advances(s.transcript, boundary) {
      var k :| 0 <= k < |t.speechEvents| && t.speechEvents[k] == x;
      assert k < |s.speechEvents|;
      assert t.speechEvents[k] == ThroughEvent(s.speechEvents[k], boundary);
    }
  }

  // Whatever is provisional ends after the boundary of every message that
  // finalized, unless a later message reported it.
  lemma {:induction false} ProvisionalOnlyWhenLater(cfg: Config, messages: seq<Message>, n: nat, x: SpeechEvent)
    requires n < |messages| && Finalizes(Run(cfg, messages[..n]), cfg, messages[n])
    requires x in Run(cfg, messages).speechEvents && !x.isFinal
    ensures || x.interval.end > messages[n].speech.result.stableThrough
            || exists k :: n < k < |messages| && Reports(Run(cfg, messages[..k]), cfg, messages[k], x)
    decreases |messages|
  {
    hide Step, Finalizes, Reports;
    var last := |messages| - 1;
    var before, m := messages[..last], messages[last];
    SessionIsCovered(cfg, before);
    StillProvisional(Run(cfg, before), cfg, m, x);
    if n < last && !Reports(Run(cfg, before), cfg, m, x) {
      assert before[..n] == messages[..n];
      ProvisionalOnlyWhenLater(cfg, before, n, x);
      if k :| n < k < |before| && Reports(Run(cfg, before[..k]), cfg, before[k], x) {
        assert before[..k] == messages[..k];
      }
    }
  }

  // And whatever is held and ended by such a boundary is final and recorded, for good.
  lemma EndedIsRecorded(cfg: Config, messages: seq<Message>, n: nat, x: SpeechEvent)
    requires n < |messages| && Finalizes(Run(cfg, messages[..n]), cfg, messages[n])
    requires x in Run(cfg, messages[..n + 1]).speechEvents && x.interval.end <= messages[n].speech.result.stableThrough
    ensures x.isFinal && x.id in Run(cfg, messages).ledger
  {
    var s := Run(cfg, messages[..n]);
    assert messages[..n + 1][..n] == messages[..n];
    hide Step, Finalizes;
    SessionIsCovered(cfg, messages[..n]);
    SessionIsCovered(cfg, messages[..n + 1]);
    if !x.isFinal { StillProvisional(s, cfg, messages[n], x); }
    SessionLedgerIsImmutable(cfg, messages, n + 1);
  }
}
