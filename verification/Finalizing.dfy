// What one finalizing step freezes, records and tells the client, position by
// position, and what that means for every event over whole sessions.
module Finalizing {
  import opened Taxonomy
  import opened Ordering
  import opened Timeline
  import opened EventIdentity
  import opened Transcript
  import opened SpeechAssembly
  import opened Streaming
  import opened TranscriptRuns
  import opened LedgerRuns
  import opened PauseRuns
  import L = EvidenceLedger

  // ----- what is to happen, without the algorithm -----

  // The boundary is beyond the end of every final token, and beyond zero.
  ghost predicate Advances(ts: Tokens, boundary: int) {
    boundary > 0 && forall t :: t in ts && t.isFinal ==> t.interval.end < boundary
  }

  function ThroughToken(t: WordToken, boundary: int): WordToken { t.(isFinal := t.isFinal || t.interval.end <= boundary) }

  function ThroughEvent(e: SpeechEvent, boundary: int): SpeechEvent { e.(isFinal := e.isFinal || e.interval.end <= boundary) }

  predicate IsDerived(e: SpeechEvent) { e.isFinal && e.kind == SilentPause && e.id.kind == SilentPause }

  // What was held stays in its place; it is final if it was or if it ended by the
  // boundary. Anything behind it is a final silent pause.
  ghost predicate FrozenThrough(s: Snapshot, t: Snapshot, boundary: int) {
    && |t.transcript| == |s.transcript|
    && (forall k :: 0 <= k < |s.transcript| ==> t.transcript[k] == ThroughToken(s.transcript[k], boundary))
    && |t.speechEvents| >= |s.speechEvents|
    && (forall k :: 0 <= k < |s.speechEvents| ==> t.speechEvents[k] == ThroughEvent(s.speechEvents[k], boundary))
    && (forall k :: |s.speechEvents| <= k < |t.speechEvents| ==> IsDerived(t.speechEvents[k]))
  }

  // The positions of the events that are final and were not.
  function BecameFinal(s: Snapshot, t: Snapshot): nat -> bool {
    (k: nat) => k < |t.speechEvents| && t.speechEvents[k].isFinal && (k >= |s.speechEvents| || !s.speechEvents[k].isFinal)
  }

  // Exactly these are recorded, as one final version with their own content;
  // what was recorded stays.
  ghost predicate RecordedSince(s: Snapshot, t: Snapshot) {
    && (forall id :: id in s.ledger ==> id in t.ledger && t.ledger[id] == s.ledger[id])
    && (forall id :: id in t.ledger && id !in s.ledger ==>
          exists k: nat :: BecameFinal(s, t)(k) && t.speechEvents[k].id == id)
    && (forall k: nat :: BecameFinal(s, t)(k) ==> t.speechEvents[k].id in t.ledger)
    && (forall k: nat :: BecameFinal(s, t)(k) && t.speechEvents[k].id !in s.ledger ==> IsFresh(t.ledger, t.speechEvents[k]))
  }

  ghost predicate IsFresh(h: L.History, e: SpeechEvent) {
    e.id in h && h[e.id] == [L.Entry(e.id, 0, e.interval, e.provenance, true, L.Payload(e.kind, e.rawText))]
  }

  // The client is sent the final transcript, then what became final, each in
  // order, and neither when it would be empty.
  ghost predicate PublishedSince(s: Snapshot, t: Snapshot, ts: Tokens, fs: seq<nat>, events: seq<SpeechEvent>, es: seq<nat>) {
    && Lists(fs, |t.transcript|, Where(t.transcript, IsFinal)) && Picks(ts, t.transcript, fs)
    && Lists(es, |t.speechEvents|, BecameFinal(s, t)) && Picks(events, t.speechEvents, es)
    && t.sent == s.sent + (if ts == [] then [] else [TranscriptFinal(ts)]) + (if events == [] then [] else [SpeechFinal(events)])
  }

  // ----- the frontier -----

  lemma AdvancesExactly(ts: Tokens, boundary: int)
    ensures boundary > Frontier(ts) <==> Advances(ts, boundary)
  {
    var finals := FinalTokens(ts);
    assert forall t :: t in finals <==> t in ts && IsFinal(t);
    if finals != [] {
      var end := LatestEnd(finals);
      var t :| t in finals && t.interval.end == end;
    }
  }

  // ----- freezing -----

  // The events a boundary freezes, in the order they are held.
  function EndedBy(events: seq<SpeechEvent>, boundary: int): nat -> bool {
    (k: nat) => k < |events| && !events[k].isFinal && events[k].interval.end <= boundary
  }

  ghost predicate FinalCopies(newly: seq<SpeechEvent>, events: seq<SpeechEvent>, ks: seq<nat>) {
    && |newly| == |ks|
    && forall m :: 0 <= m < |ks| ==> ks[m] < |events| && newly[m] == events[ks[m]].(isFinal := true)
  }

  lemma {:induction false} NewlyFinalListed(events: seq<SpeechEvent>, boundary: int) returns (ks: seq<nat>)
    ensures Lists(ks, |events|, EndedBy(events, boundary)) && FinalCopies(NewlyFinal(events, boundary), events, ks)
  {
    if events == [] {
      ks := [];
    } else {
      var n := |events| - 1;
      var before, last := events[..n], events[n];
      ks := NewlyFinalListed(before, boundary);
      assert events == before + [last];
      ListsSame(ks, n, EndedBy(before, boundary), EndedBy(events, boundary));
      assert EndedBy(events, boundary)(n) <==> Settles(last, boundary);
      hide Lists, EndedBy;
      FinalCopiesSnoc(NewlyFinal(before, boundary), before, ks, last);
      ks := ListsSnoc(ks, n, EndedBy(events, boundary));
    }
  }

  lemma FinalCopiesSnoc(newly: seq<SpeechEvent>, events: seq<SpeechEvent>, ks: seq<nat>, e: SpeechEvent)
    requires FinalCopies(newly, events, ks)
    ensures FinalCopies(newly, events + [e], ks)
    ensures FinalCopies(newly + [e.Finalize()], events + [e], ks + [|events|])
  {
  }

  // ----- derived pauses are appended -----

  // The incoming events whose identifier is new: held by no event, and by none of
  // the incoming before.
  function NewIds(events: seq<SpeechEvent>, incoming: seq<SpeechEvent>): nat -> bool {
    (k: nat) =>
      && k < |incoming| && (forall x :: x in events ==> x.id != incoming[k].id)
      && forall j :: 0 <= j < k ==> incoming[j].id != incoming[k].id
  }

  // Pauses are appended and recorded, and no identifier is left out.
  lemma {:induction false} AddPausesShape(events: seq<SpeechEvent>, h: L.History, pauses: seq<SpeechEvent>)
    requires L.NonEmpty(h)
    ensures var d := AddPauses(events, h, pauses);
            && d.events == events + d.added && d.ledger == RecordAll(h, d.added)
            && forall id :: Has(pauses, id) ==> Has(d.events, id)
  {
    if pauses == [] {
      assert events + [] == events;
    } else {
      var before, p := pauses[..|pauses| - 1], pauses[|pauses| - 1];
      AddPausesShape(events, h, before);
      var d := AddPauses(events, h, before);
      AddOne(events, h, d, p);
      assert pauses == before + [p];
      HasAppend(before, p);
      HasAppend(d.events, p.Finalize());
      Associate(events, d.added, [p.Finalize()]);
      hide Has, Put, Record, RecordAll;
    }
  }

  lemma {:induction false} AddPausesListed(events: seq<SpeechEvent>, h: L.History, pauses: seq<SpeechEvent>) returns (ks: seq<nat>)
    requires L.NonEmpty(h)
    ensures Lists(ks, |pauses|, NewIds(events, pauses)) && FinalCopies(AddPauses(events, h, pauses).added, pauses, ks)
  {
    if pauses == [] {
      ks := [];
    } else {
      var n := |pauses| - 1;
      var before, p := pauses[..n], pauses[n];
      ks := AddPausesListed(events, h, before);
      var d := AddPauses(events, h, before);
      AddPausesShape(events, h, before);
      assert pauses == before + [p];
      ListsSame(ks, n, NewIds(events, before), NewIds(events, pauses));
      NewExactly(events, pauses, d.added, ks);
      FinalCopiesSnoc(d.added, before, ks, p);
      hide Lists, NewIds, FinalCopies, Has, Put, Record, RecordAll;
      ks := ListsSnoc(ks, n, NewIds(events, pauses));
    }
  }

  lemma AddOne(events: seq<SpeechEvent>, h: L.History, d: Derivation, p: SpeechEvent)
    requires L.NonEmpty(h) && d.events == events + d.added && d.ledger == RecordAll(h, d.added)
    ensures !Has(d.events, p.id) ==>
              && Put(d.events, p.Finalize()) == events + (d.added + [p.Finalize()])
              && Record(d.ledger, p.Finalize()) == RecordAll(h, d.added + [p.Finalize()])
  {
    if !Has(d.events, p.id) {
      PutNewAppends(d.events, p.Finalize());
      Associate(events, d.added, [p.Finalize()]);
      assert (d.added + [p.Finalize()])[..|d.added|] == d.added;
    }
  }

  // The last pause is new exactly when neither the events nor the pauses already
  // added have its identifier.
  lemma NewExactly(events: seq<SpeechEvent>, pauses: seq<SpeechEvent>, added: seq<SpeechEvent>, ks: seq<nat>)
    requires pauses != [] && FinalCopies(added, pauses[..|pauses| - 1], ks)
    requires forall id :: Has(pauses[..|pauses| - 1], id) ==> Has(events + added, id)
    ensures NewIds(events, pauses)(|pauses| - 1) <==> !Has(events + added, pauses[|pauses| - 1].id)
  {
    var n, all := |pauses| - 1, events + added;
    var before, id := pauses[..n], pauses[n].id;
    if Has(all, id) {
      var k :| 0 <= k < |all| && all[k].id == id;
      if k < |events| {
        assert events[k] in events;
      } else {
        var m := k - |events|;
        assert before[ks[m]].id == id;
      }
    } else {
      forall x | x in events ensures x.id != id {
        var k :| 0 <= k < |events| && events[k] == x;
        assert all[k] == x;
      }
      forall j | 0 <= j < n ensures pauses[j].id != id {
        assert before[j] == pauses[j];
        assert Has(before, pauses[j].id);
      }
    }
  }

  // ----- recording -----

  lemma {:induction false} RecordAllFresh(h: L.History, events: seq<SpeechEvent>, x: SpeechEvent)
    requires OneFinalVersion(h) && L.NonEmpty(h) && UniqueIds(events) && x in events && x.id !in h
    ensures IsFresh(RecordAll(h, events), x)
  {
    hide Record, OneFinalVersion;
    var n := |events| - 1;
    var before, e := events[..n], events[n];
    RecordAllKeeps(h, before);
    var was := RecordAll(h, before);
    RecordKeeps(was, e);
    assert events == before + [e];
    if x == e {
      RecordAllIds(h, before);
      assert !Has(before, e.id);
    } else {
      RecordAllFresh(h, before, x);
    }
  }

  lemma {:induction false} RecordAllAppend(h: L.History, a: seq<SpeechEvent>, b: seq<SpeechEvent>)
    requires L.NonEmpty(h)
    ensures RecordAll(RecordAll(h, a), b) == RecordAll(h, a + b)
  {
    hide Record;
    if b == [] {
      assert a + b == a;
    } else {
      RecordAllAppend(h, a, b[..|b| - 1]);
      assert (a + b)[..|a + b| - 1] == a + b[..|b| - 1];
    }
  }

  // ----- one finalizing step -----

  // What became final: the copies of what ended, then the pauses.
  ghost predicate NewlyAt(s: Snapshot, t: Snapshot, newly: seq<SpeechEvent>, added: seq<SpeechEvent>, es: seq<nat>) {
    Lists(es, |t.speechEvents|, BecameFinal(s, t)) && Picks(newly + added, t.speechEvents, es)
  }

  // Positions lo..hi, in order.
  function Behind(lo: nat, hi: nat): (r: seq<nat>)
    requires lo <= hi
    ensures |r| == hi - lo && forall k :: 0 <= k < |r| ==> r[k] == lo + k
  {
    seq(hi - lo, k requires 0 <= k < hi - lo => lo + k)
  }

  lemma NewlyListed(s: Snapshot, t: Snapshot, boundary: int, newly: seq<SpeechEvent>, added: seq<SpeechEvent>, ks: seq<nat>)
    requires FrozenThrough(s, t, boundary) && |t.speechEvents| == |s.speechEvents| + |added|
    requires forall k :: 0 <= k < |added| ==> t.speechEvents[|s.speechEvents| + k] == added[k]
    requires Lists(ks, |s.speechEvents|, EndedBy(s.speechEvents, boundary)) && FinalCopies(newly, s.speechEvents, ks)
    ensures NewlyAt(s, t, newly, added, ks + Behind(|s.speechEvents|, |t.speechEvents|))
  {
    var n, m := |s.speechEvents|, |t.speechEvents|;
    var behind := Behind(n, m);
    forall k: nat | k < n ensures BecameFinal(s, t)(k) == EndedBy(s.speechEvents, boundary)(k) {
      assert t.speechEvents[k] == ThroughEvent(s.speechEvents[k], boundary);
    }
    forall k: nat | n <= k < m ensures BecameFinal(s, t)(k) && k in behind {
      assert behind[k - n] == k;
    }
    ListsSame(ks, n, EndedBy(s.speechEvents, boundary), BecameFinal(s, t));
    ListsBehind(ks, n, m, BecameFinal(s, t));
    forall i | 0 <= i < |newly| ensures newly[i] == t.speechEvents[ks[i]] {
      assert EndedBy(s.speechEvents, boundary)(ks[i]);
      assert t.speechEvents[ks[i]] == ThroughEvent(s.speechEvents[ks[i]], boundary);
    }
  }

  lemma ListsBehind(ks: seq<nat>, n: nat, m: nat, p: nat -> bool)
    requires n <= m && Lists(ks, n, p) && forall k: nat :: n <= k < m ==> p(k)
    ensures Lists(ks + Behind(n, m), m, p)
  {
    var all := ks + Behind(n, m);
    forall k: nat | k < m && p(k) ensures k in all {
      if k < n { assert k in ks; } else { assert all[|ks| + (k - n)] == k; }
    }
  }

  // The parts of a finalizing step, by name.
  lemma FinalizeParts(s: Snapshot, cfg: Config, boundary: int)
    requires L.NonEmpty(s.ledger) && boundary > Frontier(s.transcript)
    ensures var t := FinalizeStep(s, cfg, boundary);
            var newly := NewlyFinal(s.speechEvents, boundary);
            var finals := FinalTokens(t.transcript);
            var d := DerivePauses(cfg, finals, FinalizeEvents(s.speechEvents, boundary), RecordAll(s.ledger, newly), newly);
            && t.transcript == PromoteAll(s.transcript, boundary)
            && t.speechEvents == d.events && t.ledger == d.ledger
            && t == s.(transcript := t.transcript, speechEvents := t.speechEvents, ledger := t.ledger, sent := t.sent)
            && t.sent == Publish(Publish(s.sent, finals != [], TranscriptFinal(finals)), newly + d.added != [], SpeechFinal(newly + d.added))
  {
    hide Frontier, FinalTokens, PromoteAll, NewlyFinal, RecordAll, DerivePauses, FinalizeEvents;
  }

  lemma DerivedShape(cfg: Config, finals: Tokens, events: seq<SpeechEvent>, h: L.History, newly: seq<SpeechEvent>)
    requires L.NonEmpty(h)
    ensures var d := DerivePauses(cfg, finals, events, h, newly);
            && d.events == events + d.added && d.ledger == RecordAll(h, d.added)
            && forall e :: e in d.added ==> IsDerived(e)
  {
    hide AddPauses, RecordAll, SilentPauses;
    var d := DerivePauses(cfg, finals, events, h, newly);
    var provenance := BorrowedProvenance(newly, events);
    if |finals| >= 2 && provenance.Some? {
      var pauses := SilentPauses(finals, cfg.silenceThreshold, provenance.value, cfg.assembler.run);
      AddPausesShape(events, h, pauses);
      var ks := AddPausesListed(events, h, pauses);
      ArePauses(finals, cfg.silenceThreshold, provenance.value, cfg.assembler.run);
      forall e | e in d.added ensures IsDerived(e) {
        var m :| 0 <= m < |d.added| && d.added[m] == e;
        assert e == pauses[ks[m]].(isFinal := true) && pauses[ks[m]] in pauses;
      }
    } else {
      assert events + [] == events && RecordAll(h, []) == h by { NothingRecorded(h); }
    }
  }

  lemma NothingRecorded(h: L.History)
    requires L.NonEmpty(h)
    ensures RecordAll(h, []) == h
  {
  }

  lemma ArePauses(tokens: Tokens, threshold: nat, provenance: L.Provenance, run: string)
    ensures forall p :: p in SilentPauses(tokens, threshold, provenance, run) ==> p.kind == SilentPause == p.id.kind
  {
    hide WordGaps, Sort;
    GapsAreSpans(Sort(tokens, StartKey), threshold);
  }

  lemma FreezesInPlace(s: Snapshot, cfg: Config, boundary: int)
    requires L.NonEmpty(s.ledger) && boundary > Frontier(s.transcript)
    ensures FrozenThrough(s, FinalizeStep(s, cfg, boundary), boundary)
  {
    hide Frontier, DerivePauses, RecordAll, NewlyFinal, FinalTokens, FinalizeStep;
    FinalizeParts(s, cfg, boundary);
    var t := FinalizeStep(s, cfg, boundary);
    var newly := NewlyFinal(s.speechEvents, boundary);
    DerivedShape(cfg, FinalTokens(t.transcript), FinalizeEvents(s.speechEvents, boundary), RecordAll(s.ledger, newly), newly);
    forall k | |s.speechEvents| <= k < |t.speechEvents| ensures IsDerived(t.speechEvents[k]) {
      var d := DerivePauses(cfg, FinalTokens(t.transcript), FinalizeEvents(s.speechEvents, boundary), RecordAll(s.ledger, newly), newly);
      assert t.speechEvents[k] == d.added[k - |s.speechEvents|];
    }
  }

  // The events that became final, in the order they are held, and what is done with them.
  ghost predicate SettledAs(s: Snapshot, t: Snapshot, all: seq<SpeechEvent>, es: seq<nat>) {
    && Lists(es, |t.speechEvents|, BecameFinal(s, t)) && Picks(all, t.speechEvents, es)
    && L.NonEmpty(s.ledger) && t.ledger == RecordAll(s.ledger, all)
    && t == s.(transcript := t.transcript, speechEvents := t.speechEvents, ledger := t.ledger, sent := t.sent)
    && t.sent == Publish(Publish(s.sent, FinalTokens(t.transcript) != [], TranscriptFinal(FinalTokens(t.transcript))),
                         all != [], SpeechFinal(all))
  }

  lemma StepSettles(s: Snapshot, cfg: Config, boundary: int) returns (all: seq<SpeechEvent>, es: seq<nat>)
    requires L.NonEmpty(s.ledger) && boundary > Frontier(s.transcript)
    ensures SettledAs(s, FinalizeStep(s, cfg, boundary), all, es)
  {
    hide Frontier, DerivePauses, RecordAll, NewlyFinal, FinalTokens, FinalizeStep, Publish, FrozenThrough, Lists, Picks;
    var t := FinalizeStep(s, cfg, boundary);
    var newly := NewlyFinal(s.speechEvents, boundary);
    var held := FinalizeEvents(s.speechEvents, boundary);
    var d := DerivePauses(cfg, FinalTokens(t.transcript), held, RecordAll(s.ledger, newly), newly);
    FinalizeParts(s, cfg, boundary);
    FreezesInPlace(s, cfg, boundary);
    DerivedShape(cfg, FinalTokens(t.transcript), held, RecordAll(s.ledger, newly), newly);
    var ks := NewlyFinalListed(s.speechEvents, boundary);
    NewlyListed(s, t, boundary, newly, d.added, ks);
    RecordAllAppend(s.ledger, newly, d.added);
    all, es := newly + d.added, ks + Behind(|s.speechEvents|, |t.speechEvents|);
  }

  lemma PickedAreUnique(all: seq<SpeechEvent>, events: seq<SpeechEvent>, es: seq<nat>, p: nat -> bool)
    requires UniqueIds(events) && Lists(es, |events|, p) && Picks(all, events, es)
    ensures UniqueIds(all)
  {
    forall i, j | 0 <= i < j < |all| ensures all[i].id != all[j].id {
      assert es[i] < es[j];
    }
  }

  lemma RecordsExactly(s: Snapshot, t: Snapshot, all: seq<SpeechEvent>, es: seq<nat>)
    requires Covered(s.speechEvents, s.ledger) && Covered(t.speechEvents, t.ledger) && SettledAs(s, t, all, es)
    ensures RecordedSince(s, t)
  {
    hide RecordAll, FinalTokens, Publish, OneFinalVersion, IsFresh;
    var p := BecameFinal(s, t);
    PickedAreUnique(all, t.speechEvents, es, p);
    RecordAllKeeps(s.ledger, all);
    RecordAllIds(s.ledger, all);
    forall id | id in t.ledger && id !in s.ledger ensures exists k: nat :: p(k) && t.speechEvents[k].id == id {
      var m :| 0 <= m < |all| && all[m].id == id;
      assert p(es[m]);
    }
    forall k: nat | p(k)
      ensures t.speechEvents[k].id in t.ledger && (t.speechEvents[k].id !in s.ledger ==> IsFresh(t.ledger, t.speechEvents[k]))
    {
      var m :| 0 <= m < |es| && es[m] == k;
      assert all[m] == t.speechEvents[k];
      assert Has(all, t.speechEvents[k].id);
      if t.speechEvents[k].id !in s.ledger { RecordAllFresh(s.ledger, all, all[m]); }
    }
  }

  // One finalizing step, exactly: nothing at all unless the boundary advances;
  // otherwise every event and every token is frozen that ended by it, just these
  // are recorded, and nothing else but the channel changes.
  lemma FreezesExactly(s: Snapshot, cfg: Config, boundary: int)
    requires L.NonEmpty(s.ledger) && Covered(s.speechEvents, s.ledger)
    ensures var t := FinalizeStep(s, cfg, boundary);
            && (!Advances(s.transcript, boundary) ==> t == s)
            && (Advances(s.transcript, boundary) ==> FrozenThrough(s, t, boundary) && RecordedSince(s, t))
            && t == s.(transcript := t.transcript, speechEvents := t.speechEvents, ledger := t.ledger, sent := t.sent)
  {
    AdvancesExactly(s.transcript, boundary);
    hide Frontier, Advances, FrozenThrough, RecordedSince, Covered, SettledAs;
    if boundary > Frontier(s.transcript) {
      FreezesInPlace(s, cfg, boundary);
      FinalizeStepAgreement(s, cfg, boundary);
      var all, es := StepSettles(s, cfg, boundary);
      RecordsExactly(s, FinalizeStep(s, cfg, boundary), all, es);
      FinalizeParts(s, cfg, boundary);
    }
  }

  // What the client is told by one finalizing step.
  lemma PublishesExactly(s: Snapshot, cfg: Config, boundary: int)
    returns (ts: Tokens, fs: seq<nat>, events: seq<SpeechEvent>, es: seq<nat>)
    requires L.NonEmpty(s.ledger) && Advances(s.transcript, boundary)
    ensures PublishedSince(s, FinalizeStep(s, cfg, boundary), ts, fs, events, es)
  {
    AdvancesExactly(s.transcript, boundary);
    var t := FinalizeStep(s, cfg, boundary);
    hide Frontier, FinalizeStep, RecordAll, BecameFinal;
    events, es := StepSettles(s, cfg, boundary);
    ts := FinalTokens(t.transcript);
    fs := FilterLists(t.transcript, IsFinal);
    hide Lists, Picks, FinalTokens;
    assert s.sent + [] == s.sent;
    assert s.sent + [TranscriptFinal(ts)] + [] == s.sent + [TranscriptFinal(ts)];
  }

  // ----- the pauses a step derives -----

  // The provenance of the first event that became final, and of the first event
  // held when none did.
  ghost predicate Borrows(s: Snapshot, t: Snapshot, provenance: L.Provenance) {
    || (exists k: nat :: k < |s.speechEvents| && BecameFinal(s, t)(k) && s.speechEvents[k].provenance == provenance
                         && forall j: nat :: j < k ==> !BecameFinal(s, t)(j))
    || (s.speechEvents != [] && s.speechEvents[0].provenance == provenance
        && forall j: nat :: j < |s.speechEvents| ==> !BecameFinal(s, t)(j))
  }

  // The pauses appended are those of the final tokens whose identifiers are new,
  // in order; none when there is no event to borrow from.
  ghost predicate DerivesFrom(s: Snapshot, t: Snapshot, cfg: Config, provenance: L.Provenance, pauses: seq<SpeechEvent>, ks: seq<nat>) {
    && Borrows(s, t, provenance)
    && IsPauseReport(pauses, FinalTokens(t.transcript), cfg.silenceThreshold, provenance, cfg.assembler.run)
    && |t.speechEvents| >= |s.speechEvents|
    && Lists(ks, |pauses|, NewIds(t.speechEvents[..|s.speechEvents|], pauses))
    && FinalCopies(t.speechEvents[|s.speechEvents|..], pauses, ks)
  }

  lemma BorrowedIs(s: Snapshot, t: Snapshot, boundary: int)
    requires FrozenThrough(s, t, boundary) && s.speechEvents != []
    ensures var borrowed := BorrowedProvenance(NewlyFinal(s.speechEvents, boundary), FinalizeEvents(s.speechEvents, boundary));
            borrowed.Some? && Borrows(s, t, borrowed.value)
  {
    var newly := NewlyFinal(s.speechEvents, boundary);
    var ks := NewlyFinalListed(s.speechEvents, boundary);
    hide NewlyFinal;
    forall k: nat | k < |s.speechEvents| ensures BecameFinal(s, t)(k) == EndedBy(s.speechEvents, boundary)(k) {
      assert t.speechEvents[k] == ThroughEvent(s.speechEvents[k], boundary);
    }
    if newly != [] {
      assert BecameFinal(s, t)(ks[0]);
      forall j: nat | j < ks[0] ensures !BecameFinal(s, t)(j) {
        assert EndedBy(s.speechEvents, boundary)(j) ==> j in ks;
      }
    } else {
      forall j: nat | j < |s.speechEvents| ensures !BecameFinal(s, t)(j) {
        assert EndedBy(s.speechEvents, boundary)(j) ==> j in ks;
      }
    }
  }

  lemma PausesDerivedExactly(s: Snapshot, cfg: Config, boundary: int)
    returns (provenance: L.Provenance, pauses: seq<SpeechEvent>, ks: seq<nat>)
    requires L.NonEmpty(s.ledger) && Advances(s.transcript, boundary)
    ensures var t := FinalizeStep(s, cfg, boundary);
            && (s.speechEvents != [] ==> DerivesFrom(s, t, cfg, provenance, pauses, ks))
            && (s.speechEvents == [] ==> t.speechEvents == [])
  {
    AdvancesExactly(s.transcript, boundary);
    var t := FinalizeStep(s, cfg, boundary);
    FinalizeParts(s, cfg, boundary);
    FreezesInPlace(s, cfg, boundary);
    var newly := NewlyFinal(s.speechEvents, boundary);
    var held, finals := FinalizeEvents(s.speechEvents, boundary), FinalTokens(t.transcript);
    if s.speechEvents == [] {
      provenance, pauses, ks := L.Provenance(L.Audio, ""), [], [];
    } else {
      BorrowedIs(s, t, boundary);
      provenance := BorrowedProvenance(newly, held).value;
      pauses := SilentPauses(finals, cfg.silenceThreshold, provenance, cfg.assembler.run);
      SilentPausesReport(finals, cfg.silenceThreshold, provenance, cfg.assembler.run);
      var h := RecordAll(s.ledger, newly);
      ks := AddPausesListed(held, h, pauses);
      AddPausesShape(held, h, pauses);
      hide Frontier, FinalizeStep, RecordAll, NewlyFinal, FinalTokens, BorrowedProvenance, Borrows, IsPauseReport, AddPauses, Lists, NewIds;
      if |finals| < 2 { FewWords(finals, cfg.silenceThreshold, provenance, cfg.assembler.run, held, h); }
      var d := AddPauses(held, h, pauses);
      assert t.speechEvents == held + d.added;
      assert t.speechEvents[..|s.speechEvents|] == held && t.speechEvents[|s.speechEvents|..] == d.added;
    }
  }

  lemma FewWords(words: Tokens, threshold: nat, provenance: L.Provenance, run: string, events: seq<SpeechEvent>, h: L.History)
    requires |words| < 2 && L.NonEmpty(h)
    ensures AddPauses(events, h, SilentPauses(words, threshold, provenance, run)).events == events
    ensures AddPauses(events, h, SilentPauses(words, threshold, provenance, run)).added == []
  {
    SortKeepsElements(words, StartKey);
  }
}
