// The visual side over whole sessions: what is stored is what the vision runtime
// reported, the latest report under each identifier.
module VisualRuns {
  import opened Taxonomy
  import opened Ordering
  import opened Timeline
  import opened Sequencing
  import opened Transcript
  import opened Streaming
  import I = Independence
  import L = EvidenceLedger

  // ----- one answer, without the algorithm -----

  // v is the last of the reported events under its identifier.
  ghost predicate IsLatest(reported: seq<VisualEvent>, v: VisualEvent) {
    exists j :: 0 <= j < |reported| && reported[j] == v && forall i :: j < i < |reported| ==> reported[i].id != v.id
  }

  ghost predicate Mentions(reported: seq<VisualEvent>, id: string) {
    exists j :: 0 <= j < |reported| && reported[j].id == id
  }

  // Under every identifier reported, its last report; under every other, what was there.
  ghost predicate StoredInto(events: map<string, VisualEvent>, reported: seq<VisualEvent>, r: map<string, VisualEvent>) {
    && (forall v :: IsLatest(reported, v) ==> v.id in r && r[v.id] == v)
    && (forall id :: !Mentions(reported, id) ==> (id in r <==> id in events) && (id in r ==> r[id] == events[id]))
  }

  lemma {:induction false} StoresExactly(events: map<string, VisualEvent>, reported: seq<VisualEvent>)
    ensures StoredInto(events, reported, PutVisual(events, reported))
  {
    if reported != [] {
      var n := |reported| - 1;
      var before, last := reported[..n], reported[n];
      StoresExactly(events, before);
      var was, r := PutVisual(events, before), PutVisual(events, reported);
      forall v | IsLatest(reported, v) ensures v.id in r && r[v.id] == v {
        var j :| 0 <= j < |reported| && reported[j] == v && forall i :: j < i < |reported| ==> reported[i].id != v.id;
        if j < n { assert before[j] == v && IsLatest(before, v); }
      }
      forall id | !Mentions(reported, id) ensures (id in r <==> id in events) && (id in r ==> r[id] == events[id]) {
        assert reported[n].id == last.id;
        assert forall j :: 0 <= j < |before| ==> before[j] == reported[j];
      }
    }
  }

  // Every identifier mentioned has a last report.
  lemma {:induction false} LatestExists(reported: seq<VisualEvent>, id: string) returns (v: VisualEvent)
    requires Mentions(reported, id)
    ensures IsLatest(reported, v) && v.id == id
  {
    var n := |reported| - 1;
    if reported[n].id == id {
      v := reported[n];
    } else {
      var before := reported[..n];
      var j :| 0 <= j < |reported| && reported[j].id == id;
      assert before[j].id == id;
      v := LatestExists(before, id);
      var k :| 0 <= k < |before| && before[k] == v && forall i :: k < i < |before| ==> before[i].id != v.id;
      assert reported[k] == v;
    }
  }

  // The records that could not be used, in order.
  function UnusableAt(records: seq<Availability>): nat -> bool { (k: nat) => k < |records| && !records[k].isUsable }

  ghost predicate WarnedOf(warned: seq<Availability>, records: seq<Availability>, ks: seq<nat>) {
    Lists(ks, |records|, UnusableAt(records)) && Picks(warned, records, ks)
  }

  // An answered message stores its events, extends the quality report by what it
  // reports, and warns of the unusable records if there are any.
  ghost predicate VideoAnswered(s: Snapshot, t: Snapshot, r: VisualResult, warned: seq<Availability>, ks: seq<nat>, at: nat) {
    && StoredInto(s.visualEvents, r.events, t.visualEvents)
    && t.quality.assessments == s.quality.assessments + r.assessments
    && t.quality.availability == s.quality.availability + r.availability
    && WarnedOf(warned, r.availability, ks)
    && t.sent == s.sent + (if warned == [] then [] else [QualityWarning(warned, at)])
    && t == s.(visualEvents := t.visualEvents, quality := t.quality, sent := t.sent, videoChunks := t.videoChunks)
  }

  // The message's chunk is new and there is room for its call.
  ghost predicate Admitted(s: Snapshot, cfg: Config, sequence: int) {
    sequence >= 0 && sequence !in s.videoChunks.accepted && s.inFlight < cfg.maxQueueDepth
  }

  lemma VideoStores(s: Snapshot, cfg: Config, sequence: int, r: VisualResult) returns (warned: seq<Availability>, ks: seq<nat>)
    requires L.NonEmpty(s.ledger) && Admitted(s, cfg, sequence)
    ensures VideoAnswered(s, IngestVideo(s, cfg, sequence, Observed(r)).0, r, warned, ks, Frontier(s.transcript))
    ensures IngestVideo(s, cfg, sequence, Observed(r)).0.videoChunks.accepted == s.videoChunks.accepted + {sequence}
  {
    warned := Filter(r.availability, Unusable);
    ks := FilterLists(r.availability, Unusable);
    ListsSame(ks, |r.availability|, Where(r.availability, Unusable), UnusableAt(r.availability));
    StoresExactly(s.visualEvents, r.events);
    hide PutVisual, Filter, StoredInto, Frontier, WarnedOf;
    assert WarnedOf(warned, r.availability, ks) by { WarnedBy(warned, r.availability, ks); }
  }

  lemma WarnedBy(warned: seq<Availability>, records: seq<Availability>, ks: seq<nat>)
    requires Lists(ks, |records|, UnusableAt(records)) && Picks(warned, records, ks)
    ensures WarnedOf(warned, records, ks)
  {
  }

  // Any other video message stores nothing.
  lemma VideoStoresNothing(s: Snapshot, cfg: Config, sequence: int, answer: VisionAnswer)
    requires L.NonEmpty(s.ledger) && (Admitted(s, cfg, sequence) ==> answer.VisionFailed?)
    ensures var t := IngestVideo(s, cfg, sequence, answer).0;
            && t.visualEvents == s.visualEvents && t.quality == s.quality
            && t.videoChunks.accepted == s.videoChunks.accepted + if sequence >= 0 then {sequence} else {}
  {
    hide Frontier;
  }

  // ----- whole sessions -----

  // The k-th message is answered: the first with its number, in a queue with room.
  ghost predicate Taken(cfg: Config, messages: seq<Message>, k: int) {
    && 0 <= k < |messages| && messages[k].VideoChunk? && messages[k].vision.Observed?
    && messages[k].sequence >= 0 && cfg.maxQueueDepth >= 1
    && forall i :: 0 <= i < k && messages[i].VideoChunk? ==> messages[i].sequence != messages[k].sequence
  }

  // The numbers video has used.
  function VideoNumbers(messages: seq<Message>): set<int> {
    set k | 0 <= k < |messages| && messages[k].VideoChunk? && messages[k].sequence >= 0 :: messages[k].sequence
  }

  lemma VideoNumbersSnoc(before: seq<Message>, m: Message)
    ensures VideoNumbers(before + [m]) ==
            VideoNumbers(before) + if m.VideoChunk? && m.sequence >= 0 then {m.sequence} else {}
  {
    var messages := before + [m];
    assert messages[|before|] == m;
    forall x | x in VideoNumbers(before) ensures x in VideoNumbers(messages) {
      var k :| 0 <= k < |before| && before[k].VideoChunk? && before[k].sequence >= 0 && before[k].sequence == x;
      assert messages[k] == before[k];
    }
  }

  // Between messages nothing is in flight, and the numbers seen are those used.
  lemma {:induction false} QueueBetweenMessages(cfg: Config, messages: seq<Message>)
    ensures Run(cfg, messages).inFlight == 0
    ensures Run(cfg, messages).videoChunks.accepted == VideoNumbers(messages)
  {
    hide IngestAudio, IngestVideo, VideoNumbers;
    if messages == [] {
      NoNumbers();
    } else {
      var before, m := messages[..|messages| - 1], messages[|messages| - 1];
      var s := Run(cfg, before);
      QueueBetweenMessages(cfg, before);
      assert messages == before + [m];
      VideoNumbersSnoc(before, m);
      match m
      case AudioChunk(sequence, answer) =>
        I.AudioLeavesVideo(s, cfg, sequence, answer);
      case VideoChunk(sequence, answer) =>
        I.VideoLeavesAudio(s, cfg, sequence, answer);
        I.SameFlight(IngestVideo(s, cfg, sequence, answer).0, s);
        if Admitted(s, cfg, sequence) && answer.Observed? {
          var _, _ := VideoStores(s, cfg, sequence, answer.result);
        } else {
          VideoStoresNothing(s, cfg, sequence, answer);
        }
    }
  }

  lemma NoNumbers()
    ensures VideoNumbers([]) == {}
  {
  }

  // Whether the last message is answered.
  lemma LastIsTaken(cfg: Config, before: seq<Message>, m: Message)
    ensures Taken(cfg, before + [m], |before|) <==>
              m.VideoChunk? && m.vision.Observed? && Admitted(Run(cfg, before), cfg, m.sequence)
    ensures forall k :: 0 <= k < |before| ==> (Taken(cfg, before + [m], k) <==> Taken(cfg, before, k))
  {
    QueueBetweenMessages(cfg, before);
    hide Run;
    var messages := before + [m];
    assert forall k :: 0 <= k < |before| ==> messages[k] == before[k];
    if m.VideoChunk? && m.sequence >= 0 {
      assert m.sequence in VideoNumbers(before) <==>
             exists i :: 0 <= i < |before| && before[i].VideoChunk? && before[i].sequence == m.sequence;
    }
    forall k | 0 <= k < |before| ensures Taken(cfg, messages, k) <==> Taken(cfg, before, k) {
      assert forall i :: 0 <= i < k ==> messages[i] == before[i];
    }
  }

  // v is the last report under its identifier, in the last answered message that
  // has one.
  ghost predicate LastReport(cfg: Config, messages: seq<Message>, k: int, v: VisualEvent) {
    && Taken(cfg, messages, k) && IsLatest(messages[k].vision.result.events, v)
    && forall l :: k < l < |messages| && Taken(cfg, messages, l) ==> !Mentions(messages[l].vision.result.events, v.id)
  }

  // Exactly the last reports are held.
  ghost predicate HoldsLastReports(cfg: Config, messages: seq<Message>, events: map<string, VisualEvent>) {
    && (forall k, v :: LastReport(cfg, messages, k, v) ==> v.id in events && events[v.id] == v)
    && (forall id :: id in events ==> exists k :: LastReport(cfg, messages, k, events[id]) && events[id].id == id)
  }

  lemma UntakenKeepsReports(cfg: Config, before: seq<Message>, m: Message, events: map<string, VisualEvent>)
    requires HoldsLastReports(cfg, before, events) && !Taken(cfg, before + [m], |before|)
    requires forall k :: 0 <= k < |before| ==> (Taken(cfg, before + [m], k) <==> Taken(cfg, before, k))
    ensures HoldsLastReports(cfg, before + [m], events)
  {
    var messages := before + [m];
    forall k, v ensures LastReport(cfg, messages, k, v) <==> LastReport(cfg, before, k, v) {
      if k < |before| { SameReport(cfg, before, m, k, v); }
    }
    hide LastReport;
    forall id | id in events ensures exists k :: LastReport(cfg, messages, k, events[id]) && events[id].id == id {
      var k :| LastReport(cfg, before, k, events[id]) && events[id].id == id;
    }
  }

  lemma SameReport(cfg: Config, before: seq<Message>, m: Message, k: int, v: VisualEvent)
    requires forall l :: 0 <= l < |before| ==> (Taken(cfg, before + [m], l) <==> Taken(cfg, before, l))
    requires Taken(cfg, before + [m], |before|) ==> !Mentions((before + [m])[|before|].vision.result.events, v.id)
    requires k < |before|
    ensures LastReport(cfg, before + [m], k, v) <==> LastReport(cfg, before, k, v)
  {
    hide IsLatest, Mentions;
    var messages := before + [m];
    assert forall l :: 0 <= l < |before| ==> messages[l] == before[l];
    if LastReport(cfg, before, k, v) {
      forall l | k < l < |messages| && Taken(cfg, messages, l) ensures !Mentions(messages[l].vision.result.events, v.id) { }
    }
    if LastReport(cfg, messages, k, v) {
      forall l | k < l < |before| && Taken(cfg, before, l) ensures !Mentions(before[l].vision.result.events, v.id) {
        assert messages[l] == before[l] && Taken(cfg, messages, l);
      }
    }
  }

  lemma TakenAddsReports(cfg: Config, before: seq<Message>, m: Message, was: map<string, VisualEvent>, events: map<string, VisualEvent>)
    requires HoldsLastReports(cfg, before, was) && Taken(cfg, before + [m], |before|)
    requires forall k :: 0 <= k < |before| ==> (Taken(cfg, before + [m], k) <==> Taken(cfg, before, k))
    requires m.VideoChunk? && m.vision.Observed? && StoredInto(was, m.vision.result.events, events)
    ensures HoldsLastReports(cfg, before + [m], events)
  {
    var n, messages, reported := |before|, before + [m], m.vision.result.events;
    hide Taken, IsLatest;
    assert messages[n] == m;
    forall k, v | LastReport(cfg, messages, k, v) ensures v.id in events && events[v.id] == v {
      if k == n {
        assert IsLatest(reported, v);
      } else {
        assert k < n by { TakenInRange(cfg, messages, k); }
        assert !Mentions(reported, v.id);
        SameReport(cfg, before, m, k, v);
      }
    }
    forall id | id in events ensures exists k :: LastReport(cfg, messages, k, events[id]) && events[id].id == id {
      if Mentions(reported, id) {
        var v := LatestExists(reported, id);
        assert LastReport(cfg, messages, n, v);
      } else {
        var k :| LastReport(cfg, before, k, was[id]) && was[id].id == id;
        assert k < n by { TakenInRange(cfg, before, k); }
        SameReport(cfg, before, m, k, was[id]);
      }
    }
  }

  lemma TakenInRange(cfg: Config, messages: seq<Message>, k: int)
    requires Taken(cfg, messages, k)
    ensures 0 <= k < |messages|
  {
  }

  lemma NothingReported(cfg: Config)
    ensures HoldsLastReports(cfg, [], map[])
  {
  }

  // In every session the visual events held are exactly the last reports of the
  // answered messages.
  lemma {:induction false} VisualEventsAreLastReports(cfg: Config, messages: seq<Message>)
    ensures HoldsLastReports(cfg, messages, Run(cfg, messages).visualEvents)
  {
    hide IngestAudio, IngestVideo, HoldsLastReports, StoredInto, Taken, Admitted;
    if messages == [] {
      NothingReported(cfg);
    } else {
      var before, m := messages[..|messages| - 1], messages[|messages| - 1];
      var s := Run(cfg, before);
      VisualEventsAreLastReports(cfg, before);
      assert messages == before + [m];
      LastIsTaken(cfg, before, m);
      match m
      case AudioChunk(sequence, answer) =>
        I.AudioLeavesVideo(s, cfg, sequence, answer);
        UntakenKeepsReports(cfg, before, m, s.visualEvents);
      case VideoChunk(sequence, answer) =>
        if Taken(cfg, messages, |before|) {
          var _, _ := VideoStores(s, cfg, sequence, answer.result);
          TakenAddsReports(cfg, before, m, s.visualEvents, IngestVideo(s, cfg, sequence, answer).0.visualEvents);
        } else {
          VideoStoresNothing(s, cfg, sequence, answer);
          UntakenKeepsReports(cfg, before, m, s.visualEvents);
        }
    }
  }

  // ----- quality -----

  ghost function AllAssessments(cfg: Config, messages: seq<Message>): seq<Assessment> {
    if messages == [] then []
    else
      var n := |messages| - 1;
      AllAssessments(cfg, messages[..n]) + if Taken(cfg, messages, n) then messages[n].vision.result.assessments else []
  }

  ghost function AllAvailability(cfg: Config, messages: seq<Message>): seq<Availability> {
    if messages == [] then []
    else
      var n := |messages| - 1;
      AllAvailability(cfg, messages[..n]) + if Taken(cfg, messages, n) then messages[n].vision.result.availability else []
  }

  // The quality report is what the answered messages reported, in order.
  lemma {:induction false} QualityIsAllReported(cfg: Config, messages: seq<Message>)
    ensures Run(cfg, messages).quality == Quality(AllAssessments(cfg, messages), AllAvailability(cfg, messages))
  {
    hide IngestAudio, IngestVideo, Taken, Admitted;
    if messages != [] {
      var before, m := messages[..|messages| - 1], messages[|messages| - 1];
      var s := Run(cfg, before);
      QualityIsAllReported(cfg, before);
      assert messages == before + [m];
      LastIsTaken(cfg, before, m);
      match m
      case AudioChunk(sequence, answer) =>
        I.AudioLeavesVideo(s, cfg, sequence, answer);
      case VideoChunk(sequence, answer) =>
        if Taken(cfg, messages, |before|) {
          var _, _ := VideoStores(s, cfg, sequence, answer.result);
        } else {
          VideoStoresNothing(s, cfg, sequence, answer);
        }
    }
  }
}
