// A scripted speaker through a whole session: no word is lost, whatever is
// redelivered and whatever video does in between.
module ScriptedRuns {
  import opened Taxonomy
  import opened Arithmetic
  import opened Ordering
  import opened Timeline
  import opened Sequencing
  import opened Transcript
  import opened SpeechAssembly
  import opened Streaming
  import opened TranscriptRuns
  import opened ScriptedRuntime
  import I = Independence
  import L = EvidenceLedger

  datatype Input = AudioIn(sequence: int, window: AudioWindow) | VideoIn(sequence: int, vision: VisionAnswer)

  datatype Live = Live(session: Snapshot, runtime: RuntimeState)

  // The runtime is called only for a window that is new and admitted.
  predicate Reaches(live: Live, cfg: Config, input: Input) {
    input.AudioIn? && Begin(live.session, cfg, L.Audio, input.sequence).1.Started?
  }

  // The answer is looked at only when the runtime has been called.
  function MessageFor(live: Live, script: Script, input: Input): Message {
    match input
    case AudioIn(sequence, window) => AudioChunk(sequence, Transcription(script, live.runtime, window).1)
    case VideoIn(sequence, vision) => VideoChunk(sequence, vision)
  }

  function Advance(live: Live, cfg: Config, script: Script, input: Input): (r: Live)
    requires L.NonEmpty(live.session.ledger)
    ensures L.NonEmpty(r.session.ledger)
  {
    Live(Step(live.session, cfg, MessageFor(live, script, input)),
         if Reaches(live, cfg, input) then Transcription(script, live.runtime, input.window).0 else live.runtime)
  }

  function OutcomeOf(live: Live, cfg: Config, script: Script, input: Input): Outcome
    requires L.NonEmpty(live.session.ledger)
  {
    match MessageFor(live, script, input)
    case AudioChunk(sequence, answer) => IngestAudio(live.session, cfg, sequence, answer).1
    case VideoChunk(sequence, answer) => IngestVideo(live.session, cfg, sequence, answer).1
  }

  function Replay(cfg: Config, script: Script, inputs: seq<Input>): (r: Live)
    ensures L.NonEmpty(r.session.ledger)
  {
    if inputs == [] then Live(NewSession, FreshRuntime)
    else Advance(Replay(cfg, script, inputs[..|inputs| - 1]), cfg, script, inputs[|inputs| - 1])
  }

  // The messages of a replay: it is one of the sessions the other modules speak of.
  function Messages(cfg: Config, script: Script, inputs: seq<Input>): seq<Message> {
    if inputs == [] then []
    else
      var before := inputs[..|inputs| - 1];
      Messages(cfg, script, before) + [MessageFor(Replay(cfg, script, before), script, inputs[|inputs| - 1])]
  }

  lemma {:induction false} ReplayIsRun(cfg: Config, script: Script, inputs: seq<Input>)
    ensures Replay(cfg, script, inputs).session == Run(cfg, Messages(cfg, script, inputs))
    ensures WordsAccepted(script.words) ==> WordsTakeTime(Messages(cfg, script, inputs))
  {
    hide Step, Reaches, Transcription, ProsodyOver;
    if inputs != [] {
      var before, last := inputs[..|inputs| - 1], inputs[|inputs| - 1];
      ReplayIsRun(cfg, script, before);
      var earlier, m := Messages(cfg, script, before), MessageFor(Replay(cfg, script, before), script, last);
      assert (earlier + [m])[..|earlier|] == earlier;
      if WordsAccepted(script.words) { AnswersTakeTime(Replay(cfg, script, before), script, last); }
    }
  }

  lemma AnswersTakeTime(live: Live, script: Script, input: Input)
    requires WordsAccepted(script.words)
    ensures WordsTakeTime([MessageFor(live, script, input)])
  {
  }

  // ----- what arrives -----

  // The sequence numbers audio has used, and the windows that first used them.
  function Numbers(inputs: seq<Input>): set<int> {
    if inputs == [] then {}
    else Numbers(inputs[..|inputs| - 1]) + NumbersIn(inputs[|inputs| - 1])
  }

  function NumbersIn(input: Input): set<int> {
    if input.AudioIn? && input.sequence >= 0 then {input.sequence} else {}
  }

  function FreshWindows(inputs: seq<Input>): seq<AudioWindow> {
    if inputs == [] then []
    else
      var before, last := inputs[..|inputs| - 1], inputs[|inputs| - 1];
      FreshWindows(before) + if NumbersIn(last) <= Numbers(before) then [] else [last.window]
  }

  predicate IsWindow(w: AudioWindow) { w.position >= 0 && w.duration >= 0 }

  ghost predicate AllWindows(ws: seq<AudioWindow>) { forall w :: w in ws ==> IsWindow(w) }

  // ----- what the speaker says -----

  predicate ApartWords(v: WordHypothesis, w: WordHypothesis) { v.end <= w.start || w.end <= v.start }

  predicate WordsAccepted(ws: seq<WordHypothesis>) { forall w :: w in ws ==> AcceptsWord(w) && w.start < w.end }

  // Non-empty words that take time and do not overlap, and events the assembler takes.
  ghost predicate Speakable(script: Script) {
    && WordsAccepted(script.words)
    && (forall i, j :: 0 <= i < j < |script.words| ==> ApartWords(script.words[i], script.words[j]))
    && (forall e :: e in script.events ==> AcceptsEvent(e))
    && script.instabilityTail >= 0
  }

  function TokensOf(a: Assembler, ws: seq<WordHypothesis>): (ts: Tokens)
    requires WordsAccepted(ws)
    ensures |ts| == |ws| && forall k :: 0 <= k < |ws| ==> AcceptsWord(ws[k]) && ts[k] == TokenOf(a, ws[k])
  {
    assert forall k :: 0 <= k < |ws| ==> ws[k] in ws;
    seq(|ws|, k requires 0 <= k < |ws| => TokenOf(a, ws[k]))
  }

  // The script's words as tokens, in time order.
  function Spoken(a: Assembler, script: Script): Tokens
    requires WordsAccepted(script.words)
  {
    Sort(TokensOf(a, script.words), TokenKey)
  }

  // One after another, each taking time, none final.
  ghost predicate OneByOne(ts: Tokens) {
    && Canonical(ts) && PositiveLength(ts) && AllProvisional(ts)
    && forall i, j :: 0 <= i < j < |ts| ==> ts[i].interval.end <= ts[j].interval.start
  }

  predicate Apart(t: WordToken, u: WordToken) { t.interval.end <= u.interval.start || u.interval.end <= t.interval.start }

  lemma TokensAreApart(a: Assembler, script: Script)
    requires Speakable(script)
    ensures Pairwise(TokensOf(a, script.words), Apart)
  {
    var ts := TokensOf(a, script.words);
    forall i, j | 0 <= i < j < |ts| ensures Apart(ts[i], ts[j]) {
      assert ApartWords(script.words[i], script.words[j]);
    }
  }

  lemma SpokenFromWords(a: Assembler, script: Script)
    requires WordsAccepted(script.words)
    ensures forall t :: t in Spoken(a, script) <==> exists w :: w in script.words && AcceptsWord(w) && t == TokenOf(a, w)
  {
    hide TokenOf, Sort;
    var ts := TokensOf(a, script.words);
    SortKeepsElements(ts, TokenKey);
    forall t ensures t in ts <==> exists w :: w in script.words && AcceptsWord(w) && t == TokenOf(a, w) {
      if w :| w in script.words && AcceptsWord(w) && t == TokenOf(a, w) {
        var k :| 0 <= k < |script.words| && script.words[k] == w;
        assert ts[k] == t;
      }
      if t in ts {
        var k :| 0 <= k < |ts| && ts[k] == t;
        assert script.words[k] in script.words;
      }
    }
  }

  lemma SpokenOneByOne(a: Assembler, script: Script)
    requires Speakable(script)
    ensures OneByOne(Spoken(a, script))
  {
    var ts := Spoken(a, script);
    SpokenFromWords(a, script);
    TokensAreApart(a, script);
    PairwiseSort(TokensOf(a, script.words), TokenKey, Apart);
    SortIsSorted(TokensOf(a, script.words), TokenKey);
    hide Spoken, TokensOf;
    forall i, j | 0 <= i < j < |ts| ensures ts[i].interval.end <= ts[j].interval.start {
      assert Apart(ts[i], ts[j]) && KeyLeq(TokenKey(ts[i]), TokenKey(ts[j]));
      assert ts[j] in ts;
    }
  }

  // ----- filtering words and filtering tokens -----

  lemma TokensCons(a: Assembler, w: WordHypothesis, ws: seq<WordHypothesis>)
    requires AcceptsWord(w) && w.start < w.end && WordsAccepted(ws)
    ensures WordsAccepted([w] + ws) && TokensOf(a, [w] + ws) == [TokenOf(a, w)] + TokensOf(a, ws)
  {
    hide TokenOf, AcceptsWord;
  }

  lemma {:induction false} FilterTokens(a: Assembler, ws: seq<WordHypothesis>, p: WordHypothesis -> bool, q: WordToken -> bool)
    requires WordsAccepted(ws) && forall w :: w in ws ==> (p(w) <==> q(TokenOf(a, w)))
    ensures WordsAccepted(Filter(ws, p)) && TokensOf(a, Filter(ws, p)) == Filter(TokensOf(a, ws), q)
  {
    hide TokenOf, TokensOf, AcceptsWord;
    if ws != [] {
      var w, rest := ws[0], ws[1..];
      assert ws == [w] + rest && w in ws;
      FilterTokens(a, rest, p, q);
      TokensCons(a, w, rest);
      assert ([TokenOf(a, w)] + TokensOf(a, rest))[1..] == TokensOf(a, rest);
      if p(w) { TokensCons(a, w, Filter(rest, p)); }
    }
  }

  function TokensActive(from: int, until: int): WordToken -> bool {
    (t: WordToken) => t.interval.end > from && t.interval.start < until
  }

  // What one window reports, sorted, is the active part of what was said.
  lemma ActiveTokens(a: Assembler, script: Script, from: int, until: int)
    requires WordsAccepted(script.words)
    ensures var ws := Filter(script.words, WordsActive(from, until));
            WordsAccepted(ws) && Sort(TokensOf(a, ws), TokenKey) == Filter(Spoken(a, script), TokensActive(from, until))
  {
    FilterTokens(a, script.words, WordsActive(from, until), TokensActive(from, until));
    FilterSort(TokensOf(a, script.words), TokenKey, TokensActive(from, until));
  }

  // ----- one window -----

  // The transcript holds, final, exactly what was said up to the mark; anything
  // else it holds was said later.
  ghost predicate Mirrors(ts: Tokens, said: Tokens, mark: int) {
    && Canonical(ts)
    && FinalTokens(ts) == Finalized(Settled(said, mark))
    && forall t :: t in ts && !t.isFinal ==> t in said && t.interval.end > mark
  }

  lemma FinalsAreSaid(ts: Tokens, said: Tokens, mark: int, t: WordToken) returns (u: WordToken)
    requires Mirrors(ts, said, mark) && t in FinalTokens(ts)
    ensures u in said && u.interval.end <= mark && u.Finalize() == t
  {
    var settled := Settled(said, mark);
    var k :| 0 <= k < |settled| && Finalized(settled)[k] == t;
    u := settled[k];
    assert u in settled;
  }

  lemma FrontierBehindMark(ts: Tokens, said: Tokens, mark: nat)
    requires Mirrors(ts, said, mark) && PositiveLength(said)
    ensures Frontier(ts) <= mark && PositiveLength(FinalTokens(ts))
  {
    hide Settled, Finalized, FinalTokens;
    forall t | t in FinalTokens(ts) ensures t.interval.start < t.interval.end <= mark {
      var u := FinalsAreSaid(ts, said, mark, t);
    }
  }

  // Nothing said after the mark starts before the frontier.
  lemma ActiveAfterFrontier(ts: Tokens, said: Tokens, mark: nat, t: WordToken)
    requires Mirrors(ts, said, mark) && OneByOne(said) && t in said && t.interval.end > mark
    ensures t.interval.start >= Frontier(ts)
  {
    hide Settled, Finalized, FinalTokens;
    if FinalTokens(ts) != [] {
      var end := LatestEnd(FinalTokens(ts));
      var f :| f in FinalTokens(ts) && f.interval.end == end;
      var u := FinalsAreSaid(ts, said, mark, f);
      var i :| 0 <= i < |said| && said[i] == u;
      var j :| 0 <= j < |said| && said[j] == t;
    }
  }

  lemma WindowAccepted(ts: Tokens, said: Tokens, mark: nat, until: int, incoming: Tokens)
    requires Mirrors(ts, said, mark) && OneByOne(said)
    requires Sort(incoming, TokenKey) == Filter(said, TokensActive(mark, until))
    ensures WithProvisional(ts, incoming).Ok?
    ensures AllProvisional(incoming) && PositiveLength(incoming)
  {
    hide Frontier, Sort;
    SortKeepsElements(incoming, TokenKey);
    forall t | t in Sort(incoming, TokenKey) ensures t.interval.start >= Frontier(ts) {
      ActiveAfterFrontier(ts, said, mark, t);
    }
  }

  lemma RestOneByOne(said: Tokens)
    requires OneByOne(said) && said != []
    ensures OneByOne(said[1..])
  {
    assert said == [said[0]] + said[1..];
    assert forall k :: 0 <= k < |said[1..]| ==> said[1..][k] == said[k + 1];
    hide KeyLeq;
  }

  // What was settled, and what the window settles, is what is settled afterwards.
  lemma {:induction false} SettledSplit(said: Tokens, mark: int, until: int, stable: int)
    requires OneByOne(said) && stable <= until
    ensures Settled(said, mark) + Settled(Filter(said, TokensActive(mark, until)), stable) == Settled(said, Max(mark, stable))
  {
    hide Canonical;
    if said != [] {
      assert said == [said[0]] + said[1..];
      if said[0].interval.end <= mark {
        RestOneByOne(said);
        SettledSplit(said[1..], mark, until, stable);
      } else {
        forall t | t in said ensures t.interval.end > mark && t.interval.start < t.interval.end {
          var k :| 0 <= k < |said| && said[k] == t;
          if k > 0 { assert said[0].interval.end <= said[k].interval.start; }
        }
        LateSplit(said, mark, until, stable);
      }
    }
  }

  lemma LateSplit(said: Tokens, mark: int, until: int, stable: int)
    requires forall t :: t in said ==> t.interval.end > mark && t.interval.start < t.interval.end
    requires stable <= until
    ensures Settled(said, mark) + Settled(Filter(said, TokensActive(mark, until)), stable) == Settled(said, Max(mark, stable))
  {
    FilterNone(said, (t: WordToken) => t.interval.end <= mark);
    FilterTwice(said, TokensActive(mark, until), stable);
    if stable <= mark {
      FilterNone(said, (t: WordToken) => TokensActive(mark, until)(t) && t.interval.end <= stable);
      assert Settled(said, Max(mark, stable)) == Settled(said, mark);
    } else {
      SameFilter(said, (t: WordToken) => TokensActive(mark, until)(t) && t.interval.end <= stable, (t: WordToken) => t.interval.end <= stable);
      assert Max(mark, stable) == stable;
    }
  }

  lemma {:induction false} FilterTwice(ts: Tokens, p: WordToken -> bool, stable: int)
    ensures Settled(Filter(ts, p), stable) == Filter(ts, (t: WordToken) => p(t) && t.interval.end <= stable)
  {
    if ts != [] {
      FilterTwice(ts[1..], p, stable);
      if p(ts[0]) { assert ([ts[0]] + Filter(ts[1..], p))[1..] == Filter(ts[1..], p); }
    }
  }

  // The window keeps the mirror, up to the mark it reaches.
  lemma WindowMirrors(ts: Tokens, said: Tokens, mark: nat, until: int, stable: int, incoming: Tokens)
    requires Mirrors(ts, said, mark) && OneByOne(said) && stable <= until
    requires Sort(incoming, TokenKey) == Filter(said, TokensActive(mark, until))
    ensures Reconcile(ts, incoming, stable).Ok?
    ensures Mirrors(Reconcile(ts, incoming, stable).tokens, said, Max(mark, stable))
  {
    hide Sort, Filter, Frontier, WithProvisional;
    WindowAccepted(ts, said, mark, until, incoming);
    FrontierBehindMark(ts, said, mark);
    ReconcileNeverMovesBackwards(ts, incoming, stable);
    HistoryGrows(ts, incoming, stable);
    WindowFinals(said, mark, until, stable, Frontier(ts), Filter(said, TokensActive(mark, until)));
    WindowTail(ts, said, mark, until, stable, incoming);
  }

  lemma WindowFinals(said: Tokens, mark: nat, until: int, stable: int, frontier: nat, active: Tokens)
    requires OneByOne(said) && stable <= until && frontier <= mark && active == Filter(said, TokensActive(mark, until))
    ensures Finalized(Settled(said, mark)) + (if stable <= frontier then [] else Finalized(Settled(active, stable))) ==
            Finalized(Settled(said, Max(mark, stable)))
  {
    hide Settled, Filter;
    if stable <= frontier {
      assert Finalized(Settled(said, mark)) + [] == Finalized(Settled(said, mark));
    } else {
      SettledSplit(said, mark, until, stable);
      assert Finalized(Settled(said, mark) + Settled(active, stable)) ==
             Finalized(Settled(said, mark)) + Finalized(Settled(active, stable));
    }
  }

  lemma WindowTail(ts: Tokens, said: Tokens, mark: nat, until: int, stable: int, incoming: Tokens)
    requires Mirrors(ts, said, mark) && PositiveLength(FinalTokens(ts)) && Frontier(ts) <= mark
    requires Sort(incoming, TokenKey) == Filter(said, TokensActive(mark, until))
    requires Reconcile(ts, incoming, stable).Ok? && AllProvisional(incoming)
    ensures forall t :: t in Reconcile(ts, incoming, stable).tokens && !t.isFinal ==>
              t in said && t.interval.end > Max(mark, stable)
  {
    hide Sort, Frontier;
    ProvisionalShape(ts, incoming);
    ProvisionalKeepsFinals(ts, incoming);
    var next := WithProvisional(ts, incoming).tokens;
    var after := Reconcile(ts, incoming, stable).tokens;
    hide WithProvisional;
    forall t | t in next && !t.isFinal ensures t in said && t.interval.end > mark {
      assert t in Filter(said, TokensActive(mark, until));
    }
    if stable > Frontier(ts) {
      forall t | t in after && !t.isFinal ensures t in said && t.interval.end > Max(mark, stable) {
        var k :| 0 <= k < |after| && after[k] == t;
        assert t == Promote(next[k], stable) && t == next[k];
        assert next[k] in next;
      }
    }
  }

  // ----- one input -----

  // Arrival of an audio window when nothing is in flight.
  lemma ArrivalShape(s: Snapshot, cfg: Config, sequence: int)
    requires s.inFlight == 0 < cfg.maxQueueDepth
    ensures Begin(s, cfg, L.Audio, sequence).1.Started? <==> sequence >= 0 && sequence !in s.audioChunks.accepted
    ensures Begin(s, cfg, L.Audio, sequence).1 != Refused
    ensures Begin(s, cfg, L.Audio, sequence).0.audioChunks.accepted ==
            s.audioChunks.accepted + if sequence >= 0 then {sequence} else {}
  {
  }

  lemma AbsorbKeepsChunks(s: Snapshot, cfg: Config, a: Assembled)
    requires L.NonEmpty(s.ledger)
    ensures Absorb(s, cfg, a).Some? ==> Absorb(s, cfg, a).value.audioChunks == s.audioChunks
  {
    hide WithProvisional, PutAll, Publish, Frontier, DerivePauses, RecordAll, NewlyFinal, FinalizeEvents, PromoteAll, FinalTokens;
  }

  lemma AudioKeepsChunks(s: Snapshot, cfg: Config, sequence: int, answer: SpeechAnswer)
    requires L.NonEmpty(s.ledger)
    ensures IngestAudio(s, cfg, sequence, answer).0.audioChunks == Begin(s, cfg, L.Audio, sequence).0.audioChunks
  {
    hide Begin, Absorb, Assemble, Frontier;
    I.BeginShape(s, cfg, L.Audio, sequence);
    match answer
    case SpeechFailed =>
    case Transcribed(result) =>
      var assembled := Assemble(cfg.assembler, result);
      if assembled.Some? { AbsorbKeepsChunks(Returned(Begin(s, cfg, L.Audio, sequence).0), cfg, assembled.value); }
  }

  // The assembler takes whatever the runtime answers for a proper window.
  lemma AnswerAssembles(a: Assembler, script: Script, stable: int, w: AudioWindow)
    requires Speakable(script) && IsWindow(w)
    ensures var r := ResultFor(script, stable, w);
            && Assemble(a, r).Some?
            && WordsAccepted(r.words)
            && Assemble(a, r).value.tokens == TokensOf(a, r.words)
            && Assemble(a, r).value.stableThrough == StableThrough(script, w)
  {
    hide TokenOf, EventOf, ReadingOf, AcceptsWord, AcceptsEvent;
    var r := ResultFor(script, stable, w);
    assert Accepts(r);
  }

  // A window that is answered: nothing is refused, and the mirror is kept.
  lemma AnsweredWindow(s: Snapshot, cfg: Config, script: Script, mark: nat, sequence: int, w: AudioWindow)
    requires L.NonEmpty(s.ledger) && Speakable(script) && IsWindow(w)
    requires Begin(s, cfg, L.Audio, sequence).1.Started?
    requires Mirrors(s.transcript, Spoken(cfg.assembler, script), mark)
    ensures var r := IngestAudio(s, cfg, sequence, Transcribed(ResultFor(script, mark, w)));
            && r.1.Finished?
            && Mirrors(r.0.transcript, Spoken(cfg.assembler, script), Max(mark, StableThrough(script, w)))
  {
    hide Mirrors, Begin, Assemble, FinalizeStep, ResultFor, Spoken, PutAll, Reconcile, WithProvisional, Heard;
    var m := AudioChunk(sequence, Transcribed(ResultFor(script, mark, w)));
    var said := Spoken(cfg.assembler, script);
    AnswerAssembles(cfg.assembler, script, mark, w);
    ActiveAnswer(cfg.assembler, script, mark, w);
    var a := Assemble(cfg.assembler, m.speech.result).value;
    SpokenOneByOne(cfg.assembler, script);
    WindowMirrors(s.transcript, said, mark, w.End(), StableThrough(script, w), a.tokens);
    ReconcileNeverMovesBackwards(s.transcript, a.tokens, a.stableThrough);
    assert Absorbed(s, cfg, m) == Some(a);
    StepShape(s, cfg, m);
    AbsorbedTranscript(s, cfg, a);
    FinishedWhenAbsorbed(s, cfg, sequence, m.speech.result, a);
  }

  lemma ActiveAnswer(a: Assembler, script: Script, stable: int, w: AudioWindow)
    requires WordsAccepted(script.words)
    ensures WordsAccepted(ResultFor(script, stable, w).words)
    ensures Sort(TokensOf(a, ResultFor(script, stable, w).words), TokenKey) ==
            Filter(Spoken(a, script), TokensActive(stable, w.End()))
  {
    hide TokensOf, Spoken, WordsAccepted, Sort, Filter;
    ActiveTokens(a, script, stable, w.End());
  }

  lemma FinishedWhenAbsorbed(s: Snapshot, cfg: Config, sequence: int, r: SpeechResult, a: Assembled)
    requires L.NonEmpty(s.ledger) && Begin(s, cfg, L.Audio, sequence).1.Started?
    requires Assemble(cfg.assembler, r) == Some(a) && WithProvisional(s.transcript, a.tokens).Ok?
    ensures IngestAudio(s, cfg, sequence, Transcribed(r)).1.Finished?
  {
    hide Begin, Assemble, WithProvisional, FinalizeStep, PutAll;
    I.BeginShape(s, cfg, L.Audio, sequence);
    BackKeepsEvidence(s, cfg, AudioChunk(sequence, Transcribed(r)));
  }

  // ----- whole sessions -----

  ghost predicate InStep(live: Live, cfg: Config, script: Script, inputs: seq<Input>)
    requires WordsAccepted(script.words)
  {
    && live.session.inFlight == 0
    && live.session.audioChunks.accepted == Numbers(inputs)
    && live.runtime == Drive(script, FreshWindows(inputs))
    && live.runtime.stable >= 0
    && Mirrors(live.session.transcript, Spoken(cfg.assembler, script), live.runtime.stable)
  }

  lemma SilentInput(live: Live, cfg: Config, script: Script, input: Input)
    requires L.NonEmpty(live.session.ledger) && live.session.inFlight == 0 < cfg.maxQueueDepth
    requires Reaches(live, cfg, input) ==> FailsAt(script, live.runtime.windowsSeen + 1)
    ensures Advance(live, cfg, script, input).session.transcript == live.session.transcript
    ensures OutcomeOf(live, cfg, script, input) != Violation
  {
    hide IngestVideo, Begin, Frontier, Absorb, Assemble, ResultFor;
    var m := MessageFor(live, script, input);
    if input.VideoIn? {
      I.VideoLeavesAudio(live.session, cfg, input.sequence, input.vision);
      VideoIsNoViolation(live.session, cfg, input.sequence, input.vision);
    } else {
      assert Absorbed(live.session, cfg, m).None?;
      StepShape(live.session, cfg, m);
    }
  }

  lemma VideoIsNoViolation(s: Snapshot, cfg: Config, sequence: int, vision: VisionAnswer)
    requires L.NonEmpty(s.ledger)
    ensures IngestVideo(s, cfg, sequence, vision).1 != Violation
  {
    hide Begin;
  }

  lemma InputKeepsQueue(live: Live, cfg: Config, script: Script, input: Input)
    requires L.NonEmpty(live.session.ledger) && live.session.inFlight == 0 < cfg.maxQueueDepth
    ensures var after := Advance(live, cfg, script, input).session;
            after.inFlight == 0 && after.audioChunks.accepted == live.session.audioChunks.accepted + NumbersIn(input)
    ensures Reaches(live, cfg, input) <==> !(NumbersIn(input) <= live.session.audioChunks.accepted)
  {
    hide Begin, IngestAudio, IngestVideo, Transcription;
    if input.VideoIn? {
      I.VideoLeavesAudio(live.session, cfg, input.sequence, input.vision);
    } else {
      var answer := Transcription(script, live.runtime, input.window).1;
      ArrivalShape(live.session, cfg, input.sequence);
      AudioKeepsChunks(live.session, cfg, input.sequence, answer);
      I.AudioLeavesVideo(live.session, cfg, input.sequence, answer);
    }
  }

  // Each input keeps everything in step, and none is refused as a violation.
  lemma InputKeepsStep(live: Live, cfg: Config, script: Script, before: seq<Input>, input: Input)
    requires L.NonEmpty(live.session.ledger) && cfg.maxQueueDepth >= 1 && Speakable(script)
    requires InStep(live, cfg, script, before)
    requires Reaches(live, cfg, input) ==> IsWindow(input.window)
    ensures InStep(Advance(live, cfg, script, input), cfg, script, before + [input])
    ensures OutcomeOf(live, cfg, script, input) != Violation
  {
    hide Mirrors, Spoken, IngestAudio, IngestVideo, ResultFor, StableThrough, Begin, Speakable;
    var inputs := before + [input];
    assert inputs[..|inputs| - 1] == before;
    InputKeepsQueue(live, cfg, script, input);
    if Reaches(live, cfg, input) && !FailsAt(script, live.runtime.windowsSeen + 1) {
      AnsweredWindow(live.session, cfg, script, live.runtime.stable, input.sequence, input.window);
    } else {
      SilentInput(live, cfg, script, input);
    }
    var windows := FreshWindows(before);
    if Reaches(live, cfg, input) {
      assert (windows + [input.window])[..|windows|] == windows;
    } else {
      assert windows + [] == windows;
    }
  }

  ghost predicate NothingRefused(cfg: Config, script: Script, inputs: seq<Input>) {
    forall k :: 0 <= k < |inputs| ==> OutcomeOf(Replay(cfg, script, inputs[..k]), cfg, script, inputs[k]) != Violation
  }

  lemma {:induction false} ReplayKeepsStep(cfg: Config, script: Script, inputs: seq<Input>)
    requires cfg.maxQueueDepth >= 1 && Speakable(script) && AllWindows(FreshWindows(inputs))
    ensures InStep(Replay(cfg, script, inputs), cfg, script, inputs)
    ensures NothingRefused(cfg, script, inputs)
  {
    hide Speakable, Mirrors, Spoken, OutcomeOf, Advance;
    if inputs == [] {
      NothingSaidYet(cfg.assembler, script);
    } else {
      var before, last := inputs[..|inputs| - 1], inputs[|inputs| - 1];
      var live := Replay(cfg, script, before);
      assert inputs == before + [last];
      ReplayKeepsStep(cfg, script, before);
      InputKeepsQueue(live, cfg, script, last);
      InputKeepsStep(live, cfg, script, before, last);
      forall k | 0 <= k < |inputs| ensures OutcomeOf(Replay(cfg, script, inputs[..k]), cfg, script, inputs[k]) != Violation {
        if k < |before| { assert inputs[..k] == before[..k] && inputs[k] == before[k]; }
      }
    }
  }

  lemma NothingSaidYet(a: Assembler, script: Script)
    requires Speakable(script)
    ensures Mirrors([], Spoken(a, script), 0)
  {
    SpokenOneByOne(a, script);
    FilterNone(Spoken(a, script), (t: WordToken) => t.interval.end <= 0);
  }

  // How far the speech runtime has declared a session stable.
  function SessionMark(script: Script, inputs: seq<Input>): int {
    StableMark(script, Answered(script, FreshWindows(inputs)))
  }

  // At every point of every session, failing runtime included: no transcript
  // rule has been broken, and the final transcript is exactly what was said up
  // to the furthest point declared stable.
  lemma FinalIsWhatWasSettled(cfg: Config, script: Script, inputs: seq<Input>)
    requires cfg.maxQueueDepth >= 1 && Speakable(script) && AllWindows(FreshWindows(inputs))
    ensures NothingRefused(cfg, script, inputs)
    ensures FinalTokens(Replay(cfg, script, inputs).session.transcript) ==
            Finalized(Settled(Spoken(cfg.assembler, script), SessionMark(script, inputs)))
  {
    hide Spoken, Settled, Speakable, Answered, FinalTokens;
    ReplayKeepsStep(cfg, script, inputs);
    DriveReachesMark(script, FreshWindows(inputs));
  }

  lemma {:induction false} FilterShortens(ts: Tokens, p: WordToken -> bool)
    ensures |Filter(ts, p)| <= |ts|
    ensures |Filter(ts, p)| == |ts| ==> forall t :: t in ts ==> p(t)
  {
    if ts != [] { FilterShortens(ts[1..], p); }
  }

  lemma MirrorIsComplete(ts: Tokens, said: Tokens, mark: int)
    requires Mirrors(ts, said, mark)
    ensures ts == Finalized(said) <==> forall t :: t in said ==> t.interval.end <= mark
  {
    var p := (t: WordToken) => t.interval.end <= mark;
    if forall t :: t in said ==> t.interval.end <= mark {
      FilterAll(said, p);
      FilterAll(ts, IsFinal);
      assert Settled(said, mark) == said;
    }
    if ts == Finalized(said) {
      FilterAll(ts, IsFinal);
      FilterShortens(said, p);
      assert |Settled(said, mark)| == |said|;
    }
  }

  lemma SpokenEnds(a: Assembler, script: Script, mark: int)
    requires WordsAccepted(script.words)
    ensures (forall t :: t in Spoken(a, script) ==> t.interval.end <= mark) <==>
            (forall w :: w in script.words ==> w.end <= mark)
  {
    SpokenFromWords(a, script);
    forall w | w in script.words && forall t :: t in Spoken(a, script) ==> t.interval.end <= mark ensures w.end <= mark {
      assert TokenOf(a, w) in Spoken(a, script);
    }
  }

  // The transcript is exactly the script's words in time order, all of them
  // final, if and only if some answered window declared the last of them stable.
  lemma NoWordIsLostExactly(cfg: Config, script: Script, inputs: seq<Input>)
    requires cfg.maxQueueDepth >= 1 && Speakable(script) && AllWindows(FreshWindows(inputs))
    ensures Replay(cfg, script, inputs).session.transcript == Finalized(Spoken(cfg.assembler, script)) <==>
            forall w :: w in script.words ==> w.end <= SessionMark(script, inputs)
  {
    hide Mirrors, Spoken, Answered, Replay, NothingRefused;
    ReplayKeepsStep(cfg, script, inputs);
    DriveReachesMark(script, FreshWindows(inputs));
    MirrorIsComplete(Replay(cfg, script, inputs).session.transcript, Spoken(cfg.assembler, script), SessionMark(script, inputs));
    SpokenEnds(cfg.assembler, script, SessionMark(script, inputs));
  }

  // With a runtime that does not fail, one final window that covers the script
  // is enough, whatever the order and overlap of the windows.
  lemma NoWordIsLost(cfg: Config, script: Script, inputs: seq<Input>, last: AudioWindow)
    requires cfg.maxQueueDepth >= 1 && Speakable(script) && script.failAfter.None? && AllWindows(FreshWindows(inputs))
    requires last in FreshWindows(inputs) && last.isFinal && forall w :: w in script.words ==> w.end <= last.End()
    ensures NothingRefused(cfg, script, inputs)
    ensures Replay(cfg, script, inputs).session.transcript == Finalized(Spoken(cfg.assembler, script))
  {
    hide Replay, NothingRefused, Spoken, FreshWindows, AllWindows, StableMark;
    ReplayKeepsStep(cfg, script, inputs);
    NoWordIsLostExactly(cfg, script, inputs);
    MarkIsLargest(script, FreshWindows(inputs));
  }
}
