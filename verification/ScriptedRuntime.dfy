// The deterministic speech runtime: a script replayed window by window, with a
// tail that stays revisable.
module ScriptedRuntime {
  import opened Taxonomy
  import opened Arithmetic
  import opened Ordering
  import opened SpeechAssembly
  import opened Streaming

  datatype Script = Script(
    words: seq<WordHypothesis>, events: seq<EventHypothesis>, modelVersion: string, instabilityTail: int,
    failAfter: Option<int>)

  datatype AudioWindow = AudioWindow(position: int, duration: int, isFinal: bool)
  {
    function End(): int { position + duration }
  }

  datatype RuntimeState = RuntimeState(windowsSeen: nat, stable: int)

  const FreshRuntime := RuntimeState(0, 0)

  function StableThrough(script: Script, w: AudioWindow): int {
    if w.isFinal then w.End() else Max(0, w.End() - script.instabilityTail)
  }

  // The active region: not yet declared stable, and heard by the end of the window.
  function WordsActive(from: int, until: int): WordHypothesis -> bool {
    (w: WordHypothesis) => w.end > from && w.start < until
  }

  function EventsActive(from: int, until: int): EventHypothesis -> bool {
    (e: EventHypothesis) => e.end > from && e.start < until
  }

  function ProsodyOver(script: Script, start: int, end: int): seq<ProsodyHypothesis> {
    var hasSpeech := exists w :: w in script.words && start <= w.start < end;
    [ProsodyHypothesis("mean_intensity_db", start, end, Some(if hasSpeech then -22.5 else -60.0), 0.9),
     ProsodyHypothesis("pitch_mean_hz", start, end, if hasSpeech then Some(132.0) else None, if hasSpeech then 0.8 else 0.0),
     ProsodyHypothesis("voiced_ratio", start, end, Some(if hasSpeech then 0.74 else 0.0), 0.95)]
  }

  predicate FailsAt(script: Script, windowsSeen: int) {
    script.failAfter.Some? && windowsSeen > script.failAfter.value
  }

  function ResultFor(script: Script, stable: int, w: AudioWindow): SpeechResult {
    SpeechResult(
      script.modelVersion,
      Filter(script.words, WordsActive(stable, w.End())),
      Filter(script.events, EventsActive(stable, w.End())),
      ProsodyOver(script, w.position, w.End()),
      StableThrough(script, w))
  }

  // One window: the runtime afterwards, and its answer.
  function Transcription(script: Script, rt: RuntimeState, w: AudioWindow): (RuntimeState, SpeechAnswer) {
    var seen := rt.windowsSeen + 1;
    if FailsAt(script, seen) then (RuntimeState(seen, rt.stable), SpeechFailed)
    else (RuntimeState(seen, Max(rt.stable, StableThrough(script, w))), Transcribed(ResultFor(script, rt.stable, w)))
  }

  class DeterministicSpeechRuntime {
    const script: Script
    var windowsSeen: nat
    var stable: int

    ghost function State(): RuntimeState
      reads this
    {
      RuntimeState(windowsSeen, stable)
    }

    constructor (script: Script)
      ensures this.script == script && State() == FreshRuntime
    {
      this.script := script;
      windowsSeen := 0;
      stable := 0;
    }

    method Transcribe(window: AudioWindow) returns (answer: SpeechAnswer)
      modifies this
      ensures (State(), answer) == Transcription(script, old(State()), window)
    {
      windowsSeen := windowsSeen + 1;
      if script.failAfter.Some? && windowsSeen > script.failAfter.value {
        return SpeechFailed;
      }
      var windowEnd := window.position + window.duration;
      var activeFrom := stable;
      var words := Filter(script.words, WordsActive(activeFrom, windowEnd));
      var events := Filter(script.events, EventsActive(activeFrom, windowEnd));
      var stableThrough := StableThrough(script, window);
      stable := Max(stable, stableThrough);
      answer := Transcribed(
        SpeechResult(script.modelVersion, words, events, ProsodyOver(script, window.position, windowEnd), stableThrough));
    }
  }

  // ----- an answer, item by item -----

  function WordHeard(script: Script, from: int, until: int): nat -> bool {
    (k: nat) => k < |script.words| && script.words[k].end > from && script.words[k].start < until
  }

  function EventHeard(script: Script, from: int, until: int): nat -> bool {
    (k: nat) => k < |script.events| && script.events[k].end > from && script.events[k].start < until
  }

  // Pitch is absent over a window in which no word starts; what is measured then
  // is silence.
  ghost predicate ProsodySays(ps: seq<ProsodyHypothesis>, script: Script, start: int, end: int) {
    && |ps| == 3 && (forall k :: 0 <= k < 3 ==> ps[k].start == start && ps[k].end == end)
    && ps[0].indicator == "mean_intensity_db" && ps[1].indicator == "pitch_mean_hz" && ps[2].indicator == "voiced_ratio"
    && ps[0].score == 0.9 && ps[2].score == 0.95
    && if exists k :: 0 <= k < |script.words| && start <= script.words[k].start < end
       then ps[0].value == Some(-22.5) && ps[1].value == Some(132.0) && ps[1].score == 0.8 && ps[2].value == Some(0.74)
       else ps[0].value == Some(-60.0) && ps[1].value == None && ps[1].score == 0.0 && ps[2].value == Some(0.0)
  }

  // What the runtime answers: the words and events of the script that end after
  // the point declared stable and start before the window's end, in order.
  ghost predicate AnswerSays(r: SpeechResult, script: Script, stable: int, w: AudioWindow, ws: seq<nat>, es: seq<nat>) {
    var end := w.position + w.duration;
    && r.modelVersion == script.modelVersion
    && Lists(ws, |script.words|, WordHeard(script, stable, end)) && Picks(r.words, script.words, ws)
    && Lists(es, |script.events|, EventHeard(script, stable, end)) && Picks(r.events, script.events, es)
    && ProsodySays(r.prosody, script, w.position, end)
    && (w.isFinal ==> r.stableThrough == end)
    && (!w.isFinal ==> r.stableThrough >= 0 && r.stableThrough >= end - script.instabilityTail
                       && r.stableThrough in {0, end - script.instabilityTail})
  }

  lemma AnswersExactly(script: Script, rt: RuntimeState, w: AudioWindow) returns (ws: seq<nat>, es: seq<nat>)
    ensures var (rt', answer) := Transcription(script, rt, w);
            && rt'.windowsSeen == rt.windowsSeen + 1
            && (answer.SpeechFailed? <==> script.failAfter.Some? && rt.windowsSeen + 1 > script.failAfter.value)
            && (answer.SpeechFailed? ==> rt'.stable == rt.stable)
            && (answer.Transcribed? ==>
                  && AnswerSays(answer.result, script, rt.stable, w, ws, es)
                  && rt'.stable >= rt.stable && rt'.stable >= answer.result.stableThrough
                  && rt'.stable in {rt.stable, answer.result.stableThrough})
  {
    var end := w.End();
    ws := FilterLists(script.words, WordsActive(rt.stable, end));
    es := FilterLists(script.events, EventsActive(rt.stable, end));
    ListsSame(ws, |script.words|, Where(script.words, WordsActive(rt.stable, end)), WordHeard(script, rt.stable, end));
    ListsSame(es, |script.events|, Where(script.events, EventsActive(rt.stable, end)), EventHeard(script, rt.stable, end));
    hide Lists, Picks, Filter;
    ProsodyIsHonest(script, w.position, end);
    hide ProsodyOver, ProsodySays;
  }

  lemma ProsodyIsHonest(script: Script, start: int, end: int)
    ensures ProsodySays(ProsodyOver(script, start, end), script, start, end)
  {
    if w :| w in script.words && start <= w.start < end {
      var k :| 0 <= k < |script.words| && script.words[k] == w;
    }
    if k :| 0 <= k < |script.words| && start <= script.words[k].start < end {
      assert script.words[k] in script.words;
    }
  }

  // ----- the runtime over a list of windows -----

  function Drive(script: Script, windows: seq<AudioWindow>): RuntimeState {
    if windows == [] then FreshRuntime
    else Transcription(script, Drive(script, windows[..|windows| - 1]), windows[|windows| - 1]).0
  }

  // The windows answered before the scripted failure.
  function Answered(script: Script, windows: seq<AudioWindow>): seq<AudioWindow> {
    if script.failAfter.Some? && script.failAfter.value < |windows|
    then windows[..Max(0, script.failAfter.value)] else windows
  }

  // The furthest point declared stable over some windows.
  function StableMark(script: Script, windows: seq<AudioWindow>): int {
    if windows == [] then 0
    else Max(StableMark(script, windows[..|windows| - 1]), StableThrough(script, windows[|windows| - 1]))
  }

  lemma {:induction false} DriveReachesMark(script: Script, windows: seq<AudioWindow>)
    ensures Drive(script, windows) == RuntimeState(|windows|, StableMark(script, Answered(script, windows)))
  {
    if windows != [] {
      var before := windows[..|windows| - 1];
      DriveReachesMark(script, before);
      if FailsAt(script, |windows|) {
        assert Answered(script, windows) == Answered(script, before);
      } else {
        assert Answered(script, windows) == windows && Answered(script, before) == before;
      }
    }
  }

  // The mark is the largest of zero and the windows' stable points.
  lemma {:induction false} MarkIsLargest(script: Script, windows: seq<AudioWindow>)
    ensures forall w :: w in windows ==> StableThrough(script, w) <= StableMark(script, windows)
    ensures StableMark(script, windows) == 0 || exists w :: w in windows && StableThrough(script, w) == StableMark(script, windows)
    ensures StableMark(script, windows) >= 0
  {
    if windows != [] {
      var before, last := windows[..|windows| - 1], windows[|windows| - 1];
      MarkIsLargest(script, before);
      assert windows == before + [last] && last in windows;
    }
  }
}
