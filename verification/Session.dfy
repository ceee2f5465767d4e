// The session lifecycle and its clock: captured time, not elapsed time.
module Session {
  import opened Taxonomy

  // ----- the state machine -----

  datatype State = Created | Capturing | Paused | Completing | Completed | Failed | EvidenceDeleted

  function Allowed(s: State): set<State> {
    match s
    case Created => {Capturing, Failed, EvidenceDeleted}
    case Capturing => {Paused, Completing, Failed}
    case Paused => {Capturing, Completing, Failed}
    case Completing => {Completed, Failed}
    case Completed => {EvidenceDeleted}
    case Failed => {EvidenceDeleted}
    case EvidenceDeleted => {}
  }

  predicate IsTerminal(s: State) { Allowed(s) == {} }

  predicate AcceptsMedia(s: State) { s == Capturing }

  // ----- the clock -----

  datatype SessionClock = SessionClock(accumulatedMs: nat, segmentStartedAt: Option<int>)
  {
    predicate IsRunning() { segmentStartedAt.Some? }

    function Start(wall: int): SessionClock {
      if IsRunning() then this else SessionClock(accumulatedMs, Some(wall))
    }

    function Pause(wall: int): SessionClock {
      if segmentStartedAt.None? then this else SessionClock(Now(wall), None)
    }

    function Now(wall: int): nat {
      match segmentStartedAt
      case None => accumulatedMs
      case Some(started) => accumulatedMs + Elapsed(started, wall)
    }
  }

  function Elapsed(started: int, wall: int): nat { if wall >= started then wall - started else 0 }

  // ----- consent -----

  datatype ConsentReceipt = ConsentReceipt(sessionId: string, grantedAt: nat, withdrawnAt: Option<int>)
  {
    predicate IsActive() { withdrawnAt.None? }
  }

  // ----- the aggregate -----

  datatype AnalysisSession = AnalysisSession(
    id: string, state: State, clock: SessionClock, consent: Option<ConsentReceipt>, completedAt: Option<int>)

  datatype Error = IllegalTransition(source: State, target: State) | ConsentViolation

  datatype Result = Ok(session: AnalysisSession) | Refused(error: Error)

  datatype Op =
    | WithConsent(receipt: ConsentReceipt)
    | BeginCapture(wall: int) | PauseCapture(wall: int) | ResumeCapture(wall: int)
    | RequestCompletion(wall: int) | MarkCompleted(wall: int) | Fail(wall: int)
    | MarkEvidenceDeleted(wall: int)
  {
    // The state the operation asks to move to, if it is a transition.
    function Target(): Option<State> {
      match this
      case WithConsent(_) => None
      case BeginCapture(_) => Some(Capturing)
      case PauseCapture(_) => Some(Paused)
      case ResumeCapture(_) => Some(Capturing)
      case RequestCompletion(_) => Some(Completing)
      case MarkCompleted(_) => Some(Completed)
      case Fail(_) => Some(Failed)
      case MarkEvidenceDeleted(_) => Some(EvidenceDeleted)
    }

    function Wall(): Option<int> {
      match this
      case WithConsent(_) => None
      case _ => Some(wall)
    }
  }

  function NewSession(id: string): AnalysisSession {
    AnalysisSession(id, Created, SessionClock(0, None), None, None)
  }

  predicate HasActiveConsent(s: AnalysisSession) { s.consent.Some? && s.consent.value.IsActive() }

  function Transition(s: AnalysisSession, target: State): Result {
    if target in Allowed(s.state) then Ok(s.(state := target)) else Refused(IllegalTransition(s.state, target))
  }

  function Perform(s: AnalysisSession, op: Op): Result {
    match op
    case WithConsent(receipt) =>
      if receipt.sessionId != s.id then Refused(ConsentViolation) else Ok(s.(consent := Some(receipt)))
    case BeginCapture(wall) => Capture(s, wall)
    case ResumeCapture(wall) => Capture(s, wall)
    case PauseCapture(wall) => Suspend(s, Paused, wall)
    case RequestCompletion(wall) => Suspend(s, Completing, wall)
    case MarkCompleted(wall) =>
      var r := Transition(s, Completed);
      if r.Refused? then r else Ok(r.session.(completedAt := Some(wall)))
    case Fail(wall) =>
      var r := Suspend(s, Failed, wall);
      if r.Refused? then r else Ok(r.session.(completedAt := Some(wall)))
    case MarkEvidenceDeleted(wall) =>
      var r := Transition(s, EvidenceDeleted);
      if r.Refused? then r
      else if !HasActiveConsent(s) then r
      else if wall < s.consent.value.grantedAt then Refused(ConsentViolation)
      else Ok(r.session.(consent := Some(s.consent.value.(withdrawnAt := Some(wall)))))
  }

  // Consent is checked before the transition.
  function Capture(s: AnalysisSession, wall: int): Result {
    if !HasActiveConsent(s) then Refused(ConsentViolation)
    else
      var r := Transition(s, Capturing);
      if r.Refused? then r else Ok(r.session.(clock := s.clock.Start(wall)))
  }

  function Suspend(s: AnalysisSession, target: State, wall: int): Result {
    var r := Transition(s, target);
    if r.Refused? then r else Ok(r.session.(clock := s.clock.Pause(wall)))
  }

  // A refused operation leaves the caller with the session it had.
  function After(s: AnalysisSession, op: Op): AnalysisSession {
    var r := Perform(s, op);
    if r.Ok? then r.session else s
  }

  function Run(id: string, ops: seq<Op>): AnalysisSession {
    if ops == [] then NewSession(id) else After(Run(id, ops[..|ops| - 1]), ops[|ops| - 1])
  }

  // ----- an independent account of the run: its successful transitions -----

  datatype Step = Step(wall: int, state: State)

  function Steps(id: string, ops: seq<Op>): seq<Step> {
    if ops == [] then []
    else
      var before, op := ops[..|ops| - 1], ops[|ops| - 1];
      if op.Target().Some? && Perform(Run(id, before), op).Ok?
      then Steps(id, before) + [Step(op.wall, op.Target().value)]
      else Steps(id, before)
  }

  // Time spent in the CAPTURING state, from the transitions alone: each stay
  // lasts until the next transition, the last one until `until`.
  function TimeCapturing(steps: seq<Step>, until: int): nat {
    if steps == [] then 0
    else
      var last := steps[|steps| - 1];
      TimeCapturing(steps[..|steps| - 1], last.wall)
      + if last.state == Capturing && until > last.wall then until - last.wall else 0
  }

  // In every reachable session the clock runs exactly while capturing, and
  // shows exactly the time spent capturing, at any wall reading.
  lemma {:induction false} CapturedIsTimeCapturing(id: string, ops: seq<Op>, wall: int)
    ensures var s := Run(id, ops);
            && (s.clock.IsRunning() <==> s.state == Capturing)
            && s.clock.Now(wall) == TimeCapturing(Steps(id, ops), wall)
            && s.state == (if Steps(id, ops) == [] then Created else Steps(id, ops)[|Steps(id, ops)| - 1].state)
  {
    if ops != [] {
      var before, op := ops[..|ops| - 1], ops[|ops| - 1];
      CapturedIsTimeCapturing(id, before, wall);
      if op.Target().Some? && Perform(Run(id, before), op).Ok? {
        CapturedIsTimeCapturing(id, before, op.wall);
        assert Steps(id, ops)[..|Steps(id, ops)| - 1] == Steps(id, before);
      }
    }
  }

  // ----- position never goes back -----

  // Wall readings at the transitions of the run never decrease.
  ghost predicate WallsAscend(ops: seq<Op>) {
    forall i, j :: 0 <= i < j < |ops| && ops[i].Wall().Some? && ops[j].Wall().Some? ==>
      ops[i].Wall().value <= ops[j].Wall().value
  }

  lemma PositionNeverDecreases(id: string, ops: seq<Op>, op: Op, early: int, late: int)
    requires early <= late && (op.Wall().Some? ==> early <= op.Wall().value <= late)
    ensures Run(id, ops).clock.Now(early) <= After(Run(id, ops), op).clock.Now(late)
  {
  }

  // The position at the n-th operation is at most the position at the end.
  lemma {:induction false} PositionsAscend(id: string, ops: seq<Op>, n: nat, early: int, late: int)
    requires n <= |ops| && early <= late
    requires forall i :: n <= i < |ops| && ops[i].Wall().Some? ==> early <= ops[i].Wall().value <= late
    requires WallsAscend(ops)
    ensures Run(id, ops[..n]).clock.Now(early) <= Run(id, ops).clock.Now(late)
    decreases |ops|
  {
    var m := |ops| - 1;
    if n == |ops| {
      assert ops[..n] == ops;
    } else if ops[m].Wall().None? {
      assert ops[..m][..n] == ops[..n];
      PositionsAscend(id, ops[..m], n, early, late);
    } else {
      assert ops[..m][..n] == ops[..n];
      var wall := ops[m].Wall().value;
      PositionsAscend(id, ops[..m], n, early, wall);
      PositionNeverDecreases(id, ops[..m], ops[m], wall, late);
    }
  }

  // ----- after completion is requested -----

  predicate Closed(s: State) { s in {Completing, Completed, Failed, EvidenceDeleted} }

  // Once closed, a session stays closed, and its clock shows one number at
  // every wall reading from then on.
  lemma {:induction false} ClosedIsForever(id: string, ops: seq<Op>, n: nat, early: int, late: int)
    requires n <= |ops| && Closed(Run(id, ops[..n]).state)
    ensures Closed(Run(id, ops).state)
    ensures Run(id, ops).clock.Now(late) == Run(id, ops[..n]).clock.Now(early)
    decreases |ops|
  {
    if n == |ops| {
      assert ops[..n] == ops;
      CapturedIsTimeCapturing(id, ops, early);
    } else {
      var before := ops[..|ops| - 1];
      assert before[..n] == ops[..n];
      ClosedIsForever(id, before, n, early, late);
      CapturedIsTimeCapturing(id, before, late);
      ClosedStep(Run(id, before), ops[|ops| - 1], late);
    }
  }

  lemma ClosedStep(s: AnalysisSession, op: Op, wall: int)
    requires Closed(s.state) && !s.clock.IsRunning()
    ensures Closed(After(s, op).state) && After(s, op).clock.Now(wall) == s.clock.Now(wall)
  {
  }

  // Deletion is final: every later transition is refused.
  lemma {:induction false} DeletionIsFinal(id: string, ops: seq<Op>, n: nat, op: Op)
    requires n <= |ops| && Run(id, ops[..n]).state == EvidenceDeleted
    ensures Run(id, ops).state == EvidenceDeleted && IsTerminal(EvidenceDeleted)
    ensures op.Target().Some? ==> Perform(Run(id, ops), op).Refused?
    decreases |ops|
  {
    if n == |ops| {
      assert ops[..n] == ops;
    } else {
      assert ops[..|ops| - 1][..n] == ops[..n];
      DeletionIsFinal(id, ops[..|ops| - 1], n, ops[|ops| - 1]);
    }
  }

  // Media is only ever accepted after a receipt for this session that was
  // active when capture began or resumed.
  lemma {:induction false} MediaNeedsConsent(id: string, ops: seq<Op>)
    ensures AcceptsMedia(Run(id, ops).state) ==>
              exists k :: && 0 <= k < |ops| && ops[k].Target() == Some(Capturing)
                          && HasActiveConsent(Run(id, ops[..k]))
                          && Run(id, ops[..k]).consent.value.sessionId == id
    ensures Run(id, ops).id == id && (Run(id, ops).consent.Some? ==> Run(id, ops).consent.value.sessionId == id)
  {
    if ops != [] {
      var m := |ops| - 1;
      MediaNeedsConsent(id, ops[..m]);
      if AcceptsMedia(Run(id, ops).state) {
        if AcceptsMedia(Run(id, ops[..m]).state) {
          var k :| && 0 <= k < m && ops[..m][k].Target() == Some(Capturing)
                   && HasActiveConsent(Run(id, ops[..m][..k]))
                   && Run(id, ops[..m][..k]).consent.value.sessionId == id;
          assert ops[..m][..k] == ops[..k] && ops[k].Target() == Some(Capturing);
        } else {
          assert ops[m].Target() == Some(Capturing);
        }
      }
    }
  }

  // ----- exactly when an operation is accepted, and what it does then -----

  predicate Consented(s: AnalysisSession) { s.consent.Some? && s.consent.value.withdrawnAt.None? }

  lemma AcceptedExactly(s: AnalysisSession, op: Op)
    ensures Perform(s, op).Ok? <==>
              match op
              case WithConsent(receipt) => receipt.sessionId == s.id
              case BeginCapture(_) => Consented(s) && (s.state.Created? || s.state.Paused?)
              case ResumeCapture(_) => Consented(s) && (s.state.Created? || s.state.Paused?)
              case PauseCapture(_) => s.state.Capturing?
              case RequestCompletion(_) => s.state.Capturing? || s.state.Paused?
              case MarkCompleted(_) => s.state.Completing?
              case Fail(_) => s.state.Created? || s.state.Capturing? || s.state.Paused? || s.state.Completing?
              case MarkEvidenceDeleted(wall) =>
                && (s.state.Created? || s.state.Completed? || s.state.Failed?)
                && (Consented(s) ==> wall >= s.consent.value.grantedAt)
  {
  }

  // An accepted operation moves to its state and touches nothing it does not name.
  lemma AcceptedDoes(s: AnalysisSession, op: Op)
    requires Perform(s, op).Ok?
    ensures var t := Perform(s, op).session;
            && t.id == s.id
            && t.state == (match op
                           case WithConsent(_) => s.state
                           case BeginCapture(_) => Capturing
                           case ResumeCapture(_) => Capturing
                           case PauseCapture(_) => Paused
                           case RequestCompletion(_) => Completing
                           case MarkCompleted(_) => Completed
                           case Fail(_) => Failed
                           case MarkEvidenceDeleted(_) => EvidenceDeleted)
            && t.completedAt == (match op
                                 case MarkCompleted(wall) => Some(wall)
                                 case Fail(wall) => Some(wall)
                                 case _ => s.completedAt)
            && (op.WithConsent? ==> t.consent == Some(op.receipt))
            && (op.MarkEvidenceDeleted? ==> !Consented(t))
            && (op.MarkEvidenceDeleted? && Consented(s) ==> t.consent == Some(s.consent.value.(withdrawnAt := Some(op.wall))))
            && (!op.WithConsent? && !(op.MarkEvidenceDeleted? && Consented(s)) ==> t.consent == s.consent)
  {
  }
}
