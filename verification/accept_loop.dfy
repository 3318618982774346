/**
 The agent's accept loop and shutdown as a step system: connections are served by their own threads, and
 a signal or the idle timer closes the listener at any moment.
 */
module AcceptLoop {

  datatype MainPc = Accepting | Accepted | Counted | Draining | Closing | Stopped

  datatype Worker = Serving | Finished

  datatype Signal = Hup | Term

  datatype Action =
    | AcceptConn
    | AcceptError(timeout: bool)
    | CountConn
    | StartWorker
    | Deliver(signal: Signal)
    | IdleExpiry
    | SignRequest(worker: nat)
    | FinishConn(worker: nat)
    | WaitForWorkers
    | CloseAudit

  /** `group` is the wait group's counter; `lateSigns` counts audit calls made after the logger was closed. */
  datatype State = State(
    launchd: bool,
    main: MainPc,
    listening: bool,
    group: int,
    workers: seq<Worker>,
    auditOpen: bool,
    lateSigns: nat)

  function Initial(launchd: bool): State {
    State(launchd, Accepting, true, 0, [], true, 0)
  }

  predicate Enabled(s: State, a: Action) {
    match a
    case AcceptConn => s.main == Accepting && s.listening
    case AcceptError(timeout) => s.main == Accepting && (timeout ==> s.listening)
    case CountConn => s.main == Accepted
    case StartWorker => s.main == Counted
    case Deliver(_) => s.main != Stopped
    case IdleExpiry => s.launchd && s.main != Stopped
    case SignRequest(w) => w < |s.workers| && s.workers[w] == Serving
    case FinishConn(w) => w < |s.workers| && s.workers[w] == Serving
    case WaitForWorkers => s.main == Draining && s.group == 0
    case CloseAudit => s.main == Closing
  }

  function Step(s: State, a: Action): State
    requires Enabled(s, a)
  {
    match a
    case AcceptConn => s.(main := Accepted)
    case AcceptError(timeout) =>
      // Under launchd every error ends the loop; otherwise a timeout is retried.
      if !s.launchd && timeout then s else s.(main := Draining)
    case CountConn => s.(main := Counted, group := s.group + 1)
    case StartWorker => s.(main := Accepting, workers := s.workers + [Serving])
    case Deliver(signal) => if signal == Hup then s else s.(listening := false)
    case IdleExpiry => s.(listening := false)
    case SignRequest(_) => if s.auditOpen then s else s.(lateSigns := s.lateSigns + 1)
    case FinishConn(w) => s.(workers := s.workers[w := Finished], group := s.group - 1)
    case WaitForWorkers => s.(main := Closing)
    case CloseAudit => s.(main := Stopped, auditOpen := false)
  }

  predicate Legal(launchd: bool, acts: seq<Action>)
    decreases |acts|, 0
  {
    acts == [] ||
    (Legal(launchd, acts[..|acts| - 1]) && Enabled(After(launchd, acts[..|acts| - 1]), acts[|acts| - 1]))
  }

  function After(launchd: bool, acts: seq<Action>): State
    requires Legal(launchd, acts)
    decreases |acts|, 1
  {
    if acts == [] then Initial(launchd) else Step(After(launchd, acts[..|acts| - 1]), acts[|acts| - 1])
  }

  function ServingCount(workers: seq<Worker>): nat {
    if workers == [] then 0
    else
      var n := |workers| - 1;
      ServingCount(workers[..n]) + if workers[n] == Serving then 1 else 0
  }

  lemma {:induction false} ServingCountUpdate(workers: seq<Worker>, w: nat)
    requires w < |workers| && workers[w] == Serving
    ensures ServingCount(workers[w := Finished]) == ServingCount(workers) - 1
  {
    var n := |workers| - 1;
    if w == n {
      assert workers[w := Finished][..n] == workers[..n];
    } else {
      assert workers[w := Finished][..n] == workers[..n][w := Finished];
      ServingCountUpdate(workers[..n], w);
    }
  }

  lemma {:induction false} NoneServing(workers: seq<Worker>, w: nat)
    requires ServingCount(workers) == 0 && w < |workers|
    ensures workers[w] == Finished
  {
    if w < |workers| - 1 {
      NoneServing(workers[..|workers| - 1], w);
    }
  }

  /** The wait group counts the open connections, and the logger is closed only when there is none. */
  predicate Inv(s: State) {
    && s.group == ServingCount(s.workers) + (if s.main == Counted then 1 else 0)
    && (s.main in {Closing, Stopped} ==> ServingCount(s.workers) == 0)
    && (s.auditOpen <==> s.main != Stopped)
    && s.lateSigns == 0
  }

  lemma StepKeepsInv(s: State, a: Action)
    requires Inv(s) && Enabled(s, a)
    ensures Inv(Step(s, a))
  {
    match a
    case StartWorker =>
      assert (s.workers + [Serving])[..|s.workers|] == s.workers;
    case SignRequest(w) =>
      if s.main == Stopped {
        NoneServing(s.workers, w);
      }
    case FinishConn(w) =>
      ServingCountUpdate(s.workers, w);
    case _ =>
  }

  lemma {:induction false} InvHolds(launchd: bool, acts: seq<Action>)
    requires Legal(launchd, acts)
    ensures Inv(After(launchd, acts))
  {
    if acts != [] {
      InvHolds(launchd, acts[..|acts| - 1]);
      StepKeepsInv(After(launchd, acts[..|acts| - 1]), acts[|acts| - 1]);
    }
  }

  /**
   In every run, whatever signals arrive and whenever the idle timer fires, the audit logger is closed only
   after every accepted connection has finished, so no connection makes an audit call after that; the wait
   group never goes below zero.
   */
  lemma ClosedAfterLastConnection(launchd: bool, acts: seq<Action>, w: nat)
    requires Legal(launchd, acts)
    ensures var s := After(launchd, acts);
      && s.lateSigns == 0 && s.group >= 0
      && (!s.auditOpen && w < |s.workers| ==> s.workers[w] == Finished)
  {
    InvHolds(launchd, acts);
    var s := After(launchd, acts);
    if !s.auditOpen && w < |s.workers| {
      NoneServing(s.workers, w);
    }
  }

  // ---------------------------------------------------------------- what signals and timers do

  /** The run without its hang-up signals. */
  function WithoutHangUps(acts: seq<Action>): seq<Action> {
    if acts == [] then []
    else
      var n := |acts| - 1;
      WithoutHangUps(acts[..n]) + if acts[n] == Deliver(Hup) then [] else [acts[n]]
  }

  /** Hang-up signals change nothing: without them the run is possible and ends in the same state. */
  lemma {:induction false} HangUpsChangeNothing(launchd: bool, acts: seq<Action>)
    requires Legal(launchd, acts)
    ensures Legal(launchd, WithoutHangUps(acts))
    ensures After(launchd, WithoutHangUps(acts)) == After(launchd, acts)
  {
    if acts != [] {
      var n := |acts| - 1;
      HangUpsChangeNothing(launchd, acts[..n]);
      var before := WithoutHangUps(acts[..n]);
      if acts[n] == Deliver(Hup) {
        assert WithoutHangUps(acts) == before;
      } else {
        assert WithoutHangUps(acts)[..|before|] == before;
      }
    }
  }

  lemma InLast(acts: seq<Action>, a: Action)
    requires acts != []
    ensures a in acts <==> a in acts[..|acts| - 1] || a == acts[|acts| - 1]
  {
    assert acts == acts[..|acts| - 1] + [acts[|acts| - 1]];
  }

  /**
   The listener is open exactly as long as no signal to end has come and, under launchd, the idle timer has not
   expired; without launchd there is no such timer.
   */
  lemma {:induction false} ListeningExactly(launchd: bool, acts: seq<Action>)
    requires Legal(launchd, acts)
    ensures After(launchd, acts).listening <==> Deliver(Term) !in acts && IdleExpiry !in acts
    ensures IdleExpiry in acts ==> launchd
  {
    if acts != [] {
      var n := |acts| - 1;
      ListeningExactly(launchd, acts[..n]);
      LaunchdStays(launchd, acts[..n]);
      InLast(acts, Deliver(Term));
      InLast(acts, IdleExpiry);
    }
  }

  lemma {:induction false} LaunchdStays(launchd: bool, acts: seq<Action>)
    requires Legal(launchd, acts)
    ensures After(launchd, acts).launchd == launchd
  {
    if acts != [] {
      LaunchdStays(launchd, acts[..|acts| - 1]);
    }
  }

  /** The agent goes on accepting until an error other than a timeout, or under launchd until any error. */
  lemma {:induction false} LoopEndsExactly(launchd: bool, acts: seq<Action>)
    requires Legal(launchd, acts)
    ensures After(launchd, acts).main in {Draining, Closing, Stopped} <==>
            AcceptError(false) in acts || (launchd && AcceptError(true) in acts)
  {
    if acts != [] {
      var n := |acts| - 1;
      LoopEndsExactly(launchd, acts[..n]);
      LaunchdStays(launchd, acts[..n]);
      InLast(acts, AcceptError(false));
      InLast(acts, AcceptError(true));
    }
  }

  // ---------------------------------------------------------------- shutdown

  /** The steps that bring the agent to its end, once its listener is closed. */
  predicate Ends(a: Action) {
    match a
    case AcceptError(_) => true
    case CountConn => true
    case StartWorker => true
    case FinishConn(_) => true
    case WaitForWorkers => true
    case CloseAudit => true
    case _ => false
  }

  /** How many such steps are left at most. */
  function Left(s: State): nat {
    2 * ServingCount(s.workers) +
    match s.main
    case Accepted => 7
    case Counted => 6
    case Accepting => 3
    case Draining => 2
    case Closing => 1
    case Stopped => 0
  }

  /** A closed listener stays closed; ending steps come nearer to the end, and no other step takes away from it. */
  lemma ClosingComesNearer(s: State, a: Action)
    requires !s.listening && Enabled(s, a)
    ensures !Step(s, a).listening
    ensures if Ends(a) then Left(Step(s, a)) < Left(s) else Left(Step(s, a)) == Left(s)
  {
    match a
    case StartWorker =>
      assert (s.workers + [Serving])[..|s.workers|] == s.workers;
    case FinishConn(w) =>
      ServingCountUpdate(s.workers, w);
    case _ =>
  }

  function EndingSteps(acts: seq<Action>): nat {
    if acts == [] then 0
    else
      var n := |acts| - 1;
      EndingSteps(acts[..n]) + if Ends(acts[n]) then 1 else 0
  }

  /** After the listener is closed no run takes more ending steps than were left, whatever else happens. */
  lemma {:induction false} ShutdownIsBounded(launchd: bool, acts: seq<Action>, more: seq<Action>)
    requires Legal(launchd, acts) && Legal(launchd, acts + more) && !After(launchd, acts).listening
    ensures !After(launchd, acts + more).listening
    ensures EndingSteps(more) + Left(After(launchd, acts + more)) <= Left(After(launchd, acts))
    decreases |more|
  {
    if more == [] {
      assert acts + more == acts;
    } else {
      var before, a := more[..|more| - 1], more[|more| - 1];
      assert (acts + more)[..|acts + more| - 1] == acts + before;
      ShutdownIsBounded(launchd, acts, before);
      ClosingComesNearer(After(launchd, acts + before), a);
    }
  }

  lemma {:induction false} SomeServing(workers: seq<Worker>) returns (w: nat)
    requires ServingCount(workers) > 0
    ensures w < |workers| && workers[w] == Serving
  {
    w := |workers| - 1;
    if workers[w] != Serving {
      w := SomeServing(workers[..w]);
    }
  }

  /** With the listener closed an ending step can always be taken until the agent has stopped. */
  lemma ShutdownIsNotStuck(launchd: bool, acts: seq<Action>) returns (a: Action)
    requires Legal(launchd, acts)
    requires !After(launchd, acts).listening && After(launchd, acts).main != Stopped
    ensures Enabled(After(launchd, acts), a) && Ends(a)
    ensures a.FinishConn? ==> After(launchd, acts).main == Draining
  {
    InvHolds(launchd, acts);
    var s := After(launchd, acts);
    if s.main == Draining && ServingCount(s.workers) > 0 {
      var w := SomeServing(s.workers);
      return FinishConn(w);
    }
    a := match s.main
      case Accepting => AcceptError(false)
      case Accepted => CountConn
      case Counted => StartWorker
      case Draining => WaitForWorkers
      case _ => CloseAudit;
  }
}
