/**
 The signing protocol and the stall detector: in every interleaving the detector's state is that of the
 prompts' outcomes in the order in which they were noted, so what is proved of every trace holds of every run.
 */
module SigningStall {
  import opened SigningProtocol
  import opened SigningLocks
  import opened Wrappers
  import Stalls = StallDetector

  /** The outcomes that a schedule notes, with the times at which it does. */
  function Noted(cfg: Config, clock: int, acts: seq<Action>): seq<Stalls.Event>
    requires Legal(cfg, clock, acts)
  {
    if acts == [] then []
    else
      var n := |acts| - 1;
      var s, a := After(cfg, clock, acts[..n]), acts[n];
      Noted(cfg, clock, acts[..n]) + Adds(s, a)
  }

  function Adds(s: State, a: Action): seq<Stalls.Event>
    requires a.thread < |s.pc|
  {
    match s.pc[a.thread]
    case InStall(_, o) => [Stalls.Event(o, s.clock + a.choice.delay)]
    case _ => []
  }

  lemma {:induction false} AfterOfPrefix(trace: seq<Stalls.Event>, more: seq<Stalls.Event>, n: nat)
    requires n <= |trace|
    ensures Stalls.After(trace + more, n) == Stalls.After(trace, n)
  {
    if n > 0 {
      AfterOfPrefix(trace, more, n - 1);
    }
  }

  /** The trace is in order, ends by now, and leaves the detector in its state. */
  predicate Traced(trace: seq<Stalls.Event>, stall: Stalls.State, clock: int) {
    && Stalls.Ordered(trace)
    && (forall i :: 0 <= i < |trace| ==> trace[i].at <= clock)
    && Stalls.After(trace, |trace|) == stall
  }

  lemma TracedMore(trace: seq<Stalls.Event>, stall: Stalls.State, clock: int, e: Stalls.Event)
    requires Traced(trace, stall, clock) && clock <= e.at
    ensures Traced(trace + [e], Stalls.Step(stall, e), e.at)
  {
    AfterOfPrefix(trace, [e], |trace|);
  }

  /** The part of a step that the detector and the clock see. */
  lemma StepNotes(cfg: Config, s: State, a: Action)
    requires |s.pc| == |cfg.requests| && Enabled(cfg, s, a.thread)
    ensures var s' := Step(cfg, s, a.thread, a.choice);
      && s'.clock == s.clock + a.choice.delay
      && if Adds(s, a) == [] then s'.stall == s.stall
         else Adds(s, a)[0].at == s'.clock && s'.stall == Stalls.Step(s.stall, Adds(s, a)[0])
  {
  }

  /** In every reachable state the detector's state is that of the ordered trace of what was noted. */
  lemma {:induction false} DetectorFollowsTrace(cfg: Config, clock: int, acts: seq<Action>)
    requires Legal(cfg, clock, acts)
    ensures Traced(Noted(cfg, clock, acts), After(cfg, clock, acts).stall, After(cfg, clock, acts).clock)
  {
    if acts != [] {
      var n := |acts| - 1;
      var s, a := After(cfg, clock, acts[..n]), acts[n];
      DetectorFollowsTrace(cfg, clock, acts[..n]);
      StepNotes(cfg, s, a);
      NotedMore(Noted(cfg, clock, acts[..n]), Adds(s, a), s.stall, s.clock, s.clock + a.choice.delay);
    }
  }

  lemma NotedMore(trace: seq<Stalls.Event>, adds: seq<Stalls.Event>, stall: Stalls.State, clock: int, now: int)
    requires Traced(trace, stall, clock) && clock <= now
    requires adds == [] || (|adds| == 1 && adds[0].at == now)
    ensures Traced(trace + adds, if adds == [] then stall else Stalls.Step(stall, adds[0]), now)
  {
    if adds == [] {
      assert trace + adds == trace;
    } else {
      TracedMore(trace, stall, clock, adds[0]);
      assert adds == [adds[0]];
    }
  }

  /** The thread's prompt has been answered and noted. */
  predicate HasNoted(cfg: Config, t: nat, pc: Pc) {
    KeyOf(cfg, t).touch &&
    match pc
    case WantAudit(r) => Prompted(r)
    case InAudit(r) => Prompted(r)
    case DropPrompt(r) => Prompted(r)
    case DropKey(r) => Prompted(r)
    case Done(r) => Prompted(r)
    case _ => false
  }

  /** How many of the first `n` threads have had their prompt noted. */
  function NotedCount(cfg: Config, pc: seq<Pc>, n: nat): nat
    requires n <= |pc|
  {
    if n == 0 then 0 else NotedCount(cfg, pc, n - 1) + if HasNoted(cfg, n - 1, pc[n - 1]) then 1 else 0
  }

  lemma {:induction false} NotedCountUpdate(cfg: Config, pc: seq<Pc>, t: nat, p: Pc, n: nat)
    requires t < |pc| && n <= |pc|
    ensures NotedCount(cfg, pc[t := p], n) ==
            NotedCount(cfg, pc, n) +
            if t < n && HasNoted(cfg, t, p) && !HasNoted(cfg, t, pc[t]) then 1
            else if t < n && !HasNoted(cfg, t, p) && HasNoted(cfg, t, pc[t]) then -1
            else 0
  {
    if n > 0 {
      NotedCountUpdate(cfg, pc, t, p, n - 1);
    }
  }

  lemma StepCounts(cfg: Config, s: State, a: Action)
    requires |s.pc| == |cfg.requests| && Enabled(cfg, s, a.thread) && WellTyped(cfg, a.thread, s.pc[a.thread])
    ensures var s' := Step(cfg, s, a.thread, a.choice);
      && s'.pc == s.pc[a.thread := s'.pc[a.thread]]
      && (HasNoted(cfg, a.thread, s.pc[a.thread]) ==> HasNoted(cfg, a.thread, s'.pc[a.thread]))
      && (s.pc[a.thread].InStall? <==>
            !HasNoted(cfg, a.thread, s.pc[a.thread]) && HasNoted(cfg, a.thread, s'.pc[a.thread]))
  {
  }

  /** Every answered prompt is noted exactly once: the trace is as long as there are requests past their prompt. */
  lemma {:induction false} EachPromptIsNoted(cfg: Config, clock: int, acts: seq<Action>)
    requires Legal(cfg, clock, acts)
    ensures |Noted(cfg, clock, acts)| == NotedCount(cfg, After(cfg, clock, acts).pc, |cfg.requests|)
  {
    if acts == [] {
      NoneNoted(cfg, Initial(cfg, clock).pc, |cfg.requests|);
    } else {
      var n := |acts| - 1;
      var s, a := After(cfg, clock, acts[..n]), acts[n];
      EachPromptIsNoted(cfg, clock, acts[..n]);
      LocksHold(cfg, clock, acts[..n]);
      assert WellTyped(cfg, a.thread, s.pc[a.thread]);
      StepCounts(cfg, s, a);
      NotedCountUpdate(cfg, s.pc, a.thread, Step(cfg, s, a.thread, a.choice).pc[a.thread], |cfg.requests|);
    }
  }

  lemma {:induction false} NoneNoted(cfg: Config, pc: seq<Pc>, n: nat)
    requires n <= |pc| && forall t :: 0 <= t < |pc| ==> pc[t] == Start
    ensures NotedCount(cfg, pc, n) == 0
  {
    if n > 0 {
      NoneNoted(cfg, pc, n - 1);
    }
  }

  /** How the prompt ended, when the step answers one: a signature completes it, a failure ends it as it may. */
  function Answer(cfg: Config, s: State, a: Action): Option<Stalls.Outcome>
    requires a.thread < |s.pc|
  {
    if s.pc[a.thread] != Signing || !KeyOf(cfg, a.thread).touch then None
    else Some(if a.choice.ok then Stalls.Completed else a.choice.outcome)
  }

  /** How many prompts of a schedule end that way. */
  function Answers(cfg: Config, clock: int, acts: seq<Action>, o: Stalls.Outcome): nat
    requires Legal(cfg, clock, acts)
  {
    if acts == [] then 0
    else
      var n := |acts| - 1;
      Answers(cfg, clock, acts[..n], o) +
      if Answer(cfg, After(cfg, clock, acts[..n]), acts[n]) == Some(o) then 1 else 0
  }

  /** How many events of the trace note that outcome. */
  function Notes(trace: seq<Stalls.Event>, o: Stalls.Outcome): nat {
    if trace == [] then 0
    else
      var n := |trace| - 1;
      Notes(trace[..n], o) + if trace[n].outcome == o then 1 else 0
  }

  /** The thread is about to note the outcome. */
  predicate Waits(pc: Pc, o: Stalls.Outcome) {
    match pc
    case WantStall(_, outcome) => outcome == o
    case InStall(_, outcome) => outcome == o
    case _ => false
  }

  function Waiting(pc: seq<Pc>, o: Stalls.Outcome): nat {
    if pc == [] then 0
    else
      var n := |pc| - 1;
      Waiting(pc[..n], o) + if Waits(pc[n], o) then 1 else 0
  }

  lemma {:induction false} WaitingUpdate(pc: seq<Pc>, t: nat, p: Pc, o: Stalls.Outcome)
    requires t < |pc|
    ensures Waiting(pc[t := p], o) ==
            Waiting(pc, o) - (if Waits(pc[t], o) then 1 else 0) + if Waits(p, o) then 1 else 0
  {
    var n := |pc| - 1;
    if t == n {
      assert pc[t := p][..n] == pc[..n];
    } else {
      assert pc[t := p][..n] == pc[..n][t := p];
      WaitingUpdate(pc[..n], t, p, o);
    }
  }

  lemma {:induction false} NoneWaiting(pc: seq<Pc>, o: Stalls.Outcome)
    requires forall t :: 0 <= t < |pc| ==> pc[t] == Start
    ensures Waiting(pc, o) == 0
  {
    if pc != [] {
      NoneWaiting(pc[..|pc| - 1], o);
    }
  }

  lemma NotesExtend(trace: seq<Stalls.Event>, adds: seq<Stalls.Event>, o: Stalls.Outcome)
    requires |adds| <= 1
    ensures Notes(trace + adds, o) == Notes(trace, o) + if adds != [] && adds[0].outcome == o then 1 else 0
  {
    if adds == [] {
      assert trace + adds == trace;
    } else {
      assert (trace + adds)[..|trace|] == trace;
    }
  }

  /** A step takes the outcome of its prompt to its thread, or from its thread to the trace. */
  lemma StepMoves(cfg: Config, s: State, a: Action, o: Stalls.Outcome) returns (p: Pc)
    requires |s.pc| == |cfg.requests| && Enabled(cfg, s, a.thread) && WellTyped(cfg, a.thread, s.pc[a.thread])
    ensures Step(cfg, s, a.thread, a.choice).pc == s.pc[a.thread := p]
    ensures Waits(p, o) <==>
            Answer(cfg, s, a) == Some(o) || (Waits(s.pc[a.thread], o) && Adds(s, a) == [])
    ensures Answer(cfg, s, a) == Some(o) ==> !Waits(s.pc[a.thread], o) && Adds(s, a) == []
    ensures Adds(s, a) != [] ==> (Adds(s, a)[0].outcome == o <==> Waits(s.pc[a.thread], o))
  {
    p := Step(cfg, s, a.thread, a.choice).pc[a.thread];
  }

  /** No outcome is lost, changed or made up: what prompts ended in has been noted or is about to be. */
  lemma {:induction false} OutcomesAreConserved(cfg: Config, clock: int, acts: seq<Action>, o: Stalls.Outcome)
    requires Legal(cfg, clock, acts)
    ensures Answers(cfg, clock, acts, o) ==
            Notes(Noted(cfg, clock, acts), o) + Waiting(After(cfg, clock, acts).pc, o)
  {
    if acts == [] {
      NoneWaiting(Initial(cfg, clock).pc, o);
    } else {
      var n := |acts| - 1;
      var s, a := After(cfg, clock, acts[..n]), acts[n];
      OutcomesAreConserved(cfg, clock, acts[..n], o);
      LocksHold(cfg, clock, acts[..n]);
      assert WellTyped(cfg, a.thread, s.pc[a.thread]);
      var p := StepMoves(cfg, s, a, o);
      NotesExtend(Noted(cfg, clock, acts[..n]), Adds(s, a), o);
      WaitingUpdate(s.pc, a.thread, p, o);
    }
  }

  /** In every interleaving an alert comes with three prompts that were not completed, within three minutes. */
  lemma AlertInRunIsSound(cfg: Config, clock: int, acts: seq<Action>, i: nat) returns (a: nat)
    requires Legal(cfg, clock, acts)
    requires i < |Noted(cfg, clock, acts)| && Stalls.AlertAt(Noted(cfg, clock, acts), i)
    ensures var trace := Noted(cfg, clock, acts);
      && a < i && Stalls.NoCompletion(trace, a, i + 1)
      && Stalls.Misses(trace, a, i + 1) == 3
      && 0 <= trace[i].at - trace[a].at <= 180 * Stalls.SECOND
  {
    DetectorFollowsTrace(cfg, clock, acts);
    Stalls.AlertIsSound(Noted(cfg, clock, acts), i);
    a := Stalls.Anchor(Noted(cfg, clock, acts), i + 1);
  }

  /**
   In every interleaving four prompts that were not completed within three minutes, and none that was among
   them, raise an alert, unless their episode had raised one.
   */
  lemma FourPromptsAlert(cfg: Config, clock: int, acts: seq<Action>, i: nat, n: nat) returns (j: nat)
    requires Legal(cfg, clock, acts) && i < n <= |Noted(cfg, clock, acts)|
    requires var trace := Noted(cfg, clock, acts);
      && trace[i].outcome == Stalls.NonCompletion && Stalls.NoCompletion(trace, i, n)
      && Stalls.Misses(trace, i, n) >= 4
      && trace[n - 1].at - trace[i].at <= 180 * Stalls.SECOND
    ensures var trace := Noted(cfg, clock, acts);
      && j < n && Stalls.AlertAt(trace, j)
      && (i <= j || Stalls.Anchor(trace, j + 1) == Stalls.Anchor(trace, i + 1))
  {
    DetectorFollowsTrace(cfg, clock, acts);
    j := Stalls.FourMissesAlert(Noted(cfg, clock, acts), i, n);
  }
}
