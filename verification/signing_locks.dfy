/**
 Locks of the signing protocol: who holds what in every reachable state, mutual exclusion, freedom from
 deadlock, and that a request for a key without touch never waits for a prompt.
 */
module SigningLocks {
  import opened SigningProtocol
  import opened Wrappers

  // ---------------------------------------------------------------- the invariant

  /** What a thread's position says about its request. */
  predicate WellTyped(cfg: Config, t: nat, pc: Pc) {
    var touch := KeyOf(cfg, t).touch;
    match pc
    case Start => true
    case Done(Unmatched) => !Matched(cfg, t)
    case WantPrompt => Matched(cfg, t) && touch
    case WantStall(r, _) => Matched(cfg, t) && touch && Prompted(r)
    case InStall(r, _) => Matched(cfg, t) && touch && Prompted(r)
    case WantAudit(r) => Matched(cfg, t) && r != Unmatched
    case InAudit(r) => Matched(cfg, t) && r != Unmatched
    case DropPrompt(r) => Matched(cfg, t) && touch && Prompted(r)
    case DropKey(r) => Matched(cfg, t) && r != Unmatched
    case _ => Matched(cfg, t)
  }

  /** The lock table records exactly what the threads hold. */
  ghost predicate LockInv(cfg: Config, s: State) {
    && |s.pc| == |cfg.requests|
    && (forall t :: 0 <= t < |s.pc| ==> WellTyped(cfg, t, s.pc[t]))
    && (forall l :: l in s.locks ==> s.locks[l] < |s.pc| && Holds(cfg, s.locks[l], s.pc[s.locks[l]], l))
    && (forall t, l {:trigger Holds(cfg, t, s.pc[t], l)} ::
          0 <= t < |s.pc| && Holds(cfg, t, s.pc[t], l) ==> l in s.locks && s.locks[l] == t)
  }

  /** A step keeps its thread well typed and shortens its way. */
  lemma NextIsWellTyped(cfg: Config, s: State, t: nat, c: Choice)
    requires |s.pc| == |cfg.requests| && t < |s.pc| && !s.pc[t].Done? && WellTyped(cfg, t, s.pc[t])
    ensures WellTyped(cfg, t, NextPc(cfg, s, t, c))
    ensures Remaining(NextPc(cfg, s, t, c)) < Remaining(s.pc[t])
  {
  }

  /** A step changes what its thread holds by the lock it takes or gives. */
  lemma NextHolds(cfg: Config, s: State, t: nat, c: Choice, l: Lock)
    requires |s.pc| == |cfg.requests| && t < |s.pc| && !s.pc[t].Done? && WellTyped(cfg, t, s.pc[t])
    ensures var w, g := Wants(cfg, t, s.pc[t]), Gives(cfg, t, s.pc[t]);
      && (Holds(cfg, t, NextPc(cfg, s, t, c), l) <==> w == Some(l) || (Holds(cfg, t, s.pc[t], l) && g != Some(l)))
      && (g == Some(l) ==> Holds(cfg, t, s.pc[t], l))
  {
  }

  /** The lock table stays exact when one thread takes a free lock, gives one it held, or does neither. */
  lemma TableStaysExact(cfg: Config, s: State, s': State, t: nat, w: Option<Lock>, g: Option<Lock>)
    requires LockInv(cfg, s) && |s'.pc| == |s.pc| && t < |s.pc|
    requires forall u :: 0 <= u < |s.pc| && u != t ==> s'.pc[u] == s.pc[u]
    requires WellTyped(cfg, t, s'.pc[t])
    requires w.Some? ==> w.value !in s.locks
    requires s'.locks == if w.Some? then s.locks[w.value := t] else if g.Some? then s.locks - {g.value} else s.locks
    requires g.Some? ==> w.None? && Holds(cfg, t, s.pc[t], g.value)
    requires forall l {:trigger Holds(cfg, t, s'.pc[t], l)} ::
               Holds(cfg, t, s'.pc[t], l) <==> w == Some(l) || (Holds(cfg, t, s.pc[t], l) && g != Some(l))
    ensures LockInv(cfg, s')
  {
    forall l | l in s'.locks ensures s'.locks[l] < |s.pc| && Holds(cfg, s'.locks[l], s'.pc[s'.locks[l]], l) {
      if w != Some(l) {
        assert Holds(cfg, s.locks[l], s.pc[s.locks[l]], l);
      }
    }
    forall u, l | 0 <= u < |s.pc| && Holds(cfg, u, s'.pc[u], l) ensures l in s'.locks && s'.locks[l] == u {
      if w != Some(l) {
        assert Holds(cfg, u, s.pc[u], l);
      }
    }
  }

  lemma StepKeepsLocks(cfg: Config, s: State, t: nat, c: Choice)
    requires LockInv(cfg, s) && Enabled(cfg, s, t)
    ensures LockInv(cfg, Step(cfg, s, t, c))
  {
    var later, s' := s.(clock := s.clock + c.delay), Step(cfg, s, t, c);
    var w, g := Wants(cfg, t, s.pc[t]), Gives(cfg, t, s.pc[t]);
    NextIsWellTyped(cfg, later, t, c);
    forall l: Lock
      ensures Holds(cfg, t, s'.pc[t], l) <==> w == Some(l) || (Holds(cfg, t, s.pc[t], l) && g != Some(l))
      ensures g == Some(l) ==> Holds(cfg, t, s.pc[t], l)
    {
      NextHolds(cfg, later, t, c, l);
    }
    TableStaysExact(cfg, s, s', t, w, g);
  }

  lemma {:induction false} LocksHold(cfg: Config, clock: int, acts: seq<Action>)
    requires Legal(cfg, clock, acts)
    ensures LockInv(cfg, After(cfg, clock, acts))
  {
    if acts != [] {
      var before, a := acts[..|acts| - 1], acts[|acts| - 1];
      LocksHold(cfg, clock, before);
      StepKeepsLocks(cfg, After(cfg, clock, before), a.thread, a.choice);
    }
  }

  // ---------------------------------------------------------------- mutual exclusion

  /** The thread is showing a prompt. */
  predicate Prompting(cfg: Config, s: State, t: nat) {
    t < |s.pc| && s.pc[t] == Signing && KeyOf(cfg, t).touch
  }

  lemma OneHolder(cfg: Config, s: State, t: nat, u: nat, l: Lock)
    requires LockInv(cfg, s) && t < |s.pc| && u < |s.pc|
    requires Holds(cfg, t, s.pc[t], l) && Holds(cfg, u, s.pc[u], l)
    ensures t == u
  {
  }

  /** In every reachable state at most one thread shows a prompt, and at most one is inside each key's lock. */
  lemma MutualExclusion(cfg: Config, clock: int, acts: seq<Action>, t: nat, u: nat)
    requires Legal(cfg, clock, acts)
    requires t < |cfg.requests| && u < |cfg.requests| && t != u
    ensures var s := After(cfg, clock, acts);
      && !(Prompting(cfg, s, t) && Prompting(cfg, s, u))
      && !(InKey(s.pc[t]) && InKey(s.pc[u]) && KeyOf(cfg, t).name == KeyOf(cfg, u).name)
  {
    var s := After(cfg, clock, acts);
    LocksHold(cfg, clock, acts);
    if Prompting(cfg, s, t) && Prompting(cfg, s, u) {
      OneHolder(cfg, s, t, u, Prompt);
    }
    if InKey(s.pc[t]) && InKey(s.pc[u]) && KeyOf(cfg, t).name == KeyOf(cfg, u).name {
      OneHolder(cfg, s, t, u, KeyLock(KeyOf(cfg, t).name));
    }
  }

  /** While a prompt is shown its thread holds its own key's lock and the prompt, and nothing else. */
  lemma PrompterHolds(cfg: Config, clock: int, acts: seq<Action>, p: nat, l: Lock)
    requires Legal(cfg, clock, acts) && Prompting(cfg, After(cfg, clock, acts), p)
    ensures var s := After(cfg, clock, acts);
      l in s.locks && s.locks[l] == p <==> l == Prompt || l == KeyLock(KeyOf(cfg, p).name)
  {
    LocksHold(cfg, clock, acts);
    var s := After(cfg, clock, acts);
    assert Holds(cfg, p, s.pc[p], l) <==> l == Prompt || l == KeyLock(KeyOf(cfg, p).name);
  }

  // ---------------------------------------------------------------- deadlock freedom

  /** Locks are taken in strictly rising order. */
  lemma LocksRise(cfg: Config, t: nat, pc: Pc, l: Lock)
    requires Wants(cfg, t, pc).Some? && Holds(cfg, t, pc, l)
    requires WellTyped(cfg, t, pc)
    ensures Rank(l) < Rank(Wants(cfg, t, pc).value)
  {
  }

  /** Follows the chain of threads in the way of `t` to one that can step. */
  lemma {:induction false} Unblock(cfg: Config, s: State, t: nat) returns (u: nat)
    requires LockInv(cfg, s) && t < |s.pc| && !s.pc[t].Done?
    ensures Enabled(cfg, s, u)
    decreases if Wants(cfg, t, s.pc[t]).Some? then 3 - Rank(Wants(cfg, t, s.pc[t]).value) else 0
  {
    var w := Wants(cfg, t, s.pc[t]);
    if w.None? || w.value !in s.locks {
      u := t;
    } else {
      var holder := s.locks[w.value];
      assert Holds(cfg, holder, s.pc[holder], w.value);
      if Wants(cfg, holder, s.pc[holder]).Some? {
        LocksRise(cfg, holder, s.pc[holder], w.value);
      }
      u := Unblock(cfg, s, holder);
    }
  }

  /** No reachable state is a deadlock: while a request is open, some thread can step. */
  lemma DeadlockFree(cfg: Config, clock: int, acts: seq<Action>, t: nat) returns (u: nat)
    requires Legal(cfg, clock, acts)
    requires t < |cfg.requests| && !After(cfg, clock, acts).pc[t].Done?
    ensures Enabled(cfg, After(cfg, clock, acts), u)
  {
    LocksHold(cfg, clock, acts);
    u := Unblock(cfg, After(cfg, clock, acts), t);
  }

  // ---------------------------------------------------------------- termination

  function TotalWork(pc: seq<Pc>): nat {
    if pc == [] then 0
    else
      var n := |pc| - 1;
      TotalWork(pc[..n]) + Remaining(pc[n])
  }

  lemma {:induction false} TotalWorkUpdate(pc: seq<Pc>, t: nat, p: Pc)
    requires t < |pc|
    ensures TotalWork(pc[t := p]) == TotalWork(pc) - Remaining(pc[t]) + Remaining(p)
  {
    var n := |pc| - 1;
    if t == n {
      assert pc[t := p][..n] == pc[..n];
    } else {
      assert pc[t := p][..n] == pc[..n][t := p];
      TotalWorkUpdate(pc[..n], t, p);
    }
  }

  lemma {:induction false} TotalWorkAtStart(n: nat)
    ensures TotalWork(seq(n, _ => Start)) == 14 * n
  {
    if n > 0 {
      TotalWorkAtStart(n - 1);
      assert seq(n, _ => Start)[..n - 1] == seq(n - 1, _ => Start);
    }
  }

  lemma StepShortens(cfg: Config, s: State, t: nat, c: Choice)
    requires LockInv(cfg, s) && Enabled(cfg, s, t)
    ensures TotalWork(Step(cfg, s, t, c).pc) < TotalWork(s.pc)
  {
    var later := s.(clock := s.clock + c.delay);
    NextIsWellTyped(cfg, later, t, c);
    TotalWorkUpdate(s.pc, t, NextPc(cfg, later, t, c));
    assert Step(cfg, s, t, c).pc == s.pc[t := NextPc(cfg, later, t, c)];
  }

  /** Every schedule ends: no run is longer than fourteen steps a request. */
  lemma {:induction false} RunsAreBounded(cfg: Config, clock: int, acts: seq<Action>)
    requires Legal(cfg, clock, acts)
    ensures |acts| + TotalWork(After(cfg, clock, acts).pc) <= 14 * |cfg.requests|
  {
    if acts == [] {
      TotalWorkAtStart(|cfg.requests|);
    } else {
      var before, a := acts[..|acts| - 1], acts[|acts| - 1];
      RunsAreBounded(cfg, clock, before);
      LocksHold(cfg, clock, before);
      StepShortens(cfg, After(cfg, clock, before), a.thread, a.choice);
    }
  }

  /** However the threads are scheduled, once none can step every request has been answered. */
  lemma EveryRequestIsAnswered(cfg: Config, clock: int, acts: seq<Action>, t: nat)
    requires Legal(cfg, clock, acts) && t < |cfg.requests|
    requires forall u :: 0 <= u < |cfg.requests| ==> !Enabled(cfg, After(cfg, clock, acts), u)
    ensures After(cfg, clock, acts).pc[t].Done?
  {
    if !After(cfg, clock, acts).pc[t].Done? {
      var u := DeadlockFree(cfg, clock, acts, t);
    }
  }

  // ---------------------------------------------------------------- prompts do not hold up other keys

  /** A request whose key needs no touch and is not the prompting thread's key. */
  predicate Unrelated(cfg: Config, p: nat, t: nat) {
    Matched(cfg, t) ==> !KeyOf(cfg, t).touch && KeyOf(cfg, t).name != KeyOf(cfg, p).name
  }

  /** What is in the way of such a request is never the prompting thread. */
  lemma UnblockPastPrompt(cfg: Config, s: State, p: nat, t: nat) returns (u: nat)
    requires LockInv(cfg, s) && Resolved(cfg) && DistinctNames(cfg.store)
    requires Prompting(cfg, s, p)
    requires t < |s.pc| && !s.pc[t].Done? && Unrelated(cfg, p, t)
    ensures u != p && Enabled(cfg, s, u)
  {
    u := t;
    if s.pc[t] == WantKey && KeyLock(KeyOf(cfg, t).name) in s.locks {
      // The holder of the key's lock serves the same key.
      var holder := s.locks[KeyLock(KeyOf(cfg, t).name)];
      SameNameSameKey(cfg, t, holder);
      u := holder;
    }
    u := LeafHolder(cfg, s, u);
  }

  /** A thread without touch past its key's lock can only wait for a leaf lock, whose holder waits for nothing. */
  lemma LeafHolder(cfg: Config, s: State, t: nat) returns (u: nat)
    requires LockInv(cfg, s) && t < |s.pc| && !s.pc[t].Done?
    requires Matched(cfg, t) ==> !KeyOf(cfg, t).touch
    requires s.pc[t] == WantKey ==> KeyLock(KeyOf(cfg, t).name) !in s.locks
    ensures Enabled(cfg, s, u) && (u == t || s.pc[u] != Signing)
  {
    u := t;
    var w := Wants(cfg, t, s.pc[t]);
    if w.Some? && w.value in s.locks {
      u := s.locks[w.value];
    }
  }

  /**
   However the other threads are scheduled while a prompt stays open, once none of them can step every
   request for another key without touch has been answered. `RunsAreBounded` says that they do stop.
   */
  lemma NoTouchNeverWaitsForPrompt(cfg: Config, clock: int, acts: seq<Action>, p: nat, t: nat)
    requires Resolved(cfg) && DistinctNames(cfg.store) && Legal(cfg, clock, acts)
    requires Prompting(cfg, After(cfg, clock, acts), p)
    requires t < |cfg.requests| && Unrelated(cfg, p, t)
    requires forall u :: 0 <= u < |cfg.requests| && u != p ==> !Enabled(cfg, After(cfg, clock, acts), u)
    ensures After(cfg, clock, acts).pc[t].Done?
  {
    LocksHold(cfg, clock, acts);
    if !After(cfg, clock, acts).pc[t].Done? {
      var u := UnblockPastPrompt(cfg, After(cfg, clock, acts), p, t);
    }
  }

  /** Steps of other threads leave the prompt open. */
  lemma {:induction false} PromptStaysOpen(cfg: Config, clock: int, acts: seq<Action>, more: seq<Action>, p: nat)
    requires Legal(cfg, clock, acts) && Legal(cfg, clock, acts + more)
    requires Prompting(cfg, After(cfg, clock, acts), p)
    requires forall i :: 0 <= i < |more| ==> more[i].thread != p
    ensures Prompting(cfg, After(cfg, clock, acts + more), p)
  {
    if more == [] {
      assert acts + more == acts;
    } else {
      var all, last := acts + more, more[|more| - 1];
      assert all[..|all| - 1] == acts + more[..|more| - 1];
      PromptStaysOpen(cfg, clock, acts, more[..|more| - 1], p);
    }
  }
}
