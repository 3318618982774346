/**
 One request served while no other thread steps: what the fourteen steps amount to. The agent's own method
 is proved against the same function, so that it and the step system describe one thing.
 */
module SigningAlone {
  import opened Wrappers
  import opened SigningProtocol
  import Policies = CallerPolicy
  import Rates = RateLimit
  import Stalls = StallDetector
  import Log = AuditLog
  import Seqs

  /**
   What one request meets: whether a signer can be made, how long the signing takes and how it ends, what the
   record says besides what the request decides, and whether it can be written.
   */
  datatype Env = Env(
    signer: bool,
    signs: bool,
    outcome: Stalls.Failure,
    takes: nat,
    stamp: string,
    error: string,
    writes: bool)

  function ChoiceAt(pc: Pc, env: Env): Choice {
    match pc
    case MakeSigner => Choice(0, env.signer, env.outcome, env.stamp, env.error)
    case Signing => Choice(env.takes, env.signs, env.outcome, env.stamp, env.error)
    case InAudit(_) => Choice(0, env.writes, env.outcome, env.stamp, env.error)
    case _ => Choice(0, true, env.outcome, env.stamp, env.error)
  }

  // ---------------------------------------------------------------- what it amounts to

  /** The request is one for the rate limiter: its caller may use the key, and there is a limit. */
  predicate Rated(cfg: Config, t: nat)
    requires t < |cfg.requests|
  {
    Matched(cfg, t) && Refusal(cfg, t).None? && cfg.limit > 0
  }

  /** Why the request does not get to the signer; None when it does. */
  function Rejection(cfg: Config, s: State, t: nat): Option<Result>
    requires t < |cfg.requests|
  {
    if Refusal(cfg, t).Some? then Refusal(cfg, t)
    else if cfg.limit > 0 && !RateAdmits(cfg, s, t) then Some(RateLimited)
    else None
  }

  function Verdict(cfg: Config, s: State, t: nat, env: Env): Result
    requires t < |cfg.requests|
  {
    if !Matched(cfg, t) then Unmatched
    else if Rejection(cfg, s, t).Some? then Rejection(cfg, s, t).value
    else if !env.signer then NoSigner
    else if env.signs then Signed
    else SignFailed
  }

  /** How a request served alone ends, in terms of its caller, the last minute of its key, and its signer. */
  lemma VerdictExactly(cfg: Config, s: State, t: nat, env: Env)
    requires t < |cfg.requests| && Rates.UpTo(Times(s, KeyOf(cfg, t).name), s.clock)
    ensures var v, key, peer, p := Verdict(cfg, s, t, env), KeyOf(cfg, t), cfg.requests[t].peer, cfg.policy;
      var welcome := p.enforce ==>
        Policies.Recognized(cfg.resolve, p.rules, peer) && (p.requireHardened ==> peer.hardened);
      var own := key.rules == [] || Policies.Recognized(cfg.resolve, key.rules, peer);
      var full := cfg.limit > 0 && |Rates.WithinMinute(Times(s, key.name), s.clock)| >= cfg.limit;
      && (v == Unmatched <==> cfg.requests[t].key == None)
      && (v != Unmatched ==>
            && (v == BadCaller <==> !welcome)
            && (v == BadRule <==> welcome && !own)
            && (v == RateLimited <==> welcome && own && full)
            && (v == NoSigner <==> welcome && own && !full && !env.signer)
            && (v == Signed <==> welcome && own && !full && env.signer && env.signs))
  {
    Policies.VerdictsExactly(cfg.resolve, cfg.policy, cfg.requests[t].peer);
    Policies.MatchedIsRecognized(cfg.resolve, KeyOf(cfg, t).rules, cfg.requests[t].peer);
    Rates.GrantsExactly(Times(s, KeyOf(cfg, t).name), cfg.limit, s.clock);
  }

  function BucketsAfter(cfg: Config, s: State, t: nat): map<string, seq<int>>
    requires t < |cfg.requests|
  {
    var name := KeyOf(cfg, t).name;
    if Rated(cfg, t) then s.buckets[name := Rates.Keep(Times(s, name), cfg.limit, s.clock)] else s.buckets
  }

  function GrantsAfter(cfg: Config, s: State, t: nat): seq<Event>
    requires t < |cfg.requests|
  {
    s.events +
    if Rated(cfg, t) && RateAdmits(cfg, s, t) then [Granted(KeyOf(cfg, t).name, t, s.clock)] else []
  }

  /** The state when the prompt has been answered. */
  function Answered(cfg: Config, s: State, t: nat, r: Result, env: Env): State {
    var now := s.clock + env.takes;
    var e := Stalls.Event(if r == Signed then Stalls.Completed else env.outcome, now);
    s.(clock := now,
       stall := if KeyOf(cfg, t).touch then Stalls.Step(s.stall, e) else s.stall,
       events := s.events + if r == Signed then [SignedAt(KeyOf(cfg, t).name, t, now)] else [])
  }

  function CallOf(cfg: Config, t: nat, r: Result, env: Env): Call
    requires t < |cfg.requests|
  {
    var error := if r == Signed then "" else env.error;
    Call(t, Log.Entry(env.stamp, KeyOf(cfg, t).name, r == Signed, error, cfg.requests[t].peer), env.writes)
  }

  /** What the request has done to the clock, the buckets, the detector and the history when it is recorded. */
  function Decided(cfg: Config, s: State, t: nat, env: Env): State
    requires t < |cfg.requests|
  {
    var r, judged := Verdict(cfg, s, t, env), s.(buckets := BucketsAfter(cfg, s, t), events := GrantsAfter(cfg, s, t));
    if Prompted(r) then Answered(cfg, judged, t, r, env) else judged
  }

  /** The state after the request, all its locks given back. */
  function Effect(cfg: Config, s: State, t: nat, env: Env): State
    requires |s.pc| == |cfg.requests| && t < |s.pc|
  {
    var r := Verdict(cfg, s, t, env);
    if r == Unmatched then s.(pc := s.pc[t := Done(r)])
    else
      Decided(cfg, s, t, env).(pc := s.pc[t := Done(r)], calls := s.calls + [CallOf(cfg, t, r, env)])
  }

  /** No other thread holds a lock that the request needs. */
  predicate Free(cfg: Config, s: State, t: nat) {
    KeyLock(KeyOf(cfg, t).name) !in s.locks && Bucket(KeyOf(cfg, t).name) !in s.locks &&
    Prompt !in s.locks && Stall !in s.locks && Audit !in s.locks
  }

  // ---------------------------------------------------------------- step by step

  /** The thread may step, and this is where it gets. */
  predicate Steps(cfg: Config, s: State, t: nat, env: Env, s': State) {
    && |s.pc| == |cfg.requests| && Enabled(cfg, s, t)
    && s' == Step(cfg, s, t, ChoiceAt(s.pc[t], env))
  }

  /** What is reached goes on being reached when the thread steps. */
  ghost predicate Closed(cfg: Config, t: nat, env: Env, reached: State -> bool) {
    forall s, s' {:trigger Steps(cfg, s, t, env, s')} :: reached(s) && Steps(cfg, s, t, env, s') ==> reached(s')
  }

  /** A step that takes a free lock and does nothing else. */
  lemma TakesLock(cfg: Config, s: State, t: nat, env: Env, l: Lock, pc: Pc) returns (s': State)
    requires |s.pc| == |cfg.requests| && t < |s.pc|
    requires Wants(cfg, t, s.pc[t]) == Some(l) && l !in s.locks
    requires pc == NextPc(cfg, s, t, ChoiceAt(s.pc[t], env))
    ensures s' == s.(pc := s.pc[t := pc], locks := s.locks[l := t]) && Steps(cfg, s, t, env, s')
  {
    s' := Step(cfg, s, t, ChoiceAt(s.pc[t], env));
  }

  /** A step that moves on and does nothing else. */
  lemma MovesOn(cfg: Config, s: State, t: nat, env: Env, pc: Pc) returns (s': State)
    requires |s.pc| == |cfg.requests| && t < |s.pc|
    requires s.pc[t].Start? || s.pc[t].Checking? || s.pc[t].MakeSigner?
    requires pc == NextPc(cfg, s, t, ChoiceAt(s.pc[t], env))
    ensures s' == s.(pc := s.pc[t := pc]) && Steps(cfg, s, t, env, s')
  {
    s' := Step(cfg, s, t, ChoiceAt(s.pc[t], env));
  }

  lemma GivesBack(locks: map<Lock, nat>, l: Lock, t: nat)
    requires l !in locks
    ensures locks[l := t] - {l} == locks
  {
  }

  /** Unlocking. */
  lemma DropsLock(cfg: Config, s: State, t: nat, env: Env, locks: map<Lock, nat>, l: Lock, pc: Pc) returns (s': State)
    requires |s.pc| == |cfg.requests| && t < |s.pc| && (s.pc[t].DropPrompt? || s.pc[t].DropKey?)
    requires Gives(cfg, t, s.pc[t]) == Some(l) && l !in locks && s.locks == locks[l := t]
    requires pc == NextPc(cfg, s, t, ChoiceAt(s.pc[t], env))
    ensures s' == s.(pc := s.pc[t := pc], locks := locks) && Steps(cfg, s, t, env, s')
  {
    GivesBack(locks, l, t);
    s' := Step(cfg, s, t, ChoiceAt(s.pc[t], env));
  }

  /** The turn in the rate bucket, with its lock held and given back. */
  lemma InTheBucket(cfg: Config, s: State, s1: State, t: nat, env: Env) returns (s': State)
    requires |s.pc| == |cfg.requests| && t < |s.pc| && Rated(cfg, t) && s.pc[t] == WantBucket
    requires var l := Bucket(KeyOf(cfg, t).name);
      l !in s.locks && s1 == s.(pc := s.pc[t := InBucket], locks := s.locks[l := t])
    ensures Steps(cfg, s1, t, env, s')
    ensures s' == s.(pc := s.pc[t := if RateAdmits(cfg, s, t) then MakeSigner else WantAudit(RateLimited)],
                     buckets := BucketsAfter(cfg, s, t), events := GrantsAfter(cfg, s, t))
  {
    GivesBack(s.locks, Bucket(KeyOf(cfg, t).name), t);
    s' := Step(cfg, s1, t, ChoiceAt(s1.pc[t], env));
    assert s1.pc[t := s'.pc[t]] == s.pc[t := s'.pc[t]];
  }

  lemma Signs(cfg: Config, s: State, t: nat, env: Env) returns (s': State)
    requires |s.pc| == |cfg.requests| && t < |s.pc| && s.pc[t] == Signing && Matched(cfg, t)
    ensures Steps(cfg, s, t, env, s')
    ensures var r := if env.signs then Signed else SignFailed;
      var o := if env.signs then Stalls.Completed else env.outcome;
      s' == s.(pc := s.pc[t := if KeyOf(cfg, t).touch then WantStall(r, o) else WantAudit(r)],
               clock := s.clock + env.takes,
               events := s.events + if r == Signed then [SignedAt(KeyOf(cfg, t).name, t, s.clock + env.takes)] else [])
  {
    s' := Step(cfg, s, t, ChoiceAt(s.pc[t], env));
  }

  /** The turn in the stall detector. */
  lemma InTheStall(cfg: Config, s: State, s1: State, t: nat, env: Env, r: Result, o: Stalls.Outcome) returns (s': State)
    requires |s.pc| == |cfg.requests| && t < |s.pc| && s.pc[t] == WantStall(r, o)
    requires Stall !in s.locks && s1 == s.(pc := s.pc[t := InStall(r, o)], locks := s.locks[Stall := t])
    ensures Steps(cfg, s1, t, env, s')
    ensures s' == s.(pc := s.pc[t := WantAudit(r)], stall := Stalls.Step(s.stall, Stalls.Event(o, s.clock)))
  {
    GivesBack(s.locks, Stall, t);
    s' := Step(cfg, s1, t, ChoiceAt(s1.pc[t], env));
    assert s1.pc[t := WantAudit(r)] == s.pc[t := WantAudit(r)];
  }

  /** The turn in the audit log. */
  lemma InTheAudit(cfg: Config, s: State, s1: State, t: nat, env: Env, r: Result) returns (s': State)
    requires |s.pc| == |cfg.requests| && t < |s.pc| && s.pc[t] == WantAudit(r)
    requires Audit !in s.locks && s1 == s.(pc := s.pc[t := InAudit(r)], locks := s.locks[Audit := t])
    ensures Steps(cfg, s1, t, env, s')
    ensures s' == s.(pc := s.pc[t := if KeyOf(cfg, t).touch && Prompted(r) then DropPrompt(r) else DropKey(r)],
                     calls := s.calls + [CallOf(cfg, t, r, env)])
  {
    GivesBack(s.locks, Audit, t);
    s' := Step(cfg, s1, t, ChoiceAt(s1.pc[t], env));
    assert s1.pc[t := s'.pc[t]] == s.pc[t := s'.pc[t]];
  }

  // ---------------------------------------------------------------- stage by stage

  /** To the key's lock. */
  lemma ToTheKey(cfg: Config, reached: State -> bool, s: State, t: nat, env: Env)
    returns (s': State)
    requires Closed(cfg, t, env, reached) && reached(s)
    requires |s.pc| == |cfg.requests| && t < |s.pc|
    requires s.pc[t] == Start && Matched(cfg, t) && KeyLock(KeyOf(cfg, t).name) !in s.locks
    ensures reached(s')
    ensures s' == s.(pc := s.pc[t := Checking], locks := s.locks[KeyLock(KeyOf(cfg, t).name) := t])
  {
    var s1 := MovesOn(cfg, s, t, env, WantKey);
    s' := TakesLock(cfg, s1, t, env, KeyLock(KeyOf(cfg, t).name), Checking);
    assert s1.pc[t := Checking] == s.pc[t := Checking];
  }

  /** Where the callers' rules send a request. */
  function Judged(cfg: Config, t: nat): Pc
    requires t < |cfg.requests|
  {
    if Refusal(cfg, t).Some? then WantAudit(Refusal(cfg, t).value)
    else if cfg.limit <= 0 then MakeSigner
    else WantBucket
  }

  /** Through the callers' rules. */
  lemma ToTheJudgement(cfg: Config, reached: State -> bool, s: State, t: nat, env: Env)
    returns (s': State)
    requires Closed(cfg, t, env, reached) && reached(s)
    requires |s.pc| == |cfg.requests| && t < |s.pc| && s.pc[t] == Checking && Matched(cfg, t)
    ensures reached(s')
    ensures s' == s.(pc := s.pc[t := Judged(cfg, t)])
  {
    s' := MovesOn(cfg, s, t, env, Judged(cfg, t));
  }

  /** Through the rate limiter. */
  lemma ToTheAdmission(cfg: Config, reached: State -> bool, s: State, t: nat, env: Env)
    returns (s': State)
    requires Closed(cfg, t, env, reached) && reached(s)
    requires |s.pc| == |cfg.requests| && t < |s.pc|
    requires s.pc[t] == WantBucket && Rated(cfg, t) && Bucket(KeyOf(cfg, t).name) !in s.locks
    ensures reached(s')
    ensures s' == s.(pc := s.pc[t := if RateAdmits(cfg, s, t) then MakeSigner else WantAudit(RateLimited)],
                     buckets := BucketsAfter(cfg, s, t), events := GrantsAfter(cfg, s, t))
  {
    var s1 := TakesLock(cfg, s, t, env, Bucket(KeyOf(cfg, t).name), InBucket);
    s' := InTheBucket(cfg, s, s1, t, env);
  }

  /** From the admission to the signer's answer, for a key without touch. */
  lemma ToThePlainAnswer(cfg: Config, reached: State -> bool, s: State, t: nat, env: Env)
    returns (s': State)
    requires Closed(cfg, t, env, reached) && reached(s)
    requires |s.pc| == |cfg.requests| && t < |s.pc|
    requires s.pc[t] == MakeSigner && Matched(cfg, t) && !KeyOf(cfg, t).touch && env.signer
    ensures reached(s')
    ensures var r := if env.signs then Signed else SignFailed;
      s' == Answered(cfg, s, t, r, env).(pc := s.pc[t := WantAudit(r)])
  {
    var s1 := MovesOn(cfg, s, t, env, Signing);
    s' := Signs(cfg, s1, t, env);
    assert s1.pc[t := s'.pc[t]] == s.pc[t := s'.pc[t]];
  }

  /** From the admission to the prompt, for a key with touch. */
  lemma ToThePrompt(cfg: Config, reached: State -> bool, s: State, t: nat, env: Env)
    returns (s': State)
    requires Closed(cfg, t, env, reached) && reached(s)
    requires |s.pc| == |cfg.requests| && t < |s.pc|
    requires s.pc[t] == MakeSigner && Matched(cfg, t) && KeyOf(cfg, t).touch && env.signer
    requires Prompt !in s.locks
    ensures reached(s')
    ensures s' == s.(pc := s.pc[t := Signing], locks := s.locks[Prompt := t])
  {
    var s1 := MovesOn(cfg, s, t, env, WantPrompt);
    s' := TakesLock(cfg, s1, t, env, Prompt, Signing);
    assert s1.pc[t := Signing] == s.pc[t := Signing];
  }

  /** The signing itself. */
  lemma ToTheSignature(cfg: Config, reached: State -> bool, s: State, t: nat, env: Env)
    returns (s': State)
    requires Closed(cfg, t, env, reached) && reached(s)
    requires |s.pc| == |cfg.requests| && t < |s.pc| && s.pc[t] == Signing && Matched(cfg, t) && KeyOf(cfg, t).touch
    ensures reached(s')
    ensures var r := if env.signs then Signed else SignFailed;
      var o := if env.signs then Stalls.Completed else env.outcome;
      s' == s.(pc := s.pc[t := WantStall(r, o)], clock := s.clock + env.takes,
               events := s.events + if r == Signed then [SignedAt(KeyOf(cfg, t).name, t, s.clock + env.takes)] else [])
  {
    s' := Signs(cfg, s, t, env);
  }

  /** Through the stall detector. */
  lemma ToTheNote(cfg: Config, reached: State -> bool, s: State, t: nat, env: Env, r: Result, o: Stalls.Outcome)
    returns (s': State)
    requires Closed(cfg, t, env, reached) && reached(s)
    requires |s.pc| == |cfg.requests| && t < |s.pc| && s.pc[t] == WantStall(r, o) && Stall !in s.locks
    ensures reached(s')
    ensures s' == s.(pc := s.pc[t := WantAudit(r)], stall := Stalls.Step(s.stall, Stalls.Event(o, s.clock)))
  {
    var s1 := TakesLock(cfg, s, t, env, Stall, InStall(r, o));
    s' := InTheStall(cfg, s, s1, t, env, r, o);
  }

  /** From the prompt to its answer. */
  lemma ToThePromptedAnswer(cfg: Config, reached: State -> bool, s: State, t: nat, env: Env)
    returns (s': State)
    requires Closed(cfg, t, env, reached) && reached(s)
    requires |s.pc| == |cfg.requests| && t < |s.pc|
    requires s.pc[t] == Signing && Matched(cfg, t) && KeyOf(cfg, t).touch && Stall !in s.locks
    ensures reached(s')
    ensures var r := if env.signs then Signed else SignFailed;
      s' == Answered(cfg, s, t, r, env).(pc := s.pc[t := WantAudit(r)])
  {
    var r, o := if env.signs then Signed else SignFailed, if env.signs then Stalls.Completed else env.outcome;
    var s1 := ToTheSignature(cfg, reached, s, t, env);
    s' := ToTheNote(cfg, reached, s1, t, env, r, o);
    assert s1.pc[t := WantAudit(r)] == s.pc[t := WantAudit(r)];
  }

  /** Through the audit log. */
  lemma ToTheRecord(cfg: Config, reached: State -> bool, s: State, t: nat, env: Env, r: Result)
    returns (s': State)
    requires Closed(cfg, t, env, reached) && reached(s)
    requires |s.pc| == |cfg.requests| && t < |s.pc| && s.pc[t] == WantAudit(r) && Audit !in s.locks
    ensures reached(s')
    ensures s' == s.(pc := s.pc[t := if KeyOf(cfg, t).touch && Prompted(r) then DropPrompt(r) else DropKey(r)],
                     calls := s.calls + [CallOf(cfg, t, r, env)])
  {
    var s1 := TakesLock(cfg, s, t, env, Audit, InAudit(r));
    s' := InTheAudit(cfg, s, s1, t, env, r);
  }

  /** Gives back the key's lock, and before it the prompt's. */
  lemma ToTheExit(cfg: Config, reached: State -> bool, s: State, locks: map<Lock, nat>, t: nat, env: Env, r: Result)
    returns (s': State)
    requires Closed(cfg, t, env, reached) && reached(s)
    requires var key := KeyOf(cfg, t);
      && |s.pc| == |cfg.requests| && t < |s.pc|
      && s.pc[t] == (if key.touch && Prompted(r) then DropPrompt(r) else DropKey(r))
      && KeyLock(key.name) !in locks && Prompt !in locks
      && s.locks == if key.touch && Prompted(r) then locks[KeyLock(key.name) := t][Prompt := t]
                    else locks[KeyLock(key.name) := t]
    ensures reached(s')
    ensures s' == s.(pc := s.pc[t := Done(r)], locks := locks)
  {
    var key := KeyOf(cfg, t);
    s' := s;
    if key.touch && Prompted(r) {
      s' := DropsLock(cfg, s, t, env, locks[KeyLock(key.name) := t], Prompt, DropKey(r));
    }
    var s1 := s';
    s' := DropsLock(cfg, s1, t, env, locks, KeyLock(key.name), Done(r));
    assert s1.pc[t := Done(r)] == s.pc[t := Done(r)];
  }

  /** From the audit to the end. */
  lemma ToTheEnd(cfg: Config, reached: State -> bool, s: State, locks: map<Lock, nat>, t: nat, env: Env, r: Result)
    returns (s': State)
    requires Closed(cfg, t, env, reached) && reached(s)
    requires |s.pc| == |cfg.requests| && t < |s.pc| && s.pc[t] == WantAudit(r)
    requires var key := KeyOf(cfg, t);
      && KeyLock(key.name) !in locks && Prompt !in locks && Audit !in locks
      && s.locks == if key.touch && Prompted(r) then locks[KeyLock(key.name) := t][Prompt := t]
                    else locks[KeyLock(key.name) := t]
    ensures reached(s')
    ensures s' == s.(pc := s.pc[t := Done(r)], locks := locks, calls := s.calls + [CallOf(cfg, t, r, env)])
  {
    var s1 := ToTheRecord(cfg, reached, s, t, env, r);
    s' := ToTheExit(cfg, reached, s1, locks, t, env, r);
    assert s1.pc[t := Done(r)] == s.pc[t := Done(r)];
  }

  /** From the admission to the signer's answer. */
  lemma ToTheAnswer(cfg: Config, reached: State -> bool, s: State, t: nat, env: Env) returns (s': State)
    requires Closed(cfg, t, env, reached) && reached(s)
    requires |s.pc| == |cfg.requests| && t < |s.pc| && s.pc[t] == MakeSigner && Matched(cfg, t)
    requires Prompt !in s.locks && Stall !in s.locks
    ensures reached(s')
    ensures s' ==
            if !env.signer then s.(pc := s.pc[t := WantAudit(NoSigner)])
            else
              var r := if env.signs then Signed else SignFailed;
              Answered(cfg, s, t, r, env).(
                pc := s.pc[t := WantAudit(r)],
                locks := if KeyOf(cfg, t).touch then s.locks[Prompt := t] else s.locks)
  {
    if !env.signer {
      s' := MovesOn(cfg, s, t, env, WantAudit(NoSigner));
    } else if KeyOf(cfg, t).touch {
      var s1 := ToThePrompt(cfg, reached, s, t, env);
      s' := ToThePromptedAnswer(cfg, reached, s1, t, env);
      var r := if env.signs then Signed else SignFailed;
      assert s1.pc[t := WantAudit(r)] == s.pc[t := WantAudit(r)];
    } else {
      s' := ToThePlainAnswer(cfg, reached, s, t, env);
    }
  }

  /** From the start to a refusal or an admission. */
  lemma ToTheOutcome(cfg: Config, reached: State -> bool, s: State, t: nat, env: Env) returns (s': State)
    requires Closed(cfg, t, env, reached) && reached(s)
    requires |s.pc| == |cfg.requests| && t < |s.pc| && s.pc[t] == Start && Matched(cfg, t) && Free(cfg, s, t)
    ensures reached(s')
    ensures var rejection := Rejection(cfg, s, t);
      s' == s.(pc := s.pc[t := if rejection.Some? then WantAudit(rejection.value) else MakeSigner],
               locks := s.locks[KeyLock(KeyOf(cfg, t).name) := t],
               buckets := BucketsAfter(cfg, s, t), events := GrantsAfter(cfg, s, t))
  {
    var s1 := ToTheKey(cfg, reached, s, t, env);
    s' := ToTheJudgement(cfg, reached, s1, t, env);
    assert s'.pc == s.pc[t := Judged(cfg, t)];
    if Rated(cfg, t) {
      var s2 := s';
      s' := ToTheAdmission(cfg, reached, s2, t, env);
      assert s'.pc == s.pc[t := s'.pc[t]];
    } else {
      assert s.events + [] == s.events;
    }
  }

  /** From the start to the audit. */
  lemma ToTheVerdict(cfg: Config, reached: State -> bool, s: State, t: nat, env: Env) returns (s': State)
    requires Closed(cfg, t, env, reached) && reached(s)
    requires |s.pc| == |cfg.requests| && t < |s.pc| && s.pc[t] == Start && Matched(cfg, t) && Free(cfg, s, t)
    ensures reached(s')
    ensures var r, key := Verdict(cfg, s, t, env), KeyOf(cfg, t);
      s' == Decided(cfg, s, t, env).(
        pc := s.pc[t := WantAudit(r)],
        locks := if key.touch && Prompted(r) then s.locks[KeyLock(key.name) := t][Prompt := t]
                 else s.locks[KeyLock(key.name) := t])
  {
    s' := ToTheOutcome(cfg, reached, s, t, env);
    if Rejection(cfg, s, t).None? {
      var s1 := s';
      s' := ToTheAnswer(cfg, reached, s1, t, env);
      assert s'.pc == s.pc[t := s'.pc[t]];
    }
  }

  /** A request served alone has its effect. */
  lemma Serves(cfg: Config, reached: State -> bool, s: State, t: nat, env: Env)
    requires Closed(cfg, t, env, reached) && reached(s)
    requires |s.pc| == |cfg.requests| && t < |s.pc| && s.pc[t] == Start && Free(cfg, s, t)
    ensures reached(Effect(cfg, s, t, env))
  {
    if !Matched(cfg, t) {
      var s' := MovesOn(cfg, s, t, env, Done(Unmatched));
    } else {
      var r := Verdict(cfg, s, t, env);
      var s1 := ToTheVerdict(cfg, reached, s, t, env);
      var s2 := ToTheEnd(cfg, reached, s1, s.locks, t, env, r);
      assert s2.pc == s.pc[t := Done(r)];
      assert s2 == Effect(cfg, s, t, env);
    }
  }

  /** The steps of one thread. */
  predicate StepsOf(t: nat, acts: seq<Action>) {
    forall i :: 0 <= i < |acts| ==> acts[i].thread == t
  }

  /** After a schedule, the thread's steps alone can lead to the state. */
  ghost predicate LeadsTo(cfg: Config, clock: int, acts: seq<Action>, t: nat, more: seq<Action>, s: State) {
    StepsOf(t, more) && Legal(cfg, clock, acts + more) && After(cfg, clock, acts + more) == s
  }

  lemma OneStepFurther(cfg: Config, clock: int, acts: seq<Action>, t: nat, more: seq<Action>, env: Env, s: State,
                       s': State)
    requires LeadsTo(cfg, clock, acts, t, more, s) && Steps(cfg, s, t, env, s')
    ensures LeadsTo(cfg, clock, acts, t, more + [Action(t, ChoiceAt(s.pc[t], env))], s')
  {
    var a := Action(t, ChoiceAt(s.pc[t], env));
    Seqs.Assoc(acts, more, [a]);
    assert (acts + more + [a])[..|acts + more|] == acts + more;
  }

  /**
   From any reachable state whose other threads keep the request's locks free, the run can go on with steps
   of the request's thread alone, and they have its effect.
   */
  lemma ServedAlone(cfg: Config, clock: int, acts: seq<Action>, t: nat, env: Env) returns (more: seq<Action>)
    requires Legal(cfg, clock, acts)
    requires var s := After(cfg, clock, acts); t < |s.pc| && s.pc[t] == Start && Free(cfg, s, t)
    ensures StepsOf(t, more) && Legal(cfg, clock, acts + more)
    ensures After(cfg, clock, acts + more) == Effect(cfg, After(cfg, clock, acts), t, env)
  {
    var reached := s => exists way :: LeadsTo(cfg, clock, acts, t, way, s);
    forall s, s' | reached(s) && Steps(cfg, s, t, env, s') ensures reached(s') {
      var way :| LeadsTo(cfg, clock, acts, t, way, s);
      OneStepFurther(cfg, clock, acts, t, way, env, s, s');
    }
    assert acts + [] == acts;
    assert LeadsTo(cfg, clock, acts, t, [], After(cfg, clock, acts));
    Serves(cfg, reached, After(cfg, clock, acts), t, env);
    more :| LeadsTo(cfg, clock, acts, t, more, Effect(cfg, After(cfg, clock, acts), t, env));
  }
}
