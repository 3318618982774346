/**
 The agent itself: the method that serves one signature request, its locks, and the parts it calls. It is
 proved against the effect of the same request's steps in the signing protocol.
 */
module Agents {
  import opened Peers
  import opened SigningAlone
  import opened SigningProtocol
  import opened Wrappers
  import Audits = SigningAudit
  import Log = AuditLog
  import Policies = CallerPolicy
  import Stalls = StallDetector

  class Mutex {
    var held: bool

    constructor ()
      ensures !held
    {
      held := false;
    }

    method Lock()
      requires !held
      modifies this
      ensures held
    {
      held := true;
    }

    method Unlock()
      requires held
      modifies this
      ensures !held
    {
      held := false;
    }
  }

  /** A result and what is left of the agent's parts, against the state of the protocol. */
  predicate Follows(f: Log.Format, e: State, r: Result, kept: map<string, seq<int>>, stall: Stalls.State,
                    before: Log.Log, after: Log.Log) {
    e.pc == [Done(r)] && kept == e.buckets && stall == e.stall && after == Log.Run(f, before, Audits.Ops(e.calls))
  }

  lemma UnmatchedFollows(f: Log.Format, cfg: Config, s: State, env: Env, log: Log.Log)
    requires |cfg.requests| == 1 && cfg.requests[0].key == None && s.pc == [Start] && s.calls == []
    ensures Follows(f, Effect(cfg, s, 0, env), Unmatched, s.buckets, s.stall, log, log)
  {
    assert Audits.Ops([]) == [];
  }

  lemma OneOp(f: Log.Format, log: Log.Log, c: Call)
    ensures Log.Run(f, log, Audits.Ops([c])) == Log.Step(f, log, Log.Sign(c.entry, c.writes))
  {
    var ops := Audits.Ops([c]);
    assert ops == [Log.Sign(c.entry, c.writes)] && ops[..0] == [];
  }

  function LogOp(key: Key, success: bool, peer: Peer, env: Env): Log.Op {
    Log.Sign(Log.Entry(env.stamp, key.name, success, if success then "" else env.error, peer), env.writes)
  }

  /** What the stall detector is told of a request that ended with `r`. */
  function StallAfter(key: Key, stall: Stalls.State, r: Result, now: int, env: Env): Stalls.State {
    if key.touch && Prompted(r)
    then Stalls.Step(stall, Stalls.Event(if r == Signed then Stalls.Completed else env.outcome, now + env.takes))
    else stall
  }

  /** How a request ends that was rejected, or that got to the signer. */
  function Settled(rejection: Option<Result>, env: Env): Result {
    if rejection.Some? then rejection.value
    else if !env.signer then NoSigner
    else if env.signs then Signed
    else SignFailed
  }

  lemma PartsFollow(f: Log.Format, cfg: Config, s: State, key: Key, peer: Peer, env: Env, before: Log.Log)
    requires |cfg.requests| == 1 && cfg.requests[0].key == Some(key) && cfg.requests[0].peer == peer
    requires s.pc == [Start] && s.calls == []
    ensures var rejection := Rejection(cfg, s, 0); var r := Settled(rejection, env);
      && (rejection.Some? ==> !Prompted(rejection.value))
      && Follows(f, Effect(cfg, s, 0, env), r, BucketsAfter(cfg, s, 0), StallAfter(key, s.stall, r, s.clock, env),
                 before, Log.Step(f, before, LogOp(key, r == Signed, peer, env)))
  {
    var r := Settled(Rejection(cfg, s, 0), env);
    assert r == Verdict(cfg, s, 0, env);
    assert Effect(cfg, s, 0, env).calls == [CallOf(cfg, 0, r, env)];
    OneOp(f, before, CallOf(cfg, 0, r, env));
  }

  class Agent {
    const store: seq<Key>
    const resolve: Policies.Resolver
    const policy: Policies.PeerPolicy
    const detector: Stalls.Detector
    const audit: Log.AuditLogger
    const biometricMu: Mutex
    var keyMu: map<string, Mutex>

    /** The parts that a request for a stored key works on, besides the locks. */
    ghost predicate PartsValid()
      reads policy, policy.Repr, detector, biometricMu
    {
      && policy.Valid() && policy.Faithful() && detector.Valid() && !biometricMu.held
      && detector !in policy.Repr && audit !in policy.Repr && audit.file !in policy.Repr && biometricMu !in policy.Repr
    }

    /** Every part is in order and every lock is free. */
    ghost predicate Valid()
      reads this, policy, policy.Repr, detector, biometricMu, keyMu.Values
    {
      && PartsValid() && this !in policy.Repr
      && (forall name {:trigger keyMu[name]} :: name in keyMu ==>
            keyMu[name] !in policy.Repr && keyMu[name] != biometricMu && !keyMu[name].held)
    }

    /** The protocol's view of a request to this agent. */
    ghost function Asked(wanted: string, peer: Peer): Config {
      Config(store, [Request(wanted, Match(store, wanted), peer)], policy.policy, resolve, policy.rateLimit)
    }

    ghost function Snapshot(now: int): State
      reads policy, detector
    {
      State([Start], map[], now, policy.kept, detector.Now(), [], [])
    }

    constructor (store: seq<Key>, resolve: Policies.Resolver, policy: Policies.PeerPolicy, detector: Stalls.Detector,
                 audit: Log.AuditLogger)
      requires policy.Valid() && policy.Faithful() && detector.Valid()
      requires detector !in policy.Repr && audit !in policy.Repr && audit.file !in policy.Repr
      ensures Valid() && keyMu == map[]
      ensures this.store == store && this.resolve == resolve && this.policy == policy
      ensures this.detector == detector && this.audit == audit
    {
      this.store, this.resolve, this.policy := store, resolve, policy;
      this.detector, this.audit := detector, audit;
      biometricMu := new Mutex();
      keyMu := map[];
    }

    /** The first stored key whose wire form is the wanted one. */
    method FindKey(wanted: string) returns (matched: Option<Key>)
      ensures matched == Match(store, wanted)
    {
      for i := 0 to |store|
        invariant Match(store, wanted) == Match(store[i..], wanted)
      {
        if store[i].blob == Some(wanted) {
          return Some(store[i]);
        }
        assert store[i..][1..] == store[i + 1..];
      }
      return None;
    }

    /** The lock that all requests for one label share; it is made on first use. */
    method KeyLock(name: string) returns (mu: Mutex)
      requires Valid()
      modifies `keyMu
      ensures Valid()
      ensures name in keyMu && mu == keyMu[name]
      ensures name in old(keyMu) ==> keyMu == old(keyMu)
      ensures name !in old(keyMu) ==> fresh(mu) && !mu.held && keyMu == old(keyMu)[name := mu]
    {
      if name !in keyMu {
        var made := new Mutex();
        keyMu := keyMu[name := made];
      }
      mu := keyMu[name];
    }

    method Record(key: Key, success: bool, peer: Peer, env: Env)
      modifies audit, audit.file
      ensures audit.State() == Log.Step(audit.format, old(audit.State()), LogOp(key, success, peer, env))
    {
      var error := if success then "" else env.error;
      var written := audit.Sign(Log.Entry(env.stamp, key.name, success, error, peer), env.writes);
    }

    /** The global policy, then the key's own rules, then the rate limit. */
    method Admit(wanted: string, key: Key, peer: Peer, now: int) returns (rejection: Option<Result>)
      requires Match(store, wanted) == Some(key)
      requires policy.Valid() && policy.Faithful() && policy.clock <= now
      modifies policy.Repr
      ensures policy.Valid() && policy.Faithful() && policy.clock <= now && fresh(policy.Repr - old(policy.Repr))
      ensures rejection == Rejection(Asked(wanted, peer), old(Snapshot(now)), 0)
      ensures policy.kept == BucketsAfter(Asked(wanted, peer), old(Snapshot(now)), 0)
    {
      if Policies.CheckCaller(resolve, policy.policy, peer) != Policies.Admitted {
        return Some(BadCaller);
      }
      if |key.rules| > 0 && !Policies.MatchesAny(resolve, key.rules, peer) {
        return Some(BadRule);
      }
      var ok := policy.CheckRate(key.name, now);
      if !ok {
        return Some(RateLimited);
      }
      return None;
    }

    /** From the admission to the record, with the prompt's lock held for a key with touch. */
    method Attempt(key: Key, peer: Peer, now: int, env: Env) returns (r: Result)
      requires detector.Valid() && !biometricMu.held
      modifies detector, audit, audit.file, biometricMu
      ensures detector.Valid() && !biometricMu.held
      ensures r == Settled(None, env)
      ensures detector.Now() == StallAfter(key, old(detector.Now()), r, now, env)
      ensures audit.State() == Log.Step(audit.format, old(audit.State()), LogOp(key, r == Signed, peer, env))
    {
      if !env.signer {
        Record(key, false, peer, env);
        return NoSigner;
      }
      if key.touch {
        biometricMu.Lock();
      }
      if !env.signs {
        if key.touch {
          var alert := detector.NoteBiometricOutcome(env.outcome, now + env.takes);
        }
        Record(key, false, peer, env);
        r := SignFailed;
      } else {
        if key.touch {
          var alert := detector.NoteBiometricOutcome(Stalls.Completed, now + env.takes);
        }
        Record(key, true, peer, env);
        r := Signed;
      }
      if key.touch {
        biometricMu.Unlock();
      }
    }

    /** Records a rejection, or goes on to the signer. */
    method Answer(rejection: Option<Result>, key: Key, peer: Peer, now: int, env: Env) returns (r: Result)
      requires detector.Valid() && !biometricMu.held && (rejection.Some? ==> !Prompted(rejection.value))
      modifies detector, audit, audit.file, biometricMu
      ensures detector.Valid() && !biometricMu.held
      ensures r == Settled(rejection, env)
      ensures detector.Now() == StallAfter(key, old(detector.Now()), r, now, env)
      ensures audit.State() == Log.Step(audit.format, old(audit.State()), LogOp(key, r == Signed, peer, env))
    {
      if rejection.Some? {
        r := rejection.value;
        Record(key, false, peer, env);
      } else {
        r := Attempt(key, peer, now, env);
      }
    }

    /** What a request does while it holds its key's lock. */
    method Locked(wanted: string, key: Key, peer: Peer, now: int, env: Env) returns (r: Result)
      requires Match(store, wanted) == Some(key) && PartsValid() && policy.clock <= now
      modifies policy.Repr, detector, audit, audit.file, biometricMu
      ensures PartsValid() && policy.clock <= now && fresh(policy.Repr - old(policy.Repr))
      ensures Follows(audit.format, Effect(Asked(wanted, peer), old(Snapshot(now)), 0, env), r, policy.kept,
                      detector.Now(), old(audit.State()), audit.State())
    {
      PartsFollow(audit.format, Asked(wanted, peer), Snapshot(now), key, peer, env, audit.State());
      var rejection := Admit(wanted, key, peer, now);
      r := Answer(rejection, key, peer, now, env);
    }

    /** The same between locking and unlocking. */
    method Guarded(mu: Mutex, wanted: string, key: Key, peer: Peer, now: int, env: Env) returns (r: Result)
      requires Match(store, wanted) == Some(key) && Valid() && policy.clock <= now
      requires key.name in keyMu && mu == keyMu[key.name]
      modifies mu, policy.Repr, detector, audit, audit.file, biometricMu
      ensures Valid() && policy.clock <= now
      ensures Follows(audit.format, Effect(Asked(wanted, peer), old(Snapshot(now)), 0, env), r, policy.kept,
                      detector.Now(), old(audit.State()), audit.State())
    {
      mu.Lock();
      r := Locked(wanted, key, peer, now, env);
      assert mu !in policy.Repr && mu != biometricMu;
      mu.Unlock();
      assert PartsValid();
    }

    /** Serves a request for a stored key under that key's lock. */
    method ServeKey(wanted: string, key: Key, peer: Peer, now: int, env: Env) returns (r: Result)
      requires Match(store, wanted) == Some(key) && Valid() && policy.clock <= now
      modifies `keyMu, policy.Repr, detector, audit, audit.file, biometricMu
      modifies if key.name in keyMu then {keyMu[key.name]} else {}
      ensures Valid() && policy.clock <= now
      ensures Follows(audit.format, Effect(Asked(wanted, peer), old(Snapshot(now)), 0, env), r, policy.kept,
                      detector.Now(), old(audit.State()), audit.State())
      ensures key.name in keyMu && keyMu == old(keyMu)[key.name := keyMu[key.name]]
      ensures key.name in old(keyMu) ==> keyMu == old(keyMu)
    {
      var mu := KeyLock(key.name);
      r := Guarded(mu, wanted, key, peer, now, env);
    }

    /** Serves one request: its result and all it leaves behind are those of its steps in the protocol. */
    method SignFor(wanted: string, peer: Peer, now: int, env: Env) returns (r: Result)
      requires Valid() && policy.clock <= now
      modifies `keyMu, policy.Repr, detector, audit, audit.file, biometricMu, keyMu.Values
      ensures Valid() && policy.clock <= now
      ensures Follows(audit.format, Effect(Asked(wanted, peer), old(Snapshot(now)), 0, env), r, policy.kept,
                      detector.Now(), old(audit.State()), audit.State())
      ensures forall name :: name in old(keyMu) ==> name in keyMu && keyMu[name] == old(keyMu[name])
    {
      var matched := FindKey(wanted);
      if matched.None? {
        UnmatchedFollows(audit.format, Asked(wanted, peer), Snapshot(now), env, audit.State());
        return Unmatched;
      }
      r := ServeKey(wanted, matched.value, peer, now, env);
    }
  }
}
