/**
 The signing protocol and the audit log: every matched request makes exactly one audit call whose success
 flag is its result, a signature is only made for an admitted caller, and the log that the calls leave on
 disk verifies.
 */
module SigningAudit {
  import opened Wrappers
  import opened SigningProtocol
  import opened SigningLocks
  import Chain = AuditChain
  import Lines = LogLines
  import Log = AuditLog
  import Policies = CallerPolicy

  // ---------------------------------------------------------------- the invariant

  /** The thread has made its audit call. */
  predicate Audited(pc: Pc) {
    pc.DropPrompt? || pc.DropKey? || (pc.Done? && pc.result != Unmatched)
  }

  /** What the thread's position says about its caller: where it was admitted, or why it was not. */
  predicate Judged(cfg: Config, t: nat, pc: Pc)
    requires t < |cfg.requests|
  {
    match pc
    case Start => true
    case WantKey => true
    case Checking => true
    case WantBucket => Refusal(cfg, t) == None && cfg.limit > 0
    case InBucket => Refusal(cfg, t) == None && cfg.limit > 0
    case MakeSigner => Refusal(cfg, t) == None
    case WantPrompt => Refusal(cfg, t) == None
    case Signing => Refusal(cfg, t) == None
    case _ =>
      match pc.result
      case Unmatched => true
      case BadCaller => Refusal(cfg, t) == Some(BadCaller)
      case BadRule => Refusal(cfg, t) == Some(BadRule)
      case RateLimited => Refusal(cfg, t) == None && cfg.limit > 0
      case _ => Refusal(cfg, t) == None
  }

  /** The thread has passed the rate check. */
  predicate PastRate(pc: Pc) {
    match pc
    case MakeSigner => true
    case WantPrompt => true
    case Signing => true
    case Start => false
    case WantKey => false
    case Checking => false
    case WantBucket => false
    case InBucket => false
    case _ => pc.result in {NoSigner, SignFailed, Signed}
  }

  predicate HasGrant(events: seq<Event>, t: nat) {
    exists i :: 0 <= i < |events| && events[i].Granted? && events[i].thread == t
  }

  predicate HasCall(calls: seq<Call>, t: nat) {
    exists i :: 0 <= i < |calls| && calls[i].thread == t
  }

  /** The call says what the thread's request was and how it ended. */
  predicate Truthful(cfg: Config, pc: seq<Pc>, c: Call) {
    && c.thread < |pc| && c.thread < |cfg.requests|
    && Audited(pc[c.thread])
    && c.entry.keyLabel == KeyOf(cfg, c.thread).name
    && c.entry.success == (pc[c.thread].result == Signed)
    && (c.entry.success ==> c.entry.error == "")
    && c.entry.peer == cfg.requests[c.thread].peer
  }

  /** One truthful call for each thread that has made its audit call, and none for the others. */
  ghost predicate CallsExact(cfg: Config, pc: seq<Pc>, calls: seq<Call>) {
    && (forall i :: 0 <= i < |calls| ==> Truthful(cfg, pc, calls[i]))
    && (forall i, j :: 0 <= i < j < |calls| ==> calls[i].thread != calls[j].thread)
    && (forall t :: 0 <= t < |pc| ==> (Audited(pc[t]) <==> HasCall(calls, t)))
    && |calls| == CountAudited(pc)
  }

  ghost predicate GrantsKept(cfg: Config, pc: seq<Pc>, events: seq<Event>) {
    forall t :: 0 <= t < |pc| && PastRate(pc[t]) && cfg.limit > 0 ==> HasGrant(events, t)
  }

  ghost predicate AuditInv(cfg: Config, s: State) {
    && |s.pc| == |cfg.requests|
    && (forall t :: 0 <= t < |s.pc| ==> Judged(cfg, t, s.pc[t]))
    && GrantsKept(cfg, s.pc, s.events)
    && CallsExact(cfg, s.pc, s.calls)
  }

  function CountAudited(pc: seq<Pc>): nat {
    if pc == [] then 0
    else
      var n := |pc| - 1;
      CountAudited(pc[..n]) + if Audited(pc[n]) then 1 else 0
  }

  lemma {:induction false} CountAuditedUpdate(pc: seq<Pc>, t: nat, p: Pc)
    requires t < |pc|
    ensures CountAudited(pc[t := p]) ==
            CountAudited(pc) - (if Audited(pc[t]) then 1 else 0) + if Audited(p) then 1 else 0
  {
    var n := |pc| - 1;
    if t == n {
      assert pc[t := p][..n] == pc[..n];
    } else {
      assert pc[t := p][..n] == pc[..n][t := p];
      CountAuditedUpdate(pc[..n], t, p);
    }
  }

  lemma {:induction false} NoneAuditedAtStart(n: nat)
    ensures CountAudited(seq(n, _ => Start)) == 0
  {
    if n > 0 {
      NoneAuditedAtStart(n - 1);
      assert seq(n, _ => Start)[..n - 1] == seq(n - 1, _ => Start);
    }
  }

  // ---------------------------------------------------------------- one step

  /** A step judges its thread rightly, and only the audit step changes whether it has been audited. */
  lemma NextIsJudged(cfg: Config, s: State, t: nat, c: Choice)
    requires |s.pc| == |cfg.requests| && t < |s.pc| && !s.pc[t].Done?
    requires WellTyped(cfg, t, s.pc[t]) && Judged(cfg, t, s.pc[t])
    ensures var p := NextPc(cfg, s, t, c);
      && Judged(cfg, t, p)
      && (Audited(p) <==> Audited(s.pc[t]) || s.pc[t].InAudit?)
      && (Audited(p) ==> p.result == s.pc[t].result)
      && (PastRate(p) && cfg.limit > 0 ==> PastRate(s.pc[t]) || (s.pc[t].InBucket? && RateAdmits(cfg, s, t)))
  {
  }

  /** What a step adds to the log and to the history. */
  lemma StepAdds(cfg: Config, s: State, t: nat, c: Choice)
    requires |s.pc| == |cfg.requests| && Enabled(cfg, s, t)
    ensures var s' := Step(cfg, s, t, c); var later := s.(clock := s.clock + c.delay);
      && s.events <= s'.events
      && (s.pc[t].InBucket? && RateAdmits(cfg, later, t) ==> HasGrant(s'.events, t))
      && s'.calls ==
         if s.pc[t].InAudit? then
           var signed := s.pc[t].result == Signed;
           s.calls + [Call(t, Log.Entry(c.stamp, KeyOf(cfg, t).name, signed, if signed then "" else c.error,
                                        cfg.requests[t].peer), c.ok)]
         else s.calls
  {
    var s' := Step(cfg, s, t, c);
    var later := s.(clock := s.clock + c.delay);
    if s.pc[t].InBucket? && RateAdmits(cfg, later, t) {
      assert s'.events[|s.events|].Granted? && s'.events[|s.events|].thread == t;
    }
  }

  lemma StepKeepsGrants(events: seq<Event>, events': seq<Event>, t: nat)
    requires events <= events' && HasGrant(events, t)
    ensures HasGrant(events', t)
  {
    var i :| 0 <= i < |events| && events[i].Granted? && events[i].thread == t;
    assert events'[i] == events[i];
  }

  lemma GrantsStay(cfg: Config, pc: seq<Pc>, events: seq<Event>, t: nat, p: Pc, events': seq<Event>)
    requires GrantsKept(cfg, pc, events) && t < |pc| && events <= events'
    requires PastRate(p) && cfg.limit > 0 ==> PastRate(pc[t]) || HasGrant(events', t)
    ensures GrantsKept(cfg, pc[t := p], events')
  {
    forall u | 0 <= u < |pc| && PastRate(pc[t := p][u]) && cfg.limit > 0 ensures HasGrant(events', u) {
      if PastRate(pc[u]) {
        StepKeepsGrants(events, events', u);
      }
    }
  }

  /** Who has a call when at most one is added. */
  lemma CallsOf(calls: seq<Call>, calls': seq<Call>, u: nat)
    requires calls' == calls || (|calls'| == |calls| + 1 && calls'[..|calls|] == calls)
    ensures HasCall(calls', u) <==> HasCall(calls, u) || (calls' != calls && calls'[|calls|].thread == u)
  {
    if HasCall(calls, u) {
      var i :| 0 <= i < |calls| && calls[i].thread == u;
      assert calls'[i].thread == u;
    }
  }

  lemma CallsStayExact(cfg: Config, pc: seq<Pc>, calls: seq<Call>, t: nat, p: Pc, calls': seq<Call>)
    requires CallsExact(cfg, pc, calls) && t < |pc| && !pc[t].Done?
    requires Audited(p) <==> Audited(pc[t]) || pc[t].InAudit?
    requires Audited(p) ==> p.result == pc[t].result
    requires if pc[t].InAudit?
             then |calls'| == |calls| + 1 && calls'[..|calls|] == calls
                  && calls'[|calls|].thread == t && Truthful(cfg, pc[t := p], calls'[|calls|])
             else calls' == calls
    ensures CallsExact(cfg, pc[t := p], calls')
  {
    CountAuditedUpdate(pc, t, p);
    forall i | 0 <= i < |calls| ensures calls'[i] == calls[i] && Truthful(cfg, pc[t := p], calls'[i]) {
      assert Truthful(cfg, pc, calls[i]);
      assert HasCall(calls, calls[i].thread);
    }
    forall u | 0 <= u < |pc| ensures Audited(pc[t := p][u]) <==> HasCall(calls', u) {
      CallsOf(calls, calls', u);
    }
  }

  /** What a step does to its thread, the log and the history. */
  lemma StepParts(cfg: Config, s: State, t: nat, c: Choice) returns (p: Pc, calls: seq<Call>, events: seq<Event>)
    requires |s.pc| == |cfg.requests| && Enabled(cfg, s, t) && WellTyped(cfg, t, s.pc[t]) && Judged(cfg, t, s.pc[t])
    ensures var s' := Step(cfg, s, t, c); s'.pc == s.pc[t := p] && s'.calls == calls && s'.events == events
    ensures Judged(cfg, t, p) && s.events <= events
    ensures Audited(p) <==> Audited(s.pc[t]) || s.pc[t].InAudit?
    ensures Audited(p) ==> p.result == s.pc[t].result
    ensures PastRate(p) && cfg.limit > 0 ==> PastRate(s.pc[t]) || HasGrant(events, t)
    ensures if s.pc[t].InAudit?
            then |calls| == |s.calls| + 1 && calls[..|s.calls|] == s.calls
                 && calls[|s.calls|].thread == t && Truthful(cfg, s.pc[t := p], calls[|s.calls|])
            else calls == s.calls
  {
    var later, s' := s.(clock := s.clock + c.delay), Step(cfg, s, t, c);
    NextIsJudged(cfg, later, t, c);
    StepAdds(cfg, s, t, c);
    p, calls, events := s'.pc[t], s'.calls, s'.events;
  }

  lemma StepKeepsAudit(cfg: Config, s: State, t: nat, c: Choice)
    requires LockInv(cfg, s) && AuditInv(cfg, s) && Enabled(cfg, s, t)
    ensures AuditInv(cfg, Step(cfg, s, t, c))
  {
    var p, calls, events := StepParts(cfg, s, t, c);
    GrantsStay(cfg, s.pc, s.events, t, p, events);
    CallsStayExact(cfg, s.pc, s.calls, t, p, calls);
  }

  lemma {:induction false} AuditHolds(cfg: Config, clock: int, acts: seq<Action>)
    requires Legal(cfg, clock, acts)
    ensures AuditInv(cfg, After(cfg, clock, acts))
  {
    if acts == [] {
      NoneAuditedAtStart(|cfg.requests|);
    } else {
      var before, a := acts[..|acts| - 1], acts[|acts| - 1];
      AuditHolds(cfg, clock, before);
      LocksHold(cfg, clock, before);
      StepKeepsAudit(cfg, After(cfg, clock, before), a.thread, a.choice);
    }
  }

  // ---------------------------------------------------------------- exactly once

  /**
   In every interleaving a request that has returned made one audit call when it matched a key, saying
   whether it returned a signature, and none when it did not; and a signature was only returned to a
   caller whom the policy, the key's own rules and the rate limit all admitted.
   */
  lemma ExactlyOnce(cfg: Config, clock: int, acts: seq<Action>, t: nat)
    requires Legal(cfg, clock, acts) && t < |cfg.requests|
    requires After(cfg, clock, acts).pc[t].Done?
    ensures var s := After(cfg, clock, acts); var r := s.pc[t].result;
      && (r == Unmatched <==> !Matched(cfg, t))
      && (HasCall(s.calls, t) <==> Matched(cfg, t))
      && (forall i, j :: 0 <= i < |s.calls| && 0 <= j < |s.calls| && s.calls[i].thread == s.calls[j].thread == t ==>
            i == j)
      && (forall i :: 0 <= i < |s.calls| && s.calls[i].thread == t ==>
            && s.calls[i].entry.success == (r == Signed)
            && (r == Signed ==> s.calls[i].entry.error == "")
            && s.calls[i].entry.keyLabel == KeyOf(cfg, t).name
            && s.calls[i].entry.peer == cfg.requests[t].peer)
      && (r == Signed ==> Refusal(cfg, t) == None && (cfg.limit > 0 ==> HasGrant(s.events, t)))
      && (r in {BadCaller, BadRule} <==> Matched(cfg, t) && Refusal(cfg, t) == Some(r))
  {
    AuditHolds(cfg, clock, acts);
    LocksHold(cfg, clock, acts);
    var s := After(cfg, clock, acts);
    assert WellTyped(cfg, t, s.pc[t]) && Judged(cfg, t, s.pc[t]);
    forall i | 0 <= i < |s.calls| && s.calls[i].thread == t ensures Truthful(cfg, s.pc, s.calls[i]) {
    }
  }

  /**
   How a matched request ends, in terms of its caller: it is turned away exactly when the policy is enforced and
   does not recognize the caller or asks for more hardening, or when the key has rules and none names the caller.
   */
  lemma CallersAreChecked(cfg: Config, clock: int, acts: seq<Action>, t: nat)
    requires Legal(cfg, clock, acts) && t < |cfg.requests| && Matched(cfg, t)
    requires After(cfg, clock, acts).pc[t].Done?
    ensures var r, key := After(cfg, clock, acts).pc[t].result, KeyOf(cfg, t);
      var peer, p := cfg.requests[t].peer, cfg.policy;
      var welcome := p.enforce ==>
        Policies.Recognized(cfg.resolve, p.rules, peer) && (p.requireHardened ==> peer.hardened);
      var own := key.rules == [] || Policies.Recognized(cfg.resolve, key.rules, peer);
      && (r == BadCaller <==> !welcome)
      && (r == BadRule <==> welcome && !own)
      && (r in {RateLimited, NoSigner, SignFailed, Signed} <==> welcome && own)
      && (r == RateLimited ==> cfg.limit > 0)
  {
    ExactlyOnce(cfg, clock, acts, t);
    AuditHolds(cfg, clock, acts);
    assert Judged(cfg, t, After(cfg, clock, acts).pc[t]);
    Policies.VerdictsExactly(cfg.resolve, cfg.policy, cfg.requests[t].peer);
    Policies.MatchedIsRecognized(cfg.resolve, KeyOf(cfg, t).rules, cfg.requests[t].peer);
  }

  /** No thread returns, or lets another take its key, before its audit call is made. */
  lemma AuditedBeforeUnlock(cfg: Config, clock: int, acts: seq<Action>, t: nat)
    requires Legal(cfg, clock, acts) && t < |cfg.requests| && Matched(cfg, t)
    ensures var s := After(cfg, clock, acts);
      HasCall(s.calls, t) || s.pc[t] in {Start, WantKey} ||
      (KeyLock(KeyOf(cfg, t).name) in s.locks && s.locks[KeyLock(KeyOf(cfg, t).name)] == t)
  {
    AuditHolds(cfg, clock, acts);
    LocksHold(cfg, clock, acts);
    var s := After(cfg, clock, acts);
    assert WellTyped(cfg, t, s.pc[t]);
    if InKey(s.pc[t]) {
      assert Holds(cfg, t, s.pc[t], KeyLock(KeyOf(cfg, t).name));
    }
  }

  // ---------------------------------------------------------------- the log on disk

  /** The audit calls as operations of the logger, in the order the audit lock put them. */
  function Ops(calls: seq<Call>): seq<Log.Op> {
    seq(|calls|, i requires 0 <= i < |calls| => Log.Sign(calls[i].entry, calls[i].writes))
  }

  function MatchedCount(cfg: Config, n: nat): nat
    requires n <= |cfg.requests|
  {
    if n == 0 then 0 else MatchedCount(cfg, n - 1) + if Matched(cfg, n - 1) then 1 else 0
  }

  lemma {:induction false} AllAudited(cfg: Config, pc: seq<Pc>, n: nat)
    requires |pc| == |cfg.requests| && n <= |pc|
    requires forall t :: 0 <= t < |pc| ==> pc[t].Done? && WellTyped(cfg, t, pc[t])
    ensures CountAudited(pc[..n]) == MatchedCount(cfg, n)
  {
    if n > 0 {
      AllAudited(cfg, pc, n - 1);
      assert pc[..n][..n - 1] == pc[..n - 1];
      assert WellTyped(cfg, n - 1, pc[n - 1]);
    }
  }

  lemma {:induction false} EveryWriteCounts(f: Log.Format, s: Log.Log, ops: seq<Log.Op>)
    requires forall i :: 0 <= i < |ops| ==> ops[i].Sign? && ops[i].writes
    requires forall r: Log.Record :: f.encode(r).Some?
    ensures Log.Signs(f, s, ops) == |ops|
  {
    if ops != [] {
      EveryWriteCounts(f, s, ops[..|ops| - 1]);
    }
  }

  /** Once all requests are answered there is one audit call for every request that matched a key. */
  lemma OneCallPerMatchedRequest(cfg: Config, clock: int, acts: seq<Action>)
    requires Legal(cfg, clock, acts)
    requires forall t :: 0 <= t < |cfg.requests| ==> After(cfg, clock, acts).pc[t].Done?
    ensures |After(cfg, clock, acts).calls| == MatchedCount(cfg, |cfg.requests|)
  {
    var s := After(cfg, clock, acts);
    AuditHolds(cfg, clock, acts);
    LocksHold(cfg, clock, acts);
    AllAudited(cfg, s.pc, |s.pc|);
    assert s.pc[..|s.pc|] == s.pc;
  }

  /** The request's record was written. */
  predicate Recorded(calls: seq<Call>, t: nat) {
    exists i :: 0 <= i < |calls| && calls[i].thread == t && calls[i].writes
  }

  /** How many of the first `n` requests have had their record written. */
  function RecordedCount(calls: seq<Call>, n: nat): nat {
    if n == 0 then 0 else RecordedCount(calls, n - 1) + if Recorded(calls, n - 1) then 1 else 0
  }

  lemma RecordedExtend(calls: seq<Call>, c: Call, t: nat)
    ensures Recorded(calls + [c], t) <==> Recorded(calls, t) || (c.thread == t && c.writes)
  {
    var all := calls + [c];
    assert all[|calls|] == c;
    if Recorded(calls, t) {
      var i :| 0 <= i < |calls| && calls[i].thread == t && calls[i].writes;
      assert all[i] == calls[i];
    }
  }

  lemma {:induction false} RecordedCountExtend(calls: seq<Call>, c: Call, n: nat)
    requires !Recorded(calls, c.thread)
    ensures RecordedCount(calls + [c], n) == RecordedCount(calls, n) + if c.thread < n && c.writes then 1 else 0
  {
    if n > 0 {
      RecordedCountExtend(calls, c, n - 1);
      RecordedExtend(calls, c, n - 1);
    }
  }

  lemma {:induction false} NoneRecorded(n: nat)
    ensures RecordedCount([], n) == 0
  {
    if n > 0 {
      NoneRecorded(n - 1);
    }
  }

  /** No thread has made two calls. */
  predicate OneCallEach(calls: seq<Call>) {
    forall i, j :: 0 <= i < j < |calls| ==> calls[i].thread != calls[j].thread
  }

  /** Where every record encodes, the successful writes are one for each request whose record was written. */
  lemma {:induction false} WritesAreRecords(f: Log.Format, s: Log.Log, calls: seq<Call>, n: nat)
    requires forall r: Log.Record :: f.encode(r).Some?
    requires OneCallEach(calls) && forall i :: 0 <= i < |calls| ==> calls[i].thread < n
    ensures Log.Signs(f, s, Ops(calls)) == RecordedCount(calls, n)
  {
    if calls == [] {
      NoneRecorded(n);
    } else {
      var before, last := calls[..|calls| - 1], calls[|calls| - 1];
      WritesAreRecords(f, s, before, n);
      assert Ops(calls)[..|calls| - 1] == Ops(before);
      assert calls == before + [last];
      RecordedCountExtend(before, last, n);
    }
  }

  /**
   In every reachable state of every interleaving the log that the calls leave behind verifies. It has gained
   one chained record for every write that succeeded; these are, when every record encodes, as many as there
   are requests whose record was written.
   */
  lemma AgentLogVerifies(cfg: Config, clock: int, acts: seq<Action>, f: Log.Format, file: Lines.Line)
    requires Legal(cfg, clock, acts)
    requires f.Sound() && Log.Startable(f, file)
    requires Log.RunFits(f, Log.Open(f, file), Ops(After(cfg, clock, acts).calls))
    ensures
      var log, ops := Log.Open(f, file), Ops(After(cfg, clock, acts).calls);
      var end := Log.Run(f, log, ops).file;
      && !Lines.Overlong(end) && Chain.Accepts(f.chain, Lines.Records(end))
      && Chain.ChainedCount(f.chain, Lines.Records(end)) ==
         Chain.ChainedCount(f.chain, Lines.Records(file)) + Log.Signs(f, log, ops)
      && ((forall r: Log.Record :: f.encode(r).Some?) ==>
            Log.Signs(f, log, ops) == RecordedCount(After(cfg, clock, acts).calls, |cfg.requests|))
  {
    var calls := After(cfg, clock, acts).calls;
    Log.RunVerifies(f, file, Ops(calls));
    AuditHolds(cfg, clock, acts);
    if forall r: Log.Record :: f.encode(r).Some? {
      WritesAreRecords(f, Log.Open(f, file), calls, |cfg.requests|);
    }
  }

  /** What the calls whose record was written say, in order. */
  function WrittenEntries(calls: seq<Call>): seq<Log.Entry> {
    if calls == [] then []
    else
      var n := |calls| - 1;
      WrittenEntries(calls[..n]) + if calls[n].writes then [calls[n].entry] else []
  }

  lemma {:induction false} ReportedAreWritten(f: Log.Format, s: Log.Log, calls: seq<Call>)
    requires forall r: Log.Record :: f.encode(r).Some?
    ensures Log.Reported(f, s, Ops(calls)) == WrittenEntries(calls)
  {
    if calls != [] {
      ReportedAreWritten(f, s, calls[..|calls| - 1]);
      assert Ops(calls)[..|calls| - 1] == Ops(calls[..|calls| - 1]);
    }
  }

  lemma {:induction false} CallOfEntry(calls: seq<Call>, i: nat) returns (k: nat)
    requires i < |WrittenEntries(calls)|
    ensures k < |calls| && calls[k].writes && calls[k].entry == WrittenEntries(calls)[i]
  {
    var n := |calls| - 1;
    if i < |WrittenEntries(calls[..n])| {
      k := CallOfEntry(calls[..n], i);
    } else {
      k := n;
    }
  }

  lemma {:induction false} EntryOfCall(calls: seq<Call>, k: nat) returns (i: nat)
    requires k < |calls| && calls[k].writes
    ensures i < |WrittenEntries(calls)| && WrittenEntries(calls)[i] == calls[k].entry
  {
    var n := |calls| - 1;
    if k < n {
      i := EntryOfCall(calls[..n], k);
    } else {
      i := |WrittenEntries(calls[..n])|;
    }
  }

  /** The line tells of the request: its key, its caller, and whether it got a signature. */
  predicate TellsOf(cfg: Config, pc: seq<Pc>, f: Log.Format, line: Lines.Line, t: nat) {
    && t < |pc| && t < |cfg.requests| && Audited(pc[t]) && f.read(line).Some?
    && var e := f.read(line).value.entry;
    && e.keyLabel == KeyOf(cfg, t).name && e.peer == cfg.requests[t].peer
    && e.success == (pc[t].result == Signed) && (e.success ==> e.error == "")
  }

  /** The line tells of a request whose record was written. */
  ghost predicate TellsOfSome(cfg: Config, s: State, f: Log.Format, line: Lines.Line) {
    exists t: nat :: Recorded(s.calls, t) && TellsOf(cfg, s.pc, f, line, t)
  }

  /** One of the lines tells of the request. */
  predicate IsTold(cfg: Config, s: State, f: Log.Format, lines: seq<Lines.Line>, t: nat) {
    exists i: nat :: i < |lines| && TellsOf(cfg, s.pc, f, lines[i], t)
  }

  /** Each line tells of a request whose record was written, and one tells of each such request. */
  ghost predicate TellsAll(cfg: Config, s: State, f: Log.Format, lines: seq<Lines.Line>) {
    && (forall i: nat :: i < |lines| ==> TellsOfSome(cfg, s, f, lines[i]))
    && (forall t: nat :: Recorded(s.calls, t) ==> IsTold(cfg, s, f, lines, t))
  }

  /**
   In every reachable state, when every record encodes, the log has gained lines that each tell of a request whose
   record was written, and one that tells of each such request.
   */
  lemma LogTellsRequests(cfg: Config, clock: int, acts: seq<Action>, f: Log.Format, file: Lines.Line)
    returns (added: seq<Lines.Line>)
    requires Legal(cfg, clock, acts)
    requires f.Sound() && Log.Startable(f, file) && forall r: Log.Record :: f.encode(r).Some?
    requires Log.RunFits(f, Log.Open(f, file), Ops(After(cfg, clock, acts).calls))
    ensures var s := After(cfg, clock, acts);
      && Lines.Records(Log.Run(f, Log.Open(f, file), Ops(s.calls)).file) == Lines.Records(file) + added
      && TellsAll(cfg, s, f, added)
  {
    var s := After(cfg, clock, acts);
    AuditHolds(cfg, clock, acts);
    added := Log.RunTells(f, file, Ops(s.calls));
    ReportedAreWritten(f, Log.Open(f, file), s.calls);
    assert AuditInv(cfg, s);
    EntriesTell(cfg, s, f, added);
  }

  lemma LineTells(cfg: Config, s: State, f: Log.Format, added: seq<Lines.Line>, i: nat) returns (t: nat)
    requires AuditInv(cfg, s) && Log.Tells(f, added, WrittenEntries(s.calls)) && i < |added|
    ensures Recorded(s.calls, t) && TellsOf(cfg, s.pc, f, added[i], t)
  {
    var k := CallOfEntry(s.calls, i);
    assert Truthful(cfg, s.pc, s.calls[k]);
    t := s.calls[k].thread;
  }

  lemma RequestIsTold(cfg: Config, s: State, f: Log.Format, added: seq<Lines.Line>, t: nat) returns (i: nat)
    requires AuditInv(cfg, s) && Log.Tells(f, added, WrittenEntries(s.calls)) && Recorded(s.calls, t)
    ensures i < |added| && TellsOf(cfg, s.pc, f, added[i], t)
  {
    var k :| 0 <= k < |s.calls| && s.calls[k].thread == t && s.calls[k].writes;
    i := EntryOfCall(s.calls, k);
    assert Truthful(cfg, s.pc, s.calls[k]);
  }

  lemma EntriesTell(cfg: Config, s: State, f: Log.Format, added: seq<Lines.Line>)
    requires AuditInv(cfg, s) && Log.Tells(f, added, WrittenEntries(s.calls))
    ensures TellsAll(cfg, s, f, added)
  {
    forall i: nat | i < |added| ensures TellsOfSome(cfg, s, f, added[i]) {
      var t := LineTells(cfg, s, f, added, i);
    }
    forall t: nat | Recorded(s.calls, t) ensures IsTold(cfg, s, f, added, t) {
      var i := RequestIsTold(cfg, s, f, added, t);
    }
  }

  /** With no failed write, the verified log has gained one record for every answered request that matched a key. */
  lemma LogCountsRequests(cfg: Config, clock: int, acts: seq<Action>, f: Log.Format, file: Lines.Line)
    requires Legal(cfg, clock, acts)
    requires forall t :: 0 <= t < |cfg.requests| ==> After(cfg, clock, acts).pc[t].Done?
    requires f.Sound() && Log.Startable(f, file) && forall r: Log.Record :: f.encode(r).Some?
    requires Log.RunFits(f, Log.Open(f, file), Ops(After(cfg, clock, acts).calls))
    requires forall c :: c in After(cfg, clock, acts).calls ==> c.writes
    ensures var end := Log.Run(f, Log.Open(f, file), Ops(After(cfg, clock, acts).calls)).file;
      Chain.ChainedCount(f.chain, Lines.Records(end)) ==
      Chain.ChainedCount(f.chain, Lines.Records(file)) + MatchedCount(cfg, |cfg.requests|)
  {
    OneCallPerMatchedRequest(cfg, clock, acts);
    OpsWrite(After(cfg, clock, acts).calls);
    LogCounts(f, file, Ops(After(cfg, clock, acts).calls));
  }

  lemma OpsWrite(calls: seq<Call>)
    requires forall c :: c in calls ==> c.writes
    ensures forall i :: 0 <= i < |Ops(calls)| ==> Ops(calls)[i].Sign? && Ops(calls)[i].writes
  {
  }

  lemma LogCounts(f: Log.Format, file: Lines.Line, ops: seq<Log.Op>)
    requires f.Sound() && Log.Startable(f, file) && forall r: Log.Record :: f.encode(r).Some?
    requires Log.RunFits(f, Log.Open(f, file), ops)
    requires forall i :: 0 <= i < |ops| ==> ops[i].Sign? && ops[i].writes
    ensures Chain.ChainedCount(f.chain, Lines.Records(Log.Run(f, Log.Open(f, file), ops).file)) ==
            Chain.ChainedCount(f.chain, Lines.Records(file)) + |ops|
  {
    EveryWriteCounts(f, Log.Open(f, file), ops);
    Log.RunVerifies(f, file, ops);
  }
}
