/**
 How many signatures one key can make in a minute. The rate limiter bounds admissions; a signature may end
 long after it was admitted, so the bound on signatures comes from the key's lock: between two signatures
 of one key lies the admission of the second.
 */
module SigningRate {
  import opened SigningProtocol
  import opened SigningLocks
  import Rates = RateLimit

  // ---------------------------------------------------------------- one key's history

  /** The events of one key. */
  function Of(events: seq<Event>, name: string): seq<Event> {
    if events == [] then []
    else
      var n := |events| - 1;
      var e := events[n];
      Of(events[..n], name) + if e.name == name then [e] else []
  }

  /** The times of the admissions. */
  function GrantTimes(events: seq<Event>): seq<int> {
    if events == [] then []
    else
      var n := |events| - 1;
      var e := events[n];
      GrantTimes(events[..n]) + if e.Granted? then [e.at] else []
  }

  predicate Within(e: Event, t: int) {
    t - Rates.MINUTE < e.at <= t
  }

  /** The number of signatures that ended in the window (t - 1 min, t]. */
  function SignsIn(events: seq<Event>, t: int): nat {
    if events == [] then 0
    else
      var n := |events| - 1;
      var e := events[n];
      SignsIn(events[..n], t) + if e.SignedAt? && Within(e, t) then 1 else 0
  }

  /** Which of the events are signatures that ended in the minute up to `t`. */
  function SignsWithinMinute(events: seq<Event>, t: int): set<int> {
    set i | 0 <= i < |events| && events[i].SignedAt? && t - 60 * 1_000_000_000 < events[i].at <= t
  }

  lemma {:induction false} SignsInCounts(events: seq<Event>, t: int)
    ensures SignsIn(events, t) == |SignsWithinMinute(events, t)|
  {
    if events != [] {
      var n := |events| - 1;
      SignsInCounts(events[..n], t);
      assert SignsWithinMinute(events, t) == SignsWithinMinute(events[..n], t) +
        if events[n].SignedAt? && t - 60 * 1_000_000_000 < events[n].at <= t then {n} else {};
    }
  }

  predicate InOrder(events: seq<Event>) {
    forall i, j :: 0 <= i < j < |events| ==> events[i].at <= events[j].at
  }

  predicate Before(events: seq<Event>, clock: int) {
    forall i :: 0 <= i < |events| ==> events[i].at <= clock
  }

  /** No two signatures of the key follow each other without an admission between them. */
  predicate Alternates(events: seq<Event>) {
    forall i :: 0 < i < |events| && events[i].SignedAt? ==> events[i - 1].Granted?
  }

  /** The last event is an admission that no signature has used yet. */
  predicate Open(events: seq<Event>) {
    events != [] && events[|events| - 1].Granted?
  }

  lemma OfExtend(events: seq<Event>, e: Event, name: string)
    ensures Of(events + [e], name) == Of(events, name) + if e.name == name then [e] else []
  {
    assert (events + [e])[..|events|] == events;
  }

  lemma FoldsExtend(events: seq<Event>, e: Event, t: int)
    ensures GrantTimes(events + [e]) == GrantTimes(events) + if e.Granted? then [e.at] else []
    ensures SignsIn(events + [e], t) == SignsIn(events, t) + if e.SignedAt? && Within(e, t) then 1 else 0
  {
    assert (events + [e])[..|events|] == events;
  }

  lemma {:induction false} NoSignsBefore(events: seq<Event>, t: int)
    requires Before(events, t - Rates.MINUTE)
    ensures SignsIn(events, t) == 0
  {
    if events != [] {
      NoSignsBefore(events[..|events| - 1], t);
    }
  }

  /** An admission and the signature that uses it: both fall in the window, or nothing before the admission does. */
  lemma PairInWindow(events: seq<Event>, g: Event, e: Event, t: int)
    requires g.Granted? && e.SignedAt? && Within(e, t) && g.at <= e.at && Before(events, g.at)
    ensures var all := events + [g] + [e];
      if Within(g, t) then
        && SignsIn(all, t) == SignsIn(events, t) + 1
        && Rates.InWindow(GrantTimes(all), t) == Rates.InWindow(GrantTimes(events), t) + 1
      else SignsIn(all, t) == 1
  {
    FoldsExtend(events, g, t);
    FoldsExtend(events + [g], e, t);
    Rates.InWindowExtend(GrantTimes(events), g.at, t);
    assert GrantTimes(events + [g]) + [] == GrantTimes(events + [g]);
    if !Within(g, t) {
      NoSignsBefore(events, t);
    }
  }

  /** Where signatures alternate with admissions, a window holds at most one signature more than admissions. */
  lemma {:induction false} SignsFollowGrants(events: seq<Event>, t: int)
    requires InOrder(events) && Alternates(events)
    ensures SignsIn(events, t) <= Rates.InWindow(GrantTimes(events), t) + 1
  {
    var n := |events| - 1;
    if n < 0 {
      assert events == [];
    } else if events[n].SignedAt? && Within(events[n], t) {
      if n == 0 {
        assert SignsIn(events[..0], t) == 0;
      } else {
        assert events == events[..n - 1] + [events[n - 1]] + [events[n]];
        PairInWindow(events[..n - 1], events[n - 1], events[n], t);
        SignsFollowGrants(events[..n - 1], t);
      }
    } else {
      SignsFollowGrants(events[..n], t);
      if events[n].Granted? {
        Rates.InWindowExtend(GrantTimes(events[..n]), events[n].at, t);
      } else {
        assert GrantTimes(events) == GrantTimes(events[..n]);
      }
    }
  }

  // ---------------------------------------------------------------- the invariant

  /** The thread has been admitted and has not yet signed. */
  predicate Ready(pc: Pc) {
    pc == MakeSigner || pc == WantPrompt || pc == Signing
  }

  /** One key's history: ordered, alternating, within the limit, and what its bucket stands for. */
  ghost predicate KeyInv(limit: int, events: seq<Event>, times: seq<int>, clock: int) {
    && InOrder(events) && Before(events, clock) && Alternates(events)
    && Rates.Bounded(GrantTimes(events), limit)
    && Rates.Stands(times, GrantTimes(events), clock)
  }

  ghost predicate RateInv(cfg: Config, s: State) {
    && |s.pc| == |cfg.requests|
    && (forall name :: KeyInv(cfg.limit, Of(s.events, name), Times(s, name), s.clock))
    && (forall t :: 0 <= t < |s.pc| && Ready(s.pc[t]) ==> Open(Of(s.events, KeyOf(cfg, t).name)))
  }

  lemma KeyInvLater(limit: int, events: seq<Event>, times: seq<int>, clock: int, now: int)
    requires KeyInv(limit, events, times, clock) && clock <= now
    ensures KeyInv(limit, events, times, now)
  {
  }

  /** One more event, later than the others. */
  lemma OrderExtends(events: seq<Event>, e: Event)
    requires InOrder(events) && Before(events, e.at)
    ensures InOrder(events + [e]) && Before(events + [e], e.at)
  {
    var all := events + [e];
    forall i, j | 0 <= i < j < |all| ensures all[i].at <= all[j].at {
      assert all[i] == events[i];
    }
  }

  lemma AlternationExtends(events: seq<Event>, e: Event)
    requires Alternates(events) && (e.SignedAt? ==> Open(events))
    ensures Alternates(events + [e])
  {
  }

  lemma KeyInvGrant(limit: int, events: seq<Event>, times: seq<int>, e: Event)
    requires 0 <= limit && KeyInv(limit, events, times, e.at) && e.Granted?
    ensures var ok := Rates.Decide(times, limit, e.at);
      KeyInv(limit, if ok then events + [e] else events, Rates.Keep(times, limit, e.at), e.at)
  {
    var grants := GrantTimes(events);
    Rates.KeepStands(times, grants, limit, e.at, e.at);
    Rates.GrantKeepsBound(grants, limit, e.at);
    FoldsExtend(events, e, e.at);
    OrderExtends(events, e);
    AlternationExtends(events, e);
  }

  lemma KeyInvSign(limit: int, events: seq<Event>, times: seq<int>, e: Event)
    requires KeyInv(limit, events, times, e.at) && e.SignedAt? && Open(events)
    ensures KeyInv(limit, events + [e], times, e.at)
  {
    FoldsExtend(events, e, e.at);
    OrderExtends(events, e);
    AlternationExtends(events, e);
    assert GrantTimes(events) + [] == GrantTimes(events);
  }

  /** What a step adds to the history, and to which bucket. */
  lemma StepRecords(cfg: Config, s: State, t: nat, c: Choice)
    requires |s.pc| == |cfg.requests| && Enabled(cfg, s, t)
    ensures var s', name := Step(cfg, s, t, c), KeyOf(cfg, t).name; var now := s.clock + c.delay;
      var ok := Rates.Decide(Times(s, name), cfg.limit, now);
      && s'.clock == now
      && (forall other :: other != name || s.pc[t] != InBucket ==> Times(s', other) == Times(s, other))
      && (s.pc[t] == InBucket ==> Times(s', name) == Rates.Keep(Times(s, name), cfg.limit, now))
      && (s.pc[t] == InBucket && ok ==> s'.events == s.events + [Granted(name, t, now)])
      && (s.pc[t] == Signing && c.ok ==> s'.events == s.events + [SignedAt(name, t, now)])
      && (!(s.pc[t] == InBucket && ok) && !(s.pc[t] == Signing && c.ok) ==> s'.events == s.events)
      && (Ready(s'.pc[t]) ==> Ready(s.pc[t]) || (s.pc[t] == InBucket && ok) || cfg.limit <= 0)
      && (s.pc[t] == Signing ==> !Ready(s'.pc[t]))
  {
  }

  /** The key's history and bucket after its bucket was asked. */
  lemma GrantRecords(cfg: Config, s: State, t: nat, c: Choice)
    returns (events: seq<Event>, times: seq<int>, now: int)
    requires cfg.limit > 0 && |s.pc| == |cfg.requests| && Enabled(cfg, s, t) && s.pc[t] == InBucket
    ensures var s', name := Step(cfg, s, t, c), KeyOf(cfg, t).name;
      var ok := Rates.Decide(Times(s, name), cfg.limit, now);
      && s.clock <= s'.clock == now && Of(s'.events, name) == events && Times(s', name) == times
      && events == (if ok then Of(s.events, name) + [Granted(name, t, now)] else Of(s.events, name))
      && times == Rates.Keep(Times(s, name), cfg.limit, now)
      && (Ready(s'.pc[t]) ==> ok)
  {
    var name := KeyOf(cfg, t).name;
    StepRecords(cfg, s, t, c);
    now := s.clock + c.delay;
    OfExtend(s.events, Granted(name, t, now), name);
    events, times := Of(Step(cfg, s, t, c).events, name), Times(Step(cfg, s, t, c), name);
  }

  lemma KeyInvAsked(limit: int, events: seq<Event>, times: seq<int>, clock: int, e: Event, events': seq<Event>,
                    times': seq<int>)
    requires 0 <= limit && KeyInv(limit, events, times, clock) && e.Granted? && clock <= e.at
    requires events' == if Rates.Decide(times, limit, e.at) then events + [e] else events
    requires times' == Rates.Keep(times, limit, e.at)
    ensures KeyInv(limit, events', times', e.at)
    ensures Rates.Decide(times, limit, e.at) ==> Open(events')
  {
    KeyInvLater(limit, events, times, clock, e.at);
    KeyInvGrant(limit, events, times, e);
  }

  /** The key's history and bucket after a signing. */
  lemma SignRecords(cfg: Config, s: State, t: nat, c: Choice)
    returns (events: seq<Event>, times: seq<int>, now: int)
    requires |s.pc| == |cfg.requests| && Enabled(cfg, s, t) && s.pc[t] == Signing
    ensures var s', name := Step(cfg, s, t, c), KeyOf(cfg, t).name;
      && s.clock <= s'.clock == now && Of(s'.events, name) == events && Times(s', name) == times == Times(s, name)
      && events == (if c.ok then Of(s.events, name) + [SignedAt(name, t, now)] else Of(s.events, name))
      && !Ready(s'.pc[t])
  {
    var name := KeyOf(cfg, t).name;
    StepRecords(cfg, s, t, c);
    now := s.clock + c.delay;
    OfExtend(s.events, SignedAt(name, t, now), name);
    events, times := Of(Step(cfg, s, t, c).events, name), Times(Step(cfg, s, t, c), name);
  }

  lemma KeyAfterSign(cfg: Config, s: State, t: nat, c: Choice)
    requires |s.pc| == |cfg.requests| && Enabled(cfg, s, t) && s.pc[t] == Signing
    requires KeyInv(cfg.limit, Of(s.events, KeyOf(cfg, t).name), Times(s, KeyOf(cfg, t).name), s.clock)
    requires Open(Of(s.events, KeyOf(cfg, t).name))
    ensures var s', name := Step(cfg, s, t, c), KeyOf(cfg, t).name;
      && KeyInv(cfg.limit, Of(s'.events, name), Times(s', name), s'.clock)
      && !Ready(s'.pc[t])
  {
    var name := KeyOf(cfg, t).name;
    var events, times, now := SignRecords(cfg, s, t, c);
    KeyInvSigned(cfg.limit, Of(s.events, name), times, s.clock, SignedAt(name, t, now), c.ok);
  }

  lemma KeyInvSigned(limit: int, events: seq<Event>, times: seq<int>, clock: int, e: Event, ok: bool)
    requires KeyInv(limit, events, times, clock) && clock <= e.at && e.SignedAt? && Open(events)
    ensures KeyInv(limit, if ok then events + [e] else events, times, e.at)
  {
    KeyInvLater(limit, events, times, clock, e.at);
    KeyInvSign(limit, events, times, e);
  }

  lemma KeyAfterGrant(cfg: Config, s: State, t: nat, c: Choice)
    requires cfg.limit > 0 && |s.pc| == |cfg.requests| && Enabled(cfg, s, t) && s.pc[t] == InBucket
    requires KeyInv(cfg.limit, Of(s.events, KeyOf(cfg, t).name), Times(s, KeyOf(cfg, t).name), s.clock)
    ensures var s', name := Step(cfg, s, t, c), KeyOf(cfg, t).name;
      && KeyInv(cfg.limit, Of(s'.events, name), Times(s', name), s'.clock)
      && (Ready(s'.pc[t]) ==> Open(Of(s'.events, name)))
  {
    var name := KeyOf(cfg, t).name;
    var events, times, now := GrantRecords(cfg, s, t, c);
    KeyInvAsked(cfg.limit, Of(s.events, name), Times(s, name), s.clock, Granted(name, t, now), events, times);
  }

  lemma KeyAfterOther(cfg: Config, s: State, t: nat, c: Choice)
    requires cfg.limit > 0 && RateInv(cfg, s) && Enabled(cfg, s, t)
    requires s.pc[t] != InBucket && s.pc[t] != Signing
    ensures var s', name := Step(cfg, s, t, c), KeyOf(cfg, t).name;
      && KeyInv(cfg.limit, Of(s'.events, name), Times(s', name), s'.clock)
      && (Ready(s'.pc[t]) ==> Open(Of(s'.events, name)))
  {
    var name := KeyOf(cfg, t).name;
    StepRecords(cfg, s, t, c);
    KeyInvLater(cfg.limit, Of(s.events, name), Times(s, name), s.clock, s.clock + c.delay);
  }

  /** The key of the thread that steps. */
  lemma StepKeepsKey(cfg: Config, s: State, t: nat, c: Choice)
    requires cfg.limit > 0 && RateInv(cfg, s) && Enabled(cfg, s, t)
    ensures var s', name := Step(cfg, s, t, c), KeyOf(cfg, t).name;
      && KeyInv(cfg.limit, Of(s'.events, name), Times(s', name), s'.clock)
      && (Ready(s'.pc[t]) ==> Open(Of(s'.events, name)))
  {
    if s.pc[t] == InBucket {
      assert KeyInv(cfg.limit, Of(s.events, KeyOf(cfg, t).name), Times(s, KeyOf(cfg, t).name), s.clock);
      KeyAfterGrant(cfg, s, t, c);
    } else if s.pc[t] == Signing {
      assert Ready(s.pc[t]);
      KeyAfterSign(cfg, s, t, c);
    } else {
      KeyAfterOther(cfg, s, t, c);
    }
  }

  /** What a step leaves alone. */
  lemma OthersUntouched(cfg: Config, s: State, t: nat, c: Choice, other: string)
    requires |s.pc| == |cfg.requests| && Enabled(cfg, s, t) && other != KeyOf(cfg, t).name
    ensures var s' := Step(cfg, s, t, c);
      && Of(s'.events, other) == Of(s.events, other) && Times(s', other) == Times(s, other)
      && s'.clock == s.clock + c.delay
  {
    var name, now := KeyOf(cfg, t).name, s.clock + c.delay;
    StepRecords(cfg, s, t, c);
    OfExtend(s.events, Granted(name, t, now), other);
    OfExtend(s.events, SignedAt(name, t, now), other);
    assert Of(s.events, other) + [] == Of(s.events, other);
  }

  lemma StepKeepsOtherKeys(cfg: Config, s: State, t: nat, c: Choice, other: string)
    requires cfg.limit > 0 && RateInv(cfg, s) && Enabled(cfg, s, t)
    requires other != KeyOf(cfg, t).name
    ensures var s' := Step(cfg, s, t, c);
      Of(s'.events, other) == Of(s.events, other) && KeyInv(cfg.limit, Of(s'.events, other), Times(s', other), s'.clock)
  {
    OthersUntouched(cfg, s, t, c, other);
    KeyInvLater(cfg.limit, Of(s.events, other), Times(s, other), s.clock, s.clock + c.delay);
  }

  lemma StepKeepsRate(cfg: Config, s: State, t: nat, c: Choice)
    requires cfg.limit > 0 && LockInv(cfg, s) && RateInv(cfg, s) && Enabled(cfg, s, t)
    ensures RateInv(cfg, Step(cfg, s, t, c))
  {
    var s', name := Step(cfg, s, t, c), KeyOf(cfg, t).name;
    StepKeepsKey(cfg, s, t, c);
    forall other ensures KeyInv(cfg.limit, Of(s'.events, other), Times(s', other), s'.clock) {
      if other != name {
        StepKeepsOtherKeys(cfg, s, t, c, other);
      }
    }
    forall u | 0 <= u < |s'.pc| && Ready(s'.pc[u]) ensures Open(Of(s'.events, KeyOf(cfg, u).name)) {
      if u != t {
        if KeyOf(cfg, u).name == name {
          SameKeyStaysQuiet(cfg, s, t, u, c);
        } else {
          StepKeepsOtherKeys(cfg, s, t, c, KeyOf(cfg, u).name);
        }
      }
    }
  }

  /** While one thread is inside a key's lock no other adds to that key's history. */
  lemma SameKeyStaysQuiet(cfg: Config, s: State, t: nat, u: nat, c: Choice)
    requires LockInv(cfg, s) && Enabled(cfg, s, t)
    requires u < |s.pc| && u != t && Ready(s.pc[u]) && KeyOf(cfg, u).name == KeyOf(cfg, t).name
    ensures Step(cfg, s, t, c).events == s.events
  {
    var l := KeyLock(KeyOf(cfg, t).name);
    StepRecords(cfg, s, t, c);
    if s.pc[t] == InBucket || s.pc[t] == Signing {
      OneHolder(cfg, s, t, u, l);
    }
  }

  lemma {:induction false} RateHolds(cfg: Config, clock: int, acts: seq<Action>)
    requires cfg.limit > 0 && Legal(cfg, clock, acts)
    ensures RateInv(cfg, After(cfg, clock, acts))
  {
    if acts != [] {
      var before, a := acts[..|acts| - 1], acts[|acts| - 1];
      RateHolds(cfg, clock, before);
      LocksHold(cfg, clock, before);
      StepKeepsRate(cfg, After(cfg, clock, before), a.thread, a.choice);
    }
  }

  // ---------------------------------------------------------------- the bound

  /**
   In every interleaving, with a rate limit of L, at most L admissions and at most L + 1 signatures of one
   key fall in any window of one minute.
   */
  lemma SignaturesPerMinute(cfg: Config, clock: int, acts: seq<Action>, name: string, t: int)
    requires cfg.limit > 0 && Legal(cfg, clock, acts)
    ensures var events := Of(After(cfg, clock, acts).events, name);
      && Rates.InWindow(GrantTimes(events), t) <= cfg.limit
      && SignsIn(events, t) <= cfg.limit + 1
  {
    RateHolds(cfg, clock, acts);
    var s := After(cfg, clock, acts);
    assert KeyInv(cfg.limit, Of(s.events, name), Times(s, name), s.clock);
    SignsFollowGrants(Of(s.events, name), t);
  }

  lemma {:induction false} GrantTimesBefore(events: seq<Event>, now: int)
    requires Before(events, now)
    ensures Rates.UpTo(GrantTimes(events), now)
  {
    if events != [] {
      GrantTimesBefore(events[..|events| - 1], now);
    }
  }

  /** The request is admitted when the last minute held fewer admissions of its key than the limit, else answered. */
  predicate Admits(cfg: Config, s: State, t: nat, s': State)
    requires t < |s'.pc|
  {
    var name := KeyOf(cfg, t).name;
    if |Rates.WithinMinute(GrantTimes(Of(s.events, name)), s'.clock)| < cfg.limit
    then s'.pc[t] == MakeSigner && s'.events == s.events + [Granted(name, t, s'.clock)]
    else s'.pc[t] == WantAudit(RateLimited) && s'.events == s.events
  }

  /**
   In every reachable state a request whose bucket is asked is admitted exactly when the last minute holds fewer
   admissions of its key than the limit; otherwise it is answered as rate-limited and leaves no trace.
   */
  lemma AdmittedByCount(cfg: Config, clock: int, acts: seq<Action>, t: nat, c: Choice)
    requires cfg.limit > 0 && Legal(cfg, clock, acts)
    requires var s := After(cfg, clock, acts); t < |s.pc| && s.pc[t] == InBucket && Enabled(cfg, s, t)
    ensures Admits(cfg, After(cfg, clock, acts), t, Step(cfg, After(cfg, clock, acts), t, c))
  {
    var s := After(cfg, clock, acts);
    ReachedCounts(cfg, clock, acts, KeyOf(cfg, t).name, s.clock + c.delay);
    CountAdmits(cfg, s, t, c);
  }

  lemma ReachedCounts(cfg: Config, clock: int, acts: seq<Action>, name: string, now: int)
    requires cfg.limit > 0 && Legal(cfg, clock, acts) && After(cfg, clock, acts).clock <= now
    ensures var s := After(cfg, clock, acts);
      Rates.Decide(Times(s, name), cfg.limit, now) <==>
      |Rates.WithinMinute(GrantTimes(Of(s.events, name)), now)| < cfg.limit
  {
    RateHolds(cfg, clock, acts);
    BucketCounts(cfg, After(cfg, clock, acts), name, now);
  }

  lemma CountAdmits(cfg: Config, s: State, t: nat, c: Choice)
    requires |s.pc| == |cfg.requests| && t < |s.pc| && s.pc[t] == InBucket && Enabled(cfg, s, t)
    requires var name := KeyOf(cfg, t).name;
      Rates.Decide(Times(s, name), cfg.limit, s.clock + c.delay) <==>
      |Rates.WithinMinute(GrantTimes(Of(s.events, name)), s.clock + c.delay)| < cfg.limit
    ensures Admits(cfg, s, t, Step(cfg, s, t, c))
  {
    BucketDecides(cfg, s, t, c);
  }

  lemma BucketCounts(cfg: Config, s: State, name: string, now: int)
    requires RateInv(cfg, s) && s.clock <= now
    ensures Rates.Decide(Times(s, name), cfg.limit, now) <==>
            |Rates.WithinMinute(GrantTimes(Of(s.events, name)), now)| < cfg.limit
  {
    assert KeyInv(cfg.limit, Of(s.events, name), Times(s, name), s.clock);
    CountDecides(cfg.limit, Of(s.events, name), Times(s, name), s.clock, now);
  }

  lemma CountDecides(limit: int, events: seq<Event>, times: seq<int>, clock: int, now: int)
    requires KeyInv(limit, events, times, clock) && clock <= now
    ensures Rates.Decide(times, limit, now) <==> |Rates.WithinMinute(GrantTimes(events), now)| < limit
  {
    GrantTimesBefore(events, now);
    Rates.GrantsExactly(GrantTimes(events), limit, now);
    assert Rates.Recent(times, now) == Rates.Recent(GrantTimes(events), now);
  }

  lemma BucketDecides(cfg: Config, s: State, t: nat, c: Choice)
    requires |s.pc| == |cfg.requests| && t < |s.pc| && s.pc[t] == InBucket && Enabled(cfg, s, t)
    ensures var s', name := Step(cfg, s, t, c), KeyOf(cfg, t).name;
      var ok := Rates.Decide(Times(s, name), cfg.limit, s'.clock);
      && s'.clock == s.clock + c.delay
      && s'.pc[t] == (if ok then MakeSigner else WantAudit(RateLimited))
      && s'.events == if ok then s.events + [Granted(name, t, s'.clock)] else s.events
  {
    assert s.events + [] == s.events;
  }

  // ---------------------------------------------------------------- signatures returned

  /** How many signatures of the thread the history holds. */
  function Signatures(events: seq<Event>, t: nat): nat {
    if events == [] then 0
    else
      var n := |events| - 1;
      var e := events[n];
      Signatures(events[..n], t) + if e.SignedAt? && e.thread == t then 1 else 0
  }

  lemma SignaturesExtend(events: seq<Event>, e: Event, t: nat)
    ensures Signatures(events + [e], t) == Signatures(events, t) + if e.SignedAt? && e.thread == t then 1 else 0
  {
    assert (events + [e])[..|events|] == events;
  }

  /** The thread has a signature to return, or has returned it. */
  predicate HasSigned(pc: Pc) {
    match pc
    case WantStall(r, _) => r == Signed
    case InStall(r, _) => r == Signed
    case WantAudit(r) => r == Signed
    case InAudit(r) => r == Signed
    case DropPrompt(r) => r == Signed
    case DropKey(r) => r == Signed
    case Done(r) => r == Signed
    case _ => false
  }

  /** The history holds one signature for each thread that has one, under its key's label, and no others. */
  predicate SignaturesExact(cfg: Config, pc: seq<Pc>, events: seq<Event>) {
    && (forall t :: 0 <= t < |pc| ==> Signatures(events, t) == if HasSigned(pc[t]) then 1 else 0)
    && (forall i :: 0 <= i < |events| ==>
          events[i].thread < |pc| && events[i].name == KeyOf(cfg, events[i].thread).name)
  }

  /** What a step does to its thread and to the history. */
  lemma StepSigns(cfg: Config, s: State, t: nat, c: Choice) returns (p: Pc, adds: seq<Event>)
    requires |s.pc| == |cfg.requests| && Enabled(cfg, s, t)
    ensures var s' := Step(cfg, s, t, c); s'.pc == s.pc[t := p] && s'.events == s.events + adds
    ensures |adds| <= 1 && forall i :: 0 <= i < |adds| ==> adds[i].thread == t && adds[i].name == KeyOf(cfg, t).name
    ensures if |adds| == 1 && adds[0].SignedAt? then !HasSigned(s.pc[t]) && HasSigned(p)
            else HasSigned(p) == HasSigned(s.pc[t])
  {
    var s' := Step(cfg, s, t, c);
    p := s'.pc[t];
    adds := s'.events[|s.events|..];
  }

  /** In every reachable state each thread with a signature stands in the history with one, and no other does. */
  lemma {:induction false} EachSignatureOnce(cfg: Config, clock: int, acts: seq<Action>)
    requires Legal(cfg, clock, acts)
    ensures SignaturesExact(cfg, After(cfg, clock, acts).pc, After(cfg, clock, acts).events)
  {
    if acts != [] {
      var before, a := acts[..|acts| - 1], acts[|acts| - 1];
      EachSignatureOnce(cfg, clock, before);
      LocksHold(cfg, clock, before);
      var s := After(cfg, clock, before);
      var p, adds := StepSigns(cfg, s, a.thread, a.choice);
      ExactStep(cfg, s.pc, s.events, a.thread, p, adds);
    }
  }

  lemma ExactStep(cfg: Config, pc: seq<Pc>, events: seq<Event>, t: nat, p: Pc, adds: seq<Event>)
    requires SignaturesExact(cfg, pc, events) && t < |pc|
    requires |adds| <= 1 && forall i :: 0 <= i < |adds| ==> adds[i].thread == t && adds[i].name == KeyOf(cfg, t).name
    requires if |adds| == 1 && adds[0].SignedAt? then !HasSigned(pc[t]) && HasSigned(p)
             else HasSigned(p) == HasSigned(pc[t])
    ensures SignaturesExact(cfg, pc[t := p], events + adds)
  {
    if adds == [] {
      assert events + adds == events;
    } else {
      assert adds == [adds[0]];
      forall u | 0 <= u < |pc| ensures Signatures(events + adds, u) == if HasSigned(pc[t := p][u]) then 1 else 0 {
        SignaturesExtend(events, adds[0], u);
      }
    }
  }

  /** Some step of the schedule is the thread's signing, and it succeeds. */
  predicate SignedIn(cfg: Config, clock: int, acts: seq<Action>, t: nat)
    requires Legal(cfg, clock, acts) && t < |cfg.requests|
  {
    acts != [] &&
    var n := |acts| - 1;
    SignedIn(cfg, clock, acts[..n], t) ||
    (acts[n].thread == t && After(cfg, clock, acts[..n]).pc[t] == Signing && acts[n].choice.ok)
  }

  /** A request has a signature exactly when its signer made one. */
  lemma {:induction false} SignedExactly(cfg: Config, clock: int, acts: seq<Action>, t: nat)
    requires Legal(cfg, clock, acts) && t < |cfg.requests|
    ensures HasSigned(After(cfg, clock, acts).pc[t]) <==> SignedIn(cfg, clock, acts, t)
  {
    if acts != [] {
      var n := |acts| - 1;
      SignedExactly(cfg, clock, acts[..n], t);
      SignerDecides(cfg, After(cfg, clock, acts[..n]), acts[n].thread, acts[n].choice);
    }
  }

  lemma SignerDecides(cfg: Config, s: State, t: nat, c: Choice)
    requires |s.pc| == |cfg.requests| && Enabled(cfg, s, t)
    ensures var s' := Step(cfg, s, t, c);
      && s'.pc == s.pc[t := s'.pc[t]]
      && (HasSigned(s'.pc[t]) <==> HasSigned(s.pc[t]) || (s.pc[t] == Signing && c.ok))
      && (s.pc[t] == MakeSigner ==> (s'.pc[t] == WantAudit(NoSigner) <==> !c.ok))
  {
  }

  /** When the thread's signature ended; meaningful for threads that have one. */
  function EndOf(events: seq<Event>, t: nat): int {
    if events == [] then 0
    else
      var n := |events| - 1;
      var e := events[n];
      if e.SignedAt? && e.thread == t then e.at else EndOf(events[..n], t)
  }

  /** The threads whose signatures ended in the window (t - 1 min, t]. */
  function Signers(events: seq<Event>, t: int): set<nat> {
    if events == [] then {}
    else
      var n := |events| - 1;
      var e := events[n];
      if e.SignedAt? && Within(e, t) then Signers(events[..n], t) + {e.thread} else Signers(events[..n], t)
  }

  lemma OneMoreAtMost(a: set<nat>, x: nat)
    ensures |a + {x}| <= |a| + 1
  {
    if x in a {
      assert a + {x} == a;
    }
  }

  lemma {:induction false} SignersAreFew(events: seq<Event>, t: int)
    ensures |Signers(events, t)| <= SignsIn(events, t)
  {
    if events != [] {
      var n := |events| - 1;
      SignersAreFew(events[..n], t);
      OneMoreAtMost(Signers(events[..n], t), events[n].thread);
    }
  }

  lemma SignersExtend(events: seq<Event>, e: Event, t: int)
    ensures Signers(events, t) <= Signers(events + [e], t)
    ensures e.SignedAt? && Within(e, t) ==> e.thread in Signers(events + [e], t)
  {
    assert (events + [e])[..|events|] == events;
  }

  lemma {:induction false} EndIsInHistory(events: seq<Event>, name: string, u: nat, t: int)
    requires Signatures(events, u) > 0 && t - Rates.MINUTE < EndOf(events, u) <= t
    requires forall i :: 0 <= i < |events| && events[i].thread == u ==> events[i].name == name
    ensures u in Signers(Of(events, name), t)
  {
    var n := |events| - 1;
    var before, e := events[..n], events[n];
    SignersExtend(Of(before, name), e, t);
    assert events == before + [e];
    OfExtend(before, e, name);
    assert Of(before, name) + [] == Of(before, name);
    if !(e.SignedAt? && e.thread == u) {
      EndIsInHistory(before, name, u, t);
    }
  }

  lemma SubsetIsSmaller(a: set<nat>, b: set<nat>)
    requires a <= b
    ensures |a| <= |b|
  {
    assert b == a + (b - a);
  }

  /**
   In every interleaving, with a rate limit of L, at most L + 1 of the requests for one key that were answered
   with a signature got it within any one minute.
   */
  lemma AnswersPerMinute(cfg: Config, clock: int, acts: seq<Action>, name: string, t: int, answered: set<nat>)
    requires cfg.limit > 0 && Legal(cfg, clock, acts)
    requires var s := After(cfg, clock, acts);
      forall u :: u in answered ==>
        && u < |s.pc| && KeyOf(cfg, u).name == name && s.pc[u] == Done(Signed)
        && t - Rates.MINUTE < EndOf(s.events, u) <= t
    ensures |answered| <= cfg.limit + 1
  {
    var s := After(cfg, clock, acts);
    var all := Signers(Of(s.events, name), t);
    EachSignatureOnce(cfg, clock, acts);
    forall u | u in answered ensures u in all {
      EndIsInHistory(s.events, name, u, t);
    }
    SubsetIsSmaller(answered, all);
    SignersAreFew(Of(s.events, name), t);
    SignaturesPerMinute(cfg, clock, acts, name, t);
  }
}
