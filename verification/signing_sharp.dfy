/**
 The bound of `SigningRate.SignaturesPerMinute` is reached, for every limit: one request is admitted, answered
 61 seconds later, and followed at once by as many requests as the limit allows.
 */
module SigningSharp {
  import opened Peers
  import opened SigningAlone
  import opened SigningProtocol
  import opened SigningRate
  import opened Wrappers
  import Policies = CallerPolicy
  import Rates = RateLimit
  import Stalls = StallDetector

  const SECOND := 1_000_000_000
  const LATE := 61 * SECOND

  const KEY := Key("deploy", Some("pub"), false, [])

  /** One request more than the limit, all for one key that needs no touch. */
  function Requests(peer: Peer, limit: nat): Config {
    var requests := seq(limit + 1, _ => Request("pub", Some(KEY), peer));
    Config([KEY], requests, Policies.Policy([], false, false), _ => None, limit)
  }

  function SignedAfter(takes: nat): Env {
    Env(true, true, Stalls.Unrelated, takes, "", "", true)
  }

  /** An admitted request is signed. */
  lemma OneRequest(peer: Peer, limit: nat, s: State, t: nat, takes: nat)
    requires 0 < limit && t <= limit && |s.pc| == limit + 1 && s.pc[t] == Start
    requires Rates.Decide(Times(s, "deploy"), limit, s.clock)
    ensures var s' := Effect(Requests(peer, limit), s, t, SignedAfter(takes));
      && s'.locks == s.locks && s'.clock == s.clock + takes && s'.pc == s.pc[t := Done(Signed)]
      && Times(s', "deploy") == Rates.Keep(Times(s, "deploy"), limit, s.clock)
      && s'.events == s.events + [Granted("deploy", t, s.clock)] + [SignedAt("deploy", t, s.clock + takes)]
  {
    var cfg := Requests(peer, limit);
    assert cfg.requests[t] == Request("pub", Some(KEY), peer);
    assert Matched(cfg, t) && Refusal(cfg, t) == None && Verdict(cfg, s, t, SignedAfter(takes)) == Signed;
  }

  /** An admission and a signature of the key that ends now, within the window that ends now. */
  lemma OneSignature(events: seq<Event>, t: nat, at: int, now: int)
    ensures var all := events + [Granted("deploy", t, at)] + [SignedAt("deploy", t, now)];
      SignsIn(Of(all, "deploy"), now) == SignsIn(Of(events, "deploy"), now) + 1
  {
    var g, e := Granted("deploy", t, at), SignedAt("deploy", t, now);
    OfExtend(events, g, "deploy");
    OfExtend(events + [g], e, "deploy");
    FoldsExtend(Of(events, "deploy"), g, now);
    FoldsExtend(Of(events, "deploy") + [g], e, now);
  }

  function Late(n: nat): seq<int> {
    seq(n, _ => LATE)
  }

  lemma {:induction false} LateStays(n: nat)
    ensures Rates.Recent(Late(n), LATE) == Late(n)
  {
    if n > 0 {
      LateStays(n - 1);
      assert Late(n)[..n - 1] == Late(n - 1);
      assert Late(n - 1) + [LATE] == Late(n);
    }
  }

  /** What the bucket keeps when `n` requests have followed the first: the first is a minute old. */
  predicate LateBucket(times: seq<int>, n: nat) {
    times == if n == 0 then [0] else Late(n)
  }

  lemma LateRequest(times: seq<int>, limit: nat, n: nat)
    requires LateBucket(times, n) && n < limit
    ensures Rates.Decide(times, limit, LATE) && LateBucket(Rates.Keep(times, limit, LATE), n + 1)
  {
    if n == 0 {
      assert [0][..0] == [];
      assert Rates.Recent([0], LATE) == [];
      assert [LATE] == Late(1);
    } else {
      LateStays(n);
      assert Late(n) + [LATE] == Late(n + 1);
    }
  }

  /** The first request has been answered after 61 seconds and `n` more at once. */
  predicate Served(limit: nat, s: State, n: nat) {
    && |s.pc| == limit + 1 && s.locks == map[] && s.clock == LATE
    && (forall t :: n < t <= limit ==> s.pc[t] == Start)
    && LateBucket(Times(s, "deploy"), n)
    && SignsIn(Of(s.events, "deploy"), LATE) == n + 1
  }

  /** What one more request adds to a state of the run. */
  lemma OneMore(limit: nat, s: State, s': State, n: nat)
    requires n <= limit && |s.pc| == limit + 1 && s.locks == map[]
    requires forall t :: n <= t <= limit ==> s.pc[t] == Start
    requires s'.pc == s.pc[n := Done(Signed)] && s'.locks == map[] && s'.clock == LATE
    requires LateBucket(Times(s', "deploy"), n)
    requires SignsIn(Of(s'.events, "deploy"), LATE) == n + 1
    ensures Served(limit, s', n)
  {
  }

  lemma FirstEffect(peer: Peer, limit: nat, s: State)
    requires 0 < limit && s == Initial(Requests(peer, limit), 0)
    ensures Served(limit, Effect(Requests(peer, limit), s, 0, SignedAfter(LATE)), 0)
  {
    assert s.clock == 0 && s.locks == map[] && Times(s, "deploy") == [] && s.events == [];
    assert Rates.Keep([], limit, 0) == [0];
    OneRequest(peer, limit, s, 0, LATE);
    OneSignature(s.events, 0, 0, LATE);
    OneMore(limit, s, Effect(Requests(peer, limit), s, 0, SignedAfter(LATE)), 0);
  }

  /** The schedule is a run in which the first request and `n` more have been answered. */
  ghost predicate Reaches(peer: Peer, limit: nat, acts: seq<Action>, n: nat) {
    Legal(Requests(peer, limit), 0, acts) && Served(limit, After(Requests(peer, limit), 0, acts), n)
  }

  lemma ServeFirst(peer: Peer, limit: nat) returns (acts: seq<Action>)
    requires 0 < limit
    ensures Reaches(peer, limit, acts, 0)
  {
    var cfg := Requests(peer, limit);
    FirstEffect(peer, limit, Initial(cfg, 0));
    var none: seq<Action> := [];
    acts := GoesOn(cfg, none, 0, SignedAfter(LATE), s => Served(limit, s, 0));
  }

  lemma NextEffect(peer: Peer, limit: nat, s: State, n: nat)
    requires n < limit && Served(limit, s, n)
    ensures Served(limit, Effect(Requests(peer, limit), s, n + 1, SignedAfter(0)), n + 1)
  {
    LateRequest(Times(s, "deploy"), limit, n);
    OneRequest(peer, limit, s, n + 1, 0);
    OneSignature(s.events, n + 1, LATE, LATE);
    OneMore(limit, s, Effect(Requests(peer, limit), s, n + 1, SignedAfter(0)), n + 1);
  }

  /** The run goes on with one request, to a state that is as good as the request's effect. */
  lemma GoesOn(cfg: Config, before: seq<Action>, t: nat, env: Env, good: State -> bool) returns (acts: seq<Action>)
    requires Legal(cfg, 0, before)
    requires var s := After(cfg, 0, before);
      t < |s.pc| && s.pc[t] == Start && Free(cfg, s, t) && good(Effect(cfg, s, t, env))
    ensures Legal(cfg, 0, acts) && good(After(cfg, 0, acts))
  {
    var more := ServedAlone(cfg, 0, before, t, env);
    acts := before + more;
  }

  lemma ServeNext(peer: Peer, limit: nat, before: seq<Action>, n: nat) returns (acts: seq<Action>)
    requires n < limit
    requires Reaches(peer, limit, before, n)
    ensures Reaches(peer, limit, acts, n + 1)
  {
    var cfg := Requests(peer, limit);
    NextEffect(peer, limit, After(cfg, 0, before), n);
    acts := GoesOn(cfg, before, n + 1, SignedAfter(0), s => Served(limit, s, n + 1));
  }

  lemma {:induction false} ServeAll(peer: Peer, limit: nat, n: nat) returns (acts: seq<Action>)
    requires 0 < limit && n <= limit
    ensures Reaches(peer, limit, acts, n)
  {
    if n == 0 {
      acts := ServeFirst(peer, limit);
    } else {
      acts := ServeAll(peer, limit, n - 1);
      acts := ServeNext(peer, limit, acts, n - 1);
    }
  }

  /** The bound is sharp: whatever the limit, one signature more than it can end within a minute. */
  lemma BoundIsReached(peer: Peer, limit: nat) returns (acts: seq<Action>)
    requires 0 < limit
    ensures var cfg := Requests(peer, limit);
      && cfg.limit == limit && Legal(cfg, 0, acts)
      && SignsIn(Of(After(cfg, 0, acts).events, "deploy"), LATE) == limit + 1
  {
    acts := ServeAll(peer, limit, limit);
  }
}
