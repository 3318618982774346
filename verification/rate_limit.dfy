/**
 The sliding-window rate limiter. The code keeps only the grants of the last minute, filtered in place
 over one backing array; the specification counts over the whole history of grants.
 */
module RateLimit {
  /** One minute, in nanoseconds. */
  const MINUTE := 60_000_000_000

  /** A rate limit may allow no more than this many grants a minute; without a limit all are allowed. */
  const CEILING := 120

  // ---------------------------------------------------------------- specification

  /** The grants strictly after one minute before `now`, in order. */
  function Recent(grants: seq<int>, now: int): seq<int> {
    if grants == [] then []
    else
      var n := |grants| - 1;
      var g := grants[n];
      Recent(grants[..n], now) + if g > now - MINUTE then [g] else []
  }

  /** The number of grants in the window (now - 1 min, now]. */
  function InWindow(grants: seq<int>, now: int): nat {
    if grants == [] then 0
    else
      var n := |grants| - 1;
      var g := grants[n];
      InWindow(grants[..n], now) + if now - MINUTE < g <= now then 1 else 0
  }

  predicate Sorted(times: seq<int>) {
    forall i, j :: 0 <= i < j < |times| ==> times[i] <= times[j]
  }

  predicate UpTo(times: seq<int>, now: int) {
    forall i :: 0 <= i < |times| ==> times[i] <= now
  }

  /** The rule over the whole history: fewer than `limit` grants in the last minute. */
  predicate Grants(grants: seq<int>, limit: int, now: int) {
    |Recent(grants, now)| < limit
  }

  /** A request is admitted when there is no limit, or the grants so far leave room. */
  predicate Admits(grants: seq<int>, limit: int, now: int) {
    limit <= 0 || Grants(grants, limit, now)
  }

  /** The history after a request at `now`: a rejection leaves no trace. */
  function After(grants: seq<int>, limit: int, now: int): seq<int> {
    if Grants(grants, limit, now) then grants + [now] else grants
  }

  /** The positions of the grants in the minute that ends at `now`, the minute's first instant excluded. */
  function WithinMinute(grants: seq<int>, now: int): set<int> {
    set i | 0 <= i < |grants| && now - 60 * 1_000_000_000 < grants[i] <= now
  }

  lemma {:induction false} InWindowCounts(grants: seq<int>, now: int)
    ensures InWindow(grants, now) == |WithinMinute(grants, now)|
  {
    if grants != [] {
      var n := |grants| - 1;
      InWindowCounts(grants[..n], now);
      assert WithinMinute(grants, now) ==
        WithinMinute(grants[..n], now) + if now - 60 * 1_000_000_000 < grants[n] <= now then {n} else {};
    }
  }

  /** A request is granted exactly when the last minute holds fewer grants than the limit. */
  lemma GrantsExactly(grants: seq<int>, limit: int, now: int)
    requires UpTo(grants, now)
    ensures Grants(grants, limit, now) <==> |WithinMinute(grants, now)| < limit
  {
    RecentIsWindow(grants, now);
    InWindowCounts(grants, now);
  }

  /** Every window of one minute holds at most `limit` grants. */
  ghost predicate Bounded(grants: seq<int>, limit: int) {
    forall t :: InWindow(grants, t) <= limit
  }

  // ---------------------------------------------------------------- lemmas

  lemma RecentExtend(grants: seq<int>, g: int, now: int)
    ensures Recent(grants + [g], now) == Recent(grants, now) + if g > now - MINUTE then [g] else []
  {
    assert (grants + [g])[..|grants|] == grants;
  }

  lemma InWindowExtend(grants: seq<int>, g: int, now: int)
    ensures InWindow(grants + [g], now) == InWindow(grants, now) + if now - MINUTE < g <= now then 1 else 0
  {
    assert (grants + [g])[..|grants|] == grants;
  }

  lemma {:induction false} RecentOfRecent(grants: seq<int>, earlier: int, now: int)
    requires earlier <= now
    ensures Recent(Recent(grants, earlier), now) == Recent(grants, now)
  {
    if grants != [] {
      var before, g := grants[..|grants| - 1], grants[|grants| - 1];
      RecentOfRecent(before, earlier, now);
      if g > earlier - MINUTE {
        RecentExtend(Recent(before, earlier), g, now);
      } else {
        assert Recent(grants, earlier) == Recent(before, earlier);
        assert Recent(grants, now) == Recent(before, now);
      }
    }
  }

  lemma {:induction false} RecentKeepsOrder(grants: seq<int>, now: int, top: int)
    requires Sorted(grants) && UpTo(grants, top)
    ensures Sorted(Recent(grants, now)) && UpTo(Recent(grants, now), top)
    ensures |Recent(grants, now)| <= |grants|
  {
    if grants != [] {
      RecentKeepsOrder(grants[..|grants| - 1], now, grants[|grants| - 1]);
    }
  }

  /** A window that ends at or after `now` sees no more than the recent grants. */
  lemma {:induction false} InWindowIsRecent(grants: seq<int>, now: int, t: int)
    requires now <= t
    ensures InWindow(grants, t) <= |Recent(grants, now)|
  {
    if grants != [] {
      InWindowIsRecent(grants[..|grants| - 1], now, t);
    }
  }

  /** With no grant in the future, the recent grants are those of the window that ends now. */
  lemma {:induction false} RecentIsWindow(grants: seq<int>, now: int)
    requires UpTo(grants, now)
    ensures |Recent(grants, now)| == InWindow(grants, now)
  {
    if grants != [] {
      RecentIsWindow(grants[..|grants| - 1], now);
    }
  }

  /** No window ever holds more than `limit` grants. */
  lemma GrantKeepsBound(grants: seq<int>, limit: int, now: int)
    requires 0 <= limit && Bounded(grants, limit)
    ensures Bounded(After(grants, limit, now), limit)
  {
    if Grants(grants, limit, now) {
      forall t ensures InWindow(grants + [now], t) <= limit {
        InWindowExtend(grants, now, t);
        if now <= t {
          InWindowIsRecent(grants, now, t);
        }
      }
    }
  }

  // ---------------------------------------------------------------- the code, on values

  /** What the bucket answers from the times it keeps. */
  function Decide(times: seq<int>, limit: int, now: int): bool {
    |Recent(times, now)| < limit
  }

  /** What the bucket keeps. */
  function Keep(times: seq<int>, limit: int, now: int): seq<int> {
    var valid := Recent(times, now);
    if |valid| >= limit then valid else valid + [now]
  }

  /** The kept times answer for the history from `clock` on. */
  ghost predicate Stands(times: seq<int>, grants: seq<int>, clock: int) {
    forall now :: clock <= now ==> Recent(times, now) == Recent(grants, now)
  }

  /** One request: the bucket answers as the history does, and still stands for it afterwards. */
  lemma KeepStands(times: seq<int>, grants: seq<int>, limit: int, clock: int, now: int)
    requires Stands(times, grants, clock) && clock <= now
    ensures Decide(times, limit, now) == Grants(grants, limit, now)
    ensures Stands(Keep(times, limit, now), After(grants, limit, now), now)
  {
    var valid := Recent(times, now);
    forall t | now <= t ensures Recent(Keep(times, limit, now), t) == Recent(After(grants, limit, now), t) {
      RecentOfRecent(times, now, t);
      RecentExtend(valid, now, t);
      RecentExtend(grants, now, t);
    }
  }

  /** What a bucket holds between requests. */
  ghost predicate Holds(times: seq<int>, grants: seq<int>, asked: int) {
    && Sorted(times) && Sorted(grants) && UpTo(times, asked) && UpTo(grants, asked)
    && Stands(times, grants, asked)
  }

  lemma AppendKeepsOrder(times: seq<int>, now: int)
    requires Sorted(times) && forall i :: 0 <= i < |times| ==> times[i] <= now
    ensures Sorted(times + [now]) && UpTo(times + [now], now)
    ensures UpTo(times, now)
  {
  }

  lemma KeepHolds(times: seq<int>, grants: seq<int>, limit: int, asked: int, now: int)
    requires Holds(times, grants, asked) && asked <= now
    ensures Decide(times, limit, now) == Grants(grants, limit, now)
    ensures Holds(Keep(times, limit, now), After(grants, limit, now), now)
    ensures |times| <= limit ==> |Keep(times, limit, now)| <= limit
  {
    KeepStands(times, grants, limit, asked, now);
    RecentKeepsOrder(times, now, asked);
    AppendKeepsOrder(Recent(times, now), now);
    AppendKeepsOrder(grants, now);
  }

  /** The decisions of the bucket over a sequence of requests. */
  function Decisions(times: seq<int>, limit: int, clocks: seq<int>): seq<bool>
    decreases |clocks|
  {
    if clocks == [] then []
    else [Decide(times, limit, clocks[0])] + Decisions(Keep(times, limit, clocks[0]), limit, clocks[1..])
  }

  /** The decisions that the whole history calls for. */
  function SpecDecisions(grants: seq<int>, limit: int, clocks: seq<int>): seq<bool>
    decreases |clocks|
  {
    if clocks == [] then []
    else [Grants(grants, limit, clocks[0])] + SpecDecisions(After(grants, limit, clocks[0]), limit, clocks[1..])
  }

  /** The grants made over a sequence of requests. */
  function History(grants: seq<int>, limit: int, clocks: seq<int>): seq<int>
    decreases |clocks|
  {
    if clocks == [] then grants else History(After(grants, limit, clocks[0]), limit, clocks[1..])
  }

  lemma {:induction false} DecisionsRefine(times: seq<int>, grants: seq<int>, limit: int, clocks: seq<int>, clock: int)
    requires Stands(times, grants, clock)
    requires Sorted([clock] + clocks)
    ensures Decisions(times, limit, clocks) == SpecDecisions(grants, limit, clocks)
    decreases |clocks|
  {
    if clocks != [] {
      var now, rest := clocks[0], clocks[1..];
      assert ([clock] + clocks)[0] <= ([clock] + clocks)[1];
      KeepStands(times, grants, limit, clock, now);
      assert [now] + rest == clocks == ([clock] + clocks)[1..];
      DecisionsRefine(Keep(times, limit, now), After(grants, limit, now), limit, rest, now);
    }
  }

  /** For every non-decreasing clock the bucket decides as a count over the full history would. */
  lemma BucketRefinesHistory(limit: int, clocks: seq<int>)
    requires Sorted(clocks)
    ensures Decisions([], limit, clocks) == SpecDecisions([], limit, clocks)
  {
    if clocks != [] {
      DecisionsRefine([], [], limit, clocks, clocks[0]);
    }
  }

  lemma {:induction false} HistoryBounded(grants: seq<int>, limit: int, clocks: seq<int>)
    requires 0 <= limit && Bounded(grants, limit)
    ensures Bounded(History(grants, limit, clocks), limit)
    decreases |clocks|
  {
    if clocks != [] {
      GrantKeepsBound(grants, limit, clocks[0]);
      HistoryBounded(After(grants, limit, clocks[0]), limit, clocks[1..]);
    }
  }

  // ---------------------------------------------------------------- the bucket

  class RateBucket {
    var buf: array<int>
    var len: nat
    /** The times kept, without what is left behind them in the array. */
    ghost var times: seq<int>

    ghost predicate Valid()
      reads this, buf
    {
      |times| == len <= buf.Length && forall i :: 0 <= i < len ==> buf[i] == times[i]
    }

    constructor ()
      ensures Valid() && fresh(buf) && times == []
    {
      buf, len, times := new int[0], 0, [];
    }

    /** Keeps the recent times at the front of the backing array. */
    method Compact(now: int)
      requires Valid()
      modifies `len, `times, buf
      ensures Valid() && times == Recent(old(times), now)
    {
      var w, n := 0, len;
      for r := 0 to n
        invariant w <= r <= n == len == |times| && times == old(times)
        invariant forall k :: r <= k < n ==> buf[k] == times[k]
        invariant buf[..w] == Recent(times[..r], now)
      {
        var t := buf[r];
        assert t == times[r] && times[..r + 1] == times[..r] + [t];
        RecentExtend(times[..r], t, now);
        if t > now - MINUTE {
          buf[w] := t;
          w := w + 1;
        }
      }
      assert times[..n] == times;
      len := w;
      times := buf[..w];
    }

    /** Appends to the times, moving them to a larger array when the backing one is full. */
    method Append(t: int)
      requires Valid()
      modifies `len, `buf, `times, buf
      ensures Valid() && (buf == old(buf) || fresh(buf))
      ensures times == old(times) + [t]
    {
      if len == buf.Length {
        var bigger := new int[2 * len + 1];
        forall i | 0 <= i < len {
          bigger[i] := buf[i];
        }
        buf := bigger;
      }
      buf[len] := t;
      len := len + 1;
      times := times + [t];
    }

    /** Grants a request exactly when fewer than `limit` of the times kept are within the last minute. */
    method Allow(limit: int, now: int) returns (ok: bool)
      requires Valid()
      modifies this, buf
      ensures Valid() && (buf == old(buf) || fresh(buf))
      ensures ok == Decide(old(times), limit, now)
      ensures times == Keep(old(times), limit, now)
    {
      Compact(now);
      ok := len < limit;
      if ok {
        Append(now);
      }
    }
  }

  /** The number of grants a minute that a configuration gets: never above the ceiling. */
  function EffectiveLimit(configured: int): (limit: int)
    ensures limit <= CEILING && limit <= configured
    ensures configured <= CEILING ==> limit == configured
  {
    if configured > CEILING then CEILING else configured
  }

  /** The admissions over a sequence of requests for one key. */
  function Admitted(earlier: seq<int>, limit: int, clocks: seq<int>): seq<int>
    decreases |clocks|
  {
    if clocks == [] then earlier
    else
      var now := clocks[0];
      Admitted(if Admits(earlier, limit, now) then earlier + [now] else earlier, limit, clocks[1..])
  }

  /** With a limit the admissions are the grants. */
  lemma {:induction false} AdmittedIsHistory(earlier: seq<int>, limit: int, clocks: seq<int>)
    requires limit > 0
    ensures Admitted(earlier, limit, clocks) == History(earlier, limit, clocks)
    decreases |clocks|
  {
    if clocks != [] {
      AdmittedIsHistory(After(earlier, limit, clocks[0]), limit, clocks[1..]);
    }
  }

  /** Without one they are all the requests. */
  lemma {:induction false} AllAdmitted(earlier: seq<int>, limit: int, clocks: seq<int>)
    requires limit <= 0
    ensures Admitted(earlier, limit, clocks) == earlier + clocks
    decreases |clocks|
  {
    if clocks == [] {
      assert earlier + clocks == earlier;
    } else {
      AllAdmitted(earlier + [clocks[0]], limit, clocks[1..]);
      assert clocks == [clocks[0]] + clocks[1..];
    }
  }

  /** `n` requests at one time. */
  function AllAt(n: nat, t: int): seq<int> {
    seq(n, _ => t)
  }

  lemma {:induction false} AllInWindow(n: nat, t: int)
    ensures InWindow(AllAt(n, t), t) == n
  {
    if n > 0 {
      AllInWindow(n - 1, t);
      InWindowExtend(AllAt(n - 1, t), t, t);
      assert AllAt(n, t) == AllAt(n - 1, t) + [t];
    }
  }

  /** The first of `n` requests at one time. */
  lemma AdmitsOne(earlier: nat, limit: int, n: nat, t: int)
    requires 0 < limit && 0 < n
    ensures Admitted(AllAt(earlier, t), limit, AllAt(n, t)) ==
            Admitted(AllAt(if earlier < limit then earlier + 1 else earlier, t), limit, AllAt(n - 1, t))
  {
    AllInWindow(earlier, t);
    RecentIsWindow(AllAt(earlier, t), t);
    assert AllAt(n, t)[1..] == AllAt(n - 1, t) && AllAt(n, t)[0] == t;
    assert AllAt(earlier, t) + [t] == AllAt(earlier + 1, t);
  }

  /** Of `n` requests at one time as many are admitted as the configured limit allows, and at most 120. */
  lemma {:induction false} AdmittedAtOnce(configured: int, earlier: nat, n: nat, t: int)
    requires 0 < configured && earlier <= configured && earlier <= 120
    ensures var allowed := if configured < 120 then configured else 120;
      Admitted(AllAt(earlier, t), EffectiveLimit(configured), AllAt(n, t)) ==
      AllAt(if earlier + n < allowed then earlier + n else allowed, t)
    decreases n
  {
    var limit := EffectiveLimit(configured);
    if n > 0 {
      AdmitsOne(earlier, limit, n, t);
      AdmittedAtOnce(configured, if earlier < limit then earlier + 1 else earlier, n - 1, t);
    }
  }

  /** No minute holds more than 120 admissions of one key exactly when a limit is configured, whatever it is. */
  lemma CeilingHolds(configured: int)
    ensures (forall clocks, t :: InWindow(Admitted([], EffectiveLimit(configured), clocks), t) <= 120)
            <==> 0 < configured
  {
    var limit := EffectiveLimit(configured);
    if 0 < configured {
      forall clocks, t ensures InWindow(Admitted([], limit, clocks), t) <= CEILING {
        AdmittedIsHistory([], limit, clocks);
        HistoryBounded([], limit, clocks);
      }
    } else {
      var clocks := AllAt(CEILING + 1, 0);
      AllInWindow(CEILING + 1, 0);
      AllAdmitted([], limit, clocks);
      assert [] + clocks == clocks;
      assert InWindow(Admitted([], limit, clocks), 0) == CEILING + 1;
    }
  }
}
