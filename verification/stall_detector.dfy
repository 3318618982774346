/**
 The stall detector: it counts Touch ID prompts that were shown and never completed, in a window anchored
 at the first of them, and raises one advice when the count reaches three.
 */
module StallDetector {

  const THRESHOLD := 3

  /** Three minutes, in nanoseconds. */
  const WINDOW := 180_000_000_000

  const SECOND := 1_000_000_000

  /** How a prompt-raising signature ended; an unrelated error says nothing about the sensor. */
  datatype Outcome = Completed | NonCompletion | Unrelated

  /** How a signature that failed ended: it is never noted as completed. */
  type Failure = o: Outcome | o != Completed witness NonCompletion

  datatype Event = Event(outcome: Outcome, at: int)

  datatype State = State(count: nat, start: int)

  const INITIAL := State(0, 0)

  // ---------------------------------------------------------------- specification

  function Step(s: State, e: Event): State {
    match e.outcome
    case Completed => s.(count := 0)
    case Unrelated => s
    case NonCompletion =>
      if s.count == 0 || e.at - s.start > WINDOW then State(1, e.at) else s.(count := s.count + 1)
  }

  /** The event raises the advice. */
  predicate Alerts(s: State, e: Event) {
    e.outcome == NonCompletion && Step(s, e).count == THRESHOLD
  }

  /** The state after the first `n` events. */
  function After(trace: seq<Event>, n: nat): State
    requires n <= |trace|
  {
    if n == 0 then INITIAL else Step(After(trace, n - 1), trace[n - 1])
  }

  predicate AlertAt(trace: seq<Event>, i: nat)
    requires i < |trace|
  {
    Alerts(After(trace, i), trace[i])
  }

  /** Where the episode that is open after `n` events began; meaningful while the count is positive. */
  function Anchor(trace: seq<Event>, n: nat): nat
    requires n <= |trace|
  {
    if n == 0 then 0
    else if trace[n - 1].outcome == NonCompletion && After(trace, n).count == 1 then n - 1
    else Anchor(trace, n - 1)
  }

  predicate Ordered(trace: seq<Event>) {
    forall i, j :: 0 <= i < j < |trace| ==> trace[i].at <= trace[j].at
  }

  predicate NoCompletion(trace: seq<Event>, i: nat, j: nat)
    requires i <= j <= |trace|
  {
    forall k :: i <= k < j ==> trace[k].outcome != Completed
  }

  /** The number of non-completions among the events from `i` up to `j`. */
  function Misses(trace: seq<Event>, i: nat, j: nat): nat
    requires i <= j <= |trace|
    decreases j - i
  {
    if i == j then 0
    else Misses(trace, i, j - 1) + if trace[j - 1].outcome == NonCompletion then 1 else 0
  }

  // ---------------------------------------------------------------- what the state means

  /** The open episode: it began with a non-completion, has seen no completion, and fits the window. */
  predicate Episode(trace: seq<Event>, a: nat, n: nat, s: State)
    requires a <= n <= |trace|
  {
    && a < n && trace[a] == Event(NonCompletion, s.start)
    && NoCompletion(trace, a, n)
    && Misses(trace, a, n) == s.count
    && (forall k :: a <= k < n && trace[k].outcome == NonCompletion ==> trace[k].at - s.start <= WINDOW)
  }

  lemma {:induction false} StateIsEpisode(trace: seq<Event>, n: nat)
    requires n <= |trace|
    ensures Anchor(trace, n) <= n
    ensures After(trace, n).count > 0 ==> Episode(trace, Anchor(trace, n), n, After(trace, n))
  {
    if n > 0 {
      StateIsEpisode(trace, n - 1);
    }
  }

  /**
   An alert is never raised for fewer than three non-completions with no completion among them, and never
   for any that the window does not hold.
   */
  lemma AlertIsSound(trace: seq<Event>, i: nat)
    requires i < |trace| && AlertAt(trace, i)
    ensures var a := Anchor(trace, i + 1);
      && a < i && NoCompletion(trace, a, i + 1)
      && trace[a].outcome == trace[i].outcome == NonCompletion
      && Misses(trace, a, i + 1) == 3
      && trace[i].at - trace[a].at <= 180 * SECOND
  {
    StateIsEpisode(trace, i + 1);
    var a := Anchor(trace, i + 1);
    assert Episode(trace, a, i + 1, After(trace, i + 1));
    assert Misses(trace, i, i + 1) == 1 by {
      assert Misses(trace, i, i) == 0;
    }
  }

  lemma {:induction false} MissesGrow(trace: seq<Event>, a: nat, i: nat, j: nat)
    requires a <= i <= j <= |trace|
    ensures Misses(trace, a, i) <= Misses(trace, a, j)
    decreases j
  {
    if i < j {
      MissesGrow(trace, a, i, j - 1);
    }
  }

  /** One episode raises at most one alert. */
  lemma OneAlertPerEpisode(trace: seq<Event>, i: nat, j: nat)
    requires i < j < |trace| && AlertAt(trace, i) && AlertAt(trace, j)
    ensures Anchor(trace, i + 1) != Anchor(trace, j + 1)
  {
    AlertIsSound(trace, i);
    AlertIsSound(trace, j);
    var a := Anchor(trace, i + 1);
    if a == Anchor(trace, j + 1) {
      MissesGrow(trace, a, i + 1, j);
    }
  }

  /** An episode that counts three or more has alerted. */
  lemma {:induction false} CountedMeansAlerted(trace: seq<Event>, n: nat) returns (j: nat)
    requires n <= |trace| && After(trace, n).count >= THRESHOLD
    ensures j < n && AlertAt(trace, j) && Anchor(trace, j + 1) == Anchor(trace, n)
  {
    if AlertAt(trace, n - 1) {
      j := n - 1;
    } else {
      j := CountedMeansAlerted(trace, n - 1);
    }
  }

  // ---------------------------------------------------------------- completeness

  /**
   From a non-completion at `i`, with neither a completion nor an alert up to `n`: an episode older than
   `i` has counted one more than the misses since, a younger one at most one fewer.
   */
  lemma {:induction false} QuietCount(trace: seq<Event>, i: nat, n: nat)
    requires i < n <= |trace| && Ordered(trace)
    requires trace[i].outcome == NonCompletion && NoCompletion(trace, i, n)
    requires trace[n - 1].at - trace[i].at <= WINDOW
    requires After(trace, i + 1).count < THRESHOLD
    requires forall k :: i <= k < n ==> !AlertAt(trace, k)
    ensures 1 <= After(trace, n).count < THRESHOLD
    ensures Misses(trace, i, n) + (if Anchor(trace, n) < i then 1 else -1) <= After(trace, n).count
  {
    if n == i + 1 {
      assert Misses(trace, i, i) == 0;
      if After(trace, n).count == 1 {
        assert Anchor(trace, n) == i;
      }
    } else {
      QuietCount(trace, i, n - 1);
      StateIsEpisode(trace, n - 1);
      assert !AlertAt(trace, n - 1);
      var a := Anchor(trace, n - 1);
      if i <= a {
        assert trace[i].at <= trace[a].at;
      }
    }
  }

  /**
   Four non-completions with no completion among them and within one window raise an alert among them,
   unless the episode that was open at the first of them had already raised one.
   */
  lemma FourMissesAlert(trace: seq<Event>, i: nat, n: nat) returns (j: nat)
    requires i < n <= |trace| && Ordered(trace)
    requires trace[i].outcome == NonCompletion && NoCompletion(trace, i, n)
    requires Misses(trace, i, n) >= 4
    requires trace[n - 1].at - trace[i].at <= 180 * SECOND
    ensures j < n && AlertAt(trace, j)
    ensures i <= j || Anchor(trace, j + 1) == Anchor(trace, i + 1)
  {
    if After(trace, i + 1).count >= THRESHOLD {
      j := CountedMeansAlerted(trace, i + 1);
    } else if k :| i <= k < n && AlertAt(trace, k) {
      j := k;
    } else {
      QuietCount(trace, i, n);
      assert false;
    }
  }

  /** Between `i` and `j` there is nothing but unrelated errors. */
  predicate Successive(trace: seq<Event>, i: nat, j: nat)
    requires j <= |trace|
  {
    i < j && forall m :: i < m < j ==> trace[m].outcome == Unrelated
  }

  lemma {:induction false} UnrelatedKeepsState(trace: seq<Event>, i: nat, j: nat)
    requires j <= |trace| && Successive(trace, i, j)
    ensures After(trace, j) == After(trace, i + 1)
    ensures forall m :: i < m < j ==> !AlertAt(trace, m)
    decreases j
  {
    if i + 1 < j {
      UnrelatedKeepsState(trace, i, j - 1);
    }
  }

  /**
   Three successive non-completions within one window raise an alert, unless the first of them was the second
   of an episode too old for the next: the detector counts two after it and its window ends before the second.
   */
  lemma ThreeMissesAlert(trace: seq<Event>, i: nat, j: nat, k: nat)
    requires k < |trace| && Ordered(trace) && j < k && Successive(trace, i, j) && Successive(trace, j, k)
    requires trace[i].outcome == trace[j].outcome == trace[k].outcome == NonCompletion
    requires trace[k].at - trace[i].at <= 180 * SECOND
    ensures var s := After(trace, i + 1);
      s.count >= 3 || (exists m :: i <= m <= k && AlertAt(trace, m))
      <==> !(s.count == 2 && trace[j].at - s.start > 180 * SECOND)
  {
    var s := After(trace, i + 1);
    UnrelatedKeepsState(trace, i, j);
    UnrelatedKeepsState(trace, j, k);
    assert trace[i].at <= trace[j].at <= trace[k].at;
    if s.count == 2 && trace[j].at - s.start > WINDOW {
      assert After(trace, j + 1) == State(1, trace[j].at);
      assert !AlertAt(trace, i) && !AlertAt(trace, j) && !AlertAt(trace, k);
    } else if s.count == 2 {
      assert AlertAt(trace, j);
    } else if s.count == 1 {
      assert AlertAt(trace, k);
    }
  }

  /** It happens: three non-completions within 82 seconds straddle two windows and stay quiet. */
  lemma ThreeMissesCanStayQuiet()
    ensures
      var trace := [Event(NonCompletion, 0), Event(NonCompletion, 100 * SECOND),
                    Event(NonCompletion, 181 * SECOND), Event(NonCompletion, 182 * SECOND)];
      && Ordered(trace) && NoCompletion(trace, 0, 4) && Misses(trace, 1, 4) == 3
      && trace[3].at - trace[1].at == 82 * SECOND
      && (forall i :: 0 <= i < 4 ==> !AlertAt(trace, i))
  {
    var trace := [Event(NonCompletion, 0), Event(NonCompletion, 100 * SECOND),
                  Event(NonCompletion, 181 * SECOND), Event(NonCompletion, 182 * SECOND)];
    assert After(trace, 0) == INITIAL;
    assert After(trace, 1) == State(1, 0);
    assert After(trace, 2) == State(2, 0);
    assert After(trace, 3) == State(1, 181 * SECOND);
    assert After(trace, 4) == State(2, 181 * SECOND);
    assert Misses(trace, 1, 1) == 0 && Misses(trace, 1, 2) == 1 && Misses(trace, 1, 3) == 2;
  }

  // ---------------------------------------------------------------- unrelated errors

  function Related(trace: seq<Event>): seq<Event> {
    if trace == [] then []
    else
      var n := |trace| - 1;
      var e := trace[n];
      Related(trace[..n]) + if e.outcome == Unrelated then [] else [e]
  }

  /** The times of the alerts, and the state at the end. */
  function Report(trace: seq<Event>): (seq<int>, State) {
    if trace == [] then ([], INITIAL)
    else
      var n := |trace| - 1;
      var (times, s) := Report(trace[..n]);
      var e := trace[n];
      (times + (if Alerts(s, e) then [e.at] else []), Step(s, e))
  }

  /** Errors that say nothing about the sensor change no alert. */
  lemma {:induction false} UnrelatedErrorsChangeNothing(trace: seq<Event>)
    ensures Report(Related(trace)) == Report(trace)
  {
    if trace != [] {
      var before, e := trace[..|trace| - 1], trace[|trace| - 1];
      UnrelatedErrorsChangeNothing(before);
      if e.outcome == Unrelated {
        assert Related(before) + [] == Related(before);
        assert Report(before).0 + [] == Report(before).0;
      } else {
        assert (Related(before) + [e])[..|Related(before)|] == Related(before);
      }
    }
  }

  /** The report is that of the positions: its end is the state, its times those of the alerting events. */
  lemma {:induction false} ReportIsAfter(trace: seq<Event>, n: nat)
    requires n <= |trace|
    ensures Report(trace[..n]).1 == After(trace, n)
    ensures n < |trace| ==>
              Report(trace[..n + 1]).0 == Report(trace[..n]).0 + if AlertAt(trace, n) then [trace[n].at] else []
  {
    if n > 0 {
      ReportIsAfter(trace, n - 1);
      assert trace[..n][..n - 1] == trace[..n - 1];
    }
    if n < |trace| {
      assert trace[..n + 1][..n] == trace[..n];
    }
  }

  // ---------------------------------------------------------------- the detector

  lemma ReportExtend(trace: seq<Event>, e: Event)
    ensures Report(trace + [e]) ==
            (Report(trace).0 + (if Alerts(Report(trace).1, e) then [e.at] else []), Step(Report(trace).1, e))
  {
    assert (trace + [e])[..|trace|] == trace;
  }

  class Detector {
    var stallCount: nat
    var stallStart: int
    ghost var trace: seq<Event>

    ghost function Now(): State
      reads this
    {
      State(stallCount, stallStart)
    }

    ghost predicate Valid()
      reads this
    {
      Report(trace).1 == Now()
    }

    constructor ()
      ensures Valid() && trace == []
    {
      stallCount, stallStart, trace := 0, 0, [];
    }

    /** Notes how a prompt ended; true when the advice is raised. */
    method NoteBiometricOutcome(outcome: Outcome, now: int) returns (alert: bool)
      requires Valid()
      modifies this
      ensures Valid() && trace == old(trace) + [Event(outcome, now)]
      ensures Now() == Step(old(Now()), Event(outcome, now)) && alert == Alerts(old(Now()), Event(outcome, now))
      ensures Report(trace).0 == Report(old(trace)).0 + if alert then [now] else []
    {
      ReportExtend(trace, Event(outcome, now));
      trace := trace + [Event(outcome, now)];
      alert := Note(outcome, now);
    }

    method Note(outcome: Outcome, now: int) returns (alert: bool)
      modifies `stallCount, `stallStart
      ensures Now() == Step(old(Now()), Event(outcome, now))
      ensures alert == Alerts(old(Now()), Event(outcome, now))
    {
      if outcome == Completed {
        stallCount := 0;
        return false;
      }
      if outcome == Unrelated {
        return false;
      }
      if stallCount == 0 || now - stallStart > WINDOW {
        stallCount := 1;
        stallStart := now;
        return false;
      }
      stallCount := stallCount + 1;
      return stallCount == THRESHOLD;
    }
  }
}
