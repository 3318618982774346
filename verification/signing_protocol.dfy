/**
 The signing protocol as a step system: any number of requests, each served by its own thread, over one
 store of keys. A step is what a thread does between two points where another may run; what the code
 cannot foresee (time, how a prompt ends, whether a write succeeds) is the step's choice.
 */
module SigningProtocol {
  import opened Wrappers
  import opened Peers
  import opened CallerRules
  import Policies = CallerPolicy
  import Rates = RateLimit
  import Stalls = StallDetector
  import Log = AuditLog

  /** A stored key; `blob` is its public key on the wire, None when it has no wire form. */
  datatype Key = Key(name: string, blob: Option<string>, touch: bool, rules: seq<CallerRule>)

  /** A client asks for a signature under a public key; `key` is what the store matches with it. */
  datatype Request = Request(wanted: string, key: Option<Key>, peer: Peer)

  datatype Config = Config(
    store: seq<Key>,
    requests: seq<Request>,
    policy: Policies.Policy,
    resolve: Policies.Resolver,
    limit: int)

  datatype Lock = KeyLock(name: string) | Prompt | Bucket(name: string) | Stall | Audit

  datatype Result = Unmatched | BadCaller | BadRule | RateLimited | NoSigner | SignFailed | Signed

  /** Where a thread is. A thread at `Want...` waits for a lock. */
  datatype Pc =
    | Start
    | WantKey
    | Checking
    | WantBucket
    | InBucket
    | MakeSigner
    | WantPrompt
    | Signing
    | WantStall(result: Result, outcome: Stalls.Outcome)
    | InStall(result: Result, outcome: Stalls.Outcome)
    | WantAudit(result: Result)
    | InAudit(result: Result)
    | DropPrompt(result: Result)
    | DropKey(result: Result)
    | Done(result: Result)

  /** One call of the audit logger. */
  datatype Call = Call(thread: nat, entry: Log.Entry, writes: bool)

  datatype Event =
    | Granted(name: string, thread: nat, at: int)
    | SignedAt(name: string, thread: nat, at: int)

  datatype State = State(
    pc: seq<Pc>,
    locks: map<Lock, nat>,
    clock: int,
    buckets: map<string, seq<int>>,
    stall: Stalls.State,
    calls: seq<Call>,
    events: seq<Event>)

  /** What a step cannot foresee. */
  datatype Choice = Choice(delay: nat, ok: bool, outcome: Stalls.Failure, stamp: string, error: string)

  datatype Action = Action(thread: nat, choice: Choice)

  // ---------------------------------------------------------------- the request

  /** The first stored key whose wire form is the wanted one. */
  function Match(store: seq<Key>, wanted: string): (r: Option<Key>)
    ensures r.Some? ==>
              exists i :: 0 <= i < |store| && store[i] == r.value && store[i].blob == Some(wanted) &&
                forall j :: 0 <= j < i ==> store[j].blob != Some(wanted)
    ensures r.None? ==> forall k :: k in store ==> k.blob != Some(wanted)
  {
    if store == [] then None
    else if store[0].blob == Some(wanted) then Some(store[0])
    else Match(store[1..], wanted)
  }

  /** Every request is matched against the store. */
  predicate Resolved(cfg: Config) {
    forall t :: 0 <= t < |cfg.requests| ==> cfg.requests[t].key == Match(cfg.store, cfg.requests[t].wanted)
  }

  predicate Matched(cfg: Config, t: nat) {
    t < |cfg.requests| && cfg.requests[t].key.Some?
  }

  const NO_KEY := Key("", None, false, [])

  /** The key a request is for; meaningful for matched requests. */
  function KeyOf(cfg: Config, t: nat): Key {
    if Matched(cfg, t) then cfg.requests[t].key.value else NO_KEY
  }

  /** The store lists every label once. */
  predicate DistinctNames(store: seq<Key>) {
    forall i, j :: 0 <= i < j < |store| ==> store[i].name != store[j].name
  }

  lemma SameNameSameKey(cfg: Config, t: nat, u: nat)
    requires Resolved(cfg) && DistinctNames(cfg.store) && Matched(cfg, t) && Matched(cfg, u)
    requires KeyOf(cfg, t).name == KeyOf(cfg, u).name
    ensures KeyOf(cfg, t) == KeyOf(cfg, u)
  {
  }

  /** Why the callers' rules turn a request away; None when they do not. */
  function Refusal(cfg: Config, t: nat): Option<Result>
    requires t < |cfg.requests|
  {
    var key, peer := KeyOf(cfg, t), cfg.requests[t].peer;
    if Policies.CheckCaller(cfg.resolve, cfg.policy, peer) != Policies.Admitted then Some(BadCaller)
    else if |key.rules| > 0 && !Policies.MatchesAny(cfg.resolve, key.rules, peer) then Some(BadRule)
    else None
  }

  // ---------------------------------------------------------------- locks

  /** The result of a request that reached the signer. */
  predicate Prompted(r: Result) {
    r == SignFailed || r == Signed
  }

  /** The lock a thread waits for. */
  function Wants(cfg: Config, t: nat, pc: Pc): Option<Lock> {
    match pc
    case WantKey => Some(KeyLock(KeyOf(cfg, t).name))
    case WantBucket => Some(Bucket(KeyOf(cfg, t).name))
    case WantPrompt => Some(Prompt)
    case WantStall(_, _) => Some(Stall)
    case WantAudit(_) => Some(Audit)
    case _ => None
  }

  /** The thread has locked its key and not yet unlocked it. */
  predicate InKey(pc: Pc) {
    !pc.Start? && !pc.WantKey? && !pc.Done?
  }

  /** The thread of a touch key has locked the prompt and not yet unlocked it. */
  predicate InPrompt(pc: Pc) {
    match pc
    case Signing => true
    case WantStall(_, _) => true
    case InStall(_, _) => true
    case WantAudit(r) => Prompted(r)
    case InAudit(r) => Prompted(r)
    case DropPrompt(_) => true
    case _ => false
  }

  /** The thread holds the lock. */
  predicate Holds(cfg: Config, t: nat, pc: Pc, l: Lock) {
    match l
    case KeyLock(name) => InKey(pc) && name == KeyOf(cfg, t).name
    case Prompt => InPrompt(pc) && KeyOf(cfg, t).touch
    case Bucket(name) => pc.InBucket? && name == KeyOf(cfg, t).name
    case Stall => pc.InStall?
    case Audit => pc.InAudit?
  }

  /** Locks are taken in the order key, prompt, leaf. */
  function Rank(l: Lock): nat {
    match l
    case KeyLock(_) => 0
    case Prompt => 1
    case _ => 2
  }

  // ---------------------------------------------------------------- steps

  function Initial(cfg: Config, clock: int): State {
    State(seq(|cfg.requests|, _ => Start), map[], clock, map[], Stalls.INITIAL, [], [])
  }

  predicate Enabled(cfg: Config, s: State, t: nat) {
    t < |s.pc| && !s.pc[t].Done? &&
    (var w := Wants(cfg, t, s.pc[t]); w.Some? ==> w.value !in s.locks)
  }

  function Times(s: State, name: string): seq<int> {
    if name in s.buckets then s.buckets[name] else []
  }

  /** The rate bucket of the request's key has room. */
  predicate RateAdmits(cfg: Config, s: State, t: nat) {
    Rates.Decide(Times(s, KeyOf(cfg, t).name), cfg.limit, s.clock)
  }

  /** Where the thread goes. */
  function NextPc(cfg: Config, s: State, t: nat, c: Choice): Pc
    requires t < |s.pc| && t < |cfg.requests| && !s.pc[t].Done?
  {
    var touch := KeyOf(cfg, t).touch;
    match s.pc[t]
    case Start => if Matched(cfg, t) then WantKey else Done(Unmatched)
    case WantKey => Checking
    case Checking =>
      var refusal := Refusal(cfg, t);
      if refusal.Some? then WantAudit(refusal.value) else if cfg.limit <= 0 then MakeSigner else WantBucket
    case WantBucket => InBucket
    case InBucket => if RateAdmits(cfg, s, t) then MakeSigner else WantAudit(RateLimited)
    case MakeSigner => if !c.ok then WantAudit(NoSigner) else if touch then WantPrompt else Signing
    case WantPrompt => Signing
    case Signing =>
      var r := if c.ok then Signed else SignFailed;
      if touch then WantStall(r, if c.ok then Stalls.Completed else c.outcome) else WantAudit(r)
    case WantStall(r, o) => InStall(r, o)
    case InStall(r, _) => WantAudit(r)
    case WantAudit(r) => InAudit(r)
    case InAudit(r) => if touch && Prompted(r) then DropPrompt(r) else DropKey(r)
    case DropPrompt(r) => DropKey(r)
    case DropKey(r) => Done(r)
  }

  /** The lock a thread at `pc` is about to release. */
  function Gives(cfg: Config, t: nat, pc: Pc): Option<Lock> {
    match pc
    case InBucket => Some(Bucket(KeyOf(cfg, t).name))
    case InStall(_, _) => Some(Stall)
    case InAudit(_) => Some(Audit)
    case DropPrompt(_) => Some(Prompt)
    case DropKey(_) => Some(KeyLock(KeyOf(cfg, t).name))
    case _ => None
  }

  /** A step takes the lock it waited for, or releases one, or leaves the lock table alone. */
  function NextLocks(cfg: Config, s: State, t: nat): map<Lock, nat>
    requires t < |s.pc|
  {
    var w, g := Wants(cfg, t, s.pc[t]), Gives(cfg, t, s.pc[t]);
    if w.Some? then s.locks[w.value := t] else if g.Some? then s.locks - {g.value} else s.locks
  }

  /** What the step does to the buckets, the stall detector, the log and the history. */
  function Work(cfg: Config, s: State, t: nat, c: Choice): State
    requires t < |s.pc| && t < |cfg.requests|
  {
    var name := KeyOf(cfg, t).name;
    match s.pc[t]
    case InBucket =>
      s.(buckets := s.buckets[name := Rates.Keep(Times(s, name), cfg.limit, s.clock)],
         events := s.events + if RateAdmits(cfg, s, t) then [Granted(name, t, s.clock)] else [])
    case Signing => s.(events := s.events + if c.ok then [SignedAt(name, t, s.clock)] else [])
    case InStall(_, o) => s.(stall := Stalls.Step(s.stall, Stalls.Event(o, s.clock)))
    case InAudit(r) =>
      var error := if r == Signed then "" else c.error;
      s.(calls := s.calls + [Call(t, Log.Entry(c.stamp, name, r == Signed, error, cfg.requests[t].peer), c.ok)])
    case _ => s
  }

  function Step(cfg: Config, s0: State, t: nat, c: Choice): State
    requires |s0.pc| == |cfg.requests| && Enabled(cfg, s0, t)
  {
    var s := s0.(clock := s0.clock + c.delay);
    Work(cfg, s, t, c).(pc := s.pc[t := NextPc(cfg, s, t, c)], locks := NextLocks(cfg, s, t))
  }

  // ---------------------------------------------------------------- runs

  /** Every action of the schedule is possible where it is taken. */
  predicate Legal(cfg: Config, clock: int, acts: seq<Action>)
    decreases |acts|, 0
  {
    acts == [] ||
    (var before, a := acts[..|acts| - 1], acts[|acts| - 1];
     Legal(cfg, clock, before) && Enabled(cfg, After(cfg, clock, before), a.thread))
  }

  /** The state after a schedule. */
  function After(cfg: Config, clock: int, acts: seq<Action>): (s: State)
    requires Legal(cfg, clock, acts)
    ensures |s.pc| == |cfg.requests|
    decreases |acts|, 1
  {
    if acts == [] then Initial(cfg, clock)
    else
      var before, a := acts[..|acts| - 1], acts[|acts| - 1];
      Step(cfg, After(cfg, clock, before), a.thread, a.choice)
  }

  /** How many steps a thread can still take. */
  function Remaining(pc: Pc): nat {
    match pc
    case Start => 14
    case WantKey => 13
    case Checking => 12
    case WantBucket => 11
    case InBucket => 10
    case MakeSigner => 9
    case WantPrompt => 8
    case Signing => 7
    case WantStall(_, _) => 6
    case InStall(_, _) => 5
    case WantAudit(_) => 4
    case InAudit(_) => 3
    case DropPrompt(_) => 2
    case DropKey(_) => 1
    case Done(_) => 0
  }
}
