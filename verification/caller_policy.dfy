/**
 Who may ask for a signature, and how often: the allowlist over code-signing identities, and one rate
 bucket a key.
 */
module CallerPolicy {
  import opened Wrappers
  import opened CallerRules
  import opened Peers
  import opened RateLimit

  /** How a path in the allowlist resolves through symbolic links; None when it does not. */
  type Resolver = string -> Option<string>

  const DEFAULT_RULES := [
    CallerRule(ApplePlatformSigningId, "com.apple.ssh"),
    CallerRule(ApplePlatformSigningId, "com.apple.scp"),
    CallerRule(ApplePlatformSigningId, "com.apple.sftp"),
    CallerRule(ApplePlatformSigningId, "com.apple.ssh-keygen")
  ]

  datatype Policy = Policy(rules: seq<CallerRule>, enforce: bool, requireHardened: bool)

  /** Case folding of hexadecimal text, with the two letters beyond ASCII that fold into it. */
  function Fold(c: char): char {
    if 'A' <= c <= 'Z' then (c as int + 32) as char
    else if c as int == 0x212A then 'k'
    else if c as int == 0x17F then 's'
    else c
  }

  predicate EqualFold(s: string, t: string) {
    |s| == |t| && forall i :: 0 <= i < |s| ==> Fold(s[i]) == Fold(t[i])
  }

  predicate PathMatches(resolve: Resolver, peerPath: string, allowed: string) {
    peerPath != "" && allowed != "" &&
    (var r := resolve(allowed); if r.Some? then peerPath == r.value else peerPath == allowed)
  }

  predicate Matches(resolve: Resolver, r: CallerRule, peer: Peer) {
    match r.kind
    case ApplePlatformSigningId => peer.applePlatform && peer.signingId == r.value
    case TeamId => peer.appleAnchored && peer.teamId == r.value
    case SigningId => peer.appleAnchored && peer.signingId == r.value
    case CDHash => peer.cdHash != "" && EqualFold(peer.cdHash, r.value)
    case Path => PathMatches(resolve, peer.path, r.value)
  }

  predicate MatchesAny(resolve: Resolver, rules: seq<CallerRule>, peer: Peer) {
    exists i :: 0 <= i < |rules| && Matches(resolve, rules[i], peer)
  }

  datatype Verdict = Admitted | Unidentified | NotInAllowlist | NotHardened

  function CheckCaller(resolve: Resolver, p: Policy, peer: Peer): Verdict {
    if !p.enforce then Admitted
    else if !MatchesAny(resolve, p.rules, peer) then
      if peer.path == "" then Unidentified else NotInAllowlist
    else if p.requireHardened && !peer.hardened then NotHardened
    else Admitted
  }

  /** The configured policy: the platform's own tools, then the configured rules. */
  function NewPolicy(enforce: bool, requireHardened: bool, extra: seq<CallerRule>): Policy {
    Policy(DEFAULT_RULES + extra, enforce, requireHardened)
  }

  /** A peer without a validated Apple signature. */
  predicate Unanchored(peer: Peer) {
    !peer.appleAnchored && !peer.applePlatform
  }

  /** A claimed identity counts for nothing without the signature behind it: the verdict does not depend on it. */
  lemma ClaimedIdentityIsIgnored(resolve: Resolver, p: Policy, peer: Peer, team: string, signing: string)
    requires Unanchored(peer)
    ensures CheckCaller(resolve, p, peer.(teamId := team, signingId := signing)) == CheckCaller(resolve, p, peer)
  {
    var other := peer.(teamId := team, signingId := signing);
    forall i | 0 <= i < |p.rules| ensures Matches(resolve, p.rules[i], other) == Matches(resolve, p.rules[i], peer) {
    }
    assert MatchesAny(resolve, p.rules, other) == MatchesAny(resolve, p.rules, peer);
  }

  /**
   Unless a configured rule names its hash or its path, only a caller with a validated signature is admitted;
   with no configured rule at all, only the four platform tools are.
   */
  lemma OnlyPlatformToolsByDefault(resolve: Resolver, p: Policy, peer: Peer, extra: seq<CallerRule>, hardened: bool)
    requires p == NewPolicy(true, hardened, extra)
    requires forall i :: 0 <= i < |extra| ==> extra[i].kind != CDHash && extra[i].kind != Path
    requires CheckCaller(resolve, p, peer) == Admitted
    ensures !Unanchored(peer)
    ensures extra == [] ==>
              peer.applePlatform &&
              peer.signingId in ["com.apple.ssh", "com.apple.scp", "com.apple.sftp", "com.apple.ssh-keygen"]
    ensures hardened ==> peer.hardened
  {
    var i :| 0 <= i < |p.rules| && Matches(resolve, p.rules[i], peer);
    if i >= 4 {
      assert p.rules[i] == extra[i - 4];
    } else {
      assert p.rules[i] == DEFAULT_RULES[i];
    }
  }

  // ---------------------------------------------------------------- who is admitted, in terms of the peer

  /** What the rules of one kind name. */
  function Values(rules: seq<CallerRule>, kind: RuleKind): set<string> {
    set i | 0 <= i < |rules| && rules[i].kind == kind :: rules[i].value
  }

  /** One letter, whatever its case; two letters have a third form. */
  predicate SameLetter(c: char, d: char) {
    || c == d
    || ('A' <= c <= 'Z' && d as int == c as int + 32)
    || ('A' <= d <= 'Z' && c as int == d as int + 32)
    || (c in "Kk\U{212A}" && d in "Kk\U{212A}")
    || (c in "Ss\U{017F}" && d in "Ss\U{017F}")
  }

  predicate SameHash(s: string, t: string) {
    |s| == |t| && forall i :: 0 <= i < |s| ==> SameLetter(s[i], t[i])
  }

  lemma EqualFoldIsSameHash(s: string, t: string)
    ensures EqualFold(s, t) <==> SameHash(s, t)
  {
  }

  function Resolved(resolve: Resolver, path: string): string {
    if resolve(path).None? then path else resolve(path).value
  }

  /**
   The peer's own identity is among what the rules name: a signing identity or team only with the signature that
   vouches for it, a hash up to letter case, a path as it stands or as it resolves.
   */
  ghost predicate Recognized(resolve: Resolver, rules: seq<CallerRule>, peer: Peer) {
    || (peer.applePlatform && peer.signingId in Values(rules, ApplePlatformSigningId))
    || (peer.appleAnchored && peer.signingId in Values(rules, SigningId))
    || (peer.appleAnchored && peer.teamId in Values(rules, TeamId))
    || (peer.cdHash != "" && exists v :: v in Values(rules, CDHash) && SameHash(peer.cdHash, v))
    || (peer.path != "" && exists v :: v in Values(rules, Path) && v != "" && peer.path == Resolved(resolve, v))
  }

  lemma MatchIsRecognized(resolve: Resolver, rules: seq<CallerRule>, i: nat, peer: Peer)
    requires i < |rules| && Matches(resolve, rules[i], peer)
    ensures Recognized(resolve, rules, peer)
  {
    assert rules[i].value in Values(rules, rules[i].kind);
    EqualFoldIsSameHash(peer.cdHash, rules[i].value);
  }

  /** The rule that names a value. */
  lemma RuleNaming(rules: seq<CallerRule>, kind: RuleKind, v: string) returns (i: nat)
    requires v in Values(rules, kind)
    ensures i < |rules| && rules[i] == CallerRule(kind, v)
  {
    i :| 0 <= i < |rules| && rules[i].kind == kind && rules[i].value == v;
  }

  lemma RecognizedMatches(resolve: Resolver, rules: seq<CallerRule>, peer: Peer)
    requires Recognized(resolve, rules, peer)
    ensures MatchesAny(resolve, rules, peer)
  {
    var i: nat;
    if peer.applePlatform && peer.signingId in Values(rules, ApplePlatformSigningId) {
      i := RuleNaming(rules, ApplePlatformSigningId, peer.signingId);
    } else if peer.appleAnchored && peer.signingId in Values(rules, SigningId) {
      i := RuleNaming(rules, SigningId, peer.signingId);
    } else if peer.appleAnchored && peer.teamId in Values(rules, TeamId) {
      i := RuleNaming(rules, TeamId, peer.teamId);
    } else if v :| peer.cdHash != "" && v in Values(rules, CDHash) && SameHash(peer.cdHash, v) {
      i := RuleNaming(rules, CDHash, v);
      EqualFoldIsSameHash(peer.cdHash, v);
    } else {
      var v :| v in Values(rules, Path) && v != "" && peer.path == Resolved(resolve, v);
      i := RuleNaming(rules, Path, v);
    }
    assert Matches(resolve, rules[i], peer);
  }

  lemma MatchedIsRecognized(resolve: Resolver, rules: seq<CallerRule>, peer: Peer)
    ensures MatchesAny(resolve, rules, peer) <==> Recognized(resolve, rules, peer)
  {
    if MatchesAny(resolve, rules, peer) {
      var i :| 0 <= i < |rules| && Matches(resolve, rules[i], peer);
      MatchIsRecognized(resolve, rules, i, peer);
    } else if Recognized(resolve, rules, peer) {
      RecognizedMatches(resolve, rules, peer);
    }
  }

  /** Each verdict, for every policy and every peer, in terms of what the rules name. */
  lemma VerdictsExactly(resolve: Resolver, p: Policy, peer: Peer)
    ensures var verdict, known := CheckCaller(resolve, p, peer), Recognized(resolve, p.rules, peer);
      && (verdict == Admitted <==> p.enforce ==> known && (p.requireHardened ==> peer.hardened))
      && (verdict == NotHardened <==> p.enforce && known && p.requireHardened && !peer.hardened)
      && (verdict == Unidentified <==> p.enforce && !known && peer.path == "")
  {
    MatchedIsRecognized(resolve, p.rules, peer);
  }

  lemma ValuesAppend(a: seq<CallerRule>, b: seq<CallerRule>, kind: RuleKind)
    ensures Values(a + b, kind) == Values(a, kind) + Values(b, kind)
  {
    forall v ensures v in Values(a + b, kind) <==> v in Values(a, kind) || v in Values(b, kind) {
      if v in Values(a, kind) {
        var i := RuleNaming(a, kind, v);
        assert (a + b)[i] == a[i];
      }
      if v in Values(b, kind) {
        var i := RuleNaming(b, kind, v);
        assert (a + b)[|a| + i] == b[i];
      }
    }
  }

  lemma DefaultValues()
    ensures forall kind :: Values(DEFAULT_RULES, kind) ==
              if kind == ApplePlatformSigningId
              then {"com.apple.ssh", "com.apple.scp", "com.apple.sftp", "com.apple.ssh-keygen"} else {}
  {
    assert DEFAULT_RULES[0].value == "com.apple.ssh" && DEFAULT_RULES[1].value == "com.apple.scp";
    assert DEFAULT_RULES[2].value == "com.apple.sftp" && DEFAULT_RULES[3].value == "com.apple.ssh-keygen";
  }

  /** A configured policy recognizes the four platform tools, and whatever the configured rules recognize. */
  lemma ConfiguredPolicy(resolve: Resolver, enforce: bool, hardened: bool, extra: seq<CallerRule>, peer: Peer)
    ensures var known := Recognized(resolve, extra, peer) ||
        (peer.applePlatform &&
          peer.signingId in {"com.apple.ssh", "com.apple.scp", "com.apple.sftp", "com.apple.ssh-keygen"});
      CheckCaller(resolve, NewPolicy(enforce, hardened, extra), peer) == Admitted <==>
      (enforce ==> known && (hardened ==> peer.hardened))
  {
    DefaultValues();
    forall kind ensures Values(DEFAULT_RULES + extra, kind) == Values(DEFAULT_RULES, kind) + Values(extra, kind) {
      ValuesAppend(DEFAULT_RULES, extra, kind);
    }
    VerdictsExactly(resolve, NewPolicy(enforce, hardened, extra), peer);
  }

  // ---------------------------------------------------------------- rate limiting, key by key

  /**
   Each bucket keeps at most as many times as the limit allows, in order, and answers with them for every grant
   ever made for its key; and no minute ever held more grants of a key than the limit allows.
   */
  ghost predicate Histories(kept: map<string, seq<int>>, history: map<string, seq<int>>, limit: int, clock: int) {
    && history.Keys == kept.Keys
    && (forall name :: name in kept ==>
          Holds(kept[name], history[name], clock) && |kept[name]| <= limit && Bounded(history[name], limit))
  }

  function At(m: map<string, seq<int>>, name: string): seq<int> {
    if name in m then m[name] else []
  }

  /** A request for one key: its bucket answers for its history, and the other buckets for theirs. */
  lemma RequestKeepsHistories(kept: map<string, seq<int>>, history: map<string, seq<int>>, clock: int, name: string,
                              limit: int, now: int)
    requires Histories(kept, history, limit, clock) && clock <= now
    ensures Decide(At(kept, name), limit, now) == Grants(At(history, name), limit, now)
    ensures Histories(kept, history, limit, now)
    ensures limit > 0 ==> Histories(kept[name := Keep(At(kept, name), limit, now)],
                                    history[name := After(At(history, name), limit, now)], limit, now)
  {
    forall other | other in kept ensures Holds(kept[other], history[other], now) {
    }
    KeepHolds(At(kept, name), At(history, name), limit, now, now);
    if limit > 0 {
      GrantKeepsBound(At(history, name), limit, now);
    }
  }

  lemma LastUpdateStands(m: map<string, seq<int>>, name: string, before: seq<int>, after: seq<int>)
    ensures m[name := before][name := after] == m[name := after] && m[name := before][name] == before
  {
  }

  class PeerPolicy {
    const policy: Policy
    const rateLimit: int
    var rates: map<string, RateBucket>
    /** What each bucket keeps; the policy, its buckets and their backing arrays. */
    ghost var kept: map<string, seq<int>>
    ghost var Repr: set<object>
    /** Every grant made for each key, and the last time any key was checked. */
    ghost var history: map<string, seq<int>>
    ghost var clock: int

    static ghost predicate Fits(b: RateBucket, times: seq<int>)
      reads b, b.buf
    {
      b.Valid() && b.times == times
    }

    ghost predicate Valid()
      reads this, Repr
    {
      && this in Repr && kept.Keys == rates.Keys
      && (forall name {:trigger rates[name]} :: name in rates ==>
            rates[name] in Repr && rates[name].buf in Repr && Fits(rates[name], kept[name]))
      && (forall a, b {:trigger rates[a], rates[b]} :: a in rates && b in rates && a != b ==>
            rates[a] != rates[b] && rates[a].buf != rates[b].buf)
    }

    ghost predicate Faithful()
      reads this
    {
      Histories(kept, history, rateLimit, clock)
    }

    constructor (enforce: bool, configuredLimit: int, extra: seq<CallerRule>, hardened: bool, ghost clock: int)
      ensures Valid() && Faithful() && fresh(Repr) && this.clock == clock && history == kept == map[]
      ensures policy == NewPolicy(enforce, hardened, extra) && rateLimit == EffectiveLimit(configuredLimit)
    {
      policy := NewPolicy(enforce, hardened, extra);
      rateLimit := EffectiveLimit(configuredLimit);
      rates, kept, Repr, history := map[], map[], {this}, map[];
      this.clock := clock;
    }

    /** Sees to it that the key has a bucket; a new one is empty. */
    method StoreBucket(name: string)
      requires Valid()
      modifies `rates, `kept, `Repr
      ensures Valid() && fresh(Repr - old(Repr)) && name in rates
      ensures kept == old(kept)[name := At(old(kept), name)]
    {
      if name !in rates {
        var b := new RateBucket();
        TakeIn(name, b);
      }
    }

    /** Adds a bucket that no other key has. */
    method TakeIn(name: string, b: RateBucket)
      requires Valid() && name !in rates
      requires b.Valid() && b.times == [] && b !in Repr && b.buf !in Repr
      modifies `rates, `kept, `Repr
      ensures Valid() && Repr == old(Repr) + {b, b.buf}
      ensures rates == old(rates)[name := b] && kept == old(kept)[name := []]
    {
      rates, Repr, kept := rates[name := b], Repr + {b, b.buf}, kept[name := []];
    }

    /** Asks the key's bucket; the others are other objects, with other arrays. */
    method AskBucket(name: string, now: int) returns (ok: bool)
      requires Valid() && name in rates
      modifies `kept, `Repr, rates[name], rates[name].buf
      ensures Valid() && fresh(Repr - old(Repr))
      ensures ok == Decide(old(kept[name]), rateLimit, now)
      ensures kept == old(kept)[name := Keep(old(kept[name]), rateLimit, now)]
    {
      var b := rates[name];
      ok := b.Allow(rateLimit, now);
      Adopt(name);
    }

    /** Records what a bucket keeps now, and its array: the other buckets are as they were. */
    ghost method Adopt(name: string)
      requires this in Repr && name in rates && rates[name] in Repr && rates[name].Valid() && kept.Keys == rates.Keys
      requires forall other {:trigger rates[other]} :: other in rates && other != name ==>
                 && rates[other] in Repr && rates[other].buf in Repr && rates[other].buf != rates[name].buf
                 && Fits(rates[other], kept[other])
      requires forall a, b {:trigger rates[a], rates[b]} :: a in rates && b in rates && a != b ==>
                 rates[a] != rates[b] && (a != name && b != name ==> rates[a].buf != rates[b].buf)
      modifies `kept, `Repr
      ensures Valid() && Repr == old(Repr) + {rates[name].buf} && kept == old(kept)[name := rates[name].times]
    {
      Repr, kept := Repr + {rates[name].buf}, kept[name := rates[name].times];
    }

    /** A new bucket is stored even when the request is not granted. */
    method Ask(name: string, now: int) returns (ok: bool)
      requires Valid()
      modifies Repr
      ensures Valid() && fresh(Repr - old(Repr)) && history == old(history) && clock == old(clock)
      ensures ok == Decide(old(At(kept, name)), rateLimit, now)
      ensures kept == old(kept)[name := Keep(old(At(kept, name)), rateLimit, now)]
    {
      ghost var before := At(kept, name);
      LastUpdateStands(kept, name, before, Keep(before, rateLimit, now));
      StoreBucket(name);
      ok := AskBucket(name, now);
    }

    /** Adds the request to the history, and the time to the clock. */
    ghost method Record(before: map<string, seq<int>>, name: string, now: int)
      requires rateLimit > 0 && Histories(before, history, rateLimit, clock) && clock <= now
      requires kept == before[name := Keep(At(before, name), rateLimit, now)]
      requires Valid()
      modifies `history, `clock
      ensures Valid() && Faithful() && clock == now
      ensures history == old(history)[name := After(old(At(history, name)), rateLimit, now)]
    {
      RequestKeepsHistories(before, history, clock, name, rateLimit, now);
      Remember(history[name := After(At(history, name), rateLimit, now)], now);
    }

    /** The history says nothing about the buckets. */
    ghost method Remember(next: map<string, seq<int>>, now: int)
      requires Valid()
      modifies `history, `clock
      ensures Valid() && history == next && clock == now
    {
      history, clock := next, now;
    }

    /** Grants a request for one key as that key's history calls for, and touches no other key. */
    method CheckRate(name: string, now: int) returns (ok: bool)
      requires Valid() && Faithful() && clock <= now
      modifies Repr
      ensures Valid() && Faithful() && clock == now && fresh(Repr - old(Repr))
      ensures ok == (rateLimit <= 0 || Decide(old(At(kept, name)), rateLimit, now))
      ensures ok == Admits(old(At(history, name)), rateLimit, now)
      ensures kept == if rateLimit <= 0 then old(kept) else old(kept)[name := Keep(old(At(kept, name)), rateLimit, now)]
      ensures history == if rateLimit <= 0 then old(history)
              else old(history)[name := After(old(At(history, name)), rateLimit, now)]
    {
      RequestKeepsHistories(kept, history, clock, name, rateLimit, now);
      if rateLimit <= 0 {
        clock := now;
        return true;
      }
      ghost var before := kept;
      ok := Ask(name, now);
      Record(before, name, now);
    }
  }
}
