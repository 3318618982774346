/**
 The argument vector of the agent's plist: which flags a migration keeps, compared with what the flag
 parser makes of the vector before and after.
 */
module PlistFlags {
  import opened Wrappers
  import Seqs

  // ---------------------------------------------------------------- the migration's tables

  /** The agent flags carried across a migration. */
  const PRESERVED := {"-audit-log", "-no-peer-check", "-peer-check", "-rate-limit", "-allowed-callers", "-v"}

  /** The flags whose next argument is their value. */
  const TAKES_VALUE := {"-audit-log", "-rate-limit", "-allowed-callers", "-l"}

  /** The other switches of a running agent: one the migration replaces, one it drops. */
  const LAUNCHD := "-launchd"
  const HARDENED := "-require-hardened-callers"

  // ---------------------------------------------------------------- extraction

  /** The flags worth keeping of the arguments after the binary. */
  function Kept(rest: seq<string>): seq<string>
    decreases |rest|
  {
    if rest == [] then []
    else
      var a := rest[0];
      if a in PRESERVED && a in TAKES_VALUE then
        if |rest| > 1 then [a, rest[1]] + Kept(rest[2..]) else Kept(rest[1..])
      else if a in PRESERVED then [a] + Kept(rest[1..])
      else if a in TAKES_VALUE && |rest| > 1 then Kept(rest[2..])
      else Kept(rest[1..])
  }

  function RunFlags(args: seq<string>): seq<string> {
    if args == [] then [] else Kept(args[1..])
  }

  /** Walks the arguments after the binary and collects the flags worth keeping. */
  method ExtractRunFlags(args: seq<string>) returns (out: seq<string>)
    ensures out == RunFlags(args)
  {
    out := [];
    if |args| == 0 {
      return;
    }
    var i := 1;
    assert out + Kept(args[1..]) == RunFlags(args);
    while i < |args|
      invariant 1 <= i
      invariant out + Kept(if i < |args| then args[i..] else []) == RunFlags(args)
    {
      var a := args[i];
      ghost var rest := args[i..];
      ghost var next := if i + 2 < |args| then args[i + 2..] else [];
      assert rest[1..] == args[i + 1..] && (i + 1 < |args| ==> rest[2..] == next);
      if a in PRESERVED && a in TAKES_VALUE {
        if i + 1 < |args| {
          Seqs.Assoc(out, [a, args[i + 1]], Kept(next));
          out := out + [a, args[i + 1]];
          i := i + 2;
        } else {
          i := i + 1;
        }
      } else if a in PRESERVED {
        Seqs.Assoc(out, [a], Kept(rest[1..]));
        out := out + [a];
        i := i + 1;
      } else if a in TAKES_VALUE {
        i := i + 2;
      } else {
        i := i + 1;
      }
    }
    assert out + [] == out;
  }

  lemma KeptPair(a: string, v: string, rest: seq<string>)
    requires a in PRESERVED && a in TAKES_VALUE
    ensures Kept([a, v] + rest) == [a, v] + Kept(rest)
  {
    assert ([a, v] + rest)[2..] == rest;
  }

  lemma KeptSwitch(a: string, rest: seq<string>)
    requires a !in TAKES_VALUE
    ensures Kept([a] + rest) == (if a in PRESERVED then [a] else []) + Kept(rest)
  {
    assert ([a] + rest)[1..] == rest;
    assert [] + Kept(rest) == Kept(rest);
  }

  /** Extracting keeps everything that extracting kept, even where a value looks like a flag. */
  lemma {:induction false} KeptOfKept(rest: seq<string>)
    ensures Kept(Kept(rest)) == Kept(rest)
    decreases |rest|
  {
    if rest != [] {
      var a := rest[0];
      if a in PRESERVED && a in TAKES_VALUE {
        if |rest| > 1 {
          KeptOfKept(rest[2..]);
          KeptPair(a, rest[1], Kept(rest[2..]));
        } else {
          KeptOfKept(rest[1..]);
        }
      } else if a in PRESERVED {
        KeptOfKept(rest[1..]);
        KeptSwitch(a, Kept(rest[1..]));
      } else if a in TAKES_VALUE && |rest| > 1 {
        KeptOfKept(rest[2..]);
      } else {
        KeptOfKept(rest[1..]);
      }
    }
  }

  /** The argument vector a migration writes. */
  function Migrated(binary: string, args: seq<string>): seq<string> {
    [binary, LAUNCHD] + RunFlags(args)
  }

  /** Migrating is idempotent, for every argument vector at all. */
  lemma MigrationIsIdempotent(binary: string, args: seq<string>)
    ensures RunFlags(Migrated(binary, args)) == RunFlags(args)
    ensures Migrated(binary, Migrated(binary, args)) == Migrated(binary, args)
  {
    var kept := RunFlags(args);
    assert Migrated(binary, args)[1..] == [LAUNCHD] + kept;
    KeptSwitch(LAUNCHD, kept);
    assert [] + Kept(kept) == Kept(kept);
    if args != [] {
      KeptOfKept(args[1..]);
    }
  }

  // ---------------------------------------------------------------- meaning

  /** The switches a running agent knows. */
  const SWITCHES := {"-no-peer-check", "-peer-check", "-v", "-launchd", "-require-hardened-callers"}

  /**
   What the flag parser makes of space-separated arguments: the last setting of each flag wins; None for an
   unknown flag, a missing value or an argument that is no flag.
   */
  function Flags(rest: seq<string>, m: map<string, string>): Option<map<string, string>>
    decreases |rest|
  {
    if rest == [] then Some(m)
    else
      var a := rest[0];
      if a in TAKES_VALUE then
        if |rest| > 1 then Flags(rest[2..], m[a := rest[1]]) else None
      else if a in SWITCHES then Flags(rest[1..], m[a := "true"])
      else None
  }

  function Meaning(args: seq<string>): Option<map<string, string>> {
    if args == [] then Some(map[]) else Flags(args[1..], map[])
  }

  function Restricted(m: map<string, string>): map<string, string> {
    map f | f in m && f in PRESERVED :: m[f]
  }

  lemma RestrictedUpdate(m: map<string, string>, a: string, v: string)
    ensures Restricted(m[a := v]) == if a in PRESERVED then Restricted(m)[a := v] else Restricted(m)
  {
  }

  lemma FlagsOfPair(a: string, v: string, rest: seq<string>, m: map<string, string>)
    requires a in TAKES_VALUE
    ensures Flags([a, v] + rest, m) == Flags(rest, m[a := v])
  {
    assert ([a, v] + rest)[2..] == rest;
  }

  lemma FlagsOfSwitch(a: string, rest: seq<string>, m: map<string, string>)
    requires a in SWITCHES
    ensures Flags([a] + rest, m) == Flags(rest, m[a := "true"])
  {
    assert ([a] + rest)[1..] == rest;
  }

  /** Parsing what was kept sets what parsing everything sets, of the kept flags, and nothing else. */
  lemma {:induction false} KeptMeansTheSame(rest: seq<string>, m: map<string, string>, m': map<string, string>)
    requires Flags(rest, m).Some?
    requires Restricted(m) == Restricted(m')
    ensures Flags(Kept(rest), m').Some?
    ensures var all, kept := Flags(rest, m).value, Flags(Kept(rest), m').value;
      && Restricted(kept) == Restricted(all)
      && (forall f :: f in kept && f !in PRESERVED <==> f in m' && f !in PRESERVED)
      && (forall f :: f in m' && f !in PRESERVED ==> f in kept && kept[f] == m'[f])
    decreases |rest|
  {
    if rest != [] {
      var a := rest[0];
      if a in TAKES_VALUE {
        var v := rest[1];
        RestrictedUpdate(m, a, v);
        if a in PRESERVED {
          RestrictedUpdate(m', a, v);
          KeptMeansTheSame(rest[2..], m[a := v], m'[a := v]);
          FlagsOfPair(a, v, Kept(rest[2..]), m');
        } else {
          KeptMeansTheSame(rest[2..], m[a := v], m');
        }
      } else {
        RestrictedUpdate(m, a, "true");
        if a in PRESERVED {
          RestrictedUpdate(m', a, "true");
          KeptMeansTheSame(rest[1..], m[a := "true"], m'[a := "true"]);
          FlagsOfSwitch(a, Kept(rest[1..]), m');
        } else {
          KeptMeansTheSame(rest[1..], m[a := "true"], m');
        }
      }
    }
  }

  /**
   A migrated vector means what the old one meant, restricted to the preserved flags, plus `-launchd`; in
   particular no `-l` is left in flag position.
   */
  lemma MigrationPreservesMeaning(binary: string, args: seq<string>)
    requires Meaning(args).Some?
    ensures Meaning(Migrated(binary, args)) == Some(Restricted(Meaning(args).value)[LAUNCHD := "true"])
    ensures "-l" !in Meaning(Migrated(binary, args)).value
  {
    var rest := if args == [] then [] else args[1..];
    assert Migrated(binary, args)[1..] == [LAUNCHD] + Kept(rest);
    FlagsOfSwitch(LAUNCHD, Kept(rest), map[]);
    KeptAfterLaunchd(rest);
  }

  /** Parsing what was kept, after the switch, sets the switch and what parsing everything sets of the kept flags. */
  lemma KeptAfterLaunchd(rest: seq<string>)
    requires Flags(rest, map[]).Some?
    ensures Flags(Kept(rest), map[LAUNCHD := "true"]) == Some(Restricted(Flags(rest, map[]).value)[LAUNCHD := "true"])
  {
    var none: map<string, string> := map[];
    var start := none[LAUNCHD := "true"];
    RestrictedUpdate(none, LAUNCHD, "true");
    KeptMeansTheSame(rest, none, start);
    var kept := Flags(Kept(rest), start).value;
    assert forall f :: f in Restricted(kept) <==> f in kept && f in PRESERVED;
    assert kept == Restricted(kept)[LAUNCHD := "true"];
  }

  /** Apart from the listener's own flags nothing changes exactly when callers were not required to be hardened. */
  lemma MigrationDropsHardening(binary: string, args: seq<string>)
    requires Meaning(args).Some?
    ensures Meaning(Migrated(binary, args)).Some?
    ensures (Meaning(Migrated(binary, args)).value - {LAUNCHD} == Meaning(args).value - {LAUNCHD, "-l"})
            <==> HARDENED !in Meaning(args).value
  {
    MigrationPreservesMeaning(binary, args);
    var before, after := Meaning(args).value, Meaning(Migrated(binary, args)).value;
    if args != [] {
      KnownFlagsOnly(args[1..], map[]);
    }
    assert forall f :: f in after - {LAUNCHD} <==> f in before && f in PRESERVED;
    if HARDENED in before {
      assert HARDENED in before - {LAUNCHD, "-l"};
    }
  }

  /** A vector that loses the requirement. */
  lemma HardeningIsLost(binary: string)
    ensures var args := ["agent", "-l", "/s", HARDENED];
      && Meaning(args).Some? && HARDENED in Meaning(args).value
      && Meaning(Migrated(binary, args)).Some? && HARDENED !in Meaning(Migrated(binary, args)).value
  {
    var args := ["agent", "-l", "/s", HARDENED];
    assert args[1..] == ["-l", "/s"] + [HARDENED];
    FlagsOfPair("-l", "/s", [HARDENED], map[]);
    assert [HARDENED][1..] == [];
    MigrationPreservesMeaning(binary, args);
  }

  lemma {:induction false} KnownFlagsOnly(rest: seq<string>, m: map<string, string>)
    requires Flags(rest, m).Some?
    requires forall f :: f in m ==> f in TAKES_VALUE || f in SWITCHES
    ensures forall f :: f in Flags(rest, m).value ==> f in TAKES_VALUE || f in SWITCHES
    decreases |rest|
  {
    if rest != [] {
      if rest[0] in TAKES_VALUE {
        KnownFlagsOnly(rest[2..], m[rest[0] := rest[1]]);
      } else {
        KnownFlagsOnly(rest[1..], m[rest[0] := "true"]);
      }
    }
  }

  // ---------------------------------------------------------------- the vectors of an agent, setting by setting

  /** One setting of an agent's command line, or a word that is none. */
  datatype Setting =
    | AuditLog(value: string)
    | RateLimit(value: string)
    | AllowedCallers(value: string)
    | Socket(value: string)
    | NoPeerCheck
    | PeerCheck
    | Verbose
    | Launchd
    | RequireHardened
    | Word(text: string)

  /** How the setting is written. */
  function Words(s: Setting): seq<string> {
    match s
    case AuditLog(value) => ["-audit-log", value]
    case RateLimit(value) => ["-rate-limit", value]
    case AllowedCallers(value) => ["-allowed-callers", value]
    case Socket(value) => ["-l", value]
    case NoPeerCheck => ["-no-peer-check"]
    case PeerCheck => ["-peer-check"]
    case Verbose => ["-v"]
    case Launchd => ["-launchd"]
    case RequireHardened => ["-require-hardened-callers"]
    case Word(text) => [text]
  }

  function Written(settings: seq<Setting>): seq<string> {
    if settings == [] then [] else Words(settings[0]) + Written(settings[1..])
  }

  /** A word that no setting begins with. */
  predicate Strange(text: string) {
    text !in ["-audit-log", "-rate-limit", "-allowed-callers", "-l", "-no-peer-check", "-peer-check", "-v", "-launchd",
              "-require-hardened-callers"]
  }

  predicate Proper(s: Setting) {
    s.Word? ==> Strange(s.text)
  }

  /** The settings that a migration carries over. */
  function CarriedOver(settings: seq<Setting>): seq<Setting> {
    if settings == [] then []
    else
      var s := settings[0];
      (if s.Socket? || s.Launchd? || s.RequireHardened? || s.Word? then [] else [s]) + CarriedOver(settings[1..])
  }

  /** The settings in force: the last of each kind. */
  function InForce(settings: seq<Setting>, m: map<string, string>): map<string, string> {
    if settings == [] then m
    else
      var s := settings[0];
      InForce(settings[1..], m[Words(s)[0] := if |Words(s)| == 2 then Words(s)[1] else "true"])
  }

  lemma KeptOfSetting(s: Setting, more: seq<string>)
    requires Proper(s)
    ensures Kept(Words(s) + more) ==
            (if s.Socket? || s.Launchd? || s.RequireHardened? || s.Word? then [] else Words(s)) + Kept(more)
  {
    assert [] + Kept(more) == Kept(more);
    match s
    case AuditLog(value) => KeptPair("-audit-log", value, more);
    case RateLimit(value) => KeptPair("-rate-limit", value, more);
    case AllowedCallers(value) => KeptPair("-allowed-callers", value, more);
    case Socket(value) => SocketIsDropped(value, more);
    case _ => KeptSwitch(Words(s)[0], more);
  }

  lemma SocketIsDropped(value: string, more: seq<string>)
    ensures Kept(["-l", value] + more) == Kept(more)
  {
    assert (["-l", value] + more)[2..] == more;
  }

  /** Of a written command line exactly the settings that a migration carries over are kept, values included. */
  lemma {:induction false} KeptOfWritten(settings: seq<Setting>, tail: seq<string>)
    requires forall i :: 0 <= i < |settings| ==> Proper(settings[i])
    ensures Kept(Written(settings) + tail) == Written(CarriedOver(settings)) + Kept(tail)
  {
    if settings == [] {
      assert Written(settings) + tail == tail;
      assert Written(CarriedOver(settings)) + Kept(tail) == Kept(tail);
    } else {
      var s, others := settings[0], settings[1..];
      KeptOfWritten(others, tail);
      Seqs.Assoc(Words(s), Written(others), tail);
      KeptOfSetting(s, Written(others) + tail);
      CarriedOverFirst(s, others, Kept(tail));
      assert settings == [s] + others;
    }
  }

  lemma CarriedOverFirst(s: Setting, others: seq<Setting>, more: seq<string>)
    ensures Written(CarriedOver([s] + others)) + more ==
            (if s.Socket? || s.Launchd? || s.RequireHardened? || s.Word? then [] else Words(s)) +
            (Written(CarriedOver(others)) + more)
  {
    var first := if s.Socket? || s.Launchd? || s.RequireHardened? || s.Word? then [] else [s];
    assert ([s] + others)[1..] == others && (first + CarriedOver(others))[|first|..] == CarriedOver(others);
    if first == [] {
      assert first + CarriedOver(others) == CarriedOver(others);
    } else {
      Seqs.Assoc(Words(s), Written(CarriedOver(others)), more);
    }
  }

  /** Nothing, or a flag that lacks its value. */
  predicate Dangling(tail: seq<string>) {
    tail == [] || (|tail| == 1 && tail[0] in ["-audit-log", "-rate-limit", "-allowed-callers", "-l"])
  }

  lemma NothingDangles(tail: seq<string>)
    requires Dangling(tail)
    ensures Kept(tail) == []
  {
    assert tail != [] ==> tail[1..] == [];
  }

  /** Every vector is a command line of settings and words, but for a flag at its end that lacks its value. */
  lemma {:induction false} EveryVectorIsWritten(rest: seq<string>) returns (settings: seq<Setting>, tail: seq<string>)
    ensures rest == Written(settings) + tail
    ensures forall i :: 0 <= i < |settings| ==> Proper(settings[i])
    ensures Dangling(tail)
    decreases |rest|
  {
    if Dangling(rest) {
      settings, tail := [], rest;
    } else {
      var s := FirstSetting(rest);
      var others, last := EveryVectorIsWritten(rest[|Words(s)|..]);
      settings, tail := [s] + others, last;
      WrittenFirst(s, others);
      Seqs.Assoc(Words(s), Written(others), last);
      assert rest == rest[..|Words(s)|] + rest[|Words(s)|..];
    }
  }

  lemma WrittenFirst(s: Setting, others: seq<Setting>)
    ensures Written([s] + others) == Words(s) + Written(others)
  {
    assert ([s] + others)[1..] == others;
  }

  lemma FirstSetting(rest: seq<string>) returns (s: Setting)
    requires !Dangling(rest)
    ensures Proper(s) && |Words(s)| <= |rest| && rest[..|Words(s)|] == Words(s)
  {
    var a := rest[0];
    s := if a == "-audit-log" then AuditLog(rest[1])
      else if a == "-rate-limit" then RateLimit(rest[1])
      else if a == "-allowed-callers" then AllowedCallers(rest[1])
      else if a == "-l" then Socket(rest[1])
      else if a == "-no-peer-check" then NoPeerCheck
      else if a == "-peer-check" then PeerCheck
      else if a == "-v" then Verbose
      else if a == "-launchd" then Launchd
      else if a == "-require-hardened-callers" then RequireHardened
      else Word(a);
  }

  /** What is extracted from any vector: the settings carried over, each with its value, in their order. */
  lemma ExtractedSettings(binary: string, settings: seq<Setting>, tail: seq<string>)
    requires forall i :: 0 <= i < |settings| ==> Proper(settings[i])
    requires Dangling(tail)
    ensures RunFlags([binary] + (Written(settings) + tail)) == Written(CarriedOver(settings))
  {
    var rest := Written(settings) + tail;
    assert ([binary] + rest)[1..] == rest;
    KeptOfWritten(settings, tail);
    NothingDangles(tail);
    assert Written(CarriedOver(settings)) + [] == Written(CarriedOver(settings));
  }

  lemma FlagsOfSetting(s: Setting, more: seq<string>, m: map<string, string>)
    requires Proper(s)
    ensures Flags(Words(s) + more, m) ==
            if s.Word? then None
            else Flags(more, m[Words(s)[0] := if |Words(s)| == 2 then Words(s)[1] else "true"])
  {
    var rest := Words(s) + more;
    assert rest[0] == Words(s)[0] && rest[|Words(s)|..] == more;
  }

  /** The flag parser takes exactly the settings, the last of each kind, and stops at any other word. */
  lemma {:induction false} FlagsOfWritten(settings: seq<Setting>, m: map<string, string>)
    requires forall i :: 0 <= i < |settings| ==> Proper(settings[i])
    ensures Flags(Written(settings), m) ==
            if exists i :: 0 <= i < |settings| && settings[i].Word? then None else Some(InForce(settings, m))
  {
    if settings != [] {
      var s, others := settings[0], settings[1..];
      FlagsOfSetting(s, Written(others), m);
      if !s.Word? {
        FlagsOfWritten(others, m[Words(s)[0] := if |Words(s)| == 2 then Words(s)[1] else "true"]);
        assert forall i :: 0 <= i < |others| ==> others[i] == settings[i + 1];
        assert forall i :: 1 <= i < |settings| ==> settings[i] == others[i - 1];
      }
    }
  }

  /** A written command line means the settings in force. */
  lemma MeaningOfSettings(binary: string, settings: seq<Setting>)
    requires forall i :: 0 <= i < |settings| ==> Proper(settings[i])
    ensures Meaning([binary] + Written(settings)) ==
            if exists i :: 0 <= i < |settings| && settings[i].Word? then None else Some(InForce(settings, map[]))
  {
    assert ([binary] + Written(settings))[1..] == Written(settings);
    FlagsOfWritten(settings, map[]);
  }

  // ---------------------------------------------------------------- the old socket

  /** The argument after the first `-l`. */
  function SocketFromOldArgs(args: seq<string>): string {
    if |args| < 2 then ""
    else if args[0] == "-l" then args[1]
    else SocketFromOldArgs(args[1..])
  }

  /** The sockets the flag parser sees, in order. */
  function Sockets(rest: seq<string>): seq<string>
    decreases |rest|
  {
    if |rest| < 2 then []
    else if rest[0] in TAKES_VALUE then (if rest[0] == "-l" then [rest[1]] else []) + Sockets(rest[2..])
    else Sockets(rest[1..])
  }

  /** No other flag has `-l` for its value. */
  predicate PlainSockets(rest: seq<string>)
    decreases |rest|
  {
    |rest| < 2 ||
    (if rest[0] == "-l" then true
     else if rest[0] in TAKES_VALUE then rest[1] != "-l" && PlainSockets(rest[2..])
     else PlainSockets(rest[1..]))
  }

  lemma {:induction false} SocketIsFirst(rest: seq<string>)
    requires PlainSockets(rest)
    ensures SocketFromOldArgs(rest) == if Sockets(rest) == [] then "" else Sockets(rest)[0]
    decreases |rest|
  {
    if |rest| >= 2 && rest[0] != "-l" {
      if rest[0] in TAKES_VALUE {
        SocketIsFirst(rest[2..]);
        assert rest[1..][1..] == rest[2..];
        assert [] + Sockets(rest[2..]) == Sockets(rest[2..]);
      } else {
        SocketIsFirst(rest[1..]);
      }
    }
  }

  lemma {:induction false} MeaningIsLast(rest: seq<string>, m: map<string, string>)
    requires Flags(rest, m).Some?
    ensures var all := Flags(rest, m).value;
      if Sockets(rest) == [] then ("-l" in all <==> "-l" in m) && ("-l" in m ==> all["-l"] == m["-l"])
      else "-l" in all && all["-l"] == Sockets(rest)[|Sockets(rest)| - 1]
    decreases |rest|
  {
    if rest != [] {
      if rest[0] in TAKES_VALUE {
        MeaningIsLast(rest[2..], m[rest[0] := rest[1]]);
      } else {
        MeaningIsLast(rest[1..], m[rest[0] := "true"]);
      }
    }
  }

  /** What follows the first `-l` that stands for another flag's value; empty when nothing does. */
  function Misread(rest: seq<string>): string
    requires !PlainSockets(rest)
    decreases |rest|
  {
    if rest[0] in TAKES_VALUE then
      if rest[1] != "-l" then Misread(rest[2..]) else if |rest| > 2 then rest[2] else ""
    else Misread(rest[1..])
  }

  lemma {:induction false} SocketIsMisread(rest: seq<string>, m: map<string, string>)
    requires !PlainSockets(rest) && Flags(rest, m).Some?
    ensures SocketFromOldArgs(rest) == Misread(rest)
    ensures Misread(rest) == "" || Misread(rest) in TAKES_VALUE + SWITCHES
    decreases |rest|
  {
    if rest[0] in TAKES_VALUE {
      assert rest[1..][1..] == rest[2..];
      if rest[1] != "-l" {
        SocketIsMisread(rest[2..], m[rest[0] := rest[1]]);
      }
    } else {
      SocketIsMisread(rest[1..], m[rest[0] := "true"]);
    }
  }

  /** The first `-l` of the vector is a flag of the agent: neither the binary nor another flag's value. */
  predicate SocketFlagFirst(args: seq<string>)
    requires args != []
  {
    args[0] != "-l" && PlainSockets(args[1..])
  }

  /**
   The migration takes the argument after the first `-l`, the agent listened on its last socket. Where the
   first `-l` is a flag of the agent, they are one exactly when the first and the last setting agree;
   elsewhere the migration takes a flag, or nothing, for the socket.
   */
  lemma SocketAgreement(args: seq<string>)
    requires args != [] && Meaning(args).Some? && "-l" in Meaning(args).value
    ensures var taken, used, all := SocketFromOldArgs(args), Meaning(args).value["-l"], Sockets(args[1..]);
      && all != []
      && (taken == used <==>
            if SocketFlagFirst(args) then all[0] == all[|all| - 1]
            else used == if args[0] == "-l" then args[1] else Misread(args[1..]))
      && (!SocketFlagFirst(args) ==> taken == "" || taken in TAKES_VALUE + SWITCHES)
      && (used != "" && used !in TAKES_VALUE + SWITCHES ==>
            (taken == used <==> SocketFlagFirst(args) && all[0] == all[|all| - 1]))
  {
    var rest := args[1..];
    MeaningIsLast(rest, map[]);
    if args[0] == "-l" {
      assert rest[0] == args[1];
    } else if PlainSockets(rest) {
      SocketIsFirst(rest);
    } else {
      SocketIsMisread(rest, map[]);
    }
  }

  /** Another flag's value read as the socket flag: the migration takes the flag after it for the socket. */
  lemma ValueIsMisread()
    ensures var args := ["agent", "-audit-log", "-l", "-l", "/x"];
      && SocketFromOldArgs(args) == "-l" && !SocketFlagFirst(args) && Sockets(args[1..]) == ["/x"]
      && Meaning(args).Some? && "-l" in Meaning(args).value && Meaning(args).value["-l"] == "/x"
  {
    var args := ["agent", "-audit-log", "-l", "-l", "/x"];
    assert args[1..] == ["-audit-log", "-l"] + ["-l", "/x"];
    FlagsOfPair("-audit-log", "-l", ["-l", "/x"], map[]);
    assert args[1..][2..] == ["-l", "/x"] && ["-l", "/x"][2..] == [];
    MeaningIsLast(args[1..], map[]);
  }

  /** Two sockets in one vector: the migration keeps the one the agent did not use. */
  lemma FirstSocketIsKept()
    ensures var args := ["agent", "-l", "/tmp/old", "-l", "/tmp/new"];
      && SocketFromOldArgs(args) == "/tmp/old"
      && Meaning(args).Some? && "-l" in Meaning(args).value && Meaning(args).value["-l"] == "/tmp/new"
  {
    var args := ["agent", "-l", "/tmp/old", "-l", "/tmp/new"];
    assert args[1..] == ["-l", "/tmp/old"] + ["-l", "/tmp/new"];
    FlagsOfPair("-l", "/tmp/old", ["-l", "/tmp/new"], map[]);
    assert ["-l", "/tmp/new"][2..] == [];
  }
}
