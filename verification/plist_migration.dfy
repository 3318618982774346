/**
 Installing and migrating the agent's plist: rendering it, classifying what is there, and rewriting an old
 one. What is rendered is read back, so a migration can be followed from the old arguments to the new file.
 */
module PlistMigration {
  import opened Wrappers
  import opened PlistXml
  import opened PlistValues
  import opened PlistFlags
  import Seqs

  const LABEL := "touchid-agent"

  // ---------------------------------------------------------------- rendering

  function Strings(texts: seq<string>): seq<Value> {
    seq(|texts|, i requires 0 <= i < |texts| => Str(texts[i]))
  }

  /** The property list that socket activation needs. */
  function Wanted(binary: string, socket: string, log: string, extra: seq<string>): Value {
    Dict([
      Entry("Label", Str(LABEL)),
      Entry("ProgramArguments", Arr(Strings([binary, LAUNCHD] + extra))),
      Entry("Sockets", Listeners(socket)),
      Entry("ProcessType", Str("Background")),
      Entry("StandardErrorPath", Str(log)),
      Entry("StandardOutPath", Str(log))
    ])
  }

  function Listeners(socket: string): Value {
    Dict([Entry("Listeners", Listener(socket))])
  }

  function Listener(socket: string): Value {
    Dict([
      Entry("SockFamily", Str("Unix")),
      Entry("SockPathName", Str(socket)),
      Entry("SockPathMode", Num("384"))
    ])
  }

  lemma {:induction false} PrintItemsAppend(items: seq<Value>, v: Value, n: nat)
    ensures PrintItems(items + [v], n) == PrintItems(items, n) + (Line(n) + Print(v, n))
  {
    if items == [] {
      assert ([] + [v])[1..] == [];
      assert Print(v, n) + "" == Print(v, n);
    } else {
      PrintItemsAppend(items[1..], v, n);
      assert (items + [v])[1..] == items[1..] + [v];
      Seqs.Assoc(Print(items[0], n), PrintItems(items[1..], n), Line(n) + Print(v, n));
      Seqs.Assoc(Line(n), Print(items[0], n) + PrintItems(items[1..], n), Line(n) + Print(v, n));
    }
  }

  lemma PrintEntriesCons(e: Entry, rest: seq<Entry>, n: nat)
    ensures PrintEntries([e] + rest, n) == PrintEntry(e.key, Print(e.value, n), n) + PrintEntries(rest, n)
  {
    assert ([e] + rest)[1..] == rest;
  }

  lemma ThreeEntries(a: Entry, b: Entry, c: Entry, n: nat)
    ensures PrintEntries([a, b, c], n) ==
            PrintEntry(a.key, Print(a.value, n), n) + (PrintEntry(b.key, Print(b.value, n), n) +
            (PrintEntry(c.key, Print(c.value, n), n) + ""))
  {
    assert [a, b, c] == [a] + ([b] + ([c] + []));
    PrintEntriesCons(a, [b] + ([c] + []), n);
    PrintEntriesCons(b, [c] + [], n);
    PrintEntriesCons(c, [], n);
  }

  lemma SixEntries(a: Entry, b: Entry, c: Entry, d: Entry, e: Entry, f: Entry, n: nat)
    ensures PrintEntries([a, b, c, d, e, f], n) ==
            PrintEntry(a.key, Print(a.value, n), n) + (PrintEntry(b.key, Print(b.value, n), n) +
            (PrintEntry(c.key, Print(c.value, n), n) + (PrintEntry(d.key, Print(d.value, n), n) +
            (PrintEntry(e.key, Print(e.value, n), n) + (PrintEntry(f.key, Print(f.value, n), n) + "")))))
  {
    assert [a, b, c, d, e, f] == [a] + ([b] + ([c] + [d, e, f]));
    PrintEntriesCons(a, [b] + ([c] + [d, e, f]), n);
    PrintEntriesCons(b, [c] + [d, e, f], n);
    PrintEntriesCons(c, [d, e, f], n);
    ThreeEntries(d, e, f, n);
  }

  lemma OneEntry(a: Entry, n: nat)
    ensures PrintEntries([a], n) == PrintEntry(a.key, Print(a.value, n), n)
  {
    assert [a] == [a] + [];
    PrintEntriesCons(a, [], n);
    assert PrintEntry(a.key, Print(a.value, n), n) + "" == PrintEntry(a.key, Print(a.value, n), n);
  }

  function ArgLine(arg: string): string {
    Line(2) + PrintLeaf("string", arg)
  }

  /** The lines of the first `i` arguments. */
  function Lines(line: string -> string, all: seq<string>, i: nat): string
    requires i <= |all|
  {
    if i == 0 then "" else Lines(line, all, i - 1) + line(all[i - 1])
  }

  lemma {:induction false} ArgLinesArePrinted(all: seq<string>, i: nat)
    requires i <= |all|
    ensures Lines(ArgLine, all, i) == PrintItems(Strings(all[..i]), 2)
  {
    if i > 0 {
      ArgLinesArePrinted(all, i - 1);
      PrintItemsAppend(Strings(all[..i - 1]), Str(all[i - 1]), 2);
      assert Strings(all[..i]) == Strings(all[..i - 1]) + [Str(all[i - 1])];
    }
  }

  /** Renders the arguments: the binary, `-launchd`, then the extra ones. */
  method RenderArgs(binary: string, extra: seq<string>) returns (entries: string)
    ensures entries == PrintItems(Strings([binary, LAUNCHD] + extra), 2)
  {
    ghost var all := [binary, LAUNCHD] + extra;
    entries := RenderLines(ArgLine, binary, LAUNCHD, extra);
    ArgLinesArePrinted(all, |all|);
    assert all[..|all|] == all;
  }

  method RenderLines(line: string -> string, first: string, second: string, extra: seq<string>)
    returns (entries: string)
    ensures entries == Lines(line, [first, second] + extra, |extra| + 2)
  {
    ghost var all := [first, second] + extra;
    entries := line(first);
    assert entries == "" + entries == Lines(line, all, 1);
    entries := entries + line(second);
    for i := 0 to |extra|
      invariant entries == Lines(line, all, i + 2)
    {
      entries := entries + line(extra[i]);
    }
  }

  /** Renders the socket dictionary. */
  method RenderSockets(socket: string) returns (text: string)
    ensures text == Print(Listeners(socket), 1)
  {
    var listener :=
      PrintEntry("SockFamily", PrintLeaf("string", "Unix"), 3) +
      (PrintEntry("SockPathName", PrintLeaf("string", socket), 3) +
       (PrintEntry("SockPathMode", PrintLeaf("integer", "384"), 3) + ""));
    ThreeEntries(Entry("SockFamily", Str("Unix")), Entry("SockPathName", Str(socket)),
                 Entry("SockPathMode", Num("384")), 3);
    OneEntry(Entry("Listeners", Listener(socket)), 2);
    text := "<dict>" + PrintEntry("Listeners", "<dict>" + listener + Line(2) + "</dict>", 2) + Line(1) + "</dict>";
  }

  /** Renders the plist for socket activation. */
  method RenderPlist(binary: string, socket: string, log: string, extra: seq<string>) returns (text: string)
    ensures text == PrintDocument(Wanted(binary, socket, log, extra))
  {
    var argEntries := RenderArgs(binary, extra);
    var sockets := RenderSockets(socket);
    RenderedIsWanted(binary, socket, log, extra);
    text := DocumentText(argEntries, sockets, PrintLeaf("string", log));
  }

  /** The document around the printed arguments, sockets and log path. */
  function DocumentText(args: string, sockets: string, log: string): string {
    PrintProlog() +
    ("<dict>" + FieldText("<array>" + args + Line(1) + "</array>", sockets, log) + Line(0) + "</dict>") +
    "\n</plist>\n"
  }

  lemma RenderedIsWanted(binary: string, socket: string, log: string, extra: seq<string>)
    ensures var args := PrintItems(Strings([binary, LAUNCHD] + extra), 2);
      DocumentText(args, Print(Listeners(socket), 1), PrintLeaf("string", log)) ==
      PrintDocument(Wanted(binary, socket, log, extra))
  {
    FieldsOfWanted(binary, socket, log, extra);
    PrintArray(Strings([binary, LAUNCHD] + extra));
  }

  lemma PrintArray(items: seq<Value>)
    ensures Print(Arr(items), 1) == "<array>" + PrintItems(items, 2) + Line(1) + "</array>"
  {
  }

  /** The six fields, around the printed arguments, sockets and log path. */
  function FieldText(args: string, sockets: string, log: string): string {
    PrintEntry("Label", PrintLeaf("string", LABEL), 1) +
    (PrintEntry("ProgramArguments", args, 1) +
     (PrintEntry("Sockets", sockets, 1) +
      (PrintEntry("ProcessType", PrintLeaf("string", "Background"), 1) +
       (PrintEntry("StandardErrorPath", log, 1) +
        (PrintEntry("StandardOutPath", log, 1) + "")))))
  }

  lemma FieldsOfWanted(binary: string, socket: string, log: string, extra: seq<string>)
    ensures var v, args := Wanted(binary, socket, log, extra), Arr(Strings([binary, LAUNCHD] + extra));
      PrintEntries(v.entries, 1) == FieldText(Print(args, 1), Print(Listeners(socket), 1), PrintLeaf("string", log))
  {
    SixEntries(Entry("Label", Str(LABEL)), Entry("ProgramArguments", Arr(Strings([binary, LAUNCHD] + extra))),
               Entry("Sockets", Listeners(socket)), Entry("ProcessType", Str("Background")),
               Entry("StandardErrorPath", Str(log)), Entry("StandardOutPath", Str(log)), 1);
  }

  // ---------------------------------------------------------------- reading

  datatype ParsedPlist = ParsedPlist(
    name: string,
    args: seq<string>,
    hasSockets: bool,
    socketPath: string,
    runAtLoad: bool,
    keepAlive: bool,
    stdout: string,
    stderr: string)

  function Lookup(entries: seq<Entry>, key: string): Option<Value> {
    if entries == [] then None
    else if entries[0].key == key then Some(entries[0].value)
    else Lookup(entries[1..], key)
  }

  function Field(v: Value, key: string): Option<Value> {
    if v.Dict? then Lookup(v.entries, key) else None
  }

  function TextOf(v: Option<Value>): string {
    if v.Some? && v.value.Str? then v.value.text else ""
  }

  /** The strings of an array; other elements are skipped. */
  function Texts(items: seq<Value>): seq<string> {
    if items == [] then []
    else (if items[0].Str? then [items[0].text] else []) + Texts(items[1..])
  }

  function Interpret(v: Value): ParsedPlist {
    var args, keep, sockets := Field(v, "ProgramArguments"), Field(v, "KeepAlive"), Field(v, "Sockets");
    var listener := if sockets.Some? then Field(sockets.value, "Listeners") else None;
    ParsedPlist(
      TextOf(Field(v, "Label")),
      if args.Some? && args.value.Arr? then Texts(args.value.items) else [],
      sockets.Some? && sockets.value.Dict?,
      if listener.Some? then TextOf(Field(listener.value, "SockPathName")) else "",
      Field(v, "RunAtLoad") == Some(Bool(true)),
      keep.Some? && (keep.value == Bool(true) || keep.value.Dict?),
      TextOf(Field(v, "StandardOutPath")),
      TextOf(Field(v, "StandardErrorPath")))
  }

  function ReadPlist(xml: string): Option<ParsedPlist> {
    var v := ReadDocument(xml);
    if v.Some? && v.value.Dict? then Some(Interpret(v.value)) else None
  }

  lemma {:induction false} TextsOfStrings(texts: seq<string>)
    ensures Texts(Strings(texts)) == texts
  {
    if texts != [] {
      TextsOfStrings(texts[1..]);
      assert Strings(texts)[1..] == Strings(texts[1..]);
      assert [texts[0]] + texts[1..] == texts;
    }
  }

  /** Of an array the strings are taken, in order, whatever else is among them. */
  lemma {:induction false} TextsExactly(a: seq<Value>, b: seq<Value>, text: string, v: Value)
    ensures Texts(a + b) == Texts(a) + Texts(b)
    ensures Texts([Str(text)]) == [text] && (!v.Str? ==> Texts([v]) == [])
  {
    assert [Str(text)][1..] == [] && [v][1..] == [];
    if a == [] {
      assert a + b == b;
    } else {
      TextsExactly(a[1..], b, text, v);
      assert (a + b)[1..] == a[1..] + b;
    }
  }

  /** What is read of a plist, key by key; a key of the wrong type is as good as none. */
  lemma InterpretExactly(v: Value)
    ensures var p, args, sockets := Interpret(v), Field(v, "ProgramArguments"), Field(v, "Sockets");
      && (p.name == "" || Field(v, "Label") == Some(Str(p.name)))
      && (forall s :: Field(v, "Label") == Some(Str(s)) ==> p.name == s)
      && (forall items :: args == Some(Arr(items)) ==> p.args == Texts(items))
      && (args.None? || !args.value.Arr? ==> p.args == [])
      && (p.hasSockets <==> sockets.Some? && sockets.value.Dict?)
      && (forall s :: Inside(v, ["Sockets", "Listeners", "SockPathName"]) == Some(Str(s)) ==> p.socketPath == s)
      && (forall s :: Field(v, "StandardOutPath") == Some(Str(s)) ==> p.stdout == s)
      && (forall s :: Field(v, "StandardErrorPath") == Some(Str(s)) ==> p.stderr == s)
      && (p.runAtLoad <==> Field(v, "RunAtLoad") == Some(Bool(true)))
      && (p.keepAlive <==>
            || Field(v, "KeepAlive") == Some(Bool(true))
            || (Field(v, "KeepAlive").Some? && Field(v, "KeepAlive").value.Dict?))
  {
    assert ["Sockets", "Listeners", "SockPathName"] == ["Sockets"] + (["Listeners"] + (["SockPathName"] + []));
    InsideOne(v, "Sockets", ["Listeners"] + (["SockPathName"] + []));
    if Field(v, "Sockets").Some? {
      InsideOne(Field(v, "Sockets").value, "Listeners", ["SockPathName"] + []);
      if Field(Field(v, "Sockets").value, "Listeners").Some? {
        InsideOne(Field(Field(v, "Sockets").value, "Listeners").value, "SockPathName", []);
      }
    }
  }

  lemma {:induction false} LookupAt(entries: seq<Entry>, i: nat)
    requires i < |entries| && forall j :: 0 <= j < i ==> entries[j].key != entries[i].key
    ensures Lookup(entries, entries[i].key) == Some(entries[i].value)
  {
    if i > 0 {
      LookupAt(entries[1..], i - 1);
    }
  }

  lemma {:induction false} LookupNone(entries: seq<Entry>, key: string)
    requires forall j :: 0 <= j < |entries| ==> entries[j].key != key
    ensures Lookup(entries, key) == None
  {
    if entries != [] {
      LookupNone(entries[1..], key);
    }
  }

  lemma InterpretListener(socket: string)
    ensures Field(Listeners(socket), "Listeners") == Some(Listener(socket))
    ensures Field(Listener(socket), "SockPathName") == Some(Str(socket))
  {
    LookupAt(Listeners(socket).entries, 0);
    LookupAt(Listener(socket).entries, 1);
  }

  lemma InterpretFields(binary: string, socket: string, log: string, extra: seq<string>)
    ensures var v := Wanted(binary, socket, log, extra);
      && Field(v, "Label") == Some(Str(LABEL))
      && Field(v, "ProgramArguments") == Some(Arr(Strings([binary, LAUNCHD] + extra)))
      && Field(v, "Sockets") == Some(Listeners(socket))
      && Field(v, "StandardErrorPath") == Some(Str(log))
      && Field(v, "StandardOutPath") == Some(Str(log))
      && Field(v, "RunAtLoad") == None && Field(v, "KeepAlive") == None
  {
    var entries := Wanted(binary, socket, log, extra).entries;
    LookupAt(entries, 0);
    LookupAt(entries, 1);
    LookupAt(entries, 2);
    LookupAt(entries, 4);
    LookupAt(entries, 5);
    LookupNone(entries, "RunAtLoad");
    LookupNone(entries, "KeepAlive");
  }

  /**
   Whatever legal text the paths and arguments hold, reading a rendered plist gives back the binary,
   `-launchd` and the extra arguments in order, the socket path and the log path.
   */
  lemma ReadRendered(binary: string, socket: string, log: string, extra: seq<string>)
    requires LegalText(binary) && LegalText(socket) && LegalText(log)
    requires forall i :: 0 <= i < |extra| ==> LegalText(extra[i])
    ensures ReadPlist(PrintDocument(Wanted(binary, socket, log, extra))) ==
            Some(ParsedPlist(LABEL, [binary, LAUNCHD] + extra, true, socket, false, false, log, log))
  {
    WantedIsLegal(binary, socket, log, extra);
    ReadPrinted(Wanted(binary, socket, log, extra));
    InterpretFields(binary, socket, log, extra);
    InterpretListener(socket);
    TextsOfStrings([binary, LAUNCHD] + extra);
  }

  lemma WantedIsLegal(binary: string, socket: string, log: string, extra: seq<string>)
    requires LegalText(binary) && LegalText(socket) && LegalText(log)
    requires forall i :: 0 <= i < |extra| ==> LegalText(extra[i])
    ensures LegalValue(Wanted(binary, socket, log, extra))
  {
    LegalArguments();
    LegalSockets();
    LegalPaths();
    assert forall i :: 0 <= i < |extra| + 2 ==> LegalValue(Strings([binary, LAUNCHD] + extra)[i]);
    assert LegalValue(Listener(socket));
    assert LegalValue(Listeners(socket));
  }

  lemma LegalArguments()
    ensures LegalText("Label") && LegalText(LABEL) && LegalText("ProgramArguments") && LegalText(LAUNCHD)
  {
  }

  lemma LegalSockets()
    ensures LegalText("Sockets") && LegalText("Listeners") && LegalText("SockPathName") && LegalText("SockPathMode")
    ensures LegalText("SockFamily") && LegalText("Unix") && LegalText("384")
  {
  }

  lemma LegalPaths()
    ensures LegalText("ProcessType") && LegalText("Background")
    ensures LegalText("StandardErrorPath") && LegalText("StandardOutPath")
  {
  }

  /** What is under the keys, one dictionary inside the other. */
  function Inside(v: Value, keys: seq<string>): Option<Value>
    decreases |keys|
  {
    if keys == [] then Some(v)
    else
      var next := Field(v, keys[0]);
      if next.None? then None else Inside(next.value, keys[1..])
  }

  lemma {:induction false} InsideOne(v: Value, key: string, more: seq<string>)
    ensures Inside(v, [key] + more) == if Field(v, key).None? then None else Inside(Field(v, key).value, more)
  {
    assert ([key] + more)[1..] == more;
  }

  lemma ListenerSays(socket: string)
    ensures var v := Listener(socket);
      && Field(v, "SockFamily") == Some(Str("Unix"))
      && Field(v, "SockPathName") == Some(Str(socket))
      && Field(v, "SockPathMode") == Some(Num("384"))
  {
    LookupAt(Listener(socket).entries, 0);
    LookupAt(Listener(socket).entries, 1);
    LookupAt(Listener(socket).entries, 2);
  }

  lemma SocketsSay(v: Value, socket: string, key: string)
    requires Field(v, "Sockets") == Some(Listeners(socket))
    ensures Inside(v, ["Sockets", "Listeners", key]) == Field(Listener(socket), key)
  {
    InterpretListener(socket);
    assert ["Sockets", "Listeners", key] == ["Sockets"] + (["Listeners"] + ([key] + []));
    InsideOne(v, "Sockets", ["Listeners"] + ([key] + []));
    InsideOne(Listeners(socket), "Listeners", [key] + []);
    InsideOne(Listener(socket), key, []);
  }

  /**
   What a rendered plist says to whoever reads it: the label, the arguments, one socket for Unix clients that only
   its owner may use (384 is 0600 in octal), a background process, and one log; nothing that starts or keeps the
   agent running.
   */
  lemma RenderedSays(binary: string, socket: string, log: string, extra: seq<string>)
    requires LegalText(binary) && LegalText(socket) && LegalText(log)
    requires forall i :: 0 <= i < |extra| ==> LegalText(extra[i])
    ensures ReadDocument(PrintDocument(Wanted(binary, socket, log, extra))) == Some(Wanted(binary, socket, log, extra))
    ensures var v := Wanted(binary, socket, log, extra);
      && Field(v, "Label") == Some(Str("touchid-agent"))
      && Field(v, "ProgramArguments") == Some(Arr(Strings([binary, "-launchd"] + extra)))
      && Inside(v, ["Sockets", "Listeners", "SockFamily"]) == Some(Str("Unix"))
      && Inside(v, ["Sockets", "Listeners", "SockPathName"]) == Some(Str(socket))
      && Inside(v, ["Sockets", "Listeners", "SockPathMode"]) == Some(Num("384"))
      && Field(v, "ProcessType") == Some(Str("Background"))
      && Field(v, "StandardErrorPath") == Some(Str(log)) && Field(v, "StandardOutPath") == Some(Str(log))
      && Field(v, "RunAtLoad") == None && Field(v, "KeepAlive") == None
  {
    WantedIsLegal(binary, socket, log, extra);
    ReadPrinted(Wanted(binary, socket, log, extra));
    InterpretFields(binary, socket, log, extra);
    LookupAt(Wanted(binary, socket, log, extra).entries, 3);
    ListenerSays(socket);
    SocketsSay(Wanted(binary, socket, log, extra), socket, "SockFamily");
    SocketsSay(Wanted(binary, socket, log, extra), socket, "SockPathName");
    SocketsSay(Wanted(binary, socket, log, extra), socket, "SockPathMode");
  }

  // ---------------------------------------------------------------- classifying

  datatype Mode = Unknown | OldStyle | SocketActivated | Missing

  function ModeOf(existing: Option<ParsedPlist>): Mode {
    if existing.None? then Missing
    else
      var p := existing.value;
      if LAUNCHD in p.args && p.hasSockets then SocketActivated
      else if "-l" in p.args then OldStyle
      else Unknown
  }

  /** The mode of a plist, from what its arguments hold. */
  method Classify(existing: Option<ParsedPlist>) returns (mode: Mode)
    ensures mode == ModeOf(existing)
  {
    if existing.None? {
      return Missing;
    }
    var p := existing.value;
    var hasL, hasLaunchd := false, false;
    for i := 0 to |p.args|
      invariant hasL == ("-l" in p.args[..i]) && hasLaunchd == (LAUNCHD in p.args[..i])
    {
      if p.args[i] == "-l" {
        hasL := true;
      } else if p.args[i] == LAUNCHD {
        hasLaunchd := true;
      }
      assert p.args[..i + 1] == p.args[..i] + [p.args[i]];
    }
    assert p.args[..|p.args|] == p.args;
    if hasLaunchd && p.hasSockets {
      return SocketActivated;
    } else if hasL && (p.runAtLoad || p.keepAlive) {
      return OldStyle;
    } else if hasL {
      return OldStyle;
    }
    return Unknown;
  }

  datatype EnsureAction = Install | AlreadyOk | LeaveOldStyle | LeaveUnknown

  function DecideEnsureAction(existing: Option<ParsedPlist>): EnsureAction {
    match ModeOf(existing)
    case Missing => Install
    case SocketActivated => AlreadyOk
    case OldStyle => LeaveOldStyle
    case Unknown => LeaveUnknown
  }

  /** The login-time check, by what the plist holds: a missing one is installed, any other is left as it is. */
  lemma ActionsExactly(existing: Option<ParsedPlist>)
    ensures var action := DecideEnsureAction(existing);
      var activated := existing.Some? && "-launchd" in existing.value.args && existing.value.hasSockets;
      && (action == Install <==> existing == None)
      && (action == AlreadyOk <==> activated)
      && (action == LeaveOldStyle <==> existing.Some? && !activated && "-l" in existing.value.args)
  {
  }

  /** Every rendered plist is socket-activated, and the login-time check leaves it alone. */
  lemma RenderedIsActivated(binary: string, socket: string, log: string, extra: seq<string>)
    requires LegalText(binary) && LegalText(socket) && LegalText(log)
    requires forall i :: 0 <= i < |extra| ==> LegalText(extra[i])
    ensures var existing := ReadPlist(PrintDocument(Wanted(binary, socket, log, extra)));
      ModeOf(existing) == SocketActivated && DecideEnsureAction(existing) == AlreadyOk
  {
    ReadRendered(binary, socket, log, extra);
    assert ([binary, LAUNCHD] + extra)[1] == LAUNCHD;
  }

  // ---------------------------------------------------------------- migrating

  datatype Migration = NoPlist | ForeignLabel | NothingToDo | NotOurs | Rewritten(text: string)

  /** What the migration falls back on when the old plist does not say. */
  datatype Defaults = Defaults(binary: string, socket: string, log: string)

  function BinaryPath(p: ParsedPlist, d: Defaults): string {
    if |p.args| > 0 && p.args[0] != "" then p.args[0] else d.binary
  }

  function SocketPath(p: ParsedPlist, d: Defaults): string {
    var given := SocketFromOldArgs(p.args);
    if given != "" then given else d.socket
  }

  function LogPath(p: ParsedPlist, d: Defaults): string {
    if p.stderr != "" then p.stderr else if p.stdout != "" then p.stdout else d.log
  }

  /** What the migration writes, given what is there. */
  function Migrate(existing: Option<ParsedPlist>, d: Defaults): Migration {
    if existing.None? then NoPlist
    else
      var p := existing.value;
      if p.name != "" && p.name != LABEL then ForeignLabel
      else
        match ModeOf(existing)
        case SocketActivated => NothingToDo
        case Unknown => NotOurs
        case _ => Rewritten(PrintDocument(Wanted(BinaryPath(p, d), SocketPath(p, d), LogPath(p, d), RunFlags(p.args))))
  }

  /** What a migration does, by what the plist holds. */
  lemma MigratesExactly(existing: Option<ParsedPlist>, d: Defaults)
    ensures var m := Migrate(existing, d);
      if existing == None then m == NoPlist
      else
        var p := existing.value;
        if p.name !in ["", "touchid-agent"] then m == ForeignLabel
        else if "-launchd" in p.args && p.hasSockets then m == NothingToDo
        else m.Rewritten? == ("-l" in p.args) && m.NotOurs? == ("-l" !in p.args)
  {
  }

  predicate LegalPlist(p: ParsedPlist) {
    LegalText(p.stdout) && LegalText(p.stderr) && forall i :: 0 <= i < |p.args| ==> LegalText(p.args[i])
  }

  predicate LegalDefaults(d: Defaults) {
    LegalText(d.binary) && LegalText(d.socket) && LegalText(d.log)
  }

  lemma {:induction false} KeptAreArgs(rest: seq<string>)
    ensures forall f :: f in Kept(rest) ==> f in rest
    decreases |rest|
  {
    if rest != [] {
      KeptAreArgs(rest[1..]);
      if |rest| > 1 {
        KeptAreArgs(rest[2..]);
      }
    }
  }

  lemma {:induction false} SocketIsArg(args: seq<string>)
    ensures SocketFromOldArgs(args) == "" || SocketFromOldArgs(args) in args
  {
    if |args| >= 2 && args[0] != "-l" {
      SocketIsArg(args[1..]);
    }
  }

  lemma PartsAreLegal(p: ParsedPlist, d: Defaults)
    requires LegalPlist(p) && LegalDefaults(d)
    ensures LegalText(BinaryPath(p, d)) && LegalText(SocketPath(p, d)) && LegalText(LogPath(p, d))
    ensures forall i :: 0 <= i < |RunFlags(p.args)| ==> LegalText(RunFlags(p.args)[i])
  {
    SocketIsArg(p.args);
    if p.args != [] {
      KeptAreArgs(p.args[1..]);
      forall f | f in RunFlags(p.args) ensures LegalText(f) {
        assert f in p.args[1..];
      }
    }
  }

  /** What a migration takes over besides the flags: the first of the given that is not empty. */
  lemma TakenOver(p: ParsedPlist, d: Defaults)
    requires LegalPlist(p) && LegalDefaults(d)
    requires Migrate(Some(p), d).Rewritten?
    ensures var after := ReadPlist(Migrate(Some(p), d).text);
      && after.Some? && after.value.name == "touchid-agent"
      && |after.value.args| >= 2 && after.value.args[1] == "-launchd"
      && after.value.args[0] == (if p.args[0] != "" then p.args[0] else d.binary)
      && after.value.stderr == after.value.stdout ==
         (if p.stderr != "" then p.stderr else if p.stdout != "" then p.stdout else d.log)
      && !after.value.runAtLoad && !after.value.keepAlive
  {
    PartsAreLegal(p, d);
    ReadRendered(BinaryPath(p, d), SocketPath(p, d), LogPath(p, d), RunFlags(p.args));
  }

  /**
   Reading the file a migration wrote shows the migrated arguments; it is socket-activated, so migrating
   again does nothing and the login-time check leaves it alone; and when the old arguments parsed, the new
   ones parse to the same preserved flags with `-launchd` and without `-l`.
   */
  lemma MigrationEndToEnd(p: ParsedPlist, d: Defaults)
    requires LegalPlist(p) && LegalDefaults(d)
    requires Migrate(Some(p), d).Rewritten?
    ensures var after := ReadPlist(Migrate(Some(p), d).text);
      && after.Some?
      && after.value.args == Migrated(BinaryPath(p, d), p.args)
      && after.value.socketPath == SocketPath(p, d)
      && ModeOf(after) == SocketActivated && DecideEnsureAction(after) == AlreadyOk
      && Migrate(after, d) == NothingToDo
      && (Meaning(p.args).Some? ==>
            Meaning(after.value.args) == Some(Restricted(Meaning(p.args).value)[LAUNCHD := "true"]))
  {
    PartsAreLegal(p, d);
    ReadRendered(BinaryPath(p, d), SocketPath(p, d), LogPath(p, d), RunFlags(p.args));
    var args := Migrated(BinaryPath(p, d), p.args);
    assert args[1] == LAUNCHD;
    if Meaning(p.args).Some? {
      MigrationPreservesMeaning(BinaryPath(p, d), p.args);
    }
  }

  /**
   Where the old vector parsed with a socket, the socket in the file a migration wrote is the one the agent
   listened on exactly when the first `-l` is a flag of the agent and agrees with the last; when nothing
   follows the first `-l`, exactly when the default is that socket. (A socket named like a flag aside.)
   */
  lemma MigrationKeepsSocket(p: ParsedPlist, d: Defaults)
    requires LegalPlist(p) && LegalDefaults(d)
    requires Migrate(Some(p), d).Rewritten?
    requires Meaning(p.args).Some? && "-l" in Meaning(p.args).value
    ensures var after, used, all :=
        ReadPlist(Migrate(Some(p), d).text), Meaning(p.args).value["-l"], Sockets(p.args[1..]);
      && after.Some? && all != []
      && (used !in TAKES_VALUE + SWITCHES ==>
            (after.value.socketPath == used <==>
              if SocketFromOldArgs(p.args) == "" then d.socket == used
              else SocketFlagFirst(p.args) && all[0] == all[|all| - 1]))
  {
    MigrationEndToEnd(p, d);
    SocketAgreement(p.args);
  }
}
