/**
 The key store on disk: one keyfile a key in one directory. It refines a map from labels to keys, together
 with the labels whose file names are taken, whether or not what is there can be loaded.
 */
module KeyStore {
  import opened Bytes
  import opened Wrappers
  import opened CallerRules
  import opened KeyFiles
  import Names
  import Points = PointCodec
  import Signing = SigningProtocol

  /** What a name in the directory stands for. */
  datatype Entry = File(data: string) | Folder(empty: bool)

  /** The directory, or None when there is none. */
  type Disk = Option<map<string, Entry>>

  // ---------------------------------------------------------------- labels

  function Utf8Size(s: string): nat {
    if s == "" then 0
    else
      var n := s[0] as int;
      (if n < 0x80 then 1 else if n < 0x800 then 2 else if n < 0x1_0000 then 3 else 4) + Utf8Size(s[1..])
  }

  predicate ValidLabel(name: string) {
    name != "" && ':' !in name && '/' !in name && '\\' !in name && Utf8Size(name) <= 64
  }

  lemma {:induction false} Utf8SizeAppend(s: string, t: string)
    ensures Utf8Size(s + t) == Utf8Size(s) + Utf8Size(t)
  {
    if s == "" {
      assert s + t == t;
    } else {
      assert (s + t)[1..] == s[1..] + t;
      Utf8SizeAppend(s[1..], t);
    }
  }

  /** A character takes from one byte to four (section 3 of RFC 3629). */
  lemma Utf8SizeOne(c: char)
    ensures Utf8Size([c]) == if c <= '\U{7F}' then 1 else if c <= '\U{7FF}' then 2 else if c <= '\U{FFFF}' then 3 else 4
  {
    assert [c][1..] == "";
  }

  /**
   A label is valid exactly when it is not empty and its file name is one that names a file in the directory
   itself, with no separator of paths or lists in it and no more than 69 bytes.
   */
  lemma LabelsNameFiles(name: string)
    ensures ValidLabel(name) <==>
            && FileOf(name) != ".json"
            && (forall i :: 0 <= i < |FileOf(name)| ==> FileOf(name)[i] !in "/\\:")
            && Utf8Size(FileOf(name)) <= 69
  {
    var file := FileOf(name);
    Utf8SizeAppend(name, ".json");
    SizeOfEnding();
    assert forall i :: 0 <= i < |name| ==> file[i] == name[i];
    assert forall i :: |name| <= i < |file| ==> file[i] == ".json"[i - |name|];
    assert name == "" <==> file == ".json" by {
      assert |file| == |name| + 5;
    }
  }

  lemma SizeOfEnding()
    ensures Utf8Size(".json") == 5
    ensures forall i :: 0 <= i < 5 ==> ".json"[i] !in "/\\:"
  {
    assert ".json" == "." + ("j" + ("s" + ("o" + "n")));
    Utf8SizeAppend(".", "j" + ("s" + ("o" + "n")));
    Utf8SizeAppend("j", "s" + ("o" + "n"));
    Utf8SizeAppend("s", "o" + "n");
    Utf8SizeAppend("o", "n");
    Utf8SizeOne('.');
    Utf8SizeOne('j');
    Utf8SizeOne('s');
    Utf8SizeOne('o');
    Utf8SizeOne('n');
  }

  // ---------------------------------------------------------------- the map behind the directory

  function Files(disk: Disk): map<string, Entry> {
    if disk.Some? then disk.value else map[]
  }

  function Taken(files: map<string, Entry>): set<string> {
    set file | file in files.Keys && IsJson(file) :: LabelOf(file)
  }

  lemma TakenIsHere(files: map<string, Entry>, name: string)
    ensures name in Taken(files) <==> FileOf(name) in files
  {
    FileNames(name, "");
    if FileOf(name) in files {
      assert LabelOf(FileOf(name)) in Taken(files);
    }
    if name in Taken(files) {
      var file :| file in files.Keys && IsJson(file) && LabelOf(file) == name;
      FileNames("", file);
    }
  }

  /** What the entry under `file` loads as; folders are passed over. */
  function LoadEntry(c: Codec, file: string, e: Entry): Loaded {
    if e.File? then Load(c, file, e.data) else BadJson
  }

  predicate Loads(c: Codec, files: map<string, Entry>, name: string) {
    FileOf(name) in files && LoadEntry(c, FileOf(name), files[FileOf(name)]).Ok?
  }

  function Keys(c: Codec, files: map<string, Entry>): map<string, Key> {
    map name | name in Taken(files) && Loads(c, files, name) :: LoadEntry(c, FileOf(name), files[FileOf(name)]).key
  }

  lemma KeysAt(c: Codec, files: map<string, Entry>, name: string)
    ensures name in Keys(c, files) <==> Loads(c, files, name)
    ensures name in Keys(c, files) ==> Keys(c, files)[name] == LoadEntry(c, FileOf(name), files[FileOf(name)]).key
    ensures name in Keys(c, files) ==> Keys(c, files)[name].name == name
  {
    TakenIsHere(files, name);
    FileNames(name, "");
  }

  /** Folders with something in them, which cannot be removed like a file. */
  function Stuck(files: map<string, Entry>): set<string> {
    set name | name in Taken(files) && FileOf(name) in files && files[FileOf(name)] == Folder(false)
  }

  /** The store as its callers know it. */
  datatype Catalog = Catalog(present: bool, keys: map<string, Key>, taken: set<string>, stuck: set<string>)

  function View(c: Codec, disk: Disk): Catalog {
    Catalog(disk.Some?, Keys(c, Files(disk)), Taken(Files(disk)), Stuck(Files(disk)))
  }

  // ---------------------------------------------------------------- operations on the directory

  /** A new key as the Secure Enclave makes it. */
  datatype Made = Made(keyData: seq<byte>, publicKey: Points.Point)

  /**
   `made` is None when the Secure Enclave makes no key; `written` says whether the file could be created and
   filled (a file that cannot be filled is removed again).
   */
  datatype Op =
    | Create(name: string, touch: bool, rules: seq<CallerRule>, made: Option<Made>, createdAt: string, written: bool)
    | Remove(name: string)
    | RemoveAll

  function NewKey(op: Op): Key
    requires op.Create? && op.made.Some?
  {
    Key(op.name, op.touch, op.rules, op.made.value.publicKey, op.made.value.keyData)
  }

  predicate Succeeds(files: map<string, Entry>, op: Op)
    requires op.Create?
  {
    ValidLabel(op.name) && FileOf(op.name) !in files && op.made.Some? && op.written
  }

  predicate Removable(e: Entry) {
    e != Folder(false)
  }

  function After(c: Codec, disk: Disk, op: Op): Disk {
    if disk.None? then None
    else
      var files := disk.value;
      match op
      case Create(name, _, _, _, createdAt, _) =>
        if Succeeds(files, op)
        then Some(files[FileOf(name) := File(c.encode(RecordOf(c, NewKey(op), createdAt)))])
        else disk
      case Remove(name) =>
        if ValidLabel(name) && FileOf(name) in files && Removable(files[FileOf(name)])
        then Some(files - {FileOf(name)})
        else disk
      case RemoveAll => Some(map file | file in files && !(IsJson(file) && Removable(files[file])) :: files[file])
  }

  /** The same operations on the catalog, which knows nothing of files. */
  function Next(cat: Catalog, op: Op): Catalog {
    if !cat.present then cat
    else
      match op
      case Create(name, _, _, made, _, written) =>
        if ValidLabel(name) && name !in cat.taken && made.Some? && written then
          var key := Reloaded(NewKey(op));
          cat.(taken := cat.taken + {name}, keys := if key.Ok? then cat.keys[name := key.key] else cat.keys)
        else cat
      case Remove(name) =>
        if ValidLabel(name) && name !in cat.stuck
        then cat.(taken := cat.taken - {name}, keys := cat.keys - {name})
        else cat
      case RemoveAll => cat.(keys := map[], taken := cat.stuck)
  }

  predicate HonestOp(c: Codec, op: Op) {
    op.Create? && op.made.Some? ==> Honest(c, NewKey(op))
  }

  /** Each name outside the two sets keeps what is under it. */
  lemma Untouched(c: Codec, files: map<string, Entry>, files': map<string, Entry>, name: string)
    requires FileOf(name) in files <==> FileOf(name) in files'
    requires FileOf(name) in files ==> files[FileOf(name)] == files'[FileOf(name)]
    ensures name in Taken(files) <==> name in Taken(files')
    ensures name in Stuck(files) <==> name in Stuck(files')
    ensures name in Keys(c, files) <==> name in Keys(c, files')
    ensures name in Keys(c, files) ==> Keys(c, files)[name] == Keys(c, files')[name]
  {
    TakenIsHere(files, name);
    TakenIsHere(files', name);
    KeysAt(c, files, name);
    KeysAt(c, files', name);
  }

  lemma FileOfIsInjective(a: string, b: string)
    ensures FileOf(a) == FileOf(b) ==> a == b
  {
    FileNames(a, "");
    FileNames(b, "");
  }

  // ---------------------------------------------------------------- the operations refine the map

  /** Catalogs are equal when they agree on every label. */
  lemma SameCatalog(c: Codec, files: map<string, Entry>, cat: Catalog)
    requires cat.present
    requires forall name :: name in Taken(files) <==> name in cat.taken
    requires forall name :: name in Stuck(files) <==> name in cat.stuck
    requires forall name :: name in Keys(c, files) <==> name in cat.keys
    requires forall name :: name in cat.keys ==> Keys(c, files)[name] == cat.keys[name]
    ensures View(c, Some(files)) == cat
  {
    assert Taken(files) == cat.taken;
    assert Stuck(files) == cat.stuck;
    assert Keys(c, files) == cat.keys;
  }

  lemma CreateRefines(c: Codec, files: map<string, Entry>, op: Op)
    requires c.Sound() && op.Create? && HonestOp(c, op)
    ensures View(c, After(c, Some(files), op)) == Next(View(c, Some(files)), op)
  {
    TakenIsHere(files, op.name);
    if Succeeds(files, op) {
      var key, added := NewKey(op), FileOf(op.name);
      var data := c.encode(RecordOf(c, key, op.createdAt));
      var files' := files[added := File(data)];
      var cat := Next(View(c, Some(files)), op);
      LoadWritten(c, key, op.createdAt);
      assert LoadEntry(c, added, files'[added]) == Reloaded(key);
      KeysAt(c, files', op.name);
      KeysAt(c, files, op.name);
      TakenIsHere(files', op.name);
      forall name | name != op.name
        ensures name in Taken(files) <==> name in Taken(files')
        ensures name in Stuck(files) <==> name in Stuck(files')
        ensures name in Keys(c, files) <==> name in Keys(c, files')
        ensures name in Keys(c, files) ==> Keys(c, files)[name] == Keys(c, files')[name]
      {
        FileOfIsInjective(name, op.name);
        Untouched(c, files, files', name);
      }
      SameCatalog(c, files', cat);
    }
  }

  lemma RemoveRefines(c: Codec, files: map<string, Entry>, name: string)
    ensures View(c, After(c, Some(files), Remove(name))) == Next(View(c, Some(files)), Remove(name))
  {
    TakenIsHere(files, name);
    KeysAt(c, files, name);
    var cat := Next(View(c, Some(files)), Remove(name));
    if ValidLabel(name) && FileOf(name) in files && Removable(files[FileOf(name)]) {
      var files' := files - {FileOf(name)};
      TakenIsHere(files', name);
      KeysAt(c, files', name);
      forall other | other != name
        ensures other in Taken(files) <==> other in Taken(files')
        ensures other in Stuck(files) <==> other in Stuck(files')
        ensures other in Keys(c, files) <==> other in Keys(c, files')
        ensures other in Keys(c, files) ==> Keys(c, files)[other] == Keys(c, files')[other]
      {
        FileOfIsInjective(other, name);
        Untouched(c, files, files', other);
      }
      SameCatalog(c, files', cat);
    } else {
      SameCatalog(c, files, cat);
    }
  }

  lemma RemoveAllRefines(c: Codec, files: map<string, Entry>)
    ensures View(c, After(c, Some(files), RemoveAll)) == Next(View(c, Some(files)), RemoveAll)
  {
    var files' := After(c, Some(files), RemoveAll).value;
    forall name
      ensures name in Taken(files') <==> name in Stuck(files)
      ensures name in Stuck(files') <==> name in Stuck(files)
      ensures name !in Keys(c, files')
    {
      FileNames(name, "");
      TakenIsHere(files, name);
      TakenIsHere(files', name);
      KeysAt(c, files', name);
    }
    SameCatalog(c, files', Next(View(c, Some(files)), RemoveAll));
  }

  function Run(c: Codec, disk: Disk, ops: seq<Op>): Disk {
    if ops == [] then disk else After(c, Run(c, disk, ops[..|ops| - 1]), ops[|ops| - 1])
  }

  function Replay(cat: Catalog, ops: seq<Op>): Catalog {
    if ops == [] then cat else Next(Replay(cat, ops[..|ops| - 1]), ops[|ops| - 1])
  }

  /** From any directory, every run of operations does to the catalog what the catalog's own operations do. */
  lemma {:induction false} RunRefines(c: Codec, disk: Disk, ops: seq<Op>)
    requires c.Sound() && forall i :: 0 <= i < |ops| ==> HonestOp(c, ops[i])
    ensures View(c, Run(c, disk, ops)) == Replay(View(c, disk), ops)
  {
    if ops != [] {
      var before, op := Run(c, disk, ops[..|ops| - 1]), ops[|ops| - 1];
      RunRefines(c, disk, ops[..|ops| - 1]);
      if before.Some? {
        match op
        case Create(_, _, _, _, _, _) => CreateRefines(c, before.value, op);
        case Remove(name) => RemoveRefines(c, before.value, name);
        case RemoveAll => RemoveAllRefines(c, before.value);
      }
    }
  }

  /** Deleting undoes creating: the directory is what it was. */
  lemma RemoveUndoesCreate(c: Codec, files: map<string, Entry>, op: Op)
    requires op.Create? && Succeeds(files, op)
    ensures After(c, Some(files), op) != Some(files)
    ensures After(c, After(c, Some(files), op), Remove(op.name)) == Some(files)
  {
    var files' := After(c, Some(files), op).value;
    assert FileOf(op.name) in files';
    assert files' - {FileOf(op.name)} == files;
  }

  /** Deleting everything leaves what is no keyfile by its name, and folders with something in them, as they were. */
  lemma RemoveAllExactly(c: Codec, files: map<string, Entry>, file: string)
    ensures var left := After(c, Some(files), RemoveAll);
      && left.Some?
      && (file in left.value <==>
            file in files && (|file| < 5 || file[|file| - 5..] != ".json" || files[file] == Folder(false)))
      && (file in left.value ==> left.value[file] == files[file])
  {
  }

  /**
   A key created on the command line is in the store with exactly the rules that were asked for: what the
   command line accepts survives the keyfile.
   */
  lemma CommandLineRulesReload(c: Codec, files: map<string, Entry>, op: Op, spec: string)
    requires c.Sound() && op.Create? && HonestOp(c, op) && Succeeds(files, op)
    requires KeyCallers(spec) == Parsed.Ok(op.rules)
    ensures Next(View(c, Some(files)), op).keys == View(c, Some(files)).keys[op.name := NewKey(op)]
    ensures View(c, After(c, Some(files), op)).keys == View(c, Some(files)).keys[op.name := NewKey(op)]
  {
    KeyCallersRoundTrip(spec);
    RulesReload(op.rules);
    TakenIsHere(files, op.name);
    CreateRefines(c, files, op);
  }

  // ---------------------------------------------------------------- listing

  function NameOf(key: Key): string {
    key.name
  }

  /** Every key of the map once, in strictly increasing order of labels. */
  predicate IsListing(keys: seq<Key>, m: map<string, Key>) {
    && Names.Ascending(keys, NameOf)
    && (forall key :: key in keys ==> key.name in m && m[key.name] == key)
    && (forall name :: name in m ==> m[name] in keys)
  }

  /** A map has one listing. */
  lemma ListingIsUnique(a: seq<Key>, b: seq<Key>, m: map<string, Key>)
    requires IsListing(a, m) && IsListing(b, m)
    ensures a == b
  {
    forall key ensures key in a <==> key in b {
      assert key in a ==> key == m[key.name];
      assert key in b ==> key == m[key.name];
    }
    Names.AscendingIsUnique(a, b, NameOf);
  }

  /** A key is listed exactly when the file named after it is there, is no folder, and loads as that key. */
  lemma ListedExactly(c: Codec, files: map<string, Entry>, keys: seq<Key>, key: Key)
    requires IsListing(keys, Keys(c, files))
    ensures key in keys <==>
            var file := key.name + ".json";
            file in files && files[file].File? && Load(c, file, files[file].data) == Loaded.Ok(key)
  {
    KeysAt(c, files, key.name);
  }

  /** The listed keys as the agent's requests see them, given the wire form of public keys. */
  function Stored(keys: seq<Key>, wire: Points.Point -> Option<string>): seq<Signing.Key> {
    seq(|keys|, i requires 0 <= i < |keys| =>
      Signing.Key(keys[i].name, wire(keys[i].publicKey), keys[i].requireTouch, keys[i].callerRules))
  }

  /** The agent's locks and rate buckets go by label: no two listed keys share one. */
  lemma ListedNamesDiffer(keys: seq<Key>, m: map<string, Key>, wire: Points.Point -> Option<string>)
    requires IsListing(keys, m)
    ensures Signing.DistinctNames(Stored(keys, wire))
  {
    Names.AscendingIsDistinct(keys, NameOf);
  }

  /** A request is served with the first listed key whose public key has the wanted wire form, on that key's terms. */
  lemma MatchedIsListed(keys: seq<Key>, wire: Points.Point -> Option<string>, wanted: string)
    ensures var matched := Signing.Match(Stored(keys, wire), wanted);
      && (matched == None <==> forall i :: 0 <= i < |keys| ==> wire(keys[i].publicKey) != Some(wanted))
      && (matched.Some? ==>
            exists i :: 0 <= i < |keys| && IsMatch(keys[i], wire, wanted, matched.value) &&
              forall j :: 0 <= j < i ==> wire(keys[j].publicKey) != Some(wanted))
  {
    var stored := Stored(keys, wire);
    var matched := Signing.Match(stored, wanted);
    assert forall i :: 0 <= i < |keys| ==> stored[i] in stored && stored[i].blob == wire(keys[i].publicKey);
    if matched.Some? {
      var i :| 0 <= i < |stored| && stored[i] == matched.value && stored[i].blob == Some(wanted) &&
        forall j :: 0 <= j < i ==> stored[j].blob != Some(wanted);
      assert IsMatch(keys[i], wire, wanted, matched.value);
      assert wire(keys[i].publicKey) == Some(wanted);
    }
  }

  /** The matched key is this one: its label, its public key, its need for touch and its rules. */
  predicate IsMatch(key: Key, wire: Points.Point -> Option<string>, wanted: string, matched: Signing.Key) {
    && wire(key.publicKey) == Some(wanted) && matched.name == key.name
    && matched.touch == key.requireTouch && matched.rules == key.callerRules
  }

  // ---------------------------------------------------------------- the store

  datatype Generated = Generated(key: Key) | BadLabel | Exists | NotMade | NotWritten

  datatype Deleted = Deleted | InvalidLabel | NotRemoved

  class FilesystemKeyStore {
    const codec: Codec
    var disk: Disk

    constructor (codec: Codec, disk: Disk)
      ensures this.codec == codec && this.disk == disk
    {
      this.codec, this.disk := codec, disk;
    }

    method Generate(name: string, touch: bool, rules: seq<CallerRule>, made: Option<Made>, createdAt: string,
                    written: bool)
      returns (r: Generated)
      requires codec.Sound() && (made.Some? ==> Points.OnCurve(codec.curve, made.value.publicKey))
      modifies `disk
      ensures disk == After(codec, old(disk), Create(name, touch, rules, made, createdAt, written))
      ensures r.Generated? <==>
              old(disk).Some? && Succeeds(old(disk).value, Create(name, touch, rules, made, createdAt, written))
      ensures r.Generated? ==> r.key == Key(name, touch, rules, made.value.publicKey, made.value.keyData)
      ensures r.BadLabel? <==> !ValidLabel(name)
      ensures r.Exists? <==> ValidLabel(name) && FileOf(name) in Files(old(disk))
      ensures r.Generated? ==> old(disk).Some? && name + ".json" !in old(disk).value
      ensures r.Generated? ==>
                var rec := Keyfile(1, name, touch, createdAt, codec.encode64(made.value.keyData),
                                   codec.encode64(Points.Marshalled(made.value.publicKey)), PrintAll(rules));
                disk == Some(old(disk).value[name + ".json" := File(codec.encode(rec))])
      ensures !r.Generated? ==> disk == old(disk)
      ensures r.NotMade? <==> ValidLabel(name) && FileOf(name) !in Files(old(disk)) && made.None?
    {
      if !ValidLabel(name) {
        return BadLabel;
      }
      var path := FileOf(name);
      if path in Files(disk) {
        return Exists;
      }
      if made.None? {
        return NotMade;
      }
      var key := Key(name, touch, rules, made.value.publicKey, made.value.keyData);
      var rec := BuildRecord(codec, key, createdAt);
      if disk.None? || !written {
        return NotWritten;
      }
      disk := Some(disk.value[path := File(codec.encode(rec))]);
      return Generated(key);
    }

    method Delete(name: string) returns (r: Deleted)
      modifies `disk
      ensures disk == After(codec, old(disk), Remove(name))
      ensures r.InvalidLabel? <==> !ValidLabel(name)
      ensures r.NotRemoved? <==> ValidLabel(name) && name in Stuck(Files(old(disk)))
      ensures r.Deleted? && disk.Some? ==> disk == Some(old(disk).value - {name + ".json"})
      ensures !r.Deleted? || disk.None? ==> disk == old(disk)
    {
      if !ValidLabel(name) {
        return InvalidLabel;
      }
      var path := FileOf(name);
      TakenIsHere(Files(disk), name);
      if path !in Files(disk) {
        assert disk.Some? ==> disk.value - {path} == disk.value;
        return Deleted;
      }
      if !Removable(disk.value[path]) {
        return NotRemoved;
      }
      disk := Some(disk.value - {path});
      return Deleted;
    }

    /** The names in the directory, in order. */
    method ReadDir() returns (names: seq<string>)
      ensures Names.Ascending(names, Names.Self)
      ensures forall file :: file in names <==> file in Files(disk)
    {
      var rest, found: seq<string> := Files(disk).Keys, [];
      while rest != {}
        invariant rest <= Files(disk).Keys
        invariant forall file :: file in Files(disk) <==> file in rest || file in found
        invariant forall file :: file in found ==> file !in rest
        invariant Names.Distinct(found, Names.Self)
        decreases |rest|
      {
        var file :| file in rest;
        rest, found := rest - {file}, found + [file];
      }
      names := Names.Sort(found, Names.Self);
    }

    /** Removes every keyfile; one that cannot be removed does not keep the others. */
    method DeleteAll() returns (failed: bool)
      modifies `disk
      ensures disk == After(codec, old(disk), RemoveAll)
      ensures failed <==> Stuck(Files(old(disk))) != {}
    {
      failed := false;
      if disk.None? {
        return;
      }
      var names := ReadDir();
      ghost var files := disk.value;
      Names.AscendingIsDistinct(names, Names.Self);
      assert Unremoved(files, names, 0) == files;
      for i := 0 to |names|
        invariant disk == Some(Unremoved(files, names, i))
        invariant failed <==> exists j :: 0 <= j < i && Blocked(files, names[j])
      {
        var file := names[i];
        assert file in names;
        UnremovedStep(files, names, i);
        if IsJson(file) {
          if Removable(disk.value[file]) {
            disk := Some(disk.value - {file});
          } else {
            failed := true;
          }
        }
      }
      AllUnremoved(codec, files, names);
      StuckAmong(files, names);
    }

    /** The keys that can be loaded, by label; everything else in the directory is passed over. */
    method List() returns (keys: seq<Key>)
      requires codec.Sound()
      ensures IsListing(keys, Keys(codec, Files(disk)))
    {
      var names := ReadDir();
      Names.AscendingIsDistinct(names, Names.Self);
      var found := LoadAll(codec, Files(disk), names);
      AllLoaded(codec, Files(disk), names, found);
      keys := Names.Sort(found, NameOf);
    }
  }

  /** Loads one file after another, and passes over what does not load. */
  method LoadAll(c: Codec, files: map<string, Entry>, names: seq<string>) returns (found: seq<Key>)
    requires c.Sound() && Names.Distinct(names, Names.Self)
    requires forall file :: file in names ==> file in files
    ensures AreLoaded(Loadable(c, files), names, found) && Names.Distinct(found, NameOf)
  {
    ghost var loads := Loadable(c, files);
    LoadableIsNamed(c, files);
    found := [];
    for i := 0 to |names|
      invariant AreLoaded(loads, names[..i], found)
      invariant Names.Distinct(found, NameOf)
    {
      var key := LoadOne(c, names[i], files[names[i]]);
      NextName(names, i);
      NextLoaded(loads, names[..i], found, names[i], key);
      if key.Some? {
        found := found + [key.value];
      }
    }
    assert names[..|names|] == names;
  }

  method LoadOne(c: Codec, file: string, e: Entry) returns (key: Option<Key>)
    requires c.Sound()
    ensures key == if IsJson(file) && LoadEntry(c, file, e).Ok? then Some(LoadEntry(c, file, e).key) else None
  {
    key := None;
    if e.File? && IsJson(file) {
      var loaded := LoadKeyfile(c, file, e.data);
      if loaded.Ok? {
        key := Some(loaded.key);
      }
    }
  }

  lemma NextName(names: seq<string>, i: nat)
    requires i < |names| && Names.Distinct(names, Names.Self)
    ensures names[i] in names && names[i] !in names[..i] && names[..i + 1] == names[..i] + [names[i]]
  {
  }

  /** What is left when the first `n` names have been dealt with. */
  ghost function Unremoved(files: map<string, Entry>, names: seq<string>, n: nat): map<string, Entry>
    requires n <= |names|
  {
    map file | file in files && !(file in names[..n] && IsJson(file) && Removable(files[file])) :: files[file]
  }

  lemma UnremovedStep(files: map<string, Entry>, names: seq<string>, n: nat)
    requires n < |names| && Names.Distinct(names, Names.Self) && names[n] in files
    ensures names[n] in Unremoved(files, names, n) && Unremoved(files, names, n)[names[n]] == files[names[n]]
    ensures Unremoved(files, names, n + 1) ==
            if IsJson(names[n]) && Removable(files[names[n]]) then Unremoved(files, names, n) - {names[n]}
            else Unremoved(files, names, n)
  {
    assert names[..n + 1] == names[..n] + [names[n]];
  }

  /** A keyfile's name that cannot be removed. */
  predicate Blocked(files: map<string, Entry>, file: string) {
    file in files && IsJson(file) && !Removable(files[file])
  }

  lemma AllUnremoved(c: Codec, files: map<string, Entry>, names: seq<string>)
    requires forall file :: file in names <==> file in files
    ensures Some(Unremoved(files, names, |names|)) == After(c, Some(files), RemoveAll)
  {
    assert names[..|names|] == names;
    assert Unremoved(files, names, |names|) == After(c, Some(files), RemoveAll).value;
  }

  lemma StuckAmong(files: map<string, Entry>, names: seq<string>)
    requires forall file :: file in names <==> file in files
    ensures Stuck(files) != {} <==> exists j :: 0 <= j < |names| && Blocked(files, names[j])
  {
    StuckIsBlocked(files);
    forall file | Blocked(files, file) ensures exists j :: 0 <= j < |names| && Blocked(files, names[j]) {
      assert file in names;
    }
  }

  lemma StuckIsBlocked(files: map<string, Entry>)
    ensures Stuck(files) != {} <==> exists file :: Blocked(files, file)
  {
    forall file | Blocked(files, file) ensures LabelOf(file) in Stuck(files) {
      FileNames("", file);
      TakenIsHere(files, LabelOf(file));
    }
    forall name | name in Stuck(files) ensures Blocked(files, FileOf(name)) {
      FileNames(name, "");
    }
  }

  /** What the files of the directory load as. */
  function Loadable(c: Codec, files: map<string, Entry>): map<string, Key> {
    map file | file in files && IsJson(file) && LoadEntry(c, file, files[file]).Ok? ::
      LoadEntry(c, file, files[file]).key
  }

  /** Every key is under its own file name. */
  predicate Named(loads: map<string, Key>) {
    forall file :: file in loads ==> FileOf(loads[file].name) == file
  }

  lemma LoadableIsNamed(c: Codec, files: map<string, Entry>)
    ensures Named(Loadable(c, files))
  {
    forall file | file in Loadable(c, files) ensures FileOf(Loadable(c, files)[file].name) == file {
      FileNames("", file);
    }
  }

  /** `found` holds the keys that the files named in `names` load as. */
  predicate AreLoaded(loads: map<string, Key>, names: seq<string>, found: seq<Key>) {
    && (forall key :: key in found ==>
          FileOf(key.name) in names && FileOf(key.name) in loads && loads[FileOf(key.name)] == key)
    && (forall file :: file in names && file in loads ==> loads[file] in found)
  }

  lemma NextLoaded(loads: map<string, Key>, names: seq<string>, found: seq<Key>, file: string, key: Option<Key>)
    requires Named(loads) && AreLoaded(loads, names, found) && Names.Distinct(found, NameOf)
    requires file !in names && key == if file in loads then Some(loads[file]) else None
    ensures var found' := if key.Some? then found + [key.value] else found;
      AreLoaded(loads, names + [file], found') && Names.Distinct(found', NameOf)
  {
    if key.Some? {
      forall i | 0 <= i < |found| ensures NameOf(found[i]) != key.value.name {
        assert found[i] in found;
      }
    }
  }

  lemma KeysAreLoadable(c: Codec, files: map<string, Entry>, name: string)
    ensures name in Keys(c, files) <==> FileOf(name) in Loadable(c, files)
    ensures name in Keys(c, files) ==> Keys(c, files)[name] == Loadable(c, files)[FileOf(name)]
  {
    FileNames(name, "");
    KeysAt(c, files, name);
  }

  lemma AllLoaded(c: Codec, files: map<string, Entry>, names: seq<string>, found: seq<Key>)
    requires AreLoaded(Loadable(c, files), names, found)
    requires forall file :: file in files ==> file in names
    ensures forall key :: key in found ==> key.name in Keys(c, files) && Keys(c, files)[key.name] == key
    ensures forall name :: name in Keys(c, files) ==> Keys(c, files)[name] in found
  {
    forall key | key in found ensures key.name in Keys(c, files) && Keys(c, files)[key.name] == key {
      KeysAreLoadable(c, files, key.name);
    }
    forall name | name in Keys(c, files) ensures Keys(c, files)[name] in found {
      KeysAreLoadable(c, files, name);
      assert FileOf(name) in names;
    }
  }
}
