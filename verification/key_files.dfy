/**
 Keyfiles: one JSON record a key, named after the key's label. Loading believes nothing it can check: the
 label must be the file's own name, and the public key the one the key data yields.
 */
module KeyFiles {
  import opened Bytes
  import opened Wrappers
  import opened CallerRules
  import Points = PointCodec
  import Seqs

  datatype Keyfile = Keyfile(
    version: int,
    name: string,
    requireTouch: bool,
    createdAt: string,
    keyData: string,
    publicKey: string,
    callerRules: seq<string>)

  datatype Key = Key(
    name: string,
    requireTouch: bool,
    callerRules: seq<CallerRule>,
    publicKey: Points.Point,
    keyData: seq<byte>)

  /** JSON, base64, the curve, and the Secure Enclave's derivation of a public key from key data. */
  datatype Codec = Codec(
    encode: Keyfile -> string,
    decode: string -> Option<Keyfile>,
    encode64: seq<byte> -> string,
    decode64: string -> Option<seq<byte>>,
    curve: Points.Curve,
    derive: seq<byte> -> Option<Points.Point>)
  {
    ghost predicate Sound() {
      && (forall rec :: decode(encode(rec)) == Some(rec))
      && (forall bs :: decode64(encode64(bs)) == Some(bs))
      && (forall bs :: derive(bs).Some? ==> Points.OnCurve(curve, derive(bs).value))
    }
  }

  datatype Loaded =
    | Ok(key: Key)
    | BadJson
    | BadVersion
    | WrongLabel
    | BadKeyData
    | BadPublicKey
    | NoDerivedKey
    | KeyMismatch
    | BadRule

  const VERSION := 1

  /** A file name's label: what stands before `.json`. */
  predicate IsJson(file: string) {
    |file| >= 5 && file[|file| - 5..] == ".json"
  }

  function LabelOf(file: string): string {
    if IsJson(file) then file[..|file| - 5] else file
  }

  function FileOf(name: string): string {
    name + ".json"
  }

  lemma FileNames(name: string, file: string)
    ensures IsJson(FileOf(name)) && LabelOf(FileOf(name)) == name
    ensures IsJson(file) ==> FileOf(LabelOf(file)) == file
  {
    assert FileOf(name)[|name|..] == ".json";
    assert IsJson(file) ==> file == file[..|file| - 5] + file[|file| - 5..];
  }

  type RuleParser = string -> Parsed<CallerRule>

  /** The rules in the texts; none at all when one of them cannot be read. */
  function RulesIn(parse: RuleParser, texts: seq<string>): (r: Option<seq<CallerRule>>)
    ensures r.Some? ==> |r.value| == |texts|
    ensures r.Some? <==> forall i :: 0 <= i < |texts| ==> parse(texts[i]).Ok?
    ensures r.Some? ==> forall i :: 0 <= i < |texts| ==> parse(texts[i]) == Parsed.Ok(r.value[i])
  {
    if texts == [] then Some([])
    else
      var n := |texts| - 1;
      var before := RulesIn(parse, texts[..n]);
      var last := parse(texts[n]);
      if before.Some? && last.Ok? then Some(before.value + [last.value]) else None
  }

  function ParsedRules(texts: seq<string>): Option<seq<CallerRule>> {
    RulesIn(ParseRule, texts)
  }

  /** Rules survive being written to a keyfile exactly when each of them is printable. */
  lemma RulesReload(rules: seq<CallerRule>)
    ensures ParsedRules(PrintAll(rules)) == Some(rules) <==> forall i :: 0 <= i < |rules| ==> Printable(rules[i])
  {
    var texts := PrintAll(rules);
    forall i | 0 <= i < |rules| ensures ParseRule(texts[i]) == Parsed.Ok(rules[i]) <==> Printable(rules[i]) {
      PrintParse(rules[i]);
    }
    if forall i :: 0 <= i < |rules| ==> Printable(rules[i]) {
      assert ParsedRules(texts).value == rules;
    }
  }

  /** What loading the file `file` gives. */
  function Load(c: Codec, file: string, data: string): (r: Loaded)
    ensures r.Ok? ==> r.key.name == LabelOf(file)
  {
    var rec := c.decode(data);
    if rec.None? then BadJson
    else if rec.value.version != VERSION then BadVersion
    else if rec.value.name != LabelOf(file) then WrongLabel
    else Check(c, rec.value)
  }

  /** The checks on a record's keys and rules. */
  function Check(c: Codec, rec: Keyfile): (r: Loaded)
    ensures r.Ok? ==> r.key.name == rec.name
  {
    var keyData, publicKey := c.decode64(rec.keyData), c.decode64(rec.publicKey);
    if keyData.None? then BadKeyData
    else if publicKey.None? || !Points.ParsePoint(c.curve, publicKey.value).Ok? then BadPublicKey
    else
      var derived := c.derive(keyData.value);
      if derived.None? then NoDerivedKey
      else if derived.value != Points.ParsePoint(c.curve, publicKey.value).p then KeyMismatch
      else
        var rules := ParsedRules(rec.callerRules);
        if rules.None? then BadRule
        else Loaded.Ok(Key(rec.name, rec.requireTouch, rules.value, derived.value, keyData.value))
  }

  function RecordOf(c: Codec, key: Key, createdAt: string): Keyfile {
    Keyfile(VERSION, key.name, key.requireTouch, createdAt, c.encode64(key.keyData),
            c.encode64(Points.Marshalled(key.publicKey)), PrintAll(key.callerRules))
  }

  /** The key data's public key is the one the Secure Enclave returned with it. */
  predicate Honest(c: Codec, key: Key) {
    Points.OnCurve(c.curve, key.publicKey) && c.derive(key.keyData) == Some(key.publicKey)
  }

  /** What a written key loads as: its rules are read again. */
  function Reloaded(key: Key): Loaded {
    var rules := ParsedRules(PrintAll(key.callerRules));
    if rules.Some? then Loaded.Ok(key.(callerRules := rules.value)) else BadRule
  }

  lemma LoadWritten(c: Codec, key: Key, createdAt: string)
    requires c.Sound() && Honest(c, key)
    ensures Load(c, FileOf(key.name), c.encode(RecordOf(c, key, createdAt))) == Reloaded(key)
  {
    FileNames(key.name, "");
    Points.ParseMarshalled(c.curve, key.publicKey);
  }

  /** A written key loads as itself exactly when all its rules are printable. */
  lemma WrittenReloads(c: Codec, key: Key, createdAt: string)
    requires c.Sound() && Honest(c, key)
    ensures Load(c, FileOf(key.name), c.encode(RecordOf(c, key, createdAt))) == Loaded.Ok(key) <==>
            forall i :: 0 <= i < |key.callerRules| ==> Printable(key.callerRules[i])
  {
    LoadWritten(c, key, createdAt);
    RulesReload(key.callerRules);
  }

  /**
   Which keyfiles load, whatever the file holds: records of version 1 that are named like the file, whose key data
   yields a public key, whose public key is that key's 65-byte form, and whose rules can all be read. The loaded
   key is the record's.
   */
  lemma LoadsExactly(c: Codec, file: string, data: string)
    requires c.Sound()
    ensures Load(c, file, data).Ok? <==>
            c.decode(data).Some? &&
            var rec := c.decode(data).value;
            && rec.version == 1
            && (file == rec.name + ".json" || (rec.name == file && (|file| < 5 || file[|file| - 5..] != ".json")))
            && c.decode64(rec.keyData).Some?
            && c.derive(c.decode64(rec.keyData).value).Some?
            && c.decode64(rec.publicKey) == Some(Points.Marshalled(c.derive(c.decode64(rec.keyData).value).value))
            && (forall text :: text in rec.callerRules ==> ParseRule(text).Ok?)
    ensures Load(c, file, data).Ok? ==>
              var rec, key := c.decode(data).value, Load(c, file, data).key;
              && key.name == rec.name && key.requireTouch == rec.requireTouch
              && Some(key.keyData) == c.decode64(rec.keyData)
              && Some(key.publicKey) == c.derive(key.keyData)
              && |key.callerRules| == |rec.callerRules|
              && (forall i :: 0 <= i < |key.callerRules| ==>
                    ParseRule(rec.callerRules[i]) == Parsed.Ok(key.callerRules[i]))
  {
    if c.decode(data).Some? {
      var rec := c.decode(data).value;
      NamedLike(file, rec.name);
      ChecksExactly(c, rec);
    }
  }

  lemma NamedLike(file: string, name: string)
    ensures name == LabelOf(file) <==>
            file == name + ".json" || (name == file && (|file| < 5 || file[|file| - 5..] != ".json"))
  {
    FileNames(name, file);
    if file == name + ".json" {
      assert file == FileOf(name);
    }
  }

  lemma ChecksExactly(c: Codec, rec: Keyfile)
    requires c.Sound()
    ensures Check(c, rec).Ok? <==>
            && c.decode64(rec.keyData).Some?
            && c.derive(c.decode64(rec.keyData).value).Some?
            && c.decode64(rec.publicKey) == Some(Points.Marshalled(c.derive(c.decode64(rec.keyData).value).value))
            && (forall text :: text in rec.callerRules ==> ParseRule(text).Ok?)
  {
    if c.decode64(rec.keyData).Some? && c.derive(c.decode64(rec.keyData).value).Some? {
      PublicKeyIs(c, rec.publicKey, c.derive(c.decode64(rec.keyData).value).value);
    }
    assert forall i :: 0 <= i < |rec.callerRules| ==> rec.callerRules[i] in rec.callerRules;
  }

  /** The text holds the point exactly when it holds the point's 65 bytes. */
  lemma PublicKeyIs(c: Codec, text: string, q: Points.Point)
    requires Points.OnCurve(c.curve, q)
    ensures c.decode64(text) == Some(Points.Marshalled(q)) <==>
            && c.decode64(text).Some?
            && Points.ParsePoint(c.curve, c.decode64(text).value) == Points.ParsedPoint.Ok(q)
  {
    Points.ParseMarshalled(c.curve, q);
    if c.decode64(text).Some? && Points.ParsePoint(c.curve, c.decode64(text).value).Ok? {
      Points.MarshalParsed(c.curve, c.decode64(text).value);
    }
  }

  /** A text whose rule survives being printed and read again. */
  predicate Survives(text: string) {
    ':' in text || Trimmed(text)
  }

  /**
   A loaded key is named after its file and its public key is the one its key data yields; writing the key
   again and loading that gives it back exactly when every rule that is a bare path stands there trimmed.
   */
  lemma LoadedRewrites(c: Codec, file: string, data: string, createdAt: string)
    requires c.Sound() && Load(c, file, data).Ok?
    ensures var key := Load(c, file, data).key;
      && key.name == LabelOf(file) && Honest(c, key)
      && (Load(c, FileOf(key.name), c.encode(RecordOf(c, key, createdAt))) == Loaded.Ok(key) <==>
          forall text :: text in c.decode(data).value.callerRules ==> Survives(text))
  {
    var key, texts := Load(c, file, data).key, c.decode(data).value.callerRules;
    WrittenReloads(c, key, createdAt);
    forall i | 0 <= i < |texts| ensures Printable(key.callerRules[i]) <==> Survives(texts[i]) {
      ParsedSurvives(texts[i]);
    }
    EachSurvives(texts, key.callerRules);
  }

  lemma ParsedSurvives(text: string)
    requires ParseRule(text).Ok?
    ensures Printable(ParseRule(text).value) <==> Survives(text)
  {
    assert ':' in text <==> Seqs.IndexOf(text, ':') < |text|;
  }

  lemma EachSurvives(texts: seq<string>, rules: seq<CallerRule>)
    requires |texts| == |rules| && forall i :: 0 <= i < |texts| ==> (Printable(rules[i]) <==> Survives(texts[i]))
    ensures (forall i :: 0 <= i < |rules| ==> Printable(rules[i])) <==>
            (forall text :: text in texts ==> Survives(text))
  {
    if forall text :: text in texts ==> Survives(text) {
      assert forall i :: 0 <= i < |texts| ==> texts[i] in texts;
    }
  }

  /** It fails for every key whose only rule is a path with a space after it: the rewritten rule has none. */
  lemma PaddedPathIsChanged(c: Codec, key: Key, createdAt: string, path: string)
    requires c.Sound() && Honest(c, key)
    requires path != "" && path[0] == '/' && ':' !in path && Trimmed(path)
    ensures var rec := RecordOf(c, key, createdAt).(callerRules := [path + " "]);
      var loaded := key.(callerRules := [CallerRule(Path, path + " ")]);
      && Load(c, FileOf(key.name), c.encode(rec)) == Loaded.Ok(loaded)
      && Load(c, FileOf(key.name), c.encode(RecordOf(c, loaded, createdAt))) ==
         Loaded.Ok(key.(callerRules := [CallerRule(Path, path)]))
  {
    var padded := CallerRule(Path, path + " ");
    var loaded := key.(callerRules := [padded]);
    FileNames(key.name, "");
    Points.ParseMarshalled(c.curve, key.publicKey);
    PaddedPath(path);
    assert ParsedRules([path + " "]).value == [padded];
    LoadWritten(c, loaded, createdAt);
    assert PrintAll([padded]) == [PrintRule(padded)];
    assert ParsedRules([PrintRule(padded)]).value == [CallerRule(Path, path)];
  }

  /** Reads the rules one after another and stops at the first that cannot be read. */
  method ReadRules(parse: RuleParser, texts: seq<string>) returns (r: Option<seq<CallerRule>>)
    ensures r == RulesIn(parse, texts)
  {
    var rules: seq<CallerRule> := [];
    for i := 0 to |texts|
      invariant |rules| == i
      invariant forall j :: 0 <= j < i ==> parse(texts[j]) == Parsed.Ok(rules[j])
    {
      var rule := parse(texts[i]);
      if !rule.Ok? {
        return None;
      }
      rules := rules + [rule.value];
    }
    assert RulesIn(parse, texts).value == rules;
    return Some(rules);
  }

  method BuildRecord(c: Codec, key: Key, createdAt: string) returns (rec: Keyfile)
    requires Points.OnCurve(c.curve, key.publicKey)
    ensures rec == RecordOf(c, key, createdAt)
  {
    var rules := key.callerRules;
    var texts: seq<string> := [];
    for i := 0 to |rules|
      invariant texts == PrintAll(rules)[..i]
    {
      texts := texts + [PrintRule(rules[i])];
    }
    Points.PrimeFits();
    var raw := Points.MarshalPoint(key.publicKey);
    return Keyfile(VERSION, key.name, key.requireTouch, createdAt, c.encode64(key.keyData), c.encode64(raw), texts);
  }

  /** Compares two public keys in their byte form. */
  method SamePublicKey(e: Points.Curve, p: Points.Point, q: Points.Point) returns (same: bool)
    requires Points.OnCurve(e, p) && Points.OnCurve(e, q)
    ensures same <==> p == q
  {
    Points.PrimeFits();
    var mine := Points.MarshalPoint(p);
    var theirs := Points.MarshalPoint(q);
    Points.SameBytesSamePoint(e, p, q);
    return mine == theirs;
  }

  method LoadKeyfile(c: Codec, file: string, data: string) returns (r: Loaded)
    requires c.Sound()
    ensures r == Load(c, file, data)
  {
    var decoded := c.decode(data);
    if decoded.None? {
      return BadJson;
    }
    var rec := decoded.value;
    if rec.version != VERSION {
      return BadVersion;
    }
    if rec.name != LabelOf(file) {
      return WrongLabel;
    }
    r := CheckRecord(c, rec);
  }

  method CheckRecord(c: Codec, rec: Keyfile) returns (r: Loaded)
    requires c.Sound()
    ensures r == Check(c, rec)
  {
    var keyData, publicRaw := c.decode64(rec.keyData), c.decode64(rec.publicKey);
    if keyData.None? {
      return BadKeyData;
    }
    if publicRaw.None? {
      return BadPublicKey;
    }
    var pub := Points.ParsePoint(c.curve, publicRaw.value);
    if !pub.Ok? {
      return BadPublicKey;
    }
    var derived := c.derive(keyData.value);
    if derived.None? {
      return NoDerivedKey;
    }
    var same := SamePublicKey(c.curve, pub.p, derived.value);
    if !same {
      return KeyMismatch;
    }
    var rules := ReadRules(ParseRule, rec.callerRules);
    if rules.None? {
      return BadRule;
    }
    return Loaded.Ok(Key(rec.name, rec.requireTouch, rules.value, derived.value, keyData.value));
  }
}
