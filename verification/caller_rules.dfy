/**
 Caller rules and their text form: `kind:value`, one a line in a rule file, comma-joined on the command
 line, one string each in a keyfile.
 */
module CallerRules {
  import opened Wrappers
  import Seqs

  datatype RuleKind = ApplePlatformSigningId | TeamId | SigningId | CDHash | Path

  datatype CallerRule = CallerRule(kind: RuleKind, value: string)

  datatype Parsed<T> = Ok(value: T) | UnrecognizedRule | EmptyValue | UnknownKind

  // ---------------------------------------------------------------- text

  /** The characters that Unicode calls white space. */
  predicate IsSpace(c: char) {
    var n := c as int;
    9 <= n <= 13 || n == 32 || n == 0x85 || n == 0xA0 || n == 0x1680 || 0x2000 <= n <= 0x200A ||
    n == 0x2028 || n == 0x2029 || n == 0x202F || n == 0x205F || n == 0x3000
  }

  /** The first place at or after `i` without white space. */
  function SkipSpace(s: string, i: nat): (k: nat)
    requires i <= |s|
    ensures i <= k <= |s|
    ensures k < |s| ==> !IsSpace(s[k])
    decreases |s| - i
  {
    if i < |s| && IsSpace(s[i]) then SkipSpace(s, i + 1) else i
  }

  /** The last place at or before `n`, and not before `lo`, that follows something else than white space. */
  function DropSpace(s: string, lo: nat, n: nat): (k: nat)
    requires lo <= n <= |s|
    ensures lo <= k <= n
    ensures k == lo || !IsSpace(s[k - 1])
    decreases n
  {
    if lo < n && IsSpace(s[n - 1]) then DropSpace(s, lo, n - 1) else n
  }

  predicate Trimmed(s: string) {
    s == "" || (!IsSpace(s[0]) && !IsSpace(s[|s| - 1]))
  }

  function TrimSpace(s: string): (t: string)
    ensures Trimmed(t)
    ensures Trimmed(s) ==> t == s
    ensures forall c :: c in t ==> c in s
  {
    var lo := SkipSpace(s, 0);
    s[lo..DropSpace(s, lo, |s|)]
  }

  lemma {:induction false} SkippedIsSpace(s: string, i: nat)
    requires i <= |s|
    ensures forall j :: i <= j < SkipSpace(s, i) ==> IsSpace(s[j])
    decreases |s| - i
  {
    if i < |s| && IsSpace(s[i]) {
      SkippedIsSpace(s, i + 1);
    }
  }

  lemma {:induction false} DroppedIsSpace(s: string, lo: nat, n: nat)
    requires lo <= n <= |s|
    ensures forall j :: DropSpace(s, lo, n) <= j < n ==> IsSpace(s[j])
  {
    if lo < n && IsSpace(s[n - 1]) {
      DroppedIsSpace(s, lo, n - 1);
    }
  }

  /** What is trimmed off is white space. */
  lemma TrimmedOff(s: string) returns (lo: nat, hi: nat)
    ensures lo <= hi <= |s| && TrimSpace(s) == s[lo..hi]
    ensures forall i :: 0 <= i < |s| && !(lo <= i < hi) ==> IsSpace(s[i])
  {
    lo := SkipSpace(s, 0);
    hi := DropSpace(s, lo, |s|);
    SkippedIsSpace(s, 0);
    DroppedIsSpace(s, lo, |s|);
  }

  /** Lower case, for the letters whose lower case is ASCII: no other can occur in a keyword. */
  function Lower(c: char): char {
    if 'A' <= c <= 'Z' then (c as int + 32) as char
    else if c as int == 0x130 then 'i'
    else if c as int == 0x212A then 'k'
    else c
  }

  function ToLower(s: string): (t: string)
    ensures |t| == |s|
  {
    seq(|s|, i requires 0 <= i < |s| => Lower(s[i]))
  }

  // ---------------------------------------------------------------- one rule

  function Keyword(kind: RuleKind): string {
    match kind
    case TeamId => "team-id"
    case SigningId => "signing-id"
    case CDHash => "cdhash"
    case Path => "path"
    case ApplePlatformSigningId => "apple-platform-signing-id"
  }

  function PrintRule(r: CallerRule): string {
    Keyword(r.kind) + ":" + r.value
  }

  function KindOf(keyword: string): Option<RuleKind> {
    if keyword == "team-id" || keyword == "teamid" then Some(TeamId)
    else if keyword == "signing-id" || keyword == "signingid" then Some(SigningId)
    else if keyword == "cdhash" then Some(CDHash)
    else if keyword == "path" then Some(Path)
    else None
  }

  function ParseRule(line: string): Parsed<CallerRule> {
    var k := Seqs.IndexOf(line, ':');
    if k == |line| then
      if line != "" && line[0] == '/' then Ok(CallerRule(Path, line)) else UnrecognizedRule
    else
      var value := TrimSpace(line[k + 1..]);
      if value == "" then EmptyValue
      else
        var kind := KindOf(ToLower(TrimSpace(line[..k])));
        if kind.Some? then Ok(CallerRule(kind.value, value)) else UnknownKind
  }

  /** The character is the letter, in either case or in the third form that two of them have. */
  predicate Spells(c: char, letter: char) {
    || c == letter
    || ('a' <= letter <= 'z' && letter as int == c as int + 32)
    || (letter == 'k' && c == '\U{212A}')
    || (letter == 'i' && c == '\U{0130}')
  }

  /** The text is the word, in whatever case. */
  predicate Reads(text: string, word: string) {
    |text| == |word| && forall i :: 0 <= i < |word| ==> Spells(text[i], word[i])
  }

  lemma LowerSpells(c: char, letter: char)
    requires 'a' <= letter <= 'z' || letter == '-'
    ensures Lower(c) == letter <==> Spells(c, letter)
  {
  }

  lemma ReadsIsLower(text: string, word: string)
    requires forall i :: 0 <= i < |word| ==> 'a' <= word[i] <= 'z' || word[i] == '-'
    ensures ToLower(text) == word <==> Reads(text, word)
  {
    forall i | 0 <= i < |word| && |text| == |word| ensures ToLower(text)[i] == word[i] <==> Spells(text[i], word[i]) {
      LowerSpells(text[i], word[i]);
    }
  }

  predicate NamesKind(text: string, kind: RuleKind) {
    match kind
    case TeamId => Reads(text, "team-id") || Reads(text, "teamid")
    case SigningId => Reads(text, "signing-id") || Reads(text, "signingid")
    case CDHash => Reads(text, "cdhash")
    case Path => Reads(text, "path")
    case ApplePlatformSigningId => false
  }

  lemma KindIsNamed(text: string, kind: RuleKind)
    ensures KindOf(ToLower(text)) == Some(kind) <==> NamesKind(text, kind)
  {
    ReadsIsLower(text, "team-id");
    ReadsIsLower(text, "teamid");
    ReadsIsLower(text, "signing-id");
    ReadsIsLower(text, "signingid");
    ReadsIsLower(text, "cdhash");
    ReadsIsLower(text, "path");
  }

  /** What a line with a colon reads as: a keyword in any case, and a value that is not blank. */
  lemma ParsesExactly(before: string, after: string, r: CallerRule)
    requires ':' !in before
    ensures ParseRule(before + ":" + after) == Ok(r) <==>
            NamesKind(TrimSpace(before), r.kind) && r.value == TrimSpace(after) != ""
  {
    CutAt(before, after);
    KindIsNamed(TrimSpace(before), r.kind);
  }

  /** A line without a colon is a rule exactly when it is an absolute path, and stands for that path. */
  lemma BarePathsParse(line: string, r: CallerRule)
    requires ':' !in line
    ensures ParseRule(line) == Ok(r) <==> r == CallerRule(Path, line) && "/" <= line
  {
    assert Seqs.IndexOf(line, ':') == |line|;
  }

  /** White space, by Unicode's property of that name. */
  lemma SpaceExactly(c: char)
    ensures IsSpace(c) <==>
            || c in "\t\n\U{0B}\U{0C}\r \U{85}\U{A0}\U{1680}\U{2028}\U{2029}\U{202F}\U{205F}\U{3000}"
            || '\U{2000}' <= c <= '\U{200A}'
  {
  }

  /** The rules that can be written down and read back: the platform rule has no keyword of its own. */
  predicate Printable(r: CallerRule) {
    r.kind != ApplePlatformSigningId && r.value != "" && Trimmed(r.value)
  }

  lemma KeywordParses(kind: RuleKind)
    ensures var k := Keyword(kind);
      && k != "" && Trimmed(k)
      && (forall i :: 0 <= i < |k| ==> k[i] != ':' && k[i] != ',' && Lower(k[i]) == k[i])
  {
  }

  lemma KeywordKind(kind: RuleKind)
    ensures KindOf(ToLower(TrimSpace(Keyword(kind)))) == if kind == ApplePlatformSigningId then None else Some(kind)
  {
    var k := Keyword(kind);
    KeywordParses(kind);
    assert ToLower(k) == k;
  }

  /** Text is cut at its first colon. */
  lemma CutAt(before: string, after: string)
    requires forall i :: 0 <= i < |before| ==> before[i] != ':'
    ensures var line := before + ":" + after;
      && Seqs.IndexOf(line, ':') == |before| < |line|
      && line[..|before|] == before && line[|before| + 1..] == after
  {
    var line := before + ":" + after;
    assert line[|before|] == ':';
    assert forall i :: 0 <= i < |before| ==> line[i] == before[i];
  }

  lemma ParsePrinted(r: CallerRule)
    ensures ParseRule(PrintRule(r)) ==
            if TrimSpace(r.value) == "" then EmptyValue
            else if r.kind == ApplePlatformSigningId then UnknownKind
            else Ok(CallerRule(r.kind, TrimSpace(r.value)))
  {
    KeywordParses(r.kind);
    KeywordKind(r.kind);
    CutAt(Keyword(r.kind), r.value);
  }

  /** Reading back a printed rule gives the rule exactly when it is printable. */
  lemma PrintParse(r: CallerRule)
    ensures ParseRule(PrintRule(r)) == Ok(r) <==> Printable(r)
  {
    ParsePrinted(r);
  }

  /** Whatever is read from a trimmed line can be printed and read back. */
  lemma ParsedIsPrintable(line: string)
    requires Trimmed(line) && ParseRule(line).Ok?
    ensures Printable(ParseRule(line).value)
    ensures forall c :: c in ParseRule(line).value.value ==> c in line
  {
    var k := Seqs.IndexOf(line, ':');
    if k < |line| {
      assert forall c :: c in line[k + 1..] ==> c in line;
    }
  }

  /** A bare path is read as it stands, its printed form without the space after it. */
  lemma PaddedPath(path: string)
    requires path != "" && path[0] == '/' && ':' !in path && Trimmed(path)
    ensures ParseRule(path + " ") == Ok(CallerRule(Path, path + " "))
    ensures ParseRule(PrintRule(CallerRule(Path, path + " "))) == Ok(CallerRule(Path, path))
  {
    var padded := path + " ";
    var n := |path|;
    assert padded[n] == ' ' && forall i :: 0 <= i < n ==> padded[i] == path[i] && path[i] in path;
    assert Seqs.IndexOf(padded, ':') == |padded|;
    assert SkipSpace(padded, 0) == 0 && DropSpace(padded, 0, n + 1) == n;
    assert padded[0..n] == path;
    ParsePrinted(CallerRule(Path, padded));
  }

  // ---------------------------------------------------------------- comma-joined rules

  function Split(s: string): (parts: seq<string>)
    ensures parts != []
    decreases |s|
  {
    var k := Seqs.IndexOf(s, ',');
    if k == |s| then [s] else [s[..k]] + Split(s[k + 1..])
  }

  function Join(parts: seq<string>): string {
    if parts == [] then ""
    else if |parts| == 1 then parts[0]
    else parts[0] + "," + Join(parts[1..])
  }

  /** A list is cut at every comma. */
  lemma SplitExactly(part: string, more: string)
    requires ',' !in part
    ensures Split(part) == [part] && Split(part + "," + more) == [part] + Split(more)
  {
    var s := part + "," + more;
    assert forall i :: 0 <= i < |part| ==> s[i] == part[i] && part[i] in part;
    assert s[|part|] == ',';
    assert Seqs.IndexOf(s, ',') == |part| && Seqs.IndexOf(part, ',') == |part|;
    assert s[..|part|] == part && s[|part| + 1..] == more;
  }

  /** The rule in one part of the list; none when the part is blank. */
  function ParsePart(part: string): Parsed<Option<CallerRule>> {
    var text := TrimSpace(part);
    if text == "" then Ok(None)
    else
      match ParseRule(text)
      case Ok(r) => Ok(Some(r))
      case UnrecognizedRule => UnrecognizedRule
      case EmptyValue => EmptyValue
      case UnknownKind => UnknownKind
  }

  type PartParser = string -> Parsed<Option<CallerRule>>

  /** The rules in the first `n` parts, or the first error among them. */
  function Collect(parse: PartParser, parts: seq<string>, n: nat): Parsed<seq<CallerRule>>
    requires n <= |parts|
  {
    if n == 0 then Ok([])
    else
      var before := Collect(parse, parts, n - 1);
      if !before.Ok? then before else AddPart(before, parse(parts[n - 1]))
  }

  /** The rules so far and those of one more part, or that part's error. */
  function AddPart(before: Parsed<seq<CallerRule>>, part: Parsed<Option<CallerRule>>): Parsed<seq<CallerRule>>
    requires before.Ok?
  {
    match part
    case Ok(r) => if r.Some? then Ok(before.value + [r.value]) else before
    case UnrecognizedRule => UnrecognizedRule
    case EmptyValue => EmptyValue
    case UnknownKind => UnknownKind
  }

  /** The first error is the result, whatever follows. */
  lemma {:induction false} FirstError(parse: PartParser, parts: seq<string>, k: nat, n: nat)
    requires k <= n <= |parts| && !Collect(parse, parts, k).Ok?
    ensures Collect(parse, parts, n) == Collect(parse, parts, k)
    decreases n
  {
    if k < n {
      FirstError(parse, parts, k, n - 1);
    }
  }

  /** Every rule of the list stands in one of its parts. */
  lemma {:induction false} CollectedFrom(parse: PartParser, parts: seq<string>, n: nat)
    requires n <= |parts| && Collect(parse, parts, n).Ok?
    ensures forall r :: r in Collect(parse, parts, n).value ==> exists i :: 0 <= i < n && parse(parts[i]) == Ok(Some(r))
  {
    if n > 0 {
      CollectedFrom(parse, parts, n - 1);
    }
  }

  /** Parts that each hold a rule give these rules. */
  lemma {:induction false} CollectEach(parse: PartParser, parts: seq<string>, rules: seq<CallerRule>, n: nat)
    requires n <= |parts| == |rules| && forall i :: 0 <= i < n ==> parse(parts[i]) == Ok(Some(rules[i]))
    ensures Collect(parse, parts, n) == Ok(rules[..n])
  {
    if n > 0 {
      CollectEach(parse, parts, rules, n - 1);
      assert rules[..n] == rules[..n - 1] + [rules[n - 1]];
    }
  }

  /** The rules of a command-line list: none when it is blank, the first error when there is one. */
  function KeyCallers(spec: string): Parsed<seq<CallerRule>> {
    if TrimSpace(spec) == "" then Ok([])
    else
      var parts := Split(TrimSpace(spec));
      Collect(ParsePart, parts, |parts|)
  }

  predicate Blank(part: string) {
    TrimSpace(part) == ""
  }

  /** The parts that are not blank. */
  function Filled(parts: seq<string>, n: nat): seq<string>
    requires n <= |parts|
  {
    if n == 0 then []
    else Filled(parts, n - 1) + if Blank(parts[n - 1]) then [] else [TrimSpace(parts[n - 1])]
  }

  type RuleParser = string -> Parsed<CallerRule>

  /** The result is the rules that the texts hold, or an error when one of them holds none. */
  predicate RulesOf(parse: RuleParser, texts: seq<string>, r: Parsed<seq<CallerRule>>) {
    && (r.Ok? <==> forall i :: 0 <= i < |texts| ==> parse(texts[i]).Ok?)
    && (r.Ok? ==> |r.value| == |texts| && forall i :: 0 <= i < |texts| ==> parse(texts[i]) == Ok(r.value[i]))
  }

  lemma OneMoreText(parse: RuleParser, texts: seq<string>, text: string, r: Parsed<seq<CallerRule>>,
                    more: Parsed<seq<CallerRule>>)
    requires RulesOf(parse, texts, r)
    requires r.Ok? && parse(text).Ok? ==> more == Ok(r.value + [parse(text).value])
    requires !r.Ok? || !parse(text).Ok? ==> !more.Ok?
    ensures RulesOf(parse, texts + [text], more)
  {
    var all := texts + [text];
    assert all[|texts|] == text && forall i :: 0 <= i < |texts| ==> all[i] == texts[i];
  }

  /** A part is read as the rule in it, when it is not blank. */
  ghost predicate ReadsParts(part: PartParser, rule: RuleParser) {
    forall text ::
      if Blank(text) then part(text) == Ok(None)
      else if rule(TrimSpace(text)).Ok? then part(text) == Ok(Some(rule(TrimSpace(text)).value))
      else !part(text).Ok?
  }

  lemma {:induction false} CollectsFilled(part: PartParser, rule: RuleParser, parts: seq<string>, n: nat)
    requires n <= |parts| && ReadsParts(part, rule)
    ensures RulesOf(rule, Filled(parts, n), Collect(part, parts, n))
  {
    if n > 0 {
      CollectsFilled(part, rule, parts, n - 1);
      var texts, before, text := Filled(parts, n - 1), Collect(part, parts, n - 1), parts[n - 1];
      if Blank(text) {
        assert part(text) == Ok(None);
        assert texts + [] == texts;
      } else {
        OneMoreText(rule, texts, TrimSpace(text), before, if before.Ok? then AddPart(before, part(text)) else before);
      }
    }
  }

  /** A list is accepted exactly when each of its parts is blank or a rule, and gives the rules in their order. */
  lemma ListsExactly(spec: string)
    ensures var parts := Split(TrimSpace(spec)); RulesOf(ParseRule, Filled(parts, |parts|), KeyCallers(spec))
  {
    var parts := Split(TrimSpace(spec));
    if TrimSpace(spec) == "" {
      NothingFilled(TrimSpace(spec));
    } else {
      assert ReadsParts(ParsePart, ParseRule);
      CollectsFilled(ParsePart, ParseRule, parts, |parts|);
    }
  }

  lemma NothingFilled(text: string)
    requires text == ""
    ensures Filled(Split(text), |Split(text)|) == []
  {
    var parts := Split(text);
    assert |parts| == 1 && parts[0] == "";
    assert Blank(parts[0]);
    assert Filled(parts, 0) == [];
  }

  function PrintAll(rules: seq<CallerRule>): seq<string> {
    seq(|rules|, i requires 0 <= i < |rules| => PrintRule(rules[i]))
  }

  /** What can stand in a comma-joined list. */
  predicate Listable(r: CallerRule) {
    Printable(r) && ',' !in r.value
  }

  lemma {:induction false} SplitHasNoComma(s: string)
    ensures forall i :: 0 <= i < |Split(s)| ==> ',' !in Split(s)[i]
    decreases |s|
  {
    var k := Seqs.IndexOf(s, ',');
    if k < |s| {
      SplitHasNoComma(s[k + 1..]);
    }
  }

  lemma PartIsListable(part: string)
    requires ',' !in part && ParsePart(part).Ok? && ParsePart(part).value.Some?
    ensures Listable(ParsePart(part).value.value)
  {
    ParsedIsPrintable(TrimSpace(part));
  }

  lemma PartsAreListable(parts: seq<string>)
    requires forall i :: 0 <= i < |parts| ==> ',' !in parts[i]
    requires Collect(ParsePart, parts, |parts|).Ok?
    ensures forall r :: r in Collect(ParsePart, parts, |parts|).value ==> Listable(r)
  {
    CollectedFrom(ParsePart, parts, |parts|);
    forall r | r in Collect(ParsePart, parts, |parts|).value ensures Listable(r) {
      var i :| 0 <= i < |parts| && ParsePart(parts[i]) == Ok(Some(r));
      PartIsListable(parts[i]);
    }
  }

  lemma {:induction false} SplitJoin(parts: seq<string>)
    requires parts != [] && forall i :: 0 <= i < |parts| ==> ',' !in parts[i]
    ensures Split(Join(parts)) == parts
  {
    var s, head := Join(parts), parts[0];
    assert forall j :: 0 <= j < |head| ==> s[j] == head[j] && head[j] in head;
    assert |parts| > 1 ==> s[|head|] == ',';
    assert Seqs.IndexOf(s, ',') == |head|;
    if |parts| > 1 {
      assert s[..|head|] == head && s[|head| + 1..] == Join(parts[1..]);
      SplitJoin(parts[1..]);
    }
  }

  lemma {:induction false} JoinTrimmed(parts: seq<string>)
    requires parts != [] && forall i :: 0 <= i < |parts| ==> Trimmed(parts[i]) && parts[i] != ""
    ensures Join(parts) != "" && Join(parts)[0] == parts[0][0]
    ensures Trimmed(Join(parts))
  {
    if |parts| > 1 {
      JoinTrimmed(parts[1..]);
      var s, rest := Join(parts), Join(parts[1..]);
      assert s[|s| - 1] == rest[|rest| - 1];
    }
  }

  lemma PrintedIsTrimmed(r: CallerRule)
    requires Printable(r)
    ensures Trimmed(PrintRule(r)) && PrintRule(r) != ""
    ensures ',' !in r.value ==> ',' !in PrintRule(r)
  {
    KeywordParses(r.kind);
    assert PrintRule(r)[0] == Keyword(r.kind)[0];
  }

  lemma PrintedPart(r: CallerRule)
    requires Printable(r)
    ensures ParsePart(PrintRule(r)) == Ok(Some(r))
  {
    PrintedIsTrimmed(r);
    PrintParse(r);
  }

  /** A list of listable rules, printed and comma-joined, reads back as itself. */
  lemma JoinedReadsBack(rules: seq<CallerRule>)
    requires forall i :: 0 <= i < |rules| ==> Listable(rules[i])
    ensures KeyCallers(Join(PrintAll(rules))) == Ok(rules)
  {
    var parts := PrintAll(rules);
    forall i | 0 <= i < |rules| ensures Trimmed(parts[i]) && parts[i] != "" && ',' !in parts[i] {
      PrintedIsTrimmed(rules[i]);
    }
    if rules != [] {
      JoinTrimmed(parts);
      SplitJoin(parts);
      forall i | 0 <= i < |rules| ensures ParsePart(parts[i]) == Ok(Some(rules[i])) {
        PrintedPart(rules[i]);
      }
      CollectEach(ParsePart, parts, rules, |rules|);
      assert rules[..|rules|] == rules;
    }
  }

  /** Every accepted command-line list is a list of listable rules, so printing and reading it again changes nothing. */
  lemma KeyCallersRoundTrip(spec: string)
    requires KeyCallers(spec).Ok?
    ensures var rules := KeyCallers(spec).value;
      && (forall i :: 0 <= i < |rules| ==> Listable(rules[i]))
      && KeyCallers(Join(PrintAll(rules))) == Ok(rules)
  {
    if TrimSpace(spec) != "" {
      var parts := Split(TrimSpace(spec));
      SplitHasNoComma(TrimSpace(spec));
      PartsAreListable(parts);
    }
    JoinedReadsBack(KeyCallers(spec).value);
  }

  /** Parses a comma-separated list of rules. */
  method ParseKeyCallers(spec: string) returns (r: Parsed<seq<CallerRule>>)
    ensures r == KeyCallers(spec)
  {
    var text := TrimSpace(spec);
    if text == "" {
      return Ok([]);
    }
    var parts := Split(text);
    r := CollectParts(ParsePart, parts);
  }

  method CollectParts(parse: PartParser, parts: seq<string>) returns (r: Parsed<seq<CallerRule>>)
    ensures r == Collect(parse, parts, |parts|)
  {
    var rules: seq<CallerRule> := [];
    for i := 0 to |parts|
      invariant Collect(parse, parts, i) == Ok(rules)
    {
      var rule := parse(parts[i]);
      match rule
      case Ok(v) =>
        if v.Some? {
          rules := rules + [v.value];
        }
      case UnrecognizedRule => FirstError(parse, parts, i + 1, |parts|); return UnrecognizedRule;
      case EmptyValue => FirstError(parse, parts, i + 1, |parts|); return EmptyValue;
      case UnknownKind => FirstError(parse, parts, i + 1, |parts|); return UnknownKind;
    }
    return Ok(rules);
  }
}
