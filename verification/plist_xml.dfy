/**
 The plist as XML text: escaping, a tokenizer and parser for the subset that plists of this kind use, and
 the printer's layout. Reading what was printed gives back what was meant, for every value of the subset.
 */
module PlistXml {
  import opened Wrappers
  import Seqs

  // ---------------------------------------------------------------- characters

  /** A character that XML text may hold (section 2.2 of XML 1.0), carriage returns aside. */
  predicate LegalChar(c: char) {
    var n := c as int;
    n == 9 || n == 10 || 0x20 <= n <= 0xD7FF || 0xE000 <= n <= 0xFFFD || 0x10000 <= n
  }

  predicate LegalText(s: string) {
    forall i :: 0 <= i < |s| ==> LegalChar(s[i])
  }

  const CR: char := '\r'

  /** End-of-line handling (section 2.11 of XML 1.0): a reader never passes a carriage return on. */
  function NormalizeEol(s: string): (t: string)
    ensures forall i :: 0 <= i < |t| ==> t[i] != CR
  {
    if s == "" then ""
    else if s[0] == CR then "\n" + NormalizeEol(if |s| > 1 && s[1] == '\n' then s[2..] else s[1..])
    else [s[0]] + NormalizeEol(s[1..])
  }

  /** Text is read back as it was written only when it holds no carriage return. */
  lemma {:induction false} NormalizeIsIdentity(s: string)
    ensures NormalizeEol(s) == s <==> CR !in s
  {
    if CR in s {
      var i :| 0 <= i < |s| && s[i] == CR;
    } else if s != "" {
      assert CR !in s[1..];
      NormalizeIsIdentity(s[1..]);
      assert [s[0]] + s[1..] == s;
    }
  }

  // ---------------------------------------------------------------- escaping

  function EscapeChar(c: char): string {
    if c == '&' then "&amp;" else if c == '<' then "&lt;" else if c == '>' then "&gt;" else [c]
  }

  function Escape(s: string): string {
    if s == "" then "" else EscapeChar(s[0]) + Escape(s[1..])
  }

  /** The predefined entities (section 4.6 of XML 1.0): the character and the entity's length. */
  function Entity(s: string): Option<(char, nat)> {
    if "&amp;" <= s then Some(('&', 5))
    else if "&lt;" <= s then Some(('<', 4))
    else if "&gt;" <= s then Some(('>', 4))
    else if "&quot;" <= s then Some(('\"', 6))
    else if "&apos;" <= s then Some(('\'', 6))
    else None
  }

  /** Reads text: entities stand for their characters, bare markup is an error. */
  function Unescape(s: string): Option<string>
    decreases |s|
  {
    if s == "" then Some("")
    else if s[0] == '&' then
      var e := Entity(s);
      if e.None? then None
      else
        var rest := Unescape(s[e.value.1..]);
        if rest.None? then None else Some([e.value.0] + rest.value)
    else if s[0] == '<' then None
    else
      var rest := Unescape(s[1..]);
      if rest.None? then None else Some([s[0]] + rest.value)
  }

  lemma UnescapeOne(c: char, t: string)
    requires Unescape(t).Some?
    ensures Unescape(EscapeChar(c) + t) == Some([c] + Unescape(t).value)
  {
    var s := EscapeChar(c) + t;
    assert s[|EscapeChar(c)|..] == t;
    if c == '<' || c == '>' {
      assert s[1] != 'a';
    }
  }

  lemma {:induction false} EscapeAppend(s: string, t: string)
    ensures Escape(s + t) == Escape(s) + Escape(t)
  {
    if s == "" {
      assert s + t == t;
    } else {
      EscapeAppend(s[1..], t);
      assert (s + t)[1..] == s[1..] + t;
      Seqs.Assoc(EscapeChar(s[0]), Escape(s[1..]), Escape(t));
    }
  }

  lemma EscapeOne(c: char)
    ensures Escape([c]) == EscapeChar(c)
  {
    assert [c][1..] == "";
    assert EscapeChar(c) + "" == EscapeChar(c);
  }

  /** Escaping works character by character, and changes three of them. */
  lemma EscapeExactly(s: string, t: string, c: char)
    ensures Escape(s + t) == Escape(s) + Escape(t)
    ensures Escape([c]) == if c == '&' then "&amp;" else if c == '<' then "&lt;" else if c == '>' then "&gt;" else [c]
  {
    EscapeAppend(s, t);
    EscapeOne(c);
  }

  /** Escaping has an inverse. */
  lemma {:induction false} UnescapeEscape(s: string)
    ensures Unescape(Escape(s)) == Some(s)
  {
    if s != "" {
      UnescapeEscape(s[1..]);
      UnescapeOne(s[0], Escape(s[1..]));
      assert [s[0]] + s[1..] == s;
    }
  }

  /** Escaping adds no illegal character. */
  lemma {:induction false} EscapedIsLegal(s: string)
    requires LegalText(s)
    ensures LegalText(Escape(s))
  {
    if s != "" {
      EscapedIsLegal(s[1..]);
    }
  }

  /** Escaped text holds no bare markup and is empty only for empty text. */
  lemma {:induction false} EscapedIsPlain(s: string)
    ensures forall i :: 0 <= i < |Escape(s)| ==> Escape(s)[i] != '<' && Escape(s)[i] != '>'
    ensures Escape(s) == "" <==> s == ""
  {
    if s != "" {
      EscapedIsPlain(s[1..]);
    }
  }

  // ---------------------------------------------------------------- tokens

  datatype Item =
    | Decl(content: string)
    | Open(tag: string)
    | Close(tag: string)
    | Text(text: string)

  /** What stands between `<` and `>`. */
  function Markup(inner: string): Option<Item> {
    if inner == "" then None
    else if inner[0] == '/' then Some(Close(inner[1..]))
    else if inner[0] == '?' || inner[0] == '!' then Some(Decl(inner))
    else Some(Open(inner))
  }

  /** The first item and the length of its text. */
  function FirstItem(xml: string): (r: Option<(Item, nat)>)
    requires xml != ""
    ensures r.Some? ==> 0 < r.value.1 <= |xml|
  {
    if xml[0] == '<' then
      var k := Seqs.IndexOf(xml, '>');
      if k == |xml| then None
      else
        var m := Markup(xml[1..k]);
        if m.None? then None else Some((m.value, k + 1))
    else
      var k := Seqs.IndexOf(xml, '<');
      var t := Unescape(xml[..k]);
      if t.None? then None else Some((Text(t.value), k))
  }

  function Tokenize(xml: string): Option<seq<Item>>
    decreases |xml|
  {
    if xml == "" then Some([])
    else
      var first := FirstItem(xml);
      if first.None? then None
      else
        var rest := Tokenize(xml[first.value.1..]);
        if rest.None? then None else Some([first.value.0] + rest.value)
  }

  // ---------------------------------------------------------------- writing tokens

  function Write(item: Item): string {
    match item
    case Decl(content) => "<" + content + ">"
    case Open(tag) => "<" + tag + ">"
    case Close(tag) => "</" + tag + ">"
    case Text(text) => Escape(text)
  }

  function WriteAll(items: seq<Item>): string {
    if items == [] then "" else Write(items[0]) + WriteAll(items[1..])
  }

  predicate PlainTag(tag: string) {
    forall i :: 0 <= i < |tag| ==> tag[i] != '>'
  }

  predicate ItemOk(item: Item) {
    match item
    case Decl(content) => content != "" && (content[0] == '?' || content[0] == '!') && PlainTag(content)
    case Open(tag) => tag != "" && tag[0] != '/' && tag[0] != '?' && tag[0] != '!' && PlainTag(tag)
    case Close(tag) => PlainTag(tag)
    case Text(text) => text != ""
  }

  /** Items that a tokenizer can tell apart: no text follows a text. */
  predicate ItemsOk(items: seq<Item>) {
    forall i :: 0 <= i < |items| ==>
      ItemOk(items[i]) && (i + 1 < |items| && items[i].Text? ==> !items[i + 1].Text?)
  }

  /** The items end and begin so that they can be put together. */
  predicate Joins(a: seq<Item>, b: seq<Item>) {
    a == [] || b == [] || !a[|a| - 1].Text? || !b[0].Text?
  }

  lemma JoinIsOk(a: seq<Item>, b: seq<Item>)
    requires ItemsOk(a) && ItemsOk(b) && Joins(a, b)
    ensures ItemsOk(a + b)
  {
  }

  lemma {:induction false} WriteAppend(a: seq<Item>, b: seq<Item>)
    ensures WriteAll(a + b) == WriteAll(a) + WriteAll(b)
  {
    if a == [] {
      assert a + b == b;
    } else {
      assert (a + b)[1..] == a[1..] + b;
      WriteAppend(a[1..], b);
      Seqs.Assoc(Write(a[0]), WriteAll(a[1..]), WriteAll(b));
    }
  }

  lemma MarkupIs(inner: string, after: string)
    requires PlainTag(inner)
    ensures var xml := "<" + inner + ">" + after;
      Seqs.IndexOf(xml, '>') == |inner| + 1 && xml[1..|inner| + 1] == inner && xml[|inner| + 2..] == after
  {
    var xml := "<" + inner + ">" + after;
    assert xml[|inner| + 1] == '>';
    assert forall i :: 0 < i <= |inner| ==> xml[i] == inner[i - 1];
  }

  lemma TextIs(text: string, after: string)
    requires forall i :: 0 <= i < |text| ==> text[i] != '<'
    requires after == "" || after[0] == '<'
    ensures Seqs.IndexOf(text + after, '<') == |text|
    ensures (text + after)[..|text|] == text && (text + after)[|text|..] == after
  {
    assert forall i :: 0 <= i < |text| ==> (text + after)[i] == text[i];
    if after != "" {
      assert (text + after)[|text|] == '<';
    }
  }

  /** The tokenizer finds a written item, when what follows a text is markup. */
  lemma FirstIs(item: Item, after: string)
    requires ItemOk(item)
    requires item.Text? ==> after == "" || after[0] == '<'
    ensures Write(item) != ""
    ensures FirstItem(Write(item) + after) == Some((item, |Write(item)|))
  {
    match item
    case Text(text) =>
      EscapedIsPlain(text);
      UnescapeEscape(text);
      TextIs(Escape(text), after);
    case Decl(content) => MarkupIs(content, after);
    case Open(tag) => MarkupIs(tag, after);
    case Close(tag) =>
      MarkupIs("/" + tag, after);
      assert "</" + tag + ">" == "<" + ("/" + tag) + ">";
  }

  /** Tokenizing what was written gives back the items. */
  lemma {:induction false} TokenizeWritten(items: seq<Item>)
    requires ItemsOk(items)
    ensures Tokenize(WriteAll(items)) == Some(items)
  {
    if items != [] {
      var rest := items[1..];
      TokenizeWritten(rest);
      if rest != [] && items[0].Text? {
        assert !rest[0].Text?;
        assert WriteAll(rest)[0] == '<';
      }
      FirstIs(items[0], WriteAll(rest));
      assert (Write(items[0]) + WriteAll(rest))[|Write(items[0])|..] == WriteAll(rest);
      assert [items[0]] + rest == items;
    }
  }
}
