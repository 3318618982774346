/** Property lists: values, the layout they are printed in, and a reader that recovers them. */
module PlistValues {
  import opened Wrappers
  import opened PlistXml
  import Seqs

  datatype Value =
    | Str(text: string)
    | Num(text: string)
    | Bool(b: bool)
    | Arr(items: seq<Value>)
    | Dict(entries: seq<Entry>)

  datatype Entry = Entry(key: string, value: Value)

  // ---------------------------------------------------------------- layout

  function Indent(n: nat): string {
    if n == 0 then "" else "  " + Indent(n - 1)
  }

  /** A new line, indented by `n` steps. */
  function Line(n: nat): string {
    "\n" + Indent(n)
  }

  function TextIf(text: string): seq<Item> {
    if text == "" then [] else [Text(text)]
  }

  function Leaf(tag: string, text: string): seq<Item> {
    [Open(tag)] + TextIf(text) + [Close(tag)]
  }

  function BoolTag(b: bool): string {
    if b then "true/" else "false/"
  }

  /** The items of a value whose first line is already indented. */
  function Emit(v: Value, n: nat): seq<Item>
    decreases v, 1
  {
    match v
    case Str(text) => Leaf("string", text)
    case Num(text) => Leaf("integer", text)
    case Bool(b) => [Open(BoolTag(b))]
    case Arr(items) => [Open("array")] + EmitItems(items, n + 1) + [Text(Line(n)), Close("array")]
    case Dict(entries) => [Open("dict")] + EmitEntries(entries, n + 1) + [Text(Line(n)), Close("dict")]
  }

  function EmitItems(items: seq<Value>, n: nat): seq<Item>
    decreases items, 0
  {
    if items == [] then []
    else [Text(Line(n))] + (Emit(items[0], n) + EmitItems(items[1..], n))
  }

  /** One entry's key and value on lines of their own, and what follows them. */
  function EntryItems(n: nat, key: seq<Item>, value: seq<Item>, more: seq<Item>): seq<Item> {
    [Text(Line(n))] + (key + ([Text(Line(n))] + (value + more)))
  }

  function EmitEntries(entries: seq<Entry>, n: nat): seq<Item>
    decreases entries, 0
  {
    if entries == [] then []
    else
      var e := entries[0];
      EntryItems(n, Leaf("key", e.key), Emit(e.value, n), EmitEntries(entries[1..], n))
  }

  // ---------------------------------------------------------------- the reader

  predicate IsBlank(s: string) {
    forall i :: 0 <= i < |s| ==> s[i] == ' ' || s[i] == '\n' || s[i] == '\t'
  }

  function SkipBlank(items: seq<Item>): (rest: seq<Item>)
    ensures |rest| <= |items|
  {
    if items != [] && items[0].Text? && IsBlank(items[0].text) then items[1..] else items
  }

  /** The text of a leaf whose opening tag has been read. */
  function ReadText(items: seq<Item>, tag: string): (r: Option<(string, seq<Item>)>)
    ensures r.Some? ==> |r.value.1| < |items|
  {
    if items != [] && items[0] == Close(tag) then Some(("", items[1..]))
    else if |items| > 1 && items[0].Text? && items[1] == Close(tag) then Some((items[0].text, items[2..]))
    else None
  }

  function ReadValue(items: seq<Item>): (r: Option<(Value, seq<Item>)>)
    ensures r.Some? ==> |r.value.1| < |items|
    decreases |items|, 1
  {
    if items == [] || !items[0].Open? then None
    else
      var tag, rest := items[0].tag, items[1..];
      if tag == "true/" then Some((Bool(true), rest))
      else if tag == "false/" then Some((Bool(false), rest))
      else if tag == "string" || tag == "integer" then
        var t := ReadText(rest, tag);
        if t.None? then None
        else Some((if tag == "string" then Str(t.value.0) else Num(t.value.0), t.value.1))
      else if tag == "array" then
        var t := ReadItems(rest);
        if t.None? then None else Some((Arr(t.value.0), t.value.1))
      else if tag == "dict" then
        var t := ReadEntries(rest);
        if t.None? then None else Some((Dict(t.value.0), t.value.1))
      else None
  }

  function ReadItems(items0: seq<Item>): (r: Option<(seq<Value>, seq<Item>)>)
    ensures r.Some? ==> |r.value.1| < |items0|
    decreases |items0|, 2
  {
    var items := SkipBlank(items0);
    if items != [] && items[0] == Close("array") then Some(([], items[1..]))
    else
      var first := ReadValue(items);
      if first.None? then None
      else
        var rest := ReadItems(first.value.1);
        if rest.None? then None else Some(([first.value.0] + rest.value.0, rest.value.1))
  }

  function ReadEntries(items0: seq<Item>): (r: Option<(seq<Entry>, seq<Item>)>)
    ensures r.Some? ==> |r.value.1| < |items0|
    decreases |items0|, 2
  {
    var items := SkipBlank(items0);
    if items != [] && items[0] == Close("dict") then Some(([], items[1..]))
    else if items == [] || items[0] != Open("key") then None
    else
      var key := ReadText(items[1..], "key");
      if key.None? then None
      else
        var value := ReadValue(SkipBlank(key.value.1));
        if value.None? then None
        else
          var rest := ReadEntries(value.value.1);
          if rest.None? then None
          else Some(([Entry(key.value.0, value.value.0)] + rest.value.0, rest.value.1))
  }

  // ---------------------------------------------------------------- reading what was emitted

  /** Blank text that is written as it is. */
  predicate PlainBlank(s: string) {
    IsBlank(s) && Escape(s) == s && LegalText(s)
  }

  lemma SpaceBefore(s: string)
    requires PlainBlank(s)
    ensures PlainBlank(" " + s)
  {
    assert (" " + s)[1..] == s;
  }

  lemma {:induction false} IndentIsBlank(n: nat)
    ensures PlainBlank(Indent(n))
  {
    if n > 0 {
      IndentIsBlank(n - 1);
      SpaceBefore(Indent(n - 1));
      SpaceBefore(" " + Indent(n - 1));
      assert Indent(n) == " " + (" " + Indent(n - 1));
    }
  }

  lemma LineIsBlank(n: nat)
    ensures IsBlank(Line(n)) && Line(n) != "" && Escape(Line(n)) == Line(n) && LegalText(Line(n))
  {
    IndentIsBlank(n);
    assert Line(n)[1..] == Indent(n);
  }

  lemma ReadLeaf(tag: string, text: string, rest: seq<Item>)
    ensures var items := Leaf(tag, text) + rest;
      items[0] == Open(tag) && ReadText(items[1..], tag) == Some((text, rest))
  {
    var items := Leaf(tag, text) + rest;
    if text == "" {
      assert items[1..] == [Close(tag)] + rest;
    } else {
      assert items[1..] == [Text(text), Close(tag)] + rest;
      assert items[1..][2..] == rest;
    }
  }

  lemma SkipLine(n: nat, rest: seq<Item>)
    ensures SkipBlank([Text(Line(n))] + rest) == rest
  {
    LineIsBlank(n);
  }

  /** The reader recovers every value from its items, whatever follows them. */
  lemma {:induction false} ReadEmitted(v: Value, n: nat, rest: seq<Item>)
    ensures ReadValue(Emit(v, n) + rest) == Some((v, rest))
    ensures Emit(v, n)[0].Open?
    decreases v, 1
  {
    match v
    case Str(text) => ReadTextValue("string", text, rest);
    case Num(text) => ReadTextValue("integer", text, rest);
    case Bool(b) =>
    case Arr(items) =>
      ReadEmittedItems(items, n + 1, n, rest);
      ReadArray(EmitItems(items, n + 1), [Text(Line(n)), Close("array")], rest);
    case Dict(entries) =>
      ReadEmittedEntries(entries, n + 1, n, rest);
      ReadDict(EmitEntries(entries, n + 1), [Text(Line(n)), Close("dict")], rest);
  }

  lemma ReadTextValue(tag: string, text: string, rest: seq<Item>)
    requires tag == "string" || tag == "integer"
    ensures ReadValue(Leaf(tag, text) + rest) == Some((if tag == "string" then Str(text) else Num(text), rest))
  {
    ReadLeaf(tag, text, rest);
  }

  lemma ReadArray(inside: seq<Item>, end: seq<Item>, rest: seq<Item>)
    ensures ReadValue([Open("array")] + inside + end + rest) ==
            var t := ReadItems(inside + (end + rest)); if t.None? then None else Some((Arr(t.value.0), t.value.1))
  {
    assert ([Open("array")] + inside + end + rest)[1..] == inside + (end + rest);
  }

  lemma ReadDict(inside: seq<Item>, end: seq<Item>, rest: seq<Item>)
    ensures ReadValue([Open("dict")] + inside + end + rest) ==
            var t := ReadEntries(inside + (end + rest)); if t.None? then None else Some((Dict(t.value.0), t.value.1))
  {
    assert ([Open("dict")] + inside + end + rest)[1..] == inside + (end + rest);
  }

  lemma ReadNoItems(none: seq<Item>, m: nat, rest: seq<Item>)
    requires none == []
    ensures ReadItems(none + ([Text(Line(m)), Close("array")] + rest)) == Some(([], rest))
  {
    assert none + ([Text(Line(m)), Close("array")] + rest) == [Text(Line(m))] + ([Close("array")] + rest);
    SkipLine(m, [Close("array")] + rest);
  }

  /** Reading one value, then the others. */
  lemma ReadNextItem(items: seq<Value>, n: nat, value: seq<Item>, more: seq<Item>, end: seq<Item>, rest: seq<Item>)
    requires items != [] && value != [] && value[0].Open?
    requires ReadValue(value + (more + end)) == Some((items[0], more + end))
    requires ReadItems(more + end) == Some((items[1..], rest))
    ensures ReadItems([Text(Line(n))] + (value + more) + end) == Some((items, rest))
  {
    Seqs.Assoc(value, more, end);
    Seqs.Assoc([Text(Line(n))], value + more, end);
    SkipLine(n, value + (more + end));
    Seqs.HeadAndTail(items);
  }

  lemma {:induction false} ReadEmittedItems(items: seq<Value>, n: nat, m: nat, rest: seq<Item>)
    ensures ReadItems(EmitItems(items, n) + ([Text(Line(m)), Close("array")] + rest)) == Some((items, rest))
    decreases items, 0
  {
    if items == [] {
      ReadNoItems(EmitItems(items, n), m, rest);
    } else {
      var value, more, end := Emit(items[0], n), EmitItems(items[1..], n), [Text(Line(m)), Close("array")] + rest;
      ReadEmitted(items[0], n, more + end);
      ReadEmittedItems(items[1..], n, m, rest);
      ReadNextItem(items, n, value, more, end, rest);
    }
  }

  lemma ReadNoEntries(none: seq<Item>, m: nat, rest: seq<Item>)
    requires none == []
    ensures ReadEntries(none + ([Text(Line(m)), Close("dict")] + rest)) == Some(([], rest))
  {
    assert none + ([Text(Line(m)), Close("dict")] + rest) == [Text(Line(m))] + ([Close("dict")] + rest);
    SkipLine(m, [Close("dict")] + rest);
  }

  lemma {:induction false} ReadEmittedEntries(entries: seq<Entry>, n: nat, m: nat, rest: seq<Item>)
    ensures ReadEntries(EmitEntries(entries, n) + ([Text(Line(m)), Close("dict")] + rest)) == Some((entries, rest))
    decreases entries, 0
  {
    if entries == [] {
      ReadNoEntries(EmitEntries(entries, n), m, rest);
    } else {
      var e, end := entries[0], [Text(Line(m)), Close("dict")] + rest;
      var value, more := Emit(e.value, n), EmitEntries(entries[1..], n);
      ReadEmitted(e.value, n, more + end);
      ReadEmittedEntries(entries[1..], n, m, rest);
      ReadNextEntry(e, n, value, more, end, entries[1..], rest);
      Seqs.HeadAndTail(entries);
    }
  }

  /** Reading one entry, then the others. */
  lemma ReadEntry(e: Entry, n: nat, value: seq<Item>, more: seq<Item>, others: seq<Entry>, rest: seq<Item>)
    requires value != [] && value[0].Open?
    requires ReadValue(value + more) == Some((e.value, more))
    requires ReadEntries(more) == Some((others, rest))
    ensures ReadEntries(EntryItems(n, Leaf("key", e.key), value, more)) == Some(([e] + others, rest))
  {
    var line, key := [Text(Line(n))], Leaf("key", e.key);
    SkipLine(n, key + (line + (value + more)));
    ReadLeaf("key", e.key, line + (value + more));
    SkipLine(n, value + more);
  }

  lemma ReadNextEntry(e: Entry, n: nat, value: seq<Item>, more: seq<Item>, end: seq<Item>, others: seq<Entry>,
                      rest: seq<Item>)
    requires value != [] && value[0].Open?
    requires ReadValue(value + (more + end)) == Some((e.value, more + end))
    requires ReadEntries(more + end) == Some((others, rest))
    ensures ReadEntries(EntryItems(n, Leaf("key", e.key), value, more) + end) == Some(([e] + others, rest))
  {
    EntryItemsAppend(n, Leaf("key", e.key), value, more, end);
    ReadEntry(e, n, value, more + end, others, rest);
  }

  lemma EntryItemsAppend(n: nat, key: seq<Item>, value: seq<Item>, more: seq<Item>, end: seq<Item>)
    ensures EntryItems(n, key, value, more) + end == EntryItems(n, key, value, more + end)
  {
    var line := [Text(Line(n))];
    Seqs.Assoc(value, more, end);
    Seqs.Assoc(line, value + more, end);
    Seqs.Assoc(key, line + (value + more), end);
    Seqs.Assoc(line, key + (line + (value + more)), end);
  }

  // ---------------------------------------------------------------- items are well formed

  predicate Closed(items: seq<Item>) {
    ItemsOk(items) && (items == [] || !items[|items| - 1].Text?)
  }

  lemma LeafIsClosed(tag: string, text: string)
    requires ItemOk(Open(tag))
    ensures Closed(Leaf(tag, text))
  {
  }

  lemma ClosedAppend(a: seq<Item>, b: seq<Item>)
    requires Closed(a) && Closed(b)
    ensures Closed(a + b)
  {
    JoinIsOk(a, b);
  }

  lemma ClosedAfterText(text: string, b: seq<Item>)
    requires text != "" && Closed(b) && b != [] && !b[0].Text?
    ensures Closed([Text(text)] + b)
  {
    JoinIsOk([Text(text)], b);
  }

  lemma {:induction false} EmitIsClosed(v: Value, n: nat)
    ensures Closed(Emit(v, n)) && Emit(v, n) != [] && Emit(v, n)[0].Open?
    decreases v, 1
  {
    match v
    case Str(text) => LeafIsClosed("string", text);
    case Num(text) => LeafIsClosed("integer", text);
    case Bool(b) =>
    case Arr(items) =>
      EmitItemsIsClosed(items, n + 1);
      WrapIsClosed("array", EmitItems(items, n + 1), n);
    case Dict(entries) =>
      EmitEntriesIsClosed(entries, n + 1);
      WrapIsClosed("dict", EmitEntries(entries, n + 1), n);
  }

  lemma WrapIsClosed(tag: string, inside: seq<Item>, n: nat)
    requires tag == "array" || tag == "dict"
    requires Closed(inside)
    ensures Closed([Open(tag)] + inside + [Text(Line(n)), Close(tag)])
  {
    ClosedAppend([Open(tag)], inside);
    ClosedAppend([Open(tag)] + inside, [Text(Line(n)), Close(tag)]);
  }

  lemma {:induction false} EmitItemsIsClosed(items: seq<Value>, n: nat)
    ensures Closed(EmitItems(items, n))
    decreases items, 0
  {
    if items != [] {
      EmitIsClosed(items[0], n);
      EmitItemsIsClosed(items[1..], n);
      ClosedAppend(Emit(items[0], n), EmitItems(items[1..], n));
      ClosedAfterText(Line(n), Emit(items[0], n) + EmitItems(items[1..], n));
    }
  }

  lemma {:induction false} EmitEntriesIsClosed(entries: seq<Entry>, n: nat)
    ensures Closed(EmitEntries(entries, n))
    decreases entries, 0
  {
    if entries != [] {
      var e, more := entries[0], EmitEntries(entries[1..], n);
      EmitIsClosed(e.value, n);
      EmitEntriesIsClosed(entries[1..], n);
      ClosedAppend(Emit(e.value, n), more);
      ClosedAfterText(Line(n), Emit(e.value, n) + more);
      LeafIsClosed("key", e.key);
      ClosedAppend(Leaf("key", e.key), [Text(Line(n))] + (Emit(e.value, n) + more));
      ClosedAfterText(Line(n), Leaf("key", e.key) + ([Text(Line(n))] + (Emit(e.value, n) + more)));
    }
  }

  // ---------------------------------------------------------------- printing

  function PrintLeaf(tag: string, text: string): string {
    "<" + tag + ">" + Escape(text) + "</" + tag + ">"
  }

  /** The text of a value whose first line is already indented. */
  function Print(v: Value, n: nat): string
    decreases v, 1
  {
    match v
    case Str(text) => PrintLeaf("string", text)
    case Num(text) => PrintLeaf("integer", text)
    case Bool(b) => "<" + BoolTag(b) + ">"
    case Arr(items) => "<array>" + PrintItems(items, n + 1) + Line(n) + "</array>"
    case Dict(entries) => "<dict>" + PrintEntries(entries, n + 1) + Line(n) + "</dict>"
  }

  function PrintItems(items: seq<Value>, n: nat): string
    decreases items, 0
  {
    if items == [] then "" else Line(n) + (Print(items[0], n) + PrintItems(items[1..], n))
  }

  /** One key and its printed value. */
  function PrintEntry(key: string, value: string, n: nat): string {
    Line(n) + (PrintLeaf("key", key) + (Line(n) + value))
  }

  function PrintEntries(entries: seq<Entry>, n: nat): string
    decreases entries, 0
  {
    if entries == [] then ""
    else PrintEntry(entries[0].key, Print(entries[0].value, n), n) + PrintEntries(entries[1..], n)
  }

  lemma WriteOne(item: Item)
    ensures WriteAll([item]) == Write(item)
  {
    assert WriteAll([item][1..]) == "";
    assert Write(item) + "" == Write(item);
  }

  lemma WriteLine(n: nat)
    ensures WriteAll([Text(Line(n))]) == Line(n)
  {
    WriteOne(Text(Line(n)));
    LineIsBlank(n);
  }

  lemma WriteLeaf(tag: string, text: string)
    ensures WriteAll(Leaf(tag, text)) == PrintLeaf(tag, text)
  {
    WriteAppend([Open(tag)] + TextIf(text), [Close(tag)]);
    WriteAppend([Open(tag)], TextIf(text));
    WriteOne(Open(tag));
    WriteOne(Close(tag));
    WriteOne(Text(text));
    assert WriteAll(TextIf(text)) == Escape(text);
    assert "<" + tag + ">" + Escape(text) + ("</" + tag + ">") == PrintLeaf(tag, text);
  }

  lemma WriteWrap(tag: string, inside: seq<Item>, n: nat)
    ensures WriteAll([Open(tag)] + inside + [Text(Line(n)), Close(tag)]) ==
            "<" + tag + ">" + WriteAll(inside) + Line(n) + ("</" + tag + ">")
  {
    Seqs.Assoc("<" + tag + ">" + WriteAll(inside), Line(n), "</" + tag + ">");
    WriteAppend([Open(tag)] + inside, [Text(Line(n)), Close(tag)]);
    WriteAppend([Open(tag)], inside);
    assert [Text(Line(n)), Close(tag)] == [Text(Line(n))] + [Close(tag)];
    WriteAppend([Text(Line(n))], [Close(tag)]);
    WriteOne(Open(tag));
    WriteOne(Close(tag));
    WriteLine(n);
  }

  lemma Tags()
    ensures "<" + "array" + ">" == "<array>" && "</" + "array" + ">" == "</array>"
    ensures "<" + "dict" + ">" == "<dict>" && "</" + "dict" + ">" == "</dict>"
  {
  }

  /** The printed text of a value is that of its items. */
  lemma {:induction false} PrintIsWritten(v: Value, n: nat)
    ensures Print(v, n) == WriteAll(Emit(v, n))
    decreases v, 1
  {
    match v
    case Str(text) => WriteLeaf("string", text);
    case Num(text) => WriteLeaf("integer", text);
    case Bool(b) => WriteOne(Open(BoolTag(b)));
    case Arr(items) =>
      PrintItemsIsWritten(items, n + 1);
      WriteWrap("array", EmitItems(items, n + 1), n);
      Tags();
    case Dict(entries) =>
      PrintEntriesIsWritten(entries, n + 1);
      WriteWrap("dict", EmitEntries(entries, n + 1), n);
      Tags();
  }

  lemma {:induction false} PrintItemsIsWritten(items: seq<Value>, n: nat)
    ensures PrintItems(items, n) == WriteAll(EmitItems(items, n))
    decreases items, 0
  {
    if items != [] {
      PrintIsWritten(items[0], n);
      PrintItemsIsWritten(items[1..], n);
      WriteLine(n);
      WriteAppend([Text(Line(n))], Emit(items[0], n) + EmitItems(items[1..], n));
      WriteAppend(Emit(items[0], n), EmitItems(items[1..], n));
    }
  }

  lemma {:induction false} PrintEntriesIsWritten(entries: seq<Entry>, n: nat)
    ensures PrintEntries(entries, n) == WriteAll(EmitEntries(entries, n))
    decreases entries, 0
  {
    if entries != [] {
      var e, more := entries[0], EmitEntries(entries[1..], n);
      var value := Emit(e.value, n);
      PrintIsWritten(e.value, n);
      PrintEntriesIsWritten(entries[1..], n);
      WriteLine(n);
      WriteLeaf("key", e.key);
      WriteAppend([Text(Line(n))], Leaf("key", e.key) + ([Text(Line(n))] + (value + more)));
      WriteAppend(Leaf("key", e.key), [Text(Line(n))] + (value + more));
      WriteAppend([Text(Line(n))], value + more);
      WriteAppend(value, more);
      Regroup(Line(n), PrintLeaf("key", e.key), Line(n), WriteAll(value), WriteAll(more));
    }
  }

  lemma Regroup(a: string, b: string, c: string, d: string, e: string)
    ensures a + (b + (c + (d + e))) == a + (b + (c + d)) + e
  {
    Seqs.Assoc(c, d, e);
    Seqs.Assoc(b, c + d, e);
    Seqs.Assoc(a, b + (c + d), e);
  }

  // ---------------------------------------------------------------- documents

  const XML_DECL := "?xml version=\"1.0\" encoding=\"UTF-8\"?"
  const DOCTYPE := DOCTYPE_NAME + (DOCTYPE_PUBLIC + (DOCTYPE_HOST + DOCTYPE_FILE))
  const DOCTYPE_NAME := "!DOCTYPE plist PUBLIC "
  const DOCTYPE_PUBLIC := "\"-//Apple//DTD PLIST 1.0//EN\" "
  const DOCTYPE_HOST := "\"http://www.apple.com/"
  const DOCTYPE_FILE := "DTDs/PropertyList-1.0.dtd\""
  const PLIST := "plist version=\"1.0\""

  function Declarations(): seq<Item> {
    [Decl(XML_DECL), Text("\n"), Decl(DOCTYPE), Text("\n")]
  }

  function Prolog(): seq<Item> {
    Declarations() + [Open(PLIST), Text("\n")]
  }

  function Epilog(): seq<Item> {
    [Text("\n"), Close("plist"), Text("\n")]
  }

  function DocumentItems(v: Value): seq<Item> {
    Prolog() + Emit(v, 0) + Epilog()
  }

  function PrintProlog(): string {
    "<" + XML_DECL + ">" + "\n" + ("<" + DOCTYPE + ">" + "\n") + ("<" + PLIST + ">" + "\n")
  }

  function PrintDocument(v: Value): string {
    PrintProlog() + Print(v, 0) + "\n</plist>\n"
  }

  function SkipProlog(items: seq<Item>): (rest: seq<Item>)
    ensures |rest| <= |items|
  {
    if items != [] && (items[0].Decl? || (items[0].Text? && IsBlank(items[0].text))) then SkipProlog(items[1..])
    else items
  }

  /** Reads the plist element. */
  function ReadRoot(items: seq<Item>): Option<Value> {
    if items == [] || !items[0].Open? || !("plist" <= items[0].tag) then None
    else
      var v := ReadValue(SkipBlank(items[1..]));
      if v.None? || !ReadEnd(SkipBlank(v.value.1)) then None else Some(v.value.0)
  }

  predicate ReadEnd(items: seq<Item>) {
    items != [] && items[0] == Close("plist") && SkipBlank(items[1..]) == []
  }

  /** Reads a document: illegal characters are an error, ends of lines are normalised, then items are read. */
  function ReadDocument(xml: string): Option<Value> {
    if !LegalText(NormalizeEol(xml)) then None
    else
      var items := Tokenize(NormalizeEol(xml));
      if items.None? then None else ReadRoot(SkipProlog(items.value))
  }

  lemma ReadDocumentItems(v: Value)
    ensures ReadRoot(SkipProlog(DocumentItems(v))) == Some(v)
  {
    var tail := Emit(v, 0) + Epilog();
    DocumentStart(Emit(v, 0), Epilog());
    SkipPrologIs([Open(PLIST)] + ([Text("\n")] + tail));
    ReadEmitted(v, 0, Epilog());
    EndIsRead();
    ReadRootIs(tail, v, Epilog());
  }

  lemma DocumentStart(body: seq<Item>, end: seq<Item>)
    ensures Prolog() + body + end == Declarations() + ([Open(PLIST)] + ([Text("\n")] + (body + end)))
  {
    var root := [Open(PLIST), Text("\n")];
    Seqs.Assoc(Prolog(), body, end);
    Seqs.Assoc(Declarations(), root, body + end);
    Seqs.Assoc([Open(PLIST)], [Text("\n")], body + end);
    assert [Open(PLIST)] + [Text("\n")] == root;
  }

  lemma ReadRootIs(tail: seq<Item>, v: Value, end: seq<Item>)
    requires tail != [] && tail[0].Open? && ReadValue(tail) == Some((v, end)) && ReadEnd(SkipBlank(end))
    ensures ReadRoot([Open(PLIST)] + ([Text("\n")] + tail)) == Some(v)
  {
    TagOfPlist();
    assert IsBlank("\n");
    assert SkipBlank([Text("\n")] + tail) == tail;
  }

  lemma EndIsRead()
    ensures ReadEnd(SkipBlank(Epilog()))
  {
    assert SkipBlank(Epilog()) == [Close("plist"), Text("\n")];
    assert SkipBlank([Text("\n")]) == [];
  }

  lemma TagOfPlist()
    ensures "plist" <= PLIST
  {
  }

  lemma SkipOne(item: Item, rest: seq<Item>)
    requires item.Decl? || item == Text("\n")
    ensures SkipProlog([item] + rest) == SkipProlog(rest)
  {
    assert ([item] + rest)[1..] == rest;
    assert IsBlank("\n");
  }

  lemma SkipPrologIs(root: seq<Item>)
    requires root != [] && root[0].Open?
    ensures SkipProlog(Declarations() + root) == root
  {
    var end := [Text("\n")] + root;
    var doctype := [Decl(DOCTYPE)] + end;
    SkipOne(Text("\n"), root);
    SkipOne(Decl(DOCTYPE), end);
    SkipOne(Text("\n"), doctype);
    SkipOne(Decl(XML_DECL), [Text("\n")] + doctype);
    assert Declarations() + root == [Decl(XML_DECL)] + ([Text("\n")] + doctype);
  }

  lemma DocumentItemsOk(v: Value)
    ensures ItemsOk(DocumentItems(v))
  {
    EmitIsClosed(v, 0);
    PrologIsOk();
    JoinIsOk(Prolog(), Emit(v, 0));
    JoinIsOk(Prolog() + Emit(v, 0), Epilog());
  }

  lemma PrologIsOk()
    ensures ItemsOk(Prolog()) && ItemsOk(Epilog())
  {
    PlainParts();
    var p := Prolog();
    assert PlainTag(DOCTYPE);
    assert Declarations() == [Decl(XML_DECL), Text("\n")] + [Decl(DOCTYPE), Text("\n")];
    JoinIsOk([Decl(XML_DECL), Text("\n")], [Decl(DOCTYPE), Text("\n")]);
    JoinIsOk([Decl(XML_DECL), Text("\n")] + [Decl(DOCTYPE), Text("\n")], [Open(PLIST), Text("\n")]);
  }

  lemma PlainParts()
    ensures PlainTag(XML_DECL) && PlainTag(PLIST)
    ensures PlainTag(DOCTYPE_NAME) && PlainTag(DOCTYPE_PUBLIC) && PlainTag(DOCTYPE_HOST) && PlainTag(DOCTYPE_FILE)
  {
  }

  // ---------------------------------------------------------------- the round trip

  /** The declarations that a printed document begins with (sections 2.8 and 4.3.3 of XML 1.0). */
  lemma PrologIs()
    ensures XML_DECL == "?xml version=\"1.0\" encoding=\"UTF-8\"?" && PLIST == "plist version=\"1.0\""
    ensures DOCTYPE == "!DOCTYPE plist PUBLIC " + ("\"-//Apple//DTD PLIST 1.0//EN\" " +
                       ("\"http://www.apple.com/" + "DTDs/PropertyList-1.0.dtd\""))
  {
  }

  lemma WritePair(item: Item)
    ensures WriteAll([item, Text("\n")]) == Write(item) + "\n"
  {
    assert [item, Text("\n")] == [item] + [Text("\n")];
    WriteAppend([item], [Text("\n")]);
    WriteOne(item);
    WriteLine(0);
    assert Line(0) == "\n";
  }

  lemma PrologIsWritten()
    ensures WriteAll(Prolog()) == PrintProlog()
  {
    var a, b, c := [Decl(XML_DECL), Text("\n")], [Decl(DOCTYPE), Text("\n")], [Open(PLIST), Text("\n")];
    assert Prolog() == a + b + c;
    WriteAppend(a + b, c);
    WriteAppend(a, b);
    WritePair(Decl(XML_DECL));
    WritePair(Decl(DOCTYPE));
    WritePair(Open(PLIST));
  }

  lemma EpilogIsWritten()
    ensures WriteAll(Epilog()) == "\n</plist>\n"
  {
    var b := [Close("plist"), Text("\n")];
    assert Epilog() == [Text("\n")] + b;
    WriteAppend([Text("\n")], b);
    WriteLine(0);
    assert Line(0) == "\n";
    WritePair(Close("plist"));
  }

  lemma DocumentIsWritten(v: Value)
    ensures PrintDocument(v) == WriteAll(DocumentItems(v))
  {
    PrologIsWritten();
    PrintIsWritten(v, 0);
    EpilogIsWritten();
    WriteAppend(Prolog() + Emit(v, 0), Epilog());
    WriteAppend(Prolog(), Emit(v, 0));
  }

  /** Every text of the value may stand in XML. */
  predicate LegalValue(v: Value) {
    match v
    case Str(text) => LegalText(text)
    case Num(text) => LegalText(text)
    case Bool(_) => true
    case Arr(items) => forall i :: 0 <= i < |items| ==> LegalValue(items[i])
    case Dict(entries) => forall i :: 0 <= i < |entries| ==> LegalText(entries[i].key) && LegalValue(entries[i].value)
  }

  lemma LegalLeaf(tag: string, text: string)
    requires LegalText(tag) && LegalText(text)
    ensures LegalText(PrintLeaf(tag, text))
  {
    EscapedIsLegal(text);
  }

  lemma {:induction false} LegalPrint(v: Value, n: nat)
    requires LegalValue(v)
    ensures LegalText(Print(v, n))
    decreases v, 1
  {
    match v
    case Str(text) => LegalLeaf("string", text);
    case Num(text) => LegalLeaf("integer", text);
    case Bool(_) =>
    case Arr(items) =>
      LegalPrintItems(items, n + 1);
      LegalArray(items, n);
    case Dict(entries) =>
      LegalPrintEntries(entries, n + 1);
      LegalDict(entries, n);
  }

  lemma LegalArray(items: seq<Value>, n: nat)
    requires LegalText(PrintItems(items, n + 1))
    ensures LegalText(Print(Arr(items), n))
  {
    LineIsBlank(n);
    LegalAppend("<array>", PrintItems(items, n + 1));
    LegalAppend("<array>" + PrintItems(items, n + 1), Line(n));
    LegalAppend("<array>" + PrintItems(items, n + 1) + Line(n), "</array>");
  }

  lemma LegalDict(entries: seq<Entry>, n: nat)
    requires LegalText(PrintEntries(entries, n + 1))
    ensures LegalText(Print(Dict(entries), n))
  {
    LineIsBlank(n);
    LegalAppend("<dict>", PrintEntries(entries, n + 1));
    LegalAppend("<dict>" + PrintEntries(entries, n + 1), Line(n));
    LegalAppend("<dict>" + PrintEntries(entries, n + 1) + Line(n), "</dict>");
  }

  lemma LegalAppend(a: string, b: string)
    requires LegalText(a) && LegalText(b)
    ensures LegalText(a + b)
  {
  }

  lemma {:induction false} LegalPrintItems(items: seq<Value>, n: nat)
    requires forall i :: 0 <= i < |items| ==> LegalValue(items[i])
    ensures LegalText(PrintItems(items, n))
    decreases items, 0
  {
    if items != [] {
      LineIsBlank(n);
      LegalPrint(items[0], n);
      LegalPrintItems(items[1..], n);
    }
  }

  lemma {:induction false} LegalPrintEntries(entries: seq<Entry>, n: nat)
    requires forall i :: 0 <= i < |entries| ==> LegalText(entries[i].key) && LegalValue(entries[i].value)
    ensures LegalText(PrintEntries(entries, n))
    decreases entries, 0
  {
    if entries != [] {
      LineIsBlank(n);
      LegalLeaf("key", entries[0].key);
      LegalPrint(entries[0].value, n);
      LegalPrintEntries(entries[1..], n);
    }
  }

  predicate Ascii(s: string) {
    forall i :: 0 <= i < |s| ==> ' ' <= s[i] <= '~'
  }

  lemma AsciiIsLegal(s: string)
    requires Ascii(s)
    ensures LegalText("<" + s + ">" + "\n")
  {
  }

  lemma AsciiTags()
    ensures Ascii(XML_DECL) && Ascii(PLIST)
  {
  }

  lemma AsciiAppend(a: string, b: string)
    requires Ascii(a) && Ascii(b)
    ensures Ascii(a + b)
  {
  }

  lemma AsciiJoin(a: string, b: string, c: string, d: string)
    requires Ascii(a) && Ascii(b) && Ascii(c) && Ascii(d)
    ensures Ascii(a + (b + (c + d)))
  {
    AsciiAppend(c, d);
    AsciiAppend(b, c + d);
  }

  lemma AsciiName()
    ensures Ascii(DOCTYPE_NAME) && Ascii(DOCTYPE_PUBLIC)
  {
  }

  lemma AsciiAddress()
    ensures Ascii(DOCTYPE_HOST) && Ascii(DOCTYPE_FILE)
  {
  }

  lemma AsciiDoctype()
    ensures Ascii(DOCTYPE)
  {
    AsciiName();
    AsciiAddress();
    AsciiJoin(DOCTYPE_NAME, DOCTYPE_PUBLIC, DOCTYPE_HOST, DOCTYPE_FILE);
  }

  lemma LegalDocument(v: Value)
    requires LegalValue(v)
    ensures LegalText(PrintDocument(v))
  {
    LegalPrint(v, 0);
    AsciiTags();
    AsciiDoctype();
    AsciiIsLegal(XML_DECL);
    AsciiIsLegal(DOCTYPE);
    AsciiIsLegal(PLIST);
    LegalAppend("<" + XML_DECL + ">" + "\n", "<" + DOCTYPE + ">" + "\n");
    LegalAppend("<" + XML_DECL + ">" + "\n" + ("<" + DOCTYPE + ">" + "\n"), "<" + PLIST + ">" + "\n");
    LegalAppend(PrintProlog(), Print(v, 0));
    LegalAppend(PrintProlog() + Print(v, 0), "\n</plist>\n");
  }

  lemma LegalIsNormal(xml: string)
    requires LegalText(xml)
    ensures NormalizeEol(xml) == xml
  {
    assert CR !in xml;
    NormalizeIsIdentity(xml);
  }

  /** Reading a printed document gives back its value, whatever legal text it holds. */
  lemma ReadPrinted(v: Value)
    requires LegalValue(v)
    ensures ReadDocument(PrintDocument(v)) == Some(v)
  {
    LegalDocument(v);
    LegalIsNormal(PrintDocument(v));
    DocumentIsWritten(v);
    DocumentItemsOk(v);
    TokenizeWritten(DocumentItems(v));
    ReadDocumentItems(v);
  }
}
