/**
 The writer of the audit log. It resumes the chain from the tail of the file, appends one record a call
 and remembers the number and hash of the last record it wrote. The claims are about every run of
 writes, failed writes and restarts.
 */
module AuditLog {
  import opened Wrappers
  import opened Bytes
  import opened LogLines
  import opened AuditChain
  import opened Peers
  import Seqs

  /** What a caller reports. */
  datatype Entry = Entry(time: string, keyLabel: string, success: bool, error: string, peer: Peer)

  /** What is written: the entry with its place in the chain. */
  datatype Record = Record(index: nat, prev: string, entry: Entry)

  /**
   The JSON encoder and the decoders. `seedIndex` is the number a restarting logger reads, also from a line
   that does not decode; the standard decoder leaves it at whatever it had stored. `read` is what a reader of
   the log sees of a line.
   */
  datatype Format = Format(
    chain: Codec,
    encode: Record -> Option<Line>,
    seedIndex: Line -> nat,
    read: Line -> Option<Record>)
  {
    /** Encoding gives one line that decodes to what was encoded; a hash is never the empty string. */
    ghost predicate Sound() {
      && (forall line: Line :: chain.hash(line) != "")
      && (forall line: Line :: chain.parse(line).Some? ==> seedIndex(line) == chain.parse(line).value.index)
      && (forall r: Record :: encode(r).Some? ==>
            && var line := encode(r).value;
            && line != [] && NL !in line && line[|line| - 1] != CR
            && chain.parse(line) == Some(Fields(r.index, r.prev))
            && read(line) == Some(r))
    }
  }

  /** The file and what the logger remembers of it. */
  datatype Log = Log(file: seq<byte>, index: nat, prev: string)

  datatype Op = Sign(entry: Entry, writes: bool) | Reopen

  // ---------------------------------------------------------------- specification

  function Open(f: Format, file: seq<byte>): Log {
    var last := TailLine(file);
    if last == [] then Log(file, 0, GENESIS) else Log(file, f.seedIndex(last), f.chain.hash(last))
  }

  function Encoded(f: Format, s: Log, e: Entry): Option<Line> {
    f.encode(Record(s.index + 1, s.prev, e))
  }

  predicate Succeeds(f: Format, s: Log, op: Op) {
    op.Sign? && op.writes && Encoded(f, s, op.entry).Some?
  }

  function Step(f: Format, s: Log, op: Op): Log {
    if op == Reopen then Open(f, s.file)
    else if Succeeds(f, s, op) then
      var line := Encoded(f, s, op.entry).value;
      Log(s.file + line + [NL], s.index + 1, f.chain.hash(line))
    else s
  }

  function Run(f: Format, s: Log, ops: seq<Op>): Log {
    if ops == [] then s else Step(f, Run(f, s, ops[..|ops| - 1]), ops[|ops| - 1])
  }

  /** How many writes of the run succeed. */
  function Signs(f: Format, s: Log, ops: seq<Op>): nat {
    if ops == [] then 0
    else
      var before := ops[..|ops| - 1];
      Signs(f, s, before) + if Succeeds(f, Run(f, s, before), ops[|ops| - 1]) then 1 else 0
  }

  /** What the successful writes of the run were to report, in order. */
  function Reported(f: Format, s: Log, ops: seq<Op>): seq<Entry> {
    if ops == [] then []
    else
      var before, op := ops[..|ops| - 1], ops[|ops| - 1];
      Reported(f, s, before) + if Succeeds(f, Run(f, s, before), op) then [op.entry] else []
  }

  /** Every record the run writes is short enough for a restart to read back. */
  predicate RunFits(f: Format, s: Log, ops: seq<Op>) {
    ops == [] ||
    (var before, op := ops[..|ops| - 1], ops[|ops| - 1];
     && RunFits(f, s, before)
     && (Succeeds(f, Run(f, s, before), op) ==> |Encoded(f, Run(f, s, before), op.entry).value| + 1 <= TAIL))
  }

  /** The number read back from the last line continues the chain. */
  predicate SeedsRight(f: Format, lines: seq<Line>) {
    lines == [] || LastIndex(f.chain, lines) == 0 || f.seedIndex(lines[|lines| - 1]) == LastIndex(f.chain, lines)
  }

  /** A file whose lines are whole and whose last line a restart can read back. */
  predicate Readable(file: seq<byte>) {
    && Terminated(file) && !Overlong(file) && TailFits(file)
    && (LastRaw(file) != [] ==> LastRaw(file)[|LastRaw(file)| - 1] != CR)
  }

  /** A log that a logger can be started on. */
  predicate Startable(f: Format, file: seq<byte>) {
    && Readable(file)
    && Accepts(f.chain, Records(file))
    && SeedsRight(f, Records(file))
  }

  /** What holds between any two calls. */
  predicate Good(f: Format, s: Log) {
    && Startable(f, s.file)
    && s.prev == PrevHash(f.chain, Records(s.file))
    && (LastIndex(f.chain, Records(s.file)) == 0 || s.index == LastIndex(f.chain, Records(s.file)))
  }

  // ---------------------------------------------------------------- one step

  lemma {:induction false} RecordsNonEmpty(file: seq<byte>)
    ensures [] !in Records(file)
    decreases |file|
  {
    if file != [] {
      RecordsNonEmpty(AfterFirst(file));
    }
  }

  /** The number that the last line gives to a restarting logger. */
  function LastSeed(f: Format, lines: seq<Line>): nat {
    if lines == [] then 0 else f.seedIndex(lines[|lines| - 1])
  }

  /** What opening takes over from the tail, given the records it is the last of. */
  lemma OpenTakes(f: Format, file: seq<byte>, lines: seq<Line>)
    requires [] !in lines && TailLine(file) == if lines == [] then [] else lines[|lines| - 1]
    ensures Open(f, file).prev == PrevHash(f.chain, lines)
    ensures Open(f, file).index == LastSeed(f, lines)
    ensures Open(f, file).file == file
  {
    assert lines == [] || lines[|lines| - 1] in lines;
  }

  lemma RecordsAndTail(file: seq<byte>) returns (lines: seq<Line>)
    requires Readable(file)
    ensures lines == Records(file)
    ensures [] !in lines && TailLine(file) == if lines == [] then [] else lines[|lines| - 1]
  {
    TailLineIsLastRecord(file);
    RecordsNonEmpty(file);
    lines := Records(file);
  }

  /** Opening finds the last record the verifier sees. */
  lemma OpenReadsLastRecord(f: Format, file: seq<byte>)
    requires Readable(file)
    ensures var lines := Records(file);
      && Open(f, file).prev == PrevHash(f.chain, lines)
      && Open(f, file).index == LastSeed(f, lines)
  {
    var lines := RecordsAndTail(file);
    OpenTakes(f, file, lines);
  }

  lemma OpenIsGood(f: Format, file: seq<byte>)
    requires Startable(f, file)
    ensures Good(f, Open(f, file))
  {
    OpenReadsLastRecord(f, file);
    assert Open(f, file).file == file;
  }

  /** A record written from a good state follows the log's records and leaves a good state. */
  lemma SignIsGood(f: Format, s: Log, op: Op)
    requires f.Sound() && Good(f, s) && Succeeds(f, s, op)
    requires |Encoded(f, s, op.entry).value| + 1 <= TAIL
    ensures var line := Encoded(f, s, op.entry).value;
      && Records(Step(f, s, op).file) == Records(s.file) + [line]
      && Chained(f.chain, line) && f.chain.parse(line).value.index == s.index + 1
      && f.read(line).Some? && f.read(line).value.entry == op.entry
    ensures Good(f, Step(f, s, op))
  {
    var c, lines, line := f.chain, Records(s.file), Encoded(f, s, op.entry).value;
    RecordsAppendLine(s.file, line);
    LastRawAppendLine(s.file, line);
    PrevIsNotEmpty(f, lines);
    AcceptsExtend(c, lines, line);
    FoldsExtend(c, lines, line);
  }

  lemma PrevIsNotEmpty(f: Format, lines: seq<Line>)
    requires f.Sound()
    ensures PrevHash(f.chain, lines) != ""
  {
  }

  // ---------------------------------------------------------------- whole runs

  /** `t` is what `s` became by appending the chained records `added`, numbered without gaps. */
  predicate Appended(f: Format, s: Log, t: Log, added: seq<Line>) {
    && Records(t.file) == Records(s.file) + added
    && t.index == s.index + |added|
    && FullyChained(f.chain, added)
    && (forall i :: 0 <= i < |added| ==> f.chain.parse(added[i]).value.index == s.index + 1 + i)
  }

  /** A restart reads back the number the logger had reached. */
  lemma ReopenKeepsIndex(f: Format, s: Log, t: Log, added: seq<Line>)
    requires f.Sound() && Good(f, s) && Good(f, t)
    requires s == Open(f, s.file)
    requires Appended(f, s, t, added)
    ensures Good(f, Open(f, t.file))
    ensures Open(f, t.file).index == t.index
  {
    OpenIsGood(f, t.file);
    OpenReadsLastRecord(f, t.file);
    OpenReadsLastRecord(f, s.file);
    SeedOfAppended(f, s.index, Records(s.file), added, Records(t.file));
  }

  /** The last of the added records says how many there are. */
  lemma SeedOfAppended(f: Format, index: nat, lines: seq<Line>, added: seq<Line>, all: seq<Line>)
    requires f.Sound() && all == lines + added && index == LastSeed(f, lines)
    requires FullyChained(f.chain, added)
    requires forall i :: 0 <= i < |added| ==> f.chain.parse(added[i]).value.index == index + 1 + i
    ensures LastSeed(f, all) == index + |added|
  {
    if added == [] {
      assert all == lines;
    } else {
      assert all[|all| - 1] == added[|added| - 1];
      assert Chained(f.chain, added[|added| - 1]);
    }
  }

  lemma AppendedOneMore(f: Format, s: Log, t: Log, t': Log, earlier: seq<Line>, line: Line)
    requires Appended(f, s, t, earlier)
    requires Records(t'.file) == Records(t.file) + [line]
    requires t'.index == t.index + 1
    requires Chained(f.chain, line) && f.chain.parse(line).value.index == t'.index
    ensures Appended(f, s, t', earlier + [line])
  {
    Seqs.Assoc(Records(s.file), earlier, [line]);
  }

  /** The lines tell the entries, one each. */
  predicate Tells(f: Format, lines: seq<Line>, entries: seq<Entry>) {
    |lines| == |entries| &&
    forall i :: 0 <= i < |lines| ==> f.read(lines[i]).Some? && f.read(lines[i]).value.entry == entries[i]
  }

  lemma TellsOneMore(f: Format, lines: seq<Line>, entries: seq<Entry>, line: Line, entry: Entry)
    requires Tells(f, lines, entries) && f.read(line).Some? && f.read(line).value.entry == entry
    ensures Tells(f, lines + [line], entries + [entry])
  {
  }

  lemma StepAppends(f: Format, s: Log, t: Log, earlier: seq<Line>, op: Op) returns (added: seq<Line>)
    requires f.Sound() && Good(f, s) && Good(f, t)
    requires s == Open(f, s.file)
    requires Appended(f, s, t, earlier)
    requires Succeeds(f, t, op) ==> |Encoded(f, t, op.entry).value| + 1 <= TAIL
    ensures Good(f, Step(f, t, op)) && Appended(f, s, Step(f, t, op), added)
    ensures |added| == |earlier| + if Succeeds(f, t, op) then 1 else 0
    ensures if Succeeds(f, t, op)
            then forall told :: Tells(f, earlier, told) ==> Tells(f, added, told + [op.entry])
            else added == earlier
  {
    added := earlier;
    if Succeeds(f, t, op) {
      var line := Encoded(f, t, op.entry).value;
      SignIsGood(f, t, op);
      added := earlier + [line];
      forall told | Tells(f, earlier, told) ensures Tells(f, added, told + [op.entry]) {
        TellsOneMore(f, earlier, told, line, op.entry);
      }
      AppendedOneMore(f, s, t, Step(f, t, op), earlier, line);
    } else if op == Reopen {
      ReopenKeepsIndex(f, s, t, added);
    }
  }

  /**
   Good states are kept, and the run appends one chained record a success, numbered without gaps, in which a
   reader finds what was to be reported.
   */
  lemma {:induction false} RunAppends(f: Format, s: Log, ops: seq<Op>) returns (added: seq<Line>)
    requires f.Sound() && Good(f, s) && RunFits(f, s, ops)
    requires s == Open(f, s.file)
    ensures Good(f, Run(f, s, ops))
    ensures Appended(f, s, Run(f, s, ops), added) && |added| == Signs(f, s, ops)
    ensures Tells(f, added, Reported(f, s, ops))
  {
    if ops == [] {
      added := [];
      assert Records(s.file) + [] == Records(s.file);
    } else {
      var before := ops[..|ops| - 1];
      var earlier := RunAppends(f, s, before);
      added := StepAppends(f, s, Run(f, s, before), earlier, ops[|ops| - 1]);
      assert Reported(f, s, before) + [] == Reported(f, s, before);
    }
  }

  lemma {:induction false} ChainedCountAppend(c: Codec, lines: seq<Line>, added: seq<Line>)
    requires FullyChained(c, added)
    ensures ChainedCount(c, lines + added) == ChainedCount(c, lines) + |added|
  {
    if added == [] {
      assert lines + added == lines;
    } else {
      var before, last := added[..|added| - 1], added[|added| - 1];
      ChainedCountAppend(c, lines, before);
      Seqs.Assoc(lines, before, [last]);
      assert before + [last] == added;
      FoldsExtend(c, lines + before, last);
    }
  }

  /**
   Over every run of writes, failed writes and restarts, the verifier finds the chain intact and counts
   the chained records of the start and one for every successful write.
   */
  lemma RunVerifies(f: Format, file: seq<byte>, ops: seq<Op>)
    requires f.Sound() && Startable(f, file) && RunFits(f, Open(f, file), ops)
    ensures var s := Open(f, file); var end := Run(f, s, ops).file;
      && !Overlong(end) && Accepts(f.chain, Records(end))
      && |Records(end)| == |Records(file)| + Signs(f, s, ops)
      && ChainedCount(f.chain, Records(end)) == ChainedCount(f.chain, Records(file)) + Signs(f, s, ops)
  {
    OpenIsGood(f, file);
    var added := RunAppends(f, Open(f, file), ops);
    ChainedCountAppend(f.chain, Records(file), added);
  }

  /** The lines that a run adds to the log tell, one each and in order, what its successful writes were to report. */
  lemma RunTells(f: Format, file: seq<byte>, ops: seq<Op>) returns (added: seq<Line>)
    requires f.Sound() && Startable(f, file) && RunFits(f, Open(f, file), ops)
    ensures Records(Run(f, Open(f, file), ops).file) == Records(file) + added
    ensures Tells(f, added, Reported(f, Open(f, file), ops))
  {
    OpenIsGood(f, file);
    added := RunAppends(f, Open(f, file), ops);
  }

  /** Empty logs, logs from before the chain, and intact logs that end in a chained record can be resumed. */
  lemma StartCases(f: Format, file: seq<byte>)
    requires f.Sound() && Readable(file) && Accepts(f.chain, Records(file))
    requires var lines := Records(file);
      || lines == []
      || (forall i :: 0 <= i < |lines| ==> !Chained(f.chain, lines[i]))
      || Chained(f.chain, lines[|lines| - 1])
    ensures Startable(f, file)
  {
    StartOnLines(f, Records(file));
  }

  lemma StartOnLines(f: Format, lines: seq<Line>)
    requires f.Sound()
    requires
      || lines == []
      || (forall i :: 0 <= i < |lines| ==> !Chained(f.chain, lines[i]))
      || Chained(f.chain, lines[|lines| - 1])
    ensures SeedsRight(f, lines)
  {
    if forall i :: 0 <= i < |lines| ==> !Chained(f.chain, lines[i]) {
      LegacyOnly(f.chain, lines);
    }
  }

  /**
   Resuming an intact log keeps it intact exactly when the number read back from the last line is that of
   the last chained record, or there is no numbered record yet.
   */
  lemma ResumeCondition(f: Format, file: seq<byte>, e: Entry)
    requires f.Sound() && Readable(file) && Accepts(f.chain, Records(file))
    requires Succeeds(f, Open(f, file), Sign(e, true))
    ensures Accepts(f.chain, Records(Step(f, Open(f, file), Sign(e, true)).file)) <==> SeedsRight(f, Records(file))
  {
    var line := Encoded(f, Open(f, file), e).value;
    OpenReadsLastRecord(f, file);
    AcceptsWritten(f.chain, file, line);
    PrevIsNotEmpty(f, Records(file));
  }

  /** A line written to an intact log keeps it intact exactly when it may follow the log's records. */
  lemma AcceptsWritten(c: Codec, file: seq<byte>, line: Line)
    requires Terminated(file) && Accepts(c, Records(file))
    requires line != [] && NL !in line && line[|line| - 1] != CR
    ensures Accepts(c, Records(file + line + [NL])) <==> LineOk(c, Records(file), line)
  {
    RecordsAppendLine(file, line);
    AcceptsExtend(c, Records(file), line);
  }

  /** The log is intact and ends in a record from before the chain, and the first write after a restart breaks it. */
  ghost predicate BreaksOnResume(f: Format, file: seq<byte>, e: Entry) {
    var lines := Records(file);
    && f.Sound() && Readable(file) && Accepts(f.chain, lines)
    && lines != [] && !Chained(f.chain, lines[|lines| - 1])
    && Succeeds(f, Open(f, file), Sign(e, true))
    && !Accepts(f.chain, Records(Step(f, Open(f, file), Sign(e, true)).file))
  }

  lemma TwoRecords(first: Line, second: Line) returns (file: seq<byte>)
    requires first != [] && NL !in first && first[|first| - 1] != CR && |first| < TAIL
    requires second != [] && NL !in second && second[|second| - 1] != CR && |second| < TAIL
    ensures Records(file) == [first, second] && Readable(file)
  {
    var one := first + [NL];
    OneRecord(first, [NL]);
    OverlongOfLine(first);
    file := SecondRecord(one, first, second);
  }

  lemma SecondRecord(one: seq<byte>, first: Line, second: Line) returns (file: seq<byte>)
    requires Records(one) == [first] && Terminated(one) && !Overlong(one)
    requires second != [] && NL !in second && second[|second| - 1] != CR && |second| < TAIL
    ensures Records(file) == [first, second] && Readable(file)
  {
    file := one + second + [NL];
    RecordsAppendLine(one, second);
    ReadableAfter(one, second);
    assert [first] + [second] == [first, second];
  }

  lemma ReadableAfter(file: seq<byte>, line: Line)
    requires Terminated(file) && !Overlong(file)
    requires line != [] && NL !in line && line[|line| - 1] != CR && |line| < TAIL
    ensures Readable(file + line + [NL])
  {
    RecordsAppendLine(file, line);
    LastRawAppendLine(file, line);
    ReadableIs(file + line + [NL], line);
  }

  lemma ReadableIs(file: seq<byte>, line: Line)
    requires Terminated(file) && !Overlong(file) && TailFits(file) && LastRaw(file) == line
    requires line != [] && line[|line| - 1] != CR
    ensures Readable(file)
  {
  }

  /** It happens: one chained record, then one from before the chain, then a restart and a write. */
  lemma LegacyAfterChained(e: Entry)
    ensures exists f: Format, file: seq<byte> :: BreaksOnResume(f, file, e)
  {
    var first: Line, legacy: Line, next: Line := [67], [76], [82];
    var f := LegacyFormat(first, next, e);
    var file := TwoRecords(first, legacy);
    LegacyFormatIsSound(first, next, e);
    assert f.chain.parse(legacy) == Some(Fields(0, "")) && f.seedIndex(legacy) == 0;
    LegacyEncodes(first, next, e);
    LegacyBreaks(f, file, first, legacy, e);
  }

  lemma LegacyBreaks(f: Format, file: seq<byte>, first: Line, legacy: Line, e: Entry)
    requires f.Sound() && Readable(file) && Records(file) == [first, legacy]
    requires f.chain.parse(first) == Some(Fields(1, GENESIS)) && f.chain.parse(legacy) == Some(Fields(0, ""))
    requires f.seedIndex(legacy) == 0 && f.encode(Record(1, f.chain.hash(legacy), e)).Some?
    ensures BreaksOnResume(f, file, e)
  {
    LegacyIsAccepted(f, first, legacy);
    OpenReadsLastRecord(f, file);
    ResumeCondition(f, file, e);
  }

  /** A format with one chained record, `first`, and one that it writes, `next`; all else is from before the chain. */
  ghost function LegacyFormat(first: Line, next: Line, e: Entry): Format {
    var fields := (l: Line) =>
      if l == first then Fields(1, GENESIS) else if l == next then Fields(1, "h") else Fields(0, "");
    Format(
      Codec(_ => "h", (l: Line) => Some(fields(l))),
      (r: Record) => if r == Record(1, "h", e) then Some(next) else None,
      (l: Line) => fields(l).index,
      _ => Some(Record(1, "h", e)))
  }

  lemma LegacyFormatIsSound(first: Line, next: Line, e: Entry)
    requires first != next && next != [] && NL !in next && next[|next| - 1] != CR
    ensures LegacyFormat(first, next, e).Sound()
  {
  }

  lemma LegacyEncodes(first: Line, next: Line, e: Entry)
    ensures var f := LegacyFormat(first, next, e);
      forall line: Line :: f.encode(Record(1, f.chain.hash(line), e)) == Some(next)
  {
  }

  lemma LegacyIsAccepted(f: Format, first: Line, legacy: Line)
    requires f.chain.parse(first) == Some(Fields(1, GENESIS)) && f.chain.parse(legacy) == Some(Fields(0, ""))
    requires f.seedIndex(legacy) == 0
    ensures Accepts(f.chain, [first, legacy]) && !SeedsRight(f, [first, legacy])
  {
    var none: seq<Line> := [];
    AcceptsExtend(f.chain, none, first);
    AcceptsExtend(f.chain, [first], legacy);
    FoldsExtend(f.chain, none, first);
    FoldsExtend(f.chain, [first], legacy);
    assert none + [first] == [first] && [first] + [legacy] == [first, legacy];
  }

  // ---------------------------------------------------------------- the logger

  /** The file on disk; it outlives the logger. */
  class LogFile {
    var bytes: seq<byte>

    constructor (bytes: seq<byte>)
      ensures this.bytes == bytes
    {
      this.bytes := bytes;
    }
  }

  class AuditLogger {
    const format: Format
    const file: LogFile
    var index: nat
    var prevHash: string

    ghost function State(): Log
      reads this, file
    {
      Log(file.bytes, index, prevHash)
    }

    /** Continues the chain that is in the file. */
    constructor (format: Format, file: LogFile)
      ensures this.format == format && this.file == file
      ensures State() == Open(format, file.bytes)
    {
      var last := ReadLastLine(file.bytes);
      this.format := format;
      this.file := file;
      if |last| == 0 {
        index, prevHash := 0, GENESIS;
      } else {
        index, prevHash := format.seedIndex(last), format.chain.hash(last);
      }
    }

    /** Appends one record; nothing changes when it cannot be encoded or written. */
    method Sign(entry: Entry, writes: bool) returns (written: bool)
      modifies this, file
      ensures State() == Step(format, old(State()), Op.Sign(entry, writes))
      ensures written == Succeeds(format, old(State()), Op.Sign(entry, writes))
    {
      var record := Record(index + 1, prevHash, entry);
      var encoded := format.encode(record);
      if encoded.None? {
        return false;
      }
      var line := encoded.value;
      var out := line + [NL];
      if !writes {
        return false;
      }
      assert file.bytes + line + [NL] == file.bytes + out;
      file.bytes := file.bytes + out;
      index := record.index;
      prevHash := format.chain.hash(line);
      return true;
    }
  }
}
