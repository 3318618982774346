/**
 The audit log as bytes: the forward scan that the verifier makes (one record a line, a trailing
 carriage return dropped, empty lines skipped) and the bounded backward scan that a restarting logger
 makes over the last 64 KiB of the file.
 */
module LogLines {
  import opened Bytes
  import Seqs

  type Line = seq<byte>

  const NL: byte := 10
  const CR: byte := 13

  /** The number of bytes of the tail that a restarting logger reads. */
  const TAIL: nat := 65536

  /** A line that fills the scanner's buffer before its newline is a scan error. */
  const SCAN_LIMIT: nat := 1048576

  // ---------------------------------------------------------------- forward scan

  /** The length of the first line of the file, without its newline. */
  function FirstLine(file: seq<byte>): (k: nat)
    ensures k <= |file|
    ensures forall i :: 0 <= i < k ==> file[i] != NL
    ensures k < |file| ==> file[k] == NL
  {
    Seqs.IndexOf(file, NL)
  }

  /** What follows the first line and its newline. */
  function AfterFirst(file: seq<byte>): (rest: seq<byte>)
    ensures file != [] ==> |rest| < |file|
  {
    var k := FirstLine(file);
    if k < |file| then file[k + 1..] else []
  }

  function DropCR(line: Line): Line {
    if line != [] && line[|line| - 1] == CR then line[..|line| - 1] else line
  }

  /** An empty line is no record. */
  function Prepend(line: Line, lines: seq<Line>): seq<Line> {
    if line == [] then lines else [line] + lines
  }

  function Head(file: seq<byte>): Line {
    DropCR(file[..FirstLine(file)])
  }

  /** The non-empty lines of a file, in order. */
  function Records(file: seq<byte>): seq<Line>
    decreases |file|
  {
    if file == [] then []
    else
      var k := FirstLine(file);
      Prepend(Head(file), if k < |file| then Records(file[k + 1..]) else [])
  }

  /** True when some line is too long for the scanner. */
  predicate Overlong(file: seq<byte>)
    decreases |file|
  {
    file != [] &&
    (var k := FirstLine(file); k >= SCAN_LIMIT || (k < |file| && Overlong(file[k + 1..])))
  }

  /** The non-empty lines before the first overlong one: all of them when there is none. */
  function Scanned(file: seq<byte>): seq<Line>
    decreases |file|
  {
    if file == [] then []
    else
      var k := FirstLine(file);
      if k >= SCAN_LIMIT then [] else Prepend(Head(file), if k < |file| then Scanned(file[k + 1..]) else [])
  }

  lemma {:induction false} ScannedIsRecords(file: seq<byte>)
    requires !Overlong(file)
    ensures Scanned(file) == Records(file)
    decreases |file|
  {
    if file != [] {
      ScannedIsRecords(AfterFirst(file));
    }
  }

  /** The scanner takes one line. */
  lemma ScannedStep(file: seq<byte>)
    requires file != [] && FirstLine(file) < SCAN_LIMIT
    ensures Scanned(file) == Prepend(Head(file), Scanned(AfterFirst(file)))
    ensures Overlong(file) == Overlong(AfterFirst(file))
  {
  }

  /** Every line of the file, the last one included, ends in a newline. */
  predicate Terminated(file: seq<byte>) {
    file == [] || file[|file| - 1] == NL
  }

  lemma FirstLineIs(file: seq<byte>, k: nat)
    requires k <= |file|
    requires forall i :: 0 <= i < k ==> file[i] != NL
    requires k < |file| ==> file[k] == NL
    ensures FirstLine(file) == k
  {
    var e := FirstLine(file);
    assert e == k;
  }

  lemma FirstLineOfPrefix(file: seq<byte>, more: seq<byte>)
    requires FirstLine(file) < |file|
    ensures FirstLine(file + more) == FirstLine(file)
    ensures AfterFirst(file + more) == AfterFirst(file) + more
    ensures Head(file + more) == Head(file)
  {
    var k := FirstLine(file);
    FirstLineIs(file + more, k);
    assert (file + more)[..k] == file[..k];
    assert (file + more)[k + 1..] == file[k + 1..] + more;
  }

  lemma PrependAppend(line: Line, lines: seq<Line>, more: seq<Line>)
    ensures Prepend(line, lines) + more == Prepend(line, lines + more)
  {
  }

  lemma RecordsFrom(file: seq<byte>)
    requires file != []
    ensures Records(file) == Prepend(Head(file), Records(AfterFirst(file)))
  {
  }

  lemma {:induction false} RecordsAppend(file: seq<byte>, more: seq<byte>)
    requires Terminated(file)
    ensures Records(file + more) == Records(file) + Records(more)
    decreases |file|
  {
    if file == [] {
      assert file + more == more;
    } else {
      FirstLineOfPrefix(file, more);
      RecordsFrom(file);
      RecordsFrom(file + more);
      RecordsAppend(AfterFirst(file), more);
      PrependAppend(Head(file), Records(AfterFirst(file)), Records(more));
    }
  }

  lemma {:induction false} OverlongAppend(file: seq<byte>, more: seq<byte>)
    requires Terminated(file)
    ensures Overlong(file + more) == (Overlong(file) || Overlong(more))
    decreases |file|
  {
    if file == [] {
      assert file + more == more;
    } else {
      FirstLineOfPrefix(file, more);
      OverlongAppend(AfterFirst(file), more);
    }
  }

  /** A line and what ends it is one record, unless it is empty or nothing but a carriage return. */
  lemma RecordsOfLine(line: Line, more: seq<byte>)
    requires forall i :: 0 <= i < |line| ==> line[i] != NL
    requires line != []
    requires more == [] || more[0] == NL
    ensures FirstLine(line + more) == |line|
    ensures AfterFirst(line + more) == if more == [] then [] else more[1..]
    ensures Records(line + more) == Prepend(DropCR(line), Records(if more == [] then [] else more[1..]))
  {
    FirstLineIs(line + more, |line|);
    assert (line + more)[..|line|] == line;
    if more != [] {
      assert (line + more)[|line| + 1..] == more[1..];
    }
  }

  lemma {:induction false} RecordsOfNewlines(file: seq<byte>)
    requires forall i :: 0 <= i < |file| ==> file[i] == NL
    ensures Records(file) == []
  {
    if file != [] {
      FirstLineIs(file, 0);
      RecordsOfNewlines(file[1..]);
    }
  }

  /** A line that ends in no carriage return, and any newlines after it, is one record. */
  lemma OneRecord(line: Line, blank: seq<byte>)
    requires forall i :: 0 <= i < |line| ==> line[i] != NL
    requires line != [] && line[|line| - 1] != CR
    requires forall i :: 0 <= i < |blank| ==> blank[i] == NL
    ensures Records(line + blank) == [line]
  {
    RecordsOfLine(line, blank);
    RecordsOfNewlines(if blank == [] then [] else blank[1..]);
    assert [line] + [] == [line];
  }

  lemma OverlongOfLine(line: Line)
    requires forall i :: 0 <= i < |line| ==> line[i] != NL
    requires line != []
    ensures Overlong(line + [NL]) == (|line| >= SCAN_LIMIT)
  {
    RecordsOfLine(line, [NL]);
    assert !Overlong([]);
  }

  /** Appending one record and its newline appends one line to what the verifier sees. */
  lemma RecordsAppendLine(file: seq<byte>, line: Line)
    requires Terminated(file)
    requires line != [] && NL !in line && line[|line| - 1] != CR
    ensures Records(file + line + [NL]) == Records(file) + [line]
    ensures Terminated(file + line + [NL])
    ensures Overlong(file + line + [NL]) == (Overlong(file) || |line| >= SCAN_LIMIT)
  {
    Seqs.Assoc(file, line, [NL]);
    OneRecord(line, [NL]);
    RecordsAppend(file, line + [NL]);
    OverlongOfLine(line);
    OverlongAppend(file, line + [NL]);
  }

  // ---------------------------------------------------------------- backward scan

  /** `buf[..n]` ends in the newlines from `k` on, and no more. */
  predicate StripsTo(buf: seq<byte>, n: nat, k: nat) {
    k <= n <= |buf| && (k == 0 || buf[k - 1] != NL) && forall i :: k <= i < n ==> buf[i] == NL
  }

  /** The last line of `buf[..n]` begins at `i`. */
  predicate StartsAt(buf: seq<byte>, n: nat, i: nat) {
    i <= n <= |buf| && (i == 0 || buf[i - 1] == NL) && forall j :: i <= j < n ==> buf[j] != NL
  }

  lemma EndsExist(buf: seq<byte>, n: nat)
    requires n <= |buf|
    ensures exists k: nat :: StripsTo(buf, n, k)
    ensures exists i: nat :: StartsAt(buf, n, i)
  {
    if n == 0 {
      assert StripsTo(buf, n, 0) && StartsAt(buf, n, 0);
    } else {
      EndsExist(buf, n - 1);
      var k: nat :| StripsTo(buf, n - 1, k);
      var i: nat :| StartsAt(buf, n - 1, i);
      assert StripsTo(buf, n, if buf[n - 1] == NL then k else n);
      assert StartsAt(buf, n, if buf[n - 1] == NL then n else i);
    }
  }

  /** Where the last non-empty line ends and the newlines that end the file begin. */
  function RawEnd(buf: seq<byte>): (k: nat)
    ensures StripsTo(buf, |buf|, k)
  {
    EndsExist(buf, |buf|);
    var k: nat :| k <= |buf| && StripsTo(buf, |buf|, k);
    k
  }

  /** Where the last non-empty line begins. */
  function RawStart(buf: seq<byte>): (k: nat)
    ensures StartsAt(buf, RawEnd(buf), k)
  {
    EndsExist(buf, RawEnd(buf));
    var i: nat :| i <= |buf| && StartsAt(buf, RawEnd(buf), i);
    i
  }

  /** The last non-empty line of `buf`, carriage return and all; empty when there is none. */
  function LastRaw(buf: seq<byte>): Line {
    var start, end := RawStart(buf), RawEnd(buf);
    if start == 0 then buf[..end] else buf[start..end]
  }

  function Clipped(file: seq<byte>): seq<byte> {
    if |file| <= TAIL then file else file[|file| - TAIL..]
  }

  /** The line a restarting logger resumes from. */
  function TailLine(file: seq<byte>): Line {
    LastRaw(Clipped(file))
  }

  /** The last non-empty line and the newlines after it fit in the tail. */
  predicate TailFits(file: seq<byte>) {
    |LastRaw(file)| + (|file| - RawEnd(file)) <= TAIL
  }

  function LastRecord(file: seq<byte>): Line {
    var lines := Records(file);
    if lines == [] then [] else lines[|lines| - 1]
  }

  /** The last line lies where its ends say it does. */
  lemma RawIs(buf: seq<byte>, start: nat, end: nat)
    requires start <= end <= |buf|
    requires end == 0 || buf[end - 1] != NL
    requires forall i :: end <= i < |buf| ==> buf[i] == NL
    requires start == 0 || buf[start - 1] == NL
    requires forall i :: start <= i < end ==> buf[i] != NL
    ensures RawEnd(buf) == end && RawStart(buf) == start
  {
    var k := RawEnd(buf);
    assert k == end;
    var i := RawStart(buf);
    assert i == start;
  }

  /** Of a file cut inside its last line, the last line is what the cut leaves of it. */
  lemma LastRawOfPart(file: seq<byte>, cut: nat)
    requires RawStart(file) < cut <= |file|
    ensures LastRaw(file[cut..]) == if cut < RawEnd(file) then LastRaw(file)[cut - RawStart(file)..] else []
  {
    var c, end := file[cut..], RawEnd(file);
    if cut < end {
      RawIs(c, 0, end - cut);
      assert c[..end - cut] == file[cut..end];
    } else {
      RawIs(c, 0, 0);
    }
  }

  /** Dropping a prefix keeps the last line whole exactly when the cut is not inside it. */
  lemma LastRawOfSuffix(file: seq<byte>, cut: nat)
    requires cut <= |file|
    ensures LastRaw(file[cut..]) == LastRaw(file) <==> (cut <= RawStart(file) || LastRaw(file) == [])
  {
    var c, start, end := file[cut..], RawStart(file), RawEnd(file);
    if cut <= start {
      RawIs(c, start - cut, end - cut);
      assert c[start - cut..end - cut] == file[start..end];
    } else if cut < end {
      RawIs(c, 0, end - cut);
    } else {
      RawIs(c, 0, 0);
    }
  }

  /** A record just appended, with its newline, is the last line of the file. */
  lemma LastRawAppendLine(file: seq<byte>, line: Line)
    requires Terminated(file)
    requires line != [] && NL !in line
    ensures LastRaw(file + line + [NL]) == line
    ensures TailFits(file + line + [NL]) <==> |line| + 1 <= TAIL
  {
    LastRawAt(file + line + [NL], |file|, line);
  }

  lemma LastRawAt(all: seq<byte>, n: nat, line: Line)
    requires |all| == n + |line| + 1
    requires line != [] && forall i :: 0 <= i < |line| ==> line[i] != NL
    requires n == 0 || all[n - 1] == NL
    requires forall i :: 0 <= i < |line| ==> all[n + i] == line[i]
    requires all[n + |line|] == NL
    ensures LastRaw(all) == line
    ensures TailFits(all) <==> |line| + 1 <= TAIL
  {
    assert forall i :: n <= i < n + |line| ==> all[i] == line[i - n];
    RawIs(all, n, n + |line|);
    assert all[n..n + |line|] == line;
  }

  /** Clipping to the tail keeps the last line whole exactly when it fits. */
  lemma ClippedTail(file: seq<byte>)
    ensures TailLine(file) == LastRaw(file) <==> (TailFits(file) || LastRaw(file) == [])
  {
    LastRawOfSuffix(file, if |file| <= TAIL then 0 else |file| - TAIL);
    assert file[0..] == file;
  }

  lemma LastRawIs(file: seq<byte>, start: nat, end: nat)
    requires start == RawStart(file) && end == RawEnd(file)
    ensures start <= end <= |file| && LastRaw(file) == file[start..end]
    ensures forall i :: 0 <= i < |LastRaw(file)| ==> LastRaw(file)[i] != NL
  {
  }

  /** A file is some whole lines, its last raw line, and the newlines after it. */
  lemma Anatomy(file: seq<byte>) returns (body: seq<byte>, blank: seq<byte>)
    ensures file == body + (LastRaw(file) + blank)
    ensures Terminated(body) && body == file[..RawStart(file)]
    ensures forall i :: 0 <= i < |blank| ==> blank[i] == NL
    ensures LastRaw(file) == [] ==> body == []
    ensures forall i :: 0 <= i < |LastRaw(file)| ==> LastRaw(file)[i] != NL
  {
    var start, end := RawStart(file), RawEnd(file);
    body, blank := file[..start], file[end..];
    LastRawIs(file, start, end);
    assert file[start..end] + blank == file[start..];
  }

  lemma RecordsOfParts(body: seq<byte>, line: Line, blank: seq<byte>)
    requires Terminated(body)
    requires forall i :: 0 <= i < |line| ==> line[i] != NL
    requires line != [] && line[|line| - 1] != CR
    requires forall i :: 0 <= i < |blank| ==> blank[i] == NL
    ensures Records(body + (line + blank)) == Records(body) + [line]
  {
    OneRecord(line, blank);
    RecordsAppend(body, line + blank);
  }

  /** The forward scan ends in the last raw line, its carriage return dropped. */
  lemma LastRawIsLastRecord(file: seq<byte>)
    requires LastRaw(file) == [] || LastRaw(file)[|LastRaw(file)| - 1] != CR
    ensures LastRaw(file) == LastRecord(file)
  {
    var body, blank := Anatomy(file);
    if LastRaw(file) == [] {
      assert file == blank;
      RecordsOfNewlines(file);
    } else {
      RecordsOfParts(body, LastRaw(file), blank);
    }
  }

  /**
   The bounded backward scan finds the line the forward scan ends in exactly when that line and the
   newlines after it fit in the tail.
   */
  lemma TailLineIsLastRecord(file: seq<byte>)
    requires LastRaw(file) == [] || LastRaw(file)[|LastRaw(file)| - 1] != CR
    ensures TailLine(file) == LastRecord(file) <==> (TailFits(file) || LastRecord(file) == [])
  {
    ClippedTail(file);
    LastRawIsLastRecord(file);
  }

  /** The forward scan drops the carriage return that the last raw line ends in. */
  lemma LastRecordDropsReturn(file: seq<byte>)
    requires |LastRaw(file)| > 1 && LastRaw(file)[|LastRaw(file)| - 1] == CR
    ensures LastRecord(file) == LastRaw(file)[..|LastRaw(file)| - 1]
  {
    var line := LastRaw(file);
    var body, blank := Anatomy(file);
    OneDropped(line, blank);
    RecordsAppend(body, line + blank);
  }

  /** A line that ends in a carriage return, and any newlines after it, is one record without that return. */
  lemma OneDropped(line: Line, blank: seq<byte>)
    requires forall i :: 0 <= i < |line| ==> line[i] != NL
    requires |line| > 1 && line[|line| - 1] == CR
    requires forall i :: 0 <= i < |blank| ==> blank[i] == NL
    ensures Records(line + blank) == [line[..|line| - 1]]
  {
    RecordsOfLine(line, blank);
    RecordsOfNewlines(if blank == [] then [] else blank[1..]);
    assert [DropCR(line)] + [] == [DropCR(line)];
  }

  /** Where a last line is a carriage return alone, the forward scan ends in the line before it. */
  lemma LastRecordSkipsReturn(file: seq<byte>)
    requires LastRaw(file) == [CR]
    ensures LastRecord(file) == LastRecord(file[..RawStart(file)])
  {
    var body, blank := Anatomy(file);
    RecordsOfLine([CR], blank);
    RecordsOfNewlines(if blank == [] then [] else blank[1..]);
    RecordsAppend(body, [CR] + blank);
    assert Records(body) + [] == Records(body);
  }

  predicate OnlyReturns(line: Line) {
    forall i :: 0 <= i < |line| ==> line[i] == CR
  }

  /** A line without its last byte is an ending of itself only when it loses one byte and all are alike. */
  lemma DroppedIsEnding(line: Line, k: nat)
    requires |line| > 1 && line[|line| - 1] == CR && k <= |line|
    ensures line[..|line| - 1] == line[k..] <==> k == 1 && OnlyReturns(line)
  {
    if line[..|line| - 1] == line[k..] {
      assert k == 1;
      forall i | 0 <= i < |line| ensures line[i] == CR {
        AllAlike(line, i);
      }
    }
  }

  lemma {:induction false} AllAlike(line: Line, i: nat)
    requires i < |line| && line[..|line| - 1] == line[1..]
    ensures line[i] == line[|line| - 1]
    decreases |line| - i
  {
    if i < |line| - 1 {
      assert line[..|line| - 1][i] == line[1..][i] == line[i + 1];
      AllAlike(line, i + 1);
    }
  }

  /** How many bytes at the front of the last line are not in the tail. */
  function Lost(file: seq<byte>): nat {
    var line, blank := |LastRaw(file)|, |file| - RawEnd(file);
    if line + blank <= TAIL then 0 else if blank < TAIL then line + blank - TAIL else line
  }

  /** The logger reads what the tail holds of the last line. */
  lemma TailIsEnding(file: seq<byte>)
    ensures IsEnding(TailLine(file), LastRaw(file), Lost(file))
  {
    if TailFits(file) || LastRaw(file) == [] {
      WholeIsEnding(file);
    } else {
      CutIsEnding(file);
    }
  }

  predicate IsEnding(part: Line, whole: Line, k: nat) {
    k <= |whole| && part == whole[k..]
  }

  lemma WholeIsEnding(file: seq<byte>)
    requires TailFits(file) || LastRaw(file) == []
    ensures IsEnding(TailLine(file), LastRaw(file), Lost(file))
  {
    ClippedTail(file);
  }

  lemma CutIsEnding(file: seq<byte>)
    requires !TailFits(file) && LastRaw(file) != []
    ensures IsEnding(TailLine(file), LastRaw(file), Lost(file))
  {
    CutInside(file);
    PartIsEnding(file, |file| - TAIL, Clipped(file));
  }

  lemma CutInside(file: seq<byte>)
    requires !TailFits(file) && LastRaw(file) != []
    ensures var cut := |file| - TAIL;
      && 0 < cut && RawStart(file) < cut && Clipped(file) == file[cut..]
      && Lost(file) == if cut < RawEnd(file) then cut - RawStart(file) else |LastRaw(file)|
  {
  }

  lemma PartIsEnding(file: seq<byte>, cut: nat, part: seq<byte>)
    requires RawStart(file) < cut <= |file| && part == file[cut..]
    ensures IsEnding(LastRaw(part), LastRaw(file),
                     if cut < RawEnd(file) then cut - RawStart(file) else |LastRaw(file)|)
  {
    LastRawOfPart(file, cut);
  }

  /** When the two scans end in the same line, by how the last line that is not empty looks. */
  predicate ReadsAlike(file: seq<byte>) {
    var line := LastRaw(file);
    if line == [] then true
    else if line[|line| - 1] != CR then TailFits(file)
    else if |line| == 1 then LastRecord(file[..RawStart(file)]) == if TailFits(file) then [CR] else []
    else OnlyReturns(line) && Lost(file) == 1
  }

  /**
   The bounded backward scan and the forward scan end in the same line exactly when there is none; or it does
   not end in a carriage return and fits in the tail; or it is a carriage return alone and the line before it
   makes up for that; or it is carriage returns only, of which the tail misses the one the other scan drops.
   */
  lemma ScansAgree(file: seq<byte>)
    ensures TailLine(file) == LastRecord(file) <==> ReadsAlike(file)
  {
    var line := LastRaw(file);
    if line == [] || line[|line| - 1] != CR {
      TailLineIsLastRecord(file);
      LastRawIsLastRecord(file);
    } else if |line| == 1 {
      ReturnReadsAlike(file);
    } else {
      LastRecordDropsReturn(file);
      TailIsEnding(file);
      DroppedIsEnding(line, Lost(file));
    }
  }

  lemma ReturnReadsAlike(file: seq<byte>)
    requires LastRaw(file) == [CR]
    ensures TailLine(file) == LastRecord(file) <==> ReadsAlike(file)
  {
    LastRecordSkipsReturn(file);
    TailIsEnding(file);
    assert TailLine(file) == if TailFits(file) then [CR] else [];
  }

  /** A last line that ends in a carriage return is read back wrong, whether or not it fits in the tail. */
  lemma TailKeepsCarriageReturn(file: seq<byte>, i: nat)
    requires i < |LastRaw(file)| && LastRaw(file)[i] != CR == LastRaw(file)[|LastRaw(file)| - 1]
    ensures TailLine(file) != LastRecord(file)
  {
    NotOnlyReturns(file, i);
    ScansAgree(file);
  }

  lemma NotOnlyReturns(file: seq<byte>, i: nat)
    requires i < |LastRaw(file)| && LastRaw(file)[i] != CR == LastRaw(file)[|LastRaw(file)| - 1]
    ensures !ReadsAlike(file)
  {
  }

  /** A file is too much for the scanner exactly when some mebibyte of it holds no newline. */
  lemma {:induction false} OverlongExactly(file: seq<byte>)
    ensures Overlong(file) <==> exists i :: NoNewlineFrom(file, i, 1024 * 1024)
    decreases |file|
  {
    if file != [] {
      var k := FirstLine(file);
      if k >= SCAN_LIMIT {
        assert NoNewlineFrom(file, 0, 1024 * 1024);
      } else if k < |file| {
        var rest := file[k + 1..];
        OverlongExactly(rest);
        forall i: nat
          ensures NoNewlineFrom(file, i, 1024 * 1024) <==> i > k && NoNewlineFrom(rest, i - k - 1, 1024 * 1024)
        {
        }
        if i: nat :| NoNewlineFrom(rest, i, 1024 * 1024) {
          assert NoNewlineFrom(file, i + k + 1, 1024 * 1024);
        }
      }
    }
  }

  predicate NoNewlineFrom(file: seq<byte>, i: nat, n: nat) {
    i + n <= |file| && forall j :: i <= j < i + n ==> file[j] != 10
  }

  /**
   A line that follows whole lines is read back from the tail exactly when it fits there with the newlines after
   it: in 64 KiB.
   */
  lemma ReadsBackExactly(body: seq<byte>, line: Line, n: nat)
    requires Terminated(body) && line != [] && forall i :: 0 <= i < |line| ==> line[i] != 10
    ensures TailLine(body + (line + seq(n, _ => NL))) == line <==> |line| + n <= 64 * 1024
  {
    var file := body + (line + seq(n, _ => NL));
    var start, end := |body|, |body| + |line|;
    assert forall i :: start <= i < end ==> file[i] == line[i - start];
    assert forall i :: end <= i < |file| ==> file[i] == NL;
    RawIs(file, start, end);
    LastRawIs(file, start, end);
    assert file[start..end] == line;
    ClippedTail(file);
  }

  /** Leaves the newlines at the end of the buffer out. */
  method StripNewlines(buf: array<byte>) returns (n: nat)
    ensures StripsTo(buf[..], buf.Length, n)
  {
    n := buf.Length;
    while n > 0 && buf[n - 1] == NL
      invariant 0 <= n <= buf.Length
      invariant forall i :: n <= i < buf.Length ==> buf[i] == NL
    {
      n := n - 1;
    }
  }

  /** Walks back to the newline before the last line. */
  method FindStart(buf: array<byte>, n: nat) returns (start: nat)
    requires n <= buf.Length
    ensures StartsAt(buf[..], n, start)
  {
    var i := n - 1;
    while i >= 0
      invariant -1 <= i < n
      invariant forall k :: i < k < n ==> buf[k] != NL
    {
      if buf[i] == NL {
        return i + 1;
      }
      i := i - 1;
    }
    return 0;
  }

  /** The last non-empty line of the file, from a buffer holding its tail. */
  method ReadLastLine(file: seq<byte>) returns (line: Line)
    ensures line == TailLine(file)
  {
    if |file| == 0 {
      return [];
    }
    var start := |file| - TAIL;
    if start < 0 {
      start := 0;
    }
    var buf := new byte[|file| - start](i requires 0 <= i < |file| - start => file[start + i]);
    assert buf[..] == Clipped(file);
    var end := StripNewlines(buf);
    var from := FindStart(buf, end);
    RawIs(buf[..], from, end);
    assert buf[..][from..end] == buf[from..end];
    return buf[from..end];
  }
}
