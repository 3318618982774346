/**
 The hash chain over the records of the audit log: what it means for a log to be intact, the verifier's
 loop, and what an intact chain says about the records before the last one.
 */
module AuditChain {
  import opened Wrappers
  import opened Bytes
  import opened LogLines
  import Seqs

  /** The prev-hash of the first record of a chain. */
  const GENESIS := (ZEROS + ZEROS) + (ZEROS + ZEROS)
  const ZEROS := "0000000000000000"

  /** What the verifier reads of a record: its sequence number and its prev-hash, "" when it has none. */
  datatype Fields = Fields(index: nat, prev: string)

  /**
   The hash of a line (SHA-256 in hexadecimal, section 6.2 of FIPS 180-4) and the JSON decoder, both left
   uninterpreted: no claim below assumes that the hash is injective.
   */
  datatype Codec = Codec(hash: Line -> string, parse: Line -> Option<Fields>)

  // ---------------------------------------------------------------- intact logs

  /** The line carries a prev-hash: the chain protects it. */
  predicate Chained(c: Codec, line: Line) {
    var f := c.parse(line);
    f.Some? && f.value.prev != ""
  }

  /** The prev-hash that a record after `lines` must carry. */
  function PrevHash(c: Codec, lines: seq<Line>): string {
    if lines == [] then GENESIS else c.hash(lines[|lines| - 1])
  }

  /** The sequence number of the last chained record; 0 when there is none. */
  function LastIndex(c: Codec, lines: seq<Line>): nat {
    if lines == [] then 0
    else
      var line := lines[|lines| - 1];
      if Chained(c, line) then c.parse(line).value.index else LastIndex(c, lines[..|lines| - 1])
  }

  function ChainedCount(c: Codec, lines: seq<Line>): nat {
    if lines == [] then 0
    else ChainedCount(c, lines[..|lines| - 1]) + if Chained(c, lines[|lines| - 1]) then 1 else 0
  }

  /** `line` may follow `before`: it decodes and, when chained, names the line before it and the next number. */
  predicate LineOk(c: Codec, before: seq<Line>, line: Line) {
    var f := c.parse(line);
    && f.Some?
    && (Chained(c, line) ==>
          && f.value.prev == PrevHash(c, before)
          && (LastIndex(c, before) == 0 || f.value.index == LastIndex(c, before) + 1))
  }

  /** The chain is intact: every line may follow those before it. */
  predicate Accepts(c: Codec, lines: seq<Line>) {
    lines == [] ||
    (var n := |lines| - 1; Accepts(c, lines[..n]) && LineOk(c, lines[..n], lines[n]))
  }

  predicate FullyChained(c: Codec, lines: seq<Line>) {
    forall i :: 0 <= i < |lines| ==> Chained(c, lines[i])
  }

  /** Acceptance is prefix-closed: removing records from the end is not detected. */
  lemma {:induction false} AcceptsPrefix(c: Codec, lines: seq<Line>, k: nat)
    requires k <= |lines|
    requires Accepts(c, lines)
    ensures Accepts(c, lines[..k])
  {
    if k == |lines| {
      assert lines[..k] == lines;
    } else {
      var before := lines[..|lines| - 1];
      AcceptsPrefix(c, before, k);
      assert before[..k] == lines[..k];
    }
  }

  lemma AcceptsShorter(c: Codec, lines: seq<Line>, j: nat, k: nat)
    requires k <= j <= |lines|
    ensures Accepts(c, lines[..j]) ==> Accepts(c, lines[..k])
  {
    if Accepts(c, lines[..j]) {
      AcceptsPrefix(c, lines[..j], k);
      assert lines[..j][..k] == lines[..k];
    }
  }

  /** An intact log stays intact exactly when the next line may follow it. */
  lemma AcceptsExtend(c: Codec, lines: seq<Line>, line: Line)
    ensures Accepts(c, lines + [line]) <==> Accepts(c, lines) && LineOk(c, lines, line)
  {
    assert (lines + [line])[..|lines|] == lines;
  }

  lemma FoldsExtend(c: Codec, lines: seq<Line>, line: Line)
    ensures PrevHash(c, lines + [line]) == c.hash(line)
    ensures LastIndex(c, lines + [line]) ==
            if Chained(c, line) then c.parse(line).value.index else LastIndex(c, lines)
    ensures ChainedCount(c, lines + [line]) == ChainedCount(c, lines) + if Chained(c, line) then 1 else 0
  {
    assert (lines + [line])[..|lines|] == lines;
  }

  lemma {:induction false} LegacyOnly(c: Codec, lines: seq<Line>)
    requires forall i :: 0 <= i < |lines| ==> !Chained(c, lines[i])
    ensures LastIndex(c, lines) == 0 && ChainedCount(c, lines) == 0
  {
    if lines != [] {
      LegacyOnly(c, lines[..|lines| - 1]);
    }
  }

  // ---------------------------------------------------------------- acceptance, position by position

  /** The prev-hash that the line carries; "" when it carries none or does not decode. */
  function Carried(c: Codec, line: Line): string {
    if c.parse(line).Some? then c.parse(line).value.prev else ""
  }

  /** The `j`-th line is the next one after the `i`-th that carries a prev-hash. */
  predicate NextCarrier(c: Codec, lines: seq<Line>, i: nat, j: nat) {
    && i < j < |lines| && Carried(c, lines[i]) != "" && Carried(c, lines[j]) != ""
    && forall k :: i < k < j ==> Carried(c, lines[k]) == ""
  }

  /** The `i`-th line carries no prev-hash or that of the line before it: 64 zeros for the first line. */
  predicate NamesBefore(c: Codec, lines: seq<Line>, i: nat)
    requires i < |lines|
  {
    var prev := Carried(c, lines[i]);
    prev == "" ||
    if i == 0 then |prev| == 64 && (forall k :: 0 <= k < 64 ==> prev[k] == '0') else prev == c.hash(lines[i - 1])
  }

  predicate CountsOn(c: Codec, lines: seq<Line>, i: nat, j: nat)
    requires NextCarrier(c, lines, i, j)
  {
    c.parse(lines[i]).value.index == 0 || c.parse(lines[j]).value.index == c.parse(lines[i]).value.index + 1
  }

  /** Every line decodes, names the line before it, and counts on from the last one that was numbered. */
  ghost predicate Intact(c: Codec, lines: seq<Line>) {
    && (forall i :: 0 <= i < |lines| ==> c.parse(lines[i]).Some?)
    && (forall i :: 0 <= i < |lines| ==> NamesBefore(c, lines, i))
    && (forall i, j :: NextCarrier(c, lines, i, j) ==> CountsOn(c, lines, i, j))
  }

  lemma ZerosAreGenesis(s: string)
    ensures s == GENESIS <==> |s| == 64 && forall k :: 0 <= k < 64 ==> s[k] == '0'
  {
    assert |ZEROS| == 16 && forall k :: 0 <= k < 16 ==> ZEROS[k] == '0';
  }

  /** The last number is that of the last line with a prev-hash. */
  lemma {:induction false} LastCarrier(c: Codec, lines: seq<Line>) returns (last: int)
    ensures -1 <= last < |lines| && forall k :: last < k < |lines| ==> Carried(c, lines[k]) == ""
    ensures last == -1 ==> LastIndex(c, lines) == 0
    ensures last >= 0 ==>
              && Carried(c, lines[last]) != ""
              && LastIndex(c, lines) == c.parse(lines[last]).value.index
  {
    last := |lines| - 1;
    if lines != [] && Carried(c, lines[last]) == "" {
      last := LastCarrier(c, lines[..|lines| - 1]);
    }
  }

  lemma LastIsNext(c: Codec, lines: seq<Line>, last: int, i: nat, n: nat)
    requires -1 <= last < n < |lines| && NextCarrier(c, lines, i, n)
    requires last >= 0 ==> Carried(c, lines[last]) != ""
    requires forall k :: last < k < n ==> Carried(c, lines[k]) == ""
    ensures i == last
  {
  }

  /** What the last line adds to the conditions on the others. */
  lemma LineOkIsIntact(c: Codec, lines: seq<Line>, n: nat)
    requires n < |lines|
    ensures LineOk(c, lines[..n], lines[n]) <==>
            && c.parse(lines[n]).Some? && NamesBefore(c, lines, n)
            && (forall i :: NextCarrier(c, lines, i, n) ==> CountsOn(c, lines, i, n))
  {
    var last := LastCarrier(c, lines[..n]);
    ZerosAreGenesis(Carried(c, lines[n]));
    if last >= 0 && Carried(c, lines[n]) != "" {
      assert NextCarrier(c, lines, last, n);
    }
    forall i: nat | NextCarrier(c, lines, i, n) ensures i == last {
      LastIsNext(c, lines, last, i, n);
    }
  }

  lemma IntactExtends(c: Codec, lines: seq<Line>)
    requires lines != []
    ensures var n := |lines| - 1;
      Intact(c, lines) <==>
        && Intact(c, lines[..n])
        && c.parse(lines[n]).Some? && NamesBefore(c, lines, n)
        && (forall i :: NextCarrier(c, lines, i, n) ==> CountsOn(c, lines, i, n))
  {
    var n := |lines| - 1;
    var before := lines[..n];
    assert forall i :: 0 <= i < n ==> before[i] == lines[i];
    assert forall i :: 0 <= i < n ==> (NamesBefore(c, before, i) <==> NamesBefore(c, lines, i));
    forall i, j | 0 <= i < j < n ensures NextCarrier(c, before, i, j) <==> NextCarrier(c, lines, i, j) {
    }
  }

  /** Acceptance, line by line, is all that intactness says of positions. */
  lemma {:induction false} AcceptsExactly(c: Codec, lines: seq<Line>)
    ensures Accepts(c, lines) <==> Intact(c, lines)
  {
    if lines != [] {
      AcceptsExactly(c, lines[..|lines| - 1]);
      LineOkIsIntact(c, lines, |lines| - 1);
      IntactExtends(c, lines);
    }
  }

  /** The lines counted as chained are those that carry a prev-hash. */
  lemma {:induction false} CountedAreCarriers(c: Codec, lines: seq<Line>)
    ensures ChainedCount(c, lines) == |Carriers(c, lines)|
  {
    if lines != [] {
      var n := |lines| - 1;
      CountedAreCarriers(c, lines[..n]);
      assert Carriers(c, lines) == Carriers(c, lines[..n]) + if Carried(c, lines[n]) != "" then {n} else {};
    }
  }

  function Carriers(c: Codec, lines: seq<Line>): set<int> {
    set i | 0 <= i < |lines| && Carried(c, lines[i]) != ""
  }

  // ---------------------------------------------------------------- the verifier

  datatype Reason = NoBreak | InvalidJson | PrevMismatch | SeqGap

  datatype Outcome =
    | ScanError
    | Verified(records: nat, chained: nat, ok: bool, brokenLine: nat, reason: Reason)

  /** Why `line` may not follow `before`, in the order the verifier looks. */
  function Break(c: Codec, before: seq<Line>, line: Line): (r: Reason)
    ensures r == NoBreak <==> LineOk(c, before, line)
  {
    var f := c.parse(line);
    if f.None? then InvalidJson
    else if f.value.prev == "" then NoBreak
    else if f.value.prev != PrevHash(c, before) then PrevMismatch
    else if LastIndex(c, before) != 0 && f.value.index != LastIndex(c, before) + 1 then SeqGap
    else NoBreak
  }

  /** The reason, in terms of the line and the one before it. */
  lemma BreakExactly(c: Codec, lines: seq<Line>, n: nat)
    requires n < |lines| && Break(c, lines[..n], lines[n]) != NoBreak
    ensures var reason := Break(c, lines[..n], lines[n]);
      && (reason == InvalidJson <==> c.parse(lines[n]).None?)
      && (reason == PrevMismatch <==> c.parse(lines[n]).Some? && !NamesBefore(c, lines, n))
      && (reason == SeqGap ==> exists i :: NextCarrier(c, lines, i, n) && !CountsOn(c, lines, i, n))
  {
    LineOkIsIntact(c, lines, n);
    ZerosAreGenesis(Carried(c, lines[n]));
  }

  /** `k` is the 1-based number of the first line that breaks the chain. */
  predicate FirstBreak(c: Codec, lines: seq<Line>, k: nat) {
    1 <= k <= |lines| && Accepts(c, lines[..k - 1]) && !Accepts(c, lines[..k])
  }

  /** The first break is the least number of lines that is not accepted, and there is only one. */
  lemma FirstBreakIsLeast(c: Codec, lines: seq<Line>, k: nat)
    requires FirstBreak(c, lines, k)
    ensures forall j :: 0 <= j <= |lines| ==> (Accepts(c, lines[..j]) <==> j < k)
  {
    forall j | 0 <= j <= |lines| ensures Accepts(c, lines[..j]) <==> j < k {
      if j < k {
        AcceptsShorter(c, lines, k - 1, j);
      } else {
        AcceptsShorter(c, lines, j, k);
      }
    }
  }

  lemma AcceptsUpTo(c: Codec, seen: seq<Line>, line: Line, more: seq<Line>, all: seq<Line>)
    requires all == seen + [line] + more
    requires Accepts(c, seen)
    ensures all[..|seen|] == seen && all[..|seen| + 1] == seen + [line]
    ensures FirstBreak(c, all, |seen| + 1) <==> !LineOk(c, seen, line)
    ensures !LineOk(c, seen, line) ==> !Accepts(c, all)
  {
    AcceptsExtend(c, seen, line);
    assert all[..|seen|] == seen && all[..|seen| + 1] == seen + [line];
    if Accepts(c, all) {
      AcceptsPrefix(c, all, |seen| + 1);
    }
  }

  /** Walks the chain of an audit log and reports the first break. */
  method VerifyAuditChain(c: Codec, file: seq<byte>) returns (r: Outcome)
    ensures r.ScanError? <==> Overlong(file) && Accepts(c, Scanned(file))
    ensures r.Verified? && r.ok <==> !Overlong(file) && Accepts(c, Records(file))
    ensures r.Verified? && r.ok ==>
              r == Verified(|Records(file)|, ChainedCount(c, Records(file)), true, 0, NoBreak)
    ensures r.Verified? && !r.ok ==>
              && var lines := Scanned(file);
              && FirstBreak(c, lines, r.brokenLine)
              && r.records == r.brokenLine
              && (r.reason == InvalidJson <==> c.parse(lines[r.brokenLine - 1]).None?)
              && r.reason == Break(c, lines[..r.brokenLine - 1], lines[r.brokenLine - 1]) != NoBreak
              && r.chained == if r.reason == InvalidJson then 0 else ChainedCount(c, lines[..r.brokenLine - 1])
  {
    var expectedPrev, expectedSeq := GENESIS, 0;
    var chained, line := 0, 0;
    var rest := file;
    ghost var seen: seq<Line> := [];
    while rest != []
      invariant Scanned(file) == seen + Scanned(rest)
      invariant Overlong(file) == Overlong(rest)
      invariant Accepts(c, seen)
      invariant expectedPrev == PrevHash(c, seen) && expectedSeq == LastIndex(c, seen)
      invariant chained == ChainedCount(c, seen) && line == |seen|
      decreases |rest|
    {
      var k := FirstLine(rest);
      if k >= SCAN_LIMIT {
        assert Scanned(file) == seen;
        return ScanError;
      }
      var raw := DropCR(rest[..k]);
      ScannedStep(rest);
      ghost var more := Scanned(AfterFirst(rest));
      rest := AfterFirst(rest);
      if raw == [] {
        continue;
      }
      Seqs.Assoc(seen, [raw], more);
      AcceptsUpTo(c, seen, raw, more, Scanned(file));
      line := line + 1;
      var f := c.parse(raw);
      if f.None? {
        NotAccepted(c, file);
        return Verified(line, 0, false, line, InvalidJson);
      }
      if f.value.prev != "" {
        if f.value.prev != expectedPrev {
          NotAccepted(c, file);
          return Verified(line, chained, false, line, PrevMismatch);
        }
        if expectedSeq != 0 && f.value.index != expectedSeq + 1 {
          NotAccepted(c, file);
          return Verified(line, chained, false, line, SeqGap);
        }
        expectedSeq := f.value.index;
        chained := chained + 1;
      }
      expectedPrev := c.hash(raw);
      AcceptsExtend(c, seen, raw);
      FoldsExtend(c, seen, raw);
      seen := seen + [raw];
    }
    ScannedIsRecords(file);
    assert Scanned(file) == seen;
    return Verified(line, chained, true, 0, NoBreak);
  }

  lemma NotAccepted(c: Codec, file: seq<byte>)
    requires !Accepts(c, Scanned(file))
    ensures !(!Overlong(file) && Accepts(c, Records(file)))
  {
    if !Overlong(file) {
      ScannedIsRecords(file);
    }
  }

  // ---------------------------------------------------------------- tamper evidence

  /** What two logs that end in the same record amount to. */
  datatype Evidence =
    | SameLog
    | Collision(x: Line, y: Line)
    | GenesisPreimage(x: Line)

  /** The evidence holds: a broken hash, or one log. */
  predicate Holds(c: Codec, e: Evidence, a: seq<Line>, b: seq<Line>) {
    match e
    case SameLog => a == b
    case Collision(x, y) => x in a && y in b && x != y && c.hash(x) == c.hash(y)
    case GenesisPreimage(x) => (x in a || x in b) && c.hash(x) == GENESIS
  }

  /** Compares two logs from the end backwards. */
  function Explain(a: seq<Line>, b: seq<Line>): Evidence
    requires a != [] && b != []
  {
    var n, m := |a| - 1, |b| - 1;
    if n == 0 && m == 0 then SameLog
    else if n == 0 then GenesisPreimage(b[m - 1])
    else if m == 0 then GenesisPreimage(a[n - 1])
    else if a[n - 1] != b[m - 1] then Collision(a[n - 1], b[m - 1])
    else Explain(a[..n], b[..m])
  }

  /** Evidence about parts of two logs is evidence about the logs. */
  lemma HoldsOfMore(c: Codec, e: Evidence, a: seq<Line>, b: seq<Line>, a': seq<Line>, b': seq<Line>)
    requires e != SameLog && Holds(c, e, a, b)
    requires a <= a' && b <= b'
    ensures Holds(c, e, a', b')
  {
    assert forall x :: x in a ==> x in a';
    assert forall x :: x in b ==> x in b';
  }

  /** One step backwards: equal chained records name equal prev-hashes. */
  lemma SamePrev(c: Codec, a: seq<Line>, b: seq<Line>)
    requires a != [] && b != [] && a[|a| - 1] == b[|b| - 1]
    requires Chained(c, a[|a| - 1]) && Accepts(c, a) && Accepts(c, b)
    ensures PrevHash(c, a[..|a| - 1]) == PrevHash(c, b[..|b| - 1])
  {
    var n, m := |a| - 1, |b| - 1;
    assert LineOk(c, a[..n], a[n]);
    assert LineOk(c, b[..m], b[m]);
  }

  /**
   A log whose every record is chained is the only intact log that ends in its last record, or comparing
   the two exhibits two lines with one hash or a line that hashes to genesis.
   */
  lemma {:induction false} TamperEvidence(c: Codec, a: seq<Line>, b: seq<Line>)
    requires a != [] && b != [] && a[|a| - 1] == b[|b| - 1]
    requires FullyChained(c, a) && Accepts(c, a)
    requires Accepts(c, b)
    ensures Holds(c, Explain(a, b), a, b)
    decreases |a|
  {
    var n, m := |a| - 1, |b| - 1;
    SamePrev(c, a, b);
    if n == 0 && m == 0 {
      assert a == [a[0]] && b == [b[0]];
    } else if n > 0 && m > 0 && a[n - 1] == b[m - 1] {
      AcceptsPrefix(c, a, n);
      AcceptsPrefix(c, b, m);
      TamperEvidence(c, a[..n], b[..m]);
      HoldsOneLater(c, Explain(a[..n], b[..m]), a, b);
    }
  }

  lemma HoldsOneLater(c: Codec, e: Evidence, a: seq<Line>, b: seq<Line>)
    requires a != [] && b != [] && a[|a| - 1] == b[|b| - 1]
    requires Holds(c, e, a[..|a| - 1], b[..|b| - 1])
    ensures Holds(c, e, a, b)
  {
    var n, m := |a| - 1, |b| - 1;
    if e == SameLog {
      assert a == a[..n] + [a[n]] && b == b[..m] + [b[m]];
    } else {
      HoldsOfMore(c, e, a[..n], b[..m], a, b);
    }
  }

  /**
   A copy of the log kept elsewhere pins the log on the host: when an intact log holds the copy's last
   record, what it holds up to that record is the copy, or the hash is broken.
   */
  lemma AnchoredCopy(c: Codec, copy: seq<Line>, upTo: seq<Line>, after: seq<Line>)
    requires copy != [] && FullyChained(c, copy) && Accepts(c, copy)
    requires upTo != [] && upTo[|upTo| - 1] == copy[|copy| - 1]
    requires Accepts(c, upTo + after)
    ensures Holds(c, Explain(copy, upTo), copy, upTo)
  {
    AcceptsPrefix(c, upTo + after, |upTo|);
    assert (upTo + after)[..|upTo|] == upTo;
    TamperEvidence(c, copy, upTo);
  }

  /** Two different logs with one last record cannot both pass while the hash holds. */
  lemma TamperingIsReported(c: Codec, a: seq<Line>, b: seq<Line>)
    requires a != [] && b != [] && a[|a| - 1] == b[|b| - 1] && a != b
    requires FullyChained(c, a) && Accepts(c, a)
    requires forall x, y :: x in a && y in b && x != y ==> c.hash(x) != c.hash(y)
    requires forall x :: x in a || x in b ==> c.hash(x) != GENESIS
    ensures exists k :: FirstBreak(c, b, k)
  {
    if Accepts(c, b) {
      TamperEvidence(c, a, b);
      assert false;
    }
    BreakExists(c, b);
  }

  lemma {:induction false} BreakExists(c: Codec, lines: seq<Line>)
    requires !Accepts(c, lines)
    ensures exists k :: FirstBreak(c, lines, k)
  {
    assert lines != [];
    var n := |lines| - 1;
    if Accepts(c, lines[..n]) {
      assert lines[..n + 1] == lines;
      assert FirstBreak(c, lines, n + 1);
    } else {
      BreakExists(c, lines[..n]);
      var k: nat :| FirstBreak(c, lines[..n], k);
      assert lines[..n][..k] == lines[..k] && lines[..n][..k - 1] == lines[..k - 1];
      assert FirstBreak(c, lines, k);
    }
  }
}
