/** The hash-chained audit log: the node that writes it, the restart that picks the chain up
    again, the Rust verifier and the TypeScript inspector. */
module TraceLog {
  import opened Texts
  import opened Json
  import opened JsonText

  /** One line of the log.  The chain hash covers only the previous hash and the frame. */
  datatype Entry = Entry(i: nat, stamp: Stamp, frame: Json, prevHash: string, hash: string)

  datatype Stamp = Stamp(timestampMs: nat, direction: string, session: string)

  /** The library calls: serde_json's line codec, SHA-256 with hexadecimal output, and what
      JavaScript makes of a numeral it reads and prints again. */
  datatype Tools = Tools(
    format: Entry -> string, parse: string -> Option<Entry>, sha: string -> string, renum: Renumber)

  const GENESIS: string := Zeros(64)

  function Zeros(n: nat): string { if n == 0 then [] else Zeros(n - 1) + "0" }

  /** The entry is serialised as one non-blank line that parses back to it. */
  ghost predicate Codes(t: Tools, e: Entry) { OneLine(t.format(e)) && t.parse(t.format(e)) == Some(e) }

  ghost predicate AllCode(t: Tools, es: seq<Entry>) { forall e | e in es :: Codes(t, e) }

  ghost predicate OneLine(line: string) {
    line != [] && '\n' !in line && !IsSpace(line[0]) && !IsSpace(line[|line| - 1])
  }

  // ---------------------------------------------------------------------------------------
  // The chain
  // ---------------------------------------------------------------------------------------

  /** The text that is hashed for an entry. */
  function Hashed(o: KeyOrder, prevHash: string, frame: Json): string {
    prevHash + CanonText(o, frame)
  }

  function Tip(es: seq<Entry>): string {
    if es == [] then GENESIS else es[|es| - 1].hash
  }

  ghost predicate Chained(t: Tools, es: seq<Entry>) {
    forall k | 0 <= k < |es| :: LinkHolds(t, es, k)
  }

  ghost predicate LinkHolds(t: Tools, es: seq<Entry>, k: nat)
    requires k < |es|
  {
    && es[k].i == k
    && es[k].prevHash == Tip(es[..k])
    && es[k].hash == t.sha(Hashed(ByteOrder, es[k].prevHash, es[k].frame))
  }

  /** A chain starts with index 0 and 64 zeros. */
  lemma ChainStarts(t: Tools, es: seq<Entry>)
    requires Chained(t, es) && es != []
    ensures es[0].i == 0 && |es[0].prevHash| == 64 && forall i | 0 <= i < 64 :: es[0].prevHash[i] == '0'
  {
    assert LinkHolds(t, es, 0);
    assert es[..0] == [];
    ZerosExact(64);
  }

  lemma {:induction false} ZerosExact(n: nat)
    ensures |Zeros(n)| == n && forall i | 0 <= i < n :: Zeros(n)[i] == '0'
  {
    if n > 0 { ZerosExact(n - 1); }
  }

  lemma ChainedPrefix(t: Tools, es: seq<Entry>, n: nat)
    requires n <= |es| && Chained(t, es)
    ensures Chained(t, es[..n])
  {
    forall k | 0 <= k < n ensures LinkHolds(t, es[..n], k) {
      assert LinkHolds(t, es, k);
      assert es[..n][..k] == es[..k];
    }
  }

  lemma ChainedSnoc(t: Tools, es: seq<Entry>, e: Entry)
    ensures Chained(t, es + [e]) <==> Chained(t, es) && e.i == |es| && e.prevHash == Tip(es)
                                      && e.hash == t.sha(Hashed(ByteOrder, e.prevHash, e.frame))
  {
    var fs := es + [e];
    assert fs[..|es|] == es;
    if Chained(t, fs) {
      ChainedPrefix(t, fs, |es|);
      assert LinkHolds(t, fs, |es|);
    }
    if Chained(t, es) {
      forall k | 0 <= k < |es| ensures LinkHolds(t, fs, k) {
        assert LinkHolds(t, es, k);
        assert fs[..k] == es[..k];
      }
    }
  }

  // ---------------------------------------------------------------------------------------
  // The file
  // ---------------------------------------------------------------------------------------

  function Disk(t: Tools, es: seq<Entry>): string {
    if es == [] then [] else t.format(es[0]) + ("\n" + Disk(t, es[1..]))
  }

  function UntilNewline(file: string): (n: nat)
    ensures n <= |file| && '\n' !in file[..n] && (n < |file| ==> file[n] == '\n')
  {
    if file == [] || file[0] == '\n' then 0
    else
      var n := UntilNewline(file[1..]);
      assert file[..n + 1] == [file[0]] + file[1..][..n];
      n + 1
  }

  function StripCr(line: string): string {
    if line != [] && line[|line| - 1] == '\r' then line[..|line| - 1] else line
  }

  /** `BufRead::lines`. */
  function Lines(file: string): seq<string>
    decreases |file|
  {
    if file == [] then []
    else
      var n := UntilNewline(file);
      if n == |file| then [file] else [StripCr(file[..n])] + Lines(file[n + 1..])
  }

  /** The first line of a text that contains a newline. */
  lemma LinesCons(head: string, tail: string)
    requires '\n' !in head
    ensures Lines(head + ("\n" + tail)) == [StripCr(head)] + Lines(tail)
  {
    var all := head + ("\n" + tail);
    NewlineAt(head, tail);
    assert all[..|head|] == head;
    assert all[|head| + 1..] == tail;
  }

  lemma {:induction false} DiskSnoc(t: Tools, es: seq<Entry>, e: Entry)
    ensures Disk(t, es + [e]) == Disk(t, es) + (t.format(e) + "\n")
  {
    if es == [] {
      assert (es + [e])[1..] == [];
      assert t.format(e) + ("\n" + []) == [] + (t.format(e) + "\n");
    } else {
      var line, more := t.format(es[0]) + "\n", t.format(e) + "\n";
      assert (es + [e])[1..] == es[1..] + [e];
      DiskSnoc(t, es[1..], e);
      Regroup(t.format(es[0]), "\n", Disk(t, es[1..]));
      Regroup(t.format(es[0]), "\n", Disk(t, es[1..]) + more);
      Regroup(line, Disk(t, es[1..]), more);
    }
  }

  function LineTexts(t: Tools, es: seq<Entry>): seq<string> {
    if es == [] then [] else LineTexts(t, es[..|es| - 1]) + [t.format(es[|es| - 1])]
  }

  lemma {:induction false} LineTextsCons(t: Tools, es: seq<Entry>)
    requires es != []
    ensures LineTexts(t, es) == [t.format(es[0])] + LineTexts(t, es[1..])
  {
    if |es| > 1 {
      LineTextsCons(t, es[..|es| - 1]);
      assert es[..|es| - 1][1..] == es[1..][..|es| - 2];
    }
  }

  lemma {:induction false} LinesOfDisk(t: Tools, es: seq<Entry>)
    requires AllCode(t, es)
    ensures Lines(Disk(t, es)) == LineTexts(t, es)
  {
    if es != [] {
      assert Codes(t, es[0]) && AllCode(t, es[1..]);
      LinesCons(t.format(es[0]), Disk(t, es[1..]));
      LinesOfDisk(t, es[1..]);
      LineTextsCons(t, es);
    }
  }

  lemma {:induction false} NewlineAt(head: string, tail: string)
    requires '\n' !in head
    ensures UntilNewline(head + ("\n" + tail)) == |head|
  {
    if head == [] {
      assert head + ("\n" + tail) == "\n" + tail;
    } else {
      assert head[0] in head;
      assert (head + ("\n" + tail))[1..] == head[1..] + ("\n" + tail);
      NewlineAt(head[1..], tail);
    }
  }

  /** Parses the non-blank lines; None when one of them does not parse. */
  function ParseLines(t: Tools, lines: seq<string>): Option<seq<Entry>> {
    if lines == [] then Some([])
    else
      var line := lines[|lines| - 1];
      match ParseLines(t, lines[..|lines| - 1])
      case None => None
      case Some(es) =>
        if Trim(line) == [] then Some(es)
        else match t.parse(line) case None => None case Some(e) => Some(es + [e])
  }

  lemma TrimOneLine(line: string)
    requires OneLine(line)
    ensures Trim(line) == line && Trim(line + "\n") == line
  {
    assert TrimLeft(line + "\n") == line + "\n";
    assert (line + "\n")[..|line|] == line;
  }

  lemma {:induction false} TextsParse(t: Tools, es: seq<Entry>)
    requires AllCode(t, es)
    ensures ParseLines(t, LineTexts(t, es)) == Some(es)
  {
    if es != [] {
      var init, e := es[..|es| - 1], es[|es| - 1];
      var ls, line := LineTexts(t, init), t.format(e);
      assert AllCode(t, init) && Codes(t, e);
      TextsParse(t, init);
      TrimOneLine(line);
      assert (ls + [line])[..|ls|] == ls;
      assert es == init + [e];
    }
  }

  lemma DiskParses(t: Tools, es: seq<Entry>)
    requires AllCode(t, es)
    ensures ParseLines(t, Lines(Disk(t, es))) == Some(es)
  {
    LinesOfDisk(t, es);
    TextsParse(t, es);
  }

  // ---------------------------------------------------------------------------------------
  // Recovery after a restart
  // ---------------------------------------------------------------------------------------

  /** Where the content of the last line stops: before an optional final newline. */
  function ContentEnd(file: string): (end: nat)
    ensures end <= |file|
  {
    if file != [] && file[|file| - 1] == '\n' then |file| - 1 else |file|
  }

  /** One past the last newline before ContentEnd, or 0 if there is none. */
  ghost predicate IsLastLineStart(file: string, pos: nat) {
    && pos <= ContentEnd(file)
    && '\n' !in file[pos..ContentEnd(file)]
    && (pos == 0 || file[pos - 1] == '\n')
  }

  function LineStartBefore(file: string, end: nat): (pos: nat)
    requires end <= |file|
    ensures pos <= end && '\n' !in file[pos..end] && (pos == 0 || file[pos - 1] == '\n')
  {
    if end == 0 || file[end - 1] == '\n' then end
    else
      var pos := LineStartBefore(file, end - 1);
      assert file[pos..end] == file[pos..end - 1] + [file[end - 1]];
      pos
  }

  lemma {:induction false} LineStartFound(file: string, end: nat, pos: nat)
    requires pos <= end <= |file| && '\n' !in file[pos..end] && (pos == 0 || file[pos - 1] == '\n')
    ensures LineStartBefore(file, end) == pos
  {
    if pos < end {
      assert file[pos..end][end - 1 - pos] == file[end - 1];
      assert file[pos..end] == file[pos..end - 1] + [file[end - 1]];
      LineStartFound(file, end - 1, pos);
    }
  }

  method RPosition(chunk: string) returns (idx: Option<nat>)
    ensures idx.None? ==> '\n' !in chunk
    ensures idx.Some? ==> idx.value < |chunk| && chunk[idx.value] == '\n' && '\n' !in chunk[idx.value + 1..]
  {
    var k := |chunk|;
    while k > 0
      invariant 0 <= k <= |chunk| && '\n' !in chunk[k..]
    {
      if chunk[k - 1] == '\n' { return Some(k - 1); }
      assert chunk[k - 1..] == [chunk[k - 1]] + chunk[k..];
      k := k - 1;
    }
    assert chunk[0..] == chunk;
    return None;
  }

  lemma SliceJoin(s: string, a: nat, b: nat, c: nat)
    requires a <= b <= c <= |s|
    ensures s[a..c] == s[a..b] + s[b..c]
  {
  }

  lemma SliceTail(s: string, a: nat, b: nat, k: nat)
    requires a <= b <= |s| && k <= b - a
    ensures s[a..b][k..] == s[a + k..b]
  {
  }

  /** The chunked backward scan of `recover_state`, for every chunk size of at least one. */
  method LastLineOffset(file: string, chunkSize: nat) returns (pos: nat)
    requires chunkSize >= 1
    ensures IsLastLineStart(file, pos)
  {
    pos := |file|;
    if pos > 0 && file[pos - 1] == '\n' { pos := pos - 1; }
    var end := pos;
    while pos > 0
      invariant 0 <= pos <= end == ContentEnd(file) && '\n' !in file[pos..end]
    {
      var readLen := if pos < chunkSize then pos else chunkSize;
      var upper := pos;
      pos := pos - readLen;
      var chunk := file[pos..upper];
      SliceJoin(file, pos, upper, end);
      var idx := RPosition(chunk);
      if idx.Some? {
        SliceTail(file, pos, upper, idx.value + 1);
        pos := pos + idx.value + 1;
        SliceJoin(file, pos, upper, end);
        break;
      }
    }
  }

  /** What a restarted logger continues from: the hash and the successor of the index of the
      last line.  None when that line does not parse. */
  function Recovered(t: Tools, file: string): Option<(string, nat)> {
    if file == [] then Some((GENESIS, 0))
    else
      var line := Trim(LastText(file));
      if line == [] then Some((GENESIS, 0))
      else match t.parse(line) case None => None case Some(e) => Some((e.hash, e.i + 1))
  }

  method RecoverState(t: Tools, file: string) returns (r: Option<(string, nat)>)
    ensures r == Recovered(t, file)
  {
    if |file| == 0 { return Some((GENESIS, 0)); }
    var pos := LastLineOffset(file, 4096);
    LineStartFound(file, ContentEnd(file), pos);
    var trimmed := Trim(file[pos..]);
    if trimmed == [] { return Some((GENESIS, 0)); }
    var parsed := t.parse(trimmed);
    match parsed
    case None => return None;
    case Some(e) => return Some((e.hash, e.i + 1));
  }

  /** The text of the last line, with its newline if it has one. */
  function LastText(file: string): string { file[LineStartBefore(file, ContentEnd(file))..] }

  lemma ShiftedSlice(s: string, k: nat, a: nat, b: nat)
    requires k <= |s| && a <= b <= |s| - k
    ensures s[k..][a..b] == s[k + a..k + b]
  {
  }

  lemma ShiftedTail(s: string, k: nat, a: nat)
    requires k <= |s| && a <= |s| - k
    ensures s[k..][a..] == s[k + a..]
  {
  }

  lemma ShiftedEnd(file: string, k: nat)
    requires k < |file|
    ensures ContentEnd(file) == k + ContentEnd(file[k..])
  {
    assert file[k..][|file| - k - 1] == file[|file| - 1];
  }

  /** The same last line, seen from the whole file and from behind one of its newlines. */
  lemma LastTextShifts(file: string, k: nat)
    requires 0 < k < |file| && file[k - 1] == '\n'
    ensures LastText(file) == LastText(file[k..])
  {
    var rest := file[k..];
    var end := ContentEnd(rest);
    var p := LineStartBefore(rest, end);
    ShiftedEnd(file, k);
    ShiftedSlice(file, k, p, end);
    ShiftedTail(file, k, p);
    assert p > 0 ==> rest[p - 1] == file[k + p - 1];
    LineStartFound(file, k + end, k + p);
  }

  lemma OnlyLineEnd(file: string)
    requires file != [] && UntilNewline(file) >= |file| - 1
    ensures ContentEnd(file) == UntilNewline(file)
  {
    var n := UntilNewline(file);
    if n == |file| { assert file[|file| - 1] in file[..n]; }
  }

  lemma OnlyLine(file: string)
    requires file != [] && UntilNewline(file) >= |file| - 1
    ensures LastText(file) == file
  {
    OnlyLineEnd(file);
    StartOfFirst(file, UntilNewline(file));
  }

  lemma StartOfFirst(file: string, n: nat)
    requires n <= |file| && '\n' !in file[..n]
    ensures LineStartBefore(file, n) == 0
  {
    assert file[0..n] == file[..n];
    LineStartFound(file, n, 0);
  }

  /** The last of the lines, white space trimmed, is what recovery reads. */
  lemma {:induction false} LastOfLines(file: string)
    requires file != []
    ensures var ls := Lines(file); ls != [] && Trim(LastText(file)) == Trim(ls[|ls| - 1])
    decreases |file|
  {
    var n := UntilNewline(file);
    if n >= |file| - 1 {
      OnlyLine(file);
      if n < |file| {
        assert file == file[..n] + "\n" && file[n + 1..] == [];
        TrimTail(file[..n]);
      }
    } else {
      LastOfLines(file[n + 1..]);
      LastTextShifts(file, n + 1);
    }
  }

  /** A newline, and a carriage return before it, do not matter to `trim`. */
  lemma TrimTail(line: string)
    ensures Trim(line + "\n") == Trim(StripCr(line))
  {
    if line != [] && line[|line| - 1] == '\r' {
      var core := line[..|line| - 1];
      assert line == core + "\r";
      TrimSnoc(line, '\n');
      TrimSnoc(core, '\r');
    } else {
      TrimSnoc(line, '\n');
    }
  }

  lemma {:induction false} TrimSnoc(s: string, c: char)
    requires IsSpace(c)
    ensures Trim(s + [c]) == Trim(s)
  {
    if s == [] {
      assert s + [c] == [c] && [c][1..] == [];
    } else if IsSpace(s[0]) {
      assert (s + [c])[1..] == s[1..] + [c];
      TrimSnoc(s[1..], c);
    } else {
      assert (s + [c])[..|s|] == s;
    }
  }

  /** serde ignores white space around a value. */
  ghost predicate IgnoresSpace(t: Tools, line: string) { t.parse(Trim(line)) == t.parse(line) }

  /** Recovery continues a file that the verifier accepts, exactly if the file has no entries or its
      last line is not blank; otherwise it starts a second chain at genesis. */
  lemma RecoveryExact(t: Tools, file: string)
    requires Accepts(t, Lines(file)) && forall line | line in Lines(file) :: IgnoresSpace(t, line)
    ensures var es, ls := ParseLines(t, Lines(file)).value, Lines(file);
            Recovered(t, file) == Some((Tip(es), |es|)) <==> es == [] || Trim(ls[|ls| - 1]) != []
  {
    var ls := Lines(file);
    var es := ParseLines(t, ls).value;
    if file != [] {
      LastOfLines(file);
      var last := ls[|ls| - 1];
      assert last in ls;
      if Trim(last) != [] {
        var e := es[|es| - 1];
        assert LinkHolds(t, es, |es| - 1);
      }
    }
  }

  lemma {:induction false} DiskEndsLine(t: Tools, es: seq<Entry>)
    ensures Disk(t, es) == [] || Disk(t, es)[|Disk(t, es)| - 1] == '\n'
  {
    if es != [] { DiskEndsLine(t, es[1..]); }
  }

  /** The last line of a text that ends in a whole line. */
  lemma LastLineOf(before: string, line: string)
    requires (before == [] || before[|before| - 1] == '\n') && OneLine(line)
    ensures var file := before + (line + "\n");
            LineStartBefore(file, ContentEnd(file)) == |before| && file[|before|..] == line + "\n"
  {
    var file := before + (line + "\n");
    assert file[|before|..ContentEnd(file)] == line;
    LineStartFound(file, ContentEnd(file), |before|);
  }

  lemma TrimmedLastLine(file: string, before: string, line: string)
    requires (before == [] || before[|before| - 1] == '\n') && OneLine(line) && file == before + (line + "\n")
    ensures file != [] && Trim(LastText(file)) == line
  {
    LastLineOf(before, line);
    TrimOneLine(line);
  }

  lemma RecoveredLine(t: Tools, file: string, e: Entry)
    requires file != [] && Trim(LastText(file)) != [] && t.parse(Trim(LastText(file))) == Some(e)
    ensures Recovered(t, file) == Some((e.hash, e.i + 1))
  {
  }

  lemma RecoveredAfter(t: Tools, es: seq<Entry>, e: Entry)
    requires Codes(t, e)
    ensures Recovered(t, Disk(t, es + [e])) == Some((e.hash, e.i + 1))
  {
    var file, before, line := Disk(t, es + [e]), Disk(t, es), t.format(e);
    DiskSnoc(t, es, e);
    DiskEndsLine(t, es);
    TrimmedLastLine(file, before, line);
    RecoveredLine(t, file, e);
  }

  lemma RecoveredFromDisk(t: Tools, es: seq<Entry>)
    requires AllCode(t, es)
    ensures Recovered(t, Disk(t, es)) == Some((Tip(es), if es == [] then 0 else es[|es| - 1].i + 1))
  {
    if es != [] {
      var e := es[|es| - 1];
      assert Codes(t, e);
      RecoveredAfter(t, es[..|es| - 1], e);
      assert es == es[..|es| - 1] + [e];
    }
  }

  // ---------------------------------------------------------------------------------------
  // Runs of the writer
  // ---------------------------------------------------------------------------------------

  datatype State = State(file: string, lastHash: string, counter: nat, up: bool)

  datatype Op =
    | Append(stamp: Stamp, frame: Json)
    | LostAppend(frame: Json)  // the write failed and left the file as it was
    | Restart

  function NextEntry(t: Tools, s: State, stamp: Stamp, frame: Json): Entry {
    Entry(s.counter, stamp, frame, s.lastHash, t.sha(Hashed(ByteOrder, s.lastHash, frame)))
  }

  /** `log` moves `last_hash` and `counter` before it writes the line. */
  function Step(t: Tools, s: State, op: Op): State {
    match op
    case Append(stamp, frame) =>
      if !s.up then s
      else
        var e := NextEntry(t, s, stamp, frame);
        State(s.file + (t.format(e) + "\n"), e.hash, s.counter + 1, true)
    case LostAppend(frame) =>
      if !s.up then s
      else s.(lastHash := t.sha(Hashed(ByteOrder, s.lastHash, frame)), counter := s.counter + 1)
    case Restart =>
      match Recovered(t, s.file)
      case None => s.(up := false)
      case Some((h, i)) => State(s.file, h, i, true)
  }

  class TraceLogger {
    const t: Tools
    var file: string
    var lastHash: string
    var counter: nat
    var up: bool

    ghost function View(): State
      reads this
    {
      State(file, lastHash, counter, up)
    }

    /** Opens the log: creates the file or continues the one that is there. */
    constructor (t: Tools, file: string)
      ensures this.t == t && this.file == file
      ensures up == Recovered(t, file).Some?
      ensures up ==> (lastHash, counter) == Recovered(t, file).value
    {
      this.t, this.file := t, file;
      var r := RecoverState(t, file);
      match r
      case None => lastHash, counter, up := GENESIS, 0, false;
      case Some(p) => lastHash, counter, up := p.0, p.1, true;
    }

    /** `written` is false when the write fails after the chain state has moved. */
    method Log(stamp: Stamp, frame: Json, written: bool)
      requires up
      modifies this
      ensures View() == Step(t, old(View()), if written then Append(stamp, frame) else LostAppend(frame))
    {
      var prevHash, i := lastHash, counter;
      counter := counter + 1;
      lastHash := t.sha(prevHash + CanonText(ByteOrder, frame));
      if written {
        var entry := Entry(i, stamp, frame, prevHash, lastHash);
        file := file + (t.format(entry) + "\n");
      }
    }

    method Reopen()
      modifies this
      ensures View() == Step(t, old(View()), Restart)
    {
      var r := RecoverState(t, file);
      match r
      case None => up := false;
      case Some(p) => lastHash, counter, up := p.0, p.1, true;
    }
  }

  function Run(t: Tools, ops: seq<Op>): State {
    if ops == [] then State([], GENESIS, 0, true) else Step(t, Run(t, ops[..|ops| - 1]), ops[|ops| - 1])
  }

  /** The entries a run has written. */
  ghost function Written(t: Tools, ops: seq<Op>): seq<Entry> {
    if ops == [] then []
    else
      var es := Written(t, ops[..|ops| - 1]);
      match ops[|ops| - 1]
      case Append(stamp, frame) => es + [NextEntry(t, Run(t, ops[..|ops| - 1]), stamp, frame)]
      case _ => es
  }

  /** A write was lost and the node has not been restarted since. */
  predicate Dirty(ops: seq<Op>) {
    ops != [] &&
    match ops[|ops| - 1]
    case Append(_, _) => Dirty(ops[..|ops| - 1])
    case LostAppend(_) => true
    case Restart => false
  }

  /** No append follows a lost one without a restart in between. */
  predicate Disciplined(ops: seq<Op>) {
    ops == [] || (Disciplined(ops[..|ops| - 1]) && (ops[|ops| - 1].Append? ==> !Dirty(ops[..|ops| - 1])))
  }

  lemma WrittenGrows(t: Tools, ops: seq<Op>)
    requires ops != []
    ensures forall e | e in Written(t, ops[..|ops| - 1]) :: e in Written(t, ops)
  {
  }

  lemma {:induction false} RunWritesDisk(t: Tools, ops: seq<Op>)
    requires AllCode(t, Written(t, ops))
    ensures Run(t, ops).up && Run(t, ops).file == Disk(t, Written(t, ops))
  {
    if ops != [] {
      var init, es := ops[..|ops| - 1], Written(t, ops[..|ops| - 1]);
      assert AllCode(t, es) by { WrittenGrows(t, ops); }
      RunWritesDisk(t, init);
      match ops[|ops| - 1]
      case Append(stamp, frame) =>
        DiskSnoc(t, es, NextEntry(t, Run(t, init), stamp, frame));
      case LostAppend(_) =>
      case Restart => RecoveredFromDisk(t, es);
    }
  }

  lemma {:induction false} RunKeepsChain(t: Tools, ops: seq<Op>)
    requires AllCode(t, Written(t, ops))
    ensures Chained(t, Written(t, ops)) <==> Disciplined(ops)
    ensures Disciplined(ops) ==>
              var s, es := Run(t, ops), Written(t, ops);
              if Dirty(ops) then s.counter > |es| else s.counter == |es| && s.lastHash == Tip(es)
  {
    if ops != [] {
      var init, es := ops[..|ops| - 1], Written(t, ops[..|ops| - 1]);
      assert AllCode(t, es) by { WrittenGrows(t, ops); }
      RunKeepsChain(t, init);
      RunWritesDisk(t, init);
      match ops[|ops| - 1]
      case Append(stamp, frame) =>
        ChainedSnoc(t, es, NextEntry(t, Run(t, init), stamp, frame));
      case LostAppend(_) =>
      case Restart =>
        RecoveredFromDisk(t, es);
        if Chained(t, es) && es != [] { assert LinkHolds(t, es, |es| - 1); }
    }
  }

  // ---------------------------------------------------------------------------------------
  // The Rust verifier
  // ---------------------------------------------------------------------------------------

  datatype Fault = Unparsable | SequenceBreak | PrevHashMismatch | HashMismatch

  datatype Verdict = Verified(entries: nat) | Rejected(line: nat, fault: Fault)

  ghost predicate Accepts(t: Tools, lines: seq<string>) {
    ParseLines(t, lines).Some? && Chained(t, ParseLines(t, lines).value)
  }

  function CheckEntry(t: Tools, prevHash: string, expected: nat, e: Entry): Option<Fault> {
    if e.i != expected then Some(SequenceBreak)
    else if e.prevHash != prevHash then Some(PrevHashMismatch)
    else if t.sha(prevHash + CanonText(ByteOrder, e.frame)) != e.hash then Some(HashMismatch)
    else None
  }

  /** The first thing wrong with a line that follows the chain es. */
  predicate FaultIs(t: Tools, es: seq<Entry>, e: Option<Entry>, fault: Fault) {
    match fault
    case Unparsable => e.None?
    case SequenceBreak => e.Some? && e.value.i != |es|
    case PrevHashMismatch => e.Some? && e.value.i == |es| && e.value.prevHash != Tip(es)
    case HashMismatch =>
      && e.Some? && e.value.i == |es| && e.value.prevHash == Tip(es)
      && e.value.hash != t.sha(Tip(es) + CanonText(ByteOrder, e.value.frame))
  }

  /** `verify_trace_file`: accepts exactly the files whose non-blank lines parse to a chain
      with indices 0, 1, 2, ...; a rejection names the first line that breaks it. */
  method VerifyTraceFile(t: Tools, file: string) returns (v: Verdict)
    ensures v.Verified? <==> Accepts(t, Lines(file))
    ensures v.Verified? ==> v.entries == |ParseLines(t, Lines(file)).value|
    ensures v.Rejected? ==> v.line < |Lines(file)| && Accepts(t, Lines(file)[..v.line]) && !Accepts(t, Lines(file)[..v.line + 1])
    ensures v.Rejected? ==> FaultIs(t, ParseLines(t, Lines(file)[..v.line]).value, t.parse(Lines(file)[v.line]), v.fault)
  {
    var lines := Lines(file);
    var prevHash, expected := GENESIS, 0;
    ghost var es: seq<Entry> := [];
    for n := 0 to |lines|
      invariant ParseLines(t, lines[..n]) == Some(es) && Chained(t, es)
      invariant expected == |es| && prevHash == Tip(es)
    {
      var line := lines[n];
      ParseNext(t, lines, n, es);
      if Trim(line) != [] {
        var parsed := t.parse(line);
        if parsed.None? {
          RejectionIsFinal(t, lines, n);
          return Rejected(n, Unparsable);
        }
        var entry := parsed.value;
        ChainedSnoc(t, es, entry);
        var fault := CheckEntry(t, prevHash, expected, entry);
        if fault.Some? {
          RejectionIsFinal(t, lines, n);
          return Rejected(n, fault.value);
        }
        es := es + [entry];
        prevHash, expected := entry.hash, expected + 1;
      }
    }
    assert lines[..|lines|] == lines;
    return Verified(expected);
  }

  lemma ParseNext(t: Tools, lines: seq<string>, n: nat, es: seq<Entry>)
    requires n < |lines| && ParseLines(t, lines[..n]) == Some(es)
    ensures ParseLines(t, lines[..n + 1]) ==
            if Trim(lines[n]) == [] then Some(es)
            else if t.parse(lines[n]).Some? then Some(es + [t.parse(lines[n]).value]) else None
  {
    assert lines[..n + 1][..n] == lines[..n];
  }

  lemma {:induction false} RejectionIsFinal(t: Tools, lines: seq<string>, n: nat)
    requires n < |lines| && !Accepts(t, lines[..n + 1])
    ensures !Accepts(t, lines)
    decreases |lines|
  {
    if n + 1 == |lines| {
      assert lines[..n + 1] == lines;
    } else {
      var init := lines[..|lines| - 1];
      assert init[..n + 1] == lines[..n + 1];
      RejectionIsFinal(t, init, n);
      if Accepts(t, lines) && ParseLines(t, lines) != ParseLines(t, init) {
        var es := ParseLines(t, init).value;
        ChainedSnoc(t, es, t.parse(lines[|lines| - 1]).value);
      }
    }
  }

  /** Every run of appends, lost appends and restarts from an empty file leaves a file that
      the verifier accepts, unless an append follows a lost one without a restart. */
  lemma EveryRunVerifies(t: Tools, ops: seq<Op>)
    requires AllCode(t, Written(t, ops))
    ensures Accepts(t, Lines(Run(t, ops).file)) <==> Disciplined(ops)
    ensures ParseLines(t, Lines(Run(t, ops).file)) == Some(Written(t, ops))
  {
    RunWritesDisk(t, ops);
    RunKeepsChain(t, ops);
    DiskParses(t, Written(t, ops));
  }

  // ---------------------------------------------------------------------------------------
  // The TypeScript inspector
  // ---------------------------------------------------------------------------------------

  /** The text the inspector hashes: it has read the frame with JSON.parse and prints it again. */
  function Inspected(t: Tools, prevHash: string, frame: Json): string {
    Hashed(JsOrder, prevHash, Reread(t.renum, frame))
  }

  ghost predicate EntryHolds(t: Tools, es: seq<Entry>, k: nat)
    requires k < |es|
  {
    && t.sha(Inspected(t, es[k].prevHash, es[k].frame)) == es[k].hash
    && (k > 0 ==> es[k].prevHash == es[k - 1].hash)
  }

  /** `verifyTraceIntegrity`: the result is the first entry whose hash or back link is wrong. */
  method VerifyTraceIntegrity(t: Tools, es: seq<Entry>) returns (firstViolation: Option<nat>)
    ensures firstViolation.None? <==> forall k | 0 <= k < |es| :: EntryHolds(t, es, k)
    ensures firstViolation.Some? ==>
              var v := firstViolation.value;
              v < |es| && !EntryHolds(t, es, v) && forall k | 0 <= k < v :: EntryHolds(t, es, k)
  {
    if |es| == 0 { return None; }
    var i := 0;
    while i < |es|
      invariant 0 <= i <= |es|
      invariant forall k | 0 <= k < i :: EntryHolds(t, es, k)
      invariant 0 < i < |es| ==> es[i].prevHash == es[i - 1].hash
    {
      var calculated := t.sha(es[i].prevHash + CanonText(JsOrder, Reread(t.renum, es[i].frame)));
      if calculated != es[i].hash {
        assert !EntryHolds(t, es, i);
        return Some(i);
      }
      if i < |es| - 1 {
        if es[i + 1].prevHash != es[i].hash {
          assert EntryHolds(t, es, i) && !EntryHolds(t, es, i + 1);
          return Some(i + 1);
        }
      }
      i := i + 1;
    }
    return None;
  }

  ghost predicate InspectorAccepts(t: Tools, es: seq<Entry>) {
    forall k | 0 <= k < |es| :: EntryHolds(t, es, k)
  }

  /** On frames that both canonicalisers print alike, the node's verifier asks for exactly
      what the inspector asks for, plus a genesis start and consecutive indices. */
  lemma VerifiersAgree(t: Tools, es: seq<Entry>)
    requires forall e | e in es :: Portable(t.renum, e.frame)
    ensures Chained(t, es) <==> InspectorAccepts(t, es)
                                && (es != [] ==> es[0].prevHash == GENESIS)
                                && (forall k | 0 <= k < |es| :: es[k].i == k)
  {
    forall k | 0 <= k < |es|
      ensures Hashed(ByteOrder, es[k].prevHash, es[k].frame) == Inspected(t, es[k].prevHash, es[k].frame)
    {
      assert es[k] in es;
      PortableSuffices(t.renum, es[k].frame);
    }
    if Chained(t, es) {
      forall k | 0 <= k < |es| ensures EntryHolds(t, es, k) { assert LinkHolds(t, es, k); }
      if es != [] { assert LinkHolds(t, es, 0); }
      forall k | 0 <= k < |es| ensures es[k].i == k { assert LinkHolds(t, es, k); }
    }
    if InspectorAccepts(t, es) && (es != [] ==> es[0].prevHash == GENESIS) && (forall k | 0 <= k < |es| :: es[k].i == k) {
      forall k | 0 <= k < |es| ensures LinkHolds(t, es, k) {
        assert EntryHolds(t, es, k);
        if k > 0 { assert es[..k][k - 1] == es[k - 1]; }
      }
    }
  }

  /** Two texts that the hash keeps apart if they differ. */
  ghost predicate Apart(t: Tools, x: string, y: string) {
    t.sha(x) == t.sha(y) ==> x == y
  }

  /** A log written by the node passes the inspector exactly when every frame is portable,
      as long as the hash separates the two printed forms of each frame. */
  lemma InspectorAcceptsWhatTheNodeWrote(t: Tools, es: seq<Entry>)
    requires Chained(t, es)
    requires forall e | e in es :: DistinctKeys(e.frame) && WellFormed(e.frame) && WellFormed(Reread(t.renum, e.frame))
    requires forall e | e in es :: Apart(t, Hashed(ByteOrder, e.prevHash, e.frame), Inspected(t, e.prevHash, e.frame))
    ensures InspectorAccepts(t, es) <==> forall e | e in es :: Portable(t.renum, e.frame)
  {
    if forall e | e in es :: Portable(t.renum, e.frame) { VerifiersAgree(t, es); }
    if InspectorAccepts(t, es) {
      forall k | 0 <= k < |es| ensures Portable(t.renum, es[k].frame) {
        var e := es[k];
        assert e in es && LinkHolds(t, es, k) && EntryHolds(t, es, k);
        SameTextPortable(t, e.prevHash, e.frame);
      }
    }
  }

  lemma SameTextPortable(t: Tools, prevHash: string, frame: Json)
    requires DistinctKeys(frame) && WellFormed(frame) && WellFormed(Reread(t.renum, frame))
    requires Hashed(ByteOrder, prevHash, frame) == Inspected(t, prevHash, frame)
    ensures Portable(t.renum, frame)
  {
    var other := Reread(t.renum, frame);
    var x, y := CanonText(ByteOrder, frame), CanonText(JsOrder, other);
    SamePrefix(prevHash, prevHash, x, y);
    CanonWellFormed(ByteOrder, frame);
    CanonWellFormed(JsOrder, other);
    assert x + [] == y + [];
    PrintUnique(Canon(ByteOrder, frame), Canon(JsOrder, other), [], []);
    CanonicalisersAgree(t.renum, frame);
  }

  /** A log whose one frame holds a number that JavaScript prints differently, written by the
      node, fails the inspector. */
  lemma NumberFailsInspection(t: Tools, e: Entry, key: string, l: string)
    requires t.renum(l) != l && Numeral(l) && Numeral(t.renum(l)) && key != "__proto__"
    requires e.frame == Obj([Member(key, Num(l))]) && Chained(t, [e])
    requires Apart(t, Hashed(ByteOrder, e.prevHash, e.frame), Inspected(t, e.prevHash, e.frame))
    ensures !InspectorAccepts(t, [e])
  {
    var m := Member(key, Num(l));
    OneKeyIsPortable(m);
    OneMemberNotPortable(t.renum, m);
    OneNumberWellFormed(key, l);
    OneNumberWellFormed(key, t.renum(l));
    assert Reread(t.renum, e.frame).members == [Member(key, Num(t.renum(l)))];
    assert [e][0] in [e];
    InspectorAcceptsWhatTheNodeWrote(t, [e]);
  }

  lemma OneNumberWellFormed(key: string, l: string)
    requires Numeral(l)
    ensures WellFormed(Obj([Member(key, Num(l))]))
  {
  }

  lemma {:induction false} WrittenFrames(t: Tools, ops: seq<Op>, p: Json -> bool)
    requires forall op | op in ops && op.Append? :: p(op.frame)
    ensures forall e | e in Written(t, ops) :: p(e.frame)
  {
    if ops != [] { WrittenFrames(t, ops[..|ops| - 1], p); }
  }

  /** Every run that does not append after a lost write passes the inspector too, if the frames
      it appends are portable. */
  lemma EveryRunPassesInspection(t: Tools, ops: seq<Op>)
    requires AllCode(t, Written(t, ops)) && Disciplined(ops) && forall op | op in ops && op.Append? :: Portable(t.renum, op.frame)
    ensures InspectorAccepts(t, Written(t, ops))
  {
    RunKeepsChain(t, ops);
    WrittenFrames(t, ops, frame => Portable(t.renum, frame));
    VerifiersAgree(t, Written(t, ops));
  }

  // ---------------------------------------------------------------------------------------
  // Tamper evidence
  // ---------------------------------------------------------------------------------------

  function HashedAt(es: seq<Entry>, k: nat): string
    requires k < |es|
  {
    Hashed(ByteOrder, es[k].prevHash, es[k].frame)
  }

  /** Two texts recorded in the logs have the same digest although they differ, or one of
      them hashes to the genesis value. */
  ghost predicate HashBroken(t: Tools, es: seq<Entry>, fs: seq<Entry>) {
    || (exists j, k | 0 <= j < |es| && 0 <= k < |fs| ::
          HashedAt(es, j) != HashedAt(fs, k) && t.sha(HashedAt(es, j)) == t.sha(HashedAt(fs, k)))
    || (exists j | 0 <= j < |es| :: t.sha(HashedAt(es, j)) == GENESIS)
    || (exists k | 0 <= k < |fs| :: t.sha(HashedAt(fs, k)) == GENESIS)
  }

  ghost predicate SameContent(es: seq<Entry>, fs: seq<Entry>) {
    && |es| == |fs|
    && forall k | 0 <= k < |es| ::
         es[k].hash == fs[k].hash && Meaning(es[k].frame) == Meaning(fs[k].frame)
  }

  /** Two accepted logs with the same last hash carry the same frames, up to key order, at
      every position; otherwise they exhibit a break of the hash. */
  lemma {:induction false} TamperEvident(t: Tools, es: seq<Entry>, fs: seq<Entry>)
    requires forall x :: |t.sha(x)| == 64
    requires Chained(t, es) && Chained(t, fs) && Tip(es) == Tip(fs)
    requires forall e | e in es :: WellFormed(e.frame)
    requires forall e | e in fs :: WellFormed(e.frame)
    ensures SameContent(es, fs) || HashBroken(t, es, fs)
  {
    if es == [] {
      if fs != [] { assert LinkHolds(t, fs, |fs| - 1) && t.sha(HashedAt(fs, |fs| - 1)) == GENESIS; }
    } else if fs == [] {
      assert LinkHolds(t, es, |es| - 1) && t.sha(HashedAt(es, |es| - 1)) == GENESIS;
    } else {
      var j, k := |es| - 1, |fs| - 1;
      assert LinkHolds(t, es, j) && LinkHolds(t, fs, k);
      assert t.sha(HashedAt(es, j)) == t.sha(HashedAt(fs, k));
      if HashedAt(es, j) == HashedAt(fs, k) {
        assert es[j] in es && fs[k] in fs;
        SameLast(t, es, fs);
        ChainedPrefix(t, es, j);
        ChainedPrefix(t, fs, k);
        TamperEvident(t, es[..j], fs[..k]);
        if HashBroken(t, es[..j], fs[..k]) {
          HashBrokenExtends(t, es, fs, j, k);
        } else {
          SameContentExtends(es, fs);
        }
      }
    }
  }

  lemma SameContentExtends(es: seq<Entry>, fs: seq<Entry>)
    requires es != [] && fs != [] && SameContent(es[..|es| - 1], fs[..|fs| - 1]) && Tip(es) == Tip(fs)
    requires Meaning(es[|es| - 1].frame) == Meaning(fs[|fs| - 1].frame)
    ensures SameContent(es, fs)
  {
    forall k | 0 <= k < |es| - 1
      ensures es[k].hash == fs[k].hash && Meaning(es[k].frame) == Meaning(fs[k].frame)
    {
      assert es[k] == es[..|es| - 1][k] && fs[k] == fs[..|fs| - 1][k];
    }
  }

  lemma TipLength(t: Tools, es: seq<Entry>)
    requires (forall x :: |t.sha(x)| == 64) && Chained(t, es)
    ensures |Tip(es)| == 64
  {
    if es == [] { ZerosExact(64); } else { assert LinkHolds(t, es, |es| - 1); }
  }

  lemma SameLast(t: Tools, es: seq<Entry>, fs: seq<Entry>)
    requires forall x :: |t.sha(x)| == 64
    requires Chained(t, es) && Chained(t, fs) && es != [] && fs != []
    requires HashedAt(es, |es| - 1) == HashedAt(fs, |fs| - 1)
    requires WellFormed(es[|es| - 1].frame) && WellFormed(fs[|fs| - 1].frame)
    ensures Tip(es[..|es| - 1]) == Tip(fs[..|fs| - 1])
    ensures Meaning(es[|es| - 1].frame) == Meaning(fs[|fs| - 1].frame)
  {
    var j, k := |es| - 1, |fs| - 1;
    assert LinkHolds(t, es, j) && LinkHolds(t, fs, k);
    ChainedPrefix(t, es, j);
    ChainedPrefix(t, fs, k);
    TipLength(t, es[..j]);
    TipLength(t, fs[..k]);
    SamePrefix(es[j].prevHash, fs[k].prevHash, CanonText(ByteOrder, es[j].frame), CanonText(ByteOrder, fs[k].frame));
    CanonTextExactWhenKept(ByteOrder, es[j].frame, fs[k].frame);
  }

  lemma HashBrokenExtends(t: Tools, es: seq<Entry>, fs: seq<Entry>, j: nat, k: nat)
    requires j <= |es| && k <= |fs| && HashBroken(t, es[..j], fs[..k])
    ensures HashBroken(t, es, fs)
  {
    assert forall i | 0 <= i < j :: HashedAt(es[..j], i) == HashedAt(es, i);
    assert forall i | 0 <= i < k :: HashedAt(fs[..k], i) == HashedAt(fs, i);
  }
}
