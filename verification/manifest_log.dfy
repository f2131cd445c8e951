/** The thumbnail backfill's append-only manifest, and how it is read back after a crash. */
module ManifestLog {
  import opened Wrappers
  import opened Machine

  const NEWLINE: Byte := 10

  datatype BackendKind = Storj | Hetzner

  datatype ManifestStatus = Completed | Failed | SkipRemoteExists | SkipManifestDone

  datatype ManifestEntry = ManifestEntry(
    backend: BackendKind,
    bucket: string,
    sourceVideoKey: string,
    stagedThumbnailKey: string,
    status: ManifestStatus)

  type Printer = ManifestEntry -> Bytes
  type Parser = Bytes -> Option<ManifestEntry>

  /** What the log needs of its serializer: JSON objects on one line, unreadable when cut short. */
  ghost predicate OneLineCodec(printer: Printer, parse: Parser) {
    && (forall e :: printer(e) != [] && NEWLINE !in printer(e) && parse(printer(e)) == Some(e))
    && (forall e, n :: 0 < n < |printer(e)| ==> parse(printer(e)[..n]) == None)
  }

  /** What JSON objects add: a cut one, or a whole one, followed by another is no object. */
  ghost predicate GlueIsUnreadable(printer: Printer, parse: Parser) {
    forall x, e, n :: 0 < n <= |printer(x)| ==> parse(printer(x)[..n] + printer(e)) == None
  }

  function Line(printer: Printer, e: ManifestEntry): Bytes {
    printer(e) + [NEWLINE]
  }

  /** The bytes of a log of these entries. */
  function Log(printer: Printer, entries: seq<ManifestEntry>): Bytes {
    if entries == [] then [] else Log(printer, entries[..|entries| - 1]) + Line(printer, entries[|entries| - 1])
  }

  class ManifestFile {
    var content: Bytes
    const printer: Printer

    constructor (printer: Printer)
      ensures this.printer == printer && content == []
    {
      this.printer, content := printer, [];
    }

    /** Append one line.  A fault, or a crash, leaves what was written until then. */
    method AppendJsonl(e: ManifestEntry, fault: Option<nat>) returns (ok: bool)
      modifies this
      ensures ok <==> fault.None?
      ensures ok ==> content == old(content) + printer(e) + [10]
      ensures !ok && fault.value <= |printer(e)| ==> content == old(content) + printer(e)[..fault.value]
      ensures !ok && fault.value > |printer(e)| ==> content == old(content) + printer(e) + [10]
      ensures old(content) <= content <= old(content) + Line(printer, e)
    {
      var line := printer(e);
      line := line + [NEWLINE];
      if fault.Some? {
        if fault.value < |line| { line := line[..fault.value]; }
        content := content + line;
        return false;
      }
      content := content + line;
      ok := true;
    }
  }

  // ---- reading ----

  /** The pieces between newlines; one more than there are newlines. */
  function Split(bytes: Bytes): (lines: seq<Bytes>)
    ensures lines != []
  {
    if bytes == [] then [[]]
    else
      var lines, b := Split(bytes[..|bytes| - 1]), bytes[|bytes| - 1];
      var last := |lines| - 1;
      if b == NEWLINE then lines + [[]] else lines[..last] + [lines[last] + [b]]
  }

  function Joined(lines: seq<Bytes>): Bytes {
    if lines == [] then []
    else if |lines| == 1 then lines[0]
    else Joined(lines[..|lines| - 1]) + [NEWLINE] + lines[|lines| - 1]
  }

  ghost predicate NoNewlines(lines: seq<Bytes>) {
    forall k :: 0 <= k < |lines| ==> NEWLINE !in lines[k]
  }

  /** Splitting is exact: no piece holds a newline, and joining them gives the bytes back. */
  lemma {:induction false} SplitIsExact(bytes: Bytes)
    ensures Joined(Split(bytes)) == bytes && NoNewlines(Split(bytes))
  {
    if bytes != [] {
      var before, b := bytes[..|bytes| - 1], bytes[|bytes| - 1];
      assert bytes == before + [b];
      SplitIsExact(before);
      SplitByte(before, b);
      var lines := Split(before);
      var front, line := lines[..|lines| - 1], lines[|lines| - 1];
      assert lines == front + [line];
      hide *;
      if b == NEWLINE {
        JoinedLast(lines, []);
        Attach(Joined(lines), [NEWLINE], []);
        NoNewlinesIn(lines, []);
      } else {
        JoinedExtends(front, line, b);
        NoNewlinesLonger(front, line, b);
      }
    }
  }

  /** What one more byte does to the pieces. */
  lemma SplitByte(bytes: Bytes, b: Byte)
    ensures var lines := Split(bytes);
            Split(bytes + [b]) == if b == NEWLINE then lines + [[]]
                                  else lines[..|lines| - 1] + [lines[|lines| - 1] + [b]]
  {
    assert (bytes + [b])[..|bytes|] == bytes;
  }

  lemma NoNewlinesIn(lines: seq<Bytes>, line: Bytes)
    requires NoNewlines(lines) && NEWLINE !in line
    ensures NoNewlines(lines + [line])
  {}

  lemma NoNewlinesLonger(front: seq<Bytes>, line: Bytes, b: Byte)
    requires NoNewlines(front + [line]) && b != NEWLINE
    ensures NoNewlines(front + [line + [b]])
  {
    assert (front + [line])[|front|] == line;
    assert forall k :: 0 <= k < |front| ==> (front + [line])[k] == front[k];
    NoNewlinesIn(front, line + [b]);
  }

  lemma JoinedLast(front: seq<Bytes>, line: Bytes)
    ensures Joined(front + [line]) == if front == [] then line else Joined(front) + [NEWLINE] + line
  {
    assert (front + [line])[..|front|] == front;
  }

  lemma JoinedExtends(front: seq<Bytes>, line: Bytes, b: Byte)
    ensures Joined(front + [line + [b]]) == Joined(front + [line]) + [b]
  {
    JoinedLast(front, line);
    JoinedLast(front, line + [b]);
    hide Joined;
    if front != [] {
      Attach(Joined(front) + [NEWLINE], line, [b]);
    }
  }

  lemma Attach(a: Bytes, b: Bytes, c: Bytes)
    ensures a + (b + c) == (a + b) + c
  {}

  predicate EndsWithNewline(bytes: Bytes) {
    bytes != [] && bytes[|bytes| - 1] == NEWLINE
  }

  /** A line that must parse: not empty, and not the unfinished last one. */
  predicate MustParse(lines: seq<Bytes>, i: nat, ended: bool)
    requires i < |lines|
  {
    lines[i] != [] && (i + 1 < |lines| || ended)
  }

  /** What the first `n` lines give, or the number of the first bad one. */
  function ParseLines(parse: Parser, lines: seq<Bytes>, n: nat, ended: bool): Result<seq<ManifestEntry>, nat>
    requires n <= |lines|
  {
    if n == 0 then Ok([]) else
      match ParseLines(parse, lines, n - 1, ended)
      case Err(i) => Err(i)
      case Ok(entries) =>
        if lines[n - 1] == [] then Ok(entries)
        else
          match parse(lines[n - 1])
          case Some(e) => Ok(entries + [e])
          case None => if MustParse(lines, n - 1, ended) then Err(n) else Ok(entries)
  }

  function ParseLog(parse: Parser, bytes: Bytes): Result<seq<ManifestEntry>, nat> {
    var lines := Split(bytes);
    ParseLines(parse, lines, |lines|, EndsWithNewline(bytes))
  }

  method ParseManifestEntries(parse: Parser, bytes: Bytes) returns (r: Result<seq<ManifestEntry>, nat>)
    ensures r == ParseLog(parse, bytes)
  {
    var endedWithNewline := bytes != [] && bytes[|bytes| - 1] == NEWLINE;
    var lines := Split(bytes);
    var entries := [];
    var index := 0;
    while index < |lines|
      invariant 0 <= index <= |lines|
      invariant ParseLines(parse, lines, index, endedWithNewline) == Ok(entries)
      invariant ParseLog(parse, bytes) == ParseLines(parse, lines, |lines|, endedWithNewline)
    {
      var line := lines[index];
      if line != [] {
        var isLastLine := index + 1 == |lines|;
        match parse(line) {
          case Some(entry) => entries := entries + [entry];
          case None =>
            if !(isLastLine && !endedWithNewline) {
              ErrorsStay(parse, lines, index + 1, |lines|, endedWithNewline);
              return Err(index + 1);
            }
        }
      }
      index := index + 1;
    }
    r := Ok(entries);
  }

  lemma {:induction false} ErrorsStay(parse: Parser, lines: seq<Bytes>, n: nat, m: nat, ended: bool)
    requires n <= m <= |lines| && ParseLines(parse, lines, n, ended).Err?
    ensures ParseLines(parse, lines, m, ended) == ParseLines(parse, lines, n, ended)
    decreases m
  {
    if n < m { ErrorsStay(parse, lines, n, m - 1, ended); }
  }

  lemma {:induction false} FirstBadLine(parse: Parser, lines: seq<Bytes>, n: nat, ended: bool)
    requires n <= |lines|
    ensures ParseLines(parse, lines, n, ended).Ok?
       <==> forall i :: 0 <= i < n && MustParse(lines, i, ended) ==> parse(lines[i]).Some?
    ensures ParseLines(parse, lines, n, ended).Err?
        ==> var i := ParseLines(parse, lines, n, ended).error - 1;
            0 <= i < n && MustParse(lines, i, ended) && parse(lines[i]).None?
            && forall j :: 0 <= j < i && MustParse(lines, j, ended) ==> parse(lines[j]).Some?
  {
    if n > 0 {
      FirstBadLine(parse, lines, n - 1, ended);
    }
  }

  /** The line is not empty and does not parse, and something follows it, be it a newline that ends the file. */
  ghost predicate Bad(parse: Parser, bytes: Bytes, i: nat) {
    var lines := Split(bytes);
    && i < |lines| && lines[i] != [] && parse(lines[i]).None?
    && (i + 1 < |lines| || (bytes != [] && bytes[|bytes| - 1] == 10))
  }

  /** Reading fails exactly when some line is bad, and names the first, counted from one. */
  lemma {:induction false} FailureNamesTheFirstBadLine(parse: Parser, bytes: Bytes)
    ensures ParseLog(parse, bytes).Ok? <==> forall i :: !Bad(parse, bytes, i)
    ensures ParseLog(parse, bytes).Err? ==>
              && ParseLog(parse, bytes).error >= 1
              && Bad(parse, bytes, ParseLog(parse, bytes).error - 1)
              && forall j: nat :: j + 1 < ParseLog(parse, bytes).error ==> !Bad(parse, bytes, j)
  {
    var lines, ended := Split(bytes), EndsWithNewline(bytes);
    FirstBadLine(parse, lines, |lines|, ended);
    hide Split, ParseLines;
    assert forall i: nat :: Bad(parse, bytes, i) <==>
                              i < |lines| && MustParse(lines, i, ended) && parse(lines[i]).None?;
  }

  /** The lines that are whole entries, in order. */
  function Readable(parse: Parser, lines: seq<Bytes>): seq<ManifestEntry> {
    if lines == [] then []
    else
      var line := lines[|lines| - 1];
      Readable(parse, lines[..|lines| - 1])
      + (if line != [] && parse(line).Some? then [parse(line).value] else [])
  }

  /** And what is read is every line that does parse. */
  lemma {:induction false} ReadsEveryLine(parse: Parser, lines: seq<Bytes>, n: nat, ended: bool)
    requires n <= |lines| && ParseLines(parse, lines, n, ended).Ok?
    ensures ParseLines(parse, lines, n, ended).value == Readable(parse, lines[..n])
  {
    if n > 0 {
      ReadsEveryLine(parse, lines, n - 1, ended);
      assert lines[..n][..n - 1] == lines[..n - 1];
    }
  }

  // ---- a log and its cuts ----

  /** The lines of a whole log followed by an unfinished one. */
  function LinesOf(printer: Printer, entries: seq<ManifestEntry>): (lines: seq<Bytes>)
    ensures |lines| == |entries|
    ensures forall i :: 0 <= i < |entries| ==> lines[i] == printer(entries[i])
  {
    if entries == [] then [] else LinesOf(printer, entries[..|entries| - 1]) + [printer(entries[|entries| - 1])]
  }

  lemma {:induction false} SplitOpenLine(bytes: Bytes, tail: Bytes)
    requires NEWLINE !in tail
    ensures var lines := Split(bytes);
            Split(bytes + tail) == lines[..|lines| - 1] + [lines[|lines| - 1] + tail]
  {
    var lines := Split(bytes);
    if tail == [] {
      assert bytes + tail == bytes && lines[|lines| - 1] + tail == lines[|lines| - 1];
    } else {
      var front, b := tail[..|tail| - 1], tail[|tail| - 1];
      SplitOpenLine(bytes, front);
      assert (bytes + tail)[..|bytes + tail| - 1] == bytes + front;
      assert lines[|lines| - 1] + front + [b] == lines[|lines| - 1] + tail;
    }
  }

  lemma {:induction false} SplitLog(printer: Printer, parse: Parser, entries: seq<ManifestEntry>)
    requires OneLineCodec(printer, parse)
    ensures Split(Log(printer, entries)) == LinesOf(printer, entries) + [[]]
  {
    if entries != [] {
      var front, e := entries[..|entries| - 1], entries[|entries| - 1];
      SplitLog(printer, parse, front);
      assert Log(printer, entries) == Log(printer, front) + printer(e) + [NEWLINE];
      assert [] + printer(e) == printer(e);
      assert LinesOf(printer, entries) == LinesOf(printer, front) + [printer(e)];
      hide Split, Log, LinesOf;
      SplitOpenLine(Log(printer, front), printer(e));
      SplitByte(Log(printer, front) + printer(e), NEWLINE);
    }
  }

  /** The lines of a log cut inside, or just before, the next line. */
  lemma SplitCutLog(printer: Printer, parse: Parser, entries: seq<ManifestEntry>, torn: Bytes)
    requires OneLineCodec(printer, parse) && NEWLINE !in torn
    ensures Split(Log(printer, entries) + torn) == LinesOf(printer, entries) + [torn]
  {
    SplitLog(printer, parse, entries);
    SplitOpenLine(Log(printer, entries), torn);
    assert [] + torn == torn;
  }

  lemma {:induction false} WholeLinesParse(printer: Printer, parse: Parser, entries: seq<ManifestEntry>,
                                           lines: seq<Bytes>,
                                            n: nat, ended: bool)
    requires OneLineCodec(printer, parse) && n <= |entries| <= |lines|
    requires forall i :: 0 <= i < |entries| ==> lines[i] == printer(entries[i])
    ensures ParseLines(parse, lines, n, ended) == Ok(entries[..n])
  {
    if n > 0 {
      WholeLinesParse(printer, parse, entries, lines, n - 1, ended);
      assert entries[..n] == entries[..n - 1] + [entries[n - 1]];
    }
  }

  lemma LogEnd(printer: Printer, parse: Parser, entries: seq<ManifestEntry>, torn: Bytes)
    requires OneLineCodec(printer, parse) && NEWLINE !in torn
    ensures torn != [] ==> !EndsWithNewline(Log(printer, entries) + torn)
  {
    if torn != [] {
      assert (Log(printer, entries) + torn)[|Log(printer, entries) + torn| - 1] == torn[|torn| - 1];
    }
  }

  /** What a log reads as when some bytes without a newline follow its last whole line. */
  lemma CutLogReads(printer: Printer, parse: Parser, entries: seq<ManifestEntry>, torn: Bytes)
    requires OneLineCodec(printer, parse) && NEWLINE !in torn
    ensures ParseLog(parse, Log(printer, entries) + torn)
         == Ok(if torn != [] && parse(torn).Some? then entries + [parse(torn).value] else entries)
  {
    var bytes := Log(printer, entries) + torn;
    SplitCutLog(printer, parse, entries, torn);
    LogEnd(printer, parse, entries, torn);
    var lines := Split(bytes);
    WholeLinesParse(printer, parse, entries, lines, |entries|, EndsWithNewline(bytes));
    assert entries[..|entries|] == entries;
  }

  /** A log that was written whole reads back as it is. */
  lemma WholeLogReads(printer: Printer, parse: Parser, entries: seq<ManifestEntry>)
    requires OneLineCodec(printer, parse)
    ensures ParseLog(parse, Log(printer, entries)) == Ok(entries)
  {
    CutLogReads(printer, parse, entries, []);
    assert Log(printer, entries) + [] == Log(printer, entries);
  }

  /** Entry `k` is kept by a cut after `n` bytes exactly when all its bytes but the newline are. */
  predicate KeptByCut(printer: Printer, entries: seq<ManifestEntry>, n: nat, k: nat)
    requires k < |entries|
  {
    |Log(printer, entries[..k])| + |printer(entries[k])| <= n
  }

  lemma LogSplits(printer: Printer, entries: seq<ManifestEntry>, k: nat)
    requires k < |entries|
    ensures Log(printer, entries[..k + 1]) == Log(printer, entries[..k]) + Line(printer, entries[k])
  {
    assert entries[..k + 1][..k] == entries[..k];
  }

  lemma {:induction false} LogGrows(printer: Printer, entries: seq<ManifestEntry>, k: nat, m: nat)
    requires k <= m <= |entries|
    ensures Log(printer, entries[..k]) <= Log(printer, entries[..m])
    ensures k < m ==> |Log(printer, entries[..k])| + |printer(entries[k])| < |Log(printer, entries[..m])|
    decreases m
  {
    if k < m {
      LogGrows(printer, entries, k, m - 1);
      LogSplits(printer, entries, m - 1);
    }
  }

  /** The entry a cut falls into: the whole lines before it, and how much of it is left. */
  lemma {:induction false} FindCut(printer: Printer, entries: seq<ManifestEntry>, n: nat, m: nat) returns (k: nat)
    requires m <= |entries| && n <= |Log(printer, entries[..m])|
    ensures k <= m && |Log(printer, entries[..k])| <= n
    ensures k < m ==> n <= |Log(printer, entries[..k])| + |printer(entries[k])|
    ensures k == m ==> n == |Log(printer, entries[..m])|
    decreases m
  {
    if n == |Log(printer, entries[..m])| {
      k := m;
    } else {
      LogSplits(printer, entries, m - 1);
      if n < |Log(printer, entries[..m - 1])| {
        k := FindCut(printer, entries, n, m - 1);
      } else {
        k := m - 1;
      }
    }
  }

  /** Reading a cut through entry `k`, or right before or behind it. */
  lemma CutReadsUpTo(printer: Printer, parse: Parser, entries: seq<ManifestEntry>, k: nat, left: nat)
    returns (kept: nat)
    requires OneLineCodec(printer, parse) && k < |entries| && left <= |printer(entries[k])|
    ensures kept == (if left == |printer(entries[k])| then k + 1 else k)
    ensures ParseLog(parse, Log(printer, entries[..k]) + printer(entries[k])[..left]) == Ok(entries[..kept])
  {
    hide ParseLog, Log;
    var text := printer(entries[k]);
    CutLogReads(printer, parse, entries[..k], text[..left]);
    kept := k;
    if left == |text| {
      assert text[..left] == text;
      kept := k + 1;
      assert entries[..k + 1] == entries[..k] + [entries[k]];
    }
  }

  /**
   However the file is cut, it can be read, and it reads as exactly the leading
   entries whose text is complete: nothing is invented, reordered or skipped.
   */
  lemma EveryCutReads(printer: Printer, parse: Parser, entries: seq<ManifestEntry>, n: nat) returns (kept: nat)
    requires OneLineCodec(printer, parse) && n <= |Log(printer, entries)|
    ensures kept <= |entries| && ParseLog(parse, Log(printer, entries)[..n]) == Ok(entries[..kept])
    ensures forall k :: 0 <= k < |entries| ==> (k < kept <==> KeptByCut(printer, entries, n, k))
  {
    hide Log, ParseLog, OneLineCodec;
    assert entries[..|entries|] == entries;
    var k := FindCut(printer, entries, n, |entries|);
    KeptIsAPrefix(printer, entries, n, k);
    if k < |entries| {
      kept := CutReadsUpTo(printer, parse, entries, k, n - |Log(printer, entries[..k])|);
      CutSplits(printer, entries, n, k);
    } else {
      kept := k;
      WholeLogReads(printer, parse, entries);
      assert Log(printer, entries)[..n] == Log(printer, entries);
    }
  }

  lemma CutSplits(printer: Printer, entries: seq<ManifestEntry>, n: nat, k: nat)
    requires k < |entries| && n <= |Log(printer, entries)|
    requires |Log(printer, entries[..k])| <= n <= |Log(printer, entries[..k])| + |printer(entries[k])|
    ensures Log(printer, entries)[..n]
         == Log(printer, entries[..k]) + printer(entries[k])[..n - |Log(printer, entries[..k])|]
  {
    TornPart(printer, entries, n, k);
    LogGrows(printer, entries, k, |entries|);
    assert entries[..|entries|] == entries;
    hide Log;
    var whole, all := Log(printer, entries[..k]), Log(printer, entries);
    assert all[..n] == all[..|whole|] + all[|whole|..n];
  }

  lemma TornPart(printer: Printer, entries: seq<ManifestEntry>, n: nat, k: nat)
    requires k < |entries| && n <= |Log(printer, entries)|
    requires |Log(printer, entries[..k])| <= n <= |Log(printer, entries[..k])| + |printer(entries[k])|
    ensures Log(printer, entries)[|Log(printer, entries[..k])|..n]
              == printer(entries[k])[..n - |Log(printer, entries[..k])|]
  {
    assert entries[..|entries|] == entries;
    LogSplits(printer, entries, k);
    LogGrows(printer, entries, k + 1, |entries|);
  }

  lemma WholeEntriesAreKept(printer: Printer, entries: seq<ManifestEntry>, n: nat, m: nat)
    requires m <= |entries| && |Log(printer, entries[..m])| <= n
    ensures forall k :: 0 <= k < m ==> KeptByCut(printer, entries, n, k)
  {
    forall k | 0 <= k < m
      ensures KeptByCut(printer, entries, n, k)
    {
      LogGrows(printer, entries, k, m);
    }
  }

  lemma KeptIsAPrefix(printer: Printer, entries: seq<ManifestEntry>, n: nat, k: nat)
    requires k <= |entries| && |Log(printer, entries[..k])| <= n
    requires k < |entries| ==> n <= |Log(printer, entries[..k])| + |printer(entries[k])|
    ensures forall j :: 0 <= j < k ==> KeptByCut(printer, entries, n, j)
    ensures forall j :: k < j < |entries| ==> !KeptByCut(printer, entries, n, j)
  {
    WholeEntriesAreKept(printer, entries, n, k);
    forall j | k < j < |entries|
      ensures !KeptByCut(printer, entries, n, j)
    {
      LogGrows(printer, entries, k, j);
    }
  }

  /**
   Appending to a log that ends in a torn line: the new entry is glued to the torn
   one.  The log can then be read exactly when the glued line happens to parse;
   otherwise every entry in it is out of reach.
   */
  lemma {:induction false} AppendAfterATear(printer: Printer, parse: Parser, entries: seq<ManifestEntry>, torn: Bytes,
                                            e: ManifestEntry)
    requires OneLineCodec(printer, parse) && NEWLINE !in torn
    ensures ParseLog(parse, Log(printer, entries) + torn + Line(printer, e))
         == match parse(torn + printer(e))
            case Some(glued) => Ok(entries + [glued])
            case None => Err(|entries| + 1)
  {
    hide ParseLog, Log;
    var glued := torn + printer(e);
    CompleteLine(printer, parse, entries, glued);
    assert Log(printer, entries) + torn + Line(printer, e) == Log(printer, entries) + (glued + [NEWLINE]);
  }

  lemma LogEndsWithNewline(printer: Printer, entries: seq<ManifestEntry>)
    ensures Log(printer, entries) == [] || EndsWithNewline(Log(printer, entries))
  {}

  /** A cut log is some of its whole lines and a part of the next one. */
  lemma CutShape(printer: Printer, entries: seq<ManifestEntry>, n: nat) returns (k: nat, torn: Bytes)
    requires n <= |Log(printer, entries)|
    ensures k <= |entries| && Log(printer, entries)[..n] == Log(printer, entries[..k]) + torn
    ensures torn != [] ==> k < |entries| && |torn| <= |printer(entries[k])| && torn == printer(entries[k])[..|torn|]
  {
    hide Log;
    assert entries[..|entries|] == entries;
    k := FindCut(printer, entries, n, |entries|);
    if k < |entries| {
      CutSplits(printer, entries, n, k);
      torn := printer(entries[k])[..n - |Log(printer, entries[..k])|];
    } else {
      torn := [];
      assert Log(printer, entries)[..n] == Log(printer, entries) + torn;
    }
  }

  /**
   After any cut, appending one entry leaves a readable log if and only if the file
   was empty or ended with a newline.
   */
  lemma AppendToCutLogReadsIff(printer: Printer, parse: Parser, entries: seq<ManifestEntry>, n: nat, e: ManifestEntry)
    requires OneLineCodec(printer, parse) && GlueIsUnreadable(printer, parse) && n <= |Log(printer, entries)|
    ensures var file := Log(printer, entries)[..n];
            ParseLog(parse, file + Line(printer, e)).Ok? <==> file == [] || EndsWithNewline(file)
  {
    var k, torn := CutShape(printer, entries, n);
    assert NEWLINE !in torn by {
      if torn != [] { assert NEWLINE !in printer(entries[k]); }
    }
    AppendAfterATear(printer, parse, entries[..k], torn, e);
    LogEndsWithNewline(printer, entries[..k]);
    LogEnd(printer, parse, entries[..k], torn);
    hide ParseLog, Log;
    if torn == [] {
      assert torn + printer(e) == printer(e);
      assert Log(printer, entries[..k]) + torn == Log(printer, entries[..k]);
    } else {
      assert torn + printer(e) == printer(entries[k])[..|torn|] + printer(e);
    }
  }

  /** The input: a crash that lost only a newline reads as if nothing had happened, and one append later not at all. */
  lemma LostNewlineLosesTheLog(printer: Printer, parse: Parser, entries: seq<ManifestEntry>, last: ManifestEntry,
                               e: ManifestEntry)
    requires OneLineCodec(printer, parse) && GlueIsUnreadable(printer, parse)
    ensures var whole := Log(printer, entries + [last]);
            && whole != []
            && ParseLog(parse, whole[..|whole| - 1]) == Ok(entries + [last])
            && ParseLog(parse, whole[..|whole| - 1] + Line(printer, e)) == Err(|entries| + 1)
  {
    var all, text := entries + [last], printer(last);
    assert all[..|entries|] == entries;
    var whole := Log(printer, all);
    assert whole == Log(printer, entries) + (text + [NEWLINE]);
    assert whole[..|whole| - 1] == Log(printer, entries) + text;
    CutLogReads(printer, parse, entries, text);
    AppendAfterATear(printer, parse, entries, text, e);
    assert text[..|text|] == text;
    hide Log, ParseLog;
    assert parse(text[..|text|] + printer(e)) == None;
  }

  /** What a log reads as when any one whole line follows it. */
  lemma CompleteLine(printer: Printer, parse: Parser, entries: seq<ManifestEntry>, line: Bytes)
    requires OneLineCodec(printer, parse) && NEWLINE !in line && line != []
    ensures ParseLog(parse, Log(printer, entries) + (line + [NEWLINE]))
         == match parse(line)
            case Some(e) => Ok(entries + [e])
            case None => Err(|entries| + 1)
  {
    var bytes := Log(printer, entries) + (line + [NEWLINE]);
    SplitCompleteLine(printer, parse, entries, line);
    hide Split, Log, ParseLines, OneLineCodec;
    WholeLinesParse(printer, parse, entries, Split(bytes), |entries|, true);
    assert entries[..|entries|] == entries;
    LastTwoLines(parse, Split(bytes), |entries|, entries);
  }

  lemma SplitCompleteLine(printer: Printer, parse: Parser, entries: seq<ManifestEntry>, line: Bytes)
    requires OneLineCodec(printer, parse) && NEWLINE !in line
    ensures Split(Log(printer, entries) + (line + [NEWLINE])) == LinesOf(printer, entries) + [line] + [[]]
  {
    hide *;
    SplitCutLog(printer, parse, entries, line);
    SplitByte(Log(printer, entries) + line, NEWLINE);
    assert Log(printer, entries) + line + [NEWLINE] == Log(printer, entries) + (line + [NEWLINE]);
  }

  lemma LastTwoLines(parse: Parser, lines: seq<Bytes>, n: nat, entries: seq<ManifestEntry>)
    requires |lines| == n + 2 && lines[n] != [] && lines[n + 1] == []
    requires ParseLines(parse, lines, n, true) == Ok(entries)
    ensures parse(lines[n]).Some? ==> ParseLines(parse, lines, n + 2, true) == Ok(entries + [parse(lines[n]).value])
    ensures parse(lines[n]).None? ==> ParseLines(parse, lines, n + 2, true) == Err(n + 1)
  {
    hide ParseLines;
    NextLine(parse, lines, n, true);
    if parse(lines[n]).Some? {
      NextLine(parse, lines, n + 1, true);
    } else {
      ErrorsStay(parse, lines, n + 1, n + 2, true);
    }
  }

  lemma NextLine(parse: Parser, lines: seq<Bytes>, n: nat, ended: bool)
    requires n < |lines| && ParseLines(parse, lines, n, ended).Ok?
    ensures
      var entries := ParseLines(parse, lines, n, ended).value;
      ParseLines(parse, lines, n + 1, ended)
         == if lines[n] == [] then Ok(entries)
            else if parse(lines[n]).Some? then Ok(entries + [parse(lines[n]).value])
            else if MustParse(lines, n, ended) then Err(n + 1) else Ok(entries)
  {
  }
}
