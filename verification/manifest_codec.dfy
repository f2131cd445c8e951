/** A serializer of the kind the manifest log needs, so what is proved of all of them is proved of something. */
module ManifestCodec {
  import opened Wrappers
  import opened Machine
  import opened ManifestLog

  const OPEN: Byte := 123
  const CLOSE: Byte := 125

  function Unary(n: nat): Bytes {
    if n == 0 then [44] else [49] + Unary(n - 1)
  }

  function Text(s: string): Bytes {
    if s == [] then [59] else Unary(s[0] as int) + Text(s[1..])
  }

  function BackendNumber(backend: BackendKind): nat {
    match backend case Storj => 0 case Hetzner => 1
  }

  function StatusNumber(status: ManifestStatus): nat {
    match status case Completed => 0 case Failed => 1 case SkipRemoteExists => 2 case SkipManifestDone => 3
  }

  function Kinds(e: ManifestEntry): Bytes {
    Unary(BackendNumber(e.backend)) + Unary(StatusNumber(e.status))
  }

  function Body(e: ManifestEntry): Bytes {
    Text(e.bucket) + (Text(e.sourceVideoKey) + (Text(e.stagedThumbnailKey) + Kinds(e)))
  }

  function Print(e: ManifestEntry): Bytes {
    [OPEN] + Body(e) + [CLOSE]
  }

  // ---- printing loses nothing ----

  lemma {:induction false} UnaryIsSelfDelimiting(m: nat, n: nat, a: Bytes, b: Bytes)
    requires Unary(m) + a == Unary(n) + b
    ensures m == n && a == b
  {
    assert (Unary(m) + a)[0] == (Unary(n) + b)[0];
    assert (Unary(m) + a)[1..] == (Unary(n) + b)[1..];
    if m == 0 || n == 0 {
      assert a == (Unary(m) + a)[1..] && b == (Unary(n) + b)[1..];
    } else {
      assert Unary(m - 1) + a == (Unary(m) + a)[1..];
      assert Unary(n - 1) + b == (Unary(n) + b)[1..];
      UnaryIsSelfDelimiting(m - 1, n - 1, a, b);
    }
  }

  lemma FirstByte(s: string, a: Bytes)
    ensures (Text(s) + a)[0] == 59 <==> s == []
  {}

  lemma {:induction false} TextIsSelfDelimiting(s: string, t: string, a: Bytes, b: Bytes)
    requires Text(s) + a == Text(t) + b
    ensures s == t && a == b
    decreases |s|
  {
    FirstByte(s, a);
    FirstByte(t, b);
    if s == [] {
      assert a == (Text(s) + a)[1..] && b == (Text(t) + b)[1..];
    } else {
      assert Text(s) + a == Unary(s[0] as int) + (Text(s[1..]) + a);
      assert Text(t) + b == Unary(t[0] as int) + (Text(t[1..]) + b);
      UnaryIsSelfDelimiting(s[0] as int, t[0] as int, Text(s[1..]) + a, Text(t[1..]) + b);
      TextIsSelfDelimiting(s[1..], t[1..], a, b);
      assert s == [s[0]] + s[1..] && t == [t[0]] + t[1..];
    }
  }

  lemma KindsAreInjective(x: ManifestEntry, y: ManifestEntry)
    requires Kinds(x) == Kinds(y)
    ensures x.backend == y.backend && x.status == y.status
  {
    hide Unary;
    UnaryIsSelfDelimiting(BackendNumber(x.backend), BackendNumber(y.backend),
                          Unary(StatusNumber(x.status)), Unary(StatusNumber(y.status)));
    assert Unary(StatusNumber(x.status)) + [] == Unary(StatusNumber(y.status)) + [];
    UnaryIsSelfDelimiting(StatusNumber(x.status), StatusNumber(y.status), [], []);
  }

  lemma PrintIsInjective(x: ManifestEntry, y: ManifestEntry)
    requires Print(x) == Print(y)
    ensures x == y
  {
    assert Body(x) == Print(x)[1..|Print(x)| - 1];
    assert Body(y) == Print(y)[1..|Print(y)| - 1];
    hide Text, Kinds;
    TextIsSelfDelimiting(x.bucket, y.bucket,
                         Text(x.sourceVideoKey) + (Text(x.stagedThumbnailKey) + Kinds(x)),
                         Text(y.sourceVideoKey) + (Text(y.stagedThumbnailKey) + Kinds(y)));
    TextIsSelfDelimiting(x.sourceVideoKey, y.sourceVideoKey,
                         Text(x.stagedThumbnailKey) + Kinds(x), Text(y.stagedThumbnailKey) + Kinds(y));
    TextIsSelfDelimiting(x.stagedThumbnailKey, y.stagedThumbnailKey, Kinds(x), Kinds(y));
    KindsAreInjective(x, y);
  }

  // ---- what the bytes are ----

  predicate Plain(bytes: Bytes) {
    forall k :: 0 <= k < |bytes| ==> bytes[k] in {44, 49, 59}
  }

  lemma PlainConcat(a: Bytes, b: Bytes)
    requires Plain(a) && Plain(b)
    ensures Plain(a + b)
  {}

  lemma {:induction false} UnaryIsPlain(n: nat)
    ensures Plain(Unary(n))
  {
    if n > 0 { UnaryIsPlain(n - 1); }
  }

  lemma {:induction false} TextIsPlain(s: string)
    ensures Plain(Text(s))
  {
    if s != [] {
      UnaryIsPlain(s[0] as int);
      TextIsPlain(s[1..]);
      PlainConcat(Unary(s[0] as int), Text(s[1..]));
    }
  }

  lemma BodyIsPlain(e: ManifestEntry)
    ensures Plain(Body(e))
  {
    hide Plain, Text, Unary;
    UnaryIsPlain(BackendNumber(e.backend));
    UnaryIsPlain(StatusNumber(e.status));
    PlainConcat(Unary(BackendNumber(e.backend)), Unary(StatusNumber(e.status)));
    TextIsPlain(e.stagedThumbnailKey);
    PlainConcat(Text(e.stagedThumbnailKey), Kinds(e));
    TextIsPlain(e.sourceVideoKey);
    PlainConcat(Text(e.sourceVideoKey), Text(e.stagedThumbnailKey) + Kinds(e));
    TextIsPlain(e.bucket);
    PlainConcat(Text(e.bucket), Text(e.sourceVideoKey) + (Text(e.stagedThumbnailKey) + Kinds(e)));
  }

  /** An opening byte first, a closing byte last, and neither of them, nor a newline, between. */
  ghost predicate Enclosed(p: Bytes) {
    && |p| >= 2 && p[0] == OPEN && p[|p| - 1] == CLOSE
    && forall k :: 0 < k < |p| - 1 ==> p[k] != OPEN && p[k] != CLOSE && p[k] != NEWLINE
  }

  lemma PrintIsEnclosed(e: ManifestEntry)
    ensures Enclosed(Print(e)) && NEWLINE !in Print(e)
  {
    BodyIsPlain(e);
    hide Body;
    var p := Print(e);
    forall k | 0 < k < |p| - 1 ensures p[k] in {44, 49, 59} { assert p[k] == Body(e)[k - 1]; }
  }

  lemma CutIsNotEnclosed(p: Bytes, n: nat)
    requires Enclosed(p) && 0 < n < |p|
    ensures !Enclosed(p[..n])
  {
    assert p[..n][n - 1] == p[n - 1];
  }

  lemma GlueIsNotEnclosed(p: Bytes, n: nat, q: Bytes)
    requires Enclosed(p) && Enclosed(q) && 0 < n <= |p|
    ensures !Enclosed(p[..n] + q)
  {
    assert (p[..n] + q)[n] == OPEN;
  }

  // ---- reading ----

  ghost function Parse(bytes: Bytes): Option<ManifestEntry> {
    if exists e :: Print(e) == bytes then
      var e :| Print(e) == bytes;
      Some(e)
    else None
  }

  lemma ParsePrinted(e: ManifestEntry)
    ensures Parse(Print(e)) == Some(e)
  {
    hide Print;
    var read := Parse(Print(e));
    assert read.Some? && Print(read.value) == Print(e);
    PrintIsInjective(read.value, e);
  }

  lemma NotEnclosedIsUnreadable(bytes: Bytes)
    requires !Enclosed(bytes)
    ensures Parse(bytes) == None
  {
    forall e ensures Print(e) != bytes { PrintIsEnclosed(e); }
  }

  /** Such serializers exist. */
  lemma ACodec() returns (printer: Printer, parse: Parser)
    ensures OneLineCodec(printer, parse) && GlueIsUnreadable(printer, parse)
  {
    printer := e => Print(e);
    parse := bytes => Parse(bytes);
    hide Print, Parse, Enclosed;
    forall e ensures printer(e) != [] && NEWLINE !in printer(e) && parse(printer(e)) == Some(e) {
      PrintIsEnclosed(e);
      NotEmpty(Print(e));
      ParsePrinted(e);
    }
    forall e, n | 0 < n < |printer(e)| ensures parse(printer(e)[..n]) == None {
      PrintIsEnclosed(e);
      CutIsNotEnclosed(Print(e), n);
      NotEnclosedIsUnreadable(Print(e)[..n]);
    }
    forall x, e, n | 0 < n <= |printer(x)| ensures parse(printer(x)[..n] + printer(e)) == None {
      PrintIsEnclosed(x);
      PrintIsEnclosed(e);
      GlueIsNotEnclosed(Print(x), n, Print(e));
      NotEnclosedIsUnreadable(Print(x)[..n] + Print(e));
    }
  }

  lemma NotEmpty(p: Bytes)
    requires Enclosed(p)
    ensures p != []
  {}

  /** A log that reads, and one append after which it does not. */
  lemma OneAppendTooMany() returns (printer: Printer, parse: Parser, file: Bytes, e: ManifestEntry)
    ensures OneLineCodec(printer, parse)
    ensures ParseLog(parse, file) == Ok([e]) && ParseLog(parse, file + Line(printer, e)) == Err(1)
  {
    printer, parse := ACodec();
    e := ManifestEntry(Storj, "b", "v.mp4", "v-thumbnail.png", Completed);
    var whole := Log(printer, [] + [e]);
    LostNewlineLosesTheLog(printer, parse, [], e, e);
    file := whole[..|whole| - 1];
  }
}
