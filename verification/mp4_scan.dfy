/** The top-level MP4 box scanner, against the box lists of ISO/IEC 14496-12 section 4.2. */
module Mp4Scan {
  import opened Wrappers
  import opened Machine

  const MOOV: Bytes := [109, 111, 111, 118]
  const MDAT: Bytes := [109, 100, 97, 116]

  datatype MoovPosition = BeforeMdat | AfterMdat

  datatype ScanError = TruncatedLargeSize | OffsetOverflow | InvalidBoxSize | MissingBox

  // ---- big-endian numbers ----

  function Pow256(width: nat): nat {
    if width == 0 then 1 else 256 * Pow256(width - 1)
  }

  function FromBigEndian(bytes: Bytes): nat {
    if bytes == [] then 0 else 256 * FromBigEndian(bytes[..|bytes| - 1]) + bytes[|bytes| - 1]
  }

  function ToBigEndian(n: nat, width: nat): (bytes: Bytes)
    ensures |bytes| == width
  {
    if width == 0 then [] else ToBigEndian(n / 256, width - 1) + [n % 256]
  }

  lemma {:induction false} DecodeEncoded(n: nat, width: nat)
    requires n < Pow256(width)
    ensures FromBigEndian(ToBigEndian(n, width)) == n
  {
    if width > 0 {
      DecodeEncoded(n / 256, width - 1);
      assert ToBigEndian(n, width)[..width - 1] == ToBigEndian(n / 256, width - 1);
    }
  }

  lemma {:induction false} EncodeDecoded(bytes: Bytes)
    ensures ToBigEndian(FromBigEndian(bytes), |bytes|) == bytes
    ensures FromBigEndian(bytes) < Pow256(|bytes|)
  {
    if bytes != [] {
      EncodeDecoded(bytes[..|bytes| - 1]);
    }
  }

  lemma Widths()
    ensures Pow256(4) == 0x1_0000_0000 && Pow256(8) == USIZE_LIMIT
  {
    assert Pow256(2) == 65536;
    assert Pow256(4) == 0x1_0000_0000;
    assert Pow256(6) == 0x1_0000_0000_0000;
  }

  /** The first byte weighs most. */
  lemma BigEndianBytes(b: Bytes)
    ensures var n: seq<int> := b;
            |b| == 4 ==> FromBigEndian(b) == 0x100_0000 * n[0] + 0x1_0000 * n[1] + 0x100 * n[2] + n[3]
    ensures |b| == 8 ==> FromBigEndian(b) == 0x1_0000_0000 * FromBigEndian(b[..4]) + FromBigEndian(b[4..])
  {
    if |b| == 4 {
      FourBytes(b);
    } else if |b| == 8 {
      FourBytes(b[..4]);
      FourBytes(b[4..]);
      EightBytes(b);
    }
  }

  lemma FourBytes(b: Bytes)
    requires |b| == 4
    ensures var n: seq<int> := b;
            FromBigEndian(b) == 0x100_0000 * n[0] + 0x1_0000 * n[1] + 0x100 * n[2] + n[3]
  {
    var n: seq<int> := b;
    assert b[..3][..2] == b[..2] && b[..2][..1] == b[..1] && b[..1][..0] == [];
    assert FromBigEndian(b[..1]) == b[0];
    assert FromBigEndian(b[..2]) == 256 * n[0] + n[1];
    assert FromBigEndian(b[..3]) == 256 * FromBigEndian(b[..2]) + b[2];
  }

  lemma EightBytes(b: Bytes)
    requires |b| == 8
    ensures var n: seq<int> := b;
            FromBigEndian(b) == 0x1_0000_0000 * FromBigEndian(b[..4])
                             + 0x100_0000 * n[4] + 0x1_0000 * n[5] + 0x100 * n[6] + n[7]
  {
    assert b[..7][..6] == b[..6] && b[..6][..5] == b[..5] && b[..5][..4] == b[..4];
    assert FromBigEndian(b[..5]) == 256 * FromBigEndian(b[..4]) + b[4];
    assert FromBigEndian(b[..6]) == 256 * FromBigEndian(b[..5]) + b[5];
    assert FromBigEndian(b[..7]) == 256 * FromBigEndian(b[..6]) + b[6];
  }

  // ---- the scanner ----

  datatype Header = Header(boxSize: nat, headerSize: nat, kind: Bytes)

  function ReadHeader(data: Bytes, offset: nat): Result<Header, ScanError>
    requires offset + 8 <= |data|
  {
    var size32 := FromBigEndian(data[offset..offset + 4]);
    var kind := data[offset + 4..offset + 8];
    if size32 == 0 then Ok(Header(|data| - offset, 8, kind))
    else if size32 == 1 then
      if offset + 16 > |data| then Err(TruncatedLargeSize)
      else Ok(Header(FromBigEndian(data[offset + 8..offset + 16]), 16, kind))
    else Ok(Header(size32, 8, kind))
  }

  /** The header of a box that lies inside the data. */
  function ReadBox(data: Bytes, offset: nat): Result<Header, ScanError>
    requires offset + 8 <= |data|
  {
    match ReadHeader(data, offset)
    case Err(e) => Err(e)
    case Ok(h) =>
      if offset + h.boxSize >= USIZE_LIMIT then Err(OffsetOverflow)
      else if h.boxSize < h.headerSize || offset + h.boxSize > |data| then Err(InvalidBoxSize)
      else Ok(h)
  }

  function Place(kind: Bytes, wanted: Bytes, offset: nat, earlier: Option<nat>): Option<nat> {
    if kind == wanted then Some(offset) else earlier
  }

  function ScanFrom(data: Bytes, offset: nat, moov: Option<nat>, mdat: Option<nat>): Result<MoovPosition, ScanError>
    decreases |data| - offset
  {
    if offset + 8 > |data| then Err(MissingBox) else
      match ReadBox(data, offset)
      case Err(e) => Err(e)
      case Ok(h) =>
        var moov', mdat' := Place(h.kind, MOOV, offset, moov), Place(h.kind, MDAT, offset, mdat);
        if moov'.Some? && mdat'.Some? then
          Ok(if moov'.value < mdat'.value then BeforeMdat else AfterMdat)
        else
          ScanFrom(data, offset + h.boxSize, moov', mdat')
  }

  function Scan(data: Bytes): Result<MoovPosition, ScanError> {
    ScanFrom(data, 0, None, None)
  }

  method Mp4MoovPosition(data: Bytes) returns (r: Result<MoovPosition, ScanError>)
    ensures r == Scan(data)
  {
    var offset := 0;
    var moovOffset: Option<nat>, mdatOffset: Option<nat> := None, None;
    while offset + 8 <= |data|
      invariant Scan(data) == ScanFrom(data, offset, moovOffset, mdatOffset)
      decreases |data| - offset
    {
      var size32 := FromBigEndian(data[offset..offset + 4]);
      var boxType := data[offset + 4..offset + 8];
      var boxSize, headerSize;
      if size32 == 0 {
        boxSize, headerSize := |data| - offset, 8;
      } else if size32 == 1 {
        if offset + 16 > |data| { return Err(TruncatedLargeSize); }
        boxSize, headerSize := FromBigEndian(data[offset + 8..offset + 16]), 16;
      } else {
        boxSize, headerSize := size32, 8;
      }
      var nextOffset := offset + boxSize;
      if nextOffset >= USIZE_LIMIT { return Err(OffsetOverflow); }
      if boxSize < headerSize || nextOffset > |data| { return Err(InvalidBoxSize); }
      if boxType == MOOV {
        moovOffset := Some(offset);
      } else if boxType == MDAT {
        mdatOffset := Some(offset);
      }
      if moovOffset.Some? && mdatOffset.Some? {
        return Ok(if moovOffset.value < mdatOffset.value then BeforeMdat else AfterMdat);
      }
      offset := nextOffset;
    }
    r := Err(MissingBox);
  }

  // ---- box lists ----

  datatype Form = Short | Large | ToEnd

  datatype Box = Box(form: Form, kind: Bytes, payload: Bytes)

  predicate ValidBox(b: Box) {
    && |b.kind| == 4
    && (b.form.Short? ==> 8 + |b.payload| < Pow256(4))
    && (b.form.Large? ==> 16 + |b.payload| < Pow256(8))
  }

  function SerializeBox(b: Box): Bytes {
    match b.form
    case Short => ToBigEndian(8 + |b.payload|, 4) + b.kind + b.payload
    case Large => ToBigEndian(1, 4) + b.kind + ToBigEndian(16 + |b.payload|, 8) + b.payload
    case ToEnd => ToBigEndian(0, 4) + b.kind + b.payload
  }

  function Serialize(boxes: seq<Box>): Bytes {
    if boxes == [] then [] else Serialize(boxes[..|boxes| - 1]) + SerializeBox(boxes[|boxes| - 1])
  }

  /** A file that starts with these boxes: only the last may run to the end, and then nothing follows. */
  predicate ValidFile(boxes: seq<Box>, rest: Bytes) {
    && (forall i :: 0 <= i < |boxes| ==> ValidBox(boxes[i]))
    && (forall i :: 0 <= i < |boxes| && boxes[i].form.ToEnd? ==> i == |boxes| - 1 && rest == [])
    && |Serialize(boxes) + rest| < USIZE_LIMIT
  }

  /** Index of the first box of this kind, or the number of boxes. */
  function First(boxes: seq<Box>, kind: Bytes): (n: nat)
    ensures n <= |boxes|
    ensures n < |boxes| ==> boxes[n].kind == kind
    ensures forall i :: 0 <= i < n ==> boxes[i].kind != kind
  {
    if boxes == [] then 0
    else
      var n := First(boxes[..|boxes| - 1], kind);
      if n < |boxes| - 1 || boxes[|boxes| - 1].kind == kind then n else |boxes|
  }

  function Verdict(boxes: seq<Box>): Result<MoovPosition, ScanError> {
    if First(boxes, MOOV) == |boxes| || First(boxes, MDAT) == |boxes| then Err(MissingBox)
    else if First(boxes, MOOV) < First(boxes, MDAT) then Ok(BeforeMdat)
    else Ok(AfterMdat)
  }

  // ---- one box ----

  lemma SerializedSize(b: Box)
    requires ValidBox(b)
    ensures |SerializeBox(b)| == (if b.form.Large? then 16 else 8) + |b.payload|
  {
  }

  lemma SliceOfMiddle(before: Bytes, middle: Bytes, after: Bytes, lo: nat, hi: nat)
    requires lo <= hi <= |middle|
    ensures (before + middle + after)[|before| + lo..|before| + hi] == middle[lo..hi]
  {
  }

  /** A box is its size in four bytes, its kind, its size in eight bytes if it is large, and its payload. */
  lemma BoxLayout(b: Box)
    requires ValidBox(b)
    ensures |SerializeBox(b)| == (if b.form.Large? then 16 else 8) + |b.payload|
    ensures SerializeBox(b)[4..8] == b.kind
    ensures SerializeBox(b)[if b.form.Large? then 16 else 8..] == b.payload
    ensures FromBigEndian(SerializeBox(b)[..4])
         == match b.form case Short => 8 + |b.payload| case Large => 1 case ToEnd => 0
    ensures b.form.Large? ==> FromBigEndian(SerializeBox(b)[8..16]) == 16 + |b.payload|
  {
    hide Pow256, ToBigEndian, FromBigEndian;
    var s := SerializeBox(b);
    Widths();
    match b.form {
      case Short =>
        DecodeEncoded(8 + |b.payload|, 4);
        assert s[..4] == ToBigEndian(8 + |b.payload|, 4);
      case Large =>
        DecodeEncoded(1, 4);
        assert s[..4] == ToBigEndian(1, 4);
        DecodeEncoded(16 + |b.payload|, 8);
        assert s[8..16] == ToBigEndian(16 + |b.payload|, 8);
      case ToEnd =>
        DecodeEncoded(0, 4);
        assert s[..4] == ToBigEndian(0, 4);
    }
  }

  /** At the start of a serialized box, the scanner reads exactly that box. */
  lemma ReadsTheBox(before: Bytes, b: Box, after: Bytes)
    requires ValidBox(b) && (b.form.ToEnd? ==> after == [])
    requires |before + SerializeBox(b) + after| < USIZE_LIMIT
    ensures |before| + 8 <= |before + SerializeBox(b) + after|
    ensures ReadBox(before + SerializeBox(b) + after, |before|)
         == Ok(Header(|SerializeBox(b)|, if b.form.Large? then 16 else 8, b.kind))
  {
    BoxLayout(b);
    SerializedSize(b);
    hide SerializeBox, FromBigEndian;
    SliceOfMiddle(before, SerializeBox(b), after, 0, 4);
    SliceOfMiddle(before, SerializeBox(b), after, 4, 8);
    if b.form.Large? {
      SliceOfMiddle(before, SerializeBox(b), after, 8, 16);
    }
  }

  /** The box a successful read found. */
  function BoxAt(data: Bytes, offset: nat): Box
    requires offset + 8 <= |data| && ReadBox(data, offset).Ok?
  {
    var h := ReadBox(data, offset).value;
    var size32 := FromBigEndian(data[offset..offset + 4]);
    Box(if size32 == 0 then ToEnd else if size32 == 1 then Large else Short,
        h.kind, data[offset + h.headerSize..offset + h.boxSize])
  }

  /** Whatever the scanner accepts as a box is the serialization of one. */
  lemma ReadIsABox(data: Bytes, offset: nat)
    requires |data| < USIZE_LIMIT
    requires offset + 8 <= |data| && ReadBox(data, offset).Ok?
    ensures var b, next := BoxAt(data, offset), offset + ReadBox(data, offset).value.boxSize;
            ValidBox(b) && next <= |data| && data[offset..next] == SerializeBox(b)
            && b.kind == ReadBox(data, offset).value.kind && (b.form.ToEnd? ==> next == |data|)
  {
    hide FromBigEndian, ToBigEndian, Pow256;
    Widths();
    var b, h := BoxAt(data, offset), ReadBox(data, offset).value;
    var next := offset + h.boxSize;
    EncodeDecoded(data[offset..offset + 4]);
    if b.form.Large? {
      EncodeDecoded(data[offset + 8..offset + 16]);
      Slices(data, offset, offset + 4, offset + 8, offset + 16, next);
    } else {
      Slices(data, offset, offset + 4, offset + 8, offset + 8, next);
    }
  }

  lemma Slices(data: Bytes, a: nat, b: nat, c: nat, d: nat, e: nat)
    requires a <= b <= c <= d <= e <= |data|
    ensures data[a..e] == data[a..b] + data[b..c] + data[c..d] + data[d..e]
    ensures d == c ==> data[a..e] == data[a..b] + data[b..c] + data[d..e]
  {
    assert data[a..c] == data[a..b] + data[b..c];
    assert data[a..d] == data[a..c] + data[c..d];
    assert data[a..e] == data[a..d] + data[d..e];
  }

  // ---- whole files ----

  /** What the two offsets remember once the first `n` boxes have been passed. */
  predicate Remembers(boxes: seq<Box>, n: nat, offset: nat, moov: Option<nat>, mdat: Option<nat>)
    requires n <= |boxes|
  {
    && (moov.Some? <==> First(boxes, MOOV) < n) && (moov.Some? ==> moov.value < offset)
    && (mdat.Some? <==> First(boxes, MDAT) < n) && (mdat.Some? ==> mdat.value < offset)
    && !(moov.Some? && mdat.Some?)
  }

  lemma SplitAt(boxes: seq<Box>, n: nat)
    requires n < |boxes|
    ensures Serialize(boxes[..n + 1]) == Serialize(boxes[..n]) + SerializeBox(boxes[n])
  {
    assert boxes[..n + 1][..n] == boxes[..n];
  }

  lemma Regroup(a: Bytes, b: Bytes, c: Bytes)
    ensures a + b + c == a + (b + c)
  {
  }

  lemma {:induction false} PrefixOfSerialized(boxes: seq<Box>, n: nat) returns (after: Bytes)
    requires n < |boxes|
    ensures Serialize(boxes) == Serialize(boxes[..n]) + SerializeBox(boxes[n]) + after
    ensures n == |boxes| - 1 ==> after == []
    decreases |boxes| - n
  {
    SplitAt(boxes, n);
    hide *;
    var head := Serialize(boxes[..n + 1]);
    if n == |boxes| - 1 {
      assert boxes[..n + 1] == boxes;
      after := [];
      assert Serialize(boxes) == head + after;
    } else {
      var later := PrefixOfSerialized(boxes, n + 1);
      after := SerializeBox(boxes[n + 1]) + later;
      Regroup(head, SerializeBox(boxes[n + 1]), later);
      assert Serialize(boxes) == head + after;
    }
  }

  lemma {:induction false} ScanFollowsBoxes(boxes: seq<Box>, rest: Bytes, n: nat, moov: Option<nat>, mdat: Option<nat>)
    requires ValidFile(boxes, rest) && n <= |boxes|
    requires Verdict(boxes).Ok? || |rest| < 8 || ReadBox(Serialize(boxes) + rest, |Serialize(boxes)|).Err?
    requires Remembers(boxes, n, |Serialize(boxes[..n])|, moov, mdat)
    ensures ScanFrom(Serialize(boxes) + rest, |Serialize(boxes[..n])|, moov, mdat) ==
            if Verdict(boxes).Ok? || |rest| < 8 then Verdict(boxes)
            else Err(ReadBox(Serialize(boxes) + rest, |Serialize(boxes)|).error)
    decreases |boxes| - n
  {
    hide SerializeBox, ReadBox, Serialize, First;
    var data, offset := Serialize(boxes) + rest, |Serialize(boxes[..n])|;
    if n == |boxes| {
      assert boxes[..n] == boxes;
    } else {
      var after := PrefixOfSerialized(boxes, n);
      assert data == Serialize(boxes[..n]) + SerializeBox(boxes[n]) + (after + rest);
      ReadsTheBox(Serialize(boxes[..n]), boxes[n], after + rest);
      SplitAt(boxes, n);
      SerializedSize(boxes[n]);
      var moov', mdat' := Place(boxes[n].kind, MOOV, offset, moov), Place(boxes[n].kind, MDAT, offset, mdat);
      if !(moov'.Some? && mdat'.Some?) {
        ScanFollowsBoxes(boxes, rest, n + 1, moov', mdat');
      }
    }
  }

  /**
   On every list of boxes the scanner gives the list's verdict, whatever the payloads
   hold and however each size is written.  Bytes after the boxes do not matter once
   both boxes are there; otherwise fewer than eight may follow.
   */
  lemma {:induction false} ScanMeetsTheBoxList(boxes: seq<Box>, rest: Bytes)
    requires ValidFile(boxes, rest)
    requires Verdict(boxes).Ok? || |rest| < 8
    ensures Scan(Serialize(boxes) + rest) == Verdict(boxes)
  {
    assert boxes[..0] == [];
    ScanFollowsBoxes(boxes, rest, 0, None, None);
  }

  /** The verdict depends on the kinds alone: payloads, size forms and padding are never read as headers. */
  lemma {:induction false} PayloadsAreNotHeaders(boxes: seq<Box>, rest: Bytes, boxes': seq<Box>, rest': Bytes)
    requires ValidFile(boxes, rest) && |rest| < 8 && ValidFile(boxes', rest') && |rest'| < 8
    requires |boxes| == |boxes'| && forall i :: 0 <= i < |boxes| ==> boxes[i].kind == boxes'[i].kind
    ensures Scan(Serialize(boxes) + rest) == Scan(Serialize(boxes') + rest')
  {
    hide Scan, Serialize, SerializeBox, ValidFile, First;
    ScanMeetsTheBoxList(boxes, rest);
    ScanMeetsTheBoxList(boxes', rest');
  }

  lemma FirstOfLonger(boxes: seq<Box>, b: Box, kind: Bytes)
    ensures First(boxes + [b], kind)
         == if First(boxes, kind) < |boxes| || b.kind == kind then First(boxes, kind) else |boxes| + 1
  {
    assert (boxes + [b])[..|boxes|] == boxes;
  }

  /** What is wrong with the bytes where the next box should be. */
  predicate Refused(data: Bytes, o: nat, e: ScanError)
    requires o + 8 <= |data|
  {
    var size32 := FromBigEndian(data[o..o + 4]);
    if size32 == 1 && |data| < o + 16 then e == TruncatedLargeSize
    else
      var size := if size32 == 0 then |data| - o
                  else if size32 == 1 then FromBigEndian(data[o + 8..o + 16])
                  else size32;
      if 0x1_0000_0000_0000_0000 <= o + size then e == OffsetOverflow
      else e == InvalidBoxSize && (size < (if size32 == 1 then 16 else 8) || |data| < o + size)
  }

  /**
   Why the scan of a file ends as it does: the file begins with these boxes, and they
   have a verdict; or they have none, and the file ends there, or goes on with no box.
   */
  predicate Explains(boxes: seq<Box>, data: Bytes, r: Result<MoovPosition, ScanError>) {
    var o := |Serialize(boxes)|;
    && Serialize(boxes) <= data && ValidFile(boxes, data[o..])
    && if r.Ok? then Verdict(boxes) == r
       else Verdict(boxes).Err? && if r == Err(MissingBox) then |data| < o + 8
                                   else o + 8 <= |data| && Refused(data, o, r.error)
  }

  lemma RefusedIff(data: Bytes, o: nat, e: ScanError)
    requires o + 8 <= |data|
    ensures ReadBox(data, o) == Err(e) <==> e != MissingBox && Refused(data, o, e)
  {
    hide FromBigEndian;
  }

  /** A successful read behind a list of boxes makes the list one longer. */
  lemma OneMoreBox(data: Bytes, done: seq<Box>, offset: nat, b: Box, next: nat)
    requires |data| < USIZE_LIMIT
    requires Serialize(done) <= data && ValidFile(done, data[|Serialize(done)|..])
    requires offset == |Serialize(done)| && offset < next <= |data|
    requires ValidBox(b) && data[offset..next] == SerializeBox(b) && (b.form.ToEnd? ==> next == |data|)
    ensures Serialize(done + [b]) <= data && |Serialize(done + [b])| == next
    ensures ValidFile(done + [b], data[next..])
  {
    hide SerializeBox, ValidBox;
    var boxes := done + [b];
    assert boxes[..|done|] == done;
    assert Serialize(boxes) == data[..offset] + data[offset..next] == data[..next];
    assert data[..next] + data[next..] == data;
  }

  /** Passing one more box either settles the verdict or is remembered. */
  lemma NextMemory(done: seq<Box>, b: Box, offset: nat, next: nat, moov: Option<nat>, mdat: Option<nat>)
    requires Remembers(done, |done|, offset, moov, mdat) && offset < next
    ensures var boxes, moov', mdat' := done + [b], Place(b.kind, MOOV, offset, moov), Place(b.kind, MDAT, offset, mdat);
            if moov'.Some? && mdat'.Some?
            then Verdict(boxes) == Ok(if moov'.value < mdat'.value then BeforeMdat else AfterMdat)
            else Remembers(boxes, |boxes|, next, moov', mdat')
  {
    FirstOfLonger(done, b, MOOV);
    FirstOfLonger(done, b, MDAT);
  }

  lemma ScanEnds(data: Bytes, done: seq<Box>, moov: Option<nat>, mdat: Option<nat>)
    requires Serialize(done) <= data && ValidFile(done, data[|Serialize(done)|..])
    requires Remembers(done, |done|, |Serialize(done)|, moov, mdat)
    requires |data| < |Serialize(done)| + 8 || ReadBox(data, |Serialize(done)|).Err?
    ensures Explains(done, data, ScanFrom(data, |Serialize(done)|, moov, mdat))
  {
    hide ReadBox, Refused;
    if |Serialize(done)| + 8 <= |data| {
      RefusedIff(data, |Serialize(done)|, ReadBox(data, |Serialize(done)|).error);
    }
  }

  lemma ScanSettles(data: Bytes, boxes: seq<Box>, next: nat)
    requires Serialize(boxes) <= data && |Serialize(boxes)| == next && ValidFile(boxes, data[next..])
    requires Verdict(boxes).Ok?
    ensures Explains(boxes, data, Verdict(boxes))
  {
  }

  lemma ScanStep(data: Bytes, offset: nat, moov: Option<nat>, mdat: Option<nat>)
    requires offset + 8 <= |data|
    ensures ScanFrom(data, offset, moov, mdat)
         == match ReadBox(data, offset)
            case Err(e) => Err(e)
            case Ok(h) =>
              var moov', mdat' := Place(h.kind, MOOV, offset, moov), Place(h.kind, MDAT, offset, mdat);
              if moov'.Some? && mdat'.Some? then Ok(if moov'.value < mdat'.value then BeforeMdat else AfterMdat)
              else ScanFrom(data, offset + h.boxSize, moov', mdat')
  {
  }

  lemma {:induction false} ScanFindsBoxes(data: Bytes, done: seq<Box>, moov: Option<nat>, mdat: Option<nat>)
    returns (boxes: seq<Box>)
    requires |data| < USIZE_LIMIT
    requires Serialize(done) <= data && ValidFile(done, data[|Serialize(done)|..])
    requires Remembers(done, |done|, |Serialize(done)|, moov, mdat)
    ensures Explains(boxes, data, ScanFrom(data, |Serialize(done)|, moov, mdat))
    decreases |data| - |Serialize(done)|
  {
    hide *;
    var offset := |Serialize(done)|;
    if offset + 8 > |data| || ReadBox(data, offset).Err? {
      ScanEnds(data, done, moov, mdat);
      return done;
    }
    ScanStep(data, offset, moov, mdat);
    ReadIsABox(data, offset);
    BoxesAreNotEmpty(data, offset);
    var b, next := BoxAt(data, offset), offset + ReadBox(data, offset).value.boxSize;
    OneMoreBox(data, done, offset, b, next);
    NextMemory(done, b, offset, next, moov, mdat);
    boxes := done + [b];
    var moov', mdat' := Place(b.kind, MOOV, offset, moov), Place(b.kind, MDAT, offset, mdat);
    if moov'.Some? && mdat'.Some? {
      ScanSettles(data, boxes, next);
    } else {
      boxes := ScanFindsBoxes(data, boxes, moov', mdat');
    }
  }

  lemma BoxesAreNotEmpty(data: Bytes, offset: nat)
    requires offset + 8 <= |data|
    ensures ReadBox(data, offset).Ok? ==> ReadBox(data, offset).value.boxSize > 0
  {}

  /**
   The result of a scan of any file, verdict or error, is the one result that a list of
   boxes at its beginning explains.
   */
  lemma ScanIsExact(data: Bytes, r: Result<MoovPosition, ScanError>)
    requires |data| < 0x1_0000_0000_0000_0000
    ensures Scan(data) == r <==> exists boxes :: Explains(boxes, data, r)
  {
    if Scan(data) == r {
      var boxes := ResultIsExplained(data);
      assert Explains(boxes, data, r);
    }
    if boxes :| Explains(boxes, data, r) {
      ExplainedIsTheResult(boxes, data, r);
    }
  }

  lemma ResultIsExplained(data: Bytes) returns (boxes: seq<Box>)
    requires |data| < USIZE_LIMIT
    ensures Explains(boxes, data, Scan(data))
  {
    hide ScanFrom;
    assert Serialize([]) + data == data;
    boxes := ScanFindsBoxes(data, [], None, None);
  }

  lemma ExplainedIsTheResult(boxes: seq<Box>, data: Bytes, r: Result<MoovPosition, ScanError>)
    requires Explains(boxes, data, r)
    ensures Scan(data) == r
  {
    hide ScanFrom, ReadBox, Refused, ValidFile, Serialize, First;
    var rest := data[|Serialize(boxes)|..];
    assert Serialize(boxes) + rest == data;
    if r.Err? && r != Err(MissingBox) { RefusedIff(data, |Serialize(boxes)|, r.error); }
    assert boxes[..0] == [];
    NothingPassed(boxes);
    ScanFollowsBoxes(boxes, rest, 0, None, None);
  }

  lemma NothingPassed(boxes: seq<Box>)
    ensures Remembers(boxes, 0, |Serialize([])|, None, None) && |Serialize([])| == 0
  {}

  /** The two kinds are those of the standard. */
  lemma KindsAreSpelled()
    ensures MOOV == ['m' as int, 'o' as int, 'o' as int, 'v' as int]
    ensures MDAT == ['m' as int, 'd' as int, 'a' as int, 't' as int]
  {}
}
