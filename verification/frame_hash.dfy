/** The 640-character video hash: ten frame hashes, each written as 64 binary digits. */
module FrameHash {
  import opened Wrappers
  import opened Machine
  import opened FrameSampling

  /** An 8x8 image hash. */
  type ImageHash = h: Bytes | |h| == 8 witness [0, 0, 0, 0, 0, 0, 0, 0]

  // ---- bytes as binary digits ----

  function Shift(b: nat, i: nat): nat {
    if i == 0 then b else Shift(b, i - 1) / 2
  }

  function Digit(n: nat): char {
    if n % 2 == 1 then '1' else '0'
  }

  /** The `width` low binary digits of a number, highest first. */
  function Digits(n: nat, width: nat): (s: string)
    ensures |s| == width
  {
    if width == 0 then [] else Digits(n / 2, width - 1) + [Digit(n)]
  }

  function BitString(bytes: Bytes): (s: string)
    ensures |s| == 8 * |bytes|
  {
    if bytes == [] then [] else BitString(bytes[..|bytes| - 1]) + Digits(bytes[|bytes| - 1], 8)
  }

  method HashToBinaryString(hash: ImageHash) returns (binary: string)
    ensures binary == BitString(hash)
  {
    binary := [];
    for n := 0 to |hash|
      invariant binary == BitString(hash[..n])
    {
      var byte := hash[n];
      var i := 8;
      assert Digits(Shift(byte, 8), 0) == [];
      while i > 0
        invariant 0 <= i <= 8
        invariant binary == BitString(hash[..n]) + Digits(Shift(byte, i), 8 - i)
      {
        i := i - 1;
        binary := binary + [if Shift(byte, i) % 2 == 1 then '1' else '0'];
      }
      assert hash[..n + 1][..n] == hash[..n];
    }
    assert hash[..|hash|] == hash;
  }

  /** The eight digits of byte k. */
  lemma {:induction false} DigitsOfByte(bytes: Bytes, k: nat)
    requires k < |bytes|
    ensures 8 * k + 8 <= |BitString(bytes)|
    ensures var b, bit := bytes[k], (n: nat) => if n % 2 == 1 then '1' else '0';
            BitString(bytes)[8 * k..8 * k + 8]
            == [bit(b / 128), bit(b / 64), bit(b / 32), bit(b / 16), bit(b / 8), bit(b / 4), bit(b / 2), bit(b)]
  {
    var n := |bytes| - 1;
    var front, last := BitString(bytes[..n]), Digits(bytes[n], 8);
    assert BitString(bytes) == front + last && |front| == 8 * n;
    hide BitString, Digits;
    if k < n {
      DigitsOfByte(bytes[..n], k);
      assert (front + last)[8 * k..8 * k + 8] == front[8 * k..8 * k + 8];
    } else {
      assert (front + last)[8 * n..8 * n + 8] == last;
      EightDigits(bytes[k]);
    }
  }

  lemma EightDigits(b: nat)
    ensures var bit := (n: nat) => if n % 2 == 1 then '1' else '0';
            Digits(b, 8)
            == [bit(b / 128), bit(b / 64), bit(b / 32), bit(b / 16), bit(b / 8), bit(b / 4), bit(b / 2), bit(b)]
  {
    EightShifts(b);
    hide Shift, Digits;
    DigitAt(b, 8, 0);
    DigitAt(b, 8, 1);
    DigitAt(b, 8, 2);
    DigitAt(b, 8, 3);
    DigitAt(b, 8, 4);
    DigitAt(b, 8, 5);
    DigitAt(b, 8, 6);
    DigitAt(b, 8, 7);
  }

  lemma {:induction false} DigitAt(n: nat, width: nat, j: nat)
    requires j < width
    ensures Digits(n, width)[j] == if Shift(n, width - 1 - j) % 2 == 1 then '1' else '0'
  {
    if j < width - 1 {
      DigitAt(n / 2, width - 1, j);
      ShiftOfHalf(n, width - 2 - j);
    }
  }

  lemma {:induction false} ShiftOfHalf(n: nat, i: nat)
    ensures Shift(n / 2, i) == Shift(n, i + 1)
  {
    if i > 0 {
      ShiftOfHalf(n, i - 1);
    }
  }

  lemma EightShifts(b: nat)
    ensures Shift(b, 0) == b && Shift(b, 1) == b / 2 && Shift(b, 2) == b / 4 && Shift(b, 3) == b / 8
    ensures Shift(b, 4) == b / 16 && Shift(b, 5) == b / 32 && Shift(b, 6) == b / 64 && Shift(b, 7) == b / 128
  {
    assert Shift(b, 2) == Shift(b, 1) / 2 && Shift(b, 3) == Shift(b, 2) / 2 && Shift(b, 4) == Shift(b, 3) / 2;
    assert Shift(b, 5) == Shift(b, 4) / 2 && Shift(b, 6) == Shift(b, 5) / 2 && Shift(b, 7) == Shift(b, 6) / 2;
  }

  // ---- reading the digits back ----

  function Value(s: string): nat {
    if s == [] then 0 else 2 * Value(s[..|s| - 1]) + (if s[|s| - 1] == '1' then 1 else 0)
  }

  lemma {:induction false} DigitsRoundTrip(n: nat, width: nat)
    requires n < Pow2(width)
    ensures Value(Digits(n, width)) == n
  {
    if width > 0 {
      DigitsRoundTrip(n / 2, width - 1);
      assert Digits(n, width)[..width - 1] == Digits(n / 2, width - 1);
    }
  }

  /** The bytes a binary string spells, eight digits each. */
  function ParseBits(s: string): seq<nat>
    decreases |s|
  {
    if |s| < 8 then [] else ParseBits(s[..|s| - 8]) + [Value(s[|s| - 8..])]
  }

  lemma {:induction false} BitStringRoundTrip(bytes: Bytes)
    ensures ParseBits(BitString(bytes)) == bytes
  {
    if bytes != [] {
      var front, last := bytes[..|bytes| - 1], bytes[|bytes| - 1];
      var s := BitString(bytes);
      BitStringRoundTrip(front);
      assert Pow2(4) == 16;
      assert Pow2(8) == 256;
      DigitsRoundTrip(last, 8);
      assert s[..|s| - 8] == BitString(front) && s[|s| - 8..] == Digits(last, 8);
    }
  }

  // ---- the ten blocks ----

  function Joined(blocks: seq<string>): string {
    if blocks == [] then [] else Joined(blocks[..|blocks| - 1]) + blocks[|blocks| - 1]
  }

  /** The video hash of at least one frame hash: slot `i` holds hash `i mod k`. */
  function Filled(hashes: seq<ImageHash>): seq<string>
    requires hashes != []
  {
    seq(NUM_FRAMES, i requires 0 <= i < NUM_FRAMES => BitString(hashes[i % |hashes|]))
  }

  lemma NextBlock(width: nat, i: nat)
    ensures At(width, i + 1, 0) == At(width, i, 0) + width
  {
  }

  lemma {:induction false} JoinedLength(blocks: seq<string>, width: nat)
    requires forall j :: 0 <= j < |blocks| ==> |blocks[j]| == width
    ensures |Joined(blocks)| == At(width, |blocks|, 0)
  {
    if blocks != [] {
      JoinedLength(blocks[..|blocks| - 1], width);
      NextBlock(width, |blocks| - 1);
    }
  }

  lemma {:induction false} JoinedBlock(blocks: seq<string>, width: nat, i: nat)
    requires forall j :: 0 <= j < |blocks| ==> |blocks[j]| == width
    requires i < |blocks|
    ensures At(width, i, 0) + width <= |Joined(blocks)| == At(width, |blocks|, 0)
    ensures Joined(blocks)[At(width, i, 0)..At(width, i, 0) + width] == blocks[i]
    decreases |blocks|
  {
    hide At;
    var last := |blocks| - 1;
    JoinedLength(blocks, width);
    JoinedLength(blocks[..last], width);
    NextBlock(width, last);
    if i < last {
      JoinedBlock(blocks[..last], width, i);
    }
  }

  /** Every video hash is 640 digits long, and its ten blocks spell the frame hashes, cyclically. */
  lemma BlocksSpellTheHashes(hashes: seq<ImageHash>, i: nat)
    requires hashes != [] && i < NUM_FRAMES
    ensures |Joined(Filled(hashes))| == 640
    ensures Joined(Filled(hashes))[i * 64..(i + 1) * 64] == BitString(hashes[i % |hashes|])
    ensures ParseBits(Joined(Filled(hashes))[i * 64..(i + 1) * 64]) == hashes[i % |hashes|]
  {
    JoinedBlock(Filled(hashes), 64, i);
    BitStringRoundTrip(hashes[i % |hashes|]);
  }

  // ---- the whole computation ----

  datatype VideoHash = VideoHash(hash: string, frameCount: nat)

  datatype HashError = NoFramesExtracted

  function Hashes<I>(images: seq<I>, imageHash: I -> ImageHash): (hashes: seq<ImageHash>)
    ensures |hashes| == |images|
    ensures forall i :: 0 <= i < |images| ==> hashes[i] == imageHash(images[i])
  {
    if images == [] then [] else Hashes(images[..|images| - 1], imageHash) + [imageHash(images[|images| - 1])]
  }

  method HashVideo<I>(packets: seq<Packet<I>>, stream: int, flushed: seq<Decoded<I>>, totalFrames: nat,
                      imageHash: I -> ImageHash)
    returns (r: Result<VideoHash, HashError>)
    ensures var decoded := FramesOf(packets, stream) + flushed;
            var images := Wanted(decoded, totalFrames);
            r == if images == [] then Err(NoFramesExtracted)
                 else Ok(VideoHash(Joined(Filled(Hashes(images, imageHash))),
                                   if totalFrames > 0 then totalFrames else |decoded|))
  {
    hide FramesOf, Wanted, Joined, BitString, Hashes;
    var frames, frameCount := ExtractFrames(packets, stream, flushed, totalFrames);
    if frames == [] { return Err(NoFramesExtracted); }
    var frameHashes: seq<string> := [];
    for n := 0 to |frames|
      invariant |frameHashes| == n
      invariant forall j :: 0 <= j < n ==> frameHashes[j] == BitString(imageHash(frames[j]))
    {
      var binary := HashToBinaryString(imageHash(frames[n]));
      frameHashes := frameHashes + [binary];
    }
    var hashes: seq<string> := [];
    for i := 0 to NUM_FRAMES
      invariant |hashes| == i
      invariant forall j :: 0 <= j < i ==> hashes[j] == frameHashes[j % |frameHashes|]
    {
      hashes := hashes + [frameHashes[i % |frameHashes|]];
    }
    assert hashes == Filled(Hashes(frames, imageHash));
    r := Ok(VideoHash(Joined(hashes), frameCount));
  }

  // ---- which frame each block shows ----

  /**
   The frame block `i` of the hash shows when the video reports `n` frames and `c`
   of its targets were decoded.
   */
  function ShownFrame(n: nat, c: nat, i: nat): int
    requires c > 0
  {
    if n >= NUM_FRAMES then Target(n, i % c) else i % c
  }

  lemma BetweenTargets(n: nat, c: nat, k: nat)
    requires n >= NUM_FRAMES >= c
    requires c > 0 ==> Target(n, c - 1) < k
    requires c < NUM_FRAMES ==> k < Target(n, c)
    ensures !IsTarget(n, k)
  {
    hide Target;
    TenDistinctTargets(n);
  }

  lemma {:induction false} ShownTargets<I>(decoded: seq<Decoded<I>>, n: nat, c: nat)
    requires n >= NUM_FRAMES >= c && AllConvert(decoded)
    requires c > 0 ==> Target(n, c - 1) < |decoded|
    requires c < NUM_FRAMES ==> |decoded| <= Target(n, c)
    ensures |Shown(decoded, n)| == c && forall i: nat :: i < c ==> Shown(decoded, n)[i] == Target(n, i)
  {
    hide Target, IsTarget, Shown;
    TenDistinctTargets(n);
    if decoded == [] {
      NothingShown<I>(n);
    } else {
      var last := |decoded| - 1;
      ShownNext(decoded, n);
      if c > 0 && Target(n, c - 1) == last {
        IsTargetAt(n, c - 1);
        ShownTargets(decoded[..last], n, c - 1);
      } else {
        BetweenTargets(n, c, last);
        ShownTargets(decoded[..last], n, c);
      }
    }
  }

  lemma IsTargetAt(n: nat, i: nat)
    requires i < NUM_FRAMES
    ensures IsTarget(n, Target(n, i))
  {}

  lemma NothingShown<I>(n: nat)
    ensures Shown<I>([], n) == []
  {}

  lemma ShownNext<I>(decoded: seq<Decoded<I>>, n: nat)
    requires AllConvert(decoded) && decoded != []
    ensures var last := |decoded| - 1;
            Shown(decoded, n) == Shown(decoded[..last], n) + if IsTarget(n, last) then [last] else []
  {}

  lemma {:induction false} ShownLeading<I>(decoded: seq<Decoded<I>>, n: nat)
    requires n <= NUM_FRAMES && AllConvert(decoded)
    ensures var m := if n == 0 then 1 else n;
            |Shown(decoded, n)| == (if |decoded| <= m then |decoded| else m)
            && forall i :: 0 <= i < |Shown(decoded, n)| ==> Shown(decoded, n)[i] == i
  {
    if decoded != [] {
      var last := |decoded| - 1;
      ShownLeading(decoded[..last], n);
      if n == 0 { UnknownCountTargetsTheFirst(last); } else { EveryFrameIsATarget(n, last); }
    }
  }

  /** The number of targets within reach of the decoder. */
  lemma {:induction false} TargetsInReach(n: nat, d: nat, c: nat) returns (reach: nat)
    requires n >= NUM_FRAMES >= c && (c < NUM_FRAMES ==> d <= Target(n, c))
    ensures reach <= c
    ensures reach > 0 ==> Target(n, reach - 1) < d
    ensures reach < NUM_FRAMES ==> d <= Target(n, reach)
  {
    if c == 0 || Target(n, c - 1) < d {
      reach := c;
    } else {
      reach := TargetsInReach(n, d, c - 1);
    }
  }

  /**
   Block `i` of the hash spells the hash of the i-mod-c-th of the c target frames
   that convert; frames that fail to convert are skipped, and the rest repeats.
   */
  lemma {:induction false} EveryBlockShowsItsFrame<I>(decoded: seq<Decoded<I>>, n: nat, imageHash: I -> ImageHash,
                                                      i: nat)
    requires i < NUM_FRAMES
    ensures Wanted(decoded, n) != [] <==> Shown(decoded, n) != []
    ensures Shown(decoded, n) != [] ==>
              var hash := Joined(Filled(Hashes(Wanted(decoded, n), imageHash)));
              var shown := Shown(decoded, n)[i % |Shown(decoded, n)|];
              && |hash| == 640 && shown < |decoded| && decoded[shown].Some?
              && ParseBits(hash[i * 64..(i + 1) * 64]) == imageHash(decoded[shown].value)
  {
    hide Wanted, Shown, Target, Filled;
    ShownAreTheConvertingTargets(decoded, n);
    if Wanted(decoded, n) != [] {
      BlocksSpellTheHashes(Hashes(Wanted(decoded, n), imageHash), i);
    }
  }

  /**
   When all decoded frames convert, c is the number of targets among them, and the
   frame shown is target `i mod c`, or frame `i mod c` of a video that reports
   fewer than ten.
   */
  lemma {:induction false} ConvertingVideoShows<I>(decoded: seq<Decoded<I>>, n: nat, i: nat)
    requires AllConvert(decoded) && decoded != []
    ensures var shown, c := Shown(decoded, n), |TargetsBelow(n, |decoded|)|;
            |shown| == c > 0 && shown[i % c] == ShownFrame(n, c, i)
  {
    hide Wanted, Shown, Target;
    ShownAreTheConvertingTargets(decoded, n);
    WantedBelow(decoded, n);
    if n >= NUM_FRAMES {
      TenDistinctTargets(n);
      var c := TargetsInReach(n, |decoded|, NUM_FRAMES);
      ShownTargets(decoded, n, c);
    } else {
      ShownLeading(decoded, n);
    }
  }

  /** When at least the reported frames decode, ten targets are shown, or every frame of a shorter video. */
  lemma EveryTargetIsShown<I>(decoded: seq<Decoded<I>>, n: nat)
    requires AllConvert(decoded) && decoded != [] && |decoded| >= n
    ensures |TargetsBelow(n, |decoded|)| == if n >= NUM_FRAMES then NUM_FRAMES else if n == 0 then 1 else n
  {
    hide Wanted, Shown, Target;
    ShownAreTheConvertingTargets(decoded, n);
    WantedBelow(decoded, n);
    if n >= NUM_FRAMES {
      TenDistinctTargets(n);
      ShownTargets(decoded, n, NUM_FRAMES);
    } else {
      ShownLeading(decoded, n);
    }
  }
}
