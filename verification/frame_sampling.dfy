/** Which frames of a video are hashed, and how they are taken out of the decoder. */
module FrameSampling {
  import opened Wrappers
  import opened Machine

  const NUM_FRAMES := 10

  // ---- target indices ----

  function FrameInterval(totalFrames: nat): real {
    if totalFrames > 1 then (totalFrames - 1) as real / (NUM_FRAMES - 1) as real else 0.0
  }

  /** Rounding to the nearest integer, halves away from zero, of a number that is not negative. */
  function Round(x: real): int {
    (x + 0.5).Floor
  }

  function Times(i: nat, x: real): real {
    i as real * x
  }

  function Target(totalFrames: nat, i: nat): int {
    Round(Times(i, FrameInterval(totalFrames)))
  }

  predicate IsTarget(totalFrames: nat, k: int) {
    exists i: nat :: i < NUM_FRAMES && Target(totalFrames, i) == k
  }

  /** A target is the nearest frame to its share of the video, and never a tie. */
  lemma {:induction false} TargetIsNearest(n: nat, i: nat)
    requires n >= 1
    ensures -9 < 2 * (9 * Target(n, i) - i * (n - 1)) < 9
  {
    var x, t := i as real * FrameInterval(n), Target(n, i);
    if n > 1 {
      assert 9.0 * x == i as real * (n - 1) as real == (i * (n - 1)) as real;
    } else {
      assert x == 0.0;
    }
    assert t as real <= x + 0.5 < t as real + 1.0;
    var d := 9 * t - i * (n - 1);
    assert d as real == 9.0 * t as real - 9.0 * x;
    assert -9.0 < 2.0 * d as real <= 9.0;
  }

  lemma TargetIsUnique(n: nat, i: nat, t: int)
    requires n >= 1 && -9 < 2 * (9 * t - i * (n - 1)) < 9
    ensures Target(n, i) == t
  {
    TargetIsNearest(n, i);
  }

  lemma TargetStep(n: nat, i: nat)
    requires n >= 1
    ensures n >= 10 ==> Target(n, i) < Target(n, i + 1)
    ensures n <= 10 ==> Target(n, i) <= Target(n, i + 1) <= Target(n, i) + 1
  {
    hide *;
    TargetIsNearest(n, i);
    TargetIsNearest(n, i + 1);
    assert (i + 1) * (n - 1) == i * (n - 1) + (n - 1);
  }

  lemma {:induction false} TargetsAscend(n: nat, i: nat, j: nat)
    requires n >= 1 && i <= j
    ensures Target(n, i) <= Target(n, j)
    ensures n >= 10 && i < j ==> Target(n, i) < Target(n, j)
    decreases j
  {
    if i < j {
      TargetsAscend(n, i, j - 1);
      TargetStep(n, j - 1);
    }
  }

  lemma TargetEnds(n: nat)
    requires n >= 1
    ensures Target(n, 0) == 0 && Target(n, 9) == n - 1
  {
    TargetIsUnique(n, 0, 0);
    TargetIsUnique(n, 9, n - 1);
  }

  /** From ten frames on the targets are ten different frames, the first and the last among them. */
  lemma {:induction false} TenDistinctTargets(n: nat)
    requires n >= 10
    ensures Target(n, 0) == 0 && Target(n, 9) == n - 1
    ensures forall i: nat, j: nat :: i < j < NUM_FRAMES ==> Target(n, i) < Target(n, j)
  {
    TargetEnds(n);
    forall i: nat, j: nat | i < j < NUM_FRAMES
      ensures Target(n, i) < Target(n, j)
    {
      TargetsAscend(n, i, j);
    }
  }

  lemma {:induction false} FrameReached(n: nat, k: nat, i: nat) returns (hit: nat)
    requires 1 <= n <= 10 && k <= Target(n, i)
    ensures hit <= i && Target(n, hit) == k
  {
    TargetEnds(n);
    if Target(n, i) == k {
      hit := i;
    } else {
      TargetStep(n, i - 1);
      hit := FrameReached(n, k, i - 1);
    }
  }

  /** Up to ten frames, the targets are all the frames there are. */
  lemma EveryFrameIsATarget(n: nat, k: int)
    requires 1 <= n <= 10
    ensures IsTarget(n, k) <==> 0 <= k < n
  {
    TargetEnds(n);
    if 0 <= k < n {
      var i := FrameReached(n, k, 9);
      assert i < NUM_FRAMES && Target(n, i) == k;
    }
    if i: nat :| i < NUM_FRAMES && Target(n, i) == k {
      TargetsAscend(n, 0, i);
      TargetsAscend(n, i, 9);
    }
  }

  /** With an unknown frame count every target is the first frame. */
  lemma UnknownCountTargetsTheFirst(k: int)
    ensures IsTarget(0, k) <==> k == 0
  {
    assert Target(0, 0) == 0;
  }

  // ---- 64-bit floating point ----

  /** What an IEEE 754 double operation may return for an exact result that is not negative: off by 2^-53 of it. */
  predicate Rounded(exact: real, computed: real) {
    -(exact / 9007199254740992.0) <= computed - exact <= exact / 9007199254740992.0
  }

  lemma ScaleReal(a: real, b: real, c: real)
    requires a <= b && c >= 0.0
    ensures c * a <= c * b
  {}

  /** Scaling keeps the relative error. */
  lemma ScaleRounded(i: nat, exact: real, computed: real)
    requires Rounded(exact, computed)
    ensures Rounded(Times(i, exact), Times(i, computed))
  {
    ScaleReal(-(exact / 9007199254740992.0), computed - exact, i as real);
    ScaleReal(computed - exact, exact / 9007199254740992.0, i as real);
  }

  lemma RoundedTwice(exact: real, once: real, twice: real)
    requires exact >= 0.0 && Rounded(exact, once) && Rounded(once, twice)
    ensures -(3.0 * exact / 9007199254740992.0) <= twice - exact <= 3.0 * exact / 9007199254740992.0
  {}

  /** A ninth of an integer is too far from a tie for so small an error to matter. */
  lemma NearestStays(x: real, m: int, t: int, computed: real)
    requires 9.0 * x == m as real && -4 <= 9 * t - m <= 4
    requires 0.0 <= x <= 70368744177664.0
    requires -(3.0 * x / 9007199254740992.0) <= computed - x <= 3.0 * x / 9007199254740992.0
    ensures Round(computed) == t
  {
    assert (9 * t - m) as real == 9.0 * t as real - 9.0 * x;
    assert t as real - 0.5 < computed < t as real + 0.5;
  }

  /**
   Rounding errors do not matter: up to 2^46 frames, however the division and the
   product round, the target is the one computed exactly.
   */
  lemma {:induction false} FloatingPointTargets(n: nat, i: nat, interval: real, product: real)
    requires 1 <= n <= 0x4000_0000_0000 && i < NUM_FRAMES
    requires Rounded(FrameInterval(n), interval) && Rounded(Times(i, interval), product)
    ensures Round(product) == Target(n, i)
  {
    TargetIsNearest(n, i);
    NineTimes(n, i);
    ShareInVideo(n, i);
    hide *;
    var f := FrameInterval(n);
    ScaleRounded(i, f, interval);
    RoundedTwice(Times(i, f), Times(i, interval), product);
    NearestStays(Times(i, f), i * (n - 1), Target(n, i), product);
  }

  lemma NineTimes(n: nat, i: nat)
    requires n >= 1
    ensures 9.0 * Times(i, FrameInterval(n)) == (i * (n - 1)) as real
  {
    var m := n - 1;
    if m > 0 {
      assert 9.0 * FrameInterval(n) == m as real;
      assert 9.0 * (i as real * FrameInterval(n)) == i as real * (9.0 * FrameInterval(n));
    }
    assert i as real * m as real == (i * m) as real;
  }

  lemma ShareInVideo(n: nat, i: nat)
    requires n >= 1 && i < NUM_FRAMES
    ensures 0.0 <= Times(i, FrameInterval(n)) <= (n - 1) as real
  {
    NineTimes(n, i);
    assert 0 <= i * (n - 1) <= 9 * (n - 1);
    assert (i * (n - 1)) as real <= (9 * (n - 1)) as real;
  }

  // ---- extraction ----

  /** One decoded frame: the image it converts to, or nothing. */
  type Decoded<I> = Option<I>

  datatype Packet<I> = Packet(stream: int, accepted: bool, frames: seq<Decoded<I>>)

  /** The frames that come out of the decoder, in order. */
  function FramesOf<I>(packets: seq<Packet<I>>, stream: int): seq<Decoded<I>> {
    if packets == [] then []
    else
      var p := packets[|packets| - 1];
      FramesOf(packets[..|packets| - 1], stream) + (if p.stream == stream && p.accepted then p.frames else [])
  }

  /** A packet gives its frames if it is of the stream and the decoder takes it. */
  lemma FramesOfOne<I>(p: Packet<I>, stream: int)
    ensures p.stream == stream && p.accepted ==> FramesOf([p], stream) == p.frames
    ensures p.stream != stream || !p.accepted ==> FramesOf([p], stream) == []
  {
    assert [p][..0] == [];
  }

  lemma FramesOfNext<I>(packets: seq<Packet<I>>, p: Packet<I>, stream: int)
    ensures FramesOf(packets + [p], stream) == FramesOf(packets, stream) + FramesOf([p], stream)
  {
    FramesOfOne(p, stream);
    assert (packets + [p])[..|packets|] == packets;
  }

  lemma Regroup<T>(a: seq<T>, b: seq<T>, c: seq<T>)
    ensures a + b + c == a + (b + c)
  {}

  lemma FrontAndLast<T>(s: seq<T>) returns (front: seq<T>, last: T)
    requires s != []
    ensures s == front + [last] && |front| < |s|
  {
    front, last := s[..|s| - 1], s[|s| - 1];
  }

  lemma NoFrames<I>(packets: seq<Packet<I>>, stream: int)
    ensures FramesOf<I>([], stream) == [] && packets + [] == packets
  {}

  /** And packets give them in order. */
  lemma {:induction false} FramesInOrder<I>(first: seq<Packet<I>>, second: seq<Packet<I>>, stream: int)
    ensures FramesOf(first + second, stream) == FramesOf(first, stream) + FramesOf(second, stream)
    decreases |second|
  {
    hide FramesOf;
    if second == [] {
      NoFrames(first, stream);
    } else {
      var front, last := FrontAndLast(second);
      FramesInOrder(first, front, stream);
      FramesOfNext(front, last, stream);
      FramesOfNext(first + front, last, stream);
      Regroup(first, front, [last]);
      Regroup(FramesOf(first, stream), FramesOf(front, stream), FramesOf([last], stream));
    }
  }

  /** The images of the target frames that convert. */
  function Wanted<I>(frames: seq<Decoded<I>>, totalFrames: nat): seq<I> {
    if frames == [] then []
    else
      var last := |frames| - 1;
      Wanted(frames[..last], totalFrames)
      + (if IsTarget(totalFrames, last) && frames[last].Some? then [frames[last].value] else [])
  }

  /** The target frames that convert. */
  function Shown<I>(frames: seq<Decoded<I>>, totalFrames: nat): seq<nat> {
    if frames == [] then []
    else
      var last := |frames| - 1;
      Shown(frames[..last], totalFrames) + (if IsTarget(totalFrames, last) && frames[last].Some? then [last] else [])
  }

  lemma {:induction false} ShownBelow<I>(frames: seq<Decoded<I>>, totalFrames: nat, i: nat)
    requires i < |Shown(frames, totalFrames)|
    ensures Shown(frames, totalFrames)[i] < |frames|
  {
    var last := |frames| - 1;
    if i < |Shown(frames[..last], totalFrames)| {
      ShownBelow(frames[..last], totalFrames, i);
    }
  }

  lemma {:induction false} ShownAscend<I>(frames: seq<Decoded<I>>, totalFrames: nat, i: nat, j: nat)
    requires i < j < |Shown(frames, totalFrames)|
    ensures Shown(frames, totalFrames)[i] < Shown(frames, totalFrames)[j]
  {
    var last := |frames| - 1;
    ShownBelow(frames[..last], totalFrames, i);
    if j < |Shown(frames[..last], totalFrames)| {
      ShownAscend(frames[..last], totalFrames, i, j);
    }
  }

  lemma {:induction false} ShownHas<I>(frames: seq<Decoded<I>>, totalFrames: nat, k: nat)
    ensures k in Shown(frames, totalFrames) <==> k < |frames| && IsTarget(totalFrames, k) && frames[k].Some?
  {
    hide IsTarget;
    if frames != [] {
      ShownHas(frames[..|frames| - 1], totalFrames, k);
    }
  }

  lemma {:induction false} ShownImage<I>(frames: seq<Decoded<I>>, totalFrames: nat, i: nat)
    ensures |Wanted(frames, totalFrames)| == |Shown(frames, totalFrames)|
    ensures i < |Shown(frames, totalFrames)| ==>
              var k := Shown(frames, totalFrames)[i];
              k < |frames| && frames[k] == Some(Wanted(frames, totalFrames)[i])
  {
    hide IsTarget;
    if frames != [] {
      ShownImage(frames[..|frames| - 1], totalFrames, i);
    }
  }

  /** They are these, in order, and their images are what is extracted. */
  lemma {:induction false} ShownAreTheConvertingTargets<I>(frames: seq<Decoded<I>>, totalFrames: nat)
    ensures var shown, images := Shown(frames, totalFrames), Wanted(frames, totalFrames);
            && (forall i, j :: 0 <= i < j < |shown| ==> shown[i] < shown[j])
            && (forall k: nat :: k in shown <==> k < |frames| && IsTarget(totalFrames, k) && frames[k].Some?)
            && |images| == |shown|
            && forall i :: 0 <= i < |shown| ==> shown[i] < |frames| && frames[shown[i]] == Some(images[i])
  {
    hide Shown, Wanted, IsTarget;
    var shown, images := Shown(frames, totalFrames), Wanted(frames, totalFrames);
    ShownImage(frames, totalFrames, 0);
    forall i, j | 0 <= i < j < |shown| ensures shown[i] < shown[j] { ShownAscend(frames, totalFrames, i, j); }
    forall k: nat ensures k in shown <==> k < |frames| && IsTarget(totalFrames, k) && frames[k].Some? {
      ShownHas(frames, totalFrames, k);
    }
    forall i | 0 <= i < |shown| ensures shown[i] < |frames| && frames[shown[i]] == Some(images[i]) {
      ShownImage(frames, totalFrames, i);
    }
  }

  function Targets(totalFrames: nat): set<int> {
    set i: nat | i < NUM_FRAMES :: Target(totalFrames, i)
  }

  function TargetsBelow(totalFrames: nat, n: nat): set<int> {
    set t | t in Targets(totalFrames) && t < n
  }

  lemma {:induction false} TargetCount(totalFrames: nat, n: nat)
    ensures |set i: nat | i < n :: Target(totalFrames, i)| <= n
  {
    var upTo := set i: nat | i < n :: Target(totalFrames, i);
    if n > 0 {
      TargetCount(totalFrames, n - 1);
      var before := set i: nat | i < n - 1 :: Target(totalFrames, i);
      assert upTo == before + {Target(totalFrames, n - 1)};
    }
  }

  predicate AllConvert<I>(frames: seq<Decoded<I>>) {
    forall k :: 0 <= k < |frames| ==> frames[k].Some?
  }

  lemma NoNegativeTarget(totalFrames: nat, i: nat)
    ensures Target(totalFrames, i) >= 0
  {
    var interval := FrameInterval(totalFrames);
    assert interval >= 0.0;
    assert i as real * interval >= 0.0;
  }

  lemma {:induction false} WantedBelow<I>(frames: seq<Decoded<I>>, totalFrames: nat)
    ensures |Wanted(frames, totalFrames)| <= |TargetsBelow(totalFrames, |frames|)|
    ensures AllConvert(frames) ==> |Wanted(frames, totalFrames)| == |TargetsBelow(totalFrames, |frames|)|
  {
    if frames != [] {
      var last := |frames| - 1;
      WantedBelow(frames[..last], totalFrames);
      var before, after := TargetsBelow(totalFrames, last), TargetsBelow(totalFrames, last + 1);
      if IsTarget(totalFrames, last) {
        assert after == before + {last};
      } else {
        assert after == before;
      }
    } else {
      forall i: nat ensures Target(totalFrames, i) >= 0 { NoNegativeTarget(totalFrames, i); }
      assert TargetsBelow(totalFrames, 0) == {};
    }
  }

  /** There are never more than ten. */
  lemma AtMostTenWanted<I>(frames: seq<Decoded<I>>, totalFrames: nat)
    ensures |Wanted(frames, totalFrames)| <= NUM_FRAMES
    ensures totalFrames == 0 ==> |Wanted(frames, totalFrames)| <= 1
  {
    WantedBelow(frames, totalFrames);
    TargetCount(totalFrames, NUM_FRAMES);
    var hit := TargetsBelow(totalFrames, |frames|);
    Fewer(hit, Targets(totalFrames));
    if totalFrames == 0 {
      assert Targets(0) <= {0};
      Fewer(Targets(0), {0});
    }
  }

  lemma Fewer(a: set<int>, b: set<int>)
    requires a <= b
    ensures |a| <= |b|
  {
    assert b == a + (b - a);
  }

  lemma {:induction false} WantedGrows<I>(frames: seq<Decoded<I>>, more: seq<Decoded<I>>, totalFrames: nat)
    ensures Wanted(frames, totalFrames) <= Wanted(frames + more, totalFrames)
  {
    if more == [] {
      assert frames + more == frames;
    } else {
      WantedGrows(frames, more[..|more| - 1], totalFrames);
      assert (frames + more)[..|frames + more| - 1] == frames + more[..|more| - 1];
    }
  }

  /** Ten images are all there will be, so extraction may stop. */
  lemma TenIsAll<I>(frames: seq<Decoded<I>>, more: seq<Decoded<I>>, totalFrames: nat)
    requires |Wanted(frames, totalFrames)| >= NUM_FRAMES
    ensures Wanted(frames + more, totalFrames) == Wanted(frames, totalFrames)
  {
    WantedGrows(frames, more, totalFrames);
    AtMostTenWanted(frames + more, totalFrames);
  }

  function MetadataFrameCount(totalFrames: nat, decodedFrames: nat): nat {
    if totalFrames > 0 then totalFrames else decodedFrames
  }

  lemma WantedNext<I>(frames: seq<Decoded<I>>, frame: Decoded<I>, totalFrames: nat)
    ensures Wanted(frames + [frame], totalFrames)
         == Wanted(frames, totalFrames) + (if IsTarget(totalFrames, |frames|) && frame.Some? then [frame.value] else [])
  {
    assert (frames + [frame])[..|frames|] == frames;
  }

  lemma OneMoreFrame<I>(seen: seq<Decoded<I>>, decoded: seq<Decoded<I>>, n: nat, totalFrames: nat)
    requires n < |decoded|
    ensures Wanted(seen + decoded[..n + 1], totalFrames)
         == Wanted(seen + decoded[..n], totalFrames)
            + (if IsTarget(totalFrames, |seen| + n) && decoded[n].Some? then [decoded[n].value] else [])
  {
    hide *;
    var frames := seen + decoded[..n];
    assert seen + decoded[..n + 1] == frames + [decoded[n]];
    WantedNext(frames, decoded[n], totalFrames);
  }

  /** Take frames from the decoder until it has no more for now, or the tenth image is there. */
  method ReceiveFrames<I>(totalFrames: nat, start: nat, decoded: seq<Decoded<I>>, before: seq<I>,
                          ghost seen: seq<Decoded<I>>)
    returns (full: bool, frames: seq<I>, frameCount: nat)
    requires start == |seen| && before == Wanted(seen, totalFrames) && |before| < NUM_FRAMES
    ensures frames == Wanted(seen + decoded, totalFrames)
    ensures full <==> |frames| == NUM_FRAMES
    ensures !full ==> frameCount == |seen + decoded|
  {
    hide Wanted, IsTarget;
    frames, frameCount := before, start;
    var n := 0;
    assert seen + decoded[..0] == seen;
    while n < |decoded|
      invariant 0 <= n <= |decoded| && frameCount == |seen| + n
      invariant frames == Wanted(seen + decoded[..n], totalFrames) && |frames| < NUM_FRAMES
    {
      OneMoreFrame(seen, decoded, n, totalFrames);
      if IsTarget(totalFrames, frameCount) && decoded[n].Some? {
        frames := frames + [decoded[n].value];
        if |frames| >= NUM_FRAMES {
          TenIsAll(seen + decoded[..n + 1], decoded[n + 1..], totalFrames);
          assert seen + decoded[..n + 1] + decoded[n + 1..] == seen + decoded;
          return true, frames, frameCount;
        }
      }
      frameCount := frameCount + 1;
      n := n + 1;
    }
    assert decoded[..n] == decoded;
    full := false;
  }

  /**
   The whole extraction.  Stopping early loses nothing: the result is every target
   frame that converts, and the reported count is the same as if all were decoded.
   */
  method ExtractFrames<I>(packets: seq<Packet<I>>, stream: int, flushed: seq<Decoded<I>>, totalFrames: nat)
    returns (frames: seq<I>, frameCount: nat)
    ensures frames == Wanted(FramesOf(packets, stream) + flushed, totalFrames)
    ensures frameCount == if totalFrames > 0 then totalFrames else |FramesOf(packets, stream)| + |flushed|
  {
    frames := [];
    var full;
    var decodedCount := 0;
    ghost var seen := [];
    var n := 0;
    while n < |packets|
      invariant 0 <= n <= |packets| && seen == FramesOf(packets[..n], stream) && decodedCount == |seen|
      invariant frames == Wanted(seen, totalFrames) && |frames| < NUM_FRAMES
    {
      assert packets[..n + 1][..n] == packets[..n];
      if packets[n].stream == stream && packets[n].accepted {
        full, frames, decodedCount := ReceiveFrames(totalFrames, decodedCount, packets[n].frames, frames, seen);
        seen := seen + packets[n].frames;
        AtMostTenWanted(seen, totalFrames);
        if full {
          StoppingEarly(packets, stream, n + 1, flushed, totalFrames);
          return frames, MetadataFrameCount(totalFrames, decodedCount);
        }
      }
      n := n + 1;
    }
    assert packets[..n] == packets;
    full, frames, decodedCount := ReceiveFrames(totalFrames, decodedCount, flushed, frames, seen);
    AtMostTenWanted(seen + flushed, totalFrames);
    frameCount := MetadataFrameCount(totalFrames, decodedCount);
  }

  lemma {:induction false} FramesOfLonger<I>(packets: seq<Packet<I>>, stream: int, n: nat)
    returns (later: seq<Decoded<I>>)
    requires n <= |packets|
    ensures FramesOf(packets, stream) == FramesOf(packets[..n], stream) + later
  {
    if n == |packets| {
      assert packets[..n] == packets;
      later := [];
    } else {
      var last := |packets| - 1;
      later := FramesOfLonger(packets[..last], stream, n);
      assert packets[..last][..n] == packets[..n];
      later := later + (if packets[last].stream == stream && packets[last].accepted then packets[last].frames else []);
    }
  }

  lemma StoppingEarly<I>(packets: seq<Packet<I>>, stream: int, n: nat, flushed: seq<Decoded<I>>, totalFrames: nat)
    requires n <= |packets| && |Wanted(FramesOf(packets[..n], stream), totalFrames)| == NUM_FRAMES
    ensures totalFrames > 0
    ensures Wanted(FramesOf(packets, stream) + flushed, totalFrames)
              == Wanted(FramesOf(packets[..n], stream), totalFrames)
  {
    var seen := FramesOf(packets[..n], stream);
    var later := FramesOfLonger(packets, stream, n);
    AtMostTenWanted(seen, totalFrames);
    TenIsAll(seen, later + flushed, totalFrames);
    assert seen + (later + flushed) == FramesOf(packets, stream) + flushed;
  }

  // ---- copying a converted frame ----

  datatype CopyError = RowBytesOverflow | ShortStride | ImageOverflow | RowOffsetOverflow | RowEndOverflow | ShortData

  /** Where byte `x` of row `y` lies in a buffer with rows this wide. */
  function At(width: nat, y: nat, x: nat): nat {
    y * width + x
  }

  /** How many bytes the rows reach into the data. */
  function Needed(stride: nat, rowBytes: nat, height: nat): nat {
    if height == 0 then 0 else At(stride, height - 1, rowBytes)
  }

  function Rows(data: Bytes, stride: nat, rowBytes: nat, height: nat): Bytes
    requires rowBytes <= stride && Needed(stride, rowBytes, height) <= |data|
  {
    if height == 0 then []
    else
      RowsBelow(stride, rowBytes, height);
      Rows(data, stride, rowBytes, height - 1) + data[At(stride, height - 1, 0)..At(stride, height - 1, rowBytes)]
  }

  lemma RowsBelow(stride: nat, rowBytes: nat, height: nat)
    requires rowBytes <= stride && height > 0
    ensures Needed(stride, rowBytes, height - 1) <= Needed(stride, rowBytes, height)
  {
    if height > 1 {
      assert (height - 1) * stride == (height - 2) * stride + stride;
    }
  }

  lemma {:induction false} RowsUpTo(stride: nat, rowBytes: nat, y: nat, height: nat)
    requires rowBytes <= stride && y <= height
    ensures Needed(stride, rowBytes, y) <= Needed(stride, rowBytes, height)
    decreases height
  {
    if y < height {
      RowsUpTo(stride, rowBytes, y, height - 1);
      RowsBelow(stride, rowBytes, height);
    }
  }

  lemma {:induction false} RowsLength(data: Bytes, stride: nat, rowBytes: nat, height: nat)
    requires rowBytes <= stride && Needed(stride, rowBytes, height) <= |data|
    ensures |Rows(data, stride, rowBytes, height)| == At(rowBytes, height, 0)
  {
    if height > 0 {
      RowsBelow(stride, rowBytes, height);
      RowsLength(data, stride, rowBytes, height - 1);
      assert At(rowBytes, height, 0) == At(rowBytes, height - 1, 0) + rowBytes;
    }
  }

  lemma {:induction false} RowsInOrder(width: nat, y: nat, x: nat, height: nat)
    requires y < height && x < width
    ensures At(width, y, x) < At(width, height, 0)
    decreases height
  {
    assert At(width, height, 0) == At(width, height - 1, 0) + width;
    if y < height - 1 {
      RowsInOrder(width, y, x, height - 1);
    }
  }

  lemma RowsUnfold(data: Bytes, stride: nat, rowBytes: nat, height: nat)
    requires rowBytes <= stride && Needed(stride, rowBytes, height) <= |data| && height > 0
    ensures Needed(stride, rowBytes, height - 1) <= |data|
    ensures At(stride, height - 1, 0) <= At(stride, height - 1, rowBytes) <= |data|
    ensures Rows(data, stride, rowBytes, height)
         == Rows(data, stride, rowBytes, height - 1) + data[At(stride, height - 1, 0)..At(stride, height - 1, rowBytes)]
  {
    RowsBelow(stride, rowBytes, height);
  }

  lemma LastRow(data: Bytes, stride: nat, rowBytes: nat, height: nat, x: nat)
    requires rowBytes <= stride && Needed(stride, rowBytes, height) <= |data|
    requires height > 0 && x < rowBytes
    ensures Needed(stride, rowBytes, height - 1) <= |data|
    ensures Rows(data, stride, rowBytes, height - 1) <= Rows(data, stride, rowBytes, height)
    ensures At(rowBytes, height - 1, x) < |Rows(data, stride, rowBytes, height)| && At(stride, height - 1, x) < |data|
    ensures Rows(data, stride, rowBytes, height)[At(rowBytes, height - 1, x)] == data[At(stride, height - 1, x)]
  {
    hide *;
    RowsUnfold(data, stride, rowBytes, height);
    RowsLength(data, stride, rowBytes, height - 1);
    AlongARow(rowBytes, height - 1, x);
    AlongARow(stride, height - 1, x);
    AlongARow(stride, height - 1, rowBytes);
  }

  lemma AlongARow(width: nat, y: nat, x: nat)
    ensures At(width, y, x) == At(width, y, 0) + x
  {
  }

  /** The copy holds the rows without their padding. */
  lemma {:induction false} RowContents(data: Bytes, stride: nat, rowBytes: nat, height: nat, y: nat, x: nat)
    requires rowBytes <= stride && Needed(stride, rowBytes, height) <= |data|
    requires y < height && x < rowBytes
    ensures At(rowBytes, y, x) < |Rows(data, stride, rowBytes, height)| == At(rowBytes, height, 0)
    ensures At(stride, y, x) < |data|
    ensures Rows(data, stride, rowBytes, height)[At(rowBytes, y, x)] == data[At(stride, y, x)]
    decreases height
  {
    hide At, Rows, Needed;
    RowsLength(data, stride, rowBytes, height);
    LastRow(data, stride, rowBytes, height, x);
    RowsInOrder(rowBytes, y, x, height);
    if y < height - 1 {
      RowContents(data, stride, rowBytes, height - 1, y, x);
    }
  }

  /** The same, in bytes: no padding is copied, and nothing else is left out. */
  lemma CopiedBytes(data: Bytes, stride: nat, rowBytes: nat, height: nat, y: nat, x: nat)
    requires rowBytes <= stride && (height == 0 || (height - 1) * stride + rowBytes <= |data|)
    requires y < height && x < rowBytes
    ensures Needed(stride, rowBytes, height) <= |data|
    ensures |Rows(data, stride, rowBytes, height)| == height * rowBytes
    ensures y * rowBytes + x < height * rowBytes && y * stride + x < |data|
    ensures Rows(data, stride, rowBytes, height)[y * rowBytes + x] == data[y * stride + x]
  {
    RowContents(data, stride, rowBytes, height, y, x);
  }

  /** Accepts exactly the buffers that hold every row, and then copies the rows. */
  method CopyRgb24FrameData(data: Bytes, stride: nat, width: nat, height: nat) returns (r: Result<Bytes, CopyError>)
    requires |data| < 0x1_0000_0000_0000_0000
    ensures var limit := 0x1_0000_0000_0000_0000;
            && (r == Err(RowBytesOverflow) <==> limit <= 3 * width)
            && (r == Err(ShortStride) <==> 3 * width < limit && stride < 3 * width)
            && (r == Err(ImageOverflow) <==> 3 * width < limit && 3 * width <= stride && limit <= 3 * width * height)
            && (r.Ok? <==> 3 * width < limit && 3 * width <= stride && 3 * width * height < limit
                           && (height == 0 || (height - 1) * stride + 3 * width <= |data|))
    ensures r.Ok? ==> r.value == Rows(data, stride, 3 * width, height)
  {
    var rowBytes := width * 3;
    if rowBytes >= USIZE_LIMIT { return Err(RowBytesOverflow); }
    if stride < rowBytes { return Err(ShortStride); }
    if rowBytes * height >= USIZE_LIMIT { return Err(ImageOverflow); }
    var imgData: Bytes := [];
    for y := 0 to height
      invariant Needed(stride, rowBytes, y) <= |data|
      invariant imgData == Rows(data, stride, rowBytes, y)
    {
      RowsUpTo(stride, rowBytes, y + 1, height);
      var rowStart := y * stride;
      if rowStart >= USIZE_LIMIT { return Err(RowOffsetOverflow); }
      var rowEnd := rowStart + rowBytes;
      if rowEnd >= USIZE_LIMIT { return Err(RowEndOverflow); }
      if rowEnd > |data| { return Err(ShortData); }
      imgData := imgData + data[rowStart..rowEnd];
    }
    r := Ok(imgData);
  }
}
