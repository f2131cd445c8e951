/** The shard of a video, computed in SQL bigint arithmetic from a signed 32-bit hash. */
module Shards {
  import opened Wrappers

  const I32_MAX := 0x7fff_ffff
  const I64_MAX := 0x7fff_ffff_ffff_ffff

  /** What hashtext returns. */
  type TextHash = h: int | -0x8000_0000 <= h <= 0x7fff_ffff

  /** The `shard`/`of` query pair: both or neither, and an index below the count. */
  function ParseShard(shard: Option<int>, of: Option<int>): Result<Option<(int, int)>, ()> {
    match (shard, of)
    case (None, None) => Ok(None)
    case (Some(idx), Some(n)) => if n >= 1 && 0 <= idx < n then Ok(Some((n, idx))) else Err(())
    case _ => Err(())
  }

  /** Without the pair there is no shard, half a pair is refused, and a pair is taken for an index below the count. */
  lemma ParseShardIff(shard: Option<int>, of: Option<int>)
    ensures ParseShard(shard, of) == Ok(None) <==> shard == None && of == None
    ensures forall idx, n :: ParseShard(shard, of) == Ok(Some((n, idx))) <==>
                               shard == Some(idx) && of == Some(n) && 0 <= idx < n
    ensures ParseShard(shard, of).Err? <==>
              || shard.Some? != of.Some?
              || (shard.Some? && of.Some? && (shard.value < 0 || of.value <= shard.value))
  {}

  /** SQL's remainder takes the sign of the dividend. */
  function SqlRemainder(a: int, b: int): int
    requires b >= 1
  {
    if a >= 0 then a % b else -((-a) % b)
  }

  /** ((hashtext % of) + of) % of; None is "bigint out of range". */
  function ShardOf(hash: TextHash, of: int): Option<int>
    requires of >= 1
  {
    var sum := SqlRemainder(hash, of) + of;
    if sum > I64_MAX then None else Some(SqlRemainder(sum, of))
  }

  lemma NegatedRemainder(a: int, b: int)
    requires a < 0 < b
    ensures (-a) % b == if a % b == 0 then 0 else b - a % b
  {
    var q, r := (-a) / b, (-a) % b;
    if r == 0 {
      Quotient(a, b, -q, 0);
    } else {
      Quotient(a, b, -q - 1, b - r);
    }
  }

  lemma Quotient(a: int, b: int, q: int, r: int)
    requires b > 0 && a == q * b + r && 0 <= r < b
    ensures a % b == r && a / b == q
  {
    var d := a / b - q;
    assert a == (a / b) * b + a % b;
    assert d * b == r - a % b;
    MultipleIsFar(d, b);
  }

  lemma MultipleIsFar(d: int, b: int)
    requires b > 0
    ensures (d >= 1 ==> d * b >= b) && (d <= -1 ==> d * b <= -b)
  {}

  /** Despite the truncated remainder, the shard is the mathematical residue. */
  lemma {:induction false} ShardIsResidue(hash: TextHash, of: int)
    requires of >= 1
    ensures ShardOf(hash, of).Some? ==> ShardOf(hash, of) == Some(hash % of)
  {
    var r := SqlRemainder(hash, of);
    if hash < 0 { NegatedRemainder(hash, of); }
    if r >= 0 { Quotient(r + of, of, 1, r); } else { Quotient(r + of, of, 0, r + of); }
  }

  lemma RoomForRemainder(hash: TextHash, of: int)
    requires 1 <= of <= I64_MAX - I32_MAX
    ensures ShardOf(hash, of).Some?
  {
    if hash >= 0 { RemainderAtMost(hash, of); }
  }

  lemma NoRoomForRemainder(of: int)
    requires I64_MAX - I32_MAX < of <= I64_MAX
    ensures ShardOf(I32_MAX, of) == None
  {
    Quotient(I32_MAX, of, 0, I32_MAX);
  }

  /** Every hash has a shard exactly when the count leaves room for a 32-bit remainder in a bigint. */
  lemma NoOverflowIff(of: int)
    requires 1 <= of <= I64_MAX
    ensures (forall hash: TextHash :: ShardOf(hash, of).Some?) <==> of <= I64_MAX - I32_MAX
  {
    hide ShardOf;
    if of <= I64_MAX - I32_MAX {
      forall hash: TextHash ensures ShardOf(hash, of).Some? { RoomForRemainder(hash, of); }
    } else {
      NoRoomForRemainder(of);
    }
  }

  lemma RemainderAtMost(a: nat, b: int)
    requires b >= 1
    ensures a % b <= a
  {
    assert a == (a / b) * b + a % b;
    assert a / b >= 0;
    assert (a / b) * b >= 0;
  }
}
