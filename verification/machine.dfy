/** The numbers of the machine the service runs on. */
module Machine {

  type Byte = b: int | 0 <= b < 256
  type Bytes = seq<Byte>

  /** One past the largest 64-bit size. */
  const USIZE_LIMIT := 0x1_0000_0000_0000_0000

  function Pow2(n: nat): nat {
    if n == 0 then 1 else 2 * Pow2(n - 1)
  }

  lemma {:induction false} Pow2Grows(m: nat, n: nat)
    requires m <= n
    ensures 1 <= Pow2(m) <= Pow2(n)
  {
    if n > 0 {
      Pow2Grows(if m < n then m else n - 1, n - 1);
    }
  }
}
