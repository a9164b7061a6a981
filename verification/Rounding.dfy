/** The rounding helpers of the kernel's utility header. */
module Rounding {
  import opened Bits

  function FloorChunk(n: u64, chunk: u64): u64
    requires chunk > 0
  {
    assert n / chunk * chunk <= n;
    n / chunk * chunk
  }

  /** Rounding up adds a chunk in 64-bit arithmetic, so it can wrap. */
  method CeilChunk(n: u64, chunk: u64) returns (result: u64)
    requires chunk > 0
    ensures result == Wrap(Ceil(n, chunk) * chunk)
  {
    result := FloorChunk(n, chunk);
    if n % chunk != 0 {
      OneMore(n / chunk, chunk);
      result := Wrap(result + chunk);
    }
  }

  lemma OneMore(k: nat, chunk: nat)
    ensures (k + 1) * chunk == k * chunk + chunk
  {}

  method CeilDiv(n: u64, divisor: u64) returns (result: u64)
    requires divisor > 0
    ensures result == Ceil(n, divisor)
  {
    result := n / divisor;
    if n % divisor != 0 {
      QuotientBelow(n, divisor, n / divisor);
      result := result + 1;
    }
  }

  lemma QuotientBelow(n: u64, divisor: u64, q: nat)
    requires divisor > 0 && q * divisor <= n && n % divisor != 0
    ensures q < TWO_64 - 1
  {
    assert divisor > 1;
    MulMonotone(q, 2, q, divisor);
  }

  /** How many chunks it takes to hold `n`. */
  function Ceil(n: nat, chunk: nat): nat
    requires chunk > 0
  {
    n / chunk + if n % chunk != 0 then 1 else 0
  }

  /** `Ceil` is the least number of chunks that is enough. */
  lemma CeilIsLeast(n: nat, chunk: nat, k: nat)
    requires chunk > 0
    ensures n <= k * chunk <==> Ceil(n, chunk) <= k
  {
    var q, r := n / chunk, n % chunk;
    QuotientTimes(n, chunk);
    if k > q {
      MulMonotone(q + 1, chunk, k, chunk);
      OneMore(q, chunk);
    } else if k < q {
      MulMonotone(k + 1, chunk, q, chunk);
      OneMore(k, chunk);
    }
  }

  lemma QuotientTimes(n: nat, chunk: nat)
    requires chunk > 0
    ensures n == n / chunk * chunk + n % chunk && 0 <= n % chunk < chunk
  {}

  /** Sizes up to here never make a 64-bit loop counter wrap. */
  const MAX_SIZE: u64 := TWO_64 - 4096

  /** A loop over `size` bytes in steps of a page runs `Ceil(size, 4096)` times. */
  lemma PageCount(size: nat, i: nat, n: nat)
    requires i == 4096 * n && n <= Ceil(size, 4096)
    ensures i < size <==> n < Ceil(size, 4096)
  {}
}
