/** Wrap32 (src/wrapping_integers.cc): TCP sequence-number arithmetic (section 3.4 of
    RFC 9293).  An absolute 64-bit stream offset is carried on the wire as a 32-bit value
    relative to an initial sequence number; unwrapping picks a candidate near a checkpoint. */
module Wrap32 {
  const MOD32: nat := 0x1_0000_0000
  const HALF: nat := 0x8000_0000
  const MOD64: nat := 0x1_0000_0000_0000_0000

  /** A uint32_t value. */
  type u32 = x: int | 0 <= x < 0x1_0000_0000
  /** A uint64_t value. */
  type u64 = x: int | 0 <= x < 0x1_0000_0000_0000_0000

  /** The value a uint64_t variable holds after being assigned the number x. */
  function U64(x: nat): (r: u64)
    ensures x < MOD64 ==> r == x
  {
    x % MOD64
  }

  /** Wrap32::wrap: truncate n to 32 bits, then add the zero point modulo 2^32.  Any
      uint64_t argument is a nat here: truncation to 32 bits forgets the same high bits. */
  function Wrap(n: nat, zero: u32): (w: u32)
    ensures w == (zero + n) % MOD32
  {
    (n % MOD32 + zero) % MOD32
  }

  /** The start of the 2^32 block holding c, (1 << 32) * (c / (1 << 32)) in the source. */
  function BlockBase(c: u64): (b: u64)
    ensures b == c - c % MOD32
    ensures b % MOD32 == 0 && b + MOD32 <= MOD64
  {
    MOD32 * (c / MOD32)
  }

  /** Wrap32::unwrap: the offset congruent to raw - zero whose 2^32 block is that of the
      checkpoint, moved one block up or down when the checkpoint is more than 2^31 away.
      The upward move is a uint64_t addition and wraps modulo 2^64. */
  function Unwrap(raw: u32, zero: u32, checkpoint: u64): (r: u64)
    ensures r % MOD32 == Residue(raw, zero)
  {
    var diff := (raw + MOD32 - zero) % MOD32;
    var result := diff + BlockBase(checkpoint);
    ModMultiple(diff, BlockBase(checkpoint));
    if checkpoint > result && checkpoint - result > HALF then
      ModMultiple(result, MOD32);
      ModMultiple(result + MOD32, -(MOD64 as int));
      (result + MOD32) % MOD64
    else if checkpoint < result && result - checkpoint > HALF && result > MOD32 then
      ModMultiple(result - MOD32, MOD32);
      result - MOD32
    else
      result
  }

  /** The unwrapped offset's residue: the value the source subtracts zero from. */
  function Residue(raw: u32, zero: u32): (d: u32)
    ensures d == (raw - zero) % MOD32
  {
    (raw + MOD32 - zero) % MOD32
  }

  // ----- modular-arithmetic helpers -----

  lemma ModUnique(x: int, q: int, r: int)
    requires x == q * 0x1_0000_0000 + r && 0 <= r < 0x1_0000_0000
    ensures x % MOD32 == r
  {
  }

  lemma ModMultiple(x: int, m: int)
    requires m % MOD32 == 0
    ensures (x + m) % MOD32 == x % MOD32
  {
    ModUnique(x + m, x / MOD32 + m / MOD32, x % MOD32);
  }

  /** Two numbers congruent modulo 2^32 and less than 2^32 apart are equal. */
  lemma CongruentClose(x: int, y: int)
    requires x % MOD32 == y % MOD32
    requires x - y < MOD32 && y - x < MOD32
    ensures x == y
  {
    var qx, qy := x / MOD32, y / MOD32;
    assert x - y == (qx - qy) * 0x1_0000_0000;
  }

  // ----- properties of Wrap and Unwrap -----

  /** wrap depends only on n modulo 2^32. */
  lemma WrapPeriodic(n: nat, zero: u32)
    ensures Wrap(n, zero) == Wrap(n % MOD32, zero)
    ensures Wrap(n + MOD32, zero) == Wrap(n, zero)
  {
    ModMultiple(zero + n, MOD32);
  }

  /** unwrap starts in the checkpoint's 2^32 block and moves at most one block up or down;
      the downward move never underflows, and only the upward move can wrap past 2^64. */
  lemma UnwrapCandidates(raw: u32, zero: u32, checkpoint: u64)
    ensures var r, base := Unwrap(raw, zero, checkpoint), Residue(raw, zero) + BlockBase(checkpoint);
      || r == base
      || r == base + MOD32
      || (r == base - MOD32 && base > MOD32)
      || (r == base + MOD32 - MOD64 && base + MOD32 >= MOD64)
  {
  }

  /** unwrap's result is congruent to raw - zero modulo 2^32, so wrapping it gives raw back. */
  lemma UnwrapCongruent(raw: u32, zero: u32, checkpoint: u64)
    ensures Unwrap(raw, zero, checkpoint) % MOD32 == (raw - zero) % MOD32
    ensures Wrap(Unwrap(raw, zero, checkpoint), zero) == raw
  {
    var r, d, b := Unwrap(raw, zero, checkpoint), Residue(raw, zero), BlockBase(checkpoint);
    UnwrapCandidates(raw, zero, checkpoint);
    ModMultiple(d, b);
    if r == d + b + MOD32 {
      ModMultiple(d + b, MOD32);
    } else if r == d + b - MOD32 {
      ModMultiple(d + b - MOD32, MOD32);
    } else if r != d + b {
      ModMultiple(d + b, MOD32 - MOD64);
    }
    ModUnique(zero + r, r / MOD32 - (raw - zero) / MOD32, raw);
  }

  /** The result is within 2^31 of the checkpoint, or else the checkpoint lies in the first
      block and the result is the one candidate below 2^32, above the checkpoint.  Provided
      the upward move cannot pass 2^64. */
  lemma UnwrapNear(raw: u32, zero: u32, checkpoint: u64)
    requires checkpoint <= MOD64 - 2 * MOD32
    ensures var r := Unwrap(raw, zero, checkpoint);
      || (r <= checkpoint + HALF && checkpoint <= r + HALF)
      || (checkpoint + HALF < r < MOD32)
  {
    UnwrapCandidates(raw, zero, checkpoint);
  }

  /** Unwrapping starts from n's residue: wrap keeps n modulo 2^32. */
  lemma WrapResidue(n: nat, zero: u32)
    ensures Residue(Wrap(n, zero), zero) == n % MOD32
  {
    var w := Wrap(n, zero);
    var q := (zero + n) / MOD32;
    assert zero + n == q * 0x1_0000_0000 + w;
    ModUnique(w - zero, n / MOD32 - q, n % MOD32);
  }

  /** unwrap against zero point 0 and checkpoint 0 returns the raw value itself. */
  lemma UnwrapAtZero(raw: u32)
    ensures Unwrap(raw, 0, 0) == raw
  {
    assert Residue(raw, 0) == raw;
  }

  /** Round trip: an offset within 2^31 of the checkpoint is recovered from its wrapped
      value. */
  lemma UnwrapWrap(n: u64, zero: u32, checkpoint: u64)
    requires n < checkpoint + HALF && checkpoint < n + HALF
    ensures Unwrap(Wrap(n, zero), zero, checkpoint) == n
  {
    var w := Wrap(n, zero);
    var r, base := Unwrap(w, zero, checkpoint), Residue(w, zero) + BlockBase(checkpoint);
    WrapResidue(n, zero);
    UnwrapCongruent(w, zero, checkpoint);
    UnwrapCandidates(w, zero, checkpoint);
    if r == base + MOD32 - MOD64 {
      // the upward move wrapped: base itself is too far below the checkpoint, and the
      // next candidate is not a uint64_t, so no n within 2^31 exists
      ModMultiple(Residue(w, zero), BlockBase(checkpoint));
      CongruentClose(n, base);
    } else {
      CongruentClose(n, r);
    }
  }
}
