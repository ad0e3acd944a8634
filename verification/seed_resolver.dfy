/**
  The seed that scores a payment cycle's tickets: the hash of the block at the
  cycle's anchor height, the last multiple of the cycle length below the
  current height, or the lottery start when that is later.
 */
module SeedResolver {
  import opened Primitives
  import opened Environment

  /** C++ integer division by a positive divisor: the quotient is truncated
      toward zero (Dafny's own `/` floors for a negative dividend). */
  function TruncDiv(a: int, b: int): (q: int)
    requires b >= 1
    ensures a >= 0 ==> 0 <= q * b <= a < q * b + b
    ensures a < 0 ==> q * b - b < a <= q * b <= 0
  {
    if a >= 0 then
      DivisionBounds(a, b);
      a / b
    else
      DivisionBounds(-a, b);
      NegatedQuotient(-a, b, (-a) / b);
      -((-a) / b)
  }

  lemma DivisionBounds(n: int, b: int)
    requires n >= 0 && b >= 1
    ensures 0 <= (n / b) * b <= n < (n / b) * b + b
  {
    var d := n / b;
    assert n == d * b + n % b && 0 <= n % b < b && d >= 0;
  }

  lemma NegatedQuotient(n: int, b: int, d: int)
    requires 0 <= d * b <= n < d * b + b
    ensures (-d) * b - b < -n <= (-d) * b <= 0
  {
    assert (-d) * b == -(d * b);
  }

  /** `std::max(start, cycle * ((blockHeight - 1) / cycle))`. */
  function LastLotteryHeight(start: int, cycle: int, blockHeight: int): (r: int)
    requires cycle >= 1
    ensures r >= start
    ensures r == start || r % cycle == 0
    // for a positive height the anchor is the latest cycle boundary strictly
    // below it, unless the lottery start is later still
    ensures blockHeight >= 1 ==> r == start || r <= blockHeight - 1 < r + cycle
    ensures blockHeight >= 1 && start < blockHeight ==> r <= blockHeight - 1
    // and no cycle boundary below the height lies beyond it
    ensures blockHeight >= 1 ==> forall j: nat :: Boundary(cycle, j) <= blockHeight - 1 ==> Boundary(cycle, j) <= r
  {
    var q := TruncDiv(blockHeight - 1, cycle);
    var aligned := cycle * q;
    MultipleHasNoRemainder(q, cycle);
    LastBoundaryIsLatest(blockHeight - 1, cycle);
    if start < aligned then aligned else start
  }

  /** The `j`-th cycle boundary. */
  function Boundary(cycle: int, j: nat): int {
    cycle * j
  }

  /** For a non-negative dividend, the truncated quotient times the cycle is
      the latest boundary not beyond it. */
  lemma LastBoundaryIsLatest(a: int, cycle: int)
    requires cycle >= 1
    ensures a >= 0 ==> forall j: nat :: Boundary(cycle, j) <= a ==> Boundary(cycle, j) <= cycle * TruncDiv(a, cycle)
  {
    var q := TruncDiv(a, cycle);
    forall j: nat | a >= 0 && Boundary(cycle, j) <= a
      ensures Boundary(cycle, j) <= cycle * q
    {
      if j > q {
        MulMonotone(q + 1, j, cycle);
      } else {
        MulMonotone(j, q, cycle);
      }
    }
  }

  lemma MultipleHasNoRemainder(q: int, cycle: int)
    requires cycle >= 1
    ensures (cycle * q) % cycle == 0
  {
    var a := cycle * q;
    var d, m := a / cycle, a % cycle;
    assert a == cycle * d + m && 0 <= m < cycle;
    assert cycle * (q - d) == m;
    if q - d >= 1 {
      MulMonotone(1, q - d, cycle);
    } else if q - d <= -1 {
      MulMonotone(q - d, -1, cycle);
    }
  }

  /** Every height of one payment cycle `(k*cycle, (k+1)*cycle]` has the same
      anchor, so the seed changes only at cycle boundaries. */
  lemma AnchorStableWithinCycle(start: int, cycle: int, k: nat, h1: int, h2: int)
    requires cycle >= 1
    requires k * cycle < h1 <= k * cycle + cycle
    requires k * cycle < h2 <= k * cycle + cycle
    ensures LastLotteryHeight(start, cycle, h1) == LastLotteryHeight(start, cycle, h2)
    ensures LastLotteryHeight(start, cycle, h1) == if start < k * cycle then k * cycle else start
  {
    QuotientIsCycleIndex(h1 - 1, cycle, k);
    QuotientIsCycleIndex(h2 - 1, cycle, k);
  }

  lemma QuotientIsCycleIndex(a: int, cycle: int, k: nat)
    requires cycle >= 1
    requires k * cycle <= a < k * cycle + cycle
    ensures TruncDiv(a, cycle) == k
  {
    var q := TruncDiv(a, cycle);
    if q > k {
      MulMonotone(k + 1, q, cycle);
    } else if q < k {
      MulMonotone(q + 1, k, cycle);
    }
  }

  lemma MulMonotone(x: int, y: int, c: int)
    requires x <= y && c >= 1
    ensures x * c <= y * c
  {
    assert y * c - x * c == (y - x) * c;
  }

  /** The seed can be looked up at a height: the schedule's cycle length is
      positive and the chain holds the anchor block. */
  predicate SeedResolvable(env: Calculator, blockHeight: int) {
    && env.paymentCycle(blockHeight) >= 1
    && env.chain(LastLotteryHeight(env.startOfLotteryBlocks, env.paymentCycle(blockHeight), blockHeight)).Some?
  }

  /** The hash of the anchor block of the payment cycle containing `blockHeight`. */
  function GetLastLotteryBlockHashBeforeHeight(env: Calculator, blockHeight: int): (seed: Uint256)
    requires SeedResolvable(env, blockHeight)
    // for a positive height in cycle `k`, that is `(k*c, (k+1)*c]`, the seed is
    // the hash of the block at `max(start, k*c)`
    ensures blockHeight >= 1 ==>
      var c := env.paymentCycle(blockHeight);
      var k := (blockHeight - 1) / c;
      var anchor := if env.startOfLotteryBlocks < k * c then k * c else env.startOfLotteryBlocks;
      env.chain(anchor).Some? && seed == env.chain(anchor).value.hash
  {
    AnchorOfHeight(env.startOfLotteryBlocks, env.paymentCycle(blockHeight), blockHeight);
    env.chain(LastLotteryHeight(env.startOfLotteryBlocks, env.paymentCycle(blockHeight), blockHeight)).value.hash
  }

  /** A positive height lies in cycle `(h - 1) / c`, whose anchor is the later
      of the start and that cycle's first boundary. */
  lemma AnchorOfHeight(start: int, cycle: int, blockHeight: int)
    requires cycle >= 1
    ensures blockHeight >= 1 ==>
      var k := (blockHeight - 1) / cycle;
      LastLotteryHeight(start, cycle, blockHeight) == if start < k * cycle then k * cycle else start
  {
    if blockHeight >= 1 {
      var k := (blockHeight - 1) / cycle;
      DivisionBounds(blockHeight - 1, cycle);
      assert k * cycle < blockHeight <= k * cycle + cycle;
      AnchorStableWithinCycle(start, cycle, k, blockHeight, blockHeight);
    }
  }

  /** Two heights of the same payment cycle `(k*cycle, (k+1)*cycle]`, under
      the same cycle length, score their tickets against the same seed. */
  lemma SeedStableWithinCycle(env: Calculator, k: nat, h1: int, h2: int)
    requires SeedResolvable(env, h1) && SeedResolvable(env, h2)
    requires env.paymentCycle(h1) == env.paymentCycle(h2)
    requires k * env.paymentCycle(h1) < h1 <= k * env.paymentCycle(h1) + env.paymentCycle(h1)
    requires k * env.paymentCycle(h1) < h2 <= k * env.paymentCycle(h1) + env.paymentCycle(h1)
    ensures GetLastLotteryBlockHashBeforeHeight(env, h1) == GetLastLotteryBlockHashBeforeHeight(env, h2)
  {
    AnchorStableWithinCycle(env.startOfLotteryBlocks, env.paymentCycle(h1), k, h1, h2);
  }
}
