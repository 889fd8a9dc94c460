/** The gas oracles' arithmetic (pkg/oracle): hexadecimal wei to whole gwei in 64-bit words, and the
    fee tiers of the Ethereum and BSC oracles. */
module Fees {
  import opened Common
  import opened Hex

  const GWEI: int := 1_000_000_000
  const TWO63: int := 0x8000_0000_0000_0000
  const TWO64: int := 0x1_0000_0000_0000_0000

  /** Go's int64: the value modulo 2^64 that lies in [-2^63, 2^63). */
  function Wrap(x: int): (r: int)
    ensures -TWO63 <= r < TWO63
    ensures -TWO63 <= x < TWO63 <==> r == x
    ensures (r - x) % 0x1_0000_0000_0000_0000 == 0
  {
    var low := x % TWO64;
    if low < TWO63 then low else low - TWO64
  }

  predicate Fits(x: int) {
    -TWO63 <= x < TWO63
  }

  /** hexWeiToGwei; the empty string is 0. */
  function HexWeiToGwei(h: string): Option<int> {
    if h == "" then Some(0)
    else
      var n := Parse(TrimPrefix0x(ToLower(h)), 16);
      if n.None? then None else Some(Wrap(n.value / GWEI))
  }

  function HexToInt64(h: string): Option<int> {
    if h == "" then Some(0)
    else
      var n := Parse(TrimPrefix0x(ToLower(h)), 16);
      if n.None? then None else Some(Wrap(n.value))
  }

  /** Parsing the hex printing of `w` wei gives floor(w / 10^9) exactly when that fits an int64. */
  lemma WeiToGweiIff(w: nat)
    ensures HexWeiToGwei("0x" + Print(w, 16)) == Some(w / 1_000_000_000) <==> w < 0x8000_0000_0000_0000 * 1_000_000_000
    ensures HexWeiToGwei(Print(w, 16)) == HexWeiToGwei("0x" + Print(w, 16))
  {
    ParsePrint(w, 16);
    PrintIsLowerHex(w, 16);
    LowerTrim(Print(w, 16));
  }

  /** A block number survives exactly when it fits. */
  lemma {:induction false} HexToInt64Iff(n: nat)
    ensures HexToInt64("0x" + Print(n, 16)) == Some(n) <==> n < 0x8000_0000_0000_0000
  {
    ParsePrint(n, 16);
    PrintIsLowerHex(n, 16);
    LowerTrim(Print(n, 16));
  }

  /** The prefix may be missing or be 0x or 0X, the digits may be in either case, and nothing at all is 0. */
  lemma {:induction false} WeiSpellings(digits: string)
    ensures HexWeiToGwei("0X" + digits) == HexWeiToGwei("0x" + digits)
    ensures HexWeiToGwei(ToLower(digits)) == HexWeiToGwei(digits)
    ensures HexWeiToGwei("") == Some(0) && HexToInt64("") == Some(0)
  {
    LowerTable(23, '0');
    assert ToLower("0X" + digits) == ToLower("0x" + digits);
    LowerTwice(digits);
  }

  // ----- Tiers -----

  datatype Tier = Tier(maxPriorityFee: int, maxFee: int, gasPrice: int)

  datatype Gas = Gas(fast: Tier, standard: Tier, slow: Tier, estimatedBaseFee: int, blockNumber: int)

  /** What the EVM client reads from a node, in gwei. */
  datatype Eip1559 = Eip1559(baseFee: int, priorityFee: int, block: int)

  function Max(a: int, b: int): (m: int)
    ensures a <= m && b <= m && (m == a || m == b)
  {
    if a < b then b else a
  }

  /** The oracles' tier builder, in 64-bit arithmetic. */
  function Build(base: int, prio: int, min: int, delta: int): Tier {
    var p := Wrap(prio + delta);
    var q := if p < min then min else p;
    var m := Wrap(base + q);
    Tier(q, m, m)
  }

  /** `gas` has tiers `steps` apart on top of the priority fee `prio` and the base fee `base`. */
  predicate Stepped(gas: Gas, base: int, prio: int, standard: int, fast: int) {
    && gas.slow == Tier(prio, base + prio, base + prio)
    && gas.standard == Tier(prio + standard, base + prio + standard, base + prio + standard)
    && gas.fast == Tier(prio + fast, base + prio + fast, base + prio + fast)
    && gas.estimatedBaseFee == base
  }

  /** The tiers ascend. */
  predicate Ordered(gas: Gas) {
    && gas.slow.maxFee < gas.standard.maxFee < gas.fast.maxFee
    && gas.slow.maxPriorityFee < gas.standard.maxPriorityFee < gas.fast.maxPriorityFee
  }

  const ETH_STANDARD := 5
  const ETH_FAST := 10
  const BSC_STANDARD := 2
  const BSC_FAST := 5

  /** The sums of the slow and the fast tier are int64 values. */
  predicate SumsFit(base: int, prio: int, fast: int) {
    Fits(base + prio) && Fits(prio + fast) && Fits(base + prio + fast)
  }

  /** The three tiers on top of an already clamped priority fee. */
  function Tiers(base: int, prio: int, min: int, standard: nat, fast: nat, block: int): (gas: Gas)
    requires Fits(base) && Fits(prio) && min <= prio && 0 < standard < fast < GWEI
    ensures Fits(base + prio) ==> gas.slow == Tier(prio, base + prio, base + prio)
    ensures gas.blockNumber == block
    ensures SumsFit(base, prio, fast) <==> Stepped(gas, base, prio, standard, fast)
    ensures Stepped(gas, base, prio, standard, fast) ==> Ordered(gas)
  {
    Gas(Build(base, prio, min, fast), Build(base, prio, min, standard), Build(base, prio, min, 0), base, block)
  }

  /** The Ethereum oracle on a node's answers; `None` when the client reported an error. */
  method ComputeEth(evm: Option<Eip1559>, min: int) returns (gas: Option<Gas>)
    requires evm.Some? ==> Fits(evm.value.baseFee) && Fits(evm.value.priorityFee)
    requires Fits(min)
    ensures gas.None? <==> evm.None?
    ensures evm.Some? ==>
              var base, prio := evm.value.baseFee, Max(evm.value.priorityFee, min);
              && gas.value.blockNumber == evm.value.block
              && (SumsFit(base, prio, 10) <==> Stepped(gas.value, base, prio, 5, 10))
              && (SumsFit(base, prio, 10) ==> Ordered(gas.value))
  {
    if evm.None? {
      return None;
    }
    var prio := evm.value.priorityFee;
    if prio < min {
      prio := min;
    }
    var base := evm.value.baseFee;
    gas := Some(Tiers(base, prio, min, ETH_STANDARD, ETH_FAST, evm.value.block));
  }

  /** The BSC oracle: without a usable base fee it falls back on the gas price `gasPrice` (0 on error), the
      block number `block` and the separately queried priority fee. */
  method ComputeBsc(evm: Option<Eip1559>, gasPrice: int, block: int, priority: Option<int>, min: int)
    returns (gas: Gas)
    requires evm.Some? ==> Fits(evm.value.baseFee) && Fits(evm.value.priorityFee)
    requires Fits(gasPrice) && Fits(min) && min > 0
    requires priority.Some? ==> Fits(priority.value)
    ensures evm.Some? && evm.value.baseFee > 0 ==>
              var base, prio := evm.value.baseFee, Max(evm.value.priorityFee, min);
              && gas.blockNumber == evm.value.block
              && (SumsFit(base, prio, 5) <==> Stepped(gas, base, prio, 2, 5))
              && (SumsFit(base, prio, 5) ==> Ordered(gas))
    ensures (evm.None? || evm.value.baseFee <= 0) && gasPrice >= 0 ==>
              var prio := if priority.None? then min else Max(priority.value, min);
              && gas.blockNumber == block
              && gas.slow.maxFee == Max(gasPrice, prio)
              && (Fits(Max(gasPrice, prio) + 5) <==>
                    Stepped(gas, Max(gasPrice - prio, 0), prio, 2, 5))
              && (Fits(Max(gasPrice, prio) + 5) ==> Ordered(gas))
  {
    var baseGwei, prioGwei, blk;
    if evm.Some? && evm.value.baseFee > 0 {
      baseGwei := evm.value.baseFee;
      prioGwei := evm.value.priorityFee;
      blk := evm.value.block;
    } else {
      blk := block;
      var pr := if priority.Some? then priority.value else 0;
      if priority.None? || pr <= 0 {
        pr := min;
      }
      if pr < min {
        pr := min;
      }
      var base := Wrap(gasPrice - pr);
      if base < 0 {
        base := 0;
      }
      baseGwei, prioGwei := base, pr;
    }
    if prioGwei < min {
      prioGwei := min;
    }
    gas := Tiers(baseGwei, prioGwei, min, BSC_STANDARD, BSC_FAST, blk);
  }

  /** The error of whole-gwei arithmetic: without clamping, the slow tier's fee in wei is less than
      2 gwei below the exact sum of base and priority fee, and never above it. */
  lemma {:induction false} SlowFeeError(baseWei: nat, prioWei: nat, min: int)
    requires Fits(baseWei / 1_000_000_000 + prioWei / 1_000_000_000) && Fits(min) && min <= prioWei / 1_000_000_000
    ensures HexWeiToGwei("0x" + Print(baseWei, 16)) == Some(baseWei / 1_000_000_000)
    ensures HexWeiToGwei("0x" + Print(prioWei, 16)) == Some(prioWei / 1_000_000_000)
    ensures var slow := Build(baseWei / 1_000_000_000, prioWei / 1_000_000_000, min, 0);
            baseWei + prioWei - 2 * 1_000_000_000 < slow.maxFee * 1_000_000_000 <= baseWei + prioWei
  {
    WeiToGweiIff(baseWei);
    WeiToGweiIff(prioWei);
  }
}
