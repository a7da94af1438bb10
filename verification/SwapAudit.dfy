/** Classification of observed swaps against the fee-adjusted product invariant, with the quotes
    recomputed from the reserves before the swap. */
module SwapAudit {
  import opened Int64
  import Settle

  datatype Class =
    | BothDirections | NoPair | NoReserve | KViolation | ExactInput | ExactOutput | OverpaidInput | Leftover

  /** The quote of the C settlement, on unbounded integers. */
  function GetAmountOut(aIn: nat, rIn: nat, rOut: nat): nat
    requires rIn > 0
  {
    var fee := aIn * 997;
    MulMonotone(0, fee, rOut);
    Quotient(fee * rOut, rIn * 1000 + fee)
  }

  datatype Quote = Quote(amount: nat) | NoQuote

  function GetAmountIn(aOut: nat, rIn: nat, rOut: nat): Quote
  {
    if aOut >= rOut then NoQuote
    else
      MulMonotone(0, rIn, aOut);
      Quote(Quotient(rIn * aOut * 1000, (rOut - aOut) * 997) + 1)
  }

  /** A swap as logged, with the reserves before and after. */
  datatype Swap = Swap(in0: int, in1: int, out0: int, out1: int, pre0: int, pre1: int, post0: int, post1: int)

  /** Amounts are unsigned words of the log, and the reserves before the swap are computed from
      those after it. */
  predicate Reconstructed(s: Swap)
  {
    && s.in0 >= 0 && s.in1 >= 0 && s.out0 >= 0 && s.out1 >= 0
    && s.pre0 == s.post0 - s.in0 + s.out0 && s.pre1 == s.post1 - s.in1 + s.out1
  }

  function KHolds(s: Swap): bool
  {
    (s.post0 * 1000 - s.in0 * 3) * (s.post1 * 1000 - s.in1 * 3) >= s.pre0 * s.pre1 * 1_000_000
  }

  function Classify(s: Swap): Class
  {
    if (s.in0 > 0 && s.in1 > 0) || (s.out0 > 0 && s.out1 > 0) then BothDirections
    else if s.in0 > 0 && s.out1 > 0 then Priced(s, s.in0, s.out1, s.pre0, s.pre1)
    else if s.in1 > 0 && s.out0 > 0 then Priced(s, s.in1, s.out0, s.pre1, s.pre0)
    else NoPair
  }

  function Priced(s: Swap, aIn: nat, aOut: nat, rIn: int, rOut: int): Class
  {
    if rIn <= 0 || rOut <= 0 then NoReserve
    else
      var expOut := GetAmountOut(aIn, rIn, rOut);
      var expIn := GetAmountIn(aOut, rIn, rOut);
      if !KHolds(s) then KViolation
      else if aOut == expOut then ExactInput
      else if expIn == Quote(aIn) then ExactOutput
      else if aOut < expOut then OverpaidInput
      else Leftover
  }

  /** Both implementations of the quote agree. */
  lemma QuotesAgree(aIn: nat, rIn: nat, rOut: nat)
    requires rIn > 0
    ensures GetAmountOut(aIn, rIn, rOut) == Settle.AmountOut(aIn, rIn, rOut)
  {
    assert aIn * 997 == 997 * aIn;
  }

  lemma Regroup(x: int, y: int, z: int)
    ensures x * (1000 * y) == 1000 * (x * y)
    ensures 1000 * z * y == 1000 * (z * y)
    ensures z * y * 1_000_000 == 1000 * (1000 * (z * y))
  {
  }

  /** The invariant holds exactly for outputs up to the quote, in either direction. */
  lemma KIsQuote(s: Swap)
    requires Reconstructed(s)
    ensures s.in0 > 0 && s.out1 > 0 && s.in1 == 0 && s.out0 == 0 && s.pre0 > 0 && s.pre1 > 0 ==>
      (KHolds(s) <==> s.out1 <= GetAmountOut(s.in0, s.pre0, s.pre1))
    ensures s.in1 > 0 && s.out0 > 0 && s.in0 == 0 && s.out1 == 0 && s.pre0 > 0 && s.pre1 > 0 ==>
      (KHolds(s) <==> s.out0 <= GetAmountOut(s.in1, s.pre1, s.pre0))
  {
    if s.in0 > 0 && s.out1 > 0 && s.in1 == 0 && s.out0 == 0 && s.pre0 > 0 && s.pre1 > 0 {
      OneWay(s.in0, s.out1, s.pre0, s.pre1);
    }
    if s.in1 > 0 && s.out0 > 0 && s.in0 == 0 && s.out1 == 0 && s.pre0 > 0 && s.pre1 > 0 {
      OneWay(s.in1, s.out0, s.pre1, s.pre0);
      Swapped(1000 * s.pre1 + 997 * s.in1, 1000 * (s.pre0 - s.out0), s.pre0, s.pre1);
    }
  }

  lemma Swapped(a: int, b: int, c: int, d: int)
    ensures a * b == b * a && c * d * 1_000_000 == d * c * 1_000_000
  {
  }

  lemma OneWay(aIn: nat, aOut: nat, rIn: nat, rOut: nat)
    requires rIn > 0
    ensures (1000 * rIn + 997 * aIn) * (1000 * (rOut - aOut)) >= rIn * rOut * 1_000_000 <==>
            aOut <= GetAmountOut(aIn, rIn, rOut)
  {
    QuotesAgree(aIn, rIn, rOut);
    Settle.KeepsProduct(aIn, rIn, rOut, aOut);
    Regroup(Settle.Denominator(aIn, rIn), rOut - aOut, rIn);
    Regroup(0, rOut, rIn);
  }

  /** For one-directional swaps with positive reserves the class says everything: a violation is
      an output above the quote, and no swap is left over at the end. */
  lemma NothingLeftOver(s: Swap)
    requires Reconstructed(s)
    ensures Classify(s) != Leftover
    ensures Classify(s) == KViolation <==> Excess(s) > 0
    ensures Classify(s) in {ExactInput, ExactOutput, OverpaidInput} ==> Excess(s) <= 0
    ensures Classify(s) == ExactInput <==> OneDirection(s) && Excess(s) == 0
  {
    hide KHolds, GetAmountOut, GetAmountIn;
    KIsQuote(s);
  }

  /** One token in, the other out, and both reserves positive before. */
  predicate OneDirection(s: Swap)
  {
    && s.pre0 > 0 && s.pre1 > 0
    && ((s.in0 > 0 && s.out1 > 0 && s.in1 == 0 && s.out0 == 0)
        || (s.in1 > 0 && s.out0 > 0 && s.in0 == 0 && s.out1 == 0))
  }

  /** How much more came out than the quote. */
  function Excess(s: Swap): int
  {
    if !OneDirection(s) then 0
    else if s.in0 > 0 then s.out1 - GetAmountOut(s.in0, s.pre0, s.pre1)
    else s.out0 - GetAmountOut(s.in1, s.pre1, s.pre0)
  }

  // ---------------------------------------------------------------- quoting the input

  /** An input suffices for an output exactly when it pays its share of the reserve. */
  lemma Suffices(aIn: nat, aOut: nat, rIn: nat, rOut: nat)
    requires rIn > 0 && aOut < rOut
    ensures aOut <= GetAmountOut(aIn, rIn, rOut) <==> (rOut - aOut) * 997 * aIn >= rIn * aOut * 1000
  {
    QuotesAgree(aIn, rIn, rOut);
    Settle.KeepsProduct(aIn, rIn, rOut, aOut);
    Share(aIn, aOut, rIn, rOut);
  }

  lemma Share(aIn: int, aOut: int, rIn: int, rOut: int)
    ensures (1000 * rIn + 997 * aIn) * (rOut - aOut) - 1000 * rIn * rOut ==
              (rOut - aOut) * 997 * aIn - rIn * aOut * 1000
  {
  }

  /** The quoted input always suffices, so paying it never violates the invariant.  It is the
      least input that does, except when the division is exact: then one unit less would do. */
  lemma QuotedInputSuffices(aOut: nat, rIn: nat, rOut: nat, aIn: nat)
    requires rIn > 0 && aOut < rOut
    ensures var q := GetAmountIn(aOut, rIn, rOut).amount;
            var exact := (rIn * aOut * 1000) % ((rOut - aOut) * 997) == 0;
            aOut <= GetAmountOut(aIn, rIn, rOut) <==> aIn >= if exact then q - 1 else q
  {
    Suffices(aIn, aOut, rIn, rOut);
    MulMonotone(0, rIn, aOut);
    LeastMultiple(rIn * aOut * 1000, (rOut - aOut) * 997, aIn);
  }

  lemma LeastMultiple(n: nat, d: nat, a: nat)
    requires d > 0
    ensures d * a >= n <==> a >= if n % d == 0 then Quotient(n, d) else Quotient(n, d) + 1
  {
    var q := n / d;
    if a <= q { MulMonotone(a, q, d); }
    if a >= q { MulMonotone(q, a, d); }
    if a >= q + 1 { MulMonotone(q + 1, a, d); }
  }

  lemma ExactOutputNeverViolates(s: Swap)
    requires Reconstructed(s) && OneDirection(s)
    requires if s.in0 > 0 then GetAmountIn(s.out1, s.pre0, s.pre1) == Quote(s.in0)
             else GetAmountIn(s.out0, s.pre1, s.pre0) == Quote(s.in1)
    ensures Classify(s) == ExactInput || Classify(s) == ExactOutput
  {
    hide KHolds, GetAmountOut;
    KIsQuote(s);
    if s.in0 > 0 {
      QuotedInputSuffices(s.out1, s.pre0, s.pre1, s.in0);
    } else {
      QuotedInputSuffices(s.out0, s.pre1, s.pre0, s.in1);
    }
  }

  // ---------------------------------------------------------------- every class by its amounts

  /** What came in, what went out, and the two reserves, in the direction of the swap. */
  datatype Trade = Trade(paid: nat, given: nat, rIn: nat, rOut: nat)

  function TradeOf(s: Swap): Trade
    requires OneDirection(s)
  {
    if s.in0 > 0 then Trade(s.in0, s.out1, s.pre0, s.pre1) else Trade(s.in1, s.out0, s.pre1, s.pre0)
  }

  /** Below the quoted output the swap has paid the quoted input at least. */
  lemma BelowQuotePaid(aIn: nat, aOut: nat, rIn: nat, rOut: nat)
    requires rIn > 0 && rOut > 0 && aOut < GetAmountOut(aIn, rIn, rOut)
    ensures aOut < rOut && GetAmountIn(aOut, rIn, rOut).Quote? && aIn >= GetAmountIn(aOut, rIn, rOut).amount
  {
    hide GetAmountOut;
    QuotesAgree(aIn, rIn, rOut);
    Settle.QuotientFits(aIn, rIn, rOut);
    Suffices(aIn, aOut + 1, rIn, rOut);
    Share(aIn, aOut + 1, rIn, rOut);
    MoreNeeded(aIn, aOut, rIn, rOut);
    MulMonotone(0, rIn, aOut);
    AboveQuotient(rIn * aOut * 1000, (rOut - aOut) * 997, aIn);
  }

  lemma MoreNeeded(aIn: nat, aOut: nat, rIn: nat, rOut: nat)
    requires rIn > 0 && aOut + 1 < rOut && (rOut - (aOut + 1)) * 997 * aIn >= rIn * (aOut + 1) * 1000
    ensures (rOut - aOut) * 997 * aIn > rIn * aOut * 1000
  {
    assert (rOut - aOut) * 997 * aIn == (rOut - (aOut + 1)) * 997 * aIn + 997 * aIn;
    assert rIn * (aOut + 1) * 1000 == rIn * aOut * 1000 + rIn * 1000;
  }

  lemma AboveQuotient(n: nat, d: nat, a: nat)
    requires d > 0 && d * a > n
    ensures a >= Quotient(n, d) + 1
  {
    var q := n / d;
    if a <= q { MulMonotone(a, q, d); }
  }

  /** Both tokens on one side; nothing on one side, or one token on both; no reserve to price
      with; and otherwise the place of the output below, at or above its quote and of the input
      at or above its own. */
  lemma ClassExactly(s: Swap)
    requires Reconstructed(s)
    ensures Classify(s) == BothDirections <==> (s.in0 > 0 && s.in1 > 0) || (s.out0 > 0 && s.out1 > 0)
    ensures Classify(s) == NoPair <==>
      || (s.in0 == 0 && s.in1 == 0 && (s.out0 == 0 || s.out1 == 0))
      || (s.out0 == 0 && s.out1 == 0 && (s.in0 == 0 || s.in1 == 0))
      || (s.in0 == 0 && s.out0 == 0) || (s.in1 == 0 && s.out1 == 0)
    ensures Classify(s) == NoReserve <==>
      && (s.pre0 <= 0 || s.pre1 <= 0)
      && ((s.in0 > 0 && s.out1 > 0 && s.in1 == 0 && s.out0 == 0)
          || (s.in1 > 0 && s.out0 > 0 && s.in0 == 0 && s.out1 == 0))
    ensures OneDirection(s) ==>
      var t := TradeOf(s);
      var quoted := GetAmountOut(t.paid, t.rIn, t.rOut);
      && (Classify(s) == KViolation <==> t.given > quoted)
      && (Classify(s) == ExactInput <==> t.given == quoted)
      && (Classify(s) == ExactOutput <==>
            t.given < quoted && GetAmountIn(t.given, t.rIn, t.rOut) == Quote(t.paid))
      && (Classify(s) == OverpaidInput <==>
            t.given < quoted && t.given < t.rOut && t.paid > GetAmountIn(t.given, t.rIn, t.rOut).amount)
  {
    hide KHolds, GetAmountOut, GetAmountIn;
    KIsQuote(s);
    if OneDirection(s) {
      var t := TradeOf(s);
      if t.given < t.rOut { IsQuote(t.given, t.rIn, t.rOut); }
      if t.given < GetAmountOut(t.paid, t.rIn, t.rOut) { BelowQuotePaid(t.paid, t.given, t.rIn, t.rOut); }
    }
  }

  lemma IsQuote(aOut: nat, rIn: nat, rOut: nat)
    requires aOut < rOut
    ensures GetAmountIn(aOut, rIn, rOut).Quote?
  {
  }
}
