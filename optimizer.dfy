/** Constants, data and unit conversions of src/optimizer/math.ts.
    Amounts (JavaScript numbers) are exact reals here; shares (BigNumber) are integers. */
module Optimizer {
  import opened BigNum

  /** Share of a deposit that may be spent on the cost of touching pairs. */
  const MAX_GAS_SHARE: real := 0.005
  /** Utilisation below which equalising is not worth doing. */
  const MIN_SIGNIFICANT_UTILIZATION: real := 0.0025
  /** Number.MAX_SAFE_INTEGER, 2^53 - 1. */
  const MAX_SAFE_INTEGER: int := 0x1F_FFFF_FFFF_FFFF

  /** The optimiser's own `Rebase` interface: a vault's `elastic : base` ratio. */
  datatype Rebase = Rebase(base: int, elastic: int)

  /** A lending pair as read from the chain. */
  datatype KashiPair = KashiPair(address: string, totalAsset: Rebase, totalBorrow: Rebase, interestPerSecond: int)

  /** A lending pair in plain amounts. */
  datatype KashiPairAmounts = KashiPairAmounts(address: string, lended: real, borrowed: real, interestPerSecond: real)

  function RealAbs(x: real): real
  {
    if x < 0.0 then -x else x
  }

  /** `Math.min(Math.max(num, min), max)`. */
  function Clamp(num: real, min: real, max: real): (r: real)
    ensures r <= max
    ensures min <= max ==> min <= r
    ensures min <= num <= max ==> r == num
    ensures min <= max <= num ==> r == max
    ensures num <= min <= max ==> r == min
    ensures max < min ==> r == max
    ensures r == num || r == min || r == max
  {
    var lifted := if num > min then num else min;
    if lifted < max then lifted else max
  }

  /** `Math.round`: the nearest integer, halves rounded up. */
  function Round(x: real): (r: int)
    ensures r as real - 0.5 <= x < r as real + 0.5
  {
    (x + 0.5).Floor
  }

  /** `getBigNumber` on its safe-integer branch: the value rounded as `Math.round` does. */
  function GetBigNumber(value: real): (r: int)
    requires RealAbs(value) < MAX_SAFE_INTEGER as real
    ensures r as real - 0.5 <= value < r as real + 0.5
    ensures Abs(r) <= MAX_SAFE_INTEGER
  {
    Round(value)
  }

  /** `sharesToAmount`: shares times elastic over base, truncated by BigNumber division. */
  function SharesToAmount(shares: int, total: Rebase): (r: real)
    requires total.base != 0
    ensures r == r.Floor as real
    ensures shares == 0 || total.elastic == 0 ==> r == 0.0
    ensures shares >= 0 && total.elastic >= 0 && total.base > 0 ==>
      0.0 <= r && r * total.base as real <= (shares * total.elastic) as real < (r + 1.0) * total.base as real
  {
    TruncDiv(shares * total.elastic, total.base) as real
  }

  /** `amountToShares`: the rounded amount times base over elastic, truncated by BigNumber division. */
  function AmountToShares(amount: real, total: Rebase): (r: int)
    requires total.elastic != 0 && RealAbs(amount) < MAX_SAFE_INTEGER as real
    ensures amount >= 0.0 && total.base >= 0 && total.elastic > 0 ==>
      var n := GetBigNumber(amount); 0 <= r && r * total.elastic <= n * total.base < (r + 1) * total.elastic
  {
    TruncDiv(GetBigNumber(amount) * total.base, total.elastic)
  }

  /** `kashiPairToAmounts`: the pair's figures as amounts. `lended` is the vault conversion of the
      pair's total asset shares alone; the borrowed amount is not added to it. */
  function KashiPairToAmounts(pair: KashiPair, total: Rebase): (r: KashiPairAmounts)
    requires total.base != 0
    ensures r.address == pair.address
    ensures r.lended == SharesToAmount(pair.totalAsset.elastic, total)
    ensures r.borrowed == pair.totalBorrow.elastic as real
    ensures r.interestPerSecond == pair.interestPerSecond as real
    ensures pair.totalAsset.elastic >= 0 && total.elastic >= 0 && total.base > 0 ==> r.lended >= 0.0
  {
    KashiPairAmounts(
      pair.address,
      SharesToAmount(pair.totalAsset.elastic, total),
      pair.totalBorrow.elastic as real,
      pair.interestPerSecond as real)
  }

  /** Borrowed over lended, with an empty pair counted as unused. */
  function Utilisation(lended: real, borrowed: real): real
  {
    if lended == 0.0 then 0.0 else borrowed / lended
  }

  /** A pair that lends something is at utilisation `u` exactly when it borrows `u` times what it lends. */
  lemma UtilisationScales(lended: real, borrowed: real, u: real)
    requires lended != 0.0
    ensures Utilisation(lended, borrowed) == u <==> borrowed == u * lended
  {
    if borrowed == u * lended {
      assert borrowed / lended == u * lended / lended == u;
    }
  }

  /** Lending more to a pair never raises its utilisation. */
  lemma UtilisationFalls(lended: real, added: real, borrowed: real)
    requires lended > 0.0 && added >= 0.0 && borrowed >= 0.0
    ensures Utilisation(lended + added, borrowed) <= Utilisation(lended, borrowed)
  {
    var total := lended + added;
    var before, after := borrowed / lended, borrowed / total;
    assert before >= 0.0;
    assert after == (before * lended) / total;
    assert before * lended <= before * total;
    assert (before * lended) / total <= (before * total) / total == before;
  }

  /** Utilisation of a pair once `added` more is lent to it. */
  function UtilAfter(p: KashiPairAmounts, added: real): real
  {
    Utilisation(p.lended + added, p.borrowed)
  }
}
