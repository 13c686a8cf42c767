# Deposit allocation of the Kashi liquidity optimiser

This project models the core of an optimiser that splits a deposit into a BentoBox vault over several
Kashi lending pairs. It covers `src/optimizer/math.ts` and the `Rebase` class of `src/Rebase.ts`.

- **Shares and amounts.** The vault counts shares. A `Rebase` ratio (`elastic : base`) converts between shares and
  asset amounts. Shares are ethers `BigNumber` integers, modelled as `int`, with division truncated toward zero
  (`BigNum.TruncDiv`). Amounts are JavaScript numbers, modelled as exact `real`s.
- **`addLiquidityStable`** works on amounts:
  - It ranks the pairs by utilisation (borrowed over lended).
  - It caps the number of loop steps by the deposit's gas budget (`MaxPairs`).
  - It then walks down the ranking. At each step it admits the next pair. It hands out just enough to bring every
    admitted pair down to the next pair's utilisation, split in proportion to what each pair borrows.
  - Whatever is left over is spread evenly over all pairs. The model spreads it over the first `MaxPairs` ranked
    pairs instead, so that the gas cap bounds the pairs that receive anything (see Findings).
- **`addLiquidity`** converts the deposit and the pairs to amounts and runs that split. It then converts the
  split back to shares. The rounding residual goes onto the pair that received the most, so the shares add up
  exactly to the deposit.

The modules follow the source:

- `BigNum`: BigNumber division.
- `Rebase`: the class of `src/Rebase.ts`.
- `Optimizer`: the constants, data types and unit conversions of `math.ts`.
- `Sorting`: `getSortOrder`.
- `JsMap`: a `Map` as its entries in insertion order, with `Map.set`.
- `Sums`: sums over sequences.
- `Greedy`: `addLiquidityStable`.
- `Distribution`: `distributionInternalToDistribution` and `addLiquidity`.

The source has loops that update variables (the `forEach` conversions, the greedy loop, the proportional split,
the spreading of the leftover). These are methods with loop invariants. Each is proved against a specification
function or predicate, and lemmas prove the properties of that specification.

Two choices follow the code where a reader might expect otherwise:

- `lended` is the vault conversion of the pair's lent shares alone. The pair's borrowed amount is not added to
  it (`math.ts:63`).
- `sharesToAmount` and `amountToShares` divide without guarding against a zero total. BigNumber division by zero
  throws, so the model requires a non-zero divisor. Only the `Rebase` class treats an empty ratio as the
  identity.

In three places the code is evidently wrong: the ranking sorts ascending, not descending; `lendAcc` is never
advanced by what was handed out; and the leftover reaches pairs past the gas cap. There the model proves the
intended allocation and models the code as written beside it (see Findings).

## Model

| member | source | states |
|---|---|---|
| BigNum.TruncDiv | src/optimizer/math.ts:38 | BigNumber `div`: the quotient's magnitude is the floor of the magnitudes' quotient, its sign is the product of the signs (truncation toward zero), and for a non-negative numerator and positive divisor it is the floor quotient |
| Rebase.Rebase.constructor | src/Rebase.ts:7-10 | the ratio stores the given elastic and base |
| Rebase.Rebase.ToBase | src/Rebase.ts:12-15 | an empty ratio (elastic 0) leaves the value unchanged; otherwise the result is `x * base / elastic` truncated toward zero, and for non-negative figures it is the largest r with `r * elastic <= x * base` |
| Rebase.Rebase.ToElastic | src/Rebase.ts:17-20 | an empty ratio (base 0) leaves the value unchanged; otherwise `x * elastic / base` truncated, and for non-negative figures the largest r with `r * base <= x * elastic` |
| Rebase.ZeroToZero | src/Rebase.ts:12-20 | with non-negative totals both conversions map 0 to 0 |
| Rebase.ToBaseMonotone | src/Rebase.ts:12-15 | with non-negative totals ToBase never decreases as its non-negative argument grows |
| Rebase.ToElasticMonotone | src/Rebase.ts:17-20 | with non-negative totals ToElastic never decreases as its non-negative argument grows |
| Rebase.RoundTripNeverGains | src/Rebase.ts:12-20 | converting to base and back to elastic never returns more than was put in |
| Optimizer.Clamp | src/optimizer/math.ts:34 | the result never exceeds max, is at least min when min <= max, is the number itself when it lies in range, is max when the number is above and min when it is below, is max whenever max < min (so `Math.min` wins), and is always one of the three |
| Optimizer.Round | src/optimizer/math.ts:50 | `Math.round`: the nearest integer, halves rounded up |
| Optimizer.GetBigNumber | src/optimizer/math.ts:46-50 | below 2^53-1 in magnitude the value is rounded to the nearest integer, which stays within 2^53-1 |
| Optimizer.SharesToAmount | src/optimizer/math.ts:37-40 | the amount is a whole number, zero shares or an empty elastic give zero, and for non-negative figures it is the floor of `shares * elastic / base` |
| Optimizer.AmountToShares | src/optimizer/math.ts:42-44 | for non-negative figures the shares are the floor of the rounded amount times base over elastic |
| Optimizer.KashiPairToAmounts | src/optimizer/math.ts:60-67 | keeps the address; lended is the vault conversion of the pair's lent shares; borrowed and interest are the pair's figures; non-negative lent shares give a non-negative lended amount |
| Optimizer.UtilisationScales | src/optimizer/math.ts:113 | a pair that lends something is at utilisation u exactly when it borrows u times what it lends |
| Optimizer.UtilisationFalls | src/optimizer/math.ts:138 | lending more to a pair never raises its utilisation |
| Sorting.InsertSorted | src/optimizer/math.ts:30 | inserting a later position into a stably sorted order keeps it stably sorted |
| Sorting.SortPrefixSorted | src/optimizer/math.ts:28-32 | the insertion order of the first m positions is stably sorted by key |
| Sorting.SortOrder | src/optimizer/math.ts:28-32 | `getSortOrder` with an `a - b` comparator: a permutation of the positions (same multiset as 0..n-1), with keys ascending and ties in input order |
| Sorting.EqualKeysKeepOrder | src/optimizer/math.ts:28-32 | when all keys are equal the stable sort keeps the input order |
| Sorting.SortOrderIsPermutation | src/optimizer/math.ts:28-32 | every position occurs in the sort order exactly once |
| Greedy.MaxPairs | src/optimizer/math.ts:112 | the number of loop steps is between 1 and the number of pairs, including a zero deposit cost |
| Greedy.MaxPairsAntitone | src/optimizer/math.ts:112 | a dearer deposit never allows more loop steps |
| Greedy.AscendingOrderExample | src/optimizer/math.ts:115 | the comparator `(a, b) => a - b` sorts the utilisations 0.5, 0.1 and the floor into ascending order [2, 1, 0] |
| Greedy.RankAsWritten | src/optimizer/math.ts:113-123 | the ranking as written: the positions of the utilisations with the floor appended, a permutation of them in stable ascending order of utilisation, and step i targeting the utilisation at unsorted position i + 1 (the floor for the last pair) |
| Greedy.RankAsWrittenVisitsFloorFirst | src/optimizer/math.ts:113-125 | with utilisations 0.5 and 0.1 the ranking as written visits position 2 first, which is the floor and past the end of the pair list |
| Greedy.Rank | src/optimizer/math.ts:113-115 | the corrected order is a permutation of the pair positions, with one target per pair |
| Greedy.RankDescending | src/optimizer/math.ts:113-115 | along the corrected order utilisations descend, and equal ones keep input order |
| Greedy.RankTargets | src/optimizer/math.ts:113-124 | the targets follow the stable descending order of the utilisations with the floor included. A pair at or above the floor targets a value between the floor and its own utilisation: either the floor or the utilisation of a pair ranked after it, and at least that of every later pair. A pair below the floor targets a value below it, so the loop stops there |
| Greedy.RankBusyThenIdle | src/optimizer/math.ts:113-124 | for utilisations 0.5 and 0 the busy pair is taken down to the floor, and the idle pair's target, below the floor, stops the loop |
| Greedy.RankVisitsBusiestFirst | src/optimizer/math.ts:113-125 | for utilisations 0.5 and 0.1 the corrected ranking visits pair 0 then pair 1, targeting 0.1 then the floor |
| Greedy.ProportionalShares | src/optimizer/math.ts:130-132 | one step adds to every admitted pair the same fraction `amount / borrowAcc` of what it borrows |
| Greedy.ProportionalSum | src/optimizer/math.ts:130-132 | when borrowAcc is the admitted pairs' total borrowing, a step hands out exactly the step's amount |
| Greedy.AddProportional | src/optimizer/math.ts:130-132 | the inner loop adds each admitted pair's proportional share, as the proportional split specifies |
| Greedy.GreedyAsWritten | src/optimizer/math.ts:117-135 | the loop as written admits at most maxPairs pairs |
| Greedy.AsWrittenLeavesPairsUnequal | src/optimizer/math.ts:126-134 | for three pairs lending 12, 15 and 20, each borrowing 6, and a deposit of 40, the loop as written hands out 17.5, 14.5 and 8, which leaves the first and last pair at different utilisations |
| Greedy.StepReachesTarget | src/optimizer/math.ts:128-129 | the increment before clamping is never negative, which is the check of line 129; the clamped increment lies in [0, remaining] and brings the group to, never past, the target, and onto it unless the deposit ran out |
| Greedy.AdmitPair | src/optimizer/math.ts:125-127 | admitting the next ranked pair keeps the group's lended amount a common multiple of what it borrows |
| Greedy.SplitKeepsRatio | src/optimizer/math.ts:130-132 | after a step's split every admitted pair lends the same new multiple of what it borrows, and no pair's amount is negative |
| Greedy.EqualRatioEqualUtil | src/optimizer/math.ts:138-141 | pairs lending the same multiple of what they borrow share one utilisation |
| Greedy.GreedyInputStaircase | src/optimizer/math.ts:113-125 | pairs in descending utilisation, with targets taken from that order with the floor inserted (a pair at or above the floor targets the next pair while that one is at or above the floor, and the floor otherwise; a pair below the floor targets something below it), satisfy what the loop relies on: the first pair sits at or above its target, and wherever two successive targets are at or above the floor, the later one is no higher and its pair sits exactly at the earlier one |
| Greedy.AdmitNext | src/optimizer/math.ts:121-134 | one loop pass hands out an amount in [0, remaining], grows the total handed out by it, and keeps the loop invariant that all admitted pairs stand at one utilisation, strictly below the previous target once a pass uses up the deposit |
| Greedy.LevelUtilisation | src/optimizer/math.ts:138-141 | the loop invariant implies what the checks of lines 138-141 assert: all admitted pairs end at one utilisation, at or above the last target and equal to it while deposit remains, and strictly below the target before the last once the deposit is used up |
| Greedy.Equalise | src/optimizer/math.ts:117-135 | the loop admits at most maxPairs pairs. It stops at maxPairs, at an exhausted deposit, or at a target below the floor, and takes no step after the one that used the deposit up (line 122's break): with two or more pairs admitted and nothing left, the last step moved them strictly below the previous target. What it hands out plus what remains is the deposit, and the admitted pairs end at one common utilisation |
| Greedy.EvenPart | src/optimizer/math.ts:144 | a non-negative leftover gives a non-negative part |
| Greedy.SpreadResidual | src/optimizer/math.ts:143-148 | each of the first n pairs, admitted or not, receives an equal part of the leftover on top of its amount (the code passes all pairs for n) |
| Greedy.SpreadResidualSum | src/optimizer/math.ts:143-148 | spreading hands out exactly the leftover |
| Greedy.SpreadNonNegative | src/optimizer/math.ts:143-148 | spreading a non-negative leftover over non-negative amounts leaves them non-negative |
| Greedy.RankedGreedyInput | src/optimizer/math.ts:113-115 | pairs in the corrected order descend in utilisation, and the corrected targets are those of that order with the floor inserted: the next pair's utilisation while it is at or above the floor, the floor after the last pair at or above it, and something below the floor for a pair below it |
| Greedy.RankedDistinct | src/optimizer/math.ts:125 | reordering pairs with distinct addresses keeps them distinct |
| Greedy.RankPairs | src/optimizer/math.ts:113-115 | the pairs in the corrected order with its targets; they form the loop's staircase, use only input addresses, and stay distinct when the input is |
| Greedy.Distribute | src/optimizer/math.ts:117-148 | the result is the loop's outcome (equalised, at most maxPairs pairs, no step after the deposit is used up, amount handed out plus remainder is the deposit) with an equal part of any remainder added to each of the first maxPairs pairs. So at most maxPairs pairs receive anything, every amount is non-negative, and the amounts add up to the whole deposit |
| Greedy.ExhaustingStepIsLast | src/optimizer/math.ts:121-135 | two pairs lending 2 and 4, each borrowing 1, with targets 0.25 and the floor, room for both, and a deposit of 2: every outcome of the loop gives the first pair 2 and stops with one entry, since the deposit runs out at that step |
| Greedy.FourEqualPairsLoop | src/optimizer/math.ts:117-135 | for four equal pairs lending 2 and borrowing 1, all four reachable, and a deposit of 2, every outcome of the loop hands each pair 0.5 and keeps nothing back |
| Greedy.FourEqualPairsAllocation | src/optimizer/math.ts:112-149 | the allocation of that deposit over those pairs maps each pair, in input order, to 0.5 |
| Greedy.SpreadOverAllPairsExceedsCap | src/optimizer/math.ts:143-148 | two equal pairs lending 2 and borrowing 1, and a deposit of 10 at cost 1, allow one pair. The loop hands out nothing and keeps 10 back. Spreading over both pairs, as written, gives each 5; spreading over maxPairs gives the one pair 10 |
| Greedy.ToMap | src/optimizer/math.ts:149 | the map's keys are distinct addresses of the visited pairs (the first |distr| ranked pairs), with no more entries than amounts; every value is one of the amounts, so within their bounds; for distinct addresses the entries are exactly the visited addresses with their amounts, in visiting order |
| Greedy.AllocateRanked | src/optimizer/math.ts:112-149 | for two or more pairs and a positive deposit: a non-empty map of at most maxPairs entries with distinct pair addresses and amounts between 0 and the deposit, built from the corrected ranking and the equalising loop's outcome (which stops at the step that uses the deposit up); for distinct addresses the entries are the ranked addresses with the loop's amounts plus an equal part of any leftover for each of the first maxPairs pairs, and they add up to the deposit |
| Greedy.AddLiquidityStable | src/optimizer/math.ts:100-151 | no pairs or no deposit gives an empty map; one pair receives the whole deposit. Otherwise the map is non-empty, has at most maxPairs entries, and maps pair addresses to amounts between 0 and the deposit. For two or more pairs it is built from the corrected ranking and the equalising loop's outcome, which stops at the step that uses the deposit up. For distinct addresses the entries are the ranked addresses with the loop's equalised amounts plus an equal part of any leftover for each of the first maxPairs pairs, and they add up to the deposit |
| JsMap.MapSet | src/optimizer/math.ts:78 | `Map.set`: an existing key keeps its position and takes the new value, a new key is appended, and keys stay distinct |
| Distribution.FirstMax | src/optimizer/math.ts:80-83 | the position returned holds the largest value, and every earlier value is strictly smaller |
| Distribution.TrackAllBelow | src/optimizer/math.ts:74-83 | while no amount exceeds -1 the tracked pair stays `(-1, '')` |
| Distribution.TrackFirstMax | src/optimizer/math.ts:74-83 | once some amount exceeds -1, the tracked pair is the first entry with the largest amount |
| Distribution.TrackedIsKey | src/optimizer/math.ts:74-83 | once some amount exceeds -1 the tracked key is one of the map's keys |
| Distribution.ConvertAll | src/optimizer/math.ts:73-84 | the loop converts every entry to shares in order, totals the shares, and tracks the first largest amount |
| Distribution.ApplyResidual | src/optimizer/math.ts:93-95 | a missing key makes the addition throw; otherwise only that entry changes, by diff |
| Distribution.ToDistribution | src/optimizer/math.ts:69-98 | an empty input gives an empty map; it throws exactly when the tracked key is missing and a residual is due; otherwise every entry holds its converted shares, and the tracked entry also holds the residual |
| Distribution.AdjustedSum | src/optimizer/math.ts:85-96 | with the residual on one existing key, the shares add up to the converted total plus the residual |
| Distribution.ToDistributionSum | src/optimizer/math.ts:85-96 | once some amount exceeds -1 the result keeps the input's keys, each once, and its shares add up exactly to the deposited shares |
| Distribution.SharesBracket | src/optimizer/math.ts:73-79 | summed over the entries, the shares scaled by elastic fall short of the rounded amounts scaled by base by less than one elastic per entry |
| Distribution.RoundedBracket | src/optimizer/math.ts:46-50 | summed over the entries, the rounded amounts are within half a unit per entry of the amounts |
| Distribution.DepositBracket | src/optimizer/math.ts:37-40 | `sharesToAmount` of non-negative shares is a whole non-negative amount that, scaled by base, lies within one base below the shares scaled by elastic: the truncated quotient |
| Distribution.ResidualBound | src/optimizer/math.ts:85-93 | when the amounts add up to the converted deposit, the rounding residual r over n pairs satisfies -n * base <= 2 * r * elastic <= (n + 2) * base + 2 * n * elastic |
| Distribution.NonNegativeShares | src/optimizer/math.ts:73-95 | when the amounts add up to the converted deposit and the first largest amount converts to at least n * base / (2 * elastic) shares for n entries, no share count in the result is negative |
| Distribution.SmallDepositGoesNegative | src/optimizer/math.ts:73-95 | 2 shares deposited into a 1:1 vault over four equal pairs (lent 2, borrowed 1) at no deposit cost: the split gives each pair 0.5, each rounds up to 1 share, and the residual of -2 leaves the first pair with -1 share |
| Distribution.AmountsOfPairs | src/optimizer/math.ts:161 | converting on-chain pairs keeps their addresses and gives non-negative amounts |
| Distribution.AddLiquidity | src/optimizer/math.ts:153-165 | no pairs or no deposit gives an empty split and an empty Distribution; a lone pair is given the whole amount and receives exactly the deposited shares. Otherwise the split has at most maxPairs entries, and for two or more pairs it is the equalised allocation over the corrected ranking of the converted pairs (`RankedAllocation`, whose loop stops at the step that uses the deposit up). The result is that split converted to shares with the residual on the first largest entry (`Conversion`): keys are distinct pair addresses, there are at most maxPairs of them, and the shares add up exactly to the deposit |

## Left out

- Floating point:
  - JavaScript numbers are exact reals here, so IEEE-754 rounding is not modelled.
  - `closeValues` (`math.ts:35`) and the debug assertions of `math.ts:86-92, 129, 136-142` only log. They are
    left out as statements. What is proved in their place:
    - line 129: `Greedy.StepReachesTarget` proves the increment before clamping is never negative.
    - lines 138-141: `Greedy.LevelUtilisation` and `Greedy.Equalise` prove that the admitted pairs end at one
      common utilisation.
    - line 137: the check compares the sum of `distr` with `assetAmount + distrAcc` after `assetAmount` has been
      reduced to what remains. It therefore holds only when nothing remains. The model proves instead that the
      loop's amounts plus the remainder make the deposit (`Greedy.Equalise`).
    - lines 86-92: the relative bound `1e-12` on a residual above 10 shares is not proved.
      `Distribution.ResidualBound` bounds the residual in terms of `elastic`, `base` and the number of pairs.
  - `parseFloat(x.toString())` is the exact integer as a real.
- Optimizer.GetBigNumber: the branch for magnitudes of at least 2^53-1 (`math.ts:52-57`, a mantissa/exponent
  rebuild) is not modelled. The function requires a magnitude below 2^53-1. This is why `AmountToShares`,
  `Distribution.ToDistribution` (`SafeAmounts`) and `Distribution.AddLiquidity` require the deposit's amount to
  stay below it.
- Optimizer.SharesToAmount: requires `base != 0`. The source divides without a guard, and BigNumber throws on
  division by zero.
- Optimizer.AmountToShares: requires `elastic != 0`, for the same reason.
- Distribution.AddLiquidity: requires non-negative on-chain pair totals and a vault with a positive base. A vault
  with `elastic == 0` converts every deposit to the amount 0, so nothing is handed out and nothing is converted
  back.
- Distribution.ToDistribution: a share count can come out negative, as in the source. Lines 86-95 put the whole
  residual on the first largest entry without checking that it stays non-negative. When rounding each amount up
  hands out more shares than were deposited, that entry can drop below zero (`Distribution.SmallDepositGoesNegative`:
  -1 share for the first of four pairs). The test at `test/optimizer/addLiquidity.test.ts:31` expects positive
  shares. The model proves non-negativity only under the condition of `Distribution.NonNegativeShares` and does
  not guess a corrected rule.
- Distribution.AddLiquidity: gives the same negative share counts for small deposits over many pairs.
- Greedy.AddLiquidityStable:
  - It requires non-negative pair figures.
  - The sum of the map's values equals the deposit only for pairs with distinct addresses. With a repeated
    address, a later `Map.set` overwrites an earlier amount.
- Greedy.AddLiquidityStable: uses the corrected ranking, the corrected `lendAcc` and the leftover spread over
  `maxPairs` pairs (see Findings).
- Greedy.RankAsWritten: models the ranking as written. `Greedy.RankAsWrittenVisitsFloorFirst` shows where it
  goes wrong.
- Greedy.GreedyAsWritten: models the loop as written. Its contract states only the bound on the number of steps,
  and `Greedy.AsWrittenLeavesPairsUnequal` shows its behaviour.
- Greedy.GreedyAsWritten: requires every pair to borrow something. This keeps the division by `borrowAcc` defined
  (JavaScript would produce `NaN`).
- Greedy.SpreadResidual:
  - `distr` starts as an empty array. In JavaScript, `distr[j] += x` on a missing element gives `NaN`. The model
    treats missing elements as zero.
  - The method spreads over any given number of pairs. The code passes `pairs.length`, which reaches pairs past
    the gas cap. The corrected allocation passes `maxPairs` (see Findings).
- The commented-out `removeLiquidity` and `rebalance` (`math.ts:167-183`) have no body and are not modelled.
- `interestPerSecond` is carried along but never used by the allocation.
- `BigNumberish` parsing in the `Rebase` constructor (strings, hex) is not modelled: the fields are integers.
- The rest of the repository is not part of this model: chain access, caching, the web API and statistics.

## Findings

| source | as written | input that shows it | evidently intended | confidence | as-written member | corrected member |
|---|---|---|---|---|---|---|
| src/optimizer/math.ts:113-125 | the floor utilisation is sorted with the pairs by `(a, b) => a - b`, which is ascending; `utilNext` reads `utilizations[i+1]` by unsorted index | two pairs at utilisations 0.5 and 0.1: the order is [2, 1, 0], so `pairs[order[0]]` is past the end of the list and the destructuring throws | stable descending order of the utilisations with the floor included; each step targets its successor in that order, the floor included; the loop stops at the first pair below the floor | not executed | Greedy.RankAsWrittenVisitsFloorFirst | Greedy.RankTargets |
| src/optimizer/math.ts:126-134 | `lendAcc` accumulates only the pairs' own lended amounts, never the amounts already handed out, so each step hands out the group's whole shortfall again | pairs lending 12, 15 and 20, each borrowing 6, targets 0.4, 0.3 and the floor, deposit 40: amounts 17.5, 14.5 and 8, so the pairs end lending 29.5, 29.5 and 28, at different utilisations | advance `lendAcc` by each step's amount, so the admitted pairs end at one common utilisation | not executed | Greedy.AsWrittenLeavesPairsUnequal | Greedy.Equalise |
| src/optimizer/math.ts:143-148 | the leftover is divided by `pairs.length` and added to every pair, so pairs past `maxPairs` receive a share too | two equal pairs lending 2 and borrowing 1, a deposit of 10 at cost 1: `maxPairs` is 1, the loop hands out nothing, and both pairs receive 5; the 'high gas costs' test expects one entry | spread `remaining / maxPairs` over the first `maxPairs` ranked pairs | not executed | Greedy.SpreadOverAllPairsExceedsCap | Greedy.Distribute |
