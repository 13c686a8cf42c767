/** `distributionInternalToDistribution` and `addLiquidity` of src/optimizer/math.ts: converting the
    amounts handed to each pair back into vault shares that add up exactly to the deposit. */
module Distribution {
  import opened BigNum
  import opened Sums
  import opened JsMap
  import opened Optimizer
  import Greedy

  datatype Option<T> = None | Some(value: T)

  /** Every amount is within JavaScript's safe integer range, where `getBigNumber` only rounds. */
  predicate SafeAmounts(distr: seq<(string, real)>)
  {
    forall j :: 0 <= j < |distr| ==> RealAbs(distr[j].1) < MAX_SAFE_INTEGER as real
  }

  /** Each amount converted to shares, in iteration order. */
  function SharesOf(distr: seq<(string, real)>, total: Rebase): (r: seq<int>)
    requires total.elastic != 0 && SafeAmounts(distr)
    ensures |r| == |distr| && forall j :: 0 <= j < |distr| ==> r[j] == AmountToShares(distr[j].1, total)
  {
    seq(|distr|, j requires 0 <= j < |distr| => AmountToShares(distr[j].1, total))
  }

  /** Each entry with its amount converted to shares. */
  function Converted(distr: seq<(string, real)>, total: Rebase): (r: seq<(string, int)>)
    requires total.elastic != 0 && SafeAmounts(distr)
    ensures |r| == |distr| && forall j :: 0 <= j < |distr| ==> r[j] == (distr[j].0, SharesOf(distr, total)[j])
  {
    seq(|distr|, j requires 0 <= j < |distr| => (distr[j].0, AmountToShares(distr[j].1, total)))
  }

  /** The `(maxDistributed, maxDistributedPair)` pair of lines 74-83 after visiting `distr`: it starts at
      `(-1, '')` and is replaced by an entry whose amount is strictly larger. */
  function Track(distr: seq<(string, real)>): (real, string)
  {
    if |distr| == 0 then (-1.0, "")
    else
      var t := Track(distr[..|distr| - 1]);
      var last := distr[|distr| - 1];
      if last.1 > t.0 then (last.1, last.0) else t
  }

  /** The first position holding the largest value. */
  function FirstMax(s: seq<real>): (i: nat)
    requires |s| > 0
    ensures i < |s| && (forall j :: 0 <= j < |s| ==> s[j] <= s[i])
    ensures forall j :: 0 <= j < i ==> s[j] < s[i]
  {
    if |s| == 1 then 0
    else
      var i := FirstMax(s[..|s| - 1]);
      if s[|s| - 1] > s[i] then |s| - 1 else i
  }

  /** While no amount exceeds -1, nothing replaces the initial `(-1, '')`. */
  lemma {:induction false} TrackAllBelow(distr: seq<(string, real)>)
    requires forall j :: 0 <= j < |distr| ==> distr[j].1 <= -1.0
    ensures Track(distr) == (-1.0, "")
  {
    if |distr| > 0 {
      TrackAllBelow(distr[..|distr| - 1]);
    }
  }

  /** Once some amount exceeds -1, the tracked entry is the first one with the largest amount (the
      comparison is strict, so a later equal amount does not take over). */
  lemma {:induction false} TrackFirstMax(distr: seq<(string, real)>, w: nat)
    requires w < |distr| && distr[w].1 > -1.0
    ensures var m := FirstMax(Values(distr)); Track(distr) == (distr[m].1, distr[m].0)
  {
    var n := |distr|;
    var init := distr[..n - 1];
    assert Values(distr)[..n - 1] == Values(init);
    if n > 1 {
      if w < n - 1 {
        TrackFirstMax(init, w);
      } else if exists v :: 0 <= v < n - 1 && init[v].1 > -1.0 {
        var v :| 0 <= v < n - 1 && init[v].1 > -1.0;
        TrackFirstMax(init, v);
      } else {
        TrackAllBelow(init);
        var i := FirstMax(Values(init));
        assert init[i].1 <= -1.0;
      }
    }
  }

  /** The tracked key is one of the keys once some amount exceeds -1. */
  lemma TrackedIsKey(distr: seq<(string, real)>, w: nat)
    requires w < |distr| && distr[w].1 > -1.0
    ensures Track(distr).1 in Keys(distr)
  {
    TrackFirstMax(distr, w);
    var m := FirstMax(Values(distr));
    assert distr[m].0 in Keys(distr);
  }

  /** The entries of `distr` in order, each with its `shares`, the entry under `key` with `diff` more. */
  predicate Adjusted(res: seq<(string, int)>, distr: seq<(string, real)>, shares: seq<int>, key: string, diff: int)
    requires |shares| == |distr|
  {
    && |res| == |distr|
    && (forall j :: 0 <= j < |res| ==> res[j].0 == distr[j].0)
    && (forall j :: 0 <= j < |res| ==> res[j].1 == shares[j] + (if distr[j].0 == key then diff else 0))
  }

  /** In a Map's entries, the key at `i` differs from every earlier key. */
  lemma FreshKey<V>(m: seq<(string, V)>, i: nat)
    requires DistinctKeys(m) && i < |m|
    ensures KeyIndex(m[..i], m[i].0) == -1
  {
    forall j | 0 <= j < i ensures m[..i][j].0 != m[i].0 {
      assert m[j].0 != m[i].0;
    }
  }

  /** One more step of the tracking: the entry replaces the tracked one exactly when its amount is larger. */
  lemma TrackStep(distr: seq<(string, real)>, i: nat)
    requires i < |distr|
    ensures var t := Track(distr[..i]);
      Track(distr[..i + 1]) == if distr[i].1 > t.0 then (distr[i].1, distr[i].0) else t
  {
    assert distr[..i + 1][..i] == distr[..i];
  }

  /** The `forEach` of lines 73-84: each entry set to its shares in iteration order (the keys are distinct,
      so every `set` appends), while the share total and the tracked entry are kept up to date. */
  method ConvertAll(distr: seq<(string, real)>, total: Rebase)
    returns (m: seq<(string, int)>, assetDistributed: int, maxDistributed: real, maxDistributedPair: string)
    requires DistinctKeys(distr) && SafeAmounts(distr) && total.elastic != 0
    ensures m == Converted(distr, total)
    ensures assetDistributed == IntSum(SharesOf(distr, total))
    ensures (maxDistributed, maxDistributedPair) == Track(distr)
  {
    ghost var shares, converted := SharesOf(distr, total), Converted(distr, total);
    m, assetDistributed, maxDistributed, maxDistributedPair := [], 0, -1.0, "";
    for i := 0 to |distr|
      invariant m == converted[..i]
      invariant assetDistributed == IntSum(shares[..i])
      invariant (maxDistributed, maxDistributedPair) == Track(distr[..i])
    {
      var (k, v) := distr[i];
      var s := AmountToShares(v, total);
      FreshKey(converted, i);
      m := MapSet(m, k, s);
      assert converted[..i + 1] == converted[..i] + [(k, s)];
      IntSumPrefix(shares, i);
      assetDistributed := assetDistributed + s;
      TrackStep(distr, i);
      if v > maxDistributed {
        maxDistributed := v;
        maxDistributedPair := k;
      }
    }
    assert shares[..|distr|] == shares && distr[..|distr|] == distr && converted[..|distr|] == converted;
  }

  /** A key the converted entries lack is no key of the amounts either. */
  lemma MissingKey(distr: seq<(string, real)>, m: seq<(string, int)>, k: string)
    requires |m| == |distr| && forall j :: 0 <= j < |m| ==> m[j].0 == distr[j].0
    requires KeyIndex(m, k) == -1
    ensures k !in Keys(distr)
  {
    assert forall j :: 0 <= j < |distr| ==> distr[j].0 != k;
  }

  /** Every entry as converted: the shares already add up, nothing is adjusted. */
  lemma ExactNeedsNoAdjustment(m: seq<(string, int)>, distr: seq<(string, real)>, shares: seq<int>, key: string)
    requires |m| == |distr| == |shares| && forall j :: 0 <= j < |m| ==> m[j] == (distr[j].0, shares[j])
    ensures Adjusted(m, distr, shares, key, 0)
  {
  }

  /** Setting the tracked entry (at `idx`) to its shares plus the residual gives the adjusted shares. */
  lemma ResidualOnTracked(m: seq<(string, int)>, distr: seq<(string, real)>, shares: seq<int>, key: string, diff: int,
                          idx: nat, m': seq<(string, int)>)
    requires DistinctKeys(distr)
    requires |m| == |distr| == |shares| && forall j :: 0 <= j < |m| ==> m[j] == (distr[j].0, shares[j])
    requires idx < |m| && m[idx].0 == key && m' == m[idx := (key, m[idx].1 + diff)]
    ensures Adjusted(m', distr, shares, key, diff)
  {
    forall j | 0 <= j < |m| && j != idx ensures distr[j].0 != key {
      if j < idx {
        assert distr[j].0 != distr[idx].0;
      } else {
        assert distr[idx].0 != distr[j].0;
      }
    }
  }

  /** Lines 93-95: `res.get(k)` plus `diff`, set back under `k`. A missing key makes `get` return
      `undefined`, on which the addition throws (`None`); otherwise only that entry changes. */
  method ApplyResidual(m: seq<(string, int)>, k: string, diff: int) returns (res: Option<seq<(string, int)>>)
    ensures res.None? <==> KeyIndex(m, k) == -1
    ensures res.Some? ==> var i := KeyIndex(m, k); res.value == m[i := (k, m[i].1 + diff)]
  {
    var i := KeyIndex(m, k);
    if i < 0 {
      return None;
    }
    var prev := m[i].1;
    res := Some(MapSet(m, k, prev + diff));
  }

  /** `distributionInternalToDistribution` (lines 69-98): each entry converted to shares in iteration order,
      while the running share total and the first largest amount are tracked; if the shares do not add up
      to `assetSharesTotal`, the residual goes onto the tracked entry. When no amount exceeds -1 the
      tracked key stays `''`, and if that is not a key the lookup yields `undefined` and the addition
      throws: that outcome is `None`. Otherwise the keys are the input keys in the same order, and only
      the tracked entry differs from its own conversion. */
  method ToDistribution(distr: seq<(string, real)>, total: Rebase, assetSharesTotal: int)
    returns (res: Option<seq<(string, int)>>)
    requires DistinctKeys(distr) && SafeAmounts(distr)
    requires |distr| == 0 || total.elastic != 0
    ensures |distr| == 0 ==> res == Some([])
    ensures |distr| > 0 ==>
      (res.None? <==> Track(distr).1 !in Keys(distr) && IntSum(SharesOf(distr, total)) != assetSharesTotal)
    ensures |distr| > 0 && res.Some? ==>
      var shares := SharesOf(distr, total); Adjusted(res.value, distr, shares, Track(distr).1, assetSharesTotal - IntSum(shares))
  {
    if |distr| == 0 {
      return Some([]);
    }
    ghost var shares := SharesOf(distr, total);
    var m, assetDistributed, maxDistributed, maxDistributedPair := ConvertAll(distr, total);
    if assetDistributed == assetSharesTotal {
      ExactNeedsNoAdjustment(m, distr, shares, maxDistributedPair);
      return Some(m);
    }
    var diff := assetSharesTotal - assetDistributed;
    res := ApplyResidual(m, maxDistributedPair, diff);
    var idx := KeyIndex(m, maxDistributedPair);
    if idx < 0 {
      MissingKey(distr, m, maxDistributedPair);
    } else {
      ResidualOnTracked(m, distr, shares, maxDistributedPair, diff, idx, res.value);
      assert distr[idx].0 in Keys(distr);
    }
  }

  /** When `key` is one of the (distinct) keys, the residual lands on exactly one entry, so the adjusted
      shares add up to the converted shares plus `diff`. */
  lemma AdjustedSum(res: seq<(string, int)>, distr: seq<(string, real)>, shares: seq<int>, key: string, diff: int, m: nat)
    requires |shares| == |distr| && DistinctKeys(distr) && Adjusted(res, distr, shares, key, diff)
    requires m < |distr| && distr[m].0 == key
    ensures IntSum(Values(res)) == IntSum(shares) + diff
  {
    var target := shares[m := shares[m] + diff];
    forall j | 0 <= j < |res| ensures res[j].1 == target[j] {
      if j != m {
        assert distr[j].0 != distr[m].0;
      }
    }
    assert Values(res) == target;
    IntSumUpdate(shares, m, shares[m] + diff);
  }

  /** Once some amount exceeds -1, the converted Distribution has the input's keys, each once, and its
      shares add up exactly to `assetSharesTotal`. */
  lemma ToDistributionSum(distr: seq<(string, real)>, total: Rebase, assetSharesTotal: int, res: seq<(string, int)>, w: nat)
    requires DistinctKeys(distr) && SafeAmounts(distr) && total.elastic != 0
    requires var shares := SharesOf(distr, total);
      Adjusted(res, distr, shares, Track(distr).1, assetSharesTotal - IntSum(shares))
    requires w < |distr| && distr[w].1 > -1.0
    ensures DistinctKeys(res) && Keys(res) == Keys(distr)
    ensures IntSum(Values(res)) == assetSharesTotal
  {
    var shares := SharesOf(distr, total);
    SameKeys(res, distr);
    TrackFirstMax(distr, w);
    AdjustedSum(res, distr, shares, Track(distr).1, assetSharesTotal - IntSum(shares), FirstMax(Values(distr)));
  }

  /** A single entry holds the whole sum. */
  lemma SingleEntry(res: seq<(string, int)>, key: string, total: int)
    requires |res| == 1 && res[0].0 == key && IntSum(Values(res)) == total
    ensures res == [(key, total)]
  {
    assert IntSum(Values(res)) == IntSum(Values(res)[..0]) + res[0].1;
  }

  /** Each amount rounded as `getBigNumber` does, in iteration order. */
  function RoundedOf(distr: seq<(string, real)>): (r: seq<int>)
    requires SafeAmounts(distr)
    ensures |r| == |distr| && forall j :: 0 <= j < |distr| ==> r[j] == GetBigNumber(distr[j].1)
  {
    seq(|distr|, j requires 0 <= j < |distr| => GetBigNumber(distr[j].1))
  }

  /** Summed over the entries: the shares, scaled by `elastic`, fall short of the rounded amounts, scaled
      by `base`, by less than one `elastic` per entry. */
  lemma {:induction false} SharesBracket(distr: seq<(string, real)>, total: Rebase)
    requires total.elastic > 0 && total.base > 0 && SafeAmounts(distr)
    requires forall j :: 0 <= j < |distr| ==> distr[j].1 >= 0.0
    ensures var shares, rounded, n := IntSum(SharesOf(distr, total)), IntSum(RoundedOf(distr)), |distr|;
      shares * total.elastic <= rounded * total.base <= shares * total.elastic + n * total.elastic
  {
    if |distr| > 0 {
      var k := |distr| - 1;
      SharesBracket(distr[..k], total);
      SharesBracketLast(distr, total);
    }
  }

  /** The step of `SharesBracket`: the bracket for all but the last entry extends to the whole map. */
  lemma SharesBracketLast(distr: seq<(string, real)>, total: Rebase)
    requires total.elastic > 0 && total.base > 0 && SafeAmounts(distr) && |distr| > 0
    requires distr[|distr| - 1].1 >= 0.0
    requires var init := distr[..|distr| - 1];
      var shares, rounded, n := IntSum(SharesOf(init, total)), IntSum(RoundedOf(init)), |init|;
      shares * total.elastic <= rounded * total.base <= shares * total.elastic + n * total.elastic
    ensures var shares, rounded, n := IntSum(SharesOf(distr, total)), IntSum(RoundedOf(distr)), |distr|;
      shares * total.elastic <= rounded * total.base <= shares * total.elastic + n * total.elastic
  {
    var k := |distr| - 1;
    LastEntry(distr, total);
    BracketStep(IntSum(SharesOf(distr[..k], total)), IntSum(RoundedOf(distr[..k])), k,
                AmountToShares(distr[k].1, total), GetBigNumber(distr[k].1), total.elastic, total.base);
  }

  /** The shares and the rounded amounts of a non-empty map are those of all but its last entry, plus the
      last entry's. */
  lemma LastEntry(distr: seq<(string, real)>, total: Rebase)
    requires total.elastic > 0 && |distr| > 0 && SafeAmounts(distr)
    ensures var k := |distr| - 1;
      && IntSum(SharesOf(distr, total)) == IntSum(SharesOf(distr[..k], total)) + AmountToShares(distr[k].1, total)
      && IntSum(RoundedOf(distr)) == IntSum(RoundedOf(distr[..k])) + GetBigNumber(distr[k].1)
  {
    var k := |distr| - 1;
    assert SharesOf(distr, total)[..k] == SharesOf(distr[..k], total);
    assert RoundedOf(distr)[..k] == RoundedOf(distr[..k]);
  }

  /** The rounded amounts are within half a unit per entry of the amounts. */
  lemma {:induction false} RoundedBracket(distr: seq<(string, real)>)
    requires SafeAmounts(distr)
    ensures var rounded, n := IntSum(RoundedOf(distr)) as real, |distr| as real;
      2.0 * rounded - n <= 2.0 * Sum(Values(distr)) <= 2.0 * rounded + n
  {
    if |distr| > 0 {
      var k := |distr| - 1;
      var init := distr[..k];
      RoundedBracket(init);
      assert RoundedOf(distr)[..k] == RoundedOf(init);
      assert Values(distr)[..k] == Values(init);
    }
  }

  /** Adding one entry's truncation bracket to the brackets of the `k` entries before it. */
  lemma BracketStep(s0: int, n0: int, k: int, s1: int, n1: int, e: int, b: int)
    requires s0 * e <= n0 * b <= s0 * e + k * e
    requires s1 * e <= n1 * b < (s1 + 1) * e
    ensures (s0 + s1) * e <= (n0 + n1) * b <= (s0 + s1) * e + (k + 1) * e
  {
    assert (s0 + s1) * e == s0 * e + s1 * e;
    assert (n0 + n1) * b == n0 * b + n1 * b;
    assert (k + 1) * e == k * e + e && (s1 + 1) * e == s1 * e + e;
  }

  /** The arithmetic behind the lower end of `ResidualBound`, over the deposit's shares, the converted
      shares, the rounded amounts, the deposit as an amount, the number of entries, `elastic` and `base`. */
  lemma ResidualAbove(deposit: int, shares: int, rounded: int, amount: int, n: int, e: int, b: int)
    requires e > 0 && b > 0
    requires shares * e <= rounded * b
    requires 2 * rounded - n <= 2 * amount
    requires amount * b <= deposit * e
    ensures -(n * b) <= 2 * (deposit - shares) * e
  {
    ScaleMonotone(-n, 2 * amount - 2 * rounded, b);
    assert (2 * amount - 2 * rounded) * b == 2 * (amount * b) - 2 * (rounded * b);
    assert (-n) * b == -(n * b);
    assert 2 * (deposit - shares) * e == 2 * (deposit * e) - 2 * (shares * e);
  }

  /** The arithmetic behind the upper end of `ResidualBound`. */
  lemma ResidualBelow(deposit: int, shares: int, rounded: int, amount: int, n: int, e: int, b: int)
    requires e > 0 && b > 0
    requires rounded * b <= shares * e + n * e
    requires 2 * amount <= 2 * rounded + n
    requires deposit * e < amount * b + b
    ensures 2 * (deposit - shares) * e <= (n + 2) * b + 2 * n * e
  {
    ScaleMonotone(2 * amount - 2 * rounded, n, b);
    assert (2 * amount - 2 * rounded) * b == 2 * (amount * b) - 2 * (rounded * b);
    assert (n + 2) * b == n * b + 2 * b;
    assert 2 * (deposit - shares) * e == 2 * (deposit * e) - 2 * (shares * e);
  }

  lemma ScaleMonotone(x: int, y: int, b: int)
    requires x <= y && b > 0
    ensures x * b <= y * b
  {
    assert y * b - x * b == (y - x) * b;
  }

  /** `sharesToAmount` (lines 37-40) as whole units: the deposit's shares times `elastic` over `base`,
      truncated, so the amount scaled by `base` falls short of the shares scaled by `elastic` by less than
      one `base`. */
  lemma DepositBracket(shares: int, total: Rebase)
    requires total.elastic >= 0 && total.base > 0 && shares >= 0
    ensures var amount := SharesToAmount(shares, total).Floor;
      0 <= amount && amount * total.base <= shares * total.elastic < amount * total.base + total.base
  {
    var q := TruncDiv(shares * total.elastic, total.base);
    assert SharesToAmount(shares, total).Floor == q;
    DivBrackets(shares * total.elastic, total.base);
  }

  /** If `2 * s * e` is at least `n * b`, a residual `r` with `-(n * b) <= 2 * r * e` leaves `s + r` non-negative. */
  lemma AbsorbResidual(s: int, r: int, n: int, e: int, b: int)
    requires e > 0 && -(n * b) <= 2 * r * e && n * b <= 2 * s * e
    ensures s + r >= 0
  {
    assert 2 * (s + r) * e == 2 * s * e + 2 * r * e;
    CancelFactor(-1, 2 * (s + r), e);
  }

  /** The residual of line 93 (the deposit's shares less the shares of the converted amounts), when the
      amounts add up to the deposit converted to an amount: twice the residual, scaled by `elastic`, lies
      between `-n` and `n + 2` units of `base` plus `2 * n` units of `elastic`, for `n` pairs. So the
      residual is a few shares per pair when a share is worth about one unit of the asset. */
  lemma ResidualBound(distr: seq<(string, real)>, total: Rebase, assetSharesTotal: int)
    requires total.elastic > 0 && total.base > 0 && SafeAmounts(distr) && assetSharesTotal >= 0
    requires forall j :: 0 <= j < |distr| ==> distr[j].1 >= 0.0
    requires Sum(Values(distr)) == SharesToAmount(assetSharesTotal, total)
    ensures var r, n := assetSharesTotal - IntSum(SharesOf(distr, total)), |distr|;
      var e, b := total.elastic, total.base;
      -(n * b) <= 2 * r * e <= (n + 2) * b + 2 * n * e
  {
    SharesBracket(distr, total);
    RoundedBracket(distr);
    var amount := SharesToAmount(assetSharesTotal, total).Floor;
    DepositBracket(assetSharesTotal, total);
    var shares, rounded := IntSum(SharesOf(distr, total)), IntSum(RoundedOf(distr));
    ResidualAbove(assetSharesTotal, shares, rounded, amount, |distr|, total.elastic, total.base);
    ResidualBelow(assetSharesTotal, shares, rounded, amount, |distr|, total.elastic, total.base);
  }

  /** Lines 86-95 cannot make a share count negative once the first largest amount converts to at least
      `n * base / (2 * elastic)` shares, for `n` entries: by `ResidualBound` the residual is never below
      minus that many shares. Below it the code does not guard the addition (see `SmallDepositGoesNegative`). */
  lemma NonNegativeShares(distr: seq<(string, real)>, total: Rebase, assetSharesTotal: int, res: seq<(string, int)>)
    requires total.elastic > 0 && total.base > 0 && SafeAmounts(distr) && assetSharesTotal >= 0
    requires DistinctKeys(distr) && |distr| > 0
    requires forall j :: 0 <= j < |distr| ==> distr[j].1 >= 0.0
    requires Sum(Values(distr)) == SharesToAmount(assetSharesTotal, total)
    requires var shares := SharesOf(distr, total);
      Adjusted(res, distr, shares, Track(distr).1, assetSharesTotal - IntSum(shares))
    requires |distr| * total.base <= 2 * AmountToShares(distr[FirstMax(Values(distr))].1, total) * total.elastic
    ensures forall j :: 0 <= j < |res| ==> res[j].1 >= 0
  {
    var shares := SharesOf(distr, total);
    var m := FirstMax(Values(distr));
    TrackFirstMax(distr, m);
    ResidualAbsorbed(distr, total, assetSharesTotal);
    AdjustedNonNegative(res, distr, shares, m, assetSharesTotal - IntSum(shares));
  }

  /** Under the condition of `NonNegativeShares`, the first largest entry absorbs the residual. */
  lemma ResidualAbsorbed(distr: seq<(string, real)>, total: Rebase, assetSharesTotal: int)
    requires total.elastic > 0 && total.base > 0 && SafeAmounts(distr) && assetSharesTotal >= 0
    requires |distr| > 0 && forall j :: 0 <= j < |distr| ==> distr[j].1 >= 0.0
    requires Sum(Values(distr)) == SharesToAmount(assetSharesTotal, total)
    requires |distr| * total.base <= 2 * AmountToShares(distr[FirstMax(Values(distr))].1, total) * total.elastic
    ensures var shares := SharesOf(distr, total);
      && (forall j :: 0 <= j < |shares| ==> shares[j] >= 0)
      && shares[FirstMax(Values(distr))] + (assetSharesTotal - IntSum(shares)) >= 0
  {
    var shares := SharesOf(distr, total);
    var m := FirstMax(Values(distr));
    ResidualBound(distr, total, assetSharesTotal);
    AbsorbResidual(shares[m], assetSharesTotal - IntSum(shares), |distr|, total.elastic, total.base);
  }

  /** Non-negative shares stay non-negative when the residual lands on an entry it does not take below zero. */
  lemma AdjustedNonNegative(res: seq<(string, int)>, distr: seq<(string, real)>, shares: seq<int>, m: nat, diff: int)
    requires |shares| == |distr| && DistinctKeys(distr) && m < |distr|
    requires Adjusted(res, distr, shares, distr[m].0, diff)
    requires forall j :: 0 <= j < |shares| ==> shares[j] >= 0
    requires shares[m] + diff >= 0
    ensures forall j :: 0 <= j < |res| ==> res[j].1 >= 0
  {
    forall j | 0 <= j < |res| ensures res[j].1 >= 0 {
      if j != m {
        assert distr[j].0 != distr[m].0;
      }
    }
  }

  /** `pairs.map(p => kashiPairToAmounts(p, total))`. */
  function PairsToAmounts(pairs: seq<KashiPair>, total: Rebase): (r: seq<KashiPairAmounts>)
    requires total.base != 0
    ensures |r| == |pairs| && forall i :: 0 <= i < |pairs| ==> r[i] == KashiPairToAmounts(pairs[i], total)
  {
    seq(|pairs|, i requires 0 <= i < |pairs| => KashiPairToAmounts(pairs[i], total))
  }

  function PairAddresses(pairs: seq<KashiPair>): set<string>
  {
    set i | 0 <= i < |pairs| :: pairs[i].address
  }

  /** The pair totals are on-chain unsigned integers. */
  predicate OnChainFigures(pairs: seq<KashiPair>)
  {
    forall i :: 0 <= i < |pairs| ==> pairs[i].totalAsset.elastic >= 0 && pairs[i].totalBorrow.elastic >= 0
  }

  /** Converted pairs keep their addresses, and non-negative totals give non-negative amounts. */
  lemma AmountsOfPairs(pairs: seq<KashiPair>, total: Rebase)
    requires total.base > 0 && total.elastic >= 0 && OnChainFigures(pairs)
    ensures Greedy.NonNegativeFigures(PairsToAmounts(pairs, total))
    ensures Greedy.Addresses(PairsToAmounts(pairs, total)) == PairAddresses(pairs)
  {
    var amounts := PairsToAmounts(pairs, total);
    forall a | a in PairAddresses(pairs) ensures a in Greedy.Addresses(amounts) {
      var i :| 0 <= i < |pairs| && pairs[i].address == a;
      assert amounts[i].address == a;
    }
  }

  /** Entries with the keys of a Map, in the same order, have distinct keys and the same key set. */
  lemma SameKeys<U, V>(res: seq<(string, U)>, m: seq<(string, V)>)
    requires |res| == |m| && (forall j :: 0 <= j < |res| ==> res[j].0 == m[j].0) && DistinctKeys(m)
    ensures DistinctKeys(res) && Keys(res) == Keys(m)
  {
    forall a | a in Keys(m) ensures a in Keys(res) {
      var j :| 0 <= j < |m| && m[j].0 == a;
      assert res[j].0 == a;
    }
  }

  /** `res` is `distributionInternalToDistribution` of `internal` (lines 69-98): nothing for an empty map,
      otherwise each entry converted to shares with the residual on the tracked entry. */
  predicate Conversion(assetShares: int, total: Rebase, internal: seq<(string, real)>, res: seq<(string, int)>)
  {
    if |internal| == 0 then res == []
    else
      && total.elastic != 0 && SafeAmounts(internal)
      && var shares := SharesOf(internal, total);
         Adjusted(res, internal, shares, Track(internal).1, assetShares - IntSum(shares))
  }

  /** `addLiquidity` (lines 153-165): the deposit's shares and each pair's lent shares as amounts, the
      greedy split `internal` of `addLiquidityStable`, and that split back in shares. No pairs or nothing to
      deposit gives an empty Distribution; a lone pair receives exactly the deposited shares; otherwise
      `internal` is the equalised allocation over at most `maxPairs` ranked pairs (`RankedAllocation`),
      `res` is its conversion, the keys are distinct pair addresses and the shares add up exactly to the
      deposit. */
  method AddLiquidity(assetShares: int, pairs: seq<KashiPair>, total: Rebase, depositCost: real)
    returns (res: seq<(string, int)>, ghost internal: seq<(string, real)>, ghost ranked: seq<KashiPairAmounts>,
             ghost loop: seq<real>, ghost remaining: real)
    requires total.base > 0 && total.elastic >= 0 && OnChainFigures(pairs)
    requires SharesToAmount(assetShares, total) < MAX_SAFE_INTEGER as real
    ensures |pairs| == 0 || SharesToAmount(assetShares, total) <= 0.0 ==> res == [] && internal == []
    ensures |pairs| == 1 && SharesToAmount(assetShares, total) > 0.0 ==>
      && internal == [(pairs[0].address, SharesToAmount(assetShares, total))]
      && res == [(pairs[0].address, assetShares)]
    ensures DistinctKeys(res) && Keys(res) <= PairAddresses(pairs)
    ensures |pairs| > 0 && SharesToAmount(assetShares, total) > 0.0 ==>
      && 0 < |res| <= Greedy.MaxPairs(SharesToAmount(assetShares, total), depositCost, |pairs|)
      && IntSum(Values(res)) == assetShares
    ensures |pairs| >= 2 && SharesToAmount(assetShares, total) > 0.0 ==>
      Greedy.RankedAllocation(SharesToAmount(assetShares, total), PairsToAmounts(pairs, total), depositCost,
                              internal, ranked, loop, remaining)
    ensures Conversion(assetShares, total, internal, res)
  {
    var amount := SharesToAmount(assetShares, total);
    var amounts := PairsToAmounts(pairs, total);
    AmountsOfPairs(pairs, total);
    var distr;
    distr, ranked, loop, remaining := Greedy.AddLiquidityStable(amount, amounts, depositCost);
    internal := distr;
    assert SafeAmounts(distr);
    var out := ToDistribution(distr, total, assetShares);
    if |distr| > 0 {
      TrackedIsKey(distr, 0);
    }
    res := out.value;
    if |distr| > 0 {
      ToDistributionSum(distr, total, assetShares, res, 0);
      if |pairs| == 1 {
        SingleEntry(res, pairs[0].address, assetShares);
      }
    }
  }

  /** Four equal pairs: each has 2 asset shares lent and 1 borrowed. */
  function FourEqualPairs(): (r: seq<KashiPair>)
    ensures |r| == 4 && OnChainFigures(r)
  {
    [KashiPair("a", Rebase(2, 2), Rebase(1, 1), 0), KashiPair("b", Rebase(2, 2), Rebase(1, 1), 0),
     KashiPair("c", Rebase(2, 2), Rebase(1, 1), 0), KashiPair("d", Rebase(2, 2), Rebase(1, 1), 0)]
  }

  /** Lines 86-95 can hand a pair a negative share count. Deposit 2 shares into a 1:1 vault over four equal
      pairs at no deposit cost: the equalised split gives each pair 0.5, `getBigNumber` rounds each 0.5 up
      to 1 share, and the residual of 2 - 4 = -2 shares lands on the first pair, which ends at -1. The
      requires are what `AddLiquidity` ensures for these inputs. */
  lemma SmallDepositGoesNegative(internal: seq<(string, real)>, ranked: seq<KashiPairAmounts>, loop: seq<real>,
                                 remaining: real, res: seq<(string, int)>)
    requires Greedy.RankedAllocation(2.0, PairsToAmounts(FourEqualPairs(), Rebase(1, 1)), 0.0,
                                     internal, ranked, loop, remaining)
    requires Conversion(2, Rebase(1, 1), internal, res)
    ensures internal == [("a", 0.5), ("b", 0.5), ("c", 0.5), ("d", 0.5)]
    ensures res == [("a", -1), ("b", 1), ("c", 1), ("d", 1)]
  {
    FourEqualPairsSplit(internal, ranked, loop, remaining);
    FourHalvesConverted(internal, res);
  }

  /** The equalised split of a 2-unit deposit over four equal pairs gives each pair 0.5. */
  lemma FourEqualPairsSplit(internal: seq<(string, real)>, ranked: seq<KashiPairAmounts>, loop: seq<real>,
                            remaining: real)
    requires Greedy.RankedAllocation(2.0, PairsToAmounts(FourEqualPairs(), Rebase(1, 1)), 0.0,
                                     internal, ranked, loop, remaining)
    ensures internal == [("a", 0.5), ("b", 0.5), ("c", 0.5), ("d", 0.5)]
  {
    FourEqualPairsAmounts();
    Greedy.FourEqualPairsAllocation(internal, ranked, loop, remaining);
  }

  /** The four equal pairs in a 1:1 vault each lend 2 and borrow 1, and a deposit of 2 shares is 2. */
  lemma FourEqualPairsAmounts()
    ensures SharesToAmount(2, Rebase(1, 1)) == 2.0
    ensures PairsToAmounts(FourEqualPairs(), Rebase(1, 1)) == Greedy.FourEqualAmounts()
  {
    var total := Rebase(1, 1);
    assert SharesToAmount(2, total) == 2.0;
    var a, e := PairsToAmounts(FourEqualPairs(), total), Greedy.FourEqualAmounts();
    forall k | 0 <= k < 4 ensures a[k] == e[k] {
      assert a[k] == KashiPairToAmounts(FourEqualPairs()[k], total);
    }
  }

  /** Four entries of 0.5 in a 1:1 vault become one share each, and the residual of -2 goes onto the first. */
  lemma FourHalvesConverted(internal: seq<(string, real)>, res: seq<(string, int)>)
    requires internal == [("a", 0.5), ("b", 0.5), ("c", 0.5), ("d", 0.5)]
    requires Conversion(2, Rebase(1, 1), internal, res)
    ensures res == [("a", -1), ("b", 1), ("c", 1), ("d", 1)]
  {
    var total := Rebase(1, 1);
    assert AmountToShares(0.5, total) == 1;
    assert SharesOf(internal, total) == [1, 1, 1, 1];
    TrackFirstMax(internal, 0);
    assert FirstMax(Values(internal)) == 0;
    assert IntSum([1]) == 1 && [1, 1][..1] == [1] && [1, 1, 1][..2] == [1, 1] && [1, 1, 1, 1][..3] == [1, 1, 1];
    assert IntSum([1, 1, 1, 1]) == 4;
  }
}
