/** `addLiquidityStable` of src/optimizer/math.ts: splitting a deposit amount across lending pairs so that
    the pairs it touches end at one utilisation. */
module Greedy {
  import opened Sums
  import opened JsMap
  import opened Sorting
  import opened Optimizer

  function PairUtil(p: KashiPairAmounts): real
  {
    Utilisation(p.lended, p.borrowed)
  }

  function Borrowed(ps: seq<KashiPairAmounts>): (r: seq<real>)
    ensures |r| == |ps| && forall k :: 0 <= k < |ps| ==> r[k] == ps[k].borrowed
  {
    seq(|ps|, k requires 0 <= k < |ps| => ps[k].borrowed)
  }

  function Addresses(ps: seq<KashiPairAmounts>): set<string>
  {
    set k | 0 <= k < |ps| :: ps[k].address
  }

  predicate DistinctAddresses(ps: seq<KashiPairAmounts>)
  {
    forall i, j :: 0 <= i < j < |ps| ==> ps[i].address != ps[j].address
  }

  // ---------------------------------------------------------------------------------------------
  // How many pairs may be touched (line 112)

  /** `clamp(Math.round(amount * MAX_GAS_SHARE / depositCost), 1, n)`. A zero cost makes the quotient
      +Infinity in JavaScript, which the clamp turns into `n`. */
  function MaxPairs(amount: real, depositCost: real, n: nat): (m: nat)
    requires n >= 1 && amount > 0.0
    ensures 1 <= m <= n
  {
    var wanted := if depositCost == 0.0 then n as real else Round(amount * MAX_GAS_SHARE / depositCost) as real;
    Clamp(wanted, 1.0, n as real).Floor
  }

  lemma RoundMonotone(x: real, y: real)
    requires x <= y
    ensures Round(x) <= Round(y)
  {
    assert (x + 0.5).Floor <= (y + 0.5).Floor;
  }

  /** A dearer deposit never lets the deposit touch more pairs. */
  lemma MaxPairsAntitone(amount: real, cheap: real, dear: real, n: nat)
    requires n >= 1 && amount > 0.0
    requires 0.0 <= cheap <= dear && dear > 0.0
    ensures MaxPairs(amount, dear, n) <= MaxPairs(amount, cheap, n)
  {
    if cheap > 0.0 {
      var budget := amount * MAX_GAS_SHARE;
      assert budget / dear <= budget / cheap by {
        assert (budget / dear) * dear == budget == (budget / cheap) * cheap;
        assert (budget / cheap) * cheap <= (budget / cheap) * dear;
      }
      RoundMonotone(budget / dear, budget / cheap);
    }
  }

  // ---------------------------------------------------------------------------------------------
  // Ranking (lines 113-115, 123, 125)

  /** Per-pair utilisations, line 113. */
  function Utilizations(pairs: seq<KashiPairAmounts>): (u: seq<real>)
    ensures |u| == |pairs| && forall k :: 0 <= k < |pairs| ==> u[k] == PairUtil(pairs[k])
  {
    seq(|pairs|, k requires 0 <= k < |pairs| => PairUtil(pairs[k]))
  }

  /** The visiting order and, for each step, the utilisation the group is brought down to. */
  datatype Ranking = Ranking(order: seq<nat>, nexts: seq<real>)

  /** The ranking as written: the floor is appended and sorted with the pairs by `(a, b) => a - b`,
      which ascends, and step `i` targets `utilizations[i + 1]`, an index into the unsorted list. */
  function RankAsWritten(u: seq<real>): (r: Ranking)
    ensures |r.order| == |u| + 1 && |r.nexts| == |u| && InRange(r.order, |u| + 1)
    ensures multiset(r.order) == multiset(Range(|u| + 1))
    ensures StablySorted(u + [MIN_SIGNIFICANT_UTILIZATION], r.order)
    ensures forall i :: 0 <= i < |u| - 1 ==> r.nexts[i] == u[i + 1]
    ensures |u| > 0 ==> r.nexts[|u| - 1] == MIN_SIGNIFICANT_UTILIZATION
  {
    var withFloor := u + [MIN_SIGNIFICANT_UTILIZATION];
    var nexts := seq(|u|, i requires 0 <= i < |u| => withFloor[i + 1]);
    assert forall i :: 0 <= i < |u| - 1 ==> nexts[i] == u[i + 1];
    Ranking(SortOrder(withFloor), nexts)
  }

  /** The utilisations 0.5 and 0.1 with the floor appended, as the code as written sorts them. */
  const WithFloorExample: seq<real> := [0.5, 0.1, MIN_SIGNIFICANT_UTILIZATION]

  lemma AscendingPrefixExample()
    ensures SortPrefix(WithFloorExample, 2) == [1, 0]
  {
    var keys := WithFloorExample;
    assert SortPrefix(keys, 1) == [0];
    assert Insert([0], keys, 1) == Insert([], keys, 1) + [0];
  }

  lemma AscendingOrderExample()
    ensures SortOrder(WithFloorExample) == [2, 1, 0]
  {
    AscendingPrefixExample();
    FloorInsertedFirst();
  }

  lemma FloorInsertedFirst()
    ensures Insert([1, 0], WithFloorExample, 2) == [2, 1, 0]
  {
    var keys := WithFloorExample;
    assert Insert([1], keys, 2) == Insert([], keys, 2) + [1];
    assert Insert([1, 0], keys, 2) == Insert([1], keys, 2) + [0];
  }

  lemma DescendingOrderExample()
    ensures SortOrder(Negated([0.5, 0.1])) == [0, 1]
  {
    var neg := Negated([0.5, 0.1]);
    assert neg == [-0.5, -0.1];
    assert SortPrefix(neg, 1) == [0];
    assert Insert([0], neg, 1) == [0, 1];
  }

  /** With utilisations 0.5 and 0.1 the code as written visits the floor first (`pairs[order[0]]` is past
      the end of the pair list) and the busiest pair last, and targets the utilisations in input order. */
  lemma RankAsWrittenVisitsFloorFirst()
    ensures RankAsWritten([0.5, 0.1]).order == [2, 1, 0]
  {
    assert [0.5, 0.1] + [MIN_SIGNIFICANT_UTILIZATION] == WithFloorExample;
    AscendingOrderExample();
  }

  /** For the same utilisations the corrected ranking visits the busiest pair first. */
  lemma RankVisitsBusiestFirst()
    ensures Rank([0.5, 0.1]).order == [0, 1]
    ensures Rank([0.5, 0.1]).nexts == [0.1, MIN_SIGNIFICANT_UTILIZATION]
  {
    DescendingOrderExample();
  }

  function Negated(u: seq<real>): (r: seq<real>)
    ensures |r| == |u| && forall k :: 0 <= k < |u| ==> r[k] == -u[k]
  {
    seq(|u|, k requires 0 <= k < |u| => -u[k])
  }

  /** The ranking the algorithm needs: `u` with the floor appended, in stable descending order. The pairs
      at or above the floor come first, then the floor, then the pairs below it. `order` lists the pairs
      alone. Step `i` targets what follows pair `order[i]` in that order: the next pair while it is at or
      above the floor, otherwise the floor. A pair below the floor is reached only past the floor, where
      the target is that pair's own utilisation, below the floor, so the loop stops there. */
  function Rank(u: seq<real>): (r: Ranking)
    ensures |r.order| == |u| == |r.nexts| && InRange(r.order, |u|)
    ensures multiset(r.order) == multiset(Range(|u|))
  {
    var o := SortOrder(Negated(u));
    Ranking(o, seq(|u|, i requires 0 <= i < |u| =>
      if u[o[i]] < MIN_SIGNIFICANT_UTILIZATION then u[o[i]]
      else if i + 1 < |u| && u[o[i + 1]] >= MIN_SIGNIFICANT_UTILIZATION then u[o[i + 1]]
      else MIN_SIGNIFICANT_UTILIZATION))
  }

  /** The ranked utilisations descend, and equal ones keep their input order. */
  lemma RankDescending(u: seq<real>)
    ensures var o := Rank(u).order;
      forall p, q :: 0 <= p < q < |u| ==> u[o[p]] > u[o[q]] || (u[o[p]] == u[o[q]] && o[p] < o[q])
  {
    var keys := Negated(u);
    var o := SortOrder(keys);
    forall p, q | 0 <= p < q < |u| ensures u[o[p]] > u[o[q]] || (u[o[p]] == u[o[q]] && o[p] < o[q]) {
      assert Before(keys, o[p], o[q]);
    }
  }

  /** A pair at or above the floor targets the largest of the floor and the utilisations ranked after it,
      which is never above its own. A pair below the floor targets a value below the floor. */
  lemma RankTargets(u: seq<real>, i: nat)
    requires i < |u|
    ensures var r := Rank(u); var o := r.order;
      && (u[o[i]] >= MIN_SIGNIFICANT_UTILIZATION ==>
            && MIN_SIGNIFICANT_UTILIZATION <= r.nexts[i] <= u[o[i]]
            && (forall j :: i < j < |u| ==> u[o[j]] <= r.nexts[i])
            && (r.nexts[i] == MIN_SIGNIFICANT_UTILIZATION || exists j :: i < j < |u| && r.nexts[i] == u[o[j]]))
      && (u[o[i]] < MIN_SIGNIFICANT_UTILIZATION ==> r.nexts[i] < MIN_SIGNIFICANT_UTILIZATION)
  {
    var r := Rank(u);
    var o := r.order;
    RankDescending(u);
    if u[o[i]] >= MIN_SIGNIFICANT_UTILIZATION && i + 1 < |u| {
      assert u[o[i + 1]] <= u[o[i]];
      forall j | i < j < |u| ensures u[o[j]] <= r.nexts[i] {
        if j > i + 1 {
          assert u[o[j]] <= u[o[i + 1]];
        }
      }
    }
  }

  /** A busy pair followed by an idle one: the busy pair is taken down to the floor, and the idle pair's
      own utilisation, below the floor, stops the loop before it. */
  lemma RankBusyThenIdle()
    ensures Rank([0.5, 0.0]).order == [0, 1]
    ensures Rank([0.5, 0.0]).nexts == [MIN_SIGNIFICANT_UTILIZATION, 0.0]
  {
    var neg := Negated([0.5, 0.0]);
    assert neg == [-0.5, 0.0];
    assert SortPrefix(neg, 1) == [0];
    assert Insert([0], neg, 1) == [0, 1];
  }

  // ---------------------------------------------------------------------------------------------
  // One step's split (lines 130-132)

  /** What a pair borrowing `borrowed` receives when a step hands out `amount` to a group borrowing
      `borrowAcc` in total (line 131). */
  function Share(borrowed: real, amount: real, borrowAcc: real): real
    requires borrowAcc != 0.0
  {
    borrowed * amount / borrowAcc
  }

  /** Each admitted pair `j` receives its share on top of what it has. */
  function Proportional(distr: seq<real>, borrowed: seq<real>, amount: real, borrowAcc: real): (r: seq<real>)
    requires |borrowed| == |distr| && borrowAcc != 0.0
    ensures |r| == |distr|
  {
    seq(|distr|, j requires 0 <= j < |distr| => distr[j] + Share(borrowed[j], amount, borrowAcc))
  }

  /** Shifting every element by `f` times a weight shifts the sum by `f` times the total weight. */
  lemma {:induction false} SumShift(r: seq<real>, distr: seq<real>, weights: seq<real>, f: real)
    requires |r| == |distr| == |weights|
    requires forall j :: 0 <= j < |r| ==> r[j] == distr[j] + f * weights[j]
    ensures Sum(r) == Sum(distr) + f * Sum(weights)
  {
    var n := |r|;
    if n > 0 {
      SumShift(r[..n - 1], distr[..n - 1], weights[..n - 1], f);
      var w := Sum(weights[..n - 1]);
      assert f * (w + weights[n - 1]) == f * w + f * weights[n - 1];
    }
  }

  /** A share is the fraction `f = amount / borrowAcc` of what the pair borrows. */
  lemma ShareFactor(b: real, amount: real, borrowAcc: real, f: real)
    requires borrowAcc != 0.0 && f == amount / borrowAcc
    ensures Share(b, amount, borrowAcc) == f * b
  {
  }

  /** `r` is `distr` with the fraction `f` of each pair's borrowed amount added. */
  predicate SharedOut(r: seq<real>, distr: seq<real>, borrowed: seq<real>, f: real)
  {
    && |r| == |distr| == |borrowed|
    && forall j :: 0 <= j < |r| ==> r[j] == distr[j] + f * borrowed[j]
  }

  /** Every admitted pair receives the same fraction of what it borrows. */
  lemma ProportionalShares(distr: seq<real>, borrowed: seq<real>, amount: real, borrowAcc: real, f: real)
    requires |borrowed| == |distr| && borrowAcc != 0.0 && f == amount / borrowAcc
    ensures SharedOut(Proportional(distr, borrowed, amount, borrowAcc), distr, borrowed, f)
  {
    var r := Proportional(distr, borrowed, amount, borrowAcc);
    forall j | 0 <= j < |r| ensures r[j] == distr[j] + f * borrowed[j] {
      ShareFactor(borrowed[j], amount, borrowAcc, f);
    }
  }

  /** When `borrowAcc` is the admitted pairs' total borrowed amount, a step hands out exactly `amount`. */
  lemma ProportionalSum(distr: seq<real>, borrowed: seq<real>, amount: real, borrowAcc: real)
    requires |borrowed| == |distr| && borrowAcc == Sum(borrowed) && borrowAcc != 0.0
    ensures Sum(Proportional(distr, borrowed, amount, borrowAcc)) == Sum(distr) + amount
  {
    var f := amount / borrowAcc;
    ProportionalShares(distr, borrowed, amount, borrowAcc, f);
    SumShift(Proportional(distr, borrowed, amount, borrowAcc), distr, borrowed, f);
    ScaleBack(f, amount, borrowAcc);
  }

  lemma ScaleBack(f: real, amount: real, total: real)
    requires total != 0.0 && f == amount / total
    ensures f * total == amount
  {
  }

  /** The inner loop of lines 130-132, updating `distr` element by element. */
  method AddProportional(distr: seq<real>, borrowed: seq<real>, amount: real, borrowAcc: real) returns (r: seq<real>)
    requires |borrowed| == |distr| && borrowAcc != 0.0
    ensures r == Proportional(distr, borrowed, amount, borrowAcc)
  {
    r := distr;
    for j := 0 to |distr|
      invariant |r| == |distr|
      invariant forall k :: 0 <= k < j ==> r[k] == distr[k] + Share(borrowed[k], amount, borrowAcc)
      invariant forall k :: j <= k < |distr| ==> r[k] == distr[k]
    {
      r := r[j := r[j] + Share(borrowed[j], amount, borrowAcc)];
    }
    var expected := Proportional(distr, borrowed, amount, borrowAcc);
    assert forall k :: 0 <= k < |r| ==> r[k] == expected[k];
  }

  // ---------------------------------------------------------------------------------------------
  // The greedy loop (lines 117-135)

  /** The targets of utilisations `u` listed in descending order, taken from the descending order of `u`
      with the floor inserted: a value at or above the floor targets the next value while that is at or
      above the floor, and the floor otherwise; a value below the floor targets something below it. */
  predicate Targets(u: seq<real>, nexts: seq<real>)
  {
    && |u| >= 1 && |nexts| == |u|
    && (forall p, q :: 0 <= p <= q < |u| ==> u[p] >= u[q])
    && (forall k {:trigger nexts[k]} :: 0 <= k < |u| && u[k] < MIN_SIGNIFICANT_UTILIZATION ==> nexts[k] < MIN_SIGNIFICANT_UTILIZATION)
    && (forall k {:trigger nexts[k]} :: 0 <= k < |u| - 1 && u[k + 1] >= MIN_SIGNIFICANT_UTILIZATION ==> nexts[k] == u[k + 1])
    && (forall k {:trigger nexts[k]} :: (0 <= k < |u| - 1 && u[k] >= MIN_SIGNIFICANT_UTILIZATION && u[k + 1] < MIN_SIGNIFICANT_UTILIZATION) ==>
          nexts[k] == MIN_SIGNIFICANT_UTILIZATION)
    && (u[|u| - 1] >= MIN_SIGNIFICANT_UTILIZATION ==> nexts[|u| - 1] == MIN_SIGNIFICANT_UTILIZATION)
  }

  /** A target at or above the floor belongs to a value at or above the floor, and is no higher than it. */
  lemma TargetBelowOwn(u: seq<real>, nexts: seq<real>, k: nat)
    requires Targets(u, nexts) && k < |u| && nexts[k] >= MIN_SIGNIFICANT_UTILIZATION
    ensures MIN_SIGNIFICANT_UTILIZATION <= u[k] && nexts[k] <= u[k]
  {
    if k < |u| - 1 && u[k + 1] >= MIN_SIGNIFICANT_UTILIZATION {
      assert u[k + 1] <= u[k];
    }
  }

  /** Where two consecutive targets are at or above the floor, the earlier one is the later value itself. */
  lemma TargetIsNext(u: seq<real>, nexts: seq<real>, k: nat)
    requires Targets(u, nexts) && 1 <= k < |u|
    requires nexts[k - 1] >= MIN_SIGNIFICANT_UTILIZATION && nexts[k] >= MIN_SIGNIFICANT_UTILIZATION
    ensures nexts[k - 1] == u[k] && nexts[k] <= nexts[k - 1]
  {
    TargetBelowOwn(u, nexts, k);
  }

  /** Pairs in visiting order with, for each, the utilisation the group is brought down to: at least two
      pairs with non-negative figures, whose utilisations descend and carry their `Targets`. */
  predicate GreedyInput(ranked: seq<KashiPairAmounts>, nexts: seq<real>)
  {
    && |ranked| >= 2
    && (forall k :: 0 <= k < |ranked| ==> ranked[k].lended >= 0.0 && ranked[k].borrowed >= 0.0)
    && Targets(Utilizations(ranked), nexts)
  }

  /** The greedy loop exactly as written: `lendAcc` collects the pairs' own lended amounts but is never
      advanced by what was already handed out, so each step hands out the whole group's shortfall again. */
  function GreedyAsWritten(ranked: seq<KashiPairAmounts>, nexts: seq<real>, maxPairs: nat, i: nat,
                           lendAcc: real, borrowAcc: real, remaining: real, distr: seq<real>): (r: seq<real>)
    requires |nexts| == |ranked| && maxPairs <= |ranked| && |distr| == i <= maxPairs
    requires forall k :: 0 <= k < |ranked| ==> ranked[k].borrowed > 0.0
    requires borrowAcc >= 0.0
    ensures i <= |r| <= maxPairs
    decreases maxPairs - i
  {
    if i == maxPairs || remaining <= 0.0 || nexts[i] < MIN_SIGNIFICANT_UTILIZATION then distr
    else
      var lendAcc', borrowAcc' := lendAcc + ranked[i].lended, borrowAcc + ranked[i].borrowed;
      var d := Clamp(borrowAcc' / nexts[i] - lendAcc', 0.0, remaining);
      var distr' := Proportional(distr + [0.0], Borrowed(ranked[..i + 1]), d, borrowAcc');
      GreedyAsWritten(ranked, nexts, maxPairs, i + 1, lendAcc', borrowAcc', remaining - d, distr')
  }

  /** Three pairs lending 12, 15 and 20 and each borrowing 6, visited busiest first, with a deposit of 40. */
  const UnequalExample: seq<KashiPairAmounts> :=
    [KashiPairAmounts("a", 12.0, 6.0, 0.0), KashiPairAmounts("b", 15.0, 6.0, 0.0), KashiPairAmounts("c", 20.0, 6.0, 0.0)]
  const UnequalTargets: seq<real> := [0.4, 0.3, MIN_SIGNIFICANT_UTILIZATION]

  lemma UnequalFirstStep()
    ensures Proportional([0.0], [6.0], 3.0, 6.0) == [3.0]
  {
    assert Share(6.0, 3.0, 6.0) == 3.0;
  }

  lemma UnequalSecondStep()
    ensures Proportional([3.0, 0.0], [6.0, 6.0], 13.0, 12.0) == [9.5, 6.5]
  {
    assert Share(6.0, 13.0, 12.0) == 6.5;
  }

  lemma UnequalThirdStep()
    ensures Proportional([9.5, 6.5, 0.0], [6.0, 6.0, 6.0], 24.0, 18.0) == [17.5, 14.5, 8.0]
  {
    assert Share(6.0, 24.0, 18.0) == 8.0;
  }

  /** The loop as written hands out 3, then the group's whole shortfall of 13 again, then the rest: the
      pairs end up lending 29.5, 29.5 and 28, so the last one admitted is left busier than the first. */
  lemma AsWrittenLeavesPairsUnequal()
    ensures var r := GreedyAsWritten(UnequalExample, UnequalTargets, 3, 0, 0.0, 0.0, 40.0, []);
      r == [17.5, 14.5, 8.0] && UtilAfter(UnequalExample[0], r[0]) != UtilAfter(UnequalExample[2], r[2])
  {
    var ex, ts := UnequalExample, UnequalTargets;
    assert Borrowed(ex[..1]) == [6.0];
    assert Borrowed(ex[..2]) == [6.0, 6.0];
    assert Borrowed(ex[..3]) == [6.0, 6.0, 6.0];
    UnequalFirstStep();
    UnequalSecondStep();
    UnequalThirdStep();
    assert Clamp(6.0 / 0.4 - 12.0, 0.0, 40.0) == 3.0;
    assert Clamp(12.0 / 0.3 - 27.0, 0.0, 37.0) == 13.0;
    assert Clamp(18.0 / MIN_SIGNIFICANT_UTILIZATION - 47.0, 0.0, 24.0) == 24.0;
    assert [0.0] + [0.0] == [0.0, 0.0];
    calc {
      GreedyAsWritten(ex, ts, 3, 0, 0.0, 0.0, 40.0, []);
      GreedyAsWritten(ex, ts, 3, 1, 12.0, 6.0, 37.0, [3.0]);
      GreedyAsWritten(ex, ts, 3, 2, 27.0, 12.0, 24.0, [9.5, 6.5]);
      GreedyAsWritten(ex, ts, 3, 3, 47.0, 18.0, 0.0, [17.5, 14.5, 8.0]);
      [17.5, 14.5, 8.0];
    }
    assert UtilAfter(ex[0], 17.5) == 6.0 / 29.5;
    assert UtilAfter(ex[2], 8.0) == 6.0 / 28.0;
  }

  /** One step starting from a group that lends `ratio` times what it borrows (`lendAcc == ratio * borrowAcc`):
      the increment before clamping is never negative (the check of line 129), and the clamped increment
      brings the group to, but never past, the target `utilNext`, reaching it unless the deposit ran out. */
  lemma StepReachesTarget(ratio: real, borrowAcc: real, utilNext: real, lendAcc: real, remaining: real, d: real)
    returns (f: real, after: real)
    requires ratio > 0.0 && borrowAcc > 0.0 && utilNext > 0.0 && ratio * utilNext <= 1.0
    requires lendAcc == ratio * borrowAcc && remaining > 0.0
    requires d == Clamp(borrowAcc / utilNext - lendAcc, 0.0, remaining)
    ensures borrowAcc / utilNext - lendAcc >= 0.0
    ensures f == d / borrowAcc && f >= 0.0 && after == ratio + f
    ensures 0.0 <= d <= remaining
    ensures after > 0.0 && after * utilNext <= 1.0
    ensures lendAcc + d == after * borrowAcc
    ensures remaining - d > 0.0 ==> after * utilNext == 1.0
  {
    f := d / borrowAcc;
    after := ratio + f;
    var x := borrowAcc / utilNext - lendAcc;
    assert ratio <= 1.0 / utilNext by {
      assert ratio * utilNext / utilNext == ratio;
    }
    assert x == borrowAcc * (1.0 / utilNext - ratio);
    assert x >= 0.0;
    assert d <= x;
    assert d / borrowAcc <= x / borrowAcc == 1.0 / utilNext - ratio;
    assert after * utilNext <= (1.0 / utilNext) * utilNext == 1.0;
    assert d / borrowAcc * borrowAcc == d;
    if remaining - d > 0.0 {
      assert d == x;
    }
  }

  /** Admitting the next pair, which lends `l` and borrows `b`: the first pair sits at or above the step's
      target, a later pair sits exactly at the previous target, where the group stands. Afterwards the
      widened group and the pair itself lend `before` times what they borrow, and `before` times the step's
      target is at most 1 (the target is at most the group's utilisation). */
  lemma AdmitPair(first: bool, ratio: real, lendAcc: real, borrowAcc: real, l: real, b: real,
                  prevTarget: real, utilNext: real) returns (before: real)
    requires l > 0.0 && b >= 0.0 && utilNext > 0.0
    requires first ==> lendAcc == 0.0 && borrowAcc == 0.0 && utilNext * l <= b
    requires !first ==> 0.0 < borrowAcc && 0.0 < ratio && lendAcc == ratio * borrowAcc
    requires !first ==> ratio * prevTarget == 1.0 && b == prevTarget * l && utilNext <= prevTarget
    ensures before > 0.0 && b > 0.0 && borrowAcc + b > 0.0 && l == before * b
    ensures lendAcc + l == before * (borrowAcc + b) && before * utilNext <= 1.0
    ensures !first ==> before == ratio
  {
    if first {
      assert b > 0.0 by {
        assert utilNext * l > 0.0;
      }
      before := l / b;
      assert before * b == l;
      assert before * utilNext == (utilNext * l) / b <= b / b;
    } else {
      assert prevTarget > 0.0;
      assert b > 0.0 by {
        assert prevTarget * l > 0.0;
      }
      before := ratio;
      assert ratio * b == (ratio * prevTarget) * l == l;
      assert before * utilNext <= before * prevTarget;
      assert before * (borrowAcc + b) == before * borrowAcc + before * b;
    }
  }

  /** Lending `ratio` times what it borrows puts a pair at utilisation `1 / ratio`. */
  lemma ScaledUtil(b: real, ratio: real)
    requires b > 0.0 && ratio > 0.0
    ensures Utilisation(ratio * b, b) == 1.0 / ratio
  {
    assert b == (1.0 / ratio) * (ratio * b);
    UtilisationScales(ratio * b, b, 1.0 / ratio);
  }

  /** One pair's share of a step moves it from `before` to `before + d / borrowAcc` times what it borrows. */
  lemma ShareKeepsRatio(l: real, b: real, w: real, before: real, f: real)
    requires b > 0.0 && w >= 0.0 && f >= 0.0 && l + w == before * b
    ensures w + f * b >= 0.0
    ensures l + (w + f * b) == (before + f) * b
  {
    assert (before + f) * b == before * b + f * b;
  }

  /** Each of the first `|distr|` pairs has received something non-negative, borrows something, and lends
      (counting what it received) `ratio` times what it borrows. */
  ghost predicate Ratios(ls: seq<real>, bs: seq<real>, distr: seq<real>, ratio: real)
    requires |distr| <= |ls| && |distr| <= |bs|
  {
    forall j :: 0 <= j < |distr| ==> distr[j] >= 0.0 && bs[j] > 0.0 && ls[j] + distr[j] == ratio * bs[j]
  }

  /** One pair of a step's split keeps lending `after = before + f` times what it borrows. */
  lemma SplitOne(ls: seq<real>, bs: seq<real>, widened: seq<real>, split: seq<real>, n: nat, before: real,
                 f: real, j: nat)
    requires j <= n < |ls| && n < |bs| && f >= 0.0 && SharedOut(split, widened, bs[..n + 1], f)
    requires widened[j] >= 0.0 && bs[j] > 0.0 && ls[j] + widened[j] == before * bs[j]
    ensures split[j] >= 0.0 && ls[j] + split[j] == (before + f) * bs[j]
  {
    assert split[j] == widened[j] + f * bs[j];
    ShareKeepsRatio(ls[j], bs[j], widened[j], before, f);
  }

  lemma {:induction false} SplitKeepsRatio(ls: seq<real>, bs: seq<real>, distr: seq<real>, split: seq<real>, n: nat,
                                           l: real, b: real, ratio: real, before: real, after: real, f: real)
    requires n == |distr| && n < |ls| && n < |bs| && ls[n] == l && bs[n] == b
    requires f >= 0.0 && after == before + f
    requires SharedOut(split, distr + [0.0], bs[..n + 1], f)
    requires n > 0 ==> before == ratio
    requires Ratios(ls, bs, distr, ratio)
    requires b > 0.0 && l == before * b
    ensures |split| == n + 1 && Ratios(ls, bs, split, after)
  {
    var widened := distr + [0.0];
    forall j | 0 <= j <= n
      ensures split[j] >= 0.0 && bs[j] > 0.0 && ls[j] + split[j] == after * bs[j]
    {
      assert widened[j] == if j < n then distr[j] else 0.0;
      SplitOne(ls, bs, widened, split, n, before, f, j);
    }
  }

  /** Pairs that all lend `ratio` times what they borrow share the utilisation `1 / ratio`. */
  lemma {:induction false} EqualRatioEqualUtil(ls: seq<real>, bs: seq<real>, distr: seq<real>, ratio: real)
    requires |distr| <= |ls| && |distr| <= |bs| && ratio > 0.0 && Ratios(ls, bs, distr, ratio)
    ensures forall j :: 0 <= j < |distr| ==> Utilisation(ls[j] + distr[j], bs[j]) == 1.0 / ratio
  {
    forall j | 0 <= j < |distr| ensures Utilisation(ls[j] + distr[j], bs[j]) == 1.0 / ratio {
      ScaledUtil(bs[j], ratio);
    }
  }

  lemma InverseBound(ratio: real, u: real)
    requires ratio > 0.0 && u > 0.0 && ratio * u <= 1.0
    ensures 1.0 / ratio >= u
    ensures ratio * u == 1.0 ==> 1.0 / ratio == u
  {
    assert ratio * u / ratio == u;
  }

  function Lended(ps: seq<KashiPairAmounts>): (r: seq<real>)
    ensures |r| == |ps| && forall k :: 0 <= k < |ps| ==> r[k] == ps[k].lended
  {
    seq(|ps|, k requires 0 <= k < |ps| => ps[k].lended)
  }

  /** What the greedy loop relies on, over the ranked pairs' lended amounts `ls` and borrowed amounts `bs`:
      the figures are non-negative, the first pair sits at or above the first target, and wherever a target
      and the one after it are at or above the floor, the later target is no higher and the next pair sits
      exactly at the earlier one (it borrows `nexts[k - 1]` times what it lends, so it lends something). */
  predicate Staircase(ls: seq<real>, bs: seq<real>, nexts: seq<real>)
  {
    && |ls| == |bs| == |nexts| >= 1
    && (forall k :: 0 <= k < |ls| ==> ls[k] >= 0.0 && bs[k] >= 0.0)
    && (nexts[0] >= MIN_SIGNIFICANT_UTILIZATION ==> ls[0] > 0.0 && nexts[0] * ls[0] <= bs[0])
    && (forall k {:trigger ls[k]} ::
          (1 <= k < |nexts| && nexts[k - 1] >= MIN_SIGNIFICANT_UTILIZATION && nexts[k] >= MIN_SIGNIFICANT_UTILIZATION) ==>
          nexts[k] <= nexts[k - 1] && ls[k] > 0.0 && bs[k] == nexts[k - 1] * ls[k])
  }

  /** A pair at utilisation `t > 0` lends something and borrows `t` times what it lends. */
  lemma AtUtilisation(l: real, b: real, t: real)
    requires l >= 0.0 && b >= 0.0 && t > 0.0 && Utilisation(l, b) >= t
    ensures l > 0.0 && t * l <= b
    ensures Utilisation(l, b) == t ==> b == t * l
  {
    assert l != 0.0;
    var u := Utilisation(l, b);
    UtilisationScales(l, b, u);
    assert t * l <= u * l;
    if u == t {
      UtilisationScales(l, b, t);
    }
  }

  /** A ranked pair after the first, where its predecessor's target and its own are at or above the floor:
      the predecessor's target is the pair's own utilisation, so the pair lends something and borrows that
      target times what it lends, and its own target is no higher. */
  lemma GreedyInputAt(ranked: seq<KashiPairAmounts>, nexts: seq<real>, k: nat)
    requires GreedyInput(ranked, nexts) && 1 <= k < |nexts|
    requires nexts[k - 1] >= MIN_SIGNIFICANT_UTILIZATION && nexts[k] >= MIN_SIGNIFICANT_UTILIZATION
    ensures nexts[k] <= nexts[k - 1] && ranked[k].lended > 0.0
    ensures ranked[k].borrowed == nexts[k - 1] * ranked[k].lended
  {
    var p := ranked[k];
    TargetIsNext(Utilizations(ranked), nexts, k);
    AtUtilisation(p.lended, p.borrowed, nexts[k - 1]);
  }

  /** The busiest pair, when the first target is at or above the floor, lends something and borrows at
      least that target times what it lends. */
  lemma GreedyInputFirst(ranked: seq<KashiPairAmounts>, nexts: seq<real>)
    requires GreedyInput(ranked, nexts) && nexts[0] >= MIN_SIGNIFICANT_UTILIZATION
    ensures ranked[0].lended > 0.0 && nexts[0] * ranked[0].lended <= ranked[0].borrowed
  {
    TargetBelowOwn(Utilizations(ranked), nexts, 0);
    AtUtilisation(ranked[0].lended, ranked[0].borrowed, nexts[0]);
  }

  /** Pairs ranked by descending utilisation with the targets of a stable descending order that includes
      the floor form a staircase. */
  lemma GreedyInputStaircase(ranked: seq<KashiPairAmounts>, nexts: seq<real>)
    requires GreedyInput(ranked, nexts)
    ensures Staircase(Lended(ranked), Borrowed(ranked), nexts)
  {
    var ls, bs := Lended(ranked), Borrowed(ranked);
    assert ls[0] == ranked[0].lended && bs[0] == ranked[0].borrowed;
    if nexts[0] >= MIN_SIGNIFICANT_UTILIZATION {
      GreedyInputFirst(ranked, nexts);
    }
    GreedyInputStairs(ranked, nexts, ls, bs);
    forall k | 0 <= k < |ls| ensures ls[k] >= 0.0 && bs[k] >= 0.0 {
      assert ls[k] == ranked[k].lended && bs[k] == ranked[k].borrowed;
    }
    StaircaseFromSteps(ls, bs, nexts);
  }

  /** The pieces of a staircase, proved separately, make a staircase. */
  lemma StaircaseFromSteps(ls: seq<real>, bs: seq<real>, nexts: seq<real>)
    requires |ls| == |bs| == |nexts| >= 1
    requires forall k :: 0 <= k < |ls| ==> ls[k] >= 0.0 && bs[k] >= 0.0
    requires nexts[0] >= MIN_SIGNIFICANT_UTILIZATION ==> ls[0] > 0.0 && nexts[0] * ls[0] <= bs[0]
    requires forall k {:trigger ls[k]} ::
      (1 <= k < |nexts| && nexts[k - 1] >= MIN_SIGNIFICANT_UTILIZATION && nexts[k] >= MIN_SIGNIFICANT_UTILIZATION) ==>
        nexts[k] <= nexts[k - 1] && ls[k] > 0.0 && bs[k] == nexts[k - 1] * ls[k]
    ensures Staircase(ls, bs, nexts)
  {
  }

  /** Every later step of a ranked input whose target and its predecessor's are at or above the floor. */
  lemma GreedyInputStairs(ranked: seq<KashiPairAmounts>, nexts: seq<real>, ls: seq<real>, bs: seq<real>)
    requires GreedyInput(ranked, nexts) && ls == Lended(ranked) && bs == Borrowed(ranked)
    ensures forall k {:trigger ls[k]} ::
      (1 <= k < |nexts| && nexts[k - 1] >= MIN_SIGNIFICANT_UTILIZATION && nexts[k] >= MIN_SIGNIFICANT_UTILIZATION) ==>
        nexts[k] <= nexts[k - 1] && ls[k] > 0.0 && bs[k] == nexts[k - 1] * ls[k]
  {
    forall k | 1 <= k < |nexts| && nexts[k - 1] >= MIN_SIGNIFICANT_UTILIZATION && nexts[k] >= MIN_SIGNIFICANT_UTILIZATION
      ensures nexts[k] <= nexts[k - 1] && ls[k] > 0.0 && bs[k] == nexts[k - 1] * ls[k]
    {
      GreedyInputAt(ranked, nexts, k);
    }
  }

  /** The state the greedy loop keeps after admitting the first `|distr|` ranked pairs: `borrowAcc` is what
      they borrow, every admitted target is at or above the floor, and the admitted pairs, counting what
      they received, all lend `ratio` times what they borrow (so does the group: `lendAcc`), which puts
      them at or above the last target `target`, exactly at it while some deposit remains, and strictly
      below the target before it once the deposit is used up (the step that used it up gave something). */
  ghost predicate Level(ls: seq<real>, bs: seq<real>, nexts: seq<real>, distr: seq<real>, lendAcc: real,
                        borrowAcc: real, remaining: real, ratio: real, target: real)
  {
    && |distr| <= |nexts| && |ls| == |bs| == |nexts|
    && borrowAcc == Sum(bs[..|distr|])
    && (forall j :: 0 <= j < |distr| ==> nexts[j] >= MIN_SIGNIFICANT_UTILIZATION)
    && (|distr| == 0 ==> lendAcc == 0.0 && borrowAcc == 0.0)
    && (|distr| > 0 ==> 0.0 < borrowAcc && 0.0 < ratio && lendAcc == ratio * borrowAcc)
    && (|distr| > 0 ==> target == nexts[|distr| - 1] && ratio * target <= 1.0)
    && (|distr| > 0 && remaining > 0.0 ==> ratio * target == 1.0)
    && (|distr| >= 2 && remaining == 0.0 ==> 1.0 / ratio < nexts[|distr| - 2])
    && Ratios(ls, bs, distr, ratio)
  }

  /** The next pair of a staircase, once the previous target is at or above the floor. */
  lemma StaircaseAt(ls: seq<real>, bs: seq<real>, nexts: seq<real>, i: nat)
    requires Staircase(ls, bs, nexts) && i < |nexts| && nexts[i] >= MIN_SIGNIFICANT_UTILIZATION
    requires i > 0 ==> nexts[i - 1] >= MIN_SIGNIFICANT_UTILIZATION
    ensures ls[i] > 0.0 && bs[i] >= 0.0
    ensures i == 0 ==> nexts[0] * ls[0] <= bs[0]
    ensures i > 0 ==> bs[i] == nexts[i - 1] * ls[i] && nexts[i] <= nexts[i - 1]
  {
  }

  /** One pass of the loop body (lines 121-134) with `lendAcc` advanced by the increment, over the pairs'
      lended amounts `ls` and borrowed amounts `bs`: admit pair `i`, work out the increment that brings the
      widened group to `nexts[i]` without exceeding `remaining`, and split it over the admitted pairs in
      proportion to what each borrows. It keeps the loop's `Level`. */
  method AdmitNext(ls: seq<real>, bs: seq<real>, nexts: seq<real>, distr: seq<real>, lendAcc: real,
                   borrowAcc: real, remaining: real, ghost ratio: real, ghost target: real)
    returns (distr': seq<real>, lendAcc': real, borrowAcc': real, d: real, ghost ratio': real, ghost target': real)
    requires Level(ls, bs, nexts, distr, lendAcc, borrowAcc, remaining, ratio, target)
    requires |distr| < |nexts| && remaining > 0.0 && nexts[|distr|] >= MIN_SIGNIFICANT_UTILIZATION
    requires ls[|distr|] > 0.0 && bs[|distr|] >= 0.0
    requires |distr| == 0 ==> nexts[0] * ls[0] <= bs[0]
    requires |distr| > 0 ==> bs[|distr|] == nexts[|distr| - 1] * ls[|distr|] && nexts[|distr|] <= nexts[|distr| - 1]
    ensures |distr'| == |distr| + 1 && 0.0 <= d <= remaining && Sum(distr') == Sum(distr) + d
    ensures Level(ls, bs, nexts, distr', lendAcc', borrowAcc', remaining - d, ratio', target')
  {
    var i := |distr|;
    var lended, borrowed := ls[i], bs[i];
    var utilNext := nexts[i];
    target' := utilNext;
    ghost var before := AdmitPair(i == 0, ratio, lendAcc, borrowAcc, lended, borrowed,
                                  if i == 0 then 0.0 else nexts[i - 1], utilNext);
    SumPrefix(bs, i);
    lendAcc' := lendAcc + lended;
    borrowAcc' := borrowAcc + borrowed;
    d := Clamp(borrowAcc' / utilNext - lendAcc', 0.0, remaining);
    ghost var f;
    f, ratio' := StepReachesTarget(before, borrowAcc', utilNext, lendAcc', remaining, d);
    var widened := distr + [0.0];
    SumAppend(distr, 0.0);
    distr' := AddProportional(widened, bs[..i + 1], d, borrowAcc');
    ProportionalSum(widened, bs[..i + 1], d, borrowAcc');
    ProportionalShares(widened, bs[..i + 1], d, borrowAcc', f);
    lendAcc' := lendAcc' + d;
    SplitKeepsRatio(ls, bs, distr, distr', i, lended, borrowed, ratio, before, ratio', f);
    NextLevel(ls, bs, nexts, distr, distr', lendAcc, borrowAcc, remaining, ratio, target,
              lendAcc', borrowAcc', d, f, ratio', target');
  }

  /** The loop's `Level` after a step that admitted pair `|distr|`, handed out `d` and so raised the
      group's ratio from `ratio` by `f`, to `ratio'`. */
  lemma NextLevel(ls: seq<real>, bs: seq<real>, nexts: seq<real>, distr: seq<real>, distr': seq<real>,
                  lendAcc: real, borrowAcc: real, remaining: real, ratio: real, target: real,
                  lendAcc': real, borrowAcc': real, d: real, f: real, ratio': real, target': real)
    requires Level(ls, bs, nexts, distr, lendAcc, borrowAcc, remaining, ratio, target)
    requires |distr| < |nexts| && remaining > 0.0 && target' == nexts[|distr|] >= MIN_SIGNIFICANT_UTILIZATION
    requires |distr'| == |distr| + 1 && borrowAcc' == Sum(bs[..|distr'|]) && 0.0 < borrowAcc'
    requires 0.0 < ratio' && lendAcc' == ratio' * borrowAcc' && ratio' * target' <= 1.0
    requires remaining - d > 0.0 ==> ratio' * target' == 1.0
    requires f == d / borrowAcc' && (|distr| > 0 ==> ratio' == ratio + f)
    requires Ratios(ls, bs, distr', ratio')
    ensures Level(ls, bs, nexts, distr', lendAcc', borrowAcc', remaining - d, ratio', target')
  {
    if |distr| > 0 && d > 0.0 {
      assert f > 0.0;
      GivingRaisesRatio(ratio, f, target);
    }
  }

  /** A step that raises the group's ratio from `ratio` to `ratio + f` with `f > 0` (it handed out
      something) takes a group that stood exactly at `prevTarget` strictly below it. */
  lemma GivingRaisesRatio(ratio: real, f: real, prevTarget: real)
    ensures ratio > 0.0 && f > 0.0 && prevTarget > 0.0 && ratio * prevTarget == 1.0 ==> 1.0 / (ratio + f) < prevTarget
  {
    if ratio > 0.0 && f > 0.0 && prevTarget > 0.0 && ratio * prevTarget == 1.0 {
      assert (ratio + f) * prevTarget > 1.0 by {
        assert f * prevTarget > 0.0;
      }
      assert (ratio + f) * prevTarget / (ratio + f) == prevTarget;
    }
  }

  /** The admitted pairs (the first `|distr|`) each received something non-negative at a target at or
      above the floor, and all stand at one utilisation, at or above the last target and equal to it while
      some deposit remains. Once the deposit is used up after two or more admissions, they stand strictly
      below the target before the last: the last step still had deposit to give, so no step is taken
      after the deposit runs out (line 122). */
  predicate Equalised(ls: seq<real>, bs: seq<real>, nexts: seq<real>, distr: seq<real>, remaining: real)
    requires |distr| <= |ls| && |distr| <= |bs| && |distr| <= |nexts|
  {
    && (forall j :: 0 <= j < |distr| ==> distr[j] >= 0.0 && nexts[j] >= MIN_SIGNIFICANT_UTILIZATION)
    && (forall j :: 0 <= j < |distr| ==>
          Utilisation(ls[j] + distr[j], bs[j]) == Utilisation(ls[0] + distr[0], bs[0]))
    && (|distr| > 0 ==> Utilisation(ls[0] + distr[0], bs[0]) >= nexts[|distr| - 1])
    && (|distr| > 0 && remaining > 0.0 ==> Utilisation(ls[0] + distr[0], bs[0]) == nexts[|distr| - 1])
    && (|distr| >= 2 && remaining == 0.0 ==> Utilisation(ls[0] + distr[0], bs[0]) < nexts[|distr| - 2])
  }

  /** What the loop's `Level` says about the pairs it admitted: each received something non-negative at a
      target at or above the floor, and all stand at one utilisation, at or above the last target and equal
      to it while some deposit remains. */
  lemma LevelUtilisation(ls: seq<real>, bs: seq<real>, nexts: seq<real>, distr: seq<real>, lendAcc: real,
                         borrowAcc: real, remaining: real, ratio: real, target: real)
    requires Level(ls, bs, nexts, distr, lendAcc, borrowAcc, remaining, ratio, target)
    ensures Equalised(ls, bs, nexts, distr, remaining)
  {
    if |distr| > 0 {
      EqualRatioEqualUtil(ls, bs, distr, ratio);
      InverseBound(ratio, target);
    }
  }

  /** What the greedy loop leaves behind: at most `maxPairs` pairs admitted, an amount handed out and a
      remainder that together make the deposit, a reason to stop (`maxPairs` steps taken, the deposit used
      up, or the next target below the floor), and the admitted pairs `Equalised`. */
  predicate LoopOutcome(ls: seq<real>, bs: seq<real>, nexts: seq<real>, maxPairs: nat, assetAmount: real,
                        distr: seq<real>, remaining: real)
  {
    && |ls| == |bs| == |nexts| && |distr| <= maxPairs && |distr| <= |nexts|
    && 0.0 <= remaining <= assetAmount && Sum(distr) + remaining == assetAmount
    && (|distr| == maxPairs || remaining == 0.0 || (|distr| < |nexts| && nexts[|distr|] < MIN_SIGNIFICANT_UTILIZATION))
    && Equalised(ls, bs, nexts, distr, remaining)
  }

  /** The greedy loop of lines 117-135 with `lendAcc` advanced by each step's increment (as the
      equalisation needs), over the ranked pairs' lended amounts `ls` and borrowed amounts `bs`. It stops
      after `maxPairs` steps, when the deposit is used up, or when the next target is below the floor; it
      hands out exactly what it takes from the deposit, and the pairs it admitted end at one utilisation,
      never below the last target reached and equal to it unless the deposit ran out; it takes no step
      after the one that used the deposit up. */
  method Equalise(ls: seq<real>, bs: seq<real>, nexts: seq<real>, maxPairs: nat, assetAmount: real)
    returns (distr: seq<real>, remaining: real)
    requires Staircase(ls, bs, nexts) && maxPairs <= |nexts| && assetAmount > 0.0
    ensures LoopOutcome(ls, bs, nexts, maxPairs, assetAmount, distr, remaining)
  {
    distr := [];
    remaining := assetAmount;
    var lendAcc, borrowAcc, distrAcc := 0.0, 0.0, 0.0;
    ghost var ratio, target := 0.0, 0.0;
    var i := 0;
    while i < maxPairs && remaining > 0.0 && nexts[i] >= MIN_SIGNIFICANT_UTILIZATION
      invariant 0 <= i <= maxPairs && |distr| == i
      invariant 0.0 <= remaining <= assetAmount
      invariant distrAcc == Sum(distr) && distrAcc + remaining == assetAmount
      invariant Level(ls, bs, nexts, distr, lendAcc, borrowAcc, remaining, ratio, target)
    {
      StaircaseAt(ls, bs, nexts, i);
      var distrAmount;
      distr, lendAcc, borrowAcc, distrAmount, ratio, target :=
        AdmitNext(ls, bs, nexts, distr, lendAcc, borrowAcc, remaining, ratio, target);
      distrAcc := distrAcc + distrAmount;
      remaining := remaining - distrAmount;
      i := i + 1;
    }
    LevelUtilisation(ls, bs, nexts, distr, lendAcc, borrowAcc, remaining, ratio, target);
  }

  /** Two pairs, lending 2 and 4 and each borrowing 1, with targets 0.25 and the floor: a deposit of 2
      brings the first pair exactly to 0.25 and is used up, so the loop stops there with one entry rather
      than admitting the second pair for nothing. */
  lemma ExhaustingStepIsLast(distr: seq<real>, remaining: real)
    requires LoopOutcome([2.0, 4.0], [1.0, 1.0], [0.25, MIN_SIGNIFICANT_UTILIZATION], 2, 2.0, distr, remaining)
    ensures distr == [2.0] && remaining == 0.0
  {
    if |distr| == 2 {
      LendingBelow(distr[0], distr[1]);
      SumOfTwo(distr);
    } else if |distr| == 1 {
      LendingAtQuarter(distr[0]);
      assert Sum(distr) == distr[0];
      assert remaining == 0.0;
      assert distr == [distr[0]];
    }
  }

  lemma SumOfTwo(s: seq<real>)
    ensures |s| == 2 ==> Sum(s) == s[0] + s[1]
  {
    if |s| == 2 {
      SumPrefix(s, 0);
      SumPrefix(s, 1);
      assert s[..2] == s;
    }
  }

  /** The first pair of `ExhaustingStepIsLast` below utilisation 0.25 or at the floor needs more than 2. */
  lemma LendingBelow(d0: real, d1: real)
    ensures d0 >= 0.0 && Utilisation(2.0 + d0, 1.0) < 0.25 ==> d0 > 2.0
    ensures d0 >= 0.0 && Utilisation(2.0 + d0, 1.0) == MIN_SIGNIFICANT_UTILIZATION ==> d0 > 2.0
  {
    if d0 >= 0.0 {
      assert Utilisation(2.0 + d0, 1.0) * (2.0 + d0) == 1.0;
    }
  }

  /** The first pair of `ExhaustingStepIsLast` at or above utilisation 0.25 has received at most 2. */
  lemma LendingAtQuarter(d0: real)
    ensures d0 >= 0.0 && Utilisation(2.0 + d0, 1.0) >= 0.25 ==> d0 <= 2.0
  {
    if d0 >= 0.0 {
      assert Utilisation(2.0 + d0, 1.0) * (2.0 + d0) == 1.0;
    }
  }

  // ---------------------------------------------------------------------------------------------
  // The leftover (lines 143-148)

  /** Each of `n` pairs' part of the leftover (line 144). */
  function EvenPart(remaining: real, n: nat): (r: real)
    requires n > 0
    ensures remaining >= 0.0 ==> r >= 0.0
  {
    remaining / n as real
  }

  /** `r` is `distr` padded with zeros to `n` entries, with `remaining / n` added to every entry. */
  predicate Spread(r: seq<real>, distr: seq<real>, remaining: real, n: nat)
    requires n > 0
  {
    && |distr| <= n == |r|
    && forall i :: 0 <= i < n ==> r[i] == (if i < |distr| then distr[i] else 0.0) + EvenPart(remaining, n)
  }

  /** Lines 143-148 over a zero-initialised `distr`: each of the first `n` ranked pairs, admitted or not,
      receives `remaining / n` on top of what the loop gave it. The code passes `pairs.length` for `n`; the
      corrected allocation passes `maxPairs`. */
  method SpreadResidual(distr: seq<real>, remaining: real, n: nat) returns (r: seq<real>)
    requires |distr| <= n && n > 0
    ensures Spread(r, distr, remaining, n)
  {
    var part := EvenPart(remaining, n);
    r := distr + Constant(n - |distr|, 0.0);
    for i := 0 to n
      invariant |r| == n
      invariant forall k :: 0 <= k < i ==> r[k] == (if k < |distr| then distr[k] else 0.0) + part
      invariant forall k :: i <= k < n ==> r[k] == (if k < |distr| then distr[k] else 0.0)
    {
      r := r[i := r[i] + part];
    }
  }

  /** Spreading a non-negative leftover over non-negative amounts leaves every amount non-negative. */
  lemma SpreadNonNegative(distr: seq<real>, r: seq<real>, remaining: real, n: nat)
    requires n > 0 && remaining >= 0.0 && Spread(r, distr, remaining, n)
    requires forall i :: 0 <= i < |distr| ==> distr[i] >= 0.0
    ensures forall i :: 0 <= i < n ==> r[i] >= 0.0
  {
  }

  /** Spreading the leftover hands out exactly the leftover. */
  lemma SpreadResidualSum(distr: seq<real>, r: seq<real>, remaining: real, n: nat)
    requires n > 0 && Spread(r, distr, remaining, n)
    ensures Sum(r) == Sum(distr) + remaining
  {
    var padded := distr + Constant(n - |distr|, 0.0);
    forall j | 0 <= j < n ensures r[j] == padded[j] + EvenPart(remaining, n) {
    }
    SpreadSum(r, padded, remaining);
    PaddedSum(distr, n - |distr|);
  }

  /** Adding each of `|r|` parts of `remaining` adds `remaining` to the sum. */
  lemma SpreadSum(r: seq<real>, s: seq<real>, remaining: real)
    requires |r| == |s| > 0 && forall j :: 0 <= j < |r| ==> r[j] == s[j] + EvenPart(remaining, |r|)
    ensures Sum(r) == Sum(s) + remaining
  {
    PartsSum(remaining, |r|);
    AddTotal(r, s, EvenPart(remaining, |r|), remaining);
  }

  lemma AddTotal(r: seq<real>, s: seq<real>, c: real, total: real)
    requires |r| == |s| && forall j :: 0 <= j < |r| ==> r[j] == s[j] + c
    requires c * |r| as real == total
    ensures Sum(r) == Sum(s) + total
  {
    AddEverywhere(r, s, c);
  }

  /** Adding `c` to each element adds `c` times the length to the sum. */
  lemma {:induction false} AddEverywhere(r: seq<real>, s: seq<real>, c: real)
    requires |r| == |s| && forall j :: 0 <= j < |r| ==> r[j] == s[j] + c
    ensures Sum(r) == Sum(s) + c * |r| as real
  {
    var n := |r|;
    if n > 0 {
      AddEverywhere(r[..n - 1], s[..n - 1], c);
      assert c * (n - 1) as real + c == c * n as real;
    }
  }

  lemma PartsSum(remaining: real, n: nat)
    requires n > 0
    ensures EvenPart(remaining, n) * n as real == remaining
  {
  }

  function Constant(n: nat, x: real): (r: seq<real>)
    ensures |r| == n && forall i :: 0 <= i < n ==> r[i] == x
  {
    seq(n, _ => x)
  }

  lemma {:induction false} PaddedSum(s: seq<real>, m: nat)
    ensures Sum(s + Constant(m, 0.0)) == Sum(s)
  {
    if m > 0 {
      var shorter := s + Constant(m - 1, 0.0);
      assert (s + Constant(m, 0.0))[..|s| + m - 1] == shorter;
      PaddedSum(s, m - 1);
    } else {
      assert s + Constant(m, 0.0) == s;
    }
  }

  // ---------------------------------------------------------------------------------------------
  // The whole allocation (lines 100-151)

  /** `s` (the pairs, or their utilisations) read along the visiting order. */
  function Ranked<T>(s: seq<T>, order: seq<nat>): (r: seq<T>)
    requires InRange(order, |s|)
    ensures |r| == |order| && forall k :: 0 <= k < |order| ==> r[k] == s[order[k]]
  {
    seq(|order|, k requires 0 <= k < |order| => s[order[k]])
  }

  /** Pair figures are on-chain unsigned amounts. */
  predicate NonNegativeFigures(pairs: seq<KashiPairAmounts>)
  {
    forall k :: 0 <= k < |pairs| ==> pairs[k].lended >= 0.0 && pairs[k].borrowed >= 0.0
  }

  /** Ranked by the corrected order, the pairs and their targets form a staircase. */
  lemma RankedStaircase(pairs: seq<KashiPairAmounts>)
    requires |pairs| >= 2 && NonNegativeFigures(pairs)
    ensures var r := Rank(Utilizations(pairs)); Staircase(Lended(Ranked(pairs, r.order)), Borrowed(Ranked(pairs, r.order)), r.nexts)
  {
    var r := Rank(Utilizations(pairs));
    RankedGreedyInput(pairs);
    GreedyInputStaircase(Ranked(pairs, r.order), r.nexts);
  }

  /** Read along the corrected order, the utilisations descend and the targets are those the loop needs. */
  lemma RankTargetsAlong(u: seq<real>)
    requires |u| >= 1
    ensures var r := Rank(u); Targets(Ranked(u, r.order), r.nexts)
  {
    var v := Ranked(u, Rank(u).order);
    RankDescendsAlong(u, v);
    RankNextsAlong(u, v);
  }

  /** Read along the corrected order, the utilisations never rise. */
  lemma RankDescendsAlong(u: seq<real>, v: seq<real>)
    requires v == Ranked(u, Rank(u).order)
    ensures forall p, q :: 0 <= p <= q < |v| ==> v[p] >= v[q]
  {
    var o := Rank(u).order;
    RankDescending(u);
    forall p, q | 0 <= p <= q < |v| ensures v[p] >= v[q] {
      if p < q {
        assert u[o[p]] >= u[o[q]];
      }
    }
  }

  /** The targets of the corrected ranking, in terms of the utilisations read along its order. */
  lemma RankNextsAlong(u: seq<real>, v: seq<real>)
    requires |u| >= 1 && v == Ranked(u, Rank(u).order)
    ensures var nexts := Rank(u).nexts;
      && (forall k {:trigger nexts[k]} :: 0 <= k < |v| && v[k] < MIN_SIGNIFICANT_UTILIZATION ==> nexts[k] < MIN_SIGNIFICANT_UTILIZATION)
      && (forall k {:trigger nexts[k]} :: 0 <= k < |v| - 1 && v[k + 1] >= MIN_SIGNIFICANT_UTILIZATION ==> nexts[k] == v[k + 1])
      && (forall k {:trigger nexts[k]} :: (0 <= k < |v| - 1 && v[k] >= MIN_SIGNIFICANT_UTILIZATION && v[k + 1] < MIN_SIGNIFICANT_UTILIZATION) ==>
            nexts[k] == MIN_SIGNIFICANT_UTILIZATION)
      && (v[|v| - 1] >= MIN_SIGNIFICANT_UTILIZATION ==> nexts[|v| - 1] == MIN_SIGNIFICANT_UTILIZATION)
  {
  }

  /** The corrected ranking puts the pairs in the order the greedy loop relies on. */
  lemma RankedGreedyInput(pairs: seq<KashiPairAmounts>)
    requires |pairs| >= 2 && NonNegativeFigures(pairs)
    ensures var r := Rank(Utilizations(pairs)); GreedyInput(Ranked(pairs, r.order), r.nexts)
  {
    var u := Utilizations(pairs);
    var o := Rank(u).order;
    RankTargetsAlong(u);
    assert Utilizations(Ranked(pairs, o)) == Ranked(u, o);
  }

  /** Two positions of a permutation of `0..n` never hold the same value. */
  lemma PermutationDistinct(o: seq<nat>, n: nat, p: nat, q: nat)
    requires multiset(o) == multiset(Range(n)) && p < q < |o|
    ensures o[p] != o[q]
  {
    if o[p] == o[q] {
      var x := o[p];
      assert o == o[..q] + o[q..];
      assert x in multiset(o[..q]) && x in multiset(o[q..]);
      assert multiset(o)[x] >= 2;
      assert x in multiset(Range(n));
      RangeCount(n, x);
      assert false;
    }
  }

  /** Ranking pairs with distinct addresses keeps their addresses distinct. */
  lemma RankedDistinct(pairs: seq<KashiPairAmounts>, order: seq<nat>)
    requires InRange(order, |pairs|) && multiset(order) == multiset(Range(|pairs|)) && DistinctAddresses(pairs)
    ensures DistinctAddresses(Ranked(pairs, order))
  {
    var ranked := Ranked(pairs, order);
    forall i, j | 0 <= i < j < |ranked| ensures ranked[i].address != ranked[j].address {
      PermutationDistinct(order, |pairs|, i, j);
      if order[i] < order[j] {
        assert pairs[order[i]].address != pairs[order[j]].address;
      } else {
        assert pairs[order[j]].address != pairs[order[i]].address;
      }
    }
  }

  /** Lines 113-115 with the corrected ranking: the pairs busiest first, each with the utilisation the
      loop aims for when it admits that pair. They form a staircase, and ranking neither invents addresses
      nor merges distinct ones. */
  method RankPairs(pairs: seq<KashiPairAmounts>) returns (ranked: seq<KashiPairAmounts>, nexts: seq<real>)
    requires |pairs| >= 2 && NonNegativeFigures(pairs)
    ensures |ranked| == |nexts| == |pairs|
    ensures Staircase(Lended(ranked), Borrowed(ranked), nexts)
    ensures Addresses(ranked) <= Addresses(pairs)
    ensures DistinctAddresses(pairs) ==> DistinctAddresses(ranked)
    ensures ranked == Ranked(pairs, Rank(Utilizations(pairs)).order) && nexts == Rank(Utilizations(pairs)).nexts
  {
    var ranking := Rank(Utilizations(pairs));
    ranked, nexts := Ranked(pairs, ranking.order), ranking.nexts;
    RankedStaircase(pairs);
    RankedAddresses(pairs, ranking.order);
    if DistinctAddresses(pairs) {
      RankedDistinct(pairs, ranking.order);
    }
  }

  /** Lines 117-148 over pairs already ranked into a staircase, as the allocation intends: the greedy loop,
      then any leftover spread evenly over the first `maxPairs` pairs. The result is the loop's equalised
      split, plus an equal part of the leftover for each of those pairs; so at most `maxPairs` pairs receive
      anything, every amount is non-negative, and together they receive the whole deposit. */
  method Distribute(ls: seq<real>, bs: seq<real>, nexts: seq<real>, maxPairs: nat, assetAmount: real)
    returns (distr: seq<real>, ghost loop: seq<real>, ghost remaining: real)
    requires Staircase(ls, bs, nexts) && 1 <= maxPairs <= |nexts| && assetAmount > 0.0
    ensures LoopOutcome(ls, bs, nexts, maxPairs, assetAmount, loop, remaining)
    ensures remaining > 0.0 ==> Spread(distr, loop, remaining, maxPairs)
    ensures remaining == 0.0 ==> distr == loop
    ensures |distr| <= maxPairs && Sum(distr) == assetAmount
    ensures forall j :: 0 <= j < |distr| ==> distr[j] >= 0.0
  {
    var split, left := Equalise(ls, bs, nexts, maxPairs, assetAmount);
    loop, remaining := split, left;
    distr := split;
    if left > 0.0 {
      distr := SpreadResidual(split, left, maxPairs);
      SpreadResidualSum(split, distr, left, maxPairs);
      SpreadNonNegative(split, distr, left, maxPairs);
    }
  }

  /** Two pairs at utilisation 0.5 keep their order; the first targets the second, the second the floor. */
  lemma EqualPairsRanked()
    ensures Utilizations([KashiPairAmounts("a", 2.0, 1.0, 0.0), KashiPairAmounts("b", 2.0, 1.0, 0.0)]) == [0.5, 0.5]
    ensures Rank([0.5, 0.5]).nexts == [0.5, MIN_SIGNIFICANT_UTILIZATION]
  {
    var neg := Negated([0.5, 0.5]);
    assert neg == [-0.5, -0.5];
    assert SortPrefix(neg, 1) == [0];
    assert Insert([0], neg, 1) == [0, 1];
  }

  /** The leftover spread of lines 143-148 reaches every pair, not only the `maxPairs` the deposit can pay
      gas for. Two equal pairs (lent 2, borrowed 1) and a deposit of 10 at a cost of 1 allow one pair; the
      loop hands that pair nothing, as it already stands at its target, and keeps all 10 back. Spread over
      both pairs, as the code does, each receives 5; spread over `maxPairs`, the one pair receives 10. */
  lemma SpreadOverAllPairsExceedsCap(loop: seq<real>, remaining: real, asWritten: seq<real>, intended: seq<real>)
    requires LoopOutcome([2.0, 2.0], [1.0, 1.0], [0.5, MIN_SIGNIFICANT_UTILIZATION], 1, 10.0, loop, remaining)
    requires Spread(asWritten, loop, remaining, 2) && Spread(intended, loop, remaining, 1)
    ensures Utilizations([KashiPairAmounts("a", 2.0, 1.0, 0.0), KashiPairAmounts("b", 2.0, 1.0, 0.0)]) == [0.5, 0.5]
    ensures Rank([0.5, 0.5]).nexts == [0.5, MIN_SIGNIFICANT_UTILIZATION]
    ensures MaxPairs(10.0, 1.0, 2) == 1
    ensures loop == [0.0] && remaining == 10.0
    ensures asWritten == [5.0, 5.0] && intended == [10.0]
  {
    EqualPairsRanked();
    assert Round(10.0 * MAX_GAS_SHARE / 1.0) == 0;
    assert |loop| == 1 by {
      assert |loop| == 0 ==> Sum(loop) == 0.0;
    }
    var d := loop[0];
    assert Sum(loop) == d by {
      assert loop[..0] == [];
    }
    var u := Utilisation(2.0 + d, 1.0);
    assert u >= 0.5;
    assert u * (2.0 + d) == 1.0;
    assert d == 0.0;
  }

  /** Four equal pairs, each lending 2 and borrowing 1. */
  function FourEqualAmounts(): (p: seq<KashiPairAmounts>)
  {
    [KashiPairAmounts("a", 2.0, 1.0, 0.0), KashiPairAmounts("b", 2.0, 1.0, 0.0),
     KashiPairAmounts("c", 2.0, 1.0, 0.0), KashiPairAmounts("d", 2.0, 1.0, 0.0)]
  }

  /** Four equal pairs (lent 2, borrowed 1) are each at utilisation 0.5. */
  lemma FourEqualPairsUtilisation()
    ensures Utilizations(FourEqualAmounts()) == [0.5, 0.5, 0.5, 0.5]
  {
  }

  /** Four equal utilisations sort in input order. */
  lemma FourHalvesSorted()
    ensures SortOrder(Negated([0.5, 0.5, 0.5, 0.5])) == [0, 1, 2, 3]
  {
    var neg := Negated([0.5, 0.5, 0.5, 0.5]);
    assert forall i :: 0 <= i < |neg| ==> neg[i] == neg[0];
    EqualKeysKeepOrder(neg, 4);
    assert SortOrder(neg) == SortPrefix(neg, 4) == Range(4);
    assert Range(4) == [0, 1, 2, 3];
  }

  /** Four equal utilisations of 0.5 rank in input order; the first three target the next pair's 0.5 and
      the last the floor. */
  lemma FourEqualPairsRanked()
    ensures Rank([0.5, 0.5, 0.5, 0.5]) == Ranking([0, 1, 2, 3], [0.5, 0.5, 0.5, MIN_SIGNIFICANT_UTILIZATION])
  {
    FourHalvesSorted();
    var r := Rank([0.5, 0.5, 0.5, 0.5]);
    assert r.order == [0, 1, 2, 3];
    assert r.nexts == [0.5, 0.5, 0.5, MIN_SIGNIFICANT_UTILIZATION];
  }

  /** A pair lending 2 and borrowing 1 reaches a given utilisation with one amount only. */
  lemma SameUtilisationSameAmount(a: real, b: real)
    ensures a >= 0.0 && b >= 0.0 && Utilisation(2.0 + a, 1.0) == Utilisation(2.0 + b, 1.0) ==> a == b
  {
    if a >= 0.0 && b >= 0.0 && Utilisation(2.0 + a, 1.0) == Utilisation(2.0 + b, 1.0) {
      var u := Utilisation(2.0 + a, 1.0);
      assert u * (2.0 + a) == 1.0 && u * (2.0 + b) == 1.0;
      assert u * (a - b) == 0.0;
    }
  }

  /** A pair lending 2 and borrowing 1 stays at or above 0.5 only when it receives nothing, and reaches the
      floor only when it receives 398. */
  lemma TwoOneUtilisation(d: real)
    ensures d >= 0.0 && Utilisation(2.0 + d, 1.0) >= 0.5 ==> d == 0.0
    ensures d >= 0.0 && Utilisation(2.0 + d, 1.0) == MIN_SIGNIFICANT_UTILIZATION ==> d == 398.0
  {
    if d >= 0.0 {
      var u := Utilisation(2.0 + d, 1.0);
      assert u * (2.0 + d) == 1.0;
      if u >= 0.5 {
        assert 1.0 >= 0.5 * (2.0 + d);
      }
    }
  }

  /** A sequence of one repeated amount sums to its length times that amount. */
  lemma {:induction false} SumConstant(s: seq<real>, d: real)
    requires forall j :: 0 <= j < |s| ==> s[j] == d
    ensures Sum(s) == |s| as real * d
  {
    if |s| > 0 {
      SumConstant(s[..|s| - 1], d);
    }
  }

  /** Four equal pairs (lent 2, borrowed 1), all four reachable, and a deposit of 2: every outcome of the
      loop hands each pair 0.5 and keeps nothing back. Fewer steps would leave the pairs at 0.5, which takes
      nothing, and stopping above the floor with a leftover would take 398 per pair. */
  lemma FourEqualPairsLoop(loop: seq<real>, remaining: real)
    requires LoopOutcome([2.0, 2.0, 2.0, 2.0], [1.0, 1.0, 1.0, 1.0],
                         [0.5, 0.5, 0.5, MIN_SIGNIFICANT_UTILIZATION], 4, 2.0, loop, remaining)
    ensures loop == [0.5, 0.5, 0.5, 0.5] && remaining == 0.0
  {
    var k := |loop|;
    var d := if k > 0 then loop[0] else 0.0;
    forall j | 0 <= j < k ensures loop[j] == d {
      SameUtilisationSameAmount(loop[j], d);
    }
    SumConstant(loop, d);
    TwoOneUtilisation(d);
    assert k == 4;
    assert remaining == 0.0;
  }

  /** The figures of the four equal pairs. */
  lemma FourEqualFigures()
    ensures Lended(FourEqualAmounts()) == [2.0, 2.0, 2.0, 2.0]
    ensures Borrowed(FourEqualAmounts()) == [1.0, 1.0, 1.0, 1.0]
  {
  }

  lemma FourEqualDistinct()
    ensures DistinctAddresses(FourEqualAmounts())
  {
  }

  /** The four equal pairs rank in input order, and all four may be reached at no deposit cost. */
  lemma FourEqualRanking()
    ensures Rank(Utilizations(FourEqualAmounts())) == Ranking([0, 1, 2, 3], [0.5, 0.5, 0.5, MIN_SIGNIFICANT_UTILIZATION])
    ensures Ranked(FourEqualAmounts(), [0, 1, 2, 3]) == FourEqualAmounts()
    ensures MaxPairs(2.0, 0.0, 4) == 4
  {
    FourEqualPairsUtilisation();
    FourEqualPairsRanked();
  }

  lemma FourEntries(res: seq<(string, real)>, ranked: seq<KashiPairAmounts>, loop: seq<real>)
    requires ranked == FourEqualAmounts() && loop == [0.5, 0.5, 0.5, 0.5] && Values(res) == loop
    requires forall k :: 0 <= k < |res| ==> res[k].0 == ranked[k].address
    ensures res == [("a", 0.5), ("b", 0.5), ("c", 0.5), ("d", 0.5)]
  {
    assert |res| == 4 && forall k :: 0 <= k < 4 ==> res[k] == (ranked[k].address, loop[k]);
    assert res[0] == ("a", 0.5) && res[1] == ("b", 0.5) && res[2] == ("c", 0.5) && res[3] == ("d", 0.5);
  }

  /** A deposit of 2 over four equal pairs (lent 2, borrowed 1) that may all be reached: the pairs keep
      their input order and the loop gives each 0.5. */
  lemma FourEqualRankedLoop(res: seq<(string, real)>, ranked: seq<KashiPairAmounts>, loop: seq<real>,
                            remaining: real)
    requires RankedAllocation(2.0, FourEqualAmounts(), 0.0, res, ranked, loop, remaining)
    ensures ranked == FourEqualAmounts()
    ensures loop == [0.5, 0.5, 0.5, 0.5] && remaining == 0.0
  {
    FourEqualRanking();
    FourEqualFigures();
    assert LoopOutcome([2.0, 2.0, 2.0, 2.0], [1.0, 1.0, 1.0, 1.0],
                       [0.5, 0.5, 0.5, MIN_SIGNIFICANT_UTILIZATION], 4, 2.0, loop, remaining);
    FourEqualPairsLoop(loop, remaining);
  }

  /** The same deposit as a map: each pair's address with 0.5, in input order. */
  lemma FourEqualPairsAllocation(res: seq<(string, real)>, ranked: seq<KashiPairAmounts>, loop: seq<real>,
                                 remaining: real)
    requires RankedAllocation(2.0, FourEqualAmounts(), 0.0, res, ranked, loop, remaining)
    ensures res == [("a", 0.5), ("b", 0.5), ("c", 0.5), ("d", 0.5)]
  {
    FourEqualRankedLoop(res, ranked, loop, remaining);
    FourEqualDistinct();
    FourEntries(res, ranked, loop);
  }

  /** Line 149: each visited pair's address mapped to its amount by successive `Map.set`s. The keys are
      the visited pairs' addresses (the first `|distr|` ranked pairs), every value is one of the amounts,
      and for distinct addresses the map holds exactly the amounts in visiting order. */
  method ToMap(ranked: seq<KashiPairAmounts>, distr: seq<real>, lo: real, hi: real) returns (res: seq<(string, real)>)
    requires |distr| <= |ranked|
    requires forall j :: 0 <= j < |distr| ==> lo <= distr[j] <= hi
    ensures DistinctKeys(res) && Keys(res) <= Addresses(ranked[..|distr|]) <= Addresses(ranked)
    ensures forall j :: 0 <= j < |res| ==> res[j].1 in distr && lo <= res[j].1 <= hi
    ensures DistinctAddresses(ranked) ==> Values(res) == distr
    ensures DistinctAddresses(ranked) ==> forall k :: 0 <= k < |res| ==> res[k].0 == ranked[k].address
    ensures |res| <= |distr| && (|distr| > 0 ==> |res| > 0)
  {
    res := [];
    ghost var distinct := DistinctAddresses(ranked);
    for i := 0 to |distr|
      invariant DistinctKeys(res) && Keys(res) <= Addresses(ranked[..i])
      invariant forall j :: 0 <= j < |res| ==> res[j].1 in distr[..i]
      invariant distinct ==> |res| == i && forall k :: 0 <= k < i ==> res[k] == (ranked[k].address, distr[k])
      invariant |res| <= i && (i > 0 ==> |res| > 0)
    {
      ghost var before := res;
      res := MapSet(res, ranked[i].address, distr[i]);
      MapSetVisited(ranked, distr, i, before, res);
      if distinct {
        FreshRankedAddress(ranked, distr, before, i, res);
      }
    }
    AllVisited(ranked, distr, lo, hi, res);
  }

  /** Once every amount is visited, the map's values are amounts (so within their bounds), and the visited
      addresses are addresses of the ranked pairs. */
  lemma AllVisited(ranked: seq<KashiPairAmounts>, distr: seq<real>, lo: real, hi: real, res: seq<(string, real)>)
    requires |distr| <= |ranked| && forall j :: 0 <= j < |distr| ==> lo <= distr[j] <= hi
    requires forall j :: 0 <= j < |res| ==> res[j].1 in distr[..|distr|]
    ensures Addresses(ranked[..|distr|]) <= Addresses(ranked)
    ensures forall j :: 0 <= j < |res| ==> res[j].1 in distr && lo <= res[j].1 <= hi
  {
    assert distr[..|distr|] == distr;
    forall a | a in Addresses(ranked[..|distr|]) ensures a in Addresses(ranked) {
      var k :| 0 <= k < |distr| && ranked[..|distr|][k].address == a;
      assert ranked[k].address == a;
    }
  }

  /** Setting the `i`-th visited pair's address to its amount keeps the map's keys among the visited
      addresses and its values among the visited amounts. */
  lemma MapSetVisited(ranked: seq<KashiPairAmounts>, distr: seq<real>, i: nat,
                      m: seq<(string, real)>, r: seq<(string, real)>)
    requires i < |distr| <= |ranked|
    requires Keys(m) <= Addresses(ranked[..i])
    requires forall j :: 0 <= j < |m| ==> m[j].1 in distr[..i]
    requires r == MapSet(m, ranked[i].address, distr[i])
    ensures Keys(r) <= Addresses(ranked[..i + 1])
    ensures forall j :: 0 <= j < |r| ==> r[j].1 in distr[..i + 1]
  {
    assert ranked[..i + 1] == ranked[..i] + [ranked[i]];
    assert distr[..i + 1] == distr[..i] + [distr[i]];
    assert Addresses(ranked[..i + 1]) == Addresses(ranked[..i]) + {ranked[i].address};
  }

  /** With distinct addresses, the next ranked address is not yet a key of a map holding the earlier ones. */
  lemma FreshRankedAddress(ranked: seq<KashiPairAmounts>, distr: seq<real>, m: seq<(string, real)>, i: nat,
                           r: seq<(string, real)>)
    requires DistinctAddresses(ranked) && i < |distr| <= |ranked| && |m| == i
    requires forall k :: 0 <= k < i ==> m[k] == (ranked[k].address, distr[k])
    requires r == MapSet(m, ranked[i].address, distr[i])
    ensures |r| == i + 1 && forall k :: 0 <= k < i + 1 ==> r[k] == (ranked[k].address, distr[k])
  {
    forall k | 0 <= k < i ensures m[k].0 != ranked[i].address {
      assert ranked[k].address != ranked[i].address;
    }
    assert KeyIndex(m, ranked[i].address) == -1;
  }

  lemma RankedAddresses(pairs: seq<KashiPairAmounts>, order: seq<nat>)
    requires InRange(order, |pairs|)
    ensures Addresses(Ranked(pairs, order)) <= Addresses(pairs)
  {
    var ranked := Ranked(pairs, order);
    forall a | a in Addresses(ranked) ensures a in Addresses(pairs) {
      var k :| 0 <= k < |ranked| && ranked[k].address == a;
      assert pairs[order[k]].address == a;
    }
  }

  /** What lines 112-149 produce for two or more pairs and a positive amount: `ranked` is the pairs in the
      corrected order, and (`loop`, `remaining`) the equalising loop's outcome over them. For distinct
      addresses the map's entries are the ranked addresses with the loop's amounts, plus an equal part of any
      leftover for each of the first `maxPairs` pairs, and they add up to the deposit. */
  predicate RankedAllocation(assetAmount: real, pairs: seq<KashiPairAmounts>, depositCost: real,
                             res: seq<(string, real)>, ranked: seq<KashiPairAmounts>, loop: seq<real>, remaining: real)
    requires |pairs| >= 2 && assetAmount > 0.0
  {
    var maxPairs := MaxPairs(assetAmount, depositCost, |pairs|);
    var r := Rank(Utilizations(pairs));
    && ranked == Ranked(pairs, r.order) && |res| <= |ranked|
    && LoopOutcome(Lended(ranked), Borrowed(ranked), r.nexts, maxPairs, assetAmount, loop, remaining)
    && (DistinctAddresses(pairs) ==>
          && Sum(Values(res)) == assetAmount
          && (forall k :: 0 <= k < |res| ==> res[k].0 == ranked[k].address)
          && (remaining > 0.0 ==> Spread(Values(res), loop, remaining, maxPairs))
          && (remaining == 0.0 ==> Values(res) == loop))
  }

  /** Lines 112-149 for two or more pairs and a positive amount: rank, distribute, build the map. */
  method AllocateRanked(assetAmount: real, pairs: seq<KashiPairAmounts>, depositCost: real)
    returns (res: seq<(string, real)>, ghost ranked: seq<KashiPairAmounts>, ghost loop: seq<real>, ghost remaining: real)
    requires |pairs| >= 2 && assetAmount > 0.0 && NonNegativeFigures(pairs)
    ensures DistinctKeys(res) && Keys(res) <= Addresses(pairs)
    ensures forall j :: 0 <= j < |res| ==> 0.0 <= res[j].1 <= assetAmount
    ensures 0 < |res| <= MaxPairs(assetAmount, depositCost, |pairs|)
    ensures RankedAllocation(assetAmount, pairs, depositCost, res, ranked, loop, remaining)
  {
    var maxPairs := MaxPairs(assetAmount, depositCost, |pairs|);
    var rankedPairs, nexts := RankPairs(pairs);
    var distr;
    ranked := rankedPairs;
    distr, loop, remaining := Distribute(Lended(rankedPairs), Borrowed(rankedPairs), nexts, maxPairs, assetAmount);
    forall j | 0 <= j < |distr| ensures 0.0 <= distr[j] <= assetAmount {
      ElementAtMostSum(distr, j);
    }
    res := ToMap(rankedPairs, distr, 0.0, assetAmount);
  }

  /** `addLiquidityStable`, with the corrected ranking, the corrected `lendAcc` and the leftover spread over
      `maxPairs` pairs: nothing for no pairs or a non-positive amount, everything to a lone pair; otherwise
      the map from at most `maxPairs` ranked pairs' addresses to their amounts, each between zero and the
      deposit, as `RankedAllocation` describes. */
  method AddLiquidityStable(assetAmount: real, pairs: seq<KashiPairAmounts>, depositCost: real)
    returns (res: seq<(string, real)>, ghost ranked: seq<KashiPairAmounts>, ghost loop: seq<real>, ghost remaining: real)
    requires NonNegativeFigures(pairs)
    ensures |pairs| == 0 || assetAmount <= 0.0 ==> res == []
    ensures |pairs| == 1 && assetAmount > 0.0 ==> res == [(pairs[0].address, assetAmount)]
    ensures DistinctKeys(res) && Keys(res) <= Addresses(pairs)
    ensures forall j :: 0 <= j < |res| ==> 0.0 <= res[j].1 <= assetAmount
    ensures |pairs| > 0 && assetAmount > 0.0 ==> 0 < |res| <= MaxPairs(assetAmount, depositCost, |pairs|)
    ensures |pairs| > 0 && assetAmount > 0.0 && DistinctAddresses(pairs) ==> Sum(Values(res)) == assetAmount
    ensures |pairs| >= 2 && assetAmount > 0.0 ==> RankedAllocation(assetAmount, pairs, depositCost, res, ranked, loop, remaining)
  {
    ranked, loop, remaining := pairs, [], 0.0;
    if |pairs| == 0 || assetAmount <= 0.0 {
      return [], ranked, loop, remaining;
    }
    if |pairs| == 1 {
      res := MapSet([], pairs[0].address, assetAmount);
      assert Keys(res) == {pairs[0].address};
      assert Values(res) == [assetAmount];
      assert Sum([assetAmount]) == Sum([]) + assetAmount;
      return;
    }
    res, ranked, loop, remaining := AllocateRanked(assetAmount, pairs, depositCost);
  }
}
