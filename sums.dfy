/** Sums of sequences of amounts (reals) and of shares (integers). */
module Sums {

  function Sum(s: seq<real>): real
  {
    if |s| == 0 then 0.0 else Sum(s[..|s| - 1]) + s[|s| - 1]
  }

  function IntSum(s: seq<int>): int
  {
    if |s| == 0 then 0 else IntSum(s[..|s| - 1]) + s[|s| - 1]
  }

  lemma SumAppend(s: seq<real>, x: real)
    ensures Sum(s + [x]) == Sum(s) + x
  {
    assert (s + [x])[..|s|] == s;
  }

  lemma IntSumAppend(s: seq<int>, x: int)
    ensures IntSum(s + [x]) == IntSum(s) + x
  {
    assert (s + [x])[..|s|] == s;
  }

  lemma SumPrefix(s: seq<real>, j: nat)
    requires j < |s|
    ensures Sum(s[..j + 1]) == Sum(s[..j]) + s[j]
  {
    assert s[..j + 1][..j] == s[..j];
  }

  lemma IntSumPrefix(s: seq<int>, j: nat)
    requires j < |s|
    ensures IntSum(s[..j + 1]) == IntSum(s[..j]) + s[j]
  {
    assert s[..j + 1][..j] == s[..j];
  }

  /** Replacing one element changes the sum by the difference. */
  lemma {:induction false} SumUpdate(s: seq<real>, j: nat, v: real)
    requires j < |s|
    ensures Sum(s[j := v]) == Sum(s) - s[j] + v
  {
    var t := s[j := v];
    if j == |s| - 1 {
      assert t[..|t| - 1] == s[..|s| - 1];
    } else {
      assert t[..|t| - 1] == s[..|s| - 1][j := v];
      SumUpdate(s[..|s| - 1], j, v);
    }
  }

  lemma {:induction false} IntSumUpdate(s: seq<int>, j: nat, v: int)
    requires j < |s|
    ensures IntSum(s[j := v]) == IntSum(s) - s[j] + v
  {
    var t := s[j := v];
    if j == |s| - 1 {
      assert t[..|t| - 1] == s[..|s| - 1];
    } else {
      assert t[..|t| - 1] == s[..|s| - 1][j := v];
      IntSumUpdate(s[..|s| - 1], j, v);
    }
  }

  /** In a sequence of non-negative amounts no element exceeds the sum. */
  lemma {:induction false} ElementAtMostSum(s: seq<real>, j: nat)
    requires j < |s|
    requires forall k :: 0 <= k < |s| ==> s[k] >= 0.0
    ensures 0.0 <= s[j] <= Sum(s)
  {
    SumNonNegative(s[..|s| - 1]);
    if j < |s| - 1 {
      ElementAtMostSum(s[..|s| - 1], j);
    }
  }

  lemma {:induction false} SumNonNegative(s: seq<real>)
    requires forall k :: 0 <= k < |s| ==> s[k] >= 0.0
    ensures Sum(s) >= 0.0
  {
    if |s| > 0 {
      SumNonNegative(s[..|s| - 1]);
    }
  }
}
