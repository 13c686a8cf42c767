/** The vault's share/amount ratio of src/Rebase.ts. */
module Rebase {
  import opened BigNum

  /** A ratio `elastic : base`. The fields are set once by the constructor; no member changes them. */
  class Rebase {
    const elastic: int
    const base: int

    constructor (elastic: int, base: int)
      ensures this.elastic == elastic && this.base == base
    {
      this.elastic := elastic;
      this.base := base;
    }

    /** Converts an elastic quantity to base units; an empty ratio (elastic 0) is the identity. */
    function ToBase(x: int): (r: int)
      ensures elastic == 0 ==> r == x
      ensures elastic != 0 ==> r == TruncDiv(x * base, elastic)
      ensures elastic > 0 && base >= 0 && x >= 0 ==> 0 <= r && r * elastic <= x * base < (r + 1) * elastic
    {
      if elastic == 0 then x else TruncDiv(x * base, elastic)
    }

    /** Converts a base quantity to elastic units; an empty ratio (base 0) is the identity. */
    function ToElastic(x: int): (r: int)
      ensures base == 0 ==> r == x
      ensures base != 0 ==> r == TruncDiv(x * elastic, base)
      ensures base > 0 && elastic >= 0 && x >= 0 ==> 0 <= r && r * base <= x * elastic < (r + 1) * base
    {
      if base == 0 then x else TruncDiv(x * elastic, base)
    }
  }

  /** With non-negative totals both conversions send 0 to 0. */
  lemma ZeroToZero(r: Rebase)
    requires r.elastic >= 0 && r.base >= 0
    ensures r.ToBase(0) == 0 && r.ToElastic(0) == 0
  {
  }

  /** Floor of a non-negative quotient is monotone in the numerator. */
  lemma FloorDivMonotone(x: int, y: int, d: int)
    requires 0 <= x <= y && d > 0
    ensures x / d <= y / d
  {
    DivBrackets(x, d);
    DivBrackets(y, d);
    CancelFactor(x / d, y / d + 1, d);
  }

  /** With non-negative totals, ToBase is monotone non-decreasing on non-negative arguments. */
  lemma ToBaseMonotone(r: Rebase, x: int, y: int)
    requires r.elastic >= 0 && r.base >= 0
    requires 0 <= x <= y
    ensures r.ToBase(x) <= r.ToBase(y)
  {
    if r.elastic != 0 {
      assert x * r.base <= y * r.base;
      FloorDivMonotone(x * r.base, y * r.base, r.elastic);
    }
  }

  /** With non-negative totals, ToElastic is monotone non-decreasing on non-negative arguments. */
  lemma ToElasticMonotone(r: Rebase, x: int, y: int)
    requires r.elastic >= 0 && r.base >= 0
    requires 0 <= x <= y
    ensures r.ToElastic(x) <= r.ToElastic(y)
  {
    if r.base != 0 {
      assert x * r.elastic <= y * r.elastic;
      FloorDivMonotone(x * r.elastic, y * r.elastic, r.base);
    }
  }

  /** Both conversions round down, so converting to base and back never gains anything. */
  lemma RoundTripNeverGains(r: Rebase, x: int)
    requires r.elastic > 0 && r.base > 0 && x >= 0
    ensures r.ToElastic(r.ToBase(x)) <= x
  {
    var y := r.ToBase(x);
    var z := r.ToElastic(y);
    BelowAfterScaling(z, y, x, r.elastic, r.base);
  }

  /** If `z * b <= y * e <= x * b` for a positive `b`, then `z <= x`. */
  lemma BelowAfterScaling(z: int, y: int, x: int, e: int, b: int)
    requires b > 0 && z * b <= y * e <= x * b
    ensures z <= x
  {
    assert (x + 1) * b == x * b + b;
    CancelFactor(z, x + 1, b);
  }
}
