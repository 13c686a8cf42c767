/** Integer arithmetic of ethers' BigNumber, as far as the optimiser uses it. */
module BigNum {

  function Abs(x: int): nat
  {
    if x < 0 then -x else x
  }

  /** Euclidean division of naturals brackets the numerator. */
  lemma DivBrackets(n: nat, d: nat)
    requires d > 0
    ensures 0 <= n / d
    ensures (n / d) * d <= n < (n / d + 1) * d
  {
    assert n == (n / d) * d + n % d;
  }

  /** BigNumber.div: the quotient is truncated toward zero (not floored as Dafny's `/`). */
  function TruncDiv(a: int, b: int): (q: int)
    requires b != 0
    ensures Abs(q) * Abs(b) <= Abs(a) < (Abs(q) + 1) * Abs(b)
    ensures (a < 0) == (b < 0) ==> q >= 0
    ensures (a < 0) != (b < 0) ==> q <= 0
    ensures a >= 0 && b > 0 ==> q == a / b
  {
    var na, nb := Abs(a), Abs(b);
    DivBrackets(na, nb);
    var m: int := na / nb;
    if (a < 0) == (b < 0) then m else -m
  }

  /** If `a * d < b * d` for a positive `d`, then `a < b`. */
  lemma CancelFactor(a: int, b: int, d: int)
    requires d > 0 && a * d < b * d
    ensures a < b
  {
    assert (b - a) * d == b * d - a * d;
  }
}
