/** Integer arithmetic as the two backends perform it. Dafny's `/` and `%` are Euclidean;
    Go's int64 `/` and `%` truncate toward zero, and JavaScript's `Math.ceil(a / b)` rounds
    the exact quotient up. */
module Numbers {

  function Abs(a: int): (r: int)
    ensures r >= 0 && (r == a || r == -a)
  {
    if a < 0 then -a else a
  }

  /** Go's `a / b`: the quotient truncated toward zero (b == 0 panics; callers exclude it). */
  function TruncDiv(a: int, b: int): int
    requires b != 0
  {
    if (a < 0) == (b < 0) then Abs(a) / Abs(b) else -(Abs(a) / Abs(b))
  }

  /** Go's `a % b`: the remainder whose sign follows the dividend. */
  function TruncRem(a: int, b: int): (r: int)
    requires b != 0
    ensures a >= 0 ==> 0 <= r < Abs(b)
    ensures a < 0 ==> -Abs(b) < r <= 0
  {
    if a < 0 then -(Abs(a) % Abs(b)) else a % Abs(b)
  }

  /** The two Go operators fit together as `a == b * (a / b) + a % b`. */
  lemma DivRem(a: int, b: int)
    requires b != 0
    ensures a == b * TruncDiv(a, b) + TruncRem(a, b)
  {
    var m: int, n: int := Abs(a), Abs(b);
    var q: int, r: int := m / n, m % n;
    assert m == n * q + r;
    if a >= 0 && b > 0 {
      assert TruncDiv(a, b) == q && TruncRem(a, b) == r;
    } else if a >= 0 {
      assert TruncDiv(a, b) == -q && TruncRem(a, b) == r && b == -n;
      assert b * (-q) == n * q;
    } else if b > 0 {
      assert TruncDiv(a, b) == -q && TruncRem(a, b) == -r && a == -m;
      assert b * (-q) == -(n * q);
    } else {
      assert TruncDiv(a, b) == q && TruncRem(a, b) == -r && a == -m && b == -n;
      assert b * q == -(n * q);
    }
  }

  /** The exact ceiling of a / b, which `Math.ceil(a / b)` computes for operands small
      enough to be represented exactly. */
  function CeilDiv(a: int, b: int): (c: int)
    requires b != 0
    ensures b > 0 ==> (c - 1) * b < a <= c * b
    ensures b < 0 ==> (c - 1) * b > a >= c * b
  {
    if b > 0 then
      var f := (-a) / b;
      assert f * b <= -a < f * b + b;
      -f
    else
      var f := a / (-b);
      assert f * (-b) <= a < f * (-b) + (-b);
      -f
  }
}
