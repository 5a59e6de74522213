/** std::min and std::max on reals, and sign facts about products of reals
    that other proofs call as hints. */
module Reals {

  /** std::min and std::max on reals: the first argument on a tie. */
  function Min(x: real, y: real): real
  {
    if y < x then y else x
  }

  function Max(x: real, y: real): real
  {
    if x < y then y else x
  }

  lemma MulPositive(a: real, b: real)
    requires a > 0.0 && b > 0.0
    ensures a * b > 0.0
  {
  }

  lemma MulNonNegative(a: real, b: real)
    requires a >= 0.0 && b >= 0.0
    ensures a * b >= 0.0
  {
    if a > 0.0 && b > 0.0 {
      MulPositive(a, b);
    }
  }

  lemma SquarePositive(x: real)
    requires x != 0.0
    ensures x * x > 0.0
  {
    if x > 0.0 {
      MulPositive(x, x);
    } else {
      MulPositive(-x, -x);
      assert (-x) * (-x) == x * x;
    }
  }

  lemma SquareNonNegative(x: real)
    ensures x * x >= 0.0
  {
    if x != 0.0 {
      SquarePositive(x);
    }
  }

  lemma PositiveSum(p: real, q: real, r: real)
    requires p >= 0.0 && q >= 0.0 && r >= 0.0
    ensures p + q + r >= 0.0
    ensures p > 0.0 || q > 0.0 || r > 0.0 ==> p + q + r > 0.0
  {
  }

  /** Multiplying by a positive number keeps the sign. */
  lemma SignKept(x: real, a: real)
    requires a > 0.0
    ensures x > 0.0 ==> x * a > 0.0
    ensures x < 0.0 ==> x * a < 0.0
    ensures x == 0.0 ==> x * a == 0.0
  {
    if x > 0.0 {
      MulPositive(x, a);
    } else if x < 0.0 {
      MulPositive(-x, a);
      assert (-x) * a == -(x * a);
    }
  }

  /** Dividing by a positive number keeps a strict order. */
  lemma DivMonotone(x: real, y: real, a: real)
    requires a > 0.0 && x < y
    ensures x / a < y / a
  {
    assert (y / a - x / a) * a == y - x;
    SignKept(y / a - x / a, a);
  }

  lemma CancelPositive(r: real, q: real)
    requires q > 0.0 && r * q == 0.0
    ensures r == 0.0
  {
    SignKept(r, q);
  }

  lemma ZeroProduct(x: real, y: real)
    requires x * y == 0.0
    ensures x == 0.0 || y == 0.0
  {
    if x > 0.0 {
      SignKept(y, x);
      assert y * x == x * y;
    } else if x < 0.0 {
      SignKept(y, -x);
      assert y * (-x) == -(x * y);
    }
  }
}
