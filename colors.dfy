/** Colours as (r, g, b, a) values over the reals, with the operators of the
    renderer's colour type and its clamp. Channels are not kept in [0, 1] by
    the arithmetic; Clamp bounds them from above only. */
module Colors {

  import opened Reals

  datatype Color = Color(r: real, g: real, b: real, a: real)

  /** The default constructor: all four channels 0, alpha included. */
  function Default(): Color
  {
    Color(0.0, 0.0, 0.0, 0.0)
  }

  function Add(c: Color, d: Color): Color
  {
    Color(c.r + d.r, c.g + d.g, c.b + d.b, c.a + d.a)
  }

  /** Scaling by a number multiplies all four channels, alpha included. */
  function Scale(c: Color, s: real): Color
  {
    Color(c.r * s, c.g * s, c.b * s, c.a * s)
  }

  /** Channel-by-channel product, alpha included. */
  function Mul(c: Color, d: Color): Color
  {
    Color(c.r * d.r, c.g * d.g, c.b * d.b, c.a * d.a)
  }

  /** Division by an integer: r, g and b are divided, alpha is reset to 1. */
  function DivInt(c: Color, divider: int): Color
    requires divider != 0
  {
    Color(c.r / divider as real, c.g / divider as real, c.b / divider as real, 1.0)
  }

  /** The comparison operator: the mean of r, g and b exceeds `o`. */
  predicate Exceeds(c: Color, o: real)
  {
    (c.r + c.g + c.b) / 3.0 > o
  }

  /** Every channel at most 1 -- the only bound Clamp establishes. */
  predicate AtMostOne(c: Color)
  {
    c.r <= 1.0 && c.g <= 1.0 && c.b <= 1.0 && c.a <= 1.0
  }

  /** Lowers every channel above 1.0 to 1.0 and leaves the others alone. */
  function Clamp(c: Color): (k: Color)
    ensures AtMostOne(k)
    ensures c.r <= 1.0 ==> k.r == c.r
    ensures c.g <= 1.0 ==> k.g == c.g
    ensures c.b <= 1.0 ==> k.b == c.b
    ensures c.a <= 1.0 ==> k.a == c.a
    ensures c.r > 1.0 ==> k.r == 1.0
    ensures c.g > 1.0 ==> k.g == 1.0
    ensures c.b > 1.0 ==> k.b == 1.0
    ensures c.a > 1.0 ==> k.a == 1.0
  {
    Color(Min(c.r, 1.0), Min(c.g, 1.0), Min(c.b, 1.0), Min(c.a, 1.0))
  }

  // ---------------------------------------------------------------------
  // Lemmas

  lemma DefaultIsZero(c: Color)
    ensures Default().a == 0.0
    ensures Add(Default(), c) == c && Add(c, Default()) == c
    ensures Mul(Default(), c) == Default()
  {
  }

  lemma AddCommutative(c: Color, d: Color)
    ensures Add(c, d) == Add(d, c)
  {
  }

  lemma AddAssociative(c: Color, d: Color, e: Color)
    ensures Add(Add(c, d), e) == Add(c, Add(d, e))
  {
  }

  lemma MulCommutative(c: Color, d: Color)
    ensures Mul(c, d) == Mul(d, c)
  {
  }

  lemma ScaleDistributes(c: Color, d: Color, s: real)
    ensures Scale(Add(c, d), s) == Add(Scale(c, s), Scale(d, s))
    ensures Scale(c, s) == Mul(c, Color(s, s, s, s))
  {
  }

  /** Dividing by an integer forgets alpha: two colours that differ only in
      alpha give the same quotient, whose alpha is exactly 1. */
  lemma DivIntResetsAlpha(c: Color, alpha: real, divider: int)
    requires divider != 0
    ensures DivInt(c, divider).a == 1.0
    ensures DivInt(c.(a := alpha), divider) == DivInt(c, divider)
    ensures Scale(DivInt(c, divider), divider as real) == Color(c.r, c.g, c.b, divider as real)
  {
  }

  lemma ExceedsIgnoresAlpha(c: Color, alpha: real, o: real)
    ensures Exceeds(c.(a := alpha), o) == Exceeds(c, o)
    ensures Exceeds(c, o) <==> c.r + c.g + c.b > 3.0 * o
  {
  }

  lemma ClampIdempotent(c: Color)
    ensures Clamp(Clamp(c)) == Clamp(c)
  {
  }
}
