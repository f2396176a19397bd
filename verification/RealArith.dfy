/** Small facts about products and quotients of reals that the larger proofs call by name. */
module RealArith {

  lemma DivideThenMultiply(a: real, n: real)
    requires n != 0.0
    ensures n * (a / n) == a
  {
  }

  lemma ProductSign(x: real, y: real)
    requires x >= 0.0 && y > 0.0
    ensures x * y >= 0.0 && (x > 0.0 ==> x * y > 0.0)
  {
  }

  lemma NonNegativeProduct(x: real, y: real)
    requires x >= 0.0 && y >= 0.0
    ensures x * y >= 0.0
  {
  }

  lemma SameSignProduct(x: real, y: real, product: real)
    requires (x > 0.0 && y > 0.0) || (x < 0.0 && y < 0.0)
    requires product == x * y
    ensures product > 0.0
  {
  }

  lemma NonZeroSquare(x: real, square: real)
    requires x != 0.0 && square == x * x
    ensures square > 0.0
  {
    SameSignProduct(x, x, square);
  }

  /** Dividing both sides of an inequality by a positive factor. */
  lemma CancelFactor(a: real, b: real, c: real)
    requires c > 0.0 && a * c <= b * c
    ensures a <= b
  {
    if a > b {
      SameSignProduct(a - b, c, (a - b) * c);
    }
  }

  lemma CancelFactorStrict(a: real, b: real, c: real)
    requires c > 0.0 && a * c < b * c
    ensures a < b
  {
    if a >= b {
      ProductSign(a - b, c);
    }
  }

  lemma ScaleUp(a: real, b: real, c: real)
    requires a <= b && c >= 0.0
    ensures a * c <= b * c
  {
  }
}
