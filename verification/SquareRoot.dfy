/** The library square root on exact reals, known only by its contract. */
module SquareRoot {

  type Root = real -> real

  ghost predicate RootOk(sqrt: Root) {
    forall x :: x >= 0.0 ==> sqrt(x) >= 0.0 && sqrt(x) * sqrt(x) == x
  }

  lemma RootIs(sqrt: Root, x: real)
    requires RootOk(sqrt) && x >= 0.0
    ensures sqrt(x) >= 0.0 && sqrt(x) * sqrt(x) == x
  {
  }

  lemma Squares(a: real, b: real)
    requires 0.0 <= a < b
    ensures a * a < b * b
  {
    assert (b - a) * b > 0.0 && (b - a) * a >= 0.0;
  }

  lemma RootMonotone(sqrt: Root, x: real, y: real)
    requires RootOk(sqrt) && 0.0 <= x <= y
    ensures sqrt(x) <= sqrt(y)
  {
    if sqrt(x) > sqrt(y) { Squares(sqrt(y), sqrt(x)); }
  }

  /** A root is zero exactly at zero. */
  lemma RootZero(sqrt: Root, x: real)
    requires RootOk(sqrt) && x >= 0.0
    ensures sqrt(x) == 0.0 <==> x == 0.0
  {
    RootIs(sqrt, x);
    if x == 0.0 && sqrt(x) > 0.0 { Squares(0.0, sqrt(x)); }
  }
}
