/** Division and multiplication by a variable, in the few forms the conversions need. */
module Arithmetic {

  lemma MulMono(x: int, y: int, f: nat)
    requires x <= y
    ensures x * f <= y * f
  {
  }

  lemma MulCancel(x: int, y: int, f: int)
    requires f > 0 && x * f < y * f + f
    ensures x <= y
  {
    if y < x {
      MulMono(y + 1, x, f);
    }
  }

  /** A quotient is known by its bounds. */
  lemma DivIs(a: int, f: int, q: int)
    requires f > 0 && q * f <= a < q * f + f
    ensures a / f == q
  {
    var d := a / f;
    DivBounds(a, f);
    MulCancel(d, q, f);
    MulCancel(q, d, f);
  }

  lemma DivBounds(a: int, f: int)
    requires f > 0
    ensures (a / f) * f <= a < (a / f) * f + f
  {
  }

  lemma DivMono(a: int, b: int, f: int)
    requires f > 0 && a <= b
    ensures a / f <= b / f
  {
    DivBounds(a, f);
    DivBounds(b, f);
    MulCancel(a / f, b / f, f);
  }

  lemma DivShift(r: int, q: int, f: int)
    requires f > 0
    ensures (q * f + r) / f == q + r / f
  {
    DivBounds(r, f);
    DivIs(q * f + r, f, q + r / f);
  }

  lemma DivAtMost(a: nat, f: int)
    requires f > 0
    ensures 0 <= a / f <= a
  {
    DivBounds(a, f);
    MulCancel(0, a / f, f);
    MulMono(1, f, a / f);
  }

  /** Scaling by 1000 before or after the division differs by less than 1000. */
  lemma DivScale(a: nat, f: int)
    requires f > 0
    ensures 0 <= (1000 * a) / f - 1000 * (a / f) < 1000
  {
    var d, q := (1000 * a) / f, a / f;
    DivBounds(a, f);
    DivBounds(1000 * a, f);
    var qf := q * f;
    assert (1000 * q) * f == 1000 * qf;
    assert (1000 * q + 999) * f == 1000 * qf + 999 * f;
    MulCancel(1000 * q, d, f);
    MulCancel(d, 1000 * q + 999, f);
  }

  lemma DivDrop(a: nat, w: nat, f: int)
    requires 0 < f <= w <= a
    ensures (a - w) / f < a / f
  {
    DivMono(a - w, a - f, f);
    DivShift(a - f, 1, f);
  }
}
