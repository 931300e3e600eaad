/** Python's numeric conversions on floats, written out over the reals:
    `int()` truncates toward zero, while `//` and `%` floor. */
module PyNum {
  /** `int(x)` for a float `x`: truncation toward zero. */
  function Trunc(x: real): (r: int)
    ensures 0.0 <= x ==> r as real <= x < r as real + 1.0
    ensures x < 0.0 ==> r as real - 1.0 < x <= r as real
  {
    if x >= 0.0 then x.Floor else -((-x).Floor)
  }

  /** The floor of a real is the one integer at most it and within one of it. */
  lemma FloorUnique(x: real, n: int)
    requires n as real <= x < n as real + 1.0
    ensures x.Floor == n
  {
  }

  /** `x // d` for a positive float divisor: the floor of the quotient. */
  function FloorDiv(x: real, d: real): (r: int)
    requires d > 0.0
    ensures d * r as real <= x < d * (r as real + 1.0)
  {
    var q := x / d;
    var f := q.Floor;
    assert d * q == x;
    ScaleLe(f as real, q, d);
    ScaleLt(q, f as real + 1.0, d);
    assert x < d * (f as real + 1.0);
    f
  }

  lemma ScaleLe(a: real, b: real, d: real)
    requires d > 0.0 && a <= b
    ensures d * a <= d * b
  {
    assert d * b - d * a == d * (b - a);
  }

  lemma ScaleLt(a: real, b: real, d: real)
    requires d > 0.0 && a < b
    ensures d * a < d * b
  {
    assert d * b - d * a == d * (b - a);
  }

  /** `x % d` for a positive float divisor: the remainder after floor division,
      which is never negative. */
  function FloatMod(x: real, d: real): (r: real)
    requires d > 0.0
    ensures 0.0 <= r < d
    ensures x == d * FloorDiv(x, d) as real + r
  {
    x - d * FloorDiv(x, d) as real
  }

  /** Dividing both sides of a strict inequality by a positive factor. */
  lemma UnscaleLt(a: real, b: real, d: real)
    requires d > 0.0 && d * a < d * b
    ensures a < b
  {
    if b <= a {
      ScaleLe(b, a, d);
    }
  }

  /** Floor division by a positive divisor is pinned by the bracket it satisfies. */
  lemma FloorDivUnique(x: real, d: real, n: int)
    requires d > 0.0
    requires d * n as real <= x < d * (n as real + 1.0)
    ensures FloorDiv(x, d) == n
  {
    var k := FloorDiv(x, d);
    UnscaleLt(n as real, k as real + 1.0, d);
    UnscaleLt(k as real, n as real + 1.0, d);
  }
}
