/** Facts about multiplication and remainders that the solver does not find by itself. */
module Arithmetic {

  lemma {:induction false} MulLe(d: nat, a: nat, b: nat)
    requires a <= b
    ensures 0 <= d * a <= d * b
  {
  }

  lemma {:induction false} SmallMod(x: nat, n: nat)
    requires x < n
    ensures x % n == x
  {
  }

  lemma {:induction false} SameQuotient(n: nat, a: nat, b: nat, c: nat, d: nat)
    requires b < n && d < n && n * a + b == n * c + d
    ensures a == c && b == d
  {
    if a < c {
      MulLe(n, a + 1, c);
    } else if c < a {
      MulLe(n, c + 1, a);
    }
  }

  lemma {:induction false} AddOnce(y: nat, n: nat)
    requires n > 0
    ensures (y + n) % n == y % n
  {
    var a, b, c, d := (y + n) / n, (y + n) % n, y / n, y % n;
    assert n * a + b == y + n && n * c + d == y;
    assert n * (c + 1) == n * c + n;
    SameQuotient(n, a, b, c + 1, d);
  }

  lemma {:induction false} ModShift(x: nat, q: nat, n: nat)
    requires n > 0
    ensures (x + q * n) % n == x % n
  {
    if q > 0 {
      ModShift(x, q - 1, n);
      var y := x + (q - 1) * n;
      assert x + q * n == y + n;
      AddOnce(y, n);
    }
  }

  lemma {:induction false} ModAdd(x: nat, y: nat, n: nat)
    requires n > 0
    ensures (x % n + y) % n == (x + y) % n
  {
    var q := x / n;
    assert x == q * n + x % n;
    ModShift(x % n + y, q, n);
  }
}
