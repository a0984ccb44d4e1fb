/** Machine word sizes, powers, and the arithmetic of steps around a circle. */
module Arithmetic {

  const U16: nat := 0x1_0000
  const U32: nat := 0x1_0000_0000

  function Power(b: nat, k: nat): (r: nat)
    ensures b > 0 ==> r > 0
  {
    if k == 0 then 1 else b * Power(b, k - 1)
  }

  // ----- products

  lemma Distribute(k: int, a: int, b: int)
    ensures k * (a + b) == k * a + k * b
  {}

  lemma Spread(k: int, a: int, b: int)
    ensures k * (a - b) == k * a - k * b
  {}

  lemma Associate(a: int, b: int, c: int)
    ensures a * b * c == a * (b * c)
  {}

  lemma Commute(a: int, b: int)
    ensures a * b == b * a
  {}

  lemma TwiceIsEven(h: int)
    ensures 2 * h % 2 == 0
  {}

  lemma MulMono(a: int, b: int, n: nat)
    requires a <= b
    ensures a * n <= b * n
  {
    assert (b - a) * n >= 0;
  }

  lemma Grows(n: nat, d: int)
    requires n > 0
    ensures d > 0 ==> n * d >= n
    ensures d < 0 ==> n * d + n <= 0
  {}

  lemma Cancel(n: nat, a: int, b: int)
    requires n > 0 && n * a == n * b
    ensures a == b
  {
    Spread(n, a, b);
    Grows(n, a - b);
  }

  lemma Multiple(k: nat, n: nat, m: int)
    requires 0 < k < n
    ensures k != n * m
  {
    Grows(n, m);
  }

  // ----- quotients and remainders

  lemma Division(a: int, n: nat)
    requires n > 0
    ensures a == n * (a / n) + a % n
  {}

  lemma DivIs(x: int, n: nat, q: int, r: int)
    requires n > 0 && x == n * q + r && 0 <= r < n
    ensures x / n == q && x % n == r
  {
    Division(x, n);
    Spread(n, x / n, q);
    Grows(n, x / n - q);
  }

  lemma SmallMod(x: nat, n: nat)
    requires x < n
    ensures x % n == x
  {}

  lemma ModAdd(x: int, n: nat, q: int)
    requires n > 0
    ensures (n * q + x) % n == x % n
  {
    Division(x, n);
    Distribute(n, q, x / n);
    DivIs(n * q + x, n, q + x / n, x % n);
  }

  lemma SameRemainder(a: int, b: int, n: nat)
    requires n > 0 && a % n == b % n
    ensures b - a == n * (b / n - a / n)
  {
    Division(a, n);
    Division(b, n);
    Spread(n, b / n, a / n);
  }

  /** Reducing by a multiple of n first makes no difference. */
  lemma ModMod(x: int, n: nat, u: nat)
    requires n > 0 && u > 0 && u % n == 0
    ensures x % u % n == x % n
  {
    var q := x / u;
    Division(x, u);
    Division(u, n);
    Associate(n, u / n, q);
    ModAdd(x % u, n, u / n * q);
  }

  // ----- the greatest common divisor

  function Gcd(a: nat, b: nat): nat
    decreases b
  {
    if b == 0 then a else Gcd(b, a % b)
  }

  lemma {:induction false} Bezout(a: nat, b: nat) returns (x: int, y: int)
    ensures a * x + b * y == Gcd(a, b)
    decreases b
  {
    if b == 0 {
      x, y := 1, 0;
    } else {
      var u, v := Bezout(b, a % b);
      x, y := v, u - a / b * v;
      Division(a, b);
      Regroup(a, b, a / b, a % b, u, v);
    }
  }

  lemma Regroup(a: int, b: int, q: int, m: int, u: int, v: int)
    requires a == b * q + m
    ensures a * v + b * (u - q * v) == b * u + m * v
  {
    assert a * v == b * q * v + m * v;
    Associate(b, q, v);
    Spread(b, u, q * v);
  }

  lemma {:induction false} GcdDivides(a: nat, b: nat) returns (m: nat, l: nat)
    requires b > 0 || a > 0
    ensures Gcd(a, b) > 0 && a == Gcd(a, b) * m && b == Gcd(a, b) * l
    decreases b
  {
    if b == 0 {
      m, l := 1, 0;
    } else {
      var g, q := Gcd(a, b), a / b;
      var m', l' := GcdDivides(b, a % b);
      m, l := m' * q + l', m';
      Division(a, b);
      Associate(g, m', q);
      Distribute(g, m' * q, l');
    }
  }

  /** If n divides k * step, it divides k times any combination of step and n. */
  lemma Combine(k: int, step: int, n: int, x: int, y: int, q: int)
    requires k * step == n * q
    ensures k * (step * x + n * y) == n * (q * x + k * y)
  {
    Distribute(k, step * x, n * y);
    Associate(k, step, x);
    Associate(n, q, x);
    Associate(k, n, y);
    Commute(k, n);
    Associate(n, k, y);
    Distribute(n, q * x, k * y);
  }

  // ----- going round n places in equal steps

  lemma GcdPositive(a: nat, b: nat)
    requires b > 0 || a > 0
    ensures Gcd(a, b) > 0
  {
    var m, l := GcdDivides(a, b);
  }

  /** Steps until a place comes round again. */
  function Turn(step: nat, n: nat): nat
    requires n > 0
  {
    GcdPositive(step, n);
    n / Gcd(step, n)
  }

  lemma TurnIs(step: nat, n: nat) returns (m: nat)
    requires n > 0
    ensures Gcd(step, n) > 0 && 0 < Turn(step, n) <= n
    ensures n == Gcd(step, n) * Turn(step, n) && step == Gcd(step, n) * m
  {
    hide Gcd;
    var g := Gcd(step, n);
    var l;
    m, l := GcdDivides(step, n);
    DivIs(n, g, l, 0);
    Grows(g, l);
    if l > 0 { Grows(l, g); Commute(l, g); }
  }

  /** Nothing comes round before that. */
  lemma NoEarlyReturn(n: nat, step: nat, k: nat, q: int)
    requires n > 0 && 0 < k < Turn(step, n)
    ensures k * step != n * q
  {
    hide Gcd, Turn;
    var g, t := Gcd(step, n), Turn(step, n);
    var m := TurnIs(step, n);
    var x, y := Bezout(step, n);
    var z := q * x + k * y;
    Multiple(k, t, z);
    if k * step == n * q {
      Combine(k, step, n, x, y, q);
      Associate(g, t, z);
      Commute(k, g);
      Cancel(g, k, t * z);
    }
  }

  /** Everything does then. */
  lemma FullTurn(n: nat, step: nat) returns (m: nat)
    requires n > 0
    ensures Turn(step, n) * step == n * m
  {
    hide Gcd, Turn;
    m := TurnIs(step, n);
    var g, t := Gcd(step, n), Turn(step, n);
    Commute(t, step);
    Associate(g, m, t);
    Commute(m, t);
    Associate(g, t, m);
  }
}
