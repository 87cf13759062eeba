/** Quotients and products of natural numbers, as the other modules need them. */
module Division {
  function Min(a: nat, b: nat): (m: nat) {
    if a < b then a else b
  }

  function Quotient(a: nat, p: nat): (q: nat)
    requires p > 0
  {
    QuotientNonNegative(a, p);
    a / p
  }

  lemma QuotientNonNegative(a: nat, p: nat)
    requires p > 0
    ensures a / p >= 0
  {
  }

  function Product(a: nat, b: nat): (p: nat) {
    ProductNonNegative(a, b);
    a * b
  }

  lemma ProductNonNegative(a: nat, b: nat)
    ensures a * b >= 0
  {
  }

  lemma QuotientUnique(a: nat, d: nat, q: nat, r: nat)
    requires d > 0 && r < d && a == d * q + r
    ensures Quotient(a, d) == q && a % d == r
  {
    var p := a / d;
    assert a == d * p + a % d;
    assert d * (p - q) == r - a % d;
    Between(d, p - q, r - a % d);
  }

  lemma Between(d: int, k: int, r: int)
    requires d > 0 && d * k == r && -d < r < d
    ensures k == 0
  {
    assert k > 0 ==> d * k >= d;
    assert k < 0 ==> d * k <= -d;
  }

  lemma QuotientRemainder(a: nat, d: nat)
    requires d > 0
    ensures a == d * Quotient(a, d) + a % d
  {
  }

  lemma QuotientTwice(a: nat, x: nat, y: nat)
    requires x > 0 && y > 0
    ensures x * y > 0 && Quotient(a, x * y) == Quotient(Quotient(a, x), y)
  {
    hide Quotient;
    var q := Quotient(a, x);
    var p := Quotient(q, y);
    QuotientRemainder(a, x);
    QuotientRemainder(q, y);
    Regroup(x, y, p, q % y);
    RegroupBounds(x, y, a % x, q % y);
    QuotientUnique(a, x * y, p, x * (q % y) + a % x);
  }

  lemma Regroup(x: int, y: int, p: int, m: int)
    ensures x * (y * p + m) == (x * y) * p + x * m
  {
    assert x * (y * p) == (x * y) * p;
  }

  lemma RegroupBounds(x: int, y: int, r: int, m: int)
    requires 0 <= r < x && 0 <= m < y
    ensures 0 <= x * m + r < x * y
  {
    TimesMonotone(x, 0, m);
    TimesMonotone(x, m + 1, y);
    assert x * (m + 1) == x * m + x;
  }

  lemma TimesMonotone(x: int, a: int, b: int)
    requires 0 <= x && a <= b
    ensures x * a <= x * b
  {
    assert x * (b - a) >= 0;
    assert x * (b - a) == x * b - x * a;
  }

  lemma ProductCancels(p: nat, q: nat, x: nat)
    requires x > 0 && Product(p, x) == Product(q, x)
    ensures p == q
  {
    assert x * (p - q) == 0;
    Between(x, p - q, 0);
  }

  predicate Multiple(n: nat, m: nat)
    requires m > 0
  {
    n % m == 0
  }

  lemma ZeroMultiple(m: nat)
    requires m > 0
    ensures Multiple(0, m) && Multiple(m, m)
  {
  }

  lemma SumMultiple(a: nat, b: nat, m: nat)
    requires m > 0 && Multiple(a, m) && Multiple(b, m)
    ensures Multiple(a + b, m)
  {
    hide Quotient;
    QuotientRemainder(a, m);
    QuotientRemainder(b, m);
    assert m * Quotient(a, m) + m * Quotient(b, m) == m * (Quotient(a, m) + Quotient(b, m));
    QuotientUnique(a + b, m, Quotient(a, m) + Quotient(b, m), 0);
  }

  lemma DifferenceMultiple(a: nat, b: nat, m: nat)
    requires m > 0 && Multiple(a, m) && Multiple(b, m) && b <= a
    ensures Multiple(a - b, m)
  {
    hide Quotient;
    QuotientRemainder(a, m);
    QuotientRemainder(b, m);
    var k := Quotient(a, m) - Quotient(b, m);
    assert m * k == a - b;
    assert k < 0 ==> m * k < 0;
    QuotientUnique(a - b, m, k, 0);
  }

  /** Below one multiple there is room up to the next. */
  lemma RoomBelow(a: nat, b: nat, m: nat)
    requires m > 0 && Multiple(a, m) && Multiple(b, m) && a < b
    ensures a + m <= b
  {
    hide Quotient;
    DifferenceMultiple(b, a, m);
    QuotientRemainder(b - a, m);
    var k := Quotient(b - a, m);
    assert k >= 1 by { assert k == 0 ==> m * k == 0; }
    assert m * k >= m;
  }
}
