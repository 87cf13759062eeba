/** Wide multiplication and saturating sums from narrow operations (riscv/arith.h), against exact integers. */
module WideArith {
  import opened Division

  const B32: int := 0x1_0000_0000
  const B64: int := 0x1_0000_0000_0000_0000
  const B63: int := 0x8000_0000_0000_0000

  function U64(n: int): (u: nat)
    ensures u < B64
  {
    n % B64
  }

  function U32(n: int): (u: nat)
    ensures u < B32
  {
    n % B32
  }

  lemma ProductBound(a: int, b: int, m: int, n: int)
    requires 0 <= a <= m && 0 <= b <= n
    ensures 0 <= a * b <= m * n
  {
    assert (m - a) * b >= 0;
    assert m * (n - b) >= 0;
    assert a * b >= 0;
    assert (m - a) * b == m * b - a * b;
    assert m * (n - b) == m * n - m * b;
  }

  /** The schoolbook product of two-digit numbers. */
  lemma Schoolbook(a0: int, a1: int, b0: int, b1: int)
    ensures (a1 * B32 + a0) * (b1 * B32 + b0) == a1 * b1 * B64 + (a1 * b0 + a0 * b1) * B32 + a0 * b0
  {
    assert (a1 * B32 + a0) * (b1 * B32 + b0) == a1 * B32 * (b1 * B32) + a1 * B32 * b0 + a0 * (b1 * B32) + a0 * b0;
    assert a1 * B32 * (b1 * B32) == a1 * b1 * B64;
    assert a1 * B32 * b0 == a1 * b0 * B32;
    assert a0 * (b1 * B32) == a0 * b1 * B32;
  }

  /** What the partial sums leave out is less than the low word. */
  lemma Assembled(p00: nat, p10: nat, p01: nat, p11: nat, t: nat, u: nat, v: nat)
    requires t == p10 + p00 / B32 && u == p01 + t % B32 && v == p11 + t / B32 + u / B32
    ensures v == (p11 * B64 + (p10 + p01) * B32 + p00) / B64
  {
    var low := u % B32 * B32 + p00 % B32;
    assert p00 == p00 / B32 * B32 + p00 % B32;
    assert t == t / B32 * B32 + t % B32;
    assert u == u / B32 * B32 + u % B32;
    assert p11 * B64 + (p10 + p01) * B32 + p00 == v * B64 + low;
    assert 0 <= low < B64;
  }

  /** The sums of mulhu over the four partial products. No sum overflows. */
  method Assemble(p00: nat, p10: nat, p01: nat, p11: nat) returns (r: nat)
    requires p00 <= (B32 - 1) * (B32 - 1) && p10 <= (B32 - 1) * (B32 - 1)
    requires p01 <= (B32 - 1) * (B32 - 1) && p11 <= (B32 - 1) * (B32 - 1)
    ensures r == (p11 * B64 + (p10 + p01) * B32 + p00) / B64 < B64
  {
    var t := p10 + p00 / B32;
    assert t < B64;
    var y1, y2 := U32(t), t / B32;
    var u := p01 + y1;
    assert u < B64;
    var v := p11 + y2 + u / B32;
    assert v < B64;
    Assembled(p00, p10, p01, p11, t, u, v);
    y2 := U32(v);
    var y3 := U32(v / B32);
    r := y3 * B32 + y2;
  }

  /** mulhu: the high word of a 64 by 64 bit product, from 32-bit digits. */
  method Mulhu(a: nat, b: nat) returns (r: nat)
    requires a < B64 && b < B64
    ensures r == a * b / B64 < B64
  {
    var a0, a1, b0, b1 := U32(a), a / B32, U32(b), b / B32;
    ProductBound(a0, b0, B32 - 1, B32 - 1);
    ProductBound(a0, b1, B32 - 1, B32 - 1);
    ProductBound(a1, b0, B32 - 1, B32 - 1);
    ProductBound(a1, b1, B32 - 1, B32 - 1);
    r := Assemble(a0 * b0, a1 * b0, a0 * b1, a1 * b1);
    Schoolbook(a0, a1, b0, b1);
    assert a1 * B32 + a0 == a && b1 * B32 + b0 == b;
  }

  // ----- signed and mixed

  predicate Signed(n: int) {
    -B63 <= n < B63
  }

  /** The two's complement value of a word. */
  function ToSigned(u: nat): (n: int)
    requires u < B64
    ensures Signed(n)
  {
    if u < B63 then u else u - B64
  }

  function Magnitude(n: int): (m: nat) {
    if n < 0 then -n else n
  }

  /** Complementing the high word, and one more when the low word is zero, is the floor of the negated product. */
  lemma NegatedHigh(p: int)
    requires 0 <= p <= B63 * B64
    ensures ToSigned(U64(B64 - 1 - p / B64 + if U64(-p) == 0 then 1 else 0)) == (-p) / B64
  {
    var q, r := p / B64, p % B64;
    assert p == q * B64 + r;
    assert (-p) / B64 == if r == 0 then -q else -q - 1;
  }

  lemma KeptHigh(p: int)
    requires 0 <= p < B63 * B64
    ensures ToSigned(p / B64) == p / B64
  {
  }

  lemma MagnitudeProduct(a: int, b: int)
    ensures a * b == if (a < 0) != (b < 0) then -(Magnitude(a) * Magnitude(b)) else Magnitude(a) * Magnitude(b)
  {
  }

  /** mulh, for all operands, the most negative included. */
  method Mulh(a: int, b: int) returns (r: int)
    requires Signed(a) && Signed(b)
    ensures r == a * b / B64
  {
    var negate := (a < 0) != (b < 0);
    MagnitudeProduct(a, b);
    ProductBound(Magnitude(a), Magnitude(b), B63, B63);
    var res := Mulhu(Magnitude(a), Magnitude(b));
    r := FromMagnitude(a * b, res, negate);
  }

  /** mulhsu */
  method Mulhsu(a: int, b: nat) returns (r: int)
    requires Signed(a) && b < B64
    ensures r == a * b / B64
  {
    MagnitudeProduct(a, b);
    ProductBound(Magnitude(a), b, B63, B64 - 1);
    var res := Mulhu(Magnitude(a), b);
    r := FromMagnitude(a * b, res, a < 0);
  }

  /** The last line of mulh and mulhsu: the low word of the product tells whether to add one. */
  method FromMagnitude(p: int, res: nat, negate: bool) returns (r: int)
    requires -(B63 * B64) <= p < B63 * B64 && (negate ==> p <= 0) && (!negate ==> p >= 0)
    requires res == Magnitude(p) / B64
    ensures r == p / B64
  {
    if negate {
      NegatedHigh(-p);
      r := ToSigned(U64(B64 - 1 - res + if U64(p) == 0 then 1 else 0));
    } else {
      KeptHigh(p);
      r := ToSigned(res);
    }
  }

  // ----- saturating sums, for signed numbers of any width: h is the weight of the sign bit

  predicate InRange(h: int, n: int) {
    -h <= n < h
  }

  /** The nearest number in range. */
  function Clamp(h: int, n: int): (r: int)
    requires h > 0
    ensures InRange(h, r)
  {
    if n < -h then -h else if n >= h then h - 1 else n
  }

  /** A word of the unsigned type, and its sign bit. */
  function Word(h: int, n: int): (u: int)
    requires h > 0
    ensures 0 <= u < 2 * h
  {
    n % (2 * h)
  }

  predicate Negative(h: int, u: int) {
    u >= h
  }

  function Reading(h: int, u: int): (n: int) {
    if u < h then u else u - 2 * h
  }

  /** One reduction suffices for a sum or difference of words. */
  lemma WordOfSum(h: int, n: int)
    requires h > 0 && -2 * h <= n < 4 * h
    ensures Word(h, n) == if n < 0 then n + 2 * h else if n < 2 * h then n else n - 2 * h
  {
    var m := 2 * h;
    if n < 0 {
      Reduce(n, m, -1);
    } else if n < m {
      Reduce(n, m, 0);
    } else {
      Reduce(n, m, 1);
    }
  }

  lemma Reduce(n: int, m: int, k: int)
    requires m > 0 && k * m <= n < (k + 1) * m && -1 <= k <= 1
    ensures n % m == n - k * m
  {
    var q := n / m;
    assert n == m * q + n % m;
    assert q < k ==> m * (k - q) >= m;
    assert q > k ==> m * (q - k) >= m;
    assert q == k;
  }

  /** The overflowed result: the largest number, or the smallest when x is negative. */
  function Limit(h: int, ux: int): (u: int)
    requires h > 0 && 0 <= ux < 2 * h
    ensures 0 <= u < 2 * h && (Negative(h, u) <==> Negative(h, ux))
  {
    (if Negative(h, ux) then 1 else 0) + (h - 1)
  }

  /** sat_add of two operands */
  method SatAdd(h: int, x: int, y: int) returns (r: int, sat: bool)
    requires h > 0 && InRange(h, x) && InRange(h, y)
    ensures r == Clamp(h, x + y)
    ensures sat <==> !InRange(h, x + y)
  {
    WordOfSum(h, x);
    WordOfSum(h, y);
    var ux, uy := Word(h, x), Word(h, y);
    WordOfSum(h, ux + uy);
    var res := Word(h, ux + uy);
    sat := false;
    ux := Limit(h, ux);
    // The sign bit of (ux ^ uy) | ~(uy ^ res).
    if !((Negative(h, ux) != Negative(h, uy)) || !(Negative(h, uy) != Negative(h, res))) {
      res := ux;
      sat := true;
    }
    r := Reading(h, res);
  }

  /** sat_add of three operands: the two of opposite sign, if any, are added first, so that the result is
      the clamp of the exact sum, and saturation is reported exactly when the sum is out of range. */
  method SatAdd3(h: int, x: int, y: int, z: int) returns (r: int, sat: bool)
    requires h > 0 && InRange(h, x) && InRange(h, y) && InRange(h, z)
    ensures r == Clamp(h, x + y + z)
    ensures sat <==> !InRange(h, x + y + z)
  {
    var a, b := y, z;
    // The sign bit of (y ^ z) & (x ^ z).
    if (y < 0) != (z < 0) && (x < 0) != (z < 0) {
      a, b := z, y;
    }
    var sat1, sat2;
    r, sat1 := SatAdd(h, x, a);
    r, sat2 := SatAdd(h, r, b);
    sat := sat1 || sat2;
  }

  /** sat_sub */
  method SatSub(h: int, x: int, y: int) returns (r: int, sat: bool)
    requires h > 0 && InRange(h, x) && InRange(h, y)
    ensures r == Clamp(h, x - y)
    ensures sat <==> !InRange(h, x - y)
  {
    WordOfSum(h, x);
    WordOfSum(h, y);
    var ux, uy := Word(h, x), Word(h, y);
    WordOfSum(h, ux - uy);
    var res := Word(h, ux - uy);
    sat := false;
    ux := Limit(h, ux);
    // The sign bit of (ux ^ uy) & (ux ^ res).
    if Negative(h, ux) != Negative(h, uy) && Negative(h, ux) != Negative(h, res) {
      res := ux;
      sat := true;
    }
    r := Reading(h, res);
  }
}
