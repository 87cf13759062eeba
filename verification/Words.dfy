/** Unsigned 64-bit words: their order, and naturally aligned blocks of a power-of-two size. */
module Words {
  predicate Below(x: bv64, y: bv64) {
    x < y
  }

  function Half(x: bv64): (h: bv64) {
    x >> 1
  }

  predicate Odd(x: bv64) {
    x & 1 == 1
  }

  // ----- the order, by induction over the bits

  ghost function Size(x: bv64): (n: nat)
    decreases x
  {
    if x == 0 then 0 else 1 + Size(Half(x))
  }

  lemma HalvesBelow(x: bv64, y: bv64)
    requires Below(Half(x), Half(y))
    ensures Below(x, y)
  {
  }

  lemma HalvesNotBelow(x: bv64, y: bv64)
    requires Below(x, y)
    ensures !Below(Half(y), Half(x))
  {
  }

  lemma SameHalf(x: bv64, y: bv64)
    requires Half(x) == Half(y) && Odd(x) == Odd(y)
    ensures x == y
  {
  }

  lemma LastBit(x: bv64, y: bv64)
    requires Half(x) == Half(y) && Odd(x) != Odd(y)
    ensures y == x ^ 1
  {
  }

  lemma Flipped(x: bv64)
    ensures Below(x, x ^ 1) <==> !Odd(x)
    ensures !Below(x, x)
  {
  }

  lemma SameHalves(x: bv64, y: bv64)
    requires Half(x) == Half(y)
    ensures Below(x, y) <==> !Odd(x) && Odd(y)
  {
    hide *;
    Flipped(x);
    if Odd(x) == Odd(y) { SameHalf(x, y); } else { LastBit(x, y); }
  }

  lemma HalfSmaller(x: bv64)
    requires x != 0
    ensures Size(Half(x)) < Size(x)
  {
  }

  lemma Zero(x: bv64)
    ensures !Below(x, 0) && (x != 0 ==> Below(0, x))
  {
  }

  lemma {:induction false} Total(x: bv64, y: bv64)
    ensures Below(x, y) || x == y || Below(y, x)
    decreases Size(x)
  {
    hide *;
    if x == 0 {
      Zero(y);
    } else if Half(x) != Half(y) {
      HalfSmaller(x);
      Total(Half(x), Half(y));
      if Below(Half(x), Half(y)) { HalvesBelow(x, y); } else { HalvesBelow(y, x); }
    } else {
      SameHalves(x, y);
      SameHalves(y, x);
      if Odd(x) == Odd(y) { SameHalf(x, y); }
    }
  }

  lemma {:induction false} Transitive(x: bv64, y: bv64, z: bv64)
    requires Below(x, y) && Below(y, z)
    ensures Below(x, z)
    decreases Size(z)
  {
    hide *;
    Zero(y);
    HalfSmaller(z);
    var a, b, c := Half(x), Half(y), Half(z);
    HalvesNotBelow(x, y);
    HalvesNotBelow(y, z);
    Total(a, b);
    Total(b, c);
    if Below(a, b) && Below(b, c) { Transitive(a, b, c); }
    if a == b { SameHalves(x, y); }
    if b == c { SameHalves(y, z); }
    if Below(a, c) { HalvesBelow(x, z); }
  }

  lemma NotBelowBelow(x: bv64, y: bv64, z: bv64)
    ensures !Below(y, x) && Below(y, z) ==> Below(x, z)
    ensures Below(x, y) && !Below(z, y) ==> Below(x, z)
    ensures !Below(y, x) && !Below(z, y) ==> !Below(z, x)
    ensures Below(x, y) ==> !Below(y, x)
  {
    hide *;
    Total(x, y);
    Total(y, z);
    Asymmetric(x, y);
    if Below(x, y) && Below(y, z) { Transitive(x, y, z); }
    if Below(z, x) && Below(x, y) { Transitive(z, x, y); }
  }

  lemma Asymmetric(x: bv64, y: bv64)
    ensures !(Below(x, y) && Below(y, x))
  {
  }

  // ----- blocks

  predicate PowerOfTwo(n: bv64) {
    n != 0 && n & (n - 1) == 0
  }

  /** A naturally aligned block of a power-of-two size. */
  predicate Block(addr: bv64, len: bv64) {
    PowerOfTwo(len) && addr & (len - 1) == 0
  }

  /** Where the block of an address begins. */
  function Floor(a: bv64, len: bv64): (f: bv64) {
    a & -len
  }

  predicate InBlock(a: bv64, addr: bv64, len: bv64) {
    Floor(a, len) == addr
  }

  function LastOf(addr: bv64, len: bv64): (l: bv64) {
    addr | (len - 1)
  }

  lemma BlockItself(addr: bv64, len: bv64)
    requires Block(addr, len)
    ensures InBlock(addr, addr, len) && PowerOfTwo(len)
  {
  }

  lemma NotBeforeBlock(a: bv64, addr: bv64, len: bv64)
    requires Block(addr, len) && InBlock(a, addr, len)
    ensures !Below(a, addr)
  {
  }

  lemma NotAfterBlock(a: bv64, addr: bv64, len: bv64)
    requires PowerOfTwo(len) && InBlock(a, addr, len)
    ensures !Below(LastOf(addr, len), a)
  {
  }

  lemma FloorIsBlock(a: bv64, len: bv64)
    requires PowerOfTwo(len)
    ensures !Below(a, Floor(a, len)) && Block(Floor(a, len), len)
  {
  }

  lemma NextBlock(addr: bv64, b: bv64, len: bv64)
    requires Block(addr, len) && Block(b, len) && Below(addr, b)
    ensures Below(LastOf(addr, len), b)
  {
  }

  /** A block that starts below the block of a bound lies below the bound. */
  lemma BelowBound(addr: bv64, len: bv64, bound: bv64, a: bv64)
    requires Block(addr, len) && InBlock(a, addr, len) && Below(addr, Floor(bound, len))
    ensures Below(a, bound)
  {
    hide *;
    BlockItself(addr, len);
    NotAfterBlock(a, addr, len);
    FloorIsBlock(bound, len);
    NextBlock(addr, Floor(bound, len), len);
    NotBelowBelow(a, LastOf(addr, len), Floor(bound, len));
    NotBelowBelow(a, Floor(bound, len), bound);
  }

  lemma BoundInside(addr: bv64, len: bv64, bound: bv64)
    requires Block(addr, len) && !Below(addr, Floor(bound, len)) && !Below(bound, addr)
    ensures InBlock(bound, addr, len)
  {
  }

  lemma Between(addr: bv64, len: bv64, low: bv64, high: bv64)
    requires Block(addr, len) && InBlock(high, addr, len) && !Below(low, addr) && !Below(high, low)
    ensures InBlock(low, addr, len)
  {
  }

  // ----- shifts by a variable distance

  function Double(x: bv64): (d: bv64) {
    x << 1
  }

  function ShiftRight(x: bv64, n: nat): (r: bv64)
    decreases n
  {
    if n == 0 then x else ShiftRight(Half(x), n - 1)
  }

  function ShiftLeft(x: bv64, n: nat): (r: bv64) {
    if n == 0 then x else Double(ShiftLeft(x, n - 1))
  }

  /** A word without the bits below a power of two. */
  function ClearBelow(x: bv64, p: bv64): (r: bv64) {
    x & !(p - 1)
  }

  /** Shifting right and back clears the low bits. */
  lemma {:induction false} ShiftBack(x: bv64, n: nat)
    ensures ShiftLeft(ShiftRight(x, n), n) == ClearBelow(x, ShiftLeft(1, n))
    decreases n
  {
    hide ClearBelow, Half, Double;
    if n == 0 {
      ClearNothing(x);
    } else {
      ShiftBack(Half(x), n - 1);
      ClearOneMore(x, ShiftLeft(1, n - 1));
    }
  }

  lemma ClearNothing(x: bv64)
    ensures ClearBelow(x, 1) == x
  {
  }

  lemma ClearOneMore(x: bv64, p: bv64)
    ensures Double(ClearBelow(Half(x), p)) == ClearBelow(x, Double(p))
  {
    hide Double, Half;
    DoubleLess(p);
    DoubleClear(x, p - 1);
  }

  lemma DoubleLess(p: bv64)
    ensures Double(p) - 1 == Double(p - 1) | 1
  {
  }

  lemma DoubleClear(x: bv64, q: bv64)
    ensures Double(Half(x) & !q) == x & !(Double(q) | 1)
  {
  }
}
