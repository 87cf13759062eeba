/** Whole caches and the two-level hierarchy (riscv/cache_model.cc, riscv/cache_hierarchy.cc) on values:
    one stack per set, addresses split by powers of two. */
module CacheSpec {
  import opened Division
  import opened LruSpec
  import opened Wrappers

  function Pow2(n: nat): (p: nat)
    ensures p > 0
  {
    if n == 0 then 1 else 2 * Pow2(n - 1)
  }

  lemma {:induction false} Pow2Add(a: nat, b: nat)
    ensures Pow2(a + b) == Pow2(a) * Pow2(b)
  {
    if a > 0 {
      Pow2Add(a - 1, b);
      DoubleProduct(Pow2(a - 1), Pow2(b));
    }
  }

  lemma DoubleProduct(p: int, q: int)
    ensures 2 * (p * q) == (2 * p) * q
  {
  }

  datatype Geometry = Geometry(ways: nat, offsetBits: nat, indexBits: nat, writeBack: bool)

  // ----- addresses

  function Index(g: Geometry, addr: nat): (i: nat)
    ensures i < Pow2(g.indexBits)
  {
    Quotient(addr, Pow2(g.offsetBits)) % Pow2(g.indexBits)
  }

  function Tag(g: Geometry, addr: nat): (t: nat) {
    Quotient(addr, Pow2(g.offsetBits + g.indexBits))
  }

  /** Where the line of an address begins. */
  function LineBase(g: Geometry, addr: nat): (b: nat) {
    Product(Quotient(addr, Pow2(g.offsetBits)), Pow2(g.offsetBits))
  }

  /** writeback_addr: the line address rebuilt from a tag and the index of the set. */
  function Rebuild(g: Geometry, tag: nat, index: nat): (b: nat) {
    Product(tag, Pow2(g.offsetBits + g.indexBits)) + Product(index, Pow2(g.offsetBits))
  }

  lemma TagIsQuotient(g: Geometry, addr: nat)
    ensures Tag(g, addr) == Quotient(Quotient(addr, Pow2(g.offsetBits)), Pow2(g.indexBits))
  {
    hide Quotient;
    Pow2Add(g.offsetBits, g.indexBits);
    QuotientTwice(addr, Pow2(g.offsetBits), Pow2(g.indexBits));
  }

  lemma Recombine(l: nat, x: nat, y: nat)
    requires x > 0 && y > 0
    ensures x * y >= 0 && Product(Quotient(l, y), x * y) + Product(l % y, x) == Product(l, x)
  {
    var q, r := l / y, l % y;
    assert l == y * q + r;
    assert q * (x * y) + r * x == (y * q + r) * x;
  }

  /** The reported address is the address of the line that was installed. */
  lemma RebuildIsLine(g: Geometry, addr: nat)
    ensures Rebuild(g, Tag(g, addr), Index(g, addr)) == LineBase(g, addr)
  {
    hide Quotient, Product;
    TagIsQuotient(g, addr);
    Pow2Add(g.offsetBits, g.indexBits);
    Recombine(Quotient(addr, Pow2(g.offsetBits)), Pow2(g.offsetBits), Pow2(g.indexBits));
  }

  /** Tag and index together determine the line. */
  lemma SameLine(g: Geometry, a: nat, b: nat)
    ensures LineBase(g, a) == LineBase(g, b) <==> Tag(g, a) == Tag(g, b) && Index(g, a) == Index(g, b)
  {
    hide Quotient, Product;
    RebuildIsLine(g, a);
    RebuildIsLine(g, b);
    if LineBase(g, a) == LineBase(g, b) {
      ProductCancels(Quotient(a, Pow2(g.offsetBits)), Quotient(b, Pow2(g.offsetBits)), Pow2(g.offsetBits));
      TagIsQuotient(g, a);
      TagIsQuotient(g, b);
    }
  }

  /** An address rebuilt from a tag and an index has that tag and that index, and begins a line. */
  lemma RebuildAddresses(g: Geometry, tag: nat, index: nat)
    requires index < Pow2(g.indexBits)
    ensures var a := Rebuild(g, tag, index); Tag(g, a) == tag && Index(g, a) == index && LineBase(g, a) == a
  {
    hide Quotient, Product;
    var a, x, y := Rebuild(g, tag, index), Pow2(g.offsetBits), Pow2(g.indexBits);
    Pow2Add(g.offsetBits, g.indexBits);
    SplitRebuilt(tag, index, x, y);
    TagIsQuotient(g, a);
  }

  lemma SplitRebuilt(tag: nat, index: nat, x: nat, y: nat)
    requires index < y && x > 0
    ensures x * y >= 0 && var a := Product(tag, x * y) + Product(index, x);
            && Quotient(Quotient(a, x), y) == tag
            && Quotient(a, x) % y == index
            && Product(Quotient(a, x), x) == a
  {
    var l := Product(y, tag) + index;
    Distribute(tag, index, x, y);
    QuotientUnique(x * l, x, l, 0);
    QuotientUnique(l, y, tag, index);
    assert l == y * (l / y) + l % y;
  }

  lemma Distribute(t: int, i: int, x: int, y: int)
    ensures t * (x * y) + i * x == x * (y * t + i) == (y * t + i) * x
  {
    assert t * (x * y) == x * (y * t);
  }

  // ----- one cache

  type Stacks = seq<Stack>

  ghost predicate Fits(g: Geometry, c: Stacks) {
    && g.ways > 0 && Pow2(g.indexBits) <= |c|
    && forall i | 0 <= i < |c| :: |c[i]| <= g.ways && Distinct(c[i])
  }

  /** cache_access: the new state, whether it hit, and the address written back, if any. */
  ghost function Access(g: Geometry, c: Stacks, addr: nat, write: bool): (r: (Stacks, bool, Option<nat>))
    requires Fits(g, c)
    ensures Fits(g, r.0)
  {
    var i := Index(g, addr);
    var (s, o) := Touch(c[i], g.ways, Tag(g, addr), write && g.writeBack);
    TouchDistinct(c[i], g.ways, Tag(g, addr), write && g.writeBack);
    (c[i := s], o.hit, if o.evicted.Some? && o.evicted.value.dirty then Some(Rebuild(g, o.evicted.value.tag, i)) else None)
  }

  /** The line of an address is in the cache, and dirty. */
  ghost predicate DirtyAt(g: Geometry, c: Stacks, addr: nat)
    requires Fits(g, c)
  {
    DirtyTag(c[Index(g, addr)], Tag(g, addr))
  }

  predicate DirtyTag(s: Stack, tag: nat) {
    Find(s, tag) < |s| && s[Find(s, tag)].dirty
  }

  lemma DirtyIffEntry(s: Stack, tag: nat)
    requires Distinct(s)
    ensures DirtyTag(s, tag) <==> Entry(tag, true) in s
  {
    if Entry(tag, true) in s {
      var k :| 0 <= k < |s| && s[k] == Entry(tag, true);
    }
  }

  /** A dirty line stays dirty under an access to its set, or is the one that falls out. */
  lemma TouchKeepsDirty(s: Stack, ways: nat, tag: nat, dirty: bool, t: nat)
    requires |s| <= ways && ways > 0 && Distinct(s) && DirtyTag(s, t)
    ensures var (r, o) := Touch(s, ways, tag, dirty); DirtyTag(r, t) || o.evicted == Some(Entry(t, true))
  {
    hide Distinct, DirtyTag, Find;
    var (r, o) := Touch(s, ways, tag, dirty);
    TouchDistinct(s, ways, tag, dirty);
    DirtyIffEntry(s, t);
    DirtyIffEntry(r, t);
    var j :| 0 <= j < |s| && s[j] == Entry(t, true);
    var k := Find(s, tag);
    if k < |s| {
      if j == k {
        assert r[0] == Entry(t, true);
      } else {
        assert r[if j < k then j + 1 else j] == RemoveAt(s, k)[if j < k then j else j - 1] == s[j];
      }
    } else if j < |r| - 1 {
      assert r[j + 1] == s[j];
    }
  }

  /** No line becomes dirty but the one touched, and that only when it is written. */
  lemma TouchDirties(s: Stack, ways: nat, tag: nat, dirty: bool, t: nat)
    requires |s| <= ways && ways > 0 && Distinct(s)
    ensures var (r, o) := Touch(s, ways, tag, dirty); DirtyTag(r, t) ==> DirtyTag(s, t) || (dirty && t == tag)
  {
    hide Distinct, DirtyTag, Find;
    var (r, o) := Touch(s, ways, tag, dirty);
    TouchDistinct(s, ways, tag, dirty);
    DirtyIffEntry(s, t);
    DirtyIffEntry(r, t);
    if DirtyTag(r, t) {
      var j :| 0 <= j < |r| && r[j] == Entry(t, true);
      var k := Find(s, tag);
      if j > 0 {
        assert r[j] == s[if k < |s| && k <= j - 1 then j else j - 1];
      }
    }
  }

  /** Just a write to a write-back cache makes its line dirty, and no other line becomes so; a dirty line stays dirty or
      is the one written back. */
  lemma AccessDirty(g: Geometry, c: Stacks, addr: nat, write: bool, a: nat)
    requires Fits(g, c)
    ensures var (c', hit, wb) := Access(g, c, addr, write);
            && (DirtyAt(g, c, a) ==> DirtyAt(g, c', a) || wb == Some(LineBase(g, a)))
            && (write && g.writeBack ==> DirtyAt(g, c', addr))
            && (DirtyAt(g, c', a) ==> DirtyAt(g, c, a) || (write && g.writeBack && LineBase(g, a) == LineBase(g, addr)))
  {
    hide LineBase, Index, Tag;
    var i, d := Index(g, addr), write && g.writeBack;
    SameLine(g, a, addr);
    if Index(g, a) == i {
      TouchDirties(c[i], g.ways, Tag(g, addr), d, Tag(g, a));
      if DirtyAt(g, c, a) {
        TouchKeepsDirty(c[i], g.ways, Tag(g, addr), d, Tag(g, a));
        RebuildIsLine(g, a);
      }
    }
  }

  /** What is written back is the base of a line that was dirty and is now gone. */
  lemma WritebackWasDirty(g: Geometry, c: Stacks, addr: nat, write: bool)
    requires Fits(g, c) && Access(g, c, addr, write).2.Some?
    ensures var (c', hit, wb) := Access(g, c, addr, write);
            && !hit && LineBase(g, wb.value) == wb.value && Index(g, wb.value) == Index(g, addr)
            && DirtyAt(g, c, wb.value) && !DirtyAt(g, c', wb.value)
  {
    var i := Index(g, addr);
    var s, t, w := c[i], Tag(g, addr), g.ways;
    var (r, o) := Touch(s, w, t, write && g.writeBack);
    TouchDistinct(s, w, t, write && g.writeBack);
    RebuildAddresses(g, o.evicted.value.tag, i);
    var e := s[w - 1];
    assert o.evicted == Some(e) && e.dirty && e.tag != t;
    DirtyIffEntry(s, e.tag);
    assert s[w - 1] == Entry(e.tag, true);
    assert forall j | 0 <= j < w - 1 :: r[j + 1] == s[j];
    assert forall j | 0 <= j < |r| :: r[j].tag != e.tag by {
      forall j | 0 <= j < |r| ensures r[j].tag != e.tag {
        if j > 0 { assert r[j] == s[j - 1]; }
      }
    }
    DirtyIffEntry(r, e.tag);
  }

  // ----- a trace of accesses

  /** The state after a trace of addresses and whether they are written, and which accesses hit. */
  ghost function AccessAll(g: Geometry, c: Stacks, trace: seq<(nat, bool)>): (r: (Stacks, seq<bool>))
    requires Fits(g, c)
    ensures Fits(g, r.0) && |r.1| == |trace| && |r.0| == |c|
    decreases |trace|
  {
    if trace == [] then (c, [])
    else
      var n := |trace| - 1;
      var before := AccessAll(g, c, trace[..n]);
      var a := Access(g, before.0, trace[n].0, trace[n].1);
      (a.0, before.1 + [a.1])
  }

  /** In a cache that was empty at first every dirty line was written during the trace. */
  lemma {:induction false} DirtyWasWritten(g: Geometry, n: nat, trace: seq<(nat, bool)>, a: nat)
    requires g.ways > 0 && Pow2(g.indexBits) <= n
    requires DirtyAt(g, AccessAll(g, Nothing(g, n), trace).0, a)
    ensures g.writeBack && exists k :: 0 <= k < |trace| && trace[k].1 && LineBase(g, trace[k].0) == LineBase(g, a)
    decreases |trace|
  {
    hide DirtyAt, Access, LineBase, Nothing;
    if trace == [] {
      NothingDirty(g, n, a);
    } else {
      var m := |trace| - 1;
      AccessDirty(g, AccessAll(g, Nothing(g, n), trace[..m]).0, trace[m].0, trace[m].1, a);
      if DirtyAt(g, AccessAll(g, Nothing(g, n), trace[..m]).0, a) {
        DirtyWasWritten(g, n, trace[..m], a);
        var k :| 0 <= k < m && trace[..m][k].1 && LineBase(g, trace[..m][k].0) == LineBase(g, a);
        assert trace[k].1 && LineBase(g, trace[k].0) == LineBase(g, a);
      }
    }
  }

  /** The contents of a new cache. */
  ghost function Nothing(g: Geometry, n: nat): (c: Stacks)
    requires g.ways > 0 && Pow2(g.indexBits) <= n
    ensures Fits(g, c)
  {
    seq(n, _ => [])
  }

  lemma NothingDirty(g: Geometry, n: nat, a: nat)
    requires g.ways > 0 && Pow2(g.indexBits) <= n
    ensures !DirtyAt(g, Nothing(g, n), a)
  {
    hide Index;
  }

  /** Whatever a cache that was empty at first writes back is the line of an earlier write: a line that was only read is
      never written back. */
  lemma WrittenBackWasWritten(g: Geometry, n: nat, trace: seq<(nat, bool)>, addr: nat, write: bool)
    requires g.ways > 0 && Pow2(g.indexBits) <= n
    ensures var wb := Access(g, AccessAll(g, Nothing(g, n), trace).0, addr, write).2;
            wb.Some? ==> g.writeBack && exists k :: 0 <= k < |trace| && trace[k].1 && LineBase(g, trace[k].0) == wb.value
  {
    hide DirtyAt, Access, LineBase, Nothing, Index;
    var c := AccessAll(g, Nothing(g, n), trace).0;
    var wb := Access(g, c, addr, write).2;
    if wb.Some? {
      WritebackWasDirty(g, c, addr, write);
      DirtyWasWritten(g, n, trace, wb.value);
    }
  }

  /** The accesses of a trace that select a set: their tags, and whether they dirty the line. */
  function Selected(g: Geometry, trace: seq<(nat, bool)>, i: nat): (t: seq<(nat, bool)>) {
    if trace == [] then []
    else
      var n := |trace| - 1;
      Selected(g, trace[..n], i)
      + if Index(g, trace[n].0) == i then [(Tag(g, trace[n].0), trace[n].1 && g.writeBack)] else []
  }

  /** Every set does what the accesses that select it make of an empty stack. */
  lemma {:induction false} SetRuns(g: Geometry, n: nat, trace: seq<(nat, bool)>, i: nat)
    requires g.ways > 0 && Pow2(g.indexBits) <= n && i < n
    ensures AccessAll(g, Nothing(g, n), trace).0[i] == Run([], g.ways, Selected(g, trace, i))
    decreases |trace|
  {
    hide Touch, Index, Tag, Distinct;
    if trace != [] {
      var m := |trace| - 1;
      SetRuns(g, n, trace[..m], i);
      var t := Selected(g, trace[..m], i);
      var x := (Tag(g, trace[m].0), trace[m].1 && g.writeBack);
      assert (t + [x])[..|t|] == t && t + [] == t;
    }
  }

  /** An access to a cache that was empty at first hits exactly when its line was accessed before and fewer other lines of
      its set than the cache has ways have been accessed since. */
  lemma HitsExact(g: Geometry, n: nat, trace: seq<(nat, bool)>, addr: nat, write: bool)
    requires g.ways > 0 && Pow2(g.indexBits) <= n
    ensures var t := Selected(g, trace, Index(g, addr));
            Access(g, AccessAll(g, Nothing(g, n), trace).0, addr, write).1
            <==> Accessed(t, Tag(g, addr)) && |After(t, Tag(g, addr))| < g.ways
  {
    hide Selected, Accessed, After, Run, Find, Index, Tag, AccessAll, Nothing;
    SetRuns(g, n, trace, Index(g, addr));
    HeldExact(g.ways, Selected(g, trace, Index(g, addr)), Tag(g, addr));
  }

  /** The next line lies in the next set, the sets taken round; all addresses of a line lie in one set. */
  lemma NextSet(g: Geometry, addr: nat)
    ensures Index(g, addr + Pow2(g.offsetBits)) == (Index(g, addr) + 1) % Pow2(g.indexBits)
    ensures addr < Pow2(g.offsetBits) ==> Index(g, addr) == 0
    ensures LineBase(g, addr) <= addr < LineBase(g, addr) + Pow2(g.offsetBits)
    ensures Index(g, LineBase(g, addr)) == Index(g, addr)
  {
    hide Quotient, Product, Pow2;
    NextLine(addr, Pow2(g.offsetBits));
    NextModulo(Quotient(addr, Pow2(g.offsetBits)), Pow2(g.indexBits));
    ModuloZero(Pow2(g.indexBits));
  }

  lemma ModuloZero(m: nat)
    requires m > 0
    ensures 0 % m == 0
  {
  }

  lemma NextLine(addr: nat, p: nat)
    requires p > 0
    ensures var q := Quotient(addr, p);
            && Quotient(addr + p, p) == q + 1 && (addr < p ==> q == 0)
            && Product(q, p) <= addr < Product(q, p) + p && Quotient(Product(q, p), p) == q
  {
    hide Quotient;
    var q := Quotient(addr, p);
    QuotientRemainder(addr, p);
    QuotientUnique(addr + p, p, q + 1, addr % p);
    QuotientUnique(Product(q, p), p, q, 0);
    if addr < p { QuotientUnique(addr, p, 0, addr); }
  }

  lemma NextModulo(q: nat, m: nat)
    requires m > 0
    ensures (q + 1) % m == (q % m + 1) % m
  {
    QuotientRemainder(q, m);
    var a, r := q / m, q % m;
    if r + 1 < m {
      QuotientUnique(q + 1, m, a, r + 1);
      QuotientUnique(r + 1, m, 0, r + 1);
    } else {
      assert m * (a + 1) == m * a + m;
      QuotientUnique(q + 1, m, a + 1, 0);
      QuotientUnique(m, m, 1, 0);
    }
  }

  /** Two caches that differ only in their ways. */
  predicate Wider(g: Geometry, h: Geometry) {
    g.ways <= h.ways && h == g.(ways := h.ways)
  }

  /** Every set of the smaller cache is the top of that of the larger one. */
  ghost predicate AllAbove(g: Geometry, c: Stacks, d: Stacks) {
    |c| == |d| && forall i | 0 <= i < |c| :: Above(c[i], d[i], g.ways)
  }

  lemma AccessAbove(g: Geometry, h: Geometry, c: Stacks, d: Stacks, addr: nat, write: bool)
    requires Fits(g, c) && Fits(h, d) && Wider(g, h) && AllAbove(g, c, d)
    ensures AllAbove(g, Access(g, c, addr, write).0, Access(h, d, addr, write).0)
    ensures Access(g, c, addr, write).1 ==> Access(h, d, addr, write).1
  {
    hide Above, Touch, Distinct, Index, Tag;
    var i, e := Index(g, addr), write && g.writeBack;
    assert Index(h, addr) == i && Tag(h, addr) == Tag(g, addr) by { SameSplit(g, h, addr); }
    TouchAbove(c[i], d[i], g.ways, h.ways, Tag(g, addr), e, e);
  }

  lemma SameSplit(g: Geometry, h: Geometry, addr: nat)
    requires Wider(g, h)
    ensures Index(h, addr) == Index(g, addr) && Tag(h, addr) == Tag(g, addr)
  {
  }

  /** Inclusion for whole caches: over any trace, whatever hits in a cache hits in one with as many sets, lines of the
      same size and more ways. */
  lemma {:induction false} CacheInclusion(g: Geometry, h: Geometry, c: Stacks, d: Stacks, trace: seq<(nat, bool)>)
    requires Fits(g, c) && Fits(h, d) && Wider(g, h) && AllAbove(g, c, d)
    ensures AllAbove(g, AccessAll(g, c, trace).0, AccessAll(h, d, trace).0)
    ensures forall k | 0 <= k < |trace| && AccessAll(g, c, trace).1[k] :: AccessAll(h, d, trace).1[k]
    decreases |trace|
  {
    hide Access, AllAbove, Fits;
    if trace != [] {
      var n := |trace| - 1;
      CacheInclusion(g, h, c, d, trace[..n]);
      AccessAbove(g, h, AccessAll(g, c, trace[..n]).0, AccessAll(h, d, trace[..n]).0, trace[n].0, trace[n].1);
    }
  }

  /** Two empty caches stand so. */
  lemma EmptyAbove(g: Geometry, h: Geometry, n: nat)
    requires Wider(g, h) && g.ways > 0 && Pow2(g.indexBits) <= n
    ensures var e: Stacks := seq(n, _ => []); Fits(g, e) && Fits(h, e) && AllAbove(g, e, e)
  {
  }

  // ----- the hierarchy

  datatype Geometries = Geometries(i: Geometry, d: Geometry, l2: Geometry)

  /** Both first-level caches, the second-level cache, and the addresses it has written back so far. */
  datatype Hierarchy = Hierarchy(l1i: Stacks, l1d: Stacks, l2: Stacks, log: seq<nat>)

  ghost predicate HierFits(g: Geometries, h: Hierarchy) {
    Fits(g.i, h.l1i) && Fits(g.d, h.l1d) && Fits(g.l2, h.l2)
  }

  function Logged(log: seq<nat>, wb: Option<nat>): (r: seq<nat>) {
    if wb.Some? then log + [wb.value] else log
  }

  /** A first-level miss: the line comes through the second level, and then a dirty victim goes there. */
  ghost function Behind(g: Geometry, l2: Stacks, log: seq<nat>, addr: nat, write: bool, victim: Option<nat>): (r: (Stacks, seq<nat>))
    requires Fits(g, l2)
    ensures Fits(g, r.0)
  {
    var (m, hit, wb) := Access(g, l2, addr, write);
    if victim.None? then (m, Logged(log, wb))
    else
      var (n, hit', wb') := Access(g, m, victim.value, true);
      (n, Logged(Logged(log, wb), wb'))
  }

  /** cache_hierarchy_access */
  ghost function HierAccess(g: Geometries, h: Hierarchy, addr: nat, write: bool, isInstruction: bool): (r: Hierarchy)
    requires HierFits(g, h)
    ensures HierFits(g, r)
  {
    var (l1, hit, wb) := Access(if isInstruction then g.i else g.d, if isInstruction then h.l1i else h.l1d, addr, write);
    var m := if isInstruction then h.(l1i := l1) else h.(l1d := l1);
    if hit then m
    else
      var (l2, log) := Behind(g.l2, h.l2, h.log, addr, write, wb);
      m.(l2 := l2, log := log)
  }

  /** The data of the line of `a` that the first level holds is safe: it is dirty there, or the line
      it was written back to is dirty in the second level or has been written to memory since `n`. */
  ghost predicate Safe2(g: Geometry, l2: Stacks, log: seq<nat>, n: nat, a: nat)
    requires Fits(g, l2)
  {
    DirtyAt(g, l2, a) || (n <= |log| && LineBase(g, a) in log[n..])
  }

  lemma Access2Safe(g: Geometry, l2: Stacks, log: seq<nat>, n: nat, addr: nat, write: bool, a: nat)
    requires Fits(g, l2) && n <= |log|
    ensures var (l2', hit, wb) := Access(g, l2, addr, write);
            && n <= |Logged(log, wb)|
            && (Safe2(g, l2, log, n, a) ==> Safe2(g, l2', Logged(log, wb), n, a))
            && (write && g.writeBack ==> Safe2(g, l2', Logged(log, wb), n, addr))
  {
    var (l2', hit, wb) := Access(g, l2, addr, write);
    AccessDirty(g, l2, addr, write, a);
    if wb.Some? {
      assert (log + [wb.value])[n..] == log[n..] + [wb.value];
    }
  }

  /** One access to the hierarchy loses no dirty data. */
  lemma HierKeeps(g: Geometries, h: Hierarchy, addr: nat, write: bool, isInstruction: bool, n: nat, a: nat)
    requires HierFits(g, h) && g.l2.writeBack && n <= |h.log|
    ensures var r := HierAccess(g, h, addr, write, isInstruction);
            && n <= |r.log|
            && (Safe2(g.l2, h.l2, h.log, n, a) ==> Safe2(g.l2, r.l2, r.log, n, a))
            && (DirtyAt(g.d, h.l1d, a) ==> DirtyAt(g.d, r.l1d, a) || Safe2(g.l2, r.l2, r.log, n, LineBase(g.d, a)))
  {
    hide Access, DirtyAt, Safe2;
    var g1, c1 := if isInstruction then g.i else g.d, if isInstruction then h.l1i else h.l1d;
    var (l1, hit1, wb1) := Access(g1, c1, addr, write);
    AccessDirty(g1, c1, addr, write, a);
    if !hit1 {
      var (l2, hit2, wb2) := Access(g.l2, h.l2, addr, write);
      Access2Safe(g.l2, h.l2, h.log, n, addr, write, a);
      if wb1.Some? {
        Access2Safe(g.l2, l2, Logged(h.log, wb2), n, wb1.value, true, a);
      }
    } else {
      HitEvictsNothing(g1, c1, addr, write);
    }
  }

  lemma HitEvictsNothing(g: Geometry, c: Stacks, addr: nat, write: bool)
    requires Fits(g, c) && Access(g, c, addr, write).1
    ensures Access(g, c, addr, write).2 == None
  {
  }

  datatype Request = Request(addr: nat, write: bool, isInstruction: bool)

  ghost function HierRun(g: Geometries, h: Hierarchy, trace: seq<Request>): (r: Hierarchy)
    requires HierFits(g, h)
    ensures HierFits(g, r)
    decreases |trace|
  {
    if trace == [] then h
    else
      var n := |trace| - 1;
      HierAccess(g, HierRun(g, h, trace[..n]), trace[n].addr, trace[n].write, trace[n].isInstruction)
  }

  /** No dirty data is ever lost: over any trace of accesses, a line dirty in the first-level data cache
      stays dirty there, or its line is dirty in the second level or has been written back to memory;
      and a line dirty in the second level stays dirty there or has been written back. */
  lemma {:induction false} NothingLost(g: Geometries, h: Hierarchy, trace: seq<Request>, n: nat, a: nat)
    requires HierFits(g, h) && g.l2.writeBack && n <= |h.log|
    ensures var r := HierRun(g, h, trace);
            && n <= |r.log|
            && (Safe2(g.l2, h.l2, h.log, n, a) ==> Safe2(g.l2, r.l2, r.log, n, a))
            && (DirtyAt(g.d, h.l1d, a) ==> DirtyAt(g.d, r.l1d, a) || Safe2(g.l2, r.l2, r.log, n, LineBase(g.d, a)))
    decreases |trace|
  {
    hide HierAccess, DirtyAt, Safe2;
    if trace != [] {
      var m := |trace| - 1;
      NothingLost(g, h, trace[..m], n, a);
      var before := HierRun(g, h, trace[..m]);
      HierKeeps(g, before, trace[m].addr, trace[m].write, trace[m].isInstruction, n, a);
      HierKeeps(g, before, trace[m].addr, trace[m].write, trace[m].isInstruction, n, LineBase(g.d, a));
    }
  }

  /** The accesses of a trace that go to the instruction cache, or to the data cache. */
  function Firsts(trace: seq<Request>, isInstruction: bool): (t: seq<(nat, bool)>) {
    if trace == [] then []
    else
      var n := |trace| - 1;
      Firsts(trace[..n], isInstruction)
      + if trace[n].isInstruction == isInstruction then [(trace[n].addr, trace[n].write)] else []
  }

  /** What a first-level cache by itself makes of an access after a trace: whether it hits, and what it writes back. */
  ghost function FirstDoes(g: Geometries, l1i: Stacks, l1d: Stacks, trace: seq<Request>, q: Request): (r: (bool, Option<nat>))
    requires Fits(g.i, l1i) && Fits(g.d, l1d)
  {
    var a := if q.isInstruction then Access(g.i, AccessAll(g.i, l1i, Firsts(trace, true)).0, q.addr, q.write)
             else Access(g.d, AccessAll(g.d, l1d, Firsts(trace, false)).0, q.addr, q.write);
    (a.1, a.2)
  }

  /** What the second level is asked: every access that its first-level cache misses, as it came, and then a write of
      the line which that cache writes back. */
  ghost function Seconds(g: Geometries, l1i: Stacks, l1d: Stacks, trace: seq<Request>): (t: seq<(nat, bool)>)
    requires Fits(g.i, l1i) && Fits(g.d, l1d)
    decreases |trace|
  {
    if trace == [] then []
    else
      var n := |trace| - 1;
      var (hit, wb) := FirstDoes(g, l1i, l1d, trace[..n], trace[n]);
      Seconds(g, l1i, l1d, trace[..n])
      + (if hit then [] else [(trace[n].addr, trace[n].write)]) + (if !hit && wb.Some? then [(wb.value, true)] else [])
  }

  /** What a cache by itself writes back over a trace. */
  ghost function Backs(g: Geometry, c: Stacks, trace: seq<(nat, bool)>): (b: seq<nat>)
    requires Fits(g, c)
    decreases |trace|
  {
    if trace == [] then []
    else
      var n := |trace| - 1;
      Logged(Backs(g, c, trace[..n]), Access(g, AccessAll(g, c, trace[..n]).0, trace[n].0, trace[n].1).2)
  }

  lemma AllMore(g: Geometry, c: Stacks, trace: seq<(nat, bool)>, x: (nat, bool))
    requires Fits(g, c)
    ensures AccessAll(g, c, trace + [x]).0 == Access(g, AccessAll(g, c, trace).0, x.0, x.1).0
    ensures Backs(g, c, trace + [x]) == Logged(Backs(g, c, trace), Access(g, AccessAll(g, c, trace).0, x.0, x.1).2)
  {
    hide Access;
    assert (trace + [x])[..|trace|] == trace;
  }

  /** The hierarchy is its three caches, each by itself: the two of the first level under the accesses of their kind,
      the second level under what those miss and write back, and memory gets what the second level writes back. */
  lemma {:induction false} HierFactors(g: Geometries, h: Hierarchy, trace: seq<Request>)
    requires HierFits(g, h)
    ensures var r, t := HierRun(g, h, trace), Seconds(g, h.l1i, h.l1d, trace);
            && r.l1i == AccessAll(g.i, h.l1i, Firsts(trace, true)).0
            && r.l1d == AccessAll(g.d, h.l1d, Firsts(trace, false)).0
            && r.l2 == AccessAll(g.l2, h.l2, t).0 && r.log == h.log + Backs(g.l2, h.l2, t)
    decreases |trace|
  {
    hide Access, AccessAll, Backs, Fits;
    if trace == [] {
      AllNothing(g.i, h.l1i);
      AllNothing(g.d, h.l1d);
      AllNothing(g.l2, h.l2);
    } else {
      var n, q := |trace| - 1, trace[|trace| - 1];
      HierFactors(g, h, trace[..n]);
      var before, t := HierRun(g, h, trace[..n]), Seconds(g, h.l1i, h.l1d, trace[..n]);
      if q.isInstruction {
        AllMore(g.i, h.l1i, Firsts(trace[..n], true), (q.addr, q.write));
      } else {
        AllMore(g.d, h.l1d, Firsts(trace[..n], false), (q.addr, q.write));
      }
      assert Firsts(trace, !q.isInstruction) == Firsts(trace[..n], !q.isInstruction);
      var (hit, wb) := FirstDoes(g, h.l1i, h.l1d, trace[..n], q);
      if hit {
        assert Seconds(g, h.l1i, h.l1d, trace) == t;
      } else {
        var x := (q.addr, q.write);
        AllMore(g.l2, h.l2, t, x);
        if wb.Some? {
          AllMore(g.l2, h.l2, t + [x], (wb.value, true));
          assert Seconds(g, h.l1i, h.l1d, trace) == t + [x] + [(wb.value, true)];
        } else {
          assert Seconds(g, h.l1i, h.l1d, trace) == t + [x];
        }
      }
      assert before.log == h.log + Backs(g.l2, h.l2, t);
    }
  }

  lemma AllNothing(g: Geometry, c: Stacks)
    requires Fits(g, c)
    ensures AccessAll(g, c, []).0 == c && Backs(g, c, []) == []
  {
  }

  lemma {:induction false} FirstsFrom(trace: seq<Request>, isInstruction: bool, j: nat)
    requires j < |Firsts(trace, isInstruction)|
    ensures exists k :: 0 <= k < |trace| && trace[k].isInstruction == isInstruction
                        && Firsts(trace, isInstruction)[j] == (trace[k].addr, trace[k].write)
    decreases |trace|
  {
    var n := |trace| - 1;
    if j < |Firsts(trace[..n], isInstruction)| {
      FirstsFrom(trace[..n], isInstruction, j);
      var k :| 0 <= k < n && trace[..n][k].isInstruction == isInstruction
               && Firsts(trace[..n], isInstruction)[j] == (trace[..n][k].addr, trace[..n][k].write);
      assert trace[k] == trace[..n][k];
    } else {
      assert trace[n].isInstruction == isInstruction;
    }
  }

  /** The addresses that a write takes to the second level: its own, and the line it dirties. */
  predicate WriteOf(g: Geometries, q: Request, a: nat) {
    q.write && (a == q.addr || (!q.isInstruction && a == LineBase(g.d, q.addr)) || (q.isInstruction && a == LineBase(g.i, q.addr)))
  }

  ghost predicate FromWrite(g: Geometries, trace: seq<Request>, a: nat) {
    exists k :: 0 <= k < |trace| && WriteOf(g, trace[k], a)
  }

  lemma FirstBack(g: Geometries, n: nat, trace: seq<Request>, q: Request)
    requires g.i.ways > 0 && Pow2(g.i.indexBits) <= n && g.d.ways > 0 && Pow2(g.d.indexBits) <= n
    ensures var wb := FirstDoes(g, Nothing(g.i, n), Nothing(g.d, n), trace, q).1; wb.Some? ==> FromWrite(g, trace, wb.value)
  {
    hide Access, AccessAll, Nothing, LineBase;
    var g1 := if q.isInstruction then g.i else g.d;
    var t := Firsts(trace, q.isInstruction);
    WrittenBackWasWritten(g1, n, t, q.addr, q.write);
    var wb := FirstDoes(g, Nothing(g.i, n), Nothing(g.d, n), trace, q).1;
    if wb.Some? {
      var j :| 0 <= j < |t| && t[j].1 && LineBase(g1, t[j].0) == wb.value;
      FirstsFrom(trace, q.isInstruction, j);
      var k :| 0 <= k < |trace| && trace[k].isInstruction == q.isInstruction && t[j] == (trace[k].addr, trace[k].write);
      assert WriteOf(g, trace[k], wb.value);
    }
  }

  lemma {:induction false} SecondsWritten(g: Geometries, n: nat, trace: seq<Request>, x: (nat, bool))
    requires g.i.ways > 0 && Pow2(g.i.indexBits) <= n && g.d.ways > 0 && Pow2(g.d.indexBits) <= n
    requires x in Seconds(g, Nothing(g.i, n), Nothing(g.d, n), trace) && x.1
    ensures FromWrite(g, trace, x.0)
    decreases |trace|
  {
    hide FirstDoes, WriteOf, Nothing;
    var m := |trace| - 1;
    var l1i, l1d := Nothing(g.i, n), Nothing(g.d, n);
    FirstBack(g, n, trace[..m], trace[m]);
    if x in Seconds(g, l1i, l1d, trace[..m]) {
      SecondsWritten(g, n, trace[..m], x);
    }
    if FromWrite(g, trace[..m], x.0) {
      var k :| 0 <= k < m && WriteOf(g, trace[..m][k], x.0);
      assert trace[k] == trace[..m][k];
    } else {
      OwnWrite(g, trace[m]);
      assert x == (trace[m].addr, trace[m].write);
    }
  }

  lemma OwnWrite(g: Geometries, q: Request)
    ensures q.write ==> WriteOf(g, q, q.addr)
  {
  }

  lemma {:induction false} BacksWritten(g: Geometry, n: nat, trace: seq<(nat, bool)>, a: nat)
    requires g.ways > 0 && Pow2(g.indexBits) <= n && a in Backs(g, Nothing(g, n), trace)
    ensures exists x :: x in trace && x.1 && LineBase(g, x.0) == a
    decreases |trace|
  {
    hide Access, AccessAll, Nothing, LineBase;
    var m := |trace| - 1;
    WrittenBackWasWritten(g, n, trace[..m], trace[m].0, trace[m].1);
    if a in Backs(g, Nothing(g, n), trace[..m]) {
      BacksWritten(g, n, trace[..m], a);
      var x :| x in trace[..m] && x.1 && LineBase(g, x.0) == a;
      assert x in trace;
    } else {
      var k :| 0 <= k < m && trace[..m][k].1 && LineBase(g, trace[..m][k].0) == a;
      assert trace[..m][k] in trace;
    }
  }

  /** Memory is written only where the trace wrote: whatever an empty hierarchy writes back over a trace is the line of
      the address of a write, or of the first-level line of one. */
  lemma MemoryWrites(g: Geometries, n: nat, trace: seq<Request>, a: nat)
    requires g.i.ways > 0 && Pow2(g.i.indexBits) <= n && g.d.ways > 0 && Pow2(g.d.indexBits) <= n
    requires g.l2.ways > 0 && Pow2(g.l2.indexBits) <= n
    requires a in HierRun(g, Hierarchy(Nothing(g.i, n), Nothing(g.d, n), Nothing(g.l2, n), []), trace).log
    ensures exists b :: LineBase(g.l2, b) == a && FromWrite(g, trace, b)
  {
    hide Nothing, LineBase, FromWrite, Backs, Seconds, AccessAll, HierRun;
    var h := Hierarchy(Nothing(g.i, n), Nothing(g.d, n), Nothing(g.l2, n), []);
    var t := Seconds(g, h.l1i, h.l1d, trace);
    HierFactors(g, h, trace);
    assert [] + Backs(g.l2, h.l2, t) == Backs(g.l2, h.l2, t);
    BacksWritten(g.l2, n, t, a);
    var x :| x in t && x.1 && LineBase(g.l2, x.0) == a;
    SecondsWritten(g, n, trace, x);
  }
}
