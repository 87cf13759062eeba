/** The cache model's caches and its two-level hierarchy as the source keeps them
    (riscv/cache_model.cc, riscv/cache_hierarchy.cc), proved against the stacks of CacheSpec. */
module CacheModel {
  import opened CacheSpec
  import opened LruSet
  import opened LruSpec
  import opened Wrappers

  ghost predicate Within(v: nat, value: nat, p: nat) {
    v * p <= value < (v + 1) * p
  }

  /** log2_uint32: the position of the highest bit set. */
  method Log2(value: nat) returns (result: nat)
    ensures value == 0 ==> result == 0
    ensures value > 0 ==> Pow2(result) <= value < Pow2(result + 1)
  {
    hide Within;
    result := 0;
    var v: nat := value / 2;
    FirstHalf(value);
    while v != 0
      invariant value == 0 ==> v == 0 && result == 0
      invariant value > 0 ==> Pow2(result) <= value
      invariant Within(v, value, Pow2(result + 1))
      decreases v
    {
      Halve(v, value, Pow2(result + 1));
      result := result + 1;
      v := v / 2;
    }
    WithinZero(value, Pow2(result + 1));
  }

  lemma FirstHalf(value: nat)
    ensures Within(value / 2, value, 2)
  {
  }

  lemma WithinZero(value: nat, p: nat)
    requires Within(0, value, p)
    ensures value < p
  {
  }

  lemma Halve(v: nat, value: nat, p: nat)
    requires v > 0 && Within(v, value, p)
    ensures Within(v / 2, value, 2 * p) && p <= value
  {
    var h := v / 2;
    assert h * (2 * p) == (2 * h) * p;
    assert (h + 1) * (2 * p) == (2 * h + 2) * p;
    assert (v - 2 * h) * p >= 0;
    assert (2 * h + 2 - (v + 1)) * p >= 0;
    assert (v - 1) * p >= 0;
  }

  datatype Result = Result(hit: bool, latency: nat, writeback: Option<nat>, l1Miss: bool, l2Miss: bool)

  /** Distinct objects, each set with as many lines as the cache has ways. */
  ghost predicate Separate(sets: seq<CacheSet>) {
    forall i, j | 0 <= i < j < |sets| :: sets[i] != sets[j] && sets[i].lines != sets[j].lines
  }

  class Cache {
    const size: nat
    const ways: nat
    const lineSize: nat
    const writeBack: bool
    const offsetBits: nat
    const indexBits: nat
    const sets: seq<CacheSet>
    var accesses: nat
    var hits: nat
    var misses: nat
    var writebacks: nat
    var readCount: nat
    var writeCount: nat
    /** The stack of every set. */
    ghost var contents: Stacks

    ghost function Shape(): (g: Geometry) {
      Geometry(ways, offsetBits, indexBits, writeBack)
    }

    ghost function Footprint(): (f: set<object>) {
      (set s: CacheSet | s in sets :: s as object) + (set s: CacheSet | s in sets :: s.lines as object)
    }

    ghost predicate SetsOk()
      reads this`contents, Footprint()
    {
      && ways > 0 && Pow2(indexBits) <= |sets| == |contents| && Separate(sets)
      && forall i | 0 <= i < |sets| :: sets[i].Ok() && sets[i].lines.Length == ways && sets[i].Stack() == contents[i]
    }

    /** Every access is a hit or a miss, a read or a write. */
    predicate Counted()
      reads this
    {
      accesses == hits + misses && accesses == readCount + writeCount
    }

    ghost predicate Ok()
      reads this, Footprint()
    {
      SetsOk() && Counted()
    }

    /** No set is within `n` accesses of wrapping its counter. */
    ghost predicate Room(n: nat)
      reads Footprint()
    {
      forall s | s in sets :: s.nextLru + n < TWO32
    }

    lemma FitsShape()
      requires SetsOk()
      ensures Fits(Shape(), contents) && Pow2(indexBits) <= |sets|
      ensures forall i | 0 <= i < |sets| :: sets[i] in Footprint() && sets[i].lines in Footprint()
    {
      forall i | 0 <= i < |contents| ensures |contents[i]| <= ways && Distinct(contents[i]) {
        assert contents[i] == sets[i].Stack();
      }
    }

    lemma OkFits()
      requires Ok()
      ensures Fits(Shape(), contents)
    {
      FitsShape();
    }

    constructor (size: nat, ways: nat, lineSize: nat, writeBack: bool, offsetBits: nat, indexBits: nat, sets: seq<CacheSet>)
      requires ways > 0 && Pow2(indexBits) <= |sets| && Separate(sets)
      requires forall s | s in sets :: s.Ok() && s.Stack() == [] && s.lines.Length == ways
      ensures Ok() && contents == seq(|sets|, i => []) && writebacks == 0
      ensures this.size == size && this.sets == sets && Shape() == Geometry(ways, offsetBits, indexBits, writeBack)
    {
      this.size, this.ways, this.lineSize, this.writeBack := size, ways, lineSize, writeBack;
      this.offsetBits, this.indexBits, this.sets := offsetBits, indexBits, sets;
      accesses, hits, misses, writebacks, readCount, writeCount := 0, 0, 0, 0, 0, 0;
      contents := seq(|sets|, i => []);
    }

    /** The part of cache_access that changes the selected set. */
    method Visit(index: nat, tag: nat, base: nat, dirty: bool) returns (hit: bool, victim: Option<nat>)
      requires SetsOk() && Room(1) && index < Pow2(indexBits)
      modifies this`contents, sets[index], sets[index].lines
      ensures SetsOk() && forall n: nat | n > 0 && old(Room(n)) :: Room(n - 1)
      ensures |old(contents[index])| <= ways
      ensures var (s, o) := Touch(old(contents[index]), ways, tag, dirty);
              && contents == old(contents)[index := s] && hit == o.hit
              && victim == if o.evicted.Some? && o.evicted.value.dirty then Some(o.evicted.value.tag) else None
    {
      hide Touch, CacheSet.Ok, CacheSet.Stack;
      var s := sets[index];
      assert s.Stack() == contents[index];
      label before:
      hit, victim := s.Access(tag, base, dirty);
      contents := contents[index := s.Stack()];
      assert forall i | 0 <= i < |sets| && i != index :: sets[i] != s && sets[i].lines != s.lines;
      assert forall i | 0 <= i < |sets| && i != index :: sets[i].Ok() && sets[i].Stack() == old@before(sets[i].Stack());
    }

    /** The statistics of cache_access. */
    method Count(write: bool, hit: bool, writeback: bool)
      requires SetsOk() && Counted()
      modifies this`accesses, this`hits, this`misses, this`readCount, this`writeCount, this`writebacks
      ensures Ok() && forall n: nat | old(Room(n)) :: Room(n)
      ensures writebacks == old(writebacks) + if writeback then 1 else 0
      ensures accesses == old(accesses) + 1
      ensures if hit then hits == old(hits) + 1 && misses == old(misses)
              else hits == old(hits) && misses == old(misses) + 1
      ensures if write then writeCount == old(writeCount) + 1 && readCount == old(readCount)
              else writeCount == old(writeCount) && readCount == old(readCount) + 1
    {
      hide Separate, CacheSet.Ok, CacheSet.Stack;
      accesses := accesses + 1;
      if write { writeCount := writeCount + 1; } else { readCount := readCount + 1; }
      if hit { hits := hits + 1; } else { misses := misses + 1; }
      if writeback {
        writebacks := writebacks + 1;
      }
    }

    /** cache_access */
    method Access(addr: nat, write: bool) returns (r: Result)
      requires Ok() && Room(1)
      modifies this, Footprint()
      ensures Ok() && forall n: nat | n > 0 && old(Room(n)) :: Room(n - 1)
      ensures old(Fits(Shape(), contents)) && Fits(Shape(), contents)
      ensures var a := CacheSpec.Access(Shape(), old(contents), addr, write);
              contents == a.0 && r.hit == a.1 && r.writeback == a.2
      ensures r.latency == if r.hit then 1 else 10
      ensures writebacks == old(writebacks) + if r.writeback.Some? then 1 else 0
      ensures accesses == old(accesses) + 1
      ensures if r.hit then hits == old(hits) + 1 && misses == old(misses)
              else hits == old(hits) && misses == old(misses) + 1
      ensures if write then writeCount == old(writeCount) + 1 && readCount == old(readCount)
              else writeCount == old(writeCount) && readCount == old(readCount) + 1
    {
      hide Index, Tag, LineBase, Rebuild, Separate, SetsOk, Fits, Footprint;
      FitsShape();
      var g := Geometry(ways, offsetBits, indexBits, writeBack);
      var index := Index(g, addr);
      var hit, victim := Visit(index, Tag(g, addr), LineBase(g, addr), write && writeBack);
      r := if hit then Result(true, 1, None, false, false) else Result(false, 10, None, false, false);
      if victim.Some? {
        r := r.(writeback := Some(Rebuild(g, victim.value, index)));
      }
      Count(write, hit, victim.Some?);
      FitsShape();
    }

    /** One cache_access after another: over the whole trace the cache does what its stacks do, as long as no counter
        has that many accesses left before it wraps. */
    method AccessAll(trace: seq<(nat, bool)>) returns (hits: seq<bool>)
      requires Ok() && Room(|trace|)
      modifies this, Footprint()
      ensures Ok() && old(Fits(Shape(), contents))
      ensures (contents, hits) == CacheSpec.AccessAll(Shape(), old(contents), trace)
    {
      hide CacheSpec.Access, Fits, SetsOk, Counted, Footprint;
      hits := [];
      OkFits();
      assert trace[..0] == [];
      for i := 0 to |trace|
        invariant Ok() && Room(|trace| - i) && Fits(Shape(), contents)
        invariant (contents, hits) == CacheSpec.AccessAll(Shape(), old(contents), trace[..i])
      {
        RoomLess(|trace| - i, 1);
        assert trace[..i + 1][..i] == trace[..i];
        var r := Access(trace[i].0, trace[i].1);
        hits := hits + [r.hit];
      }
      assert trace[..|trace|] == trace;
    }

    lemma RoomLess(n: nat, m: nat)
      requires Room(n) && m <= n
      ensures Room(m)
    {
    }
  }

  /** cache_create; the source divides by the 32-bit product before it looks at the configuration. */
  method CacheCreate(size: nat, ways: nat, lineSize: nat, writeBack: bool) returns (c: Cache?)
    requires size < TWO32 && ways * lineSize % TWO32 != 0
    ensures c == null <==> size < ways * lineSize % TWO32
    ensures c != null ==>
              && fresh(c) && fresh(c.Footprint()) && c.Ok() && (forall n: nat | n < TWO32 :: c.Room(n))
              && c.size == size && c.ways == ways && c.writeBack == writeBack
              && c.contents == seq(size / (ways * lineSize % TWO32), i => [])
              && Pow2(c.offsetBits) <= lineSize < Pow2(c.offsetBits + 1)
              && Pow2(c.indexBits) <= |c.sets| < Pow2(c.indexBits + 1)
  {
    hide Cache.Ok, Pow2;
    var count := size / (ways * lineSize % TWO32);
    if count == 0 || ways == 0 || lineSize == 0 {
      return null;
    }
    c := MakeCache(size, ways, lineSize, writeBack, count);
  }

  /** The part of cache_create behind the validation. */
  method MakeCache(size: nat, ways: nat, lineSize: nat, writeBack: bool, count: nat) returns (c: Cache)
    requires ways > 0 && lineSize > 0 && count > 0
    ensures fresh(c) && fresh(c.Footprint()) && c.Ok() && forall n: nat | n < TWO32 :: c.Room(n)
    ensures c.size == size && c.ways == ways && c.writeBack == writeBack && c.contents == seq(count, i => [])
    ensures Pow2(c.offsetBits) <= lineSize < Pow2(c.offsetBits + 1)
    ensures Pow2(c.indexBits) <= |c.sets| < Pow2(c.indexBits + 1)
  {
    hide Cache.Ok, Cache.SetsOk, CacheSet.Ok, CacheSet.Stack, Separate, Pow2;
    var offsetBits := Log2(lineSize);
    var indexBits := Log2(count);
    var sets := EmptySets(count, ways);
    c := new Cache(size, ways, lineSize, writeBack, offsetBits, indexBits, sets);
  }

  /** The loop of cache_create that makes the sets. */
  method EmptySets(count: nat, ways: nat) returns (sets: seq<CacheSet>)
    requires ways > 0
    ensures |sets| == count && Separate(sets)
    ensures forall s | s in sets :: fresh(s) && fresh(s.lines) && s.Ok() && s.Stack() == [] && s.lines.Length == ways && s.nextLru == 0
  {
    hide CacheSet.Ok, CacheSet.Stack;
    sets := [];
    while |sets| < count
      invariant |sets| <= count && Separate(sets)
      invariant forall s | s in sets :: fresh(s) && fresh(s.lines) && s.Ok() && s.Stack() == [] && s.lines.Length == ways && s.nextLru == 0
    {
      var s := new CacheSet(ways);
      sets := sets + [s];
    }
  }
}
