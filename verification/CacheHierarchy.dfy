/** The two-level hierarchy as the source keeps it (riscv/cache_hierarchy.cc), proved against HierAccess. */
module CacheHierarchy {
  import opened CacheModel
  import opened CacheSpec
  import opened Wrappers

  class Hierarchy {
    const l1i: Cache
    const l1d: Cache
    const l2: Cache
    const l1HitLatency: nat
    const l2HitLatency: nat
    const memoryLatency: nat
    var totalCycles: nat
    var memoryAccesses: nat
    /** The addresses the second level has written back to memory. */
    ghost var log: seq<nat>

    ghost function Footprint(): (f: set<object>) {
      {l1i, l1d, l2} + l1i.Footprint() + l1d.Footprint() + l2.Footprint()
    }

    ghost predicate Apart() {
      && l1i != l1d && l1d != l2 && l1i != l2
      && l1i.Footprint() !! l1d.Footprint() && l1d.Footprint() !! l2.Footprint() && l1i.Footprint() !! l2.Footprint()
      && forall c: object | c in {this, l1i, l1d, l2} :: c !in l1i.Footprint() && c !in l1d.Footprint() && c !in l2.Footprint()
    }

    ghost predicate Ok()
      reads this, Footprint()
    {
      && Apart() && l1i.Ok() && l1d.Ok() && l2.Ok()
      && !l1i.writeBack && l1d.writeBack && l2.writeBack
      && l2.writebacks == |log|
    }

    /** No counter of any set wraps within an access. */
    ghost predicate Room()
      reads Footprint()
    {
      l1i.Room(1) && l1d.Room(1) && l2.Room(2)
    }

    ghost function Shapes(): (g: Geometries) {
      Geometries(l1i.Shape(), l1d.Shape(), l2.Shape())
    }

    ghost function State(): (h: CacheSpec.Hierarchy)
      requires Ok()
      reads this, Footprint()
      ensures HierFits(Shapes(), h)
    {
      l1i.FitsShape();
      l1d.FitsShape();
      l2.FitsShape();
      CacheSpec.Hierarchy(l1i.contents, l1d.contents, l2.contents, log)
    }

    /** The part of cache_hierarchy_create_from_config that follows the parsing of its file. */
    constructor (l1i: Cache, l1d: Cache, l2: Cache, l1HitLatency: nat, l2HitLatency: nat, memoryLatency: nat)
      requires l1i != l1d && l1d != l2 && l1i != l2
      requires l1i.Footprint() !! l1d.Footprint() && l1d.Footprint() !! l2.Footprint() && l1i.Footprint() !! l2.Footprint()
      requires l1i.Ok() && l1d.Ok() && l2.Ok() && !l1i.writeBack && l1d.writeBack && l2.writeBack && l2.writebacks == 0
      ensures Ok() && log == [] && totalCycles == 0 && memoryAccesses == 0
      ensures this.l1i == l1i && this.l1d == l1d && this.l2 == l2
    {
      this.l1i, this.l1d, this.l2 := l1i, l1d, l2;
      this.l1HitLatency, this.l2HitLatency, this.memoryLatency := l1HitLatency, l2HitLatency, memoryLatency;
      totalCycles, memoryAccesses := 0, 0;
      log := [];
    }

    ghost predicate CachesOk()
      reads Footprint()
    {
      Apart() && l1i.Ok() && l1d.Ok() && l2.Ok()
    }

    /** cache_access on the second level leaves the first level alone. */
    method Second(addr: nat, write: bool) returns (r: Result)
      requires CachesOk() && l2.Room(1)
      modifies l2, l2.Footprint()
      ensures CachesOk() && forall n: nat | n > 0 && old(l2.Room(n)) :: l2.Room(n - 1)
      ensures Fits(l2.Shape(), old(l2.contents))
      ensures (l2.contents, r.hit, r.writeback) == CacheSpec.Access(l2.Shape(), old(l2.contents), addr, write)
      ensures l2.writebacks == old(l2.writebacks) + if r.writeback.Some? then 1 else 0
    {
      hide Cache.Ok, CacheSpec.Access, Fits;
      l2.OkFits();
      r := l2.Access(addr, write);
    }

    /** cache_access on one of the first-level caches leaves the others alone. */
    method First(addr: nat, write: bool, isInstruction: bool) returns (r: Result)
      requires CachesOk() && Room()
      modifies l1i, l1d, l1i.Footprint(), l1d.Footprint()
      ensures CachesOk() && l2.Room(2) && l2.Room(1)
      ensures Fits(l1i.Shape(), old(l1i.contents)) && Fits(l1d.Shape(), old(l1d.contents))
      ensures if isInstruction
              then (l1i.contents, r.hit, r.writeback) == CacheSpec.Access(l1i.Shape(), old(l1i.contents), addr, write)
                   && l1d.contents == old(l1d.contents)
              else (l1d.contents, r.hit, r.writeback) == CacheSpec.Access(l1d.Shape(), old(l1d.contents), addr, write)
                   && l1i.contents == old(l1i.contents)
    {
      hide Cache.Ok, CacheSpec.Access, Fits;
      l1i.OkFits();
      l1d.OkFits();
      if isInstruction {
        r := l1i.Access(addr, write);
      } else {
        r := l1d.Access(addr, write);
      }
    }

    /** The part of cache_hierarchy_access behind a first-level miss. */
    method Miss(addr: nat, write: bool, victim: Option<nat>) returns (r: Result)
      requires CachesOk() && l2.Room(2) && l2.Room(1) && l2.writebacks == |log|
      modifies this, l2, l2.Footprint()
      ensures CachesOk() && l2.writebacks == |log| && memoryAccesses == old(memoryAccesses)
      ensures Fits(l2.Shape(), old(l2.contents))
      ensures (l2.contents, log) == Behind(l2.Shape(), old(l2.contents), old(log), addr, write, victim)
      ensures r.hit == CacheSpec.Access(l2.Shape(), old(l2.contents), addr, write).1
      ensures totalCycles == old(totalCycles)
              + if CacheSpec.Access(l2.Shape(), old(l2.contents), addr, write).2.Some? then memoryLatency else 0
      ensures r == Result(r.hit, l1HitLatency + l2HitLatency + (if r.hit then 0 else memoryLatency), None, true, !r.hit)
    {
      hide Cache.Ok, Cache.Room, CacheSpec.Access, Fits;
      var second := Second(addr, write);
      r := if second.hit
           then Result(true, l1HitLatency + l2HitLatency, None, true, false)
           else Result(false, l1HitLatency + l2HitLatency + memoryLatency, None, true, true);
      if second.writeback.Some? {
        totalCycles := totalCycles + memoryLatency;
      }
      log := Logged(log, second.writeback);
      if victim.Some? {
        var third := Second(victim.value, true);
        log := Logged(log, third.writeback);
      }
    }

    /** cache_hierarchy_access */
    method Access(addr: nat, write: bool, isInstruction: bool) returns (r: Result)
      requires Ok() && Room()
      modifies this, Footprint()
      ensures Ok() && State() == HierAccess(Shapes(), old(State()), addr, write, isInstruction)
      ensures memoryAccesses == old(memoryAccesses) + 1
      ensures r.hit == !(r.l1Miss && r.l2Miss)
      ensures r.latency == l1HitLatency + (if r.l1Miss then l2HitLatency else 0) + (if r.l2Miss then memoryLatency else 0)
      ensures totalCycles == old(totalCycles) + r.latency
              + if r.l1Miss && CacheSpec.Access(Shapes().l2, old(State()).l2, addr, write).2.Some? then memoryLatency else 0
    {
      hide Cache.Ok, Cache.Room, CacheSpec.Access, Fits, Behind;
      memoryAccesses := memoryAccesses + 1;
      r := First(addr, write, isInstruction);
      if r.hit {
        r := Result(true, l1HitLatency, None, false, false);
      } else {
        r := Miss(addr, write, r.writeback);
      }
      totalCycles := totalCycles + r.latency;
    }
  }
}
