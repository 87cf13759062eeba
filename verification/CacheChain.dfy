/** Caches that hand their misses on (riscv/cachesim.cc): what every level sees is what the levels before
    it miss and write back. */
module CacheChain {
  import opened CacheSim
  import opened Words
  import opened Wrappers

  datatype Stats = Stats(readAccesses: nat, readMisses: nat, bytesRead: nat,
                         writeAccesses: nat, writeMisses: nat, bytesWritten: nat, writebacks: nat)

  predicate Feeds(config: seq<Config>, i: nat, j: nat) {
    i < |config| && config[i].handler == Some(j)
  }

  /** The misses of those of the first `n` levels that hand them to level `j`. */
  function Misses(config: seq<Config>, stats: seq<Stats>, j: nat, n: nat): (m: nat)
    requires n <= |config| == |stats|
  {
    if n == 0 then 0
    else Misses(config, stats, j, n - 1) + if Feeds(config, n - 1, j) then stats[n - 1].readMisses + stats[n - 1].writeMisses else 0
  }

  /** The lines that those of the first `n` levels have written back to level `j`. */
  function Writebacks(config: seq<Config>, stats: seq<Stats>, j: nat, n: nat): (m: nat)
    requires n <= |config| == |stats|
  {
    if n == 0 then 0
    else Writebacks(config, stats, j, n - 1) + if Feeds(config, n - 1, j) then stats[n - 1].writebacks else 0
  }

  /** What level `j` has been asked beyond what the levels before it handed on. */
  function ReadBalance(config: seq<Config>, stats: seq<Stats>, j: nat): (b: int)
    requires j < |config| == |stats|
  {
    stats[j].readAccesses - Misses(config, stats, j, |config|)
  }

  function WriteBalance(config: seq<Config>, stats: seq<Stats>, j: nat): (b: int)
    requires j < |config| == |stats|
  {
    stats[j].writeAccesses - Writebacks(config, stats, j, |config|)
  }

  lemma {:induction false} MissesUpdated(config: seq<Config>, stats: seq<Stats>, i: nat, s: Stats, j: nat, n: nat)
    requires n <= |config| == |stats| && i < |config|
    ensures Misses(config, stats[i := s], j, n) == Misses(config, stats, j, n)
            + if i < n && Feeds(config, i, j) then s.readMisses + s.writeMisses - stats[i].readMisses - stats[i].writeMisses else 0
    ensures Writebacks(config, stats[i := s], j, n) == Writebacks(config, stats, j, n)
            + if i < n && Feeds(config, i, j) then s.writebacks - stats[i].writebacks else 0
    decreases n
  {
    if n > 0 {
      MissesUpdated(config, stats, i, s, j, n - 1);
    }
  }

  lemma {:induction false} NoTraffic(config: seq<Config>, stats: seq<Stats>, j: nat, n: nat)
    requires n <= |config| == |stats| && forall i | 0 <= i < |stats| :: stats[i] == Stats(0, 0, 0, 0, 0, 0, 0)
    ensures Misses(config, stats, j, n) == 0 && Writebacks(config, stats, j, n) == 0
    decreases n
  {
    if n > 0 {
      NoTraffic(config, stats, j, n - 1);
    }
  }

  /** The balances after the statistics of one level change. */
  lemma BalanceUpdated(config: seq<Config>, stats: seq<Stats>, i: nat, s: Stats, j: nat)
    requires i < |config| == |stats| && j < |config| && !Feeds(config, i, i)
    ensures ReadBalance(config, stats[i := s], j) == ReadBalance(config, stats, j)
            + (if j == i then s.readAccesses - stats[i].readAccesses else 0)
            - (if Feeds(config, i, j) then s.readMisses + s.writeMisses - stats[i].readMisses - stats[i].writeMisses else 0)
    ensures WriteBalance(config, stats[i := s], j) == WriteBalance(config, stats, j)
            + (if j == i then s.writeAccesses - stats[i].writeAccesses else 0)
            - (if Feeds(config, i, j) then s.writebacks - stats[i].writebacks else 0)
  {
    MissesUpdated(config, stats, i, s, j, |config|);
  }

  /** The statistics after an access that hits, and after one that misses. */
  function Counted(s: Stats, bytes: nat, store: bool): (r: Stats) {
    if store then s.(writeAccesses := s.writeAccesses + 1, bytesWritten := s.bytesWritten + bytes)
    else s.(readAccesses := s.readAccesses + 1, bytesRead := s.bytesRead + bytes)
  }

  function Missed(s: Stats, store: bool): (r: Stats) {
    if store then s.(writeMisses := s.writeMisses + 1) else s.(readMisses := s.readMisses + 1)
  }

  function WrittenBack(s: Stats, victim: bv64): (r: Stats) {
    s.(writebacks := s.writebacks + if IsValid(victim) && IsDirty(victim) then 1 else 0)
  }

  /** A request to a level: the address, and whether it is a store. */
  datatype Request = Request(addr: bv64, store: bool)

  /** What a miss hands on: the line of a dirty victim, rebuilt from its tag, and then the missing line. */
  function Handed(c: Config, victim: bv64, addr: bv64): (r: seq<Request>) {
    Written(c, victim) + [Request(ClearBelow(addr, LineSize(c)), false)]
  }

  function Written(c: Config, victim: bv64): (r: seq<Request>) {
    if IsValid(victim) && IsDirty(victim) then [Request(Rebuilt(victim, c.shift), true)] else []
  }

  /** What a request makes of a level, and what the level hands on. */
  ghost predicate Serves(c: Config, t: Tags, r: Request, t': Tags, out: seq<Request>)
    requires TagsOk(c, t)
  {
    var line := LineNumber(r.addr, c.shift);
    if Present(c, t, line) then HitEffect(c, t, t', line, r.store) && out == []
    else exists way :: MissEffect(c, t, t', line, r.store, way) && out == Handed(c, Victim(c, t, line, way), r.addr)
  }

  function Count(rs: seq<Request>, store: bool): (n: nat) {
    if rs == [] then 0 else Count(rs[..|rs| - 1], store) + if rs[|rs| - 1].store == store then 1 else 0
  }

  // ----- where tags and requests come from

  /** The line of a tag was asked for, and if the tag is dirty by a store. */
  ghost predicate Came(asked: seq<Request>, shift: nat, tag: bv64) {
    exists k :: 0 <= k < |asked| && CameFrom(asked[k], shift, tag)
  }

  predicate CameFrom(r: Request, shift: nat, tag: bv64) {
    LineNumber(r.addr, shift) == LineOf(tag) && (IsDirty(tag) ==> r.store)
  }

  /** Every line of a level was asked for. */
  ghost predicate Backed(c: Config, t: Tags, asked: seq<Request>)
    requires TagsOk(c, t)
  {
    forall p | Inhabited(c, t, p) && IsValid(TagAt(c, t, p)) :: Came(asked, c.shift, TagAt(c, t, p))
  }

  /** A request to level `j` comes from outside, or is for the line of a request to a level that feeds `j`, of a
      store if it is a store. */
  ghost predicate Sourced(config: seq<Config>, direct: seq<seq<Request>>, asked: seq<seq<Request>>, j: nat, r: Request)
    requires j < |config| == |direct| == |asked|
  {
    r in direct[j] || exists i: nat, k: nat | i < |config| && k < |asked[i]| :: Feeds(config, i, j) && IsLineOf(r, asked[i][k], config[i])
  }

  predicate IsLineOf(r: Request, q: Request, c: Config) {
    r.addr == ClearBelow(q.addr, LineSize(c)) && (r.store ==> q.store)
  }

  ghost predicate AllSourced(config: seq<Config>, direct: seq<seq<Request>>, asked: seq<seq<Request>>)
    requires |config| == |direct| == |asked|
  {
    forall j, k | 0 <= j < |config| && 0 <= k < |asked[j]| :: Sourced(config, direct, asked, j, asked[j][k])
  }

  /** Logs only grow. */
  predicate Grown(a: seq<seq<Request>>, b: seq<seq<Request>>) {
    |a| == |b| && forall j | 0 <= j < |a| :: a[j] <= b[j]
  }

  lemma SourcedGrows(config: seq<Config>, direct: seq<seq<Request>>, asked: seq<seq<Request>>,
                     direct': seq<seq<Request>>, asked': seq<seq<Request>>, j: nat, r: Request)
    requires j < |config| == |direct| == |asked| && Grown(direct, direct') && Grown(asked, asked')
    requires Sourced(config, direct, asked, j, r)
    ensures Sourced(config, direct', asked', j, r)
  {
    hide IsLineOf;
    if r in direct[j] {
      assert r in direct'[j];
    } else {
      var i: nat, k: nat :| i < |config| && k < |asked[i]| && Feeds(config, i, j) && IsLineOf(r, asked[i][k], config[i]);
      assert asked'[i][k] == asked[i][k];
    }
  }

  /** One more request that has a source. */
  lemma AskedMore(config: seq<Config>, direct: seq<seq<Request>>, asked: seq<seq<Request>>, i: nat, r: Request)
    requires i < |config| == |direct| == |asked| && AllSourced(config, direct, asked) && Sourced(config, direct, asked, i, r)
    ensures AllSourced(config, direct, asked[i := asked[i] + [r]]) && Grown(asked, asked[i := asked[i] + [r]])
  {
    hide Sourced;
    var more := asked[i := asked[i] + [r]];
    forall j, k | 0 <= j < |config| && 0 <= k < |more[j]| ensures Sourced(config, direct, more, j, more[j][k]) {
      SourcedGrows(config, direct, asked, direct, more, j, more[j][k]);
    }
  }

  lemma DirectMore(config: seq<Config>, direct: seq<seq<Request>>, asked: seq<seq<Request>>, i: nat, r: Request)
    requires i < |config| == |direct| == |asked| && AllSourced(config, direct, asked)
    ensures var more := direct[i := direct[i] + [r]]; AllSourced(config, more, asked) && Sourced(config, more, asked, i, r)
  {
    hide Sourced;
    var more := direct[i := direct[i] + [r]];
    forall j, k | 0 <= j < |config| && 0 <= k < |asked[j]| ensures Sourced(config, more, asked, j, asked[j][k]) {
      SourcedGrows(config, direct, asked, more, asked, j, asked[j][k]);
    }
    DirectSourced(config, more, asked, i, r);
  }

  lemma DirectSourced(config: seq<Config>, direct: seq<seq<Request>>, asked: seq<seq<Request>>, i: nat, r: Request)
    requires i < |config| == |direct| == |asked| && r in direct[i]
    ensures Sourced(config, direct, asked, i, r)
  {
  }

  lemma BackedMore(c: Config, t: Tags, asked: seq<Request>, r: Request)
    requires TagsOk(c, t) && Backed(c, t, asked)
    ensures Backed(c, t, asked + [r])
  {
    hide CameFrom, TagsOk, IsValid, TagAt, Inhabited;
    forall p | Inhabited(c, t, p) && IsValid(TagAt(c, t, p)) ensures Came(asked + [r], c.shift, TagAt(c, t, p)) {
      var k :| 0 <= k < |asked| && CameFrom(asked[k], c.shift, TagAt(c, t, p));
      assert (asked + [r])[k] == asked[k];
    }
  }

  /** The last request is for the line. */
  predicate LastFor(c: Config, asked: seq<Request>, line: bv64) {
    asked != [] && LineNumber(asked[|asked| - 1].addr, c.shift) == line
  }

  lemma BackedMarked(c: Config, t: Tags, asked: seq<Request>, p: Place, line: bv64)
    requires TagsOk(c, t) && Holds(c, t, p, line) && TagsOk(c, Put(c, t, p, Marked(TagAt(c, t, p)))) && Backed(c, t, asked)
    requires LastFor(c, asked, line) && asked[|asked| - 1].store
    ensures Backed(c, Put(c, t, p, Marked(TagAt(c, t, p))), asked)
  {
    hide IsValid, LineOf, IsDirty, Marked, LineNumber, RowOf, Came;
    var m := Marked(TagAt(c, t, p));
    MarkedFields(TagAt(c, t, p));
    CameStored(c, asked, m);
    assert forall q | Inhabited(c, t, q) && q != p && !(t.Lines? && q.way == p.way) :: TagAt(c, Put(c, t, p, m), q) == TagAt(c, t, q);
  }

  lemma BackedVictimized(c: Config, t: Tags, asked: seq<Request>, line: bv64, way: nat)
    requires TagsOk(c, t) && way < c.ways && TagsOk(c, Victimized(c, t, line, way, Packed(line))) && Backed(c, t, asked)
    requires LastFor(c, asked, line) && Fits(line)
    ensures Backed(c, Victimized(c, t, line, way, Packed(line)), asked)
  {
    hide IsValid, LineOf, IsDirty, Packed, LineNumber, Fits, RowOf, Came;
    PackedFields(line);
    CameLast(c, asked, line);
    var r := Victimized(c, t, line, way, Packed(line));
    forall p | Inhabited(c, r, p) && IsValid(TagAt(c, r, p)) ensures Came(asked, c.shift, TagAt(c, r, p)) {
      if t.Rows? {
        assert p == Place(RowOf(c, line), way) || TagAt(c, r, p) == TagAt(c, t, p);
      } else if |t.lines| == c.ways && way <= p.way < |r.lines| - 1 {
        assert TagAt(c, r, p) == TagAt(c, t, Place(0, p.way + 1));
      } else if p.way < |r.lines| - 1 {
        assert TagAt(c, r, p) == TagAt(c, t, p);
      }
    }
  }

  lemma CameStored(c: Config, asked: seq<Request>, tag: bv64)
    requires LastFor(c, asked, LineOf(tag)) && asked[|asked| - 1].store
    ensures Came(asked, c.shift, tag)
  {
    hide LineOf, IsDirty, LineNumber;
    assert CameFrom(asked[|asked| - 1], c.shift, tag);
  }

  lemma CameLast(c: Config, asked: seq<Request>, line: bv64)
    requires LastFor(c, asked, line) && Fits(line)
    ensures Came(asked, c.shift, Packed(line))
  {
    hide IsValid, LineOf, IsDirty, Packed, LineNumber, Fits;
    PackedFields(line);
    assert CameFrom(asked[|asked| - 1], c.shift, Packed(line));
  }

  lemma VictimCame(c: Config, t: Tags, asked: seq<Request>, line: bv64, way: nat)
    requires TagsOk(c, t) && way < c.ways && Backed(c, t, asked) && IsValid(Victim(c, t, line, way))
    ensures Came(asked, c.shift, Victim(c, t, line, way))
  {
    hide TagsOk, IsValid, Came, RowOf;
    assert !IsValid(0) by { ZeroInvalid(); }
    assert t.Rows? ==> TagAt(c, t, Place(RowOf(c, line), way)) == Victim(c, t, line, way);
    assert t.Lines? ==> TagAt(c, t, Place(0, way)) == Victim(c, t, line, way);
  }

  lemma ZeroInvalid()
    ensures !IsValid(0)
  {
  }

  /** What a level hands on when a dirty victim goes: the line of a store that the level was asked for, as a store, and
      then the missing line. */
  lemma HandedLine(c: Config, asked: seq<Request>, victim: bv64, addr: bv64)
    requires IsValid(victim) && IsDirty(victim) && Came(asked, c.shift, victim)
    ensures exists k :: 0 <= k < |asked| && HandsOn(c, asked[k], victim, addr)
  {
    hide LineOf, IsValid, IsDirty, ClearBelow;
    var k :| 0 <= k < |asked| && CameFrom(asked[k], c.shift, victim);
    RebuildExact(asked[k].addr, c.shift, LineSize(c), victim);
    assert HandsOn(c, asked[k], victim, addr);
  }

  predicate HandsOn(c: Config, q: Request, victim: bv64, addr: bv64) {
    && q.store && LineNumber(q.addr, c.shift) == LineOf(victim)
    && Handed(c, victim, addr) == [Request(ClearBelow(q.addr, LineSize(c)), true), Request(ClearBelow(addr, LineSize(c)), false)]
  }

  /** The requests that level `i` makes have a source. */
  lemma HandedSourced(config: seq<Config>, direct: seq<seq<Request>>, asked: seq<seq<Request>>, i: nat, j: nat, q: Request, r: Request)
    requires i < |config| == |direct| == |asked| && j < |config| && Feeds(config, i, j)
    requires q in asked[i] && IsLineOf(r, q, config[i])
    ensures Sourced(config, direct, asked, j, r)
  {
    hide IsLineOf;
    var k :| 0 <= k < |asked[i]| && asked[i][k] == q;
  }

  class Simulator {
    const config: seq<Config>
    var tags: seq<Tags>
    var stats: seq<Stats>
    /** The requests each level has had from outside. */
    ghost var direct: seq<seq<Request>>
    /** Every request each level has had, in order. */
    ghost var asked: seq<seq<Request>>

    /** Misses go to later levels only, so the chain has no cycle. Every line was asked for, and every request has a source. */
    ghost predicate Ok()
      reads this
    {
      && |tags| == |config| == |stats| == |asked| == |direct|
      && (forall i | 0 <= i < |config| :: TagsOk(config[i], tags[i]) && Backed(config[i], tags[i], asked[i]))
      && AllSourced(config, direct, asked)
      && (forall i | 0 <= i < |config| && config[i].handler.Some? :: i < config[i].handler.value < |config|)
    }

    /** Every level has read what was asked from outside and what the levels before it missed, and has written
        what was asked from outside and what the levels before it wrote back. */
    ghost predicate Conserved()
      requires Ok()
      reads this
    {
      forall j | 0 <= j < |config| ::
           && stats[j].readAccesses == Count(direct[j], false) + Misses(config, stats, j, |config|)
           && stats[j].writeAccesses == Count(direct[j], true) + Writebacks(config, stats, j, |config|)
    }

    constructor (config: seq<Config>)
      requires forall i | 0 <= i < |config| :: ConfigOk(config[i])
      requires forall i | 0 <= i < |config| && config[i].handler.Some? :: i < config[i].handler.value < |config|
      ensures Ok() && Conserved() && this.config == config
      ensures forall i | 0 <= i < |config| :: tags[i] == Empty(config[i]) && direct[i] == []
    {
      this.config := config;
      tags := seq(|config|, i requires 0 <= i < |config| => Empty(config[i]));
      stats := seq(|config|, _ => Stats(0, 0, 0, 0, 0, 0, 0));
      direct := seq(|config|, _ => []);
      asked := seq(|config|, _ => []);
      new;
      forall i | 0 <= i < |config| ensures TagsOk(config[i], tags[i]) && Backed(config[i], tags[i], asked[i]) {
        EmptyOk(config[i]);
      }
      forall j | 0 <= j < |config| {
        NoTraffic(config, stats, j, |config|);
      }
    }

    /** An access from outside, as a tracer makes it. */
    method Trace(i: nat, addr: bv64, bytes: nat, store: bool)
      requires Ok() && Conserved() && i < |config|
      modifies this
      ensures Ok() && Conserved() && direct == old(direct)[i := old(direct[i]) + [Request(addr, store)]]
      ensures Grown(old(asked), asked) && asked[i] == old(asked[i]) + [Request(addr, store)]
      ensures forall j | 0 <= j < i :: tags[j] == old(tags[j]) && stats[j] == old(stats[j]) && asked[j] == old(asked[j])
    {
      hide TagsOk, Misses, Writebacks, Backed, AllSourced, Sourced, Count;
      DirectMore(config, direct, asked, i, Request(addr, store));
      CountMore(direct[i], Request(addr, store));
      direct := direct[i := direct[i] + [Request(addr, store)]];
      var _ := Access(i, addr, bytes, store);
      assert forall j | 0 <= j < |config| ::
          ReadBalance(config, stats, j) == Count(direct[j], false) && WriteBalance(config, stats, j) == Count(direct[j], true);
    }

    /** Level `i` counts something. */
    method SetStats(i: nat, s: Stats)
      requires Ok() && i < |config|
      modifies this`stats
      ensures Ok() && stats == old(stats)[i := s]
      ensures forall j | 0 <= j < |config| ::
                && ReadBalance(config, stats, j) == old(ReadBalance(config, stats, j))
                   + (if j == i then s.readAccesses - old(stats[i]).readAccesses else 0)
                   - (if Feeds(config, i, j) then s.readMisses + s.writeMisses - old(stats[i]).readMisses - old(stats[i]).writeMisses else 0)
                && WriteBalance(config, stats, j) == old(WriteBalance(config, stats, j))
                   + (if j == i then s.writeAccesses - old(stats[i]).writeAccesses else 0)
                   - (if Feeds(config, i, j) then s.writebacks - old(stats[i]).writebacks else 0)
    {
      hide TagsOk, ReadBalance, WriteBalance, Backed, AllSourced;
      forall j | 0 <= j < |config|
        ensures ReadBalance(config, stats[i := s], j) == ReadBalance(config, stats, j)
                + (if j == i then s.readAccesses - stats[i].readAccesses else 0)
                - (if Feeds(config, i, j) then s.readMisses + s.writeMisses - stats[i].readMisses - stats[i].writeMisses else 0)
        ensures WriteBalance(config, stats[i := s], j) == WriteBalance(config, stats, j)
                + (if j == i then s.writeAccesses - stats[i].writeAccesses else 0)
                - (if Feeds(config, i, j) then s.writebacks - stats[i].writebacks else 0)
      {
        BalanceUpdated(config, stats, i, s, j);
      }
      stats := stats[i := s];
    }

    /** The part of access that writes a dirty victim back. */
    method WriteBack(i: nat, victim: bv64)
      requires Ok() && i < |config| && (IsValid(victim) ==> Came(asked[i], config[i].shift, victim))
      modifies this`tags, this`stats, this`asked
      ensures Ok() && forall j | 0 <= j < i :: tags[j] == old(tags[j]) && stats[j] == old(stats[j]) && asked[j] == old(asked[j])
      ensures tags[i] == old(tags[i]) && asked[i] == old(asked[i]) && Grown(old(asked), asked)
      ensures config[i].handler.Some? ==>
                asked[config[i].handler.value] == old(asked[config[i].handler.value]) + Written(config[i], victim)
      ensures stats[i] == WrittenBack(old(stats[i]), victim)
      ensures forall j | 0 <= j < |config| ::
                && ReadBalance(config, stats, j) == old(ReadBalance(config, stats, j))
                && WriteBalance(config, stats, j) == old(WriteBalance(config, stats, j))
      decreases |config| - i, 0
    {
      hide IsValid, IsDirty, TagsOk, Rebuilt, ReadBalance, WriteBalance, Backed, AllSourced, Sourced, Came, Serves, FromStores, Count, Conserved, NatOf, LineSize;
      var c := config[i];
      if IsValid(victim) && IsDirty(victim) {
        if c.handler.Some? {
          VictimSourced(config, direct, asked, i, victim);
          var _ := Access(c.handler.value, Rebuilt(victim, c.shift), NatOf(LineSize(c)), true);
        }
        SetStats(i, stats[i].(writebacks := stats[i].writebacks + 1));
      }
    }

    /** The miss part of access, once the victim has been chosen. */
    method Fill(i: nat, addr: bv64, victim: bv64, ghost store: bool)
      requires Ok() && i < |config| && Request(addr, store) in asked[i]
      requires IsValid(victim) ==> Came(asked[i], config[i].shift, victim)
      modifies this`tags, this`stats, this`asked
      ensures Ok() && forall j | 0 <= j < i :: tags[j] == old(tags[j]) && stats[j] == old(stats[j]) && asked[j] == old(asked[j])
      ensures tags[i] == old(tags[i]) && asked[i] == old(asked[i]) && Grown(old(asked), asked)
      ensures config[i].handler.Some? ==>
                asked[config[i].handler.value] == old(asked[config[i].handler.value]) + Handed(config[i], victim, addr)
      ensures stats[i] == WrittenBack(old(stats[i]), victim)
      ensures forall j | 0 <= j < |config| ::
                && ReadBalance(config, stats, j) == old(ReadBalance(config, stats, j)) + (if Feeds(config, i, j) then 1 else 0)
                && WriteBalance(config, stats, j) == old(WriteBalance(config, stats, j))
      decreases |config| - i, 1
    {
      hide IsValid, IsDirty, TagsOk, Rebuilt, ClearBelow, ReadBalance, WriteBalance, WrittenBack, Written, Backed, AllSourced, Sourced, Came;
      var c := config[i];
      WriteBack(i, victim);
      if c.handler.Some? {
        HandedSourced(config, direct, asked, i, c.handler.value, Request(addr, store), Request(ClearBelow(addr, LineSize(c)), false));
        var _ := Access(c.handler.value, ClearBelow(addr, LineSize(c)), NatOf(LineSize(c)), false);
      }
    }

    /** The new line takes the place of its victim. */
    method Install(i: nat, addr: bv64, way: nat)
      requires Ok() && i < |config| && !Present(config[i], tags[i], LineNumber(addr, config[i].shift)) && way < config[i].ways
      requires asked[i] != [] && asked[i][|asked[i]| - 1].addr == addr
      modifies this`tags
      ensures Ok()
      ensures var line := LineNumber(addr, config[i].shift);
              tags == old(tags)[i := Victimized(config[i], old(tags[i]), line, way, Packed(line))]
    {
      hide TagsOk, Fits, Packed, Present, Victimized, LineNumber, Backed, AllSourced;
      var c, t := config[i], tags[i];
      var line := LineNumber(addr, c.shift);
      ConfigShift(c, t);
      LineFits(addr, c.shift);
      VictimizedOk(c, t, line, way);
      BackedVictimized(c, t, asked[i], line, way);
      tags := tags[i := Victimized(c, t, line, way, Packed(line))];
    }

    /** A line that came in for a store is made dirty. */
    method MarkInstalled(i: nat, addr: bv64, way: nat, t: Tags)
      requires Ok() && i < |config| && TagsOk(config[i], t) && !Present(config[i], t, LineNumber(addr, config[i].shift)) && way < config[i].ways
      requires var line := LineNumber(addr, config[i].shift); tags[i] == Victimized(config[i], t, line, way, Packed(line))
      requires asked[i] != [] && asked[i][|asked[i]| - 1] == Request(addr, true)
      modifies this`tags
      ensures Ok()
      ensures var line := LineNumber(addr, config[i].shift);
              tags == old(tags)[i := Victimized(config[i], t, line, way, Marked(Packed(line)))]
    {
      hide TagsOk, Fits, Packed, Present, Victimized, LineNumber, Backed, AllSourced, Marked, Put, TagAt, Inhabited, Installed;
      var c := config[i];
      var line := LineNumber(addr, c.shift);
      ConfigShift(c, t);
      LineFits(addr, c.shift);
      VictimizedOk(c, t, line, way);
      var at := Installed(c, t, line, way);
      MarkOk(c, tags[i], at, line);
      VictimizedMarked(c, t, line, way, Packed(line), Marked(Packed(line)));
      BackedMarked(c, tags[i], asked[i], at, line);
      tags := tags[i := Put(c, tags[i], at, Marked(TagAt(c, tags[i], at)))];
    }

    /** The part of access that brings a missing line in. */
    method Bring(i: nat, addr: bv64, store: bool) returns (ghost out: seq<Request>)
      requires Ok() && i < |config| && !Present(config[i], tags[i], LineNumber(addr, config[i].shift))
      requires asked[i] != [] && asked[i][|asked[i]| - 1] == Request(addr, store)
      modifies this`tags, this`stats, this`asked
      ensures Ok() && forall j | 0 <= j < i :: tags[j] == old(tags[j]) && stats[j] == old(stats[j]) && asked[j] == old(asked[j])
      ensures asked[i] == old(asked[i]) && Grown(old(asked), asked)
      ensures Serves(config[i], old(tags[i]), Request(addr, store), tags[i], out)
      ensures config[i].handler.Some? ==> asked[config[i].handler.value] == old(asked)[config[i].handler.value] + out
      ensures FromStores(config[i], asked[i], out)
      ensures stats[i] == old(stats[i]).(readMisses := old(stats[i]).readMisses + (if store then 0 else 1),
                                         writeMisses := old(stats[i]).writeMisses + (if store then 1 else 0),
                                         writebacks := old(stats[i]).writebacks + Count(out, true))
      ensures forall j | 0 <= j < |config| ::
                && ReadBalance(config, stats, j) == old(ReadBalance(config, stats, j))
                && WriteBalance(config, stats, j) == old(WriteBalance(config, stats, j))
      decreases |config| - i, 3
    {
      hide Handed, IsValid, IsDirty, TagsOk, Fits, Marked, Packed, ReadBalance, WriteBalance, Present, Victim, Victimized,
           LineNumber, WrittenBack, Backed, AllSourced, Sourced, Came, FromStores, Serves, Count, Grown, MissEffect, Conserved;
      var c, t := config[i], tags[i];
      var line := LineNumber(addr, c.shift);
      ConfigShift(c, t);
      SetStats(i, Missed(stats[i], store));
      var way: nat :| way < c.ways;
      out := Handed(c, Victim(c, t, line, way), addr);
      Exchange(i, addr, way, store);
      MissServed(c, t, Request(addr, store), tags[i], way, old(stats[i]));
    }

    /** The victim goes, and the line comes in its place. */
    method Exchange(i: nat, addr: bv64, way: nat, store: bool)
      requires Ok() && i < |config| && !Present(config[i], tags[i], LineNumber(addr, config[i].shift)) && way < config[i].ways
      requires asked[i] != [] && asked[i][|asked[i]| - 1] == Request(addr, store)
      modifies this`tags, this`stats, this`asked
      ensures Ok() && forall j | 0 <= j < i :: tags[j] == old(tags[j]) && stats[j] == old(stats[j]) && asked[j] == old(asked[j])
      ensures asked[i] == old(asked[i]) && Grown(old(asked), asked)
      ensures MissEffect(config[i], old(tags[i]), tags[i], LineNumber(addr, config[i].shift), store, way)
      ensures var victim := Victim(config[i], old(tags[i]), LineNumber(addr, config[i].shift), way);
              && (config[i].handler.Some? ==>
                    asked[config[i].handler.value] == old(asked)[config[i].handler.value] + Handed(config[i], victim, addr))
              && FromStores(config[i], asked[i], Handed(config[i], victim, addr))
              && stats[i] == WrittenBack(old(stats[i]), victim)
      ensures forall j | 0 <= j < |config| ::
                && ReadBalance(config, stats, j) == old(ReadBalance(config, stats, j)) + (if Feeds(config, i, j) then 1 else 0)
                && WriteBalance(config, stats, j) == old(WriteBalance(config, stats, j))
      decreases |config| - i, 2
    {
      hide Handed, IsValid, IsDirty, TagsOk, Fits, Marked, Packed, ReadBalance, WriteBalance, Present, Victim, Victimized,
           LineNumber, WrittenBack, Backed, AllSourced, Sourced, Came, FromStores, Count, Grown, MissEffect, Feeds;
      var c, t := config[i], tags[i];
      var line := LineNumber(addr, c.shift);
      var victim := Victim(c, t, line, way);
      if IsValid(victim) { VictimCame(c, t, asked[i], line, way); }
      VictimLine(c, asked[i], victim, addr);
      Install(i, addr, way);
      Fill(i, addr, victim, store);
      if store {
        MarkInstalled(i, addr, way, t);
      }
      MissIs(c, t, tags[i], line, store, way);
    }

    /** access: what it hands on, in order, is `out`. */
    method Access(i: nat, addr: bv64, bytes: nat, store: bool) returns (ghost out: seq<Request>)
      requires Ok() && i < |config| && Sourced(config, direct, asked, i, Request(addr, store))
      modifies this`tags, this`stats, this`asked
      ensures Ok() && forall j | 0 <= j < i :: tags[j] == old(tags[j]) && stats[j] == old(stats[j]) && asked[j] == old(asked[j])
      ensures asked[i] == old(asked[i]) + [Request(addr, store)] && Grown(old(asked), asked)
      ensures Serves(config[i], old(tags[i]), Request(addr, store), tags[i], out)
      ensures config[i].handler.Some? ==> asked[config[i].handler.value] == old(asked)[config[i].handler.value] + out
      ensures FromStores(config[i], asked[i], out)
      ensures stats[i] == Stats(old(stats[i]).readAccesses + (if store then 0 else 1),
                                old(stats[i]).readMisses + (if store || out == [] then 0 else 1),
                                old(stats[i]).bytesRead + (if store then 0 else bytes),
                                old(stats[i]).writeAccesses + (if store then 1 else 0),
                                old(stats[i]).writeMisses + (if store && out != [] then 1 else 0),
                                old(stats[i]).bytesWritten + (if store then bytes else 0),
                                old(stats[i]).writebacks + Count(out, true))
      ensures out == [] ==> forall j | 0 <= j < |config| && j != i ::
                tags[j] == old(tags[j]) && stats[j] == old(stats[j]) && asked[j] == old(asked[j])
      ensures forall j | 0 <= j < |config| ::
                && ReadBalance(config, stats, j) == old(ReadBalance(config, stats, j)) + (if j == i && !store then 1 else 0)
                && WriteBalance(config, stats, j) == old(WriteBalance(config, stats, j)) + (if j == i && store then 1 else 0)
      decreases |config| - i, 4
    {
      hide Handed, IsValid, IsDirty, TagsOk, LineOf, Fits, Marked, ReadBalance, WriteBalance, Present, Victim, Put, TagAt, Inhabited,
           LineNumber, WrittenBack, MissEffect, Backed, AllSourced, Sourced, FromStores, Serves, Conserved, NatOf, LineSize, Feeds;
      var c, t := config[i], tags[i];
      var line := LineNumber(addr, c.shift);
      ConfigShift(c, t);
      LineFits(addr, c.shift);
      AskedMore(config, direct, asked, i, Request(addr, store));
      BackedMore(c, t, asked[i], Request(addr, store));
      asked := asked[i := asked[i] + [Request(addr, store)]];
      SetStats(i, Counted(stats[i], bytes, store));
      var at := CheckTag(c, t, line);
      if at.None? {
        out := Bring(i, addr, store);
        SomeHanded(c, t, Request(addr, store), tags[i], out);
        return;
      }
      HoldsPresent(c, t, at.value, line);
      if store {
        MarkOk(c, t, at.value, line);
        BackedMarked(c, t, asked[i], at.value, line);
        tags := tags[i := Put(c, t, at.value, Marked(TagAt(c, t, at.value)))];
      }
      out := [];
      HitServed(c, t, Request(addr, store), tags[i], asked[i]);
    }
  }

  lemma HitServed(c: Config, t: Tags, r: Request, t': Tags, asked: seq<Request>)
    requires TagsOk(c, t) && Present(c, t, LineNumber(r.addr, c.shift)) && HitEffect(c, t, t', LineNumber(r.addr, c.shift), r.store)
    ensures Serves(c, t, r, t', []) && FromStores(c, asked, [])
  {
    hide HitEffect, Present, TagsOk, LineNumber;
  }

  lemma CountHanded(c: Config, v: bv64, addr: bv64)
    ensures Count(Handed(c, v, addr), true) == if IsValid(v) && IsDirty(v) then 1 else 0
  {
    hide IsValid, IsDirty, Rebuilt, ClearBelow;
    var r := Request(Rebuilt(v, c.shift), true);
    CountMore(Written(c, v), Request(ClearBelow(addr, LineSize(c)), false));
    CountMore([], r);
    assert [] + [r] == [r];
  }

  lemma MissServed(c: Config, t: Tags, r: Request, t': Tags, way: nat, s: Stats)
    requires TagsOk(c, t) && way < c.ways && !Present(c, t, LineNumber(r.addr, c.shift))
    requires MissEffect(c, t, t', LineNumber(r.addr, c.shift), r.store, way)
    ensures var v := Victim(c, t, LineNumber(r.addr, c.shift), way); var out := Handed(c, v, r.addr);
            && Serves(c, t, r, t', out)
            && WrittenBack(Missed(s, r.store), v) == s.(readMisses := s.readMisses + (if r.store then 0 else 1),
                                                        writeMisses := s.writeMisses + (if r.store then 1 else 0),
                                                        writebacks := s.writebacks + Count(out, true))
  {
    hide MissEffect, Present, TagsOk, LineNumber, Victim, IsValid, IsDirty, Handed, Count;
    CountHanded(c, Victim(c, t, LineNumber(r.addr, c.shift), way), r.addr);
  }

  lemma MissIs(c: Config, t: Tags, t': Tags, line: bv64, store: bool, way: nat)
    requires TagsOk(c, t) && way < c.ways
    requires t' == Victimized(c, t, line, way, if store then Marked(Packed(line)) else Packed(line))
    ensures MissEffect(c, t, t', line, store, way)
  {
  }

  lemma SomeHanded(c: Config, t: Tags, r: Request, t': Tags, out: seq<Request>)
    requires TagsOk(c, t) && !Present(c, t, LineNumber(r.addr, c.shift)) && Serves(c, t, r, t', out)
    ensures out != []
  {
    hide MissEffect, Present, TagsOk, LineNumber, Victim, IsValid, IsDirty, Rebuilt, ClearBelow;
  }

  /** Every store handed on is for the line of a store that the level was asked for. */
  ghost predicate FromStores(c: Config, asked: seq<Request>, out: seq<Request>) {
    forall r | r in out && r.store :: exists k :: 0 <= k < |asked| && asked[k].store && r.addr == ClearBelow(asked[k].addr, LineSize(c))
  }

  lemma VictimLine(c: Config, asked: seq<Request>, victim: bv64, addr: bv64)
    requires IsValid(victim) ==> Came(asked, c.shift, victim)
    ensures FromStores(c, asked, Handed(c, victim, addr))
  {
    hide Came, IsValid, IsDirty, ClearBelow, Rebuilt, LineNumber, LineOf;
    if IsValid(victim) && IsDirty(victim) {
      HandedLine(c, asked, victim, addr);
    }
  }

  lemma VictimSourced(config: seq<Config>, direct: seq<seq<Request>>, asked: seq<seq<Request>>, i: nat, victim: bv64)
    requires i < |config| == |direct| == |asked| && config[i].handler.Some? && config[i].handler.value < |config|
    requires IsDirty(victim) && Came(asked[i], config[i].shift, victim)
    ensures Sourced(config, direct, asked, config[i].handler.value, Request(Rebuilt(victim, config[i].shift), true))
  {
    hide LineOf, IsDirty, ClearBelow, LineNumber, Rebuilt, Sourced;
    var c := config[i];
    var k :| 0 <= k < |asked[i]| && CameFrom(asked[i][k], c.shift, victim);
    RebuildExact(asked[i][k].addr, c.shift, LineSize(c), victim);
    HandedSourced(config, direct, asked, i, c.handler.value, asked[i][k], Request(Rebuilt(victim, c.shift), true));
  }

  lemma CountMore(rs: seq<Request>, r: Request)
    ensures forall store :: Count(rs + [r], store) == Count(rs, store) + if r.store == store then 1 else 0
  {
    assert (rs + [r])[..|rs|] == rs;
  }

  /** new uint64_t[sets*ways]() or an empty map */
  function Empty(c: Config): (t: Tags) {
    if c.full then Lines([]) else Rows(seq(c.sets, _ => seq(c.ways, _ => 0)))
  }

  lemma EmptyOk(c: Config)
    requires ConfigOk(c)
    ensures TagsOk(c, Empty(c)) && (forall line | Present(c, Empty(c), line) :: false) && Backed(c, Empty(c), [])
  {
    hide RowOf, LineOf;
    assert !IsValid(0);
  }

  lemma HoldsPresent(c: Config, t: Tags, p: Place, line: bv64)
    requires TagsOk(c, t) && Holds(c, t, p, line)
    ensures Present(c, t, line)
  {
  }

  lemma ConfigShift(c: Config, t: Tags)
    requires TagsOk(c, t)
    ensures c.shift >= 3 && c.ways > 0
  {
  }
}
