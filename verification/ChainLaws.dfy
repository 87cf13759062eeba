/** What the requests to one level of the chained simulator do to its lines, whichever victims it picks. */
module ChainLaws {
  import opened CacheChain
  import opened CacheSim
  import opened Division
  import opened Words

  /** The line is held, and has to be written back before it goes. */
  ghost predicate DirtyIn(c: Config, t: Tags, line: bv64)
    requires TagsOk(c, t)
  {
    exists p :: HeldDirty(c, t, p, line)
  }

  predicate HeldDirty(c: Config, t: Tags, p: Place, line: bv64)
    requires TagsOk(c, t)
  {
    Holds(c, t, p, line) && IsDirty(TagAt(c, t, p))
  }

  predicate Same(t: Tags, p: Place, q: Place) {
    p.way == q.way && (t.Rows? ==> p.row == q.row)
  }

  /** No line is held twice. */
  lemma OnePlace(c: Config, t: Tags, p: Place, q: Place, line: bv64)
    requires TagsOk(c, t) && Holds(c, t, p, line) && Holds(c, t, q, line)
    ensures Same(t, p, q)
  {
    hide IsValid, LineOf, RowOf;
    if t.Rows? {
      assert RowOk(c, p.row, t.rows[p.row]) && RowOk(c, q.row, t.rows[q.row]);
    }
  }

  lemma PutAt(c: Config, t: Tags, p: Place, tag: bv64, q: Place)
    requires TagsOk(c, t) && Inhabited(c, t, p) && TagsOk(c, Put(c, t, p, tag))
    ensures Inhabited(c, Put(c, t, p, tag), q) <==> Inhabited(c, t, q)
    ensures Inhabited(c, t, q) ==> TagAt(c, Put(c, t, p, tag), q) == if Same(t, p, q) then tag else TagAt(c, t, q)
  {
    hide IsValid, LineOf, RowOf;
  }

  /** A store that hits makes its line dirty, and changes no other. */
  lemma MarkedAt(c: Config, t: Tags, p: Place, line: bv64, q: Place, l: bv64)
    requires TagsOk(c, t) && Holds(c, t, p, line) && TagsOk(c, Put(c, t, p, Marked(TagAt(c, t, p))))
    ensures var t' := Put(c, t, p, Marked(TagAt(c, t, p)));
            && (Holds(c, t', q, l) <==> Holds(c, t, q, l))
            && (HeldDirty(c, t', q, l) <==> HeldDirty(c, t, q, l) || (l == line && Holds(c, t, q, l)))
  {
    hide IsValid, LineOf, IsDirty, Marked, TagsOk, Put, TagAt, Inhabited;
    MarkedFields(TagAt(c, t, p));
    PutAt(c, t, p, Marked(TagAt(c, t, p)), q);
    if Same(t, p, q) { SameTag(c, t, p, q); }
    if l == line && Holds(c, t, q, l) { OnePlace(c, t, p, q, line); }
  }

  lemma SameTag(c: Config, t: Tags, p: Place, q: Place)
    requires TagsOk(c, t) && Inhabited(c, t, p) && Same(t, p, q)
    ensures Inhabited(c, t, q) && TagAt(c, t, q) == TagAt(c, t, p)
  {
    hide IsValid, LineOf, RowOf;
  }

  /** A hit leaves the lines that are held, and a store makes its line dirty and no other. */
  lemma HitLines(c: Config, t: Tags, t': Tags, line: bv64, store: bool, l: bv64)
    requires TagsOk(c, t) && TagsOk(c, t') && HitEffect(c, t, t', line, store)
    ensures Present(c, t', l) <==> Present(c, t, l)
    ensures DirtyIn(c, t', l) <==> DirtyIn(c, t, l) || (store && l == line)
  {
    hide HeldDirty, Marked, TagsOk, Put, TagAt, Inhabited, IsValid, LineOf;
    if store {
      var p :| Holds(c, t, p, line) && t' == Put(c, t, p, Marked(TagAt(c, t, p)));
      forall q
        ensures Holds(c, t', q, l) <==> Holds(c, t, q, l)
        ensures HeldDirty(c, t', q, l) <==> HeldDirty(c, t, q, l) || (l == line && Holds(c, t, q, l))
      {
        MarkedAt(c, t, p, line, q, l);
      }
    }
  }

  /** Where the tags are after a miss: `from` is where the tag at `q` was before. */
  function Before(c: Config, t: Tags, way: nat, q: Place): (p: Place) {
    if t.Lines? && |t.lines| == c.ways && q.way >= way then Place(q.row, q.way + 1) else q
  }

  function After(c: Config, t: Tags, way: nat, p: Place): (q: Place) {
    if t.Lines? && |t.lines| == c.ways && p.way > way then Place(p.row, p.way - 1) else p
  }

  /** The place of the victim, when there is one. */
  predicate IsVictim(c: Config, t: Tags, line: bv64, way: nat, p: Place)
    requires TagsOk(c, t)
  {
    if t.Rows? then p == Place(RowOf(c, line), way) else |t.lines| == c.ways && p.way == way
  }

  lemma VictimizedAt(c: Config, t: Tags, line: bv64, way: nat, tag: bv64, q: Place)
    requires TagsOk(c, t) && way < c.ways && TagsOk(c, Victimized(c, t, line, way, tag))
    requires !Same(t, q, Installed(c, t, line, way)) && Inhabited(c, Victimized(c, t, line, way, tag), q)
    ensures var p := Before(c, t, way, q);
            && Inhabited(c, t, p) && TagAt(c, Victimized(c, t, line, way, tag), q) == TagAt(c, t, p) && !IsVictim(c, t, line, way, p)
  {
    hide IsValid, LineOf, RowOf;
  }

  lemma KeptAt(c: Config, t: Tags, line: bv64, way: nat, tag: bv64, p: Place)
    requires TagsOk(c, t) && way < c.ways && TagsOk(c, Victimized(c, t, line, way, tag))
    requires Inhabited(c, t, p) && !IsVictim(c, t, line, way, p)
    ensures var q := After(c, t, way, p);
            && Inhabited(c, Victimized(c, t, line, way, tag), q) && !Same(t, q, Installed(c, t, line, way))
            && TagAt(c, Victimized(c, t, line, way, tag), q) == TagAt(c, t, p)
  {
    hide IsValid, LineOf, RowOf;
  }

  lemma VictimAt(c: Config, t: Tags, line: bv64, way: nat, p: Place)
    requires TagsOk(c, t) && way < c.ways && Inhabited(c, t, p) && IsVictim(c, t, line, way, p)
    ensures TagAt(c, t, p) == Victim(c, t, line, way)
  {
    hide IsValid, LineOf, RowOf;
  }

  /** The victim's line goes. */
  predicate Leaves(victim: bv64, l: bv64) {
    IsValid(victim) && LineOf(victim) == l
  }

  lemma VictimHeld(c: Config, t: Tags, line: bv64, way: nat, l: bv64)
    requires TagsOk(c, t) && way < c.ways && Leaves(Victim(c, t, line, way), l)
    ensures exists p :: IsVictim(c, t, line, way, p) && Holds(c, t, p, l) && TagAt(c, t, p) == Victim(c, t, line, way)
  {
    hide IsValid, LineOf, RowOf, TagsOk;
    ZeroInvalid();
    var p := if t.Rows? then Place(RowOf(c, line), way) else Place(0, way);
    RowsWide(c, t);
    assert IsVictim(c, t, line, way, p) && Inhabited(c, t, p);
    VictimAt(c, t, line, way, p);
  }

  lemma RowsWide(c: Config, t: Tags)
    requires TagsOk(c, t)
    ensures t.Rows? ==> |t.rows| == c.sets && forall r | 0 <= r < c.sets :: |t.rows[r]| == c.ways
  {
    hide IsValid, LineOf, RowOf;
  }

  lemma Stays(c: Config, t: Tags, line: bv64, way: nat, tag: bv64, p: Place, l: bv64)
    requires TagsOk(c, t) && way < c.ways && TagsOk(c, Victimized(c, t, line, way, tag))
    requires Holds(c, t, p, l) && !Leaves(Victim(c, t, line, way), l)
    ensures var t', q := Victimized(c, t, line, way, tag), After(c, t, way, p);
            Holds(c, t', q, l) && TagAt(c, t', q) == TagAt(c, t, p)
  {
    hide IsValid, LineOf, RowOf, TagsOk, Inhabited, TagAt, IsVictim, Victim, Victimized;
    if IsVictim(c, t, line, way, p) { VictimAt(c, t, line, way, p); }
    KeptAt(c, t, line, way, tag, p);
  }

  lemma WasThere(c: Config, t: Tags, line: bv64, way: nat, tag: bv64, q: Place, l: bv64)
    requires TagsOk(c, t) && way < c.ways && TagsOk(c, Victimized(c, t, line, way, tag)) && LineOf(tag) == line != l
    requires Holds(c, Victimized(c, t, line, way, tag), q, l)
    ensures var t', p := Victimized(c, t, line, way, tag), Before(c, t, way, q);
            Holds(c, t, p, l) && TagAt(c, t', q) == TagAt(c, t, p) && !Leaves(Victim(c, t, line, way), l)
  {
    hide IsValid, LineOf, RowOf, TagsOk, Inhabited, TagAt, Victim, Victimized, IsVictim, Leaves, Installed, Before;
    var t', at := Victimized(c, t, line, way, tag), Installed(c, t, line, way);
    VictimizedMarked(c, t, line, way, tag, tag);
    if Same(t, q, at) { SameInstalled(c, t, line, way, tag, q); }
    VictimizedAt(c, t, line, way, tag, q);
    if Leaves(Victim(c, t, line, way), l) {
      VictimHeld(c, t, line, way, l);
      var v :| IsVictim(c, t, line, way, v) && Holds(c, t, v, l);
      OnePlace(c, t, v, Before(c, t, way, q), l);
      SameVictim(c, t, line, way, v, Before(c, t, way, q));
      assert false;
    }
  }

  lemma SameInstalled(c: Config, t: Tags, line: bv64, way: nat, tag: bv64, q: Place)
    requires TagsOk(c, t) && way < c.ways && TagsOk(c, Victimized(c, t, line, way, tag))
    requires Same(t, q, Installed(c, t, line, way)) && Inhabited(c, Victimized(c, t, line, way, tag), q)
    ensures TagAt(c, Victimized(c, t, line, way, tag), q) == tag
  {
    hide IsValid, LineOf, RowOf;
  }

  lemma SameVictim(c: Config, t: Tags, line: bv64, way: nat, p: Place, q: Place)
    requires TagsOk(c, t) && IsVictim(c, t, line, way, p) && Same(t, p, q)
    ensures IsVictim(c, t, line, way, q)
  {
    hide TagsOk, RowOf;
  }

  /** After a miss the level holds what it held, without the victim's line and with the missing one. */
  lemma MissLines(c: Config, t: Tags, line: bv64, way: nat, tag: bv64, l: bv64)
    requires TagsOk(c, t) && way < c.ways && TagsOk(c, Victimized(c, t, line, way, tag))
    requires IsValid(tag) && LineOf(tag) == line && !Present(c, t, line)
    ensures var t', v := Victimized(c, t, line, way, tag), Victim(c, t, line, way);
            && (Present(c, t', l) <==> l == line || (Present(c, t, l) && !Leaves(v, l)))
            && (l != line ==> (DirtyIn(c, t', l) <==> DirtyIn(c, t, l) && !Leaves(v, l)))
            && (DirtyIn(c, t', line) <==> IsDirty(tag))
  {
    hide IsValid, LineOf, RowOf, TagsOk, Inhabited, TagAt, Victim, Victimized, IsVictim, Leaves, Installed, Before, After, IsDirty;
    var t', v, at := Victimized(c, t, line, way, tag), Victim(c, t, line, way), Installed(c, t, line, way);
    VictimizedMarked(c, t, line, way, tag, tag);
    assert Holds(c, t', at, line);
    forall q | Holds(c, t', q, l) && l != line
      ensures Holds(c, t, Before(c, t, way, q), l) && !Leaves(v, l)
      ensures HeldDirty(c, t', q, l) ==> HeldDirty(c, t, Before(c, t, way, q), l)
    {
      WasThere(c, t, line, way, tag, q, l);
    }
    forall p | Holds(c, t, p, l) && !Leaves(v, l)
      ensures Holds(c, t', After(c, t, way, p), l)
      ensures HeldDirty(c, t, p, l) ==> HeldDirty(c, t', After(c, t, way, p), l)
    {
      Stays(c, t, line, way, tag, p, l);
    }
    forall q | Holds(c, t', q, line) ensures TagAt(c, t', q) == tag {
      OnePlace(c, t', at, q, line);
      SameTag(c, t', at, q);
    }
    assert IsDirty(tag) ==> HeldDirty(c, t', at, line);
  }

  // ----- one request

  /** The store that writes a line back. */
  function Back(c: Config, l: bv64): (r: Request) {
    Request(ShiftLeft(l, c.shift), true)
  }

  /** A request that finds its line hands nothing on. One that does not hands the missing line on, and before that
      nothing but the line that made room, which was dirty. */
  lemma ServesOut(c: Config, t: Tags, r: Request, t': Tags, out: seq<Request>)
    requires TagsOk(c, t) && TagsOk(c, t') && Serves(c, t, r, t', out)
    ensures Present(c, t, LineNumber(r.addr, c.shift)) <==> out == []
    ensures var fetch := Request(ClearBelow(r.addr, LineSize(c)), false);
            out == [] || out == [fetch]
            || exists l :: out == [Back(c, l), fetch] && DirtyIn(c, t, l) && !Present(c, t', l)
  {
    hide TagsOk, IsValid, IsDirty, Victim, Victimized, LineNumber, ClearBelow, Holds, HitEffect, LineOf, LineSize, HeldDirty, Packed, Marked;
    var line := LineNumber(r.addr, c.shift);
    if !Present(c, t, line) {
      var way :| MissEffect(c, t, t', line, r.store, way) && out == Handed(c, Victim(c, t, line, way), r.addr);
      var v := Victim(c, t, line, way);
      NewTag(c, t, r);
      if IsValid(v) && IsDirty(v) {
        VictimDirty(c, t, line, way);
        DirtyPresent(c, t, LineOf(v));
        MissLines(c, t, line, way, if r.store then Marked(Packed(line)) else Packed(line), LineOf(v));
        assert out == [Back(c, LineOf(v)), Request(ClearBelow(r.addr, LineSize(c)), false)];
      }
    }
  }

  lemma NewTag(c: Config, t: Tags, r: Request)
    requires TagsOk(c, t)
    ensures var line := LineNumber(r.addr, c.shift); var tag := if r.store then Marked(Packed(line)) else Packed(line);
            IsValid(tag) && LineOf(tag) == line && (IsDirty(tag) <==> r.store)
  {
    hide TagsOk, IsValid, LineOf, IsDirty, LineNumber, Packed, Marked, Fits;
    var line := LineNumber(r.addr, c.shift);
    ConfigShift(c, t);
    LineFits(r.addr, c.shift);
    PackedFields(line);
    MarkedFields(Packed(line));
  }

  lemma VictimDirty(c: Config, t: Tags, line: bv64, way: nat)
    requires TagsOk(c, t) && way < c.ways && IsValid(Victim(c, t, line, way)) && IsDirty(Victim(c, t, line, way))
    ensures DirtyIn(c, t, LineOf(Victim(c, t, line, way))) && Leaves(Victim(c, t, line, way), LineOf(Victim(c, t, line, way)))
  {
    hide TagsOk, IsValid, LineOf, IsDirty, Victim, IsVictim, TagAt, Inhabited;
    var l := LineOf(Victim(c, t, line, way));
    VictimHeld(c, t, line, way, l);
    var p :| IsVictim(c, t, line, way, p) && Holds(c, t, p, l) && TagAt(c, t, p) == Victim(c, t, line, way);
    assert HeldDirty(c, t, p, l);
  }

  /** What a request makes of the lines: its own is held afterwards, and dirty if it was or if the request is a store.
      Any other line stays as it was, but one may leave, and that one is handed on if it is dirty. */
  lemma ServesLines(c: Config, t: Tags, r: Request, t': Tags, out: seq<Request>, l: bv64)
    requires TagsOk(c, t) && TagsOk(c, t') && Serves(c, t, r, t', out)
    ensures if l == LineNumber(r.addr, c.shift)
            then Present(c, t', l) && (DirtyIn(c, t', l) <==> DirtyIn(c, t, l) || r.store)
            else (Present(c, t', l) ==> Present(c, t, l)) && (DirtyIn(c, t', l) <==> DirtyIn(c, t, l) && Present(c, t', l))
                 && (DirtyIn(c, t, l) && !Present(c, t', l) ==> Back(c, l) in out)
  {
    hide TagsOk, IsValid, IsDirty, Victim, Victimized, LineNumber, ClearBelow, Holds, LineOf, LineSize, TagAt, HitEffect, Packed, Marked;
    var line := LineNumber(r.addr, c.shift);
    DirtyPresent(c, t, l);
    if Present(c, t, line) {
      HitLines(c, t, t', line, r.store, l);
    } else {
      var way :| MissEffect(c, t, t', line, r.store, way) && out == Handed(c, Victim(c, t, line, way), r.addr);
      var v := Victim(c, t, line, way);
      NewTag(c, t, r);
      DirtyPresent(c, t, line);
      MissLines(c, t, line, way, if r.store then Marked(Packed(line)) else Packed(line), l);
      if DirtyIn(c, t, l) && Leaves(v, l) {
        VictimOf(c, t, line, way, l);
        assert Written(c, v) == [Back(c, l)];
      }
    }
  }

  lemma DirtyPresent(c: Config, t: Tags, l: bv64)
    requires TagsOk(c, t)
    ensures DirtyIn(c, t, l) ==> Present(c, t, l)
  {
  }

  /** The victim is dirty if its line is. */
  lemma VictimOf(c: Config, t: Tags, line: bv64, way: nat, l: bv64)
    requires TagsOk(c, t) && way < c.ways && DirtyIn(c, t, l) && Leaves(Victim(c, t, line, way), l)
    ensures IsDirty(Victim(c, t, line, way))
  {
    hide TagsOk, IsValid, LineOf, IsDirty, Victim, IsVictim, TagAt, Inhabited;
    VictimHeld(c, t, line, way, l);
    var p :| IsVictim(c, t, line, way, p) && Holds(c, t, p, l) && TagAt(c, t, p) == Victim(c, t, line, way);
    var q :| HeldDirty(c, t, q, l);
    OnePlace(c, t, p, q, l);
    SameTag(c, t, p, q);
  }

  /** At most one line leaves. */
  lemma OneLeaves(c: Config, t: Tags, r: Request, t': Tags, out: seq<Request>, l: bv64, m: bv64)
    requires TagsOk(c, t) && TagsOk(c, t') && Serves(c, t, r, t', out)
    requires Present(c, t, l) && Present(c, t, m) && !Present(c, t', l) && !Present(c, t', m)
    ensures l == m && out != []
  {
    hide TagsOk, IsValid, IsDirty, Victim, Victimized, LineNumber, ClearBelow, Holds, LineOf, LineSize, TagAt, HitEffect, Packed, Marked;
    var line := LineNumber(r.addr, c.shift);
    if Present(c, t, line) {
      HitLines(c, t, t', line, r.store, l);
    } else {
      var way :| MissEffect(c, t, t', line, r.store, way) && out == Handed(c, Victim(c, t, line, way), r.addr);
      NewTag(c, t, r);
      MissLines(c, t, line, way, if r.store then Marked(Packed(line)) else Packed(line), l);
      MissLines(c, t, line, way, if r.store then Marked(Packed(line)) else Packed(line), m);
    }
  }

  // ----- runs of one level

  /** The states a level goes through, and what it hands on at every request. */
  ghost predicate Runs(c: Config, ts: seq<Tags>, rs: seq<Request>, outs: seq<seq<Request>>) {
    && |ts| == |rs| + 1 && |outs| == |rs|
    && (forall n | 0 <= n < |ts| :: TagsOk(c, ts[n]))
    && (forall n | 0 <= n < |rs| :: Serves(c, ts[n], rs[n], ts[n + 1], outs[n]))
  }

  /** Request `k` is the last store to its line that has not been followed by a writeback, among the first `n`. */
  predicate Unwritten(c: Config, rs: seq<Request>, outs: seq<seq<Request>>, k: nat, n: nat, l: bv64)
    requires n <= |rs| == |outs|
  {
    && k < n && rs[k].store && LineNumber(rs[k].addr, c.shift) == l
    && forall j | k < j < n :: Back(c, l) !in outs[j]
  }

  ghost predicate Pending(c: Config, rs: seq<Request>, outs: seq<seq<Request>>, n: nat, l: bv64)
    requires n <= |rs| == |outs|
  {
    exists k: nat :: Unwritten(c, rs, outs, k, n, l)
  }

  lemma PendingMore(c: Config, rs: seq<Request>, outs: seq<seq<Request>>, n: nat, l: bv64)
    requires n < |rs| == |outs|
    ensures Pending(c, rs, outs, n + 1, l) <==>
            (Pending(c, rs, outs, n, l) && Back(c, l) !in outs[n]) || (rs[n].store && LineNumber(rs[n].addr, c.shift) == l)
  {
    hide LineNumber, Back;
    if Pending(c, rs, outs, n, l) && Back(c, l) !in outs[n] {
      var k: nat :| Unwritten(c, rs, outs, k, n, l);
      assert Unwritten(c, rs, outs, k, n + 1, l);
    }
    if rs[n].store && LineNumber(rs[n].addr, c.shift) == l {
      assert Unwritten(c, rs, outs, n, n + 1, l);
    }
    if Pending(c, rs, outs, n + 1, l) {
      var k: nat :| Unwritten(c, rs, outs, k, n + 1, l);
      assert k < n ==> Unwritten(c, rs, outs, k, n, l);
    }
  }

  /** Line numbers of addresses: shifting back loses nothing. */
  predicate Aligned(c: Config, l: bv64) {
    ShiftRight(ShiftLeft(l, c.shift), c.shift) == l
  }

  lemma HalfOfDouble(x: bv64, p: bv64)
    ensures Half(Double(ClearBelow(Half(x), p))) == ClearBelow(Half(x), p)
  {
  }

  lemma {:induction false} ShiftThere(x: bv64, n: nat)
    ensures ShiftRight(ShiftLeft(ShiftRight(x, n), n), n) == ShiftRight(x, n)
    decreases n
  {
    hide Half, Double, ClearBelow;
    if n > 0 {
      ShiftThere(Half(x), n - 1);
      ShiftBack(Half(x), n - 1);
      HalfOfDouble(x, ShiftLeft(1, n - 1));
    }
  }

  lemma LineAligned(c: Config, addr: bv64)
    ensures Aligned(c, LineNumber(addr, c.shift))
  {
    ShiftThere(addr, c.shift);
  }

  lemma NoneDirty(c: Config, l: bv64)
    requires TagsOk(c, Empty(c))
    ensures !DirtyIn(c, Empty(c), l)
  {
    hide TagsOk;
    EmptyTags(c);
  }

  lemma EmptyTags(c: Config)
    requires TagsOk(c, Empty(c))
    ensures forall p, l :: !Holds(c, Empty(c), p, l)
  {
    hide RowOf, LineOf;
    assert !IsValid(0);
  }

  lemma {:induction false} DirtyAligned(c: Config, ts: seq<Tags>, rs: seq<Request>, outs: seq<seq<Request>>, n: nat, l: bv64)
    requires Runs(c, ts, rs, outs) && ts[0] == Empty(c) && n <= |rs| && DirtyIn(c, ts[n], l)
    ensures Aligned(c, l)
    decreases n
  {
    hide TagsOk, LineNumber, Serves, DirtyIn, Present, Aligned, Back;
    if n == 0 {
      NoneDirty(c, l);
    } else if l == LineNumber(rs[n - 1].addr, c.shift) {
      LineAligned(c, rs[n - 1].addr);
    } else {
      ServesLines(c, ts[n - 1], rs[n - 1], ts[n], outs[n - 1], l);
      DirtyAligned(c, ts, rs, outs, n - 1, l);
    }
  }

  /** A line that is written back is gone. */
  lemma BackGone(c: Config, ts: seq<Tags>, rs: seq<Request>, outs: seq<seq<Request>>, n: nat, l: bv64)
    requires Runs(c, ts, rs, outs) && ts[0] == Empty(c) && n < |rs| && Aligned(c, l) && Back(c, l) in outs[n]
    ensures !Present(c, ts[n + 1], l)
  {
    hide TagsOk, LineNumber, Serves, DirtyIn, Present;
    var out, fetch := outs[n], Request(ClearBelow(rs[n].addr, LineSize(c)), false);
    ServesOut(c, ts[n], rs[n], ts[n + 1], out);
    var m :| out == [Back(c, m), fetch] && DirtyIn(c, ts[n], m) && !Present(c, ts[n + 1], m);
    DirtyAligned(c, ts, rs, outs, n, m);
  }

  /** From an empty level, after any requests and whichever victims were picked: a line is dirty exactly when it has
      been stored to and has not been handed on since. */
  lemma {:induction false} DirtyExact(c: Config, ts: seq<Tags>, rs: seq<Request>, outs: seq<seq<Request>>, n: nat, l: bv64)
    requires Runs(c, ts, rs, outs) && ts[0] == Empty(c) && n <= |rs|
    requires Aligned(c, l)
    ensures DirtyIn(c, ts[n], l) <==> Pending(c, rs, outs, n, l)
    decreases n
  {
    hide TagsOk, LineNumber, Serves, DirtyIn, Present, Aligned, Back;
    if n == 0 {
      NoneDirty(c, l);
    } else {
      DirtyExact(c, ts, rs, outs, n - 1, l);
      ServesLines(c, ts[n - 1], rs[n - 1], ts[n], outs[n - 1], l);
      PendingMore(c, rs, outs, n - 1, l);
      if Back(c, l) in outs[n - 1] {
        BackGone(c, ts, rs, outs, n - 1, l);
        DirtyPresent(c, ts[n], l);
      }
    }
  }

  /** What is written back is the base of the line, which is where the address of the store begins. */
  lemma BackIsBase(c: Config, addr: bv64)
    ensures Back(c, LineNumber(addr, c.shift)) == Request(ClearBelow(addr, LineSize(c)), true)
  {
    ShiftBack(addr, c.shift);
  }

  predicate Apart(a: int, b: int, m: int, k: int) {
    a - b == m * k
  }

  lemma SameRemainder(a: nat, b: nat, m: nat, k: nat)
    requires m > 0 && Apart(a, b, m, k)
    ensures a % m == b % m
  {
    QuotientRemainder(b, m);
    assert a == m * (b / m + k) + b % m;
    QuotientUnique(a, m, b / m + k, b % m);
  }

  /** Lines share a set exactly when their numbers differ by a multiple of the number of sets. */
  lemma SameSet(c: Config, l: bv64, m: bv64)
    requires c.sets > 0
    ensures RowOf(c, l) == RowOf(c, m) <==> exists k: int :: Apart(NatOf(l), NatOf(m), c.sets, k)
  {
    hide NatOf;
    var a, b := NatOf(l), NatOf(m);
    if RowOf(c, l) == RowOf(c, m) {
      assert Apart(a, b, c.sets, a / c.sets - b / c.sets);
    }
    if k: int :| Apart(a, b, c.sets, k) {
      if k >= 0 { SameRemainder(a, b, c.sets, k); } else { assert Apart(b, a, c.sets, -k); SameRemainder(b, a, c.sets, -k); }
    }
  }

  /** The map of the fully associative form gives up a line only when it is full. */
  lemma VictimFromFull(c: Config, t: Tags, line: bv64, way: nat)
    requires TagsOk(c, t) && t.Lines? && way < c.ways && IsValid(Victim(c, t, line, way))
    ensures |t.lines| == c.ways && Victim(c, t, line, way) == t.lines[way].tag
  {
    hide TagsOk, IsValid;
    ZeroInvalid();
  }
}
