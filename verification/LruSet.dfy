/** One set of the cache model (riscv/cache_model.cc): lines with access counters, and the stack they keep. */
module LruSet {
  import opened LruSpec
  import opened Sets
  import opened Wrappers

  const TWO32 := 0x1_0000_0000
  const RENORM_ABOVE := 1_000_000

  datatype LineState = Invalid | Valid | Dirty

  datatype Line = Line(tag: nat, state: LineState, lru: nat, dataAddr: nat)

  // ----- counters

  /** The ways in `order` are valid, each once, most recently used first: their counters decrease. */
  ghost predicate Ranked(lines: seq<Line>, next: nat, order: seq<nat>) {
    && (forall k | 0 <= k < |order| :: order[k] < |lines| && lines[order[k]].state != Invalid && lines[order[k]].lru < next)
    && (forall j, k | 0 <= j < k < |order| :: order[j] != order[k] && lines[order[k]].lru < lines[order[j]].lru)
  }

  /** Every valid way, except perhaps one, is in the order. */
  ghost predicate Covers(lines: seq<Line>, order: seq<nat>, except: int) {
    forall w: nat | w < |lines| && w != except && lines[w].state != Invalid :: w in order
  }

  /** The smallest counter of the first `n` ways. */
  function MinLru(lines: seq<Line>, n: nat): (m: nat)
    requires 0 < n <= |lines|
    ensures forall i | 0 <= i < n :: m <= lines[i].lru
    ensures exists i :: 0 <= i < n && lines[i].lru == m
  {
    if n == 1 then lines[0].lru
    else
      var m := MinLru(lines, n - 1);
      if lines[n - 1].lru < m then lines[n - 1].lru else m
  }

  /** `from` with `less` subtracted from every counter. */
  ghost predicate Lowered(from: seq<Line>, to: seq<Line>, less: nat) {
    && |to| == |from|
    && forall i | 0 <= i < |from| :: less <= from[i].lru && to[i] == from[i].(lru := from[i].lru - less)
  }

  /** What update_lru makes of a set: `way` gets the next counter value, and when that has grown large
      every counter loses the smallest. Counters are 32 bits wide. */
  ghost predicate Updated(from: seq<Line>, next: nat, way: nat, to: seq<Line>, next': nat)
    requires way < |from|
  {
    var mid := from[way := from[way].(lru := next)];
    var n := (next + 1) % TWO32;
    if n <= RENORM_ABOVE then to == mid && next' == n
    else
      var m := MinLru(mid, |mid|);
      Lowered(mid, to, m) && next' == n - m
  }

  lemma TouchedOrder(from: seq<Line>, next: nat, way: nat, rest: seq<nat>)
    requires way < |from| && from[way].state != Invalid
    requires Ranked(from, next, rest) && way !in rest && Covers(from, rest, way)
    ensures var mid := from[way := from[way].(lru := next)];
            Ranked(mid, next + 1, [way] + rest) && Covers(mid, [way] + rest, -1)
  {
    var mid, order := from[way := from[way].(lru := next)], [way] + rest;
    assert forall k | 0 < k < |order| :: order[k] == rest[k - 1] && mid[order[k]] == from[rest[k - 1]];
    forall w: nat | w < |mid| && mid[w].state != Invalid ensures w in order {
      assert order[0] == way;
      if w != way {
        var k :| 0 <= k < |rest| && rest[k] == w;
        assert order[k + 1] == w;
      }
    }
  }

  /** Renormalisation keeps the order. */
  lemma LoweredOrder(from: seq<Line>, next: nat, order: seq<nat>, to: seq<Line>, less: nat)
    requires Ranked(from, next, order) && Covers(from, order, -1) && Lowered(from, to, less) && less <= next
    ensures Ranked(to, next - less, order) && Covers(to, order, -1)
  {
  }

  /** The touched way moves to the front, renormalised or not. */
  lemma UpdatedOrder(from: seq<Line>, next: nat, way: nat, to: seq<Line>, next': nat, rest: seq<nat>)
    requires way < |from| && from[way].state != Invalid && next + 1 < TWO32
    requires Updated(from, next, way, to, next') && Ranked(from, next, rest) && way !in rest && Covers(from, rest, way)
    ensures |to| == |from| && next' <= next + 1
    ensures Ranked(to, next', [way] + rest) && Covers(to, [way] + rest, -1)
    ensures forall i | 0 <= i < |to| :: to[i] == from[i].(lru := to[i].lru)
  {
    hide Ranked, Covers;
    TouchedOrder(from, next, way, rest);
    var mid := from[way := from[way].(lru := next)];
    if next + 1 > RENORM_ABOVE {
      LoweredOrder(mid, next + 1, [way] + rest, to, MinLru(mid, |mid|));
    }
  }

  /** The bound on the counter is exact: the increment that wraps leaves the touched way with a counter
      that no longer tells it is the most recent. */
  lemma WrapLosesOrder(from: seq<Line>, next: nat, way: nat, to: seq<Line>, next': nat, rest: seq<nat>)
    requires way < |from| && from[way].state != Invalid && next < TWO32
    requires Updated(from, next, way, to, next') && Ranked(from, next, rest) && way !in rest && Covers(from, rest, way)
    ensures Ranked(to, next', [way] + rest) <==> next + 1 < TWO32
  {
    if next + 1 < TWO32 {
      UpdatedOrder(from, next, way, to, next', rest);
    } else {
      assert ([way] + rest)[0] == way && to[way].lru == next && next' == 0;
    }
  }

  /** A way that was never filled keeps its counter of zero, the least: renormalisation then lowers nothing, however large
      the counters grow. */
  lemma NeverLowered(from: seq<Line>, next: nat, way: nat, free: nat, to: seq<Line>, next': nat)
    requires way < |from| && free < |from| && free != way && from[free].lru == 0 && next + 1 < TWO32
    requires Updated(from, next, way, to, next')
    ensures next' == next + 1 && to == from[way := from[way].(lru := next)]
  {
    var mid := from[way := from[way].(lru := next)];
    assert mid[free].lru == 0;
    if next + 1 > RENORM_ABOVE {
      assert MinLru(mid, |mid|) == 0;
      assert forall i | 0 <= i < |mid| :: to[i] == mid[i];
    }
  }

  /** Once the counter wraps the wrong line is evicted. Way 0 holds line 7 when the counter is at its last value: line 7
      hits, line 8 fills the free way with a counter of zero, and now the least counter is that of line 8, the most
      recently used, while the stack would lose line 7. */
  lemma WrapReached()
    ensures var a := [Line(7, Valid, TWO32 - 2, 0), Line(0, Invalid, 0, 0)];
            var b := [Line(7, Valid, TWO32 - 1, 0), Line(0, Invalid, 0, 0)];
            var c := [Line(7, Valid, TWO32 - 1, 0), Line(8, Valid, 0, 0)];
            && Ranked(a, TWO32 - 1, [0]) && Covers(a, [0], -1)
            && Updated(a, TWO32 - 1, 0, b, 0)
            && Updated(b[1 := Line(8, Valid, 0, 0)], 0, 1, c, 1)
            && (forall w | 0 <= w < 2 :: c[w].state != Invalid && c[1].lru <= c[w].lru) && c[1].lru < c[0].lru
    ensures var s := Touch(Touch([Entry(7, false)], 2, 7, false).0, 2, 8, false).0;
            s == [Entry(8, false), Entry(7, false)] && Touch(s, 2, 9, false).1.evicted == Some(Entry(7, false))
  {
    var s := Touch([Entry(7, false)], 2, 7, false).0;
    assert s == [Entry(7, false)];
    assert Find(s, 8) == 1 by { assert s[1..] == []; }
    var t := Touch(s, 2, 8, false).0;
    assert t == [Entry(8, false), Entry(7, false)];
    assert Find(t, 9) == 2 by { assert t[1..] == [Entry(7, false)] && t[1..][1..] == []; }
  }

  // ----- the stack

  /** The stack that the ways in `order` hold. */
  ghost function StackOf(lines: seq<Line>, order: seq<nat>): (s: Stack)
    requires forall k | 0 <= k < |order| :: order[k] < |lines|
    ensures |s| == |order|
    ensures forall k | 0 <= k < |s| :: s[k] == Entry(lines[order[k]].tag, lines[order[k]].state == Dirty)
  {
    seq(|order|, k requires 0 <= k < |order| => Entry(lines[order[k]].tag, lines[order[k]].state == Dirty))
  }

  /** A set has an invalid way exactly when its stack is not full. */
  lemma FullMeansAllValid(lines: seq<Line>, next: nat, order: seq<nat>)
    requires Ranked(lines, next, order) && Covers(lines, order, -1)
    ensures |order| <= |lines|
    ensures |order| == |lines| <==> forall w | 0 <= w < |lines| :: lines[w].state != Invalid
  {
    ElemsCard(order);
    assert forall k | k in order :: k < |lines| && lines[k].state != Invalid;
    CardSubset(Elems(order), Below(|lines|));
    if |order| == |lines| {
      forall w: nat | w < |lines| ensures lines[w].state != Invalid {
        assert w in Below(|lines|) && w in Elems(order) && w in order;
      }
    }
    if forall w | 0 <= w < |lines| :: lines[w].state != Invalid {
      assert Below(|lines|) <= Elems(order);
      CardSubset(Below(|lines|), Elems(order));
    }
  }

  // ----- an access, seen from the stack

  /** Position `k` of the order holds `way`. */
  ghost predicate At(order: seq<nat>, k: nat, way: nat) {
    k < |order| && order[k] == way
  }

  lemma Position(lines: seq<Line>, next: nat, order: seq<nat>, way: nat) returns (k: nat)
    requires Ranked(lines, next, order) && Covers(lines, order, -1)
    requires way < |lines| && lines[way].state != Invalid
    ensures At(order, k, way)
    ensures forall j | 0 <= j < |order| && j != k :: order[j] != way
  {
    assert way in order;
    k :| 0 <= k < |order| && order[k] == way;
  }

  /** A line with the tag is where the stack has it. */
  lemma HitPosition(lines: seq<Line>, next: nat, order: seq<nat>, tag: nat, way: nat) returns (k: nat)
    requires Ranked(lines, next, order) && Covers(lines, order, -1) && Distinct(StackOf(lines, order))
    requires way < |lines| && lines[way].state != Invalid && lines[way].tag == tag
    ensures At(order, k, way) && k == Find(StackOf(lines, order), tag)
    ensures forall j | 0 <= j < |order| && j != k :: order[j] != way
  {
    k := Position(lines, next, order, way);
    var s := StackOf(lines, order);
    assert s[k].tag == tag;
    var f := Find(s, tag);
    if f < |s| { assert s[f].tag == tag; }
  }

  lemma MissPosition(lines: seq<Line>, next: nat, order: seq<nat>, tag: nat)
    requires Ranked(lines, next, order)
    requires forall w | 0 <= w < |lines| :: !(lines[w].state != Invalid && lines[w].tag == tag)
    ensures Find(StackOf(lines, order), tag) == |order|
  {
  }

  lemma WithoutWayRanked(lines: seq<Line>, next: nat, order: seq<nat>, k: nat, way: nat)
    requires Ranked(lines, next, order) && At(order, k, way)
    ensures Ranked(lines, next, RemoveAt(order, k)) && way !in RemoveAt(order, k)
  {
    var rest := RemoveAt(order, k);
    assert forall j | 0 <= j < |rest| :: rest[j] == order[if j < k then j else j + 1];
  }

  lemma WithoutWay(lines: seq<Line>, next: nat, order: seq<nat>, k: nat, way: nat)
    requires Ranked(lines, next, order) && Covers(lines, order, -1) && At(order, k, way)
    ensures Ranked(lines, next, RemoveAt(order, k)) && way !in RemoveAt(order, k) && Covers(lines, RemoveAt(order, k), way)
  {
    hide Ranked;
    WithoutWayRanked(lines, next, order, k, way);
    var rest := RemoveAt(order, k);
    forall w: nat | w < |lines| && w != way && lines[w].state != Invalid ensures w in rest {
      var j :| 0 <= j < |order| && order[j] == w;
      assert rest[if j < k then j else j - 1] == w;
    }
  }

  lemma NotInOrder(lines: seq<Line>, next: nat, order: seq<nat>, way: nat)
    requires Ranked(lines, next, order) && Covers(lines, order, -1) && way < |lines| && lines[way].state == Invalid
    ensures way !in order && Covers(lines, order, way)
  {
  }

  /** The least recently used way of a full set is the bottom of its stack. */
  lemma VictimPosition(lines: seq<Line>, next: nat, order: seq<nat>, way: nat)
    requires Ranked(lines, next, order) && Covers(lines, order, -1) && way < |lines|
    requires forall w | 0 <= w < |lines| :: lines[w].state != Invalid && lines[way].lru <= lines[w].lru
    ensures |order| == |lines| && At(order, |order| - 1, way)
  {
    FullMeansAllValid(lines, next, order);
    var k := Position(lines, next, order, way);
    var last := order[|order| - 1];
    assert lines[way].lru <= lines[last].lru;
  }

  /** The state of the set after the touched way moved to the front, when `from` is the set before and
      `line` what the way holds now, apart from its counter. */
  ghost predicate Front(from: seq<Line>, to: seq<Line>, way: nat, line: Line, order: seq<nat>, rest: seq<nat>) {
    && way < |from| == |to| && order == [way] + rest && way !in rest
    && to[way] == line.(lru := to[way].lru)
    && (forall w | 0 <= w < |to| && w != way :: to[w] == from[w].(lru := to[w].lru))
    && (forall k | 0 <= k < |rest| :: rest[k] < |from|)
  }

  lemma FrontStack(from: seq<Line>, to: seq<Line>, way: nat, line: Line, order: seq<nat>, rest: seq<nat>)
    requires Front(from, to, way, line, order, rest)
    ensures forall k | 0 <= k < |order| :: order[k] < |to|
    ensures StackOf(to, order) == [Entry(line.tag, line.state == Dirty)] + StackOf(from, rest)
  {
    assert forall k | 0 < k < |order| :: order[k] == rest[k - 1] && order[k] != way;
  }

  lemma RestStack(lines: seq<Line>, order: seq<nat>, k: nat)
    requires k < |order| && forall j | 0 <= j < |order| :: order[j] < |lines|
    ensures StackOf(lines, RemoveAt(order, k)) == RemoveAt(StackOf(lines, order), k)
  {
  }

  class CacheSet {
    const lines: array<Line>
    var nextLru: nat
    ghost var order: seq<nat>

    ghost predicate Ok()
      reads this, lines
    {
      && lines.Length > 0 && nextLru < TWO32
      && Ranked(lines[..], nextLru, order) && Covers(lines[..], order, -1) && Distinct(StackOf(lines[..], order))
    }

    /** The set as a stack, the most recently used line on top. */
    ghost function Stack(): (s: Stack)
      requires Ok()
      reads this, lines
      ensures |s| <= lines.Length && Distinct(s)
    {
      FullMeansAllValid(lines[..], nextLru, order);
      StackOf(lines[..], order)
    }

    /** calloc: every line invalid, every counter zero. */
    constructor (ways: nat)
      requires ways > 0
      ensures Ok() && Stack() == [] && nextLru == 0 && lines.Length == ways && fresh(lines)
    {
      lines := new Line[ways](_ => Line(0, Invalid, 0, 0));
      nextLru := 0;
      order := [];
    }

    /** find_lru_way: the first way with the smallest counter. */
    method FindLruWay() returns (way: nat)
      requires lines.Length > 0
      ensures way < lines.Length
      ensures forall i | 0 <= i < lines.Length :: lines[way].lru <= lines[i].lru
      ensures forall i | 0 <= i < way :: lines[way].lru < lines[i].lru
    {
      way := 0;
      var min := lines[0].lru;
      for i := 1 to lines.Length
        invariant way < i && min == lines[way].lru
        invariant forall j | 0 <= j < i :: min <= lines[j].lru
        invariant forall j | 0 <= j < way :: min < lines[j].lru
      {
        if lines[i].lru < min {
          min, way := lines[i].lru, i;
        }
      }
    }

    /** The loops of update_lru that find the smallest counter and subtract it. */
    method Renormalise() returns (min: nat)
      requires lines.Length > 0
      modifies lines
      ensures min == MinLru(old(lines[..]), lines.Length) && Lowered(old(lines[..]), lines[..], min)
    {
      min := lines[0].lru;
      for i := 1 to lines.Length
        invariant min == MinLru(lines[..], i)
      {
        if lines[i].lru < min {
          min := lines[i].lru;
        }
      }
      for i := 0 to lines.Length
        invariant forall j | 0 <= j < lines.Length ::
          lines[j] == if j < i then old(lines[j]).(lru := old(lines[j]).lru - min) else old(lines[j])
      {
        lines[i] := lines[i].(lru := lines[i].lru - min);
      }
    }

    /** update_lru */
    method UpdateLru(way: nat)
      requires way < lines.Length && nextLru < TWO32
      modifies this`nextLru, lines
      ensures Updated(old(lines[..]), old(nextLru), way, lines[..], nextLru)
    {
      lines[way] := lines[way].(lru := nextLru);
      nextLru := (nextLru + 1) % TWO32;
      if nextLru > RENORM_ABOVE {
        var min := Renormalise();
        nextLru := nextLru - min;
      }
    }

    /** The hit loop of cache_access. */
    method FindHit(tag: nat) returns (way: Option<nat>)
      ensures way.Some? ==> way.value < lines.Length && lines[way.value].state != Invalid && lines[way.value].tag == tag
      ensures way.None? ==> forall w | 0 <= w < lines.Length :: !(lines[w].state != Invalid && lines[w].tag == tag)
    {
      for w := 0 to lines.Length
        invariant forall v | 0 <= v < w :: !(lines[v].state != Invalid && lines[v].tag == tag)
      {
        if lines[w].state != Invalid && lines[w].tag == tag {
          return Some(w);
        }
      }
      return None;
    }

    /** The choice of a victim: the first invalid way, or else the least recently used. */
    method FindVictim() returns (way: nat, full: bool)
      requires lines.Length > 0
      ensures way < lines.Length
      ensures full <==> forall w | 0 <= w < lines.Length :: lines[w].state != Invalid
      ensures !full ==> lines[way].state == Invalid
      ensures full ==> forall w | 0 <= w < lines.Length :: lines[way].lru <= lines[w].lru
    {
      for w := 0 to lines.Length
        invariant forall v | 0 <= v < w :: lines[v].state != Invalid
      {
        if lines[w].state == Invalid {
          return w, false;
        }
      }
      way := FindLruWay();
      full := true;
    }

    /** A hit: the counters change, and a write to a write-back cache marks the line. */
    method Hit(way: nat, dirty: bool)
      requires Ok() && nextLru + 1 < TWO32 && way < lines.Length && lines[way].state != Invalid
      modifies this, lines
      ensures Ok() && nextLru <= old(nextLru) + 1
      ensures Stack() == Touch(old(Stack()), lines.Length, old(lines[way]).tag, dirty).0
      ensures Touch(old(Stack()), lines.Length, old(lines[way]).tag, dirty).1 == Outcome(true, None)
    {
      hide Updated, Covers;
      ghost var from, next, o := lines[..], nextLru, order;
      ghost var k := HitPosition(from, next, o, from[way].tag, way);
      WithoutWay(from, next, o, k, way);
      RestStack(from, o, k);
      FullMeansAllValid(from, next, o);
      TouchDistinct(StackOf(from, o), lines.Length, from[way].tag, dirty);
      UpdateLru(way);
      UpdatedOrder(from, next, way, lines[..], nextLru, RemoveAt(o, k));
      order := [way] + RemoveAt(o, k);
      Remark(lines[..], nextLru, order, way, if dirty then Dirty else lines[way].state);
      if dirty {
        lines[way] := lines[way].(state := Dirty);
      }
      FrontStack(from, lines[..], way, lines[way], order, RemoveAt(o, k));
    }

    /** A miss: the line is installed in `way`, and the counters change. */
    method Install(way: nat, line: Line, ghost rest: seq<nat>)
      requires lines.Length > 0 && nextLru + 1 < TWO32 && way < lines.Length && line.state != Invalid
      requires Ranked(lines[..], nextLru, rest) && way !in rest && Covers(lines[..], rest, way)
      modifies this, lines
      ensures nextLru <= old(nextLru) + 1 && nextLru < TWO32
      ensures order == [way] + rest && Ranked(lines[..], nextLru, order) && Covers(lines[..], order, -1)
      ensures StackOf(lines[..], order) == [Entry(line.tag, line.state == Dirty)] + StackOf(old(lines[..]), rest)
    {
      ghost var from, next := lines[..], nextLru;
      lines[way] := line;
      ghost var mid := lines[..];
      assert Ranked(mid, next, rest) && Covers(mid, rest, way);
      UpdateLru(way);
      UpdatedOrder(mid, next, way, lines[..], nextLru, rest);
      order := [way] + rest;
      FrontStack(from, lines[..], way, line, order, rest);
    }

    /** A miss in a set with room, or in a full one, where the bottom of the stack is lost. */
    method Miss(tag: nat, dataAddr: nat, dirty: bool) returns (writeback: Option<nat>)
      requires Ok() && nextLru + 1 < TWO32
      requires forall w | 0 <= w < lines.Length :: !(lines[w].state != Invalid && lines[w].tag == tag)
      modifies this, lines
      ensures Ok() && nextLru <= old(nextLru) + 1
      ensures Stack() == Touch(old(Stack()), lines.Length, tag, dirty).0
      ensures var o := Touch(old(Stack()), lines.Length, tag, dirty).1;
              && !o.hit
              && writeback == if o.evicted.Some? && o.evicted.value.dirty then Some(o.evicted.value.tag) else None
    {
      hide Covers, Distinct;
      ghost var from, next, o := lines[..], nextLru, order;
      ghost var s := StackOf(from, o);
      MissPosition(from, next, o, tag);
      FullMeansAllValid(from, next, o);
      TouchDistinct(s, lines.Length, tag, dirty);
      var victim, full := FindVictim();
      ghost var rest := o;
      if !full { NotInOrder(from, next, o, victim); }
      if full {
        VictimPosition(from, next, o, victim);
        WithoutWay(from, next, o, |o| - 1, victim);
        RestStack(from, o, |o| - 1);
        rest := RemoveAt(o, |o| - 1);
        assert rest == o[..|o| - 1];
        assert RemoveAt(s, |o| - 1) == s[..|o| - 1];
      }
      writeback := if full && lines[victim].state == Dirty then Some(lines[victim].tag) else None;
      Install(victim, Line(tag, if dirty then Dirty else Valid, lines[victim].lru, dataAddr), rest);
    }

    /** cache_access, within the set the address selects. */
    method Access(tag: nat, dataAddr: nat, dirty: bool) returns (hit: bool, writeback: Option<nat>)
      requires Ok() && nextLru + 1 < TWO32
      modifies this, lines
      ensures Ok() && nextLru <= old(nextLru) + 1
      ensures Stack() == Touch(old(Stack()), lines.Length, tag, dirty).0
      ensures var o := Touch(old(Stack()), lines.Length, tag, dirty).1;
              && hit == o.hit
              && writeback == if o.evicted.Some? && o.evicted.value.dirty then Some(o.evicted.value.tag) else None
    {
      var way := FindHit(tag);
      if way.Some? {
        Hit(way.value, dirty);
        return true, None;
      }
      writeback := Miss(tag, dataAddr, dirty);
      hit := false;
    }
  }

  /** Marking a valid way does not disturb the order. */
  lemma Remark(lines: seq<Line>, next: nat, order: seq<nat>, way: nat, state: LineState)
    requires Ranked(lines, next, order) && Covers(lines, order, -1)
    requires way < |lines| && lines[way].state != Invalid && state != Invalid
    ensures Ranked(lines[way := lines[way].(state := state)], next, order)
    ensures Covers(lines[way := lines[way].(state := state)], order, -1)
  {
  }
}
