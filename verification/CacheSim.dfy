/** The chained cache simulator (riscv/cachesim.cc): packed tags, misses that go to the next level, and the
    traffic between the levels. The victim is any way, as the source's random choice may pick any. */
module CacheSim {
  import opened Words
  import opened Wrappers

  const VALID: bv64 := 0x8000_0000_0000_0000
  const DIRTY: bv64 := 0x4000_0000_0000_0000

  // ----- packed tags

  /** The line an address lies in. Lines have at least 8 bytes, so the two upper bits are free. */
  function LineNumber(addr: bv64, shift: nat): (l: bv64) {
    ShiftRight(addr, shift)
  }

  function Packed(line: bv64): (t: bv64) {
    line | VALID
  }

  predicate IsValid(t: bv64) {
    t & VALID != 0
  }

  predicate IsDirty(t: bv64) {
    t & DIRTY != 0
  }

  function LineOf(t: bv64): (l: bv64) {
    t & !(VALID | DIRTY)
  }

  function Rebuilt(t: bv64, shift: nat): (a: bv64) {
    ShiftLeft(LineOf(t), shift)
  }

  predicate Fits(line: bv64) {
    LineOf(line) == line
  }

  lemma {:induction false} LineFits(addr: bv64, shift: nat)
    requires shift >= 2
    ensures Fits(LineNumber(addr, shift))
    decreases shift
  {
    hide Half, Fits;
    if shift > 2 {
      LineFits(Half(addr), shift - 1);
    } else {
      assert LineNumber(addr, 2) == ShiftRight(Half(addr), 1) == ShiftRight(Half(Half(addr)), 0);
      QuarterFits(addr);
    }
  }

  lemma QuarterFits(addr: bv64)
    ensures Fits(Half(Half(addr)))
  {
  }

  lemma CleanTag(line: bv64, t: bv64)
    requires Packed(line) == t & !DIRTY && line & (VALID | DIRTY) == 0
    ensures IsValid(t) && LineOf(t) == line
  {
  }

  lemma TagParts(t: bv64)
    requires IsValid(t)
    ensures Packed(LineOf(t)) == t & !DIRTY
  {
  }

  lemma FitsBits(line: bv64)
    requires Fits(line)
    ensures line & (VALID | DIRTY) == 0
  {
  }

  /** The comparison of check_tag finds the valid tags of the line, dirty or not. */
  lemma TagCompares(line: bv64, t: bv64)
    requires Fits(line)
    ensures Packed(line) == t & !DIRTY <==> IsValid(t) && LineOf(t) == line
  {
    hide Packed, IsValid, LineOf;
    if IsValid(t) { TagParts(t); }
    FitsBits(line);
    if Packed(line) == t & !DIRTY { CleanTag(line, t); }
  }

  lemma PackedFields(line: bv64)
    requires Fits(line)
    ensures IsValid(Packed(line)) && !IsDirty(Packed(line)) && LineOf(Packed(line)) == line
  {
  }

  function Marked(t: bv64): (m: bv64) {
    t | DIRTY
  }

  lemma MarkedFields(t: bv64)
    ensures IsDirty(Marked(t)) && LineOf(Marked(t)) == LineOf(t) && (IsValid(Marked(t)) <==> IsValid(t))
  {
  }

  /** A victim's address is rebuilt exactly: it is where the line of the installed address begins. */
  lemma RebuildExact(addr: bv64, shift: nat, linesz: bv64, t: bv64)
    requires linesz == ShiftLeft(1, shift) && LineOf(t) == LineNumber(addr, shift)
    ensures Rebuilt(t, shift) == ClearBelow(addr, linesz)
  {
    hide LineOf, ClearBelow;
    ShiftBack(addr, shift);
  }

  // ----- one level

  /** A level: its geometry, and the level that its misses go to. The fully associative form has one set. */
  datatype Config = Config(sets: nat, ways: nat, shift: nat, full: bool, handler: Option<nat>)

  function LineSize(c: Config): (n: bv64) {
    ShiftLeft(1, c.shift)
  }

  /** The tag array, one row a set, or the map of the fully associative form, from line numbers to tags. */
  datatype Tags = Rows(rows: seq<seq<bv64>>) | Lines(lines: seq<Line>)

  datatype Line = Line(key: bv64, tag: bv64)

  /** Where a tag lies: the way of a row, or a position in the map. */
  datatype Place = Place(row: nat, way: nat)

  predicate ConfigOk(c: Config) {
    c.sets > 0 && c.ways > 0 && c.shift >= 3 && (c.full ==> c.sets == 1)
  }

  function NatOf(line: bv64): (n: nat) {
    line as nat
  }

  function Remainder(n: nat, m: nat): (r: nat)
    requires m > 0
    ensures r < m
  {
    n % m
  }

  /** The set of a line; the source masks with a power of two less one. */
  function RowOf(c: Config, line: bv64): (r: nat)
    requires c.sets > 0
    ensures r < c.sets
  {
    Remainder(NatOf(line), c.sets)
  }

  /** No set holds a line twice, and every line is in its own set. */
  predicate RowOk(c: Config, r: nat, row: seq<bv64>)
    requires c.sets > 0
  {
    && |row| == c.ways
    && (forall w | 0 <= w < |row| && IsValid(row[w]) :: RowOf(c, LineOf(row[w])) == r)
    && (forall v, w | 0 <= v < w < |row| && IsValid(row[v]) && IsValid(row[w]) :: LineOf(row[v]) != LineOf(row[w]))
  }

  predicate LinesOk(c: Config, lines: seq<Line>) {
    && |lines| <= c.ways
    && (forall k | 0 <= k < |lines| :: IsValid(lines[k].tag) && LineOf(lines[k].tag) == lines[k].key)
    && (forall j, k | 0 <= j < k < |lines| :: lines[j].key != lines[k].key)
  }

  predicate TagsOk(c: Config, t: Tags) {
    ConfigOk(c) &&
    match t
    case Rows(rows) => !c.full && |rows| == c.sets && forall r | 0 <= r < |rows| :: RowOk(c, r, rows[r])
    case Lines(lines) => c.full && LinesOk(c, lines)
  }

  predicate Inhabited(c: Config, t: Tags, p: Place)
    requires TagsOk(c, t)
  {
    match t
    case Rows(rows) => p.row < c.sets && p.way < c.ways
    case Lines(lines) => p.way < |lines|
  }

  function TagAt(c: Config, t: Tags, p: Place): (tag: bv64)
    requires TagsOk(c, t) && Inhabited(c, t, p)
  {
    match t
    case Rows(rows) => rows[p.row][p.way]
    case Lines(lines) => lines[p.way].tag
  }

  /** The valid tag of a line lies there. */
  predicate Holds(c: Config, t: Tags, p: Place, line: bv64)
    requires TagsOk(c, t)
  {
    Inhabited(c, t, p) && IsValid(TagAt(c, t, p)) && LineOf(TagAt(c, t, p)) == line
  }

  ghost predicate Present(c: Config, t: Tags, line: bv64)
    requires TagsOk(c, t)
  {
    exists p :: Holds(c, t, p, line)
  }

  // ----- check_tag

  method InRow(row: seq<bv64>, line: bv64) returns (way: Option<nat>)
    requires Fits(line)
    ensures way.Some? ==> way.value < |row| && IsValid(row[way.value]) && LineOf(row[way.value]) == line
    ensures way.None? ==> forall w | 0 <= w < |row| :: !(IsValid(row[w]) && LineOf(row[w]) == line)
  {
    hide Packed, IsValid, LineOf, Fits;
    for w := 0 to |row|
      invariant forall v | 0 <= v < w :: !(IsValid(row[v]) && LineOf(row[v]) == line)
    {
      TagCompares(line, row[w]);
      if Packed(line) == row[w] & !DIRTY {
        return Some(w);
      }
    }
    return None;
  }

  method InLines(lines: seq<Line>, line: bv64) returns (at: Option<nat>)
    ensures at.Some? ==> at.value < |lines| && lines[at.value].key == line
    ensures at.None? ==> forall k | 0 <= k < |lines| :: lines[k].key != line
  {
    for k := 0 to |lines|
      invariant forall j | 0 <= j < k :: lines[j].key != line
    {
      if lines[k].key == line {
        return Some(k);
      }
    }
    return None;
  }

  /** check_tag, in both forms */
  method CheckTag(c: Config, t: Tags, line: bv64) returns (p: Option<Place>)
    requires TagsOk(c, t) && Fits(line)
    ensures p.Some? ==> Holds(c, t, p.value, line)
    ensures p.None? ==> !Present(c, t, line)
  {
    hide Packed, IsValid, LineOf, RowOf, Fits;
    match t {
      case Rows(rows) =>
        var w := InRow(rows[RowOf(c, line)], line);
        return if w.Some? then Some(Place(RowOf(c, line), w.value)) else None;
      case Lines(lines) =>
        var k := InLines(lines, line);
        return if k.Some? then Some(Place(0, k.value)) else None;
    }
  }

  // ----- changes of one level

  function Put(c: Config, t: Tags, p: Place, tag: bv64): (r: Tags)
    requires TagsOk(c, t) && Inhabited(c, t, p)
  {
    match t
    case Rows(rows) => Rows(rows[p.row := rows[p.row][p.way := tag]])
    case Lines(lines) => Lines(lines[p.way := Line(lines[p.way].key, tag)])
  }

  /** A store that hits: the line stays where it is, and is dirty. */
  lemma MarkOk(c: Config, t: Tags, p: Place, line: bv64)
    requires TagsOk(c, t) && Holds(c, t, p, line)
    ensures var r := Put(c, t, p, Marked(TagAt(c, t, p)));
            TagsOk(c, r) && Holds(c, r, p, line) && IsDirty(TagAt(c, r, p))
  {
    hide IsValid, LineOf, IsDirty, RowOf, Marked;
    MarkedFields(TagAt(c, t, p));
  }

  /** victimize: what it returns, and what it leaves. Any way of the set may be the victim; the fully
      associative form makes room only when it is full. */
  function Victim(c: Config, t: Tags, line: bv64, way: nat): (v: bv64)
    requires TagsOk(c, t) && way < c.ways
  {
    match t
    case Rows(rows) => rows[RowOf(c, line)][way]
    case Lines(lines) => if |lines| == c.ways then lines[way].tag else 0
  }

  function Victimized(c: Config, t: Tags, line: bv64, way: nat, tag: bv64): (r: Tags)
    requires TagsOk(c, t) && way < c.ways
  {
    match t
    case Rows(rows) => Rows(rows[RowOf(c, line) := rows[RowOf(c, line)][way := tag]])
    case Lines(lines) =>
      Lines((if |lines| == c.ways then lines[..way] + lines[way + 1..] else lines) + [Line(line, tag)])
  }

  function Installed(c: Config, t: Tags, line: bv64, way: nat): (p: Place)
    requires TagsOk(c, t)
  {
    match t
    case Rows(rows) => Place(RowOf(c, line), way)
    case Lines(lines) => Place(0, if |lines| == c.ways then |lines| - 1 else |lines|)
  }

  lemma VictimizedOk(c: Config, t: Tags, line: bv64, way: nat)
    requires TagsOk(c, t) && way < c.ways && Fits(line) && !Present(c, t, line)
    ensures var r := Victimized(c, t, line, way, Packed(line)); TagsOk(c, r) && Holds(c, r, Installed(c, t, line, way), line)
  {
    hide IsValid, LineOf, RowOf, Packed, Fits, RowOk, LinesOk;
    PackedFields(line);
    if t.Rows? {
      var i := RowOf(c, line);
      assert RowOk(c, i, t.rows[i]);
      NotInRow(c, t, line);
      RowVictimized(c, i, t.rows[i], line, way);
    } else {
      NotInLines(c, t, line);
      LinesVictimized(c, t.lines, line, way);
    }
  }

  lemma NotInRow(c: Config, t: Tags, line: bv64)
    requires TagsOk(c, t) && t.Rows? && !Present(c, t, line)
    ensures var row := t.rows[RowOf(c, line)]; forall w | 0 <= w < |row| && IsValid(row[w]) :: LineOf(row[w]) != line
  {
    hide IsValid, LineOf, RowOf;
    var i := RowOf(c, line);
    forall w | 0 <= w < |t.rows[i]| && IsValid(t.rows[i][w]) ensures LineOf(t.rows[i][w]) != line {
      assert RowOk(c, i, t.rows[i]);
      assert !Holds(c, t, Place(i, w), line);
    }
  }

  lemma NotInLines(c: Config, t: Tags, line: bv64)
    requires TagsOk(c, t) && t.Lines? && !Present(c, t, line)
    ensures forall k | 0 <= k < |t.lines| :: t.lines[k].key != line
  {
    hide IsValid, LineOf;
    forall k | 0 <= k < |t.lines| ensures t.lines[k].key != line {
      assert !Holds(c, t, Place(0, k), line);
    }
  }

  lemma RowVictimized(c: Config, i: nat, row: seq<bv64>, line: bv64, way: nat)
    requires c.sets > 0 && i == RowOf(c, line) && way < c.ways && Fits(line) && RowOk(c, i, row)
    requires forall w | 0 <= w < |row| && IsValid(row[w]) :: LineOf(row[w]) != line
    ensures RowOk(c, i, row[way := Packed(line)]) && |row| == c.ways
  {
    hide IsValid, LineOf, RowOf, Packed, Fits;
    PackedFields(line);
  }

  lemma LinesVictimized(c: Config, lines: seq<Line>, line: bv64, way: nat)
    requires way < c.ways && Fits(line) && LinesOk(c, lines) && forall k | 0 <= k < |lines| :: lines[k].key != line
    ensures LinesOk(c, (if |lines| == c.ways then lines[..way] + lines[way + 1..] else lines) + [Line(line, Packed(line))])
    ensures |lines| <= c.ways
  {
    hide IsValid, LineOf, Packed, Fits;
    PackedFields(line);
    if |lines| == c.ways {
      var kept := lines[..way] + lines[way + 1..];
      assert forall k | 0 <= k < |kept| :: kept[k] == lines[if k < way then k else k + 1];
    }
  }

  /** A line that comes in with a store is dirty from the start. */
  lemma VictimizedMarked(c: Config, t: Tags, line: bv64, way: nat, tag: bv64, tag': bv64)
    requires TagsOk(c, t) && way < c.ways && TagsOk(c, Victimized(c, t, line, way, tag))
    ensures var r, p := Victimized(c, t, line, way, tag), Installed(c, t, line, way);
            Inhabited(c, r, p) && TagAt(c, r, p) == tag && Put(c, r, p, tag') == Victimized(c, t, line, way, tag')
  {
    hide IsValid, LineOf, RowOf;
    var r, p := Victimized(c, t, line, way, tag), Installed(c, t, line, way);
    if t.Rows? {
      var i := RowOf(c, line);
      assert t.rows[i][way := tag][way := tag'] == t.rows[i][way := tag'];
      assert Put(c, r, p, tag').rows == Victimized(c, t, line, way, tag').rows;
    } else {
      assert Put(c, r, p, tag').lines == Victimized(c, t, line, way, tag').lines;
    }
  }

  /** What an access that finds the line, and one that does not, make of a level. */
  ghost predicate HitEffect(c: Config, t: Tags, t': Tags, line: bv64, store: bool)
    requires TagsOk(c, t)
  {
    exists p :: Holds(c, t, p, line) && t' == if store then Put(c, t, p, Marked(TagAt(c, t, p))) else t
  }

  ghost predicate MissEffect(c: Config, t: Tags, t': Tags, line: bv64, store: bool, way: nat)
    requires TagsOk(c, t)
  {
    way < c.ways && t' == Victimized(c, t, line, way, if store then Marked(Packed(line)) else Packed(line))
  }
}
