/** The byte format of a flattened device tree: chapter 5 of the Devicetree Specification.

A structure block is a sequence of records, each beginning with a big-endian 32-bit tag and padded
to four bytes. `Records` says which bytes spell which records (the padding is free); everything the
library writes, walks or edits is stated against it.
*/
module FdtFormat {
  import opened Bytes
  import opened Wrappers

  const TWO32 := 0x1_0000_0000

  const BEGIN_NODE := 1
  const END_NODE := 2
  const PROP := 3
  const NOP := 4
  const END := 9

  // Error codes; the library returns their negations.
  const NOTFOUND := 1
  const EXISTS := 2
  const NOSPACE := 3
  const BADOFFSET := 4
  const BADSTATE := 7
  const TRUNCATED := 8
  const BADMAGIC := 9
  const BADVERSION := 10
  const BADSTRUCTURE := 11
  const BADLAYOUT := 12
  const INTERNAL := 13
  const BADFLAGS := 18

  /** One record of a structure block. A property refers to its name by offset. */
  datatype Token =
    | TBegin(name: seq<byte>)
    | TEnd
    | TProp(nameoff: nat, val: seq<byte>)
    | TNop

  /** What a reader of the tree sees: names are resolved and NOPs are gone. */
  datatype Event = Begin(name: seq<byte>) | End | Prop(name: seq<byte>, val: seq<byte>)

  /** FDT_TAGALIGN */
  function Align4(n: nat): (r: nat)
    ensures r % 4 == 0 && n <= r < n + 4
  {
    (n + 3) / 4 * 4
  }

  function WordAt(s: seq<byte>, o: nat): (w: nat)
    requires o + 4 <= |s|
    ensures w < TWO32
  {
    (((s[o] as int) * 256 + s[o + 1]) * 256 + s[o + 2]) * 256 + s[o + 3]
  }

  function WordBytes(w: nat): (r: seq<byte>)
    requires w < TWO32
    ensures |r| == 4 && WordAt(r, 0) == w
  {
    var q := w / 256;
    var p := q / 256;
    [p / 256, p % 256, q % 256, w % 256]
  }

  /** A C string has no NUL inside. */
  predicate IsName(n: seq<byte>) {
    forall i | 0 <= i < |n| :: n[i] != 0
  }

  /** Where the first NUL at or after `o` lies, or |s| when there is none. */
  function FindNul(s: seq<byte>, o: nat): (z: nat)
    requires o <= |s|
    ensures o <= z <= |s|
    ensures forall i | o <= i < z :: s[i] != 0
    ensures z < |s| ==> s[z] == 0
    decreases |s| - o
  {
    if o == |s| || s[o] == 0 then o else FindNul(s, o + 1)
  }

  // ----- records

  function TagOf(t: Token): (tag: nat) {
    match t
    case TBegin(_) => BEGIN_NODE
    case TEnd => END_NODE
    case TProp(_, _) => PROP
    case TNop => NOP
  }

  function TokSize(t: Token): (n: nat)
    ensures 4 <= n && n % 4 == 0
  {
    match t
    case TBegin(name) => 4 + Align4(|name| + 1)
    case TProp(_, val) => 12 + Align4(|val|)
    case _ => 4
  }

  function Size(toks: seq<Token>): (n: nat)
    ensures n % 4 == 0
  {
    if toks == [] then 0
    else
      SumOfWords(TokSize(toks[0]), Size(toks[1..]));
      TokSize(toks[0]) + Size(toks[1..])
  }

  lemma SumOfWords(a: nat, b: nat)
    requires a % 4 == 0 && b % 4 == 0
    ensures (a + b) % 4 == 0
  {
  }

  /** The bytes `x` spell the record `t`; only the padding after a name or a value is free. */
  predicate Spells(x: seq<byte>, t: Token) {
    && |x| == TokSize(t)
    && WordAt(x, 0) == TagOf(t)
    && match t
       case TBegin(name) => IsName(name) && x[4..4 + |name|] == name && x[4 + |name|] == 0
       case TProp(nameoff, val) =>
         && |val| + 12 < TWO32
         && WordAt(x, 4) == |val| && WordAt(x, 8) == nameoff && x[12..12 + |val|] == val
       case _ => true
  }

  predicate Records(s: seq<byte>, toks: seq<Token>) {
    if toks == [] then s == []
    else
      var n := TokSize(toks[0]);
      n <= |s| && Spells(s[..n], toks[0]) && Records(s[n..], toks[1..])
  }

  /** A complete structure block: records, then the END tag; whatever follows is never looked at. */
  predicate Block(s: seq<byte>, toks: seq<Token>) {
    var n := Size(toks);
    n + 4 <= |s| && Records(s[..n], toks) && WordAt(s, n) == END
  }

  lemma {:induction false} RecordsSize(s: seq<byte>, toks: seq<Token>)
    requires Records(s, toks)
    ensures |s| == Size(toks)
  {
    if toks != [] {
      RecordsSize(s[TokSize(toks[0])..], toks[1..]);
    }
  }

  lemma RecordsBlock(s: seq<byte>, toks: seq<Token>, x: seq<byte>)
    requires Records(s, toks) && |x| >= 4 && WordAt(x, 0) == END
    ensures Block(s + x, toks)
  {
    RecordsSize(s, toks);
    var n := Size(toks);
    assert (s + x)[..n] == s;
    assert WordAt(s + x, n) == WordAt(x, 0);
  }

  lemma {:induction false} SizeAppend(a: seq<Token>, b: seq<Token>)
    ensures Size(a + b) == Size(a) + Size(b)
  {
    if a == [] {
      assert a + b == b;
    } else {
      assert (a + b)[1..] == a[1..] + b;
      SizeAppend(a[1..], b);
    }
  }

  lemma {:induction false} RecordsAppend(s: seq<byte>, a: seq<Token>, r: seq<byte>, b: seq<Token>)
    requires Records(s, a) && Records(r, b)
    ensures Records(s + r, a + b)
  {
    hide Spells, TokSize;
    if a == [] {
      assert s + r == r && a + b == b;
    } else {
      var n := TokSize(a[0]);
      RecordsAppend(s[n..], a[1..], r, b);
      assert (s + r)[..n] == s[..n] && (s + r)[n..] == s[n..] + r;
      assert (a + b)[1..] == a[1..] + b;
    }
  }

  lemma {:induction false} RecordsSplit(s: seq<byte>, toks: seq<Token>, k: nat)
    requires Records(s, toks) && k <= |toks|
    ensures Size(toks[..k]) <= |s|
    ensures Records(s[..Size(toks[..k])], toks[..k]) && Records(s[Size(toks[..k])..], toks[k..])
  {
    hide Spells, TokSize;
    if k == 0 {
      assert toks[..0] == [] && toks[0..] == toks && s[0..] == s;
    } else {
      var n := TokSize(toks[0]);
      RecordsSplit(s[n..], toks[1..], k - 1);
      assert toks[..k][1..] == toks[1..][..k - 1] && toks[k..] == toks[1..][k - 1..];
      var m := Size(toks[1..][..k - 1]);
      assert Size(toks[..k]) == n + m;
      SliceTwice(s, n, m);
    }
  }

  lemma SliceTwice(s: seq<byte>, n: nat, m: nat)
    requires n + m <= |s|
    ensures s[..n + m][n..] == s[n..][..m] && s[..n + m][..n] == s[..n] && s[n + m..] == s[n..][m..]
  {
  }

  /** A name ends at its first NUL. */
  lemma NameEnds(s: seq<byte>, o: nat, n: seq<byte>)
    requires IsName(n) && o + |n| < |s| && s[o..o + |n|] == n && s[o + |n|] == 0
    ensures FindNul(s, o) == o + |n|
  {
    assert forall i | o <= i < o + |n| :: s[i] == s[o..o + |n|][i - o];
  }

  lemma BlockHead(s: seq<byte>, toks: seq<Token>)
    requires Block(s, toks) && toks != []
    ensures var n := TokSize(toks[0]);
            n <= |s| && Spells(s[..n], toks[0]) && WordAt(s, 0) == TagOf(toks[0]) && Block(s[n..], toks[1..])
  {
    var n, m := TokSize(toks[0]), Size(toks);
    assert s[..m][..n] == s[..n];
    assert s[..m][n..] == s[n..][..m - n];
    assert WordAt(s, 0) == WordAt(s[..n], 0);
    assert WordAt(s[n..], m - n) == WordAt(s, m);
  }

  lemma {:induction false} BlockDrop(s: seq<byte>, toks: seq<Token>, i: nat)
    requires Block(s, toks) && i <= |toks|
    ensures Size(toks[..i]) <= |s| && Block(s[Size(toks[..i])..], toks[i..])
  {
    if i == 0 {
      assert toks[..0] == [] && toks[0..] == toks && s[0..] == s;
    } else {
      BlockHead(s, toks);
      BlockDrop(s[TokSize(toks[0])..], toks[1..], i - 1);
      assert toks[..i][1..] == toks[1..][..i - 1] && toks[i..] == toks[1..][i - 1..];
      assert s[Size(toks[..i])..] == s[TokSize(toks[0])..][Size(toks[1..][..i - 1])..];
    }
  }

  lemma OneRecord(x: seq<byte>, t: Token)
    requires Spells(x, t)
    ensures Records(x, [t])
  {
    assert x[..TokSize(t)] == x && x[TokSize(t)..] == [] && [t][1..] == [];
  }

  lemma OneSize(t: Token)
    ensures Size([t]) == TokSize(t)
  {
    assert [t][1..] == [];
  }

  lemma {:induction false} BlockPrepend(s: seq<byte>, a: seq<Token>, r: seq<byte>, b: seq<Token>)
    requires Records(s, a) && Block(r, b)
    ensures Block(s + r, a + b)
  {
    hide Spells, TokSize;
    RecordsSize(s, a);
    SizeAppend(a, b);
    RecordsAppend(s, a, r[..Size(b)], b);
    var n := Size(a + b);
    assert (s + r)[..n] == s + r[..Size(b)];
    assert WordAt(s + r, n) == WordAt(r, Size(b));
  }

  /** Replacing the bytes of records i to j by bytes that spell others replaces those records. */
  lemma BlockSplice(s: seq<byte>, toks: seq<Token>, i: nat, j: nat, x: seq<byte>, us: seq<Token>)
    requires Block(s, toks) && i <= j <= |toks| && Records(x, us)
    ensures Size(toks[..i]) <= Size(toks[..j]) <= |s|
    ensures Block(Replaced(s, Size(toks[..i]), Size(toks[..j]) - Size(toks[..i]), x), toks[..i] + us + toks[j..])
  {
    hide Records, Block, Spells, TokSize;
    BlockTake(s, toks, i);
    BlockDrop(s, toks, j);
    assert toks[..j] == toks[..i] + toks[i..j];
    SizeAppend(toks[..i], toks[i..j]);
    RecordsAppend(s[..Size(toks[..i])], toks[..i], x, us);
    BlockPrepend(s[..Size(toks[..i])] + x, toks[..i] + us, s[Size(toks[..j])..], toks[j..]);
  }

  lemma BlockTake(s: seq<byte>, toks: seq<Token>, i: nat)
    requires Block(s, toks) && i <= |toks|
    ensures Size(toks[..i]) <= |s| && Records(s[..Size(toks[..i])], toks[..i])
  {
    hide Records, Spells, TokSize;
    RecordsSplit(s[..Size(toks)], toks, i);
    assert s[..Size(toks)][..Size(toks[..i])] == s[..Size(toks[..i])];
  }

  function PropHead(len: nat, nameoff: nat): (x: seq<byte>)
    requires len < TWO32 && nameoff < TWO32
    ensures |x| == 12 && WordAt(x, 0) == PROP && WordAt(x, 4) == len && WordAt(x, 8) == nameoff
  {
    var x := WordBytes(PROP) + WordBytes(len) + WordBytes(nameoff);
    assert x[..4] == WordBytes(PROP) && x[4..8] == WordBytes(len) && x[8..] == WordBytes(nameoff);
    x
  }

  predicate IsPropHead(x: seq<byte>, len: nat, nameoff: nat) {
    |x| == 12 && WordAt(x, 0) == PROP && WordAt(x, 4) == len && WordAt(x, 8) == nameoff
  }

  lemma HeadedSpells(h: seq<byte>, nameoff: nat, v: seq<byte>, pad: seq<byte>)
    requires nameoff < TWO32 && 12 + |v| < TWO32 && |v| + |pad| == Align4(|v|) && IsPropHead(h, |v|, nameoff)
    ensures Spells(h + (v + pad), TProp(nameoff, v))
  {
    var x := h + (v + pad);
    assert WordAt(x, 0) == WordAt(h, 0) && WordAt(x, 4) == WordAt(h, 4) && WordAt(x, 8) == WordAt(h, 8);
    assert x[12..12 + |v|] == v;
  }

  lemma PropSpells(nameoff: nat, v: seq<byte>, pad: seq<byte>)
    requires nameoff < TWO32 && 12 + |v| < TWO32 && |v| + |pad| == Align4(|v|)
    ensures Spells(PropHead(|v|, nameoff) + (v + pad), TProp(nameoff, v))
  {
    hide PropHead;
    HeadedSpells(PropHead(|v|, nameoff), nameoff, v, pad);
  }

  lemma BeginSpells(name: seq<byte>, pad: seq<byte>)
    requires IsName(name) && |name| + 5 + |pad| == TokSize(TBegin(name))
    ensures Spells(WordBytes(BEGIN_NODE) + (name + [0]) + pad, TBegin(name))
  {
    var x := WordBytes(BEGIN_NODE) + (name + [0]) + pad;
    assert x[..4] == WordBytes(BEGIN_NODE);
    assert x[4..4 + |name|] == name && x[4 + |name|] == 0;
  }

  // ----- names

  /** The NUL-terminated string at `o` in a strings block. */
  function StringAt(tab: seq<byte>, o: nat): (r: Option<seq<byte>>)
    ensures r.Some? ==> o < |tab| && IsName(r.value) && o + |r.value| < |tab|
  {
    if o >= |tab| || FindNul(tab, o) == |tab| then None else Some(tab[o..FindNul(tab, o)])
  }

  /** A string is read at an offset exactly when its bytes stand there with the first NUL behind them. */
  lemma StringAtExact(tab: seq<byte>, o: nat, n: seq<byte>)
    ensures StringAt(tab, o) == Some(n) <==>
              o + |n| < |tab| && tab[o..o + |n|] == n && tab[o + |n|] == 0 && forall k | 0 <= k < |n| :: n[k] != 0
  {
    if o + |n| < |tab| && tab[o..o + |n|] == n && tab[o + |n|] == 0 && forall k | 0 <= k < |n| :: n[k] != 0 {
      assert forall k | o <= k < o + |n| :: tab[k] == n[k - o];
      assert FindNul(tab, o) == o + |n|;
    }
  }

  /** Resolve every name. An unfinished blob stores its name offsets relative to the end of the
      buffer, as 32-bit negative numbers; adding `base` (the size of the table) makes them ordinary. */
  function Resolve(toks: seq<Token>, tab: seq<byte>, base: nat): (r: Option<seq<Event>>) {
    if toks == [] then Some([])
    else
      var rest := Resolve(toks[1..], tab, base);
      if rest.None? then None
      else
        match toks[0]
        case TNop => rest
        case TEnd => Some([End] + rest.value)
        case TBegin(n) => Some([Begin(n)] + rest.value)
        case TProp(o, v) =>
          var n := StringAt(tab, (o + base) % TWO32);
          if n.None? then None else Some([Prop(n.value, v)] + rest.value)
  }

  lemma {:induction false} ResolveAppend(a: seq<Token>, b: seq<Token>, tab: seq<byte>, base: nat)
    ensures var ra, rb, r := Resolve(a, tab, base), Resolve(b, tab, base), Resolve(a + b, tab, base);
            r == if ra.Some? && rb.Some? then Some(ra.value + rb.value) else None
  {
    if a == [] {
      assert a + b == b;
      var rb := Resolve(b, tab, base);
      assert rb.Some? ==> [] + rb.value == rb.value;
    } else {
      assert (a + b)[1..] == a[1..] + b && (a + b)[0] == a[0];
      ResolveAppend(a[1..], b, tab, base);
      var ra, rb := Resolve(a[1..], tab, base), Resolve(b, tab, base);
      if ra.Some? && rb.Some? {
        assert forall e: Event :: [e] + (ra.value + rb.value) == ([e] + ra.value) + rb.value;
      }
    }
  }

  /** Where a string starts decides what it is, wherever the bytes lie. */
  lemma StringMoves(a: seq<byte>, o: nat, b: seq<byte>, p: nat, n: nat)
    requires o < |a| && FindNul(a, o) < |a| && n == FindNul(a, o) - o
    requires p + n < |b| && b[p..p + n + 1] == a[o..o + n + 1]
    ensures StringAt(b, p) == StringAt(a, o)
  {
    forall i | p <= i < p + n ensures b[i] != 0 {
      assert b[i] == b[p..p + n + 1][i - p] == a[o..o + n + 1][i - p] == a[o + (i - p)];
    }
    assert b[p + n] == b[p..p + n + 1][n] == a[o..o + n + 1][n] == 0;
    assert b[p..p + n] == b[p..p + n + 1][..n] == a[o..o + n + 1][..n] == a[o..o + n];
  }

  /** The string just written is the one found. */
  lemma StringWritten(b: seq<byte>, p: nat, s: seq<byte>)
    requires IsName(s) && p + |s| < |b| && b[p..p + |s| + 1] == s + [0]
    ensures StringAt(b, p) == Some(s)
  {
    forall i | p <= i < p + |s| ensures b[i] != 0 {
      assert b[i] == b[p..p + |s| + 1][i - p];
    }
    assert b[p + |s|] == b[p..p + |s| + 1][|s|];
    assert b[p..p + |s|] == b[p..p + |s| + 1][..|s|];
  }

  /** Strings added behind the table leave every name as it was. */
  lemma {:induction false} NamesKeptBehind(toks: seq<Token>, tab: seq<byte>, x: seq<byte>)
    requires Resolve(toks, tab, 0).Some?
    ensures Resolve(toks, tab + x, 0) == Resolve(toks, tab, 0)
  {
    if toks != [] {
      NamesKeptBehind(toks[1..], tab, x);
      if toks[0].TProp? {
        var i := toks[0].nameoff % TWO32;
        var n := FindNul(tab, i) - i;
        assert (tab + x)[i..i + n + 1] == tab[i..i + n + 1];
        StringMoves(tab, i, tab + x, i, n);
      }
    }
  }

  /** The number of events that records stand for. */
  function Visible(toks: seq<Token>): (n: nat) {
    if toks == [] then 0 else Visible(toks[1..]) + (if toks[0].TNop? then 0 else 1)
  }

  lemma {:induction false} VisibleResolved(toks: seq<Token>, tab: seq<byte>, base: nat)
    requires Resolve(toks, tab, base).Some?
    ensures |Resolve(toks, tab, base).value| == Visible(toks)
  {
    hide StringAt;
    if toks != [] {
      VisibleResolved(toks[1..], tab, base);
    }
  }

  /** Cutting the records cuts the events. */
  lemma ResolveParts(toks: seq<Token>, tab: seq<byte>, base: nat, i: nat)
    requires i <= |toks| && Resolve(toks, tab, base).Some?
    ensures Resolve(toks[..i], tab, base).Some? && Resolve(toks[i..], tab, base).Some?
    ensures var es := Resolve(toks, tab, base).value; var n := Visible(toks[..i]);
            n <= |es| && Resolve(toks[..i], tab, base).value == es[..n] && Resolve(toks[i..], tab, base).value == es[n..]
  {
    hide Resolve, Visible;
    assert toks == toks[..i] + toks[i..];
    ResolveAppend(toks[..i], toks[i..], tab, base);
    VisibleResolved(toks[..i], tab, base);
    var a, b := Resolve(toks[..i], tab, base).value, Resolve(toks[i..], tab, base).value;
    assert (a + b)[..|a|] == a && (a + b)[|a|..] == b;
  }

  /** Replacing records i to j replaces the events they stand for. */
  lemma ResolveSplice(toks: seq<Token>, tab: seq<byte>, i: nat, j: nat, us: seq<Token>)
    requires i <= j <= |toks| && Resolve(toks, tab, 0).Some? && Resolve(us, tab, 0).Some?
    ensures Visible(toks[..i]) <= |Resolve(toks, tab, 0).value| && Visible(toks[..j]) <= |Resolve(toks, tab, 0).value|
    ensures var es := Resolve(toks, tab, 0).value;
            Resolve(toks[..i] + us + toks[j..], tab, 0)
            == Some(es[..Visible(toks[..i])] + Resolve(us, tab, 0).value + es[Visible(toks[..j])..])
  {
    hide Resolve, Visible;
    ResolveParts(toks, tab, 0, i);
    ResolveParts(toks, tab, 0, j);
    ResolveAppend(toks[..i], us, tab, 0);
    ResolveAppend(toks[..i] + us, toks[j..], tab, 0);
  }

  // ----- decoding

  /** The record at the head of `s`, if its bytes are all there. */
  function Head(s: seq<byte>): (r: Option<Token>)
    requires |s| >= 4
  {
    var tag := WordAt(s, 0);
    if tag == BEGIN_NODE then
      var z := FindNul(s, 4);
      if z == |s| then None else Some(TBegin(s[4..z]))
    else if tag == PROP then
      if |s| < 12 || |s| < 12 + WordAt(s, 4) || TWO32 <= 12 + WordAt(s, 4) then None
      else Some(TProp(WordAt(s, 8), s[12..12 + WordAt(s, 4)]))
    else if tag == END_NODE then Some(TEnd)
    else if tag == NOP then Some(TNop)
    else None
  }

  /** The records of a structure block up to its END tag. */
  function Parse(s: seq<byte>): (r: Option<seq<Token>>) {
    if |s| < 4 then None
    else if WordAt(s, 0) == END then Some([])
    else
      var h := Head(s);
      if h.None? || TokSize(h.value) > |s| then None
      else
        var rest := Parse(s[TokSize(h.value)..]);
        if rest.None? then None else Some([h.value] + rest.value)
  }

  /** The records of a block still being written, which has no END tag yet. */
  function ParseOpen(s: seq<byte>): (r: Option<seq<Token>>) {
    if s == [] then Some([])
    else if |s| < 4 || Head(s).None? || TokSize(Head(s).value) > |s| then None
    else
      var rest := ParseOpen(s[TokSize(Head(s).value)..]);
      if rest.None? then None else Some([Head(s).value] + rest.value)
  }

  /** What has been written so far. Name offsets count from the end of the table. */
  function Written(s: seq<byte>, tab: seq<byte>): (r: Option<seq<Event>>) {
    var toks := ParseOpen(s);
    if toks.None? then None else Resolve(toks.value, tab, |tab|)
  }

  /** The tree a reader sees: the events of a finished blob. */
  function Decode(s: seq<byte>, tab: seq<byte>): (r: Option<seq<Event>>) {
    var toks := Parse(s);
    if toks.None? then None else Resolve(toks.value, tab, 0)
  }

  lemma HeadSpells(s: seq<byte>, t: Token)
    requires 4 <= |s| && TokSize(t) <= |s|
    ensures Head(s) == Some(t) <==> Spells(s[..TokSize(t)], t)
  {
    var x := s[..TokSize(t)];
    assert WordAt(x, 0) == WordAt(s, 0);
    match t
    case TBegin(n) =>
      assert x[4..4 + |n|] == s[4..4 + |n|];
      if Spells(x, t) { NameEnds(s, 4, n); }
    case TProp(_, v) =>
      assert x[12..12 + |v|] == s[12..12 + |v|];
      assert WordAt(x, 4) == WordAt(s, 4) && WordAt(x, 8) == WordAt(s, 8);
    case _ =>
  }

  lemma {:induction false} ParseOpenIsRecords(s: seq<byte>, toks: seq<Token>)
    ensures ParseOpen(s) == Some(toks) <==> Records(s, toks)
    decreases |s|
  {
    if toks != [] && TokSize(toks[0]) <= |s| {
      var n := TokSize(toks[0]);
      HeadSpells(s, toks[0]);
      ParseOpenIsRecords(s[n..], toks[1..]);
      assert toks == [toks[0]] + toks[1..];
    }
  }

  /** The parser finds exactly the records that the bytes spell. */
  lemma {:induction false} ParseIsBlock(s: seq<byte>, toks: seq<Token>)
    ensures Parse(s) == Some(toks) <==> Block(s, toks)
    decreases |s|
  {
    if Block(s, toks) {
      BlockParses(s, toks);
    } else if Parse(s) == Some(toks) {
      if toks != [] {
        var n := TokSize(toks[0]);
        assert Head(s) == Some(toks[0]) && Parse(s[n..]) == Some(toks[1..]);
        HeadSpells(s, toks[0]);
        ParseIsBlock(s[n..], toks[1..]);
        BlockCons(s, toks);
      }
      assert false;
    }
  }

  lemma BlockCons(s: seq<byte>, toks: seq<Token>)
    requires toks != [] && TokSize(toks[0]) <= |s| && Spells(s[..TokSize(toks[0])], toks[0])
    requires Block(s[TokSize(toks[0])..], toks[1..])
    ensures Block(s, toks)
  {
    var n, m := TokSize(toks[0]), Size(toks);
    assert s[..m][..n] == s[..n];
    assert s[..m][n..] == s[n..][..m - n];
    assert WordAt(s[n..], m - n) == WordAt(s, m);
  }

  lemma {:induction false} BlockParses(s: seq<byte>, toks: seq<Token>)
    requires Block(s, toks)
    ensures Parse(s) == Some(toks)
  {
    if toks != [] {
      BlockHead(s, toks);
      HeadSpells(s, toks[0]);
      BlockParses(s[TokSize(toks[0])..], toks[1..]);
      assert toks == [toks[0]] + toks[1..];
    }
  }

  // ----- nesting

  /** Nodes open after the events, starting from `d`; None once more are closed than were opened. */
  function Depth(es: seq<Event>, d: nat): (r: Option<nat>) {
    if es == [] then Some(d)
    else
      match es[0]
      case Begin(_) => Depth(es[1..], d + 1)
      case End => if d == 0 then None else Depth(es[1..], d - 1)
      case Prop(_, _) => Depth(es[1..], d)
  }

  predicate Balanced(es: seq<Event>) {
    Depth(es, 0) == Some(0)
  }

  /** Nothing is asked of the root: no node at all, two nodes side by side and a property outside any node are balanced. */
  lemma RootsNotCounted()
    ensures Balanced([])
    ensures Balanced([Begin([]), End, Begin([]), End])
    ensures Balanced([Prop([], [])])
  {
    assert [Prop([], [])][1..] == [];
    assert [Begin([]), End][1..] == [End] && [End][1..] == [];
    var two := [Begin([]), End, Begin([]), End];
    assert two[1..] == [End, Begin([]), End] && [End, Begin([]), End][1..] == [Begin([]), End];
  }

  // ----- nesting by counting

  function Begins(es: seq<Event>): (n: nat) {
    if es == [] then 0 else Begins(es[..|es| - 1]) + if es[|es| - 1].Begin? then 1 else 0
  }

  function Ends(es: seq<Event>): (n: nat) {
    if es == [] then 0 else Ends(es[..|es| - 1]) + if es[|es| - 1].End? then 1 else 0
  }

  lemma {:induction false} DepthSnoc(es: seq<Event>, e: Event, d: nat)
    ensures Depth(es + [e], d) == if Depth(es, d).None? then None else Depth([e], Depth(es, d).value)
  {
    if es == [] {
      assert es + [e] == [e];
    } else {
      assert (es + [e])[1..] == es[1..] + [e];
      if es[0].Begin? {
        DepthSnoc(es[1..], e, d + 1);
      } else if es[0].Prop? {
        DepthSnoc(es[1..], e, d);
      } else if d > 0 {
        DepthSnoc(es[1..], e, d - 1);
      }
    }
  }

  lemma OneDepth(e: Event, d: nat)
    ensures Depth([e], d) == if e.Begin? then Some(d + 1) else if e.Prop? then Some(d) else if d == 0 then None else Some(d - 1)
  {
    assert [e][1..] == [];
  }

  /** No prefix ends more nodes than it begins. */
  predicate NeverBelow(es: seq<Event>) {
    forall i | 0 <= i <= |es| :: Ends(es[..i]) <= Begins(es[..i])
  }

  lemma CountsSnoc(es: seq<Event>, e: Event)
    ensures Begins(es + [e]) == Begins(es) + (if e.Begin? then 1 else 0) && Ends(es + [e]) == Ends(es) + (if e.End? then 1 else 0)
  {
    assert (es + [e])[..|es|] == es;
  }

  lemma NeverBelowSnoc(es: seq<Event>, e: Event)
    ensures NeverBelow(es + [e]) <==> NeverBelow(es) && Ends(es + [e]) <= Begins(es + [e])
  {
    hide Begins, Ends;
    var t := es + [e];
    assert t[..|es|] == es && t[..|t|] == t;
    assert forall i | 0 <= i <= |es| :: t[..i] == es[..i];
    if NeverBelow(t) {
      forall i | 0 <= i <= |es| ensures Ends(es[..i]) <= Begins(es[..i]) {
        assert t[..i] == es[..i];
      }
    }
  }

  /** The depth is the number of nodes begun less that of nodes ended, and is there as long as no more end than began. */
  lemma {:induction false} DepthCounts(es: seq<Event>)
    ensures Depth(es, 0).Some? <==> NeverBelow(es)
    ensures Depth(es, 0).Some? ==> Depth(es, 0).value == Begins(es) - Ends(es)
  {
    hide NeverBelow;
    if es == [] {
      NothingBelow();
    } else {
      var n := |es| - 1;
      DepthCounts(es[..n]);
      assert es == es[..n] + [es[n]];
      DepthSnoc(es[..n], es[n], 0);
      CountsSnoc(es[..n], es[n]);
      NeverBelowSnoc(es[..n], es[n]);
      LastCounted(es[..n]);
      if Depth(es[..n], 0).Some? { OneDepth(es[n], Depth(es[..n], 0).value); }
    }
  }

  lemma NothingBelow()
    ensures NeverBelow([])
  {
  }

  lemma LastCounted(es: seq<Event>)
    ensures NeverBelow(es) ==> Ends(es) <= Begins(es)
  {
    assert es[..|es|] == es;
  }

  /** Events are balanced exactly when as many nodes end as begin and no prefix ends more than it begins. */
  lemma BalancedExact(es: seq<Event>)
    ensures Balanced(es) <==> Begins(es) == Ends(es) && forall i | 0 <= i <= |es| :: Ends(es[..i]) <= Begins(es[..i])
  {
    hide Depth;
    DepthCounts(es);
  }

  // ----- the format, byte for byte

  /** A node's record: the tag 1 as a big-endian word, the name with its NUL, padding up to a whole word. */
  lemma BeginBytes(name: seq<byte>, pad: seq<byte>, rest: seq<byte>)
    requires IsName(name) && |pad| == 3 - |name| % 4
    ensures Head([0, 0, 0, 1] + (name + [0] + pad) + rest) == Some(TBegin(name))
    ensures TokSize(TBegin(name)) == 4 + |name| + 1 + |pad|
  {
    var s := [0, 0, 0, 1] + (name + [0] + pad) + rest;
    assert s[4..4 + |name|] == name;
    NameEnds(s, 4, name);
  }

  /** A property's record: the tag 3, the length and the offset of the name as big-endian words, the value, padding up to a
      whole word. */
  lemma PropertyBytes(len: seq<byte>, off: seq<byte>, val: seq<byte>, pad: seq<byte>, rest: seq<byte>)
    requires |len| == 4 && |off| == 4
    requires |val| == (len[0] as int) * 0x100_0000 + (len[1] as int) * 0x1_0000 + (len[2] as int) * 0x100 + len[3]
    requires |val| + 12 < 0x1_0000_0000 && |pad| == (4 - |val| % 4) % 4
    ensures var o := (off[0] as int) * 0x100_0000 + (off[1] as int) * 0x1_0000 + (off[2] as int) * 0x100 + off[3];
            && Head([0, 0, 0, 3] + len + off + (val + pad + rest)) == Some(TProp(o, val))
            && TokSize(TProp(o, val)) == 12 + |val| + |pad|
  {
    hide FindNul, WordAt, Align4;
    PadIs(|val|);
    var s := [0, 0, 0, 3] + len + off + (val + pad + rest);
    assert s[12..12 + |val|] == val;
    PropertyWords(len, off, val + pad + rest);
  }

  lemma PadIs(n: nat)
    ensures Align4(n) == n + (4 - n % 4) % 4
  {
  }

  lemma PropertyWords(len: seq<byte>, off: seq<byte>, rest: seq<byte>)
    requires |len| == 4 && |off| == 4
    ensures var s := [0, 0, 0, 3] + len + off + rest;
            && WordAt(s, 0) == 3
            && WordAt(s, 4) == (len[0] as int) * 0x100_0000 + (len[1] as int) * 0x1_0000 + (len[2] as int) * 0x100 + len[3]
            && WordAt(s, 8) == (off[0] as int) * 0x100_0000 + (off[1] as int) * 0x1_0000 + (off[2] as int) * 0x100 + off[3]
  {
  }

  /** The records that are one word, and the end of a block. */
  lemma TagBytes(rest: seq<byte>)
    ensures Head([0, 0, 0, 2] + rest) == Some(TEnd) && TokSize(TEnd) == 4
    ensures Head([0, 0, 0, 4] + rest) == Some(TNop) && TokSize(TNop) == 4
    ensures Parse([0, 0, 0, 9] + rest) == Some([])
  {
  }
}
