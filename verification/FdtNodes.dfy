/** Finding nodes and properties in a finished blob (fdt/fdt.c, fdt/fdt_ro.c). Offsets into the
    structure block are matched with the records that start there. */
module FdtNodes {
  import opened Bytes
  import opened FdtFormat
  import opened Wrappers
  import opened FdtBlob
  import opened FdtCheck

  /** Where record `i` starts. */
  ghost function OffsetOf(toks: seq<Token>, i: nat): (o: nat)
    requires i <= |toks|
    ensures o % 4 == 0
  {
    Size(toks[..i])
  }

  lemma OffsetStep(toks: seq<Token>, i: nat)
    requires i < |toks|
    ensures OffsetOf(toks, i + 1) == OffsetOf(toks, i) + TokSize(toks[i])
  {
    assert toks[..i + 1] == toks[..i] + [toks[i]];
    SizeAppend(toks[..i], [toks[i]]);
    OneSize(toks[i]);
  }

  lemma {:induction false} OffsetMonotone(toks: seq<Token>, i: nat, j: nat)
    requires i <= j <= |toks|
    ensures OffsetOf(toks, i) <= OffsetOf(toks, j) && (i < j ==> OffsetOf(toks, i) + 4 <= OffsetOf(toks, j))
    decreases j - i
  {
    if i < j {
      OffsetMonotone(toks, i, j - 1);
      OffsetStep(toks, j - 1);
    }
  }

  /** The walker at the start of record `i`, or at the END tag. */
  method TagAt(fdt: Blob, offset: nat, ghost toks: seq<Token>, ghost i: nat) returns (tag: nat, next: int)
    requires fdt.HasStruct() && Block(fdt.StructBlock(), toks)
    requires i <= |toks| && offset == OffsetOf(toks, i)
    ensures offset + 4 <= fdt.sizeStruct
    ensures if i == |toks| then tag == END && next == offset + 4
            else
              && tag == TagOf(toks[i]) && next == OffsetOf(toks, i + 1) == offset + TokSize(toks[i]) <= fdt.sizeStruct
              && Spells(fdt.StructBlock()[offset..next], toks[i])
              && (toks[i].TProp? ==>
                    && offset + 12 <= next
                    && WordAt(fdt.StructBlock(), offset + 4) == |toks[i].val|
                    && WordAt(fdt.StructBlock(), offset + 8) == toks[i].nameoff)
  {
    hide NextTagOf, Spells, Records, WordAt;
    ghost var s := fdt.StructBlock();
    BlockDrop(s, toks, i);
    NextTagInBlock(s, offset, toks[i..]);
    if i < |toks| {
      OffsetStep(toks, i);
      assert toks[i].TProp? ==> TokSize(toks[i]) >= 12;
    }
    tag, next := NextTag(fdt, offset);
  }

  /** fdt_check_node_offset_, for any offset at all */
  method CheckNodeOffset(fdt: Blob, offset: int) returns (next: int)
    requires fdt.HasStruct() && offset <= INT_MAX
    ensures next == NodeCheck(fdt.StructBlock(), offset)
  {
    if offset < 0 || offset % 4 != 0 {
      return -BADOFFSET;
    }
    var tag;
    tag, next := NextTag(fdt, offset);
    if tag != BEGIN_NODE {
      return -BADOFFSET;
    }
  }

  /** The offset behind the start of the node at `offset`, if the walker finds one there. */
  function NodeCheck(s: seq<byte>, offset: int): (next: int) {
    if offset < 0 || offset % 4 != 0 || NextTagOf(s, offset).0 != BEGIN_NODE then -BADOFFSET else NextTagOf(s, offset).1
  }

  /** Among the offsets at which records begin, just those of nodes pass. */
  lemma NodeCheckAt(s: seq<byte>, toks: seq<Token>, i: nat)
    requires Block(s, toks) && i <= |toks|
    ensures OffsetOf(toks, i) + 4 <= |s|
    ensures NodeCheck(s, OffsetOf(toks, i)) == if i < |toks| && toks[i].TBegin? then OffsetOf(toks, i + 1) else -BADOFFSET
  {
    hide NextTagOf, Spells, Records, WordAt;
    BlockDrop(s, toks, i);
    NextTagInBlock(s, OffsetOf(toks, i), toks[i..]);
    if i < |toks| {
      OffsetStep(toks, i);
    }
  }

  // ----- the next node

  datatype Scan = AtNode(k: nat, d: nat) | Closed(k: nat) | RanOut

  /** From record `k`, `d` levels below the starting node: the next node to begin, or the record after
      the one that closes the starting node. */
  ghost function ScanNode(toks: seq<Token>, k: nat, d: nat): (r: Scan)
    requires k <= |toks|
    ensures r.AtNode? ==> k <= r.k < |toks| && toks[r.k].TBegin?
    ensures r.Closed? ==> k < r.k <= |toks|
    decreases |toks| - k
  {
    if k == |toks| then RanOut
    else
      match toks[k]
      case TBegin(_) => AtNode(k, d + 1)
      case TEnd => if d == 0 then Closed(k + 1) else ScanNode(toks, k + 1, d - 1)
      case _ => ScanNode(toks, k + 1, d)
  }

  /** fdt_next_node, from a node at record `i` and with a depth to keep. */
  method NextNode(fdt: Blob, offset: nat, depth: nat, ghost toks: seq<Token>, ghost i: nat) returns (r: int, depth': int)
    requires fdt.HasStruct() && Block(fdt.StructBlock(), toks)
    requires i <= |toks| && offset == OffsetOf(toks, i)
    ensures if i == |toks| || !toks[i].TBegin? then r == -BADOFFSET && depth' == depth
            else
              match ScanNode(toks, i + 1, depth)
              case AtNode(k, d) => r == OffsetOf(toks, k) && depth' == d
              case Closed(k) => r == OffsetOf(toks, k) && depth' == -1
              case RanOut => r == -NOTFOUND && depth' >= 0
  {
    hide Block, Spells, TokSize, OffsetOf;
    NodeCheckAt(fdt.StructBlock(), toks, i);
    var next := CheckNodeOffset(fdt, offset);
    depth' := depth;
    if next < 0 {
      return next, depth;
    }
    ghost var k := i + 1;
    while true
      invariant i < k <= |toks| && next == OffsetOf(toks, k) >= 0 && depth' >= 0
      invariant ScanNode(toks, i + 1, depth) == ScanNode(toks, k, depth')
      decreases |toks| - k
    {
      r := next;
      var tag;
      tag, next := TagAt(fdt, r, toks, k);
      if tag == BEGIN_NODE {
        depth' := depth' + 1;
        return;
      } else if tag == END_NODE {
        depth' := depth' - 1;
        if depth' < 0 {
          return next, depth';
        }
      } else if tag == END {
        return -NOTFOUND, depth';
      }
      k := k + 1;
    }
  }

  /** The record after the one that closes the node, `d` levels up. */
  ghost function CloseOf(toks: seq<Token>, k: nat, d: nat): (r: Option<nat>)
    requires k <= |toks|
    ensures r.Some? ==> k < r.value <= |toks|
    decreases |toks| - k
  {
    if k == |toks| then None
    else
      match toks[k]
      case TBegin(_) => CloseOf(toks, k + 1, d + 1)
      case TEnd => if d == 0 then Some(k + 1) else CloseOf(toks, k + 1, d - 1)
      case _ => CloseOf(toks, k + 1, d)
  }

  lemma {:induction false} CloseSkips(toks: seq<Token>, k: nat, d: nat)
    requires k <= |toks|
    ensures CloseOf(toks, k, d) ==
            match ScanNode(toks, k, d)
            case AtNode(m, e) => CloseOf(toks, m + 1, e)
            case Closed(m) => Some(m)
            case RanOut => None
    decreases |toks| - k
  {
    if k < |toks| && !toks[k].TBegin? && !(toks[k].TEnd? && d == 0) {
      CloseSkips(toks, k + 1, if toks[k].TEnd? then d - 1 else d);
    }
  }

  /** fdt_node_end_offset_ */
  method NodeEndOffset(fdt: Blob, offset: nat, ghost toks: seq<Token>, ghost i: nat) returns (r: int)
    requires fdt.HasStruct() && Block(fdt.StructBlock(), toks)
    requires i <= |toks| && offset == OffsetOf(toks, i)
    ensures if i == |toks| || !toks[i].TBegin? then r == -BADOFFSET
            else var c := CloseOf(toks, i + 1, 0); r == if c.Some? then OffsetOf(toks, c.value) else -NOTFOUND
  {
    hide Block, Spells, TokSize, OffsetOf, ScanNode, CloseOf;
    var depth;
    r, depth := NextNode(fdt, offset, 0, toks, i);
    if r == -BADOFFSET {
      return;
    }
    CloseSkips(toks, i + 1, 0);
    ghost var k: nat := if ScanNode(toks, i + 1, 0).AtNode? then ScanNode(toks, i + 1, 0).k else i;
    while r >= 0 && depth >= 0
      invariant r >= 0 && depth >= 0 ==>
        k < |toks| && toks[k].TBegin? && r == OffsetOf(toks, k) && CloseOf(toks, k + 1, depth) == CloseOf(toks, i + 1, 0)
      invariant r < 0 ==> r == -NOTFOUND && CloseOf(toks, i + 1, 0) == None
      invariant r >= 0 && depth < 0 ==> CloseOf(toks, i + 1, 0).Some? && r == OffsetOf(toks, CloseOf(toks, i + 1, 0).value)
      decreases if r >= 0 && depth >= 0 then |toks| - k else -1
    {
      CloseSkips(toks, k + 1, depth);
      ghost var sc := ScanNode(toks, k + 1, depth);
      r, depth := NextNode(fdt, r, depth, toks, k);
      if sc.AtNode? { k := sc.k; }
    }
  }

  // ----- nodes by name

  /** fdt_nodename_eq_: a name without a unit address also matches one that continues with '@'. */
  predicate NameEq(p: seq<byte>, s: seq<byte>) {
    && |s| <= |p| && p[..|s|] == s
    && (|p| == |s| || (p[|s|] == 64 && 64 !in s))
  }

  /** fdt_get_name, of a blob that its probe lets through */
  method NodeName(fdt: Blob, offset: nat, ghost toks: seq<Token>, ghost k: nat) returns (name: seq<byte>)
    requires RoProbe(fdt) >= 0 && fdt.HasStruct() && Block(fdt.StructBlock(), toks)
    requires k < |toks| && toks[k].TBegin? && offset == OffsetOf(toks, k)
    ensures name == toks[k].name
  {
    hide Block, OffsetOf, FindNul, WordAt;
    var tag, next := TagAt(fdt, offset, toks, k);
    ghost var s := fdt.StructBlock();
    NameAt(s, offset, next, toks[k]);
    name := fdt.StructBlock()[offset + 4..FindNul(fdt.StructBlock(), offset + 4)];
  }

  lemma NameAt(s: seq<byte>, o: nat, next: nat, t: Token)
    requires t.TBegin? && o <= next <= |s| && Spells(s[o..next], t)
    ensures o + 4 <= FindNul(s, o + 4) && s[o + 4..FindNul(s, o + 4)] == t.name
  {
    var x, n := s[o..next], |t.name|;
    SliceSlice(s, o, next, 4, 4 + n);
    assert s[o + 4 + n] == x[4 + n];
    NameEnds(s, o + 4, t.name);
  }

  /** From record `k`, `d` levels below the parent: the first direct child with a matching name. */
  ghost function FindSub(toks: seq<Token>, k: nat, d: nat, name: seq<byte>): (r: Option<nat>)
    requires k <= |toks|
    ensures r.Some? ==> k <= r.value < |toks| && toks[r.value].TBegin? && NameEq(toks[r.value].name, name)
    decreases |toks| - k
  {
    match ScanNode(toks, k, d)
    case AtNode(m, e) => if e == 1 && NameEq(toks[m].name, name) then Some(m) else FindSub(toks, m + 1, e, name)
    case Closed(_) => None
    case RanOut => None
  }

  // ----- the nodes that are open

  /** The nodes that are open before record `x`, outermost first. */
  ghost function StackAt(toks: seq<Token>, x: nat): (st: seq<nat>)
    requires x <= |toks|
    ensures |st| <= x && forall j | 0 <= j < |st| :: st[j] < x && toks[st[j]].TBegin?
    ensures forall i, j | 0 <= i < j < |st| :: st[i] < st[j]
  {
    if x == 0 then []
    else
      var st := StackAt(toks, x - 1);
      match toks[x - 1]
      case TBegin(_) => st + [x - 1]
      case TEnd => if st == [] then [] else st[..|st| - 1]
      case _ => st
  }

  /** From the root down to the node. */
  ghost function Lineage(toks: seq<Token>, t: nat): (st: seq<nat>)
    requires t < |toks| && toks[t].TBegin?
    ensures st != [] && forall j | 0 <= j < |st| :: st[j] <= t && toks[st[j]].TBegin?
  {
    StackAt(toks, t) + [t]
  }

  /** A node that is open before `t` was open ever since it began. */
  lemma {:induction false} Kept(toks: seq<Token>, x: nat, t: nat, j: nat)
    requires x <= t <= |toks| && j < |StackAt(toks, t)| && StackAt(toks, t)[j] < x
    ensures j < |StackAt(toks, x)| && StackAt(toks, x)[j] == StackAt(toks, t)[j]
    decreases t
  {
    if x < t {
      assert StackAt(toks, t)[j] == StackAt(toks, t - 1)[j];
      Kept(toks, x, t - 1, j);
    }
  }

  /** Until its last ancestor closes, the stack of a node is the start of every later stack. */
  lemma PrefixKept(toks: seq<Token>, x: nat, t: nat)
    requires x <= t <= |toks| && StackAt(toks, t) != [] && StackAt(toks, t)[|StackAt(toks, t)| - 1] < x
    ensures StackAt(toks, t) <= StackAt(toks, x)
  {
    var st := StackAt(toks, t);
    forall j | 0 <= j < |st| ensures j < |StackAt(toks, x)| && StackAt(toks, x)[j] == st[j] {
      Kept(toks, x, t, j);
    }
    if |st| > 0 { Kept(toks, x, t, |st| - 1); }
  }

  /** The parent of a node, just begun, has the stack of the node. */
  lemma ParentStack(toks: seq<Token>, t: nat)
    requires t < |toks| && StackAt(toks, t) != []
    ensures var p := StackAt(toks, t)[|StackAt(toks, t)| - 1];
            StackAt(toks, p + 1) == StackAt(toks, t) && StackAt(toks, p) == StackAt(toks, t)[..|StackAt(toks, t)| - 1]
  {
    var st := StackAt(toks, t);
    var p := st[|st| - 1];
    PrefixKept(toks, p + 1, t);
    var up := StackAt(toks, p + 1);
    assert up == StackAt(toks, p) + [p];
  }

  lemma StackStep(toks: seq<Token>, x: nat)
    requires x < |toks|
    ensures StackAt(toks, x + 1) ==
            match toks[x]
            case TBegin(_) => StackAt(toks, x) + [x]
            case TEnd => if StackAt(toks, x) == [] then [] else StackAt(toks, x)[..|StackAt(toks, x)| - 1]
            case _ => StackAt(toks, x)
  {
  }

  /** From record `x`, `d` levels below the parent of `t`, the walk goes on to `t` without leaving that parent. */
  lemma StillOpen(toks: seq<Token>, x: nat, d: nat, t: nat)
    requires x < t < |toks| && StackAt(toks, t) != [] && StackAt(toks, t)[|StackAt(toks, t)| - 1] < x
    requires |StackAt(toks, x)| == |StackAt(toks, t)| + d
    ensures d == 0 ==> StackAt(toks, x) == StackAt(toks, t) && !toks[x].TEnd?
    ensures |StackAt(toks, x + 1)| == |StackAt(toks, t)| + if toks[x].TBegin? then d + 1 else if toks[x].TEnd? then d - 1 else d
  {
    hide StackAt;
    PrefixKept(toks, x, t);
    PrefixKept(toks, x + 1, t);
    StackStep(toks, x);
  }

  /** What is found `d` levels below a node is a child of it. */
  lemma {:induction false} FoundIsChild(toks: seq<Token>, x: nat, d: nat, i: nat, name: seq<byte>)
    requires i < x <= |toks| && toks[i].TBegin? && Lineage(toks, i) <= StackAt(toks, x) && |StackAt(toks, x)| == |Lineage(toks, i)| + d
    ensures var f := FindSub(toks, x, d, name); f.Some? ==> StackAt(toks, f.value) == Lineage(toks, i)
    decreases |toks| - x
  {
    hide NameEq, StackAt;
    if x < |toks| && !(toks[x].TEnd? && d == 0) {
      StackStep(toks, x);
      FoundIsChild(toks, x + 1, if toks[x].TBegin? then d + 1 else if toks[x].TEnd? then d - 1 else d, i, name);
      if toks[x].TBegin? && d == 0 {
        assert StackAt(toks, x) == Lineage(toks, i);
      }
    }
  }

  /** Whatever child answers to a name, none after it is found. */
  lemma {:induction false} FoundBefore(toks: seq<Token>, x: nat, d: nat, c: nat, name: seq<byte>)
    requires x <= c < |toks| && toks[c].TBegin? && StackAt(toks, c) != [] && NameEq(toks[c].name, name)
    requires StackAt(toks, c)[|StackAt(toks, c)| - 1] < x && |StackAt(toks, x)| == |StackAt(toks, c)| + d
    ensures FindSub(toks, x, d, name).Some? && FindSub(toks, x, d, name).value <= c
    decreases c - x
  {
    hide NameEq, StackAt;
    if x < c {
      StillOpen(toks, x, d, c);
      FoundBefore(toks, x + 1, if toks[x].TBegin? then d + 1 else if toks[x].TEnd? then d - 1 else d, c, name);
    }
  }

  lemma ParentLineage(toks: seq<Token>, t: nat)
    requires t < |toks| && StackAt(toks, t) != []
    ensures var p := StackAt(toks, t)[|StackAt(toks, t)| - 1];
            p < t && toks[p].TBegin? && StackAt(toks, p + 1) == StackAt(toks, t) && Lineage(toks, p) == StackAt(toks, t)
  {
    hide StackAt;
    ParentStack(toks, t);
    StackStep(toks, StackAt(toks, t)[|StackAt(toks, t)| - 1]);
  }

  lemma LastBefore(toks: seq<Token>, c: nat)
    requires c <= |toks| && StackAt(toks, c) != []
    ensures StackAt(toks, c)[|StackAt(toks, c)| - 1] < c
  {
    hide StackAt;
  }

  /** Record `m` is a node directly below the node at record `i`. */
  ghost predicate IsChild(toks: seq<Token>, i: nat, m: nat)
    requires i < |toks| && toks[i].TBegin?
  {
    i < m < |toks| && toks[m].TBegin? && StackAt(toks, m) == Lineage(toks, i)
  }

  /** A name matches itself, and if it has no unit address also with any unit address. */
  lemma NameEqExact(p: seq<byte>, s: seq<byte>)
    ensures NameEq(p, s) <==> p == s || (64 !in s && exists u: seq<byte> :: p == s + [64] + u)
  {
    if NameEq(p, s) && p != s {
      assert p == s + [64] + p[|s| + 1..];
    }
  }

  /** The search finds the first child called by the name or, unless the name holds '@', by the name with a unit address;
      it finds none exactly when no child is. */
  lemma FindSubExact(toks: seq<Token>, i: nat, name: seq<byte>)
    requires i < |toks| && toks[i].TBegin?
    ensures var f := FindSub(toks, i + 1, 0, name);
            && (f.Some? ==>
                  && IsChild(toks, i, f.value)
                  && (toks[f.value].name == name || (64 !in name && exists u: seq<byte> :: toks[f.value].name == name + [64] + u)))
            && forall c: nat | IsChild(toks, i, c) && (f.Some? ==> c < f.value) ::
                 toks[c].name != name && (64 in name || forall u: seq<byte> :: toks[c].name != name + [64] + u)
  {
    hide StackAt, NameEq;
    var f := FindSub(toks, i + 1, 0, name);
    StackStep(toks, i);
    FoundIsChild(toks, i + 1, 0, i, name);
    if f.Some? {
      NameEqExact(toks[f.value].name, name);
      assert IsChild(toks, i, f.value) by { ChildAfter(toks, i, f.value); }
    }
    forall c: nat | IsChild(toks, i, c) && (f.Some? ==> c < f.value)
      ensures toks[c].name != name && (64 in name || forall u: seq<byte> :: toks[c].name != name + [64] + u)
    {
      NameEqExact(toks[c].name, name);
      if NameEq(toks[c].name, name) {
        FoundBefore(toks, i + 1, 0, c, name);
      }
    }
  }

  lemma ChildAfter(toks: seq<Token>, i: nat, m: nat)
    requires i < |toks| && toks[i].TBegin? && m <= |toks| && StackAt(toks, m) == Lineage(toks, i)
    ensures i < m
  {
    hide StackAt;
    LastBefore(toks, m);
  }

  /** fdt_subnode_offset_namelen */
  method SubnodeOffset(fdt: Blob, parent: nat, name: seq<byte>, ghost toks: seq<Token>, ghost i: nat) returns (r: int)
    requires fdt.HasStruct() && Block(fdt.StructBlock(), toks)
    requires i <= |toks| && parent == OffsetOf(toks, i)
    ensures if RoProbe(fdt) < 0 then r == RoProbe(fdt)
            else if i == |toks| || !toks[i].TBegin? then r == -BADOFFSET
            else var f := FindSub(toks, i + 1, 0, name); r == if f.Some? then OffsetOf(toks, f.value) else -NOTFOUND
    ensures RoProbe(fdt) >= 0 && i < |toks| && toks[i].TBegin? && r != -NOTFOUND ==>
      exists m: nat ::
        && IsChild(toks, i, m) && r == OffsetOf(toks, m)
        && (toks[m].name == name || (64 !in name && exists u: seq<byte> :: toks[m].name == name + [64] + u))
        && forall c: nat | IsChild(toks, i, c) && c < m ::
             toks[c].name != name && (64 in name || forall u: seq<byte> :: toks[c].name != name + [64] + u)
    ensures RoProbe(fdt) >= 0 && i < |toks| && toks[i].TBegin? && r == -NOTFOUND ==>
      forall c: nat | IsChild(toks, i, c) ::
        toks[c].name != name && (64 in name || forall u: seq<byte> :: toks[c].name != name + [64] + u)
  {
    if i < |toks| && toks[i].TBegin? {
      FindSubExact(toks, i, name);
    }
    r := FirstMatch(fdt, parent, name, toks, i);
  }

  /** The loop of fdt_subnode_offset_namelen. */
  method FirstMatch(fdt: Blob, parent: nat, name: seq<byte>, ghost toks: seq<Token>, ghost i: nat) returns (r: int)
    requires fdt.HasStruct() && Block(fdt.StructBlock(), toks)
    requires i <= |toks| && parent == OffsetOf(toks, i)
    ensures if RoProbe(fdt) < 0 then r == RoProbe(fdt)
            else if i == |toks| || !toks[i].TBegin? then r == -BADOFFSET
            else var f := FindSub(toks, i + 1, 0, name); r == if f.Some? then OffsetOf(toks, f.value) else -NOTFOUND
  {
    hide Block, Spells, TokSize, OffsetOf, ScanNode, NameEq;
    if RoProbe(fdt) < 0 {
      return RoProbe(fdt);
    }
    var offset, depth := NextNode(fdt, parent, 0, toks, i);
    if offset == -BADOFFSET {
      return offset;
    }
    ghost var k: nat := if ScanNode(toks, i + 1, 0).AtNode? then ScanNode(toks, i + 1, 0).k else i;
    while offset >= 0 && depth >= 0
      invariant k < |toks| && toks[k].TBegin?
      invariant offset >= 0 && depth >= 0 ==>
        && offset == OffsetOf(toks, k)
        && (FindSub(toks, i + 1, 0, name)
            == if depth == 1 && NameEq(toks[k].name, name) then Some(k) else FindSub(toks, k + 1, depth, name))
      invariant offset < 0 || depth < 0 ==> FindSub(toks, i + 1, 0, name) == None && (offset < 0 ==> offset == -NOTFOUND)
      decreases if offset >= 0 && depth >= 0 then |toks| - k else -1
    {
      if depth == 1 {
        var p := NodeName(fdt, offset, toks, k);
        if NameEq(p, name) {
          return offset;
        }
      }
      ghost var sc := ScanNode(toks, k + 1, depth);
      offset, depth := NextNode(fdt, offset, depth, toks, k);
      if sc.AtNode? { k := sc.k; }
    }
    if depth < 0 {
      return -NOTFOUND;
    }
    return offset;
  }

  // ----- properties

  datatype Search = Found(k: nat) | Missing | Broken

  /** The first property called `name` among the records from `k` on, before anything that is neither
      a property nor a NOP. */
  ghost function FindProp(toks: seq<Token>, tab: seq<byte>, k: nat, name: seq<byte>): (r: Search)
    requires k <= |toks|
    ensures r.Found? ==> k <= r.k < |toks| && toks[r.k].TProp? && StringAt(tab, toks[r.k].nameoff % TWO32) == Some(name)
    decreases |toks| - k
  {
    if k == |toks| then Broken
    else
      match toks[k]
      case TNop => FindProp(toks, tab, k + 1, name)
      case TProp(o, _) => if StringAt(tab, o % TWO32) == Some(name) then Found(k) else FindProp(toks, tab, k + 1, name)
      case _ => Missing
  }

  lemma FindHere(toks: seq<Token>, tab: seq<byte>, k: nat, name: seq<byte>)
    requires k < |toks| && toks[k].TProp?
    ensures FindProp(toks, tab, k, name)
            == if StringAt(tab, toks[k].nameoff % TWO32) == Some(name) then Found(k) else FindProp(toks, tab, k + 1, name)
  {
  }

  /** nextprop_ */
  method NextProp(fdt: Blob, start: nat, ghost toks: seq<Token>, ghost i: nat, ghost tab: seq<byte>, ghost name: seq<byte>)
    returns (r: int, ghost k: nat)
    requires fdt.HasStruct() && Block(fdt.StructBlock(), toks)
    requires i <= |toks| && start == OffsetOf(toks, i)
    ensures r >= 0 ==>
      i <= k < |toks| && toks[k].TProp? && r == OffsetOf(toks, k) && FindProp(toks, tab, i, name) == FindProp(toks, tab, k, name)
    ensures r < 0 ==>
      FindProp(toks, tab, i, name) == (if r == -NOTFOUND then Missing else Broken) && (r == -NOTFOUND || r == -BADSTRUCTURE)
  {
    hide Block, Spells, TokSize, OffsetOf, StringAt;
    var offset := start;
    k := i;
    while true
      invariant i <= k <= |toks| && offset == OffsetOf(toks, k)
      invariant FindProp(toks, tab, i, name) == FindProp(toks, tab, k, name)
      decreases |toks| - k
    {
      var tag, next := TagAt(fdt, offset, toks, k);
      if tag == END {
        return (if next >= 0 then -BADSTRUCTURE else next), k;
      }
      if tag == PROP {
        return offset, k;
      }
      if tag != NOP {
        return -NOTFOUND, k;
      }
      offset, k := next, k + 1;
    }
  }

  /** fdt_string_eq_ */
  method StringEq(fdt: Blob, nameoff: u32, name: seq<byte>) returns (eq: bool)
    requires fdt.HasStrings() && fdt.magic == MAGIC && fdt.version >= 17 && fdt.lastComp <= LAST_VERSION
    requires fdt.totalsize < INT_MAX
    ensures eq <==> StringAt(fdt.Strings(), nameoff) == Some(name)
  {
    var p, e := GetString(fdt, Int32(nameoff));
    eq := p == Some(name);
  }

  /** Whether the property at `offset` has the name, how long its value is, and where the next tag lies. */
  method PropNamed(fdt: Blob, offset: nat, name: seq<byte>, ghost toks: seq<Token>, ghost k: nat)
    returns (eq: bool, len: nat, next: nat)
    requires fdt.HasStruct() && fdt.HasStrings() && fdt.magic == MAGIC && fdt.lastComp <= LAST_VERSION
    requires fdt.totalsize < INT_MAX && Block(fdt.StructBlock(), toks)
    requires k < |toks| && toks[k].TProp? && offset == OffsetOf(toks, k)
    ensures eq <==> StringAt(fdt.Strings(), toks[k].nameoff % TWO32) == Some(name)
    ensures len == |toks[k].val| && next == OffsetOf(toks, k + 1)
  {
    hide Block, Spells, TokSize, OffsetOf, StringAt, WordAt;
    var tag, n := TagAt(fdt, offset, toks, k);
    var nameoff := WordAt(fdt.StructBlock(), offset + 8);
    eq := StringEq(fdt, nameoff, name);
    len, next := WordAt(fdt.StructBlock(), offset + 4), n;
  }

  /** fdt_get_property: the offset of the property and the length of its value, or an error. */
  method GetProperty(fdt: Blob, nodeoffset: int, name: seq<byte>, ghost toks: seq<Token>, ghost i: nat)
    returns (r: Option<nat>, len: int)
    requires fdt.HasStruct() && fdt.HasStrings() && fdt.magic == MAGIC && fdt.lastComp <= LAST_VERSION
    requires fdt.totalsize < INT_MAX && Block(fdt.StructBlock(), toks)
    requires i <= |toks| && nodeoffset == OffsetOf(toks, i)
    ensures if i == |toks| || !toks[i].TBegin? then r == None && len == -BADOFFSET
            else
              match FindProp(toks, fdt.Strings(), i + 1, name)
              case Found(k) => r == Some(OffsetOf(toks, k)) && len == |toks[k].val|
              case Missing => r == None && len == -NOTFOUND
              case Broken => r == None && len == -BADSTRUCTURE
  {
    hide Block, OffsetOf, StringAt, NodeCheck, FindProp;
    ghost var tab := fdt.Strings();
    NodeCheckAt(fdt.StructBlock(), toks, i);
    var offset := CheckNodeOffset(fdt, nodeoffset);
    if offset < 0 {
      return None, offset;
    }
    ghost var k := i + 1;
    offset, k := NextProp(fdt, offset, toks, k, tab, name);
    while offset >= 0
      invariant offset >= 0 ==> i < k < |toks| && toks[k].TProp? && offset == OffsetOf(toks, k)
                                && FindProp(toks, tab, i + 1, name) == FindProp(toks, tab, k, name)
      invariant offset < 0 ==> (offset == -NOTFOUND || offset == -BADSTRUCTURE)
                               && FindProp(toks, tab, i + 1, name) == (if offset == -NOTFOUND then Missing else Broken)
      decreases if offset >= 0 then |toks| - k else -1
    {
      FindHere(toks, tab, k, name);
      var eq, vallen, next := PropNamed(fdt, offset, name, toks, k);
      if eq {
        return Some(offset), vallen;
      }
      offset, k := NextProp(fdt, next, toks, k + 1, tab, name);
    }
    return None, offset;
  }
}
