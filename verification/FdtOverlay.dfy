/** Making the phandles of an overlay fresh (fdt/fdt_overlay.c, fdt/fdt_wip.c, fdt/fdt_ro.c). */
module FdtOverlay {
  import opened Bytes
  import opened FdtFormat
  import opened Wrappers
  import opened FdtBlob
  import opened FdtCheck
  import opened FdtNodes
  import opened FdtEdit
  import opened FdtPhandles

  const BADPHANDLE := 6
  const NOPHANDLES := 17

  // ----- storing a value in place

  lemma ValueSpelled(x: seq<byte>, t: Token, v: seq<byte>)
    requires t.TProp? && Spells(x, t) && |v| == |t.val|
    ensures 12 + |v| <= |x| && Spells(Overwrite(x, 12, v), TProp(t.nameoff, v))
  {
    var y := Overwrite(x, 12, v);
    OverwriteAt(x, 12, v);
    assert WordAt(y, 0) == WordAt(x, 0) && WordAt(y, 4) == WordAt(x, 4) && WordAt(y, 8) == WordAt(x, 8);
    assert y[12..12 + |v|] == v;
  }

  lemma StoreInRecord(s: seq<byte>, o: nat, n: nat, d: nat, v: seq<byte>)
    requires o + n <= |s| && d + |v| <= n
    ensures Replaced(s, o, n, Overwrite(s[o..o + n], d, v)) == Overwrite(s, o + d, v)
  {
    assert Replaced(s, o, n, s[o..o + n]) == s;
    OverwriteReplaced(s, o, n, s[o..o + n], d, v);
  }

  /** Storing a value of the same length over that of a property changes just that record. */
  lemma ValueStored(s: seq<byte>, toks: seq<Token>, k: nat, v: seq<byte>)
    requires Block(s, toks) && k < |toks| && toks[k].TProp? && |v| == |toks[k].val|
    ensures OffsetOf(toks, k) + 12 + |v| <= |s|
    ensures Block(Overwrite(s, OffsetOf(toks, k) + 12, v), WithValue(toks, k, v))
  {
    hide Block, Spells, Overwrite, Replaced, Size, Records;
    var o, n := OffsetOf(toks, k), TokSize(toks[k]);
    BlockDrop(s, toks, k);
    BlockHead(s[o..], toks[k..]);
    assert s[o..][..n] == s[o..o + n];
    var x := s[o..o + n];
    ValueSpelled(x, toks[k], v);
    var t := TProp(toks[k].nameoff, v);
    OneRecord(Overwrite(x, 12, v), t);
    BlockSplice(s, toks, k, k + 1, Overwrite(x, 12, v), [t]);
    OffsetStep(toks, k);
    StoreInRecord(s, o, n, 12, v);
    assert toks[..k] + [t] + toks[k + 1..] == WithValue(toks, k, v);
  }

  /** fdt_setprop_inplace */
  method SetPropInplace(fdt: Blob, nodeoffset: nat, name: seq<byte>, val: seq<byte>, ghost toks: seq<Token>, ghost i: nat)
    returns (err: int)
    requires Finished(fdt) && Block(fdt.StructBlock(), toks) && i < |toks| && toks[i].TBegin? && nodeoffset == OffsetOf(toks, i)
    modifies fdt.buf
    ensures Front(fdt) == old(Front(fdt)) && fdt.Strings() == old(fdt.Strings())
    ensures var f := FindProp(toks, fdt.Strings(), i + 1, name);
            if f.Found? && |toks[f.k].val| == |val| then err == 0 && Block(fdt.StructBlock(), WithValue(toks, f.k, val))
            else
              && fdt.StructBlock() == old(fdt.StructBlock())
              && err == match f { case Found(_) => -NOSPACE case Missing => -NOTFOUND case Broken => -BADSTRUCTURE }
  {
    hide Block, OffsetOf, FindProp, Overwrite, Spells, WordAt, TokSize, TagOf, Align4, StringAt, RoProbe;
    var r, len := GetProperty(fdt, nodeoffset, name, toks, i);
    if r.None? {
      return len;
    }
    if len != |val| {
      return -NOSPACE;
    }
    ValueStored(fdt.StructBlock(), toks, FindProp(toks, fdt.Strings(), i + 1, name).k, val);
    PutFinished(fdt, r.value + 12, val);
    return 0;
  }

  // ----- the phandle of a node

  /** The value of a property that is one word. */
  method GetWord(fdt: Blob, nodeoffset: nat, name: seq<byte>, ghost toks: seq<Token>, ghost i: nat)
    returns (v: Option<nat>, len: int)
    requires Finished(fdt) && Block(fdt.StructBlock(), toks) && i < |toks| && toks[i].TBegin? && nodeoffset == OffsetOf(toks, i)
    ensures var f := FindProp(toks, fdt.Strings(), i + 1, name);
            match f
            case Found(k) => len == |toks[k].val| && v == (if |toks[k].val| == 4 then Some(WordAt(toks[k].val, 0)) else None)
            case Missing => v == None && len == -NOTFOUND
            case Broken => v == None && len == -BADSTRUCTURE
  {
    hide Block, OffsetOf, FindProp, Spells, WordAt, TokSize, TagOf, Align4, StringAt, RoProbe;
    var r;
    r, len := GetProperty(fdt, nodeoffset, name, toks, i);
    if r.None? || len != 4 {
      return None, len;
    }
    WordInRecord(fdt.StructBlock(), toks, FindProp(toks, fdt.Strings(), i + 1, name).k);
    v := Some(WordAt(fdt.StructBlock(), r.value + 12));
  }

  lemma WordInRecord(s: seq<byte>, toks: seq<Token>, k: nat)
    requires Block(s, toks) && k < |toks| && toks[k].TProp? && |toks[k].val| == 4
    ensures OffsetOf(toks, k) + 16 <= |s| && WordAt(s, OffsetOf(toks, k) + 12) == WordAt(toks[k].val, 0)
  {
    hide Block, Size;
    var o, n := OffsetOf(toks, k), TokSize(toks[k]);
    BlockDrop(s, toks, k);
    BlockHead(s[o..], toks[k..]);
    var x := s[o..][..n];
    assert x[12..16] == toks[k].val;
    assert forall j | 12 <= j < 16 :: s[o + j] == x[j] == x[12..16][j - 12];
  }

  /** fdt_get_phandle */
  method GetPhandle(fdt: Blob, nodeoffset: nat, ghost toks: seq<Token>, ghost i: nat) returns (p: nat)
    requires Finished(fdt) && Block(fdt.StructBlock(), toks) && i < |toks| && toks[i].TBegin? && nodeoffset == OffsetOf(toks, i)
    ensures p == PhandleOf(toks, fdt.Strings(), i)
  {
    hide Block, OffsetOf, FindProp, WordAt;
    var v, len := GetWord(fdt, nodeoffset, PHANDLE, toks, i);
    if v.None? {
      v, len := GetWord(fdt, nodeoffset, LINUX_PHANDLE, toks, i);
      if v.None? {
        return 0;
      }
    }
    return v.value;
  }

  /** fdt_next_node without a depth to keep, from record `k` on. */
  method NextBegin(fdt: Blob, start: nat, ghost toks: seq<Token>, ghost k: nat) returns (r: int, ghost n: nat)
    requires fdt.HasStruct() && Block(fdt.StructBlock(), toks) && k <= |toks| && start == OffsetOf(toks, k)
    ensures r >= 0 ==> k <= n < |toks| && toks[n].TBegin? && r == OffsetOf(toks, n) && forall m | k <= m < n :: !toks[m].TBegin?
    ensures r < 0 ==> r == -NOTFOUND && forall m | k <= m < |toks| :: !toks[m].TBegin?
  {
    hide Block, OffsetOf, Spells, TokSize;
    var next: int := start;
    n := k;
    while true
      invariant k <= n <= |toks| && next == OffsetOf(toks, n) && forall m | k <= m < n :: !toks[m].TBegin?
      decreases |toks| - n
    {
      r := next;
      var tag;
      tag, next := TagAt(fdt, r, toks, n);
      if tag == BEGIN_NODE {
        return;
      } else if tag == END {
        return -NOTFOUND, n;
      }
      n := n + 1;
    }
  }

  /** fdt_find_max_phandle */
  method FindMaxPhandle(fdt: Blob, ghost toks: seq<Token>) returns (max: nat)
    requires Finished(fdt) && Block(fdt.StructBlock(), toks)
    ensures max < TWO32 && IsMaxPhandle(toks, fdt.Strings(), max)
  {
    hide Block, OffsetOf, PhandleOf, IsMaxBelow;
    max := 0;
    OffsetNone(toks);
    ghost var k := 0;
    var offset;
    offset, k := NextBegin(fdt, 0, toks, 0);
    if offset < 0 { k := |toks|; }
    NoneBelow(toks, fdt.Strings(), k);
    while offset >= 0
      invariant max < TWO32 && k <= |toks| && IsMaxBelow(toks, fdt.Strings(), k, max)
      invariant if offset >= 0 then k < |toks| && toks[k].TBegin? && offset == OffsetOf(toks, k) else k == |toks|
      decreases |toks| - k, offset
    {
      max, offset, k := MaxTurn(fdt, offset, max, toks, k);
    }
  }

  /** One turn of its loop, from a node to the next. */
  method MaxTurn(fdt: Blob, offset: nat, max: nat, ghost toks: seq<Token>, ghost k: nat) returns (max': nat, next: int, ghost n: nat)
    requires Finished(fdt) && Block(fdt.StructBlock(), toks) && max < TWO32
    requires k < |toks| && toks[k].TBegin? && offset == OffsetOf(toks, k) && IsMaxBelow(toks, fdt.Strings(), k, max)
    ensures max' < TWO32 && k < n <= |toks| && IsMaxBelow(toks, fdt.Strings(), n, max')
    ensures if next >= 0 then n < |toks| && toks[n].TBegin? && next == OffsetOf(toks, n) else n == |toks|
  {
    hide Block, OffsetOf, PhandleOf, IsMaxBelow, NodeCheck;
    var value := GetPhandle(fdt, offset, toks, k);
    max' := if value > max then value else max;
    NodeCheckAt(fdt.StructBlock(), toks, k);
    var after := CheckNodeOffset(fdt, offset);
    next, n := NextBegin(fdt, after, toks, k + 1);
    if next < 0 { n := |toks|; }
    MaxFurther(toks, fdt.Strings(), k, n, max);
  }

  lemma NoneBelow(toks: seq<Token>, tab: seq<byte>, k: nat)
    requires k <= |toks| && forall n | 0 <= n < k :: !toks[n].TBegin?
    ensures IsMaxBelow(toks, tab, k, 0)
  {
  }

  // ----- shifting the phandles of a node

  /** overlay_phandle_add_offset */
  method PhandleAddOffset(fdt: Blob, node: nat, name: seq<byte>, delta: nat, ghost toks: seq<Token>, ghost i: nat) returns (err: int)
    requires Finished(fdt) && Block(fdt.StructBlock(), toks) && i < |toks| && toks[i].TBegin? && node == OffsetOf(toks, i)
    requires delta < TWO32
    modifies fdt.buf
    ensures Front(fdt) == old(Front(fdt)) && fdt.Strings() == old(fdt.Strings())
    ensures err != 0 ==> fdt.StructBlock() == old(fdt.StructBlock())
    ensures match FindProp(toks, fdt.Strings(), i + 1, name)
            case Found(k) =>
              if FitsShift(toks[k].val, delta) then err == 0 && Block(fdt.StructBlock(), WithValue(toks, k, Plus(toks[k].val, delta)))
              else err == if |toks[k].val| == 4 then -NOPHANDLES else -BADPHANDLE
            case Missing => err == -NOTFOUND
            case Broken => err == -BADSTRUCTURE
  {
    hide Block, OffsetOf, FindProp, WordAt;
    var v, len := GetWord(fdt, node, name, toks, i);
    if len < 0 {
      return len;
    }
    if len != 4 {
      return -BADPHANDLE;
    }
    if U32(v.value + delta) < v.value {
      return -NOPHANDLES;
    }
    var shifted := U32(v.value + delta);
    if shifted == MAX_U32 {
      return -NOPHANDLES;
    }
    err := SetPropInplace(fdt, node, name, WordBytes(shifted), toks, i);
  }

  // ----- children

  /** The child after the one that closes before record `x`, `d` levels up. */
  ghost function SiblingFrom(toks: seq<Token>, x: nat, d: nat): (r: Option<nat>)
    requires x <= |toks|
    ensures r.Some? ==> x <= r.value < |toks| && toks[r.value].TBegin?
    decreases |toks| - x
  {
    match ScanNode(toks, x, d)
    case AtNode(k, e) => if e == 1 then Some(k) else SiblingFrom(toks, k + 1, e)
    case _ => None
  }

  /** The next sibling is the first node after the end of this one. */
  lemma {:induction false} SiblingAfterClose(toks: seq<Token>, x: nat, d: nat)
    requires x <= |toks| && d > 0 && CloseOf(toks, x, d - 1).Some?
    ensures SiblingFrom(toks, x, d) ==
            match ScanNode(toks, CloseOf(toks, x, d - 1).value, 0) { case AtNode(k, _) => Some(k) case _ => None }
    decreases |toks| - x
  {
    if x < |toks| && toks[x].TEnd? && d == 1 {
      ScanFirst(toks, x + 1);
    } else if x < |toks| {
      SiblingAfterClose(toks, x + 1, if toks[x].TEnd? then d - 1 else if toks[x].TBegin? then d + 1 else d);
    }
  }

  /** fdt_next_subnode */
  method NextSubnode(fdt: Blob, offset: nat, ghost toks: seq<Token>, ghost c: nat) returns (r: int)
    requires fdt.HasStruct() && Block(fdt.StructBlock(), toks) && c < |toks| && toks[c].TBegin? && offset == OffsetOf(toks, c)
    ensures var n := SiblingFrom(toks, c + 1, 1); r == if n.Some? then OffsetOf(toks, n.value) else -NOTFOUND
  {
    hide Block, OffsetOf, ScanNode;
    var o, depth: nat := offset, 1;
    ghost var k := c;
    while true
      invariant k < |toks| && toks[k].TBegin? && o == OffsetOf(toks, k) && depth > 0
      invariant SiblingFrom(toks, c + 1, 1) == SiblingFrom(toks, k + 1, depth)
      decreases |toks| - k
    {
      ghost var sc := ScanNode(toks, k + 1, depth);
      var next, d := NextNode(fdt, o, depth, toks, k);
      if next < 0 || d < 1 {
        ScanDepth(toks, k + 1, depth);
        return -NOTFOUND;
      }
      if d == 1 {
        return next;
      }
      ScanDepth(toks, k + 1, depth);
      o, depth, k := next, d, sc.k;
    }
  }

  lemma {:induction false} ScanDepth(toks: seq<Token>, k: nat, d: nat)
    requires k <= |toks|
    ensures ScanNode(toks, k, d).AtNode? ==> ScanNode(toks, k, d).d > 0 && forall m | k <= m < ScanNode(toks, k, d).k :: !toks[m].TBegin?
    ensures ScanNode(toks, k, d).Closed? ==>
              toks[ScanNode(toks, k, d).k - 1].TEnd? && forall m | k <= m < ScanNode(toks, k, d).k :: !toks[m].TBegin?
    decreases |toks| - k
  {
    if k < |toks| && !toks[k].TBegin? && !(toks[k].TEnd? && d == 0) {
      ScanDepth(toks, k + 1, if toks[k].TEnd? then d - 1 else d);
    }
  }

  /** fdt_first_subnode */
  method FirstSubnode(fdt: Blob, offset: nat, ghost toks: seq<Token>, ghost i: nat) returns (r: int)
    requires fdt.HasStruct() && Block(fdt.StructBlock(), toks) && i < |toks| && toks[i].TBegin? && offset == OffsetOf(toks, i)
    ensures r == match ScanNode(toks, i + 1, 0) { case AtNode(k, d) => if d == 1 then OffsetOf(toks, k) else -NOTFOUND case _ => -NOTFOUND }
  {
    hide Block, OffsetOf, ScanNode;
    var o, depth := NextNode(fdt, offset, 0, toks, i);
    if o < 0 || depth != 1 {
      return -NOTFOUND;
    }
    return o;
  }

  lemma {:induction false} ScanFirst(toks: seq<Token>, k: nat)
    requires k <= |toks|
    ensures ScanNode(toks, k, 0).AtNode? ==> ScanNode(toks, k, 0).d == 1
    decreases |toks| - k
  {
    if k < |toks| && !toks[k].TBegin? && !toks[k].TEnd? {
      ScanFirst(toks, k + 1);
    }
  }

  /** A node in an open node closes, and the outer one after it. */
  lemma {:induction false} CloseInner(toks: seq<Token>, x: nat, d: nat)
    requires x <= |toks|
    ensures CloseOf(toks, x, d + 1) ==
            if CloseOf(toks, x, d).None? then None else CloseOf(toks, CloseOf(toks, x, d).value, 0)
    decreases |toks| - x
  {
    if x < |toks| && !(toks[x].TEnd? && d == 0) {
      CloseInner(toks, x + 1, if toks[x].TEnd? then d - 1 else if toks[x].TBegin? then d + 1 else d);
    }
  }

  lemma {:induction false} CloseAtEnd(toks: seq<Token>, x: nat, d: nat)
    requires x <= |toks| && CloseOf(toks, x, d).Some?
    ensures toks[CloseOf(toks, x, d).value - 1].TEnd?
    decreases |toks| - x
  {
    if x < |toks| && !(toks[x].TEnd? && d == 0) {
      CloseAtEnd(toks, x + 1, if toks[x].TEnd? then d - 1 else if toks[x].TBegin? then d + 1 else d);
    }
  }

  // ----- a whole node

  /** Where the properties of a node must lie: before the next node begins or this one ends. */
  ghost predicate Bounds(toks: seq<Token>, i: nat, b: nat) {
    && i < b <= |toks| && toks[i].TBegin? && (forall m | i < m < b :: !toks[m].TBegin?)
    && (toks[b - 1].TEnd? || (b < |toks| && toks[b].TBegin?))
  }

  lemma OwnBefore(toks: seq<Token>, tab: seq<byte>, i: nat, b: nat, name: seq<byte>)
    requires Bounds(toks, i, b) && FindProp(toks, tab, i + 1, name).Found?
    ensures i < FindProp(toks, tab, i + 1, name).k < b
  {
    OwnRun(toks, tab, i + 1, name);
  }

  /** The two phandle properties of a node, shifted one after the other. */
  lemma OwnShifted(toks: seq<Token>, tab: seq<byte>, i: nat, b: nat, delta: nat, a: seq<Token>, r: seq<Token>)
    requires Bounds(toks, i, b)
    requires var f := FindProp(toks, tab, i + 1, PHANDLE);
             if f.Found? then FitsShift(toks[f.k].val, delta) && a == WithValue(toks, f.k, Plus(toks[f.k].val, delta)) else a == toks
    requires var g := FindProp(a, tab, i + 1, LINUX_PHANDLE);
             if g.Found? then FitsShift(a[g.k].val, delta) && r == WithValue(a, g.k, Plus(a[g.k].val, delta)) else r == a
    ensures r == Shift(toks, tab, i, b, delta) && AllFit(toks, tab, i, b, delta)
  {
    hide StringAt, Plus, FitsShift, FindProp, IsPhandle;
    assert Alike(toks, a);
    AlikeProp(toks, a, tab, i + 1, LINUX_PHANDLE);
    var f, g := FindProp(toks, tab, i + 1, PHANDLE), FindProp(toks, tab, i + 1, LINUX_PHANDLE);
    if f.Found? { OwnBefore(toks, tab, i, b, PHANDLE); }
    if g.Found? { OwnBefore(toks, tab, i, b, LINUX_PHANDLE); }
    forall k: nat | i <= k < b
      ensures IsPhandle(toks, tab, k) <==> f == Found(k) || g == Found(k)
    {
      OwnPhandles(toks, tab, i, b, k);
    }
    var s := Shift(toks, tab, i, b, delta);
    forall k | 0 <= k < |toks| ensures r[k] == s[k] {
    }
  }

  /** The search for a property of a node ends before the next node begins or this one ends. */
  lemma {:induction false} SearchEnds(toks: seq<Token>, tab: seq<byte>, k: nat, z: nat, name: seq<byte>)
    requires k <= z < |toks| && (toks[z].TBegin? || toks[z].TEnd?)
    ensures !FindProp(toks, tab, k, name).Broken?
    decreases z - k
  {
    hide StringAt;
    if k < z {
      SearchEnds(toks, tab, k + 1, z, name);
    }
  }

  lemma NotBroken(toks: seq<Token>, tab: seq<byte>, i: nat, b: nat, name: seq<byte>)
    requires Bounds(toks, i, b)
    ensures !FindProp(toks, tab, i + 1, name).Broken?
  {
    hide FindProp;
    SearchEnds(toks, tab, i + 1, if b < |toks| && toks[b].TBegin? then b else b - 1, name);
  }

  /** A phandle of the node that can not be shifted. */
  lemma OwnMisfit(toks: seq<Token>, tab: seq<byte>, i: nat, b: nat, delta: nat, name: seq<byte>)
    requires Bounds(toks, i, b) && (name == PHANDLE || name == LINUX_PHANDLE)
    requires var f := FindProp(toks, tab, i + 1, name); f.Found? && !FitsShift(toks[f.k].val, delta)
    ensures !AllFit(toks, tab, i, b, delta)
  {
    hide FindProp, FitsShift, PHANDLE, LINUX_PHANDLE;
    OwnBefore(toks, tab, i, b, name);
    var k := FindProp(toks, tab, i + 1, name).k;
    assert PhandleOfNode(toks, tab, i, k);
    assert IsPhandle(toks, tab, k);
  }

  /** Shifting the one phandle of a node leaves the other as it was. */
  lemma OtherKept(toks: seq<Token>, tab: seq<byte>, i: nat, k: nat, v: seq<byte>)
    requires i < k < |toks| && FindProp(toks, tab, i + 1, PHANDLE) == Found(k) && |v| == |toks[k].val|
    ensures var a, g := WithValue(toks, k, v), FindProp(toks, tab, i + 1, LINUX_PHANDLE);
            FindProp(a, tab, i + 1, LINUX_PHANDLE) == g && (g.Found? ==> a[g.k] == toks[g.k])
  {
    hide FindProp;
    var a := WithValue(toks, k, v);
    assert Alike(toks, a);
    AlikeProp(toks, a, tab, i + 1, LINUX_PHANDLE);
    assert |PHANDLE| != |LINUX_PHANDLE|;
  }

  /** A call of overlay_phandle_add_offset for one of the two names; that the node has no such property is no error. */
  method AdjustName(fdt: Blob, node: nat, name: seq<byte>, delta: nat, ghost toks: seq<Token>, ghost i: nat, ghost b: nat)
    returns (err: int, ghost r: seq<Token>)
    requires Finished(fdt) && Block(fdt.StructBlock(), toks) && Bounds(toks, i, b) && node == OffsetOf(toks, i) && delta < TWO32
    modifies fdt.buf
    ensures Front(fdt) == old(Front(fdt)) && fdt.Strings() == old(fdt.Strings()) && Block(fdt.StructBlock(), r)
    ensures err == 0 || err == -BADPHANDLE || err == -NOPHANDLES
    ensures var f := FindProp(toks, fdt.Strings(), i + 1, name);
            if f.Found? then
              && (err == 0 <==> FitsShift(toks[f.k].val, delta))
              && r == if err == 0 then WithValue(toks, f.k, Plus(toks[f.k].val, delta)) else toks
            else err == 0 && r == toks
  {
    hide Block, OffsetOf, FindProp, WordAt, Plus, FitsShift;
    NotBroken(toks, fdt.Strings(), i, b, name);
    ghost var f := FindProp(toks, fdt.Strings(), i + 1, name);
    err := PhandleAddOffset(fdt, node, name, delta, toks, i);
    r := if err == 0 then WithValue(toks, f.k, Plus(toks[f.k].val, delta)) else toks;
    if err == -NOTFOUND {
      err := 0;
    }
  }

  /** The part of overlay_adjust_node_phandles for the node itself: it succeeds exactly when its phandles can be shifted. */
  method AdjustOwn(fdt: Blob, node: nat, delta: nat, ghost toks: seq<Token>, ghost i: nat, ghost b: nat)
    returns (err: int, ghost r: seq<Token>)
    requires Finished(fdt) && Block(fdt.StructBlock(), toks) && Bounds(toks, i, b) && node == OffsetOf(toks, i) && delta < TWO32
    modifies fdt.buf
    ensures Front(fdt) == old(Front(fdt)) && fdt.Strings() == old(fdt.Strings())
    ensures Block(fdt.StructBlock(), r) && Alike(toks, r)
    ensures err == 0 || err == -BADPHANDLE || err == -NOPHANDLES
    ensures err == 0 <==> AllFit(toks, fdt.Strings(), i, b, delta)
    ensures err == 0 ==> r == Shift(toks, fdt.Strings(), i, b, delta)
  {
    hide Block, OffsetOf, FindProp, WordAt, Plus, FitsShift, Shift, AllFit, PHANDLE, LINUX_PHANDLE;
    ghost var tab := fdt.Strings();
    ghost var f, g := FindProp(toks, tab, i + 1, PHANDLE), FindProp(toks, tab, i + 1, LINUX_PHANDLE);
    ghost var a;
    err, a := AdjustName(fdt, node, PHANDLE, delta, toks, i, b);
    r := a;
    if err != 0 {
      OwnMisfit(toks, tab, i, b, delta, PHANDLE);
      return;
    }
    if f.Found? { OtherKept(toks, tab, i, f.k, Plus(toks[f.k].val, delta)); }
    AlikeOffset(toks, a, i);
    AlikeBounds(toks, a, i, b);
    err, r := AdjustName(fdt, node, LINUX_PHANDLE, delta, a, i, b);
    if err != 0 {
      OwnMisfit(toks, tab, i, b, delta, LINUX_PHANDLE);
      return;
    }
    OwnShifted(toks, tab, i, b, delta, a, r);
  }

  lemma AlikeBounds(a: seq<Token>, b: seq<Token>, i: nat, x: nat)
    requires Alike(a, b) && Bounds(a, i, x)
    ensures Bounds(b, i, x)
  {
    assert forall k | 0 <= k < |a| :: SameBut(a[k], b[k]);
  }

  /** Where the loop over children stands: the phandles before `x` are shifted; `x` is a child, or the end of the node. */
  ghost predicate Progress(toks: seq<Token>, tab: seq<byte>, i: nat, x: nat, delta: nat, r: seq<Token>) {
    i < x && r == Shift(toks, tab, i, x, delta) && AllFit(toks, tab, i, x, delta)
  }

  /** The record `x` is a child of the node at `i`, which ends at `end`. */
  ghost predicate ChildAt(toks: seq<Token>, x: nat, end: nat) {
    x < |toks| && toks[x].TBegin? && CloseOf(toks, x + 1, 1) == Some(end)
  }

  /** From a node's start, the first child or the end. */
  lemma FirstStep(toks: seq<Token>, i: nat, end: nat)
    requires i < |toks| && toks[i].TBegin? && CloseOf(toks, i + 1, 0) == Some(end)
    ensures var sc := ScanNode(toks, i + 1, 0);
            && !sc.RanOut? && Bounds(toks, i, sc.k) && sc.k <= end
            && (sc.AtNode? ==> sc.d == 1 && ChildAt(toks, sc.k, end))
            && (sc.Closed? ==> sc.k == end)
  {
    hide CloseOf, ScanNode;
    CloseSkips(toks, i + 1, 0);
    ScanDepth(toks, i + 1, 0);
    ScanFirst(toks, i + 1);
  }

  /** From a child's end, the next child or the end; no phandles lie between. */
  lemma NextStep(toks: seq<Token>, tab: seq<byte>, c: nat, end: nat)
    requires ChildAt(toks, c, end)
    ensures CloseOf(toks, c + 1, 0).Some?
    ensures var m, n := CloseOf(toks, c + 1, 0).value, SiblingFrom(toks, c + 1, 1);
            && m <= (if n.Some? then n.value else end) && (n.Some? ==> ChildAt(toks, n.value, end))
            && forall j | m <= j < (if n.Some? then n.value else end) :: !IsPhandle(toks, tab, j)
  {
    hide CloseOf, ScanNode, SiblingFrom, IsPhandle;
    CloseInner(toks, c + 1, 0);
    var m := CloseOf(toks, c + 1, 0).value;
    SiblingAfterClose(toks, c + 1, 1);
    CloseSkips(toks, m, 0);
    ScanDepth(toks, m, 0);
    ScanFirst(toks, m);
    CloseAtEnd(toks, c + 1, 0);
    var b := if SiblingFrom(toks, c + 1, 1).Some? then SiblingFrom(toks, c + 1, 1).value else end;
    forall j | m <= j < b ensures !IsPhandle(toks, tab, j) {
      NoneAfterEnd(toks, tab, m, b, j);
    }
  }

  /** One child done, and the records up to the next. */
  lemma ChildDone(toks: seq<Token>, tab: seq<byte>, i: nat, c: nat, m: nat, x: nat, delta: nat, r: seq<Token>, r': seq<Token>)
    requires Progress(toks, tab, i, c, delta, r) && c <= m <= x <= |toks|
    requires r' == Shift(r, tab, c, m, delta) && AllFit(r, tab, c, m, delta)
    requires forall j | m <= j < x :: !IsPhandle(toks, tab, j)
    ensures Progress(toks, tab, i, x, delta, r')
  {
    hide Shift, AllFit, IsPhandle;
    ShiftFurther(toks, tab, i, c, m, delta);
    ShiftOver(toks, tab, i, m, x, delta);
  }

  /** A child fits if its parent does, the phandles before it shifted or not. */
  lemma ChildFits(toks: seq<Token>, tab: seq<byte>, i: nat, c: nat, m: nat, end: nat, delta: nat, r: seq<Token>)
    requires Progress(toks, tab, i, c, delta, r) && m <= end && AllFit(toks, tab, i, end, delta)
    ensures AllFit(r, tab, c, m, delta)
  {
    hide Shift, AllFit;
    FitsAfter(toks, tab, i, c, m, end, delta);
  }

  /** overlay_adjust_node_phandles: it succeeds exactly when every phandle of the node and below is a word that can be
      shifted; then all of them have been, and nothing else has changed. On failure only phandle values may have. */
  method AdjustNode(fdt: Blob, node: nat, delta: nat, ghost toks: seq<Token>, ghost i: nat) returns (err: int, ghost r: seq<Token>)
    requires Finished(fdt) && Block(fdt.StructBlock(), toks) && i < |toks| && toks[i].TBegin? && node == OffsetOf(toks, i)
    requires CloseOf(toks, i + 1, 0).Some? && delta < TWO32
    modifies fdt.buf
    ensures Front(fdt) == old(Front(fdt)) && fdt.Strings() == old(fdt.Strings())
    ensures Block(fdt.StructBlock(), r) && Alike(toks, r)
    ensures err == 0 || err == -BADPHANDLE || err == -NOPHANDLES
    ensures var end := CloseOf(toks, i + 1, 0).value;
            && (err == 0 <==> AllFit(toks, fdt.Strings(), i, end, delta))
            && (err == 0 ==> r == Shift(toks, fdt.Strings(), i, end, delta))
    decreases |toks| - i, 0
  {
    hide Block, OffsetOf, WordAt, Shift, AllFit, ScanNode, CloseOf, SiblingFrom, IsPhandle, ChildAt;
    ghost var tab, end := fdt.Strings(), CloseOf(toks, i + 1, 0).value;
    FirstStep(toks, i, end);
    ghost var sc := ScanNode(toks, i + 1, 0);
    err, r := AdjustOwn(fdt, node, delta, toks, i, sc.k);
    if err != 0 {
      if AllFit(toks, tab, i, end, delta) { FitsWithin(toks, tab, i, sc.k, i, end, delta); }
      return;
    }
    AlikeOffset(toks, r, i);
    AlikeScan(toks, r, i + 1, 0);
    var child := FirstSubnode(fdt, node, r, i);
    ghost var x := sc.k;
    if child >= 0 { AlikeOffset(toks, r, x); }
    while child >= 0
      invariant Front(fdt) == old(Front(fdt)) && fdt.Strings() == tab
      invariant Block(fdt.StructBlock(), r) && Alike(toks, r) && i < x <= |toks| && Progress(toks, tab, i, x, delta, r)
      invariant if child >= 0 then ChildAt(toks, x, end) && child == OffsetOf(toks, x) else x == end
      decreases |toks| - x, child
    {
      err, r, child, x := AdjustChild(fdt, child, delta, toks, i, x, end, r);
      if err != 0 {
        return;
      }
    }
    err := 0;
  }

  /** One turn of the loop over children. */
  method AdjustChild(fdt: Blob, child: nat, delta: nat, ghost toks: seq<Token>, ghost i: nat, ghost c: nat, ghost end: nat, ghost r0: seq<Token>)
    returns (err: int, ghost r: seq<Token>, next: int, ghost x: nat)
    requires Finished(fdt) && Block(fdt.StructBlock(), r0) && Alike(toks, r0) && delta < TWO32
    requires i < c && ChildAt(toks, c, end) && child == OffsetOf(toks, c) && end <= |toks|
    requires Progress(toks, fdt.Strings(), i, c, delta, r0)
    modifies fdt.buf
    ensures Front(fdt) == old(Front(fdt)) && fdt.Strings() == old(fdt.Strings())
    ensures Block(fdt.StructBlock(), r) && Alike(toks, r)
    ensures err == 0 || err == -BADPHANDLE || err == -NOPHANDLES
    ensures err != 0 ==> !AllFit(toks, fdt.Strings(), i, end, delta)
    ensures err == 0 ==>
      && c < x <= |toks| && Progress(toks, fdt.Strings(), i, x, delta, r)
      && if next >= 0 then ChildAt(toks, x, end) && next == OffsetOf(toks, x) else x == end
    decreases |toks| - c, 1
  {
    hide Block, OffsetOf, WordAt, Shift, AllFit, ScanNode, CloseOf, SiblingFrom, IsPhandle, Progress;
    ghost var tab := fdt.Strings();
    NextStep(toks, tab, c, end);
    ghost var m := CloseOf(toks, c + 1, 0).value;
    AlikeOffset(toks, r0, c);
    AlikeClose(toks, r0, c + 1, 0);
    assert SameBut(toks[c], r0[c]);
    err, r := AdjustNode(fdt, child, delta, r0, c);
    AlikeTrans(toks, r0, r);
    next, x := -NOTFOUND, c;
    if err != 0 {
      if AllFit(toks, tab, i, end, delta) { ChildFits(toks, tab, i, c, m, end, delta, r0); }
      return;
    }
    AlikeOffset(toks, r, c);
    AlikeSibling(toks, r, c + 1, 1);
    assert SameBut(toks[c], r[c]);
    ghost var n := SiblingFrom(toks, c + 1, 1);
    next := NextSubnode(fdt, child, r, c);
    x := if n.Some? then n.value else end;
    if n.Some? { AlikeOffset(toks, r, x); }
    ChildDone(toks, tab, i, c, m, x, delta, r0, r);
  }

  lemma AlikeTrans(a: seq<Token>, b: seq<Token>, c: seq<Token>)
    requires Alike(a, b) && Alike(b, c)
    ensures Alike(a, c)
  {
    assert forall k | 0 <= k < |a| :: SameBut(a[k], b[k]) && SameBut(b[k], c[k]);
  }

  lemma {:induction false} AlikeSibling(a: seq<Token>, b: seq<Token>, x: nat, d: nat)
    requires Alike(a, b) && x <= |a|
    ensures SiblingFrom(a, x, d) == SiblingFrom(b, x, d)
    decreases |a| - x
  {
    hide ScanNode;
    AlikeScan(a, b, x, d);
    var sc := ScanNode(a, x, d);
    if sc.AtNode? && sc.d != 1 {
      AlikeSibling(a, b, sc.k + 1, sc.d);
    }
  }

  /** The node and its phandle are fresh for a base whose records are `base`. */
  ghost predicate Fresh(base: seq<Token>, baseTab: seq<byte>, max: nat, toks: seq<Token>, r: seq<Token>, tab: seq<byte>, n: nat)
    requires n < |toks| && toks[n].TBegin?
  {
    && n < |r| && r[n].TBegin? && PhandleOf(r, tab, n) == PhandleOf(toks, tab, n) + max < MAX_U32
    && forall b: nat | b < |base| && base[b].TBegin? :: PhandleOf(base, baseTab, b) < PhandleOf(r, tab, n)
  }

  /** The first two steps of fdt_overlay_apply: the largest phandle of the base, and the overlay shifted by it.
      It succeeds exactly when all of them can be shifted; then every phandle of the overlay is fresh, and only phandles
      have changed. */
  method Freshen(fdt: Blob, fdto: Blob, ghost base: seq<Token>, ghost toks: seq<Token>) returns (err: int, max: nat, ghost r: seq<Token>)
    requires Finished(fdt) && Block(fdt.StructBlock(), base)
    requires Finished(fdto) && Block(fdto.StructBlock(), toks) && toks != [] && toks[0].TBegin? && CloseOf(toks, 1, 0).Some?
    requires fdt != fdto && fdt.buf != fdto.buf
    modifies fdto.buf
    ensures Front(fdto) == old(Front(fdto)) && fdto.Strings() == old(fdto.Strings())
    ensures Block(fdto.StructBlock(), r) && Alike(toks, r)
    ensures IsMaxPhandle(base, fdt.Strings(), max) && (err == 0 || err == -BADPHANDLE || err == -NOPHANDLES)
    ensures err == 0 <==> AllFit(toks, fdto.Strings(), 0, CloseOf(toks, 1, 0).value, max)
    ensures err == 0 ==>
      var end := CloseOf(toks, 1, 0).value;
      && r == Shift(toks, fdto.Strings(), 0, end, max)
      && forall n: nat | n < end && toks[n].TBegin? && PhandleOf(toks, fdto.Strings(), n) != 0 ::
           Fresh(base, fdt.Strings(), max, toks, r, fdto.Strings(), n)
  {
    hide Block, OffsetOf, Shift, AllFit, PhandleOf, IsMaxPhandle, CloseOf;
    max := FindMaxPhandle(fdt, base);
    OffsetNone(toks);
    err, r := AdjustNode(fdto, 0, max, toks, 0);
    if err == 0 {
      ghost var end, tab := CloseOf(toks, 1, 0).value, fdto.Strings();
      CloseAtEnd(toks, 1, 0);
      forall n: nat | n < end && toks[n].TBegin? && PhandleOf(toks, tab, n) != 0
        ensures Fresh(base, fdt.Strings(), max, toks, r, tab, n)
      {
        FreshPhandles(base, fdt.Strings(), max, toks, tab, end, n, n);
      }
    }
  }
}
