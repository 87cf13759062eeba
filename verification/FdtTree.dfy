/** Adding, deleting and NOP-ing nodes and properties (fdt/fdt_rw.c, fdt/fdt_wip.c). */
module FdtTree {
  import opened Bytes
  import opened FdtFormat
  import opened Wrappers
  import opened FdtBlob
  import opened FdtCheck
  import opened FdtNodes
  import opened FdtEdit

  // ----- nodes in the tree

  /** The event after the one that closes a node, from event `k`, `d` levels below it. */
  ghost function CloseEvent(es: seq<Event>, k: nat, d: nat): (r: Option<nat>)
    requires k <= |es|
    ensures r.Some? ==> k < r.value <= |es|
    decreases |es| - k
  {
    if k == |es| then None
    else
      match es[k]
      case Begin(_) => CloseEvent(es, k + 1, d + 1)
      case End => if d == 0 then Some(k + 1) else CloseEvent(es, k + 1, d - 1)
      case Prop(_, _) => CloseEvent(es, k + 1, d)
  }

  /** The tree without the node that begins at event `n`. */
  ghost function WithoutNode(es: seq<Event>, n: nat): (r: seq<Event>)
    requires n < |es|
  {
    match CloseEvent(es, n + 1, 0)
    case Some(m) => es[..n] + es[m..]
    case None => es
  }

  /** The first event from `k` on that is not a property. */
  ghost function PropsEnd(es: seq<Event>, k: nat): (r: nat)
    requires k <= |es|
    ensures k <= r <= |es|
    decreases |es| - k
  {
    if k == |es| || !es[k].Prop? then k else PropsEnd(es, k + 1)
  }

  /** The tree with an empty node added to the node at event `n`, behind its properties. */
  ghost function WithNode(es: seq<Event>, n: nat, name: seq<byte>): (r: seq<Event>)
    requires n < |es|
  {
    var m := PropsEnd(es, n + 1);
    es[..m] + [Begin(name), End] + es[m..]
  }

  lemma {:induction false} CloseIsEvent(toks: seq<Token>, tab: seq<byte>, k: nat, d: nat)
    requires Resolve(toks, tab, 0).Some? && k <= |toks|
    ensures EventNo(toks, k) <= |Resolve(toks, tab, 0).value|
    ensures CloseEvent(Resolve(toks, tab, 0).value, EventNo(toks, k), d) ==
            match CloseOf(toks, k, d)
            case Some(j) => Some(EventNo(toks, j))
            case None => None
    decreases |toks| - k
  {
    hide StringAt, Resolve, Visible;
    if k == |toks| {
      assert toks[..k] == toks;
      VisibleResolved(toks, tab, 0);
    } else {
      EventStep(toks, tab, k);
      if !(toks[k].TEnd? && d == 0) {
        CloseIsEvent(toks, tab, k + 1, if toks[k].TBegin? then d + 1 else if toks[k].TEnd? then d - 1 else d);
      }
    }
  }

  /** The first record from `k` on that is neither a property nor a NOP. */
  ghost function PropsOver(toks: seq<Token>, k: nat): (r: nat)
    requires k <= |toks|
    ensures k <= r <= |toks|
    decreases |toks| - k
  {
    if k == |toks| || !(toks[k].TProp? || toks[k].TNop?) then k else PropsOver(toks, k + 1)
  }

  lemma {:induction false} PropsOverIsEnd(toks: seq<Token>, tab: seq<byte>, k: nat)
    requires Resolve(toks, tab, 0).Some? && k <= |toks|
    ensures EventNo(toks, k) <= |Resolve(toks, tab, 0).value|
    ensures PropsEnd(Resolve(toks, tab, 0).value, EventNo(toks, k)) == EventNo(toks, PropsOver(toks, k))
    decreases |toks| - k
  {
    hide StringAt, Resolve, Visible;
    if k == |toks| {
      assert toks[..k] == toks;
      VisibleResolved(toks, tab, 0);
    } else {
      EventStep(toks, tab, k);
      if toks[k].TProp? || toks[k].TNop? {
        PropsOverIsEnd(toks, tab, k + 1);
      }
    }
  }

  // ----- deleting

  /** Removing a node from the tree is cutting its records. */
  lemma WithoutNodeIsCut(toks: seq<Token>, tab: seq<byte>, i: nat)
    requires Resolve(toks, tab, 0).Some? && i < |toks| && toks[i].TBegin?
    ensures EventNo(toks, i) < |Resolve(toks, tab, 0).value|
    ensures var es, n, c := Resolve(toks, tab, 0).value, EventNo(toks, i), CloseOf(toks, i + 1, 0);
            && (CloseEvent(es, n + 1, 0).Some? <==> c.Some?)
            && (c.None? ==> WithoutNode(es, n) == es)
            && (c.Some? ==> n <= EventNo(toks, c.value) <= |es| && WithoutNode(es, n) == es[..n] + es[EventNo(toks, c.value)..]
                            && OffsetOf(toks, i) <= OffsetOf(toks, c.value))
  {
    hide Resolve, EventNo, CloseOf, CloseEvent, OffsetOf;
    EventStep(toks, tab, i);
    CloseIsEvent(toks, tab, i + 1, 0);
    if CloseOf(toks, i + 1, 0).Some? {
      OffsetMonotone(toks, i, CloseOf(toks, i + 1, 0).value);
    }
  }

  /** fdt_del_node */
  method DelNode(fdt: Blob, nodeoffset: nat, ghost i: nat) returns (err: int)
    requires Editable(fdt, nodeoffset, i)
    modifies fdt`version, fdt`sizeStruct, fdt`offStrings, fdt.buf
    ensures old(RwError(fdt)) != 0 ==> err == old(RwError(fdt)) && unchanged(fdt, fdt.buf)
    ensures old(RwError(fdt)) == 0 ==>
      && WellFormed(fdt) && Front(fdt) == old(Front(fdt)) && fdt.Strings() == old(fdt.Strings())
      && (err != 0 ==> Tree(fdt) == old(Tree(fdt)) && fdt.StructBlock() == old(fdt.StructBlock()))
      && (if i == |old(Tokens(fdt))| || !old(Tokens(fdt))[i].TBegin? then err == -BADOFFSET
          else
            && EventNo(old(Tokens(fdt)), i) < |old(Tree(fdt))|
            && err == (if CloseEvent(old(Tree(fdt)), EventNo(old(Tokens(fdt)), i) + 1, 0).Some? then 0 else -NOTFOUND)
            && (err == 0 <==> CloseOf(old(Tokens(fdt)), i + 1, 0).Some?)
            && Tree(fdt) == WithoutNode(old(Tree(fdt)), EventNo(old(Tokens(fdt)), i)))
      && (err == 0 ==>
            && i < |old(Tokens(fdt))| && CloseOf(old(Tokens(fdt)), i + 1, 0).Some?
            && var end := OffsetOf(old(Tokens(fdt)), CloseOf(old(Tokens(fdt)), i + 1, 0).value);
            && nodeoffset <= end <= |old(fdt.StructBlock())|
            && fdt.StructBlock() == Replaced(old(fdt.StructBlock()), nodeoffset, end - nodeoffset, []))
  {
    hide Decode, Block, OffsetOf, EventNo, CloseOf, CloseEvent, WithoutNode, Replaced, RwError, Ordered, Finished;
    err := RwProbe(fdt);
    if err == 0 {
      err := DelNodeProbed(fdt, nodeoffset, i);
    }
  }

  /** The part of fdt_del_node behind the probe. */
  method DelNodeProbed(fdt: Blob, nodeoffset: nat, ghost i: nat) returns (err: int)
    requires WellFormed(fdt) && i <= |Tokens(fdt)| && nodeoffset == OffsetOf(Tokens(fdt), i)
    modifies fdt`sizeStruct, fdt`offStrings, fdt.buf
    ensures WellFormed(fdt) && Front(fdt) == old(Front(fdt)) && fdt.Strings() == old(fdt.Strings())
    ensures err != 0 ==> Tree(fdt) == old(Tree(fdt)) && fdt.StructBlock() == old(fdt.StructBlock())
    ensures if i == |old(Tokens(fdt))| || !old(Tokens(fdt))[i].TBegin? then err == -BADOFFSET
            else
              && EventNo(old(Tokens(fdt)), i) < |old(Tree(fdt))|
              && err == (if CloseEvent(old(Tree(fdt)), EventNo(old(Tokens(fdt)), i) + 1, 0).Some? then 0 else -NOTFOUND)
              && (err == 0 <==> CloseOf(old(Tokens(fdt)), i + 1, 0).Some?)
              && Tree(fdt) == WithoutNode(old(Tree(fdt)), EventNo(old(Tokens(fdt)), i))
    ensures err == 0 ==>
      && i < |old(Tokens(fdt))| && CloseOf(old(Tokens(fdt)), i + 1, 0).Some?
      && var end := OffsetOf(old(Tokens(fdt)), CloseOf(old(Tokens(fdt)), i + 1, 0).value);
      && nodeoffset <= end <= |old(fdt.StructBlock())|
      && fdt.StructBlock() == Replaced(old(fdt.StructBlock()), nodeoffset, end - nodeoffset, [])
  {
    hide Block, Resolve, OffsetOf, EventNo, Decode, CloseOf, CloseEvent, WithoutNode, Replaced, Parse;
    ghost var toks, tab := Tokens(fdt), fdt.Strings();
    var end := NodeEndOffset(fdt, nodeoffset, toks, i);
    if i < |toks| && toks[i].TBegin? {
      WithoutNodeIsCut(toks, tab, i);
    }
    if end < 0 {
      return end;
    }
    ghost var j := CloseOf(toks, i + 1, 0).value;
    err := CutRecords(fdt, nodeoffset, end - nodeoffset, toks, i, j);
  }

  // ----- NOP

  /** `n` NOP records. */
  ghost function Nops(n: nat): (toks: seq<Token>)
    ensures |toks| == n
  {
    if n == 0 then [] else [TNop] + Nops(n - 1)
  }

  function NopBytes(n: nat): (x: seq<byte>)
    ensures |x| == 4 * n
  {
    if n == 0 then [] else WordBytes(NOP) + NopBytes(n - 1)
  }

  lemma {:induction false} NopRecords(n: nat, tab: seq<byte>)
    ensures Records(NopBytes(n), Nops(n)) && Resolve(Nops(n), tab, 0) == Some([])
  {
    if n > 0 {
      var x := NopBytes(n);
      NopRecords(n - 1, tab);
      assert x[..4] == WordBytes(NOP) && x[4..] == NopBytes(n - 1);
      assert Nops(n)[1..] == Nops(n - 1);
    }
  }

  lemma {:induction false} NopSnoc(n: nat)
    ensures NopBytes(n) + WordBytes(NOP) == NopBytes(n + 1)
  {
    if n > 0 {
      NopSnoc(n - 1);
      assert WordBytes(NOP) + (NopBytes(n - 1) + WordBytes(NOP)) == (WordBytes(NOP) + NopBytes(n - 1)) + WordBytes(NOP);
    } else {
      assert WordBytes(NOP) + [] == WordBytes(NOP) == [] + WordBytes(NOP);
    }
  }

  /** fdt_nop_region_: whole words, so a length that is not a multiple of four is rounded up. */
  method NopRegion(fdt: Blob, o: nat, len: nat)
    requires Finished(fdt) && o + Align4(len) <= fdt.sizeStruct
    modifies fdt.buf
    ensures Front(fdt) == old(Front(fdt)) && fdt.Strings() == old(fdt.Strings())
    ensures fdt.StructBlock() == Overwrite(old(fdt.StructBlock()), o, NopBytes(Align4(len) / 4))
  {
    hide Overwrite, NopBytes;
    ghost var s := fdt.StructBlock();
    var p := 0;
    NopStart(s, o);
    while p < len
      invariant p % 4 == 0 && p <= Align4(len)
      invariant Front(fdt) == old(Front(fdt)) && fdt.Strings() == old(fdt.Strings())
      invariant fdt.StructBlock() == Overwrite(s, o, NopBytes(p / 4))
    {
      PutFinished(fdt, o + p, WordBytes(NOP));
      NopSnoc(p / 4);
      OverwriteNext(s, o, NopBytes(p / 4), WordBytes(NOP));
      p := p + 4;
    }
  }

  lemma NopStart(s: seq<byte>, o: nat)
    requires o <= |s|
    ensures Overwrite(s, o, NopBytes(0)) == s
  {
  }

  /** NOPs over records i to j leave the tree that deleting those records leaves. */
  lemma NopTree(s: seq<byte>, tab: seq<byte>, toks: seq<Token>, i: nat, j: nat)
    requires Block(s, toks) && Resolve(toks, tab, 0).Some? && i <= j <= |toks|
    ensures OffsetOf(toks, i) <= OffsetOf(toks, j) <= |s|
    ensures EventNo(toks, i) <= |Resolve(toks, tab, 0).value| && EventNo(toks, j) <= |Resolve(toks, tab, 0).value|
    ensures var es := Resolve(toks, tab, 0).value;
            var n := (OffsetOf(toks, j) - OffsetOf(toks, i)) / 4;
            OffsetOf(toks, i) + 4 * n == OffsetOf(toks, j)
            && Decode(Overwrite(s, OffsetOf(toks, i), NopBytes(n)), tab) == Some(es[..EventNo(toks, i)] + es[EventNo(toks, j)..])
  {
    hide Block, Decode, OffsetOf, EventNo, NopBytes, Nops, Records, Resolve;
    OffsetMonotone(toks, i, j);
    var o, n := OffsetOf(toks, i), (OffsetOf(toks, j) - OffsetOf(toks, i)) / 4;
    NopRecords(n, tab);
    EditTree(s, tab, toks, i, j, NopBytes(n), Nops(n));
    var es := Resolve(toks, tab, 0).value;
    assert es[..EventNo(toks, i)] + [] == es[..EventNo(toks, i)];
    assert Overwrite(s, o, NopBytes(n)) == Replaced(s, o, 4 * n, NopBytes(n));
  }

  /** NOP out records i to j. */
  method NopRecordsOut(fdt: Blob, o: nat, len: nat, ghost toks: seq<Token>, ghost i: nat, ghost j: nat)
    requires Decodable(fdt) && Block(fdt.StructBlock(), toks) && i <= j <= |toks|
    requires o == OffsetOf(toks, i) && o + Align4(len) == OffsetOf(toks, j)
    modifies fdt.buf
    ensures Decodable(fdt) && Front(fdt) == old(Front(fdt)) && fdt.Strings() == old(fdt.Strings())
    ensures o + Align4(len) <= |old(fdt.StructBlock())|
    ensures fdt.StructBlock() == Overwrite(old(fdt.StructBlock()), o, NopBytes(Align4(len) / 4))
    ensures EventNo(toks, i) <= |old(Tree(fdt))| && EventNo(toks, j) <= |old(Tree(fdt))|
    ensures Tree(fdt) == old(Tree(fdt))[..EventNo(toks, i)] + old(Tree(fdt))[EventNo(toks, j)..]
  {
    hide Block, Resolve, OffsetOf, EventNo, Decode, NopBytes, Overwrite;
    DecodesTo(fdt.StructBlock(), fdt.Strings(), toks);
    NopTree(fdt.StructBlock(), fdt.Strings(), toks, i, j);
    NopRegion(fdt, o, len);
  }

  /** fdt_nop_property: the tree is the one fdt_delprop leaves, but only the bytes of the property change. */
  method NopProperty(fdt: Blob, nodeoffset: int, name: seq<byte>, ghost i: nat) returns (err: int)
    requires Decodable(fdt)
    requires i <= |Tokens(fdt)| && nodeoffset == OffsetOf(Tokens(fdt), i)
    modifies fdt.buf
    ensures Decodable(fdt) && Front(fdt) == old(Front(fdt)) && fdt.Strings() == old(fdt.Strings())
    ensures err != 0 ==> fdt.StructBlock() == old(fdt.StructBlock())
    ensures if i == |old(Tokens(fdt))| || !old(Tokens(fdt))[i].TBegin? then err == -BADOFFSET
            else
              && EventNo(old(Tokens(fdt)), i) < |old(Tree(fdt))|
              && (err == 0 <==> PropIndex(old(Tree(fdt)), EventNo(old(Tokens(fdt)), i) + 1, name).Some?)
              && (err == 0 ==> Tree(fdt) == WithoutProp(old(Tree(fdt)), EventNo(old(Tokens(fdt)), i), name))
    ensures err == 0 ==>
      && i < |old(Tokens(fdt))| && FindProp(old(Tokens(fdt)), fdt.Strings(), i + 1, name).Found?
      && var toks := old(Tokens(fdt));
         var o := OffsetOf(toks, FindProp(toks, fdt.Strings(), i + 1, name).k);
         var n := TokSize(toks[FindProp(toks, fdt.Strings(), i + 1, name).k]) / 4;
      && o + 4 * n <= |old(fdt.StructBlock())| && fdt.StructBlock() == Overwrite(old(fdt.StructBlock()), o, NopBytes(n))
  {
    hide Block, Resolve, OffsetOf, EventNo, StringAt, Decode, FindProp, PropIndex, WithoutProp, NopBytes, Overwrite;
    ghost var toks, s, tab := Tokens(fdt), fdt.StructBlock(), fdt.Strings();
    var prop, len := GetProperty(fdt, nodeoffset, name, toks, i);
    if i < |toks| && toks[i].TBegin? {
      WithoutIsCut(s, tab, toks, i, name);
    }
    if prop.None? {
      return len;
    }
    ghost var k := FindProp(toks, tab, i + 1, name).k;
    AlignShift(12, len);
    NopRecordsOut(fdt, prop.value, len + 12, toks, k, k + 1);
    return 0;
  }

  /** fdt_nop_node: the tree is the one fdt_del_node leaves, but only the bytes of the node change. */
  method NopNode(fdt: Blob, nodeoffset: nat, ghost i: nat) returns (err: int)
    requires Decodable(fdt)
    requires i <= |Tokens(fdt)| && nodeoffset == OffsetOf(Tokens(fdt), i)
    modifies fdt.buf
    ensures Decodable(fdt) && Front(fdt) == old(Front(fdt)) && fdt.Strings() == old(fdt.Strings())
    ensures err != 0 ==> fdt.StructBlock() == old(fdt.StructBlock())
    ensures if i == |old(Tokens(fdt))| || !old(Tokens(fdt))[i].TBegin? then err == -BADOFFSET
            else
              && EventNo(old(Tokens(fdt)), i) < |old(Tree(fdt))|
              && err == (if CloseEvent(old(Tree(fdt)), EventNo(old(Tokens(fdt)), i) + 1, 0).Some? then 0 else -NOTFOUND)
              && Tree(fdt) == WithoutNode(old(Tree(fdt)), EventNo(old(Tokens(fdt)), i))
    ensures err == 0 ==>
      && i < |old(Tokens(fdt))| && CloseOf(old(Tokens(fdt)), i + 1, 0).Some?
      && var n := (OffsetOf(old(Tokens(fdt)), CloseOf(old(Tokens(fdt)), i + 1, 0).value) - nodeoffset) / 4;
      && 0 <= n && nodeoffset + 4 * n <= |old(fdt.StructBlock())|
      && fdt.StructBlock() == Overwrite(old(fdt.StructBlock()), nodeoffset, NopBytes(n))
  {
    hide Block, Resolve, OffsetOf, EventNo, Decode, CloseOf, CloseEvent, WithoutNode, NopBytes, Overwrite, Parse, Align4, TokSize;
    ghost var toks, tab := Tokens(fdt), fdt.Strings();
    var end := NodeEndOffset(fdt, nodeoffset, toks, i);
    if i < |toks| && toks[i].TBegin? {
      WithoutNodeIsCut(toks, tab, i);
    }
    if end < 0 {
      return end;
    }
    ghost var j := CloseOf(toks, i + 1, 0).value;
    NopRecordsOut(fdt, nodeoffset, end - nodeoffset, toks, i, j);
    return 0;
  }

  // ----- adding

  /** The bytes of an empty node. */
  function NodeBytes(name: seq<byte>): (x: seq<byte>)
    ensures |x| == 8 + Align4(|name| + 1)
  {
    WordBytes(BEGIN_NODE) + (name + [0]) + seq(Align4(|name| + 1) - |name| - 1, _ => 0) + WordBytes(END_NODE)
  }

  lemma NodeSpelled(name: seq<byte>, tab: seq<byte>)
    requires IsName(name)
    ensures Records(NodeBytes(name), [TBegin(name), TEnd])
    ensures Resolve([TBegin(name), TEnd], tab, 0) == Some([Begin(name), End])
  {
    hide Spells;
    var pad: seq<byte> := seq(Align4(|name| + 1) - |name| - 1, _ => 0);
    BeginSpells(name, pad);
    EndSpells();
    OneRecord(WordBytes(BEGIN_NODE) + (name + [0]) + pad, TBegin(name));
    OneRecord(WordBytes(END_NODE), TEnd);
    RecordsAppend(WordBytes(BEGIN_NODE) + (name + [0]) + pad, [TBegin(name)], WordBytes(END_NODE), [TEnd]);
    assert [TBegin(name)] + [TEnd] == [TBegin(name), TEnd];
    assert [TEnd][1..] == [] && [TBegin(name), TEnd][1..] == [TEnd];
    assert [End] + [] == [End];
    assert Resolve([], tab, 0) == Some([]) && Resolve([TEnd], tab, 0) == Some([End]);
    assert [Begin(name)] + [End] == [Begin(name), End];
  }

  lemma EndSpells()
    ensures Spells(WordBytes(END_NODE), TEnd)
  {
  }

  /** The loop of fdt_add_subnode_namelen that skips the parent's properties. */
  method SkipProps(fdt: Blob, parent: nat, ghost toks: seq<Token>, ghost i: nat) returns (offset: nat)
    requires fdt.HasStruct() && Block(fdt.StructBlock(), toks)
    requires i < |toks| && toks[i].TBegin? && parent == OffsetOf(toks, i)
    ensures offset == OffsetOf(toks, PropsOver(toks, i + 1)) && offset + 4 <= fdt.sizeStruct
  {
    hide Block, OffsetOf, Spells, TokSize;
    var tag, next := TagAt(fdt, parent, toks, i);
    ghost var k := i + 1;
    offset := next;
    tag, next := TagAt(fdt, offset, toks, k);
    while tag == PROP || tag == NOP
      invariant i < k <= |toks| && offset == OffsetOf(toks, k) && offset + 4 <= fdt.sizeStruct
      invariant if k == |toks| then tag == END else tag == TagOf(toks[k]) && next == OffsetOf(toks, k + 1)
      invariant PropsOver(toks, i + 1) == PropsOver(toks, k)
      decreases |toks| - k
    {
      k := k + 1;
      offset := next;
      tag, next := TagAt(fdt, offset, toks, k);
    }
  }

  /** fdt_add_subnode_namelen: the offset of the new node, or an error. */
  method AddSubnode(fdt: Blob, parent: nat, name: seq<byte>, ghost i: nat) returns (r: int)
    requires IsName(name) && |name| + 16 <= INT_MAX && Editable(fdt, parent, i)
    modifies fdt`version, fdt`sizeStruct, fdt`offStrings, fdt.buf
    ensures old(RwError(fdt)) != 0 ==> r == old(RwError(fdt)) && unchanged(fdt, fdt.buf)
    ensures old(RwError(fdt)) == 0 ==>
      && RwError(fdt) == 0 && WellFormed(fdt) && Front(fdt) == old(Front(fdt)) && fdt.Strings() == old(fdt.Strings())
      && (r < 0 ==> fdt.StructBlock() == old(fdt.StructBlock()))
      && if i == |old(Tokens(fdt))| || !old(Tokens(fdt))[i].TBegin? then r == -BADOFFSET
         else if FindSub(old(Tokens(fdt)), i + 1, 0, name).Some? then r == -EXISTS
         else if old(fdt.offStrings) + fdt.sizeStrings + |NodeBytes(name)| > fdt.totalsize then r == -NOSPACE
         else
           && r == OffsetOf(old(Tokens(fdt)), PropsOver(old(Tokens(fdt)), i + 1)) <= |old(fdt.StructBlock())|
           && fdt.StructBlock() == Replaced(old(fdt.StructBlock()), r, 0, NodeBytes(name))
           && EventNo(old(Tokens(fdt)), i) < |old(Tree(fdt))|
           && Tree(fdt) == WithNode(old(Tree(fdt)), EventNo(old(Tokens(fdt)), i), name)
  {
    hide Block, Resolve, OffsetOf, EventNo, Decode, Replaced, NodeBytes, Overwrite, FindSub, WithNode, RwError;
    r := RwProbe(fdt);
    if r != 0 {
      return;
    }
    ghost var toks := old(Tokens(fdt));
    r := SubnodeOffset(fdt, parent, name, toks, i);
    if r >= 0 {
      return -EXISTS;
    } else if r != -NOTFOUND {
      return r;
    }
    var offset := SkipProps(fdt, parent, toks, i);
    var err := InsertNode(fdt, offset, name, toks, i);
    return if err != 0 then err else offset;
  }

  /** The splice of fdt_add_subnode_namelen, and the new records. */
  method InsertNode(fdt: Blob, offset: nat, name: seq<byte>, ghost toks: seq<Token>, ghost i: nat) returns (err: int)
    requires WellFormed(fdt) && Block(fdt.StructBlock(), toks) && IsName(name)
    requires i < |toks| && toks[i].TBegin? && offset == OffsetOf(toks, PropsOver(toks, i + 1))
    modifies fdt`sizeStruct, fdt`offStrings, fdt.buf
    ensures RwError(fdt) == 0
    ensures WellFormed(fdt) && Front(fdt) == old(Front(fdt)) && fdt.Strings() == old(fdt.Strings())
    ensures err == if old(fdt.offStrings) + fdt.sizeStrings + |NodeBytes(name)| > fdt.totalsize then -NOSPACE else 0
    ensures err != 0 ==> fdt.StructBlock() == old(fdt.StructBlock())
    ensures err == 0 ==>
      && offset <= |old(fdt.StructBlock())| && fdt.StructBlock() == Replaced(old(fdt.StructBlock()), offset, 0, NodeBytes(name))
      && EventNo(toks, i) < |old(Tree(fdt))| && Tree(fdt) == WithNode(old(Tree(fdt)), EventNo(toks, i), name)
  {
    hide Block, Resolve, OffsetOf, EventNo, Decode, Replaced, NodeBytes, WithNode, PropsOver, IsName, RwError;
    ghost var s, tab := fdt.StructBlock(), fdt.Strings();
    DecodesTo(s, tab, toks);
    AddedNode(s, tab, toks, i, name);
    err := InsertBytes(fdt, offset, NodeBytes(name));
    OrderedPasses(fdt);
  }

  method InsertBytes(fdt: Blob, o: nat, x: seq<byte>) returns (err: int)
    requires Ordered(fdt) && o <= fdt.sizeStruct
    modifies fdt`sizeStruct, fdt`offStrings, fdt.buf
    ensures err == if fdt.sizeStrings + old(fdt.offStrings) + |x| > fdt.totalsize then -NOSPACE else 0
    ensures Ordered(fdt) && Front(fdt) == old(Front(fdt)) && fdt.Strings() == old(fdt.Strings())
    ensures fdt.StructBlock() == if err == 0 then Replaced(old(fdt.StructBlock()), o, 0, x) else old(fdt.StructBlock())
  {
    hide Replaced, Overwrite;
    ghost var s, mid := fdt.StructBlock(), [];
    err, mid := SpliceStruct(fdt, o, 0, |x|);
    if err == 0 {
      PutFinished(fdt, o, x);
      OverwriteReplaced(s, o, 0, mid, 0, x);
      OverwriteFront(mid, x);
      assert mid[|x|..] == [] && x + [] == x;
    }
  }

  lemma AddedNode(s: seq<byte>, tab: seq<byte>, toks: seq<Token>, i: nat, name: seq<byte>)
    requires Block(s, toks) && Resolve(toks, tab, 0).Some? && i < |toks| && toks[i].TBegin? && IsName(name)
    ensures var o := OffsetOf(toks, PropsOver(toks, i + 1));
            && o <= |s| && EventNo(toks, i) < |Resolve(toks, tab, 0).value|
            && Decode(Replaced(s, o, 0, NodeBytes(name)), tab) == Some(WithNode(Resolve(toks, tab, 0).value, EventNo(toks, i), name))
  {
    hide Block, Resolve, OffsetOf, EventNo, Decode, Replaced, NodeBytes, PropsOver, PropsEnd, Records;
    var j := PropsOver(toks, i + 1);
    EventStep(toks, tab, i);
    PropsOverIsEnd(toks, tab, i + 1);
    NodeSpelled(name, tab);
    EditTree(s, tab, toks, j, j, NodeBytes(name), [TBegin(name), TEnd]);
  }

  /** Deleting a node at the offset where it was just added restores the structure and strings blocks
      byte for byte. */
  method AddThenDelNode(fdt: Blob, parent: nat, name: seq<byte>, ghost i: nat) returns (added: bool, err: int)
    requires IsName(name) && |name| + 16 <= INT_MAX && Editable(fdt, parent, i)
    modifies fdt`version, fdt`sizeStruct, fdt`offStrings, fdt.buf
    ensures added ==> err == 0
    ensures old(RwError(fdt)) != 0 ==> !added && err == old(RwError(fdt)) && unchanged(fdt, fdt.buf)
    ensures old(RwError(fdt)) == 0 ==>
      && var toks := old(Tokens(fdt));
      && (if i == |toks| || !toks[i].TBegin? then !added && err == -BADOFFSET
          else if FindSub(toks, i + 1, 0, name).Some? then !added && err == -EXISTS
          else if old(fdt.offStrings + fdt.sizeStrings) + |NodeBytes(name)| > fdt.totalsize then !added && err == -NOSPACE
          else added)
      && WellFormed(fdt) && fdt.StructBlock() == old(fdt.StructBlock()) && fdt.Strings() == old(fdt.Strings())
      && Front(fdt) == old(Front(fdt))
  {
    hide Block, Resolve, OffsetOf, EventNo, Decode, Replaced, NodeBytes, WithNode, FindSub, CloseOf, PropsOver, IsName, RwError;
    var offset := AddSubnode(fdt, parent, name, i);
    if offset < 0 {
      return false, offset;
    }
    err := DelAdded(fdt, offset, name, old(Tokens(fdt)), PropsOver(old(Tokens(fdt)), i + 1), old(fdt.StructBlock()));
    return true, err;
  }

  /** Deleting the node that was added before record `j` of the block `s` gives `s` back. */
  method DelAdded(fdt: Blob, offset: nat, name: seq<byte>, ghost toks: seq<Token>, ghost j: nat, ghost s: seq<byte>) returns (err: int)
    requires RwError(fdt) == 0 && WellFormed(fdt) && Block(s, toks) && j <= |toks| && IsName(name)
    requires offset == OffsetOf(toks, j) <= |s| && fdt.StructBlock() == Replaced(s, offset, 0, NodeBytes(name))
    modifies fdt`version, fdt`sizeStruct, fdt`offStrings, fdt.buf
    ensures err == 0
    ensures WellFormed(fdt) && fdt.StructBlock() == s && fdt.Strings() == old(fdt.Strings()) && Front(fdt) == old(Front(fdt))
  {
    hide Block, Resolve, OffsetOf, EventNo, Decode, Replaced, CloseOf, WithoutNode, CloseEvent, RwError, Ordered, NodeBytes, IsName;
    AddedBack(s, fdt.StructBlock(), toks, j, name, Tokens(fdt));
    err := DelNode(fdt, offset, j);
  }

  lemma ReplacedBack(s: seq<byte>, o: nat, x: seq<byte>)
    requires o <= |s|
    ensures Replaced(Replaced(s, o, 0, x), o, |x|, []) == s
  {
    var r := Replaced(s, o, 0, x);
    assert r[..o] == s[..o] && r[o + |x|..] == s[o..];
  }

  lemma AddedTokens(s: seq<byte>, s': seq<byte>, toks: seq<Token>, j: nat, name: seq<byte>, new': seq<Token>)
    requires Block(s, toks) && j <= |toks| && IsName(name) && OffsetOf(toks, j) <= |s|
    requires s' == Replaced(s, OffsetOf(toks, j), 0, NodeBytes(name)) && Block(s', new')
    ensures j < |new'| && new'[j].TBegin? && OffsetOf(new', j) == OffsetOf(toks, j)
    ensures CloseOf(new', j + 1, 0) == Some(j + 2) && OffsetOf(new', j + 2) == OffsetOf(toks, j) + |NodeBytes(name)|
  {
    hide Block, Records, Replaced, NodeBytes, CloseOf;
    NodeSpelled(name, []);
    BlockSplice(s, toks, j, j, NodeBytes(name), [TBegin(name), TEnd]);
    var us := toks[..j] + [TBegin(name), TEnd] + toks[j..];
    ParseIsBlock(s', us);
    ParseIsBlock(s', new');
    assert new' == us;
    assert us[..j] == toks[..j] && us[..j + 2] == toks[..j] + [TBegin(name), TEnd];
    SizeAppend(toks[..j], [TBegin(name), TEnd]);
    RecordsSize(NodeBytes(name), [TBegin(name), TEnd]);
    CloseHere(us, j + 1);
  }

  /** Cutting the added node out of the new block gives the old one back. */
  lemma AddedBack(s: seq<byte>, s': seq<byte>, toks: seq<Token>, j: nat, name: seq<byte>, new': seq<Token>)
    requires Block(s, toks) && j <= |toks| && IsName(name) && OffsetOf(toks, j) <= |s|
    requires s' == Replaced(s, OffsetOf(toks, j), 0, NodeBytes(name)) && Block(s', new')
    ensures j < |new'| && new'[j].TBegin? && OffsetOf(new', j) == OffsetOf(toks, j) && CloseOf(new', j + 1, 0).Some?
    ensures var o, end := OffsetOf(toks, j), OffsetOf(new', CloseOf(new', j + 1, 0).value);
            o <= end <= |s'| && Replaced(s', o, end - o, []) == s
  {
    hide Block, OffsetOf, Replaced, NodeBytes, CloseOf;
    AddedTokens(s, s', toks, j, name, new');
    ReplacedBack(s, OffsetOf(toks, j), NodeBytes(name));
  }

  lemma CloseHere(toks: seq<Token>, k: nat)
    requires k < |toks| && toks[k].TEnd?
    ensures CloseOf(toks, k, 0) == Some(k + 1)
  {
  }
}
