/** Editing a finished blob in place (fdt/fdt_rw.c, fdt/fdt_wip.c): every edit moves bytes inside the
    buffer, and is stated by what it does to the decoded tree. */
module FdtEdit {
  import opened Bytes
  import opened FdtFormat
  import opened Wrappers
  import opened FdtBlob
  import opened FdtCheck
  import opened FdtNodes

  // ----- well-formed blobs

  /** A complete blob that decodes. The buffer may be larger than the data. */
  ghost predicate Decodable(fdt: Blob)
    reads fdt, fdt.buf
  {
    Finished(fdt) && Decode(fdt.StructBlock(), fdt.Strings()).Some?
  }

  /** A blob that can be edited: its blocks are in order and it decodes. */
  ghost predicate WellFormed(fdt: Blob)
    reads fdt, fdt.buf
  {
    Ordered(fdt) && Decodable(fdt)
  }

  ghost predicate Ordered(fdt: Blob)
    reads fdt
  {
    && Finished(fdt)
    && HEADER_SIZE <= fdt.offRsvmap && fdt.offRsvmap + 16 <= fdt.offStruct
    && fdt.offStruct + fdt.sizeStruct <= fdt.offStrings
  }

  /** The tree a reader sees, as the events of walking it. */
  ghost function Tree(fdt: Blob): (es: seq<Event>)
    requires Decodable(fdt)
    reads fdt, fdt.buf
  {
    Decode(fdt.StructBlock(), fdt.Strings()).value
  }

  /** The records that spell it. */
  ghost function Tokens(fdt: Blob): (toks: seq<Token>)
    requires Decodable(fdt)
    reads fdt, fdt.buf
    ensures Block(fdt.StructBlock(), toks) && Resolve(toks, fdt.Strings(), 0) == Some(Tree(fdt))
  {
    var toks := Parse(fdt.StructBlock()).value;
    ParseIsBlock(fdt.StructBlock(), toks);
    toks
  }

  lemma DecodesTo(s: seq<byte>, tab: seq<byte>, toks: seq<Token>)
    requires Block(s, toks)
    ensures Parse(s) == Some(toks) && Decode(s, tab) == Resolve(toks, tab, 0)
  {
    ParseIsBlock(s, toks);
  }

  /** The event that record `i` of a node stands for. */
  ghost function EventNo(toks: seq<Token>, i: nat): (n: nat)
    requires i <= |toks|
  {
    Visible(toks[..i])
  }

  /** fdt_blocks_misordered_; the sums wrap at 32 bits. */
  predicate Misordered(fdt: Blob)
    reads fdt
  {
    || fdt.offRsvmap < HEADER_SIZE || fdt.offStruct < U32(fdt.offRsvmap + 16)
    || fdt.offStrings < U32(fdt.offStruct + fdt.sizeStruct) || fdt.totalsize < U32(fdt.offStrings + fdt.sizeStrings)
  }

  /** What fdt_rw_probe_ answers. */
  function RwError(fdt: Blob): (err: int)
    reads fdt
    ensures err <= 0
  {
    if RoProbe(fdt) < 0 then RoProbe(fdt)
    else if fdt.version < 17 then -BADVERSION
    else if Misordered(fdt) then -BADLAYOUT
    else 0
  }

  /** Of the blobs that fdt_check_header accepts, those can be edited whose version is 17 or later, whose blocks
      are in order and whose size is not the one that the probe of a reader rejects. */
  lemma RwErrorExact(fdt: Blob)
    requires CheckHeader(fdt) == 0 && fdt.totalsize <= fdt.buf.Length
    ensures RwError(fdt) == 0 <==> Ordered(fdt)
    ensures RwError(fdt) == if fdt.totalsize == INT_MAX then -TRUNCATED
                            else if fdt.version < 17 then -BADVERSION
                            else if Ordered(fdt) then 0 else -BADLAYOUT
  {
  }

  lemma OrderedPasses(fdt: Blob)
    requires Ordered(fdt)
    ensures RwError(fdt) == 0
  {
  }

  /** fdt_rw_probe_: a later version is set back to 17. */
  method RwProbe(fdt: Blob) returns (err: int)
    modifies fdt`version
    ensures err == old(RwError(fdt))
    ensures fdt.version == if err == 0 then 17 else old(fdt.version)
    ensures err == 0 ==> RwError(fdt) == 0
    ensures old(Finished(fdt)) ==>
      Finished(fdt) && Front(fdt) == old(Front(fdt)) && fdt.StructBlock() == old(fdt.StructBlock()) && fdt.Strings() == old(fdt.Strings())
    ensures old(Ordered(fdt)) ==> Ordered(fdt)
    ensures old(Decodable(fdt)) ==> Decodable(fdt) && Tokens(fdt) == old(Tokens(fdt)) && Tree(fdt) == old(Tree(fdt))
  {
    hide Decode, Parse;
    var total := RoProbe(fdt);
    if total < 0 {
      return total;
    }
    if fdt.version < 17 {
      return -BADVERSION;
    }
    if Misordered(fdt) {
      return -BADLAYOUT;
    }
    if fdt.version > 17 {
      fdt.version := 17;
    }
    return 0;
  }

  // ----- splicing

  /** The buffer after the bytes from `p + oldlen` to `end` have moved to `p + newlen`. */
  ghost function Moved(b: seq<byte>, p: nat, oldlen: nat, newlen: nat, end: nat): (c: seq<byte>)
    requires p + oldlen <= end <= |b| && end - oldlen + newlen <= |b|
    ensures |c| == |b|
  {
    Overwrite(b, p + newlen, b[p + oldlen..end])
  }

  /** fdt_splice_ */
  method Splice(fdt: Blob, p: nat, oldlen: nat, newlen: nat) returns (err: int)
    requires fdt.HasStrings()
    modifies fdt.buf
    ensures var end := fdt.offStrings + fdt.sizeStrings;
            && err == (if p + oldlen > end then -BADOFFSET
                       else if end - oldlen + newlen > fdt.totalsize then -NOSPACE else 0)
            && (err != 0 ==> fdt.buf[..] == old(fdt.buf[..]))
            && (err == 0 ==> fdt.buf[..] == Moved(old(fdt.buf[..]), p, oldlen, newlen, end))
  {
    hide Overwrite;
    var end := fdt.offStrings + fdt.sizeStrings;
    if p + oldlen > end {
      return -BADOFFSET;
    }
    if end - oldlen + newlen > fdt.totalsize {
      return -NOSPACE;
    }
    ghost var b := fdt.buf[..];
    assert fdt.buf[p + oldlen..end] == b[p + oldlen..end];
    fdt.Put(p + newlen, fdt.buf[p + oldlen..end]);
    return 0;
  }

  lemma MovedBlock(b: seq<byte>, base: nat, o: nat, oldlen: nat, newlen: nat, n: nat, end: nat)
    requires o + oldlen <= n && base + n <= end <= |b| && end - oldlen + newlen <= |b|
    ensures Moved(b, base + o, oldlen, newlen, end)[base..base + n - oldlen + newlen]
            == Replaced(b[base..base + n], o, oldlen, b[base + o..base + o + newlen])
  {
    var p := base + o + newlen;
    var x := b[base + o + oldlen..end];
    OverwriteAt(b, p, x);
    hide Overwrite;
    var c := Overwrite(b, p, x);
    var t, r := c[base..base + n - oldlen + newlen], Replaced(b[base..base + n], o, oldlen, b[base + o..p]);
    forall k | 0 <= k < n - oldlen + newlen ensures t[k] == r[k] {
      if k < o {
        assert t[k] == b[base + k] && r[k] == b[base..base + n][..o][k];
      } else if k < o + newlen {
        assert t[k] == b[base + k] && r[k] == b[base + o..p][k - o];
      } else {
        assert t[k] == x[base + k - p] == b[base + k - newlen + oldlen];
        assert r[k] == b[base..base + n][o + oldlen..][k - (o + newlen)];
      }
    }
  }

  /** What a splice does to the blocks around the gap: `b` before, `c` after. */
  ghost predicate Gapped(b: seq<byte>, c: seq<byte>, base: nat, o: nat, oldlen: nat, newlen: nat, n: nat, str: nat, end: nat) {
    && o + oldlen <= n && base + n <= str <= end <= |b| == |c| && end - oldlen + newlen <= |b|
    && c[..base] == b[..base]
    && c[base..base + n - oldlen + newlen] == Replaced(b[base..base + n], o, oldlen, b[base + o..base + o + newlen])
    && c[str - oldlen + newlen..end - oldlen + newlen] == b[str..end]
    && (newlen <= oldlen ==> b[base + o..base + o + newlen] == b[base..base + n][o..o + newlen])
  }

  lemma GappedParts(b: seq<byte>, c: seq<byte>, base: nat, o: nat, oldlen: nat, newlen: nat, n: nat, str: nat, end: nat,
                    front: seq<byte>, s: seq<byte>, tab: seq<byte>)
    requires Gapped(b, c, base, o, oldlen, newlen, n, str, end)
    requires front == b[..base] && s == b[base..base + n] && tab == b[str..end]
    ensures o + oldlen <= |s| && base + n <= str <= end <= |b| == |c| && end - oldlen + newlen <= |b|
    ensures c[..base] == front && c[str - oldlen + newlen..end - oldlen + newlen] == tab
    ensures var mid := b[base + o..base + o + newlen];
            c[base..base + n - oldlen + newlen] == Replaced(s, o, oldlen, mid) && (newlen <= oldlen ==> mid == s[o..o + newlen])
  {
    hide Replaced;
  }

  lemma MovedAround(b: seq<byte>, p: nat, oldlen: nat, newlen: nat, end: nat, front: nat, str: nat)
    requires front <= p && p + oldlen <= str <= end <= |b| && end - oldlen + newlen <= |b|
    ensures var c := Moved(b, p, oldlen, newlen, end);
            c[..front] == b[..front] && c[str - oldlen + newlen..end - oldlen + newlen] == b[str..end]
  {
    var x := b[p + oldlen..end];
    OverwriteAt(b, p + newlen, x);
    hide Overwrite;
    var c := Overwrite(b, p + newlen, x);
    assert forall k | 0 <= k < front :: c[k] == b[k];
    var t := c[str - oldlen + newlen..end - oldlen + newlen];
    assert forall k | 0 <= k < |t| :: t[k] == b[str..end][k];
  }

  lemma SpliceParts(b: seq<byte>, base: nat, o: nat, oldlen: nat, newlen: nat, n: nat, str: nat, end: nat)
    requires o + oldlen <= n && base + n <= str <= end <= |b| && end - oldlen + newlen <= |b|
    ensures Gapped(b, Moved(b, base + o, oldlen, newlen, end), base, o, oldlen, newlen, n, str, end)
  {
    hide Replaced, Moved;
    MovedBlock(b, base, o, oldlen, newlen, n, end);
    MovedAround(b, base + o, oldlen, newlen, end, base, str);
    if newlen <= oldlen { SliceSlice(b, base, base + n, o, o + newlen); }
  }

  /** The bytes of fdt_splice_struct_; the header still describes the old layout. */
  method SpliceBytes(fdt: Blob, o: nat, oldlen: nat, newlen: nat) returns (err: int, ghost mid: seq<byte>)
    requires Ordered(fdt) && o + oldlen <= fdt.sizeStruct
    modifies fdt.buf
    ensures err == if fdt.offStrings + fdt.sizeStrings - oldlen + newlen > fdt.totalsize then -NOSPACE else 0
    ensures err != 0 ==> fdt.buf[..] == old(fdt.buf[..])
    ensures err == 0 ==>
      && |mid| == newlen && (newlen <= oldlen ==> mid == old(fdt.StructBlock())[o..o + newlen])
      && Front(fdt) == old(Front(fdt))
      && fdt.buf[fdt.offStruct..fdt.offStruct + fdt.sizeStruct - oldlen + newlen] == Replaced(old(fdt.StructBlock()), o, oldlen, mid)
      && fdt.buf[fdt.offStrings - oldlen + newlen..fdt.offStrings + fdt.sizeStrings - oldlen + newlen] == old(fdt.Strings())
  {
    hide Moved, Gapped, Replaced;
    ghost var b, s, tab, f := fdt.buf[..], fdt.StructBlock(), fdt.Strings(), Front(fdt);
    ghost var base, n, str, end := fdt.offStruct, fdt.sizeStruct, fdt.offStrings, fdt.offStrings + fdt.sizeStrings;
    mid := [];
    err := Splice(fdt, fdt.offStruct + o, oldlen, newlen);
    if err == 0 {
      SpliceParts(b, base, o, oldlen, newlen, n, str, end);
      mid := b[base + o..base + o + newlen];
      GappedParts(b, fdt.buf[..], base, o, oldlen, newlen, n, str, end, f, s, tab);
    }
  }

  /** fdt_splice_struct_. The new gap keeps the bytes that were there. */
  method SpliceStruct(fdt: Blob, o: nat, oldlen: nat, newlen: nat) returns (err: int, ghost mid: seq<byte>)
    requires Ordered(fdt) && o + oldlen <= fdt.sizeStruct
    modifies fdt`sizeStruct, fdt`offStrings, fdt.buf
    ensures err == if fdt.sizeStrings + old(fdt.offStrings) - oldlen + newlen > fdt.totalsize then -NOSPACE else 0
    ensures err != 0 ==>
      fdt.buf[..] == old(fdt.buf[..]) && fdt.sizeStruct == old(fdt.sizeStruct) && fdt.offStrings == old(fdt.offStrings)
    ensures err == 0 ==>
      && Ordered(fdt) && fdt.sizeStruct == old(fdt.sizeStruct) - oldlen + newlen
      && fdt.offStrings == old(fdt.offStrings) - oldlen + newlen
      && Front(fdt) == old(Front(fdt)) && fdt.Strings() == old(fdt.Strings())
      && |mid| == newlen && (newlen <= oldlen ==> mid == old(fdt.StructBlock())[o..o + newlen])
      && fdt.StructBlock() == Replaced(old(fdt.StructBlock()), o, oldlen, mid)
  {
    hide Replaced;
    ghost var s, tab, f := fdt.StructBlock(), fdt.Strings(), Front(fdt);
    err, mid := SpliceBytes(fdt, o, oldlen, newlen);
    if err == 0 {
      ResizeStruct(fdt, oldlen, newlen, f, Replaced(s, o, oldlen, mid), tab);
    }
  }

  /** The header after a splice. */
  method ResizeStruct(fdt: Blob, oldlen: nat, newlen: nat, ghost f: seq<byte>, ghost s: seq<byte>, ghost tab: seq<byte>)
    requires Ordered(fdt) && oldlen <= fdt.sizeStruct && fdt.offStrings + fdt.sizeStrings - oldlen + newlen <= fdt.totalsize
    requires fdt.buf[..fdt.offStruct] == f && fdt.buf[fdt.offStruct..fdt.offStruct + fdt.sizeStruct - oldlen + newlen] == s
    requires fdt.buf[fdt.offStrings - oldlen + newlen..fdt.offStrings + fdt.sizeStrings - oldlen + newlen] == tab
    modifies fdt`sizeStruct, fdt`offStrings
    ensures Ordered(fdt) && Front(fdt) == f && fdt.StructBlock() == s && fdt.Strings() == tab
    ensures fdt.sizeStruct == old(fdt.sizeStruct) - oldlen + newlen && fdt.offStrings == old(fdt.offStrings) - oldlen + newlen
  {
    fdt.sizeStruct := fdt.sizeStruct - oldlen + newlen;
    fdt.offStrings := fdt.offStrings - oldlen + newlen;
  }

  /** A store in the structure block touches nothing else. */
  method PutFinished(fdt: Blob, o: nat, x: seq<byte>)
    requires Finished(fdt) && o + |x| <= fdt.sizeStruct
    modifies fdt.buf
    ensures Front(fdt) == old(Front(fdt)) && fdt.Strings() == old(fdt.Strings())
    ensures fdt.StructBlock() == Overwrite(old(fdt.StructBlock()), o, x)
  {
    hide Overwrite;
    ghost var tab, f := fdt.Strings(), Front(fdt);
    PutStruct(fdt, o, x);
    if fdt.offStrings + fdt.sizeStrings <= fdt.offStruct {
      assert tab == f[fdt.offStrings..fdt.offStrings + fdt.sizeStrings];
      assert fdt.Strings() == Front(fdt)[fdt.offStrings..fdt.offStrings + fdt.sizeStrings];
    }
  }

  // ----- strings

  /** fdt_splice_string_ */
  method SpliceString(fdt: Blob, newlen: nat) returns (err: int)
    requires Ordered(fdt)
    modifies fdt`sizeStrings, fdt.buf
    ensures err == if fdt.offStrings + old(fdt.sizeStrings) + newlen > fdt.totalsize then -NOSPACE else 0
    ensures fdt.sizeStrings == old(fdt.sizeStrings) + (if err == 0 then newlen else 0)
    ensures fdt.buf[..] == old(fdt.buf[..])
  {
    hide Overwrite;
    ghost var b, p := fdt.buf[..], fdt.offStrings + fdt.sizeStrings;
    err := Splice(fdt, fdt.offStrings + fdt.sizeStrings, 0, newlen);
    if err == 0 {
      OverwriteNothing(b, p + newlen);
      assert b[p..p] == [];
      fdt.sizeStrings := fdt.sizeStrings + newlen;
    }
  }

  /** The part of fdt_find_add_string_ that adds a string. */
  method AppendString(fdt: Blob, name: seq<byte>) returns (err: int)
    requires Ordered(fdt)
    modifies fdt`sizeStrings, fdt.buf
    ensures Ordered(fdt) && Front(fdt) == old(Front(fdt)) && fdt.StructBlock() == old(fdt.StructBlock())
    ensures err == if fdt.offStrings + old(fdt.sizeStrings) + |name| + 1 > fdt.totalsize then -NOSPACE else 0
    ensures fdt.sizeStrings == old(fdt.sizeStrings) + (if err == 0 then |name| + 1 else 0)
    ensures fdt.Strings() == old(fdt.Strings()) + (if err == 0 then name + [0] else [])
  {
    ghost var tab := fdt.Strings();
    var at := fdt.sizeStrings;
    err := SpliceString(fdt, |name| + 1);
    if err == 0 {
      assert fdt.buf[fdt.offStrings..fdt.offStrings + at] == tab;
      StoreString(fdt, at, name);
    }
  }

  /** fdt_find_add_string_ of fdt_rw.c: the offset of the name in the strings block, or an error. */
  method FindAddString(fdt: Blob, name: seq<byte>) returns (r: int, added: bool)
    requires WellFormed(fdt) && IsName(name)
    modifies fdt`sizeStrings, fdt.buf
    ensures WellFormed(fdt) && Tree(fdt) == old(Tree(fdt))
    ensures Front(fdt) == old(Front(fdt)) && fdt.StructBlock() == old(fdt.StructBlock())
    ensures r >= 0 ==> r < fdt.sizeStrings && StringAt(fdt.Strings(), r) == Some(name)
    ensures added <==> !InTable(old(fdt.Strings()), name) && r >= 0
    ensures r < 0 <==> !InTable(old(fdt.Strings()), name) && fdt.offStrings + old(fdt.sizeStrings) + |name| + 1 > fdt.totalsize
    ensures r < 0 ==> r == -NOSPACE
    ensures fdt.sizeStrings == old(fdt.sizeStrings) + (if added then |name| + 1 else 0)
    ensures fdt.Strings() == old(fdt.Strings()) + (if added then name + [0] else [])
  {
    hide Decode, StringAt, Occurs, InTable;
    ghost var tab := fdt.Strings();
    var p := FindString(fdt.Strings(), name);
    NameKept(tab, name);
    if p.Some? {
      OccursString(tab, p.value, name);
      return p.value, false;
    }
    var at := fdt.sizeStrings;
    DecodeKept(fdt.StructBlock(), tab, name + [0]);
    var err := AppendString(fdt, name);
    return if err != 0 then err else at, err == 0;
  }

  /** A name behind a table can be read at its end. */
  lemma NameKept(tab: seq<byte>, name: seq<byte>)
    requires IsName(name)
    ensures StringAt(tab + (name + [0]), |tab|) == Some(name) && tab + [] == tab
  {
    hide StringAt;
    TailOf(tab, name + [0]);
    StringWritten(tab + (name + [0]), |tab|, name);
  }

  lemma DecodeKept(s: seq<byte>, tab: seq<byte>, x: seq<byte>)
    requires Decode(s, tab).Some?
    ensures Decode(s, tab + x) == Decode(s, tab)
  {
    hide Parse, Resolve;
    NamesKeptBehind(Parse(s).value, tab, x);
  }

  method StoreString(fdt: Blob, at: nat, name: seq<byte>)
    requires Ordered(fdt) && fdt.sizeStrings == at + |name| + 1
    modifies fdt.buf
    ensures Front(fdt) == old(Front(fdt)) && fdt.StructBlock() == old(fdt.StructBlock())
    ensures fdt.Strings() == old(fdt.buf[fdt.offStrings..fdt.offStrings + at]) + (name + [0])
  {
    hide Overwrite;
    ghost var b, o := fdt.buf[..], fdt.offStrings + at;
    fdt.Put(fdt.offStrings + at, name + [0]);
    OverwriteSlice(b, o, name + [0], 0, fdt.offStruct);
    OverwriteSlice(b, o, name + [0], fdt.offStruct, fdt.offStruct + fdt.sizeStruct);
    OverwriteSlice(b, o, name + [0], fdt.offStrings, fdt.offStrings + fdt.sizeStrings);
    assert b[o + |name| + 1..o + |name| + 1] == [];
  }

  /** fdt_del_last_string_ */
  method DelLastString(fdt: Blob, name: seq<byte>)
    requires fdt.HasStrings() && |name| < fdt.sizeStrings
    modifies fdt`sizeStrings
    ensures fdt.sizeStrings == old(fdt.sizeStrings) - (|name| + 1)
    ensures fdt.Strings() == old(fdt.Strings())[..fdt.sizeStrings]
  {
    ghost var tab := fdt.Strings();
    fdt.sizeStrings := fdt.sizeStrings - (|name| + 1);
    assert forall k | 0 <= k < fdt.sizeStrings :: fdt.Strings()[k] == tab[k];
  }

  // ----- what an edit does to the tree

  /** Replacing the bytes of records i to j by bytes that spell others replaces their events. */
  lemma EditTree(s: seq<byte>, tab: seq<byte>, toks: seq<Token>, i: nat, j: nat, x: seq<byte>, us: seq<Token>)
    requires Block(s, toks) && Resolve(toks, tab, 0).Some? && i <= j <= |toks|
    requires Records(x, us) && Resolve(us, tab, 0).Some?
    ensures OffsetOf(toks, i) <= OffsetOf(toks, j) <= |s|
    ensures EventNo(toks, i) <= |Resolve(toks, tab, 0).value| && EventNo(toks, j) <= |Resolve(toks, tab, 0).value|
    ensures var es := Resolve(toks, tab, 0).value;
            Decode(Replaced(s, OffsetOf(toks, i), OffsetOf(toks, j) - OffsetOf(toks, i), x), tab)
            == Some(es[..EventNo(toks, i)] + Resolve(us, tab, 0).value + es[EventNo(toks, j)..])
  {
    hide Block, Records, Resolve, Visible, Size, Replaced, Decode;
    BlockSplice(s, toks, i, j, x, us);
    ResolveSplice(toks, tab, i, j, us);
    DecodesTo(Replaced(s, Size(toks[..i]), Size(toks[..j]) - Size(toks[..i]), x), tab, toks[..i] + us + toks[j..]);
  }

  /** The first property called `name` from event `k` on, before any node begins or ends. */
  ghost function PropIndex(es: seq<Event>, k: nat, name: seq<byte>): (r: Option<nat>)
    requires k <= |es|
    ensures r.Some? ==> k <= r.value < |es| && es[r.value].Prop? && es[r.value].name == name
    decreases |es| - k
  {
    if k == |es| || !es[k].Prop? then None
    else if es[k].name == name then Some(k)
    else PropIndex(es, k + 1, name)
  }

  /** The tree with one property of the node at event `n` set: replaced if the node has it, and added
      in front of its other properties if not. */
  ghost function WithProp(es: seq<Event>, n: nat, name: seq<byte>, val: seq<byte>): (r: seq<Event>)
    requires n < |es|
  {
    match PropIndex(es, n + 1, name)
    case Some(k) => es[k := Prop(name, val)]
    case None => es[..n + 1] + [Prop(name, val)] + es[n + 1..]
  }

  /** The tree without that property. */
  ghost function WithoutProp(es: seq<Event>, n: nat, name: seq<byte>): (r: seq<Event>)
    requires n < |es|
  {
    match PropIndex(es, n + 1, name)
    case Some(k) => es[..k] + es[k + 1..]
    case None => es
  }

  /** The event a record stands for. */
  function Shown(t: Token, tab: seq<byte>): (r: Option<Event>) {
    match t
    case TBegin(n) => Some(Begin(n))
    case TEnd => Some(End)
    case TProp(o, v) =>
      var n := StringAt(tab, o % TWO32);
      if n.Some? then Some(Prop(n.value, v)) else None
    case TNop => None
  }

  lemma EventStep(toks: seq<Token>, tab: seq<byte>, k: nat)
    requires Resolve(toks, tab, 0).Some? && k < |toks|
    ensures EventNo(toks, k + 1) == EventNo(toks, k) + (if toks[k].TNop? then 0 else 1)
    ensures EventNo(toks, k) <= |Resolve(toks, tab, 0).value|
    ensures !toks[k].TNop? ==>
      EventNo(toks, k) < |Resolve(toks, tab, 0).value|
      && Shown(toks[k], tab) == Some(Resolve(toks, tab, 0).value[EventNo(toks, k)])
  {
    hide StringAt, Visible;
    ResolveParts(toks, tab, 0, k);
    var es, n := Resolve(toks, tab, 0).value, EventNo(toks, k);
    if !toks[k].TNop? { FirstShown(toks[k..], tab); }
    assert !toks[k].TNop? ==> es[n] == es[n..][0];
    assert toks[..k + 1] == toks[..k] + [toks[k]];
    VisibleAppend(toks[..k], toks[k]);
  }

  lemma FirstShown(toks: seq<Token>, tab: seq<byte>)
    requires toks != [] && Resolve(toks, tab, 0).Some? && !toks[0].TNop?
    ensures Resolve(toks, tab, 0).value != [] && Shown(toks[0], tab) == Some(Resolve(toks, tab, 0).value[0])
  {
  }

  lemma {:induction false} VisibleAppend(a: seq<Token>, t: Token)
    ensures Visible(a + [t]) == Visible(a) + (if t.TNop? then 0 else 1)
  {
    if a == [] {
      assert [] + [t] == [t] && [t][1..] == [];
    } else {
      assert (a + [t])[1..] == a[1..] + [t];
      VisibleAppend(a[1..], t);
    }
  }

  /** Searching the records for a property finds the same one as searching the events. */
  lemma {:induction false} FindIsIndex(toks: seq<Token>, tab: seq<byte>, k: nat, name: seq<byte>)
    requires Resolve(toks, tab, 0).Some? && k <= |toks|
    ensures EventNo(toks, k) <= |Resolve(toks, tab, 0).value|
    ensures PropIndex(Resolve(toks, tab, 0).value, EventNo(toks, k), name) ==
            match FindProp(toks, tab, k, name)
            case Found(j) => Some(EventNo(toks, j))
            case _ => None
    decreases |toks| - k
  {
    hide StringAt, Resolve, Visible;
    if k == |toks| {
      assert toks[..k] == toks;
      VisibleResolved(toks, tab, 0);
    } else {
      EventStep(toks, tab, k);
      if toks[k].TNop? || toks[k].TProp? {
        FindIsIndex(toks, tab, k + 1, name);
      }
    }
  }

  // ----- properties

  /** A property record laid over records i to j. */
  lemma SlotTree(s: seq<byte>, tab: seq<byte>, toks: seq<Token>, i: nat, j: nat,
                 head: seq<byte>, v: seq<byte>, pad: seq<byte>, nameoff: nat, name: seq<byte>)
    requires Block(s, toks) && Resolve(toks, tab, 0).Some? && i <= j <= |toks|
    requires nameoff < TWO32 && 12 + |v| < TWO32 && |v| + |pad| == Align4(|v|) && IsPropHead(head, |v|, nameoff)
    requires StringAt(tab, nameoff) == Some(name)
    ensures OffsetOf(toks, i) <= OffsetOf(toks, j) <= |s|
    ensures EventNo(toks, i) <= |Resolve(toks, tab, 0).value| && EventNo(toks, j) <= |Resolve(toks, tab, 0).value|
    ensures var es := Resolve(toks, tab, 0).value;
            Decode(Replaced(s, OffsetOf(toks, i), OffsetOf(toks, j) - OffsetOf(toks, i), head + (v + pad)), tab)
            == Some(es[..EventNo(toks, i)] + [Prop(name, v)] + es[EventNo(toks, j)..])
  {
    hide Block, Visible, Size, Replaced, Decode, Spells, Align4, IsPropHead;
    var t := TProp(nameoff, v);
    HeadedSpells(head, nameoff, v, pad);
    OneRecord(head + (v + pad), t);
    OneResolved(t, tab, name);
    EditTree(s, tab, toks, i, j, head + (v + pad), [t]);
  }

  lemma OneResolved(t: Token, tab: seq<byte>, name: seq<byte>)
    requires t.TProp? && t.nameoff < TWO32 && StringAt(tab, t.nameoff) == Some(name)
    ensures Resolve([t], tab, 0) == Some([Prop(name, t.val)])
  {
    hide StringAt;
    assert [t][1..] == [] && Resolve([], tab, 0) == Some([]);
    assert [Prop(name, t.val)] + [] == [Prop(name, t.val)];
  }

  /** Where a property record stands ready for its value: `head` and `mid` in place of the `gone` bytes at `o`. */
  ghost predicate Slot(s: seq<byte>, s': seq<byte>, o: nat, gone: nat, head: seq<byte>, mid: seq<byte>, len: nat, nameoff: nat) {
    && o + gone <= |s| && s' == Replaced(s, o, gone, head + mid)
    && nameoff < TWO32 && IsPropHead(head, len, nameoff) && |mid| == Align4(len)
  }

  lemma SlotName(s: seq<byte>, s': seq<byte>, o: nat, gone: nat, head: seq<byte>, mid: seq<byte>, len: nat, nameoff: nat)
    requires Slot(s, s', o, gone, head, mid, len, nameoff)
    ensures nameoff < TWO32 && nameoff % TWO32 == nameoff && o + 12 + len <= |s'|
  {
  }

  /** Storing the value completes the record. */
  lemma SlotFilled(s: seq<byte>, s': seq<byte>, o: nat, gone: nat, head: seq<byte>, mid: seq<byte>, len: nat, nameoff: nat, v: seq<byte>)
    requires Slot(s, s', o, gone, head, mid, len, nameoff) && |v| == len
    ensures o + 12 + len <= |s'| && Overwrite(s', o + 12, v) == Replaced(s, o, gone, head + (v + mid[len..]))
  {
    hide Replaced, IsPropHead;
    HeadLength(head, len, nameoff);
    OverwriteReplaced(s, o, gone, head + mid, 12, v);
    assert Overwrite(head + mid, 12, v) == head + (v + mid[len..]);
  }

  lemma HeadLength(h: seq<byte>, len: nat, nameoff: nat)
    requires IsPropHead(h, len, nameoff)
    ensures |h| == 12
  {
  }

  /** The old head of a property with its length field overwritten. */
  lemma ResizedHead(s: seq<byte>, o: nat, oldlen: nat, gone: nat, len: nat, nameoff: nat, mid: seq<byte>)
    requires len < TWO32 && o + 12 + gone <= |s| && |mid| == Align4(len)
    requires nameoff < TWO32 && IsPropHead(s[o..o + 12], oldlen, nameoff)
    ensures o + 8 <= |Replaced(s, o + 12, gone, mid)|
    ensures Slot(s, Overwrite(Replaced(s, o + 12, gone, mid), o + 4, WordBytes(len)), o, 12 + gone,
                 Overwrite(s[o..o + 12], 4, WordBytes(len)), mid, len, nameoff)
  {
    hide Replaced, Overwrite, IsPropHead, WordBytes, Align4;
    var h := s[o..o + 12];
    NewLength(h, oldlen, len, nameoff);
    HeadAndGap(s, o, gone, mid);
    OverwriteReplaced(s, o, 12 + gone, h + mid, 4, WordBytes(len));
    OverwriteLeft(h, mid, 4, WordBytes(len));
  }

  lemma NewLength(h: seq<byte>, oldlen: nat, len: nat, nameoff: nat)
    requires len < TWO32 && IsPropHead(h, oldlen, nameoff)
    ensures IsPropHead(Overwrite(h, 4, WordBytes(len)), len, nameoff)
  {
    var w := WordBytes(len);
    var h' := Overwrite(h, 4, w);
    assert h'[..4] == h[..4] && h'[4..8] == w && h'[8..] == h[8..];
    assert WordAt(h', 0) == WordAt(h[..4], 0) && WordAt(h', 8) == WordAt(h[8..], 0);
  }

  /** The gap behind a head, seen from where the head begins. */
  lemma HeadAndGap(s: seq<byte>, o: nat, gone: nat, mid: seq<byte>)
    requires o + 12 + gone <= |s|
    ensures Replaced(s, o + 12, gone, mid) == Replaced(s, o, 12 + gone, s[o..o + 12] + mid)
  {
    assert s[..o + 12] == s[..o] + s[o..o + 12];
  }

  lemma OverwriteLeft(h: seq<byte>, mid: seq<byte>, at: nat, w: seq<byte>)
    requires at + |w| <= |h|
    ensures Overwrite(h + mid, at, w) == Overwrite(h, at, w) + mid
  {
    assert (h + mid)[..at] == h[..at] && (h + mid)[at + |w|..] == h[at + |w|..] + mid;
  }

  /** The splice and the new length of fdt_resize_property_, for the property at record `k`. */
  method ResizeAt(fdt: Blob, prop: nat, oldlen: nat, len: nat, ghost nameoff: nat)
    returns (err: int, ghost head: seq<byte>, ghost mid: seq<byte>)
    requires Ordered(fdt) && len + 16 <= INT_MAX && prop + 12 + Align4(oldlen) <= fdt.sizeStruct
    requires nameoff < TWO32 && IsPropHead(fdt.StructBlock()[prop..prop + 12], oldlen, nameoff)
    modifies fdt`sizeStruct, fdt`offStrings, fdt.buf
    ensures Front(fdt) == old(Front(fdt)) && Ordered(fdt) && fdt.Strings() == old(fdt.Strings())
    ensures err == if fdt.sizeStrings + old(fdt.offStrings) - Align4(oldlen) + Align4(len) > fdt.totalsize then -NOSPACE else 0
    ensures err != 0 ==> fdt.StructBlock() == old(fdt.StructBlock()) && fdt.offStrings == old(fdt.offStrings)
    ensures err == 0 ==>
      Slot(old(fdt.StructBlock()), fdt.StructBlock(), prop, 12 + Align4(oldlen), head, mid, len, nameoff)
  {
    hide Slot, Replaced, Overwrite, IsPropHead;
    ghost var s := fdt.StructBlock();
    head := [];
    err, mid := SpliceStruct(fdt, prop + 12, Align4(oldlen), Align4(len));
    if err == 0 {
      ResizedHead(s, prop, oldlen, Align4(oldlen), len, nameoff, mid);
      PutFinished(fdt, prop + 4, WordBytes(len));
      head := Overwrite(s[prop..prop + 12], 4, WordBytes(len));
    }
  }

  /** fdt_resize_property_ */
  method ResizeProperty(fdt: Blob, nodeoffset: int, name: seq<byte>, len: nat, ghost toks: seq<Token>, ghost i: nat)
    returns (err: int, prop: nat, ghost k: nat, ghost head: seq<byte>, ghost mid: seq<byte>)
    requires Ordered(fdt) && len + 16 <= INT_MAX && Block(fdt.StructBlock(), toks)
    requires i <= |toks| && nodeoffset == OffsetOf(toks, i)
    modifies fdt`sizeStruct, fdt`offStrings, fdt.buf
    ensures Front(fdt) == old(Front(fdt)) && Ordered(fdt) && fdt.Strings() == old(fdt.Strings())
    ensures err != 0 ==> fdt.StructBlock() == old(fdt.StructBlock()) && fdt.offStrings == old(fdt.offStrings)
    ensures if i == |toks| || !toks[i].TBegin? then err == -BADOFFSET
            else
              match FindProp(toks, fdt.Strings(), i + 1, name)
              case Found(j) =>
                && k == j && prop == OffsetOf(toks, k)
                && err == (if fdt.sizeStrings + old(fdt.offStrings) - Align4(|toks[k].val|) + Align4(len) > fdt.totalsize
                           then -NOSPACE else 0)
                && (err == 0 ==> Slot(old(fdt.StructBlock()), fdt.StructBlock(), prop, TokSize(toks[k]), head, mid, len, toks[k].nameoff))
              case Missing => err == -NOTFOUND
              case Broken => err == -BADSTRUCTURE
  {
    hide Block, OffsetOf, FindProp, Slot, StringAt, IsPropHead;
    prop, k, head, mid := 0, 0, [], [];
    var p, oldlen := GetProperty(fdt, nodeoffset, name, toks, i);
    if p.None? {
      return oldlen, 0, 0, [], [];
    }
    prop, k := p.value, FindProp(toks, fdt.Strings(), i + 1, name).k;
    PropBytes(fdt.StructBlock(), toks, k);
    err, head, mid := ResizeAt(fdt, prop, oldlen, len, toks[k].nameoff);
  }

  /** The bytes at the start of a property record. */
  lemma PropBytes(s: seq<byte>, toks: seq<Token>, k: nat)
    requires Block(s, toks) && k < |toks| && toks[k].TProp?
    ensures var o := OffsetOf(toks, k);
            && TokSize(toks[k]) == 12 + Align4(|toks[k].val|) && o + TokSize(toks[k]) <= |s|
            && toks[k].nameoff < TWO32 && IsPropHead(s[o..o + 12], |toks[k].val|, toks[k].nameoff)
  {
    hide NextTagOf, Spells, IsPropHead, WordAt, Align4, Records;
    var o := OffsetOf(toks, k);
    BlockDrop(s, toks, k);
    NextTagInBlock(s, o, toks[k..]);
    assert Spells(s[o..o + TokSize(toks[k])], toks[k]);
    HeadBytes(s[o..o + TokSize(toks[k])], toks[k]);
    SliceSlice(s, o, o + TokSize(toks[k]), 0, 12);
  }

  lemma HeadBytes(x: seq<byte>, t: Token)
    requires Spells(x, t) && t.TProp?
    ensures TokSize(t) == 12 + Align4(|t.val|) && 12 <= |x| && t.nameoff < TWO32 && IsPropHead(x[0..12], |t.val|, t.nameoff)
  {
    hide Align4;
    var h := x[0..12];
    assert WordAt(h, 0) == WordAt(x, 0) && WordAt(h, 4) == WordAt(x, 4) && WordAt(h, 8) == WordAt(x, 8);
  }

  function Room(size: int, total: int): (err: int) {
    if size > total then -NOSPACE else 0
  }

  /** The bytes that a name adds to a table: none when it is there already, even inside another string. */
  ghost function NameCost(tab: seq<byte>, name: seq<byte>): (n: nat) {
    if InTable(tab, name) then 0 else |name| + 1
  }

  /** fdt_add_property_: the new property comes first in its node. */
  method AddProperty(fdt: Blob, nodeoffset: int, name: seq<byte>, len: nat, ghost toks: seq<Token>, ghost i: nat)
    returns (err: int, prop: nat, ghost head: seq<byte>, ghost mid: seq<byte>, ghost nameoff: nat)
    requires WellFormed(fdt) && IsName(name) && len + 16 <= INT_MAX && Block(fdt.StructBlock(), toks)
    requires i < |toks| && toks[i].TBegin? && nodeoffset == OffsetOf(toks, i)
    modifies fdt`sizeStruct, fdt`offStrings, fdt`sizeStrings, fdt.buf
    ensures Front(fdt) == old(Front(fdt)) && Ordered(fdt)
    ensures err == Room(old(fdt.offStrings + fdt.sizeStrings) + 12 + Align4(len) + NameCost(old(fdt.Strings()), name), fdt.totalsize)
    ensures err != 0 ==> fdt.StructBlock() == old(fdt.StructBlock()) && fdt.Strings() == old(fdt.Strings())
    ensures err == 0 ==>
      && Decode(old(fdt.StructBlock()), fdt.Strings()) == Some(old(Tree(fdt)))
      && prop == OffsetOf(toks, i + 1)
      && StringAt(fdt.Strings(), nameoff) == Some(name)
      && Slot(old(fdt.StructBlock()), fdt.StructBlock(), prop, 0, head, mid, len, nameoff)
  {
    hide Block, OffsetOf, Slot, StringAt, Decode, InTable, Align4, NodeCheck, Parse, IsName;
    ghost var s, tab := fdt.StructBlock(), fdt.Strings();
    prop, head, mid, nameoff := 0, [], [], 0;
    NodeCheckAt(fdt.StructBlock(), toks, i);
    var next := CheckNodeOffset(fdt, nodeoffset);
    OffsetInBlock(s, toks, i + 1);
    var r, added := FindAddString(fdt, name);
    if r < 0 {
      TakeBack(tab, name);
      return r, 0, [], [], 0;
    }
    prop, nameoff := next, r;
    err, head, mid := InsertOrUndo(fdt, prop, len, r, name, added, tab);
  }

  /** The second half of fdt_add_property_: a new name is taken out again when the record has no room. */
  method InsertOrUndo(fdt: Blob, prop: nat, len: nat, nameoff: u32, name: seq<byte>, added: bool, ghost tab: seq<byte>)
    returns (err: int, ghost head: seq<byte>, ghost mid: seq<byte>)
    requires Ordered(fdt) && len + 16 <= INT_MAX && prop <= fdt.sizeStruct
    requires fdt.Strings() == tab + (if added then name + [0] else [])
    modifies fdt`sizeStruct, fdt`offStrings, fdt`sizeStrings, fdt.buf
    ensures Front(fdt) == old(Front(fdt)) && Ordered(fdt)
    ensures err == if old(fdt.offStrings + fdt.sizeStrings) + 12 + Align4(len) > fdt.totalsize then -NOSPACE else 0
    ensures err != 0 ==> fdt.StructBlock() == old(fdt.StructBlock()) && fdt.Strings() == tab
    ensures err == 0 ==> fdt.Strings() == old(fdt.Strings())
                         && Slot(old(fdt.StructBlock()), fdt.StructBlock(), prop, 0, head, mid, len, nameoff)
  {
    hide Slot;
    err, head, mid := InsertHead(fdt, prop, len, nameoff);
    if err != 0 {
      if added {
        DelLastString(fdt, name);
      }
      TakeBack(tab, name);
    }
  }

  lemma TakeBack(tab: seq<byte>, name: seq<byte>)
    ensures (tab + (name + [0]))[..|tab|] == tab && tab + [] == tab
  {
  }

  lemma OffsetInBlock(s: seq<byte>, toks: seq<Token>, i: nat)
    requires Block(s, toks) && i <= |toks|
    ensures OffsetOf(toks, i) + 4 <= |s|
  {
    hide Block, Records;
    BlockDrop(s, toks, i);
    BlockLength(s[Size(toks[..i])..], toks[i..]);
  }

  lemma BlockLength(s: seq<byte>, toks: seq<Token>)
    requires Block(s, toks)
    ensures |s| >= 4
  {
  }

  /** Make room for a property record and write its head. */
  method InsertHead(fdt: Blob, prop: nat, len: nat, nameoff: u32) returns (err: int, ghost head: seq<byte>, ghost mid: seq<byte>)
    requires Ordered(fdt) && len + 16 <= INT_MAX && prop <= fdt.sizeStruct
    modifies fdt`sizeStruct, fdt`offStrings, fdt.buf
    ensures Front(fdt) == old(Front(fdt)) && Ordered(fdt) && fdt.Strings() == old(fdt.Strings())
    ensures err == if fdt.sizeStrings + old(fdt.offStrings) + 12 + Align4(len) > fdt.totalsize then -NOSPACE else 0
    ensures err != 0 ==> fdt.StructBlock() == old(fdt.StructBlock()) && fdt.offStrings == old(fdt.offStrings)
    ensures err == 0 ==> Slot(old(fdt.StructBlock()), fdt.StructBlock(), prop, 0, head, mid, len, nameoff)
  {
    hide Replaced, Overwrite, PropHead;
    ghost var s := fdt.StructBlock();
    head, mid := [], [];
    ghost var gap;
    err, gap := SpliceStruct(fdt, prop, 0, 12 + Align4(len));
    if err == 0 {
      head, mid := PropHead(len, nameoff), gap[12..];
      PutFinished(fdt, prop, PropHead(len, nameoff));
      OverwriteReplaced(s, prop, 0, gap, 0, head);
      OverwriteFront(gap, head);
    }
  }

  lemma OverwriteFront(g: seq<byte>, h: seq<byte>)
    requires |h| <= |g|
    ensures Overwrite(g, 0, h) == h + g[|h|..]
  {
  }

  /** Whatever value is stored, the tree is the old one with just that property of that node set. */
  ghost predicate Settable(s': seq<byte>, tab: seq<byte>, prop: nat, es: seq<Event>, n: nat, name: seq<byte>, len: nat) {
    && n < |es| && prop + 12 + len <= |s'|
    && forall v: seq<byte> | |v| == len :: Decode(Overwrite(s', prop + 12, v), tab) == Some(WithProp(es, n, name, v))
  }

  /** The node that an editing function is given begins record `i`. A blob that the probe rejects may be anything. */
  ghost predicate Editable(fdt: Blob, nodeoffset: int, i: nat)
    reads fdt, fdt.buf
  {
    RwError(fdt) == 0 ==> WellFormed(fdt) && i <= |Tokens(fdt)| && nodeoffset == OffsetOf(Tokens(fdt), i)
  }

  /** What setting a property of `len` bytes at record `i` answers when `used` of `total` bytes are taken: an existing
      property changes its length, a new one brings its head and, unless it is shared, its name. */
  ghost function SetError(toks: seq<Token>, tab: seq<byte>, i: nat, name: seq<byte>, len: nat, used: nat, total: nat): (err: int)
    requires i <= |toks|
  {
    if i == |toks| || !toks[i].TBegin? then -BADOFFSET
    else
      var f := FindProp(toks, tab, i + 1, name);
      if f.Found? then Room(used - Align4(|toks[f.k].val|) + Align4(len), total)
      else if f.Missing? then Room(used + 12 + Align4(len) + NameCost(tab, name), total)
      else -BADSTRUCTURE
  }

  /** fdt_setprop_placeholder */
  method SetPropPlaceholder(fdt: Blob, nodeoffset: int, name: seq<byte>, len: nat, ghost i: nat) returns (err: int, prop: nat)
    requires IsName(name) && len + 16 <= INT_MAX && Editable(fdt, nodeoffset, i)
    modifies fdt`version, fdt`sizeStruct, fdt`offStrings, fdt`sizeStrings, fdt.buf
    ensures old(RwError(fdt)) != 0 ==> err == old(RwError(fdt)) && unchanged(fdt, fdt.buf)
    ensures old(RwError(fdt)) == 0 ==>
      && Ordered(fdt) && Front(fdt) == old(Front(fdt))
      && err == SetError(old(Tokens(fdt)), old(fdt.Strings()), i, name, len, old(fdt.offStrings + fdt.sizeStrings), fdt.totalsize)
      && (err != 0 ==> fdt.StructBlock() == old(fdt.StructBlock()) && fdt.Strings() == old(fdt.Strings()))
      && (err == 0 ==>
            Settable(fdt.StructBlock(), fdt.Strings(), prop, old(Tree(fdt)), EventNo(old(Tokens(fdt)), i), name, len))
  {
    hide Block, Resolve, OffsetOf, EventNo, Slot, StringAt, Decode, FindProp, Settable, RwError, InTable, Align4;
    prop := 0;
    err := RwProbe(fdt);
    if err != 0 {
      return;
    }
    ghost var toks, s, tab := old(Tokens(fdt)), fdt.StructBlock(), fdt.Strings();
    ghost var k, head, mid;
    err, prop, k, head, mid := ResizeProperty(fdt, nodeoffset, name, len, toks, i);
    if err == 0 {
      ResizedTree(s, fdt.StructBlock(), tab, toks, i, k, head, mid, name, len);
    } else if err == -NOTFOUND {
      ghost var nameoff;
      err, prop, head, mid, nameoff := AddProperty(fdt, nodeoffset, name, len, toks, i);
      if err == 0 {
        AddedTree(s, fdt.StructBlock(), tab, fdt.Strings(), toks, i, head, mid, nameoff, name, len);
      }
    }
  }

  /** fdt_setprop: on success the tree has just that property of that node set; on any error, including
      a full buffer after the name was added and taken out again, the tree is what it was. */
  method SetProp(fdt: Blob, nodeoffset: int, name: seq<byte>, val: seq<byte>, ghost i: nat) returns (err: int)
    requires IsName(name) && |val| + 16 <= INT_MAX && Editable(fdt, nodeoffset, i)
    modifies fdt`version, fdt`sizeStruct, fdt`offStrings, fdt`sizeStrings, fdt.buf
    ensures old(RwError(fdt)) != 0 ==> err == old(RwError(fdt)) && unchanged(fdt, fdt.buf)
    ensures old(RwError(fdt)) == 0 ==>
      && WellFormed(fdt) && Front(fdt) == old(Front(fdt))
      && err == SetError(old(Tokens(fdt)), old(fdt.Strings()), i, name, |val|, old(fdt.offStrings + fdt.sizeStrings), fdt.totalsize)
      && (err != 0 ==> Tree(fdt) == old(Tree(fdt)))
      && (err == 0 ==>
            && EventNo(old(Tokens(fdt)), i) < |old(Tree(fdt))|
            && Tree(fdt) == WithProp(old(Tree(fdt)), EventNo(old(Tokens(fdt)), i), name, val))
  {
    hide Block, Resolve, OffsetOf, EventNo, Decode, WithProp, Overwrite, RwError, SetError;
    var prop;
    err, prop := SetPropPlaceholder(fdt, nodeoffset, name, |val|, i);
    if err != 0 {
      return;
    }
    PutFinished(fdt, prop + 12, val);
  }

  lemma SlotTreeFilled(s: seq<byte>, s': seq<byte>, tab: seq<byte>, toks: seq<Token>, i: nat, j: nat,
                       head: seq<byte>, mid: seq<byte>, nameoff: nat, name: seq<byte>, val: seq<byte>)
    requires Block(s, toks) && Resolve(toks, tab, 0).Some? && i <= j <= |toks| && |val| + 16 <= INT_MAX
    requires StringAt(tab, nameoff) == Some(name) && OffsetOf(toks, i) <= OffsetOf(toks, j)
    requires Slot(s, s', OffsetOf(toks, i), OffsetOf(toks, j) - OffsetOf(toks, i), head, mid, |val|, nameoff)
    ensures OffsetOf(toks, i) + 12 + |val| <= |s'|
    ensures EventNo(toks, i) <= |Resolve(toks, tab, 0).value| && EventNo(toks, j) <= |Resolve(toks, tab, 0).value|
    ensures var es := Resolve(toks, tab, 0).value;
            Decode(Overwrite(s', OffsetOf(toks, i) + 12, val), tab)
            == Some(es[..EventNo(toks, i)] + [Prop(name, val)] + es[EventNo(toks, j)..])
  {
    hide Block, Resolve, OffsetOf, EventNo, StringAt, Decode, IsPropHead, Replaced, Overwrite;
    SlotFilled(s, s', OffsetOf(toks, i), OffsetOf(toks, j) - OffsetOf(toks, i), head, mid, |val|, nameoff, val);
    SlotTree(s, tab, toks, i, j, head, val, mid[|val|..], nameoff, name);
  }

  lemma ResizedTree(s: seq<byte>, s': seq<byte>, tab: seq<byte>, toks: seq<Token>, i: nat, k: nat,
                    head: seq<byte>, mid: seq<byte>, name: seq<byte>, len: nat)
    requires Block(s, toks) && Resolve(toks, tab, 0).Some? && i < |toks| && toks[i].TBegin? && len + 16 <= INT_MAX
    requires FindProp(toks, tab, i + 1, name) == Found(k)
    requires Slot(s, s', OffsetOf(toks, k), TokSize(toks[k]), head, mid, len, toks[k].nameoff)
    ensures Settable(s', tab, OffsetOf(toks, k), Resolve(toks, tab, 0).value, EventNo(toks, i), name, len)
  {
    hide Block, Resolve, OffsetOf, EventNo, StringAt, Decode, IsPropHead, Replaced, Overwrite, FindProp, PropIndex, Slot;
    var es := Resolve(toks, tab, 0).value;
    EventStep(toks, tab, i);
    FindIsIndex(toks, tab, i + 1, name);
    EventStep(toks, tab, k);
    OffsetStep(toks, k);
    SlotName(s, s', OffsetOf(toks, k), TokSize(toks[k]), head, mid, len, toks[k].nameoff);
    var n := EventNo(toks, k);
    forall v: seq<byte> | |v| == len
      ensures Decode(Overwrite(s', OffsetOf(toks, k) + 12, v), tab) == Some(WithProp(es, EventNo(toks, i), name, v))
    {
      SlotTreeFilled(s, s', tab, toks, k, k + 1, head, mid, toks[k].nameoff, name, v);
      assert es[..n] + [Prop(name, v)] + es[n + 1..] == es[n := Prop(name, v)];
    }
  }

  lemma AddedTree(s: seq<byte>, s': seq<byte>, tab: seq<byte>, tab': seq<byte>, toks: seq<Token>, i: nat,
                  head: seq<byte>, mid: seq<byte>, nameoff: nat, name: seq<byte>, len: nat)
    requires Block(s, toks) && Resolve(toks, tab, 0).Some? && i < |toks| && toks[i].TBegin? && len + 16 <= INT_MAX
    requires FindProp(toks, tab, i + 1, name) == Missing && Decode(s, tab') == Some(Resolve(toks, tab, 0).value)
    requires StringAt(tab', nameoff) == Some(name)
    requires Slot(s, s', OffsetOf(toks, i + 1), 0, head, mid, len, nameoff)
    ensures Settable(s', tab', OffsetOf(toks, i + 1), Resolve(toks, tab, 0).value, EventNo(toks, i), name, len)
  {
    hide Block, Resolve, OffsetOf, EventNo, StringAt, Decode, IsPropHead, Replaced, Overwrite, FindProp, PropIndex, Slot, WithProp;
    DecodesTo(s, tab', toks);
    EventStep(toks, tab, i);
    FindIsIndex(toks, tab, i + 1, name);
    SlotName(s, s', OffsetOf(toks, i + 1), 0, head, mid, len, nameoff);
    var es := Resolve(toks, tab, 0).value;
    forall v: seq<byte> | |v| == len
      ensures Decode(Overwrite(s', OffsetOf(toks, i + 1) + 12, v), tab') == Some(WithProp(es, EventNo(toks, i), name, v))
    {
      SlotTreeFilled(s, s', tab', toks, i + 1, i + 1, head, mid, nameoff, name, v);
      Inserted(es, EventNo(toks, i), name, v);
    }
  }

  /** A property that a node lacks becomes its first. */
  lemma Inserted(es: seq<Event>, n: nat, name: seq<byte>, v: seq<byte>)
    requires n < |es| && PropIndex(es, n + 1, name).None?
    ensures WithProp(es, n, name, v) == es[..n + 1] + [Prop(name, v)] + es[n + 1..]
  {
    hide PropIndex;
  }

  /** fdt_delprop */
  method DelProp(fdt: Blob, nodeoffset: int, name: seq<byte>, ghost i: nat) returns (err: int)
    requires Editable(fdt, nodeoffset, i)
    modifies fdt`version, fdt`sizeStruct, fdt`offStrings, fdt.buf
    ensures old(RwError(fdt)) != 0 ==> err == old(RwError(fdt)) && unchanged(fdt, fdt.buf)
    ensures old(RwError(fdt)) == 0 ==>
      && WellFormed(fdt) && Front(fdt) == old(Front(fdt)) && fdt.Strings() == old(fdt.Strings())
      && (err != 0 ==> Tree(fdt) == old(Tree(fdt)))
      && if i == |old(Tokens(fdt))| || !old(Tokens(fdt))[i].TBegin? then err == -BADOFFSET
         else
           && EventNo(old(Tokens(fdt)), i) < |old(Tree(fdt))|
           && (err == 0 <==> PropIndex(old(Tree(fdt)), EventNo(old(Tokens(fdt)), i) + 1, name).Some?)
           && (err == 0 ==> Tree(fdt) == WithoutProp(old(Tree(fdt)), EventNo(old(Tokens(fdt)), i), name))
  {
    hide Decode, Block, OffsetOf, EventNo, PropIndex, WithoutProp, RwError, Ordered, Finished;
    err := RwProbe(fdt);
    if err == 0 {
      err := DelPropProbed(fdt, nodeoffset, name, i);
    }
  }

  /** The part of fdt_delprop behind the probe. */
  method DelPropProbed(fdt: Blob, nodeoffset: int, name: seq<byte>, ghost i: nat) returns (err: int)
    requires WellFormed(fdt) && i <= |Tokens(fdt)| && nodeoffset == OffsetOf(Tokens(fdt), i)
    modifies fdt`sizeStruct, fdt`offStrings, fdt.buf
    ensures WellFormed(fdt) && Front(fdt) == old(Front(fdt)) && fdt.Strings() == old(fdt.Strings())
    ensures err != 0 ==> Tree(fdt) == old(Tree(fdt))
    ensures if i == |old(Tokens(fdt))| || !old(Tokens(fdt))[i].TBegin? then err == -BADOFFSET
            else
              && EventNo(old(Tokens(fdt)), i) < |old(Tree(fdt))|
              && (err == 0 <==> PropIndex(old(Tree(fdt)), EventNo(old(Tokens(fdt)), i) + 1, name).Some?)
              && (err == 0 ==> Tree(fdt) == WithoutProp(old(Tree(fdt)), EventNo(old(Tokens(fdt)), i), name))
  {
    hide Block, Resolve, OffsetOf, EventNo, StringAt, Decode, FindProp, PropIndex, WithoutProp, Parse, Align4;
    ghost var toks, s, tab := Tokens(fdt), fdt.StructBlock(), fdt.Strings();
    var prop, len := GetProperty(fdt, nodeoffset, name, toks, i);
    if i < |toks| && toks[i].TBegin? {
      WithoutIsCut(s, tab, toks, i, name);
    }
    if prop.None? {
      return len;
    }
    ghost var k := FindProp(toks, tab, i + 1, name).k;
    err := CutRecords(fdt, prop.value, 12 + Align4(len), toks, k, k + 1);
  }

  /** Removing the property from the tree is cutting its record. */
  lemma WithoutIsCut(s: seq<byte>, tab: seq<byte>, toks: seq<Token>, i: nat, name: seq<byte>)
    requires Block(s, toks) && Resolve(toks, tab, 0).Some? && i < |toks| && toks[i].TBegin?
    ensures EventNo(toks, i) < |Resolve(toks, tab, 0).value|
    ensures var es, n := Resolve(toks, tab, 0).value, EventNo(toks, i);
            && (PropIndex(es, n + 1, name).Some? <==> FindProp(toks, tab, i + 1, name).Found?)
            && (FindProp(toks, tab, i + 1, name).Found? ==>
                  && var k := FindProp(toks, tab, i + 1, name).k;
                  && OffsetOf(toks, k + 1) == OffsetOf(toks, k) + 12 + Align4(|toks[k].val|)
                  && EventNo(toks, k + 1) == EventNo(toks, k) + 1 <= |es|
                  && WithoutProp(es, n, name) == es[..EventNo(toks, k)] + es[EventNo(toks, k + 1)..])
  {
    hide Block, Resolve, OffsetOf, EventNo, StringAt, FindProp, PropIndex;
    EventStep(toks, tab, i);
    FindIsIndex(toks, tab, i + 1, name);
    if FindProp(toks, tab, i + 1, name).Found? {
      var k := FindProp(toks, tab, i + 1, name).k;
      PropBytes(s, toks, k);
      OffsetStep(toks, k);
      EventStep(toks, tab, k);
    }
  }

  /** Splice records i to j out of the structure block. */
  method CutRecords(fdt: Blob, o: nat, len: nat, ghost toks: seq<Token>, ghost i: nat, ghost j: nat) returns (err: int)
    requires WellFormed(fdt) && Block(fdt.StructBlock(), toks) && i <= j <= |toks|
    requires o == OffsetOf(toks, i) && o + len == OffsetOf(toks, j)
    modifies fdt`sizeStruct, fdt`offStrings, fdt.buf
    ensures err == 0 && WellFormed(fdt) && Front(fdt) == old(Front(fdt)) && fdt.Strings() == old(fdt.Strings())
    ensures o + len <= |old(fdt.StructBlock())| && fdt.StructBlock() == Replaced(old(fdt.StructBlock()), o, len, [])
    ensures EventNo(toks, i) <= |old(Tree(fdt))| && EventNo(toks, j) <= |old(Tree(fdt))|
    ensures Tree(fdt) == old(Tree(fdt))[..EventNo(toks, i)] + old(Tree(fdt))[EventNo(toks, j)..]
  {
    hide Block, Resolve, OffsetOf, EventNo, Decode, Replaced, Parse;
    ghost var s, tab := fdt.StructBlock(), fdt.Strings();
    DecodesTo(s, tab, toks);
    CutTree(s, tab, toks, i, j);
    ghost var mid;
    err, mid := SpliceStruct(fdt, o, len, 0);
    assert mid == [];
    assert fdt.StructBlock() == Replaced(s, o, len, []);
  }

  /** Cutting records out. */
  lemma CutTree(s: seq<byte>, tab: seq<byte>, toks: seq<Token>, i: nat, j: nat)
    requires Block(s, toks) && Resolve(toks, tab, 0).Some? && i <= j <= |toks|
    ensures OffsetOf(toks, i) <= OffsetOf(toks, j) <= |s|
    ensures EventNo(toks, i) <= |Resolve(toks, tab, 0).value| && EventNo(toks, j) <= |Resolve(toks, tab, 0).value|
    ensures var es := Resolve(toks, tab, 0).value;
            Decode(Replaced(s, OffsetOf(toks, i), OffsetOf(toks, j) - OffsetOf(toks, i), []), tab)
            == Some(es[..EventNo(toks, i)] + es[EventNo(toks, j)..])
  {
    hide Block, Decode, Replaced, OffsetOf, EventNo;
    EditTree(s, tab, toks, i, j, [], []);
    var es := Resolve(toks, tab, 0).value;
    assert es[..EventNo(toks, i)] + [] == es[..EventNo(toks, i)];
  }
}
