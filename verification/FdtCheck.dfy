/** Validating a finished blob (fdt/fdt.c, fdt/fdt_ro.c): fdt_check_full accepts exactly the blobs
    that decode to properly nested events. */
module FdtCheck {
  import opened Bytes
  import opened FdtFormat
  import opened Wrappers
  import opened FdtBlob

  /** fdt_ro_probe_: the total size, or an error. */
  function RoProbe(fdt: Blob): (r: int)
    reads fdt
  {
    if fdt.magic == MAGIC && (fdt.version < FIRST_VERSION || fdt.lastComp > LAST_VERSION) then -BADVERSION
    else if fdt.magic == SW_MAGIC && fdt.sizeStruct == 0 then -BADSTATE
    else if fdt.magic != MAGIC && fdt.magic != SW_MAGIC then -BADMAGIC
    else if fdt.totalsize < INT_MAX then fdt.totalsize
    else -TRUNCATED
  }

  /** A blob that fdt_ro_probe_ accepts as complete, whose structure and strings blocks lie apart in it,
      in whatever order. */
  ghost predicate Finished(fdt: Blob)
    reads fdt
  {
    && fdt.magic == MAGIC && fdt.lastComp <= LAST_VERSION && fdt.totalsize < INT_MAX
    && fdt.HasStruct() && fdt.HasStrings()
    && (fdt.offStruct + fdt.sizeStruct <= fdt.offStrings || fdt.offStrings + fdt.sizeStrings <= fdt.offStruct)
  }

  predicate CheckOff(hdrsize: u32, total: u32, off: u32) {
    hdrsize <= off <= total
  }

  predicate CheckBlock(hdrsize: u32, total: u32, base: u32, size: u32) {
    CheckOff(hdrsize, total, base) && !(U32(base + size) < base) && CheckOff(hdrsize, total, U32(base + size))
  }

  function HeaderSize(version: u32): (n: u32) {
    if version <= 1 then 28 else if version <= 2 then 32 else if version <= 16 then 36 else HEADER_SIZE
  }

  /** fdt_check_header */
  function CheckHeader(fdt: Blob): (err: int)
    reads fdt
    ensures err == 0 && fdt.version >= 17 && fdt.totalsize <= fdt.buf.Length ==> fdt.HasStruct() && fdt.HasStrings()
  {
    var h := HeaderSize(fdt.version);
    if fdt.magic != MAGIC then -BADMAGIC
    else if fdt.version < FIRST_VERSION || fdt.lastComp > LAST_VERSION || fdt.version < fdt.lastComp then -BADVERSION
    else if fdt.totalsize < h || fdt.totalsize > INT_MAX then -TRUNCATED
    else if !CheckOff(h, fdt.totalsize, fdt.offRsvmap) then -TRUNCATED
    else if fdt.version < 17 && !CheckOff(h, fdt.totalsize, fdt.offStruct) then -TRUNCATED
    else if fdt.version >= 17 && !CheckBlock(h, fdt.totalsize, fdt.offStruct, fdt.sizeStruct) then -TRUNCATED
    else if !CheckBlock(h, fdt.totalsize, fdt.offStrings, fdt.sizeStrings) then -TRUNCATED
    else 0
  }

  /** A header is valid exactly when magic and versions are right and every block begins behind the header of its
      version and ends in the blob, no sum of an offset and a size having wrapped. */
  lemma CheckHeaderExact(fdt: Blob)
    ensures CheckHeader(fdt) == 0 <==>
              var h := if fdt.version <= 1 then 28 else if fdt.version == 2 then 32 else if fdt.version <= 16 then 36 else 40;
              && fdt.magic == 0xd00d_feed && 2 <= fdt.version && fdt.lastComp <= 17 && fdt.lastComp <= fdt.version
              && h <= fdt.totalsize < 0x8000_0000 && h <= fdt.offRsvmap <= fdt.totalsize
              && h <= fdt.offStruct <= fdt.totalsize && (fdt.version >= 17 ==> fdt.offStruct + fdt.sizeStruct <= fdt.totalsize)
              && h <= fdt.offStrings && fdt.offStrings + fdt.sizeStrings <= fdt.totalsize
  {
  }

  /** Entry `n` of the reserve map lies inside the blob, where a signed 32-bit offset reaches it, and its
      64-bit size is zero. */
  ghost predicate EndsReserve(fdt: Blob, n: nat)
    reads fdt, fdt.buf
    requires fdt.totalsize <= fdt.buf.Length
  {
    var o := fdt.offRsvmap + 16 * n;
    o <= INT_MAX && o + 16 <= fdt.totalsize && forall i | o + 8 <= i < o + 16 :: fdt.buf[i] == 0
  }

  /** fdt_num_mem_rsv. The offset is a signed integer: compared with the size as an unsigned one, a negative
      offset is too large. */
  method NumMemRsv(fdt: Blob) returns (r: int)
    requires 16 <= fdt.totalsize <= fdt.buf.Length
    ensures r >= 0 ==> EndsReserve(fdt, r) && forall n: nat | n < r :: !EndsReserve(fdt, n)
    ensures r < 0 ==> r == -TRUNCATED && forall n: nat :: !EndsReserve(fdt, n)
  {
    var i := 0;
    while 0 <= Int32(fdt.offRsvmap + 16 * i) <= fdt.totalsize - 16
      invariant fdt.offRsvmap + 16 * i <= INT_MAX + 16 || i == 0
      invariant forall n: nat | n < i :: !EndsReserve(fdt, n)
      decreases INT_MAX + 16 - 16 * i
    {
      var o := fdt.offRsvmap + 16 * i;
      if WordAt(fdt.buf[o + 8..o + 16], 0) == 0 && WordAt(fdt.buf[o + 8..o + 16], 4) == 0 {
        ZeroWords(fdt.buf[o + 8..o + 16]);
        assert forall k | o + 8 <= k < o + 16 :: fdt.buf[k] == fdt.buf[o + 8..o + 16][k - (o + 8)];
        return i;
      }
      assert !EndsReserve(fdt, i);
      i := i + 1;
    }
    assert forall n: nat | n >= i :: !EndsReserve(fdt, n);
    return -TRUNCATED;
  }

  lemma ZeroWords(x: seq<byte>)
    requires |x| == 8 && WordAt(x, 0) == 0 && WordAt(x, 4) == 0
    ensures forall i | 0 <= i < 8 :: x[i] == 0
  {
  }

  /** The strings a reader can reach: none at all in a blob of the one size fdt_ro_probe_ rejects. */
  function Readable(fdt: Blob): (tab: seq<byte>)
    requires fdt.HasStrings()
    reads fdt, fdt.buf
  {
    if fdt.totalsize < INT_MAX then fdt.Strings() else []
  }

  /** fdt_get_string on a finished blob: `None` stands for NULL, with the error beside it. */
  method GetString(fdt: Blob, stroffset: int) returns (r: Option<seq<byte>>, err: int)
    requires fdt.HasStrings() && fdt.magic == MAGIC && fdt.version >= 17 && fdt.lastComp <= LAST_VERSION
    requires -TWO32 / 2 <= stroffset <= INT_MAX
    ensures r == if stroffset < 0 then None else StringAt(Readable(fdt), stroffset)
    ensures r.None? ==>
      err == if RoProbe(fdt) < 0 then RoProbe(fdt) else if 0 <= stroffset < fdt.sizeStrings then -TRUNCATED else -BADOFFSET
  {
    var abs := U32(stroffset + fdt.offStrings);
    if RoProbe(fdt) < 0 {
      return None, RoProbe(fdt);
    }
    if abs >= RoProbe(fdt) || stroffset < 0 || stroffset >= fdt.sizeStrings {
      return None, -BADOFFSET;
    }
    var len := fdt.totalsize - abs;
    if fdt.sizeStrings - stroffset < len {
      len := fdt.sizeStrings - stroffset;
    }
    ghost var tab := fdt.Strings();
    var x := fdt.buf[abs..abs + len];
    assert x == tab[stroffset..];
    FindNulSuffix(tab, stroffset, stroffset);
    var n := FindNul(x, 0);
    if n == len {
      return None, -TRUNCATED;
    }
    assert x[..n] == tab[stroffset..stroffset + n];
    return Some(x[..n]), 0;
  }

  // ----- fdt_check_full

  /** No property that the walk from `o` meets has a wrapping length. */
  predicate WalkSane(s: seq<byte>, o: nat)
    decreases |s| - o
  {
    o + 4 <= |s| ==>
      && NoWrap(s, o)
      && (WordAt(s, o) != END && Head(s[o..]).Some? ==> WalkSane(s, o + TokSize(Head(s[o..]).value)))
  }

  lemma WordShift(s: seq<byte>, o: nat)
    requires o + 8 <= |s|
    ensures WordAt(s[o..], 4) == WordAt(s, o + 4) == WordAt(s[o..][..8], 4)
  {
    assert forall k | 4 <= k < 8 :: s[o..][k] == s[o + k] == s[o..][..8][k];
  }

  lemma RecordNoWrap(s: seq<byte>, o: nat, toks: seq<Token>)
    requires o <= |s| && Block(s[o..], toks)
    ensures o + 4 <= |s| && NoWrap(s, o)
    ensures toks == [] ==> WordAt(s, o) == END
    ensures toks != [] ==> Head(s[o..]) == Some(toks[0]) && o + TokSize(toks[0]) <= |s| && Block(s[o + TokSize(toks[0])..], toks[1..])
  {
    hide Head, Align4;
    var r := s[o..];
    assert WordAt(r, 0) == WordAt(s, o);
    if toks != [] {
      BlockHead(r, toks);
      HeadSpells(r, toks[0]);
      if o + 8 <= |s| { WordShift(s, o); }
      assert r[TokSize(toks[0])..] == s[o + TokSize(toks[0])..];
    }
  }

  /** Records never have wrapping lengths, so walking a block always ends. */
  lemma {:induction false} BlockWalks(s: seq<byte>, o: nat, toks: seq<Token>)
    requires o <= |s| && Block(s[o..], toks)
    ensures WalkSane(s, o)
    decreases |toks|
  {
    hide Block, Head, NoWrap, WordAt;
    RecordNoWrap(s, o, toks);
    if toks != [] {
      BlockWalks(s, o + TokSize(toks[0]), toks[1..]);
    }
  }

  /** From offset `o`, with `d` nodes open, the rest of the block decodes and closes them all. */
  predicate Good(s: seq<byte>, tab: seq<byte>, o: nat, d: nat) {
    o <= |s| && Decode(s[o..], tab).Some? && Depth(Decode(s[o..], tab).value, d) == Some(0)
  }

  lemma GoodStep(s: seq<byte>, tab: seq<byte>, o: nat, d: nat, t: Token)
    requires o + 4 <= |s| && WordAt(s, o) != END && Head(s[o..]) == Some(t)
    ensures var p := o + TokSize(t);
            Good(s, tab, o, d) <==>
              match t
              case TNop => Good(s, tab, p, d)
              case TBegin(_) => Good(s, tab, p, d + 1)
              case TEnd => d > 0 && Good(s, tab, p, d - 1)
              case TProp(n, _) => StringAt(tab, n % TWO32).Some? && Good(s, tab, p, d)
  {
    var n := TokSize(t);
    var r := s[o..];
    assert WordAt(r, 0) == WordAt(s, o);
    if o + n <= |s| {
      assert r[n..] == s[o + n..];
      var p := Parse(r[n..]);
      if p.Some? {
        assert Parse(r) == Some([t] + p.value);
        assert ([t] + p.value)[1..] == p.value;
        var e := Resolve(p.value, tab, 0);
        assert e.Some? ==> forall x: Event :: ([x] + e.value)[1..] == e.value;
      }
    }
  }

  /** Nodes open after a tag. */
  function Open(tag: nat, d: int): (r: int) {
    if tag == BEGIN_NODE then d + 1 else if tag == END_NODE then d - 1 else d
  }

  predicate Named(s: seq<byte>, tab: seq<byte>, o: nat) {
    o + 12 <= |s| && StringAt(tab, WordAt(s, o + 8)).Some?
  }

  /** The verdict of the walk from `o` with `d` nodes open, tag by tag. */
  ghost predicate Accepts(s: seq<byte>, tab: seq<byte>, o: nat, d: int)
    decreases |s| - o
  {
    var (tag, next) := NextTagOf(s, o);
    if next < 0 || d < 0 then false
    else if tag == END then d == 0
    else o < next && (tag == PROP ==> Named(s, tab, o)) && Accepts(s, tab, next, Open(tag, d))
  }

  lemma WalkOn(s: seq<byte>, o: nat)
    requires o % 4 == 0 && WalkSane(s, o)
    ensures var (tag, next) := NextTagOf(s, o);
            next < 0 || tag == END || (o < next <= |s| + 3 && next % 4 == 0 && WalkSane(s, next) && (tag == PROP ==> o + 12 <= |s|))
  {
    if o + 4 <= |s| {
      hide NextTagOf, FindNul, Spells;
      NextTagIsHead(s, o);
    }
  }

  lemma AcceptsStep(s: seq<byte>, tab: seq<byte>, o: nat, d: int)
    ensures var (tag, next) := NextTagOf(s, o);
            Accepts(s, tab, o, d) ==
              if next < 0 || d < 0 then false
              else if tag == END then d == 0
              else o < next && (tag == PROP ==> Named(s, tab, o)) && Accepts(s, tab, next, Open(tag, d))
  {
  }

  /** The walk accepts what decodes. */
  lemma {:induction false} AcceptsGood(s: seq<byte>, tab: seq<byte>, o: nat, d: nat)
    requires o % 4 == 0 && WalkSane(s, o) && |tab| <= TWO32
    ensures Accepts(s, tab, o, d) == Good(s, tab, o, d)
    decreases |s| - o
  {
    hide Accepts, Resolve, Depth;
    AcceptsStep(s, tab, o, d);
    if o + 4 <= |s| {
      NextTagIsHead(s, o);
      assert WordAt(s[o..], 0) == WordAt(s, o);
      var h := Head(s[o..]);
      if WordAt(s, o) != END && h.Some? {
        AcceptsToken(s, tab, o, d, h.value);
      } else {
        GoodEnds(s, tab, o, d);
      }
    }
  }

  lemma GoodEnds(s: seq<byte>, tab: seq<byte>, o: nat, d: nat)
    requires o + 4 <= |s| && (WordAt(s, o) == END || Head(s[o..]).None?)
    ensures Good(s, tab, o, d) == (WordAt(s, o) == END && d == 0)
  {
    assert WordAt(s[o..], 0) == WordAt(s, o);
  }

  lemma {:induction false} AcceptsToken(s: seq<byte>, tab: seq<byte>, o: nat, d: nat, t: Token)
    requires o % 4 == 0 && WalkSane(s, o) && |tab| <= TWO32
    requires o + 4 <= |s| && WordAt(s, o) != END && Head(s[o..]) == Some(t)
    ensures Accepts(s, tab, o, d) == Good(s, tab, o, d)
    decreases |s| - o, 0
  {
    hide Accepts, Good;
    AcceptsStep(s, tab, o, d);
    NextTagIsHead(s, o);
    GoodStep(s, tab, o, d, t);
    assert WordAt(s[o..], 0) == WordAt(s, o);
    assert t.TProp? ==> WordAt(s[o..], 8) == WordAt(s, o + 8) == t.nameoff;
    var e := Open(TagOf(t), d);
    if e >= 0 {
      AcceptsGood(s, tab, o + TokSize(t), e);
    } else {
      AcceptsStep(s, tab, o + TokSize(t), e);
    }
  }

  /** fdt_getprop_by_offset, as far as the name of the property: 0 when it can be read. */
  method CheckName(fdt: Blob, offset: nat) returns (err: int)
    requires fdt.HasStruct() && fdt.HasStrings() && fdt.magic == MAGIC && fdt.lastComp <= LAST_VERSION
    requires offset + 12 <= fdt.sizeStruct
    ensures err == 0 <==> Named(fdt.StructBlock(), Readable(fdt), offset)
  {
    var nameoff := WordAt(fdt.StructBlock(), offset + 8);
    var name, e := GetString(fdt, Int32(nameoff));
    err := if name.None? then e else 0;
  }

  /** One turn of the loop of fdt_check_full: finished with a verdict, or on to the next tag. */
  method CheckTag(fdt: Blob, offset: nat, depth: nat) returns (done: bool, err: int, next: int, depth': nat)
    requires fdt.HasStruct() && fdt.HasStrings() && fdt.magic == MAGIC && fdt.lastComp <= LAST_VERSION
    requires offset % 4 == 0 && offset <= INT_MAX && WalkSane(fdt.StructBlock(), offset)
    ensures var s, tab := fdt.StructBlock(), Readable(fdt);
            if done then err == 0 <==> Accepts(s, tab, offset, depth)
            else offset < next <= |s| + 3 && next % 4 == 0 && WalkSane(s, next)
                 && Accepts(s, tab, offset, depth) == Accepts(s, tab, next, depth')
  {
    hide Accepts, NextTagOf, WalkSane, Named, Readable, WordAt, StringAt, U32, Int32, RoProbe;
    ghost var s, tab := fdt.StructBlock(), Readable(fdt);
    var tag;
    tag, next := NextTag(fdt, offset);
    WalkOn(s, offset);
    AcceptsStep(s, tab, offset, depth);
    done, err, depth' := false, 0, depth;
    if next < 0 {
      done, err := true, next;
    } else if tag == END {
      done, err := true, if depth != 0 then -BADSTRUCTURE else 0;
    } else if tag == BEGIN_NODE {
      depth' := depth + 1;
    } else if tag == END_NODE {
      if depth == 0 {
        AcceptsStep(s, tab, next, -1);
        done, err := true, -BADSTRUCTURE;
      } else {
        depth' := depth - 1;
      }
    } else if tag == PROP {
      err := CheckName(fdt, offset);
      done := err != 0;
    }
  }

  /** The loop of fdt_check_full. Property lengths that wrap are outside its domain: over one of them
      the walk never ends (see NextTagProgress). */
  method CheckWalk(fdt: Blob) returns (err: int)
    requires fdt.HasStruct() && fdt.HasStrings() && fdt.magic == MAGIC && fdt.lastComp <= LAST_VERSION
    requires fdt.offStruct >= HEADER_SIZE && WalkSane(fdt.StructBlock(), 0)
    ensures err == 0 <==> Accepts(fdt.StructBlock(), Readable(fdt), 0, 0)
  {
    hide Accepts, WalkSane, Readable;
    ghost var s, tab := fdt.StructBlock(), Readable(fdt);
    var next, depth, done := 0, 0, false;
    while true
      invariant 0 <= next <= |s| + 3 && next % 4 == 0 && WalkSane(s, next)
      invariant Accepts(s, tab, 0, 0) == Accepts(s, tab, next, depth)
      decreases |s| - next
    {
      done, err, next, depth := CheckTag(fdt, next, depth);
      if done {
        return;
      }
    }
  }

  /** A blob whose header is consistent, whose reserve map ends, and whose structure block decodes to
      properly nested events. */
  ghost predicate Sound(fdt: Blob, bufsize: nat)
    requires fdt.version >= 17 && fdt.totalsize <= fdt.buf.Length
    reads fdt, fdt.buf
  {
    && CheckHeader(fdt) == 0 && fdt.totalsize <= bufsize
    && (exists n: nat :: EndsReserve(fdt, n))
    && Decode(fdt.StructBlock(), Readable(fdt)).Some?
    && Balanced(Decode(fdt.StructBlock(), Readable(fdt)).value)
  }

  /** fdt_check_full */
  method CheckFull(fdt: Blob, bufsize: nat) returns (err: int)
    requires fdt.version >= 17 && fdt.totalsize <= fdt.buf.Length
    requires CheckHeader(fdt) == 0 ==> WalkSane(fdt.StructBlock(), 0)
    ensures err == 0 <==> Sound(fdt, bufsize)
  {
    if bufsize < 28 {
      return -TRUNCATED;
    }
    err := CheckHeader(fdt);
    if err != 0 {
      return;
    }
    if bufsize < fdt.totalsize {
      return -TRUNCATED;
    }
    var rsv := NumMemRsv(fdt);
    if rsv < 0 {
      return rsv;
    }
    err := CheckWalk(fdt);
    AcceptsGood(fdt.StructBlock(), Readable(fdt), 0, 0);
    assert fdt.StructBlock()[0..] == fdt.StructBlock();
    assert EndsReserve(fdt, rsv);
  }
}
