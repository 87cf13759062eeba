/** A blob in memory, and walking it tag by tag (fdt/fdt.c). */
module FdtBlob {
  import opened Bytes
  import opened FdtFormat
  import opened Wrappers

  type u32 = x: int | 0 <= x < 0x1_0000_0000

  const INT_MAX := 0x7fff_ffff
  const MAGIC: u32 := 0xd00d_feed
  const SW_MAGIC: u32 := 0x2ff2_0112
  const LAST_VERSION: u32 := 17
  const FIRST_VERSION: u32 := 2
  const HEADER_SIZE := 40
  const RESERVE_START := 48

  function U32(x: int): (r: u32)
    ensures 0 <= x < TWO32 ==> r == x
  {
    x % TWO32
  }

  function Int32(x: int): (r: int)
    ensures -TWO32 / 2 <= r <= INT_MAX
    ensures 0 <= x <= INT_MAX ==> r == x
    ensures INT_MAX < x < TWO32 ==> r < 0
  {
    if x % TWO32 <= INT_MAX then x % TWO32 else x % TWO32 - TWO32
  }

  /** The buffer and the header fields, as `fdt_set_xxx` and `fdt_xxx` write and read them. */
  class Blob {
    const buf: array<byte>
    var magic: u32
    var totalsize: u32
    var offStruct: u32
    var offStrings: u32
    var offRsvmap: u32
    var version: u32
    var lastComp: u32
    var sizeStrings: u32
    var sizeStruct: u32

    constructor (buf: array<byte>)
      ensures this.buf == buf
    {
      this.buf := buf;
    }

    /** The structure block lies inside the buffer, and its size is given by the header. */
    ghost predicate HasStruct()
      reads this
    {
      offStruct + sizeStruct <= totalsize <= buf.Length && totalsize <= INT_MAX && version >= LAST_VERSION
    }

    function StructBlock(): (s: seq<byte>)
      requires HasStruct()
      reads this, buf
    {
      buf[offStruct..offStruct + sizeStruct]
    }

    ghost predicate HasStrings()
      reads this
    {
      offStrings + sizeStrings <= totalsize <= buf.Length && totalsize <= INT_MAX
    }

    function Strings(): (s: seq<byte>)
      requires HasStrings()
      reads this, buf
    {
      buf[offStrings..offStrings + sizeStrings]
    }

    /** fdt_offset_ptr: whether a pointer is returned. Offsets and sums wrap at 32 bits. */
    predicate OffsetPtr(offset: int, len: u32)
      reads this
    {
      var o := U32(offset);
      var abs := U32(o + offStruct);
      && !(abs < o || U32(abs + len) < abs || U32(abs + len) > totalsize)
      && (version >= 17 ==> !(U32(o + len) < o || U32(o + len) > sizeStruct))
    }

    /** The wrapping tests amount to the plain bounds check. */
    lemma OffsetPtrInBlock(offset: int, len: u32)
      requires HasStruct() && 0 <= offset <= INT_MAX
      ensures OffsetPtr(offset, len) <==> offset + len <= sizeStruct
    {
    }

    /** memcpy; with `x` read first, memmove. */
    method Put(o: nat, x: seq<byte>)
      requires o + |x| <= buf.Length
      modifies buf
      ensures buf[..] == Overwrite(old(buf[..]), o, x)
    {
      for i := 0 to |x|
        invariant forall j | 0 <= j < buf.Length :: buf[j] == if o <= j < o + i then x[j - o] else old(buf[j])
      {
        buf[o + i] := x[i];
      }
    }
  }

  /** Everything before the structure block. */
  function Front(fdt: Blob): (b: seq<byte>)
    requires fdt.offStruct <= fdt.buf.Length
    reads fdt, fdt.buf
  {
    fdt.buf[..fdt.offStruct]
  }

  /** A store inside the structure block. */
  method PutStruct(fdt: Blob, o: nat, x: seq<byte>)
    requires fdt.HasStruct() && o + |x| <= fdt.sizeStruct
    modifies fdt.buf
    ensures Front(fdt) == old(Front(fdt)) && fdt.StructBlock() == Overwrite(old(fdt.StructBlock()), o, x)
    ensures forall i, j | fdt.offStruct + fdt.sizeStruct <= i <= j <= fdt.buf.Length :: fdt.buf[i..j] == old(fdt.buf[i..j])
  {
    hide Overwrite;
    ghost var s, b := fdt.StructBlock(), fdt.buf[..];
    var at := fdt.offStruct + o;
    fdt.Put(at, x);
    OverwriteSlice(b, at, x, 0, fdt.offStruct);
    forall i, j | fdt.offStruct + fdt.sizeStruct <= i <= j <= fdt.buf.Length ensures fdt.buf[i..j] == b[i..j] {
      OverwriteSlice(b, at, x, i, j);
    }
    OverwriteShift(b, at, x, fdt.offStruct, fdt.offStruct + fdt.sizeStruct);
  }

  predicate Occurs(tab: seq<byte>, q: nat, s: seq<byte>) {
    q + |s| + 1 <= |tab| && tab[q..q + |s| + 1] == s + [0]
  }

  /** The string with its NUL is somewhere in the table, even inside another string. */
  ghost predicate InTable(tab: seq<byte>, s: seq<byte>) {
    exists q: nat :: Occurs(tab, q, s)
  }

  lemma OccursString(tab: seq<byte>, q: nat, s: seq<byte>)
    requires IsName(s) && Occurs(tab, q, s)
    ensures q < |tab| && StringAt(tab, q) == Some(s)
  {
    StringWritten(tab, q, s);
  }

  /** fdt_find_string_: where `s` with its NUL first occurs in the table, even inside another string. */
  method FindString(tab: seq<byte>, s: seq<byte>) returns (p: Option<nat>)
    ensures p.Some? ==> Occurs(tab, p.value, s)
    ensures forall q: nat | p.Some? ==> q < p.value :: !Occurs(tab, q, s)
    ensures p.Some? <==> InTable(tab, s)
  {
    var len := |s| + 1;
    var last := |tab| - len;
    var i := 0;
    while i <= last
      invariant 0 <= i
      invariant forall q: nat | q < i :: !Occurs(tab, q, s)
    {
      if tab[i..i + len] == s + [0] {
        assert Occurs(tab, i, s);
        return Some(i);
      }
      i := i + 1;
    }
    return None;
  }

  /** What fdt_next_tag computes on a structure block: the tag, and the next offset or an error.
      The end of a property is a 32-bit sum, so a huge length field wraps round. */
  function NextTagOf(s: seq<byte>, start: nat): (r: (nat, int))
    ensures r.1 < 0 ==> r.0 == END
  {
    if start + 4 > |s| then (END, -TRUNCATED)
    else
      var tag := WordAt(s, start);
      if tag == BEGIN_NODE then
        var z := FindNul(s, start + 4);
        if z == |s| then (END, -BADSTRUCTURE) else (tag, Align4(z + 1))
      else if tag == PROP then
        if start + 8 > |s| then (END, -BADSTRUCTURE)
        else
          var span := U32(12 + WordAt(s, start + 4));
          if start + span > |s| then (END, -BADSTRUCTURE) else (tag, Align4(start + span))
      else if tag == END || tag == END_NODE || tag == NOP then (tag, Align4(start + 4))
      else (END, -BADSTRUCTURE)
  }

  /** The walk moves forward, except over the one length that wraps to nothing: there fdt_next_tag
      succeeds and returns the offset it was given, so a loop over it never ends. */
  lemma NextTagProgress(s: seq<byte>, start: nat)
    requires start % 4 == 0 && NextTagOf(s, start).1 >= 0
    ensures NextTagOf(s, start).1 > start
            <==> !(WordAt(s, start) == PROP && WordAt(s, start + 4) == TWO32 - 12)
  {
  }

  lemma NextTagStuck()
    ensures NextTagOf([0, 0, 0, 3, 255, 255, 255, 244], 0) == (PROP, 0)
  {
  }

  lemma {:induction false} FindNulSuffix(s: seq<byte>, o: nat, p: nat)
    requires o <= p <= |s|
    ensures FindNul(s[o..], p - o) == FindNul(s, p) - o
    decreases |s| - p
  {
    if p < |s| && s[p] != 0 {
      FindNulSuffix(s, o, p + 1);
    }
  }

  /** No property at `o` has a length so large that its end wraps. */
  predicate NoWrap(s: seq<byte>, o: nat) {
    o + 8 <= |s| && WordAt(s, o) == PROP ==> 12 + WordAt(s, o + 4) < TWO32
  }

  lemma AlignShift(o: nat, n: nat)
    requires o % 4 == 0
    ensures Align4(o + n) == o + Align4(n)
  {
  }

  /** Away from wrapping lengths the walker returns the record at `o`, or fails, as the format says. */
  lemma NextTagIsHead(s: seq<byte>, o: nat)
    requires o % 4 == 0 && o + 4 <= |s| && NoWrap(s, o)
    ensures var h := Head(s[o..]);
            if WordAt(s, o) == END then NextTagOf(s, o) == (END, o + 4)
            else if h.Some? then NextTagOf(s, o) == (TagOf(h.value), o + TokSize(h.value))
            else NextTagOf(s, o) == (END, -BADSTRUCTURE)
  {
    var r := s[o..];
    assert WordAt(r, 0) == WordAt(s, o);
    if WordAt(s, o) == BEGIN_NODE {
      FindNulSuffix(s, o, o + 4);
      AlignShift(o, FindNul(r, 4) + 1);
      AlignShift(4, FindNul(r, 4) - 4 + 1);
    } else if WordAt(s, o) == PROP {
      if o + 8 <= |s| {
        assert WordAt(r, 4) == WordAt(s, o + 4);
        AlignShift(o, 12 + WordAt(r, 4));
        AlignShift(12, WordAt(r, 4));
      }
    } else {
      AlignShift(o, 4);
    }
  }

  /** Where records follow, the walker returns the first of them. */
  lemma NextTagInBlock(s: seq<byte>, o: nat, toks: seq<Token>)
    requires o % 4 == 0 && o <= |s| && Block(s[o..], toks)
    ensures if toks == [] then o + 4 <= |s| && NextTagOf(s, o) == (END, o + 4)
            else
              var n := TokSize(toks[0]);
              && o + n <= |s| && NextTagOf(s, o) == (TagOf(toks[0]), o + n) && Spells(s[o..o + n], toks[0])
              && (toks[0].TProp? ==> o + 12 <= |s| && WordAt(s, o + 4) == |toks[0].val| && WordAt(s, o + 8) == toks[0].nameoff)
              && Block(s[o + n..], toks[1..])
  {
    hide NextTagOf, Align4, FindNul, Spells, Records, WordAt;
    var r := s[o..];
    if toks == [] {
      TailWord(s, o, 0);
    } else {
      var t := toks[0];
      BlockHead(r, toks);
      HeadSpells(r, t);
      TailWord(s, o, 0);
      assert r[..TokSize(t)] == s[o..o + TokSize(t)] && r[TokSize(t)..] == s[o + TokSize(t)..];
      if t.TProp? {
        SpelledWords(r[..TokSize(t)], t);
        TailWord(s, o, 4);
        TailWord(s, o, 8);
        FrontWord(r, TokSize(t), 4);
        FrontWord(r, TokSize(t), 8);
      }
    }
    NextTagIsHead(s, o);
  }

  lemma TailWord(s: seq<byte>, o: nat, k: nat)
    requires o + k + 4 <= |s|
    ensures WordAt(s[o..], k) == WordAt(s, o + k)
  {
  }

  lemma FrontWord(s: seq<byte>, n: nat, k: nat)
    requires k + 4 <= n <= |s|
    ensures WordAt(s[..n], k) == WordAt(s, k)
  {
  }

  lemma SpelledWords(x: seq<byte>, t: Token)
    requires Spells(x, t) && t.TProp?
    ensures 12 <= |x| && WordAt(x, 0) == PROP && WordAt(x, 4) == |t.val| && WordAt(x, 8) == t.nameoff
  {
  }

  /** The wrapped end of a property, seen from where the property starts. */
  lemma WrappedEnd(start: nat, len: u32)
    requires start <= INT_MAX
    ensures var end := Int32(start + 12 + len);
            U32(end - start) == U32(12 + len) && (start + U32(12 + len) <= INT_MAX ==> end == start + U32(12 + len))
  {
  }

  method SkipName(fdt: Blob, start: nat) returns (found: bool, offset: nat)
    requires fdt.HasStruct() && start <= fdt.sizeStruct
    ensures var z := FindNul(fdt.StructBlock(), start); found == (z < fdt.sizeStruct) && (found ==> offset == z + 1)
  {
    ghost var s := fdt.StructBlock();
    offset := start;
    while true
      invariant start <= offset <= |s|
      invariant FindNul(s, start) == FindNul(s, offset)
      decreases |s| - offset
    {
      fdt.OffsetPtrInBlock(offset, 1);
      if !fdt.OffsetPtr(offset, 1) {
        return false, offset;
      }
      var c := fdt.buf[fdt.offStruct + offset];
      assert c == s[offset];
      offset := offset + 1;
      if c == 0 {
        return true, offset;
      }
    }
  }

  /** fdt_next_tag */
  method NextTag(fdt: Blob, start: nat) returns (tag: nat, next: int)
    requires fdt.HasStruct() && start <= INT_MAX
    ensures (tag, next) == NextTagOf(fdt.StructBlock(), start)
  {
    hide FindNul, WordAt, Blob.OffsetPtr, Align4;
    fdt.OffsetPtrInBlock(start, 4);
    if !fdt.OffsetPtr(start, 4) {
      return END, -TRUNCATED;
    }
    tag := WordAt(fdt.StructBlock(), start);
    var offset := start + 4;
    if tag == BEGIN_NODE {
      var found;
      found, offset := SkipName(fdt, offset);
      if !found {
        return END, -BADSTRUCTURE;
      }
    } else if tag == PROP {
      fdt.OffsetPtrInBlock(offset, 4);
      if !fdt.OffsetPtr(offset, 4) {
        return END, -BADSTRUCTURE;
      }
      var len := WordAt(fdt.StructBlock(), offset);
      WrappedEnd(start, len);
      offset := Int32(offset + 8 + len);
    } else if tag != END && tag != END_NODE && tag != NOP {
      return END, -BADSTRUCTURE;
    }
    fdt.OffsetPtrInBlock(start, U32(offset - start));
    if !fdt.OffsetPtr(start, U32(offset - start)) {
      return END, -BADSTRUCTURE;
    }
    next := Align4(offset);
  }
}
