/** Writing a blob sequentially (fdt/fdt_sw.c). The structure block grows up from the front of the
    buffer, the strings grow down from its end, and fdt_finish joins them. */
module FdtWriter {
  import opened Bytes
  import opened FdtFormat
  import opened Wrappers
  import opened FdtBlob
  import opened FdtCheck

  const NO_NAME_DEDUP := 1

  // ----- the state between calls

  /** The strings written so far lie at the very end of the buffer. */
  function Table(fdt: Blob): (tab: seq<byte>)
    requires fdt.sizeStrings <= fdt.totalsize <= fdt.buf.Length
    reads fdt, fdt.buf
  {
    fdt.buf[fdt.totalsize - fdt.sizeStrings..fdt.totalsize]
  }

  /** The reserve map is complete: whole entries, the last of size zero. */
  predicate Reserved(front: seq<byte>) {
    && RESERVE_START + 16 <= |front| && (|front| - RESERVE_START) % 16 == 0
    && front[|front| - 8..] == [0, 0, 0, 0, 0, 0, 0, 0]
  }

  /** The 'struct' state: nodes and properties may be added. */
  ghost predicate InStruct(fdt: Blob)
    reads fdt, fdt.buf
  {
    && fdt.version == LAST_VERSION && fdt.offStrings == fdt.totalsize <= INT_MAX
    && fdt.HasStruct() && fdt.offRsvmap == RESERVE_START && Reserved(Front(fdt))
    && fdt.offStruct + fdt.sizeStruct + fdt.sizeStrings <= fdt.totalsize
    && Written(fdt.StructBlock(), Table(fdt)).Some?
  }

  /** The events written so far. */
  ghost function Events(fdt: Blob): (es: seq<Event>)
    requires InStruct(fdt)
    reads fdt, fdt.buf
  {
    Written(fdt.StructBlock(), Table(fdt)).value
  }

  /** fdt_sw_probe_struct_ */
  function Probe(fdt: Blob): (err: int)
    reads fdt
  {
    if fdt.magic == MAGIC then -BADSTATE
    else if fdt.magic != SW_MAGIC then -BADMAGIC
    else if fdt.offStrings != fdt.totalsize then -BADSTATE
    else 0
  }

  /** The states exclude each other: what belongs to one is answered with BADSTATE in the other, and both are in a finished
      blob; anything else is answered with BADMAGIC. */
  lemma ProbesByState(fdt: Blob)
    ensures fdt.magic == SW_MAGIC && fdt.offStrings == 0 ==> ProbeReserve(fdt) == 0
    ensures fdt.magic == SW_MAGIC && fdt.offStrings == fdt.totalsize ==> Probe(fdt) == 0
    ensures fdt.magic == SW_MAGIC && fdt.offStrings != 0 ==> ProbeReserve(fdt) == -BADSTATE
    ensures fdt.magic == SW_MAGIC && fdt.offStrings != fdt.totalsize ==> Probe(fdt) == -BADSTATE
    ensures fdt.magic == MAGIC ==> ProbeReserve(fdt) == Probe(fdt) == -BADSTATE
    ensures fdt.magic != MAGIC && fdt.magic != SW_MAGIC ==> ProbeReserve(fdt) == Probe(fdt) == -BADMAGIC
  {
  }

  /** The 'memrsv' state: reserve entries may be added. */
  ghost predicate InReserve(fdt: Blob)
    reads fdt
  {
    && fdt.version == LAST_VERSION && fdt.totalsize <= INT_MAX && fdt.totalsize <= fdt.buf.Length
    && fdt.offStrings == 0 && fdt.sizeStruct == 0 && fdt.sizeStrings == 0
    && fdt.offRsvmap == RESERVE_START <= fdt.offStruct <= fdt.totalsize
    && (fdt.offStruct - RESERVE_START) % 16 == 0
  }

  /** fdt_create_with_flags */
  method Create(fdt: Blob, bufsize: nat, flags: u32) returns (err: int)
    requires bufsize <= fdt.buf.Length && bufsize <= INT_MAX
    modifies fdt, fdt.buf
    ensures err == if bufsize < 48 then -NOSPACE else if flags > 1 then -BADFLAGS else 0
    ensures err == 0 ==>
      && InReserve(fdt) && fdt.magic == SW_MAGIC && fdt.totalsize == bufsize && fdt.lastComp == flags
      && fdt.offStruct == RESERVE_START
  {
    if bufsize < RESERVE_START {
      return -NOSPACE;
    }
    if flags > NO_NAME_DEDUP {
      return -BADFLAGS;
    }
    fdt.Put(0, seq(bufsize, i => 0));
    fdt.sizeStruct, fdt.sizeStrings := 0, 0;
    fdt.magic, fdt.version, fdt.lastComp := SW_MAGIC, LAST_VERSION, flags;
    fdt.totalsize := bufsize;
    fdt.offRsvmap, fdt.offStruct, fdt.offStrings := RESERVE_START, RESERVE_START, 0;
    return 0;
  }

  /** A reserve entry: two big-endian 64-bit numbers, each given as its high and low word. */
  function ReserveEntry(addr: (u32, u32), size: (u32, u32)): (x: seq<byte>)
    ensures |x| == 16
  {
    WordBytes(addr.0) + WordBytes(addr.1) + WordBytes(size.0) + WordBytes(size.1)
  }

  function ProbeReserve(fdt: Blob): (err: int)
    reads fdt
  {
    if fdt.magic == MAGIC then -BADSTATE
    else if fdt.magic != SW_MAGIC then -BADMAGIC
    else if fdt.offStrings != 0 then -BADSTATE
    else 0
  }

  /** fdt_add_reservemap_entry */
  method AddReservemapEntry(fdt: Blob, addr: (u32, u32), size: (u32, u32)) returns (err: int)
    requires ProbeReserve(fdt) == 0 ==> InReserve(fdt)
    modifies fdt`offStruct, fdt.buf
    ensures err == if old(ProbeReserve(fdt)) != 0 then old(ProbeReserve(fdt))
                   else if old(fdt.offStruct) + 16 > fdt.totalsize then -NOSPACE else 0
    ensures err != 0 ==> fdt.offStruct == old(fdt.offStruct) && fdt.buf[..] == old(fdt.buf[..])
    ensures err == 0 ==> InReserve(fdt) && Front(fdt) == old(Front(fdt)) + ReserveEntry(addr, size)
  {
    hide ReserveEntry, Overwrite;
    if ProbeReserve(fdt) != 0 {
      return ProbeReserve(fdt);
    }
    var offset := fdt.offStruct;
    if offset + 16 > fdt.totalsize {
      return -NOSPACE;
    }
    ghost var b := fdt.buf[..];
    fdt.Put(offset, ReserveEntry(addr, size));
    OverwriteSlice(b, offset, ReserveEntry(addr, size), 0, offset + 16);
    fdt.offStruct := offset + 16;
    assert b[0..offset] == b[..offset] && b[offset + 16..offset + 16] == [];
    return 0;
  }

  /** fdt_finish_reservemap */
  method FinishReservemap(fdt: Blob) returns (err: int)
    requires ProbeReserve(fdt) == 0 ==> InReserve(fdt)
    modifies fdt`offStruct, fdt`offStrings, fdt.buf
    ensures err == if old(ProbeReserve(fdt)) != 0 then old(ProbeReserve(fdt))
                   else if old(fdt.offStruct) + 16 > fdt.totalsize then -NOSPACE else 0
    ensures err == 0 ==> InStruct(fdt) && Front(fdt) == old(Front(fdt)) + ReserveEntry((0, 0), (0, 0))
    ensures err == 0 ==> Probe(fdt) == 0 && InStruct(fdt) && Events(fdt) == []
    ensures err != 0 ==> fdt.offStruct == old(fdt.offStruct) && fdt.offStrings == old(fdt.offStrings)
  {
    err := AddReservemapEntry(fdt, (0, 0), (0, 0));
    if err == 0 {
      fdt.offStrings := fdt.totalsize;
      ghost var f := Front(fdt);
      assert f[|f| - 8..] == ReserveEntry((0, 0), (0, 0))[8..] == [0, 0, 0, 0, 0, 0, 0, 0];
      assert fdt.StructBlock() == [] && Table(fdt) == [];
    }
  }

  // ----- appending a record

  /** New bytes that spell a record, after bytes that spell some, write one more event. */
  lemma AppendRecord(s: seq<byte>, x: seq<byte>, tab: seq<byte>, t: Token, e: Event)
    requires Written(s, tab).Some? && Spells(x, t) && Resolve([t], tab, |tab|) == Some([e])
    ensures Written(s + x, tab) == Some(Written(s, tab).value + [e])
  {
    hide Spells, Resolve, TokSize, Head;
    var toks := ParseOpen(s).value;
    ParseOpenIsRecords(s, toks);
    OneRecord(x, t);
    RecordsAppend(s, toks, x, [t]);
    ParseOpenIsRecords(s + x, toks + [t]);
    ResolveAppend(toks, [t], tab, |tab|);
  }

  lemma SliceRight(x: seq<byte>, tab: seq<byte>, i: nat, j: nat)
    requires i <= j <= |tab|
    ensures (x + tab)[i + |x|..j + |x|] == tab[i..j]
  {
  }

  /** Strings added in front of the table leave every name already written as it was. */
  lemma {:induction false} NamesKept(toks: seq<Token>, tab: seq<byte>, x: seq<byte>)
    requires Resolve(toks, tab, |tab|).Some? && |x| + |tab| < TWO32
    ensures Resolve(toks, x + tab, |x + tab|) == Resolve(toks, tab, |tab|)
  {
    if toks != [] {
      NamesKept(toks[1..], tab, x);
      if toks[0].TProp? {
        var i := (toks[0].nameoff + |tab|) % TWO32;
        assert (toks[0].nameoff + |x + tab|) % TWO32 == i + |x|;
        var n := FindNul(tab, i) - i;
        SliceRight(x, tab, i, i + n + 1);
        StringMoves(tab, i, x + tab, i + |x|, n);
      }
    }
  }

  lemma WrittenKept(s: seq<byte>, tab: seq<byte>, x: seq<byte>)
    requires Written(s, tab).Some? && |x| + |tab| < TWO32
    ensures Written(s, x + tab) == Written(s, tab)
  {
    hide Resolve, ParseOpen;
    NamesKept(ParseOpen(s).value, tab, x);
  }

  /** fdt_grab_space_: where the new space starts, if there is room for it. */
  method GrabSpace(fdt: Blob, len: nat) returns (at: Option<nat>)
    requires fdt.HasStruct() && fdt.offStruct + fdt.sizeStruct + fdt.sizeStrings <= fdt.totalsize
    modifies fdt`sizeStruct
    ensures var fits := fdt.offStruct + old(fdt.sizeStruct) + len + fdt.sizeStrings <= fdt.totalsize;
            && at == (if fits then Some(fdt.offStruct + old(fdt.sizeStruct)) else None)
            && fdt.sizeStruct == old(fdt.sizeStruct) + (if fits then len else 0)
  {
    var offset := fdt.sizeStruct;
    var spaceleft := fdt.totalsize - fdt.offStruct - fdt.sizeStrings;
    if offset + len > spaceleft {
      return None;
    }
    fdt.sizeStruct := offset + len;
    return Some(fdt.offStruct + offset);
  }

  /** Grab space and store the head of a record in it; the padding keeps the bytes that were there. */
  method Emit(fdt: Blob, size: nat, x: seq<byte>) returns (at: Option<nat>, ghost pad: seq<byte>)
    requires fdt.HasStruct() && fdt.offStruct + fdt.sizeStruct + fdt.sizeStrings <= fdt.totalsize && |x| <= size
    modifies fdt`sizeStruct, fdt.buf
    ensures Front(fdt) == old(Front(fdt)) && Table(fdt) == old(Table(fdt))
    ensures if fdt.offStruct + old(fdt.sizeStruct) + size + fdt.sizeStrings <= fdt.totalsize
            then at == Some(fdt.offStruct + old(fdt.sizeStruct)) && fdt.sizeStruct == old(fdt.sizeStruct) + size
                 && |x + pad| == size && fdt.StructBlock() == old(fdt.StructBlock()) + (x + pad)
            else at == None && fdt.sizeStruct == old(fdt.sizeStruct) && fdt.buf[..] == old(fdt.buf[..])
  {
    ghost var s := fdt.StructBlock();
    var n := fdt.sizeStruct;
    pad := [];
    at := GrabSpace(fdt, size);
    if at.Some? {
      assert fdt.StructBlock()[..n] == s;
      pad := fdt.StructBlock()[n + |x|..];
      StoreHead(fdt, n, x);
    }
  }

  /** The head of a record goes to the start of the space grabbed for it. */
  method StoreHead(fdt: Blob, n: nat, x: seq<byte>)
    requires fdt.HasStruct() && fdt.offStruct + fdt.sizeStruct + fdt.sizeStrings <= fdt.totalsize && n + |x| <= fdt.sizeStruct
    modifies fdt.buf
    ensures Front(fdt) == old(Front(fdt)) && Table(fdt) == old(Table(fdt))
    ensures fdt.StructBlock() == old(fdt.StructBlock())[..n] + (x + old(fdt.StructBlock())[n + |x|..])
  {
    hide Overwrite, Written, Reserved;
    ghost var b, s := fdt.buf[..], fdt.StructBlock();
    assert s == b[fdt.offStruct..fdt.offStruct + fdt.sizeStruct] && Front(fdt) == b[..fdt.offStruct];
    assert Table(fdt) == b[fdt.totalsize - fdt.sizeStrings..fdt.totalsize];
    HeadStored(b, fdt.offStruct, fdt.sizeStruct, n, x, fdt.totalsize - fdt.sizeStrings, fdt.totalsize);
    fdt.Put(fdt.offStruct + n, x);
    ghost var c := fdt.buf[..];
    assert fdt.StructBlock() == c[fdt.offStruct..fdt.offStruct + fdt.sizeStruct] && Front(fdt) == c[..fdt.offStruct];
    assert Table(fdt) == c[fdt.totalsize - fdt.sizeStrings..fdt.totalsize];
  }

  /** A store in the block of `m` bytes at `o`, and what lies before the block and at the top. */
  lemma HeadStored(b: seq<byte>, o: nat, m: nat, n: nat, x: seq<byte>, tail: nat, top: nat)
    requires o + m <= tail <= top <= |b| && n + |x| <= m
    ensures var c, s := Overwrite(b, o + n, x), b[o..o + m];
            c[..o] == b[..o] && c[tail..top] == b[tail..top] && c[o..o + m] == s[..n] + (x + s[n + |x|..])
  {
    hide Overwrite;
    OverwriteParts(b, o + n, x, o, o + m, tail, top);
    SliceSlice(b, o, o + m, 0, n);
    SliceSlice(b, o, o + m, n + |x|, m);
  }

  /** fdt_begin_node */
  method BeginNode(fdt: Blob, name: seq<byte>) returns (err: int)
    requires IsName(name) && |name| < INT_MAX
    requires Probe(fdt) == 0 ==> InStruct(fdt)
    modifies fdt`sizeStruct, fdt.buf
    ensures old(Probe(fdt)) != 0 ==> err == old(Probe(fdt))
    ensures err != 0 ==> fdt.sizeStruct == old(fdt.sizeStruct) && fdt.buf[..] == old(fdt.buf[..])
    ensures old(Probe(fdt)) == 0 ==>
      && InStruct(fdt) && Front(fdt) == old(Front(fdt))
      && err == (if old(fdt.offStruct + fdt.sizeStruct) + TokSize(TBegin(name)) + fdt.sizeStrings <= fdt.totalsize
                 then 0 else -NOSPACE)
      && Events(fdt) == old(Events(fdt)) + (if err == 0 then [Begin(name)] else [])
      && Table(fdt) == old(Table(fdt)) && fdt.sizeStruct == old(fdt.sizeStruct) + (if err == 0 then TokSize(TBegin(name)) else 0)
  {
    hide Written;
    if Probe(fdt) != 0 {
      return Probe(fdt);
    }
    ghost var s, tab := fdt.StructBlock(), Table(fdt);
    var at, pad := Emit(fdt, 4 + Align4(|name| + 1), WordBytes(BEGIN_NODE) + (name + [0]));
    if at.None? {
      return -NOSPACE;
    }
    BeginSpells(name, pad);
    AppendRecord(s, WordBytes(BEGIN_NODE) + (name + [0]) + pad, tab, TBegin(name), Begin(name)) by {
      OneEvent(TBegin(name), tab);
    }
    return 0;
  }

  lemma OneEvent(t: Token, tab: seq<byte>)
    ensures t.TBegin? ==> Resolve([t], tab, |tab|) == Some([Begin(t.name)])
    ensures t.TEnd? ==> Resolve([t], tab, |tab|) == Some([End])
    ensures t.TProp? ==>
      var n := StringAt(tab, (t.nameoff + |tab|) % TWO32);
      n.Some? ==> Resolve([t], tab, |tab|) == Some([Prop(n.value, t.val)])
  {
    hide StringAt, TokSize;
    assert [t][1..] == [] && [t][0] == t;
    assert Resolve([], tab, |tab|) == Some([]);
    NothingAfter(Begin(if t.TBegin? then t.name else []));
    NothingAfter(End);
    if t.TProp? && StringAt(tab, (t.nameoff + |tab|) % TWO32).Some? {
      NothingAfter(Prop(StringAt(tab, (t.nameoff + |tab|) % TWO32).value, t.val));
    }
  }

  lemma NothingAfter(e: Event)
    ensures [e] + [] == [e]
  {
  }

  /** fdt_end_node */
  method EndNode(fdt: Blob) returns (err: int)
    requires Probe(fdt) == 0 ==> InStruct(fdt)
    modifies fdt`sizeStruct, fdt.buf
    ensures old(Probe(fdt)) != 0 ==> err == old(Probe(fdt))
    ensures err != 0 ==> fdt.sizeStruct == old(fdt.sizeStruct) && fdt.buf[..] == old(fdt.buf[..])
    ensures old(Probe(fdt)) == 0 ==>
      && InStruct(fdt) && Front(fdt) == old(Front(fdt))
      && err == (if old(fdt.offStruct + fdt.sizeStruct) + 4 + fdt.sizeStrings <= fdt.totalsize then 0 else -NOSPACE)
      && Events(fdt) == old(Events(fdt)) + (if err == 0 then [End] else [])
      && Table(fdt) == old(Table(fdt)) && fdt.sizeStruct == old(fdt.sizeStruct) + (if err == 0 then 4 else 0)
  {
    hide Written;
    if Probe(fdt) != 0 {
      return Probe(fdt);
    }
    ghost var s, tab := fdt.StructBlock(), Table(fdt);
    var at, pad := Emit(fdt, 4, WordBytes(END_NODE));
    if at.None? {
      return -NOSPACE;
    }
    assert WordBytes(END_NODE) + pad == WordBytes(END_NODE);
    AppendRecord(s, WordBytes(END_NODE), tab, TEnd, End) by {
      OneEvent(TEnd, tab);
    }
    return 0;
  }

  // ----- names

  /** fdt_add_string_ tests for room with an unsigned sum, which wraps below zero: the test says what
      it means exactly when the string and the table fit in the buffer at all. */
  lemma RoomTest(total: nat, strtab: nat, len: nat, top: nat)
    requires total <= INT_MAX && len <= INT_MAX && top + strtab <= total
    ensures (U32(total - strtab - len) < top <==> total - strtab - len < top) <==> strtab + len <= total
  {
  }

  /** A buffer of 100 bytes with the least structure top there is and a table of 20: a string of 100 does not fit, and
      the test finds room for it. */
  lemma RoomTestWraps()
    ensures RESERVE_START + 16 + 20 <= 100
    ensures !(U32(100 - 20 - 100) < RESERVE_START + 16) && 100 - 20 - 100 < RESERVE_START + 16
  {
  }

  /** Whether a name is shared with the table. */
  ghost predicate Shared(tab: seq<byte>, name: seq<byte>, dedup: bool) {
    dedup && InTable(tab, name)
  }

  /** The table once a name is in it. */
  ghost function WithName(tab: seq<byte>, name: seq<byte>, dedup: bool): (r: seq<byte>) {
    if Shared(tab, name, dedup) then tab else name + [0] + tab
  }

  /** The room test is not run on the name, or it does not wrap. */
  ghost predicate NameFits(tab: seq<byte>, name: seq<byte>, dedup: bool, total: int) {
    Shared(tab, name, dedup) || |tab| + |name| + 1 <= total
  }

  predicate Dedup(fdt: Blob)
    reads fdt
  {
    fdt.lastComp % 2 != NO_NAME_DEDUP
  }

  /** fdt_add_string_: the offset of the string from the end of the buffer, or 0 when there is no room. */
  method AddString(fdt: Blob, name: seq<byte>) returns (r: int)
    requires fdt.HasStruct() && fdt.offStruct + fdt.sizeStruct + fdt.sizeStrings <= fdt.totalsize
    requires IsName(name) && fdt.sizeStrings + |name| + 1 <= fdt.totalsize
    modifies fdt`sizeStrings, fdt.buf
    ensures Front(fdt) == old(Front(fdt)) && fdt.StructBlock() == old(fdt.StructBlock())
    ensures if fdt.offStruct + fdt.sizeStruct + old(fdt.sizeStrings) + |name| + 1 <= fdt.totalsize
            then r == 0 - fdt.sizeStrings && fdt.sizeStrings == old(fdt.sizeStrings) + |name| + 1
                 && Table(fdt) == name + [0] + old(Table(fdt))
            else r == 0 && fdt.sizeStrings == old(fdt.sizeStrings) && fdt.buf[..] == old(fdt.buf[..])
  {
    hide Overwrite;
    var strtabsize: int := fdt.sizeStrings;
    var len := |name| + 1;
    var offset := -strtabsize - len;
    var top := fdt.offStruct + fdt.sizeStruct;
    RoomTest(fdt.totalsize, strtabsize, len, top);
    if U32(fdt.totalsize + offset) < top {
      return 0;
    }
    ghost var b := fdt.buf[..];
    var at := fdt.totalsize + offset;
    fdt.Put(at, name + [0]);
    fdt.sizeStrings := strtabsize + len;
    OverwriteSlice(b, at, name + [0], 0, fdt.offStruct);
    OverwriteSlice(b, at, name + [0], fdt.offStruct, top);
    OverwriteSlice(b, at, name + [0], at, fdt.totalsize);
    assert b[at..at] == [];
    return offset;
  }

  /** fdt_find_add_string_, or fdt_add_string_ alone when names are not to be shared. `added` says
      that the name was not in the table, so that a failing caller must take it out again. */
  method FindAddString(fdt: Blob, name: seq<byte>, dedup: bool) returns (r: int, added: bool)
    requires IsName(name) && InStruct(fdt) && NameFits(Table(fdt), name, dedup, fdt.totalsize)
    modifies fdt`sizeStrings, fdt.buf
    ensures InStruct(fdt) && Events(fdt) == old(Events(fdt))
    ensures Front(fdt) == old(Front(fdt)) && fdt.StructBlock() == old(fdt.StructBlock())
    ensures added <==> !Shared(old(Table(fdt)), name, dedup)
    ensures r == 0 <==> added && fdt.offStruct + fdt.sizeStruct + old(fdt.sizeStrings) + |name| + 1 > fdt.totalsize
    ensures r != 0 ==> -|Table(fdt)| <= r < 0 && StringAt(Table(fdt), r + |Table(fdt)|) == Some(name)
    ensures Table(fdt) == if r == 0 then old(Table(fdt)) else WithName(old(Table(fdt)), name, dedup)
    ensures r == 0 ==> fdt.offStruct + fdt.sizeStruct + |WithName(old(Table(fdt)), name, dedup)| > fdt.totalsize
    ensures r != 0 ==> Table(fdt) == if added then name + [0] + old(Table(fdt)) else old(Table(fdt))
  {
    hide StringAt, Written, Occurs, Reserved, InTable;
    if dedup {
      var p := FindString(Table(fdt), name);
      if p.Some? {
        OccursString(Table(fdt), p.value, name);
        return p.value - fdt.sizeStrings, false;
      }
    }
    r := AddName(fdt, name);
    added := true;
  }

  /** fdt_add_string_ leaves every event as it was, and the name can be read at its offset. */
  method AddName(fdt: Blob, name: seq<byte>) returns (r: int)
    requires IsName(name) && InStruct(fdt) && fdt.sizeStrings + |name| + 1 <= fdt.totalsize
    modifies fdt`sizeStrings, fdt.buf
    ensures InStruct(fdt) && Events(fdt) == old(Events(fdt))
    ensures Front(fdt) == old(Front(fdt)) && fdt.StructBlock() == old(fdt.StructBlock())
    ensures r == 0 <==> fdt.offStruct + fdt.sizeStruct + old(fdt.sizeStrings) + |name| + 1 > fdt.totalsize
    ensures r != 0 ==> r == -|Table(fdt)| < 0 && StringAt(Table(fdt), 0) == Some(name)
    ensures Table(fdt) == if r == 0 then old(Table(fdt)) else name + [0] + old(Table(fdt))
  {
    hide StringAt, Written, Reserved;
    ghost var tab := Table(fdt);
    WrittenKept(fdt.StructBlock(), tab, name + [0]);
    NameInFront(tab, name);
    r := AddString(fdt, name);
  }

  lemma NameInFront(tab: seq<byte>, name: seq<byte>)
    requires IsName(name)
    ensures StringAt(name + [0] + tab, 0) == Some(name)
  {
    hide StringAt;
    assert (name + [0] + tab)[0..|name| + 1] == name + [0];
    StringWritten(name + [0] + tab, 0, name);
  }

  /** A property of `len` bytes is written, whatever bytes are then stored as its value. */
  ghost predicate Placed(s: seq<byte>, o: nat, len: nat, tab: seq<byte>, es: seq<Event>, name: seq<byte>) {
    && o + len <= |s|
    && forall v: seq<byte> | |v| == len :: Written(Overwrite(s, o, v), tab) == Some(es + [Prop(name, v)])
  }

  /** The record that fdt_property_placeholder builds. */
  lemma PropertyRecord(s: seq<byte>, pad: seq<byte>, tab: seq<byte>, name: seq<byte>, len: nat, r: int)
    requires Written(s, tab).Some? && -|tab| <= r < 0 && |tab| < TWO32 && StringAt(tab, r + |tab|) == Some(name)
    requires len + 12 < TWO32 && |pad| == Align4(len)
    ensures Placed(s + (PropHead(len, U32(r)) + pad), |s| + 12, len, tab, Written(s, tab).value, name)
  {
    hide Written, StringAt, Resolve, PropHead, Spells;
    var h := PropHead(len, U32(r));
    forall v: seq<byte> | |v| == len
      ensures Written(Overwrite(s + (h + pad), |s| + 12, v), tab) == Some(Written(s, tab).value + [Prop(name, v)])
    {
      var t := TProp(U32(r), v);
      assert Overwrite(s + (h + pad), |s| + 12, v) == s + (h + (v + pad[len..]));
      PropSpells(U32(r), v, pad[len..]);
      OneEvent(t, tab);
      AppendRecord(s, h + (v + pad[len..]), tab, t, Prop(name, v));
    }
  }

  /** fdt_del_last_string_ */
  method DelLastString(fdt: Blob, name: seq<byte>)
    requires |name| < fdt.sizeStrings <= fdt.totalsize <= fdt.buf.Length
    modifies fdt`sizeStrings
    ensures fdt.sizeStrings == old(fdt.sizeStrings) - (|name| + 1) && Table(fdt) == old(Table(fdt))[|name| + 1..]
  {
    ghost var at := fdt.totalsize - fdt.sizeStrings;
    SliceSlice(fdt.buf[..], at, fdt.totalsize, |name| + 1, fdt.sizeStrings);
    assert fdt.buf[..][at..fdt.totalsize] == fdt.buf[at..fdt.totalsize];
    fdt.sizeStrings := fdt.sizeStrings - (|name| + 1);
  }

  /** The record is laid out once its name is in the table. */
  method EmitProperty(fdt: Blob, ghost name: seq<byte>, len: nat, r: int) returns (at: Option<nat>)
    requires len + 12 < TWO32 && InStruct(fdt)
    requires -|Table(fdt)| <= r < 0 && StringAt(Table(fdt), r + |Table(fdt)|) == Some(name)
    modifies fdt`sizeStruct, fdt.buf
    ensures Front(fdt) == old(Front(fdt)) && Table(fdt) == old(Table(fdt))
    ensures at.None? <==> fdt.offStruct + old(fdt.sizeStruct) + 12 + Align4(len) + fdt.sizeStrings > fdt.totalsize
    ensures at.None? ==> fdt.sizeStruct == old(fdt.sizeStruct) && fdt.buf[..] == old(fdt.buf[..])
    ensures at.Some? ==>
      && at.value == fdt.offStruct + old(fdt.sizeStruct) + 12 && fdt.sizeStruct == old(fdt.sizeStruct) + 12 + Align4(len)
      && fdt.offStruct + fdt.sizeStruct + fdt.sizeStrings <= fdt.totalsize
      && Placed(fdt.StructBlock(), at.value - fdt.offStruct, len, Table(fdt), old(Events(fdt)), name)
  {
    hide Written, StringAt, Placed, PropHead, Reserved, Align4;
    ghost var s, tab := fdt.StructBlock(), Table(fdt);
    var space, pad := Emit(fdt, 12 + Align4(len), PropHead(len, U32(r)));
    if space.None? {
      return None;
    }
    PropertyRecord(s, pad, tab, name, len, r);
    return Some(space.value + 12);
  }

  /** fdt_property_placeholder: on failure the name is taken out again if it was new. */
  method PropertyPlaceholder(fdt: Blob, name: seq<byte>, len: nat) returns (err: int, at: nat)
    requires IsName(name) && len + 12 < TWO32
    requires Probe(fdt) == 0 ==> InStruct(fdt) && NameFits(Table(fdt), name, Dedup(fdt), fdt.totalsize)
    modifies fdt`sizeStruct, fdt`sizeStrings, fdt.buf
    ensures old(Probe(fdt)) != 0 ==> err == old(Probe(fdt)) && fdt.buf[..] == old(fdt.buf[..])
    ensures err != 0 ==> fdt.sizeStruct == old(fdt.sizeStruct) && fdt.sizeStrings == old(fdt.sizeStrings)
    ensures old(Probe(fdt)) == 0 ==>
      && Front(fdt) == old(Front(fdt))
      && (err != 0 ==> InStruct(fdt) && Events(fdt) == old(Events(fdt)) && Table(fdt) == old(Table(fdt)))
      && err == PropertyRoom(old(fdt.offStruct + fdt.sizeStruct), len, WithName(old(Table(fdt)), name, Dedup(fdt)), fdt.totalsize)
    ensures err == 0 ==>
      && old(Probe(fdt)) == 0
      && at == fdt.offStruct + old(fdt.sizeStruct) + 12 && fdt.sizeStruct == old(fdt.sizeStruct) + 12 + Align4(len)
      && fdt.offStruct + fdt.sizeStruct + fdt.sizeStrings <= fdt.totalsize
      && Table(fdt) == WithName(old(Table(fdt)), name, Dedup(fdt))
      && Placed(fdt.StructBlock(), at - fdt.offStruct, len, Table(fdt), old(Events(fdt)), name)
  {
    hide Written, StringAt, Placed, Reserved, WithName, NameFits, Probe, Align4, InTable, PropertyRoom;
    if Probe(fdt) != 0 {
      return Probe(fdt), 0;
    }
    err, at := PlaceNamed(fdt, name, len);
  }

  /** The part of fdt_property_placeholder behind the probe. */
  method PlaceNamed(fdt: Blob, name: seq<byte>, len: nat) returns (err: int, at: nat)
    requires IsName(name) && len + 12 < TWO32
    requires InStruct(fdt) && NameFits(Table(fdt), name, Dedup(fdt), fdt.totalsize)
    modifies fdt`sizeStruct, fdt`sizeStrings, fdt.buf
    ensures Front(fdt) == old(Front(fdt))
    ensures err != 0 ==>
      && fdt.sizeStruct == old(fdt.sizeStruct) && fdt.sizeStrings == old(fdt.sizeStrings)
      && InStruct(fdt) && Events(fdt) == old(Events(fdt)) && Table(fdt) == old(Table(fdt))
    ensures err == PropertyRoom(old(fdt.offStruct + fdt.sizeStruct), len, WithName(old(Table(fdt)), name, Dedup(fdt)), fdt.totalsize)
    ensures err == 0 ==>
      && at == fdt.offStruct + old(fdt.sizeStruct) + 12 && fdt.sizeStruct == old(fdt.sizeStruct) + 12 + Align4(len)
      && fdt.offStruct + fdt.sizeStruct + fdt.sizeStrings <= fdt.totalsize
      && Table(fdt) == WithName(old(Table(fdt)), name, Dedup(fdt))
      && Placed(fdt.StructBlock(), at - fdt.offStruct, len, Table(fdt), old(Events(fdt)), name)
  {
    hide Written, StringAt, Placed, PropHead, Reserved, Shared, WithName, NameFits, Probe, Align4, Undoable, InTable, Table, Front, Events;
    at := 0;
    ghost var tab := Table(fdt);
    TableLength(fdt);
    var r, added := FindAddString(fdt, name, Dedup(fdt));
    TableLength(fdt);
    if r == 0 {
      return -NOSPACE, 0;
    }
    MayUndo(fdt, name, added, tab);
    var space := EmitOrUndo(fdt, name, len, r, added, tab);
    if space.None? {
      TableLength(fdt);
      return -NOSPACE, 0;
    }
    return 0, space.value;
  }

  lemma TableLength(fdt: Blob)
    requires InStruct(fdt)
    ensures |Table(fdt)| == fdt.sizeStrings && Written(fdt.StructBlock(), Table(fdt)) == Some(Events(fdt))
  {
    hide Written, Reserved;
  }

  /** The table without a name that was added is `tab`, and the events are read the same with it. */
  ghost predicate Undoable(fdt: Blob, name: seq<byte>, added: bool, tab: seq<byte>)
    reads fdt, fdt.buf
  {
    && InStruct(fdt) && (added ==> |name| < fdt.sizeStrings)
    && tab == Table(fdt)[if added then |name| + 1 else 0..]
    && Written(fdt.StructBlock(), tab) == Written(fdt.StructBlock(), Table(fdt))
  }

  /** The second half of fdt_property_placeholder: a new name is taken out again when the record has no room. */
  method EmitOrUndo(fdt: Blob, name: seq<byte>, len: nat, r: int, added: bool, ghost tab: seq<byte>) returns (at: Option<nat>)
    requires len + 12 < TWO32 && Undoable(fdt, name, added, tab)
    requires -|Table(fdt)| <= r < 0 && StringAt(Table(fdt), r + |Table(fdt)|) == Some(name)
    modifies fdt`sizeStruct, fdt`sizeStrings, fdt.buf
    ensures Front(fdt) == old(Front(fdt))
    ensures at.None? <==> fdt.offStruct + old(fdt.sizeStruct) + 12 + Align4(len) + old(fdt.sizeStrings) > fdt.totalsize
    ensures at.None? ==> InStruct(fdt) && fdt.sizeStruct == old(fdt.sizeStruct) && Table(fdt) == tab && Events(fdt) == old(Events(fdt))
    ensures at.Some? ==>
      && at.value == fdt.offStruct + old(fdt.sizeStruct) + 12 && fdt.sizeStruct == old(fdt.sizeStruct) + 12 + Align4(len)
      && fdt.offStruct + fdt.sizeStruct + fdt.sizeStrings <= fdt.totalsize && Table(fdt) == old(Table(fdt))
      && Placed(fdt.StructBlock(), at.value - fdt.offStruct, len, Table(fdt), old(Events(fdt)), name)
  {
    hide Written, StringAt, Placed, Reserved, Probe, Align4;
    at := EmitProperty(fdt, name, len, r);
    if at.None? && added {
      DelLastString(fdt, name);
    }
  }

  lemma MayUndo(fdt: Blob, name: seq<byte>, added: bool, tab: seq<byte>)
    requires InStruct(fdt) && Table(fdt) == (if added then name + [0] + tab else tab)
    requires Written(fdt.StructBlock(), tab) == Some(Events(fdt))
    ensures Undoable(fdt, name, added, tab)
  {
    hide Written, Reserved;
    assert (name + [0] + tab)[|name| + 1..] == tab && tab[0..] == tab;
  }

  /** Whether the record of a property fits between what stands before `top` and the table with its name. */
  function PropertyRoom(top: nat, len: nat, tab: seq<byte>, total: int): (err: int) {
    if top + 12 + Align4(len) + |tab| <= total then 0 else -NOSPACE
  }

  /** fdt_property */
  method Property(fdt: Blob, name: seq<byte>, val: seq<byte>) returns (err: int)
    requires IsName(name) && |val| + 12 < TWO32
    requires Probe(fdt) == 0 ==> InStruct(fdt) && NameFits(Table(fdt), name, Dedup(fdt), fdt.totalsize)
    modifies fdt`sizeStruct, fdt`sizeStrings, fdt.buf
    ensures old(Probe(fdt)) != 0 ==> err == old(Probe(fdt)) && fdt.buf[..] == old(fdt.buf[..])
    ensures old(Probe(fdt)) == 0 ==>
      && InStruct(fdt) && Front(fdt) == old(Front(fdt))
      && err == PropertyRoom(old(fdt.offStruct + fdt.sizeStruct), |val|, WithName(old(Table(fdt)), name, Dedup(fdt)), fdt.totalsize)
      && Events(fdt) == old(Events(fdt)) + (if err == 0 then [Prop(name, val)] else [])
      && Table(fdt) == (if err == 0 then WithName(old(Table(fdt)), name, Dedup(fdt)) else old(Table(fdt)))
      && fdt.sizeStruct == old(fdt.sizeStruct) + (if err == 0 then 12 + Align4(|val|) else 0)
  {
    hide Written, Reserved, Overwrite, WithName, PropertyRoom, Probe, Align4;
    var at;
    err, at := PropertyPlaceholder(fdt, name, |val|);
    if err != 0 {
      return;
    }
    PutStruct(fdt, at - fdt.offStruct, val);
  }

  // ----- fdt_finish

  /** A record with its name offset counted from the front of the strings block. */
  function Relocate(t: Token, k: nat): (r: Token)
    ensures TokSize(r) == TokSize(t) && TagOf(r) == TagOf(t)
  {
    if t.TProp? then t.(nameoff := (t.nameoff + k) % TWO32) else t
  }

  function RelocateAll(toks: seq<Token>, k: nat): (r: seq<Token>)
    ensures |r| == |toks| && Size(r) == Size(toks)
  {
    if toks == [] then [] else [Relocate(toks[0], k)] + RelocateAll(toks[1..], k)
  }

  lemma {:induction false} RelocateSnoc(toks: seq<Token>, t: Token, k: nat)
    ensures RelocateAll(toks + [t], k) == RelocateAll(toks, k) + [Relocate(t, k)]
  {
    if toks != [] {
      assert (toks + [t])[1..] == toks[1..] + [t];
      RelocateSnoc(toks[1..], t, k);
    } else {
      assert [] + [t] == [t] && [t][1..] == [];
    }
  }

  /** Relocating every offset by the size of the table leaves every name as it was. */
  lemma {:induction false} ResolveRelocated(toks: seq<Token>, tab: seq<byte>)
    requires |tab| < TWO32
    ensures Resolve(RelocateAll(toks, |tab|), tab, 0) == Resolve(toks, tab, |tab|)
  {
    hide StringAt;
    if toks != [] {
      var r := [Relocate(toks[0], |tab|)] + RelocateAll(toks[1..], |tab|);
      assert r[1..] == RelocateAll(toks[1..], |tab|) && r[0] == Relocate(toks[0], |tab|);
      ResolveRelocated(toks[1..], tab);
    }
  }

  /** The block in the middle of relocation: the first `i` records done, the rest as before. */
  ghost predicate Half(cur: seq<byte>, s: seq<byte>, toks: seq<Token>, i: nat, k: nat) {
    i <= |toks| &&
    var n := Size(toks[..i]);
    n <= |cur| == |s| && Records(cur[..n], RelocateAll(toks[..i], k)) && cur[n..] == s[n..]
  }

  /** What the walker finds at the frontier. */
  lemma HalfNext(cur: seq<byte>, s: seq<byte>, toks: seq<Token>, i: nat, k: nat)
    requires Half(cur, s, toks, i, k) && Block(s, toks)
    ensures Block(cur[Size(toks[..i])..], toks[i..])
  {
    hide RelocateAll, Records;
    BlockDrop(s, toks, i);
  }

  lemma SpellsRelocated(x: seq<byte>, t: Token, k: nat)
    requires Spells(x, t) && t.TProp?
    ensures Spells(Overwrite(x, 8, WordBytes((t.nameoff + k) % TWO32)), Relocate(t, k))
  {
    var w := WordBytes((t.nameoff + k) % TWO32);
    var y := Overwrite(x, 8, w);
    OverwriteSlice(x, 8, w, 0, 8);
    OverwriteSlice(x, 8, w, 12, |x|);
    assert y[..8] == x[..8] && y[12..] == x[12..] && y[8..12] == w;
    assert WordAt(y, 0) == WordAt(x[..8], 0) && WordAt(y, 4) == WordAt(x[..8], 4);
    assert y[12..12 + |t.val|] == y[12..][..|t.val|] == x[12..][..|t.val|] == x[12..12 + |t.val|];
  }

  /** Relocating the property at `n` touches nothing around it. */
  lemma RelocatedAt(cur: seq<byte>, n: nat, t: Token, k: nat)
    requires t.TProp? && n + TokSize(t) <= |cur| && Spells(cur[n..n + TokSize(t)], t)
    ensures var m, c := TokSize(t), Overwrite(cur, n + 8, WordBytes((t.nameoff + k) % TWO32));
            |c| == |cur| && c[..n] == cur[..n] && c[n + m..] == cur[n + m..] && Spells(c[n..n + m], Relocate(t, k))
  {
    hide Spells, Overwrite;
    PropSize(t);
    var m, w := TokSize(t), WordBytes((t.nameoff + k) % TWO32);
    var c := Overwrite(cur, n + 8, w);
    SpellsRelocated(cur[n..n + m], t, k);
    OverwriteShift(cur, n + 8, w, n, n + m);
    OverwriteSlice(cur, n + 8, w, 0, n);
    OverwriteSlice(cur, n + 8, w, n + m, |cur|);
    assert c[..n] == c[0..n] && cur[0..n] == cur[..n];
    assert c[n + m..] == c[n + m..|cur|] && cur[n + m..|cur|] == cur[n + m..];
  }

  /** Relocating the record at the frontier moves the frontier past it. */
  lemma HalfStep(cur: seq<byte>, s: seq<byte>, toks: seq<Token>, i: nat, k: nat, nxt: seq<byte>)
    requires Half(cur, s, toks, i, k) && i < |toks|
    requires var n, m := Size(toks[..i]), TokSize(toks[i]);
             n + m <= |cur| && Spells(cur[n..n + m], toks[i])
             && nxt == if toks[i].TProp? then Overwrite(cur, n + 8, WordBytes((toks[i].nameoff + k) % TWO32)) else cur
    ensures Half(nxt, s, toks, i + 1, k) && Size(toks[..i + 1]) == Size(toks[..i]) + TokSize(toks[i])
  {
    hide Spells, Records, RelocateAll, TokSize, Overwrite, WordBytes;
    var t := toks[i];
    var n, m := Size(toks[..i]), TokSize(t);
    assert toks[..i + 1] == toks[..i] + [t];
    SizeAppend(toks[..i], [t]);
    OneSize(t);
    if t.TProp? {
      RelocatedAt(cur, n, t, k);
    } else {
      assert Relocate(t, k) == t;
    }
    assert nxt[n + m..] == s[n + m..] by {
      assert cur[n..][m..] == cur[n + m..] && s[n..][m..] == s[n + m..];
    }
    RecordGrows(nxt, n, m, RelocateAll(toks[..i], k), Relocate(t, k));
    RelocateSnoc(toks[..i], t, k);
  }

  lemma RecordGrows(c: seq<byte>, n: nat, m: nat, toks: seq<Token>, t: Token)
    requires n + m <= |c| && Records(c[..n], toks) && Spells(c[n..n + m], t)
    ensures Records(c[..n + m], toks + [t])
  {
    hide Spells, Records;
    OneRecord(c[n..n + m], t);
    RecordsAppend(c[..n], toks, c[n..n + m], [t]);
    assert c[..n + m] == c[..n] + c[n..n + m];
  }

  lemma PropSize(t: Token)
    requires t.TProp?
    ensures TokSize(t) >= 12
  {
  }

  lemma HalfDone(cur: seq<byte>, s: seq<byte>, toks: seq<Token>, k: nat)
    requires Half(cur, s, toks, |toks|, k) && Block(s, toks)
    ensures Block(cur, RelocateAll(toks, k))
  {
    hide Records, RelocateAll;
    assert toks[..|toks|] == toks;
    var n := Size(toks);
    assert WordAt(cur, n) == WordAt(cur[n..], 0) == WordAt(s[n..], 0) == WordAt(s, n);
  }

  /** One turn of the loop of fdt_finish. */
  method RelocateOne(fdt: Blob, offset: nat, ghost s: seq<byte>, ghost toks: seq<Token>, ghost i: nat) returns (tag: nat, next: int)
    requires fdt.HasStruct() && fdt.HasStrings() && fdt.offStruct + fdt.sizeStruct <= fdt.offStrings
    requires Block(s, toks) && Half(fdt.StructBlock(), s, toks, i, fdt.sizeStrings) && offset == Size(toks[..i]) <= INT_MAX
    modifies fdt.buf
    ensures Front(fdt) == old(Front(fdt)) && fdt.Strings() == old(fdt.Strings())
    ensures tag == END <==> i == |toks|
    ensures if tag == END then fdt.StructBlock() == old(fdt.StructBlock())
            else next == Size(toks[..i + 1]) <= |s| && Half(fdt.StructBlock(), s, toks, i + 1, fdt.sizeStrings)
  {
    hide Block, Records, RelocateAll, NextTagOf, Spells, Half, Overwrite, TokSize, WordAt, WordBytes, Size;
    ghost var cur := fdt.StructBlock();
    HalfSize(cur, s, toks, i, fdt.sizeStrings);
    HalfNext(cur, s, toks, i, fdt.sizeStrings);
    NextTagInBlock(cur, offset, toks[i..]);
    tag, next := NextTag(fdt, offset);
    if tag != END {
      if tag == PROP {
        var nameoff := WordAt(fdt.StructBlock(), offset + 8);
        PutStruct(fdt, offset + 8, WordBytes(U32(nameoff + fdt.sizeStrings)));
      }
      HalfStep(cur, s, toks, i, fdt.sizeStrings, fdt.StructBlock());
    }
  }

  lemma HalfSize(cur: seq<byte>, s: seq<byte>, toks: seq<Token>, i: nat, k: nat)
    requires Half(cur, s, toks, i, k)
    ensures i <= |toks| && Size(toks[..i]) <= |cur| == |s|
  {
  }

  /** The loop of fdt_finish: every property's name offset, counted from the end of the table until
      now, is counted from its front. */
  method RelocateNames(fdt: Blob, ghost toks: seq<Token>) returns (err: int)
    requires fdt.HasStruct() && fdt.HasStrings() && fdt.offStruct + fdt.sizeStruct <= fdt.offStrings
    requires Block(fdt.StructBlock(), toks)
    modifies fdt.buf
    ensures err == 0 && Block(fdt.StructBlock(), RelocateAll(toks, fdt.sizeStrings))
    ensures Front(fdt) == old(Front(fdt)) && fdt.Strings() == old(fdt.Strings())
  {
    hide Block, RelocateAll, Half, Size;
    ghost var s, k := fdt.StructBlock(), fdt.sizeStrings;
    ghost var i := 0;
    HalfStart(s, toks, k);
    var offset := 0;
    while true
      invariant i <= |toks| && offset == Size(toks[..i]) <= |s|
      invariant Half(fdt.StructBlock(), s, toks, i, k)
      invariant Front(fdt) == old(Front(fdt)) && fdt.Strings() == old(fdt.Strings())
      decreases |toks| - i
    {
      HalfSize(fdt.StructBlock(), s, toks, i, k);
      var tag, next := RelocateOne(fdt, offset, s, toks, i);
      if tag == END {
        break;
      }
      offset, i := next, i + 1;
    }
    HalfDone(fdt.StructBlock(), s, toks, k);
    return 0;
  }

  lemma HalfStart(s: seq<byte>, toks: seq<Token>, k: nat)
    ensures Half(s, s, toks, 0, k) && Size(toks[..0]) == 0
  {
    assert toks[..0] == [];
  }

  /** What fdt_finish leaves behind: a complete blob of just the bytes it needs, holding `es`. */
  ghost predicate Packed(fdt: Blob, es: seq<Event>)
    reads fdt, fdt.buf
  {
    && fdt.magic == MAGIC && fdt.version == LAST_VERSION && fdt.lastComp == FIRST_VERSION
    && fdt.HasStruct() && fdt.HasStrings() && fdt.offRsvmap == RESERVE_START && Reserved(Front(fdt))
    && fdt.offStrings == fdt.offStruct + fdt.sizeStruct && fdt.totalsize == fdt.offStrings + fdt.sizeStrings
    && WalkSane(fdt.StructBlock(), 0)
    && Decode(fdt.StructBlock(), fdt.Strings()) == Some(es)
  }

  /** The first part of fdt_finish: the terminator, the string table, the name offsets. */
  method Join(fdt: Blob) returns (err: int)
    requires InStruct(fdt)
    modifies fdt`sizeStruct, fdt`offStrings, fdt.buf
    ensures err == if fdt.offStruct + old(fdt.sizeStruct) + fdt.sizeStrings + 4 <= fdt.totalsize then 0 else -NOSPACE
    ensures err != 0 ==> InStruct(fdt) && Events(fdt) == old(Events(fdt))
    ensures err == 0 ==>
      && fdt.HasStruct() && fdt.HasStrings()
      && fdt.sizeStruct == old(fdt.sizeStruct) + 4 && fdt.offStrings == fdt.offStruct + fdt.sizeStruct
      && Front(fdt) == old(Front(fdt)) && fdt.Strings() == old(Table(fdt)) && WalkSane(fdt.StructBlock(), 0)
      && Decode(fdt.StructBlock(), fdt.Strings()) == Some(old(Events(fdt)))
  {
    hide Written, Records, Block, RelocateAll, WalkSane, Decode, Resolve, WordBytes, WordAt, Reserved;
    ghost var s, tab := fdt.StructBlock(), Table(fdt);
    var end, pad := Emit(fdt, 4, WordBytes(END));
    if end.None? {
      return -NOSPACE;
    }
    MoveTable(fdt);
    EndWord(pad);
    ghost var toks := Closed(s, WordBytes(END) + pad, tab);
    err := RelocateNames(fdt, toks);
    DecodeRelocated(fdt.StructBlock(), toks, tab);
  }

  lemma EndWord(pad: seq<byte>)
    ensures WordAt(WordBytes(END) + pad, 0) == END
  {
    assert (WordBytes(END) + pad)[..4] == WordBytes(END);
  }

  /** fdt_finish */
  method Finish(fdt: Blob) returns (err: int)
    requires Probe(fdt) == 0 ==> InStruct(fdt)
    modifies fdt, fdt.buf
    ensures old(Probe(fdt)) != 0 ==> err == old(Probe(fdt))
    ensures old(Probe(fdt)) == 0 ==>
      err == if old(fdt.offStruct + fdt.sizeStruct + fdt.sizeStrings) + 4 <= old(fdt.totalsize) then 0 else -NOSPACE
    ensures err == 0 ==> old(Probe(fdt)) == 0 && Packed(fdt, old(Events(fdt)))
    ensures err == 0 ==> fdt.offStruct == old(fdt.offStruct) && Front(fdt) == old(Front(fdt)) && fdt.Strings() == old(Table(fdt))
    ensures err == 0 ==> fdt.totalsize == old(fdt.offStruct + fdt.sizeStruct + fdt.sizeStrings) + 4
    ensures old(Probe(fdt)) == 0 && err != 0 ==> InStruct(fdt) && Events(fdt) == old(Events(fdt))
  {
    hide Written, WalkSane, Decode, Reserved;
    if Probe(fdt) != 0 {
      return Probe(fdt);
    }
    err := Join(fdt);
    if err == 0 {
      fdt.totalsize := fdt.offStrings + fdt.sizeStrings;
      fdt.lastComp := FIRST_VERSION;
      fdt.magic := MAGIC;
    }
  }

  /** Relocate the string table to just behind the structure block. */
  method MoveTable(fdt: Blob)
    requires fdt.HasStruct() && fdt.offStruct + fdt.sizeStruct + fdt.sizeStrings <= fdt.totalsize
    modifies fdt`offStrings, fdt.buf
    ensures fdt.offStrings == fdt.offStruct + fdt.sizeStruct
    ensures fdt.HasStrings() && fdt.Strings() == old(Table(fdt))
    ensures Front(fdt) == old(Front(fdt)) && fdt.StructBlock() == old(fdt.StructBlock())
  {
    hide Overwrite;
    ghost var b := fdt.buf[..];
    var oldoff, newoff := fdt.totalsize - fdt.sizeStrings, fdt.offStruct + fdt.sizeStruct;
    var x := fdt.buf[oldoff..oldoff + fdt.sizeStrings];
    fdt.Put(newoff, x);
    fdt.offStrings := newoff;
    MovedAround(b, fdt.buf[..], fdt.offStruct, newoff, x);
  }

  /** Bytes stored behind the structure block. */
  lemma MovedAround(b: seq<byte>, c: seq<byte>, base: nat, at: nat, x: seq<byte>)
    requires base <= at && at + |x| <= |b| && c == Overwrite(b, at, x)
    ensures c[..base] == b[..base] && c[base..at] == b[base..at] && c[at..at + |x|] == x
  {
    hide Overwrite;
    OverwriteAt(b, at, x);
    assert forall k | 0 <= k < at :: c[k] == b[k];
    assert forall k | 0 <= k < |x| :: c[at..at + |x|][k] == c[at + k] == x[k];
  }

  ghost function Closed(s: seq<byte>, x: seq<byte>, tab: seq<byte>): (toks: seq<Token>)
    requires Written(s, tab).Some? && |x| >= 4 && WordAt(x, 0) == END
    ensures Block(s + x, toks) && Resolve(toks, tab, |tab|) == Written(s, tab)
  {
    var toks := ParseOpen(s).value;
    ParseOpenIsRecords(s, toks);
    RecordsBlock(s, toks, x);
    toks
  }

  lemma DecodeRelocated(cur: seq<byte>, toks: seq<Token>, tab: seq<byte>)
    requires Block(cur, RelocateAll(toks, |tab|)) && |tab| < TWO32
    ensures Decode(cur, tab) == Resolve(toks, tab, |tab|) && WalkSane(cur, 0)
  {
    hide Block, RelocateAll, Resolve;
    ParseIsBlock(cur, RelocateAll(toks, |tab|));
    ResolveRelocated(toks, tab);
    assert cur[0..] == cur;
    BlockWalks(cur, 0, RelocateAll(toks, |tab|));
  }

  /** fdt_check_full accepts a finished blob exactly when the events written were balanced. (One byte
      short of 2 GB the header probe of fdt_get_string fails on any blob, so that size is excepted.) */
  lemma FinishedIsSound(fdt: Blob, es: seq<Event>, bufsize: nat)
    requires Packed(fdt, es) && fdt.totalsize <= bufsize && fdt.totalsize < INT_MAX
    ensures Sound(fdt, bufsize) <==> Balanced(es)
  {
    hide Decode, Depth, WalkSane;
    var n := (fdt.offStruct - RESERVE_START) / 16 - 1;
    var f := Front(fdt);
    var o := fdt.offStruct - 16;
    assert fdt.offRsvmap + 16 * n == o;
    forall i | o + 8 <= i < o + 16 ensures fdt.buf[i] == 0 {
      assert fdt.buf[i] == f[i] == f[|f| - 8..][i - (o + 8)];
    }
    assert EndsReserve(fdt, n);
  }

  // ----- whole runs

  /** The bytes of the record of an event. */
  function RecordSize(e: Event): (n: nat) {
    match e
    case Begin(name) => 4 + Align4(|name| + 1)
    case End => 4
    case Prop(_, val) => 12 + Align4(|val|)
  }

  function RecordSizes(es: seq<Event>): (n: nat) {
    if es == [] then 0 else RecordSizes(es[..|es| - 1]) + RecordSize(es[|es| - 1])
  }

  /** The table after the names of some events. */
  ghost function TableAfter(tab: seq<byte>, es: seq<Event>, dedup: bool): (r: seq<byte>) {
    if es == [] then tab
    else
      var t, e := TableAfter(tab, es[..|es| - 1], dedup), es[|es| - 1];
      if e.Prop? then WithName(t, e.name, dedup) else t
  }

  /** The records of some events and the table with their names fit in `room` bytes. */
  ghost predicate Fits(tab: seq<byte>, es: seq<Event>, dedup: bool, room: int) {
    RecordSizes(es) + |TableAfter(tab, es, dedup)| <= room
  }

  /** Wherever the events so far fit, the room test for the next name does not wrap. */
  ghost predicate NamesFit(tab: seq<byte>, es: seq<Event>, dedup: bool, room: int, total: int) {
    forall i | 0 <= i < |es| && es[i].Prop? && Fits(tab, es[..i], dedup, room) ::
      NameFits(TableAfter(tab, es[..i], dedup), es[i].name, dedup, total)
  }

  /** Names shorter than the header and reserve map of a blob always fit. */
  lemma ShortNamesFit(es: seq<Event>, dedup: bool, bufsize: nat)
    requires forall i | 0 <= i < |es| && es[i].Prop? :: |es[i].name| < RESERVE_START + 16
    ensures NamesFit([], es, dedup, bufsize - RESERVE_START - 16, bufsize)
  {
    hide TableAfter;
  }

  lemma FitsStep(tab: seq<byte>, es: seq<Event>, i: nat, dedup: bool)
    requires i < |es|
    ensures RecordSizes(es[..i + 1]) == RecordSizes(es[..i]) + RecordSize(es[i])
    ensures TableAfter(tab, es[..i + 1], dedup)
            == if es[i].Prop? then WithName(TableAfter(tab, es[..i], dedup), es[i].name, dedup) else TableAfter(tab, es[..i], dedup)
    ensures |TableAfter(tab, es[..i], dedup)| <= |TableAfter(tab, es[..i + 1], dedup)|
  {
    assert es[..i + 1][..i] == es[..i];
  }

  /** What fits fits up to any event. */
  lemma {:induction false} FitsBefore(tab: seq<byte>, es: seq<Event>, i: nat, j: nat, dedup: bool, room: int)
    requires i <= j <= |es| && Fits(tab, es[..j], dedup, room)
    ensures Fits(tab, es[..i], dedup, room)
    decreases j
  {
    if i < j {
      FitsStep(tab, es, j - 1, dedup);
      FitsBefore(tab, es, i, j - 1, dedup, room);
    }
  }

  predicate Writable(e: Event) {
    match e
    case Begin(name) => IsName(name) && |name| < INT_MAX
    case End => true
    case Prop(name, val) => IsName(name) && |val| + 12 < TWO32
  }

  /** One call of fdt_begin_node, fdt_property or fdt_end_node. */
  method WriteOne(fdt: Blob, e: Event) returns (err: int)
    requires Probe(fdt) == 0 && InStruct(fdt) && Writable(e)
    requires e.Prop? ==> NameFits(Table(fdt), e.name, Dedup(fdt), fdt.totalsize)
    modifies fdt`sizeStruct, fdt`sizeStrings, fdt.buf
    ensures InStruct(fdt) && Front(fdt) == old(Front(fdt)) && Probe(fdt) == 0
    ensures var tab := if e.Prop? then WithName(old(Table(fdt)), e.name, Dedup(fdt)) else old(Table(fdt));
            var fits := fdt.offStruct + old(fdt.sizeStruct) + RecordSize(e) + |tab| <= fdt.totalsize;
            && err == (if fits then 0 else -NOSPACE)
            && Events(fdt) == old(Events(fdt)) + (if fits then [e] else [])
            && Table(fdt) == (if fits then tab else old(Table(fdt)))
            && fdt.sizeStruct == old(fdt.sizeStruct) + (if fits then RecordSize(e) else 0)
  {
    hide Written, WithName, Shared, Reserved;
    match e {
      case Begin(name) => err := BeginNode(fdt, name);
      case End => err := EndNode(fdt);
      case Prop(name, val) => err := Property(fdt, name, val);
    }
  }

  /** The first `i` of the events have been written since the table was `tab`, the records took `n` bytes and
      the events were `before`. */
  ghost predicate Reached(fdt: Blob, tab: seq<byte>, n: nat, before: seq<Event>, es: seq<Event>, i: nat)
    requires i <= |es|
    reads fdt, fdt.buf
  {
    && InStruct(fdt) && Events(fdt) == before + es[..i] && Table(fdt) == TableAfter(tab, es[..i], Dedup(fdt))
    && fdt.sizeStruct == n + RecordSizes(es[..i])
  }

  /** The call for event `i` of a sequence. */
  method WriteNext(fdt: Blob, es: seq<Event>, i: nat, ghost tab: seq<byte>, ghost n: nat, ghost before: seq<Event>)
    returns (err: int)
    requires i < |es| && Writable(es[i]) && Probe(fdt) == 0 && Reached(fdt, tab, n, before, es, i)
    requires NamesFit(tab, es, Dedup(fdt), fdt.totalsize - fdt.offStruct - n, fdt.totalsize)
    modifies fdt`sizeStruct, fdt`sizeStrings, fdt.buf
    ensures Front(fdt) == old(Front(fdt)) && Probe(fdt) == 0
    ensures Reached(fdt, tab, n, before, es, if err == 0 then i + 1 else i)
    ensures err == if Fits(tab, es[..i + 1], Dedup(fdt), fdt.totalsize - fdt.offStruct - n) then 0 else -NOSPACE
  {
    hide Written, NameFits, TableAfter, RecordSizes, WithName, Reserved, RecordSize;
    FitsStep(tab, es, i, Dedup(fdt));
    assert Fits(tab, es[..i], Dedup(fdt), fdt.totalsize - fdt.offStruct - n);
    assert before + es[..i + 1] == before + es[..i] + [es[i]];
    err := WriteOne(fdt, es[i]);
  }

  /** A sequence of calls to fdt_begin_node, fdt_property and fdt_end_node, stopping at the first error: the
      events of the `done` calls that succeeded are written, and all succeed exactly when everything fits. */
  method WriteAll(fdt: Blob, es: seq<Event>) returns (err: int, ghost done: nat)
    requires Probe(fdt) == 0 && InStruct(fdt) && forall e | e in es :: Writable(e)
    requires NamesFit(Table(fdt), es, Dedup(fdt), fdt.totalsize - fdt.offStruct - fdt.sizeStruct, fdt.totalsize)
    modifies fdt`sizeStruct, fdt`sizeStrings, fdt.buf
    ensures Front(fdt) == old(Front(fdt)) && Probe(fdt) == 0 && done <= |es|
    ensures Reached(fdt, old(Table(fdt)), old(fdt.sizeStruct), old(Events(fdt)), es, done)
    ensures err == if done == |es| then 0 else -NOSPACE
    ensures err == 0 <==> Fits(old(Table(fdt)), es, Dedup(fdt), fdt.totalsize - fdt.offStruct - old(fdt.sizeStruct))
  {
    hide Reached, Fits, NamesFit, Reserved, Written, Writable, Probe;
    ghost var tab, n, before := Table(fdt), fdt.sizeStruct, Events(fdt);
    ghost var room := fdt.totalsize - fdt.offStruct - n;
    err, done := 0, 0;
    NoneReached(fdt, es);
    assert es[..|es|] == es;
    for i := 0 to |es|
      invariant Probe(fdt) == 0 && Front(fdt) == old(Front(fdt)) && done == i && err == 0
      invariant Reached(fdt, tab, n, before, es, i)
      invariant i > 0 ==> Fits(tab, es[..i], Dedup(fdt), room)
    {
      assert Writable(es[i]);
      err := WriteNext(fdt, es, i, tab, n, before);
      if err != 0 {
        if Fits(tab, es, Dedup(fdt), room) {
          FitsBefore(tab, es, i + 1, |es|, Dedup(fdt), room);
        }
        return;
      }
      done := i + 1;
    }
  }

  lemma NoneReached(fdt: Blob, es: seq<Event>)
    requires InStruct(fdt)
    ensures Reached(fdt, Table(fdt), fdt.sizeStruct, Events(fdt), es, 0)
    ensures es == [] ==> Fits(Table(fdt), es, Dedup(fdt), fdt.totalsize - fdt.offStruct - fdt.sizeStruct)
  {
    assert es[..0] == [];
    assert Events(fdt) + [] == Events(fdt);
  }

  /** The round trip: build a blob from nothing with any calls. It succeeds exactly when the records, the strings and
      what stands before them fit the buffer; then the finished blob decodes to exactly the events written, is of just
      that size, and fdt_check_full accepts it if and only if the events balance. */
  method Build(fdt: Blob, bufsize: nat, flags: u32, es: seq<Event>) returns (err: int)
    requires bufsize <= fdt.buf.Length && bufsize <= INT_MAX
    requires forall e | e in es :: Writable(e)
    requires NamesFit([], es, flags != NO_NAME_DEDUP, bufsize - RESERVE_START - 16, bufsize)
    modifies fdt, fdt.buf
    ensures var size := RESERVE_START + 16 + RecordSizes(es) + 4 + |TableAfter([], es, flags != NO_NAME_DEDUP)|;
      && err == (if bufsize < RESERVE_START then -NOSPACE else if flags > NO_NAME_DEDUP then -BADFLAGS
                 else if size <= bufsize then 0 else -NOSPACE)
      && (err == 0 ==> fdt.totalsize == size)
    ensures err == 0 ==>
      && fdt.HasStruct() && fdt.HasStrings() && fdt.totalsize <= bufsize
      && Decode(fdt.StructBlock(), fdt.Strings()) == Some(es)
      && fdt.Strings() == TableAfter([], es, flags != NO_NAME_DEDUP)
      && (fdt.totalsize < INT_MAX ==> (Sound(fdt, bufsize) <==> Balanced(es)))
  {
    hide Written, Reserved, Decode, Sound, Balanced, TableAfter, RecordSizes, NamesFit;
    err := Create(fdt, bufsize, flags);
    if err != 0 {
      return;
    }
    err := FinishReservemap(fdt);
    if err != 0 {
      return;
    }
    assert Table(fdt) == [] && fdt.offStruct == RESERVE_START + 16 && Dedup(fdt) == (flags != NO_NAME_DEDUP);
    ghost var done;
    err, done := WriteAll(fdt, es);
    if err != 0 {
      return;
    }
    assert [] + es == es && es[..|es|] == es;
    err := Finish(fdt);
    if err == 0 && fdt.totalsize < INT_MAX {
      FinishedIsSound(fdt, es, bufsize);
    }
  }

  /** Build followed by fdt_check_full: the blob is accepted exactly when everything fits and the events balance. */
  method BuildAndCheck(fdt: Blob, bufsize: nat, flags: u32, es: seq<Event>) returns (accepted: bool)
    requires bufsize <= fdt.buf.Length && bufsize < INT_MAX
    requires forall e | e in es :: Writable(e)
    requires NamesFit([], es, flags != NO_NAME_DEDUP, bufsize - RESERVE_START - 16, bufsize)
    modifies fdt, fdt.buf
    ensures accepted <==>
      && flags <= NO_NAME_DEDUP && Balanced(es)
      && RESERVE_START + 16 + RecordSizes(es) + 4 + |TableAfter([], es, flags != NO_NAME_DEDUP)| <= bufsize
  {
    hide Decode, Sound, Balanced, TableAfter, RecordSizes, NamesFit;
    var err := Build(fdt, bufsize, flags, es);
    if err != 0 {
      return false;
    }
    BuiltWalks(fdt);
    err := CheckFull(fdt, bufsize);
    return err == 0;
  }

  /** The walk over a block that decodes meets no wrapping length. */
  lemma BuiltWalks(fdt: Blob)
    requires fdt.HasStruct() && fdt.HasStrings() && Decode(fdt.StructBlock(), fdt.Strings()).Some?
    ensures WalkSane(fdt.StructBlock(), 0)
  {
    hide WalkSane, Resolve;
    var s, toks := fdt.StructBlock(), Parse(fdt.StructBlock()).value;
    ParseIsBlock(s, toks);
    assert s[0..] == s;
    BlockWalks(s, 0, toks);
  }
}
