/** Byte-granular access to a memory that only takes aligned chunks (fesvr/memif.cc, fesvr/htif.cc).
    The alignment is a power of two, so the source's masks are remainders. */
module Memif {
  import opened Bytes
  import opened Division

  function Zeros(n: nat): (z: seq<byte>)
    ensures |z| == n && forall i | 0 <= i < n :: z[i] == 0
  {
    seq(n, _ => 0)
  }

  lemma ZerosGrow(b: seq<byte>, at: nat, m: nat, n: nat)
    requires at + m + n <= |b|
    ensures Overwrite(Overwrite(b, at, Zeros(m)), at + m, Zeros(n)) == Overwrite(b, at, Zeros(m + n))
  {
    OverwriteNext(b, at, Zeros(m), Zeros(n));
    assert Zeros(m) + Zeros(n) == Zeros(m + n);
  }

  /** The device behind the interface takes aligned chunks of a bounded size: every call is held to that. */
  class Chunks {
    const align: nat
    const max: nat
    var mem: seq<byte>

    ghost predicate Ok()
      reads this
    {
      align > 0 && max > 0 && Multiple(max, align) && Multiple(|mem|, align)
    }

    predicate Aligned(taddr: nat, len: nat)
      requires align > 0
      reads this
    {
      Multiple(taddr, align) && Multiple(len, align) && taddr + len <= |mem|
    }

    constructor (align: nat, max: nat, mem: seq<byte>)
      requires align > 0 && max > 0 && Multiple(max, align) && Multiple(|mem|, align)
      ensures Ok() && this.align == align && this.max == max && this.mem == mem
    {
      this.align, this.max, this.mem := align, max, mem;
    }

    method ReadChunk(taddr: nat, len: nat) returns (dst: seq<byte>)
      requires Ok() && Aligned(taddr, len) && len <= max
      ensures dst == mem[taddr..taddr + len]
    {
      dst := mem[taddr..taddr + len];
    }

    method WriteChunk(taddr: nat, src: seq<byte>)
      requires Ok() && Aligned(taddr, |src|) && |src| <= max
      modifies this`mem
      ensures Ok() && mem == Overwrite(old(mem), taddr, src)
    {
      mem := Overwrite(mem, taddr, src);
    }

    /** htif_t::clear_chunk: zeros, in chunks. */
    method ClearChunk(taddr: nat, len: nat)
      requires Ok() && Aligned(taddr, len)
      modifies this`mem
      ensures Ok() && mem == Overwrite(old(mem), taddr, Zeros(len))
    {
      hide Multiple, Overwrite;
      var pos: nat := 0;
      OverwriteNothing(mem, taddr);
      assert Zeros(0) == [];
      ZeroMultiple(align);
      while pos < len
        invariant Multiple(pos, align) && Ok() && |mem| == |old(mem)|
        invariant mem == Overwrite(old(mem), taddr, Zeros(Min(pos, len)))
        decreases len - pos
      {
        var n := Min(len - pos, max);
        SumMultiple(taddr, pos, align);
        DifferenceMultiple(len, pos, align);
        WriteChunk(taddr + pos, Zeros(max)[..n]);
        assert Zeros(max)[..n] == Zeros(n);
        ZerosGrow(old(mem), taddr, pos, n);
        SumMultiple(pos, max, align);
        pos := pos + max;
      }
    }
  }

  // ----- pieces of an access

  /** Around an address inside the memory there is a whole aligned unit. */
  lemma UnitAround(addr: nat, align: nat, size: nat)
    requires align > 0 && Multiple(size, align) && addr < size
    ensures Multiple(Floor(addr, align), align) && Floor(addr, align) <= addr < Floor(addr, align) + align <= size
    ensures Multiple(addr - addr % align + align, align) && Multiple(align, align)
  {
    hide Quotient;
    QuotientRemainder(addr, align);
    QuotientUnique(Floor(addr, align), align, Quotient(addr, align), 0);
    RoomBelow(Floor(addr, align), size, align);
    ZeroMultiple(align);
    SumMultiple(Floor(addr, align), align, align);
  }

  function Floor(addr: nat, align: nat): (b: nat)
    requires align > 0
  {
    RemainderSmall(addr, align);
    addr - addr % align
  }

  lemma RemainderSmall(addr: nat, align: nat)
    requires align > 0
    ensures addr % align <= addr
  {
    hide Quotient;
    QuotientRemainder(addr, align);
    ProductNonNegative(align, Quotient(addr, align));
  }

  /** Storing into a unit and the unit into the memory is storing into the memory. */
  lemma StoreInUnit(b: seq<byte>, base: nat, align: nat, k: nat, x: seq<byte>)
    requires base + align <= |b| && k + |x| <= align
    ensures Overwrite(b, base, Overwrite(b[base..base + align], k, x)) == Overwrite(b, base + k, x)
  {
    hide Overwrite;
    var unit := b[base..base + align];
    OverwriteAt(unit, k, x);
    OverwriteAt(b, base, Overwrite(unit, k, x));
    OverwriteAt(b, base + k, x);
  }

  class Memif {
    const dev: Chunks

    constructor (dev: Chunks)
      ensures this.dev == dev
    {
      this.dev := dev;
    }

    /** A part of one unit is written by reading the unit, storing into it, and writing it back. */
    method WriteWithin(base: nat, k: nat, x: seq<byte>)
      requires dev.Ok() && Multiple(base, dev.align) && base + dev.align <= |dev.mem| && k + |x| <= dev.align
      modifies dev`mem
      ensures dev.Ok() && dev.mem == Overwrite(old(dev.mem), base + k, x)
    {
      hide Multiple, Overwrite;
      ZeroMultiple(dev.align);
      AtLeast(dev.max, dev.align);
      var chunk := dev.ReadChunk(base, dev.align);
      StoreInUnit(dev.mem, base, dev.align, k, x);
      chunk := Overwrite(chunk, k, x);
      dev.WriteChunk(base, chunk);
    }

    /** The aligned middle of a write. */
    method WriteAligned(addr: nat, bytes: seq<byte>)
      requires dev.Ok() && addr + |bytes| <= |dev.mem| && (bytes == [] || dev.Aligned(addr, |bytes|))
      modifies dev`mem
      ensures dev.Ok() && dev.mem == Overwrite(old(dev.mem), addr, bytes)
    {
      hide Multiple, Overwrite;
      var pos: nat := 0;
      OverwriteNothing(dev.mem, addr);
      ZeroMultiple(dev.align);
      while pos < |bytes|
        invariant Multiple(pos, dev.align) && dev.Ok() && |dev.mem| == |old(dev.mem)|
        invariant dev.mem == Overwrite(old(dev.mem), addr, bytes[..Min(pos, |bytes|)])
        decreases |bytes| - pos
      {
        var n := Min(dev.max, |bytes| - pos);
        SumMultiple(addr, pos, dev.align);
        DifferenceMultiple(|bytes|, pos, dev.align);
        dev.WriteChunk(addr + pos, bytes[pos..pos + n]);
        OverwriteNext(old(dev.mem), addr, bytes[..pos], bytes[pos..pos + n]);
        assert bytes[..pos] + bytes[pos..pos + n] == bytes[..pos + n];
        SumMultiple(pos, dev.max, dev.align);
        pos := pos + dev.max;
      }
      assert bytes[..|bytes|] == bytes;
    }

    method AllZero(bytes: seq<byte>) returns (z: bool)
      ensures z <==> bytes != [] && bytes == Zeros(|bytes|)
    {
      z := |bytes| != 0;
      for i := 0 to |bytes|
        invariant z <==> bytes != [] && forall j | 0 <= j < i :: bytes[j] == 0
      {
        z := z && bytes[i] == 0;
      }
      assert z ==> bytes == Zeros(|bytes|);
    }

    /** memif_t::write: exactly the bytes at [addr, addr + len) change, and to what was given. */
    method Write(addr: nat, bytes: seq<byte>)
      requires dev.Ok() && addr + |bytes| <= |dev.mem|
      modifies dev`mem
      ensures dev.Ok() && dev.mem == Overwrite(old(dev.mem), addr, bytes)
    {
      hide Multiple, Overwrite, Zeros;
      var head := WriteHead(addr, bytes);
      var a, rest := addr + head, bytes[head..];
      var tail := WriteTail(a, rest);
      var mid := rest[..|rest| - tail];
      Parts(bytes, head, tail);
      var zero := AllZero(mid);
      if zero {
        dev.ClearChunk(a, |mid|);
      } else {
        WriteAligned(a, mid);
      }
      Joined(old(dev.mem), addr, bytes, head, tail);
    }

    /** The part of a write before the first aligned address. */
    method WriteHead(addr: nat, bytes: seq<byte>) returns (n: nat)
      requires dev.Ok() && addr + |bytes| <= |dev.mem|
      modifies dev`mem
      ensures dev.Ok() && n <= |bytes| && dev.mem == Overwrite(old(dev.mem), addr, bytes[..n])
      ensures n == |bytes| || Multiple(addr + n, dev.align)
    {
      hide Overwrite;
      var align := dev.align;
      if |bytes| != 0 && addr % align != 0 {
        UnitAround(addr, align, |dev.mem|);
        n := Min(|bytes|, align - addr % align);
        WriteWithin(Floor(addr, align), addr % align, bytes[..n]);
      } else {
        n := 0;
        OverwriteNothing(dev.mem, addr);
      }
    }

    /** The part of a write after the last aligned address. */
    method WriteTail(addr: nat, bytes: seq<byte>) returns (n: nat)
      requires dev.Ok() && addr + |bytes| <= |dev.mem| && (bytes == [] || Multiple(addr, dev.align))
      modifies dev`mem
      ensures dev.Ok() && n <= |bytes| && dev.mem == Overwrite(old(dev.mem), addr + |bytes| - n, bytes[|bytes| - n..])
      ensures Multiple(|bytes| - n, dev.align)
    {
      hide Overwrite;
      var align := dev.align;
      RemainderSmall(|bytes|, align);
      FloorMultiple(|bytes|, align);
      if |bytes| % align != 0 {
        n := |bytes| % align;
        var start := |bytes| - n;
        SumMultiple(addr, start, align);
        RoomBelow(addr + start, |dev.mem|, align);
        WriteWithin(addr + start, 0, bytes[start..]);
      } else {
        n := 0;
        assert bytes[|bytes|..] == [];
        OverwriteNothing(dev.mem, addr + |bytes|);
      }
    }

    /** memcpy */
    static method Copy(dst: array<byte>, at: nat, src: seq<byte>)
      requires at + |src| <= dst.Length
      modifies dst
      ensures dst[..] == Overwrite(old(dst[..]), at, src)
    {
      for i := 0 to |src|
        invariant forall k | 0 <= k < dst.Length :: dst[k] == if at <= k < at + i then src[k - at] else old(dst[..])[k]
      {
        dst[at + i] := src[i];
      }
      OverwriteAt(old(dst[..]), at, src);
    }

    /** memif_t::read: exactly the bytes at [addr, addr + len), and the memory stays as it is. */
    method Read(addr: nat, bytes: array<byte>)
      requires dev.Ok() && addr + bytes.Length <= |dev.mem|
      modifies bytes
      ensures bytes[..] == dev.mem[addr..addr + bytes.Length]
    {
      hide Multiple, Overwrite;
      var head := ReadHead(addr, bytes);
      var tail := ReadTail(addr, bytes, head);
      ReadAligned(addr, bytes, head, bytes.Length - tail);
      Filled(old(bytes[..]), dev.mem, addr, head, tail);
    }

    /** The part of a read before the first aligned address. */
    method ReadHead(addr: nat, bytes: array<byte>) returns (n: nat)
      requires dev.Ok() && addr + bytes.Length <= |dev.mem|
      modifies bytes
      ensures n <= bytes.Length && bytes[..] == Overwrite(old(bytes[..]), 0, dev.mem[addr..addr + n])
      ensures n == bytes.Length || Multiple(addr + n, dev.align)
    {
      hide Overwrite;
      var align := dev.align;
      if bytes.Length != 0 && addr % align != 0 {
        UnitAround(addr, align, |dev.mem|);
        AtLeast(dev.max, align);
        n := Min(bytes.Length, align - addr % align);
        var base, k := Floor(addr, align), addr % align;
        var chunk := dev.ReadChunk(base, align);
        SliceSlice(dev.mem, base, base + align, k, k + n);
        assert chunk[k..k + n] == dev.mem[addr..addr + n];
        Copy(bytes, 0, chunk[k..k + n]);
      } else {
        n := 0;
        assert dev.mem[addr..addr] == [];
        OverwriteNothing(bytes[..], 0);
      }
    }

    /** The part of a read after the last aligned address. */
    method ReadTail(addr: nat, bytes: array<byte>, head: nat) returns (n: nat)
      requires dev.Ok() && addr + bytes.Length <= |dev.mem|
      requires head <= bytes.Length && (head == bytes.Length || Multiple(addr + head, dev.align))
      modifies bytes
      ensures head + n <= bytes.Length
      ensures bytes[..] == Overwrite(old(bytes[..]), bytes.Length - n, dev.mem[addr + bytes.Length - n..addr + bytes.Length])
      ensures Multiple(bytes.Length - head - n, dev.align)
    {
      hide Overwrite;
      var align := dev.align;
      var len := bytes.Length - head;
      RemainderSmall(len, align);
      FloorMultiple(len, align);
      n := len % align;
      if n != 0 {
        var start := addr + head + len - n;
        SumMultiple(addr + head, len - n, align);
        RoomBelow(start, |dev.mem|, align);
        ZeroMultiple(align);
        AtLeast(dev.max, align);
        var chunk := dev.ReadChunk(start, align);
        SliceSlice(dev.mem, start, start + align, 0, n);
        Copy(bytes, bytes.Length - n, chunk[..n]);
      } else {
        assert dev.mem[addr + bytes.Length..addr + bytes.Length] == [];
        OverwriteNothing(bytes[..], bytes.Length);
      }
    }

    /** The aligned middle of a read. */
    method ReadAligned(addr: nat, bytes: array<byte>, from: nat, to: nat)
      requires dev.Ok() && from <= to <= bytes.Length && addr + bytes.Length <= |dev.mem|
      requires from == to || (Multiple(addr + from, dev.align) && Multiple(to - from, dev.align))
      modifies bytes
      ensures bytes[..] == Overwrite(old(bytes[..]), from, dev.mem[addr + from..addr + to])
    {
      hide Multiple, Overwrite;
      var pos, len: nat := 0, to - from;
      OverwriteNothing(bytes[..], from);
      ZeroMultiple(dev.align);
      assert dev.mem[addr + from..addr + from] == [];
      while pos < len
        invariant Multiple(pos, dev.align)
        invariant bytes[..] == Overwrite(old(bytes[..]), from, dev.mem[addr + from..addr + from + Min(pos, len)])
        decreases len - pos
      {
        var n := Min(dev.max, len - pos);
        SumMultiple(addr + from, pos, dev.align);
        DifferenceMultiple(len, pos, dev.align);
        var a := addr + from + pos;
        var chunk := dev.ReadChunk(a, n);
        Copy(bytes, from + pos, chunk);
        OverwriteNext(old(bytes[..]), from, dev.mem[addr + from..a], chunk);
        assert dev.mem[addr + from..a] + dev.mem[a..a + n] == dev.mem[addr + from..a + n];
        SumMultiple(pos, dev.max, dev.align);
        pos := pos + dev.max;
      }
    }
  }

  lemma Parts(bytes: seq<byte>, head: nat, tail: nat)
    requires head + tail <= |bytes|
    ensures bytes[head..][..|bytes| - head - tail] == bytes[head..|bytes| - tail]
    ensures bytes[head..][|bytes| - head - tail..] == bytes[|bytes| - tail..]
  {
  }

  /** Three copies fill the destination. */
  lemma Filled(d: seq<byte>, m: seq<byte>, addr: nat, head: nat, tail: nat)
    requires addr + |d| <= |m| && head + tail <= |d|
    ensures var x := Overwrite(d, 0, m[addr..addr + head]);
            var y := Overwrite(x, |d| - tail, m[addr + |d| - tail..addr + |d|]);
            Overwrite(y, head, m[addr + head..addr + |d| - tail]) == m[addr..addr + |d|]
  {
    hide Overwrite;
    var x := Overwrite(d, 0, m[addr..addr + head]);
    var y := Overwrite(x, |d| - tail, m[addr + |d| - tail..addr + |d|]);
    OverwriteAt(d, 0, m[addr..addr + head]);
    OverwriteAt(x, |d| - tail, m[addr + |d| - tail..addr + |d|]);
    OverwriteAt(y, head, m[addr + head..addr + |d| - tail]);
    var z := Overwrite(y, head, m[addr + head..addr + |d| - tail]);
    forall k | 0 <= k < |d| ensures z[k] == m[addr..addr + |d|][k] {
      assert z[k] == if head <= k < |d| - tail then m[addr + k] else y[k];
      assert y[k] == if |d| - tail <= k then m[addr + k] else x[k];
      assert x[k] == if k < head then m[addr + k] else d[k];
    }
  }

  lemma FloorMultiple(n: nat, align: nat)
    requires align > 0
    ensures Multiple(Floor(n, align), align)
  {
    hide Quotient;
    QuotientRemainder(n, align);
    QuotientUnique(Floor(n, align), align, Quotient(n, align), 0);
  }

  lemma AtLeast(max: nat, align: nat)
    requires align > 0 && max > 0 && Multiple(max, align)
    ensures align <= max
  {
    ZeroMultiple(align);
    RoomBelow(0, max, align);
  }

  /** Head, tail and middle together are the whole. */
  lemma Joined(b: seq<byte>, addr: nat, bytes: seq<byte>, head: nat, tail: nat)
    requires addr + |bytes| <= |b| && head + tail <= |bytes|
    ensures var m := Overwrite(b, addr, bytes[..head]);
            var n := Overwrite(m, addr + |bytes| - tail, bytes[|bytes| - tail..]);
            Overwrite(n, addr + head, bytes[head..|bytes| - tail]) == Overwrite(b, addr, bytes)
  {
    hide Overwrite;
    var m := Overwrite(b, addr, bytes[..head]);
    var n := Overwrite(m, addr + |bytes| - tail, bytes[|bytes| - tail..]);
    OverwriteAt(b, addr, bytes[..head]);
    OverwriteAt(m, addr + |bytes| - tail, bytes[|bytes| - tail..]);
    OverwriteAt(n, addr + head, bytes[head..|bytes| - tail]);
    OverwriteAt(b, addr, bytes);
    var l, w := Overwrite(n, addr + head, bytes[head..|bytes| - tail]), Overwrite(b, addr, bytes);
    forall k | 0 <= k < |b| ensures l[k] == w[k] {
      assert l[k] == if addr + head <= k < addr + |bytes| - tail then bytes[k - addr] else n[k];
      assert n[k] == if addr + |bytes| - tail <= k < addr + |bytes| then bytes[k - addr] else m[k];
      assert m[k] == if addr <= k < addr + head then bytes[k - addr] else b[k];
    }
  }
}
