/** Byte sequences, and what it means to store into them and to replace a stretch of them. */
module Bytes {
  type byte = x: int | 0 <= x < 256

  /** The bytes `b` with `x` stored over them at `o`. */
  function Overwrite(b: seq<byte>, o: nat, x: seq<byte>): (r: seq<byte>)
    requires o + |x| <= |b|
    ensures |r| == |b|
  {
    b[..o] + x + b[o + |x|..]
  }

  lemma OverwriteAt(b: seq<byte>, o: nat, x: seq<byte>)
    requires o + |x| <= |b|
    ensures forall k | 0 <= k < |b| :: Overwrite(b, o, x)[k] == if o <= k < o + |x| then x[k - o] else b[k]
  {
  }

  /** Two stores side by side are one. */
  lemma OverwriteNext(b: seq<byte>, at: nat, x: seq<byte>, y: seq<byte>)
    requires at + |x| + |y| <= |b|
    ensures Overwrite(Overwrite(b, at, x), at + |x|, y) == Overwrite(b, at, x + y)
  {
    hide Overwrite;
    OverwriteAt(b, at, x);
    OverwriteAt(Overwrite(b, at, x), at + |x|, y);
    OverwriteAt(b, at, x + y);
  }

  lemma OverwriteNothing(b: seq<byte>, at: nat)
    requires at <= |b|
    ensures Overwrite(b, at, []) == b
  {
  }

  /** What a store does to a stretch of the buffer: nothing to one side of it; around it, this. */
  lemma OverwriteSlice(b: seq<byte>, o: nat, x: seq<byte>, i: nat, j: nat)
    requires o + |x| <= |b| && i <= j <= |b|
    ensures j <= o || o + |x| <= i ==> Overwrite(b, o, x)[i..j] == b[i..j]
    ensures i <= o && o + |x| <= j ==> Overwrite(b, o, x)[i..j] == b[i..o] + (x + b[o + |x|..j])
  {
    hide Overwrite;
    OverwriteAt(b, o, x);
    var c := Overwrite(b, o, x);
    if j <= o || o + |x| <= i {
      forall k | 0 <= k < j - i ensures c[i..j][k] == b[i..j][k] {
        assert c[i + k] == b[i + k];
      }
    }
    if i <= o && o + |x| <= j {
      var t := b[i..o] + (x + b[o + |x|..j]);
      forall k | 0 <= k < j - i ensures c[i..j][k] == t[k] {
        assert c[i + k] == if o <= i + k < o + |x| then x[i + k - o] else b[i + k];
      }
    }
  }

  /** A store of `x` at `at`, seen from the blocks around it. */
  lemma OverwriteParts(b: seq<byte>, at: nat, x: seq<byte>, front: nat, end: nat, tail: nat, top: nat)
    requires front <= at && at + |x| <= end <= tail <= top <= |b|
    ensures var r := Overwrite(b, at, x);
            && r[..front] == b[..front]
            && r[front..end] == b[front..at] + (x + b[at + |x|..end])
            && r[tail..top] == b[tail..top]
  {
    hide Overwrite;
    OverwriteSlice(b, at, x, 0, front);
    OverwriteSlice(b, at, x, front, end);
    OverwriteSlice(b, at, x, tail, top);
  }

  lemma OverwriteShift(b: seq<byte>, o: nat, x: seq<byte>, i: nat, j: nat)
    requires i <= o && o + |x| <= j <= |b|
    ensures Overwrite(b, o, x)[i..j] == Overwrite(b[i..j], o - i, x)
  {
  }

  /** The bytes `s` with `mid` in place of the `oldlen` bytes at `o`. */
  function Replaced(s: seq<byte>, o: nat, oldlen: nat, mid: seq<byte>): (r: seq<byte>)
    requires o + oldlen <= |s|
    ensures |r| == |s| - oldlen + |mid|
  {
    s[..o] + mid + s[o + oldlen..]
  }

  /** A store inside the replacement. */
  lemma OverwriteReplaced(s: seq<byte>, o: nat, oldlen: nat, mid: seq<byte>, d: nat, x: seq<byte>)
    requires o + oldlen <= |s| && d + |x| <= |mid|
    ensures Overwrite(Replaced(s, o, oldlen, mid), o + d, x) == Replaced(s, o, oldlen, Overwrite(mid, d, x))
  {
    var r := Replaced(s, o, oldlen, mid);
    assert r[..o + d] == s[..o] + mid[..d];
    assert r[o + d + |x|..] == mid[d + |x|..] + s[o + oldlen..];
  }

  lemma SliceSlice(b: seq<byte>, i: nat, j: nat, o: nat, k: nat)
    requires i <= j <= |b| && o <= k <= j - i
    ensures b[i..j][o..k] == b[i + o..i + k]
  {
    assert forall m | 0 <= m < k - o :: b[i..j][o..k][m] == b[i..j][o + m];
  }

  lemma TailOf(a: seq<byte>, x: seq<byte>)
    ensures (a + x)[|a|..|a| + |x|] == x && (a + x)[..|a|] == a
  {
  }
}
