/** Phandles on records (fdt/fdt_ro.c, fdt/fdt_overlay.c): which records hold them, and what shifting all of
    them in a stretch of records means. */
module FdtPhandles {
  import opened Bytes
  import opened FdtFormat
  import opened Wrappers
  import opened FdtBlob
  import opened FdtNodes

  const PHANDLE: seq<byte> := [112, 104, 97, 110, 100, 108, 101]
  const LINUX_PHANDLE: seq<byte> := [108, 105, 110, 117, 120, 44] + PHANDLE
  const MAX_U32 := 0xFFFF_FFFF

  // ----- records that differ in values only

  predicate SameBut(t: Token, u: Token) {
    t == u || (t.TProp? && u.TProp? && t.nameoff == u.nameoff && |t.val| == |u.val|)
  }

  predicate Alike(a: seq<Token>, b: seq<Token>) {
    |a| == |b| && forall k | 0 <= k < |a| :: SameBut(a[k], b[k])
  }

  lemma {:induction false} AlikeScan(a: seq<Token>, b: seq<Token>, k: nat, d: nat)
    requires Alike(a, b) && k <= |a|
    ensures ScanNode(a, k, d) == ScanNode(b, k, d)
    decreases |a| - k
  {
    if k < |a| {
      assert SameBut(a[k], b[k]);
      if !a[k].TBegin? && !(a[k].TEnd? && d == 0) {
        AlikeScan(a, b, k + 1, if a[k].TEnd? then d - 1 else d);
      }
    }
  }

  lemma {:induction false} AlikeClose(a: seq<Token>, b: seq<Token>, k: nat, d: nat)
    requires Alike(a, b) && k <= |a|
    ensures CloseOf(a, k, d) == CloseOf(b, k, d)
    decreases |a| - k
  {
    if k < |a| {
      assert SameBut(a[k], b[k]);
      if !(a[k].TEnd? && d == 0) {
        AlikeClose(a, b, k + 1, if a[k].TEnd? then d - 1 else if a[k].TBegin? then d + 1 else d);
      }
    }
  }

  lemma {:induction false} AlikeProp(a: seq<Token>, b: seq<Token>, tab: seq<byte>, k: nat, name: seq<byte>)
    requires Alike(a, b) && k <= |a|
    ensures FindProp(a, tab, k, name) == FindProp(b, tab, k, name)
    decreases |a| - k
  {
    hide StringAt;
    if k < |a| {
      assert SameBut(a[k], b[k]);
      if a[k].TNop? || a[k].TProp? {
        AlikeProp(a, b, tab, k + 1, name);
      }
    }
  }

  lemma {:induction false} AlikeOffset(a: seq<Token>, b: seq<Token>, k: nat)
    requires Alike(a, b) && k <= |a|
    ensures OffsetOf(a, k) == OffsetOf(b, k)
    decreases k
  {
    hide OffsetOf;
    if k == 0 {
      OffsetNone(a);
      OffsetNone(b);
    } else {
      AlikeOffset(a, b, k - 1);
      OffsetStep(a, k - 1);
      OffsetStep(b, k - 1);
      assert SameBut(a[k - 1], b[k - 1]);
    }
  }

  lemma OffsetNone(toks: seq<Token>)
    ensures OffsetOf(toks, 0) == 0
  {
    assert toks[..0] == [];
  }

  function WithValue(toks: seq<Token>, k: nat, v: seq<byte>): (r: seq<Token>)
    requires k < |toks| && toks[k].TProp?
  {
    toks[k := TProp(toks[k].nameoff, v)]
  }

  // ----- which records hold phandles

  /** The record is the phandle of a node, under either of its names. */
  ghost predicate IsPhandle(toks: seq<Token>, tab: seq<byte>, k: nat) {
    exists n: nat :: n < k < |toks| && PhandleOfNode(toks, tab, n, k)
  }

  ghost predicate PhandleOfNode(toks: seq<Token>, tab: seq<byte>, n: nat, k: nat)
    requires n < |toks|
  {
    toks[n].TBegin? && (FindProp(toks, tab, n + 1, PHANDLE) == Found(k) || FindProp(toks, tab, n + 1, LINUX_PHANDLE) == Found(k))
  }

  lemma AlikePhandle(a: seq<Token>, b: seq<Token>, tab: seq<byte>, k: nat)
    requires Alike(a, b)
    ensures IsPhandle(a, tab, k) <==> IsPhandle(b, tab, k)
  {
    hide PhandleOfNode;
    forall n: nat | n < k < |a| ensures PhandleOfNode(a, tab, n, k) <==> PhandleOfNode(b, tab, n, k) {
      AlikeOfNode(a, b, tab, n, k);
    }
  }

  lemma AlikeOfNode(a: seq<Token>, b: seq<Token>, tab: seq<byte>, n: nat, k: nat)
    requires Alike(a, b) && n < k < |a|
    ensures PhandleOfNode(a, tab, n, k) <==> PhandleOfNode(b, tab, n, k)
  {
    hide FindProp, PHANDLE, LINUX_PHANDLE, Alike;
    AlikeBegin(a, b, n);
    AlikeProp(a, b, tab, n + 1, PHANDLE);
    AlikeProp(a, b, tab, n + 1, LINUX_PHANDLE);
  }

  lemma AlikeBegin(a: seq<Token>, b: seq<Token>, n: nat)
    requires Alike(a, b) && n < |a|
    ensures |a| == |b| && (a[n].TBegin? <==> b[n].TBegin?)
  {
    assert SameBut(a[n], b[n]);
  }

  /** Between a node and a property found in it there are only properties and NOPs. */
  lemma {:induction false} OwnRun(toks: seq<Token>, tab: seq<byte>, k: nat, name: seq<byte>)
    requires k <= |toks| && FindProp(toks, tab, k, name).Found?
    ensures forall m | k <= m <= FindProp(toks, tab, k, name).k :: toks[m].TProp? || toks[m].TNop?
    decreases |toks| - k
  {
    hide StringAt;
    if k < |toks| && FindProp(toks, tab, k, name).k != k {
      OwnRun(toks, tab, k + 1, name);
    }
  }

  lemma PhandleRun(toks: seq<Token>, tab: seq<byte>, n: nat, k: nat)
    requires n < k < |toks| && PhandleOfNode(toks, tab, n, k)
    ensures forall m | n < m <= k :: toks[m].TProp? || toks[m].TNop?
    ensures toks[k].TProp?
  {
    if FindProp(toks, tab, n + 1, PHANDLE) == Found(k) {
      OwnRun(toks, tab, n + 1, PHANDLE);
    } else {
      OwnRun(toks, tab, n + 1, LINUX_PHANDLE);
    }
  }

  /** No phandles follow the end of a node before the next node begins. */
  lemma NoneAfterEnd(toks: seq<Token>, tab: seq<byte>, a: nat, b: nat, k: nat)
    requires 0 < a <= k < b <= |toks| && toks[a - 1].TEnd? && forall m | a <= m < b :: !toks[m].TBegin?
    ensures !IsPhandle(toks, tab, k)
  {
    forall n: nat | n < k ensures !PhandleOfNode(toks, tab, n, k) {
      if PhandleOfNode(toks, tab, n, k) {
        PhandleRun(toks, tab, n, k);
      }
    }
  }

  /** Before the next node begins, the only phandles are a node's own. */
  lemma OwnPhandles(toks: seq<Token>, tab: seq<byte>, i: nat, b: nat, k: nat)
    requires i <= k < b <= |toks| && toks[i].TBegin? && forall m | i < m < b :: !toks[m].TBegin?
    ensures IsPhandle(toks, tab, k) <==> i < k && PhandleOfNode(toks, tab, i, k)
  {
    forall n: nat | n < k && PhandleOfNode(toks, tab, n, k) ensures n == i && i < k {
      PhandleRun(toks, tab, n, k);
    }
  }

  // ----- shifting

  predicate FitsShift(val: seq<byte>, delta: nat) {
    |val| == 4 && WordAt(val, 0) + delta < MAX_U32
  }

  function Plus(val: seq<byte>, delta: nat): (r: seq<byte>)
    ensures |r| == |val|
  {
    if FitsShift(val, delta) then WordBytes(WordAt(val, 0) + delta) else val
  }

  ghost function ShiftedAt(toks: seq<Token>, tab: seq<byte>, k: nat, delta: nat): (t: Token)
    requires k < |toks|
    ensures SameBut(toks[k], t)
  {
    if IsPhandle(toks, tab, k) && toks[k].TProp? then TProp(toks[k].nameoff, Plus(toks[k].val, delta)) else toks[k]
  }

  /** The records with the phandles from `lo` to `hi` shifted and everything else as it was. */
  ghost function Shift(toks: seq<Token>, tab: seq<byte>, lo: nat, hi: nat, delta: nat): (r: seq<Token>)
    ensures Alike(toks, r)
    ensures forall k | 0 <= k < |r| :: r[k] == if lo <= k < hi then ShiftedAt(toks, tab, k, delta) else toks[k]
  {
    seq(|toks|, k requires 0 <= k < |toks| => if lo <= k < hi then ShiftedAt(toks, tab, k, delta) else toks[k])
  }

  ghost predicate AllFit(toks: seq<Token>, tab: seq<byte>, lo: nat, hi: nat, delta: nat) {
    forall k: nat | lo <= k < hi && k < |toks| && IsPhandle(toks, tab, k) :: toks[k].TProp? && FitsShift(toks[k].val, delta)
  }

  /** What does not fit in a stretch does not fit in a wider one. */
  lemma FitsWithin(toks: seq<Token>, tab: seq<byte>, lo: nat, hi: nat, l: nat, h: nat, delta: nat)
    requires l <= lo && hi <= h && AllFit(toks, tab, l, h, delta)
    ensures AllFit(toks, tab, lo, hi, delta)
  {
    hide IsPhandle, FitsShift;
  }

  /** What fits as a whole fits where the records before it have been shifted. */
  lemma FitsAfter(toks: seq<Token>, tab: seq<byte>, l: nat, lo: nat, hi: nat, h: nat, delta: nat)
    requires l <= lo && hi <= h && AllFit(toks, tab, l, h, delta)
    ensures AllFit(Shift(toks, tab, l, lo, delta), tab, lo, hi, delta)
  {
    hide IsPhandle, FitsShift, Plus;
    var s := Shift(toks, tab, l, lo, delta);
    forall k: nat | lo <= k < hi && k < |s| && IsPhandle(s, tab, k) ensures s[k].TProp? && FitsShift(s[k].val, delta) {
      AlikePhandle(toks, s, tab, k);
    }
  }

  /** Two stretches, one after the other. */
  lemma ShiftFurther(toks: seq<Token>, tab: seq<byte>, lo: nat, mid: nat, hi: nat, delta: nat)
    requires lo <= mid <= hi
    ensures Shift(Shift(toks, tab, lo, mid, delta), tab, mid, hi, delta) == Shift(toks, tab, lo, hi, delta)
    ensures AllFit(toks, tab, lo, mid, delta) && AllFit(Shift(toks, tab, lo, mid, delta), tab, mid, hi, delta) ==> AllFit(toks, tab, lo, hi, delta)
  {
    hide IsPhandle, Plus, FitsShift;
    var s := Shift(toks, tab, lo, mid, delta);
    forall k: nat | k < |toks| ensures IsPhandle(toks, tab, k) <==> IsPhandle(s, tab, k) {
      AlikePhandle(toks, s, tab, k);
    }
    var l, r := Shift(s, tab, mid, hi, delta), Shift(toks, tab, lo, hi, delta);
    assert forall k | 0 <= k < |toks| :: l[k] == r[k];
  }

  /** A stretch without phandles does not matter. */
  lemma ShiftOver(toks: seq<Token>, tab: seq<byte>, lo: nat, mid: nat, hi: nat, delta: nat)
    requires lo <= mid <= hi <= |toks| && forall k | mid <= k < hi :: !IsPhandle(toks, tab, k)
    ensures Shift(toks, tab, lo, hi, delta) == Shift(toks, tab, lo, mid, delta)
    ensures AllFit(toks, tab, lo, mid, delta) ==> AllFit(toks, tab, lo, hi, delta)
  {
    hide IsPhandle, Plus, FitsShift;
    var l, r := Shift(toks, tab, lo, hi, delta), Shift(toks, tab, lo, mid, delta);
    assert forall k | 0 <= k < |toks| :: l[k] == r[k];
  }

  // ----- the phandle of a node

  /** fdt_get_phandle: 0 when the node has none. */
  ghost function PhandleOf(toks: seq<Token>, tab: seq<byte>, n: nat): (p: nat)
    requires n < |toks| && toks[n].TBegin?
    ensures p < TWO32
  {
    var f, g := FindProp(toks, tab, n + 1, PHANDLE), FindProp(toks, tab, n + 1, LINUX_PHANDLE);
    if f.Found? && |toks[f.k].val| == 4 then WordAt(toks[f.k].val, 0)
    else if g.Found? && |toks[g.k].val| == 4 then WordAt(toks[g.k].val, 0)
    else 0
  }

  /** No node of the blob has a larger phandle, and some node has this one unless there are none. */
  ghost predicate IsMaxPhandle(toks: seq<Token>, tab: seq<byte>, max: nat) {
    IsMaxBelow(toks, tab, |toks|, max)
  }

  /** The same of the nodes before record `k`. */
  ghost predicate IsMaxBelow(toks: seq<Token>, tab: seq<byte>, k: nat, max: nat)
    requires k <= |toks|
  {
    && (forall n: nat | n < k && toks[n].TBegin? :: PhandleOf(toks, tab, n) <= max)
    && (max == 0 || exists n: nat :: n < k && toks[n].TBegin? && PhandleOf(toks, tab, n) == max)
  }

  /** One more node, and no other up to record `j`. */
  lemma MaxFurther(toks: seq<Token>, tab: seq<byte>, k: nat, j: nat, max: nat)
    requires k < j <= |toks| && IsMaxBelow(toks, tab, k, max) && toks[k].TBegin?
    requires forall n | k < n < j :: !toks[n].TBegin?
    ensures IsMaxBelow(toks, tab, j, if PhandleOf(toks, tab, k) > max then PhandleOf(toks, tab, k) else max)
  {
    hide PhandleOf;
  }

  /** A node of the stretch keeps its properties in the stretch. */
  lemma OwnInside(toks: seq<Token>, tab: seq<byte>, n: nat, k: nat, hi: nat)
    requires n < hi <= |toks| && toks[hi - 1].TEnd? && n < k < |toks| && PhandleOfNode(toks, tab, n, k)
    ensures k < hi && IsPhandle(toks, tab, k)
  {
    PhandleRun(toks, tab, n, k);
  }

  lemma PlusWord(val: seq<byte>, delta: nat)
    requires FitsShift(val, delta)
    ensures WordAt(Plus(val, delta), 0) == WordAt(val, 0) + delta
  {
  }

  /** A phandle property of a node is shifted like any other. */
  lemma ShiftedValue(toks: seq<Token>, tab: seq<byte>, n: nat, hi: nat, delta: nat, name: seq<byte>)
    requires n < hi <= |toks| && toks[n].TBegin? && toks[hi - 1].TEnd? && AllFit(toks, tab, 0, hi, delta)
    requires name == PHANDLE || name == LINUX_PHANDLE
    ensures var r, f := Shift(toks, tab, 0, hi, delta), FindProp(toks, tab, n + 1, name);
            && FindProp(r, tab, n + 1, name) == f
            && (f.Found? ==> |toks[f.k].val| == 4 && |r[f.k].val| == 4 && WordAt(toks[f.k].val, 0) + delta < MAX_U32
                             && WordAt(r[f.k].val, 0) == WordAt(toks[f.k].val, 0) + delta)
  {
    hide IsPhandle, Plus, WordAt, FindProp;
    var r, f := Shift(toks, tab, 0, hi, delta), FindProp(toks, tab, n + 1, name);
    AlikeProp(toks, r, tab, n + 1, name);
    if f.Found? {
      assert PhandleOfNode(toks, tab, n, f.k);
      OwnInside(toks, tab, n, f.k, hi);
      PlusWord(toks[f.k].val, delta);
    }
  }

  lemma ShiftedPhandle(toks: seq<Token>, tab: seq<byte>, n: nat, hi: nat, delta: nat)
    requires n < hi <= |toks| && toks[n].TBegin? && toks[hi - 1].TEnd? && AllFit(toks, tab, 0, hi, delta)
    ensures var r := Shift(toks, tab, 0, hi, delta);
            && r[n].TBegin?
            && (PhandleOf(toks, tab, n) != 0 ==>
                  PhandleOf(r, tab, n) == PhandleOf(toks, tab, n) + delta && PhandleOf(toks, tab, n) + delta < MAX_U32)
  {
    hide IsPhandle, WordAt, Shift, AllFit, FindProp;
    var r := Shift(toks, tab, 0, hi, delta);
    assert SameBut(toks[n], r[n]);
    ShiftedValue(toks, tab, n, hi, delta, PHANDLE);
    ShiftedValue(toks, tab, n, hi, delta, LINUX_PHANDLE);
  }

  /** Shifted by the largest phandle of a base tree, the phandles of an overlay are larger than any in the base,
      stay apart from each other, and none has wrapped. */
  lemma FreshPhandles(base: seq<Token>, baseTab: seq<byte>, max: nat, toks: seq<Token>, tab: seq<byte>, hi: nat, n: nat, m: nat)
    requires IsMaxPhandle(base, baseTab, max)
    requires n < hi <= |toks| && toks[n].TBegin? && toks[hi - 1].TEnd? && AllFit(toks, tab, 0, hi, max)
    requires PhandleOf(toks, tab, n) != 0
    ensures var r := Shift(toks, tab, 0, hi, max);
            && r[n].TBegin? && PhandleOf(r, tab, n) == PhandleOf(toks, tab, n) + max < MAX_U32
            && (forall b: nat | b < |base| && base[b].TBegin? :: PhandleOf(base, baseTab, b) < PhandleOf(r, tab, n))
            && (m < hi && toks[m].TBegin? && PhandleOf(toks, tab, m) != 0 ==>
                  r[m].TBegin? && (PhandleOf(r, tab, m) == PhandleOf(r, tab, n) <==> PhandleOf(toks, tab, m) == PhandleOf(toks, tab, n)))
  {
    hide AllFit, Shift, PhandleOf, PhandleOfNode;
    ShiftedPhandle(toks, tab, n, hi, max);
    if m < hi && toks[m].TBegin? && PhandleOf(toks, tab, m) != 0 {
      ShiftedPhandle(toks, tab, m, hi, max);
    }
  }
}
