/** What the functions on decoded trees mean, without the searches that compute them. */
module FdtLaws {
  import opened Bytes
  import opened FdtFormat
  import opened Wrappers
  import opened FdtBlob
  import opened FdtNodes
  import opened FdtEdit
  import opened FdtTree
  import opened FdtPhandles

  // ----- properties

  /** The search finds the first property of that name among those between the node's beginning and the next event of
      another kind. */
  lemma {:induction false} PropIndexExact(es: seq<Event>, k: nat, name: seq<byte>, j: nat)
    requires k <= |es|
    ensures PropIndex(es, k, name) == Some(j) <==>
              k <= j < |es| && es[j].Prop? && es[j].name == name && forall m | k <= m < j :: es[m].Prop? && es[m].name != name
    decreases |es| - k
  {
    if k < |es| && es[k].Prop? && es[k].name != name {
      PropIndexExact(es, k + 1, name, j);
    }
  }

  /** The value of a property of the node that begins at event `n`. */
  ghost function Value(es: seq<Event>, n: nat, name: seq<byte>): (v: Option<seq<byte>>)
    requires n < |es|
  {
    var k := PropIndex(es, n + 1, name);
    if k.Some? then Some(es[k.value].val) else None
  }

  /** A property has a value exactly when it is the first of its name among those of the node. */
  lemma ValueExact(es: seq<Event>, n: nat, name: seq<byte>, v: seq<byte>)
    requires n < |es|
    ensures Value(es, n, name) == Some(v) <==>
              exists j :: n < j < |es| && es[j] == Prop(name, v) && forall m | n < m < j :: es[m].Prop? && es[m].name != name
  {
    hide PropIndex;
    if Value(es, n, name) == Some(v) {
      PropIndexExact(es, n + 1, name, PropIndex(es, n + 1, name).value);
    }
    if j :| n < j < |es| && es[j] == Prop(name, v) && forall m | n < m < j :: es[m].Prop? && es[m].name != name {
      PropIndexExact(es, n + 1, name, j);
    }
  }

  /** Where an event stands after another has been put in at `at`. */
  function Behind(at: nat, m: nat): (r: nat) {
    if m < at then m else m + 1
  }

  /** Properties at and behind a place do not see an event put in before it. */
  lemma {:induction false} IndexShifted(es: seq<Event>, at: nat, e: Event, k: nat, name: seq<byte>)
    requires at <= k <= |es|
    ensures var r := es[..at] + [e] + es[at..];
            PropIndex(r, k + 1, name) == var p := PropIndex(es, k, name); if p.Some? then Some(p.value + 1) else None
    decreases |es| - k
  {
    var r := es[..at] + [e] + es[at..];
    if k < |es| {
      assert r[k + 1] == es[k];
      if es[k].Prop? && es[k].name != name {
        IndexShifted(es, at, e, k + 1, name);
      }
    }
  }

  /** Nor do those that end before it. */
  lemma {:induction false} IndexBefore(es: seq<Event>, at: nat, e: Event, k: nat, name: seq<byte>)
    requires 0 < at <= |es| && k <= at && !es[at - 1].Prop? && k < at
    ensures PropIndex(es[..at] + [e] + es[at..], k, name) == PropIndex(es, k, name)
    ensures PropIndex(es, k, name).Some? ==> PropIndex(es, k, name).value < at
    decreases at - k
  {
    var r := es[..at] + [e] + es[at..];
    assert r[k] == es[k];
    if es[k].Prop? && es[k].name != name {
      IndexBefore(es, at, e, k + 1, name);
    }
  }

  lemma {:induction false} IndexReplaced(es: seq<Event>, at: nat, name: seq<byte>, v: seq<byte>, k: nat, other: seq<byte>)
    requires at < |es| && es[at].Prop? && es[at].name == name && k <= |es|
    ensures PropIndex(es[at := Prop(name, v)], k, other) == PropIndex(es, k, other)
    decreases |es| - k
  {
    if k < |es| && es[k].Prop? && es[k].name != other {
      IndexReplaced(es, at, name, v, k + 1, other);
    }
  }

  /** After a property of a node has been set it has the value given. */
  lemma SetThenGet(es: seq<Event>, n: nat, name: seq<byte>, v: seq<byte>)
    requires n < |es| && es[n].Begin?
    ensures n < |WithProp(es, n, name, v)| && WithProp(es, n, name, v)[n] == es[n]
    ensures Value(WithProp(es, n, name, v), n, name) == Some(v)
  {
    hide PropIndex;
    var p, r := PropIndex(es, n + 1, name), WithProp(es, n, name, v);
    if p.Some? {
      IndexReplaced(es, p.value, name, v, n + 1, name);
    } else {
      PropIndexExact(r, n + 1, name, n + 1);
    }
  }

  lemma ReplacedOthers(es: seq<Event>, n: nat, name: seq<byte>, v: seq<byte>, m: nat, other: seq<byte>)
    requires n < |es| && es[n].Begin? && m < |es| && es[m].Begin? && (m != n || other != name)
    requires PropIndex(es, n + 1, name).Some?
    ensures var r := WithProp(es, n, name, v); |r| == |es| && r[m] == es[m] && Value(r, m, other) == Value(es, m, other)
  {
    hide PropIndex;
    var p := PropIndex(es, n + 1, name).value;
    IndexReplaced(es, p, name, v, m + 1, other);
    if PropIndex(es, m + 1, other).Some? { SameSlot(es, n, m, name, other); }
  }

  /** The value of a property found at the event that another one has been moved from. */
  lemma AddedValue(es: seq<Event>, r: seq<Event>, at: nat, e: Event, m: nat, other: seq<byte>)
    requires 0 < at <= |es| && !es[at - 1].Prop? && r == es[..at] + [e] + es[at..] && m < |es|
    ensures m >= at ==> Value(r, m + 1, other) == Value(es, m, other) && r[m + 1] == es[m]
    ensures m + 1 < at ==> Value(r, m, other) == Value(es, m, other) && r[m] == es[m]
  {
    hide PropIndex;
    if m >= at {
      IndexShifted(es, at, e, m + 1, other);
    } else if m + 1 < at {
      IndexBefore(es, at, e, m + 1, other);
    }
  }

  lemma AddedOwn(es: seq<Event>, r: seq<Event>, n: nat, e: Event, other: seq<byte>)
    requires n < |es| && r == es[..n + 1] + [e] + es[n + 1..] && e.Prop? && e.name != other
    ensures r[n] == es[n] && Value(r, n, other) == Value(es, n, other)
  {
    hide PropIndex;
    IndexShifted(es, n + 1, e, n + 1, other);
    SkipFirst(r, n + 1, other);
  }

  /** Every other property of every node, the same one of other nodes included, has the value it had; nodes stay where they
      are but for the one place that a new property takes. */
  lemma SetOthers(es: seq<Event>, n: nat, name: seq<byte>, v: seq<byte>, m: nat, other: seq<byte>)
    requires n < |es| && es[n].Begin? && m < |es| && es[m].Begin? && (m != n || other != name)
    ensures var r, m' := WithProp(es, n, name, v), if Value(es, n, name).Some? then m else Behind(n + 1, m);
            m' < |r| && r[m'] == es[m] && Value(r, m', other) == Value(es, m, other)
  {
    hide PropIndex;
    if PropIndex(es, n + 1, name).Some? {
      ReplacedOthers(es, n, name, v, m, other);
    } else if m == n {
      AddedOwn(es, WithProp(es, n, name, v), n, Prop(name, v), other);
    } else {
      AddedValue(es, WithProp(es, n, name, v), n + 1, Prop(name, v), m, other);
    }
  }

  lemma SkipFirst(r: seq<Event>, k: nat, name: seq<byte>)
    requires k < |r| && r[k].Prop? && r[k].name != name
    ensures PropIndex(r, k, name) == PropIndex(r, k + 1, name)
  {
  }

  /** Two properties found under different names, or of different nodes, are different ones. */
  lemma SameSlot(es: seq<Event>, n: nat, m: nat, name: seq<byte>, other: seq<byte>)
    requires n < |es| && es[n].Begin? && m < |es| && es[m].Begin? && (m != n || other != name)
    requires PropIndex(es, n + 1, name).Some? && PropIndex(es, m + 1, other).Some?
    ensures PropIndex(es, n + 1, name) != PropIndex(es, m + 1, other)
  {
    hide PropIndex;
    PropIndexExact(es, n + 1, name, PropIndex(es, n + 1, name).value);
    PropIndexExact(es, m + 1, other, PropIndex(es, m + 1, other).value);
  }

  /** Deleting is the inverse of adding: taking a property out and putting it back where it stood. */
  lemma WithoutPutBack(es: seq<Event>, n: nat, name: seq<byte>)
    requires n < |es| && PropIndex(es, n + 1, name).Some?
    ensures var r, k := WithoutProp(es, n, name), PropIndex(es, n + 1, name).value;
            && |r| == |es| - 1 && n < k <= |r| && es == r[..k] + [es[k]] + r[k..] && es[k].Prop? && es[k].name == name
  {
    hide PropIndex;
    PropIndexExact(es, n + 1, name, PropIndex(es, n + 1, name).value);
  }

  lemma {:induction false} IndexCut(es: seq<Event>, at: nat, k: nat, name: seq<byte>)
    requires at < |es| && k <= at && es[at].Prop? && es[at].name != name
    ensures PropIndex(es[..at] + es[at + 1..], k, name)
            == var p := PropIndex(es, k, name); if p.Some? && p.value > at then Some(p.value - 1) else p
    decreases at - k
  {
    var r := es[..at] + es[at + 1..];
    if k == at {
      assert es == r[..at] + [es[at]] + r[at..];
      IndexShifted(r, at, es[at], at, name);
    } else {
      assert r[k] == es[k];
      if es[k].Prop? && es[k].name != name {
        IndexCut(es, at, k + 1, name);
      }
    }
  }

  /** Deleting a property leaves every property of another name in its node with its value. */
  lemma DeleteOthers(es: seq<Event>, n: nat, name: seq<byte>, other: seq<byte>)
    requires n < |es| && es[n].Begin? && other != name
    ensures var r := WithoutProp(es, n, name); n < |r| && r[n] == es[n] && Value(r, n, other) == Value(es, n, other)
  {
    hide PropIndex;
    var p := PropIndex(es, n + 1, name);
    if p.Some? {
      IndexCut(es, p.value, n + 1, other);
    }
  }

  // ----- nodes

  /** A node is closed by the END behind a balanced stretch of events. */
  lemma {:induction false} CloseEventExact(es: seq<Event>, k: nat, d: nat, m: nat)
    requires k <= |es|
    ensures CloseEvent(es, k, d) == Some(m) <==> k < m <= |es| && es[m - 1].End? && Depth(es[k..m - 1], d) == Some(0)
    decreases |es| - k
  {
    if k < |es| {
      if k < m - 1 < |es| {
        assert es[k..m - 1][1..] == es[k + 1..m - 1];
      }
      var e := if es[k].Begin? then d + 1 else if es[k].End? && d > 0 then d - 1 else d;
      if !(es[k].End? && d == 0) {
        CloseEventExact(es, k + 1, e, m);
        if m == k + 1 { assert es[k..m - 1] == []; }
      } else if m == k + 1 {
        assert es[k..m - 1] == [];
      }
    }
  }

  /** What is deleted with a node: its beginning, a balanced stretch and its end. */
  lemma WithoutNodeExact(es: seq<Event>, n: nat, m: nat)
    requires n < |es| && es[n].Begin?
    requires n + 1 < m <= |es| && es[m - 1].End? && Balanced(es[n + 1..m - 1])
    ensures WithoutNode(es, n) == es[..n] + es[m..]
  {
    hide CloseEvent, Depth;
    CloseEventExact(es, n + 1, 0, m);
  }

  /** A node is added behind the properties of its parent and before anything else in it. */
  lemma WithNodeExact(es: seq<Event>, n: nat, name: seq<byte>, m: nat)
    requires n < m <= |es| && (forall k | n < k < m :: es[k].Prop?) && (m < |es| ==> !es[m].Prop?)
    ensures WithNode(es, n, name) == es[..m] + [Begin(name), End] + es[m..]
  {
    PropsEndAt(es, n + 1, m);
  }

  lemma {:induction false} PropsEndAt(es: seq<Event>, k: nat, m: nat)
    requires k <= m <= |es| && (forall j | k <= j < m :: es[j].Prop?) && (m < |es| ==> !es[m].Prop?)
    ensures PropsEnd(es, k) == m
    decreases m - k
  {
    if k < m {
      PropsEndAt(es, k + 1, m);
    }
  }

  // ----- phandles

  lemma PhandleNames()
    ensures |PHANDLE| == 7 && forall k | 0 <= k < 7 :: PHANDLE[k] == "phandle"[k] as int
    ensures |LINUX_PHANDLE| == 13 && forall k | 0 <= k < 13 :: LINUX_PHANDLE[k] == "linux,phandle"[k] as int
  {
  }

  /** A big-endian word. */
  function Word(v: seq<byte>): (w: Option<nat>) {
    if |v| == 4 then Some((v[0] as int) * 0x100_0000 + (v[1] as int) * 0x1_0000 + (v[2] as int) * 0x100 + v[3]) else None
  }

  /** The phandle of a node, on the tree: the word in its property "phandle", or else in "linux,phandle", or 0. */
  lemma PhandleInTree(toks: seq<Token>, tab: seq<byte>, i: nat)
    requires Resolve(toks, tab, 0).Some? && i < |toks| && toks[i].TBegin?
    ensures EventNo(toks, i) < |Resolve(toks, tab, 0).value|
    ensures var es, n := Resolve(toks, tab, 0).value, EventNo(toks, i);
            var p, q := Value(es, n, PHANDLE), Value(es, n, LINUX_PHANDLE);
            PhandleOf(toks, tab, i) == if p.Some? && Word(p.value).Some? then Word(p.value).value
                                       else if q.Some? && Word(q.value).Some? then Word(q.value).value else 0
  {
    hide PHANDLE, LINUX_PHANDLE, Resolve, Value, EventNo, FindProp, StringAt;
    EventStep(toks, tab, i);
    ValueInTree(toks, tab, i, PHANDLE);
    ValueInTree(toks, tab, i, LINUX_PHANDLE);
  }

  lemma ValueInTree(toks: seq<Token>, tab: seq<byte>, i: nat, name: seq<byte>)
    requires Resolve(toks, tab, 0).Some? && i < |toks| && toks[i].TBegin?
    ensures EventNo(toks, i) < |Resolve(toks, tab, 0).value|
    ensures var f := FindProp(toks, tab, i + 1, name);
            Value(Resolve(toks, tab, 0).value, EventNo(toks, i), name) == if f.Found? then Some(toks[f.k].val) else None
  {
    hide Resolve, EventNo, FindProp, PropIndex, StringAt;
    EventStep(toks, tab, i);
    FindIsIndex(toks, tab, i + 1, name);
    if FindProp(toks, tab, i + 1, name).Found? {
      EventStep(toks, tab, FindProp(toks, tab, i + 1, name).k);
    }
  }
}
