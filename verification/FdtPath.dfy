/** Paths of nodes and nodes of paths (fdt/fdt_ro.c), and when each undoes the other. */
module FdtPath {
  import opened Bytes
  import opened FdtFormat
  import opened Wrappers
  import opened FdtBlob
  import opened FdtCheck
  import opened FdtNodes

  const SLASH: byte := 47

  // ----- the nodes of the tree

  /** The record is a node of the tree whose root is the first record. */
  ghost predicate InTree(toks: seq<Token>, t: nat) {
    && t < |toks| && toks[0].TBegin? && toks[t].TBegin?
    && (t > 0 ==> StackAt(toks, t) != [] && StackAt(toks, t)[0] == 0)
  }

  // ----- the next node

  /** The nearest node at or after record `x`, up to `t`. */
  lemma {:induction false} ScanStack(toks: seq<Token>, x: nat, t: nat)
    requires 0 < x <= t && InTree(toks, t)
    ensures StackAt(toks, x) != []
    ensures var sc := ScanNode(toks, x, |StackAt(toks, x)| - 1);
            && sc.AtNode? && x <= sc.k <= t && sc.d == |StackAt(toks, sc.k)| && StackAt(toks, sc.k) <= StackAt(toks, x)
            && StackAt(toks, sc.k) != [] && StackAt(toks, sc.k)[0] == 0
    decreases t - x
  {
    Kept(toks, x, t, 0);
    if !toks[x].TBegin? {
      Kept(toks, x + 1, t, 0);
      ScanStack(toks, x + 1, t);
    }
  }

  // ----- finding a child

  /** No earlier sibling answers to the name of the node. */
  ghost predicate FirstOfItsName(toks: seq<Token>, t: nat)
    requires t < |toks| && toks[t].TBegin?
  {
    forall c | 0 <= c < t && toks[c].TBegin? && StackAt(toks, c) == StackAt(toks, t) :: !NameEq(toks[c].name, toks[t].name)
  }

  lemma {:induction false} FindFrom(toks: seq<Token>, x: nat, d: nat, t: nat)
    requires x <= t < |toks| && toks[t].TBegin? && StackAt(toks, t) != [] && FirstOfItsName(toks, t)
    requires StackAt(toks, t)[|StackAt(toks, t)| - 1] < x && |StackAt(toks, x)| == |StackAt(toks, t)| + d
    ensures FindSub(toks, x, d, toks[t].name) == Some(t)
    decreases t - x
  {
    hide NameEq, StackAt;
    SameName(toks[t].name);
    if x < t {
      StillOpen(toks, x, d, t);
      FindFrom(toks, x + 1, if toks[x].TBegin? then d + 1 else if toks[x].TEnd? then d - 1 else d, t);
    }
  }

  lemma SameName(n: seq<byte>)
    ensures NameEq(n, n)
  {
  }

  /** Looking a node up by its own name, from its parent, finds it. */
  lemma FindChild(toks: seq<Token>, t: nat)
    requires t < |toks| && toks[t].TBegin? && StackAt(toks, t) != [] && FirstOfItsName(toks, t)
    ensures FindSub(toks, StackAt(toks, t)[|StackAt(toks, t)| - 1] + 1, 0, toks[t].name) == Some(t)
  {
    hide StackAt, FindSub, FirstOfItsName, NameEq;
    var p := StackAt(toks, t)[|StackAt(toks, t)| - 1];
    ParentStack(toks, t);
    FindFrom(toks, p + 1, 0, t);
  }

  /** A node with an earlier sibling of its name is not found by it: such a sibling is. */
  lemma ShadowedChild(toks: seq<Token>, t: nat)
    requires t < |toks| && toks[t].TBegin? && StackAt(toks, t) != [] && !FirstOfItsName(toks, t)
    ensures var f := FindSub(toks, StackAt(toks, t)[|StackAt(toks, t)| - 1] + 1, 0, toks[t].name);
            f.Some? && f.value < t && StackAt(toks, f.value) == StackAt(toks, t)
  {
    hide NameEq, StackAt, FindSub, Lineage;
    var c :| 0 <= c < t && toks[c].TBegin? && StackAt(toks, c) == StackAt(toks, t) && NameEq(toks[c].name, toks[t].name);
    var p := StackAt(toks, t)[|StackAt(toks, t)| - 1];
    ParentLineage(toks, t);
    LastBefore(toks, c);
    FoundBefore(toks, p + 1, 0, c, toks[t].name);
    FoundIsChild(toks, p + 1, 0, p, toks[t].name);
  }

  // ----- looking a path up

  function NextSlash(s: seq<byte>): (q: nat)
    ensures q <= |s| && (forall i | 0 <= i < q :: s[i] != SLASH) && (q < |s| ==> s[q] == SLASH)
  {
    if s == [] || s[0] == SLASH then 0 else 1 + NextSlash(s[1..])
  }

  /** From a node, down a path. */
  ghost function Walk(toks: seq<Token>, i: nat, path: seq<byte>): (r: Option<nat>)
    requires i < |toks| && toks[i].TBegin?
    ensures r.Some? ==> r.value < |toks| && toks[r.value].TBegin?
    decreases |path|
  {
    if path == [] then Some(i)
    else if path[0] == SLASH then Walk(toks, i, path[1..])
    else
      var q := NextSlash(path);
      var f := FindSub(toks, i + 1, 0, path[..q]);
      if f.None? then None else Walk(toks, f.value, path[q..])
  }

  lemma NextSlashAppend(a: seq<byte>, b: seq<byte>)
    ensures NextSlash(a + [SLASH] + b) == NextSlash(a)
  {
    var p := a + [SLASH] + b;
    assert forall k | 0 <= k < |a| :: p[k] == a[k];
    assert p[|a|] == SLASH;
  }

  /** Looking up a path in two parts is looking up the second from where the first leads. */
  lemma {:induction false} WalkJoined(toks: seq<Token>, i: nat, a: seq<byte>, b: seq<byte>)
    requires i < |toks| && toks[i].TBegin?
    ensures var m := Walk(toks, i, a); Walk(toks, i, a + [SLASH] + b) == if m.None? then None else Walk(toks, m.value, b)
    decreases |a|
  {
    hide FindSub, NextSlash;
    var p := a + [SLASH] + b;
    if a == [] {
      assert p[0] == SLASH && p[1..] == b;
    } else if a[0] == SLASH {
      assert p[1..] == a[1..] + [SLASH] + b;
      WalkJoined(toks, i, a[1..], b);
    } else {
      var q := NextSlash(a);
      NotAtSlash(a);
      NextSlashAppend(a, b);
      assert p[..q] == a[..q] && p[q..] == a[q..] + [SLASH] + b;
      var f := FindSub(toks, i + 1, 0, a[..q]);
      if f.Some? {
        WalkJoined(toks, f.value, a[q..], b);
      }
    }
  }

  /** A single name leads to the first child called so, with or without a unit address; the empty path leads nowhere else. */
  lemma WalkName(toks: seq<Token>, i: nat, n: seq<byte>)
    requires i < |toks| && toks[i].TBegin? && IsSegment(n)
    ensures Walk(toks, i, []) == Some(i)
    ensures var m := Walk(toks, i, n);
            && (m.Some? ==>
                  && IsChild(toks, i, m.value)
                  && (toks[m.value].name == n || (64 !in n && exists u: seq<byte> :: toks[m.value].name == n + [64] + u)))
            && forall c: nat | IsChild(toks, i, c) && (m.Some? ==> c < m.value) ::
                 toks[c].name != n && (64 in n || forall u: seq<byte> :: toks[c].name != n + [64] + u)
  {
    hide FindSub, NextSlash;
    NextSlashOf(n, []);
    assert n + [] == n && n[..|n|] == n && n[|n|..] == [];
    FindSubExact(toks, i, n);
  }

  /** memchr */
  method FindSlash(path: seq<byte>, p: nat) returns (q: nat)
    requires p <= |path|
    ensures q == p + NextSlash(path[p..]) <= |path|
  {
    q := p;
    while q < |path| && path[q] != SLASH
      invariant p <= q <= |path| && NextSlash(path[p..]) == q - p + NextSlash(path[q..])
    {
      assert path[q..][1..] == path[q + 1..];
      q := q + 1;
    }
  }

  /** fdt_path_offset_namelen, for a path that does not begin with an alias */
  method PathOffset(fdt: Blob, path: seq<byte>, ghost toks: seq<Token>) returns (r: int)
    requires fdt.HasStruct() && Block(fdt.StructBlock(), toks) && toks != [] && toks[0].TBegin?
    requires path != [] && path[0] == SLASH
    ensures var w := Walk(toks, 0, path);
            r == if RoProbe(fdt) < 0 then RoProbe(fdt) else if w.Some? then OffsetOf(toks, w.value) else -NOTFOUND
  {
    hide Block, OffsetOf, FindSub, NextSlash, IsChild;
    if RoProbe(fdt) < 0 {
      return RoProbe(fdt);
    }
    var p, offset: nat := 0, 0;
    ghost var i: nat := 0;
    OffsetZero(toks);
    while p < |path|
      invariant p <= |path| && i < |toks| && toks[i].TBegin? && offset == OffsetOf(toks, i)
      invariant Walk(toks, 0, path) == Walk(toks, i, path[p..])
      decreases |path| - p
    {
      while path[p] == SLASH
        invariant p < |path| && Walk(toks, 0, path) == Walk(toks, i, path[p..])
        decreases |path| - p
      {
        assert path[p..][1..] == path[p + 1..];
        p := p + 1;
        if p == |path| {
          return offset;
        }
      }
      var q := FindSlash(path, p);
      assert path[p..][..q - p] == path[p..q] && path[p..][q - p..] == path[q..];
      NotAtSlash(path[p..]);
      var sub := SubnodeOffset(fdt, offset, path[p..q], toks, i);
      if sub < 0 {
        return sub;
      }
      i := FindSub(toks, i + 1, 0, path[p..q]).value;
      offset, p := sub, q;
    }
    return offset;
  }

  lemma NotAtSlash(s: seq<byte>)
    requires s != [] && s[0] != SLASH
    ensures NextSlash(s) > 0
  {
  }

  lemma OffsetZero(toks: seq<Token>)
    ensures OffsetOf(toks, 0) == 0
  {
    assert toks[..0] == [];
  }

  // ----- the path of a node

  /** Names, each followed by a slash. */
  function Joined(names: seq<seq<byte>>): (b: seq<byte>)
    ensures names != [] ==> b != [] && b[|b| - 1] == SLASH
    ensures |b| >= |names|
  {
    if names == [] then [] else Joined(names[..|names| - 1]) + names[|names| - 1] + [SLASH]
  }

  function Names(toks: seq<Token>, st: seq<nat>): (ns: seq<seq<byte>>)
    requires forall j | 0 <= j < |st| :: st[j] < |toks| && toks[st[j]].TBegin?
    ensures |ns| == |st| && forall j | 0 <= j < |st| :: ns[j] == toks[st[j]].name
  {
    seq(|st|, j requires 0 <= j < |st| => toks[st[j]].name)
  }

  /** The root is "/"; any other path ends without a slash. */
  function Trimmed(b: seq<byte>): (p: seq<byte>) {
    if |b| > 1 then b[..|b| - 1] else b
  }

  ghost function PathOf(toks: seq<Token>, t: nat): (p: seq<byte>)
    requires t < |toks| && toks[t].TBegin?
  {
    Trimmed(Joined(Names(toks, Lineage(toks, t))))
  }

  predicate IsSegment(n: seq<byte>) {
    n != [] && SLASH !in n
  }

  /** The nodes on the way to `t` have names that a path can hold. */
  ghost predicate Spelled(toks: seq<Token>, t: nat)
    requires InTree(toks, t)
  {
    toks[0].name == [] && forall j | 0 < j < |Lineage(toks, t)| :: IsSegment(toks[Lineage(toks, t)[j]].name)
  }

  /** No node on the way to `t` has an earlier sibling that answers to its name. */
  ghost predicate Unshadowed(toks: seq<Token>, t: nat)
    requires InTree(toks, t)
  {
    UnshadowedTo(toks, t, |Lineage(toks, t)|)
  }

  ghost predicate UnshadowedTo(toks: seq<Token>, t: nat, n: nat)
    requires InTree(toks, t) && n <= |Lineage(toks, t)|
  {
    forall j | 0 < j < n :: FirstOfItsName(toks, Lineage(toks, t)[j])
  }

  /** What is left of a path after its first `j` names. */
  function Rest(names: seq<seq<byte>>, j: nat): (b: seq<byte>)
    requires j <= |names|
    ensures b != [] ==> b[0] == SLASH
    decreases |names| - j
  {
    if j == |names| then [] else [SLASH] + names[j] + Rest(names, j + 1)
  }

  lemma {:induction false} JoinedRest(names: seq<seq<byte>>, j: nat)
    requires 1 <= j <= |names|
    ensures var b := Joined(names[..j]); Joined(names) == b[..|b| - 1] + Rest(names, j) + [SLASH]
    decreases |names| - j
  {
    if j == |names| {
      assert names[..j] == names;
      assert Joined(names)[..|Joined(names)| - 1] + [] + [SLASH] == Joined(names);
    } else {
      JoinedRest(names, j + 1);
      JoinedNext(names, j);
      var b, c := Joined(names[..j]), Joined(names[..j + 1]);
      Regroup(b[..|b| - 1], [SLASH] + names[j], Rest(names, j + 1), [SLASH]);
    }
  }

  lemma Regroup(a: seq<byte>, b: seq<byte>, c: seq<byte>, d: seq<byte>)
    ensures (a + b) + c + d == a + (b + c) + d
  {
  }

  lemma JoinedNext(names: seq<seq<byte>>, j: nat)
    requires 1 <= j < |names|
    ensures var b, c := Joined(names[..j]), Joined(names[..j + 1]); c[..|c| - 1] == b[..|b| - 1] + ([SLASH] + names[j])
  {
    assert names[..j + 1][..j] == names[..j];
    var b, c := Joined(names[..j]), Joined(names[..j + 1]);
    assert c == b + names[j] + [SLASH];
    assert b == b[..|b| - 1] + [SLASH];
  }

  lemma JoinedRoot(names: seq<seq<byte>>)
    requires names != [] && names[0] == []
    ensures Joined(names[..1]) == [SLASH]
  {
    assert names[..1][..0] == [] && names[..1][0] == [];
  }

  /** With a nameless root, the path is a slash and the names below, or what is left after the root's. */
  lemma PathIsRest(names: seq<seq<byte>>)
    requires names != [] && names[0] == []
    ensures Trimmed(Joined(names)) == if |names| == 1 then [SLASH] else Rest(names, 1)
  {
    hide Joined;
    JoinedRoot(names);
    JoinedRest(names, 1);
    var r := Rest(names, 1);
    assert [SLASH][..0] + r + [SLASH] == r + [SLASH];
    assert |names| > 1 ==> r != [];
  }

  lemma NextSlashOf(n: seq<byte>, rest: seq<byte>)
    requires SLASH !in n && (rest != [] ==> rest[0] == SLASH)
    ensures NextSlash(n + rest) == |n|
  {
    assert forall k | 0 <= k < |n| :: (n + rest)[k] == n[k] != SLASH;
    assert rest != [] ==> (n + rest)[|n|] == SLASH;
  }

  lemma LineageParent(toks: seq<Token>, t: nat, j: nat)
    requires t < |toks| && toks[t].TBegin? && 0 < j < |Lineage(toks, t)|
    ensures var st := Lineage(toks, t); StackAt(toks, st[j]) != [] && StackAt(toks, st[j])[|StackAt(toks, st[j])| - 1] == st[j - 1]
    decreases t
  {
    var st := StackAt(toks, t);
    if j < |st| {
      if j == |st| - 1 {
        ParentStack(toks, t);
      } else {
        ParentStack(toks, t);
        LineageParent(toks, st[|st| - 1], j);
      }
    }
  }

  lemma WalkOne(toks: seq<Token>, i: nat, n: seq<byte>, rest: seq<byte>, f: nat)
    requires i < |toks| && toks[i].TBegin? && IsSegment(n) && (rest != [] ==> rest[0] == SLASH)
    requires FindSub(toks, i + 1, 0, n) == Some(f)
    ensures Walk(toks, i, [SLASH] + n + rest) == Walk(toks, f, rest)
  {
    hide NextSlash, FindSub;
    var path := [SLASH] + n + rest;
    NextSlashOf(n, rest);
    assert path[1..] == n + rest && (n + rest)[0] == n[0];
    assert (n + rest)[..|n|] == n && (n + rest)[|n|..] == rest;
  }

  /** The walk follows the way to `t` up to its `j`-th node if none before is shadowed. */
  lemma {:induction false} WalkDown(toks: seq<Token>, t: nat, j: nat)
    requires InTree(toks, t) && Spelled(toks, t) && 0 < j <= |Lineage(toks, t)| && UnshadowedTo(toks, t, j)
    ensures var st, names := Lineage(toks, t), Names(toks, Lineage(toks, t));
            Walk(toks, st[0], Rest(names, 1)) == Walk(toks, st[j - 1], Rest(names, j))
    decreases j
  {
    hide FindSub, StackAt, IsSegment, FirstOfItsName, Walk, Lineage, Rest;
    var st := Lineage(toks, t);
    var names := Names(toks, st);
    if j > 1 {
      WalkDown(toks, t, j - 1);
      LineageParent(toks, t, j - 1);
      FindChild(toks, st[j - 1]);
      RestStep(names, j - 1);
      WalkOne(toks, st[j - 2], names[j - 1], Rest(names, j), st[j - 1]);
    }
  }

  lemma RestStep(names: seq<seq<byte>>, j: nat)
    requires j < |names|
    ensures Rest(names, j) == [SLASH] + names[j] + Rest(names, j + 1)
  {
  }

  /** A walk from a node ends at it or below it. */
  lemma {:induction false} WalkInside(toks: seq<Token>, i: nat, path: seq<byte>)
    requires i < |toks| && toks[i].TBegin?
    ensures Walk(toks, i, path).Some? ==> Lineage(toks, i) <= Lineage(toks, Walk(toks, i, path).value)
    decreases |path|
  {
    hide FindSub, StackAt, NextSlash;
    if path != [] && path[0] == SLASH {
      WalkInside(toks, i, path[1..]);
    } else if path != [] {
      var q := NextSlash(path);
      var f := FindSub(toks, i + 1, 0, path[..q]);
      if f.Some? {
        NotAtSlash(path);
        StackStep(toks, i);
        assert StackAt(toks, i + 1) == Lineage(toks, i);
        FoundIsChild(toks, i + 1, 0, i, path[..q]);
        WalkInside(toks, f.value, path[q..]);
        assert Lineage(toks, f.value) == Lineage(toks, i) + [f.value];
      }
    }
  }

  /** The walk goes astray at the first shadowed node. */
  lemma WalkAstray(toks: seq<Token>, t: nat, j: nat)
    requires InTree(toks, t) && Spelled(toks, t) && 0 < j < |Lineage(toks, t)|
    requires UnshadowedTo(toks, t, j) && !FirstOfItsName(toks, Lineage(toks, t)[j])
    ensures Walk(toks, Lineage(toks, t)[0], Rest(Names(toks, Lineage(toks, t)), 1)) != Some(t)
  {
    hide FindSub, StackAt, IsSegment, FirstOfItsName, Walk, Rest;
    var st := Lineage(toks, t);
    var names := Names(toks, st);
    RestStep(names, j);
    WalkDown(toks, t, j);
    LineageParent(toks, t, j);
    ShadowedChild(toks, st[j]);
    var f := FindSub(toks, st[j - 1] + 1, 0, names[j]).value;
    WalkOne(toks, st[j - 1], names[j], Rest(names, j + 1), f);
    WalkInside(toks, f, Rest(names, j + 1));
    LineagePrefix(toks, t, j);
    assert Lineage(toks, f)[j] == f;
  }

  lemma LineagePrefix(toks: seq<Token>, t: nat, j: nat)
    requires t < |toks| && toks[t].TBegin? && j < |Lineage(toks, t)|
    ensures |StackAt(toks, Lineage(toks, t)[j])| == j
    decreases t
  {
    var st := StackAt(toks, t);
    if j < |st| {
      ParentStack(toks, t);
      if j < |st| - 1 {
        LineagePrefix(toks, st[|st| - 1], j);
      }
    }
  }

  /** Either no node on the way is shadowed, or there is a first one that is. */
  lemma {:induction false} FirstShadowed(toks: seq<Token>, t: nat, n: nat) returns (j: nat)
    requires InTree(toks, t) && n <= |Lineage(toks, t)| && !UnshadowedTo(toks, t, n)
    ensures 0 < j < n && UnshadowedTo(toks, t, j) && !FirstOfItsName(toks, Lineage(toks, t)[j])
    decreases n
  {
    hide FirstOfItsName, StackAt;
    if n > 0 && !UnshadowedTo(toks, t, n - 1) {
      j := FirstShadowed(toks, t, n - 1);
    } else {
      j := n - 1;
    }
  }

  /** Looking up the path of a node gives the node back, however deep it lies, exactly when no node on the way to it
      has an earlier sibling that answers to its name. */
  lemma PathInverse(toks: seq<Token>, t: nat)
    requires InTree(toks, t) && Spelled(toks, t)
    ensures PathOf(toks, t) != [] && PathOf(toks, t)[0] == SLASH
    ensures Walk(toks, 0, PathOf(toks, t)) == Some(t) <==> Unshadowed(toks, t)
  {
    hide StackAt, Walk, NameEq, FirstOfItsName, IsSegment;
    var st := Lineage(toks, t);
    var names := Names(toks, st);
    LineageRoot(toks, t);
    PathIsRest(names);
    if |st| == 1 {
      WalkSlash(toks);
    } else if Unshadowed(toks, t) {
      WalkDown(toks, t, |st|);
      WalkNowhere(toks, t);
    } else {
      var j := FirstShadowed(toks, t, |st|);
      WalkAstray(toks, t, j);
    }
  }

  lemma WalkNowhere(toks: seq<Token>, t: nat)
    requires t < |toks| && toks[t].TBegin?
    ensures Walk(toks, t, []) == Some(t)
  {
  }

  lemma LineageRoot(toks: seq<Token>, t: nat)
    requires InTree(toks, t)
    ensures Lineage(toks, t)[0] == 0
  {
  }

  lemma WalkSlash(toks: seq<Token>)
    requires toks != [] && toks[0].TBegin?
    ensures Walk(toks, 0, [SLASH]) == Some(0)
  {
    assert [SLASH][1..] == [];
  }

  // ----- fdt_get_path

  lemma {:induction false} JoinedGrows(names: seq<seq<byte>>, j: nat)
    requires j <= |names|
    ensures |Joined(names[..j])| <= |Joined(names)| && Joined(names)[..|Joined(names[..j])|] == Joined(names[..j])
    decreases |names|
  {
    if j == |names| {
      assert names[..j] == names;
    } else {
      var up := names[..|names| - 1];
      assert up[..j] == names[..j];
      JoinedGrows(up, j);
      assert Joined(names)[..|Joined(up)|] == Joined(up);
    }
  }

  /** The buffer holds the first `pdepth` names, and the next one, if any, did not fit. */
  ghost predicate Holding(buf: seq<byte>, p: nat, names: seq<seq<byte>>, pdepth: nat) {
    && pdepth <= |names| && p <= |buf| && buf[..p] == Joined(names[..pdepth])
    && (pdepth < |names| ==> |Joined(names[..pdepth + 1])| > |buf|)
  }

  /** The loop that takes the last name off the buffer. */
  method PopName(buf: array<byte>, p: nat, ghost names: seq<seq<byte>>) returns (q: nat)
    requires |names| >= 2 && SLASH !in names[|names| - 1] && p <= buf.Length && buf[..p] == Joined(names)
    ensures q <= p && buf[..q] == Joined(names[..|names| - 1])
  {
    hide Joined;
    ghost var up, n := names[..|names| - 1], names[|names| - 1];
    JoinedLast(names);
    ghost var b := Joined(names);
    assert forall j | 0 <= j < p :: buf[j] == buf[..p][j] == b[j];
    assert forall j | |Joined(up)| <= j < p - 1 :: b[j] == n[j - |Joined(up)|] != SLASH;
    q := p - 1;
    while buf[q - 1] != SLASH
      invariant 0 < |Joined(up)| <= q < p
      decreases q
    {
      q := q - 1;
    }
    assert buf[..q] == buf[..p][..q];
  }

  lemma JoinedLast(names: seq<seq<byte>>)
    requires |names| >= 2
    ensures var up := names[..|names| - 1];
            && Joined(names) == Joined(up) + names[|names| - 1] + [SLASH]
            && Joined(up) != [] && Joined(up)[|Joined(up)| - 1] == SLASH
  {
  }

  /** The names above a depth are popped. */
  method PopTo(buf: array<byte>, p0: nat, depth0: nat, depth: nat, ghost names: seq<seq<byte>>) returns (p: nat, pdepth: nat)
    requires Holding(buf[..], p0, names, depth0) && 0 < depth <= |names| && forall j | 0 <= j < |names| :: SLASH !in names[j]
    ensures pdepth <= depth && p <= buf.Length && buf[..p] == Joined(names[..pdepth])
    ensures pdepth < depth ==> |Joined(names[..pdepth + 1])| > buf.Length
  {
    hide Joined;
    p, pdepth := p0, depth0;
    assert buf[..][..p] == buf[..p];
    while pdepth > depth
      invariant pdepth <= |names| && p <= buf.Length && buf[..p] == Joined(names[..pdepth])
      invariant pdepth < depth ==> |Joined(names[..pdepth + 1])| > buf.Length
      decreases pdepth
    {
      assert names[..pdepth][..pdepth - 1] == names[..pdepth - 1];
      p := PopName(buf, p, names[..pdepth]);
      pdepth := pdepth - 1;
    }
  }

  /** The name of the node and a slash, if they fit. */
  method PushName(buf: array<byte>, p0: nat, name: seq<byte>, ghost names: seq<seq<byte>>) returns (p: nat, pushed: bool)
    requires names != [] && name == names[|names| - 1] && p0 <= buf.Length && buf[..p0] == Joined(names[..|names| - 1])
    modifies buf
    ensures pushed <==> |Joined(names)| <= buf.Length
    ensures p <= buf.Length && buf[..p] == Joined(if pushed then names else names[..|names| - 1])
  {
    p := p0;
    pushed := p + |name| + 1 <= buf.Length;
    if pushed {
      ghost var b := buf[..p0];
      for i := 0 to |name|
        invariant forall j | 0 <= j < p0 :: buf[j] == b[j]
        invariant forall j | 0 <= j < i :: buf[p0 + j] == name[j]
      {
        buf[p0 + i] := name[i];
      }
      buf[p0 + |name|] := SLASH;
      p := p0 + |name| + 1;
      assert buf[..p] == b + name + [SLASH];
    }
  }

  /** The end of fdt_get_path: the last slash goes, but for the root's, and a NUL comes. */
  method EndPath(buf: array<byte>, p0: nat, ghost names: seq<seq<byte>>)
    requires names != [] && p0 <= buf.Length && 2 <= buf.Length && buf[..p0] == Joined(names)
    modifies buf
    ensures var path := Trimmed(Joined(names)); |path| < buf.Length && buf[..|path|] == path && buf[|path|] == 0
  {
    var p := p0;
    if p > 1 {
      p := p - 1;
    }
    assert buf[..p] == buf[..p0][..p];
    buf[p] := 0;
  }

  /** fdt_get_path of a node of the tree; no name before it has a slash. The path is there in full, or there
      is no room for it and the slash after its last name. */
  method GetPath(fdt: Blob, nodeoffset: nat, buf: array<byte>, ghost toks: seq<Token>, ghost t: nat) returns (r: int)
    requires fdt.HasStruct() && Block(fdt.StructBlock(), toks) && InTree(toks, t) && nodeoffset == OffsetOf(toks, t)
    requires buf != fdt.buf && forall k | 0 <= k <= t && toks[k].TBegin? :: SLASH !in toks[k].name
    modifies buf
    ensures r == if RoProbe(fdt) < 0 then RoProbe(fdt)
                 else if buf.Length >= 2 && |Joined(Names(toks, Lineage(toks, t)))| <= buf.Length then 0 else -NOSPACE
    ensures RoProbe(fdt) >= 0 && r == 0 ==> var path := PathOf(toks, t); |path| < buf.Length && buf[..|path|] == path && buf[|path|] == 0
  {
    hide Block, OffsetOf, ScanNode, StackAt, Joined, Trimmed, Holding, Names, RoProbe;
    if RoProbe(fdt) < 0 {
      return RoProbe(fdt);
    }
    if buf.Length < 2 {
      return -NOSPACE;
    }
    var p, pdepth, offset, depth: nat := 0, 0, 0, 0;
    ghost var k: nat, names := 0, [];
    OffsetZero(toks);
    RootStack(toks);
    HoldingNone(buf[..]);
    while true
      invariant k <= t && InTree(toks, k) && offset == OffsetOf(toks, k) && depth == |StackAt(toks, k)|
      invariant Holding(buf[..], p, names, pdepth) && forall j | 0 <= j < |names| :: SLASH !in names[j]
      invariant depth <= |names| && Names(toks, StackAt(toks, k)) == names[..depth] && (depth == 0 ==> names == [])
      decreases t - k
    {
      p, pdepth := Visit(fdt, buf, p, pdepth, offset, depth, names, toks, k);
      names := Names(toks, Lineage(toks, k));
      OffsetMonotone(toks, k, t);
      if offset == nodeoffset {
        r := Finish(buf, p, pdepth, depth, names);
        return;
      }
      NextInTree(toks, k, t);
      ghost var sc := ScanNode(toks, k + 1, depth);
      var next, d := NextNode(fdt, offset, depth, toks, k);
      offset, depth := next, d;
      k := sc.k;
    }
  }

  /** After a node of the tree that is not `t` comes another, below an open one. */
  lemma NextInTree(toks: seq<Token>, k: nat, t: nat)
    requires InTree(toks, k) && InTree(toks, t) && k < t
    ensures var sc, names := ScanNode(toks, k + 1, |StackAt(toks, k)|), Names(toks, Lineage(toks, k));
            && sc.AtNode? && k < sc.k <= t && InTree(toks, sc.k) && 0 < sc.d == |StackAt(toks, sc.k)| <= |names|
            && Names(toks, StackAt(toks, sc.k)) == names[..sc.d]
  {
    hide StackAt, ScanNode, Names;
    ScanStack(toks, k + 1, t);
    StackStep(toks, k);
    NamesPrefix(toks, StackAt(toks, ScanNode(toks, k + 1, |StackAt(toks, k)|).k), Lineage(toks, k));
  }

  lemma NamesPrefix(toks: seq<Token>, st: seq<nat>, up: seq<nat>)
    requires st <= up && forall j | 0 <= j < |up| :: up[j] < |toks| && toks[up[j]].TBegin?
    ensures Names(toks, st) == Names(toks, up)[..|st|]
  {
  }

  /** One turn of the loop of fdt_get_path: names below the node's parent go, and its own name comes. */
  method Visit(fdt: Blob, buf: array<byte>, p0: nat, pdepth0: nat, offset: nat, depth: nat, ghost names: seq<seq<byte>>,
               ghost toks: seq<Token>, ghost k: nat)
    returns (p: nat, pdepth: nat)
    requires RoProbe(fdt) >= 0 && fdt.HasStruct() && Block(fdt.StructBlock(), toks) && buf != fdt.buf
    requires InTree(toks, k) && offset == OffsetOf(toks, k) && depth == |StackAt(toks, k)| <= |names|
    requires Holding(buf[..], p0, names, pdepth0) && forall j | 0 <= j < |names| :: SLASH !in names[j]
    requires Names(toks, StackAt(toks, k)) == names[..depth] && (depth == 0 ==> names == [])
    modifies buf
    ensures Holding(buf[..], p, Names(toks, Lineage(toks, k)), pdepth)
  {
    hide Block, OffsetOf, StackAt, Joined;
    p, pdepth := p0, pdepth0;
    assert buf[..][..p] == buf[..p];
    if pdepth > depth {
      p, pdepth := PopTo(buf, p, pdepth, depth, names);
    }
    ghost var st := Names(toks, Lineage(toks, k));
    LineageNames(toks, k, names, depth, pdepth);
    if pdepth >= depth {
      var name := NodeName(fdt, offset, toks, k);
      var pushed;
      p, pushed := PushName(buf, p, name, st);
      if pushed {
        pdepth := pdepth + 1;
      }
    }
    assert buf[..][..p] == buf[..p];
  }

  lemma LineageNames(toks: seq<Token>, k: nat, names: seq<seq<byte>>, depth: nat, d: nat)
    requires InTree(toks, k) && depth == |StackAt(toks, k)| <= |names| && Names(toks, StackAt(toks, k)) == names[..depth]
    ensures var st := Names(toks, Lineage(toks, k));
            && |st| == depth + 1 && st[depth] == toks[k].name && st[..depth + 1] == st && st[..depth] == names[..depth]
            && (d <= depth ==> st[..d] == names[..d]) && (d < depth ==> st[..d + 1] == names[..d + 1])
  {
    hide StackAt;
    var st := Names(toks, Lineage(toks, k));
    assert forall i | 0 <= i < depth :: st[i] == Names(toks, StackAt(toks, k))[i] == names[i];
  }

  /** The last turn of the loop of fdt_get_path. */
  method Finish(buf: array<byte>, p: nat, pdepth: nat, depth: nat, ghost names: seq<seq<byte>>) returns (r: int)
    requires Holding(buf[..], p, names, pdepth) && |names| == depth + 1 && buf.Length >= 2
    modifies buf
    ensures r == if |Joined(names)| <= buf.Length then 0 else -NOSPACE
    ensures r == 0 ==> var path := Trimmed(Joined(names)); |path| < buf.Length && buf[..|path|] == path && buf[|path|] == 0
  {
    hide Joined, Trimmed;
    JoinedGrows(names, if pdepth < |names| then pdepth + 1 else pdepth);
    if pdepth < depth + 1 {
      return -NOSPACE;
    }
    assert names[..pdepth] == names;
    EndPath(buf, p, names);
    return 0;
  }

  lemma HoldingNone(buf: seq<byte>)
    ensures Holding(buf, 0, [], 0)
  {
    assert buf[..0] == Joined([]);
  }

  lemma RootStack(toks: seq<Token>)
    requires toks != [] && toks[0].TBegin?
    ensures StackAt(toks, 0) == [] && Lineage(toks, 0) == [0]
  {
  }
}
