/** Register dependencies of a straight-line listing (nvr/disasm_reader.py): last-writer edges, the
    dependency tree of an instruction, and why that tree is a sound backward slice. */
module Slice {
  import opened Sets
  import opened Wrappers

  /** A parsed instruction: the register it writes and the registers it reads. */
  datatype Inst = Inst(dest: Option<string>, sources: seq<string>)

  /** A dependency tree is a dictionary from instruction indices to trees. */
  datatype Tree = Node(kids: map<nat, Tree>)

  /** An empty name is no register, and x0 always reads as zero and cannot be written. */
  predicate Counts(r: string) {
    r != "" && r != "x0"
  }

  function Dest(inst: Inst): (r: Option<string>) {
    if inst.dest.Some? && Counts(inst.dest.value) then inst.dest else None
  }

  // ----- direct dependencies

  /** The last of the first `n` instructions that writes `r`. */
  function LastWriter(insts: seq<Inst>, n: nat, r: string): (w: Option<nat>)
    requires n <= |insts|
    ensures w.Some? ==> w.value < n && Dest(insts[w.value]) == Some(r)
    ensures forall k: nat | k < n && (w.Some? ==> w.value < k) :: Dest(insts[k]) != Some(r)
  {
    if n == 0 then None
    else if Dest(insts[n - 1]) == Some(r) then Some(n - 1)
    else LastWriter(insts, n - 1, r)
  }

  /** The writers that the first `m` sources of instruction `i` refer to, each once, in order. */
  function DepsUpTo(insts: seq<Inst>, i: nat, m: nat): (ds: seq<nat>)
    requires i < |insts| && m <= |insts[i].sources|
    ensures forall d | d in ds :: d < i
  {
    if m == 0 then []
    else
      var ds, src := DepsUpTo(insts, i, m - 1), insts[i].sources[m - 1];
      var w := LastWriter(insts, i, src);
      if Counts(src) && w.Some? && w.value !in ds then ds + [w.value] else ds
  }

  function DepsOf(insts: seq<Inst>, i: nat): (ds: seq<nat>)
    requires i < |insts|
    ensures forall d | d in ds :: d < i
  {
    DepsUpTo(insts, i, |insts[i].sources|)
  }

  function DepsMap(insts: seq<Inst>): (deps: map<nat, seq<nat>>)
    ensures forall i: nat :: i in deps <==> i < |insts|
    ensures forall i: nat | i < |insts| :: deps[i] == DepsOf(insts, i)
  {
    map i: nat | i < |insts| :: DepsOf(insts, i)
  }

  /** The dictionary register_writers after the first `n` instructions. */
  ghost predicate Writers(insts: seq<Inst>, n: nat, writers: map<string, nat>)
    requires n <= |insts|
  {
    forall r: string :: LastWriter(insts, n, r) == if r in writers then Some(writers[r]) else None
  }

  /** The inner loop: the dependencies of one instruction. */
  method OneInstDeps(insts: seq<Inst>, i: nat, writers: map<string, nat>) returns (ds: seq<nat>)
    requires i < |insts| && Writers(insts, i, writers)
    ensures ds == DepsOf(insts, i)
  {
    hide LastWriter;
    ds := [];
    for m := 0 to |insts[i].sources|
      invariant ds == DepsUpTo(insts, i, m)
    {
      var src := insts[i].sources[m];
      assert LastWriter(insts, i, src) == if src in writers then Some(writers[src]) else None;
      if Counts(src) && src in writers && writers[src] !in ds {
        ds := ds + [writers[src]];
      }
    }
  }

  /** Instruction `d` writes the register `src`, no other before `i` writes it after that, and it is a register that can
      be written. */
  ghost predicate WritesLast(insts: seq<Inst>, i: nat, src: string, d: nat)
    requires i <= |insts|
  {
    && src != "" && src != "x0"
    && d < i && insts[d].dest == Some(src) && forall j | d < j < i :: insts[j].dest != Some(src)
  }

  /** The dependencies of an instruction are the last writers of its sources. */
  ghost predicate AreLastWriters(insts: seq<Inst>, i: nat, ds: seq<nat>)
    requires i < |insts|
  {
    NoRepeats(ds) && forall d: nat :: d in ds <==> exists k :: 0 <= k < |insts[i].sources| && WritesLast(insts, i, insts[i].sources[k], d)
  }

  /** The search of the dictionary finds the last writer. */
  lemma LastWriterExact(insts: seq<Inst>, i: nat, src: string, d: nat)
    requires i <= |insts|
    ensures Counts(src) && LastWriter(insts, i, src) == Some(d) <==> WritesLast(insts, i, src, d)
  {
    hide LastWriter;
    if Counts(src) {
      assert forall k: nat | k < i :: Dest(insts[k]) == Some(src) <==> insts[k].dest == Some(src);
    }
  }

  lemma {:induction false} DepsUpToExact(insts: seq<Inst>, i: nat, m: nat)
    requires i < |insts| && m <= |insts[i].sources|
    ensures NoRepeats(DepsUpTo(insts, i, m))
    ensures forall d: nat :: d in DepsUpTo(insts, i, m) <==> exists k :: 0 <= k < m && WritesLast(insts, i, insts[i].sources[k], d)
    decreases m
  {
    hide LastWriter, WritesLast;
    if m > 0 {
      DepsUpToExact(insts, i, m - 1);
      var src := insts[i].sources[m - 1];
      forall d: nat ensures Counts(src) && LastWriter(insts, i, src) == Some(d) <==> WritesLast(insts, i, src, d) {
        LastWriterExact(insts, i, src, d);
      }
    }
  }

  /** An instruction depends on exactly the last writers of its sources, each once. */
  lemma DepsExact(insts: seq<Inst>, i: nat)
    requires i < |insts|
    ensures AreLastWriters(insts, i, DepsOf(insts, i))
  {
    hide WritesLast, DepsUpTo;
    DepsUpToExact(insts, i, |insts[i].sources|);
  }

  /** The first half of analyze_dependencies, with its dictionary of last writers. */
  method ImmediateDeps(insts: seq<Inst>) returns (deps: map<nat, seq<nat>>)
    ensures deps == DepsMap(insts)
    ensures forall i: nat :: i in deps <==> i < |insts|
    ensures forall i: nat | i < |insts| :: AreLastWriters(insts, i, deps[i])
  {
    hide DepsOf, AreLastWriters;
    forall i: nat | i < |insts| ensures AreLastWriters(insts, i, DepsOf(insts, i)) {
      DepsExact(insts, i);
    }
    deps := map[];
    var writers: map<string, nat> := map[];
    for i := 0 to |insts|
      invariant deps == map k: nat | k < i :: DepsOf(insts, k)
      invariant Writers(insts, i, writers)
    {
      var ds := OneInstDeps(insts, i, writers);
      deps := deps[i := ds];
      if insts[i].dest.Some? && Counts(insts[i].dest.value) {
        writers := writers[insts[i].dest.value := i];
      }
    }
  }

  // ----- trees

  /** What _build_dependency_tree computes, for any dictionary of dependencies, even a cyclic one. */
  ghost function Build(i: nat, deps: map<nat, seq<nat>>, visited: set<nat>): (t: Tree)
    decreases deps.Keys - visited
  {
    if i in visited || i !in deps then Node(map[])
    else
      assert deps.Keys - (visited + {i}) < deps.Keys - visited;
      Node(map d | d in deps[i] :: Build(d, deps, visited + {i}))
  }

  /** _build_dependency_tree */
  method BuildTree(i: nat, deps: map<nat, seq<nat>>, visited: set<nat>) returns (t: Tree)
    ensures t == Build(i, deps, visited)
    decreases deps.Keys - visited
  {
    if i in visited {
      return Node(map[]);
    }
    var v := visited + {i};
    var kids: map<nat, Tree> := map[];
    if i in deps {
      assert deps.Keys - v < deps.Keys - visited;
      for n := 0 to |deps[i]|
        invariant kids == map d | d in deps[i][..n] :: Build(d, deps, v)
      {
        var d := deps[i][n];
        var sub := BuildTree(d, deps, v);
        kids := kids[d := sub];
        assert deps[i][..n + 1] == deps[i][..n] + [d];
      }
      assert deps[i][..|deps[i]|] == deps[i];
    }
    return Node(kids);
  }

  /** Every instruction that occurs in a tree. */
  ghost function Keys(t: Tree): (ks: set<nat>) {
    t.kids.Keys + set d, k | d in t.kids && k in Keys(t.kids[d]) :: k
  }

  /** analyze_dependencies */
  method Analyze(insts: seq<Inst>) returns (trees: map<nat, Tree>)
    ensures forall i: nat :: i in trees <==> i < |insts|
    ensures forall i: nat | i < |insts| :: trees[i] == Build(i, DepsMap(insts), {})
    ensures forall i: nat | i < |insts| ::
              forall d: nat :: d in trees[i].kids <==> exists k :: 0 <= k < |insts[i].sources| && WritesLast(insts, i, insts[i].sources[k], d)
    ensures forall i: nat, d: nat | i < |insts| && d in trees[i].kids :: d < i && trees[i].kids[d] == trees[d]
  {
    hide Build, DepsOf, DepsMap, WritesLast;
    var deps := ImmediateDeps(insts);
    trees := map[];
    for i := 0 to |insts|
      invariant forall k: nat :: k in trees <==> k < i
      invariant forall k: nat | k < i :: trees[k] == Build(k, deps, {})
    {
      var t := BuildTree(i, deps, {});
      trees := trees[i := t];
    }
    forall i: nat | i < |insts|
      ensures forall d: nat :: d in trees[i].kids <==> exists k :: 0 <= k < |insts[i].sources| && WritesLast(insts, i, insts[i].sources[k], d)
      ensures forall d: nat | d in trees[i].kids :: d < i && trees[i].kids[d] == trees[d]
    {
      KidsAreDeps(insts, i);
      DepsExact(insts, i);
      forall d: nat | d in trees[i].kids ensures trees[i].kids[d] == trees[d] {
        TreeOf(insts, i, d);
      }
    }
  }

  // ----- the flat chain

  predicate Ascending(s: seq<nat>) {
    forall i, j | 0 <= i < j < |s| :: s[i] < s[j]
  }

  /** list.sort on a list without repetitions. */
  method Sort(s: seq<nat>) returns (r: seq<nat>)
    requires NoRepeats(s)
    ensures Ascending(r) && Elems(r) == Elems(s)
  {
    r := [];
    for n := 0 to |s|
      invariant Ascending(r) && Elems(r) == Elems(s[..n])
    {
      var p := 0;
      while p < |r| && r[p] < s[n]
        invariant 0 <= p <= |r| && forall j | 0 <= j < p :: r[j] < s[n]
      {
        p := p + 1;
      }
      if p < |r| { NotYet(s, n, r, p); }
      Inserted(r, p, s[n]);
      r := r[..p] + [s[n]] + r[p..];
      assert s[..n + 1] == s[..n] + [s[n]];
      ElemsSnoc(s[..n], s[n]);
    }
    assert s[..|s|] == s;
  }

  lemma NotYet(s: seq<nat>, n: nat, r: seq<nat>, p: nat)
    requires NoRepeats(s) && n < |s| && Elems(r) == Elems(s[..n]) && p < |r|
    ensures r[p] != s[n]
  {
    assert r[p] in Elems(r) && r[p] in s[..n];
  }

  lemma InsertedElems(r: seq<nat>, p: nat, x: nat)
    requires p <= |r|
    ensures Elems(r[..p] + [x] + r[p..]) == Elems(r) + {x}
  {
    var t := r[..p] + [x] + r[p..];
    forall k: nat | k in r ensures k in t {
      var j :| 0 <= j < |r| && r[j] == k;
      assert t[if j < p then j else j + 1] == k;
    }
    assert t[p] == x;
    forall k: nat | k in t ensures k in r || k == x {
      var j :| 0 <= j < |t| && t[j] == k;
      assert j != p ==> r[if j < p then j else j - 1] == k;
    }
  }

  lemma Inserted(r: seq<nat>, p: nat, x: nat)
    requires Ascending(r) && p <= |r|
    requires forall j | 0 <= j < p :: r[j] < x
    requires p < |r| ==> x < r[p]
    ensures Ascending(r[..p] + [x] + r[p..]) && Elems(r[..p] + [x] + r[p..]) == Elems(r) + {x}
  {
    hide Elems;
    InsertedElems(r, p, x);
    var t := r[..p] + [x] + r[p..];
    assert forall j | 0 <= j < |t| :: t[j] == if j < p then r[j] else if j == p then x else r[j - 1];
  }

  /** _get_full_dependency_chain: exactly the instructions in the tree, in ascending order. */
  method FullChain(i: nat, deps: map<nat, seq<nat>>, visited: set<nat>) returns (chain: seq<nat>)
    ensures Ascending(chain) && Elems(chain) == Keys(Build(i, deps, visited))
    decreases deps.Keys - visited
  {
    hide Build, Keys;
    NothingBuilt(i, deps, visited);
    if i in visited {
      return [];
    }
    var v := visited + {i};
    chain := [];
    if i in deps {
      assert deps.Keys - v < deps.Keys - visited;
      for n := 0 to |deps[i]|
        invariant NoRepeats(chain) && Elems(chain) == KeysUpTo(deps, v, deps[i][..n])
      {
        var d := deps[i][n];
        chain := AppendNew(chain, [d]);
        var sub := FullChain(d, deps, v);
        chain := AppendNew(chain, sub);
        assert deps[i][..n + 1] == deps[i][..n] + [d];
        KeysOneMore(deps, v, deps[i][..n], d);
      }
      assert deps[i][..|deps[i]|] == deps[i];
      KeysOfBuild(i, deps, visited);
    }
    chain := Sort(chain);
  }

  /** Append the elements that are not there yet. */
  method AppendNew(a: seq<nat>, b: seq<nat>) returns (r: seq<nat>)
    requires NoRepeats(a)
    ensures NoRepeats(r) && Elems(r) == Elems(a) + Elems(b)
  {
    r := a;
    for m := 0 to |b|
      invariant NoRepeats(r) && Elems(r) == Elems(a) + Elems(b[..m])
    {
      assert b[..m + 1] == b[..m] + [b[m]];
      ElemsSnoc(b[..m], b[m]);
      if b[m] !in r {
        ElemsSnoc(r, b[m]);
        r := r + [b[m]];
      } else {
        assert b[m] in Elems(r);
      }
    }
    assert b[..|b|] == b;
  }

  lemma NothingBuilt(i: nat, deps: map<nat, seq<nat>>, visited: set<nat>)
    ensures i in visited || i !in deps ==> Keys(Build(i, deps, visited)) == {}
  {
  }

  ghost function KeysUpTo(deps: map<nat, seq<nat>>, v: set<nat>, ds: seq<nat>): (ks: set<nat>) {
    if ds == [] then {}
    else KeysUpTo(deps, v, ds[..|ds| - 1]) + {ds[|ds| - 1]} + Keys(Build(ds[|ds| - 1], deps, v))
  }

  lemma KeysOneMore(deps: map<nat, seq<nat>>, v: set<nat>, ds: seq<nat>, d: nat)
    ensures KeysUpTo(deps, v, ds + [d]) == KeysUpTo(deps, v, ds) + {d} + Keys(Build(d, deps, v))
  {
    assert (ds + [d])[..|ds|] == ds;
  }

  /** `k` is one of `ds`, or in the tree of one. */
  ghost predicate Under(deps: map<nat, seq<nat>>, v: set<nat>, ds: seq<nat>, k: nat) {
    k in ds || exists d :: d in ds && k in Keys(Build(d, deps, v))
  }

  lemma {:induction false} KeysUpToMember(deps: map<nat, seq<nat>>, v: set<nat>, ds: seq<nat>, k: nat)
    ensures k in KeysUpTo(deps, v, ds) <==> Under(deps, v, ds, k)
  {
    hide Build, Keys;
    if ds != [] {
      var front, last := ds[..|ds| - 1], ds[|ds| - 1];
      KeysUpToMember(deps, v, front, k);
      assert forall d :: d in ds <==> d in front || d == last;
      if k in Keys(Build(last, deps, v)) { assert last in ds; }
    }
  }

  lemma KeysOfBuild(i: nat, deps: map<nat, seq<nat>>, visited: set<nat>)
    requires i !in visited && i in deps
    ensures Keys(Build(i, deps, visited)) == KeysUpTo(deps, visited + {i}, deps[i])
  {
    forall k: nat ensures k in Keys(Build(i, deps, visited)) <==> k in KeysUpTo(deps, visited + {i}, deps[i]) {
      KeysUpToMember(deps, visited + {i}, deps[i], k);
      KeysMember(i, deps, visited, k);
    }
  }

  lemma KeysMember(i: nat, deps: map<nat, seq<nat>>, visited: set<nat>, k: nat)
    requires i !in visited && i in deps
    ensures k in Keys(Build(i, deps, visited)) <==> Under(deps, visited + {i}, deps[i], k)
  {
    var t := Build(i, deps, visited);
    assert t.kids == map d | d in deps[i] :: Build(d, deps, visited + {i});
    assert forall d | d in t.kids :: t.kids[d] == Build(d, deps, visited + {i});
  }

  // ----- slicing

  /** Values read by an instruction: x0 and missing registers read as `zero`. */
  function Reads<V>(inst: Inst, regs: string -> V, zero: V): (vs: seq<V>) {
    seq(|inst.sources|, k requires 0 <= k < |inst.sources| => if Counts(inst.sources[k]) then regs(inst.sources[k]) else zero)
  }

  /** The registers after executing, in order, those of the first `n` instructions that are in `only`.
      What instruction `k` computes from the values it reads is an arbitrary function `sem(k, _)`. */
  function Exec<V>(insts: seq<Inst>, sem: (nat, seq<V>) -> V, zero: V, init: string -> V, n: nat, only: set<nat>): (regs: string -> V)
    requires n <= |insts|
  {
    if n == 0 then init
    else
      var before := Exec(insts, sem, zero, init, n - 1, only);
      var d := Dest(insts[n - 1]);
      if n - 1 !in only || d.None? then before
      else
        var v := sem(n - 1, Reads(insts[n - 1], before, zero));
        (r: string) => if r == d.value then v else before(r)
  }

  /** Of the instructions in `only` before `n`, the last to write `r` is `d`. */
  ghost predicate WritesLastIn(insts: seq<Inst>, only: set<nat>, n: nat, r: string, d: nat)
    requires n <= |insts|
  {
    && r != "" && r != "x0" && d < n && d in only && insts[d].dest == Some(r)
    && forall j | d < j < n && j in only :: insts[j].dest != Some(r)
  }

  /** The values that instruction `d` reads, given what every register holds. */
  ghost predicate AreRead<V(!new)>(inst: Inst, regs: string -> V, zero: V, vs: seq<V>) {
    && |vs| == |inst.sources|
    && forall k | 0 <= k < |vs| :: vs[k] == if inst.sources[k] == "" || inst.sources[k] == "x0" then zero else regs(inst.sources[k])
  }

  lemma ReadsExact<V(!new)>(inst: Inst, regs: string -> V, zero: V, vs: seq<V>)
    ensures AreRead(inst, regs, zero, vs) <==> vs == Reads(inst, regs, zero)
  {
  }

  /** What executing some of the instructions leaves in a register: what the last of them to write it computed from the
      values that its sources held then. */
  lemma {:induction false} HeldValue<V(!new)>(insts: seq<Inst>, sem: (nat, seq<V>) -> V, zero: V, init: string -> V,
                                              n: nat, only: set<nat>, r: string, d: nat, vs: seq<V>)
    requires n <= |insts| && WritesLastIn(insts, only, n, r, d)
    requires AreRead(insts[d], Exec(insts, sem, zero, init, d, only), zero, vs)
    ensures Exec(insts, sem, zero, init, n, only)(r) == sem(d, vs)
    decreases n
  {
    hide AreRead, Reads;
    ReadsExact(insts[d], Exec(insts, sem, zero, init, d, only), zero, vs);
    if d < n - 1 {
      HeldValue(insts, sem, zero, init, n - 1, only, r, d, vs);
    }
  }

  /** A register that none of them writes holds what it held at the start. */
  lemma {:induction false} HeldStart<V>(insts: seq<Inst>, sem: (nat, seq<V>) -> V, zero: V, init: string -> V,
                                        n: nat, only: set<nat>, r: string)
    requires n <= |insts|
    requires r == "" || r == "x0" || forall d: nat | d < n && d in only :: insts[d].dest != Some(r)
    ensures Exec(insts, sem, zero, init, n, only)(r) == init(r)
    decreases n
  {
    hide Reads;
    if n > 0 {
      HeldStart(insts, sem, zero, init, n - 1, only, r);
    }
  }

  /** With an instruction goes everything it directly depends on. */
  ghost predicate Closed(insts: seq<Inst>, only: set<nat>) {
    forall k: nat, d: nat | k in only && k < |insts| && d in DepsOf(insts, k) :: d in only
  }

  /** Every last writer of a source is a direct dependency. */
  lemma {:induction false} WriterIsDep(insts: seq<Inst>, i: nat, m: nat, k: nat)
    requires i < |insts| && k < m <= |insts[i].sources| && Counts(insts[i].sources[k])
    requires LastWriter(insts, i, insts[i].sources[k]).Some?
    ensures LastWriter(insts, i, insts[i].sources[k]).value in DepsUpTo(insts, i, m)
  {
    hide LastWriter;
    if k < m - 1 {
      WriterIsDep(insts, i, m - 1, k);
    }
  }

  /** A register whose last writer, if any, is in both of two closed sets has the same value in both runs. */
  lemma {:induction false} SameRegister<V>(insts: seq<Inst>, sem: (nat, seq<V>) -> V, zero: V, init: string -> V,
                                           n: nat, r: string, s: set<nat>, t: set<nat>)
    requires n <= |insts| && Closed(insts, s) && Closed(insts, t)
    requires var w := LastWriter(insts, n, r); w.Some? ==> w.value in s && w.value in t
    ensures Exec(insts, sem, zero, init, n, s)(r) == Exec(insts, sem, zero, init, n, t)(r)
    decreases n, 0
  {
    if n > 0 {
      if Dest(insts[n - 1]) == Some(r) {
        SameReads(insts, sem, zero, init, n - 1, s, t);
      } else {
        SameRegister(insts, sem, zero, init, n - 1, r, s, t);
      }
    }
  }

  /** An instruction whose dependencies are in both sets reads the same values in both runs. */
  lemma {:induction false} SameReads<V>(insts: seq<Inst>, sem: (nat, seq<V>) -> V, zero: V, init: string -> V,
                                        i: nat, s: set<nat>, t: set<nat>)
    requires i < |insts| && Closed(insts, s) && Closed(insts, t)
    requires forall d | d in DepsOf(insts, i) :: d in s && d in t
    ensures Reads(insts[i], Exec(insts, sem, zero, init, i, s), zero) == Reads(insts[i], Exec(insts, sem, zero, init, i, t), zero)
    decreases i, 1
  {
    hide Exec, LastWriter;
    forall k | 0 <= k < |insts[i].sources| && Counts(insts[i].sources[k])
      ensures Exec(insts, sem, zero, init, i, s)(insts[i].sources[k]) == Exec(insts, sem, zero, init, i, t)(insts[i].sources[k])
    {
      if LastWriter(insts, i, insts[i].sources[k]).Some? {
        WriterIsDep(insts, i, |insts[i].sources|, k);
      }
      SameRegister(insts, sem, zero, init, i, insts[i].sources[k], s, t);
    }
  }

  /** Every edge goes to a smaller index, so the guard against cycles never fires and the tree does not
      depend on it. */
  lemma {:induction false} VisitedUnused(insts: seq<Inst>, i: nat, v: set<nat>, w: set<nat>)
    requires i < |insts| && (forall x | x in v :: x > i) && (forall x | x in w :: x > i)
    ensures Build(i, DepsMap(insts), v) == Build(i, DepsMap(insts), w)
    decreases i
  {
    forall d | d in DepsOf(insts, i) ensures Build(d, DepsMap(insts), v + {i}) == Build(d, DepsMap(insts), w + {i}) {
      VisitedUnused(insts, d, v + {i}, w + {i});
    }
    var a, b := Build(i, DepsMap(insts), v), Build(i, DepsMap(insts), w);
    assert a.kids == b.kids;
  }

  /** The trees below instruction `i` are the trees of its dependencies themselves. */
  lemma TreeOf(insts: seq<Inst>, i: nat, d: nat)
    requires i < |insts| && d in DepsOf(insts, i)
    ensures var t := Build(i, DepsMap(insts), {}); d in t.kids && t.kids[d] == Build(d, DepsMap(insts), {})
  {
    VisitedUnused(insts, d, {} + {i}, {});
  }

  /** A tree contains the dependencies of its root, and with each of its instructions theirs. */
  lemma {:induction false} KeysClosed(insts: seq<Inst>, i: nat)
    requires i < |insts|
    ensures forall d | d in DepsOf(insts, i) :: d in Keys(Build(i, DepsMap(insts), {}))
    ensures Closed(insts, Keys(Build(i, DepsMap(insts), {})))
    decreases i
  {
    hide DepsOf, DepsMap;
    var t := Build(i, DepsMap(insts), {});
    KidsAreDeps(insts, i);
    forall d | d in DepsOf(insts, i) ensures d in Keys(t) && Keys(Build(d, DepsMap(insts), {})) <= Keys(t) {
      TreeOf(insts, i, d);
    }
    forall k: nat, d: nat | k in Keys(t) && k < |insts| && d in DepsOf(insts, k) ensures d in Keys(t) {
      if k in t.kids {
        KeysClosed(insts, k);
        assert d in Keys(Build(k, DepsMap(insts), {}));
      } else {
        var e :| e in t.kids && k in Keys(t.kids[e]);
        TreeOf(insts, i, e);
        KeysClosed(insts, e);
      }
    }
  }

  lemma KidsAreDeps(insts: seq<Inst>, i: nat)
    requires i < |insts|
    ensures forall d :: d in Build(i, DepsMap(insts), {}).kids <==> d in DepsOf(insts, i)
    ensures forall d | d in DepsOf(insts, i) :: d < i
  {
  }

  /** It is the smallest such set: no instruction is in the tree without being needed. */
  lemma {:induction false} KeysLeast(insts: seq<Inst>, i: nat, s: set<nat>)
    requires i < |insts| && Closed(insts, s) && forall d | d in DepsOf(insts, i) :: d in s
    ensures Keys(Build(i, DepsMap(insts), {})) <= s
    decreases i
  {
    hide DepsOf, DepsMap, Build;
    var t := Build(i, DepsMap(insts), {});
    KidsAreDeps(insts, i);
    forall k | k in Keys(t) ensures k in s {
      if k !in t.kids {
        var e :| e in t.kids && k in Keys(t.kids[e]);
        TreeOf(insts, i, e);
        KeysLeast(insts, e, s);
      }
    }
  }

  /** Slice soundness: executing only the instructions in the dependency tree of `i` gives `i` the same
      source values as executing everything before it, whatever the instructions compute. */
  lemma SliceSound<V>(insts: seq<Inst>, sem: (nat, seq<V>) -> V, zero: V, init: string -> V, i: nat)
    requires i < |insts|
    ensures Reads(insts[i], Exec(insts, sem, zero, init, i, Keys(Build(i, DepsMap(insts), {}))), zero)
            == Reads(insts[i], Exec(insts, sem, zero, init, i, Below(i)), zero)
    ensures forall src | src in insts[i].sources && src != "" && src != "x0" ::
              Exec(insts, sem, zero, init, i, Keys(Build(i, DepsMap(insts), {})))(src) == Exec(insts, sem, zero, init, i, Below(i))(src)
  {
    hide Build, Keys, Exec;
    KeysClosed(insts, i);
    var s := Keys(Build(i, DepsMap(insts), {}));
    SameReads(insts, sem, zero, init, i, s, Below(i));
    forall src | src in insts[i].sources && src != "" && src != "x0"
      ensures Exec(insts, sem, zero, init, i, s)(src) == Exec(insts, sem, zero, init, i, Below(i))(src)
    {
      var k :| 0 <= k < |insts[i].sources| && insts[i].sources[k] == src;
      assert Reads(insts[i], Exec(insts, sem, zero, init, i, s), zero)[k] == Reads(insts[i], Exec(insts, sem, zero, init, i, Below(i)), zero)[k];
    }
  }
}
