/** What the cache model of riscv/cache_model.cc means: every set is a stack of lines, the most recently
    used on top. The counters of the implementation are shown elsewhere to keep such a stack. */
module LruSpec {
  import opened Division
  import opened Wrappers

  datatype Entry = Entry(tag: nat, dirty: bool)

  type Stack = seq<Entry>

  /** Where a tag lies in a stack, or its length when it does not. */
  function Find(s: Stack, tag: nat): (k: nat)
    ensures k <= |s|
    ensures k < |s| ==> s[k].tag == tag
    ensures forall j | 0 <= j < k :: s[j].tag != tag
  {
    if s == [] || s[0].tag == tag then 0 else 1 + Find(s[1..], tag)
  }

  function RemoveAt<T>(s: seq<T>, k: nat): (r: seq<T>)
    requires k < |s|
    ensures |r| == |s| - 1
    ensures forall j | 0 <= j < |r| :: r[j] == s[if j < k then j else j + 1]
  {
    s[..k] + s[k + 1..]
  }

  datatype Outcome = Outcome(hit: bool, evicted: Option<Entry>)

  /** One access: a hit moves the line to the top; a miss puts it there, and a full set loses its bottom. */
  function Touch(s: Stack, ways: nat, tag: nat, dirty: bool): (r: (Stack, Outcome))
    requires |s| <= ways && ways > 0
    ensures |r.0| <= ways && r.0 != [] && r.0[0].tag == tag
  {
    var k := Find(s, tag);
    if k < |s| then ([Entry(tag, s[k].dirty || dirty)] + RemoveAt(s, k), Outcome(true, None))
    else if |s| < ways then ([Entry(tag, dirty)] + s, Outcome(false, None))
    else ([Entry(tag, dirty)] + s[..ways - 1], Outcome(false, Some(s[ways - 1])))
  }

  predicate Distinct(s: Stack) {
    forall i, j | 0 <= i < j < |s| :: s[i].tag != s[j].tag
  }

  lemma TouchDistinct(s: Stack, ways: nat, tag: nat, dirty: bool)
    requires |s| <= ways && ways > 0 && Distinct(s)
    ensures Distinct(Touch(s, ways, tag, dirty).0)
  {
    hide Find;
    var k := Find(s, tag);
    var t := Touch(s, ways, tag, dirty).0;
    forall m | 1 <= m < |t| ensures t[m] == s[if k < |s| && k < m then m else m - 1] {
      if k < |s| {
        assert t[m] == RemoveAt(s, k)[m - 1];
      }
    }
    forall i, j | 0 <= i < j < |t| ensures t[i].tag != t[j].tag {
    }
  }

  // ----- more ways never hurt

  function Tags(s: Stack): (ts: seq<nat>) {
    seq(|s|, i requires 0 <= i < |s| => s[i].tag)
  }

  /** The smaller stack is the top of the larger one. */
  predicate Above(s: Stack, t: Stack, ways: nat) {
    Tags(s) == Tags(t)[..Min(ways, |t|)]
  }

  /** What lies where in the smaller stack and in the larger one. */
  lemma FindAbove(s: Stack, t: Stack, ways: nat, tag: nat)
    requires |s| <= ways && Above(s, t, ways)
    ensures |s| == Min(ways, |t|) && forall i | 0 <= i < |s| :: s[i].tag == t[i].tag
    ensures Find(s, tag) < |s| ==> Find(t, tag) == Find(s, tag)
    ensures Find(s, tag) == |s| ==> Find(t, tag) >= |s|
  {
    var m := Min(ways, |t|);
    assert |s| == |Tags(s)| == m;
    assert forall i | 0 <= i < m :: s[i].tag == Tags(s)[i] == Tags(t)[i] == t[i].tag;
  }

  /** An access keeps the smaller stack the top of the larger one, however many more ways that has. */
  lemma TouchAbove(s: Stack, t: Stack, ways: nat, more: nat, tag: nat, d: bool, e: bool)
    requires 0 < ways <= more && |s| <= ways && |t| <= more && Above(s, t, ways)
    ensures Above(Touch(s, ways, tag, d).0, Touch(t, more, tag, e).0, ways)
    ensures Touch(s, ways, tag, d).1.hit ==> Touch(t, more, tag, e).1.hit
  {
    hide Find;
    FindAbove(s, t, ways, tag);
    var j, k := Find(s, tag), Find(t, tag);
    var u, v := Touch(s, ways, tag, d).0, Touch(t, more, tag, e).0;
    assert |u| == Min(ways, |v|);
    forall i | 0 <= i < |u| ensures Tags(u)[i] == Tags(v)[i] {
      if i > 0 {
        assert u[i].tag == s[if j < |s| && j <= i - 1 then i else i - 1].tag;
        assert v[i].tag == t[if k < |t| && k <= i - 1 then i else i - 1].tag;
      }
    }
  }

  /** A trace of accesses to one set: tags, and whether they dirty the line. */
  function Run(s: Stack, ways: nat, trace: seq<(nat, bool)>): (r: Stack)
    requires |s| <= ways && ways > 0
    ensures |r| <= ways
    decreases |trace|
  {
    if trace == [] then s
    else
      var n := |trace| - 1;
      Touch(Run(s, ways, trace[..n]), ways, trace[n].0, trace[n].1).0
  }

  /** Inclusion: after any trace, what a set of `ways` lines holds is the most recent part of what one with more
      lines holds; so every access that hits in the smaller hits in the larger. */
  lemma {:induction false} Inclusion(ways: nat, more: nat, trace: seq<(nat, bool)>, tag: nat)
    requires 0 < ways <= more
    ensures Above(Run([], ways, trace), Run([], more, trace), ways)
    ensures Find(Run([], ways, trace), tag) < |Run([], ways, trace)| ==> Find(Run([], more, trace), tag) < |Run([], more, trace)|
    decreases |trace|
  {
    if trace != [] {
      var n := |trace| - 1;
      Inclusion(ways, more, trace[..n], tag);
      TouchAbove(Run([], ways, trace[..n]), Run([], more, trace[..n]), ways, more, trace[n].0, trace[n].1, trace[n].1);
    }
    FindAbove(Run([], ways, trace), Run([], more, trace), ways, tag);
  }

  // ----- what a set holds, without a stack

  /** The tags accessed after the last access to `tag`. */
  function After(trace: seq<(nat, bool)>, tag: nat): (ts: set<nat>) {
    if trace == [] || trace[|trace| - 1].0 == tag then {}
    else After(trace[..|trace| - 1], tag) + {trace[|trace| - 1].0}
  }

  predicate Accessed(trace: seq<(nat, bool)>, tag: nat) {
    exists i :: 0 <= i < |trace| && trace[i].0 == tag
  }

  /** The tags above position `p`. */
  function TagsAbove(s: Stack, p: nat): (ts: set<nat>)
    requires p <= |s|
  {
    set i | 0 <= i < p :: s[i].tag
  }

  lemma {:induction false} CountAbove(s: Stack, p: nat)
    requires p <= |s| && Distinct(s)
    ensures |TagsAbove(s, p)| == p
    decreases p
  {
    if p > 0 {
      CountAbove(s, p - 1);
      assert TagsAbove(s, p) == TagsAbove(s, p - 1) + {s[p - 1].tag};
      assert s[p - 1].tag !in TagsAbove(s, p - 1);
    }
  }

  /** Where the stack stands: above every tag lie just those accessed since, and a tag that is gone has seen as many
      others since as the set has ways. */
  ghost predicate Recent(s: Stack, ways: nat, trace: seq<(nat, bool)>) {
    && |s| <= ways && Distinct(s)
    && (forall p | 0 <= p < |s| :: Accessed(trace, s[p].tag) && After(trace, s[p].tag) == TagsAbove(s, p))
    && forall tag: nat | Accessed(trace, tag) :: Find(s, tag) < |s| || |After(trace, tag)| >= ways
  }

  lemma AccessedSnoc(trace: seq<(nat, bool)>, x: (nat, bool), tag: nat)
    ensures Accessed(trace + [x], tag) <==> Accessed(trace, tag) || x.0 == tag
    ensures After(trace + [x], tag) == if x.0 == tag then {} else After(trace, tag) + {x.0}
  {
    assert (trace + [x])[..|trace|] == trace;
    if Accessed(trace, tag) {
      var i :| 0 <= i < |trace| && trace[i].0 == tag;
      assert (trace + [x])[i].0 == tag;
    }
    assert (trace + [x])[|trace|] == x;
  }

  lemma TouchedAt(s: Stack, ways: nat, tag: nat, dirty: bool, p: nat)
    requires |s| <= ways && ways > 0 && p < |Touch(s, ways, tag, dirty).0|
    ensures var r, k := Touch(s, ways, tag, dirty).0, Find(s, tag);
            r[p].tag == (if p == 0 then tag else s[if k < |s| && k < p then p else p - 1].tag)
  {
    hide Find;
  }

  /** Above the line at a position lie after an access the touched tag and those that lay above it. */
  lemma TouchedAbove(s: Stack, ways: nat, tag: nat, dirty: bool, p: nat)
    requires |s| <= ways && ways > 0 && 0 < p < |Touch(s, ways, tag, dirty).0|
    ensures var r, k := Touch(s, ways, tag, dirty).0, Find(s, tag);
            var q: nat := if k < |s| && k < p then p else p - 1;
            q < |s| && TagsAbove(r, p) == TagsAbove(s, q) + {tag}
  {
    hide Find;
    var r, k := Touch(s, ways, tag, dirty).0, Find(s, tag);
    var q: nat := if k < |s| && k < p then p else p - 1;
    forall i | 0 <= i < p ensures r[i].tag in TagsAbove(s, q) + {tag} {
      TouchedAt(s, ways, tag, dirty, i);
    }
    forall i | 0 <= i < q ensures s[i].tag in TagsAbove(r, p) {
      var j := if k < |s| && k < i then i else i + 1;
      if i != k || k == |s| {
        TouchedAt(s, ways, tag, dirty, j);
        assert r[j].tag == s[i].tag;
      } else {
        TouchedAt(s, ways, tag, dirty, 0);
        assert r[0].tag == s[i].tag;
      }
    }
    TouchedAt(s, ways, tag, dirty, 0);
    assert r[0].tag in TagsAbove(r, p);
  }

  /** A line that was held and is not the touched one is still held unless it was the last of a full set and the tag is new. */
  lemma TouchedGone(s: Stack, ways: nat, tag: nat, dirty: bool, t: nat)
    requires |s| <= ways && ways > 0 && Distinct(s) && t != tag && Find(s, t) < |s|
    requires var r := Touch(s, ways, tag, dirty).0; Find(r, t) == |r|
    ensures Find(s, tag) == |s| == ways && Find(s, t) == ways - 1
  {
    hide Find;
    var r, k, p := Touch(s, ways, tag, dirty).0, Find(s, tag), Find(s, t);
    var j := if k < |s| && k < p then p else p + 1;
    if j < |r| {
      TouchedAt(s, ways, tag, dirty, j);
      assert false;
    }
  }

  lemma {:induction false} RunRecent(ways: nat, trace: seq<(nat, bool)>)
    requires ways > 0
    ensures Recent(Run([], ways, trace), ways, trace)
    decreases |trace|
  {
    if trace != [] {
      var n := |trace| - 1;
      RunRecent(ways, trace[..n]);
      assert trace == trace[..n] + [trace[n]];
      RecentTouched(Run([], ways, trace[..n]), ways, trace[..n], trace[n]);
    }
  }

  lemma RecentTouched(s: Stack, ways: nat, trace: seq<(nat, bool)>, x: (nat, bool))
    requires ways > 0 && Recent(s, ways, trace)
    ensures Recent(Touch(s, ways, x.0, x.1).0, ways, trace + [x])
  {
    hide Find, After, Accessed, Touch, Distinct, TagsAbove;
    var r := Touch(s, ways, x.0, x.1).0;
    TouchDistinct(s, ways, x.0, x.1);
    forall p | 0 <= p < |r| ensures Accessed(trace + [x], r[p].tag) && After(trace + [x], r[p].tag) == TagsAbove(r, p) {
      HeldTouched(s, ways, trace, x, p);
    }
    forall tag: nat | Accessed(trace + [x], tag) ensures Find(r, tag) < |r| || |After(trace + [x], tag)| >= ways {
      GoneTouched(s, ways, trace, x, tag);
    }
  }

  lemma HeldTouched(s: Stack, ways: nat, trace: seq<(nat, bool)>, x: (nat, bool), p: nat)
    requires ways > 0 && Recent(s, ways, trace) && p < |Touch(s, ways, x.0, x.1).0|
    ensures var r := Touch(s, ways, x.0, x.1).0; Accessed(trace + [x], r[p].tag) && After(trace + [x], r[p].tag) == TagsAbove(r, p)
  {
    hide Find, After, Accessed, Touch, Distinct;
    var r := Touch(s, ways, x.0, x.1).0;
    TouchDistinct(s, ways, x.0, x.1);
    TouchedAt(s, ways, x.0, x.1, p);
    AccessedSnoc(trace, x, r[p].tag);
    if p > 0 {
      TouchedAbove(s, ways, x.0, x.1, p);
      NotFirst(r, p);
    }
  }

  lemma GoneTouched(s: Stack, ways: nat, trace: seq<(nat, bool)>, x: (nat, bool), tag: nat)
    requires ways > 0 && Recent(s, ways, trace) && Accessed(trace + [x], tag)
    ensures var r := Touch(s, ways, x.0, x.1).0; Find(r, tag) < |r| || |After(trace + [x], tag)| >= ways
  {
    hide Find, After, Accessed, Touch, Distinct, TagsAbove;
    var r := Touch(s, ways, x.0, x.1).0;
    TouchDistinct(s, ways, x.0, x.1);
    AccessedSnoc(trace, x, tag);
    if tag == x.0 {
      TouchedAt(s, ways, x.0, x.1, 0);
      FoundAt(r, 0, tag);
    } else if Find(r, tag) == |r| {
      if Find(s, tag) < |s| {
        TouchedGone(s, ways, x.0, x.1, tag);
        CountAbove(s, ways - 1);
        NewTag(s, x.0, ways - 1);
      } else {
        MoreElements(After(trace, tag), x.0);
      }
    }
  }

  lemma FoundAt(r: Stack, p: nat, tag: nat)
    requires p < |r| && r[p].tag == tag
    ensures Find(r, tag) < |r|
  {
  }

  lemma NotFirst(r: Stack, p: nat)
    requires Distinct(r) && 0 < p < |r|
    ensures r[p].tag != r[0].tag
  {
  }

  lemma NewTag(s: Stack, tag: nat, p: nat)
    requires p <= |s| && Find(s, tag) == |s|
    ensures |TagsAbove(s, p) + {tag}| == |TagsAbove(s, p)| + 1
  {
    hide Find;
    assert tag !in TagsAbove(s, p);
  }

  lemma MoreElements(a: set<nat>, x: nat)
    ensures |a + {x}| >= |a|
  {
    if x in a {
      assert a + {x} == a;
    }
  }

  /** The replacement policy without a stack: a set holds a line exactly when it was accessed and fewer others than the set
      has ways have been accessed since. */
  lemma HeldExact(ways: nat, trace: seq<(nat, bool)>, tag: nat)
    requires ways > 0
    ensures var s := Run([], ways, trace);
            Find(s, tag) < |s| <==> Accessed(trace, tag) && |After(trace, tag)| < ways
  {
    hide Find, After, Accessed, Run;
    RunRecent(ways, trace);
    var s := Run([], ways, trace);
    if Find(s, tag) < |s| {
      CountAbove(s, Find(s, tag));
    }
  }
}
