/**
 * The three tables BuildSystem.__init__ builds from its list of rules
 * (makeapi.py:139-163), as functions of the rule list, with what they contain.
 *
 * Each function is defined over a prefix and the next element, the way the
 * constructor's loops fill the dictionaries one rule and one node at a time.
 */
module Tables {
  import opened Wrappers
  import opened Nodes
  import opened Traversal
  import opened TraversalFacts

  /** The nodes the first loop walks for one rule: `[r.target] + r.depends_on`. */
  function RuleNodes(r: Rule): (ns: seq<Node>)
    ensures |ns| == 1 + |r.dependsOn| && ns[0] == Dynamic(r.target) && ns[1..] == r.dependsOn
  {
    [Dynamic(r.target)] + r.dependsOn
  }

  /** Every node the first loop walks, rule after rule. */
  function AllNodes(rs: seq<Rule>): seq<Node> {
    if rs == [] then [] else AllNodes(rs[..|rs| - 1]) + RuleNodes(rs[|rs| - 1])
  }

  /** No two rules have the same target. */
  predicate DistinctTargets(rs: seq<Rule>) {
    forall i, j :: 0 <= i < j < |rs| ==> rs[i].target != rs[j].target
  }

  /** The `rules` dictionary, or the ValueError for the first rule whose target is already there. */
  function RuleTable(rs: seq<Rule>): Result<Rules, Error> {
    if rs == [] then Ok(map[])
    else
      match RuleTable(rs[..|rs| - 1])
      case Err(e) => Err(e)
      case Ok(m) =>
        var r := rs[|rs| - 1];
        if r.target in m then Err(MultipleRules(r.target)) else Ok(m[r.target := r])
  }

  /** The `nodes` dictionary: the first node seen with each id. */
  function NodeTable(ns: seq<Node>): map<string, Node> {
    if ns == [] then map[]
    else
      var m := NodeTable(ns[..|ns| - 1]);
      var n := ns[|ns| - 1];
      if n.id in m then m else m[n.id := n]
  }

  /** The insertion order of the `nodes` dictionary, which `nodes.values()` follows. */
  function NodeOrder(ns: seq<Node>): seq<string> {
    if ns == [] then []
    else
      var o := NodeOrder(ns[..|ns| - 1]);
      var n := ns[|ns| - 1];
      if n.id in NodeTable(ns[..|ns| - 1]) then o else o + [n.id]
  }

  /** What the inner loop of the second pass appends to `node_requesters[d]` for one rule. */
  function Hits(deps: seq<Node>, d: string, t: string): seq<string> {
    if deps == [] then []
    else Hits(deps[..|deps| - 1], d, t) + (if deps[|deps| - 1].id == d then [t] else [])
  }

  /** `node_requesters[d]` after the second pass over `rs`. */
  function RequestersOf(rs: seq<Rule>, d: string): seq<string> {
    if rs == [] then []
    else RequestersOf(rs[..|rs| - 1], d) + Hits(rs[|rs| - 1].dependsOn, d, rs[|rs| - 1].target)
  }

  /** The `node_requesters` dictionary: one entry per key of `nodes`. */
  function RequesterTable(rs: seq<Rule>): map<string, seq<string>> {
    map d | d in NodeTable(AllNodes(rs)) :: RequestersOf(rs, d)
  }

  // ----- rules -----

  /**
   * Construction fails exactly when two rules share a target, and then it names the
   * target of the first rule that repeats an earlier one. Otherwise `rules` maps each
   * target id to the rule with that target and has no other keys.
   */
  lemma {:induction false} RuleTableSpec(rs: seq<Rule>)
    ensures RuleTable(rs).Ok? <==> DistinctTargets(rs)
    ensures RuleTable(rs).Ok? ==>
      && RuleTable(rs).value.Keys == (set r | r in rs :: r.target)
      && forall i :: 0 <= i < |rs| ==> RuleTable(rs).value[rs[i].target] == rs[i]
    ensures RuleTable(rs).Err? ==> FirstRepeat(rs, RuleTable(rs).error)
  {
    if rs != [] {
      var p := rs[..|rs| - 1];
      var r := rs[|rs| - 1];
      RuleTableSpec(p);
      assert rs == p + [r];
      if RuleTable(p).Err? {
        var e := RuleTable(p).error;
        assert RuleTable(rs) == Err(e);
        var j :| 0 <= j < |p| && RepeatAt(p, j, e);
        RepeatAtExtend(p, r, j, e);
      } else {
        var m := RuleTable(p).value;
        if r.target in m {
          assert RuleTable(rs) == Err(MultipleRules(r.target));
          var x :| x in p && x.target == r.target;
          var k :| 0 <= k < |p| && p[k] == x;
          assert rs[..|rs| - 1] == p && rs[k] == x;
          assert RepeatAt(rs, |rs| - 1, MultipleRules(r.target));
        } else {
          assert RuleTable(rs) == Ok(m[r.target := r]);
          RuleTableGrow(p, r, m);
        }
      }
    }
  }

  /** `e` is the error for the rule at `j`: the first one whose target an earlier rule already has. */
  ghost predicate RepeatAt(rs: seq<Rule>, j: int, e: Error)
    requires 0 <= j < |rs|
  {
    && e == MultipleRules(rs[j].target)
    && DistinctTargets(rs[..j])
    && exists i :: 0 <= i < j && rs[i].target == rs[j].target
  }

  ghost predicate FirstRepeat(rs: seq<Rule>, e: Error) {
    exists j :: 0 <= j < |rs| && RepeatAt(rs, j, e)
  }

  lemma RepeatAtExtend(p: seq<Rule>, r: Rule, j: int, e: Error)
    requires 0 <= j < |p| && RepeatAt(p, j, e)
    ensures RepeatAt(p + [r], j, e) && !DistinctTargets(p + [r])
  {
    assert (p + [r])[..j] == p[..j];
    var i :| 0 <= i < j && p[i].target == p[j].target;
    assert (p + [r])[i] == p[i] && (p + [r])[j] == p[j];
  }

  lemma RuleTableGrow(p: seq<Rule>, r: Rule, m: Rules)
    requires DistinctTargets(p) && r.target !in m
    requires m.Keys == (set x | x in p :: x.target)
    requires forall i :: 0 <= i < |p| ==> m[p[i].target] == p[i]
    ensures DistinctTargets(p + [r])
    ensures m[r.target := r].Keys == (set x | x in p + [r] :: x.target)
    ensures forall i :: 0 <= i < |p + [r]| ==> m[r.target := r][(p + [r])[i].target] == (p + [r])[i]
  {
    var rs := p + [r];
    forall i, j | 0 <= i < j < |rs| ensures rs[i].target != rs[j].target {
      if j == |rs| - 1 {
        assert rs[i] == p[i] && p[i] in p;
      } else {
        assert rs[i] == p[i] && rs[j] == p[j];
      }
    }
    forall i | 0 <= i < |rs| ensures m[r.target := r][rs[i].target] == rs[i] {
      if i < |p| {
        assert rs[i] == p[i] && p[i] in p;
      }
    }
  }

  // ----- nodes -----

  /** `i` is the first position of a node with its id. */
  predicate FirstOccurrence(ns: seq<Node>, i: int)
    requires 0 <= i < |ns|
  {
    forall j :: 0 <= j < i ==> ns[j].id != ns[i].id
  }

  /** The keys of the `nodes` dictionary are exactly the ids of the walked nodes. */
  lemma {:induction false} NodeTableKeys(ns: seq<Node>)
    ensures NodeTable(ns).Keys == Elems(Ids(ns))
  {
    if ns != [] {
      var p := ns[..|ns| - 1];
      var n := ns[|ns| - 1];
      NodeTableKeys(p);
      assert ns == p + [n];
      IdsAppend(p, n);
    }
  }

  /**
   * The `nodes` dictionary holds, for each id, the node at the first position with that
   * id: a later node with the same id never replaces it.
   */
  lemma {:induction false} NodeTableFirst(ns: seq<Node>, i: nat)
    requires i < |ns| && FirstOccurrence(ns, i)
    ensures ns[i].id in NodeTable(ns) && NodeTable(ns)[ns[i].id] == ns[i]
  {
    var p := ns[..|ns| - 1];
    var n := ns[|ns| - 1];
    assert forall k :: 0 <= k < |p| ==> ns[k] == p[k];
    if i < |ns| - 1 {
      assert FirstOccurrence(p, i);
      NodeTableFirst(p, i);
    } else {
      NodeTableKeys(p);
      forall k | 0 <= k < |p| ensures Ids(p)[k] != n.id {
        assert ns[k] == p[k];
      }
      assert n.id !in NodeTable(p);
    }
  }

  lemma NodeTableSpec(ns: seq<Node>)
    ensures NodeTable(ns).Keys == Elems(Ids(ns))
    ensures forall i :: 0 <= i < |ns| && FirstOccurrence(ns, i) ==> NodeTable(ns)[ns[i].id] == ns[i]
  {
    NodeTableKeys(ns);
    forall i | 0 <= i < |ns| && FirstOccurrence(ns, i) ensures NodeTable(ns)[ns[i].id] == ns[i] {
      NodeTableFirst(ns, i);
    }
  }

  lemma IdsAppend(p: seq<Node>, n: Node)
    ensures Ids(p + [n]) == Ids(p) + [n.id]
    ensures Elems(Ids(p + [n])) == Elems(Ids(p)) + {n.id}
  {
    var pn := p + [n];
    var q := Ids(p) + [n.id];
    forall i | 0 <= i < |pn| ensures Ids(pn)[i] == q[i] {
      if i < |p| {
        assert pn[i] == p[i];
      }
    }
    assert Ids(pn) == q;
  }

  /** Position of the first node with id `x`. */
  function FirstIndex(ns: seq<Node>, x: string): (k: nat)
    requires x in Ids(ns)
    ensures k < |ns| && ns[k].id == x && FirstOccurrence(ns, k)
  {
    if ns[0].id == x then 0
    else
      assert Ids(ns)[1..] == Ids(ns[1..]);
      1 + FirstIndex(ns[1..], x)
  }

  lemma FirstIndexAppend(p: seq<Node>, n: Node, x: string)
    requires x in Ids(p)
    ensures x in Ids(p + [n]) && FirstIndex(p + [n], x) == FirstIndex(p, x)
  {
    IdsAppend(p, n);
    var k := FirstIndex(p, x);
    var k' := FirstIndex(p + [n], x);
    assert (p + [n])[k] == p[k];
    assert k' <= k;
    assert p[k'] == (p + [n])[k'];
  }

  lemma FirstIndexLast(p: seq<Node>, n: Node)
    requires n.id !in Ids(p)
    ensures n.id in Ids(p + [n]) && FirstIndex(p + [n], n.id) == |p|
  {
    IdsAppend(p, n);
    forall j | 0 <= j < |p| ensures (p + [n])[j].id != n.id {
      assert Ids(p)[j] == p[j].id && (p + [n])[j] == p[j];
    }
  }

  /** `nodes.values()` lists every key of `nodes` once. */
  lemma {:induction false} NodeOrderElems(ns: seq<Node>)
    ensures NoDup(NodeOrder(ns)) && Elems(NodeOrder(ns)) == NodeTable(ns).Keys
  {
    if ns != [] {
      var p := ns[..|ns| - 1];
      var n := ns[|ns| - 1];
      NodeOrderElems(p);
      var o := NodeOrder(p);
      if n.id !in NodeTable(p) {
        assert NodeOrder(ns) == o + [n.id];
        assert Elems(o + [n.id]) == Elems(o) + {n.id};
        NoDupAppend(o, n.id);
      }
    }
  }

  /** The ids in `o` appear in the order of the positions where each is first seen in `ns`. */
  ghost predicate FirstSeenOrder(ns: seq<Node>, o: seq<string>) {
    && (forall x :: x in o ==> x in Ids(ns))
    && forall a, b :: 0 <= a < b < |o| ==> FirstIndex(ns, o[a]) < FirstIndex(ns, o[b])
  }

  lemma FirstSeenKeep(p: seq<Node>, n: Node, o: seq<string>)
    requires FirstSeenOrder(p, o)
    ensures FirstSeenOrder(p + [n], o)
  {
    forall x | x in o ensures x in Ids(p + [n]) && FirstIndex(p + [n], x) == FirstIndex(p, x) {
      FirstIndexAppend(p, n, x);
    }
    forall a, b | 0 <= a < b < |o| ensures FirstIndex(p + [n], o[a]) < FirstIndex(p + [n], o[b]) {
      assert o[a] in o && o[b] in o;
    }
  }

  lemma FirstSeenAdd(p: seq<Node>, n: Node, o: seq<string>)
    requires FirstSeenOrder(p, o) && n.id !in Ids(p)
    ensures FirstSeenOrder(p + [n], o + [n.id])
  {
    FirstSeenKeep(p, n, o);
    FirstIndexLast(p, n);
    var o' := o + [n.id];
    forall x | x in o ensures FirstIndex(p + [n], x) < |p| {
      FirstIndexAppend(p, n, x);
    }
    forall a, b | 0 <= a < b < |o'| ensures FirstIndex(p + [n], o'[a]) < FirstIndex(p + [n], o'[b]) {
      assert o'[a] == o[a] && o[a] in o;
      if b < |o| {
        assert o'[b] == o[b];
      }
    }
  }

  /**
   * `nodes.values()` comes in insertion order: ids appear in the order of the positions
   * where each is first seen.
   */
  lemma {:induction false} NodeOrderSorted(ns: seq<Node>)
    ensures FirstSeenOrder(ns, NodeOrder(ns))
  {
    if ns != [] {
      var p := ns[..|ns| - 1];
      var n := ns[|ns| - 1];
      NodeOrderSorted(p);
      assert ns == p + [n];
      if n.id !in NodeTable(p) {
        NodeTableKeys(p);
        FirstSeenAdd(p, n, NodeOrder(p));
      } else {
        FirstSeenKeep(p, n, NodeOrder(p));
      }
    }
  }

  lemma NoDupAppend(o: seq<string>, x: string)
    requires NoDup(o) && x !in o
    ensures NoDup(o + [x])
  {
  }

  // ----- node_requesters -----

  /** The dependency ids of a rule are among the ids the constructor walks. */
  lemma {:induction false} DependencyIsNode(rs: seq<Rule>, i: nat, j: nat)
    requires i < |rs| && j < |rs[i].dependsOn|
    ensures rs[i].dependsOn[j].id in NodeTable(AllNodes(rs))
  {
    var p := rs[..|rs| - 1];
    var r := rs[|rs| - 1];
    NodeTableSpec(AllNodes(rs));
    ElemsIds(AllNodes(p), RuleNodes(r));
    if i < |rs| - 1 {
      assert rs[i] == p[i];
      DependencyIsNode(p, i, j);
      NodeTableSpec(AllNodes(p));
    } else {
      assert RuleNodes(r)[j + 1] == r.dependsOn[j];
      assert Ids(RuleNodes(r))[j + 1] == r.dependsOn[j].id;
    }
  }

  /** The target ids of the rules are among the ids the constructor walks. */
  lemma {:induction false} TargetIsNode(rs: seq<Rule>, i: nat)
    requires i < |rs|
    ensures rs[i].target in NodeTable(AllNodes(rs))
  {
    var p := rs[..|rs| - 1];
    var r := rs[|rs| - 1];
    NodeTableSpec(AllNodes(rs));
    ElemsIds(AllNodes(p), RuleNodes(r));
    if i < |rs| - 1 {
      assert rs[i] == p[i];
      TargetIsNode(p, i);
      NodeTableSpec(AllNodes(p));
    } else {
      assert Ids(RuleNodes(r))[0] == r.target;
    }
  }

  lemma ElemsIds(a: seq<Node>, b: seq<Node>)
    ensures Elems(Ids(a + b)) == Elems(Ids(a)) + Elems(Ids(b))
  {
    IdsConcat(a, b);
  }

  lemma InIds(ns: seq<Node>, x: string)
    ensures x in Ids(ns) <==> exists n :: n in ns && n.id == x
  {
    if x in Ids(ns) {
      var k :| 0 <= k < |Ids(ns)| && Ids(ns)[k] == x;
      assert ns[k] in ns;
    }
    if exists n :: n in ns && n.id == x {
      var n :| n in ns && n.id == x;
      var k :| 0 <= k < |ns| && ns[k] == n;
      assert Ids(ns)[k] == x;
    }
  }

  /** `x` is the target of some rule or the id of one of its dependencies. */
  ghost predicate Mentions(rs: seq<Rule>, x: string) {
    exists i :: 0 <= i < |rs| && (rs[i].target == x || x in Ids(rs[i].dependsOn))
  }

  lemma RuleNodeIds(r: Rule, x: string)
    ensures x in Elems(Ids(RuleNodes(r))) <==> r.target == x || x in Ids(r.dependsOn)
  {
    IdsConcat([Dynamic(r.target)], r.dependsOn);
    assert Ids([Dynamic(r.target)]) == [r.target];
  }

  lemma MentionsAppend(p: seq<Rule>, r: Rule, x: string)
    ensures Mentions(p + [r], x) <==> Mentions(p, x) || r.target == x || x in Ids(r.dependsOn)
  {
    var rs := p + [r];
    if Mentions(rs, x) {
      var i :| 0 <= i < |rs| && (rs[i].target == x || x in Ids(rs[i].dependsOn));
      if i < |p| {
        assert rs[i] == p[i];
      }
    }
    if Mentions(p, x) {
      var i :| 0 <= i < |p| && (p[i].target == x || x in Ids(p[i].dependsOn));
      assert rs[i] == p[i];
    }
    if r.target == x || x in Ids(r.dependsOn) {
      assert rs[|p|] == r;
    }
  }

  lemma NodeKeysStep(p: seq<Rule>, r: Rule, x: string)
    requires x in NodeTable(AllNodes(p)) <==> Mentions(p, x)
    ensures x in NodeTable(AllNodes(p + [r])) <==> Mentions(p + [r], x)
  {
    assert (p + [r])[..|p|] == p;
    assert AllNodes(p + [r]) == AllNodes(p) + RuleNodes(r);
    NodeTableKeys(AllNodes(p));
    NodeTableKeys(AllNodes(p + [r]));
    ElemsIds(AllNodes(p), RuleNodes(r));
    RuleNodeIds(r, x);
    MentionsAppend(p, r, x);
  }

  /** The keys of `nodes` are exactly the ids of the rules' targets and dependencies. */
  lemma {:induction false} NodeKeys(rs: seq<Rule>, x: string)
    ensures x in NodeTable(AllNodes(rs)) <==> Mentions(rs, x)
  {
    if rs != [] {
      var p := rs[..|rs| - 1];
      NodeKeys(p, x);
      NodeKeysStep(p, rs[|rs| - 1], x);
      assert p + [rs[|rs| - 1]] == rs;
    }
  }

  lemma IdsSnoc(ns: seq<Node>)
    requires ns != []
    ensures Ids(ns) == Ids(ns[..|ns| - 1]) + [ns[|ns| - 1].id]
  {
    var p := ns[..|ns| - 1];
    assert p + [ns[|ns| - 1]] == ns;
    IdsAppend(p, ns[|ns| - 1]);
  }

  lemma CountAppend(s: seq<string>, x: string, d: string)
    ensures multiset(s + [x])[d] == multiset(s)[d] + (if x == d then 1 else 0)
  {
    assert multiset(s + [x]) == multiset(s) + multiset{x};
  }

  lemma {:induction false} HitsCount(deps: seq<Node>, d: string, t: string)
    ensures |Hits(deps, d, t)| == multiset(Ids(deps))[d]
  {
    if deps != [] {
      var p := deps[..|deps| - 1];
      var last := deps[|deps| - 1];
      var extra := if last.id == d then [t] else [];
      assert Hits(deps, d, t) == Hits(p, d, t) + extra;
      HitsCount(p, d, t);
      IdsSnoc(deps);
      CountAppend(Ids(p), last.id, d);
    }
  }

  lemma {:induction false} HitsOnly(deps: seq<Node>, d: string, t: string)
    ensures forall x :: x in Hits(deps, d, t) ==> x == t
  {
    if deps != [] {
      HitsOnly(deps[..|deps| - 1], d, t);
    }
  }

  /** The inner loop appends `t` at least once exactly when the rule lists a dependency with id `d`. */
  lemma HitsMember(deps: seq<Node>, d: string, t: string, x: string)
    ensures x in Hits(deps, d, t) <==> x == t && d in Ids(deps)
  {
    HitsCount(deps, d, t);
    HitsOnly(deps, d, t);
    if d in Ids(deps) {
      assert multiset(Ids(deps))[d] > 0;
      assert Hits(deps, d, t)[0] in Hits(deps, d, t);
    } else {
      assert multiset(Ids(deps))[d] == 0;
    }
  }

  lemma {:induction false} MultisetOfOne(h: seq<string>, t: string)
    requires forall x :: x in h ==> x == t
    ensures multiset(h)[t] == |h|
  {
    if h != [] {
      assert h == [h[0]] + h[1..] && h[0] in h;
      assert multiset(h) == multiset{h[0]} + multiset(h[1..]);
      assert forall x :: x in h[1..] ==> x in h;
      MultisetOfOne(h[1..], t);
    }
  }

  /** A target id is listed under `d` exactly when its rule depends on a node with id `d`. */
  lemma {:induction false} RequestersMember(rs: seq<Rule>, d: string, t: string)
    ensures t in RequestersOf(rs, d) <==>
      exists i :: 0 <= i < |rs| && rs[i].target == t && d in Ids(rs[i].dependsOn)
  {
    if t in RequestersOf(rs, d) {
      RequestersSound(rs, d, t);
    }
    if exists i :: 0 <= i < |rs| && rs[i].target == t && d in Ids(rs[i].dependsOn) {
      var i :| 0 <= i < |rs| && rs[i].target == t && d in Ids(rs[i].dependsOn);
      RequestersComplete(rs, d, i);
    }
  }

  lemma {:induction false} RequestersSound(rs: seq<Rule>, d: string, t: string)
    requires t in RequestersOf(rs, d)
    ensures exists i :: 0 <= i < |rs| && rs[i].target == t && d in Ids(rs[i].dependsOn)
  {
    var p := rs[..|rs| - 1];
    var r := rs[|rs| - 1];
    assert RequestersOf(rs, d) == RequestersOf(p, d) + Hits(r.dependsOn, d, r.target);
    if t in RequestersOf(p, d) {
      RequestersSound(p, d, t);
      var i :| 0 <= i < |p| && p[i].target == t && d in Ids(p[i].dependsOn);
      assert rs[i] == p[i];
    } else {
      HitsMember(r.dependsOn, d, r.target, t);
      assert rs[|rs| - 1] == r;
    }
  }

  lemma {:induction false} RequestersComplete(rs: seq<Rule>, d: string, i: nat)
    requires i < |rs| && d in Ids(rs[i].dependsOn)
    ensures rs[i].target in RequestersOf(rs, d)
  {
    var p := rs[..|rs| - 1];
    var r := rs[|rs| - 1];
    assert RequestersOf(rs, d) == RequestersOf(p, d) + Hits(r.dependsOn, d, r.target);
    if i < |p| {
      assert p[i] == rs[i];
      RequestersComplete(p, d, i);
    } else {
      HitsMember(r.dependsOn, d, r.target, r.target);
    }
  }


  /** Multiplicity: `t` is listed under `d` once for each such dependency its rules list. */
  lemma {:induction false} RequestersCount(rs: seq<Rule>, d: string, t: string)
    ensures multiset(RequestersOf(rs, d))[t] == ListedUnder(rs, d, t)
  {
    if rs != [] {
      var p := rs[..|rs| - 1];
      var r := rs[|rs| - 1];
      RequestersCount(p, d, t);
      var h := Hits(r.dependsOn, d, r.target);
      assert multiset(RequestersOf(p, d) + h) == multiset(RequestersOf(p, d)) + multiset(h);
      HitsOnly(r.dependsOn, d, r.target);
      HitsCount(r.dependsOn, d, r.target);
      if r.target == t {
        MultisetOfOne(h, t);
      } else {
        assert t !in h;
      }
    }
  }

  /** How many times rules with target `t` list a dependency with id `d`. */
  function ListedUnder(rs: seq<Rule>, d: string, t: string): nat {
    if rs == [] then 0
    else
      ListedUnder(rs[..|rs| - 1], d, t) +
        (if rs[|rs| - 1].target == t then multiset(Ids(rs[|rs| - 1].dependsOn))[d] else 0)
  }

  /** When targets are distinct, only the rule for `t` contributes to it. */
  lemma {:induction false} ListedUnderOne(rs: seq<Rule>, d: string, i: nat)
    requires DistinctTargets(rs) && i < |rs|
    ensures ListedUnder(rs, d, rs[i].target) == multiset(Ids(rs[i].dependsOn))[d]
  {
    var p := rs[..|rs| - 1];
    if i < |rs| - 1 {
      assert rs[i] == p[i];
      ListedUnderOne(p, d, i);
    } else {
      ListedUnderAbsent(p, d, rs[i].target);
    }
  }

  lemma {:induction false} ListedUnderAbsent(rs: seq<Rule>, d: string, t: string)
    requires forall i :: 0 <= i < |rs| ==> rs[i].target != t
    ensures ListedUnder(rs, d, t) == 0
  {
    if rs != [] {
      ListedUnderAbsent(rs[..|rs| - 1], d, t);
    }
  }

  /** The entries of `node_requesters[d]` follow rule order: splitting the rules splits the list. */
  lemma {:induction false} RequestersFollowRuleOrder(a: seq<Rule>, b: seq<Rule>, d: string)
    ensures RequestersOf(a + b, d) == RequestersOf(a, d) + RequestersOf(b, d)
  {
    if b != [] {
      var b' := b[..|b| - 1];
      assert (a + b)[..|a + b| - 1] == a + b';
      RequestersFollowRuleOrder(a, b', d);
    } else {
      assert a + b == a;
    }
  }

  /** With a valid rule table, `t` is listed under `d` exactly when the rule for `t` depends on `d`. */
  lemma RequestersAreReverseEdges(rs: seq<Rule>, d: string, t: string)
    requires RuleTable(rs).Ok?
    ensures t in RequestersOf(rs, d) <==> IdEdge(RuleTable(rs).value, t, d)
  {
    var g := RuleTable(rs).value;
    RuleTableSpec(rs);
    RequestersMember(rs, d, t);
    if t in RequestersOf(rs, d) {
      var i :| 0 <= i < |rs| && rs[i].target == t && d in Ids(rs[i].dependsOn);
      InIds(rs[i].dependsOn, d);
    }
    if IdEdge(g, t, d) {
      var x :| x in rs && x.target == t;
      var k :| 0 <= k < |rs| && rs[k] == x;
      InIds(rs[k].dependsOn, d);
    }
  }

  /**
   * With a valid rule table, `node_requesters` is the reverse of the dependency relation:
   * its keys are those of `nodes`; a target `t` is listed under `d` exactly when the rule
   * for `t` depends on `d`, and once for each time that rule lists `d`.
   */
  lemma RequesterTableSpec(rs: seq<Rule>, d: string, t: string)
    requires RuleTable(rs).Ok?
    ensures RequesterTable(rs).Keys == NodeTable(AllNodes(rs)).Keys
    ensures d in RequesterTable(rs) ==>
      (t in RequesterTable(rs)[d] <==> IdEdge(RuleTable(rs).value, t, d))
    ensures d in RequesterTable(rs) && t in RuleTable(rs).value ==>
      multiset(RequesterTable(rs)[d])[t] == multiset(Ids(RuleTable(rs).value[t].dependsOn))[d]
  {
    var g := RuleTable(rs).value;
    RequestersAreReverseEdges(rs, d, t);
    RequestersCount(rs, d, t);
    if t in g {
      RuleTableSpec(rs);
      var x :| x in rs && x.target == t;
      var k :| 0 <= k < |rs| && rs[k] == x;
      ListedUnderOne(rs, d, k);
    }
  }
}
