/**
 * What the walk of traverse_dag guarantees: each node is entered and left once, the
 * returned set is exactly what is reachable, dependencies are left before their
 * dependents, and a dependency cycle through two or more ids always raises.
 */
module TraversalFacts {
  import opened Wrappers
  import opened Nodes
  import opened Traversal

  // ----- Traces under concatenation -----

  lemma AppendAssoc<T>(x: seq<T>, y: seq<T>, z: seq<T>)
    ensures (x + y) + z == x + (y + z)
  {
  }

  lemma {:induction false} PreIdsConcat(a: seq<Event>, b: seq<Event>)
    ensures PreIds(a + b) == PreIds(a) + PreIds(b)
  {
    if a == [] {
      assert a + b == b;
    } else {
      var ab := a + b;
      var head := if a[0].Pre? then [a[0].node.id] else [];
      assert ab[0] == a[0] && ab[1..] == a[1..] + b;
      assert PreIds(ab) == head + PreIds(a[1..] + b);
      assert PreIds(a) == head + PreIds(a[1..]);
      PreIdsConcat(a[1..], b);
      AppendAssoc(head, PreIds(a[1..]), PreIds(b));
    }
  }

  lemma {:induction false} PostNodesConcat(a: seq<Event>, b: seq<Event>)
    ensures PostNodes(a + b) == PostNodes(a) + PostNodes(b)
  {
    if a == [] {
      assert a + b == b;
    } else {
      var ab := a + b;
      var head := if a[0].Post? then [a[0].node] else [];
      assert ab[0] == a[0] && ab[1..] == a[1..] + b;
      assert PostNodes(ab) == head + PostNodes(a[1..] + b);
      assert PostNodes(a) == head + PostNodes(a[1..]);
      PostNodesConcat(a[1..], b);
      AppendAssoc(head, PostNodes(a[1..]), PostNodes(b));
    }
  }

  lemma {:induction false} IdsConcat(a: seq<Node>, b: seq<Node>)
    ensures Ids(a + b) == Ids(a) + Ids(b)
  {
    if a == [] {
      assert a + b == b;
    } else {
      var ab := a + b;
      assert ab[0] == a[0] && ab[1..] == a[1..] + b;
      assert Ids(ab) == [a[0].id] + Ids(a[1..] + b);
      assert Ids(a) == [a[0].id] + Ids(a[1..]);
      IdsConcat(a[1..], b);
      AppendAssoc([a[0].id], Ids(a[1..]), Ids(b));
    }
  }

  /** The trace functions on a single callback. */
  lemma OneEvent(e: Event)
    ensures PreIds([e]) == (if e.Pre? then [e.node.id] else [])
    ensures PostNodes([e]) == (if e.Post? then [e.node] else [])
    ensures Open([e]) == (if e.Pre? then 1 else -1)
  {
    var t := [e];
    assert t[0] == e && t[1..] == [];
    assert PreIds(t) == (if e.Pre? then [e.node.id] else []) + PreIds([]);
    assert PostNodes(t) == (if e.Post? then [e.node] else []) + PostNodes([]);
  }

  lemma PostIdsConcat(a: seq<Event>, b: seq<Event>)
    ensures PostIds(a + b) == PostIds(a) + PostIds(b)
  {
    PostNodesConcat(a, b);
    IdsConcat(PostNodes(a), PostNodes(b));
  }

  lemma {:induction false} OpenConcat(a: seq<Event>, b: seq<Event>)
    ensures Open(a + b) == Open(a) + Open(b)
  {
    if a == [] {
      assert a + b == b;
    } else {
      assert (a + b)[1..] == a[1..] + b;
      OpenConcat(a[1..], b);
    }
  }

  lemma ElemsConcat<T>(a: seq<T>, b: seq<T>)
    ensures Elems(a + b) == Elems(a) + Elems(b)
  {
  }

  lemma NoDupConcat<T>(a: seq<T>, b: seq<T>)
    requires NoDup(a) && NoDup(b) && Elems(a) !! Elems(b)
    ensures NoDup(a + b)
  {
    forall i, j | 0 <= i < j < |a + b| ensures (a + b)[i] != (a + b)[j] {
      if j < |a| {
      } else if i >= |a| {
        assert (a + b)[i] == b[i - |a|] && (a + b)[j] == b[j - |a|];
      } else {
        assert (a + b)[i] in Elems(a) && (a + b)[j] in Elems(b);
      }
    }
  }

  lemma NoDupAt<T>(s: seq<T>, p: nat, i: nat)
    requires NoDup(s) && p < |s| && i < |s| && p != i
    ensures s[p] != s[i]
  {
  }

  /** Nodes at two different positions of a list whose ids have no duplicates have different ids. */
  lemma DistinctIds(ns: seq<Node>, p: nat, i: nat)
    requires NoDup(Ids(ns)) && p < |ns| && i < |ns| && p != i
    ensures ns[p].id != ns[i].id
  {
    NoDupAt(Ids(ns), p, i);
  }

  // ----- Visit once -----

  /**
   * What a walk started from the traversed set `done` has done: it entered only ids not in
   * `done`, each once, added exactly those to the traversed set, and left each entered node
   * at most once; without an exception it left every node it entered.
   */
  ghost predicate WellFormed(done: set<string>, w: Walk) {
    && w.done == done + Elems(PreIds(w.trace))
    && NoDup(PreIds(w.trace)) && Elems(PreIds(w.trace)) !! done
    && NoDup(PostIds(w.trace)) && Elems(PostIds(w.trace)) <= Elems(PreIds(w.trace))
    && (w.err.None? ==> Elems(PostIds(w.trace)) == Elems(PreIds(w.trace)))
  }

  lemma WellFormedThen(done: set<string>, w1: Walk, w2: Walk)
    requires WellFormed(done, w1) && w1.err.None? && WellFormed(w1.done, w2)
    ensures WellFormed(done, Then(w1.trace, w2))
  {
    var t := w1.trace + w2.trace;
    PreIdsConcat(w1.trace, w2.trace);
    PostIdsConcat(w1.trace, w2.trace);
    ElemsConcat(PreIds(w1.trace), PreIds(w2.trace));
    ElemsConcat(PostIds(w1.trace), PostIds(w2.trace));
    NoDupConcat(PreIds(w1.trace), PreIds(w2.trace));
    NoDupConcat(PostIds(w1.trace), PostIds(w2.trace));
  }

  lemma WellFormedEnter(done: set<string>, n: Node, w: Walk)
    requires n.id !in done && WellFormed(done + {n.id}, w)
    ensures w.err.Some? ==> WellFormed(done, Then([Pre(n)], w))
    ensures w.err.None? ==> WellFormed(done, Walk(w.done, [Pre(n)] + w.trace + [Post(n)], None))
  {
    WellFormedOpen(done, n, w);
    if w.err.None? {
      WellFormedClose(done, n, w);
    }
  }

  lemma WellFormedOpen(done: set<string>, n: Node, w: Walk)
    requires n.id !in done && WellFormed(done + {n.id}, w)
    ensures PreIds([Pre(n)] + w.trace) == [n.id] + PreIds(w.trace)
    ensures PostIds([Pre(n)] + w.trace) == PostIds(w.trace)
    ensures w.err.Some? ==> WellFormed(done, Then([Pre(n)], w))
  {
    var enter: seq<Event> := [Pre(n)];
    OneEvent(Pre(n));
    PreIdsConcat(enter, w.trace);
    PostIdsConcat(enter, w.trace);
    assert PostIds(enter) == [];
    assert [] + PostIds(w.trace) == PostIds(w.trace);
    ElemsConcat([n.id], PreIds(w.trace));
    NoDupConcat([n.id], PreIds(w.trace));
  }

  lemma WellFormedClose(done: set<string>, n: Node, w: Walk)
    requires n.id !in done && WellFormed(done + {n.id}, w) && w.err.None?
    requires PreIds([Pre(n)] + w.trace) == [n.id] + PreIds(w.trace)
    requires PostIds([Pre(n)] + w.trace) == PostIds(w.trace)
    ensures WellFormed(done, Walk(w.done, [Pre(n)] + w.trace + [Post(n)], None))
  {
    var enter: seq<Event> := [Pre(n)];
    var leave: seq<Event> := [Post(n)];
    OneEvent(Post(n));
    assert PostIds(leave) == [n.id];
    PreIdsConcat(enter + w.trace, leave);
    PostIdsConcat(enter + w.trace, leave);
    assert PreIds(enter + w.trace) + [] == PreIds(enter + w.trace);
    ElemsConcat([n.id], PreIds(w.trace));
    NoDupConcat([n.id], PreIds(w.trace));
    ElemsConcat(PostIds(w.trace), [n.id]);
    NoDupConcat(PostIds(w.trace), [n.id]);
  }

  /** The walk of a static node: entered and left at once. */
  lemma LeafWellFormed(done: set<string>, n: Node)
    requires n.id !in done
    ensures WellFormed(done, Walk(done + {n.id}, [Pre(n), Post(n)], None))
  {
    var t := [Pre(n), Post(n)];
    assert t[1..] == [Post(n)] && t[1..][1..] == [];
    assert PreIds(t[1..]) == [];
    assert PreIds(t) == [n.id];
    assert PostNodes(t[1..]) == [n];
    assert PostNodes(t) == [n];
    assert PostIds(t) == [n.id];
  }

  /** The walk of a dynamic node without a rule: entered, then _find_rule raises. */
  lemma MissingWellFormed(done: set<string>, n: Node)
    requires n.id !in done
    ensures WellFormed(done, Walk(done + {n.id}, [Pre(n)], Some(NoRuleFor(n.id))))
  {
    var t := [Pre(n)];
    assert t[1..] == [];
    assert PreIds(t) == [n.id];
    assert PostNodes(t) == [];
  }

  lemma {:induction false} VisitNodeWellFormed(g: Rules, n: Node, stack: set<string>, done: set<string>)
    requires n.id !in done
    ensures WellFormed(done, VisitNode(g, n, stack, done))
    decreases |(Universe(g) + {n.id}) - done|, 0
  {
    var entered := done + {n.id};
    if n.Static? {
      assert VisitNode(g, n, stack, done) == Walk(entered, [Pre(n), Post(n)], None);
      LeafWellFormed(done, n);
    } else if n.id !in g {
      assert VisitNode(g, n, stack, done) == Walk(entered, [Pre(n)], Some(NoRuleFor(n.id)));
      MissingWellFormed(done, n);
    } else {
      CardStrict(Universe(g) - entered, (Universe(g) + {n.id}) - done, n.id);
      var w := VisitDeps(g, n.id, 0, stack, entered);
      VisitDepsWellFormed(g, n.id, 0, stack, entered);
      WellFormedEnter(done, n, w);
      if w.err.Some? {
        assert VisitNode(g, n, stack, done) == Then([Pre(n)], w);
      } else {
        assert VisitNode(g, n, stack, done) == Walk(w.done, [Pre(n)] + w.trace + [Post(n)], None);
      }
    }
  }

  lemma {:induction false} VisitDepsWellFormed(g: Rules, t: string, i: nat, stack: set<string>, done: set<string>)
    requires t in g && i <= |g[t].dependsOn|
    ensures WellFormed(done, VisitDeps(g, t, i, stack, done))
    decreases |Universe(g) - done|, |g[t].dependsOn| - i + 1
  {
    var deps := g[t].dependsOn;
    if i < |deps| {
      var d := deps[i];
      if d.id in stack {
        assert VisitDeps(g, t, i, stack, done) == Walk(done, [], Some(CircularDependency(stack + {d.id})));
      } else {
        if d.id in done {
          assert VisitDeps(g, t, i, stack, done) == VisitDeps(g, t, i + 1, stack, done);
          VisitDepsWellFormed(g, t, i + 1, stack, done);
        } else {
          assert (Universe(g) + {d.id}) - done == Universe(g) - done by { assert d in g[t].dependsOn; }
          var w := VisitNode(g, d, stack + {t}, done);
          VisitNodeWellFormed(g, d, stack + {t}, done);
          if w.err.Some? {
            assert VisitDeps(g, t, i, stack, done) == w;
          } else {
            CardSubset(Universe(g) - w.done, Universe(g) - done);
            assert VisitDeps(g, t, i, stack, done) == Then(w.trace, VisitDeps(g, t, i + 1, stack, w.done));
            VisitDepsWellFormed(g, t, i + 1, stack, w.done);
            WellFormedThen(done, w, VisitDeps(g, t, i + 1, stack, w.done));
          }
        }
      }
    }
  }

  lemma {:induction false} TraverseFromWellFormed(g: Rules, starts: seq<Node>, i: nat, done: set<string>)
    requires i <= |starts|
    ensures WellFormed(done, TraverseFrom(g, starts, i, done))
    decreases |starts| - i
  {
    if i < |starts| {
      if starts[i].id in done {
        TraverseFromWellFormed(g, starts, i + 1, done);
      } else {
        var w := VisitNode(g, starts[i], {}, done);
        VisitNodeWellFormed(g, starts[i], {}, done);
        if w.err.None? {
          TraverseFromWellFormed(g, starts, i + 1, w.done);
          WellFormedThen(done, w, TraverseFrom(g, starts, i + 1, w.done));
        }
      }
    }
  }

  /**
   * Visit once: across all starting nodes, preorder_action is called once for each
   * traversed id and never twice for one id, postorder_action at most once per id, and
   * when no exception is raised postorder_action is called exactly once per traversed id.
   */
  lemma VisitOnce(g: Rules, starts: seq<Node>)
    ensures var w := Traverse(g, starts);
      && NoDup(PreIds(w.trace)) && Elems(PreIds(w.trace)) == w.done
      && NoDup(PostIds(w.trace)) && Elems(PostIds(w.trace)) <= w.done
      && (w.err.None? ==> Elems(PostIds(w.trace)) == w.done)
  {
    TraverseFromWellFormed(g, starts, 0, {});
  }

  // ----- The traversed set is what the starts reach -----

  /** Every id in `keys` that has a rule has all its dependencies' ids in `s`. */
  ghost predicate ClosedOver(g: Rules, keys: set<string>, s: set<string>) {
    forall k, d :: k in keys && k in g && d in g[k].dependsOn ==> d.id in s
  }

  /** A set of ids closed under "is a dependency of the rule for". */
  ghost predicate Closed(g: Rules, s: set<string>) {
    ClosedOver(g, s, s)
  }

  /** `x` lies in every closed set that contains the ids of all `starts`. */
  ghost predicate ReachableFrom(g: Rules, starts: seq<Node>, x: string) {
    forall s :: Elems(Ids(starts)) <= s && Closed(g, s) ==> x in s
  }

  /** `b` lies in every closed set that contains `a`. */
  ghost predicate Reaches(g: Rules, a: string, b: string) {
    forall s :: a in s && Closed(g, s) ==> b in s
  }

  /** No static node of the graph shares its id with the target of a rule. */
  ghost predicate StaticLeaves(g: Rules, starts: seq<Node>) {
    && (forall n :: n in starts && n.Static? ==> n.id !in g)
    && (forall k, d :: k in g && d in g[k].dependsOn && d.Static? ==> d.id !in g)
  }

  /** Every dynamic node of the graph has a rule. */
  ghost predicate RulesComplete(g: Rules, starts: seq<Node>) {
    && (forall n :: n in starts && n.Dynamic? ==> n.id in g)
    && (forall k, d :: k in g && d in g[k].dependsOn && d.Dynamic? ==> d.id in g)
  }

  lemma {:induction false} VisitNodeWithin(g: Rules, n: Node, stack: set<string>, done: set<string>, s: set<string>)
    requires n.id !in done && n.id in s && Closed(g, s)
    ensures VisitNode(g, n, stack, done).done <= done + s
    decreases |(Universe(g) + {n.id}) - done|, 0
  {
    var entered := done + {n.id};
    if n.Dynamic? && n.id in g {
      CardStrict(Universe(g) - entered, (Universe(g) + {n.id}) - done, n.id);
      VisitDepsWithin(g, n.id, 0, stack, entered, s);
    }
  }

  lemma {:induction false} VisitDepsWithin(g: Rules, t: string, i: nat, stack: set<string>, done: set<string>, s: set<string>)
    requires t in g && i <= |g[t].dependsOn| && t in s && Closed(g, s)
    ensures VisitDeps(g, t, i, stack, done).done <= done + s
    decreases |Universe(g) - done|, |g[t].dependsOn| - i + 1
  {
    var deps := g[t].dependsOn;
    if i < |deps| {
      var d := deps[i];
      assert d in g[t].dependsOn;
      if d.id !in stack {
        if d.id in done {
          VisitDepsWithin(g, t, i + 1, stack, done, s);
        } else {
          assert (Universe(g) + {d.id}) - done == Universe(g) - done;
          var w := VisitNode(g, d, stack + {t}, done);
          VisitNodeWithin(g, d, stack + {t}, done, s);
          if w.err.None? {
            CardSubset(Universe(g) - w.done, Universe(g) - done);
            VisitDepsWithin(g, t, i + 1, stack, w.done, s);
          }
        }
      }
    }
  }

  lemma {:induction false} TraverseFromWithin(g: Rules, starts: seq<Node>, i: nat, done: set<string>, s: set<string>)
    requires i <= |starts| && (forall j :: 0 <= j < |starts| ==> starts[j].id in s) && Closed(g, s)
    ensures TraverseFrom(g, starts, i, done).done <= done + s
    decreases |starts| - i
  {
    if i < |starts| {
      if starts[i].id in done {
        assert TraverseFrom(g, starts, i, done) == TraverseFrom(g, starts, i + 1, done);
        TraverseFromWithin(g, starts, i + 1, done, s);
      } else {
        var w := VisitNode(g, starts[i], {}, done);
        VisitNodeWithin(g, starts[i], {}, done, s);
        if w.err.None? {
          assert TraverseFrom(g, starts, i, done) == Then(w.trace, TraverseFrom(g, starts, i + 1, w.done));
          TraverseFromWithin(g, starts, i + 1, w.done, s);
        } else {
          assert TraverseFrom(g, starts, i, done) == w;
        }
      }
    }
  }

  /** Whether or not it raises, the walk traverses only ids the starts reach. */
  lemma TraversedAreReachable(g: Rules, starts: seq<Node>)
    ensures forall x :: x in Traverse(g, starts).done ==> ReachableFrom(g, starts, x)
  {
    forall x, s | x in Traverse(g, starts).done && Elems(Ids(starts)) <= s && Closed(g, s)
      ensures x in s
    {
      forall j | 0 <= j < |starts| ensures starts[j].id in s {
        assert starts[j].id == Ids(starts)[j];
      }
      TraverseFromWithin(g, starts, 0, {}, s);
    }
  }

  lemma {:induction false} VisitNodeCloses(g: Rules, n: Node, stack: set<string>, done: set<string>)
    requires n.id !in done && (n.Static? ==> n.id !in g) && StaticLeaves(g, [])
    ensures var w := VisitNode(g, n, stack, done);
      w.err.None? ==> ClosedOver(g, w.done - done, w.done)
    decreases |(Universe(g) + {n.id}) - done|, 0
  {
    var entered := done + {n.id};
    if n.Dynamic? && n.id in g {
      CardStrict(Universe(g) - entered, (Universe(g) + {n.id}) - done, n.id);
      VisitDepsCloses(g, n.id, 0, stack, entered);
    }
  }

  lemma {:induction false} VisitDepsCloses(g: Rules, t: string, i: nat, stack: set<string>, done: set<string>)
    requires t in g && i <= |g[t].dependsOn| && StaticLeaves(g, [])
    ensures var w := VisitDeps(g, t, i, stack, done);
      w.err.None? ==>
        && ClosedOver(g, w.done - done, w.done)
        && forall j :: i <= j < |g[t].dependsOn| ==> g[t].dependsOn[j].id in w.done
    decreases |Universe(g) - done|, |g[t].dependsOn| - i + 1
  {
    var deps := g[t].dependsOn;
    if i < |deps| {
      var d := deps[i];
      assert d in g[t].dependsOn;
      if d.id in stack {
        assert VisitDeps(g, t, i, stack, done).err.Some?;
      } else if d.id in done {
        assert VisitDeps(g, t, i, stack, done) == VisitDeps(g, t, i + 1, stack, done);
        VisitDepsCloses(g, t, i + 1, stack, done);
      } else {
        assert (Universe(g) + {d.id}) - done == Universe(g) - done;
        var w := VisitNode(g, d, stack + {t}, done);
        VisitNodeCloses(g, d, stack + {t}, done);
        if w.err.None? {
          CardSubset(Universe(g) - w.done, Universe(g) - done);
          var rest := VisitDeps(g, t, i + 1, stack, w.done);
          assert VisitDeps(g, t, i, stack, done) == Then(w.trace, rest);
          VisitDepsCloses(g, t, i + 1, stack, w.done);
        } else {
          assert VisitDeps(g, t, i, stack, done) == w;
        }
      }
    }
  }

  lemma {:induction false} TraverseFromCloses(g: Rules, starts: seq<Node>, i: nat, done: set<string>)
    requires i <= |starts| && StaticLeaves(g, starts)
    ensures var w := TraverseFrom(g, starts, i, done);
      w.err.None? ==>
        && ClosedOver(g, w.done - done, w.done)
        && forall j :: i <= j < |starts| ==> starts[j].id in w.done
    decreases |starts| - i
  {
    if i < |starts| {
      assert starts[i] in starts;
      if starts[i].id in done {
        TraverseFromCloses(g, starts, i + 1, done);
      } else {
        var w := VisitNode(g, starts[i], {}, done);
        VisitNodeCloses(g, starts[i], {}, done);
        if w.err.None? {
          TraverseFromCloses(g, starts, i + 1, w.done);
        }
      }
    }
  }

  /**
   * When no exception is raised, the set traverse_dag returns is exactly the set of ids
   * the starting nodes reach, static nodes being leaves and dynamic nodes expanding to
   * the dependencies of their rule.
   */
  lemma TraversedIsReachable(g: Rules, starts: seq<Node>)
    requires StaticLeaves(g, starts) && Traverse(g, starts).err.None?
    ensures forall x :: x in Traverse(g, starts).done <==> ReachableFrom(g, starts, x)
  {
    var w := Traverse(g, starts);
    TraversedAreReachable(g, starts);
    TraverseFromCloses(g, starts, 0, {});
    assert w.done - {} == w.done;
    forall x | ReachableFrom(g, starts, x) ensures x in w.done {
      forall y | y in Elems(Ids(starts)) ensures y in w.done {
        var j :| 0 <= j < |Ids(starts)| && Ids(starts)[j] == y;
      }
    }
  }

  // ----- Post-order: dependencies are left before their dependents -----

  /** Every dependency of `n`'s rule other than `n` itself is in `f` or was left in `before`. */
  ghost predicate DepsBefore(g: Rules, f: set<string>, before: seq<Node>, n: Node) {
    n.Dynamic? && n.id in g ==>
      forall d :: d in g[n.id].dependsOn && d.id != n.id ==> d.id in f || d.id in Elems(Ids(before))
  }

  /**
   * In `order` (the nodes passed to postorder_action), every dynamic node with a rule comes
   * after each of its dependencies, except a dependency on itself or one already in `f`.
   */
  ghost predicate DepsLeftBefore(g: Rules, f: set<string>, order: seq<Node>) {
    forall k {:trigger DepsBefore(g, f, order[..k], order[k])} :: 0 <= k < |order| ==> DepsBefore(g, f, order[..k], order[k])
  }

  lemma DepsBeforeShift(g: Rules, f: set<string>, a: seq<Node>, p: seq<Node>, n: Node)
    requires DepsBefore(g, f + Elems(Ids(a)), p, n)
    ensures DepsBefore(g, f, a + p, n)
  {
    IdsConcat(a, p);
    ElemsConcat(Ids(a), Ids(p));
  }

  lemma DepsLeftBeforeConcat(g: Rules, f: set<string>, a: seq<Node>, b: seq<Node>)
    requires DepsLeftBefore(g, f, a) && DepsLeftBefore(g, f + Elems(Ids(a)), b)
    ensures DepsLeftBefore(g, f, a + b)
  {
    var ab := a + b;
    forall k | 0 <= k < |ab| ensures DepsBefore(g, f, ab[..k], ab[k]) {
      if k < |a| {
        assert ab[..k] == a[..k];
        assert ab[k] == a[k];
      } else {
        var k' := k - |a|;
        assert ab[k] == b[k'];
        assert ab[..k] == a + b[..k'];
        DepsBeforeShift(g, f, a, b[..k'], b[k']);
      }
    }
  }

  /** After a walk that raised nothing, the traversed set grew by exactly the nodes left. */
  lemma VisitNodeFinished(g: Rules, n: Node, stack: set<string>, done: set<string>)
    requires n.id !in done
    ensures var w := VisitNode(g, n, stack, done);
      w.err.None? ==> w.done == done + Elems(Ids(PostNodes(w.trace))) && Elems(Ids(PostNodes(w.trace))) !! done
  {
    VisitNodeWellFormed(g, n, stack, done);
  }

  lemma LeaveAfterDeps(g: Rules, f: set<string>, order: seq<Node>, n: Node)
    requires DepsLeftBefore(g, f, order)
    requires n.Dynamic? && n.id in g
    requires forall j :: 0 <= j < |g[n.id].dependsOn| && g[n.id].dependsOn[j].id != n.id ==>
      g[n.id].dependsOn[j].id in f + Elems(Ids(order))
    ensures DepsLeftBefore(g, f, order + [n])
  {
    forall d | d in g[n.id].dependsOn && d.id != n.id
      ensures d.id in f + Elems(Ids(order))
    {
      var j :| 0 <= j < |g[n.id].dependsOn| && g[n.id].dependsOn[j] == d;
    }
    assert DepsBefore(g, f + Elems(Ids(order)), [n][..0], [n][0]);
    DepsLeftBeforeConcat(g, f, order, [n]);
  }

  /** The nodes a visit of `n` leaves: `n` alone if static, its dependencies' and then `n` if dynamic. */
  lemma VisitNodePost(g: Rules, n: Node, stack: set<string>, done: set<string>)
    requires n.id !in done
    ensures n.Static? ==> PostNodes(VisitNode(g, n, stack, done).trace) == [n]
    ensures n.Dynamic? && n.id !in g ==> PostNodes(VisitNode(g, n, stack, done).trace) == []
    ensures n.Dynamic? && n.id in g ==>
      var w := VisitDeps(g, n.id, 0, stack, done + {n.id});
      PostNodes(VisitNode(g, n, stack, done).trace) ==
        if w.err.Some? then PostNodes(w.trace) else PostNodes(w.trace) + [n]
  {
    var entered := done + {n.id};
    OneEvent(Pre(n));
    OneEvent(Post(n));
    var enter: seq<Event> := [Pre(n)];
    var leave: seq<Event> := [Post(n)];
    if n.Static? {
      assert VisitNode(g, n, stack, done).trace == enter + leave;
      PostNodesConcat(enter, leave);
    } else if n.id !in g {
      assert VisitNode(g, n, stack, done).trace == enter;
    } else {
      CardStrict(Universe(g) - entered, (Universe(g) + {n.id}) - done, n.id);
      var w := VisitDeps(g, n.id, 0, stack, entered);
      PostNodesConcat(enter, w.trace);
      assert [] + PostNodes(w.trace) == PostNodes(w.trace);
      if w.err.Some? {
        assert VisitNode(g, n, stack, done).trace == enter + w.trace;
      } else {
        assert VisitNode(g, n, stack, done).trace == (enter + w.trace) + leave;
        PostNodesConcat(enter + w.trace, leave);
      }
    }
  }

  lemma {:induction false} VisitNodeOrdered(g: Rules, n: Node, stack: set<string>, done: set<string>)
    requires n.id !in done && stack <= done
    ensures var w := VisitNode(g, n, stack, done);
      w.err.None? ==> DepsLeftBefore(g, done - stack, PostNodes(w.trace))
    decreases |(Universe(g) + {n.id}) - done|, 0
  {
    var entered := done + {n.id};
    VisitNodePost(g, n, stack, done);
    if n.Static? {
      assert DepsBefore(g, done - stack, [n][..0], [n][0]);
    } else if n.id in g {
      CardStrict(Universe(g) - entered, (Universe(g) + {n.id}) - done, n.id);
      var w := VisitDeps(g, n.id, 0, stack, entered);
      VisitDepsOrdered(g, n.id, 0, stack, entered);
      VisitDepsCovered(g, n.id, 0, stack, entered);
      if w.err.None? {
        assert VisitNode(g, n, stack, done).err.None?;
        assert entered - stack - {n.id} == done - stack;
        LeaveAfterDeps(g, done - stack, PostNodes(w.trace), n);
      }
    }
  }


  lemma {:induction false} VisitDepsCovered(g: Rules, t: string, i: nat, stack: set<string>, done: set<string>)
    requires t in g && i <= |g[t].dependsOn| && stack <= done && t in done && t !in stack
    ensures var w := VisitDeps(g, t, i, stack, done);
      w.err.None? ==>
        forall j :: i <= j < |g[t].dependsOn| && g[t].dependsOn[j].id != t ==>
          g[t].dependsOn[j].id in (done - stack - {t}) + Elems(PostIds(w.trace))
    decreases |g[t].dependsOn| - i
  {
    var deps := g[t].dependsOn;
    if i < |deps| {
      var d := deps[i];
      if d.id !in stack {
        if d.id in done {
          VisitDepsCovered(g, t, i + 1, stack, done);
        } else {
          var w := VisitNode(g, d, stack + {t}, done);
          VisitNodeWellFormed(g, d, stack + {t}, done);
          if w.err.None? {
            var rest := VisitDeps(g, t, i + 1, stack, w.done);
            assert VisitDeps(g, t, i, stack, done) == Then(w.trace, rest);
            VisitDepsCovered(g, t, i + 1, stack, w.done);
            assert w.done - stack - {t} == (done - stack - {t}) + Elems(PostIds(w.trace));
            PostIdsConcat(w.trace, rest.trace);
            ElemsConcat(PostIds(w.trace), PostIds(rest.trace));
          }
        }
      }
    }
  }

  lemma {:induction false} VisitDepsOrdered(g: Rules, t: string, i: nat, stack: set<string>, done: set<string>)
    requires t in g && i <= |g[t].dependsOn| && stack <= done && t in done && t !in stack
    ensures var w := VisitDeps(g, t, i, stack, done);
      w.err.None? ==> DepsLeftBefore(g, done - stack - {t}, PostNodes(w.trace))
    decreases |Universe(g) - done|, |g[t].dependsOn| - i + 1
  {
    var deps := g[t].dependsOn;
    var f := done - stack - {t};
    if i < |deps| {
      var d := deps[i];
      if d.id !in stack {
        if d.id in done {
          VisitDepsOrdered(g, t, i + 1, stack, done);
        } else {
          assert (Universe(g) + {d.id}) - done == Universe(g) - done by { assert d in g[t].dependsOn; }
          var w := VisitNode(g, d, stack + {t}, done);
          VisitNodeOrdered(g, d, stack + {t}, done);
          VisitNodeFinished(g, d, stack + {t}, done);
          if w.err.None? {
            CardSubset(Universe(g) - w.done, Universe(g) - done);
            var rest := VisitDeps(g, t, i + 1, stack, w.done);
            assert VisitDeps(g, t, i, stack, done) == Then(w.trace, rest);
            VisitDepsOrdered(g, t, i + 1, stack, w.done);
            OrderedThen(g, stack, t, done, w, rest);
          }
        }
      }
    }
  }

  lemma OrderedThen(g: Rules, stack: set<string>, t: string, done: set<string>, w: Walk, rest: Walk)
    requires stack <= done && t in done
    requires DepsLeftBefore(g, done - (stack + {t}), PostNodes(w.trace))
    requires w.done == done + Elems(Ids(PostNodes(w.trace))) && Elems(Ids(PostNodes(w.trace))) !! done
    requires rest.err.None? ==> DepsLeftBefore(g, w.done - stack - {t}, PostNodes(rest.trace))
    ensures rest.err.None? ==> DepsLeftBefore(g, done - stack - {t}, PostNodes(w.trace + rest.trace))
  {
    if rest.err.None? {
      var f := done - stack - {t};
      assert done - (stack + {t}) == f;
      assert w.done - stack - {t} == f + Elems(Ids(PostNodes(w.trace)));
      PostNodesConcat(w.trace, rest.trace);
      DepsLeftBeforeConcat(g, f, PostNodes(w.trace), PostNodes(rest.trace));
    }
  }

  lemma {:induction false} TraverseFromOrdered(g: Rules, starts: seq<Node>, i: nat, done: set<string>)
    requires i <= |starts|
    ensures var w := TraverseFrom(g, starts, i, done);
      w.err.None? ==> DepsLeftBefore(g, done, PostNodes(w.trace))
    decreases |starts| - i
  {
    if i < |starts| {
      if starts[i].id in done {
        TraverseFromOrdered(g, starts, i + 1, done);
      } else {
        var w := VisitNode(g, starts[i], {}, done);
        VisitNodeOrdered(g, starts[i], {}, done);
        VisitNodeWellFormed(g, starts[i], {}, done);
        if w.err.None? {
          var rest := TraverseFrom(g, starts, i + 1, w.done);
          TraverseFromOrdered(g, starts, i + 1, w.done);
          if rest.err.None? {
            assert done - {} == done;
            PostNodesConcat(w.trace, rest.trace);
            DepsLeftBeforeConcat(g, done, PostNodes(w.trace), PostNodes(rest.trace));
          }
        }
      }
    }
  }

  /**
   * Ordering: when traverse_dag raises nothing, postorder_action is called on a dynamic
   * node only after it has been called on every dependency of its rule (a dependency on
   * the node itself excepted).
   */
  lemma PostOrderRespectsDependencies(g: Rules, starts: seq<Node>)
    requires Traverse(g, starts).err.None?
    ensures DepsLeftBefore(g, {}, PostNodes(Traverse(g, starts).trace))
  {
    TraverseFromOrdered(g, starts, 0, {});
  }

  // ----- Cycle detection -----

  /** The rule for `a` lists a dependency whose id is `b`. */
  ghost predicate IdEdge(g: Rules, a: string, b: string) {
    a in g && exists d :: d in g[a].dependsOn && d.id == b
  }

  /** A dependency chain of two or more steps that returns to its first id, never stepping from an id to itself. */
  ghost predicate IsCycle(g: Rules, c: seq<string>) {
    && |c| >= 3 && c[0] == c[|c| - 1]
    && forall i :: 0 <= i < |c| - 1 ==> CycleStep(g, c, i)
  }

  /** Step `i` of `c` goes from one id to another along a dependency. */
  ghost predicate CycleStep(g: Rules, c: seq<string>, i: nat)
    requires i < |c| - 1
  {
    c[i] != c[i + 1] && IdEdge(g, c[i], c[i + 1])
  }

  /** Every node left with the id of a rule target is dynamic. */
  ghost predicate TargetsLeftDynamic(g: Rules, order: seq<Node>) {
    forall m :: m in order && m.id in g ==> m.Dynamic?
  }

  lemma {:induction false} VisitNodeTargetsDynamic(g: Rules, n: Node, stack: set<string>, done: set<string>)
    requires n.id !in done && (n.Static? ==> n.id !in g) && StaticLeaves(g, [])
    ensures TargetsLeftDynamic(g, PostNodes(VisitNode(g, n, stack, done).trace))
    decreases |(Universe(g) + {n.id}) - done|, 0
  {
    var entered := done + {n.id};
    VisitNodePost(g, n, stack, done);
    if n.Dynamic? && n.id in g {
      CardStrict(Universe(g) - entered, (Universe(g) + {n.id}) - done, n.id);
      VisitDepsTargetsDynamic(g, n.id, 0, stack, entered);
    }
  }


  lemma {:induction false} VisitDepsTargetsDynamic(g: Rules, t: string, i: nat, stack: set<string>, done: set<string>)
    requires t in g && i <= |g[t].dependsOn| && StaticLeaves(g, [])
    ensures TargetsLeftDynamic(g, PostNodes(VisitDeps(g, t, i, stack, done).trace))
    decreases |Universe(g) - done|, |g[t].dependsOn| - i + 1
  {
    var deps := g[t].dependsOn;
    if i < |deps| {
      var d := deps[i];
      assert d in g[t].dependsOn;
      if d.id !in stack {
        if d.id in done {
          VisitDepsTargetsDynamic(g, t, i + 1, stack, done);
        } else {
          assert (Universe(g) + {d.id}) - done == Universe(g) - done;
          var w := VisitNode(g, d, stack + {t}, done);
          VisitNodeTargetsDynamic(g, d, stack + {t}, done);
          if w.err.None? {
            CardSubset(Universe(g) - w.done, Universe(g) - done);
            var rest := VisitDeps(g, t, i + 1, stack, w.done);
            VisitDepsTargetsDynamic(g, t, i + 1, stack, w.done);
            PostNodesConcat(w.trace, rest.trace);
          }
        }
      }
    }
  }

  lemma {:induction false} TraverseFromTargetsDynamic(g: Rules, starts: seq<Node>, i: nat, done: set<string>)
    requires i <= |starts| && StaticLeaves(g, starts)
    ensures TargetsLeftDynamic(g, PostNodes(TraverseFrom(g, starts, i, done).trace))
    decreases |starts| - i
  {
    if i < |starts| {
      assert starts[i] in starts;
      if starts[i].id in done {
        TraverseFromTargetsDynamic(g, starts, i + 1, done);
      } else {
        var w := VisitNode(g, starts[i], {}, done);
        VisitNodeTargetsDynamic(g, starts[i], {}, done);
        if w.err.None? {
          var rest := TraverseFrom(g, starts, i + 1, w.done);
          TraverseFromTargetsDynamic(g, starts, i + 1, w.done);
          PostNodesConcat(w.trace, rest.trace);
        }
      }
    }
  }

  function IndexOf(s: seq<string>, x: string): (k: nat)
    requires x in s
    ensures k < |s| && s[k] == x
  {
    if s[0] == x then 0 else 1 + IndexOf(s[1..], x)
  }

  lemma IndexOfNoDup(s: seq<string>, q: nat)
    requires NoDup(s) && q < |s|
    ensures IndexOf(s, s[q]) == q
  {
  }

  /**
   * In a post-order that leaves dependencies first, a step from a left id `a` to another
   * id `b` goes to an id that was left strictly earlier.
   */
  lemma StepLeftEarlier(g: Rules, order: seq<Node>, a: string, b: string)
    requires NoDup(Ids(order)) && TargetsLeftDynamic(g, order) && DepsLeftBefore(g, {}, order)
    requires a in Ids(order) && a != b && IdEdge(g, a, b)
    ensures b in Ids(order) && IndexOf(Ids(order), b) < IndexOf(Ids(order), a)
  {
    var ids := Ids(order);
    var p := IndexOf(ids, a);
    var m := order[p];
    assert m in order && m.id == a && a in g;
    var d :| d in g[a].dependsOn && d.id == b;
    assert DepsBefore(g, {}, order[..p], order[p]);
    var before := Ids(order[..p]);
    assert b in Elems(before);
    var q :| 0 <= q < |before| && before[q] == b;
    assert before[q] == order[..p][q].id == order[q].id == ids[q];
    IndexOfNoDup(ids, q);
  }

  /**
   * Following a cycle from a left id, each step goes to an id left strictly earlier, so
   * after `i` steps the position in the post-order has dropped by at least `i`.
   */
  lemma {:induction false} CycleDescends(g: Rules, order: seq<Node>, c: seq<string>, i: nat)
    requires NoDup(Ids(order)) && TargetsLeftDynamic(g, order) && DepsLeftBefore(g, {}, order)
    requires IsCycle(g, c) && c[0] in Ids(order) && i < |c|
    ensures c[i] in Ids(order) && IndexOf(Ids(order), c[i]) + i <= IndexOf(Ids(order), c[0])
  {
    if i > 0 {
      CycleDescends(g, order, c, i - 1);
      assert CycleStep(g, c, i - 1);
      StepLeftEarlier(g, order, c[i - 1], c[i]);
    }
  }

  /** No cycle passes through an id of a post-order that leaves dependencies first. */
  lemma CycleNotLeft(g: Rules, order: seq<Node>, c: seq<string>)
    requires NoDup(Ids(order)) && TargetsLeftDynamic(g, order) && DepsLeftBefore(g, {}, order)
    requires IsCycle(g, c)
    ensures c[0] !in Ids(order)
  {
    if c[0] in Ids(order) {
      var last := |c| - 1;
      assert last >= 2 && c[last] == c[0];
      CycleDescends(g, order, c, last);
      assert false;
    }
  }

  /** The facts about a post-order without an exception that the cycle argument uses. */
  lemma LeftOrderFacts(g: Rules, starts: seq<Node>)
    requires StaticLeaves(g, starts) && Traverse(g, starts).err.None?
    ensures var order := PostNodes(Traverse(g, starts).trace);
      && NoDup(Ids(order)) && TargetsLeftDynamic(g, order) && DepsLeftBefore(g, {}, order)
      && forall x :: x in Traverse(g, starts).done ==> x in Ids(order)
  {
    var w := Traverse(g, starts);
    VisitOnce(g, starts);
    TraverseFromTargetsDynamic(g, starts, 0, {});
    PostOrderRespectsDependencies(g, starts);
    forall x | x in w.done ensures x in Ids(PostNodes(w.trace)) {
      assert x in Elems(PostIds(w.trace));
    }
  }

  /** When traverse_dag raises nothing, no dependency cycle passes through a traversed id. */
  lemma NoCycleThroughTraversed(g: Rules, starts: seq<Node>, c: seq<string>)
    requires StaticLeaves(g, starts) && Traverse(g, starts).err.None?
    requires IsCycle(g, c)
    ensures c[0] !in Traverse(g, starts).done
  {
    LeftOrderFacts(g, starts);
    CycleNotLeft(g, PostNodes(Traverse(g, starts).trace), c);
  }

  /**
   * Cycle detection: a dependency cycle of two or more steps through an id the starts
   * reach always makes traverse_dag raise.
   */
  lemma ReachableCycleRaises(g: Rules, starts: seq<Node>, c: seq<string>)
    requires StaticLeaves(g, starts) && IsCycle(g, c) && ReachableFrom(g, starts, c[0])
    ensures Traverse(g, starts).err.Some?
  {
    if Traverse(g, starts).err.None? {
      TraversedIsReachable(g, starts);
      NoCycleThroughTraversed(g, starts, c);
      assert false;
    }
  }

  lemma {:induction false} VisitNodeRaisesCycleOnly(g: Rules, n: Node, stack: set<string>, done: set<string>)
    requires n.id !in done && (n.Dynamic? ==> n.id in g) && RulesComplete(g, [])
    ensures var w := VisitNode(g, n, stack, done);
      w.err.Some? ==> w.err.value.CircularDependency?
    decreases |(Universe(g) + {n.id}) - done|, 0
  {
    var entered := done + {n.id};
    if n.Dynamic? {
      CardStrict(Universe(g) - entered, (Universe(g) + {n.id}) - done, n.id);
      VisitDepsRaisesCycleOnly(g, n.id, 0, stack, entered);
    }
  }

  lemma {:induction false} VisitDepsRaisesCycleOnly(g: Rules, t: string, i: nat, stack: set<string>, done: set<string>)
    requires t in g && i <= |g[t].dependsOn| && RulesComplete(g, [])
    ensures var w := VisitDeps(g, t, i, stack, done);
      w.err.Some? ==> w.err.value.CircularDependency?
    decreases |Universe(g) - done|, |g[t].dependsOn| - i + 1
  {
    var deps := g[t].dependsOn;
    if i < |deps| {
      var d := deps[i];
      assert d in g[t].dependsOn;
      if d.id !in stack {
        if d.id in done {
          VisitDepsRaisesCycleOnly(g, t, i + 1, stack, done);
        } else {
          assert (Universe(g) + {d.id}) - done == Universe(g) - done;
          var w := VisitNode(g, d, stack + {t}, done);
          VisitNodeRaisesCycleOnly(g, d, stack + {t}, done);
          if w.err.None? {
            CardSubset(Universe(g) - w.done, Universe(g) - done);
            VisitDepsRaisesCycleOnly(g, t, i + 1, stack, w.done);
          }
        }
      }
    }
  }

  lemma {:induction false} TraverseFromRaisesCycleOnly(g: Rules, starts: seq<Node>, i: nat, done: set<string>)
    requires i <= |starts| && RulesComplete(g, starts)
    ensures var w := TraverseFrom(g, starts, i, done);
      w.err.Some? ==> w.err.value.CircularDependency?
    decreases |starts| - i
  {
    if i < |starts| {
      assert starts[i] in starts;
      if starts[i].id in done {
        TraverseFromRaisesCycleOnly(g, starts, i + 1, done);
      } else {
        var w := VisitNode(g, starts[i], {}, done);
        VisitNodeRaisesCycleOnly(g, starts[i], {}, done);
        if w.err.None? {
          TraverseFromRaisesCycleOnly(g, starts, i + 1, w.done);
        }
      }
    }
  }

  /** When every dynamic node has a rule, a reachable cycle is reported as a circular dependency. */
  lemma ReachableCycleReported(g: Rules, starts: seq<Node>, c: seq<string>)
    requires StaticLeaves(g, starts) && RulesComplete(g, starts)
    requires IsCycle(g, c) && ReachableFrom(g, starts, c[0])
    ensures Traverse(g, starts).err.Some? && Traverse(g, starts).err.value.CircularDependency?
  {
    ReachableCycleRaises(g, starts, c);
    TraverseFromRaisesCycleOnly(g, starts, 0, {});
  }

  // ----- What a raised error says -----

  lemma ReachesStep(g: Rules, x: string, t: string, d: Node)
    requires Reaches(g, x, t) && t in g && d in g[t].dependsOn
    ensures Reaches(g, x, d.id)
  {
  }

  lemma ReachesEdge(g: Rules, t: string, d: Node)
    requires t in g && d in g[t].dependsOn
    ensures Reaches(g, t, d.id)
  {
  }

  /**
   * An exception names what is really wrong: a missing rule is reported for a traversed
   * id that has none, and a circular-dependency chain contains the two ends `a` .. `b` of
   * a dependency `b -> a` that closes a cycle, every id of the chain reaching `b`. The
   * chain is `node_stack` plus the dependency's id, so the current target `b` is not in it.
   */
  ghost predicate ErrorSound(g: Rules, w: Walk) {
    match w.err
    case None => true
    case Some(e) =>
      match e
      case NoRuleFor(x) => x !in g && x in w.done
      case CircularDependency(chain) =>
        && chain <= w.done
        && exists b, a :: IdEdge(g, b, a) && a in chain && b !in chain && b in w.done &&
             forall x :: x in chain ==> Reaches(g, x, b)
      case _ => false
  }

  lemma {:induction false} VisitNodeErrorSound(g: Rules, n: Node, stack: set<string>, done: set<string>)
    requires n.id !in done && stack <= done
    requires forall x :: x in stack ==> Reaches(g, x, n.id)
    ensures ErrorSound(g, VisitNode(g, n, stack, done))
    decreases |(Universe(g) + {n.id}) - done|, 0
  {
    var entered := done + {n.id};
    if n.Dynamic? && n.id in g {
      CardStrict(Universe(g) - entered, (Universe(g) + {n.id}) - done, n.id);
      VisitDepsErrorSound(g, n.id, 0, stack, entered);
    }
  }

  lemma {:induction false} VisitDepsErrorSound(g: Rules, t: string, i: nat, stack: set<string>, done: set<string>)
    requires t in g && i <= |g[t].dependsOn| && t in done && t !in stack && stack <= done
    requires forall x :: x in stack ==> Reaches(g, x, t)
    ensures ErrorSound(g, VisitDeps(g, t, i, stack, done))
    decreases |Universe(g) - done|, |g[t].dependsOn| - i + 1
  {
    var deps := g[t].dependsOn;
    if i < |deps| {
      var d := deps[i];
      assert d in g[t].dependsOn;
      if d.id in stack {
        assert stack + {d.id} == stack;
        assert IdEdge(g, t, d.id);
        assert VisitDeps(g, t, i, stack, done) == Walk(done, [], Some(CircularDependency(stack)));
      } else if d.id in done {
        assert VisitDeps(g, t, i, stack, done) == VisitDeps(g, t, i + 1, stack, done);
        VisitDepsErrorSound(g, t, i + 1, stack, done);
      } else {
        assert (Universe(g) + {d.id}) - done == Universe(g) - done;
        forall x | x in stack + {t} ensures Reaches(g, x, d.id) {
          if x == t {
            ReachesEdge(g, t, d);
          } else {
            ReachesStep(g, x, t, d);
          }
        }
        var w := VisitNode(g, d, stack + {t}, done);
        VisitNodeErrorSound(g, d, stack + {t}, done);
        if w.err.Some? {
          assert VisitDeps(g, t, i, stack, done) == w;
        } else {
          CardSubset(Universe(g) - w.done, Universe(g) - done);
          var rest := VisitDeps(g, t, i + 1, stack, w.done);
          assert VisitDeps(g, t, i, stack, done) == Then(w.trace, rest);
          VisitDepsErrorSound(g, t, i + 1, stack, w.done);
        }
      }
    }
  }

  lemma {:induction false} TraverseFromErrorSound(g: Rules, starts: seq<Node>, i: nat, done: set<string>)
    requires i <= |starts|
    ensures ErrorSound(g, TraverseFrom(g, starts, i, done))
    decreases |starts| - i
  {
    if i < |starts| {
      if starts[i].id in done {
        TraverseFromErrorSound(g, starts, i + 1, done);
      } else {
        var w := VisitNode(g, starts[i], {}, done);
        VisitNodeErrorSound(g, starts[i], {}, done);
        if w.err.None? {
          TraverseFromErrorSound(g, starts, i + 1, w.done);
        }
      }
    }
  }

  /**
   * Soundness of the exceptions of traverse_dag: a missing rule is reported only for a
   * reachable dynamic id without one. A reported circular-dependency chain consists of
   * reachable ids (the open ancestors and the dependency met again), and some edge
   * `b -> a` from outside the chain into it closes a real cycle: `a` reaches `b` again.
   * The chain may also hold ancestors above the cycle's entry.
   */
  lemma TraverseErrorSound(g: Rules, starts: seq<Node>)
    ensures var w := Traverse(g, starts);
      && (w.err.Some? && w.err.value.NoRuleFor? ==>
            w.err.value.id !in g && ReachableFrom(g, starts, w.err.value.id))
      && (w.err.Some? && w.err.value.CircularDependency? ==>
            && (forall x :: x in w.err.value.chain ==> ReachableFrom(g, starts, x))
            && exists b, a :: IdEdge(g, b, a) && a in w.err.value.chain && b !in w.err.value.chain &&
                 Reaches(g, a, b))
      && (w.err.Some? ==> w.err.value.NoRuleFor? || w.err.value.CircularDependency?)
  {
    TraverseFromErrorSound(g, starts, 0, {});
    TraversedAreReachable(g, starts);
  }

  // ----- Depth: entering and leaving are properly bracketed -----

  /** Starting `k` levels deep, the depth never drops below zero anywhere along `t`. */
  ghost predicate Above(t: seq<Event>, k: int) {
    forall p :: 0 <= p <= |t| ==> k + Open(t[..p]) >= 0
  }

  lemma AboveConcat(a: seq<Event>, b: seq<Event>, k: int)
    requires Above(a, k) && Above(b, k + Open(a))
    ensures Above(a + b, k)
  {
    forall p | 0 <= p <= |a + b| ensures k + Open((a + b)[..p]) >= 0 {
      if p <= |a| {
        assert (a + b)[..p] == a[..p];
      } else {
        assert (a + b)[..p] == a + b[..p - |a|];
        OpenConcat(a, b[..p - |a|]);
      }
    }
  }

  lemma AboveRaise(t: seq<Event>, k: int, k': int)
    requires Above(t, k) && k <= k'
    ensures Above(t, k')
  {
  }

  lemma AboveSingle(e: Event, k: int)
    requires e.Pre? ==> k >= 0
    requires e.Post? ==> k >= 1
    ensures Above([e], k) && Open([e]) == (if e.Pre? then 1 else -1)
  {
    assert [e][1..] == [];
    assert [e][..0] == [] && [e][..1] == [e];
  }

  /** A node's callbacks never close more than they open; without an exception they balance. */
  lemma {:induction false} VisitNodeBracketed(g: Rules, n: Node, stack: set<string>, done: set<string>)
    requires n.id !in done
    ensures var w := VisitNode(g, n, stack, done);
      Above(w.trace, 0) && (w.err.None? ==> Open(w.trace) == 0)
    decreases |(Universe(g) + {n.id}) - done|, 0
  {
    var entered := done + {n.id};
    var w := VisitNode(g, n, stack, done);
    AboveSingle(Pre(n), 0);
    AboveSingle(Post(n), 1);
    if n.Static? {
      assert w.trace == [Pre(n)] + [Post(n)];
      AboveConcat([Pre(n)], [Post(n)], 0);
      OpenConcat([Pre(n)], [Post(n)]);
    } else if n.id in g {
      CardStrict(Universe(g) - entered, (Universe(g) + {n.id}) - done, n.id);
      var inner := VisitDeps(g, n.id, 0, stack, entered);
      VisitDepsBracketed(g, n.id, 0, stack, entered);
      AboveRaise(inner.trace, 0, 1);
      AboveConcat([Pre(n)], inner.trace, 0);
      OpenConcat([Pre(n)], inner.trace);
      if inner.err.None? {
        AboveConcat([Pre(n)] + inner.trace, [Post(n)], 0);
        OpenConcat([Pre(n)] + inner.trace, [Post(n)]);
      }
    }
  }

  lemma {:induction false} VisitDepsBracketed(g: Rules, t: string, i: nat, stack: set<string>, done: set<string>)
    requires t in g && i <= |g[t].dependsOn|
    ensures var w := VisitDeps(g, t, i, stack, done);
      Above(w.trace, 0) && (w.err.None? ==> Open(w.trace) == 0)
    decreases |Universe(g) - done|, |g[t].dependsOn| - i + 1
  {
    var deps := g[t].dependsOn;
    if i == |deps| {
      var nothing: seq<Event> := []; assert nothing[..0] == nothing;
    } else {
      var d := deps[i];
      assert d in g[t].dependsOn;
      if d.id in stack {
        var nothing: seq<Event> := []; assert nothing[..0] == nothing;
      } else if d.id in done {
        VisitDepsBracketed(g, t, i + 1, stack, done);
      } else {
        assert (Universe(g) + {d.id}) - done == Universe(g) - done;
        var w := VisitNode(g, d, stack + {t}, done);
        VisitNodeBracketed(g, d, stack + {t}, done);
        if w.err.None? {
          CardSubset(Universe(g) - w.done, Universe(g) - done);
          var rest := VisitDeps(g, t, i + 1, stack, w.done);
          assert VisitDeps(g, t, i, stack, done) == Then(w.trace, rest);
          VisitDepsBracketed(g, t, i + 1, stack, w.done);
          AboveConcat(w.trace, rest.trace, 0);
          OpenConcat(w.trace, rest.trace);
        }
      }
    }
  }

  lemma {:induction false} TraverseFromBracketed(g: Rules, starts: seq<Node>, i: nat, done: set<string>)
    requires i <= |starts|
    ensures var w := TraverseFrom(g, starts, i, done);
      Above(w.trace, 0) && (w.err.None? ==> Open(w.trace) == 0)
    decreases |starts| - i
  {
    if i == |starts| {
      var nothing: seq<Event> := []; assert nothing[..0] == nothing;
    } else if starts[i].id in done {
      TraverseFromBracketed(g, starts, i + 1, done);
    } else {
      var w := VisitNode(g, starts[i], {}, done);
      VisitNodeBracketed(g, starts[i], {}, done);
      if w.err.None? {
        var rest := TraverseFrom(g, starts, i + 1, w.done);
        TraverseFromBracketed(g, starts, i + 1, w.done);
        AboveConcat(w.trace, rest.trace, 0);
        OpenConcat(w.trace, rest.trace);
      }
    }
  }

  /**
   * The depth counter of `dag`: the number of nodes entered and not yet left is never
   * negative at any point of traverse_dag, and it is back to zero when no exception is raised.
   */
  lemma TraverseBracketed(g: Rules, starts: seq<Node>)
    ensures var w := Traverse(g, starts);
      (forall p :: 0 <= p <= |w.trace| ==> Open(w.trace[..p]) >= 0) &&
      (w.err.None? ==> Open(w.trace) == 0)
  {
    TraverseFromBracketed(g, starts, 0, {});
  }

  // ----- Two small graphs -----

  /** A rule that depends on its own target is not reported: the id is already traversed. */
  lemma SelfLoopNotReported()
    ensures var g := map["a" := Rule("a", [Dynamic("a")], "touch a")];
      Traverse(g, [Dynamic("a")]) == Walk({"a"}, [Pre(Dynamic("a")), Post(Dynamic("a"))], None)
  {
    var g := map["a" := Rule("a", [Dynamic("a")], "touch a")];
    var a := Dynamic("a");
    assert VisitDeps(g, "a", 1, {}, {"a"}) == Walk({"a"}, [], None);
    assert VisitDeps(g, "a", 0, {}, {"a"}) == Walk({"a"}, [], None);
    assert VisitNode(g, a, {}, {}) == Walk({"a"}, [Pre(a)] + [] + [Post(a)], None);
  }

  /** In the dependency loop of `t`, an entry whose id is `t` is skipped: `t` is already traversed and is not its own ancestor. */
  lemma SelfDependencySkipped(g: Rules, t: string, i: nat, stack: set<string>, done: set<string>)
    requires t in g && i < |g[t].dependsOn| && g[t].dependsOn[i].id == t
    requires t in done && t !in stack
    ensures VisitDeps(g, t, i, stack, done) == VisitDeps(g, t, i + 1, stack, done)
  {
  }

  /**
   * On any graph whose only cycles are rules depending on their own targets, traverse_dag
   * never reports a circular dependency, so the only exception it can raise is a missing
   * rule: a chain always needs an edge between two different ids that reach each other.
   */
  lemma SelfLoopsAloneNotReported(g: Rules, starts: seq<Node>)
    requires forall a, b :: a != b && IdEdge(g, a, b) ==> !Reaches(g, b, a)
    ensures Traverse(g, starts).err.Some? ==> Traverse(g, starts).err.value.NoRuleFor?
  {
    var w := Traverse(g, starts);
    assert w.err.Some? && w.err.value.CircularDependency? ==>
      forall b, a :: IdEdge(g, b, a) && a in w.err.value.chain && b !in w.err.value.chain ==> !Reaches(g, a, b);
    TraverseErrorSound(g, starts);
  }

  /**
   * `a -> b -> a` started from `a`: the cycle is found below `b`, and the chain names
   * only `a` (`node_stack` is {a}, and the dependency is `a` again).
   */
  lemma TwoCycleChain()
    ensures var g := map["a" := Rule("a", [Dynamic("b")], "make a"), "b" := Rule("b", [Dynamic("a")], "make b")];
      Traverse(g, [Dynamic("a")]).err == Some(CircularDependency({"a"}))
  {
    var g := map["a" := Rule("a", [Dynamic("b")], "make a"), "b" := Rule("b", [Dynamic("a")], "make b")];
    assert VisitDeps(g, "b", 0, {"a"}, {"a", "b"}).err == Some(CircularDependency({"a"} + {"a"}));
    assert {"a"} + {"a"} == {"a"};
    assert VisitNode(g, Dynamic("b"), {"a"}, {"a"}).err == Some(CircularDependency({"a"}));
    assert {} + {"a"} == {"a"};
    assert VisitDeps(g, "a", 0, {}, {"a"}).err == Some(CircularDependency({"a"}));
    assert VisitNode(g, Dynamic("a"), {}, {}).err == Some(CircularDependency({"a"}));
  }

  // ----- Pre-order: a node is entered before everything first reached through it -----

  /**
   * preorder_action fires on `n` first, then on exactly the ids first reached through `n`;
   * when no exception is raised, postorder_action on `n` is the last callback.
   */
  lemma VisitNodeShape(g: Rules, n: Node, stack: set<string>, done: set<string>)
    requires n.id !in done
    ensures var w := VisitNode(g, n, stack, done);
      && |w.trace| >= 1 && w.trace[0] == Pre(n)
      && Elems(PreIds(w.trace[1..])) == w.done - done - {n.id}
      && (w.err.None? ==> w.trace[|w.trace| - 1] == Post(n))
  {
    var w := VisitNode(g, n, stack, done);
    VisitNodeWellFormed(g, n, stack, done);
    if n.Dynamic? && n.id in g {
      var inner := VisitDeps(g, n.id, 0, stack, done + {n.id});
      assert w.trace[1..] == if inner.err.None? then inner.trace + [Post(n)] else inner.trace;
    } else if n.Static? {
      assert w.trace[1..] == [Post(n)];
    } else {
      assert w.trace[1..] == [];
    }
    assert PreIds(w.trace) == [n.id] + PreIds(w.trace[1..]);
    var later := PreIds(w.trace[1..]);
    forall q | 0 <= q < |later| ensures later[q] != n.id {
      var all := PreIds(w.trace);
      assert all[q + 1] == later[q] && all[0] == n.id;
      assert NoDup(all);
      assert all[0] != all[q + 1];
    }
    ElemsConcat([n.id], PreIds(w.trace[1..]));
  }

  // ----- The nodes passed to postorder_action -----

  /** `m` is one of the starting nodes or a dependency of some rule. */
  ghost predicate FromGraph(g: Rules, starts: seq<Node>, m: Node) {
    m in starts || exists k :: k in g && m in g[k].dependsOn
  }

  /** Every node left is a node of the graph, and every dynamic one has a rule. */
  ghost predicate LeftKnown(g: Rules, starts: seq<Node>, order: seq<Node>) {
    forall m :: m in order ==> FromGraph(g, starts, m) && (m.Dynamic? ==> m.id in g)
  }

  lemma {:induction false} VisitNodeLeftKnown(g: Rules, starts: seq<Node>, n: Node, stack: set<string>, done: set<string>)
    requires n.id !in done && FromGraph(g, starts, n)
    ensures LeftKnown(g, starts, PostNodes(VisitNode(g, n, stack, done).trace))
    decreases |(Universe(g) + {n.id}) - done|, 0
  {
    var entered := done + {n.id};
    VisitNodePost(g, n, stack, done);
    if n.Dynamic? && n.id in g {
      CardStrict(Universe(g) - entered, (Universe(g) + {n.id}) - done, n.id);
      VisitDepsLeftKnown(g, starts, n.id, 0, stack, entered);
    }
  }


  lemma {:induction false} VisitDepsLeftKnown(g: Rules, starts: seq<Node>, t: string, i: nat, stack: set<string>, done: set<string>)
    requires t in g && i <= |g[t].dependsOn|
    ensures LeftKnown(g, starts, PostNodes(VisitDeps(g, t, i, stack, done).trace))
    decreases |Universe(g) - done|, |g[t].dependsOn| - i + 1
  {
    var deps := g[t].dependsOn;
    if i < |deps| {
      var d := deps[i];
      assert d in g[t].dependsOn;
      if d.id !in stack {
        if d.id in done {
          VisitDepsLeftKnown(g, starts, t, i + 1, stack, done);
        } else {
          assert (Universe(g) + {d.id}) - done == Universe(g) - done;
          var w := VisitNode(g, d, stack + {t}, done);
          VisitNodeLeftKnown(g, starts, d, stack + {t}, done);
          if w.err.None? {
            CardSubset(Universe(g) - w.done, Universe(g) - done);
            var rest := VisitDeps(g, t, i + 1, stack, w.done);
            assert VisitDeps(g, t, i, stack, done) == Then(w.trace, rest);
            VisitDepsLeftKnown(g, starts, t, i + 1, stack, w.done);
            PostNodesConcat(w.trace, rest.trace);
          }
        }
      }
    }
  }

  lemma {:induction false} TraverseFromLeftKnown(g: Rules, starts: seq<Node>, i: nat, done: set<string>)
    requires i <= |starts|
    ensures LeftKnown(g, starts, PostNodes(TraverseFrom(g, starts, i, done).trace))
    decreases |starts| - i
  {
    if i < |starts| {
      assert starts[i] in starts;
      if starts[i].id in done {
        TraverseFromLeftKnown(g, starts, i + 1, done);
      } else {
        var w := VisitNode(g, starts[i], {}, done);
        VisitNodeLeftKnown(g, starts, starts[i], {}, done);
        if w.err.None? {
          var rest := TraverseFrom(g, starts, i + 1, w.done);
          assert TraverseFrom(g, starts, i, done).trace == w.trace + rest.trace;
          TraverseFromLeftKnown(g, starts, i + 1, w.done);
          PostNodesConcat(w.trace, rest.trace);
          LeftKnownConcat(g, starts, PostNodes(w.trace), PostNodes(rest.trace));
        }
      }
    }
  }

  lemma LeftKnownConcat(g: Rules, starts: seq<Node>, a: seq<Node>, b: seq<Node>)
    requires LeftKnown(g, starts, a) && LeftKnown(g, starts, b)
    ensures LeftKnown(g, starts, a + b)
  {
  }

  /**
   * postorder_action is only ever called on a starting node or a dependency of a rule,
   * and on a dynamic node only once its rule has been found.
   */
  lemma TraverseLeftKnown(g: Rules, starts: seq<Node>)
    ensures LeftKnown(g, starts, PostNodes(Traverse(g, starts).trace))
  {
    TraverseFromLeftKnown(g, starts, 0, {});
  }
}
