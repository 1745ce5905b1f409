/**
 * The depth-first walk of BuildSystem.traverse_dag and BuildSystem._traverse_dag_aux
 * (makeapi.py:200-219, 242-266), as functions on values.
 *
 * The walk never reads what its callbacks do, so a callback is modelled by the record
 * of its calls: the trace holds one Pre(node) per preorder_action call and one
 * Post(node) per postorder_action call, in the order they happen. `done` is the
 * shared `traversed_nodes` set; `stack` is the per-path `node_stack`.
 */
module Traversal {
  import opened Wrappers
  import opened Nodes

  /** The `rules` table: target id to the rule producing it. */
  type Rules = map<string, Rule>

  /** One callback invocation. */
  datatype Event = Pre(node: Node) | Post(node: Node)

  /** Where a walk stands: the traversed ids, the callbacks made so far, and the exception if one was raised. */
  datatype Walk = Walk(done: set<string>, trace: seq<Event>, err: Option<Error>)

  /** Runs the walk `w` after callbacks `t` have already been made. */
  function Then(t: seq<Event>, w: Walk): (r: Walk)
    ensures r.done == w.done && r.err == w.err && r.trace == t + w.trace
  {
    Walk(w.done, t + w.trace, w.err)
  }

  /** The ids of every dependency of every rule: the only ids the walk can be asked to enter below a start. */
  ghost function Universe(g: Rules): set<string> {
    set k, d | k in g && d in g[k].dependsOn :: d.id
  }

  lemma CardSubset<T>(a: set<T>, b: set<T>)
    requires a <= b
    ensures |a| <= |b|
  {
    assert b == a + (b - a);
  }

  lemma CardStrict<T>(a: set<T>, b: set<T>, x: T)
    requires a <= b && x in b && x !in a
    ensures |a| < |b|
  {
    assert b == a + (b - a);
    assert x in b - a;
  }

  /** `_traverse_dag_aux(n, stack, done, ...)`: enters `n`, expands it if it is dynamic, leaves it. */
  function VisitNode(g: Rules, n: Node, stack: set<string>, done: set<string>): (w: Walk)
    requires n.id !in done
    ensures done + {n.id} <= w.done
    decreases |(Universe(g) + {n.id}) - done|, 0
  {
    var entered := done + {n.id};
    if n.Static? then Walk(entered, [Pre(n), Post(n)], None)
    else if n.id !in g then Walk(entered, [Pre(n)], Some(NoRuleFor(n.id)))
    else
      CardStrict(Universe(g) - entered, (Universe(g) + {n.id}) - done, n.id);
      var w := VisitDeps(g, n.id, 0, stack, entered);
      if w.err.Some? then Then([Pre(n)], w)
      else Walk(w.done, [Pre(n)] + w.trace + [Post(n)], None)
  }

  /** The loop `for dep in rule.depends_on[i..]` of `_traverse_dag_aux` for the dynamic node `t`. */
  function VisitDeps(g: Rules, t: string, i: nat, stack: set<string>, done: set<string>): (w: Walk)
    requires t in g && i <= |g[t].dependsOn|
    ensures done <= w.done
    decreases |Universe(g) - done|, |g[t].dependsOn| - i + 1
  {
    var deps := g[t].dependsOn;
    if i == |deps| then Walk(done, [], None)
    else
      var d := deps[i];
      if d.id in stack then Walk(done, [], Some(CircularDependency(stack + {d.id})))
      else if d.id in done then VisitDeps(g, t, i + 1, stack, done)
      else
        assert (Universe(g) + {d.id}) - done == Universe(g) - done by { assert d in g[t].dependsOn; }
        var w := VisitNode(g, d, stack + {t}, done);
        if w.err.Some? then w
        else
          CardSubset(Universe(g) - w.done, Universe(g) - done);
          Then(w.trace, VisitDeps(g, t, i + 1, stack, w.done))
  }

  /** The loop of `traverse_dag` over `starts[i..]`, sharing one traversed set. */
  function TraverseFrom(g: Rules, starts: seq<Node>, i: nat, done: set<string>): (w: Walk)
    requires i <= |starts|
    ensures done <= w.done
    decreases |starts| - i
  {
    if i == |starts| then Walk(done, [], None)
    else if starts[i].id in done then TraverseFrom(g, starts, i + 1, done)
    else
      var w := VisitNode(g, starts[i], {}, done);
      if w.err.Some? then w
      else Then(w.trace, TraverseFrom(g, starts, i + 1, w.done))
  }

  /** `traverse_dag(starts, pre, post)`: the returned set is `done`, the callbacks are `trace`. */
  function Traverse(g: Rules, starts: seq<Node>): Walk {
    TraverseFrom(g, starts, 0, {})
  }

  // ----- Reading a trace -----

  /** The ids passed to preorder_action, in call order. */
  function PreIds(t: seq<Event>): seq<string> {
    if t == [] then [] else (if t[0].Pre? then [t[0].node.id] else []) + PreIds(t[1..])
  }

  /** The nodes passed to postorder_action, in call order. */
  function PostNodes(t: seq<Event>): seq<Node> {
    if t == [] then [] else (if t[0].Post? then [t[0].node] else []) + PostNodes(t[1..])
  }

  function PostIds(t: seq<Event>): seq<string> {
    Ids(PostNodes(t))
  }

  /** How many nodes have been entered and not yet left after the callbacks `t`. */
  function Open(t: seq<Event>): int {
    if t == [] then 0 else (if t[0].Pre? then 1 else -1) + Open(t[1..])
  }

  function Elems<T>(s: seq<T>): set<T> {
    set x | x in s
  }

  predicate NoDup<T(==)>(s: seq<T>) {
    forall i, j :: 0 <= i < j < |s| ==> s[i] != s[j]
  }
}
