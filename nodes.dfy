/**
 * Nodes and rules of the build graph (makeapi.py, classes Node .. CompileRule).
 *
 * Every node of the build system is a file whose id is its path. The file system is
 * abstracted as a map from id to modification time: a file exists exactly when its id
 * is a key, and `os.path.getmtime` is the lookup.
 */
module Nodes {
  import opened Wrappers

  /** File modification times; a missing key is a file that does not exist. */
  type Times = map<string, int>

  /** StaticFileNode: must exist beforehand. DynamicFileNode: produced by a rule. */
  datatype Node = Static(id: string) | Dynamic(id: string)

  /** A shell rule: the id of its dynamic target, its dependencies and its command line. */
  datatype Rule = Rule(target: string, dependsOn: seq<Node>, cmd: string)

  /** The exceptions raised by the engine. */
  datatype Error =
    | MultipleRules(target: string)               // ValueError of BuildSystem.__init__
    | StaticNodeMissing(id: string, cause: string) // StaticNode._raise_not_exist
    | NoRuleFor(id: string)                        // BuildSystem._find_rule
    | CircularDependency(chain: set<string>)       // BuildSystem._traverse_dag_aux
    | CircularPath(path: seq<string>)              // BuildSystem._build_aux
    | CommandFailed(cmd: string, target: string)   // ShellRule.execute
    | StaticHasRule(id: string)                    // the stricter check of module Findings

  /** FileNode.get_time */
  function GetTime(n: Node, times: Times): (t: Option<int>)
    ensures t.Some? <==> n.id in times
    ensures t.Some? ==> t.value == times[n.id]
  {
    if n.id in times then Some(times[n.id]) else None
  }

  /** The condition every dependency must meet: it has a time strictly before `t`. */
  predicate OlderThan(dep: Node, times: Times, t: int) {
    dep.id in times && times[dep.id] < t
  }

  /** `all([isinstance(t, float) and t < res for t in dep_times])`, element by element. */
  function AllOlder(deps: seq<Node>, times: Times, t: int): (b: bool)
  {
    if deps == [] then true
    else OlderThan(deps[0], times, t) && AllOlder(deps[1..], times, t)
  }

  /** Rule.is_up_to_date */
  function IsUpToDate(r: Rule, times: Times): (b: bool)
  {
    match GetTime(Dynamic(r.target), times)
    case None => false
    case Some(res) => AllOlder(r.dependsOn, times, res)
  }

  lemma {:induction false} AllOlderIff(deps: seq<Node>, times: Times, t: int)
    ensures AllOlder(deps, times, t) <==> forall i :: 0 <= i < |deps| ==> OlderThan(deps[i], times, t)
  {
    if deps != [] {
      AllOlderIff(deps[1..], times, t);
      assert forall i :: 1 <= i < |deps| ==> deps[i] == deps[1..][i - 1];
    }
  }

  /**
   * The up-to-date rule: a rule is up to date exactly when its target exists and every
   * dependency exists with a time strictly before the target's. A dependency without a
   * time makes the rule stale.
   */
  lemma UpToDateIff(r: Rule, times: Times)
    ensures IsUpToDate(r, times) <==>
      r.target in times &&
      forall i :: 0 <= i < |r.dependsOn| ==>
        r.dependsOn[i].id in times && times[r.dependsOn[i].id] < times[r.target]
  {
    if r.target in times {
      AllOlderIff(r.dependsOn, times, times[r.target]);
    }
  }

  /** A target without a time is never up to date, whatever its dependencies. */
  lemma MissingTargetIsStale(r: Rule, times: Times)
    requires r.target !in times
    ensures !IsUpToDate(r, times)
  {
  }

  /** A missing dependency makes the rule stale (no "missing counts as older"). */
  lemma MissingDependencyIsStale(r: Rule, times: Times, i: nat)
    requires i < |r.dependsOn| && r.dependsOn[i].id !in times
    ensures !IsUpToDate(r, times)
  {
    UpToDateIff(r, times);
  }

  /**
   * Touching one dependency so that it is not older than the target flips an
   * up-to-date rule to stale.
   */
  lemma TouchDependencyFlips(r: Rule, times: Times, i: nat, t: int)
    requires IsUpToDate(r, times)
    requires i < |r.dependsOn| && r.dependsOn[i].id != r.target
    requires t >= times[r.target]
    ensures !IsUpToDate(r, times[r.dependsOn[i].id := t])
  {
    UpToDateIff(r, times);
    UpToDateIff(r, times[r.dependsOn[i].id := t]);
  }

  /** StaticFileNode._check_exists: None when the file exists, else the reason. */
  function CheckExists(n: Node, times: Times): (reason: Option<string>)
    ensures reason.None? <==> n.id in times
    ensures reason.Some? ==> reason.value == "File not found"
  {
    if n.id !in times then Some("File not found") else None
  }

  /** StaticNode.verify_exists: raises the missing-node error carrying the reason. */
  function VerifyExists(n: Node, times: Times): (r: Option<Error>)
    ensures r.None? <==> n.id in times
    ensures r.Some? ==> r.value == StaticNodeMissing(n.id, "File not found")
  {
    match CheckExists(n, times)
    case None => None
    case Some(cause) => Some(StaticNodeMissing(n.id, cause))
  }

  /** `' '.join(words)` */
  function Join(words: seq<string>): (s: string)
    ensures words == [] ==> s == ""
    ensures |words| == 1 ==> s == words[0]
  {
    if words == [] then ""
    else if |words| == 1 then words[0]
    else words[0] + " " + Join(words[1..])
  }

  function Ids(ns: seq<Node>): (ps: seq<string>)
    ensures |ps| == |ns| && forall i :: 0 <= i < |ns| ==> ps[i] == ns[i].id
  {
    if ns == [] then [] else [ns[0].id] + Ids(ns[1..])
  }

  /**
   * The command line a CompileRule runs:
   * `<compiler> <flags> <source paths> -o <target>`.
   */
  function CompileCommand(target: string, sources: seq<Node>, compiler: string, flags: seq<string>): string
  {
    compiler + " " + Join(flags) + " " + Join(Ids(sources)) + " -o " + target
  }

  /** CompileRule.__init__: the dependencies are the sources followed by the headers. */
  function CompileRule(target: string, sources: seq<Node>, headers: seq<Node>,
                       compiler: string, flags: seq<string>): (r: Rule)
    ensures r.target == target
    ensures |r.dependsOn| == |sources| + |headers|
    ensures r.dependsOn[..|sources|] == sources && r.dependsOn[|sources|..] == headers
    ensures (set d | d in r.dependsOn) == (set s | s in sources) + (set h | h in headers)
  {
    Rule(target, sources + headers, CompileCommand(target, sources, compiler, flags))
  }

  /**
   * The command begins with the compiler and ends by directing the output to the
   * target; header files never appear in it.
   */
  lemma CompileCommandShape(target: string, sources: seq<Node>, headers: seq<Node>,
                            compiler: string, flags: seq<string>)
    ensures var c := CompileRule(target, sources, headers, compiler, flags).cmd;
      |c| >= |compiler| + |target| + 4 &&
      c[..|compiler| + 1] == compiler + " " &&
      c[|c| - |target| - 4..] == " -o " + target
    ensures CompileRule(target, sources, headers, compiler, flags).cmd ==
            CompileRule(target, sources, [], compiler, flags).cmd
  {
    var c := CompileRule(target, sources, headers, compiler, flags).cmd;
    var middle := Join(flags) + " " + Join(Ids(sources));
    assert c == (compiler + " ") + middle + (" -o " + target);
  }
}
