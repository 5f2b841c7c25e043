/**
 * Step 3 of the transformer: the sequential loop that puts each rendered
 * result (or the error fallback) in place of its unit of replacement, in
 * collection order, re-resolving the unit's index in its parent first.
 */
module Substitution {
  import opened Wrappers
  import opened Hast
  import opened Options
  import opened Collector

  /** A settled render: the SVG markup, or the value the renderer threw. */
  datatype Outcome = Success(svg: string) | Failure(error: ErrorValue)

  /** `fromHtmlIsomorphic(svg, {fragment: true}).children`, an external parser. */
  type Parser = string -> seq<Node>

  /** The message thrown when a render fails and no fallback is configured. */
  datatype FatalError = FatalError(
    reason: string,
    ruleId: string,
    source: string,
    ancestors: seq<Id>,
    fatal: bool,
    url: string)

  const PluginName := "rehype-infographic"
  const ProjectUrl := "https://github.com/antv/infographic"

  /** `error instanceof Error ? error.message : String(error)`. */
  function ErrorText(e: ErrorValue): string {
    match e
    case ErrorObject(m) => m
    case NonError(t) => t
  }

  function Fatal(inst: CodeInstance, e: ErrorValue): FatalError {
    FatalError("Failed to render infographic: " + ErrorText(e), PluginName, PluginName, inst.ancestors, true, ProjectUrl)
  }

  /** `fragment.children[0]`, taken without a check: `undefined` when the fragment is empty. */
  function FirstChild(fragment: seq<Node>): Node {
    if |fragment| > 0 then fragment[0] else Node.Undefined
  }

  /** The tree, and the identity the next node built during substitution receives. */
  datatype State = State(nodes: map<Id, Node>, next: Id)

  /** Every identity in use is below `next`, so a new node never aliases an old one. */
  predicate Fresh(st: State) {
    forall id :: id in st.nodes ==> id < st.next
  }

  /** `Array.prototype.indexOf` by identity: the first position of `x`, or -1. */
  function IndexOf(s: seq<Id>, x: Id): (r: int)
    ensures -1 <= r < |s|
    ensures r == -1 <==> x !in s
    ensures r >= 0 ==> s[r] == x && x !in s[..r]
  {
    if s == [] then -1
    else if s[0] == x then 0
    else
      var k := IndexOf(s[1..], x);
      if k == -1 then -1
      else
        assert s[..k + 1] == [s[0]] + s[1..][..k];
        k + 1
  }

  /**
   * `s.splice(start, 1)` on the element list: a negative start counts from
   * the end (so -1 removes the last element), a start past the end removes
   * nothing.
   */
  function SpliceOne(s: seq<Id>, start: int): (r: seq<Id>)
    ensures 0 <= start < |s| ==> r == s[..start] + s[start + 1..]
    ensures start == -1 && |s| > 0 ==> r == s[..|s| - 1]
    ensures start >= |s| ==> r == s
  {
    var k := if start < 0 then (if |s| + start < 0 then 0 else |s| + start)
             else (if start < |s| then start else |s|);
    if k < |s| then s[..k] + s[k + 1..] else s
  }

  function KidsOf(st: State, parent: Id): seq<Id> {
    Children(Lookup(st.nodes, parent))
  }

  /** The parent with its child list replaced; an unknown parent is left alone. */
  function SetKids(st: State, parent: Id, kids: seq<Id>): State {
    if parent in st.nodes then st.(nodes := st.nodes[parent := WithChildren(st.nodes[parent], kids)]) else st
  }

  /**
   * `parent.children[index] = n`: the node gets a new identity and takes the
   * slot. Index -1 writes a property named "-1", not an element, so the
   * child list does not change.
   */
  function Assign(st: State, parent: Id, index: int, n: Node): State
    requires index < |KidsOf(st, parent)|
  {
    if index < 0 || parent !in st.nodes then st
    else
      var kids := Children(st.nodes[parent]);
      State(st.nodes[st.next := n][parent := WithChildren(st.nodes[parent], kids[index := st.next])], st.next + 1)
  }

  /** `parent.children.splice(index, 1)`. */
  function Splice(st: State, parent: Id, index: int): State {
    SetKids(st, parent, SpliceOne(KidsOf(st, parent), index))
  }

  datatype StepResult = Continue(state: State) | Abort(error: FatalError)

  /** The current index of the unit in its parent's current children. */
  function CurrentIndex(st: State, inst: CodeInstance): int
    requires |inst.ancestors| >= 2
  {
    IndexOf(KidsOf(st, TargetParent(inst)), Unit(inst))
  }

  /**
   * One iteration of the substitution loop. A removal is made only when the
   * unit was found in its parent (see `StepAsWritten` for the loop as the
   * source has it).
   */
  function Step(st: State, inst: CodeInstance, outcome: Outcome, fallback: Option<Fallback>, parse: Parser): (r: StepResult)
    requires |inst.ancestors| >= 2
    ensures r.Abort? <==> outcome.Failure? && fallback.None?
    ensures r.Abort? ==> r.error == Fatal(inst, outcome.error)
    // a unit that is no longer in its parent leaves the tree as it is
    ensures r.Continue? && CurrentIndex(st, inst) < 0 ==> r.state == st
  {
    var parent := TargetParent(inst);
    var index := CurrentIndex(st, inst);
    match outcome
    case Success(svg) => Continue(Assign(st, parent, index, FirstChild(parse(svg))))
    case Failure(e) =>
      if fallback.None? then Abort(Fatal(inst, e))
      else
        match fallback.value(Lookup(st.nodes, Unit(inst)), inst.spec, e)
        case Some(n) => Continue(Assign(st, parent, index, n))
        case None => Continue(if index >= 0 then Splice(st, parent, index) else st)
  }

  /** The fallback asked for the unit to be removed. */
  predicate RemovalRequested(st: State, inst: CodeInstance, outcome: Outcome, fallback: Option<Fallback>)
    requires |inst.ancestors| >= 2
  {
    outcome.Failure? && fallback.Some? && fallback.value(Lookup(st.nodes, Unit(inst)), inst.spec, outcome.error).None?
  }

  /**
   * The loop body as written: identical to `Step`, except that when the unit
   * is no longer in its parent a removal still runs `splice(-1, 1)`.
   */
  function StepAsWritten(st: State, inst: CodeInstance, outcome: Outcome, fallback: Option<Fallback>, parse: Parser): (r: StepResult)
    requires |inst.ancestors| >= 2
    ensures r.Abort? <==> outcome.Failure? && fallback.None?
    ensures r.Abort? ==> r.error == Fatal(inst, outcome.error)
    // a requested removal of a unit no longer in its parent drops the parent's last child
    ensures RemovalRequested(st, inst, outcome, fallback) && CurrentIndex(st, inst) < 0
            && TargetParent(inst) in st.nodes && |KidsOf(st, TargetParent(inst))| > 0 ==>
              var kids := KidsOf(st, TargetParent(inst));
              r.Continue? && KidsOf(r.state, TargetParent(inst)) == kids[..|kids| - 1]
  {
    var index := CurrentIndex(st, inst);
    if RemovalRequested(st, inst, outcome, fallback) && index < 0
    then Continue(Splice(st, TargetParent(inst), index))
    else Step(st, inst, outcome, fallback, parse)
  }

  datatype RunResult = RunResult(state: State, error: Option<FatalError>)

  predicate Addressable(instances: seq<CodeInstance>) {
    forall i :: 0 <= i < |instances| ==> |instances[i].ancestors| >= 2
  }

  /** The whole loop: stop at the first fatal failure, leaving earlier substitutions in place. */
  function Run(st: State, instances: seq<CodeInstance>, outcomes: seq<Outcome>, fallback: Option<Fallback>, parse: Parser): (r: RunResult)
    requires Addressable(instances) && |outcomes| == |instances|
    // a fatal error needs a failure without fallback (`RunFatalNamesFailure` says which)
    ensures r.error.Some? ==> fallback.None? && instances != []
    decreases |instances|
  {
    if instances == [] then RunResult(st, None)
    else
      match Step(st, instances[0], outcomes[0], fallback, parse)
      case Abort(e) => RunResult(st, Some(e))
      case Continue(st') => Run(st', instances[1..], outcomes[1..], fallback, parse)
  }

  /** The loop built from `StepAsWritten`. */
  function RunAsWritten(st: State, instances: seq<CodeInstance>, outcomes: seq<Outcome>, fallback: Option<Fallback>, parse: Parser): (r: RunResult)
    requires Addressable(instances) && |outcomes| == |instances|
    ensures r.error.Some? ==> fallback.None? && instances != []
    decreases |instances|
  {
    if instances == [] then RunResult(st, None)
    else
      match StepAsWritten(st, instances[0], outcomes[0], fallback, parse)
      case Abort(e) => RunResult(st, Some(e))
      case Continue(st') => RunAsWritten(st', instances[1..], outcomes[1..], fallback, parse)
  }

  /** The document tree, mutated in place. */
  class Document {
    var nodes: map<Id, Node>
    var next: Id

    ghost predicate Valid()
      reads this
    {
      Fresh(State(nodes, next))
    }

    function Current(): State
      reads this
    {
      State(nodes, next)
    }

    constructor (nodes: map<Id, Node>, next: Id)
      requires Fresh(State(nodes, next))
      ensures Valid() && Current() == State(nodes, next)
    {
      this.nodes := nodes;
      this.next := next;
    }

    /** `parent.children[index] = n`. */
    method AssignChild(parent: Id, index: int, n: Node)
      requires Valid() && index < |KidsOf(Current(), parent)|
      modifies this
      ensures Valid()
      ensures Current() == Assign(old(Current()), parent, index, n)
    {
      if 0 <= index && parent in nodes {
        var kids := Children(nodes[parent]);
        nodes := nodes[next := n][parent := WithChildren(nodes[parent], kids[index := next])];
        next := next + 1;
      }
    }

    /** `parent.children.splice(index, 1)`. */
    method SpliceChild(parent: Id, index: int)
      requires Valid()
      modifies this
      ensures Valid()
      ensures Current() == Splice(old(Current()), parent, index)
    {
      if parent in nodes {
        nodes := nodes[parent := WithChildren(nodes[parent], SpliceOne(Children(nodes[parent]), index))];
      }
    }
  }

  /**
   * One iteration of the substitution loop on the document: re-resolve the
   * unit's index, then overwrite its slot, remove it, or report the fatal
   * error, as `Step` says.
   */
  method ApplyStep(doc: Document, instance: CodeInstance, result: Outcome, fallback: Option<Fallback>, parse: Parser)
    returns (error: Option<FatalError>)
    requires doc.Valid() && |instance.ancestors| >= 2
    modifies doc
    ensures doc.Valid()
    ensures Step(old(doc.Current()), instance, result, fallback, parse).Abort? ==>
              error == Some(Step(old(doc.Current()), instance, result, fallback, parse).error)
              && doc.Current() == old(doc.Current())
    ensures Step(old(doc.Current()), instance, result, fallback, parse).Continue? ==>
              error == None && doc.Current() == Step(old(doc.Current()), instance, result, fallback, parse).state
  {
    var node := Unit(instance);
    var parent := TargetParent(instance);
    var nodeIndex := IndexOf(Children(Lookup(doc.nodes, parent)), node);
    error := None;
    match result
    case Success(svg) =>
      doc.AssignChild(parent, nodeIndex, FirstChild(parse(svg)));
    case Failure(e) =>
      if fallback.Some? {
        var replacement := fallback.value(Lookup(doc.nodes, node), instance.spec, e);
        if replacement.Some? {
          doc.AssignChild(parent, nodeIndex, replacement.value);
        } else if nodeIndex >= 0 {
          doc.SpliceChild(parent, nodeIndex);
        }
      } else {
        error := Some(Fatal(instance, e));
      }
  }

  /**
   * The substitution loop over `instances` and the index-aligned `results`.
   * Returns the fatal error when a failure meets no fallback; the tree then
   * keeps the substitutions already made.
   */
  method Substitute(doc: Document, instances: seq<CodeInstance>, results: seq<Outcome>,
                    fallback: Option<Fallback>, parse: Parser) returns (error: Option<FatalError>)
    requires doc.Valid() && Addressable(instances) && |results| == |instances|
    modifies doc
    ensures doc.Valid()
    ensures doc.Current() == Run(old(doc.Current()), instances, results, fallback, parse).state
    ensures error == Run(old(doc.Current()), instances, results, fallback, parse).error
  {
    for k := 0 to |instances|
      invariant doc.Valid()
      invariant Run(old(doc.Current()), instances, results, fallback, parse)
                == Run(doc.Current(), instances[k..], results[k..], fallback, parse)
    {
      assert instances[k..][0] == instances[k] && results[k..][0] == results[k];
      assert instances[k..][1..] == instances[k + 1..] && results[k..][1..] == results[k + 1..];
      ghost var before := doc.Current();
      error := ApplyStep(doc, instances[k], results[k], fallback, parse);
      if error.Some? {
        assert Run(before, instances[k..], results[k..], fallback, parse) == RunResult(before, error);
        return;
      }
    }
    return None;
  }

  /** What a step puts in the unit's slot: the parsed SVG, or the fallback's node. */
  function Replacement(st: State, inst: CodeInstance, outcome: Outcome, fallback: Option<Fallback>, parse: Parser): Node
    requires |inst.ancestors| >= 2
  {
    match outcome
    case Success(svg) => FirstChild(parse(svg))
    case Failure(e) =>
      if fallback.Some? && fallback.value(Lookup(st.nodes, Unit(inst)), inst.spec, e).Some?
      then fallback.value(Lookup(st.nodes, Unit(inst)), inst.spec, e).value
      else Node.Undefined
  }

  /**
   * One step when the unit is still a child of its parent: the index is the
   * unit's first position; a failure without fallback aborts with the fatal
   * error; a removal takes out exactly that slot (later siblings move left by
   * one); otherwise that slot, and only it, now holds a new node carrying the
   * replacement. Every node but the parent is untouched, and the parent keeps
   * its kind, tag and classes.
   */
  lemma StepAtUnitSlot(st: State, inst: CodeInstance, outcome: Outcome, fallback: Option<Fallback>, parse: Parser)
    requires Fresh(st) && |inst.ancestors| >= 2
    requires Unit(inst) in KidsOf(st, TargetParent(inst))
    ensures var kids := KidsOf(st, TargetParent(inst));
            var k := CurrentIndex(st, inst);
            0 <= k < |kids| && kids[k] == Unit(inst) && Unit(inst) !in kids[..k]
    ensures Step(st, inst, outcome, fallback, parse).Abort? <==> outcome.Failure? && fallback.None?
    ensures Step(st, inst, outcome, fallback, parse).Abort? ==>
              Step(st, inst, outcome, fallback, parse).error == Fatal(inst, outcome.error)
    ensures Step(st, inst, outcome, fallback, parse).Continue? ==>
              var st' := Step(st, inst, outcome, fallback, parse).state;
              var p := TargetParent(inst);
              var kids := KidsOf(st, p);
              var k := CurrentIndex(st, inst);
              && p in st.nodes && p in st'.nodes
              && st'.nodes[p] == WithChildren(st.nodes[p], KidsOf(st', p))
              && (forall id :: id in st.nodes && id != p ==> id in st'.nodes && st'.nodes[id] == st.nodes[id])
              && (if RemovalRequested(st, inst, outcome, fallback)
                  then KidsOf(st', p) == kids[..k] + kids[k + 1..]
                       && st'.nodes.Keys == st.nodes.Keys && st'.next == st.next
                  else KidsOf(st', p) == kids[k := st.next]
                       && st'.nodes.Keys == st.nodes.Keys + {st.next} && st'.next == st.next + 1
                       && st'.nodes[st.next] == Replacement(st, inst, outcome, fallback, parse))
  {
    assert TargetParent(inst) in st.nodes;
  }

  /** A step changes only the target parent's entry and adds at most the one new identity. */
  lemma StepFrame(st: State, inst: CodeInstance, outcome: Outcome, fallback: Option<Fallback>, parse: Parser)
    requires Fresh(st) && |inst.ancestors| >= 2
    requires Step(st, inst, outcome, fallback, parse).Continue?
    ensures var st' := Step(st, inst, outcome, fallback, parse).state;
            && Fresh(st') && st.next <= st'.next <= st.next + 1
            && st'.nodes.Keys <= st.nodes.Keys + {st.next}
            && (forall id :: id in st.nodes ==> id in st'.nodes)
            && (forall id :: id in st'.nodes && id !in st.nodes ==> st.next <= id)
            && (forall id :: id in st.nodes && id != TargetParent(inst) ==> st'.nodes[id] == st.nodes[id])
  {
  }

  /** The identity is the parent of the unit of some instance. */
  predicate IsTargetParent(instances: seq<CodeInstance>, id: Id) {
    exists i :: 0 <= i < |instances| && |instances[i].ancestors| >= 2 && TargetParent(instances[i]) == id
  }

  /**
   * The loop changes no node other than the parents of the units, keeps
   * every node it found, and only adds nodes under new identities.
   */
  lemma {:induction false} RunTouchesOnlyTargetParents(
    st: State, instances: seq<CodeInstance>, outcomes: seq<Outcome>, fallback: Option<Fallback>, parse: Parser)
    requires Fresh(st) && Addressable(instances) && |outcomes| == |instances|
    ensures var r := Run(st, instances, outcomes, fallback, parse).state;
            && Fresh(r) && st.next <= r.next
            && (forall id :: id in st.nodes ==> id in r.nodes)
            && (forall id :: id in r.nodes && id !in st.nodes ==> st.next <= id)
            && (forall id :: id in st.nodes && !IsTargetParent(instances, id) ==> r.nodes[id] == st.nodes[id])
    decreases |instances|
  {
    if instances != [] {
      var step := Step(st, instances[0], outcomes[0], fallback, parse);
      if step.Continue? {
        StepFrame(st, instances[0], outcomes[0], fallback, parse);
        var rest := instances[1..];
        assert Addressable(rest) by {
          forall i | 0 <= i < |rest| ensures |rest[i].ancestors| >= 2 { assert rest[i] == instances[i + 1]; }
        }
        RunTouchesOnlyTargetParents(step.state, rest, outcomes[1..], fallback, parse);
        forall id | id in st.nodes && !IsTargetParent(instances, id)
          ensures Run(st, instances, outcomes, fallback, parse).state.nodes[id] == st.nodes[id]
        {
          assert TargetParent(instances[0]) != id;
          assert !IsTargetParent(rest, id) by {
            forall i | 0 <= i < |rest| && |rest[i].ancestors| >= 2 ensures TargetParent(rest[i]) != id {
              assert rest[i] == instances[i + 1];
            }
          }
        }
      }
    }
  }

  /**
   * Without a fallback, let `j` be the first failing outcome (or the end).
   * The loop replaces the units of the instances before `j` exactly as a run
   * over that prefix does, makes no substitution for `j` or later, and
   * throws the fatal error for instance `j`; it throws nothing only when
   * every render succeeded.
   */
  lemma {:induction false} RunStopsAtFirstUnhandledFailure(
    st: State, instances: seq<CodeInstance>, outcomes: seq<Outcome>, parse: Parser, j: nat)
    requires Addressable(instances) && |outcomes| == |instances|
    requires j <= |instances|
    requires forall i :: 0 <= i < j ==> outcomes[i].Success?
    requires j < |instances| ==> outcomes[j].Failure?
    ensures Addressable(instances[..j])
    ensures Run(st, instances, outcomes, None, parse).state == Run(st, instances[..j], outcomes[..j], None, parse).state
    ensures Run(st, instances[..j], outcomes[..j], None, parse).error == None
    ensures j < |instances| ==> Run(st, instances, outcomes, None, parse).error == Some(Fatal(instances[j], outcomes[j].error))
    ensures j == |instances| ==> Run(st, instances, outcomes, None, parse).error == None
    decreases j
  {
    assert Addressable(instances[..j]) by {
      forall i | 0 <= i < j ensures |instances[..j][i].ancestors| >= 2 { assert instances[..j][i] == instances[i]; }
    }
    if j == 0 {
      assert instances[..0] == [] && outcomes[..0] == [];
      if instances != [] {
        assert outcomes[0].Failure?;
      }
    } else {
      var step := Step(st, instances[0], outcomes[0], None, parse);
      assert outcomes[0].Success?;
      assert step.Continue?;
      var rest := instances[1..];
      assert Addressable(rest) by {
        forall i | 0 <= i < |rest| ensures |rest[i].ancestors| >= 2 { assert rest[i] == instances[i + 1]; }
      }
      assert forall i :: 0 <= i < j - 1 ==> outcomes[1..][i] == outcomes[i + 1];
      RunStopsAtFirstUnhandledFailure(step.state, rest, outcomes[1..], parse, j - 1);
      assert instances[..j][1..] == rest[..j - 1];
      assert outcomes[..j][1..] == outcomes[1..][..j - 1];
      assert instances[..j][0] == instances[0] && outcomes[..j][0] == outcomes[0];
    }
  }

  /** The fallback never asks for a removal (or there is none, so failures are fatal). */
  ghost predicate NeverRemoves(fallback: Option<Fallback>) {
    fallback.None? || forall n, spec, e :: fallback.value(n, spec, e).Some?
  }

  /**
   * When nothing is removed, every node the loop found keeps its number of
   * children: each substitution overwrites a slot in place.
   */
  lemma {:induction false} RunKeepsChildCounts(
    st: State, instances: seq<CodeInstance>, outcomes: seq<Outcome>, fallback: Option<Fallback>, parse: Parser)
    requires Fresh(st) && Addressable(instances) && |outcomes| == |instances|
    requires NeverRemoves(fallback)
    ensures forall id :: id in st.nodes ==>
              |KidsOf(Run(st, instances, outcomes, fallback, parse).state, id)| == |KidsOf(st, id)|
    decreases |instances|
  {
    if instances != [] {
      var step := Step(st, instances[0], outcomes[0], fallback, parse);
      if step.Continue? {
        StepFrame(st, instances[0], outcomes[0], fallback, parse);
        assert forall id :: id in st.nodes ==> |KidsOf(step.state, id)| == |KidsOf(st, id)|;
        var rest := instances[1..];
        assert Addressable(rest) by {
          forall i | 0 <= i < |rest| ensures |rest[i].ancestors| >= 2 { assert rest[i] == instances[i + 1]; }
        }
        RunKeepsChildCounts(step.state, rest, outcomes[1..], fallback, parse);
      }
    }
  }

  /** The only child a step ever takes out of any child list is the unit itself. */
  predicate TakesOutOnly(before: State, after: State, unit: Id) {
    forall id :: id in before.nodes ==>
      multiset(KidsOf(before, id)) - multiset(KidsOf(after, id)) <= multiset{unit}
  }

  lemma MultisetSplice(s: seq<Id>, k: nat)
    requires k < |s|
    ensures multiset(s) - multiset(s[..k] + s[k + 1..]) == multiset{s[k]}
  {
    assert s == s[..k] + [s[k]] + s[k + 1..];
  }

  lemma MultisetOverwrite(s: seq<Id>, k: nat, x: Id)
    requires k < |s|
    ensures multiset(s) - multiset(s[k := x]) <= multiset{s[k]}
  {
    assert s == s[..k] + [s[k]] + s[k + 1..];
    assert s[k := x] == s[..k] + [x] + s[k + 1..];
  }

  /** With the guard on removals, a step never takes a node other than the unit out of the tree's child lists. */
  lemma StepTakesOutOnlyTheUnit(st: State, inst: CodeInstance, outcome: Outcome, fallback: Option<Fallback>, parse: Parser)
    requires Fresh(st) && |inst.ancestors| >= 2
    requires Step(st, inst, outcome, fallback, parse).Continue?
    ensures TakesOutOnly(st, Step(st, inst, outcome, fallback, parse).state, Unit(inst))
  {
    var st' := Step(st, inst, outcome, fallback, parse).state;
    var p := TargetParent(inst);
    var k := CurrentIndex(st, inst);
    StepFrame(st, inst, outcome, fallback, parse);
    forall id | id in st.nodes
      ensures multiset(KidsOf(st, id)) - multiset(KidsOf(st', id)) <= multiset{Unit(inst)}
    {
      if id != p {
        assert KidsOf(st', id) == KidsOf(st, id);
      } else if k < 0 {
        assert st' == st;
      } else {
        UnitSlotChange(st, inst, outcome, fallback, parse);
      }
    }
  }

  /** The child list of the target parent after a step that found the unit loses at most the unit. */
  lemma UnitSlotChange(st: State, inst: CodeInstance, outcome: Outcome, fallback: Option<Fallback>, parse: Parser)
    requires Fresh(st) && |inst.ancestors| >= 2
    requires Step(st, inst, outcome, fallback, parse).Continue?
    requires CurrentIndex(st, inst) >= 0
    ensures var p := TargetParent(inst);
            multiset(KidsOf(st, p)) - multiset(KidsOf(Step(st, inst, outcome, fallback, parse).state, p))
              <= multiset{Unit(inst)}
  {
    var p := TargetParent(inst);
    var k := CurrentIndex(st, inst);
    var kids := KidsOf(st, p);
    var st' := Step(st, inst, outcome, fallback, parse).state;
    match outcome
    case Success(svg) =>
      AssignKids(st, p, k, FirstChild(parse(svg)));
      MultisetOverwrite(kids, k, st.next);
    case Failure(e) =>
      var r := fallback.value(Lookup(st.nodes, Unit(inst)), inst.spec, e);
      if r.Some? {
        AssignKids(st, p, k, r.value);
        MultisetOverwrite(kids, k, st.next);
      } else {
        assert st' == Splice(st, p, k);
        MultisetSplice(kids, k);
      }
  }

  lemma AssignKids(st: State, parent: Id, index: nat, n: Node)
    requires index < |KidsOf(st, parent)|
    ensures KidsOf(Assign(st, parent, index, n), parent) == KidsOf(st, parent)[index := st.next]
  {
    assert parent in st.nodes;
  }

  /** A step cannot take a unit other than its own out of a child list. */
  lemma StepKeepsOtherUnits(st: State, inst: CodeInstance, outcome: Outcome, fallback: Option<Fallback>, parse: Parser,
                            u: Id, p: Id)
    requires Fresh(st) && |inst.ancestors| >= 2
    requires Step(st, inst, outcome, fallback, parse).Continue?
    requires u != Unit(inst) && u in KidsOf(st, p)
    ensures u in KidsOf(Step(st, inst, outcome, fallback, parse).state, p)
  {
    var st' := Step(st, inst, outcome, fallback, parse).state;
    StepTakesOutOnlyTheUnit(st, inst, outcome, fallback, parse);
    assert p in st.nodes;
    assert multiset(KidsOf(st, p))[u] > 0;
    assert (multiset(KidsOf(st, p)) - multiset(KidsOf(st', p)))[u] == 0;
  }

  predicate DistinctUnits(instances: seq<CodeInstance>) {
    forall i, j ::
      0 <= i < j < |instances| && |instances[i].ancestors| >= 2 && |instances[j].ancestors| >= 2 ==>
        Unit(instances[i]) != Unit(instances[j])
  }

  predicate UnitsPresent(st: State, instances: seq<CodeInstance>) {
    forall i ::
      0 <= i < |instances| && |instances[i].ancestors| >= 2 ==>
        Unit(instances[i]) in KidsOf(st, TargetParent(instances[i]))
  }

  /** Whenever the unit is still in its parent, the loop body as written and the guarded one agree. */
  lemma AsWrittenAgreesWhileUnitPresent(st: State, inst: CodeInstance, outcome: Outcome, fallback: Option<Fallback>, parse: Parser)
    requires |inst.ancestors| >= 2 && Unit(inst) in KidsOf(st, TargetParent(inst))
    ensures StepAsWritten(st, inst, outcome, fallback, parse) == Step(st, inst, outcome, fallback, parse)
  {
  }

  /** The instances before `i`, and those from `i` on, are addressable. */
  lemma AddressableSplit(instances: seq<CodeInstance>, i: nat)
    requires Addressable(instances) && i <= |instances|
    ensures Addressable(instances[..i]) && Addressable(instances[i..])
  {
    forall j | 0 <= j < i ensures |instances[..i][j].ancestors| >= 2 { assert instances[..i][j] == instances[j]; }
    forall j | 0 <= j < |instances| - i ensures |instances[i..][j].ancestors| >= 2 { assert instances[i..][j] == instances[i + j]; }
  }

  /** Dropping the head commutes with taking the first `i` elements or dropping the first `i`. */
  lemma ConsSlices<T>(s: seq<T>, i: nat)
    requires 0 < i <= |s|
    ensures s[..i][0] == s[0] && s[..i][1..] == s[1..][..i - 1] && s[1..][i - 1..] == s[i..]
  {
  }

  /**
   * A step that does not abort keeps the remaining instances' units distinct
   * and present in their parents.
   */
  lemma StepKeepsUnitsPresent(
    st: State, instances: seq<CodeInstance>, outcomes: seq<Outcome>, fallback: Option<Fallback>, parse: Parser)
    requires Fresh(st) && Addressable(instances) && |outcomes| == |instances| && instances != []
    requires DistinctUnits(instances) && UnitsPresent(st, instances)
    requires Step(st, instances[0], outcomes[0], fallback, parse).Continue?
    ensures var st' := Step(st, instances[0], outcomes[0], fallback, parse).state;
            && Fresh(st') && Addressable(instances[1..])
            && DistinctUnits(instances[1..]) && UnitsPresent(st', instances[1..])
  {
    var st' := Step(st, instances[0], outcomes[0], fallback, parse).state;
    StepFrame(st, instances[0], outcomes[0], fallback, parse);
    var rest := instances[1..];
    AddressableSplit(instances, 1);
    assert DistinctUnits(rest) by {
      forall i, j | 0 <= i < j < |rest| && |rest[i].ancestors| >= 2 && |rest[j].ancestors| >= 2
        ensures Unit(rest[i]) != Unit(rest[j])
      {
        assert rest[i] == instances[i + 1] && rest[j] == instances[j + 1];
      }
    }
    assert UnitsPresent(st', rest) by {
      forall i | 0 <= i < |rest| && |rest[i].ancestors| >= 2
        ensures Unit(rest[i]) in KidsOf(st', TargetParent(rest[i]))
      {
        assert rest[i] == instances[i + 1];
        StepKeepsOtherUnits(st, instances[0], outcomes[0], fallback, parse, Unit(rest[i]), TargetParent(rest[i]));
      }
    }
  }

  /**
   * When every instance has its own unit, and each unit is a child of its
   * parent when the loop starts, every `indexOf` finds its unit, and the loop
   * as written behaves exactly like the guarded one.
   */
  lemma {:induction false} AsWrittenAgreesWithDistinctUnits(
    st: State, instances: seq<CodeInstance>, outcomes: seq<Outcome>, fallback: Option<Fallback>, parse: Parser)
    requires Fresh(st) && Addressable(instances) && |outcomes| == |instances|
    requires DistinctUnits(instances) && UnitsPresent(st, instances)
    ensures RunAsWritten(st, instances, outcomes, fallback, parse) == Run(st, instances, outcomes, fallback, parse)
    decreases |instances|
  {
    if instances != [] {
      AsWrittenAgreesWhileUnitPresent(st, instances[0], outcomes[0], fallback, parse);
      var step := Step(st, instances[0], outcomes[0], fallback, parse);
      if step.Continue? {
        StepKeepsUnitsPresent(st, instances, outcomes, fallback, parse);
        AsWrittenAgreesWithDistinctUnits(step.state, instances[1..], outcomes[1..], fallback, parse);
      }
    }
  }

  /**
   * The loop over a list is the loop over its first `i` instances, followed,
   * unless that prefix threw, by the loop over the rest from the state the
   * prefix left.
   */
  lemma {:induction false} RunSplit(
    st: State, instances: seq<CodeInstance>, outcomes: seq<Outcome>, fallback: Option<Fallback>, parse: Parser, i: nat)
    requires Addressable(instances) && |outcomes| == |instances| && i <= |instances|
    ensures Addressable(instances[..i]) && Addressable(instances[i..])
    ensures var pre := Run(st, instances[..i], outcomes[..i], fallback, parse);
            Run(st, instances, outcomes, fallback, parse)
              == if pre.error.Some? then pre else Run(pre.state, instances[i..], outcomes[i..], fallback, parse)
    decreases i
  {
    AddressableSplit(instances, i);
    if i == 0 {
      assert instances[..0] == [] && instances[0..] == instances && outcomes[0..] == outcomes;
    } else {
      ConsSlices(instances, i);
      ConsSlices(outcomes, i);
      var step := Step(st, instances[0], outcomes[0], fallback, parse);
      if step.Continue? {
        AddressableSplit(instances, 1);
        RunSplit(step.state, instances[1..], outcomes[1..], fallback, parse, i - 1);
      }
    }
  }

  /**
   * With distinct units all present when the loop starts, the loop over the
   * instances before `i` leaves instance `i`'s unit in its parent, so the
   * `indexOf` at instance `i`'s turn finds it.
   */
  lemma {:induction false} RunFindsEveryUnit(
    st: State, instances: seq<CodeInstance>, outcomes: seq<Outcome>, fallback: Option<Fallback>, parse: Parser, i: nat)
    requires Fresh(st) && Addressable(instances) && |outcomes| == |instances|
    requires DistinctUnits(instances) && UnitsPresent(st, instances) && i < |instances|
    ensures Addressable(instances[..i])
    ensures var pre := Run(st, instances[..i], outcomes[..i], fallback, parse).state;
            && Unit(instances[i]) in KidsOf(pre, TargetParent(instances[i]))
            && CurrentIndex(pre, instances[i]) >= 0
    decreases i
  {
    AddressableSplit(instances, i);
    var inst := instances[i];
    assert Unit(inst) in KidsOf(st, TargetParent(inst));
    if i == 0 {
      assert instances[..0] == [];
    } else {
      ConsSlices(instances, i);
      ConsSlices(outcomes, i);
      var step := Step(st, instances[0], outcomes[0], fallback, parse);
      if step.Continue? {
        StepKeepsUnitsPresent(st, instances, outcomes, fallback, parse);
        assert instances[1..][i - 1] == inst;
        RunFindsEveryUnit(step.state, instances[1..], outcomes[1..], fallback, parse, i - 1);
      }
    }
  }

  /**
   * With distinct units all present when the loop starts, each instance is
   * substituted at its turn: unless an earlier instance threw, the loop is
   * the loop over the instances before `i`, then the step for instance `i`
   * on the slot where its unit then is (`StepAtUnitSlot` says what that step
   * does), then the loop over the instances after it.
   */
  lemma RunSubstitutesInTurn(
    st: State, instances: seq<CodeInstance>, outcomes: seq<Outcome>, fallback: Option<Fallback>, parse: Parser, i: nat)
    requires Fresh(st) && Addressable(instances) && |outcomes| == |instances|
    requires DistinctUnits(instances) && UnitsPresent(st, instances) && i < |instances|
    ensures Addressable(instances[..i]) && Addressable(instances[i + 1..])
    ensures var pre := Run(st, instances[..i], outcomes[..i], fallback, parse);
            var step := Step(pre.state, instances[i], outcomes[i], fallback, parse);
            && Fresh(pre.state)
            && Unit(instances[i]) in KidsOf(pre.state, TargetParent(instances[i]))
            && (pre.error.None? ==>
                  Run(st, instances, outcomes, fallback, parse)
                    == match step
                       case Abort(e) => RunResult(pre.state, Some(e))
                       case Continue(s) => Run(s, instances[i + 1..], outcomes[i + 1..], fallback, parse))
  {
    AddressableSplit(instances, i + 1);
    RunFindsEveryUnit(st, instances, outcomes, fallback, parse, i);
    RunTouchesOnlyTargetParents(st, instances[..i], outcomes[..i], fallback, parse);
    RunSplit(st, instances, outcomes, fallback, parse, i);
    var tail := instances[i..];
    assert tail[0] == instances[i] && outcomes[i..][0] == outcomes[i];
    assert tail[1..] == instances[i + 1..] && outcomes[i..][1..] == outcomes[i + 1..];
  }

  /** Either every outcome succeeded, or there is a first failing one. */
  lemma {:induction false} FirstFailure(outcomes: seq<Outcome>)
    ensures (forall i :: 0 <= i < |outcomes| ==> outcomes[i].Success?)
            || exists j :: 0 <= j < |outcomes| && outcomes[j].Failure? && forall i :: 0 <= i < j ==> outcomes[i].Success?
    decreases |outcomes|
  {
    if outcomes != [] && outcomes[0].Success? {
      var rest := outcomes[1..];
      FirstFailure(rest);
      assert forall i :: 1 <= i < |outcomes| ==> outcomes[i] == rest[i - 1];
      if j :| 0 <= j < |rest| && rest[j].Failure? && forall i :: 0 <= i < j ==> rest[i].Success? {
        assert outcomes[j + 1].Failure?;
        assert forall i :: 0 <= i < j + 1 ==> outcomes[i].Success?;
      }
    }
  }

  /** Without a fallback the loop ends in the fatal error exactly when some outcome is a failure. */
  lemma RunFatalIffSomeFailure(st: State, instances: seq<CodeInstance>, outcomes: seq<Outcome>, parse: Parser)
    requires Addressable(instances) && |outcomes| == |instances|
    ensures Run(st, instances, outcomes, None, parse).error.None?
            <==> forall i :: 0 <= i < |outcomes| ==> outcomes[i].Success?
  {
    FirstFailure(outcomes);
    if j :| 0 <= j < |outcomes| && outcomes[j].Failure? && forall i :: 0 <= i < j ==> outcomes[i].Success? {
      RunStopsAtFirstUnhandledFailure(st, instances, outcomes, parse, j);
    } else {
      RunStopsAtFirstUnhandledFailure(st, instances, outcomes, parse, |instances|);
    }
  }

  /** A fatal error is the one for an instance whose outcome is a failure. */
  lemma {:induction false} RunFatalNamesFailure(
    st: State, instances: seq<CodeInstance>, outcomes: seq<Outcome>, fallback: Option<Fallback>, parse: Parser)
    requires Addressable(instances) && |outcomes| == |instances|
    requires Run(st, instances, outcomes, fallback, parse).error.Some?
    ensures exists i :: 0 <= i < |instances| && outcomes[i].Failure?
                        && Run(st, instances, outcomes, fallback, parse).error.value == Fatal(instances[i], outcomes[i].error)
    decreases |instances|
  {
    var step := Step(st, instances[0], outcomes[0], fallback, parse);
    if step.Continue? {
      var rest := instances[1..];
      assert Addressable(rest) by {
        forall i | 0 <= i < |rest| ensures |rest[i].ancestors| >= 2 { assert rest[i] == instances[i + 1]; }
      }
      RunFatalNamesFailure(step.state, rest, outcomes[1..], fallback, parse);
      var i :| 0 <= i < |rest| && outcomes[1..][i].Failure?
               && Run(step.state, rest, outcomes[1..], fallback, parse).error.value == Fatal(rest[i], outcomes[1..][i].error);
      assert rest[i] == instances[i + 1] && outcomes[1..][i] == outcomes[i + 1];
    } else {
      assert outcomes[0].Failure?;
    }
  }
}
