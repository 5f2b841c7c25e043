/**
 * The tree `<pre class="infographic"><code class="language-infographic">x</code></pre><p></p>`
 * yields two instances with the same unit, the `pre`
 * (`Collector.MarkedPreAndCodeShareUnit`). This module states what the model
 * of the transform does on it with a renderer that always fails and an error
 * fallback that returns null, asking for each failed block to be removed.
 */
module Findings {
  import opened Wrappers
  import opened Hast
  import opened Matcher
  import opened Options
  import opened Collector
  import opened Substitution
  import opened Transformer

  /** The tree before substitution; identities are numbered children first. */
  function Start(): State {
    State(map[
      0 := Text("x"),
      1 := Element("code", List(["language-infographic"]), [0]),
      2 := Element("pre", List(["infographic"]), [1]),
      3 := Element("p", Missing, []),
      4 := Root([2, 3])], 5)
  }

  /** The two instances for the `pre`, both with ancestors root, `pre`. */
  function Twice(): seq<CodeInstance> {
    [CodeInstance("x", [4, 2]), CodeInstance("x", [4, 2])]
  }

  function AlwaysFails(): Renderer {
    (spec: string, opts: map<string, Value>) => Failure(NonError("bad"))
  }

  function Outcomes(): seq<Outcome> {
    [Failure(NonError("bad")), Failure(NonError("bad"))]
  }

  function SvgParser(): Parser {
    (markup: string) => [Element("svg", Missing, [])]
  }

  function RemoveOnError(): Option<Fallback> {
    Some((n: Node, spec: string, e: ErrorValue) => None)
  }

  function RemovingOptions(): PluginOptions {
    PluginOptions(Omitted, Omitted, None, RemoveOnError())
  }

  /** The state after the first instance has removed the `pre`. */
  function AfterFirst(): State {
    State(Start().nodes[4 := Root([3])], 5)
  }

  /** The text of the `code` and of the `pre` is "x". */
  lemma TextsOfStart()
    ensures Ordered(Start().nodes)
    ensures TextOf(Start().nodes, 1) == "x" && TextOf(Start().nodes, 2) == "x"
  {
    var nodes := Start().nodes;
    assert TextOfAll(nodes, [0], 1) == "x";
    assert TextOf(nodes, 1) == "x";
    assert TextOfAll(nodes, [1], 2) == "x";
  }

  /** The `pre`'s subtree is visited as the `pre`, then the `code`. */
  lemma VisitsOfPre()
    ensures Ordered(Start().nodes)
    ensures Visits(Start().nodes, 2, [4]) == [Visit(2, [4]), Visit(1, [4, 2])]
  {
    var nodes := Start().nodes;
    assert [4] + [2] == [4, 2] && [4, 2] + [1] == [4, 2, 1];
    assert VisitsAll(nodes, [0], [4, 2, 1], 1) == [];
    assert Visits(nodes, 1, [4, 2]) == [Visit(1, [4, 2])];
    assert VisitsAll(nodes, [1], [4, 2], 2) == [Visit(1, [4, 2])];
  }

  /** The `p` is visited alone. */
  lemma VisitsOfSibling()
    ensures Ordered(Start().nodes)
    ensures VisitsAll(Start().nodes, [3], [4], 4) == [Visit(3, [4])]
  {
    var nodes := Start().nodes;
    assert [4] + [3] == [4, 3];
    assert VisitsAll(nodes, [], [4, 3], 3) == [];
    assert Visits(nodes, 3, [4]) == [Visit(3, [4])];
    assert [3][1..] == [];
  }

  /** The whole walk: the `pre`, the `code`, the `p`. */
  lemma VisitsOfStart()
    ensures Ordered(Start().nodes)
    ensures Visits(Start().nodes, 4, []) == [Visit(2, [4]), Visit(1, [4, 2]), Visit(3, [4])]
  {
    var nodes := Start().nodes;
    VisitsOfPre();
    VisitsOfSibling();
    assert [2, 3][1..] == [3] && [2, 3][0] == 2;
    assert VisitsAll(nodes, [2, 3], [4], 4) == Visits(nodes, 2, [4]) + VisitsAll(nodes, [3], [4], 4);
    assert [] + [4] == [4];
    assert Visits(nodes, 4, []) == VisitsAll(nodes, [2, 3], [4], 4);
  }

  /** Both the `pre` and the `code` push an instance for the `pre`; the `p` pushes nothing. */
  lemma ResultsOfStart()
    ensures Ordered(Start().nodes)
    ensures VisitResult(Start().nodes, Visit(2, [4])) == Some(CodeInstance("x", [4, 2]))
    ensures VisitResult(Start().nodes, Visit(1, [4, 2])) == Some(CodeInstance("x", [4, 2]))
    ensures VisitResult(Start().nodes, Visit(3, [4])) == None
  {
    var nodes := Start().nodes;
    TextsOfStart();
    assert !Blank("x") by { assert !IsWhitespace("x"[0]); }
    assert Lookup(nodes, 2) == nodes[2];
    assert !ParentIsPre(nodes, Visit(2, [4]));
    assert IsInfographicElement(nodes[2]) by { assert nodes[2].className.entries[0] == PreMarker; }
    assert [4] + [2] == [4, 2];
    assert ParentIsPre(nodes, Visit(1, [4, 2]));
    assert ParentChildren(nodes, Visit(1, [4, 2])) == [1];
    assert SoleMeaningfulChild(nodes, [1], 1);
    assert !IsInfographicElement(nodes[3]);
  }

  /** The visitor run over the three visits pushes the two instances. */
  lemma FoldOfStart()
    ensures Ordered(Start().nodes)
    ensures CollectVisits(Start().nodes, [Visit(2, [4]), Visit(1, [4, 2]), Visit(3, [4])]) == Twice()
  {
    var nodes := Start().nodes;
    ResultsOfStart();
    var vs := [Visit(2, [4]), Visit(1, [4, 2]), Visit(3, [4])];
    var inst := CodeInstance("x", [4, 2]);
    assert [vs[0]][..0] == [];
    assert CollectVisits(nodes, [vs[0]]) == [inst];
    assert [vs[0], vs[1]][..1] == [vs[0]];
    assert CollectVisits(nodes, [vs[0], vs[1]]) == [inst, inst];
    assert vs[..2] == [vs[0], vs[1]];
  }

  /** The instances collected from the tree are the two for the `pre`. */
  lemma CollectGivesTwice()
    ensures IsTree(Start(), 4)
    ensures Collect(Start().nodes, 4) == Twice()
  {
    VisitsOfStart();
    FoldOfStart();
  }

  /** The renderer fails on both instances. */
  lemma OutcomesAreRendered(opts: map<string, Value>)
    ensures RenderAll(Twice(), AlwaysFails(), opts) == Outcomes()
  {
  }

  /** The first instance finds the `pre` at index 0 and removes it. */
  lemma FirstStepRemovesPre()
    ensures Run(Start(), Twice(), Outcomes(), RemoveOnError(), SvgParser())
            == Run(AfterFirst(), Twice()[1..], Outcomes()[1..], RemoveOnError(), SvgParser())
    ensures RunAsWritten(Start(), Twice(), Outcomes(), RemoveOnError(), SvgParser())
            == RunAsWritten(AfterFirst(), Twice()[1..], Outcomes()[1..], RemoveOnError(), SvgParser())
  {
    assert KidsOf(Start(), 4) == [2, 3];
    assert CurrentIndex(Start(), Twice()[0]) == 0;
    assert SpliceOne([2, 3], 0) == [3];
    assert Splice(Start(), 4, 0) == AfterFirst();
    assert Step(Start(), Twice()[0], Outcomes()[0], RemoveOnError(), SvgParser()) == Continue(AfterFirst());
    assert StepAsWritten(Start(), Twice()[0], Outcomes()[0], RemoveOnError(), SvgParser()) == Continue(AfterFirst());
  }

  /**
   * As written, the second `indexOf` returns -1 and `splice(-1, 1)` removes
   * the parent's last child: the `p`, which is no unit of any instance.
   */
  lemma AsWrittenSpliceRemovesSibling()
    ensures KidsOf(RunAsWritten(Start(), Twice(), Outcomes(), RemoveOnError(), SvgParser()).state, 4) == []
    ensures !TakesOutOnly(AfterFirst(),
                          StepAsWritten(AfterFirst(), Twice()[1], Outcomes()[1], RemoveOnError(), SvgParser()).state,
                          Unit(Twice()[1]))
  {
    FirstStepRemovesPre();
    var inst := Twice()[1];
    assert KidsOf(AfterFirst(), 4) == [3];
    assert CurrentIndex(AfterFirst(), inst) == -1;
    assert RemovalRequested(AfterFirst(), inst, Outcomes()[1], RemoveOnError());
    var after := StepAsWritten(AfterFirst(), inst, Outcomes()[1], RemoveOnError(), SvgParser()).state;
    assert KidsOf(after, 4) == [];
    assert Twice()[1..][1..] == [];
    assert (multiset(KidsOf(AfterFirst(), 4)) - multiset(KidsOf(after, 4)))[3] == 1;
  }

  /** With the guard, the second step finds no unit and leaves the tree as the first step made it. */
  lemma GuardedLoopKeepsSibling()
    ensures KidsOf(Run(Start(), Twice(), Outcomes(), RemoveOnError(), SvgParser()).state, 4) == [3]
  {
    FirstStepRemovesPre();
    var inst := Twice()[1];
    assert KidsOf(AfterFirst(), 4) == [3];
    assert CurrentIndex(AfterFirst(), inst) == -1;
    assert Step(AfterFirst(), inst, Outcomes()[1], RemoveOnError(), SvgParser()) == Continue(AfterFirst());
    assert Twice()[1..][1..] == [];
  }

  /** The whole transform on this tree, errors removed: the root keeps only the `p`. */
  lemma TransformKeepsSibling()
    ensures IsTree(Start(), 4)
    ensures KidsOf(Pipeline(Start(), 4, RemovingOptions(), AlwaysFails(), SvgParser()).state, 4) == [3]
  {
    CollectGivesTwice();
    OutcomesAreRendered(RenderOptionsFor(RemovingOptions()));
    GuardedLoopKeepsSibling();
  }
}
