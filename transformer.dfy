/**
 * The transformer `rehypeInfographic(options)` returns: collect the
 * instances, stop when there are none, render every spec, then run the
 * substitution loop.
 */
module Transformer {
  import opened Wrappers
  import opened Hast
  import opened Matcher
  import opened Options
  import opened Collector
  import opened Substitution

  /** `renderInfographic(spec, options)` settled: the SVG markup or the value it threw. */
  type Renderer = (string, map<string, Value>) -> Outcome

  /** `Promise.all(instances.map(...))`: one outcome per instance, in the instances' order. */
  function RenderAll(instances: seq<CodeInstance>, render: Renderer, opts: map<string, Value>): (r: seq<Outcome>)
    ensures |r| == |instances|
    ensures forall i :: 0 <= i < |instances| ==> r[i] == render(instances[i].spec, opts)
  {
    seq(|instances|, i requires 0 <= i < |instances| => render(instances[i].spec, opts))
  }

  /** Outcome `i` is the render of instance `i`'s spec alone: what the other instances hold plays no part. */
  lemma OutcomeDependsOnlyOnOwnSpec(a: seq<CodeInstance>, b: seq<CodeInstance>, i: nat, j: nat,
                                    render: Renderer, opts: map<string, Value>)
    requires i < |a| && j < |b| && a[i].spec == b[j].spec
    ensures |RenderAll(a, render, opts)| == |a|
    ensures RenderAll(a, render, opts)[i] == RenderAll(b, render, opts)[j]
  {
  }

  /** Rendering a worklist in two halves gives the outcomes of rendering it whole, in the same order. */
  lemma RenderAllSplits(a: seq<CodeInstance>, b: seq<CodeInstance>, render: Renderer, opts: map<string, Value>)
    ensures RenderAll(a + b, render, opts) == RenderAll(a, render, opts) + RenderAll(b, render, opts)
  {
    assert forall i :: 0 <= i < |a| ==> (a + b)[i] == a[i];
    assert forall i :: |a| <= i < |a + b| ==> (a + b)[i] == b[i - |a|];
  }

  predicate IsTree(st: State, root: Id) {
    Ordered(st.nodes) && root in st.nodes && st.nodes[root].Root?
  }

  lemma CollectAddressable(nodes: map<Id, Node>, root: Id)
    requires Ordered(nodes) && root in nodes && nodes[root].Root?
    ensures Addressable(Collect(nodes, root))
    ensures forall inst :: inst in Collect(nodes, root) ==> InstanceOk(nodes, root, inst)
  {
    CollectShape(nodes, root);
    var c := Collect(nodes, root);
    assert forall i :: 0 <= i < |c| ==> c[i] in c;
  }

  /** The whole transform on a tree: its final state and the fatal error, if any. */
  function Pipeline(st: State, root: Id, options: PluginOptions, render: Renderer, parse: Parser): (r: RunResult)
    requires IsTree(st, root)
    // nothing collected: the tree is handed back as it is
    ensures Collect(st.nodes, root) == [] ==> r == RunResult(st, None)
    // only a failure without an error fallback is fatal
    ensures r.error.Some? ==> options.errorFallback.None? && Collect(st.nodes, root) != []
  {
    var instances := Collect(st.nodes, root);
    if instances == [] then RunResult(st, None)
    else
      CollectAddressable(st.nodes, root);
      Run(st, instances, RenderAll(instances, render, RenderOptionsFor(options)),
          MergeOptions(options).errorFallback, parse)
  }

  /** The transformer, mutating the document in place and returning the fatal error it would throw. */
  method Transform(doc: Document, root: Id, options: PluginOptions, render: Renderer, parse: Parser)
    returns (error: Option<FatalError>)
    requires doc.Valid() && IsTree(doc.Current(), root)
    modifies doc
    ensures doc.Valid()
    ensures doc.Current() == Pipeline(old(doc.Current()), root, options, render, parse).state
    ensures error == Pipeline(old(doc.Current()), root, options, render, parse).error
  {
    var finalOptions := MergeOptions(options);
    var instances := CollectInstances(doc.nodes, root);
    if |instances| == 0 {
      return None;
    }
    var results := RenderAll(instances, render, RenderOptions(finalOptions));
    CollectAddressable(doc.nodes, root);
    error := Substitute(doc, instances, results, finalOptions.errorFallback, parse);
  }

  /**
   * When no element reachable from the root matches, or every such match has
   * a blank text, the tree is handed back unchanged and nothing is thrown.
   */
  lemma NothingToRenderLeavesTree(st: State, root: Id, options: PluginOptions, render: Renderer, parse: Parser)
    requires IsTree(st, root)
    requires forall id :: Reachable(st.nodes, root, id) && id in st.nodes && IsInfographicElement(st.nodes[id])
                          ==> Blank(TextOf(st.nodes, id))
    ensures Pipeline(st, root, options, render, parse) == RunResult(st, None)
  {
    NothingToRender(st.nodes, root);
  }

  /** Nodes that are not the parent of a collected unit keep their content. */
  lemma PipelineTouchesOnlyTargetParents(st: State, root: Id, options: PluginOptions, render: Renderer, parse: Parser)
    requires IsTree(st, root) && Fresh(st)
    ensures var r := Pipeline(st, root, options, render, parse).state;
            forall id :: id in st.nodes && !IsTargetParent(Collect(st.nodes, root), id) ==>
              id in r.nodes && r.nodes[id] == st.nodes[id]
  {
    var instances := Collect(st.nodes, root);
    if instances != [] {
      CollectAddressable(st.nodes, root);
      RunTouchesOnlyTargetParents(st, instances, RenderAll(instances, render, RenderOptionsFor(options)),
                                  MergeOptions(options).errorFallback, parse);
    }
  }

  /** Without a fallback the transform throws exactly when some collected spec fails to render. */
  lemma FatalExactlyWhenARenderFails(st: State, root: Id, options: PluginOptions, render: Renderer, parse: Parser)
    requires IsTree(st, root) && options.errorFallback.None?
    ensures Pipeline(st, root, options, render, parse).error.None?
            <==> forall i :: 0 <= i < |Collect(st.nodes, root)| ==>
                   render(Collect(st.nodes, root)[i].spec, RenderOptionsFor(options)).Success?
  {
    var instances := Collect(st.nodes, root);
    if instances != [] {
      CollectAddressable(st.nodes, root);
      var outcomes := RenderAll(instances, render, RenderOptionsFor(options));
      assert forall i :: 0 <= i < |outcomes| ==> outcomes[i] == render(instances[i].spec, RenderOptionsFor(options));
      assert MergeOptions(options).errorFallback.None?;
      RunFatalIffSomeFailure(st, instances, outcomes, parse);
    }
  }

  /**
   * The guarded loop and the loop as written give the same result on every
   * tree whose collected instances all have distinct units.
   */
  lemma PipelineAsWrittenWhenUnitsDistinct(st: State, root: Id, options: PluginOptions, render: Renderer, parse: Parser)
    requires IsTree(st, root) && Fresh(st)
    requires DistinctUnits(Collect(st.nodes, root)) && Collect(st.nodes, root) != []
    ensures Addressable(Collect(st.nodes, root))
    ensures Pipeline(st, root, options, render, parse)
            == RunAsWritten(st, Collect(st.nodes, root),
                            RenderAll(Collect(st.nodes, root), render, RenderOptionsFor(options)),
                            MergeOptions(options).errorFallback, parse)
  {
    var instances := Collect(st.nodes, root);
    CollectAddressable(st.nodes, root);
    assert UnitsPresent(st, instances) by {
      forall i | 0 <= i < |instances| && |instances[i].ancestors| >= 2
        ensures Unit(instances[i]) in KidsOf(st, TargetParent(instances[i]))
      {
        assert instances[i] in instances;
      }
    }
    AsWrittenAgreesWithDistinctUnits(st, instances, RenderAll(instances, render, RenderOptionsFor(options)),
                                     MergeOptions(options).errorFallback, parse);
  }

  /**
   * On a tree whose collected instances all have distinct units, each
   * instance is substituted at its turn: unless an earlier instance threw,
   * the transform is the loop over the instances before `i`, then the step
   * for instance `i` on the slot where its unit then is, then the loop over
   * the instances after it.
   */
  lemma PipelineSubstitutesInTurn(st: State, root: Id, options: PluginOptions, render: Renderer, parse: Parser, i: nat)
    requires IsTree(st, root) && Fresh(st)
    requires DistinctUnits(Collect(st.nodes, root)) && i < |Collect(st.nodes, root)|
    ensures Addressable(Collect(st.nodes, root))
    ensures Addressable(Collect(st.nodes, root)[..i]) && Addressable(Collect(st.nodes, root)[i + 1..])
    ensures var instances := Collect(st.nodes, root);
            var outcomes := RenderAll(instances, render, RenderOptionsFor(options));
            var fallback := MergeOptions(options).errorFallback;
            var pre := Run(st, instances[..i], outcomes[..i], fallback, parse);
            && Unit(instances[i]) in KidsOf(pre.state, TargetParent(instances[i]))
            && (pre.error.None? ==>
                  Pipeline(st, root, options, render, parse)
                    == match Step(pre.state, instances[i], render(instances[i].spec, RenderOptionsFor(options)), fallback, parse)
                       case Abort(e) => RunResult(pre.state, Some(e))
                       case Continue(s) => Run(s, instances[i + 1..], outcomes[i + 1..], fallback, parse))
  {
    var instances := Collect(st.nodes, root);
    CollectAddressable(st.nodes, root);
    assert UnitsPresent(st, instances) by {
      forall j | 0 <= j < |instances| && |instances[j].ancestors| >= 2
        ensures Unit(instances[j]) in KidsOf(st, TargetParent(instances[j]))
      {
        assert instances[j] in instances;
      }
    }
    var outcomes := RenderAll(instances, render, RenderOptionsFor(options));
    RunSubstitutesInTurn(st, instances, outcomes, MergeOptions(options).errorFallback, parse, i);
  }
}
