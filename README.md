# rehype-infographic, modelled in Dafny

`rehype-infographic` is a rehype plugin. It walks a HAST document tree and finds
infographic code blocks: `<code class="language-infographic">`, or
`<pre class="infographic">`. It renders the text of each block to SVG, then puts
the SVG (or the result of an error fallback) in place of the block. When a render
fails and no fallback is configured, it throws a fatal message.

This project models that transform and proves properties of it:

- `hast.dfy`
  - `Wrappers`: the `Option` type.
  - `Hast`: the node model. Nodes live in an arena `map<Id, Node>`, so the
    JavaScript identity test in `indexOf` can be stated directly.
  - The `pre`-whitespace text of a node, which the source gets from `toText`.
  - The `trim` whitespace set.
- `matcher.dfy` — `Matcher`: the predicate `isInfographicElement`.
- `options.dfy` — `Options`:
  - the plugin options;
  - the merge `{ ...defaultOptions, ...options }`;
  - the options handed to the renderer.
- `collector.dfy` — `Collector`, step 1 of the transformer:
  - the pre-order walk of `visitParents`;
  - the visitor;
  - the scan of a `pre`'s children, as a method with a loop;
  - the collecting loop, as a method proved equal to the function `Collect`.
- `substitution.dfy` — `Substitution`, step 3:
  - JavaScript's `indexOf` and `splice`;
  - one loop iteration, `Step`, and the whole loop, `Run`;
  - the mutable `Document` class;
  - the loop itself, `Substitute`, as a method proved equal to `Run`;
  - lemmas about which slots change, what stays, and when the loop throws.
- `transformer.dfy` — `Transformer`: the whole transformer (collect, stop when
  nothing was found, render, substitute), as the method `Transform` and the
  function `Pipeline`.
- `findings.dfy` — `Findings`: the concrete tree on which the substitution loop
  as written removes an unrelated sibling (see "## Findings").

Modelling choices:

- **Node identities.** A node's identity is a natural number. Every child's
  identity is below its parent's (`Hast.Ordered`). Every finite tree can be
  numbered that way, and the walks use it as their termination measure.
- **The -1 index.**
  - `parent.children[-1] = x` sets a property named `-1`, so the child list
    does not change.
  - `splice(-1, 1)` removes the last child.
- **Option keys.** A key that the user's options hold with value `undefined`
  still overrides the default, as object spread does.
- **The spec.** The spec is `toText` of the matched node (src/index.ts:62),
  also when the `pre` is the node replaced.

## Model

| member | source | states |
|---|---|---|
| Matcher.IsInfographicElement | src/utils.ts:8-26 | a match is a `code` or `pre` element; a `code` matches iff its class list is an array containing `language-infographic`, a `pre` iff it contains `infographic` |
| Matcher.NonListNeverMatches | src/utils.ts:10-25 | a missing or non-array `className` never matches, whatever the tag |
| Matcher.OtherTagsNeverMatch | src/utils.ts:18-25 | tags other than `code` and `pre` never match |
| Matcher.MarkersAreExactAndTagSpecific | src/utils.ts:12-22 | markers are tag-specific whole entries: a swapped marker or a prefixed entry does not match; an extra class beside the marker does |
| Matcher.OnlyTagAndClassMatter | src/utils.ts:8-26 | two elements with the same tag and class list get the same answer, whatever their children |
| Options.MergeOptions | src/index.ts:27 | a width or height key the user gave wins, even when its value is `undefined`; an omitted one takes the default; `infographicOptions` and the `errorFallback` carry over unchanged |
| Options.RenderOptionsFor | src/index.ts:83-87 | the renderer gets `width` and `height` plus exactly the `infographicOptions` keys; `infographicOptions` wins over the user's width/height, which win over the defaults `100%`/`auto` |
| Options.DefaultRenderOptions | src/index.ts:14-17 | with no options the renderer gets exactly width `100%` and height `auto` |
| Options.UndefinedWidthOverridesDefault | src/index.ts:27 | a `width` key given as `undefined` overrides the default instead of falling back to it |
| Hast.TextOfAllAppend | src/index.ts:62 | the text of two consecutive runs of children is the first run's text followed by the second's |
| Hast.TextOfAllSplit | src/index.ts:62 | the text of a node (`toText` with `whitespace: 'pre'`) is the text before child `k`, then child `k`'s text, then the text after it: every descendant's text appears, in document order, nothing collapsed |
| Collector.VisitsShape | src/index.ts:33 | every call of the visitor during the `visitParents` walk is for an element of the tree, with ancestors that extend the walk's starting ancestors along a parent-to-child chain |
| Collector.VisitorPushes | src/index.ts:34-72 | the visitor pushes an instance iff the element matches, is the only meaningful child when its parent is a `pre`, and has non-blank text; the spec is the match's text; the ancestors are the parent chain under a `pre`, otherwise the chain plus the match |
| Collector.ScanPreChildren | src/index.ts:45-55 | the loop returns true iff every child of the `pre` is blank text or the match itself |
| Collector.CollectInstances | src/index.ts:30-73 | the visitor loop over the pre-order visits builds exactly `Collect` of the tree |
| Collector.CollectVisitsAppend | src/index.ts:33-73 | each visit contributes on its own: collecting two runs of visits is collecting each and concatenating |
| Collector.CollectVisitsComplete | src/index.ts:33-73 | a visit whose visitor pushes puts its instance into the result, after the instances of earlier visits and before those of later ones |
| Collector.ReachableIsVisited | src/index.ts:33 | the walk visits every element reachable from the root along a parent-to-child path, and its ancestors are the path before it |
| Collector.ReachableMatchCollected | src/index.ts:33-73 | every element reachable from the root that the visitor accepts yields an instance of `Collect` |
| Collector.CollectComplete | src/index.ts:33-73 | every visit of the walk that the visitor accepts yields an instance of `Collect` at its place in visit order |
| Collector.CollectShape | src/index.ts:38-72 | every instance has a non-blank spec and a root-first ancestor chain whose last entry is a child of the one before; either the unit is a `pre` whose only meaningful child is the match (spec = the match's text) or the unit is the match itself under a non-`pre` parent |
| Collector.NothingToRender | src/index.ts:33-67 | when every matching element reachable from the root has a blank text, nothing is collected |
| Collector.MixedPreNotCollected | src/index.ts:42-55 | a match inside a `pre` with a non-blank text child or another non-text child yields no instance |
| Collector.MarkedPreAndCodeShareUnit | src/index.ts:33-59 | a `pre.infographic` whose sole meaningful child is a `code.language-infographic` is visited and collected twice with the same ancestors, so the same unit |
| Substitution.IndexOf | src/index.ts:102 | the result is -1 iff the unit is absent, otherwise the unit's first position |
| Substitution.SpliceOne | src/index.ts:126 | `splice(k, 1)` removes position `k` when it exists, removes the last element for -1, and removes nothing past the end |
| Substitution.Step | src/index.ts:98-142 | one loop iteration (removal guarded, see "## Findings"): it aborts iff the outcome is a failure and there is no fallback, with the fatal error for that instance; when the unit is no longer in its parent the tree is left as it is |
| Substitution.StepAsWritten | src/index.ts:98-142 | the loop body as written: it aborts in the same cases; when the fallback asks for a removal and the unit is no longer in its parent, the parent's last child is dropped |
| Substitution.Run | src/index.ts:97-143 | the loop with the guarded body, stopping at the first abort: a fatal error needs a failure without fallback |
| Substitution.RunAsWritten | src/index.ts:97-143 | the loop as written, stopping at the first abort: a fatal error needs a failure without fallback |
| Substitution.RunFatalNamesFailure | src/index.ts:128-141 | a fatal error of the loop is the one for an instance whose outcome is a failure |
| Substitution.Document.AssignChild | src/index.ts:110 | the document becomes `Assign` of the old one: a new node takes slot `index`, or nothing changes for a negative index; the document stays valid |
| Substitution.Document.SpliceChild | src/index.ts:126 | the document becomes `Splice` of the old one and stays valid |
| Substitution.ApplyStep | src/index.ts:98-142 | one iteration on the document (removal guarded): on abort it returns the fatal error and changes nothing, otherwise the document becomes `Step`'s state; the document stays valid |
| Substitution.Substitute | src/index.ts:97-143 | the loop (removal guarded) leaves the document as `Run` says and returns `Run`'s fatal error; the document stays valid |
| Substitution.StepAtUnitSlot | src/index.ts:102-127 | when the unit is in its parent: the index found is its first position; a step aborts iff the outcome is a failure without fallback; a removal takes out exactly that slot; otherwise only that slot changes, to a new node holding the SVG or the fallback's node; no other node changes |
| Substitution.StepFrame | src/index.ts:97-127 | a step changes only the target parent's entry and adds at most one node, under a new identity |
| Substitution.RunTouchesOnlyTargetParents | src/index.ts:97-143 | the loop keeps every node, adds nodes only under new identities, and changes no node that is not the parent of some unit |
| Substitution.RunStopsAtFirstUnhandledFailure | src/index.ts:128-141 | without a fallback, the result is the run over the instances before the first failure; the fatal error names that instance with `fatal`, ruleId/source `rehype-infographic` and the project URL; later instances are not substituted |
| Substitution.RunFatalIffSomeFailure | src/index.ts:128-141 | without a fallback the loop throws iff some outcome is a failure |
| Substitution.RunKeepsChildCounts | src/index.ts:104-123 | when nothing is removed, every node keeps its number of children |
| Substitution.StepTakesOutOnlyTheUnit | src/index.ts:102-127 | with the removal guarded, a step takes no child other than the unit out of any child list |
| Substitution.StepKeepsOtherUnits | src/index.ts:102-127 | a step does not take another instance's unit out of its parent |
| Substitution.AsWrittenAgreesWhileUnitPresent | src/index.ts:102-127 | while the unit is in its parent, the loop body as written and the guarded one agree |
| Substitution.AsWrittenAgreesWithDistinctUnits | src/index.ts:97-143 | when all units are distinct and present at the start, the loop as written and the guarded loop give the same result |
| Substitution.StepKeepsUnitsPresent | src/index.ts:96-141 | a step that does not throw keeps the later instances' units distinct and each one still a child of its parent |
| Substitution.RunSplit | src/index.ts:96-141 | the loop is the loop over the first `i` instances, then, unless that threw, the loop over the rest from the state it left |
| Substitution.RunFindsEveryUnit | src/index.ts:96-101 | with distinct units all present at the start, instance `i`'s unit is still in its parent at instance `i`'s turn, so `indexOf` finds it |
| Substitution.RunSubstitutesInTurn | src/index.ts:96-141 | with distinct units all present at the start, the loop is the loop over the instances before `i`, then instance `i`'s step on the slot holding its unit, then the loop over the rest |
| Substitution.FirstFailure | src/index.ts:128-141 | either every outcome succeeded or there is a first failing one |
| Findings.CollectGivesTwice | src/index.ts:33-73 | the walk over `<pre class="infographic"><code class="language-infographic">x</code></pre><p></p>` collects two instances, both with unit `pre` |
| Findings.OutcomesAreRendered | src/index.ts:81-94 | a renderer that always fails gives two failures for them |
| Findings.FirstStepRemovesPre | src/index.ts:121-126 | with a fallback that returns null, the first instance finds the `pre` at index 0 and removes it |
| Findings.AsWrittenSpliceRemovesSibling | src/index.ts:121-126 | as written, the second instance's removal deletes the unrelated sibling `p`, leaving the root with no children |
| Findings.GuardedLoopKeepsSibling | src/index.ts:121-126 | with the guard, the root keeps the sibling `p` |
| Findings.TransformKeepsSibling | src/index.ts:29-144 | the whole transform with the guard, on that tree, that renderer and that fallback, leaves the root with the `p` |
| Transformer.Pipeline | src/index.ts:29-144 | the whole transform (removal guarded): with nothing collected the tree comes back as it is and nothing is thrown; a fatal error needs a collected instance and no fallback |
| Transformer.RenderAll | src/index.ts:81-94 | one outcome per instance, outcome `i` being the render of instance `i`'s spec with the render options |
| Transformer.Transform | src/index.ts:29-144 | the transformer (removal guarded) leaves the document as `Pipeline` says and returns its fatal error |
| Transformer.NothingToRenderLeavesTree | src/index.ts:76-78 | with no renderable match reachable from the root, the tree comes back unchanged and nothing is thrown |
| Transformer.PipelineTouchesOnlyTargetParents | src/index.ts:29-144 | the transformer changes no node that is not the parent of a collected unit |
| Transformer.FatalExactlyWhenARenderFails | src/index.ts:81-141 | without a fallback the transformer throws iff the render of some collected spec fails |
| Transformer.PipelineAsWrittenWhenUnitsDistinct | src/index.ts:29-144 | on trees whose collected units are distinct, the transformer as written and the guarded one agree |
| Transformer.PipelineSubstitutesInTurn | src/index.ts:29-144 | on a tree whose collected units are distinct, every collected instance is substituted at its turn, in the slot its unit then holds, with its own render outcome |
| Transformer.OutcomeDependsOnlyOnOwnSpec | src/index.ts:81-94 | outcome `i` is the render of instance `i`'s spec and depends on nothing else in the worklist |
| Transformer.RenderAllSplits | src/index.ts:81-94 | rendering a worklist in two parts gives the outcomes in the same order as rendering it whole |
| Transformer.CollectAddressable | src/index.ts:99-101 | every collected instance has at least two ancestors, so `at(-1)` and `at(-2)` exist |

## Left out

- The renderer in `src/renderer.ts` and the `@antv/infographic/ssr` library
  behind it. A render is an abstract function from a spec and options to an
  outcome: the SVG markup, or the thrown value.
- The concurrency of `Promise.all`. Each outcome is computed from its own spec
  and kept at its instance's index. Completion order plays no part.
- `fromHtmlIsomorphic`. It is an abstract function from markup to the children of
  the parsed fragment. The code takes `children[0]` without a check, so an empty
  fragment puts `undefined` in the slot. The inserted node gets a new identity.
  Its own descendants are not added to the arena, because nothing walks them
  afterwards.
- `toText`. It is the concatenation of the values of the descendant text nodes,
  in document order. The line-break handling for `br` and block elements is not
  modelled.
- The VFile `file` argument. This covers `file.message`, the `file` passed to
  the fallback, and the unified `Plugin` plumbing. The fatal message is a record
  with the reason, ruleId, source, ancestors, fatal flag and URL.
- The message text format, including the doubled "Failed to render infographic:"
  prefix that comes from `src/renderer.ts`.
- Fallbacks that throw, and renderers or fallbacks with side effects on the
  tree. A renderer that throws is caught (src/index.ts:82-91) and is modelled as
  a `Failure` outcome; the fallback is a pure function of (node, spec, error).
- A fallback that returns a node already in the tree. The model gives every node
  put in a slot a new identity, so aliasing an existing node is not modelled.
- `parent.children[i] = x` with `i` past the end of the list cannot happen,
  because `indexOf` returns -1 or a valid position.
- `src/types.ts` holds only interface declarations. They are mirrored as
  datatypes. `vite.config.ts` and the tests are not part of this model.
- Substitution.Substitute: removes a node only when `indexOf` found it,
  where src/index.ts:126 calls `splice(nodeIndex, 1)` unguarded; on a tree
  where two instances share a unit and the fallback returns null, it keeps the
  sibling that the source removes (see "## Findings"). The loop as written is
  `Substitution.RunAsWritten`.
- Substitution.ApplyStep: the same guard, for one iteration; the body as
  written is `Substitution.StepAsWritten`.
- Substitution.Step and Substitution.Run: the same guard; they are the
  corrected definitions.
- Transformer.Transform and Transformer.Pipeline: `Transform` runs
  `Substitution.Substitute` and `Pipeline` runs `Substitution.Run`, so both
  keep the same guard; `Transformer.PipelineAsWrittenWhenUnitsDistinct` proves the guard
  changes nothing when the collected units are distinct.
- Trees are assumed numbered with every child's identity below its parent's
  (`Hast.Ordered`). This is a termination device, not a restriction the source
  makes.

## Findings

| source | as written | input that shows it | evidently intended | confidence | as-written member | corrected member |
|---|---|---|---|---|---|---|
| src/index.ts:102-126 | when the fallback returns null, `parent.children.splice(nodeIndex, 1)` runs even when `indexOf` returned -1, and that removes the parent's last child | `<pre class="infographic"><code class="language-infographic">x</code></pre><p></p>` with a renderer that fails and a fallback that returns null: both the `pre` and the promoted `code` are collected with unit `pre`; the first removal takes out the `pre`; the second `indexOf` returns -1 and `splice(-1, 1)` removes the `p` | remove a node only when it is still in its parent | not executed | Findings.AsWrittenSpliceRemovesSibling | Substitution.StepTakesOutOnlyTheUnit |

`Substitution.Step`, `Run`, `Substitute` and `Transformer.Transform` use the
corrected loop body. `Substitution.StepAsWritten` and `RunAsWritten` are the
loop as written. `Substitution.AsWrittenAgreesWithDistinctUnits` and
`Transformer.PipelineAsWrittenWhenUnitsDistinct` prove that the two differ only
when two instances share a unit. `Findings.GuardedLoopKeepsSibling` and
`Findings.TransformKeepsSibling` show the corrected loop keeping the `p` on the
input above.
