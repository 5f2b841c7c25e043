/**
 * Step 1 of the transformer: the pre-order walk over the elements of the
 * tree, and the visitor that turns each matching element into a
 * `CodeInstance` (its spec text and the inclusive ancestors whose last entry
 * is the node to replace).
 */
module Collector {
  import opened Wrappers
  import opened Hast
  import opened Matcher

  /** One call of the visitor: the element and its ancestors, root first. */
  datatype Visit = Visit(node: Id, ancestors: seq<Id>)

  /**
   * `CodeInstance`: the spec text and the inclusive ancestors. The last
   * ancestor is the unit of replacement, the one before it its parent.
   */
  datatype CodeInstance = CodeInstance(spec: string, ancestors: seq<Id>)

  function Unit(inst: CodeInstance): Id
    requires |inst.ancestors| >= 2
  {
    inst.ancestors[|inst.ancestors| - 1]
  }

  function TargetParent(inst: CodeInstance): Id
    requires |inst.ancestors| >= 2
  {
    inst.ancestors[|inst.ancestors| - 2]
  }

  /** Every entry of the path is a child of the entry before it. */
  predicate IsChain(nodes: map<Id, Node>, path: seq<Id>) {
    forall j :: 1 <= j < |path| ==> path[j] in Children(Lookup(nodes, path[j - 1]))
  }

  /**
   * The calls `visitParents(tree, 'element', visitor)` makes, in order:
   * pre-order, children left to right, one call per element (the root and
   * text nodes are walked through but not visited).
   */
  function Visits(nodes: map<Id, Node>, id: Id, ancestors: seq<Id>): seq<Visit>
    requires Ordered(nodes)
    decreases id, 1, 0
  {
    if id !in nodes then []
    else
      (if nodes[id].Element? then [Visit(id, ancestors)] else [])
      + VisitsAll(nodes, Children(nodes[id]), ancestors + [id], id)
  }

  function VisitsAll(nodes: map<Id, Node>, kids: seq<Id>, ancestors: seq<Id>, bound: Id): seq<Visit>
    requires Ordered(nodes)
    requires forall k :: 0 <= k < |kids| ==> kids[k] < bound
    decreases bound, 0, |kids|
  {
    if kids == [] then []
    else Visits(nodes, kids[0], ancestors) + VisitsAll(nodes, kids[1..], ancestors, bound)
  }

  /** A child of the `pre` is acceptable beside the match: whitespace-only text, or the match itself. */
  predicate ChildAllowed(nodes: map<Id, Node>, child: Id, node: Id) {
    var c := Lookup(nodes, child);
    if c.Text? then Blank(c.value) else child == node
  }

  /** The match is the only meaningful child of the `pre`. */
  predicate SoleMeaningfulChild(nodes: map<Id, Node>, kids: seq<Id>, node: Id) {
    forall i :: 0 <= i < |kids| ==> ChildAllowed(nodes, kids[i], node)
  }

  /** `parent?.type === 'element' && parent.tagName === 'pre'` for the visited element's parent. */
  predicate ParentIsPre(nodes: map<Id, Node>, v: Visit) {
    |v.ancestors| > 0 && IsPre(Lookup(nodes, v.ancestors[|v.ancestors| - 1]))
  }

  /** The parent's children, as seen by the scan for other meaningful children. */
  function ParentChildren(nodes: map<Id, Node>, v: Visit): seq<Id>
    requires |v.ancestors| > 0
  {
    Children(Lookup(nodes, v.ancestors[|v.ancestors| - 1]))
  }

  /** What the visitor pushes for one call: nothing, or one instance. */
  function VisitResult(nodes: map<Id, Node>, v: Visit): Option<CodeInstance>
    requires Ordered(nodes)
  {
    if !IsInfographicElement(Lookup(nodes, v.node)) then None
    else if ParentIsPre(nodes, v) && !SoleMeaningfulChild(nodes, ParentChildren(nodes, v), v.node) then None
    else if Blank(TextOf(nodes, v.node)) then None
    else Some(CodeInstance(
                TextOf(nodes, v.node),
                if ParentIsPre(nodes, v) then v.ancestors else v.ancestors + [v.node]))
  }

  /** The `instances` array after the visitor has run on each of `vs`, in order. */
  function CollectVisits(nodes: map<Id, Node>, vs: seq<Visit>): seq<CodeInstance>
    requires Ordered(nodes)
    decreases |vs|
  {
    if vs == [] then []
    else
      CollectVisits(nodes, vs[..|vs| - 1])
      + (match VisitResult(nodes, vs[|vs| - 1]) case Some(inst) => [inst] case None => [])
  }

  /** The instances collected from the tree rooted at `root`. */
  function Collect(nodes: map<Id, Node>, root: Id): seq<CodeInstance>
    requires Ordered(nodes)
  {
    CollectVisits(nodes, Visits(nodes, root, []))
  }

  /**
   * The scan of the `pre`'s children: any text child that is not blank, or
   * any other child that is not the match, ends the visit without a push.
   */
  method ScanPreChildren(nodes: map<Id, Node>, kids: seq<Id>, node: Id) returns (sole: bool)
    ensures sole == SoleMeaningfulChild(nodes, kids, node)
  {
    for i := 0 to |kids|
      invariant forall j :: 0 <= j < i ==> ChildAllowed(nodes, kids[j], node)
    {
      var child := Lookup(nodes, kids[i]);
      if child.Text? {
        if !Blank(child.value) {
          return false;
        }
      } else if kids[i] != node {
        return false;
      }
    }
    return true;
  }

  /** The walk with its visitor: each visit pushes at most one instance onto `instances`. */
  method CollectInstances(nodes: map<Id, Node>, root: Id) returns (instances: seq<CodeInstance>)
    requires Ordered(nodes)
    ensures instances == Collect(nodes, root)
  {
    var visits := Visits(nodes, root, []);
    instances := [];
    for k := 0 to |visits|
      invariant instances == CollectVisits(nodes, visits[..k])
    {
      var v := visits[k];
      assert visits[..k + 1][..k] == visits[..k];
      if IsInfographicElement(Lookup(nodes, v.node)) {
        var keep := true;
        var inclusive := v.ancestors;
        if ParentIsPre(nodes, v) {
          keep := ScanPreChildren(nodes, ParentChildren(nodes, v), v.node);
        } else {
          inclusive := inclusive + [v.node];
        }
        if keep {
          var spec := TextOf(nodes, v.node);
          if !Blank(spec) {
            instances := instances + [CodeInstance(spec, inclusive)];
          }
        }
      }
    }
    assert visits[..|visits|] == visits;
  }

  lemma {:induction false} CollectVisitsAppend(nodes: map<Id, Node>, a: seq<Visit>, b: seq<Visit>)
    requires Ordered(nodes)
    ensures CollectVisits(nodes, a + b) == CollectVisits(nodes, a) + CollectVisits(nodes, b)
    decreases |b|
  {
    if b == [] {
      assert a + b == a;
    } else {
      var b' := b[..|b| - 1];
      assert (a + b)[..|a + b| - 1] == a + b';
      assert (a + b)[|a + b| - 1] == b[|b| - 1];
      CollectVisitsAppend(nodes, a, b');
    }
  }

  /**
   * The visitor pushes an instance exactly for a match whose text is not
   * blank and which, under a `pre`, is that `pre`'s only meaningful child.
   * The spec is the match's text; the unit is the `pre` parent when there is
   * one, otherwise the match itself.
   */
  lemma VisitorPushes(nodes: map<Id, Node>, v: Visit)
    requires Ordered(nodes)
    ensures VisitResult(nodes, v).Some? <==>
              && IsInfographicElement(Lookup(nodes, v.node))
              && (ParentIsPre(nodes, v) ==> SoleMeaningfulChild(nodes, ParentChildren(nodes, v), v.node))
              && !Blank(TextOf(nodes, v.node))
    ensures VisitResult(nodes, v).Some? ==> VisitResult(nodes, v).value.spec == TextOf(nodes, v.node)
    ensures VisitResult(nodes, v).Some? && ParentIsPre(nodes, v) ==> VisitResult(nodes, v).value.ancestors == v.ancestors
    ensures VisitResult(nodes, v).Some? && !ParentIsPre(nodes, v) ==>
              VisitResult(nodes, v).value.ancestors == v.ancestors + [v.node]
  {
  }

  /**
   * Every visit whose visitor pushes an instance puts that instance into the
   * result, after the instances of the earlier visits and before those of
   * the later ones.
   */
  lemma CollectVisitsComplete(nodes: map<Id, Node>, vs: seq<Visit>, i: nat)
    requires Ordered(nodes) && i < |vs| && VisitResult(nodes, vs[i]).Some?
    ensures CollectVisits(nodes, vs)
            == CollectVisits(nodes, vs[..i]) + [VisitResult(nodes, vs[i]).value] + CollectVisits(nodes, vs[i + 1..])
  {
    assert vs == vs[..i] + [vs[i]] + vs[i + 1..];
    CollectVisitsAppend(nodes, vs[..i] + [vs[i]], vs[i + 1..]);
    CollectVisitsAppend(nodes, vs[..i], [vs[i]]);
    assert [vs[i]][..0] == [];
  }

  /**
   * Every element the walk visits and the visitor accepts yields an instance
   * of `Collect`, in visit order.
   */
  lemma CollectComplete(nodes: map<Id, Node>, root: Id, i: nat)
    requires Ordered(nodes)
    requires i < |Visits(nodes, root, [])| && VisitResult(nodes, Visits(nodes, root, [])[i]).Some?
    ensures var vs := Visits(nodes, root, []);
            Collect(nodes, root)
            == CollectVisits(nodes, vs[..i]) + [VisitResult(nodes, vs[i]).value] + CollectVisits(nodes, vs[i + 1..])
    ensures VisitResult(nodes, Visits(nodes, root, [])[i]).value in Collect(nodes, root)
  {
    CollectVisitsComplete(nodes, Visits(nodes, root, []), i);
  }

  /** What every visit of the walk satisfies, relative to the ancestors the walk started from. */
  predicate VisitOk(nodes: map<Id, Node>, anc: seq<Id>, v: Visit) {
    && v.node in nodes && nodes[v.node].Element?
    && |anc| <= |v.ancestors| && v.ancestors[..|anc|] == anc
    && IsChain(nodes, v.ancestors + [v.node])
  }

  lemma ChainExtend(nodes: map<Id, Node>, path: seq<Id>, id: Id)
    requires IsChain(nodes, path) && |path| > 0
    requires id in Children(Lookup(nodes, path[|path| - 1]))
    ensures IsChain(nodes, path + [id])
  {
  }

  lemma {:induction false} VisitsShape(nodes: map<Id, Node>, id: Id, anc: seq<Id>)
    requires Ordered(nodes)
    requires IsChain(nodes, anc + [id])
    ensures forall v :: v in Visits(nodes, id, anc) ==> VisitOk(nodes, anc, v)
    decreases id, 1, 0
  {
    if id in nodes {
      var anc' := anc + [id];
      assert forall k :: 0 <= k < |Children(nodes[id])| ==> Children(nodes[id])[k] < id;
      VisitsAllShape(nodes, Children(nodes[id]), anc', id);
      forall v | v in Visits(nodes, id, anc) ensures VisitOk(nodes, anc, v) {
        if v !in VisitsAll(nodes, Children(nodes[id]), anc', id) {
          assert v == Visit(id, anc);
        } else {
          assert VisitOk(nodes, anc', v);
          assert v.ancestors[..|anc|] == v.ancestors[..|anc'|][..|anc|];
        }
      }
    }
  }

  lemma {:induction false} VisitsAllShape(nodes: map<Id, Node>, kids: seq<Id>, anc: seq<Id>, bound: Id)
    requires Ordered(nodes)
    requires forall k :: 0 <= k < |kids| ==> kids[k] < bound
    requires |anc| > 0 && IsChain(nodes, anc)
    requires forall k :: 0 <= k < |kids| ==> kids[k] in Children(Lookup(nodes, anc[|anc| - 1]))
    ensures forall v :: v in VisitsAll(nodes, kids, anc, bound) ==> VisitOk(nodes, anc, v)
    decreases bound, 0, |kids|
  {
    if kids != [] {
      ChainExtend(nodes, anc, kids[0]);
      VisitsShape(nodes, kids[0], anc);
      VisitsAllShape(nodes, kids[1..], anc, bound);
    }
  }

  /**
   * What every collected instance satisfies: a non-blank spec; an ancestor
   * chain from the root down to the unit of replacement; and either the unit
   * is a `pre` holding the match as its only meaningful child (promotion,
   * the spec being the match's text), or the unit is the match itself under
   * a parent that is not a `pre`.
   */
  predicate InstanceOk(nodes: map<Id, Node>, root: Id, inst: CodeInstance)
    requires Ordered(nodes)
  {
    && !Blank(inst.spec)
    && |inst.ancestors| >= 2 && inst.ancestors[0] == root
    && IsChain(nodes, inst.ancestors)
    && Unit(inst) in Children(Lookup(nodes, TargetParent(inst)))
    && ( (IsPre(Lookup(nodes, Unit(inst)))
          && exists m :: m in Children(Lookup(nodes, Unit(inst)))
                         && IsInfographicElement(Lookup(nodes, m)) && inst.spec == TextOf(nodes, m)
                         && SoleMeaningfulChild(nodes, Children(Lookup(nodes, Unit(inst))), m))
      || (IsInfographicElement(Lookup(nodes, Unit(inst))) && inst.spec == TextOf(nodes, Unit(inst))
          && !IsPre(Lookup(nodes, TargetParent(inst)))))
  }

  lemma {:induction false} CollectVisitsShape(nodes: map<Id, Node>, root: Id, vs: seq<Visit>)
    requires Ordered(nodes) && root in nodes && nodes[root].Root?
    requires forall v :: v in vs ==> VisitOk(nodes, [], v) && |v.ancestors| > 0 && v.ancestors[0] == root
    ensures forall inst :: inst in CollectVisits(nodes, vs) ==> InstanceOk(nodes, root, inst)
    decreases |vs|
  {
    if vs != [] {
      var vs' := vs[..|vs| - 1];
      assert forall v :: v in vs' ==> v in vs;
      CollectVisitsShape(nodes, root, vs');
      var v := vs[|vs| - 1];
      assert v in vs;
      match VisitResult(nodes, v)
      case None =>
      case Some(inst) =>
        var path := v.ancestors + [v.node];
        assert IsChain(nodes, path);
        if ParentIsPre(nodes, v) {
          assert inst.ancestors == v.ancestors;
          var n := |v.ancestors|;
          assert v.ancestors[n - 1] != root;
          assert path[n] == v.node && path[n - 1] == v.ancestors[n - 1];
          assert v.node in Children(Lookup(nodes, v.ancestors[n - 1]));
          assert IsChain(nodes, v.ancestors) by {
            forall j | 1 <= j < n ensures v.ancestors[j] in Children(Lookup(nodes, v.ancestors[j - 1])) {
              assert path[j] == v.ancestors[j] && path[j - 1] == v.ancestors[j - 1];
            }
          }
          assert v.ancestors[n - 1] in Children(Lookup(nodes, v.ancestors[n - 2])) by {
            assert path[n - 1] == v.ancestors[n - 1] && path[n - 2] == v.ancestors[n - 2];
          }
        } else {
          assert inst.ancestors == path;
          var n := |path|;
          assert path[n - 1] in Children(Lookup(nodes, path[n - 2]));
        }
        assert InstanceOk(nodes, root, inst);
    }
  }

  /** Every instance of `Collect` satisfies `InstanceOk`. */
  lemma CollectShape(nodes: map<Id, Node>, root: Id)
    requires Ordered(nodes) && root in nodes && nodes[root].Root?
    ensures forall inst :: inst in Collect(nodes, root) ==> InstanceOk(nodes, root, inst)
  {
    assert IsChain(nodes, [] + [root]);
    VisitsShape(nodes, root, []);
    var vs := Visits(nodes, root, []);
    assert forall k :: 0 <= k < |Children(nodes[root])| ==> Children(nodes[root])[k] < root;
    assert [] + [root] == [root];
    assert vs == VisitsAll(nodes, Children(nodes[root]), [root], root);
    VisitsAllShape(nodes, Children(nodes[root]), [root], root);
    forall v | v in vs ensures |v.ancestors| > 0 && v.ancestors[0] == root {
      assert VisitOk(nodes, [root], v);
      assert v.ancestors[..1] == [root];
    }
    CollectVisitsShape(nodes, root, vs);
  }

  /** The element `id` lies on a parent-to-child path from `root`. */
  ghost predicate Reachable(nodes: map<Id, Node>, root: Id, id: Id) {
    exists path :: IsChain(nodes, path) && |path| > 0 && path[0] == root && path[|path| - 1] == id
  }

  /** Every instance stems from a matching element, reachable from the root, whose text is not blank. */
  lemma InstanceHasRenderableMatch(nodes: map<Id, Node>, root: Id, inst: CodeInstance)
    requires Ordered(nodes) && InstanceOk(nodes, root, inst)
    ensures exists m :: Reachable(nodes, root, m) && m in nodes && IsInfographicElement(nodes[m]) && !Blank(TextOf(nodes, m))
  {
    var path := inst.ancestors;
    if !(IsInfographicElement(Lookup(nodes, Unit(inst))) && inst.spec == TextOf(nodes, Unit(inst))) {
      var m :| m in Children(Lookup(nodes, Unit(inst)))
               && IsInfographicElement(Lookup(nodes, m)) && inst.spec == TextOf(nodes, m);
      ChainExtend(nodes, path, m);
      var path' := path + [m];
      assert path'[0] == root && path'[|path'| - 1] == m;
      assert Reachable(nodes, root, m);
      assert m in nodes;
    } else {
      assert path[0] == root && path[|path| - 1] == Unit(inst);
      assert Reachable(nodes, root, Unit(inst));
      assert Unit(inst) in nodes;
    }
  }

  /**
   * When every matching element reachable from the root has a blank text
   * (in particular when no element matches at all), nothing is collected.
   */
  lemma NothingToRender(nodes: map<Id, Node>, root: Id)
    requires Ordered(nodes) && root in nodes && nodes[root].Root?
    requires forall id :: Reachable(nodes, root, id) && id in nodes && IsInfographicElement(nodes[id]) ==> Blank(TextOf(nodes, id))
    ensures Collect(nodes, root) == []
  {
    CollectShape(nodes, root);
    forall inst | inst in Collect(nodes, root)
      ensures exists m :: Reachable(nodes, root, m) && m in nodes && IsInfographicElement(nodes[m]) && !Blank(TextOf(nodes, m))
    {
      InstanceHasRenderableMatch(nodes, root, inst);
    }
    var c := Collect(nodes, root);
    NoMemberMeansEmpty(c);
  }

  lemma NoMemberMeansEmpty<T>(s: seq<T>)
    ensures s == [] <==> forall x :: x !in s
  {
    if s != [] {
      assert s[0] in s;
    }
  }

  /**
   * A match whose parent is a `pre` holding a non-blank text child or another
   * non-text child besides the match is not collected.
   */
  lemma MixedPreNotCollected(nodes: map<Id, Node>, v: Visit, i: nat)
    requires Ordered(nodes)
    requires ParentIsPre(nodes, v) && i < |ParentChildren(nodes, v)|
    requires !ChildAllowed(nodes, ParentChildren(nodes, v)[i], v.node)
    ensures VisitResult(nodes, v) == None
  {
  }

  lemma {:induction false} BlankConcat(a: string, b: string)
    ensures Blank(a + b) <==> Blank(a) && Blank(b)
  {
    if !Blank(a) {
      var i :| 0 <= i < |a| && !IsWhitespace(a[i]);
      assert (a + b)[i] == a[i];
    }
    if !Blank(b) {
      var i :| 0 <= i < |b| && !IsWhitespace(b[i]);
      assert (a + b)[|a| + i] == b[i];
    }
  }

  /** The text of a parent is not blank when the text of one of its children is not. */
  lemma {:induction false} TextOfAllNotBlank(nodes: map<Id, Node>, kids: seq<Id>, bound: Id, k: nat)
    requires Ordered(nodes)
    requires forall j :: 0 <= j < |kids| ==> kids[j] < bound
    requires k < |kids| && !Blank(TextOf(nodes, kids[k]))
    ensures !Blank(TextOfAll(nodes, kids, bound))
    decreases k
  {
    BlankConcat(TextOf(nodes, kids[0]), TextOfAll(nodes, kids[1..], bound));
    if k > 0 {
      TextOfAllNotBlank(nodes, kids[1..], bound, k - 1);
    }
  }

  /**
   * A `pre.infographic` whose only meaningful child is a
   * `code.language-infographic` is collected twice with the same unit of
   * replacement: once for its own class, and once more when the `code` is
   * promoted to it. The `code` is visited inside the `pre`'s walk.
   */
  lemma MarkedPreAndCodeShareUnit(nodes: map<Id, Node>, pre: Id, code: Id, anc: seq<Id>)
    requires Ordered(nodes)
    requires pre in nodes && IsPre(nodes[pre]) && IsInfographicElement(nodes[pre])
    requires code in Children(nodes[pre]) && IsInfographicElement(Lookup(nodes, code))
    requires SoleMeaningfulChild(nodes, Children(nodes[pre]), code)
    requires !Blank(TextOf(nodes, code))
    requires |anc| > 0 && !IsPre(Lookup(nodes, anc[|anc| - 1]))
    ensures Visit(pre, anc) in Visits(nodes, pre, anc)
    ensures Visit(code, anc + [pre]) in Visits(nodes, pre, anc)
    ensures VisitResult(nodes, Visit(pre, anc)).Some?
    ensures VisitResult(nodes, Visit(code, anc + [pre])).Some?
    ensures VisitResult(nodes, Visit(pre, anc)).value.ancestors
            == VisitResult(nodes, Visit(code, anc + [pre])).value.ancestors
            == anc + [pre]
  {
    var kids := Children(nodes[pre]);
    var k :| 0 <= k < |kids| && kids[k] == code;
    assert forall j :: 0 <= j < |kids| ==> kids[j] < pre;
    TextOfAllNotBlank(nodes, kids, pre, k);
    VisitsAllContains(nodes, kids, anc + [pre], pre, k);
    assert code in nodes;
  }

  lemma {:induction false} VisitsAllContains(nodes: map<Id, Node>, kids: seq<Id>, anc: seq<Id>, bound: Id, k: nat)
    requires Ordered(nodes)
    requires forall j :: 0 <= j < |kids| ==> kids[j] < bound
    requires k < |kids| && kids[k] in nodes && nodes[kids[k]].Element?
    ensures Visit(kids[k], anc) in VisitsAll(nodes, kids, anc, bound)
    decreases k
  {
    if k > 0 {
      VisitsAllContains(nodes, kids[1..], anc, bound, k - 1);
    }
  }

  /** A visit made inside the subtree of child `k` is a visit of the whole child list. */
  lemma {:induction false} VisitsAllIncludes(nodes: map<Id, Node>, kids: seq<Id>, anc: seq<Id>, bound: Id, k: nat, v: Visit)
    requires Ordered(nodes)
    requires forall j :: 0 <= j < |kids| ==> kids[j] < bound
    requires k < |kids| && v in Visits(nodes, kids[k], anc)
    ensures v in VisitsAll(nodes, kids, anc, bound)
    decreases k
  {
    if k > 0 {
      VisitsAllIncludes(nodes, kids[1..], anc, bound, k - 1, v);
    }
  }

  /**
   * Every element reached from `path[0]` along a parent-to-child chain is
   * visited, with the chain above it (after the starting ancestors) as its
   * ancestors.
   */
  lemma {:induction false} ReachableIsVisited(nodes: map<Id, Node>, path: seq<Id>, anc: seq<Id>)
    requires Ordered(nodes)
    requires |path| > 0 && IsChain(nodes, path)
    requires path[|path| - 1] in nodes && nodes[path[|path| - 1]].Element?
    ensures Visit(path[|path| - 1], anc + path[..|path| - 1]) in Visits(nodes, path[0], anc)
    decreases |path|
  {
    if |path| == 1 {
      assert path[..0] == [] && anc + [] == anc;
    } else {
      var id := path[0];
      var rest := path[1..];
      assert path[1] in Children(Lookup(nodes, id));
      assert id in nodes;
      var kids := Children(nodes[id]);
      assert forall j :: 0 <= j < |kids| ==> kids[j] < id;
      var k :| 0 <= k < |kids| && kids[k] == rest[0];
      assert IsChain(nodes, rest) by {
        forall j | 1 <= j < |rest| ensures rest[j] in Children(Lookup(nodes, rest[j - 1])) {
          assert rest[j] == path[j + 1] && rest[j - 1] == path[j];
        }
      }
      ReachableIsVisited(nodes, rest, anc + [id]);
      assert rest[|rest| - 1] == path[|path| - 1];
      assert anc + [id] + rest[..|rest| - 1] == anc + path[..|path| - 1];
      VisitsAllIncludes(nodes, kids, anc + [id], id, k,
                        Visit(path[|path| - 1], anc + path[..|path| - 1]));
    }
  }

  /**
   * Every element of the tree reachable from the root whose visit the
   * visitor accepts is collected.
   */
  lemma ReachableMatchCollected(nodes: map<Id, Node>, path: seq<Id>)
    requires Ordered(nodes)
    requires |path| > 0 && IsChain(nodes, path)
    requires path[|path| - 1] in nodes && nodes[path[|path| - 1]].Element?
    requires VisitResult(nodes, Visit(path[|path| - 1], path[..|path| - 1])).Some?
    ensures VisitResult(nodes, Visit(path[|path| - 1], path[..|path| - 1])).value in Collect(nodes, path[0])
  {
    ReachableIsVisited(nodes, path, []);
    assert [] + path[..|path| - 1] == path[..|path| - 1];
    var vs := Visits(nodes, path[0], []);
    var i :| 0 <= i < |vs| && vs[i] == Visit(path[|path| - 1], path[..|path| - 1]);
    CollectComplete(nodes, path[0], i);
  }
}
