/** The Option wrapper used throughout the model. */
module Wrappers {
  datatype Option<+T> = None | Some(value: T)
}

/**
 * The part of the HAST document tree that the transform reads and writes.
 *
 * Nodes live in an arena `map<Id, Node>` and a parent holds the identities of
 * its children, so that "the current index of this exact node within its
 * parent" (JavaScript's `indexOf` on object identity) can be stated directly.
 */
module Hast {
  /** Identity of a node object. */
  type Id = nat

  /** `properties.className`: absent, some non-array value, or an array of class names. */
  datatype ClassName =
    | Missing
    | Scalar(value: string)
    | List(entries: seq<string>)

  /**
   * A HAST node. `Undefined` stands for the JavaScript value `undefined`,
   * which ends up in a child list when a parsed fragment has no first child.
   */
  datatype Node =
    | Root(children: seq<Id>)
    | Element(tagName: string, className: ClassName, children: seq<Id>)
    | Text(value: string)
    | Comment(value: string)
    | Undefined

  /** The node an identity denotes; a dangling identity reads as `undefined`. */
  function Lookup(nodes: map<Id, Node>, id: Id): Node {
    if id in nodes then nodes[id] else Undefined
  }

  /** The children of a parent node; nodes that are not parents have none. */
  function Children(n: Node): seq<Id> {
    if n.Root? || n.Element? then n.children else []
  }

  /** The same parent node with its child list replaced. */
  function WithChildren(n: Node, kids: seq<Id>): (r: Node)
    ensures (n.Root? || n.Element?) ==> Children(r) == kids
    ensures r.Root? == n.Root? && r.Element? == n.Element?
    ensures n.Element? ==> r.tagName == n.tagName && r.className == n.className
  {
    match n
    case Root(_) => Root(kids)
    case Element(tag, cls, _) => Element(tag, cls, kids)
    case _ => n
  }

  predicate IsPre(n: Node) {
    n.Element? && n.tagName == "pre"
  }

  /**
   * The arena is numbered so that every child's identity is smaller than its
   * parent's. Every finite tree can be numbered this way; the walks below use
   * it as their termination measure.
   */
  predicate Ordered(nodes: map<Id, Node>) {
    forall p, i :: p in nodes && 0 <= i < |Children(nodes[p])| ==> Children(nodes[p])[i] < p
  }

  /** The characters that ECMAScript's `String.prototype.trim` removes. */
  predicate IsWhitespace(c: char) {
    var u := c as int;
    u == 0x09 || u == 0x0A || u == 0x0B || u == 0x0C || u == 0x0D || u == 0x20
    || u == 0xA0 || u == 0x1680 || (0x2000 <= u <= 0x200A) || u == 0x2028 || u == 0x2029
    || u == 0x202F || u == 0x205F || u == 0x3000 || u == 0xFEFF
  }

  /** `s.trim().length === 0`. */
  predicate Blank(s: string) {
    forall i :: 0 <= i < |s| ==> IsWhitespace(s[i])
  }

  /** The children of a parent are all numbered below it. */
  predicate Below(kids: seq<Id>, bound: Id) {
    forall j :: 0 <= j < |kids| ==> kids[j] < bound
  }

  /**
   * `toText(node, {whitespace: 'pre'})`: the concatenation of the text of
   * every descendant text node, in document order, nothing collapsed.
   */
  function TextOf(nodes: map<Id, Node>, id: Id): string
    requires Ordered(nodes)
    decreases id, 1, 0
  {
    if id !in nodes then ""
    else if nodes[id].Text? then nodes[id].value
    else TextOfAll(nodes, Children(nodes[id]), id)
  }

  function TextOfAll(nodes: map<Id, Node>, kids: seq<Id>, bound: Id): string
    requires Ordered(nodes) && Below(kids, bound)
    decreases bound, 0, |kids|
  {
    if kids == [] then "" else TextOf(nodes, kids[0]) + TextOfAll(nodes, kids[1..], bound)
  }

  lemma BelowAppend(a: seq<Id>, b: seq<Id>, bound: Id)
    requires Below(a, bound) && Below(b, bound)
    ensures Below(a + b, bound) && (a != [] ==> Below(a[1..], bound) && (a + b)[1..] == a[1..] + b)
  {
    var c := a + b;
    forall j | 0 <= j < |c| ensures c[j] < bound {
      if j < |a| { assert c[j] == a[j]; } else { assert c[j] == b[j - |a|]; }
    }
    if a != [] {
      forall j | 0 <= j < |a| - 1 ensures a[1..][j] < bound { assert a[1..][j] == a[j + 1]; }
    }
  }

  /** The text of two consecutive runs of children is the text of the first, then of the second. */
  lemma {:induction false} TextOfAllAppend(nodes: map<Id, Node>, a: seq<Id>, b: seq<Id>, bound: Id)
    requires Ordered(nodes) && Below(a, bound) && Below(b, bound)
    ensures Below(a + b, bound)
    ensures TextOfAll(nodes, a + b, bound) == TextOfAll(nodes, a, bound) + TextOfAll(nodes, b, bound)
    decreases |a|
  {
    BelowAppend(a, b, bound);
    if a == [] {
      assert a + b == b;
    } else {
      var head, a' := a[0], a[1..];
      assert (a + b)[0] == head;
      TextOfAllAppend(nodes, a', b, bound);
      var x, y, z := TextOf(nodes, head), TextOfAll(nodes, a', bound), TextOfAll(nodes, b, bound);
      assert TextOfAll(nodes, a + b, bound) == x + TextOfAll(nodes, a' + b, bound);
      ConcatAssoc(x, y, z);
    }
  }

  lemma ConcatAssoc(x: string, y: string, z: string)
    ensures x + (y + z) == (x + y) + z
  {
  }

  /**
   * The text of a child list is the text before child `k`, the text of child
   * `k`, and the text after it: every descendant's text appears at its
   * position in document order.
   */
  lemma TextOfAllSplit(nodes: map<Id, Node>, kids: seq<Id>, bound: Id, k: nat)
    requires Ordered(nodes)
    requires forall j :: 0 <= j < |kids| ==> kids[j] < bound
    requires k < |kids|
    ensures TextOfAll(nodes, kids, bound)
            == TextOfAll(nodes, kids[..k], bound) + TextOf(nodes, kids[k]) + TextOfAll(nodes, kids[k + 1..], bound)
  {
    assert kids == kids[..k] + kids[k..];
    assert Below(kids[..k], bound) && Below(kids[k..], bound) by {
      forall j | 0 <= j < k ensures kids[..k][j] < bound { assert kids[..k][j] == kids[j]; }
      forall j | 0 <= j < |kids| - k ensures kids[k..][j] < bound { assert kids[k..][j] == kids[k + j]; }
    }
    TextOfAllAppend(nodes, kids[..k], kids[k..], bound);
    assert kids[k..][0] == kids[k] && kids[k..][1..] == kids[k + 1..];
  }
}
