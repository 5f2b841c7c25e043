/** `isInfographicElement`: decides from its tag and class list whether an element marks an infographic block. */
module Matcher {
  import opened Hast

  const CodeMarker := "language-infographic"
  const PreMarker := "infographic"

  /** True when the class list is an array holding `marker` as one exact entry. */
  predicate HasClass(cls: ClassName, marker: string) {
    cls.List? && marker in cls.entries
  }

  /**
   * A `code` element matches by the class `language-infographic`, a `pre`
   * element by the class `infographic`; nothing else matches. A node that is
   * not an element has no tag name and never matches.
   */
  function IsInfographicElement(n: Node): (r: bool)
    ensures r ==> n.Element? && (n.tagName == "code" || n.tagName == "pre")
    ensures n.Element? && n.tagName == "code" ==> (r <==> HasClass(n.className, CodeMarker))
    ensures n.Element? && n.tagName == "pre" ==> (r <==> HasClass(n.className, PreMarker))
  {
    if n.Element? && n.tagName == "code" && n.className.List? then
      CodeMarker in n.className.entries
    else if n.Element? && n.tagName == "pre" && n.className.List? then
      PreMarker in n.className.entries
    else
      false
  }

  /** A missing or non-array `className` never matches, whatever the tag. */
  lemma NonListNeverMatches(tag: string, cls: ClassName, kids: seq<Id>)
    requires !cls.List?
    ensures !IsInfographicElement(Element(tag, cls, kids))
  {
  }

  /** Tags other than `code` and `pre` never match, whatever their classes. */
  lemma OtherTagsNeverMatch(tag: string, cls: ClassName, kids: seq<Id>)
    requires tag != "code" && tag != "pre"
    ensures !IsInfographicElement(Element(tag, cls, kids))
  {
  }

  /**
   * The markers are tag-specific and compared as whole entries: `code` with
   * only `infographic`, `pre` with only `language-infographic`, and an entry
   * that merely starts with the marker do not match.
   */
  lemma MarkersAreExactAndTagSpecific(kids: seq<Id>)
    ensures !IsInfographicElement(Element("code", List(["infographic"]), kids))
    ensures !IsInfographicElement(Element("pre", List(["language-infographic"]), kids))
    ensures !IsInfographicElement(Element("code", List(["language-infographic-x"]), kids))
    ensures !IsInfographicElement(Element("pre", List(["infographic-other"]), kids))
    ensures IsInfographicElement(Element("code", List(["block", "language-infographic"]), kids))
  {
    assert ["block", "language-infographic"][1] == CodeMarker;
  }

  /** The decision reads only the tag name and the class list: children play no part. */
  lemma OnlyTagAndClassMatter(a: Node, b: Node)
    requires a.Element? && b.Element?
    requires a.tagName == b.tagName && a.className == b.className
    ensures IsInfographicElement(a) == IsInfographicElement(b)
  {
  }
}
