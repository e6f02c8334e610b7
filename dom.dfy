/**
 * The materialized document: an arena of nodes addressed by handle (index),
 * as produced by the HTML parser.
 */
module Dom {
  import opened Wrappers
  import opened Stats

  /** A node of the arena: an element with attributes and child handles, raw text, or a comment. */
  datatype Node =
    | Tag(name: string, attributes: seq<(string, Option<string>)>, children: seq<nat>)
    | Raw(text: string)
    | Comment(text: string)

  /** The child handles of a node; text and comment nodes have none. */
  function Children(n: Node): seq<nat> {
    if n.Tag? then n.children else []
  }

  /** Attribute pairs as the accumulator reads them: an attribute without a value reads as "". */
  function AttributePairs(attrs: seq<(string, Option<string>)>): (r: seq<(string, string)>)
    ensures |r| == |attrs|
  {
    if attrs == [] then []
    else AttributePairs(attrs[..|attrs| - 1]) + [(attrs[|attrs| - 1].0, attrs[|attrs| - 1].1.GetOr(""))]
  }

  /** Reading one more attribute extends the pairs by that attribute's pair. */
  lemma AttributePairsPrefix(attrs: seq<(string, Option<string>)>, i: nat)
    requires i < |attrs|
    ensures AttributePairs(attrs[..i + 1]) == AttributePairs(attrs[..i]) + [(attrs[i].0, attrs[i].1.GetOr(""))]
  {
    assert attrs[..i + 1][..i] == attrs[..i];
  }

  /** The element a tag node presents to the accumulator. */
  function ElementOf(n: Node): Element
    requires n.Tag?
  {
    Element(n.name, AttributePairs(n.attributes))
  }

  /**
   * An acyclic arena: every child handle resolves and is greater than its
   * parent's handle, which rules out cycles. A node may still be listed as
   * the child of several nodes (or as a root and a child); the walk then
   * yields it once per listing.
   */
  ghost predicate WellFormed(arena: seq<Node>) {
    forall i, j :: 0 <= i < |arena| && 0 <= j < |Children(arena[i])| ==> i < Children(arena[i])[j] < |arena|
  }
}
