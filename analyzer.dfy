/**
 * The tree-mode statistics accumulator: `visit(node, depth)` for every node
 * the walker yields.
 */
module Analyzer {
  import opened Wrappers
  import opened Stats
  import opened Dom

  /** What one `visit(node, depth)` does to a result. */
  function VisitResult(res: AnalysisResult, node: Node, depth: nat, limit: nat): (r: AnalysisResult)
    ensures r.maxDepth >= depth && r.maxDepth >= res.maxDepth
    ensures r.maxDepth == depth || r.maxDepth == res.maxDepth
    ensures r.filesAnalyzed == res.filesAnalyzed
    ensures !node.Tag? ==> r.tags == res.tags
  {
    res.(maxDepth := if depth > res.maxDepth then depth else res.maxDepth,
         tags := if node.Tag? then RecordElement(res.tags, ElementOf(node), limit) else res.tags)
  }

  /** The result after visiting `visits`, in order, starting from `res`. */
  function VisitAll(res: AnalysisResult, visits: seq<(Node, nat)>, limit: nat): AnalysisResult
  {
    if visits == [] then res
    else VisitResult(VisitAll(res, visits[..|visits| - 1], limit), visits[|visits| - 1].0, visits[|visits| - 1].1, limit)
  }

  /** The elements among the visited nodes, in order; text and comment nodes are skipped. */
  function ElementsOf(visits: seq<(Node, nat)>): seq<Element>
  {
    if visits == [] then []
    else
      var last := visits[|visits| - 1].0;
      ElementsOf(visits[..|visits| - 1]) + (if last.Tag? then [ElementOf(last)] else [])
  }

  /** The largest depth among the visits, 0 when there are none. */
  function MaxDepthOf(visits: seq<(Node, nat)>): (m: nat)
    ensures forall i :: 0 <= i < |visits| ==> visits[i].1 <= m
    ensures visits != [] ==> exists i :: 0 <= i < |visits| && visits[i].1 == m
  {
    if visits == [] then 0
    else
      var m := MaxDepthOf(visits[..|visits| - 1]);
      var d := visits[|visits| - 1].1;
      assert forall i :: 0 <= i < |visits| - 1 ==> visits[..|visits| - 1][i] == visits[i];
      if d > m then d else m
  }

  /**
   * Visiting a sequence of nodes records exactly its elements, in order,
   * raises the maximum depth to the deepest visit and keeps the file count.
   */
  lemma {:induction false} VisitAllIsRecordAll(res: AnalysisResult, visits: seq<(Node, nat)>, limit: nat)
    ensures VisitAll(res, visits, limit).tags == RecordAll(res.tags, ElementsOf(visits), limit)
    ensures VisitAll(res, visits, limit).maxDepth == if res.maxDepth > MaxDepthOf(visits) then res.maxDepth else MaxDepthOf(visits)
    ensures VisitAll(res, visits, limit).filesAnalyzed == res.filesAnalyzed
  {
    if visits != [] {
      var p, last := visits[..|visits| - 1], visits[|visits| - 1];
      VisitAllIsRecordAll(res, p, limit);
      if last.0.Tag? {
        var es := ElementsOf(p) + [ElementOf(last.0)];
        assert es[..|es| - 1] == ElementsOf(p);
      } else {
        assert ElementsOf(visits) == ElementsOf(p);
      }
    }
  }

  /** Visiting keeps `Consistent` and never removes a key or lowers a count. */
  lemma VisitSound(res: AnalysisResult, node: Node, depth: nat, limit: nat)
    requires Consistent(res.tags, limit)
    ensures Consistent(VisitResult(res, node, depth, limit).tags, limit)
    ensures Extends(res.tags, VisitResult(res, node, depth, limit).tags)
  {
    if node.Tag? {
      RecordElementConsistent(res.tags, ElementOf(node), limit);
      RecordElementExtends(res.tags, ElementOf(node), limit);
    }
  }

  /** Records the attributes of one tag node, in order, into its tag stats `t`. */
  method TallyAttributes(t: TagStats, attrs: seq<(string, Option<string>)>, limit: nat) returns (r: TagStats)
    ensures r == RecordAttributes(t, AttributePairs(attrs), limit)
  {
    r := t;
    var i := 0;
    while i < |attrs|
      invariant 0 <= i <= |attrs|
      invariant r == RecordAttributes(t, AttributePairs(attrs[..i]), limit)
    {
      var key := attrs[i].0;
      var value := attrs[i].1.GetOr("");
      AttributePairsPrefix(attrs, i);
      RecordAttributesSnoc(t, AttributePairs(attrs[..i]), key, value, limit);
      r := TallyAttribute(r, key, value, limit);
      i := i + 1;
    }
    assert attrs[..i] == attrs;
  }

  /** The accumulator of tree mode, updated in place by `Visit`. */
  class StatsAnalyzer {
    var result: AnalysisResult
    const topValuesLimit: nat

    /** A fresh analyzer: no tags, depth 0, one file. */
    constructor (topValuesLimit: nat)
      ensures this.topValuesLimit == topValuesLimit
      ensures result == Fresh()
    {
      this.topValuesLimit := topValuesLimit;
      result := Fresh();
    }

    /** Records one node at `depth`; always asks the caller to continue. */
    method Visit(node: Node, depth: nat) returns (cont: bool)
      modifies this
      ensures cont
      ensures result == VisitResult(old(result), node, depth, topValuesLimit)
    {
      var maxDepth := if depth > result.maxDepth then depth else result.maxDepth;
      var tags := result.tags;
      if node.Tag? {
        var name := node.name;
        var ts := if name in tags then tags[name] else TagStats(name, 0, map[]);
        ts := ts.(count := ts.count + 1);
        ts := TallyAttributes(ts, node.attributes, topValuesLimit);
        assert tags[name := ts] == RecordElement(tags, ElementOf(node), topValuesLimit);
        tags := tags[name := ts];
      }
      result := AnalysisResult(tags, result.filesAnalyzed, maxDepth);
      cont := true;
    }

    /** A copy of the current result; the analyzer is left unchanged. */
    method Result() returns (r: AnalysisResult)
      ensures r == result
    {
      r := result;
    }
  }
}
