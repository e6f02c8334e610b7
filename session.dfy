/**
 * The resumable analysis session of the browser build: a walker and an
 * accumulator driven at most `chunkSize` nodes per call, plus the one-shot
 * full walk it must agree with.
 */
module Session {
  import opened Wrappers
  import opened Stats
  import opened Dom
  import opened Analyzer
  import opened Walker
  import opened Seqs

  /** The value-histogram bound every session and one-shot analysis uses. */
  const SessionLimit: nat := 5

  /** A parsed document: the node arena and the handles of its top-level nodes. */
  datatype Document = Document(arena: seq<Node>, roots: seq<nat>)

  /** What the parser hands over: an acyclic arena whose roots all resolve. */
  ghost predicate Parsed(doc: Document) {
    WellFormed(doc.arena) && Between(doc.arena, doc.roots, -1)
  }

  /** The (node, depth) pairs the accumulator is given for the walked items, in order. */
  function Visits(items: seq<Item>): (v: seq<(Node, nat)>)
    ensures |v| == |items|
  {
    if items == [] then []
    else Visits(items[..|items| - 1]) + [(items[|items| - 1].1, items[|items| - 1].2)]
  }

  /** Feeding one more walked item is one more `VisitResult`. */
  lemma VisitAllSnoc(res: AnalysisResult, items: seq<Item>, x: Item, limit: nat)
    ensures VisitAll(res, Visits(items + [x]), limit) == VisitResult(VisitAll(res, Visits(items), limit), x.1, x.2, limit)
  {
    assert (items + [x])[..|items|] == items;
    var v := Visits(items) + [(x.1, x.2)];
    assert v[..|v| - 1] == Visits(items);
  }

  /** The result of walking the whole document and visiting every node. */
  function FullResult(doc: Document): AnalysisResult
    requires Parsed(doc)
  {
    VisitAll(Fresh(), Visits(Preorder(doc.arena, doc.roots)), SessionLimit)
  }

  /**
   * One-shot analysis: walk the whole document, visiting every node with
   * its depth.  A document the parser rejected gives the all-zero result.
   */
  method AnalyzeHtml(doc: Option<Document>) returns (r: AnalysisResult)
    requires doc.Some? ==> Parsed(doc.value)
    ensures doc.None? ==> r == AnalysisResult(map[], 0, 0)
    ensures doc.Some? ==> r == FullResult(doc.value)
  {
    if doc.None? {
      return AnalysisResult(map[], 0, 0);
    }
    var arena, roots := doc.value.arena, doc.value.roots;
    var walker := new DomWalker(roots, arena);
    var analyzer := new StatsAnalyzer(SessionLimit);
    ghost var done: seq<Item> := [];
    while true
      invariant walker.Valid() && done + walker.Pending() == Preorder(arena, roots)
      invariant analyzer.topValuesLimit == SessionLimit
      invariant analyzer.result == VisitAll(Fresh(), Visits(done), SessionLimit)
      decreases |walker.Pending()|
    {
      var item := walker.Next();
      if item.None? {
        break;
      }
      VisitAllSnoc(Fresh(), done, item.value, SessionLimit);
      ConcatAssoc(done, [item.value], walker.Pending());
      var _ := analyzer.Visit(item.value.1, item.value.2);
      done := done + [item.value];
    }
    assert done == Preorder(arena, roots);
    r := analyzer.Result();
    VisitAllIsRecordAll(Fresh(), Visits(done), SessionLimit);
    r := r.(filesAnalyzed := 1);
  }

  /** Moving the next pending item to the visited ones keeps the split of the walk and is one more visit. */
  lemma TakeOne(start: seq<Item>, taken: seq<Item>, x: Item, rest: seq<Item>, pending: seq<Item>, limit: nat)
    requires taken + ([x] + rest) == pending
    ensures (taken + [x]) + rest == pending
    ensures VisitAll(Fresh(), Visits(start + (taken + [x])), limit)
         == VisitResult(VisitAll(Fresh(), Visits(start + taken), limit), x.1, x.2, limit)
  {
    ConcatAssoc(taken, [x], rest);
    ConcatAssoc(start, taken, [x]);
    VisitAllSnoc(Fresh(), start + taken, x, limit);
  }

  /**
   * The chunk loop of a session step: pulls up to `chunkSize` nodes from
   * the walker and visits each with its depth, stopping early, and saying
   * so, when the walker yields nothing.
   */
  method Pump(walker: DomWalker, analyzer: StatsAnalyzer, chunkSize: nat, ghost start: seq<Item>)
      returns (dry: bool, ghost taken: seq<Item>)
    requires walker.Valid()
    requires analyzer.result == VisitAll(Fresh(), Visits(start), analyzer.topValuesLimit)
    modifies walker, analyzer
    ensures walker.Valid() && taken + walker.Pending() == old(walker.Pending())
    ensures dry == (|old(walker.Pending())| < chunkSize)
    ensures |taken| == if dry then |old(walker.Pending())| else chunkSize
    ensures analyzer.result == VisitAll(Fresh(), Visits(start + taken), analyzer.topValuesLimit)
  {
    ghost var pending := walker.Pending();
    taken := [];
    var processed := 0;
    assert start + [] == start;
    while processed < chunkSize
      invariant processed <= chunkSize && processed == |taken|
      invariant walker.Valid() && taken + walker.Pending() == pending
      invariant analyzer.result == VisitAll(Fresh(), Visits(start + taken), analyzer.topValuesLimit)
    {
      var item := walker.Next();
      if item.None? {
        return true, taken;
      }
      TakeOne(start, taken, item.value, walker.Pending(), pending, analyzer.topValuesLimit);
      var _ := analyzer.Visit(item.value.1, item.value.2);
      taken := taken + [item.value];
      processed := processed + 1;
    }
    dry := false;
  }

  /** A session: the walker (absent once released), the accumulator and the completion flag. */
  class FerretSession {
    var walker: DomWalker?
    const analyzer: StatsAnalyzer
    var isComplete: bool
    /** The items visited so far, and the whole walk. */
    ghost var visited: seq<Item>
    ghost const all: seq<Item>

    /**
     * The accumulator holds exactly the visits so far; the walker still has
     * the rest of the walk; a complete session has visited it all.
     */
    ghost predicate Valid()
      reads this, walker, analyzer
    {
      && analyzer.topValuesLimit == SessionLimit
      && analyzer.result == VisitAll(Fresh(), Visits(visited), SessionLimit)
      && (walker != null ==> walker.Valid() && visited + walker.Pending() == all)
      && (isComplete ==> visited == all)
    }

    /** A new, incomplete session over a parsed document. */
    constructor (doc: Document)
      requires Parsed(doc)
      ensures Valid() && fresh(walker) && fresh(analyzer)
      ensures !isComplete && visited == [] && all == Preorder(doc.arena, doc.roots)
      ensures walker.arena == doc.arena && walker.queue == Tagged(doc.roots, 0)
      ensures analyzer.result == Fresh()
    {
      walker := new DomWalker(doc.roots, doc.arena);
      analyzer := new StatsAnalyzer(SessionLimit);
      isComplete := false;
      visited := [];
      all := Preorder(doc.arena, doc.roots);
    }

    /**
     * Visits up to `chunkSize` more nodes.  Answers whether more work may
     * remain: false, and the session is complete, once the walker runs dry
     * inside the chunk; a complete or released session does nothing.
     */
    method Step(chunkSize: nat) returns (more: bool)
      requires Valid()
      modifies this, walker, analyzer
      ensures Valid() && walker == old(walker)
      ensures old(isComplete) ==> isComplete
      ensures old(isComplete) || walker == null ==>
                !more && visited == old(visited) && isComplete == old(isComplete)
      ensures !old(isComplete) && walker != null ==>
                var pending := old(walker.Pending());
                var k := if chunkSize <= |pending| then chunkSize else |pending|;
                visited == old(visited) + pending[..k] &&
                more == (chunkSize <= |pending|) &&
                isComplete == !more
    {
      if isComplete || walker == null {
        return false;
      }
      ghost var pending := walker.Pending();
      var dry, taken := Pump(walker, analyzer, chunkSize, visited);
      PrefixSuffix(taken, walker.Pending(), pending);
      ConcatAssoc(visited, taken, walker.Pending());
      visited := visited + taken;
      isComplete := dry;
      more := !dry;
    }

    /** The accumulated result; the file count says whether the session completed. */
    method GetResult() returns (r: AnalysisResult)
      requires Valid()
      ensures r.tags == analyzer.result.tags && r.maxDepth == analyzer.result.maxDepth
      ensures r.filesAnalyzed == if isComplete then 1 else 0
      ensures isComplete ==> r == VisitAll(Fresh(), Visits(all), SessionLimit)
    {
      r := analyzer.Result();
      if isComplete {
        VisitAllIsRecordAll(Fresh(), Visits(visited), SessionLimit);
      }
      r := r.(filesAnalyzed := if isComplete then 1 else 0);
    }
  }

  /**
   * Drives a new session with the chunk sizes `chunks`, cycling through
   * them, until a step reports no more work; the result is the one-shot
   * result, whatever the chunk sizes.
   */
  method RunSession(doc: Document, chunks: seq<nat>) returns (r: AnalysisResult)
    requires Parsed(doc)
    requires chunks != [] && forall i :: 0 <= i < |chunks| ==> chunks[i] >= 1
    ensures r == FullResult(doc)
  {
    var s := new FerretSession(doc);
    var i := 0;
    while true
      invariant s.Valid() && s.walker != null && !s.isComplete
      invariant fresh(s.walker) && fresh(s.analyzer)
      invariant s.all == Preorder(doc.arena, doc.roots)
      invariant 0 <= i < |chunks|
      decreases |s.walker.Pending()|
    {
      var more := s.Step(chunks[i]);
      if !more {
        break;
      }
      i := (i + 1) % |chunks|;
    }
    r := s.GetResult();
  }
}
