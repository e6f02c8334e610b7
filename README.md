# ferret: a verified model of the traversal-and-aggregation engine

`ferret` reads HTML or XML and counts, per tag name, how often the tag occurs.
For each attribute of a tag it counts how often the attribute occurs, and keeps
a bounded histogram of the attribute's values. It also reports the deepest
nesting it saw. This project models that engine in Dafny and proves its
properties:

- **Histogram** (`histogram.dfy`): the admission rule for attribute values. A
  value is counted when the histogram has fewer than `limit` distinct values
  or already tracks it. Proved: the histogram never exceeds the limit, keys
  are never dropped, and the sum of counts grows by at most one per value.
  From an empty histogram, exactly the first `limit` distinct values are
  tracked, each with its exact number of occurrences.
- **Stats** (`stats.dfy`): `AnalysisResult`, `TagStats` and `AttributeStats`,
  and the recording of one element. Tree mode and stream mode share this
  recording. Proved invariants: every record's name equals its key, no
  histogram exceeds the limit, every attribute count is at least the sum of
  its histogram, and nothing recorded is ever removed or decreased.
- **Dom** (`dom.dfy`): the parsed document as an arena of nodes addressed by
  handle (index).
- **Analyzer** (`analyzer.dfy`): the tree-mode `StatsAnalyzer`, a class whose
  `Visit` updates its `result` field in place.
- **Walker** (`walker.dfy`): `DomWalker`, a class holding a queue of
  (handle, depth) pairs. `Next` pops the front and pushes the node's
  children onto the front in reverse. Proved: the items it yields are
  exactly the recursive preorder listing of the root forest. Each item's
  depth is the number of its ancestors.
- **Session** (`session.dfy`): the resumable browser session
  (`FerretSession`). It visits at most `chunkSize` nodes per `Step`. Proved:
  driving it to completion with any chunk sizes of at least 1 gives exactly
  the result of the one-shot walk.
- **Stream** (`stream.dfy`): the streaming scan over tokenizer events. It
  keeps one nesting counter and records elements with the same rule as tree
  mode. Also modelled here: the proxy address rewrite used when fetching a
  url.
- **Server** (`server.dfy`): the analysis server's extraction of the target
  url from a request path.
- **Scenarios** (`scenarios.dfy`): the documents and event streams of the
  crate's tests, evaluated on the model. It also has two general lemmas on
  nested open and close events.

The two traversals count depth differently, and the model states each one
separately:

- Tree mode counts every node, text included, with the roots at depth 0.
- Stream mode counts only open start tags, so the first element is at
  depth 1, and a self-closing tag never raises the depth.

The HTML parser is abstracted as an arena of nodes. The arena is assumed
acyclic: every child handle is greater than its parent's handle and lies
inside the arena. Sharing is not ruled out: a node listed under several
parents is walked, and counted, once per listing, as the source's walker
would do. The XML tokenizer is abstracted as a sequence of events.
Running out of events is treated like the end-of-input event.

## Model

| member | source | states |
|---|---|---|
| Histogram.Admit | ferret/src/analyzer/mod.rs:92-96 | the body is the admission rule itself (a value is counted when the histogram has room or already tracks it); its properties are stated by Histogram.AdmitEffect, AdmitSum and FirstDistinctTracked |
| Histogram.AdmitEffect | ferret/src/analyzer/mod.rs:92-96 | a value is counted iff the histogram has room or already tracks it; an admitted value gains exactly one (entering at 1); a rejected one changes nothing; no other count moves; a histogram within the limit stays within it |
| Histogram.AdmitSum | ferret/src/analyzer/mod.rs:92-96 | the histogram's total grows by one exactly when the value is admitted |
| Histogram.AdmitAllAppend | ferret/src/analyzer/mod.rs:72-97 | admitting two runs of values one after the other is admitting their concatenation |
| Histogram.AdmitAllBounded | ferret/src/analyzer/mod.rs:92-96 | a histogram that starts within the limit never holds more than `limit` values |
| Histogram.AdmitAllKeeps | ferret/src/analyzer/mod.rs:92-96 | no tracked value is ever dropped and no count decreases |
| Histogram.AdmitAllSum | ferret/src/analyzer/mod.rs:88-96 | the histogram total grows by at most the number of values, and by exactly that many iff every value was admitted |
| Histogram.FirstDistinctTracked | ferret/src/analyzer/mod.rs:92-96 | from an empty histogram the tracked values are exactly the first `limit` distinct values, each counted exactly as often as it occurred |
| Histogram.AllAdmittedIffFits | ferret/src/analyzer/mod.rs:92-96 | no value is ever rejected iff the values hold at most `limit` distinct ones |
| Stats.Fresh | ferret/src/analyzer/mod.rs:39-48 | a fresh result has no tags, one file and depth 0 |
| Stats.RecordAttribute | ferret/src/analyzer/mod.rs:79-96 | the body is the definition of one attribute occurrence (entry created if absent, count plus one, value admitted); its properties are stated by Stats.RecordAttributesEffect and Stats.TallyAttribute |
| Stats.RecordAttributes | ferret/src/analyzer/mod.rs:72-97 | the body is the definition of recording an element's attributes in order; its properties are stated by Stats.RecordAttributesEffect and Stats.RecordAttributesConsistent |
| Stats.RecordElement | ferret/src/analyzer/mod.rs:57-97 | the body is the definition of recording one element (tag entry created if absent, count plus one, attributes recorded), shared with ferret/src/analyzer/stream.rs:181-218; its properties are stated by Stats.RecordElementEffect, RecordElementAttr and RecordElementConsistent |
| Stats.TallyAttribute | ferret/src/analyzer/mod.rs:79-96 | inserting the attribute record on first encounter, counting it and applying the admission rule is one attribute recording |
| Stats.RecordAttributesEffect | ferret/src/analyzer/mod.rs:72-97 | after an element's attributes, an attribute is present iff it was before or occurs; its count grows by its number of occurrences; its histogram receives its values in order; its name is kept |
| Stats.RecordElementEffect | ferret/src/analyzer/mod.rs:57-70 | recording an element adds its tag name if absent and raises its count by exactly one; every other tag is unchanged |
| Stats.RecordElementAttr | ferret/src/analyzer/mod.rs:72-96 | one element adds its values for an attribute to that attribute's count and histogram, and nothing to other tags' attributes |
| Stats.RecordAttributesConsistent | ferret/src/analyzer/mod.rs:79-96 | recording attributes keeps an attribute record's name, its histogram bound and count >= histogram sum |
| Stats.RecordTagConsistent | ferret/src/analyzer/mod.rs:60-96 | counting a tag and recording its attributes keeps the tag record consistent |
| Stats.RecordElementConsistent | ferret/src/analyzer/mod.rs:60-96 | recording an element preserves: names equal keys, histograms within the limit, counts >= histogram sums |
| Stats.RecordAllConsistent | ferret/src/analyzer/mod.rs:60-96 | the same invariants hold after any number of elements |
| Stats.RecordElementExtends | ferret/src/analyzer/mod.rs:60-96 | recording an element never removes a tag, attribute or value and never decreases a count |
| Stats.RecordAllTagCount | ferret/src/analyzer/mod.rs:57-70 | after any elements, a tag is present iff it was or occurs, and its count grows by its number of occurrences |
| Stats.RecordAllAttr | ferret/src/analyzer/mod.rs:72-96 | after any elements, an attribute's count grows by the number of values given to it and its histogram is those values admitted in order |
| Dom.AttributePairs | ferret/src/analyzer/mod.rs:72-77 | the body is the definition of reading the attributes as pairs, a missing value as ""; its contract keeps one pair per attribute, and Dom.AttributePairsPrefix states each pair |
| Dom.AttributePairsPrefix | ferret/src/analyzer/mod.rs:72-77 | each attribute is read as its key and its value, a missing value reading as the empty string |
| Analyzer.VisitResult | ferret/src/analyzer/mod.rs:52-101 | a visit makes the maximum depth the larger of the old one and the node's depth, keeps the file count, and leaves tags alone for a non-element |
| Analyzer.MaxDepthOf | ferret/src/analyzer/mod.rs:53-55 | the recorded depth is at least every visit's depth and equal to one of them |
| Analyzer.VisitAllIsRecordAll | ferret/src/analyzer/mod.rs:52-101 | visiting nodes records exactly their elements in order, raises the maximum depth to the deepest visit and keeps the file count |
| Analyzer.VisitSound | ferret/src/analyzer/mod.rs:60-101 | a visit keeps the result consistent and only extends it |
| Analyzer.TallyAttributes | ferret/src/analyzer/mod.rs:72-97 | the attribute loop records every attribute of the element, in order |
| Analyzer.StatsAnalyzer.constructor | ferret/src/analyzer/mod.rs:39-48 | a new analyzer holds the fresh result and the given limit |
| Analyzer.StatsAnalyzer.Visit | ferret/src/analyzer/mod.rs:52-101 | `visit` always answers true and updates the result as one `VisitResult` step |
| Analyzer.StatsAnalyzer.Result | ferret/src/analyzer/mod.rs:103-105 | `result` returns the current result and changes nothing |
| Walker.Tagged | ferret/src/walker.rs:13-15 | the queue entries for a list of handles: one entry per handle; Walker.TaggedAt states that entry i is handle i at the given depth, and Walker.TaggedSnoc that one more handle appends its entry |
| Walker.TaggedAt | ferret/src/walker.rs:13-15 | entry i of the queue seeded from a list of handles is handle i, paired with the given depth |
| Walker.QueuePreAppend | ferret/src/walker.rs:24-39 | what two queues yield one after the other is what their concatenation yields |
| Walker.ForestIsQueue | ferret/src/walker.rs:10-17 | a queue seeded with the roots at depth d yields the recursive preorder of their forest |
| Walker.QueuePreStep | ferret/src/walker.rs:25-38 | popping the front and pushing its children in front yields the front node, then exactly what the queue had left to yield |
| Walker.PushFront | ferret/src/walker.rs:30-36 | pushing the children to the front in reverse leaves them in their original order ahead of the rest of the queue |
| Walker.DomWalker.constructor | ferret/src/walker.rs:10-18 | the queue holds the roots in the given order, each at depth 0; over an acyclic arena whose roots resolve, the new walker is valid and has exactly the recursive preorder of the roots still to yield |
| Walker.DomWalker.Next | ferret/src/walker.rs:24-39 | an empty queue yields nothing; an unresolvable handle is popped and yields nothing; otherwise the node is yielded with its depth and its children are queued in front at depth + 1; the queue length becomes old length - 1 + number of children; the walk still to come loses exactly the yielded item |
| Session.AnalyzeHtml | ferret/src/wasm/mod.rs:114-136 | a rejected document gives the all-zero result; otherwise walking every node and visiting it gives the full-walk result with one file |
| Session.Pump | ferret/src/wasm/mod.rs:61-74 | the chunk loop visits the next min(chunkSize, remaining) nodes in walk order, each with its depth, and reports exhaustion iff fewer than chunkSize remained |
| Session.FerretSession.constructor | ferret/src/wasm/mod.rs:43-53 | a new session is incomplete, its walker is seeded with the roots at depth 0, its analyzer is fresh with limit 5 |
| Session.FerretSession.Step | ferret/src/wasm/mod.rs:56-75 | a complete or released session answers false and visits nothing; otherwise the next min(chunkSize, remaining) nodes are visited, the answer is true iff the walk was not exhausted within the chunk, and completion is set exactly then and never reverts |
| Session.FerretSession.GetResult | ferret/src/wasm/mod.rs:77-79 | the result reports one file iff the session is complete, and a complete session's result is the full-walk result |
| Session.RunSession | ferret/src/wasm/mod.rs:192-197 | stepping a new session until it answers false, with any chunk sizes of at least 1, terminates with the one-shot result |
| Stream.New | ferret/src/analyzer/stream.rs:28-33 | a plain analyzer has the given limit and no proxy |
| Stream.WithProxy | ferret/src/analyzer/stream.rs:46-51 | a proxied analyzer has the given limit and proxy |
| Stream.TrimStartMatches | ferret/src/analyzer/stream.rs:90-91 | the body is the definition of stripping every leading copy of a pattern; Stream.TrimStartMatchesSpec and Stream.TrimRepeat state what it removes and leaves |
| Stream.TrimStartMatchesSpec | ferret/src/analyzer/stream.rs:90-91 | stripping leading matches removes whole copies of the pattern and leaves a string that no longer starts with it |
| Stream.TargetUrl | ferret/src/analyzer/stream.rs:84-95 | the body is the definition of the fetched address; Stream.TargetUrlSpec, TargetUrlUnique, TargetUrlPlain and TargetUrlDropsScheme state it |
| Stream.TargetUrlSpec | ferret/src/analyzer/stream.rs:84-95 | without a proxy the url is fetched unchanged; with one, the target is the proxy followed by the url minus leading copies of "https://" and then of "http://"; what follows the "https://" copies no longer starts with "https://", and the rest no longer starts with "http://" |
| Stream.TrimRepeat | ferret/src/analyzer/stream.rs:90-91 | stripping a pattern from copies of it followed by text that does not start with it leaves exactly that text |
| Stream.TargetUrlUnique | ferret/src/analyzer/stream.rs:84-95 | any split of the url into "https://" copies, "http://" copies and a rest from which neither prefix can be stripped further gives the proxy followed by that rest, so the split is unique |
| Stream.TargetUrlPlain | ferret/src/analyzer/stream.rs:84-95 | through a proxy, a url without scheme prefix is appended unchanged |
| Stream.TargetUrlDropsScheme | ferret/src/analyzer/stream.rs:84-95 | through a proxy, one "https://" or "http://" prefix is dropped and the rest appended |
| Stream.DecodedPairs | ferret/src/analyzer/stream.rs:194-197 | the body is the definition of the attributes that decode, in order; its contract bounds their number, and Stream.DecodedPairsPrefix states each step |
| Stream.DecodedPairsPrefix | ferret/src/analyzer/stream.rs:194-197 | an attribute that failed to decode contributes nothing; a decoded one contributes its key and value |
| Stream.TallyDecoded | ferret/src/analyzer/stream.rs:194-218 | the attribute loop records exactly the decoded attributes, in order, under the admission rule |
| Stream.ProcessElement | ferret/src/analyzer/stream.rs:176-219 | an element is recorded exactly as tree mode records it, with its decoded attributes |
| Stream.UpToEof | ferret/src/analyzer/stream.rs:142-168 | the scan reads a prefix of the events holding no end of input, stopping at the first one |
| Stream.UpToEofAt | ferret/src/analyzer/stream.rs:161 | the scan stops exactly at the first end of input, or at the end of the events |
| Stream.Depth | ferret/src/analyzer/stream.rs:140-160 | the body is the definition of the open-element depth after a run of events (a start adds one, an end removes one when above zero); Stream.ScanSnoc states each step, and Stream.StartOpens, EmptyKeepsDepth, StrayEndIgnored and SkippedEvents state each arm |
| Stream.Peak | ferret/src/analyzer/stream.rs:144-148 | the body is the definition of the deepest depth a start event reached; Stream.PeakIsMaxDepth states that it is the largest depth over all prefixes |
| Stream.Elements | ferret/src/analyzer/stream.rs:144-155 | the body is the definition of the elements that start and self-closing events present, in order; Stream.ScanSnoc states that each start or self-closing event adds its element with its decoded attributes to the recorded tags, and nothing else does |
| Stream.Scan | ferret/src/analyzer/stream.rs:136-168 | the body is the definition of the stream result (every element recorded, one file, the peak depth); Stream.AnalyzeReader is proved equal to it, and Stream.ScanSnoc, ScanEmpty and PeakIsMaxDepth state its properties |
| Stream.ScanSnoc | ferret/src/analyzer/stream.rs:143-166 | one more event: a start raises the depth and possibly the peak and records the element; a self-closing tag records it; an end lowers a positive depth; others change nothing |
| Stream.AnalyzeReader | ferret/src/analyzer/stream.rs:130-171 | the event loop's result is the scan of the events before the first end of input |
| Stream.ScanEmpty | ferret/src/analyzer/stream.rs:136-137 | no events, or an immediate end of input, give no tags, one file and depth 0 |
| Stream.EofStops | ferret/src/analyzer/stream.rs:161 | nothing after the first end of input is read |
| Stream.StartOpens | ferret/src/analyzer/stream.rs:144-151 | a start event raises the depth by one and the peak to at least the new depth |
| Stream.EmptyKeepsDepth | ferret/src/analyzer/stream.rs:152-155 | a self-closing tag changes neither depth nor peak |
| Stream.StrayEndIgnored | ferret/src/analyzer/stream.rs:156-160 | an end event at depth 0 changes nothing |
| Stream.SkippedEvents | ferret/src/analyzer/stream.rs:162-165 | error and other events change nothing |
| Stream.PeakIsMaxDepth | ferret/src/analyzer/stream.rs:144-148 | the reported maximum depth is the largest depth any prefix of the events reached |
| Server.StripSlash | ferret_server/src/main.rs:93-97 | exactly one leading slash is removed when present; otherwise the path is unchanged |
| Server.ExtractTargetUrl | ferret_server/src/main.rs:91-108 | accepted iff the stripped path starts with "http://" or "https://"; the accepted url is the stripped path; a rejection's message is the fixed text followed by the original path |
| Server.AcceptedIsSuffix | ferret_server/src/main.rs:93-107 | an accepted url is a suffix of the path, either the path itself or the path minus one leading slash |
| Server.ExtractIdempotent | ferret_server/src/main.rs:93-107 | extracting again from an accepted url returns it unchanged |
| Server.SlashIsOptional | ferret_server/src/main.rs:93-107 | a path with or without the leading slash names the same url, accepted exactly when it has a web scheme |
| Server.SchemeAccepted | ferret_server/src/main.rs:93-107 | any text that starts with "http://" or "https://" is accepted unchanged, with or without one leading slash |
| Server.AcceptedHttpsExample | ferret_server/src/main.rs:153-164 | "/https://example.com" and "https://example.com" are both accepted as "https://example.com" |
| Server.AcceptedHttpExample | ferret_server/src/main.rs:157-160 | "/http://example.com/foo" is accepted as "http://example.com/foo" |
| Server.RejectedExamples | ferret_server/src/main.rs:167-171 | "/ftp://example.com" and "invalid-url" are rejected |
| Scenarios.WalkOrderExample | ferret/src/walker.rs:47-67 | the walk of `<div><p>Child</p></div>` yields div at 0, p at 1, the text at 2 |
| Scenarios.StatsExample | ferret/src/analyzer/mod.rs:114-141 | the walk of the test document counts div once, p twice, and div's class once with "container" once |
| Scenarios.OpensDepth | ferret/src/analyzer/stream.rs:144-151 | k nested start events raise the depth by k and the peak to at least the new depth |
| Scenarios.ClosesDepth | ferret/src/analyzer/stream.rs:156-160 | n end events close n open levels and leave the peak alone |
| Scenarios.DeepExample | ferret/src/analyzer/stream.rs:258-265 | div, div, div, span nested gives maximum depth 4 and ends at depth 0 |
| Scenarios.ClassEventsScan | ferret/src/analyzer/stream.rs:183-216 | a run of divs with class values counts every div and value, and the class histogram is those values admitted in order |
| Scenarios.ClassValuesExample | ferret/tests/integration_tests.rs:104-127 | class values a, b, a, c with limit 10 give four divs, count 4 and histogram {a: 2, b: 1, c: 1} |
| Scenarios.ClassLimitExample | ferret/tests/integration_tests.rs:129-153 | class values a, b, c, a with limit 2 give count 4 and histogram {a: 2, b: 1}: c is not tracked |

## Left out

- The `tl` HTML parser and the quick-xml tokenizer are foreign libraries. The document is an arena of `Node`s with child handles, and the token stream is a `seq<Event>`. Byte-to-string decoding (`from_utf8_lossy`) is not modelled: names and values are already strings.
- Network and file I/O are not modelled: the fetch in `analyze_url`, `analyze_file`, `analyze_string` and the server's request handling and `main`. Only the address computation of `analyze_url` is modelled, as `Stream.TargetUrl`.
- `analyze_reader` always returns `Ok` in the source, so the model returns the result itself. A tokenizer error event is skipped, as in the source.
- The tokenizer's end of input is an explicit `Eof` event. A finite event sequence without one is treated as if it ended with one.
- FerretSession's raw pointers, `Drop`, the wasm bindings and result serialisation are not modelled. The constructor's `unwrap` on a parse failure (a panic) is not modelled: a session is built only from a parsed document. A released walker is modelled as `walker == null`, and `Step` handles that case.
- Integer widths are not modelled: all counts and depths are `nat`, so `usize` overflow is not covered.
- Walker.DomWalker.Next: yields the recursive preorder only for an acyclic arena, where every child handle is greater than its parent's handle and inside the arena. That the parser produces such an arena is assumed.
- Walker.DomWalker.Next: the model does not prove that each reachable node is yielded exactly once. It proves the walk equals the recursive preorder, which yields a node once per path from a root.
- The presentation modules (exporter, renderer, reporter), the JSON round trips and the progress spinners are not modelled.
- Tree and stream depth are not compared: the two conventions differ.
