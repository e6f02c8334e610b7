/**
 * Worked examples: the documents and event streams the crate's own unit
 * and integration tests use, evaluated on the model.
 */
module Scenarios {
  import opened Wrappers
  import opened Histogram
  import opened Stats
  import opened Dom
  import opened Analyzer
  import opened Walker
  import opened Session
  import opened Stream

  /** `<div><p>Child</p></div>` as an arena: the div, its paragraph, the paragraph's text. */
  function ChildDoc(): Document {
    Document([Tag("div", [], [1]), Tag("p", [], [2]), Raw("Child")], [0])
  }

  /** The walk of `<div><p>Child</p></div>` yields div at depth 0, p at depth 1 and the text at depth 2. */
  lemma WalkOrderExample()
    ensures Parsed(ChildDoc())
    ensures var d := ChildDoc();
            Preorder(d.arena, d.roots) == [(0, d.arena[0], 0), (1, d.arena[1], 1), (2, d.arena[2], 2)]
  {
    var d := ChildDoc();
    assert Children(d.arena[2]) == [];
    assert Children(d.arena[1]) == [2];
    assert Children(d.arena[0]) == [1];
    assert NodePre(d.arena, 2, 2) == [(2, d.arena[2], 2)];
    assert NodePre(d.arena, 1, 1) == [(1, d.arena[1], 1), (2, d.arena[2], 2)];
  }

  /** `<div class="container"><p>Hello</p><p class="text">World</p></div>` as an arena. */
  function StatsDoc(): Document {
    Document([Tag("div", [("class", Some("container"))], [1, 3]), Tag("p", [], [2]), Raw("Hello"),
              Tag("p", [("class", Some("text"))], [4]), Raw("World")], [0])
  }

  /** `Visits` and `ElementsOf` grow by one entry per walked item. */
  lemma VisitsSnoc(items: seq<Item>, x: Item)
    ensures Visits(items + [x]) == Visits(items) + [(x.1, x.2)]
    ensures ElementsOf(Visits(items + [x])) == ElementsOf(Visits(items)) + (if x.1.Tag? then [ElementOf(x.1)] else [])
  {
    assert (items + [x])[..|items|] == items;
    var v := Visits(items) + [(x.1, x.2)];
    assert v[..|v| - 1] == Visits(items);
  }

  /** `CountTag` and `Values` grow by one element's share. */
  lemma ElementsSnoc(es: seq<Element>, e: Element, name: string, key: string)
    ensures CountTag(es + [e], name) == CountTag(es, name) + (if e.name == name then 1 else 0)
    ensures Values(es + [e], name, key) == Values(es, name, key) + ElementValues(e, name, key)
  {
    assert (es + [e])[..|es|] == es;
  }

  /** The walk of `StatsDoc`: the div, its first paragraph and text, its second paragraph and text. */
  lemma StatsDocPreorder()
    ensures Parsed(StatsDoc())
    ensures var a := StatsDoc().arena;
            Preorder(a, StatsDoc().roots) == [(0, a[0], 0)] + [(1, a[1], 1)] + [(2, a[2], 2)] + [(3, a[3], 1)] + [(4, a[4], 2)]
  {
    var a := StatsDoc().arena;
    assert NodePre(a, 2, 2) == [(2, a[2], 2)];
    assert NodePre(a, 4, 2) == [(4, a[4], 2)];
    assert NodePre(a, 1, 1) == [(1, a[1], 1), (2, a[2], 2)];
    assert NodePre(a, 3, 1) == [(3, a[3], 1), (4, a[4], 2)];
    assert ForestPre(a, [3], 1, 0) == NodePre(a, 3, 1);
    assert ForestPre(a, [1, 3], 1, 0) == NodePre(a, 1, 1) + NodePre(a, 3, 1);
  }

  /** The elements the walk of `StatsDoc` presents to the accumulator, in order. */
  lemma StatsDocElements()
    ensures Parsed(StatsDoc())
    ensures ElementsOf(Visits(Preorder(StatsDoc().arena, StatsDoc().roots)))
         == [Element("div", [("class", "container")])] + [Element("p", [])] + [Element("p", [("class", "text")])]
  {
    StatsDocPreorder();
    var a := StatsDoc().arena;
    var x0, x1, x2, x3, x4 := (0, a[0], 0), (1, a[1], 1), (2, a[2], 2), (3, a[3], 1), (4, a[4], 2);
    assert AttributePairs([("class", Some("container"))]) == [("class", "container")];
    assert AttributePairs([("class", Some("text"))]) == [("class", "text")];
    VisitsSnoc([], x0);
    assert [] + [x0] == [x0];
    VisitsSnoc([x0], x1);
    VisitsSnoc([x0] + [x1], x2);
    VisitsSnoc([x0] + [x1] + [x2], x3);
    VisitsSnoc([x0] + [x1] + [x2] + [x3], x4);
  }

  /** The tag counts and the div's class values of `StatsDoc`'s elements. */
  lemma StatsDocShares()
    ensures var es := [Element("div", [("class", "container")])] + [Element("p", [])] + [Element("p", [("class", "text")])];
            CountTag(es, "div") == 1 && CountTag(es, "p") == 2 && Values(es, "div", "class") == ["container"]
  {
    var e0, e1, e2 := Element("div", [("class", "container")]), Element("p", []), Element("p", [("class", "text")]);
    ElementsSnoc([], e0, "div", "class");
    ElementsSnoc([], e0, "p", "class");
    assert [] + [e0] == [e0];
    ElementsSnoc([e0], e1, "div", "class");
    ElementsSnoc([e0], e1, "p", "class");
    ElementsSnoc([e0] + [e1], e2, "div", "class");
    ElementsSnoc([e0] + [e1], e2, "p", "class");
    assert ValuesOf([("class", "container")], "class") == ["container"];
  }

  /** Recording `StatsDoc`'s elements with limit 5: one div, two paragraphs, the div's class "container" once. */
  lemma StatsDocTags()
    ensures var tags := RecordAll(map[], [Element("div", [("class", "container")])] + [Element("p", [])] + [Element("p", [("class", "text")])], 5);
            && "div" in tags && tags["div"].count == 1
            && "p" in tags && tags["p"].count == 2
            && "class" in tags["div"].attributes && tags["div"].attributes["class"].count == 1
            && tags["div"].attributes["class"].valueCounts == map["container" := 1]
  {
    var es := [Element("div", [("class", "container")])] + [Element("p", [])] + [Element("p", [("class", "text")])];
    StatsDocShares();
    RecordAllTagCount(map[], es, 5, "div");
    RecordAllTagCount(map[], es, 5, "p");
    RecordAllAttr(map[], es, 5, "div", "class");
    assert AdmitAll(map[], ["container"], 5) == map["container" := 1];
  }

  /** The walk of `StatsDoc` with limit 5 counts one div, two paragraphs and the div's class "container" once. */
  lemma StatsExample()
    ensures Parsed(StatsDoc())
    ensures var tags := FullResult(StatsDoc()).tags;
            && "div" in tags && tags["div"].count == 1
            && "p" in tags && tags["p"].count == 2
            && "class" in tags["div"].attributes && tags["div"].attributes["class"].count == 1
            && tags["div"].attributes["class"].valueCounts == map["container" := 1]
  {
    StatsDocElements();
    StatsDocTags();
    var d := StatsDoc();
    VisitAllIsRecordAll(Fresh(), Visits(Preorder(d.arena, d.roots)), SessionLimit);
  }

  /** Start events for `names`, in order, opening one element inside the other, none with attributes. */
  function Opens(names: seq<string>): (evs: seq<Event>)
    ensures |evs| == |names|
  {
    if names == [] then [] else Opens(names[..|names| - 1]) + [Start(names[|names| - 1], [])]
  }

  /** `n` end events. */
  function Closes(n: nat): (evs: seq<Event>)
    ensures |evs| == n
  {
    if n == 0 then [] else Closes(n - 1) + [End]
  }

  /** Opening `k` nested elements raises the depth by `k` and the peak to at least the new depth. */
  lemma {:induction false} OpensDepth(p: seq<Event>, names: seq<string>)
    ensures NoEof(Opens(names))
    ensures Depth(p + Opens(names)) == Depth(p) + |names|
    ensures Peak(p + Opens(names)) == if Peak(p) > Depth(p) + |names| then Peak(p) else Depth(p) + |names|
  {
    if names == [] {
      assert p + [] == p;
      PeakIsMaxDepth(p);
      assert p[..|p|] == p;
    } else {
      var init, last := names[..|names| - 1], Start(names[|names| - 1], []);
      var q := p + Opens(init);
      OpensDepth(p, init);
      ScanSnoc(q, last, 0);
      assert p + Opens(names) == q + [last];
    }
  }

  /** `n` end events close `n` open levels and leave the peak alone. */
  lemma {:induction false} ClosesDepth(p: seq<Event>, n: nat)
    requires n <= Depth(p)
    ensures NoEof(Closes(n))
    ensures Depth(p + Closes(n)) == Depth(p) - n
    ensures Peak(p + Closes(n)) == Peak(p)
  {
    if n == 0 {
      assert p + [] == p;
    } else {
      var q := p + Closes(n - 1);
      ClosesDepth(p, n - 1);
      ScanSnoc(q, End, 0);
      assert p + Closes(n) == q + [End];
    }
  }

  /** `<div><div><div><span>Deep</span></div></div></div>` as tokenizer events: the text is an `Other` event. */
  function DeepEvents(): seq<Event> {
    Opens(["div", "div", "div", "span"]) + [Other] + Closes(4) + [Eof]
  }

  /** The deepest nesting of `DeepEvents` is 4: div, div, div, span; the scan ends back at depth 0. */
  lemma DeepExample()
    ensures var read := UpToEof(DeepEvents());
            Scan(read, 10).maxDepth == 4 && Depth(read) == 0
  {
    var opens := Opens(["div", "div", "div", "span"]);
    OpensDepth([], ["div", "div", "div", "span"]);
    assert [] + opens == opens;
    ScanSnoc(opens, Other, 10);
    ClosesDepth(opens + [Other], 4);
    var read := opens + [Other] + Closes(4);
    assert NoEof(read);
    EofStops(read, []);
    assert DeepEvents() == read + [Eof] + [];
  }

  /** One more event adds the element it opens or self-closes, if any. */
  lemma StreamElementsSnoc(p: seq<Event>, e: Event)
    ensures Elements(p + [e]) == Elements(p) + (if e.Start? || e.Empty? then [Element(e.name, DecodedPairs(e.attrs))] else [])
  {
    assert (p + [e])[..|p|] == p;
  }

  /** `<div class="v"></div>` as tokenizer events. */
  function DivClass(v: string): seq<Event> {
    [Start("div", [Decoded("class", v)]), End]
  }

  /** `<div class="v"></div>` for each `v` of `vs`, in order, as tokenizer events. */
  function ClassEvents(vs: seq<string>): (evs: seq<Event>)
    ensures |evs| == 2 * |vs|
  {
    if vs == [] then [] else ClassEvents(vs[..|vs| - 1]) + DivClass(vs[|vs| - 1])
  }

  /** `<div class="v"></div>` after any events adds one div element with that class value. */
  lemma DivClassElements(q: seq<Event>, v: string)
    ensures Elements(q + DivClass(v)) == Elements(q) + [Element("div", [("class", v)])]
  {
    var e := Start("div", [Decoded("class", v)]);
    assert DecodedPairs([Decoded("class", v)]) == [("class", v)];
    StreamElementsSnoc(q, e);
    StreamElementsSnoc(q + [e], End);
    assert q + DivClass(v) == (q + [e]) + [End];
  }

  /** One more div with class `v` adds one div and the value `v`. */
  lemma DivClassShares(es: seq<Element>, v: string)
    ensures CountTag(es + [Element("div", [("class", v)])], "div") == CountTag(es, "div") + 1
    ensures Values(es + [Element("div", [("class", v)])], "div", "class") == Values(es, "div", "class") + [v]
  {
    ElementsSnoc(es, Element("div", [("class", v)]), "div", "class");
    assert ValuesOf([("class", v)], "class") == [v];
  }

  /** `ClassEvents` holds no end of input. */
  lemma {:induction false} ClassEventsNoEof(vs: seq<string>)
    ensures NoEof(ClassEvents(vs))
  {
    if vs != [] {
      var q := ClassEvents(vs[..|vs| - 1]);
      ClassEventsNoEof(vs[..|vs| - 1]);
      var r := q + [Start("div", [Decoded("class", vs[|vs| - 1])]), End];
      assert forall i :: 0 <= i < |q| ==> r[i] == q[i];
    }
  }

  /** The divs of `ClassEvents(vs)` are `|vs|` elements giving their class the values `vs`, in order. */
  lemma {:induction false} ClassEventsElements(vs: seq<string>)
    ensures CountTag(Elements(ClassEvents(vs)), "div") == |vs|
    ensures Values(Elements(ClassEvents(vs)), "div", "class") == vs
  {
    if vs != [] {
      var init, v := vs[..|vs| - 1], vs[|vs| - 1];
      var q := ClassEvents(init);
      var es, el := Elements(q), Element("div", [("class", v)]);
      assert ClassEvents(vs) == q + DivClass(v);
      ClassEventsElements(init);
      DivClassElements(q, v);
      assert Elements(ClassEvents(vs)) == es + [el];
      DivClassShares(es, v);
      assert vs == init + [v];
      assert Values(es + [el], "div", "class") == init + [v];
    }
  }

  /**
   * Scanning `ClassEvents(vs)` counts `|vs|` divs and `|vs|` class values,
   * and the class histogram is what admitting `vs` one by one gives.
   */
  lemma ClassEventsScan(vs: seq<string>, limit: nat)
    requires vs != []
    ensures var tags := Scan(UpToEof(ClassEvents(vs) + [Eof]), limit).tags;
            && "div" in tags && tags["div"].count == |vs|
            && "class" in tags["div"].attributes && tags["div"].attributes["class"].count == |vs|
            && tags["div"].attributes["class"].valueCounts == AdmitAll(map[], vs, limit)
  {
    var evs := ClassEvents(vs);
    ClassEventsNoEof(vs);
    ClassEventsElements(vs);
    EofStops(evs, []);
    assert evs + [Eof] == evs + [Eof] + [];
    RecordAllTagCount(map[], Elements(evs), limit, "div");
    RecordAllAttr(map[], Elements(evs), limit, "div", "class");
  }

  /** Admitting one more value is one more `Admit`. */
  lemma AdmitAllSnoc(vc: Counts, vs: seq<string>, v: string, limit: nat)
    ensures AdmitAll(vc, vs + [v], limit) == Admit(AdmitAll(vc, vs, limit), v, limit)
  {
    assert (vs + [v])[..|vs|] == vs;
  }

  /** The histogram for a, b, a, c with room for 10 values. */
  lemma RoomyHistogram()
    ensures AdmitAll(map[], ["a", "b", "a", "c"], 10) == map["a" := 2, "b" := 1, "c" := 1]
  {
    AdmitAllSnoc(map[], [], "a", 10);
    assert [] + ["a"] == ["a"];
    var h1 := AdmitAll(map[], ["a"], 10);
    assert h1 == map["a" := 1];
    AdmitAllSnoc(map[], ["a"], "b", 10);
    assert ["a"] + ["b"] == ["a", "b"];
    var h2 := AdmitAll(map[], ["a", "b"], 10);
    assert h2 == map["a" := 1, "b" := 1];
    AdmitAllSnoc(map[], ["a", "b"], "a", 10);
    assert ["a", "b"] + ["a"] == ["a", "b", "a"];
    var h3 := AdmitAll(map[], ["a", "b", "a"], 10);
    assert h3 == map["a" := 2, "b" := 1];
    AdmitAllSnoc(map[], ["a", "b", "a"], "c", 10);
    assert ["a", "b", "a"] + ["c"] == ["a", "b", "a", "c"];
  }

  /** The histogram for a, b, c, a with room for 2 values: c finds it full. */
  lemma TightHistogram()
    ensures AdmitAll(map[], ["a", "b", "c", "a"], 2) == map["a" := 2, "b" := 1]
  {
    AdmitAllSnoc(map[], [], "a", 2);
    assert [] + ["a"] == ["a"];
    var h1 := AdmitAll(map[], ["a"], 2);
    assert h1 == map["a" := 1];
    AdmitAllSnoc(map[], ["a"], "b", 2);
    assert ["a"] + ["b"] == ["a", "b"];
    var h2 := AdmitAll(map[], ["a", "b"], 2);
    assert h2 == map["a" := 1, "b" := 1];
    assert |h2| == 2 && "c" !in h2;
    AdmitAllSnoc(map[], ["a", "b"], "c", 2);
    assert ["a", "b"] + ["c"] == ["a", "b", "c"];
    AdmitAllSnoc(map[], ["a", "b", "c"], "a", 2);
    assert ["a", "b", "c"] + ["a"] == ["a", "b", "c", "a"];
  }

  /** Class values a, b, a, c with room for 10 values: every value is tracked with its exact count. */
  lemma ClassValuesExample()
    ensures var tags := Scan(UpToEof(ClassEvents(["a", "b", "a", "c"]) + [Eof]), 10).tags;
            && "div" in tags && tags["div"].count == 4
            && "class" in tags["div"].attributes && tags["div"].attributes["class"].count == 4
            && tags["div"].attributes["class"].valueCounts == map["a" := 2, "b" := 1, "c" := 1]
  {
    ClassEventsScan(["a", "b", "a", "c"], 10);
    RoomyHistogram();
  }

  /**
   * Class values a, b, c, a with room for 2 values: a and b are admitted, c
   * arrives with the histogram full and is not tracked, and a is counted
   * twice; the attribute count still sees all four.
   */
  lemma ClassLimitExample()
    ensures var tags := Scan(UpToEof(ClassEvents(["a", "b", "c", "a"]) + [Eof]), 2).tags;
            && "div" in tags && "class" in tags["div"].attributes
            && tags["div"].attributes["class"].count == 4
            && tags["div"].attributes["class"].valueCounts == map["a" := 2, "b" := 1]
  {
    ClassEventsScan(["a", "b", "c", "a"], 2);
    TightHistogram();
  }
}
