/**
 * Stream mode: one forward pass over the tokenizer's events with a single
 * nesting counter, feeding the same element recording as tree mode.
 */
module Stream {
  import opened Wrappers
  import opened Stats

  /** One attribute as the tokenizer delivers it: decoded, or failed to decode. */
  datatype RawAttr = Decoded(key: string, value: string) | Malformed

  /** One tokenizer event; the end of the input is `Eof`. */
  datatype Event =
    | Start(name: string, attrs: seq<RawAttr>)
    | Empty(name: string, attrs: seq<RawAttr>)
    | End
    | Err
    | Other
    | Eof

  /** The configuration of a stream analyzer: the value-histogram bound and an optional CORS proxy. */
  datatype StreamAnalyzer = StreamAnalyzer(topValuesLimit: nat, proxyUrl: Option<string>)

  /** An analyzer that fetches directly. */
  function New(topValuesLimit: nat): (sa: StreamAnalyzer)
    ensures sa.topValuesLimit == topValuesLimit && sa.proxyUrl == None
  {
    StreamAnalyzer(topValuesLimit, None)
  }

  /** An analyzer that routes fetches through the proxy at `proxyUrl`. */
  function WithProxy(topValuesLimit: nat, proxyUrl: string): (sa: StreamAnalyzer)
    ensures sa.topValuesLimit == topValuesLimit && sa.proxyUrl == Some(proxyUrl)
  {
    StreamAnalyzer(topValuesLimit, Some(proxyUrl))
  }

  // ---------------------------------------------------------------------
  // The proxy target
  // ---------------------------------------------------------------------

  /** `pat` repeated `n` times. */
  function Repeat(pat: string, n: nat): string {
    if n == 0 then [] else pat + Repeat(pat, n - 1)
  }

  /** Strips every leading occurrence of the non-empty pattern `pat`. */
  function TrimStartMatches(s: string, pat: string): string
    requires pat != []
    decreases |s|
  {
    if pat <= s then TrimStartMatches(s[|pat|..], pat) else s
  }

  /** How many copies of `pat` `TrimStartMatches` strips. */
  function TrimmedCopies(s: string, pat: string): nat
    requires pat != []
    decreases |s|
  {
    if pat <= s then 1 + TrimmedCopies(s[|pat|..], pat) else 0
  }

  /**
   * The stripped string no longer starts with `pat`, and what was stripped
   * is a whole number of copies of `pat`.
   */
  lemma {:induction false} TrimStartMatchesSpec(s: string, pat: string)
    requires pat != []
    ensures !(pat <= TrimStartMatches(s, pat))
    ensures s == Repeat(pat, TrimmedCopies(s, pat)) + TrimStartMatches(s, pat)
  {
    if pat <= s {
      TrimStartMatchesSpec(s[|pat|..], pat);
      assert s == pat + s[|pat|..];
    }
  }

  /** A string that does not start with `pat` is left alone. */
  lemma TrimStartMatchesNoop(s: string, pat: string)
    requires pat != [] && !(pat <= s)
    ensures TrimStartMatches(s, pat) == s
  {
  }

  /**
   * The address fetched for `url`: the url itself without a proxy; with a
   * proxy, the proxy followed by the url stripped of leading "https://"
   * and then of leading "http://".
   */
  function TargetUrl(sa: StreamAnalyzer, url: string): string {
    match sa.proxyUrl
    case None => url
    case Some(proxy) => proxy + TrimStartMatches(TrimStartMatches(url, "https://"), "http://")
  }

  /**
   * Without a proxy the url is fetched as given; with one, the target is
   * the proxy followed by a suffix of the url that no longer starts with
   * "http://", and the part removed is copies of "https://" followed by
   * copies of "http://", where what follows the "https://" copies no
   * longer starts with "https://". `TargetUrlUnique` shows these
   * conditions leave only one possible suffix.
   */
  lemma TargetUrlSpec(sa: StreamAnalyzer, url: string)
    ensures sa.proxyUrl == None ==> TargetUrl(sa, url) == url
    ensures sa.proxyUrl.Some? ==>
              var rest := TargetUrl(sa, url)[|sa.proxyUrl.value|..];
              && sa.proxyUrl.value <= TargetUrl(sa, url)
              && !("http://" <= rest)
              && exists m: nat, n: nat ::
                   && url == Repeat("https://", m) + Repeat("http://", n) + rest
                   && !("https://" <= Repeat("http://", n) + rest)
  {
    if sa.proxyUrl.Some? {
      var proxy := sa.proxyUrl.value;
      var once := TrimStartMatches(url, "https://");
      var rest := TrimStartMatches(once, "http://");
      TrimStartMatchesSpec(url, "https://");
      TrimStartMatchesSpec(once, "http://");
      var m, n := TrimmedCopies(url, "https://"), TrimmedCopies(once, "http://");
      assert (proxy + rest)[|proxy|..] == rest;
      assert url == Repeat("https://", m) + Repeat("http://", n) + rest;
      assert once == Repeat("http://", n) + rest;
    }
  }

  /** Stripping `pat` from copies of `pat` followed by text that does not start with it leaves that text. */
  lemma {:induction false} TrimRepeat(pat: string, k: nat, s: string)
    requires pat != [] && !(pat <= s)
    ensures TrimStartMatches(Repeat(pat, k) + s, pat) == s
  {
    if k == 0 {
      assert Repeat(pat, k) + s == s;
    } else {
      var t := Repeat(pat, k - 1) + s;
      assert Repeat(pat, k) + s == pat + t;
      assert pat <= pat + t && (pat + t)[|pat|..] == t;
      TrimRepeat(pat, k - 1, s);
    }
  }

  /**
   * Through a proxy, any split of the url into copies of "https://", then
   * copies of "http://", then a rest, where neither prefix can be stripped
   * further, gives the proxy followed by that rest.
   */
  lemma TargetUrlUnique(proxy: string, limit: nat, url: string, m: nat, n: nat, rest: string)
    requires url == Repeat("https://", m) + Repeat("http://", n) + rest
    requires !("http://" <= rest)
    requires !("https://" <= Repeat("http://", n) + rest)
    ensures TargetUrl(WithProxy(limit, proxy), url) == proxy + rest
  {
    var once := Repeat("http://", n) + rest;
    assert url == Repeat("https://", m) + once;
    TrimRepeat("https://", m, once);
    TrimRepeat("http://", n, rest);
  }

  /** A url without either scheme prefix is appended to the proxy unchanged. */
  lemma TargetUrlPlain(proxy: string, url: string, limit: nat)
    requires !("https://" <= url) && !("http://" <= url)
    ensures TargetUrl(WithProxy(limit, proxy), url) == proxy + url
  {
    TrimStartMatchesNoop(url, "https://");
    TrimStartMatchesNoop(url, "http://");
  }

  /** Through a proxy, a url with one scheme prefix is sent as the proxy followed by the rest of the url. */
  lemma TargetUrlDropsScheme(proxy: string, scheme: string, host: string, limit: nat)
    requires scheme == "https://" || scheme == "http://"
    requires !("https://" <= host) && !("http://" <= host)
    ensures TargetUrl(WithProxy(limit, proxy), scheme + host) == proxy + host
  {
    var url := scheme + host;
    assert scheme <= url && url[|scheme|..] == host;
    TrimStartMatchesNoop(host, "https://");
    TrimStartMatchesNoop(host, "http://");
    if scheme == "http://" {
      assert "https://"[4] != "http://"[4];
      assert !("https://" <= url);
      TrimStartMatchesNoop(url, "https://");
    }
  }

  // ---------------------------------------------------------------------
  // Elements and their attributes
  // ---------------------------------------------------------------------

  /** The attribute pairs that decoded, in order; the others are skipped. */
  function DecodedPairs(attrs: seq<RawAttr>): (r: seq<(string, string)>)
    ensures |r| <= |attrs|
  {
    if attrs == [] then []
    else
      var last := attrs[|attrs| - 1];
      DecodedPairs(attrs[..|attrs| - 1]) + (if last.Decoded? then [(last.key, last.value)] else [])
  }

  /** Reading one more attribute adds its pair when it decoded, and nothing otherwise. */
  lemma DecodedPairsPrefix(attrs: seq<RawAttr>, i: nat)
    requires i < |attrs|
    ensures DecodedPairs(attrs[..i + 1])
         == DecodedPairs(attrs[..i]) + (if attrs[i].Decoded? then [(attrs[i].key, attrs[i].value)] else [])
  {
    assert attrs[..i + 1][..i] == attrs[..i];
  }

  /** Records, in order, the attributes of one element that decoded into its tag stats `t`. */
  method TallyDecoded(t: TagStats, attrs: seq<RawAttr>, limit: nat) returns (r: TagStats)
    ensures r == RecordAttributes(t, DecodedPairs(attrs), limit)
  {
    r := t;
    var i := 0;
    while i < |attrs|
      invariant 0 <= i <= |attrs|
      invariant r == RecordAttributes(t, DecodedPairs(attrs[..i]), limit)
    {
      DecodedPairsPrefix(attrs, i);
      if attrs[i].Decoded? {
        RecordAttributesSnoc(t, DecodedPairs(attrs[..i]), attrs[i].key, attrs[i].value, limit);
        r := TallyAttribute(r, attrs[i].key, attrs[i].value, limit);
      } else {
        assert DecodedPairs(attrs[..i]) + [] == DecodedPairs(attrs[..i]);
      }
      i := i + 1;
    }
    assert attrs[..i] == attrs;
  }

  /**
   * Records one start or self-closing tag: the tag's stats are created on
   * first encounter and counted, then each attribute that decoded is
   * recorded under the admission rule; attributes that failed to decode
   * leave no trace.
   */
  method ProcessElement(sa: StreamAnalyzer, name: string, attrs: seq<RawAttr>, result: AnalysisResult)
      returns (r: AnalysisResult)
    ensures r == result.(tags := RecordElement(result.tags, Element(name, DecodedPairs(attrs)), sa.topValuesLimit))
  {
    var ts := if name in result.tags then result.tags[name] else TagStats(name, 0, map[]);
    ts := ts.(count := ts.count + 1);
    ts := TallyDecoded(ts, attrs, sa.topValuesLimit);
    r := result.(tags := result.tags[name := ts]);
  }

  // ---------------------------------------------------------------------
  // The scan
  // ---------------------------------------------------------------------

  /** No event in `evs` is the end of input. */
  predicate NoEof(evs: seq<Event>) {
    forall i :: 0 <= i < |evs| ==> !evs[i].Eof?
  }

  /** The events the scan consumes: everything before the first `Eof`. */
  function UpToEof(evs: seq<Event>): (r: seq<Event>)
    ensures r <= evs && NoEof(r)
    ensures |r| < |evs| ==> evs[|r|].Eof?
  {
    if evs == [] || evs[0].Eof? then []
    else
      var r := [evs[0]] + UpToEof(evs[1..]);
      assert forall i :: 1 <= i < |r| ==> r[i] == UpToEof(evs[1..])[i - 1];
      r
  }

  /** The scan stops exactly where the first `Eof` is, or at the end of the input. */
  lemma {:induction false} UpToEofAt(evs: seq<Event>, i: nat)
    requires i <= |evs| && NoEof(evs[..i]) && (i == |evs| || evs[i].Eof?)
    ensures UpToEof(evs) == evs[..i]
  {
    if i > 0 {
      var tail := evs[1..];
      assert !evs[..i][0].Eof?;
      assert NoEof(tail[..i - 1]) by { assert forall k {:trigger tail[..i - 1][k]} :: 0 <= k < i - 1 ==> tail[..i - 1][k] == evs[..i][k + 1]; }
      UpToEofAt(tail, i - 1);
      assert evs[..i] == [evs[0]] + tail[..i - 1];
    }
  }

  /** The nesting depth after `evs`: a start opens a level, an end closes one unless none is open. */
  function Depth(evs: seq<Event>): nat {
    if evs == [] then 0
    else
      var d := Depth(evs[..|evs| - 1]);
      match evs[|evs| - 1]
      case Start(_, _) => d + 1
      case End => if d > 0 then d - 1 else d
      case _ => d
  }

  /** The deepest nesting any start event in `evs` reached. */
  function Peak(evs: seq<Event>): nat {
    if evs == [] then 0
    else
      var m := Peak(evs[..|evs| - 1]);
      var d := Depth(evs[..|evs| - 1]);
      if evs[|evs| - 1].Start? && d + 1 > m then d + 1 else m
  }

  /** The elements `evs` opens or self-closes, with their decoded attributes, in order. */
  function Elements(evs: seq<Event>): seq<Element> {
    if evs == [] then []
    else
      var last := evs[|evs| - 1];
      Elements(evs[..|evs| - 1]) + (if last.Start? || last.Empty? then [Element(last.name, DecodedPairs(last.attrs))] else [])
  }

  /** The result of scanning `evs`, none of which is `Eof`. */
  function Scan(evs: seq<Event>, limit: nat): AnalysisResult {
    AnalysisResult(RecordAll(map[], Elements(evs), limit), 1, Peak(evs))
  }

  /** Recording one more element at the end is one more `RecordElement`. */
  lemma RecordAllSnoc(tags: map<string, TagStats>, es: seq<Element>, e: Element, limit: nat)
    ensures RecordAll(tags, es + [e], limit) == RecordElement(RecordAll(tags, es, limit), e, limit)
  {
    assert (es + [e])[..|es|] == es;
  }

  /** What one more event does to the scan's depth, peak and elements. */
  lemma ScanSnoc(p: seq<Event>, e: Event, limit: nat)
    ensures Depth(p + [e]) == match e
      case Start(_, _) => Depth(p) + 1
      case End => if Depth(p) > 0 then Depth(p) - 1 else Depth(p)
      case _ => Depth(p)
    ensures Peak(p + [e]) == if e.Start? && Depth(p) + 1 > Peak(p) then Depth(p) + 1 else Peak(p)
    ensures Scan(p + [e], limit).tags
         == if e.Start? || e.Empty? then RecordElement(Scan(p, limit).tags, Element(e.name, DecodedPairs(e.attrs)), limit)
            else Scan(p, limit).tags
  {
    assert (p + [e])[..|p|] == p;
    if e.Start? || e.Empty? {
      assert Elements(p + [e]) == Elements(p) + [Element(e.name, DecodedPairs(e.attrs))];
      RecordAllSnoc(map[], Elements(p), Element(e.name, DecodedPairs(e.attrs)), limit);
    } else {
      assert Elements(p + [e]) == Elements(p) + [];
      assert Elements(p) + [] == Elements(p);
    }
  }

  /**
   * The scan: starts from one file, depth 0 and no tags; a start event
   * opens a level, raises the maximum depth and records the element; a
   * self-closing one only records it; an end event closes a level if one
   * is open; errors and other events are skipped; `Eof`, or running out of
   * events, stops.  The result is always a success.
   */
  method AnalyzeReader(sa: StreamAnalyzer, events: seq<Event>) returns (r: AnalysisResult)
    ensures r == Scan(UpToEof(events), sa.topValuesLimit)
  {
    var result := Fresh();
    var depth := 0;
    var i := 0;
    while i < |events| && !events[i].Eof?
      decreases |events| - i
      invariant 0 <= i <= |events| && NoEof(events[..i])
      invariant depth == Depth(events[..i])
      invariant result.filesAnalyzed == 1 && result.maxDepth == Peak(events[..i])
      invariant result.tags == Scan(events[..i], sa.topValuesLimit).tags
    {
      ghost var p := events[..i];
      assert events[..i + 1] == p + [events[i]];
      ScanSnoc(p, events[i], sa.topValuesLimit);
      match events[i] {
        case Start(name, attrs) =>
          depth := depth + 1;
          if depth > result.maxDepth {
            result := result.(maxDepth := depth);
          }
          result := ProcessElement(sa, name, attrs, result);
        case Empty(name, attrs) =>
          result := ProcessElement(sa, name, attrs, result);
        case End =>
          if depth > 0 {
            depth := depth - 1;
          }
        case _ =>
      }
      i := i + 1;
    }
    UpToEofAt(events, i);
    r := result;
  }

  // ---------------------------------------------------------------------
  // Properties of the scan
  // ---------------------------------------------------------------------

  /** An empty input, or one that ends at once, gives the fresh result. */
  lemma ScanEmpty(rest: seq<Event>, limit: nat)
    ensures Scan(UpToEof([]), limit) == Fresh()
    ensures Scan(UpToEof([Eof] + rest), limit) == Fresh()
  {
  }

  /** Nothing after the first `Eof` is read. */
  lemma EofStops(p: seq<Event>, rest: seq<Event>)
    requires NoEof(p)
    ensures UpToEof(p + [Eof] + rest) == p
  {
    var evs := p + [Eof] + rest;
    assert evs[..|p|] == p;
    UpToEofAt(evs, |p|);
  }

  /** A start event opens a level and the peak is at least the new depth. */
  lemma StartOpens(p: seq<Event>, name: string, attrs: seq<RawAttr>)
    ensures Depth(p + [Start(name, attrs)]) == Depth(p) + 1
    ensures Peak(p + [Start(name, attrs)]) >= Depth(p) + 1
    ensures Peak(p + [Start(name, attrs)]) >= Peak(p)
  {
    ScanSnoc(p, Start(name, attrs), 0);
  }

  /** A self-closing tag leaves the depth and the peak alone. */
  lemma EmptyKeepsDepth(p: seq<Event>, name: string, attrs: seq<RawAttr>)
    ensures Depth(p + [Empty(name, attrs)]) == Depth(p)
    ensures Peak(p + [Empty(name, attrs)]) == Peak(p)
  {
    ScanSnoc(p, Empty(name, attrs), 0);
  }

  /** An end event at depth 0 changes nothing at all. */
  lemma StrayEndIgnored(p: seq<Event>, limit: nat)
    requires Depth(p) == 0
    ensures Depth(p + [End]) == 0
    ensures Scan(p + [End], limit) == Scan(p, limit)
  {
    ScanSnoc(p, End, limit);
  }

  /** Errors and other events change nothing. */
  lemma SkippedEvents(p: seq<Event>, e: Event, limit: nat)
    requires e.Err? || e.Other?
    ensures Depth(p + [e]) == Depth(p)
    ensures Scan(p + [e], limit) == Scan(p, limit)
  {
    ScanSnoc(p, e, limit);
  }

  /** The peak is the deepest nesting any prefix of the events reached. */
  lemma {:induction false} PeakIsMaxDepth(evs: seq<Event>)
    ensures forall i :: 0 <= i <= |evs| ==> Depth(evs[..i]) <= Peak(evs)
    ensures exists i :: 0 <= i <= |evs| && Depth(evs[..i]) == Peak(evs)
  {
    if evs == [] {
      assert Depth(evs[..0]) == Peak(evs);
    } else {
      var p := evs[..|evs| - 1];
      PeakIsMaxDepth(p);
      assert evs[..|evs|] == evs;
      forall i | 0 <= i <= |p|
        ensures evs[..i] == p[..i]
      {
      }
      var j :| 0 <= j <= |p| && Depth(p[..j]) == Peak(p);
      if Peak(evs) != Peak(p) {
        assert Depth(evs[..|evs|]) == Peak(evs);
      } else {
        assert Depth(evs[..j]) == Peak(evs);
      }
    }
  }
}
