/**
 * The aggregate result of one analysis and the accumulator's single
 * operation, "record one element", shared by the tree walk and the stream
 * scan.  Everything here is append/increment only.
 */
module Stats {
  import opened Histogram

  /** Per attribute key within one tag: how many elements carried the key, and the bounded value histogram. */
  datatype AttributeStats = AttributeStats(name: string, count: nat, valueCounts: Counts)

  /** Per distinct tag name: how many elements had the name, and their attributes. */
  datatype TagStats = TagStats(name: string, count: nat, attributes: map<string, AttributeStats>)

  /** The result of one analysis. */
  datatype AnalysisResult = AnalysisResult(tags: map<string, TagStats>, filesAnalyzed: nat, maxDepth: nat)

  /** One element as the accumulator sees it: its tag name and its (key, value) pairs in order. */
  datatype Element = Element(name: string, attributes: seq<(string, string)>)

  /** The result every analysis starts from: no tags, one file, depth 0. */
  function Fresh(): (r: AnalysisResult)
    ensures r.tags == map[] && r.filesAnalyzed == 1 && r.maxDepth == 0
  {
    AnalysisResult(map[], 1, 0)
  }

  /** The stats of tag `name`, or the zero stats inserted on first encounter. */
  function TagOf(tags: map<string, TagStats>, name: string): TagStats {
    if name in tags then tags[name] else TagStats(name, 0, map[])
  }

  /** The stats of attribute `key` in `t`, or the zero stats inserted on first encounter. */
  function AttrOf(t: TagStats, key: string): AttributeStats {
    if key in t.attributes then t.attributes[key] else AttributeStats(key, 0, map[])
  }

  /** The values given to attribute `key` in `attrs`, in order. */
  function ValuesOf(attrs: seq<(string, string)>, key: string): (vs: seq<string>)
    ensures |vs| <= |attrs|
  {
    if attrs == [] then []
    else
      var last := attrs[|attrs| - 1];
      ValuesOf(attrs[..|attrs| - 1], key) + (if last.0 == key then [last.1] else [])
  }

  /** The keys that occur in `attrs`. */
  function KeysOf(attrs: seq<(string, string)>): set<string> {
    set i | 0 <= i < |attrs| :: attrs[i].0
  }

  /** Records one attribute occurrence `key = value` of an element whose tag stats are `t`. */
  function RecordAttribute(t: TagStats, key: string, value: string, limit: nat): TagStats
  {
    var a := AttrOf(t, key);
    t.(attributes := t.attributes[key := a.(count := a.count + 1, valueCounts := Admit(a.valueCounts, value, limit))])
  }

  /** Records every attribute of one element, in order. */
  function RecordAttributes(t: TagStats, attrs: seq<(string, string)>, limit: nat): TagStats
  {
    if attrs == [] then t
    else RecordAttribute(RecordAttributes(t, attrs[..|attrs| - 1], limit), attrs[|attrs| - 1].0, attrs[|attrs| - 1].1, limit)
  }

  /** Records one element visit: its tag count grows by one and its attributes are recorded. */
  function RecordElement(tags: map<string, TagStats>, e: Element, limit: nat): map<string, TagStats>
  {
    var t := TagOf(tags, e.name);
    tags[e.name := RecordAttributes(t.(count := t.count + 1), e.attributes, limit)]
  }

  /**
   * One attribute occurrence recorded in place: the attribute's entry is
   * created on first encounter, its count grows, and the value is counted
   * when the histogram has room or already holds it.
   */
  method TallyAttribute(t: TagStats, key: string, value: string, limit: nat) returns (r: TagStats)
    ensures r == RecordAttribute(t, key, value, limit)
  {
    var a := if key in t.attributes then t.attributes[key] else AttributeStats(key, 0, map[]);
    ghost var found := a.valueCounts;
    a := a.(count := a.count + 1);
    if |a.valueCounts| < limit || value in a.valueCounts {
      a := a.(valueCounts := a.valueCounts[value := (if value in a.valueCounts then a.valueCounts[value] else 0) + 1]);
    }
    assert a.valueCounts == Admit(found, value, limit);
    r := t.(attributes := t.attributes[key := a]);
  }

  /** Recording one more attribute pair at the end is one more `RecordAttribute`. */
  lemma RecordAttributesSnoc(t: TagStats, attrs: seq<(string, string)>, key: string, value: string, limit: nat)
    ensures RecordAttributes(t, attrs + [(key, value)], limit) == RecordAttribute(RecordAttributes(t, attrs, limit), key, value, limit)
  {
    assert (attrs + [(key, value)])[..|attrs|] == attrs;
  }

  /** Recording attributes leaves the tag's own name and count alone. */
  lemma {:induction false} RecordAttributesHeader(t: TagStats, attrs: seq<(string, string)>, limit: nat)
    ensures RecordAttributes(t, attrs, limit).name == t.name
    ensures RecordAttributes(t, attrs, limit).count == t.count
  {
    if attrs != [] {
      RecordAttributesHeader(t, attrs[..|attrs| - 1], limit);
    }
  }

  /** A key occurs in `attrs` iff it occurs in all but the last pair or is the last pair's key. */
  lemma KeysOfLast(attrs: seq<(string, string)>)
    requires attrs != []
    ensures KeysOf(attrs) == KeysOf(attrs[..|attrs| - 1]) + {attrs[|attrs| - 1].0}
  {
    var p := attrs[..|attrs| - 1];
    forall key | key in KeysOf(attrs)
      ensures key in KeysOf(p) + {attrs[|attrs| - 1].0}
    {
      var i :| 0 <= i < |attrs| && attrs[i].0 == key;
      if i < |p| {
        assert p[i] == attrs[i];
      }
    }
    forall key | key in KeysOf(p)
      ensures key in KeysOf(attrs)
    {
      var i :| 0 <= i < |p| && p[i].0 == key;
      assert attrs[i] == p[i];
    }
  }

  /**
   * Attribute `key` is present after recording `attrs` iff it was before or
   * occurs in `attrs`; its count grows by the number of its occurrences, and
   * its histogram receives its values in order.
   */
  lemma {:induction false} RecordAttributesEffect(t: TagStats, attrs: seq<(string, string)>, limit: nat, key: string)
    ensures key in RecordAttributes(t, attrs, limit).attributes <==> key in t.attributes || key in KeysOf(attrs)
    ensures AttrOf(RecordAttributes(t, attrs, limit), key).name == AttrOf(t, key).name
    ensures AttrOf(RecordAttributes(t, attrs, limit), key).count == AttrOf(t, key).count + |ValuesOf(attrs, key)|
    ensures AttrOf(RecordAttributes(t, attrs, limit), key).valueCounts
         == AdmitAll(AttrOf(t, key).valueCounts, ValuesOf(attrs, key), limit)
  {
    if attrs == [] {
      assert KeysOf(attrs) == {};
    } else {
      var p, last := attrs[..|attrs| - 1], attrs[|attrs| - 1];
      RecordAttributesEffect(t, p, limit, key);
      KeysOfLast(attrs);
      if last.0 == key {
        AdmitAllAppend(AttrOf(t, key).valueCounts, ValuesOf(p, key), [last.1], limit);
      } else {
        assert ValuesOf(attrs, key) == ValuesOf(p, key);
      }
    }
  }

  /**
   * Recording one element inserts its tag name if absent and raises that
   * tag's count by exactly one; every other tag is unchanged.
   */
  lemma RecordElementEffect(tags: map<string, TagStats>, e: Element, limit: nat, name: string)
    ensures RecordElement(tags, e, limit).Keys == tags.Keys + {e.name}
    ensures name != e.name ==> TagOf(RecordElement(tags, e, limit), name) == TagOf(tags, name)
    ensures RecordElement(tags, e, limit)[e.name].name == TagOf(tags, e.name).name
    ensures RecordElement(tags, e, limit)[e.name].count == TagOf(tags, e.name).count + 1
  {
    RecordElementShape(tags, e, limit, name);
    RecordElementHeader(tags, e, limit);
  }

  /** Recording one element adds its tag name and leaves every other tag alone. */
  lemma RecordElementShape(tags: map<string, TagStats>, e: Element, limit: nat, name: string)
    ensures RecordElement(tags, e, limit).Keys == tags.Keys + {e.name}
    ensures name != e.name ==> TagOf(RecordElement(tags, e, limit), name) == TagOf(tags, name)
  {
  }

  /** Recording one element keeps its tag's name and raises its count by one. */
  lemma RecordElementHeader(tags: map<string, TagStats>, e: Element, limit: nat)
    ensures RecordElement(tags, e, limit)[e.name].name == TagOf(tags, e.name).name
    ensures RecordElement(tags, e, limit)[e.name].count == TagOf(tags, e.name).count + 1
  {
    var t := TagOf(tags, e.name);
    RecordAttributesHeader(t.(count := t.count + 1), e.attributes, limit);
  }

  /** Records a sequence of element visits, in order. */
  function RecordAll(tags: map<string, TagStats>, es: seq<Element>, limit: nat): map<string, TagStats>
  {
    if es == [] then tags else RecordElement(RecordAll(tags, es[..|es| - 1], limit), es[|es| - 1], limit)
  }

  /** Number of elements named `name` in `es`. */
  function CountTag(es: seq<Element>, name: string): (n: nat)
    ensures n <= |es|
  {
    if es == [] then 0
    else CountTag(es[..|es| - 1], name) + (if es[|es| - 1].name == name then 1 else 0)
  }

  /** The values an element gives to attribute `key` of tag `name`: its own values for `key` when it is named `name`. */
  function ElementValues(e: Element, name: string, key: string): seq<string> {
    if e.name == name then ValuesOf(e.attributes, key) else []
  }

  /** The values given to attribute `key` by the elements named `name` in `es`, in order. */
  function Values(es: seq<Element>, name: string, key: string): seq<string>
  {
    if es == [] then []
    else Values(es[..|es| - 1], name, key) + ElementValues(es[|es| - 1], name, key)
  }

  /** An attribute record is consistent when its name is its key, its histogram respects the limit and `count >= Sum`. */
  ghost predicate AttrConsistent(key: string, a: AttributeStats, limit: nat) {
    a.name == key && |a.valueCounts| <= limit && a.count >= Sum(a.valueCounts)
  }

  /** A tag record is consistent when its name is its key and all its attribute records are consistent. */
  ghost predicate TagConsistent(name: string, t: TagStats, limit: nat) {
    t.name == name && forall k :: k in t.attributes ==> AttrConsistent(k, t.attributes[k], limit)
  }

  /**
   * Every stored record's name equals its map key, no histogram holds more
   * than `limit` values, and every attribute's count is at least the sum of
   * its histogram.
   */
  ghost predicate Consistent(tags: map<string, TagStats>, limit: nat) {
    forall n :: n in tags ==> TagConsistent(n, tags[n], limit)
  }

  /** `after` keeps every key of `before` and no count of `before` is lower in `after`. */
  ghost predicate Extends(before: map<string, TagStats>, after: map<string, TagStats>) {
    forall n :: n in before ==>
      && n in after
      && after[n].count >= before[n].count
      && forall k :: k in before[n].attributes ==>
        && k in after[n].attributes
        && after[n].attributes[k].count >= before[n].attributes[k].count
        && forall v :: v in before[n].attributes[k].valueCounts ==>
          && v in after[n].attributes[k].valueCounts
          && after[n].attributes[k].valueCounts[v] >= before[n].attributes[k].valueCounts[v]
  }

  /** Recording the attributes of one element keeps each attribute record consistent. */
  lemma RecordAttributesConsistent(t: TagStats, attrs: seq<(string, string)>, limit: nat, key: string)
    requires AttrConsistent(key, AttrOf(t, key), limit)
    ensures AttrConsistent(key, AttrOf(RecordAttributes(t, attrs, limit), key), limit)
  {
    RecordAttributesEffect(t, attrs, limit, key);
    AdmitAllBounded(AttrOf(t, key).valueCounts, ValuesOf(attrs, key), limit);
    AdmitAllSum(AttrOf(t, key).valueCounts, ValuesOf(attrs, key), limit);
  }

  /** Recording one element keeps the recorded tag consistent. */
  lemma RecordTagConsistent(t: TagStats, e: Element, limit: nat)
    requires TagConsistent(e.name, t, limit)
    ensures TagConsistent(e.name, RecordAttributes(t.(count := t.count + 1), e.attributes, limit), limit)
  {
    var t' := t.(count := t.count + 1);
    var r := RecordAttributes(t', e.attributes, limit);
    RecordAttributesHeader(t', e.attributes, limit);
    forall k | k in r.attributes
      ensures AttrConsistent(k, r.attributes[k], limit)
    {
      assert AttrConsistent(k, AttrOf(t', k), limit);
      RecordAttributesConsistent(t', e.attributes, limit, k);
    }
  }

  /** Recording one element keeps `Consistent`. */
  lemma RecordElementConsistent(tags: map<string, TagStats>, e: Element, limit: nat)
    requires Consistent(tags, limit)
    ensures Consistent(RecordElement(tags, e, limit), limit)
  {
    var r := RecordElement(tags, e, limit);
    var t := TagOf(tags, e.name);
    assert TagConsistent(e.name, t, limit);
    RecordTagConsistent(t, e, limit);
    forall n | n in r
      ensures TagConsistent(n, r[n], limit)
    {
      if n != e.name {
        RecordElementEffect(tags, e, limit, n);
        assert TagOf(r, n) == TagOf(tags, n);
      }
    }
  }

  /** Recording a sequence of elements keeps `Consistent`. */
  lemma {:induction false} RecordAllConsistent(tags: map<string, TagStats>, es: seq<Element>, limit: nat)
    requires Consistent(tags, limit)
    ensures Consistent(RecordAll(tags, es, limit), limit)
  {
    if es != [] {
      RecordAllConsistent(tags, es[..|es| - 1], limit);
      RecordElementConsistent(RecordAll(tags, es[..|es| - 1], limit), es[|es| - 1], limit);
    }
  }

  /** Recording an element never removes a key and never lowers a count. */
  lemma RecordElementExtends(tags: map<string, TagStats>, e: Element, limit: nat)
    ensures Extends(tags, RecordElement(tags, e, limit))
  {
    var r := RecordElement(tags, e, limit);
    forall n | n in tags
      ensures n in r && r[n].count >= tags[n].count
      ensures forall k :: k in tags[n].attributes ==>
        && k in r[n].attributes
        && r[n].attributes[k].count >= tags[n].attributes[k].count
        && forall v :: v in tags[n].attributes[k].valueCounts ==>
          && v in r[n].attributes[k].valueCounts
          && r[n].attributes[k].valueCounts[v] >= tags[n].attributes[k].valueCounts[v]
    {
      RecordElementEffect(tags, e, limit, n);
      if n == e.name {
        var t := tags[n];
        forall k | k in t.attributes
          ensures k in r[n].attributes
          ensures r[n].attributes[k].count >= t.attributes[k].count
          ensures forall v :: v in t.attributes[k].valueCounts ==>
            && v in r[n].attributes[k].valueCounts
            && r[n].attributes[k].valueCounts[v] >= t.attributes[k].valueCounts[v]
        {
          RecordAttributesEffect(t.(count := t.count + 1), e.attributes, limit, k);
          assert AttrOf(r[n], k) == r[n].attributes[k];
          AdmitAllKeeps(t.attributes[k].valueCounts, ValuesOf(e.attributes, k), limit);
        }
      } else {
        assert TagOf(r, n) == TagOf(tags, n);
      }
    }
  }

  /** Recording one element feeds its values for `key` into the histogram of (`name`, `key`) and counts them. */
  lemma RecordElementAttr(tags: map<string, TagStats>, e: Element, limit: nat, name: string, key: string)
    ensures AttrOf(TagOf(RecordElement(tags, e, limit), name), key).count
         == AttrOf(TagOf(tags, name), key).count + |ElementValues(e, name, key)|
    ensures AttrOf(TagOf(RecordElement(tags, e, limit), name), key).valueCounts
         == AdmitAll(AttrOf(TagOf(tags, name), key).valueCounts, ElementValues(e, name, key), limit)
  {
    if e.name == name {
      var t := TagOf(tags, name);
      var t' := t.(count := t.count + 1);
      assert TagOf(RecordElement(tags, e, limit), name) == RecordAttributes(t', e.attributes, limit);
      RecordAttributesEffect(t', e.attributes, limit, key);
      assert AttrOf(t', key) == AttrOf(t, key);
    } else {
      RecordElementEffect(tags, e, limit, name);
    }
  }

  /** Recording a sequence of elements adds to tag `name` exactly the number of elements with that name. */
  lemma {:induction false} RecordAllTagCount(tags: map<string, TagStats>, es: seq<Element>, limit: nat, name: string)
    ensures name in RecordAll(tags, es, limit) <==> name in tags || CountTag(es, name) > 0
    ensures TagOf(RecordAll(tags, es, limit), name).count == TagOf(tags, name).count + CountTag(es, name)
  {
    if es != [] {
      var p, e := es[..|es| - 1], es[|es| - 1];
      RecordAllTagCount(tags, p, limit, name);
      RecordElementEffect(RecordAll(tags, p, limit), e, limit, name);
    }
  }

  /**
   * Recording a sequence of elements adds to attribute `key` of tag `name`
   * exactly the number of values given to it, and leaves its histogram as if
   * those values had arrived one by one.
   */
  lemma {:induction false} RecordAllAttr(tags: map<string, TagStats>, es: seq<Element>, limit: nat, name: string, key: string)
    ensures AttrOf(TagOf(RecordAll(tags, es, limit), name), key).count
         == AttrOf(TagOf(tags, name), key).count + |Values(es, name, key)|
    ensures AttrOf(TagOf(RecordAll(tags, es, limit), name), key).valueCounts
         == AdmitAll(AttrOf(TagOf(tags, name), key).valueCounts, Values(es, name, key), limit)
  {
    if es != [] {
      var p, e := es[..|es| - 1], es[|es| - 1];
      RecordAllAttr(tags, p, limit, name, key);
      RecordElementAttr(RecordAll(tags, p, limit), e, limit, name, key);
      AdmitAllAppend(AttrOf(TagOf(tags, name), key).valueCounts, Values(p, name, key), ElementValues(e, name, key), limit);
    }
  }
}
