/**
 * The bounded value histogram: a counted set that admits at most `limit`
 * distinct values, first seen first admitted, and keeps exact counts for
 * the values it admitted.
 */
module Histogram {

  type Counts = map<string, nat>

  /** The admission rule: a value is counted when the histogram still has room or already tracks it. */
  predicate Admits(vc: Counts, v: string, limit: nat) {
    |vc| < limit || v in vc
  }

  /** One arriving value `v` applied to the histogram `vc` under the admission limit. */
  function Admit(vc: Counts, v: string, limit: nat): Counts
  {
    if Admits(vc, v, limit) then
      vc[v := (if v in vc then vc[v] else 0) + 1]
    else
      vc
  }

  /**
   * An admitted value gains exactly one count (entering at 1 when new); a
   * rejected value changes nothing; no other value's count moves; and a
   * histogram within the limit stays within it.
   */
  lemma AdmitEffect(vc: Counts, v: string, limit: nat)
    ensures Admits(vc, v, limit) ==> v in Admit(vc, v, limit) && Admit(vc, v, limit)[v] == (if v in vc then vc[v] else 0) + 1
    ensures !Admits(vc, v, limit) ==> v !in Admit(vc, v, limit) && Admit(vc, v, limit) == vc
    ensures Admit(vc, v, limit).Keys == vc.Keys + (if Admits(vc, v, limit) then {v} else {})
    ensures forall k :: k in vc && k != v ==> Admit(vc, v, limit)[k] == vc[k]
    ensures |vc| <= limit ==> |Admit(vc, v, limit)| <= limit
  {
  }

  /** The histogram after the values `vs` arrived, in order, starting from `vc`. */
  function AdmitAll(vc: Counts, vs: seq<string>, limit: nat): Counts
  {
    if vs == [] then vc else Admit(AdmitAll(vc, vs[..|vs| - 1], limit), vs[|vs| - 1], limit)
  }

  /** Number of occurrences of `v` in `vs`. */
  function Occurrences(vs: seq<string>, v: string): nat
  {
    if vs == [] then 0
    else Occurrences(vs[..|vs| - 1], v) + (if vs[|vs| - 1] == v then 1 else 0)
  }

  /** The distinct values of `vs` in order of first occurrence. */
  function FirstDistinct(vs: seq<string>): seq<string>
  {
    if vs == [] then []
    else
      var d := FirstDistinct(vs[..|vs| - 1]);
      if vs[|vs| - 1] in d then d else d + [vs[|vs| - 1]]
  }

  /** A value occurs zero times exactly when it is absent. */
  lemma {:induction false} OccurrencesZero(vs: seq<string>, v: string)
    ensures Occurrences(vs, v) == 0 <==> v !in vs
  {
    if vs != [] {
      OccurrencesZero(vs[..|vs| - 1], v);
      assert v in vs <==> v in vs[..|vs| - 1] || v == vs[|vs| - 1];
    }
  }

  /** The first-distinct values are exactly the values that occur. */
  lemma {:induction false} FirstDistinctElems(vs: seq<string>)
    ensures forall x :: x in FirstDistinct(vs) <==> x in vs
  {
    if vs != [] {
      FirstDistinctElems(vs[..|vs| - 1]);
      assert forall x :: x in vs <==> x in vs[..|vs| - 1] || x == vs[|vs| - 1];
    }
  }

  /** No value appears twice among the first-distinct values. */
  lemma {:induction false} FirstDistinctIsDistinct(vs: seq<string>)
    ensures forall i, j :: 0 <= i < j < |FirstDistinct(vs)| ==> FirstDistinct(vs)[i] != FirstDistinct(vs)[j]
  {
    if vs != [] {
      FirstDistinctIsDistinct(vs[..|vs| - 1]);
    }
  }

  /** The first `n` elements of `s`, or all of `s` when it is shorter. */
  function Take(s: seq<string>, n: nat): (t: seq<string>)
    ensures |t| == if |s| < n then |s| else n
    ensures t <= s
  {
    if |s| < n then s else s[..n]
  }

  /** Sum of the counts held by a histogram. */
  ghost function Sum(vc: Counts): nat
  {
    if vc == map[] then 0
    else
      var k :| k in vc;
      vc[k] + Sum(vc - {k})
  }

  /** True when every value of `vs`, arriving after `vc`, was admitted. */
  predicate AllAdmitted(vc: Counts, vs: seq<string>, limit: nat)
  {
    vs == [] ||
    (AllAdmitted(vc, vs[..|vs| - 1], limit) && Admits(AdmitAll(vc, vs[..|vs| - 1], limit), vs[|vs| - 1], limit))
  }

  /** Taking any key out of the sum, whichever key the definition picks. */
  lemma {:induction false} SumRemove(vc: Counts, k: string)
    requires k in vc
    ensures Sum(vc) == vc[k] + Sum(vc - {k})
    decreases |vc|
  {
    var j :| j in vc && Sum(vc) == vc[j] + Sum(vc - {j});
    if j != k {
      assert |vc - {j}| < |vc|;
      assert |vc - {k}| < |vc|;
      SumRemove(vc - {j}, k);
      SumRemove(vc - {k}, j);
      assert vc - {j} - {k} == vc - {k} - {j};
    }
  }

  /** Counting one more `v` raises the sum by exactly one. */
  lemma {:induction false} SumBump(vc: Counts, v: string)
    ensures Sum(vc[v := (if v in vc then vc[v] else 0) + 1]) == Sum(vc) + 1
  {
    var r := vc[v := (if v in vc then vc[v] else 0) + 1];
    SumRemove(r, v);
    if v in vc {
      SumRemove(vc, v);
      assert r - {v} == vc - {v};
    } else {
      assert r - {v} == vc;
    }
  }

  /** The sum grows by one exactly when the value is admitted, and is unchanged otherwise. */
  lemma {:induction false} AdmitSum(vc: Counts, v: string, limit: nat)
    ensures Sum(Admit(vc, v, limit)) == Sum(vc) + (if Admits(vc, v, limit) then 1 else 0)
  {
    if Admits(vc, v, limit) {
      SumBump(vc, v);
    }
  }

  /** Admitting values one by one is the same as admitting their concatenation. */
  lemma {:induction false} AdmitAllAppend(vc: Counts, a: seq<string>, b: seq<string>, limit: nat)
    ensures AdmitAll(vc, a + b, limit) == AdmitAll(AdmitAll(vc, a, limit), b, limit)
    decreases |b|
  {
    if b == [] {
      assert a + b == a;
    } else {
      assert (a + b)[..|a + b| - 1] == a + b[..|b| - 1];
      AdmitAllAppend(vc, a, b[..|b| - 1], limit);
    }
  }

  /** A histogram that starts within the limit stays within it. */
  lemma {:induction false} AdmitAllBounded(vc: Counts, vs: seq<string>, limit: nat)
    requires |vc| <= limit
    ensures |AdmitAll(vc, vs, limit)| <= limit
  {
    if vs != [] {
      AdmitAllBounded(vc, vs[..|vs| - 1], limit);
      AdmitEffect(AdmitAll(vc, vs[..|vs| - 1], limit), vs[|vs| - 1], limit);
    }
  }

  /** Arriving values never remove a tracked value and never lower a count. */
  lemma {:induction false} AdmitAllKeeps(vc: Counts, vs: seq<string>, limit: nat)
    ensures forall k :: k in vc ==> k in AdmitAll(vc, vs, limit) && vc[k] <= AdmitAll(vc, vs, limit)[k]
  {
    if vs != [] {
      AdmitAllKeeps(vc, vs[..|vs| - 1], limit);
      AdmitEffect(AdmitAll(vc, vs[..|vs| - 1], limit), vs[|vs| - 1], limit);
    }
  }

  /**
   * The sum grows by exactly the number of values that arrived when, and
   * only when, every one of them was admitted; otherwise it grows by less.
   */
  lemma {:induction false} AdmitAllSum(vc: Counts, vs: seq<string>, limit: nat)
    ensures Sum(AdmitAll(vc, vs, limit)) <= Sum(vc) + |vs|
    ensures Sum(AdmitAll(vc, vs, limit)) == Sum(vc) + |vs| <==> AllAdmitted(vc, vs, limit)
  {
    if vs != [] {
      var p := vs[..|vs| - 1];
      AdmitAllSum(vc, p, limit);
      AdmitSum(AdmitAll(vc, p, limit), vs[|vs| - 1], limit);
    }
  }

  /** The set of the elements of a sequence. */
  ghost function Elems(s: seq<string>): set<string> {
    set x | x in s
  }

  /** The tracked keys and their counts, as `FirstDistinctTracked` states them. */
  ghost predicate TracksFirst(vs: seq<string>, limit: nat, h: Counts) {
    && h.Keys == Elems(Take(FirstDistinct(vs), limit))
    && |h| == |Take(FirstDistinct(vs), limit)|
    && forall x :: x in h ==> h[x] == Occurrences(vs, x)
  }

  /** The last value of `vs` does not change how often any other value occurs. */
  lemma OccurrencesOthers(vs: seq<string>, x: string)
    requires vs != [] && x != vs[|vs| - 1]
    ensures Occurrences(vs, x) == Occurrences(vs[..|vs| - 1], x)
  {
  }

  /** Counting one more `v` keeps every count equal to its number of occurrences. */
  lemma {:induction false} CountsStayExact(vs: seq<string>, h: Counts)
    requires vs != []
    requires forall x :: x in h ==> h[x] == Occurrences(vs[..|vs| - 1], x)
    requires vs[|vs| - 1] in h || vs[|vs| - 1] !in vs[..|vs| - 1]
    ensures var v := vs[|vs| - 1];
      forall x :: x in h[v := (if v in h then h[v] else 0) + 1] ==>
        h[v := (if v in h then h[v] else 0) + 1][x] == Occurrences(vs, x)
  {
    var v := vs[|vs| - 1];
    var r := h[v := (if v in h then h[v] else 0) + 1];
    forall x | x in r
      ensures r[x] == Occurrences(vs, x)
    {
      if x != v {
        OccurrencesOthers(vs, x);
      } else if v !in h {
        OccurrencesZero(vs[..|vs| - 1], v);
      }
    }
  }

  /** `TracksFirst` after a value the histogram already tracks. */
  lemma {:induction false} TracksFirstRepeat(vs: seq<string>, limit: nat, h: Counts)
    requires vs != [] && TracksFirst(vs[..|vs| - 1], limit, h) && vs[|vs| - 1] in h
    ensures TracksFirst(vs, limit, Admit(h, vs[|vs| - 1], limit))
  {
    var p, v := vs[..|vs| - 1], vs[|vs| - 1];
    assert FirstDistinct(vs) == FirstDistinct(p) by {
      assert v in FirstDistinct(p);
    }
    var r := Admit(h, v, limit);
    assert r == h[v := h[v] + 1];
    assert r.Keys == h.Keys;
    CountsStayExact(vs, h);
  }

  /** `TracksFirst` after a new value that still fits under the limit. */
  lemma {:induction false} TracksFirstAdmitNew(vs: seq<string>, limit: nat, h: Counts)
    requires vs != [] && TracksFirst(vs[..|vs| - 1], limit, h)
    requires vs[|vs| - 1] !in h && |h| < limit
    ensures TracksFirst(vs, limit, Admit(h, vs[|vs| - 1], limit))
  {
    var p, v := vs[..|vs| - 1], vs[|vs| - 1];
    var d := FirstDistinct(p);
    assert Take(d, limit) == d;
    assert v !in p by {
      FirstDistinctElems(p);
      assert v !in d;
    }
    assert FirstDistinct(vs) == d + [v];
    assert Take(d + [v], limit) == d + [v];
    assert Elems(d + [v]) == Elems(d) + {v};
    assert Admit(h, v, limit) == h[v := 1];
    CountsStayExact(vs, h);
  }

  /** `TracksFirst` after a new value that arrives when the histogram is full. */
  lemma {:induction false} TracksFirstReject(vs: seq<string>, limit: nat, h: Counts)
    requires vs != [] && TracksFirst(vs[..|vs| - 1], limit, h)
    requires vs[|vs| - 1] !in h && |h| >= limit
    ensures TracksFirst(vs, limit, Admit(h, vs[|vs| - 1], limit))
  {
    var p, v := vs[..|vs| - 1], vs[|vs| - 1];
    var d, d' := FirstDistinct(p), FirstDistinct(vs);
    assert Take(d', limit) == Take(d, limit) by {
      assert d' == d || d' == d + [v];
      assert |d| >= limit;
    }
    forall x | x in h
      ensures h[x] == Occurrences(vs, x)
    {
      OccurrencesOthers(vs, x);
    }
  }

  /** One arriving value keeps `TracksFirst`. */
  lemma {:induction false} TracksFirstStep(vs: seq<string>, limit: nat, h: Counts)
    requires vs != [] && TracksFirst(vs[..|vs| - 1], limit, h)
    ensures TracksFirst(vs, limit, Admit(h, vs[|vs| - 1], limit))
  {
    if vs[|vs| - 1] in h {
      TracksFirstRepeat(vs, limit, h);
    } else if |h| < limit {
      TracksFirstAdmitNew(vs, limit, h);
    } else {
      TracksFirstReject(vs, limit, h);
    }
  }

  /**
   * Starting from an empty histogram, the tracked values are exactly the
   * first `limit` distinct values in order of arrival, and each tracked
   * value's count is its exact number of occurrences.
   */
  lemma {:induction false} FirstDistinctTracked(vs: seq<string>, limit: nat)
    ensures TracksFirst(vs, limit, AdmitAll(map[], vs, limit))
  {
    if vs == [] {
      assert Elems([]) == {};
    } else {
      FirstDistinctTracked(vs[..|vs| - 1], limit);
      TracksFirstStep(vs, limit, AdmitAll(map[], vs[..|vs| - 1], limit));
    }
  }

  /** Nothing is ever rejected from an empty histogram exactly when the values hold at most `limit` distinct ones. */
  lemma {:induction false} AllAdmittedIffFits(vs: seq<string>, limit: nat)
    ensures AllAdmitted(map[], vs, limit) <==> |FirstDistinct(vs)| <= limit
  {
    if vs != [] {
      var p, v := vs[..|vs| - 1], vs[|vs| - 1];
      AllAdmittedIffFits(p, limit);
      FirstDistinctTracked(p, limit);
      var h, d := AdmitAll(map[], p, limit), FirstDistinct(p);
      if |d| <= limit {
        assert Take(d, limit) == d;
        assert v in h <==> v in d;
      }
    }
  }
}
