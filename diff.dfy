/**
 * What both versions of httpdiff report, as values rather than printed
 * lines, and the per-header comparison the two versions share.
 */
module Diff {
  import opened Http

  /** One line of httpdiff's report: one constructor per place that prints one. */
  datatype Finding =
    | NeedTwoUrls                                      // "Must specify two URLs to test"
    | BadHeader(line: string)                          // "Bad header ..." (then exit 2)
    | FetchFailed(index: nat, message: string)         // "Error doing ..."
    | StatusDiffers(status0: int, status1: int)        // "Different status code"
    | HeaderCountDiffers(name: string, count0: int, count1: int)  // "Different number of ... headers"
    | HeaderValueDiffers(name: string, index: nat, value0: string, value1: string)  // "... header different"
    | UniqueHeadersTitle                               // "Unique headers", heading that block
    | UniqueHeaders(side: nat, names: string)          // a line of the "Unique headers" block
    | HasUniqueHeader(side: nat, name: string)         // "... has ... header (... does not)"
    | BodyLengthsDiffer(length0: int, length1: int)    // "Body lengths differ"
    | BodiesDiffer                                     // "Bodies are different"

  // ---------------------------------------------------------------------------
  // Orders of iteration over a Go map
  // ---------------------------------------------------------------------------

  predicate Distinct(s: seq<string>) {
    forall i, j :: 0 <= i < j < |s| ==> s[i] != s[j]
  }

  /**
   * `order` lists every key of a map exactly once: one of the orders in which
   * a Go `for h := range m` loop may visit the keys.
   */
  ghost predicate IsOrdering(order: seq<string>, keys: set<string>) {
    Distinct(order) && forall k :: k in order <==> k in keys
  }

  /**
   * One step of a `for h := range m` loop: visiting a key not yet visited
   * keeps the visited keys distinct and exactly those no longer pending.
   */
  lemma OrderStep(order: seq<string>, rest: set<string>, keys: set<string>, h: string)
    requires rest <= keys && h in rest
    requires forall k :: k in order <==> k in keys && k !in rest
    requires Distinct(order)
    ensures forall k :: k in order + [h] <==> k in keys && k !in rest - {h}
    ensures Distinct(order + [h])
  {
  }

  /** A list without repetitions has as many elements as it has entries. */
  lemma {:induction false} DistinctCard(s: seq<string>)
    requires Distinct(s)
    ensures |(set x | x in s)| == |s|
  {
    if s != [] {
      var n := |s| - 1;
      assert Distinct(s[..n]);
      DistinctCard(s[..n]);
      assert (set x | x in s) == (set x | x in s[..n]) + {s[n]};
    }
  }

  /** An order visits as many keys as the map has. */
  lemma OrderingLength(order: seq<string>, keys: set<string>)
    requires IsOrdering(order, keys)
    ensures |order| == |keys|
  {
    DistinctCard(order);
    assert (set x | x in order) == keys;
  }

  /** A map with a single key can be visited in one order only. */
  lemma OrderingOfSingleton(order: seq<string>, k: string)
    requires IsOrdering(order, {k})
    ensures order == [k]
  {
    OrderingLength(order, {k});
    assert order[0] in order;
  }

  // ---------------------------------------------------------------------------
  // Joining the two fetches
  // ---------------------------------------------------------------------------

  /** The "Error doing" lines for the slots, in slot order. */
  function Failures(slots: seq<Outcome>): (r: seq<Finding>)
    ensures forall j :: 0 <= j < |r| ==>
      r[j].FetchFailed? && r[j].index < |slots| && slots[r[j].index] == Failed(r[j].message)
  {
    if slots == [] then []
    else
      var n := |slots| - 1;
      Failures(slots[..n]) + (if slots[n].Failed? then [FetchFailed(n, slots[n].message)] else [])
  }

  /** Every failing slot is reported, with its message. */
  lemma {:induction false} FailuresCover(slots: seq<Outcome>)
    ensures forall i :: 0 <= i < |slots| && slots[i].Failed? ==>
      FetchFailed(i, slots[i].message) in Failures(slots)
  {
    if slots != [] {
      var n := |slots| - 1;
      FailuresCover(slots[..n]);
      assert forall i :: 0 <= i < n ==> slots[..n][i] == slots[i];
    }
  }

  /** When every fetch succeeded nothing is reported. */
  lemma {:induction false} FailuresNone(slots: seq<Outcome>)
    requires forall i :: 0 <= i < |slots| ==> slots[i].Fetched?
    ensures Failures(slots) == []
  {
    if slots != [] {
      FailuresNone(slots[..|slots| - 1]);
    }
  }

  /** Failing slots are reported in slot order, each once. */
  lemma {:induction false} FailuresOrdered(slots: seq<Outcome>)
    ensures forall j, k :: 0 <= j < k < |Failures(slots)| ==>
      Failures(slots)[j].index < Failures(slots)[k].index
  {
    if slots != [] {
      var n := |slots| - 1;
      FailuresOrdered(slots[..n]);
      var prefix := Failures(slots[..n]);
      assert forall j :: 0 <= j < |prefix| ==> Failures(slots)[j] == prefix[j] && prefix[j].index < n;
    }
  }

  // ---------------------------------------------------------------------------
  // Status and one shared header
  // ---------------------------------------------------------------------------

  function StatusFindings(status0: int, status1: int): seq<Finding> {
    if status0 != status1 then [StatusDiffers(status0, status1)] else []
  }

  /**
   * The value-by-value comparison of a header whose two value lists have the
   * same length, from position `from` on: every finding is about a position
   * where the two values differ and carries those values.
   */
  function ValueFindings(name: string, v0: seq<string>, v1: seq<string>, from: nat): (r: seq<Finding>)
    requires |v0| == |v1| && from <= |v0|
    ensures forall j :: 0 <= j < |r| ==>
      && r[j].HeaderValueDiffers? && r[j].name == name
      && from <= r[j].index < |v0|
      && r[j].value0 == v0[r[j].index] && r[j].value1 == v1[r[j].index]
      && r[j].value0 != r[j].value1
    decreases |v0| - from
  {
    if from == |v0| then []
    else
      var here := if v0[from] != v1[from]
        then [HeaderValueDiffers(name, from, v0[from], v1[from])] else [];
      here + ValueFindings(name, v0, v1, from + 1)
  }

  /** The first position of the value comparison, then the rest. */
  lemma ValueFindingsStep(name: string, v0: seq<string>, v1: seq<string>, from: nat)
    requires |v0| == |v1| && from < |v0|
    ensures ValueFindings(name, v0, v1, from) ==
      (if v0[from] != v1[from] then [HeaderValueDiffers(name, from, v0[from], v1[from])] else [])
      + ValueFindings(name, v0, v1, from + 1)
  {
  }

  lemma Associate(a: seq<Finding>, b: seq<Finding>, c: seq<Finding>)
    ensures a + b + c == a + (b + c)
  {
  }

  /** Every position where the two values differ gets its finding. */
  lemma {:induction false} ValueFindingsCover(name: string, v0: seq<string>, v1: seq<string>, from: nat)
    requires |v0| == |v1| && from <= |v0|
    ensures forall i :: from <= i < |v0| && v0[i] != v1[i] ==>
      HeaderValueDiffers(name, i, v0[i], v1[i]) in ValueFindings(name, v0, v1, from)
    decreases |v0| - from
  {
    if from < |v0| {
      ValueFindingsCover(name, v0, v1, from + 1);
    }
  }

  /** The value findings come in position order, each position once. */
  lemma {:induction false} ValueFindingsOrdered(name: string, v0: seq<string>, v1: seq<string>, from: nat)
    requires |v0| == |v1| && from <= |v0|
    ensures forall j, k :: 0 <= j < k < |ValueFindings(name, v0, v1, from)| ==>
      ValueFindings(name, v0, v1, from)[j].index < ValueFindings(name, v0, v1, from)[k].index
    decreases |v0| - from
  {
    if from < |v0| {
      ValueFindingsOrdered(name, v0, v1, from + 1);
      ValueFindingsStep(name, v0, v1, from);
      var rest := ValueFindings(name, v0, v1, from + 1);
      var r := ValueFindings(name, v0, v1, from);
      var h := |r| - |rest|;
      forall j, k | 0 <= j < k < |r|
        ensures r[j].index < r[k].index
      {
        if j < h {
          assert r[j].index == from;
        } else {
          assert r[j] == rest[j - h] && r[k] == rest[k - h];
        }
      }
    }
  }

  /**
   * One header present on both sides: a count mismatch is reported alone;
   * with equal counts the values are compared position by position.
   */
  function HeaderFindings(name: string, v0: seq<string>, v1: seq<string>): seq<Finding> {
    if |v0| != |v1| then [HeaderCountDiffers(name, |v0|, |v1|)]
    else ValueFindings(name, v0, v1, 0)
  }

  /** What the header loop reports for header `h`: nothing unless `h` is on both sides and not excluded. */
  function PairFindings(h0: Headers, h1: Headers, exclude: set<string>, h: string): seq<Finding> {
    if h in exclude || h !in h0 || h !in h1 then []
    else HeaderFindings(h, h0[h], h1[h])
  }

  /** The header loop visiting the keys of side 0 in `order`. */
  function SharedFindings(h0: Headers, h1: Headers, exclude: set<string>, order: seq<string>): seq<Finding> {
    if order == [] then []
    else
      var n := |order| - 1;
      SharedFindings(h0, h1, exclude, order[..n]) + PairFindings(h0, h1, exclude, order[n])
  }

  /** The header loop after one more key. */
  lemma SharedFindingsSnoc(h0: Headers, h1: Headers, exclude: set<string>, order: seq<string>, h: string)
    ensures SharedFindings(h0, h1, exclude, order + [h]) ==
      SharedFindings(h0, h1, exclude, order) + PairFindings(h0, h1, exclude, h)
  {
    assert (order + [h])[..|order|] == order;
  }

  // ---------------------------------------------------------------------------
  // The findings about one header, whatever the order of the map
  // ---------------------------------------------------------------------------

  /** A count or value finding about header `h`. */
  predicate Mentions(f: Finding, h: string) {
    (f.HeaderCountDiffers? || f.HeaderValueDiffers?) && f.name == h
  }

  /** The findings of `fs` about header `h`, in their order. */
  function About(fs: seq<Finding>, h: string): seq<Finding> {
    if fs == [] then []
    else
      var n := |fs| - 1;
      About(fs[..n], h) + (if Mentions(fs[n], h) then [fs[n]] else [])
  }

  lemma {:induction false} AboutAppend(a: seq<Finding>, b: seq<Finding>, h: string)
    ensures About(a + b, h) == About(a, h) + About(b, h)
    decreases |b|
  {
    if b == [] {
      assert a + b == a;
    } else {
      var n := |b| - 1;
      assert (a + b)[..|a + b| - 1] == a + b[..n];
      AboutAppend(a, b[..n], h);
    }
  }

  /** Filtering findings that all mention `k` keeps all of them for `k` and none for any other header. */
  lemma {:induction false} AboutUniform(fs: seq<Finding>, k: string, h: string)
    requires forall j :: 0 <= j < |fs| ==> Mentions(fs[j], k)
    ensures About(fs, h) == if h == k then fs else []
  {
    if fs != [] {
      var n := |fs| - 1;
      AboutUniform(fs[..n], k, h);
      assert fs[..n] + [fs[n]] == fs;
    }
  }

  /** Findings that mention no header at all are dropped by the filter. */
  lemma {:induction false} AboutNone(fs: seq<Finding>, h: string)
    requires forall j :: 0 <= j < |fs| ==> !fs[j].HeaderCountDiffers? && !fs[j].HeaderValueDiffers?
    ensures About(fs, h) == []
  {
    if fs != [] {
      AboutNone(fs[..|fs| - 1], h);
    }
  }

  lemma PairFindingsMention(h0: Headers, h1: Headers, exclude: set<string>, k: string)
    ensures forall j :: 0 <= j < |PairFindings(h0, h1, exclude, k)| ==>
      Mentions(PairFindings(h0, h1, exclude, k)[j], k)
  {
  }

  /**
   * Whatever order the loop visits the keys in, the findings about header `h`
   * are exactly what `h` alone produces: nothing when `h` is excluded or
   * missing on either side, a single count finding when the counts differ, and
   * otherwise the value findings in position order.
   */
  lemma {:induction false} SharedFindingsPerHeader(
    h0: Headers, h1: Headers, exclude: set<string>, order: seq<string>, h: string)
    requires Distinct(order)
    ensures About(SharedFindings(h0, h1, exclude, order), h) ==
      if h in order then PairFindings(h0, h1, exclude, h) else []
  {
    if order != [] {
      var n := |order| - 1;
      var k := order[n];
      assert Distinct(order[..n]);
      SharedFindingsPerHeader(h0, h1, exclude, order[..n], h);
      AboutAppend(SharedFindings(h0, h1, exclude, order[..n]), PairFindings(h0, h1, exclude, k), h);
      PairFindingsMention(h0, h1, exclude, k);
      AboutUniform(PairFindings(h0, h1, exclude, k), k, h);
      assert h in order <==> h in order[..n] || h == k;
      assert h == k ==> h !in order[..n];
    }
  }

  /** Equal value lists give no value findings. */
  lemma {:induction false} SameValuesNoFindings(name: string, v: seq<string>, from: nat)
    requires from <= |v|
    ensures ValueFindings(name, v, v, from) == []
    decreases |v| - from
  {
    if from < |v| {
      SameValuesNoFindings(name, v, from + 1);
    }
  }

  /** Side 0 compared with itself: the header loop finds nothing, in any order. */
  lemma {:induction false} SharedFindingsOfSame(h: Headers, exclude: set<string>, order: seq<string>)
    ensures SharedFindings(h, h, exclude, order) == []
  {
    if order != [] {
      var n := |order| - 1;
      SharedFindingsOfSame(h, exclude, order[..n]);
      var k := order[n];
      if k !in exclude && k in h {
        SameValuesNoFindings(k, h[k], 0);
      }
    }
  }
}
