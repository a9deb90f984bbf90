/**
 The median time anchor: a bounded window of signed time assertions, a median, a drift filter around it,
 and a second median over what is left. Times are real numbers.
 */
module TimeAnchor {
  import opened Wrappers
  import opened Sorting
  import M = OrderedMaps

  datatype Assertion = Assertion(
    nodeId: string, assertedAtMs: real, signature: string, pcr0Hash: string, validUntilMs: Option<real>)

  datatype Anchor = Anchor(anchorMs: real, includedNodeIds: seq<string>, outlierNodeIds: seq<string>)

  const WINDOW_MAX_SIZE: nat := 32
  const DRIFT_THRESHOLD_MS: real := 5000.0
  const DEFAULT_REQUIRED_MIN: nat := 3

  predicate RealLe(x: real, y: real) {
    x <= y
  }

  function MedianOfSorted(s: seq<real>): real
    requires s != []
  {
    var mid := |s| / 2;
    if |s| % 2 == 0 then (s[mid - 1] + s[mid]) / 2.0 else s[mid]
  }

  function Median(s: seq<real>): real
    requires s != []
  {
    MedianOfSorted(Sort(RealLe, s))
  }

  function Times(values: seq<Assertion>): (ts: seq<real>)
    ensures |ts| == |values|
    ensures forall i :: 0 <= i < |ts| ==> ts[i] == values[i].assertedAtMs
  {
    seq(|values|, i requires 0 <= i < |values| => values[i].assertedAtMs)
  }

  function NodeIds(values: seq<Assertion>): (ids: seq<string>)
    ensures |ids| == |values|
    ensures forall i :: 0 <= i < |ids| ==> ids[i] == values[i].nodeId
  {
    seq(|values|, i requires 0 <= i < |values| => values[i].nodeId)
  }

  predicate Near(a: Assertion, median: real) {
    var drift := if a.assertedAtMs >= median then a.assertedAtMs - median else median - a.assertedAtMs;
    drift <= DRIFT_THRESHOLD_MS
  }

  /** The assertions within the drift threshold of the median, or (`near` false) the others. */
  function Filter(values: seq<Assertion>, median: real, near: bool): seq<Assertion> {
    if values == [] then []
    else if Near(values[0], median) == near then [values[0]] + Filter(values[1..], median, near)
    else Filter(values[1..], median, near)
  }

  /** `computeMedianAnchor`. */
  function AnchorOf(values: seq<Assertion>, requiredMin: nat): Result<Anchor, string> {
    if values == [] then Err("NO_ASSERTIONS")
    else
      var median := Median(Times(values));
      AnchorFrom(Filter(values, median, true), Filter(values, median, false), requiredMin)
  }

  function AnchorFrom(included: seq<Assertion>, outliers: seq<Assertion>, requiredMin: nat): Result<Anchor, string> {
    if |included| < requiredMin then Err("INSUFFICIENT_QUORUM_AFTER_FILTERING")
    else if included == [] then Err("medianOfSorted: empty")
    else Ok(Anchor(Median(Times(included)), Sort(StringLe, NodeIds(included)), Sort(StringLe, NodeIds(outliers))))
  }

  // ----- how many times lie in an interval

  function CountIn(s: seq<real>, lo: real, hi: real): nat {
    if s == [] then 0 else (if lo <= s[0] <= hi then 1 else 0) + CountIn(s[1..], lo, hi)
  }

  lemma {:induction false} InsertKeepsCount(x: real, s: seq<real>, lo: real, hi: real)
    ensures CountIn(Insert(RealLe, x, s), lo, hi) == CountIn([x] + s, lo, hi)
  {
    assert ([x] + s)[1..] == s;
    if s != [] && !RealLe(x, s[0]) {
      InsertKeepsCount(x, s[1..], lo, hi);
      assert ([x] + s[1..])[1..] == s[1..];
      assert Insert(RealLe, x, s)[1..] == Insert(RealLe, x, s[1..]);
    }
  }

  lemma {:induction false} SortKeepsCount(s: seq<real>, lo: real, hi: real)
    ensures CountIn(Sort(RealLe, s), lo, hi) == CountIn(s, lo, hi)
  {
    if s != [] {
      SortKeepsCount(s[1..], lo, hi);
      InsertKeepsCount(s[0], Sort(RealLe, s[1..]), lo, hi);
      assert ([s[0]] + Sort(RealLe, s[1..]))[1..] == Sort(RealLe, s[1..]);
    }
  }

  lemma {:induction false} CountOfParts(s: seq<real>, k: nat, lo: real, hi: real)
    requires k <= |s|
    ensures CountIn(s, lo, hi) == CountIn(s[..k], lo, hi) + CountIn(s[k..], lo, hi)
  {
    if k > 0 {
      CountOfParts(s[1..], k - 1, lo, hi);
      assert s[..k][1..] == s[1..][..k - 1] && s[1..][k - 1..] == s[k..];
    } else {
      assert s[0..] == s;
    }
  }

  lemma {:induction false} CountAtMostLength(s: seq<real>, lo: real, hi: real)
    ensures CountIn(s, lo, hi) <= |s|
    ensures (forall i :: 0 <= i < |s| ==> !(lo <= s[i] <= hi)) ==> CountIn(s, lo, hi) == 0
  {
    if s != [] {
      CountAtMostLength(s[1..], lo, hi);
    }
  }

  /** If more than half of a sorted list lies in an interval, so does every middle element. */
  lemma {:induction false} MiddleLiesWithMajority(s: seq<real>, i: nat, lo: real, hi: real)
    requires Sorted(RealLe, s) && 2 * CountIn(s, lo, hi) > |s|
    requires i < |s| && |s| - 1 <= 2 * i + 1 && 2 * i <= |s|
    ensures lo <= s[i] <= hi
  {
    assert forall k, l :: 0 <= k < l < |s| ==> RealLe(s[k], s[l]);
    if s[i] < lo {
      CountOfParts(s, i + 1, lo, hi);
      CountAtMostLength(s[..i + 1], lo, hi);
      CountAtMostLength(s[i + 1..], lo, hi);
    } else if s[i] > hi {
      CountOfParts(s, i, lo, hi);
      CountAtMostLength(s[..i], lo, hi);
      CountAtMostLength(s[i..], lo, hi);
    }
  }

  lemma RealLeIsTotalPreorder()
    ensures TotalPreorder(RealLe)
  {
  }

  lemma {:induction false} MedianLiesWithMajority(s: seq<real>, lo: real, hi: real)
    requires 2 * CountIn(s, lo, hi) > |s|
    ensures s != [] && lo <= Median(s) <= hi
  {
    var sorted := Sort(RealLe, s);
    RealLeIsTotalPreorder();
    SortSorts(RealLe, s);
    SortKeepsCount(s, lo, hi);
    CountAtMostLength(s, lo, hi);
    MiddleLiesWithMajority(sorted, |s| / 2, lo, hi);
    if |s| % 2 == 0 {
      MiddleLiesWithMajority(sorted, |s| / 2 - 1, lo, hi);
    }
  }

  // ----- the filter

  predicate Within(a: Assertion, lo: real, hi: real) {
    lo <= a.assertedAtMs <= hi
  }

  lemma {:induction false} FilterKeepsTheMajority(values: seq<Assertion>, median: real, lo: real, hi: real)
    requires lo <= median <= hi && hi - lo <= DRIFT_THRESHOLD_MS
    ensures var included := Filter(values, median, true);
      && CountIn(Times(included), lo, hi) == CountIn(Times(values), lo, hi)
      && |included| <= |values|
      && (forall a :: a in values && Within(a, lo, hi) ==> a in included)
      && (forall a :: a in Filter(values, median, false) ==> !Within(a, lo, hi))
  {
    if values != [] {
      FilterKeepsTheMajority(values[1..], median, lo, hi);
      var rest := Filter(values[1..], median, true);
      assert Times(values)[1..] == Times(values[1..]);
      assert Times([values[0]] + rest)[1..] == Times(rest);
    }
  }

  /**
   Robustness: if strictly more than half of the held assertions lie in an interval no wider than the
   drift threshold, none of these is filtered out and any anchor lies in the interval, whatever the other
   assertions say; and an anchor is returned whenever these alone meet the required minimum.
   */
  lemma {:induction false} AnchorFollowsMajority(values: seq<Assertion>, requiredMin: nat, lo: real, hi: real)
    requires 2 * CountIn(Times(values), lo, hi) > |values| && hi - lo <= DRIFT_THRESHOLD_MS
    ensures AnchorOf(values, requiredMin).Ok? ==> lo <= AnchorOf(values, requiredMin).value.anchorMs <= hi
    ensures CountIn(Times(values), lo, hi) >= requiredMin ==> AnchorOf(values, requiredMin).Ok?
    ensures values != [] && forall a :: a in values && Within(a, lo, hi) ==>
      a in Filter(values, Median(Times(values)), true)
  {
    var median := Median(Times(values));
    MedianLiesWithMajority(Times(values), lo, hi);
    FilterKeepsTheMajority(values, median, lo, hi);
    var included := Filter(values, median, true);
    CountAtMostLength(Times(included), lo, hi);
    MedianLiesWithMajority(Times(included), lo, hi);
  }

  /** Half is not enough: two assertions, one of them in [0, 0], anchor at 1. */
  lemma HalfIsNotEnough(a: Assertion, b: Assertion)
    requires a.assertedAtMs == 0.0 && b.assertedAtMs == 2.0
    ensures 2 * CountIn(Times([a, b]), 0.0, 0.0) == 2
    ensures AnchorOf([a, b], 2).Ok? && AnchorOf([a, b], 2).value.anchorMs == 1.0
  {
    var values := [a, b];
    assert Times(values) == [0.0, 2.0] && [0.0, 2.0][1..] == [2.0];
    MedianOfTwo();
    assert values[1..] == [b] && Filter([b], 1.0, true) == [b];
    assert Filter(values, 1.0, true) == values;
    assert AnchorOf(values, 2) == AnchorFrom(values, Filter(values, 1.0, false), 2);
  }

  lemma MedianOfTwo()
    ensures Median([0.0, 2.0]) == 1.0
  {
    assert [0.0, 2.0][1..] == [2.0];
    assert Sort(RealLe, [2.0]) == [2.0];
    assert Sort(RealLe, [0.0, 2.0]) == [0.0, 2.0];
  }

  // ----- the filter and the anchor, spelled out

  /** The middle value of an ascending list, or half the sum of the two middle ones. */
  lemma MedianOfSortedSpelledOut(s: seq<real>)
    requires s != []
    ensures |s| % 2 == 1 ==> MedianOfSorted(s) == s[|s| / 2]
    ensures |s| % 2 == 0 ==> 2.0 * MedianOfSorted(s) == s[|s| / 2 - 1] + s[|s| / 2]
  {
  }

  // The times within an interval, in order.
  function TimesWithin(ts: seq<real>, lo: real, hi: real): seq<real> {
    if ts == [] then []
    else if lo <= ts[0] <= hi then [ts[0]] + TimesWithin(ts[1..], lo, hi)
    else TimesWithin(ts[1..], lo, hi)
  }

  lemma {:induction false} FilteredTimes(values: seq<Assertion>, m: real)
    ensures Times(Filter(values, m, true)) == TimesWithin(Times(values), m - 5000.0, m + 5000.0)
  {
    if values != [] {
      var kept := Filter(values[1..], m, true);
      FilteredTimes(values[1..], m);
      assert Times(values)[1..] == Times(values[1..]);
      assert Times([values[0]] + kept) == [values[0].assertedAtMs] + Times(kept);
    }
  }

  lemma {:induction false} FilterSpelledOut(values: seq<Assertion>, m: real)
    ensures forall a :: a in Filter(values, m, true) <==> a in values && m - 5000.0 <= a.assertedAtMs <= m + 5000.0
    ensures forall a :: a in Filter(values, m, false) <==> a in values && !(m - 5000.0 <= a.assertedAtMs <= m + 5000.0)
  {
    if values != [] {
      FilterSpelledOut(values[1..], m);
      assert values == [values[0]] + values[1..];
    }
  }

  lemma {:induction false} AllCountIn(s: seq<real>, lo: real, hi: real)
    ensures CountIn(TimesWithin(s, lo, hi), lo, hi) == |TimesWithin(s, lo, hi)|
  {
    if s != [] {
      AllCountIn(s[1..], lo, hi);
      assert ([s[0]] + TimesWithin(s[1..], lo, hi))[1..] == TimesWithin(s[1..], lo, hi);
    }
  }

  lemma SortedIdsSpelledOut(kept: seq<Assertion>, id: string)
    ensures id in Sort(StringLe, NodeIds(kept)) <==> exists a :: a in kept && a.nodeId == id
    ensures Sorted(StringLe, Sort(StringLe, NodeIds(kept))) && |Sort(StringLe, NodeIds(kept))| == |kept|
  {
    var sorted := Sort(StringLe, NodeIds(kept));
    StringLeIsTotalPreorder();
    SortSorts(StringLe, NodeIds(kept));
    assert id in multiset(sorted) <==> id in multiset(NodeIds(kept));
    if id in NodeIds(kept) {
      var i :| 0 <= i < |kept| && NodeIds(kept)[i] == id;
      assert kept[i] in kept;
    }
    if exists a :: a in kept && a.nodeId == id {
      var a :| a in kept && a.nodeId == id;
      var i :| 0 <= i < |kept| && kept[i] == a;
      assert NodeIds(kept)[i] == id;
    }
  }

  lemma AnchorFromTimes(included: seq<Assertion>, outliers: seq<Assertion>, requiredMin: nat, near: seq<real>)
    requires near == Times(included)
    ensures var r := AnchorFrom(included, outliers, requiredMin);
      (r.Ok? <==> |near| >= requiredMin && |near| >= 1) && (r.Ok? ==> r.value.anchorMs == Median(near))
  {
  }

  lemma {:induction false} MedianOfNear(ts: seq<real>, lo: real, hi: real)
    requires TimesWithin(ts, lo, hi) != []
    ensures lo <= Median(TimesWithin(ts, lo, hi)) <= hi
  {
    AllCountIn(ts, lo, hi);
    MedianLiesWithMajority(TimesWithin(ts, lo, hi), lo, hi);
  }

  /**
   The anchor of a window: with m the median of all held times, it is there exactly if enough of them, and at least
   one, lie within 5000 of m. It is then the median of these, itself within 5000 of m.
   */
  lemma {:induction false} AnchorSpelledOut(values: seq<Assertion>, requiredMin: nat, m: real, near: seq<real>)
    requires values != [] && m == Median(Times(values)) && near == TimesWithin(Times(values), m - 5000.0, m + 5000.0)
    ensures AnchorOf([], requiredMin).Err?
    ensures AnchorOf(values, requiredMin).Ok? <==> |near| >= requiredMin && |near| >= 1
    ensures AnchorOf(values, requiredMin).Ok? ==>
      var anchorMs := AnchorOf(values, requiredMin).value.anchorMs;
      anchorMs == Median(near) && m - 5000.0 <= anchorMs <= m + 5000.0
  {
    FilteredTimes(values, m);
    AnchorFromTimes(Filter(values, m, true), Filter(values, m, false), requiredMin, near);
    if near != [] {
      MedianOfNear(Times(values), m - 5000.0, m + 5000.0);
    }
  }

  /** And who is listed: a node is an outlier exactly if it holds a time more than 5000 from the median, else included. */
  lemma {:induction false} ListsSpelledOut(values: seq<Assertion>, requiredMin: nat, id: string)
    requires values != [] && AnchorOf(values, requiredMin).Ok?
    ensures var m, anchor := Median(Times(values)), AnchorOf(values, requiredMin).value;
      && (id in anchor.outlierNodeIds <==>
            exists a :: a in values && a.nodeId == id && (a.assertedAtMs - m > 5000.0 || m - a.assertedAtMs > 5000.0))
      && (id in anchor.includedNodeIds <==>
            exists a :: a in values && a.nodeId == id && a.assertedAtMs - m <= 5000.0 && m - a.assertedAtMs <= 5000.0)
      && Sorted(StringLe, anchor.includedNodeIds) && Sorted(StringLe, anchor.outlierNodeIds)
  {
    var m := Median(Times(values));
    FilterSpelledOut(values, m);
    SortedIdsSpelledOut(Filter(values, m, true), id);
    SortedIdsSpelledOut(Filter(values, m, false), id);
  }

  /** Which assertions are taken in. */
  lemma AcceptableSpelledOut(signatureOk: SignatureCheck, a: Assertion)
    ensures Acceptable(signatureOk, a) <==>
      && a.nodeId != "" && a.pcr0Hash != "" && a.signature != "" && signatureOk(a)
      && (a.validUntilMs == None || a.validUntilMs.value > a.assertedAtMs)
  {
  }

  lemma {:induction false} SortOfSorted(s: seq<real>)
    requires Sorted(RealLe, s)
    ensures Sort(RealLe, s) == s
  {
    RealLeIsTotalPreorder();
    SortSorts(RealLe, s);
    SortedIsUnique(RealLe, s, Sort(RealLe, s));
  }

  lemma MedianOfAscending(s: seq<real>)
    requires s != [] && Sorted(RealLe, s)
    ensures Median(s) == MedianOfSorted(s)
  {
    SortOfSorted(s);
  }

  lemma {:induction false} FirstTwoAreNear(ts: seq<real>)
    requires |ts| == 3 && ts[0] == 0.0 && ts[1] == 1000.0 && ts[2] == 10000.0
    ensures TimesWithin(ts, 1000.0 - 5000.0, 1000.0 + 5000.0) == ts[..2]
  {
    var one, two := ts[1..], ts[1..][1..];
    assert one[0] == ts[1] && two[0] == ts[2] && two[1..] == [];
    assert TimesWithin(two, 1000.0 - 5000.0, 1000.0 + 5000.0) == [];
    assert TimesWithin(one, 1000.0 - 5000.0, 1000.0 + 5000.0) == [ts[1]];
    assert ts[..2] == [ts[0]] + [ts[1]];
  }

  /** Three times of which the third is far off: too few are left for the default minimum, enough for two. */
  lemma {:induction false} OutlierIsFiltered(values: seq<Assertion>)
    requires |values| == 3 && values[0].assertedAtMs == 0.0 && values[1].assertedAtMs == 1000.0
    requires values[2].assertedAtMs == 10000.0
    ensures AnchorOf(values, DEFAULT_REQUIRED_MIN).Err?
    ensures AnchorOf(values, 2).Ok? && AnchorOf(values, 2).value.anchorMs == 500.0
  {
    var ts := Times(values);
    var near := ts[..2];
    MedianOfAscending(ts);
    MedianOfAscending(near);
    FirstTwoAreNear(ts);
    AnchorSpelledOut(values, 3, 1000.0, near);
    AnchorSpelledOut(values, 2, 1000.0, near);
  }

  // ----- order of ingestion

  lemma TakeOutOf<T>(s: seq<T>, rest: seq<T>, i: nat)
    requires i < |s| && rest == s[..i] + s[i + 1..]
    ensures multiset(s) == multiset(rest) + multiset{s[i]}
  {
    assert s == s[..i] + [s[i]] + s[i + 1..];
  }

  // Taking one assertion out of the middle.
  lemma TakeOut(values: seq<Assertion>, i: nat) returns (rest: seq<Assertion>)
    requires i < |values|
    ensures |rest| == |values| - 1
    ensures multiset(values) == multiset(rest) + multiset{values[i]}
    ensures multiset(Times(values)) == multiset(Times(rest)) + multiset{values[i].assertedAtMs}
    ensures multiset(NodeIds(values)) == multiset(NodeIds(rest)) + multiset{values[i].nodeId}
  {
    rest := values[..i] + values[i + 1..];
    TakeOutOf(values, rest, i);
    TakeOutOf(Times(values), Times(rest), i);
    TakeOutOf(NodeIds(values), NodeIds(rest), i);
  }

  lemma {:induction false} TimesMultiset(values: seq<Assertion>, others: seq<Assertion>)
    requires multiset(values) == multiset(others)
    ensures multiset(Times(values)) == multiset(Times(others))
    ensures multiset(NodeIds(values)) == multiset(NodeIds(others))
    decreases |values|
  {
    assert |values| == |multiset(values)| && |others| == |multiset(others)|;
    if values != [] {
      var left, right := TakeOutCommon(values, others);
      TimesMultiset(left, right);
    }
  }

  lemma TakeOutCommon(values: seq<Assertion>, others: seq<Assertion>) returns (left: seq<Assertion>, right: seq<Assertion>)
    requires multiset(values) == multiset(others) && values != []
    ensures multiset(left) == multiset(right) && |left| < |values|
    ensures multiset(Times(values)) == multiset(Times(left)) + multiset{values[0].assertedAtMs}
    ensures multiset(Times(others)) == multiset(Times(right)) + multiset{values[0].assertedAtMs}
    ensures multiset(NodeIds(values)) == multiset(NodeIds(left)) + multiset{values[0].nodeId}
    ensures multiset(NodeIds(others)) == multiset(NodeIds(right)) + multiset{values[0].nodeId}
  {
    var i := IndexIn(values[0], values, others);
    left := TakeOut(values, 0);
    right := TakeOut(others, i);
    CancelOne(multiset(left), multiset(right), values[0]);
  }

  lemma CancelOne<T>(a: multiset<T>, b: multiset<T>, x: T)
    requires a + multiset{x} == b + multiset{x}
    ensures a == b
  {
    assert a == (a + multiset{x}) - multiset{x} && b == (b + multiset{x}) - multiset{x};
  }

  lemma {:induction false} FilterMultiset(values: seq<Assertion>, others: seq<Assertion>, median: real, near: bool)
    requires multiset(values) == multiset(others)
    ensures multiset(Filter(values, median, near)) == multiset(Filter(others, median, near))
  {
    forall a
      ensures multiset(Filter(values, median, near))[a] == multiset(Filter(others, median, near))[a]
    {
      FilterMultiplicity(values, median, near, a);
      FilterMultiplicity(others, median, near, a);
    }
  }

  lemma {:induction false} FilterMultiplicity(values: seq<Assertion>, median: real, near: bool, a: Assertion)
    ensures multiset(Filter(values, median, near))[a] == if Near(a, median) == near then multiset(values)[a] else 0
  {
    if values != [] {
      assert values == [values[0]] + values[1..];
      FilterMultiplicity(values[1..], median, near, a);
    }
  }

  lemma {:induction false} SortedTimesAgree(s: seq<real>, t: seq<real>)
    requires multiset(s) == multiset(t)
    ensures Sort(RealLe, s) == Sort(RealLe, t)
  {
    RealLeIsTotalPreorder();
    SortIgnoresOrder(RealLe, s, t);
  }

  lemma {:induction false} SortedIdsAgree(s: seq<string>, t: seq<string>)
    requires multiset(s) == multiset(t)
    ensures Sort(StringLe, s) == Sort(StringLe, t)
  {
    StringLeIsTotalPreorder();
    forall x, y | x in s && y in s && StringLe(x, y) && StringLe(y, x)
      ensures x == y
    {
      StringLeTotal(x, y);
    }
    SortIgnoresOrder(StringLe, s, t);
  }

  lemma MedianAgrees(values: seq<Assertion>, others: seq<Assertion>)
    requires multiset(values) == multiset(others)
    ensures Sort(RealLe, Times(values)) == Sort(RealLe, Times(others))
    ensures Sort(StringLe, NodeIds(values)) == Sort(StringLe, NodeIds(others))
    ensures |values| == |others|
  {
    assert |values| == |multiset(values)| && |others| == |multiset(others)|;
    TimesMultiset(values, others);
    SortedTimesAgree(Times(values), Times(others));
    SortedIdsAgree(NodeIds(values), NodeIds(others));
  }

  /** The anchor depends on which assertions are held, not on the order of their ingestion. */
  lemma AnchorIgnoresOrder(values: seq<Assertion>, others: seq<Assertion>, requiredMin: nat)
    requires multiset(values) == multiset(others)
    ensures AnchorOf(values, requiredMin) == AnchorOf(others, requiredMin)
  {
    MedianAgrees(values, others);
    if values != [] {
      var median := Median(Times(values));
      FilterMultiset(values, others, median, true);
      FilterMultiset(values, others, median, false);
      AnchorFromAgrees(Filter(values, median, true), Filter(values, median, false),
                       Filter(others, median, true), Filter(others, median, false), requiredMin);
    }
  }

  lemma AnchorFromAgrees(a: seq<Assertion>, x: seq<Assertion>, b: seq<Assertion>, y: seq<Assertion>, requiredMin: nat)
    requires multiset(a) == multiset(b) && multiset(x) == multiset(y)
    ensures AnchorFrom(a, x, requiredMin) == AnchorFrom(b, y, requiredMin)
  {
    MedianAgrees(a, b);
    MedianAgrees(x, y);
  }

  // ----- time locks

  /** `verifyTimeLocksInEnclave`: None stands for the error thrown while the enclave is not ready. */
  function VerifyTimeLocks(enclaveReady: bool, validAfterMs: real, validUntilMs: real, anchorMs: real): Option<bool> {
    if !enclaveReady then None else Some(validAfterMs <= anchorMs <= validUntilMs)
  }

  lemma TimeLocksSpelledOut(enclaveReady: bool, validAfterMs: real, validUntilMs: real, anchorMs: real)
    ensures VerifyTimeLocks(enclaveReady, validAfterMs, validUntilMs, anchorMs) == None <==> !enclaveReady
    ensures VerifyTimeLocks(enclaveReady, validAfterMs, validUntilMs, anchorMs) == Some(true)
            <==> enclaveReady && validAfterMs <= anchorMs && anchorMs <= validUntilMs
  {
  }

  /** The majority's interval decides every window that contains it or misses it. */
  lemma {:induction false} MajorityDecidesTimeLocks(values: seq<Assertion>, requiredMin: nat, lo: real, hi: real,
                                 validAfterMs: real, validUntilMs: real)
    requires 2 * CountIn(Times(values), lo, hi) > |values| && hi - lo <= DRIFT_THRESHOLD_MS
    ensures AnchorOf(values, requiredMin).Ok? ==>
      var verdict := VerifyTimeLocks(true, validAfterMs, validUntilMs, AnchorOf(values, requiredMin).value.anchorMs);
      && (validAfterMs <= lo && hi <= validUntilMs ==> verdict == Some(true))
      && (validUntilMs < lo || hi < validAfterMs ==> verdict == Some(false))
  {
    AnchorFollowsMajority(values, requiredMin, lo, hi);
  }

  // ----- the service

  type SignatureCheck = Assertion -> bool

  predicate Acceptable(signatureOk: SignatureCheck, a: Assertion) {
    && a.nodeId != "" && a.pcr0Hash != "" && a.signature != ""
    && (a.validUntilMs.Some? ==> a.validUntilMs.value > a.assertedAtMs)
    && signatureOk(a)
  }

  function NodeOf(a: Assertion): string {
    a.nodeId
  }

  // A full window first gives up its smallest node id, even for a node it already holds.
  function MakeRoom(held: seq<Assertion>): seq<Assertion> {
    if |held| >= WINDOW_MAX_SIZE then M.Remove(NodeOf, held, Sort(StringLe, NodeIds(held))[0]) else held
  }

  function Ingest(signatureOk: SignatureCheck, held: seq<Assertion>, a: Assertion): seq<Assertion> {
    if Acceptable(signatureOk, a) then M.Put(NodeOf, MakeRoom(held), a) else held
  }

  function IngestAll(signatureOk: SignatureCheck, given: seq<Assertion>): seq<Assertion> {
    if given == [] then [] else Ingest(signatureOk, IngestAll(signatureOk, given[..|given| - 1]), given[|given| - 1])
  }

  lemma {:induction false} SortStartsWithLeast(ids: seq<string>)
    requires ids != []
    ensures Sort(StringLe, ids)[0] in ids
    ensures forall k :: 0 <= k < |ids| ==> StringLe(Sort(StringLe, ids)[0], ids[k])
  {
    var sorted := Sort(StringLe, ids);
    StringLeIsTotalPreorder();
    SortSorts(StringLe, ids);
    assert sorted[0] in multiset(sorted);
    forall k | 0 <= k < |ids|
      ensures StringLe(sorted[0], ids[k])
    {
      assert ids[k] in multiset(sorted);
      FirstIsLeast(StringLe, sorted, ids[k]);
      StringLeTotal(sorted[0], sorted[0]);
    }
  }

  /** A full window gives up exactly the assertion of its smallest node id. */
  lemma MakeRoomMakesRoom(held: seq<Assertion>)
    requires M.UniqueKeys(NodeOf, held)
    ensures M.UniqueKeys(NodeOf, MakeRoom(held))
    ensures |held| < 32 ==> MakeRoom(held) == held
    ensures |held| >= 32 ==> |MakeRoom(held)| < |held|
    ensures |held| >= 32 ==> exists least :: LosesOnly(held, MakeRoom(held), least)
  {
    if |held| >= WINDOW_MAX_SIZE {
      var ids := NodeIds(held);
      SortStartsWithLeast(ids);
      var least := Sort(StringLe, ids)[0];
      M.RemoveKeepsTheOthers(NodeOf, held, least);
      assert forall k :: 0 <= k < |held| ==> held[k].nodeId == ids[k];
      assert LosesOnly(held, MakeRoom(held), least);
    }
  }

  ghost predicate LosesOnly(held: seq<Assertion>, room: seq<Assertion>, least: string) {
    && least in NodeIds(held) && (forall k :: 0 <= k < |held| ==> StringLe(least, held[k].nodeId))
    && (forall a :: a in room <==> a in held && a.nodeId != least)
  }

  /**
   Whatever is ingested: at most one assertion for a node and at most 32 in all are held, every one of them
   was given and acceptable, and the last acceptable one is among them.
   */
  lemma {:induction false} WindowInvariant(signatureOk: SignatureCheck, given: seq<Assertion>)
    ensures var held := IngestAll(signatureOk, given);
      && M.UniqueKeys(NodeOf, held) && |held| <= 32
      && (forall a :: a in held ==> a in given && Acceptable(signatureOk, a))
      && (given != [] && Acceptable(signatureOk, given[|given| - 1]) ==> given[|given| - 1] in held)
  {
    if given != [] {
      WindowInvariant(signatureOk, given[..|given| - 1]);
      var held, a := IngestAll(signatureOk, given[..|given| - 1]), given[|given| - 1];
      MakeRoomMakesRoom(held);
      if Acceptable(signatureOk, a) {
        M.PutKeepsTheOthers(NodeOf, MakeRoom(held), a);
      }
    }
  }

  class EnclaveTimeAnchorService {
    const signatureOk: SignatureCheck
    var assertions: seq<Assertion>     // a map by node id, in insertion order

    constructor (signatureOk: SignatureCheck)
      ensures this.signatureOk == signatureOk && assertions == IngestAll(signatureOk, [])
    {
      this.signatureOk, assertions := signatureOk, [];
    }

    method Reset()
      modifies this
      ensures assertions == IngestAll(signatureOk, [])
    {
      assertions := [];
    }

    method IngestAssertion(a: Assertion) returns (r: Result<(), string>)
      modifies this
      ensures r.Ok? <==> Acceptable(signatureOk, a)
      ensures assertions == Ingest(signatureOk, old(assertions), a)
    {
      if a.nodeId == "" {
        return Err("INVALID_NODE_ID");
      }
      if a.pcr0Hash == "" {
        return Err("INVALID_PCR0_HASH");
      }
      if a.signature == "" {
        return Err("INVALID_SIGNATURE");
      }
      if a.validUntilMs.Some? && a.validUntilMs.value <= a.assertedAtMs {
        return Err("ASSERTION_EXPIRED_OR_INVALID");
      }
      if !signatureOk(a) {
        return Err("SIGNATURE_REJECTED");
      }
      if |assertions| >= WINDOW_MAX_SIZE {
        var keys := Sort(StringLe, NodeIds(assertions));
        assertions := M.Remove(NodeOf, assertions, keys[0]);
      }
      assertions := M.Put(NodeOf, assertions, a);
      r := Ok(());
    }

    method ComputeMedianAnchor(requiredMin: nat := DEFAULT_REQUIRED_MIN) returns (r: Result<Anchor, string>)
      ensures r == AnchorOf(assertions, requiredMin)
    {
      var values := assertions;
      if |values| == 0 {
        return Err("NO_ASSERTIONS");
      }
      var median := MedianOfSorted(Sort(RealLe, Times(values)));
      var included, outliers := SplitByDrift(values, median);
      if |included| < requiredMin {
        return Err("INSUFFICIENT_QUORUM_AFTER_FILTERING");
      }
      if included == [] {
        return Err("medianOfSorted: empty");
      }
      var anchorMs := MedianOfSorted(Sort(RealLe, Times(included)));
      r := Ok(Anchor(anchorMs, Sort(StringLe, NodeIds(included)), Sort(StringLe, NodeIds(outliers))));
    }
  }

  method SplitByDrift(values: seq<Assertion>, median: real) returns (included: seq<Assertion>, outliers: seq<Assertion>)
    ensures included == Filter(values, median, true) && outliers == Filter(values, median, false)
  {
    included, outliers := [], [];
    assert values[0..] == values;
    for i := 0 to |values|
      invariant included + Filter(values[i..], median, true) == Filter(values, median, true)
      invariant outliers + Filter(values[i..], median, false) == Filter(values, median, false)
    {
      FilterFrom(values, median, i, true);
      FilterFrom(values, median, i, false);
      var drift := if values[i].assertedAtMs >= median then values[i].assertedAtMs - median
                   else median - values[i].assertedAtMs;
      if drift > DRIFT_THRESHOLD_MS {
        outliers := outliers + [values[i]];
      } else {
        included := included + [values[i]];
      }
    }
    assert included + [] == included && outliers + [] == outliers;
  }

  lemma {:induction false} FilterFrom(values: seq<Assertion>, median: real, i: nat, near: bool)
    requires i < |values|
    ensures Filter(values[i..], median, near)
         == (if Near(values[i], median) == near then [values[i]] else []) + Filter(values[i + 1..], median, near)
  {
    assert values[i..][0] == values[i] && values[i..][1..] == values[i + 1..];
  }
}
