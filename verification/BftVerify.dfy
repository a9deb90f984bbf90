/**
 Byzantine quorums: verification shares are deduplicated by node, gated by attestation, and aggregated
 once 2f+1 distinct nodes have signed, where f = floor((n-1)/3).
 */
module BftVerify {
  import opened Wrappers
  import opened Sorting
  import M = OrderedMaps

  datatype Share = Share(
    nodeId: string, nodePcr0Hash: string, consensusTerm: int, index: int, approvalHash: string, nodeSignature: string)

  datatype Payload = Payload(
    clusterSize: nat, f: int, threshold: int, uniqueNodeIds: seq<string>, shares: seq<Share>)

  // Floor division: a cluster of size 0 would have f = -1.
  function MaxFaulty(clusterSize: nat): int {
    (clusterSize - 1) / 3
  }

  function Threshold(clusterSize: nat): int {
    2 * MaxFaulty(clusterSize) + 1
  }

  type Attestations = map<string, string>

  /** What makes a share count for a proposal of the given term and index. */
  predicate Counts(s: Share, term: int, index: int, attested: Attestations) {
    && s.consensusTerm == term && s.index == index
    && s.nodeId in attested && attested[s.nodeId] != "" && attested[s.nodeId] == s.nodePcr0Hash
  }

  function CountedIds(shares: seq<Share>, term: int, index: int, attested: Attestations): set<string> {
    set s | s in shares && Counts(s, term, index, attested) :: s.nodeId
  }

  function NodeOf(s: Share): string {
    s.nodeId
  }

  predicate ShareLe(a: Share, b: Share) {
    StringLe(a.nodeId, b.nodeId)
  }

  /** One share a node, the last that counts. */
  function UniqueShares(shares: seq<Share>, term: int, index: int, attested: Attestations): seq<Share> {
    if shares == [] then []
    else
      var before, s := UniqueShares(shares[..|shares| - 1], term, index, attested), shares[|shares| - 1];
      if Counts(s, term, index, attested) then M.Put(NodeOf, before, s) else before
  }

  function Ids(shares: seq<Share>): (ids: seq<string>)
    ensures |ids| == |shares|
    ensures forall i :: 0 <= i < |ids| ==> ids[i] == shares[i].nodeId
  {
    seq(|shares|, i requires 0 <= i < |shares| => shares[i].nodeId)
  }

  function AggregateOf(shares: seq<Share>, term: int, index: int, attested: Attestations, clusterSize: nat)
    : Result<Payload, string>
  {
    var arr := Sort(ShareLe, UniqueShares(shares, term, index, attested));
    if |arr| < Threshold(clusterSize) then Err("THRESHOLD_NOT_REACHED")
    else Ok(Payload(clusterSize, MaxFaulty(clusterSize), Threshold(clusterSize), Ids(arr), arr))
  }

  /** `aggregateShares`. */
  method AggregateShares(shares: seq<Share>, term: int, index: int, attested: Attestations, clusterSize: nat)
    returns (r: Result<Payload, string>)
    ensures r == AggregateOf(shares, term, index, attested, clusterSize)
    ensures r.Ok? ==> forall s :: s in r.value.shares ==>
      s in shares && s.nodeId in attested && attested[s.nodeId] == s.nodePcr0Hash && s.nodePcr0Hash != ""
  {
    AggregationSpelledOut(shares, term, index, attested, clusterSize);
    var f := (clusterSize - 1) / 3;
    var threshold := 2 * f + 1;
    var unique: seq<Share> := [];
    for i := 0 to |shares|
      invariant unique == UniqueShares(shares[..i], term, index, attested)
    {
      var s := shares[i];
      assert shares[..i + 1][..i] == shares[..i];
      if s.consensusTerm != term {
        continue;
      }
      if s.index != index {
        continue;
      }
      if s.nodeId !in attested || attested[s.nodeId] == "" {
        continue;
      }
      if attested[s.nodeId] != s.nodePcr0Hash {
        continue;
      }
      unique := M.Put(NodeOf, unique, s);
    }
    assert shares[..|shares|] == shares;
    var sharesArr := Sort(ShareLe, unique);
    if |sharesArr| < threshold {
      return Err("THRESHOLD_NOT_REACHED");
    }
    r := Ok(Payload(clusterSize, f, threshold, Ids(sharesArr), sharesArr));
  }

  // ----- what aggregation keeps

  lemma {:induction false} UniqueSharesAreTheCounted(shares: seq<Share>, term: int, index: int, attested: Attestations)
    ensures var u := UniqueShares(shares, term, index, attested);
      && M.UniqueKeys(NodeOf, u)
      && (forall s :: s in u ==> s in shares && Counts(s, term, index, attested))
      && (forall s :: s in shares && Counts(s, term, index, attested) ==> s.nodeId in Ids(u))
  {
    if shares != [] {
      var before, s := shares[..|shares| - 1], shares[|shares| - 1];
      assert shares == before + [s];
      UniqueSharesAreTheCounted(before, term, index, attested);
      if Counts(s, term, index, attested) {
        PutKeepsIds(UniqueShares(before, term, index, attested), s);
      }
    }
  }

  lemma PutKeepsIds(u: seq<Share>, s: Share)
    requires M.UniqueKeys(NodeOf, u)
    ensures var r := M.Put(NodeOf, u, s);
      && M.UniqueKeys(NodeOf, r)
      && (forall x :: x in r ==> x == s || x in u)
      && s.nodeId in Ids(r) && (forall id :: id in Ids(u) ==> id in Ids(r))
  {
    M.PutKeepsTheOthers(NodeOf, u, s);
    var r, i := M.Put(NodeOf, u, s), M.IndexOf(NodeOf, u, s.nodeId);
    assert Ids(r)[if i < 0 then |u| else i] == s.nodeId;
    forall id | id in Ids(u)
      ensures id in Ids(r)
    {
      var k :| 0 <= k < |u| && Ids(u)[k] == id;
      assert Ids(r)[k] == id;
    }
  }

  lemma {:induction false} SortedSharesKeep(u: seq<Share>)
    requires M.UniqueKeys(NodeOf, u)
    ensures var arr := Sort(ShareLe, u);
      && NoDuplicates(Ids(arr)) && Sorted(StringLe, Ids(arr))
      && (forall s :: s in arr <==> s in u)
      && (forall id :: id in Ids(arr) <==> id in Ids(u))
  {
    var arr := Sort(ShareLe, u);
    forall s
      ensures s in arr <==> s in u
    {
      assert s in multiset(arr) <==> s in multiset(u);
    }
    StringLeIsTotalPreorder();
    forall a, b
      ensures ShareLe(a, b) || ShareLe(b, a)
    {
      assert StringLe(a.nodeId, b.nodeId) || StringLe(b.nodeId, a.nodeId);
    }
    forall a, b, c | ShareLe(a, b) && ShareLe(b, c)
      ensures ShareLe(a, c)
    {
      assert StringLe(a.nodeId, b.nodeId) && StringLe(b.nodeId, c.nodeId);
    }
    SortSorts(ShareLe, u);
    assert forall i, j :: 0 <= i < j < |arr| ==> ShareLe(arr[i], arr[j]);
    SortedIdsAreDistinct(u, arr);
    forall id
      ensures id in Ids(arr) <==> id in Ids(u)
    {
      IdsFollow(u, arr, id);
      IdsFollow(arr, u, id);
    }
  }

  lemma IdsFollow(a: seq<Share>, b: seq<Share>, id: string)
    requires forall s :: s in a ==> s in b
    ensures id in Ids(a) ==> id in Ids(b)
  {
    if id in Ids(a) {
      var i :| 0 <= i < |a| && Ids(a)[i] == id;
      assert a[i] in b;
      var j :| 0 <= j < |b| && b[j] == a[i];
      assert Ids(b)[j] == id;
    }
  }

  lemma SortedIdsAreDistinct(u: seq<Share>, arr: seq<Share>)
    requires M.UniqueKeys(NodeOf, u) && multiset(u) == multiset(arr)
    ensures NoDuplicates(Ids(arr))
  {
    assert forall i, j :: 0 <= i < j < |u| ==> NodeOf(u[i]) != NodeOf(u[j]);
    MultisetKeepsNoDuplicates(u, arr);
    forall i, j | 0 <= i < j < |arr|
      ensures Ids(arr)[i] != Ids(arr)[j]
    {
      assert arr[i] in multiset(u) && arr[j] in multiset(u);
      var a :| 0 <= a < |u| && u[a] == arr[i];
      var b :| 0 <= b < |u| && u[b] == arr[j];
      assert a != b;
    }
  }

  function Members(ids: seq<string>): set<string> {
    set id | id in ids
  }

  lemma IdsOfDistinct(ids: seq<string>)
    requires NoDuplicates(ids)
    ensures |Members(ids)| == |ids|
  {
    NoDuplicatesIsMultisetOfSet(ids);
    var s := Members(ids);
    assert |s| == |multiset(s)| == |multiset(ids)| == |ids|;
  }

  /**
   Aggregation succeeds exactly when enough distinct attested nodes signed this term and index; the payload
   then lists those nodes, each once and in order, with one counting share each.
   */
  lemma AggregationMeaning(shares: seq<Share>, term: int, index: int, attested: Attestations, clusterSize: nat)
    ensures var r := AggregateOf(shares, term, index, attested, clusterSize);
      var ids := CountedIds(shares, term, index, attested);
      && (r.Ok? <==> |ids| >= Threshold(clusterSize))
      && (r.Ok? ==> IsAggregate(r.value, shares, term, index, attested, clusterSize))
  {
    var u := UniqueShares(shares, term, index, attested);
    UniqueSharesAreTheCounted(shares, term, index, attested);
    SortedSharesKeep(u);
    ListedAreTheCounted(shares, term, index, attested);
    IdsOfDistinct(Ids(Sort(ShareLe, u)));
  }

  lemma {:induction false} ListedAreTheCounted(shares: seq<Share>, term: int, index: int, attested: Attestations)
    ensures Members(Ids(Sort(ShareLe, UniqueShares(shares, term, index, attested)))) == CountedIds(shares, term, index, attested)
  {
    var u := UniqueShares(shares, term, index, attested);
    var arr, ids := Sort(ShareLe, u), CountedIds(shares, term, index, attested);
    UniqueSharesAreTheCounted(shares, term, index, attested);
    SortedSharesKeep(u);
    forall id
      ensures id in Ids(arr) <==> id in ids
    {
      if id in ids {
        var s :| s in shares && Counts(s, term, index, attested) && s.nodeId == id;
      }
      if id in Ids(arr) {
        var i :| 0 <= i < |arr| && Ids(arr)[i] == id;
        assert arr[i] in u;
      }
    }
  }

  ghost predicate IsAggregate(p: Payload, shares: seq<Share>, term: int, index: int, attested: Attestations,
                              clusterSize: nat) {
    && p.clusterSize == clusterSize && p.f == MaxFaulty(clusterSize) && p.threshold == Threshold(clusterSize)
    && p.uniqueNodeIds == Ids(p.shares) && NoDuplicates(p.uniqueNodeIds) && Sorted(StringLe, p.uniqueNodeIds)
    && Members(p.uniqueNodeIds) == CountedIds(shares, term, index, attested)
    && |p.uniqueNodeIds| >= p.threshold
    && (forall s :: s in p.shares ==> s in shares && Counts(s, term, index, attested))
  }

  /** Order and repetition of the shares do not matter for who is listed. */
  lemma AggregationIgnoresOrder(shares: seq<Share>, others: seq<Share>, term: int, index: int,
                                attested: Attestations, clusterSize: nat)
    requires forall s :: s in shares <==> s in others
    ensures var r, q := AggregateOf(shares, term, index, attested, clusterSize), AggregateOf(others, term, index, attested, clusterSize);
      (r.Ok? <==> q.Ok?) && (r.Ok? ==> r.value.uniqueNodeIds == q.value.uniqueNodeIds)
  {
    AggregationMeaning(shares, term, index, attested, clusterSize);
    AggregationMeaning(others, term, index, attested, clusterSize);
    var r, q := AggregateOf(shares, term, index, attested, clusterSize), AggregateOf(others, term, index, attested, clusterSize);
    assert CountedIds(shares, term, index, attested) == CountedIds(others, term, index, attested);
    if r.Ok? {
      SortedSetIsUnique(r.value.uniqueNodeIds, q.value.uniqueNodeIds);
    }
  }

  lemma SortedSetIsUnique(a: seq<string>, b: seq<string>)
    requires NoDuplicates(a) && NoDuplicates(b) && Sorted(StringLe, a) && Sorted(StringLe, b)
    requires Members(a) == Members(b)
    ensures a == b
  {
    NoDuplicatesIsMultisetOfSet(a);
    NoDuplicatesIsMultisetOfSet(b);
    forall x, y | x in a && y in a && StringLe(x, y) && StringLe(y, x)
      ensures x == y
    {
      StringLeTotal(x, y);
    }
    SortedIsUnique(StringLe, a, b);
  }

  // ----- spelled out

  /** The nodes of the shares that carry term and index and the measurement attested for their node. */
  lemma CountedSpelledOut(shares: seq<Share>, term: int, index: int, attested: Attestations)
    ensures CountedIds(shares, term, index, attested)
            == set s | s in shares && s.consensusTerm == term && s.index == index && s.nodeId in attested
                       && attested[s.nodeId] == s.nodePcr0Hash && s.nodePcr0Hash != "" :: s.nodeId
  {
  }

  /** When aggregation succeeds, and what every listed share is. */
  lemma AggregationSpelledOut(shares: seq<Share>, term: int, index: int, attested: Attestations, clusterSize: nat)
    ensures var r := AggregateOf(shares, term, index, attested, clusterSize);
      && (r.Ok? <==>
            |set s | s in shares && s.consensusTerm == term && s.index == index && s.nodeId in attested
                     && attested[s.nodeId] == s.nodePcr0Hash && s.nodePcr0Hash != "" :: s.nodeId|
            >= 2 * ((clusterSize - 1) / 3) + 1)
      && (r.Ok? ==>
            && r.value.clusterSize == clusterSize && r.value.f == (clusterSize - 1) / 3
            && r.value.threshold == 2 * ((clusterSize - 1) / 3) + 1
            && forall s :: s in r.value.shares ==>
                 && s in shares && s.consensusTerm == term && s.index == index
                 && s.nodeId in attested && attested[s.nodeId] == s.nodePcr0Hash && s.nodePcr0Hash != "")
  {
    AggregationMeaning(shares, term, index, attested, clusterSize);
    CountedSpelledOut(shares, term, index, attested);
  }

  lemma {:induction false} UncountedLeavesUnique(a: seq<Share>, s: Share, b: seq<Share>, term: int, index: int,
                                                 attested: Attestations)
    requires !Counts(s, term, index, attested)
    ensures UniqueShares(a + [s] + b, term, index, attested) == UniqueShares(a + b, term, index, attested)
    decreases |b|
  {
    var all, rest := a + [s] + b, a + b;
    if b == [] {
      assert all[..|all| - 1] == a && rest == a;
    } else {
      var init := b[..|b| - 1];
      UncountedLeavesUnique(a, s, init, term, index, attested);
      assert all[..|all| - 1] == a + [s] + init && rest[..|rest| - 1] == a + init;
    }
  }

  /** A share whose measurement is not the one attested for its node can be taken out without changing the result. */
  lemma WrongMeasurementIsIgnored(a: seq<Share>, s: Share, b: seq<Share>, term: int, index: int,
                                  attested: Attestations, clusterSize: nat)
    requires s.nodeId !in attested || attested[s.nodeId] != s.nodePcr0Hash
    ensures AggregateOf(a + [s] + b, term, index, attested, clusterSize) == AggregateOf(a + b, term, index, attested, clusterSize)
  {
    UncountedLeavesUnique(a, s, b, term, index, attested);
  }

  lemma NoLaterExtends(before: seq<Share>, last: Share, i: nat, term: int, index: int, attested: Attestations)
    requires i < |before| && NoLaterShare(before, i, term, index, attested)
    requires !(Counts(last, term, index, attested) && last.nodeId == before[i].nodeId)
    ensures NoLaterShare(before + [last], i, term, index, attested)
  {
  }

  // What the last of the shares adds to the unique ones.
  lemma {:induction false} UniqueStep(before: seq<Share>, last: Share, term: int, index: int, attested: Attestations, s: Share)
    requires s in UniqueShares(before + [last], term, index, attested)
    ensures (s == last && Counts(last, term, index, attested))
            || (s in UniqueShares(before, term, index, attested)
                && !(Counts(last, term, index, attested) && last.nodeId == s.nodeId))
  {
    assert (before + [last])[..|before|] == before;
    UniqueSharesAreTheCounted(before, term, index, attested);
    if Counts(last, term, index, attested) {
      M.PutKeepsTheOthers(NodeOf, UniqueShares(before, term, index, attested), last);
    }
  }

  lemma {:induction false} LastShareIsUnique(shares: seq<Share>, term: int, index: int, attested: Attestations, s: Share)
    returns (i: nat)
    requires s in UniqueShares(shares, term, index, attested)
    ensures i < |shares| && shares[i] == s && NoLaterShare(shares, i, term, index, attested)
  {
    var before, last := shares[..|shares| - 1], shares[|shares| - 1];
    assert shares == before + [last];
    UniqueStep(before, last, term, index, attested, s);
    if s == last && Counts(last, term, index, attested) {
      i := |before|;
    } else {
      i := LastShareIsUnique(before, term, index, attested, s);
      NoLaterExtends(before, last, i, term, index, attested);
    }
  }

  /** Of several counting shares of a node the last one is listed. */
  lemma ListedShareIsTheLast(p: Payload, shares: seq<Share>, term: int, index: int, attested: Attestations,
                             clusterSize: nat, s: Share) returns (i: nat)
    requires AggregateOf(shares, term, index, attested, clusterSize) == Ok(p) && s in p.shares
    ensures i < |shares| && shares[i] == s && NoLaterShare(shares, i, term, index, attested)
  {
    assert s in multiset(p.shares);
    i := LastShareIsUnique(shares, term, index, attested, s);
  }

  ghost predicate NoLaterShare(shares: seq<Share>, i: nat, term: int, index: int, attested: Attestations)
    requires i < |shares|
  {
    forall j :: i < j < |shares| && shares[j].nodeId == shares[i].nodeId ==>
      !(&& shares[j].consensusTerm == term && shares[j].index == index && shares[j].nodeId in attested
        && attested[shares[j].nodeId] == shares[j].nodePcr0Hash && shares[j].nodePcr0Hash != "")
  }

  // ----- quorum arithmetic

  /** Two quorums of a cluster of n overlap in at least 2(2f+1) - n nodes. */
  lemma QuorumsOverlap(n: nat, members: set<string>, a: set<string>, b: set<string>)
    requires a <= members && b <= members && |members| <= n
    requires |a| >= Threshold(n) && |b| >= Threshold(n)
    ensures |a * b| >= 2 * Threshold(n) - n
  {
    SubsetSize(a + b, members);
    assert |a + b| == |a| + |b| - |a * b|;
  }

  lemma SubsetSize<T>(a: set<T>, b: set<T>)
    requires a <= b
    ensures |a| <= |b|
  {
    assert |b| == |a| + |b - a| by {
      assert b == a + (b - a);
    }
  }

  /** The bound is met by the first and the last 2f+1 members. */
  lemma OverlapBoundIsTight(ids: seq<string>) returns (a: set<string>, b: set<string>)
    requires NoDuplicates(ids) && |ids| >= 1
    ensures var n, members := |ids|, Members(ids);
      && a <= members && b <= members && |members| == n
      && |a| == |b| == Threshold(n)
      && |a * b| == if 2 * Threshold(n) >= n then 2 * Threshold(n) - n else 0
  {
    var n, t := |ids|, Threshold(|ids|);
    a, b := Members(ids[..t]), Members(ids[n - t..]);
    IdsOfDistinct(ids);
    IdsOfDistinct(ids[..t]);
    IdsOfDistinct(ids[n - t..]);
    EndsOverlapInTheMiddle(ids, t);
    if n - t <= t {
      IdsOfDistinct(ids[n - t..t]);
    }
  }

  lemma EndsOverlapInTheMiddle(ids: seq<string>, t: nat)
    requires NoDuplicates(ids) && t <= |ids|
    ensures Members(ids[..t]) * Members(ids[|ids| - t..])
         == if |ids| - t <= t then Members(ids[|ids| - t..t]) else {}
  {
    var k := |ids| - t;
    forall x | x in Members(ids[..t]) * Members(ids[k..])
      ensures k <= t && x in Members(ids[k..t])
    {
      var i :| 0 <= i < t && ids[..t][i] == x;
      var j :| 0 <= j < t && ids[k..][j] == x;
      assert ids[i] == ids[k + j];
      assert ids[k..t][j] == x;
    }
    if k <= t {
      forall x | x in Members(ids[k..t])
        ensures x in Members(ids[..t]) && x in Members(ids[k..])
      {
        var j :| 0 <= j < t - k && ids[k..t][j] == x;
        assert ids[..t][k + j] == x && ids[k..][j] == x;
      }
    }
  }

  ghost predicate EveryOverlapExceeds(members: set<string>, size: int, bound: int) {
    forall a, b :: a <= members && b <= members && |a| >= size && |b| >= size ==> |a * b| > bound
  }

  /** Any two quorums share a node outside every set of f faulty ones exactly for n = 3f+1. */
  lemma OverlapBeyondFaulty(ids: seq<string>)
    requires NoDuplicates(ids) && |ids| >= 1
    ensures var n := |ids|;
      EveryOverlapExceeds(Members(ids), Threshold(n), MaxFaulty(n)) <==> n == 3 * MaxFaulty(n) + 1
  {
    var n, members := |ids|, Members(ids);
    IdsOfDistinct(ids);
    var x, y := OverlapBoundIsTight(ids);
    if n == 3 * MaxFaulty(n) + 1 {
      forall a, b | a <= members && b <= members && |a| >= Threshold(n) && |b| >= Threshold(n)
        ensures |a * b| > MaxFaulty(n)
      {
        QuorumsOverlap(n, members, a, b);
      }
    } else {
      assert |x * y| <= MaxFaulty(n);
    }
  }

  // ----- payloads

  /** The nodes two payloads have in common. */
  function Common(r: Payload, q: Payload): set<string> {
    Members(r.uniqueNodeIds) * Members(q.uniqueNodeIds)
  }

  /** Any two payloads over one attestation map of at most n nodes share at least 2(2f+1) - n of them. */
  lemma PayloadsOverlap(r: Payload, q: Payload, shares: seq<Share>, others: seq<Share>,
                        term: int, index: int, term': int, index': int, attested: Attestations, n: nat)
    requires AggregateOf(shares, term, index, attested, n) == Ok(r)
    requires AggregateOf(others, term', index', attested, n) == Ok(q)
    requires |attested| <= n
    ensures |Common(r, q)| >= 2 * Threshold(n) - n
  {
    AggregationMeaning(shares, term, index, attested, n);
    AggregationMeaning(others, term', index', attested, n);
    assert |attested.Keys| == |attested|;
    IdsOfDistinct(r.uniqueNodeIds);
    IdsOfDistinct(q.uniqueNodeIds);
    QuorumsOverlap(n, attested.Keys, Members(r.uniqueNodeIds), Members(q.uniqueNodeIds));
  }

  // One counting share of each of the given nodes.
  function SharesOf(ids: seq<string>, term: int, index: int, attested: Attestations): (shares: seq<Share>)
    requires forall id :: id in ids ==> id in attested
    ensures |shares| == |ids|
    ensures forall i :: 0 <= i < |ids| ==> shares[i] == Share(ids[i], attested[ids[i]], term, index, "", "")
  {
    seq(|ids|, i requires 0 <= i < |ids| => Share(ids[i], attested[ids[i]], term, index, "", ""))
  }

  // Every node of the map has a usable measurement.
  predicate AllMeasured(attested: Attestations) {
    forall id :: id in attested ==> attested[id] != ""
  }

  lemma SharesOfAreCounted(ids: seq<string>, term: int, index: int, attested: Attestations)
    requires AllMeasured(attested) && forall id :: id in ids ==> id in attested
    ensures CountedIds(SharesOf(ids, term, index, attested), term, index, attested) == Members(ids)
  {
    var shares := SharesOf(ids, term, index, attested);
    forall id | id in ids
      ensures id in CountedIds(shares, term, index, attested)
    {
      var i :| 0 <= i < |ids| && ids[i] == id;
      assert shares[i] in shares && Counts(shares[i], term, index, attested);
    }
  }

  lemma OneMore(x: string, ids: seq<string>)
    requires NoDuplicates(ids) && x !in ids
    ensures NoDuplicates([x] + ids) && Members([x] + ids) == {x} + Members(ids)
  {
    var more := [x] + ids;
    forall i, j | 0 <= i < j < |more|
      ensures more[i] != more[j]
    {
      assert more[j] == ids[j - 1];
    }
  }

  lemma {:induction false} Enumerate(s: set<string>) returns (ids: seq<string>)
    ensures NoDuplicates(ids) && Members(ids) == s && |ids| == |s|
    decreases |s|
  {
    if s == {} {
      ids := [];
    } else {
      var x :| x in s;
      var rest := Enumerate(s - {x});
      ids := [x] + rest;
      OneMore(x, rest);
    }
  }

  /** The payload that any set of enough attested nodes can produce. */
  lemma PayloadOfNodes(nodes: set<string>, term: int, index: int, attested: Attestations, n: nat)
    returns (shares: seq<Share>, r: Payload)
    requires AllMeasured(attested) && nodes <= attested.Keys && |nodes| >= Threshold(n)
    ensures AggregateOf(shares, term, index, attested, n) == Ok(r) && Members(r.uniqueNodeIds) == nodes
  {
    var ids := Enumerate(nodes);
    assert forall id :: id in ids ==> id in Members(ids);
    shares := SharesOf(ids, term, index, attested);
    SharesOfAreCounted(ids, term, index, attested);
    AggregationMeaning(shares, term, index, attested, n);
    r := AggregateOf(shares, term, index, attested, n).value;
  }

  /** For every cluster of n >= 1 measured nodes two share lists aggregate into payloads that meet the bound. */
  lemma PayloadOverlapIsTight(term: int, index: int, attested: Attestations)
    returns (shares: seq<Share>, others: seq<Share>, r: Payload, q: Payload)
    requires AllMeasured(attested) && |attested| >= 1
    ensures var n := |attested|;
      && AggregateOf(shares, term, index, attested, n) == Ok(r)
      && AggregateOf(others, term, index, attested, n) == Ok(q)
      && |Common(r, q)| == if 2 * Threshold(n) >= n then 2 * Threshold(n) - n else 0
  {
    var n := |attested|;
    assert |attested.Keys| == n;
    var ids := Enumerate(attested.Keys);
    var a, b := OverlapBoundIsTight(ids);
    shares, r := PayloadOfNodes(a, term, index, attested, n);
    others, q := PayloadOfNodes(b, term, index, attested, n);
  }

  /** Any two payloads for a proposal share more than `bound` nodes. */
  ghost predicate EveryCommonExceeds(term: int, index: int, attested: Attestations, n: nat, bound: int) {
    forall shares, others ::
      var r, q := AggregateOf(shares, term, index, attested, n), AggregateOf(others, term, index, attested, n);
      r.Ok? && q.Ok? ==> |Common(r.value, q.value)| > bound
  }

  /** Over n >= 1 measured nodes any two payloads share more than f nodes exactly if n = 3f+1. */
  lemma PayloadOverlapBeyondFaulty(term: int, index: int, attested: Attestations)
    requires AllMeasured(attested) && |attested| >= 1
    ensures var n := |attested|;
      EveryCommonExceeds(term, index, attested, n, MaxFaulty(n)) <==> n == 3 * MaxFaulty(n) + 1
  {
    var n := |attested|;
    var shares, others, r, q := PayloadOverlapIsTight(term, index, attested);
    if n == 3 * MaxFaulty(n) + 1 {
      forall shares, others |
        AggregateOf(shares, term, index, attested, n).Ok? && AggregateOf(others, term, index, attested, n).Ok?
        ensures |Common(AggregateOf(shares, term, index, attested, n).value,
                        AggregateOf(others, term, index, attested, n).value)| > MaxFaulty(n)
      {
        PayloadsOverlap(AggregateOf(shares, term, index, attested, n).value,
                        AggregateOf(others, term, index, attested, n).value,
                        shares, others, term, index, term, index, attested, n);
      }
    } else {
      assert |Common(r, q)| <= MaxFaulty(n);
    }
  }

  /** Two payloads for one cluster of n = 3f+1 attested nodes name a common node that is not faulty. */
  lemma PayloadsShareAnHonestNode(r: Payload, q: Payload, shares: seq<Share>, others: seq<Share>,
                                  term: int, index: int, term': int, index': int,
                                  attested: Attestations, n: nat, faulty: set<string>)
    requires AggregateOf(shares, term, index, attested, n) == Ok(r)
    requires AggregateOf(others, term', index', attested, n) == Ok(q)
    requires |attested| <= n == 3 * MaxFaulty(n) + 1 && |faulty| <= MaxFaulty(n)
    ensures exists id :: id in r.uniqueNodeIds && id in q.uniqueNodeIds && id !in faulty
  {
    PayloadsOverlap(r, q, shares, others, term, index, term', index', attested, n);
    if Common(r, q) <= faulty {
      SubsetSize(Common(r, q), faulty);
    }
    var id :| id in Common(r, q) && id !in faulty;
  }

  /**
   Liveness: with at most f of n nodes faulty the shares of the others suffice, whatever shares the faulty
   ones mix in.
   */
  lemma HonestNodesSuffice(shares: seq<Share>, term: int, index: int, attested: Attestations, faulty: set<string>)
    requires |attested| >= 1 && |faulty| <= MaxFaulty(|attested|)
    requires forall id :: id in attested && id !in faulty ==> id in CountedIds(shares, term, index, attested)
    ensures AggregateOf(shares, term, index, attested, |attested|).Ok?
  {
    var n, honest := |attested|, attested.Keys - faulty;
    AggregationMeaning(shares, term, index, attested, n);
    SubsetSize(honest, CountedIds(shares, term, index, attested));
    SubsetSize(attested.Keys * faulty, faulty);
    assert |attested.Keys| == n && |honest| == n - |attested.Keys * faulty|;
  }
}
