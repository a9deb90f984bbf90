/**
 The commit path: entries are appended to a local log, and an entry reaches the ledger only with a
 quorum behind it. Commit calls are taken one at a time, each as one step.
 */
module RaftEngine {
  import opened Wrappers
  import opened Hashing
  import opened LedgerMerkle
  import opened BftVerify
  import opened Sorting
  import W = LedgerWorld
  import G = LedgerGuarantees
  import opened LedgerServices

  datatype LogEntry = LogEntry(term: int, index: int, record: EscrowRecord)

  datatype RaftState = RaftState(
    currentTerm: int, log: seq<LogEntry>, commitIndex: int, failClosed: bool, world: W.World)

  datatype BftCommit = BftCommit(
    entryIndex: int, clusterSize: nat, proposalCommitment: string, consensusTerm: int, index: int,
    payload: Option<Payload>)

  // A refused call gives its reason; `Threw` is an error from the store.
  datatype Outcome = Committed | Refused(reason: string) | Threw

  function RequiredQuorumAcks(clusterSize: nat): nat {
    clusterSize / 2 + 1
  }

  function FindEntry(log: seq<LogEntry>, index: int): (k: int)
    ensures -1 <= k < |log|
    ensures k >= 0 ==> log[k].index == index
    ensures forall j :: 0 <= j < |log| && (k < 0 || j < k) ==> log[j].index != index
  {
    if log == [] then -1
    else if log[0].index == index then 0
    else
      var k := FindEntry(log[1..], index);
      if k < 0 then -1 else k + 1
  }

  function Append(s: RaftState, record: EscrowRecord): RaftState {
    s.(log := s.log + [LogEntry(s.currentTerm, |s.log| + 1, record)])
  }

  /** The ledger write both commit paths end with. */
  function Write(h: Hash, s: RaftState, k: nat): (RaftState, Outcome)
    requires k < |s.log|
  {
    var (world, ok) := W.SaveStep(h, s.world, s.log[k].record);
    if ok then (s.(world := world, commitIndex := s.log[k].index), Committed) else (s.(world := world), Threw)
  }

  predicate MajorityAccepts(s: RaftState, entryIndex: int, ackCount: int, clusterSize: nat) {
    && FindEntry(s.log, entryIndex) >= 0
    && (ackCount >= RequiredQuorumAcks(clusterSize) || !s.failClosed)
    && entryIndex > s.commitIndex
  }

  /** What a Byzantine commit requires of log and payload, in no particular order. */
  predicate BftAccepts(s: RaftState, c: BftCommit) {
    var k := FindEntry(s.log, c.entryIndex);
    && k >= 0 && c.entryIndex > s.commitIndex
    && s.log[k].record.escrowRecordLeafHash == c.proposalCommitment
    && c.payload.Some? && PayloadFits(c.payload.value, c.clusterSize, c.consensusTerm, c.index)
  }

  predicate PayloadFits(p: Payload, clusterSize: nat, term: int, index: int) {
    && p.clusterSize == clusterSize && p.f == MaxFaulty(clusterSize) && p.threshold == Threshold(clusterSize)
    && |p.uniqueNodeIds| >= p.threshold && p.shares != []
    && (forall i :: 0 <= i < |p.shares| ==> p.shares[i].consensusTerm == term && p.shares[i].index == index)
    && |Members(Ids(p.shares))| >= p.threshold
  }

  // ----- the reason a refused call gives

  function MajorityReason(s: RaftState, entryIndex: int, ackCount: int, clusterSize: nat): Option<string> {
    if FindEntry(s.log, entryIndex) < 0 then Some("MISSING_ENTRY")
    else if ackCount < RequiredQuorumAcks(clusterSize) && s.failClosed then Some("QUORUM_FAILED")
    else if entryIndex <= s.commitIndex then Some("ALREADY_COMMITTED")
    else None
  }

  function FirstMisfit(shares: seq<Share>, term: int, index: int): Option<string> {
    if shares == [] then None
    else if shares[0].consensusTerm != term then Some("SHARE_TERM_MISMATCH")
    else if shares[0].index != index then Some("SHARE_INDEX_MISMATCH")
    else FirstMisfit(shares[1..], term, index)
  }

  function PayloadReason(p: Payload, c: BftCommit, record: EscrowRecord): Option<string> {
    if p.clusterSize != c.clusterSize then Some("PAYLOAD_CLUSTER_SIZE_MISMATCH")
    else if p.f != MaxFaulty(c.clusterSize) then Some("PAYLOAD_F_MISMATCH")
    else if p.threshold != Threshold(c.clusterSize) then Some("PAYLOAD_THRESHOLD_MISMATCH")
    else if |p.uniqueNodeIds| < p.threshold || |p.shares| < p.threshold then Some("BFT_THRESHOLD_NOT_REACHED")
    else if record.escrowRecordLeafHash != c.proposalCommitment then Some("COMMITMENT_RECORD_MISMATCH")
    else if p.shares == [] || p.shares[0].consensusTerm != c.consensusTerm then Some("CONSENSUS_TERM_MISMATCH")
    else if p.shares[0].index != c.index then Some("INDEX_MISMATCH")
    else if FirstMisfit(p.shares, c.consensusTerm, c.index).Some? then FirstMisfit(p.shares, c.consensusTerm, c.index)
    else if |Members(Ids(p.shares))| < p.threshold then Some("BFT_THRESHOLD_NOT_REACHED")
    else None
  }

  function BftReason(s: RaftState, c: BftCommit): Option<string> {
    var k := FindEntry(s.log, c.entryIndex);
    if k < 0 then Some("MISSING_ENTRY")
    else if c.entryIndex <= s.commitIndex then Some("ALREADY_COMMITTED")
    else if c.payload.None? then
      Some(if s.failClosed then "MISSING_BFT_PAYLOAD" else "MISSING_BFT_PAYLOAD_NON_FAIL_CLOSED")
    else PayloadReason(c.payload.value, c, s.log[k].record)
  }

  // ----- the engine

  class EnclaveRaftEngine {
    const db: DatabaseService
    var currentTerm: int
    var log: seq<LogEntry>
    var commitIndex: int
    var failClosed: bool

    ghost function State(): RaftState
      reads this, db.auditor, db.auditor.disk, db.auditor.notary
    {
      RaftState(currentTerm, log, commitIndex, failClosed, db.auditor.World())
    }

    constructor (db: DatabaseService)
      ensures this.db == db && currentTerm == 0 && log == [] && commitIndex == 0 && failClosed
    {
      this.db := db;
      currentTerm, log, commitIndex, failClosed := 0, [], 0, true;
    }

    method AppendLocalLog(record: EscrowRecord) returns (entry: LogEntry)
      modifies this`log
      ensures State() == Append(old(State()), record)
      ensures log == old(log) + [entry] && entry == LogEntry(currentTerm, |log|, record)
    {
      entry := LogEntry(currentTerm, |log| + 1, record);
      log := log + [entry];
    }

    method Find(entryIndex: int) returns (k: int)
      ensures k == FindEntry(log, entryIndex)
    {
      for i := 0 to |log|
        invariant forall j :: 0 <= j < i ==> log[j].index != entryIndex
      {
        if log[i].index == entryIndex {
          return i;
        }
      }
      return -1;
    }

    method WriteEntry(k: nat) returns (outcome: Outcome)
      requires k < |log|
      modifies this`commitIndex, db.auditor.disk`store, db.auditor.disk`checkpoint
      ensures (State(), outcome) == Write(db.auditor.h, old(State()), k)
    {
      var ok := db.SaveRecord(log[k].record);
      if !ok {
        return Threw;
      }
      commitIndex := log[k].index;
      outcome := Committed;
    }

    method CommitToLedgerIfQuorum(entryIndex: int, ackCount: int, clusterSize: nat) returns (outcome: Outcome)
      modifies this`commitIndex, db.auditor.disk`store, db.auditor.disk`checkpoint
      ensures if MajorityAccepts(old(State()), entryIndex, ackCount, clusterSize)
              then (State(), outcome) == Write(db.auditor.h, old(State()), FindEntry(old(log), entryIndex))
              else outcome.Refused? && State() == old(State())
      ensures outcome.Refused? ==> Some(outcome.reason) == MajorityReason(old(State()), entryIndex, ackCount, clusterSize)
    {
      var k := Find(entryIndex);
      if k < 0 {
        return Refused("MISSING_ENTRY");
      }
      if ackCount < RequiredQuorumAcks(clusterSize) {
        if failClosed {
          return Refused("QUORUM_FAILED");
        }
      }
      if entryIndex <= commitIndex {
        return Refused("ALREADY_COMMITTED");
      }
      outcome := WriteEntry(k);
    }

    method CommitToLedgerIfBftQuorum(c: BftCommit) returns (outcome: Outcome)
      modifies this`commitIndex, db.auditor.disk`store, db.auditor.disk`checkpoint
      ensures if BftAccepts(old(State()), c)
              then (State(), outcome) == Write(db.auditor.h, old(State()), FindEntry(old(log), c.entryIndex))
              else outcome.Refused? && State() == old(State())
      ensures outcome.Refused? ==> Some(outcome.reason) == BftReason(old(State()), c)
    {
      var k := Find(c.entryIndex);
      if k < 0 {
        return Refused("MISSING_ENTRY");
      }
      if c.entryIndex <= commitIndex {
        return Refused("ALREADY_COMMITTED");
      }
      if c.payload.None? {
        return Refused(if failClosed then "MISSING_BFT_PAYLOAD" else "MISSING_BFT_PAYLOAD_NON_FAIL_CLOSED");
      }
      var refusal := CheckPayload(c.payload.value, c, log[k].record);
      if refusal.Some? {
        return Refused(refusal.value);
      }
      outcome := WriteEntry(k);
    }

    /** The payload checks in their order; None if all of them pass. */
    static method CheckPayload(p: Payload, c: BftCommit, record: EscrowRecord) returns (refusal: Option<string>)
      ensures refusal.None? <==>
        record.escrowRecordLeafHash == c.proposalCommitment && PayloadFits(p, c.clusterSize, c.consensusTerm, c.index)
      ensures refusal == PayloadReason(p, c, record)
    {
      var fExpected := (c.clusterSize - 1) / 3;
      if p.clusterSize != c.clusterSize {
        return Some("PAYLOAD_CLUSTER_SIZE_MISMATCH");
      }
      if p.f != fExpected {
        return Some("PAYLOAD_F_MISMATCH");
      }
      if p.threshold != 2 * fExpected + 1 {
        return Some("PAYLOAD_THRESHOLD_MISMATCH");
      }
      if |p.uniqueNodeIds| < p.threshold {
        return Some("BFT_THRESHOLD_NOT_REACHED");
      }
      MembersAtMost(Ids(p.shares));
      if |p.shares| < p.threshold {
        return Some("BFT_THRESHOLD_NOT_REACHED");
      }
      if record.escrowRecordLeafHash != c.proposalCommitment {
        return Some("COMMITMENT_RECORD_MISMATCH");
      }
      if p.shares == [] || p.shares[0].consensusTerm != c.consensusTerm {
        return Some("CONSENSUS_TERM_MISMATCH");
      }
      if p.shares[0].index != c.index {
        return Some("INDEX_MISMATCH");
      }
      var nodeIdsSeen: set<string> := {};
      for i := 0 to |p.shares|
        invariant forall j :: 0 <= j < i ==> p.shares[j].consensusTerm == c.consensusTerm && p.shares[j].index == c.index
        invariant nodeIdsSeen == Members(Ids(p.shares)[..i])
        invariant FirstMisfit(p.shares[i..], c.consensusTerm, c.index) == FirstMisfit(p.shares, c.consensusTerm, c.index)
      {
        if p.shares[i].consensusTerm != c.consensusTerm {
          return Some("SHARE_TERM_MISMATCH");
        }
        if p.shares[i].index != c.index {
          return Some("SHARE_INDEX_MISMATCH");
        }
        nodeIdsSeen := nodeIdsSeen + {p.shares[i].nodeId};
        assert p.shares[i..][1..] == p.shares[i + 1..];
        assert Ids(p.shares)[..i + 1] == Ids(p.shares)[..i] + [p.shares[i].nodeId];
      }
      assert Ids(p.shares)[..|p.shares|] == Ids(p.shares);
      if |nodeIdsSeen| < p.threshold {
        return Some("BFT_THRESHOLD_NOT_REACHED");
      }
      refusal := None;
    }
  }

  lemma {:induction false} MembersAtMost(ids: seq<string>)
    ensures |Members(ids)| <= |ids|
  {
    if ids != [] {
      MembersAtMost(ids[1..]);
      assert Members(ids) == {ids[0]} + Members(ids[1..]);
    }
  }

  // ----- aggregator and committer agree

  /** Every aggregated payload passes the committer's checks for the same cluster, term and index. */
  lemma AggregatesFit(shares: seq<Share>, term: int, index: int, attested: Attestations, clusterSize: nat)
    requires clusterSize >= 1
    ensures var r := AggregateOf(shares, term, index, attested, clusterSize);
      r.Ok? ==> PayloadFits(r.value, clusterSize, term, index)
  {
    AggregationMeaning(shares, term, index, attested, clusterSize);
    var r := AggregateOf(shares, term, index, attested, clusterSize);
    if r.Ok? {
      IdsOfDistinct(r.value.uniqueNodeIds);
      forall i | 0 <= i < |r.value.shares|
        ensures r.value.shares[i].consensusTerm == term && r.value.shares[i].index == index
      {
        assert r.value.shares[i] in r.value.shares;
      }
    }
  }

  /**
   A commit for n >= 1 nodes has 2f+1 distinct node ids behind it, all for the term and index the caller
   named, and the committed entry carries the proposed commitment.
   */
  lemma CommitHasQuorum(h: Hash, s: RaftState, c: BftCommit)
    requires BftAccepts(s, c) && Write(h, s, FindEntry(s.log, c.entryIndex)).1.Committed?
    ensures var s' := Write(h, s, FindEntry(s.log, c.entryIndex)).0;
      && s.commitIndex < s'.commitIndex == c.entryIndex
      && |set x | x in c.payload.value.shares && x.consensusTerm == c.consensusTerm && x.index == c.index :: x.nodeId|
         >= 2 * ((c.clusterSize - 1) / 3) + 1
      && exists e :: e in s.log && e.index == c.entryIndex && e.record.escrowRecordLeafHash == c.proposalCommitment
  {
    var shares := c.payload.value.shares;
    var ids := set x | x in shares && x.consensusTerm == c.consensusTerm && x.index == c.index :: x.nodeId;
    forall id | id in Members(Ids(shares))
      ensures id in ids
    {
      var i :| 0 <= i < |shares| && Ids(shares)[i] == id;
      assert shares[i] in shares;
    }
    SubsetSize(Members(Ids(shares)), ids);
    assert s.log[FindEntry(s.log, c.entryIndex)] in s.log;
  }

  // ----- who stands behind a commit

  function Voices(ids: seq<string>, term: int, index: int): (shares: seq<Share>)
    ensures Ids(shares) == ids
    ensures forall i :: 0 <= i < |shares| ==> shares[i].consensusTerm == term && shares[i].index == index
  {
    var shares := seq(|ids|, i requires 0 <= i < |ids| => Share(ids[i], "", term, index, "", ""));
    assert Ids(shares) == ids;
    shares
  }

  /** The committer asks for no attestation: any list of enough distinct names, of nodes or not, makes a payload that fits. */
  lemma AnyNamesFit(ids: seq<string>, clusterSize: nat, term: int, index: int)
    requires NoDuplicates(ids) && ids != [] && |ids| >= Threshold(clusterSize)
    ensures var p := Payload(clusterSize, MaxFaulty(clusterSize), Threshold(clusterSize), ids, Voices(ids, term, index));
      PayloadFits(p, clusterSize, term, index)
  {
    IdsOfDistinct(ids);
  }

  function Name(c: char, k: nat): (s: string)
    ensures |s| == k + 1 && forall i :: 0 <= i < |s| ==> s[i] == c
  {
    seq(k + 1, _ => c)
  }

  function Names(c: char, n: nat): (ids: seq<string>)
    ensures |ids| == n && forall i :: 0 <= i < n ==> ids[i] == Name(c, i)
  {
    seq(n, i requires 0 <= i < n => Name(c, i))
  }

  lemma NamesAreDistinct(c: char, n: nat)
    ensures NoDuplicates(Names(c, n))
  {
    forall i, j | 0 <= i < j < n
      ensures Names(c, n)[i] != Names(c, n)[j]
    {
      assert |Name(c, i)| != |Name(c, j)|;
    }
  }

  /** So for every cluster size two payloads fit that have no name in common. */
  lemma DisjointPayloadsFit(clusterSize: nat, term: int, index: int) returns (p: Payload, q: Payload)
    requires clusterSize >= 1
    ensures PayloadFits(p, clusterSize, term, index) && PayloadFits(q, clusterSize, term, index)
    ensures Members(Ids(p.shares)) * Members(Ids(q.shares)) == {}
  {
    var t := Threshold(clusterSize);
    var a, b := Names('a', t), Names('b', t);
    NamesAreDistinct('a', t);
    NamesAreDistinct('b', t);
    AnyNamesFit(a, clusterSize, term, index);
    AnyNamesFit(b, clusterSize, term, index);
    p := Payload(clusterSize, MaxFaulty(clusterSize), t, a, Voices(a, term, index));
    q := Payload(clusterSize, MaxFaulty(clusterSize), t, b, Voices(b, term, index));
    forall x | x in Members(a)
      ensures x !in Members(b)
    {
      assert x[0] == 'a' && forall y :: y in b ==> y[0] == 'b';
    }
  }

  /** The names behind two commits all belong to some cluster of n nodes. */
  ghost predicate OfOneCluster(a: set<string>, b: set<string>, n: nat) {
    exists members: set<string> :: a <= members && b <= members && |members| <= n
  }

  /**
   Quorum overlap carries over to commits exactly as far as the names behind them belong to one cluster of n nodes;
   then they share at least 2(2f+1) - n.
   */
  lemma CommitsOverlapExactly(s: RaftState, c: BftCommit, s': RaftState, c': BftCommit)
    requires BftAccepts(s, c) && BftAccepts(s', c') && c.clusterSize == c'.clusterSize
    ensures var n := c.clusterSize;
      var a, b := Members(Ids(c.payload.value.shares)), Members(Ids(c'.payload.value.shares));
      && (OfOneCluster(a, b, n) <==> |a * b| >= |a| + |b| - n)
      && (OfOneCluster(a, b, n) ==> |a * b| >= 2 * Threshold(n) - n)
  {
    var n := c.clusterSize;
    var a, b := Members(Ids(c.payload.value.shares)), Members(Ids(c'.payload.value.shares));
    assert |a + b| == |a| + |b| - |a * b|;
    if OfOneCluster(a, b, n) {
      var members :| a <= members && b <= members && |members| <= n;
      SubsetSize(a + b, members);
    } else {
      assert a <= a + b && b <= a + b;
    }
  }

  /** The term of the log entry plays no part in the decision: only the caller's term is compared. */
  lemma EntryTermIsNotChecked(s: RaftState, c: BftCommit, k: nat, term: int)
    requires k < |s.log|
    ensures BftAccepts(s, c) <==> BftAccepts(s.(log := s.log[k := s.log[k].(term := term)]), c)
  {
    var log' := s.log[k := s.log[k].(term := term)];
    assert forall j :: 0 <= j < |s.log| ==> log'[j].index == s.log[j].index && log'[j].record == s.log[j].record;
    assert FindEntry(log', c.entryIndex) == FindEntry(s.log, c.entryIndex);
  }

  // A commit that names any term and index, for the first entry, with one share as a cluster of one node needs.
  function CommitUnder(record: EscrowRecord, term: int, index: int): BftCommit {
    var share := Share("node", "pcr0", term, index, "approval", "signature");
    BftCommit(1, 1, record.escrowRecordLeafHash, term, index, Some(Payload(1, 0, 1, ["node"], [share])))
  }

  /** Whatever term and index a caller names, an entry logged under term 0 and index 1 can be committed under them. */
  lemma AnyTermAndIndexIsAccepted(record: EscrowRecord, world: W.World, term: int, index: int)
    ensures var s := RaftState(0, [LogEntry(0, 1, record)], 0, true, world);
      BftAccepts(s, CommitUnder(record, term, index)) && FindEntry(s.log, 1) == 0
  {
    var c := CommitUnder(record, term, index);
    var ids := Ids(c.payload.value.shares);
    assert ids[0] == "node" && Members(ids) == {"node"};
    assert MaxFaulty(1) == 0;
  }

  /** The shares of an accepted commit carry the entry's own term and index exactly if the caller named these. */
  lemma SharesBindTheEntryExactly(s: RaftState, c: BftCommit)
    requires BftAccepts(s, c)
    ensures var e, shares := s.log[FindEntry(s.log, c.entryIndex)], c.payload.value.shares;
      (forall i :: 0 <= i < |shares| ==> shares[i].consensusTerm == e.term && shares[i].index == e.index)
      <==> c.consensusTerm == e.term && c.index == c.entryIndex
  {
    var shares := c.payload.value.shares;
    assert shares[0].consensusTerm == c.consensusTerm && shares[0].index == c.index;
  }

  // ----- when a commit goes through, spelled out

  /** A fail-closed majority commit has more than half of the cluster behind it; just half, or fewer, is refused. */
  lemma MajorityIsMoreThanHalf(s: RaftState, entryIndex: int, ackCount: int, clusterSize: nat)
    ensures MajorityAccepts(s, entryIndex, ackCount, clusterSize) <==>
      && (exists e :: e in s.log && e.index == entryIndex)
      && (2 * ackCount > clusterSize || !s.failClosed)
      && entryIndex > s.commitIndex
  {
    if exists e :: e in s.log && e.index == entryIndex {
      var e :| e in s.log && e.index == entryIndex;
      var j :| 0 <= j < |s.log| && s.log[j] == e;
    }
    if FindEntry(s.log, entryIndex) >= 0 {
      assert s.log[FindEntry(s.log, entryIndex)] in s.log;
    }
  }

  /** What a Byzantine commit needs. */
  lemma BftCommitSpelledOut(s: RaftState, c: BftCommit)
    ensures BftAccepts(s, c) <==>
      var k := FindEntry(s.log, c.entryIndex);
      && k >= 0 && c.entryIndex > s.commitIndex && s.log[k].record.escrowRecordLeafHash == c.proposalCommitment
      && c.payload.Some?
      && var p, f := c.payload.value, (c.clusterSize - 1) / 3;
         && p.clusterSize == c.clusterSize && p.f == f && p.threshold == 2 * f + 1
         && |p.uniqueNodeIds| >= 2 * f + 1 && |p.shares| > 0
         && (forall i :: 0 <= i < |p.shares| ==>
               p.shares[i].consensusTerm == c.consensusTerm && p.shares[i].index == c.index)
         && |set x | x in p.shares :: x.nodeId| >= 2 * f + 1
  {
    if c.payload.Some? {
      IdsAreNodeIds(c.payload.value.shares);
    }
  }

  lemma IdsAreNodeIds(shares: seq<Share>)
    ensures Members(Ids(shares)) == set x | x in shares :: x.nodeId
  {
    forall id | id in Members(Ids(shares))
      ensures id in set x | x in shares :: x.nodeId
    {
      var i :| 0 <= i < |shares| && Ids(shares)[i] == id;
      assert shares[i] in shares;
    }
    forall x | x in shares
      ensures x.nodeId in Members(Ids(shares))
    {
      var i :| 0 <= i < |shares| && shares[i] == x;
      assert Ids(shares)[i] == x.nodeId;
    }
  }

  /** A write that succeeds sets the commit index to that of the entry; one that throws changes nothing. */
  lemma WriteSpelledOut(h: Hash, s: RaftState, k: nat)
    requires k < |s.log|
    ensures var (s', outcome) := Write(h, s, k);
      && (outcome == Committed <==> s.world.store != W.Corrupt && s.world.storeWritable)
      && (outcome == Committed ==> s' == s.(world := s'.world, commitIndex := s.log[k].index))
      && (outcome == Committed ==> s'.world == W.SaveStep(h, s.world, s.log[k].record).0)
      && (outcome != Committed ==> s' == s && outcome == Threw)
  {
  }

  // ----- runs

  datatype Op =
    | AppendOp(record: EscrowRecord)
    | TermOp(term: int)
    | FailClosedOp(failClosed: bool)
    | MajorityOp(entryIndex: int, ackCount: int, clusterSize: nat)
    | BftOp(commit: BftCommit)
    | EnvironmentOp(world: W.World)   // anything outside the engine: files, faults, notary

  // The position in the log that a call commits, or -1.
  function Commits(s: RaftState, op: Op): (k: int)
    ensures -1 <= k < |s.log|
    ensures k >= 0 ==> s.log[k].index > s.commitIndex
  {
    match op
    case MajorityOp(i, acks, n) => if MajorityAccepts(s, i, acks, n) then FindEntry(s.log, i) else -1
    case BftOp(c) => if BftAccepts(s, c) then FindEntry(s.log, c.entryIndex) else -1
    case _ => -1
  }

  function Apply(h: Hash, s: RaftState, op: Op): (RaftState, Outcome) {
    match op
    case AppendOp(record) => (Append(s, record), Refused("NOT_A_COMMIT"))
    case TermOp(term) => (s.(currentTerm := term), Refused("NOT_A_COMMIT"))
    case FailClosedOp(b) => (s.(failClosed := b), Refused("NOT_A_COMMIT"))
    case EnvironmentOp(world) => (s.(world := world), Refused("NOT_A_COMMIT"))
    case _ => if Commits(s, op) >= 0 then Write(h, s, Commits(s, op)) else (s, Refused("REFUSED"))
  }

  // The state after a run, and the positions in the log committed along the way.
  function Run(h: Hash, s: RaftState, ops: seq<Op>): (RaftState, seq<nat>) {
    if ops == [] then (s, [])
    else
      var (before, committed) := Run(h, s, ops[..|ops| - 1]);
      var op := ops[|ops| - 1];
      var (after, outcome) := Apply(h, before, op);
      (after, if outcome.Committed? then committed + [Commits(before, op)] else committed)
  }

  ghost predicate Indexed(log: seq<LogEntry>) {
    forall k :: 0 <= k < |log| ==> log[k].index == k + 1
  }

  ghost predicate Inside(log: seq<LogEntry>, positions: seq<nat>) {
    forall i :: 0 <= i < |positions| ==> positions[i] < |log|
  }

  ghost function RecordsAt(log: seq<LogEntry>, positions: seq<nat>): seq<EscrowRecord>
    requires Inside(log, positions)
  {
    seq(|positions|, i requires 0 <= i < |positions| => log[positions[i]].record)
  }

  ghost predicate Increasing(positions: seq<nat>) {
    forall i, j :: 0 <= i < j < |positions| ==> positions[i] < positions[j]
  }

  /** Entries are numbered from 1, and the commit index is that of the last of ever later commits. */
  ghost predicate InOrder(s: RaftState, committed: seq<nat>) {
    && Indexed(s.log)
    && Increasing(committed) && Inside(s.log, committed)
    && s.commitIndex == (if committed == [] then 0 else committed[|committed| - 1] + 1)
    && 0 <= s.commitIndex <= |s.log|
  }

  lemma LaterCommitKeepsOrder(s: RaftState, committed: seq<nat>, k: nat, world: W.World)
    requires InOrder(s, committed) && k < |s.log| && s.log[k].index > s.commitIndex
    ensures InOrder(s.(world := world, commitIndex := s.log[k].index), committed + [k])
  {
    assert committed != [] ==> committed[|committed| - 1] < k;
  }

  lemma StepKeepsOrder(h: Hash, s: RaftState, committed: seq<nat>, op: Op)
    requires InOrder(s, committed)
    ensures var (s', outcome) := Apply(h, s, op);
      InOrder(s', if outcome.Committed? then committed + [Commits(s, op)] else committed)
  {
    if Apply(h, s, op).1.Committed? {
      LaterCommitKeepsOrder(s, committed, Commits(s, op), Apply(h, s, op).0.world);
    }
  }

  /**
   Runs of non-overlapping calls, with files and faults changing in between at will: entry k of the log has
   index k+1, and commits go strictly up the log, so that no entry is committed twice and the commit index never
   passes the log.
   */
  lemma {:induction false} RunsKeepOrder(h: Hash, s: RaftState, ops: seq<Op>)
    requires s.log == [] && s.commitIndex == 0
    ensures var (s', committed) := Run(h, s, ops);
      InOrder(s', committed)
  {
    if ops != [] {
      RunsKeepOrder(h, s, ops[..|ops| - 1]);
      var (before, committed) := Run(h, s, ops[..|ops| - 1]);
      StepKeepsOrder(h, before, committed, ops[|ops| - 1]);
    }
  }

  // The records that can be read in a state.
  function Stored(s: RaftState): seq<EscrowRecord> {
    W.AllRecords(s.world.store)
  }

  lemma LongerLogSameRecords(log: seq<LogEntry>, more: seq<LogEntry>, positions: seq<nat>)
    requires Inside(log, positions) && log <= more
    ensures RecordsAt(more, positions) == RecordsAt(log, positions)
  {
    assert forall i :: 0 <= i < |positions| ==> more[positions[i]] == log[positions[i]];
  }

  lemma {:induction false} SaveFoldAppend(start: seq<EscrowRecord>, log: seq<LogEntry>, committed: seq<nat>, k: nat)
    requires Inside(log, committed) && k < |log|
    ensures G.SaveFold(start, RecordsAt(log, committed + [k]))
         == G.Kept(W.Upsert(G.SaveFold(start, RecordsAt(log, committed)), log[k].record))
  {
    var records := RecordsAt(log, committed + [k]);
    assert records[..|records| - 1] == RecordsAt(log, committed);
  }

  /** The stored records are the committed ones, saved in commit order. */
  ghost predicate RunInvariant(start: seq<EscrowRecord>, s: RaftState, committed: seq<nat>) {
    InOrder(s, committed) && Stored(s) == G.SaveFold(start, RecordsAt(s.log, committed))
  }

  /** One write adds one save and one position, or it throws and adds nothing. */
  lemma CommitKeepsInvariant(h: Hash, start: seq<EscrowRecord>, s: RaftState, committed: seq<nat>, k: nat)
    requires RunInvariant(start, s, committed) && k < |s.log| && s.log[k].index > s.commitIndex
    ensures var (s', outcome) := Write(h, s, k);
      && s'.log == s.log && (outcome.Committed? || s' == s)
      && RunInvariant(start, s', if outcome.Committed? then committed + [k] else committed)
  {
    if !s.world.store.Corrupt? && s.world.storeWritable {
      G.SaveKeepsReadable(h, s.world, s.log[k].record);
      SaveFoldAppend(start, s.log, committed, k);
      LaterCommitKeepsOrder(s, committed, k, W.SaveStep(h, s.world, s.log[k].record).0);
    }
  }

  ghost predicate LastCommits(h: Hash, s: RaftState, ops: seq<Op>)
    requires ops != []
  {
    Apply(h, Run(h, s, ops[..|ops| - 1]).0, ops[|ops| - 1]).1.Committed?
  }

  /** What could be read right after the last commit of a run, or at its start. */
  ghost function LastWritten(h: Hash, s: RaftState, ops: seq<Op>): seq<EscrowRecord> {
    if ops == [] then Stored(s)
    else if LastCommits(h, s, ops) then Stored(Run(h, s, ops).0)
    else LastWritten(h, s, ops[..|ops| - 1])
  }

  /** Whatever happens to the files in between, each commit finds the records that the one before it left. */
  ghost predicate IntactWhenWritten(h: Hash, s: RaftState, ops: seq<Op>) {
    forall i :: 0 <= i < |ops| && LastCommits(h, s, ops[..i + 1]) ==>
      Stored(Run(h, s, ops[..i]).0) == LastWritten(h, s, ops[..i])
  }

  lemma {:induction false} EarlierIntact(h: Hash, s: RaftState, ops: seq<Op>)
    requires ops != [] && IntactWhenWritten(h, s, ops)
    ensures IntactWhenWritten(h, s, ops[..|ops| - 1])
    ensures LastCommits(h, s, ops) ==> Stored(Run(h, s, ops[..|ops| - 1]).0) == LastWritten(h, s, ops[..|ops| - 1])
  {
    var before := ops[..|ops| - 1];
    assert ops[..|before| + 1] == ops;
    forall i | 0 <= i < |before| && LastCommits(h, s, before[..i + 1])
      ensures Stored(Run(h, s, before[..i]).0) == LastWritten(h, s, before[..i])
    {
      assert ops[..i] == before[..i] && ops[..i + 1] == before[..i + 1];
    }
  }

  lemma StepKeepsRecords(h: Hash, s: RaftState, committed: seq<nat>, op: Op)
    requires InOrder(s, committed)
    ensures var s' := Apply(h, s, op).0;
      Inside(s'.log, committed) && RecordsAt(s'.log, committed) == RecordsAt(s.log, committed)
  {
    LongerLogSameRecords(s.log, Apply(h, s, op).0.log, committed);
  }

  lemma {:induction false} StepRefinesSaves(h: Hash, start: seq<EscrowRecord>, s: RaftState, committed: seq<nat>, op: Op,
                         ledger: seq<EscrowRecord>)
    requires InOrder(s, committed) && ledger == G.SaveFold(start, RecordsAt(s.log, committed))
    requires Apply(h, s, op).1.Committed? ==> Stored(s) == ledger
    ensures var (s', outcome) := Apply(h, s, op);
      if outcome.Committed? then RunInvariant(start, s', committed + [Commits(s, op)])
      else InOrder(s', committed) && ledger == G.SaveFold(start, RecordsAt(s'.log, committed))
  {
    StepKeepsOrder(h, s, committed, op);
    StepKeepsRecords(h, s, committed, op);
    if Apply(h, s, op).1.Committed? {
      CommitKeepsInvariant(h, start, s, committed, Commits(s, op));
    }
  }

  /**
   Runs refine saves: right after the last commit the readable ledger is exactly the committed records saved in
   commit order. A write that throws leaves no trace, and one that does not is not lost.
   */
  lemma {:induction false} RunsRefineSaves(h: Hash, s: RaftState, ops: seq<Op>)
    requires s.log == [] && s.commitIndex == 0 && IntactWhenWritten(h, s, ops)
    ensures var (s', committed) := Run(h, s, ops);
      InOrder(s', committed) && LastWritten(h, s, ops) == G.SaveFold(Stored(s), RecordsAt(s'.log, committed))
  {
    if ops == [] {
      assert |RecordsAt(s.log, [])| == 0;
    } else {
      var before, op := ops[..|ops| - 1], ops[|ops| - 1];
      EarlierIntact(h, s, ops);
      RunsRefineSaves(h, s, before);
      var (at, committed) := Run(h, s, before);
      StepRefinesSaves(h, Stored(s), at, committed, op, LastWritten(h, s, before));
    }
  }

  // Every logged record can be read back.
  ghost predicate AllReadable(log: seq<LogEntry>) {
    forall k :: 0 <= k < |log| ==> W.PassesGuard(log[k].record)
  }

  lemma {:induction false} AppendedAreLogged(h: Hash, s: RaftState, ops: seq<Op>)
    requires AllReadable(s.log)
    requires forall i :: 0 <= i < |ops| && ops[i].AppendOp? ==> W.PassesGuard(ops[i].record)
    ensures AllReadable(Run(h, s, ops).0.log)
  {
    if ops != [] {
      AppendedAreLogged(h, s, ops[..|ops| - 1]);
    }
  }

  /** The environment may break and mend anything, but leaves the readable records of the store as they are. */
  ghost predicate LeavesRecords(h: Hash, s: RaftState, ops: seq<Op>) {
    forall i :: 0 <= i < |ops| && ops[i].EnvironmentOp? ==>
      Stored(s.(world := ops[i].world)) == Stored(Run(h, s, ops[..i]).0)
  }

  lemma {:induction false} LeavingRecordsIsIntact(h: Hash, s: RaftState, ops: seq<Op>)
    requires LeavesRecords(h, s, ops)
    ensures Stored(Run(h, s, ops).0) == LastWritten(h, s, ops) && IntactWhenWritten(h, s, ops)
  {
    if ops != [] {
      var before := ops[..|ops| - 1];
      assert forall i :: 0 <= i < |before| ==> ops[..i] == before[..i];
      LeavingRecordsIsIntact(h, s, before);
      forall i | 0 <= i < |ops| && LastCommits(h, s, ops[..i + 1])
        ensures Stored(Run(h, s, ops[..i]).0) == LastWritten(h, s, ops[..i])
      {
        assert i < |before| ==> ops[..i + 1] == before[..i + 1];
        assert i == |before| ==> ops[..i] == before;
      }
    }
  }

  /** When the records are left alone and all can be read back, the ledger is their upserts at every moment. */
  lemma {:induction false} RunsRefineUpserts(h: Hash, s: RaftState, ops: seq<Op>)
    requires s.log == [] && s.commitIndex == 0 && LeavesRecords(h, s, ops)
    requires forall i :: 0 <= i < |ops| && ops[i].AppendOp? ==> W.PassesGuard(ops[i].record)
    ensures var (s', committed) := Run(h, s, ops);
      && AllReadable(s'.log) && RunInvariant(Stored(s), s', committed)
      && Stored(s') == G.UpsertAll(Stored(s), RecordsAt(s'.log, committed))
  {
    LeavingRecordsIsIntact(h, s, ops);
    RunsRefineSaves(h, s, ops);
    AppendedAreLogged(h, s, ops);
    var (s', committed) := Run(h, s, ops);
    G.UpsertAllReadable(Stored(s), RecordsAt(s'.log, committed));
  }

  /** A call that does not commit leaves ledger, commit index and log alone. */
  lemma RefusedCallsChangeNothing(h: Hash, s: RaftState, op: Op)
    requires (op.MajorityOp? || op.BftOp?) && !Apply(h, s, op).1.Committed?
    ensures Apply(h, s, op).0 == s
  {
  }
}
