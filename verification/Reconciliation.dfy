/**
 Catch-up after a partition: blocks are accepted in index order along a chain of hashes, or a snapshot
 stands in for them.
 */
module Reconciliation {
  import opened Wrappers
  import opened Hashing
  import opened Texts
  import opened Json
  import opened LedgerMerkle
  import D = Decimal

  const GENESIS := "GENESIS_BLOCK"
  const MAX_SNAPSHOT_HISTORY: nat := 10

  datatype CatchUpBlock = CatchUpBlock(
    blockId: string, index: int, term: int, entries: seq<EscrowRecord>, merkleHash: string, signature: string,
    previousMerkleHash: string)

  datatype QuorumSignature = QuorumSignature(nodeId: string, signature: string, term: int)

  datatype Snapshot = Snapshot(
    snapshotId: string, timestamp: int, latestIndex: int, latestTerm: int, merkleRootHash: string,
    committedTransactionCount: nat, quorumSignatures: seq<QuorumSignature>, merklePath: seq<string>,
    latestEntry: Option<EscrowRecord>)

  datatype ReconciliationState = ReconciliationState(
    isReconciling: bool, localIndex: int, targetCommitIndex: int, blocksApplied: nat, lastAppliedMerkleHash: string)

  // Applied blocks in order of application; an accepted index is always a new one.
  datatype Engine = Engine(state: Option<ReconciliationState>, applied: seq<CatchUpBlock>, lastHash: string)

  // ----- hashing the entries of a block

  function TimeJson(t: Option<int>): Json {
    if t.Some? then Num(t.value) else Null
  }

  function EntryJson(r: EscrowRecord): Json {
    Obj([
      Field("transactionId", Str(r.transactionId)),
      Field("escrowRecordLeafHash", Str(r.escrowRecordLeafHash)),
      Field("signature", Str(r.signature)),
      Field("status", Str(r.status)),
      Field("validAfterMs", TimeJson(r.validAfterMs)),
      Field("validUntilMs", TimeJson(r.validUntilMs)),
      Field("timestamp", Str(r.timestamp))
    ])
  }

  function EntryText(r: EscrowRecord): string {
    Stringify(EntryJson(r))
  }

  function EntryTexts(entries: seq<EscrowRecord>): (texts: seq<string>)
    ensures |texts| == |entries|
    ensures forall i :: 0 <= i < |texts| ==> texts[i] == EntryText(entries[i])
  {
    seq(|entries|, i requires 0 <= i < |entries| => EntryText(entries[i]))
  }

  // The text hashed last for a list of printed entries.
  function ChainText(h: Hash, ts: seq<string>): string
    decreases |ts|
  {
    if ts == [] then "EMPTY"
    else if |ts| == 1 then ts[0]
    else h(ChainText(h, ts[..|ts| - 1])) + h(ts[|ts| - 1])
  }

  /** `computeBlockMerkleHash`, and `computeMerkleRoot` of the snapshot manager. */
  function EntriesHash(h: Hash, entries: seq<EscrowRecord>): string {
    h(ChainText(h, EntryTexts(entries)))
  }

  function ChainTexts(h: Hash, ts: seq<string>): set<string>
    decreases |ts|
  {
    if ts == [] then {ChainText(h, ts)}
    else {ChainText(h, ts), ts[|ts| - 1]} + ChainTexts(h, ts[..|ts| - 1])
  }

  /** Every text hashed on the way. */
  function EntriesTexts(h: Hash, entries: seq<EscrowRecord>): set<string> {
    ChainTexts(h, EntryTexts(entries))
  }

  lemma EntryTextIsInjective(a: EscrowRecord, b: EscrowRecord)
    requires EntryText(a) == EntryText(b)
    ensures a == b
  {
    var v, w := EntryJson(a), EntryJson(b);
    StringifyIsInjective(v, w);
    assert v.fields[0].value == w.fields[0].value && v.fields[1].value == w.fields[1].value;
    assert v.fields[2].value == w.fields[2].value && v.fields[3].value == w.fields[3].value;
    assert v.fields[4].value == w.fields[4].value && v.fields[5].value == w.fields[5].value;
    assert v.fields[6].value == w.fields[6].value;
  }

  ghost predicate AllObjects(ts: seq<string>) {
    forall i :: 0 <= i < |ts| ==> ts[i] != "" && ts[i][0] == '{'
  }

  // The kinds of hashed text: nothing, one record, two digests.
  lemma {:induction false} ChainTextShape(h: Hash, ts: seq<string>)
    requires YieldsDigests(h) && AllObjects(ts)
    ensures var t := ChainText(h, ts);
      && (|ts| == 0 ==> |t| == 5 && t[0] == 'E')
      && (|ts| == 1 ==> |t| > 0 && t[0] == '{')
      && (|ts| > 1 ==> |t| == 128 && IsHexChar(t[0]))
  {
    if |ts| > 1 {
      assert IsHexDigest(h(ChainText(h, ts[..|ts| - 1]))) && IsHexDigest(h(ts[|ts| - 1]));
    }
  }

  lemma SplitLastStep(h: Hash, t: string, x: string, u: string, y: string, texts: set<string>)
    requires YieldsDigests(h) && CollisionFree(h, texts) && x in texts && y in texts
    requires h(t) + h(x) == h(u) + h(y)
    ensures h(t) == h(u) && x == y
  {
    assert IsHexDigest(h(t)) && IsHexDigest(h(u));
    Split(h(t), h(x), h(u), h(y));
  }

  lemma InitAndLast(a: seq<string>, b: seq<string>)
    requires a != [] && b != [] && a[..|a| - 1] == b[..|b| - 1] && a[|a| - 1] == b[|b| - 1]
    ensures a == b
  {
    assert a == a[..|a| - 1] + [a[|a| - 1]] && b == b[..|b| - 1] + [b[|b| - 1]];
  }

  lemma {:induction false} ChainHashIsInjective(h: Hash, a: seq<string>, b: seq<string>, texts: set<string>)
    requires YieldsDigests(h) && CollisionFree(h, texts) && AllObjects(a) && AllObjects(b)
    requires ChainTexts(h, a) <= texts && ChainTexts(h, b) <= texts
    requires h(ChainText(h, a)) == h(ChainText(h, b))
    ensures a == b
    decreases |a|
  {
    assert ChainText(h, a) in ChainTexts(h, a) && ChainText(h, b) in ChainTexts(h, b);
    SameChainKind(h, a, b);
    if |a| == 1 {
      assert a == [a[0]] && b == [b[0]];
    } else if |a| > 1 {
      var i, j := a[..|a| - 1], b[..|b| - 1];
      SplitLastStep(h, ChainText(h, i), a[|a| - 1], ChainText(h, j), b[|b| - 1], texts);
      ChainHashIsInjective(h, i, j, texts);
      InitAndLast(a, b);
    }
  }

  lemma {:induction false} SameChainKind(h: Hash, a: seq<string>, b: seq<string>)
    requires YieldsDigests(h) && AllObjects(a) && AllObjects(b) && ChainText(h, a) == ChainText(h, b)
    ensures (|a| == 0 <==> |b| == 0) && (|a| == 1 <==> |b| == 1)
  {
    ChainTextShape(h, a);
    ChainTextShape(h, b);
  }

  lemma EntryTextsAreObjects(entries: seq<EscrowRecord>)
    ensures AllObjects(EntryTexts(entries))
  {
    forall i | 0 <= i < |entries|
      ensures EntryTexts(entries)[i] != "" && EntryTexts(entries)[i][0] == '{'
    {
      PrintLeads(false, EntryJson(entries[i]));
    }
  }

  /** The hash of a block determines its entries, time locks included. */
  lemma EntriesHashIsInjective(h: Hash, a: seq<EscrowRecord>, b: seq<EscrowRecord>, texts: set<string>)
    requires YieldsDigests(h) && CollisionFree(h, texts)
    requires EntriesTexts(h, a) <= texts && EntriesTexts(h, b) <= texts
    requires EntriesHash(h, a) == EntriesHash(h, b)
    ensures a == b
  {
    EntryTextsAreObjects(a);
    EntryTextsAreObjects(b);
    ChainHashIsInjective(h, EntryTexts(a), EntryTexts(b), texts);
    forall i | 0 <= i < |a|
      ensures a[i] == b[i]
    {
      assert EntryTexts(a)[i] == EntryTexts(b)[i];
      EntryTextIsInjective(a[i], b[i]);
    }
  }

  // ----- steps

  function MaxIndex(blocks: seq<CatchUpBlock>): (m: int)
    requires blocks != []
    ensures forall k :: 0 <= k < |blocks| ==> blocks[k].index <= m
    ensures exists k :: 0 <= k < |blocks| && blocks[k].index == m
  {
    if |blocks| == 1 then blocks[0].index
    else
      var m := MaxIndex(blocks[..|blocks| - 1]);
      if blocks[|blocks| - 1].index > m then blocks[|blocks| - 1].index else m
  }

  function ExpectedIndex(e: Engine): int
    requires e.state.Some?
  {
    1 + if e.applied != [] then MaxIndex(e.applied) else e.state.value.localIndex
  }

  predicate Active(e: Engine) {
    e.state.Some? && e.state.value.isReconciling
  }

  predicate AcceptsBlock(h: Hash, e: Engine, b: CatchUpBlock) {
    && Active(e) && b.index == ExpectedIndex(e)
    && b.previousMerkleHash == e.lastHash
    && b.merkleHash == EntriesHash(h, b.entries)
    && b.signature != ""
  }

  function QuorumThreshold(n: nat): nat {
    var twoThirds := (2 * n + 2) / 3;
    if twoThirds > 2 then twoThirds else 2
  }

  predicate ValidSnapshot(s: Snapshot) {
    && s.quorumSignatures != []
    && |s.quorumSignatures| >= QuorumThreshold(|s.quorumSignatures|)
    && forall i :: 0 <= i < |s.quorumSignatures| ==> s.quorumSignatures[i].signature != ""
  }

  /** The threshold is taken from the snapshot's own signature list: any two non-empty signatures meet it. */
  lemma SnapshotQuorumIsTwo(s: Snapshot)
    ensures ValidSnapshot(s) <==>
      |s.quorumSignatures| >= 2 && forall i :: 0 <= i < |s.quorumSignatures| ==> s.quorumSignatures[i].signature != ""
  {
  }

  function Begin(e: Engine, localIndex: int, targetCommitIndex: int): Engine {
    Engine(Some(ReconciliationState(true, localIndex, targetCommitIndex, 0, e.lastHash)), [], e.lastHash)
  }

  function ApplyBlock(h: Hash, e: Engine, b: CatchUpBlock): Engine {
    if !AcceptsBlock(h, e, b) then e
    else
      var st := e.state.value;
      Engine(Some(st.(blocksApplied := st.blocksApplied + 1, lastAppliedMerkleHash := b.merkleHash)),
             e.applied + [b], b.merkleHash)
  }

  function ApplySnapshot(e: Engine, s: Snapshot): Engine {
    if !Active(e) || !ValidSnapshot(s) then e
    else
      var st := e.state.value;
      Engine(Some(st.(blocksApplied := st.blocksApplied + 1, localIndex := s.latestIndex,
                      lastAppliedMerkleHash := s.merkleRootHash)),
             e.applied, s.merkleRootHash)
  }

  function Complete(e: Engine): Engine {
    e.(state := None)
  }

  // ----- spelled out

  /** The hash of a block: none, one, or one more entry, each hashed by itself and then with the hash so far. */
  lemma {:induction false} EntriesHashSpelledOut(h: Hash, entries: seq<EscrowRecord>, last: EscrowRecord)
    ensures EntriesHash(h, []) == h("EMPTY")
    ensures EntriesHash(h, [last]) == h(EntryText(last))
    ensures entries != [] ==> EntriesHash(h, entries + [last]) == h(EntriesHash(h, entries) + h(EntryText(last)))
  {
    assert EntryTexts([]) == [] && EntryTexts([last]) == [EntryText(last)];
    if entries != [] {
      var ts := EntryTexts(entries + [last]);
      assert ts[..|ts| - 1] == EntryTexts(entries);
    }
  }

  lemma EntryLeads()
    ensures Labels("\"transactionId\":", "transactionId") && Labels("\"escrowRecordLeafHash\":", "escrowRecordLeafHash")
  {
  }

  lemma MoreEntryLeads()
    ensures Labels("\"signature\":", "signature") && Labels("\"status\":", "status")
    ensures Labels("\"timestamp\":", "timestamp")
  {
  }

  lemma TimeLockLeads()
    ensures Labels("\"validAfterMs\":", "validAfterMs") && Labels("\"validUntilMs\":", "validUntilMs")
  {
  }

  // The text of seven members in the order given, from the texts of their values.
  lemma {:induction false} SevenMembers(fs: seq<Field>, l: seq<string>, q: seq<string>)
    requires |fs| == |l| == |q| == 7
    requires forall i :: 0 <= i < 7 ==> Labels(l[i], fs[i].key) && Stringify(fs[i].value) == q[i]
    ensures Stringify(Obj(fs))
            == "{" + (l[0] + q[0] + "," + (l[1] + q[1] + "," + (l[2] + q[2] + "," + (l[3] + q[3] + ","
               + (l[4] + q[4] + "," + (l[5] + q[5] + "," + (l[6] + q[6] + "}")))))))
  {
    var t6 := l[6] + q[6] + "}";
    var t5 := l[5] + q[5] + "," + t6;
    var t4 := l[4] + q[4] + "," + t5;
    var t3 := l[3] + q[3] + "," + t4;
    var t2 := l[2] + q[2] + "," + t3;
    var t1 := l[1] + q[1] + "," + t2;
    FieldText(fs, 6, l[6], q[6], "");
    FieldText(fs, 5, l[5], q[5], t6);
    FieldText(fs, 4, l[4], q[4], t5);
    FieldText(fs, 3, l[3], q[3], t4);
    FieldText(fs, 2, l[2], q[2], t3);
    FieldText(fs, 1, l[1], q[1], t2);
    FieldText(fs, 0, l[0], q[0], t1);
    assert fs[0..] == fs;
  }

  function TimeText(t: Option<int>): string {
    if t.None? then "null" else if t.value < 0 then "-" + D.Render(-t.value) else D.Render(t.value)
  }

  function EntryLeadsInOrder(): seq<string> {
    ["\"transactionId\":", "\"escrowRecordLeafHash\":", "\"signature\":", "\"status\":", "\"validAfterMs\":",
     "\"validUntilMs\":", "\"timestamp\":"]
  }

  function EntryValues(r: EscrowRecord): seq<string> {
    [Quote(r.transactionId), Quote(r.escrowRecordLeafHash), Quote(r.signature), Quote(r.status),
     TimeText(r.validAfterMs), TimeText(r.validUntilMs), Quote(r.timestamp)]
  }

  lemma {:induction false} LeadsFit(r: EscrowRecord, fs: seq<Field>, l: seq<string>)
    requires fs == EntryJson(r).fields && l == EntryLeadsInOrder()
    ensures |fs| == |l| == 7 && forall i :: 0 <= i < 7 ==> Labels(l[i], fs[i].key)
  {
    EntryLeads();
    MoreEntryLeads();
    TimeLockLeads();
  }

  lemma {:induction false} ValuesFit(r: EscrowRecord, fs: seq<Field>, q: seq<string>)
    requires fs == EntryJson(r).fields && q == EntryValues(r)
    ensures |fs| == |q| == 7 && forall i :: 0 <= i < 7 ==> Stringify(fs[i].value) == q[i]
  {
  }

  /** The text of an entry: its seven members in the order of their declaration, time locks included. */
  lemma {:induction false} EntryTextSpelledOut(r: EscrowRecord, l: seq<string>, q: seq<string>)
    requires l == EntryLeadsInOrder() && q == EntryValues(r)
    ensures EntryText(r)
            == "{" + (l[0] + q[0] + "," + (l[1] + q[1] + "," + (l[2] + q[2] + "," + (l[3] + q[3] + ","
               + (l[4] + q[4] + "," + (l[5] + q[5] + "," + (l[6] + q[6] + "}")))))))
  {
    var fs := EntryJson(r).fields;
    LeadsFit(r, fs, l);
    ValuesFit(r, fs, q);
    SevenMembers(fs, l, q);
  }

  /** Which blocks are accepted: the next index, the right link, the hash of the entries, and a signature. */
  lemma AcceptsBlockSpelledOut(h: Hash, e: Engine, b: CatchUpBlock)
    ensures AcceptsBlock(h, e, b) <==>
      && e.state.Some? && e.state.value.isReconciling
      && b.index == 1 + (if e.applied == [] then e.state.value.localIndex else MaxIndex(e.applied))
      && b.previousMerkleHash == e.lastHash && b.merkleHash == EntriesHash(h, b.entries) && b.signature != ""
  {
  }

  // ----- the engine

  class EnclaveReconciliationEngine {
    const h: Hash
    var reconciliationState: Option<ReconciliationState>
    var appliedBlocks: seq<CatchUpBlock>
    var lastAppliedMerkleHash: string

    ghost function State(): Engine
      reads this
    {
      Engine(reconciliationState, appliedBlocks, lastAppliedMerkleHash)
    }

    constructor (h: Hash)
      ensures this.h == h && State() == Engine(None, [], GENESIS)
    {
      this.h := h;
      reconciliationState, appliedBlocks, lastAppliedMerkleHash := None, [], GENESIS;
    }

    method BeginReconciliation(localIndex: int, targetCommitIndex: int) returns (st: ReconciliationState)
      modifies this
      ensures State() == Begin(old(State()), localIndex, targetCommitIndex) && reconciliationState == Some(st)
      ensures st == ReconciliationState(true, localIndex, targetCommitIndex, 0, old(lastAppliedMerkleHash))
      ensures appliedBlocks == [] && lastAppliedMerkleHash == old(lastAppliedMerkleHash)
    {
      st := ReconciliationState(true, localIndex, targetCommitIndex, 0, lastAppliedMerkleHash);
      reconciliationState := Some(st);
      appliedBlocks := [];
    }

    method ApplyCatchUpBlock(b: CatchUpBlock) returns (r: Result<(), string>)
      modifies this
      ensures State() == ApplyBlock(h, old(State()), b)
      ensures r.Ok? <==> AcceptsBlock(h, old(State()), b)
      ensures r.Err? ==> State() == old(State())
      ensures r.Ok? ==>
        && appliedBlocks == old(appliedBlocks) + [b] && lastAppliedMerkleHash == b.merkleHash
        && reconciliationState == Some(old(reconciliationState).value.(
             blocksApplied := old(reconciliationState).value.blocksApplied + 1, lastAppliedMerkleHash := b.merkleHash))
    {
      if reconciliationState.None? || !reconciliationState.value.isReconciling {
        return Err("No active reconciliation");
      }
      var st := reconciliationState.value;
      var lastAppliedIndex := st.localIndex;
      if |appliedBlocks| > 0 {
        lastAppliedIndex := LargestIndex(appliedBlocks);
      }
      if b.index != lastAppliedIndex + 1 {
        return Err("Non-linear block index");
      }
      if b.previousMerkleHash != lastAppliedMerkleHash {
        return Err("Merkle chain broken: previous hash mismatch");
      }
      var expectedMerkleHash := ComputeBlockMerkleHash(h, b.entries);
      if b.merkleHash != expectedMerkleHash {
        return Err("Block Merkle hash invalid");
      }
      if |b.signature| == 0 {
        return Err("Block missing valid signature");
      }
      appliedBlocks := appliedBlocks + [b];
      lastAppliedMerkleHash := b.merkleHash;
      reconciliationState := Some(st.(blocksApplied := st.blocksApplied + 1, lastAppliedMerkleHash := b.merkleHash));
      r := Ok(());
    }

    static method LargestIndex(blocks: seq<CatchUpBlock>) returns (m: int)
      requires blocks != []
      ensures m == MaxIndex(blocks)
    {
      m := blocks[0].index;
      for i := 1 to |blocks|
        invariant m == MaxIndex(blocks[..i])
      {
        assert blocks[..i + 1][..i] == blocks[..i];
        if blocks[i].index > m {
          m := blocks[i].index;
        }
      }
      assert blocks[..|blocks|] == blocks;
    }

    static method ComputeBlockMerkleHash(h: Hash, entries: seq<EscrowRecord>) returns (current: string)
      ensures current == EntriesHash(h, entries)
    {
      if |entries| == 0 {
        return h("EMPTY");
      }
      ghost var ts := EntryTexts(entries);
      current := h(EntryText(entries[0]));
      for i := 1 to |entries|
        invariant current == h(ChainText(h, ts[..i]))
      {
        assert ts[..i + 1][..i] == ts[..i];
        var entryHash := h(EntryText(entries[i]));
        current := h(current + entryHash);
      }
      assert ts[..|entries|] == ts;
    }

    method ApplySnapshotOf(s: Snapshot) returns (r: Result<(), string>)
      modifies this
      ensures State() == ApplySnapshot(old(State()), s)
      ensures r.Ok? <==> Active(old(State())) && ValidSnapshot(s)
      ensures r.Err? ==> State() == old(State())
      ensures r.Ok? ==>
        && appliedBlocks == old(appliedBlocks) && lastAppliedMerkleHash == s.merkleRootHash
        && reconciliationState == Some(old(reconciliationState).value.(
             blocksApplied := old(reconciliationState).value.blocksApplied + 1, localIndex := s.latestIndex,
             lastAppliedMerkleHash := s.merkleRootHash))
    {
      if reconciliationState.None? || !reconciliationState.value.isReconciling {
        return Err("No active reconciliation");
      }
      if !ValidSnapshot(s) {
        return Err("Snapshot validation failed");
      }
      var st := reconciliationState.value;
      lastAppliedMerkleHash := s.merkleRootHash;
      reconciliationState := Some(st.(blocksApplied := st.blocksApplied + 1, localIndex := s.latestIndex,
                                      lastAppliedMerkleHash := s.merkleRootHash));
      r := Ok(());
    }

    method CompleteReconciliation() returns (completed: Option<ReconciliationState>)
      modifies this
      ensures State() == Complete(old(State()))
      ensures reconciliationState == None
      ensures appliedBlocks == old(appliedBlocks) && lastAppliedMerkleHash == old(lastAppliedMerkleHash)
      ensures completed == if old(reconciliationState).None? then None
                           else Some(old(reconciliationState).value.(isReconciling := false))
    {
      if reconciliationState.None? {
        return None;
      }
      completed := Some(reconciliationState.value.(isReconciling := false));
      reconciliationState := None;
    }
  }

  /** Snapshots by id, and the ten most recent of them in order of creation. */
  class EnclaveSnapshotManager {
    const h: Hash
    var snapshots: map<string, Snapshot>
    var snapshotHistory: seq<Snapshot>

    ghost predicate Valid()
      reads this
    {
      Consistent() && |snapshotHistory| <= MAX_SNAPSHOT_HISTORY
    }

    ghost predicate Consistent()
      reads this
    {
      && (forall i, j :: 0 <= i < j < |snapshotHistory| ==> snapshotHistory[i].snapshotId != snapshotHistory[j].snapshotId)
      && (forall i :: 0 <= i < |snapshotHistory| ==> snapshotHistory[i].snapshotId in snapshots)
      && (forall id :: id in snapshots ==> snapshots[id] in snapshotHistory && snapshots[id].snapshotId == id)
    }

    constructor (h: Hash)
      ensures this.h == h && Valid() && snapshotHistory == []
    {
      this.h, snapshots, snapshotHistory := h, map[], [];
    }

    /** `id` is the fresh random identifier, `now` the clock. */
    method CreateSnapshot(id: string, now: int, latestIndex: int, latestTerm: int, entries: seq<EscrowRecord>,
                          signatures: seq<QuorumSignature>) returns (s: Snapshot)
      requires Valid() && id !in snapshots
      modifies this
      ensures Valid()
      ensures s.snapshotId == id && s.timestamp == now && s.latestIndex == latestIndex && s.latestTerm == latestTerm
      ensures s.merkleRootHash == EntriesHash(h, entries) && s.committedTransactionCount == |entries|
      ensures s.latestEntry == if entries == [] then None else Some(entries[|entries| - 1])
      ensures s.quorumSignatures == signatures && |s.merklePath| == |entries|
      ensures forall i :: 0 <= i < |entries| ==> s.merklePath[i] == h(EntryText(entries[i]))
      ensures snapshotHistory == if |old(snapshotHistory)| < 10
                                 then old(snapshotHistory) + [s] else old(snapshotHistory)[1..] + [s]
    {
      var root := EnclaveReconciliationEngine.ComputeBlockMerkleHash(h, entries);
      var path := seq(|entries|, i requires 0 <= i < |entries| => h(EntryText(entries[i])));
      var latestEntry := if |entries| > 0 then Some(entries[|entries| - 1]) else None;
      s := Snapshot(id, now, latestIndex, latestTerm, root, |entries|, signatures, path, latestEntry);
      Remember(s);
    }

    method Remember(s: Snapshot)
      requires Valid() && s.snapshotId !in snapshots
      modifies this
      ensures Valid()
      ensures snapshotHistory == if |old(snapshotHistory)| < 10
                                 then old(snapshotHistory) + [s] else old(snapshotHistory)[1..] + [s]
    {
      snapshots := snapshots[s.snapshotId := s];
      snapshotHistory := snapshotHistory + [s];
      assert snapshotHistory[|snapshotHistory| - 1] == s;
      if |snapshotHistory| > MAX_SNAPSHOT_HISTORY {
        Forget();
      }
    }

    // Drops the oldest snapshot.
    method Forget()
      requires Consistent() && snapshotHistory != []
      modifies this
      ensures Consistent() && snapshotHistory == old(snapshotHistory)[1..]
    {
      var oldest := snapshotHistory[0];
      assert forall i :: 0 < i < |snapshotHistory| ==> snapshotHistory[1..][i - 1] == snapshotHistory[i];
      snapshotHistory := snapshotHistory[1..];
      snapshots := snapshots - {oldest.snapshotId};
    }
  }

  // ----- runs

  datatype Event = BlockEvent(block: CatchUpBlock) | SnapshotEvent(snapshot: Snapshot)

  datatype Op =
    | BeginOp(localIndex: int, targetCommitIndex: int)
    | BlockOp(block: CatchUpBlock)
    | SnapshotOp(snapshot: Snapshot)
    | CompleteOp

  // A run with everything it accepted, over all sessions, and where the latest session starts in that list.
  datatype Trace = Trace(engine: Engine, history: seq<Event>, mark: nat, begunAt: int)

  function Step(h: Hash, t: Trace, op: Op): Trace {
    match op
    case BeginOp(local, target) => Trace(Begin(t.engine, local, target), t.history, |t.history|, local)
    case BlockOp(b) =>
      if AcceptsBlock(h, t.engine, b) then t.(engine := ApplyBlock(h, t.engine, b), history := t.history + [BlockEvent(b)])
      else t
    case SnapshotOp(s) =>
      if Active(t.engine) && ValidSnapshot(s)
      then t.(engine := ApplySnapshot(t.engine, s), history := t.history + [SnapshotEvent(s)])
      else t
    case CompleteOp => t.(engine := Complete(t.engine))
  }

  function Run(h: Hash, ops: seq<Op>): Trace {
    if ops == [] then Trace(Engine(None, [], GENESIS), [], 0, 0) else Step(h, Run(h, ops[..|ops| - 1]), ops[|ops| - 1])
  }

  function HashOf(e: Event): string {
    match e
    case BlockEvent(b) => b.merkleHash
    case SnapshotEvent(s) => s.merkleRootHash
  }

  function LastHash(history: seq<Event>): string {
    if history == [] then GENESIS else HashOf(history[|history| - 1])
  }

  /** Every accepted block is signed and names the hash of whatever was accepted just before it. */
  ghost predicate Linked(h: Hash, history: seq<Event>) {
    forall k :: 0 <= k < |history| && history[k].BlockEvent? ==>
      && history[k].block.signature != ""
      && history[k].block.previousMerkleHash == LastHash(history[..k])
      && history[k].block.merkleHash == EntriesHash(h, history[k].block.entries)
  }

  function BlocksIn(events: seq<Event>): seq<CatchUpBlock> {
    if events == [] then []
    else
      var e := events[|events| - 1];
      BlocksIn(events[..|events| - 1]) + if e.BlockEvent? then [e.block] else []
  }

  /** The local index the first block of a session builds on: later snapshots no longer move it. */
  function BaseIndex(begunAt: int, events: seq<Event>): int {
    if events == [] then begunAt
    else
      var e, before := events[|events| - 1], events[..|events| - 1];
      if e.SnapshotEvent? && BlocksIn(before) == [] then e.snapshot.latestIndex else BaseIndex(begunAt, before)
  }

  ghost predicate RunInvariant(h: Hash, t: Trace) {
    && t.mark <= |t.history|
    && Linked(h, t.history) && t.engine.lastHash == LastHash(t.history)
    && SessionInvariant(t.engine, t.begunAt, t.history[t.mark..])
  }

  ghost predicate SessionInvariant(e: Engine, begunAt: int, events: seq<Event>) {
    && e.applied == BlocksIn(events)
    && (forall k :: 0 <= k < |e.applied| ==> e.applied[k].index == BaseIndex(begunAt, events) + 1 + k)
    && (e.state.Some? ==>
          && e.state.value.blocksApplied == |events|
          && e.state.value.lastAppliedMerkleHash == e.lastHash
          && (e.applied == [] ==> e.state.value.localIndex == BaseIndex(begunAt, events)))
  }

  lemma {:induction false} SessionTakesBlock(h: Hash, e: Engine, begunAt: int, events: seq<Event>, b: CatchUpBlock)
    requires SessionInvariant(e, begunAt, events) && AcceptsBlock(h, e, b)
    ensures SessionInvariant(ApplyBlock(h, e, b), begunAt, events + [BlockEvent(b)])
    ensures b.index == BaseIndex(begunAt, events) + 1 + |e.applied|
  {
    assert (events + [BlockEvent(b)])[..|events|] == events;
    if e.applied != [] {
      var k :| 0 <= k < |e.applied| && e.applied[k].index == MaxIndex(e.applied);
      assert e.applied[|e.applied| - 1].index <= MaxIndex(e.applied);
    }
  }

  lemma SessionTakesSnapshot(e: Engine, begunAt: int, events: seq<Event>, s: Snapshot)
    requires SessionInvariant(e, begunAt, events) && Active(e) && ValidSnapshot(s)
    ensures SessionInvariant(ApplySnapshot(e, s), begunAt, events + [SnapshotEvent(s)])
  {
    assert (events + [SnapshotEvent(s)])[..|events|] == events;
  }

  lemma LinkedAppend(h: Hash, history: seq<Event>, e: Event)
    requires Linked(h, history)
    requires e.BlockEvent? ==>
      && e.block.signature != ""
      && e.block.previousMerkleHash == LastHash(history) && e.block.merkleHash == EntriesHash(h, e.block.entries)
    ensures Linked(h, history + [e]) && LastHash(history + [e]) == HashOf(e)
  {
    var more := history + [e];
    forall k | 0 <= k < |more| && more[k].BlockEvent?
      ensures more[k].block.signature != "" && more[k].block.previousMerkleHash == LastHash(more[..k])
      ensures more[k].block.merkleHash == EntriesHash(h, more[k].block.entries)
    {
      assert k < |history| ==> more[k] == history[k];
      assert more[..k] == if k < |history| then history[..k] else history;
    }
  }

  // An accepted event extends the history and the session.
  lemma EventKeepsInvariant(h: Hash, t: Trace, e: Engine, ev: Event)
    requires RunInvariant(h, t)
    requires ev.BlockEvent? ==>
      && ev.block.signature != ""
      && ev.block.previousMerkleHash == LastHash(t.history) && ev.block.merkleHash == EntriesHash(h, ev.block.entries)
    requires e.lastHash == HashOf(ev) && SessionInvariant(e, t.begunAt, t.history[t.mark..] + [ev])
    ensures RunInvariant(h, t.(engine := e, history := t.history + [ev]))
  {
    LinkedAppend(h, t.history, ev);
    assert (t.history + [ev])[t.mark..] == t.history[t.mark..] + [ev];
  }

  lemma StepKeepsInvariant(h: Hash, t: Trace, op: Op)
    requires RunInvariant(h, t)
    ensures RunInvariant(h, Step(h, t, op))
  {
    var events := t.history[t.mark..];
    match op
    case BeginOp(local, target) =>
      assert t.history[|t.history|..] == [];
    case BlockOp(b) =>
      if AcceptsBlock(h, t.engine, b) {
        SessionTakesBlock(h, t.engine, t.begunAt, events, b);
        EventKeepsInvariant(h, t, ApplyBlock(h, t.engine, b), BlockEvent(b));
      }
    case SnapshotOp(s) =>
      if Active(t.engine) && ValidSnapshot(s) {
        SessionTakesSnapshot(t.engine, t.begunAt, events, s);
        EventKeepsInvariant(h, t, ApplySnapshot(t.engine, s), SnapshotEvent(s));
      }
    case CompleteOp =>
  }

  /**
   Any run over any number of sessions: the accepted blocks of a session have gap-free indices, the counter
   equals blocks plus snapshots, and across sessions every accepted block links to its predecessor.
   */
  lemma {:induction false} RunsStayLinked(h: Hash, ops: seq<Op>)
    ensures RunInvariant(h, Run(h, ops))
  {
    if ops != [] {
      RunsStayLinked(h, ops[..|ops| - 1]);
      StepKeepsInvariant(h, Run(h, ops[..|ops| - 1]), ops[|ops| - 1]);
    }
  }

  /** A refused block or snapshot changes nothing, in or out of a session. */
  lemma RefusedChangesNothing(h: Hash, e: Engine, b: CatchUpBlock, s: Snapshot)
    ensures !AcceptsBlock(h, e, b) <==> ApplyBlock(h, e, b) == e
    ensures !(Active(e) && ValidSnapshot(s)) <==> ApplySnapshot(e, s) == e
  {
  }

  /** Two linked histories of blocks with the same hashes carry the same entries. */
  lemma SameHashesSameEntries(h: Hash, a: seq<Event>, b: seq<Event>, k: nat)
    requires Linked(h, a) && Linked(h, b) && k < |a| && k < |b| && a[k].BlockEvent? && b[k].BlockEvent?
    requires YieldsDigests(h) && CollisionFree(h, EntriesTexts(h, a[k].block.entries) + EntriesTexts(h, b[k].block.entries))
    ensures HashOf(a[k]) == HashOf(b[k]) <==> a[k].block.entries == b[k].block.entries
  {
    if HashOf(a[k]) == HashOf(b[k]) {
      EntriesHashIsInjective(h, a[k].block.entries, b[k].block.entries,
                             EntriesTexts(h, a[k].block.entries) + EntriesTexts(h, b[k].block.entries));
    }
  }

  // The block the protocol accepts next for these entries.
  function BlockFor(h: Hash, index: int, previous: string, entries: seq<EscrowRecord>): CatchUpBlock {
    CatchUpBlock("block", index, 1, entries, EntriesHash(h, entries), "signature", previous)
  }

  /** The last hash alone does not fix the history before it: a block's hash leaves out its predecessor's. */
  lemma LastHashForgetsTheBlocksBefore(h: Hash, x: seq<EscrowRecord>, y: seq<EscrowRecord>, last: seq<EscrowRecord>)
    ensures var e := Begin(Engine(None, [], GENESIS), 0, 2);
      var ex := ApplyBlock(h, ApplyBlock(h, e, BlockFor(h, 1, GENESIS, x)), BlockFor(h, 2, EntriesHash(h, x), last));
      var ey := ApplyBlock(h, ApplyBlock(h, e, BlockFor(h, 1, GENESIS, y)), BlockFor(h, 2, EntriesHash(h, y), last));
      ex.lastHash == ey.lastHash && |ex.applied| == |ey.applied| == 2 && ex.applied[0].entries == x && ey.applied[0].entries == y
  {
    var e := Begin(Engine(None, [], GENESIS), 0, 2);
    var ex, ey := ApplyBlock(h, e, BlockFor(h, 1, GENESIS, x)), ApplyBlock(h, e, BlockFor(h, 1, GENESIS, y));
    assert ex.applied == [BlockFor(h, 1, GENESIS, x)] && ey.applied == [BlockFor(h, 1, GENESIS, y)];
  }
}
