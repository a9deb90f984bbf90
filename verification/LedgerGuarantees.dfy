/** What the store, the auditor and the recovery service keep, over single calls and over whole runs. */
module LedgerGuarantees {
  import opened Wrappers
  import opened Hashing
  import opened MerkleTrees
  import opened LedgerMerkle
  import B = MerkleBinding
  import opened LedgerWorld

  // ----- the store

  function UpsertAll(records: seq<EscrowRecord>, saves: seq<EscrowRecord>): seq<EscrowRecord> {
    if saves == [] then records else Upsert(UpsertAll(records, saves[..|saves| - 1]), saves[|saves| - 1])
  }

  function Ids(records: seq<EscrowRecord>): (ids: seq<string>)
    ensures |ids| == |records|
    ensures forall i :: 0 <= i < |ids| ==> ids[i] == records[i].transactionId
  {
    seq(|records|, i requires 0 <= i < |records| => records[i].transactionId)
  }

  /** The ids in the order in which each first appears. */
  function FirstAppearances(ids: seq<string>): seq<string> {
    if ids == [] then []
    else
      var rest := FirstAppearances(ids[..|ids| - 1]);
      if ids[|ids| - 1] in ids[..|ids| - 1] then rest else rest + [ids[|ids| - 1]]
  }

  lemma {:induction false} FirstAppearancesKeepsMembers(ids: seq<string>, id: string)
    ensures id in FirstAppearances(ids) <==> id in ids
  {
    if ids != [] {
      FirstAppearancesKeepsMembers(ids[..|ids| - 1], id);
      assert ids == ids[..|ids| - 1] + [ids[|ids| - 1]];
    }
  }

  lemma {:induction false} FirstAppearancesOfDistinct(ids: seq<string>)
    requires forall i, j :: 0 <= i < j < |ids| ==> ids[i] != ids[j]
    ensures FirstAppearances(ids) == ids
  {
    if ids != [] {
      FirstAppearancesOfDistinct(ids[..|ids| - 1]);
      assert ids == ids[..|ids| - 1] + [ids[|ids| - 1]];
    }
  }

  lemma UpsertIds(records: seq<EscrowRecord>, r: EscrowRecord)
    ensures Ids(Upsert(records, r)) == Ids(records) + if r.transactionId in Ids(records) then [] else [r.transactionId]
    ensures UniqueIds(records) ==> UniqueIds(Upsert(records, r))
  {
    var i := IndexOf(records, r.transactionId);
    if i >= 0 {
      assert Ids(records)[i] == r.transactionId;
    }
  }

  lemma UpsertLookup(records: seq<EscrowRecord>, r: EscrowRecord, id: string)
    requires UniqueIds(records)
    ensures Lookup(Upsert(records, r), id) == if id == r.transactionId then Some(r) else Lookup(records, id)
  {
    var updated, i := Upsert(records, r), IndexOf(records, id);
    var p := if IndexOf(records, r.transactionId) >= 0 then IndexOf(records, r.transactionId) else |records|;
    assert updated[p] == r && forall k :: 0 <= k < |updated| && k != p ==> updated[k] == records[k];
    if id == r.transactionId {
      FirstWithId(updated, id, p);
    } else if i >= 0 {
      FirstWithId(updated, id, i);
    } else {
      assert forall k :: 0 <= k < |updated| ==> updated[k].transactionId != id;
    }
  }

  lemma FirstWithId(records: seq<EscrowRecord>, id: string, i: nat)
    requires i < |records| && records[i].transactionId == id
    requires forall k :: 0 <= k < i ==> records[k].transactionId != id
    ensures IndexOf(records, id) == i
  {
  }

  /** The record last saved under an id, if any. */
  function LastSaved(saves: seq<EscrowRecord>, id: string): Option<EscrowRecord> {
    var i := LastIndex(saves, id);
    if i < 0 then None else Some(saves[i])
  }

  /**
   Runs of saves: ids stay unique and in order of first insertion, and a lookup returns the record last
   saved under the id, or else the one stored at the start.
   */
  lemma {:induction false} SavesBehaveLikeAMap(records: seq<EscrowRecord>, saves: seq<EscrowRecord>, id: string)
    requires UniqueIds(records)
    ensures UniqueIds(UpsertAll(records, saves))
    ensures Ids(UpsertAll(records, saves)) == FirstAppearances(Ids(records) + Ids(saves))
    ensures Lookup(UpsertAll(records, saves), id)
         == if LastSaved(saves, id).Some? then LastSaved(saves, id) else Lookup(records, id)
  {
    SavesKeepFirstOrder(records, saves);
    SavesKeepLast(records, saves, id);
  }

  lemma {:induction false} SavesKeepFirstOrder(records: seq<EscrowRecord>, saves: seq<EscrowRecord>)
    requires UniqueIds(records)
    ensures UniqueIds(UpsertAll(records, saves))
    ensures Ids(UpsertAll(records, saves)) == FirstAppearances(Ids(records) + Ids(saves))
  {
    if saves == [] {
      assert Ids(records) + Ids(saves) == Ids(records);
      FirstAppearancesOfDistinct(Ids(records));
    } else {
      var last, before := saves[|saves| - 1], saves[..|saves| - 1];
      SavesKeepFirstOrder(records, before);
      UpsertIds(UpsertAll(records, before), last);
      var ids := Ids(records) + Ids(saves);
      assert ids[..|ids| - 1] == Ids(records) + Ids(before);
      FirstAppearancesKeepsMembers(Ids(records) + Ids(before), last.transactionId);
    }
  }

  lemma {:induction false} SavesKeepLast(records: seq<EscrowRecord>, saves: seq<EscrowRecord>, id: string)
    requires UniqueIds(records)
    ensures UniqueIds(UpsertAll(records, saves))
    ensures Lookup(UpsertAll(records, saves), id)
         == if LastSaved(saves, id).Some? then LastSaved(saves, id) else Lookup(records, id)
  {
    if saves != [] {
      var before := saves[..|saves| - 1];
      SavesKeepLast(records, before, id);
      UpsertIds(UpsertAll(records, before), saves[|saves| - 1]);
      UpsertLookup(UpsertAll(records, before), saves[|saves| - 1], id);
    }
  }

  /** What is read back of records written to the store. */
  function Kept(records: seq<EscrowRecord>): seq<EscrowRecord> {
    if records == [] then []
    else if PassesGuard(records[0]) then [records[0]] + Kept(records[1..])
    else Kept(records[1..])
  }

  lemma {:induction false} StoredKeeps(records: seq<EscrowRecord>)
    ensures AllRecords(Stored(records)) == Kept(records)
  {
    if records != [] {
      StoredKeeps(records[1..]);
      assert Stored(records).items[1..] == Stored(records[1..]).items;
    }
  }

  lemma {:induction false} KeptOfReadable(records: seq<EscrowRecord>)
    requires forall r :: r in records ==> PassesGuard(r)
    ensures Kept(records) == records
  {
    StoredKeeps(records);
    StoredReadsBack(records);
  }

  /** Saves of any records: each is an upsert, of which only what passes the guard is read back. */
  function SaveFold(records: seq<EscrowRecord>, saves: seq<EscrowRecord>): seq<EscrowRecord> {
    if saves == [] then records
    else Kept(Upsert(SaveFold(records, saves[..|saves| - 1]), saves[|saves| - 1]))
  }

  lemma {:induction false} UpsertAllReadable(records: seq<EscrowRecord>, saves: seq<EscrowRecord>)
    requires forall r :: r in records ==> PassesGuard(r)
    requires forall r :: r in saves ==> PassesGuard(r)
    ensures forall r :: r in UpsertAll(records, saves) ==> PassesGuard(r)
    ensures SaveFold(records, saves) == UpsertAll(records, saves)
  {
    if saves != [] {
      UpsertAllReadable(records, saves[..|saves| - 1]);
      KeptOfReadable(UpsertAll(records, saves));
    }
  }

  lemma LookupCons(r: EscrowRecord, rest: seq<EscrowRecord>, id: string)
    ensures Lookup([r] + rest, id) == if r.transactionId == id then Some(r) else Lookup(rest, id)
  {
    assert ([r] + rest)[1..] == rest;
  }

  lemma {:induction false} KeptIsWithin(records: seq<EscrowRecord>)
    ensures forall r :: r in Kept(records) <==> r in records && PassesGuard(r)
    ensures UniqueIds(records) ==> UniqueIds(Kept(records))
  {
    if records != [] {
      KeptIsWithin(records[1..]);
      assert records == [records[0]] + records[1..];
      var kept := Kept(records[1..]);
      forall j | 0 <= j < |kept| && UniqueIds(records)
        ensures records[0].transactionId != kept[j].transactionId
      {
        assert kept[j] in records[1..];
      }
    }
  }

  // An unknown id.
  lemma {:induction false} LookupOfUnknown(records: seq<EscrowRecord>, id: string)
    ensures Lookup(records, id).None? <==> forall r :: r in records ==> r.transactionId != id
  {
    if records != [] {
      assert records == [records[0]] + records[1..];
      LookupOfUnknown(records[1..], id);
    }
  }

  function IfReadable(r: Option<EscrowRecord>): Option<EscrowRecord> {
    if r.Some? && PassesGuard(r.value) then r else None
  }

  lemma {:induction false} KeptLookup(records: seq<EscrowRecord>, id: string)
    requires UniqueIds(records)
    ensures Lookup(Kept(records), id) == IfReadable(Lookup(records, id))
  {
    if records != [] {
      var r, rest := records[0], records[1..];
      assert records == [r] + rest;
      KeptLookup(rest, id);
      LookupCons(r, rest, id);
      LookupCons(r, Kept(rest), id);
      KeptIsWithin(rest);
      LookupOfUnknown(Kept(rest), id);
    }
  }

  /**
   Runs of saves of any records: a lookup returns the record last saved under the id if it passes the guard. If it
   does not, the id is gone, together with whatever record it had before.
   */
  lemma {:induction false} UnreadableSavesRemove(records: seq<EscrowRecord>, saves: seq<EscrowRecord>, id: string)
    requires UniqueIds(records)
    ensures UniqueIds(SaveFold(records, saves))
    ensures Lookup(SaveFold(records, saves), id) ==
      if LastSaved(saves, id).Some? then IfReadable(LastSaved(saves, id))
      else if saves == [] then Lookup(records, id) else IfReadable(Lookup(records, id))
  {
    if saves != [] {
      var before, r := saves[..|saves| - 1], saves[|saves| - 1];
      var at := SaveFold(records, before);
      UnreadableSavesRemove(records, before, id);
      UpsertIds(at, r);
      UpsertLookup(at, r, id);
      KeptIsWithin(Upsert(at, r));
      KeptLookup(Upsert(at, r), id);
    }
  }

  function SaveAll(h: Hash, w: World, saves: seq<EscrowRecord>): World {
    if saves == [] then w else SaveStep(h, SaveAll(h, w, saves[..|saves| - 1]), saves[|saves| - 1]).0
  }

  lemma SaveKeepsReadable(h: Hash, w: World, r: EscrowRecord)
    requires !w.store.Corrupt? && w.storeWritable
    ensures var (w', ok) := SaveStep(h, w, r);
      ok && AllRecords(w'.store) == Kept(Upsert(AllRecords(w.store), r)) && !w'.store.Corrupt? && w'.storeWritable
  {
    StoredKeeps(Upsert(AllRecords(w.store), r));
  }

  lemma SaveUpserts(h: Hash, w: World, r: EscrowRecord)
    requires !w.store.Corrupt? && w.storeWritable && PassesGuard(r)
    ensures var (w', ok) := SaveStep(h, w, r);
      ok && AllRecords(w'.store) == Upsert(AllRecords(w.store), r) && !w'.store.Corrupt? && w'.storeWritable
  {
    var updated := Upsert(AllRecords(w.store), r);
    assert forall x :: x in updated ==> x == r || x in AllRecords(w.store);
    StoredReadsBack(updated);
  }

  /**
   The files follow the abstract store over any run of saves. The checkpoint is the root and size of what was
   written last, readable or not.
   */
  lemma {:induction false} StoreRefinesSaves(h: Hash, w: World, saves: seq<EscrowRecord>)
    requires !w.store.Corrupt? && w.storeWritable && w.checkpointWritable
    ensures var w' := SaveAll(h, w, saves);
      && AllRecords(w'.store) == SaveFold(AllRecords(w.store), saves)
      && (saves != [] ==> w'.checkpoint == Some(CheckpointOf(h,
            Upsert(SaveFold(AllRecords(w.store), saves[..|saves| - 1]), saves[|saves| - 1]))))
      && w'.frozen == w.frozen && w'.notary == w.notary
      && !w'.store.Corrupt? && w'.storeWritable && w'.checkpointWritable
  {
    if saves != [] {
      StoreRefinesSaves(h, w, saves[..|saves| - 1]);
      SaveKeepsReadable(h, SaveAll(h, w, saves[..|saves| - 1]), saves[|saves| - 1]);
    }
  }

  /** For readable records the store is the fold of upserts, and the checkpoint is its root and size. */
  lemma {:induction false} StoreRefinesUpserts(h: Hash, w: World, saves: seq<EscrowRecord>)
    requires !w.store.Corrupt? && w.storeWritable && w.checkpointWritable
    requires forall r :: r in saves ==> PassesGuard(r)
    ensures var w' := SaveAll(h, w, saves);
      && AllRecords(w'.store) == UpsertAll(AllRecords(w.store), saves)
      && (saves != [] ==> w'.checkpoint == Some(CheckpointOf(h, AllRecords(w'.store))))
      && w'.frozen == w.frozen && w'.notary == w.notary
      && !w'.store.Corrupt? && w'.storeWritable && w'.checkpointWritable
  {
    StoreRefinesSaves(h, w, saves);
    UpsertAllReadable(AllRecords(w.store), saves);
    if saves != [] {
      UpsertAllReadable(AllRecords(w.store), saves[..|saves| - 1]);
    }
  }

  // ----- single calls, spelled out

  /** The read guard. */
  lemma GuardSpelledOut(r: EscrowRecord)
    ensures PassesGuard(r) <==>
      r.status in {"LOCKED", "RELEASED", "FAILED"} && r.validAfterMs != None && r.validUntilMs != None
  {
  }

  /** Entry by entry, the readable records of a file in their order. */
  lemma ReadSpelledOut(e: Entry, items: seq<Entry>)
    ensures AllRecords(Entries([])) == [] && AllRecords(Corrupt) == [] && AllRecords(NotAnArray) == []
    ensures e.Rec? && e.record.status in {"LOCKED", "RELEASED", "FAILED"}
            && e.record.validAfterMs != None && e.record.validUntilMs != None ==>
      AllRecords(Entries([e] + items)) == [e.record] + AllRecords(Entries(items))
    ensures !(e.Rec? && e.record.status in {"LOCKED", "RELEASED", "FAILED"}
              && e.record.validAfterMs != None && e.record.validUntilMs != None) ==>
      AllRecords(Entries([e] + items)) == AllRecords(Entries(items))
  {
    assert ([e] + items)[1..] == items;
  }

  /** A save fails, and then changes nothing, exactly if the file is no JSON or cannot be written. */
  lemma SaveFailsExactly(h: Hash, w: World, r: EscrowRecord)
    ensures SaveStep(h, w, r).1 <==> w.store != Corrupt && w.storeWritable
    ensures !SaveStep(h, w, r).1 ==> SaveStep(h, w, r).0 == w
    ensures SaveStep(h, w, r).1 ==>
      var w' := SaveStep(h, w, r).0;
      && w'.notary == w.notary && w'.frozen == w.frozen && w'.requests == w.requests && w'.quarantined == w.quarantined
      && (!w.checkpointWritable ==> w'.checkpoint == w.checkpoint)
      && w' == w.(store := w'.store, checkpoint := w'.checkpoint)
  {
  }

  /** An audit changes at most the flag, and without a checkpoint at most the checkpoint, to that of what is stored. */
  lemma AuditSpelledOut(h: Hash, w: World)
    ensures w.frozen ==> AuditStep(h, w) == w
    ensures !w.frozen && w.checkpoint.Some? && w.checkpoint.value.root != "" ==>
      AuditStep(h, w) == w || AuditStep(h, w) == w.(frozen := true)
    ensures !w.frozen && (w.checkpoint.None? || w.checkpoint.value.root == "") ==>
      AuditStep(h, w) == if !w.checkpointWritable then w
                         else w.(checkpoint := Some(Checkpoint(LedgerRoot(h, AllRecords(w.store)), |AllRecords(w.store)|)))
  {
  }

  /** What an audit with a checkpoint passes on. */
  lemma AuditPassesSpelledOut(h: Hash, w: World)
    ensures AuditPasses(h, w) <==>
      && w.checkpoint.Some? && w.checkpoint.value.root != ""
      && w.notary == Some(w.checkpoint.value.root)
      && w.store.Entries? && |AllRecords(w.store)| == w.checkpoint.value.leafCount
      && LedgerRoot(h, AllRecords(w.store)) == w.checkpoint.value.root
    ensures !w.frozen && w.checkpoint.Some? && w.checkpoint.value.root != "" ==>
      (AuditStep(h, w).frozen <==> !AuditPasses(h, w))
  {
  }

  /** When a heal gives which answer, the first reason that applies, and that every refusal but a write fault changes nothing. */
  lemma HealOutcomesSpelledOut(h: Hash, w: World, requestId: string, verified: bool)
    ensures var (w', outcome) := HealStep(h, w, requestId, verified);
      var prefix := w.notary.Some? && SomePrefixHas(h, AllRecords(w.store), w.notary.value);
      && (outcome == Duplicate <==> requestId in w.requests)
      && (outcome == Rejected <==> requestId !in w.requests && !verified)
      && (outcome == NotaryUnreachable <==> requestId !in w.requests && verified && w.notary == None)
      && (outcome == NoPrefixMatches <==> requestId !in w.requests && verified && w.notary.Some? && !prefix)
      && (outcome == WriteFailed <==> requestId !in w.requests && verified && prefix && !w.storeWritable)
      && (outcome.Healed? <==> requestId !in w.requests && verified && prefix && w.storeWritable)
      && (!outcome.Healed? && outcome != WriteFailed ==> w' == w)
      && (!outcome.Healed? ==> w' == w.(quarantined := w'.quarantined))
  {
    var records := AllRecords(w.store);
    if w.notary.Some? {
      var k := LongestPrefix(h, records, |records|, w.notary.value);
      assert k < 0 ==> !SomePrefixHas(h, records, w.notary.value);
      assert k >= 0 ==> SomePrefixHas(h, records, w.notary.value);
    }
  }

  // A step that may rewrite store, quarantine or the list of completed requests.
  predicate MayRewrite(w: World, step: Step) {
    || step.Save? || step.Environment?
    || (step.Heal? && step.verified && step.requestId !in w.requests)
  }

  ghost predicate SameFiles(w: World, w': World) {
    w'.store == w.store && w'.quarantined == w.quarantined && w'.requests == w.requests
  }

  lemma OtherStepsLeaveTheFiles(h: Hash, w: World, step: Step)
    requires !MayRewrite(w, step)
    ensures SameFiles(w, Apply(h, w, step))
  {
  }

  ghost predicate NothingRewrites(h: Hash, w: World, steps: seq<Step>, n: nat)
    requires n <= |steps|
  {
    n > 0 ==> !MayRewrite(After(h, w, steps, n - 1), steps[n - 1]) && NothingRewrites(h, w, steps, n - 1)
  }

  /**
   Over any run without saves, outside changes and first heals with verified signatures, the store, the quarantine
   and the completed requests stay as they are.
   */
  lemma {:induction false} OnlyVerifiedHealsRewrite(h: Hash, w: World, steps: seq<Step>, n: nat)
    requires n <= |steps| && NothingRewrites(h, w, steps, n)
    ensures SameFiles(w, After(h, w, steps, n))
    decreases n
  {
    if n > 0 {
      var before := After(h, w, steps, n - 1);
      OnlyVerifiedHealsRewrite(h, w, steps, n - 1);
      OtherStepsLeaveTheFiles(h, before, steps[n - 1]);
      SameFilesTwice(w, before, Apply(h, before, steps[n - 1]));
    }
  }

  lemma SameFilesTwice(a: World, b: World, c: World)
    requires SameFiles(a, b) && SameFiles(b, c)
    ensures SameFiles(a, c)
  {
  }

  // ----- the auditor

  lemma LedgerRootIsDigest(h: Hash, records: seq<EscrowRecord>)
    requires YieldsDigests(h)
    ensures IsHexDigest(LedgerRoot(h, records)) && LedgerRoot(h, records) != ""
  {
    B.RootIsDigest(h, Leaves(h, records));
  }

  /**
   Tamper detection: when the checkpoint was written for `ledger`, an audit stays silent exactly if the
   notary vouches for that root and the store still agrees with `ledger` on every hashed field.
   */
  lemma AuditDetectsTampering(h: Hash, w: World, ledger: seq<EscrowRecord>, texts: set<string>)
    requires !w.frozen && w.checkpoint == Some(CheckpointOf(h, ledger))
    requires HashesWell(h, ledger, AllRecords(w.store), texts)
    ensures !AuditStep(h, w).frozen <==>
      w.notary == Some(LedgerRoot(h, ledger)) && w.store.Entries? && Agree(ledger, AllRecords(w.store))
  {
    LedgerRootIsDigest(h, ledger);
    RootAndCountDetermineLedger(h, ledger, AllRecords(w.store), texts);
  }

  /**
   Whatever the checkpoint file says, an audit that passes ties the store to the ledger the notary vouches for: it
   fills the bottom row alike, and it agrees with the ledger if the counts are equal or no record is repeated.
   */
  lemma PassingAuditTiesToNotary(h: Hash, w: World, ledger: seq<EscrowRecord>, texts: set<string>)
    requires AuditPasses(h, w) && w.notary == Some(LedgerRoot(h, ledger))
    requires HashesWell(h, ledger, AllRecords(w.store), texts)
    ensures SameRow(ledger, AllRecords(w.store))
    ensures Agree(ledger, AllRecords(w.store)) <==> |ledger| == |AllRecords(w.store)|
    ensures AllDifferent(ledger) && AllDifferent(AllRecords(w.store)) ==> Agree(ledger, AllRecords(w.store))
  {
    var records := AllRecords(w.store);
    SharedLedgerRootExactly(h, ledger, records, texts);
    RootAndCountDetermineLedger(h, ledger, records, texts);
    if AllDifferent(ledger) && AllDifferent(records) {
      RootDeterminesLedger(h, ledger, records, texts);
    }
  }

  lemma SaveThenAudit(h: Hash, w: World, r: EscrowRecord)
    requires YieldsDigests(h) && !w.frozen && PassesGuard(r)
    requires !w.store.Corrupt? && w.storeWritable && w.checkpointWritable
    ensures var w' := SaveStep(h, w, r).0;
      !AuditStep(h, w').frozen <==> w.notary == Some(LedgerRoot(h, Upsert(AllRecords(w.store), r)))
  {
    var records := AllRecords(w.store);
    var updated := Upsert(records, r);
    LedgerRootIsDigest(h, updated);
    assert forall x :: x in updated ==> x == r || x in records;
    StoredReadsBack(updated);
  }

  lemma UnreadableSaveFreezes(h: Hash, w: World, r: EscrowRecord)
    requires YieldsDigests(h) && !w.frozen && !PassesGuard(r)
    requires !w.store.Corrupt? && w.storeWritable && w.checkpointWritable
    ensures AuditStep(h, SaveStep(h, w, r).0).frozen
  {
    var records := AllRecords(w.store);
    var updated := Upsert(records, r);
    LedgerRootIsDigest(h, updated);
    var i := IndexOf(records, r.transactionId);
    assert updated[if i >= 0 then i else |records|] == r;
    UnreadableIsMissing(updated);
  }

  /**
   A save is followed by a clean audit exactly if the record passes the read guard and the notary has
   taken over the new root.
   */
  lemma SavedRecordAuditsClean(h: Hash, w: World, r: EscrowRecord)
    requires YieldsDigests(h) && !w.frozen
    requires !w.store.Corrupt? && w.storeWritable && w.checkpointWritable
    ensures !AuditStep(h, SaveStep(h, w, r).0).frozen <==>
      PassesGuard(r) && w.notary == Some(LedgerRoot(h, Upsert(AllRecords(w.store), r)))
  {
    if PassesGuard(r) {
      SaveThenAudit(h, w, r);
    } else {
      UnreadableSaveFreezes(h, w, r);
    }
  }

  /**
   Over any run whatever, a frozen ledger is only ever released by an unfreeze call whose audit passed,
   or which found no checkpoint to audit against.
   */
  lemma {:induction false} ReleasedOnlyByAudit(h: Hash, w: World, steps: seq<Step>, n: nat) returns (k: nat)
    requires n <= |steps| && w.frozen && !After(h, w, steps, n).frozen
    ensures k < n && steps[k].Unfreeze? && After(h, w, steps, k).frozen
    ensures ReadCheckpoint(After(h, w, steps, k)).Some? ==> AuditPasses(h, After(h, w, steps, k))
    decreases n
  {
    var before := After(h, w, steps, n - 1);
    if before.frozen {
      k := n - 1;
      assert AuditPasses(h, before.(frozen := false)) == AuditPasses(h, before);
    } else {
      k := ReleasedOnlyByAudit(h, w, steps, n - 1);
    }
  }

  // ----- recovery

  lemma ReadableSlices(records: seq<EscrowRecord>, k: nat)
    requires k <= |records| && forall r :: r in records ==> PassesGuard(r)
    ensures AllRecords(Stored(records[..k])) == records[..k]
  {
    StoredReadsBack(records[..k]);
  }

  /** What a completed heal leaves behind. */
  ghost predicate InAgreement(w: World, records: seq<EscrowRecord>, root: string) {
    && w.store.Entries? && AllRecords(w.store) == records
    && w.checkpoint == Some(Checkpoint(root, |records|))
    && w.notary == Some(root)
  }

  /** The quarantine after a heal; a failed write does not stop it. */
  function QuarantinedAfter(w: World, q: Quarantine): seq<Quarantine> {
    if w.quarantineWritable then w.quarantined + [q] else w.quarantined
  }

  ghost predicate SomePrefixHas(h: Hash, records: seq<EscrowRecord>, root: string) {
    exists i :: 0 <= i <= |records| && LedgerRoot(h, records[..i]) == root
  }

  /**
   A heal succeeds exactly if some prefix of the readable store carries the notary's root. It keeps the longest
   such prefix and files the rest of the readable records away; otherwise nothing changes.
   */
  lemma HealSplitsTheStore(h: Hash, w: World, requestId: string)
    requires requestId !in w.requests && w.notary.Some? && w.storeWritable && w.checkpointWritable
    ensures var (w', outcome) := HealStep(h, w, requestId, true);
      var records := AllRecords(w.store);
      if SomePrefixHas(h, records, w.notary.value) then
        && outcome.Healed? && outcome.root == w.notary.value && outcome.leafCount <= |records|
        && InAgreement(w', records[..outcome.leafCount], w.notary.value)
        && w'.store == Stored(records[..outcome.leafCount])
        && w'.quarantined == QuarantinedAfter(w, Quarantine(requestId, outcome.leafCount, records[outcome.leafCount..]))
        && w'.requests == w.requests + [requestId] && w'.frozen == w.frozen && w'.notary == w.notary
      else
        outcome == NoPrefixMatches && w' == w
  {
    var records := AllRecords(w.store);
    var k := LongestPrefix(h, records, |records|, w.notary.value);
    if k >= 0 {
      ReadableSlices(records, k);
    }
  }

  function AsEntries(records: seq<EscrowRecord>): (items: seq<Entry>)
    ensures |items| == |records| && Stored(records) == Entries(items)
  {
    seq(|records|, i requires 0 <= i < |records| => Rec(records[i]))
  }

  /** The stored entries that fail the read guard. */
  function Unreadable(items: seq<Entry>): seq<Entry> {
    if items == [] then []
    else if items[0].Rec? && PassesGuard(items[0].record) then Unreadable(items[1..])
    else [items[0]] + Unreadable(items[1..])
  }

  lemma AsEntriesCons(r: EscrowRecord, rest: seq<EscrowRecord>)
    ensures AsEntries([r] + rest) == [Rec(r)] + AsEntries(rest)
  {
  }

  lemma MultisetCons<T>(x: T, s: seq<T>)
    ensures multiset([x] + s) == multiset{x} + multiset(s)
  {
  }

  lemma {:induction false} ReadableOrNot(items: seq<Entry>)
    ensures multiset(items) == multiset(AsEntries(Readable(items))) + multiset(Unreadable(items))
  {
    if items != [] {
      var e, rest := items[0], items[1..];
      ReadableOrNot(rest);
      assert items == [e] + rest;
      MultisetCons(e, rest);
      if e.Rec? && PassesGuard(e.record) {
        AsEntriesCons(e.record, Readable(rest));
        MultisetCons(e, AsEntries(Readable(rest)));
      } else {
        MultisetCons(e, Unreadable(rest));
      }
    }
  }

  lemma AsEntriesSplit(records: seq<EscrowRecord>, k: nat)
    requires k <= |records|
    ensures multiset(AsEntries(records)) == multiset(AsEntries(records[..k])) + multiset(AsEntries(records[k..]))
  {
    assert AsEntries(records) == AsEntries(records[..k]) + AsEntries(records[k..]);
  }

  /**
   Conservation over the raw entries: after a heal each stored entry is still stored, or filed away with the
   suffix, or was unreadable. The unreadable ones are lost.
   */
  lemma HealLosesTheUnreadable(h: Hash, w: World, requestId: string)
    requires requestId !in w.requests && w.notary.Some? && w.store.Entries?
    requires w.storeWritable && w.checkpointWritable && w.quarantineWritable
    requires SomePrefixHas(h, AllRecords(w.store), w.notary.value)
    ensures var w' := HealStep(h, w, requestId, true).0;
      && w'.store.Entries? && |w'.quarantined| == |w.quarantined| + 1
      && multiset(w.store.items) == multiset(w'.store.items) + multiset(Unreadable(w.store.items))
                                    + multiset(AsEntries(w'.quarantined[|w.quarantined|].records))
  {
    HealSplitsTheStore(h, w, requestId);
    var records, k := AllRecords(w.store), HealStep(h, w, requestId, true).1.leafCount;
    ReadableOrNot(w.store.items);
    AsEntriesSplit(records, k);
  }

  /** A save drops the unreadable entries too: it writes back what it can read, and the new record. */
  lemma SaveLosesTheUnreadable(h: Hash, w: World, r: EscrowRecord)
    requires w.store.Entries? && w.storeWritable
    ensures SaveStep(h, w, r).0.store == Entries(AsEntries(Upsert(AllRecords(w.store), r)))
    ensures multiset(w.store.items) == multiset(AsEntries(AllRecords(w.store))) + multiset(Unreadable(w.store.items))
  {
    ReadableOrNot(w.store.items);
  }

  // ----- which prefix a heal keeps

  /** Without repeated records the prefix is the only one the notary can mean. */
  lemma {:induction false} HealedPrefixIsTheOnlyOne(h: Hash, records: seq<EscrowRecord>, root: string, i: nat,
                                                    texts: set<string>)
    requires AllDifferent(records) && i <= |records| && LedgerRoot(h, records[..i]) == root
    requires var k := LongestPrefix(h, records, |records|, root);
      k >= 0 ==> HashesWell(h, records[..i], records[..k], texts)
    ensures LongestPrefix(h, records, |records|, root) == i
  {
    var k := LongestPrefix(h, records, |records|, root);
    PrefixRootsDiffer(h, records, i, k, texts);
  }

  ghost predicate CoversPrefixes(h: Hash, records: seq<EscrowRecord>, texts: set<string>) {
    forall j: nat :: j <= |records| ==> Covers(h, records[..j], texts)
  }

  /** Some longer prefix fills the bottom row like `ledger`, and so has its root. */
  ghost predicate HasLookalike(ledger: seq<EscrowRecord>, records: seq<EscrowRecord>) {
    exists j :: |ledger| < j <= |records| && SameRow(ledger, records[..j])
  }

  /** The scan finds the prefix whose root is sought exactly if no longer one looks like it, repeated records or not. */
  lemma {:induction false} LongestPrefixExactly(h: Hash, records: seq<EscrowRecord>, i: nat, texts: set<string>)
    requires i <= |records| && YieldsDigests(h) && CollisionFree(h, texts) && CoversPrefixes(h, records, texts)
    ensures LongestPrefix(h, records, |records|, LedgerRoot(h, records[..i])) == i <==> !HasLookalike(records[..i], records)
  {
    var k := LongestPrefix(h, records, |records|, LedgerRoot(h, records[..i]));
    forall j: nat | i < j <= |records|
      ensures LedgerRoot(h, records[..i]) == LedgerRoot(h, records[..j]) <==> SameRow(records[..i], records[..j])
    {
      SharedLedgerRootExactly(h, records[..i], records[..j], texts);
    }
    assert k > i ==> SameRow(records[..i], records[..k]);
  }

  /** The stored records begin with the ledger, up to time locks. */
  predicate StartsWith(records: seq<EscrowRecord>, ledger: seq<EscrowRecord>) {
    |ledger| <= |records| && Agree(ledger, records[..|ledger|])
  }

  lemma {:induction false} AgreeingLooksAlike(a: seq<EscrowRecord>, b: seq<EscrowRecord>, c: seq<EscrowRecord>)
    requires Agree(a, b)
    ensures SameRow(a, c) <==> SameRow(b, c)
  {
    if a != [] && c != [] {
      var ea, eb := B.Expand(a), B.Expand(b);
      assert forall p :: 0 <= p < |ea| ==> SameHashed(ea[p], eb[p]);
    }
  }

  lemma SameLookalikes(a: seq<EscrowRecord>, b: seq<EscrowRecord>, records: seq<EscrowRecord>)
    requires Agree(a, b)
    ensures HasLookalike(a, records) <==> HasLookalike(b, records)
  {
    forall j | |a| < j <= |records|
      ensures SameRow(a, records[..j]) <==> SameRow(b, records[..j])
    {
      AgreeingLooksAlike(a, b, records[..j]);
    }
  }

  // A prefix that agrees with the ledger is the one the scan keeps unless it has a lookalike.
  lemma {:induction false} PrefixOfLedger(h: Hash, records: seq<EscrowRecord>, ledger: seq<EscrowRecord>, texts: set<string>)
    requires YieldsDigests(h) && CollisionFree(h, texts) && Covers(h, ledger, texts) && CoversPrefixes(h, records, texts)
    requires StartsWith(records, ledger)
    ensures LedgerRoot(h, records[..|ledger|]) == LedgerRoot(h, ledger)
    ensures LongestPrefix(h, records, |records|, LedgerRoot(h, ledger)) == |ledger| <==> !HasLookalike(ledger, records)
  {
    RootAndCountDetermineLedger(h, ledger, records[..|ledger|], texts);
    LongestPrefixExactly(h, records, |ledger|, texts);
    SameLookalikes(ledger, records[..|ledger|], records);
  }

  ghost predicate Restores(h: Hash, w: World, requestId: string, ledger: seq<EscrowRecord>) {
    var (w2, released) := UnfreezeStep(h, HealStep(h, w, requestId, true).0);
    released && Agree(ledger, AllRecords(w2.store))
  }

  /**
   Recovery in terms of the ledger the notary vouches for: a verified heal and an unfreeze bring it back exactly if
   the store begins with it and no longer prefix of the store looks like it.
   */
  lemma HealRestoresExactly(h: Hash, w: World, requestId: string, ledger: seq<EscrowRecord>, texts: set<string>)
    requires requestId !in w.requests && w.notary == Some(LedgerRoot(h, ledger)) && w.storeWritable && w.checkpointWritable
    requires YieldsDigests(h) && CollisionFree(h, texts)
    requires Covers(h, ledger, texts) && CoversPrefixes(h, AllRecords(w.store), texts)
    ensures Restores(h, w, requestId, ledger)
            <==> StartsWith(AllRecords(w.store), ledger) && !HasLookalike(ledger, AllRecords(w.store))
  {
    var records, root := AllRecords(w.store), LedgerRoot(h, ledger);
    HealSplitsTheStore(h, w, requestId);
    if SomePrefixHas(h, records, root) {
      HealThenUnfreezeReleases(h, w, requestId);
      var k := LongestPrefix(h, records, |records|, root);
      KeptPrefixIsTheLedger(h, records, ledger, texts);
      assert Restores(h, w, requestId, ledger) <==> Agree(ledger, records[..k]);
    } else {
      NoPrefixNoLedger(h, records, ledger, texts);
    }
  }

  lemma {:induction false} KeptPrefixIsTheLedger(h: Hash, records: seq<EscrowRecord>, ledger: seq<EscrowRecord>, texts: set<string>)
    requires YieldsDigests(h) && CollisionFree(h, texts) && Covers(h, ledger, texts) && CoversPrefixes(h, records, texts)
    requires LongestPrefix(h, records, |records|, LedgerRoot(h, ledger)) >= 0
    ensures var k := LongestPrefix(h, records, |records|, LedgerRoot(h, ledger));
      Agree(ledger, records[..k]) <==> StartsWith(records, ledger) && !HasLookalike(ledger, records)
  {
    if StartsWith(records, ledger) {
      PrefixOfLedger(h, records, ledger, texts);
    }
  }

  lemma NoPrefixNoLedger(h: Hash, records: seq<EscrowRecord>, ledger: seq<EscrowRecord>, texts: set<string>)
    requires YieldsDigests(h) && CollisionFree(h, texts) && Covers(h, ledger, texts) && CoversPrefixes(h, records, texts)
    requires !SomePrefixHas(h, records, LedgerRoot(h, ledger))
    ensures !StartsWith(records, ledger) && !Agree(ledger, records)
  {
    assert records[..|records|] == records;
    if StartsWith(records, ledger) {
      PrefixOfLedger(h, records, ledger, texts);
    }
  }

  /** A store without repeated records has no lookalike: there it is enough that it begins with the ledger. */
  lemma HealRestoresDistinct(h: Hash, w: World, requestId: string, ledger: seq<EscrowRecord>, texts: set<string>)
    requires requestId !in w.requests && w.notary == Some(LedgerRoot(h, ledger)) && w.storeWritable && w.checkpointWritable
    requires YieldsDigests(h) && CollisionFree(h, texts) && AllDifferent(AllRecords(w.store))
    requires Covers(h, ledger, texts) && CoversPrefixes(h, AllRecords(w.store), texts)
    ensures Restores(h, w, requestId, ledger) <==> StartsWith(AllRecords(w.store), ledger)
  {
    var records := AllRecords(w.store);
    HealRestoresExactly(h, w, requestId, ledger, texts);
    forall j | |ledger| < j <= |records|
      ensures !SameRow(ledger, records[..j])
    {
      if SameRow(ledger, records[..j]) {
        LookalikeRepeats(ledger, records[..j]);
      }
    }
  }

  lemma CopiedLastHasSameRoot(h: Hash, a: EscrowRecord, b: EscrowRecord, c: EscrowRecord)
    ensures LedgerRoot(h, [a, b, c]) == LedgerRoot(h, [a, b, c, c])
  {
    var x, y, z := EscrowRecordLeafHash(h, a), EscrowRecordLeafHash(h, b), EscrowRecordLeafHash(h, c);
    assert Leaves(h, [a, b, c]) == [x, y, z] && Leaves(h, [a, b, c, c]) == [x, y, z, z];
    B.RepeatedLastLeafKeepsRoot(h, x, y, z);
  }

  /**
   What goes wrong with a lookalike: checkpoint and notary hold the root of three records, and the last of them is
   copied in the file. The audit freezes, on the count; the heal then keeps all four and the unfreeze releases them.
   */
  lemma CopiedRecordSurvivesHealing(h: Hash, w: World, requestId: string, a: EscrowRecord, b: EscrowRecord, c: EscrowRecord)
    requires YieldsDigests(h) && !w.frozen && requestId !in w.requests && w.storeWritable && w.checkpointWritable
    requires PassesGuard(a) && PassesGuard(b) && PassesGuard(c)
    requires w.store == Stored([a, b, c, c]) && w.notary == Some(LedgerRoot(h, [a, b, c]))
    requires w.checkpoint == Some(CheckpointOf(h, [a, b, c]))
    ensures var frozen := AuditStep(h, w);
      var (healed, outcome) := HealStep(h, frozen, requestId, true);
      var (w2, released) := UnfreezeStep(h, healed);
      && frozen.frozen && outcome == Healed(LedgerRoot(h, [a, b, c]), 4)
      && released && !w2.frozen && AllRecords(w2.store) == [a, b, c, c]
  {
    var forged := [a, b, c, c];
    StoredReadsBack(forged);
    CopiedLastHasSameRoot(h, a, b, c);
    LedgerRootIsDigest(h, [a, b, c]);
    assert forged[..4] == forged;
    var frozen := AuditStep(h, w);
    assert LongestPrefix(h, forged, 4, LedgerRoot(h, [a, b, c])) == 4;
    assert SomePrefixHas(h, forged, LedgerRoot(h, [a, b, c]));
    HealThenUnfreezeReleases(h, frozen, requestId);
  }

  /** An unfreeze call releases a frozen ledger exactly if there is no checkpoint, or the audit against it passes. */
  lemma UnfreezeReleasesExactly(h: Hash, w: World)
    requires w.frozen
    ensures UnfreezeStep(h, w).1 <==> ReadCheckpoint(w).None? || AuditPasses(h, w)
  {
    assert AuditPasses(h, w.(frozen := false)) == AuditPasses(h, w);
  }

  /**
   Recovery liveness: if the notary's root is that of some prefix of the store and writes succeed, a verified
   heal followed by an unfreeze releases the ledger, with store, checkpoint and notary in agreement.
   */
  lemma HealThenUnfreezeReleases(h: Hash, w: World, requestId: string)
    requires requestId !in w.requests && w.notary.Some? && w.storeWritable && w.checkpointWritable
    requires SomePrefixHas(h, AllRecords(w.store), w.notary.value)
    ensures var (w1, outcome) := HealStep(h, w, requestId, true);
      var (w2, released) := UnfreezeStep(h, w1);
      && released && !w2.frozen && outcome.Healed?
      && InAgreement(w2, AllRecords(w.store)[..outcome.leafCount], w.notary.value)
  {
    HealSplitsTheStore(h, w, requestId);
  }

  /** And its limit: with a checkpoint in place such a prefix is also needed; without it nothing changes. */
  lemma HealThenUnfreeze(h: Hash, w: World, requestId: string)
    requires w.frozen && requestId !in w.requests && w.notary.Some? && w.storeWritable && w.checkpointWritable
    requires ReadCheckpoint(w).Some?
    ensures var (w2, released) := UnfreezeStep(h, HealStep(h, w, requestId, true).0);
      && (released <==> SomePrefixHas(h, AllRecords(w.store), w.notary.value))
      && (!released ==> w2 == w)
  {
    HealSplitsTheStore(h, w, requestId);
    if SomePrefixHas(h, AllRecords(w.store), w.notary.value) {
      HealThenUnfreezeReleases(h, w, requestId);
    } else {
      UnfreezeReleasesExactly(h, w);
      var records := AllRecords(w.store);
      assert records[..|records|] == records;
    }
  }

  // ----- saves against a notary that keeps its first root

  /**
   While the notary keeps its root, the next audit lets a save pass exactly if the bottom row stays as it was. With
   one record per transaction that means that no hashed field changed: a new record, or a new status, freezes.
   */
  lemma {:induction false} FixedNotaryStopsGrowth(h: Hash, w: World, r: EscrowRecord, texts: set<string>)
    requires !w.frozen && AuditPasses(h, w) && w.storeWritable && w.checkpointWritable && PassesGuard(r)
    requires HashesWell(h, AllRecords(w.store), Upsert(AllRecords(w.store), r), texts)
    ensures var records, updated := AllRecords(w.store), Upsert(AllRecords(w.store), r);
      && (!AuditStep(h, SaveStep(h, w, r).0).frozen <==> SameRow(records, updated))
      && (UniqueIds(records) ==> (SameRow(records, updated) <==> Agree(records, updated)))
  {
    var records := AllRecords(w.store);
    var updated := Upsert(records, r);
    SharedLedgerRootExactly(h, records, updated, texts);
    SaveThenAudit(h, w, r);
    if UniqueIds(records) {
      UpsertIds(records, r);
      UniqueIdsDiffer(records);
      UniqueIdsDiffer(updated);
      RootDeterminesLedger(h, records, updated, texts);
    }
  }
}
