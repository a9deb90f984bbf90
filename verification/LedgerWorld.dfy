/**
 The persistent ledger and everything that watches over it, as one state with atomic steps: the store
 file, the checkpoint file, the notary's root and the auditor's frozen flag.
 */
module LedgerWorld {
  import opened Wrappers
  import opened Hashing
  import opened LedgerMerkle
  import M = OrderedMaps

  // An element of the stored array: an object of the record shape, or anything else.
  datatype Entry = Rec(record: EscrowRecord) | Junk

  // The store file: not JSON, JSON that is no array, or an array.
  datatype StoreFile = Corrupt | NotAnArray | Entries(items: seq<Entry>)

  datatype Checkpoint = Checkpoint(root: string, leafCount: int)

  datatype Quarantine = Quarantine(requestId: string, truncatedAt: nat, records: seq<EscrowRecord>)

  datatype World = World(
    store: StoreFile,
    checkpoint: Option<Checkpoint>,
    notary: Option<string>,            // None while the notary cannot be reached
    frozen: bool,
    requests: seq<string>,             // ids of completed recovery requests
    quarantined: seq<Quarantine>,
    storeWritable: bool,
    checkpointWritable: bool,
    quarantineWritable: bool)

  // ----- reading

  /** The read guard: a record needs a known status and two finite time locks. */
  predicate PassesGuard(r: EscrowRecord) {
    && (r.status == "LOCKED" || r.status == "RELEASED" || r.status == "FAILED")
    && r.validAfterMs.Some? && r.validUntilMs.Some?
  }

  function Readable(items: seq<Entry>): (records: seq<EscrowRecord>)
    ensures forall r :: r in records ==> PassesGuard(r)
  {
    if items == [] then []
    else if items[0].Rec? && PassesGuard(items[0].record) then [items[0].record] + Readable(items[1..])
    else Readable(items[1..])
  }

  lemma ReadableFrom(items: seq<Entry>, i: nat)
    requires i < |items|
    ensures Readable(items[i..])
         == (if items[i].Rec? && PassesGuard(items[i].record) then [items[i].record] else []) + Readable(items[i + 1..])
  {
    assert items[i..][0] == items[i] && items[i..][1..] == items[i + 1..];
  }

  function Stored(records: seq<EscrowRecord>): StoreFile {
    Entries(seq(|records|, i requires 0 <= i < |records| => Rec(records[i])))
  }

  /** `getAllRecords`: nothing when the file cannot be used. */
  function AllRecords(store: StoreFile): (records: seq<EscrowRecord>)
    ensures forall r :: r in records ==> PassesGuard(r)
  {
    if store.Entries? then Readable(store.items) else []
  }

  lemma {:induction false} ReadableAppend(items: seq<Entry>, e: Entry)
    ensures Readable(items + [e]) == Readable(items) + if e.Rec? && PassesGuard(e.record) then [e.record] else []
  {
    if items != [] {
      assert (items + [e])[1..] == items[1..] + [e];
      ReadableAppend(items[1..], e);
    }
  }

  lemma {:induction false} StoredReadsBack(records: seq<EscrowRecord>)
    requires forall r :: r in records ==> PassesGuard(r)
    ensures AllRecords(Stored(records)) == records
  {
    if records != [] {
      StoredReadsBack(records[1..]);
      assert Stored(records).items[1..] == Stored(records[1..]).items;
    }
  }

  lemma {:induction false} UnreadableIsMissing(records: seq<EscrowRecord>)
    requires exists r :: r in records && !PassesGuard(r)
    ensures |AllRecords(Stored(records))| < |records|
  {
    assert Stored(records).items[1..] == Stored(records[1..]).items;
    if forall r :: r in records[1..] ==> PassesGuard(r) {
      StoredReadsBack(records[1..]);
      assert records == [records[0]] + records[1..];
    } else {
      UnreadableIsMissing(records[1..]);
    }
  }

  function IdOf(r: EscrowRecord): string {
    r.transactionId
  }

  function IndexOf(records: seq<EscrowRecord>, id: string): (i: int)
    ensures -1 <= i < |records|
  {
    M.IndexOf(IdOf, records, id)
  }

  function Lookup(records: seq<EscrowRecord>, id: string): Option<EscrowRecord> {
    var i := IndexOf(records, id);
    if i < 0 then None else Some(records[i])
  }

  function Upsert(records: seq<EscrowRecord>, r: EscrowRecord): seq<EscrowRecord> {
    M.Put(IdOf, records, r)
  }

  // ----- steps

  function CheckpointOf(h: Hash, records: seq<EscrowRecord>): Checkpoint {
    Checkpoint(LedgerRoot(h, records), |records|)
  }

  function WriteCheckpoint(w: World, cp: Checkpoint): World {
    if w.checkpointWritable then w.(checkpoint := Some(cp)) else w
  }

  // A checkpoint with an empty root counts as absent.
  function ReadCheckpoint(w: World): Option<Checkpoint> {
    if w.checkpoint.Some? && w.checkpoint.value.root != "" then w.checkpoint else None
  }

  /** `saveRecord`; it throws, and changes nothing, if the store cannot be parsed or written. */
  function SaveStep(h: Hash, w: World, r: EscrowRecord): (World, bool) {
    if w.store.Corrupt? || !w.storeWritable then (w, false)
    else
      var updated := Upsert(AllRecords(w.store), r);
      (WriteCheckpoint(w.(store := Stored(updated)), CheckpointOf(h, updated)), true)
  }

  predicate MatchesStore(h: Hash, store: StoreFile, cp: Checkpoint) {
    && store.Entries?
    && |AllRecords(store)| == cp.leafCount
    && LedgerRoot(h, AllRecords(store)) == cp.root
  }

  /** What an audit with a checkpoint checks. */
  predicate AuditPasses(h: Hash, w: World) {
    var cp := ReadCheckpoint(w);
    cp.Some? && w.notary == Some(cp.value.root) && MatchesStore(h, w.store, cp.value)
  }

  /** `auditOnce`: without a checkpoint it establishes one from whatever is stored. */
  function AuditStep(h: Hash, w: World): World {
    if w.frozen then w
    else if ReadCheckpoint(w).None? then WriteCheckpoint(w, CheckpointOf(h, AllRecords(w.store)))
    else if AuditPasses(h, w) then w
    else w.(frozen := true)
  }

  function UnfreezeStep(h: Hash, w: World): (World, bool) {
    if !w.frozen then (w, true)
    else
      var audited := AuditStep(h, w.(frozen := false));
      (audited, !audited.frozen)
  }

  /** The longest of the first `n` prefixes with the given root, or -1. */
  function LongestPrefix(h: Hash, records: seq<EscrowRecord>, n: nat, root: string): (k: int)
    requires n <= |records|
    ensures -1 <= k <= n
    ensures k >= 0 ==> LedgerRoot(h, records[..k]) == root
    ensures forall i :: k < i <= n ==> LedgerRoot(h, records[..i]) != root
  {
    if LedgerRoot(h, records[..n]) == root then n
    else if n == 0 then -1
    else LongestPrefix(h, records, n - 1, root)
  }

  datatype HealOutcome =
    | Duplicate
    | Rejected
    | NotaryUnreachable
    | NoPrefixMatches
    | WriteFailed
    | Healed(root: string, leafCount: nat)

  /** `attemptHealAndReturnOutcome`, given whether the signatures verified. */
  function HealStep(h: Hash, w: World, requestId: string, verified: bool): (World, HealOutcome) {
    if requestId in w.requests then (w, Duplicate)
    else if !verified then (w, Rejected)
    else if w.notary.None? then (w, NotaryUnreachable)
    else
      var records := AllRecords(w.store);
      var k := LongestPrefix(h, records, |records|, w.notary.value);
      if k < 0 then (w, NoPrefixMatches)
      else
        var w1 := if w.quarantineWritable
                  then w.(quarantined := w.quarantined + [Quarantine(requestId, k, records[k..])]) else w;
        if !w.storeWritable then (w1, WriteFailed)
        else
          var healed := records[..k];
          var w2 := WriteCheckpoint(w1.(store := Stored(healed)), CheckpointOf(h, healed));
          (w2.(requests := w.requests + [requestId]), Healed(LedgerRoot(h, healed), k))
  }

  datatype Step =
    | Save(record: EscrowRecord)
    | Audit
    | Freeze
    | Unfreeze
    | Heal(requestId: string, verified: bool)
    | Environment(world: World)   // anything outside the process: files, notary, faults

  function Apply(h: Hash, w: World, step: Step): World {
    match step
    case Save(r) => SaveStep(h, w, r).0
    case Audit => AuditStep(h, w)
    case Freeze => w.(frozen := true)
    case Unfreeze => UnfreezeStep(h, w).0
    case Heal(id, verified) => HealStep(h, w, id, verified).0
    case Environment(world) => world.(frozen := w.frozen)
  }

  /** The state after the first `n` steps. */
  function After(h: Hash, w: World, steps: seq<Step>, n: nat): World
    requires n <= |steps|
  {
    if n == 0 then w else Apply(h, After(h, w, steps, n - 1), steps[n - 1])
  }
}
