/**
 The three services over the ledger files. `World` is the abstract value of the files, the notary and
 the auditor; every method is tied to a step of `LedgerWorld`.
 */
module LedgerServices {
  import opened Wrappers
  import opened Hashing
  import opened Json
  import opened MerkleTrees
  import opened LedgerMerkle
  import W = LedgerWorld

  /** The files under `data/`, and whether writing to them succeeds. */
  class Disk {
    var store: W.StoreFile
    var checkpoint: Option<W.Checkpoint>
    var requests: seq<string>
    var quarantined: seq<W.Quarantine>
    var storeWritable: bool
    var checkpointWritable: bool
    var quarantineWritable: bool

    constructor ()
      ensures store == W.Entries([]) && checkpoint == None && requests == [] && quarantined == []
      ensures storeWritable && checkpointWritable && quarantineWritable
    {
      store, checkpoint, requests, quarantined := W.Entries([]), None, [], [];
      storeWritable, checkpointWritable, quarantineWritable := true, true, true;
    }

    /** The records of the store that pass the read guard, in order; an error if it is not JSON. */
    method ReadAllRecords() returns (r: Result<seq<EscrowRecord>, string>)
      ensures r == if store.Corrupt? then Err("Unexpected token in JSON") else Ok(W.AllRecords(store))
    {
      if store.Corrupt? {
        return Err("Unexpected token in JSON");
      }
      if store.NotAnArray? {
        return Ok([]);
      }
      var items := store.items;
      var out: seq<EscrowRecord> := [];
      assert items[0..] == items && [] + W.Readable(items) == W.Readable(items);
      for i := 0 to |items|
        invariant out + W.Readable(items[i..]) == W.Readable(items)
      {
        var item := items[i];
        if item.Rec?
           && (item.record.status == "LOCKED" || item.record.status == "RELEASED" || item.record.status == "FAILED")
           && item.record.validAfterMs.Some? && item.record.validUntilMs.Some? {
          out := out + [item.record];
        }
        W.ReadableFrom(items, i);
      }
      assert items[|items|..] == [] && out + [] == out;
      r := Ok(out);
    }
  }

  /** The notary network, whose root the environment may change; None while it cannot be reached. */
  class Notary {
    var root: Option<string>
  }

  class LedgerAuditor {
    const h: Hash
    const disk: Disk
    const notary: Notary
    var frozen: bool
    var latestNotaryState: Option<string>

    ghost function World(): W.World
      reads this, disk, notary
    {
      W.World(disk.store, disk.checkpoint, notary.root, frozen, disk.requests, disk.quarantined,
              disk.storeWritable, disk.checkpointWritable, disk.quarantineWritable)
    }

    constructor (h: Hash, disk: Disk, notary: Notary)
      ensures this.h == h && this.disk == disk && this.notary == notary
      ensures !frozen && latestNotaryState == None
    {
      this.h, this.disk, this.notary := h, disk, notary;
      frozen, latestNotaryState := false, None;
    }

    method Freeze(reason: string)
      modifies this`frozen
      ensures World() == old(World()).(frozen := true)
    {
      if frozen {
        return;
      }
      frozen := true;
    }

    method ReadCheckpoint() returns (cp: Option<W.Checkpoint>)
      ensures cp == W.ReadCheckpoint(World())
    {
      cp := if disk.checkpoint.Some? && disk.checkpoint.value.root != "" then disk.checkpoint else None;
    }

    method WriteCheckpoint(cp: W.Checkpoint)
      modifies disk`checkpoint
      ensures World() == W.WriteCheckpoint(old(World()), cp)
    {
      if disk.checkpointWritable {
        disk.checkpoint := Some(cp);
      }
    }

    /** The broadcast to the notary is best effort: its outcome is left to the environment. */
    method UpdateCheckpointNow(root: string, leafCount: nat)
      modifies disk`checkpoint
      ensures World() == W.WriteCheckpoint(old(World()), W.Checkpoint(root, leafCount))
    {
      WriteCheckpoint(W.Checkpoint(root, leafCount));
    }

    method AuditOnce()
      modifies this, disk`checkpoint
      ensures World() == W.AuditStep(h, old(World()))
      ensures latestNotaryState ==
        if !old(frozen) && W.ReadCheckpoint(old(World())).Some? && notary.root.Some? then notary.root
        else old(latestNotaryState)
    {
      if frozen {
        return;
      }
      var checkpoint := ReadCheckpoint();
      if checkpoint.None? {
        EstablishCheckpoint();
        return;
      }
      if notary.root.None? {
        Freeze("EMERGENCY_SYSTEM_FREEZE: Remote consensus unreachable");
        return;
      }
      latestNotaryState := notary.root;
      if notary.root.value != checkpoint.value.root {
        Freeze("State-omission/checkpoint-override detected");
        return;
      }
      VerifyStore(checkpoint.value);
      assert W.AuditPasses(h, old(World())) == W.MatchesStore(h, disk.store, checkpoint.value);
    }

    // Without a checkpoint the current store becomes the reference.
    method EstablishCheckpoint()
      modifies disk`checkpoint
      ensures World() == W.WriteCheckpoint(old(World()), W.CheckpointOf(h, W.AllRecords(disk.store)))
    {
      var read := disk.ReadAllRecords();
      var records := if read.Ok? then read.value else [];
      var root, leafCount := RootAndCount(h, records);
      WriteCheckpoint(W.Checkpoint(root, leafCount));
    }

    // The last part of an audit: the store against the checkpoint.
    method VerifyStore(checkpoint: W.Checkpoint)
      modifies this`frozen
      ensures World() == if W.MatchesStore(h, disk.store, checkpoint) then old(World())
                         else old(World()).(frozen := true)
    {
      if disk.store.Corrupt? {
        Freeze("Unable to read ledger store from disk");
        return;
      }
      if disk.store.NotAnArray? {
        Freeze("Ledger store file is corrupted or not an array");
        return;
      }
      var read := disk.ReadAllRecords();
      var root, leafCount := RootAndCount(h, read.value);
      if leafCount != checkpoint.leafCount {
        Freeze("Ledger tamper detected: leafCount mismatch");
        return;
      }
      if root != checkpoint.root {
        Freeze("Ledger tamper detected: root mismatch");
        return;
      }
    }

    method UnfreezeIfClean(reason: string) returns (ok: bool)
      modifies this, disk`checkpoint
      ensures (World(), ok) == W.UnfreezeStep(h, old(World()))
    {
      if !frozen {
        return true;
      }
      frozen := false;
      AuditOnce();
      ok := !frozen;
    }
  }

  class DatabaseService {
    const auditor: LedgerAuditor

    constructor (auditor: LedgerAuditor)
      ensures this.auditor == auditor
    {
      this.auditor := auditor;
    }

    /** False stands for a thrown error. */
    method SaveRecord(record: EscrowRecord) returns (ok: bool)
      modifies auditor.disk`store, auditor.disk`checkpoint
      ensures (auditor.World(), ok) == W.SaveStep(auditor.h, old(auditor.World()), record)
    {
      var disk := auditor.disk;
      var read := disk.ReadAllRecords();
      if read.Err? {
        return false;
      }
      var existing := read.value;
      var idx := FindIndex(existing, record.transactionId);
      if idx >= 0 {
        existing := existing[idx := record];
      } else {
        existing := existing + [record];
      }
      if !disk.storeWritable {
        return false;
      }
      disk.store := W.Stored(existing);
      var root, leafCount := RootAndCount(auditor.h, existing);
      auditor.UpdateCheckpointNow(root, leafCount);
      ok := true;
    }

    static method FindIndex(records: seq<EscrowRecord>, id: string) returns (idx: int)
      ensures idx == W.IndexOf(records, id)
    {
      for i := 0 to |records|
        invariant forall k :: 0 <= k < i ==> records[k].transactionId != id
      {
        if records[i].transactionId == id {
          return i;
        }
      }
      return -1;
    }

    method GetRecord(transactionId: string) returns (found: Option<EscrowRecord>)
      ensures found == W.Lookup(W.AllRecords(auditor.disk.store), transactionId)
    {
      var records := GetAllRecords();
      var idx := FindIndex(records, transactionId);
      found := if idx < 0 then None else Some(records[idx]);
    }

    method GetAllRecords() returns (records: seq<EscrowRecord>)
      ensures records == W.AllRecords(auditor.disk.store)
    {
      var read := auditor.disk.ReadAllRecords();
      records := if read.Ok? then read.value else [];
    }
  }

  // ----- recovery

  const RITUAL := "LEDGER_UNFREEZE_RITUAL"

  datatype RecoverySignature = RecoverySignature(officerPublicKey: string, signatureHex: string)

  datatype RecoveryPayload = RecoveryPayload(
    requestId: string, action: string, expiresAt: string, signatures: seq<RecoverySignature>)

  function RecoveryJson(p: RecoveryPayload): Json {
    Obj([Field("requestId", Str(p.requestId)), Field("action", Str(p.action)), Field("expiresAt", Str(p.expiresAt))])
  }

  function RecoveryText(p: RecoveryPayload): string {
    "ADMIN_RECOVERY|" + Stable(RecoveryJson(p))
  }

  /** The signed message binds the request, the action and the expiry. */
  lemma RecoveryMessageBindsPayload(h: Hash, p: RecoveryPayload, q: RecoveryPayload)
    requires CollisionFree(h, {RecoveryText(p), RecoveryText(q)}) && h(RecoveryText(p)) == h(RecoveryText(q))
    ensures p.(signatures := []) == q.(signatures := [])
  {
    var v, w := RecoveryJson(p), RecoveryJson(q);
    var tag := "ADMIN_RECOVERY|";
    assert (tag + Stable(v))[|tag|..] == Stable(v) && (tag + Stable(w))[|tag|..] == Stable(w);
    RecoveryKeys(p);
    RecoveryKeys(q);
    StableIsCanonical(v, w);
    forall i | 0 <= i < 3
      ensures v.fields[i].value == w.fields[i].value
    {
      assert MemberOf(true, v, i, w);
    }
    assert v.fields[0].value == w.fields[0].value && v.fields[1].value == w.fields[1].value;
    assert v.fields[2].value == w.fields[2].value;
  }

  lemma RecoveryKeys(p: RecoveryPayload)
    ensures WellFormed(RecoveryJson(p))
    ensures var fs := RecoveryJson(p).fields;
      |fs[0].key| == |fs[2].key| == 9 && |fs[1].key| == 6 && fs[0].key[0] == 'r' && fs[2].key[0] == 'e'
  {
    var fs := RecoveryJson(p).fields;
    assert |fs[1].key| == 6 && fs[0].key[0] == 'r' && fs[2].key[0] == 'e';
    assert WellFormed(fs[0].value) && WellFormed(fs[1].value) && WellFormed(fs[2].value);
  }

  lemma RecoveryLeads()
    ensures Labels("\"action\":", "action") && Labels("\"expiresAt\":", "expiresAt") && Labels("\"requestId\":", "requestId")
  {
  }

  lemma {:induction false} RecoveryInOrder(fs: seq<Field>, gs: seq<Field>)
    requires |fs| == 3 && gs == [fs[1], fs[2], fs[0]]
    requires fs[0].key == "requestId" && fs[1].key == "action" && fs[2].key == "expiresAt"
    ensures InKeyOrder(gs, fs)
  {
    assert Before("action", "expiresAt") && Before("expiresAt", "requestId");
    assert fs == [fs[0]] + [fs[1], fs[2]] && gs == [fs[1], fs[2]] + [fs[0]];
    NeighboursSuffice(gs, fs);
  }

  /** The text that officers sign the hash of. */
  lemma {:induction false} RecoveryTextSpelledOut(p: RecoveryPayload)
    ensures RecoveryText(p) == "ADMIN_RECOVERY|" +
      ("{" + ("\"action\":" + Quote(p.action) + ","
              + ("\"expiresAt\":" + Quote(p.expiresAt) + "," + ("\"requestId\":" + Quote(p.requestId) + "}"))))
  {
    var fs := RecoveryJson(p).fields;
    var gs := [fs[1], fs[2], fs[0]];
    RecoveryInOrder(fs, gs);
    SameOnceSorted(fs, gs);
    RecoveryLeads();
    ThreeMembers(gs, "\"action\":", "\"expiresAt\":", "\"requestId\":", Quote(p.action), Quote(p.expiresAt),
                 Quote(p.requestId));
  }

  type SignatureCheck = (string, string, string) -> bool

  class AdminRecoveryService {
    const h: Hash
    const auditor: LedgerAuditor
    const officers: seq<string>
    const thresholdM: int
    const verifySignature: SignatureCheck     // CryptoService.verifySignature(message, signature, key)
    const parseIso: string -> Option<int>     // Date parsing, None when it is no date

    /** The distinct configured officers with a valid signature over the message. */
    ghost function ValidOfficers(p: RecoveryPayload): set<string> {
      set s | s in p.signatures && Counts(p, s) :: s.officerPublicKey
    }

    predicate Counts(p: RecoveryPayload, s: RecoverySignature) {
      && s.officerPublicKey != "" && s.signatureHex != "" && s.officerPublicKey in officers
      && verifySignature(h(RecoveryText(p)), s.signatureHex, s.officerPublicKey)
    }

    ghost predicate Authorised(p: RecoveryPayload, now: int) {
      && p.action == RITUAL
      && parseIso(p.expiresAt).Some? && parseIso(p.expiresAt).value > now
      && |ValidOfficers(p)| >= thresholdM
    }

    constructor (auditor: LedgerAuditor, officers: seq<string>, thresholdM: int, verifySignature: SignatureCheck,
                 parseIso: string -> Option<int>)
      ensures h == auditor.h && this.auditor == auditor && this.officers == officers && this.thresholdM == thresholdM
      ensures this.verifySignature == verifySignature && this.parseIso == parseIso
    {
      h, this.auditor, this.officers, this.thresholdM := auditor.h, auditor, officers, thresholdM;
      this.verifySignature, this.parseIso := verifySignature, parseIso;
    }

    /** Repeated signatures of one officer count once; an officer's invalid ones do not block a valid one. */
    method VerifyMultiSig(p: RecoveryPayload, now: int) returns (ok: bool)
      ensures ok <==> Authorised(p, now)
    {
      if p.action != RITUAL {
        return false;
      }
      var expires := parseIso(p.expiresAt);
      if expires.None? || expires.value <= now {
        return false;
      }
      var uniqueKeys: set<string> := {};
      var validCount := 0;
      var message := h(RecoveryText(p));
      for i := 0 to |p.signatures|
        invariant uniqueKeys == set s | s in p.signatures[..i] && Counts(p, s) :: s.officerPublicKey
        invariant validCount == |uniqueKeys|
      {
        var sig := p.signatures[i];
        assert p.signatures[..i + 1] == p.signatures[..i] + [sig];
        if sig.officerPublicKey == "" || sig.signatureHex == "" {
          continue;
        }
        if sig.officerPublicKey !in officers {
          continue;
        }
        if sig.officerPublicKey in uniqueKeys {
          continue;
        }
        if verifySignature(message, sig.signatureHex, sig.officerPublicKey) {
          uniqueKeys := uniqueKeys + {sig.officerPublicKey};
          validCount := validCount + 1;
        }
      }
      assert p.signatures[..|p.signatures|] == p.signatures;
      ok := validCount >= thresholdM;
    }

    method AttemptHealAndReturnOutcome(p: RecoveryPayload, now: int) returns (outcome: W.HealOutcome)
      requires h == auditor.h
      modifies auditor.disk
      ensures (auditor.World(), outcome) == W.HealStep(h, old(auditor.World()), p.requestId, Authorised(p, now))
      ensures outcome.Healed? ==> Authorised(p, now) && p.requestId !in old(auditor.disk.requests)
      ensures !Authorised(p, now) || p.requestId in old(auditor.disk.requests) ==> auditor.World() == old(auditor.World())
    {
      var disk := auditor.disk;
      if p.requestId in disk.requests {
        return W.Duplicate;
      }
      var verified := VerifyMultiSig(p, now);
      if !verified {
        return W.Rejected;
      }
      if auditor.notary.root.None? {
        return W.NotaryUnreachable;
      }
      var targetRoot := auditor.notary.root.value;
      var read := disk.ReadAllRecords();
      var records := if read.Ok? then read.value else [];
      var healedPrefixLen := ScanPrefixes(h, records, targetRoot);
      if healedPrefixLen < 0 {
        return W.NoPrefixMatches;
      }
      var suffix := records[healedPrefixLen..];
      if disk.quarantineWritable {
        disk.quarantined := disk.quarantined + [W.Quarantine(p.requestId, healedPrefixLen, suffix)];
      }
      if !disk.storeWritable {
        return W.WriteFailed;
      }
      var healed := records[..healedPrefixLen];
      var root, leafCount := RootAndCount(h, healed);
      disk.store := W.Stored(healed);
      auditor.UpdateCheckpointNow(root, leafCount);
      disk.requests := disk.requests + [p.requestId];
      outcome := W.Healed(root, leafCount);
    }

    /** The scan goes from the whole store downwards. */
    static method ScanPrefixes(h: Hash, records: seq<EscrowRecord>, targetRoot: string) returns (k: int)
      ensures k == W.LongestPrefix(h, records, |records|, targetRoot)
    {
      var i := |records|;
      while i >= 0
        invariant -1 <= i <= |records|
        invariant forall j :: i < j <= |records| ==> LedgerRoot(h, records[..j]) != targetRoot
        decreases i
      {
        var root, _ := RootAndCount(h, records[..i]);
        if root == targetRoot {
          return i;
        }
        i := i - 1;
      }
      k := -1;
    }
  }

  /**
   Who may heal, spelled out: an unexpired ritual, signed by enough different configured officers, each over the hash
   of the recovery text.
   */
  lemma AuthorisedSpelledOut(s: AdminRecoveryService, p: RecoveryPayload, now: int)
    ensures s.Authorised(p, now) <==>
      && p.action == "LEDGER_UNFREEZE_RITUAL"
      && s.parseIso(p.expiresAt).Some? && now < s.parseIso(p.expiresAt).value
      && |set x | x in p.signatures && x.officerPublicKey != "" && x.signatureHex != "" && x.officerPublicKey in s.officers
                  && s.verifySignature(s.h(RecoveryText(p)), x.signatureHex, x.officerPublicKey) :: x.officerPublicKey|
         >= s.thresholdM
  {
    assert s.ValidOfficers(p)
      == set x | x in p.signatures && x.officerPublicKey != "" && x.signatureHex != "" && x.officerPublicKey in s.officers
                 && s.verifySignature(s.h(RecoveryText(p)), x.signatureHex, x.officerPublicKey) :: x.officerPublicKey;
  }

  /** The ritual is named and not expired. */
  ghost predicate Unexpired(s: AdminRecoveryService, p: RecoveryPayload, now: int) {
    p.action == RITUAL && s.parseIso(p.expiresAt).Some? && s.parseIso(p.expiresAt).value > now
  }

  /** A threshold that is unset, that is zero or less, asks for no signature at all. */
  lemma UnsetThresholdAsksForNothing(s: AdminRecoveryService, p: RecoveryPayload, now: int)
    requires s.thresholdM <= 0
    ensures s.Authorised(p, now) <==> Unexpired(s, p, now)
  {
  }

  /**
   An unexpired payload that no configured officer validly signed is refused exactly if the threshold is positive.
   With no officers configured that is every payload.
   */
  lemma UnsignedIsRefusedExactly(s: AdminRecoveryService, p: RecoveryPayload, now: int)
    requires Unexpired(s, p, now) && (s.ValidOfficers(p) == {} || s.officers == [])
    ensures s.ValidOfficers(p) == {}
    ensures !s.Authorised(p, now) <==> s.thresholdM > 0
  {
    if s.officers == [] {
      forall sig | sig in p.signatures
        ensures !s.Counts(p, sig)
      {
        assert sig.officerPublicKey !in s.officers;
      }
    }
  }

  /** A service without officers or threshold refuses unexpired payloads exactly if the threshold is positive. */
  lemma UnconfiguredRefusesExactly(s: AdminRecoveryService, p: RecoveryPayload, now: int)
    requires Unexpired(s, p, now) && (s.officers == [] || s.thresholdM <= 0)
    ensures !s.Authorised(p, now) <==> s.thresholdM > 0
  {
    if s.officers == [] {
      UnsignedIsRefusedExactly(s, p, now);
    }
  }
}
