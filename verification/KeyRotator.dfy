/**
 Epoch keys: transactions are bound to the epoch of their registration, past epochs are kept while they
 are referenced, and each spend collects the past epochs left without references.
 */
module KeyRotator {
  import opened Wrappers
  import opened Hashing
  import D = Decimal

  datatype EpochPublicKeySet = EpochPublicKeySet(classicalPublicKeyHex: string, pqcPublicKeyToken: string)

  datatype EpochState = EpochState(
    epoch: nat, deprecated: bool, signingKeys: EpochPublicKeySet, referencedUnspentTxIds: set<string>)

  datatype Rotator = Rotator(current: EpochState, deprecatedEpochs: seq<EpochState>, epochByTxId: map<string, nat>)

  datatype RotationReceipt = RotationReceipt(prevEpoch: nat, nextEpoch: nat, signingKeys: EpochPublicKeySet)

  function KeysFor(h: Hash, epoch: nat): EpochPublicKeySet {
    var seed := "EPOCH_SEED_V1|" + D.Render(epoch) + "|inrepo";
    EpochPublicKeySet(h("CLASSICAL_PUBKEY_V1|" + seed), h("PQC_PUBKEY_TOKEN_V1|" + seed))
  }

  function FreshEpoch(h: Hash, epoch: nat): EpochState {
    EpochState(epoch, false, KeysFor(h, epoch), {})
  }

  function Initial(h: Hash): Rotator {
    Rotator(FreshEpoch(h, 1), [], map[])
  }

  // ----- steps

  function Refer(st: EpochState, txId: string): EpochState {
    st.(referencedUnspentTxIds := st.referencedUnspentTxIds + {txId})
  }

  function Unrefer(st: EpochState, epoch: nat, txId: string): EpochState {
    if st.epoch == epoch then st.(referencedUnspentTxIds := st.referencedUnspentTxIds - {txId}) else st
  }

  function UnreferAll(sts: seq<EpochState>, epoch: nat, txId: string): seq<EpochState> {
    seq(|sts|, i requires 0 <= i < |sts| => Unrefer(sts[i], epoch, txId))
  }

  function Referenced(sts: seq<EpochState>): seq<EpochState> {
    if sts == [] then []
    else if sts[0].referencedUnspentTxIds == {} then Referenced(sts[1..])
    else [sts[0]] + Referenced(sts[1..])
  }

  function Register(s: Rotator, txId: string): Rotator {
    s.(epochByTxId := s.epochByTxId[txId := s.current.epoch], current := Refer(s.current, txId))
  }

  function Spend(s: Rotator, txId: string): Rotator {
    if txId !in s.epochByTxId then s
    else
      var epoch := s.epochByTxId[txId];
      Rotator(Unrefer(s.current, epoch, txId),
              Referenced(UnreferAll(s.deprecatedEpochs, epoch, txId)),
              s.epochByTxId - {txId})
  }

  // A rotation is refused, with an error, while the enclave is not ready.
  function Rotate(h: Hash, s: Rotator, enclaveReady: bool): Rotator {
    if !enclaveReady then s
    else
      var prev := s.current.(deprecated := true);
      Rotator(FreshEpoch(h, s.current.epoch + 1),
              if prev.referencedUnspentTxIds == {} then s.deprecatedEpochs else s.deprecatedEpochs + [prev],
              s.epochByTxId)
  }

  function KeysOfEpoch(s: Rotator, epoch: nat): Option<EpochPublicKeySet> {
    if s.current.epoch == epoch then Some(s.current.signingKeys) else KeysAmong(s.deprecatedEpochs, epoch)
  }

  function KeysAmong(sts: seq<EpochState>, epoch: nat): Option<EpochPublicKeySet> {
    if sts == [] then None
    else if sts[0].epoch == epoch then Some(sts[0].signingKeys)
    else KeysAmong(sts[1..], epoch)
  }

  // ----- the rotator

  class EnclaveKeyRotator {
    const h: Hash
    var epochState: EpochState
    var epochIndexByTxId: map<string, nat>
    var deprecatedEpochs: seq<EpochState>

    ghost function State(): Rotator
      reads this
    {
      Rotator(epochState, deprecatedEpochs, epochIndexByTxId)
    }

    constructor (h: Hash)
      ensures this.h == h && State() == Initial(h)
    {
      this.h := h;
      epochState, epochIndexByTxId, deprecatedEpochs := FreshEpoch(h, 1), map[], [];
    }

    method RegisterUnspentTimeLockedTx(txId: string)
      modifies this
      ensures State() == Register(old(State()), txId)
    {
      epochIndexByTxId := epochIndexByTxId[txId := epochState.epoch];
      epochState := Refer(epochState, txId);
    }

    method MarkTxSpent(txId: string)
      modifies this
      ensures State() == Spend(old(State()), txId)
    {
      if txId !in epochIndexByTxId {
        return;
      }
      var epoch := epochIndexByTxId[txId];
      epochIndexByTxId := epochIndexByTxId - {txId};
      if epochState.epoch == epoch {
        epochState := epochState.(referencedUnspentTxIds := epochState.referencedUnspentTxIds - {txId});
      }
      var sts := RemoveReferences(deprecatedEpochs, epoch, txId);
      deprecatedEpochs := CollectGarbage(sts);
    }

    static method RemoveReferences(sts: seq<EpochState>, epoch: nat, txId: string) returns (r: seq<EpochState>)
      ensures r == UnreferAll(sts, epoch, txId)
    {
      r := sts;
      for i := 0 to |sts|
        invariant |r| == |sts|
        invariant forall k :: 0 <= k < i ==> r[k] == Unrefer(sts[k], epoch, txId)
        invariant forall k :: i <= k < |sts| ==> r[k] == sts[k]
      {
        if r[i].epoch == epoch {
          r := r[i := r[i].(referencedUnspentTxIds := r[i].referencedUnspentTxIds - {txId})];
        }
      }
    }

    /** From the last epoch backwards, so that removals do not disturb the positions still to visit. */
    static method CollectGarbage(sts: seq<EpochState>) returns (r: seq<EpochState>)
      ensures r == Referenced(sts)
    {
      r := sts;
      var i := |sts| - 1;
      while i >= 0
        invariant -1 <= i < |sts| && Collected(sts, i + 1, r)
        decreases i
      {
        CollectStep(sts, i, r);
        if r[i].referencedUnspentTxIds == {} {
          r := r[..i] + r[i + 1..];
        }
        i := i - 1;
      }
      assert r[0..] == r && sts[0..] == sts;
    }

    method GetSigningPublicKeysForEpoch(epoch: nat) returns (keys: Option<EpochPublicKeySet>)
      ensures keys == KeysOfEpoch(State(), epoch)
    {
      if epochState.epoch == epoch {
        return Some(epochState.signingKeys);
      }
      for i := 0 to |deprecatedEpochs|
        invariant KeysAmong(deprecatedEpochs, epoch) == KeysAmong(deprecatedEpochs[i..], epoch)
      {
        if deprecatedEpochs[i].epoch == epoch {
          return Some(deprecatedEpochs[i].signingKeys);
        }
        assert deprecatedEpochs[i..][1..] == deprecatedEpochs[i + 1..];
      }
      return None;
    }

    method TriggerEpochRotation(enclaveReady: bool) returns (r: Result<RotationReceipt, string>)
      modifies this
      ensures State() == Rotate(h, old(State()), enclaveReady)
      ensures r.Ok? <==> enclaveReady
      ensures r.Ok? ==> r.value == RotationReceipt(old(epochState.epoch), epochState.epoch, epochState.signingKeys)
    {
      if !enclaveReady {
        return Err("SECURITY_VIOLATION: enclave not ready for epoch rotation");
      }
      var prev := epochState.(deprecated := true);
      if |prev.referencedUnspentTxIds| > 0 {
        deprecatedEpochs := deprecatedEpochs + [prev];
      }
      var nextKeys := KeysFor(h, prev.epoch + 1);
      epochState := EpochState(prev.epoch + 1, false, nextKeys, {});
      r := Ok(RotationReceipt(prev.epoch, prev.epoch + 1, nextKeys));
    }
  }

  // The first n epochs are still to visit, the others are done.
  ghost predicate Collected(sts: seq<EpochState>, n: nat, r: seq<EpochState>) {
    n <= |sts| && n <= |r| && r[..n] == sts[..n] && r[n..] == Referenced(sts[n..])
  }

  lemma CollectStep(sts: seq<EpochState>, i: nat, r: seq<EpochState>)
    requires i < |sts| && Collected(sts, i + 1, r)
    ensures i < |r| && r[i] == sts[i]
    ensures Collected(sts, i, if sts[i].referencedUnspentTxIds == {} then r[..i] + r[i + 1..] else r)
  {
    assert r[..i + 1][i] == sts[..i + 1][i];
    assert r[..i + 1][..i] == r[..i] && sts[..i + 1][..i] == sts[..i];
    assert sts[i..][0] == sts[i] && sts[i..][1..] == sts[i + 1..];
    assert (r[..i] + r[i + 1..])[i..] == r[i + 1..] && r[i..] == [r[i]] + r[i + 1..];
  }

  // ----- single calls, spelled out

  /** The seeds behind the keys of an epoch. */
  function KeySeeds(epoch: nat): set<string> {
    {"CLASSICAL_PUBKEY_V1|" + "EPOCH_SEED_V1|" + D.Render(epoch) + "|inrepo",
     "PQC_PUBKEY_TOKEN_V1|" + "EPOCH_SEED_V1|" + D.Render(epoch) + "|inrepo"}
  }

  lemma {:induction false} KeysSpelledOut(h: Hash, epoch: nat)
    ensures KeysFor(h, epoch).classicalPublicKeyHex
         == h("CLASSICAL_PUBKEY_V1|" + "EPOCH_SEED_V1|" + D.Render(epoch) + "|inrepo")
    ensures KeysFor(h, epoch).pqcPublicKeyToken
         == h("PQC_PUBKEY_TOKEN_V1|" + "EPOCH_SEED_V1|" + D.Render(epoch) + "|inrepo")
  {
    var seed := "EPOCH_SEED_V1|" + D.Render(epoch) + "|inrepo";
    SeedBehind("CLASSICAL_PUBKEY_V1|", "EPOCH_SEED_V1|", D.Render(epoch), "|inrepo");
    SeedBehind("PQC_PUBKEY_TOKEN_V1|", "EPOCH_SEED_V1|", D.Render(epoch), "|inrepo");
  }

  lemma SeedBehind(tag: string, a: string, b: string, c: string)
    ensures tag + (a + b + c) == tag + a + b + c
  {
  }

  lemma {:induction false} SeedTellsEpoch(tag: string, a: string, e: nat, f: nat, c: string)
    requires tag + a + D.Render(e) + c == tag + a + D.Render(f) + c && c != "" && !D.IsDigit(c[0])
    ensures e == f
  {
    var x, y := D.Render(e) + c, D.Render(f) + c;
    assert tag + a + D.Render(e) + c == (tag + a) + x && tag + a + D.Render(f) + c == (tag + a) + y;
    assert x == ((tag + a) + x)[|tag + a|..] && y == ((tag + a) + y)[|tag + a|..];
    D.RenderDecodes(e, f, c, c);
  }

  /** Two epochs never share a key of either kind. */
  lemma EpochsHaveDifferentKeys(h: Hash, e: nat, f: nat)
    requires e != f && CollisionFree(h, KeySeeds(e) + KeySeeds(f))
    ensures KeysFor(h, e).classicalPublicKeyHex != KeysFor(h, f).classicalPublicKeyHex
    ensures KeysFor(h, e).pqcPublicKeyToken != KeysFor(h, f).pqcPublicKeyToken
  {
    KeysSpelledOut(h, e);
    KeysSpelledOut(h, f);
    if KeysFor(h, e).classicalPublicKeyHex == KeysFor(h, f).classicalPublicKeyHex {
      SeedTellsEpoch("CLASSICAL_PUBKEY_V1|", "EPOCH_SEED_V1|", e, f, "|inrepo");
    }
    if KeysFor(h, e).pqcPublicKeyToken == KeysFor(h, f).pqcPublicKeyToken {
      SeedTellsEpoch("PQC_PUBKEY_TOKEN_V1|", "EPOCH_SEED_V1|", e, f, "|inrepo");
    }
  }

  /** A rotation starts the next epoch with no references and keeps the old one, with all it had, exactly if referenced. */
  lemma RotateSpelledOut(h: Hash, s: Rotator)
    ensures Rotate(h, s, false) == s
    ensures var s' := Rotate(h, s, true);
      && s'.current.epoch == s.current.epoch + 1 && !s'.current.deprecated && s'.current.referencedUnspentTxIds == {}
      && s'.epochByTxId == s.epochByTxId
      && s'.deprecatedEpochs == s.deprecatedEpochs
           + if s.current.referencedUnspentTxIds == {} then [] else [s.current.(deprecated := true)]
  {
  }

  /** A rotation really changes both keys. */
  lemma RotationChangesKeys(h: Hash, s: Rotator)
    requires s.current.signingKeys == KeysFor(h, s.current.epoch)
    requires CollisionFree(h, KeySeeds(s.current.epoch) + KeySeeds(s.current.epoch + 1))
    ensures var keys := Rotate(h, s, true).current.signingKeys;
      && keys.classicalPublicKeyHex != s.current.signingKeys.classicalPublicKeyHex
      && keys.pqcPublicKeyToken != s.current.signingKeys.pqcPublicKeyToken
  {
    EpochsHaveDifferentKeys(h, s.current.epoch, s.current.epoch + 1);
  }

  /** A registration binds and references one transaction in the current epoch and touches nothing else. */
  lemma RegisterSpelledOut(s: Rotator, txId: string)
    ensures var s' := Register(s, txId);
      && s'.epochByTxId == s.epochByTxId[txId := s.current.epoch]
      && s'.current.referencedUnspentTxIds == s.current.referencedUnspentTxIds + {txId}
      && s'.current.(referencedUnspentTxIds := s.current.referencedUnspentTxIds) == s.current
      && s'.deprecatedEpochs == s.deprecatedEpochs
  {
  }

  /** A spend ends the binding of one transaction and its reference in the bound epoch, and drops what is unreferenced. */
  lemma SpendSpelledOut(s: Rotator, txId: string)
    ensures txId !in s.epochByTxId ==> Spend(s, txId) == s
    ensures txId in s.epochByTxId ==>
      var epoch, s' := s.epochByTxId[txId], Spend(s, txId);
      && txId !in s'.epochByTxId && s'.epochByTxId == s.epochByTxId - {txId}
      && s'.current.referencedUnspentTxIds
           == (if s.current.epoch == epoch then s.current.referencedUnspentTxIds - {txId} else s.current.referencedUnspentTxIds)
      && (forall st :: st in s'.deprecatedEpochs ==> st.referencedUnspentTxIds != {})
      && (forall o :: o in s.deprecatedEpochs && o.epoch != epoch && o.referencedUnspentTxIds != {} ==> o in s'.deprecatedEpochs)
      && (forall st :: st in s'.deprecatedEpochs && st.epoch == epoch ==> txId !in st.referencedUnspentTxIds)
  {
    if txId in s.epochByTxId {
      var epoch := s.epochByTxId[txId];
      UnreferAllMembers(s.deprecatedEpochs, epoch, txId);
      ReferencedKeeps(UnreferAll(s.deprecatedEpochs, epoch, txId));
      forall o | o in s.deprecatedEpochs && o.epoch != epoch && o.referencedUnspentTxIds != {}
        ensures o in Spend(s, txId).deprecatedEpochs
      {
        assert Unrefer(o, epoch, txId) == o;
      }
    }
  }

  // ----- what every run keeps

  ghost predicate HasRef(sts: seq<EpochState>, epoch: nat, txId: string) {
    exists st :: st in sts && st.epoch == epoch && txId in st.referencedUnspentTxIds
  }

  /** Some epoch still kept, past or current, references the transaction. */
  ghost predicate HeldBy(s: Rotator, epoch: nat, txId: string) {
    || (s.current.epoch == epoch && txId in s.current.referencedUnspentTxIds)
    || HasRef(s.deprecatedEpochs, epoch, txId)
  }

  ghost predicate Ascending(sts: seq<EpochState>) {
    forall i, j :: 0 <= i < j < |sts| ==> sts[i].epoch < sts[j].epoch
  }

  /** Retained past epochs: distinct, in order, older than the current one, referenced, with their own keys. */
  ghost predicate PastInOrder(h: Hash, s: Rotator) {
    && Ascending(s.deprecatedEpochs)
    && (forall st :: st in s.deprecatedEpochs ==>
          st.epoch < s.current.epoch && st.referencedUnspentTxIds != {} && st.signingKeys == KeysFor(h, st.epoch))
    && s.current.epoch >= 1 && s.current.signingKeys == KeysFor(h, s.current.epoch)
  }

  /** Every unspent transaction is referenced by the epoch it is bound to. */
  ghost predicate BoundAreReferenced(s: Rotator) {
    forall tx :: tx in s.epochByTxId ==> HeldBy(s, s.epochByTxId[tx], tx)
  }

  ghost predicate ExactAt(st: EpochState, epochByTxId: map<string, nat>) {
    forall tx :: tx in st.referencedUnspentTxIds ==> tx in epochByTxId && epochByTxId[tx] == st.epoch
  }

  /** Every reference is that of an unspent transaction bound to the epoch. */
  ghost predicate Exact(s: Rotator) {
    && ExactAt(s.current, s.epochByTxId)
    && forall st :: st in s.deprecatedEpochs ==> ExactAt(st, s.epochByTxId)
  }

  ghost predicate Inv(h: Hash, s: Rotator) {
    PastInOrder(h, s) && BoundAreReferenced(s)
  }

  lemma {:induction false} ReferencedKeeps(sts: seq<EpochState>)
    ensures forall st :: st in Referenced(sts) <==> st in sts && st.referencedUnspentTxIds != {}
    ensures Ascending(sts) ==> Ascending(Referenced(sts))
  {
    if sts != [] {
      ReferencedKeeps(sts[1..]);
      var r := Referenced(sts[1..]);
      if Ascending(sts) {
        forall j | 0 <= j < |r|
          ensures sts[0].epoch < r[j].epoch
        {
          assert r[j] in sts[1..];
        }
      }
    }
  }

  lemma UnreferAllMembers(sts: seq<EpochState>, epoch: nat, txId: string)
    ensures forall st :: st in UnreferAll(sts, epoch, txId) ==> exists o :: o in sts && st == Unrefer(o, epoch, txId)
    ensures forall o :: o in sts ==> Unrefer(o, epoch, txId) in UnreferAll(sts, epoch, txId)
    ensures Ascending(sts) ==> Ascending(UnreferAll(sts, epoch, txId))
  {
    var u := UnreferAll(sts, epoch, txId);
    forall st | st in u
      ensures exists o :: o in sts && st == Unrefer(o, epoch, txId)
    {
      var i :| 0 <= i < |u| && u[i] == st;
      assert sts[i] in sts;
    }
    forall o | o in sts
      ensures Unrefer(o, epoch, txId) in u
    {
      var i :| 0 <= i < |sts| && sts[i] == o;
      assert u[i] == Unrefer(o, epoch, txId);
    }
  }

  // The past epochs after a spend: the old ones without the reference, as far as any reference is left.
  lemma PastAfterSpend(s: Rotator, txId: string, st: EpochState)
    requires txId in s.epochByTxId
    ensures st in Spend(s, txId).deprecatedEpochs <==>
      st.referencedUnspentTxIds != {} && exists o :: o in s.deprecatedEpochs && st == Unrefer(o, s.epochByTxId[txId], txId)
  {
    UnreferAllMembers(s.deprecatedEpochs, s.epochByTxId[txId], txId);
    ReferencedKeeps(UnreferAll(s.deprecatedEpochs, s.epochByTxId[txId], txId));
  }

  lemma SpendKeepsOrder(h: Hash, s: Rotator, txId: string)
    requires PastInOrder(h, s)
    ensures PastInOrder(h, Spend(s, txId))
  {
    if txId in s.epochByTxId {
      UnreferAllMembers(s.deprecatedEpochs, s.epochByTxId[txId], txId);
      ReferencedKeeps(UnreferAll(s.deprecatedEpochs, s.epochByTxId[txId], txId));
    }
  }

  lemma SpendKeepsRef(s: Rotator, txId: string, epoch: nat, tx: string)
    requires tx != txId && HeldBy(s, epoch, tx)
    ensures HeldBy(Spend(s, txId), epoch, tx)
  {
    if txId in s.epochByTxId && HasRef(s.deprecatedEpochs, epoch, tx) {
      var st :| st in s.deprecatedEpochs && st.epoch == epoch && tx in st.referencedUnspentTxIds;
      PastAfterSpend(s, txId, Unrefer(st, s.epochByTxId[txId], txId));
    }
  }

  lemma RotateKeepsRef(h: Hash, s: Rotator, ready: bool, epoch: nat, tx: string)
    requires HeldBy(s, epoch, tx)
    ensures HeldBy(Rotate(h, s, ready), epoch, tx)
  {
    if ready && s.current.epoch == epoch && tx in s.current.referencedUnspentTxIds {
      assert s.current.(deprecated := true) in Rotate(h, s, ready).deprecatedEpochs;
    }
  }

  datatype Op = RegisterOp(txId: string) | SpendOp(txId: string) | RotateOp(enclaveReady: bool)

  function Apply(h: Hash, s: Rotator, op: Op): Rotator {
    match op
    case RegisterOp(txId) => Register(s, txId)
    case SpendOp(txId) => Spend(s, txId)
    case RotateOp(ready) => Rotate(h, s, ready)
  }

  function After(h: Hash, s: Rotator, ops: seq<Op>): Rotator {
    if ops == [] then s else Apply(h, After(h, s, ops[..|ops| - 1]), ops[|ops| - 1])
  }

  lemma StepKeepsInv(h: Hash, s: Rotator, op: Op)
    requires Inv(h, s)
    ensures Inv(h, Apply(h, s, op))
  {
    var s' := Apply(h, s, op);
    if op.SpendOp? {
      SpendKeepsOrder(h, s, op.txId);
    }
    forall tx | tx in s'.epochByTxId
      ensures HeldBy(s', s'.epochByTxId[tx], tx)
    {
      match op
      case RegisterOp(txId) => assert tx != txId ==> HeldBy(s, s.epochByTxId[tx], tx);
      case SpendOp(txId) => SpendKeepsRef(s, txId, s.epochByTxId[tx], tx);
      case RotateOp(ready) => RotateKeepsRef(h, s, ready, s.epochByTxId[tx], tx);
    }
  }

  lemma {:induction false} RunsKeepInv(h: Hash, s: Rotator, ops: seq<Op>)
    requires Inv(h, s)
    ensures Inv(h, After(h, s, ops))
  {
    if ops != [] {
      RunsKeepInv(h, s, ops[..|ops| - 1]);
      StepKeepsInv(h, After(h, s, ops[..|ops| - 1]), ops[|ops| - 1]);
    }
  }

  lemma {:induction false} KeysAmongAscending(h: Hash, sts: seq<EpochState>, epoch: nat)
    requires forall st :: st in sts ==> st.signingKeys == KeysFor(h, st.epoch)
    ensures KeysAmong(sts, epoch) == if exists st :: st in sts && st.epoch == epoch then Some(KeysFor(h, epoch)) else None
  {
    if sts != [] {
      KeysAmongAscending(h, sts[1..], epoch);
      assert sts == [sts[0]] + sts[1..];
    }
  }

  /**
   After any run from the start, the keys of the epoch an unspent transaction is bound to can be retrieved
   and are those in force when it was registered; retained past epochs are in order and referenced.
   */
  lemma {:induction false} UnspentKeepTheirKeys(h: Hash, ops: seq<Op>, tx: string)
    ensures var s := After(h, Initial(h), ops);
      && Inv(h, s)
      && (tx in s.epochByTxId ==> KeysOfEpoch(s, s.epochByTxId[tx]) == Some(KeysFor(h, s.epochByTxId[tx])))
  {
    RunsKeepInv(h, Initial(h), ops);
    var s := After(h, Initial(h), ops);
    if tx in s.epochByTxId {
      KeysAmongAscending(h, s.deprecatedEpochs, s.epochByTxId[tx]);
    }
  }

  predicate Touches(op: Op, tx: string) {
    (op.RegisterOp? || op.SpendOp?) && op.txId == tx
  }

  lemma {:induction false} BindingStays(h: Hash, s: Rotator, ops: seq<Op>, tx: string)
    requires tx in s.epochByTxId && forall i :: 0 <= i < |ops| ==> !Touches(ops[i], tx)
    ensures var s' := After(h, s, ops);
      tx in s'.epochByTxId && s'.epochByTxId[tx] == s.epochByTxId[tx]
  {
    if ops != [] {
      BindingStays(h, s, ops[..|ops| - 1], tx);
      assert !Touches(ops[|ops| - 1], tx);
    }
  }

  /**
   From its registration until it is spent or registered anew a transaction stays bound to its epoch, whose
   keys remain retrievable and are those that were current when it was registered.
   */
  lemma {:induction false} KeysOutliveRotation(h: Hash, before: seq<Op>, tx: string, after: seq<Op>)
    requires forall i :: 0 <= i < |after| ==> !Touches(after[i], tx)
    ensures var at := After(h, Initial(h), before);
      var s := After(h, Register(at, tx), after);
      && tx in s.epochByTxId && s.epochByTxId[tx] == at.current.epoch
      && KeysOfEpoch(s, at.current.epoch) == Some(at.current.signingKeys)
  {
    var at := After(h, Initial(h), before);
    RunsKeepInv(h, Initial(h), before);
    StepKeepsInv(h, at, RegisterOp(tx));
    RunsKeepInv(h, Register(at, tx), after);
    BindingStays(h, Register(at, tx), after, tx);
    KeysAmongAscending(h, After(h, Register(at, tx), after).deprecatedEpochs, at.current.epoch);
  }

  // ----- which past epochs are retained

  /** A registration keeps references exact unless the transaction is still bound to an older epoch. */
  lemma RegisterKeepsExactUnlessRebinding(h: Hash, s: Rotator, txId: string)
    requires Inv(h, s) && Exact(s)
    ensures Exact(Register(s, txId)) <==> !(txId in s.epochByTxId && s.epochByTxId[txId] < s.current.epoch)
  {
    if txId in s.epochByTxId && s.epochByTxId[txId] < s.current.epoch {
      RebindingBreaksExact(h, s, txId);
    } else {
      assert ExactAt(Register(s, txId).current, Register(s, txId).epochByTxId);
      forall st | st in s.deprecatedEpochs
        ensures ExactAt(st, Register(s, txId).epochByTxId)
      {
        assert ExactAt(st, s.epochByTxId) && st.epoch != s.current.epoch;
      }
    }
  }

  lemma RebindingBreaksExact(h: Hash, s: Rotator, txId: string)
    requires Inv(h, s) && txId in s.epochByTxId && s.epochByTxId[txId] < s.current.epoch
    ensures !Exact(Register(s, txId))
  {
    assert HeldBy(s, s.epochByTxId[txId], txId);
    var st :| st in s.deprecatedEpochs && st.epoch == s.epochByTxId[txId] && txId in st.referencedUnspentTxIds;
    assert !ExactAt(st, Register(s, txId).epochByTxId);
  }

  lemma UnreferKeepsExactAt(o: EpochState, bound: map<string, nat>, txId: string)
    requires txId in bound && ExactAt(o, bound)
    ensures ExactAt(Unrefer(o, bound[txId], txId), bound - {txId})
  {
  }

  lemma SpendKeepsExact(s: Rotator, txId: string)
    requires Exact(s)
    ensures Exact(Spend(s, txId))
  {
    if txId in s.epochByTxId {
      UnreferKeepsExactAt(s.current, s.epochByTxId, txId);
      forall st | st in Spend(s, txId).deprecatedEpochs
        ensures ExactAt(st, Spend(s, txId).epochByTxId)
      {
        PastAfterSpend(s, txId, st);
        var o :| o in s.deprecatedEpochs && st == Unrefer(o, s.epochByTxId[txId], txId);
        UnreferKeepsExactAt(o, s.epochByTxId, txId);
      }
    }
  }

  lemma RotateKeepsExact(h: Hash, s: Rotator, ready: bool)
    requires Exact(s)
    ensures Exact(Rotate(h, s, ready))
  {
    assert ExactAt(s.current.(deprecated := true), s.epochByTxId);
  }

  /** No transaction is registered while it is still bound to an older epoch. */
  ghost predicate NeverRebinds(h: Hash, s: Rotator, ops: seq<Op>) {
    forall i :: 0 <= i < |ops| && ops[i].RegisterOp? ==>
      var at := After(h, s, ops[..i]);
      !(ops[i].txId in at.epochByTxId && at.epochByTxId[ops[i].txId] < at.current.epoch)
  }

  ghost predicate Retains(s: Rotator, epoch: nat) {
    exists st :: st in s.deprecatedEpochs && st.epoch == epoch
  }

  ghost predicate SomeBoundTo(s: Rotator, epoch: nat) {
    exists tx :: tx in s.epochByTxId && s.epochByTxId[tx] == epoch
  }

  /** Then the retained past epochs are exactly those that some unspent transaction is bound to. */
  lemma {:induction false} RetainedAreTheBound(h: Hash, ops: seq<Op>, epoch: nat)
    requires NeverRebinds(h, Initial(h), ops)
    ensures var s := After(h, Initial(h), ops);
      epoch < s.current.epoch ==> (Retains(s, epoch) <==> SomeBoundTo(s, epoch))
  {
    RunsKeepInv(h, Initial(h), ops);
    ReferencesStayExact(h, ops);
    BoundMeansRetained(h, After(h, Initial(h), ops), epoch);
  }

  lemma BoundMeansRetained(h: Hash, s: Rotator, epoch: nat)
    requires Inv(h, s) && Exact(s)
    ensures epoch < s.current.epoch ==> (Retains(s, epoch) <==> SomeBoundTo(s, epoch))
  {
    if epoch < s.current.epoch && SomeBoundTo(s, epoch) {
      var tx :| tx in s.epochByTxId && s.epochByTxId[tx] == epoch;
      assert HeldBy(s, epoch, tx);
    }
    if Retains(s, epoch) {
      var st :| st in s.deprecatedEpochs && st.epoch == epoch;
      var tx :| tx in st.referencedUnspentTxIds;
      assert ExactAt(st, s.epochByTxId);
    }
  }

  lemma {:induction false} ReferencesStayExact(h: Hash, ops: seq<Op>)
    requires NeverRebinds(h, Initial(h), ops)
    ensures Exact(After(h, Initial(h), ops))
  {
    if ops != [] {
      var before, op := ops[..|ops| - 1], ops[|ops| - 1];
      assert forall i :: 0 <= i < |before| ==> ops[..i] == before[..i];
      ReferencesStayExact(h, before);
      RunsKeepInv(h, Initial(h), before);
      var s := After(h, Initial(h), before);
      match op
      case RegisterOp(txId) => RegisterKeepsExactUnlessRebinding(h, s, txId);
      case SpendOp(txId) => SpendKeepsExact(s, txId);
      case RotateOp(ready) => RotateKeepsExact(h, s, ready);
    }
  }

  /** A reference to a past epoch that its transaction is no longer bound to. */
  ghost predicate Stale(s: Rotator, epoch: nat, tx: string) {
    && epoch < s.current.epoch && HasRef(s.deprecatedEpochs, epoch, tx)
    && !(tx in s.epochByTxId && s.epochByTxId[tx] == epoch)
  }

  /** Rebinding leaves such a reference behind, and no run ever removes it or its epoch. */
  lemma RebindingIsStale(h: Hash, s: Rotator, txId: string)
    requires Inv(h, s) && txId in s.epochByTxId && s.epochByTxId[txId] < s.current.epoch
    ensures Stale(Register(s, txId), s.epochByTxId[txId], txId)
  {
    var e := s.epochByTxId[txId];
    assert HeldBy(s, e, txId);
  }

  lemma StepKeepsStale(h: Hash, s: Rotator, op: Op, epoch: nat, tx: string)
    requires Stale(s, epoch, tx)
    ensures Stale(Apply(h, s, op), epoch, tx)
  {
    var st :| st in s.deprecatedEpochs && st.epoch == epoch && tx in st.referencedUnspentTxIds;
    if op.SpendOp? && op.txId in s.epochByTxId {
      var st' := Unrefer(st, s.epochByTxId[op.txId], op.txId);
      assert tx in st'.referencedUnspentTxIds;
      PastAfterSpend(s, op.txId, st');
    } else {
      assert st in Apply(h, s, op).deprecatedEpochs;
    }
  }

  lemma {:induction false} StaleReferencesStay(h: Hash, s: Rotator, ops: seq<Op>, epoch: nat, tx: string)
    requires Stale(s, epoch, tx)
    ensures Stale(After(h, s, ops), epoch, tx)
  {
    if ops != [] {
      StaleReferencesStay(h, s, ops[..|ops| - 1], epoch, tx);
      StepKeepsStale(h, After(h, s, ops[..|ops| - 1]), ops[|ops| - 1], epoch, tx);
    }
  }

  lemma {:induction false} AfterParts(h: Hash, s: Rotator, a: seq<Op>, b: seq<Op>)
    ensures After(h, s, a + b) == After(h, After(h, s, a), b)
  {
    if b == [] {
      assert a + b == a;
    } else {
      var init := b[..|b| - 1];
      AfterParts(h, s, a, init);
      assert (a + b)[..|a + b| - 1] == a + init;
    }
  }

  lemma StaleIsNotExact(s: Rotator, epoch: nat, tx: string)
    requires Stale(s, epoch, tx)
    ensures !Exact(s)
  {
    var st :| st in s.deprecatedEpochs && st.epoch == epoch && tx in st.referencedUnspentTxIds;
    assert !ExactAt(st, s.epochByTxId);
  }

  lemma {:induction false} SpoiledFromThere(h: Hash, s: Rotator, tx: string, rest: seq<Op>)
    requires Inv(h, s) && tx in s.epochByTxId && s.epochByTxId[tx] < s.current.epoch
    ensures !Exact(After(h, Register(s, tx), rest))
  {
    RebindingIsStale(h, s, tx);
    StaleReferencesStay(h, Register(s, tx), rest, s.epochByTxId[tx], tx);
    StaleIsNotExact(After(h, Register(s, tx), rest), s.epochByTxId[tx], tx);
  }

  // A run, taken apart at one of its registrations.
  lemma {:induction false} AfterRegistration(h: Hash, s: Rotator, ops: seq<Op>, i: nat)
    requires i < |ops| && ops[i].RegisterOp?
    ensures After(h, s, ops) == After(h, Register(After(h, s, ops[..i]), ops[i].txId), ops[i + 1..])
  {
    var first := ops[..i + 1];
    assert first[..i] == ops[..i] && first[i] == ops[i];
    AfterParts(h, s, first, ops[i + 1..]);
    assert ops == first + ops[i + 1..];
  }

  lemma {:induction false} RebindingSpoilsTheRun(h: Hash, ops: seq<Op>, i: nat)
    requires i < |ops| && ops[i].RegisterOp?
    requires var at := After(h, Initial(h), ops[..i]);
      ops[i].txId in at.epochByTxId && at.epochByTxId[ops[i].txId] < at.current.epoch
    ensures !Exact(After(h, Initial(h), ops))
  {
    RunsKeepInv(h, Initial(h), ops[..i]);
    AfterRegistration(h, Initial(h), ops, i);
    SpoiledFromThere(h, After(h, Initial(h), ops[..i]), ops[i].txId, ops[i + 1..]);
  }

  /** After a run every reference is that of an unspent transaction bound there exactly if the run never rebinds. */
  lemma {:induction false} ExactUnlessRebinding(h: Hash, ops: seq<Op>)
    ensures Exact(After(h, Initial(h), ops)) <==> NeverRebinds(h, Initial(h), ops)
  {
    if NeverRebinds(h, Initial(h), ops) {
      ReferencesStayExact(h, ops);
    } else {
      var i :| 0 <= i < |ops| && ops[i].RegisterOp? &&
        var at := After(h, Initial(h), ops[..i]);
        ops[i].txId in at.epochByTxId && at.epochByTxId[ops[i].txId] < at.current.epoch;
      RebindingSpoilsTheRun(h, ops, i);
    }
  }
}
