/**
 The lifecycle of an escrow document. Payment provider answers, the clock and the integrity hash are
 arguments; calls are taken one at a time.
 */
module Escrows {
  import opened Wrappers

  datatype Status = PENDING | LOCKED | DISPUTED | RELEASED | REFUNDED

  datatype Escrow = Escrow(
    id: string, tenantId: string, buyerId: string, sellerId: string, amount: real, currency: string, status: Status,
    providerType: string, transactionId: Option<string>, integrityHash: string, createdAt: int, lockedAt: Option<int>,
    releasedAt: Option<int>, refundedAt: Option<int>, metadata: map<string, string>)

  type Store = map<string, Escrow>

  // A missing or empty transaction id counts as none.
  predicate HasTransaction(e: Escrow) {
    e.transactionId.Some? && e.transactionId.value != ""
  }

  // ----- transitions: the updated document, or the error thrown

  datatype Terms = Terms(
    tenantId: string, buyerId: string, sellerId: string, amount: real, currency: string, providerType: string,
    metadata: map<string, string>)

  function Created(id: string, t: Terms, now: int): Escrow {
    Escrow(id, t.tenantId, t.buyerId, t.sellerId, t.amount, t.currency, PENDING, t.providerType, None, "", now, None, None,
           None, t.metadata)
  }

  datatype PaymentStatus = SUCCESS | FAILED | PENDING_PAYMENT

  datatype PaymentResult = PaymentResult(status: PaymentStatus, transactionId: Option<string>)

  /** `payment` is the provider's answer, None if the call threw. Neither its status nor its id is looked at. */
  function Lock(s: Store, id: string, payment: Option<PaymentResult>, integrityHash: string, now: int)
    : Result<Escrow, string>
  {
    if id !in s then Err("ESCROW_NOT_FOUND")
    else if s[id].status != PENDING then Err("INVALID_STATE_TRANSITION")
    else if payment.None? then Err("PROVIDER_ERROR")
    else Ok(s[id].(status := LOCKED, transactionId := payment.value.transactionId, integrityHash := integrityHash,
                   lockedAt := Some(now)))
  }

  function Release(s: Store, id: string, captured: bool, now: int): Result<Escrow, string> {
    if id !in s then Err("ESCROW_NOT_FOUND")
    else if s[id].status != LOCKED then Err("INVALID_STATE_TRANSITION")
    else if !HasTransaction(s[id]) then Err("NO_TRANSACTION_TO_RELEASE")
    else if !captured then Err("TRANSACTION_NOT_CAPTURED")
    else Ok(s[id].(status := RELEASED, releasedAt := Some(now)))
  }

  function Refund(s: Store, id: string, reason: string, refunded: bool, now: int): Result<Escrow, string> {
    if id !in s then Err("ESCROW_NOT_FOUND")
    else if !HasTransaction(s[id]) then Err("NO_TRANSACTION_TO_REFUND")
    else if s[id].status == REFUNDED then Err("ALREADY_REFUNDED")
    else if !refunded then Err("REFUND_INITIATION_FAILED")
    else Ok(s[id].(status := REFUNDED, refundedAt := Some(now),
                   metadata := s[id].metadata["refundInitiated" := "true"]["reason" := reason]))
  }

  function Dispute(s: Store, id: string, reason: string, at: string): Result<Escrow, string> {
    if id !in s then Err("ESCROW_NOT_FOUND")
    else if s[id].status == RELEASED || s[id].status == REFUNDED then Err("CANNOT_DISPUTE")
    else Ok(s[id].(status := DISPUTED, metadata := s[id].metadata["disputeReason" := reason]["disputedAt" := at]))
  }

  function Written(s: Store, id: string, r: Result<Escrow, string>): Store {
    if r.Ok? then s[id := r.value] else s
  }

  // ----- when a call succeeds, and the document it writes, spelled out

  lemma CreateSpelledOut(id: string, t: Terms, now: int)
    ensures var e := Created(id, t, now);
      && e.id == id && e.status == PENDING && e.transactionId == None && e.integrityHash == "" && e.createdAt == now
      && e.lockedAt == e.releasedAt == e.refundedAt == None
      && Terms(e.tenantId, e.buyerId, e.sellerId, e.amount, e.currency, e.providerType, e.metadata) == t
  {
  }

  lemma LockSpelledOut(s: Store, id: string, payment: Option<PaymentResult>, hash: string, now: int)
    ensures var r := Lock(s, id, payment, hash, now);
      && (r.Ok? <==> id in s && s[id].status == PENDING && payment.Some?)
      && (r.Ok? ==>
            && r.value.status == LOCKED && r.value.transactionId == payment.value.transactionId
            && r.value.integrityHash == hash && r.value.lockedAt == Some(now)
            && r.value.(status := s[id].status, transactionId := s[id].transactionId,
                        integrityHash := s[id].integrityHash, lockedAt := s[id].lockedAt) == s[id])
  {
  }

  /** Only what the provider confirms is released. */
  lemma ReleaseSpelledOut(s: Store, id: string, captured: bool, now: int)
    ensures var r := Release(s, id, captured, now);
      && (r.Ok? <==>
            id in s && s[id].status == LOCKED && s[id].transactionId != None && s[id].transactionId != Some("") && captured)
      && (r.Ok? ==>
            && r.value.status == RELEASED && r.value.releasedAt == Some(now)
            && r.value.(status := LOCKED, releasedAt := s[id].releasedAt) == s[id])
  {
  }

  /** Only what the provider takes back is refunded. */
  lemma RefundSpelledOut(s: Store, id: string, reason: string, refunded: bool, now: int)
    ensures var r := Refund(s, id, reason, refunded, now);
      && (r.Ok? <==>
            id in s && s[id].status != REFUNDED && s[id].transactionId != None && s[id].transactionId != Some("") && refunded)
      && (r.Ok? ==>
            && r.value.status == REFUNDED && r.value.refundedAt == Some(now)
            && r.value.metadata == s[id].metadata["refundInitiated" := "true"]["reason" := reason]
            && r.value.(status := s[id].status, refundedAt := s[id].refundedAt, metadata := s[id].metadata) == s[id])
  {
  }

  lemma DisputeSpelledOut(s: Store, id: string, reason: string, at: string)
    ensures var r := Dispute(s, id, reason, at);
      && (r.Ok? <==> id in s && s[id].status in {PENDING, LOCKED, DISPUTED})
      && (r.Ok? ==>
            && r.value.status == DISPUTED
            && r.value.metadata == s[id].metadata["disputeReason" := reason]["disputedAt" := at]
            && r.value.(status := s[id].status, metadata := s[id].metadata) == s[id])
  {
  }

  /** A refused call writes nothing, a successful one its document and no other. */
  lemma WrittenSpelledOut(s: Store, id: string, r: Result<Escrow, string>)
    ensures r.Err? ==> Written(s, id, r) == s
    ensures r.Ok? ==> Written(s, id, r).Keys == s.Keys + {id} && Written(s, id, r)[id] == r.value
    ensures forall other :: other in s && other != id ==> other in Written(s, id, r) && Written(s, id, r)[other] == s[other]
  {
  }

  // ----- the service over the document collection

  class EscrowService {
    var escrows: Store

    constructor ()
      ensures escrows == map[]
    {
      escrows := map[];
    }

    /** `id` is the fresh random identifier. */
    method CreateEscrow(id: string, t: Terms, now: int) returns (e: Escrow)
      requires id !in escrows
      modifies this
      ensures e == Created(id, t, now) && escrows == old(escrows)[id := e]
    {
      e := Escrow(id, t.tenantId, t.buyerId, t.sellerId, t.amount, t.currency, PENDING, t.providerType, None, "", now, None,
                  None, None, t.metadata);
      escrows := escrows[id := e];
    }

    method LockEscrow(id: string, payment: Option<PaymentResult>, integrityHash: string, now: int)
      returns (r: Result<Escrow, string>)
      modifies this
      ensures r == Lock(old(escrows), id, payment, integrityHash, now) && escrows == Written(old(escrows), id, r)
    {
      if id !in escrows {
        return Err("ESCROW_NOT_FOUND");
      }
      var escrow := escrows[id];
      if escrow.status != PENDING {
        return Err("INVALID_STATE_TRANSITION");
      }
      if payment.None? {
        return Err("PROVIDER_ERROR");
      }
      var updated := escrow.(status := LOCKED, transactionId := payment.value.transactionId,
                             integrityHash := integrityHash, lockedAt := Some(now));
      escrows := escrows[id := updated];
      r := Ok(updated);
    }

    method ReleaseEscrow(id: string, captured: bool, now: int) returns (r: Result<Escrow, string>)
      modifies this
      ensures r == Release(old(escrows), id, captured, now) && escrows == Written(old(escrows), id, r)
    {
      if id !in escrows {
        return Err("ESCROW_NOT_FOUND");
      }
      var escrow := escrows[id];
      if escrow.status != LOCKED {
        return Err("INVALID_STATE_TRANSITION");
      }
      if escrow.transactionId.None? || escrow.transactionId.value == "" {
        return Err("NO_TRANSACTION_TO_RELEASE");
      }
      if !captured {
        return Err("TRANSACTION_NOT_CAPTURED");
      }
      var updated := escrow.(status := RELEASED, releasedAt := Some(now));
      escrows := escrows[id := updated];
      r := Ok(updated);
    }

    method RefundEscrow(id: string, reason: string, refunded: bool, now: int) returns (r: Result<Escrow, string>)
      modifies this
      ensures r == Refund(old(escrows), id, reason, refunded, now) && escrows == Written(old(escrows), id, r)
    {
      if id !in escrows {
        return Err("ESCROW_NOT_FOUND");
      }
      var escrow := escrows[id];
      if escrow.transactionId.None? || escrow.transactionId.value == "" {
        return Err("NO_TRANSACTION_TO_REFUND");
      }
      if escrow.status == REFUNDED {
        return Err("ALREADY_REFUNDED");
      }
      if !refunded {
        return Err("REFUND_INITIATION_FAILED");
      }
      var metadata := escrow.metadata["refundInitiated" := "true"]["reason" := reason];
      var updated := escrow.(status := REFUNDED, refundedAt := Some(now), metadata := metadata);
      escrows := escrows[id := updated];
      r := Ok(updated);
    }

    method DisputeEscrow(id: string, reason: string, at: string) returns (r: Result<Escrow, string>)
      modifies this
      ensures r == Dispute(old(escrows), id, reason, at) && escrows == Written(old(escrows), id, r)
    {
      if id !in escrows {
        return Err("ESCROW_NOT_FOUND");
      }
      var escrow := escrows[id];
      if escrow.status == RELEASED || escrow.status == REFUNDED {
        return Err("CANNOT_DISPUTE");
      }
      var metadata := escrow.metadata["disputeReason" := reason]["disputedAt" := at];
      var updated := escrow.(status := DISPUTED, metadata := metadata);
      escrows := escrows[id := updated];
      r := Ok(updated);
    }
  }

  // ----- runs

  datatype Op =
    | CreateOp(id: string, terms: Terms, now: int)
    | LockOp(id: string, payment: Option<PaymentResult>, integrityHash: string, now: int)
    | ReleaseOp(id: string, captured: bool, now: int)
    | RefundOp(id: string, reason: string, refunded: bool, now: int)
    | DisputeOp(id: string, reason: string, at: string)

  // Identifiers are fresh: a creation under a used one does not occur, and is skipped.
  function Outcome(s: Store, op: Op): Result<Escrow, string> {
    match op
    case CreateOp(id, terms, now) => if id in s then Err("ID_IN_USE") else Ok(Created(id, terms, now))
    case LockOp(id, payment, hash, now) => Lock(s, id, payment, hash, now)
    case ReleaseOp(id, captured, now) => Release(s, id, captured, now)
    case RefundOp(id, reason, refunded, now) => Refund(s, id, reason, refunded, now)
    case DisputeOp(id, reason, at) => Dispute(s, id, reason, at)
  }

  function Apply(s: Store, op: Op): Store {
    Written(s, op.id, Outcome(s, op))
  }

  function After(s: Store, ops: seq<Op>): Store
    decreases |ops|
  {
    if ops == [] then s else After(Apply(s, ops[0]), ops[1..])
  }

  datatype Kind = Locks | Releases | Refunds

  predicate IsA(op: Op, kind: Kind) {
    match kind
    case Locks => op.LockOp?
    case Releases => op.ReleaseOp?
    case Refunds => op.RefundOp?
  }

  /** How many calls of a kind succeed for one escrow. */
  function Successes(s: Store, ops: seq<Op>, id: string, kind: Kind): nat
    decreases |ops|
  {
    if ops == [] then 0
    else (if ops[0].id == id && IsA(ops[0], kind) && Outcome(s, ops[0]).Ok? then 1 else 0)
         + Successes(Apply(s, ops[0]), ops[1..], id, kind)
  }

  /** How many are left at most. */
  function Left(s: Store, id: string, kind: Kind): nat {
    if id !in s then 1
    else match kind
         case Locks => if s[id].status == PENDING then 1 else 0
         case Releases => if s[id].status == PENDING || s[id].status == LOCKED then 1 else 0
         case Refunds => if s[id].status == REFUNDED then 0 else 1
  }

  lemma {:induction false} SuccessesAreLimited(s: Store, ops: seq<Op>, id: string, kind: Kind)
    ensures Successes(s, ops, id, kind) <= Left(s, id, kind)
    decreases |ops|
  {
    if ops != [] {
      SuccessesAreLimited(Apply(s, ops[0]), ops[1..], id, kind);
    }
  }

  function Rank(status: Status): nat {
    match status
    case PENDING => 0
    case LOCKED => 1
    case DISPUTED => 2
    case RELEASED => 2
    case REFUNDED => 3
  }

  /** A successful call raises the rank of its escrow, unless it repeats a dispute; it touches no other. */
  lemma SuccessRaisesRank(s: Store, op: Op)
    requires op.id in s && Outcome(s, op).Ok?
    ensures Rank(s[op.id].status) < Rank(Apply(s, op)[op.id].status) || (op.DisputeOp? && s[op.id].status == DISPUTED)
    ensures forall id :: id != op.id ==> (id in Apply(s, op) <==> id in s) && (id in s ==> Apply(s, op)[id] == s[id])
  {
  }

  /** A pending escrow has no transaction, a released or refunded one has a usable one. */
  ghost predicate Sound(s: Store) {
    forall id :: id in s ==>
      && (s[id].status == PENDING ==> s[id].transactionId.None?)
      && (s[id].status == RELEASED || s[id].status == REFUNDED ==> HasTransaction(s[id]))
  }

  lemma {:induction false} RunsStaySound(s: Store, ops: seq<Op>)
    requires Sound(s)
    ensures Sound(After(s, ops))
    decreases |ops|
  {
    if ops != [] {
      RunsStaySound(Apply(s, ops[0]), ops[1..]);
    }
  }

  lemma {:induction false} TransactionMeansLocked(s: Store, ops: seq<Op>, id: string)
    requires id in s ==> s[id].transactionId.None?
    ensures id in After(s, ops) && After(s, ops)[id].transactionId.Some? ==> Successes(s, ops, id, Locks) >= 1
    decreases |ops|
  {
    if ops != [] {
      var s' := Apply(s, ops[0]);
      if id !in s' || s'[id].transactionId.None? {
        TransactionMeansLocked(s', ops[1..], id);
      }
    }
  }

  /**
   Any run from an empty collection: at most one lock, one release and one refund succeed for an escrow, and an
   escrow found released or refunded was locked exactly once.
   */
  lemma {:induction false} EachStepHappensOnce(ops: seq<Op>, id: string)
    ensures Successes(map[], ops, id, Locks) <= 1
    ensures Successes(map[], ops, id, Releases) <= 1
    ensures Successes(map[], ops, id, Refunds) <= 1
    ensures var s := After(map[], ops);
      id in s ==>
        && (s[id].status == PENDING ==> s[id].transactionId.None?)
        && (s[id].status == RELEASED || s[id].status == REFUNDED || s[id].transactionId.Some? ==>
              Successes(map[], ops, id, Locks) == 1)
  {
    SuccessesAreLimited(map[], ops, id, Locks);
    SuccessesAreLimited(map[], ops, id, Releases);
    SuccessesAreLimited(map[], ops, id, Refunds);
    RunsStaySound(map[], ops);
    TransactionMeansLocked(map[], ops, id);
  }

  /** Once an escrow has left PENDING with a transaction, its transaction and integrity hash never change. */
  lemma {:induction false} LockedTermsAreFixed(s: Store, ops: seq<Op>, id: string)
    requires id in s && s[id].status != PENDING
    ensures var s' := After(s, ops);
      && id in s' && s'[id].status != PENDING
      && s'[id].transactionId == s[id].transactionId && s'[id].integrityHash == s[id].integrityHash
    decreases |ops|
  {
    if ops != [] {
      LockedTermsAreFixed(Apply(s, ops[0]), ops[1..], id);
    }
  }

  /** REFUNDED is terminal: the document never changes again. */
  lemma {:induction false} RefundedIsFinal(s: Store, ops: seq<Op>, id: string)
    requires id in s && s[id].status == REFUNDED
    ensures id in After(s, ops) && After(s, ops)[id] == s[id]
    decreases |ops|
  {
    if ops != [] {
      RefundedIsFinal(Apply(s, ops[0]), ops[1..], id);
    }
  }

  /** Release and refund do not exclude each other: after any run from a release a first refund goes through. */
  lemma {:induction false} ReleasedCanBeRefunded(s: Store, ops: seq<Op>, id: string, reason: string, refunded: bool, now: int)
    requires Sound(s) && id in s && s[id].status == RELEASED && Successes(s, ops, id, Refunds) == 0
    ensures id in After(s, ops) && After(s, ops)[id].status == RELEASED
    ensures Refund(After(s, ops), id, reason, refunded, now).Ok? <==> refunded
    decreases |ops|
  {
    if ops != [] {
      RunsStaySound(s, ops[..1]);
      assert ops[..1][1..] == [] && After(s, ops[..1]) == After(Apply(s, ops[0]), []);
      ReleasedCanBeRefunded(Apply(s, ops[0]), ops[1..], id, reason, refunded, now);
    }
  }

  // ----- which escrows can still pay out

  /** The escrow can still be released or refunded by some run. */
  ghost predicate CanPayOut(s: Store, id: string) {
    exists ops :: Successes(s, ops, id, Releases) + Successes(s, ops, id, Refunds) > 0
  }

  /** No way out: without a usable transaction outside PENDING, or already refunded. */
  predicate Stuck(s: Store, id: string) {
    id in s && s[id].status != PENDING && (!HasTransaction(s[id]) || s[id].status == REFUNDED)
  }

  /** From a stuck escrow no run locks, releases or refunds anything, and it stays stuck. */
  lemma {:induction false} StuckStaysStuck(s: Store, ops: seq<Op>, id: string)
    requires Stuck(s, id)
    ensures Stuck(After(s, ops), id)
    ensures forall kind :: Successes(s, ops, id, kind) == 0
    decreases |ops|
  {
    if ops != [] {
      StuckStaysStuck(Apply(s, ops[0]), ops[1..], id);
    }
  }

  /** In particular an escrow disputed before it was locked stays disputed. */
  lemma {:induction false} DisputedBeforeLockIsStuck(s: Store, ops: seq<Op>, id: string)
    requires id in s && s[id].status == DISPUTED && !HasTransaction(s[id])
    ensures id in After(s, ops) && After(s, ops)[id].status == DISPUTED && !HasTransaction(After(s, ops)[id])
    ensures forall kind :: Successes(s, ops, id, kind) == 0
    decreases |ops|
  {
    if ops != [] {
      DisputedBeforeLockIsStuck(Apply(s, ops[0]), ops[1..], id);
    }
  }

  lemma {:induction false} FirstSuccessCounts(s: Store, op: Op, rest: seq<Op>, kind: Kind)
    requires IsA(op, kind) && Outcome(s, op).Ok?
    ensures Successes(s, [op] + rest, op.id, kind) > 0
  {
  }

  lemma {:induction false} LaterSuccessCounts(s: Store, op: Op, rest: seq<Op>, id: string, kind: Kind)
    requires Successes(Apply(s, op), rest, id, kind) > 0
    ensures Successes(s, [op] + rest, id, kind) > 0
  {
    assert ([op] + rest)[1..] == rest;
  }

  /**
   Exactly when some later run releases or refunds an escrow: it is pending, or it has a usable transaction and is
   not refunded yet.
   */
  lemma CanPayOutExactly(s: Store, id: string)
    requires id in s
    ensures CanPayOut(s, id) <==> s[id].status == PENDING || (HasTransaction(s[id]) && s[id].status != REFUNDED)
  {
    var refund := RefundOp(id, "reason", true, 0);
    if Stuck(s, id) {
      forall ops
        ensures Successes(s, ops, id, Releases) + Successes(s, ops, id, Refunds) == 0
      {
        StuckStaysStuck(s, ops, id);
      }
    } else if s[id].status == PENDING {
      var lock := LockOp(id, Some(PaymentResult(SUCCESS, Some("tx"))), "hash", 0);
      FirstSuccessCounts(Apply(s, lock), refund, [], Refunds);
      LaterSuccessCounts(s, lock, [refund] + [], id, Refunds);
    } else {
      FirstSuccessCounts(s, refund, [], Refunds);
    }
  }

  /** Two ways to get stuck from PENDING: a dispute, and a lock whose payment came without a usable transaction id. */
  lemma DisputeOrEmptyPaymentSticks(s: Store, id: string, payment: PaymentResult, hash: string, reason: string,
                                    at: string, now: int)
    requires id in s && s[id].status == PENDING && s[id].transactionId.None?
    ensures Stuck(Apply(s, DisputeOp(id, reason, at)), id)
    ensures Stuck(Apply(s, LockOp(id, Some(payment), hash, now)), id)
            <==> payment.transactionId.None? || payment.transactionId.value == ""
  {
  }
}
