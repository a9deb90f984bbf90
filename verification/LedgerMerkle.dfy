/**
 Ledger records, their leaf hashes, and what the Merkle root of a ledger says about its records. The
 time-lock window of a record is not part of its leaf.
 */
module LedgerMerkle {
  import opened Wrappers
  import opened Hashing
  import opened Json
  import opened MerkleTrees
  import opened Sorting
  import opened Texts
  import B = MerkleBinding

  // A time lock that is not a finite number is `None`.
  datatype EscrowRecord = EscrowRecord(
    transactionId: string,
    escrowRecordLeafHash: string,
    signature: string,
    status: string,
    validAfterMs: Option<int>,
    validUntilMs: Option<int>,
    timestamp: string)

  function LeafJson(r: EscrowRecord): Json {
    Obj([
      Field("domain", Str("ESCROW_LEDGER_LEAF")),
      Field("v", Obj(HashedFields(r)))
    ])
  }

  function HashedFields(r: EscrowRecord): seq<Field> {
    [
      Field("transactionId", Str(r.transactionId)),
      Field("escrowRecordLeafHash", Str(r.escrowRecordLeafHash)),
      Field("signature", Str(r.signature)),
      Field("status", Str(r.status)),
      Field("timestamp", Str(r.timestamp))
    ]
  }

  function LeafText(r: EscrowRecord): string {
    Stable(LeafJson(r))
  }

  function EscrowRecordLeafHash(h: Hash, r: EscrowRecord): string {
    h(LeafText(r))
  }

  /** Agreement on everything but the time-lock window. */
  predicate SameHashed(a: EscrowRecord, b: EscrowRecord) {
    && a.transactionId == b.transactionId
    && a.escrowRecordLeafHash == b.escrowRecordLeafHash
    && a.signature == b.signature
    && a.status == b.status
    && a.timestamp == b.timestamp
  }

  lemma HashedKeysAreDistinct(r: EscrowRecord)
    ensures var fs := HashedFields(r);
      forall i, j :: 0 <= i < j < |fs| ==> fs[i].key != fs[j].key
  {
    var fs := HashedFields(r);
    assert |fs[0].key| == 13 && |fs[1].key| == 20 && |fs[3].key| == 6;
    assert |fs[2].key| == |fs[4].key| == 9 && fs[2].key[0] == 's' && fs[4].key[0] == 't';
  }

  lemma LeafJsonIsWellFormed(r: EscrowRecord)
    ensures WellFormed(Obj(HashedFields(r))) && WellFormed(LeafJson(r))
  {
    HashedKeysAreDistinct(r);
    assert WellFormed(Obj(HashedFields(r)));
    var outer := LeafJson(r).fields;
    assert |outer[0].key| == 6 && |outer[1].key| == 1;
    assert WellFormed(outer[0].value) && WellFormed(outer[1].value);
  }

  lemma SameHashedFields(a: EscrowRecord, b: EscrowRecord)
    requires Same(true, Obj(HashedFields(a)), Obj(HashedFields(b)))
    ensures SameHashed(a, b)
  {
    var v, w := Obj(HashedFields(a)), Obj(HashedFields(b));
    HashedKeysAreDistinct(a);
    HashedKeysAreDistinct(b);
    forall i | 0 <= i < 5
      ensures v.fields[i].value == w.fields[i].value
    {
      assert MemberOf(true, v, i, w);
      var j :| 0 <= j < 5 && v.fields[i].key == w.fields[j].key
        && Same(true, v.fields[i].value, w.fields[j].value);
      assert v.fields[j].key == w.fields[j].key;
    }
    assert v.fields[0].value == w.fields[0].value && v.fields[1].value == w.fields[1].value;
    assert v.fields[2].value == w.fields[2].value && v.fields[3].value == w.fields[3].value;
    assert v.fields[4].value == w.fields[4].value;
  }

  /** Two records have one leaf text exactly when they agree on every hashed field. */
  lemma LeafTextIsCanonical(a: EscrowRecord, b: EscrowRecord)
    ensures LeafText(a) == LeafText(b) <==> SameHashed(a, b)
  {
    var v, w := LeafJson(a), LeafJson(b);
    LeafJsonIsWellFormed(a);
    LeafJsonIsWellFormed(b);
    StableIsCanonical(v, w);
    if LeafText(a) == LeafText(b) {
      assert MemberOf(true, v, 1, w);
      assert v.fields[1].key[0] == 'v' && w.fields[0].key[0] == 'd';
      SameHashedFields(a, b);
    }
  }

  lemma LeafTextIsLeaf(r: EscrowRecord)
    ensures B.IsLeafText(LeafText(r))
  {
    PrintLeads(true, LeafJson(r));
  }

  // ----- the leaf text, spelled out

  /** The hashed members in the order in which they are printed. */
  function SortedFields(r: EscrowRecord): seq<Field> {
    [
      Field("escrowRecordLeafHash", Str(r.escrowRecordLeafHash)),
      Field("signature", Str(r.signature)),
      Field("status", Str(r.status)),
      Field("timestamp", Str(r.timestamp)),
      Field("transactionId", Str(r.transactionId))
    ]
  }

  lemma SortedKeysAscend()
    ensures Before("escrowRecordLeafHash", "signature") && Before("signature", "status")
    ensures Before("status", "timestamp") && Before("timestamp", "transactionId")
    ensures Before("domain", "v")
  {
    assert "signature"[1..][0] == 'i' && "status"[1..][0] == 't';
    assert "timestamp"[1..][0] == 'i' && "transactionId"[1..][0] == 'r';
  }

  lemma {:induction false} FirstComesLast(a: Field, b: Field, c: Field, d: Field, e: Field)
    ensures multiset([b, c, d, e, a]) == multiset([a, b, c, d, e])
  {
    assert [b, c, d, e, a] == [b, c, d, e] + [a] && [a, b, c, d, e] == [a] + [b, c, d, e];
  }

  lemma {:induction false} SortedFieldsAscend(gs: seq<Field>)
    requires |gs| == 5 && gs[0].key == "escrowRecordLeafHash" && gs[1].key == "signature" && gs[2].key == "status"
    requires gs[3].key == "timestamp" && gs[4].key == "transactionId"
    ensures forall k :: 0 < k < |gs| ==> Before(gs[k - 1].key, gs[k].key)
  {
    SortedKeysAscend();
  }

  lemma {:induction false} SortedFieldsInOrder(r: EscrowRecord)
    ensures InKeyOrder(SortedFields(r), HashedFields(r)) && InKeyOrder(SortedFields(r), SortedFields(r))
  {
    var gs, fs := SortedFields(r), HashedFields(r);
    SortedFieldsAscend(gs);
    FirstComesLast(fs[0], fs[1], fs[2], fs[3], fs[4]);
    NeighboursSuffice(gs, fs);
    NeighboursSuffice(gs, gs);
  }

  lemma PlainKeys()
    ensures Labels("\"escrowRecordLeafHash\":", "escrowRecordLeafHash") && Labels("\"signature\":", "signature")
  {
  }

  lemma MorePlainKeys()
    ensures Labels("\"status\":", "status") && Labels("\"timestamp\":", "timestamp")
    ensures Labels("\"transactionId\":", "transactionId")
  {
  }

  lemma WrapperKeys()
    ensures Labels("\"domain\":", "domain") && Labels("\"v\":", "v")
  {
  }

  lemma DomainText()
    ensures Stable(Str("ESCROW_LEDGER_LEAF")) == "\"ESCROW_LEDGER_LEAF\""
  {
    PlainStr("ESCROW_LEDGER_LEAF", "\"ESCROW_LEDGER_LEAF\"");
  }

  // The text of five members of an object, given the texts of their values.
  lemma {:induction false} FiveMembers(gs: seq<Field>, l0: string, l1: string, l2: string, l3: string, l4: string,
                                       q0: string, q1: string, q2: string, q3: string, q4: string)
    requires |gs| == 5 && InKeyOrder(gs, gs)
    requires Labels(l0, gs[0].key) && Labels(l1, gs[1].key) && Labels(l2, gs[2].key)
    requires Labels(l3, gs[3].key) && Labels(l4, gs[4].key)
    requires Stable(gs[0].value) == q0 && Stable(gs[1].value) == q1 && Stable(gs[2].value) == q2
    requires Stable(gs[3].value) == q3 && Stable(gs[4].value) == q4
    ensures Stable(Obj(gs))
            == "{" + (l0 + q0 + "," + (l1 + q1 + "," + (l2 + q2 + "," + (l3 + q3 + "," + (l4 + q4 + "}")))))
  {
    var t4 := l4 + q4 + "}";
    var t3 := l3 + q3 + "," + t4;
    var t2 := l2 + q2 + "," + t3;
    var t1 := l1 + q1 + "," + t2;
    LastMember(gs, l4);
    MemberBefore(gs, 3, l3, t4);
    MemberBefore(gs, 2, l2, t3);
    MemberBefore(gs, 1, l1, t2);
    MemberBefore(gs, 0, l0, t1);
    assert gs[0..] == gs;
  }

  lemma {:induction false} OnceSorted(r: EscrowRecord, gs: seq<Field>)
    requires gs == SortedFields(r)
    ensures |gs| == 5 && InKeyOrder(gs, gs) && Stable(Obj(HashedFields(r))) == Stable(Obj(gs))
  {
    SortedFieldsInOrder(r);
    SameOnceSorted(HashedFields(r), gs);
  }

  lemma {:induction false} LeadsOf(r: EscrowRecord, gs: seq<Field>)
    requires gs == SortedFields(r)
    ensures Labels("\"escrowRecordLeafHash\":", gs[0].key) && Labels("\"signature\":", gs[1].key)
    ensures Labels("\"status\":", gs[2].key) && Labels("\"timestamp\":", gs[3].key)
    ensures Labels("\"transactionId\":", gs[4].key)
  {
    PlainKeys();
    MorePlainKeys();
  }

  lemma {:induction false} ValuesOf(r: EscrowRecord, gs: seq<Field>)
    requires gs == SortedFields(r)
    ensures Stable(gs[0].value) == Quote(r.escrowRecordLeafHash) && Stable(gs[1].value) == Quote(r.signature)
    ensures Stable(gs[2].value) == Quote(r.status) && Stable(gs[3].value) == Quote(r.timestamp)
    ensures Stable(gs[4].value) == Quote(r.transactionId)
  {
  }

  lemma {:induction false} HashedTextSpelledOut(r: EscrowRecord)
    ensures Stable(Obj(HashedFields(r))) ==
      "{" + ("\"escrowRecordLeafHash\":" + Quote(r.escrowRecordLeafHash) + ","
             + ("\"signature\":" + Quote(r.signature) + ","
                + ("\"status\":" + Quote(r.status) + ","
                   + ("\"timestamp\":" + Quote(r.timestamp) + ","
                      + ("\"transactionId\":" + Quote(r.transactionId) + "}")))))
  {
    var gs := SortedFields(r);
    OnceSorted(r, gs);
    LeadsOf(r, gs);
    ValuesOf(r, gs);
    FiveMembers(gs, "\"escrowRecordLeafHash\":", "\"signature\":", "\"status\":", "\"timestamp\":", "\"transactionId\":",
                Quote(r.escrowRecordLeafHash), Quote(r.signature), Quote(r.status), Quote(r.timestamp),
                Quote(r.transactionId));
  }

  /** The leaf text of a record: domain first, then its five members in ascending order of their keys. */
  lemma {:induction false} LeafTextSpelledOut(r: EscrowRecord, inner: string)
    requires inner ==
      "{" + ("\"escrowRecordLeafHash\":" + Quote(r.escrowRecordLeafHash) + ","
             + ("\"signature\":" + Quote(r.signature) + ","
                + ("\"status\":" + Quote(r.status) + ","
                   + ("\"timestamp\":" + Quote(r.timestamp) + ","
                      + ("\"transactionId\":" + Quote(r.transactionId) + "}")))))
    ensures LeafText(r) == "{" + ("\"domain\":" + "\"ESCROW_LEDGER_LEAF\"" + "," + ("\"v\":" + inner + "}"))
  {
    HashedTextSpelledOut(r);
    WrappedText(r, inner);
  }

  lemma {:induction false} WrapperInOrder(fs: seq<Field>)
    requires |fs| == 2 && fs[0].key == "domain" && fs[1].key == "v"
    ensures InKeyOrder(fs, fs)
  {
    SortedKeysAscend();
    NeighboursSuffice(fs, fs);
  }

  lemma {:induction false} WrappedText(r: EscrowRecord, inner: string)
    requires Stable(Obj(HashedFields(r))) == inner
    ensures LeafText(r) == "{" + ("\"domain\":" + "\"ESCROW_LEDGER_LEAF\"" + "," + ("\"v\":" + inner + "}"))
  {
    var fs := LeafJson(r).fields;
    WrapperInOrder(fs);
    WrapperKeys();
    DomainText();
    TwoMembers(fs, "\"domain\":", "\"v\":", "\"ESCROW_LEDGER_LEAF\"", inner);
  }

  // ----- ledgers

  function Leaves(h: Hash, records: seq<EscrowRecord>): (leaves: seq<string>)
    ensures |leaves| == |records|
    ensures forall i :: 0 <= i < |leaves| ==> leaves[i] == EscrowRecordLeafHash(h, records[i])
  {
    seq(|records|, i requires 0 <= i < |records| => EscrowRecordLeafHash(h, records[i]))
  }

  function LedgerRoot(h: Hash, records: seq<EscrowRecord>): string {
    Root(h, Leaves(h, records))
  }

  function LeafTexts(records: seq<EscrowRecord>): set<string> {
    if records == [] then {} else {LeafText(records[0])} + LeafTexts(records[1..])
  }

  /** `texts` contains every text hashed to obtain the root of a ledger. */
  ghost predicate Covers(h: Hash, records: seq<EscrowRecord>, texts: set<string>) {
    LeafTexts(records) <= texts && B.TreeTexts(h, Leaves(h, records)) <= texts
  }

  lemma {:induction false} LeafTextIsListed(records: seq<EscrowRecord>, r: EscrowRecord)
    requires r in records
    ensures LeafText(r) in LeafTexts(records)
  {
    if r != records[0] {
      assert r in records[1..];
      LeafTextIsListed(records[1..], r);
    }
  }

  /** The premises under which the roots of ledgers are compared: no collision among the texts hashed for them. */
  ghost predicate HashesWell(h: Hash, a: seq<EscrowRecord>, b: seq<EscrowRecord>, texts: set<string>) {
    YieldsDigests(h) && CollisionFree(h, texts) && Covers(h, a, texts) && Covers(h, b, texts)
  }

  /** The ledgers agree record by record, up to time locks. */
  predicate Agree(a: seq<EscrowRecord>, b: seq<EscrowRecord>) {
    |a| == |b| && forall i :: 0 <= i < |a| ==> SameHashed(a[i], b[i])
  }

  ghost predicate UniqueIds(records: seq<EscrowRecord>) {
    forall i, j :: 0 <= i < j < |records| ==> records[i].transactionId != records[j].transactionId
  }

  /** No two records agree on every hashed field; two versions of one transaction may well be there. */
  ghost predicate AllDifferent(records: seq<EscrowRecord>) {
    forall i, j :: 0 <= i < j < |records| ==> !SameHashed(records[i], records[j])
  }

  lemma UniqueIdsDiffer(records: seq<EscrowRecord>)
    requires UniqueIds(records)
    ensures AllDifferent(records)
  {
  }

  lemma LeavesAreLeafHashes(h: Hash, records: seq<EscrowRecord>, texts: set<string>)
    requires Covers(h, records, texts)
    ensures B.LeafHashes(h, Leaves(h, records), texts)
    ensures YieldsDigests(h) ==> AllDigests(Leaves(h, records))
  {
    var leaves := Leaves(h, records);
    forall i | 0 <= i < |leaves|
      ensures B.IsLeafHash(h, leaves[i], texts)
    {
      LeafTextIsLeaf(records[i]);
      LeafTextIsListed(records, records[i]);
    }
  }

  lemma SameLeavesMeansAgree(h: Hash, a: seq<EscrowRecord>, b: seq<EscrowRecord>, texts: set<string>)
    requires CollisionFree(h, texts) && Covers(h, a, texts) && Covers(h, b, texts)
    ensures Leaves(h, a) == Leaves(h, b) <==> Agree(a, b)
  {
    if Leaves(h, a) == Leaves(h, b) {
      forall i | 0 <= i < |a|
        ensures SameHashed(a[i], b[i])
      {
        LeafTextIsListed(a, a[i]);
        LeafTextIsListed(b, b[i]);
        assert Leaves(h, a)[i] == Leaves(h, b)[i];
        LeafTextIsCanonical(a[i], b[i]);
      }
    }
    if Agree(a, b) {
      forall i | 0 <= i < |a|
        ensures Leaves(h, a)[i] == Leaves(h, b)[i]
      {
        LeafTextIsCanonical(a[i], b[i]);
      }
    }
  }

  /** Tamper evidence: root and record count together pin down every hashed field of every record. */
  lemma RootAndCountDetermineLedger(h: Hash, a: seq<EscrowRecord>, b: seq<EscrowRecord>, texts: set<string>)
    requires HashesWell(h, a, b, texts)
    ensures (|a| == |b| && LedgerRoot(h, a) == LedgerRoot(h, b)) <==> Agree(a, b)
  {
    LeavesAreLeafHashes(h, a, texts);
    LeavesAreLeafHashes(h, b, texts);
    SameLeavesMeansAgree(h, a, b, texts);
    if |a| == |b| && LedgerRoot(h, a) == LedgerRoot(h, b) {
      B.RootAndCountDetermineLeaves(h, Leaves(h, a), Leaves(h, b), texts);
    }
  }

  lemma DifferentMeansDistinctLeaves(h: Hash, records: seq<EscrowRecord>, texts: set<string>)
    requires AllDifferent(records) && CollisionFree(h, texts) && Covers(h, records, texts)
    ensures B.Distinct(Leaves(h, records))
  {
    forall i, j | 0 <= i < j < |records|
      ensures Leaves(h, records)[i] != Leaves(h, records)[j]
    {
      LeafTextIsListed(records, records[i]);
      LeafTextIsListed(records, records[j]);
      LeafTextIsCanonical(records[i], records[j]);
    }
  }

  /** Between ledgers without repeated records the root alone decides, whatever their lengths. */
  lemma RootDeterminesLedger(h: Hash, a: seq<EscrowRecord>, b: seq<EscrowRecord>, texts: set<string>)
    requires HashesWell(h, a, b, texts) && AllDifferent(a) && AllDifferent(b)
    ensures LedgerRoot(h, a) == LedgerRoot(h, b) <==> Agree(a, b)
  {
    LeavesAreLeafHashes(h, a, texts);
    LeavesAreLeafHashes(h, b, texts);
    DifferentMeansDistinctLeaves(h, a, texts);
    DifferentMeansDistinctLeaves(h, b, texts);
    SameLeavesMeansAgree(h, a, b, texts);
    B.RootDeterminesDistinctLeaves(h, Leaves(h, a), Leaves(h, b), texts);
  }

  /** No two prefixes of such a ledger share a root, the empty prefix included. */
  lemma PrefixRootsDiffer(h: Hash, records: seq<EscrowRecord>, i: nat, j: nat, texts: set<string>)
    requires i <= |records| && j <= |records| && AllDifferent(records)
    requires HashesWell(h, records[..i], records[..j], texts)
    ensures LedgerRoot(h, records[..i]) == LedgerRoot(h, records[..j]) <==> i == j
  {
    RootDeterminesLedger(h, records[..i], records[..j], texts);
  }

  /**
   The ledgers fill the bottom row of their trees alike: both are empty, or once the missing places are filled up
   with the records that stand in for them, they agree.
   */
  predicate SameRow(a: seq<EscrowRecord>, b: seq<EscrowRecord>) {
    if a == [] || b == [] then a == b else Agree(B.Expand(a), B.Expand(b))
  }

  lemma LeavesOfExpand(h: Hash, records: seq<EscrowRecord>)
    requires records != []
    ensures B.Expand(Leaves(h, records)) == Leaves(h, B.Expand(records))
  {
  }

  lemma {:induction false} ExpandIsCovered(records: seq<EscrowRecord>, i: nat, texts: set<string>)
    requires records != [] && i < |B.Expand(records)| && LeafTexts(records) <= texts
    ensures LeafText(B.Expand(records)[i]) in texts
  {
    LeafTextIsListed(records, B.Expand(records)[i]);
  }

  lemma {:induction false} RowsAgreeAt(h: Hash, a: seq<EscrowRecord>, b: seq<EscrowRecord>, i: nat, texts: set<string>)
    requires a != [] && b != [] && i < |B.Expand(a)| && i < |B.Expand(b)|
    requires CollisionFree(h, texts) && LeafTexts(a) <= texts && LeafTexts(b) <= texts
    ensures SameHashed(B.Expand(a)[i], B.Expand(b)[i])
            <==> Leaves(h, B.Expand(a))[i] == Leaves(h, B.Expand(b))[i]
  {
    ExpandIsCovered(a, i, texts);
    ExpandIsCovered(b, i, texts);
    LeafTextIsCanonical(B.Expand(a)[i], B.Expand(b)[i]);
  }

  lemma {:induction false} RowsAgree(h: Hash, a: seq<EscrowRecord>, b: seq<EscrowRecord>, texts: set<string>)
    requires a != [] && b != [] && CollisionFree(h, texts) && LeafTexts(a) <= texts && LeafTexts(b) <= texts
    ensures Leaves(h, B.Expand(a)) == Leaves(h, B.Expand(b)) <==> Agree(B.Expand(a), B.Expand(b))
  {
    if |B.Expand(a)| == |B.Expand(b)| {
      forall i | 0 <= i < |B.Expand(a)|
        ensures SameHashed(B.Expand(a)[i], B.Expand(b)[i])
                <==> Leaves(h, B.Expand(a))[i] == Leaves(h, B.Expand(b))[i]
      {
        RowsAgreeAt(h, a, b, i, texts);
      }
    }
  }

  /** Exactly which ledgers share a root, repeated records or not. */
  lemma {:induction false} SharedLedgerRootExactly(h: Hash, a: seq<EscrowRecord>, b: seq<EscrowRecord>, texts: set<string>)
    requires HashesWell(h, a, b, texts)
    ensures LedgerRoot(h, a) == LedgerRoot(h, b) <==> SameRow(a, b)
  {
    LeavesAreLeafHashes(h, a, texts);
    LeavesAreLeafHashes(h, b, texts);
    if a == [] && b != [] {
      B.EmptyRootIsUnique(h, Leaves(h, b), texts);
    } else if b == [] && a != [] {
      B.EmptyRootIsUnique(h, Leaves(h, a), texts);
    } else if a != [] {
      B.SharedRootMeansSameBottomRow(h, Leaves(h, a), Leaves(h, b), texts);
      LeavesOfExpand(h, a);
      LeavesOfExpand(h, b);
      RowsAgree(h, a, b, texts);
    }
  }

  /** Only by repeating a record does a longer ledger fill the row like a shorter one. */
  lemma {:induction false} LookalikeRepeats(a: seq<EscrowRecord>, b: seq<EscrowRecord>)
    requires |a| < |b| && SameRow(a, b)
    ensures !AllDifferent(b)
  {
    var n, p := |a|, B.Padded(|a|, |a|);
    var ea, eb := B.Expand(a), B.Expand(b);
    B.CountFitsBottomRow(|b|);
    assert ea[n] == a[p] == ea[p] && eb[n] == b[n] && eb[p] == b[p];
    assert SameHashed(ea[n], eb[n]) && SameHashed(ea[p], eb[p]);
  }

  // ----- the index of proofs

  function LastIndex(records: seq<EscrowRecord>, id: string): (i: int)
    ensures -1 <= i < |records|
    ensures i >= 0 ==> records[i].transactionId == id
    ensures forall k :: i < k < |records| ==> records[k].transactionId != id
  {
    if records == [] then -1
    else if records[|records| - 1].transactionId == id then |records| - 1
    else LastIndex(records[..|records| - 1], id)
  }

  datatype LeafProof = LeafProof(leafHash: string, proof: MerkleProof)

  /** The proof filed under an id is that of the last of the first `n` records with it. */
  ghost predicate Filed(h: Hash, records: seq<EscrowRecord>, n: nat, id: string, proofs: map<string, LeafProof>)
    requires n <= |records|
  {
    var i := LastIndex(records[..n], id);
    if i < 0 then id !in proofs
    else id in proofs && proofs[id] == LeafProof(Leaves(h, records)[i], ProofOf(h, Leaves(h, records), i))
  }

  ghost predicate AllFiled(h: Hash, records: seq<EscrowRecord>, n: nat, proofs: map<string, LeafProof>)
    requires n <= |records|
  {
    forall id :: Filed(h, records, n, id, proofs)
  }

  lemma {:induction false} LastIndexStep(records: seq<EscrowRecord>, n: nat, id: string)
    requires n < |records|
    ensures LastIndex(records[..n + 1], id)
         == if records[n].transactionId == id then n else LastIndex(records[..n], id)
  {
    assert records[..n + 1][..n] == records[..n];
  }

  lemma FileNext(h: Hash, records: seq<EscrowRecord>, n: nat, proofs: map<string, LeafProof>,
                 more: map<string, LeafProof>)
    requires n < |records| && AllFiled(h, records, n, proofs)
    requires more == proofs[records[n].transactionId := LeafProof(Leaves(h, records)[n], ProofOf(h, Leaves(h, records), n))]
    ensures AllFiled(h, records, n + 1, more)
  {
    var m := n + 1;
    forall id
      ensures Filed(h, records, m, id, more)
    {
      LastIndexStep(records, n, id);
      assert Filed(h, records, n, id, proofs);
    }
  }

  /** `buildMerkleForLedger`. */
  method BuildMerkleForLedger(h: Hash, records: seq<EscrowRecord>)
    returns (tree: MerkleTree, root: string, proofs: map<string, LeafProof>)
    ensures tree.Valid() && tree.h == h && tree.leaves == Leaves(h, records) && root == LedgerRoot(h, records)
    ensures AllFiled(h, records, |records|, proofs)
  {
    var leaves := Leaves(h, records);
    tree := new MerkleTree(h, leaves);
    root := tree.GetRoot();
    proofs := map[];
    for i := 0 to |records|
      invariant AllFiled(h, records, i, proofs)
    {
      var r := tree.GetProof(i);
      var more := proofs[records[i].transactionId := LeafProof(leaves[i], r.value)];
      FileNext(h, records, i, proofs, more);
      proofs := more;
    }
  }

  /** The two results most callers want. */
  method RootAndCount(h: Hash, records: seq<EscrowRecord>) returns (root: string, leafCount: nat)
    ensures root == LedgerRoot(h, records) && leafCount == |records|
  {
    var tree, r, _ := BuildMerkleForLedger(h, records);
    root := r;
    leafCount := tree.GetLeafCount();
  }
}
