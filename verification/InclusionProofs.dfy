/**
 Inclusion proofs with direction markers: the accumulator that hands them out for a transaction and
 the stateless verifier that checks them.
 */
module InclusionProofs {
  import opened Wrappers
  import opened Hashing
  import opened Json
  import opened MerkleTrees
  import opened LedgerMerkle
  import B = MerkleBinding

  datatype ProofMatrix = ProofMatrix(siblings: seq<string>, leftRight: seq<char>, leafIndex: int, leafCount: int)

  datatype Receipt = Receipt(verified: bool, computedRootHash: string)

  predicate IsMarker(c: char) {
    c == 'L' || c == 'R'
  }

  predicate AllMarkers(s: seq<char>) {
    forall i :: 0 <= i < |s| ==> IsMarker(s[i])
  }

  function FoldMarked(h: Hash, hash: string, siblings: seq<string>, markers: seq<char>): string
    requires |siblings| == |markers|
    decreases |siblings|
  {
    if siblings == [] then hash
    else FoldMarked(h, Combine(h, hash, siblings[0], markers[0] == 'R'), siblings[1..], markers[1..])
  }

  predicate WellShaped(leafHash: string, root: string, proof: Option<ProofMatrix>) {
    && IsHexDigest(leafHash) && IsHexDigest(root)
    && proof.Some? && |proof.value.siblings| == |proof.value.leftRight|
    && AllDigests(proof.value.siblings) && AllMarkers(proof.value.leftRight)
  }

  predicate Accepts(h: Hash, leafHash: string, root: string, proof: Option<ProofMatrix>) {
    WellShaped(leafHash, root, proof) && FoldMarked(h, leafHash, proof.value.siblings, proof.value.leftRight) == root
  }

  /** `ZkInclusionVerifier.verify`. */
  method Verify(h: Hash, leafHash: string, root: string, proof: Option<ProofMatrix>) returns (r: Receipt)
    ensures r.verified <==> Accepts(h, leafHash, root, proof)
    ensures r.computedRootHash == if WellShaped(leafHash, root, proof)
            then FoldMarked(h, leafHash, proof.value.siblings, proof.value.leftRight) else root
    ensures r.verified <==>
      && IsHexDigest(leafHash) && IsHexDigest(root)
      && proof.Some? && |proof.value.siblings| == |proof.value.leftRight|
      && (forall i :: 0 <= i < |proof.value.siblings| ==>
            IsHexDigest(proof.value.siblings[i]) && proof.value.leftRight[i] in "LR")
      && FoldMarked(h, leafHash, proof.value.siblings, proof.value.leftRight) == root
    ensures r.verified ==> r.computedRootHash == root
  {
    var failClosed := Receipt(false, root);
    if !IsHexDigest(leafHash) || !IsHexDigest(root) {
      return failClosed;
    }
    if proof.None? || |proof.value.siblings| != |proof.value.leftRight| {
      return failClosed;
    }
    var siblings, markers := proof.value.siblings, proof.value.leftRight;
    var hash := leafHash;
    for level := 0 to |siblings|
      invariant forall i :: 0 <= i < level ==> IsHexDigest(siblings[i]) && IsMarker(markers[i])
      invariant FoldMarked(h, hash, siblings[level..], markers[level..]) == FoldMarked(h, leafHash, siblings, markers)
    {
      var sibling, marker := siblings[level], markers[level];
      if !IsHexDigest(sibling) {
        return failClosed;
      }
      if marker != 'L' && marker != 'R' {
        return failClosed;
      }
      if marker == 'R' {
        hash := h(NodeText(sibling, hash));
      } else {
        hash := h(NodeText(hash, sibling));
      }
      assert siblings[level..][1..] == siblings[level + 1..] && markers[level..][1..] == markers[level + 1..];
    }
    r := Receipt(hash == root, hash);
  }

  // ----- markers and indices

  function Markers(idx: int, n: nat): (m: seq<char>)
    ensures |m| == n && AllMarkers(m)
    decreases n
  {
    if n == 0 then [] else [if IsRight(idx) then 'R' else 'L'] + Markers(idx / 2, n - 1)
  }

  /** The place in the bottom row that a sequence of markers leads to. */
  function PlaceOf(markers: seq<char>): nat {
    if markers == [] then 0 else (if markers[0] == 'R' then 1 else 0) + 2 * PlaceOf(markers[1..])
  }

  /** The two verifiers compute the same hash: from an index with its markers. */
  lemma {:induction false} MarkersFoldLikeIndex(h: Hash, hash: string, siblings: seq<string>, idx: int)
    ensures FoldMarked(h, hash, siblings, Markers(idx, |siblings|)) == Fold(h, hash, siblings, idx)
    decreases |siblings|
  {
    if siblings != [] {
      MarkersFoldLikeIndex(h, Combine(h, hash, siblings[0], IsRight(idx)), siblings[1..], idx / 2);
    }
  }

  /** And from markers with the place they lead to. */
  lemma {:induction false} PlaceFoldsLikeMarkers(h: Hash, hash: string, siblings: seq<string>, markers: seq<char>)
    requires |siblings| == |markers|
    ensures FoldMarked(h, hash, siblings, markers) == Fold(h, hash, siblings, PlaceOf(markers))
    decreases |siblings|
  {
    if siblings != [] {
      assert PlaceOf(markers) / 2 == PlaceOf(markers[1..]);
      PlaceFoldsLikeMarkers(h, Combine(h, hash, siblings[0], markers[0] == 'R'), siblings[1..], markers[1..]);
    }
  }

  /** One step of the marker-driven fold: `R` makes the hash the right child, `L` the left one. */
  lemma {:induction false} MarkedStepSpelledOut(h: Hash, hash: string, sibling: string, rest: seq<string>, markers: seq<char>)
    requires |rest| == |markers|
    ensures FoldMarked(h, hash, [], []) == hash
    ensures FoldMarked(h, hash, [sibling] + rest, ['R'] + markers)
         == FoldMarked(h, h("MERKLE_NODE|" + sibling + "|" + hash), rest, markers)
    ensures FoldMarked(h, hash, [sibling] + rest, ['L'] + markers)
         == FoldMarked(h, h("MERKLE_NODE|" + hash + "|" + sibling), rest, markers)
  {
    NodeTextSpelledOut(sibling, hash);
    NodeTextSpelledOut(hash, sibling);
    assert ([sibling] + rest)[1..] == rest && (['R'] + markers)[1..] == markers && (['L'] + markers)[1..] == markers;
  }

  /** The markers of a proof, from its leaf index and its length. */
  method DeriveMarkers(leafIndex: int, n: nat) returns (leftRight: seq<char>)
    ensures leftRight == Markers(leafIndex, n)
  {
    leftRight := [];
    var idx := leafIndex;
    for level := 0 to n
      invariant leftRight + Markers(idx, n - level) == Markers(leafIndex, n)
    {
      leftRight := leftRight + [if IsRight(idx) then 'R' else 'L'];
      idx := idx / 2;
    }
  }

  // ----- the accumulator

  datatype InclusionProof = InclusionProof(merkleRootHash: string, leafHash: string, proof: ProofMatrix)

  function FingerprintText(root: string, leafCount: nat): string {
    Stringify(Obj([Field("root", Str(root)), Field("leafCount", Num(leafCount))]))
  }

  lemma FingerprintTextIsInjective(r: string, m: nat, s: string, n: nat)
    ensures FingerprintText(r, m) == FingerprintText(s, n) ==> r == s && m == n
  {
    var v, w := Obj([Field("root", Str(r)), Field("leafCount", Num(m))]), Obj([Field("root", Str(s)), Field("leafCount", Num(n))]);
    if FingerprintText(r, m) == FingerprintText(s, n) {
      StringifyIsInjective(v, w);
      assert v.fields[0] == w.fields[0] && v.fields[1] == w.fields[1];
    }
  }

  /** `records` stands for what `DatabaseService.getAllRecords` reads at the time of the call. */
  class EnclaveMerkleAccumulator {
    const h: Hash
    var cachedRoot: Option<string>
    var cachedLeafCount: Option<nat>
    var cachedAt: Option<string>
    var cachedProofsByTxId: Option<map<string, LeafProof>>

    ghost predicate Valid()
      reads this
    {
      cachedAt.Some? ==>
        cachedRoot.Some? && cachedLeafCount.Some?
        && cachedAt.value == h(FingerprintText(cachedRoot.value, cachedLeafCount.value))
    }

    // The fingerprint texts compared by the next call.
    ghost function Compared(records: seq<EscrowRecord>): set<string>
      reads this
    {
      {FingerprintText(LedgerRoot(h, records), |records|)}
      + if cachedRoot.Some? && cachedLeafCount.Some? then {FingerprintText(cachedRoot.value, cachedLeafCount.value)} else {}
    }

    constructor (h: Hash)
      ensures Valid() && this.h == h
    {
      this.h := h;
      cachedRoot, cachedLeafCount, cachedAt, cachedProofsByTxId := None, None, None, None;
    }

    /** The cache never shows: the answer is the root of the ledger as it stands. */
    method GetRootHash(records: seq<EscrowRecord>) returns (root: string)
      requires Valid() && CollisionFree(h, Compared(records))
      modifies this
      ensures Valid() && root == LedgerRoot(h, records)
    {
      var tree, built, proofs := BuildMerkleForLedger(h, records);
      var leafCount := tree.GetLeafCount();
      var fingerprint := h(FingerprintText(built, leafCount));
      if cachedRoot.Some? && cachedRoot.value != "" && cachedLeafCount.Some? && cachedAt == Some(fingerprint) {
        FingerprintTextIsInjective(cachedRoot.value, cachedLeafCount.value, built, leafCount);
        return cachedRoot.value;
      }
      cachedRoot, cachedLeafCount, cachedAt := Some(built), Some(leafCount), Some(fingerprint);
      cachedProofsByTxId := Some(proofs);
      root := built;
    }

    method GetInclusionProof(records: seq<EscrowRecord>, transactionId: string)
      returns (r: Result<InclusionProof, string>)
      ensures r.Ok? <==> transactionId != "" && LastIndex(records, transactionId) >= 0
      ensures r.Ok? ==> r.value == InclusionProofOf(h, records, LastIndex(records, transactionId))
      ensures r.Ok? ==>
        var i := LastIndex(records, transactionId);
        && r.value.merkleRootHash == LedgerRoot(h, records) && r.value.leafHash == EscrowRecordLeafHash(h, records[i])
        && r.value.proof.leafIndex == i && r.value.proof.leafCount == |records|
    {
      if transactionId == "" {
        return Err("transactionId must be a non-empty string");
      }
      var tree, root, proofs := BuildMerkleForLedger(h, records);
      assert Filed(h, records, |records|, transactionId, proofs) && records[..|records|] == records;
      if transactionId !in proofs {
        return Err("TRANSACTION_NOT_FOUND");
      }
      var hit := proofs[transactionId];
      var leftRight := DeriveMarkers(hit.proof.leafIndex, |hit.proof.siblings|);
      r := Ok(InclusionProof(root, hit.leafHash,
                             ProofMatrix(hit.proof.siblings, leftRight, hit.proof.leafIndex, hit.proof.leafCount)));
    }
  }

  function InclusionProofOf(h: Hash, records: seq<EscrowRecord>, i: nat): InclusionProof
    requires i < |records|
  {
    var leaves := Leaves(h, records);
    var siblings := Siblings(h, leaves, i);
    InclusionProof(LedgerRoot(h, records), leaves[i], ProofMatrix(siblings, Markers(i, |siblings|), i, |records|))
  }

  lemma {:induction false} SiblingsAreDigests(h: Hash, level: seq<string>, idx: nat)
    requires YieldsDigests(h) && AllDigests(level) && idx < |level|
    ensures AllDigests(Siblings(h, level, idx))
    decreases |level|
  {
    if |level| > 1 {
      B.NextLevelIsDigests(h, level);
      SiblingsAreDigests(h, NextLevel(h, level), idx / 2);
    }
  }

  /** Completeness: what the accumulator hands out is accepted, for every ledger and every record. */
  lemma HandedOutProofsAreAccepted(h: Hash, records: seq<EscrowRecord>, i: nat)
    requires YieldsDigests(h) && i < |records|
    ensures var p := InclusionProofOf(h, records, i);
      Accepts(h, EscrowRecordLeafHash(h, records[i]), p.merkleRootHash, Some(p.proof))
  {
    var leaves := Leaves(h, records);
    SiblingsAreDigests(h, leaves, i);
    B.RootIsDigest(h, leaves);
    MarkersFoldLikeIndex(h, leaves[i], Siblings(h, leaves, i), i);
    ProofsFoldToRoot(h, leaves, i);
  }

  /** `texts` contains every text hashed when `proof` for `record` is checked against the root of `records`. */
  ghost predicate CoversCheck(h: Hash, records: seq<EscrowRecord>, record: EscrowRecord, proof: ProofMatrix,
                              texts: set<string>) {
    && Covers(h, records, texts) && LeafText(record) in texts
    && B.FoldTexts(h, EscrowRecordLeafHash(h, record), proof.siblings, PlaceOf(proof.leftRight)) <= texts
  }

  lemma EqualLeafMeansSameHashed(h: Hash, records: seq<EscrowRecord>, i: nat, record: EscrowRecord, texts: set<string>)
    requires i < |records| && Leaves(h, records)[i] == EscrowRecordLeafHash(h, record)
    requires CollisionFree(h, texts) && Covers(h, records, texts) && LeafText(record) in texts
    ensures SameHashed(records[i], record)
  {
    LeafTextIsListed(records, records[i]);
    LeafTextIsCanonical(records[i], record);
  }

  /**
   Soundness: an accepted proof for a record, of any length, means that the ledger holds a record that
   agrees with it on every hashed field.
   */
  lemma AcceptedRecordIsInLedger(h: Hash, records: seq<EscrowRecord>, record: EscrowRecord, proof: ProofMatrix,
                                 texts: set<string>)
    requires YieldsDigests(h) && CollisionFree(h, texts) && CoversCheck(h, records, record, proof, texts)
    requires Accepts(h, EscrowRecordLeafHash(h, record), LedgerRoot(h, records), Some(proof))
    ensures exists r :: r in records && SameHashed(r, record)
  {
    var leaf := EscrowRecordLeafHash(h, record);
    LeavesAreLeafHashes(h, records, texts);
    LeafTextIsLeaf(record);
    assert B.IsLeafHash(h, leaf, texts) by {
      assert LeafText(record) in texts;
    }
    PlaceFoldsLikeMarkers(h, leaf, proof.siblings, proof.leftRight);
    B.FoldingLeafIsLeaf(h, Leaves(h, records), leaf, proof.siblings, PlaceOf(proof.leftRight), texts);
    var i :| 0 <= i < |records| && Leaves(h, records)[i] == leaf;
    EqualLeafMeansSameHashed(h, records, i, record, texts);
    assert records[i] in records;
  }

  /** If there is a leaf at `place`, then `siblings` is its handed-out path. */
  ghost predicate IsPathOf(h: Hash, leaves: seq<string>, place: nat, siblings: seq<string>) {
    place < |leaves| ==> siblings == ProofOf(h, leaves, place).siblings
  }

  /** A proof as long as the tree is high is the handed-out proof of the record at the place it names. */
  lemma {:induction false} AcceptedAtFullLengthIsHandedOut(h: Hash, records: seq<EscrowRecord>, record: EscrowRecord,
                                        proof: ProofMatrix, place: nat, texts: set<string>)
    requires YieldsDigests(h) && CollisionFree(h, texts) && CoversCheck(h, records, record, proof, texts)
    requires Accepts(h, EscrowRecordLeafHash(h, record), LedgerRoot(h, records), Some(proof))
    requires records != [] && |proof.siblings| == Height(|records|) && place == PlaceOf(proof.leftRight)
    ensures SameHashed(records[B.Padded(|records|, place)], record)
    ensures IsPathOf(h, Leaves(h, records), place, proof.siblings)
  {
    FullLengthFold(h, records, EscrowRecordLeafHash(h, record), proof, texts);
    EqualLeafMeansSameHashed(h, records, B.Padded(|records|, place), record, texts);
  }

  lemma {:induction false} FullLengthFold(h: Hash, records: seq<EscrowRecord>, leaf: string, proof: ProofMatrix, texts: set<string>)
    requires records != [] && Accepts(h, leaf, LedgerRoot(h, records), Some(proof))
    requires |proof.siblings| == Height(|records|)
    requires YieldsDigests(h) && CollisionFree(h, texts) && Covers(h, records, texts)
    requires B.FoldTexts(h, leaf, proof.siblings, PlaceOf(proof.leftRight)) <= texts
    ensures leaf == Leaves(h, records)[B.Padded(|records|, PlaceOf(proof.leftRight))]
    ensures IsPathOf(h, Leaves(h, records), PlaceOf(proof.leftRight), proof.siblings)
  {
    LeavesAreLeafHashes(h, records, texts);
    PlaceFoldsLikeMarkers(h, leaf, proof.siblings, proof.leftRight);
    B.FoldingToRootIsTheProof(h, Leaves(h, records), leaf, proof.siblings, PlaceOf(proof.leftRight), texts);
  }
}
