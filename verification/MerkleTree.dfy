/**
 The binary Merkle tree of the ledger: levels are halved by hashing neighbours, and a last node
 without a neighbour is paired with itself.
 */
module MerkleTrees {
  import opened Wrappers
  import opened Hashing
  import opened Texts

  const NODE_TAG := "MERKLE_NODE|"

  function NodeText(left: string, right: string): string {
    NODE_TAG + (left + ("|" + right))
  }

  // The right child of the i-th node above `level`: the last node may stand in for itself.
  function RightChild(level: seq<string>, i: nat): string
    requires 2 * i < |level|
  {
    if 2 * i + 1 < |level| then level[2 * i + 1] else level[2 * i]
  }

  // The text hashed into the i-th node above `level`.
  function ParentText(level: seq<string>, i: nat): string
    requires 2 * i < |level|
  {
    NodeText(level[2 * i], RightChild(level, i))
  }

  function NextLevel(h: Hash, level: seq<string>): (next: seq<string>)
    ensures |next| == (|level| + 1) / 2
  {
    seq((|level| + 1) / 2, i requires 0 <= i < (|level| + 1) / 2 => h(ParentText(level, i)))
  }

  function Layers(h: Hash, level: seq<string>): (layers: seq<seq<string>>)
    ensures |layers| > 0 && layers[0] == level
    decreases |level|
  {
    if |level| <= 1 then [level] else [level] + Layers(h, NextLevel(h, level))
  }

  function Root(h: Hash, leaves: seq<string>): string
    decreases |leaves|
  {
    if |leaves| == 0 then h("")
    else if |leaves| == 1 then leaves[0]
    else Root(h, NextLevel(h, leaves))
  }

  predicate IsRight(idx: int) {
    idx >= 0 && idx % 2 == 1
  }

  function SiblingOf(level: seq<string>, idx: nat): string
    requires idx < |level|
  {
    if idx % 2 == 1 then level[idx - 1] else if idx + 1 < |level| then level[idx + 1] else level[idx]
  }

  function Siblings(h: Hash, level: seq<string>, idx: nat): seq<string>
    requires idx < |level|
    decreases |level|
  {
    if |level| == 1 then [] else [SiblingOf(level, idx)] + Siblings(h, NextLevel(h, level), idx / 2)
  }

  function CombineText(hash: string, sibling: string, right: bool): string {
    if right then NodeText(sibling, hash) else NodeText(hash, sibling)
  }

  function Combine(h: Hash, hash: string, sibling: string, right: bool): string {
    h(CombineText(hash, sibling, right))
  }

  function Fold(h: Hash, hash: string, siblings: seq<string>, idx: int): string
    decreases |siblings|
  {
    if siblings == [] then hash
    else Fold(h, Combine(h, hash, siblings[0], IsRight(idx)), siblings[1..], idx / 2)
  }

  datatype MerkleProof = MerkleProof(siblings: seq<string>, leafIndex: int, leafCount: nat)

  function ProofOf(h: Hash, leaves: seq<string>, i: nat): MerkleProof
    requires i < |leaves|
  {
    MerkleProof(Siblings(h, leaves, i), i, |leaves|)
  }

  class MerkleTree {
    const h: Hash
    const leaves: seq<string>
    const layers: seq<seq<string>>

    ghost predicate Valid() {
      layers == if leaves == [] then [[h("")]] else Layers(h, leaves)
    }

    constructor (h: Hash, leaves: seq<string>)
      ensures Valid() && this.h == h && this.leaves == leaves
    {
      this.h := h;
      this.leaves := leaves;
      if |leaves| == 0 {
        this.layers := [[h("")]];
      } else {
        var built := [leaves];
        while |built[|built| - 1]| > 1
          invariant |built| > 0 && |built[|built| - 1]| > 0
          invariant built[..|built| - 1] + Layers(h, built[|built| - 1]) == Layers(h, leaves)
          decreases |built[|built| - 1]|
        {
          var prev := built[|built| - 1];
          var next: seq<string> := [];
          var i := 0;
          while i < |prev|
            invariant 0 <= i <= |prev| + 1 && i % 2 == 0
            invariant next == NextLevel(h, prev)[..i / 2]
          {
            var left := prev[i];
            var right := if i + 1 < |prev| then prev[i + 1] else prev[i];
            NodeAbove(h, prev, i / 2);
            next := next + [h(NodeText(left, right))];
            i := i + 2;
          }
          assert next == NextLevel(h, prev);
          BuildStep(h, built, next, leaves);
          built := built + [next];
        }
        this.layers := built;
      }
    }

    method GetLeafCount() returns (n: nat)
      ensures n == |leaves|
    {
      n := |leaves|;
    }

    method GetRoot() returns (root: string)
      requires Valid()
      ensures root == Root(h, leaves)
      ensures |leaves| == 0 ==> root == h("")
      ensures |leaves| == 1 ==> root == leaves[0]
      ensures |leaves| == 2 ==> root == h("MERKLE_NODE|" + leaves[0] + "|" + leaves[1])
    {
      LastLayerIsRoot(h, leaves);
      if |leaves| == 2 {
        RootOfTwo(h, leaves[0], leaves[1]);
        assert leaves == [leaves[0], leaves[1]];
      }
      root := layers[|layers| - 1][0];
    }

    method GetProof(leafIndex: int) returns (r: Result<MerkleProof, string>)
      requires Valid()
      ensures r.Ok? <==> 0 <= leafIndex < |leaves|
      ensures r.Ok? ==> r.value == ProofOf(h, leaves, leafIndex)
    {
      if leafIndex < 0 || leafIndex >= |leaves| {
        return Err("Invalid leafIndex for Merkle proof");
      }
      var siblings: seq<string> := [];
      var idx: nat := leafIndex;
      var level := 0;
      ClimbStarts(h, leaves, leafIndex);
      while level < |layers| - 1
        invariant Climbing(h, layers, level, idx, siblings, Siblings(h, leaves, leafIndex))
      {
        var layer := layers[level];
        var siblingIdx := if idx % 2 == 1 then idx - 1 else idx + 1;
        var sibling := if 0 <= siblingIdx < |layer| then layer[siblingIdx] else layer[idx];
        assert sibling == SiblingOf(layer, idx);
        ClimbStep(h, layers, level, idx, siblings, Siblings(h, leaves, leafIndex));
        siblings := siblings + [sibling];
        idx := idx / 2;
        level := level + 1;
      }
      ClimbEnds(h, layers, level, idx, siblings, Siblings(h, leaves, leafIndex));
      r := Ok(MerkleProof(siblings, leafIndex, |leaves|));
    }

    static method VerifyProof(h: Hash, leafHash: string, proof: MerkleProof) returns (hash: string)
      ensures hash == Fold(h, leafHash, proof.siblings, proof.leafIndex)
    {
      hash := leafHash;
      var idx := proof.leafIndex;
      for k := 0 to |proof.siblings|
        invariant Fold(h, hash, proof.siblings[k..], idx) == Fold(h, leafHash, proof.siblings, proof.leafIndex)
      {
        var sibling := proof.siblings[k];
        if IsRight(idx) {
          hash := h(NodeText(sibling, hash));
        } else {
          hash := h(NodeText(hash, sibling));
        }
        assert proof.siblings[k..][1..] == proof.siblings[k + 1..];
        idx := idx / 2;
      }
    }
  }

  lemma NodeAbove(h: Hash, level: seq<string>, i: nat)
    requires 2 * i < |level|
    ensures h(NodeText(level[2 * i], RightChild(level, i))) == NextLevel(h, level)[i]
    ensures NextLevel(h, level)[..i + 1] == NextLevel(h, level)[..i] + [NextLevel(h, level)[i]]
  {
    assert ParentText(level, i) == NodeText(level[2 * i], RightChild(level, i));
  }

  lemma LayerAbove(h: Hash, layers: seq<seq<string>>, level: nat)
    requires level + 1 < |layers| && layers[level..] == Layers(h, layers[level])
    ensures |layers[level]| > 1 && layers[level + 1] == NextLevel(h, layers[level])
    ensures layers[level + 1..] == Layers(h, layers[level + 1])
  {
    var layer := layers[level];
    assert |layers[level..]| > 1;
    assert layers[level + 1..] == layers[level..][1..] == Layers(h, NextLevel(h, layer));
    assert layers[level + 1] == layers[level + 1..][0];
  }

  lemma {:induction false} BuildStep(h: Hash, built: seq<seq<string>>, next: seq<string>, leaves: seq<string>)
    requires built != [] && |built[|built| - 1]| > 1 && next == NextLevel(h, built[|built| - 1])
    requires built[..|built| - 1] + Layers(h, built[|built| - 1]) == Layers(h, leaves)
    ensures (built + [next])[..|built|] + Layers(h, next) == Layers(h, leaves)
  {
    assert (built + [next])[..|built|] == built[..|built| - 1] + [built[|built| - 1]];
  }

  /** The siblings found so far and those still to be found are the proof. */
  ghost predicate Climbing(h: Hash, layers: seq<seq<string>>, level: nat, idx: nat,
                           siblings: seq<string>, proof: seq<string>) {
    && level < |layers| && idx < |layers[level]|
    && layers[level..] == Layers(h, layers[level])
    && siblings + Siblings(h, layers[level], idx) == proof
  }

  lemma {:induction false} ClimbStarts(h: Hash, leaves: seq<string>, idx: nat)
    requires idx < |leaves|
    ensures Climbing(h, Layers(h, leaves), 0, idx, [], Siblings(h, leaves, idx))
  {
    assert Layers(h, leaves)[0..] == Layers(h, leaves) && Layers(h, leaves)[0] == leaves;
    assert [] + Siblings(h, leaves, idx) == Siblings(h, leaves, idx);
  }

  lemma {:induction false} ClimbStep(h: Hash, layers: seq<seq<string>>, level: nat, idx: nat,
                                     siblings: seq<string>, proof: seq<string>)
    requires Climbing(h, layers, level, idx, siblings, proof) && level + 1 < |layers|
    ensures Climbing(h, layers, level + 1, idx / 2, siblings + [SiblingOf(layers[level], idx)], proof)
  {
    LayerAbove(h, layers, level);
    SiblingsFrom(h, layers[level], layers[level + 1], idx);
    var rest := Siblings(h, layers[level + 1], idx / 2);
    assert siblings + ([SiblingOf(layers[level], idx)] + rest) == siblings + [SiblingOf(layers[level], idx)] + rest;
  }

  lemma {:induction false} ClimbEnds(h: Hash, layers: seq<seq<string>>, level: nat, idx: nat,
                                     siblings: seq<string>, proof: seq<string>)
    requires Climbing(h, layers, level, idx, siblings, proof) && level + 1 == |layers|
    ensures siblings == proof
  {
    assert |layers[level..]| == 1;
    assert siblings + [] == siblings;
  }

  lemma {:induction false} SiblingsFrom(h: Hash, level: seq<string>, next: seq<string>, idx: nat)
    requires idx < |level| && |level| > 1 && next == NextLevel(h, level)
    ensures idx / 2 < |next|
    ensures Siblings(h, level, idx) == [SiblingOf(level, idx)] + Siblings(h, next, idx / 2)
  {
  }

  lemma {:induction false} LastLayerIsRoot(h: Hash, leaves: seq<string>)
    ensures leaves != [] ==>
      var layers := Layers(h, leaves);
      |layers[|layers| - 1]| == 1 && layers[|layers| - 1][0] == Root(h, leaves)
    decreases |leaves|
  {
    if |leaves| > 1 {
      LastLayerIsRoot(h, NextLevel(h, leaves));
    }
  }

  // ----- spelled out

  lemma NodeTextSpelledOut(left: string, right: string)
    ensures NodeText(left, right) == "MERKLE_NODE|" + left + "|" + right
  {
    Assoc("MERKLE_NODE|", left, "|" + right);
    Assoc("MERKLE_NODE|" + left, "|", right);
  }

  /** The i-th node above a level hashes its left child, then its right one; the last node stands in for a missing one. */
  lemma NodesAboveSpelledOut(h: Hash, level: seq<string>, i: nat)
    requires |level| > 1 && 2 * i < |level|
    ensures |NextLevel(h, level)| == (|level| + 1) / 2 && i < |NextLevel(h, level)|
    ensures NextLevel(h, level)[i] == h("MERKLE_NODE|" + level[2 * i] + "|"
                                        + level[if 2 * i + 1 < |level| then 2 * i + 1 else |level| - 1])
  {
    var j := if 2 * i + 1 < |level| then 2 * i + 1 else |level| - 1;
    assert RightChild(level, i) == level[j];
    NodeTextSpelledOut(level[2 * i], level[j]);
    assert NextLevel(h, level)[i] == h(ParentText(level, i));
  }

  /** The root, from one level to the next up to a single node. */
  lemma {:induction false} RootSpelledOut(h: Hash, leaves: seq<string>, next: seq<string>)
    requires |next| == (|leaves| + 1) / 2
    requires forall i :: 0 <= i < |next| && 2 * i < |leaves| ==>
      next[i] == h("MERKLE_NODE|" + leaves[2 * i] + "|" + leaves[if 2 * i + 1 < |leaves| then 2 * i + 1 else |leaves| - 1])
    ensures |leaves| == 0 ==> Root(h, leaves) == h("")
    ensures |leaves| == 1 ==> Root(h, leaves) == leaves[0]
    ensures |leaves| > 1 ==> Root(h, leaves) == Root(h, next)
  {
    if |leaves| > 1 {
      forall i | 0 <= i < |next|
        ensures next[i] == NextLevel(h, leaves)[i]
      {
        NodesAboveSpelledOut(h, leaves, i);
      }
      assert next == NextLevel(h, leaves);
    }
  }

  lemma RootOfTwo(h: Hash, a: string, b: string)
    ensures Root(h, [a, b]) == h("MERKLE_NODE|" + a + "|" + b)
  {
    NodesAboveSpelledOut(h, [a, b], 0);
    assert NextLevel(h, [a, b]) == [h("MERKLE_NODE|" + a + "|" + b)];
  }

  /** One step of a fold: at an odd index the hash is the right child, otherwise the left one. */
  lemma {:induction false} FoldStepSpelledOut(h: Hash, hash: string, sibling: string, rest: seq<string>, idx: int)
    ensures Fold(h, hash, [], idx) == hash
    ensures idx >= 0 && idx % 2 == 1 ==>
      Fold(h, hash, [sibling] + rest, idx) == Fold(h, h("MERKLE_NODE|" + sibling + "|" + hash), rest, idx / 2)
    ensures !(idx >= 0 && idx % 2 == 1) ==>
      Fold(h, hash, [sibling] + rest, idx) == Fold(h, h("MERKLE_NODE|" + hash + "|" + sibling), rest, idx / 2)
  {
    NodeTextSpelledOut(sibling, hash);
    NodeTextSpelledOut(hash, sibling);
    assert ([sibling] + rest)[1..] == rest;
  }

  // ----- completeness

  function Height(n: nat): nat {
    if n <= 1 then 0 else 1 + Height((n + 1) / 2)
  }

  function Pow2(k: nat): nat {
    if k == 0 then 1 else 2 * Pow2(k - 1)
  }

  lemma SiblingMakesParent(h: Hash, level: seq<string>, i: nat)
    requires i < |level|
    ensures Combine(h, level[i], SiblingOf(level, i), IsRight(i)) == NextLevel(h, level)[i / 2]
  {
    var j := i / 2;
    assert NextLevel(h, level)[j] == h(ParentText(level, j));
    if i % 2 == 1 {
      assert i == 2 * j + 1;
      assert CombineText(level[i], level[i - 1], true) == ParentText(level, j);
    } else {
      assert i == 2 * j;
      assert CombineText(level[i], RightChild(level, j), false) == ParentText(level, j);
    }
  }

  /** Every proof a tree hands out folds back to its root. */
  lemma {:induction false} ProofsFoldToRoot(h: Hash, leaves: seq<string>, i: nat)
    requires i < |leaves|
    ensures Fold(h, leaves[i], ProofOf(h, leaves, i).siblings, i) == Root(h, leaves)
    decreases |leaves|
  {
    if |leaves| > 1 {
      var next, siblings := NextLevel(h, leaves), Siblings(h, leaves, i);
      assert siblings[1..] == Siblings(h, next, i / 2);
      SiblingMakesParent(h, leaves, i);
      ProofsFoldToRoot(h, next, i / 2);
    }
  }

  /** All proofs of a tree have one length, the least h with n <= 2^h. */
  lemma {:induction false} ProofLength(h: Hash, leaves: seq<string>, i: nat)
    requires i < |leaves|
    ensures |Siblings(h, leaves, i)| == Height(|leaves|)
    ensures |leaves| <= Pow2(Height(|leaves|))
    ensures |leaves| == 1 || Pow2(Height(|leaves|) - 1) < |leaves|
    decreases |leaves|
  {
    if |leaves| > 1 {
      ProofLength(h, NextLevel(h, leaves), i / 2);
    }
  }
}
