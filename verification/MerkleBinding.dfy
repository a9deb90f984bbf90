/**
 What a Merkle root commits to: which leaf lists share a root, which hashes an inclusion proof can
 vouch for, and at which place.
 */
module MerkleBinding {
  import opened Hashing
  import opened MerkleTrees
  import opened Texts

  // ----- the texts a tree hashes

  function LevelTexts(level: seq<string>): set<string> {
    set i | 0 <= i < |level| && 2 * i < |level| :: ParentText(level, i)
  }

  function TreeTexts(h: Hash, leaves: seq<string>): set<string>
    decreases |leaves|
  {
    if |leaves| == 0 then {""}
    else if |leaves| == 1 then {}
    else LevelTexts(leaves) + TreeTexts(h, NextLevel(h, leaves))
  }

  /** A node text determines its children once one of them has a known length. */
  lemma NodeTextIsInjective(a: string, b: string, c: string, d: string)
    requires (|a| == |c| || |b| == |d|) && NodeText(a, b) == NodeText(c, d)
    ensures a == c && b == d
  {
    Split(NODE_TAG, a + ("|" + b), NODE_TAG, c + ("|" + d));
    assert |a + ("|" + b)| == |a| + 1 + |b| && |c + ("|" + d)| == |c| + 1 + |d|;
    Split(a, "|" + b, c, "|" + d);
    Split("|", b, "|", d);
  }

  lemma NextLevelIsDigests(h: Hash, level: seq<string>)
    requires YieldsDigests(h)
    ensures AllDigests(NextLevel(h, level))
  {
    var next := NextLevel(h, level);
    forall i | 0 <= i < |next|
      ensures IsHexDigest(next[i])
    {
      assert next[i] == h(ParentText(level, i));
    }
  }

  lemma {:induction false} RootIsDigest(h: Hash, leaves: seq<string>)
    requires YieldsDigests(h) && AllDigests(leaves)
    ensures IsHexDigest(Root(h, leaves))
    decreases |leaves|
  {
    if |leaves| > 1 {
      NextLevelIsDigests(h, leaves);
      RootIsDigest(h, NextLevel(h, leaves));
    }
  }

  /** Equal parents have equal children. */
  lemma ParentsDetermineChildren(h: Hash, a: seq<string>, b: seq<string>, i: nat, texts: set<string>)
    requires AllDigests(a) && AllDigests(b) && CollisionFree(h, texts)
    requires LevelTexts(a) <= texts && LevelTexts(b) <= texts
    requires 2 * i < |a| && 2 * i < |b| && NextLevel(h, a)[i] == NextLevel(h, b)[i]
    ensures a[2 * i] == b[2 * i]
    ensures RightChild(a, i) == RightChild(b, i)
  {
    assert ParentText(a, i) in LevelTexts(a) && ParentText(b, i) in LevelTexts(b);
    assert h(ParentText(a, i)) == NextLevel(h, a)[i] == NextLevel(h, b)[i] == h(ParentText(b, i));
    NodeTextIsInjective(a[2 * i], RightChild(a, i), b[2 * i], RightChild(b, i));
  }

  // ----- binding

  /** The root and the number of leaves determine every leaf. */
  lemma {:induction false} RootAndCountDetermineLeaves(h: Hash, a: seq<string>, b: seq<string>, texts: set<string>)
    requires YieldsDigests(h) && CollisionFree(h, texts)
    requires TreeTexts(h, a) <= texts && TreeTexts(h, b) <= texts
    requires AllDigests(a) && AllDigests(b) && |a| == |b|
    requires Root(h, a) == Root(h, b)
    ensures a == b
    decreases |a|
  {
    if |a| > 1 {
      var na, nb := NextLevel(h, a), NextLevel(h, b);
      NextLevelIsDigests(h, a);
      NextLevelIsDigests(h, b);
      RootAndCountDetermineLeaves(h, na, nb, texts);
      ParentsDetermineLevel(h, a, b, texts);
    }
  }

  lemma ParentsDetermineLevel(h: Hash, a: seq<string>, b: seq<string>, texts: set<string>)
    requires AllDigests(a) && AllDigests(b) && CollisionFree(h, texts)
    requires LevelTexts(a) <= texts && LevelTexts(b) <= texts
    requires |a| == |b| && NextLevel(h, a) == NextLevel(h, b)
    ensures a == b
  {
    forall i | 0 <= i < |a|
      ensures a[i] == b[i]
    {
      var j := i / 2;
      assert i == if i % 2 == 1 then 2 * j + 1 else 2 * j;
      ParentsDetermineChildren(h, a, b, j, texts);
    }
  }

  // The leaf that stands at place `i` of the bottom row once every level is made even.
  function Padded(n: nat, i: nat): (p: nat)
    requires n > 0
    ensures p < n
    ensures i < n ==> p == i
  {
    if n == 1 then 0
    else
      var q := Padded((n + 1) / 2, i / 2);
      if i % 2 == 1 && 2 * q + 1 < n then 2 * q + 1 else 2 * q
  }

  /** The full bottom row: 2^height leaves, the missing ones repeated from the left. */
  function Expand<T>(leaves: seq<T>): (r: seq<T>)
    requires leaves != []
    ensures |r| == Pow2(Height(|leaves|))
    ensures forall i :: 0 <= i < |r| ==> r[i] == leaves[Padded(|leaves|, i)]
  {
    seq(Pow2(Height(|leaves|)), i requires 0 <= i < Pow2(Height(|leaves|)) => leaves[Padded(|leaves|, i)])
  }

  lemma ExpandNextLevel(h: Hash, leaves: seq<string>)
    requires |leaves| > 1
    ensures NextLevel(h, Expand(leaves)) == Expand(NextLevel(h, leaves))
    ensures LevelTexts(Expand(leaves)) <= LevelTexts(leaves)
  {
    var full, next := Expand(leaves), NextLevel(h, leaves);
    forall i: nat | i < |Expand(next)|
      ensures ParentText(full, i) == ParentText(leaves, Padded(|next|, i))
      ensures NextLevel(h, full)[i] == Expand(next)[i]
    {
      ExpandPair(leaves, i);
      assert NextLevel(h, full)[i] == h(ParentText(full, i));
      assert Expand(next)[i] == next[Padded(|next|, i)];
    }
    forall t | t in LevelTexts(full)
      ensures t in LevelTexts(leaves)
    {
      var i :| 0 <= i < |full| && 2 * i < |full| && t == ParentText(full, i);
    }
  }

  lemma {:induction false} PaddedPair(n: nat, i: nat)
    requires n > 1
    ensures var q := Padded((n + 1) / 2, i);
      Padded(n, 2 * i) == 2 * q && Padded(n, 2 * i + 1) == if 2 * q + 1 < n then 2 * q + 1 else 2 * q
  {
    assert (2 * i) / 2 == i && (2 * i + 1) / 2 == i;
  }

  lemma {:induction false} PairOfPadded(leaves: seq<string>, full: seq<string>, i: nat)
    requires |leaves| > 1 && 2 * i + 1 < |full|
    requires full[2 * i] == leaves[Padded(|leaves|, 2 * i)]
    requires full[2 * i + 1] == leaves[Padded(|leaves|, 2 * i + 1)]
    ensures var q := Padded((|leaves| + 1) / 2, i);
      full[2 * i] == leaves[2 * q] && RightChild(full, i) == RightChild(leaves, q)
  {
    PaddedPair(|leaves|, i);
  }

  lemma {:induction false} ExpandPair(leaves: seq<string>, i: nat)
    requires |leaves| > 1 && 2 * i < |Expand(leaves)|
    ensures var q := Padded((|leaves| + 1) / 2, i);
      Expand(leaves)[2 * i] == leaves[2 * q] && RightChild(Expand(leaves), i) == RightChild(leaves, q)
  {
    assert |Expand(leaves)| == 2 * Pow2(Height((|leaves| + 1) / 2));
    PairOfPadded(leaves, Expand(leaves), i);
  }

  lemma {:induction false} ExpandKeepsRoot(h: Hash, leaves: seq<string>)
    requires leaves != []
    ensures Root(h, Expand(leaves)) == Root(h, leaves)
    ensures TreeTexts(h, Expand(leaves)) <= TreeTexts(h, leaves)
    decreases |leaves|
  {
    if |leaves| > 1 {
      ExpandNextLevel(h, leaves);
      ExpandKeepsRoot(h, NextLevel(h, leaves));
    }
  }

  /** Every element is the hash of a text of the collection that is no node's text. */
  ghost predicate LeafHashes(h: Hash, leaves: seq<string>, texts: set<string>) {
    forall i :: 0 <= i < |leaves| ==> IsLeafHash(h, leaves[i], texts)
  }

  ghost predicate IsLeafHash(h: Hash, hash: string, texts: set<string>) {
    exists t :: t in texts && IsLeafText(t) && hash == h(t)
  }

  // Leaf texts are printed JSON objects.
  predicate IsLeafText(t: string) {
    t != "" && t[0] == '{'
  }

  lemma LeafIsNoNode(h: Hash, hash: string, texts: set<string>, l: string, r: string)
    requires CollisionFree(h, texts) && IsLeafHash(h, hash, texts) && NodeText(l, r) in texts
    ensures hash != h(NodeText(l, r)) && ("" in texts ==> hash != h(""))
  {
    var t :| t in texts && IsLeafText(t) && hash == h(t);
    assert NodeText(l, r)[0] == 'M';
  }

  lemma NodeIsNoLeaf(h: Hash, leaves: seq<string>, l: string, r: string, texts: set<string>)
    requires CollisionFree(h, texts) && LeafHashes(h, leaves, texts) && NodeText(l, r) in texts
    ensures h(NodeText(l, r)) !in leaves
  {
    forall i | 0 <= i < |leaves|
      ensures leaves[i] != h(NodeText(l, r))
    {
      assert IsLeafHash(h, leaves[i], texts);
      LeafIsNoNode(h, leaves[i], texts, l, r);
    }
  }

  /** The nodes of a tree: its leaves and everything above them. */
  ghost predicate InTree(h: Hash, leaves: seq<string>, hash: string)
    decreases |leaves|
  {
    hash in leaves || (|leaves| > 1 && InTree(h, NextLevel(h, leaves), hash))
  }

  lemma {:induction false} RootInTree(h: Hash, leaves: seq<string>)
    requires leaves != []
    ensures InTree(h, leaves, Root(h, leaves))
    decreases |leaves|
  {
    if |leaves| > 1 {
      RootInTree(h, NextLevel(h, leaves));
    }
  }

  /** A node above the leaves is the hash of two nodes of the tree. */
  lemma {:induction false} InnerNode(h: Hash, leaves: seq<string>, hash: string) returns (l: string, r: string)
    requires |leaves| > 1 && InTree(h, NextLevel(h, leaves), hash)
    ensures hash == h(NodeText(l, r)) && NodeText(l, r) in TreeTexts(h, leaves)
    ensures InTree(h, leaves, l) && InTree(h, leaves, r)
    ensures YieldsDigests(h) && AllDigests(leaves) ==> IsHexDigest(l) && IsHexDigest(r)
    decreases |leaves|
  {
    var next := NextLevel(h, leaves);
    if hash in next {
      var i :| 0 <= i < |next| && next[i] == hash;
      l := leaves[2 * i];
      r := RightChild(leaves, i);
      assert NodeText(l, r) == ParentText(leaves, i) && ParentText(leaves, i) in LevelTexts(leaves);
    } else {
      if YieldsDigests(h) {
        NextLevelIsDigests(h, leaves);
      }
      l, r := InnerNode(h, next, hash);
    }
  }

  // ----- which leaf lists share a root

  /** What two leaf lists must satisfy for their roots to be compared. */
  ghost predicate Comparable(h: Hash, a: seq<string>, b: seq<string>, texts: set<string>) {
    && YieldsDigests(h) && CollisionFree(h, texts)
    && TreeTexts(h, a) <= texts && TreeTexts(h, b) <= texts
    && LeafHashes(h, a, texts) && LeafHashes(h, b, texts)
  }

  lemma LeafHashesAreDigests(h: Hash, leaves: seq<string>, texts: set<string>)
    requires YieldsDigests(h) && LeafHashes(h, leaves, texts)
    ensures AllDigests(leaves)
  {
    forall i | 0 <= i < |leaves|
      ensures IsHexDigest(leaves[i])
    {
      assert IsLeafHash(h, leaves[i], texts);
    }
  }

  /** Along the left edge a shorter tree ends inside a taller one with the same root. */
  lemma {:induction false} ShorterEndsInside(h: Hash, a: seq<string>, b: seq<string>, texts: set<string>)
    requires YieldsDigests(h) && CollisionFree(h, texts)
    requires TreeTexts(h, a) <= texts && TreeTexts(h, b) <= texts
    requires a != [] && AllDigests(a) && AllDigests(b)
    requires Height(|a|) < Height(|b|) && Root(h, a) == Root(h, b)
    ensures InTree(h, NextLevel(h, b), a[0])
    decreases |a|
  {
    var na, nb := NextLevel(h, a), NextLevel(h, b);
    if |a| == 1 {
      RootInTree(h, nb);
    } else {
      NextLevelIsDigests(h, a);
      NextLevelIsDigests(h, b);
      ShorterEndsInside(h, na, nb, texts);
      var l, r := InnerNode(h, nb, na[0]);
      assert ParentText(a, 0) in LevelTexts(a);
      assert na[0] == h(ParentText(a, 0));
      NodeTextIsInjective(a[0], RightChild(a, 0), l, r);
    }
  }

  lemma {:induction false} SharedRootMeansSameHeight(h: Hash, a: seq<string>, b: seq<string>, texts: set<string>)
    requires Comparable(h, a, b, texts) && a != [] && Root(h, a) == Root(h, b)
    ensures Height(|b|) <= Height(|a|)
  {
    LeafHashesAreDigests(h, a, texts);
    LeafHashesAreDigests(h, b, texts);
    if Height(|a|) < Height(|b|) {
      ShorterEndsInside(h, a, b, texts);
      var l, r := InnerNode(h, b, a[0]);
      assert IsLeafHash(h, a[0], texts);
      LeafIsNoNode(h, a[0], texts, l, r);
    }
  }

  /**
   Two non-empty leaf lists share a root exactly when they fill the bottom row alike. The tree alone
   does not tell `[a, b, c]` from `[a, b, c, c]`.
   */
  lemma {:induction false} SharedRootMeansSameBottomRow(h: Hash, a: seq<string>, b: seq<string>, texts: set<string>)
    requires Comparable(h, a, b, texts) && a != [] && b != []
    ensures Root(h, a) == Root(h, b) <==> Expand(a) == Expand(b)
  {
    ExpandKeepsRoot(h, a);
    ExpandKeepsRoot(h, b);
    if Root(h, a) == Root(h, b) {
      SharedRootMeansSameHeight(h, a, b, texts);
      SharedRootMeansSameHeight(h, b, a, texts);
      LeafHashesAreDigests(h, a, texts);
      LeafHashesAreDigests(h, b, texts);
      RootAndCountDetermineLeaves(h, Expand(a), Expand(b), texts);
    }
  }

  /** The smallest pair of leaf lists that share a root. */
  lemma RepeatedLastLeafKeepsRoot(h: Hash, a: string, b: string, c: string)
    ensures Root(h, [a, b, c]) == Root(h, [a, b, c, c])
  {
    var three, four := [a, b, c], [a, b, c, c];
    assert NextLevel(h, three)[1] == h(ParentText(three, 1)) == h(ParentText(four, 1)) == NextLevel(h, four)[1];
    assert NextLevel(h, three)[0] == h(ParentText(three, 0)) == h(ParentText(four, 0)) == NextLevel(h, four)[0];
    assert NextLevel(h, three) == NextLevel(h, four);
  }

  ghost predicate Distinct(s: seq<string>) {
    forall i, j :: 0 <= i < j < |s| ==> s[i] != s[j]
  }

  lemma SameBottomRowOfShorter(a: seq<string>, b: seq<string>)
    requires a != [] && |a| < |b| <= |Expand(b)| && Expand(a) == Expand(b)
    ensures !Distinct(b)
  {
    var p := Padded(|a|, |a|);
    assert b[|a|] == Expand(b)[|a|] && b[p] == Expand(b)[p];
    assert Expand(a)[|a|] == a[p] == Expand(a)[p];
  }

  lemma SameBottomRowOfDistinct(a: seq<string>, b: seq<string>)
    requires a != [] && b != [] && |a| <= |b| && Distinct(b) && Expand(a) == Expand(b)
    requires |b| <= |Expand(b)|
    ensures a == b
  {
    if |a| < |b| {
      SameBottomRowOfShorter(a, b);
    } else {
      assert forall i :: 0 <= i < |a| ==> a[i] == Expand(a)[i] == b[i];
    }
  }

  lemma {:induction false} CountFitsBottomRow(n: nat)
    ensures n <= Pow2(Height(n))
  {
    if n > 1 {
      CountFitsBottomRow((n + 1) / 2);
    }
  }

  lemma {:induction false} EmptyRootIsUnique(h: Hash, a: seq<string>, texts: set<string>)
    requires YieldsDigests(h) && CollisionFree(h, texts) && "" in texts
    requires TreeTexts(h, a) <= texts && LeafHashes(h, a, texts) && a != []
    ensures Root(h, a) != Root(h, [])
  {
    if |a| == 1 {
      assert IsLeafHash(h, a[0], texts);
    } else {
      RootInTree(h, NextLevel(h, a));
      var l, r := InnerNode(h, a, Root(h, a));
      assert NodeText(l, r)[0] == 'M';
    }
  }

  /** Without repeated leaves the root alone determines the list, whatever the lengths and heights. */
  lemma {:induction false} RootDeterminesDistinctLeaves(h: Hash, a: seq<string>, b: seq<string>, texts: set<string>)
    requires Comparable(h, a, b, texts) && Distinct(a) && Distinct(b)
    ensures Root(h, a) == Root(h, b) <==> a == b
  {
    if a == [] && b != [] {
      EmptyRootIsUnique(h, b, texts);
    } else if b == [] && a != [] {
      EmptyRootIsUnique(h, a, texts);
    } else if a != [] && Root(h, a) == Root(h, b) {
      SharedRootMeansSameBottomRow(h, a, b, texts);
      CountFitsBottomRow(|a|);
      CountFitsBottomRow(|b|);
      if |a| <= |b| {
        SameBottomRowOfDistinct(a, b);
      } else {
        SameBottomRowOfDistinct(b, a);
      }
    }
  }

  // ----- what an inclusion proof vouches for

  /** The texts hashed while a proof is folded. */
  function FoldTexts(h: Hash, hash: string, siblings: seq<string>, idx: int): set<string>
    decreases |siblings|
  {
    if siblings == [] then {}
    else
      var right := IsRight(idx);
      {CombineText(hash, siblings[0], right)} + FoldTexts(h, Combine(h, hash, siblings[0], right), siblings[1..], idx / 2)
  }

  /** The step of a fold that reaches the q-th node above `level` started from one of its children. */
  lemma StepFromChild(h: Hash, level: seq<string>, q: nat, hash: string, sibling: string, right: bool,
                      texts: set<string>)
    requires CollisionFree(h, texts) && LevelTexts(level) <= texts && CombineText(hash, sibling, right) in texts
    requires AllDigests(level) && IsHexDigest(hash)
    requires 2 * q < |level| && Combine(h, hash, sibling, right) == NextLevel(h, level)[q]
    ensures hash == if right then RightChild(level, q) else level[2 * q]
    ensures sibling == if right then level[2 * q] else RightChild(level, q)
  {
    assert ParentText(level, q) in LevelTexts(level);
    assert NextLevel(h, level)[q] == h(ParentText(level, q));
    if right {
      NodeTextIsInjective(sibling, hash, level[2 * q], RightChild(level, q));
    } else {
      NodeTextIsInjective(hash, sibling, level[2 * q], RightChild(level, q));
    }
  }

  lemma {:induction false} PaddedChild(level: seq<string>, idx: nat)
    requires |level| > 1
    ensures var q := Padded((|level| + 1) / 2, idx / 2);
      && level[Padded(|level|, idx)] == (if IsRight(idx) then RightChild(level, q) else level[2 * q])
      && (idx < |level| ==> SiblingOf(level, idx) == if IsRight(idx) then level[2 * q] else RightChild(level, q))
  {
  }

  /** The step of a fold that reaches a place of `next`, seen from the level below. */
  lemma {:induction false} StepToPlace(h: Hash, leaves: seq<string>, next: seq<string>, hash: string, sibling: string,
                                       idx: nat, texts: set<string>)
    requires |leaves| > 1 && next == NextLevel(h, leaves) && AllDigests(leaves)
    requires CollisionFree(h, texts) && LevelTexts(leaves) <= texts && CombineText(hash, sibling, IsRight(idx)) in texts
    requires IsHexDigest(hash)
    requires Combine(h, hash, sibling, IsRight(idx)) == next[Padded(|next|, idx / 2)]
    ensures hash == leaves[Padded(|leaves|, idx)]
    ensures idx < |leaves| ==> sibling == SiblingOf(leaves, idx)
  {
    StepFromChild(h, leaves, Padded(|next|, idx / 2), hash, sibling, IsRight(idx), texts);
    PaddedChild(leaves, idx);
  }

  /**
   A proof with as many siblings as the tree is high that folds to the root belongs to the leaf at its
   index: it is that leaf's own proof, sibling by sibling. An index past the end stands for the leaf
   that pads the bottom row there.
   */
  lemma {:induction false} FoldingToRootIsTheProof(h: Hash, leaves: seq<string>, hash: string,
                                                   siblings: seq<string>, idx: nat, texts: set<string>)
    requires leaves != [] && |siblings| == Height(|leaves|)
    requires YieldsDigests(h) && CollisionFree(h, texts)
    requires TreeTexts(h, leaves) <= texts && FoldTexts(h, hash, siblings, idx) <= texts
    requires AllDigests(leaves) && IsHexDigest(hash)
    requires Fold(h, hash, siblings, idx) == Root(h, leaves)
    ensures hash == leaves[Padded(|leaves|, idx)]
    ensures idx < |leaves| ==> siblings == Siblings(h, leaves, idx)
    decreases |leaves|
  {
    if |leaves| > 1 {
      var next := NextLevel(h, leaves);
      var up, rest := Combine(h, hash, siblings[0], IsRight(idx)), siblings[1..];
      NextLevelIsDigests(h, leaves);
      FoldingToRootIsTheProof(h, next, up, rest, idx / 2, texts);
      StepToPlace(h, leaves, next, hash, siblings[0], idx, texts);
      if idx < |leaves| {
        SiblingsFrom(h, leaves, next, idx);
        assert siblings == [siblings[0]] + rest;
      }
    }
  }

  /** Folding into a node of the tree starts from a node of the tree, however long the proof. */
  lemma {:induction false} FoldStartsInTree(h: Hash, leaves: seq<string>, hash: string,
                                            siblings: seq<string>, idx: int, texts: set<string>)
    requires YieldsDigests(h) && CollisionFree(h, texts)
    requires TreeTexts(h, leaves) <= texts && FoldTexts(h, hash, siblings, idx) <= texts
    requires LeafHashes(h, leaves, texts) && AllDigests(leaves) && IsHexDigest(hash)
    requires InTree(h, leaves, Fold(h, hash, siblings, idx))
    ensures InTree(h, leaves, hash)
    decreases |siblings|
  {
    if siblings != [] {
      var right := IsRight(idx);
      var up := Combine(h, hash, siblings[0], right);
      FoldStartsInTree(h, leaves, up, siblings[1..], idx / 2, texts);
      var l', r' := if right then siblings[0] else hash, if right then hash else siblings[0];
      NodeIsNoLeaf(h, leaves, l', r', texts);
      var l, r := InnerNode(h, leaves, up);
      NodeTextIsInjective(l', r', l, r);
    }
  }

  /**
   Soundness without any assumption on the proof, its length, its index or its siblings: a leaf hash that
   folds to the root is a leaf of the tree. In particular no leaf hash is accepted for the empty list.
   */
  lemma {:induction false} FoldingLeafIsLeaf(h: Hash, leaves: seq<string>, hash: string, siblings: seq<string>, idx: int,
                          texts: set<string>)
    requires YieldsDigests(h) && CollisionFree(h, texts)
    requires TreeTexts(h, leaves) <= texts && FoldTexts(h, hash, siblings, idx) <= texts
    requires LeafHashes(h, leaves, texts) && IsLeafHash(h, hash, texts)
    requires Fold(h, hash, siblings, idx) == Root(h, leaves)
    ensures hash in leaves
  {
    LeafHashesAreDigests(h, leaves, texts);
    if leaves == [] {
      FoldIsNotEmptyRoot(h, hash, siblings, idx, texts);
    } else {
      RootInTree(h, leaves);
      FoldStartsInTree(h, leaves, hash, siblings, idx, texts);
      if hash !in leaves {
        var l, r := InnerNode(h, leaves, hash);
        LeafIsNoNode(h, hash, texts, l, r);
      }
    }
  }

  lemma {:induction false} FoldIsNotEmptyRoot(h: Hash, hash: string, siblings: seq<string>, idx: int,
                                              texts: set<string>)
    requires CollisionFree(h, texts) && "" in texts && FoldTexts(h, hash, siblings, idx) <= texts
    requires exists t :: t in texts && t != "" && hash == h(t)
    ensures Fold(h, hash, siblings, idx) != h("")
    decreases |siblings|
  {
    if siblings != [] {
      var text := CombineText(hash, siblings[0], IsRight(idx));
      assert text[0] == 'M';
      FoldIsNotEmptyRoot(h, Combine(h, hash, siblings[0], IsRight(idx)), siblings[1..], idx / 2, texts);
    }
  }
}
