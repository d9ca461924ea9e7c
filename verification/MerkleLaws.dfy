/** What the tree promises: completeness, soundness and binding of the root, and the cut at a level. */
module MerkleLaws {
  import opened Wrappers
  import opened Arithmetic
  import opened MerkleTree

  // ---------------------------------------------------------------- whole trees

  /** The virtual position an index stands for: its residue modulo the size of the virtual leaf list. */
  function Residue<H>(leaves: seq<H>, index: nat): (r: nat)
    ensures r < Pow2(Depth(leaves))
  {
    index % Pow2(Depth(leaves))
  }

  lemma ResidueInRange<H>(leaves: seq<H>, index: nat)
    requires index < |leaves|
    ensures Residue(leaves, index) == index
  {
    CeilLog2Bounds(|leaves|);
    DivUnique(index, Pow2(Depth(leaves)), 0, index);
  }

  /** The leaf an index stands for: its own if it has one, the copied one at a padded position. */
  function Position<H>(leaves: seq<H>, index: nat): (p: nat)
    requires |leaves| > 0
    ensures p < |leaves|
    ensures index < |leaves| ==> p == index
  {
    assert index < |leaves| ==> Residue(leaves, index) == index by {
      if index < |leaves| {
        ResidueInRange(leaves, index);
      }
    }
    CopiedFrom(|leaves|, 0, Depth(leaves), Residue(leaves, index))
  }

  /** The honest siblings of every virtual position, real or padded. */
  function VirtualSiblings<H>(hp: PairHash<H>, leaves: seq<H>, r: nat): (s: seq<H>)
    requires |leaves| > 0 && r < Pow2(Depth(leaves))
    ensures |s| == Depth(leaves)
  {
    Path(hp, leaves, 0, Depth(leaves), r)
  }

  lemma WalkByResidue<H>(hp: PairHash<H>, leaves: seq<H>, index: nat, current: H, siblings: seq<H>)
    requires |siblings| == Depth(leaves)
    ensures Walk(hp, current, index, siblings) == Walk(hp, current, Residue(leaves, index), siblings)
    ensures WalkInputs(hp, current, index, siblings) == WalkInputs(hp, current, Residue(leaves, index), siblings)
  {
    var m, r := Pow2(Depth(leaves)), Residue(leaves, index);
    DivUnique(r, m, 0, r);
    WalkResidue(hp, current, index, r, siblings);
  }

  /** At a real index the virtual leaf and its siblings are the real ones. */
  lemma VirtualIsReal<H>(hp: PairHash<H>, leaves: seq<H>, index: nat)
    requires index < |leaves|
    ensures Residue(leaves, index) == index
    ensures VirtualLeaves(leaves)[index] == leaves[index]
    ensures VirtualSiblings(hp, leaves, index) == Siblings(hp, leaves, index)
  {
    ResidueInRange(leaves, index);
    ExtensionIsReal(leaves, 0, Depth(leaves), index);
  }

  /** Completeness at every index: the siblings of the position it stands for lead to the root. */
  lemma VirtualProofComplete<H>(hp: PairHash<H>, leaves: seq<H>, index: nat)
    requires |leaves| > 0
    ensures var r := Residue(leaves, index);
            Walk(hp, VirtualLeaves(leaves)[r], index, VirtualSiblings(hp, leaves, r)) == Root(hp, leaves)
  {
    var r := Residue(leaves, index);
    PathReachesNode(hp, leaves, 0, Depth(leaves), r);
    WalkByResidue(hp, leaves, index, VirtualLeaves(leaves)[r], VirtualSiblings(hp, leaves, r));
  }

  /** Completeness: honest siblings lead each leaf to the root. */
  lemma ProofComplete<H>(hp: PairHash<H>, leaves: seq<H>, index: nat)
    requires index < |leaves|
    ensures Walk(hp, leaves[index], index, Siblings(hp, leaves, index)) == Root(hp, leaves)
  {
    VirtualProofComplete(hp, leaves, index);
    VirtualIsReal(hp, leaves, index);
  }

  /** The pairs a forged proof of full length gives away. */
  function ForgeryCollision<H(==)>(hp: PairHash<H>, leaves: seq<H>, index: nat, leaf: H, siblings: seq<H>)
    : (c: Option<(Children<H>, Children<H>)>)
    requires |leaves| > 0 && |siblings| == Depth(leaves)
  {
    WalkCollision(hp, leaves, 0, Depth(leaves), Residue(leaves, index), leaf, siblings)
  }

  /** Soundness: a proof as long as the tree is deep that reaches the root carries the leaf and the
      siblings of the position its index stands for, or the extracted pairs, one hashed by the verifier
      and one by the tree, collide. */
  lemma ProofSound<H>(hp: PairHash<H>, leaves: seq<H>, index: nat, leaf: H, siblings: seq<H>)
    requires |leaves| > 0 && |siblings| == Depth(leaves)
    requires Walk(hp, leaf, index, siblings) == Root(hp, leaves)
    ensures var r := Residue(leaves, index);
            var c := ForgeryCollision(hp, leaves, index, leaf, siblings);
            || (leaf == VirtualLeaves(leaves)[r] && siblings == VirtualSiblings(hp, leaves, r))
            || (Collision(hp, c) && c.value.0 in WalkInputs(hp, leaf, index, siblings)
                && c.value.1 in NodeInputs(hp, leaves, 0, Depth(leaves)))
  {
    WalkByResidue(hp, leaves, index, leaf, siblings);
    WalkIsHonest(hp, leaves, 0, Depth(leaves), Residue(leaves, index), leaf, siblings);
  }

  /** For an index in range: the leaf is the one at that index and the siblings are the honest ones. */
  lemma ProofSoundInRange<H>(hp: PairHash<H>, leaves: seq<H>, index: nat, leaf: H, siblings: seq<H>)
    requires index < |leaves| && |siblings| == Depth(leaves)
    requires Walk(hp, leaf, index, siblings) == Root(hp, leaves)
    ensures || (leaf == leaves[index] && siblings == Siblings(hp, leaves, index))
            || Collision(hp, ForgeryCollision(hp, leaves, index, leaf, siblings))
  {
    ProofSound(hp, leaves, index, leaf, siblings);
    VirtualIsReal(hp, leaves, index);
  }

  lemma VirtualLeavesExtend<H>(leaves: seq<H>)
    requires |leaves| > 0
    ensures leaves <= VirtualLeaves(leaves)
    ensures forall r :: 0 <= r < Pow2(Depth(leaves)) ==> VirtualLeaves(leaves)[r] in leaves
  {
    var v, h := VirtualLeaves(leaves), Depth(leaves);
    CeilLog2Bounds(|leaves|);
    forall i | 0 <= i < |leaves| ensures v[i] == leaves[i] {
      ExtensionIsReal(leaves, 0, h, i);
    }
    forall r | 0 <= r < Pow2(h) ensures v[r] in leaves {
      ExtensionCopies(leaves, 0, h, r);
    }
  }

  /** Whatever index is claimed, the accepted leaf is one of the anchored ones. */
  lemma ProofSoundMembership<H>(hp: PairHash<H>, leaves: seq<H>, index: nat, leaf: H, siblings: seq<H>)
    requires |leaves| > 0 && |siblings| == Depth(leaves)
    requires Walk(hp, leaf, index, siblings) == Root(hp, leaves)
    ensures leaf in leaves || Collision(hp, ForgeryCollision(hp, leaves, index, leaf, siblings))
  {
    ProofSound(hp, leaves, index, leaf, siblings);
    VirtualLeavesExtend(leaves);
  }

  /** The root is the root of the perfect tree over the virtual leaves, which start with the real ones. */
  lemma RootIsPerfect<H>(hp: PairHash<H>, leaves: seq<H>)
    requires |leaves| > 0
    ensures Root(hp, leaves) == PerfectRoot(hp, VirtualLeaves(leaves), Depth(leaves))
    ensures leaves <= VirtualLeaves(leaves)
  {
    NodeIsPerfect(hp, leaves, 0, Depth(leaves));
    VirtualLeavesExtend(leaves);
  }

  /** Binding: at equal depth, equal virtual leaves give equal roots, and equal roots give equal virtual
      leaves or an extracted collision. Lists of equal length are then equal themselves. */
  lemma RootBinds<H>(hp: PairHash<H>, a: seq<H>, b: seq<H>)
    requires |a| > 0 && |b| > 0 && Depth(a) == Depth(b)
    ensures VirtualLeaves(a) == VirtualLeaves(b) ==> Root(hp, a) == Root(hp, b)
    ensures Root(hp, a) == Root(hp, b) ==>
              || VirtualLeaves(a) == VirtualLeaves(b)
              || Collision(hp, NodeCollision(hp, a, 0, b, 0, Depth(a)))
    ensures |a| == |b| && VirtualLeaves(a) == VirtualLeaves(b) ==> a == b
  {
    RootIsPerfect(hp, a);
    RootIsPerfect(hp, b);
    if Root(hp, a) == Root(hp, b) {
      NodeBinds(hp, a, 0, b, 0, Depth(a));
    }
    if |a| == |b| && VirtualLeaves(a) == VirtualLeaves(b) {
      assert a == VirtualLeaves(a)[..|a|] && b == VirtualLeaves(b)[..|b|];
    }
  }

  /** The limit of binding: writing out the duplicate of an odd last leaf does not change the root. */
  lemma RootIgnoresWrittenOutDuplicate<H>(hp: PairHash<H>, leaves: seq<H>)
    requires |leaves| > 1 && |leaves| % 2 == 1
    ensures Root(hp, leaves + [leaves[|leaves| - 1]]) == Root(hp, leaves)
  {
    var longer := leaves + [leaves[|leaves| - 1]];
    RootOverParents(hp, leaves);
    RootOverParents(hp, longer);
    var p, q := Parents(hp, leaves), Parents(hp, longer);
    forall j | 0 <= j < |p| ensures p[j] == q[j] {
      assert PairAt(longer, j) == PairAt(leaves, j);
    }
    assert p == q;
  }

  // ---------------------------------------------------------------- the cut at a level

  /** The labels `h` levels above the leaves. */
  function Level<H>(hp: PairHash<H>, leaves: seq<H>, h: nat): (s: seq<H>)
    requires |leaves| > 0
    ensures |s| > 0
    decreases h
  {
    if h == 0 then leaves else Level(hp, Parents(hp, leaves), h - 1)
  }

  /** A label exists at position `j` exactly when its block has a first leaf. */
  lemma {:induction false} LevelReaches<H>(hp: PairHash<H>, leaves: seq<H>, h: nat, j: nat)
    requires |leaves| > 0
    ensures j < |Level(hp, leaves, h)| <==> Scale(j, h) < |leaves|
    decreases h
  {
    if h > 0 {
      LevelReaches(hp, Parents(hp, leaves), h - 1, j);
    }
  }

  lemma LevelWidth<H>(hp: PairHash<H>, leaves: seq<H>, h: nat)
    requires |leaves| > 0
    ensures |Level(hp, leaves, h)| == CeilDiv(|leaves|, Pow2(h))
  {
    var w, q := |Level(hp, leaves, h)|, CeilDiv(|leaves|, Pow2(h));
    LevelReaches(hp, leaves, h, q);
    ScaleMultiplies(q, h);
    CeilDivBelow(q, |leaves|, Pow2(h));
    if w < q {
      LevelReaches(hp, leaves, h, w);
      ScaleMultiplies(w, h);
      CeilDivBelow(w, |leaves|, Pow2(h));
    }
  }

  /** Trees over the labels are the tops of the tree over the leaves. */
  lemma {:induction false} NodeOverLevel<H>(hp: PairHash<H>, leaves: seq<H>, h: nat, j: nat, t: nat)
    requires |leaves| > 0 && j < |Level(hp, leaves, h)|
    ensures Scale(j, h) < |leaves|
    ensures Node(hp, Level(hp, leaves, h), j, t) == Node(hp, leaves, Scale(j, h), t + h)
    decreases h
  {
    if h > 0 {
      var p := Parents(hp, leaves);
      LevelReaches(hp, p, h - 1, j);
      NodeOverLevel(hp, p, h - 1, j, t);
      NodeOverParents(hp, leaves, Scale(j, h - 1), t + h - 1);
    }
  }

  /** `x` is the node over block `j` of height `h`, computed from that block's leaves alone. */
  ghost predicate LabelsBlock<H>(hp: PairHash<H>, leaves: seq<H>, h: nat, j: nat, x: H) {
    var lo := Scale(j, h);
    && lo < |leaves|
    && x == Node(hp, leaves, lo, h)
    && x == Node(hp, leaves[lo..Min(|leaves|, lo + Pow2(h))], 0, h)
  }

  lemma LevelLabel<H>(hp: PairHash<H>, leaves: seq<H>, h: nat, j: nat)
    requires |leaves| > 0 && j < |Level(hp, leaves, h)|
    ensures LabelsBlock(hp, leaves, h, j, Level(hp, leaves, h)[j])
  {
    NodeOverLevel(hp, leaves, h, j, 0);
    NodeIsLocal(hp, leaves, Scale(j, h), h);
  }

  predicate Distinct<T(==)>(s: seq<T>) {
    forall i, j :: 0 <= i < j < |s| ==> s[i] != s[j]
  }

  /** The pairs two equal labels of different blocks give away. */
  function LabelCollision<H(==)>(hp: PairHash<H>, leaves: seq<H>, h: nat, i: nat, j: nat)
    : Option<(Children<H>, Children<H>)>
    requires Scale(i, h) < |leaves| && Scale(j, h) < |leaves|
  {
    NodeCollision(hp, leaves, Scale(i, h), leaves, Scale(j, h), h)
  }

  lemma {:induction false} ScaleApart(i: nat, j: nat, h: nat)
    requires i < j
    ensures Scale(i, h) < Scale(j, h)
  {
    if h > 0 {
      ScaleApart(i, j, h - 1);
    }
  }

  /** Over distinct leaves the labels of every level are distinct, or those of two blocks give a collision. */
  lemma LabelsDistinct<H>(hp: PairHash<H>, leaves: seq<H>, h: nat, i: nat, j: nat)
    requires |leaves| > 0 && Distinct(leaves) && i < j < |Level(hp, leaves, h)|
    ensures Scale(i, h) < Scale(j, h) < |leaves|
    ensures Level(hp, leaves, h)[i] != Level(hp, leaves, h)[j] || Collision(hp, LabelCollision(hp, leaves, h, i, j))
  {
    ScaleApart(i, j, h);
    NodeOverLevel(hp, leaves, h, i, 0);
    NodeOverLevel(hp, leaves, h, j, 0);
    if Level(hp, leaves, h)[i] == Level(hp, leaves, h)[j] {
      NodeBinds(hp, leaves, Scale(i, h), leaves, Scale(j, h), h);
      ExtensionIsReal(leaves, Scale(i, h), h, 0);
      ExtensionIsReal(leaves, Scale(j, h), h, 0);
    }
  }

  /** Cutting keeps the root and takes `h` off the depth. */
  lemma {:induction false} RootOverLevel<H>(hp: PairHash<H>, leaves: seq<H>, h: nat)
    requires |leaves| > 0 && h <= Depth(leaves)
    ensures Depth(Level(hp, leaves, h)) == Depth(leaves) - h
    ensures Root(hp, Level(hp, leaves, h)) == Root(hp, leaves)
    decreases h
  {
    if h > 0 {
      RootOverParents(hp, leaves);
      RootOverLevel(hp, Parents(hp, leaves), h - 1);
    }
  }

  /** Cutting a path: the lower part walks to the label of the block, the upper part is that label's own path. */
  lemma {:induction false} PathOverLevel<H>(hp: PairHash<H>, leaves: seq<H>, h: nat, index: nat)
    requires index < |leaves| && h <= Depth(leaves)
    ensures Shift(index, h) < |Level(hp, leaves, h)|
    ensures Siblings(hp, leaves, index)[h..] == Siblings(hp, Level(hp, leaves, h), Shift(index, h))
    ensures Walk(hp, leaves[index], index, Siblings(hp, leaves, index)[..h]) == Level(hp, leaves, h)[Shift(index, h)]
    decreases h
  {
    if h > 0 {
      var p, s := Parents(hp, leaves), Siblings(hp, leaves, index);
      assert Depth(leaves) == Depth(p) + 1 by {
        RootOverParents(hp, leaves);
      }
      SiblingsOverParents(hp, leaves, index);
      PathOverLevel(hp, p, h - 1, index / 2);
      assert s[h..] == s[1..][h - 1..];
      assert s[..h] == [s[0]] + s[1..][..h - 1];
      StepToParent(hp, leaves, index);
    }
  }

  /** Every sibling is the label at the neighbour of the shifted index, in the padded level it comes from. */
  lemma SiblingAt<H>(hp: PairHash<H>, leaves: seq<H>, index: nat, t: nat)
    requires index < |leaves| && t < Depth(leaves)
    ensures Shift(index, t) < |Level(hp, leaves, t)|
    ensures Siblings(hp, leaves, index)[t]
         == Level(hp, leaves, t)[Neighbour(|Level(hp, leaves, t)|, Shift(index, t))]
  {
    var labels, j := Level(hp, leaves, t), Shift(index, t);
    PathOverLevel(hp, leaves, t, index);
    assert |labels| > 1 by {
      RootOverLevel(hp, leaves, t);
    }
    LowestIsNeighbour(hp, labels, j);
    assert Siblings(hp, leaves, index)[t] == Siblings(hp, leaves, index)[t..][0];
  }

  /** A level is one round of pairing over the level below it. */
  lemma {:induction false} LevelOverLevel<H>(hp: PairHash<H>, leaves: seq<H>, h: nat)
    requires |leaves| > 0
    ensures Level(hp, leaves, h + 1) == Parents(hp, Level(hp, leaves, h))
    decreases h
  {
    if h > 0 {
      LevelOverLevel(hp, Parents(hp, leaves), h - 1);
    }
  }

  /** The levels, round by round from the leaves. */
  lemma LevelFolds<H>(hp: PairHash<H>, leaves: seq<H>, h: nat)
    requires |leaves| > 0
    ensures Level(hp, leaves, 0) == leaves
    ensures IsRound(hp, Level(hp, leaves, h), Level(hp, leaves, h + 1))
  {
    var level := Level(hp, leaves, h);
    LevelOverLevel(hp, leaves, h);
    forall j | 0 <= j < (|level| + 1) / 2 ensures Parents(hp, level)[j] == Label(hp, PairAt(level, j)) {
    }
  }

  lemma {:induction false} VirtualOverParents<H>(hp: PairHash<H>, a: seq<H>, b: seq<H>)
    requires |a| > 1 && |b| > 1 && Depth(a) == Depth(b) && VirtualLeaves(a) == VirtualLeaves(b)
    ensures Depth(Parents(hp, a)) == Depth(Parents(hp, b)) == Depth(a) - 1
    ensures VirtualLeaves(Parents(hp, a)) == VirtualLeaves(Parents(hp, b))
  {
    RootOverParents(hp, a);
    RootOverParents(hp, b);
    var h := Depth(Parents(hp, a));
    var p, q := Extension(Parents(hp, a), 0, h), Extension(Parents(hp, b), 0, h);
    forall r | 0 <= r < Pow2(h) ensures p[r] == q[r] {
      ExtensionOverParents(hp, a, 0, h, r);
      ExtensionOverParents(hp, b, 0, h, r);
    }
  }

  /** Lists of one depth with the same virtual leaves have the same virtual labels at every level. */
  lemma {:induction false} VirtualOverLevel<H>(hp: PairHash<H>, a: seq<H>, b: seq<H>, h: nat)
    requires |a| > 0 && |b| > 0 && h <= Depth(a) == Depth(b) && VirtualLeaves(a) == VirtualLeaves(b)
    ensures VirtualLeaves(Level(hp, a, h)) == VirtualLeaves(Level(hp, b, h))
    decreases h
  {
    if h > 0 {
      assert |a| > 1 && |b| > 1;
      VirtualOverParents(hp, a, b);
      VirtualOverLevel(hp, Parents(hp, a), Parents(hp, b), h - 1);
    }
  }

  /** Where two trees of one depth and one root both have a label, it is the same, or the extracted pairs collide. */
  lemma SharedLabels<H>(hp: PairHash<H>, a: seq<H>, b: seq<H>, h: nat, j: nat)
    requires |a| > 0 && |b| > 0 && h <= Depth(a) == Depth(b) && Root(hp, a) == Root(hp, b)
    requires j < |Level(hp, a, h)| && j < |Level(hp, b, h)|
    ensures || Level(hp, a, h)[j] == Level(hp, b, h)[j]
            || Collision(hp, NodeCollision(hp, a, 0, b, 0, Depth(a)))
  {
    RootBinds(hp, a, b);
    if VirtualLeaves(a) == VirtualLeaves(b) {
      VirtualOverLevel(hp, a, b, h);
      var p, q := Level(hp, a, h), Level(hp, b, h);
      VirtualLeavesExtend(p);
      VirtualLeavesExtend(q);
      assert p[j] == VirtualLeaves(p)[j] && q[j] == VirtualLeaves(q)[j];
    }
  }

  /** The label above `index` is the node over its block. */
  lemma LabelAbove<H>(hp: PairHash<H>, leaves: seq<H>, index: nat, h: nat)
    requires index < |leaves| && Shift(index, h) < |Level(hp, leaves, h)|
    ensures Level(hp, leaves, h)[Shift(index, h)] == Node(hp, leaves, RoundDown(index, h), h)
  {
    RoundDownScales(index, h);
    NodeOverLevel(hp, leaves, h, Shift(index, h), 0);
  }

  /** The honest leaf walks up to the node over its block. */
  lemma HonestWalk<H>(hp: PairHash<H>, leaves: seq<H>, index: nat, h: nat)
    requires index < |leaves| && h <= Depth(leaves)
    ensures Walk(hp, leaves[index], index, Siblings(hp, leaves, index)[..h])
         == Node(hp, leaves, RoundDown(index, h), h)
  {
    PathOverLevel(hp, leaves, h, index);
    LabelAbove(hp, leaves, index, h);
  }

  /** Why leaves need proofs of full length: with its own shorter path every inner label passes as a leaf, and
      the list of labels has the same root as the list of leaves. */
  lemma InnerLabelAccepted<H>(hp: PairHash<H>, leaves: seq<H>, h: nat, index: nat)
    requires index < |leaves| && h <= Depth(leaves)
    ensures Shift(index, h) < |Level(hp, leaves, h)|
    ensures var s := Siblings(hp, leaves, index)[h..];
            && |s| == Depth(leaves) - h
            && Walk(hp, Level(hp, leaves, h)[Shift(index, h)], Shift(index, h), s) == Root(hp, leaves)
  {
    PathOverLevel(hp, leaves, h, index);
    RootOverLevel(hp, leaves, h);
    ProofComplete(hp, Level(hp, leaves, h), Shift(index, h));
  }

  /** The labels that a proof with the given number of siblings starts from. */
  function StartLevel<H>(hp: PairHash<H>, leaves: seq<H>, steps: nat): (s: seq<H>)
    requires |leaves| > 0 && steps <= Depth(leaves)
    ensures |s| > 0
  {
    Level(hp, leaves, Depth(leaves) - steps)
  }

  /** What a proof shows: it is the path of the virtual position its index stands for, in the tree over the level it
      starts from, and the leaf is the label there, or the pairs extracted from the walk and from that tree
      collide. A proof of full length starts from the leaves themselves. */
  predicate ProvesLabel<H(==)>(hp: PairHash<H>, leaves: seq<H>, index: nat, leaf: H, siblings: seq<H>)
    requires |leaves| > 0 && |siblings| <= Depth(leaves)
  {
    var labels := StartLevel(hp, leaves, |siblings|);
    && |siblings| == Depth(labels)
    && (|| (&& leaf == labels[Position(labels, index)]
            && siblings == VirtualSiblings(hp, labels, Residue(labels, index))
            && (index < |labels| ==> leaf == labels[index] && siblings == Siblings(hp, labels, index)))
        || Collision(hp, ForgeryCollision(hp, labels, index, leaf, siblings)))
  }

  /** Soundness of proofs no longer than the tree is deep, the converse of `InnerLabelAccepted`. */
  lemma ShortProofSound<H>(hp: PairHash<H>, leaves: seq<H>, index: nat, leaf: H, siblings: seq<H>)
    requires |leaves| > 0 && |siblings| <= Depth(leaves)
    requires Walk(hp, leaf, index, siblings) == Root(hp, leaves)
    ensures ProvesLabel(hp, leaves, index, leaf, siblings)
  {
    var labels := StartLevel(hp, leaves, |siblings|);
    RootOverLevel(hp, leaves, Depth(leaves) - |siblings|);
    ProofSound(hp, labels, index, leaf, siblings);
    ExtensionCopies(labels, 0, Depth(labels), Residue(labels, index));
    if index < |labels| {
      VirtualIsReal(hp, labels, index);
    }
  }

  /** What a list of labels with the root of the tree must be: up to written-out duplicates the level of its own
      depth, or the pairs extracted from the two trees collide. */
  predicate BindsLabels<H(==)>(hp: PairHash<H>, leaves: seq<H>, labels: seq<H>)
    requires |leaves| > 0 && |labels| > 0 && Depth(labels) <= Depth(leaves)
  {
    var level := StartLevel(hp, leaves, Depth(labels));
    || (VirtualLeaves(labels) == VirtualLeaves(level) && (|labels| == |level| ==> labels == level))
    || Collision(hp, NodeCollision(hp, labels, 0, level, 0, Depth(labels)))
  }

  lemma LabelsBind<H>(hp: PairHash<H>, leaves: seq<H>, labels: seq<H>)
    requires |leaves| > 0 && |labels| > 0 && Depth(labels) <= Depth(leaves) && Root(hp, labels) == Root(hp, leaves)
    ensures BindsLabels(hp, leaves, labels)
  {
    RootOverLevel(hp, leaves, Depth(leaves) - Depth(labels));
    RootBinds(hp, labels, StartLevel(hp, leaves, Depth(labels)));
  }
}
