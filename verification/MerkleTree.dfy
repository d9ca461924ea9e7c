/** The Merkle tree by the interval node rule, independent of any loop and of what a label is made of.

    A node is named by the first leaf `lo` of its interval and its height `h`; it covers the leaves
    `lo .. lo + 2^h`. Its right child starts at `lo + 2^(h-1)`, unless that is past the last leaf, when
    the left child stands in for it. That replacement is all that odd-node duplication amounts to.

    `hp` is the pair hash, an arbitrary total function. Nothing is assumed about it: statements that need
    collision resistance name the two pairs that would collide instead. */
module MerkleTree {
  import opened Wrappers
  import opened Arithmetic

  type PairHash<!H> = (H, H) -> H

  /** The two labels hashed into one. */
  datatype Children<+H> = Children(left: H, right: H)

  function Label<H>(hp: PairHash<H>, c: Children<H>): H {
    hp(c.left, c.right)
  }

  /** Two different pairs of labels with one hash. */
  predicate Collision<H(==)>(hp: PairHash<H>, c: Option<(Children<H>, Children<H>)>) {
    c.Some? && c.value.0 != c.value.1 && Label(hp, c.value.0) == Label(hp, c.value.1)
  }

  /** Where the right child of height `h` starts: at the left one when there are no more leaves. */
  function RightStart(n: nat, lo: nat, h: nat): (r: nat)
    requires lo < n
    ensures r < n
  {
    if lo + Pow2(h) < n then lo + Pow2(h) else lo
  }

  function Node<H>(hp: PairHash<H>, leaves: seq<H>, lo: nat, h: nat): H
    requires lo < |leaves|
    decreases h
  {
    if h == 0 then leaves[lo]
    else hp(Node(hp, leaves, lo, h - 1), Node(hp, leaves, RightStart(|leaves|, lo, h - 1), h - 1))
  }

  function Depth<H>(leaves: seq<H>): nat {
    CeilLog2(|leaves|)
  }

  function Root<H>(hp: PairHash<H>, leaves: seq<H>): H
    requires |leaves| > 0
  {
    Node(hp, leaves, 0, Depth(leaves))
  }

  /** The leaves that the node `(lo, h)` has once every duplication is written out: `2^h` of them. */
  function Extension<H>(leaves: seq<H>, lo: nat, h: nat): (s: seq<H>)
    requires lo < |leaves|
    ensures |s| == Pow2(h)
    decreases h
  {
    if h == 0 then [leaves[lo]]
    else Extension(leaves, lo, h - 1) + Extension(leaves, RightStart(|leaves|, lo, h - 1), h - 1)
  }

  /** The virtual leaf list of the whole tree; ABCDEF becomes ABCDEFEF. */
  function VirtualLeaves<H>(leaves: seq<H>): (s: seq<H>)
    requires |leaves| > 0
    ensures |s| == Pow2(Depth(leaves))
  {
    Extension(leaves, 0, Depth(leaves))
  }

  /** The root of the perfect tree over a list whose length is a power of two. */
  function PerfectRoot<H>(hp: PairHash<H>, s: seq<H>, h: nat): H
    requires |s| == Pow2(h)
  {
    if h == 0 then s[0]
    else hp(PerfectRoot(hp, s[..Pow2(h - 1)], h - 1), PerfectRoot(hp, s[Pow2(h - 1)..], h - 1))
  }

  /** The siblings met on the way up from the `r`-th virtual leaf of the node `(lo, h)`. */
  function Path<H>(hp: PairHash<H>, leaves: seq<H>, lo: nat, h: nat, r: nat): (s: seq<H>)
    requires lo < |leaves| && r < Pow2(h)
    ensures |s| == h
    decreases h
  {
    if h == 0 then []
    else
      var right := RightStart(|leaves|, lo, h - 1);
      if r < Pow2(h - 1) then
        Path(hp, leaves, lo, h - 1, r) + [Node(hp, leaves, right, h - 1)]
      else
        Path(hp, leaves, right, h - 1, r - Pow2(h - 1)) + [Node(hp, leaves, lo, h - 1)]
  }

  /** The honest siblings of the leaf at `index`. */
  function Siblings<H>(hp: PairHash<H>, leaves: seq<H>, index: nat): (s: seq<H>)
    requires index < |leaves|
    ensures |s| == Depth(leaves)
  {
    CeilLog2Bounds(|leaves|);
    Path(hp, leaves, 0, Depth(leaves), index)
  }

  /** What a verifier hashes at one step: the current label on the side its index bit says. */
  function StepInput<H>(current: H, idx: nat, sibling: H): Children<H> {
    if idx % 2 == 0 then Children(current, sibling) else Children(sibling, current)
  }

  /** Walk from `current` at position `idx` up along `siblings`. */
  function Walk<H>(hp: PairHash<H>, current: H, idx: nat, siblings: seq<H>): H
    decreases |siblings|
  {
    if siblings == [] then current
    else Walk(hp, Label(hp, StepInput(current, idx, siblings[0])), idx / 2, siblings[1..])
  }

  /** Every pair such a walk hashes, bottom first. */
  function WalkInputs<H>(hp: PairHash<H>, current: H, idx: nat, siblings: seq<H>): seq<Children<H>>
    decreases |siblings|
  {
    if siblings == [] then []
    else
      var input := StepInput(current, idx, siblings[0]);
      [input] + WalkInputs(hp, Label(hp, input), idx / 2, siblings[1..])
  }

  /** Every pair hashed to build the node `(lo, h)`. */
  ghost function NodeInputs<H>(hp: PairHash<H>, leaves: seq<H>, lo: nat, h: nat): set<Children<H>>
    requires lo < |leaves|
    decreases h
  {
    if h == 0 then {}
    else
      var right := RightStart(|leaves|, lo, h - 1);
      {Children(Node(hp, leaves, lo, h - 1), Node(hp, leaves, right, h - 1))}
      + NodeInputs(hp, leaves, lo, h - 1) + NodeInputs(hp, leaves, right, h - 1)
  }

  // ---------------------------------------------------------------- the virtual leaf list

  /** The tree is the perfect tree over its virtual leaves. */
  lemma {:induction false} NodeIsPerfect<H>(hp: PairHash<H>, leaves: seq<H>, lo: nat, h: nat)
    requires lo < |leaves|
    ensures Node(hp, leaves, lo, h) == PerfectRoot(hp, Extension(leaves, lo, h), h)
    decreases h
  {
    if h > 0 {
      var right := RightStart(|leaves|, lo, h - 1);
      var s := Extension(leaves, lo, h);
      NodeIsPerfect(hp, leaves, lo, h - 1);
      NodeIsPerfect(hp, leaves, right, h - 1);
      assert s[..Pow2(h - 1)] == Extension(leaves, lo, h - 1);
      assert s[Pow2(h - 1)..] == Extension(leaves, right, h - 1);
    }
  }

  /** Real positions of the extension hold the real leaves. */
  lemma {:induction false} ExtensionIsReal<H>(leaves: seq<H>, lo: nat, h: nat, r: nat)
    requires r < Pow2(h) && lo + r < |leaves|
    ensures Extension(leaves, lo, h)[r] == leaves[lo + r]
    decreases h
  {
    if h > 0 {
      if r < Pow2(h - 1) {
        ExtensionIsReal(leaves, lo, h - 1, r);
      } else {
        ExtensionIsReal(leaves, lo + Pow2(h - 1), h - 1, r - Pow2(h - 1));
      }
    }
  }

  /** The leaf that the `r`-th virtual leaf of the node `(lo, h)` is a copy of: itself if it is a real one. */
  function CopiedFrom(n: nat, lo: nat, h: nat, r: nat): (p: nat)
    requires lo < n && r < Pow2(h)
    ensures p < n
    ensures lo + r < n ==> p == lo + r
    decreases h
  {
    if h == 0 then lo
    else if r < Pow2(h - 1) then CopiedFrom(n, lo, h - 1, r)
    else CopiedFrom(n, RightStart(n, lo, h - 1), h - 1, r - Pow2(h - 1))
  }

  /** Padded positions hold copies of real leaves. */
  lemma {:induction false} ExtensionCopies<H>(leaves: seq<H>, lo: nat, h: nat, r: nat)
    requires lo < |leaves| && r < Pow2(h)
    ensures Extension(leaves, lo, h)[r] == leaves[CopiedFrom(|leaves|, lo, h, r)]
    decreases h
  {
    if h > 0 {
      if r < Pow2(h - 1) {
        ExtensionCopies(leaves, lo, h - 1, r);
      } else {
        ExtensionCopies(leaves, RightStart(|leaves|, lo, h - 1), h - 1, r - Pow2(h - 1));
      }
    }
  }

  /** A node depends on the leaves of its own interval only. */
  lemma NodeIsLocal<H>(hp: PairHash<H>, leaves: seq<H>, lo: nat, h: nat)
    requires lo < |leaves|
    ensures Node(hp, leaves, lo, h) == Node(hp, leaves[lo..Min(|leaves|, lo + Pow2(h))], 0, h)
  {
    var block := leaves[lo..Min(|leaves|, lo + Pow2(h))];
    assert lo + |block| == Min(|leaves|, lo + Pow2(h)) && |block| > 0;
    NodeOfBlock(hp, leaves, block, lo, 0, h);
  }

  lemma {:induction false} NodeOfBlock<H>(hp: PairHash<H>, leaves: seq<H>, block: seq<H>, start: nat, lo: nat, h: nat)
    requires lo < |block| && start + |block| <= |leaves| && block == leaves[start..start + |block|]
    requires start + |block| == |leaves| || lo + Pow2(h) <= |block|
    ensures Node(hp, leaves, start + lo, h) == Node(hp, block, lo, h)
    decreases h
  {
    if h > 0 {
      NodeOfBlock(hp, leaves, block, start, lo, h - 1);
      NodeOfBlock(hp, leaves, block, start, RightStart(|block|, lo, h - 1), h - 1);
    }
  }

  // ---------------------------------------------------------------- walking a path

  /** A walk along two stretches is two walks; the second starts at the shifted index. */
  lemma {:induction false} WalkAppend<H>(hp: PairHash<H>, current: H, idx: nat, s: seq<H>, t: seq<H>)
    ensures Walk(hp, current, idx, s + t) == Walk(hp, Walk(hp, current, idx, s), Shift(idx, |s|), t)
    decreases |s|
  {
    if s == [] {
      assert s + t == t;
    } else {
      assert (s + t)[1..] == s[1..] + t;
      WalkAppend(hp, Label(hp, StepInput(current, idx, s[0])), idx / 2, s[1..], t);
    }
  }

  lemma {:induction false} WalkInputsAppend<H>(hp: PairHash<H>, current: H, idx: nat, s: seq<H>, x: H)
    ensures WalkInputs(hp, current, idx, s + [x])
         == WalkInputs(hp, current, idx, s) + [StepInput(Walk(hp, current, idx, s), Shift(idx, |s|), x)]
    decreases |s|
  {
    if s == [] {
      assert s + [x] == [x];
    } else {
      assert (s + [x])[1..] == s[1..] + [x];
      WalkInputsAppend(hp, Label(hp, StepInput(current, idx, s[0])), idx / 2, s[1..], x);
    }
  }

  /** Only the low `|s|` bits of the index steer a walk along `s`. */
  lemma {:induction false} WalkResidue<H>(hp: PairHash<H>, current: H, i: nat, j: nat, s: seq<H>)
    requires i % Pow2(|s|) == j % Pow2(|s|)
    ensures Walk(hp, current, i, s) == Walk(hp, current, j, s)
    ensures WalkInputs(hp, current, i, s) == WalkInputs(hp, current, j, s)
    decreases |s|
  {
    if s != [] {
      HalveThenDivide(i, |s| - 1);
      HalveThenDivide(j, |s| - 1);
      WalkResidue(hp, Label(hp, StepInput(current, i, s[0])), i / 2, j / 2, s[1..]);
    }
  }

  /** The position of `r` inside the child of height `h` that holds it. */
  function Inside(r: nat, h: nat): nat {
    if r < Pow2(h) then r else r - Pow2(h)
  }

  /** The last pair hashed on the way through a node of height `h + 1`. */
  function LastInput<H>(hp: PairHash<H>, current: H, r: nat, s: seq<H>, x: H): Children<H> {
    var below := Walk(hp, current, Inside(r, |s|), s);
    if r < Pow2(|s|) then Children(below, x) else Children(x, below)
  }

  lemma WalkLastStep<H>(hp: PairHash<H>, current: H, r: nat, s: seq<H>, x: H)
    requires r < Pow2(|s| + 1)
    ensures Walk(hp, current, r, s + [x]) == Label(hp, LastInput(hp, current, r, s, x))
    ensures WalkInputs(hp, current, r, s + [x])
         == WalkInputs(hp, current, Inside(r, |s|), s) + [LastInput(hp, current, r, s, x)]
  {
    var p, below := Pow2(|s|), Inside(r, |s|);
    assert Shift(r, |s|) == if r < p then 0 else 1 by {
      ShiftDivides(r, |s|);
      DivUnique(r, p, if r < p then 0 else 1, below);
    }
    assert r % p == below % p by {
      DivUnique(r, p, if r < p then 0 else 1, below);
      DivUnique(below, p, 0, below);
    }
    WalkResidue(hp, current, r, below, s);
    WalkAppend(hp, current, r, s, [x]);
    WalkInputsAppend(hp, current, r, s, x);
  }

  /** From the label a walk has reached inside a child, one more sibling leads to the node above both. */
  lemma LastStepReaches<H>(hp: PairHash<H>, leaf: H, r: nat, s: seq<H>, reached: H, x: H)
    requires r < Pow2(|s| + 1) && Walk(hp, leaf, Inside(r, |s|), s) == reached
    ensures Walk(hp, leaf, r, s + [x]) == if r < Pow2(|s|) then hp(reached, x) else hp(x, reached)
  {
    WalkLastStep(hp, leaf, r, s, x);
  }

  /** The first leaf of the child that holds the `r`-th virtual leaf of the node `(lo, h)`. */
  function HoldingChild(n: nat, lo: nat, h: nat, r: nat): (c: nat)
    requires lo < n && h > 0
    ensures c < n
  {
    if r < Pow2(h - 1) then lo else RightStart(n, lo, h - 1)
  }

  /** The first leaf of its other child. */
  function OtherChild(n: nat, lo: nat, h: nat, r: nat): (c: nat)
    requires lo < n && h > 0
    ensures c < n
  {
    if r < Pow2(h - 1) then RightStart(n, lo, h - 1) else lo
  }

  /** A node, a virtual leaf and its path, seen from the child that holds the leaf. */
  lemma PathThroughChild<H>(hp: PairHash<H>, leaves: seq<H>, lo: nat, h: nat, r: nat)
    requires lo < |leaves| && h > 0 && r < Pow2(h)
    ensures var child, other := HoldingChild(|leaves|, lo, h, r), OtherChild(|leaves|, lo, h, r);
            var below := Inside(r, h - 1);
            && below < Pow2(h - 1)
            && Extension(leaves, lo, h)[r] == Extension(leaves, child, h - 1)[below]
            && Path(hp, leaves, lo, h, r) == Path(hp, leaves, child, h - 1, below) + [Node(hp, leaves, other, h - 1)]
            && var inner, x := Node(hp, leaves, child, h - 1), Node(hp, leaves, other, h - 1);
               Node(hp, leaves, lo, h) == if r < Pow2(h - 1) then hp(inner, x) else hp(x, inner)
  {
  }

  lemma ReachThroughChild<H>(hp: PairHash<H>, leaves: seq<H>, lo: nat, h: nat, r: nat)
    requires lo < |leaves| && h > 0 && r < Pow2(h) && Inside(r, h - 1) < Pow2(h - 1)
    requires var child, below := HoldingChild(|leaves|, lo, h, r), Inside(r, h - 1);
             Walk(hp, Extension(leaves, child, h - 1)[below], below, Path(hp, leaves, child, h - 1, below))
             == Node(hp, leaves, child, h - 1)
    ensures Walk(hp, Extension(leaves, lo, h)[r], r, Path(hp, leaves, lo, h, r)) == Node(hp, leaves, lo, h)
  {
    var child, other := HoldingChild(|leaves|, lo, h, r), OtherChild(|leaves|, lo, h, r);
    var leaf, s := Extension(leaves, child, h - 1)[Inside(r, h - 1)], Path(hp, leaves, child, h - 1, Inside(r, h - 1));
    PathThroughChild(hp, leaves, lo, h, r);
    LastStepReaches(hp, leaf, r, s, Node(hp, leaves, child, h - 1), Node(hp, leaves, other, h - 1));
  }

  /** Completeness: the honest siblings lead every virtual leaf up to its node. */
  lemma {:induction false} PathReachesNode<H>(hp: PairHash<H>, leaves: seq<H>, lo: nat, h: nat, r: nat)
    requires lo < |leaves| && r < Pow2(h)
    ensures Walk(hp, Extension(leaves, lo, h)[r], r, Path(hp, leaves, lo, h, r)) == Node(hp, leaves, lo, h)
    decreases h
  {
    if h > 0 {
      assert Inside(r, h - 1) < Pow2(h - 1);
      PathReachesNode(hp, leaves, HoldingChild(|leaves|, lo, h, r), h - 1, Inside(r, h - 1));
      ReachThroughChild(hp, leaves, lo, h, r);
    }
  }

  // ---------------------------------------------------------------- soundness with extraction

  /** Compare a walk with the tree from the top down and return the first pairs that differ. */
  function WalkCollision<H(==)>(hp: PairHash<H>, leaves: seq<H>, lo: nat, h: nat, r: nat, leaf: H, siblings: seq<H>)
    : (c: Option<(Children<H>, Children<H>)>)
    requires lo < |leaves| && r < Pow2(h) && |siblings| == h
    decreases h
  {
    if h == 0 then None
    else
      var right := RightStart(|leaves|, lo, h - 1);
      var below := siblings[..h - 1];
      var walked := LastInput(hp, leaf, r, below, siblings[h - 1]);
      var honest := Children(Node(hp, leaves, lo, h - 1), Node(hp, leaves, right, h - 1));
      if walked != honest then Some((walked, honest))
      else WalkCollision(hp, leaves, if r < Pow2(h - 1) then lo else right, h - 1, Inside(r, h - 1), leaf, below)
  }

  /** A walk that ends at the node started at its virtual leaf and used its true siblings, or the
      extractor's pairs, one from the walk and one from the tree, collide. */
  lemma {:induction false} WalkIsHonest<H>(hp: PairHash<H>, leaves: seq<H>, lo: nat, h: nat, r: nat, leaf: H,
                                           siblings: seq<H>)
    requires lo < |leaves| && r < Pow2(h) && |siblings| == h
    requires Walk(hp, leaf, r, siblings) == Node(hp, leaves, lo, h)
    ensures var c := WalkCollision(hp, leaves, lo, h, r, leaf, siblings);
            || (leaf == Extension(leaves, lo, h)[r] && siblings == Path(hp, leaves, lo, h, r))
            || (Collision(hp, c) && c.value.0 in WalkInputs(hp, leaf, r, siblings)
                && c.value.1 in NodeInputs(hp, leaves, lo, h))
    decreases h
  {
    if h > 0 {
      var right := RightStart(|leaves|, lo, h - 1);
      var below, x := siblings[..h - 1], siblings[h - 1];
      assert siblings == below + [x];
      WalkLastStep(hp, leaf, r, below, x);
      var walked := LastInput(hp, leaf, r, below, x);
      var honest := Children(Node(hp, leaves, lo, h - 1), Node(hp, leaves, right, h - 1));
      assert walked in WalkInputs(hp, leaf, r, siblings);
      if walked == honest {
        if r < Pow2(h - 1) {
          WalkIsHonest(hp, leaves, lo, h - 1, r, leaf, below);
        } else {
          WalkIsHonest(hp, leaves, right, h - 1, Inside(r, h - 1), leaf, below);
        }
      }
    }
  }

  // ---------------------------------------------------------------- one path under two indices

  /** At every height where the two indices steer differently the current label equals its sibling, so that the
      side it is hashed on does not matter. */
  predicate SidesAgree<H(==)>(hp: PairHash<H>, current: H, i: nat, j: nat, siblings: seq<H>)
    decreases |siblings|
  {
    siblings == [] ||
    ((i % 2 == j % 2 || current == siblings[0])
     && SidesAgree(hp, Label(hp, StepInput(current, i, siblings[0])), i / 2, j / 2, siblings[1..]))
  }

  /** The first inputs of two walks along one path that differ and still give one label. */
  function TwoWalkCollision<H(==)>(hp: PairHash<H>, x: H, i: nat, y: H, j: nat, siblings: seq<H>)
    : (c: Option<(Children<H>, Children<H>)>)
    decreases |siblings|
  {
    if siblings == [] then None
    else
      var p, q := StepInput(x, i, siblings[0]), StepInput(y, j, siblings[0]);
      if p != q && Label(hp, p) == Label(hp, q) then Some((p, q))
      else TwoWalkCollision(hp, Label(hp, p), i / 2, Label(hp, q), j / 2, siblings[1..])
  }

  lemma {:induction false} SidesAgreeWalks<H>(hp: PairHash<H>, current: H, i: nat, j: nat, siblings: seq<H>)
    requires SidesAgree(hp, current, i, j, siblings)
    ensures Walk(hp, current, i, siblings) == Walk(hp, current, j, siblings)
    decreases |siblings|
  {
    if siblings != [] {
      SidesAgreeWalks(hp, Label(hp, StepInput(current, i, siblings[0])), i / 2, j / 2, siblings[1..]);
    }
  }

  /** Two walks along one path that end alike started alike and never disagreed on a side that mattered, or the
      extracted inputs, one from each walk, collide. */
  lemma {:induction false} EqualWalksAgree<H>(hp: PairHash<H>, x: H, i: nat, y: H, j: nat, siblings: seq<H>)
    requires Walk(hp, x, i, siblings) == Walk(hp, y, j, siblings)
    ensures || (x == y && SidesAgree(hp, x, i, j, siblings))
            || Collision(hp, TwoWalkCollision(hp, x, i, y, j, siblings))
    decreases |siblings|
  {
    if siblings != [] {
      var p, q := StepInput(x, i, siblings[0]), StepInput(y, j, siblings[0]);
      EqualWalksAgree(hp, Label(hp, p), i / 2, Label(hp, q), j / 2, siblings[1..]);
    }
  }

  // ---------------------------------------------------------------- binding

  /** Compare two trees of one height from the top down; return the first pairs that differ. */
  function NodeCollision<H(==)>(hp: PairHash<H>, a: seq<H>, i: nat, b: seq<H>, j: nat, h: nat)
    : (c: Option<(Children<H>, Children<H>)>)
    requires i < |a| && j < |b|
    decreases h
  {
    if h == 0 then None
    else
      var i', j' := RightStart(|a|, i, h - 1), RightStart(|b|, j, h - 1);
      var p := Children(Node(hp, a, i, h - 1), Node(hp, a, i', h - 1));
      var q := Children(Node(hp, b, j, h - 1), Node(hp, b, j', h - 1));
      if p != q then Some((p, q))
      else if Extension(a, i, h - 1) != Extension(b, j, h - 1) then NodeCollision(hp, a, i, b, j, h - 1)
      else NodeCollision(hp, a, i', b, j', h - 1)
  }

  lemma EqualHalves<H>(a: seq<H>, i: nat, b: seq<H>, j: nat, h: nat)
    requires i < |a| && j < |b| && h > 0 && Extension(a, i, h - 1) == Extension(b, j, h - 1)
    requires Extension(a, RightStart(|a|, i, h - 1), h - 1) == Extension(b, RightStart(|b|, j, h - 1), h - 1)
    ensures Extension(a, i, h) == Extension(b, j, h)
  {
  }

  /** Equal labels of one height stand over equal virtual leaves, or the extractor's pairs collide. */
  lemma {:induction false} NodeBinds<H>(hp: PairHash<H>, a: seq<H>, i: nat, b: seq<H>, j: nat, h: nat)
    requires i < |a| && j < |b| && Node(hp, a, i, h) == Node(hp, b, j, h)
    ensures var c := NodeCollision(hp, a, i, b, j, h);
            || Extension(a, i, h) == Extension(b, j, h)
            || (Collision(hp, c) && c.value.0 in NodeInputs(hp, a, i, h) && c.value.1 in NodeInputs(hp, b, j, h))
    decreases h
  {
    if h > 0 {
      var i', j' := RightStart(|a|, i, h - 1), RightStart(|b|, j, h - 1);
      if Node(hp, a, i, h - 1) == Node(hp, b, j, h - 1) && Node(hp, a, i', h - 1) == Node(hp, b, j', h - 1) {
        NodeBinds(hp, a, i, b, j, h - 1);
        NodeBinds(hp, a, i', b, j', h - 1);
        if Extension(a, i, h - 1) == Extension(b, j, h - 1) && Extension(a, i', h - 1) == Extension(b, j', h - 1) {
          EqualHalves(a, i, b, j, h);
        }
      }
    }
  }

  // ---------------------------------------------------------------- one level up

  /** The `j`-th pair of a level; a lone last node is paired with itself. */
  function PairAt<H>(level: seq<H>, j: nat): Children<H>
    requires 2 * j < |level|
  {
    Children(level[2 * j], if 2 * j + 1 < |level| then level[2 * j + 1] else level[2 * j])
  }

  /** The labels one level up. */
  function Parents<H>(hp: PairHash<H>, level: seq<H>): (s: seq<H>)
    requires |level| > 0
    ensures |s| == (|level| + 1) / 2
  {
    seq((|level| + 1) / 2, j requires 0 <= j < (|level| + 1) / 2 => Label(hp, PairAt(level, j)))
  }

  /** A node over the parents is the node one higher over the level itself. */
  lemma {:induction false} NodeOverParents<H>(hp: PairHash<H>, leaves: seq<H>, lo: nat, h: nat)
    requires 2 * lo < |leaves|
    ensures Node(hp, Parents(hp, leaves), lo, h) == Node(hp, leaves, 2 * lo, h + 1)
    decreases h
  {
    var p := Parents(hp, leaves);
    if h > 0 {
      NodeOverParents(hp, leaves, lo, h - 1);
      NodeOverParents(hp, leaves, RightStart(|p|, lo, h - 1), h - 1);
      assert 2 * RightStart(|p|, lo, h - 1) == RightStart(|leaves|, 2 * lo, h);
    } else {
      assert p[lo] == Label(hp, PairAt(leaves, lo));
      assert RightStart(|leaves|, 2 * lo, 0) == if 2 * lo + 1 < |leaves| then 2 * lo + 1 else 2 * lo;
    }
  }

  /** The virtual leaves over the parents are the pairwise hashes of the virtual leaves below. */
  lemma {:induction false} ExtensionOverParents<H>(hp: PairHash<H>, leaves: seq<H>, lo: nat, h: nat, r: nat)
    requires 2 * lo < |leaves| && r < Pow2(h)
    ensures Extension(Parents(hp, leaves), lo, h)[r]
         == hp(Extension(leaves, 2 * lo, h + 1)[2 * r], Extension(leaves, 2 * lo, h + 1)[2 * r + 1])
    decreases h
  {
    var p := Parents(hp, leaves);
    if h > 0 {
      var right := RightStart(|p|, lo, h - 1);
      assert 2 * right == RightStart(|leaves|, 2 * lo, h);
      if r < Pow2(h - 1) {
        ExtensionOverParents(hp, leaves, lo, h - 1, r);
      } else {
        ExtensionOverParents(hp, leaves, right, h - 1, r - Pow2(h - 1));
      }
    } else {
      assert p[lo] == Label(hp, PairAt(leaves, lo));
      assert Extension(leaves, 2 * lo, 1) == [PairAt(leaves, lo).left] + [PairAt(leaves, lo).right];
    }
  }

  lemma RootOverParents<H>(hp: PairHash<H>, leaves: seq<H>)
    requires |leaves| > 1
    ensures Depth(leaves) == Depth(Parents(hp, leaves)) + 1
    ensures Root(hp, Parents(hp, leaves)) == Root(hp, leaves)
  {
    var h := Depth(Parents(hp, leaves));
    assert Depth(leaves) == h + 1 by {
      CeilLog2Halves(|leaves|);
    }
    NodeOverParents(hp, leaves, 0, h);
  }

  /** The first leaf of the sibling met at height `t` on the way to the `r`-th virtual leaf. */
  function SiblingStart(n: nat, lo: nat, h: nat, r: nat, t: nat): (s: nat)
    requires lo < n && r < Pow2(h) && t < h
    ensures s < n
    decreases h
  {
    var right := RightStart(n, lo, h - 1);
    if r < Pow2(h - 1) then
      if t == h - 1 then right else SiblingStart(n, lo, h - 1, r, t)
    else
      if t == h - 1 then lo else SiblingStart(n, right, h - 1, r - Pow2(h - 1), t)
  }

  lemma {:induction false} PathAt<H>(hp: PairHash<H>, leaves: seq<H>, lo: nat, h: nat, r: nat, t: nat)
    requires lo < |leaves| && r < Pow2(h) && t < h
    ensures Path(hp, leaves, lo, h, r)[t] == Node(hp, leaves, SiblingStart(|leaves|, lo, h, r, t), t)
    decreases h
  {
    if t < h - 1 {
      if r < Pow2(h - 1) {
        PathAt(hp, leaves, lo, h - 1, r, t);
      } else {
        PathAt(hp, leaves, RightStart(|leaves|, lo, h - 1), h - 1, r - Pow2(h - 1), t);
      }
    }
  }

  /** Sibling positions halve when the leaves are replaced by their parents. */
  lemma {:induction false} SiblingStartHalves(n: nat, lo: nat, h: nat, r: nat, half: nat, t: nat)
    requires 2 * lo < n && r < Pow2(h + 1) && 2 * half <= r <= 2 * half + 1 && t < h
    ensures half < Pow2(h)
    ensures SiblingStart(n, 2 * lo, h + 1, r, t + 1) == 2 * SiblingStart((n + 1) / 2, lo, h, half, t)
    decreases h
  {
    if t < h - 1 {
      if r < Pow2(h) {
        SiblingStartHalves(n, lo, h - 1, r, half, t);
      } else {
        SiblingStartHalves(n, RightStart((n + 1) / 2, lo, h - 1), h - 1, r - Pow2(h), half - Pow2(h - 1), t);
      }
    }
  }

  /** Where the neighbour of `i` lives: `i ^ 1`, or `i` itself at an odd end. */
  function Neighbour(n: nat, i: nat): nat {
    if i % 2 == 1 then i - 1 else if i + 1 < n then i + 1 else i
  }

  /** No two positions have the same neighbour. */
  lemma NeighboursApart(n: nat, i: nat, j: nat)
    requires i < n && j < n && i != j
    ensures Neighbour(n, i) < n && Neighbour(n, j) < n && Neighbour(n, i) != Neighbour(n, j)
  {
  }

  /** The lowest sibling of a real leaf is its neighbour. */
  lemma {:induction false} LowestSibling(n: nat, lo: nat, h: nat, r: nat)
    requires r < Pow2(h + 1) && 2 * lo + r < n
    ensures SiblingStart(n, 2 * lo, h + 1, r, 0) == Neighbour(n, 2 * lo + r)
    decreases h
  {
    if h > 0 {
      if r < Pow2(h) {
        LowestSibling(n, lo, h - 1, r);
      } else {
        LowestSibling(n, lo + Pow2(h - 1), h - 1, r - Pow2(h));
      }
    }
  }

  lemma LowestIsNeighbour<H>(hp: PairHash<H>, leaves: seq<H>, index: nat)
    requires |leaves| > 1 && index < |leaves|
    ensures Depth(leaves) > 0 && Siblings(hp, leaves, index)[0] == leaves[Neighbour(|leaves|, index)]
  {
    var n, h := |leaves|, Depth(leaves);
    assert h > 0 && index < Pow2(h) by {
      CeilLog2Bounds(n);
    }
    PathAt(hp, leaves, 0, h, index, 0);
    LowestSibling(n, 0, h - 1, index);
  }

  lemma SiblingOneUp<H>(hp: PairHash<H>, leaves: seq<H>, index: nat, t: nat)
    requires |leaves| > 1 && index < |leaves| && t < Depth(Parents(hp, leaves))
    ensures Depth(leaves) == Depth(Parents(hp, leaves)) + 1
    ensures Siblings(hp, leaves, index)[t + 1] == Siblings(hp, Parents(hp, leaves), index / 2)[t]
  {
    var n, p := |leaves|, Parents(hp, leaves);
    var h := Depth(p);
    assert Depth(leaves) == h + 1 && index < Pow2(h + 1) && index / 2 < Pow2(h) by {
      CeilLog2Bounds(n);
      CeilLog2Halves(n);
    }
    SiblingStartHalves(n, 0, h, index, index / 2, t);
    PathAt(hp, leaves, 0, h + 1, index, t + 1);
    PathAt(hp, p, 0, h, index / 2, t);
    NodeOverParents(hp, leaves, SiblingStart(|p|, 0, h, index / 2, t), t);
  }

  /** Peeling the honest siblings at the bottom leaves the honest siblings over the parents. */
  lemma SiblingsOverParents<H>(hp: PairHash<H>, leaves: seq<H>, index: nat)
    requires |leaves| > 1 && index < |leaves|
    ensures index / 2 < |Parents(hp, leaves)|
    ensures Siblings(hp, leaves, index)
         == [leaves[Neighbour(|leaves|, index)]] + Siblings(hp, Parents(hp, leaves), index / 2)
  {
    var s, s' := Siblings(hp, leaves, index), Siblings(hp, Parents(hp, leaves), index / 2);
    assert |s| == |s'| + 1 by {
      CeilLog2Halves(|leaves|);
    }
    LowestIsNeighbour(hp, leaves, index);
    forall t | 0 <= t < |s'| ensures s[t + 1] == s'[t] {
      SiblingOneUp(hp, leaves, index, t);
    }
    assert s == [s[0]] + s';
  }

  /** One honest step turns a leaf into its parent. */
  lemma StepToParent<H>(hp: PairHash<H>, leaves: seq<H>, i: nat)
    requires |leaves| > 1 && i < |leaves|
    ensures Label(hp, StepInput(leaves[i], i, leaves[Neighbour(|leaves|, i)])) == Parents(hp, leaves)[i / 2]
  {
    assert StepInput(leaves[i], i, leaves[Neighbour(|leaves|, i)]) == PairAt(leaves, i / 2);
  }

  // ---------------------------------------------------------------- the rules spelled out

  /** `next` is one round of hashing over `level`: adjacent pairs in order, a lone last node with itself. */
  predicate IsRound<H(==)>(hp: PairHash<H>, level: seq<H>, next: seq<H>) {
    && |next| == (|level| + 1) / 2
    && forall j :: 0 <= j < |next| ==>
         next[j] == if 2 * j + 1 < |level| then hp(level[2 * j], level[2 * j + 1]) else hp(level[2 * j], level[2 * j])
  }

  lemma RoundIsParents<H>(hp: PairHash<H>, level: seq<H>, next: seq<H>)
    requires |level| > 0 && IsRound(hp, level, next)
    ensures next == Parents(hp, level)
  {
    forall j | 0 <= j < |next| ensures next[j] == Parents(hp, level)[j] {
      assert Parents(hp, level)[j] == Label(hp, PairAt(level, j));
    }
  }

  /** The root is what any list of rounds ends in. */
  lemma RootFolds<H>(hp: PairHash<H>, leaves: seq<H>, next: seq<H>)
    requires |leaves| > 0
    ensures |leaves| == 1 ==> Root(hp, leaves) == leaves[0]
    ensures |leaves| > 1 && IsRound(hp, leaves, next) ==> Root(hp, leaves) == Root(hp, next)
  {
    if |leaves| > 1 && IsRound(hp, leaves, next) {
      RoundIsParents(hp, leaves, next);
      RootOverParents(hp, leaves);
    }
  }

  /** The honest siblings, round by round: the node at `index ^ 1` of the padded level, then those of the next. */
  lemma SiblingsFold<H>(hp: PairHash<H>, leaves: seq<H>, next: seq<H>, index: nat)
    requires index < |leaves|
    ensures |leaves| == 1 ==> Siblings(hp, leaves, index) == []
    ensures |leaves| > 1 && IsRound(hp, leaves, next) ==>
              var sibling := if index % 2 == 1 then leaves[index - 1]
                             else if index + 1 < |leaves| then leaves[index + 1] else leaves[index];
              Siblings(hp, leaves, index) == [sibling] + Siblings(hp, next, index / 2)
  {
    if |leaves| > 1 && IsRound(hp, leaves, next) {
      RoundIsParents(hp, leaves, next);
      SiblingsOverParents(hp, leaves, index);
    }
  }

  /** A walk hashes the current label to the left of its sibling at an even index and to the right at an odd one. */
  lemma WalkSteps<H>(hp: PairHash<H>, current: H, idx: nat, siblings: seq<H>)
    ensures Walk(hp, current, idx, siblings)
         == if siblings == [] then current
            else if idx % 2 == 0 then Walk(hp, hp(current, siblings[0]), idx / 2, siblings[1..])
            else Walk(hp, hp(siblings[0], current), idx / 2, siblings[1..])
  {
  }
}
