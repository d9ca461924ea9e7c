/** The Merkle loops: the root and the proof folded level by level, and the walk of the verifier. */
module Merkle {
  import opened Wrappers
  import opened MerkleTree

  datatype MerkleError = EmptyTree | IndexOutOfRange(index: nat, leafCount: nat) | RootMismatch

  /** The level once its last node has been pushed again if the count is odd. */
  function Padded<H>(level: seq<H>): seq<H>
    requires |level| > 0
  {
    if |level| % 2 == 1 then level + [level[|level| - 1]] else level
  }

  /** One round of the folding loops: hash the adjacent pairs of a padded level. */
  method FoldPairs<H>(hp: PairHash<H>, ghost level: seq<H>, padded: seq<H>) returns (next: seq<H>)
    requires |level| > 0 && padded == Padded(level)
    ensures next == Parents(hp, level)
  {
    next := [];
    for i := 0 to |padded| / 2
      invariant |next| == i
      invariant forall j :: 0 <= j < i ==> next[j] == Parents(hp, level)[j]
    {
      assert Children(padded[2 * i], padded[2 * i + 1]) == PairAt(level, i);
      next := next + [hp(padded[2 * i], padded[2 * i + 1])];
    }
  }

  method MerkleRoot<H>(hp: PairHash<H>, leaves: seq<H>) returns (r: Result<H, MerkleError>)
    ensures leaves == [] ==> r == Err(EmptyTree)
    ensures leaves != [] ==> r == Ok(Root(hp, leaves))
  {
    if |leaves| == 0 {
      return Err(EmptyTree);
    }
    var level := leaves;
    while |level| > 1
      invariant |level| > 0 && Root(hp, level) == Root(hp, leaves)
      decreases |level|
    {
      RootOverParents(hp, level);
      var padded := level;
      if |padded| % 2 == 1 {
        padded := padded + [padded[|padded| - 1]];
      }
      level := FoldPairs(hp, level, padded);
    }
    return Ok(level[0]);
  }

  datatype MerkleProof<H(==)> = MerkleProof(leafIndex: nat, siblings: seq<H>) {

    method ReconstructRoot(hp: PairHash<H>, leaf: H) returns (current: H)
      ensures current == Walk(hp, leaf, leafIndex, siblings)
    {
      current := leaf;
      var idx: nat := leafIndex;
      for i := 0 to |siblings|
        invariant Walk(hp, leaf, leafIndex, siblings) == Walk(hp, current, idx, siblings[i..])
      {
        assert siblings[i..][1..] == siblings[i + 1..];
        current := if idx % 2 == 0 then hp(current, siblings[i]) else hp(siblings[i], current);
        idx := idx / 2;
      }
    }

    method Verify(hp: PairHash<H>, leaf: H, expectedRoot: H) returns (r: Result<Unit, MerkleError>)
      ensures r == if Walk(hp, leaf, leafIndex, siblings) == expectedRoot then Ok(Unit) else Err(RootMismatch)
    {
      var reconstructed := ReconstructRoot(hp, leaf);
      return if reconstructed == expectedRoot then Ok(Unit) else Err(RootMismatch);
    }
  }

  /** The sibling index of the loop finds the neighbour in the padded level. */
  lemma PaddedSibling<H>(level: seq<H>, idx: nat)
    requires idx < |level|
    ensures var j := if idx % 2 == 0 then idx + 1 else idx - 1;
            0 <= j < |Padded(level)| && Padded(level)[j] == level[Neighbour(|level|, idx)]
  {
  }

  /** One round of collecting: the sibling found now and the honest siblings over the next level. */
  lemma CollectStep<H>(hp: PairHash<H>, level: seq<H>, idx: nat, collected: seq<H>)
    requires |level| > 1 && idx < |level|
    ensures idx / 2 < |Parents(hp, level)|
    ensures collected + [level[Neighbour(|level|, idx)]] + Siblings(hp, Parents(hp, level), idx / 2)
         == collected + Siblings(hp, level, idx)
  {
    var x, rest := level[Neighbour(|level|, idx)], Siblings(hp, Parents(hp, level), idx / 2);
    SiblingsOverParents(hp, level, idx);
    assert collected + [x] + rest == collected + ([x] + rest);
  }

  method GenerateProof<H(==)>(hp: PairHash<H>, leaves: seq<H>, index: nat)
    returns (r: Result<MerkleProof<H>, MerkleError>)
    ensures leaves == [] ==> r == Err(EmptyTree)
    ensures leaves != [] && index >= |leaves| ==> r == Err(IndexOutOfRange(index, |leaves|))
    ensures index < |leaves| ==> r == Ok(MerkleProof(index, Siblings(hp, leaves, index)))
  {
    if |leaves| == 0 {
      return Err(EmptyTree);
    }
    if index >= |leaves| {
      return Err(IndexOutOfRange(index, |leaves|));
    }
    var siblings: seq<H> := [];
    var level := leaves;
    var idx: nat := index;
    while |level| > 1
      invariant idx < |level|
      invariant siblings + Siblings(hp, level, idx) == Siblings(hp, leaves, index)
      decreases |level|
    {
      CollectStep(hp, level, idx, siblings);
      PaddedSibling(level, idx);
      var padded := level;
      if |padded| % 2 == 1 {
        padded := padded + [padded[|padded| - 1]];
      }
      var siblingIdx := if idx % 2 == 0 then idx + 1 else idx - 1;
      siblings := siblings + [padded[siblingIdx]];
      level := FoldPairs(hp, level, padded);
      idx := idx / 2;
    }
    SiblingsFold(hp, level, [], idx);
    assert siblings + [] == siblings;
    return Ok(MerkleProof(index, siblings));
  }
}
