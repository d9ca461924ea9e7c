/** The BSV boundary: machine words, bytes, 32-byte hashes and the double-SHA256 digest.

    The digest is a parameter of everything above it: a total function from byte strings to hashes about
    which nothing is assumed. */
module Bsv {
  import opened Wrappers
  import opened MerkleTree

  newtype byte = x: int | 0 <= x < 256

  type u32 = x: nat | x < 0x1_0000_0000

  type u64 = x: nat | x < 0x1_0000_0000_0000_0000

  type Bytes = seq<byte>

  type Bytes32 = b: Bytes | |b| == 32 witness seq(32, _ => 0)

  /** A 32-byte digest in internal byte order. */
  datatype Hash = Hash(bytes: Bytes32)

  type Digest = Bytes -> Hash

  /** The 64-byte block of two hashes. */
  function Join(left: Hash, right: Hash): Bytes {
    left.bytes + right.bytes
  }

  /** `hash_pair`: the digest of the 64-byte block. */
  function PairHashOf(d: Digest): PairHash<Hash> {
    (left: Hash, right: Hash) => d(Join(left, right))
  }

  /** Two different byte strings with one digest. */
  predicate DigestCollision(d: Digest, x: Bytes, y: Bytes) {
    x != y && d(x) == d(y)
  }

  /** The 64-byte blocks of two extracted pairs are a collision of the digest. */
  predicate BlocksCollide(d: Digest, c: Option<(Children<Hash>, Children<Hash>)>) {
    c.Some? && DigestCollision(d, Join(c.value.0.left, c.value.0.right), Join(c.value.1.left, c.value.1.right))
  }

  lemma PairCollisionIsDigestCollision(d: Digest, c: Option<(Children<Hash>, Children<Hash>)>)
    requires Collision(PairHashOf(d), c)
    ensures BlocksCollide(d, c)
  {
    JoinSplits(c.value.0.left, c.value.0.right);
    JoinSplits(c.value.1.left, c.value.1.right);
  }

  /** A 64-byte block determines its two halves. */
  lemma JoinSplits(left: Hash, right: Hash)
    ensures Join(left, right)[..32] == left.bytes && Join(left, right)[32..] == right.bytes
  {
  }
}
