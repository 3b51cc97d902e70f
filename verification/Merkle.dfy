/**
 * qvault/transparency/merkle.py: the Merkle tree over leaf hashes, the recursive proof generators,
 * and the iterative verifiers that share nothing with them.
 *
 * SHA-256 is any function from byte strings to 32 bytes. Nothing here assumes it is injective: the
 * theorems that need it say which finite set of inputs must hold no collision.
 */
module Merkle {
  import opened Bits
  import opened ByteStrings
  import opened Wrappers

  datatype Hasher = Hasher(sha: Bytes -> Digest)

  const LEAF_PREFIX: Bytes := [0]
  const NODE_PREFIX: Bytes := [1]

  /** What is hashed for a leaf. */
  function LeafInput(data: Bytes): Bytes {
    LEAF_PREFIX + data
  }

  function LeafHash(h: Hasher, data: Bytes): Digest {
    h.sha(LeafInput(data))
  }

  /** What is hashed for an interior node. */
  function NodeInput(left: Bytes, right: Bytes): Bytes {
    NODE_PREFIX + left + right
  }

  function HashChildren(h: Hasher, left: Bytes, right: Bytes): Digest {
    h.sha(NodeInput(left, right))
  }

  // ---------------------------------------------------------------- tree and generators

  /** The largest power of two strictly below n. */
  function Split(n: nat): (k: nat)
    requires n >= 2
    ensures 1 <= k < n <= 2 * k
  {
    BitLengthBounds(n - 1);
    Pow2(BitLength(n - 1) - 1)
  }

  function Root(h: Hasher, leaves: seq<Digest>, lo: nat, hi: nat): Digest
    requires lo <= hi <= |leaves|
    decreases hi - lo
  {
    var n := hi - lo;
    if n == 0 then h.sha([])
    else if n == 1 then leaves[lo]
    else
      var k := Split(n);
      HashChildren(h, Root(h, leaves, lo, lo + k), Root(h, leaves, lo + k, hi))
  }

  function MerkleRoot(h: Hasher, leaves: seq<Digest>): Digest {
    Root(h, leaves, 0, |leaves|)
  }

  function Path(h: Hasher, leaves: seq<Digest>, lo: nat, hi: nat, m: nat): seq<Digest>
    requires lo < hi <= |leaves| && m < hi - lo
    decreases hi - lo
  {
    var n := hi - lo;
    if n == 1 then []
    else
      var k := Split(n);
      if m < k then Path(h, leaves, lo, lo + k, m) + [Root(h, leaves, lo + k, hi)]
      else Path(h, leaves, lo + k, hi, m - k) + [Root(h, leaves, lo, lo + k)]
  }

  /** None is the generator's IndexError. */
  function InclusionProof(h: Hasher, leaves: seq<Digest>, index: int): Option<seq<Digest>> {
    if 0 <= index < |leaves| then Some(Path(h, leaves, 0, |leaves|, index)) else None
  }

  function Subproof(h: Hasher, leaves: seq<Digest>, lo: nat, hi: nat, m: nat, complete: bool): seq<Digest>
    requires lo < hi <= |leaves| && 1 <= m <= hi - lo
    decreases hi - lo
  {
    var n := hi - lo;
    if m == n then (if complete then [] else [Root(h, leaves, lo, hi)])
    else
      var k := Split(n);
      if m <= k then Subproof(h, leaves, lo, lo + k, m, complete) + [Root(h, leaves, lo + k, hi)]
      else Subproof(h, leaves, lo + k, hi, m - k, false) + [Root(h, leaves, lo, lo + k)]
  }

  /** None is the generator's ValueError. */
  function ConsistencyProof(h: Hasher, leaves: seq<Digest>, oldSize: int): Option<seq<Digest>> {
    if !(0 <= oldSize <= |leaves|) then None
    else if oldSize == 0 || oldSize == |leaves| then Some([])
    else Some(Subproof(h, leaves, 0, |leaves|, oldSize, true))
  }

  // ---------------------------------------------------------------- iterative verifiers

  predicate IsPowerOfTwo(n: int) {
    n > 0 && And(n, n - 1) == 0
  }

  /** The inner loop of both verifiers: climb while the node has no left sibling. */
  function Climb(fn: nat, sn: nat): (nat, nat) {
    if fn != 0 && fn % 2 == 0 then Climb(fn / 2, sn / 2) else (fn, sn)
  }

  /** The first loop of the consistency verifier: climb out of the complete right edge. */
  function Strip(fn: nat, sn: nat): (nat, nat) {
    if fn % 2 == 1 then Strip(fn / 2, sn / 2) else (fn, sn)
  }

  /** The verifiers' accumulators, and every input they have put through SHA-256 so far. */
  datatype Sums = Sums(older: Bytes, newer: Bytes, hashed: set<Bytes>)

  function Start(seed: Bytes): Sums {
    Sums(seed, seed, {})
  }

  /**
   * What both verifiers' main loop computes from position (fn, sn): the two sums when the proof
   * ends exactly at the root, None when it is too short or too long. The inclusion verifier carries
   * only `newer`.
   */
  function Walk(h: Hasher, fn: nat, sn: nat, sums: Sums, rest: seq<Bytes>): Option<Sums>
    decreases |rest|
  {
    if rest == [] then (if sn == 0 then Some(sums) else None)
    else if sn == 0 then None
    else if fn % 2 == 1 || fn == sn then
      var (fn', sn') := Climb(fn, sn);
      Walk(h, fn' / 2, sn' / 2, LeftOf(h, rest[0], sums), rest[1..])
    else
      Walk(h, fn / 2, sn / 2, RightOf(h, sums, rest[0]), rest[1..])
  }

  /** A sibling on the left is under both roots. */
  function LeftOf(h: Hasher, sibling: Bytes, sums: Sums): Sums {
    Sums(HashChildren(h, sibling, sums.older), HashChildren(h, sibling, sums.newer),
         sums.hashed + {NodeInput(sibling, sums.older), NodeInput(sibling, sums.newer)})
  }

  /** A sibling on the right is under the new root only. */
  function RightOf(h: Hasher, sums: Sums, sibling: Bytes): Sums {
    Sums(sums.older, HashChildren(h, sums.newer, sibling), sums.hashed + {NodeInput(sums.newer, sibling)})
  }

  /** Where the walk starts from, and the proof nodes left to consume. */
  function Seed(oldSize: nat, oldRoot: Bytes, proof: seq<Bytes>): Bytes
    requires IsPowerOfTwo(oldSize) || proof != []
  {
    if IsPowerOfTwo(oldSize) then oldRoot else proof[0]
  }

  function Rest(oldSize: nat, proof: seq<Bytes>): seq<Bytes>
    requires IsPowerOfTwo(oldSize) || proof != []
  {
    if IsPowerOfTwo(oldSize) then proof else proof[1..]
  }

  /** The walk `verify_consistency` makes between two different sizes; None when the proof does not fit them. */
  function Reached(h: Hasher, oldSize: nat, oldRoot: Bytes, newSize: nat, proof: seq<Bytes>): Option<Sums>
    requires 0 < oldSize < newSize
  {
    if !IsPowerOfTwo(oldSize) && proof == [] then None
    else
      var (fn, sn) := Strip(oldSize - 1, newSize - 1);
      Walk(h, fn, sn, Start(Seed(oldSize, oldRoot, proof)), Rest(oldSize, proof))
  }

  /** What `verify_consistency` answers. */
  predicate Consistent(h: Hasher, oldSize: int, oldRoot: Bytes, newSize: int, newRoot: Bytes, proof: seq<Bytes>) {
    if oldSize < 0 || newSize < 0 || oldSize > newSize then false
    else if oldSize == newSize then proof == [] && oldRoot == newRoot
    else if oldSize == 0 then proof == []
    else if !IsPowerOfTwo(oldSize) && proof == [] then false
    else if Rest(oldSize, proof) == [] then false
    else
      var reached := Reached(h, oldSize, oldRoot, newSize, proof);
      reached.Some? && reached.value.older == oldRoot && reached.value.newer == newRoot
  }

  /** `verify_consistency` */
  method VerifyConsistency(h: Hasher, oldSize: int, oldRoot: Bytes, newSize: int, newRoot: Bytes, proof: seq<Bytes>)
    returns (ok: bool)
    ensures ok == Consistent(h, oldSize, oldRoot, newSize, newRoot, proof)
  {
    if oldSize < 0 || newSize < 0 || oldSize > newSize { return false; }
    if oldSize == newSize { return proof == [] && oldRoot == newRoot; }
    if oldSize == 0 { return proof == []; }

    var seed, rest := oldRoot, proof;
    if !IsPowerOfTwo(oldSize) {
      if proof == [] { return false; }
      seed, rest := proof[0], proof[1..];
    }
    if rest == [] { return false; }

    var fn: nat, sn: nat := oldSize - 1, newSize - 1;
    while fn % 2 == 1
      invariant Strip(fn, sn) == Strip(oldSize - 1, newSize - 1)
      decreases fn
    {
      fn, sn := fn / 2, sn / 2;
    }

    ghost var expected := Walk(h, fn, sn, Start(seed), rest);
    ghost var hashed: set<Bytes> := {};
    var oldComputed, newComputed := seed, seed;
    var i := 0;
    while i < |rest|
      invariant 0 <= i <= |rest|
      invariant Walk(h, fn, sn, Sums(oldComputed, newComputed, hashed), rest[i..]) == expected
    {
      var sibling := rest[i];
      assert rest[i..][1..] == rest[i + 1..];
      if sn == 0 { return false; }
      if fn % 2 == 1 || fn == sn {
        hashed := hashed + {NodeInput(sibling, oldComputed), NodeInput(sibling, newComputed)};
        oldComputed := HashChildren(h, sibling, oldComputed);
        newComputed := HashChildren(h, sibling, newComputed);
        ghost var top := Climb(fn, sn);
        while fn != 0 && fn % 2 == 0
          invariant Climb(fn, sn) == top
        {
          fn, sn := fn / 2, sn / 2;
        }
      } else {
        hashed := hashed + {NodeInput(newComputed, sibling)};
        newComputed := HashChildren(h, newComputed, sibling);
      }
      fn, sn := fn / 2, sn / 2;
      i := i + 1;
    }
    ok := sn == 0 && oldComputed == oldRoot && newComputed == newRoot;
  }

  /** What `verify_inclusion` answers. */
  predicate Included(h: Hasher, leaf: Bytes, index: int, treeSize: int, proof: seq<Bytes>, root: Bytes) {
    if index < 0 || treeSize < 0 || index >= treeSize then false
    else
      var walked := Walk(h, index, treeSize - 1, Start(leaf), proof);
      walked.Some? && walked.value.newer == root
  }

  /** `verify_inclusion` */
  method VerifyInclusion(h: Hasher, leaf: Bytes, index: int, treeSize: int, proof: seq<Bytes>, root: Bytes)
    returns (ok: bool)
    ensures ok == Included(h, leaf, index, treeSize, proof, root)
  {
    if index < 0 || treeSize < 0 || index >= treeSize { return false; }
    var fn: nat, sn: nat := index, treeSize - 1;
    var computed := leaf;
    ghost var sums := Start(leaf);
    ghost var expected := Walk(h, fn, sn, sums, proof);
    var i := 0;
    while i < |proof|
      invariant 0 <= i <= |proof|
      invariant sums.newer == computed
      invariant Walk(h, fn, sn, sums, proof[i..]) == expected
    {
      var sibling := proof[i];
      assert proof[i..][1..] == proof[i + 1..];
      if sn == 0 { return false; }
      if fn % 2 == 1 || fn == sn {
        sums := LeftOf(h, sibling, sums);
        computed := HashChildren(h, sibling, computed);
        ghost var top := Climb(fn, sn);
        while fn != 0 && fn % 2 == 0
          invariant Climb(fn, sn) == top
        {
          fn, sn := fn / 2, sn / 2;
        }
      } else {
        sums := RightOf(h, sums, sibling);
        computed := HashChildren(h, computed, sibling);
      }
      fn, sn := fn / 2, sn / 2;
      i := i + 1;
    }
    ok := sn == 0 && computed == root;
  }
}
