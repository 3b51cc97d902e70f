/**
 * What the iterative verifiers of merkle.py accept, for every tree and every proof: exactly the
 * proofs the recursive generators make, about exactly the data they were made from.
 *
 * The bit-shifting walk is first shown equal to a fold down the recursive tree (`WalkIsFold`), and
 * the fold is then compared with the tree node by node (`FoldSound`, `FoldComplete`).
 */
module MerkleProofs {
  import opened Bits
  import opened ByteStrings
  import opened Merkle
  import opened Wrappers

  /** No two different inputs of the set have the same hash. */
  ghost predicate NoCollision(h: Hasher, inputs: set<Bytes>) {
    forall x, y :: x in inputs && y in inputs && h.sha(x) == h.sha(y) ==> x == y
  }

  /** Every interior node's input in the window [lo, hi). */
  ghost function TreeInputs(h: Hasher, leaves: seq<Digest>, lo: nat, hi: nat): set<Bytes>
    requires lo <= hi <= |leaves|
    decreases hi - lo
  {
    var n := hi - lo;
    if n <= 1 then {}
    else
      var k := Split(n);
      TreeInputs(h, leaves, lo, lo + k) + TreeInputs(h, leaves, lo + k, hi)
      + {NodeInput(Root(h, leaves, lo, lo + k), Root(h, leaves, lo + k, hi))}
  }

  /** Node inputs split only one way once the right half has the length of a digest. */
  lemma NodeInjective(h: Hasher, s: set<Bytes>, a: Bytes, b: Bytes, left: Digest, right: Digest)
    requires NoCollision(h, s)
    requires NodeInput(a, b) in s && NodeInput(left, right) in s
    requires HashChildren(h, a, b) == HashChildren(h, left, right)
    requires |a| == 32 || |b| == 32
    ensures a == left && b == right
  {
    var x, y := NodeInput(a, b), NodeInput(left, right);
    assert x == y;
    assert |x| == 1 + |a| + |b| && |y| == 65;
    assert a == x[1..1 + |a|] && left == y[1..33];
    assert b == x[1 + |a|..] && right == y[33..];
  }

  // ---------------------------------------------------------------- the split of a tree

  lemma SplitIsPower(n: nat) returns (p: nat)
    requires n >= 2
    ensures Split(n) == Pow2(p)
  {
    BitLengthBounds(n - 1);
    p := BitLength(n - 1) - 1;
  }

  lemma SplitUnique(n: nat, p: nat)
    requires n >= 2 && Pow2(p) < n <= 2 * Pow2(p)
    ensures Split(n) == Pow2(p)
  {
    var q := SplitIsPower(n);
    if p < q { Pow2Monotone(p, q); }
    if q < p { Pow2Monotone(q, p); }
  }

  /** A prefix longer than the left half shares that left half. */
  lemma PrefixSplit(n: nat, m: nat)
    requires n >= 2 && Split(n) < m <= n
    ensures Split(m) == Split(n)
  {
    var p := SplitIsPower(n);
    SplitUnique(m, p);
  }

  // ---------------------------------------------------------------- the recursive fold

  /** The walk's answer once the topmost proof node joins a finished half. */
  ghost function Topped(h: Hasher, top: Bytes, half: Option<Sums>): (r: Option<Sums>)
    ensures r.Some? <==> half.Some?
  {
    match half case None => None case Some(s) => Some(LeftOf(h, top, s))
  }

  ghost function Extended(h: Hasher, half: Option<Sums>, top: Bytes): (r: Option<Sums>)
    ensures r.Some? <==> half.Some?
  {
    match half case None => None case Some(s) => Some(RightOf(h, s, top))
  }

  /** Both roots of a consistency proof, rebuilt down the recursive tree; the last node is the topmost. */
  ghost function Fold(h: Hasher, m: nat, n: nat, seed: Bytes, rest: seq<Bytes>): (r: Option<Sums>)
    requires 1 <= m <= n
    ensures r.Some? && |seed| == 32 ==> |r.value.newer| == 32
    decreases n
  {
    if m == n then (if rest == [] then Some(Start(seed)) else None)
    else if rest == [] then None
    else
      var k, top, below := Split(n), rest[|rest| - 1], rest[..|rest| - 1];
      if m <= k then
        Extended(h, Fold(h, m, k, seed, below), top)
      else
        Topped(h, top, Fold(h, m - k, n - k, seed, below))
  }

  /** The root of an inclusion proof, rebuilt down the recursive tree. */
  ghost function PathFold(h: Hasher, index: nat, n: nat, leaf: Bytes, rest: seq<Bytes>): (r: Option<Sums>)
    requires index < n
    ensures r.Some? && |leaf| == 32 ==> |r.value.newer| == 32
    decreases n
  {
    if n == 1 then (if rest == [] then Some(Start(leaf)) else None)
    else if rest == [] then None
    else
      var k, top, below := Split(n), rest[|rest| - 1], rest[..|rest| - 1];
      if index < k then
        Extended(h, PathFold(h, index, k, leaf, below), top)
      else
        Topped(h, top, PathFold(h, index - k, n - k, leaf, below))
  }

  // ---------------------------------------------------------------- the walk follows the fold

  /** Below the left half of a tree the walk is the walk of that complete half, then one right sibling. */
  lemma {:induction false} WalkLeftHalf(h: Hasher, j: nat, fn: nat, sn: nat, sums: Sums, rest: seq<Bytes>, top: Bytes)
    requires fn < Pow2(j) <= sn < 2 * Pow2(j)
    ensures Walk(h, fn, sn, sums, rest + [top]) == Extended(h, Walk(h, fn, Pow2(j) - 1, sums, rest), top)
    decreases j
  {
    var all := rest + [top];
    assert all[1..] == if rest == [] then [] else rest[1..] + [top];
    if j > 0 {
      assert (Pow2(j) - 1) / 2 == Pow2(j - 1) - 1;
      if rest != [] {
        var next := if fn % 2 == 1 then LeftOf(h, rest[0], sums) else RightOf(h, sums, rest[0]);
        WalkLeftHalf(h, j - 1, fn / 2, sn / 2, next, rest[1..], top);
      }
    }
  }

  /** Climbing ignores the bit that says which half we are in, as long as a lower bit is set. */
  lemma {:induction false} ClimbRightHalf(j: nat, f: nat, s: nat) returns (i: nat)
    requires 0 < f <= s < Pow2(j)
    ensures 0 < i && Climb(f, s).0 <= Climb(f, s).1 < Pow2(i) && Climb(f, s).0 % 2 == 1
    ensures Climb(Pow2(j) + f, Pow2(j) + s) == (Pow2(i) + Climb(f, s).0, Pow2(i) + Climb(f, s).1)
    decreases j
  {
    if f % 2 == 0 {
      i := ClimbRightHalf(j - 1, f / 2, s / 2);
      assert (Pow2(j) + f) / 2 == Pow2(j - 1) + f / 2 && (Pow2(j) + s) / 2 == Pow2(j - 1) + s / 2;
    } else {
      i := j;
    }
  }

  lemma {:induction false} ClimbPower(j: nat)
    ensures Climb(Pow2(j), Pow2(j)) == (1, 1)
  {
    if j > 0 { ClimbPower(j - 1); }
  }

  lemma HalfUnderTop(j: nat, f: nat)
    requires j > 0
    ensures (Pow2(j) + f) / 2 == Pow2(j - 1) + f / 2
    ensures (Pow2(j) + f) % 2 == f % 2
  {
    assert Pow2(j) == 2 * Pow2(j - 1);
  }

  /** The position one node on, and the sums with that node. */
  ghost function Next(fn: nat, sn: nat): (nat, nat) {
    if fn % 2 == 1 || fn == sn then (Climb(fn, sn).0 / 2, Climb(fn, sn).1 / 2) else (fn / 2, sn / 2)
  }

  ghost function Joined(h: Hasher, fn: nat, sn: nat, sums: Sums, node: Bytes): Sums {
    if fn % 2 == 1 || fn == sn then LeftOf(h, node, sums) else RightOf(h, sums, node)
  }

  lemma WalkStep(h: Hasher, fn: nat, sn: nat, sums: Sums, node: Bytes, rest: seq<Bytes>)
    ensures Walk(h, fn, sn, sums, [node] + rest) ==
            if sn == 0 then None
            else Walk(h, Next(fn, sn).0, Next(fn, sn).1, Joined(h, fn, sn, sums, node), rest)
  {
    assert ([node] + rest)[1..] == rest;
  }

  /** One node moves a tree and its right half to matching positions. */
  lemma NextRightHalf(j: nat, f: nat, s: nat) returns (i: nat)
    requires f <= s < Pow2(j) && s > 0
    ensures Next(f, s).0 <= Next(f, s).1 < Pow2(i)
    ensures Next(Pow2(j) + f, Pow2(j) + s) == (Pow2(i) + Next(f, s).0, Pow2(i) + Next(f, s).1)
    ensures (Pow2(j) + f) % 2 == f % 2
  {
    assert j > 0;
    hide Climb, Pow2;
    HalfUnderTop(j, f);
    HalfUnderTop(j, s);
    if f % 2 == 1 || f == s {
      var c := ClimbRightHalf(j, f, s);
      HalfUnderTop(c, Climb(f, s).0);
      HalfUnderTop(c, Climb(f, s).1);
      i := c - 1;
    } else {
      i := j - 1;
    }
  }

  /** A right half of one node is done: only its left sibling is missing. */
  lemma WalkRightDone(h: Hasher, j: nat, sums: Sums, rest: seq<Bytes>, top: Bytes)
    ensures Walk(h, Pow2(j), Pow2(j), sums, rest + [top]) == Topped(h, top, Walk(h, 0, 0, sums, rest))
  {
    ClimbPower(j);
    if rest == [] {
      WalkStep(h, Pow2(j), Pow2(j), sums, top, []);
      assert rest + [top] == [top] + [];
    } else {
      WalkStep(h, Pow2(j), Pow2(j), sums, rest[0], rest[1..] + [top]);
      assert rest + [top] == [rest[0]] + (rest[1..] + [top]);
    }
  }

  /** A proof too short for the right half is too short for the tree. */
  lemma WalkRightShort(h: Hasher, j: nat, f: nat, s: nat, sums: Sums, top: Bytes)
    requires f <= s < Pow2(j) && s > 0
    ensures Walk(h, Pow2(j) + f, Pow2(j) + s, sums, [top]) == None
    ensures Walk(h, f, s, sums, []) == None
  {
    assert [top] == [top] + [];
    WalkStep(h, Pow2(j) + f, Pow2(j) + s, sums, top, []);
    var i := NextRightHalf(j, f, s);
  }

  /** Below the right half the walk is the walk of that half, then one left sibling. */
  lemma {:induction false} WalkRightHalf(h: Hasher, j: nat, f: nat, s: nat, sums: Sums, rest: seq<Bytes>, top: Bytes)
    requires f <= s < Pow2(j)
    ensures Walk(h, Pow2(j) + f, Pow2(j) + s, sums, rest + [top]) == Topped(h, top, Walk(h, f, s, sums, rest))
    decreases |rest|
  {
    hide Walk, Climb, Pow2;
    if s == 0 {
      WalkRightDone(h, j, sums, rest, top);
    } else if rest == [] {
      WalkRightShort(h, j, f, s, sums, top);
      assert rest + [top] == [top];
    } else {
      var node, after := rest[0], rest[1..];
      assert rest == [node] + after && rest + [top] == [node] + (after + [top]);
      WalkStep(h, Pow2(j) + f, Pow2(j) + s, sums, node, after + [top]);
      WalkStep(h, f, s, sums, node, after);
      var i := NextRightHalf(j, f, s);
      WalkRightHalf(h, i, Next(f, s).0, Next(f, s).1, Joined(h, f, s, sums, node), after, top);
    }
  }

  lemma {:induction false} StripLeftHalf(j: nat, fn: nat, sn: nat) returns (i: nat)
    requires fn < Pow2(j) <= sn < 2 * Pow2(j)
    ensures Strip(fn, sn).0 == Strip(fn, Pow2(j) - 1).0 < Pow2(i) <= Strip(fn, sn).1 < 2 * Pow2(i)
    ensures Strip(fn, Pow2(j) - 1).1 == Pow2(i) - 1
    decreases j
  {
    if fn % 2 == 1 {
      assert j > 0 && (Pow2(j) - 1) / 2 == Pow2(j - 1) - 1;
      i := StripLeftHalf(j - 1, fn / 2, sn / 2);
    } else {
      i := j;
    }
  }

  lemma {:induction false} StripRightHalf(j: nat, f: nat, s: nat) returns (i: nat)
    requires f < s < Pow2(j)
    ensures Strip(f, s).0 <= Strip(f, s).1 < Pow2(i)
    ensures Strip(Pow2(j) + f, Pow2(j) + s) == (Pow2(i) + Strip(f, s).0, Pow2(i) + Strip(f, s).1)
    decreases j
  {
    assert j > 0;
    if f % 2 == 1 {
      assert (Pow2(j) + f) / 2 == Pow2(j - 1) + f / 2 && (Pow2(j) + s) / 2 == Pow2(j - 1) + s / 2;
      i := StripRightHalf(j - 1, f / 2, s / 2);
    } else {
      i := j;
    }
  }

  lemma {:induction false} StripComplete(p: nat)
    ensures Strip(Pow2(p) - 1, Pow2(p) - 1) == (0, 0)
  {
    if p > 0 {
      assert (Pow2(p) - 1) / 2 == Pow2(p - 1) - 1;
      StripComplete(p - 1);
    }
  }

  /** The consistency walk, as a function of the sizes alone. */
  ghost function StrippedWalk(h: Hasher, m: nat, n: nat, seed: Bytes, rest: seq<Bytes>): Option<Sums>
    requires 1 <= m <= n
  {
    var (fn, sn) := Strip(m - 1, n - 1);
    Walk(h, fn, sn, Start(seed), rest)
  }

  lemma StrippedLeft(h: Hasher, m: nat, n: nat, seed: Bytes, below: seq<Bytes>, top: Bytes)
    requires n >= 2 && 1 <= m <= Split(n)
    ensures StrippedWalk(h, m, n, seed, below + [top]) == Extended(h, StrippedWalk(h, m, Split(n), seed, below), top)
  {
    var p := SplitIsPower(n);
    var i := StripLeftHalf(p, m - 1, n - 1);
    WalkLeftHalf(h, i, Strip(m - 1, n - 1).0, Strip(m - 1, n - 1).1, Start(seed), below, top);
  }

  lemma StrippedRight(h: Hasher, m: nat, n: nat, seed: Bytes, below: seq<Bytes>, top: Bytes)
    requires n >= 2 && Split(n) < m < n
    ensures StrippedWalk(h, m, n, seed, below + [top])
         == Topped(h, top, StrippedWalk(h, m - Split(n), n - Split(n), seed, below))
  {
    hide Walk, Climb, Strip, Pow2;
    var k := Split(n);
    var p := SplitIsPower(n);
    var i := StripRightHalf(p, m - k - 1, n - k - 1);
    var (f, s) := Strip(m - k - 1, n - k - 1);
    WalkRightHalf(h, i, f, s, Start(seed), below, top);
  }

  lemma StrippedShort(h: Hasher, m: nat, n: nat, seed: Bytes)
    requires 1 <= m < n
    ensures StrippedWalk(h, m, n, seed, []) == None
  {
    var k := Split(n);
    var p := SplitIsPower(n);
    if m <= k {
      var i := StripLeftHalf(p, m - 1, n - 1);
    } else {
      var i := StripRightHalf(p, m - k - 1, n - k - 1);
    }
  }

  /** The iterative consistency walk computes the recursive fold, for every proof of any length. */
  lemma {:induction false} WalkIsFold(h: Hasher, m: nat, n: nat, seed: Bytes, rest: seq<Bytes>)
    requires 1 <= m <= n
    requires m < n || IsPower(n)
    ensures StrippedWalk(h, m, n, seed, rest) == Fold(h, m, n, seed, rest)
    decreases n
  {
    if m == n {
      var p: nat :| n == Pow2(p);
      StripComplete(p);
    } else if rest == [] {
      StrippedShort(h, m, n, seed);
    } else {
      var k, top, below := Split(n), rest[|rest| - 1], rest[..|rest| - 1];
      var p := SplitIsPower(n);
      assert IsPower(k);
      assert rest == below + [top];
      if m <= k {
        StrippedLeft(h, m, n, seed, below, top);
        WalkIsFold(h, m, k, seed, below);
      } else {
        StrippedRight(h, m, n, seed, below, top);
        WalkIsFold(h, m - k, n - k, seed, below);
      }
    }
  }

  lemma WalkOfNone(h: Hasher, index: nat, n: nat, leaf: Bytes, rest: seq<Bytes>)
    requires index < n && (n == 1 || rest == [])
    ensures Walk(h, index, n - 1, Start(leaf), rest) == PathFold(h, index, n, leaf, rest)
  {
  }

  /** The iterative inclusion walk computes the recursive fold, for every proof of any length. */
  lemma {:induction false} WalkIsPathFold(h: Hasher, index: nat, n: nat, leaf: Bytes, rest: seq<Bytes>)
    requires index < n
    ensures Walk(h, index, n - 1, Start(leaf), rest) == PathFold(h, index, n, leaf, rest)
    decreases n
  {
    hide Walk, PathFold, Extended, Topped, Split, Start;
    if n == 1 || rest == [] {
      WalkOfNone(h, index, n, leaf, rest);
    } else {
      var k := Split(n);
      var p := SplitIsPower(n);
      var top, below := rest[|rest| - 1], rest[..|rest| - 1];
      assert rest == below + [top];
      PathFoldUnfolds(h, index, n, leaf, below, top);
      if index < k {
        WalkIsPathFold(h, index, k, leaf, below);
        WalkLeftHalf(h, p, index, n - 1, Start(leaf), below, top);
      } else {
        WalkIsPathFold(h, index - k, n - k, leaf, below);
        WalkRightHalf(h, p, index - k, n - k - 1, Start(leaf), below, top);
      }
    }
  }

  // ---------------------------------------------------------------- the generators' proofs

  /** The node a consistency proof starts from: the deepest complete subtree on the old tree's right edge. */
  ghost function SeedOf(h: Hasher, leaves: seq<Digest>, lo: nat, hi: nat, m: nat): Digest
    requires lo < hi <= |leaves| && 1 <= m <= hi - lo
    decreases hi - lo
  {
    if m == hi - lo then Root(h, leaves, lo, hi)
    else
      var k := Split(hi - lo);
      if m <= k then SeedOf(h, leaves, lo, lo + k, m) else SeedOf(h, leaves, lo + k, hi, m - k)
  }

  /** The nodes after the first. */
  ghost function RestOf(h: Hasher, leaves: seq<Digest>, lo: nat, hi: nat, m: nat): (r: seq<Digest>)
    requires lo < hi <= |leaves| && 1 <= m <= hi - lo
    ensures m < hi - lo ==> r != []
    decreases hi - lo
  {
    if m == hi - lo then []
    else
      var k := Split(hi - lo);
      if m <= k then RestOf(h, leaves, lo, lo + k, m) + [Root(h, leaves, lo + k, hi)]
      else RestOf(h, leaves, lo + k, hi, m - k) + [Root(h, leaves, lo, lo + k)]
  }

  lemma {:induction false} SubproofShape(h: Hasher, leaves: seq<Digest>, lo: nat, hi: nat, m: nat)
    requires lo < hi <= |leaves| && 1 <= m <= hi - lo
    ensures Subproof(h, leaves, lo, hi, m, false) == [SeedOf(h, leaves, lo, hi, m)] + RestOf(h, leaves, lo, hi, m)
    decreases hi - lo
  {
    hide Root, Split;
    if m < hi - lo {
      var k := Split(hi - lo);
      if m <= k {
        SubproofShape(h, leaves, lo, lo + k, m);
      } else {
        SubproofShape(h, leaves, lo + k, hi, m - k);
      }
    }
  }

  /** The generator leaves its first node out when the old tree is that node, */
  lemma {:induction false} CompleteSubproof(h: Hasher, leaves: seq<Digest>, lo: nat, hi: nat, m: nat)
    requires lo < hi <= |leaves| && 1 <= m <= hi - lo
    requires IsPower(m)
    ensures Subproof(h, leaves, lo, hi, m, true) == RestOf(h, leaves, lo, hi, m)
    ensures SeedOf(h, leaves, lo, hi, m) == Root(h, leaves, lo, lo + m)
    decreases hi - lo
  {
    hide Root;
    if m < hi - lo {
      hide Split;
      var k := Split(hi - lo);
      var p := SplitIsPower(hi - lo);
      var q: nat :| m == Pow2(q);
      if k < m { Pow2Between(p, q); }
      CompleteSubproof(h, leaves, lo, lo + k, m);
    }
  }

  /** and only then. */
  lemma {:induction false} PartialSubproof(h: Hasher, leaves: seq<Digest>, lo: nat, hi: nat, m: nat)
    requires lo < hi <= |leaves| && 1 <= m < hi - lo
    requires !IsPower(m)
    ensures Subproof(h, leaves, lo, hi, m, true) == [SeedOf(h, leaves, lo, hi, m)] + RestOf(h, leaves, lo, hi, m)
    decreases hi - lo
  {
    hide Root, Split;
    var k := Split(hi - lo);
    var p := SplitIsPower(hi - lo);
    if m < k {
      PartialSubproof(h, leaves, lo, lo + k, m);
    } else {
      assert m != k;
      SubproofShape(h, leaves, lo + k, hi, m - k);
    }
  }

  // ---------------------------------------------------------------- what a fold can agree with

  /** The fold has rebuilt this window's root. */
  ghost predicate Reaches(f: Option<Sums>, root: Digest) {
    f.Some? && f.value.newer == root
  }

  /** A node on the right of a half rebuilds the tree only when both are the tree's own. */
  lemma ExtendedSound(h: Hasher, s: set<Bytes>, half: Option<Sums>, top: Bytes, left: Digest, right: Digest)
    requires NoCollision(h, s) && NodeInput(left, right) in s
    requires half.Some? && |half.value.newer| == 32 && Extended(h, half, top).value.hashed <= s
    requires Reaches(Extended(h, half, top), HashChildren(h, left, right))
    ensures half.value.newer == left && top == right && half.value.hashed <= s
  {
    assert NodeInput(half.value.newer, top) in Extended(h, half, top).value.hashed;
    NodeInjective(h, s, half.value.newer, top, left, right);
  }

  lemma ToppedSound(h: Hasher, s: set<Bytes>, top: Bytes, half: Option<Sums>, left: Digest, right: Digest)
    requires NoCollision(h, s) && NodeInput(left, right) in s
    requires half.Some? && |half.value.newer| == 32 && Topped(h, top, half).value.hashed <= s
    requires Reaches(Topped(h, top, half), HashChildren(h, left, right))
    ensures half.value.newer == right && top == left && half.value.hashed <= s
  {
    assert NodeInput(top, half.value.newer) in Topped(h, top, half).value.hashed;
    NodeInjective(h, s, top, half.value.newer, left, right);
  }

  lemma ExtendedComplete(h: Hasher, half: Option<Sums>, left: Digest, right: Digest)
    requires Reaches(half, left)
    ensures Reaches(Extended(h, half, right), HashChildren(h, left, right))
    ensures Extended(h, half, right).value.older == half.value.older
  {
  }

  lemma ToppedComplete(h: Hasher, left: Digest, half: Option<Sums>, right: Digest)
    requires Reaches(half, right)
    ensures Reaches(Topped(h, left, half), HashChildren(h, left, right))
    ensures Topped(h, left, half).value.older == HashChildren(h, left, half.value.older)
  {
  }

  // One level of each recursion, so that an inductive step need not see the definitions.

  lemma FoldUnfolds(h: Hasher, m: nat, n: nat, seed: Bytes, below: seq<Bytes>, top: Bytes)
    requires 1 <= m < n
    ensures Fold(h, m, n, seed, below + [top]) ==
            if m <= Split(n) then Extended(h, Fold(h, m, Split(n), seed, below), top)
            else Topped(h, top, Fold(h, m - Split(n), n - Split(n), seed, below))
  {
    assert (below + [top])[..|below|] == below;
  }

  lemma PathFoldUnfolds(h: Hasher, index: nat, n: nat, leaf: Bytes, below: seq<Bytes>, top: Bytes)
    requires index < n && n > 1
    ensures PathFold(h, index, n, leaf, below + [top]) ==
            if index < Split(n) then Extended(h, PathFold(h, index, Split(n), leaf, below), top)
            else Topped(h, top, PathFold(h, index - Split(n), n - Split(n), leaf, below))
  {
    assert (below + [top])[..|below|] == below;
  }

  lemma RootUnfolds(h: Hasher, leaves: seq<Digest>, lo: nat, hi: nat)
    requires lo + 2 <= hi <= |leaves|
    ensures var k := Split(hi - lo);
            && Root(h, leaves, lo, hi) == HashChildren(h, Root(h, leaves, lo, lo + k), Root(h, leaves, lo + k, hi))
            && TreeInputs(h, leaves, lo, hi) == TreeInputs(h, leaves, lo, lo + k) + TreeInputs(h, leaves, lo + k, hi)
               + {NodeInput(Root(h, leaves, lo, lo + k), Root(h, leaves, lo + k, hi))}
  {
  }

  /** A fold reaches the tree's root only from the tree's own nodes. */
  lemma {:induction false} FoldSound(h: Hasher, s: set<Bytes>, leaves: seq<Digest>, lo: nat, hi: nat, m: nat,
                                     seed: Bytes, rest: seq<Bytes>)
    requires lo < hi <= |leaves| && 1 <= m <= hi - lo
    requires |seed| == 32
    requires NoCollision(h, s) && TreeInputs(h, leaves, lo, hi) <= s
    requires Reaches(Fold(h, m, hi - lo, seed, rest), Root(h, leaves, lo, hi))
    requires Fold(h, m, hi - lo, seed, rest).value.hashed <= s
    ensures seed == SeedOf(h, leaves, lo, hi, m) && rest == RestOf(h, leaves, lo, hi, m)
    decreases hi - lo
  {
    hide Root, TreeInputs, HashChildren, NodeInput, Extended, Topped, Split;
    if m < hi - lo {
      var n, top, below := hi - lo, rest[|rest| - 1], rest[..|rest| - 1];
      var k := Split(n);
      RootUnfolds(h, leaves, lo, hi);
      assert rest == below + [top];
      if m <= k {
        ExtendedSound(h, s, Fold(h, m, k, seed, below), top, Root(h, leaves, lo, lo + k), Root(h, leaves, lo + k, hi));
        FoldSound(h, s, leaves, lo, lo + k, m, seed, below);
      } else {
        ToppedSound(h, s, top, Fold(h, m - k, n - k, seed, below), Root(h, leaves, lo, lo + k), Root(h, leaves, lo + k, hi));
        FoldSound(h, s, leaves, lo + k, hi, m - k, seed, below);
      }
    }
  }

  lemma FoldCompleteLeft(h: Hasher, leaves: seq<Digest>, lo: nat, hi: nat, m: nat)
    requires lo + 2 <= hi <= |leaves| && 1 <= m <= Split(hi - lo)
    requires Rebuilds(h, leaves, lo, lo + Split(hi - lo), m)
    ensures Rebuilds(h, leaves, lo, hi, m)
  {
    hide Root, Split, Extended, HashChildren, TreeInputs, Fold;
    var k := Split(hi - lo);
    RootUnfolds(h, leaves, lo, hi);
    var seed, below, top := SeedOf(h, leaves, lo, hi, m), RestOf(h, leaves, lo, lo + k, m), Root(h, leaves, lo + k, hi);
    assert seed == SeedOf(h, leaves, lo, lo + k, m);
    assert RestOf(h, leaves, lo, hi, m) == below + [top];
    FoldUnfolds(h, m, hi - lo, seed, below, top);
    ExtendedComplete(h, Fold(h, m, k, seed, below), Root(h, leaves, lo, lo + k), top);
  }

  lemma FoldCompleteRight(h: Hasher, leaves: seq<Digest>, lo: nat, hi: nat, m: nat)
    requires lo + 2 <= hi <= |leaves| && Split(hi - lo) < m < hi - lo
    requires Rebuilds(h, leaves, lo + Split(hi - lo), hi, m - Split(hi - lo))
    ensures Rebuilds(h, leaves, lo, hi, m)
  {
    hide Root, Split, Topped, HashChildren, TreeInputs, Fold;
    var k := Split(hi - lo);
    RootUnfolds(h, leaves, lo, hi);
    var seed, below, top := SeedOf(h, leaves, lo, hi, m), RestOf(h, leaves, lo + k, hi, m - k), Root(h, leaves, lo, lo + k);
    assert seed == SeedOf(h, leaves, lo + k, hi, m - k);
    assert RestOf(h, leaves, lo, hi, m) == below + [top];
    FoldUnfolds(h, m, hi - lo, seed, below, top);
    ToppedComplete(h, top, Fold(h, m - k, hi - lo - k, seed, below), Root(h, leaves, lo + k, hi));
    PrefixSplit(hi - lo, m);
    RootUnfolds(h, leaves, lo, lo + m);
  }

  /** The generator's nodes over a window give both its root and the root of its first m leaves. */
  ghost predicate Rebuilds(h: Hasher, leaves: seq<Digest>, lo: nat, hi: nat, m: nat)
    requires lo < hi <= |leaves| && 1 <= m <= hi - lo
  {
    var f := Fold(h, m, hi - lo, SeedOf(h, leaves, lo, hi, m), RestOf(h, leaves, lo, hi, m));
    Reaches(f, Root(h, leaves, lo, hi)) && f.value.older == Root(h, leaves, lo, lo + m)
  }

  lemma {:induction false} FoldComplete(h: Hasher, leaves: seq<Digest>, lo: nat, hi: nat, m: nat)
    requires lo < hi <= |leaves| && 1 <= m <= hi - lo
    ensures Rebuilds(h, leaves, lo, hi, m)
    decreases hi - lo
  {
    hide Root, Split;
    if m < hi - lo {
      hide Rebuilds;
      var k := Split(hi - lo);
      if m <= k {
        FoldComplete(h, leaves, lo, lo + k, m);
        FoldCompleteLeft(h, leaves, lo, hi, m);
      } else {
        FoldComplete(h, leaves, lo + k, hi, m - k);
        FoldCompleteRight(h, leaves, lo, hi, m);
      }
    }
  }

  lemma {:induction false} PathFoldSound(h: Hasher, s: set<Bytes>, leaves: seq<Digest>, lo: nat, hi: nat, index: nat,
                                         leaf: Bytes, rest: seq<Bytes>)
    requires lo < hi <= |leaves| && index < hi - lo
    requires |leaf| == 32
    requires NoCollision(h, s) && TreeInputs(h, leaves, lo, hi) <= s
    requires Reaches(PathFold(h, index, hi - lo, leaf, rest), Root(h, leaves, lo, hi))
    requires PathFold(h, index, hi - lo, leaf, rest).value.hashed <= s
    ensures leaf == leaves[lo + index] && rest == Path(h, leaves, lo, hi, index)
    decreases hi - lo
  {
    hide Root, Path, PathFold, TreeInputs, HashChildren, NodeInput, Extended, Topped, Split, NoCollision;
    if hi - lo == 1 || rest == [] {
      PathFoldOfOne(h, leaves, lo, hi, index, leaf, rest);
    } else {
      var n, top, below := hi - lo, rest[|rest| - 1], rest[..|rest| - 1];
      var k := Split(n);
      var left, right := Root(h, leaves, lo, lo + k), Root(h, leaves, lo + k, hi);
      RootUnfolds(h, leaves, lo, hi);
      assert rest == below + [top];
      PathFoldUnfolds(h, index, n, leaf, below, top);
      PathUnfolds(h, leaves, lo, hi, index);
      if index < k {
        var half := PathFold(h, index, k, leaf, below);
        HalfOfExtended(h, half, top);
        ExtendedSound(h, s, half, top, left, right);
        PathFoldSound(h, s, leaves, lo, lo + k, index, leaf, below);
      } else {
        var half := PathFold(h, index - k, n - k, leaf, below);
        HalfOfExtended(h, half, top);
        ToppedSound(h, s, top, half, left, right);
        PathFoldSound(h, s, leaves, lo + k, hi, index - k, leaf, below);
      }
    }
  }

  lemma HalfOfExtended(h: Hasher, half: Option<Sums>, top: Bytes)
    ensures Extended(h, half, top).Some? <==> half.Some?
    ensures Topped(h, top, half).Some? <==> half.Some?
  {
  }

  lemma PathFoldOfOne(h: Hasher, leaves: seq<Digest>, lo: nat, hi: nat, index: nat, leaf: Bytes, rest: seq<Bytes>)
    requires lo < hi <= |leaves| && index < hi - lo && (hi - lo == 1 || rest == [])
    requires Reaches(PathFold(h, index, hi - lo, leaf, rest), Root(h, leaves, lo, hi))
    ensures leaf == leaves[lo + index] && rest == Path(h, leaves, lo, hi, index)
  {
  }

  lemma PathUnfolds(h: Hasher, leaves: seq<Digest>, lo: nat, hi: nat, index: nat)
    requires lo + 2 <= hi <= |leaves| && index < hi - lo
    ensures var k := Split(hi - lo);
      Path(h, leaves, lo, hi, index) ==
        if index < k then Path(h, leaves, lo, lo + k, index) + [Root(h, leaves, lo + k, hi)]
        else Path(h, leaves, lo + k, hi, index - k) + [Root(h, leaves, lo, lo + k)]
  {
  }

  ghost predicate RebuildsFrom(h: Hasher, leaves: seq<Digest>, lo: nat, hi: nat, index: nat)
    requires lo <= index < hi <= |leaves|
  {
    Reaches(PathFold(h, index - lo, hi - lo, leaves[index], Path(h, leaves, lo, hi, index - lo)), Root(h, leaves, lo, hi))
  }

  lemma PathCompleteLeft(h: Hasher, leaves: seq<Digest>, lo: nat, hi: nat, index: nat)
    requires lo + 2 <= hi <= |leaves| && lo <= index < lo + Split(hi - lo)
    requires RebuildsFrom(h, leaves, lo, lo + Split(hi - lo), index)
    ensures RebuildsFrom(h, leaves, lo, hi, index)
  {
    hide Root, Split, Extended, HashChildren, TreeInputs, PathFold;
    var k, i := Split(hi - lo), index - lo;
    var below, top := Path(h, leaves, lo, lo + k, i), Root(h, leaves, lo + k, hi);
    RootUnfolds(h, leaves, lo, hi);
    assert Path(h, leaves, lo, hi, i) == below + [top];
    PathFoldUnfolds(h, i, hi - lo, leaves[index], below, top);
    ExtendedComplete(h, PathFold(h, i, k, leaves[index], below), Root(h, leaves, lo, lo + k), top);
  }

  lemma PathCompleteRight(h: Hasher, leaves: seq<Digest>, lo: nat, hi: nat, index: nat)
    requires lo + 2 <= hi <= |leaves| && lo + Split(hi - lo) <= index < hi
    requires RebuildsFrom(h, leaves, lo + Split(hi - lo), hi, index)
    ensures RebuildsFrom(h, leaves, lo, hi, index)
  {
    hide Root, Split, Topped, HashChildren, TreeInputs, PathFold;
    var k, i := Split(hi - lo), index - lo;
    assert i - k == index - (lo + k) && hi - lo - k == hi - (lo + k);
    var below, top := Path(h, leaves, lo + k, hi, i - k), Root(h, leaves, lo, lo + k);
    RootUnfolds(h, leaves, lo, hi);
    assert Path(h, leaves, lo, hi, i) == below + [top];
    PathFoldUnfolds(h, i, hi - lo, leaves[index], below, top);
    ToppedComplete(h, top, PathFold(h, i - k, hi - lo - k, leaves[index], below), Root(h, leaves, lo + k, hi));
  }

  lemma {:induction false} PathFoldComplete(h: Hasher, leaves: seq<Digest>, lo: nat, hi: nat, index: nat)
    requires lo <= index < hi <= |leaves|
    ensures RebuildsFrom(h, leaves, lo, hi, index)
    decreases hi - lo
  {
    hide Split;
    if hi - lo > 1 {
      hide RebuildsFrom;
      if index < lo + Split(hi - lo) {
        PathFoldComplete(h, leaves, lo, lo + Split(hi - lo), index);
        PathCompleteLeft(h, leaves, lo, hi, index);
      } else {
        PathFoldComplete(h, leaves, lo + Split(hi - lo), hi, index);
        PathCompleteRight(h, leaves, lo, hi, index);
      }
    }
  }

  // ---------------------------------------------------------------- the theorems

  /** A tree over a prefix is the window of that prefix. */
  lemma {:induction false} RootOfPrefix(h: Hasher, leaves: seq<Digest>, m: nat, lo: nat, hi: nat)
    requires lo <= hi <= m <= |leaves|
    ensures Root(h, leaves[..m], lo, hi) == Root(h, leaves, lo, hi)
    decreases hi - lo
  {
    if hi - lo > 1 {
      var k := Split(hi - lo);
      RootOfPrefix(h, leaves, m, lo, lo + k);
      RootOfPrefix(h, leaves, m, lo + k, hi);
    }
  }

  lemma {:induction false} TreeInputsOfPrefix(h: Hasher, leaves: seq<Digest>, m: nat, lo: nat, hi: nat)
    requires lo <= hi <= m <= |leaves|
    ensures TreeInputs(h, leaves[..m], lo, hi) == TreeInputs(h, leaves, lo, hi)
    decreases hi - lo
  {
    hide Root, Split;
    if hi - lo > 1 {
      var k := Split(hi - lo);
      TreeInputsOfPrefix(h, leaves, m, lo, lo + k);
      TreeInputsOfPrefix(h, leaves, m, lo + k, hi);
      RootOfPrefix(h, leaves, m, lo, lo + k);
      RootOfPrefix(h, leaves, m, lo + k, hi);
    }
  }

  /** What rebuilding both roots hashes covers the prefix's own tree. */
  lemma {:induction false} FoldCoversPrefix(h: Hasher, leaves: seq<Digest>, lo: nat, hi: nat, m: nat)
    requires lo < hi <= |leaves| && 1 <= m <= hi - lo
    ensures Rebuilds(h, leaves, lo, hi, m)
    ensures TreeInputs(h, leaves, lo, lo + m) <= TreeInputs(h, leaves, lo, hi)
            + Fold(h, m, hi - lo, SeedOf(h, leaves, lo, hi, m), RestOf(h, leaves, lo, hi, m)).value.hashed
    decreases hi - lo
  {
    FoldComplete(h, leaves, lo, hi, m);
    if m < hi - lo {
      hide Fold, Root, Split, SeedOf, RestOf, HashChildren, NodeInput;
      if m <= Split(hi - lo) {
        CoversLeft(h, leaves, lo, hi, m);
      } else {
        CoversRight(h, leaves, lo, hi, m);
      }
    }
  }

  lemma {:induction false} CoversLeft(h: Hasher, leaves: seq<Digest>, lo: nat, hi: nat, m: nat)
    requires lo + 2 <= hi <= |leaves| && 1 <= m <= Split(hi - lo)
    requires Rebuilds(h, leaves, lo, hi, m)
    ensures TreeInputs(h, leaves, lo, lo + m) <= TreeInputs(h, leaves, lo, hi)
            + Fold(h, m, hi - lo, SeedOf(h, leaves, lo, hi, m), RestOf(h, leaves, lo, hi, m)).value.hashed
    decreases hi - lo, 0
  {
    hide Root, Split, HashChildren, NodeInput, Fold, TreeInputs;
    var k := Split(hi - lo);
    FoldCoversPrefix(h, leaves, lo, lo + k, m);
    RootUnfolds(h, leaves, lo, hi);
    FoldUnfolds(h, m, hi - lo, SeedOf(h, leaves, lo, hi, m), RestOf(h, leaves, lo, lo + k, m), Root(h, leaves, lo + k, hi));
  }

  lemma {:induction false} CoversRight(h: Hasher, leaves: seq<Digest>, lo: nat, hi: nat, m: nat)
    requires lo + 2 <= hi <= |leaves| && Split(hi - lo) < m < hi - lo
    requires Rebuilds(h, leaves, lo, hi, m)
    ensures TreeInputs(h, leaves, lo, lo + m) <= TreeInputs(h, leaves, lo, hi)
            + Fold(h, m, hi - lo, SeedOf(h, leaves, lo, hi, m), RestOf(h, leaves, lo, hi, m)).value.hashed
    decreases hi - lo, 0
  {
    hide Root, Split, HashChildren, NodeInput, Fold, TreeInputs;
    var k := Split(hi - lo);
    FoldCoversPrefix(h, leaves, lo + k, hi, m - k);
    assert lo + k + (m - k) == lo + m && hi - (lo + k) == hi - lo - k;
    RootUnfolds(h, leaves, lo, hi);
    FoldUnfolds(h, m, hi - lo, SeedOf(h, leaves, lo, hi, m), RestOf(h, leaves, lo + k, hi, m - k),
                Root(h, leaves, lo, lo + k));
    PrefixSplit(hi - lo, m);
    RootUnfolds(h, leaves, lo, lo + m);
  }

  /** Everything the consistency verifier puts through SHA-256 for this call. */
  ghost function HashedBy(h: Hasher, oldSize: int, oldRoot: Bytes, newSize: int, proof: seq<Bytes>): set<Bytes> {
    if 0 < oldSize < newSize && Reached(h, oldSize, oldRoot, newSize, proof).Some?
    then Reached(h, oldSize, oldRoot, newSize, proof).value.hashed
    else {}
  }

  /** The first hash of the walk has the length of a digest: what no branch of the verifier checks. */
  predicate SeedIsDigest(oldSize: nat, oldRoot: Bytes, proof: seq<Bytes>) {
    if IsPowerOfTwo(oldSize) then |oldRoot| == 32 else proof != [] && |proof[0]| == 32
  }

  /** The recursive generator's proof, taken apart the way the verifier takes it apart. */
  lemma GeneratedProof(h: Hasher, leaves: seq<Digest>, m: nat)
    requires 0 < m < |leaves|
    ensures var proof := ConsistencyProof(h, leaves, m).value;
            && (IsPowerOfTwo(m) || proof != [])
            && Rest(m, proof) == RestOf(h, leaves, 0, |leaves|, m)
            && Seed(m, MerkleRoot(h, leaves[..m]), proof) == SeedOf(h, leaves, 0, |leaves|, m)
    ensures ConsistencyProof(h, leaves, m) ==
            Some(if IsPowerOfTwo(m) then RestOf(h, leaves, 0, |leaves|, m)
                 else [SeedOf(h, leaves, 0, |leaves|, m)] + RestOf(h, leaves, 0, |leaves|, m))
  {
    hide Root;
    AndPredecessor(m);
    RootOfPrefix(h, leaves, m, 0, m);
    if IsPower(m) {
      CompleteSubproof(h, leaves, 0, |leaves|, m);
    } else {
      PartialSubproof(h, leaves, 0, |leaves|, m);
      var seed, rest := SeedOf(h, leaves, 0, |leaves|, m), RestOf(h, leaves, 0, |leaves|, m);
      assert ([seed] + rest)[1..] == rest;
    }
  }

  /** The walk between two sizes, as the fold down the tree. */
  lemma ReachedIsFold(h: Hasher, m: nat, n: nat, oldRoot: Bytes, proof: seq<Bytes>)
    requires 0 < m < n
    requires IsPowerOfTwo(m) || proof != []
    ensures Reached(h, m, oldRoot, n, proof) == Fold(h, m, n, Seed(m, oldRoot, proof), Rest(m, proof))
  {
    hide Strip, Walk, Fold, And;
    WalkIsFold(h, m, n, Seed(m, oldRoot, proof), Rest(m, proof));
  }

  /** A log that only appended is always accepted with the generator's proof, from any earlier size. */
  lemma ConsistencyComplete(h: Hasher, leaves: seq<Digest>, m: nat)
    requires m <= |leaves|
    ensures ConsistencyProof(h, leaves, m).Some?
    ensures Consistent(h, m, MerkleRoot(h, leaves[..m]), |leaves|, MerkleRoot(h, leaves),
                       ConsistencyProof(h, leaves, m).value)
  {
    var n := |leaves|;
    if m == n {
      assert leaves[..m] == leaves;
    } else if m > 0 {
      hide Root, Fold, SeedOf, RestOf, Subproof, And, Reached;
      GeneratedProof(h, leaves, m);
      ReachedIsFold(h, m, n, MerkleRoot(h, leaves[..m]), ConsistencyProof(h, leaves, m).value);
      FoldComplete(h, leaves, 0, n, m);
      RootOfPrefix(h, leaves, m, 0, m);
    }
  }

  /**
   * Whatever proof is offered: accepted against the root of a log, from a first hash of digest
   * length, it is the generator's proof and the old root is the root of the log's prefix.
   */
  lemma ConsistencySound(h: Hasher, leaves: seq<Digest>, m: nat, oldRoot: Bytes, proof: seq<Bytes>)
    requires 0 < m <= |leaves|
    requires Consistent(h, m, oldRoot, |leaves|, MerkleRoot(h, leaves), proof)
    requires m < |leaves| ==> SeedIsDigest(m, oldRoot, proof)
    requires NoCollision(h, TreeInputs(h, leaves, 0, |leaves|) + HashedBy(h, m, oldRoot, |leaves|, proof))
    ensures oldRoot == MerkleRoot(h, leaves[..m])
    ensures Some(proof) == ConsistencyProof(h, leaves, m)
    ensures TreeInputs(h, leaves[..m], 0, m) <= TreeInputs(h, leaves, 0, |leaves|) + HashedBy(h, m, oldRoot, |leaves|, proof)
  {
    var n := |leaves|;
    hide Root, TreeInputs, Fold, SeedOf, RestOf, Reached, IsPowerOfTwo, Subproof;
    if m == n {
      assert leaves[..m] == leaves;
    } else {
      var s := TreeInputs(h, leaves, 0, n) + HashedBy(h, m, oldRoot, n, proof);
      var seed, rest := Seed(m, oldRoot, proof), Rest(m, proof);
      ReachedIsFold(h, m, n, oldRoot, proof);
      FoldSound(h, s, leaves, 0, n, m, seed, rest);
      FoldComplete(h, leaves, 0, n, m);
      RootOfPrefix(h, leaves, m, 0, m);
      GeneratedProof(h, leaves, m);
      if !IsPowerOfTwo(m) { assert proof == [seed] + rest; }
      FoldCoversPrefix(h, leaves, 0, n, m);
      TreeInputsOfPrefix(h, leaves, m, 0, m);
    }
  }

  // ---------------------------------------------------------------- the other half

  /** A fold of more than one node ends in a hash. */
  lemma FoldEndsInHash(h: Hasher, m: nat, n: nat, seed: Bytes, rest: seq<Bytes>)
    requires 1 <= m < n
    ensures Fold(h, m, n, seed, rest).Some? ==> |Fold(h, m, n, seed, rest).value.newer| == 32
  {
  }

  /** The fold has rebuilt both of these roots, hashing only the given inputs. */
  ghost predicate Gives(f: Option<Sums>, newer: Digest, older: Digest, s: set<Bytes>) {
    f.Some? && f.value.newer == newer && f.value.older == older && f.value.hashed <= s
  }

  /** A fold that gives the roots both of a window and of its first m leaves began with a digest. */
  lemma {:induction false} FoldFromDigest(h: Hasher, s: set<Bytes>, leaves: seq<Digest>, lo: nat, hi: nat, m: nat,
                                          seed: Bytes, rest: seq<Bytes>)
    requires lo < hi <= |leaves| && 1 <= m <= hi - lo
    requires NoCollision(h, s) && TreeInputs(h, leaves, lo, hi) <= s && TreeInputs(h, leaves, lo, lo + m) <= s
    requires Gives(Fold(h, m, hi - lo, seed, rest), Root(h, leaves, lo, hi), Root(h, leaves, lo, lo + m), s)
    ensures |seed| == 32
    decreases hi - lo
  {
    hide Root, TreeInputs, HashChildren, NodeInput, Extended, Topped, Split, Fold, NoCollision;
    if m == hi - lo || rest == [] {
      FoldOfOne(h, m, hi - lo, seed, rest, Root(h, leaves, lo, hi));
    } else {
      var n, top, below := hi - lo, rest[|rest| - 1], rest[..|rest| - 1];
      var k := Split(n);
      RootUnfolds(h, leaves, lo, hi);
      assert rest == below + [top];
      FoldUnfolds(h, m, n, seed, below, top);
      if m == k {
        OlderOfLeft(h, k, seed, below, top);
      } else if m < k {
        FromDigestLeft(h, s, leaves, lo, hi, m, seed, below, top);
        FoldFromDigest(h, s, leaves, lo, lo + k, m, seed, below);
      } else {
        FromDigestRight(h, s, leaves, lo, hi, m, seed, below, top);
        FoldFromDigest(h, s, leaves, lo + k, hi, m - k, seed, below);
      }
    }
  }

  lemma FoldOfOne(h: Hasher, m: nat, n: nat, seed: Bytes, rest: seq<Bytes>, root: Digest)
    requires 1 <= m <= n && (m == n || rest == []) && Reaches(Fold(h, m, n, seed, rest), root)
    ensures |seed| == 32
  {
  }

  lemma OlderOfLeft(h: Hasher, k: nat, seed: Bytes, below: seq<Bytes>, top: Bytes)
    requires k >= 1 && Extended(h, Fold(h, k, k, seed, below), top).Some?
    ensures Extended(h, Fold(h, k, k, seed, below), top).value.older == seed
  {
  }

  lemma FromDigestLeft(h: Hasher, s: set<Bytes>, leaves: seq<Digest>, lo: nat, hi: nat, m: nat,
                       seed: Bytes, below: seq<Bytes>, top: Bytes)
    requires lo + 2 <= hi <= |leaves| && 1 <= m < Split(hi - lo)
    requires NoCollision(h, s) && TreeInputs(h, leaves, lo, hi) <= s
    requires Gives(Extended(h, Fold(h, m, Split(hi - lo), seed, below), top),
                   Root(h, leaves, lo, hi), Root(h, leaves, lo, lo + m), s)
    ensures var k := Split(hi - lo);
            && Gives(Fold(h, m, k, seed, below), Root(h, leaves, lo, lo + k), Root(h, leaves, lo, lo + m), s)
            && TreeInputs(h, leaves, lo, lo + k) <= s
  {
    hide Root, TreeInputs, HashChildren, NodeInput, Split, Fold, NoCollision;
    var k := Split(hi - lo);
    RootUnfolds(h, leaves, lo, hi);
    FoldEndsInHash(h, m, k, seed, below);
    ExtendedSound(h, s, Fold(h, m, k, seed, below), top, Root(h, leaves, lo, lo + k), Root(h, leaves, lo + k, hi));
  }

  lemma FromDigestRight(h: Hasher, s: set<Bytes>, leaves: seq<Digest>, lo: nat, hi: nat, m: nat,
                        seed: Bytes, below: seq<Bytes>, top: Bytes)
    requires lo + 2 <= hi <= |leaves| && Split(hi - lo) < m < hi - lo
    requires NoCollision(h, s) && TreeInputs(h, leaves, lo, hi) <= s && TreeInputs(h, leaves, lo, lo + m) <= s
    requires Gives(Topped(h, top, Fold(h, m - Split(hi - lo), hi - lo - Split(hi - lo), seed, below)),
                   Root(h, leaves, lo, hi), Root(h, leaves, lo, lo + m), s)
    ensures var k := Split(hi - lo);
            && Gives(Fold(h, m - k, hi - lo - k, seed, below),
                     Root(h, leaves, lo + k, hi), Root(h, leaves, lo + k, lo + m), s)
            && TreeInputs(h, leaves, lo + k, hi) <= s && TreeInputs(h, leaves, lo + k, lo + m) <= s
  {
    hide Root, TreeInputs, Split, Fold, NoCollision;
    var k := Split(hi - lo);
    var half := Fold(h, m - k, hi - lo - k, seed, below);
    var left := Root(h, leaves, lo, lo + k);
    RootUnfolds(h, leaves, lo, hi);
    FoldEndsInHash(h, m - k, hi - lo - k, seed, below);
    ToppedSound(h, s, top, half, left, Root(h, leaves, lo + k, hi));
    PrefixSplit(hi - lo, m);
    RootUnfolds(h, leaves, lo, lo + m);
    assert NodeInput(top, half.value.older) in Topped(h, top, half).value.hashed;
    NodeInjective(h, s, top, half.value.older, left, Root(h, leaves, lo + k, lo + m));
  }

  /**
   * Exactly when an accepted old root is the root of the log's prefix: the verifier never checks a
   * length, and the first hash it starts from decides. The proof is then the generator's own.
   */
  lemma AcceptanceExact(h: Hasher, leaves: seq<Digest>, m: nat, oldRoot: Bytes, proof: seq<Bytes>)
    requires 0 < m < |leaves|
    requires Consistent(h, m, oldRoot, |leaves|, MerkleRoot(h, leaves), proof)
    requires NoCollision(h, TreeInputs(h, leaves, 0, |leaves|) + TreeInputs(h, leaves, 0, m)
                            + HashedBy(h, m, oldRoot, |leaves|, proof))
    ensures oldRoot == MerkleRoot(h, leaves[..m]) <==> SeedIsDigest(m, oldRoot, proof)
    ensures oldRoot == MerkleRoot(h, leaves[..m]) ==> Some(proof) == ConsistencyProof(h, leaves, m)
  {
    var n := |leaves|;
    hide Root, TreeInputs, Fold, Reached, IsPowerOfTwo, ConsistencyProof;
    if SeedIsDigest(m, oldRoot, proof) {
      ConsistencySound(h, leaves, m, oldRoot, proof);
    }
    if oldRoot == MerkleRoot(h, leaves[..m]) {
      var s := TreeInputs(h, leaves, 0, n) + TreeInputs(h, leaves, 0, m) + HashedBy(h, m, oldRoot, n, proof);
      ReachedIsFold(h, m, n, oldRoot, proof);
      RootOfPrefix(h, leaves, m, 0, m);
      FoldFromDigest(h, s, leaves, 0, n, m, Seed(m, oldRoot, proof), Rest(m, proof));
      ConsistencySound(h, leaves, m, oldRoot, proof);
    }
  }

  /** An accepted proof is the generator's, for the root of the prefix, exactly from such a first hash. */
  lemma AcceptedProofExact(h: Hasher, leaves: seq<Digest>, m: nat, oldRoot: Bytes, proof: seq<Bytes>)
    requires 0 < m < |leaves|
    requires Consistent(h, m, oldRoot, |leaves|, MerkleRoot(h, leaves), proof)
    requires NoCollision(h, TreeInputs(h, leaves, 0, |leaves|) + HashedBy(h, m, oldRoot, |leaves|, proof))
    ensures oldRoot == MerkleRoot(h, leaves[..m]) && Some(proof) == ConsistencyProof(h, leaves, m)
            <==> SeedIsDigest(m, oldRoot, proof)
  {
    if SeedIsDigest(m, oldRoot, proof) {
      ConsistencySound(h, leaves, m, oldRoot, proof);
    }
    if Some(proof) == ConsistencyProof(h, leaves, m) {
      GeneratedProof(h, leaves, m);
    }
  }

  /**
   * Why the length matters: for every log of two entries there is an old root of 31 bytes that is
   * accepted although it is the root of no log at all.
   */
  lemma ShortRootAccepted(h: Hasher, leaves: seq<Digest>)
    requires |leaves| == 2
    ensures var oldRoot, proof := leaves[0][..31], [leaves[0][31..] + leaves[1]];
            && Consistent(h, 1, oldRoot, 2, MerkleRoot(h, leaves), proof)
            && forall d: seq<Digest> :: oldRoot != MerkleRoot(h, d)
  {
    var oldRoot, sibling := leaves[0][..31], leaves[0][31..] + leaves[1];
    assert NodeInput(oldRoot, sibling) == NodeInput(leaves[0], leaves[1]);
    assert Split(2) == 1;
    AndPredecessor(1);
    assert 1 == Pow2(0);
    assert Root(h, leaves, 0, 2) == HashChildren(h, leaves[0], leaves[1]);
    assert Strip(0, 1) == (0, 1);
    var after := RightOf(h, Start(oldRoot), sibling);
    assert Walk(h, 0, 0, after, []) == Some(after);
    var proof: seq<Bytes> := [sibling];
    assert proof[1..] == [];
    assert Walk(h, 0, 1, Start(oldRoot), proof) == Some(after);
  }

  lemma AcceptedPath(h: Hasher, leaves: seq<Digest>, leaf: Bytes, index: nat, proof: seq<Bytes>)
    requires index < |leaves|
    ensures var walked := Walk(h, index, |leaves| - 1, Start(leaf), proof);
      && walked == PathFold(h, index, |leaves|, leaf, proof)
      && (Included(h, leaf, index, |leaves|, proof, MerkleRoot(h, leaves)) <==> Reaches(walked, MerkleRoot(h, leaves)))
  {
    hide Walk, PathFold, MerkleRoot;
    WalkIsPathFold(h, index, |leaves|, leaf, proof);
  }

  /**
   * For any bytes offered as a leaf: accepted and of digest length is exactly the log's own leaf with
   * the generator's own path. (The callers in the source pass a hash.)
   */
  lemma InclusionExact(h: Hasher, leaves: seq<Digest>, leaf: Bytes, index: int, proof: seq<Bytes>)
    requires 0 <= index < |leaves| ==>
               var walked := Walk(h, index, |leaves| - 1, Start(leaf), proof);
               walked.Some? ==> NoCollision(h, TreeInputs(h, leaves, 0, |leaves|) + walked.value.hashed)
    ensures Included(h, leaf, index, |leaves|, proof, MerkleRoot(h, leaves)) && |leaf| == 32
            <==> 0 <= index < |leaves| && leaf == leaves[index] && Some(proof) == InclusionProof(h, leaves, index)
  {
    if 0 <= index < |leaves| {
      AcceptedPath(h, leaves, leaf, index, proof);
      hide Walk, PathFold, TreeInputs, Root, Path, NoCollision, Start, Included;
      if Reaches(PathFold(h, index, |leaves|, leaf, proof), MerkleRoot(h, leaves)) && |leaf| == 32 {
        InclusionSound(h, leaves, leaf, index, proof);
      }
      if leaf == leaves[index] && Some(proof) == InclusionProof(h, leaves, index) {
        PathFoldComplete(h, leaves, 0, |leaves|, index);
      }
    }
  }

  lemma InclusionSound(h: Hasher, leaves: seq<Digest>, leaf: Bytes, index: nat, proof: seq<Bytes>)
    requires index < |leaves| && |leaf| == 32
    requires var f := PathFold(h, index, |leaves|, leaf, proof);
      Reaches(f, MerkleRoot(h, leaves)) && NoCollision(h, TreeInputs(h, leaves, 0, |leaves|) + f.value.hashed)
    ensures leaf == leaves[index] && Some(proof) == InclusionProof(h, leaves, index)
  {
    hide PathFold, TreeInputs, Root, Path, NoCollision;
    var f := PathFold(h, index, |leaves|, leaf, proof);
    PathFoldSound(h, TreeInputs(h, leaves, 0, |leaves|) + f.value.hashed, leaves, 0, |leaves|, index, leaf, proof);
  }

  /** Here too no length is checked: in every log of two entries 31 bytes that are no leaf are included. */
  lemma ShortLeafIncluded(h: Hasher, leaves: seq<Digest>)
    requires |leaves| == 2
    ensures var leaf, proof := leaves[0][..31], [leaves[0][31..] + leaves[1]];
            && Included(h, leaf, 0, 2, proof, MerkleRoot(h, leaves))
            && leaf !in leaves
  {
    var leaf, sibling := leaves[0][..31], leaves[0][31..] + leaves[1];
    assert NodeInput(leaf, sibling) == NodeInput(leaves[0], leaves[1]);
    assert Split(2) == 1;
    assert Root(h, leaves, 0, 2) == HashChildren(h, leaves[0], leaves[1]);
    var after := RightOf(h, Start(leaf), sibling);
    assert Walk(h, 0, 0, after, []) == Some(after);
    var proof: seq<Bytes> := [sibling];
    assert proof[1..] == [];
    assert Walk(h, 0, 1, Start(leaf), proof) == Some(after);
  }

  /** A root and a size name one log. */
  lemma {:induction false} WindowInjective(h: Hasher, s: set<Bytes>, d: seq<Digest>, e: seq<Digest>, lo: nat, hi: nat)
    requires lo <= hi <= |d| && hi <= |e|
    requires NoCollision(h, s) && TreeInputs(h, d, lo, hi) <= s && TreeInputs(h, e, lo, hi) <= s
    requires Root(h, d, lo, hi) == Root(h, e, lo, hi)
    ensures d[lo..hi] == e[lo..hi]
    decreases hi - lo
  {
    hide TreeInputs, HashChildren, NodeInput, Split;
    if hi - lo > 1 {
      hide Root;
      var k := WindowsSplit(h, s, d, e, lo, hi);
      WindowInjective(h, s, d, e, lo, lo + k);
      WindowInjective(h, s, d, e, lo + k, hi);
      assert d[lo..hi] == d[lo..lo + k] + d[lo + k..hi];
      assert e[lo..hi] == e[lo..lo + k] + e[lo + k..hi];
    }
  }

  lemma WindowsSplit(h: Hasher, s: set<Bytes>, d: seq<Digest>, e: seq<Digest>, lo: nat, hi: nat) returns (k: nat)
    requires lo + 2 <= hi <= |d| && hi <= |e|
    requires NoCollision(h, s) && TreeInputs(h, d, lo, hi) <= s && TreeInputs(h, e, lo, hi) <= s
    requires Root(h, d, lo, hi) == Root(h, e, lo, hi)
    ensures 0 < k < hi - lo
    ensures TreeInputs(h, d, lo, lo + k) <= s && TreeInputs(h, e, lo, lo + k) <= s
    ensures TreeInputs(h, d, lo + k, hi) <= s && TreeInputs(h, e, lo + k, hi) <= s
    ensures Root(h, d, lo, lo + k) == Root(h, e, lo, lo + k)
    ensures Root(h, d, lo + k, hi) == Root(h, e, lo + k, hi)
  {
    hide Root, TreeInputs, HashChildren, NodeInput, Split;
    k := Split(hi - lo);
    RootUnfolds(h, d, lo, hi);
    RootUnfolds(h, e, lo, hi);
    NodeInjective(h, s, Root(h, d, lo, lo + k), Root(h, d, lo + k, hi), Root(h, e, lo, lo + k), Root(h, e, lo + k, hi));
  }

  // ---------------------------------------------------------------- what is hashed, byte by byte

  /** The two kinds of input are told apart by their first byte, so no leaf hash is a node's. */
  lemma LeafIsNoNode(h: Hasher, data: Bytes, left: Bytes, right: Bytes)
    requires NoCollision(h, {[0] + data, [1] + left + right})
    ensures LeafHash(h, data) == h.sha([0] + data) && HashChildren(h, left, right) == h.sha([1] + left + right)
    ensures LeafHash(h, data) != HashChildren(h, left, right)
  {
    var leaf, node: Bytes := [0] + data, [1] + left + right;
    assert leaf[0] == 0 && node[0] == 1;
    assert leaf in {[0] + data, [1] + left + right} && node in {[0] + data, [1] + left + right};
  }

  /** A root depends only on the leaves in its window. */
  lemma {:induction false} RootOfWindow(h: Hasher, d: seq<Digest>, lo: nat, hi: nat, e: seq<Digest>, shift: int)
    requires lo <= hi <= |d| && 0 <= lo + shift && hi + shift <= |e|
    requires forall i :: lo <= i < hi ==> d[i] == e[i + shift]
    ensures Root(h, d, lo, hi) == Root(h, e, lo + shift, hi + shift)
    decreases hi - lo
  {
    hide Split, HashChildren;
    if hi - lo > 1 {
      var k := Split(hi - lo);
      RootOfWindow(h, d, lo, lo + k, e, shift);
      RootOfWindow(h, d, lo + k, hi, e, shift);
    }
  }

  /**
   * The tree of RFC 6962, section 2.1: no leaf hashes the empty string, one leaf is its own root, and a
   * complete left part with a right part no longer than it, and not empty, is the node over their roots.
   */
  lemma RootIsRecursive(h: Hasher, a: seq<Digest>, b: seq<Digest>, p: nat, leaf: Digest)
    requires |a| == Pow2(p) && 1 <= |b| <= |a|
    ensures MerkleRoot(h, []) == h.sha([]) && MerkleRoot(h, [leaf]) == leaf
    ensures MerkleRoot(h, a + b) == h.sha([1] + MerkleRoot(h, a) + MerkleRoot(h, b))
  {
    RootJoins(h, a + b, |a|, p);
    hide MerkleRoot, Root, Pow2;
    LeftWindow(h, a, b);
    RightWindow(h, a, b);
    SmallRoots(h, leaf);
  }

  lemma SmallRoots(h: Hasher, leaf: Digest)
    ensures MerkleRoot(h, []) == h.sha([]) && MerkleRoot(h, [leaf]) == leaf
  {
  }

  lemma RootJoins(h: Hasher, all: seq<Digest>, k: nat, p: nat)
    requires k == Pow2(p) && k < |all| <= 2 * k
    ensures MerkleRoot(h, all) == HashChildren(h, Root(h, all, 0, k), Root(h, all, k, |all|))
  {
    SplitUnique(|all|, p);
    hide Root, Split, Pow2, TreeInputs, HashChildren, NodeInput;
    RootUnfolds(h, all, 0, |all|);
  }

  lemma LeftWindow(h: Hasher, a: seq<Digest>, b: seq<Digest>)
    ensures Root(h, a + b, 0, |a|) == MerkleRoot(h, a)
  {
    hide Root;
    RootOfWindow(h, a + b, 0, |a|, a, 0);
  }

  lemma RightWindow(h: Hasher, a: seq<Digest>, b: seq<Digest>)
    ensures Root(h, a + b, |a|, |a + b|) == MerkleRoot(h, b)
  {
    hide Root;
    RootOfWindow(h, a + b, |a|, |a| + |b|, b, -|a|);
  }

  // ---------------------------------------------------------------- the entries under the leaves

  ghost function LeafHashes(h: Hasher, entries: seq<Bytes>): (leaves: seq<Digest>)
    ensures |leaves| == |entries| && forall i :: 0 <= i < |entries| ==> leaves[i] == LeafHash(h, entries[i])
  {
    if entries == [] then [] else LeafHashes(h, entries[..|entries| - 1]) + [LeafHash(h, entries[|entries| - 1])]
  }

  ghost function LeafInputs(entries: seq<Bytes>): set<Bytes> {
    set i | 0 <= i < |entries| :: LeafInput(entries[i])
  }

  /** The root over these entries. */
  ghost function EntriesRoot(h: Hasher, entries: seq<Bytes>): Digest {
    MerkleRoot(h, LeafHashes(h, entries))
  }

  /** Everything that root hashes. */
  ghost function EntriesInputs(h: Hasher, entries: seq<Bytes>): set<Bytes> {
    if entries == [] then {[]} else LeafInputs(entries) + TreeInputs(h, LeafHashes(h, entries), 0, |entries|)
  }

  /** The input whose hash the window's root is: a leaf's for one entry, a node's for more. */
  lemma RootInput(h: Hasher, entries: seq<Bytes>, lo: nat, hi: nat) returns (input: Bytes)
    requires lo < hi <= |entries|
    ensures Root(h, LeafHashes(h, entries), lo, hi) == h.sha(input) && input != []
    ensures input in LeafInputs(entries) + TreeInputs(h, LeafHashes(h, entries), lo, hi)
    ensures input[0] == if hi - lo == 1 then 0 else 1
  {
    hide LeafHashes;
    var leaves := LeafHashes(h, entries);
    if hi - lo == 1 {
      input := LeafInput(entries[lo]);
    } else {
      RootUnfolds(h, leaves, lo, hi);
      var k := Split(hi - lo);
      input := NodeInput(Root(h, leaves, lo, lo + k), Root(h, leaves, lo + k, hi));
    }
  }

  lemma HalvesInside(h: Hasher, s: set<Bytes>, leaves: seq<Digest>, lo: nat, hi: nat) returns (k: nat)
    requires lo + 2 <= hi <= |leaves| && TreeInputs(h, leaves, lo, hi) <= s
    ensures 0 < k < hi - lo
    ensures TreeInputs(h, leaves, lo, lo + k) <= s && TreeInputs(h, leaves, lo + k, hi) <= s
    ensures Root(h, leaves, lo, hi) == HashChildren(h, Root(h, leaves, lo, lo + k), Root(h, leaves, lo + k, hi))
    ensures NodeInput(Root(h, leaves, lo, lo + k), Root(h, leaves, lo + k, hi)) in s
  {
    hide Root, TreeInputs, HashChildren, NodeInput, Split;
    k := Split(hi - lo);
    RootUnfolds(h, leaves, lo, hi);
  }

  /** Windows with one root are both leaves or both nodes. */
  lemma EqualKinds(h: Hasher, s: set<Bytes>, d: seq<Bytes>, lo: nat, hi: nat, e: seq<Bytes>, from: nat, upto: nat)
    requires lo < hi <= |d| && from < upto <= |e| && NoCollision(h, s)
    requires LeafInputs(d) + TreeInputs(h, LeafHashes(h, d), lo, hi) <= s
    requires LeafInputs(e) + TreeInputs(h, LeafHashes(h, e), from, upto) <= s
    requires Root(h, LeafHashes(h, d), lo, hi) == Root(h, LeafHashes(h, e), from, upto)
    ensures hi - lo == 1 <==> upto - from == 1
  {
    var x := RootInput(h, d, lo, hi);
    var y := RootInput(h, e, from, upto);
    hide LeafHashes, Root, TreeInputs, LeafInputs;
    assert x in s && y in s;
  }

  /** Windows with one root over more than one entry are nodes over halves with equal roots. */
  lemma EqualHalves(h: Hasher, s: set<Bytes>, a: seq<Digest>, lo: nat, hi: nat, b: seq<Digest>, from: nat, upto: nat)
    returns (k: nat, j: nat)
    requires lo + 2 <= hi <= |a| && from + 2 <= upto <= |b| && NoCollision(h, s)
    requires TreeInputs(h, a, lo, hi) <= s && TreeInputs(h, b, from, upto) <= s
    requires Root(h, a, lo, hi) == Root(h, b, from, upto)
    ensures 0 < k < hi - lo && 0 < j < upto - from
    ensures Root(h, a, lo, lo + k) == Root(h, b, from, from + j) && Root(h, a, lo + k, hi) == Root(h, b, from + j, upto)
    ensures TreeInputs(h, a, lo, lo + k) <= s && TreeInputs(h, a, lo + k, hi) <= s
    ensures TreeInputs(h, b, from, from + j) <= s && TreeInputs(h, b, from + j, upto) <= s
  {
    hide Root, TreeInputs, HashChildren, NodeInput, NoCollision;
    k := HalvesInside(h, s, a, lo, hi);
    j := HalvesInside(h, s, b, from, upto);
    NodeInjective(h, s, Root(h, a, lo, lo + k), Root(h, a, lo + k, hi),
                  Root(h, b, from, from + j), Root(h, b, from + j, upto));
  }

  /** Windows of any lengths with one root hold the same entries. */
  lemma {:induction false} EqualWindows(h: Hasher, s: set<Bytes>, d: seq<Bytes>, lo: nat, hi: nat,
                                        e: seq<Bytes>, from: nat, upto: nat)
    requires lo < hi <= |d| && from < upto <= |e| && NoCollision(h, s)
    requires LeafInputs(d) + TreeInputs(h, LeafHashes(h, d), lo, hi) <= s
    requires LeafInputs(e) + TreeInputs(h, LeafHashes(h, e), from, upto) <= s
    requires Root(h, LeafHashes(h, d), lo, hi) == Root(h, LeafHashes(h, e), from, upto)
    ensures d[lo..hi] == e[from..upto]
    decreases hi - lo
  {
    hide LeafHashes, Root, TreeInputs, LeafInputs, NoCollision;
    EqualKinds(h, s, d, lo, hi, e, from, upto);
    if hi - lo == 1 {
      OneEntry(h, s, d, lo, e, from);
      assert d[lo..hi] == [d[lo]] == [e[from]] == e[from..upto];
    } else {
      var k, j := EqualHalves(h, s, LeafHashes(h, d), lo, hi, LeafHashes(h, e), from, upto);
      EqualWindows(h, s, d, lo, lo + k, e, from, from + j);
      EqualWindows(h, s, d, lo + k, hi, e, from + j, upto);
      assert d[lo..hi] == d[lo..lo + k] + d[lo + k..hi];
      assert e[from..upto] == e[from..from + j] + e[from + j..upto];
    }
  }

  lemma OneEntry(h: Hasher, s: set<Bytes>, d: seq<Bytes>, i: nat, e: seq<Bytes>, j: nat)
    requires i < |d| && j < |e| && NoCollision(h, s) && LeafInputs(d) <= s && LeafInputs(e) <= s
    requires Root(h, LeafHashes(h, d), i, i + 1) == Root(h, LeafHashes(h, e), j, j + 1)
    ensures d[i] == e[j]
  {
    var x, y := LeafInput(d[i]), LeafInput(e[j]);
    assert x in LeafInputs(d) && y in LeafInputs(e);
    assert x == y && x[1..] == d[i] && y[1..] == e[j];
  }

  /**
   * A root names its entries, and how many there are: two lists of any lengths with one root are one
   * list. Entries that look like nodes, or the other way round, change nothing.
   */
  lemma RootNamesEntries(h: Hasher, d: seq<Bytes>, e: seq<Bytes>)
    requires NoCollision(h, EntriesInputs(h, d) + EntriesInputs(h, e))
    ensures EntriesRoot(h, d) == EntriesRoot(h, e) <==> d == e
  {
    if d != [] && e != [] {
      if EntriesRoot(h, d) == EntriesRoot(h, e) {
        EqualWindows(h, EntriesInputs(h, d) + EntriesInputs(h, e), d, 0, |d|, e, 0, |e|);
        assert d[..|d|] == d && e[..|e|] == e;
      }
    } else if d != [] {
      NotTheEmptyRoot(h, d);
    } else if e != [] {
      NotTheEmptyRoot(h, e);
    }
  }

  lemma NotTheEmptyRoot(h: Hasher, d: seq<Bytes>)
    requires d != [] && NoCollision(h, EntriesInputs(h, d) + {[]})
    ensures EntriesRoot(h, d) != EntriesRoot(h, [])
  {
    var x := RootInput(h, d, 0, |d|);
    hide LeafInputs, TreeInputs;
    var s := EntriesInputs(h, d) + {[]};
    var none: Bytes := [];
    assert x in s && none in s && x != none;
  }
}
