/** The subkey tree: leaf and node hashing, root, sibling paths, membership check. */
module Merkle {
  import opened Encoding

  const LEAF_PREFIX: byte := 0x00
  const NODE_PREFIX: byte := 0x01

  /** What one leaf commits to besides its index. */
  datatype Commitment = Commitment(tag: byte, mlPk: Field, slhPk: Field)

  // ─── Messages and hashes ───────────────────────────────────────────────────

  function LeafMessage(index: nat, c: Commitment): Bytes
    requires index < U32_LIMIT
  {
    [LEAF_PREFIX] + BE32(index) + [c.tag] + Lp(c.mlPk) + Lp(c.slhPk)
  }

  function SubkeyLeaf(h: Hash, index: nat, c: Commitment): Digest
    requires index < U32_LIMIT
  {
    h(LeafMessage(index, c))
  }

  function NodeMessage(left: Digest, right: Digest): Bytes
  {
    [NODE_PREFIX] + left + right
  }

  function HashNode(h: Hash, left: Digest, right: Digest): Digest
  {
    h(NodeMessage(left, right))
  }

  function Digests(h: Hash, messages: seq<Bytes>): (r: seq<Digest>)
    ensures |r| == |messages|
  {
    seq(|messages|, i requires 0 <= i < |messages| => h(messages[i]))
  }

  // ─── One level of the tree ─────────────────────────────────────────────────

  /** The right half of pair `i`; an odd last node is paired with itself. */
  function Partner(level: seq<Digest>, i: nat): Digest
    requires 2 * i < |level|
  {
    if 2 * i + 1 < |level| then level[2 * i + 1] else level[2 * i]
  }

  function PairMessage(level: seq<Digest>, i: nat): Bytes
    requires 2 * i < |level|
  {
    NodeMessage(level[2 * i], Partner(level, i))
  }

  function PairMessages(level: seq<Digest>): (r: seq<Bytes>)
    ensures |r| == (|level| + 1) / 2
  {
    seq((|level| + 1) / 2, i requires 0 <= i < (|level| + 1) / 2 => PairMessage(level, i))
  }

  function NextLevel(h: Hash, level: seq<Digest>): (r: seq<Digest>)
    ensures |r| == (|level| + 1) / 2
  {
    Digests(h, PairMessages(level))
  }

  function Sibling(level: seq<Digest>, idx: nat): Digest
    requires idx < |level|
  {
    if idx % 2 == 0 then Partner(level, idx / 2) else level[idx - 1]
  }

  // ─── Root, path and fold ───────────────────────────────────────────────────

  function Root(h: Hash, level: seq<Digest>): Digest
    decreases |level|
  {
    if |level| == 0 then ZERO_DIGEST
    else if |level| == 1 then level[0]
    else Root(h, NextLevel(h, level))
  }

  function Depth(n: nat): nat
  {
    if n <= 1 then 0 else 1 + Depth((n + 1) / 2)
  }

  function Path(h: Hash, level: seq<Digest>, idx: nat): (r: seq<Digest>)
    requires idx < |level|
    ensures |r| == Depth(|level|)
    decreases |level|
  {
    if |level| == 1 then [] else [Sibling(level, idx)] + Path(h, NextLevel(h, level), idx / 2)
  }

  function StepMessage(acc: Digest, idx: nat, sibling: Digest): Bytes
  {
    if idx % 2 == 0 then NodeMessage(acc, sibling) else NodeMessage(sibling, acc)
  }

  function Fold(h: Hash, acc: Digest, idx: nat, siblings: seq<Digest>): Digest
    decreases |siblings|
  {
    if siblings == [] then acc else Fold(h, h(StepMessage(acc, idx, siblings[0])), idx / 2, siblings[1..])
  }

  predicate Member(h: Hash, root: Digest, index: nat, c: Commitment, siblings: seq<Digest>)
    requires index < U32_LIMIT
  {
    Fold(h, SubkeyLeaf(h, index, c), index, siblings) == root
  }

  // ─── Completeness and path length ──────────────────────────────────────────

  lemma SiblingCompletesPair(level: seq<Digest>, idx: nat)
    requires idx < |level|
    ensures StepMessage(level[idx], idx, Sibling(level, idx)) == PairMessages(level)[idx / 2]
  {
    if idx % 2 == 0 {
      assert 2 * (idx / 2) == idx;
    } else {
      assert 2 * (idx / 2) + 1 == idx && Partner(level, idx / 2) == level[idx];
    }
  }

  lemma PathUp(h: Hash, level: seq<Digest>, idx: nat)
    requires idx < |level| && |level| > 1
    ensures Path(h, level, idx) == [Sibling(level, idx)] + Path(h, NextLevel(h, level), idx / 2)
  {
  }

  /** Folding the path of an index from its leaf reaches the root, odd levels included. */
  lemma {:induction false} PathFoldsToRoot(h: Hash, level: seq<Digest>, idx: nat)
    requires idx < |level|
    ensures Fold(h, level[idx], idx, Path(h, level, idx)) == Root(h, level)
    decreases |level|
  {
    if |level| > 1 {
      SiblingCompletesPair(level, idx);
      PathUp(h, level, idx);
      PathFoldsToRoot(h, NextLevel(h, level), idx / 2);
    }
  }

  function Pow2(k: nat): nat
  {
    if k == 0 then 1 else 2 * Pow2(k - 1)
  }

  /** A path of length `k` serves exactly the sizes in (2^(k-1), 2^k]; one leaf needs no path. */
  lemma {:induction false} DepthExact(n: nat, k: nat)
    requires n > 0
    ensures Depth(n) == k <==> n <= Pow2(k) && (k > 0 ==> Pow2(k - 1) < n)
  {
    if n > 1 {
      if k > 0 {
        DepthExact((n + 1) / 2, k - 1);
      }
    } else if k > 0 {
      Pow2Positive(k - 1);
    }
  }

  lemma {:induction false} Pow2Positive(k: nat)
    ensures Pow2(k) > 0
  {
    if k > 0 {
      Pow2Positive(k - 1);
    }
  }

  /** Halving first: the remainder keeps the low bit, the quotient is that of the half. */
  lemma LowBitFirst(i: nat, p: nat)
    requires p > 0
    ensures i % (2 * p) == i % 2 + 2 * ((i / 2) % p) && i / (2 * p) == (i / 2) / p
  {
    var q, r := (i / 2) / p, (i / 2) % p;
    assert i / 2 == q * p + r;
    assert i == q * (2 * p) + (2 * r + i % 2);
    DivModUnique(i, 2 * p, q, 2 * r + i % 2);
  }

  /** Euclidean quotient and remainder are the only ones. */
  lemma DivModUnique(x: nat, n: nat, q: nat, t: nat)
    requires t < n && x == q * n + t
    ensures x / n == q && x % n == t
  {
    QuotientsAgree(n, q, t, x / n, x % n);
  }

  lemma QuotientsAgree(n: nat, q: nat, t: nat, q': nat, t': nat)
    requires t < n && t' < n && q * n + t == q' * n + t'
    ensures q == q' && t == t'
  {
    if q < q' {
      TimesGap(n, q, q');
    } else if q' < q {
      TimesGap(n, q', q);
    }
  }

  lemma {:induction false} TimesGap(n: nat, small: nat, large: nat)
    requires small < large
    ensures large * n >= small * n + n
    decreases large
  {
    if small + 1 < large {
      TimesGap(n, small, large - 1);
    }
    assert large * n == (large - 1) * n + n;
  }

  // ─── The same in bytes ─────────────────────────────────────────────────────

  /** A leaf is a zero byte, the index, the tag and the two keys with their lengths. */
  lemma LeafBytes(h: Hash, index: nat, c: Commitment)
    requires index < U32_LIMIT
    ensures SubkeyLeaf(h, index, c) ==
      h([0] + BE32(index) + [c.tag] + BE32(|c.mlPk|) + c.mlPk + BE32(|c.slhPk|) + c.slhPk)
  {
    assert LeafMessage(index, c) ==
      [0] + BE32(index) + [c.tag] + BE32(|c.mlPk|) + c.mlPk + BE32(|c.slhPk|) + c.slhPk;
  }

  /** `next` hashes the pairs of `level` in order, each after a one byte, an odd last one with itself. */
  ghost predicate HashesPairs(h: Hash, level: seq<Digest>, next: seq<Digest>)
  {
    && |next| == (|level| + 1) / 2
    && forall i :: 0 <= i < |next| ==>
         next[i] == h([1] + level[2 * i] + if 2 * i + 1 < |level| then level[2 * i + 1] else level[2 * i])
  }

  /** Hashing pairs level by level leads from these nodes to this one root. */
  ghost predicate HashesTo(h: Hash, level: seq<Digest>, root: Digest)
    decreases |level|
  {
    if |level| <= 1 then level == [root]
    else exists next :: HashesPairs(h, level, next) && HashesTo(h, next, root)
  }

  lemma PairsDetermined(h: Hash, level: seq<Digest>, next: seq<Digest>)
    ensures HashesPairs(h, level, next) <==> next == NextLevel(h, level)
  {
    var pairs := PairMessages(level);
    assert forall i :: 0 <= i < |pairs| ==>
      pairs[i] == [1] + level[2 * i] + if 2 * i + 1 < |level| then level[2 * i + 1] else level[2 * i];
  }

  /** The root of a non-empty list is what they lead to, and nothing else is. */
  lemma {:induction false} RootExact(h: Hash, leaves: seq<Digest>, root: Digest)
    requires leaves != []
    ensures HashesTo(h, leaves, root) <==> root == Root(h, leaves)
    decreases |leaves|
  {
    if |leaves| > 1 {
      var next := NextLevel(h, leaves);
      PairsDetermined(h, leaves, next);
      RootExact(h, next, root);
      forall other | HashesPairs(h, leaves, other)
        ensures other == next
      {
        PairsDetermined(h, leaves, other);
      }
    }
  }

  /** In particular one leaf is its own root, and two are hashed once. */
  lemma SmallRoots(h: Hash, a: Digest, b: Digest)
    ensures (forall k :: 0 <= k < 32 ==> Root(h, [])[k] == 0) && Root(h, [a]) == a && Root(h, [a, b]) == h([1] + a + b)
  {
    var next := NextLevel(h, [a, b]);
    assert PairMessages([a, b])[0] == [1] + a + b;
    assert Root(h, [a, b]) == Root(h, next) == next[0];
  }

  /** `accs` starts at the leaf and goes up one sibling at a time; bit `k` of the index says on which side
      the k-th sibling stands. */
  ghost predicate Climbs(h: Hash, index: nat, siblings: seq<Digest>, accs: seq<Digest>)
  {
    && |accs| == |siblings| + 1
    && forall k :: 0 <= k < |siblings| ==>
         accs[k + 1] == h(if Bit(index, k) then [1] + siblings[k] + accs[k] else [1] + accs[k] + siblings[k])
  }

  ghost predicate Bit(index: nat, k: nat)
  {
    Pow2(k) > 0 && index / Pow2(k) % 2 == 1
  }

  lemma BitOfHalf(index: nat, k: nat)
    ensures Bit(index / 2, k) <==> Bit(index, k + 1)
  {
    Pow2Positive(k);
    LowBitFirst(index, Pow2(k));
  }

  lemma {:induction false} FoldClimbs(h: Hash, acc: Digest, index: nat, siblings: seq<Digest>)
      returns (accs: seq<Digest>)
    ensures Climbs(h, index, siblings, accs) && accs[0] == acc && accs[|siblings|] == Fold(h, acc, index, siblings)
    decreases |siblings|
  {
    if siblings == [] {
      accs := [acc];
    } else {
      var above := FoldClimbs(h, h(StepMessage(acc, index, siblings[0])), index / 2, siblings[1..]);
      accs := [acc] + above;
      forall k | 0 <= k < |siblings|
        ensures accs[k + 1] ==
          h(if Bit(index, k) then [1] + siblings[k] + accs[k] else [1] + accs[k] + siblings[k])
      {
        if k > 0 {
          BitOfHalf(index, k - 1);
          assert siblings[1..][k - 1] == siblings[k] && accs[k] == above[k - 1] && accs[k + 1] == above[k];
        }
      }
    }
  }

  lemma {:induction false} ClimbIsFold(h: Hash, index: nat, siblings: seq<Digest>, accs: seq<Digest>)
    requires Climbs(h, index, siblings, accs)
    ensures accs[|siblings|] == Fold(h, accs[0], index, siblings)
    decreases |siblings|
  {
    if siblings != [] {
      forall k | 0 <= k < |siblings| - 1
        ensures accs[1..][k + 1] ==
          h(if Bit(index / 2, k) then [1] + siblings[1..][k] + accs[1..][k] else [1] + accs[1..][k] + siblings[1..][k])
      {
        BitOfHalf(index, k);
        assert accs[1..][k + 1] == accs[(k + 1) + 1];
      }
      ClimbIsFold(h, index / 2, siblings[1..], accs[1..]);
      assert accs[1] == h(StepMessage(accs[0], index, siblings[0]));
    }
  }

  /** The check in bytes: the claim's leaf climbs to the root. */
  ghost predicate ClimbsTo(h: Hash, index: nat, c: Commitment, siblings: seq<Digest>, accs: seq<Digest>, root: Digest)
    requires index < U32_LIMIT
  {
    && Climbs(h, index, siblings, accs)
    && accs[0] == h([0] + BE32(index) + [c.tag] + BE32(|c.mlPk|) + c.mlPk + BE32(|c.slhPk|) + c.slhPk)
    && accs[|siblings|] == root
  }

  lemma MemberClimbs(h: Hash, root: Digest, index: nat, c: Commitment, siblings: seq<Digest>)
    requires index < U32_LIMIT
    ensures Member(h, root, index, c, siblings) <==> exists accs :: ClimbsTo(h, index, c, siblings, accs, root)
  {
    LeafBytes(h, index, c);
    var up := FoldClimbs(h, SubkeyLeaf(h, index, c), index, siblings);
    if Member(h, root, index, c, siblings) {
      assert ClimbsTo(h, index, c, siblings, up, root);
    }
    forall accs | ClimbsTo(h, index, c, siblings, accs, root)
      ensures Member(h, root, index, c, siblings)
    {
      ClimbIsFold(h, index, siblings, accs);
    }
  }

  /** With one sibling, which side it stands on is the parity of the index. */
  lemma OneSibling(h: Hash, root: Digest, index: nat, c: Commitment, sibling: Digest)
    requires index < U32_LIMIT
    ensures var leaf := h([0] + BE32(index) + [c.tag] + BE32(|c.mlPk|) + c.mlPk + BE32(|c.slhPk|) + c.slhPk);
      Member(h, root, index, c, [sibling]) <==>
        root == if index % 2 == 0 then h([1] + leaf + sibling) else h([1] + sibling + leaf)
  {
    LeafBytes(h, index, c);
    var leaf := SubkeyLeaf(h, index, c);
    assert Fold(h, leaf, index, [sibling]) == Fold(h, h(StepMessage(leaf, index, sibling)), index / 2, []);
  }

  // ─── The loops ─────────────────────────────────────────────────────────────

  /** The inner loop over chunks of two. */
  method CombinePairs(h: Hash, level: seq<Digest>) returns (next: seq<Digest>)
    ensures next == NextLevel(h, level) && HashesPairs(h, level, next)
  {
    next := [];
    var i := 0;
    while i < |level|
      invariant i == 2 * |next| || (i == |level| && |next| == (|level| + 1) / 2)
      invariant |next| <= (|level| + 1) / 2
      invariant forall j :: 0 <= j < |next| ==> next[j] == NextLevel(h, level)[j]
      decreases |level| - i
    {
      var chunk := level[i..if i + 2 <= |level| then i + 2 else |level|];
      var right := if |chunk| > 1 then chunk[1] else chunk[0];
      next := next + [HashNode(h, chunk[0], right)];
      i := i + |chunk|;
    }
  }

  method MerkleRoot(h: Hash, leaves: seq<Digest>) returns (root: Digest)
    ensures root == Root(h, leaves)
    ensures leaves == [] ==> forall k :: 0 <= k < 32 ==> root[k] == 0
    ensures leaves != [] ==> HashesTo(h, leaves, root)
  {
    if |leaves| == 0 {
      return ZERO_DIGEST;
    }
    var level := leaves;
    while |level| > 1
      invariant |level| > 0
      invariant Root(h, level) == Root(h, leaves)
      decreases |level|
    {
      level := CombinePairs(h, level);
    }
    RootExact(h, leaves, level[0]);
    return level[0];
  }

  method MerkleProof(h: Hash, leaves: seq<Digest>, index: nat) returns (proof: seq<Digest>)
    requires index < |leaves|
    ensures proof == Path(h, leaves, index)
  {
    proof := [];
    var level := leaves;
    var idx: nat := index;
    while |level| > 1
      invariant idx < |level|
      invariant proof + Path(h, level, idx) == Path(h, leaves, index)
      decreases |level|
    {
      var sibling :=
        if idx % 2 == 0 then (if idx + 1 < |level| then level[idx + 1] else level[idx]) else level[idx - 1];
      SiblingLookup(level, idx);
      PathMoves(h, proof, level, idx);
      proof := proof + [sibling];
      level := CombinePairs(h, level);
      idx := idx / 2;
    }
  }

  lemma SiblingLookup(level: seq<Digest>, idx: nat)
    requires idx < |level| && |level| > 1
    ensures Sibling(level, idx) ==
      if idx % 2 == 0 then (if idx + 1 < |level| then level[idx + 1] else level[idx]) else level[idx - 1]
  {
  }

  lemma PathMoves(h: Hash, proof: seq<Digest>, level: seq<Digest>, idx: nat)
    requires idx < |level| && |level| > 1
    ensures proof + Path(h, level, idx) == (proof + [Sibling(level, idx)]) + Path(h, NextLevel(h, level), idx / 2)
  {
    PathUp(h, level, idx);
    Associative(proof, [Sibling(level, idx)], Path(h, NextLevel(h, level), idx / 2));
  }

  method VerifyMembership(h: Hash, root: Digest, index: nat, c: Commitment, siblings: seq<Digest>) returns (ok: bool)
    requires index < U32_LIMIT
    ensures ok <==> Member(h, root, index, c, siblings)
    ensures ok <==> exists accs :: ClimbsTo(h, index, c, siblings, accs, root)
  {
    var acc: Digest := SubkeyLeaf(h, index, c);
    var idx: nat := index;
    for i := 0 to |siblings|
      invariant Fold(h, acc, idx, siblings[i..]) == Fold(h, SubkeyLeaf(h, index, c), index, siblings)
    {
      acc := if idx % 2 == 0 then HashNode(h, acc, siblings[i]) else HashNode(h, siblings[i], acc);
      idx := idx / 2;
      assert siblings[i..][1..] == siblings[i + 1..];
    }
    MemberClimbs(h, root, index, c, siblings);
    return acc == root;
  }
}
