/** What a root binds when nobody is known to have built a tree for it: how far two accepted claims for
    one index can differ. */
module MerkleOpenings {
  import opened Encoding
  import opened Merkle
  import opened MerkleSoundness

  // ─── Which steps two walks take on the same side ───────────────────────────

  /** The two positions are left or right children together for `m` levels up: their low `m` bits agree. */
  predicate SameSides(i: nat, j: nat, m: nat)
  {
    m == 0 || (i % 2 == j % 2 && SameSides(i / 2, j / 2, m - 1))
  }

  /** A position `d` levels up. */
  function Up(i: nat, d: nat): nat
  {
    if d == 0 then i else Up(i / 2, d - 1)
  }

  lemma {:induction false} SameSidesReflexive(i: nat, m: nat)
    ensures SameSides(i, i, m)
  {
    if m > 0 {
      SameSidesReflexive(i / 2, m - 1);
    }
  }

  /** Do paths of `m` and of `n` siblings for index `i` end in `m` steps on the same sides? */
  predicate Aligned(i: nat, m: nat, n: nat)
    requires m <= n
  {
    SameSides(i, Up(i, n - m), m)
  }

  /** In numbers: the low `m` bits of the index are those of the index shifted right by the difference. */
  lemma AlignedIsLowBits(i: nat, m: nat, n: nat)
    requires m <= n
    ensures Pow2(m) > 0 && Pow2(n - m) > 0
    ensures Aligned(i, m, n) <==> i % Pow2(m) == (i / Pow2(n - m)) % Pow2(m)
  {
    Pow2Positive(m);
    Pow2Positive(n - m);
    UpIsShift(i, n - m);
    SameSidesIsLowBits(i, Up(i, n - m), m);
  }

  lemma {:induction false} SameSidesIsLowBits(i: nat, j: nat, m: nat)
    requires Pow2(m) > 0
    ensures SameSides(i, j, m) <==> i % Pow2(m) == j % Pow2(m)
  {
    if m > 0 {
      Pow2Positive(m - 1);
      LowBitFirst(i, Pow2(m - 1));
      LowBitFirst(j, Pow2(m - 1));
      SameSidesIsLowBits(i / 2, j / 2, m - 1);
    }
  }

  lemma {:induction false} UpIsShift(i: nat, d: nat)
    requires Pow2(d) > 0
    ensures Up(i, d) == i / Pow2(d)
  {
    if d > 0 {
      Pow2Positive(d - 1);
      UpIsShift(i / 2, d - 1);
      LowBitFirst(i, Pow2(d - 1));
    }
  }

  // ─── Aligned paths ─────────────────────────────────────────────────────────

  lemma StepMessageInjective(idx: nat, acc: Digest, sibling: Digest, idx': nat, acc': Digest, sibling': Digest)
    requires idx % 2 == idx' % 2 && StepMessage(acc, idx, sibling) == StepMessage(acc', idx', sibling')
    ensures acc == acc' && sibling == sibling'
  {
    if idx % 2 == 0 {
      NodeMessageInjective(acc, sibling, acc', sibling');
    } else {
      NodeMessageInjective(sibling, acc, sibling', acc');
    }
  }

  /** Two openings of one digest with equally many siblings, on the same sides all the way, are the same
      opening, or two of the messages hashed for them collide. */
  function ExtractSameOpening(
      h: Hash, idx: nat, held: Bytes, siblings: seq<Digest>, idx': nat, held': Bytes, siblings': seq<Digest>)
      : (v: Verdict)
    requires |siblings| == |siblings'| && SameSides(idx, idx', |siblings|)
    requires Fold(h, h(held), idx, siblings) == Fold(h, h(held'), idx', siblings')
    ensures v.Genuine? ==> held == held' && siblings == siblings'
    ensures v.Collision? ==>
      Collides(h, v, {held} + FoldMessages(h, h(held), idx, siblings),
               {held'} + FoldMessages(h, h(held'), idx', siblings'))
    decreases |siblings|
  {
    if siblings == [] then if held == held' then Genuine else Collision(held, held')
    else
      var next, next' := StepMessage(h(held), idx, siblings[0]), StepMessage(h(held'), idx', siblings'[0]);
      var above := ExtractSameOpening(h, idx / 2, next, siblings[1..], idx' / 2, next', siblings'[1..]);
      if above.Collision? then above
      else
        StepMessageInjective(idx, h(held), siblings[0], idx', h(held'), siblings'[0]);
        assert siblings == [siblings[0]] + siblings[1..] && siblings' == [siblings'[0]] + siblings'[1..];
        if held == held' then Genuine else Collision(held, held')
  }

  /** Any root whatever opens an index to at most one subkey and path of each length, or a collision
      between the two checks is returned. */
  function ExtractSameClaim(
      h: Hash, root: Digest, index: nat, c: Commitment, siblings: seq<Digest>, d: Commitment, siblings': seq<Digest>)
      : (v: Verdict)
    requires index < U32_LIMIT && |siblings| == |siblings'|
    requires Member(h, root, index, c, siblings) && Member(h, root, index, d, siblings')
    ensures v.Genuine? ==> c == d && siblings == siblings'
    ensures v.Collision? ==>
      Collides(h, v, VerifierMessages(h, index, c, siblings), VerifierMessages(h, index, d, siblings'))
  {
    SameSidesReflexive(index, |siblings|);
    var v := ExtractSameOpening(h, index, LeafMessage(index, c), siblings, index, LeafMessage(index, d), siblings');
    if v.Collision? then v
    else
      LeafMessageInjective(index, c, index, d);
      Genuine
  }

  /** A leaf with the shorter path against a node on the way of the longer one: strips the longer path to
      the same length and always finds a collision. */
  function ExtractSurplusCollision(
      h: Hash, idx: nat, leaf: Bytes, siblings: seq<Digest>, idx': nat, node: Bytes, siblings': seq<Digest>)
      : (v: Verdict)
    requires IsLeaf(leaf) && IsNode(node) && |siblings| <= |siblings'|
    requires SameSides(idx, Up(idx', |siblings'| - |siblings|), |siblings|)
    requires Fold(h, h(leaf), idx, siblings) == Fold(h, h(node), idx', siblings')
    ensures v.Collision?
    ensures Collides(h, v, {leaf} + FoldMessages(h, h(leaf), idx, siblings),
                     {node} + FoldMessages(h, h(node), idx', siblings'))
    decreases |siblings'|
  {
    if |siblings| == |siblings'| then ExtractSameOpening(h, idx, leaf, siblings, idx', node, siblings')
    else
      ExtractSurplusCollision(
        h, idx, leaf, siblings, idx' / 2, StepMessage(h(node), idx', siblings'[0]), siblings'[1..])
  }

  /** When the two lengths are aligned for the index, no root opens it with both: a collision between
      the two checks is returned, whatever the two subkeys. */
  function ExtractLengthCollision(
      h: Hash, root: Digest, index: nat, c: Commitment, siblings: seq<Digest>, d: Commitment, siblings': seq<Digest>)
      : (v: Verdict)
    requires index < U32_LIMIT && |siblings| < |siblings'| && Aligned(index, |siblings|, |siblings'|)
    requires Member(h, root, index, c, siblings) && Member(h, root, index, d, siblings')
    ensures v.Collision?
    ensures Collides(h, v, VerifierMessages(h, index, c, siblings), VerifierMessages(h, index, d, siblings'))
  {
    var held' := LeafMessage(index, d);
    ExtractSurplusCollision(
      h, index, LeafMessage(index, c), siblings,
      index / 2, StepMessage(h(held'), index, siblings'[0]), siblings'[1..])
  }

  // ─── Paths that are not aligned ────────────────────────────────────────────

  lemma FoldStep(h: Hash, acc: Digest, idx: nat, sibling: Digest, rest: seq<Digest>)
    ensures Fold(h, acc, idx, [sibling] + rest) == Fold(h, h(StepMessage(acc, idx, sibling)), idx / 2, rest)
  {
    assert ([sibling] + rest)[1..] == rest;
  }

  /** With itself as sibling an accumulator goes up the same way on either side. */
  lemma {:induction false} SelfSiblings(h: Hash, acc: Digest, idx: nat, idx': nat, m: nat) returns (s: seq<Digest>)
    ensures |s| == m && Fold(h, acc, idx, s) == Fold(h, acc, idx', s)
    decreases m
  {
    if m == 0 {
      s := [];
    } else {
      var rest := SelfSiblings(h, HashNode(h, acc, acc), idx / 2, idx' / 2, m - 1);
      s := [acc] + rest;
      FoldStep(h, acc, idx, acc, rest);
      FoldStep(h, acc, idx', acc, rest);
    }
  }

  /** Any two accumulators whose sides differ somewhere can be brought to one digest: where they differ,
      each is the other's sibling. */
  lemma {:induction false} Bridge(h: Hash, acc: Digest, idx: nat, acc': Digest, idx': nat, m: nat)
      returns (s: seq<Digest>, s': seq<Digest>)
    requires !SameSides(idx, idx', m)
    ensures |s| == |s'| == m && Fold(h, acc, idx, s) == Fold(h, acc', idx', s')
    decreases m
  {
    if idx % 2 != idx' % 2 {
      var met := h(StepMessage(acc, idx, acc'));
      var rest := SelfSiblings(h, met, idx / 2, idx' / 2, m - 1);
      s, s' := [acc'] + rest, [acc] + rest;
      FoldStep(h, acc, idx, acc', rest);
      FoldStep(h, acc', idx', acc, rest);
    } else {
      var up, up' := h(StepMessage(acc, idx, ZERO_DIGEST)), h(StepMessage(acc', idx', ZERO_DIGEST));
      var rest, rest' := Bridge(h, up, idx / 2, up', idx' / 2, m - 1);
      s, s' := [ZERO_DIGEST] + rest, [ZERO_DIGEST] + rest';
      FoldStep(h, acc, idx, ZERO_DIGEST, rest);
      FoldStep(h, acc', idx', ZERO_DIGEST, rest');
    }
  }

  lemma {:induction false} BridgeLonger(h: Hash, acc: Digest, idx: nat, acc': Digest, idx': nat, m: nat, d: nat)
      returns (s: seq<Digest>, s': seq<Digest>)
    requires !SameSides(idx, Up(idx', d), m)
    ensures |s| == m && |s'| == m + d && Fold(h, acc, idx, s) == Fold(h, acc', idx', s')
    decreases d
  {
    if d == 0 {
      s, s' := Bridge(h, acc, idx, acc', idx', m);
    } else {
      var rest';
      s, rest' := BridgeLonger(h, acc, idx, h(StepMessage(acc', idx', ZERO_DIGEST)), idx' / 2, m, d - 1);
      s' := [ZERO_DIGEST] + rest';
      FoldStep(h, acc', idx', ZERO_DIGEST, rest');
    }
  }

  /** When they are not, every hash has a root that opens the index to any two subkeys with them. */
  lemma OpenToAnyTwo(h: Hash, index: nat, m: nat, n: nat, c: Commitment, d: Commitment)
      returns (root: Digest, siblings: seq<Digest>, siblings': seq<Digest>)
    requires index < U32_LIMIT && m < n && !Aligned(index, m, n)
    ensures |siblings| == m && |siblings'| == n
    ensures Member(h, root, index, c, siblings) && Member(h, root, index, d, siblings')
  {
    var acc := SubkeyLeaf(h, index, c);
    siblings, siblings' := BridgeLonger(h, acc, index, SubkeyLeaf(h, index, d), index, m, n - m);
    root := Fold(h, acc, index, siblings);
  }

  /** Some root opens the index to these two subkeys with paths of these lengths. */
  ghost predicate Opens(h: Hash, index: nat, c: Commitment, m: nat, d: Commitment, n: nat)
    requires index < U32_LIMIT
  {
    exists root, siblings, siblings' ::
      |siblings| == m && |siblings'| == n && OpensBoth(h, root, index, c, siblings, d, siblings')
  }

  ghost predicate OpensBoth(
      h: Hash, root: Digest, index: nat, c: Commitment, siblings: seq<Digest>, d: Commitment, siblings': seq<Digest>)
    requires index < U32_LIMIT
  {
    Member(h, root, index, c, siblings) && Member(h, root, index, d, siblings')
  }

  ghost predicate CollidingChecks(
      h: Hash, index: nat, c: Commitment, siblings: seq<Digest>, d: Commitment, siblings': seq<Digest>)
    requires index < U32_LIMIT
  {
    !NoCollisionBetween(h, VerifierMessages(h, index, c, siblings), VerifierMessages(h, index, d, siblings'))
  }

  /** Alignment decides: aligned lengths never open one index without colliding checks, and lengths that
      are not aligned open it to every two subkeys. */
  lemma LengthsExact(h: Hash, index: nat, m: nat, n: nat)
    requires index < U32_LIMIT && m < n
    ensures Aligned(index, m, n) ==>
      forall root, c, siblings, d, siblings' ::
        |siblings| == m && |siblings'| == n && OpensBoth(h, root, index, c, siblings, d, siblings') ==>
          CollidingChecks(h, index, c, siblings, d, siblings')
    ensures !Aligned(index, m, n) ==> forall c, d :: Opens(h, index, c, m, d, n)
  {
    if Aligned(index, m, n) {
      forall root, c, siblings, d, siblings' |
        |siblings| == m && |siblings'| == n && OpensBoth(h, root, index, c, siblings, d, siblings')
        ensures CollidingChecks(h, index, c, siblings, d, siblings')
      {
        var v := ExtractLengthCollision(h, root, index, c, siblings, d, siblings');
      }
    } else {
      forall c, d
        ensures Opens(h, index, c, m, d, n)
      {
        var root, siblings, siblings' := OpenToAnyTwo(h, index, m, n, c, d);
        assert OpensBoth(h, root, index, c, siblings, d, siblings');
      }
    }
  }

  // ─── Two ends of the condition ─────────────────────────────────────────────

  /** Index 0 is aligned for all lengths. */
  lemma {:induction false} IndexZeroAligned(m: nat, n: nat)
    requires m <= n
    ensures Aligned(0, m, n)
  {
    UpZero(n - m);
    SameSidesReflexive(0, m);
  }

  lemma {:induction false} UpZero(d: nat)
    ensures Up(0, d) == 0
  {
    if d > 0 {
      UpZero(d - 1);
    }
  }

  /** Index 1 with paths of one and two siblings is not; this is the root that opens it to two subkeys. */
  lemma TwoLengthsTwoSubkeys(h: Hash, c: Commitment, d: Commitment, s: Digest)
    ensures !Aligned(1, 1, 2)
    ensures var left, right := SubkeyLeaf(h, 1, c), HashNode(h, s, SubkeyLeaf(h, 1, d));
      var root := HashNode(h, right, left);
      Member(h, root, 1, c, [right]) && Member(h, root, 1, d, [s, left])
  {
    assert Up(1, 1) == 0;
    var left, right := SubkeyLeaf(h, 1, c), HashNode(h, s, SubkeyLeaf(h, 1, d));
    FoldStep(h, left, 1, right, []);
    FoldStep(h, SubkeyLeaf(h, 1, d), 1, s, [left]);
    FoldStep(h, right, 0, left, []);
    assert [right] + [] == [right] && [s] + [left] == [s, left] && [left] + [] == [left];
  }
}
