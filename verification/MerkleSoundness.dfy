/** What an accepted membership proof means. Nothing is assumed of the hash: every result is an
    extractor that either confirms the claim or hands back two different messages with the same
    digest, one hashed by the verifier and one hashed when the tree was built. */
module MerkleSoundness {
  import opened Wrappers
  import opened Encoding
  import opened Merkle

  datatype Verdict = Genuine | Collision(x: Bytes, y: Bytes)

  ghost predicate Collides(h: Hash, v: Verdict, xs: set<Bytes>, ys: set<Bytes>)
    requires v.Collision?
  {
    v.x != v.y && h(v.x) == h(v.y) && v.x in xs && v.y in ys
  }

  // ─── The committed set and the messages each side hashes ───────────────────

  /** Leaf `i` of a committed list carries `i` in its message. */
  function LeafMessages(commits: seq<Commitment>): (r: seq<Bytes>)
    requires |commits| <= U32_LIMIT
    ensures |r| == |commits|
  {
    seq(|commits|, i requires 0 <= i < |commits| => LeafMessage(i, commits[i]))
  }

  function Leaves(h: Hash, commits: seq<Commitment>): (r: seq<Digest>)
    requires |commits| <= U32_LIMIT
    ensures |r| == |commits|
  {
    Digests(h, LeafMessages(commits))
  }

  function Elements(messages: seq<Bytes>): set<Bytes>
  {
    set m | m in messages
  }

  /** Every node message hashed on the way from a level to the root. */
  function TreeMessages(h: Hash, level: seq<Digest>): set<Bytes>
    decreases |level|
  {
    if |level| <= 1 then {} else Elements(PairMessages(level)) + TreeMessages(h, NextLevel(h, level))
  }

  /** Everything hashed to build the tree over a committed list. */
  function BuilderMessages(h: Hash, commits: seq<Commitment>): set<Bytes>
    requires |commits| <= U32_LIMIT
  {
    Elements(LeafMessages(commits)) + TreeMessages(h, Leaves(h, commits))
  }

  function FoldMessages(h: Hash, acc: Digest, idx: nat, siblings: seq<Digest>): set<Bytes>
    decreases |siblings|
  {
    if siblings == [] then {}
    else
      var m := StepMessage(acc, idx, siblings[0]);
      {m} + FoldMessages(h, h(m), idx / 2, siblings[1..])
  }

  /** Everything hashed to check one membership claim. */
  function VerifierMessages(h: Hash, index: nat, c: Commitment, siblings: seq<Digest>): set<Bytes>
    requires index < U32_LIMIT
  {
    {LeafMessage(index, c)} + FoldMessages(h, SubkeyLeaf(h, index, c), index, siblings)
  }

  lemma LeafMessageInjective(i: nat, c: Commitment, j: nat, d: Commitment)
    requires i < U32_LIMIT && j < U32_LIMIT
    requires LeafMessage(i, c) == LeafMessage(j, d)
    ensures i == j && c == d
  {
    LeafMessageParts(i, c);
    LeafMessageParts(j, d);
  }

  lemma LeafMessageParts(i: nat, c: Commitment)
    requires i < U32_LIMIT
    ensures var m := LeafMessage(i, c);
      && |m| > 6 && FromBE32(m[1..5]) == i && m[5] == c.tag
      && TakeField(m[6..]) == Some((c.mlPk, Lp(c.slhPk))) && TakeField(Lp(c.slhPk)) == Some((c.slhPk, []))
  {
    var m := LeafMessage(i, c);
    assert m[1..5] == BE32(i);
    BE32RoundTrip(i);
    assert m[6..] == Lp(c.mlPk) + Lp(c.slhPk);
    TakeFieldOfLp(c.mlPk, Lp(c.slhPk));
    assert Lp(c.slhPk) + [] == Lp(c.slhPk);
    TakeFieldOfLp(c.slhPk, []);
  }

  lemma NodeMessageInjective(a: Digest, b: Digest, c: Digest, d: Digest)
    requires NodeMessage(a, b) == NodeMessage(c, d)
    ensures a == c && b == d
  {
    var m := NodeMessage(a, b);
    assert m[1..33] == a && m[1..33] == c;
    assert m[33..] == b && m[33..] == d;
  }

  // ─── Paths exactly as long as the tree is deep ─────────────────────────────

  datatype Located = At(pos: nat) | Clash(x: Bytes, y: Bytes)

  /** Walks the folded path against the tree, from the root down to `level`. The position found can
      differ from `idx` (high bits, or the copy of an odd last node); when it does not, the siblings
      are the honest path. */
  function Locate(h: Hash, level: seq<Digest>, idx: nat, acc: Digest, siblings: seq<Digest>): (r: Located)
    requires |level| > 0 && |siblings| == Depth(|level|)
    requires Fold(h, acc, idx, siblings) == Root(h, level)
    ensures r.At? ==>
      r.pos < |level| && acc == level[r.pos] && (r.pos == idx ==> siblings == Path(h, level, idx))
    ensures r.Clash? ==>
      r.x != r.y && h(r.x) == h(r.y) && r.x in FoldMessages(h, acc, idx, siblings) && r.y in TreeMessages(h, level)
    decreases |level|
  {
    if |level| == 1 then At(0)
    else
      var mine := StepMessage(acc, idx, siblings[0]);
      var above := Locate(h, NextLevel(h, level), idx / 2, h(mine), siblings[1..]);
      if above.Clash? then above
      else if mine != PairMessages(level)[above.pos] then Clash(mine, PairMessages(level)[above.pos])
      else
        StepMatchesPair(level, idx, acc, siblings[0], above.pos);
        assert siblings == [siblings[0]] + siblings[1..];
        At(Below(level, idx, above.pos))
  }

  /** The node the path came from, given the pair it led to; an odd last node is its own right half. */
  function Below(level: seq<Digest>, idx: nat, pair: nat): (pos: nat)
    requires 2 * pair < |level|
    ensures pos < |level|
  {
    if idx % 2 == 1 && 2 * pair + 1 < |level| then 2 * pair + 1 else 2 * pair
  }

  lemma StepMatchesPair(level: seq<Digest>, idx: nat, acc: Digest, sibling: Digest, pair: nat)
    requires 2 * pair < |level| && StepMessage(acc, idx, sibling) == PairMessages(level)[pair]
    ensures var pos := Below(level, idx, pair);
      && acc == level[pos] && (pos == idx ==> pair == idx / 2 && sibling == Sibling(level, idx))
  {
    if idx % 2 == 0 {
      NodeMessageInjective(acc, sibling, level[2 * pair], Partner(level, pair));
    } else {
      NodeMessageInjective(sibling, acc, level[2 * pair], Partner(level, pair));
    }
  }

  // ─── Paths that are too long or too short ──────────────────────────────────

  predicate IsNode(m: Bytes) { |m| > 0 && m[0] == NODE_PREFIX }

  predicate IsLeaf(m: Bytes) { |m| > 0 && m[0] == LEAF_PREFIX }

  /** The verifier still holds a node when the tree has reached its leaves. */
  function Surplus(h: Hash, leafMsgs: seq<Bytes>, idx: nat, held: Bytes, siblings: seq<Digest>): (r: (Bytes, Bytes))
    requires |leafMsgs| > 0 && forall i :: 0 <= i < |leafMsgs| ==> IsLeaf(leafMsgs[i])
    requires IsNode(held) && |siblings| >= Depth(|leafMsgs|)
    requires Fold(h, h(held), idx, siblings) == Root(h, Digests(h, leafMsgs))
    ensures r.0 != r.1 && h(r.0) == h(r.1)
    ensures r.0 in {held} + FoldMessages(h, h(held), idx, siblings)
    ensures r.1 in Elements(leafMsgs) + TreeMessages(h, Digests(h, leafMsgs))
    decreases |siblings|
  {
    if |siblings| == Depth(|leafMsgs|) then
      var l := Locate(h, Digests(h, leafMsgs), idx, h(held), siblings);
      if l.Clash? then (l.x, l.y) else assert IsLeaf(leafMsgs[l.pos]); (held, leafMsgs[l.pos])
    else
      Surplus(h, leafMsgs, idx / 2, StepMessage(h(held), idx, siblings[0]), siblings[1..])
  }

  /** The verifier stands on its leaf while the tree still holds nodes. */
  function Shortfall(h: Hash, origins: seq<Bytes>, idx: nat, leaf: Bytes, siblings: seq<Digest>): (r: (Bytes, Bytes))
    requires |origins| > 0 && forall i :: 0 <= i < |origins| ==> IsNode(origins[i])
    requires IsLeaf(leaf) && |siblings| <= Depth(|origins|)
    requires Fold(h, h(leaf), idx, siblings) == Root(h, Digests(h, origins))
    ensures r.0 != r.1 && h(r.0) == h(r.1)
    ensures r.0 in {leaf} + FoldMessages(h, h(leaf), idx, siblings)
    ensures r.1 in Elements(origins) + TreeMessages(h, Digests(h, origins))
    decreases |origins|
  {
    var level := Digests(h, origins);
    if |siblings| == Depth(|origins|) then
      var l := Locate(h, level, idx, h(leaf), siblings);
      if l.Clash? then (l.x, l.y) else assert IsNode(origins[l.pos]); (leaf, origins[l.pos])
    else
      Shortfall(h, PairMessages(level), idx, leaf, siblings)
  }

  // ─── Membership soundness ──────────────────────────────────────────────────

  ghost predicate Committed(h: Hash, commits: seq<Commitment>, index: nat, c: Commitment, siblings: seq<Digest>)
    requires |commits| <= U32_LIMIT
  {
    index < |commits| && commits[index] == c && siblings == Path(h, Leaves(h, commits), index)
  }

  /** An accepted claim about a non-empty committed list is the one honest claim for its index. */
  function ExtractMembership(
      h: Hash, commits: seq<Commitment>, index: nat, c: Commitment, siblings: seq<Digest>): (v: Verdict)
    requires 0 < |commits| <= U32_LIMIT && index < U32_LIMIT
    requires Member(h, Root(h, Leaves(h, commits)), index, c, siblings)
    ensures v.Genuine? ==> Committed(h, commits, index, c, siblings)
    ensures v.Collision? ==>
      Collides(h, v, VerifierMessages(h, index, c, siblings), BuilderMessages(h, commits))
  {
    var mine, leafMsgs := LeafMessage(index, c), LeafMessages(commits);
    var leaves := Leaves(h, commits);
    if |siblings| == Depth(|commits|) then
      var l := Locate(h, leaves, index, h(mine), siblings);
      if l.Clash? then Collision(l.x, l.y)
      else if mine != leafMsgs[l.pos] then Collision(mine, leafMsgs[l.pos])
      else
        LeafMessageInjective(index, c, l.pos, commits[l.pos]);
        Genuine
    else if |siblings| > Depth(|commits|) then
      var r := Surplus(h, leafMsgs, index / 2, StepMessage(h(mine), index, siblings[0]), siblings[1..]);
      Collision(r.0, r.1)
    else
      var r := Shortfall(h, PairMessages(leaves), index, mine, siblings);
      Collision(r.0, r.1)
  }

  /** The last message the verifier hashes. */
  function LastMessage(h: Hash, held: Bytes, idx: nat, siblings: seq<Digest>): (m: Bytes)
    ensures h(m) == Fold(h, h(held), idx, siblings)
    decreases |siblings|
  {
    if siblings == [] then held
    else LastMessage(h, StepMessage(h(held), idx, siblings[0]), idx / 2, siblings[1..])
  }

  /** Against the root of an empty list, acceptance exhibits a preimage of the zero digest. */
  function ExtractZeroPreimage(h: Hash, index: nat, c: Commitment, siblings: seq<Digest>): (m: Bytes)
    requires index < U32_LIMIT && Member(h, Root(h, Leaves(h, [])), index, c, siblings)
    ensures h(m) == ZERO_DIGEST && m in VerifierMessages(h, index, c, siblings)
  {
    LastMessageHashed(h, LeafMessage(index, c), index, siblings);
    LastMessage(h, LeafMessage(index, c), index, siblings)
  }

  lemma {:induction false} LastMessageHashed(h: Hash, held: Bytes, idx: nat, siblings: seq<Digest>)
    ensures LastMessage(h, held, idx, siblings) in {held} + FoldMessages(h, h(held), idx, siblings)
    decreases |siblings|
  {
    if siblings != [] {
      LastMessageHashed(h, StepMessage(h(held), idx, siblings[0]), idx / 2, siblings[1..]);
    }
  }

  ghost predicate NoCollisionBetween(h: Hash, xs: set<Bytes>, ys: set<Bytes>)
  {
    forall x, y :: x in xs && y in ys && h(x) == h(y) ==> x == y
  }

  /** Unless the two sides' own hash inputs collide, the check accepts exactly the committed subkeys
      with their one honest path, whatever index and however many siblings are presented. */
  lemma MembershipExact(h: Hash, commits: seq<Commitment>, index: nat, c: Commitment, siblings: seq<Digest>)
    requires 0 < |commits| <= U32_LIMIT && index < U32_LIMIT
    requires NoCollisionBetween(h, VerifierMessages(h, index, c, siblings), BuilderMessages(h, commits))
    ensures Member(h, Root(h, Leaves(h, commits)), index, c, siblings)
      <==> Committed(h, commits, index, c, siblings)
  {
    if Member(h, Root(h, Leaves(h, commits)), index, c, siblings) {
      var v := ExtractMembership(h, commits, index, c, siblings);
      assert v.Genuine?;
    }
    if Committed(h, commits, index, c, siblings) {
      PathFoldsToRoot(h, Leaves(h, commits), index);
    }
  }

  // ─── The root determines the committed list ────────────────────────────────

  lemma TreeMessagesUp(h: Hash, level: seq<Digest>, i: nat)
    requires |level| > 1 && i < |PairMessages(level)|
    ensures {PairMessages(level)[i]} + TreeMessages(h, NextLevel(h, level)) <= TreeMessages(h, level)
  {
  }

  /** Verifying an honest path hashes nothing the builder did not hash. */
  lemma {:induction false} HonestFoldHashesTreeNodes(h: Hash, level: seq<Digest>, idx: nat)
    requires idx < |level|
    ensures FoldMessages(h, level[idx], idx, Path(h, level, idx)) <= TreeMessages(h, level)
    decreases |level|
  {
    if |level| > 1 {
      SiblingCompletesPair(level, idx);
      PathUp(h, level, idx);
      TreeMessagesUp(h, level, idx / 2);
      HonestFoldHashesTreeNodes(h, NextLevel(h, level), idx / 2);
    }
  }

  /** Completeness for a committed list, and what the honest check hashes. */
  lemma HonestMember(h: Hash, commits: seq<Commitment>, i: nat)
    requires i < |commits| <= U32_LIMIT
    ensures var path := Path(h, Leaves(h, commits), i);
      && Member(h, Root(h, Leaves(h, commits)), i, commits[i], path)
      && VerifierMessages(h, i, commits[i], path) <= BuilderMessages(h, commits)
  {
    var leaves := Leaves(h, commits);
    assert LeafMessages(commits)[i] == LeafMessage(i, commits[i]);
    PathFoldsToRoot(h, leaves, i);
    HonestFoldHashesTreeNodes(h, leaves, i);
  }

  ghost predicate SameRoot(h: Hash, a: seq<Commitment>, b: seq<Commitment>)
    requires |a| <= U32_LIMIT && |b| <= U32_LIMIT
  {
    Root(h, Leaves(h, a)) == Root(h, Leaves(h, b))
  }

  ghost predicate Agree(a: seq<Commitment>, b: seq<Commitment>, j: nat)
  {
    j < |a| && j < |b| && a[j] == b[j]
  }

  /** Opens leaf `i` of `b` against the tree of `a`. */
  function ExtractOneLeaf(h: Hash, a: seq<Commitment>, b: seq<Commitment>, i: nat): (v: Verdict)
    requires 0 < |a| <= U32_LIMIT && i < |b| <= U32_LIMIT && SameRoot(h, a, b)
    ensures v.Genuine? ==> Agree(a, b, i)
    ensures v.Collision? ==> Collides(h, v, BuilderMessages(h, b), BuilderMessages(h, a))
  {
    HonestMember(h, b, i);
    ExtractMembership(h, a, i, b[i], Path(h, Leaves(h, b), i))
  }

  function ExtractInclusion(h: Hash, a: seq<Commitment>, b: seq<Commitment>, i: nat): (v: Verdict)
    requires 0 < |a| <= U32_LIMIT && i <= |b| <= U32_LIMIT && SameRoot(h, a, b)
    ensures v.Genuine? ==> forall j: nat :: i <= j < |b| ==> Agree(a, b, j)
    ensures v.Collision? ==> Collides(h, v, BuilderMessages(h, b), BuilderMessages(h, a))
    decreases |b| - i
  {
    if i == |b| then Genuine
    else
      var first := ExtractOneLeaf(h, a, b, i);
      if first.Collision? then first else ExtractInclusion(h, a, b, i + 1)
  }

  /** Two committed lists of any lengths with one root are one list. */
  function ExtractSameList(h: Hash, a: seq<Commitment>, b: seq<Commitment>): (v: Verdict)
    requires 0 < |a| <= U32_LIMIT && 0 < |b| <= U32_LIMIT && SameRoot(h, a, b)
    ensures v.Genuine? ==> a == b
    ensures v.Collision? ==>
      Collides(h, v, BuilderMessages(h, b), BuilderMessages(h, a)) ||
      Collides(h, v, BuilderMessages(h, a), BuilderMessages(h, b))
  {
    var forth := ExtractInclusion(h, a, b, 0);
    if forth.Collision? then forth
    else
      assert Agree(a, b, |b| - 1);
      var back := ExtractInclusion(h, b, a, 0);
      assert back.Genuine? ==> Agree(b, a, |a| - 1) && forall j: nat :: j < |a| ==> Agree(b, a, j) && a[j] == b[j];
      back
  }

  /** For leaves that need not carry their index, equal lengths are enough. */
  function ExtractSameLeaves(h: Hash, a: seq<Digest>, b: seq<Digest>): (v: Verdict)
    requires |a| == |b| > 0 && Root(h, a) == Root(h, b)
    ensures v.Genuine? ==> a == b
    ensures v.Collision? ==> Collides(h, v, TreeMessages(h, a), TreeMessages(h, b))
    decreases |a|
  {
    if |a| == 1 then Genuine
    else
      var above := ExtractSameLeaves(h, NextLevel(h, a), NextLevel(h, b));
      if above.Collision? then above else FirstDifference(h, a, b, 0)
  }

  function FirstDifference(h: Hash, a: seq<Digest>, b: seq<Digest>, i: nat): (v: Verdict)
    requires |a| == |b| && i <= (|a| + 1) / 2 && NextLevel(h, a) == NextLevel(h, b)
    ensures v.Genuine? ==> forall j :: 2 * i <= j < |a| ==> a[j] == b[j]
    ensures v.Collision? ==> Collides(h, v, Elements(PairMessages(a)), Elements(PairMessages(b)))
    decreases |a| - i
  {
    if i == (|a| + 1) / 2 then Genuine
    else
      var x, y := PairMessages(a)[i], PairMessages(b)[i];
      assert h(x) == NextLevel(h, a)[i] && h(y) == NextLevel(h, b)[i];
      if x != y then Collision(x, y)
      else
        NodeMessageInjective(a[2 * i], Partner(a, i), b[2 * i], Partner(b, i));
        FirstDifference(h, a, b, i + 1)
  }

  // ─── Lists of different lengths ────────────────────────────────────────────

  /** `x` hashed with itself `k` times over. */
  function Doubled(h: Hash, x: Digest, k: nat): Digest
    decreases k
  {
    if k == 0 then x else Doubled(h, HashNode(h, x, x), k - 1)
  }

  function Copies(x: Digest, n: nat): (r: seq<Digest>)
    ensures |r| == n
  {
    seq(n, _ => x)
  }

  lemma CopiesUp(h: Hash, x: Digest, n: nat)
    ensures NextLevel(h, Copies(x, n)) == Copies(HashNode(h, x, x), (n + 1) / 2)
  {
    var level := Copies(x, n);
    forall i: nat | i < (n + 1) / 2
      ensures NextLevel(h, level)[i] == HashNode(h, x, x)
    {
      assert PairMessages(level)[i] == NodeMessage(x, x);
    }
  }

  lemma {:induction false} RootOfCopies(h: Hash, x: Digest, n: nat)
    requires n > 0
    ensures Root(h, Copies(x, n)) == Doubled(h, x, Depth(n))
    decreases n
  {
    if n > 1 {
      CopiesUp(h, x, n);
      RootUp(h, Copies(x, n));
      RootOfCopies(h, HashNode(h, x, x), (n + 1) / 2);
    }
  }

  lemma {:induction false} DoubledTwice(h: Hash, x: Digest, j: nat, k: nat)
    ensures Doubled(h, Doubled(h, x, j), k) == Doubled(h, x, j + k)
    decreases j
  {
    if j > 0 {
      DoubledTwice(h, HashNode(h, x, x), j - 1, k);
    }
  }

  lemma {:induction false} DepthMonotone(m: nat, n: nat)
    requires m <= n
    ensures Depth(m) <= Depth(n)
  {
    if m > 1 {
      DepthMonotone((m + 1) / 2, (n + 1) / 2);
    }
  }

  /** Without the index inside the leaf, equal lengths are also needed: for any two different lengths
      and every hash there are lists of those lengths with one root. */
  lemma DifferentLengthsShareRoot(h: Hash, x: Digest, m: nat, n: nat) returns (a: seq<Digest>, b: seq<Digest>)
    requires 0 < m < n
    ensures |a| == m && |b| == n && Root(h, a) == Root(h, b)
  {
    DepthMonotone(m, n);
    var y := Doubled(h, x, Depth(n) - Depth(m));
    a, b := Copies(y, m), Copies(x, n);
    RootOfCopies(h, y, m);
    RootOfCopies(h, x, n);
    DoubledTwice(h, x, Depth(n) - Depth(m), Depth(m));
  }

  /** The nearest case: repeating the last of an odd number of leaves above one keeps the root. */
  lemma DuplicatedLastLeafKeepsRoot(h: Hash, leaves: seq<Digest>)
    requires |leaves| % 2 == 1 && |leaves| > 1
    ensures Root(h, leaves + [leaves[|leaves| - 1]]) == Root(h, leaves)
  {
    DuplicatedLastPairs(leaves);
    RootUp(h, leaves);
    RootUp(h, leaves + [leaves[|leaves| - 1]]);
  }

  lemma RootUp(h: Hash, level: seq<Digest>)
    requires |level| > 1
    ensures Root(h, level) == Root(h, Digests(h, PairMessages(level)))
  {
  }

  lemma DuplicatedLastPairs(leaves: seq<Digest>)
    requires |leaves| % 2 == 1
    ensures PairMessages(leaves + [leaves[|leaves| - 1]]) == PairMessages(leaves)
  {
    var n := |leaves|;
    var longer := leaves + [leaves[n - 1]];
    forall i: nat | i < (n + 1) / 2
      ensures PairMessage(longer, i) == PairMessage(leaves, i)
    {
      assert longer[2 * i] == leaves[2 * i];
      assert 2 * i + 1 < n ==> longer[2 * i + 1] == leaves[2 * i + 1];
      assert 2 * i + 1 == n ==> longer[2 * i + 1] == leaves[2 * i];
    }
    forall i: nat | i < (n + 1) / 2
      ensures PairMessages(longer)[i] == PairMessages(leaves)[i]
    {
      assert PairMessage(longer, i) == PairMessage(leaves, i);
    }
  }
}
