/** OpenTimestamps proofs: the step-tree walk, the header check, and what an anchor means. */
module Ots {
  import opened Wrappers
  import opened Encoding

  /** An operation of a proof; what it does to a byte string is an arbitrary function. */
  datatype Op = Op(code: nat, argument: Bytes)
  type Execute = (Op, Bytes) -> Bytes

  datatype StepData =
    | Bitcoin(height: nat)
    | Pending(uri: string)
    | UnknownAttestation
    | Operation(op: Op)
    | Fork

  datatype Step = Step(data: StepData, output: Bytes, next: seq<Step>)

  datatype Proof = Proof(startDigest: Bytes, firstStep: Step)

  /** A Bitcoin attestation as found in the tree. */
  datatype BitcoinClaim = BitcoinClaim(height: nat, committed: Bytes)

  datatype Anchor = Anchor(height: nat, merkleRoot: Digest)

  datatype Error =
    | Codec
    | DigestMismatch(proof: string, expected: string)
    | MerkleRootMismatch(height: nat, committed: string, actual: string)
    | NotAnchored
    | HeaderSource(message: string)

  type RootSource = nat -> Result<Digest, string>

  // ─── The attestations of a tree, in pre-order ──────────────────────────────

  /** The two kinds of attestation the walk collects. */
  datatype Kind = OfBitcoin | OfPending

  predicate IsKind(data: StepData, kind: Kind)
  {
    match kind
    case OfBitcoin => data.Bitcoin?
    case OfPending => data.Pending?
  }

  /** Every step of one kind. */
  function Collected(step: Step, kind: Kind): (r: seq<Step>)
    ensures forall i :: 0 <= i < |r| ==> IsKind(r[i].data, kind)
    decreases step, 1
  {
    (if IsKind(step.data, kind) then [step] else []) + CollectedOfAll(step.next, kind)
  }

  function CollectedOfAll(steps: seq<Step>, kind: Kind): (r: seq<Step>)
    ensures forall i :: 0 <= i < |r| ==> IsKind(r[i].data, kind)
    decreases steps, 0
  {
    if steps == [] then [] else Collected(steps[0], kind) + CollectedOfAll(steps[1..], kind)
  }

  function ClaimsOf(steps: seq<Step>): (r: seq<BitcoinClaim>)
    requires forall i :: 0 <= i < |steps| ==> steps[i].data.Bitcoin?
    ensures |r| == |steps|
  {
    seq(|steps|, i requires 0 <= i < |steps| => BitcoinClaim(steps[i].data.height, steps[i].output))
  }

  function UrisOf(steps: seq<Step>): (r: seq<string>)
    requires forall i :: 0 <= i < |steps| ==> steps[i].data.Pending?
    ensures |r| == |steps|
  {
    seq(|steps|, i requires 0 <= i < |steps| => steps[i].data.uri)
  }

  function Bitcoins(step: Step): (r: seq<BitcoinClaim>)
    ensures |r| == |Collected(step, OfBitcoin)|
  {
    ClaimsOf(Collected(step, OfBitcoin))
  }

  function Pendings(step: Step): (r: seq<string>)
    ensures |r| == |Collected(step, OfPending)|
  {
    UrisOf(Collected(step, OfPending))
  }

  function BitcoinsOfAll(steps: seq<Step>): seq<BitcoinClaim>
  {
    ClaimsOf(CollectedOfAll(steps, OfBitcoin))
  }

  function PendingsOfAll(steps: seq<Step>): seq<string>
  {
    UrisOf(CollectedOfAll(steps, OfPending))
  }

  lemma WalkStep(step: Step)
    ensures Bitcoins(step) ==
      (if step.data.Bitcoin? then [BitcoinClaim(step.data.height, step.output)] else []) + BitcoinsOfAll(step.next)
    ensures Pendings(step) == (if step.data.Pending? then [step.data.uri] else []) + PendingsOfAll(step.next)
  {
  }

  lemma WalkNext(steps: seq<Step>)
    requires steps != []
    ensures BitcoinsOfAll(steps) == Bitcoins(steps[0]) + BitcoinsOfAll(steps[1..])
    ensures PendingsOfAll(steps) == Pendings(steps[0]) + PendingsOfAll(steps[1..])
  {
  }

  /** The two vectors the walk pushes into. */
  class Attestations {
    var bitcoin: seq<BitcoinClaim>
    var pending: seq<string>

    constructor ()
      ensures bitcoin == [] && pending == []
    {
      bitcoin := [];
      pending := [];
    }
  }

  method CollectAttestations(step: Step, acc: Attestations)
    modifies acc
    ensures acc.bitcoin == old(acc.bitcoin) + Bitcoins(step)
    ensures acc.pending == old(acc.pending) + Pendings(step)
    decreases step
  {
    WalkStep(step);
    match step.data {
      case Bitcoin(height) => acc.bitcoin := acc.bitcoin + [BitcoinClaim(height, step.output)];
      case Pending(uri) => acc.pending := acc.pending + [uri];
      case _ =>
    }
    for i := 0 to |step.next|
      invariant acc.bitcoin + BitcoinsOfAll(step.next[i..]) == old(acc.bitcoin) + Bitcoins(step)
      invariant acc.pending + PendingsOfAll(step.next[i..]) == old(acc.pending) + Pendings(step)
    {
      WalkNext(step.next[i..]);
      assert step.next[i..][1..] == step.next[i + 1..];
      Associative(acc.bitcoin, Bitcoins(step.next[i]), BitcoinsOfAll(step.next[i + 1..]));
      Associative(acc.pending, Pendings(step.next[i]), PendingsOfAll(step.next[i + 1..]));
      CollectAttestations(step.next[i], acc);
    }
  }

  /** The URIs to upgrade against: those of the tree's pending attestations, one for one in pre-order. */
  method PendingCalendars(parsed: Option<Proof>) returns (r: Result<seq<string>, Error>)
    ensures r.Ok? <==> parsed.Some?
    ensures r.Err? ==> r.error == Codec
    ensures r.Ok? ==>
      var step := parsed.value.firstStep;
      && |r.value| == |Routes(step, OfPending)| && InOrder(Routes(step, OfPending))
      && (forall k :: 0 <= k < |r.value| ==>
            NodeAt(step, Routes(step, OfPending)[k]).Some?
            && NodeAt(step, Routes(step, OfPending)[k]).value.data == Pending(r.value[k]))
      && forall route :: IsAt(step, route, OfPending) ==> route in Routes(step, OfPending)
  {
    if parsed.None? {
      return Err(Codec);
    }
    var step := parsed.value.firstStep;
    var acc := new Attestations();
    CollectAttestations(step, acc);
    assert acc.pending == Pendings(step);
    RoutesLocate(step, OfPending);
    RoutesInOrder(step, OfPending);
    forall route | IsAt(step, route, OfPending)
      ensures route in Routes(step, OfPending)
    {
      RoutesComplete(step, route, OfPending);
    }
    return Ok(acc.pending);
  }

  // ─── Verification ──────────────────────────────────────────────────────────

  predicate Matches(a: BitcoinClaim, source: RootSource)
  {
    source(a.height).Ok? && source(a.height).value == a.committed
  }

  predicate AllMatch(found: seq<BitcoinClaim>, source: RootSource)
  {
    forall i :: 0 <= i < |found| ==> Matches(found[i], source)
  }

  /** The position of the first attestation its header does not confirm. */
  function FirstFailure(found: seq<BitcoinClaim>, source: RootSource): (k: nat)
    requires !AllMatch(found, source)
    ensures k < |found| && !Matches(found[k], source) && AllMatch(found[..k], source)
  {
    if !Matches(found[0], source) then 0
    else
      var k := FirstFailure(found[1..], source);
      assert found[..k + 1] == [found[0]] + found[1..][..k];
      k + 1
  }

  function FailureOf(a: BitcoinClaim, source: RootSource): Error
    requires !Matches(a, source)
  {
    var actual := source(a.height);
    if actual.Err? then HeaderSource(actual.error)
    else MerkleRootMismatch(a.height, HexEncode(a.committed), HexEncode(actual.value))
  }

  function Anchors(found: seq<BitcoinClaim>, source: RootSource): (r: seq<Anchor>)
    requires AllMatch(found, source)
    ensures |r| == |found|
  {
    seq(|found|, i requires 0 <= i < |found| => Anchor(found[i].height, source(found[i].height).value))
  }

  /** What verification yields: the first failure in pre-order, or one anchor per attestation. */
  function Outcome(parsed: Option<Proof>, expected: Bytes, source: RootSource): Result<seq<Anchor>, Error>
  {
    if parsed.None? then Err(Codec)
    else if parsed.value.startDigest != expected then
      Err(DigestMismatch(HexEncode(parsed.value.startDigest), HexEncode(expected)))
    else
      var found := Bitcoins(parsed.value.firstStep);
      if found == [] then Err(NotAnchored)
      else if AllMatch(found, source) then Ok(Anchors(found, source))
      else Err(FailureOf(found[FirstFailure(found, source)], source))
  }

  method Verify(parsed: Option<Proof>, expected: Bytes, source: RootSource) returns (r: Result<seq<Anchor>, Error>)
    ensures r == Outcome(parsed, expected, source)
  {
    if parsed.None? {
      return Err(Codec);
    }
    var proof := parsed.value;
    if proof.startDigest != expected {
      return Err(DigestMismatch(HexEncode(proof.startDigest), HexEncode(expected)));
    }
    var acc := new Attestations();
    CollectAttestations(proof.firstStep, acc);
    assert acc.bitcoin == Bitcoins(proof.firstStep);
    if acc.bitcoin == [] {
      return Err(NotAnchored);
    }
    r := CheckHeaders(acc.bitcoin, source);
  }

  /** The loop over what was collected, stopping at the first failure. */
  method CheckHeaders(found: seq<BitcoinClaim>, source: RootSource) returns (r: Result<seq<Anchor>, Error>)
    ensures r == if AllMatch(found, source) then Ok(Anchors(found, source))
                 else Err(FailureOf(found[FirstFailure(found, source)], source))
  {
    var anchors: seq<Anchor> := [];
    for i := 0 to |found|
      invariant AllMatch(found[..i], source) && anchors == Anchors(found[..i], source)
    {
      var actual := source(found[i].height);
      if actual.Err? || found[i].committed != actual.value {
        FirstFailureIs(found, source, i);
        return Err(if actual.Err? then HeaderSource(actual.error)
                   else MerkleRootMismatch(found[i].height, HexEncode(found[i].committed), HexEncode(actual.value)));
      }
      anchors := anchors + [Anchor(found[i].height, actual.value)];
      assert found[..i + 1] == found[..i] + [found[i]];
    }
    assert found[..|found|] == found;
    return Ok(anchors);
  }

  lemma FirstFailureIs(found: seq<BitcoinClaim>, source: RootSource, i: nat)
    requires i < |found| && AllMatch(found[..i], source) && !Matches(found[i], source)
    ensures !AllMatch(found, source) && FirstFailure(found, source) == i
  {
    var k := FirstFailure(found, source);
    assert forall j :: 0 <= j < i ==> found[..i][j] == found[j];
    assert forall j :: 0 <= j < k ==> found[..k][j] == found[j];
  }

  // ─── Where an attestation sits ─────────────────────────────────────────────

  /** Child numbers from the root down to a node. */
  type Route = seq<nat>

  function NodeAt(step: Step, route: Route): Option<Step>
    decreases |route|
  {
    if route == [] then Some(step)
    else if route[0] < |step.next| then NodeAt(step.next[route[0]], route[1..])
    else None
  }

  predicate IsAt(step: Step, route: Route, kind: Kind)
  {
    NodeAt(step, route).Some? && IsKind(NodeAt(step, route).value.data, kind)
  }

  predicate IsAttestation(step: Step, route: Route)
  {
    IsAt(step, route, OfBitcoin)
  }

  function Routes(step: Step, kind: Kind): (r: seq<Route>)
    ensures |r| == |Collected(step, kind)|
    decreases step, 1
  {
    (if IsKind(step.data, kind) then [[]] else []) + RoutesOfAll(step.next, 0, kind)
  }

  function RoutesOfAll(steps: seq<Step>, first: nat, kind: Kind): (r: seq<Route>)
    ensures |r| == |CollectedOfAll(steps, kind)|
    decreases steps, 0
  {
    if steps == [] then []
    else Under(first, Routes(steps[0], kind)) + RoutesOfAll(steps[1..], first + 1, kind)
  }

  function Under(child: nat, routes: seq<Route>): (r: seq<Route>)
    ensures |r| == |routes|
  {
    seq(|routes|, i requires 0 <= i < |routes| => [child] + routes[i])
  }

  /** Each route leads to the node listed at its place. */
  ghost predicate Lead(step: Step, routes: seq<Route>, nodes: seq<Step>)
  {
    |routes| == |nodes| && forall k :: 0 <= k < |routes| ==> NodeAt(step, routes[k]) == Some(nodes[k])
  }

  lemma LeadAppend(step: Step, routes: seq<Route>, nodes: seq<Step>, routes': seq<Route>, nodes': seq<Step>)
    requires Lead(step, routes, nodes) && Lead(step, routes', nodes')
    ensures Lead(step, routes + routes', nodes + nodes')
  {
  }

  lemma LeadUnder(step: Step, i: nat, routes: seq<Route>, nodes: seq<Step>)
    requires i < |step.next| && Lead(step.next[i], routes, nodes)
    ensures Lead(step, Under(i, routes), nodes)
  {
    forall k | 0 <= k < |routes|
      ensures NodeAt(step, Under(i, routes)[k]) == Some(nodes[k])
    {
      assert Under(i, routes)[k][1..] == routes[k];
    }
  }

  /** The k-th step collected is the one at the k-th route. */
  lemma {:induction false} RoutesLocate(step: Step, kind: Kind)
    ensures Lead(step, Routes(step, kind), Collected(step, kind))
    decreases step, 1
  {
    RoutesOfAllLocate(step, 0, kind);
    assert step.next[0..] == step.next;
    if IsKind(step.data, kind) {
      LeadAppend(step, [[]], [step], RoutesOfAll(step.next, 0, kind), CollectedOfAll(step.next, kind));
    } else {
      LeadAppend(step, [], [], RoutesOfAll(step.next, 0, kind), CollectedOfAll(step.next, kind));
    }
  }

  lemma {:induction false} RoutesOfAllLocate(step: Step, i: nat, kind: Kind)
    requires i <= |step.next|
    ensures Lead(step, RoutesOfAll(step.next[i..], i, kind), CollectedOfAll(step.next[i..], kind))
    decreases step, 0, |step.next| - i
  {
    if i < |step.next| {
      var child, rest := step.next[i], step.next[i..][1..];
      assert rest == step.next[i + 1..];
      RoutesLocate(child, kind);
      LeadUnder(step, i, Routes(child, kind), Collected(child, kind));
      RoutesOfAllLocate(step, i + 1, kind);
      LeadAppend(step, Under(i, Routes(child, kind)), Collected(child, kind),
                 RoutesOfAll(rest, i + 1, kind), CollectedOfAll(rest, kind));
    }
  }

  lemma RoutesBelow(step: Step, route: Route, kind: Kind)
    requires route in RoutesOfAll(step.next, 0, kind)
    ensures route in Routes(step, kind)
  {
  }

  /** No attestation of the tree is missed. */
  lemma {:induction false} RoutesComplete(step: Step, route: Route, kind: Kind)
    requires IsAt(step, route, kind)
    ensures route in Routes(step, kind)
    decreases |route|
  {
    if route != [] {
      var i, child := route[0], step.next[route[0]];
      RoutesComplete(child, route[1..], kind);
      assert route == [0 + i] + route[1..];
      RoutesOfAllContain(step.next, 0, i, route[1..], kind);
      RoutesBelow(step, route, kind);
    } else {
      assert Routes(step, kind)[0] == [];
    }
  }

  lemma AttestedIffRouted(step: Step)
    ensures Bitcoins(step) != [] <==> exists route :: IsAttestation(step, route)
  {
    if Bitcoins(step) != [] {
      RoutesLocate(step, OfBitcoin);
      assert IsAttestation(step, Routes(step, OfBitcoin)[0]);
    } else {
      forall route | IsAttestation(step, route)
        ensures false
      {
        RoutesComplete(step, route, OfBitcoin);
      }
    }
  }

  lemma {:induction false} RoutesOfAllContain(steps: seq<Step>, first: nat, i: nat, route: Route, kind: Kind)
    requires i < |steps| && route in Routes(steps[i], kind)
    ensures [first + i] + route in RoutesOfAll(steps, first, kind)
  {
    if i == 0 {
      var k :| 0 <= k < |Routes(steps[0], kind)| && Routes(steps[0], kind)[k] == route;
      assert Under(first, Routes(steps[0], kind))[k] == [first] + route;
    } else {
      RoutesOfAllContain(steps[1..], first + 1, i - 1, route, kind);
    }
  }

  /** Pre-order: a parent before its descendants, an earlier child before a later one. */
  predicate Before(p: Route, q: Route)
  {
    q != [] && (p == [] || p[0] < q[0] || (p[0] == q[0] && Before(p[1..], q[1..])))
  }

  predicate InOrder(routes: seq<Route>)
  {
    forall j, k :: 0 <= j < k < |routes| ==> Before(routes[j], routes[k])
  }

  /** Routes are listed in strict pre-order, so no attestation is collected twice. */
  lemma {:induction false} RoutesInOrder(step: Step, kind: Kind)
    ensures InOrder(Routes(step, kind))
    decreases step, 1
  {
    RoutesOfAllInOrder(step.next, 0, kind);
    var own := if IsKind(step.data, kind) then 1 else 0;
    forall j, k | 0 <= j < k < |Routes(step, kind)|
      ensures Before(Routes(step, kind)[j], Routes(step, kind)[k])
    {
      assert Routes(step, kind)[k] == RoutesOfAll(step.next, 0, kind)[k - own];
      if j >= own {
        assert Routes(step, kind)[j] == RoutesOfAll(step.next, 0, kind)[j - own];
      }
    }
  }

  lemma {:induction false} RoutesOfAllInOrder(steps: seq<Step>, first: nat, kind: Kind)
    ensures var rs := RoutesOfAll(steps, first, kind);
      InOrder(rs) && forall k :: 0 <= k < |rs| ==> rs[k] != [] && rs[k][0] >= first
    decreases steps, 0
  {
    if steps != [] {
      RoutesInOrder(steps[0], kind);
      RoutesOfAllInOrder(steps[1..], first + 1, kind);
      var inner, later := Routes(steps[0], kind), RoutesOfAll(steps[1..], first + 1, kind);
      var rs := RoutesOfAll(steps, first, kind);
      var n := |inner|;
      forall j, k | 0 <= j < k < |rs|
        ensures Before(rs[j], rs[k])
      {
        if k < n {
          assert rs[j] == [first] + inner[j] && rs[k] == [first] + inner[k];
          assert rs[j][1..] == inner[j] && rs[k][1..] == inner[k];
        } else {
          assert rs[k] == later[k - n];
          if j < n {
            assert rs[j] == [first] + inner[j];
          } else {
            assert rs[j] == later[j - n];
          }
        }
      }
      forall k | 0 <= k < |rs|
        ensures rs[k] != [] && rs[k][0] >= first
      {
        assert rs[k] == if k < n then [first] + inner[k] else later[k - n];
      }
    }
  }

  // ─── From the digest to the block ──────────────────────────────────────────

  /** Outputs of a parsed tree: an operation's is the operation applied, any other step's is its input. */
  predicate WellFormed(exec: Execute, step: Step, input: Bytes)
  {
    && step.output == (if step.data.Operation? then exec(step.data.op, input) else input)
    && forall i :: 0 <= i < |step.next| ==> WellFormed(exec, step.next[i], step.output)
  }

  function OpsAlong(step: Step, route: Route): seq<Op>
    requires NodeAt(step, route).Some?
    decreases |route|
  {
    (if step.data.Operation? then [step.data.op] else []) +
    (if route == [] then [] else OpsAlong(step.next[route[0]], route[1..]))
  }

  function RunOps(exec: Execute, ops: seq<Op>, value: Bytes): Bytes
    decreases |ops|
  {
    if ops == [] then value else RunOps(exec, ops[1..], exec(ops[0], value))
  }

  /** A node's output is what executing the operations on the way to it makes of the input. */
  lemma {:induction false} OutputIsExecuted(exec: Execute, step: Step, input: Bytes, route: Route)
    requires WellFormed(exec, step, input) && NodeAt(step, route).Some?
    ensures RunOps(exec, OpsAlong(step, route), input) == NodeAt(step, route).value.output
    decreases |route|
  {
    var ops := OpsAlong(step, route);
    if route != [] {
      var child := step.next[route[0]];
      OutputIsExecuted(exec, child, step.output, route[1..]);
      var rest := OpsAlong(child, route[1..]);
      if step.data.Operation? {
        assert ops == [step.data.op] + rest && ops[1..] == rest;
      } else {
        assert ops == rest;
      }
    } else if step.data.Operation? {
      assert ops == [step.data.op] && ops[1..] == [];
    }
  }

  /** What is answered before any attestation is looked at. */
  lemma OutcomeRejects(parsed: Option<Proof>, expected: Bytes, source: RootSource)
    ensures var r := Outcome(parsed, expected, source);
      && (r == Err(Codec) <==> parsed.None?)
      && (r.Err? && r.error.DigestMismatch? <==> parsed.Some? && parsed.value.startDigest != expected)
      && (r.Err? && r.error.DigestMismatch? ==>
            r.error == DigestMismatch(HexEncode(parsed.value.startDigest), HexEncode(expected)))
  {
  }

  /** Verification succeeds exactly when the proof is for this digest, has a Bitcoin attestation, and
      every one matches its header; the anchors then correspond one for one. */
  lemma OutcomeExact(parsed: Option<Proof>, expected: Bytes, source: RootSource)
    ensures var r := Outcome(parsed, expected, source);
      && (r.Ok? <==>
          && parsed.Some? && parsed.value.startDigest == expected
          && (exists route :: IsAttestation(parsed.value.firstStep, route))
          && forall route :: IsAttestation(parsed.value.firstStep, route) ==>
               var node := NodeAt(parsed.value.firstStep, route).value;
               source(node.data.height) == Ok(node.output))
      && (r == Err(NotAnchored) <==>
          && parsed.Some? && parsed.value.startDigest == expected
          && forall route :: !IsAttestation(parsed.value.firstStep, route))
  {
    if parsed.Some? {
      var step := parsed.value.firstStep;
      var found, routes := Bitcoins(step), Routes(step, OfBitcoin);
      AttestedIffRouted(step);
      forall route | IsAttestation(step, route)
        ensures exists k :: 0 <= k < |routes| && routes[k] == route && Locates(step, route, found[k])
      {
        RoutesComplete(step, route, OfBitcoin);
        var k :| 0 <= k < |routes| && routes[k] == route;
        ClaimLocated(step, k);
      }
      forall k | 0 <= k < |found|
        ensures Locates(step, routes[k], found[k])
      {
        ClaimLocated(step, k);
      }
    }
  }

  ghost predicate Locates(step: Step, route: Route, a: BitcoinClaim)
  {
    IsAttestation(step, route) && var node := NodeAt(step, route).value;
    BitcoinClaim(node.data.height, node.output) == a
  }

  lemma ClaimLocated(step: Step, k: nat)
    requires k < |Bitcoins(step)|
    ensures Locates(step, Routes(step, OfBitcoin)[k], Bitcoins(step)[k])
  {
    RoutesLocate(step, OfBitcoin);
  }

  /** A proof for this digest that is anchored but fails does so at its first unconfirmed attestation in
      pre-order, and with that attestation's own error. */
  lemma FailureIsFirst(proof: Proof, expected: Bytes, source: RootSource) returns (k: nat)
    requires proof.startDigest == expected && Routes(proof.firstStep, OfBitcoin) != []
    requires Outcome(Some(proof), expected, source).Err?
    ensures var step, routes := proof.firstStep, Routes(proof.firstStep, OfBitcoin);
      && k < |routes| && IsAttestation(step, routes[k])
      && var node := NodeAt(step, routes[k]).value;
      && source(node.data.height) != Ok(node.output)
      && Outcome(Some(proof), expected, source).error ==
         (if source(node.data.height).Err? then HeaderSource(source(node.data.height).error)
          else MerkleRootMismatch(node.data.height, HexEncode(node.output), HexEncode(source(node.data.height).value)))
      && forall route :: IsAttestation(step, route) && Before(route, routes[k]) ==>
           source(NodeAt(step, route).value.data.height) == Ok(NodeAt(step, route).value.output)
  {
    var step, found := proof.firstStep, Bitcoins(proof.firstStep);
    var routes := Routes(step, OfBitcoin);
    k := FirstFailure(found, source);
    ClaimLocated(step, k);
    forall route | IsAttestation(step, route) && Before(route, routes[k])
      ensures source(NodeAt(step, route).value.data.height) == Ok(NodeAt(step, route).value.output)
    {
      var j := EarlierRoute(step, route, k);
      assert Matches(found[..k][j], source);
    }
  }

  lemma EarlierRoute(step: Step, route: Route, k: nat) returns (j: nat)
    requires IsAttestation(step, route) && k < |Routes(step, OfBitcoin)| && Before(route, Routes(step, OfBitcoin)[k])
    ensures j < k && Locates(step, route, Bitcoins(step)[j])
  {
    RoutesComplete(step, route, OfBitcoin);
    RoutesInOrder(step, OfBitcoin);
    j :| 0 <= j < |Routes(step, OfBitcoin)| && Routes(step, OfBitcoin)[j] == route;
    BeforeIsStrict(route, Routes(step, OfBitcoin)[k]);
    ClaimLocated(step, j);
  }

  lemma {:induction false} BeforeIsStrict(p: Route, q: Route)
    requires Before(p, q)
    ensures p != q && !Before(q, p)
  {
    if p != [] && p[0] == q[0] {
      BeforeIsStrict(p[1..], q[1..]);
    }
  }

  /** Every anchor is reached from the digest by executing the operations along its own route. */
  lemma AnchorsReached(exec: Execute, proof: Proof, expected: Bytes, source: RootSource, k: nat)
    requires WellFormed(exec, proof.firstStep, proof.startDigest)
    requires Outcome(Some(proof), expected, source).Ok?
    requires k < |Outcome(Some(proof), expected, source).value|
    ensures var step, anchors := proof.firstStep, Outcome(Some(proof), expected, source).value;
      var routes := Routes(step, OfBitcoin);
      && |anchors| == |routes| && IsAttestation(step, routes[k])
      && NodeAt(step, routes[k]).value.data == Bitcoin(anchors[k].height)
      && RunOps(exec, OpsAlong(step, routes[k]), expected) == anchors[k].merkleRoot
      && source(anchors[k].height) == Ok(anchors[k].merkleRoot)
  {
    var step := proof.firstStep;
    ClaimLocated(step, k);
    assert Matches(Bitcoins(step)[k], source);
    OutputIsExecuted(exec, step, expected, Routes(step, OfBitcoin)[k]);
  }
}
