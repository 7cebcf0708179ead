/**
 Merkle proofs of authorized identities: what an accepted proof binds, and that the
 honest proof of every leaf is accepted.
 */
module MerkleAuthorization {
  import opened ByteStrings
  import opened Bits
  import opened ConsensusIdentity

  datatype Authorization = Authorization(
    schemaVersion: int,
    policyHash: seq<Byte>,
    leaf: Leaf,
    leafIndex: int,
    siblings: seq<Digest>,
    blockSignature: seq<Byte>)

  function Node(left: Digest, right: Digest, hash: Hash): Digest {
    TaggedHash(NODE_TAG, left + right, hash)
  }

  /** One step up: the bit of the index says on which side the running hash stands. */
  function Step(current: Digest, sibling: Digest, index: nat, hash: Hash): Digest {
    if index % 2 == 0 then Node(current, sibling, hash) else Node(sibling, current, hash)
  }

  /** The root a sibling path leads to. */
  function Climb(current: Digest, siblings: seq<Digest>, index: nat, hash: Hash): Digest
    decreases |siblings|
  {
    if siblings == [] then current
    else Climb(Step(current, siblings[0], index, hash), siblings[1..], index / 2, hash)
  }

  /** Every check of `verify_authorization`. */
  predicate ProofAccepted(p: Policy, a: Authorization, hash: Hash) {
    && a.schemaVersion == 1
    && PolicyAccepted(p)
    && a.policyHash == PolicyHash(p, hash)
    && 0 <= a.leafIndex < p.identityCount
    && |a.siblings| == RequiredDepth(p.identityCount) <= p.maxProofDepth
    && LeafAccepted(a.leaf)
    && ShiftRight(a.leafIndex, |a.siblings|) == 0
    && Climb(LeafHash(a.leaf, hash), a.siblings, a.leafIndex, hash) == p.authorizationRoot
    && a.blockSignature == seq(64, _ => 0)
  }

  /** The loop of `verify_authorization`, which updates the running hash and the index. */
  method ClimbLoop(leaf: Digest, siblings: seq<Digest>, leafIndex: nat, hash: Hash)
    returns (current: Digest, index: nat)
    ensures current == Climb(leaf, siblings, leafIndex, hash)
    ensures index == ShiftRight(leafIndex, |siblings|)
  {
    hide Step;
    current, index := leaf, leafIndex;
    assert siblings[0..] == siblings;
    for position := 0 to |siblings|
      invariant Climb(leaf, siblings, leafIndex, hash) == Climb(current, siblings[position..], index, hash)
      invariant ShiftRight(leafIndex, |siblings|) == ShiftRight(index, |siblings| - position)
    {
      assert siblings[position..][0] == siblings[position] && siblings[position..][1..] == siblings[position + 1..];
      current := Step(current, siblings[position], index, hash);
      index := index / 2;
    }
  }

  /** `verify_authorization`, check by check. */
  method VerifyAuthorization(p: Policy, a: Authorization, hash: Hash) returns (accepted: bool)
    ensures accepted <==> ProofAccepted(p, a, hash)
  {
    hide Climb, ShiftRight, PolicyAccepted, PolicyHash, LeafAccepted, LeafHash, RequiredDepth;
    if a.schemaVersion != 1 || !PolicyAccepted(p) || a.policyHash != PolicyHash(p, hash) {
      return false;
    }
    if !(0 <= a.leafIndex < p.identityCount) || |a.siblings| != RequiredDepth(p.identityCount) || |a.siblings| > p.maxProofDepth {
      return false;
    }
    if !LeafAccepted(a.leaf) {
      return false;
    }
    var root, index := ClimbLoop(LeafHash(a.leaf, hash), a.siblings, a.leafIndex, hash);
    accepted := index == 0 && root == p.authorizationRoot && a.blockSignature == seq(64, _ => 0);
  }

  /** The depth is the least one whose tree holds `count` leaves. */
  lemma DepthIsMinimal(count: nat)
    requires count > 0
    ensures count <= Pow2(RequiredDepth(count))
    ensures forall d: nat | d < RequiredDepth(count) :: Pow2(d) < count
  {
    hide Pow2, ShiftLeft, BitLength;
    if count > 1 {
      BitLengthBounds(count - 1);
      forall d: nat | d < RequiredDepth(count) ensures Pow2(d) < count {
        Pow2Monotone(d, RequiredDepth(count) - 1);
      }
    } else {
      assert BitLength(0) == 0 && Pow2(0) == 1 by { Trivial(); }
    }
  }

  lemma Trivial()
    ensures BitLength(0) == 0 && Pow2(0) == 1
  {
  }

  /** An index inside the authorization set is used up by the path, so the test for zero always holds. */
  lemma IndexIsUsedUp(count: nat, index: nat)
    requires index < count
    ensures ShiftRight(index, RequiredDepth(count)) == 0
  {
    hide Pow2;
    DepthIsMinimal(count);
    ShiftedOut(index, RequiredDepth(count));
  }

  lemma {:induction false} ShiftedOut(n: nat, count: nat)
    requires n < Pow2(count)
    ensures ShiftRight(n, count) == 0
    decreases count
  {
    if count > 0 {
      ShiftedOut(n / 2, count - 1);
    }
  }

  // ------------------------------------------------------------------- binding

  /** One step binds the running hash and the sibling, or shows a collision. */
  lemma StepBinds(c: Digest, s: Digest, c': Digest, s': Digest, index: nat, hash: Hash)
    returns (x: seq<Byte>, y: seq<Byte>)
    requires Step(c, s, index, hash) == Step(c', s', index, hash)
    ensures (c == c' && s == s') || Collides(hash, x, y)
  {
    hide Ascii, NODE_TAG, Collides;
    var pair, pair' := if index % 2 == 0 then c + s else s + c, if index % 2 == 0 then c' + s' else s' + c';
    x, y := NODE_TAG + ([0] + pair), NODE_TAG + ([0] + pair');
    TaggedHashBinds(NODE_TAG, pair, pair', hash);
    assert pair[..32] == if index % 2 == 0 then c else s;
    assert pair[32..] == if index % 2 == 0 then s else c;
    assert pair'[..32] == if index % 2 == 0 then c' else s';
    assert pair'[32..] == if index % 2 == 0 then s' else c';
  }

  /** One root and one index accept at most one starting hash and one path of a given length, or show a collision. */
  lemma {:induction false} ClimbBinds(
      c: Digest, path: seq<Digest>, c': Digest, path': seq<Digest>, index: nat, hash: Hash)
    returns (x: seq<Byte>, y: seq<Byte>)
    requires |path| == |path'| && Climb(c, path, index, hash) == Climb(c', path', index, hash)
    ensures (c == c' && path == path') || Collides(hash, x, y)
    decreases |path|
  {
    hide Step, Collides;
    if path == [] {
      x, y := [], [];
    } else {
      var up, up' := Step(c, path[0], index, hash), Step(c', path'[0], index, hash);
      x, y := ClimbBinds(up, path[1..], up', path'[1..], index / 2, hash);
      if !Collides(hash, x, y) {
        x, y := StepBinds(c, path[0], c', path'[0], index, hash);
        assert path == [path[0]] + path[1..] && path' == [path'[0]] + path'[1..];
      }
    }
  }

  /** Two accepted authorizations for one leaf index of one policy carry the same leaf and the same path,
      or show a collision. */
  lemma AuthorizationBinds(p: Policy, a: Authorization, b: Authorization, hash: Hash)
    returns (x: seq<Byte>, y: seq<Byte>)
    requires ProofAccepted(p, a, hash) && ProofAccepted(p, b, hash) && a.leafIndex == b.leafIndex
    ensures a == b || Collides(hash, x, y)
  {
    hide Climb, ShiftRight, PolicyAccepted, PolicyHash, Collides, Ascii, Concat, LeafFields, RequiredDepth;
    var la, lb := LeafHash(a.leaf, hash), LeafHash(b.leaf, hash);
    x, y := ClimbBinds(la, a.siblings, lb, b.siblings, a.leafIndex, hash);
    if !Collides(hash, x, y) && a.leaf != b.leaf {
      var s, t := Concat(LeafFields(a.leaf)), Concat(LeafFields(b.leaf));
      TaggedHashBinds(LEAF_TAG, s, t, hash);
      if s == t {
        LeafPayloadInjective(a.leaf, b.leaf);
      }
      x, y := LEAF_TAG + ([0] + s), LEAF_TAG + ([0] + t);
    }
  }

  // -------------------------------------------------------------- completeness

  /** The hash above two others in a tree. */
  function Parent(left: seq<Byte>, right: seq<Byte>, hash: Hash): Digest {
    hash(Ascii("P2POOLBTC_IDENA_AUTH_NODE_V1") + ([0] + (left + right)))
  }

  /** The next level of a tree: its hashes in pairs. */
  function Pairs(level: seq<Digest>, hash: Hash): (up: seq<Digest>)
    requires |level| % 2 == 0
    ensures |up| == |level| / 2
  {
    seq(|level| / 2, i requires 0 <= i < |level| / 2 => Parent(level[2 * i], level[2 * i + 1], hash))
  }

  /** The root of a complete tree of the given depth. */
  function Root(level: seq<Digest>, depth: nat, hash: Hash): Digest
    requires |level| == Pow2(depth)
    decreases depth
  {
    if depth == 0 then level[0] else Root(Pairs(level, hash), depth - 1, hash)
  }

  /** The siblings of a leaf on its way up. */
  function HonestPath(level: seq<Digest>, depth: nat, index: nat, hash: Hash): (path: seq<Digest>)
    requires |level| == Pow2(depth) && index < |level|
    ensures |path| == depth
    decreases depth
  {
    if depth == 0 then []
    else
      [level[Sibling(index)]]
      + HonestPath(Pairs(level, hash), depth - 1, index / 2, hash)
  }

  function Sibling(index: nat): nat {
    if index % 2 == 0 then index + 1 else index - 1
  }

  /** A step with the right sibling arrives at the next level. */
  lemma StepUp(level: seq<Digest>, index: nat, hash: Hash)
    requires |level| % 2 == 0 && index < |level|
    ensures Step(level[index], level[Sibling(index)], index, hash) == Pairs(level, hash)[index / 2]
  {
    hide Ascii;
    var i := index / 2;
    assert index == 2 * i || index == 2 * i + 1;
  }

  lemma ClimbFirst(current: Digest, sibling: Digest, path: seq<Digest>, index: nat, hash: Hash)
    ensures Climb(current, [sibling] + path, index, hash) == Climb(Step(current, sibling, index, hash), path, index / 2, hash)
  {
    hide Step;
    assert ([sibling] + path)[1..] == path;
  }

  /** The honest path of every leaf of every complete tree leads to the root. */
  lemma {:induction false} HonestPathClimbs(level: seq<Digest>, depth: nat, index: nat, hash: Hash)
    requires |level| == Pow2(depth) && index < |level|
    ensures Climb(level[index], HonestPath(level, depth, index, hash), index, hash) == Root(level, depth, hash)
    decreases depth
  {
    hide Step, Pairs;
    if depth > 0 {
      hide Climb;
      var up := Pairs(level, hash);
      StepUp(level, index, hash);
      HonestPathClimbs(up, depth - 1, index / 2, hash);
      ClimbFirst(level[index], level[Sibling(index)], HonestPath(up, depth - 1, index / 2, hash), index, hash);
    }
  }

  /** The authorization of any accepted leaf of a complete tree verifies against the tree's root. */
  lemma HonestAuthorizationVerifies(p: Policy, level: seq<Digest>, a: Authorization, hash: Hash)
    requires PolicyAccepted(p) && |level| == Pow2(RequiredDepth(p.identityCount))
    requires p.authorizationRoot == Root(level, RequiredDepth(p.identityCount), hash)
    requires 0 <= a.leafIndex < p.identityCount && LeafAccepted(a.leaf) && a.leafIndex < |level|
    requires LeafHash(a.leaf, hash) == level[a.leafIndex]
    requires a.siblings == HonestPath(level, RequiredDepth(p.identityCount), a.leafIndex, hash)
    requires a.schemaVersion == 1 && a.policyHash == PolicyHash(p, hash) && a.blockSignature == seq(64, _ => 0)
    ensures ProofAccepted(p, a, hash)
  {
    hide Climb, Root, HonestPath, ShiftRight, Pow2, BitLength, LeafHash, PolicyHash;
    HonestPathClimbs(level, RequiredDepth(p.identityCount), a.leafIndex, hash);
    IndexIsUsedUp(p.identityCount, a.leafIndex);
  }
}
