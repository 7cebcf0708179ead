/**
 The Experiment 2 consensus-identity verifier: the byte strings it hashes, and what a
 hash of them binds.

 Hash functions are parameters, so binding is stated the way it can hold for a
 32-byte hash: either the two objects are equal or an explicit pair of different
 preimages with the same hash is exhibited.
 */
module ConsensusIdentity {
  import opened ByteStrings
  import opened Bits

  // ---------------------------------------------------- delimited concatenation

  /** Neither string is a proper prefix of the other. */
  ghost predicate Delimited(f: seq<Byte>, g: seq<Byte>) {
    (f <= g || g <= f) ==> f == g
  }

  function Concat(fields: seq<seq<Byte>>): seq<Byte> {
    if fields == [] then [] else fields[0] + Concat(fields[1..])
  }

  /** Two prefixes of one string are comparable. */
  lemma Comparable(f: seq<Byte>, x: seq<Byte>, g: seq<Byte>, y: seq<Byte>)
    requires f + x == g + y
    ensures f <= g || g <= f
  {
    if |f| <= |g| {
      assert f == (f + x)[..|f|] == g[..|f|];
    } else {
      assert g == (g + y)[..|g|] == f[..|g|];
    }
  }

  lemma Peel(f: seq<Byte>, x: seq<Byte>, g: seq<Byte>, y: seq<Byte>)
    requires Delimited(f, g) && f + x == g + y
    ensures f == g && x == y
  {
    Comparable(f, x, g, y);
    assert x == (f + x)[|f|..] && y == (g + y)[|g|..];
  }

  /** Fields that are delimited pairwise can be read back from their concatenation. */
  lemma {:induction false} ConcatInjective(fs: seq<seq<Byte>>, gs: seq<seq<Byte>>)
    requires |fs| == |gs| && Concat(fs) == Concat(gs)
    requires forall i | 0 <= i < |fs| :: Delimited(fs[i], gs[i])
    ensures fs == gs
  {
    if fs != [] {
      Peel(fs[0], Concat(fs[1..]), gs[0], Concat(gs[1..]));
      ConcatInjective(fs[1..], gs[1..]);
      assert fs == [fs[0]] + fs[1..] && gs == [gs[0]] + gs[1..];
    }
  }

  lemma FixedWidth(f: seq<Byte>, g: seq<Byte>)
    requires |f| == |g|
    ensures Delimited(f, g)
  {
  }

  // ----------------------------------------------------------------- field encodings

  predicate IdentifierByte(b: Byte) {
    || 97 <= b <= 122
    || 48 <= b <= 57
    || b in {45, 46, 47, 95}
  }

  /** What `bounded_ascii` accepts: 1 to `maximum` of the characters a-z 0-9 . _ / - */
  predicate Identifier(s: seq<Byte>, maximum: nat) {
    0 < |s| <= maximum < 256 && forall i | 0 <= i < |s| :: IdentifierByte(s[i])
  }

  function BoundedAscii(s: seq<Byte>): seq<Byte>
    requires |s| < 256
  {
    [|s|] + s
  }

  lemma AsciiDelimited(s: seq<Byte>, t: seq<Byte>)
    requires |s| < 256 && |t| < 256
    ensures Delimited(BoundedAscii(s), BoundedAscii(t))
  {
    var f, g := BoundedAscii(s), BoundedAscii(t);
    if f <= g || g <= f {
      assert f[0] == g[0];
    }
  }

  lemma AsciiInjective(s: seq<Byte>, t: seq<Byte>)
    requires |s| < 256 && |t| < 256 && BoundedAscii(s) == BoundedAscii(t)
    ensures s == t
  {
    assert BoundedAscii(s)[1..] == s && BoundedAscii(t)[1..] == t;
  }

  function BoolByte(b: bool): seq<Byte> {
    [if b then 1 else 0]
  }

  function TaggedHash(tag: seq<Byte>, payload: seq<Byte>, hash: Hash): Digest {
    hash(tag + ([0] + payload))
  }

  /** Equal tagged hashes mean equal payloads, or a collision. */
  lemma TaggedHashBinds(tag: seq<Byte>, x: seq<Byte>, y: seq<Byte>, hash: Hash)
    requires TaggedHash(tag, x, hash) == TaggedHash(tag, y, hash)
    ensures x == y || Collides(hash, tag + ([0] + x), tag + ([0] + y))
  {
    var p, q := tag + ([0] + x), tag + ([0] + y);
    if p == q {
      assert x == p[|tag| + 1..] && y == q[|tag| + 1..];
    }
  }

  ghost predicate Collides(hash: Hash, x: seq<Byte>, y: seq<Byte>) {
    x != y && hash(x) == hash(y)
  }

  // ----------------------------------------------------------------------- policies

  datatype Policy = Policy(
    schemaVersion: nat,
    experimentId: seq<Byte>,
    bitcoinNetwork: seq<Byte>,
    forkActivationId: seq<Byte>,
    shareWorkActivationId: seq<Byte>,
    registryAddress: seq<Byte>,
    finalizedHeight: nat,
    finalizedTimestamp: nat,
    finalizedBlockHash: seq<Byte>,
    nextValidationTimestamp: nat,
    authorizationRoot: seq<Byte>,
    identityCount: nat,
    activationHeight: nat,
    expiryHeight: nat,
    expiryMtp: nat,
    maxProofDepth: nat,
    requireShareWork: bool)

  const MAX_SNAPSHOT_SECONDS: nat := 31 * 24 * 60 * 60

  /** `(count - 1).bit_length()`. */
  function RequiredDepth(count: nat): nat
    requires count > 0
  {
    BitLength(count - 1)
  }

  /** Every check `policy_hash` makes on its way. */
  predicate PolicyAccepted(p: Policy) {
    && p.schemaVersion == 1
    && Identifier(p.experimentId, 64) && Identifier(p.bitcoinNetwork, 32)
    && |p.forkActivationId| == 32 && |p.shareWorkActivationId| == 32 && |p.registryAddress| == 20
    && 0 < p.finalizedHeight < TWO_TO_64
    && 0 < p.finalizedTimestamp < p.nextValidationTimestamp < TWO_TO_64
    && p.nextValidationTimestamp - p.finalizedTimestamp <= MAX_SNAPSHOT_SECONDS
    && |p.finalizedBlockHash| == 32 && |p.authorizationRoot| == 32
    && 0 < p.identityCount <= TWO_TO_16
    && 0 < p.activationHeight <= p.expiryHeight < TWO_TO_64
    && p.finalizedTimestamp < p.expiryMtp <= p.nextValidationTimestamp
    && p.maxProofDepth <= 16
    && RequiredDepth(p.identityCount) <= p.maxProofDepth
    && p.requireShareWork
  }

  function PolicyFields(p: Policy): seq<seq<Byte>>
    requires |p.experimentId| < 256 && |p.bitcoinNetwork| < 256
  {
    [ LittleEndian(p.schemaVersion, 2),
      BoundedAscii(p.experimentId),
      BoundedAscii(p.bitcoinNetwork),
      p.forkActivationId,
      p.shareWorkActivationId,
      p.registryAddress,
      LittleEndian(p.finalizedHeight, 8),
      LittleEndian(p.finalizedTimestamp, 8),
      p.finalizedBlockHash,
      LittleEndian(p.nextValidationTimestamp, 8),
      p.authorizationRoot,
      LittleEndian(p.identityCount, 4),
      LittleEndian(p.activationHeight, 8),
      LittleEndian(p.expiryHeight, 8),
      LittleEndian(p.expiryMtp, 8),
      LittleEndian(p.maxProofDepth, 1),
      BoolByte(p.requireShareWork) ]
  }

  function PolicyPayload(p: Policy): seq<Byte>
    requires |p.experimentId| < 256 && |p.bitcoinNetwork| < 256
  {
    Concat(PolicyFields(p))
  }

  /** The payload of an accepted policy determines the policy. */
  lemma PolicyPayloadInjective(p: Policy, q: Policy)
    requires PolicyAccepted(p) && PolicyAccepted(q) && PolicyPayload(p) == PolicyPayload(q)
    ensures p == q
  {
    hide LittleEndian, Concat, BitLength, Pow, BoundedAscii, Delimited;
    var fs, gs := PolicyFields(p), PolicyFields(q);
    AsciiDelimited(p.experimentId, q.experimentId);
    AsciiDelimited(p.bitcoinNetwork, q.bitcoinNetwork);
    forall i | 0 <= i < |fs| ensures Delimited(fs[i], gs[i]) {
      if i != 1 && i != 2 {
        FixedWidth(fs[i], gs[i]);
      }
    }
    ConcatInjective(fs, gs);
    PolicyFieldsInjective(p, q);
  }

  lemma PolicyFieldsInjective(p: Policy, q: Policy)
    requires PolicyAccepted(p) && PolicyAccepted(q) && PolicyFields(p) == PolicyFields(q)
    ensures p == q
  {
    hide LittleEndian, Pow, BoundedAscii, BitLength;
    var fs, gs := PolicyFields(p), PolicyFields(q);
    assert forall i | 0 <= i < 17 :: fs[i] == gs[i];
    Pow256Values();
    AsciiInjective(p.experimentId, q.experimentId);
    AsciiInjective(p.bitcoinNetwork, q.bitcoinNetwork);
    LittleEndianInjective(p.finalizedHeight, q.finalizedHeight, 8);
    LittleEndianInjective(p.finalizedTimestamp, q.finalizedTimestamp, 8);
    LittleEndianInjective(p.nextValidationTimestamp, q.nextValidationTimestamp, 8);
    LittleEndianInjective(p.identityCount, q.identityCount, 4);
    LittleEndianInjective(p.activationHeight, q.activationHeight, 8);
    LittleEndianInjective(p.expiryHeight, q.expiryHeight, 8);
    LittleEndianInjective(p.expiryMtp, q.expiryMtp, 8);
    LittleEndianInjective(p.maxProofDepth, q.maxProofDepth, 1);
  }

  const POLICY_TAG: seq<Byte> := Ascii("P2POOLBTC_IDENA_AUTH_POLICY_V1")
  const ACTIVATION_TAG: seq<Byte> := Ascii("P2POOLBTC_IDENA_AUTH_ACTIVATION_V1")
  const LEAF_TAG: seq<Byte> := Ascii("P2POOLBTC_IDENA_AUTH_LEAF_V1")
  const NODE_TAG: seq<Byte> := Ascii("P2POOLBTC_IDENA_AUTH_NODE_V1")
  const PATCH_SERIES_TAG: seq<Byte> := Ascii("P2POOLBTC_BITCOIN_CORE_PATCH_SERIES_V1")

  function Ascii(s: string): seq<Byte> {
    seq(|s|, i requires 0 <= i < |s| => s[i] as int % 256)
  }

  /** `policy_hash`. */
  function PolicyHash(p: Policy, hash: Hash): Digest
    requires PolicyAccepted(p)
  {
    TaggedHash(POLICY_TAG, PolicyPayload(p), hash)
  }

  /** Accepted policies with one hash are one policy, or the hash collides. */
  lemma PolicyHashBinds(p: Policy, q: Policy, hash: Hash)
    requires PolicyAccepted(p) && PolicyAccepted(q) && PolicyHash(p, hash) == PolicyHash(q, hash)
    ensures p == q || Collides(hash, POLICY_TAG + ([0] + PolicyPayload(p)), POLICY_TAG + ([0] + PolicyPayload(q)))
  {
    hide PolicyPayload, BitLength, Ascii;
    TaggedHashBinds(POLICY_TAG, PolicyPayload(p), PolicyPayload(q), hash);
    if PolicyPayload(p) == PolicyPayload(q) {
      PolicyPayloadInjective(p, q);
    }
  }

  // ------------------------------------------------------------------------- leaves

  datatype IdentityState = Verified | Newbie | Human

  datatype Leaf = Leaf(
    address: seq<Byte>,
    state: IdentityState,
    miningPubkey: seq<Byte>,
    registryCommitment: seq<Byte>,
    sequence: nat,
    block: nat,
    epoch: nat)

  function StateByte(s: IdentityState): Byte {
    match s
    case Verified => 3
    case Newbie => 7
    case Human => 8
  }

  predicate LeafAccepted(l: Leaf) {
    && |l.address| == 20 && |l.miningPubkey| == 32 && |l.registryCommitment| == 32
    && 0 < l.sequence < TWO_TO_32 && 0 < l.block < TWO_TO_64 && l.epoch < TWO_TO_16
  }

  function LeafFields(l: Leaf): seq<seq<Byte>> {
    [ l.address, [StateByte(l.state)], l.miningPubkey, l.registryCommitment,
      LittleEndian(l.sequence, 4), LittleEndian(l.block, 8), LittleEndian(l.epoch, 2) ]
  }

  function LeafHash(l: Leaf, hash: Hash): Digest {
    TaggedHash(LEAF_TAG, Concat(LeafFields(l)), hash)
  }

  lemma LeafPayloadInjective(l: Leaf, m: Leaf)
    requires LeafAccepted(l) && LeafAccepted(m) && Concat(LeafFields(l)) == Concat(LeafFields(m))
    ensures l == m
  {
    hide LittleEndian, Concat, Pow, Delimited;
    var fs, gs := LeafFields(l), LeafFields(m);
    forall i | 0 <= i < |fs| ensures Delimited(fs[i], gs[i]) {
      FixedWidth(fs[i], gs[i]);
    }
    ConcatInjective(fs, gs);
    assert forall i | 0 <= i < 7 :: fs[i] == gs[i];
    Pow256Values();
    assert fs[1][0] == gs[1][0];
    LittleEndianInjective(l.sequence, m.sequence, 4);
    LittleEndianInjective(l.block, m.block, 8);
    LittleEndianInjective(l.epoch, m.epoch, 2);
  }

  lemma ConcatLength(fields: seq<seq<Byte>>)
    ensures |Concat(fields)| == if fields == [] then 0 else |fields[0]| + |Concat(fields[1..])|
  {
  }

  /** The source's assertion on the encoded length can never fail. */
  lemma LeafPayloadLength(l: Leaf)
    requires LeafAccepted(l)
    ensures |Concat(LeafFields(l))| == 99
  {
    hide LittleEndian, Concat;
    var fs := LeafFields(l);
    ConcatLength(fs);
    ConcatLength(fs[1..]);
    ConcatLength(fs[2..]);
    ConcatLength(fs[3..]);
    ConcatLength(fs[4..]);
    ConcatLength(fs[5..]);
    ConcatLength(fs[6..]);
    var none: seq<seq<Byte>> := [];
    ConcatLength(none);
    assert fs[1..][1..] == fs[2..] && fs[2..][1..] == fs[3..] && fs[3..][1..] == fs[4..];
    assert fs[4..][1..] == fs[5..] && fs[5..][1..] == fs[6..] && fs[6..][1..] == none;
  }

  // --------------------------------------------------------------- activation manifests

  datatype Manifest = Manifest(
    schemaVersion: seq<Byte>,
    profileRevision: nat,
    status: seq<Byte>,
    launchEnabled: bool,
    activationId: seq<Byte>,
    experimentId: seq<Byte>,
    predecessorActivationId: seq<Byte>,
    consensusRuleset: seq<Byte>,
    upstreamCommit: seq<Byte>,
    patchSeriesSha256: seq<Byte>,
    parentHeight: nat,
    parentHash: seq<Byte>,
    bitcoinNetwork: seq<Byte>,
    bitcoinDatadir: seq<Byte>,
    p2pPort: nat,
    rpcPort: nat,
    messageStart: seq<Byte>,
    consensusPolicyHash: seq<Byte>,
    requireFreshDatadir: bool,
    historyReinterpreted: bool)

  predicate ManifestAccepted(m: Manifest) {
    && m.profileRevision < TWO_TO_16
    && Identifier(m.schemaVersion, 64) && Identifier(m.status, 32) && Identifier(m.experimentId, 64)
    && Identifier(m.consensusRuleset, 64) && Identifier(m.bitcoinNetwork, 32) && Identifier(m.bitcoinDatadir, 64)
    && |m.predecessorActivationId| == 32 && |m.upstreamCommit| == 20 && |m.patchSeriesSha256| == 32
    && 0 < m.parentHeight < TWO_TO_64 && |m.parentHash| == 32
    && 0 < m.p2pPort < TWO_TO_16 && 0 < m.rpcPort < TWO_TO_16 && m.p2pPort != m.rpcPort
    && |m.messageStart| == 4 && |m.consensusPolicyHash| == 32
  }

  /** Everything but the activation id, which is the hash of this. */
  function ManifestFields(m: Manifest): seq<seq<Byte>>
    requires ManifestAccepted(m)
  {
    [ LittleEndian(m.profileRevision, 2),
      BoundedAscii(m.schemaVersion),
      BoundedAscii(m.status),
      BoolByte(m.launchEnabled),
      BoundedAscii(m.experimentId),
      m.predecessorActivationId,
      BoundedAscii(m.consensusRuleset),
      m.upstreamCommit,
      m.patchSeriesSha256,
      LittleEndian(m.parentHeight, 8),
      m.parentHash,
      BoundedAscii(m.bitcoinNetwork),
      BoundedAscii(m.bitcoinDatadir),
      LittleEndian(m.p2pPort, 2),
      LittleEndian(m.rpcPort, 2),
      m.messageStart,
      m.consensusPolicyHash,
      BoolByte(m.requireFreshDatadir),
      BoolByte(m.historyReinterpreted) ]
  }

  /** `activation_id`. */
  function ActivationId(m: Manifest, hash: Hash): Digest
    requires ManifestAccepted(m)
  {
    TaggedHash(ACTIVATION_TAG, Concat(ManifestFields(m)), hash)
  }

  /** The payload of an accepted manifest determines everything in it but the activation id. */
  lemma ManifestPayloadInjective(m: Manifest, n: Manifest)
    requires ManifestAccepted(m) && ManifestAccepted(n) && Concat(ManifestFields(m)) == Concat(ManifestFields(n))
    ensures m.(activationId := n.activationId) == n
  {
    hide LittleEndian, Concat, Pow, BoundedAscii, Delimited;
    var fs, gs := ManifestFields(m), ManifestFields(n);
    AsciiDelimited(m.schemaVersion, n.schemaVersion);
    AsciiDelimited(m.status, n.status);
    AsciiDelimited(m.experimentId, n.experimentId);
    AsciiDelimited(m.consensusRuleset, n.consensusRuleset);
    AsciiDelimited(m.bitcoinNetwork, n.bitcoinNetwork);
    AsciiDelimited(m.bitcoinDatadir, n.bitcoinDatadir);
    forall i | 0 <= i < |fs| ensures Delimited(fs[i], gs[i]) {
      if i !in {1, 2, 4, 6, 11, 12} {
        FixedWidth(fs[i], gs[i]);
      }
    }
    ConcatInjective(fs, gs);
    ManifestFieldsInjective(m, n);
  }

  /** Accepted manifests with one activation id agree in everything else, or the hash collides. */
  lemma ActivationIdBinds(m: Manifest, n: Manifest, hash: Hash)
    requires ManifestAccepted(m) && ManifestAccepted(n) && ActivationId(m, hash) == ActivationId(n, hash)
    ensures || m.(activationId := n.activationId) == n
            || Collides(hash, ACTIVATION_TAG + ([0] + Concat(ManifestFields(m))), ACTIVATION_TAG + ([0] + Concat(ManifestFields(n))))
  {
    hide Concat, ManifestFields, ManifestAccepted, Ascii;
    TaggedHashBinds(ACTIVATION_TAG, Concat(ManifestFields(m)), Concat(ManifestFields(n)), hash);
    if Concat(ManifestFields(m)) == Concat(ManifestFields(n)) {
      ManifestPayloadInjective(m, n);
    }
  }

  lemma ManifestFieldsInjective(m: Manifest, n: Manifest)
    requires ManifestAccepted(m) && ManifestAccepted(n) && ManifestFields(m) == ManifestFields(n)
    ensures m.(activationId := n.activationId) == n
  {
    hide LittleEndian, Pow, BoundedAscii;
    var fs, gs := ManifestFields(m), ManifestFields(n);
    assert forall i | 0 <= i < 19 :: fs[i] == gs[i];
    Pow256Values();
    AsciiInjective(m.schemaVersion, n.schemaVersion);
    AsciiInjective(m.status, n.status);
    AsciiInjective(m.experimentId, n.experimentId);
    AsciiInjective(m.consensusRuleset, n.consensusRuleset);
    AsciiInjective(m.bitcoinNetwork, n.bitcoinNetwork);
    AsciiInjective(m.bitcoinDatadir, n.bitcoinDatadir);
    LittleEndianInjective(m.profileRevision, n.profileRevision, 2);
    LittleEndianInjective(m.parentHeight, n.parentHeight, 8);
    LittleEndianInjective(m.p2pPort, n.p2pPort, 2);
    LittleEndianInjective(m.rpcPort, n.rpcPort, 2);
    assert fs[3][0] == gs[3][0] && fs[17][0] == gs[17][0] && fs[18][0] == gs[18][0];
  }

  // --------------------------------------------------------------------- patch series

  datatype Patch = Patch(order: int, path: seq<Byte>, sha256: seq<Byte>)

  predicate PatchAccepted(p: Patch, expectedOrder: nat) {
    p.order == expectedOrder && expectedOrder < TWO_TO_32 && Identifier(p.path, 255) && |p.sha256| == 32
  }

  /** The patches from position `from` on carry the orders from + 1, from + 2, ... */
  predicate SeriesAccepted(patches: seq<Patch>, from: nat) {
    forall i | 0 <= i < |patches| :: PatchAccepted(patches[i], from + i + 1)
  }

  function PatchBytes(p: Patch, order: nat): seq<Byte>
    requires |p.path| < 256
  {
    LittleEndian(order, 4) + (BoundedAscii(p.path) + p.sha256)
  }

  function SeriesBytes(patches: seq<Patch>, from: nat): seq<Byte>
    requires SeriesAccepted(patches, from)
  {
    if patches == [] then []
    else
      TailAccepted(patches, from);
      PatchBytes(patches[0], from + 1) + SeriesBytes(patches[1..], from + 1)
  }

  lemma TailAccepted(patches: seq<Patch>, from: nat)
    requires SeriesAccepted(patches, from) && patches != []
    ensures SeriesAccepted(patches[1..], from + 1)
  {
    forall i | 0 <= i < |patches| - 1 ensures PatchAccepted(patches[1..][i], from + 1 + i + 1) {
      assert patches[1..][i] == patches[i + 1] && PatchAccepted(patches[i + 1], from + (i + 1) + 1);
    }
  }

  lemma PatchDelimited(p: Patch, q: Patch, order: nat)
    requires PatchAccepted(p, order) && PatchAccepted(q, order)
    ensures Delimited(PatchBytes(p, order), PatchBytes(q, order))
    ensures PatchBytes(p, order) == PatchBytes(q, order) ==> p == q
  {
    hide LittleEndian, BoundedAscii;
    var f, g := PatchBytes(p, order), PatchBytes(q, order);
    if f <= g || g <= f {
      PatchPrefix(p, q, order);
    }
  }

  lemma PatchPrefix(p: Patch, q: Patch, order: nat)
    requires PatchAccepted(p, order) && PatchAccepted(q, order)
    requires PatchBytes(p, order) <= PatchBytes(q, order) || PatchBytes(q, order) <= PatchBytes(p, order)
    ensures p == q
  {
    hide LittleEndian;
    var f, g := PatchBytes(p, order), PatchBytes(q, order);
    assert f[4] == |p.path| && g[4] == |q.path|;
    assert |f| == |g|;
    assert p.path == f[5..5 + |p.path|] && q.path == g[5..5 + |q.path|];
    assert p.sha256 == f[5 + |p.path|..] && q.sha256 == g[5 + |q.path|..];
  }

  /** Ordered patch lists of any two lengths with the same payload are the same list. */
  lemma {:induction false} SeriesInjective(a: seq<Patch>, b: seq<Patch>, from: nat)
    requires SeriesAccepted(a, from) && SeriesAccepted(b, from) && SeriesBytes(a, from) == SeriesBytes(b, from)
    ensures a == b
    decreases |a|
  {
    hide PatchBytes, Delimited;
    if a != [] && b != [] {
      assert PatchAccepted(a[0], from + 0 + 1) && PatchAccepted(b[0], from + 0 + 1);
      TailAccepted(a, from);
      TailAccepted(b, from);
      PatchDelimited(a[0], b[0], from + 1);
      Peel(PatchBytes(a[0], from + 1), SeriesBytes(a[1..], from + 1),
           PatchBytes(b[0], from + 1), SeriesBytes(b[1..], from + 1));
      SeriesInjective(a[1..], b[1..], from + 1);
      assert a == [a[0]] + a[1..] && b == [b[0]] + b[1..];
    } else {
      SeriesNonempty(a, from);
      SeriesNonempty(b, from);
    }
  }

  lemma SeriesNonempty(patches: seq<Patch>, from: nat)
    requires SeriesAccepted(patches, from)
    ensures SeriesBytes(patches, from) == [] <==> patches == []
  {
    if patches != [] {
      assert |PatchBytes(patches[0], from + 1)| > 0;
    }
  }

  /** Accepted patch lists with one hash are one list, or the hash collides. */
  lemma PatchSeriesBinds(a: seq<Patch>, b: seq<Patch>, hash: Hash)
    requires SeriesAccepted(a, 0) && SeriesAccepted(b, 0)
    requires TaggedHash(PATCH_SERIES_TAG, SeriesBytes(a, 0), hash) == TaggedHash(PATCH_SERIES_TAG, SeriesBytes(b, 0), hash)
    ensures a == b || Collides(hash, PATCH_SERIES_TAG + ([0] + SeriesBytes(a, 0)), PATCH_SERIES_TAG + ([0] + SeriesBytes(b, 0)))
  {
    hide SeriesBytes, Ascii, SeriesAccepted;
    TaggedHashBinds(PATCH_SERIES_TAG, SeriesBytes(a, 0), SeriesBytes(b, 0), hash);
    if SeriesBytes(a, 0) == SeriesBytes(b, 0) {
      SeriesInjective(a, b, 0);
    }
  }

  /** `patch_series_sha256`: the loop that checks and appends, and the hash at its end. */
  method PatchSeries(patches: seq<Patch>, hash: Hash) returns (r: Option<Digest>)
    ensures r.Some? <==> SeriesAccepted(patches, 0)
    ensures r.Some? ==> r.value == TaggedHash(PATCH_SERIES_TAG, SeriesBytes(patches, 0), hash)
  {
    hide PatchBytes;
    var payload: seq<Byte> := [];
    for i := 0 to |patches|
      invariant SeriesAccepted(patches[..i], 0)
      invariant payload == SeriesBytes(patches[..i], 0)
    {
      if !PatchAccepted(patches[i], i + 1) {
        assert !PatchAccepted(patches[i], 0 + i + 1);
        return None;
      }
      SeriesSnoc(patches[..i], patches[i], 0);
      assert patches[..i + 1] == patches[..i] + [patches[i]];
      payload := payload + PatchBytes(patches[i], i + 1);
    }
    assert patches[..|patches|] == patches;
    r := Some(TaggedHash(PATCH_SERIES_TAG, payload, hash));
  }

  lemma {:induction false} SeriesSnoc(patches: seq<Patch>, p: Patch, from: nat)
    requires SeriesAccepted(patches, from) && PatchAccepted(p, from + |patches| + 1)
    ensures SeriesAccepted(patches + [p], from)
    ensures SeriesBytes(patches + [p], from) == SeriesBytes(patches, from) + PatchBytes(p, from + |patches| + 1)
    decreases |patches|
  {
    hide PatchBytes;
    var all := patches + [p];
    forall i | 0 <= i < |all| ensures PatchAccepted(all[i], from + i + 1) {
      if i < |patches| {
        assert all[i] == patches[i];
      }
    }
    if patches == [] {
      assert all[1..] == [];
    } else {
      TailAccepted(patches, from);
      SeriesSnoc(patches[1..], p, from + 1);
      assert all[1..] == patches[1..] + [p];
    }
  }
}
