/**
 The consensus-identity verifier as it runs: its checks in the order of the source, and
 payloads that grow field by field. A hash is returned exactly for the objects that are
 accepted, and it is the one `ConsensusIdentity` specifies.
 */
module ConsensusHashing {
  import opened ByteStrings
  import opened Bits
  import opened ConsensusIdentity

  lemma {:induction false} ConcatSnoc(fields: seq<seq<Byte>>, f: seq<Byte>)
    ensures Concat(fields + [f]) == Concat(fields) + f
    decreases |fields|
  {
    if fields == [] {
      assert fields + [f] == [f] && [f][1..] == [];
    } else {
      assert (fields + [f])[1..] == fields[1..] + [f];
      ConcatSnoc(fields[1..], f);
    }
  }

  /** The appends to a payload, one field after the other. */
  method Appended(fields: seq<seq<Byte>>) returns (payload: seq<Byte>)
    ensures payload == Concat(fields)
  {
    payload := [];
    for i := 0 to |fields|
      invariant payload == Concat(fields[..i])
    {
      ConcatSnoc(fields[..i], fields[i]);
      assert fields[..i + 1] == fields[..i] + [fields[i]];
      payload := payload + fields[i];
    }
    assert fields[..|fields|] == fields;
  }

  /** The checks of `policy_hash`. */
  method CheckPolicy(p: Policy) returns (ok: bool)
    ensures ok <==> PolicyAccepted(p)
  {
    hide BitLength, Identifier;
    if p.schemaVersion != 1 || !Identifier(p.experimentId, 64) || !Identifier(p.bitcoinNetwork, 32) {
      return false;
    }
    if |p.forkActivationId| != 32 || |p.shareWorkActivationId| != 32 || |p.registryAddress| != 20 {
      return false;
    }
    if p.finalizedHeight >= TWO_TO_64 || p.finalizedHeight == 0 {
      return false;
    }
    if p.finalizedTimestamp >= TWO_TO_64 || p.nextValidationTimestamp >= TWO_TO_64 || p.finalizedTimestamp == 0 {
      return false;
    }
    if p.finalizedTimestamp >= p.nextValidationTimestamp || p.nextValidationTimestamp - p.finalizedTimestamp > 31 * 24 * 60 * 60 {
      return false;
    }
    if |p.finalizedBlockHash| != 32 || |p.authorizationRoot| != 32 {
      return false;
    }
    if p.identityCount == 0 || p.identityCount > 65536 {
      return false;
    }
    if p.activationHeight >= TWO_TO_64 || p.expiryHeight >= TWO_TO_64 || p.activationHeight == 0 || p.expiryHeight < p.activationHeight {
      return false;
    }
    if p.expiryMtp >= TWO_TO_64 || p.expiryMtp <= p.finalizedTimestamp || p.expiryMtp > p.nextValidationTimestamp {
      return false;
    }
    if p.maxProofDepth > 16 || BitLength(p.identityCount - 1) > p.maxProofDepth {
      return false;
    }
    ok := p.requireShareWork;
  }

  /** `policy_hash`: nothing for a policy that fails a check. */
  method HashPolicy(p: Policy, hash: Hash) returns (r: Option<Digest>)
    ensures r.Some? <==> PolicyAccepted(p)
    ensures r.Some? ==> r.value == PolicyHash(p, hash)
  {
    hide Concat, BitLength, Ascii;
    var ok := CheckPolicy(p);
    if !ok {
      return None;
    }
    var payload := Appended(PolicyFields(p));
    r := Some(TaggedHash(POLICY_TAG, payload, hash));
  }

  /** `leaf_hash`: nothing for a leaf that fails a check. */
  method HashLeaf(l: Leaf, hash: Hash) returns (r: Option<Digest>)
    ensures r.Some? <==> LeafAccepted(l)
    ensures r.Some? ==> r.value == LeafHash(l, hash)
  {
    hide Concat, LittleEndian, Ascii;
    if |l.address| != 20 || |l.miningPubkey| != 32 || |l.registryCommitment| != 32 {
      return None;
    }
    if l.sequence >= TWO_TO_32 || l.block >= TWO_TO_64 || l.epoch >= 65536 {
      return None;
    }
    if l.sequence == 0 || l.block == 0 {
      return None;
    }
    var payload := Appended(LeafFields(l));
    r := Some(TaggedHash(LEAF_TAG, payload, hash));
  }

  /** The checks of `activation_id`. */
  method CheckManifest(m: Manifest) returns (ok: bool)
    ensures ok <==> ManifestAccepted(m)
  {
    hide Identifier;
    if m.profileRevision >= 65536 || !Identifier(m.schemaVersion, 64) || !Identifier(m.status, 32) || !Identifier(m.experimentId, 64) {
      return false;
    }
    if |m.predecessorActivationId| != 32 || !Identifier(m.consensusRuleset, 64) {
      return false;
    }
    if |m.upstreamCommit| != 20 || |m.patchSeriesSha256| != 32 {
      return false;
    }
    if m.parentHeight >= TWO_TO_64 || m.parentHeight == 0 || |m.parentHash| != 32 {
      return false;
    }
    if !Identifier(m.bitcoinNetwork, 32) || !Identifier(m.bitcoinDatadir, 64) {
      return false;
    }
    if m.p2pPort >= 65536 || m.rpcPort >= 65536 {
      return false;
    }
    if m.p2pPort == 0 || m.rpcPort == 0 || m.p2pPort == m.rpcPort {
      return false;
    }
    ok := |m.messageStart| == 4 && |m.consensusPolicyHash| == 32;
  }

  /** `activation_id`: nothing for a manifest that fails a check. */
  method HashManifest(m: Manifest, hash: Hash) returns (r: Option<Digest>)
    ensures r.Some? <==> ManifestAccepted(m)
    ensures r.Some? ==> r.value == ActivationId(m, hash)
  {
    hide Concat, Ascii, Identifier;
    var ok := CheckManifest(m);
    if !ok {
      return None;
    }
    var payload := Appended(ManifestFields(m));
    r := Some(TaggedHash(ACTIVATION_TAG, payload, hash));
  }

  /** An identifier is a text of 1 to `maximum` of the characters a-z, 0-9, dot, underscore, slash and hyphen. */
  lemma IdentifierIff(s: seq<Byte>, maximum: nat)
    requires maximum < 256
    ensures Identifier(s, maximum) <==>
              && 1 <= |s| <= maximum
              && forall b | b in s ::
                   'a' as int <= b <= 'z' as int || '0' as int <= b <= '9' as int
                   || b == '.' as int || b == '_' as int || b == '/' as int || b == '-' as int
  {
    assert forall i | 0 <= i < |s| :: s[i] in s;
  }
}
