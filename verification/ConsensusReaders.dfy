/**
 Readers for the byte strings the consensus-identity verifier hashes. What is hashed is a
 tag, a zero byte, and bytes from which the reader recovers the object, field by field in
 the order of the format (`PolicyPreimage`, `LeafPreimage`, `ManifestPreimage`,
 `SeriesPreimage`). Preimages with different tags differ (`TagsSeparate`).
 */
module ConsensusReaders {
  import opened ByteStrings
  import opened Bits
  import opened ConsensusIdentity

  // ------------------------------------------------------------------------ layouts

  /** A field of a fixed number of bytes, or one behind a byte with its length. */
  datatype Field = Fixed(width: nat) | Prefixed

  /** The fields of a byte string that has exactly this layout. */
  function ReadFields(data: seq<Byte>, layout: seq<Field>): Option<seq<seq<Byte>>>
    decreases |layout|
  {
    if layout == [] then if data == [] then Some([]) else None
    else
      var start := if layout[0].Fixed? then 0 else 1;
      if |data| < start then None
      else
        var end := start + (if layout[0].Fixed? then layout[0].width else data[0]);
        if |data| < end then None
        else
          var rest := ReadFields(data[end..], layout[1..]);
          if rest.None? then None else Some([data[start..end]] + rest.value)
  }

  function Written(field: Field, value: seq<Byte>): seq<Byte>
    requires field.Prefixed? ==> |value| < 256
  {
    if field.Fixed? then value else BoundedAscii(value)
  }

  ghost predicate Fits(layout: seq<Field>, values: seq<seq<Byte>>) {
    && |layout| == |values|
    && forall i | 0 <= i < |layout| :: if layout[i].Fixed? then |values[i]| == layout[i].width else |values[i]| < 256
  }

  lemma ReadFirst(field: Field, value: seq<Byte>, rest: seq<Byte>, layout: seq<Field>)
    requires if field.Fixed? then |value| == field.width else |value| < 256
    ensures ReadFields(Written(field, value) + rest, [field] + layout)
         == if ReadFields(rest, layout).None? then None else Some([value] + ReadFields(rest, layout).value)
  {
    var data := Written(field, value) + rest;
    var start := if field.Fixed? then 0 else 1;
    assert data[start..start + |value|] == value && data[start + |value|..] == rest;
    assert ([field] + layout)[1..] == layout;
  }

  /** Fields written one after the other are read back. */
  lemma {:induction false} FieldsAreRead(layout: seq<Field>, values: seq<seq<Byte>>, fields: seq<seq<Byte>>)
    requires Fits(layout, values) && |fields| == |values|
    requires forall i | 0 <= i < |fields| :: fields[i] == Written(layout[i], values[i])
    ensures ReadFields(Concat(fields), layout) == Some(values)
    decreases |layout|
  {
    hide ReadFields, Written, Concat;
    if layout == [] {
      NothingIsRead(layout, fields);
      assert values == [];
    } else {
      FieldsAreRead(layout[1..], values[1..], fields[1..]);
      ReadFirst(layout[0], values[0], Concat(fields[1..]), layout[1..]);
      ConcatFirst(fields);
      assert layout == [layout[0]] + layout[1..] && values == [values[0]] + values[1..];
    }
  }

  lemma NothingIsRead(layout: seq<Field>, fields: seq<seq<Byte>>)
    requires layout == [] && fields == []
    ensures ReadFields(Concat(fields), layout) == Some([])
  {
  }

  lemma ConcatFirst(fields: seq<seq<Byte>>)
    requires fields != []
    ensures Concat(fields) == fields[0] + Concat(fields[1..])
  {
  }

  lemma NumberIsRead(n: nat, width: nat)
    requires width == 1 || width == 2 || width == 4 || width == 8
    requires n < (if width == 1 then 256 else if width == 2 then TWO_TO_16 else if width == 4 then TWO_TO_32 else TWO_TO_64)
    ensures FromLittleEndian(LittleEndian(n, width)) == n
  {
    hide Pow;
    Pow256Values();
    FromLittleEndianOfLittleEndian(n, width);
  }

  // ----------------------------------------------------------------------- policies

  const POLICY_LAYOUT: seq<Field> :=
    [Fixed(2), Prefixed, Prefixed, Fixed(32), Fixed(32), Fixed(20), Fixed(8), Fixed(8), Fixed(32), Fixed(8), Fixed(32),
     Fixed(4), Fixed(8), Fixed(8), Fixed(8), Fixed(1), Fixed(1)]

  function ReadPolicy(data: seq<Byte>): Option<Policy> {
    var r := ReadFields(data, POLICY_LAYOUT);
    if r.None? || |r.value| != 17 then None
    else
      var f := r.value;
      Some(Policy(
        FromLittleEndian(f[0]), f[1], f[2], f[3], f[4], f[5], FromLittleEndian(f[6]), FromLittleEndian(f[7]), f[8],
        FromLittleEndian(f[9]), f[10], FromLittleEndian(f[11]), FromLittleEndian(f[12]), FromLittleEndian(f[13]),
        FromLittleEndian(f[14]), FromLittleEndian(f[15]), f[16] == [1]))
  }

  ghost function PolicyValues(p: Policy): seq<seq<Byte>> {
    [ LittleEndian(p.schemaVersion, 2), p.experimentId, p.bitcoinNetwork, p.forkActivationId, p.shareWorkActivationId,
      p.registryAddress, LittleEndian(p.finalizedHeight, 8), LittleEndian(p.finalizedTimestamp, 8), p.finalizedBlockHash,
      LittleEndian(p.nextValidationTimestamp, 8), p.authorizationRoot, LittleEndian(p.identityCount, 4),
      LittleEndian(p.activationHeight, 8), LittleEndian(p.expiryHeight, 8), LittleEndian(p.expiryMtp, 8),
      LittleEndian(p.maxProofDepth, 1), BoolByte(p.requireShareWork) ]
  }

  lemma PolicyIsRead(p: Policy)
    requires PolicyAccepted(p)
    ensures ReadPolicy(PolicyPayload(p)) == Some(p)
  {
    hide ReadFields, LittleEndian, FromLittleEndian, Concat, BoundedAscii, BitLength;
    PolicyFieldsAreRead(p);
    NumberIsRead(p.schemaVersion, 2);
    NumberIsRead(p.finalizedHeight, 8);
    NumberIsRead(p.finalizedTimestamp, 8);
    NumberIsRead(p.nextValidationTimestamp, 8);
    NumberIsRead(p.identityCount, 4);
    NumberIsRead(p.activationHeight, 8);
    NumberIsRead(p.expiryHeight, 8);
    NumberIsRead(p.expiryMtp, 8);
    NumberIsRead(p.maxProofDepth, 1);
  }

  lemma PolicyFieldsAreRead(p: Policy)
    requires PolicyAccepted(p)
    ensures ReadFields(PolicyPayload(p), POLICY_LAYOUT) == Some(PolicyValues(p))
  {
    hide ReadFields, LittleEndian, Concat, BoundedAscii, BitLength;
    FieldsAreRead(POLICY_LAYOUT, PolicyValues(p), PolicyFields(p));
  }

  /** What the policy hash is a hash of. */
  lemma PolicyPreimage(p: Policy, hash: Hash)
    requires PolicyAccepted(p)
    ensures exists bytes ::
              PolicyHash(p, hash) == hash(Ascii("P2POOLBTC_IDENA_AUTH_POLICY_V1") + ([0] + bytes)) && ReadPolicy(bytes) == Some(p)
  {
    hide PolicyPayload, ReadPolicy, PolicyAccepted, Ascii;
    PolicyIsRead(p);
  }

  // ------------------------------------------------------------------------- leaves

  const LEAF_LAYOUT: seq<Field> := [Fixed(20), Fixed(1), Fixed(32), Fixed(32), Fixed(4), Fixed(8), Fixed(2)]

  function ReadLeaf(data: seq<Byte>): Option<Leaf> {
    var r := ReadFields(data, LEAF_LAYOUT);
    if r.None? || |r.value| != 7 || r.value[1] !in {[3], [7], [8]} then None
    else
      var f := r.value;
      Some(Leaf(f[0], if f[1] == [3] then Verified else if f[1] == [7] then Newbie else Human, f[2], f[3],
                FromLittleEndian(f[4]), FromLittleEndian(f[5]), FromLittleEndian(f[6])))
  }

  lemma LeafIsRead(l: Leaf)
    requires LeafAccepted(l)
    ensures ReadLeaf(Concat(LeafFields(l))) == Some(l)
  {
    hide ReadFields, LittleEndian, FromLittleEndian, Concat;
    FieldsAreRead(LEAF_LAYOUT, LeafFields(l), LeafFields(l));
    NumberIsRead(l.sequence, 4);
    NumberIsRead(l.block, 8);
    NumberIsRead(l.epoch, 2);
  }

  /** What the hash of a leaf is a hash of. */
  lemma LeafPreimage(l: Leaf, hash: Hash)
    requires LeafAccepted(l)
    ensures exists bytes ::
              LeafHash(l, hash) == hash(Ascii("P2POOLBTC_IDENA_AUTH_LEAF_V1") + ([0] + bytes)) && ReadLeaf(bytes) == Some(l)
  {
    hide LeafFields, ReadLeaf, LeafAccepted, Ascii, Concat;
    LeafIsRead(l);
  }

  // ---------------------------------------------------------------------- manifests

  const MANIFEST_LAYOUT: seq<Field> :=
    [Fixed(2), Prefixed, Prefixed, Fixed(1), Prefixed, Fixed(32), Prefixed, Fixed(20), Fixed(32), Fixed(8), Fixed(32),
     Prefixed, Prefixed, Fixed(2), Fixed(2), Fixed(4), Fixed(32), Fixed(1), Fixed(1)]

  /** The manifest with this activation id, which is no part of the bytes. */
  function ReadManifest(data: seq<Byte>, activationId: seq<Byte>): Option<Manifest> {
    var r := ReadFields(data, MANIFEST_LAYOUT);
    if r.None? || |r.value| != 19 then None
    else
      var f := r.value;
      Some(Manifest(
        f[1], FromLittleEndian(f[0]), f[2], f[3] == [1], activationId, f[4], f[5], f[6], f[7], f[8], FromLittleEndian(f[9]),
        f[10], f[11], f[12], FromLittleEndian(f[13]), FromLittleEndian(f[14]), f[15], f[16], f[17] == [1], f[18] == [1]))
  }

  ghost function ManifestValues(m: Manifest): seq<seq<Byte>> {
    [ LittleEndian(m.profileRevision, 2), m.schemaVersion, m.status, BoolByte(m.launchEnabled), m.experimentId,
      m.predecessorActivationId, m.consensusRuleset, m.upstreamCommit, m.patchSeriesSha256, LittleEndian(m.parentHeight, 8),
      m.parentHash, m.bitcoinNetwork, m.bitcoinDatadir, LittleEndian(m.p2pPort, 2), LittleEndian(m.rpcPort, 2),
      m.messageStart, m.consensusPolicyHash, BoolByte(m.requireFreshDatadir), BoolByte(m.historyReinterpreted) ]
  }

  lemma ManifestFits(m: Manifest)
    requires ManifestAccepted(m)
    ensures Fits(MANIFEST_LAYOUT, ManifestValues(m))
  {
    hide LittleEndian, IdentifierByte;
  }

  lemma FirstAreWritten(m: Manifest)
    requires ManifestAccepted(m) && Fits(MANIFEST_LAYOUT, ManifestValues(m))
    ensures forall i | 0 <= i < 9 :: ManifestFields(m)[i] == Written(MANIFEST_LAYOUT[i], ManifestValues(m)[i])
  {
    hide LittleEndian, BoundedAscii, IdentifierByte;
  }

  lemma LastAreWritten(m: Manifest)
    requires ManifestAccepted(m) && Fits(MANIFEST_LAYOUT, ManifestValues(m))
    ensures |ManifestFields(m)| == 19
    ensures forall i | 9 <= i < 19 :: ManifestFields(m)[i] == Written(MANIFEST_LAYOUT[i], ManifestValues(m)[i])
  {
    hide LittleEndian, BoundedAscii, IdentifierByte;
  }

  lemma ManifestFieldsAreRead(m: Manifest)
    requires ManifestAccepted(m)
    ensures ReadFields(Concat(ManifestFields(m)), MANIFEST_LAYOUT) == Some(ManifestValues(m))
  {
    hide ReadFields, Concat, ManifestFields, ManifestAccepted, Written, Fits;
    ManifestFits(m);
    FirstAreWritten(m);
    LastAreWritten(m);
    FieldsAreRead(MANIFEST_LAYOUT, ManifestValues(m), ManifestFields(m));
  }

  lemma ManifestIsRead(m: Manifest)
    requires ManifestAccepted(m)
    ensures ReadManifest(Concat(ManifestFields(m)), m.activationId) == Some(m)
  {
    hide ReadFields, LittleEndian, FromLittleEndian, Concat, ManifestFields;
    ManifestFieldsAreRead(m);
    NumberIsRead(m.profileRevision, 2);
    NumberIsRead(m.parentHeight, 8);
    NumberIsRead(m.p2pPort, 2);
    NumberIsRead(m.rpcPort, 2);
  }

  /** What the activation id is a hash of. */
  lemma ManifestPreimage(m: Manifest, hash: Hash)
    requires ManifestAccepted(m)
    ensures exists bytes ::
              && ActivationId(m, hash) == hash(Ascii("P2POOLBTC_IDENA_AUTH_ACTIVATION_V1") + ([0] + bytes))
              && ReadManifest(bytes, m.activationId) == Some(m)
  {
    hide ManifestFields, ReadManifest, ManifestAccepted, Ascii, Concat;
    ManifestIsRead(m);
  }

  // ------------------------------------------------------------------- patch series

  /** One patch after the other: order, path and hash. */
  function ReadSeries(data: seq<Byte>): Option<seq<Patch>>
    decreases |data|
  {
    if data == [] then Some([])
    else if |data| < 5 then None
    else
      var n: nat := data[4];
      if |data| < 37 + n then None
      else
        var rest := ReadSeries(data[37 + n..]);
        if rest.None? then None
        else Some([Patch(FromLittleEndian(data[..4]), data[5..5 + n], data[5 + n..37 + n])] + rest.value)
  }

  lemma PatchIsRead(p: Patch, order: nat, rest: seq<Byte>)
    requires PatchAccepted(p, order)
    ensures ReadSeries(PatchBytes(p, order) + rest)
         == if ReadSeries(rest).None? then None else Some([p] + ReadSeries(rest).value)
  {
    hide LittleEndian, FromLittleEndian;
    var data := PatchBytes(p, order) + rest;
    var n := |p.path|;
    assert data[..4] == LittleEndian(order, 4) && data[4] == n;
    assert data[5..5 + n] == p.path && data[5 + n..37 + n] == p.sha256 && data[37 + n..] == rest;
    NumberIsRead(order, 4);
  }

  lemma {:induction false} SeriesIsRead(patches: seq<Patch>, from: nat)
    requires SeriesAccepted(patches, from)
    ensures ReadSeries(SeriesBytes(patches, from)) == Some(patches)
    decreases |patches|
  {
    if patches != [] {
      hide ReadSeries, PatchBytes;
      TailAccepted(patches, from);
      SeriesIsRead(patches[1..], from + 1);
      assert PatchAccepted(patches[0], from + 0 + 1);
      PatchIsRead(patches[0], from + 1, SeriesBytes(patches[1..], from + 1));
      assert patches == [patches[0]] + patches[1..];
    }
  }

  /** What the hash of a patch series is a hash of. */
  lemma SeriesPreimage(patches: seq<Patch>, hash: Hash)
    requires SeriesAccepted(patches, 0)
    ensures exists bytes ::
              && TaggedHash(PATCH_SERIES_TAG, SeriesBytes(patches, 0), hash)
                 == hash(Ascii("P2POOLBTC_BITCOIN_CORE_PATCH_SERIES_V1") + ([0] + bytes))
              && ReadSeries(bytes) == Some(patches)
  {
    hide SeriesBytes, ReadSeries, Ascii;
    SeriesIsRead(patches, 0);
  }

  // ---------------------------------------------------------------------------- tags

  /** What stands before the first zero byte. */
  function UpToZero(s: seq<Byte>): seq<Byte> {
    if s == [] || s[0] == 0 then [] else [s[0]] + UpToZero(s[1..])
  }

  lemma {:induction false} TagIsUpToZero(tag: seq<Byte>, bytes: seq<Byte>)
    requires 0 !in tag
    ensures UpToZero(tag + ([0] + bytes)) == tag
  {
    if tag == [] {
      assert tag + ([0] + bytes) == [0] + bytes;
    } else {
      assert (tag + ([0] + bytes))[1..] == tag[1..] + ([0] + bytes);
      TagIsUpToZero(tag[1..], bytes);
      assert tag == [tag[0]] + tag[1..];
    }
  }

  /** Preimages with different tags, neither of which has a zero byte, are different. */
  lemma TagsSeparate(tag: seq<Byte>, other: seq<Byte>, x: seq<Byte>, y: seq<Byte>)
    requires 0 !in tag && 0 !in other && tag != other
    ensures tag + ([0] + x) != other + ([0] + y)
  {
    TagIsUpToZero(tag, x);
    TagIsUpToZero(other, y);
  }
}
