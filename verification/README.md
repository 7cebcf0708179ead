# Verified model of the PoHW tooling

A Dafny model of the parts of the repository that decide something: the canonical
DAG-CBOR and CAR readers, the PSBT extractor, the Idena reward ledger with its live
indexer, the session recorder, the Bitcoin pressure guard, compact targets, the hash
preimages and Merkle proofs of the consensus identity, and the validation of report
archives. `dafny verify dfyconfig.toml` checks all of it.

Code that computes is modelled by functions; code that loops or updates tables is
modelled by methods and classes, and each of those is tied to a function or relation
about which the properties are proved. Bytes are `seq<Byte>`, tables are maps and sets.
SHA-256 is an arbitrary function to 32-byte digests: results about hashes say that two
inputs are equal or exhibit a collision. Row ids, which the source hashes from lists of
strings, are those lists, so two ids are equal only if all their parts are.

| file | what it holds |
|---|---|
| `ByteStrings`, `Bits` | byte strings, integers in bytes, shifts, orders |
| `DagCbor`, `DagCborCanonical`, `DagCborKeys`, `DagCborTexts`, `DagCborLoops`, `Uvarint`, `CarReaders` | the decoder against a shortest-form encoder (RFC 8949 sections 3 and 4.2.1), UTF-8 texts, varints, both CARv1 readers |
| `BitcoinWire`, `Psbt`, `PsbtWriting` | compact sizes, transactions (BIP 144), key maps and extraction (BIP 174), what the parser accepts |
| `CompactTarget` | compact targets and the limit check |
| `ConsensusIdentity`, `ConsensusReaders`, `ConsensusHashing`, `MerkleAuthorization` | injective preimages, readers of them, the checks as they run, binding and complete Merkle proofs |
| `ArchivePaths`, `ArchiveNames`, `ArchiveTree` | member paths, which names are safe, the validator, extraction into a tree |
| `SessionRecorder`, `SessionRows`, `SessionRescans`, `PressureGuard`, `GuardActions` | the two run-level state machines; what one block does to every table; blocks scanned out of order or again; exactly when the guard acts |
| `RewardRows`, `Liabilities`, `LiabilityColumns`, `RewardImports`, `ImportSteps`, `ImportConvergence`, `ImportOrder`, `FirstSuppliers`, `Listings`, `RewardTables`, `RewardExport`, `ReplayAnswers` | exact rewards: rows and ids, liabilities, imports, their convergence and when their order shows, the tables as they are updated, the export |
| `CoverageGaps`, `LiveModel`, `LiveRounds`, `LiveRuns`, `LiveLosses`, `LiveTables` | the live indexer: gaps, one polling round and what it does to every table, whole runs, what is lost, the loops |

## What the code does that its description does not say

- An import whose rebuild of the liabilities meets a bad field is rolled back as a whole.
  Whether it meets one depends on which epochs it wins, so the order of imports can show
  (`MalformedImportDiverges`). `AcceptedIff` says which imports are turned down,
  `EveryOrderAcceptsIff` and `IdsIgnoreOrderIff` when the order does not matter.
- The id of an exact reward does not cover the counterparty and the liability fields.
  `LedgerIgnoresOrder`, and for all imports `WholeLedgerIgnoresOrderIff`, say when this
  shows; `CounterpartyDependsOnOrder` is an instance.
- A replacing import that ranks below what its own source has registered deletes the
  rows and gives the epoch up (`RegistryAfterImport`).
- `upsert_liability` keeps the original amount and the first epoch on conflict
  (`StoredOriginalIff`), and the rebuild writes a liability's last epoch into the column
  of its first (`StoredFirstEpochIff`).
- Resync events and corrections at one height are keyed without their amounts. An answer
  that lists an address twice, an epoch seeded again after an error, and a scan taken up
  again after an error can lose a difference (`ListedTwiceIsNotConserved`,
  `SeededAgainIsNotConserved`, `StoppedScanIsNotConserved`). `ConservedIff` says when.
- When the reported head falls back, a height can be processed and lie in a gap
  (`FallingHeadOverlaps`); `GapsMissProcessedIff` says when.
- A CAR header whose version item is `true` passes the test for 1.
- When some input map has a final witness and each one there is consists of the single
  byte 0, a stack with no element, the extracted transaction has the marker and flag bytes
  over empty stacks. BIP 144 prescribes the form without them there, and a strict reader
  refuses the bytes (`EmptyWitnessIsSuperfluous`). `ExtractedIsMinimalIff` says for every
  accepted PSBT whether this is so.
- The guard truncates the elapsed time to whole seconds toward zero, so that with a
  cooldown of zero a clock set back by less than a second does not prevent a restart
  (`RestartBeforeStamp`).
- Nothing makes the guard's low thresholds lie below its high ones; `BandIsMissingIff`
  says when they leave no band. High pressure then takes precedence.
- Scanning the first block of a finished session again reopens the session with its
  old end (`RescanKeepsStaleEnd`); `DisjointIff`, `AttributedIff` and `FlagsMatchIff`
  say which blocks keep the sessions in order.
- A target from 2^255 on is encoded, and its encoding decodes to zero.

## Model

| member | source | states |
|---|---|---|
| DagCbor.ArgumentIsShortest | scripts/pohw-experiment-1-launch-policy.py:557-568 | the argument reader accepts nothing but the shortest head of the argument it returns |
| DagCbor.ShortestIsRead | scripts/pohw-experiment-1-launch-policy.py:557-568 | every shortest head is accepted, wherever it stands in a buffer |
| DagCborTexts.Utf8Iff | scripts/pohw-experiment-1-launch-policy.py:593-603 | bytes are accepted as a text if and only if they are the UTF-8 encoding of a sequence of Unicode scalar values |
| DagCborCanonical.ItemIsCanonical | scripts/pohw-experiment-1-launch-policy.py:571-638 | whatever item is accepted is a canonical value, and its shortest-form encoding is exactly the bytes consumed |
| DagCborCanonical.CanonicalIsRead | scripts/pohw-experiment-1-launch-policy.py:571-638 | every canonical value within the depth and item limits is read back from its encoding at any place of a buffer |
| DagCborCanonical.DecodeIffEncoding | scripts/pohw-experiment-1-launch-policy.py:641-645 | a buffer decodes to a value if and only if it is the encoding of that value and the value is canonical |
| DagCborCanonical.EncodingsArePrefixFree | scripts/pohw-experiment-1-launch-policy.py:571-638 | at one place of a buffer stands at most one canonical value: encodings delimit themselves |
| DagCborCanonical.NoDuplicateKeyError | scripts/pohw-experiment-1-launch-policy.py:623-626 | the duplicate-key error is unreachable, because the order test comes first |
| DagCborKeys.KeyOrderIsLengthFirst | scripts/pohw-experiment-1-launch-policy.py:618-624 | for text keys the bytewise order of the encodings is length first, then lexicographic |
| DagCborKeys.KeySetFixesOrder | scripts/pohw-experiment-1-launch-policy.py:612-630 | two accepted maps with the same key set have the same key sequence |
| DagCborKeys.SameCanonicalValuesAreEqual | scripts/pohw-experiment-1-launch-policy.py:612-630 | canonical values that compare equal with maps compared as dictionaries are the same value |
| DagCborKeys.OneEncodingPerValue | scripts/pohw-experiment-1-launch-policy.py:641-645 | two accepted buffers with the same value, maps compared as dictionaries, are the same bytes |
| DagCborKeys.DecodeMonotone | scripts/pohw-community-onboarding.py:552-617 | raising the item limit keeps every accepted buffer and its value |
| DagCborLoops.DecodeItem | scripts/pohw-experiment-1-launch-policy.py:571-638 | the recursion over items with its loops gives what the specification gives, error cases included, and terminates |
| DagCborLoops.DecodeItems | scripts/pohw-experiment-1-launch-policy.py:604-611 | the loop over list members gives the specified list or the first error |
| DagCborLoops.DecodeEntries | scripts/pohw-experiment-1-launch-policy.py:612-630 | the loop over map entries gives the specified map or the first error |
| Uvarint.ReadLoop | scripts/pohw-experiment-1-launch-policy.py:648-662 | the accumulating loop gives what the specification gives, error cases included |
| Uvarint.ReadIffMinimal | scripts/pohw-experiment-1-launch-policy.py:648-662 | a varint is accepted with value n and end e if and only if n is below 2^64 and the bytes up to e are its minimal LEB128 form |
| CarReaders.HeaderIsFixed | scripts/pohw-experiment-1-launch-policy.py:675-684 | of the two key orders of a strict header only one is canonical, so its entries are fixed up to the version item |
| CarReaders.HeaderSize | scripts/pohw-experiment-1-launch-policy.py:669-674 | every strict header takes 58 bytes, so no header limit is ever decisive |
| CarReaders.HeaderBytes | scripts/pohw-experiment-1-launch-policy.py:675-684 | the bytes of a strict header: a map of two, the tagged root under roots and the version item under version |
| CarReaders.FileBytes | scripts/pohw-experiment-1-launch-policy.py:665-704 | the bytes of a whole file with version 1 or true: header, length, root and block |
| CarReaders.LaunchAccepts | scripts/pohw-experiment-1-launch-policy.py:665-704 | the launch-policy reader accepts a file with a root, value and block if and only if the file is the one built from them with 1 or true as its version |
| CarReaders.OnboardingAccepts | scripts/pohw-community-onboarding.py:637-669 | the onboarding reader accepts exactly the built files whose block is a map |
| CarReaders.SameBlockSameFile | scripts/pohw-experiment-1-launch-policy.py:665-704 | two accepted files with the same block and the same header version item are byte-identical |
| CarReaders.SameRootSameBlock | scripts/pohw-experiment-1-launch-policy.py:696-702 | two accepted files that declare the same root hold the same block, or exhibit a hash collision |
| CarReaders.ReadersAgree | scripts/pohw-community-onboarding.py:637-669 | a file the launch-policy reader accepts with a map is accepted by the onboarding reader with the same root, value and block; the exact condition for the converse |
| BitcoinWire.CompactSizeLawful | scripts/pohw-experiment-1-wallet-acceptance.py:191-219 | reading and writing compact sizes are mutual inverses below 2^64: nothing but the shortest form is read, every shortest form is |
| BitcoinWire.CompactSizeBytes | scripts/pohw-experiment-1-wallet-acceptance.py:191-219 | the bytes of a compact size in each of its four ranges |
| BitcoinWire.VarBytesLawful | scripts/pohw-experiment-1-wallet-acceptance.py:222-227 | length-prefixed strings have one serialization, and it is read back |
| BitcoinWire.ReadManyLoop | scripts/pohw-experiment-1-wallet-acceptance.py:269-314 | the loop all list readers share gives the specified list or the first error |
| BitcoinWire.InputLawful | scripts/pohw-experiment-1-wallet-acceptance.py:269-301 | an unsigned input, with its empty script, has one serialization, and it is read back |
| BitcoinWire.OutputLawful | scripts/pohw-experiment-1-wallet-acceptance.py:269-301 | an output has one serialization, and it is read back |
| BitcoinWire.UnsignedIffSerialized | scripts/pohw-experiment-1-wallet-acceptance.py:269-301 | bytes parse to an unsigned transaction if and only if they are its serialization and it is valid |
| BitcoinWire.ParseUnsignedLoop | scripts/pohw-experiment-1-wallet-acceptance.py:269-301 | the loops over inputs and outputs give the specified transaction or the first error |
| BitcoinWire.WitnessIffSerialized | scripts/pohw-experiment-1-wallet-acceptance.py:304-320 | parsing and serializing witness stacks are mutual inverses |
| BitcoinWire.ParseWitnessLoop | scripts/pohw-experiment-1-wallet-acceptance.py:304-314 | the loop over stack items gives the specified stack or the first error |
| BitcoinWire.TransactionIsRead | scripts/pohw-experiment-1-wallet-acceptance.py:394-413 | a BIP 144 reader, lenient about stacks that are all empty, reads every transaction with at least one input back from its serialization, with or without witnesses |
| BitcoinWire.StrictIffSerialized | scripts/pohw-experiment-1-wallet-acceptance.py:394-413 | a reader that holds to BIP 144 accepts bytes if and only if they are the serialization of a valid transaction that has witnesses only if some stack has an element |
| Psbt.ReadMapLoop | scripts/pohw-experiment-1-wallet-acceptance.py:230-239 | the loop over key-value pairs gives the specified map, refusing a repeated key |
| Psbt.DecodePsbtLoop | scripts/pohw-experiment-1-wallet-acceptance.py:323-351 | the loops over global, input and output maps give the specified parse or the first error |
| PsbtWriting.DecodeIffWritten | scripts/pohw-experiment-1-wallet-acceptance.py:323-351 | the parser accepts exactly the PSBTs of at most 16 MiB made of the magic, a global map with a valid unsigned transaction, no other key of its type and version 0 if any, and one map of distinct nonempty keys for each input and output; it returns the transaction and the input maps |
| Psbt.NoIssueIff | scripts/pohw-experiment-1-wallet-acceptance.py:367-369 | the loop over expected outpoints raises nothing if and only if every index fits four bytes and every outpoint is that of its input |
| Psbt.ExtractIff | scripts/pohw-experiment-1-wallet-acceptance.py:354-413 | a transaction is extracted if and only if the PSBT decodes, transaction, count and outpoints are the expected ones, the marker index is inside, the map of the marker has nothing final, and every other map has a scriptSig or a witness with an element, and no witness that is not a serialized stack |
| Psbt.FinalsLoop | scripts/pohw-experiment-1-wallet-acceptance.py:371-392 | the loop over input maps gives the final data of each input or the first error |
| Psbt.FinalsCarry | scripts/pohw-experiment-1-wallet-acceptance.py:371-392 | the final data are exactly those in the maps: none for the marker input, script or witness for every other |
| Psbt.Serialize | scripts/pohw-experiment-1-wallet-acceptance.py:394-413 | the appends build the serialization of the unsigned transaction signed with the final data |
| Psbt.ExtractLoop | scripts/pohw-experiment-1-wallet-acceptance.py:354-413 | the whole extraction, with its loops, gives what the specification gives, error cases included |
| Psbt.ExtractedTransaction | scripts/pohw-experiment-1-wallet-acceptance.py:354-413 | for every accepted PSBT the extracted bytes read back as a transaction which, without scriptSigs and witnesses, is the unsigned one, with the expected outpoints in order, a bare marker input, and every other input carrying exactly the final data of its map |
| Psbt.ExtractedIsMinimalIff | scripts/pohw-experiment-1-wallet-acceptance.py:371-413 | for every accepted PSBT the extracted bytes have the form BIP 144 prescribes if and only if no input map has a final witness or one of them is not the single byte 0; otherwise a strict reader refuses them |
| PsbtWriting.EmptyWitnessIsSuperfluous | scripts/pohw-experiment-1-wallet-acceptance.py:371-413 | concrete PSBTs of two inputs, the second with a scriptSig and a witness of no element, for which the extracted bytes have the marker and flag over two empty stacks |
| CompactTarget.EncodeInPlace | scripts/pohw-experiment-compare-reports.py:67-76 | the result decodes to zero exactly for zero and from 2^255 on, and otherwise to at most the target, short of it by less than one part in 2^15 |
| CompactTarget.EncodeNormal | scripts/pohw-experiment-compare-reports.py:67-76 | a nonzero target is encoded as its size and a mantissa between 0x8000 and 0x7fffff |
| CompactTarget.DecodeEncode | scripts/pohw-experiment-compare-reports.py:57-76 | decoding an encoding gives the target rounded down to its leading bits, and zero from 2^255 on |
| CompactTarget.EncodingLoss | scripts/pohw-experiment-compare-reports.py:57-76 | below 2^255 the loss is less than one unit of the last kept byte and less than one part in 2^15 |
| CompactTarget.NonzeroIffInRange | scripts/pohw-experiment-compare-reports.py:57-76 | an encoding decodes to a nonzero target if and only if the target lies strictly between 0 and 2^255 |
| CompactTarget.EncodeMonotone | scripts/pohw-experiment-compare-reports.py:67-76 | encoding is monotone on all targets |
| CompactTarget.EncodeIdempotent | scripts/pohw-experiment-compare-reports.py:57-76 | encoding what an encoding decodes to changes nothing |
| CompactTarget.PowLimitAcceptsEncodings | scripts/pohw-experiment-compare-reports.py:429-438 | the limit check accepts exactly the encodings of the nonzero targets below 2^255 |
| CompactTarget.DecodeIs | scripts/pohw-experiment-compare-reports.py:57-64 | what any compact form decodes to: zero above size 32 or with the sign bit, else the mantissa shifted by its size, less three bytes |
| ConsensusIdentity.TaggedHashBinds | scripts/pohw-experiment-2-consensus-identity.py:118-119 | equal tagged hashes mean equal payloads, or an explicit collision |
| ConsensusIdentity.PolicyPayloadInjective | scripts/pohw-experiment-2-consensus-identity.py:148-206 | the payload of an accepted policy determines every field |
| ConsensusIdentity.PolicyHashBinds | scripts/pohw-experiment-2-consensus-identity.py:148-206 | accepted policies with one hash are one policy, or the hash collides |
| ConsensusIdentity.LeafPayloadInjective | scripts/pohw-experiment-2-consensus-identity.py:209-231 | the payload of an accepted leaf determines every field |
| ConsensusIdentity.LeafPayloadLength | scripts/pohw-experiment-2-consensus-identity.py:230 | the payload of an accepted leaf always has 99 bytes |
| ConsensusIdentity.ManifestPayloadInjective | scripts/pohw-experiment-2-consensus-identity.py:263-301 | the payload of an accepted manifest determines everything but the activation id |
| ConsensusIdentity.ActivationIdBinds | scripts/pohw-experiment-2-consensus-identity.py:263-301 | accepted manifests with one activation id agree in everything else, or the hash collides |
| ConsensusIdentity.SeriesInjective | scripts/pohw-experiment-2-consensus-identity.py:319-328 | ordered patch lists of any two lengths with the same payload are the same list |
| ConsensusIdentity.PatchSeriesBinds | scripts/pohw-experiment-2-consensus-identity.py:319-328 | accepted patch lists with one hash are one list, or the hash collides |
| ConsensusIdentity.PatchSeries | scripts/pohw-experiment-2-consensus-identity.py:319-328 | the loop that checks and appends ends in the hash of the specified payload, or in the first error |
| ConsensusReaders.PolicyPreimage | scripts/pohw-experiment-2-consensus-identity.py:148-206 | the policy hash is the hash of its tag, a zero byte and bytes from which a reader of the format recovers the policy |
| ConsensusReaders.LeafPreimage | scripts/pohw-experiment-2-consensus-identity.py:209-231 | the same for a leaf |
| ConsensusReaders.ManifestPreimage | scripts/pohw-experiment-2-consensus-identity.py:263-301 | the same for a manifest and its activation id |
| ConsensusReaders.SeriesPreimage | scripts/pohw-experiment-2-consensus-identity.py:319-328 | the same for a patch series of any length |
| ConsensusReaders.TagsSeparate | scripts/pohw-experiment-2-consensus-identity.py:118-119 | what is hashed under one tag is never what is hashed under another |
| ConsensusHashing.HashPolicy | scripts/pohw-experiment-2-consensus-identity.py:148-206 | check by check and field by field, a hash for exactly the accepted policies |
| ConsensusHashing.HashLeaf | scripts/pohw-experiment-2-consensus-identity.py:209-231 | the same for leaves |
| ConsensusHashing.HashManifest | scripts/pohw-experiment-2-consensus-identity.py:263-301 | the same for manifests |
| ConsensusHashing.IdentifierIff | scripts/pohw-experiment-2-consensus-identity.py:131-135 | which texts are identifiers, character by character |
| MerkleAuthorization.ClimbLoop | scripts/pohw-experiment-2-consensus-identity.py:252-257 | the loop over siblings ends in the specified root and the index shifted right by the depth |
| MerkleAuthorization.VerifyAuthorization | scripts/pohw-experiment-2-consensus-identity.py:234-260 | the checks in their order accept exactly the proofs that satisfy all of them |
| MerkleAuthorization.DepthIsMinimal | scripts/pohw-experiment-2-consensus-identity.py:245 | the required depth is the least one whose tree holds the authorized count |
| MerkleAuthorization.IndexIsUsedUp | scripts/pohw-experiment-2-consensus-identity.py:253-258 | an index inside the set is always shifted to zero by the path, so that test never fails |
| MerkleAuthorization.ClimbBinds | scripts/pohw-experiment-2-consensus-identity.py:252-258 | one root and one index accept at most one starting hash and one path of a given length, or show a collision |
| MerkleAuthorization.AuthorizationBinds | scripts/pohw-experiment-2-consensus-identity.py:234-260 | two accepted authorizations for one index of one policy are the same, or show a collision |
| MerkleAuthorization.HonestPathClimbs | scripts/pohw-experiment-2-consensus-identity.py:252-258 | the honest path of every leaf of every complete tree leads to its root |
| MerkleAuthorization.HonestAuthorizationVerifies | scripts/pohw-experiment-2-consensus-identity.py:234-260 | the honest authorization of every accepted leaf is accepted |
| ArchivePaths.NormalizedIsWellFormed | scripts/pohw-experiment-compare-reports.py:658-676 | an accepted member name is a relative path of proper components |
| ArchivePaths.StartsWithIsAncestor | scripts/pohw-experiment-compare-reports.py:711-713 | the string test on a path and a slash says exactly that one path is a proper ancestor of the other |
| ArchivePaths.PosixInjective | scripts/pohw-experiment-compare-reports.py:695-698 | different paths have different strings |
| ArchiveNames.SplitOfJoin | scripts/pohw-experiment-compare-reports.py:658-676 | a name is the parts between its slashes in one way only |
| ArchiveNames.NameIff | scripts/pohw-experiment-compare-reports.py:658-676 | a member name is accepted if and only if it does not begin with a slash, has no control character, backslash or colon and no part .., and is not just dots and slashes unless it is a directory; its path is the parts without the empty ones and single dots |
| ArchiveTree.FindFileAbove | scripts/pohw-experiment-compare-reports.py:701-710 | the walk up the parents finds a file if and only if some proper ancestor is recorded as one |
| ArchiveTree.TestsMeanFit | scripts/pohw-experiment-compare-reports.py:698-715 | the three tests together hold if and only if the member conflicts with none before it |
| ArchiveTree.ValidateMembers | scripts/pohw-experiment-compare-reports.py:679-726 | no issue is reported if and only if every member is extractable and fits, and the count and size limits hold; and every issue that is reported is there |
| ArchiveTree.Extract | scripts/pohw-experiment-compare-reports.py:772-807 | the loop over members, whatever they are, ends in the specified tree or the first error |
| ArchiveTree.MemberIsExtracted | scripts/pohw-experiment-compare-reports.py:773-807 | extracting a member that fits succeeds and yields the tree of one member more |
| ArchiveTree.ExtractedBytes | scripts/pohw-experiment-compare-reports.py:772-807 | whatever the archive and the destination, an extraction that succeeds adds exactly the bytes of the files it extracts to the tree |
| ArchiveTree.CleanArchivesExtract | scripts/pohw-experiment-compare-reports.py:772-807 | what the validator lets through extracts into an empty destination without error, to exactly the tree its members describe, and the files of that tree together stay within the total limit |
| SessionRecorder.SessionLedger.StartSession | pohw_idena_rpc/idena_session_recorder.py:349-375 | the row at the height of the block is open, with the hash and flags of the block and the end it had, if any; all other rows stay |
| SessionRecorder.SessionLedger.CloseSession | pohw_idena_rpc/idena_session_recorder.py:377-398 | the session, if there is one, is closed at the block and has its flags beside its own; all other rows stay, and no row is added |
| SessionRecorder.SessionLedger.AbandonOpenSession | pohw_idena_rpc/idena_session_recorder.py:400-418 | where at most one session was open none is; a row that changes was open and is abandoned with an end, and no row is added |
| SessionRecorder.SessionLedger.RecordSessionFlags | pohw_idena_rpc/idena_session_recorder.py:532-580 | sessions and events become the specified ones |
| SessionRecorder.SessionLedger.AddEvents | pohw_idena_rpc/idena_session_recorder.py:563-580 | the loop over relevant flags leaves the specified events |
| SessionRecorder.SessionLedger.RecordBlock | pohw_idena_rpc/idena_session_recorder.py:420-478 | a block is refused, or the whole ledger becomes the specified one |
| SessionRecorder.AtMostOneOpenSession | pohw_idena_rpc/idena_session_recorder.py:349-418 | every run keeps at most one session open, whatever blocks are scanned and however often |
| SessionRecorder.SessionsAreDisjoint | pohw_idena_rpc/idena_session_recorder.py:532-580 | on runs with increasing heights the sessions are disjoint ordered intervals, only the last possibly open, and every event names the session that contains its block, or none if and only if no session does |
| SessionRecorder.NamedSessionIsUnique | pohw_idena_rpc/idena_session_recorder.py:532-580 | the session an event names is the only one that contains its block |
| SessionRecorder.FlagsMatchEvents | pohw_idena_rpc/idena_session_recorder.py:544-580 | on runs with increasing heights the relevant flags of a session are exactly the flags of the events that name it |
| SessionRecorder.EventsAreScanned | pohw_idena_rpc/idena_session_recorder.py:532-580 | on every run the events are exactly the relevant flags of the blocks that were not refused |
| SessionRows.RecordTells | pohw_idena_rpc/idena_session_recorder.py:349-580 | every table after a block, row by row: refusal exactly for another hash at its height, the session it begins, cuts off, continues or ends, the events it adds, and the head |
| SessionRows.FirstHashStays | pohw_idena_rpc/idena_session_recorder.py:420-478 | over every run a height keeps the hash of the first block scanned there, and exactly the blocks with another one are refused |
| SessionRows.HeadIsGreatest | pohw_idena_rpc/idena_session_recorder.py:420-478 | over every run the head is the greatest height scanned, with the hash recorded there |
| SessionRows.HashesMatch | pohw_idena_rpc/idena_session_recorder.py:349-580 | over every run the hashes of session starts, of closed ends and of events are those recorded for their blocks |
| SessionRescans.RescanKeepsStaleEnd | pohw_idena_rpc/idena_session_recorder.py:349-375 | a concrete run, a session of two blocks whose first block is scanned again: the session is open and has an end, so the sessions are not disjoint, and it lost a flag one of its events has |
| SessionRescans.DisjointIff | pohw_idena_rpc/idena_session_recorder.py:532-561 | for blocks at any height: sessions that were disjoint stay so if and only if a condition on the open session, the intervals and the flags of the block holds |
| SessionRescans.AttributedIff | pohw_idena_rpc/idena_session_recorder.py:532-580 | for such a block: every event still names the session that contains its block, or none if none does, if and only if no recorded event lies where a session is cut off or begins, and no new event lies outside the session it names |
| SessionRescans.RunStaysDisjointIff | pohw_idena_rpc/idena_session_recorder.py:420-478 | a run over any blocks in any order has disjoint sessions at all times if and only if every block it does not refuse meets that condition |
| SessionRescans.RunStaysOrderlyIff | pohw_idena_rpc/idena_session_recorder.py:420-478 | the same for disjoint sessions and attributed events together |
| SessionRescans.FlagsMatchIff | pohw_idena_rpc/idena_session_recorder.py:532-580 | for blocks at any height: the relevant flags of every session stay the flags of the events that name it if and only if a condition on the block, its session and the recorded events holds |
| SessionRescans.RunStaysMatchedIff | pohw_idena_rpc/idena_session_recorder.py:420-478 | a run over any blocks keeps this at all times if and only if every block it does not refuse meets that condition |
| PressureGuard.BandIsMissingIff | scripts/pohw-bitcoin-pressure-guard.py:291-342 | exactly which thresholds let one reading be both high and low |
| PressureGuard.StreaksCountRuns | scripts/pohw-bitcoin-pressure-guard.py:363-472 | the streak counters are the lengths of the current high and low runs, and never both positive |
| PressureGuard.RestartHasItsStop | scripts/pohw-bitcoin-pressure-guard.py:363-472 | every restart follows a stop of the guard's own, with no other restart between them |
| PressureGuard.MarkerCarriesStamp | scripts/pohw-bitcoin-pressure-guard.py:345-360 | the marker always carries the stamp of the last confirmed pressure |
| PressureGuard.WholeSecondsAtLeast | scripts/pohw-bitcoin-pressure-guard.py:433 | truncating a duration to whole seconds matters only for a zero cooldown and a clock set back by less than a second |
| PressureGuard.RestartAfterCooldown | scripts/pohw-bitcoin-pressure-guard.py:363-472 | a restart comes at least the cooldown after the last confirmed pressure, with that one exception |
| PressureGuard.RestartBeforeStamp | scripts/pohw-bitcoin-pressure-guard.py:430-441 | a concrete run with no cooldown and a clock set back by half a second, in which the exception occurs |
| PressureGuard.RestartsAreSpaced | scripts/pohw-bitcoin-pressure-guard.py:363-472 | two restarts are at least as many runs apart as the high and the low threshold together |
| PressureGuard.Guard.RunOnce | scripts/pohw-bitcoin-pressure-guard.py:363-472 | one run leaves the specified state and action, and stops or starts the service exactly with those actions |
| GuardActions.KindIff | scripts/pohw-bitcoin-pressure-guard.py:291-342 | how a run counts, from its readings: fresh health, both ways to be under pressure, calm, and the exemption while mining |
| GuardActions.StepTells | scripts/pohw-bitcoin-pressure-guard.py:363-472 | in any state each action has its own condition on readings, streaks, marker and cooldown, and the marker afterwards follows from it |
| GuardActions.StopIff | scripts/pohw-bitcoin-pressure-guard.py:363-472 | over every run Bitcoin is stopped exactly when it is active and the required number of last runs were under pressure |
| GuardActions.ConfirmsIff | scripts/pohw-bitcoin-pressure-guard.py:345-360 | pressure is stamped exactly at the end of such a streak |
| GuardActions.MarkerIff | scripts/pohw-bitcoin-pressure-guard.py:345-360 | there is a marker exactly while a stop stands that nothing has undone, and it is the guard's own exactly while such a stop of its own stands |
| GuardActions.StartIff | scripts/pohw-bitcoin-pressure-guard.py:363-472 | over every run Bitcoin is restarted exactly when it is to be restored, a stop of the guard's own stands, the required number of last runs were calm, and the cooldown has passed since pressure was last confirmed |
| RewardRows.IdCoversColumns | pohw_idena_rpc/idena_reward_indexer.py:2393-2407 | the id of an exact reward covers every column but the counterparty and the liability fields: rows with one id differ in nothing else |
| RewardRows.RowKeepsEvent | pohw_idena_rpc/idena_reward_indexer.py:2393-2431 | a row gives its event back, all columns, and has nonnegative amounts for a credit and nonpositive ones for a debit |
| ImportSteps.AtMostIff | pohw_idena_rpc/idena_reward_indexer.py:767-772 | ranks are compared by priority, and equal priorities by the label: a proper prefix, or the smaller character where two labels first differ |
| ImportSteps.ImportedRow | pohw_idena_rpc/idena_reward_indexer.py:745-807 | the rows after any import, spelled on the tables and events: which stay, which are deleted by a replacement or for a stronger source, and which event brings each new one |
| ImportSteps.RejectedIff | pohw_idena_rpc/idena_reward_indexer.py:720-817 | an import is turned down if and only if its label or priority is bad, it replaces by nothing, or a row of an invitee its epoch would then belong to names a bad epoch, age or maturity |
| ImportSteps.ReconciledSource | pohw_idena_rpc/idena_reward_indexer.py:404-474 | reconciliation registers in each epoch it looks at the source with exact rows there whose priority, given or by name, and then label is greatest, and changes no other epoch |
| ImportSteps.HighestRankHolds | pohw_idena_rpc/idena_reward_indexer.py:720-817 | after every run of imports without replacement an epoch belongs to the accepted import of it with the highest priority, and among equal ones with the greatest label |
| Liabilities.FoldLoop | pohw_idena_rpc/idena_reward_indexer.py:500-585 | the loop over rows gives the specified book and greatest epoch, or is aborted |
| Liabilities.AbortedIffMalformed | pohw_idena_rpc/idena_reward_indexer.py:506-534 | the rebuild is aborted if and only if some row that belongs to an invitation has a bad field |
| Liabilities.LeastPrefixIsLeast | pohw_idena_rpc/idena_reward_indexer.py:564-575 | the least prefix sum of the closed form is attained and is a lower bound |
| Liabilities.FoldIsBalanced | pohw_idena_rpc/idena_reward_indexer.py:500-585 | for every liability, what is locked is the sum of the signed amounts less the least prefix sum, the original is the sum of the credits, and original = current + burned; a liability exists if and only if it has an amount |
| Liabilities.FoldDescribes | pohw_idena_rpc/idena_reward_indexer.py:541-575 | every other column is what the rows of the liability say: first epoch, first inviter named, greatest maturity, event epoch and height, and the status the last row leaves |
| Liabilities.FoldMaxEpoch | pohw_idena_rpc/idena_reward_indexer.py:498-521 | the greatest epoch is the initial one or the greatest event epoch of a row that belongs to an invitation |
| Liabilities.SweptIsSettled | pohw_idena_rpc/idena_reward_indexer.py:588-598 | after the sweep an amount is still locked only before its maturity, and the status says so |
| Liabilities.Refresh | pohw_idena_rpc/idena_reward_indexer.py:587-614 | the deletion and the loop of upserts end in the specified table |
| Liabilities.InferredKeepsExact | pohw_idena_rpc/idena_reward_indexer.py:819-890 | what the live indexer infers never changes a row rebuilt from exact rewards; any other row takes all new columns but the original amount and the first epoch |
| Liabilities.StoredOriginalIff | pohw_idena_rpc/idena_reward_indexer.py:819-890 | the original amount and first epoch of a rebuilt row are those of its liability if and only if no inferred row with others stood under its key |
| LiabilityColumns.CountsIff | pohw_idena_rpc/idena_reward_indexer.py:506-540 | what a row of an invitation counts for, and that it counts exactly when its epoch, age and maturity can be read |
| LiabilityColumns.RebuiltColumns | pohw_idena_rpc/idena_reward_indexer.py:476-614 | every column of the table after a rebuild, from the rows and the table before: current, burned, original, maturity, status, inviter, epochs and height |
| LiabilityColumns.TableFromLedger | pohw_idena_rpc/idena_reward_indexer.py:476-614 | the same from the ledger: the canonical invitee rows in order of height and id, and the greatest epoch |
| Liabilities.StoredFirstEpochIff | pohw_idena_rpc/idena_reward_indexer.py:599-614 | a new row has the first epoch of its liability if and only if no later epoch was seen, because the last epoch is written into that column |
| RewardImports.LocalIsFull | pohw_idena_rpc/idena_reward_indexer.py:404-474 | when everything outside the selected epochs is consistent, local reconciliation equals full reconciliation |
| RewardImports.RegistryAfterImport | pohw_idena_rpc/idena_reward_indexer.py:745-807 | the registry after any import into a consistent ledger, epoch by epoch: won, given up by a replacing import, or unchanged |
| RewardImports.RunsStayConsistent | pohw_idena_rpc/idena_reward_indexer.py:720-817 | from an empty ledger every run of imports, replacing or not, keeps an epoch registered if and only if it has exact rows, all from the registered source |
| RewardImports.RebuildAborts | pohw_idena_rpc/idena_reward_indexer.py:476-534 | whatever the order of the rows, the rebuild of an import fails if and only if a canonical invitee row is malformed |
| ImportConvergence.RunHasClosedForm | pohw_idena_rpc/idena_reward_indexer.py:720-817 | a run of imports without replacement ends in the closed form of its accepted imports: the greatest rank per touched epoch, and the union by id of that source's events |
| ImportConvergence.ImportsConverge | pohw_idena_rpc/idena_reward_indexer.py:720-817 | two runs that accept the same imports, in any order and repetition, end with the same registry, the same ids and rows equal in every column an id covers |
| ImportConvergence.AcceptedIff | pohw_idena_rpc/idena_reward_indexer.py:720-817 | exactly which imports are accepted: label and priority in order, and no new row of an epoch it wins a malformed liability |
| ImportConvergence.SaneIsAccepted | pohw_idena_rpc/idena_reward_indexer.py:720-817 | imports with a valid label and priority and no malformed liability among the rows for their ids are accepted in every run |
| ImportConvergence.SaneImportsConverge | pohw_idena_rpc/idena_reward_indexer.py:720-817 | such imports converge whatever their order and repetition |
| ImportOrder.EveryOrderAcceptsIff | pohw_idena_rpc/idena_reward_indexer.py:720-817 | every order and repetition of the imports is accepted in full if and only if each has a valid label and priority and no malformed liability among the rows for its ids |
| ImportOrder.IdsIgnoreOrderIff | pohw_idena_rpc/idena_reward_indexer.py:720-817 | registry and ids ignore order and repetition if and only if every other import is turned down by the ledger of those, or adds nothing to it |
| ImportOrder.LedgerIgnoresOrder | pohw_idena_rpc/idena_reward_indexer.py:720-817 | the whole ledger of such imports, all columns included, ignores order and repetition if and only if no two imports of a source that leads in the epoch of an id give it different rows |
| FirstSuppliers.MoreAcceptMore | pohw_idena_rpc/idena_reward_indexer.py:720-817 | what a ledger accepts, every ledger of these imports and more accepts |
| FirstSuppliers.CanSupplyIff | pohw_idena_rpc/idena_reward_indexer.py:720-817 | the largest ledger of the imports without an id accepts an import if and only if some run over such imports does |
| FirstSuppliers.WholeLedgerIgnoresOrderIff | pohw_idena_rpc/idena_reward_indexer.py:720-817 | for all imports without replacement the whole ledger, all columns included, ignores order and repetition if and only if every import with a bad label, a bad priority or a malformed liability is turned down by the ledger of the others or adds nothing to it, and all imports that can supply an id first give it the same row |
| FirstSuppliers.SaneSupply | pohw_idena_rpc/idena_reward_indexer.py:720-817 | for imports with a valid label and priority and no malformed liability this condition is the one over the sources that lead |
| FirstSuppliers.LiabilitiesConverge | pohw_idena_rpc/idena_reward_indexer.py:476-614 | where the whole ledger ignores the order, so do the liabilities rebuilt from it |
| ImportOrder.MalformedImportDiverges | pohw_idena_rpc/idena_reward_indexer.py:803-815 | pairs of imports, for all addresses and hashes, whose order shows, because the first is rolled back as a whole in one order only |
| ImportOrder.CounterpartyDependsOnOrder | pohw_idena_rpc/idena_reward_indexer.py:681-718 | pairs of imports of one event, for all names: the ledger has the counterparty of the one that came first |
| RewardTables.GroupByEpoch | pohw_idena_rpc/idena_reward_indexer.py:742-744 | the loop groups the events by epoch, in their order |
| RewardTables.BestSource | pohw_idena_rpc/idena_reward_indexer.py:453-463 | the ranking loop finds the greatest rank |
| RewardTables.RewardLedger.InsertEvent | pohw_idena_rpc/idena_reward_indexer.py:681-718 | a row is inserted if and only if its id is free |
| RewardTables.RewardLedger.TakeEpochs | pohw_idena_rpc/idena_reward_indexer.py:762-792 | the loop over epochs leaves the merged tables and counts the rows inserted |
| RewardTables.RewardLedger.Reconcile | pohw_idena_rpc/idena_reward_indexer.py:404-474 | the registry becomes the reconciled one, for all epochs, for some, and beyond the limit for all |
| RewardTables.RewardLedger.RebuildLiabilities | pohw_idena_rpc/idena_reward_indexer.py:476-614 | the liabilities table becomes the rebuilt one, or nothing changes and the rebuild fails |
| RewardTables.RewardLedger.ImportEvents | pohw_idena_rpc/idena_reward_indexer.py:720-817 | an import leaves the specified tables and returns the number of rows inserted, or leaves everything as it was with the specified error; without inferred rows the liabilities are always what the ledger alone gives |
| RewardTables.RewardLedger.InsertEvents | pohw_idena_rpc/idena_reward_indexer.py:790-792 | the loop inserts the first event of each free id, ignores the others, and counts the rows inserted |
| RewardTables.RewardLedger.TakeEpoch | pohw_idena_rpc/idena_reward_indexer.py:763-792 | one epoch of an import: skipped below the registered rank, otherwise other sources are deleted, the source registered and its events inserted |
| RewardTables.RewardLedger.OrderedInvitees | pohw_idena_rpc/idena_reward_indexer.py:477-489 | the rows of the rebuild: each canonical invitee row once, in order of height and id |
| RewardTables.RebuiltIsUnique | pohw_idena_rpc/idena_reward_indexer.py:476-614 | the rebuilt table is determined by the ledger and the table before |
| RewardTables.CanonicalMaxEpoch | pohw_idena_rpc/idena_reward_indexer.py:490-499 | the greatest epoch of a canonical row, or zero |
| RewardTables.RewardLedger.Transact | pohw_idena_rpc/idena_reward_indexer.py:746-807 | what happens between savepoint and release or rollback: the specified tables, and failure exactly when the rebuild fails |
| RewardExport.LatestEpoch | pohw_idena_rpc/idena_reward_indexer.py:1068-1083 | the greatest epoch that has a row to offer |
| RewardExport.Listing | pohw_idena_rpc/idena_reward_indexer.py:1132-1142 | the selected ids once each, in order of epoch, height, address and id |
| Listings.ListingIsUnique | pohw_idena_rpc/idena_reward_indexer.py:1132-1142 | a set has one listing in a strict total order |
| RewardExport.ExportHasOneSource | pohw_idena_rpc/idena_reward_indexer.py:1050-1214 | on any state of the tables a successful export has at most one exact source per epoch, only exact rows unless inferred ones are allowed, and at least one when they are required |
| RewardExport.ExportIsUnique | pohw_idena_rpc/idena_reward_indexer.py:1068-1083 | an export has one result: the latest epoch is one number |
| RewardExport.RunsExportEverything | pohw_idena_rpc/idena_reward_indexer.py:1158-1214 | after any run of imports nothing is ambiguous and the source filter drops no row |
| RewardExport.MigrationSettles | pohw_idena_rpc/idena_reward_indexer.py:1158-1214 | registering the sources of a ledger that had no registry makes it unambiguous, and leaves every export that was possible before as it was |
| RewardExport.ExportReplayEvents | pohw_idena_rpc/idena_reward_indexer.py:1050-1156 | the export returns the specified error, or the events of the selected rows in order |
| RewardExport.AnswerIsUnique | pohw_idena_rpc/idena_reward_indexer.py:1050-1156 | that answer is determined by the tables and the query, down to the order of the events |
| ReplayAnswers.AnswerTells | pohw_idena_rpc/idena_reward_indexer.py:1050-1156 | every answer of an export, spelled on rows and query: each error by its condition, else which rows are listed, in which order and with which columns |
| CoverageGaps.RecordedIsUnion | pohw_idena_rpc/idena_reward_indexer.py:892-918 | recording a range keeps rows of one reason disjoint and not adjacent, adds exactly its heights to that reason, and changes no other |
| CoverageGaps.TidyIsUnique | pohw_idena_rpc/idena_reward_indexer.py:892-918 | such a table is determined by its heights, so the order of recording does not show |
| CoverageGaps.Around | pohw_idena_rpc/idena_reward_indexer.py:905-907 | the least first and the greatest last height around a range and the rows it meets |
| CoverageGaps.GapTable.RecordGap | pohw_idena_rpc/idena_reward_indexer.py:892-918 | the table after a call, by its heights, with the range merged into the rows it meets |
| LiveRuns.PositionsAreAccounted | pohw_idena_rpc/idena_reward_indexer.py:3028-3228 | in any run, also with repeated listings and loops stopped by an error, every component of a position is its first-seen value plus the recorded differences plus those lost in ignored events |
| LiveRuns.NothingIsLost | pohw_idena_rpc/idena_reward_indexer.py:681-718 | when no answer lists an address twice and no loop stops with an error, no event is ignored for a taken id, re-keyed ones included |
| LiveRuns.DeltasAreConserved | pohw_idena_rpc/idena_reward_indexer.py:3028-3228 | in such a run every component of a position is its first-seen value plus the sum of the recorded differences |
| LiveRuns.OneEventPerPlace | pohw_idena_rpc/idena_reward_indexer.py:2689-2705 | in such a run an address has at most one live event at a height and one resync event in an epoch |
| LiveRuns.FirstSeenLasts | pohw_idena_rpc/idena_reward_indexer.py:3195-3200 | the first-seen value of an address never changes in a run |
| LiveLosses.SeedOneLoses | pohw_idena_rpc/idena_reward_indexer.py:3055-3086 | seeding an address loses a difference if and only if its amounts changed and the id of the resync event is taken; the loss is that difference, and no other address loses any |
| LiveLosses.ScanOneLoses | pohw_idena_rpc/idena_reward_indexer.py:3195-3225 | the same for one address of a live scan and the id of its live event |
| LiveLosses.ListingLosses | pohw_idena_rpc/idena_reward_indexer.py:3028-3091 | what a whole listing loses for an address, repeated entries included, as a closed form of the tables and the listing |
| LiveLosses.ScanLosses | pohw_idena_rpc/idena_reward_indexer.py:3173-3225 | what a live scan loses for each address, read off the tables it starts from |
| LiveLosses.RoundLosses | pohw_idena_rpc/idena_reward_indexer.py:3251-3303 | what a round loses for an address, read off the tables it finds and the answers it gets |
| LiveLosses.ConservedIff | pohw_idena_rpc/idena_reward_indexer.py:3028-3228 | for every run, also with repeated listings and loops stopped by an error: a position is its first-seen amounts plus the recorded differences if and only if those losses add up to nothing |
| LiveLosses.SeedTwiceLoses | pohw_idena_rpc/idena_reward_indexer.py:3055-3086 | seeding an address twice in one epoch at one height with the same inviter loses exactly the second difference |
| LiveLosses.ScanTwiceLoses | pohw_idena_rpc/idena_reward_indexer.py:3202-3222 | scanning an address again at the height it was last stored at, with the same inviter, loses exactly the second difference |
| LiveLosses.ListedTwiceIsNotConserved | pohw_idena_rpc/idena_reward_indexer.py:3028-3091 | a concrete run in which an answer lists an address twice, a difference of 4 is lost, and the position is not its first-seen amounts plus the recorded differences |
| LiveLosses.SeededAgainIsNotConserved | pohw_idena_rpc/idena_reward_indexer.py:3028-3091 | the same for an epoch that is seeded again after its listing stopped with an error |
| LiveLosses.StoppedScanIsNotConserved | pohw_idena_rpc/idena_reward_indexer.py:3145-3227 | the same for a live scan that stopped with an error and is taken up again at the same height |
| LiveRuns.HeightsAreCovered | pohw_idena_rpc/idena_reward_indexer.py:3251-3303 | in any run every height from a processed one to the cursor was processed or lies in a gap, also across scans that were put off |
| LiveRuns.GapsMissProcessed | pohw_idena_rpc/idena_reward_indexer.py:3251-3303 | when the head never falls back, such a height is processed if and only if it lies in no gap |
| LiveRuns.GapsMissProcessedIff | pohw_idena_rpc/idena_reward_indexer.py:3251-3303 | for every run: no processed height lies in a gap if and only if no round processed a height that lay in a gap when it began |
| LiveRuns.FallingHeadOverlaps | pohw_idena_rpc/idena_reward_indexer.py:3251-3303 | a concrete run whose head falls back, with a height that is processed and in a gap |
| LiveRuns.RewardsAreGains | pohw_idena_rpc/idena_reward_indexer.py:2587-2705 | in any run an event has a reward kind if and only if it is keyed by a live difference with a gain and no change of locked stake; marked events never do |
| LiveTables.PendingOf | pohw_idena_rpc/idena_reward_indexer.py:3032-3043 | the filtering loop keeps the tracked or locked identities that have an address, in order |
| LiveTables.RewardIndexer.Save | pohw_idena_rpc/idena_reward_indexer.py:681-718 | the position of the address is the new one and the event is in the table; all other positions and all recorded events stay as they were |
| LiveTables.RewardIndexer.SeedCurrentPositions | pohw_idena_rpc/idena_reward_indexer.py:3028-3091 | filtering and comparing the listing leaves the specified positions and events |
| LiveTables.RewardIndexer.ScanAddress | pohw_idena_rpc/idena_reward_indexer.py:3174-3225 | an address without an answer changes nothing; otherwise its position is the answer, new events are live events of this address, height and epoch, and all other positions and recorded events stay |
| LiveTables.RewardIndexer.ScanAddresses | pohw_idena_rpc/idena_reward_indexer.py:3173-3225 | the loop covers each of the addresses once and leaves the specified state |
| LiveTables.RewardIndexer.Once | pohw_idena_rpc/idena_reward_indexer.py:3251-3303 | one polling round is a step of the model: seeding once per epoch, the cursor test, the gap, and the scan or its deferral |
| LiveRounds.ListingTells | pohw_idena_rpc/idena_reward_indexer.py:3028-3091 | which identities of a listing are stored and with which position, and exactly which resync events they bring |
| LiveRounds.ScanTells | pohw_idena_rpc/idena_reward_indexer.py:3173-3225 | which positions a scan stores and exactly which live events it brings, with kind, direction and amounts, in whatever order it goes |
| LiveRounds.RoundTells | pohw_idena_rpc/idena_reward_indexer.py:3143-3303 | a whole polling round: seeding, the gap, the addresses looked at, which are the coinbase and those stored with a tracked state or locked stake, and the cursor |

## Left out

- SQLite, files, permissions, symbolic links, subprocesses, systemd and RPC clients: their results are inputs, tables are maps and sets, and a savepoint is a copy of the tables.
- A database error, or the loss of uncommitted rows when the process ends: a round of the live indexer that stops with an error keeps what it wrote, as the open connection does.
- Timestamps, `updated_at`, notes, raw JSON and `meta` entries other than the cursor and the seeded epochs.
- SHA-256 internals: a hash function is arbitrary. Texts are kept as their well-formed UTF-8 bytes.
- Base64, base32 and hexadecimal spellings of PSBTs, CIDs and digests: the model starts from the bytes.
- Parsing of JSON items and normalization of addresses, hashes and labels: an import starts from parsed events, and a source label is taken after stripping.
- Which order the hashes of ids give them: the rebuild of liabilities and the export take any strict total order on ids.
- `import_rolling_epoch`, which moves the cursor by itself, and the paging of the official API.
- The inviter liabilities the live indexer infers, beyond what `Liabilities.InferredKeepsExact` says of them.
- The answer to an identity request is taken to be about the address asked for; the code stores it under the address inside the answer.
- `record_transactions` and the scan loops of the session recorder.
- Reading of the guard's configuration, health file and metrics: their values are inputs.
- Modes, truncated or overlong contents of archive members: contents have the declared size.
- Checks of manifests, locks and build evidence against pinned literals, the safe-path check of patch files, receipts, host inspection, dashboards.
- The Rust crates and the contracts directory: they are not part of this model.
- Links in archives: a member that is neither a file nor a directory has no contents to read.
- The `invite_epoch_height` column of a liability.
- LiveRuns.DeltasAreConserved: for runs in which no answer lists an address twice and no loop stops with an error, because otherwise it can fail; `LiveLosses.ConservedIff` is the exact condition for all runs.
- LiveRuns.GapsMissProcessed: for runs in which the reported head never falls back; `LiveRuns.GapsMissProcessedIff` is the exact condition for all runs.
- SessionRecorder.SessionsAreDisjoint: for runs with increasing heights, because it can fail for re-scans; `SessionRescans.RunStaysOrderlyIff` is the exact condition for all runs.
- SessionRecorder.FlagsMatchEvents: for runs with increasing heights, because it can fail for re-scans; `SessionRescans.RunStaysMatchedIff` is the exact condition for all runs.
- ImportOrder.LedgerIgnoresOrder: for imports with a valid label and priority and no malformed liability; `FirstSuppliers.WholeLedgerIgnoresOrderIff` is the exact condition for all imports.
- BitcoinWire.TransactionIsRead: the reader it speaks of also accepts the marker and flag over stacks that are all empty; `BitcoinWire.StrictIffSerialized` is about the reader that does not.
- Psbt.ExtractedTransaction: does not say whether the bytes have the form BIP 144 prescribes when no stack has an element; `Psbt.ExtractedIsMinimalIff` does.
