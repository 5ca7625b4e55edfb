# sm-bridge, modelled and proved in Dafny

sm-bridge puts an agent registry on the NANDA network: it keeps a log of changes to its agents, pulls the logs
of peers, publishes a catalog, commits writes to an RFC 6962 transparency log, and verifies trust evidence.
This project models the parts of it whose correctness depends on an argument rather than on a reading.

- **Transparency log** (`Bits`, `Tlog`, `ProofWalks`, `Inclusion`, `ProofLengths`, `ScittPositions`,
  `DeclaredSizes`, `Consistency`, `MerkleLog`, `Conformance`). Trees are built top-down and proofs are checked bottom-up on the
  bits of the index. The two are tied together, both inclusion walks are shown complete, and soundness is exact:
  a check succeeds for the honest proof of the entry at that position and for nothing else. SHA-256 is any
  function from byte strings to 32 bytes and is never taken to be injective: each soundness statement ends in
  "or two different inputs hash alike", both found in finite sets of byte strings that are written out.
- **Delta log, catalog and federation** (`DeltaStore`, `Gateway`, `Bridge`, `Federation`, `FederationRuns`). The
  classes carry the code's loops. The protocol is a state machine over peer appends, the router's two separate
  reads, losses, refusals, row-by-row writes that may fail, and the cursor's commit.
- **Delegation and signing bytes** (`Scopes`, `Delegation`, `Unicode`, `JsonText`, `CanonicalJson`,
  `JsonReader`, `JsonEquality`, `Base64`, `Base58`). Local rules of one hop against guarantees of a whole chain; three canonical
  JSON serializers, read back by a JSON reader that knows nothing of them; the encodings around them.
- **Authenticated binding writes** (`BindingRequest`, `BindingWrite`, `BindingWriteRuns`). The bytes a write is
  signed and logged as, one request as a method, any number of interleaved requests as a state machine, and a
  lemma that the method's outcome is a path of it.
- **Identifiers** (`Identifiers`). One parser against three encoders.

## Where the code and its documentation differ, and limits of both

- `sm_bridge/store.py:127` calls the snapshot equivalent to replaying the log. It is when no agent's slug ever
  changes (`Gateway.SnapshotIsReplay`). In general the two agree exactly when every slug is settled
  (`Gateway.SnapshotExact`); `Gateway.MovedHandleDiffers` is a log of two deltas on which they do not.
- `sm_bridge/trust/ans_scitt.py:128` tests `fn` where section 2.1.3.2 of RFC 9162 and `sm_bridge/tlog.py:92` test
  `sn`. Membership still holds for the SCITT walk, in the log whose root the walk returned. The profile compares
  that root with the one the receipt itself carries unsigned, so the root has to be trusted from elsewhere. Given
  the log's own size, the leaf index is bound exactly at the indexes that `ScittPositions.ScittPositionExact` names
  by a test on the bits of index and size, and at all of them exactly when the size is a power of two or the cap
  refuses every path (`ScittPositions.ScittBindsPositionIff`). `ScittPositions.ScittConfusion` is the third entry
  of a three-entry log accepted at index 1.
- The declared size is a receipt's own claim as well (`sm_bridge/trust/ans_scitt.py:237`), and a caller's argument of
  `root_from_inclusion`. `DeclaredSizes.ScittExact` and `DeclaredSizes.TlogExact` say exactly which entry a declaration
  can be about. Neither walk binds the size: under the SCITT walk the honest proof of an entry passes under a
  false size exactly when the cap admits it (`DeclaredSizes.ScittDeclaredSizeIff`), and the tlog walk separates
  sizes only for the first entry of a log of one or two (`DeclaredSizes.TlogDeclaredSizeIff`). Nor does either bind
  an index without a trusted size (`DeclaredSizes.NoIndexBound`; `ScittPositions.ScittDeclaredSize` is the third
  entry of a three-entry log accepted at index 1 of size 2).
- A catalog built from `register_agent` and `unregister_agent` keeps showing an agent that was registered as public
  and then again as private (`Bridge.PrivateAgainStays`). Catalog and registry stay together exactly as long as no
  operation does this (`Bridge.TracksStep`).
- `sm_bridge/router.py:326-331` takes a `did:web` for its own when it begins with its authority and a colon. A port
  follows a colon too, so a registry without a port answers for the agents of every port of its host
  (`Identifiers.PortAnswered`); `Identifiers.DidRoundTrip` says exactly which of the identifiers built by
  `_build_did` a registry answers, and for which agent.
- The same parser cuts at the last colon, and an agent id may contain one: a registry answers its own identifier of
  agent `a:b` for agent `b` (`Identifiers.MisreadAgent`). It reads its own identifiers back exactly when the
  provider URL has no trailing slash and the id no colon (`Identifiers.OwnDid`), and its own handles exactly when
  the registry id has neither ':' nor '/' and the namespace no '/' (`Identifiers.OwnHandle`).
- A store failure in the middle of a page makes a pull at-least-once (`docs/delta-cursors.md`). Exactly-once holds
  exactly when the pulls that died had left no row behind (`FederationRuns.ExactlyOnceFederation`).
- `seen_nonces` lives as long as its router (`sm_bridge/binding_write.py:155`). That no (store, nonce) pair has two
  leaves is a statement about the leaves of one router; a new router over the same store and log starts with none.

## Model

| member | source | states |
|---|---|---|
| Bits.SplitPoint | sm_bridge/tlog.py:50-53 | the `k <<= 1` loop ends at the largest power of two below n |
| Bits.SplitUnique | sm_bridge/tlog.py:50-53 | the split is the only power of two with k < n <= 2k |
| Tlog.ComputeRoot | sm_bridge/tlog.py:43-54 | the root computed with the shift loop is the RFC 6962 tree hash |
| Tlog.ComputeInclusionProof | sm_bridge/tlog.py:57-67 | the computed audit path is the one of section 2.1.1 of RFC 6962 |
| Tlog.ComputeSubproof | sm_bridge/tlog.py:104-113 | the computed list is SUBPROOF of section 2.1.2 of RFC 6962 |
| ProofWalks.StripLoop | sm_bridge/tlog.py:84-87 | the inner shift loop ends with fn odd or zero; both numbers are shifted by the number of zero bits below fn's lowest one |
| ProofWalks.RootFromInclusion | sm_bridge/tlog.py:70-94 | the loop over fn, sn and r is a fold of the proof along the sides given by fn and sn, with the same refusals |
| ProofWalks.Rfc9162RootFromProof | sm_bridge/trust/ans_scitt.py:90-130 | the second walk folds along the same sides, with its own cap and its own final test |
| ProofWalks.WalkFollowsBits | sm_bridge/tlog.py:77-93 | for any number of steps, over-long walks included: the walk follows the bit path of the index and then only takes left siblings; sn is zero exactly once that path is used up |
| ProofWalks.PathIsBits | sm_bridge/tlog.py:57-94 | the sides of a leaf's path in the top-down tree are those read off the bits of its index |
| Inclusion.HonestFold | sm_bridge/tlog.py:57-67 | the generated proof hashes up to the root along the leaf's path, and has the path's length |
| Inclusion.TlogCompleteness | sm_bridge/tlog.py:70-94 | for every non-empty list of leaves and every index, the walk on the generated proof returns the Merkle root |
| Inclusion.ScittFollowsTlog | sm_bridge/trust/ans_scitt.py:90-130 | where the tlog walk returns on at most 64 elements, the SCITT walk returns the same root |
| Inclusion.FoldMembership | sm_bridge/tlog.py:35-54 | whatever hashes up to a log's root along any sides is an entry of the log, on that entry's own path with its own proof, unless two hashed inputs collide |
| Inclusion.PathInjective | sm_bridge/tlog.py:57-67 | different leaves of a tree have different paths |
| Inclusion.NoOverlongPath | sm_bridge/tlog.py:77-94 | a leaf's path followed by further left siblings is never the path of a leaf |
| Inclusion.WalkBindsPosition | sm_bridge/tlog.py:77-94 | a completed walk for index i that takes the sides of leaf j's path has i = j |
| Inclusion.InclusionExact | sm_bridge/tlog.py:70-94 | a check of e at an index against the log's root succeeds for the entry at that index with its generated proof, and for nothing else unless two named inputs collide; proofs of any length |
| Inclusion.ScittMembership | sm_bridge/trust/ans_scitt.py:80-130 | for any declared size, index and path, a payload that walks to a log's root is an entry of the log or a collision is given |
| DeclaredSizes.ScittExact | sm_bridge/trust/ans_scitt.py:90-130 | for any declared index and size: the SCITT walk accepts, against a log's root, the leaf read off the walk's sides with its own proof, and nothing else up to collision |
| DeclaredSizes.TlogExact | sm_bridge/tlog.py:70-94 | the same for the tlog walk |
| DeclaredSizes.LeafAtExact | sm_bridge/tlog.py:57-67 | a list of sides is the path of at most one leaf of a tree, and the reading finds it |
| DeclaredSizes.ScittLargerSizes | sm_bridge/trust/ans_scitt.py:111-130 | an entry whose path the cap admits passes with its honest proof under every large enough declared size |
| DeclaredSizes.ScittDeclaredSizeIff | sm_bridge/trust/ans_scitt.py:90-130 | the honest proof of an entry passes under some false size exactly when its path is within the cap |
| DeclaredSizes.TlogDeclaredSizeIff | sm_bridge/tlog.py:77-94 | a leaf's path completes the tlog walk under some other size, except for the first leaf of a tree of one or two |
| DeclaredSizes.NoIndexBound | sm_bridge/tlog.py:70-94 | for every declared index and size there are log sizes at which, whatever the entries, the honest proof of another index passes, in both walks |
| ScittPositions.ScittPositionExact | sm_bridge/trust/ans_scitt.py:111-130 | when the declared size is the log's own, for every index: where the bits of index and size pass a stated test (and the index has at most 64), a leaf at another index is accepted; everywhere else only the entry at the index with its own proof, up to collision |
| ScittPositions.ScittBindsIndexIff | sm_bridge/trust/ans_scitt.py:111-130 | another leaf's path passes at an index exactly when that test holds |
| ScittPositions.ScittBindsPositionIff | sm_bridge/trust/ans_scitt.py:108-130 | all indexes of a tree are bound exactly when its size is a power of two or every path is over the cap |
| ScittPositions.LastLeafPasses | sm_bridge/trust/ans_scitt.py:111-130 | in every other tree the last leaf's path passes at a smaller index |
| ScittPositions.ScittConfusion | sm_bridge/trust/ans_scitt.py:128-129 | index 1 of size 3 accepts the third entry on a path of length one; the tlog walk refuses it |
| ProofLengths.InclusionProofLength | sm_bridge/tlog.py:57-67 | with x the bit length of m xor (n-1), the proof has x + popcount(m >> x) elements, at most ceil(log2 n) |
| ProofLengths.CapAdmitsHonestProofs | sm_bridge/trust/ans_scitt.py:70-72 | the 64-element cap refuses no honest proof of a log of up to 2^64 entries |
| ProofLengths.ConsistencyProofLength | sm_bridge/tlog.py:97-113 | at most ceil(log2 n) + 1 elements, the bound of section 2.1.2 of RFC 6962 |
| Consistency.SubproofRebuilds | sm_bridge/tlog.py:104-113 | the generated proof and the old root rebuild the roots of the first m leaves and of all of them |
| Consistency.RootInjective | sm_bridge/tlog.py:43-54 | logs of one size with one root are one log, within any set of inputs without a collision |
| Consistency.LeavesInjective | sm_bridge/tlog.py:43-54 | the same for lists of leaves, whatever they are hashes of |
| Consistency.RebuildSound | sm_bridge/tlog.py:104-113 | a proof that rebuilds both roots forces the old log to be a prefix and the proof to be the generated one, within any set of inputs without a collision |
| Consistency.ConsistencyExact | sm_bridge/tlog.py:97-113 | for all sizes 1 <= m <= n: a proof rebuilds both roots exactly when old is a prefix of new and the proof is the generated one, or a collision is given |
| MerkleLogs.MerkleLog.constructor | sm_bridge/tlog.py:132-142 | a new log is empty |
| MerkleLogs.MerkleLog.Append | sm_bridge/tlog.py:148-151 | entries and leaves only grow, by the entry and its leaf hash; the new size is returned |
| MerkleLogs.MerkleLog.Root | sm_bridge/tlog.py:153-154 | the Merkle root of the leaves |
| MerkleLogs.MerkleLog.InclusionProofAt | sm_bridge/tlog.py:166-170 | refuses degenerate trees and bad indexes, else the audit path |
| MerkleLogs.MerkleLog.ConsistencyProofFrom | sm_bridge/tlog.py:172-174 | refuses degenerate trees, else the consistency proof, empty for an old size out of range |
| Conformance.Audit | sm_bridge/conformance.py:48-81 | three named checks: the first passes exactly when the signature verifies; for the leaves held now, tampered or not, the second exactly when they are the ones the checkpoint commits to and the third exactly when the pinned ones come first among them, unless node inputs collide |
| Conformance.AuditExact | sm_bridge/conformance.py:40-81 | the audit passes when the signature verifies, the signed leaves are the live ones and the pinned ones come first, and then only, up to collision |
| Conformance.EarlierCheckpointsPass | sm_bridge/conformance.py:71-79 | whatever was appended since, every earlier checkpoint passes the audit of today's log |
| Conformance.AppendOnlyExact | sm_bridge/conformance.py:71-79 | the append-only check passes exactly when the pinned log is a prefix of today's, or a collision is given |
| Conformance.RootRecomputationExact | sm_bridge/conformance.py:62-69 | root recomputation passes exactly when the live entries are the signed ones, or a collision is given |
| Conformance.EntriesStayProvable | sm_bridge/tlog.py:159-170 | however the log grows, an entry's proof is served exactly from size 3 on, and then walks to the current root |
| DeltaStores.DeltaStore.constructor | sm_bridge/store.py:77-83 | an empty log |
| DeltaStores.DeltaStore.Add | sm_bridge/store.py:85-106 | appends one delta with the next number; counter, log and per-agent index stay in step |
| DeltaStores.DeltaStore.Since | sm_bridge/store.py:108-118 | filtering by number gives exactly the tail of the log after that number, for negative and excessive numbers too |
| DeltaStores.DeltaStore.Snapshot | sm_bridge/store.py:120-135 | sorting the index by number gives the log's snapshot: each agent's last delta, in order |
| DeltaStores.SnapshotUnique | sm_bridge/store.py:120-135 | a log has only one snapshot |
| DeltaStores.LatestIndexIs | sm_bridge/store.py:103-106 | the index holds, for exactly the agents that occur, the last delta of each |
| DeltaStores.DeltaStore.Get | sm_bridge/store.py:137-150 | the search finds the delta with that number exactly when the number is in 1..size |
| Gateway.CurrentFacts | sm_bridge/gateway.py:96-112 | the catalog is the replay of the snapshot, and of the whole log when slugs are stable |
| Gateway.SnapshotIsReplay | sm_bridge/store.py:120-135 | with slugs stable per agent, snapshot and whole log replay to one catalog, deletes and shared slugs included |
| Gateway.SnapshotExact | sm_bridge/gateway.py:96-112 | for any slug function, the two replays are equal exactly when under every slug the last delta recorded is its agent's last, or it and the latest of the agents' last deltas are removals |
| Gateway.SlugOfId | sm_bridge/gateway.py:91-93 | without a '/' in the handle the slug is what follows the last colon of the id |
| Gateway.MovedHandleDiffers | sm_bridge/gateway.py:89-112 | an agent whose handle moved stays under its old slug in a replay, and not in the catalog |
| Bridge.SmBridge.RegisterAgent | sm_bridge/router.py:481-501 | the agent is stored under its id and, if public, an "upsert" of its facts is appended |
| Bridge.SmBridge.UnregisterAgent | sm_bridge/router.py:503-521 | a known agent is removed and, if it was public, a "delete" of its facts is appended; an unknown id changes nothing |
| Bridge.SlugIsId | sm_bridge/gateway.py:89-93 | for ids free of ':' and '/', the slug of an agent's facts is its id |
| Bridge.TracksStep | sm_bridge/router.py:481-521 | one operation keeps catalog and registry equal exactly when it does not register a public id as private |
| Bridge.CatalogTracksRegistry | sm_bridge/router.py:481-521 | after every permitted run the catalog is exactly the registered public agents at their latest facts |
| Bridge.PrivateAgainStays | sm_bridge/router.py:498-499 | the run that registers a public id again as private leaves it in the catalog |
| Federation.ValidateRows | sm_bridge/federation.py:140-154 | the loop accepts exactly pages whose rows are objects with strictly increasing integer numbers above the cursor, one of the three actions and facts that validate, and gives the cursor after them |
| Federation.PrepareRows | sm_bridge/federation.py:159-161 | every proof is decided, in order, or the page fails with the first re-verifier that raises |
| Federation.WriteRows | sm_bridge/federation.py:162-163 | the rows are appended in order under this registry's numbers |
| Federation.PullDeltas | sm_bridge/federation.py:92-164 | exactly when a pull succeeds, the inclusive `next_seq` test included, and with which cursor; a refused pull writes nothing, a completed one records exactly the prepared rows |
| Federation.FederationPoller.SyncOnce | sm_bridge/federation.py:204-216 | the cursor moves only with a completed pull; otherwise neither sink nor cursor changes |
| Federation.AppliedIncreases | sm_bridge/federation.py:140-154 | against any peer, over any number of polls, applied numbers strictly increase from above the first cursor and end at the last one |
| Federation.NoLaundering | sm_bridge/federation.py:38-62 | a page is prepared exactly when no re-verifier raises; each row carries the local proof, or the peer's only by opt-in, or NOT_VERIFIED |
| FederationRuns.SmDeltas | sm_bridge/router.py:172-188 | the page holds exactly the deltas after `since`, numbered on from there, and the next number to be assigned |
| FederationRuns.ExactlyOnceFederation | sm_bridge/federation.py:138-164 | from any sink and any cursor, in every interleaving, failing writes included: between pulls the sink has grown by the peer's deltas from the first cursor to the current one and by the rows dying pulls left, and it is its first log followed by those deltas, in order, exactly when they left none |
| FederationRuns.NoFailureNoWaste | sm_bridge/federation.py:162-163 | while no write has failed none is left |
| FederationRuns.HonestPageAccepted | sm_bridge/federation.py:138-164 | a page of any length from a peer with the three actions, in either mode, is accepted exactly when no re-verification raises; all its rows are written and the cursor covers just those |
| FederationRuns.HonestPullCompletes | sm_bridge/federation.py:204-216 | an undisturbed pull from such a peer ends with the cursor at the end of its log |
| FederationRuns.FreshSinkIsPeer | sm_bridge/federation.py:138-164 | then a sink that started empty at cursor 0 is the peer's log up to the cursor, numbers included |
| FederationRuns.Convergence | sm_bridge/federation.py:159-164 | with pulls dying after any number of rows, an idle sink whose cursor covers what dead pulls wrote shows what its first log and then the peer's deltas from the first cursor on give, proofs erased |
| FederationRuns.FreshSinkConverges | sm_bridge/federation.py:159-164 | for a sink that starts empty at cursor 0, that is the peer's own catalog at the cursor |
| FederationRuns.CompletedPullConverges | sm_bridge/store.py:201-205 | against a peer that serves whole tails, every completed pull reaches that point, however many died before |
| FederationRuns.PagesCoverReached | sm_bridge/router.py:181-188 | against such a peer no dead pull ever wrote past the end of the page now in flight |
| FederationRuns.NoLaunderedRow | sm_bridge/federation.py:38-62 | in every run against a peer that may answer anything, an operator who does not trust it records only rows with the local re-verifier's proof for that row or a NOT_VERIFIED one |
| FederationRuns.PullAlone | sm_bridge/federation.py:204-216 | the outcome promised for one pull is a path of the state machine, rows written one by one |
| Scopes.ScopeSubset | sm_bridge/trust/delegation.py:95-104 | true exactly when every child scope has a parent whose dot-separated labels begin its own, else the first child scope without one |
| Scopes.LabelsJoined | sm_bridge/trust/delegation.py:88-90 | the labels of a scope are its parts between dots |
| Scopes.CoversIsLabelPrefix | sm_bridge/trust/delegation.py:85-92 | the string test holds exactly when the dot-separated labels are a prefix |
| Scopes.CoversPartialOrder | sm_bridge/trust/delegation.py:85-92 | coverage is reflexive, antisymmetric and transitive |
| Delegation.ValidateStructure | sm_bridge/trust/delegation.py:164-182 | no error exactly for a credential that meets all the structural rules at once; otherwise the first violated one in the source's order |
| Delegation.ValidateChain | sm_bridge/trust/delegation.py:185-274 | no error exactly for chains in which every hop meets every rule, scopes as labels and windows as inequalities; otherwise the error of the first rule, in order, that the first bad hop breaks |
| Delegation.LoopIsRules | sm_bridge/trust/delegation.py:198-274 | no hop fails exactly when linkage, tokens, windows, depths and scopes hold for the whole chain |
| Delegation.NoEscalation | sm_bridge/trust/delegation.py:248-265 | in an accepted chain every scope of a hop is covered by a scope of every earlier hop and by one of the provider |
| Delegation.PrefixAccepted | sm_bridge/trust/delegation.py:198-274 | every prefix of an accepted chain is accepted |
| Delegation.AcceptingInstants | sm_bridge/trust/delegation.py:231-237 | for a fixed chain and tokens the accepting instants are the last hop's window cut at the smallest token expiry |
| Delegation.DepthsAreBudget | sm_bridge/trust/delegation.py:239-246 | the depth rule of all hops is one comparison with the minimum of i + depth of hop i |
| Delegation.Verify | sm_bridge/trust/delegation.py:303-379 | VERIFIED exactly with all evidence present, 1 to 64 hops, every signature good and every rule met; NOT_VERIFIED exactly without a chain or, up to 64 hops, without signatures, provider scopes, or the signature of the first hop that is not correctly signed |
| Unicode.Utf8Decodes | sm_bridge/trust/delegation.py:51 | a decoder for RFC 3629 reads the encoded string back |
| Unicode.Utf8Injective | sm_bridge/trust/delegation.py:51 | UTF-8 encodes different strings differently |
| Unicode.KeyOrder | sm_bridge/trust/delegation.py:71 | `_ser` orders keys by the first differing UTF-16 code unit, `_canonical_str` and `json.dumps` by the first differing code point |
| Unicode.KeyInjective | sm_bridge/trust/delegation.py:71 | keys with one sort key are one key, so the sort order is total on an object's members |
| Unicode.BmpOrdersAgree | sm_bridge/trust/ed25519_agentcard.py:89 | UTF-16 order and code-point order agree on the Basic Multilingual Plane |
| Unicode.OrdersDiffer | sm_bridge/trust/ed25519_agentcard.py:89 | they rank U+FFFD and U+10000 differently |
| JsonText.EscapeForms | sm_bridge/trust/delegation.py:61-62 | which characters stand for themselves, which take a two-character escape, and that the others take lower-case hexadecimal ones |
| JsonReader.QuoteReads | sm_bridge/trust/delegation.py:61-62 | a quoted string is read back by the grammar, whatever follows |
| JsonReader.IntReads | sm_bridge/trust/delegation.py:63-64 | a printed integer is read back by the value of its decimal digits, without leading zeros, before any text that starts with no digit |
| JsonReader.ReadsBack | sm_bridge/trust/delegation.py:54-73 | the text of a value, in each of the three serializers and before anything that can follow a value, is read back as the value with its members in printing order |
| JsonEquality.CanonicalIsJson | sm_bridge/trust/delegation.py:49-73 | the canonical bytes decode to a JSON text that is read back as an equal value whose members strictly ascend |
| JsonEquality.Unambiguous | sm_bridge/trust/delegation.py:54-73 | one text of two values, even of two serializers, means the same values in the same printed places |
| JsonEquality.SerExact | sm_bridge/trust/delegation.py:54-73 | two values have one text exactly when they are equal with objects taken as maps |
| JsonEquality.CanonicalExact | sm_bridge/trust/delegation.py:49-51 | the same for the UTF-8 bytes |
| JsonEquality.SigningInputExact | sm_bridge/trust/delegation.py:12-15 | under one header the signing inputs of two credentials are the same bytes exactly when the credentials are equal |
| JsonEquality.ReorderedMembers | sm_bridge/trust/delegation.py:70-72 | reordering an object's members never changes its text |
| JsonEquality.SerializersAgreeExact | sm_bridge/trust/ed25519_agentcard.py:70-98 | `_ser` and `_canonical_str` give one text exactly when no object has keys that the two orders rank differently |
| JsonEquality.BmpSerializersAgree | sm_bridge/trust/ed25519_agentcard.py:70-98 | with all keys in the Basic Multilingual Plane the two serializers agree |
| Base64.EncodeIs | sm_bridge/trust/_es256_jws.py:23 | each group of the encoding is the base-64 digits, in the alphabet of RFC 4648, of the 24-bit number of its bytes, a short one filled with '=' |
| Base64.EncodeDecodes | sm_bridge/trust/_es256_jws.py:22-28 | decoding a padded encoding gives the bytes back, in either alphabet |
| Base64.B64UrlRoundTrip | sm_bridge/trust/_es256_jws.py:22-28 | `b64url_decode(b64url(x)) == x`, with the padding the decoder computes |
| Base64.SigningInputReads | sm_bridge/trust/_es256_jws.py:97-99 | the input is the header, a dot, and text that decodes to the payload |
| Base64.SigningInputInjective | sm_bridge/trust/_es256_jws.py:97-99 | no two (header, payload) pairs share a signing input, dots in the header included |
| Base58.LetterIs | sm_bridge/trust/_es256_jws.py:85 | a character's value is its place in the alphabet |
| Base58.DecodeIs | sm_bridge/trust/_es256_jws.py:88-94 | the bytes have a leading zero for each leading '1' and no other, and are the number that the weighted digits of the text sum to; or the first character outside the alphabet is reported |
| Base58.B58Decode | sm_bridge/trust/_es256_jws.py:88-94 | the accumulating loop decodes so |
| Base58.DecodeEncode | sm_bridge/trust/_es256_jws.py:88-94 | every byte string is the decoding of its encoding |
| Base58.EncodeDecode | sm_bridge/trust/_es256_jws.py:88-94 | every string over the alphabet is the encoding of its decoding |
| Base58.ToBytesIsDigits | sm_bridge/trust/_es256_jws.py:92 | the length computed from the bit length is exactly that of the shortest big-endian numeral |
| BindingRequests.PayloadIs | sm_bridge/binding_write.py:72-83 | the bytes to sign are a JSON object of the eight named members, each with its field of the request |
| BindingRequests.GrantIdIs | sm_bridge/binding_write.py:164-168 | the grant id is what the grant has under "grant_id", or null; any falsy one is signed as "" |
| BindingRequests.FieldNamesExact | sm_bridge/binding_write.py:187 | the names are exactly the keys, in strictly ascending order |
| BindingRequests.PayloadExact | sm_bridge/binding_write.py:72-83 | two writes have the same bytes to sign exactly when they agree on operation, subject, fields as a dictionary, host, role, instant and nonce, and on the grant id with every falsy id taken as "" |
| BindingRequests.LogEntryIs | sm_bridge/binding_write.py:206-211 | a leaf is a JSON object of the eight named members, each with its part of the write |
| BindingRequests.LogEntryExact | sm_bridge/binding_write.py:86-89 | two log entries have the same leaf bytes exactly when they are the same entry |
| BindingWrite.FieldsExact | sm_bridge/binding_write.py:113 | a merged dictionary has exactly its members' keys, each with its value |
| BindingWrite.BindingStore.Apply | sm_bridge/binding_write.py:107-125 | the subject's record gets the next version, the operation's lifecycle, the request's fields over the old ones, and host and role if given; no other record changes |
| BindingWrite.RecordIsWrites | sm_bridge/binding_write.py:107-125 | a record is its subject's own history: as many versions as writes, the lifecycle of the last operation, and for host, role and each field what the last request to give it gave |
| BindingWrite.WriteRouter.WriteBinding | sm_bridge/binding_write.py:162-216 | one request alone: exactly when it is refused and why, what it leaves in nonces, store and log, and that the returned leaf, size and root are the log's |
| BindingWriteRuns.VersionsConserved | sm_bridge/binding_write.py:172-211 | over any existing store and log, in every reachable state of every interleaving: each version a subject got since the start belongs to exactly one write, logged or about to be |
| BindingWriteRuns.QuiescentLog | sm_bridge/binding_write.py:203-211 | with nothing in between, each of those versions has exactly one leaf, and the log has grown by as much as all versions together |
| BindingWriteRuns.LeavesAuthorized | sm_bridge/binding_write.py:172-211 | every leaf a router appended was authenticated and judged SATISFIED, and no two of them share a (store, nonce) pair or their bytes |
| BindingWriteRuns.RequestAlone | sm_bridge/binding_write.py:162-216 | the outcome promised for one request is a path of the state machine |
| Identifiers.LocalId | sm_bridge/router.py:365 | whatever is no handle, DID or URN is returned whole |
| Identifiers.AnyHandle | sm_bridge/router.py:317-324 | a handle without '/' names its agent; with a scope it does exactly under the registry id the scope starts with |
| Identifiers.AnyDid | sm_bridge/router.py:327-331 | a DID is read exactly where it is a did:web under the own authority, as what follows its last colon |
| Identifiers.AnyAirUrn | sm_bridge/router.py:348-359 | an AIR URN, its prefix in any case, is read exactly with the own domain, a namespace and a name |
| Identifiers.ForeignUrn | sm_bridge/router.py:362-363 | every other URN is refused |
| Identifiers.HandleRoundTrip | sm_bridge/models.py:256-268 | for any registry id, namespace and agent id: a handle is read, as what follows its first '/', under what its registry id starts with, up to ':' or '/', and refused under every other id |
| Identifiers.OwnHandle | sm_bridge/router.py:317-324 | a registry reads its own handles back exactly when its id has neither ':' nor '/' and the namespace no '/' |
| Identifiers.DidRoundTrip | sm_bridge/converter.py:440-443 | for any https host, port and path and any agent id: a did:web is read, as what follows the id's last colon, exactly where the parser's authority and a colon begin it, and refused elsewhere |
| Identifiers.OwnDid | sm_bridge/router.py:258-261 | a registry reads its own did:web identifiers back exactly when its provider URL has no trailing slash and the id is non-empty without a colon |
| Identifiers.MisreadAgent | sm_bridge/router.py:331 | it answers its own identifier of agent `a:b` for agent `b` |
| Identifiers.PlainHosts | sm_bridge/router.py:326-331 | among hosts without port and path, only the own one is read |
| Identifiers.PortAnswered | sm_bridge/router.py:326-331 | a registry without a port reads the did:web identifiers of every port of its host |
| Identifiers.AirUrnRoundTrip | sm_bridge/gateway.py:184 | for any domain, slug and provider URL, an AIR URN is read, as what follows the slug's last colon, exactly where its domain, up to a colon, is the publisher's, letter case aside |
| Identifiers.OwnAirUrn | sm_bridge/router.py:270-281 | port and path of the provider URL do not matter |

## Left out

- ECDSA and Ed25519 signing and verification, key loading, COSE, CBOR and DNS: whether a signature verifies is a parameter wherever a result needs it.
- SHA-256 itself: any function from byte strings to 32 bytes.
- HTTP routes, status codes, pydantic validation and `httpx`: a fetch returns a page or nothing, a row's agent is well formed or not, and errors are values that keep the kind of the error and drop its text.
- Timestamps (`recorded_at`, `generated_at`, `updatedAt`, `verified_at`): no property depends on them. Validity windows and the present are real numbers, already parsed.
- Threads as such: whatever runs under a lock, and `MerkleLog.append`, is one atomic step, steps interleave freely, and a poller has one pull in flight.
- `leaf_index`, `tree_size` and `root_b64` of concurrent write responses: `MerkleLog` has no lock, so they are stated only for a request that runs alone (`BindingWrite.WriteRouter.WriteBinding`).
- `DeltaStore.clear`, `len`, `current_seq` and the deprecated `max_deltas`; a subclass's `_load_since`.
- `to_sm` beyond id, handle and a body kept as it is; `feed.py`, `onboarding.py`, `switchboard.py`, `cli.py`, the DNS and catalog trust profiles and the trust registry: thin mappings or straight-line checks around library calls.
- Floats, lone surrogates, tuples and keys that are not strings in canonical JSON, in the fields of a binding write too: `_ser` raises on floats, and `_canonical_str` prints 1 and 1.0 alike. `JsonReader` reads texts without whitespace, as these serializers write them. Base64 input longer or stranger than an encoder produces is modelled as CPython's lenient decoder reads it, for ASCII text.
- The order of `dict` entries: maps here are unordered, except in canonical JSON, where an object is a list of members so that its order is there to be forgotten.
- Missing or mistyped members of a credential: credentials arrive decoded, with an unparsable window or a missing token expiry as `None`.
- A consistency-proof verifier: sm_bridge only generates these proofs, so `Consistency.Rebuild` is the reader's side, written to mirror `_subproof`.
- Identifiers.AirUrnRoundTrip: `lower()` is modelled on ASCII letters only.
- FederationRuns.ExactlyOnceFederation: only the poller writes to the sink during a run.
- Identifiers.DidRoundTrip: provider URLs are `https://` followed by text without another "://".
