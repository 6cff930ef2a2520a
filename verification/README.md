# Regulayer: a verified model

This project models the parts of Regulayer that hold its logic, and proves what they are for. Each module stands for
one component of the repository.

| Component | Modules |
|---|---|
| Provenance graph: cycle check, link validation, link store, graph drawing | `Digraph`, `ProvenanceLinks`, `ProvenanceValidation`, `ProvenanceLinker`, `ProvenanceTraversal`, `ProvenanceDepth` |
| Emergency-freeze detector | `AnomalyDetector` |
| Canonical bytes, signing, offline verification | `Utf8`, `Json`, `Canonical`, `Attestation`, `OfflineVerifier` |
| SDK hashing engine | `IsoTime`, `Hasher` |
| Signing identities over time | `IdentityRegistry` |
| Key rotation log | `KeyRotation` |
| SDK delivery client | `EventQueue` |
| Policy evaluator | `PolicyEvaluator` |
| Cross-project listing | `DecisionsMerge`, `StableSort` |
| Demonstration hash chain | `DemoChain` |
| Merkle root of a recorded chain | `MerkleAnchor` |
| Members and invitations | `Membership` |
| Usage meter | `UsageMeter` |

Code that updates objects is a class whose methods are proved against a specification function; what the source promises
is then proved about that function, for every input and every run. Clocks, ids, random values and replies are parameters.
SHA-256, Ed25519, base64 and hex decoding are parameters as well: results about hashes read "equal, or here are two
different texts with one hash", and the one assumption on signatures is that signing and then verifying succeeds
(RFC 8032 sections 5.1.6 and 5.1.7).

What the proofs found:

- **Cycle check.** The search answers "cycle" exactly when a cycle can be reached from the proposed source. Over an
  acyclic store that is exactly "the link closes a cycle", and then every sequence of validated links and soft removals
  stays acyclic. Over a store that already has a cycle it also blames harmless links; `CheckCyclesBlamesOldCycles` gives
  the exact condition and `HarmlessLinkBlamed` an instance, against the docstring at
  `regulayer-provenance/validation.py:84`.
- **Graph drawing.** For every depth bound of two or more, the shipped five included, some decision within the bound is
  missed, because a depth-first visit may meet its neighbour too deep first: the drawn nodes are those within the bound
  for all graphs exactly when the bound is at most 1 (`CompleteExactlyWhenShallow`). Graphs that are trees around the
  root, and bounds that cover the component, lose nothing.
- **Anomaly detector.** For 0/1 outcomes the z-score test is integer arithmetic. A run can freeze statistically exactly
  when the window has ten places and more than 7 (1 + threshold²), so with the shipped 50 and 3.0 that branch is never
  taken. A window of violations only raises no freeze at all. The code compares with 5.0 seconds and 0.6 where its
  comments say 2 seconds and 50%; the model follows the code.
- **Canonical bytes.** Sorted compact JSON can be read back, so equal bytes mean equal JSON up to key order, and what an
  attestation signs is what the offline verifier recomputes from the exported file.
- **Hasher.** Insertion order does not matter if no dictionary has two keys with one text; `SharedKeyTextDependsOnOrder`
  shows the proviso is needed and `DictionariesHashAlikeExactly` says exactly when two dictionaries hash alike. The
  documentation promises UTC, but `astimezone(tz=None)` converts to the machine's own zone: the UTC text is hashed exactly
  when that zone's offset is zero at every instant that is printed (`UtcExactly`); an entry that a later one with the same
  key text replaces is not.
- **Registry.** An envelope dated after a revocation can become valid again, exactly when its id is registered again, the
  last registered key verifies it, and no revocation after that is dated before the signature
  (`LateEnvelopeRevivedExactly`).
- **Key rotation.** Of two rotations at one instant the single-key query keeps the one recorded first
  (`RotationTakesEffect`). The list and the yes/no check disagree exactly for identities that never rotated and for an
  empty old fingerprint (`QueriesAgreeExactly`).
- **Delivery client.** `shutdown` promises to process what is left; the drain loop stops on the flag. The promise can be
  kept exactly when nothing is queued, or one event is and the loop was already waiting for it
  (`ShutdownFlushesExactly`). With `max_retries` of zero or less every event is taken and never tried
  (`UntriedExactly`).
- **Policy evaluator.** CONTAINS means that one leaf contains the target, and STARTS_WITH that the first one starts with
  it, exactly for non-empty targets without a newline.
- **Listing.** Decisions are sorted by the text of their time stamps. The listed page is newest first in time exactly when
  no two of its stamps clash: same second, one without a fraction, and a suffix like "Z" (`PageNewestFirstExactly`, with
  an instance in `WholeSecondSortsLate`).
- **Merkle root.** An odd last leaf is paired with itself, so [a, b, c] and [a, b, c, c] have one root. A root tells two
  chains apart, whatever they hold, exactly when their lengths are equal or one is empty and the other has two records or
  more (`RootBindsExactly`).
- **Membership.** An invitation is revoked by its id alone, so an owner or administrator of one organisation can revoke
  another one's (`ForeignRequest`, with an instance in `ForeignRevocation`), and an administrator, who can make nobody an
  owner by a role change, makes one by an invitation (`AdministratorMakesOwner`).

## Model

| member | source | states |
|---|---|---|
| ProvenanceValidation.CycleSearch.Dfs | regulayer-provenance/validation.py:110-122 | The recursive search finds a cycle reachable from the bottom of its stack, or finishes the node in a topological order in which everything it can reach was finished before it |
| ProvenanceValidation.CycleSearch.BackArcClosesCycle | regulayer-provenance/validation.py:118-119 | A neighbour on the recursion stack lies on a cycle reachable from the start of the search |
| ProvenanceValidation.NodeFinished | regulayer-provenance/validation.py:121-122 | Leaving a node whose neighbours are all finished keeps the stack a simple walk and the finished nodes in topological order |
| ProvenanceValidation.BuildAdjacency | regulayer-provenance/validation.py:89-97 | The index has u to v exactly when some active link goes from u to v |
| ProvenanceValidation.AddNeighbor | regulayer-provenance/validation.py:99-104 | The proposed link is the only arc added to the index |
| ProvenanceValidation.SearchFrom | regulayer-provenance/validation.py:106-128 | A fresh search answers yes exactly when a directed cycle is reachable from its start |
| ProvenanceValidation.CheckCycles | regulayer-provenance/validation.py:77-128 | The answer is "cycle" exactly when one is reachable from the proposed source in the active links plus the proposed one |
| ProvenanceValidation.CheckLink | regulayer-provenance/validation.py:53-75 | Rejects exactly self-links and active duplicates, each with its own message |
| ProvenanceValidation.ValidateLink | regulayer-provenance/validation.py:157-194 | In the fields of the stored links: accepts exactly when there is no self-link, no active link with the same ends and relationship, and no cycle reachable from the source; each rejection has its own message |
| ProvenanceValidation.AcceptsExactlySoundExtensions | regulayer-provenance/validation.py:157-194 | Over a sound store, a link is accepted if and only if the store with that link is still acyclic, without self-links and without duplicates |
| ProvenanceValidation.CheckCyclesBlamesOldCycles | regulayer-provenance/validation.py:83-128 | On any store, the exact condition for "cycle": the target reaches the source, or an older cycle is reachable from one of the two ends |
| ProvenanceValidation.HarmlessLinkBlamed | regulayer-provenance/validation.py:83-128 | A concrete store in which a link that closes no cycle is reported as one |
| Digraph.CycleReachableAfterNewArc | regulayer-provenance/validation.py:99-128 | What adding one arc does to the cycles reachable from its source, in every graph |
| Digraph.NewArcClosesCycle | regulayer-provenance/validation.py:83-128 | In an acyclic graph, searching from the source of the new arc detects every cycle it can create |
| Digraph.WalkStaysFinished | regulayer-provenance/validation.py:114-122 | Any walk from a finished node ends at a node finished no later |
| Digraph.FinishedReachesNoCycle | regulayer-provenance/validation.py:114-122 | A finished node reaches no cycle |
| ProvenanceLinks.ActiveArcsAppend | regulayer-provenance/validation.py:90-97 | A link contributes its arc to the graph exactly when it is active |
| ProvenanceLinker.Linker.CreateLink | regulayer-provenance/linker.py:46-83 | Appends one new active link with the given ends and logs one creation event; existing links are untouched |
| ProvenanceLinker.Linker.RemoveLink | regulayer-provenance/linker.py:85-109 | Deactivates the first link with the id and no other, reports whether there was one, and logs exactly then |
| ProvenanceLinker.RemovedAt | regulayer-provenance/linker.py:92-94 | Soft removal changes one flag of one link and keeps every position |
| ProvenanceLinker.RemovedStaysSound | regulayer-provenance/linker.py:85-109 | Removing any link keeps a sound store sound |
| ProvenanceLinker.Linker.DeclareLink | regulayer-provenance/linker.py:46-83 | Validating and then creating changes the store exactly when the link is accepted |
| ProvenanceLinker.RunStaysSound | regulayer-provenance/linker.py:46-109 | Any sequence of validated declarations and soft removals keeps a sound store sound |
| ProvenanceLinker.RunFromEmptyIsSound | regulayer-provenance/linker.py:41-109 | From a new linker every reachable store is acyclic, free of self-links and free of duplicate triples |
| ProvenanceLinker.SoundMeans | regulayer-provenance/validation.py:53-128 | In a sound store no active link joins a decision to itself, no two active ones share ends and relationship, and no walk along them returns to its start |
| ProvenanceLinker.Linker.GetRelationships | regulayer-provenance/linker.py:111-127 | Incoming and outgoing are the active links whose target, and whose source, is the decision; together they count its degree |
| ProvenanceLinker.IntoExactly | regulayer-provenance/linker.py:113-116 | The incoming list stands at increasing positions of the store, exactly those of active links whose target is the decision |
| ProvenanceLinker.OutOfExactly | regulayer-provenance/linker.py:117-120 | The outgoing list likewise, for active links whose source is the decision |
| ProvenanceLinker.RelationshipsCountDegree | regulayer-provenance/linker.py:111-127 | The two lists together have as many entries as the drawn graph has edge ends at the decision |
| ProvenanceTraversal.BuildGraph | regulayer-provenance/linker.py:129-184 | Computes the specified depth-first traversal; the root comes first, and an edge with given source, target and relationship is drawn as often as active links have these fields, once per end among the nodes |
| ProvenanceTraversal.GraphBuilder.Visit | regulayer-provenance/linker.py:143-175 | The nested traversal, on any link list, cyclic or not, terminates and computes the specified lists |
| ProvenanceTraversal.GraphIsAccurate | regulayer-provenance/linker.py:139-177 | Nodes are distinct and each within the bound of the root over active links taken both ways; the edges are exactly the active links at each node |
| ProvenanceTraversal.GraphIsComplete | regulayer-provenance/linker.py:139-177 | When the bound covers the component's size, the nodes are exactly the root's connected component |
| ProvenanceDepth.ShallowGraphIsComplete | regulayer-provenance/linker.py:143-147 | For bounds up to 1 the nodes are exactly those within the bound |
| ProvenanceDepth.NeighboursAreDrawn | regulayer-provenance/linker.py:157-175 | With bound 1 the nodes are the root and whatever an active link joins to it in either direction |
| ProvenanceDepth.TwoLinksDrawn | regulayer-provenance/linker.py:143-177 | The nodes and edges of a chain of two links, in the order in which they are drawn |
| ProvenanceDepth.DeepGraphMissesANode | regulayer-provenance/linker.py:143-175 | For every bound from 2 on, a family of graphs in which a decision two hops from the root is left out |
| ProvenanceDepth.CompleteExactlyWhenShallow | regulayer-provenance/linker.py:132-175 | The drawn nodes are exactly those within the bound, on every graph and root, if and only if the bound is at most 1 |
| ProvenanceDepth.TreeGraphIsComplete | regulayer-provenance/linker.py:143-175 | When the root's component is a tree, the nodes are exactly those within the bound, for every bound |
| ProvenanceTraversal.EdgeDrawnOncePerEnd | regulayer-provenance/linker.py:156-175 | The multiplicity of an edge value is the number of active links with its source, target and relationship, times its ends among the nodes |
| ProvenanceTraversal.EdgeCountIsDegreeSum | regulayer-provenance/linker.py:156-175 | The number of edges is the sum of the active degrees of the nodes |
| AnomalyDetector.Detector.RecordDecision | regulayer-governance-policy/app/anomaly.py:18-81 | Per project id, None, empty and "None" all being "global": appends one outcome to that window, cut to its size, leaves every other window alone, and decides on the window as it was before |
| AnomalyDetector.Detector.WindowStatistics | regulayer-governance-policy/app/anomaly.py:43-46 | The accumulated mean and variance are those of the whole window |
| AnomalyDetector.VarianceByCount | regulayer-governance-policy/app/anomaly.py:43-46 | The variance of 0/1 outcomes is m (1 - m) for their mean m |
| AnomalyDetector.ScoreByCount | regulayer-governance-policy/app/anomaly.py:59-71 | The z-score of a new violation exceeds the threshold exactly when passes exceed violations times the threshold squared |
| AnomalyDetector.FreezeExactly | regulayer-governance-policy/app/anomaly.py:37-81 | When each kind of freeze fires, in counts and clock times only, in both directions |
| AnomalyDetector.FreezeOnOutcomes | regulayer-governance-policy/app/anomaly.py:37-81 | The same in stored outcomes: velocity needs ten mixed outcomes, the last five all violations, the first of these less than 5.0 seconds old; statistical, failing that, seven violations in the last ten and enough passes |
| AnomalyDetector.StatisticalNeedsWideWindow | regulayer-governance-policy/app/anomaly.py:71-77 | A statistical freeze needs more than 7 (1 + threshold squared) outcomes in the window |
| AnomalyDetector.WideWindowFreezes | regulayer-governance-policy/app/anomaly.py:71-77 | Every wide enough window size has a window that freezes statistically, so the width needed is sharp for every threshold |
| AnomalyDetector.StatisticalReachableExactly | regulayer-governance-policy/app/anomaly.py:37-77 | For all configurations: some run of a new detector freezes statistically if and only if the window has at least ten places and more than 7 (1 + threshold squared) |
| AnomalyDetector.WindowIsRecentOutcomes | regulayer-governance-policy/app/anomaly.py:23-40 | After any interleaving, a window is the last outcomes of its own project |
| AnomalyDetector.WindowFromEmpty | regulayer-governance-policy/app/anomaly.py:23-40 | From a new detector, the window is exactly the last min(n, window size) outcomes of the project |
| AnomalyDetector.WindowOfProject | regulayer-governance-policy/app/anomaly.py:23-40 | The same for a project's own id, with the ids that share "global" named |
| AnomalyDetector.OnlyVelocityFreezes | regulayer-governance-policy/app/anomaly.py:42-77 | Whenever the window is too narrow for the threshold, every freeze of every run is a velocity freeze |
| AnomalyDetector.DefaultsNeverFreezeStatistically | regulayer-governance-policy/app/anomaly.py:12-77 | The shipped defaults never freeze statistically, over any run |
| AnomalyDetector.AllViolationsNeverFreeze | regulayer-governance-policy/app/anomaly.py:50-57 | A window of violations only raises nothing |
| AnomalyDetector.StreakFreezes | regulayer-governance-policy/app/anomaly.py:50-77 | While a project only violates, the freezes left to raise shrink with the streak, whatever other projects do, for every configuration |
| AnomalyDetector.FreezesBetweenPasses | regulayer-governance-policy/app/anomaly.py:50-77 | Between one pass and the next at most window size - 5 freezes are raised for a project, or window size where the window is wide enough for statistical freezes |
| AnomalyDetector.ProjectFreezesBetweenPasses | regulayer-governance-policy/app/anomaly.py:23-77 | The bound for the decisions recorded under one plain project id |
| AnomalyDetector.CountInBurst | regulayer-governance-policy/app/anomaly.py:63-68 | In a burst of violations, exactly those after the fifth that still find the last pass in the window raise a freeze |
| AnomalyDetector.BurstAttainsBound | regulayer-governance-policy/app/anomaly.py:63-68 | Where statistical freezes are out of reach the bound between two passes is attained: ten passes and then a burst give exactly window size - 5 freezes |
| Utf8.EncodeInjective | regulayer-attestation/app/attestation.py:36 | No two texts share their UTF-8 bytes |
| Utf8.BytesOfChar | regulayer-attestation/app/attestation.py:36 | The number, ranges and value of the bytes of a character (RFC 3629 section 3) |
| Utf8.EncodeConcat | regulayer-attestation/app/attestation.py:36 | Texts are encoded character by character |
| Json.StringReads | regulayer-attestation/app/attestation.py:30-35 | Escaped text (RFC 8259 section 7) reads back as the text |
| Json.EscapeExactly | regulayer-attestation/app/attestation.py:33 | Exactly control characters, quotes and backslashes are escaped, each in its own form; everything else stands for itself |
| Json.EscapeAllConcat | regulayer-attestation/app/attestation.py:30-35 | Texts are escaped character by character |
| Json.ValueReads | regulayer-attestation/app/attestation.py:30-35 | Every printed value (RFC 8259 sections 4 and 5) reads back as itself and leaves what follows unread |
| Json.LiteralTexts | regulayer-attestation/app/attestation.py:30-35 | How null, booleans and empty lists and dictionaries are spelled |
| Json.DecimalText | regulayer-attestation/app/attestation.py:30-35 | Integers are printed digit by digit, with a minus sign exactly for negative ones |
| Json.LastItemText | regulayer-attestation/app/attestation.py:30-35 | Items are separated by a comma and the pad |
| Json.LastEntryText | regulayer-attestation/app/attestation.py:30-35 | Entries likewise |
| Json.EntryText | regulayer-attestation/app/attestation.py:30-35 | An entry is the quoted key, a colon, the pad and the value |
| Json.ReadIsJson | scripts/offline_verifier.py:86-95 | Whatever text is read, the result is a JSON value: distinct keys in every dictionary, well-formed numbers, no datetime |
| Json.CollapseKeys | scripts/offline_verifier.py:89 | Pairs with repeated keys make a dictionary with distinct keys |
| Canonical.NormIdempotent | regulayer-attestation/app/attestation.py:32 | Sorting the keys of a value at every depth twice is sorting them once |
| Canonical.NormDecidesSameness | regulayer-attestation/app/attestation.py:32 | Two values have the same sorted form exactly when they are the same JSON up to key order |
| Canonical.NormAscends | regulayer-attestation/app/attestation.py:32 | Sorted values have strictly ascending keys at every depth |
| Canonical.DumpsReadsBack | scripts/offline_verifier.py:40-54 | Sorted JSON text parses back to the value with its keys sorted, for each separator style |
| Canonical.SameTextSameJson | scripts/offline_verifier.py:40-54 | Equal texts exactly when the same JSON up to key order |
| Canonical.SameBytesSameJson | scripts/offline_verifier.py:40-54 | Equal canonical bytes exactly when the same JSON up to key order |
| Canonical.CanonicalText | scripts/offline_verifier.py:40-54 | The bytes are UTF-8 of a text that reads, without any space after commas and colons, as the same JSON with the keys of every dictionary ascending by code point |
| Canonical.SmallEventBytes | scripts/offline_verifier.py:49-54 | The bytes of a dictionary with one entry, one by one |
| Canonical.TextBeforeMeans | scripts/offline_verifier.py:51 | Keys are ordered by their first differing code point, a proper prefix first |
| Canonical.SameByLookup | regulayer-attestation/app/attestation.py:17-18 | Dictionaries are the same JSON exactly when every key looks up the same JSON in both |
| Attestation.NormalizedIsPlain | regulayer-attestation/app/attestation.py:10-22 | After normalisation no datetime is left at any depth, so serialisation cannot fail |
| Attestation.PlainUnchanged | regulayer-attestation/app/attestation.py:21-22 | Normalisation changes nothing but datetimes |
| Attestation.NormalizeIdempotent | regulayer-attestation/app/attestation.py:10-22 | Normalising twice is normalising once |
| Attestation.OfflineBytesAreSignedBytes | regulayer-attestation/app/attestation.py:24-36 | The offline verifier recomputes the signed bytes exactly from exports that are the normalised event up to key order |
| Attestation.SignedBytesSurviveTheFile | regulayer-attestation/app/attestation.py:24-36 | Writing the normalised event to a file and loading it keeps the signed bytes |
| Attestation.UnnormalizedBytes | regulayer-attestation/app/attestation.py:29-36 | The verifier's encoder rejects an event exactly when a datetime is left in it, and otherwise agrees with the signer |
| Attestation.SignedBytesDecideEvents | regulayer-attestation/app/attestation.py:24-36 | Two events share their signed bytes exactly when they are the same JSON, each datetime read as its ISO text |
| Attestation.NormalizingDecides | regulayer-attestation/app/attestation.py:10-22 | Two events normalise to the same JSON exactly when they are the same JSON, each datetime read as its ISO text |
| Attestation.SignedText | regulayer-attestation/app/attestation.py:24-36 | What is signed is a compact text with ascending keys that reads as the event, datetimes as their ISO texts |
| OfflineVerifier.VerdictIgnoresKeyOrder | scripts/offline_verifier.py:83-149 | Reordering keys anywhere in a bundle never changes its verdict, crashes included |
| OfflineVerifier.FileVerdict | scripts/offline_verifier.py:86-149 | A bundle written to a file is judged like the bundle itself |
| OfflineVerifier.BundleVerdictExactly | scripts/offline_verifier.py:97-149 | When a bundle is valid and when judging it raises, in its own fields; otherwise it is invalid |
| OfflineVerifier.AttestationExactly | scripts/offline_verifier.py:123-149 | When an attestation passes and when checking it raises, in its own fields |
| OfflineVerifier.OtherInputs | scripts/offline_verifier.py:83-98 | Missing files and texts that are not JSON are invalid, and JSON that is no dictionary raises |
| OfflineVerifier.ExportVerifiesExactly | scripts/offline_verifier.py:109-149 | An exported event verifies exactly when its hash is that of the signed bytes, key and signature are not empty, and the signature is good for those bytes |
| OfflineVerifier.AcceptedBundlesAgree | scripts/offline_verifier.py:109-121 | Accepted bundles with one record hash hold the same event, or exhibit a SHA-256 collision |
| OfflineVerifier.AcceptedFilesAgree | scripts/offline_verifier.py:86-149 | The same for two accepted files, whatever texts they hold |
| IdentityRegistry.RegistryStore.RegisterIdentity | regulayer-attestation/app/identities.py:42-58 | Files a new active identity with the given key under the given or the fresh id, replacing any identity that had it |
| IdentityRegistry.RegistryStore.RevokeIdentity | regulayer-attestation/app/identities.py:68-80 | Revokes an active identity in place; a second revocation keeps the first revocation time; no other identity changes |
| IdentityRegistry.Verify | regulayer-attestation/app/verifier.py:19-91 | In the fields of the stored identity: valid exactly when the id is registered, its key verifies the signed bytes and no revocation is dated before the signature; each status and each error exactly under its own condition |
| IdentityRegistry.TrustLasts | regulayer-attestation/app/identities.py:42-80 | With a nondecreasing clock, nobody becomes revoked before a time already past |
| IdentityRegistry.HonestEnvelopeStaysValid | regulayer-attestation/app/verifier.py:43-77 | Signing for an active identity gives an envelope that stays valid in every later state unless the id is registered again, with a status that says whether a revocation followed |
| IdentityRegistry.SigningRefusesExactly | regulayer-attestation/app/attestation.py:38-75 | Signing refuses exactly revoked identities and undecodable keys |
| IdentityRegistry.LateEnvelopeStaysInvalid | regulayer-attestation/app/verifier.py:44-47 | An envelope dated strictly after a revocation is invalid in every later state, unless the id is registered again |
| IdentityRegistry.LateEnvelopeRevivedExactly | regulayer-attestation/app/verifier.py:43-77 | Over every run with a nondecreasing clock: an envelope dated after a revocation is valid if and only if its id was registered again, the last registered key verifies it, and no revocation after that is dated before the signature |
| IdentityRegistry.ActiveRuns | regulayer-attestation/app/identities.py:68-80 | While an id is not registered again, its key stays and its earliest revocation is the one that counts |
| IdentityRegistry.RevokedByStep | regulayer-attestation/app/identities.py:68-80 | An identity that is not registered again is revoked in the end exactly when some step revokes it |
| IdentityRegistry.ReregistrationRevives | regulayer-attestation/app/identities.py:49-56 | An instance of that condition: registering the id again with any key that verifies a late envelope makes it valid |
| IdentityRegistry.VerdictIgnoresEventKeyOrder | regulayer-attestation/app/verifier.py:64-71 | Reordering the keys of the event, or giving a datetime as its ISO text, changes nothing in the verdict |
| KeyRotation.KeyRotationLog.RecordRotation | regulayer-archival/app/snapshot.py:108-134 | Appends one entry and keeps all earlier ones |
| KeyRotation.KeyRotationLog.GetValidKeyAtTime | regulayer-archival/app/snapshot.py:136-159 | Filter, stable sort and head agree with the specified single key |
| KeyRotation.KeyRotationLog.IsKeyValidAtTime | regulayer-archival/app/snapshot.py:161-191 | True exactly when the identity never rotated or some effective rotation names the key |
| KeyRotation.KeyRotationLog.GetValidKeysAt | regulayer-archival/app/models.py:92-103 | The keys listed are exactly those named by effective rotations, empty old keys skipped |
| KeyRotation.ValidKeyIsNewest | regulayer-archival/app/snapshot.py:146-159 | The single key is that of the latest effective rotation, the first recorded among equals |
| KeyRotation.SingleKeyExactly | regulayer-archival/app/snapshot.py:136-159 | The single key in terms of the recorded entries: none without an effective rotation, else the newest one's, first among equals |
| KeyRotation.OtherAnswersExactly | regulayer-archival/app/snapshot.py:161-191 | The list and the yes/no check in terms of the recorded entries |
| KeyRotation.ValidKeyExists | regulayer-archival/app/snapshot.py:152-153 | There is a single key exactly when a rotation is effective |
| KeyRotation.RotationTakesEffect | regulayer-archival/app/snapshot.py:155-159 | A recorded rotation becomes the single key exactly unless an earlier one carries the same instant |
| KeyRotation.SameInstantKeepsFirst | regulayer-archival/app/snapshot.py:155-159 | A concrete log of two rotations in one instant, which keeps the first one's key |
| KeyRotation.QueriesAgreeExactly | regulayer-archival/app/snapshot.py:172-191 | The exact condition under which the list and the yes/no check agree about a key |
| KeyRotation.QueriesDisagree | regulayer-archival/app/snapshot.py:172-191 | The two ways to disagree on concrete logs: no rotation at all, and an empty old fingerprint |
| KeyRotation.ValidKeyAccepted | regulayer-archival/app/snapshot.py:182-189 | The single key is accepted by both other queries |
| KeyRotation.LaterRotationsChangeNothing | regulayer-archival/app/snapshot.py:136-191 | Rotations effective after t change no answer at t, except that a first rotation ends the blanket trust |
| EventQueue.BackendClient.SubmitEvent | regulayer_legacy/client.py:62-101 | Appends the event; exactly when a positive capacity is reached, the oldest one and no other falls out; starts draining unless shut down |
| EventQueue.BackendClient.SendEventWithRetry | regulayer_legacy/client.py:146-175 | Stops at the first success within the allowed attempts; delays start at one initial delay and double |
| EventQueue.RetryLoopSettles | regulayer_legacy/client.py:146-175 | Seen as steps of the client, the retry loop puts the event in the sent log exactly when some allowed attempt succeeds, else in the failed log |
| EventQueue.StepKeeps | regulayer_legacy/client.py:78-175 | Every step keeps the invariant: bounded queue, queue a suffix of the submissions, one fate per event, logs in submission order |
| EventQueue.RunOfNewClient | regulayer_legacy/client.py:45-175 | The invariant holds in every state of every run of a new client |
| EventQueue.EventsConserved | regulayer_legacy/client.py:78-175 | Submissions are exactly the dropped, in-flight, sent, failed, untried and queued events together |
| EventQueue.DropsExactlyAtCapacity | regulayer_legacy/client.py:78-101 | A step drops something exactly when it submits to a queue at capacity, and then the event queued longest |
| EventQueue.NothingDroppedBelowCapacity | regulayer_legacy/client.py:45-101 | Over every run, nothing is dropped until more events than the capacity were submitted, and never from an unbounded queue |
| EventQueue.BackoffBounded | regulayer_legacy/client.py:156-175 | At most max_retries attempts and 2^(max_retries-1) - 1 initial delays of waiting per event |
| EventQueue.AtMostOneTakenAfterShutdown | regulayer_legacy/client.py:125-144 | After shutdown at most one more event ever leaves the queue, and none unless the drain loop was already waiting for one |
| EventQueue.ShutdownFlushesExactly | regulayer_legacy/client.py:216-245 | After shutdown everything left can still be processed if and only if nothing is queued, or one event is and the drain loop was already waiting |
| EventQueue.ShutdownLeavesEvent | regulayer_legacy/client.py:216-245 | A client shut down right after its first submission keeps that event for ever |
| EventQueue.UntriedExactly | regulayer_legacy/client.py:156-160 | Once an event has been taken, events are taken without an attempt if and only if max_retries is zero or less, and then all are |
| PolicyEvaluator.ResolveField | regulayer-governance-policy/app/evaluator.py:38-46 | The loop resolves the dotted path; a missing key or a non-dictionary gives None |
| PolicyEvaluator.LookupExactly | regulayer-governance-policy/app/evaluator.py:38-46 | The lookup finds a value exactly when a chain of entries under the path's keys leads to it |
| PolicyEvaluator.SplitDotsParts | regulayer-governance-policy/app/evaluator.py:39 | The parts of a path have no dots and join to it again |
| PolicyEvaluator.SplitDotsUnique | regulayer-governance-policy/app/evaluator.py:39 | No other list of dot-free parts joins to the same path |
| PolicyEvaluator.TextCollector.Extract | regulayer-governance-policy/app/evaluator.py:78-91 | Appends to the shared list exactly the leaf texts of the value, in order, null contributing none |
| PolicyEvaluator.TextCollector.ExtractStrings | regulayer-governance-policy/app/evaluator.py:147-158 | Appends exactly the string leaves, in order, and nothing for other leaves |
| PolicyEvaluator.LastItemLeaves | regulayer-governance-policy/app/evaluator.py:87-89 | The leaves of a list are those of its items, in order |
| PolicyEvaluator.DictionaryLeaves | regulayer-governance-policy/app/evaluator.py:84-86 | The leaves of a dictionary are those of the list of its values |
| PolicyEvaluator.ScalarLeaves | regulayer-governance-policy/app/evaluator.py:82-91 | What each kind of scalar contributes |
| PolicyEvaluator.EvaluateCondition | regulayer-governance-policy/app/evaluator.py:33-202 | The operator's answer on the resolved value; the six comparisons in terms of what `float`, `lower` and `==` give, missing and null values included |
| PolicyEvaluator.ComparisonsFollowTheNumbers | regulayer-governance-policy/app/evaluator.py:131-138 | GT and GTE outlive growth of the field and shrinking of the target, LT and LTE the reverse; equal numbers meet exactly the inclusive ones |
| PolicyEvaluator.ValueOperatorsExactly | regulayer-governance-policy/app/evaluator.py:50-76 | EQ, IN and the comparisons in terms of what Python answers on the two values |
| PolicyEvaluator.TextOperatorsExactly | regulayer-governance-policy/app/evaluator.py:93-202 | CONTAINS, STARTS_WITH, REGEX and LLM_EVALUATE in terms of the joined texts |
| PolicyEvaluator.EvaluatePolicy | regulayer-governance-policy/app/evaluator.py:204-272 | Matches exactly when enabled, applicable, with conditions, and all of them hold; actions are given exactly then |
| PolicyEvaluator.ContainsMeansOneLeaf | regulayer-governance-policy/app/evaluator.py:93-109 | CONTAINS with a non-empty newline-free target holds exactly when one single leaf contains it, ignoring case, and NOT_CONTAINS exactly when none does |
| PolicyEvaluator.NewlineSpansLeaves | regulayer-governance-policy/app/evaluator.py:93-117 | For every target with a newline there is a value that contains and starts with it although none of its leaves does |
| PolicyEvaluator.ContainsMeansOneLeafExactly | regulayer-governance-policy/app/evaluator.py:93-100 | CONTAINS means on every value that one leaf contains the target if and only if the target is not empty and has no newline |
| PolicyEvaluator.StartsWithMeansFirstLeafExactly | regulayer-governance-policy/app/evaluator.py:111-117 | STARTS_WITH means on every value that the first leaf starts with the target if and only if the target is not empty and has no newline |
| PolicyEvaluator.StartsWithMeansFirstLeaf | regulayer-governance-policy/app/evaluator.py:111-117 | STARTS_WITH with a newline-free target looks at the first leaf only |
| PolicyEvaluator.NegationsAreExact | regulayer-governance-policy/app/evaluator.py:50-109 | NEQ, NOT_IN and NOT_CONTAINS are the exact negations of EQ, IN and CONTAINS |
| PolicyEvaluator.ComparisonsSplit | regulayer-governance-policy/app/evaluator.py:131-140 | On numbers GT and LTE are each other's negation and mirror LT and GTE; on anything else, NaN included, all four are false |
| DecisionsMerge.ListAll | regulayer-control-plane/app/decisions_proxy.py:93-103 | The page is the stable newest-first sort of all accepted replies, cut to the limit |
| DecisionsMerge.ListedExactly | regulayer-control-plane/app/decisions_proxy.py:93-103 | For every limit, negative ones included: nothing gathered is lost or invented, time stamps never increase along the page, and nothing left out has a later one |
| DecisionsMerge.AcceptedInOrder | regulayer-control-plane/app/decisions_proxy.py:93-101 | Pages are gathered whole, single decisions as one, anything else not at all, in reply order |
| DecisionsMerge.ExtraIsLate | regulayer-control-plane/app/decisions_proxy.py:102-103 | A decision sorts behind everything before it that is at least as new, and leaving it out moves nothing else |
| DecisionsMerge.MergeRefinesFullSort | regulayer-control-plane/app/decisions_proxy.py:86-103 | Fetching only `limit` newest decisions per project gives the same page, in the same order, as fetching everything |
| DecisionsMerge.MergeIsGlobalNewest | regulayer-control-plane/app/decisions_proxy.py:86-103 | The page has min(limit, total) decisions, newest first, and nothing left out is newer than anything on it |
| DecisionsMerge.TextOrderIsTimeOrderExactly | regulayer-control-plane/app/decisions_proxy.py:102 | Comparing the texts of two time stamps compares their times if and only if they do not clash: same second, one without a fraction, and a suffix that sorts after the decimal point |
| DecisionsMerge.TimeSortedStore | regulayer-control-plane/app/decisions_proxy.py:102 | A store that is newest first in time is sorted as the merge assumes if and only if no two of its stamps clash |
| DecisionsMerge.PageNewestFirstExactly | regulayer-control-plane/app/decisions_proxy.py:93-103 | For all replies and limits, the listed page is newest first in time if and only if no two of its stamps clash |
| DecisionsMerge.WholeSecondSortsLate | regulayer-control-plane/app/decisions_proxy.py:102 | A clashing pair: with the suffix "Z", ten o'clock sharp sorts as newer than half a second past it |
| StableSort.SortSorted | regulayer-control-plane/app/decisions_proxy.py:102 | The sort leaves nothing out of order, for every strict weak order |
| StableSort.SortIsTheStableSort | regulayer-control-plane/app/decisions_proxy.py:102 | Any sorted list that keeps tied elements in order is this one, whatever algorithm made it |
| DemoChain.GenerateDemoDecisions | regulayer-control-plane/app/demo.py:37-90 | The loop yields a linked hash chain of the asked length from "genesis", numbered from 1 |
| DemoChain.GeneratedAt | regulayer-control-plane/app/demo.py:45-86 | Every field of the decision at each position |
| DemoChain.RecordTextReads | regulayer-control-plane/app/demo.py:49-74 | The hashed text is JSON that holds these fields under these keys |
| DemoChain.RecordTextInjective | regulayer-control-plane/app/demo.py:64-74 | The hashed text determines every hashed field of a record |
| DemoChain.SameTipSameChain | regulayer-control-plane/app/demo.py:40-88 | Chains with one last hash have one length and agree on every hashed field, or exhibit a SHA-256 collision |
| DemoChain.ProofLinksUp | regulayer-control-plane/app/demo.py:116-136 | The exported entries are numbered consecutively and each holds the hash of the one before it |
| DemoChain.ProofExactly | regulayer-control-plane/app/demo.py:116-136 | Count, first and last hash, and each entry's id, number, hash and previous hash |
| DemoChain.LastHashFixesProof | regulayer-control-plane/app/demo.py:116-136 | The last hash of an exported proof fixes count, first hash and every link, or a collision is exhibited |
| Hasher.AcceptsExactlySupported | regulayer_legacy/hasher.py:91-143 | Canonicalisation succeeds exactly when every leaf is of a supported kind |
| Hasher.CanonIdempotent | regulayer_legacy/hasher.py:91-137 | Canonicalising accepted data twice is canonicalising it once |
| Hasher.TextDecidesJson | regulayer_legacy/hasher.py:50-54 | Accepted data always serialises, and texts are equal exactly when the printed JSON is the same up to key order |
| Hasher.HashedTextExactly | regulayer_legacy/hasher.py:50-54 | What is hashed is a text with ascending keys and a space after commas and colons that prints the data: floats rounded, datetimes as ISO text, last entries winning |
| Hasher.HashesExactlySupported | regulayer_legacy/hasher.py:50-171 | Unsupported data has no hash, and none verifies for it |
| Hasher.InsertionOrderIrrelevant | regulayer_legacy/hasher.py:50-54 | Equal nested data gives one text and one hash in any insertion order, if no dictionary has two keys with one text |
| Hasher.LastEntryWins | regulayer_legacy/hasher.py:133-137 | Under each key text the value of the last entry with that text is printed |
| Hasher.DictionariesHashAlikeExactly | regulayer_legacy/hasher.py:133-137 | Key clashes or not: two dictionaries give one text exactly when the last values under every key text print alike |
| Hasher.SharedKeyTextDependsOnOrder | regulayer_legacy/hasher.py:133-137 | Equal dictionaries with the keys 1 and "1" hash differently in the two insertion orders |
| Hasher.NumericTypesTextDiffer | regulayer_legacy/hasher.py:95-111 | Booleans, integers and floats never share a text, although Python calls some of them equal |
| Hasher.EqualHashesMean | regulayer_legacy/hasher.py:146-171 | Verification by hash means the same printed JSON, or a SHA-256 collision |
| IsoTime.IsoShowsOffset | regulayer_legacy/hasher.py:125-126 | The ISO 8601 text of one instant at two UTC offsets is the same if and only if the offsets are |
| IsoTime.DatesFollowCalendar | regulayer_legacy/hasher.py:125-126 | The date shown for each day follows the Gregorian calendar, leap years included, from 1970-01-01 on and back |
| IsoTime.DateTextShowsDate | regulayer_legacy/hasher.py:125-126 | Dates are shown with four, two and two digits |
| IsoTime.CivilReads | regulayer_legacy/hasher.py:125-126 | The text shows the local day and time of day, and microseconds unless zero |
| IsoTime.OffsetReads | regulayer_legacy/hasher.py:125-126 | The offset is shown as sign, hours and minutes, and seconds unless zero |
| Hasher.ZonesDecideText | regulayer_legacy/hasher.py:117-137 | Two machines that differ in their time zones hash nested data alike if and only if the zones' offsets agree at every instant in it that is printed, entries replaced under a shared key text excepted |
| Hasher.UtcExactly | regulayer_legacy/hasher.py:117-137 | For all accepted data, the promised UTC text is hashed if and only if the machine's offset is zero at every instant in it that is printed |
| Hasher.LocalTextIsNotUtc | regulayer_legacy/hasher.py:117-126 | One hour east of Greenwich the first instant of 1970 is not hashed as its UTC text |
| MerkleAnchor.GenerateMerkleAnchor | regulayer-recorder/app/crypto.py:13-37 | The nested loops compute the specified root |
| MerkleAnchor.LevelAt | regulayer-recorder/app/crypto.py:27-36 | Each node of a level hashes the two below it, the last one with itself when it has no partner |
| MerkleAnchor.RootAbove | regulayer-recorder/app/crypto.py:26-37 | While more than one node is left, the root is that of the level above |
| MerkleAnchor.SmallRoots | regulayer-recorder/app/crypto.py:20-37 | The roots of chains of up to three records |
| MerkleAnchor.EmptyChainText | regulayer-recorder/app/crypto.py:20-22 | The empty chain is anchored by the hash of its marker text |
| MerkleAnchor.SameRoot | regulayer-recorder/app/crypto.py:13-37 | Chains of one length with one root are the same chain, or two different texts hashed on the way up share their hash |
| MerkleAnchor.OddChainRootRepeats | regulayer-recorder/app/crypto.py:31-33 | With every hash function, an odd chain of three or more has the root of the chain with its last record repeated |
| MerkleAnchor.RootBindsExactly | regulayer-recorder/app/crypto.py:13-37 | For which pairs of lengths a root tells chains apart, up to collisions and for all hash functions: equal lengths, or none against two and more, and no others |
| Membership.OwnerLostToOwner | regulayer-control-plane/app/api.py:376-462 | An owner is demoted or removed only by another owner of the organisation, who stays one |
| Membership.RunKeepsOwner | regulayer-control-plane/app/api.py:376-462 | Over every run of requests, an organisation with an owner keeps one |
| Membership.AcceptConservesSeats | regulayer-control-plane/app/user_auth.py:485-511 | Accepting an invitation leaves members plus pending invitations unchanged, in every organisation |
| Membership.InviteTakesOneSeat | regulayer-control-plane/app/api.py:1361-1380 | A successful invitation takes exactly one seat of its own organisation, a refused one none |
| Membership.RunKeepsSeats | regulayer-control-plane/app/api.py:1361-1376 | Over every run, members plus pending invitations stay within the limit once within it |
| Membership.RunKeepsTables | regulayer-control-plane/app/user_auth.py:433-511 | Over every run emails stay unique and every invitation keeps an inviter who is a user of its organisation |
| Membership.ForeignRequest | regulayer-control-plane/app/user_auth.py:475-483 | An actor from elsewhere never changes an organisation's users, and its invitations if and only if the actor owns or administers the organisation named in the request and revokes one of them by id |
| Membership.ForeignRequestInRun | regulayer-control-plane/app/api.py:1448-1459 | The same in every state of every run |
| Membership.ForeignRevocation | regulayer-control-plane/app/api.py:1448-1459 | Two organisations and one invitation: the owner of the first revokes the invitation of the second |
| Membership.NewOwnersExactly | regulayer-control-plane/app/api.py:404-411 | A user becomes an owner if and only if an owner changes the role or the user accepts an invitation for it |
| Membership.InviteExactly | regulayer-control-plane/app/api.py:1355-1380 | An invitation is created if and only if its sender owns or administers the organisation, a seat is free and the email is new; the role plays no part |
| Membership.InvitationMakesUser | regulayer-control-plane/app/user_auth.py:485-511 | An invitation and its acceptance in time make a user with the invited role, whichever it is |
| Membership.AdministratorMakesOwner | regulayer-control-plane/app/api.py:376-382 | An administrator, to whom every role change to owner is refused, makes an owner in two steps |
| Membership.MembershipService.ChangeMemberRole | regulayer-control-plane/app/api.py:384-425 | Each refusal leaves the tables as they were; otherwise exactly one role changes |
| Membership.MembershipService.RemoveMember | regulayer-control-plane/app/api.py:427-475 | Removes the member and exactly the invitations that member sent, or refuses without effect |
| Membership.MembershipService.CreateInvitation | regulayer-control-plane/app/api.py:1346-1409 | Adds one pending invitation when permission, seats and email allow, or refuses without effect |
| Membership.MembershipService.AcceptInvitation | regulayer-control-plane/app/user_auth.py:485-511 | Turns one open, unexpired invitation into a member, or refuses without effect |
| Membership.MembershipService.RevokeInvitation | regulayer-control-plane/app/api.py:1440-1459 | Deletes the invitation with the id, or refuses without effect |
| Membership.RevokeExactly | regulayer-control-plane/app/api.py:1440-1459 | In the stored rows: which refusal each request gets, and the one row that goes otherwise |
| Membership.AcceptExactly | regulayer-control-plane/app/user_auth.py:485-511 | Accepted exactly with the stored token hash, unaccepted, unexpired and with a new email; then one user is added and the row is marked |
| Membership.CreateInvitationExactly | regulayer-control-plane/app/api.py:1346-1409 | In the stored rows: sender, seats, then email decide; the new row lives seven days |
| Membership.RemoveExactly | regulayer-control-plane/app/api.py:427-475 | In the stored rows: which refusal each request gets, and which rows go otherwise |
| Membership.ChangeRoleExactly | regulayer-control-plane/app/api.py:376-425 | In the stored rows: which refusal each request gets, and the one role that changes otherwise |
| UsageMeter.Meter.Record | regulayer-billing/app/usage.py:68-98 | Appends one record and keeps every daily and monthly total equal to the sum over the records |
| UsageMeter.Meter.GetDailyUsage | regulayer-billing/app/usage.py:100-103 | The daily total is the sum of today's records of that organisation and metric |
| UsageMeter.Meter.GetMonthlyUsage | regulayer-billing/app/usage.py:105-108 | The monthly total is the sum of the month's records |
| UsageMeter.Meter.ResetDaily | regulayer-billing/app/usage.py:126-136 | The deleting loop keeps exactly today's totals; all later answers are still the sums of the records |
| UsageMeter.KeysDiffer | regulayer-billing/app/usage.py:59-66 | No two organisations or periods share a key, whatever the organisation's text |
| UsageMeter.EachRecordCounts | regulayer-billing/app/usage.py:86-98 | Each record counts once, for its organisation and metric, on its day and in the month its date begins with |
| UsageMeter.DailyStaysExact | regulayer-billing/app/usage.py:86-91 | Bumping one entry keeps the whole daily index exact |
| UsageMeter.PurgeStaysExact | regulayer-billing/app/usage.py:126-136 | Dropping all keys that do not end in today's date keeps the index exact from today on |

## Left out

- HTTP routing, SQL sessions, mail, audit logging, Stripe and webhooks: tables are maps and replies are inputs.
- Guarded creation: nothing in the repository calls `validate_link` before `create_link`; `DeclareLink` is the composition that callers have to follow for the store to stay sound. `create_link` on its own checks nothing.
- Timestamps and placeholder hashes of drawn nodes, and the organisation and ids of logged events. Provenance ids are canonical UUID texts, so comparing ids and comparing their texts are the same.
- AnomalyDetector.ScoreByCount: floats are real numbers and the square root is exact, so rounding is not modelled; neither is the text of the freeze reason.
- Json.ValueReads: lone surrogates, non-string keys, tuples, NaN and infinities are outside the JSON values; a float is carried by its shortest repr text. The reader takes no white space but the printed separators, no capital E and no escaped surrogates, and keeps a float as it is written; of repeated keys the last one counts.
- The demonstration records are printable ASCII, so escaping non-ASCII text makes no difference there; that a confidence prints as a float is an assumption on the parameter. `get_decisions` is a slice and is not modelled.
- Printing and opening bundle files, and the version warning. Base64 padding and the key length test are inside the signature parameter. An unsigned bundle is accepted, as the code does.
- Loading and saving the identity registry as a JSON file, and `list_identities`.
- IdentityRegistry.Verify: the two handlers that add different error texts for a failed signature are one error.
- `export_for_decision`, secondary hashes and the remaining archival snapshot data.
- The five-second limit of `shutdown`, task cancellation, the event loop, and what a single delivery attempt sends. The drain loop is modelled as steps, because it has no end of its own.
- The regular-expression engine and the language model behind REGEX and LLM_EVALUATE are parameters, and so are `str`, `str.lower`, `==` and `float`; an integer too large for a float, on which the code raises, is not distinguished. `build_context` and the text of actions are left out.
- PolicyEvaluator.ContainsMeansOneLeaf: assumes that lower-casing works line by line, which Python's does because a newline takes part in no case mapping.
- DecisionsMerge.MergeRefinesFullSort: assumes that each project's reply is its prefix of at most `limit`, newest first by the text of the time stamps, and that the limit is not negative. A time stamp that is null instead of missing is not modelled.
- Hasher.InsertionOrderIrrelevant: equality tells True, 1 and 1.0 apart, as the texts do (`NumericTypesTextDiffer`); `round(x, 15)`, `repr` and the machine's UTC offset at an instant are parameters: the first idempotent, the second in number form, the third whole seconds of less than a day. Negative zero, and instants whose local time leaves the years 1 to 9999, are not distinguished.
- Membership.RunKeepsSeats: `create_user` is left out, because it checks no seats, and so are plan changes: the limit is fixed. `change_user_role` calls a method that does not exist and has no behaviour. Passwords, sessions and the login after acceptance are left out; rows get new ids and token hashes are compared with the stored one.
- UsageMeter.Meter.Record: dates are ten-character texts that never decrease; the UTC time stored in a record is not compared with the local date of its keys. `get_summary` only calls the monthly total.
- The queries that collect record hashes for the Merkle root, and record hashes that are not lower-case hexadecimal digests.
- Role tables, deployment modes, residency, retention scopes and plan limits: finite tables that a case split settles.
- Custody transfer, deletion and approval workflows: short status machines with easy invariants.
- The chaos, replay, ordering, consistency and temporal suites, `regulayer-web`, migrations and seed scripts.
