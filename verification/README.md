# ProofBundle: verified models

ProofBundle seals JSON evidence into signed bundles and has independent implementations in Rust, Go,
TypeScript, Python and a browser page. This project models the parts on which the implementations
must agree, or on which acceptance of a bundle rests, and proves properties of them for all inputs.
`dafny verify dfyconfig.toml` checks the project.

## What is modelled

| modules | part of the system |
|---|---|
| `Utf8`, `Canonical`, `UniqueDecoding`, `CanonicalForm` | PB-CANON-JSON-1 as the command-line tool prints it, a JSON parser written to RFC 8259, a grammar of the canonical texts, and the two key orders |
| `Numerals`, `CanonicalPorts`, `PythonCanonical`, `NormalForms` | the TypeScript and Python canonical encoders, compared byte for byte with the tool's and with each other |
| `Decimal` | the TypeScript formatter for numbers that are not integers |
| `LineageGraph` | bundles, references, walks, and what a valid lineage is, independently of any implementation |
| `LineageTypeScript`, `LineagePython`, `LineageGo`, `LineageRust` | the four lineage checks, proved against that definition |
| `PythonFaults`, `GoFaults` | the verdicts of two of them on arbitrary input, as the first fault in reading order |
| `LineageOrders`, `LineageLimits` | which natural claims about these checks fail, and exactly when they hold |
| `Merkle`, `Manifest` | the Merkle roots of the browser page and of the manifest script, against section 2.1 of RFC 6962 |
| `Boundary`, `PythonBoundary` | eager and short-circuit evaluation of boundary predicates, and Python's pre-validation |
| `Der` | the DER encoder for ECDSA signatures, against a strict decoder written to X.690 |
| `Seal`, `Verify` | sealing, re-signing and verifying with the command-line tool, end to end |
| `SealedBundles`, `ExitCodes` | what a sealed bundle holds and what each exit code means, in terms of the bundle's fields |
| `GoPipeline`, `GoAcceptance` | the twelve-stage verifier in Go, resting on `Boundary` and `LineageGo`, and what acceptance and each refusal mean |

Code that changes state is a class or a method with loops, proved equal to a specification function;
the theorems are about these functions. Hashes and content digests are arbitrary total functions,
signing and verifying obey one law (a fresh signature verifies under the matching key), and the
statements about binding produce an explicit collision instead of assuming that there is none.

The main results, one per part:

- **Canonical JSON is uniquely decodable** on arbitrarily nested values, although numbers are not
  prefix-free; a parser that knows nothing of the printer inverts it, so the encoder is injective.
  A text is an encoding if and only if it meets a grammar that fixes every byte.
  TypeScript prints the tool's bytes if and only if every string and key is in the normal form, and
  Python if and only if every string value is; Python raises exactly when the tool fails. Python and
  TypeScript print the same bytes if and only if every key is in the normal form.
- **Every lineage check is characterised.** With room for all ids, the three-colour search decides
  validity. What the path-copying recursion accepts, and what Go accepts, it verifies exactly when no
  bundle above the root claims the root's id; Go moreover refuses parents that are reached twice. The
  Rust loop succeeds exactly when there is a first-parent chain. On arbitrary input, Python's verdict
  and Go's error are the first fault in the order in which references are read.
  For any store and any budget, the search says "verified" in every order of references exactly when
  the lineage is sound and every path stays within the budget.
- **The pairing loop is the RFC 6962 tree**, and equal roots mean equal leaves or a collision.
- **The eager evaluator reports no error if and only if** the short-circuit one succeeds under every
  reordering of children at every level (within the depth limit), and then all give one truth value.
- **A sealed bundle verifies if and only if** its options are acceptable; signature and digests never
  stand in the way. For any bundle, exit code 0 is equivalent to a list of conditions on its fields,
  and every other exit code is that of the first condition that fails.
- **The Go pipeline's traces** are prefixes of the fixed stage order, and acceptance is equivalent to a
  list of requirements: matching digest, signature, true boundary, unexpired approval and, unless the
  bundle's own id comes again above it, a valid lineage, as the profile asks.

## Where the code and its documentation differ

The models follow the code. Line numbers without a file are those of the ProofBundle Specification
v1.0.0 at the top of the repository.

- Strings in the normal form NFC are required (lines 256-268). The Rust tool normalizes none, Python
  string values but not keys, TypeScript both. `TypeScriptAgrees`, `PythonAgrees` and
  `NormalForms.PythonAgreesWithTypeScript` say exactly when this shows.
- The byte order of keys is called equivalent to the code point order for ASCII keys (lines 243-248).
  It is for all keys (`OrdersAgree`).
- A false boundary is out-of-bounds (line 380). The Rust tool only denies a boundary whose evaluation
  fails. `VerifiedMeansTrueIff` says when being verified implies truth, `FalseBoundaryIsAccepted` gives
  a bundle for which it does not.
- Cycles are to be detected (lines 673-677). Go's visited set also refuses diamonds, which have no
  cycle (`GoRefusesDiamonds`, and `AcceptsIffValidAndUnshared` for the exact set).
- A supplied bundle may claim the root's own id. If the root reaches it, the id repeats and TypeScript
  answers "lineage-invalid"; Python is not stopped by it when that bundle has no references, and Go not
  at all, as the root is not in its visited set. `PythonAgainstTypeScript` and `GoAgainstTypeScript` say
  exactly when the answers differ, `RootIdReclaimed` gives an input. When only the root claims the id,
  Python agrees with TypeScript and Go accepts only valid lineages (`PythonAgreesWithTypeScript`,
  `GoImpliesTypeScript`, `AcceptedLineageIsValid`).
- Lineage depth is limited, with "lineage-invalid" beyond it (lines 667-671). The TypeScript budget is
  exceeded with "resource-exhausted", and not by every lineage with a longer walk: `MemoOutrunsBudget`
  gives such lineages, `BudgetBoundsIff` the budgets and sizes that have none, `BudgetBoundsWalksIff`
  the exact condition for one lineage, and `ExhaustedInSomeOrderIff` when the answer occurs.
- PB-INTEGRITY-1 is a profile (lines 337-342). The Go pipeline does not know it and ends such bundles
  at the profile stage (`NotDefinedIff`, `IntegrityProfileIsRefused`).
- The operand of "not" is given in two ways: every atom has an array of operands (lines 506-509), and
  "not" takes a single atom (line 547), as Go, TypeScript and the vectors do
  (conformance/vectors_v1.json:6988-6995); malformed operands are indeterminate (lines 589-593).
  Python's "not" takes an array, passes on an empty one and ignores operands after the first
  (`NotTakesAnArrayIff`, `NotAcceptsOperandCounts`), and never decides a bare atom (`NotTakesAnAtomIff`,
  `BareNotIsIndeterminate`). Its loop for a top-level "all" ignores further keys (`TopLevelAllAgrees`,
  `FurtherKeysAreIgnored`).
- The full-profile approval check of the Rust verifier looks for an object under "side_attestations"
  (cli/src/verify.rs:177-195), where sealing writes an array, so it never applies to sealed bundles
  (`ApprovalMissedIff`, `SealedNeverMissesApproval`, `ApprovalLooksForAnObject`).

## Model

| member | source | states |
|---|---|---|
| Utf8.DecodeEncoded | cli/src/canonical.rs:96-100 | reading UTF-8 strictly (no overlong forms, no surrogates) gives back every string |
| Utf8.EncodeConcat | cli/src/canonical.rs:96-100 | encoding characters one at a time is encoding the whole string |
| Utf8.CharOrder | cli/src/canonical.rs:68 | the first byte in which two characters' encodings differ orders them as their code points do |
| Utf8.ByteOrderIsCodePointOrder | cli/src/canonical.rs:68 | for all strings, byte order of the UTF-8 forms is code point order |
| Utf8.LexLessIff | cli/src/canonical.rs:68 | the order of byte strings, spelled out: a proper prefix comes first, and otherwise the first differing byte decides |
| Utf8.SortKeysUnique | cli/src/canonical.rs:67-68 | a key set has exactly one strictly increasing enumeration, so the result of sorting does not depend on the algorithm |
| Utf8.OrdersAgree | implementations/typescript-core-20260516/src/canonical.ts:71-79 | every object's members come in the same order in all implementations, by bytes or by code points |
| Canonical.WriteString | cli/src/canonical.rs:82-105 | the writer grows by exactly the literal; which bytes that is, `CanonicalForm.StrictPrinted` and `StrictReadBack` fix |
| Canonical.SortedKeys | cli/src/canonical.rs:67-68 | the keys leave in the one sorted order, whatever order they were found in |
| Canonical.WriteValue | cli/src/canonical.rs:39-80 | on success the writer grows by exactly the canonical bytes; on failure the error is that of the first unencodable number and earlier output stays |
| Canonical.WriteArray | cli/src/canonical.rs:54-62 | the same for an array: commas between elements only, first failing element decides |
| Canonical.WriteObject | cli/src/canonical.rs:64-79 | the same for an object, members in sorted order |
| Canonical.EncodeToBytes | cli/src/canonical.rs:27-31 | a fresh buffer yields the canonical bytes or the error; `CanonicalForm.CanonicalIff` says which texts these are |
| Canonical.EncodableIffSafe | cli/src/canonical.rs:43-52 | a value is encodable if and only if every number at any depth is an integer of magnitude at most 2^53 - 1 |
| Canonical.NumberErrorIs | cli/src/canonical.rs:43-52 | a number that fits 64 bits and is unsafe is named in the error, any other without an encoding is refused as no integer |
| Canonical.ArrayErrorIs | cli/src/canonical.rs:54-62 | the error of an array is that of its first element with an unsafe number |
| Canonical.ObjectErrorIs | cli/src/canonical.rs:64-79 | the error of an object is that of the member with an unsafe number whose key comes first in byte order |
| UniqueDecoding.NumberReadBack | cli/src/canonical.rs:48 | an integer followed by a delimiter or nothing is read back as itself |
| UniqueDecoding.CharReadBack | cli/src/canonical.rs:85-101 | each escape is read back as its character whatever follows, and none starts with a quote |
| UniqueDecoding.ValueReadBack | cli/src/canonical.rs:39-80 | the RFC 8259 parser reads any value back from its encoding followed by any delimiter, leaving the rest |
| UniqueDecoding.RoundTrip | cli/src/canonical.rs:27-31 | parsing a whole canonical text gives the value back |
| UniqueDecoding.UniquelyDecodable | cli/src/canonical.rs:39-80 | two encodings followed by delimited suffixes are equal only for equal values and equal suffixes |
| UniqueDecoding.DelimitersAreNeeded | cli/src/canonical.rs:48 | without delimiters unique decodability fails, by a concrete pair of numbers |
| UniqueDecoding.EncodingInjective | cli/src/canonical.rs:27-31 | different values have different canonical bytes |
| CanonicalForm.StrictPrinted | cli/src/canonical.rs:39-105 | a text of the strict grammar (no white space, one spelling of every character with lower-case digits, plain safe integers, keys increasing) is the encoding of the value that it reads |
| CanonicalForm.StrictReadBack | cli/src/canonical.rs:39-105 | the encoding of any value, before any delimiter, is a text of that grammar, which reads the value and leaves the rest |
| CanonicalForm.CanonicalIff | cli/src/canonical.rs:27-105 | a text is canonical by the grammar if and only if it is the encoding of some value, and then of the one that the grammar reads and no other |
| CanonicalPorts.Quote | python/proofbundle/canonical.py:127-151 | the loop builds the literal specified character by character |
| CanonicalPorts.EncodeQuote | python/proofbundle/canonical.py:127-151 | quoting text and then encoding gives the bytes the tool writes for the same string |
| CanonicalPorts.CompareKeys | implementations/typescript-core-20260516/src/canonical.ts:71-79 | the comparator is negative exactly for smaller keys and zero exactly for equal ones, so it is a total order |
| CanonicalPorts.TsAgreement | implementations/typescript-core-20260516/src/canonical.ts:56-93 | inside any larger text, TypeScript's text and the tool's are equal exactly when the value is normalized and what follows is equal |
| CanonicalPorts.TypeScriptAgrees | implementations/typescript-core-20260516/src/canonical.ts:91-93 | wherever the tool encodes, TypeScript prints the same bytes if and only if all strings and keys are normalized |
| CanonicalPorts.TypeScriptScalars | implementations/typescript-core-20260516/src/canonical.ts:56-93 | where the tool refuses a number TypeScript prints it, an integer by its digits; strings and keys are printed in the normal form |
| PythonCanonical.ClassifyValue | python/proofbundle/canonical.py:32-64 | the loops over lists and sorted keys classify as specified, and the first failure is the result |
| PythonCanonical.EqualIffSameValue | python/proofbundle/canonical.py:57-63 | two Python values are equal, whatever the insertion order at any depth, if and only if they stand for one JSON value |
| PythonCanonical.ReorderedIsEqual | python/proofbundle/canonical.py:57-63 | permuting the entries of a dictionary gives an equal dictionary |
| PythonCanonical.InsertionOrderIrrelevant | python/proofbundle/canonical.py:160-162 | equal values have equal canonical bytes, or the same error |
| PythonCanonical.SameBytesIffEqual | python/proofbundle/canonical.py:160-162 | on normalized values, equal bytes mean equal values and conversely |
| PythonCanonical.PythonAgrees | python/proofbundle/canonical.py:154-162 | Python raises exactly when the tool fails, about the same number; otherwise the bytes agree if and only if all string values are normalized |
| PythonCanonical.PythonWritesNormalForm | python/proofbundle/canonical.py:154-162 | on every value, normalized or not, Python writes exactly what the tool writes for the value with its strings, but not its keys, in the normal form |
| NormalForms.PythonAgreesWithTypeScript | implementations/typescript-core-20260516/src/canonical.ts:81-87 | for an idempotent normal form, wherever Python encodes, the two print the same bytes if and only if every key is in the normal form, whatever the string values are |
| LineageGraph.IndexByIdExact | go/lineage.go:40-44 | indexing bundles with distinct ids loses and invents nothing |
| LineageGraph.IndexByIdIs | go/lineage.go:40-44 | for every list, the lookup table answers the last bundle of an id |
| LineageGraph.SimpleWalkLength | implementations/typescript-core-20260516/src/lineage.ts:12 | a walk without repeats is no longer than the number of distinct ids, so that budget never binds |
| LineageGraph.PathLength | implementations/typescript-core-20260516/src/lineage.ts:12 | a path of keys with different ids before its end has no more levels than there are claimed ids, so that budget never binds |
| LineageGraph.SoundAbove | implementations/typescript-core-20260516/src/lineage.ts:18-27 | a bundle is sound if its references resolve to sound bundles and reachable bundles that claim one id agree |
| LineageGraph.TopologicalIsSound | implementations/typescript-core-20260516/src/lineage.ts:28-30 | a finishing order certifies every bundle in it, for any store, if reachable bundles that claim one id agree |
| LineageGraph.SoundIffValid | implementations/typescript-core-20260516/src/lineage.ts:21 | where bundles are stored under their own ids, soundness along keys is validity of the lineage along ids |
| LineageGraph.SoundIffTidy | implementations/typescript-core-20260516/src/lineage.ts:15-16 | with bundles under their own ids, a lineage is sound if and only if all references resolve, no path repeats a key and no bundle above the root claims the root's id |
| LineageTypeScript.Walker.Walk | implementations/typescript-core-20260516/src/lineage.ts:11-31 | one call changes the two colour sets and answers as specified, on early exits too |
| LineageTypeScript.VerifyLineage | implementations/typescript-core-20260516/src/lineage.ts:3-34 | the search starts with empty sets at the root |
| LineageTypeScript.WalkNodeExplained | implementations/typescript-core-20260516/src/lineage.ts:11-31 | for any store, every call extends a topological order of finished bundles and restores the active path, or yields a path from the root that shows the cycle, the unresolved reference, the missing id or the excess length |
| LineageTypeScript.WalksInOrder | implementations/typescript-core-20260516/src/lineage.ts:18-27 | references are walked from left to right: walking a list in two parts, the second with the sets that the first leaves behind, is walking the whole |
| LineageTypeScript.AnswerIsRight | implementations/typescript-core-20260516/src/lineage.ts:3-34 | for every store and budget: "lineage-invalid" is right and shown by a path within the budget, exhaustion means a path with one level more than the budget and different ids before its end, and "verified" is right exactly when reachable bundles that claim one id are all sound or all not |
| LineageTypeScript.DecidesOnDistinctClaims | implementations/typescript-core-20260516/src/lineage.ts:3-34 | under whatever keys, if entries that claim one id are one bundle, the answer is "verified" for a sound lineage and "lineage-invalid" otherwise, given room for all ids |
| LineageTypeScript.AnswerIsRightOnKeyed | implementations/typescript-core-20260516/src/lineage.ts:3-34 | with bundles under their own ids, for every budget: both verdicts are right, and exhaustion means a walk with more parent levels than the budget that repeats nothing before its end |
| LineageTypeScript.AnswerIsExact | implementations/typescript-core-20260516/src/lineage.ts:3-34 | with a budget of the number of distinct ids the answer is "verified" if the lineage is valid and "lineage-invalid" otherwise, never exhaustion |
| LineageTypeScript.VerifiedRestoresColours | implementations/typescript-core-20260516/src/lineage.ts:28-30 | after a verified run on any store nothing is being visited, and what was visited contains the root and is closed under parents |
| LineagePython.VerifyLineage | python/proofbundle/lineage.py:40-90 | the loop with its early returns and copied set answers as the recursive specification |
| LineagePython.BuildParentMap | python/proofbundle/verify.py:376-382 | the loop fills the map as specified and fails on an unknown algorithm |
| LineagePython.ParentMapIs | python/proofbundle/verify.py:376-382 | for every list, the map fails if some digest does, and otherwise answers the last bundle of an id and digest |
| LineagePython.ParentMapIsIndex | python/proofbundle/verify.py:376-385 | with distinct ids, looking up an id and digest finds exactly the bundle of that id when it has that digest |
| LineagePython.CheckIsExact | python/proofbundle/lineage.py:40-90 | with budgets that have room for all ids, Python says valid if and only if all references resolve, no path repeats a supplied bundle, and the root's id comes again at most at a supplied bundle without references |
| LineagePython.PythonAgainstTypeScript | python/proofbundle/lineage.py:52-65 | with room for all ids, TypeScript says "verified" if and only if Python says valid and no bundle above the root claims the root's id; they differ only when a supplied bundle without references claims it |
| LineagePython.PassesAlong | python/proofbundle/lineage.py:60-90 | a call that succeeds has resolved every reference of every bundle it reaches, and compared the id of every one that has references with all before it |
| PythonFaults.VerdictIsFirstFault | python/proofbundle/lineage.py:40-90 | on every input the verdict is the first fault in the order in which references are read (a missing parent, an unknown algorithm, a wrong digest, too many ids on the way, an id met on the way, or too many nested calls), and "valid" if and only if no position has one |
| LineageGo.VerifyParentChain | go/lineage.go:58-99 | one call extends the shared visited set, or fails, as specified |
| LineageGo.VerifyLineage | go/lineage.go:31-56 | the run over all root references answers as specified, with 100 for a non-positive limit |
| LineageGo.ChaseAllExact | go/lineage.go:58-99 | the shared set accepts exactly when the unfolding exists, repeats nothing and avoids the set, and grows by exactly the unfolded ids |
| LineageGo.AcceptsIffUnfoldsOnce | go/lineage.go:31-99 | nil exactly when all references of the full unfolding match within the limit and every parent id occurs once |
| GoFaults.ErrorIsFirstFault | go/lineage.go:31-99 | on every input the error is the first fault in the order in which references are read (too deep, an id that a reference read before has, a missing parent, a digest that fails or differs), with 100 for a limit that is not positive, and nil if and only if no position has one |
| LineageGo.RootNotRevisited | go/lineage.go:46-53 | after acceptance no path returns to the root itself, although the root is never entered in the visited set; its id comes again if and only if it is among the parent ids |
| LineageGo.AcceptanceIsSound | go/lineage.go:31-99 | acceptance implies that all references resolve, no path repeats a parent and none exceeds the limit; the lineage is valid if and only if the root's id is not among the parent ids |
| LineageGo.AcceptsIffValidAndUnshared | go/lineage.go:31-99 | with room for all ids Go accepts exactly the lineages that resolve, repeat no parent on a path and reach none twice; of these, those without the root's id among the parent ids are exactly the valid ones |
| LineageGo.GoAgainstTypeScript | go/lineage.go:31-99 | what Go accepts, the TypeScript search verifies if and only if the root's id is not among the parent ids |
| LineageRust.LineageChain.Push | cli/src/lineage.rs:118-127 | the chain grows by one bundle and the visited ids by its id, if it has one |
| LineageRust.ResolveLineage | cli/src/lineage.rs:69-125 | the loop returns the specified chain, whose visited set is the set of its ids, or the specified error; it ends because the chain grows towards the limit |
| LineageRust.ResolveExact | cli/src/lineage.rs:69-125 | resolution succeeds if and only if there is a first-parent chain below the limit that ends without parents and repeats no name, and it returns the only one |
| LineageRust.ResolveErrorIff | cli/src/lineage.rs:69-125 | resolution fails with an error if and only if the chain of first parents comes to a bundle that stops it with that error |
| LineageRust.ResolvedIsWellFormed | cli/src/lineage.rs:69-125 | a resolved chain starts at the leaf, ends at a root, is shorter than the limit and has distinct ids |
| LineageRust.ValidateLineage | cli/src/lineage.rs:186-214 | accepts exactly the non-empty chains in which each bundle names the id of the next |
| LineageRust.ValidatesIff | cli/src/lineage.rs:186-214 | a chain validates if and only if it is not empty and every bundle but the last has the id of the next one, or "" when that has none, among its parents |
| LineageRust.ResolvedValidates | cli/src/lineage.rs:186-214 | with a resolver whose answers carry the requested id, as far as they resolve themselves, every resolved chain validates |
| LineageRust.ResolvedValidatesIff | cli/src/lineage.rs:186-214 | every resolved chain validates, for every leaf and limit, if and only if the resolver answers each request with a bundle of that id, or with one that does not resolve itself |
| LineageRust.NamelessParentFailsValidation | cli/src/lineage.rs:199-205 | a concrete resolver under which a resolved chain fails validation |
| LineageOrders.AlwaysVerifiedIff | implementations/typescript-core-20260516/src/lineage.ts:18-29 | for every store and budget, the search says "verified" in every order of references if and only if the lineage is sound and no path has more levels than the budget |
| LineageOrders.ExhaustedInSomeOrderIff | implementations/typescript-core-20260516/src/lineage.ts:12 | a sound lineage is "resource-exhausted" in some order of references if and only if some path has more levels than the budget |
| LineageOrders.BudgetBoundsWalksIff | implementations/typescript-core-20260516/src/lineage.ts:12-16 | with bundles under their own ids, the budget bounds every walk of a valid lineage if and only if the search verifies it in every order of references |
| LineageLimits.MemoOutrunsBudget | implementations/typescript-core-20260516/src/lineage.ts:12-16 | for every budget of at least two and every number of ids beyond it by two, a verified lineage with a walk of more levels than the budget |
| LineageLimits.BudgetBoundsIff | implementations/typescript-core-20260516/src/lineage.ts:12-16 | the budget bounds the walks of all verified lineages over n ids if and only if it is below two or at least n - 1 |
| LineageLimits.DecidesAllIff | implementations/typescript-core-20260516/src/lineage.ts:13-21 | over a given store the search decides soundness, for every root with an id of its own and room for all ids, if and only if any two citable entries that claim one id are both sound or both not |
| LineageLimits.AliasedIdsHideReferences | implementations/typescript-core-20260516/src/lineage.ts:15-21 | a store on which it does not: two entries claim one id, one has no references, the other has one that resolves nowhere |
| LineageLimits.GoRefusesDiamonds | go/lineage.go:63-65 | a valid lineage that Go refuses |
| LineageLimits.RootIdReclaimed | python/proofbundle/lineage.py:53-55 | a root that cites a supplied bundle with the root's id and no references: Python says valid, Go nil and TypeScript "lineage-invalid" |
| Merkle.ReduceLevel | 2026-04-19_proofbundle_ui_genesis.html:836-845 | one pass combines neighbours and promotes an odd last node, with half as many hashes as nodes, rounded down |
| Merkle.RunLoop | compute_manifest.py:100-116 | the loop computes the specified root with exactly n - 1 node hashes for every n |
| Merkle.SplitPointUnique | 2026-04-19_proofbundle_ui_genesis.html:825-848 | the split point is the only power of two k with k < n <= 2k, as section 2.1 of RFC 6962 asks |
| Merkle.PassKeepsTreeHash | 2026-04-19_proofbundle_ui_genesis.html:836-845 | one pass of pairing and promotion does not change the recursive tree hash |
| Merkle.LoopIsTreeHash | 2026-04-19_proofbundle_ui_genesis.html:835-847 | the bottom-up loop equals the top-down recursive hash for every non-empty level and every way to combine two nodes |
| Merkle.ComputeMerkleRoot | 2026-04-19_proofbundle_ui_genesis.html:826-848 | zero bytes for no leaves, otherwise the loop over the tagged leaf hashes; `MerkleRootIsRfc6962` fixes the tags and the order |
| Merkle.MerkleRootIsRfc6962 | 2026-04-19_proofbundle_ui_genesis.html:826-848 | the page's root is the Merkle tree hash of RFC 6962, with the bytes 0 and 1 before leaves and nodes spelled out, and 32 zero bytes for the empty list |
| Merkle.ExtractCollision | 2026-04-19_proofbundle_ui_genesis.html:828-840 | two different lists of any lengths with one root give two different hashed strings with one digest |
| Merkle.MerkleRootBinds | 2026-04-19_proofbundle_ui_genesis.html:826-848 | equal roots mean equal lists, or a collision among the strings hashed for them |
| Manifest.SortedUnique | compute_manifest.py:98 | sorted lists of the same digests are equal |
| Manifest.ComputeManifestRoot | compute_manifest.py:85-116 | the loop over the sorted digests computes the root with n - 1 hashes, none for an empty list |
| Manifest.ManifestRootIsPairTree | compute_manifest.py:85-116 | the root is the tree over the same digests in ascending byte order, each node the hash of left followed by right, and 32 zero bytes for none |
| Manifest.OrderIrrelevant | compute_manifest.py:98 | permuting the files never changes the root |
| Manifest.ManifestRootBinds | compute_manifest.py:85-116 | equal roots over lists of one length mean equal multisets, or a collision among the hashed pairs |
| Manifest.LengthIsNotBound | compute_manifest.py:106-108 | over lists of different lengths the untagged root does not bind: every list has the root of the single digest that is its root |
| Boundary.Evaluate | go/boundary.go:421-473 | the loops with their early returns evaluate as the short-circuit specification |
| Boundary.AllIs | go/boundary.go:421-440 | "all" is true if and only if every child is; otherwise its answer is that of the first child that is not true |
| Boundary.AnyIs | go/boundary.go:442-461 | "any" is false if and only if every child is; otherwise its answer is that of the first child that is not false |
| Boundary.EagerAllIs | implementations/typescript-core-20260516/src/boundary.ts:46-52 | on every tree, faulty or not: an exception in any child is one of the whole, the value is the conjunction of all children's, and the error that of the first child with one |
| Boundary.EagerAnyIs | implementations/typescript-core-20260516/src/boundary.ts:53-59 | the same with the disjunction |
| Boundary.EagerExact | implementations/typescript-core-20260516/src/boundary.ts:37-63 | no error exactly when no leaf faults and the remaining depth suffices, and then the value is the tree's truth |
| Boundary.ShortOnClean | go/boundary.go:421-473 | without faulty leaves short-circuiting does not change the truth value |
| Boundary.ReordersKeepsMeaning | go/boundary.go:421-461 | reordering children at every level keeps truth and absence of faults |
| Boundary.ExposeFault | go/boundary.go:421-461 | a faulty leaf anywhere has an order of children in which evaluation reaches it and fails |
| Boundary.EagerSucceedsIffAllOrdersSucceed | implementations/typescript-core-20260516/src/boundary.ts:37-63 | the eager evaluator reports no error if and only if nesting is within the limit and the short-circuit one succeeds under every reordering at every level |
| Boundary.AllOrdersAgree | go/boundary.go:421-473 | and then every order gives the eager truth value |
| Boundary.ShortCircuitHidesFaults | go/boundary.go:435-437 | in its own order the short-circuit evaluator may succeed where the eager one reports an error |
| Boundary.FailsIff | go/boundary.go:421-473 | the short-circuit evaluator fails if and only if it meets a faulty leaf before the value is settled, in its own order |
| Boundary.OwnOrderAgreesIff | go/boundary.go:421-473 | in its own order it gives the eager answer, failure or value, if and only if it meets a fault, or no leaf faults and the nesting is within the limit |
| PythonBoundary.EvaluateBoundary | python/proofbundle/boundary.py:281-313 | the special loop and the general case give the specified verdict; `AllVerdict` and `AtomVerdict` say which that is |
| PythonBoundary.AllIs | python/proofbundle/boundary.py:260-263 | "all" is true if and only if every item is; otherwise it is what the first item that is not true evaluates to |
| PythonBoundary.AnyIs | python/proofbundle/boundary.py:265-268 | "any" is false if and only if every item is; otherwise it is what the first item that is not false evaluates to |
| PythonBoundary.AtomIs | python/proofbundle/boundary.py:75-278 | for each of the sixteen operators by name, and for any other, what an atom evaluates to |
| PythonBoundary.AllVerdict | python/proofbundle/boundary.py:298-306 | with a top-level "all": "pass" if and only if every item is true, "fail" if and only if the first that is not is false, "indeterminate" otherwise |
| PythonBoundary.AtomVerdict | python/proofbundle/boundary.py:307-313 | without one: "pass" or "fail" if and only if the boundary evaluates to true or false |
| PythonBoundary.ValidateAtoms | python/proofbundle/verify.py:83-102 | the nested loops with early returns accept exactly the boundaries whose atoms all have known names |
| PythonBoundary.ValidAtomsIff | python/proofbundle/verify.py:83-102 | a boundary is accepted if and only if everything nested in it is a dictionary whose keys are among the sixteen names |
| PythonBoundary.ValidationIsAdequate | python/proofbundle/verify.py:83-102 | after validation, no nested atom at any depth evaluates to the unknown-operator error |
| PythonBoundary.RejectionIsJustified | python/proofbundle/verify.py:83-102 | a rejected boundary contains something that is not an atom or an operator outside the list |
| PythonBoundary.TopLevelAllAgrees | python/proofbundle/boundary.py:298-306 | the special loop agrees with the evaluator if and only if "all" is the only key, its operand is no list, or the first atom that is not true is an error |
| PythonBoundary.AllFailsIff | python/proofbundle/boundary.py:260-263 | "all" raises if and only if the first of its atoms that is not true is an error |
| PythonBoundary.FurtherKeysAreIgnored | python/proofbundle/boundary.py:298-306 | a boundary that survives pre-validation, passes in the loop and is indeterminate in the evaluator |
| PythonBoundary.NotTakesAnArrayIff | python/proofbundle/boundary.py:270-275 | read as taking an array of one operand, "not" does what it should except exactly on the empty list and on several operands of which the first evaluates |
| PythonBoundary.NotTakesAnAtomIff | python/proofbundle/boundary.py:270-275 | read as taking the atom itself, it does what it should exactly where nothing can be decided: on an atom that fails, a non-empty list whose first item fails, and what is neither |
| PythonBoundary.BareNotIsIndeterminate | python/proofbundle/boundary.py:270-275 | the operand of the conformance vectors, a bare "equals" atom: indeterminate, where the opposite of the atom is due |
| PythonBoundary.NotAcceptsOperandCounts | python/proofbundle/boundary.py:270-275 | two boundaries of these kinds that survive pre-validation and pass |
| Der.ComputeInt | implementations/typescript-core-20260516/src/signature.ts:21-28 | the scan and the padding give tag, low byte of the length, and stripped content |
| Der.ComputeSignature | implementations/typescript-core-20260516/src/signature.ts:20-41 | a strict decoder reads both integers back from the assembled bytes and consumes them all, if and only if neither integer needs more than 127 content octets |
| Der.MinimalUnique | implementations/typescript-core-20260516/src/signature.ts:22-26 | minimal content octets are determined by the integer they denote |
| Der.RoundTripIff | implementations/typescript-core-20260516/src/signature.ts:20-41 | a strict decoder recovers both integers and consumes all if and only if neither needs more than 127 content octets |
| Der.EncodedIntIs | implementations/typescript-core-20260516/src/signature.ts:21-28 | for every integer of any length: the tag, the low byte of the length, and the only minimal content octets of its value |
| Der.EncodedSignatureIs | implementations/typescript-core-20260516/src/signature.ts:29-41 | the length in front reads as that of both integers below 65536, and keeps only its low sixteen bits from there on |
| Der.LongIntegersDoNotReadBack | implementations/typescript-core-20260516/src/signature.ts:27 | a longer integer never reads back, because its length is written as one byte |
| Der.RoundTripForCurves | implementations/typescript-core-20260516/src/signature.ts:20-41 | the round trip holds for all r and s of at most 126 bytes |
| Der.NoTwoOctetLength | implementations/typescript-core-20260516/src/signature.ts:33-39 | up to 66 bytes each, the two-octet length form never occurs |
| Decimal.CanonicalNumber | implementations/typescript-core-20260516/src/canonical.ts:20-49 | the literal assembled by the branches and replacements denotes exactly mantissa times ten to the exponent |
| Decimal.ScientificKeepsValue | implementations/typescript-core-20260516/src/canonical.ts:26-35 | the scientific form denotes the number exactly, for every exponent |
| Decimal.PositionalKeepsValue | implementations/typescript-core-20260516/src/canonical.ts:36-48 | so does the positional form, after its zeros are stripped |
| Decimal.FormatKeepsValue | implementations/typescript-core-20260516/src/canonical.ts:20-49 | for every sign, fifteen-digit mantissa and exponent the literal denotes mantissa times ten to the exponent |
| Decimal.FormatInjective | implementations/typescript-core-20260516/src/canonical.ts:21-49 | different signs, fifteen digits or exponents are printed differently |
| Decimal.FormatIsScientific | implementations/typescript-core-20260516/src/canonical.ts:26-35 | for exponents below -4 and above 14, the literal character by character: first digit, point, other significant digits, exponent |
| Decimal.FormatIsLarge | implementations/typescript-core-20260516/src/canonical.ts:36-48 | for exponents from 0 to 14: the digits before the point, and after it the significant ones if any |
| Decimal.FormatIsSmall | implementations/typescript-core-20260516/src/canonical.ts:36-48 | for exponents from -4 to -1: a zero, the point, the zeros behind it, the significant digits |
| Seal.UnhexHex | cli/src/seal.rs:121-123 | hexadecimal text decodes to the bytes it was made from |
| Seal.HexAt | cli/src/seal.rs:123 | every byte is written as two digits of "0123456789abcdef", the high half first |
| Seal.UnhexIff | cli/src/verify.rs:248-257 | a text decodes to given bytes if and only if it spells them out, two digits a byte in either case |
| Seal.CanonicalSurvivesAsString | cli/src/seal.rs:61-64 | canonical bytes stored as a string and taken out again are unchanged, so the digest can be recomputed |
| Seal.SealBundle | cli/src/seal.rs:36-131 | the field-by-field construction, canonicalisation and signature give the specified bundle or error; `SealedBundles.SealedIff` says which bundle that is |
| Seal.SealsIffSafe | cli/src/seal.rs:36-131 | with known algorithms and a working key, sealing succeeds if and only if the payload is JSON and payload, boundary and attestations hold only safe integers |
| Seal.BundleCell.ReSign | cli/src/seal.rs:134-156 | the bundle is replaced by the re-signed one; on failure the old signature is gone and nothing else changed |
| Seal.SignedBytesDetermineBundle | cli/src/verify.rs:231-246 | bundles with equal signed bytes agree on every field except the signature |
| Seal.TamperingChangesSignedBytes | cli/src/verify.rs:231-246 | adding, removing or changing any other field changes the signed bytes |
| Seal.ReSignKeepsFields | cli/src/seal.rs:134-156 | re-signing changes the signature field and nothing else |
| SealedBundles.SealedIff | cli/src/seal.rs:36-131 | sealing answers a bundle if and only if it has these contents: the listed fields and no others, the canonical text and its lower-case digest, each option that was given, in the given order, and a signature of all other fields |
| SealedBundles.InvalidParameterIff | cli/src/seal.rs:44-77 | the digest of the payload is unknown, or that of the boundary after that of the payload was taken |
| SealedBundles.CanonicalFailedIff | cli/src/seal.rs:42-119 | an unsafe number in the payload, or then in the boundary, or then in the attestations |
| SealedBundles.SigningFailedIff | cli/src/seal.rs:118-122 | the bundle is built and encoded, and the key does not sign |
| SealedBundles.ReSignedIff | cli/src/seal.rs:134-156 | a re-signed object is the old one with a signature of its other fields |
| SealedBundles.ReSignErrorIff | cli/src/seal.rs:134-156 | re-signing fails with the error of the encoding, or when the key does not sign; what is no object stays as it is |
| Verify.ComputeBundleDepth | cli/src/verify.rs:475-493 | the result is the least bound on the nesting depth |
| Verify.SignatureCheckPasses | cli/src/verify.rs:218-266 | a signature that verifies over the stripped canonical bytes, stored as hexadecimal, passes the check |
| Verify.BoundaryCheckExact | cli/src/verify.rs:314-365 | on a sealed boundary the digest matches, and the check denies exactly when a context is given on which the boundary fails to evaluate |
| Verify.CommitmentCheckExact | cli/src/verify.rs:367-408 | a sealed commitment passes exactly when a context is given that encodes and whose digest it is |
| Verify.VerifyBundle | cli/src/verify.rs:47-472 | the early returns, with the signature stripped from a copy, yield the specified exit code; `ExitCodes` says which that is for the fields of the bundle |
| ExitCodes.DepthIsLongestChain | cli/src/verify.rs:475-493 | the nesting depth is the length of the longest chain of values, each inside the one before |
| ExitCodes.ExitCodeIsFirstFault | cli/src/verify.rs:47-472 | the exit code of a bundle is that of its first fault in a table of thirteen, stated on its fields, and 0 if and only if it has none |
| ExitCodes.VerifiedIffAccepted | cli/src/verify.rs:47-472 | exit code 0 if and only if: version, required fields, size, depth and profile fit; with a key, the decoded signature verifies over the canonical text of the other fields; payload, boundary and context have the recorded lower-case digests; attestations have types; the time is not past the expiration; parents are not an empty list where required |
| ExitCodes.ForgedSignatureExits11 | cli/src/verify.rs:259-265 | with nothing wrong before it, a decoded signature that does not verify exits with 11 |
| ExitCodes.Exit11Iff | cli/src/verify.rs:218-408 | exit code 11 if and only if the first fault is the signature, or the digest of the payload, the boundary or the context |
| Verify.SealedFields | cli/src/seal.rs:47-128 | each field of a sealed bundle by name; stripping the signature gives back exactly what was signed |
| Verify.SealThenVerify | cli/src/verify.rs:47-472 | for every payload and options, a sealed bundle verifies under the matching key if and only if profile, context, commitment, attestations, expiration, size and depth are acceptable |
| Verify.ReSignedPassesSignatureCheck | cli/src/seal.rs:134-156 | a bundle re-signed with the algorithm it declares passes the signature check |
| Verify.BoundaryVerdict | cli/src/verify.rs:354-363 | a sealed bundle with boundary and context, acceptable otherwise, is verified when the boundary evaluates, to either value, and policy-denied when it fails to |
| Verify.VerifiedMeansTrueIff | cli/src/verify.rs:354-363 | on such a bundle, being verified means that the boundary is true if and only if the boundary does not evaluate to false |
| Verify.BoundaryTruthIsIgnored | cli/src/verify.rs:355-363 | exchanging the truth values of boundaries, but not whether they evaluate, changes no exit code of any bundle |
| Verify.FalseBoundaryIsAccepted | cli/src/verify.rs:355-363 | payload null under the boundary that "x" equals true is sealed, and verifies in a context where "x" is false, with a library that parses JSON and evaluates "equals" |
| Verify.ApprovalMissedIff | cli/src/verify.rs:177-195 | missing approval is reported if and only if the profile is "full" and the attestations are an object that requires approval and holds an array without one |
| Verify.SealedNeverMissesApproval | cli/src/seal.rs:99-106 | hence never on a sealed bundle, whose attestations are an array |
| Verify.ApprovalLooksForAnObject | cli/src/verify.rs:179-193 | one requirement that is reported as an object and passed over as an array |
| GoPipeline.Trace.Report | go/verify.go:102-110 | a stage appends one step under its own name and keeps what was there |
| GoPipeline.StageSchema | go/verify.go:127-190 | passes exactly when all fifteen fields are present |
| GoPipeline.CompareBytes | go/verify.go:486-495 | true exactly for equal byte strings |
| GoPipeline.StageIntegrity | go/verify.go:253-282 | passes exactly when the canonical digest is the decoded seal digest |
| GoPipeline.StageSignature | go/verify.go:285-322 | passes exactly when key and signature decode and the signature holds; `GoAcceptance.StageChecks` spells it out |
| GoPipeline.StageBoundary | go/verify.go:325-359 | an absent boundary passes; a false one and a failing one are told apart |
| GoPipeline.StageSideInfo | go/verify.go:362-391 | passes exactly when nothing is required, or attestations are there and all name an authority |
| GoPipeline.StageLineage | go/verify.go:394-416 | passes exactly when the profile asks for no lineage or the lineage check returns nil |
| GoPipeline.StageHitl | go/verify.go:419-483 | passes exactly when the profile asks for no approval or there is a complete, unexpired one |
| GoPipeline.VerifyBundle | go/verify.go:24-99 | trace and outcome are those of the first failing stage, or of none; `GoAcceptance` says what each stage asks of the bundle |
| GoPipeline.TraceFollowsStages | go/verify.go:24-99 | consequently traces follow the fixed order, only the last step may have failed, and "verified" holds exactly when all twelve stages pass and "complete" follows |
| GoPipeline.OutcomeIsReadOff | go/verify.go:24-99 | the documented table from the last step of the trace to the outcome, with two outcomes for the boundary stage, gives the outcome of every run |
| GoPipeline.LastStepTellsTheOutcome | go/verify.go:24-99 | two runs whose traces end at one stage, with one evaluation at the boundary stage, have the same outcome and trace |
| GoPipeline.NotDefinedIff | go/verify.go:51-53 | "not-defined-in-this-version" if and only if parsing, budget, schema and version pass and the profile is none of three or not the one asked for |
| GoPipeline.IntegrityProfileIsNotVerified | go/verify.go:11-15 | no bundle of profile PB-INTEGRITY-1 is ever verified |
| GoPipeline.IntegrityProfileIsRefused | go/verify.go:215-223 | a complete bundle of that profile ends at the profile stage |
| GoPipeline.AcceptanceGuarantees | go/verify.go:24-99 | acceptance implies that the digest of the canonical bytes is the decoded one, that the signature verifies under the imported key, that the boundary is absent or true, and that authorities and approval are there |
| GoAcceptance.StageChecks | go/verify.go:101-483 | each stage, once those before it have passed, passes if and only if its requirement on the fields of the bundle is met |
| GoAcceptance.VerifiedIffMeetsAll | go/verify.go:24-99 | "verified" if and only if all twelve requirements are met, and so for every bundle with all fields, matching digest and signature, true or absent boundary, authorities, lineage and approval as the profile asks |
| GoAcceptance.FirstUnmetDecides | go/verify.go:24-99 | the first requirement that is not met decides the outcome by name, and the trace is that of the requirements before it, passed, and of itself, failed |
| GoAcceptance.VerifiedTrace | go/verify.go:24-99 | a verified bundle leaves the twelve names in order and "complete", all passed |
| GoAcceptance.VerifiedIsSigned | go/verify.go:253-322 | in particular a verified bundle has a signature that verifies over its canonical bytes, and their digest |
| GoPipeline.AcceptedLineage | go/verify.go:394-416 | under a lineage profile, acceptance implies that the lineage resolves, repeats no parent on a path and stays within the limit; it is valid if and only if the bundle's own id is not among the parent ids |
| GoPipeline.AcceptedBoundaryIsTrue | go/verify.go:325-359 | on a boundary without faulty atoms, acceptance implies truth in every order of evaluation |

## Left out

Abstracted into parameters:

- Cryptography, base64, key import and hash algorithms: functions with the one law above.
- Unicode NFC: an arbitrary function `nfc`, idempotent in `NormalForms`; the agreement theorems hold for every one.
- Time stamps and clocks: parsing is a function into integers, the current time an integer.
- Leaf atoms of boundaries (equals, range, age, windows): an oracle that may fail, as they differ between implementations.
- `serde_json` parsing and printing: payload parsing is a function, and the printed size of a bundle is a number.
- `toExponential(14)`: `Decimal` starts from its sign, fifteen digits and exponent.

Simplified:

- Utf8.SortKeysUnique: the library sort of the key vector is not modelled step by step; any algorithm that returns the sorted enumeration gives the same keys.
- Canonical.WriteValue: integers are known by value, so the literal `-0`, which `serde_json` reads as a float, is taken as 0; failures of the output stream do not occur in a buffer.
- CanonicalPorts.TypeScriptAgrees: numbers that the tool refuses (`TypeScriptScalars` says how TypeScript prints them) are not part of the comparison, and lone surrogates cannot be written as a Dafny string; error paths of `canonical` for values that are not JSON are left out.
- PythonCanonical.PythonAgrees: tuples count as lists, paths in error messages, lone surrogates and unsupported types are left out.
- LineageTypeScript.AnswerIsExact: bundles are stored under their own ids (`DecidesAllIff` says which other stores do); references without a digest field and inherited property names of the lookup object are left out.
- LineagePython.PythonAgainstTypeScript: distinct non-empty ids of the supplied bundles, a root with an id, one digest algorithm and honest seal digests are required, since the two look parents up by different keys and compare different digests; Python's own limit on nested calls is the parameter `frames`.
- LineageGo.AcceptanceIsSound: the same hypotheses link Go's content digests to the seal digests in the definition of a valid lineage; `AcceptsIffUnfoldsOnce` needs none.
- LineageRust.ResolveLineage: the resolver is a function, so one that answers differently on a second call is not covered; the DOT and text printers are left out.
- Merkle.ComputeMerkleRoot: leaves are the encoded byte strings; leaves that the page first turns into JSON are not.
- Manifest.ComputeManifestRoot: digests are bytes; the conversion from and to hexadecimal is left out.
- Boundary.EagerSucceedsIffAllOrdersSucceed: nodes are well-formed all/any/not trees with one key; a node with several keys, which Go refuses and TypeScript reads by its first known key, is a leaf to the oracle.
- Seal.CanonicalSurvivesAsString: the replacement of invalid UTF-8 is modelled byte by byte, which no canonical text ever reaches.
- Verify.VerifyBundle: exit codes without messages; the `parents` option of the configuration is unused by the code; signatures of side attestations are not checked by it either.
- GoPipeline.VerifyBundle: the detail texts of trace steps are left out; a missing reference time is the caller's clock.

Not modelled: the Go canonical encoder (its `\u` escape is not padded, go/canonical.go:156-158), the
UTF-16 key order of core/src/canonical.ts, the near-duplicate TypeScript core and second Go core, key
handling, conformance runners, the HTTP server, the applications and the rest of the browser page:
input and output, or repetitions of what is here.
