# Verified model of the evidence tool

This project models the algorithms with which the tool builds, seals and checks
evidence bundles, and proves what they promise. It is written in Dafny 4.11;
`dafny verify dfyconfig.toml` checks everything.

| files | what they model |
|---|---|
| `Wrappers`, `Ordering`, `Text` | optional values and results; sorting, deduplication, order-free folds; bytes, UTF-8, decimal numbers |
| `PdfWriter`, `PdfReader`, `PdfRoundTrip`, `PdfShortStream`, `PdfDocument` | the PDF fixture writer, a reader that follows ISO 32000-1:2008 for file structure, streams and strings (sections 7.3.4.2, 7.3.8.2, 7.5.2, 7.5.4, 7.5.5, 9.6.2.2), and the round trip between them |
| `CargoGraph`, `BoundaryCheck`, `BoundaryRules`, `CargoMetadata`, `ProjectionGraph` | the dependency-graph rules: the breadth-first search, the build-script and proc-macro rules, and the projection stored in a bundle |
| `Nextest`, `NextestSummary`, `NextestReconcile`, `NextestLoss`, `NextestIdentity`, `NextestRecords` | the reduction of a nextest stream and its cross-check |
| `Encoding`, `Manifest`, `BundleSealing`, `SealingRuns`, `Integrity`, `ManifestLayer` | sealing a bundle: encodings, the manifest text, finalize/record/sign over a mutable directory, and the verifier's integrity steps |
| `Corpus`, `SourcePatch`, `Lifecycle`, `Supersession`, `ApprovalBoundary`, `ApprovalExactness`, `EffectiveGraph`, `EffectiveExample` | the corpus graph, the review lifecycle, the approval gate and the effective source graph |
| `Capture`, `ParentRollup`, `Jsonl`, `JsonlConsumer`, `Compliance` | line-ending normalisation, the parent roll-up, the JSON-lines protocol from both ends, and the compliance report |

Code that works step by step is a method with loops (and a class where the source
mutates an object); each method is proved equal to a function or a declarative
predicate, and the lemmas are about those.

Bytes are characters below 256, so a byte string is a `string`. A bundle
directory is a map from path to bytes. SHA-256, ed25519, JSON printing and
parsing, the structural source-graph operations and their validators are function
parameters; what a theorem assumes of them is stated in its `requires`. A hash is
never assumed injective as a whole: theorems that need it say that the inputs
compared do not collide.

## Where the code and its own text differ

The model follows the code.

- `tools/gen-pdf-acceptance-fixtures.py` writes `/Length` as a count of
  characters, not of bytes; the file is right exactly when every text is ASCII
  (`PdfRoundTrip.FileRoundTrip`, `PdfDocument.DocumentRoundTrip`).
- `corpus/effective_graph.rs` (lines 20-24) says that two approved patches on one
  revision cannot both apply. They can when the first leaves the graph as it is;
  the exact condition is `EffectiveGraph.ProducibleExactly` and a family of
  examples, accepted by the approval gate, is
  `EffectiveExample.TwoApprovedPatchesCompose`.
- `subprocess.rs` (lines 225-228) says that the malformed-line marker stays the
  terminal code. The last line with a code wins (`JsonlConsumer.MarkerLasts`).
- `cli/verify.rs` (lines 354-361) says that runtime errors emit no terminal event.
  They emit `VERIFY_ERROR` (`Jsonl.TerminalMatchesExit`).
- `hash.rs` (lines 177-183) lists two files left out of the manifest; the code also
  leaves out `BUNDLE.sig` (`SealingRuns.ManifestListsContent`).
- `verify/bundle.rs` (lines 25-36, step 7) says that no unexpected file exists
  outside the manifest. The check reads a backslash in a name as a slash, so on
  Unix a file `a\b` beside a listed `a/b` is not reported
  (`Integrity.BackslashEvades`); what is missed is stated exactly in
  `Integrity.TamperEvidentExactly`. For the same reason a bundle sealed with such
  a name may fail its own verification (`Integrity.SealedPassesExactly`).
- Without the guarantee that every dependency is a resolve node, a projection can
  succeed and merge two packages (`ProjectionGraph.AliasedDependency`).

## Model

| member | source | states |
|---|---|---|
| PdfWriter.RenderPdf | tools/gen-pdf-acceptance-fixtures.py:41-85 | the buffer built step by step, with recorded offsets, is the file that the round-trip theorems are about: header, numbered objects, a table of their true positions, a trailer pointing at the table |
| PdfWriter.ContentStream | tools/gen-pdf-acceptance-fixtures.py:56-59 | one text operator per line, joined by newlines, for every page |
| PdfWriter.BuildObjects | tools/gen-pdf-acceptance-fixtures.py:48-69 | catalog, page tree and font, then a page and its content stream for each page, numbered 1 to 3 + 2n in order |
| PdfWriter.WriteObjects | tools/gen-pdf-acceptance-fixtures.py:70-75 | each recorded offset is the buffer position at which its object starts |
| PdfWriter.LargestKey | tools/gen-pdf-acceptance-fixtures.py:77 | the greatest object number on record, which fixes `/Size` |
| PdfWriter.WriteXref | tools/gen-pdf-acceptance-fixtures.py:78-81 | the table holds the free entry and one 20-byte entry per object, in number order |
| PdfRoundTrip.EscapeCons | tools/gen-pdf-acceptance-fixtures.py:37-38 | three replacement passes in sequence escape each character once: no pass escapes an earlier pass's backslash |
| PdfRoundTrip.LiteralRoundTrip | tools/gen-pdf-acceptance-fixtures.py:37-38 | a string reader finds the closing parenthesis the writer wrote and recovers the text up to end-of-line markers |
| PdfRoundTrip.NormalizeEolFixpoint | tools/gen-pdf-acceptance-fixtures.py:37-38 | a text is recovered unchanged exactly when it holds no carriage return |
| PdfRoundTrip.EntryExact | tools/gen-pdf-acceptance-fixtures.py:81 | a table entry reads back as its offset exactly when the offset has at most ten digits |
| PdfRoundTrip.EntriesExact | tools/gen-pdf-acceptance-fixtures.py:80-81 | the whole table reads back exactly when every offset fits |
| PdfRoundTrip.TableExact | tools/gen-pdf-acceptance-fixtures.py:78-84 | table and trailer agree on the number of objects, and parse to the recorded offsets or not at all |
| PdfRoundTrip.StartXrefExact | tools/gen-pdf-acceptance-fixtures.py:82-84 | a reader working back from the end of the file finds the table's position |
| PdfRoundTrip.ReadContentObject | tools/gen-pdf-acceptance-fixtures.py:67-69 | a content stream is recovered exactly when it is ASCII, because `/Length` counts characters |
| PdfRoundTrip.OffsetPoints | tools/gen-pdf-acceptance-fixtures.py:72-75 | the file, read from any recorded offset, starts with that object |
| PdfRoundTrip.HeaderLine | tools/gen-pdf-acceptance-fixtures.py:71-73 | the file starts with the header line for version 1.4, and object 1 right after it |
| PdfRoundTrip.FileRoundTrip | tools/gen-pdf-acceptance-fixtures.py:41-85 | in a file with its header line, following `startxref`, the table and its offsets recovers exactly the objects written, if and only if all texts are ASCII and all offsets have at most ten digits |
| PdfShortStream.TakenSurvives | tools/gen-pdf-acceptance-fixtures.py:59-69 | the bytes a reader takes of a content stream, as many as `/Length` says, read as the page exactly when every text is ASCII and holds no carriage return: a stream cut short never passes for the page |
| PdfDocument.WritableDecodes | tools/gen-pdf-acceptance-fixtures.py:41-85 | every file of ASCII texts with offsets that fit decodes from its catalog, page by page, with the font each page names at hand, to the lines as the standard reads them |
| PdfDocument.DocumentRoundTrip | tools/gen-pdf-acceptance-fixtures.py:41-85 | for any pages, the file decodes to the very pages given if and only if all texts are ASCII, all offsets have at most ten digits and no text holds a carriage return |
| BoundaryCheck.Walk | crates/evidence-core/src/boundary_check.rs:284-316 | one search terminates on cyclic graphs and reports a crate exactly when it is reachable, a workspace member and out of scope |
| BoundaryCheck.FindOutOfScopeDeps | crates/evidence-core/src/boundary_check.rs:252-323 | an error names the first unknown in-scope crate, and occurs only then; otherwise the result is strictly sorted and holds exactly the offending pairs |
| BoundaryCheck.KnownIsMember | crates/evidence-core/src/boundary_check.rs:260-265 | a name is accepted exactly when some workspace member carries it |
| BoundaryCheck.ReportIsReachability | crates/evidence-core/src/boundary_check.rs:252-323 | on unique package ids and member names, the report is all pairs of in-scope crate and out-of-scope member joined by a path, external crates included |
| BoundaryCheck.ReportIsUnique | crates/evidence-core/src/boundary_check.rs:319-322 | order and repetition of the scope list do not change the report |
| BoundaryCheck.ViolationOrder | crates/evidence-core/src/boundary_check.rs:453-469 | the report order is total, so the sorted report is determined by its elements |
| BoundaryCheck.ViolationOrderExactly | crates/evidence-core/src/boundary_check.rs:453-469 | the order is by rule, then crate, then dependency, each in dictionary order |
| CargoGraph.EdgesExactly | crates/evidence-core/src/boundary_check.rs:268-274 | an edge leads from one id to another exactly when the last resolve node with the first id lists the second |
| BoundaryCheck.LastClaimWins | crates/evidence-core/src/boundary_check.rs:258-265 | of several packages with an id, or members with a name, the last one counts |
| BoundaryCheck.NamelessIsUnknown | crates/evidence-core/src/boundary_check.rs:284-316 | a member without a package is reported as unknown |
| BoundaryRules.BuildRsExact | crates/evidence-core/src/boundary_check.rs:404-422 | the build-script report is strictly sorted and names exactly the in-scope packages with a build script |
| BoundaryRules.ProcMacrosExact | crates/evidence-core/src/boundary_check.rs:426-443 | the proc-macro report is strictly sorted and names exactly the in-scope packages with a proc-macro target |
| BoundaryRules.ProcMacroOrderExactly | crates/evidence-core/src/boundary_check.rs:490-494 | the proc-macro report is ordered by crate name |
| BoundaryRules.BuildRsOrderExactly | crates/evidence-core/src/boundary_check.rs:478-482 | the order is by crate name, then by the links key, a missing one first |
| BoundaryRules.RecheckAgrees | crates/evidence-core/src/cargo_metadata.rs:188-236 | both rules, replayed on stored packages in any order, report what the live check reported |
| CargoMetadata.ResolveAll | crates/evidence-core/src/cargo_metadata.rs:157-184 | a dependency list resolves to the set of its identities, or fails at its first unknown id |
| CargoMetadata.IdentityExactly | crates/evidence-core/src/cargo_metadata.rs:157-165 | an identity reads back as name and version, and two packages share one only when they share both, as long as names hold no space |
| CargoMetadata.LastIdentityWins | crates/evidence-core/src/cargo_metadata.rs:160-165 | of several packages with an id, the last one gives the identity |
| CargoMetadata.StoredPackages | crates/evidence-core/src/cargo_metadata.rs:115-140 | the stored packages are all packages projected, sorted by name, equal names in their order |
| CargoMetadata.ProjectResolvedGraph | crates/evidence-core/src/cargo_metadata.rs:157-184 | the loop computes the projection of the node list and stops at the first failure |
| CargoMetadata.ProjectionMeaning | crates/evidence-core/src/cargo_metadata.rs:157-184 | projection succeeds exactly when every id resolves and no two nodes share an identity; keys and edges are then those of the nodes |
| CargoMetadata.ProjectionFailsAt | crates/evidence-core/src/cargo_metadata.rs:157-184 | a failed projection names the first node that cannot be projected and its fault: an id without a package, its own before its dependencies', or an identity already taken |
| ProjectionGraph.ProjectionIsomorphism | crates/evidence-core/src/cargo_metadata.rs:157-184 | a successful projection has the same dependency paths as the resolved graph if and only if no two resolved ids share an identity |
| ProjectionGraph.ClosedIsInjective | crates/evidence-core/src/cargo_metadata.rs:157-184 | when every dependency is a resolve node, success alone implies that condition |
| ProjectionGraph.AliasedDependency | crates/evidence-core/src/cargo_metadata.rs:157-184 | without that closure a projection can succeed and still invent a path |
| ProjectionGraph.ProjectionOrderFree | crates/evidence-core/src/cargo_metadata.rs:115-184 | permuting packages, nodes or dependency lists changes neither success nor the stored graph, nor the package list when names are distinct |
| ProjectionGraph.ConflictingIds | crates/evidence-core/src/cargo_metadata.rs:157-184 | two packages that share a node's id but not its identity: some order of the packages fails or stores another graph |
| ProjectionGraph.OrderFreeExactly | crates/evidence-core/src/cargo_metadata.rs:157-184 | when every dependency is a resolve node, a successful projection succeeds in every package order with the same graph if and only if packages that repeat a resolved id repeat its identity |
| ProjectionGraph.StoredChecksAgree | crates/evidence-core/src/cargo_metadata.rs:115-236 | for every metadata whose projection succeeds, both checks on the projection equal the checks on the metadata |
| Nextest.SumSuites | crates/evidence-core/src/bundle/nextest.rs:209-216 | nested saturating sums over the binaries equal the exact sums clipped once |
| Nextest.SummarizeSuites | crates/evidence-core/src/bundle/nextest.rs:206-228 | every entry of the summary, the total included, is an exact sum clipped once |
| Nextest.ParseNextest | crates/evidence-core/src/bundle/nextest.rs:120-165 | one pass gives the per-binary tallies, one record per named test event sorted by module path and name, and their summary |
| NextestSummary.BinaryKeyInjective | crates/evidence-core/src/bundle/nextest.rs:192-204 | two binaries share a tally key only if they are the same binary, when no field holds NUL |
| NextestSummary.KeysApart | crates/evidence-core/src/bundle/nextest.rs:138-145 | a summary without identity never shares a key with a named binary |
| NextestSummary.AnonymousKeyInjective | crates/evidence-core/src/bundle/nextest.rs:138-145 | summaries without identity never share a key with each other |
| NextestSummary.InvariantHolds | crates/evidence-core/src/bundle/nextest.rs:120-190 | after any stream the tally of every named binary carries its passed and failed sums clipped, its largest ignored and its smallest filtered-out report |
| NextestSummary.SummaryAdds | crates/evidence-core/src/bundle/nextest.rs:170-190 | one more summary adds its passed and failed counts, and counts that do not fit 32 bits as nothing |
| NextestSummary.MaxIgnoredExactly | crates/evidence-core/src/bundle/nextest.rs:167-190 | a binary's ignored figure is the largest one it reported |
| NextestSummary.MinFilteredExactly | crates/evidence-core/src/bundle/nextest.rs:167-190 | its filtered-out figure is the smallest one it reported |
| NextestSummary.SummaryIsExact | crates/evidence-core/src/bundle/nextest.rs:106-228 | every field of the summary is the exact total of the stream clipped at the 32-bit limit, partitions of a binary not counted twice, and `total` the sum of the four clipped once |
| NextestReconcile.Reconcile | crates/evidence-core/src/bundle/nextest.rs:61-104 | one entry for each dimension in which summary and (wrapping) record counts differ, and no other |
| NextestReconcile.WrapsExactly | crates/evidence-core/src/bundle/nextest.rs:77-90 | the record counters count below 2^32 and start over there |
| NextestReconcile.RecordsAreTests | crates/evidence-core/src/bundle/nextest.rs:148-152 | the records count each outcome as often as a named test event reports it |
| NextestReconcile.CaptureOrderFree | crates/evidence-core/src/bundle/nextest.rs:120-165 | permuting the lines never changes the summary, nor the records when no two tests share module path and name |
| NextestReconcile.DiscrepanciesOf | crates/evidence-core/src/bundle/nextest.rs:77-103 | what the cross-check compares, in terms of the stream: clipped suite totals against wrapped event counts |
| NextestReconcile.WellFormedReconciles | crates/evidence-core/src/bundle/nextest.rs:61-76 | a capture whose partitions report disjoint passed and failed counts, at most the ignored count and one of them all of it, reconciles, whatever skipped lines it holds and in any line order |
| NextestLoss.LossIsSeenExactly | crates/evidence-core/src/bundle/nextest.rs:61-104 | whatever such a capture loses, a truncated tail included, the cross-check compares what is left of both sides, and is silent if and only if the lost summaries account for exactly the lost tests |
| NextestLoss.LostSummaryIsSeen | crates/evidence-core/src/bundle/nextest.rs:61-104 | losing one summary is seen in passed and failed by its own counts, and in ignored exactly when it alone carried its binary's full, positive ignored count |
| NextestLoss.LostTestIsSeen | crates/evidence-core/src/bundle/nextest.rs:61-76 | losing any single test event of such a capture gives exactly one discrepancy, in that event's dimension |
| NextestLoss.LostTestsAreSeen | crates/evidence-core/src/bundle/nextest.rs:61-76 | losing any list of test events gives, in each dimension, a discrepancy of exactly the number lost there, and so at least one |
| NextestIdentity.IdentityRoundTrip | crates/evidence-core/src/bundle/nextest.rs:269-304 | a composed test name, with or without a crate and a module chain, either possibly empty, is taken apart into the parts it was made from |
| NextestIdentity.UnqualifiedName | crates/evidence-core/src/bundle/nextest.rs:269-304 | a name without `$` is a test path, with no package and no binary |
| NextestIdentity.UnderscoredAt | crates/evidence-core/src/bundle/nextest.rs:255-268 | the binary keeps every character but dashes, which become underscores |
| NextestRecords.RecordsExactly | crates/evidence-core/src/bundle/nextest.rs:231-253 | the parsed records are one for each named test event, with test, module path, package and binary as the name gives them, the outcome, and the non-empty output of a failure; sorted by module path and name, and stable |
| NextestIdentity.SelectorExact | crates/evidence-core/src/bundle/nextest.rs:269-304 | module path and name rejoin to the trace's selector exactly when the test path does not start with its last separator |
| Encoding.EnvelopeBytes | crates/evidence-core/src/bundle/signing.rs:212-219 | the buffer is the two inputs, each behind its eight-byte big-endian length |
| Encoding.EnvelopeRoundTrip | crates/evidence-core/src/bundle/signing.rs:203-219 | a parser recovers both inputs from the envelope |
| Encoding.EnvelopeInjective | crates/evidence-core/src/bundle/signing.rs:203-219 | equal envelopes mean equal manifest and equal index, whatever characters they hold |
| Encoding.BigEndianRoundTrip | crates/evidence-core/src/bundle/signing.rs:214-216 | an eight-byte length reads back as itself |
| Encoding.FirstByteWeighsMost | crates/evidence-core/src/bundle/signing.rs:214-216 | the first of the length bytes carries the greatest weight |
| Encoding.HexRoundTrip | crates/evidence-core/src/bundle/signing.rs:194-201 | decoding hex gives back every byte string that was encoded |
| Encoding.HexText | crates/evidence-core/src/bundle/signing.rs:194-201 | every byte is written as two lower-case digits, high half first |
| Encoding.HexDecodeExactly | crates/evidence-core/src/bundle/signing.rs:173-192 | what decodes is an even number of hexadecimal digits of either case; an odd number is the only other complaint |
| Encoding.CaseBlind | crates/evidence-core/src/bundle/signing.rs:173-192 | upper-case digits decode as their lower-case forms |
| Encoding.KeyFileRoundTrip | crates/evidence-core/src/bundle/signing.rs:173-201 | a key written to a file reads back unchanged, and is refused at every other length |
| Encoding.ReadHexFileExactly | crates/evidence-core/src/bundle/signing.rs:173-192 | a file reads as `n` bytes exactly when its text, trimmed, is 2n hexadecimal digits |
| Text.DecodeEncode | crates/evidence-core/src/verify/bundle.rs:148-153 | the UTF-8 bytes of the manifest, with names of any characters, read back as its text |
| Manifest.LinesExactly | crates/evidence-core/src/verify/bundle.rs:319 | the verifier's line reader recovers the written lines exactly when none holds a newline or ends in a carriage return |
| Manifest.SplitEntryExact | crates/evidence-core/src/hash.rs:215 | an entry splits into its digest and its path whatever the path holds |
| Manifest.ComponentsPieces | crates/evidence-core/src/verify/bundle.rs:309-372 | a listed path is resolved piece by piece between slashes, empty and `.` pieces skipped |
| Manifest.PlainPathText | crates/evidence-core/src/hash.rs:211-213 | the text of a plain path leads back to that path |
| BundleSealing.Bundle.WriteSha256Sums | crates/evidence-core/src/hash.rs:186-222 | exactly `SHA256SUMS` changes, to the manifest of the content files in path order |
| BundleSealing.Bundle.RecordVerificationState | crates/evidence-core/src/bundle/completeness.rs:310-333 | the new directory, or which read or parse failed with nothing changed |
| BundleSealing.Bundle.SignBundle | crates/evidence-core/src/bundle/signing.rs:227-242 | exactly `BUNDLE.sig` changes, to the signature of the current envelope, or nothing does |
| BundleSealing.Bundle.VerifySignature | crates/evidence-core/src/bundle/signing.rs:250-277 | the verdict on the current envelope, changing nothing; it is reached exactly when the three files are there and the signature text, trimmed, is 128 hexadecimal digits, and each missing file is named |
| BundleSealing.EvidenceBuilder.Finalize | crates/evidence-core/src/bundle/builder.rs:348-494 | a moved repository is refused before anything is written; success, whose exact condition is stated, leaves a sealed bundle with the recipe and metadata as given, every other content file untouched and an index of exactly the two hashes, the initial state and the given rest; each failure names its cause and changes nothing but the metadata file |
| BundleSealing.SumsIgnoreMetadata | crates/evidence-core/src/hash.rs:192-204 | the manifest does not depend on the three metadata files |
| SealingRuns.StepKeepsSeal | crates/evidence-core/src/bundle/completeness.rs:300-333 | one record or signing step keeps the seal and every content file |
| SealingRuns.RunKeepsSeal | crates/evidence-core/src/bundle/builder.rs:342-347 | after any sequence of such steps the recomputed manifest has the same bytes and the index still names their hash |
| SealingRuns.ManifestListsContent | crates/evidence-core/src/hash.rs:186-222 | a sealed manifest lists every file but the three of the metadata layer, once, in strict path order |
| SealingRuns.SignatureBindsEnvelope | crates/evidence-core/src/bundle/signing.rs:244-277 | a signature verifies later exactly when neither manifest nor index has changed |
| SealingRuns.RecordsChangeOneField | crates/evidence-core/src/bundle/completeness.rs:306-309 | recording states changes the index in the last recorded state and nothing else |
| SealingRuns.SignatureTracksIndex | crates/evidence-core/src/bundle/signing.rs:221-277 | after signing and then patching, the signature verifies exactly when `index.json` has the signed bytes again |
| Integrity.ContentLines | crates/evidence-core/src/verify/bundle.rs:309-372 | the verifier reads from a sealed manifest exactly the content files with their digests |
| Integrity.ManifestDetermines | crates/evidence-core/src/hash.rs:207-220 | for file names without newline or backslash, two trees have the same manifest text if and only if they have the same content paths with the same digests |
| Integrity.PassesExactly | crates/evidence-core/src/verify/bundle.rs:147-208 | for a bundle sealed with readable path texts (safe, no newline, no trailing carriage return) and a presented directory of any names: the integrity steps pass exactly when every listed text leads to a file with the sealed digest and every content file bears a listed text |
| Integrity.TamperEvidentExactly | crates/evidence-core/src/verify/bundle.rs:147-208 | with manifest and index of a bundle of plain names untouched, a presented directory of any names passes if and only if it keeps all sealed content with its digests and each content file, backslashes read as slashes, bears a sealed path text |
| Integrity.TamperEvident | crates/evidence-core/src/verify/bundle.rs:147-215 | with manifest and index untouched and no backslash in a name, the integrity steps pass exactly when no content file was added, removed or given another digest, and verification then rests on the other checks alone |
| Integrity.BackslashEvades | crates/evidence-core/src/verify/bundle.rs:188-208 | beside a sealed `a/b`, an added file named `a\b` passes unseen |
| Integrity.SealedPasses | crates/evidence-core/src/verify/bundle.rs:147-215 | a sealed bundle of plain names passes its integrity steps, so it verifies exactly when it passes the other checks |
| Integrity.SealedPassesExactly | crates/evidence-core/src/verify/bundle.rs:147-208 | a sealed bundle of any names passes its own integrity steps if and only if every content path text is safe, holds no newline, ends in no carriage return and leads to a file with its digest |
| ManifestLayer.IndexFixesManifest | crates/evidence-core/src/verify/bundle.rs:165-172 | a directory that passes with the index of a sealed bundle has its manifest, up to a collision of the two: a regenerated manifest is refused |
| ManifestLayer.IndexEvident | crates/evidence-core/src/verify/bundle.rs:147-215 | with `index.json` alone untouched and no backslash in a name, verification accepts exactly the sealed manifest with the sealed content digests |
| ManifestLayer.IndexEvidentExactly | crates/evidence-core/src/verify/bundle.rs:147-208 | the same for presented directories of any names: sealed manifest, sealed content kept, and every content file under a sealed path text |
| ManifestLayer.OwnManifest | crates/evidence-core/src/verify/bundle.rs:165-176 | a directory of plain names with its own manifest and a well-formed index passes if and only if it is sealed: the index names the hash of the manifest and of the recipe |
| ManifestLayer.PassingManifest | crates/evidence-core/src/verify/bundle.rs:309-372 | whatever the manifest says, a directory that passes has only lines of 64 hexadecimal digits and a relative path inside the bundle to a file with that digest, none for `index.json`, and one for every other file's path text |
| Integrity.LayeredIntegrity | crates/evidence-core/src/verify/bundle.rs:25-36 | of the directories without backslashes in names whose signature checks out under the signer's key, verification accepts exactly those that agree with the sealed bundle on every file but the signature itself, up to collisions |
| Integrity.LayeredExactly | crates/evidence-core/src/verify/bundle.rs:25-36 | for presented directories of any names whose signature checks out: the integrity steps pass exactly when the sealed texts lead to the sealed digests and no file bears another text; for plain sealed names, when every sealed file is kept byte for byte and each added one bears a sealed text |
| Integrity.UntouchedSignature | crates/evidence-core/src/verify/bundle.rs:210-222 | with the signature file as written, the one directory without backslashes in names that is accepted is the sealed bundle byte for byte |
| Integrity.UntouchedExactly | crates/evidence-core/src/verify/bundle.rs:210-222 | with the signature file as written, a directory of any names passes and checks out exactly when it keeps every sealed file byte for byte and each added one, backslashes read as slashes, bears a sealed text |
| Corpus.FirstPairExact | crates/evidence-core/src/corpus/graph/validation.rs:48-60 | on sorted edges the neighbour test finds a repeat exactly when there is one |
| Corpus.CanonicalExactly | crates/evidence-core/src/corpus/graph/validation.rs:51-66 | a stored node has the given edges, all of them, ordered by kind and then target |
| Corpus.InsertionExact | crates/evidence-core/src/corpus/graph.rs:52-57 | a node is accepted exactly when its uid, its id within its kind and its edges are not repeated; a rejected id names the one node that holds it, a rejected edge one that is repeated |
| Corpus.PatchInsertionExact | crates/evidence-core/src/corpus/graph.rs:120-142 | a patch is accepted exactly when its uid and human id are new; a rejected human id names its one holder |
| Corpus.FindClash | crates/evidence-core/src/corpus/graph/validation.rs:32-43 | the first node, in uid order, with the same kind and id |
| Corpus.FindPair | crates/evidence-core/src/corpus/graph/validation.rs:52-58 | the first repeated edge in sorted order |
| Corpus.CorpusGraph.Insert | crates/evidence-core/src/corpus/graph.rs:52-57 | the node map after a success, the error and the unchanged map after a failure; the map stays well keyed |
| Corpus.CorpusGraph.InsertWithTraceMetadata | crates/evidence-core/src/corpus/graph.rs:203-212 | metadata is stored with an accepted node and never without one |
| Corpus.CorpusGraph.InsertSourcePatch | crates/evidence-core/src/corpus/graph.rs:120-142 | the patch map after a success, the error and the unchanged map after a failure |
| Corpus.LoadExact | crates/evidence-core/src/corpus/graph/validation.rs:16-60 | a whole load succeeds exactly when nothing repeats, among the records or against the graph, and then holds every record |
| Corpus.LoadOrderFree | crates/evidence-core/src/corpus/graph.rs:3-6 | the order of records and of the edges inside them changes neither whether a load succeeds nor its graph |
| SourcePatch.ApplyPatch | crates/evidence-core/src/corpus/source_patch/apply.rs:92-142 | a success means a valid pre-graph of the recorded digest, the recorded bindings and a valid post-graph; each stale binding is named exactly, in the documented order |
| SourcePatch.RunExactly | crates/evidence-core/src/corpus/source_patch/apply.rs:124-127 | the operations succeed exactly with the last graph of a chain over all of them, and fail exactly with the complaint of the first that fails on the way |
| SourcePatch.AppliedExactly | crates/evidence-core/src/corpus/source_patch/apply.rs:94-142 | applying a patch gives a graph exactly when valid, current bindings and all its operations, in order, lead there; each failure after the bindings has its exact cause |
| Lifecycle.Heads | crates/evidence-core/src/corpus/lifecycle.rs:263-268 | exactly the reviews of the target that no review supersedes |
| Lifecycle.DeriveState | crates/evidence-core/src/corpus/lifecycle.rs:284-308 | rejected, approved and candidate each hold exactly when the decisions say so, whatever the order of the heads |
| Lifecycle.Evaluate | crates/evidence-core/src/corpus/lifecycle.rs:256-277 | the state of a target as a function of the reviews on record |
| Supersession.StateExactly | crates/evidence-core/src/corpus/lifecycle.rs:254-306 | the truth table over the reviews of a target that no review's edge supersedes, all four states if and only if |
| Supersession.ApprovedExactly | crates/evidence-core/src/corpus/lifecycle.rs:254-275 | a requirement is approved by such reviews at the digest of its present content, a patch at its recorded content digest, unless one rejects it |
| Supersession.SettlingReview | crates/evidence-core/src/corpus/lifecycle.rs:262-275 | a current approving review that supersedes every head of its target makes it approved, whatever was decided before |
| Supersession.OtherTargetsKeep | crates/evidence-core/src/corpus/lifecycle.rs:262-275 | a review leaves the state of every target none of whose heads it supersedes |
| Supersession.SupersededDecidesNothing | crates/evidence-core/src/corpus/graph.rs:186-197 | the decision and digest of a superseded review change no state, of any target |
| Supersession.SettlingClearsTheGate | crates/evidence-core/src/corpus/approval_boundary.rs:402-443 | after such a review no claim on that requirement is a violation |
| Supersession.EdgesJoin | crates/evidence-core/src/corpus/graph/validation.rs:69-125 | in a valid graph every edge joins the kinds of node its own kind calls for |
| Supersession.ReviewsByEdge | crates/evidence-core/src/corpus/graph/review_invariants.rs:33-96 | in a valid graph a review's one `Reviews` edge and its target field name the same thing, and it is what the target says |
| Supersession.PatchesAreBound | crates/evidence-core/src/corpus/source_patch/validate.rs:40-80 | in a valid graph every patch was recorded against the committed graph of a revision on record |
| Supersession.ValidExactly | crates/evidence-core/src/corpus/graph.rs:227-235 | a graph is valid if and only if every edge joins the kinds it should, every review has its one `Reviews` edge to what its target names, in the supported schema, every patch is bound to a committed graph, and the remaining checks agree |
| Lifecycle.ApprovalIsMonotone | crates/evidence-core/src/corpus/lifecycle.rs:279-308 | one more approving review that supersedes nothing withdraws no approval |
| Lifecycle.OnlyReviewsDecide | crates/evidence-core/src/corpus/graph.rs:144-197 | inserting anything but a review changes no state |
| ApprovalBoundary.ScanTestEdges | crates/evidence-core/src/corpus/approval_boundary.rs:304-344 | the claims of one test appended in edge order, or the first dangling target |
| ApprovalBoundary.ScanGraph | crates/evidence-core/src/corpus/approval_boundary.rs:302-388 | the claims of all nodes in uid order, or the first defensive error |
| ApprovalBoundary.ValidateEffectiveCuratedContent | crates/evidence-core/src/corpus/approval_boundary.rs:402-443 | the first failing patch in uid order decides |
| ApprovalBoundary.ValidateRequired | crates/evidence-core/src/corpus/approval_boundary.rs:299-400 | evaluation errors, then sorted violations, then the patch plane |
| ApprovalBoundary.KeyOrder | crates/evidence-core/src/corpus/approval_boundary.rs:389-394 | the report order is total: tests before modules before diagnostics under each requirement |
| ApprovalBoundary.ReferringOrderExactly | crates/evidence-core/src/corpus/approval_boundary.rs:118-145 | tests come first, then module claims, then diagnostics, each ordered by its fields |
| ApprovalBoundary.KeyOrderExactly | crates/evidence-core/src/corpus/approval_boundary.rs:118-160 | violations are ordered by requirement and then by claim |
| ApprovalExactness.ScanExact | crates/evidence-core/src/corpus/approval_boundary.rs:302-388 | on a valid graph the defensive errors are dead and each unapproved claim is found once |
| ApprovalExactness.ReportExact | crates/evidence-core/src/corpus/approval_boundary.rs:299-399 | the gate rejects claims exactly when one is unapproved, and reports exactly those, once each, in order |
| ApprovalExactness.PatchCheckExact | crates/evidence-core/src/corpus/approval_boundary.rs:402-443 | on a valid graph a patch is blamed exactly when it is approved and does not apply alone to its parser graph |
| ApprovalExactness.UnproducibleExactly | crates/evidence-core/src/corpus/approval_boundary.rs:402-443 | an approved patch is blamed exactly when its operations, all and in order, lead from the committed graph to no valid graph; on a valid corpus never for a stale binding |
| ApprovalExactness.CuratedContentExact | crates/evidence-core/src/corpus/approval_boundary.rs:402-443 | the patch plane passes exactly when every approved patch can be produced; otherwise the least such uid is blamed |
| ApprovalExactness.GateExact | crates/evidence-core/src/corpus/approval_boundary.rs:288-443 | the exact set of corpora the gate accepts, and which error each rejected one gets |
| ApprovalExactness.MoreApprovalsNeverAdd | crates/evidence-core/src/corpus/approval_boundary.rs:299-399 | what is reported after more approvals was reported before, for the same claim |
| ApprovalExactness.ApprovingAddsNone | crates/evidence-core/src/corpus/approval_boundary.rs:299-399 | recording one approving review adds no violation |
| ApprovalExactness.DecompositionIsFree | crates/evidence-core/src/corpus/approval_boundary.rs:16-19 | a new requirement without claims changes no report, whatever it derives from |
| EffectiveGraph.EffectiveSourceGraph | crates/evidence-core/src/corpus/effective_graph.rs:110-157 | the loop over all patches computes the chain of contributing ones or the first failure |
| EffectiveGraph.EffectiveIsFold | crates/evidence-core/src/corpus/effective_graph.rs:4-20 | the result folds exactly the approved patches of the revision over its parser graph, and the recorded uids are that set, strictly increasing |
| EffectiveGraph.EffectiveIsRun | crates/evidence-core/src/corpus/effective_graph.rs:110-153 | the effective graph is a given graph exactly when a run of every operation of every approved patch, in uid order, leads there from the parser graph |
| EffectiveGraph.EffectiveFailsAt | crates/evidence-core/src/corpus/effective_graph.rs:99-153 | each error has its exact cause: an invalid corpus, an unknown revision, or the first approved patch that does not apply to what the ones before it made |
| EffectiveGraph.OnlyApprovedCount | crates/evidence-core/src/corpus/effective_graph.rs:8-18 | valid corpora with the same parser graph and approved patches give the same outcome, error included |
| EffectiveGraph.ProducibleExactly | crates/evidence-core/src/corpus/effective_graph.rs:20-29 | production succeeds exactly when every approved patch applies to the parser graph and all but the last leave it unchanged; the result is then the last one's |
| EffectiveGraph.SecondFailsClosed | crates/evidence-core/src/corpus/effective_graph.rs:20-24 | when the first of several approved patches changes the graph, the second is refused for a stale binding |
| EffectiveGraph.GateImpliesBuild | crates/evidence-core/src/corpus/approval_boundary.rs:402-443 | with at most one approved patch on a revision, acceptance by the gate implies that its effective graph can be produced |
| EffectiveGraph.BuildImpliesProducible | crates/evidence-core/src/corpus/effective_graph.rs:128-151 | a produced effective graph leaves the gate no patch of that revision to blame |
| EffectiveExample.TwoApprovedPatchesCompose | crates/evidence-core/src/corpus/effective_graph.rs:20-24 | for every engine with a no-op operation: a corpus the gate accepts on whose one revision two approved patches both apply |
| EffectiveExample.ReclassifyComposes | crates/evidence-core/src/corpus/source_patch/apply.rs:165-220 | reclassifying a node to the kind it has is such an operation, under any digest and any validators that accept the graphs |
| Capture.NormalizeCapturedText | crates/evidence-core/src/bundle/capture.rs:19-32 | the loop computes the normal form, shorter by exactly the number of CRLF pairs |
| Capture.LengthDrop | crates/evidence-core/src/bundle/capture.rs:12-15 | one byte goes for each CRLF pair and nothing else does |
| Capture.UndoesConversion | crates/evidence-core/src/bundle/capture.rs:3-8 | converting LF to CRLF is undone for every byte string, lone carriage returns included |
| Capture.PlatformIndependent | crates/evidence-core/src/bundle/capture.rs:3-8 | both platforms' captures of a text agree exactly when it holds no CRLF of its own |
| Capture.FixedExactly | crates/evidence-core/src/bundle/capture.rs:12-15 | a capture is left alone exactly when it holds no CRLF pair |
| Capture.DistributesExactly | crates/evidence-core/src/bundle/capture.rs:19-32 | normalising in two pieces gives the same bytes exactly when the cut does not split a pair |
| Capture.IdempotentExactly | crates/evidence-core/src/bundle/capture.rs:19-32 | a second pass changes nothing exactly when CR CR LF never occurs |
| ParentRollup.ByUid | crates/evidence-core/src/context/lookup.rs:211-218 | every entry with a uid can be looked up, under its own uid only |
| ParentRollup.LastEntryWins | crates/evidence-core/src/context/lookup.rs:211-218 | of several entries with a uid the last one is found |
| ParentRollup.RollUpParents | crates/evidence-core/src/context/lookup.rs:206-243 | the nested loops compute the walk, sorted by id |
| ParentRollup.WalkParents | crates/evidence-core/src/context/lookup.rs:224-239 | the walk above one LLR, from any state of the shared seen set |
| ParentRollup.WalkGrandparents | crates/evidence-core/src/context/lookup.rs:230-237 | the walk above one HLR, from any state of the shared seen set |
| ParentRollup.RollUpSound | crates/evidence-core/src/context/lookup.rs:203-243 | for every trace: each row is a real parent, no uid is listed twice, ids are sorted |
| ParentRollup.WalkIsRun | crates/evidence-core/src/context/lookup.rs:220-241 | as long as no named HLR was seen without being reported, the nested walk is one pass over the mentions in trace order |
| ParentRollup.RollUpExactly | crates/evidence-core/src/context/lookup.rs:203-243 | the rows are exactly the HLRs the LLRs name and the SYS entries those name, if and only if every such uid is first mentioned at the layer of its entry |
| ParentRollup.LayeredIsExact | crates/evidence-core/src/context/lookup.rs:203-243 | in particular when no LLR names a SYS uid and no named HLR names an HLR uid |
| ParentRollup.SysNamedByLlr | crates/evidence-core/src/context/lookup.rs:220-237 | an LLR that names a SYS uid ahead of its HLR loses that SYS row |
| ParentRollup.HlrNamedByHlr | crates/evidence-core/src/context/lookup.rs:220-237 | an HLR that another reported HLR names first loses its own row |
| Jsonl.EmitFindings | crates/cargo-evidence/src/cli/verify.rs:433-446 | one event per finding, downgraded only for a pre-release tool on the dev profile, and whether any finding blocks |
| Jsonl.CmdVerifyJsonl | crates/cargo-evidence/src/cli/verify.rs:362-492 | every situation gives its findings in order, then the terminal event and exit code of its verdict |
| Jsonl.TerminalMatchesExit | crates/evidence-core/src/diagnostic.rs:9-21 | exactly one terminal event, last, whose suffix and the exit code determine each other |
| Jsonl.ExitExactly | crates/cargo-evidence/src/cli/verify.rs:362-492 | exactly when the command exits 0, 2 and 1, and which terminal event says so |
| Jsonl.DowngradedExactly | crates/cargo-evidence/src/cli/verify.rs:433-446 | only a pre-release tool on the dev profile is reported as a warning; any other finding is reported as it is |
| JsonlConsumer.ParseJsonl | crates/evidence-mcp/src/subprocess.rs:232-275 | every non-blank line is one event, the summary counts each code, and the last code is the terminal |
| JsonlConsumer.EndToEnd | crates/evidence-mcp/src/subprocess.rs:232-275 | the consumer reports the producer's events, counts and terminal, and `success` exactly when the exit code is 0 |
| JsonlConsumer.BlankLinesSayNothing | crates/evidence-mcp/src/subprocess.rs:232-275 | blank lines change nothing, every other line is one event, and without any the terminal says that there was no output |
| JsonlConsumer.TruncationIsSeen | crates/evidence-core/src/diagnostic.rs:9-21 | a stream cut anywhere before its last byte of content shows no terminal code and is never a success |
| JsonlConsumer.MarkerLasts | crates/evidence-mcp/src/subprocess.rs:225-265 | a malformed line decides the terminal exactly when no later event has a code |
| Compliance.GenerateComplianceReport | crates/evidence-core/src/compliance/generator.rs:18-89 | the counters are the counts of the rows, and the applicable ones are partitioned by the four verdicts |
| Compliance.DetermineObjectiveStatus | crates/evidence-core/src/compliance/status.rs:29-111 | an applicable objective always gets one of the four counted verdicts |
| Compliance.MetExactly | crates/evidence-core/src/compliance/status.rs:29-277 | the four kinds of evidence that close an objective on their own, and no other |
| Compliance.PartialExactly | crates/evidence-core/src/compliance/status.rs:29-277 | which evidence earns partial credit on which objective, and that red or absent tests earn none |
| Compliance.ReviewExactly | crates/evidence-core/src/compliance/coverage_verdict.rs:8-14 | which objectives stay with manual review: those no tool can judge, and coverage that a percentage alone cannot close |
| Compliance.CoverageIsMonotone | crates/evidence-core/src/compliance/coverage_verdict.rs:51-123 | more coverage or a recorded disposition never lowers a coverage verdict |
| Compliance.ShortExactly | crates/evidence-core/src/compliance/status.rs:254-287 | coverage falls short below 95, 95 and 90 percent of statements at A, B and C, and below 90 and 85 percent of decisions at A and B |
| Compliance.JudgedAs | crates/evidence-core/src/policy/assurance.rs:88-90 | quality-managed and unclassified software is judged as level D |
| Compliance.StatusIsMonotone | crates/evidence-core/src/compliance/status.rs:29-295 | stronger evidence never lowers the verdict of any objective |
| Compliance.CountsAreMonotone | crates/evidence-core/src/compliance/generator.rs:33-55 | with stronger evidence the met count never falls and the not-met count never rises |
| Compliance.TableIsNested | crates/evidence-core/src/compliance/objectives_table.rs:13-229 | each of the 35 objectives that applies at a level applies at every stricter level |
| Compliance.StrictLevels | crates/evidence-core/src/compliance/objectives_table.rs:13-229 | every objective applies with independence at level A, and all but MC/DC coverage at level B |
| Compliance.LaxLevels | crates/evidence-core/src/compliance/objectives_table.rs:13-229 | which objectives drop out at levels C and D; the others are required without independence |
| Compliance.Numbering | crates/evidence-core/src/compliance/objectives_table.rs:13-229 | the objectives are numbered through in each table, in order |
| Compliance.ApplicableFalls | crates/evidence-core/src/compliance/objectives_table.rs:13-229 | applicable counts never increase from level A to level D |
| Compliance.GateWhereApplicable | crates/evidence-core/src/compliance/status.rs:254-277 | wherever a coverage objective applies a gate applies, so the no-gate verdict is never reported |

## Left out

- JSON, TOML and record schemas: the model starts from parsed records; field aliases, defaults and unknown fields are not modelled.
- SHA-256, ed25519 and key generation: parameters with the laws each theorem states; that a signature or digest cannot be forged is an assumption, not a result.
- Subprocesses, the clock, git, environment capture and file-system walking: their results are inputs; symbolic links, I/O failures other than a missing file, and Windows paths are not modelled.
- SuiteTally.fold updates a map entry in place in the source; here a tally is a value that replaces the old one, so aliasing of the entry is not captured.
- PDF dictionaries are read in the one layout the writer uses; a general dictionary parser is not part of this model.
- PDF coordinates and sizes are integers; Python would also accept floating-point numbers.
- CompletenessStates::derive and its helpers: each state is one branch on one fact and spans no operation; finalize records `Unverifiable` as the initial verification state and keeps the rest of the index as one opaque field.
- The other fields of EvidenceBuilder (commands, inputs, failures) and the writers of its JSON files: content files of the directory, with no rule of their own.
- The verifier's checks other than steps 5 to 8 and the recipe hash (required files, index fields, trace outputs, recipe re-projection, consistency checks, boundary recheck) are one predicate of the directory, assumed not to read the signature file.
- TamperEvident: like LayeredIntegrity and UntouchedSignature, assumes a sealed bundle of plain names (no newline, backslash or trailing carriage return) and no backslash in the names of the directory presented; without these the exact results are `SealedPassesExactly`, `PassesExactly`, `TamperEvidentExactly`, `LayeredExactly` and `UntouchedExactly`.
- PassesExactly: the sealed bundle has readable path texts; one that has not fails its own verification (`SealedPassesExactly`).
- File names are Unicode text; two names that are not valid Unicode can share one text in the source, and have no counterpart in the model.
- A manifest path that names a directory is treated as a missing file.
- BUNDLE.sig with non-ASCII text: reading stops at decoding in the source; here it is an invalid hex text.
- Review supersession chains, source lineage, structural source-graph validation and patch-target validation are one parameter of the graph validator; edges, review coherence and patch bindings are spelled out.
- The five patch operations and the digest recomputation are parameters; only the order of checks, the fold and the bindings are modelled. `insert_source_node` is left out with them.
- Lifecycle evaluation's scan for reviews of missing targets is omitted: validation rejects such graphs first.
- Message texts, fix hints, evidence file lists and human-readable rendering: not modelled.
- Coverage percentages are reals; the comparison of a NaN percentage is not modelled.
- Lossy UTF-8 decoding of the stream by the MCP server, and overflow of its 32-bit counters: not modelled.
- The command line, doctor, init, keygen, floors, MCP wiring and schemas: plumbing.
