# Verified models of fipscan

fipscan looks for cryptography that is not FIPS 140-3 approved: in source trees, in dependency manifests and in
container images. A server keeps a watchlist of targets, scans them on a schedule, stores the records and sends alerts.
This project models the parts of it that hold state, order or encodings, and proves what they promise.
`dafny verify dfyconfig.toml` checks everything.

## How the project is laid out

* **Server.** `Storage.dfy` is the store, with the in-place filters and updates over arrays that the Go code makes;
  every locked operation and every atomic rename is one step that happens or fails as a whole. `Protocol.dfy` is the
  state machine of any number of goroutines running `scanOne` between the handlers of the web server: seven atomic
  sections, arbitrary scan results, arbitrary store failures, arbitrary clocks, ids never drawn twice. `Safety.dfy`
  proves what every reachable state satisfies, `AlertRuns.dfy` what whole runs send to the alert destinations.
  `Alerts.dfy` is the alert decision. `Scheduler.dfy` is the class with its `running` and `manual` fields; its methods
  are proved step by step against the state machine, and a ghost log of the steps ties the two together.
* **Versions and advisories.** `Versions.dfy` is version text, its order and constraint sets. `Osv.dfy` treats the
  importer of OSV advisories as a compiler: events are printed as constraint text, the text is parsed again and
  evaluated; the source semantics is the evaluation algorithm of the OSV Schema, section "Evaluation". `Catalog.dfy` is
  the two-level index, proved equal to a linear scan. `ShippedEntries.dfy` applies the results to two entries of the
  shipped catalog. `DepsScan.dfy` is the whole dependency scan on top of it, `EndToEnd.dfy` what importer, catalog, scan
  and deduplication promise each other.
* **Images.** `Layers.dfy` is the streaming overlay, `Overlay.dfy` its closed form and its difference from its own
  documentation, `ChangeSets.dfy` the layer model of the OCI Image Format Specification on path segments and the
  conditions under which the overlay computes it. `Binaries.dfy` tells which binaries are inspected.
  `Rpm.dfy` is the header decoder and the sentinel scan; `Bytes.dfy` has the big-endian words.
* **Findings.** `Dedup.dfy`, `Baseline.dfy` and `Waivers.dfy` are the list algorithms over `Findings.dfy`.
* **Parsers.** `References.dfy` (image references), `AuthChallenge.dfy` (authentication challenges), `LockFile.dfy` (the
  `[[package]]` machine) and `LockFileText.dfy` (reading as the inverse of writing), `GradleCatalog.dfy` (version
  catalogs) and `GradleLines.dfy` (their meaning line by line), `Walk.dfy` (the pruned directory walk).
  `Manifest.dfy`, `Text.dfy` and `Paths.dfy` hold what they share: Go's string and path functions with their laws.

A method carries the name of the Go function it models and is proved against a specification function with a name of
its own; the laws are then proved about that function, the last of them on the texts, bytes and records as they are
written, without the functions in between. Strings are sequences of characters and Go's `int` has 64 bits. Case folding
(`lower`), regular expressions other than that of the lock files, file contents, the network and clocks are
parameters.

## Where the code does not do what it says

Each of these is proved together with the exact condition under which code and promise agree.

* `internal/container/layers.go:136-143` refuses every name with two dots in a row, not only parent segments. The
  opaque marker `.wh..wh..opq` has two dots in a row, so it is never honoured although the comment at lines 57-60 says
  so; the same holds for whiteouts of dot files. `Overlay.AsDocumentedIff` gives the condition for code and comment to
  agree, `Overlay.OpaqueDirectoryIgnored` a family of images.
* A whiteout of a directory deletes the one path it names, not what is below it; an entry that is not a regular file
  replaces nothing; and a whiteout also deletes a file that an earlier entry of its own layer added.
  `ChangeSets.CodeIsSpecificationIff` gives the exact condition for the code to compute the file of the OCI layer model,
  for entries in any order and all these causes taken together: it must not hold contents that are too long or that a
  later entry took away, and must not have deleted the file for a whiteout of the file's own layer.
  `ChangeSets.RemovedDirectoryStays` and `ChangeSets.WhiteoutOfOwnLayerDeletes` have failing images for every extracted
  path.
* The JSON interface takes the scan fields of a new target from the request (`internal/server/handlers.go:320-329`), the
  HTML form does not (lines 98-104). Links from targets to records stay valid exactly as long as no addition brings
  such a link along (`Safety.LinksKeptIff`, `Safety.JsonAddBreaksLinks`).
* The constraint text of an advisory is one conjunction. For any events that obey the schema it is exact if and only if
  all `introduced` versions are one and no upper bound excludes it, or each of them is `fixed` again at the same version
  (`Osv.ExactIff`). On disjoint intervals, in whatever order they are listed, this means one interval; for two or more
  the text matches nothing (`Osv.ExactIffOneInterval`, `Osv.MoreIntervalsMatchNothing`), as happened to two shipped
  entries (`ShippedEntries.ShippedEntryIsDead`, `ShippedEntries.UnorderedEntryIsDead`). Matching text means an affected
  version if and only if the range has an `introduced` event (`Osv.SoundIffIntroduced`). A printed upper bound is read
  back as that bound if and only if it does not start with `=` (`Osv.FixedReadsBack`).
* Printing an image reference and parsing it again loses the end of a repository with a colon after its last slash when
  there is a digest, and nothing else (`References.ReparseIff`).
* An exclusion prefix `.` stands for the root alone, and then nothing at all is scanned (`Walk.PrunedIsFilterIff`).
* An alert key identifies rule, algorithm and file if and only if none of the three holds a bar
  (`Alerts.KeyIdentifiesIff`).
* A fingerprint identifies rule, file and algorithm name if and only if neither rule nor file holds a bar and no name
  stands after a bar in the algorithm name (`Baseline.IdentifiesIff`).

## Model

| member | source | states |
|---|---|---|
| Safety.MutualExclusion | internal/server/scheduler.go:94-106 | in every reachable state no two workers hold one id, and an id is marked running exactly while a worker holds it |
| Safety.NoLostUpdate | internal/server/scheduler.go:112-144 | when a stamp is due, a target that still exists links to the record captured at the start of that scan, and a committed stamp links it to this scan's own saved record |
| Safety.RecordsPermanent | internal/server/storage.go:185-189 | along any run no saved record is lost or changed |
| Safety.EveryRecordIsAScan | internal/server/scheduler.go:118-137 | over every run each saved record tells what one scan of it found, or why it failed, under the id and start time its worker drew at the read |
| Safety.TargetsChange | internal/server/storage.go:117-181 | which targets each step adds, removes and stamps, and that no other step touches them |
| Safety.DestinationsChange | internal/server/storage.go:243-276 | destinations come and go by the operations for them alone, a new one without a threshold getting HIGH |
| Safety.LinksKeptIff | internal/server/storage.go:117-131 | a step keeps all links to saved records of the same target valid iff it is not a committed addition that brings a link |
| Safety.LinksValid | internal/server/handlers.go:98-104 | over every run from valid links whose additions come as the form sends them, every link names a saved record of that same target, and the directory is fit for a restart |
| Safety.JsonAddBreaksLinks | internal/server/handlers.go:320-329 | on every directory with valid links, a committed addition that brings a link along leaves an invalid one |
| Safety.RankFalls | internal/server/scheduler.go:94-147 | a step moves its own worker closer to idle and leaves every other worker where it is |
| Safety.ReleasedInTime | internal/server/scheduler.go:102-106 | on every exit path and in every interleaving a worker is idle again after at most seven steps of its own |
| Safety.IdleMarksNothing | internal/server/scheduler.go:102-106 | an id stays marked after a scan only if another worker has claimed it |
| Safety.NeverStuck | internal/server/scheduler.go:94-147 | a busy worker always has a step, whatever the store is like |
| Safety.QueueBounded | internal/server/scheduler.go:46-77 | at most 16 requests wait, and accepted requests are the handled ones followed by the waiting ones |
| Safety.RequestAccepted | internal/server/scheduler.go:72-77 | a request is dropped exactly when the queue is full |
| Protocol.ExclusionKept | internal/server/scheduler.go:95-106 | every step keeps the guard: marks are exactly the held ids, each held once |
| Protocol.InvKept | internal/server/scheduler.go:94-147 | every step of a worker or a handler keeps the whole invariant of store, workers, queue and history |
| AlertRuns.AlertInvKept | internal/server/scheduler.go:112-146 | every step without a store error keeps each target's link equal to its latest record and every sent section right |
| AlertRuns.AlertsAreEdges | internal/server/alerts.go:49-101 | over runs without store errors the k-th alert section of a target compares its k-th record with the one before, and a destination hears of a key iff that key is absent before and present at or above its threshold now |
| AlertRuns.NewsIsTold | internal/server/alerts.go:49-101 | the same on rules, algorithms, files and severities as written: a destination is told of a finding iff it was registered, the finding is worth telling it, and the record before had none of its rule, algorithm and file |
| AlertRuns.AlertsUnderFaults | internal/server/alerts.go:50-76 | what a section sends whatever the disk does: nothing without destinations or after a failed scan, and a previous record that cannot be read counts as none |
| AlertRuns.EveryRecordDispatched | internal/server/scheduler.go:138-146 | once a target is released, every saved record has had its alert section |
| AlertRuns.UnchangedRescanIsSilent | internal/server/alerts.go:65-76 | a re-scan without new keys sends nothing to anyone |
| AlertRuns.TimesToldIsEdges | internal/server/alerts.go:83-100 | the number of times a destination is told of a key is the number of its absent-to-present edges along the records |
| Alerts.DiffFindings | internal/server/alerts.go:152-164 | keeps, in order, the findings whose key the previous record lacks |
| Alerts.FilterBySeverity | internal/server/alerts.go:176-188 | keeps, in order, the findings at or above the threshold, an unknown threshold meaning HIGH |
| Alerts.DispatchAlerts | internal/server/alerts.go:49-101 | sends what the decision says for every outcome of the two reads |
| Alerts.KeyIsComponents | internal/server/alerts.go:166-168 | without bars in rule and algorithm, keys are equal iff rule, algorithm and file are |
| Alerts.KeyIdentifiesIff | internal/server/alerts.go:148-168 | a key identifies rule, algorithm and file among all findings iff none of the three holds a bar |
| Alerts.RankIsWorth | internal/server/alerts.go:170-188 | the rank table and the threshold, letter by letter: HIGH is always told, MEDIUM from medium on, LOW at low; unknown severities never, unknown thresholds as HIGH |
| Alerts.FreshConcat | internal/server/alerts.go:152-164 | what is new keeps its order and repetitions |
| Alerts.FiltersSelectNew | internal/server/alerts.go:66-87 | the two filters together select exactly the findings that are new to a destination |
| Alerts.DecideAsExpected | internal/server/alerts.go:49-76 | the decision depends on the previous record alone; no link and an unreadable record count as none, a failed scan and unreadable destinations send nothing |
| Alerts.ToldIffRaised | internal/server/alerts.go:83-100 | a destination is told of a key iff it is registered and the key is newly present and severe enough |
| Alerts.ToldIffNewsworthy | internal/server/alerts.go:66-100 | the same on the findings as written |
| Alerts.RaisedOnComponents | internal/server/alerts.go:66-100 | a raised key is a thing that is present and worth telling now and was absent before |
| Alerts.PayloadsAreRight | internal/server/alerts.go:83-100 | every payload is about findings of this scan, is not empty and says whether it is the first; each registration gets one at most |
| Alerts.UnchangedIsSilent | internal/server/alerts.go:74-76 | no new key, no payload |
| Storage.Store.constructor | internal/server/storage.go:85-101 | a store starts with what is on disk |
| Storage.Store.AddTarget | internal/server/storage.go:117-131 | appends the target with a new id and time, keeping its other fields, or changes nothing |
| Storage.Store.DeleteTarget | internal/server/storage.go:133-147 | removes every target of the id, keeping the others in order, or changes nothing |
| Storage.Store.GetTarget | internal/server/storage.go:149-162 | the first target of the id |
| Storage.Store.UpdateTargetScan | internal/server/storage.go:166-181 | stamps the first target of the id and nothing else, or changes nothing |
| Storage.Store.SaveScan | internal/server/storage.go:185-189 | stores the record under its id, or changes nothing |
| Storage.Store.AddAlert | internal/server/storage.go:243-260 | appends the destination with a new id, an empty threshold becoming HIGH, or changes nothing |
| Storage.Store.DeleteAlert | internal/server/storage.go:262-276 | removes every destination of the id, or changes nothing |
| Storage.FilterInPlace | internal/server/storage.go:140-146 | the filter that reuses the list's own storage leaves exactly the other targets, in order |
| Storage.StampInPlace | internal/server/storage.go:173-180 | the update by index equals stamping the first match |
| Storage.WithoutMembers | internal/server/storage.go:133-147 | deletion removes exactly the targets of the id and keeps ids distinct |
| Storage.WithoutAlertMembers | internal/server/storage.go:262-276 | deletion removes exactly the destinations of the id |
| Storage.WithoutConcat | internal/server/storage.go:140-146 | what is kept keeps its order and repetitions |
| Storage.StampedMembers | internal/server/storage.go:166-181 | with distinct ids, stamping changes the target of that id and no other |
| ScanScheduler.Scheduler.constructor | internal/server/scheduler.go:35-48 | a scheduler starts with nothing running and nothing queued |
| ScanScheduler.Scheduler.RequestScan | internal/server/scheduler.go:72-77 | the request step: queued at the end, or dropped when 16 wait |
| ScanScheduler.Scheduler.GuardScan | internal/server/scheduler.go:95-101 | the id is claimed iff it was not marked; afterwards it is marked either way |
| ScanScheduler.Scheduler.ScanClaimed | internal/server/scheduler.go:108-146 | whatever fails in between, the worker ends about to release, marks untouched; one record with what was found is saved and dispatched iff the target was read and the disk took the record |
| ScanScheduler.Scheduler.FinishScan | internal/server/scheduler.go:102-106 | the deferred release unmarks exactly this id |
| ScanScheduler.Scheduler.ScanOne | internal/server/scheduler.go:94-147 | marks are as before and only this target was stamped; exactly one record is saved, on disk and in the history, with this id, the drawn id, start and duration and the findings or the error, and its alert section passed, iff nobody else held the id, the target was listed at the read and the disk allowed both; with a healthy disk it was last scanned at this start |
| ScanScheduler.Scheduler.ServeManual | internal/server/scheduler.go:63-64 | the oldest request leaves the queue, no other does, and its target is scanned as by ScanOne |
| ScanScheduler.Scheduler.Sweep | internal/server/scheduler.go:79-92 | without store errors and with a clock that does not go back, every target of the snapshot that still exists was scanned since the sweep began or less than an interval before; a target fresh in the snapshot is not scanned |
| Versions.ParseVersion | internal/deps/version.go:32-59 | the parsed version, components saturating at the bounds of an int |
| Versions.ParseShow | internal/deps/version.go:24-59 | printing and parsing are inverse on components that fit, and a larger component saturates |
| Versions.SurroundingsIgnored | internal/deps/version.go:32-59 | white space and operators in front and any suffix that starts with neither digit nor dot change nothing |
| Versions.CompareIsTotalOrder | internal/deps/version.go:62-81 | the comparison is a total order whose equivalence is equality |
| Versions.CompareIsLexicographic | internal/deps/version.go:62-81 | by major, then minor, then patch |
| Versions.FewerComponents | internal/deps/version.go:43-59 | missing components are zero |
| Versions.MoreComponents | internal/deps/version.go:43-59 | components after the third do not count |
| Versions.OperatorsMean | internal/deps/version.go:124-177 | what each operator text admits, in terms of that order; no operator is equality |
| Versions.ErrorIffBlankPart | internal/deps/version.go:108-122 | text is an error iff a part between its commas is blank, and otherwise gives the clause of each part in order |
| Versions.ParseSingleConstraint | internal/deps/version.go:124-155 | the clause of a text, longest operator first, a bare version meaning equality |
| Versions.ParseConstraints | internal/deps/version.go:108-122 | the clauses of a comma-separated text, or an error for a blank part |
| Versions.MatchAll | internal/deps/version.go:183-190 | true iff every clause matches |
| Versions.ConvexWithoutNE | internal/deps/version.go:158-190 | constraint sets without `!=` have no holes |
| Versions.HoleWithNE | internal/deps/version.go:158-177 | a set with `!=` can have one |
| Versions.WindowPartitions | internal/deps/version.go:158-190 | below, inside and from the end of a window: every version is in exactly one |
| Osv.RangesToConstraint | internal/osv/osv.go:225-247 | the text of the first range that is not a GIT range and yields a clause |
| Osv.FixedReadsBack | internal/osv/osv.go:233-234 | a printed upper bound is read back as that bound iff it does not start with `=` |
| Osv.CompileThenParse | internal/osv/osv.go:225-247 | parsing the emitted text yields exactly the clauses of the events |
| Osv.SortExists | internal/osv/osv.go:225-247 | every range can be sorted as the schema's evaluation demands |
| Osv.SoundIffIntroduced | internal/osv/osv.go:231-243 | a version the clauses match is affected iff the range has an `introduced` event |
| Osv.CompilerSound | internal/osv/osv.go:225-247 | whatever the catalog matches with the emitted text is affected according to the schema, version strings with commas included; no upper bound may start with `=` |
| Osv.PiecesDemand | internal/deps/version.go:108-122 | the text split at all its commas, those inside version strings too, still demands every clause |
| Versions.CommaEndsVersion | internal/deps/version.go:32-59 | a version text ends at its first comma |
| Osv.NoClausesMeansAllOrNothing | internal/osv/osv.go:231-246 | a range given up without text denotes every version or none |
| Osv.EvaluateIsUnion | internal/osv/osv.go:225-247 | evaluating disjoint intervals in version order, the last possibly open above, is membership in their union |
| Osv.OneIntervalExact | internal/osv/osv.go:225-247 | one interval, closed or open above, compiles exactly, however its events are listed |
| Osv.MoreIntervalsMatchNothing | internal/osv/osv.go:225-247 | three or more bounds of disjoint intervals compile to text that matches no version |
| Osv.LowestIsAffected | internal/osv/osv.go:225-247 | the least lower bound is affected however ties are sorted |
| Osv.UncancelledIsAffected | internal/osv/osv.go:225-247 | an introduced version that is not fixed at the same version is affected |
| Osv.ExactIff | internal/osv/osv.go:225-247 | for any events that obey the schema, the clauses match exactly the affected versions iff all introduced versions are one and no upper bound excludes it, or each is fixed again at once; without an introduced version, iff version zero is fixed |
| Osv.ExactIffOneInterval | internal/osv/osv.go:225-247 | on disjoint intervals, listed in any order and possibly open above, that condition says that there is one interval |
| Osv.PipelineExactIff | internal/osv/osv.go:225-247 | the catalog matches exactly the affected versions iff the encoded range meets that condition, no comma in a version string does harm and no other range adds a version |
| Osv.PlainTextHarmless | internal/deps/version.go:108-122 | version strings without commas do no harm |
| ShippedEntries.WindowsAreDead | internal/osv/osv.go:225-247 | the text of two or more windows, the last possibly listed out of place, matches nothing although its least version is affected |
| ShippedEntries.ShippedEntryIsDead | internal/deps/osv_entries.go:401 | the shipped text of PYSEC-2022-166 matches no version although version 0.0.0 is affected |
| ShippedEntries.UnorderedEntryIsDead | internal/deps/osv_entries.go:399 | so does the shipped text of PYSEC-2018-19, whose intervals are not listed in order |
| Osv.ToEntries | internal/osv/osv.go:180-214 | one entry per allow-listed package with encodable ranges, in order |
| Osv.EntriesSound | internal/osv/osv.go:180-214 | every emitted entry stems from an allow-listed package, and if that package's range obeys the schema and no upper bound in it starts with `=`, matches only versions its ranges affect |
| Osv.EntriesAre | internal/osv/osv.go:180-214 | exactly the allow-listed packages of known ecosystems with encodable ranges give entries, field by field as the advisory says |
| Osv.EntriesConcat | internal/osv/osv.go:180-214 | in order, one each |
| EndToEnd.ReportedIsAffected | internal/osv/osv.go:180-247 | an imported entry that applies to a pinned dependency means that the schema calls its version affected |
| EndToEnd.ReportedIffAffected | internal/osv/osv.go:180-247 | under the conditions for exactness it applies to exactly the affected versions of the package |
| EndToEnd.EcosystemsAgree | internal/deps/scanner.go:21-47 | the scan's ecosystems are exactly those the importer writes |
| EndToEnd.RankedAreRecognised | internal/deps/dedup.go:20-42 | the file names that deduplication ranks are those that the scan recognises by name |
| EndToEnd.FiledUnderName | internal/deps/dedup.go:75-83 | deduplication files a finding of the scan under its rule and the dependency's name |
| Catalog.CatalogIndex.constructor | internal/deps/catalog.go:44-50 | the index files the hand-written catalog followed by the imported one |
| Catalog.CatalogIndex.IndexEntries | internal/deps/catalog.go:54-72 | indexing appends the entries to what is filed, malformed ones being skipped |
| Catalog.CatalogIndex.Lookup | internal/deps/catalog.go:83-109 | the lookup is the order-preserving linear filter by folded ecosystem and name, parseable constraints and match; only unconstrained entries without a version |
| Catalog.ScanConcat | internal/deps/catalog.go:44-50 | the results for two catalogs are those of the one followed by those of the other |
| Catalog.ScanMembers | internal/deps/catalog.go:83-109 | every occurrence of an applicable entry is reported and no other |
| Catalog.ScanIgnoresCase | internal/deps/catalog.go:83-109 | case never matters to a lookup |
| Catalog.AppliesUnpinned | internal/deps/catalog.go:83-109 | to a dependency without a version exactly the unconstrained entries of its name apply |
| Catalog.SplitEntriesReportOnce | internal/deps/catalog.go:83-109 | entries that split a package at a version report each pinned version once |
| Layers.ImageFS.constructor | internal/container/layers.go:50-55 | an empty file system, nothing inspected |
| Layers.DeleteUnder | internal/container/layers.go:84-93 | deletes exactly the keys under a prefix |
| Layers.ImageFS.Whiteout | internal/container/layers.go:80-99 | both maps lose exactly what the whiteout covers |
| Layers.ImageFS.TakeFile | internal/container/layers.go:105-130 | a tracked path or an inspectable binary is taken up; a failed read changes nothing |
| Layers.ImageFS.MergeLayer | internal/container/layers.go:61-132 | the whole new state after the entries in order, up to the first that cannot be read; success iff none fails and the stream is complete |
| Layers.RunKeepsBound | internal/container/layers.go:32-48 | for any stream the recorded binaries never exceed the inspected ones, nor those 100 |
| Layers.RunApplies | internal/container/layers.go:61-132 | the tracked files are those of a prefix of the stream, of all of it iff nothing fails |
| Layers.ApplyAllConcat | internal/container/layers.go:57-132 | merging layers one by one is merging their concatenated streams |
| Layers.MergeImage | internal/container/scanner.go:52-63 | a scan succeeds iff every layer is complete and no entry fails, and then holds what the run over all layers' entries in order leaves |
| Overlay.ClosedForm | internal/container/layers.go:61-132 | a path is present iff its last write has no later whiteout covering it, and then holds that write's bytes up to the cap |
| Binaries.BinariesClosedForm | internal/container/layers.go:116-130 | the first hundred eligible binaries are inspected, and a path holds the dependencies the last of them found there unless a later whiteout covers it |
| Binaries.RunFailsIff | internal/container/layers.go:105-122 | the merge fails iff it has to read an entry whose contents cannot be read |
| Overlay.OpaqueNeverReached | internal/container/layers.go:78-95 | no entry name reaches the opaque branch |
| Overlay.AsDocumentedIff | internal/container/layers.go:57-143 | code and documentation agree on a tracked path iff no whiteout dropped for two dots in its name should have deleted what the code keeps |
| Overlay.OpaqueMarkerIgnored | internal/container/layers.go:80-95 | a file followed by an opaque marker of its directory is deleted by the documentation and kept by the code |
| Overlay.OpaqueDirectoryIgnored | internal/container/layers.go:136-143 | such an image for every plain directory and file name |
| ChangeSets.CoversIs | internal/container/layers.go:80-98 | what the code takes a whiteout to cover, on path segments: the files below a directory other than the root, or one path |
| ChangeSets.EntryAgrees | internal/container/layers.go:75-114 | a well-named entry writes where the specification has a file, and deletes exactly for an opaque marker below the root or a whiteout of the very path |
| ChangeSets.EntryAgreesInCode | internal/container/layers.go:75-143 | with the names the code refuses, it still writes where the specification has a file and deletes only what the specification hides |
| ChangeSets.SpecificationClosedForm | internal/container/layers.go:39-48 | the specification has a file iff some entry puts it there and nothing later takes it away: no entry of its own path, and nothing in a higher layer that hides or blocks it |
| ChangeSets.OverlayIsSpecificationIff | internal/container/layers.go:61-132 | for either normalisation of names, the overlay holds the specification's file, or none, iff it holds nothing too long or taken away and has deleted no file that stands |
| ChangeSets.CodeIsSpecificationIff | internal/container/layers.go:61-143 | the same for the code on images of well-named entries in any order: opaque markers, whiteouts of directories or within a layer, replaced files and long files are all covered by the condition |
| ChangeSets.DocumentationIsSpecificationIff | internal/container/layers.go:57-132 | the same for the code as its comment describes it |
| ChangeSets.TableIsTracked | internal/container/layers.go:20-30 | every path the scanner extracts meets the conditions of the statements above |
| ChangeSets.TableFilesAreSpecificationIff | internal/container/layers.go:20-143 | the condition for each extracted path, on any image of well-named entries |
| ChangeSets.RemovedDirectoryStays | internal/container/layers.go:96-99 | for each extracted path and each directory above it, an image whose upper layer removes the directory: the code keeps the file, the specification does not |
| ChangeSets.WhiteoutOfOwnLayerDeletes | internal/container/layers.go:80-99 | for each extracted path, a layer with the file and then its whiteout: the code deletes the file, the specification keeps it |
| Rpm.DecodeRPMHeader | internal/container/rpm.go:82-145 | on any bytes, in range throughout: the package the header at their start describes, or none |
| Rpm.HeaderRead | internal/container/rpm.go:71-104 | decoding inverts encoding whatever bytes follow |
| Rpm.HeaderWritten | internal/container/rpm.go:82-104 | a header is read only where an encoding of it stands |
| Rpm.DecodeInvertsEncode | internal/container/rpm.go:82-145 | a well-formed header decodes to the package it describes |
| Rpm.DecodedFromBytes | internal/container/rpm.go:82-145 | on raw bytes: the name the last string entry of tag 1000 points at, the version of tag 1001 with a dash and the release of tag 1002 behind it, nothing without a name or outside the size limits |
| Rpm.ParseRPMDB | internal/container/rpm.go:41-69 | the first occurrences of the packages decoded at every sentinel from offset eight on |
| Rpm.KeyInjective | internal/container/rpm.go:61-64 | the NUL-joined key determines the package |
| Rpm.ScanIsComplete | internal/container/rpm.go:41-69 | on any bytes: no package twice, and exactly those some sentinel decodes to |
| Rpm.ScannedFromBytes | internal/container/rpm.go:41-145 | on raw bytes: a package is reported iff somewhere a complete header with first entry tag 63, type 7 says its name and version |
| Rpm.EmbeddedHeaderFound | internal/container/rpm.go:41-69 | a header that starts with HEADERIMMUTABLE is found in any surroundings |
| Deduplication.Dedup | internal/deps/dedup.go:48-73 | the in-place pass computes the closed form |
| Deduplication.BestIsEarliestMaximum | internal/deps/dedup.go:60-67 | the finding kept for a rule and package is the earliest of maximal manifest priority |
| Deduplication.PythonOrder | internal/deps/dedup.go:18-25 | lock files outrank manifests, whatever directories they stand in |
| Deduplication.NodeOrder | internal/deps/dedup.go:26-28 | yarn.lock outranks package-lock.json |
| Deduplication.GradleOrder | internal/deps/dedup.go:32-38 | the version catalog outranks the build files |
| Deduplication.PackageOfDisplay | internal/deps/dedup.go:75-83 | a displayed dependency is filed under its name |
| Deduplication.SlotsOfDeduped | internal/deps/dedup.go:44-73 | each key stands where it first occurred, once |
| Deduplication.CodeFindingsKept | internal/deps/dedup.go:56-59 | all other findings are kept, in order |
| Deduplication.OthersKept | internal/deps/dedup.go:56-59 | findings whose rule does not start with FIPS-DEP- pass through, in order |
| Deduplication.DedupOfParts | internal/deps/dedup.go:48-73 | deduplicating the parts first changes nothing |
| Deduplication.DedupIdempotent | internal/deps/dedup.go:48-73 | deduplicating twice is deduplicating once |
| Baseline.Diff | internal/findings/baseline.go:87-99 | the findings of the scan whose fingerprint the baseline lacks, in order |
| Baseline.Resolved | internal/findings/baseline.go:104-116 | the difference with its sides swapped |
| Baseline.PatchLaw | internal/findings/baseline.go:85-116 | taking out the resolved fingerprints and adding the new ones turns the baseline's into the scan's |
| Baseline.NothingNew | internal/findings/baseline.go:87-99 | nothing is new iff the baseline has all fingerprints of the scan |
| Baseline.NewOnComponents | internal/findings/baseline.go:87-99 | a finding is new iff the baseline has none of its rule, file and algorithm name |
| Baseline.UnseenConcat | internal/findings/baseline.go:87-99 | what is new keeps its order and repetitions |
| Baseline.AlgorithmNameIdempotent | internal/findings/baseline.go:71-83 | stripping a version twice is stripping it once |
| Baseline.AlgorithmNameIs | internal/findings/baseline.go:67-83 | the name is the text up to the first space, or all of it if it starts with a space or ELF- stands in front or behind that space |
| Baseline.VersionBumpKeepsName | internal/findings/baseline.go:56-59 | a version bump does not change the name |
| Baseline.FingerprintIsComponents | internal/findings/baseline.go:63-65 | fingerprints of findings without bars in rule and file are equal iff rule, file and algorithm name are |
| Baseline.IdentifiesIff | internal/findings/baseline.go:48-83 | a fingerprint identifies rule, file and algorithm name among all findings iff neither rule nor file holds a bar and no name stands after a bar in the algorithm name |
| Baseline.IdentifiesAmongPlainNames | internal/findings/baseline.go:63-65 | among findings whose names hold no bar, iff rule and file hold none |
| Baseline.BarsCollide | internal/findings/baseline.go:63-65 | with a bar two different findings can collide |
| Waivers.LoadFile | internal/findings/waiver.go:45-72 | the waivers of a file by line, and a cache that stays right |
| Waivers.ApplyWaivers | internal/findings/waiver.go:41-102 | the cached pass computes the cache-free definition |
| Waivers.WaivedIsHit | internal/findings/waiver.go:84-95 | a finding is waived iff its line or the line above has a marker for all rules or for its own |
| Waivers.OneMarkerWaives | internal/findings/waiver.go:74-102 | a single marker waives exactly the findings of its file on its line and the next, of its rule or of any if it is a star |
| Waivers.MoreMarkersWaiveMore | internal/findings/waiver.go:74-102 | markers only add to what is waived |
| Waivers.PartitionInOrder | internal/findings/waiver.go:41-102 | kept and waived make up the input in its order |
| Waivers.PartitionIsWhole | internal/findings/waiver.go:41-102 | no finding is lost or invented |
| Waivers.PlacelessKept | internal/findings/waiver.go:39-83 | a finding without a line or a readable file is never waived |
| References.ParseReference | internal/registry/reference.go:90-143 | digest, registry and tag are peeled off in that order, with the defaults filled in |
| References.ParsedIsCanonical | internal/registry/reference.go:79-143 | which references parsing can yield |
| References.ReparseIff | internal/registry/reference.go:57-66 | a printed reference parses back, without an overridden tag, iff it has no digest or its repository does not end like a tag |
| References.RoundTripIff | internal/registry/reference.go:57-143 | the same for every text that parses, keeping registry, repository and manifest name |
| References.SpelledParsesBack | internal/registry/reference.go:79-89 | parsing inverts the grammar, tag and digest together included |
| References.BareName | internal/registry/reference.go:131-135 | a bare name is the latest tag in the library namespace of the default registry |
| References.FirstSegmentDecides | internal/registry/reference.go:104-114 | the first segment is the registry iff it holds a dot or a colon or is localhost |
| References.DigestDecides | internal/registry/reference.go:95-102 | only SHA-256 and SHA-512 digests are accepted, and no tag is filled in beside one |
| References.ManifestNames | internal/registry/reference.go:68-77 | a digest overrides a tag in the manifest name, and without either it is latest |
| References.ShowInjective | internal/registry/reference.go:57-77 | the text identifies the reference |
| AuthChallenge.SplitQuoted | internal/registry/client.go:239-260 | the fields as scanned, an empty last one dropped |
| AuthChallenge.AllFieldsRejoin | internal/registry/client.go:239-260 | rejoining all fields gives the input |
| AuthChallenge.FieldsRejoin | internal/registry/client.go:256-259 | the returned fields rejoin to the input less at most one final separator |
| AuthChallenge.EmptyLastDropped | internal/registry/client.go:256-259 | an empty last field is dropped, and no other |
| AuthChallenge.AllFieldsAreReading | internal/registry/client.go:245-251 | a separator inside a field follows an odd number of quotes, and only the last field may end inside quotes |
| AuthChallenge.ReadingIsUnique | internal/registry/client.go:239-260 | the computed fields are the only such reading, so splitting inverts joining |
| AuthChallenge.ParseAuthChallenge | internal/registry/client.go:214-236 | scheme and parameters as defined field by field |
| AuthChallenge.ParseInvertsShow | internal/registry/client.go:212-236 | any scheme and parameters come back, written with any white space and with values that hold no double quote, quoted or bare |
| AuthChallenge.MeantDistinct | internal/registry/client.go:225-234 | with distinct keys every parameter is found and there are no others |
| LockFile.ParsePackageArrayTOML | internal/deps/parsers.go:262-344 | the line machine over the classified lines |
| LockFile.HeadersAreRead | internal/deps/parsers.go:296-319 | section headers are recognised with any indentation |
| LockFile.PaddedName | internal/deps/parsers.go:296-319 | white space inside the brackets does not belong to the name |
| LockFileText.KeyLineMatches | internal/deps/parsers.go:260 | the regular expression matches a written key line and captures its key and value |
| LockFileText.KeyLinesAreRead | internal/deps/parsers.go:288-334 | a line that is neither blank, comment nor bracketed is the key and value that the matcher finds, with any indentation |
| LockFileText.OtherLinesAreRead | internal/deps/parsers.go:288-334 | comments and blank lines say nothing, and no more do other lines without a match |
| LockFile.ParsedConcat | internal/deps/parsers.go:262-344 | parsing distributes over concatenation at a header that closes blocks, line numbers moved |
| LockFile.BlockParsed | internal/deps/parsers.go:295-341 | a package block gives its own name and version whatever its subsections hold; other blocks give nothing |
| LockFile.ParsedIsMeaning | internal/deps/parsers.go:262-344 | the result is exactly the packages of the file, in order, names lower-cased, each at its header's line |
| LockFile.EveryFileIsBlocks | internal/deps/parsers.go:262-344 | every file is such a list of blocks |
| LockFile.NoisyPackage | internal/deps/parsers.go:326-338 | comments and other keys around name and version do not matter |
| LockFileText.WrittenFileIsRead | internal/deps/parsers.go:262-344 | reading inverts writing: exactly the packages written into a file come back, in order, with lower-cased name, version, header line and name line, whatever lines, tables and subsections stand around |
| LockFileText.LinesAreHeaders | internal/deps/parsers.go:296-311 | the line of every package is a header line |
| GradleCatalog.ReadLib | internal/deps/parsers.go:677-712 | the library of a line, in short form or as an inline table |
| GradleCatalog.ParseGradleVersionCatalog | internal/deps/parsers.go:643-731 | the libraries resolved after the whole pass |
| GradleCatalog.FileAdds | internal/deps/parsers.go:659-713 | versions come from `versions` sections alone, libraries from `libraries` sections alone |
| GradleCatalog.ParsedIs | internal/deps/parsers.go:717-729 | each library, in order, is resolved against all definitions wherever they stand |
| GradleCatalog.SectionOrderIrrelevant | internal/deps/parsers.go:643-731 | moving sections about without swapping two of the same name changes no name, version or order |
| GradleCatalog.PermutedSections | internal/deps/parsers.go:643-731 | any permutation of sections with distinct headers leaves the result |
| GradleCatalog.UnresolvedIsEmpty | internal/deps/parsers.go:719-722 | an unresolved reference gives the empty version |
| GradleLines.VersionsAreLast | internal/deps/parsers.go:673-682 | a name has the version of its last definition in any versions section |
| GradleLines.DefinedIsResolved | internal/deps/parsers.go:717-729 | a library with a reference gets the value of its last definition, wherever the two stand |
| GradleLines.ParsedFromLines | internal/deps/parsers.go:643-731 | the dependencies are exactly what the lines of libraries sections describe, by short form or inline table, in line order |
| GradleCatalog.LinesAreTrue | internal/deps/parsers.go:677-699 | every library carries the number and text of its own line, in increasing order |
| GradleCatalog.EveryFileIsSections | internal/deps/parsers.go:659-672 | every file is some lines and then sections |
| Walk.Excluded | internal/scan/code/scanner.go:112-128 | the loop over the prefixes is the existence of one that matches |
| Walk.UnderIsAncestry | internal/scan/code/scanner.go:121-126 | the string test for a prefix is ancestry, segment by segment |
| Walk.ExclusionInherited | internal/scan/code/scanner.go:112-128 | what lies below an excluded path is excluded, whatever the prefixes |
| Walk.WalkDir | internal/scan/code/scanner.go:72-88 | the walk that does not enter skipped or excluded directories |
| Walk.PrunedIsFilterIff | internal/scan/code/scanner.go:69-108 | the walk visits exactly the files of the full walk without a skipped ancestor and not excluded, iff no prefix stands for the root or none remain |
| Walk.VisitedIff | internal/scan/code/scanner.go:69-108 | a file is visited iff no directory above it has one of the eleven skipped names and nothing excludes it |
| DepsScan.ScanDep | internal/deps/scanner.go:116-137 | one finding per matching entry, in catalog order |
| DepsScan.ScanManifest | internal/deps/scanner.go:106-138 | the findings of one file: none unless it is a manifest that parses |
| DepsScan.ScanPath | internal/deps/scanner.go:86-143 | the findings of the visited manifests in walk order |
| DepsScan.ReportedIff | internal/deps/scanner.go:86-143 | a finding is reported iff some file neither excluded nor below a skipped directory is a manifest with a dependency to which a catalog entry applies |
| DepsScan.ReportedInDetail | internal/deps/scanner.go:116-137 | each finding of a file points at one of its dependencies with the fields of an applicable entry, and each such entry has one |
| DepsScan.FamiliesMatched | internal/deps/scanner.go:38-62 | besides the listed names exactly requirements files and project files are manifests |
| DepsScan.FileNamesAreLast | internal/deps/scanner.go:105 | a file is judged by the last part of its name |
| DepsScan.FileTextsDiffer | internal/deps/scanner.go:127 | different files have different names in the findings |
| DepsScan.ParsersOfNames | internal/deps/scanner.go:21-36 | each manifest format has its own parser |
| DepsScan.ParsersOfLocks | internal/deps/scanner.go:21-36 | so have the lock files of Node and Python |
| DepsScan.ParsersOfMoreLocks | internal/deps/scanner.go:21-36 | and those of the other ecosystems |
| DepsScan.FilesConcat | internal/deps/scanner.go:86-143 | files contribute one by one, in walk order |

## Left out

- ScanScheduler.Scheduler.Sweep: freshness is stated for a sweep that starts while nothing else is scanning, which the single goroutine of `Run` guarantees; with more goroutines a target somebody else holds is skipped.
- Safety.LinksValid: speaks of runs from valid links whose additions carry none; the other runs are covered by Safety.LinksKeptIff and Safety.JsonAddBreaksLinks.
- AlertRuns.AlertsAreEdges: speaks of runs without store errors, from valid links and with additions that carry none; after a failed stamp the next scan compares with an older record.
- AuthChallenge.ParseInvertsShow: values with a double quote are outside the statement, as the code has no escapes; a bare value holds no comma and no white space at its ends.
- Walk.WalkDir: returns the visited files and the callers handle them afterwards in that order, while the Go callback handles each file during the walk; unreadable directories and files are simply not in the tree.
- ChangeSets.CodeIsSpecificationIff: speaks of entries whose name the code reads as the path it stands for, and of whiteouts that name something; names with parent segments and the whiteout of the empty name are outside.
- Osv.PipelineExactIff: speaks of events that obey the schema, which asks for at least one `introduced`, and of upper bounds that do not start with `=`; Osv.ExactIff covers ranges without `introduced`, Osv.FixedReadsBack the other bounds.
- `limit` events of the OSV Schema: the importer's structure has no field for them (internal/osv/osv.go:40-46), so they arrive empty, and the schema's evaluation is modelled without limits.
- Storage.Store.constructor: starts from the lists and records on disk; creating the directories and missing list files, and the errors of that, are not modelled.
- LockFileText.WrittenFileIsRead: the name line stands before the version line, as the tools write them; LockFile.ParsedIsMeaning covers any order.
- EndToEnd.ReportedIffAffected: takes the catalog's entry as the import wrote it; generating Go source from it is not modelled.
- `Run`'s select loop and its ticker: each branch is modelled (`Sweep`, `ServeManual`), the endless choice between them is not.
- HTTP handlers, templates, server startup, password hashing and TLS: plumbing around the store operations.
- Network fetches, token exchange, decompression, tar, ELF and zip decoding: the models start from decoded entries.
- JSON, XML and the file system: a store operation is one step on lists and maps.
- Catalog data and pattern tables, and the simple manifest parsers: parameters, or one match per line.
- Renderers, severity counts, audit events and the text of alert payloads: they would only add easy members.
- The keyword heuristic that decides which advisories are relevant: it has no crisp specification.
- `filepath.Rel`, `path.Clean` with parent segments, symbolic links: paths are taken as already normalised.
- Lines too long for the scanner's buffer: reading stops there in the code, and the models take the lines that were read.
