# Incremental change detection of the EAD ingest tool, in Dafny

This project models the change-detection engine of `ProcessUpdateService`. The
engine scans two directory roots of archival description files. These are the
ResourceSync (RS) channel and the OAI-PMH (PMH) channel. Each root holds one
sub-directory per data provider. The engine builds a snapshot for each root. A
snapshot maps each provider to its file records: name, path, last-modified
time and size. Each snapshot is diffed against the baseline saved by the
previous run. The PMH changes are merged into the RS changes, and the merged
map is saved as the new baseline. Two smaller helpers of the same class are
modelled too. One strips DOCTYPE lines from a file. The other binds compressed
collections to provider configurations.

Modules, one per part of the source:

- `Records` (`records.dfy`): the file record, snapshots, `Option` and `Outcome`.
  An `Outcome` is `Ok` or `NullPointer`, the exception the source throws. The
  module also has first-by-name lookup, removal at an index, and subsequence
  lemmas.
- `ListCompare` (`compare.dfy`): `compareMetaDataLists`. It is a method with the
  source's nested loop, proved against the specification function `Compare`.
- `ChangeDetection` (`detect.dfy`): `detectChanges`. It is a loop over the
  fresh providers, proved against `Detect`.
- `SnapshotMerge` (`merge.dfy`): `deepMerge` over the tagged variant
  `Leaf(records) | Node(children)`. It is a loop with recursion, proved against
  `Merge`.
- `SnapshotBuilder` (`snapshot.dfy`): `initiateFileStatus`, `readEADFiles` and
  `collectMetaData`. They run over a directory tree given as data.
- `DetectionCycle` (`cycle.dfy`): `checkChanges` and `checkForChanges`. Loading
  is an input and saving is an output.
- `Text` (`text.dfy`): `String.contains` and a case-insensitive variant.
- `DocType` (`doctype.dfy`): the line filter of `removeDocTypeFromFile`.
- `CollectionBinding` (`binding.dfy`): `addEADFileLocation`.

Hash-map iteration order is unspecified in the source. Where a loop walks a
key set, the model picks each key with `:|`, so any order is allowed. The
proofs show that the result does not depend on that order. The one place
where order matters is the collection loop of `addEADFileLocation`. There the
collections come as a sequence in iteration order.

The intended two-channel scenario is this: each channel adds one file for the
same provider, and the combined change set lists both files. The code does not
do that. `deepMerge` replaces the RS list with the PMH list. The model follows
the code (`DetectionCycle.EndToEndAsWritten`). The consequence is recorded
under "## Findings".

## Model

| member | source | states |
|---|---|---|
| `Records.FindByName` | src/main/java/com/ontotext/ehri/services/ProcessUpdateService.java:117-118 | the index found holds a record with exactly that file name, and no earlier record has it; the result is the list's length when no record has it |
| `Records.RemoveAt` | src/main/java/com/ontotext/ehri/services/ProcessUpdateService.java:123 | the list is one element shorter; the elements before the index keep their place, and those after it move down by one |
| `Records.RemoveAtMultiset` | src/main/java/com/ontotext/ehri/services/ProcessUpdateService.java:123 | removal takes out exactly the one record at the index, as a multiset |
| `ListCompare.CompareMetaDataLists` | src/main/java/com/ontotext/ehri/services/ProcessUpdateService.java:113-135 | the nested loop returns `Compare(base, fresh)`: anomaly reports in baseline order, then the unconsumed fresh records; the fresh list is left holding exactly the unconsumed records |
| `ListCompare.ConsumeFirstMatch` | src/main/java/com/ontotext/ehri/services/ProcessUpdateService.java:116-127 | the inner search removes the first fresh record named like the baseline record, reports it exactly when the baseline timestamp is strictly greater, and leaves the list as it is when no record has that name |
| `ListCompare.ConsumedAndLeftoversPartitionFresh` | src/main/java/com/ontotext/ehri/services/ProcessUpdateService.java:115-133 | each baseline record consumes at most one fresh record: consumed records plus leftovers are exactly the fresh list as a multiset, and the anomaly reports are among the consumed ones, so a consumed record is never reported again |
| `ListCompare.CompareIsSubMultiset` | src/main/java/com/ontotext/ehri/services/ProcessUpdateService.java:113-135 | the change list is a sub-multiset of the fresh list and no longer than it |
| `ListCompare.LeftoversKeepFreshOrder` | src/main/java/com/ontotext/ehri/services/ProcessUpdateService.java:129-133 | the unconsumed records are reported in the fresh list's order (a subsequence of it) |
| `ListCompare.AnomalyHasNewerBaseline` | src/main/java/com/ontotext/ehri/services/ProcessUpdateService.java:118-121 | every timestamp-anomaly report has a baseline record of the same name with a strictly greater timestamp |
| `ListCompare.UnmatchedNameIsReported` | src/main/java/com/ontotext/ehri/services/ProcessUpdateService.java:129-133 | a fresh record whose name no baseline record carries is reported, every copy of it |
| `ListCompare.ReportedIff` | src/main/java/com/ontotext/ehri/services/ProcessUpdateService.java:115-133 | for a fresh list with distinct names, a fresh record is reported if and only if no baseline record has its name or the first baseline record with its name has a strictly greater timestamp |
| `ListCompare.PositionalRule` | src/main/java/com/ontotext/ehri/services/ProcessUpdateService.java:115-133 | for any lists, repeated names included: of the records named `n`, the change list holds exactly the positional pairing, in which the `k`-th fresh record named `n` is consumed by the `k`-th baseline record named `n` |
| `ListCompare.PositionalAt` | src/main/java/com/ontotext/ehri/services/ProcessUpdateService.java:115-133 | in that pairing, the `k`-th fresh record of a name is reported exactly when the baseline has no `k`-th record of that name, or that record's timestamp is strictly greater; it comes after the earlier positions' reports and before the later ones |
| `ListCompare.DuplicateNamesPaired` | src/main/java/com/ontotext/ehri/services/ProcessUpdateService.java:115-133 | two fresh files named `x.xml` (from different sub-directories) against one baseline `x.xml` at timestamp 5: the first (timestamp 1) is paired and reported as older, and the second (timestamp 9) is reported as unpaired |
| `ListCompare.SelfCompareIsEmpty` | src/main/java/com/ontotext/ehri/services/ProcessUpdateService.java:113-135 | comparing any list with itself reports nothing, whether or not names repeat |
| `ListCompare.TimestampRule` | src/main/java/com/ontotext/ehri/services/ProcessUpdateService.java:118-124 | for one baseline and one fresh record of the same name, the fresh record is reported exactly when the baseline timestamp is strictly greater; equal or newer fresh timestamps are no change |
| `ListCompare.AdditionDetected` | src/main/java/com/ontotext/ehri/services/ProcessUpdateService.java:129-133 | a baseline `[f1]` against a fresh `[f1, f2]` reports exactly `[f2]` |
| `ChangeDetection.DetectChanges` | src/main/java/com/ontotext/ehri/services/ProcessUpdateService.java:100-111 | the provider loop yields `Detect`: a null dereference when a fresh provider has no baseline list, otherwise the per-provider comparison over the fresh providers |
| `ChangeDetection.DetectKeysAndEntries` | src/main/java/com/ontotext/ehri/services/ProcessUpdateService.java:100-115 | the diff fails if and only if a fresh provider is missing from the baseline; otherwise its key set is exactly the fresh key set (baseline-only providers never appear), and each entry is a sub-multiset of the fresh list |
| `ChangeDetection.DetectSelfIsEmpty` | src/main/java/com/ontotext/ehri/services/ProcessUpdateService.java:100-111 | diffing a snapshot against itself gives an empty list for every provider |
| `SnapshotMerge.DeepMerge` | src/main/java/com/ontotext/ehri/services/ProcessUpdateService.java:74-85 | the key loop with recursion returns `Merge(original, newer)`, in whatever order the keys are taken |
| `SnapshotMerge.MergeLaws` | src/main/java/com/ontotext/ehri/services/ProcessUpdateService.java:75-82 | keys only in `original` keep their value; a newer value that does not meet a nested map on both sides replaces the original one wholesale; two nested maps are merged recursively |
| `SnapshotMerge.MergeEmpty` | src/main/java/com/ontotext/ehri/services/ProcessUpdateService.java:75 | merging an empty map returns the original unchanged |
| `SnapshotMerge.MergeSelf` | src/main/java/com/ontotext/ehri/services/ProcessUpdateService.java:74-85 | merging a structure into itself changes nothing, at any depth |
| `SnapshotMerge.MergeOfSnapshots` | src/main/java/com/ontotext/ehri/services/ProcessUpdateService.java:68 | on snapshots, whose values are record lists, the deep merge is map override `a + b`: keys are the union, and `b`'s list wins for every key of `b`, never concatenated with `a`'s |
| `SnapshotBuilder.ContentDir` | src/main/java/com/ontotext/ehri/services/ProcessUpdateService.java:198-205 | the content directory is `metadata/__SOR__/ead` when that path exists under a provider directory, otherwise the provider directory itself, and nothing for an entry that is not a directory |
| `SnapshotBuilder.ReadEadFiles` | src/main/java/com/ontotext/ehri/services/ProcessUpdateService.java:198-213 | null (`None`) exactly for an entry that is not a directory or whose content path is a regular file; otherwise a list holding exactly the regular files at any depth under the content directory |
| `SnapshotBuilder.ListFilesExactlyFilesUnder` | src/main/java/com/ontotext/ehri/services/ProcessUpdateService.java:208-210 | the recursive listing holds exactly the regular files at any depth under the content directory |
| `SnapshotBuilder.CollectMetaData` | src/main/java/com/ontotext/ehri/services/ProcessUpdateService.java:181-196 | one record per listed file, in listing order, with name, path, timestamp and size copied; an empty list for a null file list |
| `SnapshotBuilder.InitiateFileStatus` | src/main/java/com/ontotext/ehri/services/ProcessUpdateService.java:137-153 | the root-entry loop returns `BuildSnapshot(root)` |
| `SnapshotBuilder.BuildFromKeys` | src/main/java/com/ontotext/ehri/services/ProcessUpdateService.java:144-148 | every root entry, directory or not, becomes a provider key, and nothing else does |
| `SnapshotBuilder.BuildFromEntry` | src/main/java/com/ontotext/ehri/services/ProcessUpdateService.java:144-148 | with distinct entry names, each provider holds the records built from its own entry |
| `SnapshotBuilder.NoRootNoProviders` | src/main/java/com/ontotext/ehri/services/ProcessUpdateService.java:139-150 | a missing root, or a root that is a regular file, yields an empty snapshot |
| `SnapshotBuilder.ProviderRecordsLaws` | src/main/java/com/ontotext/ehri/services/ProcessUpdateService.java:198-213 | a non-directory entry, or a content path that is a regular file, contributes an empty list; otherwise one copied record per file of the content directory |
| `DetectionCycle.CheckChanges` | src/main/java/com/ontotext/ehri/services/ProcessUpdateService.java:87-98 | the channel's changes are `ChangesFor(saved, BuildSnapshot(root))` |
| `DetectionCycle.Bootstrap` | src/main/java/com/ontotext/ehri/services/ProcessUpdateService.java:89-95 | with no saved baseline, or an empty one, the fresh snapshot is returned unchanged |
| `DetectionCycle.ChangesForKeys` | src/main/java/com/ontotext/ehri/services/ProcessUpdateService.java:89-111 | with a non-empty baseline, a channel fails if and only if a fresh provider has no baseline list; otherwise its keys are exactly the fresh snapshot's |
| `DetectionCycle.CheckForChanges` | src/main/java/com/ontotext/ehri/services/ProcessUpdateService.java:62-72 | the cycle returns `CycleResult` of the two built snapshots, and the map saved is exactly the map returned; nothing is saved when the cycle dies |
| `DetectionCycle.CyclePmhOverridesRs` | src/main/java/com/ontotext/ehri/services/ProcessUpdateService.java:66-68 | for every provider in the PMH changes the result holds the PMH list, even an empty one; for a provider only in the RS changes it holds the RS list; keys are the union |
| `DetectionCycle.CycleKeys` | src/main/java/com/ontotext/ehri/services/ProcessUpdateService.java:64-69 | a successful cycle covers exactly the providers of the two fresh snapshots, so a provider known only to the baseline is dropped from what is saved |
| `DetectionCycle.EndToEndAsWritten` | src/main/java/com/ontotext/ehri/services/ProcessUpdateService.java:66-68 | two channels with no baseline, each adding one file for provider `acme`, yield `{acme: [PMH file]}` only |
| `DetectionCycle.RsAdditionLost` | src/main/java/com/ontotext/ehri/services/ProcessUpdateService.java:62-72 | a file added on the RS channel for a provider the PMH channel also serves is neither returned nor saved |
| `DetectionCycle.JoinedKeepsEveryChange` | src/main/java/com/ontotext/ehri/services/ProcessUpdateService.java:68 | the corrected cycle, which joins the two channels' lists, keeps every change of either channel: each provider's list is, as a multiset, the RS list plus the PMH list |
| `DetectionCycle.EndToEndJoined` | src/main/java/com/ontotext/ehri/services/ProcessUpdateService.java:66-68 | in the two-channel scenario the corrected cycle reports both new files |
| `DocType.RemoveDocType` | src/main/java/com/ontotext/ehri/services/ProcessUpdateService.java:249-263 | an empty file is to be deleted; otherwise the loop rewrites the file with `Stripped(lines)` |
| `DocType.StrippedRemovesExactlyMarked` | src/main/java/com/ontotext/ehri/services/ProcessUpdateService.java:258-261 | a line with `<!DOCTYPE` or `ead.dtd` never appears in the output; every other line appears as often as in the input; relative order is kept |
| `DocType.StrippedHasNoMarker` | src/main/java/com/ontotext/ehri/services/ProcessUpdateService.java:259 | no output line contains either marker |
| `DocType.StrippedIdempotent` | src/main/java/com/ontotext/ehri/services/ProcessUpdateService.java:258-261 | filtering twice equals filtering once |
| `DocType.SecondPass` | src/main/java/com/ontotext/ehri/services/ProcessUpdateService.java:253-263 | a second pass over a rewritten file leaves it as it is, unless every line was a marker: the file is then empty and is deleted |
| `Text.ContainsIffOccurs` | src/main/java/com/ontotext/ehri/services/ProcessUpdateService.java:259 | `contains` holds exactly when the fragment occurs at some index |
| `Text.ContainsIgnoresCase` | src/main/java/com/ontotext/ehri/services/ProcessUpdateService.java:353 | an exact occurrence is also a case-insensitive one |
| `CollectionBinding.LastMatch` | src/main/java/com/ontotext/ehri/services/ProcessUpdateService.java:351-356 | the collection found contains the key ignoring case, and no later collection does; nothing is found exactly when no collection contains the key |
| `CollectionBinding.AddEadFileLocation` | src/main/java/com/ontotext/ehri/services/ProcessUpdateService.java:348-359 | the key set is unchanged; each configuration is bound to its last matching collection in iteration order, or left as it was |
| `CollectionBinding.BindCollection` | src/main/java/com/ontotext/ehri/services/ProcessUpdateService.java:351-357 | one pass of the inner loop, keys in any order: exactly the configurations whose key the collection's name contains are pointed at it, and the rest are unchanged |
| `CollectionBinding.UnmatchedConfigUnchanged` | src/main/java/com/ontotext/ehri/services/ProcessUpdateService.java:351-358 | a configuration whose key occurs in no collection name is left exactly as it was |
| `CollectionBinding.MatchedConfigBound` | src/main/java/com/ontotext/ehri/services/ProcessUpdateService.java:353-355 | a matched configuration gets the folder name and archive path of a collection whose name contains its key ignoring case; its other fields are unchanged |
| `CollectionBinding.LastMatchWins` | src/main/java/com/ontotext/ehri/services/ProcessUpdateService.java:351-356 | with two matching collections, the later one in iteration order wins |

## Left out

- `prepareForValidation` and `copyFiles` are left out. They only create directories and copy files.
- `compress` and `compressFileCollection` are left out. They only write tar archives.
- `processIngest` is left out. It is an HTTP POST and a read of the response.
- `listValidationFolderFiles` is left out; it lists the dated validation folder. `fixInputValidationFolder` is left out too; it runs `removeDocTypeFromFile` on each regular file of that listing, and only that function's line filter is modelled (`DocType`). The file read, write and delete inside `removeDocTypeFromFile` are not modelled. Line terminators are not modelled.
- `listAllFiles` and `checkLocationForDirectories` are left out. `listAllFiles` calls `checkLocationForDirectories` and itself, but both are reachable only from the call commented out at line 142 of `ProcessUpdateService.java`.
- The persistence layer is not part of this model. This covers `loadSavedConfig` and `saveMetaData` and their file format. The loaded baseline is an input of the cycle and the saved map is an output. A failure to save is not modelled.
- Configuration lookups, Spring wiring, logging and date formatting are left out.
- The real filesystem is replaced by a tree given as data (`FsNode`). A file's timestamp and size are whatever the tree says. A file that vanishes or cannot be read mid-scan is not modelled.
- The listing order of `FileUtils.listFiles` is modelled as depth-first, in directory order.
- Java `long` timestamps and sizes are unbounded integers. The only arithmetic on them is the `>` comparison, which does not overflow.
- Null fields inside a record, and null lists inside a loaded baseline, are not modelled. A missing baseline provider is modelled; it is the `NullPointer` outcome.
- ListCompare.CompareMetaDataLists: works on values. The fresh list the source empties in place comes back as the out-parameter `remaining`. The in-place change to the fresh snapshot's lists cannot be seen afterwards, because that snapshot is discarded.
- SnapshotMerge.DeepMerge: works on values. It returns the merged map instead of mutating `original`. The sharing of `newMap`'s child maps into `original` is not modelled.
- CollectionBinding.AddEadFileLocation: works on a map of configuration values. It returns the updated map instead of setting fields on shared objects. Two keys that share one configuration object are not modelled.
- Text.ContainsIgnoreCase: only ASCII letters are upper-cased. The full Unicode case mapping of `Locale.US` is not modelled.
- ListCompare.ReportedIff: assumes the fresh list has distinct names. A recursive listing can break that assumption: two files of one name in different sub-directories give two records of that name. `ListCompare.PositionalRule` and `ListCompare.PositionalAt` state the rule without the assumption.

## Findings

| source | as written | input that shows it | evidently intended | confidence | as-written member | corrected member |
|---|---|---|---|---|---|---|
| src/main/java/com/ontotext/ehri/services/ProcessUpdateService.java:68 | `deepMerge(rsChanges, PMHChanges)` on two maps of lists replaces a provider's RS change list with its PMH change list, even an empty one | baseline `{acme: [b.xml@3]}`, RS fresh `{acme: [a.xml@5]}`, PMH fresh `{acme: [b.xml@3]}`: the cycle returns and saves `{acme: []}`, and the new RS file `a.xml` is never reported | both channels' changes for a provider are kept, so the two-channel scenario yields both new files | medium (the intended scenario lists both files); not executed | `DetectionCycle.RsAdditionLost` | `DetectionCycle.JoinedKeepsEveryChange` |

`DetectionCycle.CheckForChanges` models the code as written. The corrected
cycle is `DetectionCycle.CycleResultJoined`. It joins the RS list and the PMH
list for each provider.
