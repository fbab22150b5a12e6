# Split-APK merger: sanitising the merged module

RevEngi merges the modules of a split APK bundle (base plus configuration
splits) into one installable APK with the ARSCLib library. `Merger.kt`
drives the merge and, between merging and writing, cleans up the merged
module:

- **removeSplitsTableEntry**: for a `<meta-data android:name="com.android.vending.splits">`
  element whose value (android:value, else android:resource) is a
  REFERENCE into the resource table, it removes from the archive every file
  that one of that resource's configuration variants names. It also marks
  those entries null, keeping their ids reserved, and asks each entry's
  type-spec pair to compact its null entries.
- **sanitizeManifest**: does nothing without a manifest. Otherwise it
  strips the split attributes and walks the split-required meta-data
  elements. It runs the table cleanup for the first element that qualifies
  and for no later one. It removes every one of those elements from
  `<application>` and refreshes the manifest.
- **clearMeta / removeSignature**: drops the v1 signature files (paths
  matching `^META-INF/.+\.(([MS]F)|(RSA))`) and `stamp-cert-sha256`, then
  clears the APK signing block.
- **applyExtractNativeLibs**: turns the option into the tri-state passed to
  `setExtractNativeLibs`:
  - `"manifest"` keeps the manifest's value;
  - `"true"` and `"false"` give that boolean;
  - any other string gives null;
  - the keywords are compared ignoring case, and an absent option makes no call.
- **startMerge**: the task itself, modelled as the trace of operations and
  progress messages it produces. The trace covers a complete run and a run
  in which any one operation throws. A thrown Exception is caught and
  reported as an error message. A thrown Error escapes the catch and ends
  the run with no message.

The module is the class `ApkState.ApkModule`. Its fields are:

- the zip entry map;
- the signing block;
- the manifest (a value);
- the resource table, an arena of entries addressed by handles;
- a log of the library calls whose internal effect is not modelled:
  `removeNullEntries`, `manifest.refresh()` and `setExtractNativeLibs`.

Each sanitising step is a method on that class. Its `ensures` ties the new
state to a function on state snapshots (`Merger.RemoveSplits`,
`Merger.Sanitized`, `Merger.WithoutSignatureEntries`,
`Merger.ExtractNativeLibsCalls`). The lemmas state what those functions
promise.

Modules:

| file | module | what it holds |
|---|---|---|
| wrappers.dfy | Wrappers | `Option` |
| manifest_model.dfy | ManifestModel | attributes, elements, `searchAttributeByResourceId`, the value-attribute fallback, child removal |
| table_model.dfy | TableModel | resource table, `getResource`, nulling entries |
| apk_module.dfy | ApkState | the module class and its state snapshot |
| signature_files.dfy | SignatureFiles | the signature-file pattern |
| native_libs.dfy | NativeLibs | case-insensitive keyword resolution of `extractNativeLibs` |
| merger.dfy | Merger | the four sanitising steps |
| merge_task.dfy | MergeTask | option reading and the trace of `startMerge` |

Below, `Merger.kt` stands for
`android/app/src/main/kotlin/org/revengi/app/arsclib/Merger.kt`.

## Model

| member | source | states |
|---|---|---|
| ManifestModel.IndexOfResourceId | android/app/src/main/kotlin/org/revengi/app/arsclib/Merger.kt:143-145 | the position returned holds an attribute with the requested id and no earlier one does; None exactly when no attribute has that id |
| ManifestModel.SearchAttributeByResourceId | android/app/src/main/kotlin/org/revengi/app/arsclib/Merger.kt:149-158 | an attribute is found exactly when the element carries one with that id, and the one found has that id and belongs to the element |
| ManifestModel.ValueAttribute | android/app/src/main/kotlin/org/revengi/app/arsclib/Merger.kt:149-158 | the attribute used belongs to the element and carries the android:value or android:resource id; there is none exactly when the element has neither |
| ManifestModel.SplitsReference | android/app/src/main/kotlin/org/revengi/app/arsclib/Merger.kt:143-163 | a reference is found only when android:name is present with the splits marker and the value attribute is a REFERENCE, and then it is that attribute's data |
| ManifestModel.SplitsReferenceCharacterised | android/app/src/main/kotlin/org/revengi/app/arsclib/Merger.kt:143-163 | the element yields a splits reference exactly when android:name is present and equals com.android.vending.splits and the value attribute is a REFERENCE; the reference is that attribute's data |
| ManifestModel.ValueAttributePrefersValue | android/app/src/main/kotlin/org/revengi/app/arsclib/Merger.kt:149-158 | when android:value is present it is the attribute used, whatever android:resource holds |
| ManifestModel.RemoveChild | android/app/src/main/kotlin/org/revengi/app/arsclib/Merger.kt:134 | removal keeps the attributes, leaves only original children, drops exactly one child when one is the element, and changes nothing when none is |
| ManifestModel.RemoveNode | android/app/src/main/kotlin/org/revengi/app/arsclib/Merger.kt:134 | only original elements remain; one fewer when the identity is present, the same sequence when it is absent |
| ManifestModel.RemoveChildren | android/app/src/main/kotlin/org/revengi/app/arsclib/Merger.kt:124-135 | removing the listed elements one by one keeps the attributes and leaves only original children |
| ManifestModel.RemoveNodeIsFilter | android/app/src/main/kotlin/org/revengi/app/arsclib/Merger.kt:134 | removing one element from children with distinct identities keeps every other child, in order |
| ManifestModel.WithoutNodesSubset | android/app/src/main/kotlin/org/revengi/app/arsclib/Merger.kt:134 | what removal leaves are original children, none of them removed ones, still distinct |
| ManifestModel.WithoutNodesTwice | android/app/src/main/kotlin/org/revengi/app/arsclib/Merger.kt:124-135 | removing two sets of elements one after the other is removing their union |
| ManifestModel.RemoveChildrenRemovesAll | android/app/src/main/kotlin/org/revengi/app/arsclib/Merger.kt:124-135 | after the loop, the application keeps its attributes and exactly the children that are not among the listed elements, in their order |
| TableModel.GetResource | android/app/src/main/kotlin/org/revengi/app/arsclib/Merger.kt:168 | the lookup succeeds exactly when the id is in the table, and every handle it yields names an entry |
| TableModel.NullEntries | android/app/src/main/kotlin/org/revengi/app/arsclib/Merger.kt:179-181 | nulling keeps every slot, id, spec pair and value and the id-to-variants map, and marks null exactly the chosen entries (plus those already null) |
| TableModel.NullEntriesValid | android/app/src/main/kotlin/org/revengi/app/arsclib/Merger.kt:179-181 | nulling entries keeps every resource's handles resolving |
| TableModel.NullEntriesTwice | android/app/src/main/kotlin/org/revengi/app/arsclib/Merger.kt:181 | nulling in two rounds equals nulling the union once |
| SignatureFiles.MatchesSignaturePattern | android/app/src/main/kotlin/org/revengi/app/arsclib/Merger.kt:74 | a matching path starts with META-INF/ and has at least a one-character stem, a dot and a two-letter suffix after it |
| SignatureFiles.MatchesSignaturePatternIff | android/app/src/main/kotlin/org/revengi/app/arsclib/Merger.kt:74 | a path is removed exactly when it reads META-INF/, a non-empty run without line terminators, a dot, and MF, SF or RSA |
| SignatureFiles.V1SignatureFilesMatch | android/app/src/main/kotlin/org/revengi/app/arsclib/Merger.kt:74 | every .MF, .SF and .RSA file under META-INF, in any sub-directory and under any non-empty name without line terminators, is a signature entry |
| SignatureFiles.DsaAndEcBlocksKept | android/app/src/main/kotlin/org/revengi/app/arsclib/Merger.kt:72-76 | DSA and EC signature blocks are not signature entries and survive |
| SignatureFiles.EmptyStemAndSuffixKept | android/app/src/main/kotlin/org/revengi/app/arsclib/Merger.kt:72-76 | META-INF/.SF (empty stem) and META-INF/CERT.SF.bak (trailing text) survive |
| NativeLibs.EqualsIgnoreCase | android/app/src/main/kotlin/org/revengi/app/arsclib/Merger.kt:196-205 | a string equals a keyword ignoring case whenever it equals it outright, and only when it has the keyword's length |
| NativeLibs.ResolveExtractNativeLibs | android/app/src/main/kotlin/org/revengi/app/arsclib/Merger.kt:194 | a value is applied exactly when the option is present |
| NativeLibs.ResolveCases | android/app/src/main/kotlin/org/revengi/app/arsclib/Merger.kt:194-208 | the applied value for each case: true, false, the manifest's value, null without a manifest, null for any other string |
| NativeLibs.KeywordsExclusive | android/app/src/main/kotlin/org/revengi/app/arsclib/Merger.kt:196-207 | no string equals two of manifest/true/false ignoring case, so the order of the tests does not matter |
| NativeLibs.ResolveIgnoresAsciiCase | android/app/src/main/kotlin/org/revengi/app/arsclib/Merger.kt:196-205 | upper-casing the option's ASCII letters never changes the applied value |
| NativeLibs.NonAsciiSpellingsAccepted | android/app/src/main/kotlin/org/revengi/app/arsclib/Merger.kt:196-205 | spellings with a dotless i or a long s are accepted as the keywords, as Java's per-character case mapping does |
| Merger.SplitsResourceGuards | android/app/src/main/kotlin/org/revengi/app/arsclib/Merger.kt:143-168 | the function stops early exactly when one guard fails; otherwise it works on the variants of the referenced id |
| Merger.SplitsResource | android/app/src/main/kotlin/org/revengi/app/arsclib/Merger.kt:143-168 | when the guards pass there is a table and every variant handle returned names one of its entries |
| Merger.Cleanup | android/app/src/main/kotlin/org/revengi/app/arsclib/Merger.kt:169-186 | every entry the loop nulls is one of the variants, exists in the table and has a file value |
| Merger.CleanupCharacterised | android/app/src/main/kotlin/org/revengi/app/arsclib/Merger.kt:170-186 | the loop removes exactly the backing paths of the file-backed variants and nulls exactly those entries; it compacts once per such variant, in order; null slots and file-less entries are skipped |
| Merger.CompactionsSnoc | android/app/src/main/kotlin/org/revengi/app/arsclib/Merger.kt:170-186 | one more variant adds exactly its own compaction call after the others |
| Merger.ApplyCleanup | android/app/src/main/kotlin/org/revengi/app/arsclib/Merger.kt:169-186 | the cleanup keeps the manifest, the signing block and every table slot; the archive only loses entries and the rest keep their bytes; calls are only appended |
| Merger.RemoveSplits | android/app/src/main/kotlin/org/revengi/app/arsclib/Merger.kt:139-188 | the table stays well formed; the manifest and the signing block are untouched |
| Merger.RemoveSplitsEffect | android/app/src/main/kotlin/org/revengi/app/arsclib/Merger.kt:139-188 | returns true exactly when the guards pass; on false nothing changes; on true exactly the variants' files leave the archive (others keep their bytes), exactly those entries are nulled with every slot kept, and one compaction per variant is logged |
| Merger.ApplyCleanupSnoc | android/app/src/main/kotlin/org/revengi/app/arsclib/Merger.kt:170-186 | one loop iteration on the current state is the cleanup of one more variant |
| Merger.RemoveVariants | android/app/src/main/kotlin/org/revengi/app/arsclib/Merger.kt:169-186 | the loop over the variants leaves the module in the state ApplyCleanup describes: the cleanup of exactly the file-backed variants |
| Merger.RemoveSplitsTableEntry | android/app/src/main/kotlin/org/revengi/app/arsclib/Merger.kt:139-188 | the returned flag and the module's new state are those of RemoveSplits on the old state, and the module stays well formed |
| Merger.FirstSplits | android/app/src/main/kotlin/org/revengi/app/arsclib/Merger.kt:123-127 | the index returned is the first element whose guards pass; None exactly when none passes |
| Merger.FirstSplitsSnoc | android/app/src/main/kotlin/org/revengi/app/arsclib/Merger.kt:123-127 | once found, the first qualifying element stays the first when more elements follow |
| Merger.MetaLoop | android/app/src/main/kotlin/org/revengi/app/arsclib/Merger.kt:120-135 | the loop over the split-required elements keeps the module well formed and its manifest present |
| Merger.MetaLoopEffect | android/app/src/main/kotlin/org/revengi/app/arsclib/Merger.kt:120-135 | the flag is set exactly when some element qualifies; the cleanup runs once, for the first qualifying element; all listed elements are removed from the application; with no qualifying element the archive, table and calls are untouched |
| Merger.Sanitized | android/app/src/main/kotlin/org/revengi/app/arsclib/Merger.kt:78-137 | sanitising keeps the table well formed |
| Merger.SanitizeManifestEffect | android/app/src/main/kotlin/org/revengi/app/arsclib/Merger.kt:78-137 | without a manifest nothing changes; with one, the listed split elements leave the application (the rest stay, in order), the cleanup runs at most once for the first qualifying element, the signing block is kept and the manifest is refreshed last |
| Merger.RemoveSplitsTwice | android/app/src/main/kotlin/org/revengi/app/arsclib/Merger.kt:123-127 | under the model's choice that a nulled entry keeps its file value and that compaction does not change the table, a second cleanup of the same element finds the same file-backed variants: it removes no further file and nulls no new entry, but logs every compaction call again, which the splitsRemoved flag prevents |
| Merger.CleanupSameFiles | android/app/src/main/kotlin/org/revengi/app/arsclib/Merger.kt:174-181 | marking entries null does not change which variants are file-backed or their paths |
| Merger.SanitizeManifest | android/app/src/main/kotlin/org/revengi/app/arsclib/Merger.kt:78-137 | the module's new state is Sanitized of the old one and stays well formed |
| Merger.WithoutSignatureEntries | android/app/src/main/kotlin/org/revengi/app/arsclib/Merger.kt:72-76 | what is left is a sub-archive of the original with unchanged bytes, and never contains stamp-cert-sha256 |
| Merger.WithoutSignatureEntriesEffect | android/app/src/main/kotlin/org/revengi/app/arsclib/Merger.kt:72-76 | the archive keeps exactly the non-signature entries with their bytes, no pattern match and no stamp certificate remains, and a second removal changes nothing |
| Merger.RemoveSignature | android/app/src/main/kotlin/org/revengi/app/arsclib/Merger.kt:72-76 | the archive becomes WithoutSignatureEntries of the old archive and nothing else changes |
| Merger.ClearMeta | android/app/src/main/kotlin/org/revengi/app/arsclib/Merger.kt:67-70 | the signature entries are removed and the signing block is cleared; nothing else changes |
| Merger.ExtractNativeLibsCalls | android/app/src/main/kotlin/org/revengi/app/arsclib/Merger.kt:194-211 | exactly one setExtractNativeLibs call with the option, none without |
| Merger.ApplyExtractNativeLibs | android/app/src/main/kotlin/org/revengi/app/arsclib/Merger.kt:190-212 | only the call log changes, by the resolved setExtractNativeLibs call |
| MergeTask.BooleanOptionsDefaultFalse | android/app/src/main/kotlin/org/revengi/app/arsclib/Merger.kt:20-23 | a boolean option is on exactly when the map holds the Boolean true under its key; a missing map, key or non-Boolean value means off |
| MergeTask.ReadSettings | android/app/src/main/kotlin/org/revengi/app/arsclib/Merger.kt:18-24 | a missing option map reads as no options at all; a directory or output path is read only from a String under its key |
| MergeTask.NthCall | android/app/src/main/kotlin/org/revengi/app/arsclib/Merger.kt:16-63 | the position located is an operation with exactly k operations before it; there is none exactly when the trace has at most k operations |
| MergeTask.NthCallFindsEvery | android/app/src/main/kotlin/org/revengi/app/arsclib/Merger.kt:16-63 | every operation of a trace is located by the number of operations before it, so any operation can be the one that throws |
| MergeTask.OpsAppend | android/app/src/main/kotlin/org/revengi/app/arsclib/Merger.kt:32-57 | the operations of two traces in sequence are the operations of each, in sequence |
| MergeTask.OpsMembership | android/app/src/main/kotlin/org/revengi/app/arsclib/Merger.kt:32-57 | an operation occurs in a trace exactly when it is among the trace's operations |
| MergeTask.Plan | android/app/src/main/kotlin/org/revengi/app/arsclib/Merger.kt:32-60 | a complete run starts with the searching message and ends with mergeComplete |
| MergeTask.Run | android/app/src/main/kotlin/org/revengi/app/arsclib/Merger.kt:14-64 | a run where nothing throws is the complete run; any run is a prefix of it, possibly followed by the error message |
| MergeTask.PlanOps | android/app/src/main/kotlin/org/revengi/app/arsclib/Merger.kt:32-58 | a complete run's operations, in order: logger, load, merge, then rename, validate and clear under their conditions, then sanitise, refresh table, refresh manifest, apply, write, close both, and delete the source directory only when it was given and exists |
| MergeTask.PlanSteps | android/app/src/main/kotlin/org/revengi/app/arsclib/Merger.kt:48-53 | every complete run sanitises, refreshes the table and the manifest, applies the option and writes the module |
| MergeTask.PlanRenames | android/app/src/main/kotlin/org/revengi/app/arsclib/Merger.kt:36-39 | the rename runs exactly when resDirName is not "", so also, with a null name, when it is absent |
| MergeTask.InOrderAppend | android/app/src/main/kotlin/org/revengi/app/arsclib/Merger.kt:32-58 | two ordered traces whose rank ranges follow each other concatenate to an ordered trace |
| MergeTask.PlanInOrder | android/app/src/main/kotlin/org/revengi/app/arsclib/Merger.kt:32-58 | a complete run performs each operation at most once, in the prescribed order |
| MergeTask.RunInOrder | android/app/src/main/kotlin/org/revengi/app/arsclib/Merger.kt:16-63 | every run, failed or not, keeps that order |
| MergeTask.PlanTerminalLast | android/app/src/main/kotlin/org/revengi/app/arsclib/Merger.kt:59-60 | a complete run ends with the mergeComplete message and posts no terminal message before it |
| MergeTask.TerminalMessage | android/app/src/main/kotlin/org/revengi/app/arsclib/Merger.kt:14-64 | no terminal message precedes a run's last event; it ends with mergeComplete exactly when no operation threw, with error exactly when an Exception was caught, and with no terminal message when an Error escapes the catch |
| MergeTask.DeleteOnlyAfterWrite | android/app/src/main/kotlin/org/revengi/app/arsclib/Merger.kt:53-62 | the source directory is deleted only in a run that completes, and only after the module was written |
| MergeTask.NothingOutranksDelete | android/app/src/main/kotlin/org/revengi/app/arsclib/Merger.kt:56-58 | in an ordered trace no operation follows the deletion, so a run that throws never deletes |
| MergeTask.WriteBeforeDelete | android/app/src/main/kotlin/org/revengi/app/arsclib/Merger.kt:53-57 | in an ordered trace that writes the module, the write comes before any deletion |

## Left out

- ARSCLib internals are not part of this model. Three effects inside the sanitising steps that are not visible in the model's state are recorded in the module's call log: `removeNullEntries` compaction, `AndroidManifestBlock.refresh` and `setExtractNativeLibs`. Loading, merging, renaming the resources root dir, validating, `writeApk` and closing are operations in the startMerge trace; their effect on the module is not modelled. The table is reduced to entries, ids, spec pairs and file values.
- The AndroidManifestHelper attribute removals and `listSplitRequired` are parameters of `Merger.Sanitized` (`strip`, `listSplitRequired`). Their code is not part of this model, so nothing is proved about which attributes they remove or which elements they list.
- Progress messages posted inside the sanitising steps (`sendLog` in sanitizeManifest, removeSplitsTableEntry and applyExtractNativeLibs) carry no state and are not modelled. The messages startMerge posts itself are modelled as trace events.
- The background thread, the Flutter event channel (`sendLog`, FlutterLogger, MainActivity) and the file system are left out. Whether the source directory exists is a parameter; the files written and deleted are not modelled.
- A manifest without an `<application>` element is not modelled: `Manifest.application` is always present. Where the source would throw, the model always has an application.
- A file value whose `valueAsString` is null is not modelled: `resValue` is `Option<string>`, and a present value always names a path.
- Whether nulling an entry also clears its value is not modelled. Handles and file values are kept, which is all the second-call lemma depends on.
- An exception thrown inside the sanitising steps is modelled only at the level of startMerge. An Exception ends the trace with the error message. An Error (such as OutOfMemoryError) is not caught by `catch (e: Exception)` and ends the trace with no message. Partial effects of the operation that throws are not modelled.
- MergeTask.TerminalMessage: speaks only of the messages startMerge posts itself. The library's messages to the FlutterLogger installed at Merger.kt:32 are not trace events. Its `logError` posts a message of type "error" in the middle of a run (FlutterLogger.kt:15), so on the event channel an "error" message need not be terminal.
- SignatureFiles.MatchesSignaturePattern: ARSCLib's `removeIf(Pattern)` is read as a whole-path match (`Matcher.matches`). Under `find` semantics, paths such as `META-INF/CERT.SF.bak` would also be removed. This model does not capture that reading.
- NativeLibs.SameLetterIgnoringCase: covers Java's `equalsIgnoreCase` only for the three lower-case ASCII keywords. It has ASCII case plus the four non-ASCII characters that map onto i, s and k. A general case-folding table is not modelled.
- ManifestModel.SearchAttributeByResourceId: returns the first attribute carrying the id. ARSCLib's lookup order for duplicate ids is not part of this model.
- Merger.SanitizeManifestEffect: states the children that are left only when the application's children have distinct identities. With repeated identities it states only that the attributes are kept.
- Merger.ExtractNativeLibsCalls: its own contract gives only the number of calls. The value passed is stated by NativeLibs.ResolveCases about `ResolveExtractNativeLibs`.
- MergeTask.Run: the text of the progress messages (module count, paths, exception message) is abstracted to message kinds with their arguments.
