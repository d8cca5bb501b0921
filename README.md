# create-biome: the package.json merge/delete engine and package-manager helpers

This project models the logic at the centre of create-biome, a CLI that sets up the Biome linter/formatter in an existing JavaScript project. It proves properties of that model in Dafny.

It covers four parts:

- **The merge/delete engine** of `src/services/packageJson.ts`.
  - `applyMergeRecursively` overlays a merge spec onto the user's `package.json`.
  - `applyDeleteRecursively` walks a delete spec and removes the keys it marks with `null`. It prunes nested objects that the removal leaves empty, and reports every removed path formatted by `formatJsonPath`.
- **The older copy** of the engine in `src/utils/packageJson.ts`. Its delete keeps no report and deletes `null`-marked keys without checking that they are present.
- **The pure part of `src/services/packageManager.ts`**:
  - lockfile detection;
  - the order in which the package managers are offered;
  - the command line that installs development dependencies.
- **The merge fold of `src/commands/init.ts`**. The base template's merge spec is applied first and the chosen template's spec second. A spec file that does not exist is skipped.

## How the model is built

- **JSON values.** A JSON value is the datatype `Json.Json`. An object is an ordered list of `(key, value)` entries. The order is the one `Object.entries` enumerates, which decides:
  - the order of the removed-path report;
  - where a newly assigned key lands.
- **Object access.** `Json.Get`, `Json.Put` and `Json.Remove` play the parts of `target[key]`, `target[key] = value` and `delete target[key]`.
- **Preconditions on keys.** The inputs are what `JSON.parse` produces, so every object has distinct keys at every depth (`Json.WellFormed`). Lemmas that compare values key by key assume this. The engine methods themselves run on any input.
- **In-place edits.** The source edits the target object in place. Each method here returns the edited field list instead. A nested object that the source edits in place is written back into its slot once the recursive call returns.
- **Folds.** `PackageJson.DeleteEntries` and `PackageJson.MergeEntries` give the state after the loop has handled the first `n` spec entries. The loops are proved against them.
- **Independent reference.** `DeleteProperties.Deleted` is a second definition of delete that walks the *target's* entries instead of the spec's. Most of the delete properties are proved on it.
- **Legacy delete.** The older delete has its own fold, methods and properties. `LegacyPackageJson.DeleteAgrees` proves that on every input it leaves the same tree as the newer delete.
- **Legacy merge.** The older merge (`src/utils/packageJson.ts:49-61`) has the same text as the newer one, so the newer model covers both.

`src/commands/init.ts` never calls the delete engine: it applies only the merge specs. So the model has no delete step before the merge.

## Model

| member | source | states |
|---|---|---|
| PackageJson.ApplyDeleteRecursively | src/services/packageJson.ts:37-67 | After the loop over every spec entry, in `Object.entries` order, the target and the formatted report are those of the fold `DeleteEntries` |
| PackageJson.DeleteEntryFrom | src/services/packageJson.ts:44-63 | One iteration for entry `(key, value)`. A null value removes an own key and reports its path, and changes nothing for an absent key. An object value over an object slot recurses, writes the result back, and prunes the slot if it is now empty, reporting it after the nested paths. Anything else changes and reports nothing |
| PackageJson.ApplyPackageDeleteSpec | src/services/packageJson.ts:29-31 | Returns the edited manifest and the report of the delete, starting from the root path |
| PackageJson.ApplyMergeRecursively | src/services/packageJson.ts:69-81 | After the loop over every spec entry, the target is the fold `MergeEntries`. The older copy at src/utils/packageJson.ts:49-61 has the same text |
| PackageJson.MergeEntryInto | src/services/packageJson.ts:70-80 | One iteration. A plain-object value makes the slot `{}` unless it already holds an object, merges into it, and writes the result back. Any other value is assigned as it is |
| PackageJson.ApplyPackageMergeSpec | src/services/packageJson.ts:33-35 | The target after the merge is `Merge(target, spec)`. The older wrapper at src/utils/packageJson.ts:29-31 is the same |
| Json.Remove | src/services/packageJson.ts:49 | `delete target[key]`: the key is gone, every other key reads exactly as before (same value, or still absent), and an absent key leaves the object unchanged |
| Json.Put | src/services/packageJson.ts:79 | `target[key] = value`: reading the key gives the value, and every other key reads as before |
| Json.Get | src/services/packageJson.ts:48 | Reading an own property finds a value exactly when `Object.hasOwn` holds, and finds the value stored under that key |
| PackageJson.FormatJsonPath | src/services/packageJson.ts:91-103 | Each segment is formatted at its index and the pieces are joined with no separator. The text is at least one character per segment, and empty exactly for the empty path |
| Json.IsEmptyObject | src/services/packageJson.ts:87-89 | An object is empty exactly when it has no own key |
| PathProperties.FormatIdentifierPath | src/services/packageJson.ts:91-103 | A path whose segments all match the identifier pattern is written as its segments joined with `.` |
| PathProperties.FormatNonIdentifierSegment | src/services/packageJson.ts:100 | A segment that is not an identifier adds `[`, its JSON string literal and `]`, at any position |
| PathProperties.FormatIdentifierSegment | src/services/packageJson.ts:100 | An identifier segment after the first adds `.` and the segment, whatever precedes it |
| PathProperties.FormatMixedExample | src/services/packageJson.ts:91-103 | `["a b", "c"]` is written `["a b"].c`: a bracketed first segment, then a dotted identifier |
| PathProperties.FormatSingleIdentifier | src/services/packageJson.ts:96-97 | An identifier at index 0 is written bare |
| PathProperties.FormatBracketedChild | src/services/packageJson.ts:95-100 | An identifier followed by a plain non-identifier key is written `parent["key"]` |
| PathProperties.EscapePlain | src/services/packageJson.ts:97 | `JSON.stringify` changes no character of text without quotes, backslashes or control characters |
| PathProperties.FormatDottedExample | src/services/packageJson.ts:91-103 | `["scripts", "lint"]` is written `scripts.lint` |
| DeleteProperties.DeleteMatchesReference | src/services/packageJson.ts:37-67 | The engine's tree equals the reference `Deleted`, which walks the target's entries |
| DeleteProperties.DeletedGet | src/services/packageJson.ts:44-63 | Under the reference delete, a key is unchanged if the spec does not name it or the target lacks it. It is removed if the spec marks it null. It holds the nested result, or is removed when that result is empty, if both sides are objects. Otherwise it is unchanged |
| DeleteProperties.DeleteKeyCases | src/services/packageJson.ts:44-63 | The same four cases for the engine's result at each top-level key |
| DeleteProperties.DeleteRemovesNullKeys | src/services/packageJson.ts:47-52 | A key the spec marks null is absent afterwards |
| DeleteProperties.DeleteReportsNullKeyIffPresent | src/services/packageJson.ts:47-52 | The path of a null-marked key is reported if and only if the target had that key |
| DeleteProperties.DeleteInertEntry | src/services/packageJson.ts:55 | A non-null spec value that is not an object over an object slot leaves its key as it was, and no reported path lies at or below that key |
| DeleteProperties.DeleteOnlyRemoves | src/services/packageJson.ts:37-67 | Delete only removes keys, at any depth: every surviving key keeps its value, or for objects a pruned version of it. Keys stay distinct |
| DeleteProperties.DeletedPruned | src/services/packageJson.ts:37-67 | The reference delete only removes keys, at any depth |
| DeleteProperties.DeletedWellFormed | src/services/packageJson.ts:37-67 | The reference delete keeps keys distinct at every depth |
| DeleteProperties.DeletedIdempotent | src/services/packageJson.ts:37-67 | The reference delete applied twice equals it applied once |
| DeleteProperties.DeleteSettled | src/services/packageJson.ts:37-67 | On a tree the spec has nothing left to remove from, the loop changes nothing and reports nothing |
| DeleteProperties.DeleteIdempotent | src/services/packageJson.ts:37-67 | A second delete with the same spec leaves the tree unchanged and reports nothing |
| DeleteProperties.DeleteEntriesPaths | src/services/packageJson.ts:45-57 | Every path reported by the first `n` iterations extends the current path by the key of one of those spec entries |
| DeleteProperties.DeleteEntriesOrder | src/services/packageJson.ts:56-61 | No reported path is listed after a path that lies below it: children come before their parent |
| DeleteProperties.DeleteEntriesEntryOrder | src/services/packageJson.ts:44 | Reported paths follow the order of the spec entries they come from |
| DeleteProperties.DeleteReportOrder | src/services/packageJson.ts:44-63 | The top-level report lists children before parents, and follows spec-entry order |
| DeleteProperties.DeletePruneExample | src/services/packageJson.ts:58-62 | `{a:{b:1}}` with spec `{a:{b:null}}` leaves `{}` and reports `["a.b", "a"]` |
| DeleteProperties.DeleteReportSound | src/services/packageJson.ts:37-67 | Every reported path is non-empty, names a value present in the original tree, and names nothing in the resulting tree |
| DeleteProperties.DeleteEntriesSound | src/services/packageJson.ts:44-63 | At every depth, each path the first `n` iterations report leads, from the current level, to a value of the original object that is gone from the edited one |
| DeleteProperties.DeleteReportsRemovedKeys | src/services/packageJson.ts:47-62 | A top-level key is reported if and only if the target had it and the result no longer has it |
| DeleteProperties.OwnPathReported | src/services/packageJson.ts:44-63 | At every depth, the path of spec entry `j` is reported if and only if its key was present before and is absent after the loop |
| DeleteProperties.DeletePrunedReported | src/services/packageJson.ts:58-62 | A key whose object slot the nested delete leaves empty, and which is therefore pruned, is reported |
| MergeProperties.MergeKeyCases | src/services/packageJson.ts:70-80 | After a merge, a key the spec names holds the merged value of its entry, computed from the original slot. Any other key reads as before |
| MergeProperties.MergeStoresVerbatim | src/services/packageJson.ts:79 | A scalar, array or null spec value is stored at its key as it is, whatever was there |
| MergeProperties.MergeCoercesToObject | src/services/packageJson.ts:71-76 | An object spec value leaves an object at its key. It is the old object merged with the spec value, or `{}` merged with it when the slot was absent or not a plain object |
| MergeProperties.MergeEntriesUntouched | src/services/packageJson.ts:69-81 | A key that none of the first `n` spec entries names keeps its value |
| MergeProperties.MergeEntriesAssigned | src/services/packageJson.ts:70-80 | After the first `n` iterations, the key of entry `j < n` holds that entry's merged value |
| MergeProperties.MergeEntriesWellFormed | src/services/packageJson.ts:69-81 | Merge keeps keys distinct at every depth |
| MergeProperties.MergeIdempotent | src/services/packageJson.ts:69-81 | Merging the same spec twice equals merging it once |
| MergeProperties.MergeCoerceExample | src/services/packageJson.ts:71-76 | `{scripts:"x"}` merged with `{scripts:{lint:"y"}}` gives `{scripts:{lint:"y"}}` |
| MergeKeyOrder.MergeStepKeys | src/services/packageJson.ts:79 | An assignment keeps the key order when the key exists, and appends the key otherwise |
| MergeKeyOrder.MergeKeys | src/services/packageJson.ts:69-81 | After a merge, the keys are the old keys in their old order, followed by the spec's new keys in spec order |
| MergeKeyOrder.MergeDetermined | src/services/packageJson.ts:69-81 | Any object with distinct keys whose key order is that of `MergeKeys` and whose values are those of `MergeKeyCases` is the merge result: the two together determine it |
| LegacyPackageJson.ApplyDeleteRecursively | src/utils/packageJson.ts:33-47 | After the loop over every spec entry, the target is the older fold `DeleteEntries` |
| LegacyPackageJson.DeleteEntryFrom | src/utils/packageJson.ts:34-46 | One iteration. A null value removes the key whether or not it is present. An object value over an object slot recurses, writes back, and removes the slot if it is now empty. Anything else does nothing |
| LegacyPackageJson.ApplyPackageDeleteSpec | src/utils/packageJson.ts:25-27 | Returns the edited manifest |
| LegacyPackageJson.DeleteEntriesAgree | src/utils/packageJson.ts:33-47 | After any number of iterations, the older loop holds the same target as the newer one, under any path prefix |
| LegacyPackageJson.DeleteAgrees | src/utils/packageJson.ts:33-47 | On every input, the older delete leaves exactly the tree the newer one leaves |
| LegacyPackageJson.DeleteKeyCases | src/utils/packageJson.ts:34-46 | Per top-level key, the older delete gives: unchanged if the spec does not name it; removed if the spec marks it null; the pruned nested result over an object slot; unchanged otherwise |
| LegacyPackageJson.DeleteRemovesNullKeys | src/utils/packageJson.ts:35-37 | A key the spec marks null is absent afterwards |
| LegacyPackageJson.DeleteIdempotent | src/utils/packageJson.ts:33-47 | A second delete with the same spec changes nothing |
| LegacyPackageJson.DeleteOnlyRemoves | src/utils/packageJson.ts:33-47 | The older delete only removes keys, at any depth |
| PackageManagers.AllPackageManagersDistinct | src/services/packageManager.ts:8 | `allPackageManagers` lists each manager exactly once, in rank order |
| PackageManagers.DetectPackageManager | src/services/packageManager.ts:10-24 | The result is npm or the manager named by a lockfile that is present |
| PackageManagers.DetectFirstLockfile | src/services/packageManager.ts:10-22 | The first present lockfile, in the order pnpm-lock.yaml, yarn.lock, bun.lockb, package-lock.json, decides the manager |
| PackageManagers.DetectNoLockfile | src/services/packageManager.ts:23 | Without any of the four lockfiles, detection gives npm |
| PackageManagers.DetectSeesOnlyLockfiles | src/services/packageManager.ts:10-24 | Two directories that agree on the four lockfiles detect the same manager |
| PackageManagers.Without | src/services/packageManager.ts:29 | The filter drops the detected manager and keeps the count of every other manager |
| PackageManagers.WithoutKeepsOrder | src/services/packageManager.ts:29 | The filter keeps the survivors in their relative order |
| PackageManagers.WithoutPermutation | src/services/packageManager.ts:27-30 | The detected manager followed by the filtered list rearranges a list that holds it once |
| PackageManagers.BuildPackageManagerChoices | src/services/packageManager.ts:26-36 | The first choice is the detected manager with the auto-detected label. Every later choice is another manager, labelled with its bare name |
| PackageManagers.ChoicesArePermutation | src/services/packageManager.ts:26-35 | There are exactly four choices, and their values are a permutation of `allPackageManagers` |
| PackageManagers.ChoicesOrder | src/services/packageManager.ts:27-29 | The first choice is the detected manager, and the rest keep the order of `allPackageManagers` |
| PackageManagers.ChoicesLabels | src/services/packageManager.ts:32-35 | Exactly one choice, the first, carries the auto-detected label. Every other choice is labelled with the bare manager name |
| PackageManagers.BuildDevInstallCommand | src/services/packageManager.ts:38-49 | The program is the manager's name. The arguments are the manager's fixed prefix (`install --save-dev`, `add --dev` or `add -D`) followed by the packages, unchanged and in order |
| TemplateMerge.ApplyTemplateToPackageJson | src/commands/init.ts:23-32 | The manifest after the loop is the fold over `[base, template]`, with absent specs skipped |
| TemplateMerge.TemplateMergeOrder | src/commands/init.ts:28-32 | The base spec is merged first and the template spec on top of it. A missing spec file is skipped |
| TemplateMerge.TemplateSpecWins | src/commands/init.ts:23-32 | A scalar, array or null that the template spec sets is what the manifest holds, whatever the base spec set |
| TemplateMerge.BaseSpecKept | src/commands/init.ts:23-32 | A key the template spec does not name holds what the base merge left there |

## Left out

- File I/O is not modelled: `readPackageJson`, `writePackageJson` and `loadJsonIfExists` read and write files. Specs and manifests are given as already-parsed values. A spec file that does not exist, or a path that is not set, becomes `None`.
- `JSON.parse` and the `JSON.stringify` layout of the written file are not modelled. A parsed object never has duplicate keys, which is the distinct-keys precondition (`Json.WellFormed`) of the lemmas that compare values key by key.
- A spec file whose top-level value is not a JSON object is not modelled. At `src/commands/init.ts:29` the test `if (spec)` skips the falsy ones (`null`, `false`, `0`, `""`), as it skips a missing file. A truthy non-object (an array, a non-zero number, a non-empty string, `true`) would reach `applyPackageMergeSpec`, whose parameter is typed as an object. The model takes every spec to be an object.
- JSON numbers are opaque literals, because the engine never computes with them.
- Key enumeration follows insertion order only. JavaScript lists integer-like keys such as `"0"` or `"42"` first, in numeric order.
- MergeKeyOrder.MergeKeys: the key order it states assumes no integer-like keys, for the reason above.
- MergeKeyOrder.MergeStepKeys: "appends the key otherwise" assumes the new key is not integer-like, for the reason above.
- MergeKeyOrder.MergeDetermined: it rests on the key order of MergeKeys, so it assumes no integer-like keys, for the reason above.
- DeleteProperties.DeleteReportOrder: the spec-entry order it states assumes no integer-like keys in the spec, for the reason above.
- DeleteProperties.DeleteEntriesEntryOrder: the spec-entry order it states assumes no integer-like keys in the spec, for the reason above.
- Inherited (prototype) properties, such as a key named `__proto__` or `constructor`, are not modelled. Keys are own properties only.
- In-place mutation and aliasing are not captured. Each edit returns a new field list and nested results are written back, so two spec paths sharing one target object cannot be expressed. `JSON.parse` never builds such sharing.
- PackageJson.Quote: lone UTF-16 surrogates, which `JSON.stringify` writes as `\u` escapes, cannot occur in a Dafny string, so that case of the escaping is not modelled.
- The green `chalk` colouring of the auto-detected label is not modelled. The label is its plain text.
- `installDevPackages` is not modelled: it spawns the package manager, shows a spinner and prints messages. Only the command line it runs (`BuildDevInstallCommand`) is modelled.
- Detection is modelled on the set of file names present in the project directory. `fs.existsSync` and `path.join` are not modelled.
- Only the merge fold of `src/commands/init.ts` is modelled. Its prompts, ignore, editorconfig and biome.json writes, marker cleanup and process exit are interactive or filesystem steps.
- Template resolution (`src/templates.ts`, `src/template/index.ts`), delete-marker cleanup (`src/utils/deleteMarkers.ts`), `src/services/shell.ts` and the command-line wiring in `src/index.ts` are not part of this model.
