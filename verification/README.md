# Metro bundler core in Dafny

A model of three pieces of the Metro JavaScript bundler, with proofs about them.

- **Indexed RAM bundle output** (`indexed_ram_bundle.dfy`). This covers:
  - how the module list is partitioned into eagerly executed startup modules and lazily loaded deferred modules;
  - how the startup code is assembled;
  - the conversion of a module into a module transport;
  - `subtree`, the depth-first dependency traversal that RAM groups are built from.
- **Delta bundler serializers** (`serializers.dfy`). This covers:
  - the wire message of an incremental (delta) update;
  - the id of the server-side delta client;
  - the startup/lazy classification behind RAM bundle information;
  - the group dependency callback.
- **Asset server utilities** (`asset_util.dfy`). This covers:
  - the asset key of a name and platform;
  - the per-key scale map built from a directory listing: resolutions kept sorted, with a parallel list of files;
  - which record a request for an asset gets.

Supporting modules:
- `seqs.dfy`: order-preserving filtering, duplicate-freedom, and `Array.prototype.join` with a one-character separator.
- `hex.dfy`: Node's `Buffer#toString('hex')` and its inverse.
- `wrappers.dfy`: `Option` and `Result`.

The `subtree` generator is modelled as a pure function, `Deps`, over the list of dependencies still to visit. It takes the shared `seen` set and returns either a `Visit` or a `Fault`:
- A `Visit` holds the ids yielded, in order, and the `seen` set the traversal leaves behind.
- A `Fault` is the `nullthrows` failure on a dependency path the lookup does not know.

Termination follows from two facts:
- every descent adds an id of the lookup that was not yet in `seen`;
- an id already in `seen` is never descended into again.

JavaScript `Map`s whose iteration order matters become sequences of pairs. The JSON `null` written for `undefined` becomes `Option.None`.

## Model

| member | source | states |
|---|---|---|
| IndexedRamBundle.Partition | packages/metro-bundler/src/ModuleGraph/output/indexed-ram-bundle.js:70-78 | Every module lands in exactly one of the two outputs (the multisets add up to the input's). A module is in `startup` exactly when its file path is preloaded. Both outputs keep the input order. |
| IndexedRamBundle.AssembleStartup | packages/metro-bundler/src/ModuleGraph/output/indexed-ram-bundle.js:31-38 | The startup list is the preloaded modules in input order followed by `requireCalls`. The startup code holds each of their codes at its offset, with exactly one newline between neighbours and nothing else. The deferred transports are the non-preloaded modules, in input order, each converted by `toModuleTransport`. So the i-th one carries the i-th non-preloaded module's code, dependencies and path, uses the path as its name, and has the `idForPath` id of the module's file. |
| IndexedRamBundle.ToModuleTransport | packages/metro-bundler/src/ModuleGraph/output/indexed-ram-bundle.js:55-64 | A transport keeps the module's code, dependencies and file path. Its name is that same path, and its id is what `idForPath` gives for the module's file. |
| IndexedRamBundle.GetModuleCode | packages/metro-bundler/src/ModuleGraph/output/indexed-ram-bundle.js:66-68 | A module's code is the code of every transport that converts back to that module. |
| IndexedRamBundle.Deps | packages/metro-bundler/src/ModuleGraph/output/indexed-ram-bundle.js:85-91 | A traversal that does not fault yields ids without repetition. None of them was in the incoming `seen`. The final `seen` is the incoming one plus exactly the yielded ids. Termination is proved for cyclic lookups too. |
| IndexedRamBundle.Subtree | packages/metro-bundler/src/ModuleGraph/output/indexed-ram-bundle.js:80-93 | The head's id is added to `seen` first, so it is never yielded, even through a cycle. Yielded ids are distinct and avoid the caller's `seen` set. |
| IndexedRamBundle.DepsSound | packages/metro-bundler/src/ModuleGraph/output/indexed-ram-bundle.js:86-90 | Every yielded id is reached from the dependencies along a chain of resolved dependency paths. |
| IndexedRamBundle.DepsClosed | packages/metro-bundler/src/ModuleGraph/output/indexed-ram-bundle.js:86-91 | After a traversal, every dependency of the list, and every dependency of each yielded module, resolves to an id in the final `seen` set. |
| IndexedRamBundle.SubtreeYieldsReachable | packages/metro-bundler/src/ModuleGraph/output/indexed-ram-bundle.js:80-93 | From an empty `seen`, the traversal succeeds exactly when every dependency path reachable from the head resolves. When it succeeds, it yields each id reachable from the head, other than the head's own, exactly once, and nothing else. |
| IndexedRamBundle.DepsFault | packages/metro-bundler/src/ModuleGraph/output/indexed-ram-bundle.js:87 | A fault names a path missing from the lookup that is either one of the dependencies or a dependency of a module reached from them. |
| IndexedRamBundle.SubtreeFault | packages/metro-bundler/src/ModuleGraph/output/indexed-ram-bundle.js:85-87 | A faulting traversal names a path the lookup lacks, and the head's reachable graph does not resolve. |
| IndexedRamBundle.DepsAppend | packages/metro-bundler/src/ModuleGraph/output/indexed-ram-bundle.js:86-91 | Dependencies are visited in list order. Traversing `a + b` is traversing `a`, then `b` from the `seen` set `a` left. A fault in `a` stops the traversal before `b`. |
| IndexedRamBundle.DepsFirstYield | packages/metro-bundler/src/ModuleGraph/output/indexed-ram-bundle.js:88-90 | Pre-order for the first dependency of a list: if it is unseen, its id is yielded first, followed at once by everything yielded below it. |
| Serializers.StringifyModule | packages/metro/src/DeltaBundler/Serializers/Serializers.js:55-57 | One wire entry keeps the entry's id. It is `null` exactly when the module was removed, and otherwise carries the module's code. |
| Serializers.SerializeDelta | packages/metro/src/DeltaBundler/Serializers/Serializers.js:55-70 | `id` and `reset` are copied. Each segment keeps its length and order. Each entry keeps its id, is `null` exactly when the module was removed, and otherwise carries the module's code. `numModifiedFiles` is the total number of entries. |
| Serializers.WireRoundTrip | packages/metro/src/DeltaBundler/Serializers/Serializers.js:55-57 | A client applying the wire pairs reaches the same code map as applying the delta entries. A removal is never confused with a module whose code is empty. |
| Serializers.LastEntryDecides | packages/metro/src/DeltaBundler/Serializers/Serializers.js:55-63 | After applying a segment, the last entry for an id decides it. A removal leaves the id absent. A present module, even with empty code, leaves its code. |
| Serializers.ServerClientId | packages/metro/src/DeltaBundler/Serializers/Serializers.js:82 | The id is `__SERVER__` followed by two hex digits per hash byte. Decoding the part after the prefix gives back the stable hash. |
| Serializers.ServerClientIdsAgree | packages/metro/src/DeltaBundler/Serializers/Serializers.js:82 | Two option records get the same server client id exactly when their stable hashes are equal. Every id starts with `__SERVER__` and carries two hex digits per hash byte. |
| Hex.DecodeEncode | packages/metro/src/DeltaBundler/Serializers/Serializers.js:82 | Decoding the lower-case hex rendering of a byte string gives back that byte string. |
| Hex.EncodeInjective | packages/metro/src/DeltaBundler/Serializers/Serializers.js:82 | Two byte strings have the same hex rendering exactly when they are equal. |
| Serializers.ClassifyRamModules | packages/metro/src/DeltaBundler/Serializers/Serializers.js:141-157 | A preloaded module goes to startup whatever its type. `script`/`require` go to startup. `asset`/`module` go to lazy. Any other type is in neither list. No module is in both, and both keep the input order. |
| Serializers.GroupDependencies | packages/metro/src/DeltaBundler/Serializers/Serializers.js:164-177 | An id is in the result exactly when some dependency path of the module is known to the lookup and maps to a module with that id. Unknown paths are skipped, and repeated ids collapse (at most one id per path). |
| AssetUtil.GetAssetKey | packages/metro/src/AssetServer/util.js:77-83 | Without a platform the key is the asset name. With a platform it is the name followed by ` : ` and the platform. |
| AssetUtil.AssetKeysSeparatePlatforms | packages/metro/src/AssetServer/util.js:77-83 | Different platforms give different keys for one asset name, and none equals the plain key. |
| AssetUtil.InsertIndex | packages/metro/src/AssetServer/util.js:55-62 | The insertion index is the first position whose scale is strictly greater than the resolution. Every scale before it is at most the resolution. |
| AssetUtil.InsertShape | packages/metro/src/AssetServer/util.js:63-64 | Both splices insert at the same index. The record stays aligned, and the new (resolution, file) pair sits at the insertion index with everything else in place. |
| AssetUtil.InsertSorted | packages/metro/src/AssetServer/util.js:55-63 | Inserting into a record whose scales are sorted keeps them sorted. |
| AssetUtil.InsertStable | packages/metro/src/AssetServer/util.js:58-64 | A new pair goes after every existing pair of equal resolution. Pairs of every other resolution keep their relative order. |
| AssetUtil.InsertKeepsOrder | packages/metro/src/AssetServer/util.js:55-64 | One insertion keeps the record aligned and sorted. It adds exactly the new pair (as a multiset), and it is stable for every resolution. |
| AssetUtil.BuildAssetMap | packages/metro/src/AssetServer/util.js:26-68 | Every record in the map has as many files as scales, its scales ascending, and at least one file. |
| AssetUtil.BuildAssetMapKey | packages/metro/src/AssetServer/util.js:40-65 | For one key: the map has a record exactly when some file parses to that key. That record holds exactly the pairs parsed under the key, sorted by resolution, with equal resolutions in directory order. |
| AssetUtil.BuildAssetMapSpec | packages/metro/src/AssetServer/util.js:26-68 | The map has records exactly for the keys some file parses to. Each record holds exactly that key's files, each once, sorted by resolution, with equal resolutions in directory order. |
| AssetUtil.ParsedEntriesExist | packages/metro/src/AssetServer/util.js:38-45 | A key has parsed entries exactly when some file of the listing parses to it. |
| AssetUtil.AssetMapKeys | packages/metro/src/AssetServer/util.js:38-53 | A key is in the map exactly when some file parses to it. Files the parser rejects add nothing. |
| AssetUtil.GetAbsoluteAssetRecord | packages/metro/src/AssetServer/util.js:98-133 | The request fails with `ParseFailed` exactly when the requested file name does not parse. Any other failure is `Asset not found: <path> for platform: <platform or null>`. A returned record is aligned, sorted by scale and not empty. |
| AssetUtil.RecordSelection | packages/metro/src/AssetServer/util.js:109-130 | With a platform, the `name : platform` record is returned if any file parses to it, else the plain name's. Without a platform, only the plain name's record is used. The request fails with `Asset not found: <path> for platform: <platform or null>` exactly when no file parses to the keys consulted. |
| Seqs.FilterComplement | packages/metro-bundler/src/ModuleGraph/output/indexed-ram-bundle.js:73-75 | Splitting a list by a predicate and its negation loses and duplicates nothing. |
| Seqs.JoinLaidOut | packages/metro-bundler/src/ModuleGraph/output/indexed-ram-bundle.js:38 | `join` places every element at its offset, with exactly one separator between neighbours. The empty list joins to the empty string. |

## Left out

- `buildTableAndContents`, `createModuleGroups`, `createRamBundleGroups` and `buildSourceMapWithMetaData`: their code is not part of this model. This leaves out the binary table, the cross-head grouping and the source maps. `subtree` is modelled as those callers would use it, with `seen` as a parameter.
- `Buffer.concat` and UTF-8 encoding: byte-level output is not modelled.
- The `map` field of a module transport and the `map` of a RAM module (source maps): left out for the same reason.
- `DeltaPatcher`, `_build`, `DeltaTransformer`, `RamBundle.getRamOptions` and `fromRawMappings`: asynchronous plumbing whose code is not part of this model. The delta, the preloaded paths, the RAM modules and `getDependencies` are parameters.
- `stableHash`: a parameter from options to bytes. Only its hex rendering is modelled.
- `AssetPaths.tryParse` and `AssetPaths.parse`: their internals are not part of this model, so they are parameters. A `parse` failure is the `ParseFailed` error.
- `path.join`, `path.basename`, `path.dirname` and `readDir`: parameters or inputs. The directory listing is a given sequence of names.
- `hashFiles` and `findRoot`: filesystem I/O relying on Node's path resolution.
- Error formatting for bundling errors, and the bundler lifecycle wrapper: not part of the core.
- The text produced by `JSON.stringify`: the wire message is a datatype, and `undefined` inside the arrays is `None`.
- IndexedRamBundle.Deps: a fault ends the traversal, and the ids a generator would already have yielded before throwing are not modelled.
- IndexedRamBundle.SubtreeYieldsReachable: completeness is stated only for lookups where ids identify modules, and where the head is the lookup's module for its own id. Without these, a module reached under a duplicate id may be skipped.
- Resolutions: JavaScript numbers such as `1.5` are modelled as `int`. The code only compares them with `<`, so any ordered type behaves the same.
- The `source` field of a RAM module: the modelled operations never read it.
- AssetUtil.BuildAssetMapSpec: the map is a Dafny `map`, so the insertion order of its keys is not modelled. Record selection never iterates over keys.
- AssetUtil.RecordSelection: states the outcome only when the request's own file name parses. The parse failure is the `ParseFailed` error of `GetAbsoluteAssetRecord`.

## Notes on the code

- The indexed RAM bundle's `partition` looks only at preloaded paths. The rule by module type is in `getRamBundleInfo`, which puts `script` and `require` modules in startup and `asset` and `module` modules in lazy, and drops modules of any other type instead of deferring them. The model follows the code in both places.
- `subtree` takes `seen` as an optional parameter defaulting to a fresh set, so one set can be shared across several traversals. The model takes it as a parameter and states its results both for an arbitrary incoming set and for the empty one.
