# meta-hybrid_mount: a Dafny model of the mount planner and its mount back ends

meta-hybrid_mount is a daemon that mounts the files of root-manager modules
over the system partitions. It has three mechanisms:

- OverlayFS;
- magic mount: a tmpfs skeleton whose entries are bind mounts;
- HymoFS: a kernel redirect device.

This project models the daemon's core and proves properties of it. The core
runs in four stages:

1. **Inventory** (`Inventory`). `scan` lists the module directories. For each
   module, `ModuleRules::load` merges three rule sources into one
   path-to-mode map: the legacy `mount_rules.txt` lines, the module's JSON
   layer and the user's JSON layer. `get_mode` resolves the mode of one
   relative path: an exact rule first, then a rule for an ancestor
   directory, then the default.
2. **Planning** (`Tree`, `Planner`).
   - Every file of every target partition of every module is threaded into a
     trie of `FsNode`s. The path to each file gets one node per component,
     and the final node gets one `Mutation`.
   - A post-order pass then gives each node a `MountStrategy` with a fixed
     ladder: Passthrough, Hymo, Bind, Overlay or Magic.
3. **Execution** (`Executor`). A walk over the resolved tree dispatches on
   each node's strategy. It calls the mount back ends, records which
   module went through which mechanism, and returns the three id lists,
   sorted.
4. **Mount back ends.**
   - `Overlay`:
     - the colon-joined lowerdir option;
     - the 4000-byte page limit;
     - greedy batching: a batch of two or more dirs costs at most 3500 bytes,
       and a longer dir is a batch of its own;
     - bottom-up stacking through staging mounts, under a guard that undoes
       them on failure;
     - the choice between the new mount API and legacy mount(2).
   - `MagicMount`: the mirror of the original directory, the tmpfs
     skeleton, and per-entry restoring. Excluded names get placeholders only.
   - `HymoDevice`: the status check, the list-rules buffer and the rule
     injection walk.

The model treats state as follows:

- **Kernel and filesystem.** Every kernel or filesystem call is an `Effect`
  appended to a log, in issue order. Whether a call succeeds is read from a
  `Host` oracle of total functions.
- **The tree.** An `FsNode` owns its children through a map and nothing
  else points at them. An in-place update through `&mut` is therefore
  modelled as computing the updated node value.
- **Loops.** The source's loops are methods with loop invariants. Each
  method is proved equal to a function that specifies it, and the
  properties the daemon relies on are proved about those functions:
  - `Batch` against `BatchesOf`;
  - `StackLayers` and `MountOverlayfsStaged` against `StackFrom` and
    `StagedRun`;
  - `PopulateSkeleton` against `Skeleton`;
  - `InjectDirectory` against `InjectLog`;
  - `GetTargetPartitions` against `TargetPartitions`;
  - `Load` against `LoadedRules`;
  - `Generate` against `BuildTree` and `Resolve`;
  - `ExecuteNode` against `Ids` and `Visit`.
- **The staged-mount guard.** `StagedMountGuard` is a class: its
  `mounts`/`committed` fields are updated in place, as in the source.
- **The list-rules buffer.** It is an `array` that is filled and then cut
  down.

The files follow the source:

- `tree.dfy`, `planner.dfy`, `inventory.dfy` and `executor.dfy` model
  `src/core/`;
- `overlay.dfy`, `magic.dfy` and `hymofs.dfy` model `src/mount/`;
- `paths.dfy`, `order.dfy`, `kernel.dfy`, `settings.dfy` and
  `wrappers.dfy` hold the path operations, the string order and sorting,
  the effect and error vocabulary, the configuration and constants, and
  `Option`.

## Model

| member | source | states |
|---|---|---|
| Tree.NewNode | src/core/tree.rs:46-54 | a new node keeps the given name and path, with no mutations, no children, strategy Unresolved |
| Tree.GetOrCreateChild | src/core/tree.rs:56-62 | an existing child is returned unchanged and the parent is unchanged; otherwise exactly one new child, named `name` at the parent path joined with `name`, is added (one more key), and every other child and the parent's own fields are untouched |
| Tree.InsertMutation | src/core/tree.rs:64-66 | the mutation list grows by one, the earlier mutations are unchanged, the last is the new one, nothing else changes |
| Inventory.WordsAreWords | src/core/inventory.rs:42 | every piece `split_whitespace` yields is non-empty and holds no whitespace |
| Inventory.ParseRuleLineProperties | src/core/inventory.rs:40-51 | blank, '#' and one-word lines give nothing; every other line gives a rule whose mode is the first word's keyword and whose key is the second word with its leading '/' removed, so never absolute |
| Inventory.KeywordIgnoresCase | src/core/inventory.rs:44-50 | the keyword match gives the same mode for any letter case of the word: ASCII capitals and the Kelvin sign, the one non-ASCII character `to_lowercase` turns into an ASCII letter |
| Inventory.KelvinSignKeyword | src/core/inventory.rs:44-49 | "S\u{212A}IP" with a Kelvin sign is the `skip` keyword, so the rule is Ignore; the sign alone is no keyword |
| Inventory.AssignmentsLastWins | src/core/inventory.rs:51 | inserting the parsed rules in turn: a key is present iff some line is a rule for it, and its mode is that of the last such line |
| Inventory.ReadLegacyLines | src/core/inventory.rs:39-53 | the loop over the lines inserts each parsed rule in turn and computes exactly the legacy map `LegacyPaths` |
| Inventory.LegacyPathsLastWins | src/core/inventory.rs:38-54 | the legacy file's map: a path is ruled iff some line is a rule for it, and the last such line wins |
| Inventory.Layered | src/core/inventory.rs:56-71 | a present layer replaces the default mode, and its keys override same-key entries while the other keys are kept; an absent or undecodable layer changes nothing |
| Inventory.Load | src/core/inventory.rs:34-73 | the loop over the legacy lines and the two layer merges give exactly the legacy map with the module layer and then the user layer applied |
| Inventory.PrefixScan | src/core/inventory.rs:80-84 | a returned key is a rule that covers the path on a component boundary; if none is returned, no rule covers it |
| Inventory.EffectiveDefault | src/core/inventory.rs:85-89 | an Auto default becomes Overlay, and any other default is returned as is; so the result is never Auto |
| Inventory.GetMode | src/core/inventory.rs:75-90 | after leading '/'s are dropped: an exact key's mode wins; else the mode of some key covering the path on a component boundary; else the effective default |
| Inventory.GetModeIgnoresLeadingSlashes | src/core/inventory.rs:76 | any number of leading '/'s leaves the answer unchanged |
| Inventory.CandidatesMembership | src/core/inventory.rs:108-134 | a module is kept iff it comes from a directory entry that is not reserved and carries no disable, remove or skip marker |
| Inventory.Scan | src/core/inventory.rs:100-137 | a missing directory gives Ok of no modules; an unreadable listing gives an error; otherwise the result is sorted by id and is a permutation of the eligible modules |
| Planner.TargetPartitionsProperties | src/core/planner.rs:113-126 | the existing built-ins come first, in built-in order; the existing configured names follow, in config order; each name is a built-in or configured name whose directory exists; no name appears twice, given that the built-in list has no repeats |
| Planner.GetTargetPartitions | src/core/planner.rs:113-126 | the two loops compute exactly the partition list above |
| Planner.InsertIntoTreeShape | src/core/planner.rs:128-165 | every prefix of the relative path has a node whose path is "/" joined with that prefix; the final node gains exactly one mutation (module id, source, detected type, rule mode) at the end; nodes above it keep their mutations; nothing off the path changes |
| Planner.InsertPathElsewhere | src/core/planner.rs:134-141 | the cursor walk changes no node whose path is not a prefix of the inserted path |
| Planner.Decide | src/core/planner.rs:172-228 | the root and top-level built-ins are Passthrough; otherwise a HymoFs or Magic first mutation decides by its file type; otherwise a node with force_ext4 off, an existing directory and only directory mutations (at least one) gets Overlay over the mutation sources in order; otherwise it is Magic iff a child is not Passthrough, else Passthrough; every decision is sound |
| Planner.Resolve | src/core/planner.rs:167-170 | resolution keeps each node's name, path, mutations and child names |
| Planner.ResolvePlanned | src/core/planner.rs:167-229 | after resolution no node of the tree is Unresolved; the root and the top-level built-in partitions are Passthrough; Hymo and Bind come only from a non-directory first mutation of mode HymoFs or Magic, with its source; Overlay comes only with force_ext4 off, on an existing directory, with all mutations directories, and with the lower dirs equal to the mutation sources in order and never empty; Magic only from a Magic directory or a non-Passthrough child |
| Planner.ResolveKeepsTree | src/core/planner.rs:167-170 | resolution keeps the set of paths in the tree and each node's mutations |
| Planner.ResolveTree | src/core/planner.rs:167-229 | the recursion, taking children in map order, computes exactly `Resolve` |
| Planner.ResolveChildren | src/core/planner.rs:168-170 | resolving the children one by one, in map order, replaces each child by its resolution and keeps the child names |
| Planner.ContentPath | src/core/planner.rs:75-87 | the module's files come from the HymoFS mirror (when its default mode is HymoFs) or the storage root, else from its source dir; the module is skipped iff both are missing; the path returned exists |
| Planner.InsertModule | src/core/planner.rs:74-104 | one module's turn of the loop: the content directory is chosen, then each target partition's walk is threaded into the tree, giving exactly `AddModule` |
| Planner.InsertEntries | src/core/planner.rs:95-102 | the walk of one partition threads every readable entry into the tree, in walk order, under its components past the content directory, and skips an entry whose path `strip_prefix` cannot relate to the content directory; this is exactly `AddEntries` |
| Paths.StripPrefixJoined | src/core/planner.rs:92-98 | past a non-empty content directory, an entry joined from a relative partition name and its walked names has as components the normal components of those names: "vendor/overlay" and "vendor/" give "vendor", "overlay" and "vendor" |
| Planner.PlainEntryRelative | src/core/planner.rs:92-98 | for a partition name and walked names that are single plain components, the entry's relative path is the partition name followed by the walked names |
| Planner.OutsidePartitionAddsNothing | src/core/planner.rs:91-100 | a partition name that is an absolute path parting from the content directory (such as "/vendor" for a module below "/data") replaces the content directory in the join, so `strip_prefix` fails for every walked entry and nothing is added to the tree |
| Planner.Generate | src/core/planner.rs:67-111 | the plan is the resolution of the tree built from every walked entry of every target partition of every module; every node of the plan is soundly planned; the root is "/", passed through |
| Overlay.LowerdirConfigLength | src/mount/overlay.rs:38-45 | the lowerdir option is as long as the dirs plus `lowest` plus one ':' between each two |
| Overlay.LowerdirConfigLayers | src/mount/overlay.rs:38-43 | splitting the option at ':' gives back the lower dirs followed by `lowest` |
| Overlay.Usable | src/mount/overlay.rs:148-153 | an upper or work dir is kept iff it is given and exists |
| Overlay.DoMountOverlayProperties | src/mount/overlay.rs:141-202 | the fsconfig chain comes first; if it fails, mount data with a NUL byte is an error, otherwise the legacy mount(2) is tried; success iff either mount succeeds; a success ends with the unmountable mark unless disabled |
| Overlay.RwLayersOnlyWhenBothExist | src/mount/overlay.rs:148-183 | upperdir and workdir reach the fsconfig parameters and the legacy data exactly when both are given and exist; otherwise only lowerdir and the source are passed |
| Overlay.BindMountOp | src/mount/overlay.rs:204-225 | the bind is issued first; it succeeds iff the host lets it; a success adds the unmountable mark unless disabled; a failure issues nothing more |
| Overlay.BatchesOfProperties | src/mount/overlay.rs:70-86 | batching keeps every lower dir exactly once and in order; no batch is empty; a batch of two or more dirs costs at most 3500; a batch is closed only when the next dir would not fit |
| Overlay.Batch | src/mount/overlay.rs:70-86 | the batching loop computes exactly `BatchesOf` and so keeps the properties above |
| Overlay.AsWrittenPushesEmptyBatch | src/mount/overlay.rs:75-83 | as written, a first dir longer than the chunk budget produces an empty first batch; the corrected batching keeps it alone in one batch |
| Overlay.LongSingleDirRoute | src/mount/overlay.rs:45-61 | a single dir over the chunk budget is still mounted at once iff its length plus one plus `lowest`'s stays under 4000; without upper or work dir it is staged otherwise, so the batching above is reached only then |
| Overlay.LongSingleDirLayers | src/mount/overlay.rs:75-134 | for such a dir, a successful stack over the batches as written mounts the dir over `lowest` onto the first stage and then the empty batch, an option string naming only that stage, onto `dest`; over the corrected batches it mounts the dir over `lowest` onto `dest` alone |
| Overlay.UndoLogReverses | src/mount/overlay.rs:19-27 | the undo detaches and then removes each recorded mount, most recent first |
| Overlay.StagedMountGuard.constructor | src/mount/overlay.rs:94-97 | a new guard holds no mounts and is not committed |
| Overlay.StagedMountGuard.Push | src/mount/overlay.rs:132 | the mount is appended to the guard's list; the committed flag is unchanged |
| Overlay.StagedMountGuard.Commit | src/mount/overlay.rs:137 | the guard is committed; its list is unchanged |
| Overlay.StagedMountGuard.Drop | src/mount/overlay.rs:19-28 | a committed guard issues nothing; an uncommitted one issues exactly the reverse-order undo of its mounts |
| Overlay.LayerChain | src/mount/overlay.rs:93-134 | each layer after the first sits on the previous layer's stage dir; its option string costs its batch plus that stage dir |
| Overlay.MountLayerProperties | src/mount/overlay.rs:99-129 | a mounted layer's target is the stage dir of its index, or `dest` for the final one, and its batch's option string over its base was issued for that target; a clock before the epoch fails before any call; one layer never undoes anything |
| Overlay.StackFromLayered | src/mount/overlay.rs:93-135 | from any layer on: layer i mounts batch n-1-i over `lowest` (i = 0) or over the previous stage, onto its stage or finally `dest`; success means every layer was mounted with nothing undone; failure means the log ends with the undo of exactly the stages mounted so far |
| Overlay.StackLayers | src/mount/overlay.rs:93-138 | the layering loop with its guard computes exactly `StackFrom` |
| Overlay.MountOverlayfsStaged | src/mount/overlay.rs:64-139 | the staged mount stacks the batches as `StackFromLayered` states, after the staging root is created when missing (its failure aborts before any layer) |
| Overlay.RouteOf | src/mount/overlay.rs:45-59 | a single mount iff the option string is under 4000 bytes; an RW error iff it is not and an upper or work dir is given; the staged mount otherwise |
| Overlay.MountOverlayfs | src/mount/overlay.rs:30-62 | the short route gives exactly `DoMountOverlay` of the joined option; an RW request over the limit fails with no call; the long route is the staged mount |
| Overlay.MountOverlay | src/mount/overlay.rs:227-237 | an unopenable target root fails with no call; otherwise `mount_overlayfs` stacks the module roots over `/proc/self/fd/<fd>` onto the target root |
| MagicMount.MirrorDirProperties | src/mount/magic.rs:17-20 | the mirror lies below RUN_DIR/mirror, and targets that differ once leading '/'s are dropped get different mirrors |
| MagicMount.Setup | src/mount/magic.rs:17-31 | the mirror is created, then the target is bound onto it, then made private, then tmpfs is mounted on the target; the first failure aborts |
| MagicMount.SkeletonTmpfsAfterMirror | src/mount/magic.rs:21-31 | the skeleton's one tmpfs mount comes after the mirror's creation, the bind of the target onto the mirror and the propagation change, each of which succeeded; when the setup fails nothing is listed or restored |
| MagicMount.EntryEffects | src/mount/magic.rs:48-76 | an excluded name gets only an empty placeholder of its kind and no bind; a kept directory is created and bound from the mirror; a kept symlink is recreated with its link target and not bound; any other kept entry becomes an empty file bound from the mirror; an unreadable type gives nothing |
| MagicMount.RestoreBindsOnlyKept | src/mount/magic.rs:40-77 | every bind mount the restore issues comes from the mirror copy of a listed entry that is not excluded |
| MagicMount.RestoreIsPerEntry | src/mount/magic.rs:40-77 | the restore succeeds iff every listed entry's type can be read |
| MagicMount.RestoreStopsAt | src/mount/magic.rs:49-59 | the first entry whose type cannot be read ends the restore with that error, and later entries add nothing |
| MagicMount.RestoreNoTmpfs | src/mount/magic.rs:40-77 | restoring entries never mounts a tmpfs or changes propagation |
| MagicMount.RestoreEntries | src/mount/magic.rs:40-77 | the loop over the listed entries computes exactly `Restore`: every entry's effects in listing order, stopping at the first unreadable type |
| MagicMount.PopulateSkeleton | src/mount/magic.rs:12-80 | the setup, the listing of the mirror (a failure is an error) and the entry loop compute exactly `Skeleton` |
| HymoDevice.AsUsize | src/mount/hymofs.rs:167 | `ret as usize` keeps a non-negative value and wraps a negative one to at least 2^63 |
| HymoDevice.GetVersion | src/mount/hymofs.rs:82-90 | a version is read iff the device opens and the ioctl answers, and then it is that answer |
| HymoDevice.CheckStatus | src/mount/hymofs.rs:63-80 | NotPresent iff the device is absent; ProtocolMismatch iff the version cannot be read; Available iff it equals the protocol version; KernelTooOld iff lower; ModuleTooOld iff higher |
| HymoDevice.GetActiveRules | src/mount/hymofs.rs:155-175 | open and ioctl failures (a missing reply or a return value of -1) are errors; a reported length above the 128 KiB buffer is an error; otherwise exactly that many bytes of the buffer are returned: what the kernel wrote, zeros after it |
| HymoDevice.WalkedEntryTarget | src/mount/hymofs.rs:191-196 | an entry reached through plain names below a non-empty module dir strips (`strip_prefix(module_dir)`) to exactly those names, and its rule is for the same names below target_base |
| HymoDevice.InjectEffects | src/mount/hymofs.rs:196-214 | a file or symlink gets a redirect from target_base joined with its relative path to its path; a char device with rdev 0 gets a hide rule; anything else, and an entry whose path does not strip, gets nothing |
| HymoDevice.DeleteEffects | src/mount/hymofs.rs:240-256 | a file, symlink or zero-rdev char device gets a delete of target_base joined with its relative path; anything else, and an entry whose path does not strip, gets nothing |
| HymoDevice.InjectDispatch | src/mount/hymofs.rs:182-215 | the injection log holds the redirect of every file and symlink and the hide of every zero-rdev char device of the walk, and only effects of walked entries; failed walk entries are skipped |
| HymoDevice.DeleteDispatch | src/mount/hymofs.rs:226-257 | the deletion log deletes the rule of every redirected or hidden entry, and only of such entries |
| HymoDevice.DeleteUndoesInject | src/mount/hymofs.rs:177-259 | over the same walk, `delete_directory_rules` deletes a path iff `inject_directory` added a redirect or hide rule for it |
| HymoDevice.InjectDirectory | src/mount/hymofs.rs:177-218 | always Ok; a missing or non-directory module dir issues nothing; otherwise the loop issues exactly the injection log of the walk, in walk order, with each relative path taken by `StripPrefix` against the module dir |
| HymoDevice.DeleteDirectoryRules | src/mount/hymofs.rs:220-259 | always Ok; a missing or non-directory module dir issues nothing; otherwise exactly the deletion log of the walk, relative paths again by `StripPrefix` |
| Order.SortedList | src/core/executor.rs:38-44 | collecting a set and sorting it gives a sorted, duplicate-free list holding exactly the set's members |
| Executor.EnsureMountpoint | src/core/executor.rs:141-150 | nothing iff the path exists; otherwise a directory is created with its ancestors, or a file is created after its parent directory |
| Executor.HymoMirrorPathProperties | src/core/executor.rs:122-123 | the Hymo copy lies below the Hymo mirror dir, and targets that differ once leading '/'s are dropped get different copies |
| Executor.CopyHymoSource | src/core/executor.rs:121-139 | success iff the parent can be created and the copy succeeds; then the mirror path is returned and the copy into it was the last call |
| Executor.Exclusions | src/core/executor.rs:100-103 | the exclusions are exactly the names of the children whose strategy is not Passthrough |
| Executor.ExecuteLeaf | src/core/executor.rs:60-96 | Overlay records every mutation's id; Hymo records the first one's id as hymo; Bind records the first one's id as magic; each issues its mount and visits no child |
| Executor.MountOverlayLeaf | src/core/executor.rs:60-68 | the Overlay arm issues the mount point's creation when missing and then the overlay of the node's lower dirs onto the node |
| Executor.MountHymoLeaf | src/core/executor.rs:69-88 | the Hymo arm issues nothing without the device; otherwise the copy onto the mirror and, once the copy succeeded, the redirect rule from the node to the copy |
| Executor.ExecuteMagic | src/core/executor.rs:97-116 | the first id is recorded as magic; the skeleton's calls come first; only once it is up are the children walked, in the map's order, and the private remount issued last |
| Executor.ExecuteChildren | src/core/executor.rs:55-58 | walking the children in the map's order records exactly the ids below them and issues their calls in that order |
| Executor.ExecuteNode | src/core/executor.rs:53-119 | the walk always returns Ok; it adds exactly `Ids` of the subtree to each mechanism's set and issues exactly the calls of `Visit`, in order |
| Executor.VisitOrderIrrelevant | src/core/executor.rs:56-58 | the map's order changes only the order of the calls: any two orders of the same children issue the same calls |
| Executor.IdsAreOwnIdsOfReached | src/core/executor.rs:53-119 | an id is recorded for a mechanism iff it is an own id of a node the walk reaches: a node reached through Passthrough nodes and Magic nodes whose skeleton is up |
| Executor.OverlayRecordsAll | src/core/executor.rs:60-68 | an Overlay node records every mutation's id as overlay, records nothing else, and issues only its own mount |
| Executor.SkeletonFailureSkipsChildren | src/core/executor.rs:106-109 | a Magic node whose skeleton fails records only its first id as magic, issues only the skeleton's calls and reaches no child |
| Executor.HymoIdsComeFromHymoFsFiles | src/core/executor.rs:69-70 | on a planned tree, a module is recorded as hymo only for a Hymo node whose first mutation is that module's, has mode HymoFs and is not a directory |
| Executor.Execute | src/core/executor.rs:27-51 | the device set-up comes first when HymoFS is available, then exactly the walk's calls; each id list is sorted, duplicate-free, and exactly the ids the walk recorded for it; the result is Ok |

## Left out

- The installer script and the status WebUI of the repository are not part of this model. Neither are `print_visuals`, `draw_node` or `analyze_conflicts`, which only log.
- `FsNode` is a value and not a heap object, because nothing aliases a child. The `&mut` cursor of `insert_into_tree` and the in-place strategy writes of `resolve_tree` become functions returning the updated tree.
- `HashMap` iteration order in `resolve_tree` is not modelled: `Planner.ResolveChildren` picks the next child with `:|`, in an arbitrary order.
- Mount, fsconfig, open_tree, mount_change, tmpfs, send_unmountable, unmount, create_dir_all, File::create and symlink are effects in a log. Their success comes from a `Host` oracle.
- The `Host` and `readDir` oracles are fixed for the run. The model does not feed issued effects back into later answers. So a second staged mount issues `CreateDirAll` of the staging root again. Likewise, a nested Magic node's `readDir` listing is not tied to the placeholders the outer skeleton created.
- The HymoFS ioctls, `CString` and the raw pointer structures are out of scope. The device is a `Device` oracle; the rules sent are effects.
- `set_stealth` is called by `execute` but is defined outside `hymofs.rs`. It is modelled only as an issued `HymoSetStealth` effect.
- `utils.rs` is not part of this model.
  - `ensure_dir_exists` is a `CreateDirAll` effect.
  - `sync_dir`, `fs::copy` and `copy_path_context` are one `CopyToMirror` effect, with an oracle for its success.
- `clone_attr` is not modelled: chmod, chown and SELinux contexts. Its failures are only warnings in the source, so leaving it out changes no outcome.
- JSON decoding of rule files is out of scope: a rule file is read through a `parsedRules` oracle. `read_to_string` is a `readText` oracle.
- The rayon parallel iterator in `scan` is modelled as a sequential filter followed by the sort.
- UTF-8 validation of the rules list in `get_active_rules` is not modelled; the bytes are returned undecoded.
- Stage directory names come from the clock (`stage_<nanos>_<i>`). They are a `stageName` oracle, and the clock is only asked whether it is after the epoch.
- WalkDir traversal in the planner is the order of its `walk` oracle (`Planner.Walker`). It answers, for each entry, the names leading from the walked directory to it.
- WalkDir traversal in `inject_directory` and `delete_directory_rules` is the order of the `HymoDevice.Walk` oracle. It answers, for each entry, its full path, its file type and its device number. The relative path is derived from the full path by `StripPrefix`.
- Planner.InsertEntries: the relative path's string, which selects the rule mode, is its components joined with '/'. For a partition name holding "." pieces or repeated '/', the source passes the remaining raw text of the path instead.
- `defs.rs` is not part of this model: its constants are fields of `Consts`.
- Logging (`info!`, `warn!`, `error!`) is not modelled.
- Inventory.GetMode: when several keys cover the path, the source returns the first in `HashMap` iteration order. The contract only says that the mode of some covering key is returned.
- Inventory.Scan: the result is stated as a sorted permutation of the eligible modules. The stable order of equal ids is not stated; entry names in one directory are distinct.
- `HashMap` iteration order of a node's children is the `childOrder` oracle of the executor's environment. An oracle answer that does not list each child exactly once cannot come from a map; the walk then takes ascending key order.
- Overlay.RouteOf, Overlay.LowerdirConfigLength, Overlay.BatchesOfProperties, Overlay.Batch, Overlay.LayerChain: lengths are counted in characters, while the source counts UTF-8 bytes (`len()` of the option string and of each lower dir). They agree on ASCII paths.
- Overlay.Batch, Overlay.MountOverlayfsStaged: this is the corrected batching loop (see Findings), and the staged mount stacks its batches. The loop as written is `BatchesAsWritten`.

## Findings

| source | as written | input that shows it | evidently intended | confidence | as-written member | corrected member |
|---|---|---|---|---|---|---|
| src/mount/overlay.rs:76-80 | the batch is closed when `current_len + dir.len() + 1 > 3500`, without asking whether the current batch is empty | a single lower dir 4000 bytes long with no upper/work dir: the staged route is taken and batches become `[[], [d]]`, so the empty batch is mounted as an extra layer holding only the previous stage | close only a non-empty batch, so every batch is non-empty and `[d]` stays one batch | not executed; medium | Overlay.AsWrittenPushesEmptyBatch | Overlay.BatchesOfProperties |
