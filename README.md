# mpm: a verified model of the modpack manager's core

mpm (`mc_pack_manager`) keeps a Minecraft modpack described by a *pack
manifest*. A manifest holds:

- a version;
- *packmodes*, named subsets of the pack (client, server-side, optional
  extras), each listing the packmodes it depends on, with an implicit
  root `"server"`;
- the mods, each with its packmode;
- the packmode of each override file or directory;
- a cache of override hashes.

This project models that core in Dafny and proves what it promises. It
covers:

- **Versions** (module `Versions`, `utils.py`): dotted integer tuples.
  They are parsed from and printed to strings, compared
  lexicographically and incremented.
- **The depth-first search** (module `Search`, `utils.py`). It either
  returns a path or raises the cycle it met. It is modelled as the
  iterative method it is: an explicit stack with finish markers, the
  active map and the path.
- **The manifest** (module `Pack`, `manifest/pack.py`):
  - the JSON schema as a predicate on a `Json` value;
  - validation of the dependency graph and of packmode assignments;
  - `make`, `load` and the default manifest;
  - the bottom-up override lookup;
  - the dependency closure of a selection;
  - selecting the mods and override-cache entries of a selection.
- **Diffs** (module `Common`, `manager/common.py`):
  - the deleted/updated/added diff between two modlists or two override
    caches;
  - the modlist of a new version;
  - the log listing of mods;
  - the override cache;
  - applying an override diff to a directory.
- **Assignment windows** (module `PackmodesUI`, `ui/packmodes.py`, state
  only):
  - adding a packmode;
  - assigning mods;
  - assigning override files, and compacting them into directory entries
    on exit.
- **The update** (module `Update`, `manager/update.py`):
  - the `UpdateType`/`InstallType` alias lookup;
  - `update_pack`, which reads the local manifest and chooses the
    packmodes, computes both selections and stops if nothing changed,
    then applies the mod and override diffs to the pack directory and
    records the new manifest. The DEBUG listings of the mod diff are
    part of it: their arguments are built even when the log hides them,
    and a mod without a name makes them raise before any file changes.

Supporting modules:

- `Strings`: `str.split`/`join`, code-point order and lower-casing.
- `Paths`: `PurePosixPath` parts and `str`.
- `Sorting`: `sorted`, stable for equal keys.
- `Json`: JSON values.
- `Wrappers`: Option and Result.

Code that mutates state is modelled as such:

- the DFS, the worklist of `get_all_dependencies`, the loops of
  `validate_dependencies`, `build_new_modlist` and `format_modlist`, and
  `_dfs_assign` are methods with loop invariants;
- the windows are classes whose handlers modify their fields;
- `apply_override_diff` works on a `FileTree` object;
- `update_pack` works on a `FileSystem` object.

Each such method is proved against a specification function, and the
properties of that function are lemmas.

Some external parts are abstracted:

- The pack directory is a map from relative paths to contents.
- `download` and `send_file` are called without `force`, so they fail
  on an existing file; `unlink` fails on a missing one.
- The update provider is the remote manifest with abstract content
  functions for mod files and overrides.
- Python's set and dict iteration order is left open. A method that
  iterates a set returns, as a ghost value, the order it used, and its
  contract holds for every order.

## Model

| member | source | states |
|---|---|---|
| Versions.ParseToString | mc_pack_manager/utils.py:38-46 | `Version(str(v)) == v` for every non-empty integer tuple, negative parts included |
| Versions.ToStringParse | mc_pack_manager/utils.py:38-46 | a string whose dot-separated pieces are canonical numerals parses, and `str` of the result is the string again |
| Versions.ParseIntString | mc_pack_manager/utils.py:39-46 | `int(str(i)) == i` for every integer, as parsing a version relies on |
| Versions.DigitsOfNatString | mc_pack_manager/utils.py:46 | the decimal string of a natural is canonical (no leading zero) and denotes it |
| Versions.NatStringOfDigits | mc_pack_manager/utils.py:39 | a canonical numeral is the decimal string of its value |
| Versions.TupleLessTransitive | mc_pack_manager/utils.py:55-58 | tuple `<` is transitive |
| Versions.TupleLessTrichotomy | mc_pack_manager/utils.py:55-78 | for any two tuples exactly one of `<`, `==`, `>` holds |
| Versions.VersionTotalOrder | mc_pack_manager/utils.py:55-78 | `<` on versions is irreflexive and transitive; exactly one of `<`, `==`, `>` holds; `<=` is "not `>`" and `>=` is "not `<`" |
| Versions.Incr | mc_pack_manager/utils.py:80-81 | `incr` is defined exactly on non-empty versions; it keeps the length and every component but the last, and adds 1 to the last |
| Versions.IncrIsGreater | mc_pack_manager/utils.py:80-81 | `v < v.incr()` |
| Strings.Split | mc_pack_manager/utils.py:39 | `split` gives at least one piece and no piece contains the separator |
| Strings.JoinSplit | mc_pack_manager/utils.py:39-46 | joining the pieces of a split with the separator gives the string back |
| Strings.SplitJoin | mc_pack_manager/utils.py:39-46 | splitting the join of separator-free pieces gives the pieces back |
| Strings.BelowTotal | mc_pack_manager/manager/common.py:50-51 | code-point order on strings is total and asymmetric |
| Strings.BelowTransitive | mc_pack_manager/manager/common.py:50-51 | code-point order is transitive |
| Strings.Lower | mc_pack_manager/manager/update.py:187 | ASCII lower-casing: keeps the length, maps A–Z to a–z and leaves every other character alone |
| Sorting.SortBy | mc_pack_manager/manager/common.py:50-51 | `sorted(mods, key=name)` is ordered by the key and a permutation of its input |
| Sorting.SortByStable | mc_pack_manager/manager/common.py:50-51 | `sorted` is stable: the elements sharing a key come out in their input order |
| Sorting.InsertByStable | mc_pack_manager/manager/common.py:50-51 | inserting into a sorted list places the element after every element with its key |
| Sorting.InsertBySorted | mc_pack_manager/manager/common.py:50-51 | inserting into a sorted list keeps it sorted |
| Sorting.SortedElements | mc_pack_manager/manager/common.py:266 | `sorted(set)` is strictly increasing and holds exactly the set's elements |
| Paths.Parents | mc_pack_manager/manifest/pack.py:380-381 | `relpath.parents[i]` is the path with its last i+1 components removed |
| Paths.JoinParts | mc_pack_manager/ui/packmodes.py:267 | the parts of a "/"-joined list of components are those components |
| Paths.RelStrParts | mc_pack_manager/ui/packmodes.py:366 | `PurePath(*parts)` is relative and its `parts` are `parts` again |
| Paths.NormalizeIdempotent | mc_pack_manager/manifest/pack.py:376-377 | `str(Path(str(Path(s)))) == str(Path(s))` |
| Search.Dfs | mc_pack_manager/utils.py:144-197 | a returned path starts at u, ends at v and follows graph edges; a raised cycle is a walk from u (or `[x, x]` for a self-loop) with an edge back into it; the early guard (a target, `raise_cycle` false, and u or v not a key) forces None; otherwise None only when no cycle is reachable from u and v is unreachable |
| Search.FinishNode | mc_pack_manager/utils.py:172-178 | a popped finish marker is the top of the path, so the RuntimeError is never raised; the node is marked finished and the loop invariants are kept |
| Search.VisitNode | mc_pack_manager/utils.py:179-197 | visiting a node returns the path when it is v, raises a reported cycle on an active child, and otherwise keeps the invariants while the loop measure decreases |
| Search.PushChildren | mc_pack_manager/utils.py:184-188 | unseen children are pushed in order; finished ones are skipped; it stops at the first active child |
| Search.RebuildCycle | mc_pack_manager/utils.py:189-197 | the cycle rebuilt from the stack is `[x, x]` for a self-loop, else the whole current DFS path |
| Search.BackEdge | mc_pack_manager/utils.py:187-190 | an active child lies on the current path, so a cycle is reachable from u |
| Search.CycleReport | mc_pack_manager/utils.py:189-197 | the list the DFS raises satisfies the cycle report: a walk from u ending with an edge back into the walk |
| Search.EmptyStack | mc_pack_manager/utils.py:171 | when the stack empties, no cycle is reachable from u and v is unreachable |
| Pack.Decode | mc_pack_manager/manifest/pack.py:24-79 | a schema-valid document has a three-natural version, no "server" packmode, and a packmode on every mod |
| Pack.ModJson | mc_pack_manager/manifest/pack.py:28-39 | a mod's JSON meets the mod schema exactly when it has a packmode, and then decodes back to the mod |
| Pack.ModJsonOf | mc_pack_manager/manifest/pack.py:28-39 | decoding then encoding a schema-valid mod object gives the same object |
| Pack.ModsRoundTrip | mc_pack_manager/manifest/pack.py:62 | encoding then decoding a mod list that meets the schema gives the list back |
| Pack.PackmodesRoundTrip | mc_pack_manager/manifest/pack.py:49-55 | encoding then decoding packmodes gives them back |
| Pack.VersionPatternParses | mc_pack_manager/manifest/pack.py:273-275 | a "pack-version" matching `^[0-9]+[.][0-9]+[.][0-9]+$` parses into three naturals |
| Pack.ThreeNaturalsPattern | mc_pack_manager/manifest/pack.py:349 | `str` of a three-natural version matches the "pack-version" pattern |
| Pack.MakeJson | mc_pack_manager/manifest/pack.py:349-354 | "current-packmodes" is present exactly when the list is non-empty |
| Pack.MakeJsonFields | mc_pack_manager/manifest/pack.py:349-354 | each field holds its argument, the version as its string |
| Pack.MakeDecode | mc_pack_manager/manifest/pack.py:349-356 | a schema-valid made document decodes to exactly the arguments |
| Pack.RecordRoundTrip | mc_pack_manager/manifest/pack.py:327-356 | re-making a valid manifest with a new current list gives a valid manifest that decodes to the same one with that list |
| Pack.SelfDependencyCircular | mc_pack_manager/manifest/pack.py:156-165 | a packmode that lists itself is a circular dependency |
| Pack.ServerKeyCircular | mc_pack_manager/manifest/pack.py:155-165 | a packmode named "server" is a circular dependency |
| Pack.NoPackmodesAcyclic | mc_pack_manager/manifest/pack.py:155-165 | no packmodes, no cycle |
| Pack.DependentsWalk | mc_pack_manager/manifest/pack.py:156-161 | the paths of the built graph are the walks through dependents |
| Pack.DependentsCycle | mc_pack_manager/manifest/pack.py:162-165 | a cycle is reachable from "server" in the built graph iff the packmodes are circular |
| Pack.DependentsReport | mc_pack_manager/manifest/pack.py:162-165 | the cycle the DFS reports is a cycle of dependencies |
| Pack.LinkDependencies | mc_pack_manager/manifest/pack.py:157-161 | one packmode's dependencies add its dependent edges, or the first undefined one is reported |
| Pack.DependentsGraph | mc_pack_manager/manifest/pack.py:155-161 | the graph holds exactly the dependent edges, or an undefined dependency is reported |
| Pack.ValidateDependencies | mc_pack_manager/manifest/pack.py:143-165 | succeeds iff every dependency is defined and there is no circular dependency; an error names an undefined dependency or carries a real cycle |
| Pack.ValidatePackmodeAssignments | mc_pack_manager/manifest/pack.py:168-197 | succeeds iff every mod and override packmode is defined and no packmode is named "server"; each error names the first offending mod, an offending override, or the "server" key |
| Pack.Validate | mc_pack_manager/manifest/pack.py:200-218 | succeeds iff the document is a valid manifest; schema violations come first |
| Pack.Load | mc_pack_manager/manifest/pack.py:269-283 | a document loads iff it is valid, and then into its decoding |
| Pack.Make | mc_pack_manager/manifest/pack.py:327-356 | returns the made document iff it is valid, which then decodes to the arguments; an unassigned mod is a schema violation |
| Pack.DefaultAsWrittenInvalid | mc_pack_manager/manifest/pack.py:82-88 | the default manifest as written fails the schema |
| Pack.DefaultValid | mc_pack_manager/manifest/pack.py:221-229 | the corrected default is valid and decodes to `get_default()` |
| Pack.DefaultVersionPattern | mc_pack_manager/manifest/pack.py:83 | "0.0.0" is `str(Version([0, 0, 0]))` and matches the pattern |
| Pack.CheckPackmodes | mc_pack_manager/manifest/pack.py:286-299 | succeeds iff every listed name is defined; the error holds exactly the undefined names |
| Pack.FirstKey | mc_pack_manager/manifest/pack.py:380-383 | the value of the first listed key present, or None if none is |
| Pack.Lookups | mc_pack_manager/manifest/pack.py:376-381 | the keys tried: the path itself, then each parent, nearest first |
| Pack.OverridePackmode | mc_pack_manager/manifest/pack.py:359-383 | None iff neither the path nor any ancestor is assigned; otherwise the value of the nearest assigned one |
| Pack.GetOverridePackmode | mc_pack_manager/manifest/pack.py:376-383 | the loop returns the nearest-ancestor lookup |
| Pack.WorklistStart | mc_pack_manager/manifest/pack.py:398-399 | `{"server"}` and the selection as stack start the worklist invariant |
| Pack.WorklistDone | mc_pack_manager/manifest/pack.py:400-406 | with the stack empty, the set holds exactly the packmodes reachable from the selection |
| Pack.PopExpand | mc_pack_manager/manifest/pack.py:401-405 | adding a popped packmode and pushing its dependencies keeps the invariant |
| Pack.GetAllDependencies | mc_pack_manager/manifest/pack.py:386-406 | corrected: returns exactly "server", the selection and everything they depend on; errors are the `check_packmodes` error or a reached packmode missing from the table |
| Pack.SelectedIdempotent | mc_pack_manager/manifest/pack.py:386-406 | expanding an expansion changes nothing |
| Pack.GetAllDependenciesAsWritten | mc_pack_manager/manifest/pack.py:397-406 | as written: succeeds only when every selected name is "server" (result `{"server"}`); otherwise fails with the set subscript |
| Pack.ShadowingCounterexample | mc_pack_manager/manifest/pack.py:398-404 | for packmode "a" with no dependencies, selecting `["a"]` passes the check and should select "a", but the written code fails |
| Pack.SelectMods | mc_pack_manager/manifest/pack.py:422-427 | the kept mods are exactly those whose packmode is selected |
| Pack.SelectModsAll | mc_pack_manager/manifest/pack.py:422-427 | when every packmode is selected, every mod is kept, in order |
| Pack.GetSelectedMods | mc_pack_manager/manifest/pack.py:409-427 | corrected (see the pack.py:398-404 finding): an empty list gives `[]`; otherwise it fails iff the selection does not expand, else keeps exactly the mods whose packmode is in the expansion |
| Pack.GetSelectedOverrides | mc_pack_manager/manifest/pack.py:430-451 | corrected (see the pack.py:398-404 finding): keeps exactly the cache entries whose bottom-up packmode is in the expansion, with their hashes; unassigned files are dropped |
| Common.MapDiffPartition | mc_pack_manager/manager/common.py:230-239 | deleted, updated and added are pairwise disjoint, and together they are the keys that are new, gone or changed |
| Common.MapDiffSelf | mc_pack_manager/manager/common.py:230-239 | the diff of a cache against itself is empty |
| Common.MapDiffSwap | mc_pack_manager/manager/common.py:230-239 | swapping the sides swaps deleted and added and keeps updated |
| Common.MapDiffApply | mc_pack_manager/manager/common.py:252-299 | applying the diff to the old state, with values from the new, gives the new state |
| Common.ApplySyncs | mc_pack_manager/manager/common.py:252-299 | after applying a cache diff, every file of the new cache has its new hash, files only in the old cache are gone, and others are untouched |
| Common.ComputeOverrideDiff | mc_pack_manager/manager/common.py:215-239 | updated paths are in both caches with different hashes; every path of the diff is in one of the caches |
| Common.ByAddonLast | mc_pack_manager/manager/common.py:140-141 | an addon is keyed iff listed, and maps to its last entry in the list |
| Common.ModDiffMeaning | mc_pack_manager/manager/common.py:122-151 | deleted: listed only before; added: listed only after; updated: listed in both with the last entries' fileIDs differing |
| Common.ModDiffSelf | mc_pack_manager/manager/common.py:142-151 | diffing a modlist against itself gives three empty sets |
| Common.NewMod | mc_pack_manager/manager/common.py:98-117 | ids come from the vendor file; the packmode is carried over only from a known addon; a cached name is reused; a cached filename is reused only for the same fileID; otherwise both are resolved |
| Common.BuildNewModlist | mc_pack_manager/manager/common.py:65-119 | one mod per vendor file, in vendor order, each built by those rules against the keyed old list |
| Common.NewModlistUnchanged | mc_pack_manager/manager/common.py:97-118 | rebuilding from a fully resolved mod's own file reproduces the mod |
| Common.JoinWithPrefixed | mc_pack_manager/manager/common.py:62 | `SEP + ("\n" + SEP).join(lines)` is the lines each prefixed by SEP, joined by newlines |
| Common.ListingLines | mc_pack_manager/manager/common.py:46-62 | the listing splits on newlines into one SEP-prefixed line per mod |
| Common.Formatted | mc_pack_manager/manager/common.py:51-61 | one formatted line per mod, in order |
| Common.FormatModlist | mc_pack_manager/manager/common.py:28-62 | the listing is the lines of the mods sorted by name, each formatted against the old mod map |
| Common.BuildOverridesCache | mc_pack_manager/manager/common.py:192-212 | the cache is sorted by path, and holds exactly each found path's last hash, except the two manifest files |
| Common.LastFoundUnique | mc_pack_manager/manager/common.py:206-210 | the cache holds one hash per path |
| Common.FileTree.Unlink | mc_pack_manager/manager/common.py:266-270 | removes exactly the file |
| Common.FileTree.CopyFrom | mc_pack_manager/manager/common.py:274-287 | copies the source file, or changes nothing if there is no source file |
| Common.CopyAll | mc_pack_manager/manager/common.py:274-299 | the target gets every listed file the source has |
| Common.ApplyOverrideDiff | mc_pack_manager/manager/common.py:252-299 | the directory becomes the old one minus the deleted files, plus the source's version of each updated and added file |
| PackmodesUI.PackmodeBaseGUI.OnAdd | mc_pack_manager/ui/packmodes.py:138-160 | an existing name or "server" is refused and nothing changes; otherwise the packmode is kept iff the extended table validates, else it is rolled back |
| PackmodesUI.ModGUI.constructor | mc_pack_manager/ui/packmodes.py:205-209 | the window holds the mod list |
| PackmodesUI.Relabel | mc_pack_manager/ui/packmodes.py:230-232 | only the packmode of a selected mod changes |
| PackmodesUI.Relabelled | mc_pack_manager/ui/packmodes.py:227-252 | each mod relabelled in place, the list's length and names kept |
| PackmodesUI.RelabelThenUnassign | mc_pack_manager/ui/packmodes.py:227-252 | assigning unassigned mods, then unassigning them, restores the list |
| PackmodesUI.ModGUI.OnAssign | mc_pack_manager/ui/packmodes.py:227-238 | the selected mods get the packmode, the others are unchanged |
| PackmodesUI.ModGUI.OnUnassign | mc_pack_manager/ui/packmodes.py:240-252 | the selected mods lose their packmode, the others are unchanged |
| PackmodesUI.ModGUI.SetPackmodes | mc_pack_manager/ui/packmodes.py:230-248 | the loop relabels every selected mod |
| PackmodesUI.ModGUI.OnExit | mc_pack_manager/ui/packmodes.py:254-256 | exit is refused iff some mod has no packmode |
| PackmodesUI.InitialPackmode | mc_pack_manager/ui/packmodes.py:266-273 | an added file starts unassigned; any other file starts with its bottom-up packmode |
| PackmodesUI.OverridesGUI.constructor | mc_pack_manager/ui/packmodes.py:264-278 | one entry per cache path, keyed by its parts, holding its initial packmode |
| PackmodesUI.Reassigned | mc_pack_manager/ui/packmodes.py:298-308 | selected entries take the value, the others keep theirs, the keys are kept |
| PackmodesUI.AssignThenUnassign | mc_pack_manager/ui/packmodes.py:298-308 | assigning unassigned files, then unassigning them, restores the map |
| PackmodesUI.SetEach | mc_pack_manager/ui/packmodes.py:300-307 | the loop sets every selected entry |
| PackmodesUI.OverridesGUI.OnAssign | mc_pack_manager/ui/packmodes.py:298-302 | the selected files get the packmode, the others are unchanged |
| PackmodesUI.OverridesGUI.OnUnassign | mc_pack_manager/ui/packmodes.py:304-308 | the selected files become unassigned, the others are unchanged |
| PackmodesUI.InsertPath | mc_pack_manager/ui/packmodes.py:317-321 | the tree gains the path's directories as unassigned nodes, existing nodes unchanged |
| PackmodesUI.PartialTreeStep | mc_pack_manager/ui/packmodes.py:316-323 | inserting a file and marking its leaf extends the tree to that file |
| PackmodesUI.OverridesGUI.BuildFileTree | mc_pack_manager/ui/packmodes.py:310-324 | one leaf per file, with weight 1 and its packmode; every directory unassigned |
| PackmodesUI.Tally | mc_pack_manager/ui/packmodes.py:342-344 | the weight of each packmode is the summed weight of the children carrying it |
| PackmodesUI.Heaviest | mc_pack_manager/ui/packmodes.py:345 | a packmode of maximal weight, with that weight |
| PackmodesUI.FinishNode | mc_pack_manager/ui/packmodes.py:339-347 | a directory gets a packmode of one of its children whose summed weight is maximal, and that weight |
| PackmodesUI.Weigh | mc_pack_manager/ui/packmodes.py:339-347 | a popped finish entry makes its directory dominant and keeps the stack invariants |
| PackmodesUI.Expand | mc_pack_manager/ui/packmodes.py:348-353 | a directory is scheduled, then its children pushed above it |
| PackmodesUI.DfsDone | mc_pack_manager/ui/packmodes.py:336-353 | when the stack empties, every file is as assigned, every non-empty directory is dominant, empty ones stay unassigned |
| PackmodesUI.DfsAssign | mc_pack_manager/ui/packmodes.py:326-353 | post-order: files keep their packmode and weight 1; each directory takes a maximal-weight packmode of its children and that weight |
| PackmodesUI.OverridesGUI.WriteOverrides | mc_pack_manager/ui/packmodes.py:355-374 | adds an entry for exactly the nodes below that are top level or differ from a truthy parent, with their packmode |
| PackmodesUI.Compacted | mc_pack_manager/ui/packmodes.py:363-366 | every written entry is a written node's path with that node's packmode |
| PackmodesUI.CompactedIs | mc_pack_manager/ui/packmodes.py:355-374 | the compacted overrides are the packmodes of exactly the written nodes |
| PackmodesUI.NearestWritten | mc_pack_manager/ui/packmodes.py:363-374 | a file's bottom-up lookup in the compacted overrides finds its nearest written ancestor |
| PackmodesUI.FileLossless | mc_pack_manager/ui/packmodes.py:355-374 | on a tree where every node carries a packmode, the lookup gives back each file's packmode |
| PackmodesUI.CompactionLossless | mc_pack_manager/ui/packmodes.py:326-387 | after compaction, `get_override_packmode` gives every file exactly its assigned packmode |
| PackmodesUI.CompactedValues | mc_pack_manager/ui/packmodes.py:326-387 | every compacted entry holds a packmode some file was assigned |
| PackmodesUI.ExitOverrides | mc_pack_manager/ui/packmodes.py:376-387 | the overrides written on exit are lossless and only use assigned packmodes |
| PackmodesUI.AllSome | mc_pack_manager/ui/packmodes.py:377-378 | true iff every file is assigned |
| PackmodesUI.OverridesGUI.Rewrite | mc_pack_manager/ui/packmodes.py:386-387 | the overrides are replaced by the compacted ones |
| PackmodesUI.OverridesGUI.Compact | mc_pack_manager/ui/packmodes.py:381-387 | the overrides become exactly the compaction of a fully assigned tree of the files; every file's bottom-up lookup gives its assigned packmode, and only assigned packmodes are written |
| PackmodesUI.OverridesGUI.OnExit | mc_pack_manager/ui/packmodes.py:376-387 | refused, changing nothing, iff some file is unassigned; otherwise the overrides become exactly the compaction of a fully assigned tree, give every file its packmode, and hold only assigned packmodes |
| Update.FirstWithAlias | mc_pack_manager/manager/update.py:188-190 | the first member, in declaration order, having the string as an alias, or None if none has it |
| Update.ResolveMeaning | mc_pack_manager/manager/update.py:185-190 | with distinct aliases, a value resolves to a member iff its lower-case form is one of that member's aliases |
| Update.UpdateTypeOfMeaning | mc_pack_manager/manager/update.py:171-190 | LOCAL iff the lower-cased value is "local", HTTP iff "http", no member otherwise |
| Update.InstallTypeOfMeaning | mc_pack_manager/manager/update.py:192-211 | LOCAL iff the lower-cased value is "local", FTP iff "ftp", no member otherwise |
| Update.UpdateTypeOfLower | mc_pack_manager/manager/update.py:187 | case does not matter to the lookup |
| Update.LowerIdempotent | mc_pack_manager/manager/update.py:187 | lower-casing twice is lower-casing once |
| Update.UpdateAliasesWell | mc_pack_manager/manager/update.py:171-173 | the update aliases are lower-case and distinct |
| Update.InstallAliasesWell | mc_pack_manager/manager/update.py:192-194 | the install aliases are lower-case and distinct |
| Update.FileSystem.Unlink | mc_pack_manager/filesystem/common.py:107-114 | removes an existing file, and fails on a missing one without changing anything |
| Update.FileSystem.Put | mc_pack_manager/filesystem/common.py:136-167 | writes a new file, and fails on an existing one without changing anything |
| Update.ExecAppend | mc_pack_manager/manager/update.py:296-330 | running two lists of calls is running the first, then the second unless the first failed |
| Update.Enumerate | mc_pack_manager/manager/update.py:299 | iterating a set visits each element exactly once |
| Update.DeleteMod | mc_pack_manager/manager/update.py:299-302 | looks up the local mod, reads its name and filename, and unlinks `mods/<filename>`, failing at the first missing piece |
| Update.InstallMod | mc_pack_manager/manager/update.py:101-112 | an addon the provider does not list is skipped; otherwise its file is downloaded to `mods/<filename>` |
| Update.ModStep | mc_pack_manager/manager/update.py:299-309 | one addon of a mod loop makes exactly that addon's calls |
| Update.ModLoop | mc_pack_manager/manager/update.py:299-309 | a mod loop makes its addons' calls in order and stops at the first failure |
| Update.ApplyModDiff | mc_pack_manager/manager/update.py:291-309 | the DEBUG listings of the diff, then deleted, updated and added mods, each set iterated once in some order |
| Update.LookupPhaseMeaning | mc_pack_manager/manager/common.py:160-183 | building a listing raises KeyError iff an addon is not in the map, for such an addon |
| Update.NamePhaseMeaning | mc_pack_manager/manager/common.py:50-52 | sorting a listing by name raises KeyError iff a listed mod has no name, for such a mod |
| Update.ListingPhaseMeaning | mc_pack_manager/manager/common.py:160-183 | a listing of addons the map has raises iff one of them has no name, with that mod's KeyError |
| Update.ListingOfSet | mc_pack_manager/manager/common.py:160-183 | listing a part of the diff, in any order, raises iff one of its mods has no name |
| Update.ListingBlocks | mc_pack_manager/manager/common.py:160-183 | the three listings of a mod diff raise iff a listed mod (a deleted one from the old side, another from the new) has no name, and then with `KeyError: 'name'` and only raising calls |
| Update.DiffListed | mc_pack_manager/manager/common.py:140-151 | every addon of the mod diff is a key of the side it is listed from |
| Update.NamelessStops | mc_pack_manager/manager/update.py:291-295 | a listed mod without a name stops the whole update with `KeyError: 'name'` before any call on the pack directory |
| Update.OverrideStep | mc_pack_manager/manager/update.py:322-330 | one override is unlinked, replaced, or installed |
| Update.OverrideLoop | mc_pack_manager/manager/update.py:322-330 | an override loop makes its paths' calls in order and stops at the first failure |
| Update.ApplyOverrideChanges | mc_pack_manager/manager/update.py:319-330 | deleted, then updated, then added overrides, each set iterated once in some order |
| Update.OverrideActionRun | mc_pack_manager/manager/update.py:322-330 | one override's calls succeed iff the file is present (unlink, replace) or absent (install), with the matching new state |
| Update.OverridePhaseRun | mc_pack_manager/manager/update.py:322-330 | a whole loop succeeds iff all its paths are present (or all absent for installs), and removes them or installs the provider's content |
| Update.OverrideOpsRun | mc_pack_manager/manager/update.py:320-330 | the override loops succeed iff the deleted and updated files exist and the added ones do not; the result is the old directory minus the deleted files, plus the provider's content for the updated and added ones |
| Update.OverridesSynced | mc_pack_manager/manager/update.py:311-330 | starting from a directory that has the old selection's files and none of the added ones, the override loops succeed; the directory then has every new file, new or changed ones with the provider's content, unchanged ones and unrelated files as they were, and dropped ones removed |
| Update.ExecRaises | mc_pack_manager/manager/update.py:296-330 | the loops can only fail with a filesystem or mod-lookup error |
| Update.UpdateOpsRaises | mc_pack_manager/manager/update.py:296-330 | every exception the update's calls can raise is a filesystem or mod-lookup error |
| Update.ReadLocal | mc_pack_manager/manager/update.py:240-256 | aborts iff there is no manifest and no confirmation; fails iff the manifest present is invalid; otherwise gives the loaded manifest, or the default one |
| Update.ChoosePackmodes | mc_pack_manager/manager/update.py:260-267 | the argument if non-empty, else the local "current-packmodes", else every remote packmode |
| Update.ComputeStates | mc_pack_manager/manager/update.py:268-274 | corrected (see the pack.py:398-404 finding): succeeds iff both selections expand, giving both expansions; errors are selection errors |
| Update.UpdateMods | mc_pack_manager/manager/update.py:288-309 | corrected (see the pack.py:398-404 finding): applies the diff of the mods selected before and after, in the order it returns; a listed mod without a name fails it with `KeyError: 'name'` and no file changed |
| Update.UpdateOverrides | mc_pack_manager/manager/update.py:311-330 | corrected (see the pack.py:398-404 finding): applies the diff of the cache entries selected before and after |
| Update.ApplyUpdate | mc_pack_manager/manager/update.py:288-337 | the directory ends as the listings, the mod calls and the override calls leave it; the remote manifest with the chosen packmodes is recorded iff they all succeed; a listed mod without a name fails it with `KeyError: 'name'` and no file changed |
| Update.UpdatePack | mc_pack_manager/manager/update.py:225-338 | corrected (see the pack.py:398-404 and update.py findings): aborts, or fails on an invalid manifest or a bad selection, without touching the pack; "Nothing to update" iff the versions and expansions are equal, and then nothing changes; otherwise the pack is what the planned calls leave, and the new manifest is recorded iff they all succeed; a mod of the diff listed without a name ends it with `KeyError: 'name'`, the pack and its manifest untouched |
| Update.RerunIsNoOp | mc_pack_manager/manager/update.py:261-281 | after a recorded update, rerunning with no packmodes chooses the same ones and finds nothing to update |
| Update.WrittenReplaceLosesMod | mc_pack_manager/manager/update.py:303-307 | as written: an updated mod's file is unlinked, then the install raises AttributeError, so the mod is gone |
| Update.ReplaceInstalls | mc_pack_manager/manager/update.py:303-309 | corrected: an updated mod's old file is replaced by the new version's file |
| Update.WrittenNeverRecords | mc_pack_manager/manager/update.py:331-337 | as written: whatever the loops do, the update ends in an exception before the manifest is written |

## Left out

- Widgets: the tkinter windows, selectors, status labels and event
  bindings of `ui/packmodes.py` and `ui/widgets.py`. Only the state the
  handlers change is modelled.
- Filesystem backends (FTP, local, temporary files, zip extraction).
  The pack directory is a path-to-content map. Directories, `mkdir` and
  `force=True` are not modelled.
- The network: the Twitch catalog and HTTP downloads. Addon names, file
  names and downloaded contents are abstract functions.
- Hashing: file hashes are opaque strings. `err_str`, `AutoFormatError`
  and logging are not modelled.
- JSON text and the jsonschema library. Documents are a `Json` datatype
  and the schema is a predicate on it. Reading and writing files, and
  `dump`'s byte encoding, are not modelled.
- Snapshot and release orchestration (`manager/snapshot.py`,
  `manager/release.py`), `check_snapshot_dir` and `VersionIncr` are
  filesystem and zip work around the modelled core.
- The older copies of the same code (`gui.py`, `manifest.py`,
  `manager.py`, `src/`) are covered by the model of the current files.
- Update providers' `__enter__` and the "with statement" RuntimeError:
  the provider is assumed open.
- Python's set and dict iteration order is unspecified here.
  - Every loop over a set or dict is proved for any order.
  - In `_dfs_assign`, a tie between packmodes of equal weight is broken
    by dict order in the source. The model takes any maximal packmode.
- The nested-dict file tree is a table from node paths to packmode and
  weight. Mutation of shared nested dicts is therefore not modelled.
- `get_default(with_override_url=True)` behaves like the default: its
  `pack_manifest["overrides-url"]: ""` line is an annotation, not an
  assignment.
- Strings.Lower: lower-cases ASCII letters only. Python's `str.lower()`
  maps all of Unicode and can change the length (`"İ"` becomes two
  characters). The alias lookups built on it give the same answers for
  the aliases "local", "http" and "ftp".
- Versions.ParseInt: accepts ASCII whitespace, an optional sign and
  ASCII digits. Python's `int()` also accepts `_` between digits,
  non-ASCII decimal digits and non-ASCII whitespace. Versions in a
  loaded manifest never carry these, because the schema's pattern
  allows only ASCII `[0-9]`. Versions.ParseToString,
  Versions.ToStringParse and Versions.ParseIntString are stated for
  this parser.
- Pack.GetSelectedMods, Pack.GetSelectedOverrides, Update.ComputeStates,
  Update.UpdateMods, Update.UpdateOverrides and Update.UpdatePack run on
  the corrected Pack.GetAllDependencies. As written, the closure raises
  TypeError for every selection naming a packmode other than "server"
  (the pack.py:398-404 finding). So the as-written update fails at
  update.py:269-274 for every real selection, and the two selectors
  fail on every non-empty list.
- Search.Dfs: `raise_cycle` is honoured only in the early guard, as
  written. A cycle met while searching for `v` raises even when
  `raise_cycle` is false.
- Common.FormatModlist: requires every mod to have a name. The source
  raises KeyError at `mod["name"]` otherwise.
- Common.ApplyOverrideDiff: deleting a missing file and copying from a
  missing source are skipped. Other copy failures the source logs and
  ignores (permissions, directories) are not modelled.
- Pack.ValidatePackmodeAssignments: requires every mod to have a
  packmode. This is what the schema check before it guarantees.
- Pack.GetSelectedMods: requires every mod to have a packmode, as in a
  loaded manifest.
- PackmodesUI.OverridesGUI.constructor: requires the cache keys to be
  normalised relative file paths, as `build_overrides_cache` writes
  them. It also requires override packmodes to be non-empty, as the
  schema's name pattern demands.
- PackmodesUI.OverridesGUI.OnAssign and PackmodesUI.OverridesGUI.OnUnassign:
  require the selection to be entries of the map. The selectors only
  offer its keys.
- PackmodesUI.OverridesGUI.Compact: the lossless result relies on every
  assigned packmode being non-empty. The source's truthiness test
  would treat "" as unassigned.
- Update.UpdatePack: requires every remote mod to have a packmode,
  which the provider's `read`/`from_str` guarantees. Log output is not
  modelled. The arguments of the DEBUG listings of the mod diff are
  modelled, because building them raises KeyError for a mod without a
  name.
- Update.RerunIsNoOp: requires a non-empty packmode selection. With an
  empty one, `make` drops "current-packmodes", and a rerun falls back
  to every remote packmode.

## Findings

| source | as written | input that shows it | evidently intended | confidence | as-written member | corrected member |
|---|---|---|---|---|---|---|
| mc_pack_manager/manifest/pack.py:398-404 | `packmodes = {"server"}` shadows the packmode table, so `packmodes[pkm]` subscripts a set | packmodes `{"a": []}`, selection `["a"]`: TypeError instead of `{"server", "a"}` | keep the table and collect the selection into a separate set | high, not executed | Pack.GetAllDependenciesAsWritten, Pack.ShadowingCounterexample | Pack.GetAllDependencies |
| mc_pack_manager/manifest/pack.py:86 | DEFAULT_MANIFEST has `"overrides": []` | DEFAULT_MANIFEST itself is not schema-valid: its overrides must be an object. No current caller validates it: `get_default()` also turns the version into a Version object, and `update` and `read_from` only test keys of the overrides or replace them, so these callers are unaffected | `"overrides": {}` | high, not executed | Pack.DefaultAsWrittenInvalid | Pack.DefaultValid |
| mc_pack_manager/manager/update.py:307 | `update.install_mod(filesystem, addonID)` passes the `filesystem` module instead of `fs` | any mod whose fileID changed: its file is unlinked, then `filesystem.download` raises AttributeError | `update.install_mod(fs, addonID)` | high, not executed | Update.WrittenReplaceLosesMod | Update.ReplaceInstalls, Update.UpdatePack |
| mc_pack_manager/manager/update.py:332-337 | `manifest.pack.copy` does not exist, and `dump` takes no `encode` argument | any update that reaches the manifest write raises AttributeError, so the new state is never recorded | record the remote manifest with "current-packmodes" set to the installed packmodes | high, not executed | Update.WrittenNeverRecords | Update.UpdatePack, Update.RerunIsNoOp |

Three further observations, all modelled as written:

- In `validate_packmode_assignments` (mc_pack_manager/manifest/pack.py:190-194), the "server" key check can never fire after validation. The schema forbids the key, and `validate_dependencies` already reports it as circular (Pack.ServerKeyCircular).
- With a target, `dfs` returns None as soon as u or v is not a key of the graph (mc_pack_manager/utils.py:166-167). So it gives None for a connected pair whose target is a leaf with no entry of its own, e.g. graph `{u: [v]}`, against its docstring ("None if u and v are not connected"). Search.Dfs states this guard in both directions. The only caller (mc_pack_manager/manifest/pack.py:163) passes no target, so it is unaffected.
- `dfs` reports as "cycle" the whole DFS path from u up to the node with the back edge, not just the cycle itself (Search.RebuildCycle).
