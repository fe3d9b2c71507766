/**
 * The helpers of mc_pack_manager/manager/common.py: the diff between two
 * modlists or two override caches, the modlist of a new version, the
 * listing of mods for the log, the override cache of a version and the
 * application of an override diff to a directory.
 */
module Common {
  import opened Wrappers
  import opened Strings
  import opened Sorting
  import Pack

  /** DiffObject: the keys deleted, updated and added from one version to the next. */
  datatype Diff<K> = Diff(deleted: set<K>, updated: set<K>, added: set<K>)

  // ---------------------------------------------------------------------
  // Diffs
  // ---------------------------------------------------------------------

  /** The keys only `before` has, the shared keys whose value changed, the keys only `after` has. */
  function MapDiff<K, V(==)>(before: map<K, V>, after: map<K, V>): Diff<K>
  {
    Diff(before.Keys - after.Keys,
         (set k | k in before && k in after && before[k] != after[k]),
         after.Keys - before.Keys)
  }

  /** The three parts are disjoint, and a key is in one of them exactly when it changed. */
  lemma MapDiffPartition<K, V>(before: map<K, V>, after: map<K, V>)
    ensures var d := MapDiff(before, after);
      && d.deleted !! d.updated && d.updated !! d.added && d.deleted !! d.added
      && forall k :: k in d.deleted + d.updated + d.added <==>
           (k in before || k in after) && (k in before && k in after ==> before[k] != after[k])
           && (k !in before || k !in after || before[k] != after[k])
  {
  }

  /** Nothing changes between a version and itself. */
  lemma MapDiffSelf<K, V>(m: map<K, V>)
    ensures MapDiff(m, m) == Diff({}, {}, {})
  {
  }

  /** Going back swaps deletions and additions and keeps the updates. */
  lemma MapDiffSwap<K, V>(before: map<K, V>, after: map<K, V>)
    ensures var d, e := MapDiff(before, after), MapDiff(after, before);
      d.deleted == e.added && d.updated == e.updated && d.added == e.deleted
  {
  }

  /** Copies over the target the keys of `s` the source has; a copy that fails leaves the target as it is. */
  function Copied<K, V>(target: map<K, V>, source: map<K, V>, s: set<K>): map<K, V>
  {
    map k | k in target.Keys + (s * source.Keys) :: if k in s && k in source then source[k] else target[k]
  }

  /** The target after the deletions, then the updates, then the additions of `d`. */
  function Applied<K, V>(target: map<K, V>, source: map<K, V>, d: Diff<K>): map<K, V>
  {
    Copied(Copied(target - d.deleted, source, d.updated), source, d.added)
  }

  /** Applying the diff of two versions to the first, with the second as source, gives the second. */
  lemma MapDiffApply<K, V>(before: map<K, V>, after: map<K, V>)
    ensures Applied(before, after, MapDiff(before, after)) == after
  {
    var d := MapDiff(before, after);
    var mid := Copied(before - d.deleted, after, d.updated);
    var r := Copied(mid, after, d.added);
    assert mid.Keys == before.Keys * after.Keys;
    assert r.Keys == after.Keys;
    forall k | k in after ensures r[k] == after[k] {
      if k !in before {
        assert k in d.added;
      } else if before[k] != after[k] {
        assert k in d.updated;
      }
    }
  }

  /**
   * A directory whose files hash as the old cache says, updated from a
   * source whose files hash as the new cache says, ends up hashing as the
   * new cache says; files of the old cache only are gone, and files in
   * neither cache are untouched.
   */
  lemma ApplySyncs<V>(hash: V -> string, target: map<string, V>, source: map<string, V>,
                      before: map<string, string>, after: map<string, string>)
    requires forall k :: k in before ==> k in target && hash(target[k]) == before[k]
    requires forall k :: k in after ==> k in source && hash(source[k]) == after[k]
    ensures var r := Applied(target, source, MapDiff(before, after));
      && (forall k :: k in after ==> k in r && hash(r[k]) == after[k])
      && (forall k :: k in before && k !in after ==> k !in r)
      && (forall k :: k !in before && k !in after ==> (k in r <==> k in target) && (k in r ==> r[k] == target[k]))
  {
    var d := MapDiff(before, after);
    var r := Applied(target, source, d);
    forall k | k in after ensures k in r && hash(r[k]) == after[k] {
      if k in before && before[k] == after[k] {
        assert k !in d.updated && k !in d.added && k !in d.deleted;
      }
    }
  }

  /** `compute_override_diff` */
  function ComputeOverrideDiff(before: map<string, string>, after: map<string, string>): (d: Diff<string>)
    ensures forall p :: p in d.updated ==> p in before && p in after && before[p] != after[p]
    ensures d.deleted + d.updated + d.added <= before.Keys + after.Keys
  {
    MapDiff(before, after)
  }

  // ---------------------------------------------------------------------
  // Modlists
  // ---------------------------------------------------------------------

  /** `mods[i]` is the last mod of the list with that addonID, the one `{mod["addonID"]: mod ...}` keeps. */
  predicate LastWith(mods: seq<Pack.Mod>, a: int, i: int)
  {
    0 <= i < |mods| && mods[i].addonID == a && forall j :: i < j < |mods| ==> mods[j].addonID != a
  }

  /** The mods by addonID, a later mod with the same addonID replacing an earlier one. */
  function ByAddon(mods: seq<Pack.Mod>): map<int, Pack.Mod>
  {
    if mods == [] then map[]
    else ByAddon(mods[..|mods| - 1])[mods[|mods| - 1].addonID := mods[|mods| - 1]]
  }

  /** The addonIDs of a modlist. */
  ghost predicate Lists(mods: seq<Pack.Mod>, a: int)
  {
    exists i :: 0 <= i < |mods| && mods[i].addonID == a
  }

  /** The map has exactly the listed addonIDs, each with the last mod listed for it. */
  lemma {:induction false} ByAddonLast(mods: seq<Pack.Mod>, a: int)
    ensures a in ByAddon(mods) <==> Lists(mods, a)
    ensures a in ByAddon(mods) ==> exists i :: LastWith(mods, a, i) && ByAddon(mods)[a] == mods[i]
  {
    if mods != [] {
      var init := mods[..|mods| - 1];
      var m := mods[|mods| - 1];
      if a == m.addonID {
        assert LastWith(mods, a, |mods| - 1);
      } else {
        ByAddonLast(init, a);
        if Lists(mods, a) {
          var i :| 0 <= i < |mods| && mods[i].addonID == a;
          assert init[i] == mods[i];
        }
        if a in ByAddon(init) {
          var i :| LastWith(init, a, i) && ByAddon(init)[a] == init[i];
          assert LastWith(mods, a, i);
        }
      }
    }
  }

  lemma LastWithUnique(mods: seq<Pack.Mod>, a: int, i: int, i': int)
    requires LastWith(mods, a, i) && LastWith(mods, a, i')
    ensures i == i'
  {
  }

  /** The fileID of each addon in the list. */
  function FileIDs(mods: seq<Pack.Mod>): map<int, int>
  {
    map a | a in ByAddon(mods) :: ByAddon(mods)[a].fileID
  }

  /** `compute_mod_diff`: the addonIDs deleted, updated (the fileID changed) and added. */
  function ComputeModDiff(before: seq<Pack.Mod>, after: seq<Pack.Mod>): Diff<int>
  {
    MapDiff(FileIDs(before), FileIDs(after))
  }

  /** An addon is deleted when only the old list has it, added when only the new one has it, updated when the last entries differ in fileID. */
  lemma ModDiffMeaning(before: seq<Pack.Mod>, after: seq<Pack.Mod>, a: int)
    ensures var d := ComputeModDiff(before, after);
      && (a in d.deleted <==> Lists(before, a) && !Lists(after, a))
      && (a in d.added <==> !Lists(before, a) && Lists(after, a))
      && (a in d.updated <==>
            exists i, j :: LastWith(before, a, i) && LastWith(after, a, j) && before[i].fileID != after[j].fileID)
  {
    ByAddonLast(before, a);
    ByAddonLast(after, a);
    var d := ComputeModDiff(before, after);
    if exists i, j :: LastWith(before, a, i) && LastWith(after, a, j) && before[i].fileID != after[j].fileID {
      var i, j :| LastWith(before, a, i) && LastWith(after, a, j) && before[i].fileID != after[j].fileID;
      assert Lists(before, a) && Lists(after, a);
      var i' :| LastWith(before, a, i') && ByAddon(before)[a] == before[i'];
      var j' :| LastWith(after, a, j') && ByAddon(after)[a] == after[j'];
      LastWithUnique(before, a, i, i');
      LastWithUnique(after, a, j, j');
    }
  }

  /** A modlist compared with itself has no difference. */
  lemma ModDiffSelf(mods: seq<Pack.Mod>)
    ensures ComputeModDiff(mods, mods) == Diff({}, {}, {})
  {
    MapDiffSelf(FileIDs(mods));
  }

  /** One entry of the new version's "files": a project and one of its files. */
  datatype FileRef = FileRef(projectID: int, fileID: int)

  /**
   * The entry `build_new_modlist` makes for a file of the new version:
   * the old mod's packmode is carried over, its name is reused when
   * known, and its filename is reused when the file did not change;
   * otherwise both are resolved through the catalogue.
   */
  function NewMod(prior: Option<Pack.Mod>, f: FileRef, nameOf: int -> string,
                  filenameOf: (int, int) -> string): (m: Pack.Mod)
    ensures m.addonID == f.projectID && m.fileID == f.fileID
    ensures m.packmode == (if prior.Some? then prior.value.packmode else None)
    ensures m.name.Some? && m.filename.Some?
    ensures prior.Some? && prior.value.name.Some? ==> m.name == prior.value.name
    ensures !(prior.Some? && prior.value.name.Some?) ==> m.name == Some(nameOf(f.projectID))
    ensures prior.Some? && prior.value.fileID == f.fileID && prior.value.filename.Some? ==>
      m.filename == prior.value.filename
    ensures !(prior.Some? && prior.value.fileID == f.fileID && prior.value.filename.Some?) ==>
      m.filename == Some(filenameOf(f.projectID, f.fileID))
  {
    var packmode := if prior.Some? then prior.value.packmode else None;
    var name := if prior.Some? && prior.value.name.Some? then prior.value.name.value else nameOf(f.projectID);
    var filename :=
      if prior.Some? && prior.value.fileID == f.fileID && prior.value.filename.Some? then prior.value.filename.value
      else filenameOf(f.projectID, f.fileID);
    Pack.Mod(f.projectID, f.fileID, packmode, Some(name), Some(filename))
  }

  function Lookup(m: map<int, Pack.Mod>, a: int): Option<Pack.Mod>
  {
    if a in m then Some(m[a]) else None
  }

  /**
   * `build_new_modlist`: one mod per file of the new version, in order.
   * The catalogue lookups `get_addon_info(...)["name"]` and
   * `get_file_info(...)["fileName"]` are the parameters `nameOf` and `filenameOf`.
   */
  method BuildNewModlist(mods: seq<Pack.Mod>, files: seq<FileRef>, nameOf: int -> string,
                         filenameOf: (int, int) -> string) returns (r: seq<Pack.Mod>)
    ensures |r| == |files|
    ensures forall i :: 0 <= i < |files| ==> r[i] == NewMod(Lookup(ByAddon(mods), files[i].projectID), files[i], nameOf, filenameOf)
  {
    var modMap := ByAddon(mods);
    r := [];
    for i := 0 to |files|
      invariant |r| == i
      invariant forall h :: 0 <= h < i ==> r[h] == NewMod(Lookup(modMap, files[h].projectID), files[h], nameOf, filenameOf)
    {
      r := r + [NewMod(Lookup(modMap, files[i].projectID), files[i], nameOf, filenameOf)];
    }
  }

  /** A new modlist whose files are those of the old one reproduces it: same files, same fields. */
  lemma NewModlistUnchanged(mods: seq<Pack.Mod>, nameOf: int -> string, filenameOf: (int, int) -> string, i: int)
    requires 0 <= i < |mods| && LastWith(mods, mods[i].addonID, i)
    requires mods[i].name.Some? && mods[i].filename.Some?
    ensures NewMod(Lookup(ByAddon(mods), mods[i].addonID), FileRef(mods[i].addonID, mods[i].fileID), nameOf, filenameOf) == mods[i]
  {
    var m := ByAddon(mods);
    ByAddonLast(mods, mods[i].addonID);
    var j :| LastWith(mods, mods[i].addonID, j) && m[mods[i].addonID] == mods[j];
    assert i == j;
  }

  // ---------------------------------------------------------------------
  // format_modlist
  // ---------------------------------------------------------------------

  const Sep: string := "  - "

  function NameOf(m: Pack.Mod): string
  {
    if m.name.Some? then m.name.value else ""
  }

  /** `mod.get("filename", "UNRESOLVED")` */
  function FilenameOf(m: Pack.Mod): string
  {
    if m.filename.Some? then m.filename.value else "UNRESOLVED"
  }

  /** `"%s" % x` for an optional string: None prints as "None". */
  function Shown(v: Option<string>): string
  {
    if v.Some? then v.value else "None"
  }

  /** One line of the listing: the name, then the filename or the old and the new filename. */
  function FormatMod(m: Pack.Mod, printVersion: bool, oldMap: Option<map<int, Pack.Mod>>): string
  {
    NameOf(m) +
      if !printVersion then ""
      else if oldMap.None? then " (" + FilenameOf(m) + ")"
      else " (" + Shown(if m.addonID in oldMap.value then oldMap.value[m.addonID].filename else None)
           + " -> " + FilenameOf(m) + ")"
  }

  /** The old mods by addonID: the map given, else one built from a non-empty old list. */
  function OldMap(oldModlist: seq<Pack.Mod>, oldModmap: Option<map<int, Pack.Mod>>): Option<map<int, Pack.Mod>>
  {
    if oldModlist != [] && oldModmap.None? then Some(ByAddon(oldModlist)) else oldModmap
  }

  /** `sep.join(parts)` */
  function JoinWith(parts: seq<string>, sep: string): string
  {
    if |parts| == 0 then ""
    else if |parts| == 1 then parts[0]
    else parts[0] + sep + JoinWith(parts[1..], sep)
  }

  /** Every line of the listing, the separator in front. */
  function Prefixed(lines: seq<string>): (r: seq<string>)
    ensures |r| == |lines| && forall i :: 0 <= i < |lines| ==> r[i] == Sep + lines[i]
  {
    seq(|lines|, i requires 0 <= i < |lines| => Sep + lines[i])
  }

  lemma {:induction false} JoinWithPrefixed(lines: seq<string>)
    requires |lines| >= 1
    ensures Sep + JoinWith(lines, "\n" + Sep) == Join(Prefixed(lines), '\n')
  {
    if |lines| > 1 {
      JoinWithPrefixed(lines[1..]);
      assert Prefixed(lines)[1..] == Prefixed(lines[1..]);
      assert Sep + JoinWith(lines, "\n" + Sep) == (Sep + lines[0]) + ['\n'] + (Sep + JoinWith(lines[1..], "\n" + Sep));
    }
  }

  /** With no line break inside a line, the listing splits back into one prefixed line per mod. */
  lemma ListingLines(lines: seq<string>)
    requires |lines| >= 1 && forall i :: 0 <= i < |lines| ==> '\n' !in lines[i]
    ensures Split(Sep + JoinWith(lines, "\n" + Sep), '\n') == Prefixed(lines)
  {
    JoinWithPrefixed(lines);
    var p := Prefixed(lines);
    forall i | 0 <= i < |p| ensures '\n' !in p[i] {
      assert p[i] == Sep + lines[i];
    }
    SplitJoin(p, '\n');
  }

  /**
   * `format_modlist`: the mods sorted by name, one formatted line each,
   * every line after a "  - ". A mod without a name is the KeyError the
   * sort key raises, excluded here.
   */
  method FormatModlist(mods: seq<Pack.Mod>, printVersion: bool, oldModlist: seq<Pack.Mod>,
                       oldModmap: Option<map<int, Pack.Mod>>) returns (r: string)
    requires forall i :: 0 <= i < |mods| ==> mods[i].name.Some?
    ensures exists lines ::
      && |lines| == |mods| && r == Sep + JoinWith(lines, "\n" + Sep)
      && lines == Formatted(SortBy(mods, NameOf), printVersion, OldMap(oldModlist, oldModmap))
  {
    var oldMap := OldMap(oldModlist, oldModmap);
    var sorted := SortBy(mods, NameOf);
    assert |sorted| == |mods| by {
      assert |multiset(sorted)| == |multiset(mods)|;
    }
    var fmods: seq<string> := [];
    for i := 0 to |sorted|
      invariant fmods == Formatted(sorted[..i], printVersion, oldMap)
    {
      assert sorted[..i + 1] == sorted[..i] + [sorted[i]];
      FormattedSnoc(sorted[..i], sorted[i], printVersion, oldMap);
      fmods := fmods + [FormatMod(sorted[i], printVersion, oldMap)];
    }
    assert sorted[..|sorted|] == sorted;
    r := Sep + JoinWith(fmods, "\n" + Sep);
  }

  /** The formatted line of every mod, in order. */
  function Formatted(mods: seq<Pack.Mod>, printVersion: bool, oldMap: Option<map<int, Pack.Mod>>): (r: seq<string>)
    ensures |r| == |mods| && forall i :: 0 <= i < |mods| ==> r[i] == FormatMod(mods[i], printVersion, oldMap)
  {
    seq(|mods|, i requires 0 <= i < |mods| => FormatMod(mods[i], printVersion, oldMap))
  }

  lemma FormattedSnoc(mods: seq<Pack.Mod>, m: Pack.Mod, printVersion: bool, oldMap: Option<map<int, Pack.Mod>>)
    ensures Formatted(mods + [m], printVersion, oldMap) == Formatted(mods, printVersion, oldMap) + [FormatMod(m, printVersion, oldMap)]
  {
  }

  // ---------------------------------------------------------------------
  // build_overrides_cache, apply_override_diff
  // ---------------------------------------------------------------------

  /** The files of the unpacked version that are not overrides. */
  predicate Excluded(p: string)
  {
    p == "manifest.json" || p == "pack-manifest.json"
  }

  /** `(path, hash)` is the last entry found for that path. */
  predicate LastFound(found: seq<(string, string)>, p: string, h: string)
  {
    exists i :: 0 <= i < |found| && found[i] == (p, h) && forall j :: i < j < |found| ==> found[j].0 != p
  }

  /**
   * `build_overrides_cache`: the regular files found under the directory,
   * as POSIX relative paths with their hash (the walk and the hashing are
   * the parameter `found`), without the two manifests, sorted by path.
   */
  method BuildOverridesCache(found: seq<(string, string)>) returns (r: seq<(string, string)>)
    ensures Increasing(seq(|r|, i requires 0 <= i < |r| => r[i].0))
    ensures forall p, h :: (p, h) in r <==> !Excluded(p) && LastFound(found, p, h)
  {
    var cache: map<string, string> := map[];
    for i := 0 to |found|
      invariant forall p :: p in cache <==> !Excluded(p) && exists j :: 0 <= j < i && found[j].0 == p
      invariant forall p :: p in cache ==> LastFound(found[..i], p, cache[p])
    {
      var (p, h) := found[i];
      if !Excluded(p) {
        cache := cache[p := h];
      }
      assert found[..i + 1] == found[..i] + [found[i]];
    }
    assert found[..|found|] == found;
    var keys := SortedElements(cache.Keys);
    r := seq(|keys|, i requires 0 <= i < |keys| => (keys[i], cache[keys[i]]));
    assert seq(|r|, i requires 0 <= i < |r| => r[i].0) == keys;
    forall p, h ensures (p, h) in r <==> p in cache && cache[p] == h {
      if p in cache && cache[p] == h {
        var i :| 0 <= i < |keys| && keys[i] == p;
        assert r[i] == (p, h);
      }
    }
    forall p, h | LastFound(found, p, h) && !Excluded(p) ensures p in cache && cache[p] == h {
      var i :| 0 <= i < |found| && found[i] == (p, h) && forall j :: i < j < |found| ==> found[j].0 != p;
      LastFoundUnique(found, p, h, cache[p]);
    }
  }

  lemma LastFoundUnique(found: seq<(string, string)>, p: string, h: string, h': string)
    requires LastFound(found, p, h) && LastFound(found, p, h')
    ensures h == h'
  {
    var i :| 0 <= i < |found| && found[i] == (p, h) && forall j :: i < j < |found| ==> found[j].0 != p;
    var i' :| 0 <= i' < |found| && found[i'] == (p, h') && forall j :: i' < j < |found| ==> found[j].0 != p;
    assert i == i';
  }

  /** A directory: relative POSIX paths of its regular files to their contents. */
  class FileTree {
    var files: map<string, string>

    constructor (files: map<string, string>)
      ensures this.files == files
    {
      this.files := files;
    }

    /** `Path.unlink()` of an existing file. */
    method Unlink(p: string)
      requires p in files
      modifies this
      ensures files == old(files) - {p}
    {
      files := files - {p};
    }

    /** `shutil.copyfile(source / p, self / p)`; fails, changing nothing, when the source has no such file. */
    method CopyFrom(source: FileTree, p: string) returns (ok: bool)
      requires source != this
      modifies this
      ensures ok <==> p in source.files
      ensures files == if ok then old(files)[p := source.files[p]] else old(files)
    {
      ok := p in source.files;
      if ok {
        files := files[p := source.files[p]];
      }
    }
  }

  /** Copies every path of `paths`, in order, from the source; failed copies are ignored. */
  method CopyAll(target: FileTree, source: FileTree, paths: seq<string>)
    requires target != source
    modifies target
    ensures target.files == Copied(old(target.files), source.files, set p | p in paths)
  {
    for i := 0 to |paths|
      invariant target.files == Copied(old(target.files), source.files, set p | p in paths[..i])
    {
      ghost var before := target.files;
      var _ := target.CopyFrom(source, paths[i]);
      assert paths[..i + 1] == paths[..i] + [paths[i]];
      CopiedSnoc(old(target.files), source.files, (set p | p in paths[..i]), paths[i]);
    }
    assert paths[..|paths|] == paths;
  }

  lemma CopiedSnoc<K, V>(target: map<K, V>, source: map<K, V>, s: set<K>, p: K)
    ensures Copied(target, source, s + {p})
      == (if p in source then Copied(target, source, s)[p := source[p]] else Copied(target, source, s))
  {
  }

  /**
   * `apply_override_diff`: deletes the deleted paths that are files, then
   * copies the updated paths, then the added ones, each in sorted order.
   * Parent directories are not modelled.
   */
  method ApplyOverrideDiff(target: FileTree, source: FileTree, d: Diff<string>)
    requires target != source
    modifies target
    ensures target.files == Applied(old(target.files), source.files, d)
  {
    var deleted := SortedElements(d.deleted);
    for i := 0 to |deleted|
      invariant target.files == old(target.files) - (set p | p in deleted[..i])
    {
      assert deleted[..i + 1] == deleted[..i] + [deleted[i]];
      if deleted[i] in target.files {
        target.Unlink(deleted[i]);
      }
    }
    assert deleted[..|deleted|] == deleted;
    assert (set p | p in deleted) == d.deleted;
    var updated := SortedElements(d.updated);
    CopyAll(target, source, updated);
    assert (set p | p in updated) == d.updated;
    var added := SortedElements(d.added);
    CopyAll(target, source, added);
    assert (set p | p in added) == d.added;
  }
}
