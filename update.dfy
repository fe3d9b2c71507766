/**
 * mc_pack_manager/manager/update.py: the `UpdateType` and `InstallType`
 * lookups, the update provider and `update_pack`, the procedure that
 * brings an installed pack to the version and packmodes of an update.
 *
 * The target filesystem is a map from relative paths to contents plus the
 * decoded JSON of its "pack-manifest.json"; the provider is the remote
 * manifest with the contents it serves for mods and overrides.
 */
module Update {
  import opened Wrappers
  import opened Strings
  import opened Json
  import Pack
  import Common

  // ---------------------------------------------------------------------
  // UpdateType, InstallType: `Enum(value)` with the `_missing_` fallback
  // ---------------------------------------------------------------------

  datatype UpdateType = LocalUpdate | HttpUpdate
  datatype InstallType = LocalInstall | FtpInstall

  /** The members in declaration order, the order `for member in cls` follows. */
  const UpdateTypes: seq<UpdateType> := [LocalUpdate, HttpUpdate]
  const InstallTypes: seq<InstallType> := [LocalInstall, FtpInstall]

  function UpdateAliases(t: UpdateType): seq<string>
  {
    match t
    case LocalUpdate => ["local"]
    case HttpUpdate => ["http"]
  }

  function InstallAliases(t: InstallType): seq<string>
  {
    match t
    case LocalInstall => ["local"]
    case FtpInstall => ["ftp"]
  }

  /** `for member in cls: if string in member.aliases: return member`; None when no member matches. */
  function FirstWithAlias<T(==)>(members: seq<T>, aliases: T -> seq<string>, s: string): (r: Option<T>)
    ensures r.None? <==> forall i :: 0 <= i < |members| ==> s !in aliases(members[i])
    ensures r.Some? ==> exists i :: 0 <= i < |members| && members[i] == r.value && s in aliases(r.value)
                                   && forall j :: 0 <= j < i ==> s !in aliases(members[j])
  {
    if members == [] then None
    else if s in aliases(members[0]) then Some(members[0])
    else
      var r := FirstWithAlias(members[1..], aliases, s);
      if r.Some? then
        var i :| 0 <= i < |members[1..]| && members[1..][i] == r.value && s in aliases(r.value)
                 && forall j :: 0 <= j < i ==> s !in aliases(members[1..][j]);
        assert members[i + 1] == r.value;
        r
      else r
  }

  /** The value of a member, `aliases[0]` (its first alias), as a one-element list. */
  function ValueOf<T>(aliases: T -> seq<string>): T -> seq<string>
  {
    t => if aliases(t) == [] then [] else [aliases(t)[0]]
  }

  /** `cls(value)`: the member whose value it is, else what `_missing_` finds for the lower-cased string. */
  function Resolve<T(==)>(members: seq<T>, aliases: T -> seq<string>, value: string): Option<T>
  {
    var exact := FirstWithAlias(members, ValueOf(aliases), value);
    if exact.Some? then exact else FirstWithAlias(members, aliases, Lower(value))
  }

  /** No alias has an upper-case letter, and no two members share an alias. */
  ghost predicate WellAliased<T>(members: seq<T>, aliases: T -> seq<string>)
  {
    && (forall t, s :: t in members && s in aliases(t) ==> Lower(s) == s)
    && (forall i, j, s :: 0 <= i < j < |members| && s in aliases(members[i]) ==> s !in aliases(members[j]))
  }


  /** Lower-casing twice is lower-casing once. */
  lemma LowerIdempotent(s: string)
    ensures Lower(Lower(s)) == Lower(s)
  {
    forall i | 0 <= i < |s| ensures Lower(Lower(s))[i] == Lower(s)[i] {
      assert LowerChar(LowerChar(s[i])) == LowerChar(s[i]);
    }
  }

  /** A string without upper-case letters is its own lower-case form. */
  lemma LowerFixed(s: string)
    requires forall i :: 0 <= i < |s| ==> !('A' <= s[i] <= 'Z')
    ensures Lower(s) == s
  {
  }

  /** A value resolves to a member exactly when its lower-cased form is one of that member's aliases. */
  lemma ResolveMeaning<T>(members: seq<T>, aliases: T -> seq<string>, value: string, t: T)
    requires WellAliased(members, aliases)
    ensures Resolve(members, aliases, value) == Some(t) <==> t in members && Lower(value) in aliases(t)
  {
    var exact := FirstWithAlias(members, ValueOf(aliases), value);
    var low := FirstWithAlias(members, aliases, Lower(value));
    if exact.Some? {
      var i :| 0 <= i < |members| && members[i] == exact.value && value in ValueOf(aliases)(exact.value);
      assert value in aliases(members[i]);
      assert Lower(value) == value;
      if t in members && Lower(value) in aliases(t) {
        var k :| 0 <= k < |members| && members[k] == t;
        assert !(k < i) && !(i < k);
      }
    } else if low.Some? {
      var i :| 0 <= i < |members| && members[i] == low.value && Lower(value) in aliases(low.value);
      if t in members && Lower(value) in aliases(t) {
        var k :| 0 <= k < |members| && members[k] == t;
        assert !(k < i) && !(i < k);
      }
    } else if t in members {
      var k :| 0 <= k < |members| && members[k] == t;
    }
  }

  lemma UpdateAliasesWell()
    ensures WellAliased(UpdateTypes, UpdateAliases)
  {
    LowerFixed("local");
    LowerFixed("http");
  }

  lemma InstallAliasesWell()
    ensures WellAliased(InstallTypes, InstallAliases)
  {
    LowerFixed("local");
    LowerFixed("ftp");
  }

  /** `UpdateType(value)`: None is the ValueError of an unknown value. */
  function UpdateTypeOf(value: string): Option<UpdateType>
  {
    Resolve(UpdateTypes, UpdateAliases, value)
  }

  /** `InstallType(value)` */
  function InstallTypeOf(value: string): Option<InstallType>
  {
    Resolve(InstallTypes, InstallAliases, value)
  }

  /** "local" and "http" in any letter case, and nothing else. */
  lemma UpdateTypeOfMeaning(value: string)
    ensures UpdateTypeOf(value) == Some(LocalUpdate) <==> Lower(value) == "local"
    ensures UpdateTypeOf(value) == Some(HttpUpdate) <==> Lower(value) == "http"
    ensures UpdateTypeOf(value).None? <==> Lower(value) != "local" && Lower(value) != "http"
  {
    UpdateAliasesWell();
    ResolveMeaning(UpdateTypes, UpdateAliases, value, LocalUpdate);
    ResolveMeaning(UpdateTypes, UpdateAliases, value, HttpUpdate);
  }

  /** "local" and "ftp" in any letter case, and nothing else. */
  lemma InstallTypeOfMeaning(value: string)
    ensures InstallTypeOf(value) == Some(LocalInstall) <==> Lower(value) == "local"
    ensures InstallTypeOf(value) == Some(FtpInstall) <==> Lower(value) == "ftp"
    ensures InstallTypeOf(value).None? <==> Lower(value) != "local" && Lower(value) != "ftp"
  {
    InstallAliasesWell();
    ResolveMeaning(InstallTypes, InstallAliases, value, LocalInstall);
    ResolveMeaning(InstallTypes, InstallAliases, value, FtpInstall);
  }

  /** The lookup ignores letter case. */
  lemma UpdateTypeOfLower(value: string)
    ensures UpdateTypeOf(Lower(value)) == UpdateTypeOf(value)
  {
    LowerIdempotent(value);
    UpdateTypeOfMeaning(value);
    UpdateTypeOfMeaning(Lower(value));
  }

  // ---------------------------------------------------------------------
  // The target filesystem and the operations the update performs on it
  // ---------------------------------------------------------------------

  /** The exceptions that end `update_pack`. */
  datatype UpdateError =
    | Aborted                              // `sys.exit` when the user declines a fresh install
    | InvalidManifest(e: Pack.ManifestError)
    | BadSelection(e: Pack.ManifestError)   // ValueError, KeyError of `get_all_dependencies`
    | NoSuchFile(path: string)             // FileNotFoundError of `unlink`
    | FileExists(path: string)             // FileExistsError of `download` and `send_file`
    | UnknownAddon(addonID: int)           // KeyError of `local_mod_map[addonID]`
    | MissingKey(addonID: int, key: string) // KeyError of `mod["name"]`, `mod["filename"]`
    | NoAttribute(name: string)            // AttributeError

  /** One filesystem call: `unlink`, `download`/`send_file` without `force`, or an exception raised on the way. */
  datatype Op = Remove(path: string) | Store(path: string, data: string) | Raise(error: UpdateError)

  /** The outcome of a run of calls and the files it leaves behind. */
  datatype Run = Run(result: Result<(), UpdateError>, files: map<string, string>)

  /** One call on the files. */
  function Perform(files: map<string, string>, op: Op): Run
  {
    match op
    case Remove(p) => if p in files then Run(Ok(()), files - {p}) else Run(Err(NoSuchFile(p)), files)
    case Store(p, data) => if p in files then Run(Err(FileExists(p)), files) else Run(Ok(()), files[p := data])
    case Raise(e) => Run(Err(e), files)
  }

  /** The calls in order; the first that fails ends the run, leaving what the earlier ones did. */
  function Exec(files: map<string, string>, ops: seq<Op>): Run
    decreases |ops|
  {
    if ops == [] then Run(Ok(()), files)
    else
      var s := Perform(files, ops[0]);
      if s.result.Err? then s else Exec(s.files, ops[1..])
  }

  /** Running two lists of calls is running the first, then the second on what it left unless it failed. */
  lemma {:induction false} ExecAppend(files: map<string, string>, a: seq<Op>, b: seq<Op>)
    ensures Exec(files, a + b) == (var r := Exec(files, a); if r.result.Err? then r else Exec(r.files, b))
    decreases |a|
  {
    if a != [] {
      assert (a + b)[0] == a[0];
      assert (a + b)[1..] == a[1..] + b;
      var s := Perform(files, a[0]);
      if s.result.Ok? {
        ExecAppend(s.files, a[1..], b);
      }
    } else {
      assert a + b == b;
    }
  }

  /** The pack directory: its files, and "pack-manifest.json" held as the document it decodes to. */
  class FileSystem {
    var files: map<string, string>
    var manifest: Option<Json>

    constructor (files: map<string, string>, manifest: Option<Json>)
      ensures this.files == files && this.manifest == manifest
    {
      this.files := files;
      this.manifest := manifest;
    }

    /** `unlink`: removes an existing file; a missing file raises. */
    method Unlink(p: string) returns (r: Result<(), UpdateError>)
      modifies this`files
      ensures r == if p in old(files) then Ok(()) else Err(NoSuchFile(p))
      ensures files == if r.Ok? then old(files) - {p} else old(files)
    {
      if p !in files {
        return Err(NoSuchFile(p));
      }
      files := files - {p};
      r := Ok(());
    }

    /** `download` and `send_file` without `force`: writes a new file; an existing one raises. */
    method Put(p: string, data: string) returns (r: Result<(), UpdateError>)
      modifies this`files
      ensures r == if p in old(files) then Err(FileExists(p)) else Ok(())
      ensures files == if r.Ok? then old(files)[p := data] else old(files)
    {
      if p in files {
        return Err(FileExists(p));
      }
      files := files[p := data];
      r := Ok(());
    }
  }


  // ---------------------------------------------------------------------
  // The mod part of the update
  // ---------------------------------------------------------------------

  /**
   * What the mod loops work with: `local_mod_map`, the provider's
   * `mod_map`, the content the provider downloads for an addon's file,
   * and the `old_addons`/`new_addons` maps `compute_mod_diff` builds from
   * the two selected modlists.
   */
  datatype ModContext = ModContext(local: map<int, Pack.Mod>, remote: map<int, Pack.Mod>,
                                   modData: (int, int) -> string,
                                   oldAddons: map<int, Pack.Mod>, newAddons: map<int, Pack.Mod>)

  /** The loop an addon of the mod diff goes through; `ReplacingAsWritten` is the updated-mods loop as written. */
  datatype ModAction = Deleting | Replacing | ReplacingAsWritten | Installing

  /** The file of a mod, `mod_dir / mod["filename"]`. */
  function ModPath(filename: string): string
  {
    "mods/" + filename
  }

  /** Deleting the local mod: its entry, its name (logged), its filename, then `unlink`. */
  function DeleteOps(ctx: ModContext, a: int): seq<Op>
  {
    if a !in ctx.local then [Raise(UnknownAddon(a))]
    else if ctx.local[a].name.None? then [Raise(MissingKey(a, "name"))]
    else if ctx.local[a].filename.None? then [Raise(MissingKey(a, "filename"))]
    else [Remove(ModPath(ctx.local[a].filename.value))]
  }

  /** `install_mod`: an addon the provider does not list is skipped; otherwise its file is downloaded. */
  function InstallOps(ctx: ModContext, a: int): seq<Op>
  {
    if a !in ctx.remote then []
    else if ctx.remote[a].filename.None? then [Raise(MissingKey(a, "filename"))]
    else [Store(ModPath(ctx.remote[a].filename.value), ctx.modData(a, ctx.remote[a].fileID))]
  }

  function ModActionOps(ctx: ModContext, k: ModAction, a: int): seq<Op>
  {
    match k
    case Deleting => DeleteOps(ctx, a)
    case Replacing => DeleteOps(ctx, a) + InstallOps(ctx, a)
    // `install_mod(filesystem, addonID)` hands the module over: its missing `download` raises
    case ReplacingAsWritten => DeleteOps(ctx, a) + (if a in ctx.remote then [Raise(NoAttribute("download"))] else [])
    case Installing => InstallOps(ctx, a)
  }

  /** One loop over the addons `xs`, in that order. */
  function ModPhase(ctx: ModContext, k: ModAction, xs: seq<int>): seq<Op>
  {
    if xs == [] then [] else ModActionOps(ctx, k, xs[0]) + ModPhase(ctx, k, xs[1..])
  }

  /** The order in which each part of a diff is iterated: each set's elements, once each. */
  datatype Order<K> = Order(deleted: seq<K>, updated: seq<K>, added: seq<K>)

  ghost predicate Enumerates<T(!new)>(xs: seq<T>, s: set<T>)
  {
    && (forall i, j :: 0 <= i < j < |xs| ==> xs[i] != xs[j])
    && (forall x :: x in xs <==> x in s)
  }

  ghost predicate Orders<K(!new)>(o: Order<K>, d: Common.Diff<K>)
  {
    Enumerates(o.deleted, d.deleted) && Enumerates(o.updated, d.updated) && Enumerates(o.added, d.added)
  }

  /** `[old_addons[addonID] for addonID in ...]`: an addon the map lacks raises KeyError. */
  function LookupPhase(listed: map<int, Pack.Mod>, xs: seq<int>): seq<Op>
  {
    if xs == [] then []
    else (if xs[0] in listed then [] else [Raise(UnknownAddon(xs[0]))]) + LookupPhase(listed, xs[1..])
  }

  /** `format_modlist` sorts the looked-up mods by `mod["name"]`: a mod without a name raises KeyError. */
  function NamePhase(listed: map<int, Pack.Mod>, xs: seq<int>): seq<Op>
  {
    if xs == [] then []
    else (if xs[0] in listed && listed[xs[0]].name.None? then [Raise(MissingKey(xs[0], "name"))] else [])
         + NamePhase(listed, xs[1..])
  }

  /** One DEBUG listing of `compute_mod_diff`: the lookups, then the sort by name. */
  function ListingPhase(listed: map<int, Pack.Mod>, xs: seq<int>): seq<Op>
  {
    LookupPhase(listed, xs) + NamePhase(listed, xs)
  }

  /**
   * The DEBUG listings `update_pack` asks of `compute_mod_diff`: their
   * arguments are built whether or not the log shows them, the deleted
   * mods from the old side, the updated and added ones from the new side.
   */
  function ListingOps(ctx: ModContext, o: Order<int>): seq<Op>
  {
    ListingPhase(ctx.oldAddons, o.deleted) + ListingPhase(ctx.newAddons, o.updated)
    + ListingPhase(ctx.newAddons, o.added)
  }

  /** The deleted, then the updated, then the added mods. */
  function LoopOps(ctx: ModContext, o: Order<int>): seq<Op>
  {
    ModPhase(ctx, Deleting, o.deleted) + ModPhase(ctx, Replacing, o.updated) + ModPhase(ctx, Installing, o.added)
  }

  /** The mod part of the update: the listings of the diff, then the mod loops. */
  function ModOps(ctx: ModContext, o: Order<int>): seq<Op>
  {
    ListingOps(ctx, o) + LoopOps(ctx, o)
  }

  /** Some addon of `s` is listed from a mod without a name. */
  ghost predicate Nameless(listed: map<int, Pack.Mod>, s: set<int>)
  {
    exists a :: a in s && a in listed && listed[a].name.None?
  }

  /** Some addon of the diff is listed from a mod without a name: a deleted one from the old side, another from the new. */
  ghost predicate NamelessListed(ctx: ModContext, d: Common.Diff<int>)
  {
    Nameless(ctx.oldAddons, d.deleted) || Nameless(ctx.newAddons, d.updated) || Nameless(ctx.newAddons, d.added)
  }

  /** A run of calls that only raise ends at the first, with the files untouched. */
  lemma RaisingRun(files: map<string, string>, ops: seq<Op>)
    requires forall i :: 0 <= i < |ops| ==> ops[i].Raise?
    ensures Exec(files, ops) == if ops == [] then Run(Ok(()), files) else Run(Err(ops[0].error), files)
  {
  }

  /** The lookups raise for exactly the addons the map lacks, the first of them first. */
  lemma {:induction false} LookupPhaseMeaning(listed: map<int, Pack.Mod>, xs: seq<int>)
    ensures forall i :: 0 <= i < |LookupPhase(listed, xs)| ==> LookupPhase(listed, xs)[i].Raise?
    ensures LookupPhase(listed, xs) == [] <==> forall i :: 0 <= i < |xs| ==> xs[i] in listed
    ensures LookupPhase(listed, xs) != [] ==>
      exists i :: 0 <= i < |xs| && xs[i] !in listed && LookupPhase(listed, xs)[0] == Raise(UnknownAddon(xs[i]))
    decreases |xs|
  {
    if xs != [] {
      LookupPhaseMeaning(listed, xs[1..]);
      var head: seq<Op> := if xs[0] in listed then [] else [Raise(UnknownAddon(xs[0]))];
      var tail := LookupPhase(listed, xs[1..]);
      assert LookupPhase(listed, xs) == head + tail;
      if head == [] && tail != [] {
        var i :| 0 <= i < |xs[1..]| && xs[1..][i] !in listed && tail[0] == Raise(UnknownAddon(xs[1..][i]));
        assert xs[i + 1] == xs[1..][i];
      }
      if forall i :: 0 <= i < |xs| ==> xs[i] in listed {
        assert xs[0] in listed;
        assert forall i :: 0 <= i < |xs[1..]| ==> xs[1..][i] == xs[i + 1];
      }
    }
  }

  /** The sort by name raises for exactly the listed mods without a name, the first of them first. */
  lemma {:induction false} NamePhaseMeaning(listed: map<int, Pack.Mod>, xs: seq<int>)
    ensures forall i :: 0 <= i < |NamePhase(listed, xs)| ==> NamePhase(listed, xs)[i].Raise?
    ensures NamePhase(listed, xs) == [] <==>
      forall i :: 0 <= i < |xs| && xs[i] in listed ==> listed[xs[i]].name.Some?
    ensures NamePhase(listed, xs) != [] ==>
      exists i :: 0 <= i < |xs| && xs[i] in listed && listed[xs[i]].name.None?
                  && NamePhase(listed, xs)[0] == Raise(MissingKey(xs[i], "name"))
    decreases |xs|
  {
    if xs != [] {
      NamePhaseMeaning(listed, xs[1..]);
      var head: seq<Op> := if xs[0] in listed && listed[xs[0]].name.None? then [Raise(MissingKey(xs[0], "name"))] else [];
      var tail := NamePhase(listed, xs[1..]);
      assert NamePhase(listed, xs) == head + tail;
      if head == [] && tail != [] {
        var i :| 0 <= i < |xs[1..]| && xs[1..][i] in listed && listed[xs[1..][i]].name.None?
                 && tail[0] == Raise(MissingKey(xs[1..][i], "name"));
        assert xs[i + 1] == xs[1..][i];
      }
      if forall i :: 0 <= i < |xs| && xs[i] in listed ==> listed[xs[i]].name.Some? {
        assert forall i :: 0 <= i < |xs[1..]| ==> xs[1..][i] == xs[i + 1];
      }
    }
  }

  /**
   * A listing of addons the map has raises exactly when one of them has
   * no name, and then with the KeyError of such a mod.
   */
  lemma ListingPhaseMeaning(listed: map<int, Pack.Mod>, xs: seq<int>)
    requires forall i :: 0 <= i < |xs| ==> xs[i] in listed
    ensures forall i :: 0 <= i < |ListingPhase(listed, xs)| ==> ListingPhase(listed, xs)[i].Raise?
    ensures ListingPhase(listed, xs) == [] <==> forall i :: 0 <= i < |xs| ==> listed[xs[i]].name.Some?
    ensures ListingPhase(listed, xs) != [] ==>
      exists i :: 0 <= i < |xs| && listed[xs[i]].name.None? && ListingPhase(listed, xs)[0] == Raise(MissingKey(xs[i], "name"))
  {
    LookupPhaseMeaning(listed, xs);
    NamePhaseMeaning(listed, xs);
    assert ListingPhase(listed, xs) == NamePhase(listed, xs);
  }

  /** Listing the addons of `s`, in any order, raises exactly when one of them has no name. */
  lemma ListingOfSet(listed: map<int, Pack.Mod>, xs: seq<int>, s: set<int>)
    requires Enumerates(xs, s) && s <= listed.Keys
    ensures forall i :: 0 <= i < |ListingPhase(listed, xs)| ==> ListingPhase(listed, xs)[i].Raise?
    ensures ListingPhase(listed, xs) == [] <==> !Nameless(listed, s)
    ensures ListingPhase(listed, xs) != [] ==>
      ListingPhase(listed, xs)[0].error.MissingKey? && ListingPhase(listed, xs)[0].error.key == "name"
  {
    ListingPhaseMeaning(listed, xs);
    if Nameless(listed, s) {
      var a :| a in s && a in listed && listed[a].name.None?;
      var i :| 0 <= i < |xs| && xs[i] == a;
    }
    if ListingPhase(listed, xs) != [] {
      var i :| 0 <= i < |xs| && listed[xs[i]].name.None? && ListingPhase(listed, xs)[0] == Raise(MissingKey(xs[i], "name"));
      assert xs[i] in s;
    }
  }

  /**
   * Over an iteration order of a mod diff whose addons the maps have, the
   * listings raise exactly when a listed mod has no name, and then with
   * that KeyError, before any file is touched.
   */
  lemma ListingBlocks(ctx: ModContext, o: Order<int>, d: Common.Diff<int>)
    requires Orders(o, d)
    requires d.deleted <= ctx.oldAddons.Keys && d.updated <= ctx.newAddons.Keys && d.added <= ctx.newAddons.Keys
    ensures forall i :: 0 <= i < |ListingOps(ctx, o)| ==> ListingOps(ctx, o)[i].Raise?
    ensures ListingOps(ctx, o) == [] <==> !NamelessListed(ctx, d)
    ensures ListingOps(ctx, o) != [] ==> ListingOps(ctx, o)[0].error.MissingKey? && ListingOps(ctx, o)[0].error.key == "name"
  {
    var l1, l2, l3 := ListingPhase(ctx.oldAddons, o.deleted), ListingPhase(ctx.newAddons, o.updated),
                      ListingPhase(ctx.newAddons, o.added);
    ListingOfSet(ctx.oldAddons, o.deleted, d.deleted);
    ListingOfSet(ctx.newAddons, o.updated, d.updated);
    ListingOfSet(ctx.newAddons, o.added, d.added);
    assert ListingOps(ctx, o) == l1 + l2 + l3;
    if l1 == [] && l2 != [] {
      assert (l1 + l2 + l3)[0] == l2[0];
    } else if l1 == [] && l2 == [] && l3 != [] {
      assert (l1 + l2 + l3)[0] == l3[0];
    }
  }

  /** Iterating a set: each element once, in an order left to the implementation. */
  method Enumerate<T(==,!new)>(s: set<T>) returns (xs: seq<T>)
    ensures Enumerates(xs, s)
  {
    xs := [];
    var rest := s;
    while rest != {}
      invariant rest <= s
      invariant forall i, j :: 0 <= i < j < |xs| ==> xs[i] != xs[j]
      invariant forall x :: x in xs <==> x in s && x !in rest
      decreases |rest|
    {
      var x :| x in rest;
      xs := xs + [x];
      rest := rest - {x};
    }
  }

  /** The body of the deleted-mods loop. */
  method DeleteMod(fs: FileSystem, ctx: ModContext, a: int) returns (r: Result<(), UpdateError>)
    modifies fs`files
    ensures Run(r, fs.files) == Exec(old(fs.files), DeleteOps(ctx, a))
  {
    if a !in ctx.local {
      assert Exec(fs.files, [Raise(UnknownAddon(a))]) == Perform(fs.files, Raise(UnknownAddon(a)));
      return Err(UnknownAddon(a));
    }
    var m := ctx.local[a];
    if m.name.None? {
      assert Exec(fs.files, [Raise(MissingKey(a, "name"))]) == Perform(fs.files, Raise(MissingKey(a, "name")));
      return Err(MissingKey(a, "name"));
    }
    if m.filename.None? {
      assert Exec(fs.files, [Raise(MissingKey(a, "filename"))]) == Perform(fs.files, Raise(MissingKey(a, "filename")));
      return Err(MissingKey(a, "filename"));
    }
    assert DeleteOps(ctx, a) == [Remove(ModPath(m.filename.value))];
    r := fs.Unlink(ModPath(m.filename.value));
    assert Exec(old(fs.files), [Remove(ModPath(m.filename.value))]) == Perform(old(fs.files), Remove(ModPath(m.filename.value)));
  }

  /** `install_mod` */
  method InstallMod(fs: FileSystem, ctx: ModContext, a: int) returns (r: Result<(), UpdateError>)
    modifies fs`files
    ensures Run(r, fs.files) == Exec(old(fs.files), InstallOps(ctx, a))
  {
    if a !in ctx.remote {
      return Ok(());
    }
    var m := ctx.remote[a];
    if m.filename.None? {
      assert Exec(fs.files, [Raise(MissingKey(a, "filename"))]) == Perform(fs.files, Raise(MissingKey(a, "filename")));
      return Err(MissingKey(a, "filename"));
    }
    assert InstallOps(ctx, a) == [Store(ModPath(m.filename.value), ctx.modData(a, m.fileID))];
    r := fs.Put(ModPath(m.filename.value), ctx.modData(a, m.fileID));
    assert Exec(old(fs.files), [Store(ModPath(m.filename.value), ctx.modData(a, m.fileID))]) == Perform(old(fs.files), Store(ModPath(m.filename.value), ctx.modData(a, m.fileID)));
  }

  /** The body of one of the mod loops. */
  method ModStep(fs: FileSystem, ctx: ModContext, k: ModAction, a: int) returns (r: Result<(), UpdateError>)
    modifies fs`files
    ensures Run(r, fs.files) == Exec(old(fs.files), ModActionOps(ctx, k, a))
  {
    match k
    case Deleting =>
      r := DeleteMod(fs, ctx, a);
    case Installing =>
      r := InstallMod(fs, ctx, a);
    case Replacing =>
      ExecAppend(fs.files, DeleteOps(ctx, a), InstallOps(ctx, a));
      r := DeleteMod(fs, ctx, a);
      if r.Ok? {
        r := InstallMod(fs, ctx, a);
      }
    case ReplacingAsWritten =>
      var tail := if a in ctx.remote then [Raise(NoAttribute("download"))] else [];
      ExecAppend(fs.files, DeleteOps(ctx, a), tail);
      r := DeleteMod(fs, ctx, a);
      if r.Ok? && a in ctx.remote {
        r := Err(NoAttribute("download"));
      }
  }

  /** One mod loop: the addons in order, stopping at the first exception. */
  method ModLoop(fs: FileSystem, ctx: ModContext, k: ModAction, xs: seq<int>) returns (r: Result<(), UpdateError>)
    modifies fs`files
    ensures Run(r, fs.files) == Exec(old(fs.files), ModPhase(ctx, k, xs))
  {
    var i := 0;
    while i < |xs|
      invariant i <= |xs|
      invariant Exec(old(fs.files), ModPhase(ctx, k, xs)) == Exec(fs.files, ModPhase(ctx, k, xs[i..]))
    {
      assert xs[i..][1..] == xs[i + 1..];
      ExecAppend(fs.files, ModActionOps(ctx, k, xs[i]), ModPhase(ctx, k, xs[i + 1..]));
      var s := ModStep(fs, ctx, k, xs[i]);
      if s.Err? {
        return s;
      }
      i := i + 1;
    }
    r := Ok(());
  }

  /** The mod part of `update_pack` over the diff, each part iterated in some order. */
  method ApplyModDiff(fs: FileSystem, ctx: ModContext, d: Common.Diff<int>)
    returns (r: Result<(), UpdateError>, ghost o: Order<int>)
    modifies fs`files
    ensures Orders(o, d)
    ensures Run(r, fs.files) == Exec(old(fs.files), ModOps(ctx, o))
  {
    var deleted := Enumerate(d.deleted);
    var updated := Enumerate(d.updated);
    var added := Enumerate(d.added);
    var order := Order(deleted, updated, added);
    o := order;
    // The DEBUG listings of `compute_mod_diff`
    var listing := ListingOps(ctx, order);
    ListingRaises(ctx, o);
    RaisingRun(fs.files, listing);
    ExecAppend(fs.files, listing, LoopOps(ctx, o));
    if listing != [] {
      r := Err(listing[0].error);
      return;
    }
    var p1, p2, p3 := ModPhase(ctx, Deleting, deleted), ModPhase(ctx, Replacing, updated), ModPhase(ctx, Installing, added);
    ExecAppend(fs.files, p1 + p2, p3);
    ExecAppend(fs.files, p1, p2);
    r := ModLoop(fs, ctx, Deleting, deleted);
    if r.Err? {
      return;
    }
    r := ModLoop(fs, ctx, Replacing, updated);
    if r.Err? {
      return;
    }
    r := ModLoop(fs, ctx, Installing, added);
  }

  // ---------------------------------------------------------------------
  // The override part of the update
  // ---------------------------------------------------------------------

  /** The loop an override of the diff goes through. */
  datatype OverrideAction = Unlinking | Reinstalling | Copying

  /** `fs.unlink(override)`, `install_override` (a download or a copy without `force`), or the one then the other. */
  function OverrideActionOps(data: string -> string, k: OverrideAction, p: string): seq<Op>
  {
    match k
    case Unlinking => [Remove(p)]
    case Reinstalling => [Remove(p), Store(p, data(p))]
    case Copying => [Store(p, data(p))]
  }

  /** One loop over the paths `xs`, in that order. */
  function OverridePhase(data: string -> string, k: OverrideAction, xs: seq<string>): seq<Op>
  {
    if xs == [] then [] else OverrideActionOps(data, k, xs[0]) + OverridePhase(data, k, xs[1..])
  }

  /** The deleted, then the updated, then the added overrides. */
  function OverrideOps(data: string -> string, o: Order<string>): seq<Op>
  {
    OverridePhase(data, Unlinking, o.deleted) + OverridePhase(data, Reinstalling, o.updated)
    + OverridePhase(data, Copying, o.added)
  }

  /** The body of one of the override loops. */
  method OverrideStep(fs: FileSystem, data: string -> string, k: OverrideAction, p: string)
    returns (r: Result<(), UpdateError>)
    modifies fs`files
    ensures Run(r, fs.files) == Exec(old(fs.files), OverrideActionOps(data, k, p))
  {
    match k
    case Unlinking =>
      r := fs.Unlink(p);
      assert Exec(old(fs.files), [Remove(p)]) == Perform(old(fs.files), Remove(p));
    case Copying =>
      r := fs.Put(p, data(p));
      assert Exec(old(fs.files), [Store(p, data(p))]) == Perform(old(fs.files), Store(p, data(p)));
    case Reinstalling =>
      assert OverrideActionOps(data, k, p) == [Remove(p)] + [Store(p, data(p))];
      ExecAppend(fs.files, [Remove(p)], [Store(p, data(p))]);
      assert Exec(fs.files, [Remove(p)]) == Perform(fs.files, Remove(p));
      r := fs.Unlink(p);
      if r.Ok? {
        assert Exec(fs.files, [Store(p, data(p))]) == Perform(fs.files, Store(p, data(p)));
        r := fs.Put(p, data(p));
      }
  }

  /** One override loop: the paths in order, stopping at the first exception. */
  method OverrideLoop(fs: FileSystem, data: string -> string, k: OverrideAction, xs: seq<string>)
    returns (r: Result<(), UpdateError>)
    modifies fs`files
    ensures Run(r, fs.files) == Exec(old(fs.files), OverridePhase(data, k, xs))
  {
    var i := 0;
    while i < |xs|
      invariant i <= |xs|
      invariant Exec(old(fs.files), OverridePhase(data, k, xs)) == Exec(fs.files, OverridePhase(data, k, xs[i..]))
    {
      assert xs[i..][1..] == xs[i + 1..];
      ExecAppend(fs.files, OverrideActionOps(data, k, xs[i]), OverridePhase(data, k, xs[i + 1..]));
      var s := OverrideStep(fs, data, k, xs[i]);
      if s.Err? {
        return s;
      }
      i := i + 1;
    }
    r := Ok(());
  }

  /** The override part of `update_pack` over the diff, each part iterated in some order. */
  method ApplyOverrideChanges(fs: FileSystem, data: string -> string, d: Common.Diff<string>)
    returns (r: Result<(), UpdateError>, ghost o: Order<string>)
    modifies fs`files
    ensures Orders(o, d)
    ensures Run(r, fs.files) == Exec(old(fs.files), OverrideOps(data, o))
  {
    var deleted := Enumerate(d.deleted);
    var updated := Enumerate(d.updated);
    var added := Enumerate(d.added);
    o := Order(deleted, updated, added);
    var p1, p2, p3 := OverridePhase(data, Unlinking, deleted), OverridePhase(data, Reinstalling, updated),
                      OverridePhase(data, Copying, added);
    ExecAppend(fs.files, p1 + p2, p3);
    ExecAppend(fs.files, p1, p2);
    r := OverrideLoop(fs, data, Unlinking, deleted);
    if r.Err? {
      return;
    }
    r := OverrideLoop(fs, data, Reinstalling, updated);
    if r.Err? {
      return;
    }
    r := OverrideLoop(fs, data, Copying, added);
  }

  /** The paths of `s`, each with the content the provider serves for it. */
  function Served(data: string -> string, s: set<string>): map<string, string>
  {
    map p | p in s :: data(p)
  }

  /** Dropping the first of an enumeration enumerates the rest of the set. */
  lemma EnumeratesTail<T(!new)>(xs: seq<T>, s: set<T>)
    requires xs != [] && Enumerates(xs, s)
    ensures Enumerates(xs[1..], s - {xs[0]})
  {
    var x, rest := xs[0], xs[1..];
    forall y ensures y in rest <==> y in s - {x} {
      if y in rest {
        var j :| 0 <= j < |rest| && rest[j] == y;
        assert xs[j + 1] == y;
      }
      if y in s - {x} {
        var j :| 0 <= j < |xs| && xs[j] == y;
        assert j != 0 && rest[j - 1] == y;
      }
    }
  }

  /** What the calls for one override do. */
  lemma OverrideActionRun(data: string -> string, k: OverrideAction, files: map<string, string>, x: string)
    ensures var run := Exec(files, OverrideActionOps(data, k, x));
      && (run.result.Ok? <==> if k == Copying then x !in files else x in files)
      && (run.result.Ok? ==> run.files == if k == Unlinking then files - {x} else files[x := data(x)])
      && (run.result.Err? ==> run.files == files)
  {
    match k
    case Unlinking =>
      assert Exec(files, [Remove(x)]) == Perform(files, Remove(x));
    case Copying =>
      assert Exec(files, [Store(x, data(x))]) == Perform(files, Store(x, data(x)));
    case Reinstalling =>
      assert OverrideActionOps(data, k, x) == [Remove(x)] + [Store(x, data(x))];
      ExecAppend(files, [Remove(x)], [Store(x, data(x))]);
      assert Exec(files, [Remove(x)]) == Perform(files, Remove(x));
      assert Exec(files - {x}, [Store(x, data(x))]) == Perform(files - {x}, Store(x, data(x)));
  }

  /**
   * One override loop over distinct paths succeeds exactly when every path
   * exists (for unlinking and reinstalling) or none does (for copying);
   * it then removes them, or leaves each with the content served for it.
   */
  lemma {:induction false} OverridePhaseRun(data: string -> string, k: OverrideAction, files: map<string, string>,
                                            xs: seq<string>, s: set<string>)
    requires Enumerates(xs, s)
    ensures var run := Exec(files, OverridePhase(data, k, xs));
      && (run.result.Ok? <==> if k == Copying then s !! files.Keys else s <= files.Keys)
      && (run.result.Ok? ==> run.files == if k == Unlinking then files - s else files + Served(data, s))
    decreases |xs|
  {
    if xs == [] {
      assert s == {};
    } else {
      var x, rest := xs[0], xs[1..];
      EnumeratesTail(xs, s);
      ExecAppend(files, OverrideActionOps(data, k, x), OverridePhase(data, k, rest));
      OverrideActionRun(data, k, files, x);
      var first := Exec(files, OverrideActionOps(data, k, x));
      if first.result.Ok? {
        OverridePhaseRun(data, k, first.files, rest, s - {x});
        PhaseStepMaps(data, k, files, x, s);
      } else {
        assert x in s;
      }
    }
  }

  /** One path of `s` done, the rest of `s` to do. */
  lemma PhaseStepMaps(data: string -> string, k: OverrideAction, files: map<string, string>, x: string, s: set<string>)
    requires x in s
    requires if k == Copying then x !in files else x in files
    ensures var next := if k == Unlinking then files - {x} else files[x := data(x)];
      && (if k == Copying then (s - {x}) !! next.Keys <==> s !! files.Keys
          else (s - {x}) <= next.Keys <==> s <= files.Keys)
      && (if k == Unlinking then next - (s - {x}) == files - s
          else next + Served(data, s - {x}) == files + Served(data, s))
  {
    if k == Unlinking {
      var next := files - {x};
      assert next.Keys == files.Keys - {x};
      assert next - (s - {x}) == files - s;
      if s - {x} <= next.Keys {
        forall y | y in s ensures y in files {
          if y != x { assert y in next.Keys; }
        }
      }
    } else {
      var next := files[x := data(x)];
      assert next.Keys == files.Keys + {x};
      if k == Copying {
        if (s - {x}) !! next.Keys {
          forall y | y in s ensures y !in files {
            if y != x { assert y !in next.Keys; }
          }
        }
      } else {
        assert next.Keys == files.Keys;
        if s - {x} <= next.Keys {
          forall y | y in s ensures y in files {
            if y != x { assert y in next.Keys; }
          }
        }
      }
      var a, b := next + Served(data, s - {x}), files + Served(data, s);
      assert a.Keys == b.Keys;
      forall p | p in a ensures a[p] == b[p] {
        if p == x {
          assert p in Served(data, s);
        }
      }
    }
  }

  /**
   * The three override loops over a diff whose parts are disjoint succeed
   * exactly when the deleted and updated paths exist and the added ones do
   * not; the deleted paths are then gone and the updated and added ones
   * hold what the provider serves.
   */
  lemma OverrideOpsRun(data: string -> string, files: map<string, string>, o: Order<string>, d: Common.Diff<string>)
    requires Orders(o, d)
    requires d.deleted !! d.updated && d.deleted !! d.added && d.updated !! d.added
    ensures var run := Exec(files, OverrideOps(data, o));
      && (run.result.Ok? <==> d.deleted + d.updated <= files.Keys && d.added !! files.Keys)
      && (run.result.Ok? ==> run.files == (files - d.deleted) + Served(data, d.updated + d.added))
  {
    var p1, p2, p3 := OverridePhase(data, Unlinking, o.deleted), OverridePhase(data, Reinstalling, o.updated),
                      OverridePhase(data, Copying, o.added);
    ExecAppend(files, p1 + p2, p3);
    ExecAppend(files, p1, p2);
    OverridePhaseRun(data, Unlinking, files, o.deleted, d.deleted);
    var r1 := Exec(files, p1);
    if r1.result.Ok? {
      assert r1.files == files - d.deleted;
      OverridePhaseRun(data, Reinstalling, r1.files, o.updated, d.updated);
      var r2 := Exec(r1.files, p2);
      assert d.updated <= r1.files.Keys <==> d.updated <= files.Keys;
      if r2.result.Ok? {
        assert r2.files == r1.files + Served(data, d.updated);
        OverridePhaseRun(data, Copying, r2.files, o.added, d.added);
        assert r2.files.Keys == (files.Keys - d.deleted) + d.updated;
        assert d.added !! r2.files.Keys <==> d.added !! files.Keys;
        ServedUnion(data, r1.files, d.updated, d.added);
      }
    }
  }

  lemma ServedUnion(data: string -> string, m: map<string, string>, a: set<string>, b: set<string>)
    ensures m + Served(data, a) + Served(data, b) == m + Served(data, a + b)
  {
  }

  /**
   * Applying the diff of the old and the new selected override caches to
   * an installation that has every old override and none of the new ones:
   * it succeeds, every new override is there, changed and new ones with
   * the provider's content, unchanged ones as they were, old-only ones are
   * gone, and every other file is untouched.
   */
  lemma OverridesSynced(data: string -> string, files: map<string, string>, o: Order<string>,
                        before: map<string, string>, after: map<string, string>)
    requires Orders(o, Common.MapDiff(before, after))
    requires before.Keys <= files.Keys && (after.Keys - before.Keys) !! files.Keys
    ensures var run := Exec(files, OverrideOps(data, o));
      && run.result.Ok?
      && Synced(data, files, before, after, run.files)
  {
    var d := Common.MapDiff(before, after);
    OverrideOpsRun(data, files, o, d);
    var run := Exec(files, OverrideOps(data, o));
    SyncedMap(data, files, before, after, run.files);
  }

  /**
   * What a synchronisation of the installed overrides from cache `before` to cache
   * `after` leaves: every path of `after` is present, a new or changed one holds the
   * served content, an unchanged one keeps its content, a path only in `before` is
   * gone, and files outside both caches are untouched.
   */
  ghost predicate Synced(data: string -> string, files: map<string, string>, before: map<string, string>,
                         after: map<string, string>, m: map<string, string>)
  {
    && (forall p :: p in after ==> p in m)
    && (forall p :: p in after && (p !in before || before[p] != after[p]) ==> m[p] == data(p))
    && (forall p :: p in before && p in after && before[p] == after[p] ==> p in files && m[p] == files[p])
    && (forall p :: p in before && p !in after ==> p !in m)
    && (forall p :: p !in before && p !in after ==> (p in m <==> p in files))
    && (forall p :: p !in before && p !in after && p in files ==> m[p] == files[p])
  }

  lemma SyncedMap(data: string -> string, files: map<string, string>, before: map<string, string>,
                  after: map<string, string>, m: map<string, string>)
    requires before.Keys <= files.Keys
    requires var d := Common.MapDiff(before, after);
      m == (files - d.deleted) + Served(data, d.updated + d.added)
    ensures Synced(data, files, before, after, m)
  {
    var d := Common.MapDiff(before, after);
    var served := Served(data, d.updated + d.added);
    assert m == (files - d.deleted) + served;
    forall p | p in after ensures p in m {
      if p in before && before[p] == after[p] {
        assert p in files - d.deleted;
      } else {
        assert p in served;
      }
    }
    forall p | p in after && (p !in before || before[p] != after[p]) ensures m[p] == data(p) {
      assert p in served;
    }
    forall p | p in before && p in after && before[p] == after[p] ensures p in files && m[p] == files[p] {
      assert p !in served && p !in d.deleted;
    }
    forall p | p in before && p !in after ensures p !in m {
      assert p in d.deleted && p !in served;
    }
    forall p | p !in before && p !in after ensures (p in m <==> p in files) && (p in files ==> m[p] == files[p]) {
      assert p !in d.deleted && p !in served;
    }
  }

  // ---------------------------------------------------------------------
  // update_pack
  // ---------------------------------------------------------------------

  /**
   * The source of the update: its manifest (loaded through `load` or
   * `from_str`, so every mod has a packmode), the content it installs for
   * the file of an addon, and the content of each override.
   */
  datatype Provider = Provider(manifest: Pack.Manifest, modData: (int, int) -> string, overrideData: string -> string)

  /** Every mod of a loaded manifest has a packmode (the schema requires one). */
  predicate Loaded(m: Pack.Manifest)
  {
    forall i :: 0 <= i < |m.mods| ==> m.mods[i].packmode.Some?
  }

  /** How `update_pack` returns: "Nothing to update !", or after applying the update. */
  datatype Outcome = NothingToUpdate | Updated

  /** The exceptions raised by the filesystem and the mod lookups while the update is applied. */
  predicate ApplyError(e: UpdateError)
  {
    e.NoSuchFile? || e.FileExists? || e.UnknownAddon? || e.MissingKey? || e.NoAttribute?
  }

  /**
   * The decisions `update_pack` takes: the local manifest, the packmodes
   * to install, both expanded selections, and the order in which each part
   * of the mod and override diffs is iterated.
   */
  datatype Plan = Plan(local: Pack.Manifest, chosen: seq<string>, localSet: set<string>, newSet: set<string>,
                       mods: Order<int>, overrides: Order<string>)

  /** `local_manifest.get("current-packmodes", [])` */
  function Current(m: Pack.Manifest): seq<string>
  {
    if m.current.Some? then m.current.value else []
  }

  /** The local manifest is the one in the pack directory, validated, or the default one. */
  ghost predicate LocalManifest(manifest: Option<Json>, local: Pack.Manifest)
  {
    match manifest
    case None => local == Pack.GetDefault(false)
    case Some(j) => Pack.Valid(j) && local == Pack.Decode(j)
  }

  /** The packmodes to install: the argument, else the local selection, else every remote packmode. */
  ghost predicate ChosenFrom(packmodes: seq<string>, local: Pack.Manifest, remote: Pack.Manifest, chosen: seq<string>)
  {
    if packmodes != [] then chosen == packmodes
    else if local.current.Some? then chosen == local.current.value
    else Enumerates(chosen, remote.packmodes.Keys)
  }

  /** `get_all_dependencies` succeeds on the list. */
  ghost predicate Expands(pm: Pack.Packmodes, list: seq<string>)
  {
    Pack.CheckPackmodes(pm, list).Ok? && Pack.Expandable(pm, list)
  }

  /** `s` is what `get_all_dependencies` returns for the list. */
  ghost predicate Expansion(pm: Pack.Packmodes, list: seq<string>, s: set<string>)
  {
    Expands(pm, list) && forall x :: x in s <==> Pack.Selected(pm, list, x)
  }

  /** The override cache entries whose packmode, looked up bottom-up, is in `s`. */
  function SelectCache(m: Pack.Manifest, s: set<string>): map<string, string>
  {
    map p | p in m.cache && Pack.OverridePackmode(m.overrides, p).Some?
                         && Pack.OverridePackmode(m.overrides, p).value in s :: m.cache[p]
  }

  /** The mod diff between the local and the remote selection. */
  function ModDiffOf(remote: Pack.Manifest, plan: Plan): Common.Diff<int>
  {
    Common.ComputeModDiff(Pack.SelectMods(plan.local.mods, plan.localSet), Pack.SelectMods(remote.mods, plan.newSet))
  }

  /** The override diff between the local and the remote selection. */
  function OverrideDiffOf(remote: Pack.Manifest, plan: Plan): Common.Diff<string>
  {
    Common.ComputeOverrideDiff(SelectCache(plan.local, plan.localSet), SelectCache(remote, plan.newSet))
  }

  /** The local manifest, the chosen packmodes and both expansions are the ones `update_pack` computes. */
  ghost predicate Planned(manifest: Option<Json>, remote: Pack.Manifest, packmodes: seq<string>, plan: Plan)
  {
    && LocalManifest(manifest, plan.local)
    && ChosenFrom(packmodes, plan.local, remote, plan.chosen)
    && Expansion(plan.local.packmodes, Current(plan.local), plan.localSet)
    && Expansion(remote.packmodes, plan.chosen, plan.newSet)
  }

  /** The quick comparison: same version, same expanded packmodes. */
  predicate NoChange(remote: Pack.Manifest, plan: Plan)
  {
    remote.version == plan.local.version && plan.localSet == plan.newSet
  }

  /** `local_mod_map`, the provider's `mod_map` and its mod content. */
  function Context(p: Provider, local: Pack.Manifest, localSet: set<string>, newSet: set<string>): ModContext
  {
    ModContext(Common.ByAddon(local.mods), Common.ByAddon(p.manifest.mods), p.modData,
               Common.ByAddon(Pack.SelectMods(local.mods, localSet)), Common.ByAddon(Pack.SelectMods(p.manifest.mods, newSet)))
  }

  /** The mod loops' context under a plan. */
  function PlanContext(p: Provider, plan: Plan): ModContext
  {
    Context(p, plan.local, plan.localSet, plan.newSet)
  }

  /** The addons of a mod diff are keys of the map of the side they are listed from. */
  lemma DiffListed(before: seq<Pack.Mod>, after: seq<Pack.Mod>)
    ensures var d := Common.ComputeModDiff(before, after);
      d.deleted <= Common.ByAddon(before).Keys && d.updated <= Common.ByAddon(after).Keys
      && d.added <= Common.ByAddon(after).Keys
  {
    assert Common.FileIDs(before).Keys == Common.ByAddon(before).Keys;
    assert Common.FileIDs(after).Keys == Common.ByAddon(after).Keys;
  }

  /**
   * Under the plan's iteration order, a mod of the diff listed without a
   * name stops the whole update with that KeyError, before any call on
   * the pack directory.
   */
  lemma NamelessStops(p: Provider, plan: Plan, files: map<string, string>)
    requires Orders(plan.mods, ModDiffOf(p.manifest, plan))
    requires NamelessListed(PlanContext(p, plan), ModDiffOf(p.manifest, plan))
    ensures var run := Exec(files, UpdateOps(p, plan));
      run.files == files && run.result.Err? && run.result.error.MissingKey? && run.result.error.key == "name"
  {
    var ctx := PlanContext(p, plan);
    DiffListed(Pack.SelectMods(plan.local.mods, plan.localSet), Pack.SelectMods(p.manifest.mods, plan.newSet));
    ListingBlocks(ctx, plan.mods, ModDiffOf(p.manifest, plan));
    var listing := ListingOps(ctx, plan.mods);
    RaisingRun(files, listing);
    ExecAppend(files, listing, LoopOps(ctx, plan.mods));
    ExecAppend(files, ModOps(ctx, plan.mods), OverrideOps(p.overrideData, plan.overrides));
  }

  /** The calls the update makes on the pack directory: the mod loops, then the override loops. */
  function UpdateOps(p: Provider, plan: Plan): seq<Op>
  {
    ModOps(PlanContext(p, plan), plan.mods) + OverrideOps(p.overrideData, plan.overrides)
  }

  /** The manifest the update leaves: the remote one with "current-packmodes" the packmodes installed. */
  function Record(remote: Pack.Manifest, chosen: seq<string>): Json
  {
    Pack.MakeJson(remote.version, remote.packmodes, remote.mods, remote.overrides, remote.cache, chosen)
  }

  /** Expanding an expansion again gives the same set, without error. */
  lemma Reselect(pm: Pack.Packmodes, list: seq<string>, sel: seq<string>, s: set<string>)
    requires Expansion(pm, list, s) && Enumerates(sel, s)
    ensures Expansion(pm, sel, s)
  {
    Pack.SelectedIdempotent(pm, list, sel);
    forall i | 0 <= i < |sel| ensures Pack.Defined(pm, sel[i]) {
      assert sel[i] in s;
    }
    forall x | Pack.Reaches(pm, sel, x) && x != Pack.Server ensures x in pm {
      assert Pack.Selected(pm, sel, x);
      assert Pack.Reaches(pm, list, x);
    }
  }

  ghost predicate IsSelection(pm: Pack.Packmodes, list: seq<string>, t: set<string>)
  {
    forall x :: x in t <==> Pack.Selected(pm, list, x)
  }

  lemma SameSelection(pm: Pack.Packmodes, list: seq<string>, s: set<string>, t: set<string>)
    requires IsSelection(pm, list, s) && IsSelection(pm, list, t)
    ensures s == t
  {
    forall x ensures x in t <==> x in s {
      assert x in t <==> Pack.Selected(pm, list, x);
    }
  }

  /** What `get_selected_mods` returns for a list whose expansion is `s`. */
  lemma SelectionOf(pm: Pack.Packmodes, list: seq<string>, s: set<string>, mods: seq<Pack.Mod>, r: seq<Pack.Mod>)
    requires forall x :: x in s <==> Pack.Selected(pm, list, x)
    requires mods == [] ==> r == []
    requires mods != [] ==> exists t: set<string> ::
      (forall x :: x in t <==> Pack.Selected(pm, list, x)) && r == Pack.SelectMods(mods, t)
    ensures r == Pack.SelectMods(mods, s)
  {
    if mods != [] {
      var t: set<string> :| IsSelection(pm, list, t) && r == Pack.SelectMods(mods, t);
      SameSelection(pm, list, s, t);
    }
  }

  /** Every call that raises in the list raises one of the errors the update can hit while applying. */
  ghost predicate Raises(ops: seq<Op>)
  {
    forall op :: op in ops && op.Raise? ==> ApplyError(op.error)
  }

  /** A run of such calls fails, if at all, with one of those errors. */
  lemma {:induction false} ExecRaises(files: map<string, string>, ops: seq<Op>)
    requires Raises(ops)
    ensures Exec(files, ops).result.Err? ==> ApplyError(Exec(files, ops).result.error)
    decreases |ops|
  {
    if ops != [] {
      assert ops[0] in ops;
      var s := Perform(files, ops[0]);
      if s.result.Ok? {
        assert forall op :: op in ops[1..] ==> op in ops;
        ExecRaises(s.files, ops[1..]);
      }
    }
  }

  lemma {:induction false} ModPhaseRaises(ctx: ModContext, k: ModAction, xs: seq<int>)
    ensures Raises(ModPhase(ctx, k, xs))
    decreases |xs|
  {
    if xs != [] {
      ModPhaseRaises(ctx, k, xs[1..]);
      var head := ModActionOps(ctx, k, xs[0]);
      assert Raises(head);
      assert forall op :: op in head + ModPhase(ctx, k, xs[1..]) ==> op in head || op in ModPhase(ctx, k, xs[1..]);
    }
  }

  lemma {:induction false} OverridePhaseRaises(data: string -> string, k: OverrideAction, xs: seq<string>)
    ensures Raises(OverridePhase(data, k, xs))
    decreases |xs|
  {
    if xs != [] {
      OverridePhaseRaises(data, k, xs[1..]);
      var head := OverrideActionOps(data, k, xs[0]);
      assert forall op :: op in head + OverridePhase(data, k, xs[1..]) ==> op in head || op in OverridePhase(data, k, xs[1..]);
    }
  }

  /** The listings raise only lookup errors. */
  lemma ListingRaises(ctx: ModContext, o: Order<int>)
    ensures forall i :: 0 <= i < |ListingOps(ctx, o)| ==> ListingOps(ctx, o)[i].Raise?
    ensures Raises(ListingOps(ctx, o))
  {
    ListingPhaseRaises(ctx.oldAddons, o.deleted);
    ListingPhaseRaises(ctx.newAddons, o.updated);
    ListingPhaseRaises(ctx.newAddons, o.added);
    var l1, l2, l3 := ListingPhase(ctx.oldAddons, o.deleted), ListingPhase(ctx.newAddons, o.updated),
                      ListingPhase(ctx.newAddons, o.added);
    assert forall op :: op in l1 + l2 + l3 ==> op in l1 || op in l2 || op in l3;
  }

  /** Every call of a listing raises a lookup error. */
  lemma ListingPhaseRaises(listed: map<int, Pack.Mod>, xs: seq<int>)
    ensures forall i :: 0 <= i < |ListingPhase(listed, xs)| ==> ListingPhase(listed, xs)[i].Raise?
    ensures Raises(ListingPhase(listed, xs))
  {
    LookupPhaseMeaning(listed, xs);
    NamePhaseMeaning(listed, xs);
    LookupPhaseErrors(listed, xs);
    NamePhaseErrors(listed, xs);
  }

  lemma {:induction false} LookupPhaseErrors(listed: map<int, Pack.Mod>, xs: seq<int>)
    ensures forall op :: op in LookupPhase(listed, xs) ==> op.Raise? && op.error.UnknownAddon?
    decreases |xs|
  {
    if xs != [] {
      LookupPhaseErrors(listed, xs[1..]);
    }
  }

  lemma {:induction false} NamePhaseErrors(listed: map<int, Pack.Mod>, xs: seq<int>)
    ensures forall op :: op in NamePhase(listed, xs) ==> op.Raise? && op.error.MissingKey?
    decreases |xs|
  {
    if xs != [] {
      NamePhaseErrors(listed, xs[1..]);
    }
  }

  /** The update, whatever its plan, raises only filesystem and lookup errors. */
  lemma UpdateOpsRaises(p: Provider, plan: Plan)
    ensures Raises(UpdateOps(p, plan))
  {
    var ctx := PlanContext(p, plan);
    ListingRaises(ctx, plan.mods);
    ModPhaseRaises(ctx, Deleting, plan.mods.deleted);
    ModPhaseRaises(ctx, Replacing, plan.mods.updated);
    ModPhaseRaises(ctx, Installing, plan.mods.added);
    OverridePhaseRaises(p.overrideData, Unlinking, plan.overrides.deleted);
    OverridePhaseRaises(p.overrideData, Reinstalling, plan.overrides.updated);
    OverridePhaseRaises(p.overrideData, Copying, plan.overrides.added);
  }

  /** Reading the local manifest: the pack directory's one, validated, else the default one if the user confirms. */
  method ReadLocal(manifest: Option<Json>, confirm: bool) returns (r: Result<Pack.Manifest, UpdateError>)
    ensures r == Err(Aborted) <==> manifest.None? && !confirm
    ensures (r.Err? && r.error.InvalidManifest?) <==> manifest.Some? && !Pack.Valid(manifest.value)
    ensures r.Err? ==> r.error == Aborted || r.error.InvalidManifest?
    ensures r.Ok? ==> LocalManifest(manifest, r.value) && Loaded(r.value)
  {
    if manifest.Some? {
      var loaded := Pack.Load(manifest.value);
      if loaded.Err? {
        return Err(InvalidManifest(loaded.error));
      }
      r := Ok(loaded.value);
    } else if confirm {
      r := Ok(Pack.GetDefault(false));
    } else {
      r := Err(Aborted);
    }
  }

  /** The packmodes to install: the argument, else the local "current-packmodes", else every remote packmode. */
  method ChoosePackmodes(local: Pack.Manifest, remote: Pack.Manifest, packmodes: seq<string>)
    returns (chosen: seq<string>)
    ensures ChosenFrom(packmodes, local, remote, chosen)
    ensures packmodes == [] && local.current.None? ==> forall x :: x in chosen <==> x in remote.packmodes
  {
    chosen := packmodes;
    if chosen == [] {
      if local.current.Some? {
        chosen := local.current.value;
      } else {
        chosen := Enumerate(remote.packmodes.Keys);
      }
    }
  }

  /** The local and the new states: both selections expanded, or the error of the first that fails. */
  method ComputeStates(local: Pack.Manifest, remote: Pack.Manifest, chosen: seq<string>)
    returns (r: Result<(set<string>, set<string>), UpdateError>)
    ensures r.Ok? <==> Expands(local.packmodes, Current(local)) && Expands(remote.packmodes, chosen)
    ensures r.Ok? ==>
      Expansion(local.packmodes, Current(local), r.value.0) && Expansion(remote.packmodes, chosen, r.value.1)
    ensures r.Err? ==> r.error.BadSelection?
  {
    var localAll := Pack.GetAllDependencies(local.packmodes, Current(local));
    if localAll.Err? {
      return Err(BadSelection(localAll.error));
    }
    var newAll := Pack.GetAllDependencies(remote.packmodes, chosen);
    if newAll.Err? {
      return Err(BadSelection(newAll.error));
    }
    r := Ok((localAll.value, newAll.value));
  }

  /** The mod loops between the mods of two expanded selections. */
  method UpdateMods(fs: FileSystem, provider: Provider, local: Pack.Manifest, chosen: seq<string>,
                    localSet: set<string>, newSet: set<string>)
    returns (r: Result<(), UpdateError>, ghost mods: Order<int>)
    requires Loaded(local) && Loaded(provider.manifest)
    requires Expansion(local.packmodes, Current(local), localSet)
    requires Expansion(provider.manifest.packmodes, chosen, newSet)
    modifies fs`files
    ensures Orders(mods, Common.ComputeModDiff(Pack.SelectMods(local.mods, localSet),
                                               Pack.SelectMods(provider.manifest.mods, newSet)))
    ensures Run(r, fs.files) == Exec(old(fs.files), ModOps(Context(provider, local, localSet, newSet), mods))
    ensures NamelessListed(Context(provider, local, localSet, newSet),
                           Common.ComputeModDiff(Pack.SelectMods(local.mods, localSet),
                                                 Pack.SelectMods(provider.manifest.mods, newSet))) ==>
      r.Err? && r.error.MissingKey? && r.error.key == "name" && fs.files == old(fs.files)
  {
    var remote := provider.manifest;
    // The selection of each side, handed the expanded set as its packmode list
    var localList := Enumerate(localSet);
    var newList := Enumerate(newSet);
    Reselect(local.packmodes, Current(local), localList, localSet);
    Reselect(remote.packmodes, chosen, newList, newSet);
    var oldMods := Pack.GetSelectedMods(local, localList);
    var newMods := Pack.GetSelectedMods(remote, newList);
    SelectionOf(local.packmodes, localList, localSet, local.mods, oldMods.value);
    SelectionOf(remote.packmodes, newList, newSet, remote.mods, newMods.value);
    var modDiff := Common.ComputeModDiff(oldMods.value, newMods.value);
    var ctx := Context(provider, local, localSet, newSet);
    r, mods := ApplyModDiff(fs, ctx, modDiff);
    DiffListed(oldMods.value, newMods.value);
    ListingBlocks(ctx, mods, modDiff);
    ListingRaises(ctx, mods);
    RaisingRun(old(fs.files), ListingOps(ctx, mods));
    ExecAppend(old(fs.files), ListingOps(ctx, mods), LoopOps(ctx, mods));
  }

  /** What `get_selected_overrides` returns for a list whose expansion is `s`. */
  lemma CacheOf(m: Pack.Manifest, list: seq<string>, s: set<string>, r: map<string, string>)
    requires IsSelection(m.packmodes, list, s)
    requires forall p :: p in r <==>
      p in m.cache && Pack.OverridePackmode(m.overrides, p).Some?
      && Pack.Selected(m.packmodes, list, Pack.OverridePackmode(m.overrides, p).value)
    requires forall p :: p in r ==> r[p] == m.cache[p]
    ensures r == SelectCache(m, s)
  {
    var c := SelectCache(m, s);
    forall p ensures p in r <==> p in c {
      var o := Pack.OverridePackmode(m.overrides, p);
      if p in m.cache && o.Some? {
        assert o.value in s <==> Pack.Selected(m.packmodes, list, o.value);
      }
    }
  }

  /** The override loops between the override caches of two expanded selections. */
  method UpdateOverrides(fs: FileSystem, provider: Provider, local: Pack.Manifest, chosen: seq<string>,
                         localSet: set<string>, newSet: set<string>)
    returns (r: Result<(), UpdateError>, ghost overrides: Order<string>)
    requires Expansion(local.packmodes, Current(local), localSet)
    requires Expansion(provider.manifest.packmodes, chosen, newSet)
    modifies fs`files
    ensures Orders(overrides, Common.ComputeOverrideDiff(SelectCache(local, localSet),
                                                         SelectCache(provider.manifest, newSet)))
    ensures Run(r, fs.files) == Exec(old(fs.files), OverrideOps(provider.overrideData, overrides))
  {
    var remote := provider.manifest;
    var localList := Enumerate(localSet);
    var newList := Enumerate(newSet);
    Reselect(local.packmodes, Current(local), localList, localSet);
    Reselect(remote.packmodes, chosen, newList, newSet);
    var oldOverrides := Pack.GetSelectedOverrides(local, localList);
    var newOverrides := Pack.GetSelectedOverrides(remote, newList);
    CacheOf(local, localList, localSet, oldOverrides.value);
    CacheOf(remote, newList, newSet, newOverrides.value);
    var overrideDiff := Common.ComputeOverrideDiff(oldOverrides.value, newOverrides.value);
    r, overrides := ApplyOverrideChanges(fs, provider.overrideData, overrideDiff);
  }

  /**
   * The mod and override loops of `update_pack` between two expanded
   * selections, then the new manifest; a failing call ends the update
   * with the files as the calls before it left them and the manifest
   * not rewritten.
   */
  method ApplyUpdate(fs: FileSystem, provider: Provider, local: Pack.Manifest, chosen: seq<string>,
                     localSet: set<string>, newSet: set<string>)
    returns (r: Result<(), UpdateError>, ghost mods: Order<int>, ghost overrides: Order<string>)
    requires Loaded(local) && Loaded(provider.manifest)
    requires Expansion(local.packmodes, Current(local), localSet)
    requires Expansion(provider.manifest.packmodes, chosen, newSet)
    modifies fs
    ensures var plan := Plan(local, chosen, localSet, newSet, mods, overrides);
      && Orders(mods, ModDiffOf(provider.manifest, plan))
      && (r.Ok? ==> Orders(overrides, OverrideDiffOf(provider.manifest, plan)))
      && Exec(old(fs.files), UpdateOps(provider, plan)) == Run(r, fs.files)
      && fs.manifest == (if r.Ok? then Some(Record(provider.manifest, chosen)) else old(fs.manifest))
    ensures NamelessListed(Context(provider, local, localSet, newSet),
                           Common.ComputeModDiff(Pack.SelectMods(local.mods, localSet),
                                                 Pack.SelectMods(provider.manifest.mods, newSet))) ==>
      r.Err? && r.error.MissingKey? && r.error.key == "name" && fs.files == old(fs.files)
  {
    ghost var ctx := Context(provider, local, localSet, newSet);
    overrides := Order([], [], []);
    ghost var nameless := NamelessListed(ctx, Common.ComputeModDiff(Pack.SelectMods(local.mods, localSet),
                                                                   Pack.SelectMods(provider.manifest.mods, newSet)));
    r, mods := UpdateMods(fs, provider, local, chosen, localSet, newSet);
    ExecAppend(old(fs.files), ModOps(ctx, mods), OverrideOps(provider.overrideData, overrides));
    if r.Err? {
      return;
    }
    assert !nameless;
    r, overrides := UpdateOverrides(fs, provider, local, chosen, localSet, newSet);
    ExecAppend(old(fs.files), ModOps(ctx, mods), OverrideOps(provider.overrideData, overrides));
    if r.Ok? {
      // The new manifest
      fs.manifest := Some(Record(provider.manifest, chosen));
    }
  }

  /**
   * `update_pack`: reads the local manifest (the default one if there is
   * none and the user confirms, otherwise the update is aborted), picks the
   * packmodes, expands both selections, stops when nothing changed,
   * otherwise applies the mod diff and the override diff of the selected
   * parts and records the remote manifest with the packmodes installed.
   */
  method UpdatePack(fs: FileSystem, provider: Provider, confirm: bool, packmodes: seq<string>)
    returns (r: Result<Outcome, UpdateError>, ghost plan: Plan)
    requires Loaded(provider.manifest)
    modifies fs
    ensures r == Err(Aborted) <==> old(fs.manifest).None? && !confirm
    ensures (r.Err? && r.error.InvalidManifest?) <==> old(fs.manifest).Some? && !Pack.Valid(old(fs.manifest).value)
    ensures r.Err? && !ApplyError(r.error) ==> fs.files == old(fs.files) && fs.manifest == old(fs.manifest)
    ensures r.Err? && r.error.BadSelection? ==>
      && LocalManifest(old(fs.manifest), plan.local)
      && ChosenFrom(packmodes, plan.local, provider.manifest, plan.chosen)
      && !(Expands(plan.local.packmodes, Current(plan.local)) && Expands(provider.manifest.packmodes, plan.chosen))
    ensures r.Ok? || (r.Err? && ApplyError(r.error)) ==> Planned(old(fs.manifest), provider.manifest, packmodes, plan)
    ensures r.Ok? ==> (r.value == NothingToUpdate <==> NoChange(provider.manifest, plan))
    ensures r == Ok(NothingToUpdate) ==> fs.files == old(fs.files) && fs.manifest == old(fs.manifest)
    ensures r == Ok(Updated) ==>
      && Orders(plan.mods, ModDiffOf(provider.manifest, plan))
      && Orders(plan.overrides, OverrideDiffOf(provider.manifest, plan))
      && Exec(old(fs.files), UpdateOps(provider, plan)) == Run(Ok(()), fs.files)
      && fs.manifest == Some(Record(provider.manifest, plan.chosen))
    ensures r.Err? && ApplyError(r.error) ==>
      && !NoChange(provider.manifest, plan)
      && Orders(plan.mods, ModDiffOf(provider.manifest, plan))
      && Exec(old(fs.files), UpdateOps(provider, plan)) == Run(Err(r.error), fs.files)
      && fs.manifest == old(fs.manifest)
    ensures (r.Ok? || ApplyError(r.error)) && !NoChange(provider.manifest, plan)
            && NamelessListed(PlanContext(provider, plan), ModDiffOf(provider.manifest, plan)) ==>
      && r.Err? && r.error.MissingKey? && r.error.key == "name"
      && fs.files == old(fs.files) && fs.manifest == old(fs.manifest)
  {
    var empty: Order<string> := Order([], [], []);
    plan := Plan(Pack.GetDefault(false), [], {}, {}, Order([], [], []), empty);
    // Local configuration
    var loaded := ReadLocal(fs.manifest, confirm);
    if loaded.Err? {
      return Err(loaded.error), plan;
    }
    var local := loaded.value;
    // Remote configuration and the packmodes to install
    var remote := provider.manifest;
    var chosen := ChoosePackmodes(local, remote, packmodes);
    plan := plan.(local := local, chosen := chosen);
    // States
    var states := ComputeStates(local, remote, chosen);
    if states.Err? {
      return Err(states.error), plan;
    }
    var (localSet, newSet) := states.value;
    plan := plan.(localSet := localSet, newSet := newSet);
    // Quick comparison
    if remote.version == local.version && localSet == newSet {
      return Ok(NothingToUpdate), plan;
    }
    var applied, mo, oo := ApplyUpdate(fs, provider, local, chosen, localSet, newSet);
    plan := plan.(mods := mo, overrides := oo);
    UpdateOpsRaises(provider, plan);
    ExecRaises(old(fs.files), UpdateOps(provider, plan));
    if NamelessListed(PlanContext(provider, plan), ModDiffOf(provider.manifest, plan)) {
      NamelessStops(provider, plan, old(fs.files));
    }
    if applied.Err? {
      return Err(applied.error), plan;
    }
    assert applied == Ok(()) by { assert applied.value == (); }
    r := Ok(Updated);
  }

  /**
   * The next update, run without packmodes over the manifest an update
   * recorded, finds nothing to update: the recorded manifest reads back as
   * the remote one with the installed packmodes as its selection.
   */
  lemma RerunIsNoOp(j: Json, p: Provider, manifest: Option<Json>, packmodes: seq<string>, plan: Plan, again: Plan)
    requires Pack.Valid(j) && p.manifest == Pack.Decode(j)
    requires Planned(manifest, p.manifest, packmodes, plan) && plan.chosen != []
    requires Planned(Some(Record(p.manifest, plan.chosen)), p.manifest, [], again)
    ensures again.local == p.manifest.(current := Some(plan.chosen)) && again.chosen == plan.chosen
    ensures NoChange(p.manifest, again)
  {
    Pack.RecordRoundTrip(j, plan.chosen);
    assert again.local == p.manifest.(current := Some(plan.chosen));
    forall x ensures x in again.localSet <==> x in again.newSet {
      assert x in again.localSet <==> Pack.Selected(p.manifest.packmodes, plan.chosen, x);
    }
  }

  // ---------------------------------------------------------------------
  // `update_pack` as written
  // ---------------------------------------------------------------------

  /** A mod the local manifest lists with a name and a filename, and whose file is in the pack. */
  predicate Removable(ctx: ModContext, files: map<string, string>, a: int)
  {
    a in ctx.local && ctx.local[a].name.Some? && ctx.local[a].filename.Some?
    && ModPath(ctx.local[a].filename.value) in files
  }

  /**
   * As written, the updated-mods loop unlinks the old file and then hands
   * `install_mod` the `filesystem` module, whose missing `download` raises:
   * the pack is left without the mod.
   */
  lemma WrittenReplaceLosesMod(ctx: ModContext, files: map<string, string>, a: int)
    requires Removable(ctx, files, a) && a in ctx.remote
    ensures var old_path := ModPath(ctx.local[a].filename.value);
      && Exec(files, ModActionOps(ctx, ReplacingAsWritten, a)) == Run(Err(NoAttribute("download")), files - {old_path})
      && old_path !in Exec(files, ModActionOps(ctx, ReplacingAsWritten, a)).files
  {
    var old_path := ModPath(ctx.local[a].filename.value);
    ExecAppend(files, [Remove(old_path)], [Raise(NoAttribute("download"))]);
  }

  /** Handed the pack, the same loop replaces the old file by the new one. */
  lemma ReplaceInstalls(ctx: ModContext, files: map<string, string>, a: int)
    requires Removable(ctx, files, a) && a in ctx.remote && ctx.remote[a].filename.Some?
    requires ModPath(ctx.remote[a].filename.value) !in files - {ModPath(ctx.local[a].filename.value)}
    ensures var old_path, new_path := ModPath(ctx.local[a].filename.value), ModPath(ctx.remote[a].filename.value);
      Exec(files, ModActionOps(ctx, Replacing, a))
        == Run(Ok(()), (files - {old_path})[new_path := ctx.modData(a, ctx.remote[a].fileID)])
  {
    var old_path, new_path := ModPath(ctx.local[a].filename.value), ModPath(ctx.remote[a].filename.value);
    ExecAppend(files, [Remove(old_path)], [Store(new_path, ctx.modData(a, ctx.remote[a].fileID))]);
  }

  /**
   * The calls of `update_pack` as written: the updated-mods loop as above,
   * and after the override loops the new manifest is built with
   * `manifest.pack.copy`, which the manifest module does not define.
   */
  function WrittenOps(p: Provider, plan: Plan): seq<Op>
  {
    var ctx := PlanContext(p, plan);
    ListingOps(ctx, plan.mods) + ModPhase(ctx, Deleting, plan.mods.deleted) + ModPhase(ctx, ReplacingAsWritten, plan.mods.updated)
    + ModPhase(ctx, Installing, plan.mods.added) + OverrideOps(p.overrideData, plan.overrides)
    + [Raise(NoAttribute("copy"))]
  }

  /** As written, no update that gets past the quick comparison ends without an error or records its manifest. */
  lemma WrittenNeverRecords(files: map<string, string>, p: Provider, plan: Plan)
    ensures Exec(files, WrittenOps(p, plan)).result.Err?
  {
    var ops := WrittenOps(p, plan);
    var body := ops[..|ops| - 1];
    assert ops == body + [Raise(NoAttribute("copy"))];
    ExecAppend(files, body, [Raise(NoAttribute("copy"))]);
  }
}
