/**
 * The pack manifest of mc_pack_manager/manifest/pack.py: its JSON schema,
 * the validation of packmode dependencies and assignments, building and
 * loading a manifest, the bottom-up lookup of an override's packmode, the
 * dependency closure of a packmode selection and the selection of mods and
 * overrides it implies.
 */
module Pack {
  import opened Wrappers
  import opened Strings
  import opened Versions
  import opened Json
  import opened Paths
  import Search

  /** The implicit packmode every other one depends on. */
  const Server: string := "server"

  /** Packmode name to the names of the packmodes it depends on. */
  type Packmodes = map<string, seq<string>>

  /** One entry of the "mods" list; a mod that has not been assigned yet has no packmode. */
  datatype Mod = Mod(addonID: int, fileID: int, packmode: Option<string>, name: Option<string>,
                     filename: Option<string>)

  /** A loaded manifest: "pack-version" parsed into a Version, "current-packmodes" optional. */
  datatype Manifest = Manifest(version: Version, packmodes: Packmodes, current: Option<seq<string>>,
                               mods: seq<Mod>, overrides: map<string, string>, cache: map<string, string>)

  /** The exceptions of the module (jsonschema.ValidationError, the manifest errors, ValueError, TypeError, KeyError). */
  datatype ManifestError =
    | SchemaViolation
    | UndefinedDependency(source: string, dependency: string)
    | CircularDependency(cycle: seq<string>)
    | UndefinedModPackmode(addonID: int, packmode: string)
    | UndefinedOverridePackmode(path: string, packmode: string)
    | ServerHasDependencies
    | UndefinedPackmodes(names: set<string>)
    | NotSubscriptable
    | MissingPackmode(name: string)

  // ---------------------------------------------------------------------
  // MANIFEST_SCHEMA
  // ---------------------------------------------------------------------

  predicate Numeral(p: string)
  {
    |p| > 0 && AllDigits(p)
  }

  /** `^[0-9]+[.][0-9]+[.][0-9]+$` under `re.search`, where `$` also matches before a final newline. */
  predicate VersionPattern(s: string)
  {
    var t := if |s| > 0 && s[|s| - 1] == '\n' then s[..|s| - 1] else s;
    var ps := Split(t, '.');
    |ps| == 3 && Numeral(ps[0]) && Numeral(ps[1]) && Numeral(ps[2])
  }

  /** "propertyNames" of "packmodes": not `^server$`, and `[a-z-]+` somewhere in the name. */
  predicate PackmodeName(k: string)
  {
    && k != Server && k != Server + "\n"
    && exists i :: 0 <= i < |k| && ('a' <= k[i] <= 'z' || k[i] == '-')
  }

  const ModFields: set<string> := {"addonID", "fileID", "packmode", "name", "filename"}

  const TopFields: set<string> :=
    {"pack-version", "packmodes", "current-packmodes", "mods", "overrides", "override-cache"}

  /** "#/definitions/mod" */
  predicate ModSchema(j: Json)
  {
    && j.JObj? && j.fields.Keys <= ModFields
    && "addonID" in j.fields && IsInteger(j.fields["addonID"])
    && "fileID" in j.fields && IsInteger(j.fields["fileID"])
    && "packmode" in j.fields && j.fields["packmode"].JStr?
    && ("name" in j.fields ==> j.fields["name"].JStr?)
    && ("filename" in j.fields ==> j.fields["filename"].JStr?)
  }

  predicate PackmodesSchema(j: Json)
  {
    j.JObj? && forall k :: k in j.fields ==> IsStrArray(j.fields[k]) && PackmodeName(k)
  }

  predicate ModsSchema(j: Json)
  {
    j.JArr? && forall i :: 0 <= i < |j.items| ==> ModSchema(j.items[i])
  }

  /** The whole MANIFEST_SCHEMA: five required fields, an optional "current-packmodes", nothing else. */
  predicate Schema(j: Json)
  {
    && j.JObj? && j.fields.Keys <= TopFields
    && "pack-version" in j.fields && j.fields["pack-version"].JStr?
    && VersionPattern(j.fields["pack-version"].s)
    && "packmodes" in j.fields && PackmodesSchema(j.fields["packmodes"])
    && ("current-packmodes" in j.fields ==> IsStrArray(j.fields["current-packmodes"]))
    && "mods" in j.fields && ModsSchema(j.fields["mods"])
    && "overrides" in j.fields && IsStrObject(j.fields["overrides"])
    && "override-cache" in j.fields && IsStrObject(j.fields["override-cache"])
  }

  // ---------------------------------------------------------------------
  // Between JSON and the model's records
  // ---------------------------------------------------------------------

  function OptStr(j: Json, key: string): Option<string>
    requires j.JObj? && (key in j.fields ==> j.fields[key].JStr?)
  {
    if key in j.fields then Some(j.fields[key].s) else None
  }

  function ModOf(j: Json): Mod
    requires ModSchema(j)
  {
    Mod(j.fields["addonID"].x.Floor, j.fields["fileID"].x.Floor, Some(j.fields["packmode"].s),
        OptStr(j, "name"), OptStr(j, "filename"))
  }

  function OptField(key: string, v: Option<string>): map<string, Json>
  {
    if v.Some? then map[key := JStr(v.value)] else map[]
  }

  /** A mod as a JSON object: absent optional properties are left out. */
  function ModJson(m: Mod): (r: Json)
    ensures ModSchema(r) <==> m.packmode.Some?
    ensures m.packmode.Some? ==> ModOf(r) == m
  {
    JObj(map["addonID" := JNum(m.addonID as real), "fileID" := JNum(m.fileID as real)]
         + OptField("packmode", m.packmode) + OptField("name", m.name) + OptField("filename", m.filename))
  }

  /** Every schema-valid mod object is the JSON form of the mod it decodes to. */
  lemma ModJsonOf(j: Json)
    requires ModSchema(j)
    ensures ModJson(ModOf(j)) == j
  {
    var r := ModJson(ModOf(j));
    assert r.fields.Keys == j.fields.Keys;
  }

  function ModsOf(j: Json): (r: seq<Mod>)
    requires ModsSchema(j)
    ensures |r| == |j.items| && forall i :: 0 <= i < |r| ==> r[i] == ModOf(j.items[i])
  {
    seq(|j.items|, i requires 0 <= i < |j.items| => ModOf(j.items[i]))
  }

  function ModsJson(mods: seq<Mod>): (r: Json)
    ensures r.JArr? && |r.items| == |mods| && forall i :: 0 <= i < |mods| ==> r.items[i] == ModJson(mods[i])
  {
    JArr(seq(|mods|, i requires 0 <= i < |mods| => ModJson(mods[i])))
  }

  function PackmodesOf(j: Json): (r: Packmodes)
    requires PackmodesSchema(j)
    ensures r.Keys == j.fields.Keys && forall k :: k in r ==> StrArray(r[k]) == j.fields[k]
  {
    map k | k in j.fields :: StrItems(j.fields[k])
  }

  function PackmodesJson(pm: Packmodes): (r: Json)
    ensures r.JObj? && r.fields.Keys == pm.Keys && forall k :: k in pm ==> r.fields[k] == StrArray(pm[k])
  {
    JObj(map k | k in pm :: StrArray(pm[k]))
  }

  /** A manifest in the schema, with its version parsed the way `load` does it. */
  function Decode(j: Json): (m: Manifest)
    requires Schema(j)
    ensures ThreeNaturals(m.version)
    ensures Server !in m.packmodes
    ensures forall i :: 0 <= i < |m.mods| ==> m.mods[i].packmode.Some?
  {
    var f := j.fields;
    VersionPatternParses(f["pack-version"].s);
    Manifest(Parse(f["pack-version"].s).value, PackmodesOf(f["packmodes"]),
             if "current-packmodes" in f then Some(StrItems(f["current-packmodes"])) else None,
             ModsOf(f["mods"]), StrMap(f["overrides"]), StrMap(f["override-cache"]))
  }

  /** The object `make` assembles before validating it. */
  function MakeJson(version: Version, pm: Packmodes, mods: seq<Mod>, overrides: map<string, string>,
                    cache: map<string, string>, current: seq<string>): (j: Json)
    ensures j.JObj? && ("current-packmodes" in j.fields <==> current != [])
  {
    var given := map["pack-version" := JStr(ToString(version)), "packmodes" := PackmodesJson(pm),
                     "mods" := ModsJson(mods), "overrides" := StrObject(overrides),
                     "override-cache" := StrObject(cache)];
    JObj(if current != [] then given["current-packmodes" := StrArray(current)] else given)
  }

  // ---------------------------------------------------------------------
  // The version pattern and `utils.Version`
  // ---------------------------------------------------------------------

  lemma NumeralParses(p: string)
    requires Numeral(p)
    ensures ParseInt(p) == Some(DigitsValue(p)) && ParseInt(p + "\n") == Some(DigitsValue(p))
  {
    assert TrimStart(p) == p;
    assert TrimEnd(p) == p;
    var q := p + "\n";
    assert TrimStart(q) == q;
    assert q[..|q| - 1] == p;
    assert TrimEnd(q) == p;
  }

  lemma ParsePartsCons(ps: seq<string>, x: int, xs: seq<int>)
    requires |ps| > 0 && ParseInt(ps[0]) == Some(x) && ParseParts(ps[1..]) == Some(xs)
    ensures ParseParts(ps) == Some([x] + xs)
  {
  }

  lemma ParseThree(qs: seq<string>, a: nat, b: nat, c: nat)
    requires |qs| == 3 && ParseInt(qs[0]) == Some(a) && ParseInt(qs[1]) == Some(b) && ParseInt(qs[2]) == Some(c)
    ensures ParseParts(qs) == Some([a, b, c])
  {
    var q1 := qs[1..];
    var q2 := q1[1..];
    assert q2[1..] == [];
    ParsePartsCons(q2, c, []);
    assert [c] + [] == [c];
    ParsePartsCons(q1, b, [c]);
    assert [b] + [c] == [b, c];
    ParsePartsCons(qs, a, [b, c]);
    assert [a] + [b, c] == [a, b, c];
  }

  /** The pieces of a pattern-valid version string, a final newline kept on the last one. */
  lemma VersionPieces(s: string) returns (ps: seq<string>, qs: seq<string>)
    requires VersionPattern(s)
    ensures |ps| == 3 && Numeral(ps[0]) && Numeral(ps[1]) && Numeral(ps[2])
    ensures Split(s, '.') == qs && |qs| == 3 && qs[0] == ps[0] && qs[1] == ps[1]
    ensures qs[2] == ps[2] || qs[2] == ps[2] + "\n"
  {
    var nl := |s| > 0 && s[|s| - 1] == '\n';
    var t := if nl then s[..|s| - 1] else s;
    ps := Split(t, '.');
    if nl {
      assert s == t + ['\n'];
      SplitSnoc(t, '.', '\n');
      qs := ps[..2] + [ps[2] + "\n"];
    } else {
      qs := ps;
    }
  }

  /** A string the schema accepts as "pack-version" is a valid `Version` of three natural numbers. */
  /** A major.minor.patch version with no negative component. */
  predicate ThreeNaturals(v: Version)
  {
    |v.parts| == 3 && v.parts[0] >= 0 && v.parts[1] >= 0 && v.parts[2] >= 0
  }

  lemma VersionPatternParses(s: string)
    requires VersionPattern(s)
    ensures Parse(s).Some? && ThreeNaturals(Parse(s).value)
  {
    var ps, qs := VersionPieces(s);
    var a, b, c := DigitsValue(ps[0]), DigitsValue(ps[1]), DigitsValue(ps[2]);
    assert ParseInt(qs[0]) == Some(a) by { NumeralParses(ps[0]); }
    assert ParseInt(qs[1]) == Some(b) by { NumeralParses(ps[1]); }
    assert ParseInt(qs[2]) == Some(c) by { NumeralParses(ps[2]); }
    ParseThree(qs, a, b, c);
    assert ParseParts(Split(s, '.')) == Some([a, b, c]);
    assert Parse(s) == Some(Version([a, b, c]));
  }

  /** A version whose string form passes the schema has at least one component. */
  lemma VersionPatternNonEmpty(v: Version)
    requires VersionPattern(ToString(v))
    ensures |v.parts| >= 1
  {
  }

  // ---------------------------------------------------------------------
  // Round trips
  // ---------------------------------------------------------------------

  lemma ModsRoundTrip(mods: seq<Mod>)
    requires ModsSchema(ModsJson(mods))
    ensures ModsOf(ModsJson(mods)) == mods
  {
    var j := ModsJson(mods);
    forall i | 0 <= i < |mods| ensures ModsOf(j)[i] == mods[i] {
      assert ModSchema(j.items[i]);
    }
  }

  lemma PackmodesRoundTrip(pm: Packmodes)
    requires PackmodesSchema(PackmodesJson(pm))
    ensures PackmodesOf(PackmodesJson(pm)) == pm
  {
  }

  /** The properties of the object `make` assembles. */
  lemma MakeJsonFields(version: Version, pm: Packmodes, mods: seq<Mod>, overrides: map<string, string>,
                       cache: map<string, string>, current: seq<string>)
    ensures var f := MakeJson(version, pm, mods, overrides, cache, current).fields;
      && "pack-version" in f && f["pack-version"] == JStr(ToString(version))
      && "packmodes" in f && f["packmodes"] == PackmodesJson(pm)
      && ("current-packmodes" in f ==> f["current-packmodes"] == StrArray(current))
      && "mods" in f && f["mods"] == ModsJson(mods)
      && "overrides" in f && f["overrides"] == StrObject(overrides)
      && "override-cache" in f && f["override-cache"] == StrObject(cache)
  {
  }

  /** Decoding what `make` builds gives back the arguments; "current-packmodes" is absent when empty. */
  lemma MakeDecode(version: Version, pm: Packmodes, mods: seq<Mod>, overrides: map<string, string>,
                   cache: map<string, string>, current: seq<string>)
    requires Schema(MakeJson(version, pm, mods, overrides, cache, current))
    ensures Decode(MakeJson(version, pm, mods, overrides, cache, current))
            == Manifest(version, pm, if current == [] then None else Some(current), mods, overrides, cache)
  {
    MakeJsonFields(version, pm, mods, overrides, cache, current);
    VersionPatternNonEmpty(version);
    ParseToString(version);
    ModsRoundTrip(mods);
    PackmodesRoundTrip(pm);
  }

  /** A major.minor.patch version of natural numbers is written in the form the schema demands. */
  lemma ThreeNaturalsPattern(v: Version)
    requires ThreeNaturals(v)
    ensures VersionPattern(ToString(v))
  {
    var ps := PartStrings(v.parts);
    forall i | 0 <= i < 3 ensures Numeral(ps[i]) && '.' !in ps[i] {
      assert ps[i] == NatString(v.parts[i]);
    }
    assert Join(ps, '.') == ps[0] + ['.'] + (ps[1] + ['.'] + ps[2]) by {
      assert ps[1..][1..] == [ps[2]];
      assert Join([ps[2]], '.') == ps[2];
      assert Join(ps[1..], '.') == ps[1] + ['.'] + ps[2];
    }
    SplitJoin(ps, '.');
    var s := ToString(v);
    assert s[|s| - 1] == ps[2][|ps[2]| - 1];
  }

  /** The JSON form of decoded mods is the JSON they were decoded from. */
  lemma ModsJsonOf(j: Json)
    requires ModsSchema(j)
    ensures ModsJson(ModsOf(j)) == j
  {
    forall i | 0 <= i < |j.items| ensures ModsJson(ModsOf(j)).items[i] == j.items[i] {
      ModJsonOf(j.items[i]);
    }
  }

  /** The JSON form of decoded packmodes is the JSON they were decoded from. */
  lemma PackmodesJsonOf(j: Json)
    requires PackmodesSchema(j)
    ensures PackmodesJson(PackmodesOf(j)) == j
  {
    forall k | k in j.fields ensures PackmodesJson(PackmodesOf(j)).fields[k] == j.fields[k] {
      StrArrayItems(j.fields[k]);
    }
  }

  /**
   * A manifest `load` accepted, written back by `make` with another
   * "current-packmodes", passes `validate` and loads as the same manifest
   * with the new selection (an empty selection is left out).
   */
  lemma RecordRoundTrip(j: Json, current: seq<string>)
    requires Valid(j)
    ensures var m := Decode(j);
      var w := MakeJson(m.version, m.packmodes, m.mods, m.overrides, m.cache, current);
      Valid(w) && Decode(w) == m.(current := if current == [] then None else Some(current))
  {
    var m := Decode(j);
    var f := j.fields;
    var w := MakeJson(m.version, m.packmodes, m.mods, m.overrides, m.cache, current);
    ThreeNaturalsPattern(m.version);
    MakeJsonFields(m.version, m.packmodes, m.mods, m.overrides, m.cache, current);
    ModsJsonOf(f["mods"]);
    PackmodesJsonOf(f["packmodes"]);
    assert StrObject(m.overrides) == f["overrides"];
    assert StrObject(m.cache) == f["override-cache"];
    assert Schema(w);
    MakeDecode(m.version, m.packmodes, m.mods, m.overrides, m.cache, current);
  }

  // ---------------------------------------------------------------------
  // validate_dependencies
  // ---------------------------------------------------------------------

  /** `name in packmodes.keys() | {"server"}` */
  predicate Defined(pm: Packmodes, name: string)
  {
    name in pm || name == Server
  }

  /** Every listed dependency names a defined packmode. */
  predicate DependenciesDefined(pm: Packmodes)
  {
    forall a :: a in pm ==> DependenciesOfDefined(pm, a)
  }

  predicate DependenciesOfDefined(pm: Packmodes, a: string)
    requires a in pm
  {
    forall i :: 0 <= i < |pm[a]| ==> Defined(pm, pm[a][i])
  }

  /** `a` depends on `b`: `b` is listed for `a`, or is the implicit "server". */
  predicate DependsOn(pm: Packmodes, a: string, b: string)
  {
    a in pm && (b in pm[a] || b == Server)
  }

  /** Each packmode of the walk depends on the one before it. */
  ghost predicate DependencyWalk(pm: Packmodes, p: seq<string>)
  {
    forall i :: 0 <= i < |p| - 1 ==> DependsOn(pm, p[i + 1], p[i])
  }

  /** A walk through the dependents of "server" that comes back to a packmode it already passed. */
  ghost predicate CircularDependencies(pm: Packmodes)
  {
    exists p, j :: |p| >= 2 && p[0] == Server && DependencyWalk(pm, p) && 0 <= j < |p| - 1 && p[j] == p[|p| - 1]
  }

  /** What CircularDependencyError carries: a walk of dependents from "server" (or a
      packmode depending on itself, twice) whose last packmode has a dependent on the walk. */
  ghost predicate ReportedCycle(pm: Packmodes, cyc: seq<string>)
  {
    && |cyc| >= 2 && DependencyWalk(pm, cyc) && (cyc[0] == Server || cyc == [cyc[1], cyc[1]])
    && exists j :: 0 <= j < |cyc| && DependsOn(pm, cyc[j], cyc[|cyc| - 1])
  }

  /** A packmode listing itself is a circular dependency. */
  lemma SelfDependencyCircular(pm: Packmodes, k: string)
    requires k in pm && k in pm[k]
    ensures CircularDependencies(pm)
  {
    var p := [Server, k, k];
    assert DependsOn(pm, p[1], p[0]) && DependsOn(pm, p[2], p[1]);
    assert DependencyWalk(pm, p) && p[1] == p[2];
  }

  /** A packmode named "server" depends on itself through the implicit dependency. */
  lemma ServerKeyCircular(pm: Packmodes)
    requires Server in pm
    ensures CircularDependencies(pm)
  {
    var p := [Server, Server];
    assert DependsOn(pm, p[1], p[0]);
    assert DependencyWalk(pm, p) && p[0] == p[1];
  }

  /** Without packmodes there is nothing to depend on. */
  lemma NoPackmodesAcyclic()
    ensures !CircularDependencies(map[])
  {
    forall p: seq<string> | |p| >= 2
      ensures !DependencyWalk(map[], p)
    {
      assert !DependsOn(map[], p[1], p[0]);
    }
  }

  /** The graph `validate_dependencies` builds: an edge from every packmode to each of its dependents. */
  ghost predicate Dependents(graph: map<string, seq<string>>, pm: Packmodes)
  {
    forall x, c :: Search.Edge(graph, x, c) <==> DependsOn(pm, c, x)
  }

  lemma DependentsWalk(graph: map<string, seq<string>>, pm: Packmodes, p: seq<string>)
    requires Dependents(graph, pm)
    ensures Search.IsPath(graph, p) <==> DependencyWalk(pm, p)
  {
    forall i | 0 <= i < |p| - 1
      ensures p[i + 1] in Search.Succ(graph, p[i]) <==> DependsOn(pm, p[i + 1], p[i])
    {
      assert Search.Edge(graph, p[i], p[i + 1]) <==> DependsOn(pm, p[i + 1], p[i]);
    }
  }

  /** A cycle reachable from "server" in the dependents graph is exactly a circular dependency. */
  lemma DependentsCycle(graph: map<string, seq<string>>, pm: Packmodes)
    requires Dependents(graph, pm)
    ensures Search.CycleReachable(graph, Server) <==> CircularDependencies(pm)
  {
    if Search.CycleReachable(graph, Server) {
      var p, j :| |p| >= 2 && p[0] == Server && Search.IsPath(graph, p) && 0 <= j < |p| - 1 && p[j] == p[|p| - 1];
      DependentsWalk(graph, pm, p);
    }
    if CircularDependencies(pm) {
      var p, j :| |p| >= 2 && p[0] == Server && DependencyWalk(pm, p) && 0 <= j < |p| - 1 && p[j] == p[|p| - 1];
      DependentsWalk(graph, pm, p);
    }
  }

  /** The cycle `dfs` reports in the dependents graph, read back as packmodes. */
  lemma DependentsReport(graph: map<string, seq<string>>, pm: Packmodes, cyc: seq<string>)
    requires Dependents(graph, pm) && Search.Reported(graph, Server, cyc)
    ensures CircularDependencies(pm) && ReportedCycle(pm, cyc)
  {
    DependentsCycle(graph, pm);
    DependentsWalk(graph, pm, cyc);
    var j :| 0 <= j < |cyc| && cyc[j] in Search.Succ(graph, cyc[|cyc| - 1]);
    assert Search.Edge(graph, cyc[|cyc| - 1], cyc[j]);
  }

  /** Adds the edges from each dependency of `k` (and from "server") to `k`, failing on the first undefined one. */
  method LinkDependencies(pm: Packmodes, k: string, graph: map<string, seq<string>>, ghost done: set<string>)
    returns (r: Result<map<string, seq<string>>, ManifestError>)
    requires k in pm && k !in done
    requires graph.Keys == pm.Keys + {Server}
    requires forall x, c :: Search.Edge(graph, x, c) <==> c in done && DependsOn(pm, c, x)
    ensures r.Ok? ==> r.value.Keys == graph.Keys
    ensures r.Ok? ==> DependenciesOfDefined(pm, k)
    ensures r.Ok? ==> forall x, c :: Search.Edge(r.value, x, c) <==> c in done + {k} && DependsOn(pm, c, x)
    ensures r.Err? ==>
      && r.error.UndefinedDependency? && r.error.source == k
      && r.error.dependency in pm[k] && !Defined(pm, r.error.dependency)
  {
    var all := pm.Keys + {Server};
    var deps := (set i | 0 <= i < |pm[k]| :: pm[k][i]) + {Server};
    var rest := deps;
    var g := graph;
    while rest != {}
      invariant rest <= deps
      invariant g.Keys == all
      invariant forall d :: d in deps - rest ==> Defined(pm, d)
      invariant forall x, c :: Search.Edge(g, x, c) <==>
        (c in done && DependsOn(pm, c, x)) || (c == k && x in deps - rest)
      decreases |rest|
    {
      var d :| d in rest;
      if d !in all {
        return Err(UndefinedDependency(k, d));
      }
      ghost var g0 := g;
      g := g[d := g[d] + [k]];
      forall x, c ensures Search.Edge(g, x, c) <==> Search.Edge(g0, x, c) || (x == d && c == k) {
        assert Search.Succ(g, x) == if x == d then Search.Succ(g0, x) + [k] else Search.Succ(g0, x);
      }
      rest := rest - {d};
    }
    forall x | true ensures x in deps <==> x in pm[k] || x == Server {
      if x in pm[k] {
        var i :| 0 <= i < |pm[k]| && pm[k][i] == x;
      }
    }
    r := Ok(g);
  }

  /** The dependents graph over every defined packmode, or the first undefined dependency. */
  method DependentsGraph(pm: Packmodes) returns (r: Result<map<string, seq<string>>, ManifestError>)
    ensures r.Ok? ==> DependenciesDefined(pm) && Dependents(r.value, pm)
    ensures r.Err? ==>
      && r.error.UndefinedDependency?
      && r.error.source in pm && r.error.dependency in pm[r.error.source] && !Defined(pm, r.error.dependency)
  {
    var graph: map<string, seq<string>> := map p | p in pm.Keys + {Server} :: [];
    var todo := pm.Keys;
    ghost var done: set<string> := {};
    while todo != {}
      invariant todo <= pm.Keys && done == pm.Keys - todo
      invariant graph.Keys == pm.Keys + {Server}
      invariant forall a :: a in done ==> DependenciesOfDefined(pm, a)
      invariant forall x, c :: Search.Edge(graph, x, c) <==> c in done && DependsOn(pm, c, x)
      decreases |todo|
    {
      var k :| k in todo;
      var linked := LinkDependencies(pm, k, graph, done);
      if linked.Err? {
        return Err(linked.error);
      }
      graph := linked.value;
      done := done + {k};
      todo := todo - {k};
    }
    r := Ok(graph);
  }

  /**
   * `validate_dependencies`: builds the graph from every packmode to its
   * dependents (each packmode implicitly depending on "server"), failing on
   * the first dependency that is not defined, then searches it from
   * "server" for a cycle. Dictionary and set iteration orders are left open.
   */
  method ValidateDependencies(pm: Packmodes) returns (r: Result<(), ManifestError>)
    ensures r.Ok? <==> DependenciesDefined(pm) && !CircularDependencies(pm)
    ensures r.Err? ==> r.error.UndefinedDependency? || r.error.CircularDependency?
    ensures r.Err? && r.error.UndefinedDependency? ==>
      && r.error.source in pm && r.error.dependency in pm[r.error.source] && !Defined(pm, r.error.dependency)
    ensures r.Err? && r.error.CircularDependency? ==>
      DependenciesDefined(pm) && CircularDependencies(pm) && ReportedCycle(pm, r.error.cycle)
  {
    var built := DependentsGraph(pm);
    if built.Err? {
      return Err(built.error);
    }
    var graph := built.value;
    var out := Search.Dfs(graph, Server, None, false);
    DependentsCycle(graph, pm);
    if out.Cycle? {
      DependentsReport(graph, pm, out.cycle);
      r := Err(CircularDependency(out.cycle));
    } else {
      r := Ok(());
    }
  }

  // ---------------------------------------------------------------------
  // validate_packmode_assignments, validate, load, make
  // ---------------------------------------------------------------------

  /** The mod is assigned one of the defined packmodes. */
  predicate ModAssigned(pm: Packmodes, m: Mod)
  {
    m.packmode.Some? && Defined(pm, m.packmode.value)
  }

  /** Every mod and every override is assigned a defined packmode. */
  predicate AssignmentsDefined(pm: Packmodes, mods: seq<Mod>, overrides: map<string, string>)
  {
    && (forall i :: 0 <= i < |mods| ==> ModAssigned(pm, mods[i]))
    && (forall p :: p in overrides ==> Defined(pm, overrides[p]))
  }

  /** `mods[i]` is the first mod in list order whose packmode is undefined. */
  ghost predicate FirstUnassigned(pm: Packmodes, mods: seq<Mod>, i: int)
  {
    0 <= i < |mods| && !ModAssigned(pm, mods[i]) && forall h :: 0 <= h < i ==> ModAssigned(pm, mods[h])
  }

  /**
   * Checks the mods in list order, then the overrides in dictionary order,
   * then that no packmode is named "server".
   */
  method ValidatePackmodeAssignments(pm: Packmodes, mods: seq<Mod>, overrides: map<string, string>)
    returns (r: Result<(), ManifestError>)
    requires forall i :: 0 <= i < |mods| ==> mods[i].packmode.Some?
    ensures r.Ok? <==> AssignmentsDefined(pm, mods, overrides) && Server !in pm
    ensures r.Err? ==> r.error.UndefinedModPackmode? || r.error.UndefinedOverridePackmode? || r.error.ServerHasDependencies?
    ensures r.Err? && r.error.UndefinedModPackmode? ==>
      exists i :: FirstUnassigned(pm, mods, i) && r.error == UndefinedModPackmode(mods[i].addonID, mods[i].packmode.value)
    ensures r.Err? && r.error.UndefinedOverridePackmode? ==>
      && (forall i :: 0 <= i < |mods| ==> ModAssigned(pm, mods[i]))
      && r.error.path in overrides && overrides[r.error.path] == r.error.packmode && !Defined(pm, r.error.packmode)
    ensures r.Err? && r.error.ServerHasDependencies? ==> AssignmentsDefined(pm, mods, overrides) && Server in pm
  {
    var i := 0;
    while i < |mods|
      invariant 0 <= i <= |mods|
      invariant forall h :: 0 <= h < i ==> ModAssigned(pm, mods[h])
    {
      if !Defined(pm, mods[i].packmode.value) {
        assert FirstUnassigned(pm, mods, i);
        return Err(UndefinedModPackmode(mods[i].addonID, mods[i].packmode.value));
      }
      i := i + 1;
    }
    var rest := overrides.Keys;
    while rest != {}
      invariant rest <= overrides.Keys
      invariant forall p :: p in overrides && p !in rest ==> Defined(pm, overrides[p])
      decreases |rest|
    {
      var p :| p in rest;
      if !Defined(pm, overrides[p]) {
        return Err(UndefinedOverridePackmode(p, overrides[p]));
      }
      rest := rest - {p};
    }
    if Server in pm {
      return Err(ServerHasDependencies);
    }
    r := Ok(());
  }

  /** A manifest `validate` accepts. */
  ghost predicate Valid(j: Json)
  {
    && Schema(j)
    && var m := Decode(j);
    && DependenciesDefined(m.packmodes) && !CircularDependencies(m.packmodes)
    && AssignmentsDefined(m.packmodes, m.mods, m.overrides)
  }

  /** The schema, then the dependencies, then the assignments; the first failure is raised. */
  method Validate(j: Json) returns (r: Result<(), ManifestError>)
    ensures r.Ok? <==> Valid(j)
    ensures !Schema(j) ==> r == Err(SchemaViolation)
    ensures Schema(j) && r.Err? ==> r.error != SchemaViolation && !r.error.ServerHasDependencies?
  {
    if !Schema(j) {
      return Err(SchemaViolation);
    }
    var m := Decode(j);
    r := ValidateDependencies(m.packmodes);
    if r.Ok? {
      r := ValidatePackmodeAssignments(m.packmodes, m.mods, m.overrides);
    }
  }

  /** `load` and `from_str` once the JSON text is parsed: validate, then parse the version. */
  method Load(j: Json) returns (r: Result<Manifest, ManifestError>)
    ensures r.Ok? <==> Valid(j)
    ensures r.Ok? ==> r.value == Decode(j)
    ensures !Schema(j) ==> r == Err(SchemaViolation)
  {
    var v := Validate(j);
    if v.Err? {
      return Err(v.error);
    }
    r := Ok(Decode(j));
  }

  /**
   * `make`: assembles the manifest object ("current-packmodes" only when
   * the list is non-empty, None being the empty list) and validates it.
   */
  method Make(version: Version, pm: Packmodes, mods: seq<Mod>, overrides: map<string, string>,
              cache: map<string, string>, current: seq<string>)
    returns (r: Result<Json, ManifestError>)
    ensures r.Ok? <==> Valid(MakeJson(version, pm, mods, overrides, cache, current))
    ensures r.Ok? ==> r.value == MakeJson(version, pm, mods, overrides, cache, current)
    ensures r.Ok? ==>
      Decode(r.value) == Manifest(version, pm, if current == [] then None else Some(current), mods, overrides, cache)
    ensures (exists i :: 0 <= i < |mods| && mods[i].packmode.None?) ==> r == Err(SchemaViolation)
  {
    var j := MakeJson(version, pm, mods, overrides, cache, current);
    MakeJsonFields(version, pm, mods, overrides, cache, current);
    var v := Validate(j);
    if v.Err? {
      return Err(v.error);
    }
    MakeDecode(version, pm, mods, overrides, cache, current);
    r := Ok(j);
  }

  // ---------------------------------------------------------------------
  // get_default and DEFAULT_MANIFEST
  // ---------------------------------------------------------------------

  /** `get_default`: version 0.0.0 and nothing else; the override-URL flag changes nothing. */
  function GetDefault(withOverrideUrl: bool): Manifest
  {
    Manifest(Version([0, 0, 0]), map[], None, [], map[], map[])
  }

  /** DEFAULT_MANIFEST with "overrides" an empty object, as the schema requires. */
  const DefaultJson: Json := MakeJson(Version([0, 0, 0]), map[], [], map[], map[], [])

  /** DEFAULT_MANIFEST as written: "overrides" is an empty list. */
  const DefaultJsonAsWritten: Json := JObj(DefaultJson.fields["overrides" := JArr([])])

  /** The written default is not a manifest the schema accepts: "overrides" must be an object. */
  lemma DefaultAsWrittenInvalid()
    ensures !Schema(DefaultJsonAsWritten) && !Valid(DefaultJsonAsWritten)
  {
    assert DefaultJsonAsWritten.fields["overrides"] == JArr([]);
  }

  lemma DefaultVersionPattern()
    ensures ToString(Version([0, 0, 0])) == "0.0.0" && VersionPattern("0.0.0")
  {
    assert PartStrings([0, 0, 0]) == ["0", "0", "0"];
    SplitNoSep("0", '.');
    SplitCons("0", '.', "0");
    SplitCons("0", '.', "0.0");
    assert Split("0.0.0", '.') == ["0", "0", "0"];
  }

  /** The corrected default passes `validate` and loads as `get_default()`. */
  lemma DefaultValid(withOverrideUrl: bool)
    ensures Valid(DefaultJson) && Decode(DefaultJson) == GetDefault(withOverrideUrl)
  {
    DefaultVersionPattern();
    MakeJsonFields(Version([0, 0, 0]), map[], [], map[], map[], []);
    assert Schema(DefaultJson);
    MakeDecode(Version([0, 0, 0]), map[], [], map[], map[], []);
    NoPackmodesAcyclic();
  }

  // ---------------------------------------------------------------------
  // check_packmodes, get_override_packmode
  // ---------------------------------------------------------------------

  /** ValueError naming the set of listed packmodes that are not defined. */
  function CheckPackmodes(pm: Packmodes, list: seq<string>): (r: Result<(), ManifestError>)
    ensures r.Ok? <==> forall i :: 0 <= i < |list| ==> Defined(pm, list[i])
    ensures r.Err? ==>
      && r.error.UndefinedPackmodes?
      && forall n :: n in r.error.names <==> n in list && !Defined(pm, n)
  {
    var undefined := set x | x in list && x !in pm && x != Server;
    if undefined == {} then
      assert forall i :: 0 <= i < |list| ==> list[i] !in undefined;
      Ok(())
    else Err(UndefinedPackmodes(undefined))
  }

  /** `keys[i]` is the first of `keys` that `ov` assigns. */
  predicate FirstAssigned(ov: map<string, string>, keys: seq<string>, i: int)
  {
    0 <= i < |keys| && keys[i] in ov && forall h :: 0 <= h < i ==> keys[h] !in ov
  }

  /** The assignment of the first key `ov` assigns. */
  function FirstKey(ov: map<string, string>, keys: seq<string>): (r: Option<string>)
    ensures r.None? <==> forall i :: 0 <= i < |keys| ==> keys[i] !in ov
    ensures r.Some? ==> exists i :: FirstAssigned(ov, keys, i) && r.value == ov[keys[i]]
  {
    if keys == [] then None
    else if keys[0] in ov then (assert FirstAssigned(ov, keys, 0); Some(ov[keys[0]]))
    else
      var r := FirstKey(ov, keys[1..]);
      if r.Some? then
        var i :| FirstAssigned(ov, keys[1..], i) && r.value == ov[keys[1..][i]];
        assert FirstAssigned(ov, keys, i + 1);
        r
      else r
  }

  /** The keys a path with this root and these components is looked up under, nearest first:
      the path itself, then its parents. */
  function Lookups(root: string, ps: seq<string>): (r: seq<string>)
    ensures |r| == |ps| + 1 && forall i :: 0 <= i < |r| ==> r[i] == Str(root, ps[..|ps| - i])
  {
    seq(|ps| + 1, i requires 0 <= i <= |ps| => Str(root, ps[..|ps| - i]))
  }

  /** Packmodes are assigned bottom-up: the nearest of the path and its ancestors that has an assignment decides. */
  function OverridePackmode(ov: map<string, string>, relpath: string): (r: Option<string>)
    ensures r.None? <==> forall k :: 0 <= k <= |Parts(relpath)| ==> Str(Root(relpath), Parts(relpath)[..k]) !in ov
    ensures r.Some? ==>
      exists k :: NearestAssigned(ov, relpath, k) && r.value == ov[Str(Root(relpath), Parts(relpath)[..k])]
  {
    var ps := Parts(relpath);
    var keys := Lookups(Root(relpath), ps);
    var r := FirstKey(ov, keys);
    if r.None? then
      assert forall k :: 0 <= k <= |ps| ==> keys[|ps| - k] == Str(Root(relpath), ps[..k]);
      r
    else
      var i :| FirstAssigned(ov, keys, i) && r.value == ov[keys[i]];
      assert NearestAssigned(ov, relpath, |ps| - i) by {
        forall k | |ps| - i < k <= |ps| ensures Str(Root(relpath), ps[..k]) !in ov {
          assert keys[|ps| - k] == Str(Root(relpath), ps[..k]);
        }
      }
      r
  }

  /** The first `k` components of the path are assigned, and no longer prefix is. */
  ghost predicate NearestAssigned(ov: map<string, string>, relpath: string, k: int)
  {
    var root, ps := Root(relpath), Parts(relpath);
    && 0 <= k <= |ps| && Str(root, ps[..k]) in ov
    && forall k' :: k < k' <= |ps| ==> Str(root, ps[..k']) !in ov
  }

  /** `get_override_packmode`: the exact key, then each parent in turn; None when nothing matches. */
  method GetOverridePackmode(ov: map<string, string>, relpath: string) returns (r: Option<string>)
    ensures r == OverridePackmode(ov, relpath)
  {
    var root, ps := Root(relpath), Parts(relpath);
    ghost var keys := Lookups(root, ps);
    var key := Str(root, ps);
    assert keys[0] == key by { assert ps[..|ps|] == ps; }
    if key in ov {
      assert FirstAssigned(ov, keys, 0);
      return Some(ov[key]);
    }
    var parents := Parents(root, ps);
    assert forall i :: 0 <= i < |parents| ==> keys[i + 1] == parents[i];
    r := None;
    for i := 0 to |parents|
      invariant forall h :: 0 <= h <= i ==> keys[h] !in ov
    {
      if parents[i] in ov {
        assert FirstAssigned(ov, keys, i + 1);
        return Some(ov[parents[i]]);
      }
    }
  }

  // ---------------------------------------------------------------------
  // get_all_dependencies
  // ---------------------------------------------------------------------

  /** Each packmode of the chain but the last is expanded: it is not "server", it is defined, and it lists the next. */
  ghost predicate DependencyChain(pm: Packmodes, p: seq<string>)
  {
    forall i :: 0 <= i < |p| - 1 ==> p[i] != Server && p[i] in pm && p[i + 1] in pm[p[i]]
  }

  /** `x` is met when expanding the selection `list`. */
  ghost predicate Reaches(pm: Packmodes, list: seq<string>, x: string)
  {
    exists p :: |p| >= 1 && p[0] in list && DependencyChain(pm, p) && p[|p| - 1] == x
  }

  /** `x` is part of what selecting `list` includes: "server" always, and everything met on the way. */
  ghost predicate Selected(pm: Packmodes, list: seq<string>, x: string)
  {
    x == Server || Reaches(pm, list, x)
  }

  /** Every packmode met, other than "server", can be expanded (no KeyError). */
  ghost predicate Expandable(pm: Packmodes, list: seq<string>)
  {
    forall x :: Reaches(pm, list, x) && x != Server ==> x in pm
  }

  /** Every expanded member lists only members. */
  ghost predicate ClosedSet(pm: Packmodes, s: set<string>)
  {
    forall x, d :: x in s && x != Server && x in pm && d in pm[x] ==> d in s
  }

  lemma ReachesListed(pm: Packmodes, list: seq<string>, x: string)
    requires x in list
    ensures Reaches(pm, list, x)
  {
    var p := [x];
    assert DependencyChain(pm, p);
  }

  lemma ReachesStep(pm: Packmodes, list: seq<string>, x: string, y: string)
    requires Reaches(pm, list, x) && x != Server && x in pm && y in pm[x]
    ensures Reaches(pm, list, y)
  {
    var p :| |p| >= 1 && p[0] in list && DependencyChain(pm, p) && p[|p| - 1] == x;
    var q := p + [y];
    assert DependencyChain(pm, q) by {
      forall i | 0 <= i < |q| - 1 ensures q[i] != Server && q[i] in pm && q[i + 1] in pm[q[i]] {
        if i < |p| - 1 { assert q[i] == p[i] && q[i + 1] == p[i + 1]; }
      }
    }
  }

  /** A chain that starts inside a closed set stays inside it. */
  lemma {:induction false} ChainInside(pm: Packmodes, p: seq<string>, s: set<string>)
    requires |p| >= 1 && p[0] in s && DependencyChain(pm, p) && ClosedSet(pm, s)
    ensures p[|p| - 1] in s
    decreases |p|
  {
    if |p| > 1 {
      var q := p[..|p| - 1];
      assert DependencyChain(pm, q) by {
        forall i | 0 <= i < |q| - 1 ensures q[i] != Server && q[i] in pm && q[i + 1] in pm[q[i]] {
          assert q[i] == p[i] && q[i + 1] == p[i + 1];
        }
      }
      ChainInside(pm, q, s);
      assert p[|p| - 2] == q[|q| - 1];
    }
  }

  /** Joining two chains where the first ends and the second starts. */
  lemma ChainJoin(pm: Packmodes, p: seq<string>, q: seq<string>)
    requires |p| >= 1 && |q| >= 1 && p[|p| - 1] == q[0]
    requires DependencyChain(pm, p) && DependencyChain(pm, q)
    ensures DependencyChain(pm, p + q[1..])
  {
    var w := p + q[1..];
    forall i | 0 <= i < |w| - 1 ensures w[i] != Server && w[i] in pm && w[i + 1] in pm[w[i]] {
      if i < |p| - 1 {
        assert w[i] == p[i] && w[i + 1] == p[i + 1];
      } else {
        var k := i - (|p| - 1);
        assert w[i] == q[k] && w[i + 1] == q[k + 1];
      }
    }
  }

  /** Selecting the selection again selects nothing new: `update_pack` passes the closure back in. */
  lemma SelectedIdempotent(pm: Packmodes, list: seq<string>, sel: seq<string>)
    requires forall x :: x in sel <==> Selected(pm, list, x)
    ensures forall x :: Selected(pm, sel, x) <==> Selected(pm, list, x)
  {
    forall x | Reaches(pm, sel, x) && x != Server ensures Reaches(pm, list, x) {
      var q :| |q| >= 1 && q[0] in sel && DependencyChain(pm, q) && q[|q| - 1] == x;
      assert q[0] != Server;
      var p :| |p| >= 1 && p[0] in list && DependencyChain(pm, p) && p[|p| - 1] == q[0];
      ChainJoin(pm, p, q);
      var w := p + q[1..];
      assert w[0] == p[0] && w[|w| - 1] == x;
    }
    forall x | Reaches(pm, list, x) ensures Reaches(pm, sel, x) {
      var p :| |p| >= 1 && p[0] in list && DependencyChain(pm, p) && p[|p| - 1] == x;
      ReachesListed(pm, list, p[0]);
    }
  }

  /** Every packmode the selection can meet. */
  ghost function Universe(pm: Packmodes, list: seq<string>): (u: set<string>)
    ensures Server in u
    ensures forall x :: x in list ==> x in u
    ensures forall k, i :: k in pm && 0 <= i < |pm[k]| ==> pm[k][i] in u
  {
    {Server} + (set x | x in list) + (set k, i | k in pm && 0 <= i < |pm[k]| :: pm[k][i])
  }

  /** The loop state of `get_all_dependencies`: sound, and every member not expanded yet is on the stack. */
  ghost predicate Worklist(pm: Packmodes, list: seq<string>, selected: set<string>, stack: seq<string>)
  {
    WorklistSound(pm, list, selected, stack) && WorklistPending(pm, list, selected, stack)
  }

  /** Everything selected or stacked belongs to the closure; what was expanded is defined. */
  ghost predicate WorklistSound(pm: Packmodes, list: seq<string>, selected: set<string>, stack: seq<string>)
  {
    && Server in selected
    && (forall x :: x in selected ==> Selected(pm, list, x))
    && (forall x :: x in stack ==> Reaches(pm, list, x))
    && (forall x :: x in selected && x != Server ==> x in pm)
  }

  /** The listed packmodes and the dependencies of expanded ones are selected or still stacked. */
  ghost predicate WorklistPending(pm: Packmodes, list: seq<string>, selected: set<string>, stack: seq<string>)
  {
    && (forall x :: x in list ==> x in selected || x in stack)
    && (forall x, d :: x in selected && x != Server && x in pm && d in pm[x] ==> d in selected || d in stack)
  }

  lemma WorklistStart(pm: Packmodes, list: seq<string>)
    ensures Worklist(pm, list, {Server}, list)
  {
    forall x | x in list ensures Reaches(pm, list, x) {
      ReachesListed(pm, list, x);
    }
  }

  /** With the stack empty, the selected set is exactly the closure, and nothing was missing. */
  lemma WorklistDone(pm: Packmodes, list: seq<string>, selected: set<string>)
    requires Worklist(pm, list, selected, [])
    ensures forall x :: x in selected <==> Selected(pm, list, x)
    ensures Expandable(pm, list)
  {
    assert ClosedSet(pm, selected);
    forall x | Reaches(pm, list, x) ensures x in selected {
      var p :| |p| >= 1 && p[0] in list && DependencyChain(pm, p) && p[|p| - 1] == x;
      ChainInside(pm, p, selected);
    }
  }

  /** The selected set and the stack stay within the packmodes the selection can meet. */
  ghost predicate Bounded(u: set<string>, selected: set<string>, stack: seq<string>)
  {
    selected <= u && forall x :: x in stack ==> x in u
  }

  /** Popping a packmode that was already selected keeps the loop state. */
  lemma PopSelected(pm: Packmodes, list: seq<string>, u: set<string>, selected: set<string>,
                    stack: seq<string>, rest: seq<string>)
    requires stack != [] && rest == stack[..|stack| - 1] && stack[|stack| - 1] in selected
    requires Worklist(pm, list, selected, stack) && Bounded(u, selected, stack)
    ensures Worklist(pm, list, selected, rest) && Bounded(u, selected, rest)
  {
    assert forall x :: x in stack ==> x in rest || x == stack[|stack| - 1];
    assert forall x :: x in rest ==> x in stack;
  }

  /** Selecting a popped packmode and pushing its dependencies keeps the loop state. */
  lemma PopExpand(pm: Packmodes, list: seq<string>, selected: set<string>,
                  stack: seq<string>, rest: seq<string>, pkm: string)
    requires stack != [] && rest == stack[..|stack| - 1] && pkm == stack[|stack| - 1]
    requires pkm !in selected && pkm in pm
    requires Worklist(pm, list, selected, stack)
    ensures Worklist(pm, list, selected + {pkm}, rest + pm[pkm])
  {
    PopExpandSound(pm, list, selected, stack, rest, pkm);
    PopExpandPending(pm, list, selected, stack, rest, pkm);
  }

  lemma PopExpandSound(pm: Packmodes, list: seq<string>, selected: set<string>,
                       stack: seq<string>, rest: seq<string>, pkm: string)
    requires stack != [] && rest == stack[..|stack| - 1] && pkm == stack[|stack| - 1]
    requires pkm !in selected && pkm in pm
    requires WorklistSound(pm, list, selected, stack)
    ensures WorklistSound(pm, list, selected + {pkm}, rest + pm[pkm])
  {
    assert forall x :: x in rest ==> x in stack;
    assert pkm != Server;
    forall d | d in rest + pm[pkm] ensures Reaches(pm, list, d) {
      if d in pm[pkm] {
        ReachesStep(pm, list, pkm, d);
      }
    }
  }

  lemma PopExpandPending(pm: Packmodes, list: seq<string>, selected: set<string>,
                         stack: seq<string>, rest: seq<string>, pkm: string)
    requires stack != [] && rest == stack[..|stack| - 1] && pkm == stack[|stack| - 1]
    requires pkm in pm
    requires WorklistPending(pm, list, selected, stack)
    ensures WorklistPending(pm, list, selected + {pkm}, rest + pm[pkm])
  {
    var next := rest + pm[pkm];
    assert forall x :: x in stack ==> x in rest || x == pkm;
    assert forall d :: d in pm[pkm] ==> d in next;
    assert forall x :: x in rest ==> x in next;
  }

  /** ... and stays within the packmodes the selection can meet, selecting one more of them. */
  lemma PopExpandBounded(pm: Packmodes, list: seq<string>, u: set<string>, selected: set<string>,
                         stack: seq<string>, rest: seq<string>, pkm: string)
    requires stack != [] && rest == stack[..|stack| - 1] && pkm == stack[|stack| - 1]
    requires pkm !in selected && pkm in pm && u == Universe(pm, list)
    requires Bounded(u, selected, stack)
    ensures Bounded(u, selected + {pkm}, rest + pm[pkm])
    ensures |u - (selected + {pkm})| < |u - selected|
  {
    var next := rest + pm[pkm];
    forall x | x in next ensures x in u {
      if x in rest {
        assert x in stack;
      } else {
        var i :| 0 <= i < |pm[pkm]| && pm[pkm][i] == x;
      }
    }
    assert u - (selected + {pkm}) < u - selected;
  }

  /** `for dep in deps: stack.append(dep)` */
  method PushAll(stack: seq<string>, deps: seq<string>) returns (r: seq<string>)
    ensures r == stack + deps
  {
    r := stack;
    for j := 0 to |deps|
      invariant r == stack + deps[..j]
    {
      r := r + [deps[j]];
      assert deps[..j + 1] == deps[..j] + [deps[j]];
    }
    assert deps[..|deps|] == deps;
  }

  /**
   * `get_all_dependencies` with the local set named apart from the
   * `packmodes` argument: checks the selection, then expands a stack of
   * packmodes, starting from {"server"}; a packmode met but not defined is
   * the KeyError `packmodes[pkm]` raises.
   */
  method GetAllDependencies(pm: Packmodes, list: seq<string>) returns (r: Result<set<string>, ManifestError>)
    ensures r.Ok? <==> CheckPackmodes(pm, list).Ok? && Expandable(pm, list)
    ensures r.Ok? ==> forall x :: x in r.value <==> Selected(pm, list, x)
    ensures r.Err? && CheckPackmodes(pm, list).Err? ==> r.error == CheckPackmodes(pm, list).error
    ensures r.Err? && CheckPackmodes(pm, list).Ok? ==>
      && r.error.MissingPackmode? && Reaches(pm, list, r.error.name)
      && r.error.name != Server && r.error.name !in pm
  {
    var check := CheckPackmodes(pm, list);
    if check.Err? {
      return Err(check.error);
    }
    ghost var u := Universe(pm, list);
    var selected := {Server};
    var stack := list;
    WorklistStart(pm, list);
    while stack != []
      invariant Worklist(pm, list, selected, stack) && Bounded(u, selected, stack)
      decreases |u - selected|, |stack|
    {
      var pkm := stack[|stack| - 1];
      var rest := stack[..|stack| - 1];
      if pkm in selected {
        PopSelected(pm, list, u, selected, stack, rest);
        stack := rest;
      } else {
        if pkm !in pm {
          return Err(MissingPackmode(pkm));
        }
        PopExpand(pm, list, selected, stack, rest, pkm);
        PopExpandBounded(pm, list, u, selected, stack, rest, pkm);
        selected := selected + {pkm};
        stack := PushAll(rest, pm[pkm]);
      }
    }
    WorklistDone(pm, list, selected);
    r := Ok(selected);
  }

  /**
   * `get_all_dependencies` as written: the local `packmodes = {"server"}`
   * hides the argument, so expanding any packmode other than "server"
   * subscripts a set (TypeError).
   */
  method GetAllDependenciesAsWritten(pm: Packmodes, list: seq<string>) returns (r: Result<set<string>, ManifestError>)
    ensures r.Ok? <==> CheckPackmodes(pm, list).Ok? && forall i :: 0 <= i < |list| ==> list[i] == Server
    ensures r.Ok? ==> r.value == {Server}
    ensures r.Err? && CheckPackmodes(pm, list).Ok? ==> r.error == NotSubscriptable
  {
    var check := CheckPackmodes(pm, list);
    if check.Err? {
      return Err(check.error);
    }
    var packmodes := {Server};
    var stack := list;
    while stack != []
      invariant packmodes == {Server}
      invariant forall i :: 0 <= i < |list| ==> list[i] == Server || list[i] in stack
      invariant forall i :: 0 <= i < |stack| ==> stack[i] in list
    {
      var pkm := stack[|stack| - 1];
      stack := stack[..|stack| - 1];
      if pkm !in packmodes {
        packmodes := packmodes + {pkm};
        return Err(NotSubscriptable);
      }
    }
    r := Ok(packmodes);
  }

  /** Selecting a defined packmode with no dependencies: the intended result includes it, the written code raises. */
  lemma ShadowingCounterexample()
    ensures CheckPackmodes(map["a" := []], ["a"]).Ok?
    ensures !(forall i :: 0 <= i < |["a"]| ==> ["a"][i] == Server)
    ensures Expandable(map["a" := []], ["a"]) && Selected(map["a" := []], ["a"], "a")
  {
    var pm: Packmodes := map["a" := []];
    ReachesListed(pm, ["a"], "a");
    assert ClosedSet(pm, {"a"});
    forall x | Reaches(pm, ["a"], x) ensures x in pm {
      var p :| |p| >= 1 && p[0] in ["a"] && DependencyChain(pm, p) && p[|p| - 1] == x;
      ChainInside(pm, p, {"a"});
    }
  }

  // ---------------------------------------------------------------------
  // get_selected_mods, get_selected_overrides
  // ---------------------------------------------------------------------

  /** The mods whose packmode is in `s`, in list order. */
  function SelectMods(mods: seq<Mod>, s: set<string>): (r: seq<Mod>)
    ensures |r| <= |mods|
    ensures forall m :: m in r <==> m in mods && m.packmode.Some? && m.packmode.value in s
  {
    if mods == [] then []
    else (if mods[0].packmode.Some? && mods[0].packmode.value in s then [mods[0]] else [])
         + SelectMods(mods[1..], s)
  }

  /** Selecting every packmode in use keeps the whole list, in order. */
  lemma {:induction false} SelectModsAll(mods: seq<Mod>, s: set<string>)
    requires forall i :: 0 <= i < |mods| ==> mods[i].packmode.Some? && mods[i].packmode.value in s
    ensures SelectMods(mods, s) == mods
  {
    if mods != [] {
      SelectModsAll(mods[1..], s);
      assert [mods[0]] + mods[1..] == mods;
    }
  }

  /**
   * `get_selected_mods`: the mods whose packmode the selection includes.
   * The closure is computed for the first mod and is the same for every
   * other; without mods it is never computed, so no error can arise.
   */
  method GetSelectedMods(m: Manifest, list: seq<string>) returns (r: Result<seq<Mod>, ManifestError>)
    requires forall i :: 0 <= i < |m.mods| ==> m.mods[i].packmode.Some?
    ensures m.mods == [] ==> r == Ok([])
    ensures m.mods != [] ==> (r.Ok? <==> CheckPackmodes(m.packmodes, list).Ok? && Expandable(m.packmodes, list))
    ensures r.Ok? ==> |r.value| <= |m.mods| && forall x :: x in r.value <==>
      x in m.mods && x.packmode.Some? && Selected(m.packmodes, list, x.packmode.value)
    ensures r.Ok? && m.mods != [] ==> exists s: set<string> ::
      (forall x :: x in s <==> Selected(m.packmodes, list, x)) && r.value == SelectMods(m.mods, s)
  {
    if m.mods == [] {
      return Ok([]);
    }
    var all := GetAllDependencies(m.packmodes, list);
    if all.Err? {
      return Err(all.error);
    }
    r := Ok(SelectMods(m.mods, all.value));
  }

  /**
   * `get_selected_overrides`: the entries of the override cache whose
   * packmode, looked up bottom-up, the selection includes; a file with no
   * packmode is never selected.
   */
  method GetSelectedOverrides(m: Manifest, list: seq<string>) returns (r: Result<map<string, string>, ManifestError>)
    ensures m.cache == map[] ==> r == Ok(map[])
    ensures m.cache != map[] ==> (r.Ok? <==> CheckPackmodes(m.packmodes, list).Ok? && Expandable(m.packmodes, list))
    ensures r.Ok? ==> forall p :: p in r.value <==>
      p in m.cache && OverridePackmode(m.overrides, p).Some?
      && Selected(m.packmodes, list, OverridePackmode(m.overrides, p).value)
    ensures r.Ok? ==> forall p :: p in r.value ==> r.value[p] == m.cache[p]
  {
    if m.cache == map[] {
      return Ok(map[]);
    }
    var all := GetAllDependencies(m.packmodes, list);
    if all.Err? {
      return Err(all.error);
    }
    var s := all.value;
    r := Ok(map p | p in m.cache && OverridePackmode(m.overrides, p).Some?
                    && OverridePackmode(m.overrides, p).value in s :: m.cache[p]);
  }
}
