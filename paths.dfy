/**
 * POSIX paths as `pathlib.PurePosixPath` sees them: a root ("", "/" or
 * "//"), the non-empty components other than ".", and `str()` that joins
 * them back with "/" (or gives "." for the empty relative path).
 */
module Paths {
  import opened Strings

  /** The components that survive normalisation: empty pieces and "." are dropped. */
  function Clean(pieces: seq<string>): (r: seq<string>)
    ensures |r| <= |pieces|
    ensures forall i :: 0 <= i < |r| ==> r[i] != "" && r[i] != "." && r[i] in pieces
  {
    if pieces == [] then []
    else (if pieces[0] == "" || pieces[0] == "." then [] else [pieces[0]]) + Clean(pieces[1..])
  }

  /** A component as `PurePosixPath.parts` gives it back for a relative path. */
  predicate IsPart(p: string)
  {
    p != "" && p != "." && '/' !in p
  }

  predicate AllParts(ps: seq<string>)
  {
    forall i :: 0 <= i < |ps| ==> IsPart(ps[i])
  }

  /** The root: two leading slashes are kept as they are, one or three and more become "/". */
  function Root(s: string): (r: string)
    ensures r == "" || r == "/" || r == "//"
  {
    if |s| >= 2 && s[0] == '/' && s[1] == '/' && (|s| == 2 || s[2] != '/') then "//"
    else if |s| >= 1 && s[0] == '/' then "/"
    else ""
  }

  /** The components of `s` after the root. */
  function Parts(s: string): (r: seq<string>)
    ensures AllParts(r)
  {
    Clean(Split(s, '/'))
  }

  /** `str()` of the path with the given root and components. */
  function Str(root: string, ps: seq<string>): string
  {
    if root == "" then (if ps == [] then "." else Join(ps, '/'))
    else root + Join(ps, '/')
  }

  /** `str(Path(s))` */
  function Normalize(s: string): string
  {
    Str(Root(s), Parts(s))
  }

  /** `str(PurePath(*parts))` for relative components. */
  function RelStr(ps: seq<string>): string
  {
    Str("", ps)
  }

  // ---------------------------------------------------------------------
  // Components survive `str()`: normalising is idempotent
  // ---------------------------------------------------------------------

  lemma {:induction false} CleanKeeps(ps: seq<string>)
    requires forall i :: 0 <= i < |ps| ==> ps[i] != "" && ps[i] != "."
    ensures Clean(ps) == ps
  {
    if ps != [] {
      CleanKeeps(ps[1..]);
      assert [ps[0]] + ps[1..] == ps;
    }
  }

  lemma {:induction false} JoinStart(ps: seq<string>)
    requires AllParts(ps) && ps != []
    ensures var j := Join(ps, '/'); |j| >= 1 && j[0] == ps[0][0]
  {
    if |ps| > 1 {
      assert Join(ps, '/') == ps[0] + ['/'] + Join(ps[1..], '/');
    }
  }

  /** Splitting the joined components gives them back. */
  lemma JoinParts(ps: seq<string>)
    requires AllParts(ps)
    ensures Parts(Join(ps, '/')) == ps
  {
    if ps == [] {
      assert Split("", '/') == [""];
    } else {
      SplitJoin(ps, '/');
      CleanKeeps(ps);
    }
  }

  /** A relative path built from components reads back as those components. */
  lemma RelStrParts(ps: seq<string>)
    requires AllParts(ps)
    ensures Root(RelStr(ps)) == "" && Parts(RelStr(ps)) == ps
  {
    if ps == [] {
      assert Split(".", '/') == ["."] by { SplitNoSep(".", '/'); }
    } else {
      JoinStart(ps);
      JoinParts(ps);
    }
  }

  lemma {:induction false} CleanEmptyFirst(rest: seq<string>)
    ensures Clean([""] + rest) == Clean(rest)
  {
    assert ([""] + rest)[1..] == rest;
  }

  /** `str(Path(str(Path(s)))) == str(Path(s))`. */
  lemma NormalizeIdempotent(s: string)
    ensures Normalize(Normalize(s)) == Normalize(s)
  {
    var root := Root(s);
    var ps := Parts(s);
    var j := Join(ps, '/');
    if root == "" {
      RelStrParts(ps);
    } else {
      JoinParts(ps);
      if ps != [] { JoinStart(ps); }
      var n := root + j;
      assert Root(n) == root;
      if root == "/" {
        assert n == "" + ['/'] + j;
        SplitCons("", '/', j);
        CleanEmptyFirst(Split(j, '/'));
      } else {
        assert n == "" + ['/'] + ("" + ['/'] + j);
        SplitCons("", '/', "" + ['/'] + j);
        SplitCons("", '/', j);
        CleanEmptyFirst(Split(j, '/'));
        CleanEmptyFirst([""] + Split(j, '/'));
      }
    }
  }

  /** The proper ancestors of a path, nearest first, as `Path.parents` lists them. */
  function Parents(root: string, ps: seq<string>): (r: seq<string>)
    ensures |r| == |ps|
    ensures forall i :: 0 <= i < |ps| ==> r[i] == Str(root, ps[..|ps| - 1 - i])
  {
    seq(|ps|, i requires 0 <= i < |ps| => Str(root, ps[..|ps| - 1 - i]))
  }
}
