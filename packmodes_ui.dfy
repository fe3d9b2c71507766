/**
 * The state behind the packmode assignment windows of
 * mc_pack_manager/ui/packmodes.py: the packmode table a user extends, the
 * mods a user assigns, and the per-file override assignments that are
 * compacted into directory entries on exit.
 *
 * The nested dictionaries of the file tree are held as one table from a
 * node's path (its components from the root) to the node's packmode and
 * weight; the children of a node are the entries one component longer.
 */
module PackmodesUI {
  import opened Wrappers
  import opened Paths
  import Pack

  // ---------------------------------------------------------------------
  // The file tree
  // ---------------------------------------------------------------------

  /** The assignment keys are files: non-empty relative component lists, none a directory holding another. */
  ghost predicate Files(keys: set<seq<string>>)
  {
    forall f :: f in keys ==> f != [] && AllParts(f) && forall g :: g in keys ==> !(f < g)
  }

  /** `{"packmode": ..., "weight": ...}` of a node. */
  datatype TreeNode = TreeNode(packmode: Option<string>, weight: Option<nat>)

  type Tree = map<seq<string>, TreeNode>

  /** The root and every directory and file on the way to a key. */
  ghost function Nodes(keys: set<seq<string>>): set<seq<string>>
  {
    {[]} + set f, k | f in keys && 0 <= k <= |f| :: f[..k]
  }

  /** The tree `_build_file_tree` builds: each file a leaf of weight 1 with its packmode, each directory unassigned. */
  ghost function FileTree(assignment: map<seq<string>, Option<string>>): Tree
  {
    map d | d in Nodes(assignment.Keys) ::
      if d in assignment then TreeNode(assignment[d], Some(1)) else TreeNode(None, None)
  }

  /** `node["children"]`: the nodes one component below `d`. */
  function Children(tree: Tree, d: seq<string>): set<seq<string>>
  {
    set c | c in tree.Keys && |c| == |d| + 1 && d < c
  }

  /** Every node at or below `c` has its weight. */
  ghost predicate Complete(tree: Tree, c: seq<string>)
  {
    forall d :: d in tree && c <= d ==> tree[d].weight.Some?
  }

  /** The weight node `c` adds to packmode `p` in its parent's tally. */
  function Part(tree: Tree, c: seq<string>, p: string): nat
  {
    if c in tree && tree[c].packmode == Some(p) && tree[c].weight.Some? then tree[c].weight.value else 0
  }

  /** The summed weight of the nodes of `cs` assigned to `p`. */
  ghost function SumOver(tree: Tree, cs: set<seq<string>>, p: string): nat
  {
    if cs == {} then 0
    else var c :| c in cs; Part(tree, c, p) + SumOver(tree, cs - {c}, p)
  }

  lemma {:induction false} SumOverRemove(tree: Tree, cs: set<seq<string>>, c: seq<string>, p: string)
    requires c in cs
    ensures SumOver(tree, cs, p) == Part(tree, c, p) + SumOver(tree, cs - {c}, p)
    decreases |cs|
  {
    var y :| y in cs && SumOver(tree, cs, p) == Part(tree, y, p) + SumOver(tree, cs - {y}, p);
    if y != c {
      SumOverRemove(tree, cs - {y}, c, p);
      SumOverRemove(tree, cs - {c}, y, p);
      assert cs - {y} - {c} == cs - {c} - {y};
    }
  }

  lemma {:induction false} SumOverFrame(tree: Tree, tree': Tree, cs: set<seq<string>>, p: string)
    requires forall c :: c in cs ==> Part(tree, c, p) == Part(tree', c, p)
    ensures SumOver(tree, cs, p) == SumOver(tree', cs, p)
    decreases |cs|
  {
    if cs != {} {
      var c :| c in cs;
      SumOverRemove(tree, cs, c, p);
      SumOverRemove(tree', cs, c, p);
      SumOverFrame(tree, tree', cs - {c}, p);
    }
  }

  /**
   * Node `d` carries a packmode of one of its children whose summed child
   * weight is the largest, and that sum as its weight.
   */
  ghost predicate Dominant(tree: Tree, d: seq<string>)
  {
    && d in tree && tree[d].packmode.Some? && tree[d].weight.Some?
    && tree[d].weight.value == SumOver(tree, Children(tree, d), tree[d].packmode.value)
    && (forall p :: SumOver(tree, Children(tree, d), p) <= tree[d].weight.value)
    && exists c :: c in Children(tree, d) && tree[c].packmode == tree[d].packmode
  }

  /** The packmodes the files are assigned to. */
  ghost function Values(assignment: map<seq<string>, Option<string>>): set<string>
  {
    set f | f in assignment && assignment[f].Some? :: assignment[f].value
  }

  // Shape of the tree built from a set of files

  lemma NodesPrefix(keys: set<seq<string>>, d: seq<string>, k: int)
    requires d in Nodes(keys) && 0 <= k <= |d|
    ensures d[..k] in Nodes(keys)
  {
    if d != [] {
      var f, j :| f in keys && 0 <= j <= |f| && d == f[..j];
      assert d[..k] == f[..k];
    }
  }

  /** Below `q`, the node `d` lies under the child of `q` on its path. */
  lemma ChildOnPath(tree: Tree, keys: set<seq<string>>, q: seq<string>, d: seq<string>)
    requires tree.Keys == Nodes(keys) && d in tree && q < d
    ensures d[..|q| + 1] in Children(tree, q) && d[..|q| + 1] <= d
  {
    NodesPrefix(keys, d, |q| + 1);
  }

  /** A file has nothing below it. */
  lemma FileHasNoChild(tree: Tree, keys: set<seq<string>>, f: seq<string>)
    requires tree.Keys == Nodes(keys) && Files(keys)
    ensures f in keys ==> forall d :: d in tree ==> !(f < d)
  {
    forall d | d in tree && f in keys ensures !(f < d) {
      if d != [] {
        var g, j :| g in keys && 0 <= j <= |g| && d == g[..j];
        assert f < d ==> f < g;
      }
    }
  }

  /** Every node other than the root that is not a file is a directory with something below it. */
  lemma DirectoryHasChild(tree: Tree, keys: set<seq<string>>, d: seq<string>)
    requires tree.Keys == Nodes(keys) && d in tree
    ensures d !in keys && d != [] ==> Children(tree, d) != {}
  {
    if d !in keys && d != [] {
      var f, j :| f in keys && 0 <= j <= |f| && d == f[..j];
      assert f[..|f|] == f;
      assert j < |f|;
      assert f[..j + 1] in Children(tree, d);
    }
  }

  /** Where `r` stands against a child `c` of `q`. */
  lemma PrefixOfChild(r: seq<string>, q: seq<string>, c: seq<string>)
    requires q < c && |c| == |q| + 1
    ensures r <= c ==> r <= q || r == c
    ensures c <= r ==> q <= r
  {
    if |r| <= |q| && r <= c {
      assert q[..|r|] == c[..|r|];
    }
  }

  /** A node without children has nothing below it. */
  lemma ChildlessIsBottom(tree: Tree, keys: set<seq<string>>, q: seq<string>)
    requires tree.Keys == Nodes(keys) && q in tree && Children(tree, q) == {}
    ensures forall d :: d in tree ==> !(q < d)
  {
    forall d | d in tree ensures !(q < d) {
      if q < d {
        ChildOnPath(tree, keys, q, d);
      }
    }
  }

  // ---------------------------------------------------------------------
  // _build_file_tree
  // ---------------------------------------------------------------------

  /** The tree after the files of `done` are inserted. */
  ghost function PartialTree(assignment: map<seq<string>, Option<string>>, done: set<seq<string>>): Tree
    requires done <= assignment.Keys
  {
    map d | d in Nodes(done) :: if d in done then TreeNode(assignment[d], Some(1)) else TreeNode(None, None)
  }

  /** `node = node["children"].setdefault(part, {...})` down the components of `f`. */
  method InsertPath(tree: Tree, f: seq<string>) returns (r: Tree)
    ensures r.Keys == tree.Keys + set k | 0 <= k <= |f| :: f[..k]
    ensures forall d :: d in r ==> r[d] == if d in tree then tree[d] else TreeNode(None, None)
  {
    r := tree;
    if [] !in r {
      r := r[[] := TreeNode(None, None)];
    }
    assert f[..0] == [];
    for i := 0 to |f|
      invariant r.Keys == tree.Keys + set k | 0 <= k <= i :: f[..k]
      invariant forall d :: d in r ==> r[d] == if d in tree then tree[d] else TreeNode(None, None)
    {
      if f[..i + 1] !in r {
        r := r[f[..i + 1] := TreeNode(None, None)];
      }
      assert (set k | 0 <= k <= i + 1 :: f[..k]) == (set k | 0 <= k <= i :: f[..k]) + {f[..i + 1]};
    }
  }

  lemma PartialTreeStep(assignment: map<seq<string>, Option<string>>, done: set<seq<string>>,
                        f: seq<string>, t: Tree)
    requires done <= assignment.Keys && f in assignment && f !in done
    requires t.Keys == PartialTree(assignment, done).Keys + set k | 0 <= k <= |f| :: f[..k]
    requires forall d :: d in t ==>
      t[d] == if d in PartialTree(assignment, done) then PartialTree(assignment, done)[d] else TreeNode(None, None)
    ensures t[f := TreeNode(assignment[f], Some(1))] == PartialTree(assignment, done + {f})
  {
    var old_ := PartialTree(assignment, done);
    var new_ := PartialTree(assignment, done + {f});
    var r := t[f := TreeNode(assignment[f], Some(1))];
    assert r.Keys == new_.Keys by {
      forall d | d in new_ ensures d in r {
        if d != [] {
          var g, j :| g in done + {f} && 0 <= j <= |g| && d == g[..j];
          if g in done {
            assert d in old_;
          }
        }
      }
      forall d | d in r ensures d in new_ {
        if d in old_ && d != [] {
          var g, j :| g in done && 0 <= j <= |g| && d == g[..j];
          assert g in done + {f};
        } else if d != [] && d !in old_ {
          var k :| 0 <= k <= |f| && d == f[..k];
        }
      }
    }
    forall d | d in r ensures r[d] == new_[d] {
      if d in done {
        assert d[..|d|] == d;
      }
      if d != f && d in old_ {
        assert t[d] == old_[d];
      }
    }
  }

  // ---------------------------------------------------------------------
  // _dfs_assign
  // ---------------------------------------------------------------------

  /** An entry of the explicit stack: a node to visit, or `(node,)` to finish once its children are done. */
  datatype Entry = Visit(path: seq<string>) | Finish(path: seq<string>)

  /** The packmodes of the nodes of `cs`. */
  ghost function Marks(tree: Tree, cs: set<seq<string>>): set<string>
  {
    set c | c in cs && c in tree && tree[c].packmode.Some? :: tree[c].packmode.value
  }

  /** `weights[child["packmode"]] += child["weight"]` over the nodes of `cs`, in any order. */
  method Tally(tree: Tree, cs: set<seq<string>>) returns (weights: map<string, nat>)
    requires forall c :: c in cs ==> c in tree && tree[c].packmode.Some? && tree[c].weight.Some?
    ensures weights.Keys == Marks(tree, cs)
    ensures forall p :: p in weights ==> weights[p] == SumOver(tree, cs, p)
    ensures forall p :: p !in weights ==> SumOver(tree, cs, p) == 0
  {
    weights := map[];
    var todo := cs;
    ghost var done := {};
    while todo != {}
      invariant todo <= cs && done == cs - todo
      invariant weights.Keys == Marks(tree, done)
      invariant forall p :: p in weights ==> weights[p] == SumOver(tree, done, p)
      invariant forall p :: p !in weights ==> SumOver(tree, done, p) == 0
      decreases |todo|
    {
      var c :| c in todo;
      var p := tree[c].packmode.value;
      ghost var w0 := weights;
      weights := weights[p := (if p in weights then weights[p] else 0) + tree[c].weight.value];
      TallyStep(tree, done, c, w0, weights);
      done := done + {c};
      todo := todo - {c};
    }
    assert done == cs;
  }

  lemma TallyStep(tree: Tree, done: set<seq<string>>, c: seq<string>, w0: map<string, nat>, w1: map<string, nat>)
    requires done <= tree.Keys && c !in done && c in tree && tree[c].packmode.Some? && tree[c].weight.Some?
    requires w0.Keys == Marks(tree, done)
    requires forall p :: p in w0 ==> w0[p] == SumOver(tree, done, p)
    requires forall p :: p !in w0 ==> SumOver(tree, done, p) == 0
    requires var p := tree[c].packmode.value;
      w1 == w0[p := (if p in w0 then w0[p] else 0) + tree[c].weight.value]
    ensures w1.Keys == Marks(tree, done + {c})
    ensures forall p :: p in w1 ==> w1[p] == SumOver(tree, done + {c}, p)
    ensures forall p :: p !in w1 ==> SumOver(tree, done + {c}, p) == 0
  {
    assert done + {c} - {c} == done;
    forall p ensures SumOver(tree, done + {c}, p) == Part(tree, c, p) + SumOver(tree, done, p) {
      SumOverRemove(tree, done + {c}, c, p);
    }
  }

  /** `max(weights.items(), key=lambda x: x[1])`: an entry of largest weight. */
  method Heaviest(weights: map<string, nat>) returns (pm: string, w: nat)
    requires weights != map[]
    ensures pm in weights && w == weights[pm]
    ensures forall p :: p in weights ==> weights[p] <= w
  {
    var keys := weights.Keys;
    pm :| pm in keys;
    w := weights[pm];
    keys := keys - {pm};
    while keys != {}
      invariant keys <= weights.Keys && pm in weights && w == weights[pm]
      invariant forall p :: p in weights && p !in keys ==> weights[p] <= w
      decreases |keys|
    {
      var k :| k in keys;
      if weights[k] > w {
        pm, w := k, weights[k];
      }
      keys := keys - {k};
    }
  }

  /**
   * The tally of `_dfs_assign` for one directory: a packmode of its
   * children with the largest summed weight, and that sum (dictionary
   * order breaks ties in the source; any maximal one is allowed here).
   */
  method FinishNode(tree: Tree, q: seq<string>) returns (pm: string, w: nat)
    requires Children(tree, q) != {}
    requires forall c :: c in Children(tree, q) ==> tree[c].packmode.Some? && tree[c].weight.Some?
    ensures w == SumOver(tree, Children(tree, q), pm)
    ensures forall p :: SumOver(tree, Children(tree, q), p) <= w
    ensures exists c :: c in Children(tree, q) && tree[c].packmode == Some(pm)
  {
    var cs := Children(tree, q);
    var weights := Tally(tree, cs);
    var c0 :| c0 in cs;
    assert tree[c0].packmode.value in weights;
    pm, w := Heaviest(weights);
    assert pm in Marks(tree, cs);
  }

  /** What `_dfs_assign` has settled so far. */
  ghost predicate TreeInv(assignment: map<seq<string>, Option<string>>, tree: Tree, expanded: set<seq<string>>)
  {
    && tree.Keys == Nodes(assignment.Keys)
    && expanded <= tree.Keys
    && LeavesInv(assignment, tree)
    && UnweighedInv(assignment, tree)
    && WeighedInv(assignment, tree, expanded)
  }

  /** The files keep their packmode and weight 1. */
  ghost predicate LeavesInv(assignment: map<seq<string>, Option<string>>, tree: Tree)
  {
    forall f :: f in assignment ==> f in tree && tree[f] == TreeNode(assignment[f], Some(1))
  }

  /** A directory not yet weighed has no packmode. */
  ghost predicate UnweighedInv(assignment: map<seq<string>, Option<string>>, tree: Tree)
  {
    forall d :: d in tree && d !in assignment && tree[d].weight.None? ==> tree[d].packmode.None?
  }

  /** A weighed directory was expanded, carries its dominant packmode, and everything below it is weighed. */
  ghost predicate WeighedInv(assignment: map<seq<string>, Option<string>>, tree: Tree, expanded: set<seq<string>>)
  {
    forall d :: d in tree && d !in assignment && tree[d].weight.Some? ==>
      d in expanded && Dominant(tree, d) && tree[d].packmode.value in Values(assignment) && Complete(tree, d)
  }

  /** No node has two entries on the stack. */
  ghost predicate Distinct(stack: seq<Entry>)
  {
    forall i, j :: 0 <= i < j < |stack| ==> stack[i].path != stack[j].path
  }

  /** A node to visit has nothing at or below it expanded or on the stack. */
  ghost predicate VisitsFresh(stack: seq<Entry>, expanded: set<seq<string>>)
  {
    forall i :: 0 <= i < |stack| && stack[i].Visit? ==>
      && (forall d :: d in expanded ==> !(stack[i].path <= d))
      && (forall j :: 0 <= j < |stack| && j != i ==> !(stack[i].path <= stack[j].path))
  }

  /** A directory to finish is expanded and unweighted, and each child is done or has an entry above it. */
  ghost predicate FinishesWait(assignment: map<seq<string>, Option<string>>, tree: Tree, stack: seq<Entry>,
                               expanded: set<seq<string>>)
  {
    forall i :: 0 <= i < |stack| && stack[i].Finish? ==>
      && stack[i].path in tree && stack[i].path !in assignment && stack[i].path in expanded
      && tree[stack[i].path].weight.None? && Children(tree, stack[i].path) != {}
      && forall c :: c in Children(tree, stack[i].path) ==>
           Complete(tree, c) || exists j :: i < j < |stack| && stack[j].path == c
  }

  ghost predicate StackInv(assignment: map<seq<string>, Option<string>>, tree: Tree, stack: seq<Entry>,
                           expanded: set<seq<string>>)
  {
    && Distinct(stack)
    && (forall i :: 0 <= i < |stack| ==> stack[i].path in tree)
    && VisitsFresh(stack, expanded)
    && FinishesWait(assignment, tree, stack, expanded)
  }

  /** Every directory still unweighted lies at or below an entry of the stack. */
  ghost predicate PendingInv(assignment: map<seq<string>, Option<string>>, tree: Tree, stack: seq<Entry>)
  {
    forall d :: d in tree && d !in assignment && Children(tree, d) != {} && tree[d].weight.None? ==>
      exists i :: 0 <= i < |stack| && stack[i].path <= d
  }

  /** The elements of `cs`, each once, in an order left open (dict and set iteration). */
  method Enumerate(cs: set<seq<string>>) returns (xs: seq<seq<string>>)
    ensures forall x :: x in xs <==> x in cs
    ensures forall j, k :: 0 <= j < k < |xs| ==> xs[j] != xs[k]
  {
    xs := [];
    var todo := cs;
    while todo != {}
      invariant todo <= cs
      invariant forall x :: x in xs <==> x in cs - todo
      invariant forall j, k :: 0 <= j < k < |xs| ==> xs[j] != xs[k]
      decreases |todo|
    {
      var c :| c in todo;
      assert c !in xs;
      xs := xs + [c];
      todo := todo - {c};
    }
  }

  /** Pushes a visit of every node of `cs`, in any order. */
  method PushVisits(stack: seq<Entry>, cs: set<seq<string>>) returns (r: seq<Entry>)
    ensures |r| >= |stack| && forall j :: 0 <= j < |stack| ==> r[j] == stack[j]
    ensures forall j :: |stack| <= j < |r| ==> r[j].Visit? && r[j].path in cs
    ensures forall j, k :: |stack| <= j < k < |r| ==> r[j].path != r[k].path
    ensures forall c :: c in cs ==> exists j :: |stack| <= j < |r| && r[j].path == c
  {
    var xs := Enumerate(cs);
    var visits := seq(|xs|, k requires 0 <= k < |xs| => Visit(xs[k]));
    r := stack + visits;
    forall c | c in cs ensures exists j :: |stack| <= j < |r| && r[j].path == c {
      var k :| 0 <= k < |xs| && xs[k] == c;
      assert r[|stack| + k] == visits[k];
    }
  }

  /** `pushed` is `rest`, then `(q,)`, then a visit of each child of `q`. */
  ghost predicate PushedAfter(tree: Tree, rest: seq<Entry>, q: seq<string>, pushed: seq<Entry>)
  {
    var n := |rest| + 1;
    && |pushed| >= n && (forall i :: 0 <= i < |rest| ==> pushed[i] == rest[i]) && pushed[|rest|] == Finish(q)
    && (forall j :: n <= j < |pushed| ==> pushed[j].Visit? && pushed[j].path in Children(tree, q))
    && (forall j, k :: n <= j < k < |pushed| ==> pushed[j].path != pushed[k].path)
    && (forall c :: c in Children(tree, q) ==> exists j :: n <= j < |pushed| && pushed[j].path == c)
  }

  lemma VisitDistinct(tree: Tree, rest: seq<Entry>, q: seq<string>, expanded: set<seq<string>>, pushed: seq<Entry>)
    requires Distinct(rest + [Visit(q)]) && VisitsFresh(rest + [Visit(q)], expanded)
    requires PushedAfter(tree, rest, q, pushed)
    ensures Distinct(pushed)
  {
    var stack := rest + [Visit(q)];
    var n := |rest| + 1;
    assert stack[|rest|] == Visit(q);
    assert forall i :: 0 <= i < |rest| ==> stack[i] == rest[i];
    forall i, j | 0 <= i < j < |pushed| ensures pushed[i].path != pushed[j].path {
      if j >= n && i < n {
        var c := pushed[j].path;
        assert q < c && |c| == |q| + 1;
        if i < |rest| {
          assert !(q <= stack[i].path);
        }
      } else if j < n {
        assert pushed[j].path == stack[j].path;
        assert pushed[i].path == stack[i].path;
      }
    }
  }

  lemma VisitFresh(tree: Tree, rest: seq<Entry>, q: seq<string>, expanded: set<seq<string>>, pushed: seq<Entry>)
    requires VisitsFresh(rest + [Visit(q)], expanded)
    requires PushedAfter(tree, rest, q, pushed)
    ensures VisitsFresh(pushed, expanded + {q})
  {
    var stack := rest + [Visit(q)];
    var n := |rest| + 1;
    var e := expanded + {q};
    assert stack[|rest|] == Visit(q);
    assert forall i :: 0 <= i < |rest| ==> stack[i] == rest[i];
    assert q <= q;
    forall i | 0 <= i < |pushed| && pushed[i].Visit?
      ensures forall d :: d in e ==> !(pushed[i].path <= d)
      ensures forall j :: 0 <= j < |pushed| && j != i ==> !(pushed[i].path <= pushed[j].path)
    {
      var r := pushed[i].path;
      if i < n {
        assert i < |rest| && stack[i] == pushed[i];
        assert !(r <= q) && !(q <= r);
        forall j | 0 <= j < |pushed| && j != i ensures !(r <= pushed[j].path) {
          if j >= n {
            PrefixOfChild(r, q, pushed[j].path);
          } else if j < |rest| {
            assert stack[j] == pushed[j];
          }
        }
      } else {
        assert q < r && |r| == |q| + 1;
        forall d | d in e ensures !(r <= d) {
          PrefixOfChild(d, q, r);
        }
        forall j | 0 <= j < |pushed| && j != i ensures !(r <= pushed[j].path) {
          PrefixOfChild(pushed[j].path, q, r);
          if j < |rest| {
            assert stack[j] == pushed[j];
            assert !(q <= stack[j].path);
          }
        }
      }
    }
  }

  lemma VisitFinishes(assignment: map<seq<string>, Option<string>>, tree: Tree, rest: seq<Entry>, q: seq<string>,
                      expanded: set<seq<string>>, pushed: seq<Entry>)
    requires FinishesWait(assignment, tree, rest + [Visit(q)], expanded)
    requires PushedAfter(tree, rest, q, pushed)
    requires q in tree && q !in assignment && tree[q].weight.None? && Children(tree, q) != {}
    ensures FinishesWait(assignment, tree, pushed, expanded + {q})
  {
    var stack := rest + [Visit(q)];
    var n := |rest| + 1;
    assert forall j :: 0 <= j < n ==> pushed[j].path == stack[j].path;
    forall i | 0 <= i < |pushed| && pushed[i].Finish?
      ensures pushed[i].path in tree && pushed[i].path !in assignment && pushed[i].path in expanded + {q}
      ensures tree[pushed[i].path].weight.None? && Children(tree, pushed[i].path) != {}
      ensures forall c :: c in Children(tree, pushed[i].path) ==>
                Complete(tree, c) || exists j :: i < j < |pushed| && pushed[j].path == c
    {
      if i < |rest| {
        assert stack[i] == pushed[i];
        forall c | c in Children(tree, pushed[i].path) && !Complete(tree, c)
          ensures exists j :: i < j < |pushed| && pushed[j].path == c
        {
          var j :| i < j < |stack| && stack[j].path == c;
          assert pushed[j].path == c;
        }
      }
    }
  }

  lemma VisitPending(assignment: map<seq<string>, Option<string>>, tree: Tree, rest: seq<Entry>, q: seq<string>,
                     pushed: seq<Entry>)
    requires tree.Keys == Nodes(assignment.Keys)
    requires PendingInv(assignment, tree, rest + [Visit(q)])
    requires PushedAfter(tree, rest, q, pushed)
    ensures PendingInv(assignment, tree, pushed)
  {
    var stack := rest + [Visit(q)];
    var n := |rest| + 1;
    forall d | d in tree && d !in assignment && Children(tree, d) != {} && tree[d].weight.None?
      ensures exists i :: 0 <= i < |pushed| && pushed[i].path <= d
    {
      var i :| 0 <= i < |stack| && stack[i].path <= d;
      if i < |rest| {
        assert pushed[i] == stack[i];
      } else if d == q {
        assert pushed[|rest|].path <= d;
      } else {
        assert stack[i] == Visit(q);
        ChildOnPath(tree, assignment.Keys, q, d);
        var c := d[..|q| + 1];
        var j :| n <= j < |pushed| && pushed[j].path == c;
      }
    }
  }

  /** The node being expanded is a directory not yet expanded, so nothing settled changes. */
  lemma VisitExpands(assignment: map<seq<string>, Option<string>>, tree: Tree, rest: seq<Entry>, q: seq<string>,
                     expanded: set<seq<string>>)
    requires Files(assignment.Keys)
    requires TreeInv(assignment, tree, expanded)
    requires VisitsFresh(rest + [Visit(q)], expanded)
    requires q in tree && Children(tree, q) != {}
    ensures q !in expanded && q !in assignment && tree[q].weight.None?
    ensures TreeInv(assignment, tree, expanded + {q})
  {
    var stack := rest + [Visit(q)];
    assert stack[|rest|] == Visit(q);
    assert q <= q;
    FileHasNoChild(tree, assignment.Keys, q);
    var c :| c in Children(tree, q);
    assert q < c;
  }

  /** Expanding a directory: `(q,)` goes where its visit was, its children above. */
  lemma VisitStep(assignment: map<seq<string>, Option<string>>, tree: Tree, rest: seq<Entry>, q: seq<string>,
                  expanded: set<seq<string>>, pushed: seq<Entry>)
    requires tree.Keys == Nodes(assignment.Keys)
    requires q in tree && q !in assignment && tree[q].weight.None? && Children(tree, q) != {}
    requires StackInv(assignment, tree, rest + [Visit(q)], expanded)
    requires PendingInv(assignment, tree, rest + [Visit(q)])
    requires PushedAfter(tree, rest, q, pushed)
    ensures StackInv(assignment, tree, pushed, expanded + {q})
    ensures PendingInv(assignment, tree, pushed)
  {
    VisitDistinct(tree, rest, q, expanded, pushed);
    VisitFresh(tree, rest, q, expanded, pushed);
    VisitFinishes(assignment, tree, rest, q, expanded, pushed);
    VisitPending(assignment, tree, rest, q, pushed);
    VisitInTree(tree, rest, q, pushed);
  }

  lemma VisitInTree(tree: Tree, rest: seq<Entry>, q: seq<string>, pushed: seq<Entry>)
    requires forall i :: 0 <= i < |rest| + 1 ==> (rest + [Visit(q)])[i].path in tree
    requires PushedAfter(tree, rest, q, pushed)
    ensures forall i :: 0 <= i < |pushed| ==> pushed[i].path in tree
  {
    var stack := rest + [Visit(q)];
    forall i | 0 <= i < |pushed| ensures pushed[i].path in tree {
      if i <= |rest| {
        assert pushed[i].path == stack[i].path;
      }
    }
  }

  /** A directory is finished only once all its children are complete, each with a packmode of the files. */
  lemma FinishChildren(assignment: map<seq<string>, Option<string>>, tree: Tree, rest: seq<Entry>, q: seq<string>,
                       expanded: set<seq<string>>)
    requires forall f :: f in assignment ==> assignment[f].Some?
    requires TreeInv(assignment, tree, expanded)
    requires FinishesWait(assignment, tree, rest + [Finish(q)], expanded)
    ensures q in tree && q !in assignment && q in expanded && tree[q] == TreeNode(None, None)
    ensures Children(tree, q) != {}
    ensures forall c :: c in Children(tree, q) ==>
      Complete(tree, c) && tree[c].packmode.Some? && tree[c].packmode.value in Values(assignment)
  {
    var stack := rest + [Finish(q)];
    assert stack[|rest|] == Finish(q);
    forall c | c in Children(tree, q)
      ensures Complete(tree, c) && tree[c].packmode.Some? && tree[c].packmode.value in Values(assignment)
    {
      assert c <= c;
      if c in assignment {
        assert assignment[c].value in Values(assignment);
      }
    }
  }

  /** Weighing a finished directory makes it dominant and complete. */
  lemma FinishSelf(assignment: map<seq<string>, Option<string>>, tree: Tree, q: seq<string>, pm: string, w: nat,
                   tree1: Tree)
    requires tree.Keys == Nodes(assignment.Keys) && q in tree
    requires forall c :: c in Children(tree, q) ==> Complete(tree, c)
    requires w == SumOver(tree, Children(tree, q), pm)
    requires forall p :: SumOver(tree, Children(tree, q), p) <= w
    requires exists c :: c in Children(tree, q) && tree[c].packmode == Some(pm)
    requires tree1 == tree[q := TreeNode(Some(pm), Some(w))]
    ensures Dominant(tree1, q) && Complete(tree1, q)
  {
    assert tree1.Keys == tree.Keys;
    assert Children(tree1, q) == Children(tree, q);
    forall p ensures SumOver(tree1, Children(tree1, q), p) == SumOver(tree, Children(tree, q), p) {
      SumOverFrame(tree, tree1, Children(tree, q), p);
    }
    var c0 :| c0 in Children(tree, q) && tree[c0].packmode == Some(pm);
    assert tree1[c0] == tree[c0];
    forall d | d in tree1 && q <= d ensures tree1[d].weight.Some? {
      if d != q {
        ChildOnPath(tree, assignment.Keys, q, d);
      }
    }
  }

  /** Weighing `q` leaves every other weighed node dominant and complete, since none lies above `q`. */
  lemma FinishOther(tree: Tree, q: seq<string>, n: TreeNode, tree1: Tree, d: seq<string>)
    requires q in tree && tree[q].weight.None? && tree1 == tree[q := n]
    requires d != q && Dominant(tree, d) && Complete(tree, d)
    ensures Dominant(tree1, d) && Complete(tree1, d)
  {
    assert tree1.Keys == tree.Keys;
    assert !(d <= q);
    assert q !in Children(tree, d);
    assert Children(tree1, d) == Children(tree, d);
    forall p ensures SumOver(tree1, Children(tree1, d), p) == SumOver(tree, Children(tree, d), p) {
      SumOverFrame(tree, tree1, Children(tree, d), p);
    }
    var c :| c in Children(tree, d) && tree[c].packmode == tree[d].packmode;
    assert tree1[c] == tree[c];
  }

  /** Weighing a finished directory keeps the tree invariant. */
  lemma FinishTree(assignment: map<seq<string>, Option<string>>, tree: Tree, q: seq<string>,
                   expanded: set<seq<string>>, pm: string, w: nat, tree1: Tree)
    requires TreeInv(assignment, tree, expanded)
    requires q in tree && q !in assignment && q in expanded && tree[q].weight.None?
    requires forall c :: c in Children(tree, q) ==>
      Complete(tree, c) && tree[c].packmode.Some? && tree[c].packmode.value in Values(assignment)
    requires w == SumOver(tree, Children(tree, q), pm)
    requires forall p :: SumOver(tree, Children(tree, q), p) <= w
    requires exists c :: c in Children(tree, q) && tree[c].packmode == Some(pm)
    requires tree1 == tree[q := TreeNode(Some(pm), Some(w))]
    ensures TreeInv(assignment, tree1, expanded)
    ensures Complete(tree1, q)
    ensures forall c :: Complete(tree, c) ==> Complete(tree1, c)
  {
    var n := TreeNode(Some(pm), Some(w));
    assert tree1.Keys == tree.Keys;
    FinishSelf(assignment, tree, q, pm, w, tree1);
    var c0 :| c0 in Children(tree, q) && tree[c0].packmode == Some(pm);
    FinishLeaves(assignment, tree, q, n, tree1);
    FinishUnweighed(assignment, tree, q, n, tree1);
    FinishWeighed(assignment, tree, q, expanded, n, tree1);
    CompleteGrows(tree, q, n, tree1);
  }

  lemma FinishLeaves(assignment: map<seq<string>, Option<string>>, tree: Tree, q: seq<string>, n: TreeNode,
                     tree1: Tree)
    requires LeavesInv(assignment, tree) && q !in assignment && tree1 == tree[q := n]
    ensures LeavesInv(assignment, tree1)
  {
    forall f | f in assignment ensures f in tree1 && tree1[f] == tree[f] {
      assert f != q;
    }
  }

  lemma FinishUnweighed(assignment: map<seq<string>, Option<string>>, tree: Tree, q: seq<string>, n: TreeNode,
                        tree1: Tree)
    requires UnweighedInv(assignment, tree) && tree1 == tree[q := n] && n.weight.Some?
    ensures UnweighedInv(assignment, tree1)
  {
    forall d | d in tree1 && d !in assignment && tree1[d].weight.None? ensures tree1[d].packmode.None? {
      assert d != q;
    }
  }

  lemma FinishWeighed(assignment: map<seq<string>, Option<string>>, tree: Tree, q: seq<string>,
                      expanded: set<seq<string>>, n: TreeNode, tree1: Tree)
    requires WeighedInv(assignment, tree, expanded)
    requires q in tree && q in expanded && tree[q].weight.None? && tree1 == tree[q := n]
    requires Dominant(tree1, q) && Complete(tree1, q) && n.packmode.Some? && n.packmode.value in Values(assignment)
    ensures WeighedInv(assignment, tree1, expanded)
  {
    forall d | d in tree1 && d !in assignment && tree1[d].weight.Some? && d != q
      ensures Dominant(tree1, d) && Complete(tree1, d)
    {
      FinishOther(tree, q, n, tree1, d);
    }
  }

  /** Giving a node a weight keeps every complete node complete. */
  lemma CompleteGrows(tree: Tree, q: seq<string>, n: TreeNode, tree1: Tree)
    requires tree1 == tree[q := n] && n.weight.Some?
    ensures forall c :: Complete(tree, c) ==> Complete(tree1, c)
  {
    forall c, d | Complete(tree, c) && d in tree1 && c <= d ensures tree1[d].weight.Some? {
      if d != q {
        assert tree1[d] == tree[d];
      }
    }
  }

  /** Popping a finished directory keeps the stack invariant. */
  lemma FinishStack(assignment: map<seq<string>, Option<string>>, tree: Tree, tree1: Tree, rest: seq<Entry>,
                    q: seq<string>, expanded: set<seq<string>>, n: TreeNode)
    requires StackInv(assignment, tree, rest + [Finish(q)], expanded)
    requires q in tree && tree1 == tree[q := n] && n.weight.Some?
    requires Complete(tree1, q) && forall c :: Complete(tree, c) ==> Complete(tree1, c)
    ensures StackInv(assignment, tree1, rest, expanded)
  {
    var stack := rest + [Finish(q)];
    assert tree1.Keys == tree.Keys;
    assert forall i :: 0 <= i < |rest| ==> stack[i] == rest[i];
    assert stack[|rest|] == Finish(q);
    forall i | 0 <= i < |rest| && rest[i].Finish?
      ensures rest[i].path in tree1 && rest[i].path !in assignment && rest[i].path in expanded
      ensures tree1[rest[i].path].weight.None? && Children(tree1, rest[i].path) != {}
      ensures forall c :: c in Children(tree1, rest[i].path) ==>
                Complete(tree1, c) || exists j :: i < j < |rest| && rest[j].path == c
    {
      var p := rest[i].path;
      assert p != q;
      assert Children(tree1, p) == Children(tree, p);
      forall c | c in Children(tree1, p) && !Complete(tree1, c)
        ensures exists j :: i < j < |rest| && rest[j].path == c
      {
        var j :| i < j < |stack| && stack[j].path == c;
        assert j != |rest|;
        assert rest[j] == stack[j];
      }
    }
  }

  /** Popping a finished directory keeps every unweighted directory under the stack. */
  lemma FinishPending(assignment: map<seq<string>, Option<string>>, tree: Tree, tree1: Tree, rest: seq<Entry>,
                      q: seq<string>, n: TreeNode)
    requires PendingInv(assignment, tree, rest + [Finish(q)])
    requires q in tree && tree1 == tree[q := n] && n.weight.Some? && Complete(tree1, q)
    ensures PendingInv(assignment, tree1, rest)
  {
    var stack := rest + [Finish(q)];
    assert tree1.Keys == tree.Keys;
    assert stack[|rest|] == Finish(q);
    forall d | d in tree1 && d !in assignment && Children(tree1, d) != {} && tree1[d].weight.None?
      ensures exists i :: 0 <= i < |rest| && rest[i].path <= d
    {
      assert d != q;
      assert Children(tree1, d) == Children(tree, d);
      var i :| 0 <= i < |stack| && stack[i].path <= d;
      assert i != |rest|;
      assert rest[i] == stack[i];
    }
  }

  /** A node visited without children is a file (or the root of an empty tree): it is complete already. */
  lemma LeafComplete(assignment: map<seq<string>, Option<string>>, tree: Tree, q: seq<string>)
    requires tree.Keys == Nodes(assignment.Keys)
    requires forall f :: f in assignment ==> f in tree && tree[f].weight.Some?
    requires q in tree && Children(tree, q) == {}
    ensures forall d :: d in tree ==> !(q < d)
    ensures q != [] ==> Complete(tree, q)
  {
    ChildlessIsBottom(tree, assignment.Keys, q);
    DirectoryHasChild(tree, assignment.Keys, q);
    if q != [] {
      assert q in assignment;
      forall d | d in tree && q <= d ensures tree[d].weight.Some? {
        assert d == q;
      }
    }
  }

  /** Popping a visit of a node without children keeps the stack invariants. */
  lemma LeafStep(assignment: map<seq<string>, Option<string>>, tree: Tree, rest: seq<Entry>, q: seq<string>,
                 expanded: set<seq<string>>)
    requires TreeInv(assignment, tree, expanded)
    requires StackInv(assignment, tree, rest + [Visit(q)], expanded)
    requires PendingInv(assignment, tree, rest + [Visit(q)])
    requires q in tree && Children(tree, q) == {}
    ensures StackInv(assignment, tree, rest, expanded)
    ensures PendingInv(assignment, tree, rest)
  {
    var stack := rest + [Visit(q)];
    LeafComplete(assignment, tree, q);
    assert forall i :: 0 <= i < |rest| ==> stack[i] == rest[i];
    assert stack[|rest|] == Visit(q);
    forall i | 0 <= i < |rest| && rest[i].Finish?
      ensures forall c :: c in Children(tree, rest[i].path) ==>
                Complete(tree, c) || exists j :: i < j < |rest| && rest[j].path == c
    {
      forall c | c in Children(tree, rest[i].path) && !Complete(tree, c)
        ensures exists j :: i < j < |rest| && rest[j].path == c
      {
        var j :| i < j < |stack| && stack[j].path == c;
        assert j != |rest|;
        assert rest[j] == stack[j];
      }
    }
    forall d | d in tree && d !in assignment && Children(tree, d) != {} && tree[d].weight.None?
      ensures exists i :: 0 <= i < |rest| && rest[i].path <= d
    {
      var i :| 0 <= i < |stack| && stack[i].path <= d;
      assert i != |rest|;
      assert rest[i] == stack[i];
    }
  }

  /** The tree just built, with only the root on the stack, meets the invariants. */
  lemma InitialInv(assignment: map<seq<string>, Option<string>>, tree: Tree)
    requires tree == FileTree(assignment)
    ensures TreeInv(assignment, tree, {})
    ensures StackInv(assignment, tree, [Visit([])], {})
    ensures PendingInv(assignment, tree, [Visit([])])
  {
    forall f | f in assignment ensures f in tree {
      assert f[..|f|] == f;
    }
    var s := [Visit([])];
    forall d | d in tree ensures exists i :: 0 <= i < |s| && s[i].path <= d {
      assert s[0].path <= d;
    }
    assert [] in tree;
    assert Distinct(s);
    assert VisitsFresh(s, {});
    assert FinishesWait(assignment, tree, s, {});
  }

  /** `stack.pop()`: the top entry, and the stack it leaves below it. */
  method Pop(stack: seq<Entry>) returns (rest: seq<Entry>, top: Entry)
    requires stack != []
    ensures top == stack[|stack| - 1] && stack == rest + [top]
  {
    rest, top := stack[..|stack| - 1], stack[|stack| - 1];
  }

  /** Weighs the directory `q` popped as `(q,)`: the finish branch of `_dfs_assign`. */
  method Weigh(tree: Tree, rest: seq<Entry>, q: seq<string>, ghost assignment: map<seq<string>, Option<string>>,
               ghost expanded: set<seq<string>>) returns (tree1: Tree)
    requires forall f :: f in assignment ==> assignment[f].Some?
    requires TreeInv(assignment, tree, expanded)
    requires StackInv(assignment, tree, rest + [Finish(q)], expanded)
    requires PendingInv(assignment, tree, rest + [Finish(q)])
    ensures tree1.Keys == tree.Keys
    ensures q in tree && tree1 == tree[q := tree1[q]] && Dominant(tree1, q)
    ensures TreeInv(assignment, tree1, expanded)
    ensures StackInv(assignment, tree1, rest, expanded)
    ensures PendingInv(assignment, tree1, rest)
  {
    FinishChildren(assignment, tree, rest, q, expanded);
    var pm, w := FinishNode(tree, q);
    var n := TreeNode(Some(pm), Some(w));
    tree1 := tree[q := n];
    FinishTree(assignment, tree, q, expanded, pm, w, tree1);
    FinishStack(assignment, tree, tree1, rest, q, expanded, n);
    FinishPending(assignment, tree, tree1, rest, q, n);
  }

  /** Schedules `(q,)` and then a visit of each child of `q`: the expand branch of `_dfs_assign`. */
  method Expand(tree: Tree, rest: seq<Entry>, q: seq<string>, ghost assignment: map<seq<string>, Option<string>>,
                ghost expanded: set<seq<string>>) returns (pushed: seq<Entry>)
    requires Files(assignment.Keys)
    requires TreeInv(assignment, tree, expanded)
    requires StackInv(assignment, tree, rest + [Visit(q)], expanded)
    requires PendingInv(assignment, tree, rest + [Visit(q)])
    requires q in tree && Children(tree, q) != {}
    ensures q !in expanded && PushedAfter(tree, rest, q, pushed)
    ensures TreeInv(assignment, tree, expanded + {q})
    ensures StackInv(assignment, tree, pushed, expanded + {q})
    ensures PendingInv(assignment, tree, pushed)
  {
    VisitExpands(assignment, tree, rest, q, expanded);
    pushed := PushVisits(rest + [Finish(q)], Children(tree, q));
    assert PushedAfter(tree, rest, q, pushed);
    VisitStep(assignment, tree, rest, q, expanded, pushed);
  }

  /** Expanding one more node brings the loop closer to its end. */
  lemma Shrinks(keys: set<seq<string>>, expanded: set<seq<string>>, q: seq<string>)
    requires q in keys && q !in expanded
    ensures |keys - (expanded + {q})| < |keys - expanded|
  {
    assert keys - (expanded + {q}) == (keys - expanded) - {q};
  }

  /** Once the stack is empty, every directory with something below it is weighed. */
  lemma DfsDone(assignment: map<seq<string>, Option<string>>, tree: Tree, expanded: set<seq<string>>)
    requires TreeInv(assignment, tree, expanded)
    requires PendingInv(assignment, tree, [])
    ensures forall f :: f in assignment ==> f in tree && tree[f] == TreeNode(assignment[f], Some(1))
    ensures forall d :: d in tree && d !in assignment && Children(tree, d) != {} ==>
      Dominant(tree, d) && tree[d].packmode.value in Values(assignment)
    ensures forall d :: d in tree && d !in assignment && Children(tree, d) == {} ==> tree[d] == TreeNode(None, None)
  {
  }

  /**
   * `_dfs_assign`: every directory with something below it gets a packmode
   * its children carry with the largest summed weight, and that weight.
   */
  method DfsAssign(tree0: Tree, ghost assignment: map<seq<string>, Option<string>>) returns (tree: Tree)
    requires Files(assignment.Keys)
    requires forall f :: f in assignment ==> assignment[f].Some?
    requires tree0 == FileTree(assignment)
    ensures tree.Keys == tree0.Keys
    ensures forall f :: f in assignment ==> f in tree && tree[f] == TreeNode(assignment[f], Some(1))
    ensures forall d :: d in tree && d !in assignment && Children(tree, d) != {} ==>
      Dominant(tree, d) && tree[d].packmode.value in Values(assignment)
    ensures forall d :: d in tree && d !in assignment && Children(tree, d) == {} ==> tree[d] == TreeNode(None, None)
  {
    tree := tree0;
    var stack := [Visit([])];
    ghost var expanded: set<seq<string>> := {};
    InitialInv(assignment, tree);
    while stack != []
      invariant tree.Keys == tree0.Keys
      invariant TreeInv(assignment, tree, expanded)
      invariant StackInv(assignment, tree, stack, expanded)
      invariant PendingInv(assignment, tree, stack)
      decreases |tree.Keys - expanded|, |stack|
    {
      var rest, e := Pop(stack);
      var q := e.path;
      if e.Finish? && tree[q].packmode.None? {
        tree := Weigh(tree, rest, q, assignment, expanded);
        stack := rest;
      } else if Children(tree, q) != {} {
        assert e.Visit?;
        stack := Expand(tree, rest, q, assignment, expanded);
        Shrinks(tree.Keys, expanded, q);
        expanded := expanded + {q};
      } else {
        assert e.Visit?;
        LeafStep(assignment, tree, rest, q, expanded);
        stack := rest;
      }
    }
    DfsDone(assignment, tree, expanded);
  }

  // ---------------------------------------------------------------------
  // _write_overrides
  // ---------------------------------------------------------------------

  /** Python truthiness of a packmode: present and not the empty string. */
  predicate Truthy(pm: Option<string>)
  {
    pm.Some? && pm.value != ""
  }

  /**
   * `_write_overrides` writes node `d`: a top-level node always, a deeper
   * one when its parent's packmode is truthy and differs from its own.
   */
  ghost predicate Emits(tree: Tree, d: seq<string>)
  {
    || |d| == 1
    || (|d| > 1 && d[..|d| - 1] in tree && d in tree
        && Truthy(tree[d[..|d| - 1]].packmode) && tree[d].packmode != tree[d[..|d| - 1]].packmode)
  }

  /** The nodes at or below `d` that are written. */
  ghost function EmittedBelow(tree: Tree, d: seq<string>): set<seq<string>>
  {
    set e | e in tree && d <= e && Emits(tree, e)
  }

  /** The nodes written below any node of `ks`. */
  ghost function EmittedUnder(tree: Tree, ks: seq<seq<string>>): set<seq<string>>
  {
    set e | e in tree && Emits(tree, e) && exists j :: 0 <= j < |ks| && ks[j] <= e
  }

  /** A tree `_write_overrides` can walk: closed under prefixes, of components, every node but the root with a packmode. */
  ghost predicate Shaped(tree: Tree, bound: nat)
  {
    && [] in tree
    && (forall e, k :: e in tree && 0 <= k <= |e| ==> e[..k] in tree)
    && (forall e :: e in tree ==> AllParts(e) && |e| <= bound && (e != [] ==> tree[e].packmode.Some?))
  }

  lemma AllRelStrParts(ds: set<seq<string>>)
    requires forall d :: d in ds ==> AllParts(d)
    ensures forall d :: d in ds ==> Parts(RelStr(d)) == d
  {
    forall d | d in ds ensures Parts(RelStr(d)) == d {
      RelStrParts(d);
    }
  }

  /** Every node is a list of components, and every node but the root has a packmode. */
  ghost predicate Labelled(tree: Tree)
  {
    forall e :: e in tree ==> AllParts(e) && (e != [] ==> tree[e].packmode.Some?)
  }

  /** `str(PurePath(*parts))` of each node of `ds`. */
  ghost function Image(ds: set<seq<string>>): set<string>
  {
    set d | d in ds :: RelStr(d)
  }

  /** Every node but the root, keyed by its relative path, with its packmode. */
  ghost function Labels(tree: Tree): (r: map<string, string>)
    requires Labelled(tree)
    ensures forall d :: d in tree && d != [] ==> RelStr(d) in r && r[RelStr(d)] == tree[d].packmode.value
    ensures forall k :: k in r ==> Parts(k) in tree && Parts(k) != [] && k == RelStr(Parts(k))
  {
    AllRelStrParts(tree.Keys);
    map k | k in Image(tree.Keys - {[]}) :: tree[Parts(k)].packmode.value
  }

  function Restrict(m: map<string, string>, ks: set<string>): (r: map<string, string>)
    requires ks <= m.Keys
    ensures r.Keys == ks && forall k :: k in r ==> r[k] == m[k]
  {
    map k | k in ks :: m[k]
  }

  lemma RestrictUnion(m: map<string, string>, x: set<string>, y: set<string>)
    requires x + y <= m.Keys
    ensures Restrict(m, x + y) == Restrict(m, x) + Restrict(m, y)
  {
  }

  /** The children of `d` split what is written below it. */
  lemma EmittedSplit(tree: Tree, bound: nat, d: seq<string>, kids: seq<seq<string>>)
    requires Shaped(tree, bound) && d in tree
    requires forall c :: c in kids <==> c in Children(tree, d)
    ensures EmittedBelow(tree, d) == (if Emits(tree, d) then {d} else {}) + EmittedUnder(tree, kids)
  {
    var own := if Emits(tree, d) then {d} else {};
    forall e | e in EmittedBelow(tree, d) && e != d ensures e in EmittedUnder(tree, kids) {
      var c := e[..|d| + 1];
      assert c in Children(tree, d);
      var j :| 0 <= j < |kids| && kids[j] == c;
      assert kids[j] <= e;
    }
    forall e | e in EmittedUnder(tree, kids) ensures e in EmittedBelow(tree, d) {
      var j :| 0 <= j < |kids| && kids[j] <= e;
      assert kids[j] in Children(tree, d);
    }
  }

  lemma EmittedUnderStep(tree: Tree, kids: seq<seq<string>>, i: nat)
    requires i < |kids|
    ensures EmittedUnder(tree, kids[..i + 1]) == EmittedUnder(tree, kids[..i]) + EmittedBelow(tree, kids[i])
  {
    forall e | e in EmittedUnder(tree, kids[..i + 1]) ensures e in EmittedUnder(tree, kids[..i]) + EmittedBelow(tree, kids[i]) {
      var j :| 0 <= j < i + 1 && kids[..i + 1][j] <= e;
      if j < i {
        assert kids[..i][j] <= e;
      }
    }
    forall e | e in EmittedUnder(tree, kids[..i]) ensures e in EmittedUnder(tree, kids[..i + 1]) {
      var j :| 0 <= j < i && kids[..i][j] <= e;
      assert kids[..i + 1][j] <= e;
    }
    forall e | e in EmittedBelow(tree, kids[i]) ensures e in EmittedUnder(tree, kids[..i + 1]) {
      assert kids[..i + 1][i] <= e;
    }
  }

  lemma WrittenBelowOk(tree: Tree, bound: nat, ds: set<seq<string>>)
    requires Shaped(tree, bound)
    requires forall e :: e in ds ==> e in tree && Emits(tree, e)
    ensures Labelled(tree) && ds <= tree.Keys - {[]}
  {
    forall e | e in ds ensures e != [] {
    }
  }

  /** The largest number of components among `keys`. */
  ghost function MaxLen(keys: set<seq<string>>): (r: nat)
    ensures forall e :: e in keys ==> |e| <= r
    decreases |keys|
  {
    if keys == {} then 0
    else
      var e :| e in keys;
      var m := MaxLen(keys - {e});
      if |e| > m then |e| else m
  }

  /** The overrides written from a compacted tree. */
  ghost function Compacted(tree: Tree): (r: map<string, string>)
    requires Shaped(tree, MaxLen(tree.Keys))
    ensures forall k :: k in r ==> Parts(k) in tree && Emits(tree, Parts(k)) && Some(r[k]) == tree[Parts(k)].packmode
  {
    var ds := EmittedBelow(tree, []);
    WrittenBelowOk(tree, MaxLen(tree.Keys), ds);
    AllRelStrParts(ds);
    var l := Labels(tree);
    assert Image(ds) <= l.Keys;
    Restrict(l, Image(ds))
  }

  lemma CompactedIs(tree: Tree)
    requires Shaped(tree, MaxLen(tree.Keys))
    ensures Labelled(tree) && Image(EmittedBelow(tree, [])) <= Labels(tree).Keys
    ensures Compacted(tree) == Restrict(Labels(tree), Image(EmittedBelow(tree, [])))
  {
    WrittenBelowOk(tree, MaxLen(tree.Keys), EmittedBelow(tree, []));
  }


  // ---------------------------------------------------------------------
  // The compacted overrides give every file its packmode back
  // ---------------------------------------------------------------------

  /** What `_dfs_assign` leaves: files as assigned, each directory with a packmode of the files. */
  ghost predicate Assigned(assignment: map<seq<string>, Option<string>>, tree: Tree)
  {
    && Files(assignment.Keys)
    && (forall f :: f in assignment ==> assignment[f].Some? && assignment[f].value != "")
    && tree.Keys == Nodes(assignment.Keys)
    && (forall f :: f in assignment ==> f in tree && tree[f] == TreeNode(assignment[f], Some(1)))
    && (forall d :: d in tree && d !in assignment && Children(tree, d) != {} ==>
          tree[d].packmode.Some? && tree[d].packmode.value in Values(assignment))
  }

  /** Every node but the root carries a truthy packmode. */
  lemma AssignedTruthy(assignment: map<seq<string>, Option<string>>, tree: Tree)
    requires Assigned(assignment, tree)
    ensures forall d :: d in tree && d != [] ==> Truthy(tree[d].packmode)
  {
    ValuesNonEmpty(assignment);
    forall d | d in tree && d != [] ensures Truthy(tree[d].packmode) {
      DirectoryHasChild(tree, assignment.Keys, d);
    }
  }

  lemma ValuesNonEmpty(assignment: map<seq<string>, Option<string>>)
    requires forall f :: f in assignment ==> assignment[f].Some? && assignment[f].value != ""
    ensures forall v :: v in Values(assignment) ==> v != ""
  {
    forall v | v in Values(assignment) ensures v != "" {
      var f :| f in assignment && assignment[f].Some? && assignment[f].value == v;
    }
  }

  lemma AssignedShaped(assignment: map<seq<string>, Option<string>>, tree: Tree)
    requires Assigned(assignment, tree)
    ensures Shaped(tree, MaxLen(tree.Keys))
  {
    AssignedTruthy(assignment, tree);
    forall e, k | e in tree && 0 <= k <= |e| ensures e[..k] in tree {
      NodesPrefix(assignment.Keys, e, k);
    }
    forall e | e in tree ensures AllParts(e) {
      if e != [] {
        var f, j :| f in assignment && 0 <= j <= |f| && e == f[..j];
      }
    }
  }

  /** Below the nearest written prefix `f[..k]`, each node repeats its parent's packmode. */
  lemma {:induction false} Inherited(tree: Tree, f: seq<string>, k: nat, m: nat)
    requires 1 <= k <= m <= |f| && f in tree
    requires forall j :: 0 <= j <= |f| ==> f[..j] in tree
    requires forall j :: 1 <= j <= |f| ==> Truthy(tree[f[..j]].packmode)
    requires forall j :: k < j <= |f| ==> !Emits(tree, f[..j])
    ensures tree[f[..m]].packmode == tree[f[..k]].packmode
    decreases m
  {
    if m > k {
      Inherited(tree, f, k, m - 1);
      var d := f[..m];
      assert d[..|d| - 1] == f[..m - 1];
      assert !Emits(tree, d);
    }
  }

  /** Along the path of a node, a key of the compacted overrides is exactly a written prefix. */
  lemma PathKeys(tree: Tree, f: seq<string>)
    requires Shaped(tree, MaxLen(tree.Keys)) && f in tree
    ensures Parts(RelStr(f)) == f && Root(RelStr(f)) == ""
    ensures forall j :: 0 <= j <= |f| ==> f[..j] in tree
    ensures forall j :: 0 <= j <= |f| ==>
      && Parts(Str(Root(RelStr(f)), Parts(RelStr(f))[..j])) == f[..j]
      && (Str(Root(RelStr(f)), Parts(RelStr(f))[..j]) in Compacted(tree) <==> Emits(tree, f[..j]))
  {
    var ov := Compacted(tree);
    var em := EmittedBelow(tree, []);
    var p := RelStr(f);
    CompactedIs(tree);
    RelStrParts(f);
    forall j | 0 <= j <= |f|
      ensures f[..j] in tree && Parts(Str(Root(p), Parts(p)[..j])) == f[..j]
      ensures Str(Root(p), Parts(p)[..j]) in ov <==> Emits(tree, f[..j])
    {
      var d := f[..j];
      assert d in tree && [] <= d;
      assert Str(Root(p), Parts(p)[..j]) == RelStr(d);
      RelStrParts(d);
      assert d in em <==> Emits(tree, d);
      if d in em {
        assert RelStr(d) in Image(em);
      }
    }
  }

  /** `get_override_packmode` on the compacted overrides stops at the deepest written prefix of the path. */
  lemma NearestWritten(tree: Tree, f: seq<string>)
    requires Shaped(tree, MaxLen(tree.Keys)) && f in tree && f != []
    ensures forall j :: 0 <= j <= |f| ==> f[..j] in tree
    ensures exists k :: 1 <= k <= |f| && Pack.OverridePackmode(Compacted(tree), RelStr(f)) == tree[f[..k]].packmode
                        && forall j :: k < j <= |f| ==> !Emits(tree, f[..j])
  {
    PathKeys(tree, f);
    var ov := Compacted(tree);
    var p := RelStr(f);
    assert Emits(tree, f[..1]);
    var r := Pack.OverridePackmode(ov, p);
    var k :| Pack.NearestAssigned(ov, p, k) && r.value == ov[Str(Root(p), Parts(p)[..k])];
    assert Emits(tree, f[..k]);
  }

  /** `get_override_packmode` on the compacted overrides finds the node's own packmode. */
  lemma FileLossless(tree: Tree, f: seq<string>)
    requires Shaped(tree, MaxLen(tree.Keys)) && f in tree && f != []
    requires forall d :: d in tree && d != [] ==> Truthy(tree[d].packmode)
    ensures Pack.OverridePackmode(Compacted(tree), RelStr(f)) == tree[f].packmode
  {
    NearestWritten(tree, f);
    var k :| 1 <= k <= |f| && Pack.OverridePackmode(Compacted(tree), RelStr(f)) == tree[f[..k]].packmode
             && forall j :: k < j <= |f| ==> !Emits(tree, f[..j]);
    Inherited(tree, f, k, |f|);
    assert f[..|f|] == f;
  }

  /** Every file of the assignment reads its packmode back from the compacted overrides. */
  lemma CompactionLossless(assignment: map<seq<string>, Option<string>>, tree: Tree)
    requires Assigned(assignment, tree)
    ensures Shaped(tree, MaxLen(tree.Keys))
    ensures forall f :: f in assignment ==> Pack.OverridePackmode(Compacted(tree), RelStr(f)) == assignment[f]
  {
    AssignedShaped(assignment, tree);
    AssignedTruthy(assignment, tree);
    forall f | f in assignment ensures Pack.OverridePackmode(Compacted(tree), RelStr(f)) == assignment[f] {
      FileLossless(tree, f);
    }
  }

  /** The compacted overrides only name packmodes some file was assigned. */
  lemma CompactedValues(assignment: map<seq<string>, Option<string>>, tree: Tree)
    requires Assigned(assignment, tree)
    ensures Shaped(tree, MaxLen(tree.Keys))
    ensures forall k :: k in Compacted(tree) ==> Compacted(tree)[k] in Values(assignment)
  {
    AssignedShaped(assignment, tree);
    var ov := Compacted(tree);
    forall k | k in ov ensures ov[k] in Values(assignment) {
      var d := Parts(k);
      if d !in assignment {
        DirectoryHasChild(tree, assignment.Keys, d);
      }
    }
  }

  /** The overrides `on_exit` writes give back every file's packmode and name no other packmode. */
  lemma ExitOverrides(assignment: map<seq<string>, Option<string>>, tree: Tree, ov: map<string, string>)
    requires Assigned(assignment, tree)
    requires Shaped(tree, MaxLen(tree.Keys)) && ov == Compacted(tree)
    ensures forall f :: f in assignment ==> Pack.OverridePackmode(ov, RelStr(f)) == assignment[f]
    ensures forall k :: k in ov ==> ov[k] in Values(assignment)
    ensures ExitState(assignment, tree, ov)
  {
    CompactionLossless(assignment, tree);
    CompactedValues(assignment, tree);
  }

  /**
   * What `on_exit` leaves: the overrides are the compaction of a fully
   * assigned tree of the files, every file looks its packmode up again,
   * and only assigned packmodes are written.
   */
  ghost predicate ExitState(assignment: map<seq<string>, Option<string>>, tree: Tree, ov: map<string, string>)
  {
    && Assigned(assignment, tree) && Shaped(tree, MaxLen(tree.Keys)) && ov == Compacted(tree)
    && (forall f :: f in assignment ==> Pack.OverridePackmode(ov, RelStr(f)) == assignment[f])
    && (forall k :: k in ov ==> ov[k] in Values(assignment))
  }

  // ---------------------------------------------------------------------
  // Assigning packmodes to selections
  // ---------------------------------------------------------------------

  /** The map after each key listed in `selection` is set to `v`. */
  function Reassigned(m: map<seq<string>, Option<string>>, selection: seq<seq<string>>, v: Option<string>)
    : (r: map<seq<string>, Option<string>>)
    ensures r.Keys == m.Keys
    ensures forall k :: k in m && k in selection ==> r[k] == v
    ensures forall k :: k in m && k !in selection ==> r[k] == m[k]
  {
    map k | k in m :: if k in selection then v else m[k]
  }

  /** Unassigning what was just assigned from the unassigned list gives the map back. */
  lemma AssignThenUnassign(m: map<seq<string>, Option<string>>, selection: seq<seq<string>>, pm: string)
    requires forall k :: k in m && k in selection ==> m[k].None?
    ensures Reassigned(Reassigned(m, selection, Some(pm)), selection, None) == m
  {
  }

  /** A packmode read from overrides whose values are all non-empty is non-empty. */
  lemma LookupNonEmpty(overrides: map<string, string>, p: string)
    requires forall q :: q in overrides ==> overrides[q] != ""
    ensures var r := Pack.OverridePackmode(overrides, p); r.Some? ==> r.value != ""
  {
    var r := Pack.OverridePackmode(overrides, p);
    if r.Some? {
      var j :| Pack.NearestAssigned(overrides, p, j) && r.value == overrides[Str(Root(p), Parts(p)[..j])];
    }
  }

  /** The initial entry of a cached file: unassigned when newly added, else what the overrides give it. */
  function InitialPackmode(overrides: map<string, string>, added: set<string>, filepath: string): (r: Option<string>)
    ensures filepath in added ==> r.None?
    ensures filepath !in added ==> r == Pack.OverridePackmode(overrides, filepath)
  {
    if filepath in added then None else Pack.OverridePackmode(overrides, filepath)
  }

  /** `for parts in selection: override_packmode_map[parts] = v`, over the files listed. */
  method SetEach(m: map<seq<string>, Option<string>>, selection: seq<seq<string>>, v: Option<string>)
    returns (r: map<seq<string>, Option<string>>)
    requires forall i :: 0 <= i < |selection| ==> selection[i] in m
    ensures r == Reassigned(m, selection, v)
  {
    r := m;
    for i := 0 to |selection|
      invariant r.Keys == m.Keys
      invariant forall k :: k in m ==> r[k] == if k in selection[..i] then v else m[k]
    {
      r := r[selection[i] := v];
      assert selection[..i + 1] == selection[..i] + [selection[i]];
    }
    assert selection[..|selection|] == selection;
  }

  /** `labels` holds, under its relative path, the packmode of every node but the root. */
  ghost predicate LabelsOf(tree: Tree, labels: map<string, string>)
  {
    forall d :: d in tree && d != [] ==>
      tree[d].packmode.Some? && RelStr(d) in labels && labels[RelStr(d)] == tree[d].packmode.value
  }

  lemma ImageIn(tree: Tree, labels: map<string, string>, ds: set<seq<string>>)
    requires LabelsOf(tree, labels) && ds <= tree.Keys - {[]}
    ensures Image(ds) <= labels.Keys
  {
    forall k | k in Image(ds) ensures k in labels {
      var d :| d in ds && RelStr(d) == k;
    }
  }

  /** What `_write_overrides` writes for node `d` itself. */
  lemma WriteOwn(tree: Tree, labels: map<string, string>, d: seq<string>, parentPm: Option<string>,
                 base: map<string, string>, after: map<string, string>, kids: seq<seq<string>>)
    requires LabelsOf(tree, labels) && d in tree && (d != [] ==> d[..|d| - 1] in tree)
    requires parentPm == if d == [] then None else tree[d[..|d| - 1]].packmode
    requires after == if |d| == 1 || (Truthy(parentPm) && tree[d].packmode != parentPm)
                      then base[RelStr(d) := tree[d].packmode.value] else base
    ensures var own := if Emits(tree, d) then {d} else {};
      own + EmittedUnder(tree, kids[..0]) <= tree.Keys - {[]} &&
      Image(own + EmittedUnder(tree, kids[..0])) <= labels.Keys &&
      after == base + Restrict(labels, Image(own + EmittedUnder(tree, kids[..0])))
  {
    var own := if Emits(tree, d) then {d} else {};
    assert EmittedUnder(tree, kids[..0]) == {};
    assert own + {} == own;
    if Emits(tree, d) {
      assert Image(own) == {RelStr(d)};
      assert Restrict(labels, Image(own)) == map[RelStr(d) := tree[d].packmode.value];
    } else {
      assert Image(own) == {};
      assert Restrict(labels, Image(own)) == map[];
    }
  }

  lemma ImageUnion(a: set<seq<string>>, b: set<seq<string>>)
    ensures Image(a + b) == Image(a) + Image(b)
  {
  }

  /** Writing `x` then `y` over `base` is writing `x + y` at once. */
  lemma RestrictJoin(m: map<string, string>, base: map<string, string>, x: set<string>, y: set<string>,
                     before: map<string, string>, after: map<string, string>)
    requires x + y <= m.Keys
    requires before == base + Restrict(m, x) && after == before + Restrict(m, y)
    ensures after == base + Restrict(m, x + y)
  {
    RestrictUnion(m, x, y);
  }

  /** One child written: its nodes join what is written. */
  lemma WriteStep(tree: Tree, labels: map<string, string>, base: map<string, string>, own: set<seq<string>>,
                  kids: seq<seq<string>>, i: nat, before: map<string, string>, after: map<string, string>)
    requires i < |kids|
    requires Image(own + EmittedUnder(tree, kids[..i])) <= labels.Keys
    requires Image(EmittedBelow(tree, kids[i])) <= labels.Keys
    requires before == base + Restrict(labels, Image(own + EmittedUnder(tree, kids[..i])))
    requires after == before + Restrict(labels, Image(EmittedBelow(tree, kids[i])))
    ensures Image(own + EmittedUnder(tree, kids[..i + 1])) <= labels.Keys
    ensures after == base + Restrict(labels, Image(own + EmittedUnder(tree, kids[..i + 1])))
  {
    var a := own + EmittedUnder(tree, kids[..i]);
    var b := EmittedBelow(tree, kids[i]);
    EmittedUnderStep(tree, kids, i);
    assert own + EmittedUnder(tree, kids[..i + 1]) == a + b;
    ImageUnion(a, b);
    RestrictJoin(labels, base, Image(a), Image(b), before, after);
  }

  /** `not any(v is None for v in m.values())` */
  method AllSome(m: map<seq<string>, Option<string>>) returns (ok: bool)
    ensures ok <==> forall k :: k in m ==> m[k].Some?
  {
    var todo := m.Keys;
    while todo != {}
      invariant todo <= m.Keys
      invariant forall k :: k in m && k !in todo ==> m[k].Some?
      decreases |todo|
    {
      var k :| k in todo;
      if m[k].None? {
        return false;
      }
      todo := todo - {k};
    }
    return true;
  }

  /** Cache keys as `build_overrides_cache` writes them: normalised relative paths of files. */
  ghost predicate CacheKeys(cache: map<string, string>)
  {
    && (forall p :: p in cache ==> p == RelStr(Parts(p)))
    && Files(set p | p in cache :: Parts(p))
  }

  /** The state of the overrides assignment window. */
  class OverridesGUI {
    /** `self.overrides`: path to packmode, replaced by the compacted assignment on exit. */
    var overrides: map<string, string>
    /** `self.override_packmode_map`: a file's components to its packmode, None while unassigned. */
    var assignment: map<seq<string>, Option<string>>

    /** The keys are files and every packmode given is a non-empty name. */
    ghost predicate Valid()
      reads this
    {
      && Files(assignment.Keys)
      && forall k :: k in assignment && assignment[k].Some? ==> assignment[k].value != ""
    }

    constructor (cache: map<string, string>, overrides: map<string, string>, added: set<string>)
      requires CacheKeys(cache)
      requires forall p :: p in overrides ==> overrides[p] != ""
      ensures Valid()
      ensures this.overrides == overrides
      ensures assignment.Keys == set p | p in cache :: Parts(p)
      ensures forall p :: p in cache ==> assignment[Parts(p)] == InitialPackmode(overrides, added, p)
    {
      this.overrides := overrides;
      assignment := map p | p in cache :: Parts(p) := InitialPackmode(overrides, added, p);
      new;
      assert assignment.Keys == set p | p in cache :: Parts(p);
      forall k | k in assignment && assignment[k].Some? ensures assignment[k].value != "" {
        var p :| p in cache && Parts(p) == k;
        LookupNonEmpty(overrides, p);
      }
    }

    /** `on_assign`: each selected file gets the packmode chosen in the dropdown. */
    method OnAssign(pm: string, selection: seq<seq<string>>)
      modifies this`assignment
      requires Valid() && pm != ""
      requires forall i :: 0 <= i < |selection| ==> selection[i] in assignment
      ensures Valid()
      ensures assignment == Reassigned(old(assignment), selection, Some(pm))
    {
      assignment := SetEach(assignment, selection, Some(pm));
    }

    /** `on_unassign`: each file selected in any packmode's list goes back to unassigned. */
    method OnUnassign(selection: seq<seq<string>>)
      modifies this`assignment
      requires Valid()
      requires forall i :: 0 <= i < |selection| ==> selection[i] in assignment
      ensures Valid()
      ensures assignment == Reassigned(old(assignment), selection, None)
    {
      assignment := SetEach(assignment, selection, None);
    }

    /** `_build_file_tree`: a leaf of weight 1 per file, every directory on the way unassigned. */
    method BuildFileTree() returns (tree: Tree)
      ensures tree == FileTree(assignment)
    {
      tree := map[[] := TreeNode(None, None)];
      var todo := assignment.Keys;
      ghost var done: set<seq<string>> := {};
      assert Nodes({}) == {[]};
      while todo != {}
        invariant todo <= assignment.Keys && done == assignment.Keys - todo
        invariant tree == PartialTree(assignment, done)
        decreases |todo|
      {
        var f :| f in todo;
        var t := InsertPath(tree, f);
        PartialTreeStep(assignment, done, f, t);
        tree := t[f := TreeNode(assignment[f], Some(1))];
        done := done + {f};
        todo := todo - {f};
      }
      assert done == assignment.Keys;
    }

    /**
     * `_write_overrides` from node `d`, whose parent has packmode
     * `parentPm`: writes `d` when it differs from a truthy parent (or sits
     * at the top), then each child in turn. `labels` names, for the proof,
     * the packmode of every node under its relative path.
     */
    method WriteOverrides(tree: Tree, d: seq<string>, parentPm: Option<string>,
                          ghost bound: nat, ghost labels: map<string, string>)
      modifies this`overrides
      requires Shaped(tree, bound) && LabelsOf(tree, labels) && d in tree
      requires parentPm == if d == [] then None else tree[d[..|d| - 1]].packmode
      ensures Image(EmittedBelow(tree, d)) <= labels.Keys
      ensures overrides == old(overrides) + Restrict(labels, Image(EmittedBelow(tree, d)))
      decreases bound - |d|
    {
      var kids := Enumerate(Children(tree, d));
      ghost var own: set<seq<string>> := if Emits(tree, d) then {d} else {};
      EmittedSplit(tree, bound, d, kids);
      if |d| == 1 || (Truthy(parentPm) && tree[d].packmode != parentPm) {
        overrides := overrides[RelStr(d) := tree[d].packmode.value];
      }
      ghost var base := old(overrides);
      WriteOwn(tree, labels, d, parentPm, base, overrides, kids);
      for i := 0 to |kids|
        invariant Image(own + EmittedUnder(tree, kids[..i])) <= labels.Keys
        invariant overrides == base + Restrict(labels, Image(own + EmittedUnder(tree, kids[..i])))
      {
        var c := kids[i];
        assert c in Children(tree, d) && c[..|c| - 1] == d;
        ghost var before := overrides;
        WriteOverrides(tree, c, tree[d].packmode, bound, labels);
        WriteStep(tree, labels, base, own, kids, i, before, overrides);
      }
      assert kids[..|kids|] == kids;
    }

    /**
     * `on_exit`: refuses while a file is unassigned; otherwise replaces
     * the overrides by the compaction of the assignment.
     */
    method OnExit() returns (ok: bool, ghost tree: Tree)
      modifies this`overrides
      requires Valid()
      ensures ok <==> forall f :: f in assignment ==> assignment[f].Some?
      ensures !ok ==> overrides == old(overrides)
      ensures ok ==> ExitState(assignment, tree, overrides)
    {
      tree := map[];
      ok := AllSome(assignment);
      if ok {
        tree := Compact();
      }
    }

    /** `self.overrides = {}` then `_write_overrides(root)`. */
    method Rewrite(tree: Tree)
      modifies this`overrides
      requires Shaped(tree, MaxLen(tree.Keys))
      ensures overrides == Compacted(tree)
    {
      CompactedIs(tree);
      overrides := map[];
      WriteOverrides(tree, [], None, MaxLen(tree.Keys), Labels(tree));
      ghost var written := Restrict(Labels(tree), Image(EmittedBelow(tree, [])));
      assert map[] + written == written;
    }

    /** Builds the file tree, assigns its directories and writes the overrides afresh. */
    method Compact() returns (ghost tree: Tree)
      modifies this`overrides
      requires Valid() && forall f :: f in assignment ==> assignment[f].Some?
      ensures ExitState(assignment, tree, overrides)
    {
      var built := BuildFileTree();
      built := DfsAssign(built, assignment);
      tree := built;
      ghost var a := assignment;
      assert Assigned(a, built);
      AssignedShaped(a, built);
      Rewrite(built);
      ExitOverrides(a, built, overrides);
    }
  }

  // ---------------------------------------------------------------------
  // ModGUI
  // ---------------------------------------------------------------------

  /** The mod after a selection by name: its packmode becomes `pm` when it is selected. */
  function Relabel(m: Pack.Mod, selection: set<string>, pm: Option<string>): (r: Pack.Mod)
    requires m.name.Some?
    ensures r.name == m.name && r.addonID == m.addonID && r.fileID == m.fileID && r.filename == m.filename
    ensures r.packmode == if m.name.value in selection then pm else m.packmode
  {
    if m.name.value in selection then m.(packmode := pm) else m
  }

  predicate Named(mods: seq<Pack.Mod>)
  {
    forall i :: 0 <= i < |mods| ==> mods[i].name.Some?
  }

  /** Every mod, relabelled in place. */
  function Relabelled(mods: seq<Pack.Mod>, selection: set<string>, pm: Option<string>): (r: seq<Pack.Mod>)
    requires Named(mods)
    ensures |r| == |mods| && Named(r)
    ensures forall i :: 0 <= i < |mods| ==> r[i] == Relabel(mods[i], selection, pm)
  {
    seq(|mods|, i requires 0 <= i < |mods| => Relabel(mods[i], selection, pm))
  }

  /** Unassigning the mods just assigned from the unassigned list gives the list back. */
  lemma {:induction false} RelabelThenUnassign(mods: seq<Pack.Mod>, selection: set<string>, pm: string)
    requires Named(mods)
    requires forall i :: 0 <= i < |mods| && mods[i].name.value in selection ==> mods[i].packmode.None?
    ensures Relabelled(Relabelled(mods, selection, Some(pm)), selection, None) == mods
  {
    var r := Relabelled(Relabelled(mods, selection, Some(pm)), selection, None);
    forall i | 0 <= i < |mods| ensures r[i] == mods[i] {
      if mods[i].name.value in selection {
        assert r[i].packmode == mods[i].packmode;
      }
    }
  }

  /** The state of the mod assignment window. */
  class ModGUI {
    /** `self.mod_list`: the manifest's mods, each with a name. */
    var mods: seq<Pack.Mod>

    ghost predicate Valid()
      reads this
    {
      Named(mods)
    }

    constructor (mods: seq<Pack.Mod>)
      requires Named(mods)
      ensures Valid() && this.mods == mods
    {
      this.mods := mods;
    }

    /** `on_assign`: every mod whose name is selected gets the packmode chosen in the dropdown. */
    method OnAssign(pm: string, selection: set<string>)
      modifies this`mods
      requires Valid()
      ensures Valid()
      ensures mods == Relabelled(old(mods), selection, Some(pm))
    {
      SetPackmodes(selection, Some(pm));
    }

    /** `on_unassign`: every mod whose name is selected in a packmode's list loses its packmode. */
    method OnUnassign(selection: set<string>)
      modifies this`mods
      requires Valid()
      ensures Valid()
      ensures mods == Relabelled(old(mods), selection, None)
    {
      SetPackmodes(selection, None);
    }

    /** `for mod in self.mod_list: if mod["name"] in selection: ...` */
    method SetPackmodes(selection: set<string>, pm: Option<string>)
      modifies this`mods
      requires Valid()
      ensures mods == Relabelled(old(mods), selection, pm)
    {
      ghost var mods0 := mods;
      for i := 0 to |mods|
        invariant |mods| == |mods0| && Named(mods)
        invariant forall j :: 0 <= j < i ==> mods[j] == Relabel(mods0[j], selection, pm)
        invariant forall j :: i <= j < |mods| ==> mods[j] == mods0[j]
      {
        if mods[i].name.value in selection {
          mods := mods[i := mods[i].(packmode := pm)];
        }
      }
    }

    /** `on_exit`: refuses while a mod has no packmode; changes nothing. */
    method OnExit() returns (ok: bool)
      requires Valid()
      ensures ok <==> forall i :: 0 <= i < |mods| ==> mods[i].packmode.Some?
    {
      for i := 0 to |mods|
        invariant forall j :: 0 <= j < i ==> mods[j].packmode.Some?
      {
        if mods[i].packmode.None? {
          return false;
        }
      }
      return true;
    }
  }

  // ---------------------------------------------------------------------
  // PackmodeBaseGUI.on_add
  // ---------------------------------------------------------------------

  /** Why `on_add` refuses a new packmode (it reports the reason in the status line). */
  datatype AddError = AlreadyExists(name: string) | Invalid(error: Pack.ManifestError)

  /** The packmode definitions shared by both windows. */
  class PackmodeBaseGUI {
    /** `self.packmodes`: packmode name to the packmodes it depends on. */
    var packmodes: Pack.Packmodes

    constructor (packmodes: Pack.Packmodes)
      ensures this.packmodes == packmodes
    {
      this.packmodes := packmodes;
    }

    /**
     * `on_add`: a name already defined (or "server") is refused; otherwise
     * the packmode is added, and removed again if the dependencies no longer
     * validate.
     */
    method OnAdd(name: string, deps: seq<string>) returns (r: Result<(), AddError>)
      modifies this`packmodes
      ensures Pack.Defined(old(packmodes), name) ==> r == Err(AlreadyExists(name)) && packmodes == old(packmodes)
      ensures !Pack.Defined(old(packmodes), name) ==>
        var added := old(packmodes)[name := deps];
        && (r.Ok? <==> Pack.DependenciesDefined(added) && !Pack.CircularDependencies(added))
        && (r.Ok? ==> packmodes == added)
        && (r.Err? ==> r.error.Invalid? && packmodes == old(packmodes))
    {
      if name in packmodes.Keys + {Pack.Server} {
        return Err(AlreadyExists(name));
      }
      packmodes := packmodes[name := deps];
      var v := Pack.ValidateDependencies(packmodes);
      if v.Err? {
        packmodes := packmodes - {name};
        return Err(Invalid(v.error));
      }
      return Ok(());
    }
  }
}
