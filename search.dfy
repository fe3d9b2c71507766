/**
 * `dfs` from mc_pack_manager/utils.py: an iterative depth-first search with
 * an explicit stack of nodes to visit and of finish markers (the source's
 * `Node` namedtuple), a map telling active from finished nodes, and the
 * current path. It returns a path to `v`, reports a cycle by raising
 * `CycleDFSError`, or returns None.
 */
module Search {
  import opened Wrappers

  /** A stack entry: a node still to visit, or the finish marker `Node(x)`. */
  datatype Entry<T> = Visit(node: T) | Finish(node: T)

  /** The three ways `dfs` ends: a returned path, a returned None, a raised cycle. */
  datatype Outcome<T> = Found(path: seq<T>) | NotFound | Cycle(cycle: seq<T>)

  /** `graph.get(x, [])` */
  function Succ<T>(graph: map<T, seq<T>>, x: T): seq<T>
  {
    if x in graph then graph[x] else []
  }

  /** An edge from `x` to `c`; a named relation so that quantifiers over edges fire only on edges. */
  ghost predicate Edge<T>(graph: map<T, seq<T>>, x: T, c: T)
  {
    c in Succ(graph, x)
  }

  /** Consecutive entries are edges of the graph. */
  ghost predicate IsPath<T>(graph: map<T, seq<T>>, p: seq<T>)
  {
    forall i :: 0 <= i < |p| - 1 ==> p[i + 1] in Succ(graph, p[i])
  }

  ghost predicate Reachable<T(!new)>(graph: map<T, seq<T>>, u: T, v: T)
  {
    exists p :: |p| >= 1 && p[0] == u && p[|p| - 1] == v && IsPath(graph, p)
  }

  /** Some walk from `u` comes back to a node it already passed: a cycle reachable from `u`. */
  ghost predicate CycleReachable<T(!new)>(graph: map<T, seq<T>>, u: T)
  {
    exists p, j :: |p| >= 2 && p[0] == u && IsPath(graph, p) && 0 <= j < |p| - 1 && p[j] == p[|p| - 1]
  }

  ghost predicate Distinct<T>(p: seq<T>)
  {
    forall i, j :: 0 <= i < j < |p| ==> p[i] != p[j]
  }

  function Reverse<T>(s: seq<T>): (r: seq<T>)
    ensures |r| == |s|
  {
    if s == [] then [] else Reverse(s[1..]) + [s[0]]
  }

  lemma {:induction false} ReverseSnoc<T>(s: seq<T>, x: T)
    ensures Reverse(s + [x]) == [x] + Reverse(s)
  {
    if s != [] {
      assert (s + [x])[1..] == s[1..] + [x];
      ReverseSnoc(s[1..], x);
    }
  }

  /** The finish markers on a stack, bottom first. */
  function Markers<T>(stack: seq<Entry<T>>): seq<T>
  {
    if stack == [] then []
    else Markers(stack[..|stack| - 1]) + (if stack[|stack| - 1].Finish? then [stack[|stack| - 1].node] else [])
  }

  lemma {:induction false} MarkersAppend<T>(a: seq<Entry<T>>, b: seq<Entry<T>>)
    ensures Markers(a + b) == Markers(a) + Markers(b)
  {
    if b != [] {
      var e := b[|b| - 1];
      var tail := if e.Finish? then [e.node] else [];
      assert (a + b)[..|a + b| - 1] == a + b[..|b| - 1];
      assert Markers(a + b) == Markers(a + b[..|b| - 1]) + tail;
      MarkersAppend(a, b[..|b| - 1]);
      assert Markers(b) == Markers(b[..|b| - 1]) + tail;
    } else {
      assert a + b == a;
    }
  }

  lemma MarkersPop<T>(stack: seq<Entry<T>>)
    requires stack != []
    ensures Markers(stack) == Markers(stack[..|stack| - 1])
              + (if stack[|stack| - 1].Finish? then [stack[|stack| - 1].node] else [])
  {
  }

  // ---------------------------------------------------------------------
  // Rebuilding the reported cycle (the inner loop of the back-edge branch)
  // ---------------------------------------------------------------------

  /**
   * Pops the stack, keeping each finish marker whose node has an edge to the
   * last node kept, until the list is back at `node` or the stack is empty;
   * the list is then reversed. The markers left on the stack are exactly the
   * current path, so the result is that whole path from the search's start
   * (or `[node, node]` when `node` has an edge to itself).
   */
  method RebuildCycle<T(==)>(graph: map<T, seq<T>>, stack: seq<Entry<T>>, node: T, ghost path: seq<T>)
    returns (cyc: seq<T>)
    requires |path| >= 1 && path[|path| - 1] == node
    requires Markers(stack) == path && IsPath(graph, path) && Distinct(path)
    ensures cyc == if node in Succ(graph, node) then [node, node] else path
  {
    var cycle := [node];
    var st := stack;
    ghost var m := |path|;
    ghost var k := |path| - 1;
    while st != [] && (|cycle| < 2 || cycle[|cycle| - 1] != node)
      invariant 0 <= m <= |path| && Markers(st) == path[..m]
      invariant (m <= k && node !in Succ(graph, node) && Reverse(cycle) == path[m..]
                && |cycle| == |path| - m && cycle[|cycle| - 1] == path[m])
             || (m > k && cycle == [node])
             || (cycle == [node, node] && node in Succ(graph, node))
      decreases |st|
    {
      MarkersPop(st);
      var prev := st[|st| - 1];
      st := st[..|st| - 1];
      if prev.Visit? {
        continue;
      }
      assert path[..m] == path[..m - 1] + [prev.node];
      assert path[..m - 1] == path[..m][..m - 1];
      if m <= k {
        assert path[m] in Succ(graph, path[m - 1]);
      }
      if cycle[|cycle| - 1] in Succ(graph, prev.node) {
        if m <= k {
          ReverseSnoc(cycle, prev.node);
          assert path[m - 1..] == [path[m - 1]] + path[m..];
        }
        cycle := cycle + [prev.node];
      }
      m := m - 1;
    }
    if cycle == [node, node] {
      assert Reverse(cycle) == Reverse(cycle[1..]) + [node];
    } else if m <= k {
      assert m == 0;
    }
    cyc := Reverse(cycle);
  }

  // ---------------------------------------------------------------------
  // The shape of the search state
  // ---------------------------------------------------------------------

  function Visits<T>(xs: seq<T>): (r: seq<Entry<T>>)
    ensures |r| == |xs| && forall i :: 0 <= i < |xs| ==> r[i] == Visit(xs[i])
  {
    seq(|xs|, i requires 0 <= i < |xs| => Visit(xs[i]))
  }

  /** The stack while `path` is the current path: for every node on the path, its
      finish marker followed by the children it pushed that are still pending. */
  function Layout<T>(path: seq<T>, pend: seq<seq<T>>): seq<Entry<T>>
    requires |path| == |pend|
  {
    if path == [] then []
    else Layout(path[..|path| - 1], pend[..|pend| - 1]) + [Finish(path[|path| - 1])] + Visits(pend[|pend| - 1])
  }

  /** Visit entries cost two steps (the visit and its marker), markers one. */
  function Weight<T>(stack: seq<Entry<T>>): nat
  {
    if stack == [] then 0
    else Weight(stack[..|stack| - 1]) + (if stack[|stack| - 1].Visit? then 2 else 1)
  }

  /** Every node the search can ever visit. */
  ghost function Universe<T>(graph: map<T, seq<T>>, u: T): set<T>
  {
    {u} + (set x, c | x in graph && c in graph[x] :: c)
  }

  lemma InUniverse<T>(graph: map<T, seq<T>>, u: T, x: T, c: T)
    requires c in Succ(graph, x)
    ensures c in Universe(graph, u)
  {
    assert x in graph && c in graph[x];
  }

  lemma {:induction false} MarkersVisits<T>(xs: seq<T>)
    ensures Markers(Visits(xs)) == []
  {
    if xs != [] {
      assert Visits(xs)[..|xs| - 1] == Visits(xs[..|xs| - 1]);
      MarkersVisits(xs[..|xs| - 1]);
    }
  }

  lemma {:induction false} LayoutMarkers<T>(path: seq<T>, pend: seq<seq<T>>)
    requires |path| == |pend|
    ensures Markers(Layout(path, pend)) == path
  {
    if path != [] {
      var k := |path|;
      var lower := Layout(path[..k - 1], pend[..k - 1]);
      LayoutMarkers(path[..k - 1], pend[..k - 1]);
      MarkersAppend(lower, [Finish(path[k - 1])]);
      MarkersAppend(lower + [Finish(path[k - 1])], Visits(pend[k - 1]));
      MarkersVisits(pend[k - 1]);
      assert Markers([Finish(path[k - 1])]) == [path[k - 1]] by {
        MarkersPop([Finish(path[k - 1])]);
      }
      assert path[..k - 1] + [path[k - 1]] == path;
    }
  }

  lemma LayoutPush<T>(path: seq<T>, pend: seq<seq<T>>, y: T, kids: seq<T>)
    requires |path| == |pend|
    ensures Layout(path + [y], pend + [kids]) == Layout(path, pend) + [Finish(y)] + Visits(kids)
  {
    assert (path + [y])[..|path|] == path;
    assert (pend + [kids])[..|pend|] == pend;
  }

  /** The top of a non-empty layout: a pending child of the last path node, or its marker. */
  lemma LayoutTop<T>(path: seq<T>, pend: seq<seq<T>>)
    requires |path| == |pend| && path != []
    ensures var L := Layout(path, pend); var q := pend[|pend| - 1]; var k := |path|;
      && L != []
      && (q == [] ==> L[|L| - 1] == Finish(path[k - 1]) && L[..|L| - 1] == Layout(path[..k - 1], pend[..k - 1]))
      && (q != [] ==>
            L[|L| - 1] == Visit(q[|q| - 1]) && L[..|L| - 1] == Layout(path, pend[k - 1 := q[..|q| - 1]]))
  {
    var k := |path|;
    var q := pend[k - 1];
    if q != [] {
      var pend' := pend[k - 1 := q[..|q| - 1]];
      assert pend'[..k - 1] == pend[..k - 1];
      assert Visits(q) == Visits(q[..|q| - 1]) + [Visit(q[|q| - 1])];
    } else {
      assert Visits(q) == [];
    }
  }

  /** Pushing a child of the last path node onto the stack. */
  lemma LayoutPushChild<T>(path: seq<T>, pend: seq<seq<T>>, c: T)
    requires |path| == |pend| && path != []
    ensures var k := |path|;
      Layout(path, pend[k - 1 := pend[k - 1] + [c]]) == Layout(path, pend) + [Visit(c)]
  {
    var k := |path|;
    var pend' := pend[k - 1 := pend[k - 1] + [c]];
    assert pend'[..k - 1] == pend[..k - 1];
    assert Visits(pend[k - 1] + [c]) == Visits(pend[k - 1]) + [Visit(c)];
  }

  lemma WeightSnoc<T>(s: seq<Entry<T>>, e: Entry<T>)
    ensures Weight(s + [e]) == Weight(s) + (if e.Visit? then 2 else 1)
  {
    assert (s + [e])[..|s|] == s;
  }

  // ---------------------------------------------------------------------
  // Invariant of the main loop, piece by piece
  // ---------------------------------------------------------------------

  /** The stack is laid out along the path; before the first pop it holds only `u`. */
  ghost predicate Shape<T>(u: T, stack: seq<Entry<T>>, path: seq<T>, pend: seq<seq<T>>, roots: seq<T>)
  {
    && |pend| == |path|
    && stack == Visits(roots) + Layout(path, pend)
    && (roots == [] || (roots == [u] && path == []))
  }

  /** The current path is a walk from `u` without repetition. */
  ghost predicate PathOk<T>(graph: map<T, seq<T>>, u: T, path: seq<T>)
  {
    (path != [] ==> path[0] == u) && IsPath(graph, path) && Distinct(path)
  }

  /** The nodes marked active are exactly those on the current path. */
  ghost predicate ActiveOk<T>(path: seq<T>, isActive: map<T, bool>)
  {
    && (forall i :: 0 <= i < |path| ==> path[i] in isActive && isActive[path[i]])
    && (forall x :: x in isActive && isActive[x] ==> x in path)
  }

  /** A pending child is a child of its path node and not on the path up to that node. */
  ghost predicate PendOk<T>(graph: map<T, seq<T>>, path: seq<T>, pend: seq<seq<T>>)
    requires |pend| == |path|
  {
    forall i, j :: 0 <= i < |pend| && 0 <= j < |pend[i]| ==>
      pend[i][j] in Succ(graph, path[i]) && pend[i][j] !in path[..i + 1]
  }

  /** Finished nodes are ranked, and every edge out of a ranked node goes down in rank. */
  ghost predicate RankOk<T(!new)>(graph: map<T, seq<T>>, isActive: map<T, bool>, rank: map<T, nat>, counter: nat)
  {
    && (forall x :: x in rank ==> x in isActive && rank[x] < counter)
    && (forall x :: x in isActive && !isActive[x] ==> x in rank)
    && (forall x, c :: x in rank && Edge(graph, x, c) ==> c in rank && rank[c] < rank[x])
  }

  ghost predicate Misc<T>(graph: map<T, seq<T>>, u: T, v: Option<T>, roots: seq<T>,
                          isActive: map<T, bool>, rank: map<T, nat>)
  {
    && (roots != [] ==> isActive == map[] && rank == map[])
    && (roots == [] ==> u in isActive)
    && (v.Some? ==> v.value !in isActive)
    && isActive.Keys <= Universe(graph, u)
  }

  /** Every edge out of the first `lo` path nodes is finished, pending, or the next path edge. */
  ghost predicate Accounted<T>(graph: map<T, seq<T>>, path: seq<T>, pend: seq<seq<T>>, rank: map<T, nat>, lo: nat)
    requires |pend| == |path|
  {
    forall i, c :: 0 <= i < lo && i < |path| && c in Succ(graph, path[i]) ==>
      c in rank || c in pend[i] || (i + 1 < |path| && c == path[i + 1])
  }

  lemma AccountedAt<T>(graph: map<T, seq<T>>, path: seq<T>, pend: seq<seq<T>>, rank: map<T, nat>, lo: nat, i: nat, c: T)
    requires |pend| == |path| && Accounted(graph, path, pend, rank, lo)
    requires i < lo && i < |path| && c in Succ(graph, path[i])
    ensures c in rank || c in pend[i] || (i + 1 < |path| && c == path[i + 1])
  {
  }

  ghost predicate Core<T(!new)>(graph: map<T, seq<T>>, u: T, v: Option<T>, stack: seq<Entry<T>>, path: seq<T>,
                          isActive: map<T, bool>, pend: seq<seq<T>>, roots: seq<T>,
                          rank: map<T, nat>, counter: nat)
  {
    && Shape(u, stack, path, pend, roots)
    && PathOk(graph, u, path)
    && ActiveOk(path, isActive)
    && PendOk(graph, path, pend)
    && RankOk(graph, isActive, rank, counter)
    && Misc(graph, u, v, roots, isActive, rank)
  }

  // ---------------------------------------------------------------------
  // Popping a finish marker
  // ---------------------------------------------------------------------

  lemma FinishShape<T>(u: T, stack: seq<Entry<T>>, path: seq<T>, pend: seq<seq<T>>, roots: seq<T>)
    requires Shape(u, stack, path, pend, roots)
    requires stack != [] && stack[|stack| - 1].Finish?
    ensures path != [] && roots == [] && stack[|stack| - 1].node == path[|path| - 1] && pend[|pend| - 1] == []
    ensures Shape(u, stack[..|stack| - 1], path[..|path| - 1], pend[..|pend| - 1], [])
  {
    if path == [] {
      assert false;
    }
    assert Visits(roots) == [];
    LayoutTop(path, pend);
  }

  lemma FinishActive<T>(path: seq<T>, isActive: map<T, bool>)
    requires ActiveOk(path, isActive) && Distinct(path) && path != []
    ensures path[|path| - 1] in isActive
    ensures ActiveOk(path[..|path| - 1], isActive[path[|path| - 1] := false])
  {
    var x := path[|path| - 1];
    var path' := path[..|path| - 1];
    assert path == path' + [x];
    forall y | y in isActive[x := false] && isActive[x := false][y] ensures y in path' {
      assert y in path && y != x;
    }
  }

  lemma FinishPend<T>(graph: map<T, seq<T>>, path: seq<T>, pend: seq<seq<T>>)
    requires |pend| == |path| && path != [] && PendOk(graph, path, pend)
    ensures PendOk(graph, path[..|path| - 1], pend[..|pend| - 1])
  {
    var k := |path|;
    forall i, j | 0 <= i < k - 1 && 0 <= j < |pend[i]|
      ensures pend[i][j] in Succ(graph, path[i]) && pend[i][j] !in path[..k - 1][..i + 1]
    {
      assert path[..k - 1][..i + 1] == path[..i + 1];
    }
  }

  /** A node finishes only once all its children have: it can be ranked above all of them. */
  lemma FinishRank<T(!new)>(graph: map<T, seq<T>>, path: seq<T>, pend: seq<seq<T>>, isActive: map<T, bool>,
                      rank: map<T, nat>, counter: nat)
    requires |pend| == |path| && path != [] && pend[|pend| - 1] == []
    requires RankOk(graph, isActive, rank, counter) && ActiveOk(path, isActive)
    requires Accounted(graph, path, pend, rank, |path|)
    ensures var x := path[|path| - 1];
      RankOk(graph, isActive[x := false],
             if x in rank then rank else rank[x := counter],
             if x in rank then counter else counter + 1)
  {
    var k := |path|;
    var x := path[k - 1];
    forall c | c in Succ(graph, x) ensures c in rank {
      AccountedAt(graph, path, pend, rank, k, k - 1, c);
    }
  }

  lemma FinishAccounted<T>(graph: map<T, seq<T>>, path: seq<T>, pend: seq<seq<T>>, rank: map<T, nat>, rank': map<T, nat>)
    requires |pend| == |path| && path != [] && rank.Keys <= rank'.Keys && path[|path| - 1] in rank'
    requires Accounted(graph, path, pend, rank, |path|)
    ensures Accounted(graph, path[..|path| - 1], pend[..|pend| - 1], rank', |path| - 1)
  {
    var k := |path|;
    var path', pend' := path[..k - 1], pend[..k - 1];
    forall i, c | 0 <= i < k - 1 && c in Succ(graph, path'[i])
      ensures c in rank' || c in pend'[i] || (i + 1 < k - 1 && c == path'[i + 1])
    {
      AccountedAt(graph, path, pend, rank, k, i, c);
    }
  }

  lemma FinishStep<T(!new)>(graph: map<T, seq<T>>, u: T, v: Option<T>, stack: seq<Entry<T>>, path: seq<T>,
                      isActive: map<T, bool>, pend: seq<seq<T>>, roots: seq<T>,
                      rank: map<T, nat>, counter: nat)
    requires Core(graph, u, v, stack, path, isActive, pend, roots, rank, counter)
    requires Accounted(graph, path, pend, rank, |path|)
    requires stack != [] && stack[|stack| - 1].Finish?
    ensures path != [] && path[|path| - 1] == stack[|stack| - 1].node
    ensures var x := path[|path| - 1];
      var rank' := if x in rank then rank else rank[x := counter];
      var counter' := if x in rank then counter else counter + 1;
      && Core(graph, u, v, stack[..|stack| - 1], path[..|path| - 1], isActive[x := false], pend[..|pend| - 1],
              roots, rank', counter')
      && Accounted(graph, path[..|path| - 1], pend[..|pend| - 1], rank', |path| - 1)
  {
    FinishShape(u, stack, path, pend, roots);
    var x := path[|path| - 1];
    var rank' := if x in rank then rank else rank[x := counter];
    FinishActive(path, isActive);
    FinishPend(graph, path, pend);
    FinishRank(graph, path, pend, isActive, rank, counter);
    FinishAccounted(graph, path, pend, rank, rank');
    assert PathOk(graph, u, path[..|path| - 1]);
    assert isActive[x := false].Keys == isActive.Keys;
  }

  // ---------------------------------------------------------------------
  // Popping a node to visit
  // ---------------------------------------------------------------------

  /** The pending lists once the visited node is popped off the top one. */
  function Popped<T>(pend: seq<seq<T>>): seq<seq<T>>
  {
    if pend == [] || pend[|pend| - 1] == [] then pend
    else pend[|pend| - 1 := pend[|pend| - 1][..|pend[|pend| - 1]| - 1]]
  }

  lemma VisitShape<T>(u: T, stack: seq<Entry<T>>, path: seq<T>, pend: seq<seq<T>>, roots: seq<T>)
    requires Shape(u, stack, path, pend, roots)
    requires stack != [] && stack[|stack| - 1].Visit?
    ensures var y := stack[|stack| - 1].node;
      && (roots != [] ==> y == u && path == [])
      && (roots == [] ==> path != [] && pend[|pend| - 1] != [] && y == pend[|pend| - 1][|pend[|pend| - 1]| - 1])
      && Shape(u, stack[..|stack| - 1] + [Finish(y)], path + [y], Popped(pend) + [[]], [])
  {
    var y := stack[|stack| - 1].node;
    if roots != [] {
      assert stack == [Visit(u)];
      LayoutPush([], [], y, []);
      assert stack[..|stack| - 1] + [Finish(y)] == [] + Layout([y], [[]]);
    } else {
      if path == [] {
        assert false;
      }
      LayoutTop(path, pend);
      var q := pend[|pend| - 1];
      if q == [] {
        assert false;
      }
      LayoutPush(path, Popped(pend), y, []);
    }
  }

  lemma VisitPath<T>(graph: map<T, seq<T>>, u: T, path: seq<T>, pend: seq<seq<T>>, y: T)
    requires |pend| == |path| && PathOk(graph, u, path) && PendOk(graph, path, pend)
    requires path == [] ==> y == u
    requires path != [] ==> pend[|pend| - 1] != [] && y == pend[|pend| - 1][|pend[|pend| - 1]| - 1]
    ensures y !in path && PathOk(graph, u, path + [y]) && y in Universe(graph, u)
  {
    var k := |path|;
    var path' := path + [y];
    if path != [] {
      assert y in Succ(graph, path[k - 1]) && y !in path[..k];
      assert path[..k] == path;
      InUniverse(graph, u, path[k - 1], y);
      forall i | 0 <= i < |path'| - 1 ensures path'[i + 1] in Succ(graph, path'[i]) {
        if i < k - 1 {
          assert path'[i + 1] == path[i + 1];
        }
      }
      forall i, j | 0 <= i < j < |path'| ensures path'[i] != path'[j] {
        if j == k {
          assert path'[i] in path;
        }
      }
    }
  }

  lemma VisitPend<T>(graph: map<T, seq<T>>, path: seq<T>, pend: seq<seq<T>>, y: T)
    requires |pend| == |path| && PendOk(graph, path, pend)
    requires path != [] ==> pend[|pend| - 1] != []
    ensures PendOk(graph, path + [y], Popped(pend) + [[]])
  {
    var k := |path|;
    var path', pend' := path + [y], Popped(pend) + [[]];
    forall i, j | 0 <= i < |pend'| && 0 <= j < |pend'[i]|
      ensures pend'[i][j] in Succ(graph, path'[i]) && pend'[i][j] !in path'[..i + 1]
    {
      assert i < k;
      assert path'[..i + 1] == path[..i + 1];
      assert pend'[i][j] == pend[i][j];
    }
  }

  lemma VisitAccounted<T>(graph: map<T, seq<T>>, path: seq<T>, pend: seq<seq<T>>, rank: map<T, nat>, y: T)
    requires |pend| == |path| && Accounted(graph, path, pend, rank, |path|)
    requires path != [] ==> pend[|pend| - 1] != [] && y == pend[|pend| - 1][|pend[|pend| - 1]| - 1]
    ensures Accounted(graph, path + [y], Popped(pend) + [[]], rank, |path|)
  {
    var k := |path|;
    var path', pend' := path + [y], Popped(pend) + [[]];
    forall i, c | 0 <= i < k && c in Succ(graph, path'[i])
      ensures c in rank || c in pend'[i] || (i + 1 < |path'| && c == path'[i + 1])
    {
      assert path'[i] == path[i];
      AccountedAt(graph, path, pend, rank, k, i, c);
      if i == k - 1 {
        assert pend[i] == pend'[i] + [y];
      }
    }
  }

  lemma VisitStep<T(!new)>(graph: map<T, seq<T>>, u: T, v: Option<T>, stack: seq<Entry<T>>, path: seq<T>,
                     isActive: map<T, bool>, pend: seq<seq<T>>, roots: seq<T>,
                     rank: map<T, nat>, counter: nat)
    requires Core(graph, u, v, stack, path, isActive, pend, roots, rank, counter)
    requires Accounted(graph, path, pend, rank, |path|)
    requires stack != [] && stack[|stack| - 1].Visit?
    ensures var y := stack[|stack| - 1].node;
      && (path + [y])[0] == u && IsPath(graph, path + [y])
      && (y in isActive ==> y in rank)
      && y in Universe(graph, u)
      && (v != Some(y) ==>
           && Core(graph, u, v, stack[..|stack| - 1] + [Finish(y)], path + [y], isActive[y := true],
                   Popped(pend) + [[]], [], rank, counter)
           && Accounted(graph, path + [y], Popped(pend) + [[]], rank, |path|))
  {
    var y := stack[|stack| - 1].node;
    VisitShape(u, stack, path, pend, roots);
    VisitPath(graph, u, path, pend, y);
    VisitPend(graph, path, pend, y);
    VisitAccounted(graph, path, pend, rank, y);
    VisitActive(graph, path, isActive, rank, counter, y);
  }

  lemma VisitActive<T(!new)>(graph: map<T, seq<T>>, path: seq<T>, isActive: map<T, bool>,
                       rank: map<T, nat>, counter: nat, y: T)
    requires ActiveOk(path, isActive) && RankOk(graph, isActive, rank, counter) && y !in path
    ensures y in isActive ==> y in rank
    ensures ActiveOk(path + [y], isActive[y := true])
    ensures RankOk(graph, isActive[y := true], rank, counter)
  {
    var isActive' := isActive[y := true];
    forall x | x in isActive' && isActive'[x] ensures x in path + [y] {
      if x != y {
        assert x in path;
      }
    }
    if y in isActive {
      assert !isActive[y];
    }
  }

  // ---------------------------------------------------------------------
  // Scanning the children of the visited node
  // ---------------------------------------------------------------------

  /** The children not seen yet, in order: the ones the scan pushes. */
  function Unseen<T>(children: seq<T>, isActive: map<T, bool>): (r: seq<T>)
    ensures forall i :: 0 <= i < |r| ==> r[i] in children && r[i] !in isActive
    ensures forall c :: c in children && c !in isActive ==> c in r
  {
    if children == [] then []
    else
      var last := children[|children| - 1];
      var r := Unseen(children[..|children| - 1], isActive);
      assert forall c :: c in children[..|children| - 1] ==> c in children;
      assert forall c :: c in children ==> c in children[..|children| - 1] || c == last;
      if last in isActive then r else r + [last]
  }

  lemma UnseenNone<T>(children: seq<T>, isActive: map<T, bool>)
    requires forall c :: c in children ==> c in isActive
    ensures Unseen(children, isActive) == []
  {
  }

  lemma VisitsAppend<T>(a: seq<T>, b: seq<T>)
    ensures Visits(a + b) == Visits(a) + Visits(b)
  {
  }

  /**
   * The inner loop over `graph.get(node, [])`: unseen children are pushed in
   * order, finished ones skipped; the first active one stops the scan and is
   * returned.
   */
  method PushChildren<T(==)>(children: seq<T>, isActive: map<T, bool>, stack: seq<Entry<T>>)
    returns (stack': seq<Entry<T>>, hit: Option<T>, ghost pushed: seq<T>)
    ensures stack' == stack + Visits(pushed)
    ensures hit.None? ==>
      && pushed == Unseen(children, isActive)
      && (forall c :: c in children && c in isActive ==> !isActive[c])
    ensures hit.Some? ==> hit.value in children && hit.value in isActive && isActive[hit.value]
  {
    stack', pushed := stack, [];
    var j := 0;
    while j < |children|
      invariant 0 <= j <= |children|
      invariant pushed == Unseen(children[..j], isActive) && stack' == stack + Visits(pushed)
      invariant forall c :: c in children[..j] && c in isActive ==> !isActive[c]
    {
      var child := children[j];
      assert children[..j + 1] == children[..j] + [child];
      assert children[..j + 1][..j] == children[..j];
      if child !in isActive {
        VisitsAppend(pushed, [child]);
        stack' := stack' + [Visit(child)];
        pushed := pushed + [child];
      } else if isActive[child] {
        return stack', Some(child), pushed;
      }
      j := j + 1;
    }
    assert children[..j] == children;
    hit := None;
  }

  lemma ExpandShape<T>(u: T, base: seq<Entry<T>>, path: seq<T>, pend: seq<seq<T>>, kids: seq<T>)
    requires Shape(u, base, path, pend, []) && path != [] && pend[|pend| - 1] == []
    ensures Shape(u, base + Visits(kids), path, pend[|pend| - 1 := kids], [])
  {
    var k := |path|;
    var pend' := pend[k - 1 := kids];
    assert pend'[..k - 1] == pend[..k - 1];
    assert Visits<T>([]) == [];
  }

  lemma ExpandPend<T>(graph: map<T, seq<T>>, path: seq<T>, isActive: map<T, bool>, pend: seq<seq<T>>)
    requires |pend| == |path| && path != [] && PendOk(graph, path, pend) && ActiveOk(path, isActive)
    ensures var kids := Unseen(Succ(graph, path[|path| - 1]), isActive);
      PendOk(graph, path, pend[|pend| - 1 := kids])
  {
    var k := |path|;
    var kids := Unseen(Succ(graph, path[k - 1]), isActive);
    var pend' := pend[k - 1 := kids];
    assert path[..k] == path;
    forall i, j | 0 <= i < |pend'| && 0 <= j < |pend'[i]|
      ensures pend'[i][j] in Succ(graph, path[i]) && pend'[i][j] !in path[..i + 1]
    {
      if i == k - 1 {
        assert pend'[i][j] == kids[j];
        assert kids[j] !in path;
      } else {
        assert pend'[i][j] == pend[i][j];
      }
    }
  }

  lemma ExpandAccounted<T(!new)>(graph: map<T, seq<T>>, path: seq<T>, isActive: map<T, bool>, pend: seq<seq<T>>,
                                 rank: map<T, nat>, counter: nat)
    requires |pend| == |path| && path != [] && Accounted(graph, path, pend, rank, |path| - 1)
    requires RankOk(graph, isActive, rank, counter)
    requires forall c :: c in Succ(graph, path[|path| - 1]) && c in isActive ==> !isActive[c]
    ensures var kids := Unseen(Succ(graph, path[|path| - 1]), isActive);
      Accounted(graph, path, pend[|pend| - 1 := kids], rank, |path|)
  {
    var k := |path|;
    var kids := Unseen(Succ(graph, path[k - 1]), isActive);
    var pend' := pend[k - 1 := kids];
    forall i, c | 0 <= i < k && c in Succ(graph, path[i])
      ensures c in rank || c in pend'[i] || (i + 1 < k && c == path[i + 1])
    {
      if i < k - 1 {
        AccountedAt(graph, path, pend, rank, k - 1, i, c);
      }
    }
  }

  /**
   * Marking the visited node active, pushing its marker and its unseen
   * children keeps the invariant, provided none of its children is active.
   */
  lemma ExpandStep<T(!new)>(graph: map<T, seq<T>>, u: T, v: Option<T>, stack: seq<Entry<T>>, path: seq<T>,
                            isActive: map<T, bool>, pend: seq<seq<T>>, roots: seq<T>,
                            rank: map<T, nat>, counter: nat)
    requires Core(graph, u, v, stack, path, isActive, pend, roots, rank, counter)
    requires Accounted(graph, path, pend, rank, |path|)
    requires stack != [] && stack[|stack| - 1].Visit? && v != Some(stack[|stack| - 1].node)
    requires var y := stack[|stack| - 1].node;
      forall c :: c in Succ(graph, y) && c in isActive[y := true] ==> !isActive[y := true][c]
    ensures var y := stack[|stack| - 1].node; var isActive' := isActive[y := true];
      var kids := Unseen(Succ(graph, y), isActive');
      var pend' := Popped(pend) + [kids];
      && Core(graph, u, v, stack[..|stack| - 1] + [Finish(y)] + Visits(kids), path + [y], isActive', pend', [],
              rank, counter)
      && Accounted(graph, path + [y], pend', rank, |path| + 1)
      && (y in isActive ==> kids == [])
  {
    var y := stack[|stack| - 1].node;
    var isActive' := isActive[y := true];
    var base := stack[..|stack| - 1] + [Finish(y)];
    var path' := path + [y];
    VisitStep(graph, u, v, stack, path, isActive, pend, roots, rank, counter);
    var kids := Unseen(Succ(graph, y), isActive');
    ExpandRest(graph, u, v, base, path', isActive', Popped(pend), rank, counter);
    if y in isActive {
      SeenChildren(graph, isActive', rank, counter, y);
      UnseenNone(Succ(graph, y), isActive');
    }
  }

  /** Pushing the unseen children of the node just entered keeps the invariant. */
  lemma ExpandRest<T(!new)>(graph: map<T, seq<T>>, u: T, v: Option<T>, base: seq<Entry<T>>, path: seq<T>,
                            isActive: map<T, bool>, pre: seq<seq<T>>, rank: map<T, nat>, counter: nat)
    requires Core(graph, u, v, base, path, isActive, pre + [[]], [], rank, counter)
    requires path != [] && Accounted(graph, path, pre + [[]], rank, |path| - 1)
    requires forall c :: c in Succ(graph, path[|path| - 1]) && c in isActive ==> !isActive[c]
    ensures var kids := Unseen(Succ(graph, path[|path| - 1]), isActive);
      && Core(graph, u, v, base + Visits(kids), path, isActive, pre + [kids], [], rank, counter)
      && Accounted(graph, path, pre + [kids], rank, |path|)
  {
    var kids := Unseen(Succ(graph, path[|path| - 1]), isActive);
    var pend := pre + [[]];
    assert pend[|pend| - 1 := kids] == pre + [kids];
    ExpandShape(u, base, path, pend, kids);
    ExpandPend(graph, path, isActive, pend);
    ExpandAccounted(graph, path, isActive, pend, rank, counter);
  }

  /** The end of a visit when no child is active: the invariant holds again and the search made progress. */
  lemma ExpandDone<T(!new)>(graph: map<T, seq<T>>, u: T, v: Option<T>, stack: seq<Entry<T>>, path: seq<T>,
                            isActive: map<T, bool>, pend: seq<seq<T>>, roots: seq<T>,
                            rank: map<T, nat>, counter: nat, stack': seq<Entry<T>>, pushed: seq<T>)
    requires Core(graph, u, v, stack, path, isActive, pend, roots, rank, counter)
    requires Accounted(graph, path, pend, rank, |path|)
    requires stack != [] && stack[|stack| - 1].Visit? && v != Some(stack[|stack| - 1].node)
    requires var y := stack[|stack| - 1].node;
      && (forall c :: c in Succ(graph, y) && c in isActive[y := true] ==> !isActive[y := true][c])
      && pushed == Unseen(Succ(graph, y), isActive[y := true])
      && stack' == stack[..|stack| - 1] + [Finish(y)] + Visits(pushed)
    ensures var y := stack[|stack| - 1].node; var isActive' := isActive[y := true];
      && Core(graph, u, v, stack', path + [y], isActive', Popped(pend) + [pushed], [], rank, counter)
      && Accounted(graph, path + [y], Popped(pend) + [pushed], rank, |path| + 1)
      && (|Universe(graph, u) - isActive'.Keys| < |Universe(graph, u) - isActive.Keys|
          || (isActive'.Keys == isActive.Keys && Weight(stack') < Weight(stack)))
  {
    ExpandStep(graph, u, v, stack, path, isActive, pend, roots, rank, counter);
    VisitProgress(graph, u, stack, path, isActive, pend, roots, stack', pushed);
  }

  lemma VisitProgress<T>(graph: map<T, seq<T>>, u: T, stack: seq<Entry<T>>, path: seq<T>,
                         isActive: map<T, bool>, pend: seq<seq<T>>, roots: seq<T>,
                         stack': seq<Entry<T>>, pushed: seq<T>)
    requires Shape(u, stack, path, pend, roots) && PathOk(graph, u, path) && PendOk(graph, path, pend)
    requires stack != [] && stack[|stack| - 1].Visit?
    requires var y := stack[|stack| - 1].node;
      && (y in isActive ==> pushed == [])
      && stack' == stack[..|stack| - 1] + [Finish(y)] + Visits(pushed)
    ensures var y := stack[|stack| - 1].node; var isActive' := isActive[y := true];
      || |Universe(graph, u) - isActive'.Keys| < |Universe(graph, u) - isActive.Keys|
      || (isActive'.Keys == isActive.Keys && Weight(stack') < Weight(stack))
  {
    var y := stack[|stack| - 1].node;
    if y !in isActive {
      VisitShape(u, stack, path, pend, roots);
      VisitPath(graph, u, path, pend, y);
      NewNodeProgress(Universe(graph, u), isActive, y);
    } else {
      SeenNodeProgress(stack, isActive, stack');
    }
  }

  lemma NewNodeProgress<T>(U: set<T>, isActive: map<T, bool>, y: T)
    requires y in U && y !in isActive
    ensures |U - isActive[y := true].Keys| < |U - isActive.Keys|
  {
    assert isActive[y := true].Keys == isActive.Keys + {y};
    Fewer(U, isActive.Keys, y);
  }

  lemma SeenNodeProgress<T>(stack: seq<Entry<T>>, isActive: map<T, bool>, stack': seq<Entry<T>>)
    requires stack != [] && stack[|stack| - 1].Visit? && stack[|stack| - 1].node in isActive
    requires stack' == stack[..|stack| - 1] + [Finish(stack[|stack| - 1].node)] + Visits([])
    ensures isActive[stack[|stack| - 1].node := true].Keys == isActive.Keys && Weight(stack') < Weight(stack)
  {
    var y := stack[|stack| - 1].node;
    var popped := stack[..|stack| - 1];
    assert stack == popped + [Visit(y)];
    assert Visits<T>([]) == [];
    assert stack' == popped + [Finish(y)];
    WeightSnoc(popped, Finish(y));
    WeightSnoc(popped, Visit(y));
  }

  /** What the cycle branch needs: the new path, and the markers on the stack are that path. */
  lemma HitFacts<T(!new)>(graph: map<T, seq<T>>, u: T, v: Option<T>, stack: seq<Entry<T>>, path: seq<T>,
                          isActive: map<T, bool>, pend: seq<seq<T>>, roots: seq<T>,
                          rank: map<T, nat>, counter: nat, stack': seq<Entry<T>>, pushed: seq<T>)
    requires Core(graph, u, v, stack, path, isActive, pend, roots, rank, counter)
    requires Accounted(graph, path, pend, rank, |path|)
    requires stack != [] && stack[|stack| - 1].Visit? && v != Some(stack[|stack| - 1].node)
    requires stack' == stack[..|stack| - 1] + [Finish(stack[|stack| - 1].node)] + Visits(pushed)
    ensures var y := stack[|stack| - 1].node;
      && PathOk(graph, u, path + [y])
      && ActiveOk(path + [y], isActive[y := true])
      && Markers(stack') == path + [y]
  {
    var y := stack[|stack| - 1].node;
    VisitShape(u, stack, path, pend, roots);
    VisitPath(graph, u, path, pend, y);
    VisitActive(graph, path, isActive, rank, counter, y);
    var base := stack[..|stack| - 1] + [Finish(y)];
    assert base == Visits([]) + Layout(path + [y], Popped(pend) + [[]]);
    assert Visits<T>([]) == [];
    assert base == Layout(path + [y], Popped(pend) + [[]]);
    LayoutMarkers(path + [y], Popped(pend) + [[]]);
    MarkersAppend(base, Visits(pushed));
    MarkersVisits(pushed);
  }

  /** An edge from the last path node back to an active node closes a cycle reachable from `u`. */
  lemma BackEdge<T(!new)>(graph: map<T, seq<T>>, u: T, path: seq<T>, isActive: map<T, bool>, c: T)
    requires PathOk(graph, u, path) && ActiveOk(path, isActive) && path != []
    requires c in Succ(graph, path[|path| - 1]) && c in isActive && isActive[c]
    ensures c in path && CycleReachable(graph, u)
    ensures path[|path| - 1] !in Succ(graph, path[|path| - 1]) ==> |path| >= 2
  {
    var p := path + [c];
    var j :| 0 <= j < |path| && path[j] == c;
    assert p[j] == p[|p| - 1];
    assert IsPath(graph, p) by {
      forall i | 0 <= i < |p| - 1 ensures p[i + 1] in Succ(graph, p[i]) {
        if i < |path| - 1 {
          assert p[i + 1] == path[i + 1];
        }
      }
    }
    assert p[0] == u;
  }

  // ---------------------------------------------------------------------
  // An empty stack: everything reachable is finished
  // ---------------------------------------------------------------------

  /** Along a walk from a ranked node, ranks strictly decrease. */
  lemma {:induction false} RankedWalk<T>(graph: map<T, seq<T>>, rank: map<T, nat>, p: seq<T>)
    requires |p| >= 1 && p[0] in rank && IsPath(graph, p)
    requires forall x, c :: x in rank && Edge(graph, x, c) ==> c in rank && rank[c] < rank[x]
    ensures forall i :: 0 <= i < |p| ==> p[i] in rank
    ensures forall i, j :: 0 <= i < j < |p| ==> rank[p[j]] < rank[p[i]]
  {
    if |p| > 1 {
      var q := p[..|p| - 1];
      RankedWalk(graph, rank, q);
      assert Edge(graph, q[|q| - 1], p[|p| - 1]);
      forall i, j | 0 <= i < j < |p| ensures rank[p[j]] < rank[p[i]] {
        if j < |p| - 1 {
          assert p[i] == q[i] && p[j] == q[j];
        } else if i < |p| - 2 {
          assert rank[q[|q| - 1]] < rank[q[i]];
        }
      }
    }
  }

  lemma EmptyStack<T(!new)>(graph: map<T, seq<T>>, u: T, v: Option<T>, path: seq<T>,
                      isActive: map<T, bool>, pend: seq<seq<T>>, roots: seq<T>,
                      rank: map<T, nat>, counter: nat)
    requires Core(graph, u, v, [], path, isActive, pend, roots, rank, counter)
    ensures !CycleReachable(graph, u)
    ensures v.Some? ==> !Reachable(graph, u, v.value)
  {
    if path != [] {
      LayoutTop(path, pend);
    }
    assert u in rank by {
      assert u in isActive && u !in path;
    }
    forall p, j | |p| >= 2 && p[0] == u && IsPath(graph, p) && 0 <= j < |p| - 1
      ensures p[j] != p[|p| - 1]
    {
      RankedWalk(graph, rank, p);
    }
    if v.Some? {
      forall p | |p| >= 1 && p[0] == u && IsPath(graph, p)
        ensures p[|p| - 1] != v.value
      {
        RankedWalk(graph, rank, p);
      }
    }
  }

  // ---------------------------------------------------------------------
  // The search
  // ---------------------------------------------------------------------

  lemma PathReachable<T(!new)>(graph: map<T, seq<T>>, p: seq<T>)
    requires |p| >= 1 && IsPath(graph, p)
    ensures Reachable(graph, p[0], p[|p| - 1])
  {
  }

  /** Marking one more node of the universe leaves fewer unmarked. */
  lemma Fewer<T>(U: set<T>, K: set<T>, y: T)
    requires y in U && y !in K
    ensures |U - (K + {y})| < |U - K|
  {
    assert U - K == (U - (K + {y})) + {y};
  }

  /**
   * What a cycle report promises: a walk of at least two nodes that starts at
   * the search's start (or is `[x, x]` for a node with an edge to itself),
   * whose last node has an edge back into it, so that a cycle is reachable.
   */
  ghost predicate Reported<T(!new)>(graph: map<T, seq<T>>, u: T, cyc: seq<T>)
  {
    && |cyc| >= 2 && IsPath(graph, cyc) && CycleReachable(graph, u)
    && (cyc[0] == u || cyc == [cyc[1], cyc[1]])
    && (exists j :: 0 <= j < |cyc| && cyc[j] in Succ(graph, cyc[|cyc| - 1]))
  }

  lemma CycleReport<T(!new)>(graph: map<T, seq<T>>, u: T, path: seq<T>, c: T)
    requires PathOk(graph, u, path) && path != [] && c in path && c in Succ(graph, path[|path| - 1])
    requires CycleReachable(graph, u)
    requires path[|path| - 1] !in Succ(graph, path[|path| - 1]) ==> |path| >= 2
    ensures var y := path[|path| - 1];
      Reported(graph, u, if y in Succ(graph, y) then [y, y] else path)
  {
    var y := path[|path| - 1];
    if y in Succ(graph, y) {
      assert [y, y][0] in Succ(graph, [y, y][1]);
    } else {
      var j :| 0 <= j < |path| && path[j] == c;
    }
  }

  /** A finished node has all its children finished: they are all known. */
  lemma SeenChildren<T(!new)>(graph: map<T, seq<T>>, isActive: map<T, bool>, rank: map<T, nat>, counter: nat, y: T)
    requires RankOk(graph, isActive, rank, counter) && y in rank
    ensures forall c :: c in Succ(graph, y) ==> c in isActive
  {
    forall c | c in Succ(graph, y) ensures c in isActive {
      assert Edge(graph, y, c);
    }
  }

  /**
   * The branch of the main loop for a popped finish marker `Node(x)`: `x` is
   * marked finished and popped off the path (the source's RuntimeError when
   * `x` is not the last path node cannot happen).
   */
  method FinishNode<T(!new)>(graph: map<T, seq<T>>, ghost u: T, ghost v: Option<T>, stack: seq<Entry<T>>,
                             path: seq<T>, isActive: map<T, bool>, ghost pend: seq<seq<T>>, ghost roots: seq<T>,
                             ghost rank: map<T, nat>, ghost counter: nat)
    returns (stack': seq<Entry<T>>, path': seq<T>, isActive': map<T, bool>, ghost pend': seq<seq<T>>,
             ghost rank': map<T, nat>, ghost counter': nat)
    requires Core(graph, u, v, stack, path, isActive, pend, roots, rank, counter)
    requires Accounted(graph, path, pend, rank, |path|)
    requires stack != [] && stack[|stack| - 1].Finish?
    ensures Core(graph, u, v, stack', path', isActive', pend', roots, rank', counter')
    ensures Accounted(graph, path', pend', rank', |path'|)
    ensures var x := stack[|stack| - 1].node;
      && stack' == stack[..|stack| - 1] && path' == path[..|path| - 1]
      && isActive'.Keys == isActive.Keys && x in isActive' && !isActive'[x]
    ensures Weight(stack') < Weight(stack)
  {
    var x := stack[|stack| - 1].node;
    stack' := stack[..|stack| - 1];
    assert stack == stack' + [Finish(x)];
    WeightSnoc(stack', Finish(x));
    FinishStep(graph, u, v, stack, path, isActive, pend, roots, rank, counter);
    isActive' := isActive[x := false];
    if path[|path| - 1] != x {
      // the source raises RuntimeError here
      assert false;
    }
    path' := path[..|path| - 1];
    pend' := pend[..|pend| - 1];
    rank', counter' := rank, counter;
    if x !in rank {
      rank' := rank[x := counter];
      counter' := counter + 1;
    }
  }

  /**
   * The branch of the main loop for a popped node `y` to visit: it is appended
   * to the path; the search ends with that path if `y` is the target, and
   * otherwise `y` is marked active, its finish marker pushed and its children
   * scanned. `Some` carries the end of the search, `None` means carry on.
   */
  method VisitNode<T(!new)>(graph: map<T, seq<T>>, ghost u: T, v: Option<T>, stack: seq<Entry<T>>,
                            path: seq<T>, isActive: map<T, bool>, ghost pend: seq<seq<T>>, ghost roots: seq<T>,
                            ghost rank: map<T, nat>, ghost counter: nat)
    returns (r: Option<Outcome<T>>, stack': seq<Entry<T>>, path': seq<T>, isActive': map<T, bool>,
             ghost pend': seq<seq<T>>)
    requires Core(graph, u, v, stack, path, isActive, pend, roots, rank, counter)
    requires Accounted(graph, path, pend, rank, |path|)
    requires stack != [] && stack[|stack| - 1].Visit?
    ensures var y := stack[|stack| - 1].node;
      r.Some? && r.value.Found? ==>
        && v == Some(y) && r.value.path == path + [y]
        && r.value.path[0] == u && IsPath(graph, r.value.path)
    ensures r.Some? ==> r.value.Found? || r.value.Cycle?
    ensures r.Some? && r.value.Cycle? ==> Reported(graph, u, r.value.cycle)
    ensures r.None? ==>
      && Core(graph, u, v, stack', path', isActive', pend', [], rank, counter)
      && Accounted(graph, path', pend', rank, |path'|)
      && (|Universe(graph, u) - isActive'.Keys| < |Universe(graph, u) - isActive.Keys|
          || (isActive'.Keys == isActive.Keys && Weight(stack') < Weight(stack)))
  {
    var y := stack[|stack| - 1].node;
    var popped := stack[..|stack| - 1];
    path' := path + [y];
    if v == Some(y) {
      VisitShape(u, stack, path, pend, roots);
      VisitPath(graph, u, path, pend, y);
      r, stack', isActive', pend' := Some(Found(path')), popped, isActive, pend;
    } else {
      isActive' := isActive[y := true];
      var hit;
      ghost var pushed;
      stack', hit, pushed := PushChildren(Succ(graph, y), isActive', popped + [Finish(y)]);
      pend' := Popped(pend) + [pushed];
      if hit.Some? {
        HitFacts(graph, u, v, stack, path, isActive, pend, roots, rank, counter, stack', pushed);
        BackEdge(graph, u, path', isActive', hit.value);
        CycleReport(graph, u, path', hit.value);
        var cyc := RebuildCycle(graph, stack', y, path');
        r := Some(Cycle(cyc));
      } else {
        ExpandDone(graph, u, v, stack, path, isActive, pend, roots, rank, counter, stack', pushed);
        r := None;
      }
    }
  }

  /**
   * `dfs(graph, u, v, raise_cycle)`. With no target (`v` None) it looks for a
   * cycle only; with a target, unless `raiseCycle` is set, it gives up at once
   * when either end is not a key of the graph. A back edge to an active node
   * always ends the search with a cycle report, whatever `raiseCycle` says.
   */
  method Dfs<T(!new)>(graph: map<T, seq<T>>, u: T, v: Option<T>, raiseCycle: bool) returns (r: Outcome<T>)
    ensures r.Found? ==>
      && v.Some? && |r.path| >= 1 && r.path[0] == u && r.path[|r.path| - 1] == v.value
      && IsPath(graph, r.path) && Reachable(graph, u, v.value)
    ensures r.Cycle? ==> Reported(graph, u, r.cycle)
    ensures v.Some? && !raiseCycle && (u !in graph || v.value !in graph) ==> r.NotFound?
    ensures r.NotFound? ==>
      || (v.Some? && !raiseCycle && (u !in graph || v.value !in graph))
      || (!CycleReachable(graph, u) && (v.Some? ==> !Reachable(graph, u, v.value)))
  {
    var raise := raiseCycle;
    if v.None? {
      raise := true;
    }
    if !raise && (u !in graph || v.value !in graph) {
      return NotFound;
    }
    var isActive: map<T, bool> := map[];
    var path: seq<T> := [];
    var stack: seq<Entry<T>> := [Visit(u)];
    ghost var pend: seq<seq<T>> := [];
    ghost var roots: seq<T> := [u];
    ghost var rank: map<T, nat> := map[];
    ghost var counter: nat := 0;
    assert stack == Visits(roots) + Layout(path, pend);
    while stack != []
      invariant Core(graph, u, v, stack, path, isActive, pend, roots, rank, counter)
      invariant Accounted(graph, path, pend, rank, |path|)
      decreases |Universe(graph, u) - isActive.Keys|, Weight(stack)
    {
      if stack[|stack| - 1].Finish? {
        stack, path, isActive, pend, rank, counter := FinishNode(graph, u, v, stack, path, isActive,
                                                                 pend, roots, rank, counter);
      } else {
        var outcome;
        outcome, stack, path, isActive, pend := VisitNode(graph, u, v, stack, path, isActive,
                                                          pend, roots, rank, counter);
        roots := [];
        if outcome.Some? {
          if outcome.value.Found? {
            PathReachable(graph, outcome.value.path);
          }
          return outcome.value;
        }
      }
    }
    EmptyStack(graph, u, v, path, isActive, pend, roots, rank, counter);
    return NotFound;
  }
}
