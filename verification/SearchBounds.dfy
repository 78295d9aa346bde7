/** The shape of the reported paths, and what a search costs. */
module SearchBounds {
  import opened Digraphs
  import opened CycleSearch
  import opened Sequences

  // ---------------------------------------------------------------- reported paths

  /** Every step of p is an edge of g. */
  predicate IsPath(g: Graph, p: seq<int>) {
    && (forall x | 0 <= x < |p| :: 0 <= p[x] < |g|)
    && (forall x | 0 <= x < |p| - 1 :: p[x + 1] in g[p[x]])
  }

  /** The vertices on the stack are marked, each stands there once, and they lead to v. */
  ghost predicate OnStack(g: Graph, path: seq<int>, v: nat, visited: set<nat>) {
    && IsPath(g, path + [v]) && Distinct(path)
    && forall x | 0 <= x < |path| :: path[x] in visited
  }

  /** A report continues the stack along edges; only its last vertex may be a repetition. */
  predicate Reportable(g: Graph, path: seq<int>, r: seq<int>) {
    && |path| < |r| && path <= r && IsPath(g, r) && Distinct(r[..|r| - 1])
  }

  lemma {:induction false} DfsReports(g: Graph, v: nat, path: seq<int>, visited: set<nat>, r: seq<int>)
    requires v < |g| && OnStack(g, path, v, visited) && r in Dfs(g, v, path, visited).reports
    ensures Reportable(g, path, r)
    decreases Vertices(g) - visited, 0, 0
  {
    if v in visited {
      assert r == path + [v] && r[..|r| - 1] == path;
    } else {
      DfsEdgesReports(g, v, |g[v]|, path + [v], visited + {v}, r);
      assert path == (path + [v])[..|path|];
    }
  }

  lemma {:induction false} DfsEdgesReports(g: Graph, v: nat, n: nat, path: seq<int>, visited: set<nat>, r: seq<int>)
    requires v < |g| && n <= |g[v]| && r in DfsEdges(g, v, n, path, visited).reports
    requires IsPath(g, path) && Distinct(path) && path != [] && path[|path| - 1] == v
    requires forall x | 0 <= x < |path| :: path[x] in visited
    ensures Reportable(g, path, r)
    decreases Vertices(g) - visited, 1, n
  {
    var done := DfsEdges(g, v, n - 1, path, visited);
    if r in done.reports {
      DfsEdgesReports(g, v, n - 1, path, visited, r);
    } else {
      DfsReports(g, g[v][n - 1], path, done.visited, r);
    }
  }

  lemma FirstEdgeOnStack(g: Graph, i: nat, j: nat)
    requires i < |g| && j < |g[i]|
    ensures OnStack(g, [i], g[i][j], {i})
  {
    var p: seq<int> := [i] + [g[i][j]];
    assert p[0] == i && p[1] == g[i][j] && g[i][j] in g[i];
  }

  lemma {:induction false} SearchReportsShape(g: Graph, i: nat, n: nat, r: seq<int>)
    requires i < |g| && n <= |g[i]| && r in Search(g, i, n).reports
    ensures Reportable(g, [i], r)
  {
    if r in Search(g, i, n - 1).reports {
      SearchReportsShape(g, i, n - 1, r);
    } else {
      FirstEdgeOnStack(g, i, n - 1);
      DfsReports(g, g[i][n - 1], [i], {i}, r);
    }
  }

  lemma {:induction false} DistinctIsShort(p: seq<int>, n: nat)
    requires Distinct(p) && forall x | 0 <= x < |p| :: 0 <= p[x] < n
    ensures |p| <= n
    decreases n
  {
    if p != [] {
      assert 0 <= p[0] < n;
      if exists x :: 0 <= x < |p| && p[x] == n - 1 {
        var x :| 0 <= x < |p| && p[x] == n - 1;
        DistinctIsShort(p[..x] + p[x + 1..], n - 1);
      } else {
        DistinctIsShort(p, n - 1);
      }
    }
  }

  /** Every report of the check follows real edges, repeats no vertex before its last one,
      and has between two vertices and one more than the graph has. */
  lemma {:induction false} CheckReportsShape(g: Graph, n: nat, r: seq<int>)
    requires n <= |g| && r in Check(g, n).reports
    ensures 2 <= |r| <= |g| + 1 && IsPath(g, r) && Distinct(r[..|r| - 1])
  {
    if Check(g, n - 1).reports != [] {
      CheckReportsShape(g, n - 1, r);
    } else {
      SearchReportsShape(g, n - 1, |g[n - 1]|, r);
      DistinctIsShort(r[..|r| - 1], |g|);
    }
  }

  // ---------------------------------------------------------------- which paths are reported

  lemma {:induction false} DfsReportsExtend(g: Graph, v: nat, path: seq<int>, visited: set<nat>, r: seq<int>)
    requires v < |g| && r in Dfs(g, v, path, visited).reports
    ensures path + [v] <= r
    decreases Vertices(g) - visited, 0, 0
  {
    if v !in visited {
      DfsEdgesReportsExtend(g, v, |g[v]|, path + [v], visited + {v}, r);
    }
  }

  lemma {:induction false} DfsEdgesReportsExtend(g: Graph, v: nat, n: nat, path: seq<int>, visited: set<nat>, r: seq<int>)
    requires v < |g| && n <= |g[v]| && r in DfsEdges(g, v, n, path, visited).reports
    ensures path <= r
    decreases Vertices(g) - visited, 1, n
  {
    var done := DfsEdges(g, v, n - 1, path, visited);
    if r in done.reports {
      DfsEdgesReportsExtend(g, v, n - 1, path, visited, r);
    } else {
      DfsReportsExtend(g, g[v][n - 1], path, done.visited, r);
    }
  }

  /** The path starts with the root i and goes on to c. */
  predicate StartsWith(r: seq<int>, i: int, c: int) {
    |r| >= 2 && r[0] == i && r[1] == c
  }

  /** A root goes on after a report: through each edge there is one exactly when two walks from its target meet. */
  lemma {:induction false} SearchReportsPerEdge(g: Graph, i: nat, n: nat, c: nat)
    requires i < |g| && n <= |g[i]|
    ensures (exists r | r in Search(g, i, n).reports :: StartsWith(r, i, c)) <==>
              exists j: nat | j < n :: g[i][j] == c && TwoWalks(g, g[i][j])
  {
    if n > 0 {
      var m := n - 1;
      var last := Dfs(g, g[i][m], [i], {i});
      SearchReportsPerEdge(g, i, m, c);
      FirstEdgeReports(g, i, m);
      forall r | r in last.reports
        ensures StartsWith(r, i, g[i][m])
      {
        DfsReportsExtend(g, g[i][m], [i], {i}, r);
      }
      assert Search(g, i, n).reports == Search(g, i, m).reports + last.reports;
      if last.reports != [] {
        assert last.reports[0] in Search(g, i, n).reports;
      }
    }
  }

  /** Root i has an edge to a vertex from which two walks meet, and is the first root that has. */
  ghost predicate FirstAmbiguous(g: Graph, i: nat) {
    && i < |g| && (exists j: nat | j < |g[i]| :: TwoWalks(g, g[i][j]))
    && forall i': nat, j: nat | i' < i && j < |g[i']| :: !TwoWalks(g, g[i'][j])
  }

  lemma CheckIsFirstRoots(g: Graph, i: nat)
    requires FirstAmbiguous(g, i)
    ensures Check(g, |g|).reports == Search(g, i, |g[i]|).reports
  {
    assert Check(g, i).reports == [] by {
      CheckMeaning(g, i);
    }
    assert Search(g, i, |g[i]|).reports != [] by {
      SearchMeaning(g, i, |g[i]|);
    }
    assert Check(g, i + 1).reports == [] + Search(g, i, |g[i]|).reports;
    CheckStops(g, i + 1, |g|);
  }

  /** The reports are those of the first root that has one, one at least for each of its edges whose
      target two walks lead on from. */
  lemma CheckReportsPerEdge(g: Graph, i: nat, c: nat)
    requires FirstAmbiguous(g, i)
    ensures forall r | r in Check(g, |g|).reports :: |r| >= 2 && r[0] == i
    ensures (exists r | r in Check(g, |g|).reports :: StartsWith(r, i, c)) <==>
              exists j: nat | j < |g[i]| :: g[i][j] == c && TwoWalks(g, g[i][j])
  {
    CheckIsFirstRoots(g, i);
    var own := Search(g, i, |g[i]|);
    SearchReportsPerEdge(g, i, |g[i]|, c);
    forall r | r in own.reports
      ensures |r| >= 2 && r[0] == i
    {
      SearchReportsStart(g, i, |g[i]|, r);
    }
  }

  lemma {:induction false} SearchReportsStart(g: Graph, i: nat, n: nat, r: seq<int>)
    requires i < |g| && n <= |g[i]| && r in Search(g, i, n).reports
    ensures |r| >= 2 && r[0] == i
  {
    if r in Search(g, i, n - 1).reports {
      SearchReportsStart(g, i, n - 1, r);
    } else {
      DfsReportsExtend(g, g[i][n - 1], [i], {i}, r);
    }
  }

  // ---------------------------------------------------------------- which vertices are marked

  /** All edges of x lead to marked vertices. */
  predicate Followed(g: Graph, x: nat, visited: set<nat>)
    requires x < |g|
  {
    forall j | 0 <= j < |g[x]| :: g[x][j] in visited
  }

  /** A search leaves no edge of a vertex it marked unfollowed, whatever it reports on the way. */
  lemma {:induction false} DfsFollows(g: Graph, v: nat, path: seq<int>, visited: set<nat>)
    requires v < |g|
    ensures var after := Dfs(g, v, path, visited).visited;
            v in after && forall x | x in after - visited :: x < |g| && Followed(g, x, after)
    decreases Vertices(g) - visited, 0, 0
  {
    if v !in visited {
      DfsEdgesFollow(g, v, |g[v]|, path + [v], visited + {v});
      assert Followed(g, v, DfsEdges(g, v, |g[v]|, path + [v], visited + {v}).visited);
    }
  }

  lemma {:induction false} DfsEdgesFollow(g: Graph, v: nat, n: nat, path: seq<int>, visited: set<nat>)
    requires v < |g| && n <= |g[v]|
    ensures var after := DfsEdges(g, v, n, path, visited).visited;
            && (forall j | 0 <= j < n :: g[v][j] in after)
            && forall x | x in after - visited :: x < |g| && Followed(g, x, after)
    decreases Vertices(g) - visited, 1, n
  {
    if n > 0 {
      var before := DfsEdges(g, v, n - 1, path, visited).visited;
      DfsEdgesFollow(g, v, n - 1, path, visited);
      DfsFollows(g, g[v][n - 1], path, before);
      var after := DfsEdges(g, v, n, path, visited).visited;
      assert forall x | x in before - visited :: Followed(g, x, before) ==> Followed(g, x, after);
    }
  }

  /** The walk w from v meets no marked vertex. */
  predicate NewWalk(g: Graph, v: nat, w: seq<nat>, visited: set<nat>)
    requires v < |g|
    decreases w
  {
    v !in visited && (w == [] || (w[0] < |g[v]| && NewWalk(g, g[v][w[0]], w[1..], visited)))
  }

  /** From v a walk leads to x that meets no marked vertex. */
  ghost predicate ReachesAnew(g: Graph, v: nat, visited: set<nat>, x: nat)
    requires v < |g|
  {
    exists w | NewWalk(g, v, w, visited) && IsWalk(g, v, w) :: End(g, v, w) == x
  }

  lemma {:induction false} NewForLess(g: Graph, v: nat, w: seq<nat>, more: set<nat>, visited: set<nat>)
    requires v < |g| && NewWalk(g, v, w, more) && visited <= more
    ensures NewWalk(g, v, w, visited)
    decreases w
  {
    if w != [] {
      NewForLess(g, g[v][w[0]], w[1..], more, visited);
    }
  }

  lemma {:induction false} DfsMarksReached(g: Graph, v: nat, path: seq<int>, visited: set<nat>, x: nat)
    requires v < |g| && x in Dfs(g, v, path, visited).visited - visited
    ensures ReachesAnew(g, v, visited, x)
    decreases Vertices(g) - visited, 0, 0
  {
    if x == v {
      assert NewWalk(g, v, [], visited) && IsWalk(g, v, []) && End(g, v, []) == v;
    } else {
      DfsEdgesMarkReached(g, v, |g[v]|, path + [v], visited, x);
    }
  }

  lemma {:induction false} DfsEdgesMarkReached(g: Graph, v: nat, n: nat, path: seq<int>, visited: set<nat>, x: nat)
    requires v < |g| && n <= |g[v]| && v !in visited
    requires x in DfsEdges(g, v, n, path, visited + {v}).visited - visited - {v}
    ensures ReachesAnew(g, v, visited, x)
    decreases Vertices(g) - visited - {v}, 1, n
  {
    var before := DfsEdges(g, v, n - 1, path, visited + {v}).visited;
    if x in before {
      DfsEdgesMarkReached(g, v, n - 1, path, visited, x);
    } else {
      var c := g[v][n - 1];
      DfsMarksReached(g, c, path, before, x);
      var w :| NewWalk(g, c, w, before) && IsWalk(g, c, w) && End(g, c, w) == x;
      NewForLess(g, c, w, before, visited);
      assert ([n - 1] + w)[1..] == w;
      assert NewWalk(g, v, [n - 1] + w, visited) && IsWalk(g, v, [n - 1] + w) && End(g, v, [n - 1] + w) == x;
    }
  }

  lemma {:induction false} FollowedWalk(g: Graph, v: nat, w: seq<nat>, visited: set<nat>, after: set<nat>)
    requires v < |g| && NewWalk(g, v, w, visited) && IsWalk(g, v, w) && v in after
    requires forall x | x in after - visited :: x < |g| && Followed(g, x, after)
    ensures End(g, v, w) in after - visited
    decreases w
  {
    if w != [] {
      assert Followed(g, v, after);
      FollowedWalk(g, g[v][w[0]], w[1..], visited, after);
    }
  }

  /** Whatever it reports on the way, a search marks exactly the vertices to which walks lead that meet no
      vertex marked before. */
  lemma DfsMarksIff(g: Graph, v: nat, path: seq<int>, visited: set<nat>, x: nat)
    requires v < |g|
    ensures x in Dfs(g, v, path, visited).visited - visited <==> ReachesAnew(g, v, visited, x)
  {
    var after := Dfs(g, v, path, visited).visited;
    DfsFollows(g, v, path, visited);
    if x in after - visited {
      DfsMarksReached(g, v, path, visited, x);
    }
    if ReachesAnew(g, v, visited, x) {
      var w :| NewWalk(g, v, w, visited) && IsWalk(g, v, w) && End(g, v, w) == x;
      FollowedWalk(g, v, w, visited, after);
    }
  }

  ghost function Elements(p: seq<int>): set<int> {
    set x | 0 <= x < |p| :: p[x]
  }

  /** Without branching the marked vertices are those on the stack. */
  lemma {:induction false} DfsReportCloses(g: Graph, v: nat, path: seq<int>, visited: set<nat>, r: seq<int>)
    requires OutDegreeAtMostOne(g) && v < |g| && Elements(path) == visited
    requires r in Dfs(g, v, path, visited).reports
    ensures r != [] && r[|r| - 1] in r[..|r| - 1]
    decreases Vertices(g) - visited
  {
    if v in visited {
      assert v in Elements(path);
      assert r == path + [v] && r[..|r| - 1] == path;
    } else {
      assert |g[v]| == 1 && DfsEdges(g, v, 0, path + [v], visited + {v}).reports == [];
      assert Elements(path + [v]) == visited + {v} by {
        assert Elements(path + [v]) <= visited + {v};
        assert (path + [v])[|path|] == v;
        forall u | u in visited
          ensures u in Elements(path + [v])
        {
          var x :| 0 <= x < |path| && path[x] == u;
          assert (path + [v])[x] == u;
        }
      }
      DfsReportCloses(g, g[v][0], path + [v], visited + {v}, r);
    }
  }

  /** The last vertex of a path already stands earlier on it. */
  ghost predicate Closes(r: seq<int>) {
    exists x :: 0 <= x < |r| - 1 && r[x] == r[|r| - 1]
  }

  lemma RootReportCloses(g: Graph, i: nat, r: seq<int>)
    requires OutDegreeAtMostOne(g) && i < |g| && r in Search(g, i, |g[i]|).reports
    ensures r != [] && r[|r| - 1] in r[..|r| - 1]
  {
    assert |g[i]| == 1 && Search(g, i, 0).reports == [];
    assert Elements([i]) == {i} by {
      assert [i][0] in Elements([i]);
    }
    DfsReportCloses(g, g[i][0], [i], {i}, r);
  }

  /** Without branching, a report ends on a vertex it already passed: the part from there on is a cycle. */
  lemma {:induction false} ReportContainsCycle(g: Graph, n: nat, r: seq<int>)
    requires OutDegreeAtMostOne(g) && n <= |g| && r in Check(g, n).reports
    ensures IsPath(g, r)
    ensures Closes(r)
  {
    CheckReportsShape(g, n, r);
    if Check(g, n - 1).reports != [] {
      ReportContainsCycle(g, n - 1, r);
    } else {
      RootReportCloses(g, n - 1, r);
      var x :| 0 <= x < |r| - 1 && r[..|r| - 1][x] == r[|r| - 1];
      assert r[x] == r[|r| - 1];
    }
  }

  // ---------------------------------------------------------------- cost

  /** The number of edges that leave the vertices of s among the first n. */
  function EdgesFrom(g: Graph, s: set<nat>, n: nat): nat
    requires n <= |g|
  {
    if n == 0 then 0 else EdgesFrom(g, s, n - 1) + if n - 1 in s then |g[n - 1]| else 0
  }

  /** The number of edges of the first n vertices. */
  function EdgeCount(g: Graph, n: nat): nat
    requires n <= |g|
  {
    if n == 0 then 0 else EdgeCount(g, n - 1) + |g[n - 1]|
  }

  lemma {:induction false} EdgesFromAdd(g: Graph, s: set<nat>, v: nat, n: nat)
    requires n <= |g| && v < |g| && v !in s
    ensures EdgesFrom(g, s + {v}, n) == EdgesFrom(g, s, n) + if v < n then |g[v]| else 0
  {
    if n > 0 {
      EdgesFromAdd(g, s, v, n - 1);
    }
  }

  lemma {:induction false} EdgesFromBound(g: Graph, s: set<nat>, n: nat)
    requires n <= |g|
    ensures EdgesFrom(g, s, n) <= EdgeCount(g, n)
  {
    if n > 0 {
      EdgesFromBound(g, s, n - 1);
    }
  }

  /** A search makes one call for itself and one per edge of the vertices it marks;
      each call marks a vertex or reports. */
  lemma {:induction false} DfsCalls(g: Graph, v: nat, path: seq<int>, visited: set<nat>)
    requires v < |g|
    ensures var r := Dfs(g, v, path, visited);
            && r.calls == 1 + EdgesFrom(g, r.visited, |g|) - EdgesFrom(g, visited, |g|)
            && r.calls == |r.visited| - |visited| + |r.reports|
    decreases Vertices(g) - visited, 0, 0
  {
    if v !in visited {
      DfsEdgesCalls(g, v, |g[v]|, path + [v], visited + {v});
      EdgesFromAdd(g, visited, v, |g|);
    }
  }

  lemma {:induction false} DfsEdgesCalls(g: Graph, v: nat, n: nat, path: seq<int>, visited: set<nat>)
    requires v < |g| && n <= |g[v]|
    ensures var r := DfsEdges(g, v, n, path, visited);
            && r.calls == n + EdgesFrom(g, r.visited, |g|) - EdgesFrom(g, visited, |g|)
            && r.calls == |r.visited| - |visited| + |r.reports|
    decreases Vertices(g) - visited, 1, n
  {
    if n > 0 {
      var done := DfsEdges(g, v, n - 1, path, visited);
      DfsEdgesCalls(g, v, n - 1, path, visited);
      DfsCalls(g, g[v][n - 1], path, done.visited);
    }
  }

  /** One search from an edge of a root makes at most one call more than the graph has edges. */
  lemma OneSearchCalls(g: Graph, v: nat, path: seq<int>, visited: set<nat>)
    requires v < |g|
    ensures Dfs(g, v, path, visited).calls <= 1 + EdgeCount(g, |g|)
  {
    DfsCalls(g, v, path, visited);
    EdgesFromBound(g, Dfs(g, v, path, visited).visited, |g|);
  }

  lemma {:induction false} SearchCallsBound(g: Graph, i: nat, n: nat, e: nat)
    requires i < |g| && n <= |g[i]| && e == EdgeCount(g, |g|) + 1
    ensures Search(g, i, n).calls <= n * e
  {
    if n > 0 {
      SearchCallsBound(g, i, n - 1, e);
      OneSearchCalls(g, g[i][n - 1], [i], {i});
      Distribute(n - 1, 1, e);
    }
  }

  lemma Distribute(a: nat, b: nat, e: nat)
    ensures (a + b) * e == a * e + b * e
  {
  }

  /** A check over a graph with E edges makes at most E * (E + 1) calls. */
  lemma {:induction false} CheckCallsBound(g: Graph, n: nat, e: nat)
    requires n <= |g| && e == EdgeCount(g, |g|) + 1
    ensures Check(g, n).calls <= EdgeCount(g, n) * e
  {
    if n > 0 {
      CheckCallsBound(g, n - 1, e);
      SearchCallsBound(g, n - 1, |g[n - 1]|, e);
      Distribute(EdgeCount(g, n - 1), |g[n - 1]|, e);
    }
  }

  /** What the outcome of a check says about the graph: it tells exactly whether two walks
      from the target of an edge meet, so it finds every cycle, and only cycles when nothing
      branches; the reports are paths of the graph, which close a cycle when nothing branches,
      and there were at most E * (E + 1) calls. */
  ghost predicate Verdict(g: Graph, deadlock: bool, reports: seq<seq<int>>, calls: nat) {
    && (deadlock <==> Ambiguous(g))
    && (HasCycle(g) ==> deadlock)
    && (OutDegreeAtMostOne(g) ==> (deadlock <==> HasCycle(g)))
    && (forall r | r in reports :: 2 <= |r| <= |g| + 1 && IsPath(g, r) && Distinct(r[..|r| - 1]))
    && (OutDegreeAtMostOne(g) ==> forall r | r in reports :: Closes(r))
    && calls <= EdgeCount(g, |g|) * (EdgeCount(g, |g|) + 1)
  }

  lemma CheckVerdict(g: Graph)
    ensures Verdict(g, Check(g, |g|).reports != [], Check(g, |g|).reports, Check(g, |g|).calls)
  {
    ReportsIffAmbiguous(g);
    if HasCycle(g) {
      CyclesAreReported(g);
    }
    if OutDegreeAtMostOne(g) {
      ExactWithoutBranching(g);
    }
    forall r | r in Check(g, |g|).reports
      ensures 2 <= |r| <= |g| + 1 && IsPath(g, r) && Distinct(r[..|r| - 1])
      ensures OutDegreeAtMostOne(g) ==> Closes(r)
    {
      CheckReportsShape(g, |g|, r);
      if OutDegreeAtMostOne(g) {
        ReportContainsCycle(g, |g|, r);
      }
    }
    CheckCallsBound(g, |g|, EdgeCount(g, |g|) + 1);
  }
}
