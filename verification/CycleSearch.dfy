/** The depth-first search behind the deadlock check, as a function of the graph, and
    what its reports mean. The search marks vertices but never unmarks one when it
    backtracks, and it goes on after a report. */
module CycleSearch {
  import opened Digraphs

  /** What a search leaves behind: the marked vertices, the paths it reported, in order,
      and the number of calls of the search function. */
  datatype Trace = Trace(visited: set<nat>, reports: seq<seq<int>>, calls: nat)
  {
    /** This search, followed by one that found the marks this one left. */
    function Then(next: Trace): Trace {
      Trace(next.visited, reports + next.reports, calls + next.calls)
    }
  }

  lemma ThenAssociates(a: Trace, b: Trace, c: Trace)
    ensures a.Then(b).Then(c) == a.Then(b.Then(c))
  {
    assert a.reports + b.reports + c.reports == a.reports + (b.reports + c.reports);
  }

  predicate IsVertex(g: Graph, v: nat) {
    v < |g|
  }

  function Vertices(g: Graph): set<nat> {
    set v: nat | v < |g| && IsVertex(g, v)
  }

  /** The search of vertex v with the vertices of `path` on the stack. */
  function Dfs(g: Graph, v: nat, path: seq<int>, visited: set<nat>): (r: Trace)
    requires v < |g|
    ensures visited <= r.visited
    decreases Vertices(g) - visited, 0, 0
  {
    if v in visited then
      Trace(visited, [path + [v]], 1)
    else
      var r := DfsEdges(g, v, |g[v]|, path + [v], visited + {v});
      Trace(r.visited, r.reports, 1 + r.calls)
  }

  /** The search of the targets of the first n edges of v. */
  function DfsEdges(g: Graph, v: nat, n: nat, path: seq<int>, visited: set<nat>): (r: Trace)
    requires v < |g| && n <= |g[v]|
    ensures visited <= r.visited
    decreases Vertices(g) - visited, 1, n
  {
    if n == 0 then
      Trace(visited, [], 0)
    else
      var done := DfsEdges(g, v, n - 1, path, visited);
      done.Then(Dfs(g, g[v][n - 1], path, done.visited))
  }

  /** The searches that start from root i through its first n edges; each starts afresh
      with only the root marked. */
  function Search(g: Graph, i: nat, n: nat): Trace
    requires i < |g| && n <= |g[i]|
  {
    if n == 0 then Trace({i}, [], 0) else Search(g, i, n - 1).Then(Dfs(g, g[i][n - 1], [i], {i}))
  }

  /** The check over the roots 0..n-1; it stops after the first root that reports. */
  function Check(g: Graph, n: nat): Trace
    requires n <= |g|
  {
    if n == 0 then Trace({}, [], 0)
    else
      var earlier := Check(g, n - 1);
      if earlier.reports != [] then earlier else earlier.Then(Search(g, n - 1, |g[n - 1]|))
  }

  /** Once a root reported, the remaining roots change nothing. */
  lemma {:induction false} CheckStops(g: Graph, i: nat, n: nat)
    requires i <= n <= |g| && Check(g, i).reports != []
    ensures Check(g, n) == Check(g, i)
  {
    if i < n {
      CheckStops(g, i, n - 1);
    }
  }

  // ---------------------------------------------------------------- silence means an out-tree

  /** A longer prefix of the edges marks more, and extends the reports. */
  lemma {:induction false} PrefixOfEdges(g: Graph, v: nat, m: nat, n: nat, path: seq<int>, visited: set<nat>)
    requires v < |g| && m <= n <= |g[v]|
    ensures DfsEdges(g, v, m, path, visited).visited <= DfsEdges(g, v, n, path, visited).visited
    ensures DfsEdges(g, v, m, path, visited).reports <= DfsEdges(g, v, n, path, visited).reports
    decreases n
  {
    if m < n {
      PrefixOfEdges(g, v, m, n - 1, path, visited);
    }
  }

  /** In a silent search of v, the search of v's j-th edge was silent too. */
  lemma SilentEdge(g: Graph, v: nat, j: nat, path: seq<int>, visited: set<nat>)
    requires v < |g| && j < |g[v]| && Dfs(g, v, path, visited).reports == []
    ensures v !in visited
    ensures Dfs(g, g[v][j], path + [v], DfsEdges(g, v, j, path + [v], visited + {v}).visited).reports == []
    ensures DfsEdges(g, v, j + 1, path + [v], visited + {v}).visited <= Dfs(g, v, path, visited).visited
  {
    PrefixOfEdges(g, v, j + 1, |g[v]|, path + [v], visited + {v});
  }

  lemma {:induction false} SilentWalksStayNew(g: Graph, v: nat, path: seq<int>, visited: set<nat>, w: seq<nat>)
    requires v < |g| && Dfs(g, v, path, visited).reports == [] && IsWalk(g, v, w)
    ensures End(g, v, w) !in visited && End(g, v, w) in Dfs(g, v, path, visited).visited
    decreases w
  {
    if w != [] {
      SilentEdge(g, v, w[0], path, visited);
      SilentWalksStayNew(g, g[v][w[0]], path + [v],
                         DfsEdges(g, v, w[0], path + [v], visited + {v}).visited, w[1..]);
    }
  }

  /** A walk that starts with an earlier edge than another one cannot end where the other ends. */
  lemma SilentEdgesApart(g: Graph, v: nat, path: seq<int>, visited: set<nat>, w1: seq<nat>, w2: seq<nat>)
    requires v < |g| && Dfs(g, v, path, visited).reports == []
    requires IsWalk(g, v, w1) && IsWalk(g, v, w2) && w2 != []
    requires w1 == [] || w1[0] < w2[0]
    ensures End(g, v, w1) != End(g, v, w2)
  {
    var p, m, j := path + [v], visited + {v}, w2[0];
    SilentEdge(g, v, j, path, visited);
    var before := DfsEdges(g, v, j, p, m).visited;
    SilentWalksStayNew(g, g[v][j], p, before, w2[1..]);
    if w1 != [] {
      SilentEdge(g, v, w1[0], path, visited);
      SilentWalksStayNew(g, g[v][w1[0]], p, DfsEdges(g, v, w1[0], p, m).visited, w1[1..]);
      PrefixOfEdges(g, v, w1[0] + 1, j, p, m);
    }
  }

  lemma {:induction false} SilentWalksUnique(g: Graph, v: nat, path: seq<int>, visited: set<nat>,
                                             w1: seq<nat>, w2: seq<nat>)
    requires v < |g| && Dfs(g, v, path, visited).reports == []
    requires IsWalk(g, v, w1) && IsWalk(g, v, w2) && End(g, v, w1) == End(g, v, w2)
    ensures w1 == w2
    decreases w1
  {
    if w1 != [] && w2 != [] && w1[0] == w2[0] {
      SilentEdge(g, v, w1[0], path, visited);
      SilentWalksUnique(g, g[v][w1[0]], path + [v],
                        DfsEdges(g, v, w1[0], path + [v], visited + {v}).visited, w1[1..], w2[1..]);
      assert w1 == [w1[0]] + w1[1..] && w2 == [w2[0]] + w2[1..];
    } else if w2 != [] && (w1 == [] || w1[0] < w2[0]) {
      SilentEdgesApart(g, v, path, visited, w1, w2);
    } else if w1 != [] {
      SilentEdgesApart(g, v, path, visited, w2, w1);
    }
  }

  /** No walk from v meets a marked vertex. */
  ghost predicate Avoids(g: Graph, v: nat, visited: set<nat>)
    requires v < |g|
  {
    forall w | IsWalk(g, v, w) :: End(g, v, w) !in visited
  }

  ghost predicate Reaches(g: Graph, v: nat, x: nat)
    requires v < |g|
  {
    exists w | IsWalk(g, v, w) :: End(g, v, w) == x
  }

  /** Some walk from v to x starts with one of the first n edges of v. */
  ghost predicate ReachesThrough(g: Graph, v: nat, n: nat, x: nat)
    requires v < |g|
  {
    exists w | IsWalk(g, v, w) :: w != [] && w[0] < n && End(g, v, w) == x
  }

  lemma {:induction false} TreeIsSilent(g: Graph, v: nat, path: seq<int>, visited: set<nat>)
    requires v < |g| && !TwoWalks(g, v) && Avoids(g, v, visited)
    ensures Dfs(g, v, path, visited).reports == []
    ensures forall x | x in Dfs(g, v, path, visited).visited - visited :: Reaches(g, v, x)
    decreases Vertices(g) - visited, 0, 0
  {
    assert IsWalk(g, v, []);
    assert v !in visited;
    TreeEdgesAreSilent(g, v, |g[v]|, path + [v], visited);
    forall x | x in Dfs(g, v, path, visited).visited - visited
      ensures Reaches(g, v, x)
    {
      if x != v {
        assert ReachesThrough(g, v, |g[v]|, x);
      } else {
        assert End(g, v, []) == x;
      }
    }
  }

  lemma {:induction false} TreeEdgesAreSilent(g: Graph, v: nat, n: nat, path: seq<int>, visited: set<nat>)
    requires v < |g| && n <= |g[v]| && v !in visited && !TwoWalks(g, v) && Avoids(g, v, visited)
    ensures DfsEdges(g, v, n, path, visited + {v}).reports == []
    ensures forall x | x in DfsEdges(g, v, n, path, visited + {v}).visited - visited - {v} ::
              ReachesThrough(g, v, n, x)
    decreases Vertices(g) - visited - {v}, 1, n
  {
    if n > 0 {
      var j, c := n - 1, g[v][n - 1];
      TreeEdgesAreSilent(g, v, j, path, visited);
      var before := DfsEdges(g, v, j, path, visited + {v}).visited;
      TreeChild(g, v, j, visited, before);
      TreeIsSilent(g, c, path, before);
      forall x | x in DfsEdges(g, v, n, path, visited + {v}).visited - visited - {v}
        ensures ReachesThrough(g, v, n, x)
      {
        if x in before {
          assert ReachesThrough(g, v, j, x);
        } else {
          assert Reaches(g, c, x);
          var w :| IsWalk(g, c, w) && End(g, c, w) == x;
          assert ([j] + w)[1..] == w;
          assert IsWalk(g, v, [j] + w) && End(g, v, [j] + w) == x;
        }
      }
    }
  }

  /** What hangs below the j-th edge is again an out-tree, apart from all that was marked before. */
  lemma TreeChild(g: Graph, v: nat, j: nat, visited: set<nat>, before: set<nat>)
    requires v < |g| && j < |g[v]| && !TwoWalks(g, v) && Avoids(g, v, visited)
    requires forall x | x in before - visited - {v} :: ReachesThrough(g, v, j, x)
    ensures !TwoWalks(g, g[v][j]) && Avoids(g, g[v][j], before)
  {
    var c := g[v][j];
    assert IsWalk(g, v, []);
    forall w | IsWalk(g, c, w)
      ensures IsWalk(g, v, [j] + w) && End(g, v, [j] + w) == End(g, c, w)
    {
      assert ([j] + w)[1..] == w;
    }
    forall w, x | IsWalk(g, c, w) && x in before
      ensures End(g, c, w) != x
    {
      assert IsWalk(g, v, [j] + w) && End(g, v, [j] + w) == End(g, c, w);
      if x == v {
        assert [] != [j] + w && End(g, v, []) == v;
      } else if x !in visited {
        assert ReachesThrough(g, v, j, x);
        var w' :| IsWalk(g, v, w') && w' != [] && w'[0] < j && End(g, v, w') == x;
        assert w' != [j] + w;
      }
    }
    forall w1, w2 | IsWalk(g, c, w1) && IsWalk(g, c, w2) && End(g, c, w1) == End(g, c, w2)
      ensures w1 == w2
    {
      assert IsWalk(g, v, [j] + w1) && IsWalk(g, v, [j] + w2);
      assert w1 == ([j] + w1)[1..] && w2 == ([j] + w2)[1..];
    }
  }

  /** The search of v is silent exactly when what v reaches is an out-tree rooted at v
      that avoids the marked vertices. */
  lemma SilentIffTree(g: Graph, v: nat, path: seq<int>, visited: set<nat>)
    requires v < |g|
    ensures Dfs(g, v, path, visited).reports == [] <==> !TwoWalks(g, v) && Avoids(g, v, visited)
  {
    if Dfs(g, v, path, visited).reports == [] {
      forall w | IsWalk(g, v, w)
        ensures End(g, v, w) !in visited
      {
        SilentWalksStayNew(g, v, path, visited, w);
      }
      forall w1, w2 | IsWalk(g, v, w1) && IsWalk(g, v, w2) && End(g, v, w1) == End(g, v, w2)
        ensures w1 == w2
      {
        SilentWalksUnique(g, v, path, visited, w1, w2);
      }
    } else if !TwoWalks(g, v) && Avoids(g, v, visited) {
      TreeIsSilent(g, v, path, visited);
    }
  }

  /** A search through an edge of the root reports exactly when two walks from the edge's
      target meet: reaching the root is a second walk back to the target. */
  lemma FirstEdgeReports(g: Graph, i: nat, j: nat)
    requires i < |g| && j < |g[i]|
    ensures Dfs(g, g[i][j], [i], {i}).reports != [] <==> TwoWalks(g, g[i][j])
  {
    var s := g[i][j];
    SilentIffTree(g, s, [i], {i});
    if !Avoids(g, s, {i}) {
      var w :| IsWalk(g, s, w) && End(g, s, w) == i;
      assert ([j] + w)[1..] == w;
      assert IsWalk(g, i, [j] + w) && End(g, i, [j] + w) == i;
      CycleGivesTwoWalks(g, i, [j] + w);
    }
  }

  // ---------------------------------------------------------------- the whole check

  /** Some edge leads to a vertex from which two walks meet. */
  ghost predicate Ambiguous(g: Graph) {
    exists i: nat, j: nat | i < |g| && j < |g[i]| :: TwoWalks(g, g[i][j])
  }

  lemma {:induction false} SearchMeaning(g: Graph, i: nat, n: nat)
    requires i < |g| && n <= |g[i]|
    ensures Search(g, i, n).reports != [] <==> exists j: nat | j < n :: TwoWalks(g, g[i][j])
  {
    if n > 0 {
      SearchMeaning(g, i, n - 1);
      FirstEdgeReports(g, i, n - 1);
    }
  }

  lemma {:induction false} CheckMeaning(g: Graph, n: nat)
    requires n <= |g|
    ensures Check(g, n).reports != [] <==> exists i: nat, j: nat | i < n && j < |g[i]| :: TwoWalks(g, g[i][j])
  {
    if n > 0 {
      CheckMeaning(g, n - 1);
      SearchMeaning(g, n - 1, |g[n - 1]|);
    }
  }

  /** The exact meaning of the check, on every graph. */
  lemma ReportsIffAmbiguous(g: Graph)
    ensures Check(g, |g|).reports != [] <==> Ambiguous(g)
  {
    CheckMeaning(g, |g|);
  }

  /** Completeness: every cycle is reported. */
  lemma CyclesAreReported(g: Graph)
    requires HasCycle(g)
    ensures Check(g, |g|).reports != []
  {
    var v: nat :| v < |g| && OnCycle(g, v);
    var w :| IsWalk(g, v, w) && w != [] && End(g, v, w) == v;
    CycleGivesTwoWalks(g, v, w);
    ReportsIffAmbiguous(g);
  }

  /** The check answers "is there a cycle?" correctly exactly on the graphs that have
      one or in which no edge leads to a vertex from which two walks meet. */
  lemma CorrectExactlyWhen(g: Graph)
    ensures (Check(g, |g|).reports != [] <==> HasCycle(g)) <==> (HasCycle(g) || !Ambiguous(g))
  {
    ReportsIffAmbiguous(g);
    if HasCycle(g) {
      CyclesAreReported(g);
    }
  }

  /** Without branching, as in a wait-for graph, the check is exact. */
  lemma ExactWithoutBranching(g: Graph)
    requires OutDegreeAtMostOne(g)
    ensures Check(g, |g|).reports != [] <==> HasCycle(g)
  {
    ReportsIffAmbiguous(g);
    if Ambiguous(g) {
      var i: nat, j: nat :| i < |g| && j < |g[i]| && TwoWalks(g, g[i][j]);
      TwoWalksGiveCycle(g, g[i][j]);
    }
    if HasCycle(g) {
      CyclesAreReported(g);
    }
  }

  const DIAMOND: seq<seq<nat>> := [[1], [2, 3], [4], [4], []]

  /** Walks in a graph whose edges all lead to larger vertices only climb. */
  lemma {:induction false} WalksClimb(g: Graph, s: nat, w: seq<nat>)
    requires s < |g| && IsWalk(g, s, w)
    requires forall v, j | 0 <= v < |g| && 0 <= j < |g[v]| :: v < g[v][j]
    ensures w != [] ==> s < End(g, s, w)
    decreases w
  {
    if w != [] {
      WalksClimb(g, g[s][w[0]], w[1..]);
    }
  }

  /** The diamond below an edge has no cycle and is reported all the same. */
  lemma DiamondIsReported()
    ensures WellFormed(DIAMOND) && !HasCycle(DIAMOND) && Check(DIAMOND, |DIAMOND|).reports != []
  {
    var g: Graph := DIAMOND;
    if HasCycle(g) {
      var v: nat :| v < |g| && OnCycle(g, v);
      var w :| IsWalk(g, v, w) && w != [] && End(g, v, w) == v;
      WalksClimb(g, v, w);
    }
    var left, right := [0, 0], [1, 0];
    assert left[1..] == [0] && right[1..] == [0] && [0][1..] == [];
    assert IsWalk(g, 1, left) && IsWalk(g, 1, right) && End(g, 1, left) == End(g, 1, right) && left != right;
    assert TwoWalks(g, g[0][0]);
    ReportsIffAmbiguous(g);
  }
}
