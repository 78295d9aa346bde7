/** Cycles of a wait-for graph as circles of threads. */
module EdgeCircles {
  import opened Digraphs
  import opened CycleSearch
  import opened WaitGraph

  /** Each thread of the chain stands in the relation to the next one. */
  ghost predicate Chain(related: (nat, nat) -> bool, ts: seq<nat>) {
    forall x | 0 <= x < |ts| - 1 :: related(ts[x], ts[x + 1])
  }

  ghost predicate HasCircle(related: (nat, nat) -> bool) {
    exists ts | Chain(related, ts) :: |ts| >= 2 && ts[0] == ts[|ts| - 1]
  }

  lemma CircleIn(r1: (nat, nat) -> bool, r2: (nat, nat) -> bool)
    requires HasCircle(r1) && forall t: nat, o: nat | r1(t, o) :: r2(t, o)
    ensures HasCircle(r2)
  {
    var ts :| Chain(r1, ts) && |ts| >= 2 && ts[0] == ts[|ts| - 1];
    assert Chain(r2, ts);
  }

  ghost predicate Processes(r: Registry) {
    forall p | p in r.keys :: p.kind == PROCESS
  }

  /** The check on this graph reports something. */
  ghost predicate Reported(r: Registry)
    requires r.WellFormed()
  {
    Check(r.Indexed(), |r.keys|).reports != []
  }

  /** No thread has two edges. */
  ghost predicate SingleEdges(r: Registry)
    requires |r.keys| == |r.out|
  {
    forall t: nat :: |r.OutOf(Process(t))| <= 1
  }

  lemma {:induction false} WalkIsChain(r: Registry, v: nat, w: seq<nat>) returns (ts: seq<nat>)
    requires r.WellFormed() && Processes(r) && v < |r.keys| && IsWalk(r.Indexed(), v, w)
    ensures |ts| == |w| + 1 && Chain(r.HasEdge, ts)
    ensures ts[0] == r.keys[v].thId && ts[|w|] == r.keys[End(r.Indexed(), v, w)].thId
    decreases w
  {
    if w == [] {
      ts := [r.keys[v].thId];
    } else {
      RowLength(r, v);
      IndexedAt(r, v, w[0]);
      var u := r.Indexed()[v][w[0]];
      var rest := WalkIsChain(r, u, w[1..]);
      ts := [r.keys[v].thId] + rest;
      assert r.First(v) && r.keys[v] == Process(ts[0]) && r.keys[u] == Process(rest[0]);
      assert r.HasEdge(ts[0], rest[0]);
    }
  }

  lemma {:induction false} ChainIsWalk(r: Registry, ts: seq<nat>) returns (w: seq<nat>)
    requires r.WellFormed() && ts != [] && Chain(r.HasEdge, ts) && Process(ts[0]) in r.keys
    ensures Process(ts[|ts| - 1]) in r.keys && |w| == |ts| - 1
    ensures IsWalk(r.Indexed(), Position(r.keys, Process(ts[0])), w)
    ensures End(r.Indexed(), Position(r.keys, Process(ts[0])), w) == Position(r.keys, Process(ts[|ts| - 1]))
    decreases ts
  {
    if |ts| == 1 {
      w := [];
    } else {
      assert r.HasEdge(ts[0], ts[1]);
      var v := Position(r.keys, Process(ts[0]));
      var j :| 0 <= j < |r.out[v]| && r.out[v][j] == Process(ts[1]);
      assert r.Leads(v, j);
      assert Chain(r.HasEdge, ts[1..]) by {
        forall x | 0 <= x < |ts[1..]| - 1
          ensures r.HasEdge(ts[1..][x], ts[1..][x + 1])
        {
          assert r.HasEdge(ts[x + 1], ts[x + 1 + 1]);
        }
      }
      var rest := ChainIsWalk(r, ts[1..]);
      w := [j] + rest;
      assert w[1..] == rest;
      IndexedAt(r, v, j);
    }
  }

  lemma CycleIffCircle(r: Registry)
    requires r.WellFormed() && Processes(r)
    ensures HasCycle(r.Indexed()) <==> HasCircle(r.HasEdge)
  {
    var g := r.Indexed();
    if HasCycle(g) {
      var v: nat :| v < |g| && OnCycle(g, v);
      var w :| IsWalk(g, v, w) && w != [] && End(g, v, w) == v;
      var ts := WalkIsChain(r, v, w);
    }
    if HasCircle(r.HasEdge) {
      var ts :| Chain(r.HasEdge, ts) && |ts| >= 2 && ts[0] == ts[|ts| - 1];
      assert r.HasEdge(ts[0], ts[0 + 1]);
      var w := ChainIsWalk(r, ts);
      assert OnCycle(g, Position(r.keys, Process(ts[0])));
    }
  }

  /** When no thread has two edges, the check reports exactly the circles. */
  lemma CheckFindsCircles(r: Registry)
    requires r.WellFormed() && Processes(r) && SingleEdges(r)
    ensures Reported(r) <==> HasCircle(r.HasEdge)
  {
    forall v: nat | v < |r.keys|
      ensures |r.Indexed()[v]| <= 1
    {
      RowLength(r, v);
      assert r.First(v) && r.keys[v] == Process(r.keys[v].thId);
      assert r.OutOf(r.keys[v]) == r.out[v];
    }
    ExactWithoutBranching(r.Indexed());
    CycleIffCircle(r);
  }

  // ---------------------------------------------------------------- the diamond as the code builds it

  /** The vertices up to v, registered in order, with some edges each. */
  ghost predicate IsBuilt(r: Registry, n: nat, out: seq<seq<Pair>>) {
    && r.WellFormed() && |r.keys| == n == |out|
    && forall i | 0 <= i < n :: r.keys[i] == Process(i) && r.out[i] == out[i]
  }

  lemma AddBuilt(r: Registry, n: nat, out: seq<seq<Pair>>, u: nat, v: nat, n': nat, out': seq<seq<Pair>>)
    requires IsBuilt(r, n, out) && u < n && (v < n' == n || v == n == n' - 1)
    requires |out| == n && |out'| == n' && out'[u] == out[u] + [Process(v)]
    requires forall i | 0 <= i < n' && i != u :: out'[i] == if i < n then out[i] else []
    ensures IsBuilt(r.AddEdge(Process(u), Process(v)), n', out')
  {
    AddEdgeEffect(r, Process(u), Process(v));
    AddVertexEffect(r, Process(v));
    assert r.First(u);
    assert v < n ==> r.keys[v] == Process(v);
    if v == n {
      PositionStays(r.keys, Process(u), [Process(v)]);
    }
  }

  /** Five calls of add_edge build the diamond from an empty graph: acyclic, and reported all the same. */
  lemma BuiltDiamondIsReported(r0: Registry, r1: Registry, r2: Registry, r3: Registry, r4: Registry, r: Registry)
    requires r0 == Registry([], []) && r1 == r0.AddEdge(Process(0), Process(1)) && |r1.keys| == |r1.out|
    requires r2 == r1.AddEdge(Process(1), Process(2)) && r3 == r2.AddEdge(Process(1), Process(3))
    requires r4 == r3.AddEdge(Process(2), Process(4)) && r == r4.AddEdge(Process(3), Process(4))
    ensures r.WellFormed() && r.Indexed() == DIAMOND && Reported(r) && !HasCycle(r.Indexed())
  {
    FirstBuilt(r0, r1);
    UpperHalfIsBuilt(r1, r2, r3);
    LowerHalfIsBuilt(r3, r4, r);
    DiamondIsIndexed(r);
    DiamondIsReported();
  }

  lemma UpperHalfIsBuilt(r1: Registry, r2: Registry, r3: Registry)
    requires IsBuilt(r1, 2, [[Process(1)], []])
    requires r2 == r1.AddEdge(Process(1), Process(2)) && r3 == r2.AddEdge(Process(1), Process(3))
    ensures IsBuilt(r3, 4, [[Process(1)], [Process(2), Process(3)], [], []])
  {
    var b, c := [Process(1)], [Process(2), Process(3)];
    AddBuilt(r1, 2, [b, []], 1, 2, 3, [b, [Process(2)], []]);
    AddBuilt(r2, 3, [b, [Process(2)], []], 1, 3, 4, [b, c, [], []]);
  }

  lemma LowerHalfIsBuilt(r3: Registry, r4: Registry, r: Registry)
    requires IsBuilt(r3, 4, [[Process(1)], [Process(2), Process(3)], [], []])
    requires r4 == r3.AddEdge(Process(2), Process(4)) && r == r4.AddEdge(Process(3), Process(4))
    ensures IsBuilt(r, 5, [[Process(1)], [Process(2), Process(3)], [Process(4)], [Process(4)], []])
  {
    var b, c, d := [Process(1)], [Process(2), Process(3)], [Process(4)];
    AddBuilt(r3, 4, [b, c, [], []], 2, 4, 5, [b, c, d, [], []]);
    AddBuilt(r4, 5, [b, c, d, [], []], 3, 4, 5, [b, c, d, d, []]);
  }

  lemma FirstBuilt(r0: Registry, r1: Registry)
    requires r0 == Registry([], []) && r1 == r0.AddEdge(Process(0), Process(1))
    ensures IsBuilt(r1, 2, [[Process(1)], []])
  {
    var r' := r0.AddVertex(Process(0));
    AddVertexEffect(r0, Process(0));
    assert r'.keys[0] == Process(0);
    AddBuilt(r', 1, [[]], 0, 1, 2, [[Process(1)], []]);
  }

  lemma DiamondIsIndexed(r: Registry)
    requires IsBuilt(r, 5, [[Process(1)], [Process(2), Process(3)], [Process(4)], [Process(4)], []])
    ensures r.Indexed() == DIAMOND
  {
    forall i: nat | i < 5
      ensures r.Indexed()[i] == DIAMOND[i]
    {
      RowLength(r, i);
      forall j: nat | j < |r.out[i]|
        ensures r.Indexed()[i][j] == DIAMOND[i][j]
      {
        IndexedAt(r, i, j);
        assert r.keys[DIAMOND[i][j]] == r.out[i][j] && r.First(DIAMOND[i][j]);
      }
    }
  }
}
