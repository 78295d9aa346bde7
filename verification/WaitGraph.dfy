/** The wait-for graph as a value: the registered vertices, in order of registration,
    each with the list of its edges, and the lock table beside it. */
module WaitGraph {
  import opened Digraphs

  datatype Kind = PROCESS | RESOURCE

  /** The two fields of a vertex's label that the graph operations look at. */
  datatype Pair = Pair(thId: nat, kind: Kind)

  function Process(t: nat): Pair {
    Pair(t, PROCESS)
  }

  /** The first position of p among the labels, or -1. */
  function Position(keys: seq<Pair>, p: Pair): (i: int)
    ensures -1 <= i < |keys|
    ensures i == -1 <==> p !in keys
    ensures i >= 0 ==> keys[i] == p
  {
    if keys == [] then -1
    else if keys[0] == p then 0
    else
      var i := Position(keys[1..], p);
      if i == -1 then -1 else i + 1
  }

  datatype Registry = Registry(keys: seq<Pair>, out: seq<seq<Pair>>)
  {
    /** Labels are unique and every edge leads to a registered vertex. */
    ghost predicate WellFormed() {
      && |keys| == |out|
      && (forall i: nat | i < |keys| :: First(i))
      && (forall i: nat, j: nat | i < |out| && j < |out[i]| :: Leads(i, j))
    }

    /** The label at i stands at no earlier position. */
    ghost predicate First(i: nat)
      requires i < |keys|
    {
      Position(keys, keys[i]) == i
    }

    ghost predicate Leads(i: nat, j: nat)
      requires i < |out| && j < |out[i]|
    {
      out[i][j] in keys
    }

    /** The edges of u, in order; none when u is not registered. */
    ghost function OutOf(u: Pair): seq<Pair>
      requires |keys| == |out|
    {
      if u in keys then out[Position(keys, u)] else []
    }

    /** Thread t has an edge to thread o. */
    ghost predicate HasEdge(t: nat, o: nat) {
      |keys| == |out| && Process(o) in OutOf(Process(t))
    }

    ghost function AddVertex(p: Pair): Registry {
      if p in keys then this else Registry(keys + [p], out + [[]])
    }

    ghost function AddEdge(u: Pair, v: Pair): (r: Registry)
      requires |keys| == |out|
      ensures |r.keys| == |r.out|
    {
      AddVertex(u).AddVertex(v).AppendEdge(u, v)
    }

    ghost function AppendEdge(u: Pair, v: Pair): Registry
      requires |keys| == |out| && u in keys
    {
      var i := Position(keys, u);
      this.(out := out[i := out[i] + [v]])
    }

    /** The test looks at u's own entry before its edges. */
    ghost predicate VerifyEdge(u: Pair, v: Pair)
      requires |keys| == |out|
    {
      u in keys && exists e | e in [u] + OutOf(u) :: e.thId == v.thId
    }

    ghost function RemoveEdge(u: Pair, v: Pair): Registry
      requires |keys| == |out|
    {
      if u in keys && v in keys then
        var i := Position(keys, u);
        this.(out := out[i := RemoveFirst(out[i], v.thId)])
      else
        this
    }

    /** The graph over positions that the search walks. */
    ghost function Indexed(): (g: Graph)
      requires WellFormed()
      ensures |g| == |keys|
    {
      RowsLeadInside(this, |out|);
      Rows(|out|)
    }

    /** The positions that the edges of the first n vertices lead to. */
    ghost function Rows(n: nat): (rows: seq<seq<nat>>)
      requires n <= |out|
      ensures |rows| == n
    {
      if n == 0 then [] else Rows(n - 1) + [Targets(out[n - 1])]
    }

    ghost function Targets(edges: seq<Pair>): (r: seq<nat>)
      ensures |r| == |edges|
    {
      if edges == [] then [] else Targets(edges[..|edges| - 1]) + [Target(edges[|edges| - 1])]
    }

    ghost function Target(p: Pair): nat {
      if p in keys then Position(keys, p) else 0
    }
  }

  lemma {:induction false} TargetsAt(r: Registry, edges: seq<Pair>, j: nat)
    requires j < |edges|
    ensures r.Targets(edges)[j] == r.Target(edges[j])
  {
    if j < |edges| - 1 {
      TargetsAt(r, edges[..|edges| - 1], j);
    }
  }

  lemma {:induction false} RowsAt(r: Registry, n: nat, i: nat)
    requires i < n <= |r.out|
    ensures r.Rows(n)[i] == r.Targets(r.out[i])
  {
    if i < n - 1 {
      RowsAt(r, n - 1, i);
    }
  }

  lemma RowsLeadInside(r: Registry, n: nat)
    requires n <= |r.out| == |r.keys|
    ensures forall i, j | 0 <= i < n && 0 <= j < |r.Rows(n)[i]| :: r.Rows(n)[i][j] < |r.keys|
  {
    forall i, j | 0 <= i < n && 0 <= j < |r.Rows(n)[i]|
      ensures r.Rows(n)[i][j] < |r.keys|
    {
      RowsAt(r, n, i);
      TargetsAt(r, r.out[i], j);
    }
  }

  lemma RowLength(r: Registry, i: nat)
    requires r.WellFormed() && i < |r.keys|
    ensures |r.Indexed()[i]| == |r.out[i]|
  {
    RowsAt(r, |r.out|, i);
  }

  /** Edge by edge, the graph leads where the registered edges lead. */
  lemma IndexedAt(r: Registry, i: nat, j: nat)
    requires r.WellFormed() && i < |r.keys| && j < |r.out[i]|
    ensures |r.Indexed()[i]| == |r.out[i]| && r.Indexed()[i][j] == Position(r.keys, r.out[i][j])
    ensures r.keys[r.Indexed()[i][j]] == r.out[i][j]
  {
    RowsAt(r, |r.out|, i);
    TargetsAt(r, r.out[i], j);
    assert r.Leads(i, j);
  }

  /** The edges without the first one that leads to thread t. */
  function RemoveFirst(edges: seq<Pair>, t: nat): seq<Pair> {
    if edges == [] then [] else if edges[0].thId == t then edges[1..] else [edges[0]] + RemoveFirst(edges[1..], t)
  }

  // ---------------------------------------------------------------- what the operations do

  lemma {:induction false} PositionIs(keys: seq<Pair>, p: Pair, i: nat)
    requires i < |keys| && keys[i] == p && forall j | 0 <= j < i :: keys[j] != p
    ensures Position(keys, p) == i
  {
    if i > 0 {
      PositionIs(keys[1..], p, i - 1);
    }
  }

  lemma {:induction false} PositionStays(keys: seq<Pair>, p: Pair, more: seq<Pair>)
    requires p in keys
    ensures Position(keys + more, p) == Position(keys, p)
  {
    if keys[0] != p {
      assert (keys + more)[1..] == keys[1..] + more;
      PositionStays(keys[1..], p, more);
    }
  }

  /** Registering a vertex leaves the edges of every vertex alone. */
  lemma AddVertexEffect(r: Registry, p: Pair)
    requires r.WellFormed()
    ensures r.AddVertex(p).WellFormed()
    ensures r.AddVertex(p).keys == if p in r.keys then r.keys else r.keys + [p]
    ensures forall a :: r.AddVertex(p).OutOf(a) == r.OutOf(a)
  {
    var r' := r.AddVertex(p);
    if p !in r.keys {
      forall a | a in r'.keys
        ensures Position(r'.keys, a) == if a == p then |r.keys| else Position(r.keys, a)
      {
        if a != p {
          PositionStays(r.keys, a, [p]);
        } else {
          PositionIs(r'.keys, p, |r.keys|);
        }
      }
      forall i: nat | i < |r'.keys|
        ensures r'.First(i)
      {
        assert i < |r.keys| ==> r.First(i);
      }
      forall i: nat, j: nat | i < |r'.out| && j < |r'.out[i]|
        ensures r'.Leads(i, j)
      {
        assert r.Leads(i, j);
      }
    }
  }

  lemma AppendEdgeEffect(r: Registry, u: Pair, v: Pair)
    requires r.WellFormed() && u in r.keys && v in r.keys
    ensures r.AppendEdge(u, v).WellFormed() && r.AppendEdge(u, v).keys == r.keys
    ensures forall a :: r.AppendEdge(u, v).OutOf(a) == if a == u then r.OutOf(u) + [v] else r.OutOf(a)
  {
    var r' := r.AppendEdge(u, v);
    forall x: nat | x < |r'.keys|
      ensures r'.First(x)
    {
      assert r.First(x);
    }
    forall x: nat, j: nat | x < |r'.out| && j < |r'.out[x]|
      ensures r'.Leads(x, j)
    {
      assert j < |r.out[x]| ==> r.Leads(x, j);
    }
  }

  /** Adding an edge registers both ends and appends exactly that edge to the edges of u. */
  lemma AddEdgeEffect(r: Registry, u: Pair, v: Pair)
    requires r.WellFormed()
    ensures r.AddEdge(u, v).WellFormed()
    ensures forall p :: p in r.AddEdge(u, v).keys <==> p in r.keys || p == u || p == v
    ensures forall a :: r.AddEdge(u, v).OutOf(a) == if a == u then r.OutOf(u) + [v] else r.OutOf(a)
  {
    AddVertexEffect(r, u);
    AddVertexEffect(r.AddVertex(u), v);
    AppendEdgeEffect(r.AddVertex(u).AddVertex(v), u, v);
  }

  lemma {:induction false} RemoveFirstKeeps(edges: seq<Pair>, t: nat)
    ensures forall e | e in RemoveFirst(edges, t) :: e in edges
  {
    if edges != [] && edges[0].thId != t {
      RemoveFirstKeeps(edges[1..], t);
    }
  }

  /** Exactly the first matching edge goes. */
  lemma {:induction false} RemoveFirstAt(edges: seq<Pair>, t: nat, p: nat)
    requires p < |edges| && edges[p].thId == t && forall j | 0 <= j < p :: edges[j].thId != t
    ensures RemoveFirst(edges, t) == edges[..p] + edges[p + 1..]
  {
    if p > 0 {
      RemoveFirstAt(edges[1..], t, p - 1);
      assert edges[..p] == [edges[0]] + edges[1..][..p - 1];
    }
  }

  lemma {:induction false} RemoveFirstNone(edges: seq<Pair>, t: nat)
    requires forall e | e in edges :: e.thId != t
    ensures RemoveFirst(edges, t) == edges
  {
    if edges != [] {
      RemoveFirstNone(edges[1..], t);
    }
  }

  /** Removing an edge takes at most one edge away, from u only, and unregisters nothing. */
  lemma RemoveEdgeEffect(r: Registry, u: Pair, v: Pair)
    requires r.WellFormed()
    ensures r.RemoveEdge(u, v).WellFormed()
    ensures r.RemoveEdge(u, v).keys == r.keys
    ensures forall a :: r.RemoveEdge(u, v).OutOf(a) ==
              if a == u && v in r.keys then RemoveFirst(r.OutOf(u), v.thId) else r.OutOf(a)
  {
    if u in r.keys && v in r.keys {
      var i := Position(r.keys, u);
      RemoveFirstKeeps(r.out[i], v.thId);
      var r' := r.RemoveEdge(u, v);
      forall x: nat | x < |r'.keys|
        ensures r'.First(x)
      {
        assert r.First(x);
      }
      forall x: nat, j: nat | x < |r'.out| && j < |r'.out[x]|
        ensures r'.Leads(x, j)
      {
        assert r'.out[x][j] in r.out[x];
        var y :| 0 <= y < |r.out[x]| && r.out[x][y] == r'.out[x][j];
        assert r.Leads(x, y);
      }
    }
  }

  // ---------------------------------------------------------------- what the test answers, by its history

  lemma EmptyVerifiesNothing(x: Pair, w: Pair)
    ensures !Registry([], []).VerifyEdge(x, w)
  {
  }

  /** The test sees a vertex's own entry and each of its edges, by thread id. */
  lemma VerifyIff(r: Registry, x: Pair, w: Pair)
    requires |r.keys| == |r.out|
    ensures r.VerifyEdge(x, w) <==> x in r.keys && (x.thId == w.thId || exists e | e in r.OutOf(x) :: e.thId == w.thId)
  {
    var seen := [x] + r.OutOf(x);
    assert seen[0] == x && forall j | 0 <= j < |r.OutOf(x)| :: seen[j + 1] == r.OutOf(x)[j];
  }

  /** A registration makes the test answer yes for the new vertex and its own id, and changes nothing else. */
  lemma VerifyAfterAddVertex(r: Registry, p: Pair, x: Pair, w: Pair)
    requires r.WellFormed()
    ensures r.AddVertex(p).WellFormed()
    ensures r.AddVertex(p).VerifyEdge(x, w) <==> r.VerifyEdge(x, w) || (x == p && w.thId == p.thId)
  {
    AddVertexEffect(r, p);
    VerifyIff(r, x, w);
    VerifyIff(r.AddVertex(p), x, w);
  }

  /** An edge that is added makes the test answer yes for that edge, and for the two ends and their own
      ids, which it registers; it changes nothing else. So an edge never added is denied. */
  lemma VerifyAfterAddEdge(r: Registry, u: Pair, v: Pair, x: Pair, w: Pair)
    requires r.WellFormed()
    ensures r.AddEdge(u, v).VerifyEdge(x, w) <==>
              r.VerifyEdge(x, w) || (x in {u, v} && w.thId == x.thId) || (x == u && w.thId == v.thId)
  {
    AddEdgeEffect(r, u, v);
    VerifyIff(r, x, w);
    VerifyIff(r.AddEdge(u, v), x, w);
    if x == u {
      var edges := r.OutOf(u) + [v];
      assert edges[|r.OutOf(u)|] == v;
      assert forall e | e in edges :: e in r.OutOf(u) || e == v;
    }
  }

  /** Removing an edge of u to v does not change what the test answers for other vertices and other ids. */
  lemma VerifyAfterRemoveEdge(r: Registry, u: Pair, v: Pair, x: Pair, w: Pair)
    requires r.WellFormed() && (x != u || w.thId != v.thId)
    ensures r.RemoveEdge(u, v).VerifyEdge(x, w) <==> r.VerifyEdge(x, w)
  {
    RemoveEdgeEffect(r, u, v);
    VerifyIff(r, x, w);
    VerifyIff(r.RemoveEdge(u, v), x, w);
    RemoveFirstKeeps(r.OutOf(u), v.thId);
    RemoveFirstKeepsOthers(r.OutOf(u), v.thId);
  }

  lemma {:induction false} RemoveFirstKeepsOthers(edges: seq<Pair>, t: nat)
    ensures forall e | e in edges && e.thId != t :: e in RemoveFirst(edges, t)
  {
    if edges != [] && edges[0].thId != t {
      RemoveFirstKeepsOthers(edges[1..], t);
    }
  }

  /** Adding an edge to a thread u has no edge to, and removing it again, restores the edges of all vertices. */
  lemma RemoveUndoesAdd(r: Registry, u: Pair, v: Pair)
    requires r.WellFormed() && !r.VerifyEdge(u, v)
    ensures r.AddEdge(u, v).VerifyEdge(u, v)
    ensures forall a :: r.AddEdge(u, v).RemoveEdge(u, v).OutOf(a) == r.OutOf(a)
  {
    AddEdgeEffect(r, u, v);
    var added, edges := r.AddEdge(u, v), r.OutOf(u);
    assert ([u] + added.OutOf(u))[|edges| + 1] == v;
    assert edges == RemoveFirst(added.OutOf(u), v.thId) by {
      if u in r.keys {
        forall j | 0 <= j < |edges|
          ensures edges[j].thId != v.thId
        {
          assert ([u] + edges)[j + 1] == edges[j];
        }
      }
      RemoveFirstAt(added.OutOf(u), v.thId, |edges|);
    }
    RemoveEdgeEffect(added, u, v);
  }

  // ---------------------------------------------------------------- the lock table

  datatype LockSlot = LockSlot(thId: nat, lockId: nat, degress: int)

  const EMPTY_SLOT := LockSlot(0, 0, 0)

  /** The first slot that names the lock, or -1. */
  function FindLock(slots: seq<LockSlot>, lock: nat): (i: int)
    ensures -1 <= i < |slots|
    ensures i >= 0 ==> slots[i].lockId == lock
    ensures forall j | 0 <= j < if i >= 0 then i else |slots| :: slots[j].lockId != lock
  {
    if slots == [] then -1
    else if slots[0].lockId == lock then 0
    else
      var i := FindLock(slots[1..], lock);
      assert forall j | 1 <= j < |slots| :: slots[j] == slots[1..][j - 1];
      if i == -1 then -1 else i + 1
  }

  /** The first slot that nobody waits on, or -1. */
  function FindEmpty(slots: seq<LockSlot>): (i: int)
    ensures -1 <= i < |slots|
    ensures i >= 0 ==> slots[i].degress == 0
    ensures forall j | 0 <= j < if i >= 0 then i else |slots| :: slots[j].degress != 0
  {
    if slots == [] then -1
    else if slots[0].degress == 0 then 0
    else
      var i := FindEmpty(slots[1..]);
      assert forall j | 1 <= j < |slots| :: slots[j] == slots[1..][j - 1];
      if i == -1 then -1 else i + 1
  }
}
