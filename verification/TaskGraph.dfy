/** The detector's state and code: an array of vertices, each the head of a linked list of
    its edges, the lock table, and the arrays the depth-first search works on. */
module TaskGraphs {
  import opened Digraphs
  import opened CycleSearch
  import opened SearchBounds
  import opened Sequences
  import opened WaitGraph
  import opened LockProtocol

  class Vertex {
    ghost const row: nat  // the vertex whose list this node belongs to
    var pair: Pair
    var next: Vertex?

    constructor (ghost row: nat, pair: Pair)
      ensures this.row == row && this.pair == pair && next == null
    {
      this.row := row;
      this.pair := pair;
      next := null;
    }
  }

  // ---------------------------------------------------------------- one list

  /** The labels of vertex i and of its edges. */
  ghost function Labels(r: Registry, i: nat): seq<Pair>
    requires i < |r.keys| == |r.out|
  {
    [r.keys[i]] + r.out[i]
  }

  ghost function NodeAt(c: seq<Vertex>, j: nat): Vertex? {
    if j < |c| then c[j] else null
  }

  /** A mark for the positions at which a list is looked at. */
  ghost predicate At(j: nat) {
    true
  }

  /** The nodes c, all different, form the list of a vertex and hold the given labels. */
  ghost predicate Linked(c: seq<Vertex>, row: nat, labels: seq<Pair>, repr: set<Vertex>)
    reads c
  {
    && |c| == |labels| > 0
    && (forall j: nat | j < |c| :: c[j] in repr && c[j].row == row)
    && (forall j: nat {:trigger At(j)} | At(j) && j < |c| :: c[j].pair == labels[j] && c[j].next == NodeAt(c, j + 1))
    && (forall i: nat, j: nat {:trigger At(i), At(j)} | At(i) && At(j) && i < j < |c| :: c[i] != c[j])
  }

  method Append(ghost c: seq<Vertex>, ghost row: nat, ghost labels: seq<Pair>, ghost repr: set<Vertex>,
                last: Vertex, v: Pair) returns (node: Vertex)
    requires Linked(c, row, labels, repr) && last == c[|c| - 1]
    modifies last`next
    ensures fresh(node) && Linked(c + [node], row, labels + [v], repr + {node})
  {
    node := new Vertex(row, v);
    last.next := node;
    assert At(|c| - 1);
  }

  ghost function Without<T>(s: seq<T>, j: nat): (r: seq<T>)
    requires j < |s|
    ensures |r| == |s| - 1
    ensures forall x: nat | x < |r| :: r[x] == s[if x < j then x else x + 1]
  {
    s[..j] + s[j + 1..]
  }

  /** Takes the node after cnt, the j-th of its list, out of the list. */
  method Unlink(ghost c: seq<Vertex>, ghost row: nat, ghost labels: seq<Pair>, ghost repr: set<Vertex>,
                ghost j: nat, cnt: Vertex)
    requires Linked(c, row, labels, repr) && j + 1 < |c| && cnt == c[j]
    modifies cnt`next
    ensures Linked(Without(c, j + 1), row, Without(labels, j + 1), repr - {c[j + 1]})
  {
    ghost var c' := Without(c, j + 1);
    assert At(j) && At(j + 1);
    cnt.next := cnt.next.next;
    forall x: nat | At(x) && x < |c'|
      ensures c'[x].pair == Without(labels, j + 1)[x] && c'[x].next == NodeAt(c', x + 1) && c'[x] != c[j + 1]
    {
      assert At(x + 1);
    }
    forall x: nat, y: nat | At(x) && At(y) && x < y < |c'|
      ensures c'[x] != c'[y]
    {
      assert At(x + 1) && At(y + 1);
    }
  }

  // ---------------------------------------------------------------- all lists

  lemma RemoveAt(r: Registry, i: nat, j: nat, v: Pair)
    requires r.WellFormed() && i < |r.keys| && j < |r.out[i]| && v in r.keys
    requires r.out[i][j].thId == v.thId && forall x | 0 <= x < j :: r.out[i][x].thId != v.thId
    ensures r.RemoveEdge(r.keys[i], v).WellFormed()
    ensures r.RemoveEdge(r.keys[i], v).keys == r.keys && r.RemoveEdge(r.keys[i], v) != r
    ensures forall x: nat | x < |r.keys| ::
              Labels(r.RemoveEdge(r.keys[i], v), x) == if x == i then Without(Labels(r, i), j + 1) else Labels(r, x)
  {
    assert r.First(i);
    RemoveEdgeEffect(r, r.keys[i], v);
    RemoveFirstAt(r.out[i], v.thId, j);
    assert |r.RemoveEdge(r.keys[i], v).out[i]| < |r.out[i]|;
  }

  lemma NothingToRemove(r: Registry, u: Pair, v: Pair)
    requires r.WellFormed() && u in r.keys && v in r.keys
    requires forall x | 0 <= x < |r.out[Position(r.keys, u)]| :: r.out[Position(r.keys, u)][x].thId != v.thId
    ensures r.RemoveEdge(u, v) == r
  {
    RemoveFirstNone(r.out[Position(r.keys, u)], v.thId);
    assert r.RemoveEdge(u, v).out == r.out;
  }

  lemma AddingKeepsVertices(r: Registry, u: Pair, v: Pair)
    requires r.WellFormed() && u in r.keys && v in r.keys
    ensures r.AddEdge(u, v).keys == r.keys
  {
  }

  class TaskGraph {
    const MAX: nat
    const vertexList: array<Vertex>
    var vertexNum: nat

    const lockList: array<LockSlot>
    const lockNum: nat

    const path: array<int>
    const visited: array<int>
    var k: int
    var deadlock: int

    ghost var reg: Registry             // what the lists contain
    ghost var chains: seq<seq<Vertex>>  // the nodes of each list, head first
    ghost var repr: set<Vertex>         // the heads and the allocated nodes
    ghost var stack: seq<int>           // what path[..k] holds
    ghost var reports: seq<seq<int>>    // the paths printed by the current check
    ghost var calls: nat                // the calls of the search in the current check

    ghost predicate Valid()
      reads `vertexNum, `reg, `chains, `repr, vertexList, repr
    {
      && vertexList.Length == MAX && visited.Length == MAX && path.Length == MAX + 1 && visited != path
      && lockList.Length == MAX && lockNum <= MAX
      && (forall i | 0 <= i < MAX :: vertexList[i] in repr && vertexList[i].row == i)
      && |chains| == |reg.keys| == |reg.out| == vertexNum <= MAX
      && reg.WellFormed()
      && (forall i: nat | i < vertexNum :: Row(i))
    }

    ghost predicate Row(i: nat)
      requires i < |chains| == |reg.keys| == |reg.out| <= vertexList.Length
      reads `reg, `chains, `repr, vertexList, repr
    {
      && (forall n | n in chains[i] :: n in repr)
      && Linked(chains[i], i, Labels(reg, i), repr) && chains[i][0] == vertexList[i]
    }

    constructor (max: nat, lockNum: nat)
      requires lockNum <= max
      ensures Valid() && MAX == max && this.lockNum == lockNum
      ensures reg == Registry([], [])
      ensures forall i | 0 <= i < lockNum :: lockList[i] == EMPTY_SLOT
      ensures fresh(repr) && fresh(vertexList) && fresh(lockList) && fresh(path) && fresh(visited)
    {
      MAX := max;
      this.lockNum := lockNum;
      var spare := new Vertex(0, Process(0));
      var heads := new Vertex[max](_ => spare);
      ghost var nodes: set<Vertex> := {};
      for i := 0 to max
        invariant forall x | 0 <= x < i :: heads[x] in nodes && heads[x].row == x
        invariant fresh(nodes) && fresh(heads)
      {
        heads[i] := new Vertex(i, Process(0));
        nodes := nodes + {heads[i]};
      }
      vertexList := heads;
      vertexNum := 0;
      lockList := new LockSlot[max](_ => EMPTY_SLOT);
      path := new int[max + 1];
      visited := new int[max];
      k, deadlock := 0, 0;
      reg, chains, repr := Registry([], []), [], nodes;
      stack, reports, calls := [], [], 0;
    }

    // -------------------------------------------------------------- vertices and edges

    method SearchVertex(pair: Pair) returns (idx: int)
      requires Valid()
      ensures idx == Position(reg.keys, pair)
    {
      for i := 0 to vertexNum
        invariant forall x | 0 <= x < i :: reg.keys[x] != pair
      {
        assert Row(i) && At(0);
        if vertexList[i].pair == pair {
          PositionIs(reg.keys, pair, i);
          return i;
        }
      }
      return -1;
    }

    method AddVertex(pair: Pair)
      requires Valid()
      requires |reg.AddVertex(pair).keys| <= MAX
      modifies `vertexNum, `reg, `chains, repr
      ensures Valid() && reg == old(reg).AddVertex(pair)
    {
      var idx := SearchVertex(pair);
      if idx == -1 {
        Register(pair);
      }
    }

    /** Takes the next free head for a new vertex. */
    method Register(pair: Pair)
      requires Valid() && pair !in reg.keys && vertexNum < MAX
      modifies `vertexNum, `reg, `chains, vertexList[vertexNum]
      ensures Valid() && reg == old(reg).AddVertex(pair)
    {
      var head := vertexList[vertexNum];
      head.pair := pair;
      head.next := null;
      vertexNum := vertexNum + 1;
      chains := chains + [[head]];
      reg := Registry(reg.keys + [pair], reg.out + [[]]);
      assert reg.WellFormed() by {
        AddVertexEffect(old(reg), pair);
      }
      forall i: nat | i < vertexNum
        ensures Row(i)
      {
        if i < vertexNum - 1 {
          assert old(Row(i)) && Labels(reg, i) == Labels(old(reg), i);
        }
      }
    }

    method AddEdge(u: Pair, v: Pair)
      requires Valid()
      requires |reg.AddEdge(u, v).keys| <= MAX
      modifies `vertexNum, `reg, `chains, `repr, repr
      ensures Valid() && reg == old(reg).AddEdge(u, v)
      ensures fresh(repr - old(repr)) && |repr - old(repr)| == 1 && old(repr) <= repr
    {
      ghost var r := reg.AddVertex(u).AddVertex(v);
      assert r.WellFormed() && u in r.keys && v in r.keys && |reg.AddVertex(u).keys| <= |r.keys| by {
        AddVertexEffect(reg, u);
        AddVertexEffect(reg.AddVertex(u), v);
      }
      AddVertex(u);
      AddVertex(v);
      var idx := SearchVertex(u);
      var cnt := LastNode(idx);
      LinkAfter(idx, cnt, v);
    }

    /** The loop of the original's add_edge: the last node of a vertex's list. */
    method LastNode(idx: nat) returns (cnt: Vertex)
      requires Valid() && idx < vertexNum
      ensures Row(idx) && cnt == chains[idx][|chains[idx]| - 1]
    {
      assert Row(idx);
      ghost var c := chains[idx];
      cnt := vertexList[idx];
      ghost var j := 0;
      assert At(0);
      while cnt.next != null
        invariant 0 <= j < |c| && cnt == c[j] && At(j)
        decreases |c| - j
      {
        cnt := cnt.next;
        j := j + 1;
        assert At(j);
      }
    }

    /** Links a new node for v at the end of a list. */
    method LinkAfter(idx: nat, last: Vertex, v: Pair)
      requires Valid() && idx < vertexNum && Row(idx) && last == chains[idx][|chains[idx]| - 1] && v in reg.keys
      modifies `reg, `chains, `repr, last`next
      ensures Valid() && reg == old(reg).AppendEdge(old(reg.keys[idx]), v)
      ensures fresh(repr - old(repr)) && |repr - old(repr)| == 1 && old(repr) <= repr
    {
      ghost var r := reg;
      var node := Append(chains[idx], idx, Labels(reg, idx), repr, last, v);
      reg := reg.(out := reg.out[idx := reg.out[idx] + [v]]);
      chains := chains[idx := chains[idx] + [node]];
      repr := repr + {node};
      assert repr - old(repr) == {node};
      assert reg.WellFormed() && reg == r.AppendEdge(r.keys[idx], v) by {
        assert r.First(idx);
        AppendEdgeEffect(r, r.keys[idx], v);
      }
      assert Labels(reg, idx) == Labels(r, idx) + [v];
      forall i: nat | i < vertexNum
        ensures Row(i)
      {
        assert old(Row(i)) && (i != idx ==> Labels(reg, i) == Labels(r, i));
      }
    }

    method VerifyEdge(u: Pair, v: Pair) returns (r: int)
      requires Valid()
      ensures r == if reg.VerifyEdge(u, v) then 1 else 0
    {
      if vertexNum == 0 {
        return 0;
      }
      var idx := SearchVertex(u);
      if idx == -1 {
        return 0;
      }
      assert Row(idx);
      ghost var c, labels := chains[idx], [u] + reg.OutOf(u);
      var cnt: Vertex? := vertexList[idx];
      ghost var j := 0;
      while cnt != null
        invariant 0 <= j <= |c| && cnt == NodeAt(c, j)
        invariant forall x | 0 <= x < j :: labels[x].thId != v.thId
        decreases |c| - j
      {
        assert At(j);
        if cnt.pair.thId == v.thId {
          assert labels[j] in labels;
          return 1;
        }
        cnt := cnt.next;
        j := j + 1;
      }
      return 0;
    }

    method RemoveEdge(u: Pair, v: Pair)
      requires Valid()
      modifies `reg, `chains, `repr, repr
      ensures Valid() && reg == old(reg).RemoveEdge(u, v)
      ensures repr <= old(repr) && |old(repr) - repr| == if reg == old(reg) then 0 else 1
    {
      var idxU := SearchVertex(u);
      var idxV := SearchVertex(v);
      if idxU != -1 && idxV != -1 {
        assert Row(idxU);
        ghost var c, edges := chains[idxU], reg.out[idxU];
        var cnt := vertexList[idxU];
        ghost var j := 0;
        while cnt.next != null
          invariant 0 <= j < |c| && cnt == c[j]
          invariant forall x | 0 <= x < j :: edges[x].thId != v.thId
          decreases |c| - j
        {
          assert At(j) && At(j + 1);
          if cnt.next.pair.thId == v.thId {
            UnlinkAfter(idxU, j, cnt, v);
            assert old(repr) - repr == {c[j + 1]};
            return;
          }
          cnt := cnt.next;
          j := j + 1;
        }
        assert At(j);
        NothingToRemove(reg, u, v);
      }
    }

    /** Takes the node after cnt, the j-th of its list, out of the list and frees it. */
    method UnlinkAfter(idx: nat, ghost j: nat, cnt: Vertex, v: Pair)
      requires Valid() && idx < vertexNum && Row(idx) && j < |reg.out[idx]| && cnt == chains[idx][j] && v in reg.keys
      requires reg.out[idx][j].thId == v.thId && forall x | 0 <= x < j :: reg.out[idx][x].thId != v.thId
      modifies `reg, `chains, `repr, cnt`next
      ensures Valid()
      ensures reg == old(reg).RemoveEdge(old(reg.keys[idx]), v) && reg != old(reg)
      ensures repr == old(repr) - {old(chains[idx][j + 1])} && old(chains[idx][j + 1]) in old(repr)
    {
      ghost var r, c, freed := reg, chains[idx], chains[idx][j + 1];
      RemoveAt(r, idx, j, v);
      Unlink(c, idx, Labels(r, idx), repr, j, cnt);
      reg := r.RemoveEdge(r.keys[idx], v);
      chains := chains[idx := Without(c, j + 1)];
      repr := repr - {freed};
      forall i: nat | i < vertexNum
        ensures Row(i)
      {
        assert old(Row(i));
      }
      forall i | 0 <= i < MAX
        ensures vertexList[i] in repr
      {
        assert At(0) && At(j + 1) && vertexList[i].row == i;
      }
    }

    // -------------------------------------------------------------- the cycle check

    /** The vertices that are marked; what the arrays hold beyond the vertices does not count. */
    ghost function Visited(): set<nat>
      requires vertexNum <= visited.Length
      reads `vertexNum, visited
    {
      set v: nat | v < vertexNum && visited[v] == 1
    }

    ghost predicate StackIs(p: seq<int>)
      reads `k, `stack, path
    {
      0 <= k <= path.Length && path[..k] == stack == p
    }

    /** The stack holds different vertices, all marked. */
    ghost predicate StackValid()
      requires vertexNum <= visited.Length
      reads `vertexNum, `k, `stack, visited, path
    {
      && StackIs(stack) && |stack| <= vertexNum && Distinct(stack)
      && forall x | 0 <= x < |stack| :: stack[x] in Visited()
    }

    ghost function SearchState(): Trace
      requires vertexNum <= visited.Length
      reads `vertexNum, `reports, `calls, visited
    {
      Trace(Visited(), reports, calls)
    }

    /** The search state is what was there before, followed by the searches t. */
    ghost predicate Searched(before: Trace, flag: int, t: Trace)
      requires vertexNum <= visited.Length
      reads `vertexNum, `deadlock, `reports, `calls, visited
    {
      SearchState() == before.Then(t) && deadlock == if t.reports == [] then flag else 1
    }

    method Push(idx: nat)
      requires StackIs(stack) && k < path.Length
      modifies path, `k, `stack
      ensures StackIs(old(stack) + [idx]) && k == old(k) + 1
    {
      path[k] := idx;
      k := k + 1;
      stack := stack + [idx];
    }

    /** Only the printed path is kept. */
    method PrintDeadlock()
      requires StackIs(stack)
      modifies `reports
      ensures reports == old(reports) + [stack]
    {
      reports := reports + [path[..k]];
    }

    method Pop()
      requires StackIs(stack) && stack != []
      modifies `k, `stack
      ensures StackIs(old(stack)[..|old(stack)| - 1])
    {
      k := k - 1;
      stack := stack[..k];
    }

    method Dfs(idx: nat) returns (r: int)
      requires Valid() && StackValid() && idx < vertexNum
      modifies visited, path, `k, `stack, `deadlock, `reports, `calls
      ensures Valid()
      ensures StackIs(old(stack) + [idx])
      ensures Searched(old(SearchState()), old(deadlock), CycleSearch.Dfs(reg.Indexed(), idx, old(stack), old(Visited())))
      ensures r == if idx in old(Visited()) then 0 else 1
      decreases Vertices(reg.Indexed()) - Visited(), 0
    {
      if visited[idx] == 1 {
        Report(idx); return 0;
      }
      Mark(idx);
      SearchEdges(idx);
      calls := calls + 1;
      return 1;
    }

    /** The branch of the original's DFS for a vertex that is already marked. */
    method Report(idx: nat)
      requires Valid() && StackIs(stack) && k < path.Length
      modifies path, `k, `stack, `deadlock, `reports, `calls
      ensures StackIs(old(stack) + [idx]) && deadlock == 1
      ensures reports == old(reports) + [old(stack) + [idx]] && calls == old(calls) + 1
    {
      Push(idx);
      PrintDeadlock();
      deadlock := 1;
      calls := calls + 1;
    }

    /** Marks a new vertex and puts it on the stack. */
    method Mark(idx: nat)
      requires Valid() && StackValid() && idx < vertexNum && idx !in Visited()
      modifies visited, path, `k, `stack
      ensures StackValid() && stack == old(stack) + [idx] && Visited() == old(Visited()) + {idx}
      ensures IsVertex(reg.Indexed(), idx)
    {
      visited[idx] := 1;
      Push(idx);
      DistinctIsShort(stack, vertexNum);
    }

    /** The loop of the original's DFS: search the target of each edge in turn. */
    method SearchEdges(idx: nat)
      requires Valid() && StackValid() && idx < vertexNum
      modifies visited, path, `k, `stack, `deadlock, `reports, `calls
      ensures Valid() && StackValid() && stack == old(stack)
      ensures Searched(old(SearchState()), old(deadlock),
                       CycleSearch.DfsEdges(reg.Indexed(), idx, |reg.Indexed()[idx]|, old(stack), old(Visited())))
      decreases Vertices(reg.Indexed()) - Visited(), 2
    {
      RowLength(reg, idx);
      ghost var g, p, before, flag := reg.Indexed(), stack, SearchState(), deadlock;
      var ver := vertexList[idx];
      ghost var j := 0;
      assert Row(idx) && At(0);
      while ver.next != null
        invariant Valid() && StackValid() && Row(idx)
        invariant j <= |g[idx]| && ver == chains[idx][j] && At(j)
        invariant stack == p
        invariant Searched(before, flag, CycleSearch.DfsEdges(g, idx, j, p, before.visited))
        decreases |g[idx]| - j
      {
        ghost var done := CycleSearch.DfsEdges(g, idx, j, p, before.visited);
        ghost var last := CycleSearch.Dfs(g, g[idx][j], p, done.visited);
        SearchEdge(idx, j, ver);
        ThenAssociates(before, done, last);
        assert Searched(before, flag, done.Then(last));
        assert CycleSearch.DfsEdges(g, idx, j + 1, p, before.visited) == done.Then(last);
        assert At(j + 1);
        ver := ver.next;
        j := j + 1;
      }
    }

    /** One round of that loop: search the target of the edge after ver, and take it off the stack again. */
    method SearchEdge(idx: nat, ghost j: nat, ver: Vertex)
      requires Valid() && StackValid() && idx < vertexNum && Row(idx)
      requires j < |reg.Indexed()[idx]| == |reg.out[idx]| && ver == chains[idx][j]
      modifies visited, path, `k, `stack, `deadlock, `reports, `calls
      ensures Valid() && StackValid() && stack == old(stack)
      ensures Searched(old(SearchState()), old(deadlock),
                       CycleSearch.Dfs(reg.Indexed(), reg.Indexed()[idx][j], old(stack), old(Visited())))
      decreases Vertices(reg.Indexed()) - Visited(), 1
    {
      var child := Target(idx, j, ver);
      var _ := Dfs(child);
      Pop();
      assert stack == old(stack);
    }

    method Target(idx: nat, ghost j: nat, ver: Vertex) returns (child: nat)
      requires Valid() && idx < vertexNum && Row(idx)
      requires j < |reg.Indexed()[idx]| == |reg.out[idx]| && ver == chains[idx][j]
      ensures child < vertexNum && child == reg.Indexed()[idx][j]
    {
      assert At(j) && At(j + 1);
      IndexedAt(reg, idx, j);
      child := SearchVertex(ver.next.pair);
    }

    /** The outcome is what was there before, followed by the searches t. */
    ghost predicate Logged(before: Trace, flag: int, t: Trace)
      reads `deadlock, `reports, `calls
    {
      Trace(t.visited, reports, calls) == before.Then(t) && deadlock == if t.reports == [] then flag else 1
    }

    method SetRoot(idx: nat)
      requires Valid() && idx < vertexNum
      modifies visited, path, `k, `stack
      ensures visited[idx] == 1 && path[0] == idx
    {
      visited[idx] := 1;
      k, stack := 0, [];
      Push(idx);
      assert path[..k][0] == idx;
    }

    method SearchForCycle(idx: nat)
      requires Valid() && idx < vertexNum
      modifies visited, path, `k, `stack, `deadlock, `reports, `calls
      ensures Valid()
      ensures Logged(old(SearchState()), old(deadlock), Search(reg.Indexed(), idx, |reg.Indexed()[idx]|))
    {
      RowLength(reg, idx);
      ghost var g, before, flag := reg.Indexed(), SearchState(), deadlock;
      var ver := vertexList[idx];
      SetRoot(idx);
      ghost var j := 0;
      assert Row(idx) && At(0);
      while ver.next != null
        invariant Valid() && Row(idx)
        invariant j <= |g[idx]| && ver == chains[idx][j] && At(j)
        invariant visited[idx] == 1 && path[0] == idx
        invariant Logged(before, flag, Search(g, idx, j))
        decreases |g[idx]| - j
      {
        SearchNext(idx, j, ver, before, flag);
        assert At(j + 1);
        ver := ver.next;
        j := j + 1;
      }
    }

    /** One round of that loop, added to the rounds before it. */
    method SearchNext(idx: nat, ghost j: nat, ver: Vertex, ghost before: Trace, ghost flag: int)
      requires Valid() && idx < vertexNum && Row(idx) && visited[idx] == 1 && path[0] == idx
      requires j < |reg.Indexed()[idx]| == |reg.out[idx]| && ver == chains[idx][j]
      requires Logged(before, flag, Search(reg.Indexed(), idx, j))
      modifies visited, path, `k, `stack, `deadlock, `reports, `calls
      ensures Valid() && visited[idx] == 1 && path[0] == idx
      ensures Logged(before, flag, Search(reg.Indexed(), idx, j + 1))
    {
      ghost var g := reg.Indexed();
      ghost var done, last := Search(g, idx, j), CycleSearch.Dfs(g, g[idx][j], [idx], {idx});
      SearchFrom(idx, j, ver);
      ThenAssociates(before, done, last);
      assert Logged(before, flag, done.Then(last));
      assert Search(g, idx, j + 1) == done.Then(last);
    }

    /** A fresh search through the edge after ver. */
    method SearchFrom(idx: nat, ghost j: nat, ver: Vertex)
      requires Valid() && idx < vertexNum && Row(idx) && visited[idx] == 1 && path[0] == idx
      requires j < |reg.Indexed()[idx]| == |reg.out[idx]| && ver == chains[idx][j]
      modifies visited, path, `k, `stack, `deadlock, `reports, `calls
      ensures Valid() && visited[idx] == 1 && path[0] == idx
      ensures Logged(old(SearchState()), old(deadlock), CycleSearch.Dfs(reg.Indexed(), reg.Indexed()[idx][j], [idx], {idx}))
    {
      Restart(idx);
      var child := Target(idx, j, ver);
      var _ := Dfs(child);
      assert idx in Visited() && path[..k][0] == idx;
    }

    /** Unmarks all vertices but the root, clears the path behind the root and resets the stack to the root. */
    method Restart(idx: nat)
      requires Valid() && idx < vertexNum && visited[idx] == 1 && path[0] == idx
      modifies visited, path, `k, `stack
      ensures Visited() == {idx} && StackIs([idx]) && StackValid()
      ensures forall x | 1 <= x <= MAX :: path[x] == -1
    {
      for i := 0 to vertexNum
        invariant visited[idx] == 1 && path[0] == idx
        invariant forall x | 0 <= x < i && x != idx :: visited[x] == 0
      {
        if i == idx {
          continue;
        }
        visited[i] := 0;
      }
      assert Visited() == {idx};
      for i := 1 to MAX + 1
        invariant path[0] == idx && Visited() == {idx} && forall x | 1 <= x < i :: path[x] == -1
      {
        path[i] := -1;
      }
      k, stack := 1, [idx];
    }

    method CheckDeadLock()
      requires Valid()
      modifies visited, path, `k, `stack, `deadlock, `reports, `calls
      ensures Valid()
      ensures reports == Check(reg.Indexed(), vertexNum).reports
      ensures deadlock == if reports == [] then 0 else 1
      ensures Verdict(reg.Indexed(), deadlock == 1, reports, calls)
    {
      SearchAllRoots();
      CheckVerdict(reg.Indexed());
    }

    /** The loop of the original's check. */
    method SearchAllRoots()
      requires Valid()
      modifies visited, path, `k, `stack, `deadlock, `reports, `calls
      ensures Valid() && Checked(vertexNum)
    {
      deadlock := 0;
      reports, calls := [], 0;
      for i := 0 to vertexNum
        invariant Valid() && Checked(i)
      {
        if deadlock == 1 {
          CheckStops(reg.Indexed(), i, vertexNum);
          break;
        }
        CheckRoot(i);
      }
    }

    /** The outcome is that of the check over the first n roots. */
    ghost predicate Checked(n: nat)
      requires reg.WellFormed() && n <= |reg.keys|
      reads `reg, `deadlock, `reports, `calls
    {
      var t := Check(reg.Indexed(), n);
      reports == t.reports && calls == t.calls && deadlock == if t.reports == [] then 0 else 1
    }

    method CheckRoot(i: nat)
      requires Valid() && i < vertexNum && Checked(i) && deadlock != 1
      modifies visited, path, `k, `stack, `deadlock, `reports, `calls
      ensures Valid() && Checked(i + 1)
    {
      ghost var g := reg.Indexed();
      SearchForCycle(i);
      assert Check(g, i + 1) == Check(g, i).Then(Search(g, i, |g[i]|));
    }

    // -------------------------------------------------------------- the lock hooks

    ghost function Hooks(): HookState
      requires lockNum <= lockList.Length
      reads `reg, lockList
    {
      HookState(reg, lockList[..lockNum])
    }

    method SearchLock(lock: nat) returns (idx: int)
      requires Valid()
      ensures idx == FindLock(lockList[..lockNum], lock)
    {
      for i := 0 to lockNum
        invariant forall x | 0 <= x < i :: lockList[x].lockId != lock
      {
        if lockList[i].lockId == lock {
          assert lockList[..lockNum][i].lockId == lock;
          return i;
        }
      }
      return -1;
    }

    method SearchEmptyLock() returns (idx: int)
      requires Valid()
      ensures idx == FindEmpty(lockList[..lockNum])
    {
      for i := 0 to lockNum
        invariant forall x | 0 <= x < i :: lockList[x].degress != 0
      {
        if lockList[i].degress == 0 {
          assert lockList[..lockNum][i].degress == 0;
          return i;
        }
      }
      return -1;
    }

    method LockBefore(threadId: nat, lock: nat)
      requires Valid()
      requires Hooks().Tabled(lock) ==> |Hooks().Both(threadId, Hooks().Owner(lock)).keys| <= MAX
      modifies `vertexNum, `reg, `chains, `repr, repr, lockList
      ensures Valid() && Hooks() == old(Hooks().Before(threadId, lock))
      ensures fresh(repr - old(repr))
    {
      var idx := SearchLock(lock);
      if idx != -1 {
        ghost var h := Hooks();
        var u, v := Process(threadId), Process(lockList[idx].thId);
        lockList[idx] := lockList[idx].(degress := lockList[idx].degress + 1);
        assert lockList[..lockNum] == h.Before(threadId, lock).slots;
        RegisterBoth(u, v);
        AddMissingEdge(u, v);
      }
    }

    method AddMissingEdge(u: Pair, v: Pair)
      requires Valid() && u in reg.keys && v in reg.keys
      modifies `vertexNum, `reg, `chains, `repr, repr
      ensures Valid() && reg == if old(reg).VerifyEdge(u, v) then old(reg) else old(reg).AddEdge(u, v)
      ensures fresh(repr - old(repr))
    {
      var known := VerifyEdge(u, v);
      if known == 0 {
        AddingKeepsVertices(reg, u, v);
        AddEdge(u, v);
      }
    }

    method RegisterBoth(u: Pair, v: Pair)
      requires Valid() && |reg.AddVertex(u).AddVertex(v).keys| <= MAX
      modifies `vertexNum, `reg, `chains, repr
      ensures Valid() && reg == old(reg).AddVertex(u).AddVertex(v) && u in reg.keys && v in reg.keys
    {
      AddVertex(u);
      AddVertex(v);
    }

    method LockAfter(threadId: nat, lock: nat)
      requires Valid() && Defined(Hooks(), After(threadId, lock))
      modifies `reg, `chains, `repr, repr, lockList
      ensures Valid() && Hooks() == old(Hooks().After(threadId, lock))
      ensures repr <= old(repr)
    {
      var idx := SearchLock(lock);
      ghost var h := Hooks();
      if idx == -1 {
        var empty := SearchEmptyLock();
        lockList[empty] := lockList[empty].(thId := threadId, lockId := lock);
        assert lockList[..lockNum] == h.After(threadId, lock).slots;
      } else {
        var u, v := Process(threadId), Process(lockList[idx].thId);
        lockList[idx] := lockList[idx].(degress := lockList[idx].degress - 1);
        RemoveKnownEdge(u, v);
        lockList[idx] := lockList[idx].(thId := threadId);
        assert lockList[..lockNum] == h.After(threadId, lock).slots;
      }
    }

    method RemoveKnownEdge(u: Pair, v: Pair)
      requires Valid()
      modifies `reg, `chains, `repr, repr
      ensures Valid() && reg == if old(reg).VerifyEdge(u, v) then old(reg).RemoveEdge(u, v) else old(reg)
      ensures repr <= old(repr)
    {
      var known := VerifyEdge(u, v);
      if known != 0 {
        RemoveEdge(u, v);
      }
    }

    method UnlockAfter(threadId: nat, lock: nat)
      requires Valid() && Defined(Hooks(), Unlock(threadId, lock))
      modifies lockList
      ensures Valid() && Hooks() == old(Hooks().Unlock(lock))
    {
      var idx := SearchLock(lock);
      ghost var h := Hooks();
      if lockList[idx].degress == 0 {
        lockList[idx] := lockList[idx].(thId := 0, lockId := 0);
      }
      assert lockList[..lockNum] == h.Unlock(lock).slots;
    }
  }
}
