/** Finite directed multigraphs over the vertices 0..n-1, and the walks in them.
    A vertex lists the targets of its outgoing edges, in order; parallel edges are
    repeated entries. A walk is the list of the edge positions it takes, so two walks
    over parallel edges are different walks, and the empty walk stays where it is. */
module Digraphs {

  predicate WellFormed(g: seq<seq<nat>>) {
    forall v, j :: 0 <= v < |g| && 0 <= j < |g[v]| ==> g[v][j] < |g|
  }

  type Graph = g: seq<seq<nat>> | WellFormed(g) witness []

  predicate IsWalk(g: Graph, s: nat, w: seq<nat>)
    requires s < |g|
    decreases w
  {
    w == [] || (w[0] < |g[s]| && IsWalk(g, g[s][w[0]], w[1..]))
  }

  function End(g: Graph, s: nat, w: seq<nat>): (t: nat)
    requires s < |g| && IsWalk(g, s, w)
    ensures t < |g|
    decreases w
  {
    if w == [] then s else End(g, g[s][w[0]], w[1..])
  }

  /** Two different walks lead from s to the same vertex. */
  ghost predicate TwoWalks(g: Graph, s: nat)
    requires s < |g|
  {
    exists w1, w2 | IsWalk(g, s, w1) && IsWalk(g, s, w2) :: w1 != w2 && End(g, s, w1) == End(g, s, w2)
  }

  /** A non-empty walk leads from v back to v. */
  ghost predicate OnCycle(g: Graph, v: nat)
    requires v < |g|
  {
    exists w | IsWalk(g, v, w) :: w != [] && End(g, v, w) == v
  }

  ghost predicate HasCycle(g: Graph) {
    exists v: nat | v < |g| :: OnCycle(g, v)
  }

  predicate OutDegreeAtMostOne(g: Graph) {
    forall v | 0 <= v < |g| :: |g[v]| <= 1
  }

  lemma {:induction false} WalkAppend(g: Graph, s: nat, w: seq<nat>, x: seq<nat>)
    requires s < |g| && IsWalk(g, s, w) && IsWalk(g, End(g, s, w), x)
    ensures IsWalk(g, s, w + x) && End(g, s, w + x) == End(g, End(g, s, w), x)
    decreases w
  {
    if w == [] {
      assert w + x == x;
    } else {
      assert (w + x)[1..] == w[1..] + x;
      WalkAppend(g, g[s][w[0]], w[1..], x);
    }
  }

  lemma {:induction false} WalkSplit(g: Graph, s: nat, w: seq<nat>, n: nat)
    requires s < |g| && IsWalk(g, s, w) && n <= |w|
    ensures IsWalk(g, s, w[..n]) && IsWalk(g, End(g, s, w[..n]), w[n..])
    ensures End(g, End(g, s, w[..n]), w[n..]) == End(g, s, w)
    decreases w
  {
    if n > 0 {
      assert w[..n][1..] == w[1..][..n - 1] && w[n..] == w[1..][n - 1..];
      WalkSplit(g, g[s][w[0]], w[1..], n - 1);
    } else {
      assert w[..n] == [] && w[n..] == w;
    }
  }

  /** The target of a first edge of a cycle is reached from itself by the empty walk
      and by the cycle turned by one edge. */
  lemma CycleGivesTwoWalks(g: Graph, v: nat, w: seq<nat>)
    requires v < |g| && w != [] && IsWalk(g, v, w) && End(g, v, w) == v
    ensures w[0] < |g[v]| && TwoWalks(g, g[v][w[0]])
  {
    var s := g[v][w[0]];
    var turned := w[1..] + [w[0]];
    assert [w[0]][1..] == [];
    assert IsWalk(g, s, []);
    assert IsWalk(g, v, [w[0]]) && End(g, v, [w[0]]) == s;
    WalkAppend(g, s, w[1..], [w[0]]);
    assert IsWalk(g, s, turned) && End(g, s, turned) == s && turned != [];
  }

  /** Without branching, a walk is determined by its length. */
  lemma {:induction false} WalksByLength(g: Graph, s: nat, w1: seq<nat>, w2: seq<nat>)
    requires OutDegreeAtMostOne(g) && s < |g|
    requires IsWalk(g, s, w1) && IsWalk(g, s, w2) && |w1| <= |w2|
    ensures w1 == w2[..|w1|]
    decreases w1
  {
    if w1 != [] {
      WalksByLength(g, g[s][w1[0]], w1[1..], w2[1..]);
      assert w1 == [w1[0]] + w1[1..];
      assert w2[..|w1|] == [w2[0]] + w2[1..][..|w1| - 1];
    }
  }

  /** Without branching, two walks to one vertex close a cycle through it. */
  lemma TwoWalksGiveCycle(g: Graph, s: nat)
    requires OutDegreeAtMostOne(g) && s < |g| && TwoWalks(g, s)
    ensures HasCycle(g)
  {
    var w1, w2 :| IsWalk(g, s, w1) && IsWalk(g, s, w2) && w1 != w2 && End(g, s, w1) == End(g, s, w2);
    var short, long := w1, w2;
    if |w2| < |w1| {
      short, long := w2, w1;
    }
    WalksByLength(g, s, short, long);
    WalkSplit(g, s, long, |short|);
    var t := End(g, s, short);
    assert IsWalk(g, t, long[|short|..]) && End(g, t, long[|short|..]) == t;
    assert long == long[..|short|] + long[|short|..];
    assert OnCycle(g, t);
  }
}
