/** Our own definition of the shortest-path lengths that the source obtains
    from `networkx.shortest_path_length` (weight = 'weight'). Distances are
    `Option<nat>`: None is the source's `float('inf')`, "no path".

    A walk is a sequence of node indices in which consecutive nodes are
    joined by an edge; its weight is the sum of those edges' weights. The
    Floyd-Warshall recurrence `D(g, k, i, j)` is proved to give, for k = n,
    exactly the minimum walk weight (`DistIsShortest`), and the method
    `FloydWarshall` computes it in place over an `array2`. */
module ShortestPaths {
  import opened Optional
  import opened Graphs

  /** Sum of two distances; unreachable absorbs (inf + x = inf). */
  function AddOpt(a: Option<nat>, b: Option<nat>): Option<nat>
  {
    if a.Some? && b.Some? then Some(a.value + b.value) else None
  }

  /** The smaller of two distances; unreachable is larger than every number. */
  function MinOpt(a: Option<nat>, b: Option<nat>): Option<nat>
  {
    if a.None? then b
    else if b.None? then a
    else if a.value <= b.value then a
    else b
  }

  /** The weight of the edge between the nodes at indices a and b, if any. */
  function Step(g: Graph, a: nat, b: nat): Option<nat>
    requires a < |g.nodes| && b < |g.nodes|
  {
    EdgeWeight(g.edges, g.nodes[a], g.nodes[b])
  }

  ghost predicate InRange(g: Graph, p: seq<nat>)
  {
    forall t :: 0 <= t < |p| ==> p[t] < |g.nodes|
  }

  ghost predicate Linked(g: Graph, p: seq<nat>)
    requires InRange(g, p)
  {
    forall t :: 0 <= t < |p| - 1 ==> Step(g, p[t], p[t + 1]).Some?
  }

  /** p is a walk from node i to node j along edges of g. */
  ghost predicate IsWalk(g: Graph, p: seq<nat>, i: nat, j: nat)
  {
    |p| >= 1 && p[0] == i && p[|p| - 1] == j && InRange(g, p) && Linked(g, p)
  }

  ghost function WalkWeight(g: Graph, p: seq<nat>): nat
    requires InRange(g, p) && Linked(g, p)
    decreases |p|
  {
    if |p| <= 1 then 0 else Step(g, p[0], p[1]).value + WalkWeight(g, p[1..])
  }

  /** r is the shortest-path length from i to j: None exactly when no walk
      exists, otherwise the weight of some walk and at most that of every walk. */
  ghost predicate IsShortestDistance(g: Graph, i: nat, j: nat, r: Option<nat>)
  {
    && (r.None? ==> forall p :: !IsWalk(g, p, i, j))
    && (r.Some? ==> && (exists p :: IsWalk(g, p, i, j) && WalkWeight(g, p) == r.value)
                    && (forall p :: IsWalk(g, p, i, j) ==> r.value <= WalkWeight(g, p)))
  }

  /** The initial matrix for edges given so far: 0 on the diagonal, the edge
      weight between distinct nodes, None where no edge joins them. */
  function Adjacency(nodes: seq<Node>, edges: seq<Edge>, i: nat, j: nat): Option<nat>
    requires i < |nodes| && j < |nodes|
  {
    if i == j then Some(0) else EdgeWeight(edges, nodes[i], nodes[j])
  }

  /** The Floyd-Warshall recurrence: the shortest distance from i to j over
      walks whose interior nodes all have index below k. */
  function D(g: Graph, k: nat, i: nat, j: nat): Option<nat>
    requires k <= |g.nodes| && i < |g.nodes| && j < |g.nodes|
    decreases k
  {
    if k == 0 then Adjacency(g.nodes, g.edges, i, j)
    else MinOpt(D(g, k - 1, i, j), AddOpt(D(g, k - 1, i, k - 1), D(g, k - 1, k - 1, j)))
  }

  /** The shortest-path length between the nodes at indices i and j. */
  function Dist(g: Graph, i: nat, j: nat): (r: Option<nat>)
    requires i < |g.nodes| && j < |g.nodes|
    ensures i == j ==> r == Some(0)
  {
    DiagonalZero(g, |g.nodes|, i);
    D(g, |g.nodes|, i, j)
  }

  /** Cutting a walk at position m gives two walks whose weights add up. */
  lemma {:induction false} WalkWeightSplit(g: Graph, p: seq<nat>, m: nat)
    requires InRange(g, p) && Linked(g, p) && m < |p|
    ensures InRange(g, p[..m + 1]) && Linked(g, p[..m + 1])
    ensures InRange(g, p[m..]) && Linked(g, p[m..])
    ensures WalkWeight(g, p) == WalkWeight(g, p[..m + 1]) + WalkWeight(g, p[m..])
    decreases m
  {
    var pre := p[..m + 1];
    SliceLinked(g, p, 0, m + 1);
    SliceLinked(g, p, m, |p|);
    assert p[0..m + 1] == pre && p[m..|p|] == p[m..];
    if m == 0 {
      assert p[0..] == p;
    } else {
      var q := p[1..];
      SliceLinked(g, p, 1, |p|);
      assert p[1..|p|] == q;
      WalkWeightSplit(g, q, m - 1);
      assert q[m - 1..] == p[m..];
      assert pre[1..] == q[..m];
      assert pre[0] == p[0] && pre[1] == p[1];
    }
  }

  /** A contiguous piece of a walk is a walk. */
  lemma SliceLinked(g: Graph, p: seq<nat>, lo: nat, hi: nat)
    requires InRange(g, p) && Linked(g, p) && lo < hi <= |p|
    ensures InRange(g, p[lo..hi]) && Linked(g, p[lo..hi])
  {
    var s := p[lo..hi];
    assert forall t :: 0 <= t < |s| ==> s[t] == p[lo + t];
    forall t | 0 <= t < |s| - 1
      ensures Step(g, s[t], s[t + 1]).Some?
    {
      assert s[t] == p[lo + t] && s[t + 1] == p[lo + t + 1];
    }
  }

  /** Joining a walk ending at x with a walk starting at x. */
  lemma WalkConcat(g: Graph, p: seq<nat>, q: seq<nat>, i: nat, x: nat, j: nat)
    requires IsWalk(g, p, i, x) && IsWalk(g, q, x, j)
    ensures IsWalk(g, p + q[1..], i, j)
    ensures WalkWeight(g, p + q[1..]) == WalkWeight(g, p) + WalkWeight(g, q)
  {
    var r := p + q[1..];
    assert InRange(g, r);
    assert Linked(g, r) by {
      forall t | 0 <= t < |r| - 1
        ensures Step(g, r[t], r[t + 1]).Some?
      {
        if t < |p| - 1 {
          assert r[t] == p[t] && r[t + 1] == p[t + 1];
        } else {
          assert r[t] == q[t - |p| + 1] && r[t + 1] == q[t - |p| + 2];
        }
      }
    }
    WalkWeightSplit(g, r, |p| - 1);
    assert r[..|p|] == p;
    assert r[|p| - 1..] == q;
  }

  /** A walk from i to j realising every finite D(g, k, i, j). */
  ghost function Witness(g: Graph, k: nat, i: nat, j: nat): (p: seq<nat>)
    requires k <= |g.nodes| && i < |g.nodes| && j < |g.nodes|
    requires D(g, k, i, j).Some?
    ensures IsWalk(g, p, i, j) && WalkWeight(g, p) == D(g, k, i, j).value
    decreases k
  {
    if k == 0 then
      if i == j then [i]
      else
        assert Step(g, i, j).Some?;
        [i, j]
    else
      var direct := D(g, k - 1, i, j);
      var via := AddOpt(D(g, k - 1, i, k - 1), D(g, k - 1, k - 1, j));
      if direct.Some? && (via.None? || direct.value <= via.value) then
        Witness(g, k - 1, i, j)
      else
        var p := Witness(g, k - 1, i, k - 1);
        var q := Witness(g, k - 1, k - 1, j);
        WalkConcat(g, p, q, i, k - 1, j);
        p + q[1..]
  }

  /** A node's distance to itself is 0 at every stage. */
  lemma {:induction false} DiagonalZero(g: Graph, k: nat, x: nat)
    requires k <= |g.nodes| && x < |g.nodes|
    ensures D(g, k, x, x) == Some(0)
    decreases k
  {
    if k > 0 {
      DiagonalZero(g, k - 1, x);
    }
  }

  /** Round k never changes row k or column k, which is what lets the
      Floyd-Warshall method update its matrix in place. */
  lemma PivotStable(g: Graph, k: nat)
    requires k < |g.nodes|
    ensures forall x :: 0 <= x < |g.nodes| ==> D(g, k + 1, x, k) == D(g, k, x, k)
    ensures forall y :: 0 <= y < |g.nodes| ==> D(g, k + 1, k, y) == D(g, k, k, y)
  {
    DiagonalZero(g, k, k);
  }

  /** The k = 0 case of Optimal: a walk without interior nodes is a single
      node or a single edge. */
  lemma OptimalDirect(g: Graph, p: seq<nat>, i: nat, j: nat)
    requires i < |g.nodes| && j < |g.nodes|
    requires IsWalk(g, p, i, j) && |p| <= 2
    ensures D(g, 0, i, j).Some? && D(g, 0, i, j).value <= WalkWeight(g, p)
  {
    if |p| == 2 {
      assert p[1..] == [j];
      assert WalkWeight(g, p) == Step(g, i, j).value;
    }
  }

  /** Relaxing through pivot x never exceeds going through x. */
  lemma ThroughPivot(g: Graph, k: nat, i: nat, j: nat, a: nat, b: nat)
    requires k < |g.nodes| && i < |g.nodes| && j < |g.nodes|
    requires D(g, k + 1, i, k).Some? && D(g, k + 1, i, k).value <= a
    requires D(g, k + 1, k, j).Some? && D(g, k + 1, k, j).value <= b
    ensures D(g, k + 1, i, j).Some? && D(g, k + 1, i, j).value <= a + b
  {
    PivotStable(g, k);
  }

  /** Every walk whose interior nodes have index below k is at least as heavy
      as D(g, k, i, j), which is therefore finite. */
  lemma {:induction false} Optimal(g: Graph, k: nat, p: seq<nat>, i: nat, j: nat)
    requires k <= |g.nodes| && i < |g.nodes| && j < |g.nodes|
    requires IsWalk(g, p, i, j)
    requires forall t :: 0 < t < |p| - 1 ==> p[t] < k
    ensures D(g, k, i, j).Some? && D(g, k, i, j).value <= WalkWeight(g, p)
    decreases k, |p|, 1
  {
    if k == 0 {
      OptimalDirect(g, p, i, j);
    } else if f :| 0 < f < |p| - 1 && p[f] == k - 1 {
      OptimalSplit(g, k - 1, p, i, j, f);
    } else {
      Optimal(g, k - 1, p, i, j);
    }
  }

  /** The case of Optimal where the walk passes through the pivot x at
      position f: cut it there into two shorter walks. */
  lemma {:induction false} OptimalSplit(g: Graph, x: nat, p: seq<nat>, i: nat, j: nat, f: nat)
    requires x < |g.nodes| && i < |g.nodes| && j < |g.nodes|
    requires IsWalk(g, p, i, j)
    requires forall t :: 0 < t < |p| - 1 ==> p[t] < x + 1
    requires 0 < f < |p| - 1 && p[f] == x
    ensures D(g, x + 1, i, j).Some? && D(g, x + 1, i, j).value <= WalkWeight(g, p)
    decreases x + 1, |p|, 0
  {
    var pre, post := p[..f + 1], p[f..];
    SplitAtPivot(g, x, p, i, j, f, pre, post);
    Optimal(g, x + 1, pre, i, x);
    Optimal(g, x + 1, post, x, j);
    ThroughPivot(g, x, i, j, WalkWeight(g, pre), WalkWeight(g, post));
  }

  /** Cutting a walk at an interior visit of x gives a walk to x and a walk
      from x, with interior nodes still below x + 1. */
  lemma SplitAtPivot(g: Graph, x: nat, p: seq<nat>, i: nat, j: nat, f: nat, pre: seq<nat>, post: seq<nat>)
    requires IsWalk(g, p, i, j)
    requires forall t :: 0 < t < |p| - 1 ==> p[t] < x + 1
    requires 0 < f < |p| - 1 && p[f] == x && pre == p[..f + 1] && post == p[f..]
    ensures IsWalk(g, pre, i, x) && IsWalk(g, post, x, j)
    ensures forall t :: 0 < t < |pre| - 1 ==> pre[t] < x + 1
    ensures forall t :: 0 < t < |post| - 1 ==> post[t] < x + 1
    ensures WalkWeight(g, p) == WalkWeight(g, pre) + WalkWeight(g, post)
  {
    WalkWeightSplit(g, p, f);
    PrefixInterior(x, p, f, pre);
    SuffixInterior(x, p, f, post);
  }

  lemma PrefixInterior(x: nat, p: seq<nat>, f: nat, pre: seq<nat>)
    requires forall t :: 0 < t < |p| - 1 ==> p[t] < x + 1
    requires f < |p| && pre == p[..f + 1]
    ensures forall t :: 0 < t < |pre| - 1 ==> pre[t] < x + 1
  {
    assert forall t :: 0 < t < |pre| - 1 ==> pre[t] == p[t];
  }

  lemma SuffixInterior(x: nat, p: seq<nat>, f: nat, post: seq<nat>)
    requires forall t :: 0 < t < |p| - 1 ==> p[t] < x + 1
    requires f < |p| && post == p[f..]
    ensures forall t :: 0 < t < |post| - 1 ==> post[t] < x + 1
  {
    forall t | 0 < t < |post| - 1
      ensures post[t] < x + 1
    {
      assert post[t] == p[f + t];
    }
  }

  /** Dist(g, i, j) is exactly the shortest-path length from i to j. */
  lemma DistIsShortest(g: Graph, i: nat, j: nat)
    requires i < |g.nodes| && j < |g.nodes|
    ensures IsShortestDistance(g, i, j, Dist(g, i, j))
  {
    var n := |g.nodes|;
    forall p | IsWalk(g, p, i, j)
      ensures Dist(g, i, j).Some? && Dist(g, i, j).value <= WalkWeight(g, p)
    {
      Optimal(g, n, p, i, j);
    }
    if Dist(g, i, j).Some? {
      var w := Witness(g, n, i, j);
      assert IsWalk(g, w, i, j) && WalkWeight(g, w) == Dist(g, i, j).value;
    }
  }

  /** Only Dist(g, i, j) satisfies IsShortestDistance. */
  lemma ShortestDistanceUnique(g: Graph, i: nat, j: nat, r: Option<nat>)
    requires i < |g.nodes| && j < |g.nodes|
    requires IsShortestDistance(g, i, j, r)
    ensures r == Dist(g, i, j)
  {
    DistIsShortest(g, i, j);
  }

  /** With no edges at all, distinct nodes are mutually unreachable (the
      situation the source's networkx error handler produces). */
  lemma NoEdgesUnreachable(g: Graph, i: nat, j: nat)
    requires g.edges == [] && i < |g.nodes| && j < |g.nodes| && i != j
    ensures Dist(g, i, j) == None
  {
    if Dist(g, i, j).Some? {
      var p := Witness(g, |g.nodes|, i, j);
      assert false;
    }
  }

  /** The matrix `Adjacency` describes, built by adding the edges one by one:
      a later edge between the same pair overwrites an earlier one. */
  method AdjacencyMatrix(g: Graph) returns (m: array2<Option<nat>>)
    requires ValidGraph(g)
    ensures fresh(m) && m.Length0 == |g.nodes| && m.Length1 == |g.nodes|
    ensures forall i, j :: 0 <= i < |g.nodes| && 0 <= j < |g.nodes| ==> m[i, j] == D(g, 0, i, j)
  {
    var n := |g.nodes|;
    m := new Option<nat>[n, n]((i, j) => if i == j then Some(0) else None);
    for e := 0 to |g.edges|
      invariant forall i, j :: 0 <= i < n && 0 <= j < n ==> m[i, j] == Adjacency(g.nodes, g.edges[..e], i, j)
    {
      SetEdge(g, m, e);
    }
    assert g.edges[..|g.edges|] == g.edges;
  }

  /** One `add_edge`: records edge e in both directions, unless it is a loop. */
  method SetEdge(g: Graph, m: array2<Option<nat>>, e: nat)
    requires ValidGraph(g) && e < |g.edges|
    requires m.Length0 == |g.nodes| && m.Length1 == |g.nodes|
    requires forall i, j :: 0 <= i < |g.nodes| && 0 <= j < |g.nodes| ==> m[i, j] == Adjacency(g.nodes, g.edges[..e], i, j)
    modifies m
    ensures forall i, j :: 0 <= i < |g.nodes| && 0 <= j < |g.nodes| ==> m[i, j] == Adjacency(g.nodes, g.edges[..e + 1], i, j)
  {
    var edge := g.edges[e];
    var a, b := IndexOf(g.nodes, edge.u), IndexOf(g.nodes, edge.v);
    if a != b {
      m[a, b] := Some(edge.weight);
      m[b, a] := Some(edge.weight);
    }
    AddEdge(g, e, a, b);
  }

  /** How adding edge e (between the nodes at a and b) changes `Adjacency`. */
  lemma AddEdge(g: Graph, e: nat, a: nat, b: nat)
    requires ValidGraph(g) && e < |g.edges|
    requires a < |g.nodes| && b < |g.nodes|
    requires g.nodes[a] == g.edges[e].u && g.nodes[b] == g.edges[e].v
    ensures forall i, j :: 0 <= i < |g.nodes| && 0 <= j < |g.nodes| ==>
      Adjacency(g.nodes, g.edges[..e + 1], i, j) ==
        if i != j && ((i == a && j == b) || (i == b && j == a)) then Some(g.edges[e].weight)
        else Adjacency(g.nodes, g.edges[..e], i, j)
  {
    var prefix := g.edges[..e + 1];
    assert prefix[..e] == g.edges[..e];
    assert prefix[e] == g.edges[e];
    forall i, j | 0 <= i < |g.nodes| && 0 <= j < |g.nodes|
      ensures Adjacency(g.nodes, prefix, i, j) ==
        if i != j && ((i == a && j == b) || (i == b && j == a)) then Some(g.edges[e].weight)
        else Adjacency(g.nodes, g.edges[..e], i, j)
    {
      if i != j {
        assert Joins(g.edges[e], g.nodes[i], g.nodes[j]) <==> (i == a && j == b) || (i == b && j == a);
      }
    }
  }

  /** Round k of Floyd-Warshall, in place: every entry becomes the smaller of
      itself and the route through node k. */
  method RelaxThrough(g: Graph, m: array2<Option<nat>>, k: nat)
    requires k < |g.nodes| && m.Length0 == |g.nodes| && m.Length1 == |g.nodes|
    requires forall i, j :: 0 <= i < |g.nodes| && 0 <= j < |g.nodes| ==> m[i, j] == D(g, k, i, j)
    modifies m
    ensures forall i, j :: 0 <= i < |g.nodes| && 0 <= j < |g.nodes| ==> m[i, j] == D(g, k + 1, i, j)
  {
    var n := |g.nodes|;
    PivotStable(g, k);
    for i := 0 to n
      invariant forall x, y :: 0 <= x < n && 0 <= y < n ==>
        m[x, y] == if x < i then D(g, k + 1, x, y) else D(g, k, x, y)
    {
      for j := 0 to n
        invariant forall x, y :: 0 <= x < n && 0 <= y < n ==>
          m[x, y] == if x < i || (x == i && y < j) then D(g, k + 1, x, y) else D(g, k, x, y)
      {
        m[i, j] := MinOpt(m[i, j], AddOpt(m[i, k], m[k, j]));
      }
    }
  }

  /** Computes every shortest-path length: the adjacency matrix relaxed
      through each node in turn. */
  method FloydWarshall(g: Graph) returns (m: array2<Option<nat>>)
    requires ValidGraph(g)
    ensures fresh(m) && m.Length0 == |g.nodes| && m.Length1 == |g.nodes|
    ensures forall i, j :: 0 <= i < |g.nodes| && 0 <= j < |g.nodes| ==> m[i, j] == Dist(g, i, j)
  {
    m := AdjacencyMatrix(g);
    for k := 0 to |g.nodes|
      invariant forall i, j :: 0 <= i < |g.nodes| && 0 <= j < |g.nodes| ==> m[i, j] == D(g, k, i, j)
    {
      RelaxThrough(g, m, k);
    }
  }
}
