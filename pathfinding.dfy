/** The A* search: the open set is the heap, the closed set a set of node
    ids, and the node fields (gCost, hCost, parent, HeapIndex) are arrays
    indexed by node id that persist from one search to the next. */
module Pathfinding {
  import opened Nodes
  import opened Heaps
  import opened Heuristics
  import opened Grids
  import opened SearchState

  datatype PathResult = Found(path: seq<Cell>) | NotFound

  /** The search's step cost and heuristic: the octile distance. */
  function GetDistance(nodeA: Cell, nodeB: Cell): (d: int)
    ensures d >= 0 && (d == 0 <==> nodeA == nodeB)
    ensures d == GetDiagonalsDistance(nodeA, nodeB)
  {
    var distX := Abs(nodeA.x - nodeB.x);
    var distY := Abs(nodeA.y - nodeB.y);
    if distX > distY then 14 * distY + 10 * (distX - distY)
    else 14 * distX + 10 * (distY - distX)
  }

  /** The sum of the step costs along q, starting from a. */
  function PathCost(a: Cell, q: seq<Cell>): int
    decreases |q|
  {
    if q == [] then 0 else GetDistance(a, q[0]) + PathCost(q[0], q[1..])
  }

  /** List.Reverse. */
  function Reversed<T>(s: seq<T>): (r: seq<T>)
    ensures |r| == |s| && forall i :: 0 <= i < |s| ==> r[i] == s[|s| - 1 - i]
    decreases |s|
  {
    if s == [] then [] else Reversed(s[1..]) + [s[0]]
  }

  lemma ReversedAppend<T>(s: seq<T>, x: T)
    ensures Reversed(s + [x]) == [x] + Reversed(s)
  {
  }

  /** Stepping back to a neighbour a of the walk's first cell extends it. */
  lemma PrependStep(g: Grid, a: Cell, b: Cell, t: Cell, q: seq<Cell>)
    requires IsPath(g, b, t, q) && g.InBounds(a) && Adjacent(b, a) && g.Walkable(b)
    ensures IsPath(g, a, t, [b] + q)
    ensures PathCost(a, [b] + q) == GetDistance(a, b) + PathCost(b, q)
  {
    var p := [b] + q;
    assert p[1..] == q;
    forall i | 0 < i < |p|
      ensures Adjacent(p[i], p[i - 1])
    {
      if i == 1 {
        assert p[0] == b && p[1] == q[0];
      } else {
        assert p[i] == q[i - 1] && p[i - 1] == q[i - 2];
      }
    }
  }

  /** Each cell of q has the previous one as its parent, and the first
      cell has a: q follows the parent links forward from a. */
  ghost predicate ParentChain(g: Grid, par: seq<int>, a: Cell, q: seq<Cell>)
    requires |par| == g.MaxSize() && g.InBounds(a)
    requires forall i :: 0 <= i < |q| ==> g.InBounds(q[i])
  {
    && (q != [] ==> par[g.Id(q[0])] == g.Id(a))
    && (forall i :: 0 < i < |q| ==> par[g.Id(q[i])] == g.Id(q[i - 1]))
  }

  /** A cell whose parent is a, put in front of a chain from it, gives a
      chain from a. */
  lemma PrependChain(g: Grid, par: seq<int>, a: Cell, b: Cell, q: seq<Cell>)
    requires |par| == g.MaxSize() && g.InBounds(a) && g.InBounds(b)
    requires forall i :: 0 <= i < |q| ==> g.InBounds(q[i])
    requires ParentChain(g, par, b, q) && par[g.Id(b)] == g.Id(a)
    ensures ParentChain(g, par, a, [b] + q)
  {
    var p := [b] + q;
    forall i | 0 < i < |p|
      ensures par[g.Id(p[i])] == g.Id(p[i - 1])
    {
      if i == 1 {
        assert p[0] == b && p[1] == q[0];
      } else {
        assert p[i] == q[i - 1] && p[i - 1] == q[i - 2];
      }
    }
  }

  /** RetracePath: follow the parents from the target back to the start,
      then reverse. The parents' ranks fall along the way, so the walk
      ends; the result is a walk from start to target whose step costs
      add up to the target's g-cost less the start's. */
  method RetracePath(g: Grid, startPos: Cell, targetPos: Cell, parent: array<int>,
                     ghost added: set<int>, ghost closed: set<int>, ghost rank: map<int, int>,
                     ghost gc: seq<int>, ghost hc: seq<int>)
      returns (path: seq<Cell>)
    requires g.Valid() && g.InBounds(startPos) && g.InBounds(targetPos)
    requires parent.Length == g.MaxSize() && |gc| == g.MaxSize() && |hc| == g.MaxSize()
    requires Tree(g, startPos, targetPos, added, closed, rank, gc, hc, parent[..])
    requires g.Id(targetPos) in closed
    ensures IsPath(g, startPos, targetPos, path)
    ensures path == [] <==> startPos == targetPos
    ensures startPos !in path
    ensures gc[g.Id(targetPos)] == gc[g.Id(startPos)] + PathCost(startPos, path)
    ensures ParentChain(g, parent[..], startPos, path)
  {
    var startNode, targetNode := g.Id(startPos), g.Id(targetPos);
    IdRoundTrip(g, startPos);
    IdRoundTrip(g, targetPos);
    var back: seq<Cell> := [];
    var currentNode := targetNode;
    while currentNode != startNode
      invariant currentNode in closed && 0 <= currentNode < g.MaxSize()
      invariant IsPath(g, g.CellOf(currentNode), targetPos, Reversed(back))
      invariant gc[targetNode] == gc[currentNode] + PathCost(g.CellOf(currentNode), Reversed(back))
      invariant back == [] ==> currentNode == targetNode
      invariant back != [] ==> rank[currentNode] < rank[targetNode]
      invariant startPos !in back
      invariant ParentChain(g, parent[..], g.CellOf(currentNode), Reversed(back))
      decreases rank[currentNode]
    {
      var next := parent[currentNode];
      assert Linked(g, targetPos, currentNode, gc, hc, parent[..]) && next == parent[..][currentNode];
      PrependStep(g, g.CellOf(next), g.CellOf(currentNode), targetPos, Reversed(back));
      PrependChain(g, parent[..], g.CellOf(next), g.CellOf(currentNode), Reversed(back));
      ReversedAppend(back, g.CellOf(currentNode));
      back := back + [g.CellOf(currentNode)];
      currentNode := next;
    }
    path := Reversed(back);
    assert forall i :: 0 <= i < |path| ==> path[i] == back[|back| - 1 - i];
  }

  /** The node fields the search writes, as values: the g-costs, h-costs
      and parents by node id, and the nodes ever added to the open set. */
  datatype SearchFields = SearchFields(gc: seq<int>, hc: seq<int>, par: seq<int>, added: set<int>)

  ghost predicate Sized(g: Grid, f: SearchFields)
  {
    |f.gc| == g.MaxSize() && |f.hc| == g.MaxSize() && |f.par| == g.MaxSize()
  }

  /** The relaxation of neighbour nb from cur: when the path through cur is
      cheaper or nb was never added (for a node that is not closed, that is
      "not open"), nb takes its costs and its parent from cur and is added. */
  ghost function RelaxOne(g: Grid, t: Cell, cur: int, nb: Cell, f: SearchFields): (r: SearchFields)
    requires g.Valid() && Sized(g, f) && 0 <= cur < g.MaxSize() && g.InBounds(nb)
    ensures Sized(g, r)
  {
    var m := g.Id(nb);
    var newG := f.gc[cur] + GetDistance(g.CellOf(cur), nb);
    if newG < f.gc[m] || m !in f.added
    then SearchFields(f.gc[m := newG], f.hc[m := GetDistance(nb, t)], f.par[m := cur], f.added + {m})
    else f
  }

  /** ExpandNode's loop over the cells ns, in order, as a function: the
      unwalkable and the closed ones are skipped, the others relaxed. */
  ghost function ExpandFrom(g: Grid, t: Cell, cur: int, closed: set<int>, ns: seq<Cell>, f: SearchFields): (r: SearchFields)
    requires g.Valid() && Sized(g, f) && 0 <= cur < g.MaxSize()
    requires forall k :: 0 <= k < |ns| ==> g.InBounds(ns[k])
    ensures Sized(g, r)
    decreases |ns|
  {
    if ns == [] then f
    else
      var f' := ExpandFrom(g, t, cur, closed, ns[..|ns| - 1], f);
      var nb := ns[|ns| - 1];
      if !g.Walkable(nb) || g.Id(nb) in closed then f' else RelaxOne(g, t, cur, nb, f')
  }

  /** Node m after being relaxed from cur, against the fields f0 from
      before the expansion: the cheaper-or-not-open test decides between
      the new costs and parent and the old ones; either way m is added. */
  ghost predicate RelaxedFrom(g: Grid, t: Cell, cur: int, m: int, f0: SearchFields, f1: SearchFields)
    requires g.Valid() && Sized(g, f0) && Sized(g, f1) && 0 <= cur < g.MaxSize() && 0 <= m < g.MaxSize()
  {
    var newG := f0.gc[cur] + GetDistance(g.CellOf(cur), g.CellOf(m));
    && m in f1.added
    && if newG < f0.gc[m] || m !in f0.added
       then f1.gc[m] == newG && f1.hc[m] == GetDistance(g.CellOf(m), t) && f1.par[m] == cur
       else f1.gc[m] == f0.gc[m] && f1.hc[m] == f0.hc[m] && f1.par[m] == f0.par[m]
  }

  /** Node m is untouched: same costs, same parent, added exactly when it was. */
  ghost predicate Kept(g: Grid, m: int, f0: SearchFields, f1: SearchFields)
    requires Sized(g, f0) && Sized(g, f1) && 0 <= m < g.MaxSize()
  {
    f1.gc[m] == f0.gc[m] && f1.hc[m] == f0.hc[m] && f1.par[m] == f0.par[m] && (m in f1.added <==> m in f0.added)
  }

  /** RelaxOne of nb relaxes nb from cur and leaves every other node untouched. */
  lemma RelaxOneEffect(g: Grid, t: Cell, cur: int, nb: Cell, f: SearchFields)
    requires g.Valid() && Sized(g, f) && 0 <= cur < g.MaxSize() && g.InBounds(nb)
    ensures RelaxedFrom(g, t, cur, g.Id(nb), f, RelaxOne(g, t, cur, nb, f))
    ensures forall m :: 0 <= m < g.MaxSize() && m != g.Id(nb) ==> Kept(g, m, f, RelaxOne(g, t, cur, nb, f))
  {
    IdRoundTrip(g, nb);
  }

  /** Over distinct cells, the expansion relaxes each walkable cell that is
      not closed exactly once, against the fields from before the expansion,
      and leaves every other node untouched. */
  lemma {:induction false} ExpandFromEffect(g: Grid, t: Cell, cur: int, closed: set<int>, ns: seq<Cell>, f: SearchFields)
    requires g.Valid() && Sized(g, f) && 0 <= cur < g.MaxSize() && cur in closed
    requires forall k :: 0 <= k < |ns| ==> g.InBounds(ns[k])
    requires forall i, j :: 0 <= i < j < |ns| ==> ns[i] != ns[j]
    ensures forall m :: 0 <= m < g.MaxSize() ==>
              if g.CellOf(m) in ns && g.Walkable(g.CellOf(m)) && m !in closed
              then RelaxedFrom(g, t, cur, m, f, ExpandFrom(g, t, cur, closed, ns, f))
              else Kept(g, m, f, ExpandFrom(g, t, cur, closed, ns, f))
    decreases |ns|
  {
    if ns != [] {
      var init, nb := ns[..|ns| - 1], ns[|ns| - 1];
      var f' := ExpandFrom(g, t, cur, closed, init, f);
      var r := ExpandFrom(g, t, cur, closed, ns, f);
      ExpandFromEffect(g, t, cur, closed, init, f);
      IdRoundTrip(g, nb);
      assert nb !in init by {
        forall k | 0 <= k < |init| ensures init[k] != nb { assert init[k] == ns[k]; }
      }
      forall m | 0 <= m < g.MaxSize()
        ensures if g.CellOf(m) in ns && g.Walkable(g.CellOf(m)) && m !in closed
                then RelaxedFrom(g, t, cur, m, f, r)
                else Kept(g, m, f, r)
      {
        assert g.CellOf(m) in ns <==> g.CellOf(m) in init || g.CellOf(m) == nb;
        if m == g.Id(nb) {
          assert Kept(g, m, f, f') && Kept(g, cur, f, f');
        }
      }
    }
  }

  /** The loop over ns advanced by one cell: the first i + 1 cells are the
      first i, then ns[i] skipped or relaxed. */
  lemma ExpandFromNext(g: Grid, t: Cell, cur: int, closed: set<int>, ns: seq<Cell>, i: int, f: SearchFields)
    requires g.Valid() && Sized(g, f) && 0 <= cur < g.MaxSize() && 0 <= i < |ns|
    requires forall k :: 0 <= k < |ns| ==> g.InBounds(ns[k])
    ensures var f' := ExpandFrom(g, t, cur, closed, ns[..i], f);
            ExpandFrom(g, t, cur, closed, ns[..i + 1], f) ==
              if !g.Walkable(ns[i]) || g.Id(ns[i]) in closed then f' else RelaxOne(g, t, cur, ns[i], f')
  {
    assert ns[..i + 1][..i] == ns[..i];
  }

  /** The expansion of cur over its GetNeighbours cells, node by node:
      every walkable neighbour that is not closed is relaxed from cur, and
      every closed, unwalkable or non-adjacent node is untouched. */
  lemma ExpandEffect(g: Grid, t: Cell, cur: int, closed: set<int>, f0: SearchFields, f1: SearchFields)
    requires g.Valid() && Sized(g, f0) && 0 <= cur < g.MaxSize() && cur in closed
    requires forall k :: 0 <= k < |g.Neighbours(g.CellOf(cur))| ==> g.InBounds(g.Neighbours(g.CellOf(cur))[k])
    requires f1 == ExpandFrom(g, t, cur, closed, g.Neighbours(g.CellOf(cur)), f0)
    ensures Sized(g, f1)
    ensures forall m :: 0 <= m < g.MaxSize() && m !in closed && g.Walkable(g.CellOf(m)) && Adjacent(g.CellOf(m), g.CellOf(cur)) ==>
              RelaxedFrom(g, t, cur, m, f0, f1)
    ensures forall m :: 0 <= m < g.MaxSize() && (m in closed || !g.Walkable(g.CellOf(m))) ==> Kept(g, m, f0, f1)
    ensures forall m :: 0 <= m < g.MaxSize() && !Adjacent(g.CellOf(m), g.CellOf(cur)) ==> Kept(g, m, f0, f1)
  {
    var c := g.CellOf(cur);
    NeighboursSorted(g, c);
    ExpandFromEffect(g, t, cur, closed, g.Neighbours(c), f0);
    forall m | 0 <= m < g.MaxSize()
      ensures g.CellOf(m) in g.Neighbours(c) <==> Adjacent(g.CellOf(m), c)
    {
      NeighboursMembers(g, c, g.CellOf(m));
    }
  }

  /** One neighbour of the node being expanded, which is walkable and not
      closed: when the path through the current node is cheaper or the
      neighbour is not open, set its costs and parent, and add it to the
      open set if it is not there. */
  method Relax(g: Grid, startPos: Cell, targetPos: Cell, openSet: Heap, closedSet: set<int>, ghost rank: map<int, int>,
               currentNode: int, currentCell: Cell, neighbour: Cell,
               gCost: array<int>, hCost: array<int>, parent: array<int>)
    requires g.Valid() && g.InBounds(startPos) && g.InBounds(targetPos)
    requires gCost.Length == g.MaxSize() && hCost.Length == g.MaxSize() && parent.Length == g.MaxSize()
    requires openSet.items.Length == g.MaxSize() && openSet.heapIndex.Length == g.MaxSize()
    requires openSet.gCost == gCost && openSet.hCost == hCost
    requires parent != openSet.items && parent != openSet.heapIndex && parent != gCost && parent != hCost
    requires gCost != hCost && openSet.heapIndex != gCost && openSet.heapIndex != hCost
    requires openSet.Valid()
    requires Tree(g, startPos, targetPos, openSet.Added, closedSet, rank, gCost[..], hCost[..], parent[..])
    requires Partition(openSet.Contents(), openSet.Added, closedSet)
    requires openSet.currentItemCount + |closedSet| == |openSet.Added|
    requires currentNode in closedSet && 0 <= currentNode < g.MaxSize() && currentCell == g.CellOf(currentNode)
    requires g.InBounds(neighbour) && Adjacent(neighbour, currentCell)
    requires g.Walkable(neighbour) && g.Id(neighbour) !in closedSet
    modifies openSet, openSet.items, openSet.heapIndex, gCost, hCost, parent
    ensures openSet.Valid()
    ensures Tree(g, startPos, targetPos, openSet.Added, closedSet, rank, gCost[..], hCost[..], parent[..])
    ensures Partition(openSet.Contents(), openSet.Added, closedSet)
    ensures openSet.currentItemCount + |closedSet| == |openSet.Added|
    ensures openSet.Added == old(openSet.Added) + {g.Id(neighbour)}
    ensures forall m :: 0 <= m < g.MaxSize() && m != g.Id(neighbour) ==>
              gCost[m] == old(gCost[m]) && hCost[m] == old(hCost[m]) && parent[m] == old(parent[m])
    ensures SearchFields(gCost[..], hCost[..], parent[..], openSet.Added) ==
            RelaxOne(g, targetPos, currentNode, neighbour,
                     SearchFields(old(gCost[..]), old(hCost[..]), old(parent[..]), old(openSet.Added)))
  {
    var neighbourNode := g.Id(neighbour);
    ghost var added, open := openSet.Added, openSet.Contents();
    var newCostToNeighbour := gCost[currentNode] + GetDistance(currentCell, neighbour);
    assert openSet.Contains(neighbourNode) <==> neighbourNode in open;
    if newCostToNeighbour < gCost[neighbourNode] || !openSet.Contains(neighbourNode) {
      IdRoundTrip(g, neighbour);
      var newH := GetDistance(neighbour, targetPos);
      SetCosts(g, startPos, targetPos, added, closedSet, rank, currentNode, neighbourNode,
               newCostToNeighbour, newH, gCost, hCost, parent);
      assert openSet.Contents() == open;

      if !openSet.Contains(neighbourNode) {
        OpenNode(openSet, closedSet, neighbourNode);
      } else {
        assert added + {neighbourNode} == added;
      }
    } else {
      assert added + {neighbourNode} == added;
    }
  }

  /** Relax's update of one node that is walkable, not closed and next to
      the current node: its costs and parent become those of the path through
      the current node, and the search tree takes the node in. */
  method SetCosts(g: Grid, startPos: Cell, targetPos: Cell, ghost added: set<int>, closedSet: set<int>,
                  ghost rank: map<int, int>, currentNode: int, node: int, newG: int, newH: int,
                  gCost: array<int>, hCost: array<int>, parent: array<int>)
    requires g.Valid() && g.InBounds(startPos)
    requires gCost.Length == g.MaxSize() && hCost.Length == g.MaxSize() && parent.Length == g.MaxSize()
    requires gCost != hCost && parent != gCost && parent != hCost
    requires Tree(g, startPos, targetPos, added, closedSet, rank, gCost[..], hCost[..], parent[..])
    requires currentNode in closedSet && 0 <= node < g.MaxSize() && node !in closedSet
    requires g.Walkable(g.CellOf(node)) && Adjacent(g.CellOf(node), g.CellOf(currentNode))
    requires newG == gCost[currentNode] + GetDiagonalsDistance(g.CellOf(currentNode), g.CellOf(node))
    requires newH == GetDiagonalsDistance(g.CellOf(node), targetPos)
    modifies gCost, hCost, parent
    ensures gCost[..] == old(gCost[..])[node := newG]
    ensures hCost[..] == old(hCost[..])[node := newH]
    ensures parent[..] == old(parent[..])[node := currentNode]
    ensures Tree(g, startPos, targetPos, added + {node}, closedSet, rank, gCost[..], hCost[..], parent[..])
  {
    RelaxStep(g, startPos, targetPos, added, closedSet, rank, gCost[..], hCost[..], parent[..],
              currentNode, node, newG, newH);
    gCost[node] := newG;
    hCost[node] := newH;
    parent[node] := currentNode;
  }

  /** Add a node that is neither open nor closed to the open set, then
      re-sift it: the open set grows by it and stays split from the closed
      set. */
  method OpenNode(openSet: Heap, closedSet: set<int>, node: int)
    requires openSet.Valid() && 0 <= node < openSet.heapIndex.Length
    requires openSet.items.Length == openSet.heapIndex.Length
    requires Partition(openSet.Contents(), openSet.Added, closedSet)
    requires openSet.currentItemCount + |closedSet| == |openSet.Added|
    requires node !in openSet.Added
    modifies openSet, openSet.items, openSet.heapIndex
    ensures openSet.Valid() && openSet.Added == old(openSet.Added) + {node}
    ensures Partition(openSet.Contents(), openSet.Added, closedSet)
    ensures openSet.currentItemCount + |closedSet| == |openSet.Added|
  {
    ghost var added, open, count := openSet.Added, openSet.Contents(), openSet.currentItemCount;
    assert |added + {node}| == |added| + 1;
    MissingCard(added, openSet.heapIndex.Length, node);
    openSet.Add(node);
    openSet.UpdateItem(node);
    PartitionAdd(open, openSet.Contents(), added, closedSet, node);
  }

  /** The neighbour loop of FindPath for the node just closed: every
      walkable neighbour that is not closed is relaxed, so afterwards the
      node is expanded. */
  method ExpandNode(g: Grid, startPos: Cell, targetPos: Cell, openSet: Heap, closedSet: set<int>, ghost rank: map<int, int>,
                    currentNode: int, gCost: array<int>, hCost: array<int>, parent: array<int>)
    requires Searching(g, startPos, targetPos, openSet, closedSet, rank, gCost, hCost, parent)
    requires currentNode in closedSet && 0 <= currentNode < g.MaxSize()
    requires AllExpanded(g, closedSet - {currentNode}, openSet.Added)
    modifies openSet, openSet.items, openSet.heapIndex, gCost, hCost, parent
    ensures Searching(g, startPos, targetPos, openSet, closedSet, rank, gCost, hCost, parent)
    ensures AllExpanded(g, closedSet, openSet.Added)
    ensures forall m :: 0 <= m < g.MaxSize() && (m in closedSet || !g.Walkable(g.CellOf(m))) ==>
              gCost[m] == old(gCost[m]) && hCost[m] == old(hCost[m]) && parent[m] == old(parent[m])
    ensures forall m :: 0 <= m < g.MaxSize() && !Adjacent(g.CellOf(m), g.CellOf(currentNode)) ==>
              gCost[m] == old(gCost[m]) && hCost[m] == old(hCost[m]) && parent[m] == old(parent[m])
    ensures SearchFields(gCost[..], hCost[..], parent[..], openSet.Added) ==
            ExpandFrom(g, targetPos, currentNode, closedSet, g.Neighbours(g.CellOf(currentNode)),
                       SearchFields(old(gCost[..]), old(hCost[..]), old(parent[..]), old(openSet.Added)))
    ensures forall m :: 0 <= m < g.MaxSize() && m !in closedSet && g.Walkable(g.CellOf(m)) &&
                        Adjacent(g.CellOf(m), g.CellOf(currentNode)) ==>
              RelaxedFrom(g, targetPos, currentNode, m,
                          SearchFields(old(gCost[..]), old(hCost[..]), old(parent[..]), old(openSet.Added)),
                          SearchFields(gCost[..], hCost[..], parent[..], openSet.Added))
  {
    var currentCell := g.CellOf(currentNode);
    var neighbours := g.GetNeighbours(currentCell);
    ghost var f0 := SearchFields(gCost[..], hCost[..], parent[..], openSet.Added);
    for i := 0 to |neighbours|
      invariant Searching(g, startPos, targetPos, openSet, closedSet, rank, gCost, hCost, parent)
      invariant AllExpanded(g, closedSet - {currentNode}, openSet.Added)
      invariant Processed(g, neighbours, i, openSet.Added)
      invariant SearchFields(gCost[..], hCost[..], parent[..], openSet.Added) ==
                ExpandFrom(g, targetPos, currentNode, closedSet, neighbours[..i], f0)
    {
      var neighbour := neighbours[i];
      NeighboursMembers(g, currentCell, neighbour);
      var neighbourNode := g.Id(neighbour);
      ghost var before := openSet.Added;
      ExpandFromNext(g, targetPos, currentNode, closedSet, neighbours, i, f0);
      if !g.Walkable(neighbour) || neighbourNode in closedSet {
        ProcessedStep(g, neighbours, i, before, before);
        continue;
      }
      IdRoundTrip(g, neighbour);
      Relax(g, startPos, targetPos, openSet, closedSet, rank, currentNode, currentCell, neighbour,
            gCost, hCost, parent);
      ExpandedGrows(g, closedSet - {currentNode}, before, openSet.Added);
      ProcessedStep(g, neighbours, i, before, openSet.Added);
    }
    ProcessedExpanded(g, currentCell, neighbours, openSet.Added);
    ExpandedInsert(g, closedSet, currentNode, openSet.Added);
    assert neighbours[..|neighbours|] == neighbours;
    ExpandEffect(g, targetPos, currentNode, closedSet, f0, SearchFields(gCost[..], hCost[..], parent[..], openSet.Added));
  }

  /** Opens the search: a fresh heap over the node arrays holding only the start node. */
  method StartSearch(g: Grid, startPos: Cell, targetPos: Cell,
                     gCost: array<int>, hCost: array<int>, parent: array<int>, heapIndex: array<int>)
      returns (openSet: Heap)
    requires g.Valid() && g.InBounds(startPos) && g.InBounds(targetPos)
    requires gCost.Length == g.MaxSize() && hCost.Length == g.MaxSize()
    requires parent.Length == g.MaxSize() && heapIndex.Length == g.MaxSize()
    requires gCost != hCost && gCost != parent && gCost != heapIndex
    requires hCost != parent && hCost != heapIndex && parent != heapIndex
    requires SlotsInRange(heapIndex[..], g.MaxSize())
    modifies heapIndex
    ensures fresh(openSet) && fresh(openSet.items) && openSet.heapIndex == heapIndex
    ensures openSet.Added == {g.Id(startPos)}
    ensures Searching(g, startPos, targetPos, openSet, {}, map[], gCost, hCost, parent)
  {
    openSet := new Heap(g.MaxSize(), heapIndex, gCost, hCost);
    openSet.Add(g.Id(startPos));
  }

  /**
   * The first step of an iteration of the search loop: the best open node
   * leaves the heap and joins the closed set, which keeps the search state.
   */
  method CloseNext(g: Grid, startPos: Cell, targetPos: Cell, openSet: Heap, closedSet: set<int>,
                   ghost rank: map<int, int>, gCost: array<int>, hCost: array<int>, parent: array<int>)
      returns (currentNode: int, closedSet': set<int>, ghost rank': map<int, int>)
    requires Searching(g, startPos, targetPos, openSet, closedSet, rank, gCost, hCost, parent)
    requires openSet.currentItemCount > 0
    modifies openSet, openSet.items, openSet.heapIndex
    ensures currentNode == old(openSet.items[0])
    ensures currentNode in openSet.Added && currentNode !in closedSet
    ensures openSet.Added == old(openSet.Added)
    ensures closedSet' == closedSet + {currentNode} && closedSet' - {currentNode} == closedSet
    ensures |closedSet| < |closedSet'| <= g.MaxSize()
    ensures Searching(g, startPos, targetPos, openSet, closedSet', rank', gCost, hCost, parent)
  {
    SubsetCard(openSet.Added, g.MaxSize());
    ghost var added, open := openSet.Added, openSet.Contents();
    currentNode := openSet.RemoveFirst();
    CloseStep(g, startPos, targetPos, added, closedSet, rank, gCost[..], hCost[..], parent[..], currentNode);
    PartitionRemove(open, openSet.Contents(), added, closedSet, currentNode);
    closedSet' := closedSet + {currentNode};
    rank' := rank[currentNode := |closedSet|];
    assert closedSet' - {currentNode} == closedSet;
  }

  /** One iteration of FindPath's loop: close the best open node; if it
      is the target, retrace the path to it, otherwise expand it. */
  method SearchStep(g: Grid, startPos: Cell, targetPos: Cell, openSet: Heap, closedSet: set<int>,
                    ghost rank: map<int, int>, gCost: array<int>, hCost: array<int>, parent: array<int>)
      returns (found: bool, path: seq<Cell>, closedSet': set<int>, ghost rank': map<int, int>)
    requires Searching(g, startPos, targetPos, openSet, closedSet, rank, gCost, hCost, parent)
    requires openSet.currentItemCount > 0
    requires g.Id(startPos) in closedSet || (closedSet == {} && openSet.Added == {g.Id(startPos)})
    requires g.Id(targetPos) !in closedSet && AllExpanded(g, closedSet, openSet.Added)
    modifies openSet, openSet.items, openSet.heapIndex, gCost, hCost, parent
    ensures Searching(g, startPos, targetPos, openSet, closedSet', rank', gCost, hCost, parent)
    ensures g.Id(startPos) in closedSet' && |closedSet| < |closedSet'| <= g.MaxSize()
    ensures found <==> g.Id(targetPos) in closedSet'
    ensures found ==> IsPath(g, startPos, targetPos, path)
    ensures found ==> startPos !in path
    ensures found ==> (path == [] <==> startPos == targetPos)
    ensures found ==> gCost[g.Id(targetPos)] == gCost[g.Id(startPos)] + PathCost(startPos, path)
    ensures found ==> ParentChain(g, parent[..], startPos, path)
    ensures !found ==> AllExpanded(g, closedSet', openSet.Added)
    ensures forall m :: 0 <= m < g.MaxSize() && (m in closedSet' || !g.Walkable(g.CellOf(m))) ==>
              gCost[m] == old(gCost[m]) && hCost[m] == old(hCost[m]) && parent[m] == old(parent[m])
    ensures closedSet' == closedSet + {old(openSet.items[0])}
    ensures !found ==>
              forall m :: 0 <= m < g.MaxSize() && m !in closedSet' && g.Walkable(g.CellOf(m)) &&
                          Adjacent(g.CellOf(m), g.CellOf(old(openSet.items[0]))) ==>
                RelaxedFrom(g, targetPos, old(openSet.items[0]), m,
                            SearchFields(old(gCost[..]), old(hCost[..]), old(parent[..]), old(openSet.Added)),
                            SearchFields(gCost[..], hCost[..], parent[..], openSet.Added))
    ensures !found ==>
              SearchFields(gCost[..], hCost[..], parent[..], openSet.Added) ==
              ExpandFrom(g, targetPos, old(openSet.items[0]), closedSet', g.Neighbours(g.CellOf(old(openSet.items[0]))),
                         SearchFields(old(gCost[..]), old(hCost[..]), old(parent[..]), old(openSet.Added)))
    ensures found ==> gCost[..] == old(gCost[..]) && hCost[..] == old(hCost[..]) && parent[..] == old(parent[..])
    ensures found ==> openSet.Added == old(openSet.Added)
  {
    var currentNode;
    currentNode, closedSet', rank' := CloseNext(g, startPos, targetPos, openSet, closedSet, rank, gCost, hCost, parent);
    if currentNode == g.Id(targetPos) {
      path := RetracePath(g, startPos, targetPos, parent, openSet.Added, closedSet', rank', gCost[..], hCost[..]);
      return true, path, closedSet', rank';
    }
    ExpandNode(g, startPos, targetPos, openSet, closedSet', rank', currentNode, gCost, hCost, parent);
    found, path := false, [];
  }

  /** FindPath: A* from startPos to targetPos over the grid. The start is
      added whether or not it is walkable; a neighbour is skipped when it
      is unwalkable or closed; its costs and parent are (re)set when the new
      path to it is cheaper or it is not open, and it is then added when it
      is not open. Reaching the target retraces the path; an empty open set
      means no walk from start to target exists. */
  method FindPath(g: Grid, startPos: Cell, targetPos: Cell,
                  gCost: array<int>, hCost: array<int>, parent: array<int>, heapIndex: array<int>)
      returns (result: PathResult)
    requires g.Valid() && g.InBounds(startPos) && g.InBounds(targetPos)
    requires gCost.Length == g.MaxSize() && hCost.Length == g.MaxSize()
    requires parent.Length == g.MaxSize() && heapIndex.Length == g.MaxSize()
    requires gCost != hCost && gCost != parent && gCost != heapIndex
    requires hCost != parent && hCost != heapIndex && parent != heapIndex
    requires SlotsInRange(heapIndex[..], g.MaxSize())
    modifies gCost, hCost, parent, heapIndex
    ensures result.Found? ==> IsPath(g, startPos, targetPos, result.path)
    ensures result.Found? ==> (result.path == [] <==> startPos == targetPos)
    ensures result.Found? ==> startPos !in result.path
    ensures result.Found? ==> gCost[g.Id(targetPos)] == gCost[g.Id(startPos)] + PathCost(startPos, result.path)
    ensures result.Found? ==> ParentChain(g, parent[..], startPos, result.path)
    ensures result.NotFound? ==> forall q :: !IsPath(g, startPos, targetPos, q)
    ensures SlotsInRange(heapIndex[..], g.MaxSize())
    ensures forall m :: 0 <= m < g.MaxSize() && !g.Walkable(g.CellOf(m)) ==>
              gCost[m] == old(gCost[m]) && hCost[m] == old(hCost[m]) && parent[m] == old(parent[m])
  {
    var startNode, targetNode := g.Id(startPos), g.Id(targetPos);
    var openSet := StartSearch(g, startPos, targetPos, gCost, hCost, parent, heapIndex);
    var closedSet: set<int> := {};
    ghost var rank: map<int, int> := map[];

    while openSet.Count() > 0
      invariant fresh(openSet) && fresh(openSet.items) && openSet.heapIndex == heapIndex
      invariant Searching(g, startPos, targetPos, openSet, closedSet, rank, gCost, hCost, parent)
      invariant startNode in closedSet || (closedSet == {} && openSet.Added == {startNode})
      invariant targetNode !in closedSet
      invariant AllExpanded(g, closedSet, openSet.Added)
      invariant forall m :: 0 <= m < g.MaxSize() && !g.Walkable(g.CellOf(m)) ==>
                  gCost[m] == old(gCost[m]) && hCost[m] == old(hCost[m]) && parent[m] == old(parent[m])
      decreases g.MaxSize() - |closedSet|
    {
      var found, path;
      found, path, closedSet, rank := SearchStep(g, startPos, targetPos, openSet, closedSet, rank, gCost, hCost, parent);
      if found {
        return Found(path);
      }
    }
    NoPath(g, startPos, targetPos, closedSet);
    return NotFound;
  }
}
