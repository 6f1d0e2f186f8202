/** The vocabulary in which the A* search is proved: walks over the grid,
    the search tree the parent links form, the split of the added nodes
    into open and closed, and the search state that FindPath keeps from
    one iteration to the next. */
module SearchState {
  import opened Nodes
  import opened Heaps
  import opened Heuristics
  import opened Grids

  /** q walks from a to b: each cell is adjacent to the one before (a for
      the first), every cell of q is in the grid and walkable, and q ends
      at b; the
      empty walk joins a cell to itself. The starting cell itself need not
      be walkable. */
  ghost predicate IsPath(g: Grid, a: Cell, b: Cell, q: seq<Cell>)
  {
    && g.Valid() && g.InBounds(a)
    && (q == [] ==> a == b)
    && (q != [] ==> Adjacent(q[0], a) && q[|q| - 1] == b)
    && (forall i :: 0 < i < |q| ==> Adjacent(q[i], q[i - 1]))
    && (forall i :: 0 <= i < |q| ==> g.InBounds(q[i]) && g.Walkable(q[i]))
  }

  /** Every cell of a walk from a cell of C stays in C when C holds the
      walkable neighbours of each of its cells. */
  lemma {:induction false} WalkInside(g: Grid, a: Cell, b: Cell, q: seq<Cell>, closed: set<int>, i: int)
    requires IsPath(g, a, b, q) && g.Id(a) in closed && AllExpanded(g, closed, closed)
    requires 0 <= i < |q|
    ensures g.Id(q[i]) in closed
    decreases i
  {
    var prev := if i == 0 then a else q[i - 1];
    if i > 0 {
      WalkInside(g, a, b, q, closed, i - 1);
    }
    IdRoundTrip(g, prev);
  }

  /** Exhausting the open set proves the target unreachable: the closed set
      holds the start and the walkable neighbours of each of its cells but
      not the target, so no walk leads from the start to the target. */
  lemma NoPath(g: Grid, s: Cell, t: Cell, closed: set<int>)
    requires g.Valid() && g.InBounds(s) && g.InBounds(t)
    requires g.Id(s) in closed && g.Id(t) !in closed && AllExpanded(g, closed, closed)
    ensures forall q :: !IsPath(g, s, t, q)
  {
    forall q | IsPath(g, s, t, q)
      ensures false
    {
      if q == [] {
      } else {
        WalkInside(g, s, t, q, closed, |q| - 1);
      }
    }
  }

  /** Every walkable neighbour of cell c has been added to the open set
      (GetNeighbours returns exactly the adjacent in-grid cells). */
  ghost predicate Expanded(g: Grid, c: Cell, added: set<int>)
    requires g.Valid()
  {
    forall e :: Adjacent(e, c) && g.InBounds(e) && g.Walkable(e) ==> g.Id(e) in added
  }

  ghost predicate AllExpanded(g: Grid, nodes: set<int>, added: set<int>)
    requires g.Valid()
  {
    forall m :: m in nodes ==> 0 <= m < g.MaxSize() && Expanded(g, g.CellOf(m), added)
  }

  /** What the search knows about node m, added by relaxing an edge: its
      parent is adjacent to it, it is walkable, its
      h-cost is its distance to the target and its g-cost is its parent's
      plus the step between them. */
  ghost predicate Linked(g: Grid, t: Cell, m: int, gc: seq<int>, hc: seq<int>, par: seq<int>)
    requires g.Valid() && |gc| == g.MaxSize() && |hc| == g.MaxSize() && |par| == g.MaxSize()
    requires 0 <= m < g.MaxSize()
  {
    var c := g.CellOf(m);
    && 0 <= par[m] < g.MaxSize()
    && g.Walkable(c)
    && Adjacent(c, g.CellOf(par[m]))
    && hc[m] == GetDiagonalsDistance(c, t)
    && gc[m] == gc[par[m]] + GetDiagonalsDistance(g.CellOf(par[m]), c)
  }

  /** The search tree: every added node but the start is linked to a
      closed parent, and each closed node's parent was closed before it. */
  ghost predicate Tree(g: Grid, s: Cell, t: Cell, added: set<int>, closed: set<int>, rank: map<int, int>,
                       gc: seq<int>, hc: seq<int>, par: seq<int>)
    requires g.Valid() && g.InBounds(s)
    requires |gc| == g.MaxSize() && |hc| == g.MaxSize() && |par| == g.MaxSize()
  {
    && (forall m :: m in added ==> 0 <= m < g.MaxSize())
    && g.Id(s) in added && closed <= added
    && (forall m {:trigger Linked(g, t, m, gc, hc, par)} :: m in added && m != g.Id(s) ==> Linked(g, t, m, gc, hc, par))
    && (forall m {:trigger par[m]} :: m in added && m != g.Id(s) ==> par[m] in closed)
    && rank.Keys == closed
    && (forall m :: m in closed ==> 0 <= rank[m] < |closed|)
    && (forall m {:trigger par[m]} :: m in closed && m != g.Id(s) ==> rank[par[m]] < rank[m])
  }

  /** Closing an open node keeps the tree: it takes the next rank. */
  lemma CloseStep(g: Grid, s: Cell, t: Cell, added: set<int>, closed: set<int>, rank: map<int, int>,
                  gc: seq<int>, hc: seq<int>, par: seq<int>, cur: int)
    requires g.Valid() && g.InBounds(s)
    requires |gc| == g.MaxSize() && |hc| == g.MaxSize() && |par| == g.MaxSize()
    requires Tree(g, s, t, added, closed, rank, gc, hc, par)
    requires cur in added && cur !in closed
    ensures Tree(g, s, t, added, closed + {cur}, rank[cur := |closed|], gc, hc, par)
    ensures |closed + {cur}| == |closed| + 1
  {
    var closed', rank' := closed + {cur}, rank[cur := |closed|];
    forall m | m in closed' && m != g.Id(s)
      ensures rank'[par[m]] < rank'[m]
    {
      assert Linked(g, t, m, gc, hc, par);
    }
  }

  /** Relaxing the edge from closed node cur to a walkable neighbour nb
      that is not closed keeps the tree. */
  lemma RelaxStep(g: Grid, s: Cell, t: Cell, added: set<int>, closed: set<int>, rank: map<int, int>,
                  gc: seq<int>, hc: seq<int>, par: seq<int>, cur: int, nb: int, newG: int, newH: int)
    requires g.Valid() && g.InBounds(s)
    requires |gc| == g.MaxSize() && |hc| == g.MaxSize() && |par| == g.MaxSize()
    requires Tree(g, s, t, added, closed, rank, gc, hc, par)
    requires cur in closed && 0 <= nb < g.MaxSize() && nb !in closed
    requires g.Walkable(g.CellOf(nb)) && Adjacent(g.CellOf(nb), g.CellOf(cur))
    requires newG == gc[cur] + GetDiagonalsDistance(g.CellOf(cur), g.CellOf(nb)) && newH == GetDiagonalsDistance(g.CellOf(nb), t)
    ensures Tree(g, s, t, added + {nb}, closed, rank, gc[nb := newG], hc[nb := newH], par[nb := cur])
  {
    var gc', hc', par' := gc[nb := newG], hc[nb := newH], par[nb := cur];
    forall m | m in added + {nb} && m != g.Id(s)
      ensures Linked(g, t, m, gc', hc', par') && par'[m] in closed
    {
      if m != nb {
        assert Linked(g, t, m, gc, hc, par);
      }
    }
    forall m | m in closed && m != g.Id(s)
      ensures rank[par'[m]] < rank[m]
    {
      assert par'[m] == par[m];
    }
  }

  /** An id below the node count that a set of such ids lacks leaves the
      set smaller than the node count. */
  lemma {:induction false} SubsetCard(nodes: set<int>, bound: int)
    requires bound >= 0 && forall m :: m in nodes ==> 0 <= m < bound
    ensures |nodes| <= bound
    decreases bound
  {
    if bound == 0 {
      forall m | m in nodes
        ensures false
      {
      }
      assert nodes == {};
    } else {
      SubsetCard(nodes - {bound - 1}, bound - 1);
    }
  }

  lemma MissingCard(nodes: set<int>, bound: int, m: int)
    requires forall k :: k in nodes ==> 0 <= k < bound
    requires 0 <= m < bound && m !in nodes
    ensures |nodes| < bound
  {
    SubsetCard(nodes + {m}, bound);
  }

  /** The open and closed sets split the added nodes between them. */
  ghost predicate Partition(open: seq<int>, added: set<int>, closed: set<int>)
  {
    && (forall m :: m in added <==> m in open || m in closed)
    && (forall m :: m in closed ==> m !in open)
  }

  /** The first i neighbours have been handled: each is in the grid, and
      each walkable one has been added. */
  ghost predicate Processed(g: Grid, neighbours: seq<Cell>, i: int, added: set<int>)
    requires g.Valid() && 0 <= i <= |neighbours|
  {
    forall j :: 0 <= j < i ==> g.InBounds(neighbours[j]) && (g.Walkable(neighbours[j]) ==> g.Id(neighbours[j]) in added)
  }

  lemma ProcessedStep(g: Grid, neighbours: seq<Cell>, i: int, added: set<int>, added': set<int>)
    requires g.Valid() && 0 <= i < |neighbours| && Processed(g, neighbours, i, added) && added <= added'
    requires g.InBounds(neighbours[i]) && (g.Walkable(neighbours[i]) ==> g.Id(neighbours[i]) in added')
    ensures Processed(g, neighbours, i + 1, added')
  {
  }

  /** Handling every neighbour GetNeighbours returned expands the cell. */
  lemma ProcessedExpanded(g: Grid, c: Cell, neighbours: seq<Cell>, added: set<int>)
    requires g.Valid() && neighbours == g.Neighbours(c) && Processed(g, neighbours, |neighbours|, added)
    ensures Expanded(g, c, added)
  {
    forall e | Adjacent(e, c) && g.InBounds(e) && g.Walkable(e)
      ensures g.Id(e) in added
    {
      NeighboursMembers(g, c, e);
      var j :| 0 <= j < |neighbours| && neighbours[j] == e;
    }
  }

  /** Adding nodes keeps every expanded node expanded. */
  lemma ExpandedGrows(g: Grid, nodes: set<int>, added: set<int>, added': set<int>)
    requires g.Valid() && AllExpanded(g, nodes, added) && added <= added'
    ensures AllExpanded(g, nodes, added')
  {
    forall m | m in nodes
      ensures Expanded(g, g.CellOf(m), added')
    {
      assert Expanded(g, g.CellOf(m), added);
    }
  }

  /** Expanding one more node extends the expanded set by it. */
  lemma ExpandedInsert(g: Grid, nodes: set<int>, x: int, added: set<int>)
    requires g.Valid() && 0 <= x < g.MaxSize() && x in nodes
    requires AllExpanded(g, nodes - {x}, added) && Expanded(g, g.CellOf(x), added)
    ensures AllExpanded(g, nodes, added)
  {
    forall m | m in nodes
      ensures 0 <= m < g.MaxSize() && Expanded(g, g.CellOf(m), added)
    {
      if m != x {
        assert m in nodes - {x};
      }
    }
  }

  /** Removing x from the open set and closing it keeps the split. */
  lemma PartitionRemove(open: seq<int>, open': seq<int>, added: set<int>, closed: set<int>, x: int)
    requires Partition(open, added, closed) && x in open && x !in open'
    requires multiset(open') == multiset(open) - multiset{x}
    ensures Partition(open', added, closed + {x})
  {
    forall m
      ensures m in open' <==> m in open && m != x
    {
      assert m in open' <==> m in multiset(open');
      assert m in open <==> m in multiset(open);
    }
  }

  /** The state FindPath keeps from step to step: the node fields have
      one entry per cell, the open set is a valid heap over them, the
      search tree holds, and the open and closed sets split the added
      nodes. */
  ghost predicate Searching(g: Grid, s: Cell, t: Cell, openSet: Heap, closed: set<int>, rank: map<int, int>,
                            gCost: array<int>, hCost: array<int>, parent: array<int>)
    reads openSet, openSet.items, openSet.heapIndex, gCost, hCost, parent
  {
    && g.Valid() && g.InBounds(s) && g.InBounds(t)
    && gCost.Length == g.MaxSize() && hCost.Length == g.MaxSize() && parent.Length == g.MaxSize()
    && openSet.items.Length == g.MaxSize() && openSet.heapIndex.Length == g.MaxSize()
    && openSet.gCost == gCost && openSet.hCost == hCost
    && parent != openSet.items && parent != openSet.heapIndex && parent != gCost && parent != hCost
    && gCost != hCost && openSet.heapIndex != gCost && openSet.heapIndex != hCost
    && openSet.Valid()
    && Tree(g, s, t, openSet.Added, closed, rank, gCost[..], hCost[..], parent[..])
    && Partition(openSet.Contents(), openSet.Added, closed)
    && openSet.currentItemCount + |closed| == |openSet.Added|
  }

  /** Adding x to the open set moves it into the added nodes. */
  lemma PartitionAdd(open: seq<int>, open': seq<int>, added: set<int>, closed: set<int>, x: int)
    requires Partition(open, added, closed) && x !in closed
    requires multiset(open') == multiset(open) + multiset{x}
    ensures Partition(open', added + {x}, closed)
  {
    forall m
      ensures m in open' <==> m in open || m == x
    {
      assert m in open' <==> m in multiset(open');
      assert m in open <==> m in multiset(open);
    }
  }
}
