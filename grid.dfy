/** The search grid: its size, which cells are walkable, and the 8-way
    neighbourhood of a cell. Node ids number the cells x-major. */
module Grids {
  import opened Nodes
  import opened Heuristics

  /** Offset number j of the 3×3 block, in the order GetNeighbours visits
      it: dx from -1 to 1, and for each dx, dy from -1 to 1. */
  function Offset(j: int): Cell
    requires 0 <= j < 9
  {
    var dx := if j < 3 then -1 else if j < 6 then 0 else 1;
    Cell(dx, j - 3 * (dx + 1) - 1)
  }

  /** The position of cell e in the 3×3 block around c, in visiting order. */
  function Rank(c: Cell, e: Cell): int
  {
    (e.x - c.x + 1) * 3 + (e.y - c.y + 1)
  }

  /** The number of coordinates among v-1, v, v+1 that lie in [0, size). */
  function AxisCount(v: int, size: int): int
  {
    (if 0 <= v - 1 < size then 1 else 0) + (if 0 <= v < size then 1 else 0) + (if 0 <= v + 1 < size then 1 else 0)
  }

  /** Lexicographic order on cells: x first, then y. */
  predicate Before(a: Cell, b: Cell)
  {
    a.x < b.x || (a.x == b.x && a.y < b.y)
  }

  datatype Grid = Grid(gridSizeX: int, gridSizeY: int, walkable: seq<seq<bool>>)
  {
    /** The walkable matrix is gridSizeX rows of gridSizeY cells. */
    ghost predicate Valid()
    {
      && gridSizeX >= 0 && gridSizeY >= 0
      && |walkable| == gridSizeX
      && forall x :: 0 <= x < gridSizeX ==> |walkable[x]| == gridSizeY
    }

    /** The number of cells, which is also the open set's capacity. */
    function MaxSize(): (m: int)
      ensures gridSizeX >= 0 && gridSizeY >= 0 ==> m == |Cells(gridSizeX, gridSizeY)|
    {
      CellCount(gridSizeX, gridSizeY);
      gridSizeX * gridSizeY
    }

    predicate InBounds(c: Cell)
    {
      0 <= c.x < gridSizeX && 0 <= c.y < gridSizeY
    }

    predicate Walkable(c: Cell)
      requires Valid() && InBounds(c)
    {
      walkable[c.x][c.y]
    }

    /** The node id of an in-bounds cell. */
    function Id(c: Cell): (id: int)
      requires InBounds(c)
      ensures 0 <= id < MaxSize()
    {
      CellIdBound(c.x, c.y, gridSizeX, gridSizeY);
      c.x * gridSizeY + c.y
    }

    /** The cell of a node id. */
    function CellOf(id: int): (c: Cell)
      requires Valid() && 0 <= id < MaxSize()
      ensures InBounds(c) && Id(c) == id
    {
      IdCellBound(id, gridSizeX, gridSizeY);
      Cell(id / gridSizeY, id % gridSizeY)
    }

    /** The cells GetNeighbours returns: the in-bounds cells of the block
        around node, without node itself, in visiting order. */
    function Neighbours(node: Cell): (r: seq<Cell>)
      ensures forall i :: 0 <= i < |r| ==> InBounds(r[i])
    {
      Scan(node, 9)
    }

    /** The cells found among the first k offsets of the block. */
    function Scan(node: Cell, k: int): (r: seq<Cell>)
      requires 0 <= k <= 9
      ensures forall i :: 0 <= i < |r| ==> InBounds(r[i])
      decreases k
    {
      if k == 0 then []
      else
        var d := Offset(k - 1);
        var check := Cell(node.x + d.x, node.y + d.y);
        Scan(node, k - 1) + (if !(d.x == 0 && d.y == 0) && InBounds(check) then [check] else [])
    }

    /** GetNeighbours: two nested loops over the offsets -1..1, skipping the
        centre and the cells outside the grid. */
    method GetNeighbours(node: Cell) returns (neighbours: seq<Cell>)
      ensures neighbours == Neighbours(node)
    {
      neighbours := [];
      for x := -1 to 2
        invariant neighbours == Scan(node, (x + 1) * 3)
      {
        for y := -1 to 2
          invariant neighbours == Scan(node, (x + 1) * 3 + (y + 1))
        {
          ScanStep(this, node, x, y);
          if x == 0 && y == 0 {
            continue;
          }
          var checkX := node.x + x;
          var checkY := node.y + y;
          if checkX >= 0 && checkX < gridSizeX && checkY >= 0 && checkY < gridSizeY {
            neighbours := neighbours + [Cell(checkX, checkY)];
          }
        }
      }
    }
  }

  /** The cells of a w × h grid. */
  ghost function Cells(w: int, h: int): set<Cell>
  {
    set x, y | 0 <= x < w && 0 <= y < h :: Cell(x, y)
  }

  /** The cells of column x of a grid of height h. */
  ghost function Column(x: int, h: int): set<Cell>
  {
    set y | 0 <= y < h :: Cell(x, y)
  }

  /** A w × h grid has w · h cells: one column of h cells per x. */
  lemma {:induction false} CellCount(w: int, h: int)
    ensures w >= 0 && h >= 0 ==> |Cells(w, h)| == w * h
    decreases w
  {
    if w > 0 && h >= 0 {
      var rest, column := Cells(w - 1, h), Column(w - 1, h);
      CellCount(w - 1, h);
      ColumnCount(w - 1, h);
      assert Cells(w, h) == rest + column;
      assert rest !! column;
      assert |rest + column| == |rest| + |column|;
      assert (w - 1) * h + h == w * h;
    } else if w == 0 {
      assert Cells(w, h) == {};
    }
  }

  lemma {:induction false} ColumnCount(x: int, h: int)
    requires h >= 0
    ensures |Column(x, h)| == h
  {
    if h > 0 {
      ColumnCount(x, h - 1);
      assert Column(x, h) == Column(x, h - 1) + {Cell(x, h - 1)};
    } else {
      assert Column(x, h) == {};
    }
  }

  lemma CellIdBound(x: int, y: int, w: int, h: int)
    requires 0 <= x < w && 0 <= y < h
    ensures 0 <= x * h + y < w * h
  {
    assert x * h <= (w - 1) * h;
  }

  lemma IdCellBound(id: int, w: int, h: int)
    requires w >= 0 && 0 <= id < w * h
    ensures h > 0 && 0 <= id / h < w && 0 <= id % h < h
    ensures (id / h) * h + id % h == id
  {
    if h > 0 && id / h >= w {
      MulMonotone(w, id / h, h);
    }
  }

  /** Id and CellOf are inverse bijections between in-bounds cells and
      [0, MaxSize()). */
  lemma IdRoundTrip(g: Grid, c: Cell)
    requires g.Valid() && g.InBounds(c)
    ensures g.CellOf(g.Id(c)) == c
  {
    var id := g.Id(c);
    var d := g.CellOf(id);
    DivModUnique(c.x, c.y, d.x, d.y, g.gridSizeY);
  }

  lemma DivModUnique(x: int, y: int, q: int, r: int, h: int)
    requires 0 <= y < h && 0 <= r < h && x * h + y == q * h + r
    ensures x == q && y == r
  {
    if x < q {
      MulMonotone(x + 1, q, h);
    } else if x > q {
      MulMonotone(q + 1, x, h);
    }
  }

  lemma MulMonotone(a: int, b: int, h: int)
    requires a <= b && h >= 0
    ensures a * h <= b * h
  {
  }

  /** The offset at each rank is the cell of that rank, and back. */
  lemma OffsetRank(c: Cell, j: int)
    requires 0 <= j < 9
    ensures Rank(c, Cell(c.x + Offset(j).x, c.y + Offset(j).y)) == j
  {
  }

  /** Membership in a prefix of the scan: an adjacent in-bounds cell whose
      rank has been visited. */
  lemma {:induction false} ScanMembers(g: Grid, c: Cell, k: int, e: Cell)
    requires 0 <= k <= 9
    ensures e in g.Scan(c, k) <==> Adjacent(e, c) && g.InBounds(e) && Rank(c, e) < k
    decreases k
  {
    if k > 0 {
      ScanMembers(g, c, k - 1, e);
      OffsetRank(c, k - 1);
    }
  }

  /** A cell is returned by GetNeighbours exactly when it is in the grid, is
      not the node and differs from it by at most 1 in each coordinate. */
  lemma NeighboursMembers(g: Grid, c: Cell, e: Cell)
    ensures e in g.Neighbours(c) <==> Adjacent(e, c) && g.InBounds(e)
  {
    ScanMembers(g, c, 9, e);
  }

  /** The neighbour relation between in-bounds cells is symmetric. */
  lemma NeighboursSymmetric(g: Grid, c: Cell, e: Cell)
    requires g.InBounds(c) && g.InBounds(e)
    ensures e in g.Neighbours(c) <==> c in g.Neighbours(e)
  {
    NeighboursMembers(g, c, e);
    NeighboursMembers(g, e, c);
  }

  /** Every scanned cell is adjacent, and ranks strictly increase. */
  lemma {:induction false} ScanOrdered(g: Grid, c: Cell, k: int)
    requires 0 <= k <= 9
    ensures forall i :: 0 <= i < |g.Scan(c, k)| ==> Adjacent(g.Scan(c, k)[i], c) && Rank(c, g.Scan(c, k)[i]) < k
    ensures forall i, j :: 0 <= i < j < |g.Scan(c, k)| ==> Rank(c, g.Scan(c, k)[i]) < Rank(c, g.Scan(c, k)[j])
    decreases k
  {
    if k > 0 {
      ScanOrdered(g, c, k - 1);
      OffsetRank(c, k - 1);
    }
  }

  /** Neighbours come with dx ascending, then dy ascending, so none repeats. */
  lemma NeighboursSorted(g: Grid, c: Cell)
    ensures forall i, j :: 0 <= i < j < |g.Neighbours(c)| ==> Before(g.Neighbours(c)[i], g.Neighbours(c)[j])
    ensures forall i, j :: 0 <= i < j < |g.Neighbours(c)| ==> g.Neighbours(c)[i] != g.Neighbours(c)[j]
  {
    ScanOrdered(g, c, 9);
  }

  /** For an in-bounds node the count is the product of the in-range
      coordinates on each axis, less the node itself; never more than 8. */
  lemma NeighboursCount(g: Grid, c: Cell)
    requires g.InBounds(c)
    ensures |g.Neighbours(c)| == AxisCount(c.x, g.gridSizeX) * AxisCount(c.y, g.gridSizeY) - 1
    ensures |g.Neighbours(c)| <= 8
  {
    var ay := AxisCount(c.y, g.gridSizeY);
    var left, right := 0 <= c.x - 1 < g.gridSizeX, 0 <= c.x + 1 < g.gridSizeX;
    ScanColumn(g, c, 0);
    ScanColumn(g, c, 1);
    ScanColumn(g, c, 2);
    var total := (if left then ay else 0) + (ay - 1) + (if right then ay else 0);
    assert |g.Scan(c, 9)| == total;
    AxisProduct(left, right, ay);
  }

  /** Scanning column i of the block (dx = i - 1) adds the in-range cells of
      that column, less the centre. */
  lemma ScanColumn(g: Grid, c: Cell, i: int)
    requires 0 <= i < 3 && g.InBounds(c)
    ensures var inX := 0 <= c.x + i - 1 < g.gridSizeX;
            var ay := AxisCount(c.y, g.gridSizeY);
            |g.Scan(c, 3 * i + 3)| == |g.Scan(c, 3 * i)| + (if i == 1 then ay - 1 else if inX then ay else 0)
  {
    ScanStep(g, c, i - 1, -1);
    ScanStep(g, c, i - 1, 0);
    ScanStep(g, c, i - 1, 1);
  }

  /** One step of the scan, at offset (dx, dy): the cell there is appended
      when it is not the centre and lies in the grid. */
  lemma ScanStep(g: Grid, c: Cell, dx: int, dy: int)
    requires -1 <= dx <= 1 && -1 <= dy <= 1
    ensures var e := Cell(c.x + dx, c.y + dy);
            g.Scan(c, (dx + 1) * 3 + dy + 2) ==
              g.Scan(c, (dx + 1) * 3 + dy + 1) + (if !(dx == 0 && dy == 0) && g.InBounds(e) then [e] else [])
  {
    assert Offset((dx + 1) * 3 + dy + 1) == Cell(dx, dy);
  }

  lemma AxisProduct(left: bool, right: bool, ay: int)
    requires 1 <= ay <= 3
    ensures (if left then ay else 0) + (ay - 1) + (if right then ay else 0) ==
            ((if left then 1 else 0) + 1 + (if right then 1 else 0)) * ay - 1
    ensures ((if left then 1 else 0) + 1 + (if right then 1 else 0)) * ay - 1 <= 8
  {
  }

  /** On a grid of at least 2×2: 3 neighbours at a corner, 5 on an edge,
      8 inside. */
  lemma NeighbourCounts(g: Grid, c: Cell)
    requires g.InBounds(c) && g.gridSizeX >= 2 && g.gridSizeY >= 2
    ensures var onEdgeX, onEdgeY := c.x == 0 || c.x == g.gridSizeX - 1, c.y == 0 || c.y == g.gridSizeY - 1;
            && (onEdgeX && onEdgeY ==> |g.Neighbours(c)| == 3)
            && (onEdgeX != onEdgeY ==> |g.Neighbours(c)| == 5)
            && (!onEdgeX && !onEdgeY ==> |g.Neighbours(c)| == 8)
  {
    NeighboursCount(g, c);
  }
}
