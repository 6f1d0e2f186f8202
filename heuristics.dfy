/** The three grid distances used as A* heuristics, on grid coordinates. */
module Heuristics {
  import opened Nodes

  function Abs(v: int): (r: int)
    ensures r >= 0 && (r == v || r == -v)
  {
    if v < 0 then -v else v
  }

  function Min(a: int, b: int): int { if a < b then a else b }
  function Max(a: int, b: int): int { if a < b then b else a }

  /** |dx| + |dy|: never negative, and 0 exactly when the cells coincide. */
  function GetManhattanDistance(nodeA: Cell, nodeB: Cell): (d: int)
    ensures d >= 0
    ensures d == 0 <==> nodeA == nodeB
  {
    var distX := Abs(nodeA.x - nodeB.x);
    var distY := Abs(nodeA.y - nodeB.y);
    distX + distY
  }

  /** The squared Euclidean distance dx² + dy²: no square root is taken.
      It is never negative, and 0 exactly when the cells coincide. */
  function GetEuclideanDistance(nodeA: Cell, nodeB: Cell): (d: int)
    ensures d >= 0
    ensures d == 0 <==> nodeA == nodeB
  {
    var distX := Abs(nodeA.x - nodeB.x);
    var distY := Abs(nodeA.y - nodeB.y);
    (distX * distX) + (distY * distY)
  }

  /** Octile distance: diagonal moves cost 14, straight moves 10, so it lies
      between 10 and 14 times the number of king moves, and is 0 exactly
      when the cells coincide. */
  function GetDiagonalsDistance(nodeA: Cell, nodeB: Cell): (d: int)
    ensures 10 * Steps(nodeA, nodeB) <= d <= 14 * Steps(nodeA, nodeB)
    ensures d == 0 <==> nodeA == nodeB
  {
    var distX := Abs(nodeA.x - nodeB.x);
    var distY := Abs(nodeA.y - nodeB.y);
    if distX > distY then 14 * distY + 10 * (distX - distY)
    else 14 * distX + 10 * (distY - distX)
  }

  /** Chebyshev distance: the number of king moves between two cells. */
  function Steps(a: Cell, b: Cell): int
  {
    Max(Abs(a.x - b.x), Abs(a.y - b.y))
  }

  /** Two distinct cells of the 3×3 block around each other. */
  predicate Adjacent(a: Cell, b: Cell)
  {
    a != b && -1 <= a.x - b.x <= 1 && -1 <= a.y - b.y <= 1
  }

  /** Each distance only depends on the coordinate differences' magnitudes. */
  lemma DistancesSymmetric(a: Cell, b: Cell)
    ensures GetManhattanDistance(a, b) == GetManhattanDistance(b, a)
    ensures GetEuclideanDistance(a, b) == GetEuclideanDistance(b, a)
    ensures GetDiagonalsDistance(a, b) == GetDiagonalsDistance(b, a)
  {
    assert Abs(a.x - b.x) == Abs(b.x - a.x) && Abs(a.y - b.y) == Abs(b.y - a.y);
  }

  /** Both branches compute 14·min + 10·(max − min); with max = min they agree. */
  lemma DiagonalsClosedForm(a: Cell, b: Cell)
    ensures var dx, dy := Abs(a.x - b.x), Abs(a.y - b.y);
            GetDiagonalsDistance(a, b) == 14 * Min(dx, dy) + 10 * (Max(dx, dy) - Min(dx, dy))
  {
  }

  /** A single step to an adjacent cell costs 10 straight and 14 diagonally. */
  lemma DiagonalsStep(a: Cell, b: Cell)
    requires Adjacent(a, b)
    ensures a.x == b.x || a.y == b.y ==> GetDiagonalsDistance(a, b) == 10
    ensures a.x != b.x && a.y != b.y ==> GetDiagonalsDistance(a, b) == 14
  {
  }

  /** The octile distance obeys the triangle inequality: it is 6 times the
      Chebyshev distance plus 4 times the Manhattan distance. */
  lemma DiagonalsTriangle(a: Cell, b: Cell, c: Cell)
    ensures GetDiagonalsDistance(a, c) <= GetDiagonalsDistance(a, b) + GetDiagonalsDistance(b, c)
  {
    DiagonalsAsSum(a, b);
    DiagonalsAsSum(b, c);
    DiagonalsAsSum(a, c);
    StepsTriangle(a, b, c);
    ManhattanTriangle(a, b, c);
  }

  lemma StepsTriangle(a: Cell, b: Cell, c: Cell)
    ensures Steps(a, c) <= Steps(a, b) + Steps(b, c)
  {
  }

  lemma ManhattanTriangle(a: Cell, b: Cell, c: Cell)
    ensures GetManhattanDistance(a, c) <= GetManhattanDistance(a, b) + GetManhattanDistance(b, c)
  {
  }

  lemma DiagonalsAsSum(a: Cell, b: Cell)
    ensures GetDiagonalsDistance(a, b) == 6 * Steps(a, b) + 4 * GetManhattanDistance(a, b)
  {
  }
}
