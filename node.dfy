/** A grid cell's pathing state: its coordinates, the costs the search
    assigns to it, and the priority order the open set uses. */
module Nodes {

  /** Grid coordinates of a node (gridX, gridY). */
  datatype Cell = Cell(x: int, y: int)

  /** The two search costs of a node. The f-cost is derived on demand and
      never stored. */
  datatype Costs = Costs(gCost: int, hCost: int)
  {
    function FCost(): int { gCost + hCost }
  }

  /** `a` has strictly higher priority than `b`: lower f-cost, or equal
      f-cost and lower h-cost. */
  predicate Outranks(a: Costs, b: Costs)
  {
    a.FCost() < b.FCost() || (a.FCost() == b.FCost() && a.hCost < b.hCost)
  }

  /** Int32.CompareTo: the sign of a - b as -1, 0 or 1. */
  function CompareInt(a: int, b: int): (r: int)
    ensures r == -1 <==> a < b
    ensures r == 0 <==> a == b
    ensures r == 1 <==> a > b
  {
    if a < b then -1 else if a == b then 0 else 1
  }

  /** Node.CompareTo: compare f-costs, break ties on h-costs, and negate,
      so that a positive result means `a` comes first in the open set. */
  function CompareCosts(a: Costs, b: Costs): (r: int)
    ensures -1 <= r <= 1
    ensures r > 0 <==> Outranks(a, b)
    ensures r < 0 <==> Outranks(b, a)
    ensures r == 0 <==> a.FCost() == b.FCost() && a.hCost == b.hCost
  {
    var compare := CompareInt(a.FCost(), b.FCost());
    var compare' := if compare == 0 then CompareInt(a.hCost, b.hCost) else compare;
    -compare'
  }

  lemma CompareCostsReflexive(a: Costs)
    ensures CompareCosts(a, a) == 0
  {
  }

  lemma CompareCostsAntisymmetric(a: Costs, b: Costs)
    ensures CompareCosts(a, b) == -CompareCosts(b, a)
  {
  }

  /** "Not outranked by" is transitive, and so is strict outranking. */
  lemma CompareCostsTransitive(a: Costs, b: Costs, c: Costs)
    ensures CompareCosts(a, b) >= 0 && CompareCosts(b, c) >= 0 ==> CompareCosts(a, c) >= 0
    ensures CompareCosts(a, b) > 0 && CompareCosts(b, c) > 0 ==> CompareCosts(a, c) > 0
  {
  }

  /** A grid node. Coordinates, walkability and penalty are fixed at
      construction; the search fields start at their default values. The
      search itself (modules Heaps and Pathfinding) keeps gCost, hCost,
      parent and heapIndex of every node as arrays indexed by node id, one
      array per field, which persist from one search to the next just as
      these fields do; this class states what one node's fields do. */
  class Node {
    const walkable: bool
    const gridX: int
    const gridY: int
    const movementPenalty: int

    var gCost: int
    var hCost: int
    var parent: Node?
    var heapIndex: int

    constructor (walkable: bool, gridX: int, gridY: int, penalty: int)
      ensures this.walkable == walkable && this.gridX == gridX && this.gridY == gridY
      ensures movementPenalty == penalty
      ensures gCost == 0 && hCost == 0 && parent == null && heapIndex == 0
    {
      this.walkable := walkable;
      this.gridX := gridX;
      this.gridY := gridY;
      movementPenalty := penalty;
      gCost, hCost, parent, heapIndex := 0, 0, null, 0;
    }

    function Key(): Costs
      reads this
    {
      Costs(gCost, hCost)
    }

    /** fCost: always gCost + hCost, read from the current fields. */
    function FCost(): (f: int)
      reads this
      ensures f == gCost + hCost
    {
      Key().FCost()
    }

    function CompareTo(other: Node): (r: int)
      reads this, other
      ensures r > 0 <==> FCost() < other.FCost() || (FCost() == other.FCost() && hCost < other.hCost)
      ensures r == 0 <==> FCost() == other.FCost() && hCost == other.hCost
      ensures other == this ==> r == 0
    {
      CompareCosts(Key(), other.Key())
    }

    function HeapIndex(): int
      reads this
    {
      heapIndex
    }

    method SetHeapIndex(value: int)
      modifies this
      ensures HeapIndex() == value
      ensures gCost == old(gCost) && hCost == old(hCost) && parent == old(parent)
    {
      heapIndex := value;
    }
  }
}
