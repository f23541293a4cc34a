/**
 * Langton's ant on an N by N torus of two-coloured cells: at every step the
 * ant flips the colour of its cell, turns a quarter to one side or the other
 * depending on the cell's new colour, and moves one cell forward, wrapping
 * around the edges.
 *
 * Directions are 0 up (row - 1), 1 right (column + 1), 2 down (row + 1) and
 * 3 left (column - 1); a cell is true or false, and the ant turns to
 * dir + 1 when its cell has just become true and to dir + 3 (mod 4) when it
 * has just become false.
 */
module LangtonAnt {
  import opened Grid

  /** The whole state of the simulation: the grid, the ant's row x and column y, and its heading. */
  datatype Ant = Ant(cells: seq<seq<bool>>, x: int, y: int, dir: int)

  /** An n by n grid with the ant on one of its cells, heading in one of the four directions. */
  predicate WellFormed(a: Ant, n: nat)
  {
    IsSquare(a.cells, n) && 0 <= a.x < n && 0 <= a.y < n && 0 <= a.dir < 4
  }

  /** The starting state: an all-false grid, the ant in the middle, heading up. */
  function Initial(n: nat): (a: Ant)
    ensures n > 0 ==> WellFormed(a, n)
    ensures IsSquare(a.cells, n) && forall i, j :: 0 <= i < n && 0 <= j < n ==> !a.cells[i][j]
  {
    Ant(Blank(n), n / 2, n / 2, 0)
  }

  /** g with the colour of cell (x, y) negated. */
  function Flip(g: seq<seq<bool>>, x: int, y: int): (h: seq<seq<bool>>)
    requires 0 <= x < |g| && 0 <= y < |g[x]|
    ensures |h| == |g| && forall i :: 0 <= i < |g| ==> |h[i]| == |g[i]|
    ensures h[x][y] == !g[x][y]
    ensures forall i, j :: 0 <= i < |g| && 0 <= j < |g[i]| && (i != x || j != y) ==> h[i][j] == g[i][j]
  {
    g[x := g[x][y := !g[x][y]]]
  }

  /** The new heading: a quarter turn one way when the cell is now true, the other way when it is now false. */
  function Turn(dir: int, nowTrue: bool): (d: int)
    ensures 0 <= d < 4
    ensures 0 <= dir < 4 ==> (if nowTrue then (d + 3) % 4 else (d + 1) % 4) == dir
  {
    if nowTrue then (dir + 1) % 4 else (dir + 3) % 4
  }

  /** One cell forward from (x, y) in direction dir, wrapping on an n by n torus. */
  function Forward(x: int, y: int, dir: int, n: nat): (p: (int, int))
    requires n > 0 && 0 <= x < n && 0 <= y < n
    ensures 0 <= p.0 < n && 0 <= p.1 < n
    ensures dir != 0 && dir != 2 ==> p.0 == x
    ensures dir != 1 && dir != 3 ==> p.1 == y
  {
    match dir
    case 0 => ((x - 1 + n) % n, y)
    case 1 => (x, (y + 1) % n)
    case 2 => ((x + 1) % n, y)
    case 3 => (x, (y - 1 + n) % n)
    case _ => (x, y)
  }

  /** One move of the ant: flip, turn by the new colour, step forward. */
  function AntStep(a: Ant, n: nat): (b: Ant)
    requires WellFormed(a, n)
    ensures WellFormed(b, n)
  {
    var cells := Flip(a.cells, a.x, a.y);
    var dir := Turn(a.dir, cells[a.x][a.y]);
    var pos := Forward(a.x, a.y, dir, n);
    Ant(cells, pos.0, pos.1, dir)
  }

  /** One cell backward from (x, y) against direction dir: the inverse of Forward. */
  function Backward(x: int, y: int, dir: int, n: nat): (p: (int, int))
    requires n > 0 && 0 <= x < n && 0 <= y < n
    ensures 0 <= p.0 < n && 0 <= p.1 < n
    ensures dir != 0 && dir != 2 ==> p.0 == x
    ensures dir != 1 && dir != 3 ==> p.1 == y
  {
    match dir
    case 0 => ((x + 1) % n, y)
    case 1 => (x, (y - 1 + n) % n)
    case 2 => ((x - 1 + n) % n, y)
    case 3 => (x, (y + 1) % n)
    case _ => (x, y)
  }

  /** The move undone: step back, undo the turn by the colour found there, flip that cell back. */
  function AntUnstep(b: Ant, n: nat): (a: Ant)
    requires WellFormed(b, n)
    ensures WellFormed(a, n)
  {
    var pos := Backward(b.x, b.y, b.dir, n);
    var dir := if b.cells[pos.0][pos.1] then (b.dir + 3) % 4 else (b.dir + 1) % 4;
    Ant(Flip(b.cells, pos.0, pos.1), pos.0, pos.1, dir)
  }

  lemma ModBelow(a: int, n: nat)
    requires 0 <= a < n
    ensures a % n == a
  {
  }

  lemma ModAbove(a: int, n: nat)
    requires n <= a < 2 * n
    ensures a % n == a - n
  {
    ModBelow(a - n, n);
    assert a == (a - n) + n;
  }

  /** One step up then one step down on a ring of n cells, or the other way, comes back to x. */
  lemma RingStepBack(x: int, n: nat)
    requires 0 <= x < n
    ensures ((x - 1 + n) % n + 1) % n == x
    ensures ((x + 1) % n - 1 + n) % n == x
  {
    if x == 0 {
      ModBelow(n - 1, n);
      ModAbove(n, n);
      ModBelow(1 % n, n);
    } else {
      ModAbove(x - 1 + n, n);
      ModBelow(x, n);
    }
    if x == n - 1 {
      ModAbove(n, n);
      ModBelow(n - 1, n);
    } else {
      ModBelow(x + 1, n);
      ModAbove(x + n, n);
    }
  }

  lemma BackwardForward(x: int, y: int, dir: int, n: nat)
    requires n > 0 && 0 <= x < n && 0 <= y < n && 0 <= dir < 4
    ensures var p := Forward(x, y, dir, n); 0 <= p.0 < n && 0 <= p.1 < n && Backward(p.0, p.1, dir, n) == (x, y)
  {
    RingStepBack(x, n);
    RingStepBack(y, n);
  }

  lemma ForwardBackward(x: int, y: int, dir: int, n: nat)
    requires n > 0 && 0 <= x < n && 0 <= y < n && 0 <= dir < 4
    ensures var p := Backward(x, y, dir, n); 0 <= p.0 < n && 0 <= p.1 < n && Forward(p.0, p.1, dir, n) == (x, y)
  {
    RingStepBack(x, n);
    RingStepBack(y, n);
  }

  lemma FlipTwice(g: seq<seq<bool>>, x: int, y: int)
    requires 0 <= x < |g| && 0 <= y < |g[x]|
    ensures Flip(Flip(g, x, y), x, y) == g
  {
    assert Flip(Flip(g, x, y), x, y)[x] == g[x];
  }

  /** Langton's ant is reversible: undoing a move gives back the state before it. */
  lemma UnstepAfterStep(a: Ant, n: nat)
    requires WellFormed(a, n)
    ensures AntUnstep(AntStep(a, n), n) == a
  {
    var b := AntStep(a, n);
    BackwardForward(a.x, a.y, b.dir, n);
    FlipTwice(a.cells, a.x, a.y);
  }

  /** Every well-formed state has exactly one predecessor: stepping after undoing gives it back. */
  lemma StepAfterUnstep(b: Ant, n: nat)
    requires WellFormed(b, n)
    ensures AntStep(AntUnstep(b, n), n) == b
  {
    var a := AntUnstep(b, n);
    ForwardBackward(b.x, b.y, b.dir, n);
    FlipTwice(b.cells, a.x, a.y);
    assert Flip(a.cells, a.x, a.y) == b.cells;
  }

  /**
   * A move flips exactly the cell the ant stood on, turns a quarter by that
   * cell's new colour, and leaves the ant on a neighbouring cell in its new heading.
   */
  lemma StepEffect(a: Ant, n: nat)
    requires WellFormed(a, n)
    ensures var b := AntStep(a, n);
      && b.cells[a.x][a.y] == !a.cells[a.x][a.y]
      && (forall i, j :: 0 <= i < n && 0 <= j < n && (i != a.x || j != a.y) ==> b.cells[i][j] == a.cells[i][j])
      && (b.dir == (a.dir + 1) % 4 <==> b.cells[a.x][a.y])
      && (b.dir == (a.dir + 3) % 4 <==> !b.cells[a.x][a.y])
      && Backward(b.x, b.y, b.dir, n) == (a.x, a.y)
  {
    BackwardForward(a.x, a.y, AntStep(a, n).dir, n);
  }

  /** From the initial state, the first move sets the centre cell to true, turns right (heading 1) and steps one column right. */
  lemma FirstMove(n: nat)
    requires n > 0
    ensures var b := AntStep(Initial(n), n);
      && b.cells == Blank(n)[n / 2 := Blank(n)[n / 2][n / 2 := true]]
      && b.x == n / 2 && b.y == (n / 2 + 1) % n && b.dir == 1
  {
  }

  /** On a 1 by 1 torus the ant stays put, and two moves bring back the initial state. */
  lemma SingleCellPeriod()
    ensures AntStep(AntStep(Initial(1), 1), 1) == Initial(1)
  {
    FlipTwice(Blank(1), 0, 0);
  }

  class LangtonsAnt {
    const grid: array2<bool>
    const size: nat
    var antX: int
    var antY: int
    var dir: int

    ghost predicate Valid()
      reads this
    {
      grid.Length0 == size && grid.Length1 == size && 0 <= dir < 4 &&
      (size > 0 ==> 0 <= antX < size && 0 <= antY < size)
    }

    /** The grid, the ant's position and its heading. */
    function State(): (a: Ant)
      reads this, grid
    {
      Ant(Snapshot(grid), antX, antY, dir)
    }

    /** An all-false `size` by `size` grid with the ant in the middle, heading up. */
    constructor (size: nat)
      ensures Valid() && fresh(grid)
      ensures State() == Initial(size)
    {
      this.size := size;
      grid := new bool[size, size]((_, _) => false);
      antX := size / 2;
      antY := size / 2;
      dir := 0;
      new;
      SquareExtensionality(Snapshot(grid), Blank(size), size);
    }

    /** Flips the ant's cell, turns by its new colour and steps forward. */
    method Move()
      requires Valid() && size > 0
      modifies this, grid
      ensures Valid()
      ensures State() == AntStep(old(State()), size)
    {
      ghost var before := State();
      grid[antX, antY] := !grid[antX, antY];
      ghost var flipped := Flip(before.cells, antX, antY);
      SquareExtensionality(Snapshot(grid), flipped, size);
      if grid[antX, antY] {
        dir := (dir + 1) % 4;
      } else {
        dir := (dir + 3) % 4;
      }
      match dir {
        case 0 =>
          antX := (antX - 1 + size) % size;
        case 1 =>
          antY := (antY + 1) % size;
        case 2 =>
          antX := (antX + 1) % size;
        case 3 =>
          antY := (antY - 1 + size) % size;
        case _ =>
      }
    }
  }
}
