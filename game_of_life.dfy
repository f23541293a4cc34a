/**
 * Conway's Game of Life on an N by N torus: every cell looks at its eight
 * Moore neighbours, rows and columns wrapping around, and all cells update at
 * once from the previous grid.
 */
module Life {
  import opened Grid

  /** An index at most one step outside 0 .. n - 1, brought back onto the torus. */
  function Wrap(x: int, n: nat): (w: nat)
    requires n > 0 && -1 <= x <= n
    ensures w < n
  {
    if x == -1 then n - 1 else if x == n then 0 else x
  }

  /** `(x + n) % n` wraps -1 to the last index, n to the first, and leaves 0 .. n - 1 alone. */
  lemma TorusWrap(x: int, n: nat)
    requires n > 0 && -1 <= x <= n
    ensures (x + n) % n == Wrap(x, n)
  {
    if x == -1 {
      assert (x + n) % n == n - 1;
    } else if x < n {
      assert (x + n) % n == x;
    } else {
      assert (x + n) % n == 0;
    }
  }

  /** (r, c) is a cell of the n by n grid g. */
  predicate OnGrid(g: seq<seq<bool>>, n: nat, r: int, c: int)
  {
    IsSquare(g, n) && 0 <= r < n && 0 <= c < n
  }

  /** 1 for a live cell, 0 for a dead one. */
  function Alive(b: bool): (a: nat)
    ensures a <= 1
  {
    if b then 1 else 0
  }

  /** 1 when the cell at (x, y) is alive, both coordinates brought back onto the torus by `(x + n) % n`. */
  function AliveAt(g: seq<seq<bool>>, n: nat, x: int, y: int): (a: nat)
    requires n > 0 && IsSquare(g, n)
    requires -1 <= x <= n && -1 <= y <= n
    ensures a <= 1
  {
    if g[(x + n) % n][(y + n) % n] then 1 else 0
  }

  /**
   * The k-th of the eight Moore offsets, k in 0 .. 7: the (row, column) pairs
   * in {-1, 0, 1} x {-1, 0, 1} other than (0, 0), in row-major order, that is
   * (-1, -1), (-1, 0), (-1, 1), (0, -1), (0, 1), (1, -1), (1, 0), (1, 1).
   */
  function Offset(k: nat): (d: (int, int))
  {
    var p := if k < 4 then k else k + 1;
    (p / 3 - 1, p % 3 - 1)
  }

  /** The table lists the eight offsets of the Moore neighbourhood, each once and never (0, 0). */
  lemma OffsetsAreMooreNeighbourhood()
    ensures forall k :: 0 <= k < 8 ==> -1 <= Offset(k).0 <= 1 && -1 <= Offset(k).1 <= 1 && Offset(k) != (0, 0)
    ensures forall k, k' :: 0 <= k < k' < 8 ==> Offset(k) != Offset(k')
  {
  }

  /** The live cells among the first k Moore neighbours of (r, c). */
  function MooreCount(g: seq<seq<bool>>, n: nat, r: int, c: int, k: nat): (count: nat)
    requires OnGrid(g, n, r, c) && k <= 8
    ensures count <= k
  {
    if k == 0 then 0
    else MooreCount(g, n, r, c, k - 1) + AliveAt(g, n, r + Offset(k - 1).0, c + Offset(k - 1).1)
  }

  /** The number of live cells among the eight toroidal neighbours of (r, c). */
  function LiveNeighbours(g: seq<seq<bool>>, n: nat, r: int, c: int): (count: nat)
    requires OnGrid(g, n, r, c)
    ensures count <= 8
  {
    MooreCount(g, n, r, c, 8)
  }

  /** One more offset counted: MooreCount grows by the k-th neighbour (x, y) of (r, c). */
  lemma MooreStep(g: seq<seq<bool>>, n: nat, r: int, c: int, k: nat, x: int, y: int)
    requires OnGrid(g, n, r, c) && k < 8 && Offset(k) == (x - r, y - c)
    ensures MooreCount(g, n, r, c, k + 1) == MooreCount(g, n, r, c, k) + AliveAt(g, n, x, y)
  {
  }

  /**
   * Conway's rule: a live cell survives with 2 or 3 live neighbours, a dead one is born with exactly 3.
   * Stated the other way round: fewer than 2 or more than 3 neighbours means death, exactly 3 means
   * life, and exactly 2 keeps the cell as it is.
   */
  predicate NextCell(alive: bool, count: nat): (next: bool)
    ensures count < 2 ==> !next
    ensures count > 3 ==> !next
    ensures count == 3 ==> next
    ensures count == 2 ==> next == alive
  {
    if alive then count == 2 || count == 3 else count == 3
  }

  /** The next state of cell (i, j): Conway's rule on the cell and its live neighbours in g. */
  function NextState(g: seq<seq<bool>>, n: nat, i: int, j: int): (next: bool)
    requires OnGrid(g, n, i, j)
    ensures next ==> 2 <= LiveNeighbours(g, n, i, j) <= 3
    ensures LiveNeighbours(g, n, i, j) == 3 ==> next
  {
    NextCell(g[i][j], LiveNeighbours(g, n, i, j))
  }

  /**
   * The first k cells of row i of the next grid. A row is built by recursion
   * rather than as one comprehension so that the verifier unfolds it only as
   * far as a proof asks, which keeps the proof of NextGeneration small.
   */
  function NextRowPrefix(g: seq<seq<bool>>, n: nat, i: int, k: nat): (row: seq<bool>)
    requires IsSquare(g, n) && 0 <= i < n && k <= n
    ensures |row| == k
  {
    if k == 0 then [] else NextRowPrefix(g, n, i, k - 1) + [NextState(g, n, i, k - 1)]
  }

  /** The next grid: every cell of every row computed from the previous grid g. */
  function NextGrid(g: seq<seq<bool>>, n: nat): (h: seq<seq<bool>>)
    requires IsSquare(g, n)
    ensures IsSquare(h, n)
  {
    seq(n, i requires 0 <= i < n => NextRowPrefix(g, n, i, n))
  }

  lemma {:induction false} NextRowPrefixAt(g: seq<seq<bool>>, n: nat, i: int, k: nat, j: nat)
    requires IsSquare(g, n) && 0 <= i < n && j < k <= n
    ensures NextRowPrefix(g, n, i, k)[j] == NextState(g, n, i, j)
  {
    if j < k - 1 {
      NextRowPrefixAt(g, n, i, k - 1, j);
    }
  }

  /** Cell (i, j) of the next grid follows Conway's rule on cell (i, j) of g and its live neighbours. */
  lemma NextGridAt(g: seq<seq<bool>>, n: nat, i: nat, j: nat)
    requires IsSquare(g, n) && i < n && j < n
    ensures NextGrid(g, n)[i][j] == NextCell(g[i][j], LiveNeighbours(g, n, i, j))
  {
    NextRowPrefixAt(g, n, i, n, j);
  }

  /**
   * How many offsets Java's double loop over di, dj in -1 .. 1 has counted
   * when it reaches (di, dj), the centre (0, 0) being skipped.
   */
  function Visited(di: int, dj: int): (v: int)
  {
    3 * (di + 1) + (dj + 1) - (if di > 0 || (di == 0 && dj > 0) then 1 else 0)
  }

  /** The double loop visits the eight offsets in the order of Offset, each once. */
  lemma VisitOrder(di: int, dj: int)
    requires -1 <= di <= 1 && -1 <= dj <= 1
    ensures 0 <= Visited(di, dj) && Visited(di, dj + 1) <= 8
    ensures di == 0 && dj == 0 ==> Visited(di, dj + 1) == Visited(di, dj)
    ensures !(di == 0 && dj == 0) ==>
      Visited(di, dj + 1) == Visited(di, dj) + 1 && Visited(di, dj) < 8 && Offset(Visited(di, dj)) == (di, dj)
  {
  }

  /** One turn of the double loop: the centre adds nothing, any other offset adds its wrapped cell. */
  lemma VisitStep(g: seq<seq<bool>>, n: nat, r: int, c: int, di: int, dj: int)
    requires OnGrid(g, n, r, c) && -1 <= di <= 1 && -1 <= dj <= 1
    ensures 0 <= Visited(di, dj) && Visited(di, dj + 1) <= 8
    ensures di == 0 && dj == 0 ==> MooreCount(g, n, r, c, Visited(di, dj + 1)) == MooreCount(g, n, r, c, Visited(di, dj))
    ensures !(di == 0 && dj == 0) ==>
      MooreCount(g, n, r, c, Visited(di, dj + 1)) ==
      MooreCount(g, n, r, c, Visited(di, dj)) + (if g[(r + di + n) % n][(c + dj + n) % n] then 1 else 0)
  {
    VisitOrder(di, dj);
    if !(di == 0 && dj == 0) {
      MooreStep(g, n, r, c, Visited(di, dj), r + di, c + dj);
    }
  }

  /** No cell of a blank grid has a live neighbour. */
  lemma {:induction false} BlankHasNoNeighbours(n: nat, r: int, c: int, k: nat)
    requires 0 <= r < n && 0 <= c < n && k <= 8
    ensures MooreCount(Blank(n), n, r, c, k) == 0
  {
    if k > 0 {
      BlankHasNoNeighbours(n, r, c, k - 1);
    }
  }

  /** A grid with no live cell has no live neighbour anywhere, so it stays empty. */
  lemma EmptyStaysEmpty(n: nat)
    ensures NextGrid(Blank(n), n) == Blank(n)
  {
    var g := Blank(n);
    forall i, j | 0 <= i < n && 0 <= j < n
      ensures NextGrid(g, n)[i][j] == g[i][j]
    {
      BlankHasNoNeighbours(n, i, j, 8);
      NextGridAt(g, n, i, j);
    }
    SquareExtensionality(NextGrid(g, n), g, n);
  }

  // ---------------------------------------------------------------------------
  // Product grids and the block still life
  // ---------------------------------------------------------------------------

  /** Cell (i, j) of g is alive exactly when row i and column j are both marked. */
  predicate IsProduct(g: seq<seq<bool>>, n: nat, rows: seq<bool>, cols: seq<bool>)
  {
    IsSquare(g, n) && |rows| == n && |cols| == n &&
    forall i, j :: 0 <= i < n && 0 <= j < n ==> g[i][j] == (rows[i] && cols[j])
  }

  /** How many of x - 1, x, x + 1 (wrapping) are marked in s. */
  function Around(s: seq<bool>, n: nat, x: int): (count: nat)
    requires n > 0 && |s| == n && 0 <= x < n
    ensures count <= 3
  {
    Alive(s[Wrap(x - 1, n)]) + Alive(s[x]) + Alive(s[Wrap(x + 1, n)])
  }

  /** A cell of a product grid is alive exactly when its row and its column are both marked. */
  lemma ProductAt(g: seq<seq<bool>>, n: nat, rows: seq<bool>, cols: seq<bool>, i: int, j: int)
    requires IsProduct(g, n, rows, cols) && 0 <= i < n && 0 <= j < n
    ensures g[i][j] == (rows[i] && cols[j])
  {
  }

  /** One neighbour of a product grid is alive when both its row and its column are marked. */
  lemma ProductStep(g: seq<seq<bool>>, n: nat, r: int, c: int, rows: seq<bool>, cols: seq<bool>, k: nat, x: int, y: int)
    requires IsProduct(g, n, rows, cols) && OnGrid(g, n, r, c) && k < 8 && Offset(k) == (x - r, y - c)
    ensures -1 <= x <= n && -1 <= y <= n
    ensures MooreCount(g, n, r, c, k + 1) == MooreCount(g, n, r, c, k) + Alive(rows[Wrap(x, n)] && cols[Wrap(y, n)])
  {
    OffsetsAreMooreNeighbourhood();
    MooreStep(g, n, r, c, k, x, y);
    TorusWrap(x, n);
    TorusWrap(y, n);
    ProductAt(g, n, rows, cols, Wrap(x, n), Wrap(y, n));
  }

  /** The three neighbours in the row above, counted first. */
  lemma RowAbove(g: seq<seq<bool>>, n: nat, r: int, c: int, rows: seq<bool>, cols: seq<bool>)
    requires IsProduct(g, n, rows, cols) && OnGrid(g, n, r, c)
    ensures MooreCount(g, n, r, c, 3) ==
      Alive(rows[Wrap(r - 1, n)] && cols[Wrap(c - 1, n)]) + Alive(rows[Wrap(r - 1, n)] && cols[c]) +
      Alive(rows[Wrap(r - 1, n)] && cols[Wrap(c + 1, n)])
  {
    assert Wrap(c, n) == c;
    ProductStep(g, n, r, c, rows, cols, 0, r - 1, c - 1);
    ProductStep(g, n, r, c, rows, cols, 1, r - 1, c);
    ProductStep(g, n, r, c, rows, cols, 2, r - 1, c + 1);
  }

  /** The two neighbours in the cell's own row. */
  lemma RowBeside(g: seq<seq<bool>>, n: nat, r: int, c: int, rows: seq<bool>, cols: seq<bool>)
    requires IsProduct(g, n, rows, cols) && OnGrid(g, n, r, c)
    ensures MooreCount(g, n, r, c, 5) ==
      MooreCount(g, n, r, c, 3) + Alive(rows[r] && cols[Wrap(c - 1, n)]) + Alive(rows[r] && cols[Wrap(c + 1, n)])
  {
    assert Wrap(r, n) == r;
    ProductStep(g, n, r, c, rows, cols, 3, r, c - 1);
    ProductStep(g, n, r, c, rows, cols, 4, r, c + 1);
  }

  /** The three neighbours in the row below, counted last. */
  lemma RowBelow(g: seq<seq<bool>>, n: nat, r: int, c: int, rows: seq<bool>, cols: seq<bool>)
    requires IsProduct(g, n, rows, cols) && OnGrid(g, n, r, c)
    ensures MooreCount(g, n, r, c, 8) ==
      MooreCount(g, n, r, c, 5) + Alive(rows[Wrap(r + 1, n)] && cols[Wrap(c - 1, n)]) +
      Alive(rows[Wrap(r + 1, n)] && cols[c]) + Alive(rows[Wrap(r + 1, n)] && cols[Wrap(c + 1, n)])
  {
    assert Wrap(c, n) == c;
    ProductStep(g, n, r, c, rows, cols, 5, r + 1, c - 1);
    ProductStep(g, n, r, c, rows, cols, 6, r + 1, c);
    ProductStep(g, n, r, c, rows, cols, 7, r + 1, c + 1);
  }

  /** Nine products of a row mark and a column mark add up to the product of the two sums. */
  lemma ProductSum(a0: bool, a1: bool, a2: bool, b0: bool, b1: bool, b2: bool, a: nat, b: nat)
    requires a == Alive(a0) + Alive(a1) + Alive(a2) && b == Alive(b0) + Alive(b1) + Alive(b2)
    ensures Alive(a0 && b0) + Alive(a0 && b1) + Alive(a0 && b2) + Alive(a1 && b0) + Alive(a1 && b2) +
      Alive(a2 && b0) + Alive(a2 && b1) + Alive(a2 && b2) + Alive(a1 && b1) == a * b
  {
  }

  lemma ProductTotal(m3: int, m5: int, m8: int, a0: bool, a1: bool, a2: bool, b0: bool, b1: bool, b2: bool, a: nat, b: nat)
    requires m3 == Alive(a0 && b0) + Alive(a0 && b1) + Alive(a0 && b2)
    requires m5 == m3 + Alive(a1 && b0) + Alive(a1 && b2)
    requires m8 == m5 + Alive(a2 && b0) + Alive(a2 && b1) + Alive(a2 && b2)
    requires a == Alive(a0) + Alive(a1) + Alive(a2) && b == Alive(b0) + Alive(b1) + Alive(b2)
    ensures m8 + Alive(a1 && b1) == a * b
  {
    ProductSum(a0, a1, a2, b0, b1, b2, a, b);
  }

  /**
   * On a product grid, the live neighbours of (r, c) together with the cell
   * itself number the marked rows around r times the marked columns around c.
   */
  lemma ProductNeighbours(g: seq<seq<bool>>, n: nat, r: int, c: int, rows: seq<bool>, cols: seq<bool>)
    requires IsProduct(g, n, rows, cols) && OnGrid(g, n, r, c)
    ensures LiveNeighbours(g, n, r, c) + Alive(g[r][c]) == Around(rows, n, r) * Around(cols, n, c)
  {
    RowAbove(g, n, r, c, rows, cols);
    RowBeside(g, n, r, c, rows, cols);
    RowBelow(g, n, r, c, rows, cols);
    ProductTotal(MooreCount(g, n, r, c, 3), MooreCount(g, n, r, c, 5), MooreCount(g, n, r, c, 8),
                 rows[Wrap(r - 1, n)], rows[r], rows[Wrap(r + 1, n)], cols[Wrap(c - 1, n)], cols[c], cols[Wrap(c + 1, n)],
                 Around(rows, n, r), Around(cols, n, c));
  }

  /** Rows (or columns) 1 and 2 of n. */
  function Band(n: nat): (s: seq<bool>)
    ensures |s| == n
  {
    seq(n, i => 1 <= i <= 2)
  }

  /** The n by n grid whose only live cells are the 2 by 2 block at rows and columns 1 and 2. */
  function Block(n: nat): (g: seq<seq<bool>>)
    ensures IsProduct(g, n, Band(n), Band(n))
  {
    seq(n, i => seq(n, j => 1 <= i <= 2 && 1 <= j <= 2))
  }

  /** On a torus of at least 4, the band has two cells around rows 1 and 2, one around rows 0 and 3, none elsewhere. */
  lemma BandAround(n: nat, x: int)
    requires n >= 4 && 0 <= x < n
    ensures Around(Band(n), n, x) == if 1 <= x <= 2 then 2 else if x == 0 || x == 3 then 1 else 0
  {
  }

  /** The block is a still life: on any torus of side at least 4, a step leaves it unchanged. */
  lemma BlockIsStill(n: nat)
    requires n >= 4
    ensures NextGrid(Block(n), n) == Block(n)
  {
    var g := Block(n);
    forall i, j | 0 <= i < n && 0 <= j < n
      ensures NextGrid(g, n)[i][j] == g[i][j]
    {
      NextGridAt(g, n, i, j);
      ProductNeighbours(g, n, i, j, Band(n), Band(n));
      BandAround(n, i);
      BandAround(n, j);
    }
    SquareExtensionality(NextGrid(g, n), g, n);
  }

  /** Wrap-around on both axes: on a 3 by 3 torus, a live (0, 0) is a neighbour of (2, 2). */
  lemma CornerWrapsToCorner()
    ensures LiveNeighbours(Corner, 3, 2, 2) == 1
  {
  }

  const Corner: seq<seq<bool>> := [[true, false, false], [false, false, false], [false, false, false]]

  class GameOfLife {
    /**
     * The current grid. Apart from the random fill at construction, which the
     * `initial` parameter stands for, it is only ever replaced as a whole.
     */
    var grid: seq<seq<bool>>
    const size: nat

    ghost predicate Valid()
      reads this
    {
      IsSquare(grid, size)
    }

    /** A `size` by `size` game whose first grid is `initial` (in place of one random bit per cell). */
    constructor (size: nat, initial: seq<seq<bool>>)
      requires IsSquare(initial, size)
      ensures Valid() && grid == initial
    {
      this.size := size;
      grid := initial;
    }

    /** Counts the live cells among the eight neighbours of (row, col), wrapping on both axes. */
    method CountLiveNeighbors(row: int, col: int) returns (count: int)
      requires Valid() && 0 <= row < size && 0 <= col < size
      ensures count == LiveNeighbours(grid, size, row, col)
      ensures 0 <= count <= 8
    {
      assert OnGrid(grid, size, row, col);
      count := 0;
      for i := -1 to 2
        invariant count == MooreCount(grid, size, row, col, Visited(i, -1))
      {
        for j := -1 to 2
          invariant count == MooreCount(grid, size, row, col, Visited(i, j))
        {
          VisitStep(grid, size, row, col, i, j);
          if i == 0 && j == 0 {
            continue;
          }
          var newRow := (row + i + size) % size;
          var newCol := (col + j + size) % size;
          if grid[newRow][newCol] {
            count := count + 1;
          }
        }
      }
    }

    /** Replaces the grid by a new one in which every cell follows Conway's rule on the old grid. */
    method NextGeneration()
      requires Valid()
      modifies this
      ensures Valid()
      ensures grid == NextGrid(old(grid), size)
    {
      ghost var g := grid;
      ghost var next := NextGrid(g, size);
      var newGrid := new bool[size, size];
      for i := 0 to size
        modifies newGrid
        invariant grid == g
        invariant forall i', j' :: 0 <= i' < i && 0 <= j' < size ==> newGrid[i', j'] == next[i'][j']
      {
        for j := 0 to size
          modifies newGrid
          invariant grid == g
          invariant forall i', j' :: 0 <= i' < i && 0 <= j' < size ==> newGrid[i', j'] == next[i'][j']
          invariant forall j' :: 0 <= j' < j ==> newGrid[i, j'] == next[i][j']
        {
          var liveNeighbors := CountLiveNeighbors(i, j);
          NextGridAt(g, size, i, j);
          if grid[i][j] {
            newGrid[i, j] := liveNeighbors == 2 || liveNeighbors == 3;
          } else {
            newGrid[i, j] := liveNeighbors == 3;
          }
        }
      }
      grid := Snapshot(newGrid);
      SquareExtensionality(grid, next, size);
    }
  }
}
