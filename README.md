# Cellular automata: elementary automaton, Game of Life, Langton's ant

A Dafny model of three discrete simulations and proofs about them.

- **Elementary cellular automaton.** A ring of `N` cells, each 0 or 1, and an 8-entry rule table derived from a
  rule number (bit `i` of the number decides neighbourhood code `i`). It is built with a single 1 in the middle
  cell, or loaded from a string of `'0'`/`'1'` that is truncated or zero-padded to `N` cells. Each step looks up
  `(left << 2) | (self << 1) | right`, with the ends of the array as neighbours of each other, and replaces the
  whole generation. A generation prints back as a `'0'`/`'1'` string.
- **Conway's Game of Life.** An `N` by `N` torus. Every cell counts its eight Moore neighbours, with indices
  wrapped by `(x + N) % N`. Every cell then updates simultaneously from the previous grid: a live cell survives
  with 2 or 3 live neighbours, and a dead cell is born with exactly 3.
- **Langton's ant.** An `N` by `N` torus that starts with every cell false, and an ant in the middle heading up.
  At each move the ant:
  - flips its cell;
  - turns clockwise (`dir + 1`) when the cell is now true, and counter-clockwise (`dir + 3`, mod 4) otherwise;
  - steps one cell in its new heading, wrapping at the edges.

Modules:

- `Grid`: square boolean grids, shared.
- `ElementaryAutomaton`: the `CellularAutomaton` class. It holds `int` arrays as the source does and is specified
  by the pure functions `RuleTable`, `FromBinary`, `ToBinary`, `NextRow` and `Iterate`.
- `Life`: the `GameOfLife` class, specified by `LiveNeighbours` and `NextGrid`.
- `LangtonAnt`: the `LangtonsAnt` class over a two-dimensional array. It is specified by the value-level step
  `AntStep`, and `AntUnstep` is its inverse.

Each class method is proved against its specification function. Properties proved about those functions:

- Rule numbers 0..255 and 8-entry tables are in one-to-one correspondence.
- Loading then printing returns the input when it is exactly `N` bits. Printing then loading is the identity.
- Rule 0 clears every ring and rule 255 fills it.
- Life's neighbour count wraps on both axes, an empty grid stays empty, and a 2 by 2 block on an otherwise dead
  torus of side at least 4 is a still life.
- The ant's step is a bijection on well-formed states. Its inverse is proved both ways.
- The effect of one step is stated cell by cell, and the first move from the initial state is given exactly.

## Model

| member | source | states |
|---|---|---|
| ElementaryAutomaton.CellularAutomaton.constructor | langton_ant.java:112-123 | size must be positive; the generation is all 0 except a 1 at index size / 2; the rule table is bit i of the rule number for i in 0..7; fresh arrays |
| ElementaryAutomaton.CellularAutomaton.SetRuleSet | langton_ant.java:125-129 | the 8-entry table becomes RuleTable(ruleNumber), entry i being bit i of the number |
| ElementaryAutomaton.CellularAutomaton.FromBinaryString | langton_ant.java:131-136 | the generation becomes a fresh array of the same size holding 1 exactly where the string has '1', zero beyond the string's end, the rest of the string ignored |
| ElementaryAutomaton.CellularAutomaton.ToBinaryString | langton_ant.java:138-144 | the result is the generation printed cell by cell as '0'/'1' |
| ElementaryAutomaton.CellularAutomaton.ApplyRule | langton_ant.java:161-170 | the new generation is NextRow of the old one: every cell computed from the previous generation with ring neighbours; the class invariant (0/1 cells, size kept, distinct arrays) is preserved |
| ElementaryAutomaton.CellularAutomaton.GenerateNext | langton_ant.java:172-174 | one step: the same new generation as ApplyRule |
| ElementaryAutomaton.Replay | Cellularautomation.java:47-59 | stepping is deterministic: two automata from the same size, rule and initial string print the same string after any number of generations, namely the k-fold step of the loaded generation |
| ElementaryAutomaton.ShiftRight | langton_ant.java:127 | `ruleNumber >> i` is floor division by 2^i: 2^i * s <= r < 2^i * s + 2^i, for negative r as well |
| ElementaryAutomaton.Bit | langton_ant.java:127 | the bit test `((r >> i) & 1) == 1`: false for every 0 <= r < 2^i, true for every -2^i <= r < 0 (sign extension) |
| ElementaryAutomaton.InitialGeneration | langton_ant.java:119-122 | n cells, all 0 or 1, and cell i is 1 exactly when i == n / 2 |
| ElementaryAutomaton.FromBinary | langton_ant.java:131-136 | exactly n cells, all 0 or 1; cell i is 1 iff i is within the string and the string has '1' there |
| ElementaryAutomaton.LoadIgnoresTail | langton_ant.java:133 | characters beyond the first n do not affect the loaded generation |
| ElementaryAutomaton.LoadPadsWithZeros | langton_ant.java:132-134 | appending '0' characters to the string does not change the loaded generation: a short string is zero-padded |
| ElementaryAutomaton.ToBinary | langton_ant.java:138-144 | one character per cell, all '0'/'1', and character i is '1' iff cell i is 1 |
| ElementaryAutomaton.RuleTable | Cellularautomation.java:85-89 | the rule table has exactly 8 entries |
| ElementaryAutomaton.RuleTableRoundTrip | Cellularautomation.java:85-89 | for 0 <= r <= 255, reading the table back as a binary number gives r |
| ElementaryAutomaton.TableRoundTrip | Cellularautomation.java:85-89 | every 8-entry table is the table of exactly one rule number in 0..255 |
| ElementaryAutomaton.RuleTableInjective | Cellularautomation.java:85-89 | distinct rule numbers in 0..255 give distinct tables |
| ElementaryAutomaton.LoadThenPrint | Cellularautomation.java:91-104 | loading any string and printing gives exactly N characters; character i is '1' iff i is within the string and the string has '1' there; the loaded generation is all 0/1 |
| ElementaryAutomaton.LoadThenPrintIdentity | Cellularautomation.java:91-104 | a '0'/'1' string of exactly N characters survives load then print unchanged |
| ElementaryAutomaton.PrintThenLoadIdentity | Cellularautomation.java:91-104 | a 0/1 generation survives print then load unchanged |
| ElementaryAutomaton.Code | langton_ant.java:163-166 | the neighbourhood code of a 0/1 ring cell is below 8, so the table lookup is in range |
| ElementaryAutomaton.NextRow | langton_ant.java:161-170 | a step keeps the ring's length and keeps every cell 0 or 1 |
| ElementaryAutomaton.Iterate | Cellularautomation.java:47-51 | any number of steps keeps the ring's length and its 0/1 cells |
| ElementaryAutomaton.RingNeighbours | langton_ant.java:163-165 | the explicit end-of-array cases agree with (i - 1) mod N and (i + 1) mod N |
| ElementaryAutomaton.SingleCellRing | Cellularautomation.java:123-125 | on a ring of one cell the cell is its own left and right neighbour: the code is 0 or 7 |
| ElementaryAutomaton.RuleZeroClears | langton_ant.java:161-170 | under rule 0 any ring becomes all 0 after one step |
| ElementaryAutomaton.RuleAllSets | langton_ant.java:161-170 | under rule 255 any ring becomes all 1 after one step |
| Life.GameOfLife.constructor | langton_ant.java:189-199 | the game has the given size and its grid is the supplied N by N initial grid |
| Life.GameOfLife.CountLiveNeighbors | langton_ant.java:216-229 | the count is the number of live cells among the eight wrapped Moore neighbours, between 0 and 8 |
| Life.GameOfLife.NextGeneration | langton_ant.java:201-214 | the grid is replaced by NextGrid of the old grid, every cell computed from the previous generation |
| Life.TorusWrap | langton_ant.java:221-222 | (x + N) % N maps -1 to N - 1, N to 0 and leaves 0..N-1 unchanged |
| Life.OffsetsAreMooreNeighbourhood | langton_ant.java:218-220 | the eight offsets counted lie in {-1,0,1}², are pairwise distinct and never (0, 0) |
| Life.VisitOrder | langton_ant.java:218-220 | the double loop over -1..1 skips the centre and meets the eight offsets in table order, each once |
| Life.VisitStep | langton_ant.java:218-226 | one turn of the double loop: the skipped centre leaves the count unchanged, any other offset adds 1 exactly when its wrapped cell is alive |
| Life.MooreCount | langton_ant.java:216-229 | counting k neighbours gives at most k live ones |
| Life.MooreStep | langton_ant.java:223-225 | one more neighbour visited adds 1 exactly when that wrapped cell is alive |
| Life.AliveAt | langton_ant.java:221-225 | a wrapped cell contributes 0 or 1 to the count |
| Life.LiveNeighbours | langton_ant.java:216-229 | the number of live Moore neighbours of a cell is at most 8 |
| Life.NextCell | langton_ant.java:206-210 | fewer than 2 or more than 3 live neighbours: dead; exactly 3: alive; exactly 2: the cell keeps its state |
| Life.NextState | langton_ant.java:205-210 | a cell alive in the next grid has 2 or 3 live neighbours now, and a cell with exactly 3 is alive next |
| Life.NextGrid | langton_ant.java:201-214 | the next grid has the same N by N shape |
| Life.NextGridAt | langton_ant.java:205-210 | cell (i, j) of the next grid is alive iff it was alive with 2 or 3 live neighbours, or dead with exactly 3 |
| Life.BlankHasNoNeighbours | langton_ant.java:216-229 | no cell of an all-dead grid has a live neighbour |
| Life.EmptyStaysEmpty | langton_ant.java:201-214 | an all-dead grid stays all-dead |
| Life.CornerWrapsToCorner | langton_ant.java:221-223 | on a 3 by 3 torus with only (0, 0) alive, cell (2, 2) counts exactly one live neighbour |
| Life.ProductNeighbours | langton_ant.java:216-229 | on a grid whose live cells are a set of rows crossed with a set of columns, the live neighbours plus the cell itself number (marked rows among r - 1, r, r + 1) times (marked columns among c - 1, c, c + 1), wrapping |
| Life.BlockIsStill | langton_ant.java:201-214 | on every N by N torus with N >= 4, the grid alive exactly at rows and columns 1..2 is unchanged by a generation |
| LangtonAnt.Initial | langton_ant.java:266-272 | an N by N all-false grid; for N > 0 the state is well formed (ant on the grid, heading in 0..3) |
| LangtonAnt.Turn | langton_ant.java:279-283 | the new heading is in 0..3, and for a heading in 0..3 the opposite quarter turn gives the old heading back |
| LangtonAnt.Forward | langton_ant.java:286-299 | the cell reached is on the grid; headings 1 and 3 keep the row, headings 0 and 2 keep the column |
| LangtonAnt.Backward | langton_ant.java:286-299 | the cell behind is on the grid and lies on the same axis as Forward's |
| LangtonAnt.LangtonsAnt.constructor | langton_ant.java:266-272 | a fresh all-false size by size grid, the ant at (size / 2, size / 2) heading up |
| LangtonAnt.LangtonsAnt.Move | langton_ant.java:274-300 | the new grid, position and heading are AntStep of the old state; the invariant (position on the grid, heading in 0..3) is preserved |
| LangtonAnt.Flip | langton_ant.java:276 | exactly cell (x, y) is negated; the shape and every other cell are unchanged |
| LangtonAnt.AntStep | langton_ant.java:274-300 | a step keeps the ant on the grid with a heading in 0..3 |
| LangtonAnt.AntUnstep | langton_ant.java:274-300 | undoing a step keeps the ant on the grid with a heading in 0..3 |
| LangtonAnt.BackwardForward | langton_ant.java:286-299 | one cell forward in heading d then one back returns to the start, and the cell reached is on the grid |
| LangtonAnt.ForwardBackward | langton_ant.java:286-299 | one cell back against heading d then one forward returns to the start |
| LangtonAnt.FlipTwice | langton_ant.java:276 | flipping a cell twice restores the grid |
| LangtonAnt.UnstepAfterStep | langton_ant.java:274-300 | undoing a move gives back the state before it |
| LangtonAnt.StepAfterUnstep | langton_ant.java:274-300 | every well-formed state is the move of its predecessor, so the move is a bijection |
| LangtonAnt.StepEffect | langton_ant.java:274-300 | a move negates exactly the ant's cell; the heading becomes dir + 1 iff that cell is now true and dir + 3 iff it is now false; the ant ends one cell ahead of its old position |
| LangtonAnt.FirstMove | langton_ant.java:266-300 | from the initial state the first move sets the centre cell, heads right and moves to column (N / 2 + 1) mod N |
| LangtonAnt.SingleCellPeriod | langton_ant.java:274-300 | on a 1 by 1 torus two moves restore the initial state |

## Left out

- Console input, the menus and `run*` drivers, `displayGeneration` and `displayGrid` printing, and the
  `saveToFile`/`loadFromFile` file I/O are left out as I/O. Loading is modelled by `FromBinaryString` on the
  line read, and saving by `ToBinaryString`.
- The random rule number and the final state printed as a `BigInteger` are not modelled. The driver resolves
  the -1 sentinel before construction, so the constructor takes a plain rule number.
- Life.GameOfLife.constructor: the random Bernoulli(0.5) fill is replaced by an `initial` grid parameter that
  supplies the cells.
- Java 32-bit `int` overflow is not modelled, because integers are unbounded. No expression overflows. The
  automaton's `i + 1` is at most `size`. The grids' `x ± 1 + size` is at most `2 * size`, which is far below
  2^31 for any N by N grid that can be allocated. `(ruleNumber >> i) & 1` for i < 8 is modelled as bit i by floor division, which agrees with the
  arithmetic shift for every int including negative ones.
- `(left << 2) | (self << 1) | right` is modelled as `4 * left + 2 * self + right`. This is the same value for
  0/1 cells, and the class invariant keeps every cell 0 or 1.
- ElementaryAutomaton.CellularAutomaton.FromBinaryString: cells are indexed by character (Unicode scalar
  value), not by UTF-16 code unit as Java's `length()` and `charAt` are. The two agree on every string without
  supplementary-plane characters, and so on every '0'/'1' string. Lone surrogates are not representable.
- `StringBuilder.append(int)` is modelled on 0/1 cells as the single digit '0' or '1'.
- Negative sizes are excluded by the `nat` type of the size parameter of all three constructors. Java throws
  `NegativeArraySizeException` for them at `new int[size]` and `new boolean[size][size]`.
- Size 0 for the elementary automaton is a precondition: Java throws at `parentGeneration[size / 2]`.
- LangtonAnt.LangtonsAnt.Move requires size > 0. For size 0 Java throws an array index exception at the first flip.
- Life.GameOfLife: the `grid` field is a value-level `seq<seq<bool>>`. Java writes it cell by cell only in the
  constructor's random fill, which the `initial` parameter replaces. After that it is only ever replaced whole
  (`grid = newGrid`). The new grid under construction is an in-place `array2`.
- `Cellularautomation.java` holds a copy of `CellularAutomaton` identical to the one in `langton_ant.java`. It is
  modelled once, in `ElementaryAutomaton`.
- The nesting of the Java classes inside `Main` is not modelled.
- The Java comment at the Langton's ant turn names colours ("becomes white, turn right"). The model follows the
  code: `dir + 1` when the flipped cell is true.
- The 10000-step highway behaviour of Langton's ant is not proved. Only the first move, the single-cell period
  and the step's exact effect and reversibility are proved.
