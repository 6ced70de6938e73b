/**
 * The grid and the rule engine of the Game of Life as pure values:
 * the board constants, the bounds test, the B3/S23 rule, the neighbour
 * count over the previous generation and one synchronous generation step.
 * The imperative engine in LifeEngine is proved against these functions.
 */
module LifeRules {

  /** Frame rate used while the simulation is paused. */
  const NormalFps: int := 30

  /** Lower bound used by the bounds test (exclusive). */
  const Min: int := 0

  const CellsWidth: int := 125
  const CellsHeight: int := 125

  const ResolutionWidth: int := 750
  const ResolutionHeight: int := 750

  /** Pixels per cell along each axis: 750 / 125 = 6. */
  const RatioWidth: int := ResolutionWidth / CellsWidth
  const RatioHeight: int := ResolutionHeight / CellsHeight

  /** A generation: `g[x][y]` is the cell in column x, row y; true is alive. */
  type Grid = g: seq<seq<bool>> | |g| == CellsWidth && forall x :: 0 <= x < |g| ==> |g[x]| == CellsHeight
    witness seq(CellsWidth, _ => seq(CellsHeight, _ => false))

  /** A coordinate pair that may be used to index a grid. */
  predicate ValidCell(x: int, y: int) {
    0 <= x < CellsWidth && 0 <= y < CellsHeight
  }

  /** The all-dead grid, which is also how the program starts. */
  const Dead: Grid := seq(CellsWidth, _ => seq(CellsHeight, _ => false))

  /**
   * The bounds test used by the neighbour count. It compares with `>`
   * against Min = 0, so column 0 and row 0 are never in range although
   * they are part of the grid.
   */
  function IsInRange(x: int, y: int): (r: bool)
    ensures r <==> ValidCell(x, y) && x != 0 && y != 0
  {
    x > Min && y > Min && x < CellsWidth && y < CellsHeight
  }

  /** 1 when (w, h) passes the bounds test and is alive in `g`, else 0. */
  function Neighbour(g: Grid, w: int, h: int): nat {
    if IsInRange(w, h) && g[w][h] then 1 else 0
  }

  /**
   * The number of live Moore neighbours of (x, y) in `g`: one for each of
   * the eight offsets (i, j) != (0, 0) in {-1, 0, 1}^2 whose cell passes
   * the bounds test and is alive.
   */
  function Count(g: Grid, x: int, y: int): (r: nat)
    ensures r <= 8
  {
    Neighbour(g, x - 1, y - 1) + Neighbour(g, x - 1, y) + Neighbour(g, x - 1, y + 1)
    + Neighbour(g, x, y - 1) + Neighbour(g, x, y + 1)
    + Neighbour(g, x + 1, y - 1) + Neighbour(g, x + 1, y) + Neighbour(g, x + 1, y + 1)
  }

  /**
   * What `simulateCell` leaves in the current grid for one cell: a cell
   * alive in the previous generation dies with fewer than 2 or more than
   * 3 neighbours, a dead one is born with exactly 3, and otherwise the
   * current value is kept.
   */
  function CellUpdate(wasAlive: bool, current: bool, neighbours: int): (r: bool)
    ensures Rule(wasAlive, neighbours) != wasAlive ==> r == Rule(wasAlive, neighbours)
    ensures Rule(wasAlive, neighbours) == wasAlive ==> r == current
  {
    if wasAlive then
      if neighbours < 2 || neighbours > 3 then false else current
    else if neighbours == 3 then true
    else current
  }

  /**
   * Conway's rule B3/S23: the next state of a cell from its previous state
   * and its number of live neighbours.
   */
  function Rule(alive: bool, neighbours: int): (r: bool)
    ensures alive ==> (r <==> neighbours == 2 || neighbours == 3)
    ensures !alive ==> (r <==> neighbours == 3)
  {
    neighbours == 3 || (alive && neighbours == 2)
  }

  /** One synchronous generation: every cell from the snapshot `g` only. */
  function Step(g: Grid): Grid {
    seq(CellsWidth, x requires 0 <= x < CellsWidth =>
      seq(CellsHeight, y requires 0 <= y < CellsHeight => Rule(g[x][y], Count(g, x, y))))
  }

  /** The grid with exactly the cell (x, y) flipped. */
  function Toggle(g: Grid, x: int, y: int): (r: Grid)
    requires ValidCell(x, y)
    ensures r[x][y] == !g[x][y]
    ensures forall a, b :: ValidCell(a, b) && (a != x || b != y) ==> r[a][b] == g[a][b]
  {
    g[x := g[x][y := !g[x][y]]]
  }

  /** Two grids that agree on every cell are equal. */
  lemma GridExtensionality(g: Grid, h: Grid)
    requires forall x, y :: ValidCell(x, y) ==> g[x][y] == h[x][y]
    ensures g == h
  {
    forall x | 0 <= x < CellsWidth
      ensures g[x] == h[x]
    {
      assert forall y :: 0 <= y < CellsHeight ==> g[x][y] == h[x][y];
    }
  }

  /**
   * A cell's next state depends only on the snapshot's 3x3 block around
   * it: two snapshots that agree there give the same next state.
   */
  lemma StepIsLocal(g: Grid, h: Grid, x: int, y: int)
    requires ValidCell(x, y)
    requires forall a, b :: ValidCell(a, b) && x - 1 <= a <= x + 1 && y - 1 <= b <= y + 1 ==> g[a][b] == h[a][b]
    ensures Step(g)[x][y] == Step(h)[x][y]
  {
  }

  /** An all-dead grid stays all-dead: no dead cell has 3 live neighbours. */
  lemma StepDead()
    ensures Step(Dead) == Dead
  {
    forall x | 0 <= x < CellsWidth
      ensures Step(Dead)[x] == Dead[x]
    {
      forall y | 0 <= y < CellsHeight
        ensures Step(Dead)[x][y] == Dead[x][y]
      {
        assert Count(Dead, x, y) == 0;
      }
    }
  }

  /** A single live cell on an otherwise dead grid has no neighbours and dies, leaving the grid dead. */
  lemma SingleCellDies(cx: int, cy: int)
    requires ValidCell(cx, cy)
    ensures Step(Toggle(Dead, cx, cy)) == Dead
  {
    var g := Toggle(Dead, cx, cy);
    forall x, y | ValidCell(x, y)
      ensures Step(g)[x][y] == Dead[x][y]
    {
      forall w, h | IsInRange(w, h)
        ensures Neighbour(g, w, h) == if w == cx && h == cy then 1 else 0
      {
      }
    }
    GridExtensionality(Step(g), Dead);
  }

  /** Flipping the same cell twice restores the grid. */
  lemma ToggleTwice(g: Grid, x: int, y: int)
    requires ValidCell(x, y)
    ensures Toggle(Toggle(g, x, y), x, y) == g
  {
    var t := Toggle(Toggle(g, x, y), x, y);
    forall a | 0 <= a < CellsWidth
      ensures t[a] == g[a]
    {
      assert |t[a]| == |g[a]|;
      forall b | 0 <= b < CellsHeight
        ensures t[a][b] == g[a][b]
      {
      }
    }
  }

  /**
   * Cells in column 0 or row 0 never contribute to any neighbour count:
   * two grids that differ only there give the same counts everywhere.
   */
  lemma EdgeNeverCounted(g: Grid, h: Grid, x: int, y: int)
    requires forall a, b :: 0 < a < CellsWidth && 0 < b < CellsHeight ==> g[a][b] == h[a][b]
    ensures Count(g, x, y) == Count(h, x, y)
  {
  }

  /** The corner cell (0, 0) sees at most its diagonal neighbour, so it is dead after every step. */
  lemma CornerDiesEveryStep(g: Grid)
    ensures !Step(g)[0][0]
  {
  }

  /** The cells of a vertical (or horizontal) blinker of three cells centred on (cx, cy). */
  predicate InBlinker(vertical: bool, cx: int, cy: int, x: int, y: int) {
    if vertical then x == cx && cy - 1 <= y <= cy + 1
    else y == cy && cx - 1 <= x <= cx + 1
  }

  function Blinker(vertical: bool, cx: int, cy: int): (r: Grid)
    ensures forall x, y :: ValidCell(x, y) ==> (r[x][y] <==> InBlinker(vertical, cx, cy, x, y))
  {
    seq(CellsWidth, x requires 0 <= x < CellsWidth =>
      seq(CellsHeight, y requires 0 <= y < CellsHeight => InBlinker(vertical, cx, cy, x, y)))
  }

  /** The cells of a 2x2 block with lower corner (cx, cy). */
  predicate InBlock(cx: int, cy: int, x: int, y: int) {
    cx <= x <= cx + 1 && cy <= y <= cy + 1
  }

  function Block(cx: int, cy: int): (r: Grid)
    ensures forall x, y :: ValidCell(x, y) ==> (r[x][y] <==> InBlock(cx, cy, x, y))
  {
    seq(CellsWidth, x requires 0 <= x < CellsWidth =>
      seq(CellsHeight, y requires 0 <= y < CellsHeight => InBlock(cx, cy, x, y)))
  }

  lemma BlinkerCellTurns(vertical: bool, cx: int, cy: int, x: int, y: int)
    requires 2 <= cx <= CellsWidth - 2 && 2 <= cy <= CellsHeight - 2
    requires ValidCell(x, y)
    ensures Rule(InBlinker(vertical, cx, cy, x, y), Count(Blinker(vertical, cx, cy), x, y))
      == InBlinker(!vertical, cx, cy, x, y)
  {
  }

  lemma BlinkerTurns(vertical: bool, cx: int, cy: int)
    requires 2 <= cx <= CellsWidth - 2 && 2 <= cy <= CellsHeight - 2
    ensures Step(Blinker(vertical, cx, cy)) == Blinker(!vertical, cx, cy)
  {
    var g := Blinker(vertical, cx, cy);
    var h := Blinker(!vertical, cx, cy);
    forall x | 0 <= x < CellsWidth
      ensures Step(g)[x] == h[x]
    {
      forall y | 0 <= y < CellsHeight
        ensures Step(g)[x][y] == h[x][y]
      {
        BlinkerCellTurns(vertical, cx, cy, x, y);
      }
    }
  }

  /**
   * Away from the edges a blinker oscillates with period 2: it differs
   * from itself after one generation and is back after two.
   */
  lemma BlinkerOscillates(cx: int, cy: int)
    requires 2 <= cx <= CellsWidth - 2 && 2 <= cy <= CellsHeight - 2
    ensures Step(Blinker(true, cx, cy)) != Blinker(true, cx, cy)
    ensures Step(Step(Blinker(true, cx, cy))) == Blinker(true, cx, cy)
  {
    BlinkerTurns(true, cx, cy);
    BlinkerTurns(false, cx, cy);
    assert Blinker(false, cx, cy)[cx - 1][cy] != Blinker(true, cx, cy)[cx - 1][cy];
  }

  lemma BlockCellStill(cx: int, cy: int, x: int, y: int)
    requires 1 <= cx <= CellsWidth - 2 && 1 <= cy <= CellsHeight - 2
    requires ValidCell(x, y)
    ensures Rule(InBlock(cx, cy, x, y), Count(Block(cx, cy), x, y)) == InBlock(cx, cy, x, y)
  {
  }

  /** A block whose cells all pass the bounds test is a still life. */
  lemma BlockIsStill(cx: int, cy: int)
    requires 1 <= cx <= CellsWidth - 2 && 1 <= cy <= CellsHeight - 2
    ensures Step(Block(cx, cy)) == Block(cx, cy)
  {
    var g := Block(cx, cy);
    forall x | 0 <= x < CellsWidth
      ensures Step(g)[x] == g[x]
    {
      forall y | 0 <= y < CellsHeight
        ensures Step(g)[x][y] == g[x][y]
      {
        BlockCellStill(cx, cy, x, y);
      }
    }
  }

  /**
   * The converse of BlockIsStill: a block touching column 0 or row 0 is
   * not still. Its cell next to the edge, (cx, 1) or (1, cy), sees only
   * one live neighbour, because column 0 and row 0 fail the bounds test.
   */
  lemma EdgeBlockDecays(cx: int, cy: int)
    requires cx == 0 || cy == 0
    requires 0 <= cx <= CellsWidth - 2 && 0 <= cy <= CellsHeight - 2
    ensures Step(Block(cx, cy)) != Block(cx, cy)
  {
    var (x, y) := if cy == 0 then (cx, 1) else (1, cy);
    assert Count(Block(cx, cy), x, y) == 1;
    assert Step(Block(cx, cy))[x][y] != Block(cx, cy)[x][y];
  }
}
