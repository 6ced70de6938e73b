/**
 * The program's global state and the functions of main.cpp that update
 * it in place: two 125x125 boolean arrays (the current and the previous
 * generation), the `running` flag, the `ticks` speed value, the window's
 * frame-rate limit and whether the window is open. Every method is
 * proved against the pure functions of LifeRules and LifeControl.
 */
module LifeEngine {
  import opened LifeRules
  import opened LifeControl

  /** The contents of a 125x125 array as a grid value. */
  ghost function Snapshot(a: array2<bool>): (g: Grid)
    requires a.Length0 == CellsWidth && a.Length1 == CellsHeight
    reads a
    ensures forall x, y :: ValidCell(x, y) ==> g[x][y] == a[x, y]
  {
    seq(CellsWidth, x requires 0 <= x < CellsWidth reads a =>
      seq(CellsHeight, y requires 0 <= y < CellsHeight reads a => a[x, y]))
  }

  /** The contribution of offset (i, j) to the neighbour count, as the loop body decides it. */
  function Term(g: Grid, x: int, y: int, i: int, j: int): nat {
    if (x + i == x && y + j == y) || !IsInRange(x + i, y + j) then 0
    else if g[x + i][y + j] then 1 else 0
  }

  /** The count over the offsets (i, -1) up to (i, j - 1): the inner loop's partial sum. */
  function RowSum(g: Grid, x: int, y: int, i: int, j: int): nat
    requires -1 <= j <= 2
    decreases j + 1
  {
    if j == -1 then 0 else RowSum(g, x, y, i, j - 1) + Term(g, x, y, i, j - 1)
  }

  /** The count over the rows of offsets -1 up to i - 1: the outer loop's partial sum. */
  function RowsSum(g: Grid, x: int, y: int, i: int): nat
    requires -1 <= i <= 2
    decreases i + 1
  {
    if i == -1 then 0 else RowsSum(g, x, y, i - 1) + RowSum(g, x, y, i - 1, 2)
  }

  /** The double loop over the nine offsets counts exactly the eight Moore neighbours. */
  lemma LoopCountsNeighbours(g: Grid, x: int, y: int)
    ensures RowsSum(g, x, y, 2) == Count(g, x, y)
  {
  }

  class GameOfLife {
    const cells: array2<bool>
    const oldCells: array2<bool>
    var running: bool
    var ticks: int
    var frameLimit: nat
    var open: bool

    /** Both arrays are 125x125 and distinct. */
    ghost predicate Valid() {
      && cells.Length0 == CellsWidth && cells.Length1 == CellsHeight
      && oldCells.Length0 == CellsWidth && oldCells.Length1 == CellsHeight
      && cells != oldCells
    }

    /** The abstract state the control functions work on. */
    ghost function Model(): State
      requires Valid()
      reads this, cells, oldCells
    {
      State(Snapshot(cells), Snapshot(oldCells), running, ticks, frameLimit, open)
    }

    /** The start-up state: dead grids, paused, ticks = 1, no frame-rate limit, window open. */
    constructor ()
      ensures Valid() && fresh(cells) && fresh(oldCells)
      ensures Model() == Initial
    {
      cells := new bool[CellsWidth, CellsHeight]((_, _) => false);
      oldCells := new bool[CellsWidth, CellsHeight]((_, _) => false);
      running := false;
      ticks := 1;
      frameLimit := 0;
      open := true;
      new;
      GridExtensionality(Snapshot(cells), Dead);
      GridExtensionality(Snapshot(oldCells), Dead);
    }

    /** The number of live neighbours of (x, y) in the previous generation; reads only `oldCells`. */
    method GetAliveNeighbors(x: int, y: int) returns (aliveNeighbours: int)
      requires Valid()
      ensures aliveNeighbours == Count(Snapshot(oldCells), x, y)
      ensures 0 <= aliveNeighbours <= 8
    {
      ghost var g := Snapshot(oldCells);
      aliveNeighbours := 0;
      for i := -1 to 2
        invariant aliveNeighbours == RowsSum(g, x, y, i)
      {
        for j := -1 to 2
          invariant aliveNeighbours == RowsSum(g, x, y, i) + RowSum(g, x, y, i, j)
        {
          var w := x + i;
          var h := y + j;
          if (w == x && h == y) || !IsInRange(w, h) {
            continue;
          }
          if oldCells[w, h] {
            aliveNeighbours := aliveNeighbours + 1;
          }
        }
      }
      LoopCountsNeighbours(g, x, y);
    }

    /**
     * Flips one cell of the current generation. Pixel coordinates are
     * divided (truncating) by the pixel-to-cell ratio; there is no bounds
     * check, so the resulting cell must lie on the grid.
     */
    method ToggleCellAt(x: int, y: int, pixels: bool)
      requires Valid()
      requires ValidCell(CellCoordinate(x, pixels, RatioWidth), CellCoordinate(y, pixels, RatioHeight))
      modifies cells
      ensures Snapshot(cells)
        == Toggle(old(Snapshot(cells)), CellCoordinate(x, pixels, RatioWidth), CellCoordinate(y, pixels, RatioHeight))
    {
      var cx := if pixels then TruncDiv(x, RatioWidth) else x;
      var cy := if pixels then TruncDiv(y, RatioHeight) else y;
      ghost var before := Snapshot(cells);
      cells[cx, cy] := !cells[cx, cy];
      GridExtensionality(Snapshot(cells), Toggle(before, cx, cy));
    }

    /** Copies the current generation into the previous one. */
    method CopyCells()
      requires Valid()
      modifies oldCells
      ensures Snapshot(oldCells) == Snapshot(cells)
      ensures Snapshot(cells) == old(Snapshot(cells))
    {
      for x := 0 to CellsWidth
        invariant forall a, b :: 0 <= a < x && 0 <= b < CellsHeight ==> oldCells[a, b] == cells[a, b]
      {
        for y := 0 to CellsHeight
          invariant forall a, b :: 0 <= a < x && 0 <= b < CellsHeight ==> oldCells[a, b] == cells[a, b]
          invariant forall b :: 0 <= b < y ==> oldCells[x, b] == cells[x, b]
        {
          oldCells[x, y] := cells[x, y];
        }
      }
      GridExtensionality(Snapshot(oldCells), Snapshot(cells));
    }

    /**
     * Applies the rule to one cell: judged by its state in the previous
     * generation, written to the current one, every other cell untouched.
     */
    method SimulateCell(x: int, y: int, neighbors: int)
      requires Valid() && ValidCell(x, y)
      modifies cells
      ensures cells[x, y] == CellUpdate(oldCells[x, y], old(cells[x, y]), neighbors)
      ensures forall a, b :: ValidCell(a, b) && (a != x || b != y) ==> cells[a, b] == old(cells[a, b])
    {
      if oldCells[x, y] {
        if neighbors < 2 || neighbors > 3 {
          cells[x, y] := false;
        }
      } else if neighbors == 3 {
        cells[x, y] := true;
      }
    }

    /**
     * One generation: the previous generation becomes the current one's
     * snapshot and every cell of the current one is the rule applied to
     * that snapshot, whatever the order the cells are visited in.
     */
    method Simulate()
      requires Valid()
      modifies cells, oldCells
      ensures Snapshot(oldCells) == old(Snapshot(cells))
      ensures Snapshot(cells) == Step(old(Snapshot(cells)))
    {
      CopyCells();
      ghost var g := Snapshot(oldCells);
      for x := 0 to CellsWidth
        invariant Snapshot(oldCells) == g
        invariant forall a, b :: 0 <= a < x && 0 <= b < CellsHeight ==> cells[a, b] == Step(g)[a][b]
        invariant forall a, b :: x <= a < CellsWidth && 0 <= b < CellsHeight ==> cells[a, b] == g[a][b]
      {
        for y := 0 to CellsHeight
          invariant Snapshot(oldCells) == g
          invariant forall a, b :: 0 <= a < x && 0 <= b < CellsHeight ==> cells[a, b] == Step(g)[a][b]
          invariant forall b :: 0 <= b < y ==> cells[x, b] == Step(g)[x][b]
          invariant forall a, b :: x <= a < CellsWidth && 0 <= b < CellsHeight && (a != x || y <= b) ==> cells[a, b] == g[a][b]
        {
          var aliveNeighbors := GetAliveNeighbors(x, y);
          SimulateCell(x, y, aliveNeighbors);
        }
      }
      GridExtensionality(Snapshot(cells), Step(g));
    }

    /** Hands the window the frame-rate limit for the current `running` and `ticks`. */
    method UpdateTicks()
      modifies this`frameLimit
      ensures frameLimit == FrameLimit(running, ticks)
    {
      frameLimit := FrameLimit(running, ticks);
    }

    /** The event dispatch of the main loop for one polled event. */
    method HandleEvent(e: Event)
      requires Valid() && Admissible(Model(), e)
      modifies this, cells
      ensures Model() == Apply(old(Model()), e)
    {
      match e {
        case Closed =>
          open := false;
        case MouseButtonPressed(button, x, y) =>
          if !running && button == LeftButton {
            ToggleCellAt(x, y, true);
          }
        case KeyReleased(key) =>
          match key {
            case Space =>
              running := !running;
              UpdateTicks();
            case LeftArrow =>
              ticks := ticks - 1;
              UpdateTicks();
            case RightArrow =>
              ticks := ticks + 1;
              UpdateTicks();
            case OtherKey =>
          }
        case Ignored =>
      }
    }

    /** One iteration of the main loop: handle every polled event, then simulate if running. */
    method RunIteration(events: seq<Event>)
      requires Valid() && AllAdmissible(Model(), events)
      modifies this, cells, oldCells
      ensures Model() == Iteration(old(Model()), events)
    {
      ghost var s0 := Model();
      var i := 0;
      assert events[0..] == events;
      while i < |events|
        invariant 0 <= i <= |events|
        invariant AllAdmissible(Model(), events[i..])
        invariant ApplyAll(Model(), events[i..]) == ApplyAll(s0, events)
      {
        assert events[i..][1..] == events[i + 1..];
        HandleEvent(events[i]);
        i := i + 1;
      }
      if running {
        Simulate();
      }
    }

    /** The main loop over the events polled in successive iterations, while the window is open. */
    method RunLoop(frames: seq<seq<Event>>)
      requires Valid() && RunAdmissible(Model(), frames)
      modifies this, cells, oldCells
      ensures Model() == Run(old(Model()), frames)
    {
      ghost var s0 := Model();
      var k := 0;
      assert frames[0..] == frames;
      while open && k < |frames|
        invariant 0 <= k <= |frames|
        invariant RunAdmissible(Model(), frames[k..])
        invariant Run(Model(), frames[k..]) == Run(s0, frames)
      {
        assert frames[k..][1..] == frames[k + 1..];
        RunIteration(frames[k]);
        k := k + 1;
      }
    }
  }
}
