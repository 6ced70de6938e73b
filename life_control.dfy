/**
 * The control side of the main loop as a state machine over abstract
 * input events: the dispatch of one event, the frame-rate choice of
 * `updateTicks`, one loop iteration (events first, then a generation if
 * running) and a run of iterations while the window is open.
 */
module LifeControl {
  import opened LifeRules

  datatype Button = LeftButton | RightButton | MiddleButton | ExtraButton

  datatype Key = Space | LeftArrow | RightArrow | OtherKey

  /** The events the loop reacts to; every other kind of event is `Ignored`. */
  datatype Event =
    | Closed
    | MouseButtonPressed(button: Button, x: int, y: int)
    | KeyReleased(key: Key)
    | Ignored

  /**
   * The program's global state: both grids, the `running` flag, the
   * `ticks` speed value, the frame-rate limit last handed to the window
   * (0 means no limit) and whether the window is open.
   */
  datatype State = State(cells: Grid, oldCells: Grid, running: bool, ticks: int, frameLimit: nat, open: bool)

  /** The state at start-up: both grids dead, paused, ticks = 1, no limit set yet. */
  const Initial: State := State(Dead, Dead, false, 1, 0, true)

  /** The number of values of a C++ `unsigned int`. */
  const Unsigned32: int := 0x1_0000_0000

  /**
   * The limit `updateTicks` hands to the window: `ticks` while running
   * and NormalFps otherwise, converted to the window's unsigned 32-bit
   * parameter, so a negative `ticks` wraps around to a huge limit.
   */
  function FrameLimit(running: bool, ticks: int): (r: nat)
    ensures r < Unsigned32
    ensures !running ==> r == NormalFps
    ensures running && 0 <= ticks < Unsigned32 ==> r == ticks
    ensures running && -Unsigned32 <= ticks < 0 ==> r == ticks + Unsigned32
  {
    (if running then ticks else NormalFps) % Unsigned32
  }

  /** C++ integer division of `a` by a positive `b`, which truncates toward zero. */
  function TruncDiv(a: int, b: int): int
    requires b > 0
  {
    if a >= 0 then a / b else -((-a) / b)
  }

  /** The cell index `toggleCellAt` uses for one coordinate: divided by the ratio when given in pixels. */
  function CellCoordinate(v: int, pixels: bool, ratio: int): int
    requires ratio > 0
  {
    if pixels then TruncDiv(v, ratio) else v
  }

  /** The cell a left click at pixel (x, y) toggles. */
  function ClickedCell(x: int, y: int): (int, int) {
    (CellCoordinate(x, true, RatioWidth), CellCoordinate(y, true, RatioHeight))
  }

  /**
   * A click anywhere on the 750x750 surface lands on the grid, in the
   * cell whose 6x6 block of pixels contains it.
   */
  lemma ClickOnSurfaceHitsGrid(x: int, y: int)
    requires 0 <= x < ResolutionWidth && 0 <= y < ResolutionHeight
    ensures ValidCell(ClickedCell(x, y).0, ClickedCell(x, y).1)
    ensures RatioWidth * ClickedCell(x, y).0 <= x < RatioWidth * ClickedCell(x, y).0 + RatioWidth
    ensures RatioHeight * ClickedCell(x, y).1 <= y < RatioHeight * ClickedCell(x, y).1 + RatioHeight
  {
  }

  /**
   * Division truncates toward zero, so a click up to 5 pixels left of or
   * above the surface still lands in column 0 or row 0 (a floored
   * division would give -1).
   */
  lemma NearEdgeClickHitsEdgeCell(x: int, y: int)
    requires -RatioWidth < x < RatioWidth && -RatioHeight < y < RatioHeight
    ensures ClickedCell(x, y) == (0, 0)
    ensures x < 0 ==> x / RatioWidth == -1
  {
  }

  /**
   * The program indexes the grid with the clicked cell without a bounds
   * check, so a click that is acted on must land on the grid.
   */
  predicate Admissible(s: State, e: Event) {
    e.MouseButtonPressed? && !s.running && e.button == LeftButton ==>
      ValidCell(ClickedCell(e.x, e.y).0, ClickedCell(e.x, e.y).1)
  }

  /** The effect of one event on the state, as the event dispatch of the main loop has it. */
  function Apply(s: State, e: Event): (r: State)
    requires Admissible(s, e)
    ensures r.cells != s.cells <==> e.MouseButtonPressed? && !s.running && e.button == LeftButton
    ensures e.MouseButtonPressed? && !s.running && e.button == LeftButton ==>
      r.cells == Toggle(s.cells, ClickedCell(e.x, e.y).0, ClickedCell(e.x, e.y).1)
    ensures r.running != s.running <==> e == KeyReleased(Space)
    ensures e == KeyReleased(LeftArrow) ==> r.ticks == s.ticks - 1
    ensures e == KeyReleased(RightArrow) ==> r.ticks == s.ticks + 1
    ensures e != KeyReleased(LeftArrow) && e != KeyReleased(RightArrow) ==> r.ticks == s.ticks
    ensures e.KeyReleased? && e.key != OtherKey ==> r.frameLimit == FrameLimit(r.running, r.ticks)
    ensures !(e.KeyReleased? && e.key != OtherKey) ==> r.frameLimit == s.frameLimit
    ensures r.open <==> s.open && e != Closed
    ensures r.oldCells == s.oldCells
  {
    match e
    case Closed => s.(open := false)
    case MouseButtonPressed(button, x, y) =>
      if !s.running && button == LeftButton then
        var (cx, cy) := ClickedCell(x, y);
        s.(cells := Toggle(s.cells, cx, cy))
      else s
    case KeyReleased(key) =>
      (match key
       case Space => s.(running := !s.running, frameLimit := FrameLimit(!s.running, s.ticks))
       case LeftArrow => s.(ticks := s.ticks - 1, frameLimit := FrameLimit(s.running, s.ticks - 1))
       case RightArrow => s.(ticks := s.ticks + 1, frameLimit := FrameLimit(s.running, s.ticks + 1))
       case OtherKey => s)
    case Ignored => s
  }

  /** Every event of `events`, handled in order from `s`, is admissible when it is handled. */
  predicate AllAdmissible(s: State, events: seq<Event>)
    decreases |events|
  {
    events == [] || (Admissible(s, events[0]) && AllAdmissible(Apply(s, events[0]), events[1..]))
  }

  /** The state after handling `events` in order. */
  function ApplyAll(s: State, events: seq<Event>): State
    requires AllAdmissible(s, events)
    decreases |events|
  {
    if events == [] then s else ApplyAll(Apply(s, events[0]), events[1..])
  }

  /** One iteration of the main loop: handle the events, then simulate once if running. */
  function Iteration(s: State, events: seq<Event>): (r: State)
    requires AllAdmissible(s, events)
  {
    var t := ApplyAll(s, events);
    if t.running then t.(oldCells := t.cells, cells := Step(t.cells)) else t
  }

  /** Every iteration of a run over `frames`, from `s`, handles admissible events only. */
  predicate RunAdmissible(s: State, frames: seq<seq<Event>>)
    decreases |frames|
  {
    !s.open || frames == []
    || (AllAdmissible(s, frames[0]) && RunAdmissible(Iteration(s, frames[0]), frames[1..]))
  }

  /** The main loop: one iteration per element of `frames` while the window stays open. */
  function Run(s: State, frames: seq<seq<Event>>): State
    requires RunAdmissible(s, frames)
    decreases |frames|
  {
    if !s.open || frames == [] then s else Run(Iteration(s, frames[0]), frames[1..])
  }

  /** The number of releases of `key` in `events`. */
  function KeyCount(events: seq<Event>, key: Key): (r: nat)
    ensures r <= |events|
  {
    if events == [] then 0
    else (if events[0] == KeyReleased(key) then 1 else 0) + KeyCount(events[1..], key)
  }

  /**
   * The arrow keys move `ticks` by exactly one per release with no floor
   * and no ceiling: after any events it is the old value plus the Right
   * releases minus the Left releases.
   */
  lemma {:induction false} TicksAfterEvents(s: State, events: seq<Event>)
    requires AllAdmissible(s, events)
    decreases |events|
    ensures ApplyAll(s, events).ticks == s.ticks + KeyCount(events, RightArrow) - KeyCount(events, LeftArrow)
  {
    if events != [] {
      TicksAfterEvents(Apply(s, events[0]), events[1..]);
    }
  }

  /** `running` ends up flipped exactly when Space was released an odd number of times. */
  lemma {:induction false} RunningAfterEvents(s: State, events: seq<Event>)
    requires AllAdmissible(s, events)
    decreases |events|
    ensures ApplyAll(s, events).running <==> (s.running <==> KeyCount(events, Space) % 2 == 0)
  {
    if events != [] {
      RunningAfterEvents(Apply(s, events[0]), events[1..]);
    }
  }

  /** While running and with no Space release, mouse clicks never reach the grid. */
  lemma {:induction false} RunningIgnoresClicks(s: State, events: seq<Event>)
    requires AllAdmissible(s, events)
    requires s.running && KeyCount(events, Space) == 0
    decreases |events|
    ensures ApplyAll(s, events).cells == s.cells
    ensures ApplyAll(s, events).running
  {
    if events != [] {
      RunningIgnoresClicks(Apply(s, events[0]), events[1..]);
    }
  }

  /**
   * An iteration computes a generation exactly when the simulation was
   * running and Space was released an even number of times, or was
   * paused and Space was released an odd number of times.
   */
  lemma IterationStepsIffRunning(s: State, events: seq<Event>)
    requires AllAdmissible(s, events)
    ensures var t := ApplyAll(s, events);
      Iteration(s, events).cells
        == if (s.running <==> KeyCount(events, Space) % 2 == 0) then Step(t.cells) else t.cells
  {
    RunningAfterEvents(s, events);
  }

  /** Two left clicks on the same pixel while paused restore the grid. */
  lemma ClickTwiceRestores(s: State, x: int, y: int)
    requires !s.running && Admissible(s, MouseButtonPressed(LeftButton, x, y))
    ensures var click := MouseButtonPressed(LeftButton, x, y);
      AllAdmissible(s, [click, click]) && ApplyAll(s, [click, click]) == s
  {
    var click := MouseButtonPressed(LeftButton, x, y);
    var (cx, cy) := ClickedCell(x, y);
    ToggleTwice(s.cells, cx, cy);
    var t := Apply(s, click);
    assert t == s.(cells := Toggle(s.cells, cx, cy));
    assert Apply(t, click) == s;
    assert [click, click][1..] == [click] && [click][1..] == [];
    assert ApplyAll(t, [click]) == ApplyAll(Apply(t, click), []);
  }

  /**
   * Starting from the initial state, two Left releases and a Space take
   * `ticks` to -1 and hand the window a wrapped-around limit.
   */
  lemma TicksGoNegative()
    ensures var t := ApplyAll(Initial, [KeyReleased(LeftArrow), KeyReleased(LeftArrow), KeyReleased(Space)]);
      t.ticks == -1 && t.running && t.frameLimit == Unsigned32 - 1
  {
  }

  /** An all-dead board with no clicks stays all-dead through a whole run. */
  lemma {:induction false} DeadBoardStaysDead(s: State, frames: seq<seq<Event>>)
    requires s.cells == Dead
    requires forall k, e :: 0 <= k < |frames| && e in frames[k] ==> !e.MouseButtonPressed?
    requires RunAdmissible(s, frames)
    decreases |frames|
    ensures Run(s, frames).cells == Dead
  {
    if s.open && frames != [] {
      NoClicksKeepGrid(s, frames[0]);
      StepDead();
      DeadBoardStaysDead(Iteration(s, frames[0]), frames[1..]);
    }
  }

  /** Events without mouse presses leave the grid as it was. */
  lemma {:induction false} NoClicksKeepGrid(s: State, events: seq<Event>)
    requires AllAdmissible(s, events)
    requires forall e :: e in events ==> !e.MouseButtonPressed?
    decreases |events|
    ensures ApplyAll(s, events).cells == s.cells
  {
    if events != [] {
      NoClicksKeepGrid(Apply(s, events[0]), events[1..]);
    }
  }

  /** A Closed event closes the window for good: no later event reopens it. */
  lemma {:induction false} ClosedStaysClosed(s: State, events: seq<Event>)
    requires AllAdmissible(s, events)
    requires !s.open || Closed in events
    decreases |events|
    ensures !ApplyAll(s, events).open
  {
    if events != [] {
      assert events == [events[0]] + events[1..];
      ClosedStaysClosed(Apply(s, events[0]), events[1..]);
    }
  }

  /** An iteration whose events include Closed is the last iteration of the loop. */
  lemma ClosedWindowStops(s: State, frames: seq<seq<Event>>)
    requires RunAdmissible(s, frames)
    requires s.open && frames != [] && Closed in frames[0]
    ensures Run(s, frames) == Iteration(s, frames[0])
  {
    ClosedStaysClosed(s, frames[0]);
  }
}
