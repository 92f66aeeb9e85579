/** The browser session as one explicit state: the live grid, the display
    settings, the run flag with its interval handle, and the saved grids.
    Every control of the page is a function from session to session. */
module Simulator {
  import opened Results
  import opened Grids
  import Life
  import opened SavedGrids

  /** Canvas width in pixels when the page loads. */
  const InitialCanvasWidth: nat := 700

  /** Grid dimension when the page loads. */
  const InitialGridDimensions: nat := 20

  /** The handle of a repeating timer; browsers hand out positive integers,
      so a present handle is always truthy. */
  type TimerId = n: int | n > 0 witness 1

  datatype Session = Session(
    grid: Grid,
    canvasWidth: nat,
    gridDimensions: nat,
    running: bool,
    interval: Option<TimerId>,
    saved: Store)

  /** A saved grid is as square as the grid it was taken from. */
  predicate WellFormed(snap: Snapshot) {
    IsSquare(snap.arrayData) && |snap.arrayData| == snap.dimension
  }

  /** What every control keeps true: the grid is square with the configured
      dimension, the simulation runs exactly when an interval is scheduled,
      and the saved grids have distinct names and square data. */
  predicate Valid(s: Session) {
    && IsSquare(s.grid) && |s.grid| == s.gridDimensions
    && (s.running <==> s.interval.Some?)
    && UniqueNames(s.saved)
    && forall i :: 0 <= i < |s.saved| ==> WellFormed(s.saved[i])
  }

  /** The page at load time: an empty 20x20 grid on a 700-pixel canvas, not
      running, with the saved grids rebuilt from the stored array. */
  function Setup(records: seq<Snapshot>): (s: Session)
    ensures !s.running && s.interval == None
    ensures |s.grid| == InitialGridDimensions && IsSquare(s.grid) && AllDead(s.grid)
    ensures s.canvasWidth == InitialCanvasWidth && s.gridDimensions == InitialGridDimensions
    ensures s.saved == Restore(records) && Keys(s.saved) == Keys(records)
    ensures (forall i :: 0 <= i < |records| ==> WellFormed(records[i])) ==> Valid(s)
  {
    var saved := Restore(records);
    assert forall i :: 0 <= i < |saved| ==> saved[i] in records;
    Session(InitializeConwayData(InitialGridDimensions), InitialCanvasWidth, InitialGridDimensions,
            false, None, saved)
  }

  /** Start: set the run flag, and schedule an interval only if none is
      scheduled yet; `handle` is the one the timer service would return. */
  function BeginTime(s: Session, handle: TimerId): (r: Session)
    ensures r.running && r.interval.Some?
    ensures s.interval.Some? ==> r.interval == s.interval
    ensures r.grid == s.grid && r.saved == s.saved
    ensures r.canvasWidth == s.canvasWidth && r.gridDimensions == s.gridDimensions
    ensures Valid(s) ==> Valid(r)
  {
    var interval := if s.interval.None? then Some(handle) else s.interval;
    s.(running := true, interval := interval)
  }

  /** Stop: clear the run flag and cancel the interval if one is scheduled. */
  function StopTime(s: Session): (r: Session)
    ensures !r.running && r.interval.None?
    ensures r.grid == s.grid && r.saved == s.saved
    ensures r.canvasWidth == s.canvasWidth && r.gridDimensions == s.gridDimensions
    ensures Valid(s) ==> Valid(r)
  {
    var interval := if s.interval.Some? then None else s.interval;
    s.(running := false, interval := interval)
  }

  /** Reset: stop as `StopTime` does, then clear the grid to all dead at the
      configured dimension. */
  function Reset(s: Session): (r: Session)
    ensures !r.running && r.interval.None?
    ensures |r.grid| == s.gridDimensions && IsSquare(r.grid) && AllDead(r.grid)
    ensures r.saved == s.saved && r.gridDimensions == s.gridDimensions && r.canvasWidth == s.canvasWidth
    ensures Valid(s) ==> Valid(r)
  {
    StopTime(s).(grid := InitializeConwayData(s.gridDimensions))
  }

  /** One firing of the interval: the grid moves to its next generation. */
  function Tick(s: Session): (r: Session)
    requires IsSquare(s.grid)
    ensures |r.grid| == |s.grid| && IsSquare(r.grid)
    ensures forall row, col :: 0 <= row < |s.grid| && 0 <= col < |s.grid| && Life.OnEdge(|s.grid|, row, col) ==> !r.grid[row][col]
    ensures forall row, col :: Life.Interior(|s.grid|, row, col) ==>
      (r.grid[row][col] <==> Life.Rule(s.grid[row][col], Life.NeighbourCount(s.grid, row, col)))
    ensures r.running == s.running && r.interval == s.interval && r.saved == s.saved
    ensures r.canvasWidth == s.canvasWidth && r.gridDimensions == s.gridDimensions
    ensures Valid(s) ==> Valid(r)
  {
    s.(grid := Life.Advance(s.grid))
  }

  /** A click on cell (row, col): a no-op while running, otherwise the one
      cell flips. */
  function Click(s: Session, row: int, col: int): (r: Session)
    requires !s.running ==> InRange(s.grid, row, col)
    ensures s.running ==> r == s
    ensures |r.grid| == |s.grid| && forall i :: 0 <= i < |s.grid| ==> |r.grid[i]| == |s.grid[i]|
    ensures !s.running ==> r.grid[row][col] == !s.grid[row][col]
    ensures forall i, j :: 0 <= i < |s.grid| && 0 <= j < |s.grid[i]| && (i != row || j != col) ==> r.grid[i][j] == s.grid[i][j]
    ensures r.saved == s.saved && r.running == s.running && r.interval == s.interval
    ensures r.canvasWidth == s.canvasWidth && r.gridDimensions == s.gridDimensions
    ensures Valid(s) ==> Valid(r)
  {
    s.(grid := FlipTile(s.grid, s.running, row, col))
  }

  /** Save the live grid under `name` with the current width and dimension;
      a refused save leaves the session to the caller unchanged. */
  function Save(s: Session, name: string): (r: Result<Session, SaveError>)
    ensures r.Ok? <==> AddToSaved(s.saved, name, s.grid, s.canvasWidth, s.gridDimensions).Ok?
    ensures r.Err? ==> r.error == AddToSaved(s.saved, name, s.grid, s.canvasWidth, s.gridDimensions).error
    ensures r.Ok? ==> r.value.grid == s.grid && r.value.running == s.running && r.value.interval == s.interval
    ensures r.Ok? ==> r.value.canvasWidth == s.canvasWidth && r.value.gridDimensions == s.gridDimensions
    ensures r.Ok? ==> (|r.value.saved| == |s.saved| + 1
      && r.value.saved[..|s.saved|] == s.saved
      && r.value.saved[|s.saved|] == Snapshot(name, s.grid, s.canvasWidth, s.gridDimensions))
    ensures r.Ok? && Valid(s) ==> Valid(r.value)
  {
    var snap := Snapshot(name, s.grid, s.canvasWidth, s.gridDimensions);
    match AddToSaved(s.saved, name, s.grid, s.canvasWidth, s.gridDimensions)
    case Ok(saved) =>
      AppendKeepsWellFormed(s.saved, snap, saved);
      Ok(s.(saved := saved))
    case Err(e) => Err(e)
  }

  /** Appending a square snapshot to square snapshots keeps them all square. */
  lemma AppendKeepsWellFormed(st: Store, snap: Snapshot, r: Store)
    requires |r| == |st| + 1 && r[..|st|] == st && r[|st|] == snap
    ensures (forall i :: 0 <= i < |st| ==> WellFormed(st[i])) && WellFormed(snap) ==>
      forall i :: 0 <= i < |r| ==> WellFormed(r[i])
  {
    forall i | 0 <= i < |st| ensures r[i] == st[i] {
      assert r[..|st|][i] == r[i];
    }
  }

  /** Load the saved grid `name`: the live grid, canvas width and dimension
      become the saved ones; the run flag and the saved grids are untouched. */
  function LoadGrid(s: Session, name: string): (r: Result<Session, LoadError>)
    ensures r.Err? <==> name !in Keys(s.saved)
    ensures r.Ok? ==> (Find(s.saved, name).Some?
      && r.value.grid == Find(s.saved, name).value.arrayData
      && r.value.canvasWidth == Find(s.saved, name).value.width
      && r.value.gridDimensions == Find(s.saved, name).value.dimension)
    ensures r.Ok? ==> r.value.saved == s.saved && r.value.running == s.running && r.value.interval == s.interval
    ensures r.Ok? && Valid(s) ==> Valid(r.value)
  {
    match Find(s.saved, name)
    case None => Err(NotFound)
    case Some(snap) =>
      assert exists i :: 0 <= i < |s.saved| && s.saved[i] == snap;
      Ok(s.(grid := snap.arrayData, canvasWidth := snap.width, gridDimensions := snap.dimension))
  }

  /** Delete the saved grid `name`; nothing else in the session changes. */
  function DeleteSaved(s: Session, name: string): (r: Session)
    ensures name !in Keys(r.saved)
    ensures forall other :: other != name ==> Find(r.saved, other) == Find(s.saved, other)
    ensures r.grid == s.grid && r.running == s.running && r.interval == s.interval
    ensures r.canvasWidth == s.canvasWidth && r.gridDimensions == s.gridDimensions
    ensures UniqueNames(s.saved) && name in Keys(s.saved) ==>
      r.saved == s.saved[..IndexOf(s.saved, name)] + s.saved[IndexOf(s.saved, name) + 1..]
    ensures name !in Keys(s.saved) ==> r.saved == s.saved
    ensures Valid(s) ==> Valid(r)
  {
    var saved := Delete(s.saved, name);
    assert forall i :: 0 <= i < |saved| ==> saved[i] in s.saved;
    s.(saved := saved)
  }

  // ---------------------------------------------------------------------
  // Properties of the controls

  /** Pressing start twice schedules one interval, the first. */
  lemma BeginTimeIdempotent(s: Session, first: TimerId, second: TimerId)
    ensures BeginTime(BeginTime(s, first), second) == BeginTime(s, first)
  {
  }

  /** Pressing stop twice is the same as pressing it once. */
  lemma StopTimeIdempotent(s: Session)
    ensures StopTime(StopTime(s)) == StopTime(s)
  {
  }

  /** A saved grid is a snapshot: editing the live grid after saving does
      not change what loading brings back. */
  lemma SaveEditLoad(s: Session, name: string, row: int, col: int)
    requires Save(s, name).Ok?
    requires !s.running && InRange(s.grid, row, col)
    ensures LoadGrid(Click(Save(s, name).value, row, col), name).Ok?
    ensures LoadGrid(Click(Save(s, name).value, row, col), name).value.grid == s.grid
  {
    SaveThenFind(s.saved, name, s.grid, s.canvasWidth, s.gridDimensions);
  }
}
