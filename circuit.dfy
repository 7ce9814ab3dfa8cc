/**
 * The circuit maze (muliplewindow/circuitpattern/main1.cpp): a 6x6 grid of
 * 100-pixel tiles over which the player must click the ten cells of a fixed
 * path, in order, within 60 seconds. A correct click marks its tile visited
 * and advances the cursor; the tenth wins; any other click on the grid, or
 * the time running out first, loses.
 *
 * Cells are `Vector2i{a, b}` values. The click test builds `{row, col}`, so
 * in the path `a` is the row and `b` the column.
 */
module Circuit {
  import opened Events
  import opened Wrappers

  const TileSize: int := 100
  const Rows: int := 6
  const Cols: int := 6
  const TimeLimitMs: int := 60000

  datatype Vec2 = Vec2(x: int, y: int)

  const ValidPath: seq<Vec2> :=
    [Vec2(0, 0), Vec2(0, 1), Vec2(0, 2), Vec2(0, 3), Vec2(1, 2),
     Vec2(2, 2), Vec2(3, 2), Vec2(3, 3), Vec2(3, 4), Vec2(3, 5)]

  /** The labelled components, in the order of the path they spell out. */
  datatype Component = Component(pos: Vec2, symbol: string)

  const Components: seq<Component> :=
    [Component(Vec2(0, 0), "S"), Component(Vec2(0, 1), "R"), Component(Vec2(0, 2), "W"),
     Component(Vec2(0, 3), "D"), Component(Vec2(1, 2), "W"), Component(Vec2(2, 2), "C"),
     Component(Vec2(3, 2), "B"), Component(Vec2(3, 3), "W"), Component(Vec2(3, 4), "W"),
     Component(Vec2(3, 5), "E")]

  /** `isValidStep(index, pos)`. The C++ compares an `int` with the vector's
      unsigned size, so a negative index is never valid. */
  function IsValidStep(index: int, pos: Vec2): bool
  {
    0 <= index < |ValidPath| && ValidPath[index] == pos
  }

  /** No cell occurs twice on the path. */
  lemma PathCellsDistinct()
    ensures forall i, j :: 0 <= i < j < |ValidPath| ==> ValidPath[i] != ValidPath[j]
  {
  }

  /** Each step of the path is valid for exactly one cell, and that cell lies
      on the grid. */
  lemma ValidStepUnique(index: int, p: Vec2, q: Vec2)
    requires IsValidStep(index, p)
    ensures IsValidStep(index, q) <==> q == p
    ensures 0 <= p.x < Rows && 0 <= p.y < Cols
  {
  }

  /** The first `k + 1` cells of the path are the first `k` and the k-th,
      which is not among them. */
  lemma PrefixStep(k: int)
    requires 0 <= k < |ValidPath|
    ensures ValidPath[..k + 1] == ValidPath[..k] + [ValidPath[k]]
    ensures ValidPath[k] !in ValidPath[..k]
  {
    PathCellsDistinct();
    assert ValidPath[..k + 1] == ValidPath[..k] + [ValidPath[k]];
  }

  /** C++ `int` division by a positive divisor: truncated toward zero. */
  function CDiv(a: int, b: int): (q: int)
    requires b > 0
    ensures a >= 0 ==> q * b <= a < (q + 1) * b
    ensures -b < a < 0 ==> q == 0
  {
    if a >= 0 then a / b else -((-a) / b)
  }

  /** The cursor and the two outcome flags of a game, as values. */
  datatype Game = Game(pathIndex: int, won: bool, lost: bool)

  const StartGame := Game(0, false, false)

  /** The cursor is on the path, the game is won exactly at its end, and it
      is never both won and lost. */
  predicate GameInv(g: Game)
  {
    0 <= g.pathIndex <= |ValidPath| && (g.won <==> g.pathIndex == |ValidPath|) && !(g.won && g.lost)
  }

  /** One press at pixel (px, py) in the poll loop. */
  function ClickGame(g: Game, px: int, py: int): (h: Game)
    requires GameInv(g)
    ensures GameInv(h)
    ensures g.pathIndex <= h.pathIndex <= g.pathIndex + 1
    ensures (g.won ==> h.won) && (g.lost ==> h.lost)
    ensures h.pathIndex == g.pathIndex + 1 <==>
              !g.won && !g.lost && IsValidStep(g.pathIndex, Vec2(CDiv(py, TileSize), CDiv(px, TileSize)))
  {
    var col, row := CDiv(px, TileSize), CDiv(py, TileSize);
    if g.won || g.lost || !(col < Cols && row < Rows) then g
    else if IsValidStep(g.pathIndex, Vec2(row, col)) then
      Game(g.pathIndex + 1, g.pathIndex + 1 == |ValidPath|, false)
    else g.(lost := true)
  }

  /** The head of the frame loop, `elapsedMs` after the start. */
  function TickGame(g: Game, elapsedMs: int): (h: Game)
    requires GameInv(g)
    ensures GameInv(h) && h.pathIndex == g.pathIndex && h.won == g.won
    ensures h.lost <==> g.lost || (elapsedMs >= TimeLimitMs && !g.won)
  {
    if elapsedMs >= TimeLimitMs && !g.won then g.(lost := true) else g
  }

  /**
   * `while (window.isOpen()) { tick; while (window.pollEvent(event)) {...};
   * draw }` over a stream. `sf::Event::Closed` calls `window.close()`, after
   * which `pollEvent` reports no more events, so the rest of that batch is
   * never handled and the loop ends at the batch's end. A frame's ticks are
   * the clock reading checked at the head of the next iteration.
   */
  function MazeLoop(g: Game, open: bool, events: seq<Event>): Outcome<Game>
    requires GameInv(g)
    decreases |events|
  {
    if events == [] then Waiting
    else
      var e, rest := events[0], events[1..];
      if e.Frame? then (if open then MazeLoop(TickGame(g, e.ticks), open, rest) else Returned(g, rest))
      else if !open then MazeLoop(g, open, rest)
      else if e.Quit? then MazeLoop(g, false, rest)
      else if e.MouseDown? then MazeLoop(ClickGame(g, e.x, e.y), open, rest)
      else MazeLoop(g, open, rest)
  }

  /** The loop reads a prefix of the stream, keeps the invariant, never
      lowers the cursor and never undoes a win or a loss. */
  lemma {:induction false} MazeLoopInv(g: Game, open: bool, events: seq<Event>)
    requires GameInv(g)
    ensures var o := MazeLoop(g, open, events);
            && LeavesSuffix(o, events)
            && (o.Returned? ==> GameInv(o.value) && g.pathIndex <= o.value.pathIndex
                                && (g.won ==> o.value.won) && (g.lost ==> o.value.lost))
    decreases |events|
  {
    if events != [] {
      var e, rest := events[0], events[1..];
      if !(e.Frame? && !open) {
        var g' := if e.Frame? && open then TickGame(g, e.ticks)
                  else if open && e.MouseDown? then ClickGame(g, e.x, e.y) else g;
        var open' := open && !e.Quit?;
        assert MazeLoop(g, open, events) == MazeLoop(g', open', rest);
        MazeLoopInv(g', open', rest);
        var o := MazeLoop(g', open', rest);
        if o.Returned? {
          SuffixTrans(o.rest, rest, events);
        }
      }
    }
  }

  /** Once the window is closed nothing changes the game: the loop returns
      it as it was at the next frame, and waits exactly when no frame
      comes. */
  lemma {:induction false} ClosedIgnoresInput(g: Game, events: seq<Event>)
    requires GameInv(g)
    ensures var o := MazeLoop(g, false, events);
            && (o.Returned? ==> o.value == g)
            && (o.Waiting? <==> forall k :: 0 <= k < |events| ==> !events[k].Frame?)
    decreases |events|
  {
    if events != [] && !events[0].Frame? {
      var rest := events[1..];
      ClosedIgnoresInput(g, rest);
      if forall k :: 0 <= k < |rest| ==> !rest[k].Frame? {
        forall k | 0 <= k < |events| ensures !events[k].Frame? {
          if k > 0 {
            assert events[k] == rest[k - 1];
          }
        }
      } else {
        var k :| 0 <= k < |rest| && rest[k].Frame?;
        assert events[k + 1].Frame?;
      }
    }
  }

  /** A correct click, then the window closing, then a wrong click in the
      same batch: the wrong click is never polled, so the game ends neither
      won nor lost, with one step done. */
  lemma ClickAfterCloseIgnored(t: Ticks)
    ensures MazeLoop(StartGame, true, [MouseDown(1, 50, 50), Quit, MouseDown(1, 350, 350), Frame(t, 0, 0)])
            == Returned(Game(1, false, false), [])
  {
    var g1 := ClickGame(StartGame, 50, 50);
    assert g1 == Game(1, false, false) by { assert IsValidStep(0, Vec2(0, 0)); }
    var evs := [MouseDown(1, 50, 50), Quit, MouseDown(1, 350, 350), Frame(t, 0, 0)];
    assert evs[1..][1..][1..][1..] == [];
    assert MazeLoop(StartGame, true, evs) == MazeLoop(g1, true, evs[1..]);
    assert MazeLoop(g1, true, evs[1..]) == MazeLoop(g1, false, evs[1..][1..]);
    assert MazeLoop(g1, false, evs[1..][1..]) == MazeLoop(g1, false, evs[1..][1..][1..]);
  }

  /** The same clicks with the window closed after both: the wrong click is
      polled and loses. */
  lemma ClickBeforeCloseCounts(t: Ticks)
    ensures MazeLoop(StartGame, true, [MouseDown(1, 50, 50), MouseDown(1, 350, 350), Quit, Frame(t, 0, 0)])
            == Returned(Game(1, false, true), [])
  {
    var g1 := ClickGame(StartGame, 50, 50);
    assert g1 == Game(1, false, false) by { assert IsValidStep(0, Vec2(0, 0)); }
    var g2 := ClickGame(g1, 350, 350);
    assert g2 == Game(1, false, true) by { assert !IsValidStep(1, Vec2(3, 3)); }
    var evs := [MouseDown(1, 50, 50), MouseDown(1, 350, 350), Quit, Frame(t, 0, 0)];
    assert evs[1..][1..][1..][1..] == [];
    assert MazeLoop(StartGame, true, evs) == MazeLoop(g1, true, evs[1..]);
    assert MazeLoop(g1, true, evs[1..]) == MazeLoop(g2, true, evs[1..][1..]);
    assert MazeLoop(g2, true, evs[1..][1..]) == MazeLoop(g2, false, evs[1..][1..][1..]);
  }

  /** The state of a game in progress, with the visited flags of the grid's
      tiles (`grid[row][col].visited`). */
  class Maze {
    var visited: array2<bool>
    var pathIndex: int
    var won: bool
    var lost: bool

    /** The visited tiles are exactly the first `pathIndex` cells of the
        path; the game is won exactly when the cursor reached the end; it is
        never both won and lost. */
    ghost predicate Valid()
      reads this, visited
    {
      && visited.Length0 == Rows && visited.Length1 == Cols
      && 0 <= pathIndex <= |ValidPath|
      && (won <==> pathIndex == |ValidPath|)
      && !(won && lost)
      && forall r, c :: 0 <= r < Rows && 0 <= c < Cols ==>
           (visited[r, c] <==> Vec2(r, c) in ValidPath[..pathIndex])
    }

    constructor ()
      ensures Valid() && fresh(visited)
      ensures pathIndex == 0 && !won && !lost
    {
      visited := new bool[Rows, Cols]((r, c) => false);
      pathIndex := 0;
      won := false;
      lost := false;
    }

    /** The game's cursor and flags as a value. */
    function State(): Game
      reads this
    {
      Game(pathIndex, won, lost)
    }

    /** A correct click: the tile is marked and the cursor advances. */
    method Advance(row: int, col: int)
      requires Valid() && !won && !lost && IsValidStep(pathIndex, Vec2(row, col))
      modifies this, visited
      ensures Valid() && visited == old(visited)
      ensures pathIndex == old(pathIndex) + 1 && won == (pathIndex == |ValidPath|) && !lost
      ensures visited[row, col]
      ensures forall r, c :: 0 <= r < Rows && 0 <= c < Cols && (r, c) != (row, col) ==>
                visited[r, c] == old(visited[r, c])
    {
      PrefixStep(pathIndex);
      visited[row, col] := true;
      pathIndex := pathIndex + 1;
      if pathIndex == |ValidPath| {
        won := true;
      }
    }

    /** A mouse press at pixel (px, py). */
    method Click(px: int, py: int)
      requires Valid()
      modifies this, visited
      ensures Valid() && visited == old(visited)
      ensures var col, row := CDiv(px, TileSize), CDiv(py, TileSize);
              if old(won) || old(lost) || !(col < Cols && row < Rows) then
                pathIndex == old(pathIndex) && won == old(won) && lost == old(lost)
                && unchanged(visited)
              else if IsValidStep(old(pathIndex), Vec2(row, col)) then
                pathIndex == old(pathIndex) + 1 && won == (pathIndex == |ValidPath|) && !lost
                && visited[row, col]
                && forall r, c :: 0 <= r < Rows && 0 <= c < Cols && (r, c) != (row, col) ==>
                     visited[r, c] == old(visited[r, c])
              else
                pathIndex == old(pathIndex) && !won && lost && unchanged(visited)
    ensures State() == ClickGame(old(State()), px, py)
    {
      if won || lost {
        return;
      }
      var col := CDiv(px, TileSize);
      var row := CDiv(py, TileSize);
      if col < Cols && row < Rows {
        if IsValidStep(pathIndex, Vec2(row, col)) {
          Advance(row, col);
        } else {
          lost := true;
        }
      }
    }

    /** The head of the frame loop: out of time and not yet won loses. */
    method Tick(elapsedMs: int)
      requires Valid()
      modifies this`lost
      ensures Valid()
      ensures lost == (old(lost) || (elapsedMs >= TimeLimitMs && !won))
      ensures State() == TickGame(old(State()), elapsedMs)
    {
      if elapsedMs >= TimeLimitMs && !won {
        lost := true;
      }
    }

    /**
     * The window loop: it computes `MazeLoop` from the current game, and on
     * close reports whether the game was won and whether it was lost.
     */
    method Run(events: seq<Event>) returns (o: Outcome<(bool, bool)>)
      requires Valid()
      modifies this, visited
      ensures Valid() && visited == old(visited)
      ensures var spec := MazeLoop(old(State()), true, events);
              && (o.Waiting? <==> spec.Waiting?)
              && (o.Returned? ==> spec.value == State() && o == Returned((won, lost), spec.rest))
      ensures old(pathIndex) <= pathIndex
      ensures old(won) ==> won
      ensures old(lost) ==> lost
      ensures o.Returned? ==> IsSuffix(o.rest, events)
    {
      ghost var g0 := State();
      MazeLoopInv(g0, true, events);
      var open := true;
      var i := 0;
      while i < |events|
        invariant 0 <= i <= |events|
        invariant Valid() && visited == old(visited)
        invariant old(pathIndex) <= pathIndex
        invariant old(won) ==> won
        invariant old(lost) ==> lost
        invariant MazeLoop(State(), open, events[i..]) == MazeLoop(g0, true, events)
      {
        assert events[i..][1..] == events[i + 1..];
        match events[i] {
          case Frame(ticks, _, _) =>
            if !open {
              return Returned((won, lost), events[i + 1..]);
            }
            Tick(ticks);
          case Quit =>
            open := false;
          case MouseDown(_, px, py) =>
            if open {
              Click(px, py);
            }
          case _ =>
        }
        i := i + 1;
      }
      return Waiting;
    }
  }

  /** `main` of main1.cpp: a font or background that fails to load ends
      the program before any event is read (None); otherwise a fresh game
      runs in the window loop. */
  method CircuitProgram(fontOk: bool, backgroundOk: bool, events: seq<Event>)
    returns (o: Outcome<Option<(bool, bool)>>)
    ensures !(fontOk && backgroundOk) ==> o == Returned(None, events)
    ensures fontOk && backgroundOk ==>
              var run := MazeLoop(StartGame, true, events);
              && (run.Waiting? ==> o == Waiting)
              && (run.Returned? ==> o == Returned(Some((run.value.won, run.value.lost)), run.rest))
  {
    if !fontOk || !backgroundOk {
      return Returned(None, events);
    }
    var m := new Maze();
    var run := m.Run(events);
    if run.Waiting? {
      return Waiting;
    }
    return Returned(Some(run.value), run.rest);
  }

  /** The pixel at the centre of a cell given as (row, col). */
  function CentreX(cell: Vec2): int { cell.y * TileSize + TileSize / 2 }
  function CentreY(cell: Vec2): int { cell.x * TileSize + TileSize / 2 }

  /** Where the C++ draws a component's label: `grid[c.y][c.x]`, i.e. row
      `c.y`, column `c.x` -- the transpose of the cell the click test
      expects. */
  function LabelCellAsWritten(c: Component): (cell: Vec2)
    ensures cell.x == c.pos.y && cell.y == c.pos.x
  {
    Vec2(c.pos.y, c.pos.x)
  }

  /** Label placement with row and column the way the click test reads them. */
  function LabelCell(c: Component): (cell: Vec2)
    ensures cell.x == c.pos.x && cell.y == c.pos.y
  {
    c.pos
  }

  /** As written, a player who clicks the start tile and then the tile
      labelled "R" loses at the second click. */
  lemma LabelsMisleadAsWritten()
    ensures Components[1].symbol == "R"
    ensures IsValidStep(0, LabelCellAsWritten(Components[0]))
    ensures !IsValidStep(1, LabelCellAsWritten(Components[1]))
  {
  }

  /** With the corrected placement, the k-th labelled tile is exactly the
      cell the k-th click must hit. */
  lemma LabelsSpellPath()
    ensures |Components| == |ValidPath|
    ensures forall k :: 0 <= k < |Components| ==> IsValidStep(k, LabelCell(Components[k]))
  {
  }

  /** Clicking the centre of the "S" tile and then of the "R" tile, where
      the C++ draws them, loses. */
  method FollowLabelsAsWritten() returns (m: Maze)
    ensures fresh(m) && m.Valid() && m.lost && !m.won && m.pathIndex == 1
  {
    m := new Maze();
    var s := LabelCellAsWritten(Components[0]);
    m.Click(CentreX(s), CentreY(s));
    var r := LabelCellAsWritten(Components[1]);
    m.Click(CentreX(r), CentreY(r));
  }

  /** Clicking the centres of the labelled tiles in order, with the
      corrected placement, wins. */
  method FollowLabels() returns (m: Maze)
    ensures fresh(m) && m.Valid() && m.won && !m.lost
  {
    m := new Maze();
    LabelsSpellPath();
    var k := 0;
    while k < |Components|
      invariant 0 <= k <= |Components|
      invariant fresh(m) && fresh(m.visited) && m.Valid()
      invariant m.pathIndex == k && !m.lost
    {
      var cell := LabelCell(Components[k]);
      assert IsValidStep(k, cell);
      m.Click(CentreX(cell), CentreY(cell));
      k := k + 1;
    }
  }
}
