/**
 * The main menu of menuforgame/src/menu.cpp: six text buttons, a click
 * dispatch that runs the name screen (and awards points) or the high-score
 * window inside the menu's own poll loop, and the exit rules.
 *
 * The high-score file is part of the menu's state, as text. A button's
 * rectangle starts with zero width and height and takes the size of its
 * rendered label after the first frame; the label sizes depend on the font
 * and are a parameter (`sizes`, one (w, h) pair per button).
 */
module Menu {
  import opened Events
  import opened Geometry
  import opened Wrappers
  import opened HighScores
  import NameEntry

  const ButtonCount: int := 6
  const NewGameButton: int := 0
  const HighScoreButton: int := 4
  const ExitButton: int := 5
  const NewGamePoints: int := 10

  const Labels: seq<string> := ["New Game", "Resume Game", "Help", "Map", "Highest Score", "Exit"]

  /** The window's state between events: the high-score file, the buttons'
      `clicked` flags, the loop flag, whether the buttons have been drawn
      (and so measured) yet, and the pointer read at the head of the
      current iteration. */
  datatype MenuState = MenuState(file: string, clicked: seq<bool>, running: bool, measured: bool,
                                 mouseX: int, mouseY: int)

  predicate SizesOk(sizes: seq<(int, int)>)
  {
    |sizes| == ButtonCount
  }

  /** Button `i`: at (270, 300 + 70 i), empty until measured. */
  function ButtonRect(measured: bool, sizes: seq<(int, int)>, i: int): (r: Rect)
    requires SizesOk(sizes) && 0 <= i < ButtonCount
    ensures r.x == 270 && r.y == 300 + 70 * i
    ensures !measured ==> r.w == 0 && r.h == 0
  {
    if measured then Rect(270, 300 + 70 * i, sizes[i].0, sizes[i].1) else Rect(270, 300 + 70 * i, 0, 0)
  }

  /** `pointInRect(mouseX, mouseY, buttons[i].rect)`: all four edges count. */
  predicate Hit(m: MenuState, sizes: seq<(int, int)>, i: int)
    requires SizesOk(sizes) && 0 <= i < ButtonCount
  {
    InsideClosed(ButtonRect(m.measured, sizes, i), m.mouseX, m.mouseY)
  }

  /** Before the first frame a button is a single point: only its corner
      pixel hits it. */
  lemma UnmeasuredButtonIsAPoint(m: MenuState, sizes: seq<(int, int)>, i: int)
    requires SizesOk(sizes) && 0 <= i < ButtonCount && !m.measured
    ensures Hit(m, sizes, i) <==> m.mouseX == 270 && m.mouseY == 300 + 70 * i
  {
  }

  /** The edges of a measured button belong to it. */
  lemma ButtonEdgesHit(m: MenuState, sizes: seq<(int, int)>, i: int)
    requires SizesOk(sizes) && 0 <= i < ButtonCount && m.measured
    requires sizes[i].0 >= 0 && sizes[i].1 >= 0
    ensures m.mouseX == 270 && m.mouseY == 300 + 70 * i ==> Hit(m, sizes, i)
    ensures m.mouseX == 270 + sizes[i].0 && m.mouseY == 300 + 70 * i + sizes[i].1 ==> Hit(m, sizes, i)
    ensures m.mouseX < 270 || m.mouseX > 270 + sizes[i].0 ==> !Hit(m, sizes, i)
  {
  }

  /** The flags after `for (b : buttons) b.clicked = false; buttons[i].clicked = true`. */
  function OnlyClicked(i: int): (c: seq<bool>)
    requires 0 <= i < ButtonCount
    ensures |c| == ButtonCount && c[i]
    ensures forall k :: 0 <= k < ButtonCount && k != i ==> !c[k]
  {
    seq(ButtonCount, k => k == i)
  }

  /** At most one button shows as clicked. */
  predicate ClickedOk(m: MenuState)
  {
    |m.clicked| == ButtonCount
    && forall j, k :: 0 <= j < k < ButtonCount ==> !(m.clicked[j] && m.clicked[k])
  }

  // ---------------------------------------------------------------------
  // The high-score window

  /** The high-score window's loop: quit or Escape clears `open`, which is
      tested after the batch. */
  function ViewLoop(open: bool, events: seq<Event>): Outcome<()>
    decreases |events|
  {
    if events == [] then Waiting
    else
      var e, rest := events[0], events[1..];
      if e.Frame? then (if open then ViewLoop(open, rest) else Returned((), rest))
      else if e.Quit? || e == KeyDown(KeyEscape) then ViewLoop(false, rest)
      else ViewLoop(open, rest)
  }

  predicate NoClose(events: seq<Event>)
  {
    forall k :: 0 <= k < |events| ==> !events[k].Quit? && events[k] != KeyDown(KeyEscape)
  }

  /** The window reads a prefix of the stream, and while open it closes only
      after a quit or an Escape key. */
  lemma {:induction false} ViewLoopCloses(open: bool, events: seq<Event>)
    ensures LeavesSuffix(ViewLoop(open, events), events)
    ensures open && NoClose(events) ==> ViewLoop(open, events) == Waiting
    decreases |events|
  {
    if events != [] {
      var e, rest := events[0], events[1..];
      if !(e.Frame? && !open) {
        var open' := open && !(e.Quit? || e == KeyDown(KeyEscape));
        ViewLoopCloses(open', rest);
        var o := ViewLoop(open', rest);
        if o.Returned? {
          SuffixTrans(o.rest, rest, events);
        }
        if open && NoClose(events) {
          assert NoClose(rest) by {
            forall k | 0 <= k < |rest| ensures !rest[k].Quit? && rest[k] != KeyDown(KeyEscape) {
              assert rest[k] == events[k + 1];
            }
          }
        }
      }
    }
  }

  /** `showHighScores`: the file's records, highest score first, then the
      window's loop. */
  method ShowHighScores(file: string, events: seq<Event>) returns (shown: seq<Record>, o: Outcome<()>)
    ensures Descending(shown) && multiset(shown) == multiset(ReadRecords(file))
    ensures shown == [] <==> ReadRecords(file) == []
    ensures o == ViewLoop(true, events)
  {
    shown := LoadHighScores(file);
    var open := true;
    var i := 0;
    while i < |events|
      invariant 0 <= i <= |events|
      invariant ViewLoop(open, events[i..]) == ViewLoop(true, events)
    {
      var e := events[i];
      assert events[i..][1..] == events[i + 1..];
      if e.Frame? {
        if !open {
          return shown, Returned((), events[i + 1..]);
        }
      } else if e.Quit? || e == KeyDown(KeyEscape) {
        open := false;
      }
      i := i + 1;
    }
    return shown, Waiting;
  }

  // ---------------------------------------------------------------------
  // The click dispatch

  /** What `getPlayerName` returns: the name, or "" after a quit. */
  function NameText(name: Option<string>): string
  {
    match name
    case None => []
    case Some(n) => n
  }

  /** The file after New Game: `updateScore(playerName, 10)` only for a
      non-empty name. */
  function AwardNewGame(file: string, player: string): string
  {
    if player == [] then file else WriteRecords(Upsert(ReadRecords(file), player, NewGamePoints))
  }

  /** Nothing is written without a name; with one, the file that is read
      back next holds the player's records with 10 more points each, or the
      player with 10 points at the end. */
  lemma AwardOnlyWithName(file: string, player: string)
    ensures player == [] ==> AwardNewGame(file, player) == file
    ensures player != [] && Storable(Upsert(ReadRecords(file), player, NewGamePoints)) ==>
              var before := ReadRecords(file);
              var after := ReadRecords(AwardNewGame(file, player));
              && |after| == |before| + (if HasName(before, player) then 0 else 1)
              && (forall k :: 0 <= k < |before| ==>
                    after[k].name == before[k].name
                    && after[k].score == before[k].score + (if before[k].name == player then NewGamePoints else 0))
              && (!HasName(before, player) ==> after[|before|] == Record(player, NewGamePoints))
  {
    if player != [] && Storable(Upsert(ReadRecords(file), player, NewGamePoints)) {
      RoundTrip(Upsert(ReadRecords(file), player, NewGamePoints));
      UpsertSpec(ReadRecords(file), player, NewGamePoints);
    }
  }

  /**
   * The body of `for (i = 0; i < buttons.size(); ++i)` for button `i`: when
   * the pointer is on it, it becomes the one clicked button and its action
   * runs. The name screen and the high-score window read their events from
   * the menu's stream, and the menu goes on with what they leave.
   */
  function ClickOne(m: MenuState, sizes: seq<(int, int)>, i: int, events: seq<Event>): (o: Outcome<MenuState>)
    requires SizesOk(sizes) && 0 <= i < ButtonCount
    ensures LeavesSuffix(o, events)
  {
    if !Hit(m, sizes, i) then Returned(m, events)
    else
      var m1 := m.(clicked := OnlyClicked(i));
      if i == NewGameButton then
        NameEntry.BatchedLeavesSuffix([], true, events);
        match NameEntry.Batched([], true, events)
        case Waiting => Waiting
        case Returned(name, rest) => Returned(m1.(file := AwardNewGame(m1.file, NameText(name))), rest)
      else if i == HighScoreButton then
        ViewLoopCloses(true, events);
        match ViewLoop(true, events)
        case Waiting => Waiting
        case Returned(_, rest) => Returned(m1, rest)
      else if i == ExitButton then Returned(m1.(running := false), events)
      else Returned(m1, events)
  }

  /** Button `i`'s step keeps the pointer and the measurement; only Exit
      lowers the loop flag, only New Game touches the file, and a hit
      leaves exactly that button clicked. */
  lemma ClickOneSpec(m: MenuState, sizes: seq<(int, int)>, i: int, events: seq<Event>)
    requires SizesOk(sizes) && 0 <= i < ButtonCount
    ensures var o := ClickOne(m, sizes, i, events);
            o.Returned? ==>
              && o.value.mouseX == m.mouseX && o.value.mouseY == m.mouseY && o.value.measured == m.measured
              && (o.value.running <==> m.running && !(i == ExitButton && Hit(m, sizes, i)))
              && (o.value.file != m.file ==> i == NewGameButton && Hit(m, sizes, i))
              && o.value.clicked == (if Hit(m, sizes, i) then OnlyClicked(i) else m.clicked)
  {
  }

  /** The whole button loop, from button `i` on: every button under the
      pointer is acted on, in order (there is no `break`). */
  function ClickButtons(m: MenuState, sizes: seq<(int, int)>, i: int, events: seq<Event>): (o: Outcome<MenuState>)
    requires SizesOk(sizes) && 0 <= i <= ButtonCount
    ensures LeavesSuffix(o, events)
    decreases ButtonCount - i
  {
    if i == ButtonCount then Returned(m, events)
    else
      match ClickOne(m, sizes, i, events)
      case Waiting => Waiting
      case Returned(m', rest) =>
        var o := ClickButtons(m', sizes, i + 1, rest);
        if o.Returned? then SuffixTrans(o.rest, rest, events); o else o
  }

  /** Some button from `i` on is under the pointer. */
  predicate AnyHit(m: MenuState, sizes: seq<(int, int)>, i: int)
    requires SizesOk(sizes) && 0 <= i <= ButtonCount
  {
    exists k :: i <= k < ButtonCount && Hit(m, sizes, k)
  }

  /** The dispatch keeps the pointer and the measurement; the loop flag
      falls exactly when Exit is under the pointer; the file changes only
      through New Game, when its button is under the pointer. */
  lemma {:induction false} ClickButtonsSpec(m: MenuState, sizes: seq<(int, int)>, i: int, events: seq<Event>)
    requires SizesOk(sizes) && 0 <= i <= ButtonCount
    ensures var o := ClickButtons(m, sizes, i, events);
            o.Returned? ==>
              && o.value.mouseX == m.mouseX && o.value.mouseY == m.mouseY && o.value.measured == m.measured
              && (o.value.running <==> m.running && !(i <= ExitButton && Hit(m, sizes, ExitButton)))
              && (o.value.file != m.file ==> i <= NewGameButton && Hit(m, sizes, NewGameButton))
    decreases ButtonCount - i
  {
    if i < ButtonCount {
      ClickOneSpec(m, sizes, i, events);
      match ClickOne(m, sizes, i, events) {
        case Waiting =>
        case Returned(m', rest) =>
          ClickButtonsSpec(m', sizes, i + 1, rest);
      }
    }
  }

  /** The clicked flags stay at most one. */
  lemma {:induction false} ClickButtonsClickedOk(m: MenuState, sizes: seq<(int, int)>, i: int, events: seq<Event>)
    requires SizesOk(sizes) && 0 <= i <= ButtonCount && ClickedOk(m)
    ensures var o := ClickButtons(m, sizes, i, events);
            o.Returned? ==> ClickedOk(o.value)
    decreases ButtonCount - i
  {
    if i < ButtonCount {
      ClickOneSpec(m, sizes, i, events);
      match ClickOne(m, sizes, i, events) {
        case Waiting =>
        case Returned(m', rest) =>
          assert ClickedOk(m');
          ClickButtonsClickedOk(m', sizes, i + 1, rest);
      }
    }
  }

  /** The clicked flags change only when some button from `i` on is hit. */
  lemma {:induction false} ClickButtonsClickedHit(m: MenuState, sizes: seq<(int, int)>, i: int, events: seq<Event>)
    requires SizesOk(sizes) && 0 <= i <= ButtonCount
    ensures var o := ClickButtons(m, sizes, i, events);
            o.Returned? && o.value.clicked != m.clicked ==> AnyHit(m, sizes, i)
    decreases ButtonCount - i
  {
    if i < ButtonCount {
      ClickOneSpec(m, sizes, i, events);
      match ClickOne(m, sizes, i, events) {
        case Waiting =>
        case Returned(m', rest) =>
          ClickButtonsClickedHit(m', sizes, i + 1, rest);
          var o := ClickButtons(m', sizes, i + 1, rest);
          if o.Returned? && o.value.clicked != m.clicked && !Hit(m, sizes, i) {
            assert m'.clicked == m.clicked;
            var k :| i + 1 <= k < ButtonCount && Hit(m', sizes, k);
            assert Hit(m, sizes, k);
          }
      }
    }
  }

  // ---------------------------------------------------------------------
  // The menu loop

  /** The menu's `while (running)` loop. The pointer used by the clicks of a
      batch is the one read at the head of the iteration, so at a frame the
      frame's reading becomes current; the frame also draws (and so
      measures) the buttons. */
  function MenuLoop(m: MenuState, sizes: seq<(int, int)>, events: seq<Event>): (o: Outcome<MenuState>)
    requires SizesOk(sizes)
    decreases |events|
  {
    if events == [] then Waiting
    else
      var e, rest := events[0], events[1..];
      if e.Quit? then MenuLoop(m.(running := false), sizes, rest)
      else if e.Frame? then
        var m' := m.(measured := true, mouseX := e.mouseX, mouseY := e.mouseY);
        if m.running then MenuLoop(m', sizes, rest) else Returned(m', rest)
      else if e.MouseDown? then
        match ClickButtons(m, sizes, 0, rest)
        case Waiting => Waiting
        case Returned(m', rest') => MenuLoop(m', sizes, rest')
      else MenuLoop(m, sizes, rest)
  }

  function StartMenu(file: string, mouseX: int, mouseY: int): MenuState
  {
    MenuState(file, seq(ButtonCount, _ => false), true, false, mouseX, mouseY)
  }

  /** The menu reads a prefix of the stream. */
  lemma {:induction false} MenuLoopLeavesSuffix(m: MenuState, sizes: seq<(int, int)>, events: seq<Event>)
    requires SizesOk(sizes)
    ensures LeavesSuffix(MenuLoop(m, sizes, events), events)
    decreases |events|
  {
    if events != [] {
      var e, rest := events[0], events[1..];
      var next: Outcome<MenuState> :=
        if e.Quit? then Returned(m.(running := false), rest)
        else if e.Frame? then Returned(m.(measured := true, mouseX := e.mouseX, mouseY := e.mouseY), rest)
        else if e.MouseDown? then ClickButtons(m, sizes, 0, rest)
        else Returned(m, rest);
      if next.Returned? && !(e.Frame? && !m.running) {
        assert IsSuffix(next.rest, events) by {
          if e.MouseDown? {
            SuffixTrans(next.rest, rest, events);
          }
        }
        MenuLoopLeavesSuffix(next.value, sizes, next.rest);
        var o := MenuLoop(next.value, sizes, next.rest);
        if o.Returned? {
          SuffixTrans(o.rest, next.rest, events);
        }
      }
    }
  }

  /** The menu returns only once the loop flag is down, with at most one
      button clicked. */
  lemma {:induction false} MenuLoopSpec(m: MenuState, sizes: seq<(int, int)>, events: seq<Event>)
    requires SizesOk(sizes) && ClickedOk(m)
    ensures var o := MenuLoop(m, sizes, events);
            o.Returned? ==> !o.value.running && ClickedOk(o.value)
    decreases |events|
  {
    if events != [] {
      var e, rest := events[0], events[1..];
      if e.Quit? {
        MenuLoopSpec(m.(running := false), sizes, rest);
      } else if e.Frame? {
        if m.running {
          MenuLoopSpec(m.(measured := true, mouseX := e.mouseX, mouseY := e.mouseY), sizes, rest);
        }
      } else if e.MouseDown? {
        ClickButtonsSpec(m, sizes, 0, rest);
        ClickButtonsClickedOk(m, sizes, 0, rest);
        match ClickButtons(m, sizes, 0, rest) {
          case Waiting =>
          case Returned(m', rest') =>
            MenuLoopSpec(m', sizes, rest');
        }
      } else {
        MenuLoopSpec(m, sizes, rest);
      }
    }
  }

  /** Closing the window ends the menu at the end of the batch. */
  lemma QuitEndsMenu(m: MenuState, sizes: seq<(int, int)>, t: Ticks, x: int, y: int, rest: seq<Event>)
    requires SizesOk(sizes)
    ensures MenuLoop(m, sizes, [Quit, Frame(t, x, y)] + rest)
            == Returned(m.(running := false, measured := true, mouseX := x, mouseY := y), rest)
  {
    var evs := [Quit, Frame(t, x, y)] + rest;
    assert evs[1..] == [Frame(t, x, y)] + rest;
    assert evs[1..][1..] == rest;
  }

  // ---------------------------------------------------------------------
  // The menu program

  /** One pass of the click handler's button loop, with the name screen,
      the score update or the high-score window it runs. */
  method PressButton(m: MenuState, sizes: seq<(int, int)>, i: int, events: seq<Event>) returns (o: Outcome<MenuState>)
    requires SizesOk(sizes) && 0 <= i < ButtonCount
    ensures o == ClickOne(m, sizes, i, events)
  {
    if !InsideClosed(ButtonRect(m.measured, sizes, i), m.mouseX, m.mouseY) {
      return Returned(m, events);
    }
    var m1 := m.(clicked := OnlyClicked(i));
    if i == NewGameButton {
      var name := NameEntry.ReadNameBatched(events);
      if name.Waiting? {
        return Waiting;
      }
      var player := NameText(name.value);
      if player != [] {
        var newFile := UpdateScore(m1.file, player, NewGamePoints);
        m1 := m1.(file := newFile);
      }
      return Returned(m1, name.rest);
    } else if i == HighScoreButton {
      var _, view := ShowHighScores(m1.file, events);
      if view.Waiting? {
        return Waiting;
      }
      return Returned(m1, view.rest);
    } else if i == ExitButton {
      return Returned(m1.(running := false), events);
    }
    return Returned(m1, events);
  }

  /** The click handler's button loop. */
  method PressButtons(m0: MenuState, sizes: seq<(int, int)>, events: seq<Event>) returns (o: Outcome<MenuState>)
    requires SizesOk(sizes)
    ensures o == ClickButtons(m0, sizes, 0, events)
  {
    var m := m0;
    var evs := events;
    for i := 0 to ButtonCount
      invariant ClickButtons(m, sizes, i, evs) == ClickButtons(m0, sizes, 0, events)
    {
      var step := PressButton(m, sizes, i, evs);
      if step.Waiting? {
        return Waiting;
      }
      m, evs := step.value, step.rest;
    }
    return Returned(m, evs);
  }

  /** `main` of menu.cpp from the point where the window, the background
      and the fonts are ready: the menu loop over the stream. */
  method RunMenu(file: string, sizes: seq<(int, int)>, mouseX: int, mouseY: int, events: seq<Event>)
    returns (o: Outcome<MenuState>)
    requires SizesOk(sizes)
    ensures o == MenuLoop(StartMenu(file, mouseX, mouseY), sizes, events)
    ensures LeavesSuffix(o, events)
    ensures o.Returned? ==> !o.value.running && ClickedOk(o.value)
  {
    var m := StartMenu(file, mouseX, mouseY);
    MenuLoopSpec(m, sizes, events);
    MenuLoopLeavesSuffix(m, sizes, events);
    var evs := events;
    while evs != []
      invariant SizesOk(sizes)
      invariant MenuLoop(m, sizes, evs) == MenuLoop(StartMenu(file, mouseX, mouseY), sizes, events)
      decreases |evs|
    {
      var e := evs[0];
      if e.Quit? {
        m := m.(running := false);
        evs := evs[1..];
      } else if e.Frame? {
        var wasRunning := m.running;
        m := m.(measured := true, mouseX := e.mouseX, mouseY := e.mouseY);
        if !wasRunning {
          return Returned(m, evs[1..]);
        }
        evs := evs[1..];
      } else if e.MouseDown? {
        var click := PressButtons(m, sizes, evs[1..]);
        if click.Waiting? {
          return Waiting;
        }
        m, evs := click.value, click.rest;
      } else {
        evs := evs[1..];
      }
    }
    return Waiting;
  }

  /** `main` of menu.cpp: when either font fails to open the program ends
      before any event is read (None); otherwise the menu loop runs. */
  method MenuProgram(fontsOk: bool, file: string, sizes: seq<(int, int)>, mouseX: int, mouseY: int,
                     events: seq<Event>)
    returns (o: Outcome<Option<MenuState>>)
    requires SizesOk(sizes)
    ensures !fontsOk ==> o == Returned(None, events)
    ensures fontsOk ==>
              var run := MenuLoop(StartMenu(file, mouseX, mouseY), sizes, events);
              && (run.Waiting? ==> o == Waiting)
              && (run.Returned? ==> o == Returned(Some(run.value), run.rest))
    ensures LeavesSuffix(o, events)
    ensures o.Returned? && o.value.Some? ==> !o.value.value.running && ClickedOk(o.value.value)
  {
    if !fontsOk {
      return Returned(None, events);
    }
    var run := RunMenu(file, sizes, mouseX, mouseY, events);
    if run.Waiting? {
      return Waiting;
    }
    return Returned(Some(run.value), run.rest);
  }
}
