/**
 * The start screen of the combined game (src/InterfaceModule.cpp): four
 * buttons whose hover state follows the pointer read at the head of each
 * iteration, and a left click that acts on the hovered button and ends the
 * screen after the batch. The value returned is the next `GameState`.
 */
module InterfaceModule {
  import opened Events
  import opened Geometry
  import opened Wrappers
  import opened States
  import NameEntry
  import Leaderboard

  const ButtonCount: int := 4
  const Labels: seq<string> := ["New Game", "Map", "Leaderboard", "Exit"]

  /** Button `k`: 300 x 60 at (100, 200 + 80 k). */
  function ButtonRect(k: int): Rect
  {
    Rect(100, 200 + 80 * k, 300, 60)
  }

  /** `isHovered`: the pointer is on the button, edges included. */
  predicate Hovered(k: int, mx: int, my: int)
  {
    InsideClosed(ButtonRect(k), mx, my)
  }

  /** The buttons are apart, so at most one is hovered at a time. */
  lemma HoverUnique(j: int, k: int, mx: int, my: int)
    requires 0 <= j < k < ButtonCount
    ensures !(Hovered(j, mx, my) && Hovered(k, mx, my))
  {
  }

  /** The first hovered button from `i` on, as the button loop with its
      `continue` and `break` finds it. */
  function FirstHovered(mx: int, my: int, i: nat): (r: Option<nat>)
    requires i <= ButtonCount
    ensures r.Some? ==> i <= r.value < ButtonCount && Hovered(r.value, mx, my)
    ensures r.Some? ==> forall j :: i <= j < r.value ==> !Hovered(j, mx, my)
    ensures r.None? ==> forall j :: i <= j < ButtonCount ==> !Hovered(j, mx, my)
    decreases ButtonCount - i
  {
    if i == ButtonCount then None
    else if Hovered(i, mx, my) then Some(i)
    else FirstHovered(mx, my, i + 1)
  }

  /** The next state a button caption chooses, given whether the name screen
      returned a name and the state chosen so far. */
  function Choose(caption: string, named: bool, next: GameState): GameState
  {
    if caption == "New Game" then (if named then Map else next)
    else if caption == "Map" then Map
    else if caption == "Exit" then Exit
    else next
  }

  /** Only New Game (with a name) and Map choose MAP; only Exit chooses
      EXIT; Leaderboard, and New Game without a name, keep the choice. */
  lemma ChooseSpec(caption: string, named: bool, next: GameState)
    requires caption in Labels
    ensures var n := Choose(caption, named, next);
            && (n == Map <==> (caption == "New Game" && named) || caption == "Map" || (n == next && next == Map))
            && (n != next ==> caption != "Leaderboard" && !(caption == "New Game" && !named))
            && (caption == "Exit" ==> n == Exit)
  {
  }

  /** The screen's state between events: the chosen next state, the loop
      flag, and the pointer read at the head of the iteration. */
  datatype Ui = Ui(next: GameState, loop: bool, mouseX: int, mouseY: int)

  function StartUi(mouseX: int, mouseY: int): Ui
  {
    Ui(Exit, true, mouseX, mouseY)
  }

  /** `getPlayerName(ren, name)`: false before any event when the font does
      not open. */
  function NameScreen(fontOk: bool, events: seq<Event>): Outcome<Option<string>>
  {
    if fontOk then NameEntry.UntilEnter([], events) else Returned(None, events)
  }

  /** The click's action on button `k`; the name screen and the leaderboard
      read their events from the same stream. Any action ends the loop. */
  function Press(ui: Ui, k: int, fontOk: bool, events: seq<Event>): (o: Outcome<Ui>)
    requires 0 <= k < ButtonCount
    ensures LeavesSuffix(o, events)
  {
    var caption := Labels[k];
    if caption == "New Game" then
      NameEntry.UntilEnterNonEmpty([], events);
      match NameScreen(fontOk, events)
      case Waiting => Waiting
      case Returned(name, rest) => Returned(ui.(next := Choose(caption, name.Some?, ui.next), loop := false), rest)
    else if caption == "Leaderboard" then
      Leaderboard.ScreenLoopSpec(true, events);
      match Leaderboard.ScreenLoop(true, events)
      case Waiting => Waiting
      case Returned(_, rest) => Returned(ui.(next := Choose(caption, false, ui.next), loop := false), rest)
    else Returned(ui.(next := Choose(caption, false, ui.next), loop := false), events)
  }

  /** An action always ends the loop and never moves the pointer; New Game
      leads to MAP exactly when the name screen returns a name (or MAP was
      already chosen), and never without a font. */
  lemma PressSpec(ui: Ui, k: int, fontOk: bool, events: seq<Event>)
    requires 0 <= k < ButtonCount
    ensures var o := Press(ui, k, fontOk, events);
            o.Returned? ==>
              && !o.value.loop && o.value.mouseX == ui.mouseX && o.value.mouseY == ui.mouseY
              && (Labels[k] == "New Game" ==>
                    (o.value.next == Map <==> NameScreen(fontOk, events).value.Some? || ui.next == Map))
              && (Labels[k] == "New Game" && !fontOk ==> o.value.next == ui.next)
              && (Labels[k] == "Leaderboard" ==> o.value.next == ui.next)
  {
  }

  /** A left click: the first hovered button acts; with none hovered,
      nothing happens. */
  function LeftClick(ui: Ui, fontOk: bool, events: seq<Event>): (o: Outcome<Ui>)
    ensures LeavesSuffix(o, events)
  {
    match FirstHovered(ui.mouseX, ui.mouseY, 0)
    case None => Returned(ui, events)
    case Some(k) => Press(ui, k, fontOk, events)
  }

  /** The screen's `while (loop)`. */
  function InterfaceLoop(ui: Ui, fontOk: bool, events: seq<Event>): Outcome<GameState>
    decreases |events|
  {
    if events == [] then Waiting
    else
      var e, rest := events[0], events[1..];
      if e.Quit? then InterfaceLoop(ui.(next := Exit, loop := false), fontOk, rest)
      else if e.Frame? then
        if ui.loop then InterfaceLoop(ui.(mouseX := e.mouseX, mouseY := e.mouseY), fontOk, rest)
        else Returned(ui.next, rest)
      else if e.MouseDown? && e.button == ButtonLeft then
        match LeftClick(ui, fontOk, rest)
        case Waiting => Waiting
        case Returned(ui', rest') => InterfaceLoop(ui', fontOk, rest')
      else InterfaceLoop(ui, fontOk, rest)
  }

  predicate Chosen(s: GameState)
  {
    s == Map || s == Exit
  }

  /** The screen reads a prefix of the stream and returns only MAP or EXIT. */
  lemma {:induction false} InterfaceLoopSpec(ui: Ui, fontOk: bool, events: seq<Event>)
    requires Chosen(ui.next)
    ensures var o := InterfaceLoop(ui, fontOk, events);
            LeavesSuffix(o, events) && (o.Returned? ==> Chosen(o.value))
    decreases |events|
  {
    if events != [] {
      var e, rest := events[0], events[1..];
      if e.Quit? {
        InterfaceLoopSpec(ui.(next := Exit, loop := false), fontOk, rest);
        var o := InterfaceLoop(ui.(next := Exit, loop := false), fontOk, rest);
        if o.Returned? {
          SuffixTrans(o.rest, rest, events);
        }
      } else if e.Frame? {
        if ui.loop {
          InterfaceLoopSpec(ui.(mouseX := e.mouseX, mouseY := e.mouseY), fontOk, rest);
          var o := InterfaceLoop(ui.(mouseX := e.mouseX, mouseY := e.mouseY), fontOk, rest);
          if o.Returned? {
            SuffixTrans(o.rest, rest, events);
          }
        }
      } else if e.MouseDown? && e.button == ButtonLeft {
        match LeftClick(ui, fontOk, rest) {
          case Waiting =>
          case Returned(ui', rest') =>
            assert Chosen(ui'.next);
            InterfaceLoopSpec(ui', fontOk, rest');
            var o := InterfaceLoop(ui', fontOk, rest');
            SuffixTrans(rest', rest, events);
            if o.Returned? {
              SuffixTrans(o.rest, rest', events);
            }
        }
      } else {
        InterfaceLoopSpec(ui, fontOk, rest);
        var o := InterfaceLoop(ui, fontOk, rest);
        if o.Returned? {
          SuffixTrans(o.rest, rest, events);
        }
      }
    }
  }

  /** Closing the window chooses EXIT at the end of the batch. */
  lemma QuitChoosesExit(ui: Ui, fontOk: bool, t: Ticks, x: int, y: int, rest: seq<Event>)
    ensures InterfaceLoop(ui, fontOk, [Quit, Frame(t, x, y)] + rest) == Returned(Exit, rest)
  {
    var evs := [Quit, Frame(t, x, y)] + rest;
    assert evs[1..] == [Frame(t, x, y)] + rest;
    assert evs[1..][1..] == rest;
  }

  /** A click that is not a left click, or that hits no button, changes
      nothing and does not end the loop. */
  lemma MissedClickIgnored(ui: Ui, fontOk: bool, b: int, x: int, y: int, rest: seq<Event>)
    requires b != ButtonLeft || forall k :: 0 <= k < ButtonCount ==> !Hovered(k, ui.mouseX, ui.mouseY)
    ensures InterfaceLoop(ui, fontOk, [MouseDown(b, x, y)] + rest) == InterfaceLoop(ui, fontOk, rest)
  {
    assert ([MouseDown(b, x, y)] + rest)[1..] == rest;
    if b == ButtonLeft {
      assert LeftClick(ui, fontOk, rest) == Returned(ui, rest);
    }
  }

  // ---------------------------------------------------------------------
  // The screen's loop

  /** One hovered button's action, with the leaderboard file loaded into
      the board before its screen runs. */
  method PressButton(ui: Ui, k: int, fontOk: bool, boardFile: string, board: Leaderboard.Board,
                     events: seq<Event>) returns (o: Outcome<Ui>)
    requires 0 <= k < ButtonCount
    modifies board
    ensures o == Press(ui, k, fontOk, events)
    ensures board.entries == old(board.entries) || board.entries == Leaderboard.Collect(Leaderboard.Lines(boardFile))
  {
    var caption := Labels[k];
    if caption == "New Game" {
      var name := NameEntry.GetPlayerName(fontOk, events);
      if name.Waiting? {
        return Waiting;
      }
      var next := if name.value.Some? then Map else ui.next;
      return Returned(ui.(next := next, loop := false), name.rest);
    } else if caption == "Map" {
      return Returned(ui.(next := Map, loop := false), events);
    } else if caption == "Leaderboard" {
      board.LoadFromFile(boardFile);
      var shown := Leaderboard.Run(events);
      if shown.Waiting? {
        return Waiting;
      }
      return Returned(ui.(loop := false), shown.rest);
    } else {
      return Returned(ui.(next := Exit, loop := false), events);
    }
  }

  /** The button loop of a left click: the first hovered button acts and
      the loop `break`s. */
  method Click(ui: Ui, hovered: seq<bool>, fontOk: bool, boardFile: string, board: Leaderboard.Board,
               events: seq<Event>) returns (o: Outcome<Ui>)
    requires hovered == seq(ButtonCount, k => Hovered(k, ui.mouseX, ui.mouseY))
    modifies board
    ensures o == LeftClick(ui, fontOk, events)
    ensures board.entries == old(board.entries) || board.entries == Leaderboard.Collect(Leaderboard.Lines(boardFile))
  {
    var k := 0;
    while k < ButtonCount && !hovered[k]
      invariant 0 <= k <= ButtonCount
      invariant FirstHovered(ui.mouseX, ui.mouseY, 0) == FirstHovered(ui.mouseX, ui.mouseY, k)
    {
      k := k + 1;
    }
    if k == ButtonCount {
      return Returned(ui, events);
    }
    o := PressButton(ui, k, fontOk, boardFile, board, events);
  }

  /** `InterfaceModule::run`: the hover flags are recomputed from the pointer
      at the head of every iteration; the value is `next`. */
  method Run(fontOk: bool, boardFile: string, board: Leaderboard.Board, mouseX: int, mouseY: int,
             events: seq<Event>) returns (o: Outcome<GameState>)
    modifies board
    ensures o == InterfaceLoop(StartUi(mouseX, mouseY), fontOk, events)
    ensures LeavesSuffix(o, events)
    ensures o.Returned? ==> o.value == Map || o.value == Exit
    ensures board.entries == old(board.entries) || board.entries == Leaderboard.Collect(Leaderboard.Lines(boardFile))
  {
    InterfaceLoopSpec(StartUi(mouseX, mouseY), fontOk, events);
    var ui := StartUi(mouseX, mouseY);
    var hovered := seq(ButtonCount, k => Hovered(k, mouseX, mouseY));
    var evs := events;
    while evs != []
      invariant InterfaceLoop(ui, fontOk, evs) == InterfaceLoop(StartUi(mouseX, mouseY), fontOk, events)
      invariant hovered == seq(ButtonCount, k => Hovered(k, ui.mouseX, ui.mouseY))
      invariant board.entries == old(board.entries) || board.entries == Leaderboard.Collect(Leaderboard.Lines(boardFile))
      decreases |evs|
    {
      var e := evs[0];
      if e.Quit? {
        ui := ui.(next := Exit, loop := false);
        evs := evs[1..];
      } else if e.Frame? {
        if !ui.loop {
          return Returned(ui.next, evs[1..]);
        }
        ui := ui.(mouseX := e.mouseX, mouseY := e.mouseY);
        hovered := seq(ButtonCount, k => Hovered(k, e.mouseX, e.mouseY));
        evs := evs[1..];
      } else if e.MouseDown? && e.button == ButtonLeft {
        var clicked := Click(ui, hovered, fontOk, boardFile, board, evs[1..]);
        if clicked.Waiting? {
          return Waiting;
        }
        ui, evs := clicked.value, clicked.rest;
      } else {
        evs := evs[1..];
      }
    }
    return Waiting;
  }
}
