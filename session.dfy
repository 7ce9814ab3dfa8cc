/**
 * The combined game's `main` (src/main.cpp): one `GameState` variable, a
 * loop that runs the screen the state names and takes the state that
 * screen returns, until the state is EXIT. Only the interface and the map
 * are dispatched; every other state goes straight to EXIT.
 */
module Session {
  import opened Events
  import opened States
  import InterfaceModule
  import Leaderboard
  import WorldMap

  /** A state a dispatch of `s` can lead to, given what the two dispatched
      screens can return: the interface returns MAP or EXIT, the map EXIT,
      and every other state is replaced by EXIT. EXIT is never dispatched. */
  predicate Follows(s: GameState, t: GameState)
  {
    if s == Exit then false
    else if s == Interface then t == Map || t == Exit
    else t == Exit
  }

  /** The number of dispatches at most left before EXIT. */
  function Rank(s: GameState): (r: nat)
    ensures r == 0 <==> s == Exit
  {
    if s == Exit then 0 else if s == Interface then 2 else 1
  }

  /** A run of the dispatch loop: each state follows the one before it. */
  predicate Chain(trace: seq<GameState>)
  {
    && |trace| >= 1
    && forall i :: 0 <= i < |trace| - 1 ==> Follows(trace[i], trace[i + 1])
  }

  /** Every dispatch lowers the rank, so a chain is at most one longer
      than its first state's rank, and EXIT can only be its last state. */
  lemma {:induction false} ChainIsShort(trace: seq<GameState>)
    requires Chain(trace)
    ensures |trace| <= Rank(trace[0]) + 1
    ensures forall i :: 0 <= i < |trace| - 1 ==> trace[i] != Exit
    decreases |trace|
  {
    if |trace| > 1 {
      var tail := trace[1..];
      assert Follows(trace[0], trace[1]);
      assert Chain(tail) by {
        forall i | 0 <= i < |tail| - 1 ensures Follows(tail[i], tail[i + 1]) {
          assert Follows(trace[i + 1], trace[i + 2]);
        }
      }
      ChainIsShort(tail);
      forall i | 0 <= i < |trace| - 1 ensures trace[i] != Exit {
        if i > 0 {
          assert trace[i] == tail[i - 1];
        }
      }
    }
  }

  /** A session that starts at the interface sees at most three states. */
  lemma SessionIsShort(trace: seq<GameState>)
    requires Chain(trace) && trace[0] == Interface
    ensures |trace| <= 3
  {
    ChainIsShort(trace);
  }

  /** The map's statics before their first use: the initial view, the
      default world size and no media loaded. */
  predicate Pristine(world: WorldMap.World)
    reads world
  {
    && world.player == WorldMap.StartPlayer && world.camera == WorldMap.StartCamera
    && world.worldW == WorldMap.DefaultWorldW && world.worldH == WorldMap.DefaultWorldH
    && !world.bgLoaded && !world.spriteLoaded
  }

  /** The map screen run on statics as first created: the media load
      when both textures do, and the world takes the background's size. */
  function FirstMap(bgOk: bool, spriteOk: bool, texW: int, texH: int, events: seq<Event>)
    : (o: Outcome<GameState>)
    ensures LeavesSuffix(o, events) && (o.Returned? ==> o.value == Exit)
    ensures !(bgOk && spriteOk) ==> o == Returned(Exit, events)
  {
    WorldMap.MapRun(bgOk && spriteOk, WorldMap.View(WorldMap.StartPlayer, WorldMap.StartCamera),
                    if bgOk then texW else WorldMap.DefaultWorldW,
                    if bgOk then texH else WorldMap.DefaultWorldH, events)
  }

  /** A whole session over values: the start screen, and when it chooses
      MAP the map screen with its statics as first created, on what is left
      of the stream. The value lists the states the variable took. */
  function SessionRun(fontOk: bool, mouseX: int, mouseY: int,
                      bgOk: bool, spriteOk: bool, texW: int, texH: int, events: seq<Event>)
    : (o: Outcome<seq<GameState>>)
    ensures LeavesSuffix(o, events)
    ensures o.Returned? ==>
      && Chain(o.value) && o.value[0] == Interface && o.value[|o.value| - 1] == Exit
      && 2 <= |o.value| <= 3
  {
    var first := InterfaceModule.InterfaceLoop(InterfaceModule.StartUi(mouseX, mouseY), fontOk, events);
    InterfaceModule.InterfaceLoopSpec(InterfaceModule.StartUi(mouseX, mouseY), fontOk, events);
    if first.Waiting? then Waiting
    else if first.value == Exit then Returned([Interface, Exit], first.rest)
    else
      var m := FirstMap(bgOk, spriteOk, texW, texH, first.rest);
      if m.Waiting? then Waiting
      else
        SuffixTrans(m.rest, first.rest, events);
        Returned([Interface, Map, Exit], m.rest)
  }

  /** What the program is given: the font, the pointer at the start
      screen and the map's two textures with the background's size. */
  datatype Setup = Setup(fontOk: bool, mouseX: int, mouseY: int,
                         bgOk: bool, spriteOk: bool, texW: int, texH: int)

  /** The screen `state` names, run on the remaining stream, while every
      screen is still dispatched for the first time. */
  function Screen(state: GameState, c: Setup, events: seq<Event>): (r: Outcome<GameState>)
    requires state != Exit
    ensures LeavesSuffix(r, events)
    ensures r.Returned? ==> Follows(state, r.value)
  {
    if state == Interface then
      InterfaceModule.InterfaceLoopSpec(InterfaceModule.StartUi(c.mouseX, c.mouseY), c.fontOk, events);
      InterfaceModule.InterfaceLoop(InterfaceModule.StartUi(c.mouseX, c.mouseY), c.fontOk, events)
    else if state == Map then FirstMap(c.bgOk, c.spriteOk, c.texW, c.texH, events)
    else Returned(Exit, events)
  }

  /** The rest of the state loop from `state`, with `trace` the states so
      far. */
  function Continue(state: GameState, trace: seq<GameState>, c: Setup, events: seq<Event>)
    : Outcome<seq<GameState>>
    decreases Rank(state)
  {
    if state == Exit then Returned(trace, events)
    else
      var r := Screen(state, c, events);
      if r.Waiting? then Waiting else Continue(r.value, trace + [r.value], c, r.rest)
  }

  /** The state loop from INTERFACE is the session. */
  lemma ContinueIsSession(c: Setup, events: seq<Event>)
    ensures Continue(Interface, [Interface], c, events)
         == SessionRun(c.fontOk, c.mouseX, c.mouseY, c.bgOk, c.spriteOk, c.texW, c.texH, events)
  {
    var first := Screen(Interface, c, events);
    if first.Returned? {
      assert [Interface] + [first.value] == [Interface, first.value];
      if first.value == Map {
        var m := Screen(Map, c, first.rest);
        if m.Returned? {
          assert m.value == Exit;
          assert [Interface, Map] + [Exit] == [Interface, Map, Exit];
        }
      }
    }
  }

  /** The session's first step is the start screen: it waits when that
      screen waits, and follows its choice. */
  lemma SessionRunSteps(c: Setup, events: seq<Event>)
    ensures var first := InterfaceModule.InterfaceLoop(InterfaceModule.StartUi(c.mouseX, c.mouseY), c.fontOk, events);
            var o := SessionRun(c.fontOk, c.mouseX, c.mouseY, c.bgOk, c.spriteOk, c.texW, c.texH, events);
      && (first.Waiting? ==> o == Waiting)
      && (first.Returned? && o.Returned? ==> o.value[1] == first.value)
      && (first.Returned? && first.value == Exit ==> o == Returned([Interface, Exit], first.rest))
  {
    var first := Screen(Interface, c, events);
    if first.Returned? && first.value != Exit {
      assert first.value == Map;
      var m := FirstMap(c.bgOk, c.spriteOk, c.texW, c.texH, first.rest);
      assert m.Returned? ==> [Interface, Map, Exit][1] == Map;
    }
  }

  /** The `switch` of `main`: run the screen `state` names. */
  method Dispatch(state: GameState, fontOk: bool, boardFile: string, board: Leaderboard.Board,
                  mouseX: int, mouseY: int, world: WorldMap.World,
                  bgOk: bool, spriteOk: bool, texW: int, texH: int, events: seq<Event>)
    returns (r: Outcome<GameState>)
    requires state != Exit
    modifies board, world
    ensures LeavesSuffix(r, events)
    ensures r.Returned? ==> Follows(state, r.value)
    ensures state == Interface ==> r == InterfaceModule.InterfaceLoop(InterfaceModule.StartUi(mouseX, mouseY), fontOk, events)
    ensures state == Map ==>
              r == WorldMap.MapRun(old(world.bgLoaded && world.spriteLoaded) || (bgOk && spriteOk),
                                   WorldMap.View(old(world.player), old(world.camera)),
                                   world.worldW, world.worldH, events)
    ensures state != Interface && state != Map ==> r == Returned(Exit, events)
    ensures state != Map ==> unchanged(world)
    ensures state == Map && !old(world.bgLoaded && world.spriteLoaded) ==>
              world.worldW == (if bgOk then texW else old(world.worldW))
              && world.worldH == (if bgOk then texH else old(world.worldH))
  {
    if state == Interface {
      r := InterfaceModule.Run(fontOk, boardFile, board, mouseX, mouseY, events);
    } else if state == Map {
      r := world.Run(bgOk, spriteOk, texW, texH, events);
    } else {
      r := Returned(Exit, events);
    }
  }

  /** The state loop of `main`, with the leaderboard's and the map's
      statics created once for the whole program. The value is the list of
      states the variable took, INTERFACE first and EXIT last; the first
      dispatch is the interface's own loop. The pointer position at the
      start of the interface, the font and the map's textures are
      parameters. */
  method Play(fontOk: bool, boardFile: string, mouseX: int, mouseY: int,
              bgOk: bool, spriteOk: bool, texW: int, texH: int, events: seq<Event>)
    returns (o: Outcome<seq<GameState>>)
    ensures LeavesSuffix(o, events)
    ensures o.Returned? ==>
      && Chain(o.value) && o.value[0] == Interface && o.value[|o.value| - 1] == Exit
      && 2 <= |o.value| <= 3
    ensures var first := InterfaceModule.InterfaceLoop(InterfaceModule.StartUi(mouseX, mouseY), fontOk, events);
      && (first.Waiting? ==> o == Waiting)
      && (first.Returned? && o.Returned? ==> o.value[1] == first.value)
      && (first.Returned? && first.value == Exit ==> o == Returned([Interface, Exit], first.rest))
    ensures o == SessionRun(fontOk, mouseX, mouseY, bgOk, spriteOk, texW, texH, events)
  {
    var board := new Leaderboard.Board();
    var world := new WorldMap.World();
    ghost var c := Setup(fontOk, mouseX, mouseY, bgOk, spriteOk, texW, texH);
    ContinueIsSession(c, events);
    SessionRunSteps(c, events);
    var state := Interface;
    var trace := [Interface];
    var rest := events;
    while state != Exit
      invariant state != Exit ==> Pristine(world)
      invariant Continue(state, trace, c, rest) == Continue(Interface, [Interface], c, events)
      decreases Rank(state)
    {
      var r := Dispatch(state, fontOk, boardFile, board, mouseX, mouseY, world, bgOk, spriteOk, texW, texH, rest);
      assert r == Screen(state, c, rest);
      if r.Waiting? {
        return Waiting;
      }
      state, rest := r.value, r.rest;
      trace := trace + [state];
    }
    return Returned(trace, rest);
  }
}
