/**
 * The world map shown after "New Game" (src/MapModule.cpp): a 64x64 player
 * walks a world the size of the background texture in 10-pixel steps, three
 * obstacles block it, and a screen-sized camera follows it, clamped to the
 * world. Player, camera and world size are the module's statics; they live
 * on from one visit of the map to the next, so they are the fields of a
 * `World` object here.
 */
module WorldMap {
  import opened Events
  import opened Geometry
  import opened States

  const ScreenW: int := 1024
  const ScreenH: int := 768
  const DefaultWorldW: int := 1600
  const DefaultWorldH: int := 1200
  const Stride: int := 10

  const Obs1: Rect := Rect(200, 80, 100, 80)
  const Obs2: Rect := Rect(450, 80, 100, 80)
  const Obs3: Rect := Rect(720, 80, 100, 80)
  const StartPlayer: Rect := Rect(50, 100, 64, 64)
  const StartCamera: Rect := Rect(0, 0, ScreenW, ScreenH)

  /** The player rectangle touches none of the three obstacles. */
  predicate Clear(p: Rect)
  {
    !Overlaps(p, Obs1) && !Overlaps(p, Obs2) && !Overlaps(p, Obs3)
  }

  /** `canMove(dx, dy)`: the shifted player would be clear. */
  predicate CanMove(p: Rect, dx: int, dy: int)
  {
    Clear(Translate(p, dx, dy))
  }

  lemma StartIsClear()
    ensures Clear(StartPlayer)
  {
  }

  /** The displacement an arrow key asks for; any other key asks for none. */
  function Delta(key: int): (d: (int, int))
    ensures key != KeyArrowLeft && key != KeyArrowRight && key != KeyArrowUp && key != KeyArrowDown
            ==> d == (0, 0)
  {
    if key == KeyArrowLeft then (-Stride, 0)
    else if key == KeyArrowRight then (Stride, 0)
    else if key == KeyArrowUp then (0, -Stride)
    else if key == KeyArrowDown then (0, Stride)
    else (0, 0)
  }

  predicate IsArrow(key: int)
  {
    key == KeyArrowLeft || key == KeyArrowRight || key == KeyArrowUp || key == KeyArrowDown
  }

  /** The player after a key press. */
  function Move(p: Rect, key: int): (q: Rect)
  {
    var (dx, dy) := Delta(key);
    if IsArrow(key) && CanMove(p, dx, dy) then Translate(p, dx, dy) else p
  }

  /** An arrow key moves the player by exactly one step along one axis when
      the destination is clear and leaves it in place otherwise; every other
      key leaves it in place; the player never walks into an obstacle. */
  lemma MoveSpec(p: Rect, key: int)
    ensures var q := Move(p, key);
      && q.w == p.w && q.h == p.h
      && (!IsArrow(key) ==> q == p)
      && (IsArrow(key) && !CanMove(p, Delta(key).0, Delta(key).1) ==> q == p)
      && (IsArrow(key) && CanMove(p, Delta(key).0, Delta(key).1) ==>
            (q.y == p.y && (q.x - p.x == Stride || p.x - q.x == Stride))
            || (q.x == p.x && (q.y - p.y == Stride || p.y - q.y == Stride)))
      && (Clear(p) ==> Clear(q))
  {
  }

  /** C++ `n / 2`: the quotient truncates toward zero. */
  function Half(n: int): (h: int)
    ensures 0 <= n ==> 0 <= 2 * h <= n && n - 2 * h <= 1
    ensures n < 0 ==> n <= 2 * h <= 0 && 2 * h - n <= 1
  {
    if 0 <= n then n / 2 else -((-n) / 2)
  }

  /** `std::max(lo, std::min(v, hi))`. */
  function Clamp(v: int, lo: int, hi: int): int
  {
    if hi < v then (if lo < hi then hi else lo) else if v < lo then lo else v
  }

  /** `updateCamera`: centre the camera on the player, then clamp it to the
      world. */
  function CameraFor(p: Rect, cam: Rect, worldW: int, worldH: int): (c: Rect)
  {
    var cx := p.x + Half(p.w) - Half(cam.w);
    var cy := p.y + Half(p.h) - Half(cam.h);
    Rect(Clamp(cx, 0, worldW - cam.w), Clamp(cy, 0, worldH - cam.h), cam.w, cam.h)
  }

  /** The camera never leaves the top-left of the world, stays inside it
      whenever the world is at least as large as the camera, keeps its size,
      and is centred on the player whenever no clamping was needed. */
  lemma CameraSpec(p: Rect, cam: Rect, worldW: int, worldH: int)
    ensures var c := CameraFor(p, cam, worldW, worldH);
      && c.w == cam.w && c.h == cam.h
      && 0 <= c.x && 0 <= c.y
      && (cam.w <= worldW ==> c.x + c.w <= worldW)
      && (cam.h <= worldH ==> c.y + c.h <= worldH)
      && (0 <= p.x + Half(p.w) - Half(cam.w) <= worldW - cam.w ==> c.x + Half(cam.w) == p.x + Half(p.w))
      && (0 <= p.y + Half(p.h) - Half(cam.h) <= worldH - cam.h ==> c.y + Half(cam.h) == p.y + Half(p.h))
  {
  }

  /** Where the camera stands once it has been updated, whatever it was. */
  lemma CameraIdempotent(p: Rect, cam: Rect, worldW: int, worldH: int)
    ensures var c := CameraFor(p, cam, worldW, worldH);
      CameraFor(p, c, worldW, worldH) == c
  {
  }

  /** What the map loop changes. */
  datatype View = View(player: Rect, camera: Rect)

  /** One event other than a quit: a key moves the player, a frame (the
      end of a poll batch) updates the camera, a mouse click hit-tests the
      obstacles but launches nothing. */
  function Step(v: View, worldW: int, worldH: int, e: Event): View
  {
    if e.KeyDown? then v.(player := Move(v.player, e.key))
    else if e.Frame? then v.(camera := CameraFor(v.player, v.camera, worldW, worldH))
    else v
  }

  /** The loop of `MapModule::run`: it ends at the first frame after a
      quit. */
  function MapLoop(v: View, worldW: int, worldH: int, quit: bool, events: seq<Event>): (o: Outcome<View>)
    ensures LeavesSuffix(o, events)
    decreases |events|
  {
    if events == [] then Waiting
    else
      var e := events[0];
      var rest := events[1..];
      if e.Quit? then MapLoop(v, worldW, worldH, true, rest)
      else
        var v' := Step(v, worldW, worldH, e);
        if e.Frame? && quit then Returned(v', rest) else MapLoop(v', worldW, worldH, quit, rest)
  }

  /** `MapModule::run` over values: EXIT at once without its media,
      otherwise the map loop from `v`, and EXIT when that ends. */
  function MapRun(loaded: bool, v: View, worldW: int, worldH: int, events: seq<Event>): (o: Outcome<GameState>)
    ensures LeavesSuffix(o, events)
    ensures o.Returned? ==> o.value == Exit
    ensures !loaded ==> o == Returned(Exit, events)
    ensures loaded ==> (o.Waiting? <==> MapLoop(v, worldW, worldH, false, events).Waiting?)
  {
    if !loaded then Returned(Exit, events)
    else
      var run := MapLoop(v, worldW, worldH, false, events);
      if run.Waiting? then Waiting else Returned(Exit, run.rest)
  }

  /** The view a loop hands back: a clear player stays clear, the player
      and camera keep their sizes, the camera was updated last and so lies
      in the world; without a quit the loop never ends. */
  lemma {:induction false} MapLoopSpec(v: View, worldW: int, worldH: int, quit: bool, events: seq<Event>)
    ensures var o := MapLoop(v, worldW, worldH, quit, events);
      && (o.Returned? ==>
            && o.value.player.w == v.player.w && o.value.player.h == v.player.h
            && (Clear(v.player) ==> Clear(o.value.player))
            && o.value.camera == CameraFor(o.value.player, o.value.camera, worldW, worldH)
            && o.value.camera.w == v.camera.w && o.value.camera.h == v.camera.h
            && 0 <= o.value.camera.x && 0 <= o.value.camera.y
            && (v.camera.w <= worldW ==> o.value.camera.x + o.value.camera.w <= worldW)
            && (v.camera.h <= worldH ==> o.value.camera.y + o.value.camera.h <= worldH))
      && (!quit && NoQuit(events) ==> o == Waiting)
    decreases |events|
  {
    if events != [] {
      var e := events[0];
      var rest := events[1..];
      assert !quit && NoQuit(events) ==> NoQuit(rest) by {
        if NoQuit(events) {
          forall i | 0 <= i < |rest| ensures !rest[i].Quit? {
            assert rest[i] == events[i + 1];
          }
        }
      }
      if e.Quit? {
        MapLoopSpec(v, worldW, worldH, true, rest);
      } else {
        if e.KeyDown? {
          MoveSpec(v.player, e.key);
        }
        CameraSpec(v.player, v.camera, worldW, worldH);
        CameraIdempotent(v.player, v.camera, worldW, worldH);
        MapLoopSpec(Step(v, worldW, worldH, e), worldW, worldH, quit, rest);
      }
    }
  }

  /** The events with every mouse click taken out. */
  function Unclicked(events: seq<Event>): (r: seq<Event>)
    ensures |r| <= |events|
  {
    if events == [] then []
    else if events[0].MouseDown? then Unclicked(events[1..])
    else [events[0]] + Unclicked(events[1..])
  }

  /** Mouse clicks change nothing: with them taken out the loop ends in the
      same way with the same player and camera. */
  lemma {:induction false} ClicksIgnored(v: View, worldW: int, worldH: int, quit: bool, events: seq<Event>)
    ensures MapLoop(v, worldW, worldH, quit, events).Returned?
            <==> MapLoop(v, worldW, worldH, quit, Unclicked(events)).Returned?
    ensures MapLoop(v, worldW, worldH, quit, events).Returned? ==>
            MapLoop(v, worldW, worldH, quit, events).value == MapLoop(v, worldW, worldH, quit, Unclicked(events)).value
    decreases |events|
  {
    if events != [] {
      var e := events[0];
      var rest := events[1..];
      var u := Unclicked(events);
      if !e.MouseDown? {
        assert u[0] == e && u[1..] == Unclicked(rest);
      }
      if e.Quit? {
        ClicksIgnored(v, worldW, worldH, true, rest);
      } else {
        ClicksIgnored(Step(v, worldW, worldH, e), worldW, worldH, quit, rest);
      }
    }
  }

  /** The statics of src/MapModule.cpp. */
  class World {
    var player: Rect
    var camera: Rect
    var worldW: int
    var worldH: int
    var bgLoaded: bool
    var spriteLoaded: bool

    /** Player clear of the obstacles, both rectangles at their fixed sizes. */
    predicate Valid()
      reads this
    {
      && Clear(player)
      && player.w == StartPlayer.w && player.h == StartPlayer.h
      && camera.w == ScreenW && camera.h == ScreenH
    }

    constructor ()
      ensures player == StartPlayer && camera == StartCamera
      ensures worldW == DefaultWorldW && worldH == DefaultWorldH
      ensures !bgLoaded && !spriteLoaded
      ensures Valid()
    {
      player := StartPlayer;
      camera := StartCamera;
      worldW := DefaultWorldW;
      worldH := DefaultWorldH;
      bgLoaded := false;
      spriteLoaded := false;
      StartIsClear();
    }

    /** `initMedia`: nothing to do once both textures are loaded; otherwise
        both are loaded again, and a background that loads sets the world to
        its size. The textures' success and size are parameters. */
    method InitMedia(bgOk: bool, spriteOk: bool, texW: int, texH: int) returns (ok: bool)
      modifies this
      ensures old(bgLoaded && spriteLoaded) ==> ok && unchanged(this)
      ensures !old(bgLoaded && spriteLoaded) ==>
        && bgLoaded == bgOk && spriteLoaded == spriteOk
        && worldW == (if bgOk then texW else old(worldW))
        && worldH == (if bgOk then texH else old(worldH))
        && ok == (bgOk && spriteOk)
      ensures player == old(player) && camera == old(camera)
      ensures ok == (bgLoaded && spriteLoaded)
    {
      if bgLoaded && spriteLoaded {
        return true;
      }
      bgLoaded := bgOk;
      spriteLoaded := spriteOk;
      if bgLoaded {
        worldW, worldH := texW, texH;
      }
      ok := bgLoaded && spriteLoaded;
    }

    /** The key switch of the event loop. */
    method KeyPress(key: int)
      modifies this
      ensures player == Move(old(player), key)
      ensures camera == old(camera) && worldW == old(worldW) && worldH == old(worldH)
      ensures bgLoaded == old(bgLoaded) && spriteLoaded == old(spriteLoaded)
    {
      if key == KeyArrowLeft {
        if CanMove(player, -Stride, 0) {
          player := player.(x := player.x - Stride);
        }
      } else if key == KeyArrowRight {
        if CanMove(player, Stride, 0) {
          player := player.(x := player.x + Stride);
        }
      } else if key == KeyArrowUp {
        if CanMove(player, 0, -Stride) {
          player := player.(y := player.y - Stride);
        }
      } else if key == KeyArrowDown {
        if CanMove(player, 0, Stride) {
          player := player.(y := player.y + Stride);
        }
      }
    }

    /** `updateCamera`, one coordinate at a time. */
    method UpdateCamera()
      modifies this
      ensures camera == CameraFor(old(player), old(camera), worldW, worldH)
      ensures player == old(player) && worldW == old(worldW) && worldH == old(worldH)
      ensures bgLoaded == old(bgLoaded) && spriteLoaded == old(spriteLoaded)
    {
      var x := player.x + Half(player.w) - Half(camera.w);
      var y := player.y + Half(player.h) - Half(camera.h);
      if worldW - camera.w < x {
        x := worldW - camera.w;
      }
      if x < 0 {
        x := 0;
      }
      if worldH - camera.h < y {
        y := worldH - camera.h;
      }
      if y < 0 {
        y := 0;
      }
      camera := camera.(x := x, y := y);
    }

    /** One polled event other than a quit, or the frame tail. */
    method Handle(e: Event)
      requires !e.Quit?
      modifies this
      ensures View(player, camera) == Step(old(View(player, camera)), worldW, worldH, e)
      ensures worldW == old(worldW) && worldH == old(worldH)
      ensures bgLoaded == old(bgLoaded) && spriteLoaded == old(spriteLoaded)
      ensures old(Valid()) ==> Valid()
    {
      if e.KeyDown? {
        MoveSpec(player, e.key);
        KeyPress(e.key);
      } else if e.Frame? {
        CameraSpec(player, camera, worldW, worldH);
        UpdateCamera();
      }
    }

    /** `MapModule::run`: EXIT at once when the media cannot be loaded;
        otherwise the map loop, and EXIT when it ends. */
    method Run(bgOk: bool, spriteOk: bool, texW: int, texH: int, events: seq<Event>)
      returns (o: Outcome<GameState>)
      modifies this
      ensures !(bgLoaded && spriteLoaded) ==> o == Returned(Exit, events)
      ensures bgLoaded && spriteLoaded ==>
        var run := MapLoop(View(old(player), old(camera)), worldW, worldH, false, events);
        && (run.Waiting? ==> o == Waiting)
        && (run.Returned? ==> o == Returned(Exit, run.rest) && View(player, camera) == run.value)
      ensures o.Returned? ==> o.value == Exit
      ensures old(Valid()) ==> Valid()
      ensures !old(bgLoaded && spriteLoaded) ==> bgLoaded == bgOk && spriteLoaded == spriteOk
      ensures old(bgLoaded && spriteLoaded) ==> bgLoaded && spriteLoaded
      ensures worldW == (if !old(bgLoaded && spriteLoaded) && bgOk then texW else old(worldW))
      ensures worldH == (if !old(bgLoaded && spriteLoaded) && bgOk then texH else old(worldH))
      ensures !(bgLoaded && spriteLoaded) ==> player == old(player) && camera == old(camera)
      ensures o == MapRun(bgLoaded && spriteLoaded, View(old(player), old(camera)), worldW, worldH, events)
    {
      var ok := InitMedia(bgOk, spriteOk, texW, texH);
      if !ok {
        return Returned(Exit, events);
      }
      ghost var spec := MapLoop(View(player, camera), worldW, worldH, false, events);
      ghost var valid := Valid();
      ghost var w0, h0 := worldW, worldH;
      var quit := false;
      var i := 0;
      while i < |events|
        invariant 0 <= i <= |events|
        invariant bgLoaded && spriteLoaded && worldW == w0 && worldH == h0
        invariant MapLoop(View(player, camera), worldW, worldH, quit, events[i..]) == spec
        invariant valid ==> Valid()
      {
        var e := events[i];
        assert events[i..][1..] == events[i + 1..];
        if e.Quit? {
          quit := true;
        } else {
          Handle(e);
          if e.Frame? && quit {
            return Returned(Exit, events[i + 1..]);
          }
        }
        i := i + 1;
      }
      return Waiting;
    }
  }
}
