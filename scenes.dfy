/**
 * The image switcher (muliplewindow/multiple/multi_scene.cpp): five scene
 * images are loaded, keys 1 to 5 pick a scene, and a change of scene is
 * shown through a fade whose overlay alpha counts down from 255 to 0 in
 * steps of 15. Image loading is a parameter (which loads succeed); drawing
 * is left out, and each fade is recorded as the scene it fades to.
 */
module Scenes {
  import opened Events
  import opened Wrappers

  const ImagePaths: seq<string> := ["scene1.png", "scene2.png", "scene3.png", "scene4.png", "scene5.png"]
  const AlphaStep: int := 15

  /** `fadeTransition`: the alpha values its loop draws the overlay with. */
  method FadeTransition() returns (alphas: seq<int>)
    ensures |alphas| == 18
    ensures alphas[0] == 255 && alphas[|alphas| - 1] == 0
    ensures forall i :: 0 <= i < |alphas| ==> alphas[i] == 255 - AlphaStep * i
    ensures forall i :: 0 <= i < |alphas| ==> 0 <= alphas[i] <= 255
    ensures forall i :: 0 < i < |alphas| ==> alphas[i] == alphas[i - 1] - AlphaStep
  {
    alphas := [];
    var alpha := 255;
    while alpha >= 0
      invariant -AlphaStep <= alpha <= 255 && (255 - alpha) % AlphaStep == 0
      invariant |alphas| == (255 - alpha) / AlphaStep
      invariant forall i :: 0 <= i < |alphas| ==> alphas[i] == 255 - AlphaStep * i
      decreases alpha
    {
      alphas := alphas + [alpha];
      alpha := alpha - AlphaStep;
    }
  }

  /** The scene a key asks for, given the current scene and the number of
      scenes loaded: key 1 the first, keys 2 to 5 the second to fifth when
      that many are loaded, anything else the current one. */
  function Select(current: int, key: int, count: int): int
  {
    if key == Key1 then 0
    else if key == Key2 && count > 1 then 1
    else if key == Key3 && count > 2 then 2
    else if key == Key4 && count > 3 then 3
    else if key == Key5 && count > 4 then 4
    else current
  }

  /** A selection stays among the loaded scenes; it is the key's scene
      exactly when that scene is loaded, and the current one otherwise. */
  lemma SelectSpec(current: int, key: int, count: int)
    requires 0 <= current < count
    ensures 0 <= Select(current, key, count) < count
    ensures key == Key1 ==> Select(current, key, count) == 0
    ensures key == Key2 ==> Select(current, key, count) == (if count > 1 then 1 else current)
    ensures key == Key3 ==> Select(current, key, count) == (if count > 2 then 2 else current)
    ensures key == Key4 ==> Select(current, key, count) == (if count > 3 then 3 else current)
    ensures key == Key5 ==> Select(current, key, count) == (if count > 4 then 4 else current)
    ensures !(Key1 <= key <= Key5) ==> Select(current, key, count) == current
  {
  }

  /** The key handler's `newScene` computation, one `if` per key. */
  method NewScene(current: int, key: int, count: int) returns (n: int)
    ensures n == Select(current, key, count)
  {
    n := current;
    if key == Key1 {
      n := 0;
    }
    if key == Key2 && count > 1 {
      n := 1;
    }
    if key == Key3 && count > 2 {
      n := 2;
    }
    if key == Key4 && count > 3 {
      n := 3;
    }
    if key == Key5 && count > 4 {
      n := 4;
    }
  }

  /** The scene shown when the loop ends and the scenes faded to, in order. */
  datatype Shown = Shown(scene: int, fades: seq<int>)

  /** The main loop: a quit ends the loop at the end of its poll batch; a
      key that selects another scene fades to it and makes it current. */
  function SceneLoop(current: int, fades: seq<int>, running: bool, count: int, events: seq<Event>): (o: Outcome<Shown>)
    ensures LeavesSuffix(o, events)
    decreases |events|
  {
    if events == [] then Waiting
    else
      var e := events[0];
      var rest := events[1..];
      if e.Quit? then SceneLoop(current, fades, false, count, rest)
      else if e.KeyDown? then
        var n := Select(current, e.key, count);
        if n != current then SceneLoop(n, fades + [n], running, count, rest)
        else SceneLoop(current, fades, running, count, rest)
      else if e.Frame? && !running then Returned(Shown(current, fades), rest)
      else SceneLoop(current, fades, running, count, rest)
  }

  /** The scenes faded to, starting from `start`, each a loaded scene other
      than the one before it, ending at `scene`. */
  predicate Fades(start: int, fades: seq<int>, scene: int, count: int)
  {
    && (forall i :: 0 <= i < |fades| ==> 0 <= fades[i] < count)
    && (fades != [] ==> fades[0] != start)
    && (forall i :: 0 < i < |fades| ==> fades[i] != fades[i - 1])
    && scene == (if fades == [] then start else fades[|fades| - 1])
  }

  /** The current scene is always a loaded one; every fade goes to a scene
      different from the one shown before it; without a quit the loop runs
      on. */
  lemma {:induction false} SceneLoopSpec(start: int, current: int, fades: seq<int>, running: bool, count: int,
                                         events: seq<Event>)
    requires 0 <= start < count
    requires Fades(start, fades, current, count)
    ensures var o := SceneLoop(current, fades, running, count, events);
      && (o.Returned? ==> Fades(start, o.value.fades, o.value.scene, count) && 0 <= o.value.scene < count)
      && (running && NoQuit(events) ==> o == Waiting)
    decreases |events|
  {
    if events != [] {
      var e := events[0];
      var rest := events[1..];
      assert running && NoQuit(events) ==> NoQuit(rest) by {
        if NoQuit(events) {
          forall i | 0 <= i < |rest| ensures !rest[i].Quit? {
            assert rest[i] == events[i + 1];
          }
        }
      }
      assert 0 <= current < count;
      if e.Quit? {
        SceneLoopSpec(start, current, fades, false, count, rest);
      } else if e.KeyDown? {
        var n := Select(current, e.key, count);
        SelectSpec(current, e.key, count);
        if n != current {
          var fades' := fades + [n];
          assert Fades(start, fades', n, count) by {
            assert forall i :: 0 <= i < |fades| ==> fades'[i] == fades[i];
          }
          SceneLoopSpec(start, n, fades', running, count, rest);
        } else {
          SceneLoopSpec(start, current, fades, running, count, rest);
        }
      } else if !(e.Frame? && !running) {
        SceneLoopSpec(start, current, fades, running, count, rest);
      }
    }
  }

  /** The loading loop: the textures in path order, or None at the first
      image that fails to load. Which loads succeed is a parameter, one per
      path. */
  method LoadScenes(loads: seq<bool>) returns (scenes: Option<seq<int>>)
    requires |loads| == |ImagePaths|
    ensures scenes.Some? <==> forall i :: 0 <= i < |loads| ==> loads[i]
    ensures scenes.Some? ==> scenes.value == seq(|ImagePaths|, i => i)
  {
    var loaded: seq<int> := [];
    for k := 0 to |ImagePaths|
      invariant loaded == seq(k, i => i)
      invariant forall i :: 0 <= i < k ==> loads[i]
    {
      if !loads[k] {
        return None;
      }
      loaded := loaded + [k];
    }
    return Some(loaded);
  }

  /** `main`: with every image loaded, the loop starts on the first scene;
      a failed load ends the program before any event is read (None). */
  method Run(loads: seq<bool>, events: seq<Event>) returns (o: Outcome<Option<Shown>>)
    requires |loads| == |ImagePaths|
    ensures (exists i :: 0 <= i < |loads| && !loads[i]) ==> o == Returned(None, events)
    ensures (forall i :: 0 <= i < |loads| ==> loads[i]) ==>
      var run := SceneLoop(0, [], true, |ImagePaths|, events);
      && (run.Waiting? ==> o == Waiting)
      && (run.Returned? ==> o == Returned(Some(run.value), run.rest))
    ensures o.Returned? && o.value.Some? ==>
      Fades(0, o.value.value.fades, o.value.value.scene, |ImagePaths|)
      && 0 <= o.value.value.scene < |ImagePaths|
  {
    var scenes := LoadScenes(loads);
    if scenes.None? {
      return Returned(None, events);
    }
    var count := |scenes.value|;
    SceneLoopSpec(0, 0, [], true, count, events);
    var current := 0;
    var fades: seq<int> := [];
    var running := true;
    var i := 0;
    while i < |events|
      invariant 0 <= i <= |events|
      invariant SceneLoop(current, fades, running, count, events[i..]) == SceneLoop(0, [], true, count, events)
    {
      var e := events[i];
      assert events[i..][1..] == events[i + 1..];
      if e.Quit? {
        running := false;
      }
      if e.KeyDown? {
        var n := NewScene(current, e.key, count);
        if n != current {
          var alphas := FadeTransition();
          fades := fades + [n];
          current := n;
        }
      }
      if e.Frame? && !running {
        return Returned(Some(Shown(current, fades)), events[i + 1..]);
      }
      i := i + 1;
    }
    return Waiting;
  }
}
