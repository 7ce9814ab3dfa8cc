/**
 * Decoded input events shared by every screen, and the result of running a
 * screen's event loop over a finite stream of them.
 *
 * The screens are SDL (one SFML) programs whose loops look like
 *
 *     while (cond) { while (SDL_PollEvent(&e)) { ...handle e... }  ...tail... }
 *
 * A stream is the sequence of events the screen polls, with a `Frame` marking
 * each point where the poll queue ran empty: there the tail of the loop body
 * runs and the loop condition is tested again. The clock and pointer readings
 * taken at that point travel in the `Frame`.
 */
module Events {

  // SDL_Keycode values of the keys the screens look at.
  const KeyBackspace: int := 8
  const KeyReturn: int := 13
  const KeyEscape: int := 27
  const KeySpace: int := 32
  const Key1: int := 49
  const Key2: int := 50
  const Key3: int := 51
  const Key4: int := 52
  const Key5: int := 53
  const KeyArrowRight: int := 0x4000_004F
  const KeyArrowLeft: int := 0x4000_0050
  const KeyArrowDown: int := 0x4000_0051
  const KeyArrowUp: int := 0x4000_0052

  // SDL_BUTTON_LEFT
  const ButtonLeft: int := 1

  /** An SDL_GetTicks reading: milliseconds in an unsigned 32-bit word. */
  type Ticks = t: int | 0 <= t < 0x1_0000_0000

  datatype Event =
    | Quit                                          // SDL_QUIT, or sf::Event::Closed
    | TextInput(text: string)                       // SDL_TEXTINPUT
    | KeyDown(key: int)                             // SDL_KEYDOWN with its keycode
    | MouseDown(button: int, x: int, y: int)        // SDL_MOUSEBUTTONDOWN / MouseButtonPressed
    | Frame(ticks: Ticks, mouseX: int, mouseY: int) // poll queue empty: loop tail, then condition

  /** How a screen's loop ended: it returned a value and left `rest` unread,
      or the stream ran out while it was still waiting for input. */
  datatype Outcome<T> = Returned(value: T, rest: seq<Event>) | Waiting

  /** `rest` is what is left of `events` after some events were read. */
  predicate IsSuffix(rest: seq<Event>, events: seq<Event>)
  {
    |rest| <= |events| && rest == events[|events| - |rest|..]
  }

  /** An outcome leaves a suffix of the stream it was given. */
  predicate LeavesSuffix<T>(o: Outcome<T>, events: seq<Event>)
  {
    o.Returned? ==> IsSuffix(o.rest, events)
  }

  lemma SuffixTrans(a: seq<Event>, b: seq<Event>, c: seq<Event>)
    requires IsSuffix(a, b) && IsSuffix(b, c)
    ensures IsSuffix(a, c)
  {
    assert b[|b| - |a|..] == c[|c| - |a|..];
  }

  /** The clock reading of the last frame in `evs`, or `t` when there is
      none: "now" for the first events a loop reads after `evs`. */
  function LatestTicks(evs: seq<Event>, t: Ticks): (r: Ticks)
    ensures evs != [] && evs[|evs| - 1].Frame? ==> r == evs[|evs| - 1].ticks
    ensures (forall k :: 0 <= k < |evs| ==> !evs[k].Frame?) ==> r == t
  {
    if evs == [] then t
    else if evs[|evs| - 1].Frame? then evs[|evs| - 1].ticks
    else LatestTicks(evs[..|evs| - 1], t)
  }

  /** "Now" for a loop that starts where `rest` begins in `events`: the last
      frame read before that point, or `t` when there was none. */
  function TicksBefore(rest: seq<Event>, events: seq<Event>, t: Ticks): Ticks
  {
    if |rest| <= |events| then LatestTicks(events[..|events| - |rest|], t) else t
  }

  predicate NoQuit(events: seq<Event>)
  {
    forall i :: 0 <= i < |events| ==> !events[i].Quit?
  }
}
