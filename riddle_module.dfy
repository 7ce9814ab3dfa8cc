/**
 * `PuzzleModule::run` (src/PuzzleModule.cpp): the riddle screen of the
 * combined game. Unlike the stand-alone copies, the answer is built from
 * text-input events, Enter settles a riddle for good (solved or failed),
 * the start area includes its top and left edges, and the screen returns
 * the next game state: EXIT on a quit or missing assets, MAP once the last
 * riddle has been left.
 */
module RiddleModule {
  import opened Events
  import opened Geometry
  import opened Wrappers
  import opened States
  import NameEntry
  import Riddles

  /** `area{(SCREEN_W - 512) / 2, 256, 512, 320}`. */
  const Area := Rect((1024 - 512) / 2, 256, 512, 320)

  /** `idx`, `answer`, the three flags, `startTicks` and `running`. */
  datatype Round = Round(idx: int, answer: string, started: bool, solved: bool, failed: bool,
                         startTicks: Ticks, running: bool)

  const FirstRound := Round(0, [], false, false, false, 0, true)

  predicate Active(r: Round)
  {
    r.started && !r.solved && !r.failed
  }

  /** Never solved and failed at once; nothing typed before the start; an
      open riddle is one of the three; the loop runs while the index is in
      range. */
  predicate RoundInv(r: Round)
  {
    && !(r.solved && r.failed)
    && 0 <= r.idx
    && (!r.started ==> r.idx == 0 && r.answer == [] && !r.solved && !r.failed)
    && (Active(r) ==> r.idx < |Riddles.Answers|)
    && (r.idx < |Riddles.Answers| || !r.running)
  }

  predicate StopsOnlyAtEnd(r: Round)
  {
    !r.running ==> r.idx >= |Riddles.Answers|
  }

  /** A click in the area before the first start opens the riddle at `idx`
      (which is not reset). */
  function StartClick(r: Round, e: Event, now: Ticks): Round
  {
    if !r.started && e.MouseDown? && InsideHalfOpen(Area, e.x, e.y) then
      r.(started := true, solved := false, failed := false, answer := [], startTicks := now)
    else r
  }

  /** Text and keys on an open riddle: text appends, Backspace pops a
      non-empty answer, Enter settles the riddle one way or the other. */
  function TypeAnswer(r: Round, e: Event): Round
    requires Active(r) ==> 0 <= r.idx < |Riddles.Answers|
  {
    if !Active(r) then r
    else
      match e
      case TextInput(t) => r.(answer := r.answer + t)
      case KeyDown(k) =>
        if k == KeyBackspace && r.answer != [] then r.(answer := r.answer[..|r.answer| - 1])
        else if k == KeyReturn then
          (if r.answer == Riddles.Answers[r.idx] then r.(solved := true) else r.(failed := true))
        else r
      case _ => r
  }

  /** Space on a settled riddle moves to the next, or ends the loop after
      the last. */
  function AdvanceOnSpace(r: Round, e: Event, now: Ticks): Round
  {
    if (r.solved || r.failed) && e == KeyDown(KeySpace) then
      if r.idx + 1 < |Riddles.Answers| then
        r.(idx := r.idx + 1, started := true, solved := false, failed := false, answer := [],
           startTicks := now)
      else r.(idx := r.idx + 1, running := false)
    else r
  }

  /** One polled event other than quit. */
  function Handle(r: Round, e: Event, now: Ticks): (q: Round)
    requires RoundInv(r)
    ensures RoundInv(q)
    ensures StopsOnlyAtEnd(r) ==> StopsOnlyAtEnd(q)
    ensures r.idx <= q.idx
  {
    AdvanceOnSpace(TypeAnswer(StartClick(r, e, now), e), e, now)
  }

  /** The timeout, checked only on an open riddle. */
  function Tail(r: Round, now: Ticks): (q: Round)
    requires RoundInv(r)
    ensures RoundInv(q) && StopsOnlyAtEnd(r) == StopsOnlyAtEnd(q)
    ensures q == r.(failed := q.failed)
    ensures q.failed <==> r.failed || (Active(r) && Riddles.ElapsedMs(now, r.startTicks) >= 30000)
  {
    Riddles.TimeUpIff(now, r.startTicks);
    if Active(r) && Riddles.SecondsLeft(now, r.startTicks) <= 0 then r.(failed := true) else r
  }

  // ---------------------------------------------------------------------
  // What one event does

  /** A click in [x, x + w) x [y, y + h) before the start opens riddle 0;
      the top-left corner counts, the far edges do not. */
  lemma StartRule(r: Round, x: int, y: int, button: int, now: Ticks)
    requires RoundInv(r) && !r.started
    ensures var q := Handle(r, MouseDown(button, x, y), now);
            && (InsideHalfOpen(Area, x, y) ==> q == Round(0, [], true, false, false, now, r.running))
            && (!InsideHalfOpen(Area, x, y) ==> q == r)
    ensures InsideHalfOpen(Area, Area.x, Area.y) && !InsideHalfOpen(Area, Area.x + Area.w, Area.y)
  {
  }

  /** Enter settles an open riddle: solved on the exact answer, failed on
      anything else; the answer text is kept. */
  lemma EnterSettles(r: Round, now: Ticks)
    requires RoundInv(r) && Active(r)
    ensures var q := Handle(r, KeyDown(KeyReturn), now);
            && !Active(q)
            && (q.solved <==> r.answer == Riddles.Answers[r.idx])
            && (q.failed <==> r.answer != Riddles.Answers[r.idx])
            && q == r.(solved := q.solved, failed := q.failed)
  {
  }

  /** Text appends to an open riddle's answer; Backspace pops a non-empty
      one; nothing else changes. */
  lemma EditRule(r: Round, e: Event, now: Ticks)
    requires RoundInv(r) && Active(r)
    requires e.TextInput? || e == KeyDown(KeyBackspace)
    ensures var q := Handle(r, e, now);
            && q == r.(answer := q.answer)
            && (e.TextInput? ==> q.answer == r.answer + e.text)
            && (e == KeyDown(KeyBackspace) ==>
                  q.answer == if r.answer == [] then [] else r.answer[..|r.answer| - 1])
  {
  }

  /** A settled riddle ignores everything but Space; Space moves on to the
      next riddle even after a failure, so a failed riddle is never asked
      again. */
  lemma SettledRule(r: Round, e: Event, now: Ticks)
    requires RoundInv(r) && (r.solved || r.failed)
    ensures var q := Handle(r, e, now);
            && (e != KeyDown(KeySpace) ==> q == r)
            && (e == KeyDown(KeySpace) ==> q.idx == r.idx + 1 && q.answer == (if q.idx < |Riddles.Answers| then [] else r.answer))
            && (e == KeyDown(KeySpace) && r.idx + 1 < |Riddles.Answers| ==> Active(q) && q.startTicks == now)
            && (e == KeyDown(KeySpace) && r.idx + 1 >= |Riddles.Answers| ==> !q.running)
  {
  }

  // ---------------------------------------------------------------------
  // The riddle loop: quit returns at once (None)

  function RoundLoop(r: Round, now: Ticks, events: seq<Event>): Outcome<Option<Round>>
    requires RoundInv(r)
    decreases |events|
  {
    if events == [] then Waiting
    else
      var e, rest := events[0], events[1..];
      if e.Frame? then
        var q := Tail(r, e.ticks);
        if q.running then RoundLoop(q, e.ticks, rest) else Returned(Some(q), rest)
      else if e.Quit? then Returned(None, rest)
      else RoundLoop(Handle(r, e, now), now, rest)
  }

  /** Typing the answer in one text event and pressing Enter solves an
      open riddle with an empty answer. */
  lemma AnswerSolves(r: Round, now: Ticks, rest: seq<Event>)
    requires RoundInv(r) && Active(r) && r.answer == []
    ensures RoundLoop(r, now, [TextInput(Riddles.Answers[r.idx]), KeyDown(KeyReturn)] + rest)
            == RoundLoop(r.(answer := Riddles.Answers[r.idx], solved := true), now, rest)
  {
    var w := Riddles.Answers[r.idx];
    var evs := [TextInput(w), KeyDown(KeyReturn)] + rest;
    var q := r.(answer := w);
    assert Handle(r, TextInput(w), now) == q;
    assert RoundLoop(r, now, evs) == RoundLoop(q, now, evs[1..]);
    assert evs[1..] == [KeyDown(KeyReturn)] + rest;
    assert Handle(q, KeyDown(KeyReturn), now) == q.(solved := true);
    assert ([KeyDown(KeyReturn)] + rest)[1..] == rest;
  }

  /** The loop reads a prefix of the stream, and a round it returns (no
      quit) has left every riddle behind. */
  lemma {:induction false} RoundLoopInv(r: Round, now: Ticks, events: seq<Event>)
    requires RoundInv(r) && StopsOnlyAtEnd(r)
    ensures var o := RoundLoop(r, now, events);
            && LeavesSuffix(o, events)
            && (o.Returned? && o.value.Some? ==> RoundInv(o.value.value) && o.value.value.idx >= |Riddles.Answers|)
    decreases |events|
  {
    if events != [] {
      var e, rest := events[0], events[1..];
      if e.Frame? {
        var q := Tail(r, e.ticks);
        if q.running {
          RoundLoopInv(q, e.ticks, rest);
          var o := RoundLoop(q, e.ticks, rest);
          if o.Returned? {
            SuffixTrans(o.rest, rest, events);
          }
        }
      } else if !e.Quit? {
        RoundLoopInv(Handle(r, e, now), now, rest);
        var o := RoundLoop(Handle(r, e, now), now, rest);
        if o.Returned? {
          SuffixTrans(o.rest, rest, events);
        }
      }
    }
  }

  /** The riddle loop over the C++ locals. */
  /** The body of the poll loop for one event other than quit and frame
      ends, on the loop's state. */
  method PollEvent(r: Round, e: Event, now: Ticks) returns (q: Round)
    requires RoundInv(r) && !e.Frame? && !e.Quit?
    ensures q == Handle(r, e, now)
  {
    q := r;
    match e {
      case MouseDown(_, mx, my) =>
        if !q.started && InsideHalfOpen(Area, mx, my) {
          q := q.(started := true, solved := false, failed := false, answer := [], startTicks := now);
        }
      case TextInput(t) =>
        if q.started && !q.solved && !q.failed {
          q := q.(answer := q.answer + t);
        }
      case KeyDown(key) =>
        if q.started && !q.solved && !q.failed {
          if key == KeyBackspace && q.answer != [] {
            q := q.(answer := q.answer[..|q.answer| - 1]);
          } else if key == KeyReturn {
            if q.answer == Riddles.Answers[q.idx] {
              q := q.(solved := true);
            } else {
              q := q.(failed := true);
            }
          }
        }
        if (q.solved || q.failed) && key == KeySpace {
          q := q.(idx := q.idx + 1);
          if q.idx < |Riddles.Answers| {
            q := q.(started := true, solved := false, failed := false, answer := [], startTicks := now);
          } else {
            q := q.(running := false);
          }
        }
    }
  }

  /** The loop tail on the loop's state. */
  method CheckTime(r: Round, now: Ticks) returns (q: Round)
    requires RoundInv(r)
    ensures q == Tail(r, now)
  {
    q := r;
    if q.started && !q.solved && !q.failed && Riddles.SecondsLeft(now, q.startTicks) <= 0 {
      q := q.(failed := true);
    }
  }

  /** The riddle loop. */
  method RunRounds(now0: Ticks, events: seq<Event>) returns (o: Outcome<Option<Round>>)
    ensures o == RoundLoop(FirstRound, now0, events)
    ensures LeavesSuffix(o, events)
    ensures o.Returned? && o.value.Some? ==> o.value.value.idx >= |Riddles.Answers|
  {
    RoundLoopInv(FirstRound, now0, events);
    var r := FirstRound;
    var now := now0;
    var i := 0;
    while i < |events|
      invariant 0 <= i <= |events|
      invariant RoundInv(r)
      invariant RoundLoop(r, now, events[i..]) == RoundLoop(FirstRound, now0, events)
    {
      var e := events[i];
      assert events[i..][1..] == events[i + 1..];
      if e.Quit? {
        return Returned(None, events[i + 1..]);
      } else if e.Frame? {
        now := e.ticks;
        r := CheckTime(r, now);
        if !r.running {
          return Returned(Some(r), events[i + 1..]);
        }
      } else {
        r := PollEvent(r, e, now);
      }
      i := i + 1;
    }
    return Waiting;
  }

  /**
   * `PuzzleModule::run`: missing font or background returns EXIT before
   * any event is read; the "until Enter" name screen follows (quit: EXIT);
   * then the riddles (quit: EXIT; leaving the last riddle: MAP).
   */
  method Run(assetsOk: bool, t0: Ticks, events: seq<Event>) returns (o: Outcome<GameState>)
    ensures !assetsOk ==> o == Returned(Exit, events)
    ensures assetsOk ==>
              var name := NameEntry.UntilEnter([], events);
              && (name.Waiting? ==> o == Waiting)
              && (name.Returned? && name.value.None? ==> o == Returned(Exit, name.rest))
              && (name.Returned? && name.value.Some? ==>
                    var rounds := RoundLoop(FirstRound, TicksBefore(name.rest, events, t0), name.rest);
                    && (rounds.Waiting? ==> o == Waiting)
                    && (rounds.Returned? ==> o == Returned(if rounds.value.Some? then Map else Exit, rounds.rest)))
    ensures LeavesSuffix(o, events)
    ensures o.Returned? ==> o.value == Exit || o.value == Map
  {
    if !assetsOk {
      return Returned(Exit, events);
    }
    var name := NameEntry.ReadNameUntilEnter(events);
    match name {
      case Waiting => return Waiting;
      case Returned(None, rest) => return Returned(Exit, rest);
      case Returned(Some(_), rest) =>
        var rounds := RunRounds(TicksBefore(rest, events, t0), rest);
        match rounds {
          case Waiting => return Waiting;
          case Returned(None, rest') =>
            SuffixTrans(rest', rest, events);
            return Returned(Exit, rest');
          case Returned(Some(_), rest') =>
            SuffixTrans(rest', rest, events);
            return Returned(Map, rest');
        }
    }
  }
}
