/**
 * The riddle screen of puzzle.cpp (muliplewindow/puzzle) and of
 * project/PuzzleGame.cpp: three riddles, each started by a click on the
 * monitor, answered by typing keys and pressing Enter within 30 seconds,
 * and left with Space. A wrong answer leaves the riddle open; only the
 * clock fails it. The two copies differ only in what a quit event does
 * (puzzle.cpp clears `running`, PuzzleGame.cpp returns at once) and in the
 * screen shown afterwards.
 */
module Riddles {
  import opened Events
  import opened Geometry
  import opened Wrappers
  import NameEntry

  /** The riddles' questions, shown on screen only. */
  const Questions: seq<string> := [
    "I have keys but no locks, I have space but no room. What am I?",
    "What has to be broken before you use it?",
    "The more you take, the more you leave behind. What am I?"]

  /** The expected answers, compared with the input exactly. */
  const Answers: seq<string> := ["keyboard", "egg", "footsteps"]

  const PuzzleTimeLimit: int := 30

  const MonitorTouchArea := Rect(320, 256, 512, 320)

  // ---------------------------------------------------------------------
  // The clock

  /** `now - start` on Uint32 ticks: wraps past 2^32 milliseconds. */
  function ElapsedMs(now: Ticks, start: Ticks): (d: nat)
    ensures d < 0x1_0000_0000
    ensures start <= now ==> d == now - start
    ensures now < start ==> d == now - start + 0x1_0000_0000
  {
    (now - start) % 0x1_0000_0000
  }

  /** `PUZZLE_TIME_LIMIT - (now - start) / 1000`. The subtraction is done in
      unsigned arithmetic and converted back to int, which gives the signed
      difference because the quotient is below 2^23. */
  function SecondsLeft(now: Ticks, start: Ticks): int
  {
    PuzzleTimeLimit - ElapsedMs(now, start) / 1000
  }

  /** The seconds count reaches zero exactly when 30 000 ms have elapsed. */
  lemma TimeUpIff(now: Ticks, start: Ticks)
    ensures SecondsLeft(now, start) <= 0 <==> ElapsedMs(now, start) >= 30000
  {
    var d := ElapsedMs(now, start);
    if d >= 30000 {
      assert d / 1000 >= 30000 / 1000;
    } else {
      assert d / 1000 <= 29999 / 1000;
    }
  }

  // ---------------------------------------------------------------------
  // Typed characters

  /** `char c = keysym.sym; if (c >= 32 && c <= 126) userInput += c;`: the
      cast keeps the keycode's low byte, read as a signed char, so bytes
      128..255 are negative and never typed. */
  function TypedChar(key: int): (c: Option<char>)
    ensures c.Some? <==> 32 <= key % 256 <= 126
    ensures c.Some? ==> c.value as int == key % 256
  {
    var b := key % 256;
    if 32 <= b <= 126 then Some(b as char) else None
  }

  /** The arrow keys type capital letters and Space types a blank, while
      Escape types nothing. */
  lemma ArrowKeysTypeLetters()
    ensures TypedChar(KeyArrowRight) == Some('O') && TypedChar(KeyArrowLeft) == Some('P')
    ensures TypedChar(KeyArrowDown) == Some('Q') && TypedChar(KeyArrowUp) == Some('R')
    ensures TypedChar(KeySpace) == Some(' ') && TypedChar(KeyEscape) == None
  {
  }

  /** Characters whose own code is a printable keycode. */
  predicate Printable(w: string)
  {
    forall k :: 0 <= k < |w| ==> 32 <= w[k] as int <= 126
  }

  /** The key presses that type `w`, one per character. */
  function Keys(w: string): (evs: seq<Event>)
    ensures |evs| == |w|
  {
    if w == [] then [] else [KeyDown(w[0] as int)] + Keys(w[1..])
  }

  // ---------------------------------------------------------------------
  // The riddle state

  /** `currentPuzzle`, `userInput`, the three flags, `puzzleStartTime` and
      `running`. */
  datatype Play = Play(current: int, input: string, started: bool, solved: bool, failed: bool,
                       startTicks: Ticks, running: bool)

  const StartOfPlay := Play(-1, [], false, false, false, 0, true)

  /** A riddle is on screen and accepts keys. */
  predicate Active(p: Play)
  {
    p.started && !p.solved && !p.failed
  }

  /** Never solved and failed at once; nothing happens before the first
      start; an open riddle is one of the three; the loop keeps running
      while the index is in range. */
  predicate PlayInv(p: Play)
  {
    && !(p.solved && p.failed)
    && (!p.started ==> p.current == -1 && p.input == [] && !p.solved && !p.failed)
    && (p.started ==> 0 <= p.current)
    && (Active(p) ==> p.current < |Answers|)
    && (p.current < |Answers| || !p.running)
  }

  /** The loop only stops by itself once the index has gone past the last
      riddle. */
  predicate StopsOnlyAtEnd(p: Play)
  {
    !p.running ==> p.current >= |Answers|
  }

  /** First handler: a click strictly inside the monitor before the first
      start opens riddle 0. */
  function StartClick(p: Play, e: Event, now: Ticks): Play
  {
    if !p.started && e.MouseDown? && InsideOpen(MonitorTouchArea, e.x, e.y) then
      p.(current := 0, input := [], started := true, solved := false, failed := false, startTicks := now)
    else p
  }

  /** Second handler: a key press on an open riddle. */
  function TypeKey(p: Play, e: Event): Play
    requires Active(p) ==> 0 <= p.current < |Answers|
  {
    if Active(p) && e.KeyDown? then
      if e.key == KeyBackspace && p.input != [] then p.(input := p.input[..|p.input| - 1])
      else if e.key == KeyReturn then
        (if p.input == Answers[p.current] then p.(solved := true) else p)
      else
        match TypedChar(e.key)
        case Some(c) => p.(input := p.input + [c])
        case None => p
    else p
  }

  /** Third handler: Space on a settled riddle moves to the next one, or
      stops the loop after the last. */
  function AdvanceOnSpace(p: Play, e: Event, now: Ticks): Play
  {
    if (p.solved || p.failed) && e == KeyDown(KeySpace) then
      if p.current + 1 < |Answers| then
        p.(current := p.current + 1, input := [], started := true, solved := false, failed := false,
           startTicks := now)
      else p.(current := p.current + 1, running := false)
    else p
  }

  /** One polled event other than quit: the three handlers in order. */
  function Handle(p: Play, e: Event, now: Ticks): (q: Play)
    requires PlayInv(p)
    ensures PlayInv(q)
    ensures StopsOnlyAtEnd(p) ==> StopsOnlyAtEnd(q)
    ensures p.current <= q.current
  {
    AdvanceOnSpace(TypeKey(StartClick(p, e, now), e), e, now)
  }

  /** The loop tail: an open (or already failed) riddle whose time is up is
      failed; a solved one never is; nothing else changes. */
  function Tail(p: Play, now: Ticks): (q: Play)
    requires PlayInv(p)
    ensures PlayInv(q) && StopsOnlyAtEnd(p) == StopsOnlyAtEnd(q)
    ensures q == p.(failed := q.failed)
    ensures q.failed <==> p.failed || (p.started && !p.solved && ElapsedMs(now, p.startTicks) >= 30000)
  {
    TimeUpIff(now, p.startTicks);
    if p.started && !p.solved && SecondsLeft(now, p.startTicks) <= 0 then p.(failed := true) else p
  }

  // ---------------------------------------------------------------------
  // What one event does

  /** A click strictly inside the monitor before the first start opens
      riddle 0 with empty input, both flags clear and the clock started. */
  lemma StartRule(p: Play, x: int, y: int, button: int, now: Ticks)
    requires PlayInv(p) && !p.started && InsideOpen(MonitorTouchArea, x, y)
    ensures Handle(p, MouseDown(button, x, y), now) == Play(0, [], true, false, false, now, p.running)
  {
  }

  /** Clicks never change a started game, nor one clicked outside the
      monitor. */
  lemma ClickElsewhereIgnored(p: Play, x: int, y: int, button: int, now: Ticks)
    requires PlayInv(p) && (p.started || !InsideOpen(MonitorTouchArea, x, y))
    ensures Handle(p, MouseDown(button, x, y), now) == p
  {
  }

  /** Enter on an open riddle solves it exactly when the input equals the
      answer; a wrong answer changes nothing, so the riddle stays open. */
  lemma EnterRule(p: Play, now: Ticks)
    requires PlayInv(p) && Active(p)
    ensures var q := Handle(p, KeyDown(KeyReturn), now);
            && (p.input == Answers[p.current] ==> q == p.(solved := true))
            && (p.input != Answers[p.current] ==> q == p)
  {
  }

  /** Backspace on an open riddle drops the last character if there is one;
      any other key but Enter appends its typed character, if any. */
  lemma EditRule(p: Play, key: int, now: Ticks)
    requires PlayInv(p) && Active(p) && key != KeyReturn
    ensures var q := Handle(p, KeyDown(key), now);
            && q == p.(input := q.input)
            && (key == KeyBackspace ==> q.input == if p.input == [] then [] else p.input[..|p.input| - 1])
            && (key != KeyBackspace ==>
                  q.input == p.input + match TypedChar(key) case Some(c) => [c] case None => [])
  {
  }

  /** A settled riddle ignores every key but Space, and Space moves on: to
      the next riddle with cleared input and a fresh clock, or, after the
      last, out of the loop. */
  lemma SettledRule(p: Play, key: int, now: Ticks)
    requires PlayInv(p) && (p.solved || p.failed)
    ensures var q := Handle(p, KeyDown(key), now);
            && (key != KeySpace ==> q == p)
            && (key == KeySpace && p.current + 1 < |Answers| ==>
                  q == Play(p.current + 1, [], true, false, false, now, p.running))
            && (key == KeySpace && p.current + 1 >= |Answers| ==>
                  q == p.(current := p.current + 1, running := false))
  {
  }

  // ---------------------------------------------------------------------
  // The loop of puzzle.cpp: quit clears `running`

  function PlayLoop(p: Play, now: Ticks, events: seq<Event>): Outcome<Play>
    requires PlayInv(p)
    decreases |events|
  {
    if events == [] then Waiting
    else
      var e, rest := events[0], events[1..];
      if e.Frame? then
        var q := Tail(p, e.ticks);
        if q.running then PlayLoop(q, e.ticks, rest) else Returned(q, rest)
      else if e.Quit? then PlayLoop(p.(running := false), now, rest)
      else PlayLoop(Handle(p, e, now), now, rest)
  }

  /** A riddle on screen with index `i`, input `input`, clock started at
      `t`. */
  function Open(i: int, input: string, t: Ticks, running: bool): (p: Play)
    requires 0 <= i < |Answers|
    ensures PlayInv(p) && Active(p)
  {
    Play(i, input, true, false, false, t, running)
  }

  /** A printable key on an open riddle appends its character and the
      loop carries on. */
  lemma TypeOneKey(i: int, input: string, t: Ticks, running: bool, c: char, now: Ticks, rest: seq<Event>)
    requires 0 <= i < |Answers| && 32 <= c as int <= 126
    ensures PlayLoop(Open(i, input, t, running), now, [KeyDown(c as int)] + rest)
            == PlayLoop(Open(i, input + [c], t, running), now, rest)
  {
    assert TypedChar(c as int) == Some(c);
    assert Handle(Open(i, input, t, running), KeyDown(c as int), now) == Open(i, input + [c], t, running);
    assert ([KeyDown(c as int)] + rest)[1..] == rest;
  }

  /** The rest of a printable word is printable. */
  lemma PrintableTail(w: string)
    requires w != [] && Printable(w)
    ensures 32 <= w[0] as int <= 126 && Printable(w[1..])
  {
    forall k | 0 <= k < |w[1..]| ensures 32 <= w[1..][k] as int <= 126 {
      assert w[1..][k] == w[k + 1];
    }
  }

  /** The keys of a word are its first key, then the keys of the rest. */
  lemma KeysUnfold(w: string, rest: seq<Event>)
    requires w != []
    ensures Keys(w) + rest == [KeyDown(w[0] as int)] + (Keys(w[1..]) + rest)
  {
    assert Keys(w) == [KeyDown(w[0] as int)] + Keys(w[1..]);
  }

  /** Appending a word's first character and then its rest appends the word. */
  lemma AppendHead(w: string, input: string)
    requires w != []
    ensures input + [w[0]] + w[1..] == input + w
  {
    assert w == [w[0]] + w[1..];
  }

  /** Typing a word of printable characters on an open riddle appends it. */
  lemma {:induction false} TypingAppends(i: int, input: string, t: Ticks, running: bool, w: string, now: Ticks, rest: seq<Event>)
    requires 0 <= i < |Answers| && Printable(w)
    ensures PlayLoop(Open(i, input, t, running), now, Keys(w) + rest)
            == PlayLoop(Open(i, input + w, t, running), now, rest)
    decreases |w|
  {
    if w == [] {
      assert Keys(w) + rest == rest;
      assert input + w == input;
    } else {
      PrintableTail(w);
      KeysUnfold(w, rest);
      AppendHead(w, input);
      TypeOneKey(i, input, t, running, w[0], now, Keys(w[1..]) + rest);
      TypingAppends(i, input + [w[0]], t, running, w[1..], now, rest);
    }
  }

  /** Enter on an open riddle showing its answer solves it. */
  lemma EnterSolves(i: int, t: Ticks, running: bool, now: Ticks, rest: seq<Event>)
    requires 0 <= i < |Answers|
    ensures PlayLoop(Open(i, Answers[i], t, running), now, [KeyDown(KeyReturn)] + rest)
            == PlayLoop(Play(i, Answers[i], true, true, false, t, running), now, rest)
  {
    assert ([KeyDown(KeyReturn)] + rest)[1..] == rest;
    assert Handle(Open(i, Answers[i], t, running), KeyDown(KeyReturn), now)
           == Play(i, Answers[i], true, true, false, t, running);
  }

  /** Typing a riddle's answer on its fresh screen and pressing Enter
      solves it. */
  lemma AnswerSolves(i: int, t: Ticks, running: bool, now: Ticks, rest: seq<Event>)
    requires 0 <= i < |Answers|
    ensures PlayLoop(Open(i, [], t, running), now, Keys(Answers[i]) + [KeyDown(KeyReturn)] + rest)
            == PlayLoop(Play(i, Answers[i], true, true, false, t, running), now, rest)
  {
    var w := Answers[i];
    assert Printable(w);
    assert Keys(w) + [KeyDown(KeyReturn)] + rest == Keys(w) + ([KeyDown(KeyReturn)] + rest);
    TypingAppends(i, [], t, running, w, now, [KeyDown(KeyReturn)] + rest);
    assert [] + w == w;
    EnterSolves(i, t, running, now, rest);
  }

  /** The loop reads a prefix of the stream, keeps the invariant, and, when
      no quit arrives, only stops once every riddle has been dealt with. */
  lemma {:induction false} PlayLoopInv(p: Play, now: Ticks, events: seq<Event>)
    requires PlayInv(p)
    ensures var o := PlayLoop(p, now, events);
            && LeavesSuffix(o, events)
            && (o.Returned? ==> PlayInv(o.value))
            && (o.Returned? && StopsOnlyAtEnd(p) && NoQuit(events) ==> o.value.current >= |Answers|)
    decreases |events|
  {
    if events != [] {
      var e, rest := events[0], events[1..];
      assert NoQuit(events) ==> NoQuit(rest) by {
        if NoQuit(events) {
          forall i | 0 <= i < |rest| ensures !rest[i].Quit? {
            assert rest[i] == events[i + 1];
          }
        }
      }
      match e {
        case Frame(t, _, _) =>
          var q := Tail(p, t);
          if q.running {
            PlayLoopInv(q, t, rest);
            var o := PlayLoop(q, t, rest);
            if o.Returned? {
              SuffixTrans(o.rest, rest, events);
            }
          }
        case Quit =>
          PlayLoopInv(p.(running := false), now, rest);
          var o := PlayLoop(p.(running := false), now, rest);
          if o.Returned? {
            SuffixTrans(o.rest, rest, events);
          }
        case _ =>
          PlayLoopInv(Handle(p, e, now), now, rest);
          var o := PlayLoop(Handle(p, e, now), now, rest);
          if o.Returned? {
            SuffixTrans(o.rest, rest, events);
          }
      }
    }
  }

  /** The body of the poll loop for one event other than quit and frame
      ends, on the loop's state: the three handlers in order. */
  method PollEvent(p: Play, e: Event, now: Ticks) returns (q: Play)
    requires PlayInv(p) && !e.Frame? && !e.Quit?
    ensures q == Handle(p, e, now)
  {
    q := p;
    match e {
      case MouseDown(_, mx, my) =>
        if !q.started && InsideOpen(MonitorTouchArea, mx, my) {
          q := q.(current := 0, input := [], started := true, solved := false, failed := false, startTicks := now);
        }
      case KeyDown(key) =>
        if q.started && !q.solved && !q.failed {
          if key == KeyBackspace && q.input != [] {
            q := q.(input := q.input[..|q.input| - 1]);
          } else if key == KeyReturn {
            if q.input == Answers[q.current] {
              q := q.(solved := true);
            }
          } else {
            var c := TypedChar(key);
            if c.Some? {
              q := q.(input := q.input + [c.value]);
            }
          }
        }
        if (q.solved || q.failed) && key == KeySpace {
          q := q.(current := q.current + 1);
          if q.current < |Answers| {
            q := q.(input := [], started := true, solved := false, failed := false, startTicks := now);
          } else {
            q := q.(running := false);
          }
        }
      case TextInput(_) =>
    }
  }

  /** The loop tail on the loop's state. */
  method CheckTime(p: Play, now: Ticks) returns (q: Play)
    requires PlayInv(p)
    ensures q == Tail(p, now)
  {
    q := p;
    if q.started && !q.solved && SecondsLeft(now, q.startTicks) <= 0 {
      q := q.(failed := true);
    }
  }

  /** The riddle loop of puzzle.cpp, "now" being the clock reading of the
      last frame (`now0` before the first). */
  method RunRiddles(now0: Ticks, events: seq<Event>) returns (o: Outcome<Play>)
    ensures o == PlayLoop(StartOfPlay, now0, events)
    ensures LeavesSuffix(o, events) && (o.Returned? ==> PlayInv(o.value))
    ensures o.Returned? && NoQuit(events) ==> o.value.current >= |Answers|
  {
    PlayLoopInv(StartOfPlay, now0, events);
    var p := StartOfPlay;
    var now := now0;
    var i := 0;
    while i < |events|
      invariant 0 <= i <= |events|
      invariant PlayInv(p)
      invariant PlayLoop(p, now, events[i..]) == PlayLoop(StartOfPlay, now0, events)
    {
      var e := events[i];
      assert events[i..][1..] == events[i + 1..];
      if e.Frame? {
        now := e.ticks;
        p := CheckTime(p, now);
        if !p.running {
          return Returned(p, events[i + 1..]);
        }
      } else if e.Quit? {
        p := p.(running := false);
      } else {
        p := PollEvent(p, e, now);
      }
      i := i + 1;
    }
    return Waiting;
  }

  // ---------------------------------------------------------------------
  // The loop of PuzzleGame.cpp: quit returns at once (None)

  function PlayLoopQuitReturns(p: Play, now: Ticks, events: seq<Event>): Outcome<Option<Play>>
    requires PlayInv(p)
    decreases |events|
  {
    if events == [] then Waiting
    else
      var e, rest := events[0], events[1..];
      if e.Frame? then
        var q := Tail(p, e.ticks);
        if q.running then PlayLoopQuitReturns(q, e.ticks, rest) else Returned(Some(q), rest)
      else if e.Quit? then Returned(None, rest)
      else PlayLoopQuitReturns(Handle(p, e, now), now, rest)
  }

  /** Without quitting, this loop only ends once every riddle has been dealt
      with. */
  lemma {:induction false} PlayLoopQuitReturnsInv(p: Play, now: Ticks, events: seq<Event>)
    requires PlayInv(p) && StopsOnlyAtEnd(p)
    ensures var o := PlayLoopQuitReturns(p, now, events);
            && LeavesSuffix(o, events)
            && (o.Returned? && o.value.Some? ==> PlayInv(o.value.value) && o.value.value.current >= |Answers|)
    decreases |events|
  {
    if events != [] {
      var e, rest := events[0], events[1..];
      match e {
        case Frame(t, _, _) =>
          var q := Tail(p, t);
          if q.running {
            PlayLoopQuitReturnsInv(q, t, rest);
            var o := PlayLoopQuitReturns(q, t, rest);
            if o.Returned? {
              SuffixTrans(o.rest, rest, events);
            }
          }
        case Quit =>
        case _ =>
          PlayLoopQuitReturnsInv(Handle(p, e, now), now, rest);
          var o := PlayLoopQuitReturns(Handle(p, e, now), now, rest);
          if o.Returned? {
            SuffixTrans(o.rest, rest, events);
          }
      }
    }
  }

  /** The riddle loop of `runPuzzle`. */
  method RunRiddlesQuitReturns(now0: Ticks, events: seq<Event>) returns (o: Outcome<Option<Play>>)
    ensures o == PlayLoopQuitReturns(StartOfPlay, now0, events)
    ensures LeavesSuffix(o, events)
    ensures o.Returned? && o.value.Some? ==> PlayInv(o.value.value) && o.value.value.current >= |Answers|
  {
    PlayLoopQuitReturnsInv(StartOfPlay, now0, events);
    var p := StartOfPlay;
    var now := now0;
    var i := 0;
    while i < |events|
      invariant 0 <= i <= |events|
      invariant PlayInv(p)
      invariant PlayLoopQuitReturns(p, now, events[i..]) == PlayLoopQuitReturns(StartOfPlay, now0, events)
    {
      var e := events[i];
      assert events[i..][1..] == events[i + 1..];
      if e.Frame? {
        now := e.ticks;
        p := CheckTime(p, now);
        if !p.running {
          return Returned(Some(p), events[i + 1..]);
        }
      } else if e.Quit? {
        return Returned(None, events[i + 1..]);
      } else {
        p := PollEvent(p, e, now);
      }
      i := i + 1;
    }
    return Waiting;
  }

  // ---------------------------------------------------------------------
  // The decryptor picture shown afterwards

  /** `while (showing) { poll: quit or a key (and, in PuzzleGame.cpp, a
      mouse button) clears showing; draw }`. */
  function Dismiss(showing: bool, mouseToo: bool, events: seq<Event>): Outcome<()>
    decreases |events|
  {
    if events == [] then Waiting
    else
      var e, rest := events[0], events[1..];
      if e.Frame? then (if showing then Dismiss(showing, mouseToo, rest) else Returned((), rest))
      else if Dismisses(e, mouseToo) then Dismiss(false, mouseToo, rest)
      else Dismiss(showing, mouseToo, rest)
  }

  /** The events that clear `showing`. */
  predicate Dismisses(e: Event, mouseToo: bool)
  {
    e.Quit? || e.KeyDown? || (mouseToo && e.MouseDown?)
  }

  /** The picture reads a prefix of the stream, and it stays up for as long
      as no dismissing event comes. */
  lemma {:induction false} DismissNeedsInput(showing: bool, mouseToo: bool, events: seq<Event>)
    ensures LeavesSuffix(Dismiss(showing, mouseToo, events), events)
    ensures showing && (forall k :: 0 <= k < |events| ==> !Dismisses(events[k], mouseToo)) ==>
              Dismiss(showing, mouseToo, events) == Waiting
    decreases |events|
  {
    if events != [] {
      var e, rest := events[0], events[1..];
      var showing' := showing && !Dismisses(e, mouseToo);
      if !(e.Frame? && !showing) {
        assert Dismiss(showing, mouseToo, events) == Dismiss(showing', mouseToo, rest);
        DismissNeedsInput(showing', mouseToo, rest);
        var o := Dismiss(showing', mouseToo, rest);
        if o.Returned? {
          SuffixTrans(o.rest, rest, events);
        }
        if showing && (forall k :: 0 <= k < |events| ==> !Dismisses(events[k], mouseToo)) {
          assert !Dismisses(events[0], mouseToo);
          forall k | 0 <= k < |rest| ensures !Dismisses(rest[k], mouseToo) {
            assert rest[k] == events[k + 1];
          }
        }
      }
    }
  }

  method ShowDecryptor(mouseToo: bool, events: seq<Event>) returns (o: Outcome<()>)
    ensures o == Dismiss(true, mouseToo, events)
  {
    var showing := true;
    var i := 0;
    while i < |events|
      invariant 0 <= i <= |events|
      invariant Dismiss(showing, mouseToo, events[i..]) == Dismiss(true, mouseToo, events)
    {
      var e := events[i];
      assert events[i..][1..] == events[i + 1..];
      if e.Frame? {
        if !showing {
          return Returned((), events[i + 1..]);
        }
      } else if e.Quit? || e.KeyDown? || (mouseToo && e.MouseDown?) {
        showing := false;
      }
      i := i + 1;
    }
    return Waiting;
  }

  // ---------------------------------------------------------------------
  // The whole programs

  /**
   * `main` of puzzle.cpp: a font that fails to open ends the program
   * before any event is read (None); otherwise the batched name screen
   * (quit ends the program: None), the riddles, then the decryptor picture,
   * which is shown however the riddle loop ended. `t0` is the clock reading
   * at the start.
   */
  function Puzzle(fontOk: bool, t0: Ticks, events: seq<Event>): Outcome<Option<Play>>
  {
    if !fontOk then Returned(None, events)
    else
      match NameEntry.Batched([], true, events)
      case Waiting => Waiting
      case Returned(None, rest) => Returned(None, rest)
      case Returned(Some(_), rest) =>
        match PlayLoop(StartOfPlay, TicksBefore(rest, events, t0), rest)
        case Waiting => Waiting
        case Returned(p, rest') =>
          match Dismiss(true, false, rest')
          case Waiting => Waiting
          case Returned(_, afterPicture) => Returned(Some(p), afterPicture)
  }

  /** The program reads a prefix of the stream, and the riddle state it ends
      with keeps the riddle invariant. */
  lemma PuzzleReadsPrefix(fontOk: bool, t0: Ticks, events: seq<Event>)
    ensures LeavesSuffix(Puzzle(fontOk, t0, events), events)
    ensures var o := Puzzle(fontOk, t0, events);
            o.Returned? && o.value.Some? ==> fontOk && PlayInv(o.value.value)
  {
    NameEntry.BatchedLeavesSuffix([], true, events);
    var name := NameEntry.Batched([], true, events);
    if fontOk && name.Returned? && name.value.Some? {
      var rest := name.rest;
      PlayLoopInv(StartOfPlay, TicksBefore(rest, events, t0), rest);
      var play := PlayLoop(StartOfPlay, TicksBefore(rest, events, t0), rest);
      if play.Returned? {
        SuffixTrans(play.rest, rest, events);
        DismissNeedsInput(true, false, play.rest);
        var shown := Dismiss(true, false, play.rest);
        if shown.Returned? {
          SuffixTrans(shown.rest, play.rest, events);
        }
      }
    }
  }

  method PuzzleProgram(fontOk: bool, t0: Ticks, events: seq<Event>) returns (o: Outcome<Option<Play>>)
    ensures o == Puzzle(fontOk, t0, events)
  {
    if !fontOk {
      return Returned(None, events);
    }
    var name := NameEntry.ReadNameBatched(events);
    match name {
      case Waiting => return Waiting;
      case Returned(None, rest) => return Returned(None, rest);
      case Returned(Some(_), rest) =>
        var play := RunRiddles(TicksBefore(rest, events, t0), rest);
        match play {
          case Waiting => return Waiting;
          case Returned(p, rest') =>
            var shown := ShowDecryptor(false, rest');
            match shown {
              case Waiting => return Waiting;
              case Returned(_, afterPicture) => return Returned(Some(p), afterPicture);
            }
        }
    }
  }

  /**
   * `runPuzzle` of PuzzleGame.cpp: quit during the name screen or the
   * riddles returns at once (None) and skips the picture; otherwise the
   * picture is shown only when it and its texture load.
   */
  function RunPuzzleSpec(t0: Ticks, imageLoaded: bool, textureMade: bool, events: seq<Event>): Outcome<Option<Play>>
  {
    match NameEntry.Batched([], true, events)
    case Waiting => Waiting
    case Returned(None, rest) => Returned(None, rest)
    case Returned(Some(_), rest) =>
      match PlayLoopQuitReturns(StartOfPlay, TicksBefore(rest, events, t0), rest)
      case Waiting => Waiting
      case Returned(None, rest') => Returned(None, rest')
      case Returned(Some(p), rest') =>
        if !(imageLoaded && textureMade) then Returned(Some(p), rest')
        else
          match Dismiss(true, true, rest')
          case Waiting => Waiting
          case Returned(_, afterPicture) => Returned(Some(p), afterPicture)
  }

  /** `runPuzzle` reads a prefix of the stream, and when it comes back with a
      riddle state rather than a quit, every riddle has been dealt with. */
  lemma RunPuzzleReadsPrefix(t0: Ticks, imageLoaded: bool, textureMade: bool, events: seq<Event>)
    ensures var o := RunPuzzleSpec(t0, imageLoaded, textureMade, events);
            && LeavesSuffix(o, events)
            && (o.Returned? && o.value.Some? ==> PlayInv(o.value.value) && o.value.value.current >= |Answers|)
  {
    NameEntry.BatchedLeavesSuffix([], true, events);
    var name := NameEntry.Batched([], true, events);
    if name.Returned? && name.value.Some? {
      var rest := name.rest;
      PlayLoopQuitReturnsInv(StartOfPlay, TicksBefore(rest, events, t0), rest);
      var play := PlayLoopQuitReturns(StartOfPlay, TicksBefore(rest, events, t0), rest);
      if play.Returned? {
        SuffixTrans(play.rest, rest, events);
        DismissNeedsInput(true, true, play.rest);
        var shown := Dismiss(true, true, play.rest);
        if shown.Returned? {
          SuffixTrans(shown.rest, play.rest, events);
        }
      }
    }
  }

  method RunPuzzle(t0: Ticks, imageLoaded: bool, textureMade: bool, events: seq<Event>)
    returns (o: Outcome<Option<Play>>)
    ensures o == RunPuzzleSpec(t0, imageLoaded, textureMade, events)
    ensures o.Returned? && o.value.Some? ==> o.value.value.current >= |Answers|
  {
    var name := NameEntry.ReadNameBatched(events);
    match name {
      case Waiting => return Waiting;
      case Returned(None, rest) => return Returned(None, rest);
      case Returned(Some(_), rest) =>
        var play := RunRiddlesQuitReturns(TicksBefore(rest, events, t0), rest);
        match play {
          case Waiting => return Waiting;
          case Returned(None, rest') => return Returned(None, rest');
          case Returned(Some(p), rest') =>
            if !imageLoaded || !textureMade {
              return Returned(Some(p), rest');
            }
            var shown := ShowDecryptor(true, rest');
            match shown {
              case Waiting => return Waiting;
              case Returned(_, afterPicture) => return Returned(Some(p), afterPicture);
            }
        }
    }
  }
}
