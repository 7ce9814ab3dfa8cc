/**
 * The player-name line editor every screen opens with: text events append,
 * Backspace removes the last character of a non-empty name, Enter accepts a
 * non-empty name. Two loop shapes occur:
 *
 *  - "until Enter" (src/input.cpp, src/PuzzleModule.cpp): Enter on a
 *    non-empty name returns at once;
 *  - "batched" (menu.cpp, puzzle.cpp, PuzzleGame.cpp, rsa_decryptor.cpp):
 *    Enter only clears the `entering` flag, the rest of the poll batch is
 *    still handled, and the loop ends at the next frame.
 *
 * In both, a quit event returns at once with no name (None).
 */
module NameEntry {
  import opened Wrappers
  import opened Events

  /** The effect of one event on the name being typed (Enter and quit are
      handled by the loops). */
  function EditName(name: string, e: Event): (r: string)
    ensures e.TextInput? ==> r == name + e.text
    ensures e == KeyDown(KeyBackspace) && name != [] ==> r == name[..|name| - 1]
    ensures !e.TextInput? && !(e == KeyDown(KeyBackspace) && name != []) ==> r == name
  {
    match e
    case TextInput(t) => name + t
    case KeyDown(k) => if k == KeyBackspace && name != [] then name[..|name| - 1] else name
    case _ => name
  }

  /** Backspace never shortens below empty and removes at most one char. */
  lemma BackspaceBounded(name: string)
    ensures |EditName(name, KeyDown(KeyBackspace))| == if name == [] then 0 else |name| - 1
  {
  }

  // ---------------------------------------------------------------------
  // "until Enter"

  /** The name loop of src/input.cpp and src/PuzzleModule.cpp, from the
      name typed so far. */
  function UntilEnter(name: string, events: seq<Event>): Outcome<Option<string>>
    decreases |events|
  {
    if events == [] then Waiting
    else
      var e, rest := events[0], events[1..];
      if e.Quit? then Returned(None, rest)
      else if e == KeyDown(KeyReturn) && name != [] then Returned(Some(name), rest)
      else UntilEnter(EditName(name, e), rest)
  }

  /** The name it accepts is never empty, and it reads a prefix of the
      stream. */
  lemma {:induction false} UntilEnterNonEmpty(name: string, events: seq<Event>)
    ensures var o := UntilEnter(name, events);
            LeavesSuffix(o, events) && (o.Returned? && o.value.Some? ==> o.value.value != [])
    decreases |events|
  {
    if events != [] {
      var e, rest := events[0], events[1..];
      if !e.Quit? && !(e == KeyDown(KeyReturn) && name != []) {
        UntilEnterNonEmpty(EditName(name, e), rest);
        var o := UntilEnter(EditName(name, e), rest);
        if o.Returned? {
          SuffixTrans(o.rest, rest, events);
        }
      }
    }
  }

  /** The loop itself: `outName` is edited event by event. */
  method ReadNameUntilEnter(events: seq<Event>) returns (o: Outcome<Option<string>>)
    ensures o == UntilEnter([], events)
    ensures LeavesSuffix(o, events)
    ensures o.Returned? && o.value.Some? ==> o.value.value != []
  {
    UntilEnterNonEmpty([], events);
    var name: string := [];
    var i := 0;
    while i < |events|
      invariant 0 <= i <= |events|
      invariant UntilEnter(name, events[i..]) == UntilEnter([], events)
    {
      var e := events[i];
      assert events[i..][1..] == events[i + 1..];
      if e.Quit? {
        return Returned(None, events[i + 1..]);
      }
      if e.TextInput? {
        name := name + e.text;
      }
      if e.KeyDown? {
        if e.key == KeyBackspace && name != [] {
          name := name[..|name| - 1];
        } else if e.key == KeyReturn && name != [] {
          return Returned(Some(name), events[i + 1..]);
        }
      }
      i := i + 1;
    }
    return Waiting;
  }

  /**
   * `getPlayerName(ren, outName)` of src/input.cpp: the name is cleared, the
   * font is opened (`fontOk`) and, if that fails, false is returned before
   * any event is read. True (Some) comes only with a non-empty name.
   */
  method GetPlayerName(fontOk: bool, events: seq<Event>) returns (o: Outcome<Option<string>>)
    ensures !fontOk ==> o == Returned(None, events)
    ensures fontOk ==> o == UntilEnter([], events)
    ensures LeavesSuffix(o, events)
    ensures o.Returned? && o.value.Some? ==> o.value.value != []
  {
    if !fontOk {
      return Returned(None, events);
    }
    o := ReadNameUntilEnter(events);
  }

  // ---------------------------------------------------------------------
  // "batched"

  /** The batched name loop, from the name typed so far and the `entering`
      flag. */
  function Batched(name: string, entering: bool, events: seq<Event>): Outcome<Option<string>>
    decreases |events|
  {
    if events == [] then Waiting
    else
      var e, rest := events[0], events[1..];
      if e.Quit? then Returned(None, rest)
      else if e.Frame? then (if entering then Batched(name, entering, rest) else Returned(Some(name), rest))
      else if e == KeyDown(KeyReturn) && name != [] then Batched(name, false, rest)
      else Batched(EditName(name, e), entering, rest)
  }

  predicate NoEnter(events: seq<Event>)
  {
    forall i :: 0 <= i < |events| ==> events[i] != KeyDown(KeyReturn)
  }

  /** While the flag is still set, a name is only ever accepted after an
      Enter key event; and the loop reads a prefix of the stream. */
  lemma {:induction false} BatchedNeedsEnter(name: string, events: seq<Event>)
    requires NoEnter(events)
    ensures var o := Batched(name, true, events);
            LeavesSuffix(o, events) && (o.Returned? ==> o.value.None?)
    decreases |events|
  {
    if events != [] {
      var e, rest := events[0], events[1..];
      assert NoEnter(rest) by {
        forall i | 0 <= i < |rest| ensures rest[i] != KeyDown(KeyReturn) {
          assert rest[i] == events[i + 1];
        }
      }
      if !e.Quit? {
        var name' := if e.Frame? then name else EditName(name, e);
        BatchedNeedsEnter(name', rest);
        var o := Batched(name', true, rest);
        if o.Returned? {
          SuffixTrans(o.rest, rest, events);
        }
      }
    }
  }

  /** The batched loop reads a prefix of the stream. */
  lemma {:induction false} BatchedLeavesSuffix(name: string, entering: bool, events: seq<Event>)
    ensures LeavesSuffix(Batched(name, entering, events), events)
    decreases |events|
  {
    if events != [] {
      var e, rest := events[0], events[1..];
      if !e.Quit? && !(e.Frame? && !entering) {
        var name' := if e.Frame? || (e == KeyDown(KeyReturn) && name != []) then name else EditName(name, e);
        var entering' := entering && !(e == KeyDown(KeyReturn) && name != []);
        BatchedLeavesSuffix(name', entering', rest);
        var o := Batched(name', entering', rest);
        if o.Returned? {
          SuffixTrans(o.rest, rest, events);
        }
      }
    }
  }

  /** Because the batch goes on after Enter, a Backspace in the same batch
      can still empty the name that is then returned. */
  lemma BatchedCanReturnEmpty()
    ensures Batched([], true, [TextInput("a"), KeyDown(KeyReturn), KeyDown(KeyBackspace), Frame(0, 0, 0)])
            == Returned(Some([]), [])
  {
    var evs := [TextInput("a"), KeyDown(KeyReturn), KeyDown(KeyBackspace), Frame(0, 0, 0)];
    assert EditName([], evs[0]) == "a";
    assert Batched([], true, evs) == Batched("a", true, evs[1..]);
    assert Batched("a", true, evs[1..]) == Batched("a", false, evs[2..]);
    assert Batched("a", false, evs[2..]) == Batched([], false, evs[3..]);
  }

  /** The batched loop itself, with its `entering` flag. */
  method ReadNameBatched(events: seq<Event>) returns (o: Outcome<Option<string>>)
    ensures o == Batched([], true, events)
    ensures LeavesSuffix(o, events)
  {
    BatchedLeavesSuffix([], true, events);
    var name: string := [];
    var entering := true;
    var i := 0;
    while i < |events|
      invariant 0 <= i <= |events|
      invariant Batched(name, entering, events[i..]) == Batched([], true, events)
    {
      var e := events[i];
      assert events[i..][1..] == events[i + 1..];
      if e.Frame? {
        if !entering {
          return Returned(Some(name), events[i + 1..]);
        }
      } else if e.Quit? {
        return Returned(None, events[i + 1..]);
      } else if e.TextInput? {
        name := name + e.text;
      } else if e.KeyDown? {
        if e.key == KeyBackspace && name != [] {
          name := name[..|name| - 1];
        } else if e.key == KeyReturn && name != [] {
          entering := false;
        }
      }
      i := i + 1;
    }
    return Waiting;
  }
}
