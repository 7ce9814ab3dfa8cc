/**
 * The leaderboard of the combined game (src/Leaderboard.cpp): a file of
 * `name,time` lines loaded into a list of entries, and a screen that is
 * left with Escape or the Back button.
 *
 * The time is kept as the raw text after the first comma; its conversion
 * with `std::stof` is not part of this model.
 */
module Leaderboard {
  import opened Events
  import opened Geometry
  import opened Wrappers
  import opened States

  /** `LeaderboardEntry`, with the time as its text. */
  datatype Entry = Entry(name: string, time: string)

  // ---------------------------------------------------------------------
  // `std::getline(in, line)`

  /** The length of the first line: the characters before the first
      newline, or all of them. */
  function LineEnd(s: string): (n: nat)
    ensures n <= |s|
    ensures n < |s| ==> s[n] == '\n'
  {
    if s == [] || s[0] == '\n' then 0 else 1 + LineEnd(s[1..])
  }

  lemma {:induction false} LineEndNoNewline(s: string)
    ensures '\n' !in s[..LineEnd(s)]
  {
    if s != [] && s[0] != '\n' {
      LineEndNoNewline(s[1..]);
      assert s[..LineEnd(s)] == [s[0]] + s[1..][..LineEnd(s[1..])];
    }
  }

  /** The lines `getline` yields: a last line without a newline still
      counts, and a final newline does not start an empty line. */
  function Lines(s: string): seq<string>
    decreases |s|
  {
    if s == [] then []
    else
      var n := LineEnd(s);
      [s[..n]] + (if n == |s| then [] else Lines(s[n + 1..]))
  }

  /** Lines written each with its newline. */
  function Join(ls: seq<string>): string
  {
    if ls == [] then [] else ls[0] + "\n" + Join(ls[1..])
  }

  lemma {:induction false} LineEndOf(l: string, tail: string)
    requires '\n' !in l
    ensures LineEnd(l + "\n" + tail) == |l|
  {
    if l != [] {
      assert (l + "\n" + tail)[1..] == l[1..] + "\n" + tail;
      assert l[0] in l;
      LineEndOf(l[1..], tail);
    }
  }

  /** Writing lines with newlines and reading them back gives the same
      lines. */
  lemma {:induction false} LinesJoin(ls: seq<string>)
    requires forall k :: 0 <= k < |ls| ==> '\n' !in ls[k]
    ensures Lines(Join(ls)) == ls
  {
    if ls != [] {
      var s := Join(ls);
      assert s == ls[0] + "\n" + Join(ls[1..]);
      LineEndOf(ls[0], Join(ls[1..]));
      assert s[..|ls[0]|] == ls[0];
      assert s[|ls[0]| + 1..] == Join(ls[1..]);
      LinesJoin(ls[1..]);
      assert ls == [ls[0]] + ls[1..];
    }
  }

  /** No line holds a newline. */
  lemma {:induction false} LinesHaveNoNewline(s: string)
    ensures forall k :: 0 <= k < |Lines(s)| ==> '\n' !in Lines(s)[k]
    decreases |s|
  {
    if s != [] {
      var n := LineEnd(s);
      LineEndNoNewline(s);
      if n < |s| {
        LinesHaveNoNewline(s[n + 1..]);
      }
    }
  }

  // ---------------------------------------------------------------------
  // `getline(ss, n, ',') && getline(ss, t)`

  /** The position of the first comma, or the length when there is none. */
  function CommaAt(line: string): (c: nat)
    ensures c <= |line|
    ensures c < |line| ==> line[c] == ','
  {
    if line == [] || line[0] == ',' then 0 else 1 + CommaAt(line[1..])
  }

  lemma {:induction false} CommaAtFirst(line: string)
    ensures ',' !in line[..CommaAt(line)]
  {
    if line != [] && line[0] != ',' {
      CommaAtFirst(line[1..]);
      assert line[..CommaAt(line)] == [line[0]] + line[1..][..CommaAt(line[1..])];
    }
  }

  /** A line gives an entry when it has a comma with something after it:
      the name is the text before the first comma, the time the rest. */
  function ParseLine(line: string): Option<Entry>
  {
    var c := CommaAt(line);
    if c + 1 < |line| then Some(Entry(line[..c], line[c + 1..])) else None
  }

  /** An entry comes exactly from a line with a comma that is not its last
      character; its name has no comma, its time is not empty, and the two
      with a comma between them are the line. */
  lemma ParseLineSpec(line: string)
    ensures ParseLine(line).Some? <==> exists c :: 0 <= c < |line| - 1 && line[c] == ','
    ensures ParseLine(line).Some? ==>
              var e := ParseLine(line).value;
              ',' !in e.name && e.time != [] && e.name + "," + e.time == line
  {
    var c := CommaAt(line);
    CommaAtFirst(line);
    if ParseLine(line).Some? {
      assert line[..c] + "," + line[c + 1..] == line;
    } else {
      forall c' | 0 <= c' < |line| - 1
        ensures line[c'] != ','
      {
        assert line[c'] == line[..c][c'];
      }
    }
  }

  /** A comma-free name and a non-empty time are read back from their line. */
  lemma ParseLineOf(name: string, time: string)
    requires ',' !in name && time != []
    ensures ParseLine(name + "," + time) == Some(Entry(name, time))
  {
    var line := name + "," + time;
    CommaAtOf(name, time);
    assert line[..|name|] == name && line[|name| + 1..] == time;
  }

  lemma {:induction false} CommaAtOf(name: string, tail: string)
    requires ',' !in name
    ensures CommaAt(name + "," + tail) == |name|
  {
    if name != [] {
      assert (name + "," + tail)[1..] == name[1..] + "," + tail;
      assert name[0] in name;
      CommaAtOf(name[1..], tail);
    }
  }

  /** The entry of one line, if it has one. */
  function EntriesOf(line: string): seq<Entry>
  {
    match ParseLine(line)
    case None => []
    case Some(e) => [e]
  }

  /** The entries of a list of lines, in line order. */
  function Collect(lines: seq<string>): seq<Entry>
  {
    if lines == [] then [] else EntriesOf(lines[0]) + Collect(lines[1..])
  }

  /** At most one entry per line. */
  lemma {:induction false} CollectAtMostOnePerLine(lines: seq<string>)
    ensures |Collect(lines)| <= |lines|
  {
    if lines != [] {
      CollectAtMostOnePerLine(lines[1..]);
    }
  }

  /** Entries keep the order of their lines. */
  lemma {:induction false} CollectAppend(a: seq<string>, b: seq<string>)
    ensures Collect(a + b) == Collect(a) + Collect(b)
  {
    if a == [] {
      assert a + b == b;
    } else {
      assert (a + b)[0] == a[0];
      assert (a + b)[1..] == a[1..] + b;
      CollectAppend(a[1..], b);
    }
  }

  /** Every entry is the parse of one of the lines. */
  lemma {:induction false} CollectFromLines(lines: seq<string>)
    ensures forall e :: e in Collect(lines) ==> exists k :: 0 <= k < |lines| && ParseLine(lines[k]) == Some(e)
  {
    if lines != [] {
      CollectFromLines(lines[1..]);
      forall e | e in Collect(lines)
        ensures exists k :: 0 <= k < |lines| && ParseLine(lines[k]) == Some(e)
      {
        if e in Collect(lines[1..]) {
          var k :| 0 <= k < |lines[1..]| && ParseLine(lines[1..][k]) == Some(e);
          assert lines[k + 1] == lines[1..][k];
        } else {
          assert ParseLine(lines[0]) == Some(e);
        }
      }
    }
  }

  /** The board's `entries`, the static vector of the C++. */
  class Board {
    var entries: seq<Entry>

    constructor ()
      ensures entries == []
    {
      entries := [];
    }

    /** `loadFromFile`: the old entries are dropped, then one entry is
        pushed for each line that parses, in file order. */
    method LoadFromFile(file: string)
      modifies this
      ensures entries == Collect(Lines(file))
    {
      entries := [];
      var rest := file;
      while rest != []
        invariant entries + Collect(Lines(rest)) == Collect(Lines(file))
        decreases |rest|
      {
        var n := LineEnd(rest);
        var line := rest[..n];
        var next: string := if n == |rest| then [] else rest[n + 1..];
        var parsed := ParseLine(line);
        NextLine(entries, rest, next);
        ghost var before := entries;
        if parsed.Some? {
          entries := entries + [parsed.value];
        }
        assert entries == before + EntriesOf(line);
        rest := next;
      }
    }
  }

  /** One `getline` and the parse of its line. */
  lemma NextLine(done: seq<Entry>, s: string, next: string)
    requires s != []
    requires next == if LineEnd(s) == |s| then [] else s[LineEnd(s) + 1..]
    ensures done + Collect(Lines(s)) == done + EntriesOf(s[..LineEnd(s)]) + Collect(Lines(next))
  {
    var lines := Lines(s);
    assert lines == [s[..LineEnd(s)]] + Lines(next);
    assert lines[0] == s[..LineEnd(s)] && lines[1..] == Lines(next);
    assert Collect(lines) == EntriesOf(s[..LineEnd(s)]) + Collect(Lines(next));
  }

  // ---------------------------------------------------------------------
  // `Leaderboard::run`

  const BackButton := Rect(400, 600 - 80, 200, 50)

  /** Quit returns EXIT at once; Escape or a left click on Back (edges
      included) clears `loop`, and the screen returns MAP after that
      batch. */
  function ScreenLoop(loop: bool, events: seq<Event>): Outcome<GameState>
    decreases |events|
  {
    if events == [] then Waiting
    else
      var e, rest := events[0], events[1..];
      if e.Quit? then Returned(Exit, rest)
      else if e.Frame? then (if loop then ScreenLoop(loop, rest) else Returned(Map, rest))
      else if e == KeyDown(KeyEscape) then ScreenLoop(false, rest)
      else if e.MouseDown? && e.button == ButtonLeft && InsideClosed(BackButton, e.x, e.y) then ScreenLoop(false, rest)
      else ScreenLoop(loop, rest)
  }

  /** Escape and left clicks on Back are the ways back to the map. */
  predicate Leaves(e: Event)
  {
    e == KeyDown(KeyEscape) || (e.MouseDown? && e.button == ButtonLeft && InsideClosed(BackButton, e.x, e.y))
  }

  predicate NoLeave(events: seq<Event>)
  {
    forall k :: 0 <= k < |events| ==> !Leaves(events[k])
  }

  /** The screen reads a prefix of the stream and returns MAP or EXIT:
      EXIT only for a quit, and MAP, from a screen not yet leaving, only
      after Escape or a click on Back. */
  lemma {:induction false} ScreenLoopSpec(loop: bool, events: seq<Event>)
    ensures var o := ScreenLoop(loop, events);
            && LeavesSuffix(o, events)
            && (o.Returned? ==> o.value == Map || o.value == Exit)
            && (NoQuit(events) && o.Returned? ==> o.value == Map)
            && (loop && NoLeave(events) && o.Returned? ==> o.value == Exit)
    decreases |events|
  {
    if events != [] {
      var e, rest := events[0], events[1..];
      if !e.Quit? && !(e.Frame? && !loop) {
        var loop' := loop && !Leaves(e);
        ScreenLoopSpec(loop', rest);
        var o := ScreenLoop(loop', rest);
        if o.Returned? {
          SuffixTrans(o.rest, rest, events);
        }
        assert NoQuit(events) ==> NoQuit(rest) by {
          if NoQuit(events) {
            forall k | 0 <= k < |rest| ensures !rest[k].Quit? {
              assert rest[k] == events[k + 1];
            }
          }
        }
        assert NoLeave(events) ==> NoLeave(rest) by {
          if NoLeave(events) {
            forall k | 0 <= k < |rest| ensures !Leaves(rest[k]) {
              assert rest[k] == events[k + 1];
            }
          }
        }
      } else if e.Quit? {
        assert !NoQuit(events) by { assert events[0].Quit?; }
      }
    }
  }

  /** The screen's loop over the C++'s `loop` flag. */
  method Run(events: seq<Event>) returns (o: Outcome<GameState>)
    ensures o == ScreenLoop(true, events)
    ensures LeavesSuffix(o, events)
    ensures o.Returned? ==> o.value == Map || o.value == Exit
  {
    ScreenLoopSpec(true, events);
    var loop := true;
    var i := 0;
    while i < |events|
      invariant 0 <= i <= |events|
      invariant ScreenLoop(loop, events[i..]) == ScreenLoop(true, events)
    {
      var e := events[i];
      assert events[i..][1..] == events[i + 1..];
      if e.Quit? {
        return Returned(Exit, events[i + 1..]);
      }
      if e.Frame? {
        if !loop {
          return Returned(Map, events[i + 1..]);
        }
      } else if e == KeyDown(KeyEscape) {
        loop := false;
      } else if e.MouseDown? && e.button == ButtonLeft {
        if BackButton.x <= e.x <= BackButton.x + BackButton.w && BackButton.y <= e.y <= BackButton.y + BackButton.h {
          loop := false;
        }
      }
      i := i + 1;
    }
    return Waiting;
  }
}
