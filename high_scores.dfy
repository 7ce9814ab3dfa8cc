/**
 * The high-score file of the menu (menuforgame/src/menu.cpp): lines
 * `name score`, read back with `file >> name >> score` until the first
 * failure, updated by adding points to a player's entries (or appending the
 * player), and shown sorted by score, highest first.
 */
module HighScores {
  import opened Wrappers
  import opened CText

  datatype Record = Record(name: string, score: int)

  // ---------------------------------------------------------------------
  // Reading: `while (file >> name >> score)`

  /** `stream >> name`: skip whitespace, then take the non-blank run; fails
      at the end of the text. */
  function ReadName(s: string): (r: Option<(string, string)>)
    ensures r.Some? ==> IsWord(r.value.0) && |r.value.1| < |s|
  {
    var t := DropSpaces(s);
    if t == [] then None
    else
      var n := WordLen(t);
      WordLenNoSpaces(t);
      Some((t[..n], t[n..]))
  }

  /** The records the read loop collects: it stops at the first name that
      is missing or not followed by an int. */
  function ReadRecords(s: string): (rs: seq<Record>)
    decreases |s|
  {
    match ReadName(s)
    case None => []
    case Some((name, afterName)) =>
      match ExtractInt(afterName)
      case None => []
      case Some((score, afterScore)) => [Record(name, score)] + ReadRecords(afterScore)
  }

  /** Records the file format can hold: a name that is one blank-free word
      and a score that fits an int. */
  predicate Storable(rs: seq<Record>)
  {
    forall k :: 0 <= k < |rs| ==> IsWord(rs[k].name) && InInt32(rs[k].score)
  }

  lemma StorableCons(r: Record, rs: seq<Record>)
    requires IsWord(r.name) && InInt32(r.score) && Storable(rs)
    ensures Storable([r] + rs)
  {
    forall k | 0 <= k < |[r] + rs| ensures IsWord(([r] + rs)[k].name) && InInt32(([r] + rs)[k].score) {
      if k > 0 {
        assert ([r] + rs)[k] == rs[k - 1];
      }
    }
  }

  /** Every record read has a one-word name and an int score. */
  lemma {:induction false} ReadRecordsStorable(s: string)
    ensures Storable(ReadRecords(s))
    decreases |s|
  {
    match ReadName(s) {
      case None =>
      case Some((name, afterName)) =>
        match ExtractInt(afterName) {
          case None =>
          case Some((score, afterScore)) =>
            ReadRecordsStorable(afterScore);
            StorableCons(Record(name, score), ReadRecords(afterScore));
        }
    }
  }

  // ---------------------------------------------------------------------
  // Writing: `out << name << " " << score << "\n"` for each record

  function Line(r: Record): string
  {
    r.name + " " + IntToString(r.score) + "\n"
  }

  function WriteRecords(rs: seq<Record>): string
  {
    if rs == [] then [] else Line(rs[0]) + WriteRecords(rs[1..])
  }

  lemma {:induction false} WriteRecordsAppend(a: seq<Record>, b: seq<Record>)
    ensures WriteRecords(a + b) == WriteRecords(a) + WriteRecords(b)
  {
    if a != [] {
      assert (a + b)[1..] == a[1..] + b;
      WriteRecordsAppend(a[1..], b);
    } else {
      assert a + b == b;
    }
  }

  lemma {:induction false} WordLenOfWord(w: string, x: string)
    requires NoSpaces(w) && (x == [] || IsSpace(x[0]))
    ensures WordLen(w + x) == |w|
  {
    if w != [] {
      assert (w + x)[1..] == w[1..] + x;
      WordLenOfWord(w[1..], x);
    } else {
      assert w + x == x;
    }
  }

  /** A word followed by a blank is read back as that word. */
  lemma ReadWord(w: string, x: string)
    requires IsWord(w) && x != [] && IsSpace(x[0])
    ensures ReadName(w + x) == Some((w, x))
  {
    var s := w + x;
    assert s[0] == w[0];
    assert DropSpaces(s) == s;
    WordLenOfWord(w, x);
    assert s[..|w|] == w && s[|w|..] == x;
  }

  /** `>> score` after one blank reads what the text after the blank
      starts with. */
  lemma ExtractAfterBlank(y: string, v: int, rest: string)
    requires y != [] && !IsSpace(y[0])
    requires ReadSigned(y) == Some((v, rest)) && InInt32(v)
    ensures ExtractInt([' '] + y) == Some((v, rest))
  {
    assert ([' '] + y)[1..] == y;
    assert DropSpaces(y) == y;
  }

  /** A printed int after a blank is read back, and the read stops at the
      newline. */
  lemma ReadScore(v: int, tail: string)
    requires InInt32(v)
    ensures ExtractInt(" " + IntToString(v) + "\n" + tail) == Some((v, "\n" + tail))
  {
    var p := IntToString(v);
    var y := p + ("\n" + tail);
    assert " " + p + "\n" + tail == [' '] + y;
    IntToStringReads(v, "\n" + tail);
    ExtractAfterBlank(y, v, "\n" + tail);
  }

  /** Two texts whose first word reads the same read the same records. */
  lemma SameFirstName(s: string, t: string)
    requires ReadName(s) == ReadName(t)
    ensures ReadRecords(s) == ReadRecords(t)
  {
  }

  lemma SkipNewline(tail: string)
    ensures ReadRecords("\n" + tail) == ReadRecords(tail)
  {
    assert DropSpaces("\n" + tail) == DropSpaces(tail) by {
      assert ("\n" + tail)[1..] == tail;
    }
    SameFirstName("\n" + tail, tail);
  }

  lemma ReadLine(r: Record, tail: string)
    requires IsWord(r.name) && InInt32(r.score)
    ensures ReadRecords(Line(r) + tail) == [r] + ReadRecords(tail)
  {
    var x := " " + IntToString(r.score) + "\n" + tail;
    assert Line(r) + tail == r.name + x;
    ReadWord(r.name, x);
    ReadScore(r.score, tail);
    SkipNewline(tail);
  }

  lemma WriteCons(rs: seq<Record>, tail: string)
    requires rs != []
    ensures WriteRecords(rs) + tail == Line(rs[0]) + (WriteRecords(rs[1..]) + tail)
  {
  }

  lemma ConsAssoc(rs: seq<Record>, more: seq<Record>)
    requires rs != []
    ensures [rs[0]] + (rs[1..] + more) == rs + more
  {
    assert rs == [rs[0]] + rs[1..];
  }

  /** Writing records and reading them back gives the same records, and
      the read goes on into whatever follows. */
  lemma {:induction false} RoundTripThen(rs: seq<Record>, tail: string)
    requires Storable(rs)
    ensures ReadRecords(WriteRecords(rs) + tail) == rs + ReadRecords(tail)
  {
    if rs == [] {
      assert WriteRecords(rs) + tail == tail;
    } else {
      WriteCons(rs, tail);
      ReadLine(rs[0], WriteRecords(rs[1..]) + tail);
      RoundTripThen(rs[1..], tail);
      ConsAssoc(rs, ReadRecords(tail));
    }
  }

  lemma RoundTrip(rs: seq<Record>)
    requires Storable(rs)
    ensures ReadRecords(WriteRecords(rs)) == rs
  {
    RoundTripThen(rs, []);
    var w := WriteRecords(rs);
    assert w + [] == w;
    assert ReadRecords([]) == [] by {
      assert ReadName([]) == None;
    }
    assert rs + [] == rs;
  }

  /** A name followed by something that is not an int ends the read: what
      comes after it is never loaded. */
  lemma StopsAtBadRecord(rs: seq<Record>, name: string, t: string)
    requires Storable(rs) && IsWord(name)
    requires ExtractInt(" " + t).None?
    ensures ReadRecords(WriteRecords(rs) + (name + (" " + t))) == rs
  {
    RoundTripThen(rs, name + (" " + t));
    BadRecordReadsNothing(name, t);
    assert rs + [] == rs;
  }

  lemma BadRecordReadsNothing(name: string, t: string)
    requires IsWord(name) && ExtractInt(" " + t).None?
    ensures ReadRecords(name + (" " + t)) == []
  {
    ReadWord(name, " " + t);
  }

  /** The text of a list with one record singled out. */
  lemma WriteAround(rs: seq<Record>, r: Record, more: seq<Record>)
    ensures WriteRecords(rs + [r] + more) == WriteRecords(rs) + (Line(r) + WriteRecords(more))
  {
    calc {
      WriteRecords(rs + [r] + more);
    == { WriteRecordsAppend(rs + [r], more); }
      WriteRecords(rs + [r]) + WriteRecords(more);
    == { WriteRecordsAppend(rs, [r]); WriteOne(r); }
      WriteRecords(rs) + Line(r) + WriteRecords(more);
    }
  }

  lemma WriteOne(r: Record)
    ensures WriteRecords([r]) == Line(r)
  {
    assert WriteRecords([r]) == Line(r) + WriteRecords([]);
  }

  lemma BlankNameLine(w: string)
    ensures Line(Record("John Doe", 10)) + w == "John" + (" " + ("Doe 10\n" + w))
  {
    assert NatToString(1) == "1";
    assert IntToString(10) == "10";
  }

  lemma WordIsNotAnInt(w: string)
    ensures ExtractInt(" " + ("Doe 10\n" + w)).None?
  {
    var t := "Doe 10\n" + w;
    assert (" " + t)[1..] == t;
    assert DropSpaces(" " + t) == t;
  }

  lemma FirstNameIsAWord()
    ensures IsWord("John")
  {
    var j := "John";
    assert !IsSpace(j[0]) && !IsSpace(j[1]) && !IsSpace(j[2]) && !IsSpace(j[3]);
  }

  /** A name with a blank in it, once written, hides itself and every
      record after it from the next read. */
  lemma BlankInNameDropsRest(rs: seq<Record>, more: seq<Record>)
    requires Storable(rs)
    ensures ReadRecords(WriteRecords(rs + [Record("John Doe", 10)] + more)) == rs
  {
    var r, w := Record("John Doe", 10), WriteRecords(more);
    calc {
      ReadRecords(WriteRecords(rs + [r] + more));
    == { WriteAround(rs, r, more); }
      ReadRecords(WriteRecords(rs) + (Line(r) + w));
    == { BlankNameLine(w); }
      ReadRecords(WriteRecords(rs) + ("John" + (" " + ("Doe 10\n" + w))));
    == { WordIsNotAnInt(w); FirstNameIsAWord(); StopsAtBadRecord(rs, "John", "Doe 10\n" + w); }
      rs;
    }
  }

  // ---------------------------------------------------------------------
  // `updateScore(player, points)`

  predicate HasName(rs: seq<Record>, player: string)
  {
    exists k :: 0 <= k < |rs| && rs[k].name == player
  }

  /** One record after `updateScore`'s test: the player's gains `points`. */
  function Bump(r: Record, player: string, points: int): Record
  {
    if r.name == player then Record(r.name, r.score + points) else r
  }

  /** Every record of `player` gains `points`; the others are kept. The
      list is built at its end, as the read loop pushes back. */
  function AddPoints(rs: seq<Record>, player: string, points: int): (out: seq<Record>)
    ensures |out| == |rs|
  {
    if rs == [] then []
    else AddPoints(rs[..|rs| - 1], player, points) + [Bump(rs[|rs| - 1], player, points)]
  }

  lemma {:induction false} AddPointsSpec(rs: seq<Record>, player: string, points: int)
    ensures var out := AddPoints(rs, player, points);
            forall k :: 0 <= k < |rs| ==>
              out[k].name == rs[k].name
              && out[k].score == rs[k].score + (if rs[k].name == player then points else 0)
  {
    if rs != [] {
      var init := rs[..|rs| - 1];
      AddPointsSpec(init, player, points);
      var out := AddPoints(rs, player, points);
      var front := AddPoints(init, player, points);
      forall k | 0 <= k < |rs|
        ensures out[k].name == rs[k].name
        ensures out[k].score == rs[k].score + (if rs[k].name == player then points else 0)
      {
        if k < |rs| - 1 {
          assert out[k] == front[k];
          assert rs[k] == init[k];
        }
      }
    }
  }

  /** The new record list: points added to the player's records, or the
      player appended with `points` when absent. */
  function Upsert(rs: seq<Record>, player: string, points: int): seq<Record>
  {
    AddPoints(rs, player, points) + (if HasName(rs, player) then [] else [Record(player, points)])
  }

  /** Every record keeps its name and place, the player's records gain the
      points and no other record changes; the list grows by one, the
      player's new record at the end, exactly when the player was absent;
      afterwards the player is always present. */
  lemma UpsertSpec(rs: seq<Record>, player: string, points: int)
    ensures var out := Upsert(rs, player, points);
            && |out| == |rs| + (if HasName(rs, player) then 0 else 1)
            && (forall k :: 0 <= k < |rs| ==>
                  out[k].name == rs[k].name
                  && out[k].score == rs[k].score + (if rs[k].name == player then points else 0))
            && (!HasName(rs, player) ==> out[|rs|] == Record(player, points))
            && HasName(out, player)
  {
    var out := Upsert(rs, player, points);
    AddPointsSpec(rs, player, points);
    if HasName(rs, player) {
      var k :| 0 <= k < |rs| && rs[k].name == player;
      assert out[k].name == player;
    } else {
      assert out[|rs|].name == player;
    }
  }

  lemma AddPointsSnoc(rs: seq<Record>, r: Record, player: string, points: int)
    ensures AddPoints(rs + [r], player, points) == AddPoints(rs, player, points) + [Bump(r, player, points)]
  {
    assert (rs + [r])[..|rs|] == rs;
  }

  /** `inFile >> name >> score`: a word, then an integer, or nothing once
      either extraction fails. */
  method ReadRecord(s: string) returns (r: Option<(Record, string)>)
    ensures r.None? ==> ReadRecords(s) == []
    ensures r.Some? ==> ReadRecords(s) == [r.value.0] + ReadRecords(r.value.1) && |r.value.1| < |s|
  {
    var nameRead := ReadName(s);
    if nameRead.None? {
      return None;
    }
    var (name, afterName) := nameRead.value;
    var scoreRead := ExtractInt(afterName);
    if scoreRead.None? {
      return None;
    }
    var (score, afterScore) := scoreRead.value;
    return Some((Record(name, score), afterScore));
  }

  lemma ReadSnoc(read: seq<Record>, r: Record, more: seq<Record>)
    ensures read + ([r] + more) == (read + [r]) + more
  {
  }

  lemma HasNameSnoc(rs: seq<Record>, r: Record, player: string)
    ensures HasName(rs + [r], player) == (HasName(rs, player) || r.name == player)
  {
    if r.name == player {
      assert (rs + [r])[|rs|].name == player;
    }
    if HasName(rs, player) {
      var k :| 0 <= k < |rs| && rs[k].name == player;
      assert (rs + [r])[k] == rs[k];
    }
  }

  lemma WriteSnoc(rs: seq<Record>, k: nat)
    requires k < |rs|
    ensures WriteRecords(rs[..k + 1]) == WriteRecords(rs[..k]) + rs[k].name + " " + IntToString(rs[k].score) + "\n"
  {
    assert rs[..k + 1] == rs[..k] + [rs[k]];
    WriteRecordsAppend(rs[..k], [rs[k]]);
    assert WriteRecords([rs[k]]) == Line(rs[k]) + [];
  }

  /** The loop body's test: the player's record gains the points. */
  method BumpRecord(r: Record, player: string, points: int) returns (bumped: Record, hit: bool)
    ensures bumped == Bump(r, player, points)
    ensures hit == (r.name == player)
    ensures bumped.name == r.name
  {
    var name, score := r.name, r.score;
    hit := false;
    if name == player {
      score := score + points;
      hit := true;
    }
    bumped := Record(name, score);
  }

  /** The read loop of `updateScore`: every record read, with the player's
      points added, and whether the player was seen. */
  method ReadAndBump(file: string, player: string, points: int) returns (scores: seq<Record>, found: bool)
    ensures scores + (if found then [] else [Record(player, points)]) == Upsert(ReadRecords(file), player, points)
    ensures scores == AddPoints(ReadRecords(file), player, points)
    ensures found == HasName(ReadRecords(file), player)
  {
    scores := [];
    found := false;
    ghost var read: seq<Record> := [];
    var s := file;
    while true
      invariant ReadRecords(file) == read + ReadRecords(s)
      invariant scores == AddPoints(read, player, points)
      invariant found == HasName(read, player)
      decreases |s|
    {
      var next := ReadRecord(s);
      if next.None? {
        break;
      }
      var (r, rest) := next.value;
      ReadSnoc(read, r, ReadRecords(rest));
      AddPointsSnoc(read, r, player, points);
      HasNameSnoc(read, r, player);
      read := read + [r];
      var bumped, hit := BumpRecord(r, player, points);
      found := found || hit;
      scores := scores + [bumped];
      s := rest;
    }
    assert read + [] == read;
  }

  /** The write loop of `updateScore`: one `name score` line per record. */
  method WriteAll(scores: seq<Record>) returns (text: string)
    ensures text == WriteRecords(scores)
    ensures Storable(scores) ==> ReadRecords(text) == scores
  {
    text := [];
    var k := 0;
    while k < |scores|
      invariant 0 <= k <= |scores|
      invariant text == WriteRecords(scores[..k])
    {
      WriteSnoc(scores, k);
      text := text + scores[k].name + " " + IntToString(scores[k].score) + "\n";
      k := k + 1;
    }
    assert scores[..k] == scores;
    if Storable(scores) {
      RoundTrip(scores);
    }
  }

  /** `updateScore` on the file's text: the read loop with its `found` flag,
      the append when the player was absent, and the rewrite of the whole
      file. */
  method UpdateScore(file: string, player: string, points: int) returns (newFile: string)
    ensures newFile == WriteRecords(Upsert(ReadRecords(file), player, points))
    ensures Storable(Upsert(ReadRecords(file), player, points)) ==>
              ReadRecords(newFile) == Upsert(ReadRecords(file), player, points)
  {
    var scores, found := ReadAndBump(file, player, points);
    ghost var up := Upsert(ReadRecords(file), player, points);
    if !found {
      scores := scores + [Record(player, points)];
    }
    assert scores == up;
    newFile := WriteAll(scores);
  }

  // ---------------------------------------------------------------------
  // The high-score view: `std::sort` with `b.second < a.second`

  /** Scores never increase along the list. */
  predicate Descending(rs: seq<Record>)
  {
    forall i, j :: 0 <= i < j < |rs| ==> rs[i].score >= rs[j].score
  }

  /** Exchanges two cells of the array. */
  method Swap(a: array<Record>, i: int, j: int)
    requires 0 <= i < a.Length && 0 <= j < a.Length
    modifies a
    ensures a[i] == old(a[j]) && a[j] == old(a[i])
    ensures forall k :: 0 <= k < a.Length && k != i && k != j ==> a[k] == old(a[k])
    ensures multiset(a[..]) == multiset(old(a[..]))
  {
    a[i], a[j] := a[j], a[i];
  }

  /** Two sequences with the same elements that agree from `n` on have
      the same tail and the same elements before `n`. */
  lemma SamePrefixMultiset(x: seq<Record>, y: seq<Record>, n: int)
    requires 0 <= n <= |x| == |y|
    requires multiset(x) == multiset(y)
    requires forall k :: n <= k < |x| ==> x[k] == y[k]
    ensures x[n..] == y[n..]
    ensures multiset(x[..n]) == multiset(y[..n])
  {
    assert x[n..] == y[n..];
    assert multiset(x) == multiset(x[..n]) + multiset(x[n..]) by { assert x == x[..n] + x[n..]; }
    assert multiset(y) == multiset(y[..n]) + multiset(y[n..]) by { assert y == y[..n] + y[n..]; }
    forall r ensures multiset(x[..n])[r] == multiset(y[..n])[r] {
      assert multiset(x)[r] == multiset(x[..n])[r] + multiset(x[n..])[r];
      assert multiset(y)[r] == multiset(y[..n])[r] + multiset(y[n..])[r];
    }
  }

  /** The swap loop of an insertion step: `a[i]` sinks past every
      lower-scored record before it; nothing after `i` moves. */
  method SinkDown(a: array<Record>, i: int)
    requires 0 <= i < a.Length
    requires forall p, q :: 0 <= p < q < i ==> a[p].score >= a[q].score
    modifies a
    ensures forall p, q :: 0 <= p < q <= i ==> a[p].score >= a[q].score
    ensures multiset(a[..]) == multiset(old(a[..]))
    ensures forall k :: i < k < a.Length ==> a[k] == old(a[k])
  {
    var j := i;
    while j > 0 && a[j - 1].score < a[j].score
      invariant 0 <= j <= i
      invariant forall p, q :: 0 <= p < q <= i && p != j && q != j ==> a[p].score >= a[q].score
      invariant forall q :: j < q <= i ==> a[j].score > a[q].score
      invariant multiset(a[..]) == multiset(old(a[..]))
      invariant forall k :: i < k < a.Length ==> a[k] == old(a[k])
    {
      Swap(a, j - 1, j);
      j := j - 1;
    }
  }

  /** One insertion step: with `a[..i]` sorted, `a[i]` is swapped down to
      its place, leaving `a[..i + 1]` a sorted permutation of what it held
      and the cells after `i` as they were. */
  method InsertDown(a: array<Record>, i: int)
    requires 0 <= i < a.Length
    requires forall p, q :: 0 <= p < q < i ==> a[p].score >= a[q].score
    modifies a
    ensures forall p, q :: 0 <= p < q <= i ==> a[p].score >= a[q].score
    ensures multiset(a[..]) == multiset(old(a[..]))
    ensures a[i + 1..] == old(a[i + 1..])
    ensures multiset(a[..i + 1]) == multiset(old(a[..i + 1]))
  {
    SinkDown(a, i);
    SamePrefixMultiset(a[..], old(a[..]), i + 1);
  }

  /** Sorts by score, highest first, in place. Ties may come out in any
      order, as with `std::sort`. */
  method SortByScore(a: array<Record>)
    modifies a
    ensures Descending(a[..])
    ensures multiset(a[..]) == multiset(old(a[..]))
  {
    var i := 0;
    while i < a.Length
      invariant 0 <= i <= a.Length
      invariant forall p, q :: 0 <= p < q < i ==> a[p].score >= a[q].score
      invariant multiset(a[..]) == multiset(old(a[..]))
    {
      InsertDown(a, i);
      i := i + 1;
    }
  }

  /** The records copied into an array and sorted there. */
  method SortedCopy(rs: seq<Record>) returns (scores: seq<Record>)
    ensures Descending(scores)
    ensures multiset(scores) == multiset(rs)
    ensures |scores| == |rs|
  {
    var a := new Record[|rs|](k requires 0 <= k < |rs| => rs[k]);
    assert a[..] == rs;
    SortByScore(a);
    scores := a[..];
    assert |scores| == |multiset(scores)| == |multiset(rs)| == |rs|;
  }

  /** The load-and-sort part of `showHighScores`: the file's records,
      highest score first. */
  method LoadHighScores(file: string) returns (scores: seq<Record>)
    ensures Descending(scores)
    ensures multiset(scores) == multiset(ReadRecords(file))
    ensures scores == [] <==> ReadRecords(file) == []
  {
    scores := SortedCopy(ReadRecords(file));
  }
}
