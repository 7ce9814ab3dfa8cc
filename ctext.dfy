/**
 * The C and C++ standard-library text conversions the screens rely on:
 * whitespace-separated extraction (`stream >> word`), `std::stoll`,
 * `stream >> int` and decimal printing (`stream << int`, `std::to_string`).
 * Strings are sequences of chars; only the "C" locale is modelled.
 */
module CText {
  import opened Wrappers

  /** isspace in the "C" locale. */
  predicate IsSpace(c: char)
  {
    c == ' ' || c == '\t' || c == '\n' || c == '\U{B}' || c == '\U{C}' || c == '\r'
  }

  predicate IsDigit(c: char)
  {
    '0' <= c <= '9'
  }

  predicate NoSpaces(s: string)
  {
    forall i :: 0 <= i < |s| ==> !IsSpace(s[i])
  }

  predicate AllSpaces(s: string)
  {
    forall i :: 0 <= i < |s| ==> IsSpace(s[i])
  }

  predicate AllDigits(s: string)
  {
    forall i :: 0 <= i < |s| ==> IsDigit(s[i])
  }

  // ---------------------------------------------------------------------
  // Whitespace-separated words: `stream >> std::string`

  /** What is left after the leading whitespace a formatted read skips. */
  function DropSpaces(s: string): (r: string)
    ensures |r| <= |s| && r == s[|s| - |r|..]
    ensures r == [] || !IsSpace(r[0])
  {
    if s != [] && IsSpace(s[0]) then DropSpaces(s[1..]) else s
  }

  /** What the read skips is all whitespace. */
  lemma {:induction false} DropSpacesSkipsSpaces(s: string)
    ensures AllSpaces(s[..|s| - |DropSpaces(s)|])
  {
    if s != [] && IsSpace(s[0]) {
      DropSpacesSkipsSpaces(s[1..]);
      var k := |s| - |DropSpaces(s)|;
      assert s[..k] == [s[0]] + s[1..][..k - 1];
    }
  }

  /** Length of the run of non-whitespace characters `s` starts with. */
  function WordLen(s: string): (n: nat)
    ensures n <= |s|
    ensures n < |s| ==> IsSpace(s[n])
    ensures s != [] && !IsSpace(s[0]) ==> n > 0
  {
    if s != [] && !IsSpace(s[0]) then 1 + WordLen(s[1..]) else 0
  }

  /** The run WordLen measures holds no whitespace. */
  lemma {:induction false} WordLenNoSpaces(s: string)
    ensures NoSpaces(s[..WordLen(s)])
  {
    if s != [] && !IsSpace(s[0]) {
      WordLenNoSpaces(s[1..]);
      assert s[..WordLen(s)] == [s[0]] + s[1..][..WordLen(s[1..])];
    }
  }

  /** The words `while (ss >> token)` extracts from `s`, in order. */
  function Tokens(s: string): (ts: seq<string>)
    decreases |s|
  {
    var t := DropSpaces(s);
    if t == [] then [] else
      var n := WordLen(t);
      [t[..n]] + Tokens(t[n..])
  }

  predicate IsWord(w: string)
  {
    w != [] && NoSpaces(w)
  }

  /** Every extracted word is non-empty and holds no whitespace. */
  lemma {:induction false} TokensAreWords(s: string)
    ensures forall k :: 0 <= k < |Tokens(s)| ==> IsWord(Tokens(s)[k])
    decreases |s|
  {
    var t := DropSpaces(s);
    if t != [] {
      var n := WordLen(t);
      var tail := Tokens(t[n..]);
      TokensAreWords(t[n..]);
      WordLenNoSpaces(t);
      assert IsWord(t[..n]);
      var ts := Tokens(s);
      assert ts == [t[..n]] + tail;
      forall k | 0 <= k < |ts| ensures IsWord(ts[k]) {
        if k > 0 {
          assert ts[k] == tail[k - 1];
        }
      }
    }
  }

  /** A string yields no word exactly when it is empty or all whitespace. */
  lemma TokensEmptyIff(s: string)
    ensures Tokens(s) == [] <==> AllSpaces(s)
  {
    var t := DropSpaces(s);
    DropSpacesSkipsSpaces(s);
    if t == [] {
      assert s[..|s|] == s;
    } else {
      assert s[|s| - |t|] == t[0];
    }
  }

  /** Leading whitespace changes nothing a formatted read sees. */
  lemma {:induction false} DropSpacesAfterSpaces(sep: string, s: string)
    requires AllSpaces(sep)
    ensures DropSpaces(sep + s) == DropSpaces(s)
    decreases |sep|
  {
    if sep == [] {
      assert sep + s == s;
    } else {
      assert (sep + s)[0] == sep[0] && IsSpace(sep[0]);
      assert (sep + s)[1..] == sep[1..] + s;
      assert AllSpaces(sep[1..]) by {
        forall i | 0 <= i < |sep[1..]| ensures IsSpace(sep[1..][i]) {
          assert sep[1..][i] == sep[i + 1];
        }
      }
      DropSpacesAfterSpaces(sep[1..], s);
    }
  }

  /** A read that starts on a blank-free run stops at the first blank. */
  lemma {:induction false} WordLenOfWord(w: string, s: string)
    requires NoSpaces(w) && (s == [] || IsSpace(s[0]))
    ensures WordLen(w + s) == |w|
    decreases |w|
  {
    if w != [] {
      assert (w + s)[0] == w[0];
      assert (w + s)[1..] == w[1..] + s;
      WordLenOfWord(w[1..], s);
    } else {
      assert w + s == s;
    }
  }

  /** Whitespace before the text yields no extra words. */
  lemma TokensAfterSpaces(sep: string, s: string)
    requires AllSpaces(sep)
    ensures Tokens(sep + s) == Tokens(s)
  {
    DropSpacesAfterSpaces(sep, s);
  }

  /** A word followed by the end or a blank is extracted whole, and the
      reads go on from the blank. */
  lemma TokensOfWord(w: string, s: string)
    requires IsWord(w) && (s == [] || IsSpace(s[0]))
    ensures Tokens(w + s) == [w] + Tokens(s)
  {
    var t := w + s;
    assert t[0] == w[0];
    assert DropSpaces(t) == t;
    WordLenOfWord(w, s);
    assert t[..|w|] == w && t[|w|..] == s;
  }

  /** Words joined by single blanks. */
  function JoinWords(ws: seq<string>): (s: string)
    ensures ws == [] ==> s == []
  {
    if ws == [] then []
    else if |ws| == 1 then ws[0]
    else ws[0] + " " + JoinWords(ws[1..])
  }

  /** A non-empty sequence is its head followed by its tail. */
  lemma HeadTail<T>(xs: seq<T>)
    requires xs != []
    ensures [xs[0]] + xs[1..] == xs
  {
  }

  /** A text that is one word yields just that word. */
  lemma TokensOneWord(w: string)
    requires IsWord(w)
    ensures Tokens(w) == [w]
  {
    var e: string := [];
    TokensOfWord(w, e);
    assert w + e == w;
    assert Tokens(e) == [];
  }

  /** One more word in front of blank-joined words is extracted first. */
  lemma TokensJoinCons(ws: seq<string>)
    requires |ws| > 1 && IsWord(ws[0])
    ensures Tokens(JoinWords(ws)) == [ws[0]] + Tokens(JoinWords(ws[1..]))
  {
    var w: string := ws[0];
    var rest := JoinWords(ws[1..]);
    var sep: string := " ";
    assert JoinWords(ws) == w + (sep + rest);
    assert (sep + rest)[0] == ' ';
    TokensOfWord(w, sep + rest);
    assert AllSpaces(sep);
    TokensAfterSpaces(sep, rest);
  }

  /** Extracting the words of blank-joined words gives them back, in order:
      the words are exactly the text's maximal blank-free runs. */
  lemma {:induction false} TokensJoinWords(ws: seq<string>)
    requires forall k :: 0 <= k < |ws| ==> IsWord(ws[k])
    ensures Tokens(JoinWords(ws)) == ws
    decreases |ws|
  {
    if |ws| == 1 {
      TokensOneWord(ws[0]);
    } else if |ws| > 1 {
      var tail := ws[1..];
      assert forall k :: 0 <= k < |tail| ==> IsWord(tail[k]) by {
        forall k | 0 <= k < |tail| ensures IsWord(tail[k]) {
          assert tail[k] == ws[k + 1];
        }
      }
      TokensJoinWords(tail);
      TokensJoinCons(ws);
      calc {
        Tokens(JoinWords(ws));
        [ws[0]] + Tokens(JoinWords(tail));
        [ws[0]] + tail;
        { HeadTail(ws); }
        ws;
      }
    }
  }

  // ---------------------------------------------------------------------
  // Decimal integers

  function DigitValue(c: char): (d: nat)
    requires IsDigit(c)
    ensures d < 10
  {
    (c as int) - ('0' as int)
  }

  function DigitChar(d: nat): (c: char)
    requires d < 10
    ensures IsDigit(c) && DigitValue(c) == d
  {
    (('0' as int) + d) as char
  }

  /** Length of the run of decimal digits `s` starts with. */
  function DigitRunLen(s: string): (n: nat)
    ensures n <= |s|
    ensures n < |s| ==> !IsDigit(s[n])
  {
    if s != [] && IsDigit(s[0]) then 1 + DigitRunLen(s[1..]) else 0
  }

  /** The run DigitRunLen measures is all digits. */
  lemma {:induction false} DigitRunAllDigits(s: string)
    ensures AllDigits(s[..DigitRunLen(s)])
  {
    if s != [] && IsDigit(s[0]) {
      DigitRunAllDigits(s[1..]);
      assert s[..DigitRunLen(s)] == [s[0]] + s[1..][..DigitRunLen(s[1..])];
    }
  }

  /** The value of a string of decimal digits, most significant first. */
  function DigitsValue(ds: string): nat
    requires AllDigits(ds)
  {
    if ds == [] then 0 else 10 * DigitsValue(ds[..|ds| - 1]) + DigitValue(ds[|ds| - 1])
  }

  /** An optional sign and at least one digit, at the very start of `t`
      (whitespace already skipped): the value read and the text after it. */
  function ReadSigned(t: string): Option<(int, string)>
  {
    var signLen := if t != [] && (t[0] == '-' || t[0] == '+') then 1 else 0;
    var ds := t[signLen..];
    var n := DigitRunLen(ds);
    if n == 0 then None
    else
      DigitRunAllDigits(ds);
      var magnitude: int := DigitsValue(ds[..n]);
      Some((if signLen == 1 && t[0] == '-' then -magnitude else magnitude, ds[n..]))
  }

  predicate InInt64(v: int) { -0x8000_0000_0000_0000 <= v < 0x8000_0000_0000_0000 }
  predicate InInt32(v: int) { -0x8000_0000 <= v < 0x8000_0000 }

  /** `std::stoll(s)`: leading whitespace skipped, a numeric prefix accepted;
      None when it would throw (no digits: invalid_argument; value outside
      long long: out_of_range). */
  function Stoll(s: string): (r: Option<int>)
    ensures r.Some? ==> InInt64(r.value)
  {
    match ReadSigned(DropSpaces(s))
    case None => None
    case Some((v, _)) => if InInt64(v) then Some(v) else None
  }

  /** `stream >> n` for an `int n`: leading whitespace skipped; None when the
      stream fails (no digits, or a value outside int). */
  function ExtractInt(s: string): (r: Option<(int, string)>)
    ensures r.Some? ==> InInt32(r.value.0) && |r.value.1| < |s|
  {
    match ReadSigned(DropSpaces(s))
    case None => None
    case Some((v, rest)) => if InInt32(v) then Some((v, rest)) else None
  }

  /** Decimal digits of a natural number, no leading zeros. */
  function NatToString(n: nat): (s: string)
    ensures s != [] && IsDigit(s[0])
  {
    if n < 10 then [DigitChar(n)] else NatToString(n / 10) + [DigitChar(n % 10)]
  }

  lemma {:induction false} NatToStringDigits(n: nat)
    ensures AllDigits(NatToString(n))
  {
    if n >= 10 {
      NatToStringDigits(n / 10);
      var s := NatToString(n);
      assert s == NatToString(n / 10) + [DigitChar(n % 10)];
    }
  }

  /** `out << v` / `std::to_string(v)` for an integer. */
  function IntToString(v: int): (s: string)
    ensures s != [] && (s[0] == '-' || IsDigit(s[0]))
  {
    if v < 0 then "-" + NatToString(-v) else NatToString(v)
  }

  lemma {:induction false} NatToStringValue(n: nat)
    ensures AllDigits(NatToString(n)) && DigitsValue(NatToString(n)) == n
  {
    NatToStringDigits(n);
    if n >= 10 {
      var s := NatToString(n);
      NatToStringValue(n / 10);
      assert s[..|s| - 1] == NatToString(n / 10);
    }
  }

  lemma {:induction false} DigitRunOfDigits(ds: string, r: string)
    requires AllDigits(ds)
    requires r == [] || !IsDigit(r[0])
    ensures DigitRunLen(ds + r) == |ds|
  {
    if ds != [] {
      assert (ds + r)[1..] == ds[1..] + r;
      DigitRunOfDigits(ds[1..], r);
    }
  }

  /** A run of digits followed by a non-digit reads as its value. */
  lemma ReadUnsigned(ds: string, r: string)
    requires ds != [] && AllDigits(ds)
    requires r == [] || !IsDigit(r[0])
    ensures ReadSigned(ds + r) == Some((DigitsValue(ds), r))
  {
    var t := ds + r;
    assert t[0] == ds[0];
    assert t[0..] == t;
    DigitRunOfDigits(ds, r);
    assert t[..|ds|] == ds;
    assert t[|ds|..] == r;
  }

  /** The same run after a minus sign reads as its negated value. */
  lemma ReadNegative(ds: string, r: string)
    requires ds != [] && AllDigits(ds)
    requires r == [] || !IsDigit(r[0])
    ensures ReadSigned(['-'] + (ds + r)) == Some((0 - DigitsValue(ds), r))
  {
    var t := ['-'] + (ds + r);
    assert t[1..] == ds + r;
    DigitRunOfDigits(ds, r);
    assert (ds + r)[..|ds|] == ds;
    assert (ds + r)[|ds|..] == r;
  }

  /** Printing an integer and reading it back gives the same integer, and the
      read stops exactly where the printed digits end. */
  lemma IntToStringReads(v: int, r: string)
    requires r == [] || !IsDigit(r[0])
    ensures ReadSigned(IntToString(v) + r) == Some((v, r))
  {
    var m: nat := if v < 0 then -v else v;
    var ds := NatToString(m);
    NatToStringValue(m);
    if v < 0 {
      assert IntToString(v) + r == ['-'] + (ds + r);
      ReadNegative(ds, r);
    } else {
      assert IntToString(v) + r == ds + r;
      ReadUnsigned(ds, r);
    }
  }

  /** `stoll` reads back any printed long long, whatever non-digit text
      follows it. */
  lemma StollReadsPrinted(v: int, r: string)
    requires InInt64(v)
    requires r == [] || !IsDigit(r[0])
    ensures Stoll(IntToString(v) + r) == Some(v)
  {
    var t := IntToString(v) + r;
    assert t[0] == IntToString(v)[0];
    assert DropSpaces(t) == t;
    IntToStringReads(v, r);
  }
}
