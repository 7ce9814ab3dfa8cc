/**
 * The RSA unlock form: three text fields (n, e and the ciphertext), one of
 * which has the keyboard focus, a Decrypt button and a result line. The
 * unlock test is a literal comparison; `Rsa.Decrypt` is not called by it.
 */
module RsaScreen {
  import opened Events
  import opened Geometry
  import opened Wrappers
  import opened CText
  import NameEntry

  const RectN := Rect(200, 40, 500, 38)
  const RectE := Rect(200, 100, 500, 38)
  const RectEnc := Rect(200, 190, 500, 38)
  const DecryptButton := Rect(50, 260, 120, 40)

  const Unlocked := "Curzon is haunted"
  const Denied := "Access Denied. Try again."
  const Invalid := "Invalid input"

  datatype Focus = FocusN | FocusE | FocusEnc

  datatype Form = Form(inputN: string, inputE: string, inputEnc: string, result: string, focus: Focus)

  const EmptyForm := Form([], [], [], [], FocusN)

  /** The text of one field. */
  function Field(f: Form, which: Focus): string
  {
    match which
    case FocusN => f.inputN
    case FocusE => f.inputE
    case FocusEnc => f.inputEnc
  }

  function FieldRect(which: Focus): Rect
  {
    match which
    case FocusN => RectN
    case FocusE => RectE
    case FocusEnc => RectEnc
  }

  /** The message a click on Decrypt shows. `stoll` throwing on either number
      gives "Invalid input"; the comparison itself is on the parsed numbers
      and on the exact ciphertext text. */
  function UnlockMessage(n: string, e: string, enc: string): (msg: string)
    ensures msg == Unlocked <==> Stoll(n) == Some(2537) && Stoll(e) == Some(13) && enc == "2081 2182 2024"
    ensures msg == Invalid <==> Stoll(n).None? || Stoll(e).None?
    ensures msg == Denied <==> Stoll(n).Some? && Stoll(e).Some? && !(Stoll(n) == Some(2537) && Stoll(e) == Some(13) && enc == "2081 2182 2024")
  {
    match (Stoll(n), Stoll(e))
    case (Some(nv), Some(ev)) =>
      if nv == 2537 && ev == 13 && enc == "2081 2182 2024" then Unlocked else Denied
    case _ => Invalid
  }

  /** `stoll` accepts a numeric prefix, so n = 2537 followed by any text
      that does not start with a digit still unlocks. */
  lemma UnlockAcceptsNumericPrefix(junk: string)
    requires junk == [] || !IsDigit(junk[0])
    ensures UnlockMessage(IntToString(2537) + junk, IntToString(13), "2081 2182 2024") == Unlocked
  {
    StollReadsPrinted(2537, junk);
    StollReadsPrinted(13, []);
    assert IntToString(13) + [] == IntToString(13);
  }

  /** A mouse click at (mx, my): the Decrypt button is tested first and
      leaves the focus alone; otherwise the field strictly containing the
      point takes the focus. */
  function Click(f: Form, mx: int, my: int): (g: Form)
  {
    if InsideOpen(DecryptButton, mx, my) then f.(result := UnlockMessage(f.inputN, f.inputE, f.inputEnc))
    else if InsideOpen(RectN, mx, my) then f.(focus := FocusN)
    else if InsideOpen(RectE, mx, my) then f.(focus := FocusE)
    else if InsideOpen(RectEnc, mx, my) then f.(focus := FocusEnc)
    else f
  }

  /** The form's reaction to one event other than quit and frame ends. */
  function Step(f: Form, e: Event): Form
  {
    match e
    case MouseDown(_, mx, my) => Click(f, mx, my)
    case TextInput(t) => f.(inputN := if f.focus == FocusN then f.inputN + t else f.inputN,
                            inputE := if f.focus == FocusE then f.inputE + t else f.inputE,
                            inputEnc := if f.focus == FocusEnc then f.inputEnc + t else f.inputEnc)
    case KeyDown(k) =>
      if k != KeyBackspace then f
      else f.(inputN := if f.focus == FocusN && f.inputN != [] then f.inputN[..|f.inputN| - 1] else f.inputN,
              inputE := if f.focus == FocusE && f.inputE != [] then f.inputE[..|f.inputE| - 1] else f.inputE,
              inputEnc := if f.focus == FocusEnc && f.inputEnc != [] then f.inputEnc[..|f.inputEnc| - 1] else f.inputEnc)
    case _ => f
  }

  /** Typing appends to the focused field only; nothing else changes. */
  lemma TypingEditsFocusedField(f: Form, t: string, which: Focus)
    ensures var g := Step(f, TextInput(t));
            && Field(g, which) == (if which == f.focus then Field(f, which) + t else Field(f, which))
            && g.focus == f.focus && g.result == f.result
  {
  }

  /** Backspace removes the last character of the focused field when there is
      one, and never touches another field. */
  lemma BackspaceEditsFocusedField(f: Form, which: Focus)
    ensures var g := Step(f, KeyDown(KeyBackspace));
            var s := Field(f, which);
            && Field(g, which) == (if which == f.focus && s != [] then s[..|s| - 1] else s)
            && g.focus == f.focus && g.result == f.result
  {
  }

  /** The focus moves only on a click strictly inside the newly focused
      field that is not on the Decrypt button; the result line changes only
      on a click on the Decrypt button, to the unlock message, and then the
      focus and the fields stay as they were. */
  lemma ClickRules(f: Form, mx: int, my: int)
    ensures var g := Click(f, mx, my);
            && (g.focus != f.focus ==> InsideOpen(FieldRect(g.focus), mx, my) && !InsideOpen(DecryptButton, mx, my))
            && (InsideOpen(DecryptButton, mx, my) ==>
                  g == f.(result := UnlockMessage(f.inputN, f.inputE, f.inputEnc)))
            && (!InsideOpen(DecryptButton, mx, my) ==> g.result == f.result)
            && g.inputN == f.inputN && g.inputE == f.inputE && g.inputEnc == f.inputEnc
  {
  }

  /** The result line only ever shows nothing or one of the three messages. */
  predicate KnownResult(f: Form)
  {
    f.result == [] || f.result == Unlocked || f.result == Denied || f.result == Invalid
  }

  lemma StepKeepsKnownResult(f: Form, e: Event)
    requires KnownResult(f)
    ensures KnownResult(Step(f, e))
  {
  }

  // ---------------------------------------------------------------------
  // The form's event loop

  /** `while (running) { poll...; draw }`: quit clears `running`, which is
      tested when the batch ends. The value is the form as it was when the
      window closed. */
  function FormLoop(f: Form, running: bool, events: seq<Event>): Outcome<Form>
    decreases |events|
  {
    if events == [] then Waiting
    else
      var e, rest := events[0], events[1..];
      if e.Frame? then (if running then FormLoop(f, running, rest) else Returned(f, rest))
      else if e.Quit? then FormLoop(f, false, rest)
      else FormLoop(Step(f, e), running, rest)
  }

  lemma {:induction false} FormLoopKnownResult(f: Form, running: bool, events: seq<Event>)
    requires KnownResult(f)
    ensures var o := FormLoop(f, running, events);
            LeavesSuffix(o, events) && (o.Returned? ==> KnownResult(o.value))
    decreases |events|
  {
    if events != [] {
      var e, rest := events[0], events[1..];
      if !(e.Frame? && !running) {
        var f' := if e.Frame? || e.Quit? then f else Step(f, e);
        var running' := running && !e.Quit?;
        StepKeepsKnownResult(f, e);
        FormLoopKnownResult(f', running', rest);
        var o := FormLoop(f', running', rest);
        if o.Returned? {
          SuffixTrans(o.rest, rest, events);
        }
      }
    }
  }

  /** One polled click, text or key event, over the C++'s own locals. */
  method HandleEvent(f: Form, e: Event) returns (g: Form)
    ensures g == Step(f, e)
  {
    var inputN, inputE, inputEnc, result, focus := f.inputN, f.inputE, f.inputEnc, f.result, f.focus;
    match e {
      case MouseDown(_, mx, my) =>
        if InsideOpen(DecryptButton, mx, my) {
          result := UnlockMessage(inputN, inputE, inputEnc);
        } else if InsideOpen(RectN, mx, my) {
          focus := FocusN;
        } else if InsideOpen(RectE, mx, my) {
          focus := FocusE;
        } else if InsideOpen(RectEnc, mx, my) {
          focus := FocusEnc;
        }
      case TextInput(t) =>
        if focus == FocusN {
          inputN := inputN + t;
        } else if focus == FocusE {
          inputE := inputE + t;
        } else {
          inputEnc := inputEnc + t;
        }
      case KeyDown(k) =>
        if k == KeyBackspace {
          if focus == FocusN && inputN != [] {
            inputN := inputN[..|inputN| - 1];
          } else if focus == FocusE && inputE != [] {
            inputE := inputE[..|inputE| - 1];
          } else if focus == FocusEnc && inputEnc != [] {
            inputEnc := inputEnc[..|inputEnc| - 1];
          }
        }
      case _ =>
    }
    g := Form(inputN, inputE, inputEnc, result, focus);
  }

  /**
   * The event loop of `launchRSAGUI` / `runRSADecyptor`.
   */
  method RunForm(events: seq<Event>) returns (o: Outcome<Form>)
    ensures o == FormLoop(EmptyForm, true, events)
    ensures LeavesSuffix(o, events)
    ensures o.Returned? ==> KnownResult(o.value)
  {
    FormLoopKnownResult(EmptyForm, true, events);
    var form := EmptyForm;
    var running := true;
    var i := 0;
    while i < |events|
      invariant 0 <= i <= |events|
      invariant FormLoop(form, running, events[i..]) == FormLoop(EmptyForm, true, events)
    {
      var e := events[i];
      assert events[i..][1..] == events[i + 1..];
      if e.Frame? {
        if !running {
          return Returned(form, events[i + 1..]);
        }
      } else if e.Quit? {
        running := false;
      } else {
        form := HandleEvent(form, e);
      }
      i := i + 1;
    }
    return Waiting;
  }

  /**
   * `runRSADecyptor` of project/RSADecryptor.cpp: if the background image or
   * its texture cannot be made it returns before reading any event (None);
   * otherwise it runs the form.
   */
  method RunDecryptorScreen(imageLoaded: bool, textureMade: bool, events: seq<Event>)
    returns (o: Outcome<Option<Form>>)
    ensures !(imageLoaded && textureMade) ==> o == Returned(None, events)
    ensures imageLoaded && textureMade ==>
              var run := FormLoop(EmptyForm, true, events);
              && (run.Waiting? ==> o == Waiting)
              && (run.Returned? ==> o == Returned(Some(run.value), run.rest))
    ensures LeavesSuffix(o, events)
    ensures o.Returned? && o.value.Some? ==> KnownResult(o.value.value)
  {
    if !imageLoaded || !textureMade {
      return Returned(None, events);
    }
    var run := RunForm(events);
    match run {
      case Waiting => o := Waiting;
      case Returned(f, rest) => o := Returned(Some(f), rest);
    }
  }

  /**
   * `main` of rsa_decryptor.cpp: the batched name screen (quit ends the
   * program: None), then `launchRSAGUI`.
   */
  function RsaProgramSpec(events: seq<Event>): Outcome<Option<Form>>
  {
    match NameEntry.Batched([], true, events)
    case Waiting => Waiting
    case Returned(None, rest) => Returned(None, rest)
    case Returned(Some(_), rest) =>
      match FormLoop(EmptyForm, true, rest)
      case Waiting => Waiting
      case Returned(f, rest') => Returned(Some(f), rest')
  }

  /** The program reads a prefix of the stream, and the form it ends with
      shows one of the known result lines. */
  lemma RsaProgramReadsPrefix(events: seq<Event>)
    ensures LeavesSuffix(RsaProgramSpec(events), events)
    ensures RsaProgramSpec(events).Returned? && RsaProgramSpec(events).value.Some? ==>
              KnownResult(RsaProgramSpec(events).value.value)
  {
    NameEntry.BatchedLeavesSuffix([], true, events);
    var name := NameEntry.Batched([], true, events);
    if name.Returned? && name.value.Some? {
      FormLoopKnownResult(EmptyForm, true, name.rest);
      var run := FormLoop(EmptyForm, true, name.rest);
      if run.Returned? {
        SuffixTrans(run.rest, name.rest, events);
      }
    }
  }

  method RsaProgram(events: seq<Event>) returns (o: Outcome<Option<Form>>)
    ensures o == RsaProgramSpec(events)
  {
    var name := NameEntry.ReadNameBatched(events);
    match name {
      case Waiting => return Waiting;
      case Returned(None, rest) => return Returned(None, rest);
      case Returned(Some(_), rest) =>
        var run := RunForm(rest);
        match run {
          case Waiting => o := Waiting;
          case Returned(f, rest') => o := Returned(Some(f), rest');
        }
    }
  }
}
