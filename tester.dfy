/** The interaction state of the regex tester: two text fields (the pattern
    and the document), which of them has focus, the terminal size and the
    dimensions derived from it, and the memo that decides whether the
    compile-match-highlight pipeline runs again. The regex engine and the
    editing done by the two field widgets are not modelled: each event brings
    the field values after editing and the engine's answer for them. */
module Tester {
  import opened Renderer

  datatype Option<T> = None | Some(value: T)

  datatype KeyType = Esc | CtrlC | Tab | OtherKey

  /** The events the program reacts to. `Other` stands for every message with
      no case of its own (the cursor blink, for one). */
  datatype Msg =
    | Key(key: KeyType)
    | WindowSize(width: int, height: int)
    | ErrMsg(error: string)
    | Other

  /** What compiling the pattern and matching it against the whole document
      gives: a compile error, or every non-overlapping match as byte spans. */
  datatype CompileResult = CompileError(message: string) | Compiled(spans: seq<Span>)

  /** The pattern the memo starts from: ".". */
  const InitialPattern: Bytes := [46]

  /** Integer halving as the program's arithmetic does it, rounding toward zero. */
  function HalfTowardZero(n: int): (q: int)
    ensures n >= 0 ==> 0 <= n - 2 * q <= 1
    ensures n < 0 ==> -1 <= n - 2 * q <= 0
  {
    if n >= 0 then n / 2 else -((-n) / 2)
  }

  /** Quit events end the program; error events only record the error. Every
      other event reaches the two field widgets and then the pipeline. */
  predicate Quits(msg: Msg) {
    msg == Key(Esc) || msg == Key(CtrlC)
  }

  predicate ReachesPipeline(msg: Msg) {
    !Quits(msg) && !msg.ErrMsg?
  }

  /** The whole state of the model, as one value. */
  datatype State = State(
    regexVal: Bytes, textVal: Bytes,
    regexFocused: bool, textFocused: bool,
    out: seq<Segment>, err: Option<string>, rx: Option<Bytes>,
    oldRX: Bytes, oldTxt: Bytes,
    width: int, height: int,
    textWidth: int, textHeight: int, panelWidth: int, panelHeight: int)

  class Model {
    /** Current value of the pattern field. */
    var regexVal: Bytes
    /** Current value of the document field. */
    var textVal: Bytes
    var regexFocused: bool
    var textFocused: bool
    /** The rendered output shown in the panel. */
    var out: seq<Segment>
    /** The compile error shown under the document field; None when there is none. */
    var err: Option<string>
    /** The compiled matcher, as the pattern it was compiled from; None when
        the last compile failed. */
    var rx: Option<Bytes>
    /** The memo: field values at the last successful pipeline run. */
    var oldRX: Bytes
    var oldTxt: Bytes
    /** Terminal size from the last resize event. */
    var width: int
    var height: int
    /** Dimensions requested of the document widget. */
    var textWidth: int
    var textHeight: int
    /** Dimensions of the bordered output panel. */
    var panelWidth: int
    var panelHeight: int

    ghost function Snapshot(): State
      reads this
    {
      State(regexVal, textVal, regexFocused, textFocused, out, err, rx, oldRX, oldTxt,
            width, height, textWidth, textHeight, panelWidth, panelHeight)
    }

    /** Exactly one of the two fields has focus. */
    ghost predicate Valid()
      reads this
    {
      regexFocused != textFocused
    }

    /** The derived dimensions agree with the terminal size. */
    ghost predicate LaidOut()
      reads this
    {
      && textWidth == width
      && textHeight == HalfTowardZero(height) - 1
      && panelWidth == width - 2
      && panelHeight == HalfTowardZero(height) - 2
    }

    /** The initial model: both fields empty, the document field focused, the
        matcher compiled from "." and the memo holding "." and the empty
        document. The document widget's dimensions before the first resize
        are the widget library's defaults, given here as parameters. */
    constructor (defaultTextWidth: int, defaultTextHeight: int)
      ensures Valid()
      ensures textFocused && !regexFocused
      ensures regexVal == [] && textVal == []
      ensures out == [] && err == None && rx == Some(InitialPattern)
      ensures oldRX == InitialPattern && oldTxt == []
      ensures width == 0 && height == 0
      ensures textWidth == defaultTextWidth && textHeight == defaultTextHeight
      ensures panelWidth == 0 && panelHeight == 0
    {
      regexVal, textVal := [], [];
      regexFocused, textFocused := false, true;
      out, err, rx := [], None, Some(InitialPattern);
      oldRX, oldTxt := InitialPattern, [];
      width, height := 0, 0;
      textWidth, textHeight := defaultTextWidth, defaultTextHeight;
      panelWidth, panelHeight := 0, 0;
    }

    /** Tab: focus the field that does not have focus and blur the other. */
    method ToggleFocus()
      modifies this`regexFocused, this`textFocused
      ensures Valid()
      ensures regexFocused == !old(regexFocused) && textFocused == old(regexFocused)
    {
      if regexFocused {
        textFocused := true;
        regexFocused := false;
      } else {
        regexFocused := true;
        textFocused := false;
      }
    }

    /** Size the document widget and the output panel from the terminal size:
        the document takes half the height less one line, the panel one line
        less than that and the width less its border. */
    method SizeInputs()
      modifies this`textWidth, this`textHeight, this`panelWidth, this`panelHeight
      ensures LaidOut()
      ensures panelHeight == textHeight - 1 && panelWidth == textWidth - 2
      ensures height >= 0 ==> 2 * textHeight + 2 <= height <= 2 * textHeight + 3
    {
      textWidth := width;
      textHeight := HalfTowardZero(height) - 1;
      panelWidth := width - 2;
      panelHeight := HalfTowardZero(height) - 2;
    }

    /** The event switch: Esc and Ctrl-C quit, Tab toggles the focus, a resize
        stores the size and lays out, an error event records the error.
        `done` says that the handler returns at once, before the widgets and
        the pipeline see the event. */
    method Dispatch(msg: Msg) returns (quit: bool, done: bool)
      requires Valid()
      modifies this`regexFocused, this`textFocused, this`err, this`width, this`height
      modifies this`textWidth, this`textHeight, this`panelWidth, this`panelHeight
      ensures Valid()
      ensures quit <==> Quits(msg)
      ensures done <==> !ReachesPipeline(msg)
      ensures Quits(msg) ==> Snapshot() == old(Snapshot())
      ensures msg.ErrMsg? ==> Snapshot() == old(Snapshot()).(err := Some(msg.error))
      ensures ReachesPipeline(msg) ==> err == old(err)
      ensures ReachesPipeline(msg) ==>
        if msg == Key(Tab) then regexFocused == !old(regexFocused) && textFocused == old(regexFocused)
        else regexFocused == old(regexFocused) && textFocused == old(textFocused)
      ensures ReachesPipeline(msg) ==>
        if msg.WindowSize? then width == msg.width && height == msg.height && LaidOut()
        else && width == old(width) && height == old(height)
             && textWidth == old(textWidth) && textHeight == old(textHeight)
             && panelWidth == old(panelWidth) && panelHeight == old(panelHeight)
    {
      quit, done := false, false;
      match msg {
        case Key(k) =>
          if k == Esc || k == CtrlC {
            quit, done := true, true;
            return;
          }
          if k == Tab {
            ToggleFocus();
          }
        case WindowSize(w, h) =>
          height := h;
          width := w;
          SizeInputs();
        case ErrMsg(e) =>
          err := Some(e);
          done := true;
          return;
        case Other =>
      }
    }

    /** Handle one event. `newRegex` and `newText` are the field values after
        the widgets have processed the event; `compiled` is the engine's
        answer for them, consulted only when either differs from the memo. */
    method Update(msg: Msg, newRegex: Bytes, newText: Bytes, compiled: CompileResult)
      returns (quit: bool)
      requires Valid()
      requires compiled.Compiled? ==> InBounds(newText, compiled.spans)
      modifies this
      ensures Valid()
      ensures quit <==> Quits(msg)
      // Esc and Ctrl-C return before anything is touched.
      ensures Quits(msg) ==> Snapshot() == old(Snapshot())
      // An error event records the error and touches nothing else.
      ensures msg.ErrMsg? ==> Snapshot() == old(Snapshot()).(err := Some(msg.error))
      // Every other event updates the fields from the widgets.
      ensures ReachesPipeline(msg) ==> regexVal == newRegex && textVal == newText
      // Tab swaps the focus; nothing else moves it.
      ensures ReachesPipeline(msg) ==>
        if msg == Key(Tab) then regexFocused == !old(regexFocused) && textFocused == old(regexFocused)
        else regexFocused == old(regexFocused) && textFocused == old(textFocused)
      // A resize stores the size and lays out; nothing else changes the size.
      ensures ReachesPipeline(msg) ==>
        if msg.WindowSize? then width == msg.width && height == msg.height && LaidOut()
        else && width == old(width) && height == old(height)
             && textWidth == old(textWidth) && textHeight == old(textHeight)
             && panelWidth == old(panelWidth) && panelHeight == old(panelHeight)
      // Memo hit: the pipeline does not run.
      ensures ReachesPipeline(msg) && newRegex == old(oldRX) && newText == old(oldTxt) ==>
        && out == old(out) && err == old(err) && rx == old(rx)
        && oldRX == old(oldRX) && oldTxt == old(oldTxt)
      // Memo miss, compile failure: the error is shown, the matcher is
      // dropped, the last output stays and the memo does not advance.
      ensures ReachesPipeline(msg) && (newRegex != old(oldRX) || newText != old(oldTxt))
              && compiled.CompileError? ==>
        && err == Some(compiled.message) && rx == None && out == old(out)
        && oldRX == old(oldRX) && oldTxt == old(oldTxt)
      // Memo miss, compile success: the error is cleared, the output is the
      // highlighted document and the memo holds the current values.
      ensures ReachesPipeline(msg) && (newRegex != old(oldRX) || newText != old(oldTxt))
              && compiled.Compiled? ==>
        && err == None && rx == Some(newRegex) && out == Highlight(newText, compiled.spans)
        && oldRX == newRegex && oldTxt == newText
    {
      var done;
      quit, done := Dispatch(msg);
      if done {
        return;
      }
      regexVal := newRegex;
      textVal := newText;
      Refresh(compiled);
    }

    /** The memo check and the pipeline behind it, run on the current field
        values once the widgets have processed an event. */
    method Refresh(compiled: CompileResult)
      requires compiled.Compiled? ==> InBounds(textVal, compiled.spans)
      modifies this`out, this`err, this`rx, this`oldRX, this`oldTxt
      // Memo hit: the pipeline does not run.
      ensures regexVal == old(oldRX) && textVal == old(oldTxt) ==>
        && out == old(out) && err == old(err) && rx == old(rx)
        && oldRX == old(oldRX) && oldTxt == old(oldTxt)
      // Memo miss, compile failure: the error is shown, the matcher is
      // dropped, the last output stays and the memo does not advance.
      ensures (regexVal != old(oldRX) || textVal != old(oldTxt)) && compiled.CompileError? ==>
        && err == Some(compiled.message) && rx == None && out == old(out)
        && oldRX == old(oldRX) && oldTxt == old(oldTxt)
      // Memo miss, compile success: the error is cleared, the output is the
      // highlighted document and the memo holds the current values.
      ensures (regexVal != old(oldRX) || textVal != old(oldTxt)) && compiled.Compiled? ==>
        && err == None && rx == Some(regexVal) && out == Highlight(textVal, compiled.spans)
        && oldRX == regexVal && oldTxt == textVal
    {
      var newRX := regexVal;
      var newTXT := textVal;
      if newRX != oldRX || newTXT != oldTxt {
        match compiled {
          case CompileError(e) =>
            rx := None;
            err := Some(e);
            return;
          case Compiled(spans) =>
            rx := Some(newRX);
            err := None;
            var rendered := Render(textVal, spans);
            out := rendered;
            oldRX := newRX;
            oldTxt := newTXT;
        }
      }
    }
  }

  /** Two Tabs in a row give the focus back to the field that had it. */
  method TabTwice(m: Model, r1: Bytes, t1: Bytes, c1: CompileResult,
                  r2: Bytes, t2: Bytes, c2: CompileResult)
    requires m.Valid()
    requires c1.Compiled? ==> InBounds(t1, c1.spans)
    requires c2.Compiled? ==> InBounds(t2, c2.spans)
    modifies m
    ensures m.Valid()
    ensures m.regexFocused == old(m.regexFocused) && m.textFocused == old(m.textFocused)
  {
    var q := m.Update(Key(Tab), r1, t1, c1);
    q := m.Update(Key(Tab), r2, t2, c2);
  }

  /** Editing a valid pattern p1 into an invalid one p2 keeps the last output
      and shows the error. Editing on to a third pattern p3 then depends on
      the memo, which the failure did not advance: a new valid pattern
      replaces the output and clears the error, but going back to p1 is a
      memo hit, so the error stays on screen and the matcher stays nil. */
  method EditThroughInvalidPattern(m: Model, txt: Bytes, p1: Bytes, s1: seq<Span>,
                                   p2: Bytes, e: string, p3: Bytes, s3: seq<Span>)
    returns (ghost shownOut: seq<Segment>, ghost shownErr: Option<string>)
    requires m.Valid()
    requires InBounds(txt, s1) && InBounds(txt, s3)
    requires (p1 != m.oldRX || txt != m.oldTxt) && p2 != p1
    modifies m
    // After the invalid edit: the output of p1 and the compile error.
    ensures shownOut == Highlight(txt, s1) && shownErr == Some(e)
    // Back to p1: nothing is recompiled and the stale error remains.
    ensures p3 == p1 ==>
      && m.out == Highlight(txt, s1) && m.err == Some(e) && m.rx == None
      && m.oldRX == p1 && m.oldTxt == txt
    // On to a different valid pattern: fresh output, no error.
    ensures p3 != p1 ==>
      && m.out == Highlight(txt, s3) && m.err == None && m.rx == Some(p3)
      && m.oldRX == p3 && m.oldTxt == txt
  {
    var q := m.Update(Key(OtherKey), p1, txt, Compiled(s1));
    q := m.Update(Key(OtherKey), p2, txt, CompileError(e));
    shownOut, shownErr := m.out, m.err;
    q := m.Update(Key(OtherKey), p3, txt, Compiled(s3));
  }
}
