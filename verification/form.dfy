/** The field logic of the "Add new session" window, one UI frame at a time.
    Each text box is an input: `None` when the user did not change it this
    frame, `Some(t)` when they left it holding `t`. The window edits one
    `Session` record; rendering and layout are not modelled. */
module Form {
  import opened Common
  import opened Decimal
  import opened Config

  /** The effect of replacing every match of `[^0-9]+` with nothing. */
  function KeepDigits(t: string): (d: string)
    ensures AllDigits(d) && |d| <= |t|
    decreases |t|
  {
    if |t| == 0 then []
    else
      var last := t[|t| - 1];
      KeepDigits(t[..|t| - 1]) + (if IsDigit(last) then [last] else [])
  }

  /** Filtering distributes over concatenation, so it keeps the digits of
      the text in their original order. */
  lemma {:induction false} KeepDigitsAppend(a: string, b: string)
    ensures KeepDigits(a + b) == KeepDigits(a) + KeepDigits(b)
    decreases |b|
  {
    if |b| == 0 {
      assert a + b == a;
    } else {
      var init := b[..|b| - 1];
      assert (a + b)[..|a + b| - 1] == a + init;
      KeepDigitsAppend(a, init);
    }
  }

  /** Every digit of the text is kept, as often as it occurs, and nothing
      else is. */
  lemma {:induction false} KeepDigitsContents(t: string)
    ensures forall c | IsDigit(c) :: multiset(KeepDigits(t))[c] == multiset(t)[c]
    ensures forall c | !IsDigit(c) :: multiset(KeepDigits(t))[c] == 0
    decreases |t|
  {
    if |t| > 0 {
      var init := t[..|t| - 1];
      KeepDigitsContents(init);
      assert t == init + [t[|t| - 1]];
    }
  }

  /** Text that is already all digits passes through unchanged, so the
      filter is idempotent. */
  lemma {:induction false} KeepDigitsOfDigits(t: string)
    requires AllDigits(t)
    ensures KeepDigits(t) == t
    decreases |t|
  {
    if |t| > 0 {
      KeepDigitsOfDigits(t[..|t| - 1]);
    }
  }

  /** The port text at the end of the frame: the current port printed, or
      the edited text with the non-digits removed. */
  function PortText(port: int32, edit: Option<string>): (text: string)
    ensures edit.Some? ==> AllDigits(text)
  {
    match edit
    case None => Show(port)
    case Some(t) => KeepDigits(t)
  }

  predicate InPortRange(p: int) { 0 <= p < 65536 }

  /** The port after the frame: replaced when the text parses as an `i32` in
      `0..65536`, unchanged otherwise. */
  function PortFrame(port: int32, edit: Option<string>): (p: int32)
    ensures p == port || (edit.Some? && InPortRange(p))
  {
    ShowParseI32(port);
    match ParseI32(PortText(port, edit))
    case Some(v) => if InPortRange(v) then v else port
    case None => port
  }

  /** An edit is decided by the digits it contains: their value becomes the
      port when there is at least one digit and the value is below 65536;
      otherwise the port stays as it was (empty text, overflow, too large). */
  lemma PortEdit(port: int32, t: string)
    ensures var d := KeepDigits(t);
      && (|d| > 0 && DigitsValue(d) < 65536 ==> PortFrame(port, Some(t)) == DigitsValue(d))
      && (|d| == 0 || DigitsValue(d) >= 65536 ==> PortFrame(port, Some(t)) == port)
  {
    var d := KeepDigits(t);
    if |d| > 0 {
      ParseDigits(d);
    }
  }

  /** A frame without an edit leaves the port alone: printing and parsing
      it again gives it back, for every `i32`, in range or not. */
  lemma PortUnedited(port: int32)
    ensures PortFrame(port, None) == port
  {
  }

  /** A port in `0..65536` stays in that range whatever the user types. */
  lemma PortStaysInRange(port: int32, edit: Option<string>)
    requires InPortRange(port)
    ensures InPortRange(PortFrame(port, edit))
  {
  }

  /** Empty text, digits above the port range, digits above `i32::MAX`
      (which `parse` rejects as overflow), and text with stray characters
      around its digits. */
  lemma PortEditExamples(port: int32)
    ensures PortFrame(port, Some("")) == port
    ensures PortFrame(port, Some("99999")) == port
    ensures PortFrame(port, Some("99999999999")) == port
    ensures PortFrame(port, Some(":2a2")) == 22
  {
    PortEdit(port, "");
    TooLargeExample(port);
    OverflowExample(port);
    FilteredExample(port);
  }

  lemma OverflowExample(port: int32)
    ensures PortFrame(port, Some("99999999999")) == port
  {
    var s := "99999999999";
    KeepDigitsOfDigits(s);
    DigitsValueAtLeastPrefix(s, 5);
    assert s[..5] == "99999";
    NinesValue();
    PortEdit(port, s);
  }

  lemma TooLargeExample(port: int32)
    ensures PortFrame(port, Some("99999")) == port
  {
    KeepDigitsOfDigits("99999");
    NinesValue();
    PortEdit(port, "99999");
  }

  lemma NinesValue()
    ensures DigitsValue("99999") == 99999
  {
    var s1, s2, s3, s4, s5 := "9", "99", "999", "9999", "99999";
    assert s1[..0] == [];
    assert s2 == s1 + ['9'];
    DigitsValueAppend(s1, '9');
    assert s3 == s2 + ['9'];
    DigitsValueAppend(s2, '9');
    assert s4 == s3 + ['9'];
    DigitsValueAppend(s3, '9');
    assert s5 == s4 + ['9'];
    DigitsValueAppend(s4, '9');
  }

  lemma FilteredExample(port: int32)
    ensures PortFrame(port, Some(":2a2")) == 22
  {
    assert KeepDigits(":") == "" by { assert ":"[..0] == ""; }
    assert KeepDigits(":2") == "2" by { assert ":2"[..1] == ":"; }
    assert KeepDigits(":2a") == "2" by { assert ":2a"[..2] == ":2"; }
    assert KeepDigits(":2a2") == "22" by { assert ":2a2"[..3] == ":2a"; }
    assert DigitsValue("22") == 22 by {
      assert "22"[..1] == "2" && "2"[..0] == "";
    }
    PortEdit(port, ":2a2");
  }

  /** How an optional text field is shown: absent as empty text. */
  function OptionalText(value: Option<string>): (text: string)
    ensures value.Some? ==> text == value.value
    ensures value.None? ==> text == ""
  {
    match value
    case None => ""
    case Some(s) => s
  }

  /** How an edited optional text field is stored: empty text as absent. */
  function TextToOptional(text: string): (value: Option<string>)
    ensures value != Some("")
    ensures value.None? <==> text == ""
  {
    if text == "" then None else Some(text)
  }

  /** Showing what was stored gives back the text that was typed. */
  lemma TextRoundTrip(text: string)
    ensures OptionalText(TextToOptional(text)) == text
  {
  }

  /** Storing what is shown gives back the value, except for `Some("")`,
      which an edit can never produce. */
  lemma OptionalRoundTrip(value: Option<string>)
    ensures value != Some("") <==> TextToOptional(OptionalText(value)) == value
  {
  }

  /** An optional text field after the frame: unchanged without an edit,
      else the edited text with empty meaning absent. */
  function EditOptional(current: Option<string>, edit: Option<string>): (value: Option<string>)
    ensures edit.None? ==> value == current
    ensures edit.Some? ==> value != Some("") && (value.None? <==> edit.value == "")
    ensures edit.Some? && edit.value != "" ==> value == Some(edit.value)
  {
    match edit
    case None => current
    case Some(t) => TextToOptional(t)
  }

  /** Typing `keys` at the end of a text box that shows `shown` at the start
      of the frame; typing nothing leaves the field unchanged. */
  function TypeFrame(current: Option<string>, shown: string, keys: string): (value: Option<string>)
    ensures keys == "" ==> value == current
    ensures keys != "" ==> value == Some(shown + keys)
  {
    if keys == "" then current else TextToOptional(shown + keys)
  }

  /** Typing over several frames into a box that shows the stored value at
      the start of each frame, as the username box does. */
  function TypeStored(current: Option<string>, frames: seq<string>): Option<string>
    decreases |frames|
  {
    if |frames| == 0 then current
    else
      var before := TypeStored(current, frames[..|frames| - 1]);
      TypeFrame(before, OptionalText(before), frames[|frames| - 1])
  }

  /** Typing over several frames into a box that starts empty every frame,
      as the password box does. */
  function TypeIntoEmpty(current: Option<string>, frames: seq<string>): Option<string>
    decreases |frames|
  {
    if |frames| == 0 then current
    else TypeFrame(TypeIntoEmpty(current, frames[..|frames| - 1]), "", frames[|frames| - 1])
  }

  /** A box showing the stored value accumulates everything typed into it,
      frame after frame. */
  lemma {:induction false} TypeStoredAccumulates(current: Option<string>, frames: seq<string>)
    requires current != Some("")
    ensures TypeStored(current, frames) == TextToOptional(OptionalText(current) + Flatten(frames))
    decreases |frames|
  {
    if |frames| == 0 {
      assert OptionalText(current) + [] == OptionalText(current);
      OptionalRoundTrip(current);
    } else {
      var init := frames[..|frames| - 1];
      var last := frames[|frames| - 1];
      TypeStoredAccumulates(current, init);
      var before := TypeStored(current, init);
      TextRoundTrip(OptionalText(current) + Flatten(init));
      assert OptionalText(before) == OptionalText(current) + Flatten(init);
      assert Flatten(frames) == Flatten(init) + last;
      assert OptionalText(current) + Flatten(frames) == OptionalText(before) + last;
      if last == "" {
        assert OptionalText(before) + last == OptionalText(before);
      }
    }
  }

  /** A box that starts empty every frame keeps only the last frame's
      typing: earlier keys are lost. */
  lemma TypeIntoEmptyKeepsLastFrame(current: Option<string>, frames: seq<string>)
    requires |frames| > 0 && frames[|frames| - 1] != ""
    ensures TypeIntoEmpty(current, frames) == Some(frames[|frames| - 1])
  {
    assert "" + frames[|frames| - 1] == frames[|frames| - 1];
  }

  /** Typing "a" in one frame and "b" in the next stores the password "b",
      where a box showing the stored value would hold "ab". */
  lemma PasswordTypingLosesKeys()
    ensures TypeIntoEmpty(None, ["a", "b"]) == Some("b")
    ensures TypeStored(None, ["a", "b"]) == Some("ab")
  {
    TypeIntoEmptyKeepsLastFrame(None, ["a", "b"]);
    TypeStoredAccumulates(None, ["a", "b"]);
    assert Flatten(["a", "b"]) == "ab" by {
      assert ["a", "b"][..1] == ["a"];
      assert ["a"][..0] == [];
    }
  }

  /** The key path after a frame in key-file mode: the shown path (empty
      when there is none), as the user edited it, replaced by the file
      picked in the dialog when one was picked; it is stored even when it
      is empty. */
  function KeyPathFrame(current: Option<string>, typed: Option<string>, picked: Option<string>): (k: Option<string>)
    ensures k.Some?
    ensures picked.Some? ==> k == picked
    ensures picked.None? && typed.Some? ==> k == typed
    ensures picked.None? && typed.None? ==> k == Some(OptionalText(current))
  {
    var shown := OptionalText(current);
    var edited := match typed case Some(t) => t case None => shown;
    var path := match picked case Some(p) => p case None => edited;
    Some(path)
  }

  /** A frame without a file pick or an edit keeps a stored key path, and
      keeps whatever a previous frame stored. */
  lemma KeyPathUntouchedKeeps(current: Option<string>, typed: Option<string>, picked: Option<string>)
    ensures current.Some? ==> KeyPathFrame(current, None, None) == current
    ensures var k := KeyPathFrame(current, typed, picked);
      KeyPathFrame(k, None, None) == k
  {
  }

  /** What the user did to the window in one frame. `keyPicked` is the
      file the dialog returned when the key path box was clicked. */
  datatype FrameInput = FrameInput(
    ip: Option<string>,
    port: Option<string>,
    username: Option<string>,
    authMethod: Option<AuthMode>,
    password: Option<string>,
    keyTyped: Option<string>,
    keyPicked: Option<string>)

  /** One frame of the window applied to the session being edited. The
      password box always starts empty, so typing into it replaces the
      stored password rather than extending it. */
  function FormFrame(s: Session, input: FrameInput): (r: Session)
    ensures r.name == s.name
    ensures r.ip == (if input.ip.Some? then input.ip.value else s.ip)
    ensures r.port == s.port || (input.port.Some? && InPortRange(r.port))
    ensures input.port.None? ==> r.port == s.port
    ensures r.port == PortFrame(s.port, input.port)
    ensures r.username == EditOptional(s.username, input.username)
    ensures input.username.Some? ==> r.username != Some("")
    ensures input.username.None? ==> r.username == s.username
    ensures r.authMethod == (if input.authMethod.Some? then input.authMethod.value else s.authMethod)
    ensures r.authMethod == PasswordAuth ==> r.keyPath == s.keyPath
    ensures r.authMethod == PasswordAuth ==> r.password == EditOptional(s.password, input.password)
    ensures r.authMethod == KeyFileAuth ==> r.keyPath.Some? && r.password == s.password
    ensures r.authMethod == KeyFileAuth ==>
      r.keyPath == KeyPathFrame(s.keyPath, input.keyTyped, input.keyPicked)
  {
    PortUnedited(s.port);
    var ip := match input.ip case Some(t) => t case None => s.ip;
    var port := PortFrame(s.port, input.port);
    var username := EditOptional(s.username, input.username);
    var mode := match input.authMethod case Some(m) => m case None => s.authMethod;
    var t := s.(ip := ip, port := port, username := username, authMethod := mode);
    if mode == PasswordAuth then
      t.(password := EditOptional(s.password, input.password))
    else
      t.(keyPath := KeyPathFrame(s.keyPath, input.keyTyped, input.keyPicked))
  }

  /** The input of a frame in which only `keys` were typed into the
      password box; typing nothing leaves the box unchanged. */
  function PasswordKeys(keys: string): FrameInput
  {
    FrameInput(None, None, None, None, if keys == "" then None else Some(keys), None, None)
  }

  /** One frame of `FormFrame` in password mode types into an empty box,
      whatever password is stored. */
  lemma PasswordFrameTypesIntoEmpty(s: Session, keys: string)
    requires s.authMethod == PasswordAuth
    ensures FormFrame(s, PasswordKeys(keys)).password == TypeFrame(s.password, "", keys)
    ensures FormFrame(s, PasswordKeys(keys)) == s.(password := TypeFrame(s.password, "", keys))
  {
    assert "" + keys == keys;
  }

  /** One frame of `FormFrame` types into a username box that shows the
      stored username. */
  lemma UsernameFrameTypesIntoStored(s: Session, keys: string)
    ensures var input := FrameInput(None, None, if keys == "" then None else Some(OptionalText(s.username) + keys),
                                    None, None, None, None);
      FormFrame(s, input).username == TypeFrame(s.username, OptionalText(s.username), keys)
  {
  }

  /** The session after a run of frames in password mode, each typing the
      given keys into the password box. */
  function PasswordFrames(s: Session, frames: seq<string>): (r: Session)
    requires s.authMethod == PasswordAuth
    ensures r.authMethod == PasswordAuth
    ensures r.(password := s.password) == s
    decreases |frames|
  {
    if |frames| == 0 then s
    else FormFrame(PasswordFrames(s, frames[..|frames| - 1]), PasswordKeys(frames[|frames| - 1]))
  }

  /** Frame after frame, the window's password box behaves as a box that
      starts empty every frame: the keys of earlier frames are lost. */
  lemma {:induction false} PasswordFramesTypeIntoEmpty(s: Session, frames: seq<string>)
    requires s.authMethod == PasswordAuth
    ensures PasswordFrames(s, frames).password == TypeIntoEmpty(s.password, frames)
    decreases |frames|
  {
    if |frames| > 0 {
      var init := frames[..|frames| - 1];
      PasswordFramesTypeIntoEmpty(s, init);
      PasswordFrameTypesIntoEmpty(PasswordFrames(s, init), frames[|frames| - 1]);
    }
  }

  /** The field invariant the window keeps: a port in range and no
      username or password stored as empty text. */
  predicate Normalised(s: Session)
  {
    InPortRange(s.port) && s.username != Some("") && s.password != Some("")
  }

  /** A fresh session is normalised, and every frame keeps it so. */
  lemma NewSessionNormalised()
    ensures Normalised(NewSession())
  {
  }

  lemma FormKeepsNormalised(s: Session, input: FrameInput)
    requires Normalised(s)
    ensures Normalised(FormFrame(s, input))
  {
  }
}
