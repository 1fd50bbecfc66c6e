# rssh-win: a verified model of the session relay and session catalog logic

rssh-win is a small desktop SSH client written in Rust on top of egui and
ssh2. This project models the sequential logic at its core in Dafny and
proves properties of it:

- **Output relay** (`handle_session`): the loop reads up to 1024 bytes from the
  shell channel. It stops on a zero-length read, on a read error, or on a
  chunk that is not UTF-8. Any other chunk is sent to the UI as one `String`.
  The channel's reads are modelled as a finite sequence of read outcomes
  (`Relay.ReadOutcome`). The sends are modelled as the sequence of messages
  the relay returns. UTF-8 validity is the grammar of section 4 of RFC 3629
  (module `Utf8`), which is the check `std::str::from_utf8` performs.
- **Connection parameters** (`new_connection_private_key`,
  `new_connection_password`): the identity to authenticate as, and the
  `host:port` text passed to `TcpStream::connect`. The decimal text of an
  `i32` and its parsing back are in module `Decimal`.
- **Session form** (`add_session_window`): each frame of the "Add new session"
  window is a pure function from the session being edited and the user's edits
  to the new session. It covers the port filter, parse and range check, the
  empty-text-is-`None` rule for username and password, and the key path.
- **Session catalog** (`config.rs`): the auth mode labels, `Session::new`, and
  the state update of `load_data` with the decoder abstracted to a `Result`.
  It also covers the classification in `new_config_dir` and the start-up
  sequence of `AppConfiguration::new`. The invariant is one selection flag per
  stored session.

Files: `common.dfy` (Option, Result, bytes, `i32` bounds), `utf8.dfy`,
`decimal.dfy`, `relay.dfy`, `connection.dfy`, `config.dfy`, `form.dfy`.

Two behaviours of the code are worth stating up front:

- The relay sends only text chunks. There is no end-of-session message; the
  remote exit status is only printed.
- The `"root"` fallback for a missing username is unreachable (see Findings).

The session form (`Form.FormFrame`) models the password box as written: the
box starts empty every frame; when it is edited, the stored password becomes
the text it holds at the end of the frame, or `None` when that text is empty. The typing functions next to it compare this with a
box that shows the stored value (see Findings).

## Model

| member | source | states |
|---|---|---|
| Utf8.Validate | src/app/ssh.rs:25 | The left-to-right validation accepts a chunk exactly when it is well-formed UTF-8 per RFC 3629 section 4 |
| Utf8.CharIsMeasured | src/app/ssh.rs:25 | A grammar character is recognised as itself whatever bytes follow it, so no character is a prefix of another |
| Utf8.CharsAreWellFormed | src/app/ssh.rs:25 | Any concatenation of grammar characters is accepted as UTF-8 |
| Utf8.WellFormedSplits | src/app/ssh.rs:25 | Every accepted chunk splits into grammar characters that concatenate back to it |
| Utf8.WellFormedAppend | src/app/ssh.rs:25-28 | Two valid texts concatenate to valid text |
| Utf8.FlattenWellFormed | src/app/ssh.rs:25-28 | Any number of valid texts concatenate to valid text |
| Utf8.CutCharIsIllFormed | src/app/ssh.rs:24-25 | A multi-byte character cut inside is rejected on its own |
| Decimal.Show | src/app/ssh.rs:56 | `to_string` writes a minus sign exactly for a negative value, then digits whose value is the magnitude, with no leading zero except in "0" |
| Decimal.NatDigits | src/app.rs:35 | The digits written for a natural number are non-empty ASCII digits, starting with `0` exactly for zero, which is written "0" |
| Decimal.ParseInt | src/app.rs:40 | Parsing succeeds exactly on an optional sign followed by at least one ASCII digit, and yields the signed value of the digits |
| Decimal.ParseI32 | src/app.rs:40 | `parse::<i32>` succeeds exactly when the text is a signed decimal whose value fits in `i32`, and then yields that value |
| Decimal.ShowParse | src/app/ssh.rs:56 | Parsing the decimal text that `to_string` writes gives back the integer |
| Decimal.ShowParseI32 | src/app.rs:35-40 | For every `i32`, `parse::<i32>` of its `to_string` gives it back |
| Decimal.NatDigitsValue | src/app.rs:35 | The digits written for a natural number have that number as their value |
| Decimal.ShowHasNoColon | src/app/ssh.rs:56 | The decimal text of a port contains no `:` |
| Decimal.ParseDigits | src/app.rs:40 | A non-empty digit string parses, as an unbounded integer, to the value of its digits (`ParseI32` then applies the `i32` range) |
| Relay.Relay | src/app/ssh.rs:19-41 | Every message is a non-empty, valid UTF-8 chunk of at most 1024 bytes. There are no more messages than reads. A stopped relay made exactly one read more than it sent messages |
| Relay.RelayCharacterised | src/app/ssh.rs:19-41 | Let k be the first read that stops the loop. The messages are exactly the chunks of the reads before k, in order. Read k sends nothing and gives the stop reason. Nothing after k is read |
| Relay.RelayLoop | src/app/ssh.rs:19-41 | The imperative loop (read, validate, send, break) computes the same messages, stop reason and read count as the relay function |
| Relay.RelayReproducesText | src/app/ssh.rs:24-28 | The concatenated messages equal the concatenated chunks read before the stop, and they form valid UTF-8 |
| Relay.ValidStreamRelayedWhole | src/app/ssh.rs:21-28 | When every read delivers a valid non-empty chunk, all of it reaches the UI unchanged |
| Relay.NothingAfterStop | src/app/ssh.rs:22-39 | After a zero-length read, a read error or a bad chunk, later reads change neither the messages nor the outcome |
| Relay.RunningContinues | src/app/ssh.rs:19-41 | While the relay runs, the messages of a longer stream extend those of its prefix |
| Relay.SplitCharacterStops | src/app/ssh.rs:20-33 | A character split across two reads is not delivered. The relay stops with NotUtf8 and sends only the earlier chunks, although the two pieces together are valid |
| Connection.UsernameAsWritten | src/app/ssh.rs:52-55 | As written, resolution fails exactly when the username is missing. Otherwise it yields the given name |
| Connection.FallbackUnreachable | src/app/ssh.rs:72-75 | A missing username panics, and the `"root"` identity is produced only when `"root"` was given |
| Connection.Username | src/app/ssh.rs:53-55 | Intended resolution: the given name, or `"root"` for every missing one |
| Connection.UsernameAgrees | src/app/ssh.rs:52-55 | The intended resolution agrees with the as-written code wherever that succeeds. They differ only on a missing username |
| Connection.Target | src/app/ssh.rs:56 | The target is the address, a colon, then colon-free text that `parse::<i32>` reads back as the port |
| Connection.TargetSplits | src/app/ssh.rs:76 | In `address:port`, the last colon sits right after the address, even one that contains colons. The text after it parses back to the port |
| Connection.Prepare | src/app/ssh.rs:46-56 | The connection parameters fail exactly when the username is missing. Otherwise the identity is the given name, and the target splits into the address and the port |
| Config.Label | src/app/config.rs:19-24 | `KeyFileAuth` is labelled "Private key" and `PasswordAuth` "Password", and only those |
| Config.LabelInjective | src/app/config.rs:19-24 | Two modes have the same label exactly when they are the same mode |
| Config.NewSession | src/app/config.rs:39-49 | A new session has port 22, empty name and ip, no username, key path or password, and the default `PasswordAuth` mode |
| Config.EmptyApp | src/app/config.rs:56-60 | The catalog starts with no sessions and one flag per session |
| Config.LoadData | src/app/config.rs:98-110 | An I/O error is returned and changes nothing. A decode failure returns Ok and changes nothing. A decoded list replaces the sessions, with all flags false |
| Config.LoadKeepsConsistent | src/app/config.rs:103-108 | `load_data` preserves one selection flag per session |
| Config.ClassifyCreateDir | src/app/config.rs:111-130 | Success and `AlreadyExists` continue. Any other error is fatal, with the permissions message exactly for `PermissionDenied` |
| Config.NewAppConfiguration | src/app/config.rs:70-81 | Start-up panics exactly when there is no home dir, directory creation is fatal, or the file cannot be created. It returns an error exactly when the file cannot be read. Otherwise it yields a consistent catalog holding the decoded sessions, or none |
| Form.KeepDigits | src/app.rs:36-38 | After an edit, the port text holds only ASCII digits and is no longer than the text typed |
| Form.KeepDigitsAppend | src/app.rs:37-38 | Removing non-digits distributes over concatenation, so the digits keep their order |
| Form.KeepDigitsContents | src/app.rs:37-38 | Each digit is kept as many times as it occurs, and no other character is kept |
| Form.KeepDigitsOfDigits | src/app.rs:37-38 | Digit-only text is left as it is |
| Form.PortText | src/app.rs:35-39 | After an edit, the text that is parsed consists only of digits |
| Form.PortFrame | src/app.rs:40-46 | The port either stays as it was or, after an edit, becomes a value in 0..65536 |
| Form.PortEdit | src/app.rs:36-46 | After an edit, the port becomes the value of the digits typed when there is at least one digit and the value is below 65536. Otherwise it stays unchanged |
| Form.PortUnedited | src/app.rs:35-45 | Without an edit the port is unchanged, for every `i32`, because printing then parsing round-trips |
| Form.PortStaysInRange | src/app.rs:40-45 | A port in 0..65536 stays in range whatever is typed |
| Form.PortEditExamples | src/app.rs:36-45 | Empty text, "99999" (out of range) and "99999999999" (overflows `i32`) leave the port unchanged. ":2a2" sets it to 22 |
| Form.OptionalText | src/app.rs:48-51 | A missing username is shown as empty text, and a present one as itself |
| Form.TextToOptional | src/app.rs:52-58 | Edited empty text is stored as `None`, and other text as `Some`, so never `Some("")` |
| Form.TextRoundTrip | src/app.rs:48-58 | Showing what an edit stored gives back the typed text |
| Form.OptionalRoundTrip | src/app.rs:48-58 | Storing what is shown gives back the value exactly when it is not `Some("")` |
| Form.EditOptional | src/app.rs:76-83 | An unedited field is unchanged. An edited one holds the new text, or `None` when that text is empty, whatever was stored before |
| Form.TypeFrame | src/app.rs:52-58 | Typing nothing leaves a field unchanged. Typing keys stores what the box showed followed by the keys |
| Form.TypeStoredAccumulates | src/app.rs:48-58 | A box that shows the stored value each frame (the username box) accumulates every key typed over any number of frames |
| Form.TypeIntoEmptyKeepsLastFrame | src/app.rs:76-83 | The password box starts empty each frame, so after typing only the last frame's keys are stored |
| Form.PasswordTypingLosesKeys | src/app.rs:76-83 | Typing "a" then "b" in two frames stores the password "b". A box showing the stored value would hold "ab" |
| Form.KeyPathFrame | src/app.rs:84-105 | In key-file mode the key path is always present after the frame. It is the picked file, else the edited text, else the shown path (empty when there was none) |
| Form.KeyPathUntouchedKeeps | src/app.rs:84-105 | A frame with no pick and no edit keeps a stored key path, and keeps whatever any earlier frame stored |
| Form.FormFrame | src/app.rs:30-106 | One frame keeps the name and applies the ip edit. The port follows the port rule, the username the empty-means-`None` rule, and the mode the drop-down choice. In password mode only the password changes, by the same rule. In key-file mode only the key path changes, and it is then always present |
| Form.PasswordFrameTypesIntoEmpty | src/app.rs:76-83 | In password mode, a frame whose only input is keys typed into the password box stores what typing those keys into an empty box gives, and changes nothing else |
| Form.UsernameFrameTypesIntoStored | src/app.rs:48-58 | A frame whose username edit is the shown username followed by typed keys stores what typing them into a box showing the stored username gives |
| Form.PasswordFrames | src/app.rs:76-83 | A run of password-mode frames that type only into the password box changes only the password and stays in password mode |
| Form.PasswordFramesTypeIntoEmpty | src/app.rs:76-83 | Over any number of such frames, the window stores what a box that starts empty every frame stores, so only the last typing frame's keys survive |
| Form.NewSessionNormalised | src/app/config.rs:39-49 | A new session has its port in range and no empty username or password |
| Form.FormKeepsNormalised | src/app.rs:40-83 | Every frame keeps the port in range and the username and password free of `Some("")` |

## Left out

- Connecting, the handshake, authentication, the pty and shell requests, the `pwd` write, `wait_close` and `exit_status` (src/app/ssh.rs:10-17, 42-43, 56-61, 76-80). They are network and crypto library calls. Only the identity and the `host:port` text handed to `TcpStream::connect` and the authentication calls are modelled. The pty arguments (`"ansi"`, `VINTR` mapped to 3, the `(500, 500, 500, 500)` geometry), the shell request and the `pwd` write are not.
- The `mpsc` channel: `tx.send` is a sequence append. The panic of its `unwrap` when the receiver is gone is not modelled, and neither is cross-thread delivery.
- Relay.Relay: the input read sequence is finite. A relay that has not stopped when the sequence ends reports `Running`, standing for a loop still blocked in a read.
- Relay.Relay: reads longer than the 1024-byte buffer are excluded by precondition, because `read` into that buffer cannot return more.
- egui rendering and layout, the window's Add/Close buttons, the side panel, and the regex engine (kept only as its effect: keep the ASCII digits).
- The file dialog is an input (the picked path). Key paths are text, so the panic of `to_str().unwrap()` on a path that is not UTF-8 is not modelled.
- `Session::write_config` (src/app.rs:109) is not defined in the repository's files, so it is not part of this model.
- src/app.rs:18 stores the `anyhow::Result` returned by `AppConfiguration::new` in a field of type `AppConfiguration`. The start-up is modelled as `AppConfiguration::new` defines it.
- File system and `ProjectDirs` access, `OpenOptions`, `fs::write`/`save_config`, and bincode. Finding a home directory is a boolean input. Each directory or file operation is its `Result`, and decoding is a function from bytes to a `Result`. The directory handle is not kept in the model's catalog.
- Rust's many `io::ErrorKind` values are collapsed to `AlreadyExists`, `PermissionDenied` and all others, which is all the code distinguishes.
- Debug `print!`/`println!`/`eprintln!` output.
- src/ssh.rs is an unused stub, and src/main.rs is eframe start-up. Neither is modelled.

## Findings

| source | as written | input that shows it | evidently intended | confidence | as-written member | corrected member |
|---|---|---|---|---|---|---|
| src/app/ssh.rs:52-55 (same at 72-75) | `username.as_ref().unwrap()` runs before the `is_none()` test, so a missing username panics and the `"root"` fallback is dead code | `username = None` | a missing username authenticates as `"root"` | high (not executed) | Connection.UsernameAsWritten, Connection.FallbackUnreachable | Connection.Username, Connection.UsernameAgrees |
| src/app.rs:76-83 | the password text box is created empty on every frame, so a frame's edit replaces the stored password with only the keys typed in that frame | typing "a" in one frame and "b" in the next stores `Some("b")` | the box shows the stored password, as the username box does (src/app.rs:48-51), so typing accumulates | medium (not executed; rests on egui keeping a text box's content only in the bound `String`) | Form.TypeIntoEmpty, Form.TypeIntoEmptyKeepsLastFrame, Form.PasswordTypingLosesKeys, Form.PasswordFramesTypeIntoEmpty | Form.TypeStored, Form.TypeStoredAccumulates |
