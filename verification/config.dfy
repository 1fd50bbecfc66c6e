/** The session catalog: the stored session records, the list of them the
    application keeps with one selection flag per session, and the start-up
    sequence that creates the data directory and file and loads the list.
    The file system and the binary decoder are inputs: a directory or file
    operation is its `Result`, and decoding is a function from the file's
    bytes to a decoded list or an error. */
module Config {
  import opened Common

  /** How a session authenticates; `PasswordAuth` is the default variant. */
  datatype AuthMode = PasswordAuth | KeyFileAuth

  const DefaultAuthMode: AuthMode := PasswordAuth

  /** The text the authentication drop-down shows for a mode. */
  function Label(mode: AuthMode): (text: string)
    ensures text == "Private key" <==> mode == KeyFileAuth
    ensures text == "Password" <==> mode == PasswordAuth
  {
    match mode
    case KeyFileAuth => "Private key"
    case PasswordAuth => "Password"
  }

  /** Distinct modes are shown with distinct labels. */
  lemma LabelInjective(a: AuthMode, b: AuthMode)
    ensures Label(a) == Label(b) <==> a == b
  {
  }

  /** One stored session. A key path is kept as text. */
  datatype Session = Session(
    name: string,
    ip: string,
    port: int32,
    username: Option<string>,
    authMethod: AuthMode,
    keyPath: Option<string>,
    password: Option<string>)

  /** `Session::new`: an empty entry for the standard SSH port. */
  function NewSession(): (s: Session)
    ensures s.name == "" && s.ip == ""
    ensures s.port == 22
    ensures s.username.None? && s.keyPath.None? && s.password.None?
    ensures s.authMethod == DefaultAuthMode
  {
    Session("", "", 22, None, PasswordAuth, None, None)
  }

  datatype Configuration = Configuration(sessions: seq<Session>)

  /** The catalog held in memory: the sessions and whether each is selected
      in the side panel. The project directory handle is not modelled. */
  datatype AppConfiguration = AppConfiguration(configuration: Configuration, selected: seq<bool>)

  /** One selection flag per session. */
  predicate Consistent(app: AppConfiguration)
  {
    |app.selected| == |app.configuration.sessions|
  }

  /** `Configuration::new` and the fields `AppConfiguration::new` starts from. */
  function EmptyApp(): (app: AppConfiguration)
    ensures Consistent(app)
    ensures |app.configuration.sessions| == 0
  {
    AppConfiguration(Configuration([]), [])
  }

  /** The kind of an I/O error, as far as the program tells kinds apart. */
  datatype IoErrorKind = AlreadyExists | PermissionDenied | OtherKind(name: string)

  /** The binary decoder's failure. */
  datatype DecodeError = DecodeError

  /** What `load_data` returns, and the catalog it leaves behind. */
  datatype Loaded = Loaded(outcome: Result<(), IoErrorKind>, app: AppConfiguration)

  /** `load_data`: read the sessions file; on an I/O error return it and
      change nothing; if the bytes do not decode, succeed and change
      nothing; otherwise replace the sessions by the decoded list and clear
      every selection flag. */
  function LoadData(app: AppConfiguration, file: Result<Bytes, IoErrorKind>,
                    decode: Bytes -> Result<seq<Session>, DecodeError>): (r: Loaded)
    ensures file.Failure? ==> r.outcome == Failure(file.error) && r.app == app
    ensures file.Success? ==> r.outcome.Success?
    ensures file.Success? && decode(file.value).Failure? ==> r.app == app
    ensures file.Success? && decode(file.value).Success? ==>
      && r.app.configuration.sessions == decode(file.value).value
      && |r.app.selected| == |r.app.configuration.sessions|
      && forall i | 0 <= i < |r.app.selected| :: !r.app.selected[i]
  {
    match file
    case Failure(e) => Loaded(Failure(e), app)
    case Success(data) =>
      match decode(data)
      case Failure(_) => Loaded(Success(()), app)
      case Success(sessions) =>
        Loaded(Success(()), AppConfiguration(Configuration(sessions), seq(|sessions|, _ => false)))
  }

  /** Loading keeps one selection flag per session, whatever the file
      holds, and after a successful decode nothing is selected. */
  lemma LoadKeepsConsistent(app: AppConfiguration, file: Result<Bytes, IoErrorKind>,
                            decode: Bytes -> Result<seq<Session>, DecodeError>)
    requires Consistent(app)
    ensures Consistent(LoadData(app, file, decode).app)
    ensures file.Success? && decode(file.value).Success? ==>
      LoadData(app, file, decode).app.selected == seq(|decode(file.value).value|, _ => false)
  {
  }

  const PermissionMessage: string := "Not enough permissions to create configuration directory!"
  const UnexpectedMessage: string := "Something unexpected went wrong while creating configuration directory!"

  /** What `new_config_dir` makes of the directory-creation result. */
  datatype DirVerdict = Created | AlreadyThere | Fatal(message: string)

  function ClassifyCreateDir(r: Result<(), IoErrorKind>): (v: DirVerdict)
    ensures v == Created <==> r.Success?
    ensures v == AlreadyThere <==> r == Failure(AlreadyExists)
    ensures v.Fatal? <==> r.Failure? && r.error != AlreadyExists
    ensures v.Fatal? ==> (v.message == PermissionMessage <==> r.error == PermissionDenied)
  {
    match r
    case Success(_) => Created
    case Failure(AlreadyExists) => AlreadyThere
    case Failure(PermissionDenied) => Fatal(PermissionMessage)
    case Failure(_) => Fatal(UnexpectedMessage)
  }

  const NoHomeMessage: string := "No valid home path detected."
  const CreateFileMessage: string := "Failed to create sessions file!"

  /** How `AppConfiguration::new` ends: a panic, an error returned to the
      caller, or a loaded catalog. */
  datatype Launch = Panicked(message: string) | Failed(error: IoErrorKind) | Launched(app: AppConfiguration)

  /** `AppConfiguration::new`: locate the project directories, create the
      data directory, create the sessions file, then load it. */
  function NewAppConfiguration(homeFound: bool, createDir: Result<(), IoErrorKind>,
                               createFile: Result<(), IoErrorKind>, file: Result<Bytes, IoErrorKind>,
                               decode: Bytes -> Result<seq<Session>, DecodeError>): (r: Launch)
    ensures r.Panicked? <==>
      !homeFound || ClassifyCreateDir(createDir).Fatal? || createFile.Failure?
    ensures r.Failed? <==> !r.Panicked? && file.Failure?
    ensures r.Failed? ==> r.error == file.error
    ensures r.Launched? ==> Consistent(r.app)
    ensures r.Launched? ==> (file.Success? && r.app.configuration.sessions ==
                             (if decode(file.value).Success? then decode(file.value).value else []))
  {
    if !homeFound then Panicked(NoHomeMessage)
    else
      match ClassifyCreateDir(createDir)
      case Fatal(message) => Panicked(message)
      case _ =>
        if createFile.Failure? then Panicked(CreateFileMessage)
        else
          var loaded := LoadData(EmptyApp(), file, decode);
          match loaded.outcome
          case Failure(e) => Failed(e)
          case Success(_) => Launched(loaded.app)
  }
}
