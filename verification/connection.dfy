/** The connection parameters `new_connection_private_key` and
    `new_connection_password` compute before any network call: the identity
    to authenticate as and the `host:port` text handed to `TcpStream::connect`.
    Connecting, the handshake and authentication themselves are outside the
    model. */
module Connection {
  import opened Common
  import opened Decimal

  /** A panic raised by `unwrap` on `None`. */
  datatype Panic = UnwrapOnNone

  /** The identity the source names as the fallback for a missing username. */
  const DefaultUser: string := "root"

  /** Username resolution as written: `username.as_ref().unwrap()` runs
      before the `is_none` test, so a missing username panics and the
      fallback assignment is never reached. */
  function UsernameAsWritten(username: Option<string>): (r: Result<string, Panic>)
    ensures r.Failure? <==> username.None?
    ensures r.Success? ==> r.value == username.value
  {
    match username
    case None => Failure(UnwrapOnNone)
    case Some(u) => Success(u)
  }

  /** With no username given the as-written resolution panics, so the
      fallback identity is never produced for a missing username. */
  lemma FallbackUnreachable()
    ensures UsernameAsWritten(None) == Failure(UnwrapOnNone)
    ensures forall u: Option<string> ::
      UsernameAsWritten(u) == Success(DefaultUser) ==> u == Some(DefaultUser)
  {
  }

  /** Username resolution as intended: the given name, or the fallback when
      none is given. */
  function Username(username: Option<string>): (identity: string)
    ensures username.Some? ==> identity == username.value
    ensures username.None? ==> identity == DefaultUser
  {
    match username
    case None => DefaultUser
    case Some(u) => u
  }

  /** The intended resolution agrees with the as-written code wherever
      that succeeds, and differs exactly where it panics. */
  lemma UsernameAgrees(username: Option<string>)
    ensures UsernameAsWritten(username).Failure? <==> username == None
    ensures UsernameAsWritten(username).Success? ==>
      UsernameAsWritten(username).value == Username(username)
  {
  }

  /** `address + ":" + &port.to_string()`. */
  function Target(address: string, port: int32): (t: string)
    ensures |t| > |address| + 1
    ensures t[..|address|] == address && t[|address|] == ':'
    ensures ':' !in t[|address| + 1..]
    ensures ParseI32(t[|address| + 1..]) == Some(port)
  {
    ShowHasNoColon(port);
    ShowParseI32(port);
    var t := address + ":" + Show(port);
    assert t[|address| + 1..] == Show(port);
    t
  }

  /** Index of the last `:` in `s`, if any. */
  function LastColon(s: string): (r: Option<nat>)
    ensures r.Some? ==> (r.value < |s| && s[r.value] == ':'
                         && forall j | r.value < j < |s| :: s[j] != ':')
    ensures r.None? ==> ':' !in s
    decreases |s|
  {
    if |s| == 0 then None
    else if s[|s| - 1] == ':' then Some(|s| - 1)
    else LastColon(s[..|s| - 1])
  }

  /** Splitting the target at its last colon gives back the address (even
      one that contains colons itself) and text that parses to the port. */
  lemma TargetSplits(address: string, port: int32)
    ensures var t := Target(address, port);
      LastColon(t) == Some(|address|)
      && t[..|address|] == address
      && ParseI32(t[|address| + 1..]) == Some(port)
  {
    var t := Target(address, port);
    var tail := t[|address| + 1..];
    assert forall j | |address| < j < |t| :: t[j] == tail[j - |address| - 1];
    assert forall j | |address| < j < |t| :: t[j] != ':';
  }

  /** What a connection attempt would authenticate with. */
  datatype Endpoint = Endpoint(identity: string, target: string)

  /** The parameters of either `new_connection_*` function, as written. */
  function Prepare(address: string, port: int32, username: Option<string>): (r: Result<Endpoint, Panic>)
    ensures r.Failure? <==> username.None?
    ensures r.Success? ==> r.value.identity == username.value
    ensures r.Success? ==> (var t := r.value.target;
                            |t| > |address| && t[..|address|] == address
                            && LastColon(t) == Some(|address|)
                            && ParseI32(t[|address| + 1..]) == Some(port))
  {
    TargetSplits(address, port);
    match UsernameAsWritten(username)
    case Failure(p) => Failure(p)
    case Success(identity) => Success(Endpoint(identity, Target(address, port)))
  }
}
