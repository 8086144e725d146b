/** `DockerHubLimitCollector._get_token`: fetch a bearer token from the Docker
    Hub auth endpoint, with basic auth in LOGIN mode. The HTTP exchange itself is
    an oracle: the reply the endpoint gave is a parameter. */
module TokenProvider {
  import opened Base
  import opened PyStr
  import opened Settings

  /** The body of the token response, as `request.json()` sees it. */
  datatype JsonBody =
    | NotJson                              // `json()` raises
    | NonObject                            // a JSON array, string, number, ...
    | Object(fields: map<string, string>)  // a JSON object; values as formatted by an f-string

  /** What `requests.get(TOKEN_URL, ...)` gave back. */
  datatype TokenReply =
    | Unreachable                          // connection error or timeout: requests raises
    | Reply(status: int, body: JsonBody)

  /** The basic-auth pair sent with the token request: the lower-cased user
      name and the password in LOGIN mode, nothing in ANONYMOUS mode. */
  function BasicAuth(cfg: Config): (auth: Option<(string, string)>)
    ensures auth.Some? <==> Authenticated(cfg)
    ensures auth.Some? ==> auth.value.0 == Lower(cfg.username.value) && auth.value.1 == cfg.password.value
    ensures auth.Some? ==> |auth.value.0| > 0 && forall i :: 0 <= i < |auth.value.0| ==> !IsUpper(auth.value.0[i])
  {
    if Authenticated(cfg) then Some((Lower(cfg.username.value), cfg.password.value)) else None
  }

  /** `_get_token()`: a 401 in LOGIN mode ends the process with status 1; in
      every other case the status is not looked at and the token is read from
      the JSON body. */
  function GetToken(cfg: Config, reply: TokenReply): (r: Outcome<string>)
    ensures r.Exit? <==> Authenticated(cfg) && reply.Reply? && reply.status == 401
    ensures r.Exit? ==> r.code == 1
    ensures r.Ok? ==> reply.Reply? && reply.body.Object? && "token" in reply.body.fields
                      && r.value == reply.body.fields["token"]
  {
    match reply
    case Unreachable => Raise(RequestError)
    case Reply(status, body) =>
      if Authenticated(cfg) && status == 401 then Exit(1)
      else
        match body
        case NotJson => Raise(JsonDecodeError)
        case NonObject => Raise(TypeError)
        case Object(fields) =>
          if "token" in fields then Ok(fields["token"]) else Raise(KeyError("token"))
  }

  /** In ANONYMOUS mode no reply ends the process. */
  lemma AnonymousNeverExits(cfg: Config, reply: TokenReply)
    requires !Authenticated(cfg)
    ensures !GetToken(cfg, reply).Exit?
  {
  }

  /** Apart from a 401 in LOGIN mode, the status code is ignored: an error
      status whose body still carries a token yields that token, and a 200 whose
      body does not fails exactly as the error status would. */
  lemma StatusIgnoredBesidesLoginUnauthorized(cfg: Config, s1: int, s2: int, body: JsonBody)
    requires !(Authenticated(cfg) && s1 == 401)
    requires !(Authenticated(cfg) && s2 == 401)
    ensures GetToken(cfg, Reply(s1, body)) == GetToken(cfg, Reply(s2, body))
  {
  }

  /** A body with a `token` field gives that token unless the process exits. */
  lemma TokenFromBody(cfg: Config, status: int, fields: map<string, string>)
    requires "token" in fields
    ensures GetToken(cfg, Reply(status, Object(fields))) ==
            if Authenticated(cfg) && status == 401 then Exit(1) else Ok(fields["token"])
  {
  }
}
