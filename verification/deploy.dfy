/**
 The deployer of deploy.go: the deploy name, the Tomcat manager URL, the
 HTTP Basic credentials, and the outcome of the race between the response
 and a cancel request. The HTTP transport, reading the artifact and the
 cancellation context are not modelled: the artifact's bytes (or the failure
 to read them) and the winner of the final `select` are inputs.
 */
module Deploy {
  import opened Results
  import opened GoStrings
  import Base64

  /**
   `basicAuth`: the base 64 encoding (section 4 of RFC 4648) of
   `username ":" password`, the user-pass form of section 2 of RFC 7617.
   It decodes back to the credentials, has four characters per started group
   of three bytes, and only its last characters are `=` padding.
   */
  function BasicAuth(username: GoString, password: GoString): (r: GoString)
    ensures Base64.Decode(r) == Some(username + [Colon] + password)
    ensures |r| == 4 * ((|username| + |password| + 3) / 3)
    ensures Base64.PaddedWith(r, Base64.PadCount(|username| + |password| + 1))
  {
    var auth := username + [Colon] + password;
    Base64.DecodeEncode(auth);
    Base64.EncodePadding(auth);
    Base64.Encode(auth)
  }

  /** Distinct credentials give distinct encodings of `username ":" password`. */
  lemma BasicAuthInjective(u: GoString, p: GoString, u': GoString, p': GoString)
    ensures BasicAuth(u, p) == BasicAuth(u', p') <==> u + [Colon] + p == u' + [Colon] + p'
  {
    Base64.EncodeInjective(u + [Colon] + p, u' + [Colon] + p');
  }

  /**
   `basicAuth` is the only text that decodes to `username ":" password`, so a
   header whose credentials decode to them carries exactly `basicAuth`.
   */
  lemma BasicAuthUnique(username: GoString, password: GoString, t: GoString)
    ensures Base64.Decode(t) == Some(username + [Colon] + password) <==> t == BasicAuth(username, password)
  {
    Base64.DecodeIff(t, username + [Colon] + password);
  }

  /** The header deploy.go sends is "Basic " followed by exactly `basicAuth`. */
  lemma AuthorizationHeaderIsBasicAuth(username: GoString, password: GoString)
    ensures var r := AuthorizationHeader(username, password);
            r == Ascii("Basic ") + BasicAuth(username, password)
  {
    var r := AuthorizationHeader(username, password);
    BasicAuthUnique(username, password, r[6..]);
    assert r == r[..6] + r[6..];
  }

  /** `basicAuth` is the base 64 encoding of `username ":" password`, whatever the arguments. */
  lemma BasicAuthIsEncode(username: GoString, password: GoString)
    ensures BasicAuth(username, password) == Base64.Encode(username + [Colon] + password)
  {
  }

  /** The bytes of "admin:secret", in groups of three. */
  lemma AdminSecretBytes()
    ensures Ascii("admin") + [Colon] + Ascii("secret")
            == [97, 100, 109] + [105, 110, 58] + [115, 101, 99] + [114, 101, 116]
  {
  }

  /** The bytes of "YWRtaW46c2VjcmV0", in groups of four. */
  lemma AdminSecretText()
    ensures Ascii("YWRtaW46c2VjcmV0")
            == [89, 87, 82, 116] + [97, 87, 52, 54] + [99, 50, 86, 106] + [99, 109, 86, 48]
  {
  }

  /** A worked example: user "admin" with password "secret" sends "YWRtaW46c2VjcmV0". */
  lemma BasicAuthExample()
    ensures BasicAuth(Ascii("admin"), Ascii("secret")) == Ascii("YWRtaW46c2VjcmV0")
  {
    BasicAuthIsEncode(Ascii("admin"), Ascii("secret"));
    AdminSecretBytes();
    Base64.EncodeFourGroups([97, 100, 109], [105, 110, 58], [115, 101, 99], [114, 101, 116]);
    Base64.VectorAdm();
    Base64.VectorInColon();
    Base64.VectorSec();
    Base64.VectorRet();
    AdminSecretText();
  }

  /**
   Nothing stops a user name from holding `:`, so the credentials are not
   recoverable from the header: "a:b" / "c" and "a" / "b:c" send the same one.
   */
  lemma BasicAuthColonAmbiguity()
    ensures BasicAuth(Ascii("a:b"), Ascii("c")) == BasicAuth(Ascii("a"), Ascii("b:c"))
  {
    assert Ascii("a:b") + [Colon] + Ascii("c") == Ascii("a") + [Colon] + Ascii("b:c");
  }

  /** The `Authorization` header value: "Basic " followed by the encoded credentials. */
  function AuthorizationHeader(username: GoString, password: GoString): (r: GoString)
    ensures |r| > 6 && r[..6] == Ascii("Basic ")
    ensures Base64.Decode(r[6..]) == Some(username + [Colon] + password)
  {
    var prefix := Ascii("Basic ");
    var r := prefix + BasicAuth(username, password);
    assert r[6..] == BasicAuth(username, password);
    r
  }

  /**
   Why a `deployWar` call takes the whole process down: slicing the basename
   up to `strings.Index` = -1 panics, and an unreadable artifact ends in
   `log.Fatal`.
   */
  datatype Fatal = SliceOutOfRange(basename: GoString) | WarUnreadable

  /**
   The deploy name: a configured non-empty `appname` as it is, otherwise the
   part of the artifact's basename before its first `.`. A basename without
   a `.` (among them "/" for a path of slashes) is the error case.
   */
  function AppName(appname: GoString, warpath: GoString): (r: Result<GoString, Fatal>)
    ensures |appname| > 0 ==> r == Ok(appname)
    ensures |appname| == 0 ==> (r.Ok? <==> Dot in Base(warpath))
    ensures |appname| == 0 && r.Ok? ==>
              var b := Base(warpath);
              |r.value| < |b| && b[..|r.value|] == r.value && b[|r.value|] == Dot
              && Dot !in r.value && Slash !in r.value
    ensures r.Err? ==> r.error == SliceOutOfRange(Base(warpath))
  {
    if |appname| == 0 then
      var basename := Base(warpath);
      var i := Index(basename, Dot);
      if i < 0 then Err(SliceOutOfRange(basename))
      else
        assert basename[..i] <= basename;
        Ok(basename[..i])
    else
      Ok(appname)
  }

  /** Without a configured name, an artifact `dir/name` deploys under the part of `name` before its first dot. */
  lemma AppNameOfJoin(dir: GoString, name: GoString, k: nat)
    requires Slash !in name && k < |name| && name[k] == Dot && Dot !in name[..k]
    ensures AppName([], dir + [Slash] + name) == Ok(name[..k])
  {
    BaseOfJoin(dir, name);
  }

  /** A derived name stops at the first dot: "d/app.1.war" deploys as "app". */
  lemma AppNameExample()
    ensures AppName([], Ascii("d/app.1.war")) == Ok(Ascii("app"))
  {
    var name := Ascii("app.1.war");
    assert Ascii("d/app.1.war") == Ascii("d") + [Slash] + name;
    assert name[..3] == Ascii("app");
    AppNameOfJoin(Ascii("d"), name, 3);
  }

  /** A configured name wins over the artifact's. */
  lemma AppNameConfigured()
    ensures AppName(Ascii("myapp"), Ascii("build.war")) == Ok(Ascii("myapp"))
  {
  }

  /** The edge cases of `path.Base`: the empty path gives ".", an empty name; "/" gives no name. */
  lemma AppNameEdgeCases()
    ensures AppName([], []) == Ok([])
    ensures AppName([], [Slash]) == Err(SliceOutOfRange([Slash]))
  {
  }

  /** The fixed text between the address and the deploy name. */
  function ManagerPath(): (r: GoString)
    ensures |r| == 27
  {
    Ascii("/manager/text/deploy?path=/")
  }

  /** The fixed text after the deploy name. */
  function UpdateFlag(): (r: GoString)
    ensures |r| == 12
  {
    Ascii("&update=true")
  }

  /**
   The manager URL `<addr>/manager/text/deploy?path=/<appname>&update=true`:
   it starts with the address and reads back to the deploy name.
   */
  function DeployUrl(addr: GoString, appname: GoString): (r: GoString)
    ensures addr <= r
    ensures |r| == |addr| + |appname| + 39
    ensures UrlAppName(addr, r) == Some(appname)
  {
    var r := addr + ManagerPath() + appname + UpdateFlag();
    assert r[..|addr| + 27] == addr + ManagerPath();
    assert r[|r| - 12..] == UpdateFlag();
    assert r[|addr| + 27..|r| - 12] == appname;
    r
  }

  /** Reads the deploy name back out of a manager URL for `addr`; `None` when `url` is not one. */
  function UrlAppName(addr: GoString, url: GoString): Option<GoString> {
    var head := addr + ManagerPath();
    var tail := UpdateFlag();
    if |url| >= |head| + |tail| && url[..|head|] == head && url[|url| - |tail|..] == tail
    then Some(url[|head|..|url| - |tail|])
    else None
  }

  /** Distinct deploy names give distinct URLs on one server. */
  lemma DeployUrlInjective(addr: GoString, a: GoString, a': GoString)
    ensures DeployUrl(addr, a) == DeployUrl(addr, a') <==> a == a'
  {
  }

  /** The request `deployWar` sends: HTTP method, URL, `Authorization` header and the artifact as body. */
  datatype Request = Request(verb: GoString, url: GoString, authorization: GoString, body: seq<byte>)

  /**
   The request for deploy name `name`: a PUT of the artifact to the manager URL
   on `addr`, authenticated with the decodable credentials.
   */
  function NewRequest(addr: GoString, user: GoString, pass: GoString, name: GoString, war: seq<byte>): (q: Request)
    ensures q.verb == Ascii("PUT")
    ensures addr <= q.url && UrlAppName(addr, q.url) == Some(name)
    ensures |q.authorization| > 6 && q.authorization[..6] == Ascii("Basic ")
    ensures Base64.Decode(q.authorization[6..]) == Some(user + [Colon] + pass)
    ensures q.body == war
  {
    Request(Ascii("PUT"), DeployUrl(addr, name), AuthorizationHeader(user, pass), war)
  }

  /** What `client.Do` hands back: a response with a status code, or nil on a transport error. */
  datatype Response = Status(code: int) | TransportError

  /** Which case of the final `select` wins: the response, or a cancel request on `done`. */
  datatype Race = ResponseFirst(response: Response) | CancelFirst

  /** How a deployment ends. */
  datatype Outcome = Deployed | DeployFailed(status: Option<int>) | Canceled

  /** A runtime panic in the deploying goroutine, which takes the whole process down. */
  datatype Panic = NilDereference

  /**
   The final `select` as written: a winning response is read through
   `r.StatusCode` even when `client.Do` failed and `r` is nil.
   */
  function SelectOutcomeAsWritten(race: Race): (r: Result<Outcome, Panic>)
    ensures r.Err? <==> race == ResponseFirst(TransportError)
  {
    match race
    case ResponseFirst(TransportError) => Err(NilDereference)
    case ResponseFirst(Status(code)) => Ok(if code != 200 then DeployFailed(Some(code)) else Deployed)
    case CancelFirst => Ok(Canceled)
  }

  /** A transport error that wins the race panics. */
  lemma TransportErrorPanics()
    ensures SelectOutcomeAsWritten(ResponseFirst(TransportError)) == Err(NilDereference)
  {
  }

  /**
   The final `select` with the transport error reported as a failure: success
   exactly on status 200, failure on any other status or no response, and
   cancellation when the cancel request wins. Elsewhere it agrees with the
   code as written.
   */
  function SelectOutcome(race: Race): (r: Outcome)
    ensures r == Deployed <==> race == ResponseFirst(Status(200))
    ensures r == Canceled <==> race == CancelFirst
    ensures race.ResponseFirst? && race.response.Status? && race.response.code != 200 ==>
              r == DeployFailed(Some(race.response.code))
    ensures race == ResponseFirst(TransportError) ==> r == DeployFailed(None)
    ensures race != ResponseFirst(TransportError) ==> SelectOutcomeAsWritten(race) == Ok(r)
  {
    match race
    case ResponseFirst(TransportError) => DeployFailed(None)
    case ResponseFirst(Status(code)) => if code == 200 then Deployed else DeployFailed(Some(code))
    case CancelFirst => Canceled
  }

  /** One finished `deployWar` call: the request it sent, how it ended, and whether it acknowledged a cancel. */
  datatype Deployment = Deployment(request: Request, outcome: Outcome, acknowledged: bool)

  /**
   `deployWar`: derive the deploy name, read the artifact, build the
   authenticated PUT, and settle the race between its response and a cancel
   request. A deploy name that cannot be derived is fatal before the artifact
   is read. A cancel is acknowledged on the channel it carries; nothing else
   is.
   */
  function DeployWar(addr: GoString, user: GoString, pass: GoString, appname: GoString,
                     warpath: GoString, war: Option<seq<byte>>, race: Race): (r: Result<Deployment, Fatal>)
    ensures AppName(appname, warpath).Err? ==> r == Err(AppName(appname, warpath).error)
    ensures AppName(appname, warpath).Ok? && war.None? ==> r == Err(WarUnreadable)
    ensures AppName(appname, warpath).Ok? && war.Some? ==>
              && r.Ok?
              && r.value.request == NewRequest(addr, user, pass, AppName(appname, warpath).value, war.value)
              && r.value.outcome == SelectOutcome(race)
              && (r.value.acknowledged <==> race == CancelFirst)
  {
    match AppName(appname, warpath)
    case Err(e) => Err(e)
    case Ok(name) =>
      match war
      case None => Err(WarUnreadable)
      case Some(body) =>
        var outcome := SelectOutcome(race);
        Ok(Deployment(NewRequest(addr, user, pass, name, body), outcome, outcome == Canceled))
  }

  /**
   `deployWar` as written: the same, except that a transport error winning the
   race dereferences the nil response. A name that cannot be derived and an
   unreadable artifact are still fatal first; on every other input it agrees
   with `DeployWar`.
   */
  function DeployWarAsWritten(addr: GoString, user: GoString, pass: GoString, appname: GoString,
                              warpath: GoString, war: Option<seq<byte>>, race: Race)
    : (r: Result<Result<Deployment, Panic>, Fatal>)
    ensures race != ResponseFirst(TransportError) ==>
              match DeployWar(addr, user, pass, appname, warpath, war, race)
              case Ok(d) => r == Ok(Ok(d))
              case Err(e) => r == Err(e)
    ensures race == ResponseFirst(TransportError) ==>
              match DeployWar(addr, user, pass, appname, warpath, war, race)
              case Ok(_) => r == Ok(Err(NilDereference))
              case Err(e) => r == Err(e)
  {
    match AppName(appname, warpath)
    case Err(e) => Err(e)
    case Ok(name) =>
      match war
      case None => Err(WarUnreadable)
      case Some(body) =>
        match SelectOutcomeAsWritten(race)
        case Err(p) => Ok(Err(p))
        case Ok(outcome) => Ok(Ok(Deployment(NewRequest(addr, user, pass, name, body), outcome, outcome == Canceled)))
  }
}
