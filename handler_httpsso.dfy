/** The completion handler of the HTTP-header SSO provider: the redirect to the
    external login surface, the dispatch of a decoded identity payload to the
    host's UI-Auth or login completion, and the two callbacks the login
    completion is given. The host (its SSO mediator, account store and
    username normaliser) is abstracted: calls to the mediator are returned as
    `HostCall` values, the normaliser and the store lookup are parameters. */
module HandlerHttpSso {
  import opened Basics
  import opened Json
  import Utf8
  import opened FormEncoding
  import opened ConfigHttpSso

  /** Identifier of this provider in the external-ids table. */
  const IdpId: string := "httpsso"

  /** The fields the handler's constructor reads from the configuration, and
      the configuration itself (the redirect builder reads the service URL
      from it at call time). */
  datatype Handler = Handler(
    hostname: string,
    idpName: Json,
    idpIcon: Json,
    idpBrand: Json,
    enableRegistration: Json,
    config: Settings)

  /** The handler's constructor: reading an `idp_*` or registration attribute
      that `read_config` never assigned raises AttributeError, in the order the
      constructor reads them. */
  function NewHandler(config: Settings, hostname: string): (r: Result<Handler>)
    ensures r.Ok? <==> config.idpName.Some? && config.idpIcon.Some? && config.idpBrand.Some?
                       && config.enableRegistration.Some?
    ensures r.Ok? ==> && r.value.hostname == hostname && r.value.config == config
                      && Some(r.value.idpName) == config.idpName
                      && Some(r.value.idpIcon) == config.idpIcon
                      && Some(r.value.idpBrand) == config.idpBrand
                      && Some(r.value.enableRegistration) == config.enableRegistration
    ensures r.Err? ==> r.error.AttributeError?
  {
    if config.idpName.None? then Err(AttributeError("idp_name"))
    else if config.idpIcon.None? then Err(AttributeError("idp_icon"))
    else if config.idpBrand.None? then Err(AttributeError("idp_brand"))
    else if config.enableRegistration.None? then Err(AttributeError("httpsso_enable_registration"))
    else Ok(Handler(hostname, config.idpName.value, config.idpIcon.value, config.idpBrand.value,
                    config.enableRegistration.value, config))
  }

  /** A handler cannot be built from a fresh config object whose provider
      `read_config` found disabled. */
  lemma DisabledConfigHasNoHandler(root: seq<(string, Json)>, publicBaseurl: string, hostname: string)
    requires ReadSettings(Unset, root, publicBaseurl).Ok?
    requires !Truthy(ReadSettings(Unset, root, publicBaseurl).value.enabled.value)
    ensures NewHandler(ReadSettings(Unset, root, publicBaseurl).value, hostname) == Err(AttributeError("idp_name"))
  {
  }

  /** ... and always can be from one it found enabled. */
  lemma EnabledConfigHasHandler(prev: Settings, root: seq<(string, Json)>, publicBaseurl: string, hostname: string)
    requires EnabledSection(root)
    ensures ReadSettings(prev, root, publicBaseurl).Ok?
    ensures NewHandler(ReadSettings(prev, root, publicBaseurl).value, hostname).Ok?
  {
    EnabledIff(prev, root, publicBaseurl);
  }

  // ---------------------------------------------------------------------
  // handle_redirect_request

  /** The query key of a UI-Auth redirect. */
  const SessionKey: string := "session"
  /** The query key of a login redirect. */
  const RedirectUrlKey: string := "redirectUrl"

  predicate AllUnreserved(s: string) {
    forall i :: 0 <= i < |s| ==> IsUnreservedChar(s[i])
  }

  /** `quote_plus` leaves both keys as they are. */
  lemma KeysUnreserved()
    ensures AllUnreserved(SessionKey) && AllUnreserved(RedirectUrlKey)
  {
  }

  /** True for Python's truthiness of an optional string: present and
      non-empty. */
  predicate Given<T>(v: Option<seq<T>>) { v.Some? && v.value != [] }

  /** The single query argument: the UI-Auth session if one is given (the
      client redirect is then ignored), otherwise the client redirect URL
      decoded as UTF-8, which must be given. */
  function RedirectArgument(clientRedirectUrl: Option<seq<Byte>>, uiAuthSessionId: Option<string>): (r: Result<(string, string)>)
    ensures Given(uiAuthSessionId) ==> r == Ok((SessionKey, uiAuthSessionId.value))
    ensures !Given(uiAuthSessionId) && !Given(clientRedirectUrl) ==> r == Err(AssertionError)
    ensures !Given(uiAuthSessionId) && Given(clientRedirectUrl) ==>
              match Utf8.Decode(clientRedirectUrl.value)
              case None => r == Err(UnicodeDecodeError)
              case Some(text) => r == Ok((RedirectUrlKey, text)) && Utf8.Encode(text) == clientRedirectUrl.value
    ensures r.Ok? ==> r.value.0 == SessionKey || r.value.0 == RedirectUrlKey
    ensures r.Ok? && r.value.0 == RedirectUrlKey ==>
              clientRedirectUrl.Some? && Utf8.Encode(r.value.1) == clientRedirectUrl.value
  {
    if Given(uiAuthSessionId) then Ok((SessionKey, uiAuthSessionId.value))
    else if !Given(clientRedirectUrl) then Err(AssertionError)
    else match Utf8.Decode(clientRedirectUrl.value)
      case None => Err(UnicodeDecodeError)
      case Some(text) =>
        Utf8.EncodeDecode(clientRedirectUrl.value);
        Ok((RedirectUrlKey, text))
  }

  /** `handle_redirect_request`: the service URL, `?`, and the form-encoded
      argument. A service URL that is None (disabled provider) fails with
      TypeError, one never assigned with AttributeError. */
  function HandleRedirectRequest(h: Handler, clientRedirectUrl: Option<seq<Byte>>, uiAuthSessionId: Option<string>): (r: Result<string>)
    ensures r.Ok? ==> RedirectArgument(clientRedirectUrl, uiAuthSessionId).Ok?
                      && h.config.serviceUrl.Some? && h.config.serviceUrl.value.JStr?
    ensures RedirectArgument(clientRedirectUrl, uiAuthSessionId).Err? ==>
              r == Err(RedirectArgument(clientRedirectUrl, uiAuthSessionId).error)
  {
    match RedirectArgument(clientRedirectUrl, uiAuthSessionId)
    case Err(e) => Err(e)
    case Ok((key, value)) =>
      var query := UrlencodePair(key, value);
      match h.config.serviceUrl
      case None => Err(AttributeError("httpsso_service_url"))
      case Some(JStr(serviceUrl)) => Ok(serviceUrl + "?" + query)
      case Some(_) => Err(TypeError)
  }

  /** Whenever the argument is accepted and the service URL is a string, the
      URL is `service_url?key=<enc>`, the key written as it is. */
  lemma RedirectRequestOk(h: Handler, clientRedirectUrl: Option<seq<Byte>>, uiAuthSessionId: Option<string>, serviceUrl: string)
    requires RedirectArgument(clientRedirectUrl, uiAuthSessionId).Ok?
    requires h.config.serviceUrl == Some(JStr(serviceUrl))
    ensures var (key, arg) := RedirectArgument(clientRedirectUrl, uiAuthSessionId).value;
            HandleRedirectRequest(h, clientRedirectUrl, uiAuthSessionId) == Ok(serviceUrl + "?" + key + "=" + QuotePlus(arg))
  {
    var (key, arg) := RedirectArgument(clientRedirectUrl, uiAuthSessionId).value;
    assert HandleRedirectRequest(h, clientRedirectUrl, uiAuthSessionId) == Ok(serviceUrl + "?" + UrlencodePair(key, arg));
    assert AllUnreserved(key) by {
      KeysUnreserved();
    }
    QueryWithKey(serviceUrl, key, arg);
  }

  /** The query of a key that `quote_plus` leaves alone. */
  lemma QueryWithKey(url: string, key: string, value: string)
    requires AllUnreserved(key)
    ensures url + "?" + UrlencodePair(key, value) == url + "?" + key + "=" + QuotePlus(value)
  {
    QuotePlusUnreserved(key);
    assert UrlencodePair(key, value) == key + "=" + QuotePlus(value);
  }

  /** A handler whose config has the provider disabled (service URL None)
      cannot produce a redirect: an accepted argument meets `None + "?"`, a
      TypeError, and a rejected one fails before that. */
  lemma DisabledRedirectFails(h: Handler, clientRedirectUrl: Option<seq<Byte>>, uiAuthSessionId: Option<string>)
    requires h.config.serviceUrl == Some(JNull)
    ensures HandleRedirectRequest(h, clientRedirectUrl, uiAuthSessionId).Err?
    ensures RedirectArgument(clientRedirectUrl, uiAuthSessionId).Ok? ==>
              HandleRedirectRequest(h, clientRedirectUrl, uiAuthSessionId) == Err(TypeError)
  {
  }

  /** With a non-empty UI-Auth session the URL is `service_url?session=<enc>`,
      whatever the client redirect is. */
  lemma RedirectWithSession(h: Handler, clientRedirectUrl: Option<seq<Byte>>, session: string, serviceUrl: string)
    requires session != "" && h.config.serviceUrl == Some(JStr(serviceUrl))
    ensures HandleRedirectRequest(h, clientRedirectUrl, Some(session)) ==
            Ok(serviceUrl + "?" + SessionKey + "=" + QuotePlus(session))
  {
    RedirectRequestOk(h, clientRedirectUrl, Some(session), serviceUrl);
  }

  /** Without a session, a missing or empty client redirect fails the
      assertion, bytes that are not UTF-8 fail to decode, and otherwise the URL
      is `service_url?redirectUrl=<enc>` of the decoded text. */
  lemma RedirectForLogin(h: Handler, clientRedirectUrl: Option<seq<Byte>>, uiAuthSessionId: Option<string>, serviceUrl: string)
    requires !Given(uiAuthSessionId) && h.config.serviceUrl == Some(JStr(serviceUrl))
    ensures !Given(clientRedirectUrl) ==> HandleRedirectRequest(h, clientRedirectUrl, uiAuthSessionId) == Err(AssertionError)
    ensures Given(clientRedirectUrl) && Utf8.Decode(clientRedirectUrl.value).None? ==>
              HandleRedirectRequest(h, clientRedirectUrl, uiAuthSessionId) == Err(UnicodeDecodeError)
    ensures Given(clientRedirectUrl) && Utf8.Decode(clientRedirectUrl.value).Some? ==>
              HandleRedirectRequest(h, clientRedirectUrl, uiAuthSessionId) ==
              Ok(serviceUrl + "?" + RedirectUrlKey + "=" + QuotePlus(Utf8.Decode(clientRedirectUrl.value).value))
  {
    if Given(clientRedirectUrl) && Utf8.Decode(clientRedirectUrl.value).Some? {
      RedirectRequestOk(h, clientRedirectUrl, uiAuthSessionId, serviceUrl);
    }
  }

  /** The shape of every URL produced: the service URL, then `?` and one
      `key=value` pair with key `session` or `redirectUrl`; the value is
      form-encoded, so the tail holds no other `?`, `=` or `&`, and the value
      form-decodes to the argument (for a login redirect, to the very bytes the
      client gave). */
  lemma RedirectUrlShape(h: Handler, clientRedirectUrl: Option<seq<Byte>>, uiAuthSessionId: Option<string>)
    requires RedirectArgument(clientRedirectUrl, uiAuthSessionId).Ok?
    requires h.config.serviceUrl.Some? && h.config.serviceUrl.value.JStr?
    ensures HandleRedirectRequest(h, clientRedirectUrl, uiAuthSessionId).Ok?
    ensures var url := HandleRedirectRequest(h, clientRedirectUrl, uiAuthSessionId).value;
            var serviceUrl := h.config.serviceUrl.value.s;
            var key := RedirectArgument(clientRedirectUrl, uiAuthSessionId).value.0;
            var arg := RedirectArgument(clientRedirectUrl, uiAuthSessionId).value.1;
            && (key == SessionKey || key == RedirectUrlKey)
            && url == serviceUrl + "?" + key + "=" + QuotePlus(arg)
            && url[|serviceUrl|] == '?'
            && (forall i :: |serviceUrl| < i < |url| ==> url[i] != '?' && url[i] != '&')
            && (forall i :: |serviceUrl| < i < |url| && url[i] == '=' ==> i == |serviceUrl| + 1 + |key|)
            && IsFormEncoded(QuotePlus(arg))
            && FormDecode(QuotePlus(arg)) == Some(arg)
            && (key == RedirectUrlKey ==> UnquotePlus(QuotePlus(arg)) == Some(clientRedirectUrl.value))
  {
    var url := HandleRedirectRequest(h, clientRedirectUrl, uiAuthSessionId).value;
    var serviceUrl := h.config.serviceUrl.value.s;
    var key := RedirectArgument(clientRedirectUrl, uiAuthSessionId).value.0;
    var arg := RedirectArgument(clientRedirectUrl, uiAuthSessionId).value.1;
    var value := QuotePlus(arg);
    assert url == serviceUrl + "?" + key + "=" + value by {
      RedirectRequestOk(h, clientRedirectUrl, uiAuthSessionId, serviceUrl);
    }
    assert AllUnreserved(key) by {
      KeysUnreserved();
    }
    assert IsFormEncoded(value) && forall i :: 0 <= i < |value| ==> IsFormChar(value[i]) by {
      QuotePlusChars(arg);
    }
    QueryShape(serviceUrl, key, value);
    assert FormDecode(value) == Some(arg) by {
      FormDecodeQuotePlus(arg);
    }
    if key == RedirectUrlKey {
      UnquotePercentEncode(Utf8.Encode(arg));
    }
  }

  /** Where `?`, `=` and `&` can sit in `url?key=value`. */
  lemma QueryShape(url: string, key: string, value: string)
    requires AllUnreserved(key)
    requires forall i :: 0 <= i < |value| ==> IsFormChar(value[i])
    ensures var full := url + "?" + key + "=" + value;
            && full[|url|] == '?'
            && (forall i :: |url| < i < |full| ==> full[i] != '?' && full[i] != '&')
            && (forall i :: |url| < i < |full| && full[i] == '=' ==> i == |url| + 1 + |key|)
  {
    var full := url + "?" + key + "=" + value;
    var n := |url|;
    forall i | n < i < |full|
      ensures full[i] != '?' && full[i] != '&'
      ensures full[i] == '=' ==> i == n + 1 + |key|
    {
      if i > n + 1 + |key| {
        assert full[i] == value[i - n - 2 - |key|];
      } else if i <= n + |key| {
        assert full[i] == key[i - n - 1];
      }
    }
  }

  /** A session made of unreserved characters appears in the URL as it is:
      for example, a session `abc123` gives `service_url?session=abc123`. */
  lemma PlainSessionRedirect(h: Handler, serviceUrl: string, session: string)
    requires h.config.serviceUrl == Some(JStr(serviceUrl))
    requires session != "" && AllUnreserved(session)
    ensures HandleRedirectRequest(h, None, Some(session)) == Ok(serviceUrl + "?" + SessionKey + "=" + session)
  {
    RedirectWithSession(h, None, session, serviceUrl);
    QuotePlusUnreserved(session);
  }

  /** A client redirect `scheme://host/path` whose parts are unreserved text
      gives `service_url?redirectUrl=scheme%3A%2F%2Fhost%2Fpath`: for example,
      `https://client.example/cb` gives
      `service_url?redirectUrl=https%3A%2F%2Fclient.example%2Fcb`. */
  lemma PlainLoginRedirect(h: Handler, serviceUrl: string, scheme: string, host: string, path: string)
    requires h.config.serviceUrl == Some(JStr(serviceUrl))
    requires AllUnreserved(scheme) && AllUnreserved(host) && AllUnreserved(path)
    ensures HandleRedirectRequest(h, Some(Utf8.Encode(scheme + "://" + host + "/" + path)), None) ==
            Ok(serviceUrl + "?" + RedirectUrlKey + "=" + (scheme + "%3A%2F%2F" + host + "%2F" + path))
  {
    var text := scheme + "://" + host + "/" + path;
    var redirect := Utf8.Encode(text);
    Utf8.DecodeEncode(text);
    assert redirect != [] by {
      assert |text| > 0;
    }
    RedirectForLogin(h, Some(redirect), None, serviceUrl);
    QuotePlusSimpleUrl(scheme, host, path);
  }

  // ---------------------------------------------------------------------
  // handle_payload and its callbacks

  /** The identity attributes the host's user-management layer consumes. */
  datatype UserAttributes = UserAttributes(localpart: string, displayName: string, emails: seq<string>)

  /** What the two login callbacks close over. */
  datatype LoginCallbacks = LoginCallbacks(localpart: string, displayName: string, email: string, hostname: string)

  /** A call into the host's SSO mediator. */
  datatype HostCall =
    | UiAuthCall(idp: string, externalId: string, session: string)
    | LoginCall(idp: string, externalId: string, clientRedirectUrl: string,
                callbacks: LoginCallbacks, registrationEnabled: Json)

  /** `handle_payload`: a non-empty session completes UI-Auth with the raw
      user; otherwise the client redirect must not be None (an empty one is
      accepted) and login completion is called with the callbacks and the
      configured registration flag. A missing `user` or `email` key raises
      KeyError. */
  function HandlePayload(h: Handler, payload: map<string, string>, clientRedirectUrl: Option<string>,
                         session: Option<string>, normalize: string -> string): (r: Result<HostCall>)
    ensures r.Ok? ==> r.value.idp == "httpsso" && "user" in payload && r.value.externalId == payload["user"]
    ensures r.Ok? && r.value.UiAuthCall? <==> Given(session) && "user" in payload
  {
    if Given(session) then
      if "user" in payload then Ok(UiAuthCall(IdpId, payload["user"], session.value))
      else Err(KeyError("user"))
    else if clientRedirectUrl.None? then Err(AssertionError)
    else if "user" !in payload then Err(KeyError("user"))
    else if "email" !in payload then Err(KeyError("email"))
    else
      var user := payload["user"];
      Ok(LoginCall(IdpId, user, clientRedirectUrl.value,
                   LoginCallbacks(normalize(user), user, payload["email"], h.hostname),
                   h.enableRegistration))
  }

  /** The UI-Auth branch: one UI-Auth completion with the unchanged user and
      the session, and no login call; KeyError when the payload has no user. */
  lemma PayloadWithSession(h: Handler, payload: map<string, string>, clientRedirectUrl: Option<string>,
                           session: string, normalize: string -> string)
    requires session != ""
    ensures "user" in payload ==>
              HandlePayload(h, payload, clientRedirectUrl, Some(session), normalize) ==
              Ok(UiAuthCall("httpsso", payload["user"], session))
    ensures "user" !in payload ==>
              HandlePayload(h, payload, clientRedirectUrl, Some(session), normalize) == Err(KeyError("user"))
  {
  }

  /** The login branch: None as redirect fails the assertion, a missing
      `user` or `email` raises KeyError before any host call; otherwise one
      login completion with the user as external id, the redirect as given, the
      normalised localpart in the callbacks and the configured registration
      flag. */
  lemma PayloadForLogin(h: Handler, payload: map<string, string>, clientRedirectUrl: Option<string>,
                        session: Option<string>, normalize: string -> string)
    requires !Given(session)
    ensures clientRedirectUrl.None? ==> HandlePayload(h, payload, clientRedirectUrl, session, normalize) == Err(AssertionError)
    ensures clientRedirectUrl.Some? && "user" !in payload ==>
              HandlePayload(h, payload, clientRedirectUrl, session, normalize) == Err(KeyError("user"))
    ensures clientRedirectUrl.Some? && "user" in payload && "email" !in payload ==>
              HandlePayload(h, payload, clientRedirectUrl, session, normalize) == Err(KeyError("email"))
    ensures clientRedirectUrl.Some? && "user" in payload && "email" in payload ==>
              var r := HandlePayload(h, payload, clientRedirectUrl, session, normalize);
              && r.Ok? && r.value.LoginCall?
              && r.value.externalId == payload["user"]
              && r.value.clientRedirectUrl == clientRedirectUrl.value
              && r.value.callbacks.localpart == normalize(payload["user"])
              && r.value.callbacks.hostname == h.hostname
              && r.value.registrationEnabled == h.enableRegistration
  {
  }

  /** `cas_response_to_user_attributes`: any non-zero failure count is fatal. */
  function MapAttributes(cb: LoginCallbacks, failures: int): (r: Result<UserAttributes>)
    ensures r.Err? <==> failures != 0
    ensures r.Err? ==> r.error.RuntimeError?
    ensures r.Ok? ==> r.value.localpart == cb.localpart && r.value.displayName == cb.displayName
                      && r.value.emails == [cb.email]
  {
    if failures != 0 then Err(RuntimeError("HTTP SSO is not expected to de-duplicate Matrix IDs"))
    else Ok(UserAttributes(cb.localpart, cb.displayName, [cb.email]))
  }

  /** End to end: the attributes mapped for a login are the normalised user,
      the user as display name and the one e-mail address. */
  lemma LoginAttributes(h: Handler, payload: map<string, string>, clientRedirectUrl: string,
                        session: Option<string>, normalize: string -> string)
    requires !Given(session) && "user" in payload && "email" in payload
    ensures var r := HandlePayload(h, payload, Some(clientRedirectUrl), session, normalize);
            && r.Ok? && r.value.LoginCall?
            && MapAttributes(r.value.callbacks, 0) ==
               Ok(UserAttributes(normalize(payload["user"]), payload["user"], [payload["email"]]))
            && forall failures :: failures != 0 ==> MapAttributes(r.value.callbacks, failures).Err?
  {
  }

  /** The Matrix user id `@localpart:hostname` the grandfather callback looks
      up. */
  function UserIdOf(cb: LoginCallbacks): (r: string)
    ensures |r| == |cb.localpart| + |cb.hostname| + 2
    ensures r[0] == '@' && r[1..|cb.localpart| + 1] == cb.localpart
    ensures r[|cb.localpart| + 1] == ':' && r[|cb.localpart| + 2..] == cb.hostname
  {
    "@" + cb.localpart + ":" + cb.hostname
  }

  /** `grandfather_existing_users`: `lookup` is the store's case-insensitive
      query, its result the matching accounts in iteration order. The first
      match is reused; no match gives None. */
  function Grandfather<V>(cb: LoginCallbacks, lookup: string -> seq<(string, V)>): (r: Option<string>)
    ensures r.None? <==> lookup(UserIdOf(cb)) == []
    ensures r.Some? ==> r.value == lookup(UserIdOf(cb))[0].0
    ensures r.Some? ==> exists i :: 0 <= i < |lookup(UserIdOf(cb))| && lookup(UserIdOf(cb))[i].0 == r.value
  {
    var users := lookup(UserIdOf(cb));
    if users == [] then None else Some(users[0].0)
  }
}
