# HTTP-header SSO provider, modelled in Dafny

This project models the HTTP-header single-sign-on identity provider of a
Matrix homeserver (Synapse). The provider has two parts.

- **Configuration reader** (`synapse/config/httpsso.py`). `read_config` turns the
  `httpsso_config` section into the provider's settings:
  - whether it is enabled, judged by Python truthiness;
  - the payload header name, defaulting to `x-kvd-payload`;
  - the service URL: the public base URL followed by
    `_matrix/client/r0/login/httpsso`;
  - the registration flag (default true);
  - the display name (default `SSO`), icon and brand.

  `_parsed_required_attributes_def` checks the legacy required-attributes
  mapping and turns it into a list of requirements.
- **Completion handler** (`synapse/handlers/httpsso.py`):
  - `handle_redirect_request` builds the URL of the external login surface.
    The query is `session=` or `redirectUrl=` followed by the value,
    form-encoded by `urllib.parse.urlencode`.
  - `handle_payload` either completes a UI-Auth step or starts login
    completion.
  - Login completion gets two callbacks. The first maps the payload to user
    attributes. The second reuses ("grandfathers") an existing account
    `@localpart:hostname`.

Files:

| file | models |
|---|---|
| `basics.dfy` | `Option`, `Result`, bytes, and the Python exceptions the code raises |
| `json.dfy` | configuration values, Python truthiness, `dict.get` |
| `utf8.dfy` | strict UTF-8 (`str.encode` / `bytes.decode` with `"utf8"`), with round trips in both directions |
| `form_encoding.dfy` | `quote_plus` / `urlencode` as `application/x-www-form-urlencoded` with percent-encoding per section 2.1 of RFC 3986, plus a decoder that serves as its inverse |
| `config_httpsso.dfy` | `read_config`: the pure function `ReadSettings`, and the class `HttpSsoConfig` whose `ReadConfig` method assigns the attributes in place as the source does. Also the required-attributes parser |
| `handler_httpsso.dfy` | the handler's constructor, `handle_redirect_request`, `handle_payload` and its two callbacks |

How Python is represented:

- A Python attribute that was never assigned is `None`; reading it raises
  AttributeError. A Python `None` value is `Some(JNull)`.
- Exceptions are `Err` values.
- A call into the host's SSO mediator is a `HostCall` value:
  - `UiAuthCall(idp, externalId, session)`;
  - `LoginCall(idp, externalId, redirect, callbacks, registrationEnabled)`.

  `callbacks` holds what the two closures capture.
- The username normaliser `map_username_to_mxid_localpart` is a function
  parameter.
- The store's case-insensitive lookup `get_users_by_id_case_insensitive` is a
  function parameter. It returns the matching `(user id, value)` pairs in
  iteration order.

Behaviour of the code worth noting:

- The provider is disabled by any falsy section or falsy `enabled` value, not
  only a missing section or `enabled: false`. Examples: `{}`, `enabled: 0`.
- A truthy section that is not a dict makes `.get` raise AttributeError.
- `handle_redirect_request` rejects an empty redirect (`assert
  client_redirect_url`). `handle_payload` accepts an empty one, because it
  only checks `is not None`.
- `handle_redirect_request` is not guarded by the enabled flag.
  - On a fresh config object with the provider disabled, the handler cannot be
    built: reading `idp_name` raises AttributeError.
  - A handler whose service URL is `None` fails with TypeError.
- The disabled branch of `read_config` does not touch the registration flag or
  the `idp_*` attributes. `ReadSettings` therefore takes the previous
  attributes as input.

## Model

| member | source | states |
|---|---|---|
| Json.Find | synapse/config/httpsso.py:39-52 | the index of the first entry with key `k`, and None exactly when no entry has that key |
| Json.GetOr | synapse/config/httpsso.py:39-52 | `d.get(k, default)`: the default when no entry has key `k`, otherwise the value of an entry with key `k` |
| Json.Truthy | synapse/config/httpsso.py:40-42 | Python's `bool(v)`, used by the tests at config lines 40 and 42 and handler lines 94, 111 and 130: false exactly for None, False, `0`, `""`, `[]` and `{}` |
| ConfigHttpSso.EnabledValue | synapse/config/httpsso.py:40 | `section and section.get("enabled", True)`: a falsy section is returned as it is; for a truthy dict it is the `enabled` entry as configured (`0`, `""` or null included), or true when there is none; it fails (AttributeError) exactly when the section is truthy but not a dict; a truthy value implies a non-empty dict |
| ConfigHttpSso.Section | synapse/config/httpsso.py:39 | `config.get("httpsso_config", None)`: null when the key is missing, otherwise the value of its first entry |
| ConfigHttpSso.ReadSettings | synapse/config/httpsso.py:38-56 | succeeds exactly when the enabled test does, and the stored enabled value is that test's value in both branches; header and service URL are set. When enabled, the section is a dict, the stored enabled value is `get("enabled", True)`, the service URL is base URL + login path, and header, registration flag, `idp_name`, `idp_icon` and `idp_brand` are each `get(key, default)` with defaults `x-kvd-payload`, true, `SSO`, None, None. When disabled, header and service URL are None and the registration and `idp_*` attributes are left as they were |
| ConfigHttpSso.HttpSsoConfig.constructor | synapse/config/httpsso.py:33-36 | a config object starts with no provider attribute assigned |
| ConfigHttpSso.HttpSsoConfig.ReadConfig | synapse/config/httpsso.py:38-56 | assigns the attributes in place. It succeeds exactly when `ReadSettings` does, and the new attributes are the ones `ReadSettings` gives from the old ones. On the AttributeError nothing changes |
| ConfigHttpSso.EnabledIff | synapse/config/httpsso.py:39-42 | reading fails exactly when the section is truthy but not a dict. The provider is enabled exactly when the section is a non-empty dict whose `enabled` entry is missing or truthy |
| ConfigHttpSso.MissingSectionDisables | synapse/config/httpsso.py:38-56 | on a fresh config object, a missing or null section sets the enabled value, header and service URL to None, and leaves the registration flag and `idp_*` unassigned |
| ConfigHttpSso.EmptyOrFalseSectionDisables | synapse/config/httpsso.py:40-56 | `{}` and `enabled: false` both disable the provider, with header and service URL None |
| ConfigHttpSso.EnabledDefaults | synapse/config/httpsso.py:40-52 | for every enabled section (no `enabled` key, `enabled: true`, or any truthy value there): the stored enabled value is the configured one or true; `json_header` defaults to `x-kvd-payload`, `enable_registration` to true, `idp_name` to `SSO`, and icon and brand to None; configured values pass through unchanged |
| ConfigHttpSso.ServiceUrlConcatenation | synapse/config/httpsso.py:45-46 | the service URL is the public base URL followed directly by `_matrix/client/r0/login/httpsso`, with no separator: the base URL is its prefix and the path its suffix |
| ConfigHttpSso.Requirements | synapse/config/httpsso.py:75 | one requirement per entry, in order: the entry's key, paired with its string value or with None for null |
| ConfigHttpSso.MatchesRequiredAttributesSchema | synapse/config/httpsso.py:61-64 | the schema (an object whose values are strings or null) holds exactly when the value is an object in which `FirstBadKey` finds no offending entry |
| ConfigHttpSso.FirstBadKey | synapse/config/httpsso.py:70-74 | the key that extends the error path: None exactly when every value is a string or null, otherwise the key of an entry whose value is neither |
| ConfigHttpSso.ParseRequiredAttributes | synapse/config/httpsso.py:61-75 | accepted exactly when the value is an object whose every value is a string or null; otherwise a ConfigError whose path starts with `httpsso_config.required_attributes`: exactly that path for a non-object, and that path followed by an offending key for an object. On acceptance, one requirement per entry in order |
| Utf8.DecodeFirstEncodeChar | synapse/handlers/httpsso.py:98-100 | decoding starts by reading back the encoded character, whatever follows it |
| Utf8.EncodeCharDecodeFirst | synapse/handlers/httpsso.py:98 | the strict decoder only accepts a character's own encoding: no overlong forms, surrogates or code points past U+10FFFF |
| Utf8.Encode | synapse/handlers/httpsso.py:98-100 | `s.encode("utf8")`: at least one byte per character; `DecodeEncode` and `EncodeDecode` make it the exact inverse of `Decode` |
| Utf8.Decode | synapse/handlers/httpsso.py:98 | `bytes.decode("utf8")`, None standing for UnicodeDecodeError: decoded text has at most one character per byte; `EncodeDecode` shows it accepts nothing but the encoding of its result |
| Utf8.DecodeEncode | synapse/handlers/httpsso.py:98-100 | `s.encode("utf8").decode("utf8") == s` for every string of Unicode scalar values |
| Utf8.EncodeDecode | synapse/handlers/httpsso.py:98-100 | bytes that decode are exactly the encoding of the decoded text |
| FormEncoding.UnquotePercentEncode | synapse/handlers/httpsso.py:100 | form-decoding the percent-encoded bytes gives back those bytes |
| FormEncoding.PercentEncode | synapse/handlers/httpsso.py:100 | `quote_plus` on bytes: one to three characters per byte; `UnquotePercentEncode` shows it loses nothing |
| FormEncoding.QuotePlus | synapse/handlers/httpsso.py:100 | `quote_plus(s)` with UTF-8: at least one character per character of `s`, at most three per byte of its encoding; `FormDecodeQuotePlus` is its inverse |
| FormEncoding.UrlencodePair | synapse/handlers/httpsso.py:100 | `urlencode({key: value})`: the result's only `=` sits right after the encoded key, and the text before and after it form-decodes back to the key and the value |
| FormEncoding.FormDecodeQuotePlus | synapse/handlers/httpsso.py:100 | form-decoding `quote_plus(s)` gives back `s` exactly |
| FormEncoding.PercentEncodeIsFormEncoded | synapse/handlers/httpsso.py:100 | the encoder's output is a sequence of unreserved characters, `+`, and `%XX` triples with upper-case hexadecimal digits |
| FormEncoding.QuotePlusChars | synapse/handlers/httpsso.py:100 | every character of `quote_plus(s)` is an ASCII letter or digit, one of `_.-~`, `+` or `%` |
| FormEncoding.QuotePlusAppend | synapse/handlers/httpsso.py:100 | `quote_plus` distributes over concatenation |
| FormEncoding.QuotePlusUnreserved | synapse/handlers/httpsso.py:100 | text made only of letters, digits and `_.-~` is left unchanged |
| FormEncoding.QuotePlusAsciiReserved | synapse/handlers/httpsso.py:100 | any other ASCII character except space becomes `%` followed by its two upper-case hexadecimal digits |
| FormEncoding.QuotePlusSpace | synapse/handlers/httpsso.py:100 | a space becomes `+` (not `%20`, as `quote` would write it), and text on either side is encoded as it would be alone |
| FormEncoding.QuotePlusSimpleUrl | synapse/handlers/httpsso.py:100 | `scheme://host/path` with unreserved parts becomes `scheme%3A%2F%2Fhost%2Fpath` |
| HandlerHttpSso.NewHandler | synapse/handlers/httpsso.py:48-69 | the constructor succeeds exactly when the `idp_*` and registration attributes were assigned. It then copies them and keeps the hostname and the config; otherwise it raises AttributeError |
| HandlerHttpSso.DisabledConfigHasNoHandler | synapse/handlers/httpsso.py:61 | a fresh config that `read_config` found disabled gives no handler: reading `idp_name` raises AttributeError |
| HandlerHttpSso.EnabledConfigHasHandler | synapse/handlers/httpsso.py:61-69 | an enabled config always gives a handler |
| HandlerHttpSso.RedirectArgument | synapse/handlers/httpsso.py:94-98 | a non-empty session gives `("session", session)`, whatever the redirect is. Otherwise a missing or empty redirect fails the assertion, ill-formed UTF-8 fails to decode, and a valid redirect gives `("redirectUrl", text)` whose encoding is the given bytes |
| HandlerHttpSso.HandleRedirectRequest | synapse/handlers/httpsso.py:75-102 | a successful call had an accepted argument and a string service URL. A rejected argument fails first, before the service URL is read |
| HandlerHttpSso.RedirectRequestOk | synapse/handlers/httpsso.py:100-102 | with an accepted argument and a string service URL, the result is `service_url + "?" + key + "=" + quote_plus(value)` |
| HandlerHttpSso.DisabledRedirectFails | synapse/handlers/httpsso.py:100-102 | with the service URL None, no redirect is produced: an accepted argument fails with TypeError |
| HandlerHttpSso.RedirectWithSession | synapse/handlers/httpsso.py:94-102 | with a non-empty session the URL is `service_url?session=<quote_plus(session)>`, and the client redirect is ignored |
| HandlerHttpSso.RedirectForLogin | synapse/handlers/httpsso.py:96-102 | without a session, a missing or empty redirect fails the assertion and undecodable bytes fail with UnicodeDecodeError. Otherwise the URL is `service_url?redirectUrl=<quote_plus(text)>` |
| HandlerHttpSso.RedirectUrlShape | synapse/handlers/httpsso.py:94-102 | every URL is the service URL, then `?`, then exactly one `key=value` pair with key `session` or `redirectUrl`. After the service URL there is no other `?` or `&`, and no `=` but the one after the key. The value is form-encoded and decodes back to the argument; a login redirect decodes back to the client's exact bytes |
| HandlerHttpSso.QueryShape | synapse/handlers/httpsso.py:100-102 | in `url?key=value` with an unreserved key and a form-encoded value, the first `?` after the service URL is the only one, and the only `=` follows the key |
| HandlerHttpSso.PlainSessionRedirect | synapse/handlers/httpsso.py:94-102 | a session of unreserved characters (such as `abc123`) appears verbatim: `service_url?session=abc123` |
| HandlerHttpSso.PlainLoginRedirect | synapse/handlers/httpsso.py:96-102 | without a session, the UTF-8 bytes of `scheme://host/path` with unreserved parts (such as `https://client.example/cb`) give `service_url?redirectUrl=scheme%3A%2F%2Fhost%2Fpath` |
| HandlerHttpSso.HandlePayload | synapse/handlers/httpsso.py:104-165 | every call issued uses idp `httpsso` and the unchanged `payload['user']` as external id. It is a UI-Auth call exactly when the session is non-empty and the payload has a user |
| HandlerHttpSso.PayloadWithSession | synapse/handlers/httpsso.py:111-117 | a non-empty session with a `user` key gives exactly one UI-Auth call with `httpsso`, the user and the session, and no login call; without `user` it raises KeyError |
| HandlerHttpSso.PayloadForLogin | synapse/handlers/httpsso.py:118-165 | without a session, a None redirect fails the assertion; an empty string is accepted. A missing `user` raises KeyError, and so does a missing `email` when `user` is present, before any host call. With both keys there is one login call with the user, the redirect, the normalised localpart, the hostname and the configured registration flag |
| HandlerHttpSso.MapAttributes | synapse/handlers/httpsso.py:124-137 | fails with RuntimeError exactly when `failures != 0`. Otherwise it returns the captured localpart and display name and a one-element e-mail list |
| HandlerHttpSso.LoginAttributes | synapse/handlers/httpsso.py:120-137 | for a login, the mapped attributes are `normalize(user)`, `user`, and `[email]`, and every non-zero failure count fails |
| HandlerHttpSso.UserIdOf | synapse/handlers/httpsso.py:142 | the looked-up id is `@`, then the localpart, then `:`, then the hostname |
| HandlerHttpSso.Grandfather | synapse/handlers/httpsso.py:139-155 | None exactly when the lookup of `@localpart:hostname` is empty. Otherwise it returns the first key, which is a member of the lookup result |

## Left out

- `register_identity_provider` (`synapse/handlers/httpsso.py:73`) is left out. It is a foreign call into the host's process-wide registry.
- The other `hs.get_*` wiring (lines 49-55 and 71) is left out for the same reason.
- The proxied HTTP client is left out: the logic never uses it.
- The unused imports `ElementTree`, `PartialDownloadError` and `HttpResponseException` are left out.
- The `request` argument is left out of `HostCall`. It is an opaque object passed through to the host.
- `async`/`await` and Twisted scheduling are left out; every operation is synchronous.
- Logging calls are left out.
- The body of `map_username_to_mxid_localpart` is not part of this model: `synapse/types` is not available. It is an uninterpreted function parameter.
- The formatting internals of `UserID.to_string` are not part of this model. The user id is `"@" + localpart + ":" + hostname`.
- The datastore query `get_users_by_id_case_insensitive` is not part of this model. It is a parameter that returns an ordered sequence, so "first key" is deterministic. Case-insensitive matching is the store's concern.
- The internals of the `SsoAttributeRequirement` class are left out; a pair datatype stands for it.
- Configuration values have no floats.
- Payload values are strings only: the payload is a `map<string, string>`. Other JSON types under `user` or `email` are not modelled.
- A mutation of the config object after the handler is built is not modelled. The handler keeps the config it was built from, and the code reads the service URL from the same object at call time.
- `validate_config` (in `synapse/config/_util.py`) is not part of this model, nor is the jsonschema library behind it. Only the "object whose values are all strings or null" schema is modelled, and the error message is not reproduced.
- ParseRequiredAttributes: the error path is the given base, extended with the offending key for an object. When several keys are bad, the model reports the first; which one the library reports is not modelled.
- A `JObject` may hold duplicate keys, which no Python dict can. `GetOr` reads the first entry with the key, and `Requirements` yields one requirement per entry. Configuration objects with duplicate keys are not meaningful inputs and are not excluded by a precondition.
- Utf8.DecodeEncode, FormEncoding.QuotePlus: a Dafny `char` is a Unicode scalar value, so a Python string holding a lone surrogate cannot be represented. `str.encode("utf8")` raises UnicodeEncodeError on such a string, as `quote_plus(ui_auth_session_id)` at `synapse/handlers/httpsso.py:100` would; that error path is not modelled.
