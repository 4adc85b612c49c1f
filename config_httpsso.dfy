/** The provider configuration: `HttpSsoConfig.read_config`, which writes the
    `httpsso_*` and `idp_*` attributes of the config object from the
    `httpsso_config` section, and the legacy "required attributes" parser. */
module ConfigHttpSso {
  import opened Basics
  import opened Json

  const DefaultJsonHeader: string := "x-kvd-payload"
  const LoginPath: string := "_matrix/client/r0/login/httpsso"
  const DefaultIdpName: string := "SSO"

  /** The attributes `read_config` assigns on the config object. An attribute
      that was never assigned is None (reading it raises AttributeError); a
      Python `None` is `Some(JNull)`. */
  datatype Settings = Settings(
    enabled: Option<Json>,
    jsonHeader: Option<Json>,
    serviceUrl: Option<Json>,
    enableRegistration: Option<Json>,
    idpName: Option<Json>,
    idpIcon: Option<Json>,
    idpBrand: Option<Json>)

  /** A config object before `read_config` has run. */
  const Unset := Settings(None, None, None, None, None, None, None)

  /** `config.get("httpsso_config", None)`. */
  function Section(root: seq<(string, Json)>): (r: Json)
    ensures Find(root, "httpsso_config").None? ==> r == JNull
    ensures Find(root, "httpsso_config").Some? ==> r == root[Find(root, "httpsso_config").value].1
  {
    GetOr(root, "httpsso_config", JNull)
  }

  /** `httpsso_config and httpsso_config.get("enabled", True)`: the section
      itself when it is falsy, its `enabled` entry (default true) otherwise;
      `.get` on a truthy value that is not a dict raises AttributeError. */
  function EnabledValue(section: Json): (r: Result<Json>)
    ensures r.Err? <==> Truthy(section) && !section.JObject?
    ensures r.Ok? && Truthy(r.value) ==> section.JObject? && section.entries != []
    ensures !Truthy(section) ==> r == Ok(section)
    ensures Truthy(section) && section.JObject? ==>
              r == Ok(if Find(section.entries, "enabled").None? then JBool(true)
                      else section.entries[Find(section.entries, "enabled").value].1)
  {
    if !Truthy(section) then Ok(section)
    else if section.JObject? then Ok(GetOr(section.entries, "enabled", JBool(true)))
    else Err(AttributeError("get"))
  }

  /** The attributes after `read_config(root)` on an object whose attributes
      were `prev`, with `publicBaseurl` the server's `public_baseurl`. The
      disabled branch leaves the registration flag and the `idp_*` attributes
      as they were. */
  function ReadSettings(prev: Settings, root: seq<(string, Json)>, publicBaseurl: string): (r: Result<Settings>)
    ensures r.Ok? ==> r.value.enabled.Some? && r.value.jsonHeader.Some? && r.value.serviceUrl.Some?
    ensures r.Ok? <==> EnabledValue(Section(root)).Ok?
    ensures r.Ok? ==> r.value.enabled == Some(EnabledValue(Section(root)).value)
    ensures r.Ok? && Truthy(r.value.enabled.value) ==>
              && Section(root).JObject?
              && var entries := Section(root).entries;
              && r.value.enabled == Some(GetOr(entries, "enabled", JBool(true)))
              && r.value.jsonHeader == Some(GetOr(entries, "json_header", JStr(DefaultJsonHeader)))
              && r.value.serviceUrl == Some(JStr(publicBaseurl + LoginPath))
              && r.value.enableRegistration == Some(GetOr(entries, "enable_registration", JBool(true)))
              && r.value.idpName == Some(GetOr(entries, "idp_name", JStr(DefaultIdpName)))
              && r.value.idpIcon == Some(GetOr(entries, "idp_icon", JNull))
              && r.value.idpBrand == Some(GetOr(entries, "idp_brand", JNull))
    ensures r.Ok? && !Truthy(r.value.enabled.value) ==>
              && r.value.jsonHeader == Some(JNull) && r.value.serviceUrl == Some(JNull)
              && r.value.enableRegistration == prev.enableRegistration
              && r.value.idpName == prev.idpName && r.value.idpIcon == prev.idpIcon
              && r.value.idpBrand == prev.idpBrand
  {
    var section := Section(root);
    match EnabledValue(section)
    case Err(e) => Err(e)
    case Ok(enabled) =>
      if Truthy(enabled) then
        var entries := section.entries;
        Ok(Settings(
          enabled := Some(enabled),
          jsonHeader := Some(GetOr(entries, "json_header", JStr(DefaultJsonHeader))),
          serviceUrl := Some(JStr(publicBaseurl + LoginPath)),
          enableRegistration := Some(GetOr(entries, "enable_registration", JBool(true))),
          idpName := Some(GetOr(entries, "idp_name", JStr(DefaultIdpName))),
          idpIcon := Some(GetOr(entries, "idp_icon", JNull)),
          idpBrand := Some(GetOr(entries, "idp_brand", JNull))))
      else
        Ok(prev.(enabled := Some(enabled), jsonHeader := Some(JNull), serviceUrl := Some(JNull)))
  }

  /** The config object of the provider: its attributes are fields, and
      `read_config` assigns them in place. */
  class HttpSsoConfig {
    var httpssoEnabled: Option<Json>
    var httpssoJsonHeader: Option<Json>
    var httpssoServiceUrl: Option<Json>
    var httpssoEnableRegistration: Option<Json>
    var idpName: Option<Json>
    var idpIcon: Option<Json>
    var idpBrand: Option<Json>

    /** The current attributes as a value. */
    function Attributes(): (s: Settings)
      reads this
    {
      Settings(httpssoEnabled, httpssoJsonHeader, httpssoServiceUrl, httpssoEnableRegistration,
               idpName, idpIcon, idpBrand)
    }

    constructor ()
      ensures Attributes() == Unset
    {
      httpssoEnabled, httpssoJsonHeader, httpssoServiceUrl := None, None, None;
      httpssoEnableRegistration, idpName, idpIcon, idpBrand := None, None, None, None;
    }

    /** `read_config`: on success the attributes are those `ReadSettings`
        gives; on the AttributeError nothing has been assigned yet. */
    method ReadConfig(root: seq<(string, Json)>, publicBaseurl: string) returns (err: Option<Error>)
      modifies this
      ensures var r := ReadSettings(old(Attributes()), root, publicBaseurl);
              && (err.None? <==> r.Ok?)
              && (r.Ok? ==> Attributes() == r.value)
              && (r.Err? ==> err == Some(r.error) && Attributes() == old(Attributes()))
    {
      var section := GetOr(root, "httpsso_config", JNull);
      if Truthy(section) && !section.JObject? {
        return Some(AttributeError("get"));
      }
      httpssoEnabled := Some(if Truthy(section) then GetOr(section.entries, "enabled", JBool(true)) else section);

      if Truthy(httpssoEnabled.value) {
        var entries := section.entries;
        httpssoJsonHeader := Some(GetOr(entries, "json_header", JStr(DefaultJsonHeader)));
        httpssoServiceUrl := Some(JStr(publicBaseurl + LoginPath));
        httpssoEnableRegistration := Some(GetOr(entries, "enable_registration", JBool(true)));
        idpName := Some(GetOr(entries, "idp_name", JStr(DefaultIdpName)));
        idpIcon := Some(GetOr(entries, "idp_icon", JNull));
        idpBrand := Some(GetOr(entries, "idp_brand", JNull));
      } else {
        httpssoJsonHeader := Some(JNull);
        httpssoServiceUrl := Some(JNull);
      }
      err := None;
    }
  }

  /** True when the `httpsso_config` section is present as a dict with entries
      whose `enabled` entry (default true) is truthy. */
  predicate EnabledSection(root: seq<(string, Json)>) {
    var section := Section(root);
    section.JObject? && section.entries != [] && Truthy(GetOr(section.entries, "enabled", JBool(true)))
  }

  /** The provider is enabled exactly when the section is a non-empty dict
      whose `enabled` entry is missing or truthy; reading fails exactly when the
      section is truthy but not a dict. */
  lemma EnabledIff(prev: Settings, root: seq<(string, Json)>, publicBaseurl: string)
    ensures var r := ReadSettings(prev, root, publicBaseurl);
            && (r.Err? <==> Truthy(Section(root)) && !Section(root).JObject?)
            && (r.Ok? && Truthy(r.value.enabled.value) <==> EnabledSection(root))
  {
  }

  /** A missing (or null) section gives a disabled provider whose header and
      service URL are None; on a fresh object the registration flag and the
      `idp_*` attributes stay unset. */
  lemma MissingSectionDisables(root: seq<(string, Json)>, publicBaseurl: string)
    requires Find(root, "httpsso_config").None? || Section(root) == JNull
    ensures ReadSettings(Unset, root, publicBaseurl) ==
            Ok(Settings(Some(JNull), Some(JNull), Some(JNull), None, None, None, None))
  {
  }

  /** An empty section `{}` and `enabled: false` both disable the provider. */
  lemma EmptyOrFalseSectionDisables(prev: Settings, root: seq<(string, Json)>, publicBaseurl: string)
    requires Section(root) == JObject([])
          || (Section(root).JObject? && Find(Section(root).entries, "enabled").Some?
              && GetOr(Section(root).entries, "enabled", JNull) == JBool(false))
    ensures var r := ReadSettings(prev, root, publicBaseurl);
            && r.Ok? && !Truthy(r.value.enabled.value)
            && r.value.jsonHeader == Some(JNull) && r.value.serviceUrl == Some(JNull)
  {
  }

  /** An enabled section (one without `enabled`, with `enabled: true`, or with
      any other truthy value there) has every default in place for the keys it
      leaves out and the configured value for the keys it gives; the stored
      enabled value is the configured one, or true. */
  lemma EnabledDefaults(prev: Settings, root: seq<(string, Json)>, publicBaseurl: string)
    requires EnabledSection(root)
    ensures var r := ReadSettings(prev, root, publicBaseurl);
            var entries := Section(root).entries;
            && r.Ok?
            && r.value.enabled == Some(if Find(entries, "enabled").None?
                                       then JBool(true) else entries[Find(entries, "enabled").value].1)
            && r.value.serviceUrl == Some(JStr(publicBaseurl + "_matrix/client/r0/login/httpsso"))
            && r.value.jsonHeader == Some(if Find(entries, "json_header").None?
                                          then JStr("x-kvd-payload") else entries[Find(entries, "json_header").value].1)
            && r.value.enableRegistration == Some(if Find(entries, "enable_registration").None?
                                                  then JBool(true) else entries[Find(entries, "enable_registration").value].1)
            && r.value.idpName == Some(if Find(entries, "idp_name").None?
                                       then JStr("SSO") else entries[Find(entries, "idp_name").value].1)
            && r.value.idpIcon == Some(if Find(entries, "idp_icon").None?
                                       then JNull else entries[Find(entries, "idp_icon").value].1)
            && r.value.idpBrand == Some(if Find(entries, "idp_brand").None?
                                        then JNull else entries[Find(entries, "idp_brand").value].1)
  {
  }

  /** The service URL is the public base URL with the login path appended,
      no separator inserted: the base URL is a prefix and the path a suffix. */
  lemma ServiceUrlConcatenation(prev: Settings, root: seq<(string, Json)>, publicBaseurl: string)
    requires EnabledSection(root)
    ensures var r := ReadSettings(prev, root, publicBaseurl);
            && r.Ok? && r.value.serviceUrl.value.JStr?
            && var u := r.value.serviceUrl.value.s;
            && |u| == |publicBaseurl| + |LoginPath|
            && u[..|publicBaseurl|] == publicBaseurl
            && u[|publicBaseurl|..] == LoginPath
  {
    var u := publicBaseurl + LoginPath;
    assert u[..|publicBaseurl|] == publicBaseurl;
    assert u[|publicBaseurl|..] == LoginPath;
  }

  // ---------------------------------------------------------------------
  // Legacy required-attributes mapping

  /** One parsed requirement: an attribute name and the value it must have
      (None: any value). */
  datatype AttributeRequirement = AttributeRequirement(attribute: string, value: Option<string>)

  predicate IsStringOrNull(v: Json) { v.JStr? || v.JNull? }

  /** `REQUIRED_ATTRIBUTES_SCHEMA`: an object whose every value is a string or
      null. */
  predicate MatchesRequiredAttributesSchema(v: Json)
    ensures MatchesRequiredAttributesSchema(v) <==> v.JObject? && FirstBadKey(v.entries).None?
  {
    v.JObject? && forall i :: 0 <= i < |v.entries| ==> IsStringOrNull(v.entries[i].1)
  }

  function ToRequirement(entry: (string, Json)): (r: AttributeRequirement)
    requires IsStringOrNull(entry.1)
  {
    AttributeRequirement(entry.0, if entry.1.JStr? then Some(entry.1.s) else None)
  }

  /** The list comprehension over `items()`: one requirement per entry, in
      order, pairing each key with its value. */
  function Requirements(entries: seq<(string, Json)>): (r: seq<AttributeRequirement>)
    requires forall i :: 0 <= i < |entries| ==> IsStringOrNull(entries[i].1)
    ensures |r| == |entries|
    ensures forall i :: 0 <= i < |r| ==>
              && r[i].attribute == entries[i].0
              && (entries[i].1.JStr? ==> r[i].value == Some(entries[i].1.s))
              && (entries[i].1.JNull? ==> r[i].value == None)
  {
    if entries == [] then [] else [ToRequirement(entries[0])] + Requirements(entries[1..])
  }

  /** The `config_path` given to the schema validation. */
  const RequiredAttributesPath: seq<string> := ["httpsso_config", "required_attributes"]

  /** The key of the first entry whose value is neither a string nor null. */
  function FirstBadKey(entries: seq<(string, Json)>): (r: Option<string>)
    ensures r.None? <==> forall i :: 0 <= i < |entries| ==> IsStringOrNull(entries[i].1)
    ensures r.Some? ==> exists i :: 0 <= i < |entries| && entries[i].0 == r.value && !IsStringOrNull(entries[i].1)
  {
    if entries == [] then None
    else if !IsStringOrNull(entries[0].1) then Some(entries[0].0)
    else match FirstBadKey(entries[1..])
      case None => None
      case Some(k) =>
        assert exists i :: 1 <= i < |entries| && entries[i].0 == k && !IsStringOrNull(entries[i].1) by {
          var i :| 0 <= i < |entries[1..]| && entries[1..][i].0 == k && !IsStringOrNull(entries[1..][i].1);
          assert entries[i + 1] == entries[1..][i];
        }
        Some(k)
  }

  /** `_parsed_required_attributes_def`: unless the schema matches, a
      ConfigError whose path is `httpsso_config.required_attributes`, extended
      with the offending key when the value is an object. */
  function ParseRequiredAttributes(v: Json): (r: Result<seq<AttributeRequirement>>)
    ensures r.Ok? <==> MatchesRequiredAttributesSchema(v)
    ensures r.Err? ==> r.error.ConfigError? && |r.error.path| >= 2
                       && r.error.path[..2] == ["httpsso_config", "required_attributes"]
    ensures r.Err? && !v.JObject? ==> r.error.path == ["httpsso_config", "required_attributes"]
    ensures r.Err? && v.JObject? ==>
              exists i :: 0 <= i < |v.entries| && !IsStringOrNull(v.entries[i].1)
                          && r.error.path == ["httpsso_config", "required_attributes", v.entries[i].0]
    ensures r.Ok? ==> |r.value| == |v.entries|
                      && forall i :: 0 <= i < |r.value| ==> r.value[i] == ToRequirement(v.entries[i])
  {
    if !v.JObject? then
      Err(ConfigError(RequiredAttributesPath, "the value must be an object"))
    else match FirstBadKey(v.entries)
      case None => Ok(Requirements(v.entries))
      case Some(k) => Err(ConfigError(RequiredAttributesPath + [k], "every value must be a string or null"))
  }
}
