/** ConfigHelper: typed reads of `appSettings` and connection strings with defaults,
    the JWT settings derived from them, and the startup configuration check. The
    configuration file is an explicit `Settings` value instead of ambient state. */
module Config {
  import opened Wrappers
  import opened Text

  /** One `<add>` element of `appSettings` or `connectionStrings`. */
  datatype Setting = Setting(key: String, value: String)

  /** The two sections of the configuration file, their elements in file order. */
  datatype Settings = Settings(appSettings: seq<Setting>, connectionStrings: seq<Setting>)

  // ---------------------------------------------------------------------------
  // Lookup by key
  // ---------------------------------------------------------------------------

  /** Both collections find a key ignoring its case (`OrdinalIgnoreCase`). */
  predicate KeyMatches(e: Setting, key: String)
  {
    EqualsIgnoreCase(e.key, key)
  }

  predicate Absent(entries: seq<Setting>, key: String)
  {
    forall i :: 0 <= i < |entries| ==> !KeyMatches(entries[i], key)
  }

  /** Element `i` has the key and no later one does: a later `<add>` of a key replaces
      an earlier one. */
  predicate LastMatch(entries: seq<Setting>, key: String, i: int)
  {
    0 <= i < |entries| && KeyMatches(entries[i], key)
    && forall j :: i < j < |entries| ==> !KeyMatches(entries[j], key)
  }

  /** The collection's indexer: the value of the last element whose key matches,
      `null` when none does. */
  function Lookup(entries: seq<Setting>, key: String): (r: Option<String>)
    ensures r.None? <==> Absent(entries, key)
    ensures forall i :: LastMatch(entries, key, i) ==> r == Some(entries[i].value)
  {
    if entries == [] then None
    else if KeyMatches(entries[|entries| - 1], key) then Some(entries[|entries| - 1].value)
    else Lookup(entries[..|entries| - 1], key)
  }

  /** Whenever some element has the key, one of them is the last: a lookup that finds
      something finds the value of an element of the file. */
  lemma {:induction false} LastMatchExists(entries: seq<Setting>, key: String)
    requires !Absent(entries, key)
    ensures exists i :: LastMatch(entries, key, i)
  {
    var n := |entries| - 1;
    if KeyMatches(entries[n], key) {
      assert LastMatch(entries, key, n);
    } else {
      var prefix := entries[..n];
      assert !Absent(prefix, key) by {
        var k :| 0 <= k < |entries| && KeyMatches(entries[k], key);
        assert prefix[k] == entries[k];
      }
      LastMatchExists(prefix, key);
      var i :| LastMatch(prefix, key, i);
      assert LastMatch(entries, key, i);
    }
  }

  /** Keys that differ only in the case of letters find the same value. */
  lemma {:induction false} LookupIgnoresCase(entries: seq<Setting>, a: String, b: String)
    requires EqualsIgnoreCase(a, b)
    ensures Lookup(entries, a) == Lookup(entries, b)
  {
    if entries != [] {
      LookupIgnoresCase(entries[..|entries| - 1], a, b);
    }
  }

  /** `GetAppSetting(key)`: `ConfigurationManager.AppSettings[key]`. */
  function GetAppSetting(s: Settings, key: String): (r: Option<String>)
    ensures r.None? <==> Absent(s.appSettings, key)
    ensures forall i :: LastMatch(s.appSettings, key, i) ==> r == Some(s.appSettings[i].value)
  {
    Lookup(s.appSettings, key)
  }

  /** `GetAppSetting(key, defaultValue)`: the default replaces a missing or empty value. */
  function GetAppSettingOr(s: Settings, key: String, default: String): (r: String)
    ensures IsNullOrEmpty(GetAppSetting(s, key)) ==> r == default
    ensures !IsNullOrEmpty(GetAppSetting(s, key)) ==> r == GetAppSetting(s, key).value
    ensures default != [] ==> r != []
  {
    var value := GetAppSetting(s, key);
    if IsNullOrEmpty(value) then default else value.value
  }

  /** `GetAppSettingInt(key, defaultValue)`: the parsed value, or the default when parsing fails. */
  function GetAppSettingInt(s: Settings, key: String, default: int): (r: int)
    ensures ParseInt32(GetAppSetting(s, key)).Some? ==> r == ParseInt32(GetAppSetting(s, key)).value
    ensures ParseInt32(GetAppSetting(s, key)).None? ==> r == default
    ensures IsInt32(default) ==> IsInt32(r)
  {
    match ParseInt32(GetAppSetting(s, key))
    case Some(v) => v
    case None => default
  }

  /** `GetAppSettingBool(key, defaultValue)`. */
  function GetAppSettingBool(s: Settings, key: String, default: bool): (r: bool)
    ensures ParseBool(GetAppSetting(s, key)).Some? ==> r == ParseBool(GetAppSetting(s, key)).value
    ensures ParseBool(GetAppSetting(s, key)).None? ==> r == default
  {
    match ParseBool(GetAppSetting(s, key))
    case Some(v) => v
    case None => default
  }

  /** A number written with `ToString()` reads back; a missing key gives the default. */
  lemma AppSettingIntReadsBack(s: Settings, key: String, n: int, default: int)
    requires IsInt32(n)
    ensures forall i :: LastMatch(s.appSettings, key, i) && s.appSettings[i].value == IntToString(n)
                        ==> GetAppSettingInt(s, key, default) == n
    ensures Absent(s.appSettings, key) ==> GetAppSettingInt(s, key, default) == default
  {
    ParseInt32OfIntToString(n);
  }

  /** A boolean written as "true"/"false" in any case reads back; a missing key gives the default. */
  lemma AppSettingBoolReadsBack(s: Settings, key: String, b: bool, default: bool)
    ensures forall i :: LastMatch(s.appSettings, key, i) && EqualsIgnoreCase(s.appSettings[i].value, BoolToString(b))
                        ==> GetAppSettingBool(s, key, default) == b
    ensures Absent(s.appSettings, key) ==> GetAppSettingBool(s, key, default) == default
  {
    forall i | LastMatch(s.appSettings, key, i) && EqualsIgnoreCase(s.appSettings[i].value, BoolToString(b))
      ensures GetAppSettingBool(s, key, default) == b
    {
      ParseBoolOfBoolToString(b, s.appSettings[i].value);
    }
  }

  /** `GetConnectionString(name)`: `ConnectionStrings[name]?.ConnectionString`. */
  function GetConnectionString(s: Settings, name: String): (r: Option<String>)
    ensures r.None? <==> Absent(s.connectionStrings, name)
    ensures forall i :: LastMatch(s.connectionStrings, name, i) ==> r == Some(s.connectionStrings[i].value)
  {
    Lookup(s.connectionStrings, name)
  }

  /** Neither collection cares how a key's letters are cased. */
  lemma KeyCaseIgnored(s: Settings, a: String, b: String)
    requires EqualsIgnoreCase(a, b)
    ensures GetAppSetting(s, a) == GetAppSetting(s, b)
    ensures GetConnectionString(s, a) == GetConnectionString(s, b)
  {
    LookupIgnoresCase(s.appSettings, a, b);
    LookupIgnoresCase(s.connectionStrings, a, b);
  }

  // ---------------------------------------------------------------------------
  // JWT settings
  // ---------------------------------------------------------------------------

  const DefaultIssuer: String := "services"
  const DefaultAudience: String := "state"
  const DefaultExpirationHours: int := 24

  /** `JwtSecretKey` has no default. */
  function JwtSecretKey(s: Settings): Option<String>
  {
    GetAppSetting(s, "JwtSecretKey")
  }

  function JwtIssuer(s: Settings): String
  {
    GetAppSettingOr(s, "JwtIssuer", DefaultIssuer)
  }

  function JwtAudience(s: Settings): String
  {
    GetAppSettingOr(s, "JwtAudience", DefaultAudience)
  }

  function JwtExpirationHours(s: Settings): int
  {
    GetAppSettingInt(s, "JwtExpirationHours", DefaultExpirationHours)
  }

  /** A file that writes the key as `jwtSecretKey` supplies the secret. */
  lemma SecretKeyCaseIgnored(secret: String)
    ensures JwtSecretKey(Settings([Setting("jwtSecretKey", secret)], [])) == Some(secret)
  {
    assert ToUpperAscii("jwtSecretKey") == "JWTSECRETKEY";
    assert ToUpperAscii("JwtSecretKey") == "JWTSECRETKEY";
    assert LastMatch([Setting("jwtSecretKey", secret)], "JwtSecretKey", 0);
  }

  function EncuestasConnectionString(s: Settings): Option<String>
  {
    GetConnectionString(s, "EncuestasContext")
  }

  /** Issuer and audience fall back to "services" and "state", so they are never empty;
      the lifetime falls back to 24 hours; the secret stays missing when it is missing. */
  lemma JwtDefaults(s: Settings)
    ensures JwtIssuer(s) != [] && JwtAudience(s) != []
    ensures Absent(s.appSettings, "JwtIssuer") ==> JwtIssuer(s) == DefaultIssuer
    ensures Absent(s.appSettings, "JwtAudience") ==> JwtAudience(s) == DefaultAudience
    ensures Absent(s.appSettings, "JwtExpirationHours") ==> JwtExpirationHours(s) == DefaultExpirationHours
    ensures Absent(s.appSettings, "JwtSecretKey") ==> JwtSecretKey(s).None?
    ensures IsInt32(JwtExpirationHours(s))
  {
  }

  // ---------------------------------------------------------------------------
  // ValidateConfiguration
  // ---------------------------------------------------------------------------

  const ErrSecretMissing: String := "JwtSecretKey no está configurado"
  const ErrSecretTooShort: String := "JwtSecretKey debe tener al menos 32 caracteres"
  const ErrConnectionMissing: String := "Connection string 'EncuestasContext' no está configurado"
  const ConfigurationErrorHeader: String := "Errores de configuración:\n"

  /** The errors the secret check collects. A `null` secret only counts as missing:
      the lifted comparison `null < 32` is false, so no length error follows. The
      length is `Length`, in UTF-16 code units. */
  function SecretErrors(secret: Option<String>): (errs: seq<String>)
    ensures secret.None? ==> errs == [ErrSecretMissing]
    ensures secret == Some([]) ==> errs == [ErrSecretMissing, ErrSecretTooShort]
    ensures secret.Some? && 1 <= Utf16Length(secret.value) < 32 ==> errs == [ErrSecretTooShort]
    ensures secret.Some? && Utf16Length(secret.value) >= 32 ==> errs == []
  {
    (if IsNullOrEmpty(secret) then [ErrSecretMissing] else [])
    + (if secret.Some? && Utf16Length(secret.value) < 32 then [ErrSecretTooShort] else [])
  }

  /** Sixteen astral characters are 32 code units: a secret of them passes the check,
      though it holds only half the characters the message asks for. */
  lemma AstralSecretPasses()
    ensures var secret := seq(16, _ => '\U{1F511}');
            |secret| == 16 && SecretErrors(Some(secret)) == []
  {
    var secret := seq(16, _ => '\U{1F511}');
    AllAstralLength(secret);
  }

  /** The errors `ValidateConfiguration` collects, in check order. */
  function ConfigurationErrors(s: Settings): (errs: seq<String>)
    ensures IsNullOrEmpty(EncuestasConnectionString(s)) <==> ErrConnectionMissing in errs
    ensures errs == [] <==> JwtSecretKey(s).Some? && Utf16Length(JwtSecretKey(s).value) >= 32
                            && !IsNullOrEmpty(EncuestasConnectionString(s))
  {
    SecretErrors(JwtSecretKey(s))
    + (if IsNullOrEmpty(EncuestasConnectionString(s)) then [ErrConnectionMissing] else [])
  }

  /** `ValidateConfiguration`: throws exactly when some error was collected, with a
      message that lists every collected error, one per line, in check order. */
  function ValidateConfiguration(s: Settings): (r: Outcome<String>)
    ensures r.Fail? <==> ConfigurationErrors(s) != []
    ensures r.Fail? ==> r.error == ConfigurationErrorHeader + Join(ConfigurationErrors(s), "\n")
  {
    var errors := ConfigurationErrors(s);
    if errors != [] then Fail(ConfigurationErrorHeader + Join(errors, "\n")) else Pass
  }
}
