/**
 * backend/app/core/settings.py: the application settings read from the environment, here a map
 * from variable name to value, and the comma-separated list parser they use.
 */
module Settings {
  import opened Wrappers
  import opened Strings

  /**
   * `_parse_csv`: no list for a missing or empty value; otherwise one entry per comma-separated
   * field, one more than there are commas, each stripped of surrounding whitespace, empty
   * fields kept.
   */
  function ParseCsv(val: Option<string>): (r: seq<string>)
    ensures val.None? || val == Some("") ==> r == []
    ensures val.Some? && val.value != "" ==> |r| == Count(val.value, ',') + 1
    ensures forall i :: 0 <= i < |r| ==> IsStripped(r[i]) && ',' !in r[i]
  {
    if val.None? || val.value == "" then []
    else
      var fields := Split(val.value, ',');
      var r := seq(|fields|, i requires 0 <= i < |fields| => Strip(fields[i]));
      assert forall i :: 0 <= i < |r| ==> ',' !in r[i] by {
        forall i | 0 <= i < |r| ensures ',' !in r[i] {
          if ',' in r[i] {
            StripKeeps(fields[i], ',');
          }
        }
      }
      r
  }

  /** Every entry is the stripped text between two commas (or an end) of the value. */
  lemma ParseCsvFields(s: string)
    requires s != ""
    ensures forall i :: 0 <= i < |ParseCsv(Some(s))| ==> ParseCsv(Some(s))[i] == Strip(Split(s, ',')[i])
  {
  }

  /** Joining stripped, comma-free fields with commas and parsing the result gives the fields back. */
  lemma ParseCsvJoin(fields: seq<string>)
    requires |fields| >= 1
    requires forall i :: 0 <= i < |fields| ==> IsStripped(fields[i]) && ',' !in fields[i]
    requires Join(fields, ",") != ""
    ensures ParseCsv(Some(Join(fields, ","))) == fields
  {
    SplitJoin(fields, ',');
    forall i | 0 <= i < |fields| ensures Strip(fields[i]) == fields[i] {
      StripStripped(fields[i]);
    }
  }

  /** Empty fields are kept: `"a,,b"` gives `["a", "", "b"]`. */
  lemma ParseCsvKeepsEmptyFields()
    ensures ParseCsv(Some("a,,b")) == ["a", "", "b"]
  {
    var fields := ["a", "", "b"];
    assert Join(fields[2..], ",") == "b";
    assert Join(fields[1..], ",") == ",b";
    assert Join(fields, ",") == "a,,b";
    assert IsStripped("a") && IsStripped("") && IsStripped("b");
    ParseCsvJoin(fields);
  }

  /** A blank value is not an empty one: it gives one empty entry, not the empty list. */
  lemma ParseCsvBlank()
    ensures ParseCsv(Some(" ")) == [""]
  {
    assert " "[1..] == [];
    SplitJoin([" "], ',');
    assert Join([" "], ",") == " ";
    assert LeadingSpaces(" ") == 1;
  }

  const DefaultEnv: string := "dev"
  const DefaultCorsOrigins: seq<string> := ["http://localhost:5173"]
  const DefaultDatabaseUrl: string := "sqlite+aiosqlite:///./var/dev.db"
  const DefaultExpirySeconds: string := "300"

  datatype Settings = Settings(env: string, corsOrigins: seq<string>, databaseUrl: string, pairingCodeExpirySeconds: int)

  /** `int()` of the expiry raises `ValueError` on text that is not an integer. */
  datatype SettingsError = InvalidInt(name: string, text: string)

  /** `os.getenv(name)`. */
  function GetEnv(env: map<string, string>, name: string): Option<string> {
    if name in env then Some(env[name]) else None
  }

  /** `os.getenv(name, default)`. */
  function GetEnvOr(env: map<string, string>, name: string, default: string): string {
    GetEnv(env, name).GetOr(default)
  }

  /** `Settings.__init__` as a function of the environment. */
  function LoadSettings(env: map<string, string>): (r: Result<Settings, SettingsError>)
    ensures r.Success? <==> ParseInt(GetEnvOr(env, "PAIRING_CODE_EXPIRY_SECONDS", DefaultExpirySeconds)).Some?
    ensures r.Failure? ==>
      r.error == InvalidInt("PAIRING_CODE_EXPIRY_SECONDS", GetEnvOr(env, "PAIRING_CODE_EXPIRY_SECONDS", DefaultExpirySeconds))
    ensures r.Success? ==> r.value.corsOrigins != []
    ensures r.Success? ==> |r.value.env| == |GetEnvOr(env, "ENV", DefaultEnv)|
  {
    var expiry := GetEnvOr(env, "PAIRING_CODE_EXPIRY_SECONDS", DefaultExpirySeconds);
    match ParseInt(expiry)
    case None => Failure(InvalidInt("PAIRING_CODE_EXPIRY_SECONDS", expiry))
    case Some(seconds) =>
      var origins := ParseCsv(GetEnv(env, "CORS_ORIGINS"));
      Success(Settings(
        Lower(GetEnvOr(env, "ENV", DefaultEnv)),
        if origins != [] then origins else DefaultCorsOrigins,
        GetEnvOr(env, "DATABASE_URL", DefaultDatabaseUrl),
        seconds))
  }

  /** With nothing set: `dev`, the local front-end origin, the SQLite file and 300 seconds. */
  lemma DefaultSettings()
    ensures LoadSettings(map[]) == Success(Settings("dev", ["http://localhost:5173"], "sqlite+aiosqlite:///./var/dev.db", 300))
  {
    DefaultExpiryParses();
    assert Lower("dev") == "dev";
  }

  lemma DefaultExpiryParses()
    ensures ParseInt(DefaultExpirySeconds) == Some(300)
  {
    DefaultExpiryText();
    ParseIntOfString(300);
  }

  /** `str(300) == "300"`. */
  lemma DefaultExpiryText()
    ensures IntToString(300) == DefaultExpirySeconds
  {
    assert DigitChar(0) == '0' && DigitChar(3) == '3';
    assert NatToString(3) == "3";
    assert NatToString(30) == "3" + "0";
    assert NatToString(300) == "30" + "0";
  }

  /**
   * Each setting follows its variable: `ENV` lower-cased, `CORS_ORIGINS` parsed (the default
   * origin when that gives no entry), `DATABASE_URL` as given, and the expiry whatever `int()`
   * reads from its variable, or from `"300"` when it is unset.
   */
  lemma SettingsFollowEnvironment(env: map<string, string>, seconds: int)
    requires ParseInt(GetEnvOr(env, "PAIRING_CODE_EXPIRY_SECONDS", DefaultExpirySeconds)) == Some(seconds)
    ensures LoadSettings(env).Success?
    ensures var s := LoadSettings(env).value;
      && s.pairingCodeExpirySeconds == seconds
      && s.env == Lower(GetEnvOr(env, "ENV", DefaultEnv))
      && (forall i :: 0 <= i < |s.env| ==> !IsUpperAscii(s.env[i]))
      && s.databaseUrl == GetEnvOr(env, "DATABASE_URL", DefaultDatabaseUrl)
      && (ParseCsv(GetEnv(env, "CORS_ORIGINS")) == [] ==> s.corsOrigins == DefaultCorsOrigins)
      && (ParseCsv(GetEnv(env, "CORS_ORIGINS")) != [] ==> s.corsOrigins == ParseCsv(GetEnv(env, "CORS_ORIGINS")))
  {
  }

  /** An unset expiry variable gives 300 seconds, whatever else the environment holds. */
  lemma UnsetExpiryIsDefault(env: map<string, string>)
    requires "PAIRING_CODE_EXPIRY_SECONDS" !in env
    ensures LoadSettings(env).Success?
    ensures LoadSettings(env).value.pairingCodeExpirySeconds == 300
  {
    DefaultExpiryParses();
    SettingsFollowEnvironment(env, 300);
  }

  /** An expiry written as Python prints an integer is read back as that integer. */
  lemma PrintedExpiryReadBack(env: map<string, string>, seconds: int)
    requires GetEnv(env, "PAIRING_CODE_EXPIRY_SECONDS") == Some(IntToString(seconds))
    ensures LoadSettings(env).Success?
    ensures LoadSettings(env).value.pairingCodeExpirySeconds == seconds
  {
    ParseIntOfString(seconds);
    SettingsFollowEnvironment(env, seconds);
  }
}
