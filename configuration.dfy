/** The bot's configuration (app/config.py): settings read from the process
    environment when the `Config` class is defined, the database URL decision,
    and the check for required settings. The environment is an explicit map. */
module Configuration {
  import opened Types
  import Text

  /** The process environment, `os.environ`. */
  type Env = map<string, string>

  /** `os.getenv(key)`. */
  function Getenv(env: Env, key: string): Option<string>
  {
    if key in env then Some(env[key]) else None
  }

  /** `os.getenv(key, default)`. */
  function GetenvOr(env: Env, key: string, default: string): string
  {
    Getenv(env, key).GetOr(default)
  }

  const DefaultDbHost := "localhost"
  const DefaultDbPort := "5432"
  const DefaultDbName := "omega_classroom"
  const DefaultDbUser := "postgres"
  const DefaultDbPassword := "postgres"
  const DefaultNotificationCheckInterval := 3600
  const DefaultDeadlineWarningHours := 24
  const SqliteUrl := "sqlite:///omega_classroom.db"

  /** The class attributes of `Config`. */
  datatype Config = Config(
    telegramBotToken: string,
    teacherAccessPassword: string,
    githubToken: string,
    dbHost: string,
    dbPort: string,
    dbName: string,
    dbUser: string,
    dbPassword: string,
    notificationCheckInterval: int,
    deadlineWarningHours: int)

  /** `int(os.getenv(key, default))`; `None` where `int` raises. */
  function IntSetting(env: Env, key: string, default: int): (r: Option<int>)
    ensures key !in env ==> r == Some(default)
    ensures key in env ==> r == Text.ParseInt(env[key])
  {
    if key in env then Text.ParseInt(env[key]) else Some(default)
  }

  /** The attribute values computed when the class body runs; an `Err` names
      the integer setting whose text `int` rejects (a `ValueError` at import). */
  function Load(env: Env): (r: Result<Config, string>)
    ensures r.Ok? <==>
      IntSetting(env, "NOTIFICATION_CHECK_INTERVAL", DefaultNotificationCheckInterval).Some? &&
      IntSetting(env, "DEADLINE_WARNING_HOURS", DefaultDeadlineWarningHours).Some?
    ensures r.Ok? ==>
      && r.value.telegramBotToken == GetenvOr(env, "TELEGRAM_BOT_TOKEN", "")
      && r.value.teacherAccessPassword == GetenvOr(env, "TEACHER_ACCESS_PASSWORD", "")
      && r.value.githubToken == GetenvOr(env, "GITHUB_TOKEN", "")
      && r.value.dbHost == GetenvOr(env, "DB_HOST", DefaultDbHost)
      && r.value.dbPort == GetenvOr(env, "DB_PORT", DefaultDbPort)
      && r.value.dbName == GetenvOr(env, "DB_NAME", DefaultDbName)
      && r.value.dbUser == GetenvOr(env, "DB_USER", DefaultDbUser)
      && r.value.dbPassword == GetenvOr(env, "DB_PASSWORD", DefaultDbPassword)
      && r.value.notificationCheckInterval ==
           IntSetting(env, "NOTIFICATION_CHECK_INTERVAL", DefaultNotificationCheckInterval).value
      && r.value.deadlineWarningHours ==
           IntSetting(env, "DEADLINE_WARNING_HOURS", DefaultDeadlineWarningHours).value
    // The interval is computed first, so its failure is the one reported.
    ensures r.Err? ==>
      r.error == (if IntSetting(env, "NOTIFICATION_CHECK_INTERVAL", DefaultNotificationCheckInterval).None?
                  then "NOTIFICATION_CHECK_INTERVAL" else "DEADLINE_WARNING_HOURS")
  {
    var interval := IntSetting(env, "NOTIFICATION_CHECK_INTERVAL", DefaultNotificationCheckInterval);
    var hours := IntSetting(env, "DEADLINE_WARNING_HOURS", DefaultDeadlineWarningHours);
    if interval.None? then Err("NOTIFICATION_CHECK_INTERVAL")
    else if hours.None? then Err("DEADLINE_WARNING_HOURS")
    else Ok(Config(
      GetenvOr(env, "TELEGRAM_BOT_TOKEN", ""),
      GetenvOr(env, "TEACHER_ACCESS_PASSWORD", ""),
      GetenvOr(env, "GITHUB_TOKEN", ""),
      GetenvOr(env, "DB_HOST", DefaultDbHost),
      GetenvOr(env, "DB_PORT", DefaultDbPort),
      GetenvOr(env, "DB_NAME", DefaultDbName),
      GetenvOr(env, "DB_USER", DefaultDbUser),
      GetenvOr(env, "DB_PASSWORD", DefaultDbPassword),
      interval.value,
      hours.value))
  }

  /** The settings the bot gets when the environment defines none of them. */
  lemma LoadDefaults()
    ensures Load(map[]) == Ok(Config("", "", "", "localhost", "5432", "omega_classroom",
                                     "postgres", "postgres", 3600, 24))
  {
  }

  /** An integer setting given in the environment is the number its text denotes. */
  lemma LoadIntegerSettings(env: Env, interval: int, hours: int)
    requires env.Keys * {"NOTIFICATION_CHECK_INTERVAL", "DEADLINE_WARNING_HOURS"} == {}
    ensures var env' := env["NOTIFICATION_CHECK_INTERVAL" := Text.IntToString(interval)]
                           ["DEADLINE_WARNING_HOURS" := Text.IntToString(hours)];
            Load(env').Ok? &&
            Load(env').value.notificationCheckInterval == interval &&
            Load(env').value.deadlineWarningHours == hours
  {
    Text.ParseIntOfIntToString(interval);
    Text.ParseIntOfIntToString(hours);
  }

  /** `int` strips the whitespace around a setting and accepts `_` between
      digits, so a padded or grouped number is still a valid setting. */
  lemma LoadPaddedAndGrouped()
    ensures var env := map["NOTIFICATION_CHECK_INTERVAL" := " 3600\n", "DEADLINE_WARNING_HOURS" := "4_8"];
            Load(env).Ok? &&
            Load(env).value.notificationCheckInterval == 3600 &&
            Load(env).value.deadlineWarningHours == 48
  {
    PaddedSetting();
    GroupedSetting();
  }

  /** Python's `int(" 3600\n")` is 3600. */
  lemma PaddedSetting()
    ensures Text.ParseInt(" 3600\n") == Some(3600)
  {
    assert Text.NatToString(36) == "36";
    assert Text.NatToString(3600) == "3600";
    Text.ParseIntIgnoresWhitespace(" ", 3600, "\n");
    assert " " + "3600" + "\n" == " 3600\n";
  }

  /** Python's `int("4_8")` is 48. */
  lemma GroupedSetting()
    ensures Text.ParseInt("4_8") == Some(48)
  {
    Text.ParseIntSeparator("4", "8");
    assert "4" + "_" + "8" == "4_8";
    assert Text.DigitsValue("48") == 48;
  }

  /** A setting `int` rejects makes the class definition fail, naming it. */
  lemma LoadRejectsBadSetting(env: Env)
    requires "NOTIFICATION_CHECK_INTERVAL" in env && env["NOTIFICATION_CHECK_INTERVAL"] == "1h"
    ensures Load(env) == Err("NOTIFICATION_CHECK_INTERVAL")
  {
    assert Text.ParseInt("1h") == None;
  }

  /** The PostgreSQL branch condition: `USE_POSTGRESQL` is "true" in any case,
      or `DB_HOST` is set to a non-empty value. */
  predicate WantsPostgres(env: Env)
  {
    Text.ToLower(GetenvOr(env, "USE_POSTGRESQL", "false")) == "true" ||
    (Getenv(env, "DB_HOST").Some? && Getenv(env, "DB_HOST").value != "")
  }

  /** `Config.get_database_url()`: the environment is read again at call time,
      the connection parts come from the class attributes. */
  function GetDatabaseUrl(cfg: Config, env: Env): (url: string)
    ensures Getenv(env, "DATABASE_URL").Some? && Getenv(env, "DATABASE_URL").value != "" ==>
              url == env["DATABASE_URL"]
    ensures (Getenv(env, "DATABASE_URL").None? || Getenv(env, "DATABASE_URL").value == "") ==>
              url == (if WantsPostgres(env) then
                        "postgresql://" + cfg.dbUser + ":" + cfg.dbPassword + "@" + cfg.dbHost
                          + ":" + cfg.dbPort + "/" + cfg.dbName
                      else SqliteUrl)
  {
    var databaseUrl := Getenv(env, "DATABASE_URL");
    if databaseUrl.Some? && databaseUrl.value != "" then databaseUrl.value
    else if WantsPostgres(env) then
      "postgresql://" + cfg.dbUser + ":" + cfg.dbPassword + "@" + cfg.dbHost + ":" + cfg.dbPort + "/" + cfg.dbName
    else SqliteUrl
  }

  /** The PostgreSQL URL built from the default credentials, port and name. */
  lemma PostgresUrlOfDefaults(host: string)
    ensures "postgresql://" + DefaultDbUser + ":" + DefaultDbPassword + "@" + host + ":" + DefaultDbPort
              + "/" + DefaultDbName
         == "postgresql://postgres:postgres@" + host + ":5432/omega_classroom"
  {
    var p := "postgresql://" + DefaultDbUser + ":" + DefaultDbPassword + "@";
    assert p == "postgresql://postgres:postgres@";
    var q := ":" + DefaultDbPort + "/" + DefaultDbName;
    assert q == ":5432/omega_classroom";
    assert p + host + ":" + DefaultDbPort + "/" + DefaultDbName == p + host + q;
  }

  /** With no database settings at all, the bot uses the local SQLite file. */
  lemma DatabaseUrlDefaultIsSqlite()
    ensures Load(map[]).Ok? && GetDatabaseUrl(Load(map[]).value, map[]) == "sqlite:///omega_classroom.db"
  {
    assert Text.ToLower("false") == "false";
  }

  /** Setting only `DB_HOST` selects PostgreSQL with the default credentials,
      port and name. */
  lemma DatabaseUrlFromHost(host: string)
    requires host != ""
    ensures var env := map["DB_HOST" := host];
            Load(env).Ok? &&
            GetDatabaseUrl(Load(env).value, env) == "postgresql://postgres:postgres@" + host + ":5432/omega_classroom"
  {
    var env := map["DB_HOST" := host];
    assert "DATABASE_URL" !in env && "USE_POSTGRESQL" !in env;
    assert "NOTIFICATION_CHECK_INTERVAL" !in env && "DEADLINE_WARNING_HOURS" !in env;
    assert WantsPostgres(env);
    var cfg := Load(env).value;
    assert cfg.dbHost == host && cfg.dbUser == "postgres" && cfg.dbPassword == "postgres";
    PostgresUrlOfDefaults(host);
  }

  /** `USE_POSTGRESQL` is compared case-insensitively; the host then defaults
      to localhost. */
  lemma DatabaseUrlUsePostgres()
    ensures var env := map["USE_POSTGRESQL" := "TRUE"];
            Load(env).Ok? &&
            GetDatabaseUrl(Load(env).value, env) == "postgresql://postgres:postgres@" + "localhost" + ":5432/omega_classroom"
  {
    var env := map["USE_POSTGRESQL" := "TRUE"];
    assert "DATABASE_URL" !in env && "DB_HOST" !in env;
    assert "NOTIFICATION_CHECK_INTERVAL" !in env && "DEADLINE_WARNING_HOURS" !in env;
    var lowered := Text.ToLower("TRUE");
    assert lowered[0] == 't' && lowered[1] == 'r' && lowered[2] == 'u' && lowered[3] == 'e';
    assert lowered == "true";
    assert WantsPostgres(env);
    PostgresUrlOfDefaults("localhost");
  }

  /** The names of the required settings that are empty, in declaration order. */
  function MissingNames(cfg: Config): (names: seq<string>)
    ensures "TELEGRAM_BOT_TOKEN" in names <==> cfg.telegramBotToken == ""
    ensures "TEACHER_ACCESS_PASSWORD" in names <==> cfg.teacherAccessPassword == ""
    ensures forall i :: 0 <= i < |names| ==> names[i] in {"TELEGRAM_BOT_TOKEN", "TEACHER_ACCESS_PASSWORD"}
    ensures |names| == 2 ==> names == ["TELEGRAM_BOT_TOKEN", "TEACHER_ACCESS_PASSWORD"]
  {
    (if cfg.telegramBotToken == "" then ["TELEGRAM_BOT_TOKEN"] else []) +
    (if cfg.teacherAccessPassword == "" then ["TEACHER_ACCESS_PASSWORD"] else [])
  }

  /** `Config.validate()`: `True`, or the `ValueError` message listing the missing names. */
  function Validate(cfg: Config): (r: Result<bool, string>)
    ensures r.Ok? <==> cfg.telegramBotToken != "" && cfg.teacherAccessPassword != ""
    ensures r.Ok? ==> r.value
    ensures r.Err? ==> r.error == "Missing required configuration: " + Text.Join(MissingNames(cfg), ", ")
  {
    var missing := MissingNames(cfg);
    if |missing| > 0 then Err("Missing required configuration: " + Text.Join(missing, ", "))
    else Ok(true)
  }

  /** With both required settings missing the message names both, in order. */
  lemma ValidateBothMissing(cfg: Config)
    requires cfg.telegramBotToken == "" && cfg.teacherAccessPassword == ""
    ensures Validate(cfg) == Err("Missing required configuration: " + "TELEGRAM_BOT_TOKEN, TEACHER_ACCESS_PASSWORD")
  {
    assert MissingNames(cfg) == ["TELEGRAM_BOT_TOKEN", "TEACHER_ACCESS_PASSWORD"];
    BothNamesJoined();
  }

  /** The two required names joined as the message lists them. */
  lemma BothNamesJoined()
    ensures Text.Join(["TELEGRAM_BOT_TOKEN", "TEACHER_ACCESS_PASSWORD"], ", ") == "TELEGRAM_BOT_TOKEN, TEACHER_ACCESS_PASSWORD"
  {
    var names := ["TELEGRAM_BOT_TOKEN", "TEACHER_ACCESS_PASSWORD"];
    assert names[1..] == ["TEACHER_ACCESS_PASSWORD"];
    assert Text.Join(names, ", ") == "TELEGRAM_BOT_TOKEN" + ", " + "TEACHER_ACCESS_PASSWORD";
  }
}
