/**
  Loading the application settings: each setting comes from its environment
  variable when that is set and non-empty, otherwise from the configuration
  file, otherwise from a built-in default.
*/
module Config {
  import opened Wrappers
  import opened PyStr

  /** The four environment variables, as read (`None` when unset). */
  datatype EnvSettings = EnvSettings(
    authToken: Option<string>,
    downloadRoot: Option<string>,
    logLevel: Option<string>,
    configFile: Option<string>)

  /** A parsed configuration document: a JSON object whose fields are
      strings (`None`: null), or any other JSON value. */
  datatype JsonDoc = JObject(fields: map<string, Option<string>>) | JOther

  /** A file that exists: it could not be read or parsed, or it parsed. */
  datatype FileContent = Unreadable | Parsed(doc: JsonDoc)

  /** The settings the application runs with. Paths are kept as their text. */
  datatype AppSettings = AppSettings(
    authToken: Option<string>,
    downloadRoot: string,
    logLevel: string,
    configFile: string)

  /** Settings loading fails when the document is not an object. */
  datatype ConfigError = NotAnObject(path: string)

  const DefaultConfigPath := "config.json"
  const DefaultDownloadRoot := "downloads"
  const DefaultLogLevel := "INFO"

  /** `a or b` when `b` is a string. */
  function OrElse(a: Option<string>, b: string): string {
    if Truthy(a) then a.value else b
  }

  /** The configuration file named by the environment, or the default. */
  function ConfigPath(env: EnvSettings): string {
    OrElse(env.configFile, DefaultConfigPath)
  }

  /**
    The configuration file's document: a missing file and a file that cannot
    be read or parsed both count as an empty object. `files` maps each
    existing path to its content.
  */
  function LoadConfigFile(files: map<string, FileContent>, path: string): JsonDoc {
    if path !in files then JObject(map[])
    else match files[path]
      case Unreadable => JObject(map[])
      case Parsed(doc) => doc
  }

  /** `data.get(key)` on an object. */
  function Get(fields: map<string, Option<string>>, key: string): Option<string> {
    if key in fields then fields[key] else None
  }

  /** `doc.get(key)`, which fails on a document that is not an object. */
  function FileGet(doc: JsonDoc, key: string, path: string): Result<Option<string>, ConfigError> {
    match doc
    case JOther => Failure(NotAnObject(path))
    case JObject(fields) => Success(Get(fields, key))
  }

  /** `envValue or doc.get(key)`: the lookup runs only when the
      environment value is unset or empty. */
  function Setting(envValue: Option<string>, doc: JsonDoc, key: string, path: string): Result<Option<string>, ConfigError> {
    if Truthy(envValue) then Success(envValue) else FileGet(doc, key, path)
  }

  /** The three settings that may come from the file, all set and non-empty
      in the environment. */
  predicate EnvComplete(env: EnvSettings) {
    Truthy(env.authToken) && Truthy(env.downloadRoot) && Truthy(env.logLevel)
  }

  /**
    The settings, looked up in order: the environment wins when it holds a
    non-empty value, then the file's value when it is non-empty, then the
    default; the log level is upper-cased. A document that is not an object
    fails at the first lookup that reaches the file.
  */
  function LoadSettings(env: EnvSettings, files: map<string, FileContent>): (r: Result<AppSettings, ConfigError>)
    ensures r.Failure? <==> LoadConfigFile(files, ConfigPath(env)).JOther? && !EnvComplete(env)
    ensures r.Failure? ==> r.error == NotAnObject(ConfigPath(env))
    ensures r.Success? ==> r.value.configFile == ConfigPath(env)
    ensures r.Success? && Truthy(env.authToken) ==> r.value.authToken == env.authToken
    ensures r.Success? && Truthy(env.downloadRoot) ==> r.value.downloadRoot == env.downloadRoot.value
    ensures r.Success? && Truthy(env.logLevel) ==> r.value.logLevel == Upper(env.logLevel.value)
    ensures r.Success? ==> forall i :: 0 <= i < |r.value.logLevel| ==> !('a' <= r.value.logLevel[i] <= 'z')
  {
    var path := ConfigPath(env);
    var doc := LoadConfigFile(files, path);
    var token := Setting(env.authToken, doc, "auth_token", path);
    if token.Failure? then Failure(token.error)
    else
      var root := Setting(env.downloadRoot, doc, "download_root", path);
      if root.Failure? then Failure(root.error)
      else
        var level := Setting(env.logLevel, doc, "log_level", path);
        if level.Failure? then Failure(level.error)
        else
          var levelText := OrElse(level.value, DefaultLogLevel);
          UpperIdempotent(levelText);
          Success(AppSettings(token.value, OrElse(root.value, DefaultDownloadRoot), Upper(levelText), path))
  }

  /** Settings held entirely by the environment never consult the file, so
      even a document that is not an object is harmless. */
  lemma EnvOverridesFile(env: EnvSettings, files: map<string, FileContent>)
    requires EnvComplete(env)
    ensures LoadSettings(env, files) ==
      Success(AppSettings(env.authToken, env.downloadRoot.value, Upper(env.logLevel.value), ConfigPath(env)))
  {
  }

  /** With an unset or empty environment variable the file's non-empty value
      is used, and otherwise the default. */
  lemma FileThenDefault(env: EnvSettings, files: map<string, FileContent>, fields: map<string, Option<string>>)
    requires LoadConfigFile(files, ConfigPath(env)) == JObject(fields)
    ensures LoadSettings(env, files).Success?
    ensures !Truthy(env.authToken) ==> LoadSettings(env, files).value.authToken == Get(fields, "auth_token")
    ensures !Truthy(env.downloadRoot) ==>
      LoadSettings(env, files).value.downloadRoot == OrElse(Get(fields, "download_root"), DefaultDownloadRoot)
    ensures !Truthy(env.logLevel) ==>
      LoadSettings(env, files).value.logLevel == Upper(OrElse(Get(fields, "log_level"), DefaultLogLevel))
  {
  }

  /** A missing configuration file, an unreadable one and an empty object
      give the same settings. */
  lemma MissingFileIsEmpty(env: EnvSettings, files: map<string, FileContent>)
    requires ConfigPath(env) !in files
    ensures LoadSettings(env, files) == LoadSettings(env, files[ConfigPath(env) := Unreadable])
    ensures LoadSettings(env, files) == LoadSettings(env, files[ConfigPath(env) := Parsed(JObject(map[]))])
  {
    var path := ConfigPath(env);
    assert LoadConfigFile(files[path := Unreadable], path) == JObject(map[]);
    assert LoadConfigFile(files[path := Parsed(JObject(map[]))], path) == JObject(map[]);
  }

  /** With nothing set and no file, the defaults apply. */
  lemma Defaults(files: map<string, FileContent>)
    requires DefaultConfigPath !in files
    ensures LoadSettings(EnvSettings(None, None, None, None), files) ==
      Success(AppSettings(None, DefaultDownloadRoot, DefaultLogLevel, DefaultConfigPath))
  {
    assert Upper(DefaultLogLevel) == DefaultLogLevel;
  }

  /** An environment variable set to the empty string counts as unset. */
  lemma EmptyEnvIsUnset(env: EnvSettings, files: map<string, FileContent>)
    ensures LoadSettings(env, files) ==
      LoadSettings(EnvSettings(
        if Truthy(env.authToken) then env.authToken else None,
        if Truthy(env.downloadRoot) then env.downloadRoot else None,
        if Truthy(env.logLevel) then env.logLevel else None,
        if Truthy(env.configFile) then env.configFile else None), files)
  {
  }
}
