/**
 * The data of a Pgosrv value (main.go): the persisted settings, the action
 * flags, and the service-manager configuration derived from the settings.
 */
module Config {

  /** The seven action flags DoTest .. DoPrint; a flag is set when its verb is in a set<Verb>. */
  datatype Verb = Test | Start | Stop | Install | Update | Uninstall | Print

  /** The string settings that a "--Key" option assigns directly. */
  datatype Field =
    | Description | DisplayName | StartPath | Startup | JavaHome | Classpath
    | Jvm | JvmMx | JvmMs | JvmSs | StartMode | StopMode | StartClass | StopClass
    | StartMethod | StopMethod | LogPath | LogPrefix | LogLevel
    | ServiceUser | ServicePassword | PidFile

  /** The JSON-tagged fields of Pgosrv, the part saved to and read from the configuration file. */
  datatype Config = Config(
    name: string,
    description: string,
    displayName: string,
    startPath: string,
    startup: string,
    javaHome: string,
    jvmOptions: seq<string>,
    classpath: string,
    jvm: string,
    jvmMx: string,
    jvmMs: string,
    jvmSs: string,
    startMode: string,
    stopMode: string,
    startClass: string,
    stopClass: string,
    startMethod: string,
    stopMethod: string,
    stopTimeout: int,
    logPath: string,
    logLevel: string,
    logPrefix: string,
    serviceUser: string,
    servicePassword: string,
    pidFile: string)

  /** Go's zero value of the settings. */
  const EmptyConfig: Config :=
    Config("", "", "", "", "", "", [], "", "", "", "", "", "", "", "", "", "", "", 0, "", "", "", "", "", "")

  /** The command-line key of a field. */
  function Key(f: Field): string {
    match f
    case Description => "--Description"
    case DisplayName => "--DisplayName"
    case StartPath => "--StartPath"
    case Startup => "--Startup"
    case JavaHome => "--JavaHome"
    case Classpath => "--Classpath"
    case Jvm => "--Jvm"
    case JvmMx => "--JvmMx"
    case JvmMs => "--JvmMs"
    case JvmSs => "--JvmSs"
    case StartMode => "--StartMode"
    case StopMode => "--StopMode"
    case StartClass => "--StartClass"
    case StopClass => "--StopClass"
    case StartMethod => "--StartMethod"
    case StopMethod => "--StopMethod"
    case LogPath => "--LogPath"
    case LogPrefix => "--LogPrefix"
    case LogLevel => "--LogLevel"
    case ServiceUser => "--ServiceUser"
    case ServicePassword => "--ServicePassword"
    case PidFile => "--PidFile"
  }

  function Get(c: Config, f: Field): string {
    match f
    case Description => c.description
    case DisplayName => c.displayName
    case StartPath => c.startPath
    case Startup => c.startup
    case JavaHome => c.javaHome
    case Classpath => c.classpath
    case Jvm => c.jvm
    case JvmMx => c.jvmMx
    case JvmMs => c.jvmMs
    case JvmSs => c.jvmSs
    case StartMode => c.startMode
    case StopMode => c.stopMode
    case StartClass => c.startClass
    case StopClass => c.stopClass
    case StartMethod => c.startMethod
    case StopMethod => c.stopMethod
    case LogPath => c.logPath
    case LogPrefix => c.logPrefix
    case LogLevel => c.logLevel
    case ServiceUser => c.serviceUser
    case ServicePassword => c.servicePassword
    case PidFile => c.pidFile
  }

  /** Assigning one field leaves every other setting as it was. */
  function Set(c: Config, f: Field, v: string): (r: Config)
    ensures Get(r, f) == v
    ensures forall g :: g != f ==> Get(r, g) == Get(c, g)
    ensures r.name == c.name && r.jvmOptions == c.jvmOptions && r.stopTimeout == c.stopTimeout
  {
    match f
    case Description => c.(description := v)
    case DisplayName => c.(displayName := v)
    case StartPath => c.(startPath := v)
    case Startup => c.(startup := v)
    case JavaHome => c.(javaHome := v)
    case Classpath => c.(classpath := v)
    case Jvm => c.(jvm := v)
    case JvmMx => c.(jvmMx := v)
    case JvmMs => c.(jvmMs := v)
    case JvmSs => c.(jvmSs := v)
    case StartMode => c.(startMode := v)
    case StopMode => c.(stopMode := v)
    case StartClass => c.(startClass := v)
    case StopClass => c.(stopClass := v)
    case StartMethod => c.(startMethod := v)
    case StopMethod => c.(stopMethod := v)
    case LogPath => c.(logPath := v)
    case LogPrefix => c.(logPrefix := v)
    case LogLevel => c.(logLevel := v)
    case ServiceUser => c.(serviceUser := v)
    case ServicePassword => c.(servicePassword := v)
    case PidFile => c.(pidFile := v)
  }

  /**
   * The fields of the service library's Config that loadConfig sets; `option`
   * is its KeyValue map, with string values only.
   */
  datatype ServiceConfig = ServiceConfig(
    name: string,
    displayName: string,
    description: string,
    userName: string,
    arguments: seq<string>,
    option: map<string, string>)

  const EmptyServiceConfig: ServiceConfig := ServiceConfig("", "", "", "", [], map[])

  /**
   * The mapping at the end of loadConfig. The service manager is told to run
   * the program with the single argument "//RS//<Name>"; the display name
   * falls back to the name; the option map is replaced only when a password
   * is configured, and otherwise keeps what an earlier load put there.
   */
  function MapServiceConfig(c: Config, prev: ServiceConfig): (r: ServiceConfig)
    ensures r.name == c.name && r.description == c.description && r.userName == c.serviceUser
    ensures r.arguments == ["//RS//" + c.name]
    ensures r.displayName == if c.displayName == "" then c.name else c.displayName
    ensures c.servicePassword != "" ==> r.option == map["Password" := c.servicePassword]
    ensures c.servicePassword == "" ==> r.option == prev.option
  {
    var displayName := if c.displayName == "" then c.name else c.displayName;
    var option := if c.servicePassword != "" then map["Password" := c.servicePassword] else prev.option;
    ServiceConfig(c.name, displayName, c.description, c.serviceUser, ["//RS//" + c.name], option)
  }

  /**
   * The arguments the service manager should pass: the start code and the
   * name as separate arguments, so that scanning takes the name whole from
   * the next argument instead of cutting it at '=' or testing it as an option.
   */
  function RegisteredArguments(name: string): (r: seq<string>)
    ensures |r| == 2 && r[1] == name
  {
    ["//RS", name]
  }

  /** A named service is never shown without a display name. */
  lemma DisplayNameNeverEmpty(c: Config, prev: ServiceConfig)
    requires c.name != ""
    ensures MapServiceConfig(c, prev).displayName != ""
  {
  }
}
