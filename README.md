# prunsrv: a verified model of the service wrapper's command handling

prunsrv registers a Java program with the operating system's service manager
and starts and stops it. It is a Go program built from two files. `main.go`
holds the `Pgosrv` object. Its code scans the command line into the object,
loads the stored configuration, builds the JVM command for the start and the
stop invocation, and picks the action to run. `tools.go` holds the helpers.
These are the duplicate-suppressing error reporter and the debug trace, the
flag lookup, the executable title, quoting, and `max`/`min`.

This project models those routines in Dafny and proves what they promise.

- `Config` (config.dfy) holds the persisted settings of a `Pgosrv` value. It
  also holds the mapping from those settings to the service manager's
  configuration.
- `Launch` (launch.dfy) builds the JVM argument vector and the command that
  `exec` fills in.
- `Scan` (scan.dfy) models `argValue`, the blocks of `scanArgs` as a table
  applied in source order, and `loadConfig` with its file reading as a
  parameter.
- `Env` (env.dfy) models `resolvEnvParameter`. It has a left-to-right
  reference meaning, and the source's loop with its `delta` offset is proved
  equal to it.
- `Service` (pgosrv.dfy) is the `Pgosrv` class. Its methods update the
  fields that the source's methods update. `Exec` stores the corrected
  command of the first row under "## Findings", not the command as written.
  The class also holds `run`'s name check and dispatch.
- `Tools` (tools.dfy) models `checkError` and `debug` as a `Logger` class.
  It also holds `getFlag`, `title`, `surroundWidth`, `max` and `min`.
- `GoStrings`, `Strconv` and `FilePath` model the parts of Go's `strings`,
  `strconv` and `path/filepath` that the code relies on. `Seqs` and
  `Wrappers` hold shared sequence facts and the `Option`/`Result` types.

The environment of `resolvEnvParameter` is a `map<string, string>`. The file
read and JSON decoding of `loadConfig` is a function parameter (`Loader`).
`os.Executable` and `unicode.IsLetter` are parameters of `title`. The
command line is a `seq<string>`.

`exec` builds the JVM command and starts it once with `Cmd.Start`. Nothing
waits for the process, restarts it or writes a pid file. The stop timeout is
stored as `strconv.Atoi` returns it, with no clamping. A `--StopTimeout`
value that Atoi rejects stops the scan with an error.

## Model

| member | source | states |
|---|---|---|
| `Launch.HeapFlags` | main.go:338-346 | `-Xmx`, `-Xms`, `-Xss` with their sizes, in that order, each present only when its size is set; the length is the number of sizes set |
| `Launch.HeapFlagPresence` | main.go:338-346 | each heap flag is among the heap flags exactly when its size is non-empty |
| `Launch.ClasspathArgs` | main.go:352-360 | no class-path flag without a class path; otherwise `-cp` exactly when StartClass is non-empty, `-jar` exactly when it is empty, followed by the class path |
| `Launch.JvmArgs` | main.go:335-368 | the vector is the heap flags, then every JVM option verbatim in order, then the class-path pair, then the start or stop class and method even when empty; length is heap flags + options + 2 if class path + 2 |
| `Launch.StartAndStopShareOptions` | main.go:352-368 | start and stop vectors have the same length and differ only in their last two elements, so the `-cp`/`-jar` choice follows StartClass for the stop invocation too |
| `Launch.JavaPathBase` | main.go:371 | whatever JavaHome is, the executable path ends in the `java` launcher |
| `Launch.ExecCommand` | main.go:370-377 | the command as written: Args is the vector itself, so the launched program receives the vector without its first element |
| `Launch.ExecLosesFirstArgument` | main.go:370-377 | as written, the JVM never receives the vector that was built; it receives one element fewer |
| `Launch.ExecDropsLeadingFlag` | main.go:338-339 | with JvmMx "512m", `-Xmx512m` is consumed as argv[0] and the JVM starts without the heap setting |
| `Launch.ExecDropsClasspathFlag` | main.go:352-359 | without heap flags, `-cp` is consumed as argv[0] and the JVM takes the class path for the class to run |
| `Launch.LaunchCommand` | main.go:370-377 | the corrected command: Path is JavaHome/bin/java, Dir is StartPath, Args starts with the path so the program receives the whole vector |
| `Service.BuildJvmArgs` | main.go:336-368 | the appends of `exec` produce exactly `JvmArgs` |
| `Service.Pgosrv.Exec` | main.go:335-377 | sets only the command field, to the corrected launch command of the current settings (`Launch.LaunchCommand`, see "## Findings"); no setting, flag or service configuration changes |
| `Service.Pgosrv.constructor` | main.go:725 | a fresh `Pgosrv` has every field at Go's zero value |
| `Scan.ArgValue` | main.go:70-92 | the index is kept or advanced by exactly one, and only to an existing argument; it fails exactly when there is no `=`, no `//` after the first two characters and no next argument |
| `Scan.ArgValueAfterEquals` | main.go:71-76 | `key=value` yields the trimmed text after the first `=` and keeps the index |
| `Scan.ArgValueAfterSlashes` | main.go:78-83 | without `=`, the value is the trimmed text after the `//` that follows the first two characters, and the index is kept |
| `Scan.ArgValueTrimsPadding` | main.go:71-76 | white space around the value after `=` is dropped and the value is otherwise kept |
| `Scan.ArgValueNextArgument` | main.go:85-91 | a key with no `=` and no `//` after its first two characters takes the next argument trimmed and advances the index by one; with no next argument it fails |
| `Scan.ActionCodeTakesNextArgument` | main.go:85-91 | a bare action code such as `//RS` takes the service name from the next argument, trimmed, and advances the index; with no next argument it fails |
| `Scan.ActionArgument` | main.go:97-191 | an argument starting with an action code runs that action's block and no other |
| `Scan.OptionArgument` | main.go:193-304 | an option argument whose test holds for one option block only runs that block alone |
| `Scan.InstallArgument` | main.go:136-152 | `//IS//name` sets the install flag, the name and the defaults (Startup manual, Jvm auto, Main/main for start and stop, StopTimeout 20, LogPath empty, LogPrefix the title, LogLevel Info) without reading a file, and scanning goes on |
| `Scan.LoadingActionArgument` | main.go:97-191 | every other action code sets its flag and the name, then loads the configuration; a failed load stops the scan with its error |
| `Scan.StopTimeoutArgument` | main.go:271-280 | `--StopTimeout=v` stores Atoi's value; scanning goes on only when Atoi succeeds, otherwise it stops with an error |
| `Scan.NonNumericStopTimeoutAborts` | main.go:271-280 | a non-numeric StopTimeout value stops the scan with an error; the timeout is left at 0, or at the 64-bit bound of the sign when the leading digits already overflow |
| `Scan.JvmOptionsArgument` | main.go:217-229 | a JvmOptions value is split on `;`; with the `++` prefix the pieces are appended to the options, otherwise they replace them |
| `Scan.LoadConfig` | main.go:615-650 | loading fails exactly when the file read or decoding fails; on success the settings are the decoded ones and the service configuration is derived from them, the action flags unchanged |
| `Scan.RegisteredArgumentStarts` | main.go:110-121 | the argument registered with the service manager, `//RS//<Name>`, selects the start action for the same service and loads its settings, for a name without `=` and without `JvmOptions` |
| `Scan.RegisteredNameCutAtEquals` | main.go:635 | as written, the registered argument of a name `<n1>=<n2>` starts the service named by `<n2>`, trimmed, and loads that service's file |
| `Scan.RegisteredNameSetsJvmOptions` | main.go:635 | as written, the registered argument of a name containing `JvmOptions` also runs the JvmOptions block, which replaces the loaded options by the name split on `;` |
| `Config.RegisteredArguments` | main.go:635 | the corrected registered arguments: two elements, the second of them the name itself |
| `Scan.CorrectedRegistrationStarts` | main.go:110-121 | with the corrected arguments, every name that scanning can store starts that same service with its stored settings, `=` and `JvmOptions` included |
| `Service.Pgosrv.ScanArgs` | main.go:94-307 | the loop over the arguments from index 1 leaves the fields and the status that the block-by-block scan gives |
| `Service.Pgosrv.LoadConfig` | main.go:615-650 | on a failed load only the error is returned and nothing changes; otherwise the fields become the loaded snapshot |
| `Service.Pgosrv.ConfigFilename` | main.go:582-588 | the file name starts with the directory, and its base name is the service name with the extension |
| `Config.MapServiceConfig` | main.go:634-647 | Arguments is exactly `["//RS//"+Name]`; DisplayName falls back to Name; the Password option is set only when ServicePassword is non-empty, otherwise the earlier option map is kept |
| `Config.DisplayNameNeverEmpty` | main.go:638-640 | a named service always has a non-empty display name |
| `Service.SelectAction` | main.go:756-770 | the chosen action is set, no action earlier in the order Test, Start, Stop, Install, Update, Uninstall, Print is set, and there is none exactly when no flag is set |
| `Service.Run` | main.go:710-776 | a fresh object scans the arguments; scan errors end the run; an empty name gives "missing service name"; otherwise the first set action is performed |
| `Service.NoArgumentsMissingName` | main.go:711-734 | without arguments after the program name, the run reports the missing service name |
| `Service.RunNeverUnknown` | main.go:771-772 | the "unknown action" branch is dead: every scan that names the service has set an action flag |
| `Service.RunPerformsSetAction` | main.go:732-770 | an action performed is one whose flag the scan set, for a named service |
| `Service.RegisteredRunStarts` | main.go:635 | running the program with the registered arguments performs the start action with the stored settings, for a name without `=` and without `JvmOptions` (the other names are the second and third rows under "## Findings") |
| `Env.MatchesFrom` | main.go:311-317 | the matches of `\$\{.*?\}` come in order, without overlap, each at least three characters long |
| `Env.SpliceMatches` | main.go:317-330 | replacing the reported matches is the left-to-right reference meaning |
| `Env.ResolveEnvParameter` | main.go:310-333 | the loop with its `delta` offset returns the reference meaning, and the error is always nil |
| `Env.ResolvePlaceholder` | main.go:318-330 | `${NAME}` is replaced by its value when that is non-empty and kept verbatim when it is unset or empty |
| `Env.ResolvePlain` | main.go:310-333 | text without `$` is returned unchanged |
| `Env.ResolveNoMatches` | main.go:310-333 | text in which the pattern finds no placeholder is returned unchanged, whatever the environment |
| `Env.ResolveUnset` | main.go:324-329 | with no variable set to a non-empty value, the text is returned unchanged |
| `Strconv.Atoi` | main.go:276 | succeeds exactly on a signed numeral in the 64-bit range and then returns its value; an out-of-range numeral gives the bound of its sign; a syntax error gives 0, unless the leading digits already exceed 2^64-1, which gives the bound of the sign; the value is always in the 64-bit range |
| `Strconv.AtoiOverflowBeforeJunk` | main.go:276 | twenty nines followed by a non-digit read as the largest 64-bit integer, with an error |
| `Strconv.AtoiItoa` | main.go:276 | every 64-bit integer written in decimal reads back as itself |
| `GoStrings.JoinSplit` | main.go:222 | splitting on `;` loses nothing: joining the pieces gives the value back |
| `GoStrings.SplitJoin` | main.go:222 | pieces without `;` come back from splitting their join |
| `Tools.Logger.CheckError` | tools.go:117-137 | returns true exactly when the error is non-nil; the new state is that of the duplicate-suppressing reporter |
| `Tools.Logger.Debug` | tools.go:139-157 | the new state is that of the debug trace |
| `Tools.Logger.constructor` | tools.go:19-25 | the reporter starts with no last error and an empty buffer |
| `Tools.DuplicateErrorIgnored` | tools.go:121-123 | an error equal to lastError changes neither lastError nor the buffer |
| `Tools.NilErrorIgnored` | tools.go:121-123 | a nil error changes nothing |
| `Tools.NewErrorRecorded` | tools.go:125-134 | a new message becomes lastError; in debug mode exactly the line `"ERROR "+msg+"\n"` is appended, otherwise the buffer is unchanged |
| `Tools.DebugAppendsOneLine` | tools.go:139-154 | outside debug mode nothing changes; in debug mode exactly one line beginning with `DEBUG ` and ending in a newline is appended |
| `Tools.ReplayAppendsOnly` | tools.go:117-157 | over any sequence of calls the buffer only grows, every added line is a DEBUG or ERROR line, and outside debug mode nothing is added |
| `Tools.NoConsecutiveDuplicateErrors` | tools.go:121-131 | over any sequence of calls the buffer never holds the same error message twice in a row |
| `Tools.GetFlag` | tools.go:94-115 | found exactly when some argument equals the flag or starts with flag+`=`; the first such argument decides the value; no match gives (false, "") |
| `Tools.FlagValueForms` | tools.go:98-110 | `flag=v` yields v trimmed; a bare flag yields the next argument untrimmed, or "" when it is the last argument |
| `Tools.Title` | tools.go:196-221 | the letters of the executable's base name, extension removed, up to its first `-`; one debug line is traced |
| `Tools.TitleLettersOnly` | tools.go:207-216 | the title holds only letters and no `-` |
| `Tools.TitleIgnoresDirectory` | tools.go:202 | the directory part of the executable path plays no part in the title |
| `Tools.SurroundWidth` | tools.go:223-232 | same length, the i-th element is the i-th string in double quotes, the surround argument is ignored |
| `Tools.Max` | tools.go:234-240 | one of the two arguments, and not below either |
| `Tools.Min` | tools.go:242-248 | one of the two arguments, and not above either |
| `FilePath.Ext` | tools.go:203 | the suffix from the last `.` of the final element, or "" |
| `FilePath.BaseOfJoined` | tools.go:202 | the base name of dir joined with a plain file name is that file name |

## Findings

| source | as written | input that shows it | evidently intended | confidence | as-written member | corrected member |
|---|---|---|---|---|---|---|
| main.go:370-377 | `exec.Cmd{Path: …, Args: args}` puts the built vector in `Args`, whose first element Go treats as the program name (argv[0]) | JvmMx "512m", Classpath "app.jar", StartClass "Main", StartMethod "main": the JVM receives `-cp app.jar Main main`, without `-Xmx512m` | the JVM receives the whole vector, with the executable path as argv[0] | high, not executed | `Launch.ExecLosesFirstArgument` | `Launch.LaunchCommand` |

| main.go:635 | the registered argument is `//RS//` followed by the name, and scanning reads the name back with argValue, which cuts at the first `=`, and tests the whole argument for `JvmOptions` | service name `a=b`: the service manager starts the program with `//RS//a=b`, which starts service `b` | the service manager's run starts the registered service with its stored settings | medium, not executed | `Scan.RegisteredNameCutAtEquals` | `Scan.CorrectedRegistrationStarts` |
| main.go:635 | as above; the JvmOptions block tests the whole argument, name included | service name `myJvmOptions`: the stored JvmOptions are replaced by `["myJvmOptions"]` | the stored JvmOptions are kept | medium, not executed | `Scan.RegisteredNameSetsJvmOptions` | `Scan.CorrectedRegistrationStarts` |

`Service.Pgosrv.Exec` builds the corrected command of the first row.
`Config.MapServiceConfig` keeps the registered arguments as main.go:635
writes them, because the service manager stores them outside the program.
`Config.RegisteredArguments` is the corrected form; with it the registered
run starts the same service for every name that scanning can store
(argValue trims every name it returns).

## Left out

- Starting the process (`Cmd.Start`) and the Start/Stop/startService/stopService/testService wrappers are not modelled. They are operating-system calls; only the command's Path, Args and Dir are modelled.
- Registering with the service manager (`service.New`, `service.Control`) in installService, updateService and uninstallService is not modelled. It is a call into an external library.
- saveConfig, deleteConfig, configDir, fileExists, openLog and the log-file setup in run are not modelled: they are file-system work. The file read and JSON decoding in loadConfig is the `Loader` parameter.
- rerunElevated, isAdmin and checkAdmin (in both files) are not modelled. They are Windows calls.
- killPid is not modelled. It is an operating-system call, and as written it only looks up process 1.
- The mutex `mu` is not modelled. The reporter is a sequential object.
- printService is not modelled. Its text depends on fmt's `%s` rendering of a slice and of an int, and it writes StopMode under the `--StartMode` key (main.go:428), so it does not round-trip.
- Printing to the console, to standard error and through `log.Printf` is not modelled, and neither is `fmt.Scan`.
- main.go calls `Debug`, `Error`, `SurroundWidth` and `fileExists_`, which tools.go does not define. The main.go routines are modelled without those trace and error calls. The tools.go helpers are modelled as tools.go defines them.
- Tools.Logger.Debug: the values are taken as already rendered strings; fmt's `%+v` rendering of reflect values is not modelled.
- unicode.IsLetter is a parameter of `title`, not a model of the Unicode tables.
- Strings are sequences of characters. Go indexes strings by byte, so offsets agree with the model on ASCII text only.
- FilePath.Join: Go's filepath.Join also cleans the joined path (collapsing `..`, `.` and repeated separators); the model joins with one separator and does not clean.
- FilePath.Base: volume names are the drive-letter form `X:` only; UNC volume names are not modelled.
- The log-file setup in run, between the name check and the dispatch, is not modelled. usage() has an empty body in the source.
- Tools.Max/Tools.Min: modelled on `int` only. Go's generic `constraints.Ordered` also covers floating point, where NaN breaks both bounds, and strings; neither is modelled.
- Scan.LoadConfig: a decoding error is modelled as leaving the settings unchanged. json.Unmarshal can assign some fields before it reports a type mismatch, and that partial update is not modelled.
