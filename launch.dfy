/**
 * The JVM command that Pgosrv.exec builds (main.go): heap flags, the
 * configured JVM options, the class path with "-cp" or "-jar", then the
 * entry class and method of the start or the stop invocation.
 */
module Launch {
  import opened Config
  import FilePath
  import Seqs

  /** The fields of exec.Cmd that exec sets from the settings. */
  datatype Cmd = Cmd(path: string, args: seq<string>, dir: string)

  /** javaExecutable: "java" on every platform. */
  const JavaExecutable: string := "java"

  /** filepath.Join(JavaHome, "bin", javaExecutable()). */
  function JavaPath(javaHome: string): string {
    FilePath.Join(FilePath.Join(javaHome, "bin"), JavaExecutable)
  }

  /** Whatever JavaHome is, the path names the java executable. */
  lemma JavaPathBase(javaHome: string)
    ensures FilePath.Base(JavaPath(javaHome)) == JavaExecutable
  {
    FilePath.BaseOfJoined(FilePath.Join(javaHome, "bin"), JavaExecutable);
  }

  /** A heap flag is passed only when its size is configured. */
  function HeapFlag(prefix: string, size: string): (r: seq<string>)
    ensures |r| == if size == "" then 0 else 1
  {
    if size == "" then [] else [prefix + size]
  }

  /** How many of JvmMx, JvmMs and JvmSs are set. */
  function HeapCount(c: Config): nat {
    (if c.jvmMx != "" then 1 else 0) + (if c.jvmMs != "" then 1 else 0) + (if c.jvmSs != "" then 1 else 0)
  }

  /** "-Xmx", "-Xms" and "-Xss" with their sizes, in that order, each only when set. */
  function HeapFlags(c: Config): (r: seq<string>)
    ensures |r| == HeapCount(c)
    ensures c.jvmMx != "" ==> r[0] == "-Xmx" + c.jvmMx
    ensures c.jvmSs != "" ==> r[|r| - 1] == "-Xss" + c.jvmSs
    ensures c.jvmMs != "" ==> r[if c.jvmMx != "" then 1 else 0] == "-Xms" + c.jvmMs
  {
    HeapFlag("-Xmx", c.jvmMx) + HeapFlag("-Xms", c.jvmMs) + HeapFlag("-Xss", c.jvmSs)
  }

  /** The class-path pair: "-cp" when a start class is named, else "-jar"; nothing without a class path. */
  function ClasspathArgs(c: Config): (r: seq<string>)
    ensures c.classpath == "" ==> r == []
    ensures c.classpath != "" ==> |r| == 2 && r[1] == c.classpath
    ensures c.classpath != "" ==> (r[0] == "-cp" <==> c.startClass != "") && (r[0] == "-jar" <==> c.startClass == "")
  {
    if c.classpath == "" then [] else [if c.startClass != "" then "-cp" else "-jar", c.classpath]
  }

  /** The entry class and method of the start or the stop invocation, even when empty. */
  function EntryArgs(c: Config, asStart: bool): seq<string> {
    if asStart then [c.startClass, c.startMethod] else [c.stopClass, c.stopMethod]
  }

  /** The argument vector that exec builds. */
  function JvmArgs(c: Config, asStart: bool): (r: seq<string>)
    ensures |r| == HeapCount(c) + |c.jvmOptions| + (if c.classpath != "" then 2 else 0) + 2
    ensures r[..HeapCount(c)] == HeapFlags(c)
    ensures r[HeapCount(c)..HeapCount(c) + |c.jvmOptions|] == c.jvmOptions
    ensures r[HeapCount(c) + |c.jvmOptions|..|r| - 2] == ClasspathArgs(c)
    ensures r[|r| - 2] == (if asStart then c.startClass else c.stopClass)
    ensures r[|r| - 1] == (if asStart then c.startMethod else c.stopMethod)
  {
    var r := HeapFlags(c) + c.jvmOptions + ClasspathArgs(c) + EntryArgs(c, asStart);
    Seqs.Parts4(HeapFlags(c), c.jvmOptions, ClasspathArgs(c), EntryArgs(c, asStart));
    r
  }

  /** The vector is the four groups one after the other. */
  lemma JvmArgsGroups(c: Config, asStart: bool)
    ensures JvmArgs(c, asStart) == HeapFlags(c) + c.jvmOptions + ClasspathArgs(c) + EntryArgs(c, asStart)
  {
  }

  /** Each heap flag is in the vector exactly when its size is set. */
  lemma HeapFlagPresence(c: Config)
    ensures "-Xmx" + c.jvmMx in HeapFlags(c) <==> c.jvmMx != ""
    ensures "-Xms" + c.jvmMs in HeapFlags(c) <==> c.jvmMs != ""
    ensures "-Xss" + c.jvmSs in HeapFlags(c) <==> c.jvmSs != ""
  {
    var mx, ms, ss := "-Xmx" + c.jvmMx, "-Xms" + c.jvmMs, "-Xss" + c.jvmSs;
    assert mx[2] == 'm' && mx[3] == 'x';
    assert ms[2] == 'm' && ms[3] == 's';
    assert ss[2] == 's' && ss[3] == 's';
  }

  /**
   * The start and the stop invocation differ only in their last two
   * elements: the choice between "-cp" and "-jar" follows StartClass for both.
   */
  lemma StartAndStopShareOptions(c: Config)
    ensures var start, stop := JvmArgs(c, true), JvmArgs(c, false);
      |start| == |stop| && start[..|start| - 2] == stop[..|stop| - 2]
  {
    var start, stop := JvmArgs(c, true), JvmArgs(c, false);
    var h, o := HeapCount(c), |c.jvmOptions|;
    assert start[..|start| - 2] == start[..h] + start[h..h + o] + start[h + o..|start| - 2];
    assert stop[..|stop| - 2] == stop[..h] + stop[h..h + o] + stop[h + o..|stop| - 2];
  }

  // ---------------------------------------------------------------------
  // What the JVM receives

  /**
   * The arguments a program started from an exec.Cmd receives: Args holds
   * the whole argv, so the program sees Args[1..]; an empty Args stands for
   * argv == [Path].
   */
  function ProgramArguments(cmd: Cmd): seq<string> {
    if cmd.args == [] then [] else cmd.args[1..]
  }

  /** The command as exec builds it, with the argument vector put in Args as it is. */
  function ExecCommand(c: Config, asStart: bool): (r: Cmd)
    ensures r.path == JavaPath(c.javaHome) && r.dir == c.startPath
    ensures ProgramArguments(r) == JvmArgs(c, asStart)[1..]
  {
    Cmd(JavaPath(c.javaHome), JvmArgs(c, asStart), c.startPath)
  }

  /** As written, the JVM never receives the vector exec built: its first element is taken as argv[0]. */
  lemma ExecLosesFirstArgument(c: Config, asStart: bool)
    ensures ProgramArguments(ExecCommand(c, asStart)) != JvmArgs(c, asStart)
    ensures |ProgramArguments(ExecCommand(c, asStart))| == |JvmArgs(c, asStart)| - 1
  {
  }

  /** A concrete case: with a heap size set, "-Xmx512m" is swallowed as argv[0]. */
  lemma ExecDropsLeadingFlag()
    ensures var c := EmptyConfig.(jvmMx := "512m", classpath := "app.jar", startClass := "Main", startMethod := "main");
      JvmArgs(c, true) == ["-Xmx512m", "-cp", "app.jar", "Main", "main"]
      && ProgramArguments(ExecCommand(c, true)) == ["-cp", "app.jar", "Main", "main"]
  {
    var c := EmptyConfig.(jvmMx := "512m", classpath := "app.jar", startClass := "Main", startMethod := "main");
    JvmArgsGroups(c, true);
    assert "-Xmx" + "512m" == "-Xmx512m";
    assert HeapFlag("-Xmx", c.jvmMx) == ["-Xmx512m"];
    assert HeapFlags(c) == ["-Xmx512m"] + [] + [];
    assert ClasspathArgs(c) == ["-cp", "app.jar"];
  }

  /** Without heap flags "-cp" is swallowed, and the JVM takes the class path for the class to run. */
  lemma ExecDropsClasspathFlag()
    ensures var c := EmptyConfig.(classpath := "app.jar", startClass := "Main", startMethod := "main");
      JvmArgs(c, true) == ["-cp", "app.jar", "Main", "main"]
      && ProgramArguments(ExecCommand(c, true)) == ["app.jar", "Main", "main"]
  {
    var c := EmptyConfig.(classpath := "app.jar", startClass := "Main", startMethod := "main");
    JvmArgsGroups(c, true);
    assert HeapFlags(c) == [];
    assert ClasspathArgs(c) == ["-cp", "app.jar"];
  }

  /** The command with the executable path as argv[0], so that the JVM receives the whole vector. */
  function LaunchCommand(c: Config, asStart: bool): (r: Cmd)
    ensures r.path == JavaPath(c.javaHome) && r.dir == c.startPath
    ensures ProgramArguments(r) == JvmArgs(c, asStart)
    ensures r.args[0] == r.path
  {
    var path := JavaPath(c.javaHome);
    assert ([path] + JvmArgs(c, asStart))[1..] == JvmArgs(c, asStart);
    Cmd(path, [path] + JvmArgs(c, asStart), c.startPath)
  }
}
