/**
 * The Pgosrv object of main.go and the program's run: scanning the command
 * line into the object, loading the stored configuration, building the JVM
 * command, and choosing the action to perform.
 */
module Service {
  import opened Wrappers
  import opened Config
  import opened Scan
  import opened Launch
  import FilePath

  /** exec's argument vector, built by appending as the source does. */
  method BuildJvmArgs(c: Config, asStart: bool) returns (args: seq<string>)
    ensures args == JvmArgs(c, asStart)
  {
    args := [];
    if c.jvmMx != "" {
      args := args + ["-Xmx" + c.jvmMx];
    }
    if c.jvmMs != "" {
      args := args + ["-Xms" + c.jvmMs];
    }
    if c.jvmSs != "" {
      args := args + ["-Xss" + c.jvmSs];
    }
    assert args == HeapFlags(c);
    for k := 0 to |c.jvmOptions|
      invariant args == HeapFlags(c) + c.jvmOptions[..k]
    {
      args := args + [c.jvmOptions[k]];
    }
    assert c.jvmOptions[..|c.jvmOptions|] == c.jvmOptions;
    ghost var prefix := args;
    if c.classpath != "" {
      if c.startClass != "" {
        args := args + ["-cp"];
      } else {
        args := args + ["-jar"];
      }
      args := args + [c.classpath];
    }
    assert args == prefix + ClasspathArgs(c);
    ghost var middle := args;
    if asStart {
      args := args + [c.startClass];
      args := args + [c.startMethod];
    } else {
      args := args + [c.stopClass];
      args := args + [c.stopMethod];
    }
    assert args == middle + EntryArgs(c, asStart);
    JvmArgsGroups(c, asStart);
  }

  class Pgosrv {
    var actions: set<Verb>
    var conf: Config
    var service: ServiceConfig
    var cmd: Option<Cmd>

    function State(): Snapshot
      reads this
    {
      Snapshot(actions, conf, service)
    }

    /** &Pgosrv{}: every field at its zero value. */
    constructor ()
      ensures State() == Initial && cmd == None
    {
      actions := {};
      conf := EmptyConfig;
      service := EmptyServiceConfig;
      cmd := None;
    }

    /**
     * scanArgs: the loop over the arguments from index 1; each argument is
     * trimmed and tried against every block in order. An error or a missing
     * value ends the scan with the fields as the blocks left them.
     */
    method ScanArgs(args: seq<string>, load: Loader, title: string) returns (status: Status)
      modifies this
      ensures State() == ScanFrom(args, 1, old(State()), load, title).snap
      ensures status == ScanFrom(args, 1, old(State()), load, title).status
      ensures cmd == old(cmd)
    {
      var i := 1;
      while i < |args|
        invariant ScanFrom(args, i, State(), load, title) == ScanFrom(args, 1, old(State()), load, title)
        invariant cmd == old(cmd)
        decreases |args| - i
      {
        var arg := GoStrings.Trim(args[i]);
        var st := ApplyRules(Rules, args, arg, Step(State(), i, Scanning), load, title);
        actions, conf, service := st.snap.actions, st.snap.conf, st.snap.service;
        if !st.status.Scanning? {
          return st.status;
        }
        i := st.i + 1;
      }
      return Scanning;
    }

    /** loadConfig: the stored settings decoded over the fields, then the service configuration derived from them. */
    method LoadConfig(load: Loader) returns (err: Option<string>)
      modifies this
      ensures match Scan.LoadConfig(old(State()), load)
        case Err(msg) => err == Some(msg) && State() == old(State())
        case Ok(loaded) => err == None && State() == loaded
      ensures cmd == old(cmd)
    {
      var decoded := load(conf);
      if decoded.Err? {
        return Some(decoded.error);
      }
      conf := decoded.value;
      service := MapServiceConfig(conf, service);
      return None;
    }

    /** configFilename: the file named after the service, with the extension, in dir. */
    function ConfigFilename(dir: string, extension: string): (r: string)
      reads this
      ensures dir == "" ==> r == conf.name + extension
      ensures |r| >= |dir| && r[..|dir|] == dir
      ensures var file := conf.name + extension;
        file != "" && FilePath.NoSeparator(file) && ':' !in file ==> FilePath.Base(r) == file
    {
      var file := conf.name + extension;
      var r := FilePath.Join(dir, file);
      if file != "" && FilePath.NoSeparator(file) && ':' !in file then
        if dir == "" then FilePath.BaseOfName(file); r
        else FilePath.BaseOfJoined(dir, file); r
      else r
    }

    /**
     * exec: the JVM command for the start or the stop invocation, run in
     * StartPath. Args starts with the executable path so that the JVM
     * receives the whole vector (see LaunchCommand); starting the process
     * is not modelled.
     */
    method Exec(asStart: bool)
      modifies this
      ensures cmd == Some(LaunchCommand(conf, asStart))
      ensures State() == old(State())
    {
      var args := BuildJvmArgs(conf, asStart);
      var path := JavaPath(conf.javaHome);
      cmd := Some(Cmd(path, [path] + args, conf.startPath));
    }
  }

  // ---------------------------------------------------------------------
  // run

  /** The order in which run's switch tests the action flags. */
  const Priority: seq<Verb> := [Test, Start, Stop, Install, Update, Uninstall, Print]

  /** The first action flag that is set, in the order Test, Start, Stop, Install, Update, Uninstall, Print. */
  function SelectAction(actions: set<Verb>): (r: Option<Verb>)
    ensures r.None? <==> actions == {}
    ensures r.Some? ==> r.value in actions
    ensures r.Some? ==> forall k :: 0 <= k < |Priority| && Priority[k] == r.value ==>
      forall j :: 0 <= j < k ==> Priority[j] !in actions
  {
    if Test in actions then Some(Test)
    else if Start in actions then Some(Start)
    else if Stop in actions then Some(Stop)
    else if Install in actions then Some(Install)
    else if Update in actions then Some(Update)
    else if Uninstall in actions then Some(Uninstall)
    else if Print in actions then Some(Print)
    else
      NoActionSet(actions);
      None
  }

  lemma NoActionSet(actions: set<Verb>)
    requires Test !in actions && Start !in actions && Stop !in actions && Install !in actions
    requires Update !in actions && Uninstall !in actions && Print !in actions
    ensures actions == {}
  {
    forall v: Verb
      ensures v !in actions
    {
      match v
      case Test =>
      case Start =>
      case Stop =>
      case Install =>
      case Update =>
      case Uninstall =>
      case Print =>
    }
  }

  /** How run ends. */
  datatype Outcome =
    | ScanFailed(error: ScanError)
    | ScanPanicked(arg: string)
    | MissingServiceName
    | UnknownAction(arg: string)
    | ArgsIndexPanic
    | Perform(action: Verb, snap: Snapshot)

  /** run after the log setup: scan, check the name, then dispatch on the first action flag set. */
  function RunSpec(args: seq<string>, load: Loader, title: string): Outcome {
    var st := ScanFrom(args, 1, Initial, load, title);
    match st.status
    case Failed(e) => ScanFailed(e)
    case Panicked(a) => ScanPanicked(a)
    case Scanning =>
      if st.snap.conf.name == "" then MissingServiceName
      else
        match SelectAction(st.snap.actions)
        case Some(v) => Perform(v, st.snap)
        case None => if |args| >= 2 then UnknownAction(args[1]) else ArgsIndexPanic
  }

  /** run: a fresh Pgosrv scans the arguments; the log file and the actions themselves are not modelled. */
  method Run(args: seq<string>, load: Loader, title: string) returns (outcome: Outcome)
    ensures outcome == RunSpec(args, load, title)
  {
    var p := new Pgosrv();
    var status := p.ScanArgs(args, load, title);
    if status.Failed? {
      return ScanFailed(status.error);
    }
    if status.Panicked? {
      return ScanPanicked(status.arg);
    }
    if p.conf.name == "" {
      return MissingServiceName;
    }
    if Test in p.actions {
      return Perform(Test, p.State());
    } else if Start in p.actions {
      return Perform(Start, p.State());
    } else if Stop in p.actions {
      return Perform(Stop, p.State());
    } else if Install in p.actions {
      return Perform(Install, p.State());
    } else if Update in p.actions {
      return Perform(Update, p.State());
    } else if Uninstall in p.actions {
      return Perform(Uninstall, p.State());
    } else if Print in p.actions {
      return Perform(Print, p.State());
    }
    if |args| < 2 {
      return ArgsIndexPanic;
    }
    return UnknownAction(args[1]);
  }

  // ---------------------------------------------------------------------
  // Properties of run

  /** Only the action blocks set the name, and each of them sets its flag too. */
  predicate Unnamed(s: Snapshot) {
    s.actions == {} ==> s.conf.name == ""
  }

  lemma AssignKeepsUnnamed(rule: Rule, arg: string, v: string, s: Snapshot, i: nat, load: Loader, title: string)
    requires Unnamed(s)
    ensures Unnamed(Assign(rule, arg, v, s, i, load, title).snap)
  {
    match rule
    case VerbRule(verb) =>
      var named := s.(actions := s.actions + {verb}, conf := s.conf.(name := v));
      assert verb in named.actions;
      if verb != Install {
        match LoadConfig(named, load)
        case Ok(loaded) =>
          assert loaded.actions == named.actions;
        case Err(_) =>
      }
    case FieldRule(f) =>
    case JvmOptionsRule =>
    case StopTimeoutRule =>
  }

  lemma {:induction false} ApplyRulesKeepUnnamed(rules: seq<Rule>, args: seq<string>, arg: string, st: Step, load: Loader, title: string)
    requires st.i < |args| && Unnamed(st.snap)
    ensures Unnamed(ApplyRules(rules, args, arg, st, load, title).snap)
    decreases |rules|
  {
    if rules != [] && st.status.Scanning? {
      var next := ApplyRule(rules[0], args, arg, st.snap, st.i, load, title);
      if Matches(rules[0], arg) {
        match ArgValue(args, arg, st.i)
        case None =>
        case Some(a) =>
          AssignKeepsUnnamed(rules[0], arg, a.value, st.snap, a.i, load, title);
      }
      ApplyRulesKeepUnnamed(rules[1..], args, arg, next, load, title);
    }
  }

  lemma {:induction false} ScanKeepsUnnamed(args: seq<string>, i: nat, s: Snapshot, load: Loader, title: string)
    requires Unnamed(s)
    ensures Unnamed(ScanFrom(args, i, s, load, title).snap)
    decreases |args| - i
  {
    if i < |args| {
      var st := ApplyRules(Rules, args, GoStrings.Trim(args[i]), Step(s, i, Scanning), load, title);
      ApplyRulesKeepUnnamed(Rules, args, GoStrings.Trim(args[i]), Step(s, i, Scanning), load, title);
      if st.status.Scanning? {
        ScanKeepsUnnamed(args, st.i + 1, st.snap, load, title);
      }
    }
  }

  /**
   * The default branch of run's switch is dead: a scan that names the
   * service has set an action flag, so neither "unknown action" nor the
   * index panic on os.Args[1] can happen.
   */
  lemma RunNeverUnknown(args: seq<string>, load: Loader, title: string)
    ensures !RunSpec(args, load, title).UnknownAction?
    ensures !RunSpec(args, load, title).ArgsIndexPanic?
  {
    ScanKeepsUnnamed(args, 1, Initial, load, title);
  }

  /** Every action run performs is one whose flag the scan set, for a named service. */
  lemma RunPerformsSetAction(args: seq<string>, load: Loader, title: string)
    ensures RunSpec(args, load, title).Perform? ==>
      var o := RunSpec(args, load, title);
      o.action in o.snap.actions && o.snap.conf.name != ""
      && o.snap == ScanFrom(args, 1, Initial, load, title).snap
  {
  }

  /** Without arguments after the program name, run reports the missing service name. */
  lemma NoArgumentsMissingName(args: seq<string>, load: Loader, title: string)
    requires |args| <= 1
    ensures RunSpec(args, load, title) == MissingServiceName
  {
  }

  /**
   * The service manager's command line "<exe> //RS//<Name>" starts the
   * registered service with its stored settings.
   */
  lemma RegisteredRunStarts(exe: string, c: Config, prev: ServiceConfig, load: Loader, title: string)
    requires c.name != "" && GoStrings.Trim(c.name) == c.name && '=' !in c.name && !GoStrings.Contains(c.name, "JvmOptions")
    requires load(EmptyConfig.(name := c.name)) == Ok(c)
    ensures RunSpec([exe] + MapServiceConfig(c, prev).arguments, load, title)
         == Perform(Start, Snapshot({Start}, c, MapServiceConfig(c, EmptyServiceConfig)))
  {
    RegisteredArgumentStarts(exe, c, prev, load, title);
  }
}
