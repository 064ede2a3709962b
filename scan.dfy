/**
 * The command-line scanner of Pgosrv (main.go, scanArgs with its argValue
 * helper, and loadConfig). Each of the scanner's consecutive `if` blocks is
 * one entry of the table `Rules`, kept in source order; for every argument the
 * blocks are tried in that order, each seeing the index that the previous
 * ones left behind.
 */
module Scan {
  import opened Wrappers
  import opened GoStrings
  import opened Config
  import Strconv
  import Seqs

  /** The part of a Pgosrv value that scanning and loading change. */
  datatype Snapshot = Snapshot(actions: set<Verb>, conf: Config, service: ServiceConfig)

  /** The zero value of a freshly allocated Pgosrv. */
  const Initial: Snapshot := Snapshot({}, EmptyConfig, EmptyServiceConfig)

  /**
   * The file read and JSON decoding of loadConfig: given the settings whose
   * name selects the file, the settings with the file's fields decoded over
   * them, or the error message.
   */
  type Loader = Config -> Result<Config, string>

  datatype ScanError = LoadFailed(message: string) | BadStopTimeout(value: string)

  /** Scanning goes on, stopped with an error, or panicked for want of a value. */
  datatype Status = Scanning | Failed(error: ScanError) | Panicked(arg: string)

  /** The state after a block: the settings, the loop index, and the status. */
  datatype Step = Step(snap: Snapshot, i: nat, status: Status)

  /** A value found by argValue, with the loop index it leaves. */
  datatype ArgVal = ArgVal(value: string, i: nat)

  // ---------------------------------------------------------------------
  // argValue

  /** argValue: None stands for its panic "Missing parameter to argument". */
  function ArgValue(args: seq<string>, arg: string, i: nat): (r: Option<ArgVal>)
    ensures r.Some? ==> r.value.i == i || (r.value.i == i + 1 && i + 1 < |args|)
    ensures r.None? <==> !Contains(arg, "=") && (|arg| <= 2 || !Contains(arg[2..], "//")) && i + 1 >= |args|
  {
    var p := IndexOf(arg, "=");
    if p != -1 then Some(ArgVal(Trim(arg[p + 1..]), i))
    else
      var q := if |arg| > 2 then IndexOf(arg[2..], "//") else -1;
      if q != -1 then Some(ArgVal(Trim(arg[q + 4..]), i))
      else if i + 1 < |args| then Some(ArgVal(Trim(args[i + 1]), i + 1))
      else None
  }

  /** "key=value": the value is the trimmed text after the first "=", and no argument is consumed. */
  lemma ArgValueAfterEquals(args: seq<string>, key: string, v: string, i: nat)
    requires '=' !in key
    ensures ArgValue(args, key + "=" + v, i) == Some(ArgVal(Trim(v), i))
  {
    IndexOfLead(key, "=", v);
    assert (key + "=" + v)[|key| + 1..] == v;
  }

  /** White space around the value after "=" is dropped, and nothing else. */
  lemma ArgValueTrimsPadding(args: seq<string>, key: string, pre: string, v: string, post: string, i: nat)
    requires '=' !in key
    requires forall k :: 0 <= k < |pre| ==> IsSpace(pre[k])
    requires forall k :: 0 <= k < |post| ==> IsSpace(post[k])
    requires v == [] || (!IsSpace(v[0]) && !IsSpace(v[|v| - 1]))
    ensures ArgValue(args, key + "=" + (pre + v + post), i) == Some(ArgVal(v, i))
  {
    ArgValueAfterEquals(args, key, pre + v + post, i);
    TrimPadded(pre, v, post);
  }

  /** argValue's second case: no "=", and a "//" after the first two characters. */
  lemma ArgValueSlashCase(args: seq<string>, arg: string, i: nat, q: nat)
    requires IndexOf(arg, "=") == -1 && |arg| > 2 && IndexOf(arg[2..], "//") == q
    ensures q + 4 <= |arg|
    ensures ArgValue(args, arg, i) == Some(ArgVal(Trim(arg[q + 4..]), i))
  {
  }

  /** "//XS//value" without "=": the value is the trimmed text after the "//" that follows the first two characters. */
  lemma ArgValueAfterSlashes(args: seq<string>, head: string, mid: string, v: string, i: nat)
    requires |head| == 2 && '/' !in mid
    requires '=' !in head && '=' !in mid && '=' !in v
    ensures ArgValue(args, head + mid + "//" + v, i) == Some(ArgVal(Trim(v), i))
  {
    var arg := head + mid + "//" + v;
    assert IndexOf(arg, "=") == -1 by {
      assert '=' !in arg;
      IndexOfAbsent(arg, "=");
    }
    assert IndexOf(arg[2..], "//") == |mid| by {
      Seqs.Assoc(head, mid, "//");
      Seqs.Parts3(head, mid + "//", v);
      IndexOfLead(mid, "//", v);
    }
    assert arg[|mid| + 4..] == v by {
      Seqs.Parts3(head + mid, "//", v);
    }
    ArgValueSlashCase(args, arg, i, |mid|);
  }

  /** A bare key consumes the next argument, trimmed, and advances the index by one; with none left it panics. */
  lemma ArgValueNextArgument(args: seq<string>, key: string, i: nat)
    requires '=' !in key && (|key| <= 2 || !Contains(key[2..], "//"))
    ensures i + 1 < |args| ==> ArgValue(args, key, i) == Some(ArgVal(Trim(args[i + 1]), i + 1))
    ensures i + 1 >= |args| ==> ArgValue(args, key, i) == None
  {
    IndexOfAbsent(key, "=");
  }

  /** A bare action code such as "//IS" takes the service name from the next argument. */
  lemma ActionCodeTakesNextArgument(args: seq<string>, v: Verb, i: nat)
    ensures i + 1 < |args| ==> ArgValue(args, VerbCode(v), i) == Some(ArgVal(Trim(args[i + 1]), i + 1))
    ensures i + 1 >= |args| ==> ArgValue(args, VerbCode(v), i) == None
  {
    var code := VerbCode(v);
    assert '/' !in code[2..];
    IndexOfAbsent(code[2..], "//");
    ArgValueNextArgument(args, code, i);
  }

  // ---------------------------------------------------------------------
  // The blocks of scanArgs

  /** What a block of scanArgs does once its test holds. */
  datatype Rule =
    | VerbRule(verb: Verb)
    | FieldRule(field: Field)
    | JvmOptionsRule
    | StopTimeoutRule

  /** The action blocks, in the order scanArgs tries them. */
  const Actions: seq<Rule> := [
    VerbRule(Test), VerbRule(Start), VerbRule(Stop), VerbRule(Install),
    VerbRule(Update), VerbRule(Uninstall), VerbRule(Print)
  ]

  /** The option blocks that follow them, in source order. */
  const Options: seq<Rule> := [
    FieldRule(Description), FieldRule(DisplayName), FieldRule(StartPath),
    FieldRule(Startup), FieldRule(JavaHome), FieldRule(Classpath),
    JvmOptionsRule,
    FieldRule(JvmMx), FieldRule(JvmMs), FieldRule(JvmSs), FieldRule(Jvm),
    FieldRule(StartMode), FieldRule(StopMode), FieldRule(StartClass),
    FieldRule(StopClass), FieldRule(StartMethod), FieldRule(StopMethod),
    StopTimeoutRule,
    FieldRule(LogPath), FieldRule(LogPrefix), FieldRule(LogLevel),
    FieldRule(ServiceUser), FieldRule(ServicePassword), FieldRule(PidFile)
  ]

  /** All blocks of scanArgs in the order it tries them. */
  const Rules: seq<Rule> := Actions + Options

  /** The prefix that selects an action ("//ES" selects Start as well). */
  function VerbCode(v: Verb): string {
    match v
    case Test => "//TS"
    case Start => "//RS"
    case Stop => "//SS"
    case Install => "//IS"
    case Update => "//US"
    case Uninstall => "//DS"
    case Print => "//PS"
  }

  /** The test of a block. */
  predicate Matches(rule: Rule, arg: string) {
    match rule
    case VerbRule(v) => HasPrefix(arg, VerbCode(v)) || (v == Start && HasPrefix(arg, "//ES"))
    case FieldRule(f) =>
      if f == Jvm then HasPrefix(arg, "--Jvm=") || arg == "--Jvm" else HasPrefix(arg, Key(f))
    case JvmOptionsRule => Contains(arg, "JvmOptions")
    case StopTimeoutRule => HasPrefix(arg, "--StopTimeout")
  }

  /** The settings "//IS" assigns after the name; LogPrefix takes the program title. */
  function InstallDefaults(c: Config, title: string): Config {
    c.(startup := "manual", jvm := "auto",
       startClass := "Main", startMethod := "main",
       stopClass := "Main", stopMethod := "main",
       stopTimeout := 20, logPath := "", logPrefix := title, logLevel := "Info")
  }

  /**
   * loadConfig: decode the configuration file over the settings, then derive
   * the service-manager configuration from them.
   */
  function LoadConfig(s: Snapshot, load: Loader): (r: Result<Snapshot, string>)
    ensures r.Ok? <==> load(s.conf).Ok?
    ensures r.Ok? ==> r.value == Snapshot(s.actions, load(s.conf).value, MapServiceConfig(load(s.conf).value, s.service))
  {
    match load(s.conf)
    case Err(msg) => Err(msg)
    case Ok(c) => Ok(Snapshot(s.actions, c, MapServiceConfig(c, s.service)))
  }

  /** The body of a block whose test holds, given the value argValue found and the index it left. */
  function Assign(rule: Rule, arg: string, v: string, s: Snapshot, i: nat, load: Loader, title: string): (r: Step)
    ensures r.i == i
  {
    match rule
    case VerbRule(verb) =>
      var named := s.(actions := s.actions + {verb}, conf := s.conf.(name := v));
      if verb == Install then
        Step(named.(conf := InstallDefaults(named.conf, title)), i, Scanning)
      else
        (match LoadConfig(named, load)
         case Ok(loaded) => Step(loaded, i, Scanning)
         case Err(msg) => Step(named, i, Failed(LoadFailed(msg))))
    case FieldRule(f) => Step(s.(conf := Set(s.conf, f, v)), i, Scanning)
    case JvmOptionsRule =>
      var values := Split(v, ';');
      var options := if HasPrefix(arg, "++") then s.conf.jvmOptions + values else values;
      Step(s.(conf := s.conf.(jvmOptions := options)), i, Scanning)
    case StopTimeoutRule =>
      var n := Strconv.Atoi(v);
      Step(s.(conf := s.conf.(stopTimeout := n.value)), i, if n.ok then Scanning else Failed(BadStopTimeout(v)))
  }

  /** One block: nothing happens unless its test holds. */
  function ApplyRule(rule: Rule, args: seq<string>, arg: string, s: Snapshot, i: nat, load: Loader, title: string): (r: Step)
    requires i < |args|
    ensures i <= r.i < |args|
  {
    if !Matches(rule, arg) then Step(s, i, Scanning)
    else
      match ArgValue(args, arg, i)
      case None => Step(s, i, Panicked(arg))
      case Some(a) => Assign(rule, arg, a.value, s, a.i, load, title)
  }

  /** The blocks tried in order on one argument, stopping at the first error. */
  function ApplyRules(rules: seq<Rule>, args: seq<string>, arg: string, st: Step, load: Loader, title: string): (r: Step)
    requires st.i < |args|
    ensures st.i <= r.i < |args|
    decreases |rules|
  {
    if rules == [] || !st.status.Scanning? then st
    else ApplyRules(rules[1..], args, arg, ApplyRule(rules[0], args, arg, st.snap, st.i, load, title), load, title)
  }

  /** scanArgs from index i on: each argument is trimmed, then every block is tried on it. */
  function ScanFrom(args: seq<string>, i: nat, s: Snapshot, load: Loader, title: string): (r: Step)
    ensures r.status.Scanning? ==> r.i >= |args|
    decreases |args| - i
  {
    if i >= |args| then Step(s, i, Scanning)
    else
      var st := ApplyRules(Rules, args, Trim(args[i]), Step(s, i, Scanning), load, title);
      if st.status.Scanning? then ScanFrom(args, st.i + 1, st.snap, load, title) else st
  }

  // ---------------------------------------------------------------------
  // Which blocks an argument selects

  /** Blocks whose tests fail leave the state alone. */
  lemma {:induction false} ApplyRulesIdle(rules: seq<Rule>, args: seq<string>, arg: string, st: Step, load: Loader, title: string)
    requires st.i < |args|
    requires forall q :: q in rules ==> !Matches(q, arg)
    ensures ApplyRules(rules, args, arg, st, load, title) == st
    decreases |rules|
  {
    if rules != [] && st.status.Scanning? {
      assert rules[0] in rules;
      forall q | q in rules[1..] ensures !Matches(q, arg) {
        assert q in rules;
      }
      ApplyRulesIdle(rules[1..], args, arg, st, load, title);
    }
  }

  /** When only rules[k] tests true, the whole argument does what that block does. */
  lemma {:induction false} ApplyRulesOnly(rules: seq<Rule>, k: nat, args: seq<string>, arg: string, st: Step, load: Loader, title: string)
    requires st.i < |args| && st.status == Scanning && k < |rules|
    requires forall q :: q in rules[..k] ==> !Matches(q, arg)
    requires forall q :: q in rules[k + 1..] ==> !Matches(q, arg)
    ensures ApplyRules(rules, args, arg, st, load, title) == ApplyRule(rules[k], args, arg, st.snap, st.i, load, title)
    decreases k
  {
    var first := ApplyRule(rules[0], args, arg, st.snap, st.i, load, title);
    if k == 0 {
      assert rules[1..] == rules[k + 1..];
      ApplyRulesIdle(rules[1..], args, arg, first, load, title);
    } else {
      assert rules[0] in rules[..k];
      assert first == st;
      assert rules[1..][..k - 1] == rules[1..k];
      forall q | q in rules[1..k] ensures !Matches(q, arg) {
        assert q in rules[..k];
      }
      assert rules[1..][k..] == rules[k + 1..];
      ApplyRulesOnly(rules[1..], k - 1, args, arg, st, load, title);
    }
  }

  /** An option key never selects an action. */
  lemma OptionsSelectNoAction(arg: string, v: Verb)
    requires |arg| > 0 && arg[0] != '/'
    ensures !Matches(VerbRule(v), arg)
  {
  }

  /** A "//" argument selects no option block, unless it mentions JvmOptions. */
  lemma ActionsSetNoOption(arg: string, q: Rule)
    requires |arg| > 0 && arg[0] == '/'
    requires !q.VerbRule? && !q.JvmOptionsRule?
    ensures !Matches(q, arg)
  {
    match q
    case FieldRule(f) =>
      assert Key(f)[0] == '-';
    case StopTimeoutRule =>
  }

  /** Each action code selects its own action only. */
  lemma VerbCodeSelects(arg: string, v: Verb, u: Verb)
    requires HasPrefix(arg, VerbCode(v))
    ensures Matches(VerbRule(u), arg) <==> u == v
  {
    assert arg[2] == VerbCode(v)[2];
  }

  /** Running two lists of blocks one after the other is running their concatenation. */
  lemma {:induction false} ApplyRulesAppend(a: seq<Rule>, b: seq<Rule>, args: seq<string>, arg: string, st: Step, load: Loader, title: string)
    requires st.i < |args|
    ensures ApplyRules(a + b, args, arg, st, load, title) == ApplyRules(b, args, arg, ApplyRules(a, args, arg, st, load, title), load, title)
    decreases |a|
  {
    if a == [] {
      assert a + b == b;
    } else if st.status.Scanning? {
      assert (a + b)[1..] == a[1..] + b;
      ApplyRulesAppend(a[1..], b, args, arg, ApplyRule(a[0], args, arg, st.snap, st.i, load, title), load, title);
    } else {
      ApplyRulesIdleAfterStop(b, args, arg, st, load, title);
    }
  }

  /** Once a block has stopped the scan, the later blocks do nothing. */
  lemma ApplyRulesIdleAfterStop(rules: seq<Rule>, args: seq<string>, arg: string, st: Step, load: Loader, title: string)
    requires st.i < |args| && !st.status.Scanning?
    ensures ApplyRules(rules, args, arg, st, load, title) == st
  {
  }

  /** The position of an action's block among the action blocks. */
  function VerbIndex(v: Verb): (k: nat)
    ensures k < |Actions| && Actions[k] == VerbRule(v)
    ensures VerbRule(v) !in Actions[..k] && VerbRule(v) !in Actions[k + 1..]
  {
    match v
    case Test => 0
    case Start => 1
    case Stop => 2
    case Install => 3
    case Update => 4
    case Uninstall => 5
    case Print => 6
  }

  /** Where the JvmOptions block sits among the option blocks. */
  lemma JvmOptionsPosition()
    ensures Options[6] == JvmOptionsRule
    ensures forall q :: q in Options[..6] ==> q in Options && q.FieldRule?
    ensures forall q :: q in Options[7..] ==> q in Options && (q.FieldRule? || q.StopTimeoutRule?)
  {
    assert Options[..6] == [FieldRule(Description), FieldRule(DisplayName), FieldRule(StartPath),
      FieldRule(Startup), FieldRule(JavaHome), FieldRule(Classpath)];
  }

  /** Where the StopTimeout block sits among the option blocks. */
  lemma StopTimeoutPosition()
    ensures Options[17] == StopTimeoutRule
    ensures forall q :: q in Options[..17] ==> q in Options && (q.FieldRule? || q.JvmOptionsRule?)
    ensures forall q :: q in Options[18..] ==> q in Options && q.FieldRule?
  {
    assert Options[18..] == [FieldRule(LogPath), FieldRule(LogPrefix), FieldRule(LogLevel),
      FieldRule(ServiceUser), FieldRule(ServicePassword), FieldRule(PidFile)];
  }

  /** The option blocks never test for an action code. */
  lemma OptionsAreNoActions(q: Rule)
    requires q in Options
    ensures !q.VerbRule?
  {
  }

  /** An argument starting with an action code passes the test of that action's block and of no other. */
  lemma ActionArgumentTests(arg: string, v: Verb)
    requires HasPrefix(arg, VerbCode(v)) && !Contains(arg, "JvmOptions")
    ensures forall q :: q in Actions[..VerbIndex(v)] ==> !Matches(q, arg)
    ensures forall q :: q in Actions[VerbIndex(v) + 1..] ==> !Matches(q, arg)
    ensures forall q :: q in Options ==> !Matches(q, arg)
  {
    var k := VerbIndex(v);
    forall q | q in Actions[..k] || q in Actions[k + 1..]
      ensures !Matches(q, arg)
    {
      assert q in Actions;
      VerbCodeSelects(arg, v, q.verb);
    }
    forall q | q in Options
      ensures !Matches(q, arg)
    {
      OptionsAreNoActions(q);
      if !q.JvmOptionsRule? {
        ActionsSetNoOption(arg, q);
      }
    }
  }

  /** An argument starting with an action code runs that action's block and no other. */
  lemma ActionArgument(args: seq<string>, arg: string, v: Verb, st: Step, load: Loader, title: string)
    requires st.i < |args| && st.status == Scanning
    requires HasPrefix(arg, VerbCode(v)) && !Contains(arg, "JvmOptions")
    ensures ApplyRules(Rules, args, arg, st, load, title) == ApplyRule(VerbRule(v), args, arg, st.snap, st.i, load, title)
  {
    ActionArgumentTests(arg, v);
    ApplyRulesOnly(Actions, VerbIndex(v), args, arg, st, load, title);
    ApplyRulesIdle(Options, args, arg, ApplyRules(Actions, args, arg, st, load, title), load, title);
    ApplyRulesAppend(Actions, Options, args, arg, st, load, title);
  }

  /** "--StopTimeout" shares a prefix with no other option key. */
  lemma StopTimeoutKeyIsNoField(arg: string, f: Field)
    requires HasPrefix(arg, "--StopTimeout")
    ensures !Matches(FieldRule(f), arg)
  {
    assert arg[..13] == "--StopTimeout";
    assert arg[2] == 'S' && arg[3] == 't' && arg[4] == 'o' && arg[6] == 'T' by {
      assert arg[..13][2] == arg[2] && arg[..13][3] == arg[3] && arg[..13][4] == arg[4] && arg[..13][6] == arg[6];
    }
    match f
    case StartPath => DiffersAt(arg, Key(f), 4);
    case Startup => DiffersAt(arg, Key(f), 4);
    case StartMode => DiffersAt(arg, Key(f), 4);
    case StartClass => DiffersAt(arg, Key(f), 4);
    case StartMethod => DiffersAt(arg, Key(f), 4);
    case StopMode => DiffersAt(arg, Key(f), 6);
    case StopClass => DiffersAt(arg, Key(f), 6);
    case StopMethod => DiffersAt(arg, Key(f), 6);
    case ServiceUser => DiffersAt(arg, Key(f), 3);
    case ServicePassword => DiffersAt(arg, Key(f), 3);
    case Jvm => DiffersAt(arg, "--Jvm=", 2);
    case _ => DiffersAt(arg, Key(f), 2);
  }

  /** "--JvmOptions" and "++JvmOptions" share a prefix with no option key. */
  lemma JvmOptionsKeyIsNoField(arg: string, f: Field)
    requires HasPrefix(arg, "--JvmOptions") || HasPrefix(arg, "++JvmOptions")
    ensures !Matches(FieldRule(f), arg)
  {
    if HasPrefix(arg, "++JvmOptions") {
      assert arg[0] == arg[..12][0];
      if f == Jvm {
        DiffersAt(arg, "--Jvm=", 0);
      } else {
        DiffersAt(arg, Key(f), 0);
      }
    } else {
      DashJvmOptionsKeyIsNoField(arg, f);
    }
  }

  lemma DashJvmOptionsKeyIsNoField(arg: string, f: Field)
    requires HasPrefix(arg, "--JvmOptions")
    ensures !Matches(FieldRule(f), arg)
  {
    assert arg[2] == 'J' && arg[3] == 'v' && arg[5] == 'O' by {
      assert arg[..12][2] == arg[2] && arg[..12][3] == arg[3] && arg[..12][5] == arg[5];
    }
    match f
    case JavaHome => DiffersAt(arg, Key(f), 3);
    case JvmMx => DiffersAt(arg, Key(f), 5);
    case JvmMs => DiffersAt(arg, Key(f), 5);
    case JvmSs => DiffersAt(arg, Key(f), 5);
    case Jvm => DiffersAt(arg, "--Jvm=", 5);
    case _ => DiffersAt(arg, Key(f), 2);
  }

  /** An option argument whose only block is Options[k] runs that block alone. */
  lemma OptionArgument(args: seq<string>, arg: string, k: nat, st: Step, load: Loader, title: string)
    requires st.i < |args| && st.status == Scanning && k < |Options|
    requires |arg| > 0 && arg[0] != '/'
    requires forall q :: q in Options[..k] ==> !Matches(q, arg)
    requires forall q :: q in Options[k + 1..] ==> !Matches(q, arg)
    ensures ApplyRules(Rules, args, arg, st, load, title) == ApplyRule(Options[k], args, arg, st.snap, st.i, load, title)
  {
    forall q | q in Actions
      ensures !Matches(q, arg)
    {
      OptionsSelectNoAction(arg, q.verb);
    }
    ApplyRulesIdle(Actions, args, arg, st, load, title);
    ApplyRulesOnly(Options, k, args, arg, st, load, title);
    ApplyRulesAppend(Actions, Options, args, arg, st, load, title);
  }

  // ---------------------------------------------------------------------
  // What whole arguments do

  /** When an argument's blocks let scanning go on, the scan continues after the index they left. */
  lemma ScanFromContinues(args: seq<string>, i: nat, s: Snapshot, load: Loader, title: string, next: Snapshot, j: nat)
    requires i < |args| && ApplyRules(Rules, args, Trim(args[i]), Step(s, i, Scanning), load, title) == Step(next, j, Scanning)
    ensures ScanFrom(args, i, s, load, title) == ScanFrom(args, j + 1, next, load, title)
  {
  }

  /** When an argument's blocks stop the scan, their outcome is the outcome of the scan. */
  lemma ScanFromStops(args: seq<string>, i: nat, s: Snapshot, load: Loader, title: string, st: Step)
    requires i < |args| && ApplyRules(Rules, args, Trim(args[i]), Step(s, i, Scanning), load, title) == st
    requires !st.status.Scanning?
    ensures ScanFrom(args, i, s, load, title) == st
  {
  }

  /** An action code followed by "//<name>" passes its block's test and carries the trimmed name as its value. */
  lemma ActionValue(args: seq<string>, i: nat, v: Verb, name: string)
    requires '=' !in name && !Contains(name, "JvmOptions")
    ensures Matches(VerbRule(v), VerbCode(v) + "//" + name)
    ensures ArgValue(args, VerbCode(v) + "//" + name, i) == Some(ArgVal(Trim(name), i))
    ensures !Contains(VerbCode(v) + "//" + name, "JvmOptions")
  {
    ActionCodeMatches(v, name);
    ActionCodeValue(args, i, v, name);
    ContainsBehind(VerbCode(v) + "//", name, "JvmOptions");
  }

  lemma ActionCodeMatches(v: Verb, name: string)
    ensures Matches(VerbRule(v), VerbCode(v) + "//" + name)
  {
    var arg := VerbCode(v) + "//" + name;
    assert arg[..4] == VerbCode(v);
  }

  lemma ActionCodeValue(args: seq<string>, i: nat, v: Verb, name: string)
    requires '=' !in name
    ensures ArgValue(args, VerbCode(v) + "//" + name, i) == Some(ArgVal(Trim(name), i))
  {
    var code := VerbCode(v);
    assert code == "//" + code[2..];
    assert code + "//" + name == "//" + code[2..] + "//" + name;
    ArgValueAfterSlashes(args, "//", code[2..], name, i);
  }

  /** An action code followed by "//<name>" runs that action's block alone, with the trimmed name as its value. */
  lemma ActionBlock(args: seq<string>, i: nat, v: Verb, name: string, s: Snapshot, load: Loader, title: string)
    requires i < |args| && Trim(args[i]) == VerbCode(v) + "//" + name
    requires '=' !in name && !Contains(name, "JvmOptions")
    ensures ApplyRules(Rules, args, Trim(args[i]), Step(s, i, Scanning), load, title)
         == Assign(VerbRule(v), Trim(args[i]), Trim(name), s, i, load, title)
  {
    ActionValue(args, i, v, name);
    ActionArgument(args, Trim(args[i]), v, Step(s, i, Scanning), load, title);
  }

  /** The settings after "//IS//<name>": the install action, the name, and the install defaults. */
  function Installed(s: Snapshot, name: string, title: string): Snapshot {
    s.(actions := s.actions + {Install},
       conf := s.conf.(name := name, startup := "manual", jvm := "auto",
                       startClass := "Main", startMethod := "main",
                       stopClass := "Main", stopMethod := "main",
                       stopTimeout := 20, logPath := "", logPrefix := title,
                       logLevel := "Info"))
  }

  lemma InstallBlock(args: seq<string>, i: nat, name: string, s: Snapshot, load: Loader, title: string)
    requires i < |args| && Trim(args[i]) == "//IS//" + name
    requires '=' !in name && !Contains(name, "JvmOptions")
    ensures ApplyRules(Rules, args, Trim(args[i]), Step(s, i, Scanning), load, title) == Step(Installed(s, Trim(name), title), i, Scanning)
  {
    assert VerbCode(Install) + "//" + name == "//IS//" + name;
    ActionBlock(args, i, Install, name, s, load, title);
  }

  /**
   * "//IS//<name>" records the install action, sets the name, and applies the
   * install defaults; no configuration file is read, and scanning goes on
   * with the next argument.
   */
  lemma InstallArgument(args: seq<string>, i: nat, name: string, s: Snapshot, load: Loader, title: string)
    requires i < |args| && Trim(args[i]) == "//IS//" + name
    requires '=' !in name && !Contains(name, "JvmOptions")
    ensures ScanFrom(args, i, s, load, title) == ScanFrom(args, i + 1, Installed(s, Trim(name), title), load, title)
  {
    InstallBlock(args, i, name, s, load, title);
    ScanFromContinues(args, i, s, load, title, Installed(s, Trim(name), title), i);
  }

  /**
   * Any other action code with "//<name>" records the action, sets the name,
   * and loads that service's configuration; a failing load stops the scan.
   */
  lemma LoadingActionArgument(args: seq<string>, i: nat, v: Verb, name: string, s: Snapshot, load: Loader, title: string)
    requires v != Install
    requires i < |args| && Trim(args[i]) == VerbCode(v) + "//" + name
    requires '=' !in name && !Contains(name, "JvmOptions")
    ensures var named := s.(actions := s.actions + {v}, conf := s.conf.(name := Trim(name)));
      ScanFrom(args, i, s, load, title) ==
        match load(named.conf)
        case Ok(c) => ScanFrom(args, i + 1, Snapshot(named.actions, c, MapServiceConfig(c, s.service)), load, title)
        case Err(msg) => Step(named, i, Failed(LoadFailed(msg)))
  {
    var named := s.(actions := s.actions + {v}, conf := s.conf.(name := Trim(name)));
    ActionBlock(args, i, v, name, s, load, title);
    match load(named.conf)
    case Ok(c) =>
      ScanFromContinues(args, i, s, load, title, Snapshot(named.actions, c, MapServiceConfig(c, s.service)), i);
    case Err(msg) =>
      assert LoadConfig(named, load) == Err(msg);
      ScanFromStops(args, i, s, load, title, Step(named, i, Failed(LoadFailed(msg))));
  }

  /**
   * The argument that loadConfig registers with the service manager,
   * "//RS//<Name>", selects the start action for the same service and reads
   * back the stored settings.
   */
  lemma RegisteredArgumentStarts(exe: string, c: Config, prev: ServiceConfig, load: Loader, title: string)
    requires Trim(c.name) == c.name && '=' !in c.name && !Contains(c.name, "JvmOptions")
    requires load(EmptyConfig.(name := c.name)) == Ok(c)
    ensures ScanFrom([exe] + MapServiceConfig(c, prev).arguments, 1, Initial, load, title)
         == Step(Snapshot({Start}, c, MapServiceConfig(c, EmptyServiceConfig)), 2, Scanning)
  {
    var args := [exe] + MapServiceConfig(c, prev).arguments;
    var arg := "//RS//" + c.name;
    assert Trim(arg) == arg by {
      if c.name != [] {
        assert arg[|arg| - 1] == c.name[|c.name| - 1];
      }
      TrimFixed(arg);
    }
    assert args[1] == VerbCode(Start) + "//" + c.name;
    LoadingActionArgument(args, 1, Start, c.name, Initial, load, title);
  }

  /**
   * As written, a service name with '=' does not survive registration: the
   * registered argument "//RS//<n1>=<n2>" is cut at the '=', so the service
   * manager's run loads the settings of n2, trimmed, instead of the
   * service's own.
   */
  lemma RegisteredNameCutAtEquals(exe: string, n1: string, n2: string, prev: ServiceConfig, load: Loader, title: string)
    requires '=' !in n1 && Trim(n1 + "=" + n2) == n1 + "=" + n2 && !Contains(n1 + "=" + n2, "JvmOptions")
    ensures Trim(n2) != n1 + "=" + n2
    ensures var args := [exe] + MapServiceConfig(EmptyConfig.(name := n1 + "=" + n2), prev).arguments;
      var named := Snapshot({Start}, EmptyConfig.(name := Trim(n2)), EmptyServiceConfig);
      ScanFrom(args, 1, Initial, load, title) ==
        match load(named.conf)
        case Ok(c) => Step(Snapshot({Start}, c, MapServiceConfig(c, EmptyServiceConfig)), 2, Scanning)
        case Err(msg) => Step(named, 1, Failed(LoadFailed(msg)))
  {
    var name := n1 + "=" + n2;
    var args := [exe] + MapServiceConfig(EmptyConfig.(name := name), prev).arguments;
    assert args[1] == "//RS//" + name;
    RegisteredArgumentTrimmed(name);
    EqualsNameBlock(args, 1, n1, n2, Initial, load, title);
    var named := Snapshot({Start}, EmptyConfig.(name := Trim(n2)), EmptyServiceConfig);
    match load(named.conf)
    case Ok(c) =>
      ScanFromContinues(args, 1, Initial, load, title, Snapshot({Start}, c, MapServiceConfig(c, EmptyServiceConfig)), 1);
    case Err(msg) =>
      assert LoadConfig(named, load) == Err(msg);
      ScanFromStops(args, 1, Initial, load, title, Step(named, 1, Failed(LoadFailed(msg))));
  }

  /** The registered argument of a trimmed, non-empty name is itself trimmed. */
  lemma RegisteredArgumentTrimmed(name: string)
    requires name != [] && Trim(name) == name
    ensures Trim("//RS//" + name) == "//RS//" + name
  {
    var arg := "//RS//" + name;
    assert arg[|arg| - 1] == name[|name| - 1];
    TrimFixed(arg);
  }

  /** "//RS//<n1>=<n2>" runs the start block alone, with the trimmed text after '=' as the name. */
  lemma EqualsNameBlock(args: seq<string>, i: nat, n1: string, n2: string, s: Snapshot, load: Loader, title: string)
    requires i < |args| && Trim(args[i]) == "//RS//" + n1 + "=" + n2
    requires '=' !in n1 && !Contains(n1 + "=" + n2, "JvmOptions")
    ensures ApplyRules(Rules, args, Trim(args[i]), Step(s, i, Scanning), load, title)
         == Assign(VerbRule(Start), Trim(args[i]), Trim(n2), s, i, load, title)
  {
    var arg := Trim(args[i]);
    assert HasPrefix(arg, VerbCode(Start)) by {
      assert arg[..4] == "//RS";
    }
    assert !Contains(arg, "JvmOptions") by {
      assert arg == "//RS//" + (n1 + "=" + n2);
      ContainsBehind("//RS//", n1 + "=" + n2, "JvmOptions");
    }
    assert ArgValue(args, arg, i) == Some(ArgVal(Trim(n2), i)) by {
      assert arg == ("//RS//" + n1) + "=" + n2;
      ArgValueAfterEquals(args, "//RS//" + n1, n2, i);
    }
    ActionArgument(args, arg, Start, Step(s, i, Scanning), load, title);
  }

  /**
   * As written, a service name containing "JvmOptions" also fires the
   * JvmOptions block on the registered argument: the loaded options are
   * replaced by the pieces of the name.
   */
  lemma RegisteredNameSetsJvmOptions(exe: string, c: Config, prev: ServiceConfig, load: Loader, title: string)
    requires Trim(c.name) == c.name && '=' !in c.name && Contains(c.name, "JvmOptions")
    requires load(EmptyConfig.(name := c.name)) == Ok(c)
    ensures ScanFrom([exe] + MapServiceConfig(c, prev).arguments, 1, Initial, load, title)
         == Step(Snapshot({Start}, c.(jvmOptions := Split(c.name, ';')), MapServiceConfig(c, EmptyServiceConfig)), 2, Scanning)
  {
    var args := [exe] + MapServiceConfig(c, prev).arguments;
    assert args == [exe, "//RS//" + c.name];
    assert c.name != [] by {
      if c.name == [] {
        IndexOfAbsent(c.name, "JvmOptions");
      }
    }
    RegisteredArgumentTrimmed(c.name);
    RegisteredJvmOptionsBlocks(args, c, load, title);
    var next := Snapshot({Start}, c.(jvmOptions := Split(c.name, ';')), MapServiceConfig(c, EmptyServiceConfig));
    ScanFromContinues(args, 1, Initial, load, title, next, 1);
  }

  /** The blocks that the registered argument of such a name runs: start, then JvmOptions. */
  lemma RegisteredJvmOptionsBlocks(args: seq<string>, c: Config, load: Loader, title: string)
    requires |args| > 1 && args[1] == "//RS//" + c.name
    requires Trim(c.name) == c.name && '=' !in c.name && c.name != [] && Contains(c.name, "JvmOptions")
    requires load(EmptyConfig.(name := c.name)) == Ok(c)
    ensures ApplyRules(Rules, args, "//RS//" + c.name, Step(Initial, 1, Scanning), load, title)
         == Step(Snapshot({Start}, c.(jvmOptions := Split(c.name, ';')), MapServiceConfig(c, EmptyServiceConfig)), 1, Scanning)
  {
    var arg := "//RS//" + c.name;
    var loaded := Snapshot({Start}, c, MapServiceConfig(c, EmptyServiceConfig));
    RegisteredActions(args, c, load, title);
    assert Contains(arg, "JvmOptions") by {
      ContainsBehind("//RS//", c.name, "JvmOptions");
    }
    assert ArgValue(args, arg, 1) == Some(ArgVal(c.name, 1)) by {
      assert arg == VerbCode(Start) + "//" + c.name;
      ActionCodeValue(args, 1, Start, c.name);
    }
    StartThenJvmOptions(args, 1, arg, c.name, Initial, loaded, load, title);
  }

  /** Of the action blocks, the registered argument runs the start block alone, which loads the stored settings. */
  lemma RegisteredActions(args: seq<string>, c: Config, load: Loader, title: string)
    requires |args| > 1 && args[1] == "//RS//" + c.name
    requires Trim(c.name) == c.name && '=' !in c.name && c.name != []
    requires load(EmptyConfig.(name := c.name)) == Ok(c)
    ensures ApplyRules(Actions, args, "//RS//" + c.name, Step(Initial, 1, Scanning), load, title)
         == Step(Snapshot({Start}, c, MapServiceConfig(c, EmptyServiceConfig)), 1, Scanning)
  {
    RegisteredArgumentTrimmed(c.name);
    var named := Initial.(actions := Initial.actions + {Start}, conf := Initial.conf.(name := c.name));
    assert named.conf == EmptyConfig.(name := c.name) && named.actions == {Start};
    assert LoadConfig(named, load) == Ok(Snapshot({Start}, c, MapServiceConfig(c, EmptyServiceConfig)));
    StartCodeActions(args, 1, c.name, Initial, load, title);
  }

  /**
   * An argument that starts with '/', contains "JvmOptions" and runs an
   * action block: the JvmOptions block runs next and replaces the options
   * by the pieces of its value.
   */
  lemma StartThenJvmOptions(args: seq<string>, i: nat, arg: string, v: string, s: Snapshot, loaded: Snapshot, load: Loader, title: string)
    requires i < |args| && |arg| > 0 && arg[0] == '/' && Contains(arg, "JvmOptions")
    requires ArgValue(args, arg, i) == Some(ArgVal(v, i))
    requires ApplyRules(Actions, args, arg, Step(s, i, Scanning), load, title) == Step(loaded, i, Scanning)
    ensures ApplyRules(Rules, args, arg, Step(s, i, Scanning), load, title)
         == Step(loaded.(conf := loaded.conf.(jvmOptions := Split(v, ';'))), i, Scanning)
  {
    SlashArgumentOptions(args, i, arg, v, loaded, load, title);
    ApplyRulesAppend(Actions, Options, args, arg, Step(s, i, Scanning), load, title);
  }

  /** Of the action blocks, "//RS//<name>" runs the start block alone. */
  lemma StartCodeActions(args: seq<string>, i: nat, name: string, s: Snapshot, load: Loader, title: string)
    requires i < |args| && Trim(args[i]) == "//RS//" + name && '=' !in name
    ensures ApplyRules(Actions, args, Trim(args[i]), Step(s, i, Scanning), load, title)
         == Assign(VerbRule(Start), Trim(args[i]), Trim(name), s, i, load, title)
  {
    var arg := Trim(args[i]);
    assert arg == VerbCode(Start) + "//" + name;
    ActionCodeMatches(Start, name);
    ActionCodeValue(args, i, Start, name);
    forall q | q in Actions[..1] || q in Actions[2..]
      ensures !Matches(q, arg)
    {
      assert q in Actions;
      VerbCodeSelects(arg, Start, q.verb);
    }
    ApplyRulesOnly(Actions, 1, args, arg, Step(s, i, Scanning), load, title);
  }

  /**
   * Of the option blocks, an argument that starts with '/' and contains
   * "JvmOptions" runs the JvmOptions block alone, which replaces the options.
   */
  lemma SlashArgumentOptions(args: seq<string>, i: nat, arg: string, v: string, s: Snapshot, load: Loader, title: string)
    requires i < |args| && |arg| > 0 && arg[0] == '/' && Contains(arg, "JvmOptions")
    requires ArgValue(args, arg, i) == Some(ArgVal(v, i))
    ensures ApplyRules(Options, args, arg, Step(s, i, Scanning), load, title)
         == Step(s.(conf := s.conf.(jvmOptions := Split(v, ';'))), i, Scanning)
  {
    JvmOptionsPosition();
    forall q | q in Options[..6] || q in Options[7..]
      ensures !Matches(q, arg)
    {
      ActionsSetNoOption(arg, q);
    }
    ApplyRulesOnly(Options, 6, args, arg, Step(s, i, Scanning), load, title);
    assert !HasPrefix(arg, "++") by {
      DiffersAt(arg, "++", 0);
    }
  }

  /**
   * With the start code and the name as separate arguments, every service
   * name that scanning can store (argValue trims it) scans back to the
   * start action with the stored settings, '=' and "JvmOptions" included.
   */
  lemma CorrectedRegistrationStarts(exe: string, c: Config, load: Loader, title: string)
    requires Trim(c.name) == c.name
    requires load(EmptyConfig.(name := c.name)) == Ok(c)
    ensures ScanFrom([exe] + RegisteredArguments(c.name), 1, Initial, load, title)
         == Step(Snapshot({Start}, c, MapServiceConfig(c, EmptyServiceConfig)), 3, Scanning)
  {
    var args := [exe] + RegisteredArguments(c.name);
    assert args == [exe, "//RS", c.name];
    assert Trim("//RS") == "//RS" by {
      TrimFixed("//RS");
    }
    StartCodeTakesName(args, c, load, title);
    var loaded := Snapshot({Start}, c, MapServiceConfig(c, EmptyServiceConfig));
    ScanFromContinues(args, 1, Initial, load, title, loaded, 2);
  }

  /** The bare start code runs the start block alone, with the next argument as the name. */
  lemma StartCodeTakesName(args: seq<string>, c: Config, load: Loader, title: string)
    requires |args| > 2 && args[1] == "//RS" && args[2] == c.name && Trim(c.name) == c.name
    requires load(EmptyConfig.(name := c.name)) == Ok(c)
    ensures ApplyRules(Rules, args, "//RS", Step(Initial, 1, Scanning), load, title)
         == Step(Snapshot({Start}, c, MapServiceConfig(c, EmptyServiceConfig)), 2, Scanning)
  {
    var code := VerbCode(Start);
    assert HasPrefix(code, VerbCode(Start));
    assert !Contains(code, "JvmOptions") by {
      IndexOfAbsent(code, "JvmOptions");
    }
    ActionArgument(args, code, Start, Step(Initial, 1, Scanning), load, title);
    ActionCodeTakesNextArgument(args, Start, 1);
    var named := Initial.(actions := Initial.actions + {Start}, conf := Initial.conf.(name := c.name));
    assert named.conf == EmptyConfig.(name := c.name) && named.actions == {Start};
  }

  /** An argument starting with "--StopTimeout" fails the tests of the option blocks other than StopTimeout's. */
  lemma StopTimeoutTests(arg: string)
    requires HasPrefix(arg, "--StopTimeout") && !Contains(arg, "JvmOptions")
    ensures Options[17] == StopTimeoutRule
    ensures forall q :: q in Options[..17] ==> !Matches(q, arg)
    ensures forall q :: q in Options[18..] ==> !Matches(q, arg)
  {
    StopTimeoutPosition();
    forall q | q in Options[..17] || q in Options[18..]
      ensures !Matches(q, arg)
    {
      if q.FieldRule? {
        StopTimeoutKeyIsNoField(arg, q.field);
      }
    }
  }

  /** An argument starting with "--JvmOptions" or "++JvmOptions" fails the tests of the other option blocks. */
  lemma JvmOptionsTests(arg: string)
    requires HasPrefix(arg, "--JvmOptions") || HasPrefix(arg, "++JvmOptions")
    ensures Options[6] == JvmOptionsRule
    ensures forall q :: q in Options[..6] ==> !Matches(q, arg)
    ensures forall q :: q in Options[7..] ==> !Matches(q, arg)
  {
    JvmOptionsPosition();
    assert !HasPrefix(arg, "--StopTimeout") by {
      assert arg[2] == arg[..12][2];
      DiffersAt(arg, "--StopTimeout", 2);
    }
    forall q | q in Options[..6] || q in Options[7..]
      ensures !Matches(q, arg)
    {
      if q.FieldRule? {
        JvmOptionsKeyIsNoField(arg, q.field);
      }
    }
  }

  /** "--StopTimeout=<v>" passes the test of the StopTimeout block alone and carries the trimmed v. */
  lemma StopTimeoutValue(args: seq<string>, i: nat, v: string)
    requires !Contains(v, "JvmOptions")
    ensures Options[17] == StopTimeoutRule
    ensures Matches(StopTimeoutRule, "--StopTimeout=" + v)
    ensures forall q :: q in Options[..17] ==> !Matches(q, "--StopTimeout=" + v)
    ensures forall q :: q in Options[18..] ==> !Matches(q, "--StopTimeout=" + v)
    ensures ArgValue(args, "--StopTimeout=" + v, i) == Some(ArgVal(Trim(v), i))
  {
    var arg := "--StopTimeout=" + v;
    assert HasPrefix(arg, "--StopTimeout") by {
      assert arg[..13] == "--StopTimeout";
    }
    assert !Contains(arg, "JvmOptions") by {
      ContainsBehind("--StopTimeout=", v, "JvmOptions");
    }
    StopTimeoutTests(arg);
    assert ArgValue(args, arg, i) == Some(ArgVal(Trim(v), i)) by {
      assert "--StopTimeout" + "=" + v == arg;
      ArgValueAfterEquals(args, "--StopTimeout", v, i);
    }
  }

  /** "--StopTimeout=<v>" runs the StopTimeout block alone. */
  lemma StopTimeoutBlock(args: seq<string>, i: nat, v: string, s: Snapshot, load: Loader, title: string)
    requires i < |args| && Trim(args[i]) == "--StopTimeout=" + v
    requires !Contains(v, "JvmOptions")
    ensures ApplyRules(Rules, args, Trim(args[i]), Step(s, i, Scanning), load, title)
         == Assign(StopTimeoutRule, Trim(args[i]), Trim(v), s, i, load, title)
  {
    StopTimeoutValue(args, i, v);
    OptionArgument(args, Trim(args[i]), 17, Step(s, i, Scanning), load, title);
  }

  /**
   * A "--StopTimeout=<v>" argument stores Atoi's value; a value that is not
   * a numeral in range stops the scan with an error, anything else lets it go on.
   */
  lemma StopTimeoutArgument(args: seq<string>, i: nat, v: string, s: Snapshot, load: Loader, title: string)
    requires i < |args| && Trim(args[i]) == "--StopTimeout=" + v
    requires !Contains(v, "JvmOptions")
    ensures var n := Strconv.Atoi(Trim(v));
      var timed := s.(conf := s.conf.(stopTimeout := n.value));
      ScanFrom(args, i, s, load, title) ==
        if n.ok then ScanFrom(args, i + 1, timed, load, title)
        else Step(timed, i, Failed(BadStopTimeout(Trim(v))))
  {
    var n := Strconv.Atoi(Trim(v));
    var timed := s.(conf := s.conf.(stopTimeout := n.value));
    StopTimeoutBlock(args, i, v, s, load, title);
    if n.ok {
      ScanFromContinues(args, i, s, load, title, timed, i);
    } else {
      ScanFromStops(args, i, s, load, title, Step(timed, i, Failed(BadStopTimeout(Trim(v)))));
    }
  }

  /**
   * A value that is not a numeral stops the scan with an error. The timeout
   * is left at 0, unless the digits before the first non-digit already
   * exceed the uint64 range: then it is left at the bound of the sign's side.
   */
  lemma NonNumericStopTimeoutAborts(args: seq<string>, i: nat, v: string, s: Snapshot, load: Loader, title: string)
    requires i < |args| && Trim(args[i]) == "--StopTimeout=" + v
    requires !Contains(v, "JvmOptions") && !Strconv.IsNumeral(Trim(v))
    ensures ScanFrom(args, i, s, load, title).status == Failed(BadStopTimeout(Trim(v)))
    ensures Strconv.Decimal(Strconv.DigitPrefix(Strconv.Unsigned(Trim(v)))) <= Strconv.MaxUint ==>
      ScanFrom(args, i, s, load, title).snap.conf.stopTimeout == 0
    ensures Strconv.Decimal(Strconv.DigitPrefix(Strconv.Unsigned(Trim(v)))) > Strconv.MaxUint ==>
      ScanFrom(args, i, s, load, title).snap.conf.stopTimeout == Strconv.Bound(Trim(v))
  {
    StopTimeoutArgument(args, i, v, s, load, title);
  }

  /** The option key of the JvmOptions block, with the "++" or the "--" prefix. */
  function JvmOptionsKey(append: bool): (k: string)
    ensures |k| == 12 && '=' !in k
  {
    if append then "++JvmOptions" else "--JvmOptions"
  }

  /** An argument starting with "++JvmOptions" or "--JvmOptions" passes the test of the JvmOptions block alone. */
  lemma JvmOptionsSelects(arg: string, append: bool)
    requires HasPrefix(arg, JvmOptionsKey(append))
    ensures Options[6] == JvmOptionsRule
    ensures Matches(JvmOptionsRule, arg)
    ensures forall q :: q in Options[..6] ==> !Matches(q, arg)
    ensures forall q :: q in Options[7..] ==> !Matches(q, arg)
    ensures HasPrefix(arg, "++") <==> append
  {
    var key := JvmOptionsKey(append);
    JvmOptionsTests(arg);
    assert OccursAt(arg, "JvmOptions", 2) by {
      assert arg[2..12] == key[2..12];
    }
    assert arg[0] == key[0] && arg[1] == key[1] by {
      assert arg[..12][0] == arg[0] && arg[..12][1] == arg[1];
    }
    if append {
      assert arg[..2] == "++";
    } else {
      DiffersAt(arg, "++", 0);
    }
  }

  /** A JvmOptions argument "<key>=<v>" runs the JvmOptions block alone, on the trimmed v. */
  lemma JvmOptionsBlock(args: seq<string>, i: nat, append: bool, v: string, s: Snapshot, load: Loader, title: string)
    requires i < |args| && Trim(args[i]) == JvmOptionsKey(append) + "=" + v
    ensures ApplyRules(Rules, args, Trim(args[i]), Step(s, i, Scanning), load, title)
         == Assign(JvmOptionsRule, Trim(args[i]), Trim(v), s, i, load, title)
    ensures HasPrefix(Trim(args[i]), "++") <==> append
  {
    var arg := Trim(args[i]);
    var key := JvmOptionsKey(append);
    Seqs.Parts3(key, "=", v);
    JvmOptionsSelects(arg, append);
    ArgValueAfterEquals(args, key, v, i);
    OptionArgument(args, arg, 6, Step(s, i, Scanning), load, title);
  }

  /** The JvmOptions block appends the pieces of its value when the argument starts with "++", else replaces the options. */
  lemma JvmOptionsAssign(arg: string, v: string, s: Snapshot, i: nat, load: Loader, title: string, append: bool)
    requires HasPrefix(arg, "++") <==> append
    ensures Assign(JvmOptionsRule, arg, v, s, i, load, title)
         == Step(s.(conf := s.conf.(jvmOptions := (if append then s.conf.jvmOptions else []) + Split(v, ';'))), i, Scanning)
  {
    assert [] + Split(v, ';') == Split(v, ';');
  }

  /**
   * A JvmOptions argument splits its value on ';'; with the "++" prefix the
   * pieces are appended to the options already set, otherwise they replace them.
   */
  lemma JvmOptionsArgument(args: seq<string>, i: nat, append: bool, v: string, s: Snapshot, load: Loader, title: string)
    requires i < |args| && Trim(args[i]) == JvmOptionsKey(append) + "=" + v
    ensures var kept := if append then s.conf.jvmOptions else [];
      ScanFrom(args, i, s, load, title) ==
        ScanFrom(args, i + 1, s.(conf := s.conf.(jvmOptions := kept + Split(Trim(v), ';'))), load, title)
  {
    var kept := if append then s.conf.jvmOptions else [];
    var next := s.(conf := s.conf.(jvmOptions := kept + Split(Trim(v), ';')));
    JvmOptionsBlock(args, i, append, v, s, load, title);
    JvmOptionsAssign(Trim(args[i]), Trim(v), s, i, load, title, append);
    ScanFromContinues(args, i, s, load, title, next, i);
  }
}
