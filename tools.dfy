/**
 * The helpers of tools.go: the duplicate-suppressing error reporter and the
 * debug trace (a Logger object standing for the package variables
 * lastError, logs and isDebug), the flag lookup, the executable title,
 * quoting, and max/min.
 */
module Tools {
  import opened Wrappers
  import opened GoStrings
  import FilePath

  // ---------------------------------------------------------------------
  // checkError and debug

  /** The reporter's state: the last reported message, the buffered log lines, the debug switch. */
  datatype LogState = LogState(lastError: string, logs: seq<string>, isDebug: bool)

  function ErrorLine(msg: string): string {
    "ERROR " + msg + "\n"
  }

  /** The line debug buffers: its values, already rendered, separated by blanks. */
  function DebugLine(values: seq<string>): string {
    "DEBUG " + Join(values, " ") + "\n"
  }

  /** The state after checkError(err); `None` stands for a nil error. */
  function AfterError(s: LogState, err: Option<string>): LogState {
    if err.None? || err.value == s.lastError then s
    else s.(lastError := err.value,
            logs := if s.isDebug then s.logs + [ErrorLine(err.value)] else s.logs)
  }

  /** The state after debug(values...). */
  function AfterDebug(s: LogState, values: seq<string>): LogState {
    if !s.isDebug then s else s.(logs := s.logs + [DebugLine(values)])
  }

  class Logger {
    var lastError: string
    var logs: seq<string>
    var isDebug: bool

    function State(): LogState
      reads this
    {
      LogState(lastError, logs, isDebug)
    }

    /** The package variables start at Go's zero values; the debug switch is a parameter. */
    constructor (isDebug: bool)
      ensures State() == LogState("", [], isDebug)
    {
      lastError := "";
      logs := [];
      this.isDebug := isDebug;
    }

    /**
     * checkError: reports whether err is non-nil, and records a message
     * only when it differs from the last one recorded.
     */
    method CheckError(err: Option<string>) returns (failed: bool)
      modifies this
      ensures failed == err.Some?
      ensures State() == AfterError(old(State()), err)
    {
      if err.None? || err.value == lastError {
        return err.Some?;
      }
      lastError := err.value;
      if isDebug {
        logs := logs + [ErrorLine(err.value)];
      }
      // Outside debug mode the message goes to standard error instead.
      return true;
    }

    /** debug: buffers one DEBUG line, in debug mode only. */
    method Debug(values: seq<string>)
      modifies this
      ensures State() == AfterDebug(old(State()), values)
    {
      if !isDebug {
        return;
      }
      logs := logs + [DebugLine(values)];
    }
  }

  /** An error equal to the last recorded one changes nothing. */
  lemma DuplicateErrorIgnored(s: LogState, msg: string)
    requires msg == s.lastError
    ensures AfterError(s, Some(msg)) == s
  {
  }

  /** A new message becomes lastError; in debug mode exactly one ERROR line carrying it is buffered. */
  lemma NewErrorRecorded(s: LogState, msg: string)
    requires msg != s.lastError
    ensures AfterError(s, Some(msg)).lastError == msg
    ensures AfterError(s, Some(msg)).isDebug == s.isDebug
    ensures s.isDebug ==> AfterError(s, Some(msg)).logs == s.logs + ["ERROR " + msg + "\n"]
    ensures !s.isDebug ==> AfterError(s, Some(msg)).logs == s.logs
  {
  }

  /** A nil error changes nothing. */
  lemma NilErrorIgnored(s: LogState)
    ensures AfterError(s, None) == s
  {
  }

  /** Outside debug mode debug changes nothing; in it, exactly one line "DEBUG ...\n" is buffered. */
  lemma DebugAppendsOneLine(s: LogState, values: seq<string>)
    ensures !s.isDebug ==> AfterDebug(s, values) == s
    ensures s.isDebug ==> var r := AfterDebug(s, values);
      |r.logs| == |s.logs| + 1 && r.logs[..|s.logs|] == s.logs
      && HasPrefix(r.logs[|s.logs|], "DEBUG ") && r.logs[|s.logs|][|r.logs[|s.logs|]| - 1] == '\n'
      && r.lastError == s.lastError
  {
    if s.isDebug {
      var line := DebugLine(values);
      assert line[..6] == "DEBUG ";
    }
  }

  /** A call of checkError or of debug. */
  datatype Event = Reported(err: Option<string>) | Traced(values: seq<string>)

  function Apply(s: LogState, e: Event): LogState {
    match e
    case Reported(err) => AfterError(s, err)
    case Traced(values) => AfterDebug(s, values)
  }

  /** The state after a sequence of calls. */
  function Replay(s: LogState, events: seq<Event>): LogState
    decreases |events|
  {
    if events == [] then s else Replay(Apply(s, events[0]), events[1..])
  }

  predicate WellFormedLine(line: string) {
    (HasPrefix(line, "DEBUG ") || HasPrefix(line, "ERROR ")) && |line| >= 7 && line[|line| - 1] == '\n'
  }

  /**
   * Whatever the calls, the buffer only grows, every added line is a
   * DEBUG or ERROR line ending in a newline, and outside debug mode
   * nothing is added.
   */
  lemma {:induction false} ReplayAppendsOnly(s: LogState, events: seq<Event>)
    ensures var r := Replay(s, events);
      && r.isDebug == s.isDebug
      && |s.logs| <= |r.logs| && r.logs[..|s.logs|] == s.logs
      && (forall k :: |s.logs| <= k < |r.logs| ==> WellFormedLine(r.logs[k]))
      && (!s.isDebug ==> r.logs == s.logs)
    decreases |events|
  {
    if events != [] {
      var s' := Apply(s, events[0]);
      ReplayAppendsOnly(s', events[1..]);
      assert |s.logs| <= |s'.logs| && s'.logs[..|s.logs|] == s.logs;
      assert forall k :: |s.logs| <= k < |s'.logs| ==> WellFormedLine(s'.logs[k]);
    }
  }

  predicate IsErrorLine(line: string) {
    HasPrefix(line, "ERROR ") && |line| >= 7
  }

  /** The messages of the ERROR lines of a buffer, in order. */
  function ErrorMessages(logs: seq<string>): seq<string>
    decreases |logs|
  {
    if logs == [] then []
    else
      var last := logs[|logs| - 1];
      ErrorMessages(logs[..|logs| - 1]) + (if IsErrorLine(last) then [last[6..|last| - 1]] else [])
  }

  predicate NoRepeats(ms: seq<string>) {
    forall k :: 0 < k < |ms| ==> ms[k] != ms[k - 1]
  }

  /** In debug mode the last ERROR line carries lastError, and no message follows itself. */
  predicate Suppressing(s: LogState) {
    var ms := ErrorMessages(s.logs);
    NoRepeats(ms) && (s.isDebug && ms != [] ==> ms[|ms| - 1] == s.lastError)
  }

  lemma ErrorMessagesAppend(logs: seq<string>, line: string)
    ensures ErrorMessages(logs + [line])
            == ErrorMessages(logs) + (if IsErrorLine(line) then [line[6..|line| - 1]] else [])
  {
    assert (logs + [line])[..|logs|] == logs;
  }

  lemma ApplyKeepsSuppressing(s: LogState, e: Event)
    requires Suppressing(s)
    ensures Suppressing(Apply(s, e))
  {
    var s' := Apply(s, e);
    if s'.logs != s.logs {
      match e
      case Reported(err) =>
        var line := ErrorLine(err.value);
        assert s'.logs == s.logs + [line];
        assert line[..6] == "ERROR ";
        assert line[6..|line| - 1] == err.value;
        ErrorMessagesAppend(s.logs, line);
      case Traced(values) =>
        var line := DebugLine(values);
        assert s'.logs == s.logs + [line];
        assert line[..6] == "DEBUG ";
        ErrorMessagesAppend(s.logs, line);
    }
  }

  lemma {:induction false} ReplayKeepsSuppressing(s: LogState, events: seq<Event>)
    requires Suppressing(s)
    ensures Suppressing(Replay(s, events))
    decreases |events|
  {
    if events != [] {
      ApplyKeepsSuppressing(s, events[0]);
      ReplayKeepsSuppressing(Apply(s, events[0]), events[1..]);
    }
  }

  /**
   * From the initial state, whatever the sequence of checkError and debug
   * calls, the buffer never holds the same error message twice in a row.
   */
  lemma NoConsecutiveDuplicateErrors(isDebug: bool, events: seq<Event>)
    ensures NoRepeats(ErrorMessages(Replay(LogState("", [], isDebug), events).logs))
  {
    ReplayKeepsSuppressing(LogState("", [], isDebug), events);
  }

  // ---------------------------------------------------------------------
  // getFlag

  /** Argument `arg`, trimmed, is the flag itself or the flag followed by '='. */
  predicate FlagMatches(arg: string, flag: string) {
    var a := Trim(arg);
    a == flag || HasPrefix(a, flag + "=")
  }

  /** The value getFlag reports for a match at position k. */
  function FlagValue(args: seq<string>, k: nat): string
    requires k < |args|
  {
    var a := Trim(args[k]);
    var p := IndexOf(a, "=");
    if p != -1 then Trim(a[p + 1..])
    else if k + 1 < |args| then args[k + 1]
    else ""
  }

  /** getFlag: the first matching argument decides; no match gives (false, ""). */
  method GetFlag(args: seq<string>, flag: string) returns (found: bool, value: string)
    ensures found <==> exists k :: 0 <= k < |args| && FlagMatches(args[k], flag)
    ensures !found ==> value == ""
    ensures found ==> exists k :: 0 <= k < |args| && FlagMatches(args[k], flag)
                                  && (forall j :: 0 <= j < k ==> !FlagMatches(args[j], flag))
                                  && value == FlagValue(args, k)
  {
    var i := 0;
    while i < |args|
      invariant 0 <= i <= |args|
      invariant forall j :: 0 <= j < i ==> !FlagMatches(args[j], flag)
    {
      var arg := Trim(args[i]);
      if arg == flag || HasPrefix(arg, flag + "=") {
        assert FlagMatches(args[i], flag);
        var p := IndexOf(arg, "=");
        if p != -1 {
          arg := Trim(arg[p + 1..]);
          assert arg == FlagValue(args, i);
          return true, arg;
        }
        if i + 1 < |args| {
          assert args[i + 1] == FlagValue(args, i);
          return true, args[i + 1];
        }
        assert "" == FlagValue(args, i);
        return true, "";
      }
      i := i + 1;
    }
    return false, "";
  }

  /**
   * For a flag without '=': "flag=v" yields v trimmed; a bare flag yields
   * the next argument untrimmed, or "" when it is the last argument.
   */
  lemma FlagValueForms(args: seq<string>, k: nat, flag: string, rest: string)
    requires k < |args| && '=' !in flag
    ensures Trim(args[k]) == flag ==> FlagValue(args, k) == (if k + 1 < |args| then args[k + 1] else "")
    ensures Trim(args[k]) == flag + "=" + rest ==> FlagValue(args, k) == Trim(rest)
  {
    var a := Trim(args[k]);
    if a == flag {
      IndexOfAbsent(a, "=");
    }
    if a == flag + "=" + rest {
      IndexOfLead(flag, "=", rest);
      assert a[|flag| + 1..] == rest;
    }
  }

  // ---------------------------------------------------------------------
  // title

  /** The base name without its extension. */
  function Stem(name: string): string {
    name[..|name| - |FilePath.Ext(name)|]
  }

  /** The position of the first '-', or the length when there is none. */
  function DashCut(s: string): (k: nat)
    ensures k <= |s| && '-' !in s[..k]
    ensures k < |s| ==> s[k] == '-'
  {
    if s == [] || s[0] == '-' then 0 else 1 + DashCut(s[1..])
  }

  /** The letters of s, in order. */
  function Letters(s: string, isLetter: char -> bool): (r: string)
    decreases |s|
  {
    if s == [] then []
    else
      var last := s[|s| - 1];
      Letters(s[..|s| - 1], isLetter) + (if isLetter(last) then [last] else [])
  }

  /** Scanning one more character adds it when it is a letter. */
  lemma LettersStep(s: string, i: nat, isLetter: char -> bool)
    requires i < |s|
    ensures Letters(s[..i + 1], isLetter) == Letters(s[..i], isLetter) + (if isLetter(s[i]) then [s[i]] else [])
  {
    assert s[..i + 1][..i] == s[..i];
  }

  /** Past a position that is not a '-', the first '-' lies further on. */
  lemma {:induction false} DashCutBeyond(s: string, i: nat)
    requires i <= DashCut(s)
    ensures i < |s| && s[i] != '-' ==> i + 1 <= DashCut(s)
    ensures i == |s| || (i < |s| && s[i] == '-') ==> i == DashCut(s)
  {
    if i < DashCut(s) {
      assert s[..DashCut(s)][i] == s[i];
    }
  }

  /** What title returns for a given executable path. */
  function TitleOf(path: string, isLetter: char -> bool): string {
    var stem := Stem(FilePath.Base(path));
    Letters(stem[..DashCut(stem)], isLetter)
  }

  /**
   * title: the letters of the executable's base name, extension removed, up
   * to its first '-'. `executable` is what os.Executable returns (None for
   * an error, when Args[0] is used); `isLetter` is unicode.IsLetter.
   */
  method Title(log: Logger, executable: Option<string>, arg0: string, isLetter: char -> bool) returns (title: string)
    modifies log
    ensures title == TitleOf(if executable.Some? then executable.value else arg0, isLetter)
    ensures log.State() == AfterDebug(old(log.State()), ["title:", title])
  {
    var path := if executable.Some? then executable.value else arg0;
    path := FilePath.Base(path);
    path := path[..|path| - |FilePath.Ext(path)|];
    title := "";
    var i := 0;
    while i < |path|
      invariant 0 <= i <= DashCut(path)
      invariant title == Letters(path[..i], isLetter)
      invariant log.State() == old(log.State())
    {
      if path[i] == '-' {
        break;
      }
      if isLetter(path[i]) {
        title := title + [path[i]];
      }
      LettersStep(path, i, isLetter);
      DashCutBeyond(path, i);
      i := i + 1;
    }
    DashCutBeyond(path, i);
    log.Debug(["title:", title]);
  }

  /** Letters keeps exactly characters of s that are letters. */
  lemma {:induction false} LettersAreLetters(s: string, isLetter: char -> bool)
    ensures forall k :: 0 <= k < |Letters(s, isLetter)| ==> isLetter(Letters(s, isLetter)[k])
    ensures forall c :: c in Letters(s, isLetter) ==> c in s
    decreases |s|
  {
    if s != [] {
      LettersAreLetters(s[..|s| - 1], isLetter);
    }
  }

  /** The title holds only letters and nothing from the first '-' on. */
  lemma TitleLettersOnly(path: string, isLetter: char -> bool)
    ensures forall k :: 0 <= k < |TitleOf(path, isLetter)| ==> isLetter(TitleOf(path, isLetter)[k])
    ensures '-' !in TitleOf(path, isLetter)
  {
    var stem := Stem(FilePath.Base(path));
    LettersAreLetters(stem[..DashCut(stem)], isLetter);
  }

  /** The directory part of the path plays no part in the title. */
  lemma TitleIgnoresDirectory(dir: string, file: string, isLetter: char -> bool)
    requires file != "" && FilePath.NoSeparator(file) && ':' !in file
    ensures TitleOf(dir + [FilePath.Separator] + file, isLetter) == TitleOf(file, isLetter)
  {
    FilePath.BaseOfJoined(dir, file);
    FilePath.BaseOfName(file);
  }

  // ---------------------------------------------------------------------
  // surroundWidth, max, min

  /**
   * surroundWidth: every string wrapped in double quotes; the `surround`
   * argument is ignored. The debug line renders the list as fmt's %+v does.
   */
  method SurroundWidth(log: Logger, strs: seq<string>, surround: string) returns (result: seq<string>)
    modifies log
    ensures |result| == |strs|
    ensures forall k :: 0 <= k < |strs| ==> result[k] == "\"" + strs[k] + "\""
    ensures log.State() == AfterDebug(old(log.State()), ["surroundWidth:", "[" + Join(result, " ") + "]"])
  {
    result := [];
    for k := 0 to |strs|
      invariant |result| == k
      invariant forall j :: 0 <= j < k ==> result[j] == "\"" + strs[j] + "\""
    {
      result := result + ["\"" + strs[k] + "\""];
    }
    log.Debug(["surroundWidth:", "[" + Join(result, " ") + "]"]);
  }

  /** max on integers: one of the two, and not below either. */
  function Max(v0: int, v1: int): (r: int)
    ensures r == v0 || r == v1
    ensures r >= v0 && r >= v1
  {
    if v0 > v1 then v0 else v1
  }

  /** min on integers: one of the two, and not above either. */
  function Min(v0: int, v1: int): (r: int)
    ensures r == v0 || r == v1
    ensures r <= v0 && r <= v1
  {
    if v0 < v1 then v0 else v1
  }
}
