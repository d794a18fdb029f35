/**
 The XRT runtime wrapper of `unicorn_npu/hardware/xrt_wrapper.py`: importing
 the XRT variables from the output of `source setup.sh && env`, the
 availability check, the version lookup and the device-status scraper.

 The process environment is a map from names to values that the model returns
 instead of mutating; the setup script's existence and every command's outcome
 enter as parameters.
 */
module XrtRuntime {
  import opened Outcomes
  import Text
  import Scan

  const SetupScript := "/opt/xilinx/xrt/setup.sh"
  const XrtSmi := "/opt/xilinx/xrt/bin/xrt-smi"
  const UnknownVersion := "Unknown"

  /** The process environment, name to value. */
  type Environment = map<string, string>

  /** An `XRTRuntime` after construction. */
  datatype Runtime = Runtime(xrtAvailable: bool, environment: Environment)

  // ----- Importing the XRT environment (`_setup_environment`) -----

  /** The filter on `env` output lines: the line holds `=` and mentions XRT or
      XILINX anywhere, the value included. */
  predicate IsXrtAssignment(line: string) {
    '=' in line && (Text.Contains(line, "XRT") || Text.Contains(line, "XILINX"))
  }

  /** One `name=value` assignment taken from the output. */
  datatype Assignment = Assignment(name: string, value: string)

  /** The name/value pair a line yields, if the filter takes it: the name is
      everything before the first `=`, the value everything after, so the
      value may itself hold `=`. */
  function AssignmentOf(line: string): (a: Option<Assignment>)
    ensures a.Some? <==> IsXrtAssignment(line)
    ensures a.Some? ==> a.value.name + "=" + a.value.value == line && '=' !in a.value.name
  {
    if IsXrtAssignment(line) then
      var i := Text.IndexOf(line, '=');
      assert line == line[..i] + "=" + line[i + 1..];
      Some(Assignment(line[..i], line[i + 1..]))
    else None
  }

  /** Whether `os.environ[name] = value` succeeds: CPython refuses a NUL
      character in either string and the C library refuses an empty name; both
      raise. */
  predicate Settable(a: Assignment) {
    a.name != [] && '\0' !in a.name && '\0' !in a.value
  }

  /** What the loop over the `env` lines did: the assignments it made, in
      order, and whether it ran to the end. */
  datatype EnvScan = EnvScan(made: seq<Assignment>, completed: bool)

  /** The loop over the `env` output lines, branch for branch. An assignment
      that raises ends the loop, since the handler sits around the whole loop:
      the assignments made are the filtered pairs up to the first refused one. */
  function ScanEnvLines(lines: seq<string>): (r: EnvScan)
    ensures var all := Scan.Hits(lines, AssignmentOf);
            && |r.made| <= |all| && r.made == all[..|r.made|]
            && (forall k :: 0 <= k < |r.made| ==> Settable(r.made[k]))
            && (r.completed <==> |r.made| == |all|)
            && (!r.completed ==> !Settable(all[|r.made|]))
    decreases |lines|
  {
    if |lines| == 0 then EnvScan([], true)
    else
      var line := lines[0];
      if IsXrtAssignment(line) then
        var parts := Text.SplitOnce(line, '=');
        var key := parts[0];
        var value := parts[1];
        SplitAssignment(line);
        HitsStep(lines);
        if !Settable(Assignment(key, value)) then EnvScan([], false)
        else
          var rest := ScanEnvLines(lines[1..]);
          PrefixCons(Assignment(key, value), Scan.Hits(lines[1..], AssignmentOf), rest.made);
          EnvScan([Assignment(key, value)] + rest.made, rest.completed)
      else
        HitsStep(lines);
        ScanEnvLines(lines[1..])
  }

  /** Putting the same element in front of a list and of one of its prefixes
      keeps it a prefix. */
  lemma PrefixCons(a: Assignment, all: seq<Assignment>, made: seq<Assignment>)
    requires |made| <= |all| && made == all[..|made|]
    ensures [a] + made == ([a] + all)[..|made| + 1]
    ensures forall k :: 0 <= k < |made| ==> ([a] + made)[k + 1] == made[k]
  {
  }

  /** Splitting a taken line once at `=` gives its assignment's name and value. */
  lemma SplitAssignment(line: string)
    requires IsXrtAssignment(line)
    ensures var parts := Text.SplitOnce(line, '=');
            |parts| == 2 && AssignmentOf(line) == Some(Assignment(parts[0], parts[1]))
  {
  }

  /** The assignments of a non-empty list of lines: the first line's, if any,
      then those of the rest. */
  lemma HitsStep(lines: seq<string>)
    requires |lines| > 0
    ensures Scan.Hits(lines, AssignmentOf)
            == (if AssignmentOf(lines[0]).Some? then [AssignmentOf(lines[0]).value] else [])
               + Scan.Hits(lines[1..], AssignmentOf)
  {
  }

  /** Performing the assignments in order on an environment. */
  function ApplyEnv(env: Environment, pairs: seq<Assignment>): (r: Environment)
    ensures r.Keys == env.Keys + set a | a in pairs :: a.name
    decreases |pairs|
  {
    if |pairs| == 0 then env
    else
      var last := pairs[|pairs| - 1];
      var init := pairs[..|pairs| - 1];
      var before := ApplyEnv(env, init);
      assert pairs == init + [last];
      assert (set a | a in pairs :: a.name) == (set a | a in init :: a.name) + {last.name};
      before[last.name := last.value]
  }

  /** A name assigned more than once ends with the value of its last assignment. */
  lemma {:induction false} EnvLastWins(env: Environment, pairs: seq<Assignment>, k: int)
    requires 0 <= k < |pairs|
    requires forall j :: k < j < |pairs| ==> pairs[j].name != pairs[k].name
    ensures pairs[k].name in ApplyEnv(env, pairs) && ApplyEnv(env, pairs)[pairs[k].name] == pairs[k].value
    decreases |pairs|
  {
    if k < |pairs| - 1 {
      var before := pairs[..|pairs| - 1];
      assert before[k] == pairs[k];
      EnvLastWins(env, before, k);
    }
  }

  /** A name no assignment mentions keeps its value, or stays unset. */
  lemma {:induction false} EnvUntouched(env: Environment, pairs: seq<Assignment>, name: string)
    requires forall j :: 0 <= j < |pairs| ==> pairs[j].name != name
    ensures Get(ApplyEnv(env, pairs), name) == Get(env, name)
    decreases |pairs|
  {
    if |pairs| > 0 {
      EnvUntouched(env, pairs[..|pairs| - 1], name);
    }
  }

  /** `_setup_environment`: the environment after importing the XRT variables.
      Nothing changes when the setup script is missing or running it did not
      succeed; otherwise exactly the assignments the line loop made are
      applied, in order. */
  function SetupEnvironment(env: Environment, setupExists: bool, run: CommandRun): (env': Environment)
    ensures !setupExists || !run.Succeeded() ==> env' == env
    ensures env.Keys <= env'.Keys
    ensures setupExists && run.Succeeded() ==>
              env' == ApplyEnv(env, ScanEnvLines(Text.Split(run.stdout, '\n')).made)
  {
    if setupExists then
      match run
      case Exited(code, out, _) =>
        if code == 0 then ApplyEnv(env, ScanEnvLines(Text.Split(out, '\n')).made) else env
      case Raised(_) => env
    else env
  }

  // ----- Availability (`_check_xrt`) and construction -----

  /** `XRTRuntime()`: import the environment, then check `xrt-smi version`. XRT
      counts as available exactly when that command exits 0; a missing tool, a
      timeout or any other raise leaves it unavailable, and the environment
      step has no say in it. */
  function Init(env: Environment, setupExists: bool, envRun: CommandRun, versionRun: CommandRun): (rt: Runtime)
    ensures rt.xrtAvailable <==> versionRun.Exited? && versionRun.code == 0
    ensures rt.environment == SetupEnvironment(env, setupExists, envRun)
  {
    var available := match versionRun
      case Exited(code, _, _) => code == 0
      case Raised(_) => false;
    Runtime(available, SetupEnvironment(env, setupExists, envRun))
  }

  // ----- Version (`get_version`) -----

  /** What one line of `xrt-smi version` output yields: the whole line,
      stripped, when it mentions Version or, in any letter case, xrt. */
  function VersionLineOf(line: string): Option<string> {
    if Text.Contains(line, "Version") || Text.Contains(Text.Lower(line), "xrt") then Some(Text.Strip(line))
    else None
  }

  /** The version loop: return on the first line that matches. */
  function ScanVersionLines(lines: seq<string>): (r: Option<string>)
    ensures Scan.FirstHit(lines, VersionLineOf, r)
    decreases |lines|
  {
    if |lines| == 0 then None
    else if Text.Contains(lines[0], "Version") || Text.Contains(Text.Lower(lines[0]), "xrt") then
      Scan.FirstHitHere(lines, VersionLineOf);
      Some(Text.Strip(lines[0]))
    else
      var rest := ScanVersionLines(lines[1..]);
      Scan.FirstHitLater(lines, VersionLineOf, rest);
      rest
  }

  /** `get_version`: None when XRT is unavailable or the command raised;
      otherwise the first matching output line, or Unknown when the command
      failed or no line matches. */
  function GetVersion(rt: Runtime, run: CommandRun): (r: Option<string>)
    ensures r.None? <==> !rt.xrtAvailable || run.Raised?
    ensures r.Some? && !run.Succeeded() ==> r.value == UnknownVersion
    ensures r.Some? && run.Succeeded() ==>
              || (Scan.FirstHit(Text.Split(run.stdout, '\n'), VersionLineOf, None) && r.value == UnknownVersion)
              || Scan.FirstHit(Text.Split(run.stdout, '\n'), VersionLineOf, r)
  {
    if !rt.xrtAvailable then None
    else
      match run
      case Raised(_) => None
      case Exited(code, out, _) =>
        if code == 0 then Some(ScanVersionLines(Text.Split(out, '\n')).GetOr(UnknownVersion))
        else Some(UnknownVersion)
  }

  // ----- Device status (`get_device_status`) -----

  /** The dictionary `get_device_status` returns: `online` is the constructor. */
  datatype DeviceStatus =
    | Online(rawOutput: string, temperature: Option<string>, power: Option<string>, firmware: Option<string>)
    | Offline(error: string)

  /** What one line contributes to `temperature`: the whole stripped line. */
  function TemperatureOf(line: string): Option<string> {
    if Text.Contains(line, "Temperature") then Some(Text.Strip(line)) else None
  }

  /** What one line contributes to `power`: only lines not taken as temperature. */
  function PowerOf(line: string): Option<string> {
    if !Text.Contains(line, "Temperature") && Text.Contains(line, "Power") then Some(Text.Strip(line))
    else None
  }

  /** What one line contributes to `firmware`: only lines neither earlier rule took. */
  function FirmwareOf(line: string): Option<string> {
    if !Text.Contains(line, "Temperature") && !Text.Contains(line, "Power") && Text.Contains(line, "Firmware")
    then Some(Text.Strip(line))
    else None
  }

  /** The three optional keys of the status dictionary. */
  datatype StatusFields = StatusFields(temperature: Option<string>, power: Option<string>, firmware: Option<string>)

  /** One iteration of the classifier loop, branch for branch. */
  function StatusLine(f: StatusFields, line: string): (g: StatusFields)
    ensures g.temperature == (if TemperatureOf(line).Some? then TemperatureOf(line) else f.temperature)
    ensures g.power == (if PowerOf(line).Some? then PowerOf(line) else f.power)
    ensures g.firmware == (if FirmwareOf(line).Some? then FirmwareOf(line) else f.firmware)
  {
    if Text.Contains(line, "Temperature") then f.(temperature := Some(Text.Strip(line)))
    else if Text.Contains(line, "Power") then f.(power := Some(Text.Strip(line)))
    else if Text.Contains(line, "Firmware") then f.(firmware := Some(Text.Strip(line)))
    else f
  }

  /** The classifier loop over all lines, in order: each key holds the LAST
      line that contributes to it. */
  function ScanStatusLines(lines: seq<string>): (f: StatusFields)
    ensures Scan.LastHit(lines, TemperatureOf, f.temperature)
    ensures Scan.LastHit(lines, PowerOf, f.power)
    ensures Scan.LastHit(lines, FirmwareOf, f.firmware)
    decreases |lines|
  {
    if |lines| == 0 then StatusFields(None, None, None)
    else
      var prev := ScanStatusLines(lines[..|lines| - 1]);
      var next := StatusLine(prev, lines[|lines| - 1]);
      Scan.LastHitStep(lines, TemperatureOf, prev.temperature, next.temperature);
      Scan.LastHitStep(lines, PowerOf, prev.power, next.power);
      Scan.LastHitStep(lines, FirmwareOf, prev.firmware, next.firmware);
      next
  }

  /** `get_device_status`: None when XRT is unavailable or the command raised;
      offline with the captured stderr on a non-zero exit; otherwise online
      with the raw output and, per key, the last line that mentions it under
      the Temperature / Power / Firmware precedence. */
  function GetDeviceStatus(rt: Runtime, run: CommandRun): (r: Option<DeviceStatus>)
    ensures r.None? <==> !rt.xrtAvailable || run.Raised?
    ensures r.Some? && !run.Succeeded() ==> r.value == Offline(run.stderr)
    ensures r.Some? && run.Succeeded() ==>
              && r.value.Online?
              && r.value.rawOutput == run.stdout
              && Scan.LastHit(Text.Split(run.stdout, '\n'), TemperatureOf, r.value.temperature)
              && Scan.LastHit(Text.Split(run.stdout, '\n'), PowerOf, r.value.power)
              && Scan.LastHit(Text.Split(run.stdout, '\n'), FirmwareOf, r.value.firmware)
  {
    if !rt.xrtAvailable then None
    else
      match run
      case Raised(_) => None
      case Exited(code, out, err) =>
        if code == 0 then
          var f := ScanStatusLines(Text.Split(out, '\n'));
          Some(Online(out, f.temperature, f.power, f.firmware))
        else Some(Offline(err))
  }
}
