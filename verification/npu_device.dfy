/**
 The NPU prober of `unicorn_npu/hardware/npu_device.py`: detection of the
 accelerator (direct open of the device node, falling back to scraping
 `xrt-smi examine`), the key/value scraper for that output, the device-info
 accessor, the power-mode command and the power-state classifier.

 The device node, the filesystem and `xrt-smi` enter as parameters: whether the
 node exists and opens, the set of existing paths, and the observed outcome of
 each command (`Outcomes.CommandRun`).
 */
module NpuDevice {
  import opened Outcomes
  import Text
  import Scan

  const DevicePath := "/dev/accel/accel0"
  const DirectType := "AMD Phoenix NPU"
  const DirectMethod := "direct_device_access"
  const ToolMethod := "xrt_tools"
  const XrtSmi := "/opt/xilinx/xrt/bin/xrt-smi"
  const XrtSmiUnwrapped := "/opt/xilinx/xrt/bin/unwrapped/xrt-smi"
  /** Where `set_power_mode` looks for `xrt-smi`, in order. */
  const XrtSmiCandidates := [XrtSmi, XrtSmiUnwrapped]
  /** The PCI address used when detection recorded none. */
  const DefaultPciAddress := "0000:c7:00.1"
  const NotAvailable := map["status" := "not available"]
  const D0Label := "D0 (full performance)"
  const D3Label := "D3hot (low power)"
  const UnknownState := "Unknown"

  /** The keys the examine-output scraper can produce. */
  const ParsedKeys: set<string> := {"device", "pci_address", "firmware", "type"}

  /** A device-info dictionary; every value the source stores is a string. */
  type Info = map<string, string>

  /** `m` with `k` set to the carried value, or `m` itself when there is none. */
  function Overwrite(m: Info, k: string, v: Option<string>): Info {
    if v.Some? then m[k := v.value] else m
  }

  // ----- The examine-output scraper (`_parse_xrt_info`) -----

  /** The guard of the scraper's first branch, on a stripped line. */
  predicate IsDeviceLine(line: string) {
    Text.Contains(line, "Device") && '[' in line
  }

  /** The guard of the scraper's second branch, on a stripped line. */
  predicate IsFirmwareLine(line: string) {
    Text.Contains(line, "Firmware") && ':' in line
  }

  /** The guard of the scraper's third branch, on a stripped line. */
  predicate IsTypeLine(line: string) {
    Text.Contains(line, "Type") && ':' in line
  }

  /** The trimmed text after the first `:` of `line`. */
  function AfterColon(line: string): string
    requires ':' in line
  {
    Text.Strip(line[Text.IndexOf(line, ':') + 1..])
  }

  /** What a stripped line contributes to `pci_address`: for a device line that
      also holds a `]`, the text strictly between its first `[` and its first
      `]`, which is empty when that `]` does not come after the `[`. */
  function PciIn(line: string): Option<string> {
    if IsDeviceLine(line) && ']' in line then
      var open := Text.IndexOf(line, '[');
      var close := Text.IndexOf(line, ']');
      Some(if open < close then line[open + 1..close] else [])
    else None
  }

  /** What a stripped line contributes to `firmware`: only lines the device rule
      did not claim. */
  function FirmwareIn(line: string): Option<string> {
    if !IsDeviceLine(line) && IsFirmwareLine(line) then Some(AfterColon(line)) else None
  }

  /** What a stripped line contributes to `type`: only lines neither earlier rule claimed. */
  function TypeIn(line: string): Option<string> {
    if !IsDeviceLine(line) && !IsFirmwareLine(line) && IsTypeLine(line) then Some(AfterColon(line))
    else None
  }

  /** What a raw output line contributes to each key; the scraper strips every
      line before testing it. */
  function PciOf(raw: string): Option<string> { PciIn(Text.Strip(raw)) }
  function FirmwareOf(raw: string): Option<string> { FirmwareIn(Text.Strip(raw)) }
  function TypeOf(raw: string): Option<string> { TypeIn(Text.Strip(raw)) }

  /** One iteration of the scraper's loop on a stripped line, branch for branch. */
  function LineStep(info: Info, line: string): Info {
    if IsDeviceLine(line) then
      var start := Text.IndexOf(line, '[');
      var end := Text.IndexOf(line, ']');
      if start != -1 && end != -1 then info["pci_address" := Text.Slice(line, start + 1, end)]
      else info
    else if IsFirmwareLine(line) then
      var parts := Text.SplitOnce(line, ':');
      if |parts| == 2 then info["firmware" := Text.Strip(parts[1])] else info
    else if IsTypeLine(line) then
      var parts := Text.SplitOnce(line, ':');
      if |parts| == 2 then info["type" := Text.Strip(parts[1])] else info
    else info
  }

  /** A loop iteration writes exactly the contributions of its line. */
  lemma LineStepEffect(info: Info, line: string)
    ensures LineStep(info, line)
            == Overwrite(Overwrite(Overwrite(info, "pci_address", PciIn(line)),
                                   "firmware", FirmwareIn(line)),
                         "type", TypeIn(line))
  {
    if IsDeviceLine(line) {
      DeviceBranch(info, line);
    } else if IsFirmwareLine(line) {
      FirmwareBranch(info, line);
    } else if IsTypeLine(line) {
      TypeBranch(info, line);
    }
  }

  /** The same, key by key: each key the scraper writes takes the line's
      contribution when there is one and keeps its value otherwise; no other
      key is added and `device` is left alone. */
  lemma LineStepKeys(info: Info, line: string)
    ensures LineStep(info, line).Keys <= info.Keys + ParsedKeys
    ensures "device" in info ==> "device" in LineStep(info, line) && LineStep(info, line)["device"] == info["device"]
    ensures Get(LineStep(info, line), "pci_address") == (if PciIn(line).Some? then PciIn(line) else Get(info, "pci_address"))
    ensures Get(LineStep(info, line), "firmware") == (if FirmwareIn(line).Some? then FirmwareIn(line) else Get(info, "firmware"))
    ensures Get(LineStep(info, line), "type") == (if TypeIn(line).Some? then TypeIn(line) else Get(info, "type"))
  {
    LineStepEffect(info, line);
  }

  lemma DeviceBranch(info: Info, line: string)
    requires IsDeviceLine(line)
    ensures LineStep(info, line) == Overwrite(info, "pci_address", PciIn(line))
    ensures FirmwareIn(line).None? && TypeIn(line).None?
  {
    if ']' in line {
      var start := Text.IndexOf(line, '[');
      var end := Text.IndexOf(line, ']');
      if start < end {
        assert Text.Slice(line, start + 1, end) == line[start + 1..end];
      }
    }
  }

  lemma FirmwareBranch(info: Info, line: string)
    requires !IsDeviceLine(line) && IsFirmwareLine(line)
    ensures LineStep(info, line) == Overwrite(info, "firmware", FirmwareIn(line))
    ensures PciIn(line).None? && TypeIn(line).None? && FirmwareIn(line).Some?
  {
    var parts := Text.SplitOnce(line, ':');
    assert parts[1] == line[Text.IndexOf(line, ':') + 1..];
  }

  lemma TypeBranch(info: Info, line: string)
    requires !IsDeviceLine(line) && !IsFirmwareLine(line) && IsTypeLine(line)
    ensures LineStep(info, line) == Overwrite(info, "type", TypeIn(line))
    ensures PciIn(line).None? && FirmwareIn(line).None? && TypeIn(line).Some?
  {
    var parts := Text.SplitOnce(line, ':');
    assert parts[1] == line[Text.IndexOf(line, ':') + 1..];
  }

  /** The scraper's loop over a list of lines, applied in order. The result
      always names the device, holds no keys beyond the four the rules write,
      and each optional key holds the contribution of the LAST line that
      contributes to it, or is absent when no line does. */
  function ParseLines(devicePath: string, lines: seq<string>): (info: Info)
    ensures info.Keys <= ParsedKeys
    ensures "device" in info && info["device"] == devicePath
    ensures Scan.LastHit(lines, PciOf, Get(info, "pci_address"))
    ensures Scan.LastHit(lines, FirmwareOf, Get(info, "firmware"))
    ensures Scan.LastHit(lines, TypeOf, Get(info, "type"))
    decreases |lines|
  {
    if |lines| == 0 then map["device" := devicePath]
    else
      var before := lines[..|lines| - 1];
      var line := Text.Strip(lines[|lines| - 1]);
      var prev := ParseLines(devicePath, before);
      var next := LineStep(prev, line);
      LineStepKeys(prev, line);
      Scan.LastHitStep(lines, PciOf, Get(prev, "pci_address"), Get(next, "pci_address"));
      Scan.LastHitStep(lines, FirmwareOf, Get(prev, "firmware"), Get(next, "firmware"));
      Scan.LastHitStep(lines, TypeOf, Get(prev, "type"), Get(next, "type"));
      next
  }

  /** `_parse_xrt_info`: scrape the lines of `xrt-smi examine` output. */
  function ParseXrtInfo(devicePath: string, output: string): (info: Info)
    ensures info.Keys <= ParsedKeys
    ensures "device" in info && info["device"] == devicePath
    ensures Scan.LastHit(Text.Split(output, '\n'), PciOf, Get(info, "pci_address"))
    ensures Scan.LastHit(Text.Split(output, '\n'), FirmwareOf, Get(info, "firmware"))
    ensures Scan.LastHit(Text.Split(output, '\n'), TypeOf, Get(info, "type"))
  {
    ParseLines(devicePath, Text.Split(output, '\n'))
  }

  /** A device line without a `]` sets nothing, and in particular contributes no
      firmware or type even when it also mentions them. */
  lemma DeviceLineWithoutCloseBracketSetsNothing(info: Info, line: string)
    requires IsDeviceLine(line) && ']' !in line
    ensures LineStep(info, line) == info
  {
    DeviceBranch(info, line);
  }

  /** When the first `]` comes before the first `[`, the address is the empty string. */
  lemma ReversedBracketsGiveEmptyAddress(info: Info, line: string)
    requires IsDeviceLine(line) && ']' in line && Text.IndexOf(line, ']') < Text.IndexOf(line, '[')
    ensures LineStep(info, line) == info["pci_address" := ""]
  {
    DeviceBranch(info, line);
  }

  /** Otherwise the address is exactly what lies between the first `[` and the
      first `]`: the line reads `pre [ addr ] post` with no bracket in `pre`
      and no `]` in `addr`. */
  lemma AddressIsBracketInterior(info: Info, line: string)
    requires IsDeviceLine(line) && ']' in line && Text.IndexOf(line, '[') < Text.IndexOf(line, ']')
    ensures var addr := LineStep(info, line)["pci_address"];
            var pre := line[..Text.IndexOf(line, '[')];
            && line == pre + ['['] + addr + [']'] + line[Text.IndexOf(line, ']') + 1..]
            && '[' !in pre && ']' !in pre && ']' !in addr
  {
    var open := Text.IndexOf(line, '[');
    var close := Text.IndexOf(line, ']');
    DeviceBranch(info, line);
    assert PciIn(line) == Some(line[open + 1..close]);
    assert LineStep(info, line)["pci_address"] == line[open + 1..close];
    BracketSplit(line, open, close);
  }

  /** Cutting a string at the first `[` and the first `]` after it. */
  lemma BracketSplit(line: string, s: int, e: int)
    requires s == Text.IndexOf(line, '[') && e == Text.IndexOf(line, ']') && 0 <= s < e
    ensures line == line[..s] + ['['] + line[s + 1..e] + [']'] + line[e + 1..]
    ensures '[' !in line[..s] && ']' !in line[..s] && ']' !in line[s + 1..e]
  {
    Text.NotInSlice(line, '[', 0, s);
    Text.NotInSlice(line, ']', 0, s);
    Text.NotInSlice(line, ']', s + 1, e);
    Text.CutTwice(line, s, e);
  }

  /** A firmware line never touches `type` or `pci_address`, even when it also
      mentions Type. */
  lemma FirmwareLineKeepsType(info: Info, line: string)
    requires !IsDeviceLine(line) && IsFirmwareLine(line)
    ensures Get(LineStep(info, line), "type") == Get(info, "type")
    ensures Get(LineStep(info, line), "pci_address") == Get(info, "pci_address")
  {
    FirmwareBranch(info, line);
  }

  // ----- Detection (`_detect_npu`) -----

  /** The verdict of detection and the device-info dictionary it recorded. */
  datatype Detection = Detection(available: bool, info: Option<Info>)

  /** The examine output names a supported NPU. */
  predicate ListsNpu(out: string) {
    Text.Contains(out, "NPU Phoenix") || Text.Contains(out, "RyzenAI")
  }

  /** `_detect_npu`: `nodeExists` and `nodeOpens` say whether the device node
      exists and opens read/write; `examine` is what running `xrt-smi examine`
      came to (consulted only when the node does not exist). */
  function DetectNpu(nodeExists: bool, nodeOpens: bool, examine: CommandRun): (d: Detection)
    ensures d.available <==> d.info.Some?
    ensures nodeExists ==> (d.available <==> nodeOpens)
    ensures !nodeExists ==> (d.available <==> examine.Succeeded() && ListsNpu(examine.stdout))
    ensures d.available ==>
              && d.info.value.Keys <= ParsedKeys + {"method"}
              && "device" in d.info.value && d.info.value["device"] == DevicePath
              && "method" in d.info.value
              && (d.info.value["method"] == ToolMethod <==> !nodeExists)
    ensures d.available && nodeExists ==> Get(d.info.value, "pci_address").None?
    ensures d.available && nodeExists ==>
              d.info == Some(map["device" := DevicePath, "type" := DirectType, "method" := DirectMethod])
    ensures d.available && !nodeExists ==>
              d.info.value == ParseXrtInfo(DevicePath, examine.stdout)["method" := ToolMethod]
  {
    if nodeExists then
      if nodeOpens then
        Detection(true, Some(map["device" := DevicePath, "type" := DirectType, "method" := DirectMethod]))
      else Detection(false, None)
    else
      match examine
      case Exited(code, out, _) =>
        if code == 0 && (Text.Contains(out, "NPU Phoenix") || Text.Contains(out, "RyzenAI")) then
          Detection(true, Some(ParseXrtInfo(DevicePath, out)["method" := ToolMethod]))
        else Detection(false, None)
      case Raised(_) => Detection(false, None)
  }

  /** When the device node exists, the vendor tool plays no part in detection. */
  lemma DetectionIgnoresToolWhenNodeExists(nodeOpens: bool, e1: CommandRun, e2: CommandRun)
    ensures DetectNpu(true, nodeOpens, e1) == DetectNpu(true, nodeOpens, e2)
  {
  }

  // ----- The device object -----

  /** The state of an `NPUDevice` after construction. */
  datatype Npu = Npu(devicePath: string, deviceInfo: Option<Info>, available: bool)

  /** `NPUDevice()`: run detection once and keep its verdict and info. */
  function Create(nodeExists: bool, nodeOpens: bool, examine: CommandRun): (npu: Npu)
    ensures npu.devicePath == DevicePath
    ensures npu.available <==> npu.deviceInfo.Some?
    ensures npu.deviceInfo.Some? ==> "status" !in npu.deviceInfo.value
  {
    var d := DetectNpu(nodeExists, nodeOpens, examine);
    NoStatusKey(d.info);
    Npu(DevicePath, d.info, d.available)
  }

  /** Detected info never holds the `status` key of the unavailable answer. */
  lemma NoStatusKey(info: Option<Info>)
    requires info.Some? ==> info.value.Keys <= ParsedKeys + {"method"}
    ensures info.Some? ==> "status" !in info.value
  {
  }

  /** `get_device_info`. */
  function GetDeviceInfo(npu: Npu): (r: Option<Info>)
  {
    if !npu.available then Some(NotAvailable) else npu.deviceInfo
  }

  /** For every constructed device, `get_device_info` returns a dictionary; it
      is exactly `{"status": "not available"}` when the device is unavailable,
      and otherwise the detected info, which names the device and never holds
      `status`. So the `status` key tells a caller which case it is in. */
  lemma DeviceInfoOfCreated(nodeExists: bool, nodeOpens: bool, examine: CommandRun)
    ensures var npu := Create(nodeExists, nodeOpens, examine);
            var r := GetDeviceInfo(npu);
            && r.Some?
            && (!npu.available ==> r.value == NotAvailable)
            && ("status" in r.value <==> !npu.available)
            && (npu.available ==> r == npu.deviceInfo && r.value["device"] == DevicePath)
  {
    var d := DetectNpu(nodeExists, nodeOpens, examine);
    var npu := Create(nodeExists, nodeOpens, examine);
    assert npu.deviceInfo == d.info && npu.available == d.available;
    if !npu.available {
      assert GetDeviceInfo(npu) == Some(NotAvailable);
    } else {
      assert GetDeviceInfo(npu) == d.info;
    }
  }

  // ----- Power mode (`set_power_mode`) -----

  /** The outcome of probing candidate paths in order: the first that exists,
      and the paths looked at up to and including it. */
  datatype Probe = Probe(found: Option<string>, probed: seq<string>)

  /** The `for path in ...: if os.path.exists(path): ...; break` loop. */
  function FindTool(candidates: seq<string>, existing: set<string>): (p: Probe)
    ensures p.probed <= candidates
    ensures p.found.None? ==> p.probed == candidates
    ensures p.found.None? <==> forall k :: 0 <= k < |candidates| ==> candidates[k] !in existing
    ensures p.found.Some? ==> |p.probed| > 0 && p.found.value == p.probed[|p.probed| - 1]
                              && p.found.value in existing
                              && forall k :: 0 <= k < |p.probed| - 1 ==> p.probed[k] !in existing
    decreases |candidates|
  {
    if |candidates| == 0 then Probe(None, [])
    else if candidates[0] in existing then Probe(Some(candidates[0]), [candidates[0]])
    else
      var rest := FindTool(candidates[1..], existing);
      ProbeStep(candidates, existing, rest);
      Probe(rest.found, [candidates[0]] + rest.probed)
  }

  /** A probe of the later candidates, with the first candidate missing in
      front of it, is a probe of all of them. */
  lemma ProbeStep(candidates: seq<string>, existing: set<string>, rest: Probe)
    requires |candidates| > 0 && candidates[0] !in existing
    requires rest.probed <= candidates[1..]
    requires rest.found.None? ==> rest.probed == candidates[1..]
    requires rest.found.None? <==> forall k :: 0 <= k < |candidates[1..]| ==> candidates[1..][k] !in existing
    requires rest.found.Some? ==> |rest.probed| > 0 && rest.found.value == rest.probed[|rest.probed| - 1]
                                  && rest.found.value in existing
                                  && forall k :: 0 <= k < |rest.probed| - 1 ==> rest.probed[k] !in existing
    ensures var p := Probe(rest.found, [candidates[0]] + rest.probed);
            && p.probed <= candidates
            && (p.found.None? ==> p.probed == candidates)
            && (p.found.None? <==> forall k :: 0 <= k < |candidates| ==> candidates[k] !in existing)
            && (p.found.Some? ==> |p.probed| > 0 && p.found.value == p.probed[|p.probed| - 1]
                                  && p.found.value in existing
                                  && forall k :: 0 <= k < |p.probed| - 1 ==> p.probed[k] !in existing)
  {
    assert candidates == [candidates[0]] + candidates[1..];
    assert forall k :: 1 <= k < |candidates| ==> candidates[k] == candidates[1..][k - 1];
  }

  /** What `set_power_mode` did: its return value, the paths it checked for
      `xrt-smi`, and the command line it ran, if it got that far. */
  datatype PowerModeRun = PowerModeRun(ok: bool, probed: seq<string>, argv: Option<seq<string>>)

  /** `set_power_mode(mode)`: `existing` is the set of existing paths and
      `configure` the outcome of the `sudo xrt-smi configure` command. */
  function SetPowerMode(npu: Npu, mode: string, existing: set<string>, configure: CommandRun): (run: PowerModeRun)
    ensures !npu.available ==> run == PowerModeRun(false, [], None)
    ensures run.ok ==> run.argv.Some? && configure.Succeeded()
    ensures npu.available && XrtSmi !in existing && XrtSmiUnwrapped !in existing ==>
              !run.ok && run.argv.None? && run.probed == XrtSmiCandidates
    ensures run.argv.Some? ==>
              && |run.argv.value| == 7
              && npu.available && npu.deviceInfo.Some?
              && run.argv.value[..4] == ["sudo", if XrtSmi in existing then XrtSmi else XrtSmiUnwrapped,
                                         "configure", "--device"]
              && run.argv.value[4..] == [Get(npu.deviceInfo.value, "pci_address").GetOr(DefaultPciAddress),
                                         "--pmode", mode]
              && (run.ok <==> configure.Succeeded())
    ensures npu.available && npu.deviceInfo.Some? && (XrtSmi in existing || XrtSmiUnwrapped in existing)
            ==> run.argv.Some?
  {
    if !npu.available then PowerModeRun(false, [], None)
    else
      assert XrtSmiCandidates[0] == XrtSmi && XrtSmiCandidates[1] == XrtSmiUnwrapped;
      var probe := FindTool(XrtSmiCandidates, existing);
      match probe.found
      case None => PowerModeRun(false, probe.probed, None)
      case Some(tool) =>
        match npu.deviceInfo
        // `self.device_info.get` on None raises; the handler returns False
        case None => PowerModeRun(false, probe.probed, None)
        case Some(info) =>
          var pci := Get(info, "pci_address").GetOr(DefaultPciAddress);
          var argv := ["sudo", tool, "configure", "--device", pci, "--pmode", mode];
          PowerModeRun(configure.Succeeded(), probe.probed, Some(argv))
  }

  /** A device found through its node never records a PCI address, so setting
      its power mode always targets the hard-coded default address. */
  lemma DirectDeviceUsesDefaultAddress(e: CommandRun, mode: string, existing: set<string>, configure: CommandRun)
    requires XrtSmi in existing || XrtSmiUnwrapped in existing
    ensures var run := SetPowerMode(Create(true, true, e), mode, existing, configure);
            run.argv.Some? && run.argv.value[4] == DefaultPciAddress
  {
    var run := SetPowerMode(Create(true, true, e), mode, existing, configure);
    assert run.argv.value[4] == run.argv.value[4..][0];
  }

  // ----- Power state (`get_power_state`) -----

  /** The state a line reports: D0 when it mentions D0 (even if it also
      mentions D3), D3hot when it mentions only D3, nothing otherwise. */
  function PowerStateOf(line: string): Option<string> {
    if Text.Contains(line, "D0") then Some(D0Label)
    else if Text.Contains(line, "D3") then Some(D3Label)
    else None
  }

  /** The classification loop of `get_power_state`, branch for branch: it
      returns on the first line that reports a state; a line that mentions
      only Power passes the outer test but returns nothing. */
  function ScanPowerLines(lines: seq<string>): (r: Option<string>)
    ensures Scan.FirstHit(lines, PowerStateOf, r)
    decreases |lines|
  {
    if |lines| == 0 then None
    else
      var line := lines[0];
      if Text.Contains(line, "Power") || Text.Contains(line, "D0") || Text.Contains(line, "D3") then
        if Text.Contains(line, "D0") then Scan.FirstHitHere(lines, PowerStateOf); Some(D0Label)
        else if Text.Contains(line, "D3") then Scan.FirstHitHere(lines, PowerStateOf); Some(D3Label)
        else Scan.FirstHitLater(lines, PowerStateOf, ScanPowerLines(lines[1..])); ScanPowerLines(lines[1..])
      else Scan.FirstHitLater(lines, PowerStateOf, ScanPowerLines(lines[1..])); ScanPowerLines(lines[1..])
  }

  /** `get_power_state`: `existing` is the set of existing paths and `examine`
      the outcome of `xrt-smi examine` run with the tool found. None means the
      device is unavailable, no tool exists, or running it raised; otherwise
      the state of the first output line reporting one, or Unknown when none
      does or the command failed. */
  function GetPowerState(npu: Npu, existing: set<string>, examine: CommandRun): (r: Option<string>)
    ensures r.None? <==> !npu.available || (XrtSmi !in existing && XrtSmiUnwrapped !in existing)
                         || examine.Raised?
    ensures r.Some? && !examine.Succeeded() ==> r.value == UnknownState
    ensures r.Some? && examine.Succeeded() ==>
              && (r.value == UnknownState ==> Scan.FirstHit(Text.Split(examine.stdout, '\n'), PowerStateOf, None))
              && (r.value != UnknownState ==> Scan.FirstHit(Text.Split(examine.stdout, '\n'), PowerStateOf, r))
  {
    if !npu.available then None
    else
      var tool := if XrtSmi in existing then XrtSmi else XrtSmiUnwrapped;
      if tool !in existing then None
      else
        match examine
        case Raised(_) => None
        case Exited(code, out, _) =>
          if code == 0 then Some(ScanPowerLines(Text.Split(out, '\n')).GetOr(UnknownState))
          else Some(UnknownState)
  }
}
