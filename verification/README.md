# unicorn-npu-core in Dafny

A model of the hardware-facing core of `unicorn_npu`. The core is the Python helper package that finds the AMD Phoenix NPU, reads its state through the XRT command-line tool `xrt-smi`, picks ONNX Runtime execution providers, and wraps the `pyxrt` bindings. It comes in four parts:

- **NPU prober** (`hardware/npu_device.py`, module `NpuDevice`):
  - detection: a direct open of `/dev/accel/accel0`, falling back to `xrt-smi examine`;
  - the key/value scraper for the examine output;
  - `get_device_info`, `set_power_mode` and the power-state classifier.
- **Execution-provider selector** (`runtime/onnx_helpers.py`, module `OnnxHelpers`):
  - the `CPU_ONLY_MODE` override;
  - the priority-ordered provider list and the provider report;
  - the single-provider check.
- **XRT runtime wrapper** (`hardware/xrt_wrapper.py`, module `XrtRuntime`):
  - importing the `XRT`/`XILINX` variables from `setup.sh`;
  - the availability check;
  - the version line and the device-status classifier.
- **Binding wrapper** (`runtime/xrt_wrapper.py`, module `XrtBindings`):
  - the device handle: open, load an XCLBIN, allocate a buffer object, close;
  - XCLBIN validation and the version field.

Three support modules:

- `Outcomes`: `Option`, `Result`, and `CommandRun`, the observed outcome of a subprocess (it exited with a code and its output, or it raised).
- `Text`: the Python `str` operations the code relies on: `in`, `find`, `split`, `split(sep, 1)`, `strip`, `lower` and `str(int)`.
- `Scan`: three declarative descriptions of how the scrapers consume lines. `FirstHit` is a loop that returns on its first match. `LastHit` is a loop whose later matches overwrite earlier ones. `Hits` is every match, in order.

The operations follow the Python branch for branch. Their contracts tie them to those independent descriptions: the scraper's `pci_address`, for example, is the `LastHit` of a per-line contribution function.

All I/O enters as parameters, namely:

- whether a path exists (a set of paths, or a map from path to size);
- whether the device node opens;
- each command's `CommandRun`;
- what each `pyxrt` or `onnxruntime` call returns or raises, as a `Result`.

An effect the source performs in place comes back as a value instead: the process environment is returned as a new map, and a device as a new `Device` record.

## Model

| member | source | states |
|---|---|---|
| `Text.Split` | unicorn_npu/hardware/npu_device.py:78 | `split('\n')` always yields at least one part, so the loop body runs even for empty output |
| `Text.SplitSeparated` | unicorn_npu/hardware/npu_device.py:78 | no part of `split('\n')` contains a newline |
| `Text.SplitRejoins` | unicorn_npu/hardware/npu_device.py:78 | joining the parts of `split('\n')` with newlines gives back the text, so the parts cover the output exactly, in order |
| `Text.SplitJoin` | unicorn_npu/hardware/npu_device.py:78 | splitting the newline-join of newline-free parts gives back exactly those parts |
| `Text.SplitOnce` | unicorn_npu/hardware/npu_device.py:87 | `split(':', 1)` has two parts exactly when the separator occurs; the first part holds no separator, and the second part is everything after the first separator |
| `Text.StripCutsOnlySpace` | unicorn_npu/hardware/npu_device.py:79 | `strip()` keeps a contiguous slice of the line and removes only whitespace |
| `Text.Strip` | unicorn_npu/hardware/npu_device.py:79 | the stripped line is no longer than the input and begins and ends with a non-space character (or is empty) |
| `Text.StripIdempotent` | unicorn_npu/hardware/npu_device.py:79 | stripping an already stripped line changes nothing |
| `Text.ContainsOccurs` | unicorn_npu/hardware/npu_device.py:80 | `pat in line` holds exactly when `pat` occurs at some position of the line |
| `Text.IndexOf` | unicorn_npu/hardware/npu_device.py:82-83 | `find` gives -1 only when no index holds the character, and otherwise an index holding it with none before it |
| `Text.IndexOfIn` | unicorn_npu/hardware/npu_device.py:82-84 | `find` gives -1 exactly when the character is not `in` the line, which is the `!= -1` test the code makes; a found index has no earlier occurrence before it |
| `Text.Slice` | unicorn_npu/hardware/npu_device.py:85 | a Python slice whose end is not after its start is empty; otherwise, within bounds, it is the ordinary subsequence |
| `Text.NatToDecimal` | unicorn_npu/runtime/xrt_wrapper.py:50 | the device index in the open-failure message is written in decimal digits that spell its value, with no leading zero |
| `Text.IntToDecimal` | unicorn_npu/runtime/xrt_wrapper.py:50 | `str(index)` starts with `-` exactly when the index is negative, followed by the digits of its magnitude; a non-negative index is just its digits |
| `Text.Lower` | unicorn_npu/runtime/onnx_helpers.py:19 | `lower()` keeps the length, leaves no upper-case ASCII letter, maps each one to its lower-case partner and leaves every other character alone (also used by the `'xrt' in line.lower()` test at hardware/xrt_wrapper.py:91) |
| `Text.LowerIdempotent` | unicorn_npu/runtime/onnx_helpers.py:19 | lowering an already lowered string changes nothing |
| `Text.LastFieldAfterLastSeparator` | unicorn_npu/runtime/xrt_wrapper.py:170 | `line.split(':')[-1]` is the text after the last colon, or the whole line when there is no colon |
| `NpuDevice.ParseXrtInfo` | unicorn_npu/hardware/npu_device.py:74-95 | the parsed map always has `device` set to the device path and no keys beyond device, pci_address, firmware and type; each optional key holds the value from the last output line that provides it, and is absent if no line does |
| `NpuDevice.ParseLines` | unicorn_npu/hardware/npu_device.py:78-93 | the loop over the lines: later lines overwrite earlier ones key by key, which gives the last-match-wins result above |
| `NpuDevice.LineStepEffect` | unicorn_npu/hardware/npu_device.py:80-93 | one iteration writes exactly the contributions of its stripped line: a PCI address, a firmware value or a type value, and never two of them |
| `NpuDevice.LineStepKeys` | unicorn_npu/hardware/npu_device.py:80-93 | an iteration adds no key outside the scraper's four and never changes `device` |
| `NpuDevice.DeviceBranch` | unicorn_npu/hardware/npu_device.py:80-85 | a line with `Device` and `[` can only set `pci_address`; it contributes no firmware or type even if it mentions them |
| `NpuDevice.FirmwareBranch` | unicorn_npu/hardware/npu_device.py:86-89 | a Firmware line that is not a device line sets `firmware` to the trimmed text after its first colon, and nothing else |
| `NpuDevice.TypeBranch` | unicorn_npu/hardware/npu_device.py:90-93 | a Type line that matched neither earlier branch sets `type` to the trimmed text after its first colon, and nothing else |
| `NpuDevice.DeviceLineWithoutCloseBracketSetsNothing` | unicorn_npu/hardware/npu_device.py:82-85 | a device line with no `]` leaves the map unchanged |
| `NpuDevice.ReversedBracketsGiveEmptyAddress` | unicorn_npu/hardware/npu_device.py:82-85 | when the first `]` comes before the first `[`, the address becomes the empty string |
| `NpuDevice.AddressIsBracketInterior` | unicorn_npu/hardware/npu_device.py:82-85 | otherwise the line reads `pre [addr] post`, where `pre` holds no bracket, `addr` holds no `]`, and `addr` is the stored address |
| `NpuDevice.FirmwareLineKeepsType` | unicorn_npu/hardware/npu_device.py:86-93 | a Firmware line never changes `type` or `pci_address`, even if it also mentions Type |
| `NpuDevice.DetectNpu` | unicorn_npu/hardware/npu_device.py:25-72 | if the device node exists, availability depends only on whether it opens; otherwise the NPU is available exactly when `xrt-smi examine` exits 0 and its output names `NPU Phoenix` or `RyzenAI`. The info map exists exactly when the NPU is available, always names the device, and its method records which route succeeded; on the direct route it is exactly `{device: /dev/accel/accel0, type: AMD Phoenix NPU, method: direct_device_access}`, and on the tool route it is the parsed output with `method` set to `xrt_tools` |
| `NpuDevice.DetectionIgnoresToolWhenNodeExists` | unicorn_npu/hardware/npu_device.py:28-43 | when the device node exists, the tool's outcome plays no part in detection |
| `NpuDevice.Create` | unicorn_npu/hardware/npu_device.py:19-23 | a constructed device is available exactly when it holds device info, and that info never contains a `status` key |
| `NpuDevice.DeviceInfoOfCreated` | unicorn_npu/hardware/npu_device.py:101-105 | for an unavailable device `get_device_info` returns exactly `{"status": "not available"}`; otherwise it returns exactly the stored detected info, which names the device path, so the presence of `status` tells the caller which case applies |
| `NpuDevice.FindTool` | unicorn_npu/hardware/npu_device.py:120-124 | the probe checks the candidate paths in order and stops at the first existing one; it finds nothing exactly when no candidate exists |
| `NpuDevice.SetPowerMode` | unicorn_npu/hardware/npu_device.py:107-150 | an unavailable device fails before any path is checked; with neither `xrt-smi` path present it fails after checking both; otherwise it runs `sudo <first existing xrt-smi> configure --device <pci or 0000:c7:00.1> --pmode <mode>` and succeeds exactly when that command exits 0 |
| `NpuDevice.DirectDeviceUsesDefaultAddress` | unicorn_npu/hardware/npu_device.py:131 | a device detected through its node has no recorded PCI address, so its power-mode command always targets `0000:c7:00.1` |
| `NpuDevice.ScanPowerLines` | unicorn_npu/hardware/npu_device.py:174-179 | the first line that mentions D0 or D3 decides the state, and D0 wins within a line; lines that mention only Power are passed over |
| `NpuDevice.GetPowerState` | unicorn_npu/hardware/npu_device.py:152-185 | None exactly when the device is unavailable, no `xrt-smi` exists, or the command raised; `Unknown` on a non-zero exit or when no line reports a state; otherwise the state from the first reporting line |
| `OnnxHelpers.NewHelper` | unicorn_npu/runtime/onnx_helpers.py:17-19 | CPU-only mode is on exactly when `CPU_ONLY_MODE` is set to `1`, `true` or `yes` in any letter case; an unset variable leaves it off |
| `OnnxHelpers.KeepAvailable` | unicorn_npu/runtime/onnx_helpers.py:51-54 | the loop keeps exactly the candidates that are available, in candidate order |
| `OnnxHelpers.GetExecutionProviders` | unicorn_npu/runtime/onnx_helpers.py:21-67 | the list has 1 to 6 entries with no duplicates, and `CPUExecutionProvider` appears once, last; it is exactly `[CPUExecutionProvider]` in CPU-only mode or when onnxruntime cannot be queried; otherwise it is the available accelerator providers in the fixed priority order, then CPU |
| `OnnxHelpers.PreferNpuIgnored` | unicorn_npu/runtime/onnx_helpers.py:21-60 | the selection does not depend on `prefer_npu` |
| `OnnxHelpers.CheckProviderAvailable` | unicorn_npu/runtime/onnx_helpers.py:106-123 | the check is true exactly when onnxruntime reports the name |
| `OnnxHelpers.CheckAgreesWithSelection` | unicorn_npu/runtime/onnx_helpers.py:116-118 | outside CPU-only mode, an accelerator provider is selected exactly when the single-provider check reports it, and CPU is always selected |
| `OnnxHelpers.DescribeMatchesTable` | unicorn_npu/runtime/onnx_helpers.py:148-158 | the if/elif chain gives descriptions exactly for the five named providers; DirectML gets none |
| `OnnxHelpers.Records` | unicorn_npu/runtime/onnx_helpers.py:142-160 | one record per reported provider, in order, each marked available and carrying its description if it has one |
| `OnnxHelpers.GetProviderInfo` | unicorn_npu/runtime/onnx_helpers.py:125-169 | the report copies the CPU-only flag and lists every reported provider in order; when onnxruntime cannot be queried it has no records and holds `onnxruntime not installed` or the failure's message |
| `XrtRuntime.AssignmentOf` | unicorn_npu/hardware/xrt_wrapper.py:41-42 | only lines that contain `=` and mention XRT or XILINX anywhere are taken; the name comes before the first `=`, and the value is the rest, which may itself contain `=` |
| `XrtRuntime.ScanEnvLines` | unicorn_npu/hardware/xrt_wrapper.py:40-47 | the assignments made are the taken lines' pairs, in order, up to the first one the OS refuses; the loop runs to the end exactly when every taken pair can be set |
| `XrtRuntime.ApplyEnv` | unicorn_npu/hardware/xrt_wrapper.py:43 | the assignments add exactly their names to the environment |
| `XrtRuntime.EnvLastWins` | unicorn_npu/hardware/xrt_wrapper.py:40-43 | a name assigned more than once ends up with its last value |
| `XrtRuntime.EnvUntouched` | unicorn_npu/hardware/xrt_wrapper.py:40-43 | a name no assignment mentions keeps its value, or stays unset |
| `XrtRuntime.SetupEnvironment` | unicorn_npu/hardware/xrt_wrapper.py:24-48 | the environment is unchanged when `setup.sh` is missing or running it fails or raises; otherwise the loop's assignments are applied in order, and no variable is ever removed |
| `XrtRuntime.Init` | unicorn_npu/hardware/xrt_wrapper.py:18-69 | XRT counts as available exactly when `xrt-smi version` exits 0; a missing tool, a timeout or any other exception leaves it unavailable, whatever happened while setting up the environment |
| `XrtRuntime.ScanVersionLines` | unicorn_npu/hardware/xrt_wrapper.py:90-92 | the version is the first line that contains `Version`, or contains `xrt` in any letter case, stripped |
| `XrtRuntime.GetVersion` | unicorn_npu/hardware/xrt_wrapper.py:75-98 | None exactly when XRT is unavailable or the command raised; `Unknown` on a non-zero exit or when no line matches; otherwise the first matching line |
| `XrtRuntime.StatusLine` | unicorn_npu/hardware/xrt_wrapper.py:121-126 | a line's Temperature rule takes precedence over Power, and Power over Firmware, and the stored value is the whole stripped line |
| `XrtRuntime.ScanStatusLines` | unicorn_npu/hardware/xrt_wrapper.py:120-126 | each status key holds the last line that contributes to it |
| `XrtRuntime.GetDeviceStatus` | unicorn_npu/hardware/xrt_wrapper.py:100-134 | None exactly when XRT is unavailable or the command raised; offline with the captured stderr on a non-zero exit; otherwise online with the raw output and, per key, the last contributing line |
| `XrtBindings.Open` | unicorn_npu/runtime/xrt_wrapper.py:26-50 | without the bindings the constructor raises the "not available" error naming `/opt/xilinx/xrt/python`; otherwise it returns an open device with no XCLBIN exactly when the binding opens it, and wraps the binding's error together with the index otherwise |
| `XrtBindings.LoadXclbin` | unicorn_npu/runtime/xrt_wrapper.py:52-73 | a missing path raises a not-found error naming it; a closed device or a binding failure raises `Failed to load XCLBIN: …`; only a success records the UUID, and every failure leaves the device as it was |
| `XrtBindings.LoadSkipsBinding` | unicorn_npu/runtime/xrt_wrapper.py:64-68 | when the path is missing or the device is closed, the binding's answer has no effect on the outcome |
| `XrtBindings.AllocateBo` | unicorn_npu/runtime/xrt_wrapper.py:75-88 | a closed device raises `Device not opened`; otherwise it returns a normal buffer of the requested size in group 0 on this device, unless the binding raises |
| `XrtBindings.Close` | unicorn_npu/runtime/xrt_wrapper.py:90-94 | closing leaves the device without a handle and keeps its index and last UUID |
| `XrtBindings.CloseIdempotent` | unicorn_npu/runtime/xrt_wrapper.py:90-94 | closing twice is the same as closing once |
| `XrtBindings.OpenThenClose` | unicorn_npu/runtime/xrt_wrapper.py:44-94 | a freshly opened device passes the allocation guard; after closing, allocation is refused and loading fails without recording a UUID |
| `XrtBindings.ValidateXclbin` | unicorn_npu/runtime/xrt_wrapper.py:100-129 | the result is valid exactly when the path exists, and then reports the path and its size; otherwise it reports a `File not found` error naming the path and no size |
| `XrtBindings.ValidateAgreesWithLoad` | unicorn_npu/runtime/xrt_wrapper.py:62-65 | a path passes validation exactly when loading it gets past the existence check |
| `XrtBindings.VersionFieldAfterLastColon` | unicorn_npu/runtime/xrt_wrapper.py:168-170 | a Version line yields the trimmed text after its last colon, or the whole line trimmed if it has no colon |
| `XrtBindings.ScanVersionFields` | unicorn_npu/runtime/xrt_wrapper.py:168-170 | the first line that contains `Version` decides the result |
| `XrtBindings.GetXrtVersion` | unicorn_npu/runtime/xrt_wrapper.py:152-173 | None exactly when the bindings are missing; `Unknown (available)` when the command fails, raises or prints no Version line; otherwise the field of its first Version line |

## Left out

- Running processes is not modelled. This covers `subprocess.run`, timeouts, `sudo`, and the shell that sources `setup.sh`. Each command's outcome is an input `CommandRun`, and every exception it can raise is folded into `Raised`.
- `os.open`/`os.close` on the device node are inputs: does the node exist, does it open.
- `os.path.exists`, `Path.exists` and `Path.stat` are also inputs: a set of existing paths, or a map from path to size.
- Logging output is left out. A `print` that raises is not modelled either; one could fail on a closed stdout, or on the emoji when stdout cannot encode it. It has two consequences. At runtime/xrt_wrapper.py:48 it would turn a successful open into `RuntimeError("Failed to open NPU device …")`. At runtime/xrt_wrapper.py:69-70 it would raise `Failed to load XCLBIN: …` after line 68 has already recorded `xclbin_uuid`; `XrtBindings.LoadXclbin` promises that a failure leaves the device unchanged, which does not cover this case.
- The inner workings of `pyxrt` and `onnxruntime` are left out. Each call is an input `Result`, and an XCLBIN UUID is represented by its string form.
- Adding `/opt/xilinx/xrt/python` to `sys.path` and the `import pyxrt` attempt (runtime/xrt_wrapper.py:11-20) are left out. Whether the bindings are available is an input.
- `create_session_options` (runtime/onnx_helpers.py:69-104) is left out: it only configures a library object.
- `find_xclbin` (runtime/xrt_wrapper.py:132-144) is left out: it is a directory glob.
- The accessors `is_available` (hardware/npu_device.py:97-99, hardware/xrt_wrapper.py:71-73) and `check_xrt_available` (runtime/xrt_wrapper.py:147-149) are left out: each returns a stored flag unchanged. The flags themselves are the `available` and `xrtAvailable` fields, and the `bindingsAvailable` input.
- `open_npu` (runtime/xrt_wrapper.py:177-187) is `XrtBindings.Open` itself.
- The installer, packaging, demo script and package re-exports are not part of this model.
- `Text.Strip` and `Text.Lower` handle ASCII only. `strip` removes ASCII whitespace (space, `\t`-`\r`, 0x1C-0x1F) but not the other Unicode spaces Python strips. `lower` maps only `A`-`Z`. This is exact for the `CPU_ONLY_MODE` words. It is also exact for the `'xrt' in line.lower()` test, because no non-ASCII character lowers to `x`, `r` or `t`.
- `XrtBindings.ValidateXclbin` does not model `Path` normalisation (`str(Path(p))` collapses `//` and `/./` and drops a trailing `/`). Paths are taken as already normal, and the same path string is used for the existence check and in the messages.
- `XrtRuntime.ScanEnvLines` models only the causes of a failed `os.environ` assignment that depend on the text: an empty name, or a NUL in the name or value. Failures inside the C library, such as running out of memory, are not modelled.
- `NpuDevice.GetDeviceInfo` has no contract of its own. Its result is stated for every constructed device by `NpuDevice.DeviceInfoOfCreated`.
- `NpuDevice.GetPowerState` does not record which of the two `xrt-smi` paths it ran. The command outcome is a single input.
