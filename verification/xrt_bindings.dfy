/**
 The `pyxrt` wrapper of `unicorn_npu/runtime/xrt_wrapper.py`: opening a
 device, loading an XCLBIN, allocating buffer objects, closing, validating an
 XCLBIN path and the version string.

 Whether the bindings imported is a parameter, and every call into them is an
 oracle: a `Result` carrying what the binding returns or the message of what
 it raises. The file system is a map from existing paths to their sizes.
 */
module XrtBindings {
  import opened Outcomes
  import Text
  import Scan

  const PythonPath := "/opt/xilinx/xrt/python"
  const BindingsMissing := "XRT Python bindings not available. Expected at: " + PythonPath
  const NotOpened := "Device not opened"
  const UnknownAvailable := "Unknown (available)"

  /** What Python's `str(e)` gives for the AttributeError that calling
      `load_xclbin` on a closed device (`self.device is None`) raises. */
  const NoDeviceAttribute := "'NoneType' object has no attribute 'load_xclbin'"

  /** Existing paths and their sizes in bytes. */
  type FileSystem = map<string, nat>

  /** The exceptions the wrapper raises: its own, or one a binding raised and
      the wrapper let through. */
  datatype Error =
    | RuntimeError(message: string)
    | FileNotFoundError(message: string)
    | BindingError(message: string)

  /** An opaque `pyxrt.device` object. */
  datatype Handle = Handle(id: nat)

  /** An `NPUDevice`: its index, the binding's device object (None once
      closed) and the UUID of the last XCLBIN loaded. */
  datatype Device = Device(index: int, handle: Option<Handle>, xclbinUuid: Option<string>)

  /** A `pyxrt.bo` in the normal memory flavour, allocated in memory group 0. */
  datatype BufferObject = BufferObject(handle: Handle, size: int, memoryGroup: int)

  // ----- Opening (`NPUDevice.__init__`, `_open_device`, `open_npu`) -----

  /** The message `_open_device` wraps a binding failure in. */
  function OpenFailure(index: int, e: string): string {
    "Failed to open NPU device " + Text.IntToDecimal(index) + ": " + e
  }

  /** `NPUDevice(index)`, which is also `open_npu(index)`. Without the bindings
      it raises before touching the device; otherwise it yields an open device
      with no XCLBIN loaded exactly when the binding opens the device, and
      wraps the binding's error otherwise. */
  function Open(bindingsAvailable: bool, index: int, open: Result<Handle, string>): (r: Result<Device, Error>)
    ensures !bindingsAvailable ==> r == Failure(RuntimeError(BindingsMissing))
    ensures r.Success? <==> bindingsAvailable && open.Success?
    ensures r.Success? ==> r.value.index == index && r.value.handle == Some(open.value) && r.value.xclbinUuid.None?
    ensures bindingsAvailable && open.Failure? ==> r == Failure(RuntimeError(OpenFailure(index, open.error)))
  {
    if !bindingsAvailable then Failure(RuntimeError(BindingsMissing))
    else
      match open
      case Success(h) => Success(Device(index, Some(h), None))
      case Failure(e) => Failure(RuntimeError(OpenFailure(index, e)))
  }

  // ----- Loading an XCLBIN (`load_xclbin`) -----

  /** What `load_xclbin` returns or raises, and the device afterwards. */
  datatype Loaded = Loaded(result: Result<string, Error>, device: Device)

  /** `device.load_xclbin(path)`. A missing path raises FileNotFoundError naming
      it; a closed device raises the AttributeError of calling a method on
      None, and that and any binding error come back wrapped in RuntimeError.
      The UUID is recorded only on success; on every failure the device is
      left as it was. */
  function LoadXclbin(d: Device, path: string, fs: FileSystem, load: Result<string, string>): (r: Loaded)
    ensures path !in fs ==> r == Loaded(Failure(FileNotFoundError("XCLBIN not found: " + path)), d)
    ensures r.result.Success? <==> path in fs && d.handle.Some? && load.Success?
    ensures r.result.Success? ==> r.result.value == load.value && r.device == d.(xclbinUuid := Some(load.value))
    ensures r.result.Failure? ==> r.device == d
    ensures path in fs && d.handle.None? ==>
              r.result == Failure(RuntimeError("Failed to load XCLBIN: " + NoDeviceAttribute))
    ensures path in fs && d.handle.Some? && load.Failure? ==>
              r.result == Failure(RuntimeError("Failed to load XCLBIN: " + load.error))
  {
    if path !in fs then Loaded(Failure(FileNotFoundError("XCLBIN not found: " + path)), d)
    else
      var outcome := if d.handle.None? then Failure(NoDeviceAttribute) else load;
      match outcome
      case Success(uuid) => Loaded(Success(uuid), d.(xclbinUuid := Some(uuid)))
      case Failure(e) => Loaded(Failure(RuntimeError("Failed to load XCLBIN: " + e)), d)
  }

  /** When the path is missing, or the device is closed, the binding is never
      called: the outcome does not depend on what it would have returned. */
  lemma LoadSkipsBinding(d: Device, path: string, fs: FileSystem, load: Result<string, string>, other: Result<string, string>)
    requires path !in fs || d.handle.None?
    ensures LoadXclbin(d, path, fs, load) == LoadXclbin(d, path, fs, other)
  {
  }

  // ----- Buffers and closing (`allocate_bo`, `close`) -----

  /** `device.allocate_bo(size)`: refused on a closed device; otherwise a
      normal buffer object of `size` bytes in memory group 0 on this device's
      handle, unless the binding raises, which passes through unwrapped. */
  function AllocateBo(d: Device, size: int, bindingError: Option<string>): (r: Result<BufferObject, Error>)
    ensures d.handle.None? ==> r == Failure(RuntimeError(NotOpened))
    ensures r.Success? <==> d.handle.Some? && bindingError.None?
    ensures r.Success? ==> r.value.handle == d.handle.value && r.value.size == size && r.value.memoryGroup == 0
    ensures d.handle.Some? && bindingError.Some? ==> r == Failure(BindingError(bindingError.value))
  {
    if d.handle.None? then Failure(RuntimeError(NotOpened))
    else
      match bindingError
      case None => Success(BufferObject(d.handle.value, size, 0))
      case Some(e) => Failure(BindingError(e))
  }

  /** `device.close()`: drops the binding's device object; the index and the
      last UUID stay. */
  function Close(d: Device): (c: Device)
    ensures c.handle.None?
    ensures c.index == d.index && c.xclbinUuid == d.xclbinUuid
  {
    if d.handle.Some? then d.(handle := None) else d
  }

  /** Closing twice is closing once. */
  lemma CloseIdempotent(d: Device)
    ensures Close(Close(d)) == Close(d)
  {
  }

  /** A freshly opened device can allocate as far as the wrapper is concerned;
      once closed it refuses, and loading an existing XCLBIN fails without
      recording a UUID. */
  lemma OpenThenClose(bindingsAvailable: bool, index: int, open: Result<Handle, string>,
                      size: int, path: string, fs: FileSystem, load: Result<string, string>)
    requires Open(bindingsAvailable, index, open).Success?
    ensures var d := Open(bindingsAvailable, index, open).value;
            && AllocateBo(d, size, None).Success?
            && AllocateBo(Close(d), size, None) == Failure(RuntimeError(NotOpened))
            && LoadXclbin(Close(d), path, fs, load).device == Close(d)
            && LoadXclbin(Close(d), path, fs, load).result.Failure?
  {
  }

  // ----- Validating an XCLBIN path (`XCLBINLoader.validate_xclbin`) -----

  /** The dictionary `validate_xclbin` returns: `valid` and `exists` are True
      with the path and size, or `valid` is False with an error. */
  datatype XclbinInfo = Found(path: string, size: nat) | Missing(error: string)
  {
    predicate IsValid() { Found? }
  }

  /** `validate_xclbin(path)`: valid exactly when the path exists, reporting it
      and its size; otherwise an error naming the path. */
  function ValidateXclbin(path: string, fs: FileSystem): (info: XclbinInfo)
    ensures info.IsValid() <==> path in fs
    ensures info.Found? ==> info.path == path && info.size == fs[path]
    ensures info.Missing? ==> info.error == "File not found: " + path
  {
    if path !in fs then Missing("File not found: " + path) else Found(path, fs[path])
  }

  /** A path validates exactly when loading it gets past the existence check. */
  lemma ValidateAgreesWithLoad(d: Device, path: string, fs: FileSystem, load: Result<string, string>)
    ensures ValidateXclbin(path, fs).IsValid() <==>
              LoadXclbin(d, path, fs, load).result != Failure(FileNotFoundError("XCLBIN not found: " + path))
  {
  }

  // ----- Version (`get_xrt_version`) -----

  /** What one line of `xrt-smi version` output yields: for a line mentioning
      Version, the text after its last colon, stripped. */
  function VersionFieldOf(line: string): Option<string> {
    if Text.Contains(line, "Version") then Some(Text.Strip(Text.LastField(line, ':'))) else None
  }

  /** The field is what follows the line's last colon, or the whole line
      when it has none. */
  lemma VersionFieldAfterLastColon(line: string)
    requires Text.Contains(line, "Version")
    ensures VersionFieldOf(line) == Some(Text.Strip(line[Text.LastIndexOf(line, ':') + 1..]))
  {
    Text.LastFieldAfterLastSeparator(line, ':');
  }

  /** The version loop: return on the first line mentioning Version. */
  function ScanVersionFields(lines: seq<string>): (r: Option<string>)
    ensures Scan.FirstHit(lines, VersionFieldOf, r)
    decreases |lines|
  {
    if |lines| == 0 then None
    else if Text.Contains(lines[0], "Version") then
      Scan.FirstHitHere(lines, VersionFieldOf);
      Some(Text.Strip(Text.LastField(lines[0], ':')))
    else
      var rest := ScanVersionFields(lines[1..]);
      Scan.FirstHitLater(lines, VersionFieldOf, rest);
      rest
  }

  /** `get_xrt_version()`: None exactly when the bindings are missing. With
      them, a failed or raising `xrt-smi version` gives the placeholder, and a
      successful one gives the field of its first Version line, or the
      placeholder when there is none. */
  function GetXrtVersion(bindingsAvailable: bool, run: CommandRun): (r: Option<string>)
    ensures r.None? <==> !bindingsAvailable
    ensures r.Some? && !run.Succeeded() ==> r.value == UnknownAvailable
    ensures r.Some? && run.Succeeded() ==>
              || (Scan.FirstHit(Text.Split(run.stdout, '\n'), VersionFieldOf, None) && r.value == UnknownAvailable)
              || Scan.FirstHit(Text.Split(run.stdout, '\n'), VersionFieldOf, r)
  {
    if !bindingsAvailable then None
    else
      match run
      case Raised(_) => Some(UnknownAvailable)
      case Exited(code, out, _) =>
        if code == 0 then Some(ScanVersionFields(Text.Split(out, '\n')).GetOr(UnknownAvailable))
        else Some(UnknownAvailable)
  }
}
