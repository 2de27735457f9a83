/** The Win32 wrappers of winutils.rs. Each OS call is replaced by the value it
    returned (and the error code `GetLastError` reported right after it); what is
    modelled is how the wrappers turn those values into results. */
module WinUtils {
  import opened Wrappers
  import opened Utf16

  /** A window, process or module handle; 0 is the null handle. */
  type Handle = nat

  const NULL: Handle := 0

  /** The `WS_MINIMIZE` window-style bit. */
  const WS_MINIMIZE: bv32 := 0x2000_0000

  const MAX_PATH: nat := 260

  /** Size of the buffer handed to `GetModuleFileNameExW`, in UTF-16 units. */
  const BUFFER_LENGTH: nat := MAX_PATH + 1

  /** `get_window_handle`, given what `FindWindowA` returned for the title. */
  function GetWindowHandle(found: Handle, lastError: IoError): (r: Result<Handle, IoError>)
    ensures r.Ok? <==> found != NULL
    ensures r.Ok? ==> r.value == found && r.value != NULL
    ensures r.Err? ==> r.error == lastError
  {
    if found == NULL then Err(lastError) else Ok(found)
  }

  /** `minimize_window`, given what `ShowWindow(hwnd, SW_MINIMIZE)` returned. */
  function MinimizeWindow(shown: int, lastError: IoError): (r: Result<(), IoError>)
    ensures r.Ok? <==> shown != 0
    ensures r.Err? ==> r.error == lastError
  {
    if shown != 0 then Ok(()) else Err(lastError)
  }

  /** `is_window_minimized`, given the `GWL_STYLE` bits `GetWindowLongA` returned
      (0 means the call failed). */
  function IsWindowMinimized(style: bv32, lastError: IoError): (r: Result<bool, IoError>)
    ensures r.Err? <==> style == 0
    ensures r.Err? ==> r.error == lastError
    ensures r.Ok? ==> (r.value <==> style & WS_MINIMIZE == WS_MINIMIZE)
  {
    if style == 0 then Err(lastError) else Ok(WS_MINIMIZE & style != 0)
  }

  /** A window whose style has the minimize bit reads as minimized, whatever its other bits. */
  lemma MinimizeBitSetReadsMinimized(style: bv32, lastError: IoError)
    ensures IsWindowMinimized(style | WS_MINIMIZE, lastError) == Ok(true)
  {
  }

  /** Clearing the minimize bit of a style that keeps some other bit reads as restored. */
  lemma MinimizeBitClearReadsRestored(style: bv32, lastError: IoError)
    requires style & !WS_MINIMIZE != 0
    ensures IsWindowMinimized(style & !WS_MINIMIZE, lastError) == Ok(false)
  {
  }

  /** `get_process_id`, given the id `GetWindowThreadProcessId` wrote (a `u32`). */
  function GetProcessId(processId: nat, lastError: IoError): (r: Result<nat, IoError>)
    ensures r.Ok? <==> processId != 0
    ensures r.Ok? ==> r.value == processId
    ensures r.Err? ==> r.error == lastError
  {
    if processId != 0 then Ok(processId) else Err(lastError)
  }

  /** `get_process_handle`, given what `OpenProcess` returned. */
  function GetProcessHandle(processHandle: Handle, lastError: IoError): (r: Result<Handle, IoError>)
    ensures r.Ok? <==> processHandle != NULL
    ensures r.Ok? ==> r.value == processHandle
    ensures r.Err? ==> r.error == lastError
  {
    if processHandle == NULL then Err(lastError) else Ok(processHandle)
  }

  /** `get_process_module`, given what `EnumProcessModulesEx` returned. The module
      handle variable is never written, so success always yields the null handle. */
  function GetProcessModule(enumerated: int, lastError: IoError): (r: Result<Handle, IoError>)
    ensures r.Ok? <==> enumerated != 0
    ensures r.Ok? ==> r.value == NULL
    ensures r.Err? ==> r.error == lastError
  {
    if enumerated != 0 then Ok(NULL) else Err(lastError)
  }

  /** What `GetModuleFileNameExW` did: its return value (0 on failure), the units it
      wrote from the start of the buffer, and the error code on failure. */
  datatype FileNameReply = FileNameReply(copied: nat, units: seq<u16>, lastError: IoError)

  /** The zero-filled buffer after the call wrote `units` into it (never past its end). */
  function FilledBuffer(units: seq<u16>): (buf: seq<u16>)
    ensures |buf| == BUFFER_LENGTH
    ensures forall i :: 0 <= i < BUFFER_LENGTH ==> buf[i] == if i < |units| then units[i] else 0
  {
    seq(BUFFER_LENGTH, i requires 0 <= i < BUFFER_LENGTH => if i < |units| then units[i] else 0)
  }

  /** The units before the first zero unit; all of them when there is no zero. */
  function UntilNul(s: seq<u16>): (p: seq<u16>)
    ensures p <= s
    ensures forall i :: 0 <= i < |p| ==> p[i] != 0
    ensures |p| == |s| || s[|p|] == 0
  {
    if s == [] || s[0] == 0 then [] else [s[0]] + UntilNul(s[1..])
  }

  /** A prefix with no zero that ends at a zero or at the end is the one `UntilNul` finds. */
  lemma {:induction false} UntilNulIsFirstZero(s: seq<u16>, pos: nat)
    requires pos <= |s|
    requires forall i :: 0 <= i < pos ==> s[i] != 0
    requires pos == |s| || s[pos] == 0
    ensures UntilNul(s) == s[..pos]
  {
    if pos > 0 {
      UntilNulIsFirstZero(s[1..], pos - 1);
      assert s[..pos] == [s[0]] + s[1..][..pos - 1];
    }
  }

  /** What `get_process_file_name` returns for a reply of `GetModuleFileNameExW`. */
  function ProcessFileName(reply: FileNameReply): (r: Result<string, IoError>)
    ensures r.Err? <==> reply.copied == 0
    ensures r.Err? ==> r.error == reply.lastError
    ensures r.Ok? ==> |r.value| <= BUFFER_LENGTH
  {
    if reply.copied == 0 then Err(reply.lastError)
    else Ok(DecodeLossy(UntilNul(FilledBuffer(reply.units))))
  }

  /** `get_process_file_name`: the buffer as `GetModuleFileNameExW` left it, then
      the scan for the terminating zero unit. */
  method GetProcessFileName(reply: FileNameReply) returns (r: Result<string, IoError>)
    ensures r == ProcessFileName(reply)
  {
    var exeBuf := new u16[BUFFER_LENGTH](i requires 0 <= i => if i < |reply.units| then reply.units[i] else 0);
    if reply.copied == 0 {
      return Err(reply.lastError);
    }
    var pos := 0;
    while pos < exeBuf.Length
      invariant pos <= exeBuf.Length
      invariant forall i :: 0 <= i < pos ==> exeBuf[i] != 0
    {
      if exeBuf[pos] == 0 {
        break;
      }
      pos := pos + 1;
    }
    assert exeBuf[..] == FilledBuffer(reply.units);
    UntilNulIsFirstZero(exeBuf[..], pos);
    r := Ok(DecodeLossy(exeBuf[..pos]));
  }

  /** A name shorter than the buffer, with no zero unit in it, comes back whole:
      the zero-filled rest of the buffer terminates it. */
  lemma ShortNameReadWhole(reply: FileNameReply)
    requires reply.copied != 0
    requires |reply.units| < BUFFER_LENGTH
    requires forall i :: 0 <= i < |reply.units| ==> reply.units[i] != 0
    ensures ProcessFileName(reply) == Ok(DecodeLossy(reply.units))
  {
    var buf := FilledBuffer(reply.units);
    UntilNulIsFirstZero(buf, |reply.units|);
    assert buf[..|reply.units|] == reply.units;
  }

  /** A buffer filled without any zero unit is used whole: all `BUFFER_LENGTH` units. */
  lemma UnterminatedNameUsesWholeBuffer(reply: FileNameReply)
    requires reply.copied != 0
    requires |reply.units| >= BUFFER_LENGTH
    requires forall i :: 0 <= i < BUFFER_LENGTH ==> reply.units[i] != 0
    ensures ProcessFileName(reply) == Ok(DecodeLossy(reply.units[..BUFFER_LENGTH]))
  {
    var buf := FilledBuffer(reply.units);
    UntilNulIsFirstZero(buf, BUFFER_LENGTH);
    assert buf[..BUFFER_LENGTH] == buf == reply.units[..BUFFER_LENGTH];
  }

  /** The answers of the four OS calls `get_process_path_by_window_handle` chains. */
  datatype ProcessReplies = ProcessReplies(
    processId: nat, processIdError: IoError,
    processHandle: Handle, openError: IoError,
    enumerated: int, enumError: IoError,
    fileName: FileNameReply)

  /** `get_process_path_by_window_handle`: process id, then process handle, then
      module, then file name, stopping at the first step that fails with that
      step's error. */
  function GetProcessPathByWindowHandle(rs: ProcessReplies): (r: Result<string, IoError>)
    ensures rs.processId == 0 ==> r == Err(rs.processIdError)
    ensures rs.processId != 0 && rs.processHandle == NULL ==> r == Err(rs.openError)
    ensures rs.processId != 0 && rs.processHandle != NULL && rs.enumerated == 0 ==> r == Err(rs.enumError)
    ensures rs.processId != 0 && rs.processHandle != NULL && rs.enumerated != 0 ==> r == ProcessFileName(rs.fileName)
  {
    match GetProcessId(rs.processId, rs.processIdError)
    case Err(e) => Err(e)
    case Ok(_) =>
      match GetProcessHandle(rs.processHandle, rs.openError)
      case Err(e) => Err(e)
      case Ok(_) =>
        match GetProcessModule(rs.enumerated, rs.enumError)
        case Err(e) => Err(e)
        case Ok(_) => ProcessFileName(rs.fileName)
  }

  /** Once a step fails, no later step's answer can change the outcome. */
  lemma LaterStepsUnreachedAfterFailure(rs: ProcessReplies, later: ProcessReplies)
    requires rs.processId == 0 || rs.processHandle == NULL || rs.enumerated == 0
    requires later.processId == rs.processId && later.processIdError == rs.processIdError
    requires rs.processId != 0 ==> later.processHandle == rs.processHandle && later.openError == rs.openError
    requires rs.processId != 0 && rs.processHandle != NULL ==> later.enumerated == rs.enumerated && later.enumError == rs.enumError
    ensures GetProcessPathByWindowHandle(later) == GetProcessPathByWindowHandle(rs)
    ensures GetProcessPathByWindowHandle(rs).Err?
  {
  }
}
