# poe-minimizer: a Dafny model of the AFK minimize engine

poe-minimizer watches the *Path of Exile* game window. It reads the game's `Client.txt` log
backwards to learn whether the player turned AFK mode on. Once the player is AFK and the
window has stayed restored for longer than a grace period, it minimizes the window.

This project models the engine that makes that decision, and proves what it promises:

- **`LogScanner`** (`src/main.rs`): the reverse log scan.
  - Only the newest 20 lines are read.
  - Lines newer than the newest chat line (a line containing `ac9`) are dropped. Then every
    consecutive whisper (a line containing `] @`) is dropped, starting with that chat line
    itself when it is a whisper.
  - The first surviving line alone is classified against the eight AFK-on and eight AFK-off
    phrases. AFK-on wins when a line names both.
  - An independent description of "the line that decides" (`VerdictLineAt`) is proved to pick
    out the line the pipeline reads. The security lemmas follow from it: the verdict never
    comes from a whisper, a whisper's text cannot change the verdict as long as whether it
    contains `ac9` stays the same, and neither lines older than the window nor any line older
    than the deciding line can change the verdict (`OlderLineCannotChangeVerdict`).
- **`Minimizer`** (`src/main.rs`): settings, the log path beside the executable, and the
  decision loop `check_for_minimization`.
  - The loop's state is a class, `DecisionEngine`, whose fields are the loop's three
    variables. Its methods `Step` and `Tick` are proved against the functions `Observe`,
    `ShouldMinimize` and `TickSpec`.
  - The session is the module-level method `CheckForMinimization`, a `while` loop over the
    ticks that run before shutdown, proved equal to the function `RunTicks` from the
    initial state.
  - Lemmas say what the state means after any run of ticks: the AFK status is the latest
    verdict; `last_time_maximized` is the time of the latest restore.
  - Further lemmas cover the strict grace boundary and how a failure ends the session.
- **`WinUtils`** (`src/winutils.rs`): the Win32 wrappers.
  - Each OS call is replaced by the value it returns and the error it would report.
  - `get_process_file_name` keeps its fixed `MAX_PATH + 1` unit buffer and its NUL-scanning
    loop, as an `array` and a `while` loop.
- **`Utils`** (`src/utils.rs`): `as_result` and the logging combinators, with the log sink
  turned into a returned record.
- **`Utf16`** and **`Paths`**: the parts of the Rust standard library the core relies on.
  - `Utf16` models `String::from_utf16_lossy`.
  - `Paths` models `Path::parent` and `Path::join` for `\` and `/` separators.
  - `Wrappers` holds `Option`, `Result` and the I/O error type.

Four behaviours of the code are worth knowing, and the model keeps them as they are:

- `check_for_minimization` calls `minimize_window` on every tick while the player is AFK
  and the last restore is older than the grace period. It does so even when the window is
  already minimized: the guard never looks at the window's current state. See
  `AwayAndAlreadyMinimizedMinimizesAgain` and `MinimizeRepeatsWhileMinimized`.
- Only the one line that survives both skips is classified. When that line names no AFK
  phrase, the result is "no verdict" even if an older line in the window names one
  (`OlderMatchCannotRescueUnknown`).
- The whisper skip is the only guard after the chat-marker skip. A whisper that is the
  newest chat line is skipped, and then the line right below it is classified even when it
  has no chat marker. So a whisper's presence can change the verdict, through the line it
  uncovers (`WhisperCanExposeNonChatLine`).
- The "restored since" time starts at the session's start, before any window state has
  been read. A session whose window is restored from the first tick therefore counts from
  the start.

## Model

| member | source | states |
|---|---|---|
| Utils.AsResult | src/utils.rs:11-16 | `Ok` exactly when the option is `Some`, carrying its value; otherwise `Err` of the very error passed in |
| Utils.AsResultRoundTrip | src/utils.rs:11-16 | taking the `Ok` value back out of `as_result` gives the original option |
| Utils.LogInfo | src/utils.rs:28-33 | the result is returned unchanged; an info record with the message and error is produced exactly when it is `Err` |
| Utils.LogError | src/utils.rs:34-39 | the result is returned unchanged; an error record with the message and error is produced exactly when it is `Err` |
| Utils.LogErrorAndIgnore | src/utils.rs:41-43 | the result is dropped; what is left is the error-level record with the message and the error, produced exactly when the result is `Err` |
| Utils.LogInfoAndErrorDifferOnlyInLevel | src/utils.rs:28-39 | `log_info` and `log_error` return the same value and log the same record, except for its level |
| Utf16.DecodeLossy | src/winutils.rs:111 | lossy decoding never produces more characters than units, and produces no NUL from units without a zero |
| Utf16.DecodeEncode | src/winutils.rs:111 | decoding the UTF-16 encoding of any string gives the string back |
| Paths.Parent | src/main.rs:118 | there is no parent exactly when the path is empty or all separators; a parent is a strict prefix of the path |
| Paths.ParentDropsLastComponent | src/main.rs:118 | the parent is the path with its trailing separators, its last component and the separators before that component removed; it keeps a trailing separator only when it is a root, and it is empty only for a single relative component |
| Paths.Join | src/main.rs:119 | the joined path starts with the base and ends with the relative part; a backslash goes between them exactly when the base is nonempty and does not already end in a separator, and nothing else is added |
| WinUtils.GetWindowHandle | src/winutils.rs:11-15 | `Ok` exactly when `FindWindowA` found a non-null window, and then that handle; otherwise the OS error |
| WinUtils.MinimizeWindow | src/winutils.rs:29-33 | `Ok` exactly when `ShowWindow` returned nonzero; otherwise the OS error |
| WinUtils.IsWindowMinimized | src/winutils.rs:40-43 | a zero style is an error; any other style reads as minimized exactly when the `WS_MINIMIZE` bit is set |
| WinUtils.MinimizeBitSetReadsMinimized | src/winutils.rs:43 | a style with the `WS_MINIMIZE` bit reads as minimized whatever its other bits |
| WinUtils.MinimizeBitClearReadsRestored | src/winutils.rs:40-43 | clearing the `WS_MINIMIZE` bit of a style with other bits reads as restored |
| WinUtils.GetProcessId | src/winutils.rs:51-55 | `Ok` of the window's process id exactly when it is nonzero; otherwise the OS error |
| WinUtils.GetProcessHandle | src/winutils.rs:66-70 | `Ok` of the handle `OpenProcess` returned exactly when it is non-null; otherwise the OS error |
| WinUtils.GetProcessModule | src/winutils.rs:74-88 | `Ok` exactly when `EnumProcessModulesEx` returned nonzero, and then always the null module handle, since the handle variable is never written |
| WinUtils.FilledBuffer | src/winutils.rs:92-93 | the buffer has `MAX_PATH + 1` units: the copied units, then zeros |
| WinUtils.UntilNul | src/winutils.rs:103-109 | a prefix of the buffer with no zero unit that stops at the first zero, or at the end when there is none |
| WinUtils.UntilNulIsFirstZero | src/winutils.rs:103-109 | any zero-free prefix that ends at a zero or at the end is exactly the prefix `UntilNul` returns |
| WinUtils.ProcessFileName | src/winutils.rs:94-111 | `Err` with the OS error exactly when `GetModuleFileNameExW` copied nothing; otherwise a name no longer than the buffer, whose exact value `UntilNulIsFirstZero`, `ShortNameReadWhole` and `UnterminatedNameUsesWholeBuffer` characterise |
| WinUtils.GetProcessFileName | src/winutils.rs:91-112 | the array-and-loop implementation returns `Err` when the call copied nothing, else the decoded units before the first zero of the buffer |
| WinUtils.ShortNameReadWhole | src/winutils.rs:94-111 | a zero-free name shorter than the buffer comes back whole |
| WinUtils.UnterminatedNameUsesWholeBuffer | src/winutils.rs:92-111 | a buffer with no zero unit is used whole, all `MAX_PATH + 1` units |
| WinUtils.GetProcessPathByWindowHandle | src/winutils.rs:18-23 | the first failing step's error (process id, then process handle, then module), else the file name step's result |
| WinUtils.LaterStepsUnreachedAfterFailure | src/winutils.rs:18-23 | once a step fails, the answers of later steps cannot change the outcome, which is an error |
| LogScanner.Contains | src/main.rs:160-161 | `str::contains`; `ContainsIffOccurs` proves it holds exactly when the pattern occurs at some position |
| LogScanner.ContainsIffOccurs | src/main.rs:160-161 | `contains` holds exactly when the pattern occurs at some position of the line |
| LogScanner.AnyPhraseIn | src/main.rs:179-199 | true exactly when some phrase of the table occurs in the line |
| LogScanner.IsAfkActivatedMessage | src/main.rs:179-188 | holds exactly when one of the eight AFK-on phrases occurs in the line, by the contract of `AnyPhraseIn` |
| LogScanner.IsAfkDeactivatedMessage | src/main.rs:190-199 | holds exactly when one of the eight AFK-off phrases occurs in the line, by the contract of `AnyPhraseIn` |
| LogScanner.LogLineAsAfkStatus | src/main.rs:169-177 | AFK on, AFK off or no verdict, as `LogLineClassification` characterises in terms of the two phrase tables |
| LogScanner.LogLineClassification | src/main.rs:169-199 | `Some(true)` exactly when an AFK-on phrase occurs; `Some(false)` exactly when an AFK-off phrase occurs and no AFK-on phrase does; `None` exactly when no phrase of either table occurs |
| LogScanner.Take | src/main.rs:158-159 | at most 20 lines, the newest ones, in order |
| LogScanner.SkipUntilChatLine | src/main.rs:160 | the first `skip_while`; `SkipUntilChatLineStop` gives the index where it stops and what it drops |
| LogScanner.SkipUntilChatLineStop | src/main.rs:160 | the skip drops exactly the lines before the first line containing `ac9` |
| LogScanner.SkipWhispers | src/main.rs:161 | the second `skip_while`; `SkipWhispersStop` gives the index where it stops and what it drops |
| LogScanner.SkipWhispersStop | src/main.rs:161 | the skip drops exactly the leading lines containing `] @` |
| LogScanner.GetLastAfkStatusFromLog | src/main.rs:155-167 | an unreadable file is `Err` with its error, distinct from a readable file's `Ok` verdict, which may be `None` |
| LogScanner.Scan | src/main.rs:158-165 | the scan pipeline; `ScanReadsVerdictLine` and `VerdictComesFromVerdictLine` prove it is the classification of the one deciding line, or `None` when there is none |
| LogScanner.ScanPosition | src/main.rs:158-165 | the verdict is either the classification of a deciding line or, when no line survives, `None` |
| LogScanner.VerdictLineUnique | src/main.rs:158-165 | at most one line decides the verdict |
| LogScanner.ScanReadsVerdictLine | src/main.rs:158-165 | the verdict is the classification of the deciding line, whatever the other lines say |
| LogScanner.VerdictComesFromVerdictLine | src/main.rs:158-165 | a verdict always comes from a non-whisper line among the newest 20; with no deciding line there is no verdict |
| LogScanner.OlderLinesIgnored | src/main.rs:158-159 | changing a line older than the newest 20 never changes the verdict |
| LogScanner.NewerNonChatLinesIgnored | src/main.rs:158-160 | newer lines without `ac9` are skipped and only shrink the window over the older lines |
| LogScanner.SkipUntilChatLineDropsNonChat | src/main.rs:160 | skipping to the first chat line passes over any prefix without one |
| LogScanner.NewestChatLineDecides | src/main.rs:158-165 | when the newest line is a chat line and not a whisper, it alone decides |
| LogScanner.ForgedWhisperSkipped | src/main.rs:161 | a whisper forging an AFK message above the game's own chat line is skipped, and the game's line decides |
| LogScanner.WhisperCanExposeNonChatLine | src/main.rs:160-161 | a whisper that is the newest chat line is skipped and uncovers a line without the chat marker, whose AFK-on phrase then overrides the genuine AFK-off chat line below it |
| LogScanner.SameShapeSameVerdict | src/main.rs:155-167 | two logs that agree on the chat and whisper shape of every line, and on every non-whisper line, give the same verdict, so re-scanning the same lines gives the same result |
| LogScanner.WhisperTextCannotChangeVerdict | src/main.rs:161 | replacing a whisper's text with any other whisper of the same chat shape never changes the verdict |
| LogScanner.OlderMatchCannotRescueUnknown | src/main.rs:163-165 | when the deciding line names no phrase, no older line can produce a verdict |
| LogScanner.OlderLineCannotChangeVerdict | src/main.rs:158-165 | replacing any line older than the deciding line, by any text, leaves the verdict unchanged |
| Minimizer.Settings.Default | src/main.rs:37-46 | title "Path of Exile", a 500 ms poll interval, a 5 s grace period and a 30 s window recheck |
| Minimizer.ConstructLogPath | src/main.rs:117-121 | no path exactly when the executable path has no parent; otherwise a path ending in `logs\Client.txt` |
| Minimizer.InstallDirLogPath | src/main.rs:117-121 | for an executable `<dir>\<name>` the log is `<dir>\logs\Client.txt` |
| Minimizer.FindLogPath | src/main.rs:110-115 | the process-path error when that lookup fails; the fixed "failed to construct client.txt path." error when the path has no parent; otherwise `Ok` of the log path beside the executable, which ends in `logs\Client.txt` |
| Minimizer.Elapsed | src/main.rs:139-144 | the seconds from the last restore to now, or 0 when the clock went backwards |
| Minimizer.Observe | src/main.rs:129-137 | one tick's state update; `StatusIsLatestVerdict` and `RestoredSinceIsLatestRestore` say what it leaves after any number of ticks |
| Minimizer.ShouldMinimize | src/main.rs:139-146 | minimize exactly when AFK and strictly more than the grace period has passed since the last restore; a clock that went backwards never minimizes |
| Minimizer.TickSpec | src/main.rs:129-148 | one loop iteration; `DecisionEngine.Tick` is proved equal to it, and `AwayAndRestoredTooLongMinimizes` and `StateAfterTicksIsReplay` describe it |
| Minimizer.RunTicks | src/main.rs:128-151 | the loop over the ticks; `RunTicksAfterTick`, `SessionIgnoresTicksAfterFailure`, `SuccessfulSessionFollowsReplay` and `NoVerdictSessionNeverMinimizes` describe it |
| Minimizer.InitialState | src/main.rs:124-126 | not AFK, not minimized, restored since the session start; `DecisionEngine.constructor` is proved to start in it |
| Minimizer.CheckForMinimizationSpec | src/main.rs:123-153 | the log-path error before any tick, or the loop from the initial state; `CheckForMinimization` is proved equal to it, and `NoLogPathNoPolling` and `NoVerdictCheckNeverMinimizes` describe it |
| Minimizer.DecisionEngine.constructor | src/main.rs:124-126 | the loop starts not AFK, not minimized, restored since the start |
| Minimizer.DecisionEngine.Step | src/main.rs:129-146 | the new loop state is `Observe` of the old one, and the minimize decision is the guard on the new state |
| Minimizer.DecisionEngine.Tick | src/main.rs:129-148 | one loop iteration with its three fallible OS calls: the new state and outcome are those of `TickSpec`, so any error ends the tick |
| Minimizer.CheckForMinimization | src/main.rs:123-153 | the loop's result and minimize calls are those of `RunTicks` from the initial state, or the log-path error before any tick |
| Minimizer.RunTicksAfterTick | src/main.rs:127-151 | a failing tick ends the session with its error; a tick that succeeds is followed by the rest of the session |
| Minimizer.ReplaySnoc | src/main.rs:128-137 | replaying one more tick's observation is one more `Observe` step |
| Minimizer.StatusIsLatestVerdict | src/main.rs:129-132 | after any ticks the AFK status is the latest verdict read, and ticks without a verdict leave it unchanged |
| Minimizer.RestoredSinceIsLatestRestore | src/main.rs:133-137 | after any ticks, `was_minimized` is what the last tick saw, and `last_time_maximized` is the time of the last minimized-to-restored change, or the start |
| Minimizer.NoVerdictNoMinimize | src/main.rs:124-146 | after replaying any observations without a verdict from the start of a session, the minimize guard does not hold |
| Minimizer.StateAfterTicksIsReplay | src/main.rs:128-137 | the loop state after ticks that all read the log and the window style is the replay of what they read |
| Minimizer.SuccessfulSessionFollowsReplay | src/main.rs:128-151 | in a session whose every tick succeeds, every tick read the log and the window style, and the minimize calls fall exactly at the ticks where the guard holds on the replayed state |
| Minimizer.NoVerdictSessionNeverMinimizes | src/main.rs:129-148 | a loop that starts not AFK and whose log never yields a verdict never calls `minimize_window`, however it ends |
| Minimizer.NoVerdictCheckNeverMinimizes | src/main.rs:123-153 | `check_for_minimization` never calls `minimize_window` while the log yields no verdict |
| Minimizer.GraceBoundary | src/main.rs:146 | an AFK window restored exactly the grace period ago is left alone; one second later it is minimized |
| Minimizer.MinimizeRepeatsWhileMinimized | src/main.rs:134-148 | while AFK and minimized past the grace period, every tick decides to minimize again |
| Minimizer.RestoreNeverMinimizesAtOnce | src/main.rs:134-146 | the tick that sees a restore never minimizes, whatever the log says |
| Minimizer.SessionIgnoresTicksAfterFailure | src/main.rs:129-147 | after the first failing tick, further ticks change neither the result nor the minimize calls |
| Minimizer.MinimizeCallsAreTickTimes | src/main.rs:146-148 | each minimize call belongs to its own polled tick, taken in strictly increasing tick order and made at that tick's time, so there is at most one call per tick |
| Minimizer.NoLogPathNoPolling | src/main.rs:127 | without a log path the session fails with that error and never minimizes |
| Minimizer.AwayAndRestoredTooLongMinimizes | src/main.rs:129-148 | a restored window whose newest log line is a genuine AFK-on chat line, restored longer than the grace period, is minimized |
| Minimizer.AwayAndAlreadyMinimizedMinimizesAgain | src/main.rs:133-148 | the same log with the window already minimized still gets a minimize command |

## Left out

- src/tray.rs: the tray icon, its menu and the message pump are Win32 user interface with no decision logic.
- `main`, `main_window`, `main_service`, the `RUNNING` flag, thread spawning, joining and sleeping are left out as concurrency and timing. The flag being cleared is modelled as the end of the tick sequence given to `CheckForMinimization`.
- `init_logger` and every `trace!`, `info!` and `error!` call are left out; the logging combinators return the record they would log instead.
- Opening the log file and `RevLines` are left out: a poll sees the log either as unreadable, with the error, or as its lines newest first.
- The Win32 calls (`FindWindowA`, `GetWindowLongA`, `ShowWindow`, `GetWindowThreadProcessId`, `OpenProcess`, `EnumProcessModulesEx`, `GetModuleFileNameExW`) are replaced by their return values and the error `last_os_error` would report.
- `SystemTime` is whole seconds, with the truncation of `as_secs` folded in. The two clock reads of a tick (the restore time and the elapsed time) are taken as one instant.
- Process handles are never closed by the source; handle lifetimes are not modelled.
- Minimizer.CheckForMinimization: takes the window handle as already found; the search for the window by its title and the 30 s recheck around it are part of the thread plumbing above.
- WinUtils.GetWindowHandle: takes what `FindWindowA` returned, so the panic of `CString::new` on a title containing a NUL character is not modelled; the default title has none.
- Paths.Parent: Windows drive and UNC prefixes are treated as ordinary path components, and `to_str` always succeeds, as it does for a path decoded from UTF-16.
- Paths.Parent: `.` components are not normalised away as Rust's `components()` does, so for `a\.\b` and `a\b\.` the model gives `a\.` and `a\b` where Rust gives `a`; an executable path from `GetModuleFileNameExW` is fully qualified and has no such components.
- Utf16.DecodeLossy: unpaired surrogates become U+FFFD one unit at a time; the round trip is proved for strings, not for arbitrary unit sequences.
