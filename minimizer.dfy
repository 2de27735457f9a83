/** The minimize-decision engine of main.rs: where the game's log lives, and the
    polling loop that minimizes the game window once the player has been AFK with
    the window restored for longer than the grace period. */
module Minimizer {
  import opened Wrappers
  import opened Utils
  import opened Paths
  import opened WinUtils
  import opened LogScanner

  /** The session's configuration, fixed for the whole run. */
  datatype Settings = Settings(
    windowName: string,
    logFilePollingIntervalMs: nat,
    secondsUntilMinimize: nat,
    secondsToCheckForPoe: nat)
  {
    /** `Settings::default`. */
    static function Default(): (s: Settings)
      ensures s.windowName == "Path of Exile"
      ensures s.logFilePollingIntervalMs == 500
      ensures s.secondsUntilMinimize == 5
      ensures s.secondsToCheckForPoe == 30
    {
      Settings("Path of Exile", 500, 5, 30)
    }
  }

  /** Where the game writes its log, relative to the directory of its executable. */
  const LOG_RELATIVE_PATH: string := "logs\\Client.txt"

  /** The error `find_log_path` reports when the executable path has no parent. */
  const NO_LOG_PATH_ERROR: IoError := Custom("failed to construct client.txt path.")

  /** `construct_log_path`: the log file beside the executable's directory, or
      nothing when the executable path has no parent directory. */
  function ConstructLogPath(executable: string): (r: Option<string>)
    ensures r.None? <==> AllSeparators(executable)
    ensures r.Some? ==> |LOG_RELATIVE_PATH| <= |r.value|
    ensures r.Some? ==> r.value[|r.value| - |LOG_RELATIVE_PATH|..] == LOG_RELATIVE_PATH
  {
    match Parent(executable)
    case None => None
    case Some(dir) => Some(Join(dir, LOG_RELATIVE_PATH))
  }

  /** For an executable `<dir>\<name>` the log is `<dir>\logs\Client.txt`. */
  lemma InstallDirLogPath(dir: string, name: string)
    requires dir != [] && !IsSeparator(dir[|dir| - 1])
    requires name != [] && forall i :: 0 <= i < |name| ==> !IsSeparator(name[i])
    ensures ConstructLogPath(dir + [SEPARATOR] + name) == Some(dir + [SEPARATOR] + LOG_RELATIVE_PATH)
  {
    var p := dir + [SEPARATOR] + name;
    assert TrimTrailingSeparators(p) == p by {
      assert p[|p| - 1] == name[|name| - 1];
    }
    var last := LastSeparator(p);
    assert p[|dir|] == SEPARATOR;
    forall i | |dir| < i < |p| ensures !IsSeparator(p[i]) {
      assert p[i] == name[i - |dir| - 1];
    }
    assert last == Some(|dir|);
    assert p[..|dir|] == dir;
    assert Parent(p) == Some(dir);
  }

  /** `find_log_path`: the executable's path from the window's process, then the
      log path beside it; the first failure is the result. */
  function FindLogPath(process: ProcessReplies): (r: Result<string, IoError>)
    ensures GetProcessPathByWindowHandle(process).Err? ==> r == Err(GetProcessPathByWindowHandle(process).error)
    ensures GetProcessPathByWindowHandle(process).Ok? && AllSeparators(GetProcessPathByWindowHandle(process).value)
      ==> r == Err(NO_LOG_PATH_ERROR)
    ensures GetProcessPathByWindowHandle(process).Ok? && !AllSeparators(GetProcessPathByWindowHandle(process).value)
      ==> r == Ok(ConstructLogPath(GetProcessPathByWindowHandle(process).value).value)
    ensures r.Ok? ==> |LOG_RELATIVE_PATH| <= |r.value|
    ensures r.Ok? ==> r.value[|r.value| - |LOG_RELATIVE_PATH|..] == LOG_RELATIVE_PATH
  {
    match GetProcessPathByWindowHandle(process)
    case Err(e) => Err(e)
    case Ok(executable) => AsResult(ConstructLogPath(executable), NO_LOG_PATH_ERROR)
  }

  /** The three variables `check_for_minimization` carries from tick to tick. */
  datatype EngineState = EngineState(afkStatus: bool, wasMinimized: bool, lastTimeMaximized: int)

  /** Not AFK, not minimized, restored since the session started. */
  function InitialState(start: int): EngineState
  {
    EngineState(false, false, start)
  }

  /** `last_time_maximized.elapsed()` in whole seconds, or 0 when the clock has gone
      backwards. */
  function Elapsed(since: int, now: int): (elapsed: nat)
    ensures since <= now ==> since + elapsed == now
    ensures now < since ==> elapsed == 0
  {
    if now < since then 0 else now - since
  }

  /** One tick's update: a verdict from the log replaces the AFK status, no verdict
      keeps it; a minimized-to-restored change restarts the restored timer. */
  function Observe(s: EngineState, scan: Option<bool>, minimized: bool, now: int): EngineState
  {
    EngineState(
      match scan { case Some(afk) => afk case None => s.afkStatus },
      minimized,
      if !minimized && minimized != s.wasMinimized then now else s.lastTimeMaximized)
  }

  /** The minimize guard: AFK and restored for strictly more than the grace period.
      A clock that went backwards never makes the window old enough. */
  function ShouldMinimize(s: EngineState, now: int, grace: nat): (minimize: bool)
    ensures minimize <==> s.afkStatus && now - s.lastTimeMaximized > grace
  {
    s.afkStatus && Elapsed(s.lastTimeMaximized, now) > grace
  }

  /** What the OS answers during one tick of the polling loop. */
  datatype TickInput = TickInput(
    log: LogFile,
    style: bv32, styleError: IoError,
    now: int,
    shown: int, showError: IoError)

  /** Whether the tick called `minimize_window`, and the error that ended the
      session at this tick, if one did. */
  datatype TickOutcome = TickOutcome(minimizeIssued: bool, failure: Option<IoError>)

  /** One iteration of the `while` loop of `check_for_minimization`. */
  function TickSpec(s: EngineState, t: TickInput, grace: nat): (EngineState, TickOutcome)
  {
    match GetLastAfkStatusFromLog(t.log)
    case Err(e) => (s, TickOutcome(false, Some(e)))
    case Ok(scan) =>
      match IsWindowMinimized(t.style, t.styleError)
      case Err(e) => (s, TickOutcome(false, Some(e)))
      case Ok(minimized) =>
        var next := Observe(s, scan, minimized, t.now);
        if !ShouldMinimize(next, t.now, grace) then (next, TickOutcome(false, None))
        else match MinimizeWindow(t.shown, t.showError)
          case Err(e) => (next, TickOutcome(true, Some(e)))
          case Ok(_) => (next, TickOutcome(true, None))
  }

  /** How a session ends, and the times at which it called `minimize_window`. */
  datatype SessionEnd = SessionEnd(result: Result<(), IoError>, minimizeCalls: seq<int>)

  /** The polling loop over the ticks that run while the shutdown flag is clear:
      every tick until the first failure, which ends the session with its error. */
  function RunTicks(s: EngineState, ticks: seq<TickInput>, grace: nat): SessionEnd
    decreases |ticks|
  {
    if ticks == [] then SessionEnd(Ok(()), [])
    else
      var (next, out) := TickSpec(s, ticks[0], grace);
      var calls := if out.minimizeIssued then [ticks[0].now] else [];
      match out.failure
      case Some(e) => SessionEnd(Err(e), calls)
      case None =>
        Then(calls, RunTicks(next, ticks[1..], grace))
  }

  /** A session whose first minimize calls were `calls`, then ran as `rest`. */
  function Then(calls: seq<int>, rest: SessionEnd): SessionEnd
  {
    SessionEnd(rest.result, calls + rest.minimizeCalls)
  }

  /** Minimize calls recorded in two stretches are the calls of the whole run. */
  lemma ThenThen(done: seq<int>, calls: seq<int>, rest: SessionEnd)
    ensures Then(done, Then(calls, rest)) == Then(done + calls, rest)
  {
    assert done + (calls + rest.minimizeCalls) == (done + calls) + rest.minimizeCalls;
  }

  /** The session after a tick that did not fail: the tick's minimize call, if
      any, followed by the rest of the session. */
  lemma RunTicksAfterTick(s: EngineState, ticks: seq<TickInput>, grace: nat, next: EngineState, out: TickOutcome)
    requires ticks != []
    requires (next, out) == TickSpec(s, ticks[0], grace)
    ensures out.failure.Some? ==>
      RunTicks(s, ticks, grace) == SessionEnd(Err(out.failure.value), if out.minimizeIssued then [ticks[0].now] else [])
    ensures out.failure.None? ==>
      RunTicks(s, ticks, grace) == Then(if out.minimizeIssued then [ticks[0].now] else [], RunTicks(next, ticks[1..], grace))
  {
  }

  /** `check_for_minimization` as a whole: no log path, no loop. */
  function CheckForMinimizationSpec(settings: Settings, start: int, process: ProcessReplies, ticks: seq<TickInput>): SessionEnd
  {
    match FindLogPath(process)
    case Err(e) => SessionEnd(Err(e), [])
    case Ok(_) => RunTicks(InitialState(start), ticks, settings.secondsUntilMinimize)
  }

  /** The loop state of `check_for_minimization`. */
  class DecisionEngine {
    const secondsUntilMinimize: nat
    var afkStatus: bool
    var wasMinimized: bool
    var lastTimeMaximized: int

    function State(): EngineState
      reads this
    {
      EngineState(afkStatus, wasMinimized, lastTimeMaximized)
    }

    constructor (secondsUntilMinimize: nat, start: int)
      ensures this.secondsUntilMinimize == secondsUntilMinimize
      ensures State() == InitialState(start)
    {
      this.secondsUntilMinimize := secondsUntilMinimize;
      afkStatus, wasMinimized, lastTimeMaximized := false, false, start;
    }

    /** Record this tick's verdict and window state, then decide whether to minimize. */
    method Step(scan: Option<bool>, minimized: bool, now: int) returns (minimize: bool)
      modifies this
      ensures State() == Observe(old(State()), scan, minimized, now)
      ensures minimize == ShouldMinimize(State(), now, secondsUntilMinimize)
    {
      match scan {
        case Some(afk) => afkStatus := afk;
        case None =>
      }
      if !minimized && minimized != wasMinimized {
        lastTimeMaximized := now;
      }
      wasMinimized := minimized;
      minimize := afkStatus && Elapsed(lastTimeMaximized, now) > secondsUntilMinimize;
    }

    /** One tick with the OS in the loop: read the log, read the window style,
        step, and minimize when the step says so; any failure ends the tick. */
    method Tick(t: TickInput) returns (outcome: TickOutcome)
      modifies this
      ensures (State(), outcome) == TickSpec(old(State()), t, secondsUntilMinimize)
    {
      var scan := GetLastAfkStatusFromLog(t.log);
      if scan.Err? {
        return TickOutcome(false, Some(scan.error));
      }
      var minimized := IsWindowMinimized(t.style, t.styleError);
      if minimized.Err? {
        return TickOutcome(false, Some(minimized.error));
      }
      var minimize := Step(scan.value, minimized.value, t.now);
      if !minimize {
        return TickOutcome(false, None);
      }
      var shown := MinimizeWindow(t.shown, t.showError);
      outcome := TickOutcome(true, if shown.Err? then Some(shown.error) else None);
    }
  }

  /** `check_for_minimization`: find the log, then poll once per tick until the
      ticks run out (the shutdown flag was cleared) or a tick fails. */
  method CheckForMinimization(settings: Settings, start: int, process: ProcessReplies, ticks: seq<TickInput>)
    returns (result: Result<(), IoError>, minimizeCalls: seq<int>)
    ensures SessionEnd(result, minimizeCalls) == CheckForMinimizationSpec(settings, start, process, ticks)
  {
    var engine := new DecisionEngine(settings.secondsUntilMinimize, start);
    var logPath := FindLogPath(process);
    if logPath.Err? {
      return Err(logPath.error), [];
    }
    ghost var grace := settings.secondsUntilMinimize;
    minimizeCalls := [];
    var i := 0;
    assert ticks[i..] == ticks;
    ThenThen([], [], RunTicks(engine.State(), ticks, grace));
    while i < |ticks|
      invariant 0 <= i <= |ticks|
      invariant engine.secondsUntilMinimize == grace
      invariant RunTicks(InitialState(start), ticks, grace) == Then(minimizeCalls, RunTicks(engine.State(), ticks[i..], grace))
    {
      assert ticks[i..][0] == ticks[i] && ticks[i..][1..] == ticks[i + 1..];
      ghost var before := engine.State();
      ghost var done := minimizeCalls;
      var outcome := engine.Tick(ticks[i]);
      RunTicksAfterTick(before, ticks[i..], grace, engine.State(), outcome);
      ghost var calls := if outcome.minimizeIssued then [ticks[i].now] else [];
      if outcome.minimizeIssued {
        minimizeCalls := minimizeCalls + [ticks[i].now];
      }
      assert minimizeCalls == done + calls;
      if outcome.failure.Some? {
        return Err(outcome.failure.value), minimizeCalls;
      }
      ThenThen(done, calls, RunTicks(engine.State(), ticks[i + 1..], grace));
      i := i + 1;
    }
    result := Ok(());
  }

  // ---------------------------------------------------------------------------
  // What the engine's state means after any number of ticks.

  /** What one successful tick feeds into the state: the log's verdict, whether the
      window was minimized, and the time. */
  datatype Observation = Observation(scan: Option<bool>, minimized: bool, now: int)

  /** The state after a run of successful ticks. */
  function Replay(s: EngineState, obs: seq<Observation>): EngineState
    decreases |obs|
  {
    if obs == [] then s
    else Replay(Observe(s, obs[0].scan, obs[0].minimized, obs[0].now), obs[1..])
  }

  /** Replaying one more observation is one more `Observe`. */
  lemma {:induction false} ReplaySnoc(s: EngineState, obs: seq<Observation>, o: Observation)
    ensures Replay(s, obs + [o]) == Observe(Replay(s, obs), o.scan, o.minimized, o.now)
    decreases |obs|
  {
    if obs == [] {
      assert [o][1..] == [];
    } else {
      assert (obs + [o])[1..] == obs[1..] + [o];
      ReplaySnoc(Observe(s, obs[0].scan, obs[0].minimized, obs[0].now), obs[1..], o);
    }
  }

  /** The verdict of the most recent tick whose log had one, else `fallback`. */
  function LatestVerdict(obs: seq<Observation>, fallback: bool): bool
    decreases |obs|
  {
    if obs == [] then fallback
    else match obs[|obs| - 1].scan {
      case Some(afk) => afk
      case None => LatestVerdict(obs[..|obs| - 1], fallback)
    }
  }

  /** The AFK status is the most recent verdict any tick read from the log; ticks
      whose log had no verdict leave it alone. */
  lemma {:induction false} StatusIsLatestVerdict(s: EngineState, obs: seq<Observation>)
    ensures Replay(s, obs).afkStatus == LatestVerdict(obs, s.afkStatus)
    decreases |obs|
  {
    if obs != [] {
      var init := obs[..|obs| - 1];
      assert obs == init + [obs[|obs| - 1]];
      ReplaySnoc(s, init, obs[|obs| - 1]);
      StatusIsLatestVerdict(s, init);
    }
  }

  /** The window state the most recent tick saw, else `fallback`. */
  function LatestMinimized(obs: seq<Observation>, fallback: bool): bool
  {
    if obs == [] then fallback else obs[|obs| - 1].minimized
  }

  /** The time of the most recent tick that saw the window go from minimized to
      restored, else `fallback`. */
  function LatestRestore(wasMinimized: bool, obs: seq<Observation>, fallback: int): int
    decreases |obs|
  {
    if obs == [] then fallback
    else
      var init := obs[..|obs| - 1];
      if LatestMinimized(init, wasMinimized) && !obs[|obs| - 1].minimized then obs[|obs| - 1].now
      else LatestRestore(wasMinimized, init, fallback)
  }

  /** `was_minimized` is what the last tick saw, and `last_time_maximized` is the
      time of the last restore (the session start when there was none). */
  lemma {:induction false} RestoredSinceIsLatestRestore(s: EngineState, obs: seq<Observation>)
    ensures Replay(s, obs).wasMinimized == LatestMinimized(obs, s.wasMinimized)
    ensures Replay(s, obs).lastTimeMaximized == LatestRestore(s.wasMinimized, obs, s.lastTimeMaximized)
    decreases |obs|
  {
    if obs != [] {
      var init := obs[..|obs| - 1];
      assert obs == init + [obs[|obs| - 1]];
      ReplaySnoc(s, init, obs[|obs| - 1]);
      RestoredSinceIsLatestRestore(s, init);
    }
  }

  /** From the start of a session, the window is minimized only after a tick read
      an AFK-on verdict: with no verdict ever read, nothing is minimized. */
  lemma NoVerdictNoMinimize(start: int, obs: seq<Observation>, now: int, grace: nat)
    requires forall k :: 0 <= k < |obs| ==> obs[k].scan.None?
    ensures !ShouldMinimize(Replay(InitialState(start), obs), now, grace)
  {
    StatusIsLatestVerdict(InitialState(start), obs);
    NoVerdictKeepsFallback(obs, false);
  }

  lemma {:induction false} NoVerdictKeepsFallback(obs: seq<Observation>, fallback: bool)
    requires forall k :: 0 <= k < |obs| ==> obs[k].scan.None?
    ensures LatestVerdict(obs, fallback) == fallback
    decreases |obs|
  {
    if obs != [] {
      NoVerdictKeepsFallback(obs[..|obs| - 1], fallback);
    }
  }

  // ---------------------------------------------------------------------------
  // The minimize guard.

  /** The grace period is strict: an AFK player whose window was restored `grace`
      seconds ago is left alone, one second later the window is minimized. */
  lemma GraceBoundary(s: EngineState, grace: nat)
    requires s.afkStatus
    ensures !ShouldMinimize(s, s.lastTimeMaximized + grace, grace)
    ensures ShouldMinimize(s, s.lastTimeMaximized + grace + 1, grace)
  {
  }

  /** The engine does not remember having minimized: while the player stays AFK and
      the window stays minimized past the grace period, every tick minimizes again. */
  lemma MinimizeRepeatsWhileMinimized(s: EngineState, now: int, later: int, grace: nat)
    requires s.afkStatus && s.wasMinimized
    requires s.lastTimeMaximized + grace < now <= later
    ensures ShouldMinimize(Observe(s, None, true, now), now, grace)
    ensures ShouldMinimize(Observe(Observe(s, None, true, now), None, true, later), later, grace)
  {
  }

  /** A tick that sees the window just restored never minimizes it, whatever the
      log says. */
  lemma RestoreNeverMinimizesAtOnce(s: EngineState, scan: Option<bool>, now: int, grace: nat)
    requires s.wasMinimized
    ensures !ShouldMinimize(Observe(s, scan, false, now), now, grace)
  {
  }

  // ---------------------------------------------------------------------------
  // The session.

  /** The first failing tick ends the session: ticks after it are never polled. */
  lemma {:induction false} SessionIgnoresTicksAfterFailure(s: EngineState, done: seq<TickInput>, more: seq<TickInput>, grace: nat)
    requires RunTicks(s, done, grace).result.Err?
    ensures RunTicks(s, done + more, grace) == RunTicks(s, done, grace)
    decreases |done|
  {
    var (next, out) := TickSpec(s, done[0], grace);
    assert (done + more)[0] == done[0];
    if out.failure.None? {
      assert (done + more)[1..] == done[1..] + more;
      SessionIgnoresTicksAfterFailure(next, done[1..], more, grace);
    }
  }

  /** Each minimize call belongs to its own polled tick: `idx` gives, for every call,
      the tick that made it, in strictly increasing order, and the call happens at that
      tick's time. So there is at most one call per tick. */
  lemma {:induction false} MinimizeCallsAreTickTimes(s: EngineState, ticks: seq<TickInput>, grace: nat)
    returns (idx: seq<nat>)
    ensures |RunTicks(s, ticks, grace).minimizeCalls| <= |ticks|
    ensures |idx| == |RunTicks(s, ticks, grace).minimizeCalls|
    ensures forall j :: 0 <= j < |idx| ==>
      idx[j] < |ticks| && RunTicks(s, ticks, grace).minimizeCalls[j] == ticks[idx[j]].now
    ensures forall j, j' :: 0 <= j < j' < |idx| ==> idx[j] < idx[j']
    decreases |ticks|
  {
    if ticks == [] {
      idx := [];
    } else {
      var (next, out) := TickSpec(s, ticks[0], grace);
      RunTicksAfterTick(s, ticks, grace, next, out);
      if out.failure.Some? {
        idx := if out.minimizeIssued then [0] else [];
      } else {
        var later := MinimizeCallsAreTickTimes(next, ticks[1..], grace);
        idx := PrependCallIndices(ticks, out.minimizeIssued, RunTicks(next, ticks[1..], grace).minimizeCalls, later);
      }
    }
  }

  /** Call indices into the later ticks, shifted by one, with the first tick's own
      call in front when it made one. */
  lemma PrependCallIndices(ticks: seq<TickInput>, issued: bool, rest: seq<int>, later: seq<nat>) returns (idx: seq<nat>)
    requires ticks != [] && |later| == |rest|
    requires forall j :: 0 <= j < |later| ==> later[j] < |ticks| - 1 && rest[j] == ticks[1..][later[j]].now
    requires forall j, j' :: 0 <= j < j' < |later| ==> later[j] < later[j']
    ensures var calls := (if issued then [ticks[0].now] else []) + rest;
      |idx| == |calls| &&
      (forall j :: 0 <= j < |idx| ==> idx[j] < |ticks| && calls[j] == ticks[idx[j]].now) &&
      (forall j, j' :: 0 <= j < j' < |idx| ==> idx[j] < idx[j'])
  {
    var first: seq<nat> := if issued then [0] else [];
    var shifted := seq(|later|, j requires 0 <= j < |later| => later[j] + 1);
    idx := first + shifted;
    forall j | |first| <= j < |idx| ensures ticks[idx[j]] == ticks[1..][later[j - |first|]] {
      assert idx[j] == later[j - |first|] + 1;
    }
  }

  /** A session that cannot find the game's log never polls. */
  lemma NoLogPathNoPolling(settings: Settings, start: int, process: ProcessReplies, ticks: seq<TickInput>)
    requires FindLogPath(process).Err?
    ensures CheckForMinimizationSpec(settings, start, process, ticks).minimizeCalls == []
    ensures CheckForMinimizationSpec(settings, start, process, ticks).result == Err(FindLogPath(process).error)
  {
  }

  /** The newest log line is a chat line (not a whisper) announcing AFK mode on, the
      window is restored and was not minimized last tick, and it has been restored
      for longer than the grace period: the tick minimizes it and the player is AFK. */
  lemma AwayAndRestoredTooLongMinimizes(s: EngineState, t: TickInput, grace: nat)
    requires t.log.Readable? && |t.log.newestFirst| > 0
    requires IsChatLine(t.log.newestFirst[0]) && !IsWhisper(t.log.newestFirst[0])
    requires IsAfkActivatedMessage(t.log.newestFirst[0])
    requires t.style != 0 && t.style & WS_MINIMIZE == 0
    requires !s.wasMinimized && t.now - s.lastTimeMaximized > grace
    requires t.shown != 0
    ensures TickSpec(s, t, grace).1 == TickOutcome(true, None)
    ensures TickSpec(s, t, grace).0 == EngineState(true, false, s.lastTimeMaximized)
  {
    NewestChatLineDecides(t.log.newestFirst);
  }

  /** The same log with the window already minimized: the tick commands a minimize
      again, because the guard never looks at whether the window is minimized. */
  lemma AwayAndAlreadyMinimizedMinimizesAgain(s: EngineState, t: TickInput, grace: nat)
    requires t.log.Readable? && |t.log.newestFirst| > 0
    requires IsChatLine(t.log.newestFirst[0]) && !IsWhisper(t.log.newestFirst[0])
    requires IsAfkActivatedMessage(t.log.newestFirst[0])
    requires t.style & WS_MINIMIZE == WS_MINIMIZE
    requires t.now - s.lastTimeMaximized > grace
    requires t.shown != 0
    ensures TickSpec(s, t, grace).1 == TickOutcome(true, None)
    ensures TickSpec(s, t, grace).0 == EngineState(true, true, s.lastTimeMaximized)
  {
    NewestChatLineDecides(t.log.newestFirst);
  }

  // ---------------------------------------------------------------------------
  // The session in terms of the replayed state.

  /** The tick read the log and the window style, the two steps that feed the state. */
  predicate TickReads(t: TickInput)
  {
    t.log.Readable? && t.style != 0
  }

  /** What a tick that read the log and the window style feeds into the state. */
  function TickObservation(t: TickInput): Observation
    requires TickReads(t)
  {
    Observation(Scan(t.log.newestFirst), t.style & WS_MINIMIZE == WS_MINIMIZE, t.now)
  }

  /** The observations of a run of ticks that all read the log and the window style. */
  function Observations(ticks: seq<TickInput>): (obs: seq<Observation>)
    requires forall k :: 0 <= k < |ticks| ==> TickReads(ticks[k])
    ensures |obs| == |ticks|
    ensures forall k :: 0 <= k < |ticks| ==> obs[k] == TickObservation(ticks[k])
  {
    seq(|ticks|, k requires 0 <= k < |ticks| => TickObservation(ticks[k]))
  }

  /** The loop state after the ticks, as each tick leaves it. */
  function StateAfterTicks(s: EngineState, ticks: seq<TickInput>, grace: nat): EngineState
    decreases |ticks|
  {
    if ticks == [] then s else StateAfterTicks(TickSpec(s, ticks[0], grace).0, ticks[1..], grace)
  }

  /** The loop state after ticks that all read the log and the window style is the
      replay of what they read, so the lemmas about `Replay` describe the loop. */
  lemma {:induction false} StateAfterTicksIsReplay(s: EngineState, ticks: seq<TickInput>, grace: nat)
    requires forall k :: 0 <= k < |ticks| ==> TickReads(ticks[k])
    ensures StateAfterTicks(s, ticks, grace) == Replay(s, Observations(ticks))
    decreases |ticks|
  {
    if ticks != [] {
      var o := TickObservation(ticks[0]);
      var next := TickSpec(s, ticks[0], grace).0;
      assert next == Observe(s, o.scan, o.minimized, o.now);
      assert Observations(ticks)[1..] == Observations(ticks[1..]);
      StateAfterTicksIsReplay(next, ticks[1..], grace);
    }
  }

  /** The times at which the minimize guard holds while the observations are replayed. */
  function GuardTimes(s: EngineState, obs: seq<Observation>, grace: nat): seq<int>
    decreases |obs|
  {
    if obs == [] then []
    else
      var next := Observe(s, obs[0].scan, obs[0].minimized, obs[0].now);
      (if ShouldMinimize(next, obs[0].now, grace) then [obs[0].now] else []) + GuardTimes(next, obs[1..], grace)
  }

  /** In a session whose every tick succeeds, every tick read the log and the window
      style, and the window is minimized exactly at the ticks where the guard holds on
      the replayed state. */
  lemma {:induction false} SuccessfulSessionFollowsReplay(s: EngineState, ticks: seq<TickInput>, grace: nat)
    requires RunTicks(s, ticks, grace).result.Ok?
    ensures forall k :: 0 <= k < |ticks| ==> TickReads(ticks[k])
    ensures RunTicks(s, ticks, grace).minimizeCalls == GuardTimes(s, Observations(ticks), grace)
    decreases |ticks|
  {
    if ticks != [] {
      var (next, out) := TickSpec(s, ticks[0], grace);
      SuccessfulSessionFollowsReplay(next, ticks[1..], grace);
      forall k | 0 < k < |ticks| ensures TickReads(ticks[k]) {
        assert ticks[k] == ticks[1..][k - 1];
      }
      assert Observations(ticks)[1..] == Observations(ticks[1..]);
    }
  }

  /** A session that starts not AFK and whose log never yields a verdict never
      minimizes, whatever the window does and however the session ends. */
  lemma {:induction false} NoVerdictSessionNeverMinimizes(s: EngineState, ticks: seq<TickInput>, grace: nat)
    requires !s.afkStatus
    requires forall k :: 0 <= k < |ticks| && ticks[k].log.Readable? ==> Scan(ticks[k].log.newestFirst) == None
    ensures RunTicks(s, ticks, grace).minimizeCalls == []
    decreases |ticks|
  {
    if ticks != [] {
      var (next, out) := TickSpec(s, ticks[0], grace);
      assert !next.afkStatus && !out.minimizeIssued;
      if out.failure.None? {
        forall k | 0 <= k < |ticks[1..]| && ticks[1..][k].log.Readable?
          ensures Scan(ticks[1..][k].log.newestFirst) == None
        {
          assert ticks[1..][k] == ticks[k + 1];
        }
        NoVerdictSessionNeverMinimizes(next, ticks[1..], grace);
      }
    }
  }

  /** `check_for_minimization` never minimizes while the log yields no verdict. */
  lemma NoVerdictCheckNeverMinimizes(settings: Settings, start: int, process: ProcessReplies, ticks: seq<TickInput>)
    requires forall k :: 0 <= k < |ticks| && ticks[k].log.Readable? ==> Scan(ticks[k].log.newestFirst) == None
    ensures CheckForMinimizationSpec(settings, start, process, ticks).minimizeCalls == []
  {
    NoVerdictSessionNeverMinimizes(InitialState(start), ticks, settings.secondsUntilMinimize);
  }
}
