/** The reverse log scanner of main.rs: from the newest lines of the game's
    `Client.txt`, the AFK status most recently announced by the game itself. */
module LogScanner {
  import opened Wrappers

  /** Only this many of the newest lines are looked at. */
  const SCAN_WINDOW: nat := 20

  /** Substring the game writes into every chat-system line. */
  const CHAT_MARKER: string := "ac9"

  /** Substring of a whisper, which other players author and so could forge. */
  const WHISPER_MARKER: string := "] @"

  /** The game's "AFK mode is now ON" message in each of its eight languages. */
  const AFK_ON_PHRASES: seq<string> := [
    ": AFK mode is now ON.",
    ": Le mode Absent (AFK) est désormais activé.",
    ": AFK-Modus ist nun AN.",
    ": Modo LDT Ativado.",
    ": Режим \"отошёл\" включён.",
    ": เปิดโหมด AFK แล้ว ตอบกลับอัตโนมัติ",
    ": El modo Ausente está habilitado.",
    ": 자리 비움 모드를 설정했습니다."
  ]

  /** The game's "AFK mode is now OFF" message in the same eight languages. */
  const AFK_OFF_PHRASES: seq<string> := [
    ": AFK mode is now OFF.",
    ": Le mode Absent (AFK) est désactivé.",
    ": AFK-Modus ist nun AUS.",
    ": Modo LDT Desativado.",
    ": Режим \"отошёл\" выключен.",
    ": ปิดโหมด AFK แล้ว",
    ": El modo Ausente está deshabilitado.",
    ": 자리 비움 모드를 해제했습니다."
  ]

  /** `str::contains`. */
  function Contains(s: string, sub: string): bool
    decreases |s|
  {
    if |sub| > |s| then false
    else if s[..|sub|] == sub then true
    else Contains(s[1..], sub)
  }

  /** `sub` stands in `s` starting at index `i`. */
  ghost predicate OccursAt(s: string, sub: string, i: int)
  {
    0 <= i && i + |sub| <= |s| && s[i..i + |sub|] == sub
  }

  /** `Contains` finds exactly the substrings that occur somewhere. */
  lemma {:induction false} ContainsIffOccurs(s: string, sub: string)
    ensures Contains(s, sub) <==> exists i :: OccursAt(s, sub, i)
    decreases |s|
  {
    if |sub| > |s| {
    } else if s[..|sub|] == sub {
      assert OccursAt(s, sub, 0);
    } else {
      ContainsIffOccurs(s[1..], sub);
      if Contains(s[1..], sub) {
        var i :| OccursAt(s[1..], sub, i);
        assert s[1..][i..i + |sub|] == s[i + 1..i + 1 + |sub|];
        assert OccursAt(s, sub, i + 1);
      } else {
        forall i | OccursAt(s, sub, i)
          ensures false
        {
          assert i != 0;
          assert s[1..][i - 1..i - 1 + |sub|] == s[i..i + |sub|];
          assert OccursAt(s[1..], sub, i - 1);
        }
      }
    }
  }

  /** Some phrase of the table occurs in the line. */
  function AnyPhraseIn(line: string, phrases: seq<string>): (b: bool)
    ensures b <==> exists k :: 0 <= k < |phrases| && Contains(line, phrases[k])
  {
    if phrases == [] then false
    else if Contains(line, phrases[0]) then true
    else
      var b := AnyPhraseIn(line, phrases[1..]);
      assert forall k :: 1 <= k < |phrases| ==> phrases[k] == phrases[1..][k - 1];
      b
  }

  /** `is_afk_activated_message`. */
  predicate IsAfkActivatedMessage(line: string)
  {
    AnyPhraseIn(line, AFK_ON_PHRASES)
  }

  /** `is_afk_deactivated_message`. */
  predicate IsAfkDeactivatedMessage(line: string)
  {
    AnyPhraseIn(line, AFK_OFF_PHRASES)
  }

  /** `log_line_as_afk_status`: AFK on, AFK off, or nothing said. */
  function LogLineAsAfkStatus(line: string): Option<bool>
  {
    if IsAfkActivatedMessage(line) then Some(true)
    else if IsAfkDeactivatedMessage(line) then Some(false)
    else None
  }

  /** The classification in terms of the two phrase tables: ON whenever an ON
      phrase occurs, OFF only when an OFF phrase occurs and no ON phrase does, and
      nothing when no phrase of either table occurs. */
  lemma LogLineClassification(line: string)
    ensures LogLineAsAfkStatus(line) == Some(true) <==>
      exists k :: 0 <= k < |AFK_ON_PHRASES| && Contains(line, AFK_ON_PHRASES[k])
    ensures LogLineAsAfkStatus(line) == Some(false) <==>
      (exists k :: 0 <= k < |AFK_OFF_PHRASES| && Contains(line, AFK_OFF_PHRASES[k])) &&
      !exists k :: 0 <= k < |AFK_ON_PHRASES| && Contains(line, AFK_ON_PHRASES[k])
    ensures LogLineAsAfkStatus(line).None? <==>
      forall p :: p in AFK_ON_PHRASES + AFK_OFF_PHRASES ==> !Contains(line, p)
  {
    var on, off := AnyPhraseIn(line, AFK_ON_PHRASES), AnyPhraseIn(line, AFK_OFF_PHRASES);
    if !on && !off {
      forall p | p in AFK_ON_PHRASES + AFK_OFF_PHRASES ensures !Contains(line, p) {
        var k :| 0 <= k < |AFK_ON_PHRASES + AFK_OFF_PHRASES| && (AFK_ON_PHRASES + AFK_OFF_PHRASES)[k] == p;
        if k >= |AFK_ON_PHRASES| {
          assert AFK_OFF_PHRASES[k - |AFK_ON_PHRASES|] == p;
        }
      }
    }
  }

  /** A line of the game's chat system. */
  predicate IsChatLine(line: string) { Contains(line, CHAT_MARKER) }

  /** A line with a whisper's shape. */
  predicate IsWhisper(line: string) { Contains(line, WHISPER_MARKER) }

  /** `Iterator::take`. */
  function Take(lines: seq<string>, n: nat): (r: seq<string>)
    ensures |r| == if |lines| < n then |lines| else n
    ensures forall k :: 0 <= k < |r| ==> r[k] == lines[k]
  {
    if |lines| <= n then lines else lines[..n]
  }

  /** `skip_while(|x| !x.contains("ac9"))`: drops the lines before the first chat line. */
  function SkipUntilChatLine(lines: seq<string>): seq<string>
  {
    if lines == [] || IsChatLine(lines[0]) then lines else SkipUntilChatLine(lines[1..])
  }

  /** `skip_while(|x| x.contains("] @"))`: drops the leading whispers. */
  function SkipWhispers(lines: seq<string>): seq<string>
  {
    if lines == [] || !IsWhisper(lines[0]) then lines else SkipWhispers(lines[1..])
  }

  /** `SkipUntilChatLine` stops at the first chat line, or runs to the end. */
  lemma {:induction false} SkipUntilChatLineStop(lines: seq<string>) returns (i: nat)
    ensures i <= |lines| && SkipUntilChatLine(lines) == lines[i..]
    ensures forall k :: 0 <= k < i ==> !IsChatLine(lines[k])
    ensures i < |lines| ==> IsChatLine(lines[i])
  {
    if lines == [] || IsChatLine(lines[0]) {
      i := 0;
    } else {
      var i' := SkipUntilChatLineStop(lines[1..]);
      i := i' + 1;
      assert lines[1..][i'..] == lines[i..];
      forall k | 0 < k < i ensures !IsChatLine(lines[k]) {
        assert lines[1..][k - 1] == lines[k];
      }
    }
  }

  /** `SkipWhispers` stops at the first line that is not a whisper, or runs to the end. */
  lemma {:induction false} SkipWhispersStop(lines: seq<string>) returns (i: nat)
    ensures i <= |lines| && SkipWhispers(lines) == lines[i..]
    ensures forall k :: 0 <= k < i ==> IsWhisper(lines[k])
    ensures i < |lines| ==> !IsWhisper(lines[i])
  {
    if lines == [] || !IsWhisper(lines[0]) {
      i := 0;
    } else {
      var i' := SkipWhispersStop(lines[1..]);
      i := i' + 1;
      assert lines[1..][i'..] == lines[i..];
      forall k | 0 < k < i ensures IsWhisper(lines[k]) {
        assert lines[1..][k - 1] == lines[k];
      }
    }
  }

  /** The pipeline of `get_last_afk_status_from_log` over the lines, newest first:
      the first line that survives both skips is classified, and only that one. */
  function Scan(newestFirst: seq<string>): Option<bool>
  {
    var survivors := SkipWhispers(SkipUntilChatLine(Take(newestFirst, SCAN_WINDOW)));
    if survivors == [] then None else LogLineAsAfkStatus(survivors[0])
  }

  /** The log file as one poll finds it. */
  datatype LogFile = Unreadable(error: IoError) | Readable(newestFirst: seq<string>)

  /** `get_last_afk_status_from_log`: a file that cannot be opened or read backwards
      is an error, distinct from a readable file that says nothing (`Ok(None)`). */
  function GetLastAfkStatusFromLog(log: LogFile): (r: Result<Option<bool>, IoError>)
    ensures r.Err? <==> log.Unreadable?
    ensures log.Unreadable? ==> r.error == log.error
    ensures log.Readable? ==> r.value == Scan(log.newestFirst)
  {
    match log
    case Unreadable(e) => Err(e)
    case Readable(lines) => Ok(Scan(lines))
  }

  // An independent description of which line decides the verdict.

  /** Line `i` is the newest chat line. */
  ghost predicate FirstChatLineAt(lines: seq<string>, i: nat)
  {
    i < |lines| && IsChatLine(lines[i]) && forall k :: 0 <= k < i ==> !IsChatLine(lines[k])
  }

  /** Line `j` decides the verdict: it is among the newest `SCAN_WINDOW` lines, it is
      not a whisper, and it comes at or after the newest chat line with only whispers
      in between (the chat line itself included when it is a whisper). */
  ghost predicate VerdictLineAt(lines: seq<string>, j: nat)
  {
    j < |lines| && j < SCAN_WINDOW && !IsWhisper(lines[j]) &&
    exists i: nat :: i <= j && FirstChatLineAt(lines, i) && forall k :: i <= k < j ==> IsWhisper(lines[k])
  }

  /** Where the two skips stop in `w`: `i` is its first chat line (or its end) and
      `j` the first line from `i` on that is not a whisper (or the end). */
  lemma SkipPositions(w: seq<string>) returns (i: nat, j: nat)
    ensures i <= j <= |w|
    ensures SkipWhispers(SkipUntilChatLine(w)) == w[j..]
    ensures forall k :: 0 <= k < i ==> !IsChatLine(w[k])
    ensures i < |w| ==> IsChatLine(w[i])
    ensures forall k :: i <= k < j ==> IsWhisper(w[k])
    ensures j < |w| ==> !IsWhisper(w[j])
  {
    i := SkipUntilChatLineStop(w);
    var d := SkipWhispersStop(w[i..]);
    j := i + d;
    assert SkipWhispers(SkipUntilChatLine(w)) == w[i..][d..];
    assert w[i..][d..] == w[j..];
    forall k | i <= k < j ensures IsWhisper(w[k]) {
      assert w[i..][k - i] == w[k];
    }
    if j < |w| {
      assert w[i..][d] == w[j];
    }
  }

  /** `SkipPositions` on the window, read as positions in the whole log. */
  lemma ScanPositions(lines: seq<string>) returns (n: nat, i: nat, j: nat)
    ensures n == |Take(lines, SCAN_WINDOW)| && n <= |lines| && n <= SCAN_WINDOW
    ensures i <= j <= n
    ensures forall k :: 0 <= k < i ==> !IsChatLine(lines[k])
    ensures i < n ==> IsChatLine(lines[i])
    ensures forall k :: i <= k < j ==> IsWhisper(lines[k])
    ensures j < n ==> !IsWhisper(lines[j])
    ensures Scan(lines) == if j < n then LogLineAsAfkStatus(lines[j]) else None
  {
    var w := Take(lines, SCAN_WINDOW);
    n := |w|;
    i, j := SkipPositions(w);
    if j < n {
      assert w[j..][0] == w[j];
    }
    forall k | 0 <= k < i ensures !IsChatLine(lines[k]) {
      assert w[k] == lines[k];
    }
    forall k | i <= k < j ensures IsWhisper(lines[k]) {
      assert w[k] == lines[k];
    }
  }

  /** The position of the line `Scan` classifies, if any. */
  lemma ScanPosition(lines: seq<string>) returns (j: nat, found: bool)
    ensures found ==> VerdictLineAt(lines, j) && Scan(lines) == LogLineAsAfkStatus(lines[j])
    ensures !found ==> Scan(lines) == None
  {
    var n, i;
    n, i, j := ScanPositions(lines);
    found := j < n;
    if found {
      assert FirstChatLineAt(lines, i);
    }
  }

  /** At most one line decides the verdict. */
  lemma VerdictLineUnique(lines: seq<string>, j1: nat, j2: nat)
    requires VerdictLineAt(lines, j1) && VerdictLineAt(lines, j2)
    ensures j1 == j2
  {
    var i1: nat :| i1 <= j1 && FirstChatLineAt(lines, i1) && forall k :: i1 <= k < j1 ==> IsWhisper(lines[k]);
    var i2: nat :| i2 <= j2 && FirstChatLineAt(lines, i2) && forall k :: i2 <= k < j2 ==> IsWhisper(lines[k]);
  }

  /** The verdict is read from the deciding line, whatever the other lines say. */
  lemma ScanReadsVerdictLine(lines: seq<string>, j: nat)
    requires VerdictLineAt(lines, j)
    ensures Scan(lines) == LogLineAsAfkStatus(lines[j])
  {
    var n, i0, j0 := ScanPositions(lines);
    var i: nat :| i <= j && FirstChatLineAt(lines, i) && forall k :: i <= k < j ==> IsWhisper(lines[k]);
    assert i == i0;
    assert j == j0;
  }

  /** Without a deciding line there is no verdict; a verdict always comes from a
      line that is not a whisper, among the newest `SCAN_WINDOW`. */
  lemma VerdictComesFromVerdictLine(lines: seq<string>)
    ensures Scan(lines).Some? ==> exists j: nat :: VerdictLineAt(lines, j) && !IsWhisper(lines[j]) && j < SCAN_WINDOW
    ensures (forall j: nat :: !VerdictLineAt(lines, j)) ==> Scan(lines) == None
  {
    var j, found := ScanPosition(lines);
  }

  /** A line older than the newest `SCAN_WINDOW` never affects the verdict. */
  lemma OlderLinesIgnored(lines: seq<string>, k: nat, line: string)
    requires SCAN_WINDOW <= k < |lines|
    ensures Scan(lines[k := line]) == Scan(lines)
  {
    assert Take(lines[k := line], SCAN_WINDOW) == Take(lines, SCAN_WINDOW);
  }

  /** Newer lines that are not chat lines are skipped: they only push older lines
      out of the window. */
  lemma NewerNonChatLinesIgnored(newer: seq<string>, lines: seq<string>)
    requires |newer| <= SCAN_WINDOW
    requires forall k :: 0 <= k < |newer| ==> !IsChatLine(newer[k])
    ensures Scan(newer + lines) == Scan(Take(lines, SCAN_WINDOW - |newer|))
  {
    var m := SCAN_WINDOW - |newer|;
    TakeAfterPrefix(newer, lines, SCAN_WINDOW);
    assert Take(Take(lines, m), SCAN_WINDOW) == Take(lines, m);
    SkipUntilChatLineDropsNonChat(newer, Take(lines, m));
  }

  /** Taking from a log that starts with `newer` keeps all of `newer` and fills the
      rest from what follows. */
  lemma TakeAfterPrefix(newer: seq<string>, lines: seq<string>, n: nat)
    requires |newer| <= n
    ensures Take(newer + lines, n) == newer + Take(lines, n - |newer|)
  {
    if |newer + lines| > n {
      assert (newer + lines)[..n] == newer + lines[..n - |newer|];
    }
  }

  /** Skipping to the first chat line passes over a prefix without one. */
  lemma {:induction false} SkipUntilChatLineDropsNonChat(newer: seq<string>, rest: seq<string>)
    requires forall k :: 0 <= k < |newer| ==> !IsChatLine(newer[k])
    ensures SkipUntilChatLine(newer + rest) == SkipUntilChatLine(rest)
  {
    if newer != [] {
      var all := newer + rest;
      assert all[0] == newer[0] && !IsChatLine(all[0]);
      assert all[1..] == newer[1..] + rest;
      assert SkipUntilChatLine(all) == SkipUntilChatLine(all[1..]);
      SkipUntilChatLineDropsNonChat(newer[1..], rest);
    } else {
      assert newer + rest == rest;
    }
  }

  /** When the newest line is a chat line and not a whisper, it alone decides. */
  lemma NewestChatLineDecides(lines: seq<string>)
    requires |lines| > 0 && IsChatLine(lines[0]) && !IsWhisper(lines[0])
    ensures Scan(lines) == LogLineAsAfkStatus(lines[0])
  {
    assert FirstChatLineAt(lines, 0);
    assert VerdictLineAt(lines, 0);
    ScanReadsVerdictLine(lines, 0);
  }

  /** A whisper forging an AFK message right above the game's own line does not
      count: the game's line below it decides. */
  lemma ForgedWhisperSkipped(forged: string, genuine: string, older: seq<string>)
    requires IsChatLine(forged) && IsWhisper(forged)
    requires IsChatLine(genuine) && !IsWhisper(genuine)
    ensures Scan([forged, genuine] + older) == LogLineAsAfkStatus(genuine)
  {
    var lines := [forged, genuine] + older;
    assert FirstChatLineAt(lines, 0);
    assert VerdictLineAt(lines, 1);
    ScanReadsVerdictLine(lines, 1);
  }

  /** The whisper skip is the only guard, and it can expose a line that is not a chat
      line: a whisper that is the newest chat line is skipped, and then the line right
      below it is classified even when it lacks the chat marker. Here such a line
      turns the genuine AFK-off verdict into AFK on. */
  lemma WhisperCanExposeNonChatLine(whisper: string, other: string, genuine: string)
    requires IsChatLine(whisper) && IsWhisper(whisper)
    requires !IsChatLine(other) && !IsWhisper(other) && IsAfkActivatedMessage(other)
    requires IsChatLine(genuine) && !IsWhisper(genuine)
    requires IsAfkDeactivatedMessage(genuine) && !IsAfkActivatedMessage(genuine)
    ensures Scan([other, genuine]) == Some(false)
    ensures Scan([whisper, other, genuine]) == Some(true)
  {
    assert FirstChatLineAt([other, genuine], 1);
    assert VerdictLineAt([other, genuine], 1);
    ScanReadsVerdictLine([other, genuine], 1);
    assert FirstChatLineAt([whisper, other, genuine], 0);
    assert VerdictLineAt([whisper, other, genuine], 1);
    ScanReadsVerdictLine([whisper, other, genuine], 1);
  }

  /** Two logs that agree on which lines are chat lines and which are whispers,
      and agree on every line that is not a whisper, get the same verdict. */
  lemma SameShapeSameVerdict(a: seq<string>, b: seq<string>)
    requires |a| == |b|
    requires forall k :: 0 <= k < |a| ==> IsChatLine(a[k]) == IsChatLine(b[k])
    requires forall k :: 0 <= k < |a| ==> IsWhisper(a[k]) == IsWhisper(b[k])
    requires forall k :: 0 <= k < |a| && !IsWhisper(a[k]) ==> a[k] == b[k]
    ensures Scan(a) == Scan(b)
  {
    var n, i, v := ScanPositions(a);
    var n', i', v' := ScanPositions(b);
    assert i == i';
    assert v == v';
  }

  /** Whatever a whisper says, it cannot change the verdict: replacing its text by
      any other whisper text (that keeps or lacks the chat marker as it did) leaves
      the result as it was. */
  lemma WhisperTextCannotChangeVerdict(lines: seq<string>, j: nat, forged: string)
    requires j < |lines| && IsWhisper(lines[j]) && IsWhisper(forged)
    requires IsChatLine(forged) == IsChatLine(lines[j])
    ensures Scan(lines[j := forged]) == Scan(lines)
  {
    SameShapeSameVerdict(lines, lines[j := forged]);
  }

  /** Only the deciding line is classified: when it names no AFK phrase there is no
      verdict, whatever any older line says. */
  lemma OlderMatchCannotRescueUnknown(lines: seq<string>, j: nat, k: nat, line: string)
    requires VerdictLineAt(lines, j) && LogLineAsAfkStatus(lines[j]).None?
    requires j < k < |lines|
    ensures Scan(lines[k := line]) == None
  {
    var other := lines[k := line];
    var i: nat :| i <= j && FirstChatLineAt(lines, i) && forall m :: i <= m < j ==> IsWhisper(lines[m]);
    assert FirstChatLineAt(other, i);
    assert VerdictLineAt(other, j);
    ScanReadsVerdictLine(other, j);
  }

  /** Any line older than the deciding line may be replaced by any text at all:
      the verdict stays what it was. */
  lemma OlderLineCannotChangeVerdict(lines: seq<string>, j: nat, k: nat, line: string)
    requires VerdictLineAt(lines, j)
    requires j < k < |lines|
    ensures Scan(lines[k := line]) == Scan(lines)
  {
    var other := lines[k := line];
    var i: nat :| i <= j && FirstChatLineAt(lines, i) && forall m :: i <= m < j ==> IsWhisper(lines[m]);
    assert FirstChatLineAt(other, i);
    assert VerdictLineAt(other, j);
    ScanReadsVerdictLine(other, j);
    ScanReadsVerdictLine(lines, j);
  }
}
