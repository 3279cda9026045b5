/** Bringing the terminal that runs a session to the front (src-tauri/src/terminal/mod.rs,
    terminal/tmux.rs, terminal/applescript.rs, and the older src-tauri/src/terminal.rs).
    Every external command (`ps`, `tmux`, `osascript`) is an oracle `env` from the command to
    its outcome; the AppleScript texts themselves are named by the `Command` that runs them. */
module Terminal {
  import opened Wrappers
  import opened Strs

  /** What running an external command gave: it could not be started, or it exited with a
      success flag and its output. */
  datatype ShellOutcome = SpawnFailed(error: string) | Exited(success: bool, stdout: string, stderr: string)

  /** The external commands the resolver runs. */
  datatype Command =
    | PsTty(pid: nat)                   // ps -p <pid> -o tty=
    | TmuxListPanes                     // tmux list-panes -a -F "#{pane_tty} <target>"
    | TmuxClientTty                     // tmux display-message -p "#{client_tty}"
    | ITermByTty(tty: string)           // the iTerm2 script selecting the session on a tty
    | TerminalRunning                   // the System Events script asking whether Terminal runs
    | TerminalAppByTty(tty: string)     // the Terminal.app script selecting the tab on a tty
    | AnyTerminalWithTmux               // the script activating iTerm2 or Terminal
    | ITermByName(key: string)          // the iTerm2 script selecting a session by name
    | LegacyTerminalAppByTty(tty: string) // the older Terminal.app script (no "not found" reply)

  type Env = Command -> ShellOutcome

  // ---------------------------------------------------------------- AppleScript outcomes

  /** `execute_applescript`: a script succeeds when osascript exits successfully and does not
      answer "not found". */
  function ExecuteAppleScript(o: ShellOutcome): (r: Outcome)
    ensures r.Ok? <==> o.Exited? && o.success && Trim(o.stdout) != "not found"
    ensures o.Exited? && o.success && Trim(o.stdout) == "not found" ==> r == Err("Tab not found")
    ensures o.Exited? && !o.success ==> r == Err("AppleScript error: " + o.stderr)
  {
    match o
    case SpawnFailed(e) => Err("Failed to execute AppleScript: " + e)
    case Exited(success, stdout, stderr) =>
      if success then (if Trim(stdout) == "not found" then Err("Tab not found") else Ok)
      else Err("AppleScript error: " + stderr)
  }

  /** The older `execute_applescript`: the exit status alone decides. */
  function ExecuteAppleScriptLegacy(o: ShellOutcome): (r: Outcome)
    ensures r.Ok? <==> o.Exited? && o.success
  {
    match o
    case SpawnFailed(e) => Err("Failed to execute AppleScript: " + e)
    case Exited(success, _, stderr) => if success then Ok else Err("AppleScript error: " + stderr)
  }

  /** The newer interpretation succeeds only where the older one does. */
  lemma AppleScriptStricterThanLegacy(o: ShellOutcome)
    ensures ExecuteAppleScript(o).Ok? ==> ExecuteAppleScriptLegacy(o).Ok?
    ensures ExecuteAppleScriptLegacy(o).Ok? && !ExecuteAppleScript(o).Ok? <==> o.Exited? && o.success && Trim(o.stdout) == "not found"
  {
  }

  // ---------------------------------------------------------------- the tty of a process

  /** `get_tty_for_pid`: the trimmed output of `ps`, rejected when empty or `??`. */
  function TtyOf(o: ShellOutcome): (r: Result<string>)
    ensures r.Success? <==> o.Exited? && o.success && Trim(o.stdout) != "" && Trim(o.stdout) != "??"
    ensures r.Success? ==> r.value == Trim(o.stdout)
  {
    match o
    case SpawnFailed(e) => Failure("Failed to get TTY: " + e)
    case Exited(success, stdout, _) =>
      if !success then Failure("Failed to get TTY for process")
      else
        var tty := Trim(stdout);
        if tty == "" || tty == "??" then Failure("Process has no TTY") else Success(tty)
  }

  /** A tty handed to the backends never has surrounding whitespace and is never empty. */
  lemma TtyIsTrimmed(o: ShellOutcome)
    requires TtyOf(o).Success?
    ensures var t := TtyOf(o).value;
            t != [] && !IsWhitespace(t[0]) && !IsWhitespace(t[|t| - 1])
  {
    var t := TtyOf(o).value;
    var s := TrimStart(o.stdout);
    assert t == TrimEnd(s);
    assert IsSuffix(t, s) ==> t[0] == s[0] by {
      if t != [] {
        assert t <= s;
      }
    }
  }

  // ---------------------------------------------------------------- the backends

  /** `focus_iterm_by_tty`: the iTerm2 script that selects the session on `tty`; it succeeds iff
      the script ran, exited successfully and did not answer "not found". */
  function FocusITermByTty(env: Env, tty: string): (r: Outcome)
    ensures r.Ok? <==> env(ITermByTty(tty)).Exited? && env(ITermByTty(tty)).success
                       && Trim(env(ITermByTty(tty)).stdout) != "not found"
  {
    ExecuteAppleScript(env(ITermByTty(tty)))
  }

  /** `focus_terminal_app_by_tty`: the Terminal.app script runs only when Terminal is running. */
  function FocusTerminalAppByTty(env: Env, tty: string): (r: Outcome)
    ensures r.Ok? <==> env(TerminalRunning).Exited? && Trim(env(TerminalRunning).stdout) == "true"
                       && ExecuteAppleScript(env(TerminalAppByTty(tty))).Ok?
  {
    match env(TerminalRunning)
    case SpawnFailed(e) => Err("Failed to check Terminal: " + e)
    case Exited(_, stdout, _) =>
      if Trim(stdout) != "true" then Err("Terminal is not running")
      else ExecuteAppleScript(env(TerminalAppByTty(tty)))
  }

  /** `focus_any_terminal_with_tmux`: activate iTerm2, else Terminal.app; it succeeds iff the
      script ran, exited successfully and did not answer "not found". */
  function FocusAnyTerminalWithTmux(env: Env): (r: Outcome)
    ensures r.Ok? <==> env(AnyTerminalWithTmux).Exited? && env(AnyTerminalWithTmux).success
                       && Trim(env(AnyTerminalWithTmux).stdout) != "not found"
  {
    ExecuteAppleScript(env(AnyTerminalWithTmux))
  }

  /** `focus_tmux_client_terminal`: the client's tty name is tried with iTerm2, then
      Terminal.app, then any terminal; a failed or empty client tty goes straight to the last. */
  function FocusTmuxClientTerminal(env: Env): (r: Outcome)
    ensures env(TmuxClientTty).Exited? && (!env(TmuxClientTty).success || Trim(env(TmuxClientTty).stdout) == "")
            ==> r == FocusAnyTerminalWithTmux(env)
    ensures env(TmuxClientTty).Exited? && env(TmuxClientTty).success && Trim(env(TmuxClientTty).stdout) != "" ==>
              var name := LastSegment(Trim(env(TmuxClientTty).stdout), '/');
              (r.Ok? <==> FocusITermByTty(env, name).Ok? || FocusTerminalAppByTty(env, name).Ok?
                          || FocusAnyTerminalWithTmux(env).Ok?)
  {
    match env(TmuxClientTty)
    case SpawnFailed(e) => Err("Failed to get tmux client tty: " + e)
    case Exited(success, stdout, _) =>
      if !success then FocusAnyTerminalWithTmux(env)
      else
        var clientTty := Trim(stdout);
        if clientTty == "" then FocusAnyTerminalWithTmux(env)
        else
          var ttyName := LastSegment(clientTty, '/');
          if FocusITermByTty(env, ttyName).Ok? then Ok
          else if FocusTerminalAppByTty(env, ttyName).Ok? then Ok
          else FocusAnyTerminalWithTmux(env)
  }

  // ---------------------------------------------------------------- tmux panes

  /** A `list-panes` line whose first field contains the tty (`contains || ends_with`). */
  predicate PaneMatches(line: string, tty: string) {
    var fields := Words(line);
    |fields| >= 2 && (Contains(fields[0], tty) || IsSuffix(tty, fields[0]))
  }

  /** The `ends_with` test adds nothing to `contains`. */
  lemma PaneMatchIsContainment(line: string, tty: string)
    ensures PaneMatches(line, tty) <==> |Words(line)| >= 2 && Contains(Words(line)[0], tty)
  {
    var fields := Words(line);
    if |fields| >= 2 && IsSuffix(tty, fields[0]) {
      SuffixIsContained(tty, fields[0]);
    }
  }

  /** The index of the first matching line. */
  function FirstPane(lines: seq<string>, tty: string): (r: Option<nat>)
    ensures r.Some? ==> r.value < |lines| && PaneMatches(lines[r.value], tty)
                        && forall k :: 0 <= k < r.value ==> !PaneMatches(lines[k], tty)
    ensures r.None? ==> forall k :: 0 <= k < |lines| ==> !PaneMatches(lines[k], tty)
    decreases |lines|
  {
    if lines == [] then None
    else if PaneMatches(lines[0], tty) then Some(0)
    else
      match FirstPane(lines[1..], tty)
      case None => None
      case Some(k) => Some(k + 1)
  }

  /** The outcome of `focus_tmux_pane_by_tty` and the target it selects, as a function of the
      oracle. */
  function TmuxPane(env: Env, tty: string): (Outcome, Option<string>) {
    match env(TmuxListPanes)
    case SpawnFailed(e) => (Err("Failed to run tmux: " + e), None)
    case Exited(success, stdout, _) =>
      if !success then (Err("tmux not running or no sessions"), None)
      else
        var lines := Lines(stdout);
        match FirstPane(lines, tty)
        case None => (Err("Pane not found in tmux"), None)
        case Some(k) => (FocusTmuxClientTerminal(env), Some(Words(lines[k])[1]))
  }

  /** The loop of `focus_tmux_pane_by_tty`: the first line with at least two fields whose
      first field contains `tty`; later lines are not examined. */
  method FindPane(lines: seq<string>, tty: string) returns (found: Option<nat>)
    ensures found == FirstPane(lines, tty)
  {
    var i := 0;
    while i < |lines|
      invariant 0 <= i <= |lines|
      invariant forall k :: 0 <= k < i ==> !PaneMatches(lines[k], tty)
    {
      var parts := Words(lines[i]);
      if |parts| >= 2 {
        var paneTty := parts[0];
        if Contains(paneTty, tty) || IsSuffix(tty, paneTty) {
          FirstPaneIs(lines, tty, i);
          return Some(i);
        }
      }
      i := i + 1;
    }
    FirstPaneNone(lines, tty);
    return None;
  }

  /** `focus_tmux_pane_by_tty`: list the panes; on the first line whose pane tty contains
      `tty`, select its target and focus the terminal running the tmux client. */
  method FocusTmuxPaneByTty(env: Env, tty: string) returns (result: Outcome, selected: Option<string>)
    ensures (result, selected) == TmuxPane(env, tty)
  {
    var output := env(TmuxListPanes);
    if output.SpawnFailed? {
      return Err("Failed to run tmux: " + output.error), None;
    }
    if !output.success {
      return Err("tmux not running or no sessions"), None;
    }
    var lines := Lines(output.stdout);
    var found := FindPane(lines, tty);
    if found.None? {
      return Err("Pane not found in tmux"), None;
    }
    var target := Words(lines[found.value])[1];
    result := FocusTmuxClientTerminal(env);
    selected := Some(target);
  }

  lemma {:induction false} FirstPaneIs(lines: seq<string>, tty: string, i: nat)
    requires i < |lines| && PaneMatches(lines[i], tty)
    requires forall k :: 0 <= k < i ==> !PaneMatches(lines[k], tty)
    ensures FirstPane(lines, tty) == Some(i)
    decreases i
  {
    if i > 0 {
      FirstPaneIs(lines[1..], tty, i - 1);
    }
  }

  lemma {:induction false} FirstPaneNone(lines: seq<string>, tty: string)
    requires forall k :: 0 <= k < |lines| ==> !PaneMatches(lines[k], tty)
    ensures FirstPane(lines, tty) == None
    decreases |lines|
  {
    if lines != [] {
      FirstPaneNone(lines[1..], tty);
    }
  }

  /** A failed pane listing selects nothing; a match selects the first matching pane and the
      call's outcome is that of the client focus, even when that fails; no match is an error. */
  lemma TmuxPaneOutcomes(env: Env, tty: string)
    ensures var (r, sel) := TmuxPane(env, tty);
            var o := env(TmuxListPanes);
            (!(o.Exited? && o.success) ==> r.Err? && sel.None?)
            && (o.Exited? && o.success ==>
                  (sel.Some? <==> exists k :: 0 <= k < |Lines(o.stdout)| && PaneMatches(Lines(o.stdout)[k], tty))
                  && (sel.None? ==> r == Err("Pane not found in tmux")))
            && (sel.Some? ==> r == FocusTmuxClientTerminal(env))
  {
    var o := env(TmuxListPanes);
    if o.Exited? && o.success {
      var lines := Lines(o.stdout);
      var first := FirstPane(lines, tty);
      if first.Some? {
        assert PaneMatches(lines[first.value], tty);
      }
    }
  }

  // ---------------------------------------------------------------- the chains

  /** `focus_terminal_for_pid`: tmux, then iTerm2, then Terminal.app, on the process's tty. */
  function FocusTerminalForPid(env: Env, pid: nat): Outcome {
    match TtyOf(env(PsTty(pid)))
    case Failure(e) => Err(e)
    case Success(tty) =>
      if TmuxPane(env, tty).0.Ok? then Ok
      else if FocusITermByTty(env, tty).Ok? then Ok
      else FocusTerminalAppByTty(env, tty)
  }

  /** Without a tty nothing is tried; with one, the chain succeeds iff some backend does, and
      when none does the error is Terminal.app's. */
  lemma FocusForPidChain(env: Env, pid: nat)
    ensures TtyOf(env(PsTty(pid))).Failure? ==> FocusTerminalForPid(env, pid) == Err(TtyOf(env(PsTty(pid))).error)
    ensures TtyOf(env(PsTty(pid))).Success? ==>
              var tty := TtyOf(env(PsTty(pid))).value;
              (FocusTerminalForPid(env, pid).Ok? <==>
                 (TmuxPane(env, tty).0.Ok? || FocusITermByTty(env, tty).Ok? || FocusTerminalAppByTty(env, tty).Ok?))
              && (!TmuxPane(env, tty).0.Ok? && !FocusITermByTty(env, tty).Ok?
                  ==> FocusTerminalForPid(env, pid) == FocusTerminalAppByTty(env, tty))
  {
  }

  /** `path.split('/').last().unwrap_or(path)`. */
  function PathKey(path: string): (key: string)
    ensures '/' !in key && IsSuffix(key, path)
    ensures '/' !in path ==> key == path
    ensures path != [] && path[|path| - 1] == '/' ==> key == ""
  {
    var parts := Split(path, '/');
    LastOfSplit(path, '/');
    assert parts[|parts| - 1] == LastSegment(path, '/');
    assert path != [] && path[|path| - 1] == '/' ==> LastSegment(path, '/') == "";
    parts[|parts| - 1]
  }

  /** `focus_terminal_by_path`: the iTerm2 session whose name contains the path's last
      component. */
  function FocusTerminalByPath(env: Env, path: string): (r: Outcome)
    ensures r.Ok? <==> env(ITermByName(PathKey(path))).Exited? && env(ITermByName(PathKey(path))).success
                       && Trim(env(ITermByName(PathKey(path))).stdout) != "not found"
  {
    ExecuteAppleScript(env(ITermByName(PathKey(path))))
  }

  // ---------------------------------------------------------------- the older chain

  /** The older `focus_terminal_for_pid`: iTerm2, then Terminal.app, with exit status alone
      deciding. */
  function LegacyFocusTerminalForPid(env: Env, pid: nat): (r: Outcome)
    ensures TtyOf(env(PsTty(pid))).Failure? ==> r == Err(TtyOf(env(PsTty(pid))).error)
    ensures TtyOf(env(PsTty(pid))).Success? ==>
              var tty := TtyOf(env(PsTty(pid))).value;
              (r.Ok? <==> (env(ITermByTty(tty)).Exited? && env(ITermByTty(tty)).success)
                          || (env(LegacyTerminalAppByTty(tty)).Exited? && env(LegacyTerminalAppByTty(tty)).success))
  {
    match TtyOf(env(PsTty(pid)))
    case Failure(e) => Err(e)
    case Success(tty) =>
      if ExecuteAppleScriptLegacy(env(ITermByTty(tty))).Ok? then Ok
      else ExecuteAppleScriptLegacy(env(LegacyTerminalAppByTty(tty)))
  }

  /** The older `focus_terminal_by_path`: the same iTerm2 name search, with exit status alone
      deciding, so a "not found" answer is success. */
  function LegacyFocusTerminalByPath(env: Env, path: string): (r: Outcome)
    ensures r.Ok? <==> env(ITermByName(PathKey(path))).Exited? && env(ITermByName(PathKey(path))).success
  {
    ExecuteAppleScriptLegacy(env(ITermByName(PathKey(path))))
  }

  /** In the older chain an iTerm2 script that answers "not found" counts as success, so
      Terminal.app is never tried; the newer interpretation reports the miss. */
  lemma LegacyNotFoundIsSuccess(env: Env, pid: nat)
    requires TtyOf(env(PsTty(pid))).Success?
    requires var o := env(ITermByTty(TtyOf(env(PsTty(pid))).value));
             o.Exited? && o.success && Trim(o.stdout) == "not found"
    ensures LegacyFocusTerminalForPid(env, pid) == Ok
    ensures FocusITermByTty(env, TtyOf(env(PsTty(pid))).value) == Err("Tab not found")
  {
    var tty := TtyOf(env(PsTty(pid))).value;
    assert ExecuteAppleScriptLegacy(env(ITermByTty(tty))).Ok?;
  }

  /** The older chain succeeds whenever the newer one's iTerm2 or Terminal.app step would
      have on the same outcomes. */
  lemma LegacyChainCoversNewer(env: Env, pid: nat)
    requires TtyOf(env(PsTty(pid))).Success?
    requires var tty := TtyOf(env(PsTty(pid))).value;
             FocusITermByTty(env, tty).Ok?
    ensures LegacyFocusTerminalForPid(env, pid) == Ok
  {
  }
}
