/** The status classifier (src-tauri/src/session/status.rs): content predicates,
    the sort priority and the decision function mapping the newest message's
    signals and the log's freshness to one of the four statuses. */
module Status {
  import opened Wrappers
  import opened Strs
  import opened Model

  // ---------------------------------------------------------------- content predicates

  /** `arr.iter().any(|item| item["type"] == t)`. */
  function AnyBlockOfType(blocks: seq<Block>, t: string): (r: bool)
    ensures r <==> exists i :: 0 <= i < |blocks| && blocks[i].blockType == Some(t)
    decreases |blocks|
  {
    blocks != [] && (blocks[0].blockType == Some(t) || AnyBlockOfType(blocks[1..], t))
  }

  /** `has_tool_use`: an array with some block of type `"tool_use"`. */
  function HasToolUse(c: Content): (r: bool)
    ensures r <==> c.Arr? && exists i :: 0 <= i < |c.blocks| && c.blocks[i].blockType == Some("tool_use")
  {
    c.Arr? && AnyBlockOfType(c.blocks, "tool_use")
  }

  /** `has_tool_result`: an array with some block of type `"tool_result"`. */
  function HasToolResult(c: Content): (r: bool)
    ensures r <==> c.Arr? && exists i :: 0 <= i < |c.blocks| && c.blocks[i].blockType == Some("tool_result")
  {
    c.Arr? && AnyBlockOfType(c.blocks, "tool_result")
  }

  /** The two predicates are independent: one array can carry both kinds of block. */
  lemma ToolUseAndResultCanCoexist()
    ensures var c := Arr([Block(Some("tool_use"), None), Block(Some("tool_result"), None)]);
            HasToolUse(c) && HasToolResult(c)
  {
    var c := Arr([Block(Some("tool_use"), None), Block(Some("tool_result"), None)]);
    assert c.blocks[0].blockType == Some("tool_use");
    assert c.blocks[1].blockType == Some("tool_result");
  }

  /** `arr.iter().find_map(|v| v["text"].as_str())`: the text of the first block that has one,
      whatever its type and even if it is empty. */
  function FirstText(blocks: seq<Block>): (r: Option<string>)
    ensures r.Some? ==> exists i :: 0 <= i < |blocks| && blocks[i].text == r
                          && forall j :: 0 <= j < i ==> blocks[j].text.None?
    ensures r.None? ==> forall i :: 0 <= i < |blocks| ==> blocks[i].text.None?
    decreases |blocks|
  {
    if blocks == [] then None
    else if blocks[0].text.Some? then blocks[0].text
    else FirstText(blocks[1..])
  }

  /** The seventeen commands the CLI handles itself, without a model turn. */
  const LocalCommands: seq<string> := [
    "/clear", "/compact", "/help", "/config", "/cost", "/doctor", "/init", "/login",
    "/logout", "/memory", "/model", "/permissions", "/pr-comments", "/review",
    "/status", "/terminal-setup", "/vim"]

  /** The text `is_local_slash_command` inspects; `None` for content that is neither a string
      nor an array (it answers `false` for those without looking further). */
  function CommandText(c: Content): Option<string> {
    match c
    case Str(s) => Some(s)
    case Arr(blocks) => Some(FirstText(blocks).GetOr(""))
    case Other => None
  }

  /** `trimmed == cmd || trimmed.starts_with(cmd + " ")`. */
  predicate MatchesCommand(trimmed: string, cmd: string) {
    trimmed == cmd || cmd + " " <= trimmed
  }

  /** `local_commands.iter().any(..)`. */
  function MatchesAnyCommand(trimmed: string, cmds: seq<string>): (r: bool)
    ensures r <==> exists i :: 0 <= i < |cmds| && MatchesCommand(trimmed, cmds[i])
    decreases |cmds|
  {
    cmds != [] && (MatchesCommand(trimmed, cmds[0]) || MatchesAnyCommand(trimmed, cmds[1..]))
  }

  /** `is_local_slash_command`: the trimmed text is one of the local commands, alone or
      followed by a space and arguments. */
  function IsLocalSlashCommand(c: Content): (r: bool)
    ensures r <==> CommandText(c).Some?
                   && exists i :: 0 <= i < |LocalCommands| && MatchesCommand(Trim(CommandText(c).value), LocalCommands[i])
  {
    match CommandText(c)
    case None => false
    case Some(text) => MatchesAnyCommand(Trim(text), LocalCommands)
  }

  /** A recognised command always starts with `/` once trimmed; in particular empty text
      (an array without any text field) never is one. */
  lemma {:induction false} LocalCommandStartsWithSlash(c: Content)
    requires IsLocalSlashCommand(c)
    ensures CommandText(c).Some?
    ensures var t := Trim(CommandText(c).value); |t| > 0 && t[0] == '/'
  {
    var t := Trim(CommandText(c).value);
    var i :| 0 <= i < |LocalCommands| && MatchesCommand(t, LocalCommands[i]);
    var cmd := LocalCommands[i];
    CommandsStartWithSlash(i);
    if t != cmd {
      assert cmd + " " <= t;
      assert t[0] == (cmd + " ")[0];
    }
  }

  lemma CommandsStartWithSlash(i: nat)
    requires i < |LocalCommands|
    ensures |LocalCommands[i]| > 1 && LocalCommands[i][0] == '/'
  {
  }

  /** For array content only the first block carrying text matters. */
  lemma ArrayCommandIsFirstText(blocks: seq<Block>)
    ensures IsLocalSlashCommand(Arr(blocks)) == IsLocalSlashCommand(Str(FirstText(blocks).GetOr("")))
  {
  }

  /** A text that differs from a command at some position of the command is not that command. */
  lemma MismatchIsNotCommand(t: string, cmd: string, k: nat)
    requires k < |cmd| && k < |t| && cmd[k] != t[k]
    ensures !MatchesCommand(t, cmd)
  {
  }

  /** The positive cases pinned by the tests of `is_local_slash_command`: a command with an
      argument, a command surrounded by blanks, and a command in an array's text block. */
  lemma LocalCommandExamples()
    ensures IsLocalSlashCommand(Str("/model sonnet"))
    ensures IsLocalSlashCommand(Str("  /clear  "))
    ensures IsLocalSlashCommand(Arr([Block(Some("text"), Some("/clear"))]))
  {
    ModelWithArgumentIsLocal();
    PaddedClearIsLocal();
    ArrayClearIsLocal();
  }

  lemma ModelWithArgumentIsLocal()
    ensures IsLocalSlashCommand(Str("/model sonnet"))
  {
    var model := "/model sonnet";
    TrimNoop(model);
    assert model == LocalCommands[10] + " " + "sonnet";
    assert MatchesCommand(Trim(model), LocalCommands[10]);
  }

  lemma PaddedClearIsLocal()
    ensures IsLocalSlashCommand(Str("  /clear  "))
  {
    PaddedClearTrims();
    assert MatchesCommand(Trim("  /clear  "), LocalCommands[0]);
  }

  lemma ArrayClearIsLocal()
    ensures IsLocalSlashCommand(Arr([Block(Some("text"), Some("/clear"))]))
  {
    TrimNoop("/clear");
    assert MatchesCommand(Trim("/clear"), LocalCommands[0]);
  }

  lemma PaddedClearTrims()
    ensures Trim("  /clear  ") == "/clear"
  {
    var c := "/clear";
    TrimPadded(c);
    var s := "  /clear  ";
    assert |s| == 10 && s[..2] == [' ', ' '] && s[2..8] == c && s[8..] == [' ', ' '];
    assert s == s[..2] + s[2..8] + s[8..];
  }

  /** The negative cases pinned by the same tests: an unknown command, a command-like word
      that is not in the list, empty text and a non-text value. */
  lemma NonLocalCommandExamples()
    ensures !IsLocalSlashCommand(Str("/custom-command"))
    ensures !IsLocalSlashCommand(Str("/fix the bug"))
    ensures !IsLocalSlashCommand(Str(""))
    ensures !IsLocalSlashCommand(Other)
  {
    CustomIsNotLocal();
    FixIsNotLocal();
    forall i | 0 <= i < |LocalCommands|
      ensures !MatchesCommand("", LocalCommands[i])
    {
      CommandsStartWithSlash(i);
    }
  }

  lemma CustomIsNotLocal()
    ensures !IsLocalSlashCommand(Str("/custom-command"))
  {
    var custom := "/custom-command";
    TrimNoop(custom);
    forall i | 0 <= i < |LocalCommands|
      ensures !MatchesCommand(custom, LocalCommands[i])
    {
      CommandsAreNotCustomOrFix(i);
      if LocalCommands[i][1] != 'c' {
        MismatchIsNotCommand(custom, LocalCommands[i], 1);
      } else {
        MismatchIsNotCommand(custom, LocalCommands[i], 2);
      }
    }
  }

  lemma FixIsNotLocal()
    ensures !IsLocalSlashCommand(Str("/fix the bug"))
  {
    var fix := "/fix the bug";
    TrimNoop(fix);
    forall i | 0 <= i < |LocalCommands|
      ensures !MatchesCommand(fix, LocalCommands[i])
    {
      CommandsAreNotCustomOrFix(i);
      MismatchIsNotCommand(fix, LocalCommands[i], 1);
    }
  }

  lemma CommandsAreNotCustomOrFix(i: nat)
    requires i < |LocalCommands|
    ensures |LocalCommands[i]| > 2
    ensures LocalCommands[i][1] != 'f'
    ensures LocalCommands[i][1] != 'c' || LocalCommands[i][2] != 'u'
  {
  }

  // ---------------------------------------------------------------- priority

  /** `status_sort_priority`: lower is listed first. Active states share the top rank,
      a session waiting for the user comes next, idle ones last. */
  function StatusSortPriority(s: SessionStatus): (r: nat)
    ensures r <= 2
    ensures r == 0 <==> s == Thinking || s == Processing
    ensures r == 2 <==> s == Idle
  {
    match s
    case Thinking => 0
    case Processing => 0
    case Waiting => 1
    case Idle => 2
  }

  // ---------------------------------------------------------------- the decision

  /** `determine_status` as status.rs shows it (five inputs, no interruption signal).
      Each status is characterised by the inputs that produce it. */
  function DetermineStatus(msgType: Option<string>, hasToolUse: bool, hasToolResult: bool,
                           isLocalCommand: bool, fileRecentlyModified: bool): (r: SessionStatus)
    ensures r == Waiting <==>
      (msgType == Some("assistant") && !hasToolUse) || (msgType == Some("user") && isLocalCommand)
    ensures r == Processing <==>
      (msgType == Some("assistant") && hasToolUse)
      || (msgType == Some("user") && !isLocalCommand && hasToolResult && !fileRecentlyModified)
    ensures r == Idle <==>
      msgType != Some("assistant") && msgType != Some("user") && !fileRecentlyModified
    ensures r == Thinking <==>
      (msgType == Some("user") && !isLocalCommand && (!hasToolResult || fileRecentlyModified))
      || (msgType != Some("assistant") && msgType != Some("user") && fileRecentlyModified)
  {
    if msgType == Some("assistant") then
      if hasToolUse then Processing else Waiting
    else if msgType == Some("user") then
      if isLocalCommand then Waiting
      else if hasToolResult then (if fileRecentlyModified then Thinking else Processing)
      else Thinking
    else if fileRecentlyModified then Thinking
    else Idle
  }

  /** After an assistant message only `tool_use` matters: freshness, `tool_result` and the
      local-command flag are ignored. */
  lemma AssistantIgnoresOtherSignals(toolUse: bool, r1: bool, l1: bool, f1: bool, r2: bool, l2: bool, f2: bool)
    ensures DetermineStatus(Some("assistant"), toolUse, r1, l1, f1)
         == DetermineStatus(Some("assistant"), toolUse, r2, l2, f2)
  {
  }

  /** Every status is produced by some input. */
  lemma AllStatusesReachable(s: SessionStatus)
    ensures exists t: Option<string>, u: bool, r: bool, l: bool, f: bool :: DetermineStatus(t, u, r, l, f) == s
  {
    match s
    case Waiting => assert DetermineStatus(Some("assistant"), false, false, false, false) == Waiting;
    case Processing => assert DetermineStatus(Some("assistant"), true, false, false, false) == Processing;
    case Thinking => assert DetermineStatus(Some("user"), false, false, false, false) == Thinking;
    case Idle => assert DetermineStatus(None, false, false, false, false) == Idle;
  }

  /** The six-input form that parser.rs:422-429 calls and session_tests.rs:227-360 exercise,
      with an extra `isInterrupted` flag. Neither it nor `is_interrupted_request` is defined in
      status.rs, whose `determine_status` takes five inputs; this definition is read off the
      expectations of those tests and serves only to state them. */
  function DetermineStatusAsTested(msgType: Option<string>, hasToolUse: bool, hasToolResult: bool,
                                   isLocalCommand: bool, isInterrupted: bool,
                                   fileRecentlyModified: bool): (r: SessionStatus)
    ensures msgType == Some("user") && (isLocalCommand || isInterrupted) ==> r == Waiting
    ensures msgType == Some("assistant") ==> (r == Waiting <==> !hasToolUse && !fileRecentlyModified)
  {
    if msgType == Some("assistant") then
      if hasToolUse || fileRecentlyModified then Processing else Waiting
    else if msgType == Some("user") then
      if isLocalCommand || isInterrupted then Waiting
      else if hasToolResult then (if fileRecentlyModified then Thinking else Processing)
      else Thinking
    else if fileRecentlyModified then Thinking
    else Idle
  }

  /** The expectations of the status tests, stated on the six-input form. */
  lemma TestedStatusPoints()
    ensures DetermineStatusAsTested(Some("assistant"), true, false, false, false, false) == Processing
    ensures DetermineStatusAsTested(Some("assistant"), true, false, false, false, true) == Processing
    ensures DetermineStatusAsTested(Some("assistant"), false, false, false, false, false) == Waiting
    ensures DetermineStatusAsTested(Some("assistant"), false, false, false, false, true) == Processing
    ensures DetermineStatusAsTested(Some("user"), false, false, false, false, false) == Thinking
    ensures DetermineStatusAsTested(Some("user"), false, false, true, false, false) == Waiting
    ensures DetermineStatusAsTested(Some("user"), false, false, false, true, false) == Waiting
    ensures DetermineStatusAsTested(Some("user"), false, true, false, false, true) == Thinking
    ensures DetermineStatusAsTested(Some("user"), false, true, false, false, false) == Processing
    ensures DetermineStatusAsTested(None, false, false, false, false, true) == Thinking
    ensures DetermineStatusAsTested(None, false, false, false, false, false) == Idle
  {
  }

  /** Without an interruption, the tested six-input form and the five-input `determine_status`
      of status.rs disagree exactly on a fresh assistant message without `tool_use`: Processing
      in the tests, Waiting in status.rs. */
  lemma TestedFormDiffersFromFiveInput(t: Option<string>, u: bool, r: bool, l: bool, f: bool)
    ensures DetermineStatusAsTested(t, u, r, l, false, f) != DetermineStatus(t, u, r, l, f)
        <==> t == Some("assistant") && !u && f
  {
  }
}
