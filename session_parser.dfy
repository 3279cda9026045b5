/** Reading one conversation log into a `Session` (`parse_session_file` in
    src-tauri/src/session/parser.rs, and its older copy in src-tauri/src/session.rs).
    The file system is an input: a log is its path, extension, modification time (integer
    milliseconds, `None` when unreadable), whether it opens, and its lines in file order, each
    already parsed (`None` for a line that is not a JSON record of the expected shape). */
module SessionParser {
  import opened Wrappers
  import opened Strs
  import opened Model
  import opened Status
  import Process

  datatype LogFile = LogFile(
    path: string,
    extension: Option<string>,
    modified: Option<int>,
    opens: bool,
    lines: seq<Option<JsonlMessage>>)

  /** At most this many of the newest lines are read. */
  const RecentLineCount: nat := 100

  /** A log modified less than this many milliseconds ago counts as being written. */
  const FreshWindowMs: int := 3000

  /** `now.duration_since(modified) < window`: an unknown modification time, or one in the
      future (where `duration_since` fails), is not recent. */
  predicate ModifiedWithin(modified: Option<int>, now: int, window: int) {
    modified.Some? && modified.value <= now && now - modified.value < window
  }

  /** `lines.iter().rev().take(100)`: the newest lines, newest first. */
  function RecentLines(lines: seq<Option<JsonlMessage>>): (recent: seq<Option<JsonlMessage>>)
    ensures |recent| == if |lines| < RecentLineCount then |lines| else RecentLineCount
    ensures forall k :: 0 <= k < |recent| ==> recent[k] == lines[|lines| - 1 - k]
  {
    var n := if |lines| < RecentLineCount then |lines| else RecentLineCount;
    seq(n, k requires 0 <= k < n => lines[|lines| - 1 - k])
  }

  // ---------------------------------------------------------------- the metadata/status scan

  /** `match c { String(s) => !s.is_empty(), Array(a) => !a.is_empty(), _ => false }`. */
  predicate HasContent(c: Content) {
    match c
    case Str(s) => s != ""
    case Arr(blocks) => blocks != []
    case Other => false
  }

  /** The content of a record, when it has a message with a content field. */
  function ContentOf(msg: JsonlMessage): Option<Content> {
    if msg.message.Some? then msg.message.value.content else None
  }

  /** The signals read from the status record. */
  datatype StatusInfo = StatusInfo(
    msgType: Option<string>, role: Option<string>,
    toolUse: bool, toolResult: bool, localCommand: bool)

  function StatusInfoOf(msg: JsonlMessage): StatusInfo
    requires ContentOf(msg).Some?
  {
    var c := ContentOf(msg).value;
    StatusInfo(msg.msgType, msg.message.value.role, HasToolUse(c), HasToolResult(c), IsLocalSlashCommand(c))
  }

  /** A record that can supply the status signals: its content is non-empty. */
  predicate IsStatusRecord(line: Option<JsonlMessage>) {
    line.Some? && ContentOf(line.value).Some? && HasContent(ContentOf(line.value).value)
  }

  /** The accumulators of the first loop. */
  datatype Scan = Scan(
    sessionId: Option<string>, gitBranch: Option<string>, timestamp: Option<string>,
    status: Option<StatusInfo>)

  const NoScan := Scan(None, None, None, None)

  /** One parsed record: each of the three fields is taken if still unset, and the status
      signals if not yet found and the content is non-empty. */
  function ScanStep(acc: Scan, msg: JsonlMessage): (r: Scan)
    ensures acc.sessionId.Some? ==> r.sessionId == acc.sessionId
    ensures acc.status.Some? ==> r.status == acc.status
  {
    Scan(
      if acc.sessionId.None? then msg.sessionId else acc.sessionId,
      if acc.gitBranch.None? then msg.gitBranch else acc.gitBranch,
      if acc.timestamp.None? then msg.timestamp else acc.timestamp,
      if acc.status.None? && IsStatusRecord(Some(msg)) then Some(StatusInfoOf(msg)) else acc.status)
  }

  /** Both a session id and the status signals are known: the loop stops. */
  predicate Done(acc: Scan) {
    acc.sessionId.Some? && acc.status.Some?
  }

  /** The first loop over the newest-first lines, unparsable lines skipped, stopping right
      after the record that completes `Done`. */
  function MetaScan(acc: Scan, recent: seq<Option<JsonlMessage>>): Scan
    decreases |recent|
  {
    if recent == [] then acc
    else if recent[0].None? then MetaScan(acc, recent[1..])
    else
      var next := ScanStep(acc, recent[0].value);
      if Done(next) then next else MetaScan(next, recent[1..])
  }

  /** Reference definition: the session id of the newest record that has one. */
  function FirstSessionId(recent: seq<Option<JsonlMessage>>): (r: Option<string>)
    ensures r.Some? <==> exists k :: 0 <= k < |recent| && recent[k].Some? && recent[k].value.sessionId.Some?
    ensures r.Some? ==> exists k :: 0 <= k < |recent| && recent[k].Some? && recent[k].value.sessionId == r
                          && forall j :: 0 <= j < k ==> recent[j].None? || recent[j].value.sessionId.None?
    decreases |recent|
  {
    if recent == [] then None
    else if recent[0].Some? && recent[0].value.sessionId.Some? then recent[0].value.sessionId
    else
      var r := FirstSessionId(recent[1..]);
      assert forall k :: 0 <= k < |recent| - 1 ==> recent[1..][k] == recent[k + 1];
      r
  }

  /** Reference definition: the signals of the newest record with non-empty content. */
  function FirstStatus(recent: seq<Option<JsonlMessage>>): (r: Option<StatusInfo>)
    ensures r.Some? <==> exists k :: 0 <= k < |recent| && IsStatusRecord(recent[k])
    ensures r.Some? ==> exists k :: 0 <= k < |recent| && IsStatusRecord(recent[k])
                          && r == Some(StatusInfoOf(recent[k].value))
                          && forall j :: 0 <= j < k ==> !IsStatusRecord(recent[j])
    decreases |recent|
  {
    if recent == [] then None
    else if IsStatusRecord(recent[0]) then Some(StatusInfoOf(recent[0].value))
    else
      var r := FirstStatus(recent[1..]);
      assert forall k :: 0 <= k < |recent| - 1 ==> recent[1..][k] == recent[k + 1];
      r
  }

  /** The early stop never loses the session id: the scan's id is the newest one. */
  lemma {:induction false} MetaScanSessionId(acc: Scan, recent: seq<Option<JsonlMessage>>)
    ensures MetaScan(acc, recent).sessionId
         == if acc.sessionId.Some? then acc.sessionId else FirstSessionId(recent)
    decreases |recent|
  {
    if recent != [] {
      if recent[0].None? {
        MetaScanSessionId(acc, recent[1..]);
      } else {
        var next := ScanStep(acc, recent[0].value);
        if !Done(next) {
          MetaScanSessionId(next, recent[1..]);
        }
      }
    }
  }

  /** Nor the status: the scan's signals are those of the newest record with content. */
  lemma {:induction false} MetaScanStatus(acc: Scan, recent: seq<Option<JsonlMessage>>)
    ensures MetaScan(acc, recent).status
         == if acc.status.Some? then acc.status else FirstStatus(recent)
    decreases |recent|
  {
    if recent != [] {
      if recent[0].None? {
        MetaScanStatus(acc, recent[1..]);
      } else {
        var next := ScanStep(acc, recent[0].value);
        if !Done(next) {
          MetaScanStatus(next, recent[1..]);
        }
      }
    }
  }

  /** A branch the scan reports comes from a record it read. */
  lemma {:induction false} MetaScanBranchFromRecord(acc: Scan, recent: seq<Option<JsonlMessage>>)
    ensures var b := MetaScan(acc, recent).gitBranch;
            b == acc.gitBranch || exists k :: 0 <= k < |recent| && recent[k].Some? && recent[k].value.gitBranch == b
    decreases |recent|
  {
    if recent != [] {
      var b := MetaScan(acc, recent).gitBranch;
      var rest := recent[1..];
      var from := acc;
      if recent[0].Some? {
        from := ScanStep(acc, recent[0].value);
      }
      if recent[0].None? || !Done(from) {
        MetaScanBranchFromRecord(from, rest);
        if b != from.gitBranch {
          var k :| 0 <= k < |rest| && rest[k].Some? && rest[k].value.gitBranch == b;
          assert recent[k + 1] == rest[k];
        }
      }
      if b != acc.gitBranch && b == from.gitBranch {
        assert recent[0].Some? && recent[0].value.gitBranch == b;
      }
    }
  }

  /** Reference definition: the branch of the newest record that has one. */
  function FirstBranch(recent: seq<Option<JsonlMessage>>): (r: Option<string>)
    ensures r.Some? <==> exists k :: 0 <= k < |recent| && recent[k].Some? && recent[k].value.gitBranch.Some?
    ensures r.Some? ==> exists k :: 0 <= k < |recent| && recent[k].Some? && recent[k].value.gitBranch == r
                          && forall j :: 0 <= j < k ==> recent[j].None? || recent[j].value.gitBranch.None?
    decreases |recent|
  {
    if recent == [] then None
    else if recent[0].Some? && recent[0].value.gitBranch.Some? then recent[0].value.gitBranch
    else
      var r := FirstBranch(recent[1..]);
      assert forall k :: 0 <= k < |recent| - 1 ==> recent[1..][k] == recent[k + 1];
      r
  }

  /** Reference definition: the timestamp of the newest record that has one. */
  function FirstTimestamp(recent: seq<Option<JsonlMessage>>): (r: Option<string>)
    ensures r.Some? <==> exists k :: 0 <= k < |recent| && recent[k].Some? && recent[k].value.timestamp.Some?
    ensures r.Some? ==> exists k :: 0 <= k < |recent| && recent[k].Some? && recent[k].value.timestamp == r
                          && forall j :: 0 <= j < k ==> recent[j].None? || recent[j].value.timestamp.None?
    decreases |recent|
  {
    if recent == [] then None
    else if recent[0].Some? && recent[0].value.timestamp.Some? then recent[0].value.timestamp
    else
      var r := FirstTimestamp(recent[1..]);
      assert forall k :: 0 <= k < |recent| - 1 ==> recent[1..][k] == recent[k + 1];
      r
  }

  /** A parsable line is a step of the first loop; an unparsable one is skipped. */
  function LineStep(acc: Scan, line: Option<JsonlMessage>): Scan {
    if line.None? then acc else ScanStep(acc, line.value)
  }

  /** The first loop without its early stop. */
  function FoldScan(acc: Scan, lines: seq<Option<JsonlMessage>>): Scan
    decreases |lines|
  {
    if lines == [] then acc else FoldScan(LineStep(acc, lines[0]), lines[1..])
  }

  /** The newest `n` lines leave the first loop done (`KnownAfterIff`: both a session id and a
      status record occur among them). */
  predicate KnownAfter(recent: seq<Option<JsonlMessage>>, n: nat) {
    n <= |recent| && Done(FoldScan(NoScan, recent[..n]))
  }

  function ScanFrom(recent: seq<Option<JsonlMessage>>, m: nat): (n: nat)
    requires m <= |recent|
    ensures m <= n <= |recent|
    ensures n == |recent| || KnownAfter(recent, n)
    ensures forall j :: m <= j < n ==> !KnownAfter(recent, j)
    decreases |recent| - m
  {
    if m == |recent| || KnownAfter(recent, m) then m else ScanFrom(recent, m + 1)
  }

  /** Reference definition of how far the first loop reads: the newest lines up to and
      including the first one after which both the id and the status record are known, or all
      of them. */
  function ScanLength(recent: seq<Option<JsonlMessage>>): (n: nat)
    ensures n <= |recent|
    ensures n == |recent| || KnownAfter(recent, n)
    ensures forall j :: 0 <= j < n ==> !KnownAfter(recent, j)
  {
    ScanFrom(recent, 0)
  }

  /** Without the stop, every field is the newest one offered, unless it was already set. */
  lemma {:induction false} FoldScanFields(acc: Scan, lines: seq<Option<JsonlMessage>>)
    ensures var r := FoldScan(acc, lines);
            r.sessionId == (if acc.sessionId.Some? then acc.sessionId else FirstSessionId(lines))
            && r.gitBranch == (if acc.gitBranch.Some? then acc.gitBranch else FirstBranch(lines))
            && r.timestamp == (if acc.timestamp.Some? then acc.timestamp else FirstTimestamp(lines))
            && r.status == (if acc.status.Some? then acc.status else FirstStatus(lines))
    decreases |lines|
  {
    if lines != [] {
      FoldScanFields(LineStep(acc, lines[0]), lines[1..]);
    }
  }

  /** The loop is done after the newest `n` lines exactly when a session id and a status
      record occur among them. */
  lemma KnownAfterIff(recent: seq<Option<JsonlMessage>>, n: nat)
    requires n <= |recent|
    ensures KnownAfter(recent, n)
        <==> FirstSessionId(recent[..n]).Some? && FirstStatus(recent[..n]).Some?
  {
    FoldScanFields(NoScan, recent[..n]);
  }

  lemma {:induction false} FoldScanAppend(acc: Scan, a: seq<Option<JsonlMessage>>, b: seq<Option<JsonlMessage>>)
    ensures FoldScan(acc, a + b) == FoldScan(FoldScan(acc, a), b)
    decreases |a|
  {
    if a == [] {
      assert a + b == b;
    } else {
      assert (a + b)[1..] == a[1..] + b;
      FoldScanAppend(LineStep(acc, a[0]), a[1..], b);
    }
  }

  /** The fold over the newest `i + 1` lines is one more step after the fold over `i`. */
  lemma FoldScanSnoc(recent: seq<Option<JsonlMessage>>, i: nat)
    requires i < |recent|
    ensures FoldScan(NoScan, recent[..i + 1]) == LineStep(FoldScan(NoScan, recent[..i]), recent[i])
  {
    assert recent[..i + 1] == recent[..i] + [recent[i]];
    FoldScanAppend(NoScan, recent[..i], [recent[i]]);
    assert [recent[i]][1..] == [];
  }

  /** Once the newest `i` lines leave something unknown, the rest of the loop ends where
      `ScanFrom` says, having read exactly those lines. */
  lemma {:induction false} MetaScanReadsFrom(recent: seq<Option<JsonlMessage>>, i: nat)
    requires i <= |recent| && !KnownAfter(recent, i)
    ensures MetaScan(FoldScan(NoScan, recent[..i]), recent[i..]) == FoldScan(NoScan, recent[..ScanFrom(recent, i)])
    decreases |recent| - i
  {
    var acc := FoldScan(NoScan, recent[..i]);
    FoldScanFields(NoScan, recent[..i]);
    if i < |recent| {
      FoldScanSnoc(recent, i);
      FoldScanFields(NoScan, recent[..i + 1]);
      assert recent[i..][0] == recent[i] && recent[i..][1..] == recent[i + 1..];
      if !KnownAfter(recent, i + 1) {
        MetaScanReadsFrom(recent, i + 1);
      }
    }
  }

  /** The first loop, early stop included, is the plain fold over the lines it reads. */
  lemma MetaScanReads(recent: seq<Option<JsonlMessage>>)
    ensures MetaScan(NoScan, recent) == FoldScan(NoScan, recent[..ScanLength(recent)])
  {
    assert recent[..0] == [] && recent[0..] == recent;
    assert !KnownAfter(recent, 0);
    MetaScanReadsFrom(recent, 0);
  }

  /** The scan's timestamp is the newest one among the lines it reads. */
  lemma MetaScanTimestamp(recent: seq<Option<JsonlMessage>>)
    ensures MetaScan(NoScan, recent).timestamp == FirstTimestamp(recent[..ScanLength(recent)])
  {
    MetaScanReads(recent);
    FoldScanFields(NoScan, recent[..ScanLength(recent)]);
  }

  /** The scan's branch is the newest one among the lines it reads. */
  lemma MetaScanBranch(recent: seq<Option<JsonlMessage>>)
    ensures MetaScan(NoScan, recent).gitBranch == FirstBranch(recent[..ScanLength(recent)])
  {
    MetaScanReads(recent);
    FoldScanFields(NoScan, recent[..ScanLength(recent)]);
  }

  // ---------------------------------------------------------------- the preview scan

  /** `find_map` over the blocks: the first non-empty `text`. */
  function FirstNonEmptyText(blocks: seq<Block>): (r: Option<string>)
    ensures r.Some? ==> r.value != "" && exists i :: 0 <= i < |blocks| && blocks[i].text == r
    ensures r.None? ==> forall i :: 0 <= i < |blocks| ==> blocks[i].text.None? || blocks[i].text == Some("")
    decreases |blocks|
  {
    if blocks == [] then None
    else if blocks[0].text.Some? && blocks[0].text.value != "" then blocks[0].text
    else FirstNonEmptyText(blocks[1..])
  }

  /** The preview text a content value offers: a non-empty string, or the first non-empty
      text of an array. */
  function PreviewText(c: Content): (r: Option<string>)
    ensures r.Some? ==> r.value != ""
  {
    match c
    case Str(s) => if s != "" then Some(s) else None
    case Arr(blocks) => FirstNonEmptyText(blocks)
    case Other => None
  }

  function LinePreview(line: Option<JsonlMessage>): Option<string> {
    if line.Some? && ContentOf(line.value).Some? then PreviewText(ContentOf(line.value).value) else None
  }

  /** The second loop: the preview of the newest record that offers one. */
  function PreviewScan(recent: seq<Option<JsonlMessage>>): (r: Option<string>)
    ensures r.Some? ==> exists k :: 0 <= k < |recent| && LinePreview(recent[k]) == r
                          && forall j :: 0 <= j < k ==> LinePreview(recent[j]).None?
    ensures r.None? ==> forall k :: 0 <= k < |recent| ==> LinePreview(recent[k]).None?
    decreases |recent|
  {
    if recent == [] then None
    else if LinePreview(recent[0]).Some? then LinePreview(recent[0])
    else
      var r := PreviewScan(recent[1..]);
      assert forall k :: 0 <= k < |recent| - 1 ==> recent[1..][k] == recent[k + 1];
      r
  }

  // ---------------------------------------------------------------- derived fields

  /** `name` is the last non-empty part, or `"Unknown"` when every part is empty. */
  predicate IsLastPart(parts: seq<string>, name: string) {
    (name == "Unknown" && forall k :: 0 <= k < |parts| ==> parts[k] == "")
    || (exists k :: 0 <= k < |parts| && parts[k] == name && forall j :: k < j < |parts| ==> parts[j] == "")
  }

  /** `split('/').filter(|s| !s.is_empty()).last().unwrap_or("Unknown")`. */
  function ProjectName(projectPath: string): (name: string)
    ensures name != "" && '/' !in name
    ensures IsLastPart(Split(projectPath, '/'), name)
  {
    var parts := Split(projectPath, '/');
    LastNonEmpty(parts)
  }

  function LastNonEmpty(parts: seq<string>): (name: string)
    requires forall k :: 0 <= k < |parts| ==> '/' !in parts[k]
    ensures name != "" && '/' !in name
    ensures IsLastPart(parts, name)
    decreases |parts|
  {
    if parts == [] then "Unknown"
    else if parts[|parts| - 1] != "" then
      assert IsLastPart(parts, parts[|parts| - 1]) by {
        var k := |parts| - 1;
        assert 0 <= k < |parts| && parts[k] == parts[|parts| - 1];
      }
      parts[|parts| - 1]
    else
      var front := parts[..|parts| - 1];
      assert forall k :: 0 <= k < |front| ==> front[k] == parts[k];
      var name := LastNonEmpty(front);
      LastPartOfEmptyTail(parts, name);
      name
  }

  /** A trailing empty part does not change the last non-empty part. */
  lemma LastPartOfEmptyTail(parts: seq<string>, name: string)
    requires parts != [] && parts[|parts| - 1] == ""
    requires IsLastPart(parts[..|parts| - 1], name)
    ensures IsLastPart(parts, name)
  {
    var front := parts[..|parts| - 1];
    if name == "Unknown" && forall k :: 0 <= k < |front| ==> front[k] == "" {
      assert forall k :: 0 <= k < |parts| ==> parts[k] == "" by {
        forall k | 0 <= k < |parts| ensures parts[k] == "" {
          if k < |front| {
            assert parts[k] == front[k];
          }
        }
      }
    } else {
      var k :| 0 <= k < |front| && front[k] == name && forall j :: k < j < |front| ==> front[j] == "";
      assert parts[k] == name;
      assert forall j :: k < j < |parts| ==> parts[j] == "" by {
        forall j | k < j < |parts| ensures parts[j] == "" {
          if j < |front| {
            assert parts[j] == front[j];
          }
        }
      }
    }
  }

  /** The preview cut on character boundaries: over 100 characters, the first 100 and `...`. */
  function TruncatePreview(m: string): (r: string)
    ensures |r| <= 103
    ensures |m| <= 100 ==> r == m
    ensures |m| > 100 ==> r == m[..100] + "..."
  {
    if |m| > 100 then m[..100] + "..." else m
  }

  // ---------------------------------------------------------------- the session

  /** The session a log yields for a process, as a function of the snapshot. `None` when the
      file cannot be opened or no read record carries a session id. */
  function SessionOf(file: LogFile, projectPath: string, process: Process.ClaudeProcess, now: int): Option<Session> {
    if !file.opens then None
    else
      var recent := RecentLines(file.lines);
      var scan := MetaScan(NoScan, recent);
      var preview := PreviewScan(recent);
      if scan.sessionId.None? then None
      else
        Some(BuildSession(scan, if preview.Some? then Some(TruncatePreview(preview.value)) else None,
                          projectPath, process, ModifiedWithin(file.modified, now, FreshWindowMs)))
  }

  /** The `Session` assembled from the scan, the (already truncated) preview, the project path,
      the process and the freshness of the log. */
  function BuildSession(scan: Scan, lastMessage: Option<string>, projectPath: string,
                        process: Process.ClaudeProcess, recentlyModified: bool): Session
    requires scan.sessionId.Some?
  {
    var info := scan.status.GetOr(StatusInfo(None, None, false, false, false));
    Session(
      scan.sessionId.value,
      ProjectName(projectPath),
      projectPath,
      scan.gitBranch,
      DetermineStatus(info.msgType, info.toolUse, info.toolResult, info.localCommand, recentlyModified),
      lastMessage,
      info.role,
      scan.timestamp.GetOr("Unknown"),
      process.pid,
      process.cpuHigh)
  }

  /** The two loops of `parse_session_file` over the newest lines: the metadata/status scan
      with its early stop, then the preview scan. */
  method ScanRecentLines(recentLines: seq<Option<JsonlMessage>>) returns (scan: Scan, lastMessage: Option<string>)
    ensures scan == MetaScan(NoScan, recentLines)
    ensures lastMessage == PreviewScan(recentLines)
  {
    var sessionId: Option<string> := None;
    var gitBranch: Option<string> := None;
    var lastTimestamp: Option<string> := None;
    var statusInfo: Option<StatusInfo> := None;
    var i := 0;
    while i < |recentLines|
      invariant 0 <= i <= |recentLines|
      invariant MetaScan(Scan(sessionId, gitBranch, lastTimestamp, statusInfo), recentLines[i..])
             == MetaScan(NoScan, recentLines)
    {
      assert recentLines[i..][1..] == recentLines[i + 1..];
      if recentLines[i].Some? {
        var msg := recentLines[i].value;
        if sessionId.None? {
          sessionId := msg.sessionId;
        }
        if gitBranch.None? {
          gitBranch := msg.gitBranch;
        }
        if lastTimestamp.None? {
          lastTimestamp := msg.timestamp;
        }
        if statusInfo.None? {
          var content := ContentOf(msg);
          if content.Some? && HasContent(content.value) {
            statusInfo := Some(StatusInfoOf(msg));
          }
        }
        if sessionId.Some? && statusInfo.Some? {
          break;
        }
      }
      i := i + 1;
    }
    scan := Scan(sessionId, gitBranch, lastTimestamp, statusInfo);

    lastMessage := None;
    var j := 0;
    while j < |recentLines|
      invariant 0 <= j <= |recentLines|
      invariant PreviewScan(recentLines[j..]) == PreviewScan(recentLines)
    {
      assert recentLines[j..][1..] == recentLines[j + 1..];
      var text := LinePreview(recentLines[j]);
      if text.Some? {
        lastMessage := text;
        break;
      }
      j := j + 1;
    }
  }

  /** `parse_session_file`. */
  method ParseSessionFile(file: LogFile, projectPath: string, process: Process.ClaudeProcess, now: int)
    returns (session: Option<Session>)
    ensures session == SessionOf(file, projectPath, process, now)
  {
    var fileRecentlyModified := ModifiedWithin(file.modified, now, FreshWindowMs);
    if !file.opens {
      return None;
    }
    var scan, lastMessage := ScanRecentLines(RecentLines(file.lines));
    if scan.sessionId.None? {
      return None;
    }
    var preview := if lastMessage.Some? then Some(TruncatePreview(lastMessage.value)) else None;
    session := Some(BuildSession(scan, preview, projectPath, process, fileRecentlyModified));
  }

  // ---------------------------------------------------------------- properties of the parse

  /** No session iff the log does not open or none of its newest 100 parsed records has a
      session id. */
  lemma ParseNoneIff(file: LogFile, projectPath: string, process: Process.ClaudeProcess, now: int)
    ensures SessionOf(file, projectPath, process, now).None?
        <==> !file.opens || FirstSessionId(RecentLines(file.lines)).None?
  {
    MetaScanSessionId(NoScan, RecentLines(file.lines));
  }

  /** The session's id is that of the newest record carrying one; its status is decided from
      the newest record with non-empty content (absent such a record, from no message type), the
      log's freshness and nothing else; its timestamp (`Unknown` when none) and branch are the
      newest among the lines the first loop reads; pid and CPU come from the process. */
  lemma ParseFields(file: LogFile, projectPath: string, process: Process.ClaudeProcess, now: int)
    requires SessionOf(file, projectPath, process, now).Some?
    ensures var s := SessionOf(file, projectPath, process, now).value;
            var recent := RecentLines(file.lines);
            var info := FirstStatus(recent).GetOr(StatusInfo(None, None, false, false, false));
            Some(s.id) == FirstSessionId(recent)
            && s.status == DetermineStatus(info.msgType, info.toolUse, info.toolResult, info.localCommand,
                                           ModifiedWithin(file.modified, now, FreshWindowMs))
            && s.lastMessageRole == info.role
            && s.lastActivityAt == FirstTimestamp(recent[..ScanLength(recent)]).GetOr("Unknown")
            && s.gitBranch == FirstBranch(recent[..ScanLength(recent)])
            && s.pid == process.pid && s.cpuHigh == process.cpuHigh
            && s.projectPath == projectPath
  {
    MetaScanSessionId(NoScan, RecentLines(file.lines));
    MetaScanStatus(NoScan, RecentLines(file.lines));
    MetaScanTimestamp(RecentLines(file.lines));
    MetaScanBranch(RecentLines(file.lines));
  }

  /** The preview is the newest offered text: kept whole up to 100 characters, otherwise its
      first 100 characters and `...`. */
  lemma ParsePreview(file: LogFile, projectPath: string, process: Process.ClaudeProcess, now: int)
    requires SessionOf(file, projectPath, process, now).Some?
    ensures var s := SessionOf(file, projectPath, process, now).value;
            var p := PreviewScan(RecentLines(file.lines));
            (s.lastMessage.None? <==> p.None?)
            && (p.Some? && |p.value| <= 100 ==> s.lastMessage == p)
            && (p.Some? && |p.value| > 100 ==> s.lastMessage == Some(p.value[..100] + "..."))
            && (s.lastMessage.Some? ==> |s.lastMessage.value| <= 103)
  {
  }

  /** Lines older than the newest 100 never matter. */
  lemma OnlyRecentLinesMatter(file: LogFile, older: seq<Option<JsonlMessage>>, projectPath: string,
                              process: Process.ClaudeProcess, now: int)
    requires |file.lines| >= RecentLineCount
    ensures SessionOf(file.(lines := older + file.lines), projectPath, process, now)
         == SessionOf(file, projectPath, process, now)
  {
    var longer := older + file.lines;
    var a, b := RecentLines(longer), RecentLines(file.lines);
    assert |a| == |b|;
    forall k | 0 <= k < |a|
      ensures a[k] == b[k]
    {
    }
    assert a == b;
  }

  /** The scan stops at the first record that completes the id and the status, so a branch named
      only by an older record is not reported. */
  lemma BranchOnlyFromScannedRecords()
    ensures var newest := JsonlMessage(Some("s"), None, None, Some("user"),
                                       Some(MessageContent(Some("user"), Some(Arr([Block(Some("text"), None)])))));
            var older := JsonlMessage(Some("s"), Some("main"), None, None, None);
            MetaScan(NoScan, [Some(newest), Some(older)]).gitBranch == None
  {
  }

  // ---------------------------------------------------------------- the older parser

  /** Bytes of a character in UTF-8. */
  function Utf8Width(c: char): (w: nat)
    ensures 1 <= w <= 4
  {
    if c as int < 0x80 then 1 else if c as int < 0x800 then 2 else if c as int < 0x10000 then 3 else 4
  }

  /** `s.len()`: the UTF-8 length in bytes. */
  function ByteLen(s: string): (n: nat)
    ensures n >= |s|
    decreases |s|
  {
    if s == [] then 0 else Utf8Width(s[0]) + ByteLen(s[1..])
  }

  /** The longest run of leading characters that fits in `n` bytes. */
  function BytePrefix(s: string, n: nat): (p: string)
    ensures p <= s && ByteLen(p) <= n
    decreases |s|
  {
    if s == [] || Utf8Width(s[0]) > n then []
    else [s[0]] + BytePrefix(s[1..], n - Utf8Width(s[0]))
  }

  /** The older preview cut: `&m[..100]` when `m.len() > 100`, which panics unless byte 100 ends a
      character. The panic is `Failure`. */
  function TruncatePreviewBytes(m: string): Result<string> {
    if ByteLen(m) <= 100 then Success(m)
    else
      var p := BytePrefix(m, 100);
      if ByteLen(p) == 100 then Success(p + "...") else Failure("byte index 100 is not a char boundary")
  }

  /** The older `parse_session_file`: the same scans, the byte-wise cut, and a panic when the cut
      splits a character. */
  function SessionOfLegacy(file: LogFile, projectPath: string, process: Process.ClaudeProcess, now: int): Result<Option<Session>> {
    if !file.opens then Success(None)
    else
      var recent := RecentLines(file.lines);
      var scan := MetaScan(NoScan, recent);
      var preview := PreviewScan(recent);
      if scan.sessionId.None? then Success(None)
      else if preview.Some? && TruncatePreviewBytes(preview.value).Failure? then
        Failure(TruncatePreviewBytes(preview.value).error)
      else
        var lastMessage := if preview.Some? then Some(TruncatePreviewBytes(preview.value).value) else None;
        Success(Some(BuildSession(scan, lastMessage, projectPath, process,
                                  ModifiedWithin(file.modified, now, FreshWindowMs))))
  }

  method ParseSessionFileLegacy(file: LogFile, projectPath: string, process: Process.ClaudeProcess, now: int)
    returns (session: Result<Option<Session>>)
    ensures session == SessionOfLegacy(file, projectPath, process, now)
  {
    var fileRecentlyModified := ModifiedWithin(file.modified, now, FreshWindowMs);
    if !file.opens {
      return Success(None);
    }
    var scan, lastMessage := ScanRecentLines(RecentLines(file.lines));
    if scan.sessionId.None? {
      return Success(None);
    }
    var preview: Option<string> := None;
    if lastMessage.Some? {
      var cut := TruncatePreviewBytes(lastMessage.value);
      if cut.Failure? {
        return Failure(cut.error);
      }
      preview := Some(cut.value);
    }
    session := Success(Some(BuildSession(scan, preview, projectPath, process, fileRecentlyModified)));
  }

  predicate IsAscii(s: string) {
    forall i :: 0 <= i < |s| ==> s[i] as int < 0x80
  }

  lemma {:induction false} AsciiByteLen(s: string)
    requires IsAscii(s)
    ensures ByteLen(s) == |s|
    decreases |s|
  {
    if s != [] {
      AsciiByteLen(s[1..]);
    }
  }

  lemma {:induction false} AsciiBytePrefix(s: string, n: nat)
    requires IsAscii(s)
    ensures BytePrefix(s, n) == if |s| <= n then s else s[..n]
    decreases |s|
  {
    if s != [] && n > 0 {
      AsciiBytePrefix(s[1..], n - 1);
      if |s| > n {
        assert [s[0]] + s[1..][..n - 1] == s[..n];
      }
    }
  }

  /** On ASCII text the two cuts agree. */
  lemma TruncationsAgreeOnAscii(m: string)
    requires IsAscii(m)
    ensures TruncatePreviewBytes(m) == Success(TruncatePreview(m))
  {
    AsciiByteLen(m);
    if |m| > 100 {
      AsciiBytePrefix(m, 100);
      AsciiByteLen(m[..100]);
    }
  }

  /** An ASCII run followed by anything: the byte prefix keeps the run whole. */
  lemma {:induction false} BytePrefixAsciiRun(a: string, rest: string, n: nat)
    requires IsAscii(a) && |a| <= n
    ensures BytePrefix(a + rest, n) == a + BytePrefix(rest, n - |a|)
    decreases |a|
  {
    if a == [] {
      assert a + rest == rest;
    } else {
      var t := a + rest;
      var tail := a[1..];
      assert t[0] == a[0];
      assert Utf8Width(a[0]) == 1;
      assert t[1..] == tail + rest;
      assert IsAscii(tail);
      var m := n - 1;
      assert m - |tail| == n - |a|;
      BytePrefixAsciiRun(tail, rest, m);
      var q := BytePrefix(rest, n - |a|);
      assert BytePrefix(t, n) == [a[0]] + BytePrefix(t[1..], m);
      assert [a[0]] + (tail + q) == a + q;
    }
  }

  lemma {:induction false} ByteLenAppend(a: string, b: string)
    ensures ByteLen(a + b) == ByteLen(a) + ByteLen(b)
    decreases |a|
  {
    if a == [] {
      assert a + b == b;
    } else {
      assert (a + b)[1..] == a[1..] + b;
      ByteLenAppend(a[1..], b);
    }
  }

  /** No longer prefix of `s` fits in `n` bytes: `BytePrefix` is the longest one that does. */
  lemma {:induction false} BytePrefixLongest(s: string, n: nat, k: nat)
    requires k <= |s| && ByteLen(s[..k]) <= n
    ensures k <= |BytePrefix(s, n)|
    decreases |s|
  {
    if k > 0 {
      var w := Utf8Width(s[0]);
      assert s[..k][0] == s[0];
      assert s[..k][1..] == s[1..][..k - 1];
      assert ByteLen(s[..k]) == w + ByteLen(s[1..][..k - 1]);
      BytePrefixLongest(s[1..], n - w, k - 1);
    }
  }

  /** A longer prefix is never shorter in bytes. */
  lemma ByteLenPrefixMonotone(s: string, i: nat, j: nat)
    requires i <= j <= |s|
    ensures ByteLen(s[..i]) <= ByteLen(s[..j])
  {
    assert s[..j] == s[..i] + s[i..j];
    ByteLenAppend(s[..i], s[i..j]);
  }

  /** The older cut panics exactly when the text is over 100 bytes and no prefix of it is exactly
      100 bytes long, that is when byte 100 falls inside a character. */
  lemma TruncatePreviewBytesFails(m: string)
    ensures TruncatePreviewBytes(m).Failure?
        <==> ByteLen(m) > 100 && !(exists k :: 0 <= k <= |m| && ByteLen(m[..k]) == 100)
  {
    var p := BytePrefix(m, 100);
    assert p == m[..|p|];
    if exists k :: 0 <= k <= |m| && ByteLen(m[..k]) == 100 {
      var k :| 0 <= k <= |m| && ByteLen(m[..k]) == 100;
      BytePrefixLongest(m, 100, k);
      ByteLenPrefixMonotone(m, k, |p|);
      assert ByteLen(p) == 100;
    }
  }

  /** The older cut panics on a preview of 99 ASCII characters, a two-byte `é` and one more
      character: byte 100 is the middle of the `é`. */
  lemma LegacyCutPanics()
    ensures var m := seq(99, _ => 'a') + ['\U{E9}', 'b'];
            TruncatePreviewBytes(m).Failure? && TruncatePreview(m) == m[..100] + "..."
  {
    var a := seq(99, _ => 'a');
    var m := a + ['\U{E9}', 'b'];
    assert IsAscii(a);
    AsciiByteLen(a);
    ByteLenAppend(a, ['\U{E9}', 'b']);
    assert ByteLen(['\U{E9}', 'b']) == 3 by {
      assert ['\U{E9}', 'b'][1..] == ['b'];
      assert ['b'][1..] == [];
    }
    BytePrefixAsciiRun(a, ['\U{E9}', 'b'], 100);
    assert BytePrefix(['\U{E9}', 'b'], 1) == [];
    assert BytePrefix(m, 100) == a;
  }

  /** A preview the older cut lets through is at most 103 bytes. */
  lemma TruncatePreviewBytesBound(m: string)
    requires TruncatePreviewBytes(m).Success?
    ensures ByteLen(TruncatePreviewBytes(m).value) <= 103
  {
    if ByteLen(m) > 100 {
      var p := BytePrefix(m, 100);
      ByteLenAppend(p, "...");
      assert ByteLen("...") == 3 by {
        assert "..."[1..] == "..";
        assert ".."[1..] == ".";
        assert "."[1..] == "";
      }
    }
  }
}
