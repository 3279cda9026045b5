# agent-sessions: a verified model of the session engine

agent-sessions is a menu-bar app. It finds the running Claude Code CLI processes and matches each one with its conversation log under `~/.claude/projects`. From the newest log records it infers whether the session is thinking, processing a tool, waiting for the user or idle. On request it brings the terminal that runs a session to the front.

This project models that engine in Dafny and proves properties of the model.

- `wrappers.dfy`, `strs.dfy`: `Option`, `Outcome` (Rust's `Result<(), String>`) and `Result`. String helpers for the Rust standard-library calls the engine uses: `split`, `join`, `trim`, `lines`, `split_whitespace`, `contains`, `ends_with`, ASCII lower-casing, decimal formatting and lexicographic `cmp`.
- `model.dfy`: the records of `session/model.rs`. A JSON `content` value is `Str | Arr(blocks) | Other`. A block keeps only its string `type` and `text` fields.
- `status.rs` → `status.dfy`: the content predicates, the sort priority and `determine_status`.
- `path_codec.dfy`: `convert_dir_name_to_path`, as a specification function and as the loop that computes it.
- `process.dfy`: the process filters.
  - The two-pass filter of `process/claude.rs`.
  - The single-pass filter of `process.rs`.
  - The OS process table is an input sequence.
- `sorting.dfy`: the `sort_by` calls, as an insertion sort on sequences.
- `session_parser.dfy`: `parse_session_file`.
  - A log file is an input: its path, its extension, its modification time (integer milliseconds, or none when unreadable), whether it opens, and its lines. A line is a parsed record, or `None` when it is not valid JSON.
  - Both generations are modelled: the character-wise preview cut of `session/parser.rs` and the byte-wise cut of `session.rs`.
- `aggregator.dfy`: the log listing, `find_session_for_process` and `get_sessions`, in both generations.
  - `get_sessions` is a function of a `Snapshot`: the process table, whether the projects directory exists, its entries, and one clock reading `now`.
  - The loops are methods proved equal to that function.
- `terminal.dfy`: the focus chain of `terminal/` and the older `terminal.rs`.
  - Every external command (`ps`, `tmux`, `osascript`) is looked up in an oracle `env` from a `Command` to its outcome. An outcome is either a spawn error, or an exit status with stdout and stderr.
- `commands.dfy`: the Tauri commands of `commands/handlers.rs`, which `lib.rs` duplicates.
  - The tray title.
  - The focus fallback.
  - A `ShortcutSlot` class that holds the `CURRENT_SHORTCUT` slot.
  - The show/hide toggle.
- `session_card.dfy`: `formatTimeAgo`, `truncatePath` and the `statusConfig` label lookup of `SessionCard.tsx`.

Three points about the code the model follows:

- **Status decision.** `status.rs:94-144` defines a five-input `determine_status`. In it, an assistant text message is Waiting even when the log is fresh. `parser.rs:422-429` calls a six-input form that adds an interruption flag, and `session_tests.rs:227-360` tests that form. Neither the six-input form nor `is_interrupted_request` (imported at `parser.rs:9`) is defined in any of these files. The model uses the five-input body of `status.rs`. `Status.DetermineStatusAsTested` is a separate function read off the test expectations, used only to state them. `Status.TestedFormDiffersFromFiveInput` pins down where the two forms differ.
- **Directory lookup.** `get_sessions` matches a project directory to processes only by looking up its decoded name in the working-directory map (`parser.rs:148-157`). It lists every `.jsonl` file of that directory. A directory whose name does not decode to a process's exact working directory yields no session. Two directories whose names decode to the same path are both paired with that path's processes (see Findings).
- **Preview cut.** `parser.rs:445-451` cuts the preview on characters. The older `session.rs:473-479` cuts it on bytes (see Findings).

## Model

| member | source | states |
|---|---|---|
| Model.StatusName | src-tauri/src/session/model.rs:20-27 | every status serialises to a non-empty lower-case name |
| Model.ParseStatusName | src-tauri/src/session/model.rs:20-27 | a name that deserialises serialises back to itself; any other string is rejected |
| Model.StatusNameRoundTrip | src-tauri/src/session/model.rs:20-27 | serialising then deserialising a status gives the same status |
| Status.AnyBlockOfType | src-tauri/src/session/status.rs:6-11 | true iff some block of the array has the given `type` |
| Status.HasToolUse | src-tauri/src/session/status.rs:4-15 | true iff the content is an array with a `tool_use` block; strings and other values give false |
| Status.HasToolResult | src-tauri/src/session/status.rs:18-29 | true iff the content is an array with a `tool_result` block |
| Status.ToolUseAndResultCanCoexist | src-tauri/src/session/status.rs:4-29 | one array can make both predicates true: they are independent |
| Status.FirstText | src-tauri/src/session/status.rs:36-41 | the text of the first block that has one (even if empty), and no earlier block has text; `None` iff no block has text |
| Status.CommandText | src-tauri/src/session/status.rs:34-43 | the text the command test inspects: a string as is, an array's first `text` (empty when none), nothing for other content, which is never a command; `ArrayCommandIsFirstText` and the two example lemmas pin it |
| Status.MatchesCommand | src-tauri/src/session/status.rs:70 | equal to the command, or the command followed by a space and anything; `MatchesAnyCommand` lifts it to the list of 17 commands |
| Status.MatchesAnyCommand | src-tauri/src/session/status.rs:69-71 | true iff the text equals some command or starts with that command and a space |
| Status.IsLocalSlashCommand | src-tauri/src/session/status.rs:33-72 | true iff the content is a string or array whose extracted text, trimmed, matches one of the 17 commands |
| Status.LocalCommandStartsWithSlash | src-tauri/src/session/status.rs:45-71 | a recognised command's trimmed text is non-empty and starts with `/`, so an array without text never qualifies |
| Status.ArrayCommandIsFirstText | src-tauri/src/session/status.rs:36-41 | for array content only the first block carrying text is checked |
| Status.LocalCommandExamples | src-tauri/src/session/status.rs:33-72 | `/model sonnet`, `  /clear  ` and an array holding `/clear` are local commands |
| Status.NonLocalCommandExamples | src-tauri/src/session/status.rs:33-72 | `/custom-command`, `/fix the bug`, the empty string and non-text values are not |
| Status.StatusSortPriority | src-tauri/src/session/status.rs:76-83 | priority ≤ 2; it is 0 exactly for thinking and processing, and 2 exactly for idle |
| Status.DetermineStatus | src-tauri/src/session/status.rs:94-144 | each of the four statuses is produced exactly by its characterising combination of inputs |
| Status.AssistantIgnoresOtherSignals | src-tauri/src/session/status.rs:105-114 | after an assistant message, only `tool_use` matters |
| Status.AllStatusesReachable | src-tauri/src/session/status.rs:94-144 | every status is the result for some input |
| Status.DetermineStatusAsTested | src-tauri/src/tests/session_tests.rs:227-360 | test evidence only: a local command or an interruption after a user message gives Waiting; an assistant message is Waiting iff it has no `tool_use` and the log is not fresh |
| Status.TestedStatusPoints | src-tauri/src/tests/session_tests.rs:227-360 | the eleven expectations of the status tests hold for the tested form |
| Status.TestedFormDiffersFromFiveInput | src-tauri/src/session/status.rs:105-114 | without an interruption, the tested six-input form and the five-input `determine_status` differ exactly on a fresh assistant message without `tool_use` |
| PathCodec.FindMarker | src-tauri/src/session/parser.rs:31 | the index of the first `Projects`/`UnityProjects` part, or `None` when there is none |
| PathCodec.StripLeadingDash | src-tauri/src/session/parser.rs:21 | at most one leading dash is removed |
| PathCodec.Step | src-tauri/src/session/parser.rs:51-77 | one iteration closes at most the current segment, never emits an empty segment, and leaves a non-empty current segment after a non-empty part |
| PathCodec.ProjectSegments | src-tauri/src/session/parser.rs:42-83 | the folders decoded from the parts after the marker are all non-empty |
| PathCodec.DirNameToPath | src-tauri/src/session/parser.rs:19-90 | the decoded path always starts with `/` |
| PathCodec.ConvertDirNameToPath | src-tauri/src/session/parser.rs:19-90 | the loop with `in_hidden_folder`, `current_segment` and `segments` computes `DirNameToPath` |
| PathCodec.SplitJoinIsReplace | src-tauri/src/session/parser.rs:86-89 | splitting on one character and joining with another is replacing every occurrence |
| PathCodec.DecodeWithoutMarker | src-tauri/src/session/parser.rs:86-89 | without a marker every dash becomes `/` |
| PathCodec.DecodeWithMarker | src-tauri/src/session/parser.rs:31-42 | the path starts with `/` and the parts up to the first marker joined by `/`; it is exactly that iff the marker is the last part |
| PathCodec.FoldPlain | src-tauri/src/session/parser.rs:68-76 | outside a hidden folder, parts are glued back together with `-` |
| PathCodec.PlainProjectName | src-tauri/src/session/parser.rs:51-82 | a project part without a double dash decodes to one folder named by its parts joined with `-` |
| PathCodec.FoldHidden | src-tauri/src/session/parser.rs:59-67 | inside a hidden folder, each further part starts a new folder |
| PathCodec.HiddenFolder | src-tauri/src/session/parser.rs:51-82 | `name--a-b-c` decodes to the folders `name`, `.a`, `b`, `c` |
| PathCodec.HiddenFolders | src-tauri/src/session/parser.rs:51-82 | a name followed by any number of double-dash groups decodes to the name's folder and, per group, its first part with a dot followed by its other parts as folders |
| PathCodec.TwoHiddenFoldersExample | src-tauri/src/tests/session_tests.rs:73-76 | the project parts of `myproject--hidden--subfolder` decode to `myproject`, `.hidden`, `.subfolder` |
| PathCodec.DecodeProjectParts | src-tauri/src/session/parser.rs:47-81 | the loop over the project parts, with the final push of the pending folder, computes `ProjectSegments` |
| PathCodec.TrailingDashIgnored | src-tauri/src/session/parser.rs:51-81 | a dash at the end of a name with parts after its marker leaves the decoded path unchanged: the empty last part closes the pending folder as the final push would |
| PathCodec.MarkerThenName | src-tauri/src/session/parser.rs:19-90 | a marker, a dash and a dash-free name decode to `/<marker>/<name>`, with or without a trailing dash, so `Projects-a` and `Projects-a-` both give `/Projects/a` |
| Process.Record | src-tauri/src/process/claude.rs:138-143 | pid, cwd, CPU flag and memory are copied unchanged |
| Process.Lookup | src-tauri/src/process/claude.rs:112 | the table entry with the pid, or `None` iff there is none |
| Process.IsClaudeCmd | src-tauri/src/process/claude.rs:60-65 | the first argument, lower-cased, is `claude` or ends with `/claude`, and an empty argument vector does not qualify; `QualifyExamples` pins the cases |
| Process.IsOurApp | src-tauri/src/process/claude.rs:85-87 | the monitor's own process is recognised by `claude-sessions`, `tauri-temp` or `agent-sessions` in its name; `DiscoveredQualify` proves no such process is returned |
| Process.HasAcpParent | src-tauri/src/process/claude.rs:110-126 | the parent exists and its arguments joined by spaces contain `claude-code-acp`; `DiscoveredIff` proves such a process is never returned |
| Process.ClaudePids | src-tauri/src/process/claude.rs:57-69 | exactly the pids of qualifying entries, the monitor's own included |
| Process.Filter | src-tauri/src/process/claude.rs:71-145 | the output holds exactly the records of the kept entries |
| Process.FindClaudeProcesses | src-tauri/src/process/claude.rs:21-149 | the two loops compute `Discovered`: qualify, then drop the monitor, sub-agents and bridge-spawned agents |
| Process.FindClaudeProcessesLegacy | src-tauri/src/process.rs:13-56 | the single loop computes `LegacyDiscovered` |
| Process.Discovered | src-tauri/src/process/claude.rs:21-149 | what the current discovery returns; `FindClaudeProcesses` computes it, `DiscoveredIff` gives membership in both directions and `DiscoveredDistinct` rules out repeated pids |
| Process.LegacyDiscovered | src-tauri/src/process.rs:13-56 | what the older discovery returns; `FindClaudeProcessesLegacy` computes it and `CurrentWithinLegacy` proves it contains the current result |
| Process.QualifyExamples | src-tauri/src/process/claude.rs:60-65 | an empty argument vector never qualifies; case is ignored; only the first argument counts |
| Process.DiscoveredIff | src-tauri/src/process/claude.rs:74-145 | with unique pids, an entry is returned iff it qualifies, is not the monitor, is not a sub-agent and has no bridge parent |
| Process.DiscoveredQualify | src-tauri/src/process/claude.rs:90-96 | every returned process qualifies and is not the monitor |
| Process.SubAgentDropped | src-tauri/src/process/claude.rs:99-108 | a qualifying child of a qualifying process is not returned |
| Process.OrphanKept | src-tauri/src/process/claude.rs:99-143 | a qualifying process without a parent that is not the monitor is returned |
| Process.FilterDistinct | src-tauri/src/process/claude.rs:138-143 | filtering a table with unique pids yields unique pids |
| Process.DiscoveredDistinct | src-tauri/src/process/claude.rs:74-145 | no pid is returned twice |
| Process.CurrentWithinLegacy | src-tauri/src/process.rs:40-43 | the current filter returns only processes the older filter returned |
| Process.LegacyKeepsSubAgent | src-tauri/src/process.rs:28-53 | the older filter returns a claude child of a claude process; the current one drops it |
| Sorting.SortBy | src-tauri/src/session/parser.rs:183-192 | the result is a permutation of the input, sorted whenever the comparator is a strict order |
| SessionParser.RecentLines | src-tauri/src/session/parser.rs:342-343 | at most the newest 100 lines, newest first |
| SessionParser.ModifiedWithin | src-tauri/src/session/parser.rs:310-316 | a log is fresh only when its modification time is known, not in the future, and less than the window old; `ParseFields` uses it for the 3-second freshness and `ReconcileAtLeastAsActive` for the 10-second window |
| SessionParser.StatusInfoOf | src-tauri/src/session/parser.rs:369-376 | the status signals of a content record: message type, role, `tool_use`, `tool_result` and local command; `MetaScanStatus` proves the scan reports those of the newest content record |
| SessionParser.MetaScan | src-tauri/src/session/parser.rs:347-391 | the first loop with its early `break`; `MetaScanReads` proves it equals the plain fold over exactly `ScanLength` lines, and `MetaScanSessionId`, `MetaScanStatus`, `MetaScanTimestamp` and `MetaScanBranch` give each field |
| SessionParser.ScanStep | src-tauri/src/session/parser.rs:349-385 | once set, the session id and the status signals never change |
| SessionParser.FirstSessionId | src-tauri/src/session/parser.rs:349-351 | reference: the id of the newest record that has one; `None` iff no scanned record has an id |
| SessionParser.FirstStatus | src-tauri/src/session/parser.rs:360-385 | reference: the signals of the newest record with non-empty content; `None` iff there is none |
| SessionParser.MetaScanSessionId | src-tauri/src/session/parser.rs:347-391 | despite the early `break`, the first scan finds the newest session id |
| SessionParser.MetaScanStatus | src-tauri/src/session/parser.rs:360-389 | the first scan finds the signals of the newest record with content |
| SessionParser.MetaScanBranchFromRecord | src-tauri/src/session/parser.rs:352-354 | a reported branch comes from a scanned record |
| SessionParser.FirstBranch | src-tauri/src/session/parser.rs:352-354 | reference: the branch of the newest record that has one; `None` iff no record has one |
| SessionParser.FirstTimestamp | src-tauri/src/session/parser.rs:355-357 | reference: the timestamp of the newest record that has one; `None` iff no record has one |
| SessionParser.ScanLength | src-tauri/src/session/parser.rs:387-389 | reference: the least number of newest lines after which the loop is done, or all of them |
| SessionParser.KnownAfterIff | src-tauri/src/session/parser.rs:387-389 | the loop is done after `n` lines iff a session id and a record with content occur among them |
| SessionParser.MetaScanReads | src-tauri/src/session/parser.rs:347-391 | the loop with its early `break` equals the plain fold over exactly the lines up to `ScanLength` |
| SessionParser.MetaScanTimestamp | src-tauri/src/session/parser.rs:355-357 | the scan's timestamp is the newest one among the lines it reads |
| SessionParser.MetaScanBranch | src-tauri/src/session/parser.rs:352-354 | the scan's branch is the newest one among the lines it reads |
| SessionParser.FirstNonEmptyText | src-tauri/src/session/parser.rs:400-406 | the first non-empty block text; `None` iff every block's text is missing or empty |
| SessionParser.PreviewText | src-tauri/src/session/parser.rs:398-408 | a preview is never empty |
| SessionParser.LinePreview | src-tauri/src/session/parser.rs:395-408 | the preview one line offers: none for an unparsable line or one without content, else `PreviewText` of its content; `PreviewScan` takes the first line that offers one |
| SessionParser.PreviewScan | src-tauri/src/session/parser.rs:394-417 | the preview of the newest record offering one; `None` iff no record offers one |
| SessionParser.ProjectName | src-tauri/src/session/parser.rs:437-442 | the last non-empty `/` part, or `Unknown`; never empty and never contains `/` |
| SessionParser.TruncatePreview | src-tauri/src/session/parser.rs:445-451 | at most 103 characters; unchanged up to 100, else the first 100 characters and `...` |
| SessionParser.ScanRecentLines | src-tauri/src/session/parser.rs:347-417 | the two loops compute the metadata scan and the preview scan |
| SessionParser.ParseSessionFile | src-tauri/src/session/parser.rs:304-465 | the parse equals `SessionOf` of the file, the path, the process and the clock |
| SessionParser.SessionOf | src-tauri/src/session/parser.rs:304-465 | the newer parse as a function; `ParseSessionFile` computes it, and `ParseNoneIff`, `ParseFields` and `ParsePreview` state when it is `None` and every field of the session |
| SessionParser.ParseNoneIff | src-tauri/src/session/parser.rs:326-419 | no session iff the log does not open or none of its newest 100 records has a session id |
| SessionParser.ParseFields | src-tauri/src/session/parser.rs:419-464 | the id is the newest id; the status is `determine_status` of the newest content record and of freshness (under 3 s); the last activity is the newest timestamp among the lines the first loop reads, or `Unknown`, and the branch the newest branch among them; role, pid, CPU flag and path come from their sources |
| SessionParser.ParsePreview | src-tauri/src/session/parser.rs:394-451 | no preview iff no record offers one; the newest offered text is kept whole up to 100 characters, and otherwise becomes exactly its first 100 characters and `...` |
| SessionParser.OnlyRecentLinesMatter | src-tauri/src/session/parser.rs:342-343 | prepending older lines to a log of 100 or more lines changes nothing |
| SessionParser.BranchOnlyFromScannedRecords | src-tauri/src/session/parser.rs:352-389 | the scan stops once id and status are known, so an older record's branch is not reported |
| SessionParser.Utf8Width | src-tauri/src/session.rs:474 | a character takes 1 to 4 bytes |
| SessionParser.ByteLen | src-tauri/src/session.rs:474 | the byte length is at least the character count |
| SessionParser.BytePrefix | src-tauri/src/session.rs:475 | a prefix of the text that fits in `n` bytes |
| SessionParser.BytePrefixLongest | src-tauri/src/session.rs:475 | no longer prefix fits in `n` bytes: `BytePrefix` is the longest one |
| SessionParser.ParseSessionFileLegacy | src-tauri/src/session.rs:356-493 | the older parse equals `SessionOfLegacy`, which fails where the byte cut panics |
| SessionParser.SessionOfLegacy | src-tauri/src/session.rs:356-493 | the older parse as a function; `ParseSessionFileLegacy` computes it, `LegacyFindIsPlainParse` proves it agrees with the newer parse apart from the preview, and `TruncatePreviewBytesFails` says when it fails |
| SessionParser.TruncationsAgreeOnAscii | src-tauri/src/session.rs:473-479 | on ASCII text the byte cut succeeds and equals the character cut |
| SessionParser.LegacyCutPanics | src-tauri/src/session.rs:473-479 | 99 `a`, an `é` and a `b`: the byte cut fails while the character cut gives 100 characters and `...` |
| SessionParser.TruncatePreviewBytesBound | src-tauri/src/session.rs:473-479 | a byte cut that succeeds is at most 103 bytes |
| SessionParser.TruncatePreviewBytesFails | src-tauri/src/session.rs:473-479 | the byte cut fails iff the text is over 100 bytes and no prefix of it is exactly 100 bytes, that is iff byte 100 falls inside a character |
| SessionParser.TruncatePreviewBytes | src-tauri/src/session.rs:473-479 | the older byte cut; `TruncatePreviewBytesBound` bounds a successful cut by 103 bytes, `TruncatePreviewBytesFails` says exactly when it panics, and `TruncationsAgreeOnAscii` ties it to the character cut |
| Aggregator.NewerFirstIsStrictOrder | src-tauri/src/session/parser.rs:231 | newer-first is a strict order |
| Aggregator.Select | src-tauri/src/session/parser.rs:214-228 | exactly the kept entries, never more than the input |
| Aggregator.Candidates | src-tauri/src/session/parser.rs:213-237 | exactly the `.jsonl` files with a readable modification time, as a permutation, sorted newer-first |
| Aggregator.CandidatesNewestFirst | src-tauri/src/session/parser.rs:213-237 | every candidate has a modification time, in non-increasing order |
| Aggregator.SelectIsSubsequence | src-tauri/src/session.rs:325-333 | filtering keeps the kept entries in their order |
| Aggregator.LegacyRecentFilesChoice | src-tauri/src/session.rs:299-346 | exactly min(expected, candidates) candidates, in newest-first order (a subsequence of the sorted candidates); when enough are recent (under 60 s), all are recent and no recent candidate left out is newer than one taken; otherwise the newest ones in order |
| Aggregator.RecentlyModified | src-tauri/src/session.rs:325-331 | a log modified less than 60 seconds ago, with a known modification time not in the future; `LegacyRecentFilesChoice` proves the older choice takes only such logs when enough exist |
| Aggregator.LegacyRecentFiles | src-tauri/src/session.rs:299-346 | the older log choice; `LegacyRecentFilesChoice` proves its length, that it is an in-order selection of the candidates, and which logs it prefers |
| Aggregator.ReconcileAll | src-tauri/src/session/parser.rs:255-288 | the reconciled status's priority never rises |
| Aggregator.Reconcile | src-tauri/src/session/parser.rs:256-287 | one pass of the reconciliation loop; `ReconcileAll` proves the priority never rises, `ReconcileSource` that the status comes from the primary or a recent other log, `ReconcileAtLeastAsActive` that it dominates every recent other log |
| Aggregator.CpuOverride | src-tauri/src/session/parser.rs:292-298 | with high CPU the status is never Waiting; only Waiting → Processing is changed |
| Aggregator.FindSessionForProcess | src-tauri/src/session/parser.rs:241-301 | the loop computes `FindSession`: parse the log at `index`, reconcile, then override |
| Aggregator.FindSession | src-tauri/src/session/parser.rs:241-301 | the newer lookup as a function; `FindSessionForProcess` computes it, and `FindSessionNoneIff`, `FindSessionKeepsPrimary` and `FindSessionIdentity` state when it is `None` and what it keeps and changes |
| Aggregator.FindSessionNoneIff | src-tauri/src/session/parser.rs:245-248 | no session iff the index is past the logs or that log yields none |
| Aggregator.FindSessionKeepsPrimary | src-tauri/src/session/parser.rs:274-298 | only the status of the primary log's session changes, and its priority never rises |
| Aggregator.ReconcileAtLeastAsActive | src-tauri/src/session/parser.rs:255-288 | the result is at least as urgent as every other log modified in the last 10 s |
| Aggregator.ReconcileSource | src-tauri/src/session/parser.rs:255-288 | the result is the primary status or that of some recent other log |
| Aggregator.LegacyFindIsPlainParse | src-tauri/src/session.rs:350-354 | the older lookup is the log at `index`, parsed, with no reconciliation and no CPU override |
| Aggregator.LegacyFindSession | src-tauri/src/session.rs:350-354 | the older lookup: the log at `index`, parsed; `LegacyFindIsPlainParse` proves it neither reconciles nor overrides |
| Aggregator.FindSessionIdentity | src-tauri/src/session/parser.rs:453-464 | a found session carries the process's pid and CPU flag and the project path |
| Aggregator.ProcessesAt | src-tauri/src/session/parser.rs:104-113 | exactly the processes with that working directory |
| Aggregator.Groups | src-tauri/src/session/parser.rs:104-113 | a key for every working directory some process has (processes without one are skipped), mapped to its processes |
| Aggregator.GroupByCwd | src-tauri/src/session/parser.rs:104-113 | the loop filling `cwd_to_processes` computes `Groups` |
| Aggregator.PairSessions | src-tauri/src/session/parser.rs:165-176 | at most one session per process, each with the project path and some process's pid and CPU flag |
| Aggregator.DirSessions | src-tauri/src/session/parser.rs:132-178 | sessions only for a directory whose decoded name is a process's working directory |
| Aggregator.Collected | src-tauri/src/session/parser.rs:132-178 | every collected session comes from a listed directory and a process working there |
| Aggregator.SessionBeforeIsStrictOrder | src-tauri/src/session/parser.rs:183-192 | the comparator (priority, then later timestamp) is a strict order |
| Aggregator.WaitingSessions | src-tauri/src/session/parser.rs:194-196 | each waiting session as often as it occurs, nothing else |
| Aggregator.WaitingCountPermutation | src-tauri/src/session/parser.rs:194-196 | reordering does not change the waiting count |
| Aggregator.CollectDir | src-tauri/src/session/parser.rs:133-177 | the body of the directory loop computes `DirSessions` |
| Aggregator.GetSessions | src-tauri/src/session/parser.rs:93-209 | the method equals `Sessions` of the snapshot |
| Aggregator.Respond | src-tauri/src/session/parser.rs:183-208 | the sort and the two counts; `RespondProperties` proves a permutation sorted by priority and then newest activity, with both counts exact |
| Aggregator.Sessions | src-tauri/src/session/parser.rs:93-209 | `get_sessions` as a function of the snapshot; `GetSessions` computes it, `SessionsProvenance` and `SessionsUniquePids` state where each session comes from and that no pid repeats |
| Aggregator.RespondProperties | src-tauri/src/session/parser.rs:183-208 | a permutation of the collected sessions, priority non-decreasing, timestamp non-increasing within a priority; the total and the waiting counts are exact |
| Aggregator.SessionsProvenance | src-tauri/src/session/parser.rs:122-178 | missing projects directory → empty response; each session's path is a listed directory's decoded name and some discovered process works there with the session's pid |
| Aggregator.DirSessionsBound | src-tauri/src/session/parser.rs:165-176 | a directory yields at most one session per process working in it |
| Aggregator.PairSessionsUnique | src-tauri/src/session/parser.rs:165-176 | processes with distinct pids give sessions with distinct pids |
| Aggregator.CollectedUniquePids | src-tauri/src/session/parser.rs:132-178 | with distinct process pids and no two directories decoding to the same path, no pid is collected twice |
| Aggregator.SessionsUniquePids | src-tauri/src/session/parser.rs:93-209 | with a process table keyed by pid and no two directories decoding to the same path, `get_sessions` lists no pid twice |
| Aggregator.CollidingDirectoriesListTwice | src-tauri/src/session/parser.rs:132-178 | as written: directories `m-y` and `m-y-` with the same logs each pair the processes of `/m/y`, so every session of the first is listed at least twice |
| Aggregator.CollectedOnce | src-tauri/src/session/parser.rs:132-178 | corrected loop: every session comes from a listed directory and a process working at its decoded path; a directory whose path an earlier one had is skipped |
| Aggregator.SessionsOnce | src-tauri/src/session/parser.rs:93-209 | the corrected response; `SessionsOnceProperties` proves no pid repeats and that it equals `Sessions` when no two directories decode to the same path |
| Aggregator.CollectedOnceAgrees | src-tauri/src/session/parser.rs:132-178 | where no two directories decode to the same path, the corrected loop collects what the loop as written does |
| Aggregator.SessionsOnceProperties | src-tauri/src/session/parser.rs:93-209 | corrected response: with a process table keyed by pid, no pid is listed twice whatever the directory names; with distinct decoded names it is the response as written |
| Aggregator.LegacyPairSessions | src-tauri/src/session.rs:263-267 | at most one session per process |
| Aggregator.LegacyDirSessions | src-tauri/src/session.rs:240-268 | one directory of the older loop yields at most one session per process working at its decoded path, each recording that path as its project path |
| Aggregator.LegacyCollected | src-tauri/src/session.rs:238-269 | every session the older loop collects comes from a listed directory whose decoded name is its project path |
| Aggregator.LegacySessions | src-tauri/src/session.rs:211-297 | the older `get_sessions`; `LegacySessionsResponse` proves a sorted permutation of the collected sessions with exact counts when nothing panics |
| Aggregator.LegacySessionsResponse | src-tauri/src/session.rs:274-294 | when the older call does not panic: empty without a projects directory; otherwise a permutation of the sessions the older loop collected, priority non-decreasing and timestamp non-increasing within a priority; the total and waiting counts are exact |
| Terminal.ExecuteAppleScript | src-tauri/src/terminal/applescript.rs:4-23 | Ok iff the script exited successfully and its trimmed stdout is not `not found`; `Tab not found` and `AppleScript error: <stderr>` otherwise |
| Terminal.ExecuteAppleScriptLegacy | src-tauri/src/terminal.rs:88-101 | Ok iff the script exited successfully |
| Terminal.AppleScriptStricterThanLegacy | src-tauri/src/terminal/applescript.rs:11-17 | the newer reading succeeds only where the older one does, and they differ exactly on a successful `not found` |
| Terminal.TtyOf | src-tauri/src/terminal/mod.rs:57-75 | succeeds iff `ps` exits successfully and its trimmed output is neither empty nor `??`; the tty is that trimmed output |
| Terminal.TtyIsTrimmed | src-tauri/src/terminal/mod.rs:66 | a tty is non-empty and has no surrounding whitespace |
| Terminal.FocusTerminalAppByTty | src-tauri/src/terminal/terminal_app.rs:4-42 | Ok iff Terminal is reported running and its script succeeds |
| Terminal.FocusITermByTty | src-tauri/src/terminal/iterm.rs:4-31 | succeeds iff the iTerm2 script ran, exited successfully and did not answer `not found` |
| Terminal.FocusAnyTerminalWithTmux | src-tauri/src/terminal/tmux.rs:88-104 | succeeds iff the activation script ran, exited successfully and did not answer `not found` |
| Terminal.FocusTmuxClientTerminal | src-tauri/src/terminal/tmux.rs:53-85 | a failed or empty client tty goes to the any-terminal fallback; otherwise Ok iff iTerm2, Terminal.app or the fallback succeeds on the tty's last `/` segment |
| Terminal.PaneMatchIsContainment | src-tauri/src/terminal/tmux.rs:30 | the `ends_with` test adds nothing to `contains` |
| Terminal.FirstPane | src-tauri/src/terminal/tmux.rs:23-47 | the first line with two fields whose pane tty contains the tty; `None` iff none matches |
| Terminal.FindPane | src-tauri/src/terminal/tmux.rs:23-47 | the loop stops at the first match and computes `FirstPane` |
| Terminal.PaneMatches | src-tauri/src/terminal/tmux.rs:25-30 | a line with at least two fields whose first field contains or ends with the tty; `PaneMatchIsContainment` proves the `ends_with` test adds nothing |
| Terminal.TmuxPane | src-tauri/src/terminal/tmux.rs:8-50 | the outcome and the selected target; `FocusTmuxPaneByTty` computes it and `TmuxPaneOutcomes` states each outcome |
| Terminal.FocusTmuxPaneByTty | src-tauri/src/terminal/tmux.rs:8-50 | the method's outcome and selected target are `TmuxPane` of the oracle |
| Terminal.TmuxPaneOutcomes | src-tauri/src/terminal/tmux.rs:8-50 | a failed listing selects nothing; a pane is selected iff some line matches; no match is `Pane not found in tmux`; after a match the result is the client focus's, even an error |
| Terminal.FocusForPidChain | src-tauri/src/terminal/mod.rs:9-25 | without a tty nothing is tried; with one, Ok iff tmux, iTerm2 or Terminal.app succeeds, and Terminal.app's result when the first two fail |
| Terminal.FocusTerminalForPid | src-tauri/src/terminal/mod.rs:9-25 | the newer chain; `FocusForPidChain` proves the tty gate, success iff some backend succeeds, and Terminal.app's error when none does |
| Terminal.PathKey | src-tauri/src/terminal/mod.rs:51 | the text after the last `/`: the whole path without `/`, empty when the path ends in `/` |
| Terminal.FocusTerminalByPath | src-tauri/src/terminal/mod.rs:28-54 | Ok iff the iTerm2 name search on the path key succeeds |
| Terminal.LegacyNotFoundIsSuccess | src-tauri/src/terminal.rs:3-13 | in the older chain an iTerm2 `not found` counts as success, where the newer step reports `Tab not found` |
| Terminal.LegacyFocusTerminalForPid | src-tauri/src/terminal.rs:3-13 | fails with the tty error when there is no tty; otherwise succeeds iff the iTerm2 or the Terminal.app script exits successfully, whatever it answers |
| Terminal.LegacyFocusTerminalByPath | src-tauri/src/terminal.rs:103-129 | succeeds iff the iTerm2 name search exits successfully, so a `not found` answer is success |
| Terminal.LegacyChainCoversNewer | src-tauri/src/terminal.rs:3-13 | the older chain succeeds whenever the newer iTerm2 step would |
| Commands.TrayTitle | src-tauri/src/commands/handlers.rs:27-33 | empty iff both counts are 0; a title without waiting sessions is all digits |
| Commands.WaitingTitleHasSpace | src-tauri/src/commands/handlers.rs:27-33 | the title mentions waiting sessions iff there are some |
| Commands.TrayTitleInjective | src-tauri/src/commands/handlers.rs:27-33 | different counts never give the same title |
| Commands.UpdateTrayTitle | src-tauri/src/commands/handlers.rs:26-40 | no tray: Ok and nothing changes; otherwise the title is set, or a refusal is reported and the title kept |
| Commands.FocusSession | src-tauri/src/commands/handlers.rs:19-22 | Ok iff pid focus or path focus succeeds; path focus only after pid focus fails |
| Commands.LegacyFocusSession | src-tauri/src/lib.rs:31-34 | the same fallback over the older chain |
| Commands.ShortcutSlot.Register | src-tauri/src/commands/handlers.rs:44-82 | the old shortcut is released; Ok iff parse and registration succeed, and only then the slot holds the new shortcut; error messages for each failure |
| Commands.ShortcutSlot.Unregister | src-tauri/src/commands/handlers.rs:86-93 | the slot is emptied; Ok iff it was empty or the plugin agreed |
| Commands.RegisterTwice | src-tauri/src/commands/handlers.rs:44-82 | after two registrations only the second shortcut is held and the first was released |
| Commands.OnShortcut | src-tauri/src/commands/handlers.rs:56-74 | nothing unless pressed with a window; hide iff visible and focused, else show and focus |
| SessionCard.MinutesToHours | src/components/SessionCard.tsx:38 | whole hours counted through whole minutes are whole hours |
| SessionCard.HoursToDays | src/components/SessionCard.tsx:41 | whole days counted through whole hours are whole days |
| SessionCard.FormatTimeAgoMeaning | src/components/SessionCard.tsx:29-43 | `just now` iff under a minute (future included); otherwise the elapsed whole minutes, hours or days, each unit for exactly its range |
| SessionCard.FormatTimeAgoExamples | src/__tests__/formatters.test.ts:13-43 | 30 s, 15 min, 3 h and 3 days give `just now`, `15m ago`, `3h ago`, `3d ago` |
| SessionCard.FormatTimeAgo | src/components/SessionCard.tsx:29-43 | the relative time label; `FormatTimeAgoMeaning` proves each label is used for exactly its range and shows the elapsed whole minutes, hours or days |
| SessionCard.TruncateHome | src/components/SessionCard.tsx:45-48 | `/Users/<name>` followed by nothing or `/…` becomes `~…`, hyphens in the name included |
| SessionCard.TruncatePathShape | src/components/SessionCard.tsx:45-48 | a path not starting with `/Users/` and a non-`/` character is unchanged; a changed path is `~` or starts with `~/` |
| SessionCard.OutsideHome | src/components/SessionCard.tsx:47 | a path whose second character is not `U` is unchanged |
| SessionCard.TruncatePathExamples | src/__tests__/formatters.test.ts:52-59 | `/Users/john-doe/Projects/app` → `~/Projects/app`; `/tmp/project` unchanged |
| SessionCard.TruncatePath | src/components/SessionCard.tsx:45-48 | the home-directory abbreviation; `TruncateHome` proves `/Users/<name>` becomes `~`, and `TruncatePathShape` and `OutsideHome` that any other path is unchanged |
| SessionCard.StatusLabelAsWritten | src/components/SessionCard.tsx:8-27 | the table as written: a label for every status except thinking |
| SessionCard.ThinkingHasNoEntry | src/components/SessionCard.tsx:51 | a user message without a tool result gives thinking, which has no entry |
| SessionCard.StatusLabel | src/__tests__/formatters.test.ts:81-86 | corrected table: keeps the written labels and gives thinking `Thinking...` |
| SessionCard.StatusLabelInjective | src/__tests__/formatters.test.ts:81-86 | different statuses have different labels |

## Left out

- OS and filesystem access are inputs, not modelled code:
  - the sysinfo refresh and its cached `SYSTEM` handle behind a mutex;
  - `read_dir`, metadata reads, `File::open` and line reading.
- The order of `read_dir` and of the process table is the order of the input sequences.
- Time is one integer-millisecond clock reading per call. Each `SystemTime::now()` reading in the source is taken to be that same instant.
- A modification time in the future counts as "not within the window", as `duration_since` fails.
- `cpu_usage` (f32) is kept only as `cpuHigh`, meaning "above 5 %". The f32 file age compared with 3.0 becomes integer milliseconds compared with 3000.
- serde JSON parsing is not modelled. A line is a parsed record or `None`. `content` keeps only string blocks' `type` and `text`. Lines that are not valid UTF-8, which `lines().flatten()` drops, are not modelled.
- `convert_path_to_dir_name` (used by `session_tests.rs:90-115`) and `is_interrupted_request` (imported at `parser.rs:9`) are not part of this model: neither is defined in `status.rs`, `parser.rs` or `session.rs`.
- Status.DetermineStatusAsTested: read off the expectations of `session_tests.rs:227-360`, because the six-input `determine_status` that `parser.rs:422-429` calls is not defined in these files. It is used only for the tested points; the parser model calls the five-input body of `status.rs`.
- Sorting.SortBy: the in-place `sort_by` is modelled as a sort on sequences. Its stability is not proved; the sort keys make equal elements interchangeable only for ordering purposes.
- Strs.ToLowerAscii: `to_lowercase` is modelled for ASCII letters only. Non-ASCII case mappings are not modelled.
- The whole-name decoder tests of `session_tests.rs:47-87` are not restated one by one. The part after the marker is covered by `PathCodec.PlainProjectName` (no double dash), `PathCodec.HiddenFolder` (one double dash), `PathCodec.HiddenFolders` (any number of them, with `PathCodec.TwoHiddenFoldersExample` for `myproject--hidden--subfolder`), and the part up to the marker by `PathCodec.DecodeWithMarker`.
- The older `get_sessions` (`session.rs:211-295`) is modelled as the function `Aggregator.LegacySessions` only, not also as a loop; its loop has the same shape as the newer one.
- Commands.UpdateTrayTitle: a refused `set_title` is taken to leave the title unchanged; the tray's behaviour on refusal is not visible.
- The tray lookup by id, the window, the global-shortcut plugin and the shortcut parser are inputs: presence flags and outcomes passed in.
- The `select-window`/`select-pane` calls, whose results the source ignores, are not modelled. `Terminal.TmuxPane` reports the target it would select.
- The AppleScript texts, and their interpolation of tty and name strings, are not modelled. Each script is named by a `Command` and its outcome comes from the oracle.
- Terminal.Env: the oracle gives one fixed outcome per `Command`, so two runs of the same `osascript`, `ps` or `tmux` command within one focus attempt cannot differ (for example, a window closing between checks is not modelled). The chains are compared on one such world.
- `formatTimeAgo` takes the elapsed milliseconds as an integer. Date parsing and the NaN produced by an invalid timestamp such as `Unknown` are not modelled.
- The React rendering, polling, settings and the Tauri builder are not modelled.

## Findings

| source | as written | input that shows it | evidently intended | confidence | as-written member | corrected member |
|---|---|---|---|---|---|---|
| src-tauri/src/session.rs:473-479 | the preview is cut with `&m[..100]` whenever `m.len() > 100` bytes, which panics unless byte 100 ends a character | a newest message of 99 `a`, then `é`, then `b` (102 bytes; byte 100 is inside `é`) | cut on characters, as `parser.rs:445-451` later does: at most 100 characters and `...` | high; not executed | SessionParser.LegacyCutPanics | SessionParser.TruncatePreview |
| src/components/SessionCard.tsx:8-27 | `statusConfig` has entries for waiting, processing and idle only, so `statusConfig[session.status]` is undefined for a thinking session and the card reads fields of `undefined` | a session whose newest record is a plain user message (status thinking) | an entry for thinking labelled `Thinking...`, as the label tests expect | high; not executed | SessionCard.ThinkingHasNoEntry | SessionCard.StatusLabel |
| src-tauri/src/session/parser.rs:132-178 | every directory entry is decoded and paired with the processes at its decoded path, and the decoder is not injective | directories `Projects-a` and `Projects-a-` (both decode to `/Projects/a`) and one process working in `/Projects/a`: it gets a session from each directory | each process listed at most once | medium; not executed | Aggregator.CollidingDirectoriesListTwice | Aggregator.SessionsOnceProperties |
