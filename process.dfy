/** Claude process discovery (src-tauri/src/process/claude.rs, and the older single-pass filter
    in src-tauri/src/process.rs). The operating system's process table is an input: a sequence of
    entries in the order the table is iterated, one entry per pid. */
module Process {
  import opened Wrappers
  import opened Strs

  /** What the discovery reads of one process: pid, parent pid, argument vector, executable
      name, working directory, whether its CPU usage is above 5 % and its memory. */
  datatype ProcessEntry = ProcessEntry(
    pid: nat, parent: Option<nat>, cmd: seq<string>, name: string,
    cwd: Option<string>, cpuHigh: bool, memory: nat)

  /** `ClaudeProcess`, the record handed to the session engine. */
  datatype ClaudeProcess = ClaudeProcess(pid: nat, cwd: Option<string>, cpuHigh: bool, memory: nat)

  /** The process table is keyed by pid. */
  predicate DistinctPids(table: seq<ProcessEntry>) {
    forall i, j :: 0 <= i < j < |table| ==> table[i].pid != table[j].pid
  }

  /** No pid appears twice in a discovery result. */
  predicate UniquePids(processes: seq<ClaudeProcess>) {
    forall a, b :: 0 <= a < b < |processes| ==> processes[a].pid != processes[b].pid
  }

  /** The record copied out of an entry: pid, cwd, CPU and memory unchanged. */
  function Record(e: ProcessEntry): (r: ClaudeProcess)
    ensures r.pid == e.pid && r.cwd == e.cwd && r.cpuHigh == e.cpuHigh && r.memory == e.memory
  {
    ClaudeProcess(e.pid, e.cwd, e.cpuHigh, e.memory)
  }

  // ---------------------------------------------------------------- predicates

  /** The first argument, lower-cased, is `claude` or ends with `/claude`. */
  predicate IsClaudeCmd(cmd: seq<string>) {
    |cmd| > 0 && (ToLowerAscii(cmd[0]) == "claude" || IsSuffix("/claude", ToLowerAscii(cmd[0])))
  }

  /** The session monitor's own process, recognised by its executable name. */
  predicate IsOurApp(name: string) {
    Contains(name, "claude-sessions") || Contains(name, "tauri-temp") || Contains(name, "agent-sessions")
  }

  /** `system.process(pid)`: the entry with that pid, if any. */
  function Lookup(table: seq<ProcessEntry>, pid: nat): (r: Option<ProcessEntry>)
    ensures r.Some? ==> r.value in table && r.value.pid == pid
    ensures r.None? ==> forall i :: 0 <= i < |table| ==> table[i].pid != pid
    decreases |table|
  {
    if table == [] then None
    else if table[0].pid == pid then Some(table[0])
    else Lookup(table[1..], pid)
  }

  /** The pids of all qualifying processes, the monitor's own included (the first pass). */
  function ClaudePids(table: seq<ProcessEntry>): (pids: set<nat>)
    ensures forall p :: p in pids <==> exists i :: 0 <= i < |table| && table[i].pid == p && IsClaudeCmd(table[i].cmd)
    decreases |table|
  {
    if table == [] then {}
    else
      var last := table[|table| - 1];
      var rest := ClaudePids(table[..|table| - 1]);
      assert forall i :: 0 <= i < |table| - 1 ==> table[..|table| - 1][i] == table[i];
      if IsClaudeCmd(last.cmd) then rest + {last.pid} else rest
  }

  /** The parent was started by the Zed editor's agent bridge: its arguments, joined with
      spaces, contain `claude-code-acp`. */
  predicate HasAcpParent(table: seq<ProcessEntry>, e: ProcessEntry) {
    e.parent.Some? && Lookup(table, e.parent.value).Some?
    && Contains(Join(Lookup(table, e.parent.value).value.cmd, " "), "claude-code-acp")
  }

  /** The second pass keeps a process iff it qualifies, is not the monitor itself, is not a
      sub-agent (child of a qualifying process) and was not spawned by the agent bridge. */
  predicate Kept(table: seq<ProcessEntry>, pids: set<nat>, e: ProcessEntry) {
    IsClaudeCmd(e.cmd) && !IsOurApp(e.name)
    && !(e.parent.Some? && e.parent.value in pids)
    && !HasAcpParent(table, e)
  }

  /** The older filter: qualifies and the name contains neither `claude-sessions` nor
      `tauri-temp`; no parent check. */
  predicate LegacyKept(e: ProcessEntry) {
    IsClaudeCmd(e.cmd) && !Contains(e.name, "claude-sessions") && !Contains(e.name, "tauri-temp")
  }

  /** The records of the entries `keep` accepts, in table order. */
  function Filter(entries: seq<ProcessEntry>, keep: ProcessEntry -> bool): (out: seq<ClaudeProcess>)
    ensures forall r :: r in out ==> exists e :: e in entries && keep(e) && r == Record(e)
    ensures forall e :: e in entries && keep(e) ==> Record(e) in out
    decreases |entries|
  {
    if entries == [] then []
    else
      var last := entries[|entries| - 1];
      var front := entries[..|entries| - 1];
      assert entries == front + [last];
      Filter(front, keep) + (if keep(last) then [Record(last)] else [])
  }

  /** The second pass's test, with the first pass's pid set fixed. */
  function Keeper(table: seq<ProcessEntry>): ProcessEntry -> bool {
    var pids := ClaudePids(table);
    e => Kept(table, pids, e)
  }

  /** What the current discovery returns. */
  function Discovered(table: seq<ProcessEntry>): seq<ClaudeProcess> {
    Filter(table, Keeper(table))
  }

  /** What the older discovery returns. */
  function LegacyDiscovered(table: seq<ProcessEntry>): seq<ClaudeProcess> {
    Filter(table, LegacyKept)
  }

  // ---------------------------------------------------------------- the two loops

  /** `find_claude_processes`: a first pass collecting the qualifying pids, then a second pass
      that skips the monitor itself, sub-agents and bridge-spawned agents. */
  method FindClaudeProcesses(table: seq<ProcessEntry>) returns (processes: seq<ClaudeProcess>)
    ensures processes == Discovered(table)
  {
    var claudePids: set<nat> := {};
    for i := 0 to |table|
      invariant claudePids == ClaudePids(table[..i])
    {
      assert table[..i + 1][..i] == table[..i];
      if IsClaudeCmd(table[i].cmd) {
        claudePids := claudePids + {table[i].pid};
      }
    }
    assert table[..|table|] == table;
    processes := [];
    for i := 0 to |table|
      invariant processes == Filter(table[..i], Keeper(table))
    {
      var process := table[i];
      assert table[..i + 1][..i] == table[..i];
      if !IsClaudeCmd(process.cmd) {
        continue;
      }
      if IsOurApp(process.name) {
        continue;
      }
      if process.parent.Some? {
        var parentPid := process.parent.value;
        if parentPid in claudePids {
          continue;
        }
        var parentProcess := Lookup(table, parentPid);
        if parentProcess.Some? && Contains(Join(parentProcess.value.cmd, " "), "claude-code-acp") {
          continue;
        }
      }
      processes := processes + [Record(process)];
    }
  }

  /** The older `find_claude_processes`: one pass. */
  method FindClaudeProcessesLegacy(table: seq<ProcessEntry>) returns (processes: seq<ClaudeProcess>)
    ensures processes == LegacyDiscovered(table)
  {
    processes := [];
    for i := 0 to |table|
      invariant processes == Filter(table[..i], LegacyKept)
    {
      var process := table[i];
      assert table[..i + 1][..i] == table[..i];
      var isClaude := IsClaudeCmd(process.cmd);
      var isOurApp := Contains(process.name, "claude-sessions") || Contains(process.name, "tauri-temp");
      if isClaude && !isOurApp {
        processes := processes + [Record(process)];
      }
    }
    assert table[..|table|] == table;
  }

  // ---------------------------------------------------------------- properties

  /** An empty argument vector never qualifies; the comparison ignores ASCII case. */
  lemma QualifyExamples()
    ensures !IsClaudeCmd([])
    ensures IsClaudeCmd(["CLAUDE"])
    ensures IsClaudeCmd(["/usr/local/bin/claude", "--resume"])
    ensures !IsClaudeCmd(["node", "claude"])
  {
    assert ToLowerAscii("CLAUDE") == "claude";
    var bin := "/usr/local/bin/claude";
    assert ToLowerAscii(bin) == bin;
    assert bin[|bin| - |"/claude"|..] == "/claude";
  }

  /** With pids unique, an entry's record is returned iff the entry is kept. */
  lemma DiscoveredIff(table: seq<ProcessEntry>, i: nat)
    requires DistinctPids(table) && i < |table|
    ensures Record(table[i]) in Discovered(table) <==> Kept(table, ClaudePids(table), table[i])
  {
    var keep := Keeper(table);
    if Record(table[i]) in Discovered(table) {
      var e :| e in table && keep(e) && Record(table[i]) == Record(e);
      var j :| 0 <= j < |table| && table[j] == e;
      assert table[j].pid == table[i].pid;
    }
  }

  /** Every returned process qualifies and is not the monitor itself. */
  lemma DiscoveredQualify(table: seq<ProcessEntry>, r: ClaudeProcess)
    requires r in Discovered(table)
    ensures exists e :: e in table && r == Record(e) && IsClaudeCmd(e.cmd) && !IsOurApp(e.name)
  {
    var keep := Keeper(table);
    var e :| e in table && keep(e) && r == Record(e);
  }

  /** A qualifying child of a qualifying process is a sub-agent and is not returned, even when
      the parent is the monitor itself (it still counts in the first pass). */
  lemma SubAgentDropped(table: seq<ProcessEntry>, child: nat, parent: nat)
    requires DistinctPids(table) && child < |table| && parent < |table|
    requires IsClaudeCmd(table[parent].cmd) && table[child].parent == Some(table[parent].pid)
    ensures Record(table[child]) !in Discovered(table)
  {
    DiscoveredIff(table, child);
  }

  /** A qualifying process without a parent that is not the monitor is returned. */
  lemma OrphanKept(table: seq<ProcessEntry>, i: nat)
    requires DistinctPids(table) && i < |table|
    requires IsClaudeCmd(table[i].cmd) && !IsOurApp(table[i].name) && table[i].parent.None?
    ensures Record(table[i]) in Discovered(table)
  {
    DiscoveredIff(table, i);
  }

  /** Unique pids in, unique pids out. */
  lemma {:induction false} FilterDistinct(entries: seq<ProcessEntry>, keep: ProcessEntry -> bool)
    requires DistinctPids(entries)
    ensures UniquePids(Filter(entries, keep))
    decreases |entries|
  {
    if entries != [] {
      var front := entries[..|entries| - 1];
      var last := entries[|entries| - 1];
      assert DistinctPids(front);
      FilterDistinct(front, keep);
      var prev := Filter(front, keep);
      forall k | 0 <= k < |prev|
        ensures prev[k].pid != last.pid
      {
        assert prev[k] in prev;
        var e :| e in front && keep(e) && prev[k] == Record(e);
        var i :| 0 <= i < |front| && front[i] == e;
        assert front[i] == entries[i];
      }
      var out := Filter(entries, keep);
      assert out == prev + (if keep(last) then [Record(last)] else []);
      forall a, b | 0 <= a < b < |out|
        ensures out[a].pid != out[b].pid
      {
        assert out[a] == prev[a];
        if b < |prev| {
          assert out[b] == prev[b];
        } else {
          assert keep(last) && out[b] == Record(last);
        }
      }
    }
  }

  lemma DiscoveredDistinct(table: seq<ProcessEntry>)
    requires DistinctPids(table)
    ensures UniquePids(Discovered(table))
  {
    FilterDistinct(table, Keeper(table));
  }

  /** The current filter only removes processes the older one kept: whatever it returns, the
      older one returned too. */
  lemma CurrentWithinLegacy(table: seq<ProcessEntry>)
    ensures forall r :: r in Discovered(table) ==> r in LegacyDiscovered(table)
  {
    var keep := Keeper(table);
    forall r | r in Discovered(table)
      ensures r in LegacyDiscovered(table)
    {
      var e :| e in table && keep(e) && r == Record(e);
      assert LegacyKept(e);
    }
  }

  /** The older filter keeps sub-agents: a claude process and its claude child are both
      returned, where the current filter returns only the parent. */
  lemma LegacyKeepsSubAgent()
    ensures var parent := ProcessEntry(1, None, ["claude"], "node", Some("/p"), false, 0);
            var child := ProcessEntry(2, Some(1), ["claude"], "node", Some("/p"), true, 0);
            LegacyDiscovered([parent, child]) == [Record(parent), Record(child)]
            && Discovered([parent, child]) == [Record(parent)]
  {
    var parent := ProcessEntry(1, None, ["claude"], "node", Some("/p"), false, 0);
    var child := ProcessEntry(2, Some(1), ["claude"], "node", Some("/p"), true, 0);
    var table := [parent, child];
    assert ToLowerAscii("claude") == "claude";
    assert IsClaudeCmd(parent.cmd) && IsClaudeCmd(child.cmd);
    assert !IsOurApp("node");
    assert LegacyKept(parent) && LegacyKept(child);
    assert table[..1] == [parent] && [parent][..0] == [];
    assert LegacyDiscovered(table) == Filter([parent], LegacyKept) + [Record(child)];
    assert ClaudePids([parent]) == {1} by {
      assert [parent][..0] == [];
    }
    assert ClaudePids(table) == {1, 2};
    assert Lookup(table, 1) == Some(parent);
    assert Keeper(table)(parent) && !Keeper(table)(child);
    assert Discovered(table) == Filter([parent], Keeper(table));
  }
}
