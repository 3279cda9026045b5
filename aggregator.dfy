/** Pairing processes with conversation logs and assembling the response (`get_sessions`,
    `get_recently_active_jsonl_files` and `find_session_for_process` in
    src-tauri/src/session/parser.rs, and their older copies in src-tauri/src/session.rs).
    The file system and the process table are a snapshot: the projects directory's existence,
    its entries in listing order, each entry's logs, the process table and one clock reading. */
module Aggregator {
  import opened Wrappers
  import opened Strs
  import opened Model
  import opened Status
  import opened Sorting
  import Process
  import PathCodec
  import opened SessionParser

  /** One entry of the projects directory. */
  datatype ProjectDir = ProjectDir(name: string, isDir: bool, files: seq<LogFile>)

  /** What `get_sessions` observes. */
  datatype Snapshot = Snapshot(
    table: seq<Process.ProcessEntry>,
    projectsDirExists: bool,
    dirs: seq<ProjectDir>,
    now: int)

  /** Other logs modified less than this many milliseconds ago may lend their status. */
  const ActiveWindowMs: int := 10000

  /** The older file choice prefers logs modified less than this many milliseconds ago. */
  const RecentWindowMs: int := 60000

  // ---------------------------------------------------------------- choosing the logs

  /** A `.jsonl` entry whose modification time could be read. */
  predicate IsCandidate(f: LogFile) {
    f.extension == Some("jsonl") && f.modified.Some?
  }

  /** Newer modification time first (`b.1.cmp(&a.1)`). */
  predicate NewerFirst(a: LogFile, b: LogFile) {
    a.modified.GetOr(0) > b.modified.GetOr(0)
  }

  lemma NewerFirstIsStrictOrder()
    ensures StrictOrder(NewerFirst)
  {
  }

  /** The entries kept by `keep`, in order. */
  function Select(files: seq<LogFile>, keep: LogFile -> bool): (r: seq<LogFile>)
    ensures |r| <= |files|
    ensures forall f :: f in r <==> f in files && keep(f)
    decreases |files|
  {
    if files == [] then []
    else
      var front := Select(files[..|files| - 1], keep);
      var last := files[|files| - 1];
      assert files == files[..|files| - 1] + [last];
      if keep(last) then front + [last] else front
  }

  /** `a` is `b` with some entries left out, the rest kept in order. */
  predicate IsSubsequence<T(==)>(a: seq<T>, b: seq<T>)
    decreases |b|
  {
    if a == [] then true
    else if b == [] then false
    else (a[|a| - 1] == b[|b| - 1] && IsSubsequence(a[..|a| - 1], b[..|b| - 1]))
         || IsSubsequence(a, b[..|b| - 1])
  }

  lemma {:induction false} SelectIsSubsequence(files: seq<LogFile>, keep: LogFile -> bool)
    ensures IsSubsequence(Select(files, keep), files)
    decreases |files|
  {
    if files != [] {
      var init := files[..|files| - 1];
      SelectIsSubsequence(init, keep);
      var r := Select(files, keep);
      if keep(files[|files| - 1]) {
        assert r[..|r| - 1] == Select(init, keep);
      } else {
        SubsequenceOfLonger(r, init, files[|files| - 1]);
      }
    }
  }

  /** Adding an entry at the end of `b` keeps `a` a subsequence of it. */
  lemma SubsequenceOfLonger<T>(a: seq<T>, b: seq<T>, x: T)
    requires IsSubsequence(a, b)
    ensures IsSubsequence(a, b + [x])
  {
    assert (b + [x])[..|b|] == b;
  }

  lemma {:induction false} SubsequencePrefix<T>(a: seq<T>, b: seq<T>, n: nat)
    requires IsSubsequence(a, b) && n <= |a|
    ensures IsSubsequence(a[..n], b)
    decreases |b|
  {
    if n < |a| && n > 0 {
      var b' := b[..|b| - 1];
      assert b == b' + [b[|b| - 1]];
      if a[|a| - 1] == b[|b| - 1] && IsSubsequence(a[..|a| - 1], b') {
        SubsequencePrefix(a[..|a| - 1], b', n);
        assert a[..|a| - 1][..n] == a[..n];
      } else {
        SubsequencePrefix(a, b', n);
      }
      SubsequenceOfLonger(a[..n], b', b[|b| - 1]);
    } else if n == |a| {
      assert a[..n] == a;
    }
  }

  lemma {:induction false} SubsequenceMembers<T>(a: seq<T>, b: seq<T>)
    requires IsSubsequence(a, b)
    ensures forall x :: x in a ==> x in b
    decreases |b|
  {
    if a != [] {
      var a', b' := a[..|a| - 1], b[..|b| - 1];
      assert b == b' + [b[|b| - 1]];
      if a[|a| - 1] == b[|b| - 1] && IsSubsequence(a', b') {
        SubsequenceMembers(a', b');
        assert a == a' + [a[|a| - 1]];
      } else {
        SubsequenceMembers(a, b');
      }
    }
  }

  /** A subsequence of a sorted sequence is sorted. */
  lemma {:induction false} SubsequenceSorted<T>(a: seq<T>, b: seq<T>, less: (T, T) -> bool)
    requires IsSubsequence(a, b) && SortedBy(b, less)
    ensures SortedBy(a, less)
    decreases |b|
  {
    if a != [] {
      var a', b' := a[..|a| - 1], b[..|b| - 1];
      assert SortedBy(b', less);
      if a[|a| - 1] == b[|b| - 1] && IsSubsequence(a', b') {
        SubsequenceSorted(a', b', less);
        SubsequenceMembers(a', b');
        forall i | 0 <= i < |a'| ensures !less(a[|a| - 1], a[i]) {
          assert a[i] == a'[i] && a'[i] in b';
          var k :| 0 <= k < |b'| && b'[k] == a'[i];
          assert b[k] == a[i];
        }
      } else {
        SubsequenceSorted(a, b', less);
      }
    }
  }

  lemma SameMembers<T>(a: seq<T>, b: seq<T>)
    requires multiset(a) == multiset(b)
    ensures forall x :: x in a <==> x in b
  {
    forall x ensures x in a <==> x in b {
      assert x in a <==> x in multiset(a);
      assert x in b <==> x in multiset(b);
    }
  }

  /** The candidate logs of a project directory, newest first: what the newer
      `get_recently_active_jsonl_files` returns whatever the number of processes. */
  function Candidates(files: seq<LogFile>): (r: seq<LogFile>)
    ensures multiset(r) == multiset(Select(files, IsCandidate))
    ensures forall f :: f in r <==> f in files && IsCandidate(f)
    ensures SortedBy(r, NewerFirst)
  {
    var selected := Select(files, IsCandidate);
    var r := SortBy(selected, NewerFirst);
    NewerFirstIsStrictOrder();
    SameMembers(r, selected);
    r
  }

  /** The candidates are exactly the `.jsonl` logs with a modification time, newest first. */
  lemma CandidatesNewestFirst(files: seq<LogFile>)
    ensures var r := Candidates(files);
            (forall f :: f in r <==> f in files && IsCandidate(f))
            && (forall i :: 0 <= i < |r| ==> r[i].modified.Some?)
            && forall i, j :: 0 <= i < j < |r| ==> r[i].modified.GetOr(0) >= r[j].modified.GetOr(0)
  {
    var r := Candidates(files);
    forall i, j | 0 <= i < j < |r|
      ensures r[i].modified.GetOr(0) >= r[j].modified.GetOr(0)
    {
      assert !NewerFirst(r[j], r[i]);
    }
    forall i | 0 <= i < |r| ensures r[i].modified.Some? {
      assert r[i] in r;
    }
  }

  predicate RecentlyModified(now: int, f: LogFile) {
    ModifiedWithin(f.modified, now, RecentWindowMs)
  }

  function RecentKeeper(now: int): LogFile -> bool {
    f => RecentlyModified(now, f)
  }

  /** The older `get_recently_active_jsonl_files`: the first `expected` of the candidates
      modified within the last minute if there are that many, else the newest `expected`. */
  function LegacyRecentFiles(files: seq<LogFile>, expected: nat, now: int): seq<LogFile> {
    var sorted := Candidates(files);
    var recent := Select(sorted, RecentKeeper(now));
    if |recent| >= expected then recent[..expected]
    else if |sorted| <= expected then sorted
    else sorted[..expected]
  }

  /** The older choice returns exactly `min(expected, candidates)` logs, every one a candidate,
      in newest-first order. When enough candidates are recent they are all recent, and no recent
      candidate left out is newer than one taken; otherwise they are the newest candidates. */
  lemma LegacyRecentFilesChoice(files: seq<LogFile>, expected: nat, now: int)
    ensures var r := LegacyRecentFiles(files, expected, now);
            var sorted := Candidates(files);
            |r| == (if |sorted| < expected then |sorted| else expected)
            && (forall f :: f in r ==> f in files && IsCandidate(f))
            && IsSubsequence(r, sorted)
            && (|Select(sorted, RecentKeeper(now))| >= expected ==>
                  (forall f :: f in r ==> RecentlyModified(now, f))
                  && forall f, g ::
                       f in files && IsCandidate(f) && RecentlyModified(now, f) && f !in r && g in r ==>
                         f.modified.GetOr(0) <= g.modified.GetOr(0))
            && (|Select(sorted, RecentKeeper(now))| < expected ==> r <= sorted)
  {
    var sorted := Candidates(files);
    var recent := Select(sorted, RecentKeeper(now));
    var r := LegacyRecentFiles(files, expected, now);
    SelectIsSubsequence(sorted, RecentKeeper(now));
    if |recent| >= expected {
      SubsequencePrefix(recent, sorted, expected);
      SubsequenceMembers(r, sorted);
      SubsequenceSorted(recent, sorted, NewerFirst);
      NewestTaken(recent, expected);
      assert forall f :: f in files && IsCandidate(f) && RecentlyModified(now, f) ==> f in recent;
    } else if |sorted| <= expected {
      assert r == sorted;
      SubsequenceReflexive(sorted);
    } else {
      SubsequenceReflexive(sorted);
      SubsequencePrefix(sorted, sorted, expected);
      SubsequenceMembers(r, sorted);
    }
  }

  /** Taking the first `n` of a newest-first sequence leaves out nothing newer than what it takes. */
  lemma NewestTaken(s: seq<LogFile>, n: nat)
    requires n <= |s| && SortedBy(s, NewerFirst)
    ensures forall f, g :: f in s && f !in s[..n] && g in s[..n] ==> f.modified.GetOr(0) <= g.modified.GetOr(0)
  {
    forall f, g | f in s && f !in s[..n] && g in s[..n]
      ensures f.modified.GetOr(0) <= g.modified.GetOr(0)
    {
      var i :| 0 <= i < |s| && s[i] == f;
      var j :| 0 <= j < n && s[..n][j] == g;
      assert s[j] == g;
      assert !NewerFirst(s[i], s[j]);
    }
  }

  lemma {:induction false} SubsequenceReflexive<T>(a: seq<T>)
    ensures IsSubsequence(a, a)
    decreases |a|
  {
    if a != [] {
      SubsequenceReflexive(a[..|a| - 1]);
    }
  }

  // ---------------------------------------------------------------- one process, one log

  /** Another log than the primary one, modified within the last ten seconds. */
  predicate LendsStatus(f: LogFile, primaryPath: string, now: int) {
    f.path != primaryPath && ModifiedWithin(f.modified, now, ActiveWindowMs)
  }

  /** One pass of the reconciliation loop: a recent other log whose session has a strictly
      lower sort priority lends its status. */
  function Reconcile(status: SessionStatus, f: LogFile, primaryPath: string, projectPath: string,
                     process: Process.ClaudeProcess, now: int): SessionStatus
  {
    if !LendsStatus(f, primaryPath, now) then status
    else match SessionOf(f, projectPath, process, now)
      case None => status
      case Some(other) =>
        if StatusSortPriority(other.status) < StatusSortPriority(status) then other.status else status
  }

  /** The status after the reconciliation loop over `files`; its priority never rises. */
  function ReconcileAll(status: SessionStatus, files: seq<LogFile>, primaryPath: string, projectPath: string,
                        process: Process.ClaudeProcess, now: int): (r: SessionStatus)
    ensures StatusSortPriority(r) <= StatusSortPriority(status)
    decreases |files|
  {
    if files == [] then status
    else ReconcileAll(Reconcile(status, files[0], primaryPath, projectPath, process, now), files[1..],
                      primaryPath, projectPath, process, now)
  }

  /** A waiting session whose process is busy on the CPU is shown as processing. */
  function CpuOverride(status: SessionStatus, cpuHigh: bool): (r: SessionStatus)
    ensures cpuHigh ==> r != Waiting
    ensures r != status ==> status == Waiting && r == Processing
  {
    if status == Waiting && cpuHigh then Processing else status
  }

  /** The newer `find_session_for_process`, as a function of the snapshot. */
  function FindSession(files: seq<LogFile>, projectPath: string, process: Process.ClaudeProcess,
                       index: nat, now: int): Option<Session>
  {
    if index >= |files| then None
    else
      match SessionOf(files[index], projectPath, process, now)
      case None => None
      case Some(primary) =>
        var reconciled := ReconcileAll(primary.status, files, files[index].path, projectPath, process, now);
        Some(primary.(status := CpuOverride(reconciled, process.cpuHigh)))
  }

  /** `find_session_for_process`: parse the log at `index`, let recent other logs lower its
      status's priority, then apply the CPU override. */
  method FindSessionForProcess(files: seq<LogFile>, projectPath: string, process: Process.ClaudeProcess,
                               index: nat, now: int)
    returns (session: Option<Session>)
    ensures session == FindSession(files, projectPath, process, index, now)
  {
    if index >= |files| {
      return None;
    }
    var primaryLog := files[index];
    var primary := ParseSessionFile(primaryLog, projectPath, process, now);
    if primary.None? {
      return None;
    }
    var current := primary.value;
    var i := 0;
    while i < |files|
      invariant 0 <= i <= |files|
      invariant ReconcileAll(current.status, files[i..], primaryLog.path, projectPath, process, now)
             == ReconcileAll(primary.value.status, files, primaryLog.path, projectPath, process, now)
      invariant current == primary.value.(status := current.status)
    {
      assert files[i..][1..] == files[i + 1..];
      var f := files[i];
      if f.path != primaryLog.path && ModifiedWithin(f.modified, now, ActiveWindowMs) {
        var other := ParseSessionFile(f, projectPath, process, now);
        if other.Some? && StatusSortPriority(other.value.status) < StatusSortPriority(current.status) {
          current := current.(status := other.value.status);
        }
      }
      i := i + 1;
    }
    if current.status == Waiting && process.cpuHigh {
      current := current.(status := Processing);
    }
    session := Some(current);
  }

  /** No session iff there is no log at `index` or it yields none. */
  lemma FindSessionNoneIff(files: seq<LogFile>, projectPath: string, process: Process.ClaudeProcess,
                           index: nat, now: int)
    ensures FindSession(files, projectPath, process, index, now).None?
        <==> index >= |files| || SessionOf(files[index], projectPath, process, now).None?
  {
  }

  /** Reconciliation and the override change only the status of the primary log's session,
      and never raise its sort priority. */
  lemma FindSessionKeepsPrimary(files: seq<LogFile>, projectPath: string, process: Process.ClaudeProcess,
                                index: nat, now: int)
    requires FindSession(files, projectPath, process, index, now).Some?
    ensures index < |files|
    ensures var s := FindSession(files, projectPath, process, index, now).value;
            var primary := SessionOf(files[index], projectPath, process, now).value;
            s.(status := primary.status) == primary
            && StatusSortPriority(s.status) <= StatusSortPriority(primary.status)
  {
    var primary := SessionOf(files[index], projectPath, process, now).value;
    var reconciled := ReconcileAll(primary.status, files, files[index].path, projectPath, process, now);
    assert StatusSortPriority(CpuOverride(reconciled, process.cpuHigh)) <= StatusSortPriority(reconciled);
  }

  /** The reconciled status is at least as urgent as that of every recent other log. */
  lemma {:induction false} ReconcileAtLeastAsActive(status: SessionStatus, files: seq<LogFile>, primaryPath: string,
                                                    projectPath: string, process: Process.ClaudeProcess, now: int, k: nat)
    requires k < |files| && LendsStatus(files[k], primaryPath, now)
    requires SessionOf(files[k], projectPath, process, now).Some?
    ensures StatusSortPriority(ReconcileAll(status, files, primaryPath, projectPath, process, now))
         <= StatusSortPriority(SessionOf(files[k], projectPath, process, now).value.status)
    decreases |files|
  {
    var next := Reconcile(status, files[0], primaryPath, projectPath, process, now);
    if k > 0 {
      assert files[1..][k - 1] == files[k];
      ReconcileAtLeastAsActive(next, files[1..], primaryPath, projectPath, process, now, k - 1);
    }
  }

  /** The reconciled status is the primary one or that of some recent other log. */
  lemma {:induction false} ReconcileSource(status: SessionStatus, files: seq<LogFile>, primaryPath: string,
                                           projectPath: string, process: Process.ClaudeProcess, now: int)
    ensures var r := ReconcileAll(status, files, primaryPath, projectPath, process, now);
            r == status
            || exists k :: 0 <= k < |files| && LendsStatus(files[k], primaryPath, now)
                 && SessionOf(files[k], projectPath, process, now).Some?
                 && SessionOf(files[k], projectPath, process, now).value.status == r
    decreases |files|
  {
    if files != [] {
      var next := Reconcile(status, files[0], primaryPath, projectPath, process, now);
      ReconcileSource(next, files[1..], primaryPath, projectPath, process, now);
      var r := ReconcileAll(status, files, primaryPath, projectPath, process, now);
      if r != status {
        if r == next {
          assert LendsStatus(files[0], primaryPath, now);
        } else {
          var k :| 0 <= k < |files[1..]| && LendsStatus(files[1..][k], primaryPath, now)
                   && SessionOf(files[1..][k], projectPath, process, now).Some?
                   && SessionOf(files[1..][k], projectPath, process, now).value.status == r;
          assert files[1..][k] == files[k + 1];
        }
      }
    }
  }

  /** The older `find_session_for_process`: the log at `index`, parsed; nothing else. */
  function LegacyFindSession(files: seq<LogFile>, projectPath: string, process: Process.ClaudeProcess,
                             index: nat, now: int): Result<Option<Session>>
  {
    if index >= |files| then Success(None) else SessionOfLegacy(files[index], projectPath, process, now)
  }

  /** The older lookup reports the primary log's own status: no reconciliation, no CPU
      override. Apart from the preview it agrees with the newer parse of that log. */
  lemma LegacyFindIsPlainParse(files: seq<LogFile>, projectPath: string, process: Process.ClaudeProcess,
                               index: nat, now: int)
    requires LegacyFindSession(files, projectPath, process, index, now).Success?
    ensures var r := LegacyFindSession(files, projectPath, process, index, now).value;
            (r.None? <==> index >= |files| || SessionOf(files[index], projectPath, process, now).None?)
            && (r.Some? ==> r.value.(lastMessage := None)
                            == SessionOf(files[index], projectPath, process, now).value.(lastMessage := None))
  {
  }

  /** A session found for a process carries that process's pid and CPU flag and the project
      path it was looked up under. */
  lemma FindSessionIdentity(files: seq<LogFile>, projectPath: string, process: Process.ClaudeProcess,
                            index: nat, now: int)
    requires FindSession(files, projectPath, process, index, now).Some?
    ensures var s := FindSession(files, projectPath, process, index, now).value;
            s.pid == process.pid && s.cpuHigh == process.cpuHigh && s.projectPath == projectPath
  {
  }

  // ---------------------------------------------------------------- grouping processes by cwd

  /** The processes whose working directory is `cwd`, in discovery order. */
  function ProcessesAt(processes: seq<Process.ClaudeProcess>, cwd: string): (r: seq<Process.ClaudeProcess>)
    ensures forall p :: p in r <==> p in processes && p.cwd == Some(cwd)
    decreases |processes|
  {
    if processes == [] then []
    else
      var last := processes[|processes| - 1];
      assert processes == processes[..|processes| - 1] + [last];
      ProcessesAt(processes[..|processes| - 1], cwd) + (if last.cwd == Some(cwd) then [last] else [])
  }

  /** `cwd_to_processes`: every working directory some process has, mapped to its processes;
      processes without a working directory are left out. */
  function Groups(processes: seq<Process.ClaudeProcess>): (g: map<string, seq<Process.ClaudeProcess>>)
    ensures forall c :: c in g <==> exists p :: p in processes && p.cwd == Some(c)
    ensures forall c :: c in g ==> g[c] == ProcessesAt(processes, c)
    decreases |processes|
  {
    if processes == [] then map[]
    else
      var front := processes[..|processes| - 1];
      var last := processes[|processes| - 1];
      var g := Groups(front);
      assert processes == front + [last];
      if last.cwd.None? then g
      else
        var c := last.cwd.value;
        if c !in g then
          assert ProcessesAt(front, c) == [] by {
            if ProcessesAt(front, c) != [] {
              assert ProcessesAt(front, c)[0] in ProcessesAt(front, c);
            }
          }
          g[c := [last]]
        else g[c := g[c] + [last]]
  }

  /** The loop that fills `cwd_to_processes`. */
  method GroupByCwd(processes: seq<Process.ClaudeProcess>) returns (groups: map<string, seq<Process.ClaudeProcess>>)
    ensures groups == Groups(processes)
  {
    groups := map[];
    for i := 0 to |processes|
      invariant groups == Groups(processes[..i])
    {
      GroupsSnoc(processes, i);
      var process := processes[i];
      if process.cwd.Some? {
        var key := process.cwd.value;
        var entry := if key in groups then groups[key] else [];
        groups := groups[key := entry + [process]];
      }
    }
    assert processes[..|processes|] == processes;
  }

  lemma GroupsSnoc(processes: seq<Process.ClaudeProcess>, i: nat)
    requires i < |processes|
    ensures var g, p := Groups(processes[..i]), processes[i];
            Groups(processes[..i + 1])
            == if p.cwd.None? then g
               else g[p.cwd.value := (if p.cwd.value in g then g[p.cwd.value] else []) + [p]]
  {
    var p := processes[i];
    assert processes[..i + 1][..i] == processes[..i];
    assert processes[..i + 1][i] == p;
    assert [] + [p] == [p];
  }

  // ---------------------------------------------------------------- collecting sessions

  /** The sessions found for `procs`, the i-th process looking at the i-th log. */
  function PairSessions(files: seq<LogFile>, projectPath: string, procs: seq<Process.ClaudeProcess>, now: int)
    : (r: seq<Session>)
    ensures |r| <= |procs|
    ensures forall s :: s in r ==>
              s.projectPath == projectPath && exists p :: p in procs && p.pid == s.pid && p.cpuHigh == s.cpuHigh
    decreases |procs|
  {
    if procs == [] then []
    else
      var n := |procs| - 1;
      var front := PairSessions(files, projectPath, procs[..n], now);
      assert procs == procs[..n] + [procs[n]];
      match FindSession(files, projectPath, procs[n], n, now)
      case None => front
      case Some(s) =>
        FindSessionIdentity(files, projectPath, procs[n], n, now);
        front + [s]
  }

  /** The sessions of one entry of the projects directory: none unless it is a directory whose
      decoded path is some process's working directory. */
  function DirSessions(dir: ProjectDir, groups: map<string, seq<Process.ClaudeProcess>>, now: int): (r: seq<Session>)
    ensures forall s :: s in r ==>
              dir.isDir && s.projectPath == PathCodec.DirNameToPath(dir.name) && s.projectPath in groups
              && exists p :: p in groups[s.projectPath] && p.pid == s.pid
  {
    if !dir.isDir then []
    else
      var path := PathCodec.DirNameToPath(dir.name);
      if path !in groups then [] else PairSessions(Candidates(dir.files), path, groups[path], now)
  }

  /** The sessions of all entries, in listing order. */
  function Collected(dirs: seq<ProjectDir>, groups: map<string, seq<Process.ClaudeProcess>>, now: int): (r: seq<Session>)
    ensures forall s :: s in r ==>
              (exists d :: d in dirs && d.isDir && PathCodec.DirNameToPath(d.name) == s.projectPath)
              && s.projectPath in groups && exists p :: p in groups[s.projectPath] && p.pid == s.pid
    decreases |dirs|
  {
    if dirs == [] then []
    else
      var last := dirs[|dirs| - 1];
      assert dirs == dirs[..|dirs| - 1] + [last];
      Collected(dirs[..|dirs| - 1], groups, now) + DirSessions(last, groups, now)
  }

  // ---------------------------------------------------------------- ordering and counting

  /** The comparator of the final sort: lower priority first, then the later
      `last_activity_at` string first. */
  predicate SessionBefore(a: Session, b: Session) {
    StatusSortPriority(a.status) < StatusSortPriority(b.status)
    || (StatusSortPriority(a.status) == StatusSortPriority(b.status) && StrLess(b.lastActivityAt, a.lastActivityAt))
  }

  lemma SessionBeforeIsStrictOrder()
    ensures StrictOrder(SessionBefore)
  {
    forall a ensures !SessionBefore(a, a) {
      StrLessIrreflexive(a.lastActivityAt);
    }
    forall a, b, c | SessionBefore(a, b) && SessionBefore(b, c)
      ensures SessionBefore(a, c)
    {
      if StatusSortPriority(a.status) == StatusSortPriority(b.status) == StatusSortPriority(c.status) {
        StrLessTransitive(c.lastActivityAt, b.lastActivityAt, a.lastActivityAt);
      }
    }
  }

  /** The waiting sessions: each waiting session as often as it occurs, nothing else. */
  function WaitingSessions(s: seq<Session>): (r: seq<Session>)
    ensures forall x :: multiset(r)[x] == if x.status == Waiting then multiset(s)[x] else 0
    decreases |s|
  {
    if s == [] then []
    else
      var last := s[|s| - 1];
      assert s == s[..|s| - 1] + [last];
      WaitingSessions(s[..|s| - 1]) + (if last.status == Waiting then [last] else [])
  }

  /** Reordering does not change the number of waiting sessions. */
  lemma WaitingCountPermutation(a: seq<Session>, b: seq<Session>)
    requires multiset(a) == multiset(b)
    ensures |WaitingSessions(a)| == |WaitingSessions(b)|
  {
    assert multiset(WaitingSessions(a)) == multiset(WaitingSessions(b));
    assert |multiset(WaitingSessions(a))| == |WaitingSessions(a)|;
    assert |multiset(WaitingSessions(b))| == |WaitingSessions(b)|;
  }

  /** The sort and the two counts. */
  function Respond(collected: seq<Session>): SessionsResponse {
    var sorted := SortBy(collected, SessionBefore);
    SessionsResponse(sorted, |sorted|, |WaitingSessions(sorted)|)
  }

  /** `get_sessions`, as a function of the snapshot. */
  function Sessions(snap: Snapshot): SessionsResponse {
    if !snap.projectsDirExists then SessionsResponse([], 0, 0)
    else Respond(Collected(snap.dirs, Groups(Process.Discovered(snap.table)), snap.now))
  }

  /** The body of the loop over the projects directory for one entry. */
  method CollectDir(dir: ProjectDir, groups: map<string, seq<Process.ClaudeProcess>>, now: int)
    returns (found: seq<Session>)
    ensures found == DirSessions(dir, groups, now)
  {
    found := [];
    if !dir.isDir {
      return;
    }
    var projectPath := PathCodec.ConvertDirNameToPath(dir.name);
    if projectPath !in groups {
      return;
    }
    var procs := groups[projectPath];
    var files := Candidates(dir.files);
    for index := 0 to |procs|
      invariant found == PairSessions(files, projectPath, procs[..index], now)
    {
      var session := FindSessionForProcess(files, projectPath, procs[index], index, now);
      PairSessionsSnoc(files, projectPath, procs, index, now);
      if session.Some? {
        found := found + [session.value];
      }
    }
    assert procs[..|procs|] == procs;
  }

  lemma PairSessionsSnoc(files: seq<LogFile>, projectPath: string, procs: seq<Process.ClaudeProcess>, i: nat, now: int)
    requires i < |procs|
    ensures PairSessions(files, projectPath, procs[..i + 1], now)
            == PairSessions(files, projectPath, procs[..i], now)
               + match FindSession(files, projectPath, procs[i], i, now)
                 case None => []
                 case Some(s) => [s]
  {
    assert procs[..i + 1][..i] == procs[..i];
  }

  /** The loop over the projects directory: each entry's sessions, in listing order. */
  method CollectAll(dirs: seq<ProjectDir>, groups: map<string, seq<Process.ClaudeProcess>>, now: int)
    returns (sessions: seq<Session>)
    ensures sessions == Collected(dirs, groups, now)
  {
    sessions := [];
    for i := 0 to |dirs|
      invariant sessions == Collected(dirs[..i], groups, now)
    {
      var found := CollectDir(dirs[i], groups, now);
      CollectedSnoc(dirs, i, groups, now);
      sessions := sessions + found;
    }
    assert dirs[..|dirs|] == dirs;
  }

  lemma CollectedSnoc(dirs: seq<ProjectDir>, i: nat, groups: map<string, seq<Process.ClaudeProcess>>, now: int)
    requires i < |dirs|
    ensures Collected(dirs[..i + 1], groups, now) == Collected(dirs[..i], groups, now) + DirSessions(dirs[i], groups, now)
  {
    assert dirs[..i + 1][..i] == dirs[..i];
  }

  /** `get_sessions`: discover the processes, group them by working directory, walk the
      projects directory pairing each group's processes with its logs, then sort and count. */
  method GetSessions(snap: Snapshot) returns (response: SessionsResponse)
    ensures response == Sessions(snap)
  {
    var processes := Process.FindClaudeProcesses(snap.table);
    var groups := GroupByCwd(processes);
    if !snap.projectsDirExists {
      return SessionsResponse([], 0, 0);
    }
    var sessions := CollectAll(snap.dirs, groups, snap.now);
    var sorted := SortBy(sessions, SessionBefore);
    response := SessionsResponse(sorted, |sorted|, |WaitingSessions(sorted)|);
  }

  // ---------------------------------------------------------------- properties of the response

  /** The response lists the collected sessions, reordered so that priorities never decrease
      and, within one priority, `last_activity_at` never increases; it counts them all and
      counts the waiting ones. */
  lemma RespondProperties(collected: seq<Session>)
    ensures var r := Respond(collected);
            multiset(r.sessions) == multiset(collected)
            && r.totalCount == |r.sessions| == |collected|
            && r.waitingCount == |WaitingSessions(collected)|
            && forall i, j :: 0 <= i < j < |r.sessions| ==>
                 StatusSortPriority(r.sessions[i].status) <= StatusSortPriority(r.sessions[j].status)
                 && (StatusSortPriority(r.sessions[i].status) == StatusSortPriority(r.sessions[j].status)
                     ==> !StrLess(r.sessions[i].lastActivityAt, r.sessions[j].lastActivityAt))
  {
    var sorted := SortBy(collected, SessionBefore);
    SessionBeforeIsStrictOrder();
    assert |multiset(sorted)| == |multiset(collected)|;
    WaitingCountPermutation(sorted, collected);
    forall i, j | 0 <= i < j < |sorted|
      ensures StatusSortPriority(sorted[i].status) <= StatusSortPriority(sorted[j].status)
      ensures StatusSortPriority(sorted[i].status) == StatusSortPriority(sorted[j].status)
              ==> !StrLess(sorted[i].lastActivityAt, sorted[j].lastActivityAt)
    {
      assert !SessionBefore(sorted[j], sorted[i]);
    }
  }

  /** A missing projects directory gives the empty response; otherwise every listed session
      belongs to a discovered process whose working directory is the session's project path,
      which is the decoded name of a directory in the listing. */
  lemma SessionsProvenance(snap: Snapshot)
    ensures !snap.projectsDirExists ==> Sessions(snap) == SessionsResponse([], 0, 0)
    ensures forall s :: s in Sessions(snap).sessions ==>
              (exists d :: d in snap.dirs && d.isDir && PathCodec.DirNameToPath(d.name) == s.projectPath)
              && exists p :: p in Process.Discovered(snap.table) && p.pid == s.pid && p.cwd == Some(s.projectPath)
  {
    if snap.projectsDirExists {
      var processes := Process.Discovered(snap.table);
      var groups := Groups(processes);
      var collected := Collected(snap.dirs, groups, snap.now);
      RespondProperties(collected);
      forall s | s in Sessions(snap).sessions
        ensures (exists d :: d in snap.dirs && d.isDir && PathCodec.DirNameToPath(d.name) == s.projectPath)
                && exists p :: p in processes && p.pid == s.pid && p.cwd == Some(s.projectPath)
      {
        assert s in multiset(Sessions(snap).sessions);
        assert s in collected;
        var p: Process.ClaudeProcess :| p in groups[s.projectPath] && p.pid == s.pid;
        assert p in ProcessesAt(processes, s.projectPath);
      }
    }
  }

  /** Each directory contributes at most one session per process working in it. */
  lemma DirSessionsBound(dir: ProjectDir, groups: map<string, seq<Process.ClaudeProcess>>, now: int)
    ensures |DirSessions(dir, groups, now)| <= if dir.isDir && PathCodec.DirNameToPath(dir.name) in groups
                                               then |groups[PathCodec.DirNameToPath(dir.name)]| else 0
  {
  }

  // ---------------------------------------------------------------- one session per process

  /** No pid is listed twice. */
  predicate UniqueSessionPids(sessions: seq<Session>) {
    forall i, j :: 0 <= i < j < |sessions| ==> sessions[i].pid != sessions[j].pid
  }

  /** No two directory entries decode to the same project path. */
  predicate DistinctDecodedDirs(dirs: seq<ProjectDir>) {
    forall i, j :: 0 <= i < j < |dirs| && dirs[i].isDir && dirs[j].isDir ==>
      PathCodec.DirNameToPath(dirs[i].name) != PathCodec.DirNameToPath(dirs[j].name)
  }

  lemma SameProcess(processes: seq<Process.ClaudeProcess>, p: Process.ClaudeProcess, q: Process.ClaudeProcess)
    requires Process.UniquePids(processes) && p in processes && q in processes
    ensures p.pid == q.pid ==> p == q
  {
    var i :| 0 <= i < |processes| && processes[i] == p;
    var j :| 0 <= j < |processes| && processes[j] == q;
    assert p.pid == q.pid ==> i == j;
  }

  /** Sessions found under two different working directories belong to two different processes. */
  lemma DifferentPathsDifferentPids(processes: seq<Process.ClaudeProcess>, s: Session, t: Session)
    requires Process.UniquePids(processes)
    requires s.projectPath in Groups(processes) && exists p :: p in Groups(processes)[s.projectPath] && p.pid == s.pid
    requires t.projectPath in Groups(processes) && exists q :: q in Groups(processes)[t.projectPath] && q.pid == t.pid
    requires s.projectPath != t.projectPath
    ensures s.pid != t.pid
  {
    var g := Groups(processes);
    var p: Process.ClaudeProcess :| p in g[s.projectPath] && p.pid == s.pid;
    var q: Process.ClaudeProcess :| q in g[t.projectPath] && q.pid == t.pid;
    assert p in ProcessesAt(processes, s.projectPath) && q in ProcessesAt(processes, t.projectPath);
    SameProcess(processes, p, q);
  }

  lemma ConcatUniquePids(a: seq<Session>, b: seq<Session>)
    requires UniqueSessionPids(a) && UniqueSessionPids(b)
    requires forall s, t :: s in a && t in b ==> s.pid != t.pid
    ensures UniqueSessionPids(a + b)
  {
    var c := a + b;
    forall i, j | 0 <= i < j < |c| ensures c[i].pid != c[j].pid {
      if j < |a| {
        assert c[i] == a[i] && c[j] == a[j];
      } else if i >= |a| {
        assert c[i] == b[i - |a|] && c[j] == b[j - |a|];
      } else {
        assert c[i] in a && c[j] in b;
      }
    }
  }

  lemma {:induction false} ProcessesAtUnique(processes: seq<Process.ClaudeProcess>, cwd: string)
    requires Process.UniquePids(processes)
    ensures Process.UniquePids(ProcessesAt(processes, cwd))
    decreases |processes|
  {
    if processes != [] {
      var n := |processes| - 1;
      var front := processes[..n];
      assert Process.UniquePids(front);
      ProcessesAtUnique(front, cwd);
      var r0 := ProcessesAt(front, cwd);
      var r := ProcessesAt(processes, cwd);
      forall a, b | 0 <= a < b < |r| ensures r[a].pid != r[b].pid {
        if b < |r0| {
          assert r[a] == r0[a] && r[b] == r0[b];
        } else {
          assert r[b] == processes[n];
          assert r[a] == r0[a] && r0[a] in front;
          var k :| 0 <= k < n && front[k] == r0[a];
          assert processes[k] == r0[a];
        }
      }
    }
  }

  /** One directory never lists a process twice. */
  lemma {:induction false} PairSessionsUnique(files: seq<LogFile>, projectPath: string,
                                              procs: seq<Process.ClaudeProcess>, now: int)
    requires Process.UniquePids(procs)
    ensures UniqueSessionPids(PairSessions(files, projectPath, procs, now))
    decreases |procs|
  {
    if procs != [] {
      var n := |procs| - 1;
      var init := procs[..n];
      assert Process.UniquePids(init);
      PairSessionsUnique(files, projectPath, init, now);
      var front := PairSessions(files, projectPath, init, now);
      match FindSession(files, projectPath, procs[n], n, now) {
        case None =>
        case Some(s) =>
          FindSessionIdentity(files, projectPath, procs[n], n, now);
          forall t | t in front ensures t.pid != s.pid {
            var p :| p in init && p.pid == t.pid && p.cpuHigh == t.cpuHigh;
            var k :| 0 <= k < n && init[k] == p;
            assert procs[k] == p;
          }
          ConcatUniquePids(front, [s]);
      }
    }
  }

  lemma DirSessionsUnique(dir: ProjectDir, processes: seq<Process.ClaudeProcess>, now: int)
    requires Process.UniquePids(processes)
    ensures UniqueSessionPids(DirSessions(dir, Groups(processes), now))
  {
    var g := Groups(processes);
    if dir.isDir && PathCodec.DirNameToPath(dir.name) in g {
      var path := PathCodec.DirNameToPath(dir.name);
      ProcessesAtUnique(processes, path);
      PairSessionsUnique(Candidates(dir.files), path, g[path], now);
    }
  }

  /** When no two directories decode to the same path, no process is listed twice. */
  lemma {:induction false} CollectedUniquePids(dirs: seq<ProjectDir>, processes: seq<Process.ClaudeProcess>, now: int)
    requires Process.UniquePids(processes) && DistinctDecodedDirs(dirs)
    ensures UniqueSessionPids(Collected(dirs, Groups(processes), now))
    decreases |dirs|
  {
    if dirs != [] {
      var g := Groups(processes);
      var n := |dirs| - 1;
      var front, last := dirs[..n], dirs[n];
      assert DistinctDecodedDirs(front);
      CollectedUniquePids(front, processes, now);
      DirSessionsUnique(last, processes, now);
      var a, b := Collected(front, g, now), DirSessions(last, g, now);
      forall s, t | s in a && t in b ensures s.pid != t.pid {
        var d :| d in front && d.isDir && PathCodec.DirNameToPath(d.name) == s.projectPath;
        var k :| 0 <= k < n && front[k] == d;
        assert dirs[k] == d;
        DifferentPathsDifferentPids(processes, s, t);
      }
      ConcatUniquePids(a, b);
    }
  }

  /** A value occurring at two positions occurs at least twice in the multiset. */
  lemma TwiceInMultiset<T>(a: seq<T>, i: nat, j: nat)
    requires i < j < |a| && a[i] == a[j]
    ensures multiset(a)[a[i]] >= 2
  {
    assert a == a[..j] + [a[j]] + a[j + 1..];
    assert a[i] in a[..j];
  }

  lemma {:induction false} UniqueAtMostOnce(b: seq<Session>, x: Session)
    requires UniqueSessionPids(b)
    ensures multiset(b)[x] <= 1
    decreases |b|
  {
    if b != [] {
      var n := |b| - 1;
      assert b == b[..n] + [b[n]];
      assert UniqueSessionPids(b[..n]);
      UniqueAtMostOnce(b[..n], x);
      if b[n] == x {
        assert x !in b[..n] by {
          forall k | 0 <= k < n ensures b[..n][k] != x {
            assert b[k].pid != b[n].pid;
          }
        }
      }
    }
  }

  /** Reordering keeps pids unique. */
  lemma PermutationKeepsUniquePids(a: seq<Session>, b: seq<Session>)
    requires multiset(a) == multiset(b) && UniqueSessionPids(b)
    ensures UniqueSessionPids(a)
  {
    forall i, j | 0 <= i < j < |a| ensures a[i].pid != a[j].pid {
      if a[i] == a[j] {
        TwiceInMultiset(a, i, j);
        UniqueAtMostOnce(b, a[i]);
        assert false;
      }
      assert a[i] in multiset(b) && a[j] in multiset(b);
      var k :| 0 <= k < |b| && b[k] == a[i];
      var l :| 0 <= l < |b| && b[l] == a[j];
      assert k != l;
    }
  }

  /** When the process table has unique pids and no two directories decode to the same path,
      `get_sessions` lists each process at most once. */
  lemma SessionsUniquePids(snap: Snapshot)
    requires Process.DistinctPids(snap.table) && DistinctDecodedDirs(snap.dirs)
    ensures UniqueSessionPids(Sessions(snap).sessions)
  {
    if snap.projectsDirExists {
      var processes := Process.Discovered(snap.table);
      Process.DiscoveredDistinct(snap.table);
      CollectedUniquePids(snap.dirs, processes, snap.now);
      var collected := Collected(snap.dirs, Groups(processes), snap.now);
      RespondProperties(collected);
      PermutationKeepsUniquePids(Respond(collected).sessions, collected);
    }
  }

  /** As written, two directories `m-y` and `m-y-` (`Projects-a` and `Projects-a-`) with the
      same logs both decode to `/m/y`: every session found for the first is listed twice. */
  lemma CollidingDirectoriesListTwice(snap: Snapshot, m: string, y: string, files: seq<LogFile>)
    requires PathCodec.IsMarker(m) && y != [] && '-' !in y
    requires snap.projectsDirExists
    requires snap.dirs == [ProjectDir(m + "-" + y, true, files), ProjectDir(m + "-" + y + "-", true, files)]
    ensures forall s :: s in DirSessions(snap.dirs[0], Groups(Process.Discovered(snap.table)), snap.now) ==>
              multiset(Sessions(snap).sessions)[s] >= 2
  {
    var g := Groups(Process.Discovered(snap.table));
    PathCodec.MarkerThenName(m, y);
    var once := DirSessions(snap.dirs[0], g, snap.now);
    assert DirSessions(snap.dirs[1], g, snap.now) == once;
    var collected := Collected(snap.dirs, g, snap.now);
    assert snap.dirs[..1] == [snap.dirs[0]];
    assert Collected(snap.dirs[..1], g, snap.now) == once by {
      assert snap.dirs[..1][..0] == [];
    }
    assert collected == once + once;
    RespondProperties(collected);
    forall s | s in once ensures multiset(Sessions(snap).sessions)[s] >= 2 {
      assert multiset(collected)[s] == 2 * multiset(once)[s];
    }
  }

  /** The intended collection: a directory whose decoded path an earlier directory already
      had is skipped, so each working directory is paired once. */
  function CollectedOnce(dirs: seq<ProjectDir>, groups: map<string, seq<Process.ClaudeProcess>>, now: int)
    : (r: seq<Session>)
    ensures forall s :: s in r ==>
              (exists d :: d in dirs && d.isDir && PathCodec.DirNameToPath(d.name) == s.projectPath)
              && s.projectPath in groups && exists p :: p in groups[s.projectPath] && p.pid == s.pid
    decreases |dirs|
  {
    if dirs == [] then []
    else
      var front, last := dirs[..|dirs| - 1], dirs[|dirs| - 1];
      assert dirs == front + [last];
      if DecodedEarlier(front, last) then CollectedOnce(front, groups, now)
      else CollectedOnce(front, groups, now) + DirSessions(last, groups, now)
  }

  predicate DecodedEarlier(front: seq<ProjectDir>, last: ProjectDir) {
    last.isDir
    && exists d :: d in front && d.isDir && PathCodec.DirNameToPath(d.name) == PathCodec.DirNameToPath(last.name)
  }

  /** `get_sessions` with the intended collection. */
  function SessionsOnce(snap: Snapshot): SessionsResponse {
    if !snap.projectsDirExists then SessionsResponse([], 0, 0)
    else Respond(CollectedOnce(snap.dirs, Groups(Process.Discovered(snap.table)), snap.now))
  }

  /** Where no two directories decode to the same path, the intended collection is the
      collection as written. */
  lemma {:induction false} CollectedOnceAgrees(dirs: seq<ProjectDir>, groups: map<string, seq<Process.ClaudeProcess>>, now: int)
    requires DistinctDecodedDirs(dirs)
    ensures CollectedOnce(dirs, groups, now) == Collected(dirs, groups, now)
    decreases |dirs|
  {
    if dirs != [] {
      var n := |dirs| - 1;
      var front, last := dirs[..n], dirs[n];
      assert DistinctDecodedDirs(front);
      CollectedOnceAgrees(front, groups, now);
    }
  }

  lemma {:induction false} CollectedOnceUniquePids(dirs: seq<ProjectDir>, processes: seq<Process.ClaudeProcess>, now: int)
    requires Process.UniquePids(processes)
    ensures UniqueSessionPids(CollectedOnce(dirs, Groups(processes), now))
    decreases |dirs|
  {
    if dirs != [] {
      var g := Groups(processes);
      var n := |dirs| - 1;
      var front, last := dirs[..n], dirs[n];
      CollectedOnceUniquePids(front, processes, now);
      if !DecodedEarlier(front, last) {
        DirSessionsUnique(last, processes, now);
        var a, b := CollectedOnce(front, g, now), DirSessions(last, g, now);
        forall s, t | s in a && t in b ensures s.pid != t.pid {
          DifferentPathsDifferentPids(processes, s, t);
        }
        ConcatUniquePids(a, b);
      }
    }
  }

  /** With the intended collection, a process table with unique pids gives a response that lists
      each process at most once, whatever the directory names; and where the names decode
      apart, the response is the one `get_sessions` gives. */
  lemma SessionsOnceProperties(snap: Snapshot)
    requires Process.DistinctPids(snap.table)
    ensures UniqueSessionPids(SessionsOnce(snap).sessions)
    ensures DistinctDecodedDirs(snap.dirs) ==> SessionsOnce(snap) == Sessions(snap)
  {
    if snap.projectsDirExists {
      var processes := Process.Discovered(snap.table);
      Process.DiscoveredDistinct(snap.table);
      CollectedOnceUniquePids(snap.dirs, processes, snap.now);
      var collected := CollectedOnce(snap.dirs, Groups(processes), snap.now);
      RespondProperties(collected);
      PermutationKeepsUniquePids(Respond(collected).sessions, collected);
      if DistinctDecodedDirs(snap.dirs) {
        CollectedOnceAgrees(snap.dirs, Groups(processes), snap.now);
      }
    }
  }

  // ---------------------------------------------------------------- the older aggregator

  /** The older pairing: the i-th process looks at the i-th of the logs the older choice keeps;
      a parse that panics aborts the whole call. */
  function LegacyPairSessions(files: seq<LogFile>, projectPath: string, procs: seq<Process.ClaudeProcess>, now: int)
    : (r: Result<seq<Session>>)
    ensures r.Success? ==> |r.value| <= |procs|
    ensures r.Success? ==> forall s :: s in r.value ==> s.projectPath == projectPath
    decreases |procs|
  {
    if procs == [] then Success([])
    else
      var n := |procs| - 1;
      match LegacyPairSessions(files, projectPath, procs[..n], now)
      case Failure(e) => Failure(e)
      case Success(front) =>
        match LegacyFindSession(files, projectPath, procs[n], n, now)
        case Failure(e) => Failure(e)
        case Success(None) => Success(front)
        case Success(Some(s)) => Success(front + [s])
  }

  /** The body of the older loop for one entry: at most one session per process working in the
      decoded directory, each recording that directory as its project path. */
  function LegacyDirSessions(dir: ProjectDir, groups: map<string, seq<Process.ClaudeProcess>>, now: int)
    : (r: Result<seq<Session>>)
    ensures r.Success? ==> |r.value| <= if dir.isDir && PathCodec.DirNameToPath(dir.name) in groups
                                         then |groups[PathCodec.DirNameToPath(dir.name)]| else 0
    ensures r.Success? ==> forall s :: s in r.value ==> dir.isDir && s.projectPath == PathCodec.DirNameToPath(dir.name)
  {
    if !dir.isDir then Success([])
    else
      var path := PathCodec.DirNameToPath(dir.name);
      if path !in groups then Success([])
      else LegacyPairSessions(LegacyRecentFiles(dir.files, |groups[path]|, now), path, groups[path], now)
  }

  /** The older loop over the projects directory: every session collected comes from a listed
      directory whose decoded name is its project path; the first panic aborts the loop. */
  function LegacyCollected(dirs: seq<ProjectDir>, groups: map<string, seq<Process.ClaudeProcess>>, now: int)
    : (r: Result<seq<Session>>)
    ensures r.Success? ==> forall s :: s in r.value ==>
              exists d :: d in dirs && d.isDir && PathCodec.DirNameToPath(d.name) == s.projectPath
    decreases |dirs|
  {
    if dirs == [] then Success([])
    else
      var last := dirs[|dirs| - 1];
      assert forall d :: d in dirs[..|dirs| - 1] ==> d in dirs;
      match LegacyCollected(dirs[..|dirs| - 1], groups, now)
      case Failure(e) => Failure(e)
      case Success(front) =>
        match LegacyDirSessions(last, groups, now)
        case Failure(e) => Failure(e)
        case Success(more) => Success(front + more)
  }

  /** The older `get_sessions`: the older process filter, the older log choice and parse, the
      same sort and counts; `Failure` when a preview cut panics. */
  function LegacySessions(snap: Snapshot): Result<SessionsResponse> {
    if !snap.projectsDirExists then Success(SessionsResponse([], 0, 0))
    else
      match LegacyCollected(snap.dirs, Groups(Process.LegacyDiscovered(snap.table)), snap.now)
      case Failure(e) => Failure(e)
      case Success(collected) => Success(Respond(collected))
  }

  /** When the older aggregator does not panic its response is sorted and counted exactly like
      the newer one's: it lists the sessions the older loop collected, reordered so that
      priorities never decrease and, within one priority, `last_activity_at` never increases. */
  lemma LegacySessionsResponse(snap: Snapshot)
    requires LegacySessions(snap).Success?
    ensures var r := LegacySessions(snap).value;
            r.totalCount == |r.sessions|
            && r.waitingCount == |WaitingSessions(r.sessions)|
            && (!snap.projectsDirExists ==> r.sessions == [])
            && (snap.projectsDirExists ==>
                  multiset(r.sessions)
                  == multiset(LegacyCollected(snap.dirs, Groups(Process.LegacyDiscovered(snap.table)), snap.now).value))
            && forall i, j :: 0 <= i < j < |r.sessions| ==>
                 StatusSortPriority(r.sessions[i].status) <= StatusSortPriority(r.sessions[j].status)
                 && (StatusSortPriority(r.sessions[i].status) == StatusSortPriority(r.sessions[j].status)
                     ==> !StrLess(r.sessions[i].lastActivityAt, r.sessions[j].lastActivityAt))
  {
    if snap.projectsDirExists {
      var collected := LegacyCollected(snap.dirs, Groups(Process.LegacyDiscovered(snap.table)), snap.now).value;
      RespondProperties(collected);
      WaitingCountPermutation(Respond(collected).sessions, collected);
    }
  }
}
