/** The pure helpers of the session card (src/components/SessionCard.tsx): the relative time
    label, the home-directory abbreviation, and the status label lookup. Times are integer
    milliseconds; `diffMs` is "now" minus the activity timestamp. */
module SessionCard {
  import opened Wrappers
  import opened Strs
  import opened Model
  import Status

  const MinuteMs: int := 60000
  const HourMs: int := 3600000
  const DayMs: int := 86400000

  // ---------------------------------------------------------------- formatTimeAgo

  /** `formatTimeAgo`: whole minutes under an hour, whole hours under a day, else whole days;
      under a minute (or in the future) is "just now". `Math.floor` of a quotient by a positive
      divisor is Dafny's `/`. */
  function FormatTimeAgo(diffMs: int): string {
    var mins := diffMs / 60000;
    if mins < 1 then "just now"
    else if mins < 60 then NatToString(mins) + "m ago"
    else
      var hours := mins / 60;
      if hours < 24 then NatToString(hours) + "h ago"
      else NatToString(hours / 24) + "d ago"
  }

  /** Whole hours counted through whole minutes are whole hours. */
  lemma MinutesToHours(x: int)
    ensures (x / 60000) / 60 == x / 3600000
  {
    var q, r := x / 3600000, x % 3600000;
    var s, t := r / 60000, r % 60000;
    assert x == 60000 * (60 * q + s) + t;
    assert x / 60000 == 60 * q + s;
  }

  /** Whole days counted through whole hours are whole days. */
  lemma HoursToDays(x: int)
    ensures (x / 3600000) / 24 == x / 86400000
  {
    var q, r := x / 86400000, x % 86400000;
    var s, t := r / 3600000, r % 3600000;
    assert x == 3600000 * (24 * q + s) + t;
    assert x / 3600000 == 24 * q + s;
  }

  /** What the label says: the number shown is the elapsed time in whole minutes, hours or
      days, each label used for exactly its range. */
  lemma FormatTimeAgoMeaning(diffMs: int)
    ensures diffMs < MinuteMs <==> FormatTimeAgo(diffMs) == "just now"
    ensures MinuteMs <= diffMs < HourMs ==> FormatTimeAgo(diffMs) == NatToString(diffMs / MinuteMs) + "m ago"
    ensures HourMs <= diffMs < DayMs ==> FormatTimeAgo(diffMs) == NatToString(diffMs / HourMs) + "h ago"
    ensures DayMs <= diffMs ==> FormatTimeAgo(diffMs) == NatToString(diffMs / DayMs) + "d ago"
  {
    MinutesToHours(diffMs);
    HoursToDays(diffMs);
    var r := FormatTimeAgo(diffMs);
    if diffMs >= MinuteMs {
      assert r[|r| - 1] == 'o' && r[|r| - 2] == 'g';
      assert "just now"[|"just now"| - 1] == 'w';
    }
  }

  /** The four cases of `src/__tests__/formatters.test.ts`: 30 seconds, 15 minutes, 3 hours and
      3 days ago. */
  lemma FormatTimeAgoExamples()
    ensures FormatTimeAgo(30000) == "just now"
    ensures FormatTimeAgo(900000) == "15m ago"
    ensures FormatTimeAgo(10800000) == "3h ago"
    ensures FormatTimeAgo(259200000) == "3d ago"
  {
    FifteenMinutes();
    ThreeHours();
    ThreeDays();
  }

  lemma FifteenMinutes()
    ensures FormatTimeAgo(900000) == "15m ago"
  {
    FormatTimeAgoMeaning(900000);
    assert 900000 / MinuteMs == 15;
    assert NatToString(15) == NatToString(1) + [DigitChar(5)];
  }

  lemma ThreeHours()
    ensures FormatTimeAgo(10800000) == "3h ago"
  {
    FormatTimeAgoMeaning(10800000);
    assert 10800000 / HourMs == 3;
  }

  lemma ThreeDays()
    ensures FormatTimeAgo(259200000) == "3d ago"
  {
    FormatTimeAgoMeaning(259200000);
    assert 259200000 / DayMs == 3;
  }

  // ---------------------------------------------------------------- truncatePath

  /** The number of leading characters of `s` that are not `/`. */
  function SegmentLength(s: string): (k: nat)
    ensures k <= |s| && '/' !in s[..k]
    ensures k < |s| ==> s[k] == '/'
    decreases |s|
  {
    if s == [] || s[0] == '/' then 0
    else
      var k := SegmentLength(s[1..]);
      assert s[..k + 1] == [s[0]] + s[1..][..k];
      k + 1
  }

  const HomePrefix: string := "/Users/"

  /** `path.replace(/^\/Users\/[^/]+/, '~')`: a leading `/Users/` and the longest non-empty
      run of non-`/` characters after it become `~`; any other path is unchanged. */
  function TruncatePath(path: string): string {
    if |path| >= 7 && path[..7] == HomePrefix && SegmentLength(path[7..]) >= 1 then
      "~" + path[7 + SegmentLength(path[7..])..]
    else path
  }

  /** A home directory path loses its `/Users/<name>` prefix, hyphens in the name included. */
  lemma TruncateHome(user: string, rest: string)
    requires user != [] && '/' !in user
    requires rest == [] || rest[0] == '/'
    ensures TruncatePath(HomePrefix + user + rest) == "~" + rest
  {
    var path := HomePrefix + user + rest;
    assert path[..7] == HomePrefix;
    assert path[7..] == user + rest;
    SegmentOfUser(user, rest);
    assert path[7 + |user|..] == rest;
  }

  lemma {:induction false} SegmentOfUser(user: string, rest: string)
    requires '/' !in user
    requires rest == [] || rest[0] == '/'
    ensures SegmentLength(user + rest) == |user|
    decreases |user|
  {
    if user == [] {
      assert user + rest == rest;
    } else {
      assert (user + rest)[1..] == user[1..] + rest;
      SegmentOfUser(user[1..], rest);
    }
  }

  /** A path that does not start with `/Users/` followed by a non-`/` character is returned
      unchanged, and a changed path always starts with `~` followed by nothing or a `/`. */
  lemma TruncatePathShape(path: string)
    ensures !(|path| > 7 && path[..7] == HomePrefix && path[7] != '/') ==> TruncatePath(path) == path
    ensures TruncatePath(path) != path ==>
              var r := TruncatePath(path);
              r[0] == '~' && (|r| == 1 || r[1] == '/')
  {
    if |path| >= 7 && path[..7] == HomePrefix {
      var k := SegmentLength(path[7..]);
      if k >= 1 {
        assert path[7..][0] == path[7];
        var r := TruncatePath(path);
        if |r| > 1 {
          assert r[1] == path[7..][k];
        }
      }
    }
  }

  /** The cases of `src/__tests__/formatters.test.ts`: a home path with a hyphenated user name,
      and a path elsewhere. */
  lemma TruncatePathExamples()
    ensures TruncatePath(HomePrefix + "john-doe" + "/Projects/app") == "~/Projects/app"
    ensures TruncatePath("/tmp/project") == "/tmp/project"
  {
    var user, rest := "john-doe", "/Projects/app";
    assert forall i :: 0 <= i < |user| ==> user[i] != '/';
    TruncateHome(user, rest);
    OutsideHome("/tmp/project");
  }

  /** A path whose second character is not the `U` of `/Users/` is left alone. */
  lemma OutsideHome(path: string)
    requires |path| >= 2 && path[1] != 'U'
    ensures TruncatePath(path) == path
  {
    if |path| >= 7 {
      assert path[..7][1] != HomePrefix[1];
    }
  }

  // ---------------------------------------------------------------- the status label

  /** `statusConfig[session.status].label` as written: the table has no entry for `thinking`,
      so the lookup is `undefined` and the card fails when it reads the entry's fields. */
  function StatusLabelAsWritten(status: SessionStatus): (r: Option<string>)
    ensures r.None? <==> status == Thinking
  {
    match status
    case Waiting => Some("Waiting for input")
    case Processing => Some("Processing")
    case Idle => Some("Idle")
    case Thinking => None
  }

  /** The backend does produce `thinking`: a newest user message that is neither a local
      command nor answered by a tool result is shown with no table entry. */
  lemma ThinkingHasNoEntry(hasToolResult: bool, fileRecentlyModified: bool)
    requires !hasToolResult || fileRecentlyModified
    ensures StatusLabelAsWritten(
              Status.DetermineStatus(Some("user"), false, hasToolResult, false, fileRecentlyModified)).None?
  {
  }

  /** The intended table: every status has a label, `thinking` gets the "Thinking..." that
      `src/__tests__/formatters.test.ts` expects, and the written entries are kept. */
  function StatusLabel(status: SessionStatus): (text: string)
    ensures StatusLabelAsWritten(status).Some? ==> text == StatusLabelAsWritten(status).value
    ensures status == Thinking ==> text == "Thinking..."
  {
    match status
    case Waiting => "Waiting for input"
    case Processing => "Processing"
    case Idle => "Idle"
    case Thinking => "Thinking..."
  }

  /** Different statuses get different labels. */
  lemma StatusLabelInjective(a: SessionStatus, b: SessionStatus)
    requires StatusLabel(a) == StatusLabel(b)
    ensures a == b
  {
    var la, lb := StatusLabel(a), StatusLabel(b);
    assert la[0] == lb[0] && |la| == |lb|;
  }
}
