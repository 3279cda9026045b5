/** The project-directory decoder `convert_dir_name_to_path` (src-tauri/src/session/parser.rs,
    identical in src-tauri/src/session.rs). The CLI names each project's log directory after the
    project path with every `/` turned into `-`; the decoder guesses the path back. Everything up
    to the first `Projects` or `UnityProjects` part is a directory level; after it, single dashes
    are kept inside the project name and a double dash opens a hidden (dot) folder whose
    following parts are sub-folders. */
module PathCodec {
  import opened Wrappers
  import opened Strs

  predicate IsMarker(part: string) {
    part == "Projects" || part == "UnityProjects"
  }

  /** `parts.iter().position(|&p| p == "Projects" || p == "UnityProjects")`. */
  function FindMarker(parts: seq<string>): (r: Option<nat>)
    ensures r.Some? ==> r.value < |parts| && IsMarker(parts[r.value])
                        && forall j :: 0 <= j < r.value ==> !IsMarker(parts[j])
    ensures r.None? ==> forall j :: 0 <= j < |parts| ==> !IsMarker(parts[j])
    decreases |parts|
  {
    if parts == [] then None
    else if IsMarker(parts[0]) then Some(0)
    else
      match FindMarker(parts[1..])
      case None => None
      case Some(k) => Some(k + 1)
  }

  /** `strip_prefix('-').unwrap_or(..)`: at most one leading dash is removed. */
  function StripLeadingDash(s: string): (r: string)
    ensures s == r || s == ['-'] + r
  {
    if |s| > 0 && s[0] == '-' then s[1..] else s
  }

  // ---------------------------------------------------------------- the tail state machine

  /** The loop state over the parts after the marker: `in_hidden_folder`, `current_segment`
      and the finished `segments`. */
  datatype TailState = TailState(inHidden: bool, current: string, segments: seq<string>)

  predicate NoEmpty(parts: seq<string>) {
    forall i :: 0 <= i < |parts| ==> parts[i] != ""
  }

  /** One iteration of the loop. An empty part (a double dash) closes the current segment and
      enters hidden mode; in hidden mode the first part gets a dot and each later part starts a
      new segment; outside it parts are glued back together with `-`. */
  function Step(st: TailState, part: string): (r: TailState)
    ensures NoEmpty(st.segments) ==> NoEmpty(r.segments)
    ensures r.segments == st.segments || r.segments == st.segments + [st.current]
    ensures part != "" ==> r.current != ""
  {
    if part == "" then
      TailState(true, "", if st.current != "" then st.segments + [st.current] else st.segments)
    else if st.inHidden then
      if st.current == "" then TailState(true, "." + part, st.segments)
      else TailState(true, part, st.segments + [st.current])
    else
      if st.current == "" then TailState(false, part, st.segments)
      else TailState(false, st.current + "-" + part, st.segments)
  }

  /** The loop run over `parts` from state `st`. */
  function Fold(st: TailState, parts: seq<string>): (r: TailState)
    ensures NoEmpty(st.segments) ==> NoEmpty(r.segments)
    decreases |parts|
  {
    if parts == [] then st else Fold(Step(st, parts[0]), parts[1..])
  }

  /** After the loop a non-empty current segment is pushed. */
  function Finish(st: TailState): (segments: seq<string>)
    ensures NoEmpty(st.segments) ==> NoEmpty(segments)
  {
    if st.current != "" then st.segments + [st.current] else st.segments
  }

  /** The `/`-separated folders the parts after the marker decode to; none of them is empty. */
  function ProjectSegments(tail: seq<string>): (segments: seq<string>)
    ensures NoEmpty(segments)
  {
    Finish(Fold(TailState(false, "", []), tail))
  }

  // ---------------------------------------------------------------- the decoder

  /** The decoded path, as a function of the directory name. */
  function DirNameToPath(dirName: string): (path: string)
    ensures |path| >= 1 && path[0] == '/'
  {
    var name := StripLeadingDash(dirName);
    var parts := Split(name, '-');
    match FindMarker(parts)
    case None => "/" + ReplaceChar(name, '-', '/')
    case Some(idx) =>
      var head := "/" + Join(parts[..idx + 1], "/");
      if idx + 1 < |parts| then head + "/" + Join(ProjectSegments(parts[idx + 1..]), "/") else head
  }

  /** `convert_dir_name_to_path`. `split` never yields an empty list, so the source's
      `parts.is_empty()` early return is unreachable and not written here. */
  method ConvertDirNameToPath(dirName: string) returns (path: string)
    ensures path == DirNameToPath(dirName)
  {
    var name := StripLeadingDash(dirName);
    var parts := Split(name, '-');
    var marker := FindMarker(parts);
    if marker.None? {
      path := "/" + ReplaceChar(name, '-', '/');
      assert path == DirNameToPath(dirName);
      return;
    }
    var idx := marker.value;
    var head := "/" + Join(parts[..idx + 1], "/");
    var projectParts := parts[idx + 1..];
    if |projectParts| > 0 {
      var segments := DecodeProjectParts(projectParts);
      path := head + "/" + Join(segments, "/");
    } else {
      path := head;
    }
    assert DirNameToPath(dirName) == if idx + 1 < |parts| then head + "/" + Join(ProjectSegments(projectParts), "/") else head;
  }

  /** The loop over the parts after the marker, with `in_hidden_folder`, `current_segment` and
      `segments`, and the final push of a pending segment. */
  method DecodeProjectParts(projectParts: seq<string>) returns (segments: seq<string>)
    ensures segments == ProjectSegments(projectParts)
  {
    var inHidden := false;
    segments := [];
    var current := "";
    var i := 0;
    while i < |projectParts|
      invariant 0 <= i <= |projectParts|
      invariant Finish(Fold(TailState(inHidden, current, segments), projectParts[i..]))
             == ProjectSegments(projectParts)
    {
      var part := projectParts[i];
      assert projectParts[i..][1..] == projectParts[i + 1..];
      if part == "" {
        if current != "" {
          segments := segments + [current];
          current := "";
        }
        inHidden := true;
      } else if inHidden {
        if current == "" {
          current := "." + part;
        } else {
          segments := segments + [current];
          current := part;
        }
      } else {
        if current == "" {
          current := part;
        } else {
          current := current + "-" + part;
        }
      }
      i := i + 1;
    }
    if current != "" {
      segments := segments + [current];
    }
  }

  // ---------------------------------------------------------------- properties

  lemma JoinCons(a: string, rest: seq<string>, sep: string)
    ensures Join([a] + rest, sep) == if rest == [] then a else a + sep + Join(rest, sep)
  {
    assert ([a] + rest)[1..] == rest;
  }

  /** Replacing every `a` by `b` is splitting at `a` and joining with `b`. */
  lemma {:induction false} SplitJoinIsReplace(s: string, a: char, b: char)
    ensures Join(Split(s, a), [b]) == ReplaceChar(s, a, b)
    decreases |s|
  {
    if s != [] {
      var t := s[1..];
      var rest := Split(t, a);
      SplitJoinIsReplace(t, a, b);
      ReplaceCons(s, a, b);
      if s[0] == a {
        assert Split(s, a) == [""] + rest;
        JoinCons("", rest, [b]);
      } else {
        assert Split(s, a) == [[s[0]] + rest[0]] + rest[1..];
        assert rest == [rest[0]] + rest[1..];
        JoinCons([s[0]] + rest[0], rest[1..], [b]);
        JoinCons(rest[0], rest[1..], [b]);
      }
    }
  }

  lemma ReplaceCons(s: string, a: char, b: char)
    requires s != []
    ensures ReplaceChar(s, a, b) == [if s[0] == a then b else s[0]] + ReplaceChar(s[1..], a, b)
  {
  }

  /** Without a marker part every dash is a directory separator: the result is `/` followed by
      the dash-separated parts joined with `/`. */
  lemma DecodeWithoutMarker(dirName: string)
    requires FindMarker(Split(StripLeadingDash(dirName), '-')).None?
    ensures DirNameToPath(dirName) == "/" + Join(Split(StripLeadingDash(dirName), '-'), "/")
  {
    SplitJoinIsReplace(StripLeadingDash(dirName), '-', '/');
  }

  /** With a marker, the parts up to and including the first marker are directory levels; if
      the marker is the last part nothing else follows. */
  lemma DecodeWithMarker(dirName: string)
    requires FindMarker(Split(StripLeadingDash(dirName), '-')).Some?
    ensures var parts := Split(StripLeadingDash(dirName), '-');
            var idx := FindMarker(parts).value;
            var head := "/" + Join(parts[..idx + 1], "/");
            head <= DirNameToPath(dirName)
            && (DirNameToPath(dirName) == head <==> idx == |parts| - 1)
  {
    var parts := Split(StripLeadingDash(dirName), '-');
    var idx := FindMarker(parts).value;
    var head := "/" + Join(parts[..idx + 1], "/");
    var r := DirNameToPath(dirName);
    if idx + 1 < |parts| {
      var rest := "/" + Join(ProjectSegments(parts[idx + 1..]), "/");
      assert r == head + rest;
      PrefixOfConcat(head, rest);
    } else {
      assert r == head;
    }
  }

  /** A dash at the end of a name whose marker is followed by project parts changes nothing:
      it only adds an empty last part, which closes the pending folder as the end of the loop
      would. */
  lemma TrailingDashIgnored(dirName: string)
    requires dirName != []
    requires var parts := Split(StripLeadingDash(dirName), '-');
             FindMarker(parts).Some? && FindMarker(parts).value + 1 < |parts|
    ensures DirNameToPath(dirName + "-") == DirNameToPath(dirName)
  {
    var name := StripLeadingDash(dirName);
    var parts := Split(name, '-');
    var idx := FindMarker(parts).value;
    assert StripLeadingDash(dirName + "-") == name + "-" by {
      assert (dirName + "-")[0] == dirName[0];
      if dirName[0] == '-' {
        assert (dirName + "-")[1..] == dirName[1..] + "-";
      }
    }
    SplitTrailing(name, '-');
    var longer := parts + [""];
    FindMarkerAppend(parts, "");
    assert longer[idx + 1..] == parts[idx + 1..] + [""];
    assert longer[..idx + 1] == parts[..idx + 1];
    TrailingEmptyPart(parts[idx + 1..]);
  }

  lemma {:induction false} FindMarkerAppend(parts: seq<string>, x: string)
    requires FindMarker(parts).Some?
    ensures FindMarker(parts + [x]) == FindMarker(parts)
    decreases |parts|
  {
    assert (parts + [x])[0] == parts[0];
    if !IsMarker(parts[0]) {
      assert (parts + [x])[1..] == parts[1..] + [x];
      FindMarkerAppend(parts[1..], x);
    }
  }

  /** An empty last part decodes to no folder. */
  lemma TrailingEmptyPart(tail: seq<string>)
    ensures ProjectSegments(tail + [""]) == ProjectSegments(tail)
  {
    var st := Fold(TailState(false, "", []), tail);
    FoldAppend(TailState(false, "", []), tail, [""]);
    assert [""][1..] == [];
    assert Fold(st, [""]) == Step(st, "");
  }

  /** A marker, a dash and a name without dashes decode to the marker's folder and that name,
      with or without a dash at the end: `Projects-a` and `Projects-a-` both decode to
      `/Projects/a`. */
  lemma MarkerThenName(m: string, y: string)
    requires IsMarker(m) && y != [] && '-' !in y
    ensures DirNameToPath(m + "-" + y) == "/" + m + "/" + y
    ensures DirNameToPath(m + "-" + y + "-") == "/" + m + "/" + y
  {
    var name := m + "-" + y;
    assert '-' !in m && m[0] != '-';
    assert name[0] == m[0];
    assert StripLeadingDash(name) == name;
    SplitSingleDash(m, y);
    var parts := [m, y];
    assert FindMarker(parts) == Some(0);
    assert parts[..1] == [m] && parts[1..] == [y];
    PlainProjectName([y]);
    assert Join([m], "/") == m && Join([y], "-") == y && Join([y], "/") == y;
    TrailingDashIgnored(name);
  }

  /** `x-y` splits into `x` and `y` when neither has a dash. */
  lemma SplitSingleDash(x: string, y: string)
    requires '-' !in x && '-' !in y
    ensures Split(x + "-" + y, '-') == [x, y]
  {
    SplitWithout(y, '-');
    assert ("-" + y)[0] == '-' && ("-" + y)[1..] == y;
    assert Split("-" + y, '-') == ["", y];
    SplitPrefix(x, "-" + y, '-');
    assert x + "-" + y == x + ("-" + y);
    assert x + "" == x;
  }

  lemma PrefixOfConcat(a: string, b: string)
    requires b != []
    ensures a <= a + b && a + b != a
  {
    assert |a + b| > |a|;
  }

  /** Outside hidden mode, parts without double dashes are glued onto the current segment. */
  lemma {:induction false} FoldPlain(cur: string, segs: seq<string>, tail: seq<string>)
    requires NoEmpty(tail)
    ensures Fold(TailState(false, cur, segs), tail)
         == TailState(false, Join(if cur == "" then tail else [cur] + tail, "-"), segs)
    decreases |tail|
  {
    if tail != [] {
      var t0, rest := tail[0], tail[1..];
      assert tail == [t0] + rest;
      assert NoEmpty(rest) by {
        forall i | 0 <= i < |rest| ensures rest[i] != "" {
          assert rest[i] == tail[i + 1];
        }
      }
      var cur' := if cur == "" then t0 else cur + "-" + t0;
      assert Fold(TailState(false, cur, segs), tail) == Fold(TailState(false, cur', segs), rest);
      FoldPlain(cur', segs, rest);
      if cur != "" {
        JoinGlue(cur, t0, rest);
      }
    }
  }

  /** Gluing a part onto the first of several dash-joined strings does not change the join. */
  lemma JoinGlue(cur: string, t0: string, rest: seq<string>)
    ensures Join([cur + "-" + t0] + rest, "-") == Join([cur] + ([t0] + rest), "-")
  {
    JoinCons(cur + "-" + t0, rest, "-");
    JoinCons(t0, rest, "-");
    JoinCons(cur, [t0] + rest, "-");
  }

  /** A project part without double dashes decodes to one folder: its parts joined by `-`
      (so `ai-image-dashboard` stays one name). */
  lemma PlainProjectName(tail: seq<string>)
    requires tail != [] && NoEmpty(tail)
    ensures ProjectSegments(tail) == [Join(tail, "-")]
  {
    FoldPlain("", [], tail);
    JoinCons(tail[0], tail[1..], "-");
  }

  /** In hidden mode, each part after a pending segment starts a new segment. */
  lemma {:induction false} FoldHidden(cur: string, segs: seq<string>, tail: seq<string>)
    requires cur != "" && tail != [] && NoEmpty(tail)
    ensures Fold(TailState(true, cur, segs), tail)
         == TailState(true, tail[|tail| - 1], segs + [cur] + tail[..|tail| - 1])
    decreases |tail|
  {
    assert Step(TailState(true, cur, segs), tail[0]) == TailState(true, tail[0], segs + [cur]);
    if |tail| > 1 {
      FoldHidden(tail[0], segs + [cur], tail[1..]);
      assert [tail[0]] + tail[1..][..|tail| - 2] == tail[..|tail| - 1];
    }
  }

  /** A double dash inside the project part: what precedes it is one folder, the first part
      after it is a dot folder, and each further part is a sub-folder
      (`ai-image-dashboard--rsworktree-analytics` is `ai-image-dashboard/.rsworktree/analytics`). */
  lemma HiddenFolder(name: seq<string>, hidden: seq<string>)
    requires name != [] && NoEmpty(name)
    requires hidden != [] && NoEmpty(hidden)
    ensures ProjectSegments(name + [""] + hidden)
         == [Join(name, "-"), "." + hidden[0]] + hidden[1..]
  {
    var j := Join(name, "-");
    JoinCons(name[0], name[1..], "-");
    assert name == [name[0]] + name[1..];
    var init := TailState(false, "", []);
    assert name + [""] + hidden == name + ([""] + hidden);
    FoldAppend(init, name, [""] + hidden);
    FoldPlain("", [], name);
    EnterHidden(j, hidden);
    LeaveHidden(j, hidden);
  }

  /** The parts that a sequence of hidden groups is written as: each group preceded by the
      empty part of its double dash. */
  function HiddenParts(groups: seq<seq<string>>): seq<string>
    decreases |groups|
  {
    if groups == [] then [] else [""] + groups[0] + HiddenParts(groups[1..])
  }

  /** The folders a sequence of hidden groups decodes to: each group's first part with a dot,
      then its other parts as plain sub-folders. */
  function HiddenSegments(groups: seq<seq<string>>): seq<string>
    requires forall k :: 0 <= k < |groups| ==> groups[k] != []
    decreases |groups|
  {
    if groups == [] then []
    else ["." + groups[0][0]] + groups[0][1..] + HiddenSegments(groups[1..])
  }

  predicate ValidGroups(groups: seq<seq<string>>) {
    forall k :: 0 <= k < |groups| ==> groups[k] != [] && NoEmpty(groups[k])
  }

  /** Any number of double dashes: what precedes the first is one dash-joined folder, and each
      group after a double dash decodes as `HiddenSegments` says
      (`myproject--hidden--subfolder` is `myproject/.hidden/.subfolder`). */
  lemma HiddenFolders(name: seq<string>, groups: seq<seq<string>>)
    requires name != [] && NoEmpty(name)
    requires ValidGroups(groups)
    ensures ProjectSegments(name + HiddenParts(groups)) == [Join(name, "-")] + HiddenSegments(groups)
  {
    var init := TailState(false, "", []);
    FoldAppend(init, name, HiddenParts(groups));
    FoldPlain("", [], name);
    JoinCons(name[0], name[1..], "-");
    assert name == [name[0]] + name[1..];
    FoldGroups(false, Join(name, "-"), [], groups);
  }

  lemma {:induction false} FoldGroups(inHidden: bool, cur: string, segs: seq<string>, groups: seq<seq<string>>)
    requires cur != "" && ValidGroups(groups)
    ensures Finish(Fold(TailState(inHidden, cur, segs), HiddenParts(groups)))
         == segs + [cur] + HiddenSegments(groups)
    decreases |groups|
  {
    if groups != [] {
      var g, rest := groups[0], groups[1..];
      assert ValidGroups(rest) by {
        forall k | 0 <= k < |rest| ensures rest[k] != [] && NoEmpty(rest[k]) {
          assert rest[k] == groups[k + 1];
        }
      }
      var st := TailState(inHidden, cur, segs);
      HiddenPartsCons(g, rest);
      assert groups == [g] + rest;
      FoldAppend(st, [""] + g, HiddenParts(rest));
      FoldOneGroup(inHidden, cur, segs, g);
      var r := Fold(st, [""] + g);
      FoldGroups(r.inHidden, r.current, r.segments, rest);
      HiddenSegmentsCons(g, rest);
    }
  }

  lemma HiddenPartsCons(g: seq<string>, rest: seq<seq<string>>)
    ensures HiddenParts([g] + rest) == ([""] + g) + HiddenParts(rest)
  {
    assert ([g] + rest)[1..] == rest;
  }

  lemma HiddenSegmentsCons(g: seq<string>, rest: seq<seq<string>>)
    requires g != [] && forall k :: 0 <= k < |rest| ==> rest[k] != []
    ensures HiddenSegments([g] + rest) == ["." + g[0]] + g[1..] + HiddenSegments(rest)
  {
    assert ([g] + rest)[1..] == rest;
  }

  /** One double dash and its group, from any state with a pending segment. */
  lemma FoldOneGroup(inHidden: bool, cur: string, segs: seq<string>, g: seq<string>)
    requires cur != "" && g != [] && NoEmpty(g)
    ensures var r := Fold(TailState(inHidden, cur, segs), [""] + g);
            r.current != "" && r.segments + [r.current] == segs + [cur] + ["." + g[0]] + g[1..]
  {
    var s1 := segs + [cur];
    EnterGroup(inHidden, cur, segs, g);
    if |g| > 1 {
      var t := g[1..];
      assert NoEmpty(t) by {
        forall i | 0 <= i < |t| ensures t[i] != "" {
          assert t[i] == g[i + 1];
        }
      }
      FoldHidden("." + g[0], s1, t);
      assert t == t[..|t| - 1] + [t[|t| - 1]];
    }
  }

  lemma EnterGroup(inHidden: bool, cur: string, segs: seq<string>, g: seq<string>)
    requires cur != "" && g != [] && g[0] != ""
    ensures Fold(TailState(inHidden, cur, segs), [""] + g)
         == Fold(TailState(true, "." + g[0], segs + [cur]), g[1..])
  {
    var st := TailState(inHidden, cur, segs);
    var s1 := segs + [cur];
    assert ([""] + g)[0] == "" && ([""] + g)[1..] == g;
    assert Step(st, "") == TailState(true, "", s1);
    assert Fold(st, [""] + g) == Fold(TailState(true, "", s1), g);
    assert Step(TailState(true, "", s1), g[0]) == TailState(true, "." + g[0], s1);
  }

  /** The test case with two double dashes, on the parts after the marker. */
  lemma TwoHiddenFoldersExample()
    ensures ProjectSegments(["myproject", "", "hidden", "", "subfolder"])
         == ["myproject", ".hidden", ".subfolder"]
  {
    var s0 := TailState(false, "", []);
    var s1 := TailState(false, "myproject", []);
    var s2 := TailState(true, "", ["myproject"]);
    var s3 := TailState(true, ".hidden", ["myproject"]);
    var s4 := TailState(true, "", ["myproject", ".hidden"]);
    var s5 := TailState(true, ".subfolder", ["myproject", ".hidden"]);
    assert Step(s0, "myproject") == s1;
    assert Step(s1, "") == s2;
    assert Step(s2, "hidden") == s3 by { assert "." + "hidden" == ".hidden"; }
    assert Step(s3, "") == s4;
    assert Step(s4, "subfolder") == s5 by { assert "." + "subfolder" == ".subfolder"; }
    FoldFive(s0, "myproject", "", "hidden", "", "subfolder");
  }

  /** Five iterations of the loop, one part at a time. */
  lemma FoldFive(st: TailState, a: string, b: string, c: string, d: string, e: string)
    ensures Fold(st, [a, b, c, d, e]) == Step(Step(Step(Step(Step(st, a), b), c), d), e)
  {
    var t1 := Step(st, a);
    var t2 := Step(t1, b);
    var t3 := Step(t2, c);
    var t4 := Step(t3, d);
    var t5 := Step(t4, e);
    assert Fold(t5, []) == t5;
    assert Fold(t4, [e]) == t5 by { assert [e][1..] == []; }
    assert Fold(t3, [d, e]) == t5 by { assert [d, e][1..] == [e]; }
    assert Fold(t2, [c, d, e]) == t5 by { assert [c, d, e][1..] == [d, e]; }
    assert Fold(t1, [b, c, d, e]) == t5 by { assert [b, c, d, e][1..] == [c, d, e]; }
    assert [a, b, c, d, e][1..] == [b, c, d, e];
  }

  lemma EnterHidden(j: string, hidden: seq<string>)
    requires j != "" && hidden != [] && hidden[0] != ""
    ensures Fold(TailState(false, j, []), [""] + hidden)
         == Fold(TailState(true, "." + hidden[0], [j]), hidden[1..])
  {
    var st := TailState(false, j, []);
    assert ([""] + hidden)[1..] == hidden;
    assert ([""] + hidden)[0] == "";
    assert Step(st, "") == TailState(true, "", [j]);
    assert Fold(st, [""] + hidden) == Fold(TailState(true, "", [j]), hidden);
    assert Step(TailState(true, "", [j]), hidden[0]) == TailState(true, "." + hidden[0], [j]);
  }

  lemma LeaveHidden(j: string, hidden: seq<string>)
    requires hidden != [] && NoEmpty(hidden)
    ensures Finish(Fold(TailState(true, "." + hidden[0], [j]), hidden[1..]))
         == [j, "." + hidden[0]] + hidden[1..]
  {
    if |hidden| > 1 {
      FoldHidden("." + hidden[0], [j], hidden[1..]);
      assert hidden[1..] == hidden[1..][..|hidden[1..]| - 1] + [hidden[|hidden| - 1]];
    }
  }

  lemma {:induction false} FoldAppend(st: TailState, a: seq<string>, b: seq<string>)
    ensures Fold(st, a + b) == Fold(Fold(st, a), b)
    decreases |a|
  {
    if a == [] {
      assert a + b == b;
    } else {
      assert (a + b)[1..] == a[1..] + b;
      FoldAppend(Step(st, a[0]), a[1..], b);
    }
  }
}
