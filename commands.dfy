/** The Tauri commands around the engine (src-tauri/src/commands/handlers.rs and the same
    commands in the older src-tauri/src/lib.rs): the tray title, the focus fallback, the
    one-slot global-shortcut bookkeeping and the show/hide toggle. The tray, the window and
    the global-shortcut plugin are outside the model; what they answer is passed in. */
module Commands {
  import opened Wrappers
  import opened Strs
  import Terminal

  // ---------------------------------------------------------------- tray title

  /** The tray title: `"{total} ({waiting} waiting)"`, else `"{total}"`, else empty. */
  function TrayTitle(total: nat, waiting: nat): (title: string)
    ensures title == "" <==> total == 0 && waiting == 0
    ensures waiting == 0 ==> IsDigits(title)
  {
    if waiting > 0 then NatToString(total) + " (" + NatToString(waiting) + " waiting)"
    else if total > 0 then NatToString(total)
    else ""
  }

  /** Two strings each followed by a space agree when neither holds a space. */
  lemma SplitAtSpace(a: string, x: string, b: string, y: string)
    requires ' ' !in a && ' ' !in b
    requires a + " " + x == b + " " + y
    ensures a == b && x == y
  {
    var s := a + " " + x;
    assert s[|a|] == ' ' && s[|b|] == ' ';
    assert forall i :: 0 <= i < |a| ==> s[i] == a[i] != ' ';
    assert forall i :: 0 <= i < |b| ==> s[i] == b[i] != ' ';
    assert |a| == |b|;
    assert a == s[..|a|] && b == s[..|b|];
    assert x == s[|a| + 1..];
  }

  lemma DigitsHaveNoSpace(n: nat)
    ensures ' ' !in NatToString(n)
  {
    var s := NatToString(n);
    assert forall i :: 0 <= i < |s| ==> s[i] != ' ';
  }

  lemma WaitingTitleHasSpace(total: nat, waiting: nat)
    ensures waiting > 0 <==> ' ' in TrayTitle(total, waiting)
  {
    var title := TrayTitle(total, waiting);
    if waiting > 0 {
      assert title[|NatToString(total)|] == ' ';
    } else {
      assert forall i :: 0 <= i < |title| ==> title[i] != ' ';
    }
  }

  lemma WaitingTitlesInjective(t1: nat, w1: nat, t2: nat, w2: nat)
    requires w1 > 0 && w2 > 0
    requires TrayTitle(t1, w1) == TrayTitle(t2, w2)
    ensures t1 == t2 && w1 == w2
  {
    var n1, n2 := NatToString(t1), NatToString(t2);
    var rest1, rest2 := WaitingSuffix(w1), WaitingSuffix(w2);
    DigitsHaveNoSpace(t1);
    DigitsHaveNoSpace(t2);
    WaitingTitleSplit(t1, w1);
    WaitingTitleSplit(t2, w2);
    SplitAtSpace(n1, rest1, n2, rest2);
    NatToStringInjective(t1, t2);
    WaitingSuffixInjective(w1, w2);
  }

  /** The part of a waiting title after the total. */
  function WaitingSuffix(waiting: nat): string {
    "(" + NatToString(waiting) + " waiting)"
  }

  lemma WaitingTitleSplit(total: nat, waiting: nat)
    requires waiting > 0
    ensures TrayTitle(total, waiting) == NatToString(total) + " " + WaitingSuffix(waiting)
  {
  }

  lemma WaitingSuffixInjective(w1: nat, w2: nat)
    requires WaitingSuffix(w1) == WaitingSuffix(w2)
    ensures w1 == w2
  {
    var m1, m2 := NatToString(w1), NatToString(w2);
    DigitsHaveNoSpace(w1);
    DigitsHaveNoSpace(w2);
    var r1, r2 := WaitingSuffix(w1), WaitingSuffix(w2);
    assert r1[1..] == m1 + " " + "waiting)";
    assert r2[1..] == m2 + " " + "waiting)";
    SplitAtSpace(m1, "waiting)", m2, "waiting)");
    NatToStringInjective(w1, w2);
  }

  /** The title determines both counts: different counts never share a title. */
  lemma TrayTitleInjective(t1: nat, w1: nat, t2: nat, w2: nat)
    requires TrayTitle(t1, w1) == TrayTitle(t2, w2)
    ensures t1 == t2 && w1 == w2
  {
    WaitingTitleHasSpace(t1, w1);
    WaitingTitleHasSpace(t2, w2);
    if w1 > 0 && w2 > 0 {
      WaitingTitlesInjective(t1, w1, t2, w2);
    } else if w1 == 0 && w2 == 0 && t1 > 0 && t2 > 0 {
      NatToStringInjective(t1, t2);
    }
  }

  /** The tray icon: its title is the one piece of state `update_tray_title` changes. */
  class Tray {
    var title: string

    constructor ()
      ensures title == ""
    {
      title := "";
    }
  }

  /** `update_tray_title`: without a tray nothing happens and the call succeeds; otherwise the
      title is set, and a refusal of the tray (`setError`) is reported. */
  method UpdateTrayTitle(tray: Tray?, total: nat, waiting: nat, setError: Option<string>) returns (r: Outcome)
    modifies tray
    ensures tray == null ==> r == Ok
    ensures tray != null && setError.None? ==> r == Ok && tray.title == TrayTitle(total, waiting)
    ensures tray != null && setError.Some? ==> r == Err("Failed to set tray title: " + setError.value)
                                               && tray.title == old(tray.title)
  {
    var title := TrayTitle(total, waiting);
    if tray != null {
      if setError.Some? {
        return Err("Failed to set tray title: " + setError.value);
      }
      tray.title := title;
    }
    r := Ok;
  }

  // ---------------------------------------------------------------- focus

  /** `focus_session`: focus by pid, and only if that fails by project path. */
  function FocusSession(env: Terminal.Env, pid: nat, projectPath: string): (r: Outcome)
    ensures r.Ok? <==> Terminal.FocusTerminalForPid(env, pid).Ok? || Terminal.FocusTerminalByPath(env, projectPath).Ok?
    ensures Terminal.FocusTerminalForPid(env, pid).Err? ==> r == Terminal.FocusTerminalByPath(env, projectPath)
  {
    match Terminal.FocusTerminalForPid(env, pid)
    case Ok => Ok
    case Err(_) => Terminal.FocusTerminalByPath(env, projectPath)
  }

  /** The same fallback in the older `lib.rs`, over the older chain. */
  function LegacyFocusSession(env: Terminal.Env, pid: nat, projectPath: string): (r: Outcome)
    ensures r.Ok? <==> Terminal.LegacyFocusTerminalForPid(env, pid).Ok?
                       || Terminal.LegacyFocusTerminalByPath(env, projectPath).Ok?
    ensures Terminal.LegacyFocusTerminalForPid(env, pid).Err?
            ==> r == Terminal.LegacyFocusTerminalByPath(env, projectPath)
  {
    match Terminal.LegacyFocusTerminalForPid(env, pid)
    case Ok => Ok
    case Err(_) => Terminal.LegacyFocusTerminalByPath(env, projectPath)
  }

  // ---------------------------------------------------------------- the shortcut slot

  /** A parsed global shortcut. */
  datatype Shortcut = Shortcut(keys: string)

  /** `CURRENT_SHORTCUT`: the shortcut registered last, kept for unregistration. */
  class ShortcutSlot {
    var current: Option<Shortcut>

    constructor ()
      ensures current.None?
    {
      current := None;
    }

    /** `register_shortcut`: the slot is emptied (its old shortcut, returned in `released`, is
        unregistered whatever the plugin answers), the text is parsed (`parsed`) and the
        handler registered (`registration`); only when both succeed does the slot hold the new
        shortcut. */
    method Register(parsed: Result<Shortcut>, registration: Outcome) returns (r: Outcome, released: Option<Shortcut>)
      modifies this
      ensures released == old(current)
      ensures r.Ok? <==> parsed.Success? && registration.Ok?
      ensures current == if r.Ok? then Some(parsed.value) else None
      ensures parsed.Failure? ==> r == Err("Invalid shortcut format: " + parsed.error)
      ensures parsed.Success? && registration.Err? ==> r == Err("Failed to register shortcut: " + registration.msg)
    {
      released := current;
      current := None;
      if parsed.Failure? {
        return Err("Invalid shortcut format: " + parsed.error), released;
      }
      if registration.Err? {
        return Err("Failed to register shortcut: " + registration.msg), released;
      }
      current := Some(parsed.value);
      r := Ok;
    }

    /** `unregister_shortcut`: the slot is emptied; the plugin is asked to unregister only when
        the slot held a shortcut, and only its refusal is an error. */
    method Unregister(unregistration: Outcome) returns (r: Outcome, released: Option<Shortcut>)
      modifies this
      ensures current.None? && released == old(current)
      ensures r.Ok? <==> old(current).None? || unregistration.Ok?
      ensures r.Err? ==> r == Err("Failed to unregister shortcut: " + unregistration.msg)
    {
      released := current;
      current := None;
      if released.Some? && unregistration.Err? {
        return Err("Failed to unregister shortcut: " + unregistration.msg), released;
      }
      r := Ok;
    }
  }

  /** Registering twice leaves only the second shortcut in the slot and releases the first. */
  method RegisterTwice(a: Shortcut, b: Shortcut) returns (slot: ShortcutSlot, released: Option<Shortcut>)
    ensures slot.current == Some(b) && released == Some(a)
  {
    slot := new ShortcutSlot();
    var r1, _ := slot.Register(Success(a), Ok);
    var r2, rel := slot.Register(Success(b), Ok);
    released := rel;
  }

  // ---------------------------------------------------------------- the toggle

  datatype WindowAction = Hide | ShowAndFocus

  /** What a shortcut event does: nothing unless it is a key press and the main window exists;
      then hide when the window is visible and focused (an unanswered query counts as `false`),
      otherwise show and focus. */
  function OnShortcut(pressed: bool, windowExists: bool, visible: Option<bool>, focused: Option<bool>)
    : (r: Option<WindowAction>)
    ensures r.None? <==> !pressed || !windowExists
    ensures r == Some(Hide) <==> pressed && windowExists && visible == Some(true) && focused == Some(true)
  {
    if !pressed || !windowExists then None
    else if visible.GetOr(false) && focused.GetOr(false) then Some(Hide)
    else Some(ShowAndFocus)
  }
}
