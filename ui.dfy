/** What the sidebar panel and the preferences section of mod_update/ui.py
    show for a given update state.  Widget layout is left out; a panel is
    described by its status line, whether it shows the "Close Blender"
    notice, which button it offers and whether that button is enabled. */
module UI {
  import opened Wrappers
  import State
  import Text
  import Operators

  /** The status line. */
  datatype Banner =
    | ShowCompleted                       // "Update completed", with "See What's New"
    | ShowChecking                        // "Checking..."
    | ShowInstalling                      // "Installing..."
    | ShowError(msg: Option<string>)      // the error text
    | ShowAvailable(version: Option<string>)  // "Update {} is available"
    | ShowLastChecked(when: string)       // "Last checked {}"

  datatype Button = InstallUpdate | CheckForUpdates

  /** `Sidebar.poll`: the sidebar panel exists only while an update is available. */
  predicate SidebarShown(s: State.StateValue) {
    s.updateAvailable
  }

  /** The status line of `sidebar_ui`, which has no CHECKING branch. */
  function SidebarBanner(s: State.StateValue): Banner {
    if s.status == Some(State.Completed) then ShowCompleted
    else if s.status == Some(State.Installing) then ShowInstalling
    else if s.status == Some(State.Error) then ShowError(s.errorMsg)
    else ShowAvailable(s.updateVersion)
  }

  /** The status line of `prefs_ui`. */
  function PrefsBanner(s: State.StateValue): Banner {
    if s.status == Some(State.Completed) then ShowCompleted
    else if s.status == Some(State.Checking) then ShowChecking
    else if s.status == Some(State.Installing) then ShowInstalling
    else if s.status == Some(State.Error) then ShowError(s.errorMsg)
    else if s.updateAvailable then ShowAvailable(s.updateVersion)
    else ShowLastChecked(LastCheckedWhen(s.daysPassed))
  }

  /** The date part of "Last checked {}". */
  function LastCheckedWhen(days: Option<int>): string {
    match days
    case None => "never"
    case Some(n) =>
      if n == 0 then "today"
      else if n == 1 then "yesterday"
      else Text.IntToString(n) + " days ago"
  }

  /** The "Close Blender to complete the installation" notice. */
  predicate CloseNotice(b: Banner) {
    b == ShowCompleted
  }

  /** `col.enabled` of both panels' button row. */
  predicate ButtonEnabled(s: State.StateValue) {
    s.status == None || s.status == Some(State.Error)
  }

  /** The sidebar always offers the install; the preferences offer it while
      an update is available and the check otherwise. */
  function SidebarButton(s: State.StateValue): Button {
    InstallUpdate
  }

  function PrefsButton(s: State.StateValue): Button {
    if s.updateAvailable then InstallUpdate else CheckForUpdates
  }

  /** The preferences status line follows the priority COMPLETED, CHECKING,
      INSTALLING, ERROR, then an available update, then the last check. */
  lemma PrefsBannerPriority(s: State.StateValue)
    ensures PrefsBanner(s) == ShowCompleted <==> s.status == Some(State.Completed)
    ensures PrefsBanner(s) == ShowChecking <==> s.status == Some(State.Checking)
    ensures PrefsBanner(s) == ShowInstalling <==> s.status == Some(State.Installing)
    ensures PrefsBanner(s).ShowError? <==> s.status == Some(State.Error)
    ensures PrefsBanner(s).ShowAvailable? <==> s.status == None && s.updateAvailable
    ensures PrefsBanner(s).ShowLastChecked? <==> s.status == None && !s.updateAvailable
  {
    match s.status {
      case None =>
      case Some(x) =>
        match x {
          case Checking =>
          case Installing =>
          case Completed =>
          case Error =>
        }
    }
  }

  /** Different day counts are told apart by the wording. */
  lemma LastCheckedInjective(a: Option<int>, b: Option<int>)
    ensures LastCheckedWhen(a) == LastCheckedWhen(b) ==> a == b
  {
    var suffix := " days ago";
    assert a.Some? && a.value != 0 && a.value != 1 ==> |LastCheckedWhen(a)| > |suffix|;
    assert b.Some? && b.value != 0 && b.value != 1 ==> |LastCheckedWhen(b)| > |suffix|;
    if a.Some? && a.value != 0 && a.value != 1 && b.Some? && b.value != 0 && b.value != 1 {
      var x, y := Text.IntToString(a.value), Text.IntToString(b.value);
      assert (x + suffix)[..|x + suffix| - |suffix|] == x;
      assert (y + suffix)[..|y + suffix| - |suffix|] == y;
      Text.IntToStringInjective(a.value, b.value);
    }
  }

  /** Wherever both are drawn, the sidebar and the preferences show the same
      status line, except while a check runs, when the sidebar goes on
      announcing the known update. */
  lemma SidebarAgreesWithPrefs(s: State.StateValue)
    requires SidebarShown(s)
    ensures s.status != Some(State.Checking) ==> SidebarBanner(s) == PrefsBanner(s)
    ensures s.status == Some(State.Checking) ==> SidebarBanner(s) == ShowAvailable(s.updateVersion)
    ensures SidebarButton(s) == PrefsButton(s)
  {
  }

  /** Both panels show the "Close Blender" notice exactly after a completed install. */
  lemma CloseNoticeIff(s: State.StateValue)
    ensures CloseNotice(SidebarBanner(s)) <==> s.status == Some(State.Completed)
    ensures CloseNotice(PrefsBanner(s)) <==> s.status == Some(State.Completed)
  {
  }

  /** The button is enabled exactly when its operator's guard lets it through. */
  lemma ButtonMatchesGuard(s: State.StateValue)
    ensures ButtonEnabled(s) <==> !Operators.Busy(s.status)
  {
    Operators.NotBusyIff(s.status);
  }
}
