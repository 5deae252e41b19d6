/** Concrete cases of the model on the kinds of values the add-on meets:
    release tags, asset names, the state file and the panels' texts. */
module Scenarios {
  import opened Wrappers
  import State
  import Text
  import Version
  import Pattern
  import UpdateLib
  import UI
  import Localization

  const Prefs := UpdateLib.Prefs(true, false, UpdateLib.Daily)

  function Tagged(tag: string, prerelease: bool, draft: bool): UpdateLib.Release {
    UpdateLib.Release(tag, prerelease, draft, "assets", "notes")
  }

  /** "1.1.0-2.90.0" is read as add-on 1.1.0 for Blender 2.90.0, and so is
      "1,1,0-2,90,0": any non-digit separates the numbers. */
  lemma TagParts()
    ensures Version.ParseTag("1.1.0-2.90.0") == [[1, 1, 0], [2, 90, 0]]
    ensures Version.ParseTag("1,1,0-2,90,0") == [[1, 1, 0], [2, 90, 0]]
  {
    TagWith('.');
    TagWith(',');
  }

  lemma TagWith(sep: char)
    requires !Text.IsDigit(sep) && sep != '-'
    ensures Version.ParseTag(['1', sep, '1', sep, '0', '-', '2', sep, '9', '0', sep, '0']) == [[1, 1, 0], [2, 90, 0]]
  {
    RenderVersions(sep);
    Version.ParseTagOfRender([1, 1, 0], [2, 90, 0], sep);
    assert Text.Render([1, 1, 0], sep) + "-" + Text.Render([2, 90, 0], sep) ==
      ['1', sep, '1', sep, '0', '-', '2', sep, '9', '0', sep, '0'];
  }

  lemma RenderVersions(sep: char)
    ensures Text.Render([1, 1, 0], sep) == ['1', sep, '1', sep, '0']
    ensures Text.Render([2, 90, 0], sep) == ['2', sep, '9', '0', sep, '0']
  {
    assert Text.NatToString(0) == "0";
    assert Text.NatToString(1) == "1";
    assert Text.NatToString(2) == "2";
    assert Text.NatToString(9) == "9";
    assert Text.NatToString(90) == "90";
    assert [0][1..] == [] && [1, 0][1..] == [0] && [1, 1, 0][1..] == [1, 0];
    assert [90, 0][1..] == [0] && [2, 90, 0][1..] == [90, 0];
    assert Text.Render([0], sep) == "0";
    assert Text.Render([1, 0], sep) == ['1', sep, '0'];
    assert Text.Render([1, 1, 0], sep) == ['1', sep, '1', sep, '0'];
    assert Text.Render([90, 0], sep) == ['9', '0', sep, '0'];
  }

  /** On Blender 2.93 with add-on 1.0.0 installed, a release tagged as 1.1.0
      for Blender 2.90.0 (as "1.1.0-2.90.0" is) is taken, behind a draft and a
      pre-release that are skipped whatever their tags. */
  lemma ReleaseSelected(newer: string, tag: string)
    requires Version.ParseTag(tag) == [[1, 1, 0], [2, 90, 0]]
    ensures UpdateLib.FirstRelease([Tagged(newer, false, true), Tagged(newer, true, false), Tagged(tag, false, false)],
      0, Prefs, [1, 0, 0], [2, 93, 0]) == UpdateLib.Selected(2, [1, 1, 0])
  {
    var rs := [Tagged(newer, false, true), Tagged(newer, true, false), Tagged(tag, false, false)];
    assert UpdateLib.Skipped(rs[0], Prefs) && UpdateLib.Skipped(rs[1], Prefs);
    UpdateLib.ClassifyMeaning(rs[0], Prefs, [1, 0, 0], [2, 93, 0]);
    UpdateLib.ClassifyMeaning(rs[1], Prefs, [1, 0, 0], [2, 93, 0]);
    assert Version.Less([1, 0, 0], [1, 1, 0]);
    assert Version.Less([2, 90, 0], [2, 93, 0]);
    UpdateLib.ClassifyMeaning(rs[2], Prefs, [1, 0, 0], [2, 93, 0]);
    UpdateLib.FirstReleaseAt(rs, 2, Prefs, [1, 0, 0], [2, 93, 0]);
  }

  /** On Blender 2.80 the same release is too new, and the check finds nothing. */
  lemma ReleaseTooNew(tag: string)
    requires Version.ParseTag(tag) == [[1, 1, 0], [2, 90, 0]]
    ensures UpdateLib.FirstRelease([Tagged(tag, false, false)], 0, Prefs, [1, 0, 0], [2, 80, 0]) == UpdateLib.NoRelease
  {
    var rs := [Tagged(tag, false, false)];
    Version.LessAsymmetric([2, 80, 0], [2, 90, 0]);
    assert Version.Less([2, 80, 0], [2, 90, 0]);
    assert [2, 90, 0] != [2, 80, 0];
    UpdateLib.ClassifyMeaning(rs[0], Prefs, [1, 0, 0], [2, 80, 0]);
    UpdateLib.NoReleaseIff(rs, 0, Prefs, [1, 0, 0], [2, 80, 0]);
  }

  /** A tag with two dashes does not unpack into two versions ... */
  lemma TwoDashes()
    ensures Text.Count("1-rc-2", '-') == 2
    ensures |Version.ParseTag("1-rc-2")| != 2
  {
    assert Text.Count("", '-') == 0;
    assert "2"[1..] == "" && Text.Count("2", '-') == 0;
    assert "-2"[1..] == "2" && Text.Count("-2", '-') == 1;
    assert "c-2"[1..] == "-2" && Text.Count("c-2", '-') == 1;
    assert "rc-2"[1..] == "c-2" && Text.Count("rc-2", '-') == 1;
    assert "-rc-2"[1..] == "rc-2" && Text.Count("-rc-2", '-') == 2;
    assert "1-rc-2"[1..] == "-rc-2" && Text.Count("1-rc-2", '-') == 2;
  }

  /** ... so a release that is not skipped and carries such a tag stops the
      loop with an unpacking error. */
  lemma BadTagStops(tag: string)
    requires |Version.ParseTag(tag)| != 2
    ensures UpdateLib.FirstRelease([Tagged(tag, false, false)], 0, Prefs, [1, 0, 0], [2, 93, 0]) == UpdateLib.UnpackFailed(0)
  {
    var rs := [Tagged(tag, false, false)];
    UpdateLib.ClassifyMeaning(rs[0], Prefs, [1, 0, 0], [2, 93, 0]);
    UpdateLib.FirstReleaseAt(rs, 0, Prefs, [1, 0, 0], [2, 93, 0]);
  }

  /** "thing-1.1.0.zip" is taken as the installation file, "thing.zip" is not. */
  lemma AssetNames()
    ensures Pattern.IsInstallFile("thing-1.1.0.zip")
    ensures !Pattern.IsInstallFile("thing.zip")
  {
    assert Pattern.Shape("thing-1.1.0.zip", 6, 9);
    Pattern.IsInstallFileShape("thing-1.1.0.zip");
    Pattern.IsInstallFileShape("thing.zip");
    forall p: nat, m: nat | p < 9 && m < 9 ensures !Pattern.Shape("thing.zip", p, m) {
      assert !Text.IsDigit("thing.zip"[p]);
    }
  }

  /** The version shown for a pre-release. */
  lemma PrereleaseLabel()
    ensures UpdateLib.VersionLabel([1, 1, 0], true) == "1.1.0 (pre-release)"
  {
    RenderVersions('.');
    assert "1.1.0" + " (pre-release)" == "1.1.0 (pre-release)";
  }

  /** The directory an update to 1.1.0 is extracted into. */
  lemma ExtractDirName()
    ensures UpdateLib.ExtractDir(["addons", "thing"], "1.1.0") == ["addons", "thing update 110"]
  {
    assert Text.Replace("0", ".", "") == "0";
    assert ".0"[..1] == "." && ".0"[1..] == "0" && Text.Replace(".0", ".", "") == "0";
    assert "1.0"[..1] != "." && "1.0"[1..] == ".0" && Text.Replace("1.0", ".", "") == "10";
    assert ".1.0"[..1] == "." && ".1.0"[1..] == "1.0" && Text.Replace(".1.0", ".", "") == "10";
    assert "1.1.0"[..1] != "." && "1.1.0"[1..] == ".1.0" && Text.Replace("1.1.0", ".", "") == "110";
    assert "thing" + " update " + "110" == "thing update 110";
  }

  /** A check saved at noon of one day (UTC+2) and read three days later. */
  lemma ThreeDaysLater()
    ensures var w := UpdateLib.World(State.Initial, map[]);
      var saved := UpdateLib.Save(w, ["cfg"], UpdateLib.Clock(43200, 7200), None);
      var loaded := UpdateLib.Load(saved, ["cfg"], UpdateLib.Clock(43200 + 3 * 86400, 7200));
      loaded.Success? && loaded.value.state.daysPassed == Some(3)
  {
  }

  /** The preferences after that load: a check is due again only from a day on. */
  lemma DueDaily()
    ensures UpdateLib.IsAutocheck(State.Initial.(daysPassed := Some(1)), Prefs)
    ensures !UpdateLib.IsAutocheck(State.Initial.(daysPassed := Some(0)), Prefs)
    ensures !UpdateLib.IsAutocheck(State.Initial.(daysPassed := Some(6)), Prefs.(interval := UpdateLib.Weekly))
  {
  }

  /** The status line of the preferences for a few states. */
  lemma PrefsTexts()
    ensures UI.PrefsBanner(State.Initial) == UI.ShowLastChecked("never")
    ensures UI.PrefsBanner(State.Initial.(daysPassed := Some(3))) == UI.ShowLastChecked("3 days ago")
    ensures UI.PrefsBanner(State.Initial.(status := Some(State.Checking), updateAvailable := true)) == UI.ShowChecking
    ensures UI.SidebarBanner(State.Initial.(status := Some(State.Checking), updateAvailable := true, updateVersion := Some("1.1.0"))) ==
      UI.ShowAvailable(Some("1.1.0"))
  {
    assert Text.IntToString(3) == "3";
  }

  /** Untranslated entries are dropped and a missing context becomes "*". */
  lemma CatalogueEntries()
    ensures Localization.TableOf([Localization.Entry("", "Install Update", "Installer"), Localization.Entry("", "Checking...", "")]) ==
      map[("*", "Install Update") := "Installer"]
  {
    NothingEscaped("Install Update");
    NothingEscaped("Installer");
  }

  /** A text without a backslash is unescaped to itself. */
  lemma NothingEscaped(s: string)
    requires '\\' !in s
    ensures Localization.Unescape(s) == s
  {
    forall i: nat ensures !Text.OccursAt(s, i, "\\n") {
      if i + 2 <= |s| {
        assert s[i..i + 2][0] == s[i];
      }
    }
    Text.ReplaceAbsent(s, "\\n", "\n");
  }
}
