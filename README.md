# mod_update in Dafny

A model of `mod_update`, the self-updater that Blender add-ons bundle. It checks a
GitHub release feed for a newer add-on version that the running Blender supports. It
downloads the release's zip file and swaps it in for the installed add-on directory.
Between runs, a small JSON state file remembers when the last check happened and
whether an update was known. The UI panels and two operators read and guard a
process-wide update state. A PO-file reader supplies the add-on's translations.

The model has one module per concern:

| file | module | models |
|---|---|---|
| wrappers.dfy | Wrappers | `Option` and `Result` |
| text.dfy | Text | Python's `str(int)`, `sep.join`, `str.split(sep)`, `str.replace` and `re.findall(r"\d+", s)` with `int(...)` |
| state.dfy | State | mod_update/state.py: the status constants and the mutable state record (`UpdateState`, a class) |
| version.dfy | Version | `_parse_tag`, and Python's tuple order on versions |
| pattern.dfy | Pattern | `re.match(r".+\d+.\d+.\d+.+", name)`, as a backtracking token matcher with a direct characterisation |
| disk.dfy | Disk | an abstract directory tree with `rmtree`, `extractall`, `rename` and `rmdir` |
| updatelib.dfy | UpdateLib | mod_update/updatelib.py: the module globals and the disk as class `Updater`, whose methods are proved equal to specification functions (`CheckSpec`, `DownloadSpec`); the lemmas are about those functions |
| operators.dfy | Operators | the `execute` guards of the check and install operators |
| ui.dfy | UI | the status line, notice and button choice of the sidebar and preferences panels |
| localization.dfy | Localization | `_po_parse`, and `extend` as a method on class `Translations` |
| scenarios.dfy | Scenarios | concrete cases: tags, asset names, the state file, panel texts |

The worker threads of `update_init_check` and `update_init_download` are run to their
end synchronously. Everything the code takes from outside is an input of the model:
- the add-on preferences;
- the clock, with the local time zone as a fixed UTC offset;
- `bpy.app.version`;
- the answer to each HTTP request: decoded records, an `HTTPError`/`URLError` text, or
  a body that does not decode;
- the downloaded archive's member list.

A Python exception that the code does not catch ends the worker thread. The model
returns it as a `Raised` exit and keeps the state the thread left behind. Examples are
a state file that is not valid JSON, a tag with two dashes, and an archive that is not
a zip file.

The check-state file sits at `ADDON_DIR/.config/update_state.json` (var.py). It is a
node of the same tree as the add-on directory, so the swap's `rmtree` removes it too,
as it does in the code.

Some behaviours of the code worth stating; the model follows them:
- A network error during a check, and an asset list without an installation file, both
  still write the check-state file (updatelib.py:128, 143). `CheckFeedUnreachable` and
  `CheckNoInstallFile` state this.
- An unreadable state file is not replaced by defaults: `json.load` raises
  (updatelib.py:55). This is `StateFileUnreadable`.
- A tag without digits parses to an empty version, with no error. A tag with two or
  more dashes raises when it is unpacked (updatelib.py:113) instead of being skipped.
  This is `CheckBadTag`.
- A non-forced check that is not due clears `update_available` (updatelib.py:92). This
  is `CheckNotDue`.

## Model

| member | source | states |
|---|---|---|
| State.Code | mod_update/state.py:4-7 | CHECKING is 0, INSTALLING 1, COMPLETED 2 and ERROR 3, and no status has another code |
| State.CodeInjective | mod_update/state.py:4-7 | the four status codes are distinct |
| State.UpdateState.constructor | mod_update/state.py:9-16 | the state starts idle, never checked, with no update known and no version, URL or error text |
| Text.NatToString | mod_update/updatelib.py:132 | `str(n)` is non-empty decimal digits and starts with '0' only for 0 |
| Text.DecimalValueOfNatToString | mod_update/updatelib.py:66 | `int(str(n)) == n` |
| Text.NatToStringInjective | mod_update/updatelib.py:132 | different numbers print differently |
| Text.IntToString | mod_update/ui.py:104 | `str(n)` of an int is non-empty and starts with '-' exactly for negatives |
| Text.IntToStringInjective | mod_update/ui.py:104 | different day counts print differently |
| Text.Render | mod_update/updatelib.py:132 | the dot-join holds only digits and the separator |
| Text.LeadingDigits | mod_update/updatelib.py:66 | a `\d+` run is maximal: it stops at the first non-digit |
| Text.DigitRuns | mod_update/updatelib.py:66 | `re.findall(r"\d+", s)` is empty exactly when s has no digit |
| Text.LeadingDigitsExact | mod_update/updatelib.py:66 | the run length is the only maximal digit prefix |
| Text.DigitRunsSkip | mod_update/updatelib.py:66 | a non-digit adds no number |
| Text.DigitRunsNumber | mod_update/updatelib.py:66 | a printed number followed by a non-digit is found as that number |
| Text.DigitRunsLeading | mod_update/updatelib.py:66 | a maximal digit run at the front is read as its decimal value, leading zeros included, so "01" reads 1 |
| Text.DigitRunsOfRender | mod_update/updatelib.py:66 | the numbers of a version joined by a non-digit separator are found again, in order |
| Text.Split | mod_update/updatelib.py:67 | `s.split(c)` has one more part than s has c's, no part holds c, and s without c is one part |
| Text.JoinSplit | mod_update/updatelib.py:67 | joining the parts of a split gives back the string |
| Text.SplitJoin | mod_update/localization/__init__.py:29 | splitting a join of parts that hold no separator gives the parts back |
| Text.JoinOpeners | mod_update/localization/__init__.py:28 | in a join, the first character and every character after a separator opens a part or is a separator |
| Text.SplitAround | mod_update/updatelib.py:67 | a string with its first separator at a known place splits there |
| Text.ReplaceAbsent | mod_update/localization/__init__.py:32 | `replace` changes nothing when the pattern does not occur |
| Text.ReplaceFirst | mod_update/localization/__init__.py:28 | `replace` rewrites the first occurrence and goes on after it |
| Version.ParseTag | mod_update/updatelib.py:62-73 | the result has at least two parts; a tag without '-' gives its numbers and (0, 0, 0); it is a pair exactly when the tag has at most one '-' |
| Version.ParseTagOneDash | mod_update/updatelib.py:65-68 | a tag with one '-' gives the numbers left and right of it |
| Version.ParseTagOfRender | mod_update/updatelib.py:62-73 | two versions written with any non-digit separator around one '-' are read back as that pair |
| Version.ParseTagOfRenderAlone | mod_update/updatelib.py:70-71 | one version written without '-' is read back with (0, 0, 0) |
| Version.Less | mod_update/updatelib.py:115 | definition: Python's `<` on int tuples, element by element, a proper prefix being smaller; its properties are in LessIrreflexive, LessTransitive, LessTotal, LessAsymmetric and PrefixLess |
| Version.LessEq | mod_update/updatelib.py:115 | definition: Python's `<=` on int tuples, `Less` or equal; used by `Eligible` |
| Version.LessIrreflexive | mod_update/updatelib.py:115 | no version is newer than itself |
| Version.LessTransitive | mod_update/updatelib.py:115 | the tuple order is transitive |
| Version.LessTotal | mod_update/updatelib.py:115 | any two versions are equal or one is smaller |
| Version.LessAsymmetric | mod_update/updatelib.py:115 | never both a < b and b < a |
| Version.PrefixLess | mod_update/updatelib.py:115 | a proper prefix of a tuple is smaller than the tuple |
| Pattern.IsInstallFileShape | mod_update/updatelib.py:124 | the regular-expression match succeeds exactly when the name has the shape: one or more characters, a digit, one character, one or more digits, one character, a digit, one more character, all before the first newline |
| Pattern.IsInstallFile | mod_update/updatelib.py:124 | definition: `re.match(r".+\d+.\d+.\d+.+", name)` as a backtracking token matcher; its meaning is stated by IsInstallFileShape |
| Pattern.ShapeMatches | mod_update/updatelib.py:124 | a name of that shape matches |
| Pattern.MatchShape | mod_update/updatelib.py:124 | every matching name has that shape |
| Pattern.RunMatches | mod_update/updatelib.py:124 | a `+` token matches any non-empty run of its class |
| Pattern.RunSplit | mod_update/updatelib.py:124 | every match of a `+` token consumes a non-empty run of its class |
| Disk.Relative | mod_update/updatelib.py:164 | the subtree at a path holds exactly what lies below it |
| Disk.Place | mod_update/updatelib.py:168 | a tree placed at a path holds the same nodes below that path |
| Disk.RemovedIsEmpty | mod_update/updatelib.py:166 | after `rmtree` nothing is left at or below the directory |
| Disk.ExtractRelative | mod_update/updatelib.py:167 | extracting below a directory is extracting into its subtree |
| Disk.RenameRelative | mod_update/updatelib.py:168 | after a rename onto a free path, that path holds what the source held |
| Disk.RmdirRelative | mod_update/updatelib.py:169 | `rmdir` of a directory outside another leaves the other's subtree alone |
| Disk.RmdirEmpties | mod_update/updatelib.py:169 | `rmdir` of a directory with nothing inside leaves nothing there |
| Disk.ExtractNotInside | mod_update/updatelib.py:166-167 | extracting elsewhere does not recreate the removed add-on directory |
| Disk.RelativeRemoveTree | mod_update/updatelib.py:166 | removing one directory leaves a sibling's subtree alone |
| Disk.AbsentRelative | mod_update/updatelib.py:167 | a path that does not exist has an empty subtree |
| Disk.OutsideRemoveTree | mod_update/updatelib.py:166 | `rmtree` changes nothing outside the two directories |
| Disk.OutsideExtract | mod_update/updatelib.py:167 | `extractall` changes nothing outside the extract directory |
| Disk.OutsideRename | mod_update/updatelib.py:168 | the rename changes nothing outside the two directories |
| Disk.OutsideRmdir | mod_update/updatelib.py:169 | `rmdir` changes nothing outside the extract directory |
| UpdateLib.ReleasesUrl | mod_update/updatelib.py:192 | the feed URL is the API prefix, the repository name and the suffix, and the name can be read back from it |
| UpdateLib.Updater.constructor | mod_update/updatelib.py:12-13 | before `init`, ADDON_VERSION and RELEASES_URL are unset |
| UpdateLib.Updater.Init | mod_update/updatelib.py:187-194 | `init` sets the version and the feed URL, then runs exactly a non-forced check |
| UpdateLib.Updater.RuntimeStateSet | mod_update/updatelib.py:17-22 | only the status changes |
| UpdateLib.Save | mod_update/updatelib.py:25-41 | definition: days_passed 0, status set, the state file holding update_available and now; its properties are in LoadAfterSave, LoadAfterSaveSameDay and DueAfterSave |
| UpdateLib.Load | mod_update/updatelib.py:44-59 | definition: a missing file changes nothing, a present one sets update_available and days_passed, an unreadable one raises; its properties are in LoadAfterSave and LoadAfterSaveSameDay |
| UpdateLib.Updater.SaveStateSerialize | mod_update/updatelib.py:25-41 | days_passed becomes 0, the state file gets update_available and the current time, status becomes the argument |
| UpdateLib.Updater.SaveStateDeserialize | mod_update/updatelib.py:44-59 | a missing file changes nothing; a present one sets update_available (default False) and the days since the last check (default 0); an unreadable one raises and changes nothing |
| UpdateLib.LoadAfterSave | mod_update/updatelib.py:25-59 | loading after a save reads back update_available and counts the calendar days since the save |
| UpdateLib.LoadAfterSaveSameDay | mod_update/updatelib.py:25-59 | loading right after a save on the same clock changes nothing, so days_passed stays 0 |
| UpdateLib.IsAutocheck | mod_update/updatelib.py:76-85 | definition: `_is_autocheck`; its properties are in AutocheckDue, DueAfterSave and CheckNotDue |
| UpdateLib.DueAfterSave | mod_update/updatelib.py:76-85 | right after a save, a non-forced check is due exactly when auto-check is on and an update is known |
| UpdateLib.AutocheckDue | mod_update/updatelib.py:76-85 | auto-check off is never due; a state never checked, or with an update known, is due exactly when auto-check is on |
| UpdateLib.Classify | mod_update/updatelib.py:109-116 | one turn of the release loop body: pass over, take with the add-on version, or fail to unpack; its meaning is stated by `ClassifyMeaning` |
| UpdateLib.ClassifyMeaning | mod_update/updatelib.py:109-116 | a release is passed over exactly when it is skipped or its tag is a pair that is not eligible; the loop stops exactly at a release not skipped with an eligible tag, with that tag's add-on version; it raises exactly at a release not skipped whose tag is not a pair |
| UpdateLib.Scan | mod_update/updatelib.py:109-120 | a `for ... break ... else` loop stops at a release whose body stops or raises, after passing over every release before it, or runs to its `else` with every release passed over |
| UpdateLib.ScanSkips | mod_update/updatelib.py:109-116 | releases the loop body passes over do not change where the loop stops |
| UpdateLib.FirstRelease | mod_update/updatelib.py:109-116 | the release loop stops at a release that one turn of the loop takes, with its add-on version, or at one whose tag raises; every release before it is passed over; or it ends with every release passed over |
| UpdateLib.NoReleaseIff | mod_update/updatelib.py:109-120 | the loop runs to its `else` exactly when it passes over every release |
| UpdateLib.SkipPassedOver | mod_update/updatelib.py:109-116 | releases passed over do not change where the loop stops |
| UpdateLib.FirstReleaseAt | mod_update/updatelib.py:109-116 | the loop stops at the first release it does not pass over |
| UpdateLib.SelectRelease | mod_update/updatelib.py:109-120 | the `for ... break ... else` loop ends where `FirstRelease` says |
| UpdateLib.FirstAsset | mod_update/updatelib.py:123-125 | the asset loop stops at the first installation file, or finds none |
| UpdateLib.SkipNonMatching | mod_update/updatelib.py:123-125 | assets that are not installation files do not change where the loop stops |
| UpdateLib.SelectAsset | mod_update/updatelib.py:123-129 | the asset loop ends where `FirstAsset` says |
| UpdateLib.VersionLabelParts | mod_update/updatelib.py:132-136 | update_version ends with " (pre-release)" exactly for a pre-release, and its numbers read back as the version |
| UpdateLib.CheckSpec | mod_update/updatelib.py:88-143 | definition: `_update_check` as a function of the world and the inputs; its outcomes are in CheckOutcomes, CheckNotDue, CheckNoRelease, CheckFindsUpdate, CheckNoInstallFile, CheckFeedUnreachable, CheckAssetsUnreachable and CheckBadTag |
| UpdateLib.AfterFeed | mod_update/updatelib.py:104-143 | definition: the check once status is CHECKING; its outcomes are in AfterFeedSettled |
| UpdateLib.AfterAssets | mod_update/updatelib.py:122-143 | definition: the check once a release is chosen; its outcomes are in AfterAssetsSettled |
| UpdateLib.Updater.UpdateCheck | mod_update/updatelib.py:88-143 | `_update_check` leaves the state and disk, makes the requests and exits as `CheckSpec` says |
| UpdateLib.Updater.CheckFeed | mod_update/updatelib.py:104-143 | once status is CHECKING, the feed request and the release loop leave the world as `AfterFeed` says |
| UpdateLib.Updater.CheckAssets | mod_update/updatelib.py:122-138 | the asset half of the check leaves the world as `AfterAssets` says |
| UpdateLib.CheckNotDue | mod_update/updatelib.py:91-93 | a non-forced check that is not due clears update_available only: no request, no status change, no file written |
| UpdateLib.AfterAssetsSettled | mod_update/updatelib.py:122-138 | the asset request either raises with state and disk untouched, or returns idle or ERROR with the check state persisted |
| UpdateLib.AfterFeedSettled | mod_update/updatelib.py:104-143 | likewise for everything after the feed request |
| UpdateLib.CheckOutcomes | mod_update/updatelib.py:88-143 | a check without requests changes no status and no file; one with requests asked for the feed first, raises leaving CHECKING and no file, or returns idle or ERROR with days_passed 0 and the check state persisted |
| UpdateLib.CheckNoRelease | mod_update/updatelib.py:117-120 | with every release passed over, update_available becomes False and is persisted, and status returns to idle |
| UpdateLib.CheckFindsUpdate | mod_update/updatelib.py:109-138 | an eligible release with an installation file becomes the available update, with its label, download URL and changelog URL; the file records it, and status returns to idle |
| UpdateLib.CheckNoInstallFile | mod_update/updatelib.py:126-129 | without an installation file the error text is "Unable to find installation file", status becomes ERROR, and the check state is persisted |
| UpdateLib.CheckFeedUnreachable | mod_update/updatelib.py:104-143 | an HTTP or URL error on the release-feed request sets its text as the error text and ERROR, after that one request, and the check state is persisted |
| UpdateLib.CheckAssetsUnreachable | mod_update/updatelib.py:122-143 | an HTTP or URL error on the asset request of the chosen release sets its text as the error text and ERROR, after both requests, and the check state is persisted |
| UpdateLib.CheckBadTag | mod_update/updatelib.py:113 | a tag with two or more '-' raises, leaving status CHECKING and no file written |
| UpdateLib.ExtractDirSibling | mod_update/updatelib.py:162-163 | the extract directory is a sibling of the add-on directory, neither inside the other |
| UpdateLib.ExtractDir | mod_update/updatelib.py:162-163 | definition: the sibling `"<add-on dir> update <version without dots>"`; its properties are in ExtractDirSibling and Scenarios.ExtractDirName |
| UpdateLib.Swap | mod_update/updatelib.py:164-168 | definition: rmtree, then extractall, then rename, in that order; its properties are in SwapInside, SwapOutside and SwapThenRmdir |
| UpdateLib.SwapInside | mod_update/updatelib.py:164-168 | after rmtree, extractall and rename, the add-on directory holds the archive's first top-level entry, extracted over what the extract directory held |
| UpdateLib.SwapOutside | mod_update/updatelib.py:166-168 | the swap changes nothing outside the two directories |
| UpdateLib.SwapThenRmdir | mod_update/updatelib.py:164-169 | after the swap and the `rmdir` of an emptied extract directory, the add-on directory holds the archive's first entry, the extract directory is gone, and nothing else changed |
| UpdateLib.Updater.UpdateDownload | mod_update/updatelib.py:146-176 | `_update_download` leaves the state and disk, makes the request and exits as `DownloadSpec` says |
| UpdateLib.DownloadSpec | mod_update/updatelib.py:146-176 | definition: `_update_download` as a function of the world and the inputs; its outcomes are in DownloadOutcomes, DownloadInstalls and DownloadInstallsArchive |
| UpdateLib.DownloadOutcomes | mod_update/updatelib.py:155-176 | a download changes only status and error_msg; it returns COMPLETED or ERROR and raises at INSTALLING; after an ERROR the disk, and so the check-state file, is untouched |
| UpdateLib.DownloadInstalls | mod_update/updatelib.py:160-171 | a completed install replaced the add-on directory by the archive's first top-level entry, removed the extract directory, and left everything else as it was |
| UpdateLib.DownloadInstallsArchive | mod_update/updatelib.py:164-169 | with no leftovers in the extract directory, the new add-on directory is exactly that entry of the archive |
| Operators.NotBusyIff | mod_update/operators.py:17 | the guard lets an operator through exactly when status is None or ERROR |
| Operators.Busy | mod_update/operators.py:17-18 | definition: status is CHECKING, INSTALLING or COMPLETED; its properties are in NotBusyIff, CheckExecute, DownloadExecute and UI.ButtonMatchesGuard |
| Operators.CheckExecute | mod_update/operators.py:16-20 | CANCELLED, with nothing changed, exactly while busy; otherwise FINISHED after a forced check |
| Operators.DownloadExecute | mod_update/operators.py:29-33 | CANCELLED, with nothing changed, exactly while busy; otherwise FINISHED after a download |
| Operators.GuardAfterCheck | mod_update/operators.py:16-20 | a check that raised after its first request leaves the guard shut; a check that returned leaves it open |
| Operators.GuardAfterDownload | mod_update/operators.py:29-33 | after a download the guard is open exactly when it ended in ERROR |
| UI.PrefsBannerPriority | mod_update/ui.py:76-106 | the preferences status line follows COMPLETED, CHECKING, INSTALLING, ERROR, an available update, then the last check |
| UI.LastCheckedInjective | mod_update/ui.py:97-104 | "never", "today", "yesterday" and "n days ago" tell every days_passed apart |
| UI.SidebarAgreesWithPrefs | mod_update/ui.py:24-49 | where the sidebar is shown, it shows what the preferences show, except that during CHECKING it still announces the update; both offer the install |
| UI.CloseNoticeIff | mod_update/ui.py:28-34 | both panels show the "Close Blender" notice exactly when status is COMPLETED |
| UI.ButtonMatchesGuard | mod_update/ui.py:111 | the button row is enabled exactly when the operators' guard lets them through |
| UI.SidebarShown | mod_update/ui.py:13-15 | definition: `Sidebar.poll`, shown exactly when an update is available; used by SidebarAgreesWithPrefs |
| UI.SidebarBanner | mod_update/ui.py:28-43 | definition: the sidebar's if/elif chain, with no CHECKING branch; its properties are in SidebarAgreesWithPrefs, CloseNoticeIff and Scenarios.PrefsTexts |
| UI.PrefsBanner | mod_update/ui.py:76-106 | definition: the preferences panel's if/elif chain; its properties are in PrefsBannerPriority, CloseNoticeIff and Scenarios.PrefsTexts |
| UI.LastCheckedWhen | mod_update/ui.py:97-104 | definition: "never", "today", "yesterday" or "n days ago"; its properties are in LastCheckedInjective and Scenarios.PrefsTexts |
| UI.CloseNotice | mod_update/ui.py:76-82 | definition: the "Close Blender" line, drawn with the COMPLETED banner; its property is CloseNoticeIff |
| UI.ButtonEnabled | mod_update/ui.py:111 | definition: status is None or ERROR; its property is ButtonMatchesGuard |
| UI.SidebarButton | mod_update/ui.py:49 | definition: the sidebar always offers the install button |
| UI.PrefsButton | mod_update/ui.py:113-116 | definition: install when an update is available, otherwise check; compared with the sidebar in SidebarAgreesWithPrefs |
| Localization.TableOf | mod_update/localization/__init__.py:31-35 | no key of the table has an empty text |
| Localization.TableKeys | mod_update/localization/__init__.py:31-35 | a key is in the table exactly when some entry with a non-empty text has it, with "*" for a missing context and the id unescaped |
| Localization.TableLastWins | mod_update/localization/__init__.py:31-35 | a key maps to the unescaped text of the last entry with that key |
| Localization.UnescapeNewline | mod_update/localization/__init__.py:32 | a backslash-n becomes a newline |
| Localization.JoinContinuedLine | mod_update/localization/__init__.py:28 | a string continued on the next line is joined to it |
| Localization.FieldAfterTrailing | mod_update/localization/__init__.py:29 | text after the closing quote of a `msgctxt` or `msgid` value stops the line from starting a match; after a `msgstr` value it is ignored |
| Localization.ParseFieldLine | mod_update/localization/__init__.py:29 | a field line `keyword "value"` is read as that field |
| Localization.ReadWritten | mod_update/localization/__init__.py:29 | the entries written as field lines are read back, in order |
| Localization.WrittenPlain | mod_update/localization/__init__.py:28-29 | every written line opens with its keyword and holds no line break |
| Localization.NoContinued | mod_update/localization/__init__.py:28 | joining continued strings changes nothing in text made of such lines |
| Localization.PoParseEmpty | mod_update/localization/__init__.py:26-35 | an empty text gives an empty table |
| Localization.PoParse | mod_update/localization/__init__.py:26-35 | definition: `_po_parse` as join-continued, split into lines, read entries, build the table; its properties are in PoParseWritten, TableKeys, TableLastWins, JoinContinuedLine and FieldAfterTrailing |
| Localization.PoParseWritten | mod_update/localization/__init__.py:26-35 | `_po_parse` of written entries joined with line breaks is exactly the table of those entries |
| Localization.Entries | mod_update/localization/__init__.py:29 | definition: the matches, left to right and without overlap, with an optional context; its property is ReadWritten |
| Localization.KeyOf | mod_update/localization/__init__.py:32 | definition: "*" for a missing context and the id unescaped; used by TableKeys and TableLastWins |
| Localization.Merge | mod_update/localization/__init__.py:45-48 | `extend` never adds or removes a language |
| Localization.MergeOne | mod_update/localization/__init__.py:46-48 | one turn of `extend` keeps the set of languages; its meaning is in MergeUntouched, MergeKeepsKeys, MergeKeepsText and MergeLastWins |
| Localization.MergeUntouched | mod_update/localization/__init__.py:46-47 | a language no catalogue is for keeps its table |
| Localization.MergeKeepsKeys | mod_update/localization/__init__.py:48 | the in-place merge never loses a key |
| Localization.MergeKeepsText | mod_update/localization/__init__.py:48 | a text that no catalogue for its language overrides is kept |
| Localization.MergeLastWins | mod_update/localization/__init__.py:48 | an incoming text wins, the last catalogue with the key deciding |
| Localization.Translations.Extend | mod_update/localization/__init__.py:45-48 | the loop over the (language, parsed table) pairs that `_walk` yields leaves the dictionary as `Merge` says |
| Scenarios.TagParts | mod_update/updatelib.py:62-73 | "1.1.0-2.90.0" and "1,1,0-2,90,0" both give ((1,1,0), (2,90,0)) |
| Scenarios.ReleaseSelected | mod_update/updatelib.py:109-116 | with add-on 1.0.0 on Blender 2.93, a draft and a pre-release are skipped whatever their tags, and a release whose tag parses as ((1,1,0), (2,90,0)), as "1.1.0-2.90.0" does, is taken |
| Scenarios.ReleaseTooNew | mod_update/updatelib.py:115 | on Blender 2.80 that release is passed over and the loop finds nothing |
| Scenarios.TwoDashes | mod_update/updatelib.py:65-73 | "1-rc-2" has two '-' and does not parse into a pair |
| Scenarios.BadTagStops | mod_update/updatelib.py:113 | a release that is not skipped and whose tag is not a pair stops the loop with an unpacking error |
| Scenarios.AssetNames | mod_update/updatelib.py:124 | "thing-1.1.0.zip" is an installation file, "thing.zip" is not |
| Scenarios.PrereleaseLabel | mod_update/updatelib.py:132-136 | pre-release 1.1.0 is announced as "1.1.0 (pre-release)" |
| Scenarios.ExtractDirName | mod_update/updatelib.py:163 | version "1.1.0" of add-on directory "thing" is extracted into its sibling "thing update 110" |
| Scenarios.ThreeDaysLater | mod_update/updatelib.py:53-58 | a save read three local days later gives days_passed 3 |
| Scenarios.DueDaily | mod_update/updatelib.py:76-85 | with the daily interval a check is due after a day, not the same day; weekly, not after six days |
| Scenarios.PrefsTexts | mod_update/ui.py:84-106 | "Last checked never", "Last checked 3 days ago", "Checking..." and the sidebar's announcement during a check |
| Scenarios.CatalogueEntries | mod_update/localization/__init__.py:31-35 | an untranslated entry is dropped and a missing context becomes "*" |

## Left out

- Threads: `update_init_check` and `update_init_download` (updatelib.py:179-184) start a worker thread. The model runs the worker to its end synchronously, with no interleaving with the UI.
- Network, `ssl` and `json`: the feed, the asset list and the archive are inputs. `str(e)` of an HTTP or URL error is an input text.
- JSON values of the wrong type: the state file is read as two optional keys. A non-integer `last_check` or a non-boolean `update_available` is not modelled.
- `bpy`: the redraw of every area by `_runtime_state_set`, the preference lookups and `bpy.app.version` are left out or passed in as parameters.
- The clock: `datetime` is replaced by a timestamp and a fixed UTC offset. Daylight-saving changes between two timestamps are not modelled.
- File-system failures other than the modelled ones: a failing write or `mkdir` of the state file, and a failing `rename`, are left out. `Path.rename` onto a path that still exists is not modelled, because rmtree has just removed it.
- UpdateLib.Updater.UpdateDownload: `shutil.rmtree` and `extractall` always complete in the model. In the code either can fail partway, for example on a denied permission or a full disk. Such a failure raises an `OSError` the code does not catch, which leaves status INSTALLING. It can strike after the add-on directory is gone, between the delete and the extract. The model does not capture that partly swapped outcome.
- Unicode: `\d` is taken over the ASCII digits only. `\s` is taken as space, tab, newline, carriage return, vertical tab and form feed; Python's `\s` also matches the separators `\x1c`-`\x1f` and non-ASCII spaces, which the model does not.
- UpdateLib.CheckSpec: one clock reading serves both the load (`date.today()`, updatelib.py:57) and the save (`datetime.now()`, updatelib.py:32). The code reads the clock twice, after the network requests for the save, so a check that spans midnight is not modelled.
- `WM_OT_update_whats_new` opens a web browser and is left out (I/O only).
- `_walk` (localization/__init__.py:38-42) lists the PO files in a directory and reads them, and is left out as I/O. `extend` receives what it yields, each file's stem with `_po_parse` of its text (a `Catalogue`), in directory order.
- Widget layout, icons and the `_()` translation lookups of ui.py are left out. Panels are described by their status line, notice and button.
- Localization.PoParse: the regular expression of `_po_parse` is modelled as a line reader. It reads one field per line, from the first to the last quote of the line. A field that follows other text on the same line is not found, for example after `#~ ` in an obsolete entry or after a `#|` comment. Neither is a field that shares a line with another field.
- Localization.Translations.Extend: `d[k] |= v` updates a language's inner dictionary in place. The model replaces the table value, so aliasing of inner dictionaries shared elsewhere is not captured.
- UpdateLib.Updater.UpdateCheck: requires that `init` has run. Before `init`, ADDON_VERSION and RELEASES_URL are None and the check fails with a Python error, which the model does not cover.
