/** The update check and the update install of mod_update/updatelib.py.

    The world the updater acts on is the update state (mod_update/state.py)
    and the file system, as an abstract tree.  Everything the Python code
    asks of the outside world (the add-on preferences, the clock, Blender's
    version, the answers to its HTTP requests, the downloaded archive) is an
    input of the model.  A Python exception that the code does not catch
    ends the worker thread: the model returns it as a `Raised` exit and
    leaves the state as the thread left it. */
module UpdateLib {
  import opened Wrappers
  import opened State
  import opened Disk
  import Text
  import Version
  import Pattern

  /** The auto-check interval preference, "1", "7" or "30" days. */
  datatype Interval = Daily | Weekly | Monthly {
    function Days(): nat {
      match this
      case Daily => 1
      case Weekly => 7
      case Monthly => 30
    }
  }

  /** The add-on preferences the updater reads. */
  datatype Prefs = Prefs(autocheck: bool, prerelease: bool, interval: Interval)

  /** The fields of one release record of the GitHub feed that the check reads. */
  datatype Release = Release(tagName: string, prerelease: bool, draft: bool, assetsUrl: string, htmlUrl: string)

  /** An asset record: its file name and `browser_download_url`. */
  datatype Asset = Asset(name: string, downloadUrl: string)

  /** The outcome of one HTTP request: the decoded body, an HTTPError or
      URLError with its text, or a body that does not decode. */
  datatype Fetch<T> = Fetched(body: T) | NetworkError(msg: string) | Undecodable

  /** The current time as a POSIX timestamp, and the local time zone's offset
      in seconds, which decides the local calendar day. */
  datatype Clock = Clock(now: int, utcOffset: int)

  /** Everything one run of `_update_check` receives from outside. */
  datatype CheckEnv = CheckEnv(
    prefs: Prefs,
    clock: Clock,
    hostVersion: seq<nat>,
    feed: Fetch<seq<Release>>,
    assets: Fetch<seq<Asset>>)

  /** The uncaught exceptions that end a run early. */
  datatype Uncaught =
    | StateFileUnreadable   // json.load of the state file fails
    | FeedUndecodable       // the release feed is not a list of release records
    | TagNotAPair           // a tag with two or more '-' cannot be unpacked
    | AssetsUndecodable     // the asset list is not a list of asset records
    | NoDownloadUrl         // the download starts with no download URL
    | BadArchive            // the download is not a zip archive
    | NoUpdateVersion       // the extract directory is named from a missing version
    | EmptyArchive          // the archive has no first member to name the update directory
    | AddonDirMissing       // rmtree of the add-on directory fails
    | ExtractDirNotEmpty    // rmdir of the extract directory fails

  datatype Exit = Returned | Raised(error: Uncaught)

  /** The update state and the file system. */
  datatype World = World(state: StateValue, disk: Tree)

  /** A run: the world it leaves, the URLs it requested in order, how it ended. */
  datatype Run = Run(world: World, requests: seq<string>, exit: Exit)

  const SecondsPerDay := 86400
  const ReleasesPrefix := "https://api.github.com/repos/"
  const ReleasesSuffix := "/releases?per_page=10"
  const NoInstallFile := "Unable to find installation file"
  const PrereleaseNote := " (pre-release)"

  /** `RELEASES_URL` as `init` builds it from the repository's "owner/name". */
  function ReleasesUrl(repo: string): (url: string)
    ensures |url| == |ReleasesPrefix| + |repo| + |ReleasesSuffix|
    ensures url[|ReleasesPrefix|..|url| - |ReleasesSuffix|] == repo
  {
    ReleasesPrefix + repo + ReleasesSuffix
  }

  /** The check-state file, in the `.config` directory inside the add-on's own directory. */
  function StateFile(addonDir: Path): Path {
    addonDir + [".config", "update_state.json"]
  }

  /** The local calendar day of a timestamp. */
  function DayOf(c: Clock, ts: int): int {
    (ts + c.utcOffset) / SecondsPerDay
  }

  function Today(c: Clock): int {
    DayOf(c, c.now)
  }

  function Parent(p: Path): Path {
    if p == [] then [] else p[..|p| - 1]
  }

  function Name(p: Path): string {
    if p == [] then "" else p[|p| - 1]
  }

  /** `_save_state_serialize(status)`: days_passed becomes 0, the file gets
      the current update_available and the current time, status is set. */
  function Save(w: World, file: Path, c: Clock, status: Option<Status>): World {
    World(
      w.state.(daysPassed := Some(0), status := status),
      w.disk[file := File(CheckRecord(Some(w.state.updateAvailable), Some(c.now)))])
  }

  /** `_save_state_deserialize()`: nothing happens without a file; otherwise
      its two keys, defaulting to False and 0, give update_available and the
      days since the last check. */
  function Load(w: World, file: Path, c: Clock): Result<World, Uncaught> {
    if !Exists(w.disk, file) then Success(w)
    else if file in w.disk && w.disk[file].File? && w.disk[file].content.CheckRecord? then
      var rec := w.disk[file].content;
      Success(w.(state := w.state.(
        daysPassed := Some(Today(c) - DayOf(c, rec.lastCheck.GetOr(0))),
        updateAvailable := rec.updateAvailable.GetOr(false))))
    else Failure(StateFileUnreadable)
  }

  /** `_is_autocheck()`: a non-forced check is due. */
  predicate IsAutocheck(s: StateValue, p: Prefs) {
    if !p.autocheck then false
    else if s.daysPassed.None? then true
    else s.updateAvailable || s.daysPassed.value >= p.interval.Days()
  }

  /** A state that has never been checked is due whenever auto-checking is
      on, and a known update keeps the check due every day. */
  lemma AutocheckDue(s: StateValue, p: Prefs)
    ensures s.daysPassed.None? ==> (IsAutocheck(s, p) <==> p.autocheck)
    ensures s.updateAvailable ==> (IsAutocheck(s, p) <==> p.autocheck)
    ensures !p.autocheck ==> !IsAutocheck(s, p)
  {
  }

  /** A release the loop skips: a draft, or a pre-release unless pre-releases are wanted. */
  predicate Skipped(r: Release, p: Prefs) {
    (!p.prerelease && r.prerelease) || r.draft
  }

  /** The parsed tag is a pair whose add-on version is newer than the
      installed one and whose Blender version is not newer than the host's. */
  predicate Eligible(vers: seq<seq<nat>>, addon: seq<nat>, host: seq<nat>) {
    |vers| == 2 && Version.Less(addon, vers[0]) && Version.LessEq(vers[1], host)
  }

  /** What one turn of the release loop does with a release: go on to the
      next, stop with its add-on version, or raise while unpacking its tag. */
  datatype Step = Pass | Take(version: seq<nat>) | Unpack

  /** One turn of the release loop. */
  function Classify(r: Release, p: Prefs, addon: seq<nat>, host: seq<nat>): (t: Step)
  {
    if Skipped(r, p) then Pass
    else
      var vers := Version.ParseTag(r.tagName);
      if |vers| != 2 then Unpack
      else if Eligible(vers, addon, host) then Take(vers[0])
      else Pass
  }

  /** The loop goes past a release without stopping. */
  predicate PassedOver(r: Release, p: Prefs, addon: seq<nat>, host: seq<nat>) {
    Classify(r, p, addon, host) == Pass
  }

  /** The loop passes over drafts, unwanted pre-releases and well-formed tags
      that are not eligible; it stops with the add-on version of an eligible
      tag, and it raises on a tag that does not unpack into two versions. */
  lemma ClassifyMeaning(r: Release, p: Prefs, addon: seq<nat>, host: seq<nat>)
    ensures var vers := Version.ParseTag(r.tagName);
      PassedOver(r, p, addon, host) <==> Skipped(r, p) || (|vers| == 2 && !Eligible(vers, addon, host))
    ensures var vers := Version.ParseTag(r.tagName);
      Classify(r, p, addon, host).Take? <==> !Skipped(r, p) && Eligible(vers, addon, host)
    ensures var vers := Version.ParseTag(r.tagName);
      Classify(r, p, addon, host).Take? ==> Classify(r, p, addon, host).version == vers[0]
    ensures var vers := Version.ParseTag(r.tagName);
      Classify(r, p, addon, host) == Unpack <==> !Skipped(r, p) && |vers| != 2
  {
  }

  /** Where the release loop stops: at a release and its add-on version, at
      the end of the feed, or at a tag whose unpacking raises. */
  datatype Selection = Selected(index: nat, version: seq<nat>) | NoRelease | UnpackFailed(index: nat)

  /** A `for ... break ... else` loop over the releases from index k on
      whose body does `step` to each release. */
  function Scan(step: Release -> Step, rs: seq<Release>, k: nat): (s: Selection)
    requires k <= |rs|
    ensures s.Selected? ==> k <= s.index < |rs| && step(rs[s.index]) == Take(s.version)
    ensures s.UnpackFailed? ==> k <= s.index < |rs| && step(rs[s.index]) == Unpack
    ensures !s.NoRelease? ==> forall j :: k <= j < s.index ==> step(rs[j]) == Pass
    ensures s.NoRelease? ==> forall j :: k <= j < |rs| ==> step(rs[j]) == Pass
    decreases |rs| - k
  {
    if k == |rs| then NoRelease
    else
      match step(rs[k])
      case Pass => Scan(step, rs, k + 1)
      case Take(v) => Selected(k, v)
      case Unpack => UnpackFailed(k)
  }

  /** Releases the body passes over do not change where the scan stops. */
  lemma {:induction false} ScanSkips(step: Release -> Step, rs: seq<Release>, k: nat, i: nat)
    requires k <= i <= |rs|
    requires forall j :: k <= j < i ==> step(rs[j]) == Pass
    ensures Scan(step, rs, k) == Scan(step, rs, i)
    decreases i - k
  {
    if k < i {
      ScanSkips(step, rs, k + 1, i);
    }
  }

  /** The body of the release loop of `_update_check`. */
  function LoopBody(p: Prefs, addon: seq<nat>, host: seq<nat>): Release -> Step {
    r => Classify(r, p, addon, host)
  }

  /** The release loop from index k on. */
  function FirstRelease(rs: seq<Release>, k: nat, p: Prefs, addon: seq<nat>, host: seq<nat>): (s: Selection)
    requires k <= |rs|
    ensures s.Selected? ==> k <= s.index < |rs| && Classify(rs[s.index], p, addon, host) == Take(s.version)
    ensures s.UnpackFailed? ==> k <= s.index < |rs| && Classify(rs[s.index], p, addon, host) == Unpack
    ensures !s.NoRelease? ==> forall j {:trigger PassedOver(rs[j], p, addon, host)} :: k <= j < s.index ==> PassedOver(rs[j], p, addon, host)
    ensures s.NoRelease? ==> forall j {:trigger PassedOver(rs[j], p, addon, host)} :: k <= j < |rs| ==> PassedOver(rs[j], p, addon, host)
  {
    Scan(LoopBody(p, addon, host), rs, k)
  }

  /** The loop runs to the end exactly when it passes over every release. */
  lemma NoReleaseIff(rs: seq<Release>, k: nat, p: Prefs, addon: seq<nat>, host: seq<nat>)
    requires k <= |rs|
    ensures FirstRelease(rs, k, p, addon, host).NoRelease? <==>
      forall j :: k <= j < |rs| ==> PassedOver(rs[j], p, addon, host)
  {
    var s := FirstRelease(rs, k, p, addon, host);
    if !s.NoRelease? {
      assert !PassedOver(rs[s.index], p, addon, host);
    }
  }

  /** The release `for` loop of `_update_check`, with its `break`. */
  method SelectRelease(rs: seq<Release>, p: Prefs, addon: seq<nat>, host: seq<nat>) returns (s: Selection)
    ensures s == FirstRelease(rs, 0, p, addon, host)
  {
    var i := 0;
    while i < |rs|
      invariant i <= |rs|
      invariant FirstRelease(rs, i, p, addon, host) == FirstRelease(rs, 0, p, addon, host)
    {
      var release := rs[i];
      if !Skipped(release, p) {
        var vers := Version.ParseTag(release.tagName);
        if |vers| != 2 {
          return UnpackFailed(i);
        }
        if Eligible(vers, addon, host) {
          return Selected(i, vers[0]);
        }
      }
      i := i + 1;
    }
    return NoRelease;
  }

  /** The asset loop from index k on: the first installation file. */
  function FirstAsset(assets: seq<Asset>, k: nat): (j: Option<nat>)
    requires k <= |assets|
    ensures j.Some? ==>
      k <= j.value < |assets| && Pattern.IsInstallFile(assets[j.value].name) &&
      forall i :: k <= i < j.value ==> !Pattern.IsInstallFile(assets[i].name)
    ensures j.None? ==> forall i :: k <= i < |assets| ==> !Pattern.IsInstallFile(assets[i].name)
    decreases |assets| - k
  {
    if k == |assets| then None
    else if Pattern.IsInstallFile(assets[k].name) then Some(k)
    else FirstAsset(assets, k + 1)
  }

  /** The asset `for` loop of `_update_check`, with its `break`. */
  method SelectAsset(assets: seq<Asset>) returns (j: Option<nat>)
    ensures j == FirstAsset(assets, 0)
  {
    var i := 0;
    while i < |assets|
      invariant i <= |assets|
      invariant FirstAsset(assets, i) == FirstAsset(assets, 0)
    {
      if Pattern.IsInstallFile(assets[i].name) {
        return Some(i);
      }
      i := i + 1;
    }
    return None;
  }

  /** `state.update_version`: the dot-joined version, marked when it is a pre-release. */
  function VersionLabel(ver: seq<nat>, prerelease: bool): string {
    Text.Render(ver, '.') + (if prerelease then PrereleaseNote else "")
  }

  /** `_update_check(force)`, run to its end on world w. */
  function CheckSpec(w: World, force: bool, addonDir: Path, addon: seq<nat>, url: string, env: CheckEnv): Run {
    var file := StateFile(addonDir);
    match Load(w, file, env.clock)
    case Failure(e) => Run(w, [], Raised(e))
    case Success(loaded) =>
      if !force && !IsAutocheck(loaded.state, env.prefs) then
        Run(loaded.(state := loaded.state.(updateAvailable := false)), [], Returned)
      else
        AfterFeed(loaded.(state := loaded.state.(status := Some(Checking))), file, addon, url, env)
  }

  /** The check once status is CHECKING: the feed request and the release loop. */
  function AfterFeed(w: World, file: Path, addon: seq<nat>, url: string, env: CheckEnv): Run {
    match env.feed
    case NetworkError(msg) =>
      Run(Save(w.(state := w.state.(errorMsg := Some(msg))), file, env.clock, Some(Error)), [url], Returned)
    case Undecodable => Run(w, [url], Raised(FeedUndecodable))
    case Fetched(rs) =>
      match FirstRelease(rs, 0, env.prefs, addon, env.hostVersion)
      case UnpackFailed(_) => Run(w, [url], Raised(TagNotAPair))
      case NoRelease =>
        Run(Save(w.(state := w.state.(updateAvailable := false)), file, env.clock, None), [url], Returned)
      case Selected(i, ver) => AfterAssets(w, file, rs[i], ver, url, env)
  }

  /** The check once a release is chosen: the asset request and the asset loop. */
  function AfterAssets(w: World, file: Path, release: Release, ver: seq<nat>, url: string, env: CheckEnv): Run {
    var requests := [url, release.assetsUrl];
    match env.assets
    case NetworkError(msg) =>
      Run(Save(w.(state := w.state.(errorMsg := Some(msg))), file, env.clock, Some(Error)), requests, Returned)
    case Undecodable => Run(w, requests, Raised(AssetsUndecodable))
    case Fetched(assets) =>
      match FirstAsset(assets, 0)
      case None =>
        Run(Save(w.(state := w.state.(errorMsg := Some(NoInstallFile))), file, env.clock, Some(Error)), requests, Returned)
      case Some(j) =>
        var found := w.state.(
          updateAvailable := true,
          updateVersion := Some(VersionLabel(ver, release.prerelease)),
          downloadUrl := Some(assets[j].downloadUrl),
          changelogUrl := Some(release.htmlUrl));
        Run(Save(w.(state := found), file, env.clock, None), requests, Returned)
  }

  /** The directory the archive is extracted into: a sibling of the add-on
      directory, named after it and the new version without its dots. */
  function ExtractDir(addonDir: Path, version: string): Path {
    Parent(addonDir) + [Name(addonDir) + " update " + Text.Replace(version, ".", "")]
  }

  /** The directory swap: rmtree of the add-on directory, extractall into
      the extract directory, then rename of the archive's first top-level
      entry, inside the extract directory, onto the add-on directory. */
  function Swap(t: Tree, addonDir: Path, e: Path, ms: seq<Member>): Tree
    requires ms != [] && ms[0].path != []
  {
    Rename(Extract(RemoveTree(t, addonDir), e, ms), e + [ms[0].path[0]], addonDir)
  }

  /** `_update_download()`, run to its end on world w. */
  function DownloadSpec(w: World, addonDir: Path, download: Fetch<seq<Member>>): Run {
    var installing := w.(state := w.state.(status := Some(Installing)));
    match w.state.downloadUrl
    case None => Run(installing, [], Raised(NoDownloadUrl))
    case Some(url) =>
      match download
      case NetworkError(msg) =>
        Run(installing.(state := installing.state.(errorMsg := Some(msg), status := Some(Error))), [url], Returned)
      case Undecodable => Run(installing, [url], Raised(BadArchive))
      case Fetched(ms) =>
        if w.state.updateVersion.None? then Run(installing, [url], Raised(NoUpdateVersion))
        else if ms == [] || ms[0].path == [] then Run(installing, [url], Raised(EmptyArchive))
        else if !Exists(w.disk, addonDir) then Run(installing, [url], Raised(AddonDirMissing))
        else
          var e := ExtractDir(addonDir, w.state.updateVersion.value);
          var swapped := Swap(w.disk, addonDir, e, ms);
          if HasInside(swapped, e) then Run(installing.(disk := swapped), [url], Raised(ExtractDirNotEmpty))
          else Run(World(installing.state.(status := Some(Completed)), Rmdir(swapped, e)), [url], Returned)
  }

  /** The module globals of updatelib.py with the state module and the file
      system they act on. */
  class Updater {
    const addonDir: Path
    const st: UpdateState
    var addonVersion: Option<seq<nat>>
    var releasesUrl: Option<string>
    var disk: Tree

    function Model(): World
      reads this, st
    {
      World(st.Value(), disk)
    }

    /** Importing the module: `ADDON_VERSION` and `RELEASES_URL` are None. */
    constructor (addonDir: Path, st: UpdateState, disk: Tree)
      ensures this.addonDir == addonDir && this.st == st && this.disk == disk
      ensures addonVersion == None && releasesUrl == None
    {
      this.addonDir := addonDir;
      this.st := st;
      this.disk := disk;
      addonVersion := None;
      releasesUrl := None;
    }

    /** `_runtime_state_set(status)` (the redraw of every area is left out). */
    method RuntimeStateSet(status: Option<Status>)
      modifies st
      ensures st.Value() == old(st.Value()).(status := status)
    {
      st.status := status;
    }

    /** `_save_state_serialize(status)`. */
    method SaveStateSerialize(clock: Clock, status: Option<Status>)
      modifies this`disk, st
      ensures Model() == Save(old(Model()), StateFile(addonDir), clock, status)
    {
      st.daysPassed := Some(0);
      var record := CheckRecord(Some(st.updateAvailable), Some(clock.now));
      disk := disk[StateFile(addonDir) := File(record)];
      RuntimeStateSet(status);
    }

    /** `_save_state_deserialize()`; an unreadable file raises. */
    method SaveStateDeserialize(clock: Clock) returns (raised: Option<Uncaught>)
      modifies st
      ensures Load(old(Model()), StateFile(addonDir), clock) ==
        if raised.Some? then Failure(raised.value) else Success(Model())
      ensures raised.Some? ==> Model() == old(Model())
    {
      var file := StateFile(addonDir);
      if !Exists(disk, file) {
        return None;
      }
      if file in disk && disk[file].File? && disk[file].content.CheckRecord? {
        var data := disk[file].content;
        st.daysPassed := Some(Today(clock) - DayOf(clock, data.lastCheck.GetOr(0)));
        st.updateAvailable := data.updateAvailable.GetOr(false);
        return None;
      }
      return Some(StateFileUnreadable);
    }

    /** `_update_check(force)`, run synchronously. */
    method UpdateCheck(force: bool, env: CheckEnv) returns (requests: seq<string>, exit: Exit)
      requires addonVersion.Some? && releasesUrl.Some?
      modifies this`disk, st
      ensures Run(Model(), requests, exit) ==
        CheckSpec(old(Model()), force, addonDir, addonVersion.value, releasesUrl.value, env)
    {
      var raised := SaveStateDeserialize(env.clock);
      if raised.Some? {
        return [], Raised(raised.value);
      }
      if !force && !IsAutocheck(st.Value(), env.prefs) {
        st.updateAvailable := false;
        return [], Returned;
      }
      RuntimeStateSet(Some(Checking));
      requests, exit := CheckFeed(releasesUrl.value, addonVersion.value, env);
    }

    /** The feed request and the release loop of `_update_check`, once status is CHECKING. */
    method CheckFeed(url: string, addon: seq<nat>, env: CheckEnv) returns (requests: seq<string>, exit: Exit)
      modifies this`disk, st
      ensures Run(Model(), requests, exit) == AfterFeed(old(Model()), StateFile(addonDir), addon, url, env)
    {
      requests := [url];
      match env.feed {
        case NetworkError(msg) =>
          st.errorMsg := Some(msg);
          SaveStateSerialize(env.clock, Some(Error));
          return requests, Returned;
        case Undecodable =>
          return requests, Raised(FeedUndecodable);
        case Fetched(rs) =>
          var selection := SelectRelease(rs, env.prefs, addon, env.hostVersion);
          match selection {
            case UnpackFailed(_) =>
              return requests, Raised(TagNotAPair);
            case NoRelease =>
              st.updateAvailable := false;
              SaveStateSerialize(env.clock, None);
              return requests, Returned;
            case Selected(i, ver) =>
              requests, exit := CheckAssets(url, rs[i], ver, env);
          }
      }
    }

    /** The asset request and loop of `_update_check`, for the chosen release. */
    method CheckAssets(url: string, release: Release, ver: seq<nat>, env: CheckEnv) returns (requests: seq<string>, exit: Exit)
      modifies this`disk, st
      ensures Run(Model(), requests, exit) == AfterAssets(old(Model()), StateFile(addonDir), release, ver, url, env)
    {
      requests := [url, release.assetsUrl];
      match env.assets {
        case NetworkError(msg) =>
          st.errorMsg := Some(msg);
          SaveStateSerialize(env.clock, Some(Error));
          return requests, Returned;
        case Undecodable =>
          return requests, Raised(AssetsUndecodable);
        case Fetched(assets) =>
          var j := SelectAsset(assets);
          if j.None? {
            st.errorMsg := Some(NoInstallFile);
            SaveStateSerialize(env.clock, Some(Error));
            return requests, Returned;
          }
          st.updateAvailable := true;
          st.updateVersion := Some(Text.Render(ver, '.'));
          st.downloadUrl := Some(assets[j.value].downloadUrl);
          st.changelogUrl := Some(release.htmlUrl);
          if release.prerelease {
            st.updateVersion := Some(st.updateVersion.value + PrereleaseNote);
          }
          assert Text.Render(ver, '.') + "" == Text.Render(ver, '.');
          SaveStateSerialize(env.clock, None);
          return requests, Returned;
      }
    }

    /** `_update_download()`, run synchronously. */
    method UpdateDownload(download: Fetch<seq<Member>>) returns (requests: seq<string>, exit: Exit)
      modifies this`disk, st
      ensures Run(Model(), requests, exit) == DownloadSpec(old(Model()), addonDir, download)
    {
      RuntimeStateSet(Some(Installing));
      if st.downloadUrl.None? {
        return [], Raised(NoDownloadUrl);
      }
      requests := [st.downloadUrl.value];
      match download {
        case NetworkError(msg) =>
          st.errorMsg := Some(msg);
          RuntimeStateSet(Some(Error));
          return requests, Returned;
        case Undecodable =>
          return requests, Raised(BadArchive);
        case Fetched(ms) =>
          if st.updateVersion.None? {
            return requests, Raised(NoUpdateVersion);
          }
          var extractDir := ExtractDir(addonDir, st.updateVersion.value);
          if ms == [] || ms[0].path == [] {
            return requests, Raised(EmptyArchive);
          }
          var updateDir := extractDir + [ms[0].path[0]];
          if !Exists(disk, addonDir) {
            return requests, Raised(AddonDirMissing);
          }
          disk := RemoveTree(disk, addonDir);
          disk := Extract(disk, extractDir, ms);
          disk := Rename(disk, updateDir, addonDir);
          if HasInside(disk, extractDir) {
            return requests, Raised(ExtractDirNotEmpty);
          }
          disk := Rmdir(disk, extractDir);
          RuntimeStateSet(Some(Completed));
          return requests, Returned;
      }
    }

    /** `init(addon_version, repo_url)`: set the two globals, then run a
        non-forced check. */
    method Init(version: seq<nat>, repo: string, env: CheckEnv) returns (requests: seq<string>, exit: Exit)
      modifies this, st
      ensures addonVersion == Some(version) && releasesUrl == Some(ReleasesUrl(repo))
      ensures Run(Model(), requests, exit) == CheckSpec(old(Model()), false, addonDir, version, ReleasesUrl(repo), env)
    {
      addonVersion := Some(version);
      releasesUrl := Some(ReleasesUrl(repo));
      requests, exit := UpdateCheck(false, env);
    }
  }

  // ---- Properties of the specification ----

  /** Loading after a save reads back update_available and counts the
      calendar days since the save. */
  lemma LoadAfterSave(w: World, file: Path, c: Clock, status: Option<Status>, later: Clock)
    ensures var saved := Save(w, file, c, status);
      Load(saved, file, later) ==
        Success(saved.(state := saved.state.(daysPassed := Some(Today(later) - DayOf(later, c.now)))))
  {
    assert Within(file, file);
  }

  /** Loading on the same clock right after a save changes nothing. */
  lemma LoadAfterSaveSameDay(w: World, file: Path, c: Clock, status: Option<Status>)
    ensures Load(Save(w, file, c, status), file, c) == Success(Save(w, file, c, status))
  {
    LoadAfterSave(w, file, c, status, c);
  }

  /** Right after a save, a non-forced check is due only while an update is known. */
  lemma DueAfterSave(w: World, file: Path, c: Clock, status: Option<Status>, p: Prefs)
    ensures IsAutocheck(Save(w, file, c, status).state, p) <==> p.autocheck && w.state.updateAvailable
  {
  }

  /** The loop goes past releases that it passes over. */
  lemma SkipPassedOver(rs: seq<Release>, k: nat, i: nat, p: Prefs, addon: seq<nat>, host: seq<nat>)
    requires k <= i <= |rs|
    requires forall j :: k <= j < i ==> PassedOver(rs[j], p, addon, host)
    ensures FirstRelease(rs, k, p, addon, host) == FirstRelease(rs, i, p, addon, host)
  {
    var step := LoopBody(p, addon, host);
    forall j | k <= j < i
      ensures step(rs[j]) == Pass
    {
      assert PassedOver(rs[j], p, addon, host);
    }
    ScanSkips(step, rs, k, i);
  }

  /** The loop stops at the first release it does not pass over. */
  lemma FirstReleaseAt(rs: seq<Release>, i: nat, p: Prefs, addon: seq<nat>, host: seq<nat>)
    requires i < |rs| && !PassedOver(rs[i], p, addon, host)
    requires forall j :: 0 <= j < i ==> PassedOver(rs[j], p, addon, host)
    ensures var vers := Version.ParseTag(rs[i].tagName);
      FirstRelease(rs, 0, p, addon, host) ==
        if |vers| == 2 then Selected(i, vers[0]) else UnpackFailed(i)
  {
    SkipPassedOver(rs, 0, i, p, addon, host);
  }

  /** The asset loop goes past names that are not installation files. */
  lemma {:induction false} SkipNonMatching(assets: seq<Asset>, k: nat, i: nat)
    requires k <= i <= |assets|
    requires forall j :: k <= j < i ==> !Pattern.IsInstallFile(assets[j].name)
    ensures FirstAsset(assets, k) == FirstAsset(assets, i)
    decreases i - k
  {
    if k < i {
      SkipNonMatching(assets, k + 1, i);
    }
  }

  /** The label reads back as the version's numbers, and it carries the pre-release
      note exactly when the release is a pre-release. */
  lemma VersionLabelParts(ver: seq<nat>, prerelease: bool)
    ensures var shown := VersionLabel(ver, prerelease);
      (prerelease <==> |shown| >= |PrereleaseNote| && shown[|shown| - |PrereleaseNote|..] == PrereleaseNote)
    ensures Text.DigitRuns(Text.Render(ver, '.')) == ver
  {
    var shown := VersionLabel(ver, prerelease);
    if !prerelease {
      assert shown == Text.Render(ver, '.') + "";
      if |shown| >= |PrereleaseNote| && shown[|shown| - |PrereleaseNote|..] == PrereleaseNote {
        assert shown[|shown| - 1] == ')';
      }
    }
    Text.DigitRunsOfRender(ver, '.');
  }

  /** A non-forced check that is not due clears update_available and does
      nothing else: no request, no status change, no file written. */
  lemma CheckNotDue(w: World, addonDir: Path, addon: seq<nat>, url: string, env: CheckEnv)
    requires Load(w, StateFile(addonDir), env.clock).Success?
    requires !IsAutocheck(Load(w, StateFile(addonDir), env.clock).value.state, env.prefs)
    ensures var r := CheckSpec(w, false, addonDir, addon, url, env);
      var loaded := Load(w, StateFile(addonDir), env.clock).value;
      r.requests == [] && r.exit == Returned && r.world.disk == w.disk &&
      r.world.state == loaded.state.(updateAvailable := false) &&
      r.world.state.status == w.state.status
  {
  }

  /** How a check that reached the network ends, from the world in which
      status became CHECKING: a raise wrote no file and left status at
      CHECKING; a return persisted update_available with the current time,
      reset days_passed, and left status idle or ERROR. */
  predicate Settled(before: World, r: Run, file: Path, url: string, c: Clock) {
    |r.requests| > 0 && r.requests[0] == url &&
    (r.exit.Raised? ==> r.world.disk == before.disk && r.world.state.status == before.state.status) &&
    (r.exit == Returned ==>
      (r.world.state.status == None || r.world.state.status == Some(Error)) &&
      r.world.state.daysPassed == Some(0) &&
      r.world.disk == before.disk[file := File(CheckRecord(Some(r.world.state.updateAvailable), Some(c.now)))])
  }

  lemma AfterAssetsSettled(w: World, file: Path, release: Release, ver: seq<nat>, url: string, env: CheckEnv)
    ensures Settled(w, AfterAssets(w, file, release, ver, url, env), file, url, env.clock)
  {
  }

  lemma AfterFeedSettled(w: World, file: Path, addon: seq<nat>, url: string, env: CheckEnv)
    ensures Settled(w, AfterFeed(w, file, addon, url, env), file, url, env.clock)
  {
    if env.feed.Fetched? {
      var s := FirstRelease(env.feed.body, 0, env.prefs, addon, env.hostVersion);
      if s.Selected? {
        AfterAssetsSettled(w, file, env.feed.body[s.index], s.version, url, env);
      }
    }
  }

  /** How any check ends.  A run that made no request changed neither
      status nor the file system; any other run is settled from the world
      it started with, except that a raise leaves status at CHECKING. */
  lemma CheckOutcomes(w: World, force: bool, addonDir: Path, addon: seq<nat>, url: string, env: CheckEnv)
    ensures var r := CheckSpec(w, force, addonDir, addon, url, env);
      (r.requests == [] ==> r.world.disk == w.disk && r.world.state.status == w.state.status) &&
      (r.requests != [] ==>
        Settled(w.(state := w.state.(status := Some(Checking))), r, StateFile(addonDir), url, env.clock) &&
        (r.exit.Raised? ==> r.world.state.status == Some(Checking)))
  {
    var file := StateFile(addonDir);
    match Load(w, file, env.clock) {
      case Failure(_) =>
      case Success(loaded) =>
        if force || IsAutocheck(loaded.state, env.prefs) {
          var checking := loaded.(state := loaded.state.(status := Some(Checking)));
          AfterFeedSettled(checking, file, addon, url, env);
          assert checking.disk == w.disk;
        }
    }
  }

  /** A due check over a feed in which the loop passes over every release
      records that no update is available and returns to idle. */
  lemma CheckNoRelease(w: World, force: bool, addonDir: Path, addon: seq<nat>, url: string, env: CheckEnv)
    requires Load(w, StateFile(addonDir), env.clock).Success?
    requires force || IsAutocheck(Load(w, StateFile(addonDir), env.clock).value.state, env.prefs)
    requires env.feed.Fetched?
    requires forall j :: 0 <= j < |env.feed.body| ==> PassedOver(env.feed.body[j], env.prefs, addon, env.hostVersion)
    ensures var r := CheckSpec(w, force, addonDir, addon, url, env);
      var loaded := Load(w, StateFile(addonDir), env.clock).value;
      r.requests == [url] && r.exit == Returned &&
      r.world.state == loaded.state.(status := None, daysPassed := Some(0), updateAvailable := false) &&
      r.world.disk == w.disk[StateFile(addonDir) := File(CheckRecord(Some(false), Some(env.clock.now)))]
  {
    NoReleaseIff(env.feed.body, 0, env.prefs, addon, env.hostVersion);
  }

  /** A due check stops at the first release it does not pass over; when
      that release is eligible and an installation file is among its assets,
      the first such asset and the release are recorded as the available
      update and status returns to idle. */
  lemma CheckFindsUpdate(w: World, force: bool, addonDir: Path, addon: seq<nat>, url: string, env: CheckEnv, i: nat, j: nat)
    requires Load(w, StateFile(addonDir), env.clock).Success?
    requires force || IsAutocheck(Load(w, StateFile(addonDir), env.clock).value.state, env.prefs)
    requires env.feed.Fetched? && env.assets.Fetched?
    requires i < |env.feed.body| && !PassedOver(env.feed.body[i], env.prefs, addon, env.hostVersion)
    requires Eligible(Version.ParseTag(env.feed.body[i].tagName), addon, env.hostVersion)
    requires forall k :: 0 <= k < i ==> PassedOver(env.feed.body[k], env.prefs, addon, env.hostVersion)
    requires j < |env.assets.body| && Pattern.IsInstallFile(env.assets.body[j].name)
    requires forall k :: 0 <= k < j ==> !Pattern.IsInstallFile(env.assets.body[k].name)
    ensures var r := CheckSpec(w, force, addonDir, addon, url, env);
      var loaded := Load(w, StateFile(addonDir), env.clock).value;
      var release := env.feed.body[i];
      r.requests == [url, release.assetsUrl] && r.exit == Returned &&
      r.world.state == loaded.state.(
        status := None,
        daysPassed := Some(0),
        updateAvailable := true,
        updateVersion := Some(VersionLabel(Version.ParseTag(release.tagName)[0], release.prerelease)),
        downloadUrl := Some(env.assets.body[j].downloadUrl),
        changelogUrl := Some(release.htmlUrl)) &&
      r.world.disk == w.disk[StateFile(addonDir) := File(CheckRecord(Some(true), Some(env.clock.now)))]
  {
    FirstReleaseAt(env.feed.body, i, env.prefs, addon, env.hostVersion);
    SkipNonMatching(env.assets.body, 0, j);
  }

  /** A chosen release without an installation file among its assets is
      reported as an error, and the check state is still persisted. */
  lemma CheckNoInstallFile(w: World, force: bool, addonDir: Path, addon: seq<nat>, url: string, env: CheckEnv, i: nat)
    requires Load(w, StateFile(addonDir), env.clock).Success?
    requires force || IsAutocheck(Load(w, StateFile(addonDir), env.clock).value.state, env.prefs)
    requires env.feed.Fetched? && env.assets.Fetched?
    requires i < |env.feed.body| && !PassedOver(env.feed.body[i], env.prefs, addon, env.hostVersion)
    requires Eligible(Version.ParseTag(env.feed.body[i].tagName), addon, env.hostVersion)
    requires forall k :: 0 <= k < i ==> PassedOver(env.feed.body[k], env.prefs, addon, env.hostVersion)
    requires forall k :: 0 <= k < |env.assets.body| ==> !Pattern.IsInstallFile(env.assets.body[k].name)
    ensures var r := CheckSpec(w, force, addonDir, addon, url, env);
      var loaded := Load(w, StateFile(addonDir), env.clock).value;
      r.requests == [url, env.feed.body[i].assetsUrl] && r.exit == Returned &&
      r.world.state == loaded.state.(status := Some(Error), daysPassed := Some(0), errorMsg := Some(NoInstallFile)) &&
      r.world.disk == w.disk[StateFile(addonDir) :=
        File(CheckRecord(Some(loaded.state.updateAvailable), Some(env.clock.now)))]
  {
    FirstReleaseAt(env.feed.body, i, env.prefs, addon, env.hostVersion);
    SkipNonMatching(env.assets.body, 0, |env.assets.body|);
  }

  /** A network error on the asset request of the chosen release is caught
      by the same handler: it is reported with its text, and the check state
      is still persisted. */
  lemma CheckAssetsUnreachable(w: World, force: bool, addonDir: Path, addon: seq<nat>, url: string, env: CheckEnv, i: nat)
    requires Load(w, StateFile(addonDir), env.clock).Success?
    requires force || IsAutocheck(Load(w, StateFile(addonDir), env.clock).value.state, env.prefs)
    requires env.feed.Fetched? && env.assets.NetworkError?
    requires i < |env.feed.body| && !PassedOver(env.feed.body[i], env.prefs, addon, env.hostVersion)
    requires Eligible(Version.ParseTag(env.feed.body[i].tagName), addon, env.hostVersion)
    requires forall k :: 0 <= k < i ==> PassedOver(env.feed.body[k], env.prefs, addon, env.hostVersion)
    ensures var r := CheckSpec(w, force, addonDir, addon, url, env);
      var loaded := Load(w, StateFile(addonDir), env.clock).value;
      r.requests == [url, env.feed.body[i].assetsUrl] && r.exit == Returned &&
      r.world.state == loaded.state.(status := Some(Error), daysPassed := Some(0), errorMsg := Some(env.assets.msg)) &&
      r.world.disk == w.disk[StateFile(addonDir) :=
        File(CheckRecord(Some(loaded.state.updateAvailable), Some(env.clock.now)))]
  {
    FirstReleaseAt(env.feed.body, i, env.prefs, addon, env.hostVersion);
  }

  /** A network error on the release feed is reported with its text, and
      the check state is still persisted. */
  lemma CheckFeedUnreachable(w: World, force: bool, addonDir: Path, addon: seq<nat>, url: string, env: CheckEnv)
    requires Load(w, StateFile(addonDir), env.clock).Success?
    requires force || IsAutocheck(Load(w, StateFile(addonDir), env.clock).value.state, env.prefs)
    requires env.feed.NetworkError?
    ensures var r := CheckSpec(w, force, addonDir, addon, url, env);
      var loaded := Load(w, StateFile(addonDir), env.clock).value;
      r.requests == [url] && r.exit == Returned &&
      r.world.state == loaded.state.(status := Some(Error), daysPassed := Some(0), errorMsg := Some(env.feed.msg)) &&
      r.world.disk == w.disk[StateFile(addonDir) :=
        File(CheckRecord(Some(loaded.state.updateAvailable), Some(env.clock.now)))]
  {
  }

  /** When the first release the loop does not skip has a tag with two or
      more '-', unpacking it raises: status stays CHECKING and nothing is
      written. */
  lemma CheckBadTag(w: World, force: bool, addonDir: Path, addon: seq<nat>, url: string, env: CheckEnv, i: nat)
    requires Load(w, StateFile(addonDir), env.clock).Success?
    requires force || IsAutocheck(Load(w, StateFile(addonDir), env.clock).value.state, env.prefs)
    requires env.feed.Fetched?
    requires i < |env.feed.body| && !Skipped(env.feed.body[i], env.prefs)
    requires Text.Count(env.feed.body[i].tagName, '-') >= 2
    requires forall k :: 0 <= k < i ==> PassedOver(env.feed.body[k], env.prefs, addon, env.hostVersion)
    ensures var r := CheckSpec(w, force, addonDir, addon, url, env);
      r.requests == [url] && r.exit == Raised(TagNotAPair) &&
      r.world.state.status == Some(Checking) && r.world.disk == w.disk
  {
    FirstReleaseAt(env.feed.body, i, env.prefs, addon, env.hostVersion);
  }

  // ---- Properties of the download ----

  /** The extract directory is a sibling of the add-on directory with a different name. */
  lemma ExtractDirSibling(addonDir: Path, version: string)
    requires addonDir != []
    ensures var e := ExtractDir(addonDir, version);
      |e| == |addonDir| && !Within(addonDir, e) && !Within(e, addonDir)
  {
    var e := ExtractDir(addonDir, version);
    assert |e[|e| - 1]| > |addonDir[|addonDir| - 1]|;
    assert e[..|addonDir|] == e && addonDir[..|e|] == addonDir;
  }

  /** After the swap, the add-on directory holds the archive's first
      top-level entry as extracted over what the extract directory held. */
  lemma SwapInside(t: Tree, addonDir: Path, e: Path, ms: seq<Member>)
    requires ms != [] && ms[0].path != []
    requires |addonDir| <= |e| && !Within(addonDir, e)
    ensures Relative(Swap(t, addonDir, e, ms), addonDir) ==
      Relative(Extract(Relative(t, e), [], ms), [ms[0].path[0]])
  {
    var top := ms[0].path[0];
    var t1 := RemoveTree(t, addonDir);
    var t2 := Extract(t1, e, ms);
    calc {
      Relative(Swap(t, addonDir, e, ms), addonDir);
    == { RemovedIsEmpty(t, addonDir); ExtractNotInside(t1, addonDir, e, ms); RenameRelative(t2, e + [top], addonDir); }
      Relative(t2, e + [top]);
    == { RelativeNested(t2, e, top); }
      Relative(Relative(t2, e), [top]);
    == { ExtractRelative(t1, e, ms); }
      Relative(Extract(Relative(t1, e), [], ms), [top]);
    == { RelativeRemoveTree(t, addonDir, e); }
      Relative(Extract(Relative(t, e), [], ms), [top]);
    }
  }

  /** The swap changes nothing outside the add-on and the extract directories. */
  lemma SwapOutside(t: Tree, addonDir: Path, e: Path, ms: seq<Member>)
    requires ms != [] && ms[0].path != []
    ensures Outside(Swap(t, addonDir, e, ms), addonDir, e) == Outside(t, addonDir, e)
  {
    var t1 := RemoveTree(t, addonDir);
    var t2 := Extract(t1, e, ms);
    OutsideRemoveTree(t, addonDir, e);
    OutsideExtract(t1, addonDir, e, e, ms);
    OutsideRename(t2, addonDir, e, e + [ms[0].path[0]], addonDir);
  }

  /** How any download ends: it touches only status and error_msg of the
      state; it ends COMPLETED or ERROR when it returns and INSTALLING when
      it raises; an ERROR leaves the file system unchanged, so the check
      state is not written. */
  lemma DownloadOutcomes(w: World, addonDir: Path, download: Fetch<seq<Member>>)
    ensures var r := DownloadSpec(w, addonDir, download);
      r.world.state.(status := w.state.status, errorMsg := w.state.errorMsg) == w.state &&
      (r.exit == Returned ==> r.world.state.status == Some(Completed) || r.world.state.status == Some(Error)) &&
      (r.exit.Raised? ==> r.world.state.status == Some(Installing)) &&
      (r.world.state.status == Some(Error) ==> r.world.disk == w.disk && r.world.state.errorMsg == Some(download.msg)) &&
      (r.requests == if w.state.downloadUrl.Some? then [w.state.downloadUrl.value] else [])
  {
    var r := DownloadSpec(w, addonDir, download);
    if w.state.downloadUrl.Some? && download.Fetched? {
      var ms := download.body;
      if w.state.updateVersion.Some? && ms != [] && ms[0].path != [] && Exists(w.disk, addonDir) {
        assert r.world.state.status != Some(Error);
      }
    }
  }

  /** The swap followed by the `rmdir` of the emptied extract directory. */
  lemma SwapThenRmdir(t: Tree, addonDir: Path, e: Path, ms: seq<Member>)
    requires ms != [] && ms[0].path != []
    requires |addonDir| == |e| && !Within(addonDir, e) && !Within(e, addonDir)
    requires !HasInside(Swap(t, addonDir, e, ms), e)
    ensures var r := Rmdir(Swap(t, addonDir, e, ms), e);
      Relative(r, addonDir) == Relative(Extract(Relative(t, e), [], ms), [ms[0].path[0]]) &&
      !Exists(r, e) &&
      Outside(r, addonDir, e) == Outside(t, addonDir, e)
  {
    var swapped := Swap(t, addonDir, e, ms);
    SwapInside(t, addonDir, e, ms);
    SwapOutside(t, addonDir, e, ms);
    RmdirRelative(swapped, e, addonDir);
    RmdirEmpties(swapped, e);
    OutsideRmdir(swapped, addonDir, e, e);
  }

  /** A completed install replaced the add-on directory by the archive's
      first top-level entry (extracted over whatever the extract directory
      held), removed the extract directory, and left everything outside the
      two directories as it was. */
  lemma DownloadInstalls(w: World, addonDir: Path, ms: seq<Member>)
    requires addonDir != []
    requires DownloadSpec(w, addonDir, Fetched(ms)).exit == Returned
    ensures w.state.downloadUrl.Some? && w.state.updateVersion.Some? && ms != [] && ms[0].path != []
    ensures var r := DownloadSpec(w, addonDir, Fetched(ms));
      var e := ExtractDir(addonDir, w.state.updateVersion.value);
      r.world.state == w.state.(status := Some(Completed)) &&
      Relative(r.world.disk, addonDir) == Relative(Extract(Relative(w.disk, e), [], ms), [ms[0].path[0]]) &&
      !Exists(r.world.disk, e) &&
      Outside(r.world.disk, addonDir, e) == Outside(w.disk, addonDir, e)
  {
    var e := ExtractDir(addonDir, w.state.updateVersion.value);
    ExtractDirSibling(addonDir, w.state.updateVersion.value);
    assert DownloadSpec(w, addonDir, Fetched(ms)).world.disk == Rmdir(Swap(w.disk, addonDir, e, ms), e);
    SwapThenRmdir(w.disk, addonDir, e, ms);
  }

  /** With no leftovers in the extract directory, the new add-on directory
      is exactly the archive's first top-level entry. */
  lemma DownloadInstallsArchive(w: World, addonDir: Path, ms: seq<Member>)
    requires addonDir != []
    requires DownloadSpec(w, addonDir, Fetched(ms)).exit == Returned
    requires w.state.updateVersion.Some? && !Exists(w.disk, ExtractDir(addonDir, w.state.updateVersion.value))
    ensures ms != [] && ms[0].path != []
    ensures Relative(DownloadSpec(w, addonDir, Fetched(ms)).world.disk, addonDir) == Relative(ArchiveTree(ms), [ms[0].path[0]])
  {
    DownloadInstalls(w, addonDir, ms);
    AbsentRelative(w.disk, ExtractDir(addonDir, w.state.updateVersion.value));
  }
}
