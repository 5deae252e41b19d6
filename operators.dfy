/** The `execute` methods of the check and install operators
    (mod_update/operators.py): a status guard, then the check or the
    download.  The worker thread each one starts is run to its end here. */
module Operators {
  import opened Wrappers
  import opened State
  import UpdateLib
  import Disk

  /** Blender's `{"CANCELLED"}` and `{"FINISHED"}`. */
  datatype OpResult = Cancelled | Finished

  /** `state.status in {CHECKING, INSTALLING, COMPLETED}`: a check or an
      install is running, or an install is waiting for Blender to restart. */
  predicate Busy(status: Option<Status>) {
    status == Some(Checking) || status == Some(Installing) || status == Some(Completed)
  }

  /** The guard lets an operator through exactly when the updater is idle or
      after an error. */
  lemma NotBusyIff(status: Option<Status>)
    ensures !Busy(status) <==> status == None || status == Some(Error)
  {
    match status {
      case None =>
      case Some(s) =>
        match s {
          case Checking =>
          case Installing =>
          case Completed =>
          case Error =>
        }
    }
  }

  /** `WM_OT_update_check.execute`: cancelled while busy, otherwise a forced check. */
  method CheckExecute(u: UpdateLib.Updater, env: UpdateLib.CheckEnv)
    returns (result: OpResult, requests: seq<string>, exit: UpdateLib.Exit)
    requires u.addonVersion.Some? && u.releasesUrl.Some?
    modifies u`disk, u.st
    ensures result == if Busy(old(u.st.status)) then Cancelled else Finished
    ensures result == Cancelled ==> u.Model() == old(u.Model()) && requests == [] && exit == UpdateLib.Returned
    ensures result == Finished ==>
      UpdateLib.Run(u.Model(), requests, exit) ==
        UpdateLib.CheckSpec(old(u.Model()), true, u.addonDir, u.addonVersion.value, u.releasesUrl.value, env)
  {
    if Busy(u.st.status) {
      return Cancelled, [], UpdateLib.Returned;
    }
    requests, exit := u.UpdateCheck(true, env);
    result := Finished;
  }

  /** `WM_OT_update_download.execute`: cancelled while busy, otherwise the download. */
  method DownloadExecute(u: UpdateLib.Updater, download: UpdateLib.Fetch<seq<Disk.Member>>)
    returns (result: OpResult, requests: seq<string>, exit: UpdateLib.Exit)
    modifies u`disk, u.st
    ensures result == if Busy(old(u.st.status)) then Cancelled else Finished
    ensures result == Cancelled ==> u.Model() == old(u.Model()) && requests == [] && exit == UpdateLib.Returned
    ensures result == Finished ==>
      UpdateLib.Run(u.Model(), requests, exit) == UpdateLib.DownloadSpec(old(u.Model()), u.addonDir, download)
  {
    if Busy(u.st.status) {
      return Cancelled, [], UpdateLib.Returned;
    }
    requests, exit := u.UpdateDownload(download);
    result := Finished;
  }

  /** A check that reached the network and raised leaves status at CHECKING,
      so every later check or install is cancelled; one that returned lets
      them through again. */
  lemma GuardAfterCheck(w: UpdateLib.World, force: bool, addonDir: Disk.Path, addon: seq<nat>, url: string, env: UpdateLib.CheckEnv)
    requires !Busy(w.state.status)
    ensures var r := UpdateLib.CheckSpec(w, force, addonDir, addon, url, env);
      (r.exit.Raised? && r.requests != [] ==> Busy(r.world.state.status)) &&
      (r.exit == UpdateLib.Returned ==> !Busy(r.world.state.status))
  {
    UpdateLib.CheckOutcomes(w, force, addonDir, addon, url, env);
  }

  /** After a download the guard is shut unless it ended in an error: a
      completed install waits for a restart, a raised one stays INSTALLING. */
  lemma GuardAfterDownload(w: UpdateLib.World, addonDir: Disk.Path, download: UpdateLib.Fetch<seq<Disk.Member>>)
    ensures var r := UpdateLib.DownloadSpec(w, addonDir, download);
      !Busy(r.world.state.status) <==> r.world.state.status == Some(Error)
  {
    UpdateLib.DownloadOutcomes(w, addonDir, download);
  }
}
