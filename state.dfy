/** The process-wide update state of mod_update/state.py: written by the
    checker and the downloader, read by the operators and the UI. */
module State {
  import opened Wrappers

  /** The four status constants; `None` in a status slot means idle. */
  datatype Status = Checking | Installing | Completed | Error

  /** The integer each status constant stands for in the source. */
  function Code(s: Status): (c: nat)
    ensures c <= 3
    ensures c == 0 <==> s == Checking
    ensures c == 1 <==> s == Installing
    ensures c == 2 <==> s == Completed
    ensures c == 3 <==> s == Error
  {
    match s
    case Checking => 0
    case Installing => 1
    case Completed => 2
    case Error => 3
  }

  /** The four codes are distinct. */
  lemma CodeInjective(a: Status, b: Status)
    ensures Code(a) == Code(b) ==> a == b
  {
  }

  /** The value of every field of the state at one moment. */
  datatype StateValue = StateValue(
    status: Option<Status>,
    daysPassed: Option<int>,
    updateAvailable: bool,
    updateVersion: Option<string>,
    downloadUrl: Option<string>,
    changelogUrl: Option<string>,
    errorMsg: Option<string>)

  /** The values the module starts with: idle, never checked, no update known. */
  const Initial := StateValue(None, None, false, None, None, None, None)

  class UpdateState {
    var status: Option<Status>
    var daysPassed: Option<int>
    var updateVersion: Option<string>
    var downloadUrl: Option<string>
    var changelogUrl: Option<string>
    var errorMsg: Option<string>
    var updateAvailable: bool

    function Value(): StateValue
      reads this
    {
      StateValue(status, daysPassed, updateAvailable, updateVersion, downloadUrl, changelogUrl, errorMsg)
    }

    /** Importing the module: every field at its initial value. */
    constructor ()
      ensures Value() == Initial
    {
      status := None;
      daysPassed := None;
      updateVersion := None;
      downloadUrl := None;
      changelogUrl := None;
      errorMsg := None;
      updateAvailable := false;
    }
  }
}
